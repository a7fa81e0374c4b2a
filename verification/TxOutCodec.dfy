/** Compressed transaction outputs: a compressed amount and a compressed script, and
    the stored output that holds one of each. */
module TxOutCodec {
  import opened Wrappers
  import opened Vlq
  import opened BinaryUtils
  import opened Script
  import Amount

  datatype Plain = Plain(amount: Word, script: seq<Byte>, size: nat)

  /** `OutOfRange` is the run-time failure of slicing past the end. */
  datatype DecodeError = EndAfterAmount | EndAfterScriptSize | OutOfRange

  // -------------------------------------------------------------- specification

  function Encoded(parse: Curve, amount: Word, script: seq<Byte>): seq<Byte> {
    Enc(Amount.Compress64(amount)) + Compressed(parse, script)
  }

  function Parsed(parse: Curve, s: seq<Byte>): Result<Plain, DecodeError> {
    var k := Size(s);
    if k >= |s| then Failure(EndAfterAmount)
    else
      ParsedScript(parse, Decoded(s), k, s[k..])
  }

  function ParsedScript(parse: Curve, a: Word, k: nat, rest: seq<Byte>): Result<Plain, DecodeError> {
    var n := DeclaredSize(rest);
    if |rest| < n then Failure(EndAfterScriptSize)
    else if n < 0 || !Sliceable(rest[..n]) then Failure(OutOfRange)
    else Success(Plain(Amount.Decompress64(a), Decompressed(parse, rest[..n]), k + n))
  }

  // ------------------------------------------------------------------ round trip

  /** A coded amount and a compressed script are read as that amount and that script,
      and what follows is not looked at. */
  lemma ParsedIs(parse: Curve, a: Word, c: seq<Byte>, rest: seq<Byte>, script: seq<Byte>)
    requires ReadsAs(parse, c, rest, script) && ReadsAs(parse, c, [], script) && |c| > 0
    ensures Parsed(parse, Enc(a) + c + rest) == Success(Plain(Amount.Decompress64(a), script, |Enc(a) + c|))
  {
    hide Size, Decoded, DeclaredSize, Sliceable, Decompressed, Enc;
    var s := Enc(a) + c + rest;
    assert s == Enc(a) + (c + rest);
    ReadsEnc(a, c + rest);
    assert s[|Enc(a)|..] == c + rest;
    assert (c + rest)[..|c|] == c + [];
  }

  /** Decoding an encoding followed by anything gives back the script and the exact
      number of bytes, and the amount too exactly when its compressed form fits. */
  lemma TxOutRoundTrip(parse: Curve, amount: Word, script: seq<Byte>, rest: seq<Byte>)
    requires Sec1(parse) && |Compressed(parse, script)| < INT_LIMIT
    ensures var e := Encoded(parse, amount, script); var r := Parsed(parse, e + rest);
            r.Success? && r.value.script == script && r.value.size == |e|
            && (r.value.amount == amount <==> Amount.Fits(amount))
  {
    ScriptRoundTrip(parse, script, rest);
    ScriptRoundTrip(parse, script, []);
    ParsedIs(parse, Amount.Compress64(amount), Compressed(parse, script), rest, script);
    Amount.LosslessExactly(amount);
  }

  // ------------------------------------------------------------------- truncation

  lemma {:induction false} SizeOfOpen(p: seq<Byte>)
    requires forall i :: 0 <= i < |p| ==> p[i] >= 128
    ensures Size(p) == |p|
    decreases |p|
  {
    if |p| > 0 {
      SizeOfOpen(p[1..]);
    }
  }

  lemma {:induction false} CarryAtMost(s: seq<Byte>, i: nat)
    requires i < |s|
    ensures Carry(s[..i]) <= Value(s)
    decreases |s|
  {
    var front := s[..|s| - 1];
    if i < |s| - 1 {
      CarryAtMost(front, i);
      assert front[..i] == s[..i];
    }
  }

  /** An encoding cut short: everything is read, and it counts as one more than the
      groups say. */
  lemma CutShort(n: Word, i: nat)
    requires i < |Enc(n)|
    ensures var p := Enc(n)[..i]; Size(p) == i && i <= 9 && Decoded(p) == Carry(p) <= n
  {
    EncComplete(n);
    EncAtMostTen(n);
    var p := Enc(n)[..i];
    SizeOfOpen(p);
    CarryAtMost(Enc(n), i);
    DigitsValue(n, 0);
    assert p[..i] == p;
    ModIs(Carry(p), 0, Carry(p));
  }

  /** Only one cut of a size reads as that of an empty script with nothing missing. */
  lemma SixIsOneByte(p: seq<Byte>)
    requires |p| > 0 && forall i :: 0 <= i < |p| ==> p[i] >= 128
    ensures Carry(p) == SPECIAL <==> p == [0x85]
  {
    if |p| > 1 {
      assert Carry(p[..|p| - 1]) > 0;
    } else {
      assert p[..0] == [] && p == [p[0]];
      assert Value(p) == p[0] % 128;
    }
  }

  /** The part of a compressed script that is left declares more than there is, except
      when it is the single byte 0x85. */
  lemma ScriptCutShort(parse: Curve, script: seq<Byte>, i: nat)
    requires |Compressed(parse, script)| < INT_LIMIT && 0 < i < |Compressed(parse, script)|
    ensures var p := Compressed(parse, script)[..i];
            if p == [0x85] then DeclaredSize(p) == 1 && Decoded(p) == SPECIAL && Size(p) == 1
            else DeclaredSize(p) > i
  {
    var c := Compressed(parse, script);
    var p := c[..i];
    if IsPubKeyHash(script) || IsScriptHash(script) || PubKeyOf(parse, script).Some? {
      if !IsPubKeyHash(script) && !IsScriptHash(script) {
        KeyForms(parse, script);
      }
      OneByte(c[0], p[1..]);
      assert p == [c[0]] + p[1..];
    } else {
      GeneralCutShort(script, i);
    }
  }

  lemma DeclaredIs(x: seq<Byte>, k: nat, t: nat)
    requires Size(x) == k > 0 && Decoded(x) == t && t >= SPECIAL && t - SPECIAL + k < INT_LIMIT
    ensures DeclaredSize(x) == t - SPECIAL + k
  {
    SignedIs(t - SPECIAL + k);
  }

  lemma GeneralCutShort(script: seq<Byte>, i: nat)
    requires |Enc(|script| + SPECIAL) + script| < INT_LIMIT && 0 < i < |Enc(|script| + SPECIAL) + script|
    ensures var p := (Enc(|script| + SPECIAL) + script)[..i];
            if p == [0x85] then DeclaredSize(p) == 1 && Decoded(p) == SPECIAL && Size(p) == 1
            else DeclaredSize(p) > i
  {
    var n := |script| + SPECIAL;
    var v := Enc(n);
    var p := (v + script)[..i];
    if i >= |v| {
      assert p == v + script[..i - |v|];
      ReadsEnc(n, script[..i - |v|]);
      DeclaredIs(p, |v|, n);
      EncComplete(n);
      assert p[|v| - 1] < 128;
    } else {
      assert p == v[..i];
      OpenSize(n, i);
    }
  }

  lemma OpenSize(n: Word, i: nat)
    requires n >= SPECIAL && 0 < i < |Enc(n)| && n - SPECIAL + |Enc(n)| < INT_LIMIT
    ensures var p := Enc(n)[..i];
            if p == [0x85] then DeclaredSize(p) == 1 && Decoded(p) == SPECIAL && Size(p) == 1
            else DeclaredSize(p) > i
  {
    var p := Enc(n)[..i];
    EncComplete(n);
    CutShort(n, i);
    SixIsOneByte(p);
    if Decoded(p) >= SPECIAL {
      DeclaredIs(p, i, Decoded(p));
    }
  }

  /** A proper beginning of an encoding is refused, unless it ends after the first byte
      of the script's size and that byte is 0x85: then it reads as an empty script. */
  lemma Truncated(parse: Curve, amount: Word, script: seq<Byte>, j: nat)
    requires |Compressed(parse, script)| < INT_LIMIT && j < |Encoded(parse, amount, script)|
    ensures var e, a := Encoded(parse, amount, script), |Enc(Amount.Compress64(amount))|;
            var r := Parsed(parse, e[..j]);
            (r.Success? <==> j == a + 1 && e[a] == 0x85)
            && (r.Success? ==> r.value.script == [] && r.value.size == j)
            && (r.Failure? ==> r.error == if j <= a then EndAfterAmount else EndAfterScriptSize)
  {
    hide Size, Decoded, DeclaredSize, Sliceable;
    var n := Amount.Compress64(amount);
    var a, c := Enc(n), Compressed(parse, script);
    if j < |a| {
      assert (a + c)[..j] == a[..j];
      CutShort(n, j);
    } else if j == |a| {
      assert (a + c)[..j] == a + [];
      ReadsEnc(n, []);
    } else {
      assert (a + c)[..j] == a + c[..j - |a|];
      ScriptTruncated(parse, n, script, j - |a|);
    }
  }

  /** Such an encoding: the script of 762 zeroes. */
  lemma TruncationOccurs(parse: Curve, amount: Word)
    ensures Compressed(parse, Zeroes(762)) == [0x85, 0x00] + Zeroes(762)
    ensures var a := |Enc(Amount.Compress64(amount))|;
            Parsed(parse, Encoded(parse, amount, Zeroes(762))[..a + 1]).Success?
  {
    var n: nat := 762 + SPECIAL;
    assert n / 128 - 1 == 5 && n % 128 == 0;
    assert Enc(n) == Digits(5, 128) + [0] == [0x85, 0x00];
    Truncated(parse, amount, Zeroes(762), |Enc(Amount.Compress64(amount))| + 1);
  }

  lemma ScriptTruncated(parse: Curve, n: Word, script: seq<Byte>, i: nat)
    requires |Compressed(parse, script)| < INT_LIMIT && 0 < i < |Compressed(parse, script)|
    ensures var c := Compressed(parse, script); var r := Parsed(parse, Enc(n) + c[..i]);
            if i == 1 && c[0] == 0x85 then r == Success(Plain(Amount.Decompress64(n), [], |Enc(n)| + 1))
            else r == Failure(EndAfterScriptSize)
  {
    var p := Compressed(parse, script)[..i];
    ReadsEnc(n, p);
    assert (Enc(n) + p)[|Enc(n)|..] == p;
    ScriptCutShort(parse, script, i);
    assert p == [0x85] <==> i == 1 && p[0] == 0x85;
    assert p[..i] == p;
  }

  // ------------------------------------------------------------------------- code

  method CompressedTxOutSize(parse: Curve, amount: Word, pkScript: seq<Byte>) returns (size: nat)
    requires |pkScript| + SPECIAL < WORD
    ensures size == |Enc(Amount.Compress64(amount)) + Compressed(parse, pkScript)|
  {
    var compressed := Amount.CompressTxOutAmount(amount);
    var a := SerializeSizeVLQ(compressed);
    var b := CompressedScriptSize(parse, pkScript);
    size := a + b;
  }

  method PutCompressedTxOut(parse: Curve, target: array<Byte>, at: nat, amount: Word, pkScript: seq<Byte>) returns (size: nat)
    requires |pkScript| + SPECIAL < WORD && at + |Enc(Amount.Compress64(amount)) + Compressed(parse, pkScript)| <= target.Length
    modifies target
    ensures size == |Enc(Amount.Compress64(amount)) + Compressed(parse, pkScript)|
    ensures target[..] == Written(old(target[..]), at, Enc(Amount.Compress64(amount)) + Compressed(parse, pkScript))
  {
    var compressed := Amount.CompressTxOutAmount(amount);
    var offset := PutVLQ(target, at, compressed);
    var n := PutCompressedScript(parse, target, at + offset, pkScript);
    size := offset + n;
    WrittenTwice(old(target[..]), at, Enc(compressed), Compressed(parse, pkScript));
  }

  method DecodeCompressedTxOut(parse: Curve, serialized: seq<Byte>) returns (r: Result<Plain, DecodeError>)
    ensures r == Parsed(parse, serialized)
  {
    var compressedAmount, bytesRead := Vlq.DeserializeVLQ(serialized);
    if bytesRead >= |serialized| {
      return Failure(EndAfterAmount);
    }
    var rest := serialized[bytesRead..];
    var scriptSize := DecodeCompressedScriptSize(rest);
    if |rest| < scriptSize {
      return Failure(EndAfterScriptSize);
    }
    if scriptSize < 0 || !Sliceable(rest[..scriptSize]) {
      return Failure(OutOfRange);
    }
    var amount := Amount.DecompressTxOutAmount(compressedAmount);
    var script := DecompressScript(parse, rest[..scriptSize]);
    r := Success(Plain(amount, script, bytesRead + scriptSize));
  }

  // -------------------------------------------------------------- stored outputs

  class TransactionOutput {
    var compressedScript: seq<Byte>
    var compressedAmount: Word

    constructor ()
      ensures compressedScript == [] && compressedAmount == 0
    {
      compressedScript, compressedAmount := [], 0;
    }

    ghost function AmountOf(): Word
      reads this
    {
      Amount.Decompress64(compressedAmount)
    }

    ghost predicate HasScript(parse: Curve, script: seq<Byte>)
      reads this
    {
      Sliceable(compressedScript) && Decompressed(parse, compressedScript) == script
    }

    /** What was set is what is got exactly for amounts whose compressed form fits. */
    method SetAmount(amount: Word)
      modifies this`compressedAmount
      ensures AmountOf() == amount <==> Amount.Fits(amount)
      ensures compressedAmount == Amount.Compress64(amount)
    {
      compressedAmount := Amount.CompressTxOutAmount(amount);
      Amount.LosslessExactly(amount);
    }

    method GetAmount() returns (r: Word)
      ensures r == AmountOf()
    {
      r := Amount.DecompressTxOutAmount(compressedAmount);
    }

    method SetScriptBytes(parse: Curve, pkScript: seq<Byte>)
      requires |pkScript| + 16 < INT_LIMIT
      modifies this`compressedScript
      ensures Sec1(parse) ==> HasScript(parse, pkScript)
      ensures compressedScript == Compressed(parse, pkScript)
    {
      var buffer := new Byte[|pkScript| + 16](_ => 0);
      FitsBuffer(parse, pkScript);
      var size := PutCompressedScript(parse, buffer, 0, pkScript);
      compressedScript := buffer[..size];
      assert compressedScript == Compressed(parse, pkScript);
      if Sec1(parse) {
        ScriptRoundTrip(parse, pkScript, []);
        assert compressedScript + [] == compressedScript;
      }
    }

    method GetScriptBytes(parse: Curve) returns (r: seq<Byte>)
      requires Sliceable(compressedScript)
      ensures HasScript(parse, r)
    {
      r := DecompressScript(parse, compressedScript);
    }
  }
}
