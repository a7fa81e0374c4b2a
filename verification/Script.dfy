/** The domain-specific compression of scripts and of transaction outputs. */
module Script {
  import opened Wrappers
  import opened Vlq
  import opened BinaryUtils

  /** A public key written out: the byte 4 and both coordinates. */
  type Key = k: seq<Byte> | |k| == 65 witness Zeroes(65)

  /** Parsing a public key; the curve itself is not modelled. */
  type Curve = seq<Byte> -> Option<Key>

  /** Section 2.3.4 of SEC 1: a valid key written out with both coordinates is the key
      that its first coordinate and the parity of its second one stand for. */
  ghost predicate Sec1(parse: Curve) {
    forall k: seq<Byte> :: |k| == 65 && k[0] == 4 && parse(k).Some? ==> parse([2 + k[64] % 2] + k[1..33]) == Some(k)
  }

  const SPECIAL: nat := 6
  const INT_LIMIT: nat := 0x8000_0000_0000_0000

  // -------------------------------------------------------------- specification

  predicate IsPubKeyHash(s: seq<Byte>) {
    |s| == 25 && s[0] == 0x76 && s[1] == 0xa9 && s[2] == 0x14 && s[23] == 0x88 && s[24] == 0xac
  }

  predicate IsScriptHash(s: seq<Byte>) {
    |s| == 23 && s[0] == 0xa9 && s[1] == 0x14 && s[22] == 0x87
  }

  /** The valid key that a pay-to-pubkey script pays to. */
  function PubKeyOf(parse: Curve, s: seq<Byte>): Option<seq<Byte>> {
    if |s| == 35 && s[0] == 0x21 && s[34] == 0xac && (s[1] == 2 || s[1] == 3) && parse(s[1..34]).Some?
    then Some(s[1..34])
    else if |s| == 67 && s[0] == 0x41 && s[66] == 0xac && s[1] == 4 && parse(s[1..66]).Some?
    then Some(s[1..66])
    else None
  }

  function KeyType(key: seq<Byte>): Byte
    requires |key| >= 33
  {
    if key[0] == 4 && |key| == 65 then 4 + key[64] % 2 else key[0]
  }

  function Compressed(parse: Curve, s: seq<Byte>): seq<Byte> {
    if IsPubKeyHash(s) then [0] + s[3..23]
    else if IsScriptHash(s) then [1] + s[2..22]
    else
      match PubKeyOf(parse, s)
      case Some(key) => [KeyType(key)] + key[1..33]
      case None => Enc(|s| + SPECIAL) + s
  }

  /** A 64-bit word read as a signed integer. */
  function Signed(n: Word): int {
    if n < INT_LIMIT then n else n - WORD
  }

  /** How many bytes a compressed script declares to take. */
  function DeclaredSize(s: seq<Byte>): int {
    var t := Decoded(s);
    if Size(s) == 0 then 0
    else if t <= 1 then 21
    else if t <= 5 then 33
    else Signed((t - SPECIAL + Size(s)) % WORD)
  }

  /** The bytes that decompression slices are there. */
  predicate Sliceable(s: seq<Byte>) {
    var t := Decoded(s);
    |s| == 0 || 4 <= t <= 5
    || (t <= 1 && Size(s) + 20 <= |s|)
    || (2 <= t <= 3 && Size(s) + 32 <= |s|)
    || (SPECIAL <= t < INT_LIMIT + SPECIAL && Size(s) + (t - SPECIAL) <= |s|)
  }

  /** What a key on the curve is written out as; an invalid one as the empty script. */
  function PayToKey(key: Option<Key>): seq<Byte> {
    match key
    case Some(k) => [0x41] + k + [0xac]
    case None => []
  }

  function Decompressed(parse: Curve, s: seq<Byte>): seq<Byte>
    requires Sliceable(s)
  {
    var t, k := Decoded(s), Size(s);
    if |s| == 0 then []
    else if t == 0 then [0x76, 0xa9, 0x14] + s[k..k + 20] + [0x88, 0xac]
    else if t == 1 then [0xa9, 0x14] + s[k..k + 20] + [0x87]
    else if t <= 3 then [0x21, t] + s[k..k + 32] + [0xac]
    else if t <= 5 then PayToKey(parse([t - 2] + Fitted(s[1..], 32)))
    else s[k..k + (t - SPECIAL)]
  }

  lemma DecompressedKey(parse: Curve, s: seq<Byte>, t: Word)
    requires |s| > 0 && Decoded(s) == t && 4 <= t <= 5
    ensures Sliceable(s) && Decompressed(parse, s) == PayToKey(parse([t - 2] + Fitted(s[1..], 32)))
  {
  }

  // ------------------------------------------------------------------ round trip

  lemma OneByte(t: Byte, rest: seq<Byte>)
    requires t < 128
    ensures Size([t] + rest) == 1 && Decoded([t] + rest) == t
  {
    assert Enc(t) == [t];
    ReadsEnc(t, rest);
  }

  /** Only keys of the two recognised forms are ever found. */
  lemma KeyForms(parse: Curve, s: seq<Byte>)
    requires PubKeyOf(parse, s).Some?
    ensures var key := PubKeyOf(parse, s).value;
            (|key| == 33 && 2 <= key[0] <= 3 && s == [0x21] + key + [0xac])
            || (|key| == 65 && key[0] == 4 && parse(key).Some? && s == [0x41] + key + [0xac])
  {
  }

  /** Reading `c`, whatever follows it, takes exactly `c` and gives `s`. */
  predicate ReadsAs(parse: Curve, c: seq<Byte>, rest: seq<Byte>, s: seq<Byte>) {
    DeclaredSize(c + rest) == |c| && Sliceable(c + rest) && Decompressed(parse, c + rest) == s
  }

  lemma HashReadsAs(parse: Curve, t: Byte, h: seq<Byte>, rest: seq<Byte>)
    requires t <= 1 && |h| == 20
    ensures ReadsAs(parse, [t] + h, rest, if t == 0 then [0x76, 0xa9, 0x14] + h + [0x88, 0xac] else [0xa9, 0x14] + h + [0x87])
  {
    assert [t] + h + rest == [t] + (h + rest);
    OneByte(t, h + rest);
    assert ([t] + h + rest)[1..21] == h;
  }

  lemma HashRoundTrip(parse: Curve, s: seq<Byte>, rest: seq<Byte>)
    requires IsPubKeyHash(s) || IsScriptHash(s)
    ensures ReadsAs(parse, Compressed(parse, s), rest, s)
  {
    if IsPubKeyHash(s) {
      HashReadsAs(parse, 0, s[3..23], rest);
      assert s == [0x76, 0xa9, 0x14] + s[3..23] + [0x88, 0xac];
    } else {
      HashReadsAs(parse, 1, s[2..22], rest);
      assert s == [0xa9, 0x14] + s[2..22] + [0x87];
    }
  }

  lemma KeyRoundTrip(parse: Curve, s: seq<Byte>, rest: seq<Byte>)
    requires Sec1(parse) && !IsPubKeyHash(s) && !IsScriptHash(s) && PubKeyOf(parse, s).Some?
    ensures ReadsAs(parse, Compressed(parse, s), rest, s)
  {
    var c, key := Compressed(parse, s), PubKeyOf(parse, s).value;
    KeyForms(parse, s);
    assert c + rest == [c[0]] + (c[1..] + rest);
    OneByte(c[0], c[1..] + rest);
    assert (c + rest)[1..33] == key[1..33];
    if |key| == 65 {
      assert Fitted((c + rest)[1..], 32) == key[1..33];
      assert parse([2 + key[64] % 2] + key[1..33]) == Some(key);
    }
  }

  lemma SignedIs(n: nat)
    requires n < INT_LIMIT
    ensures Signed(n % WORD) == n
  {
  }

  lemma GeneralReadsAs(parse: Curve, x: seq<Byte>, k: nat, s: seq<Byte>)
    requires Size(x) == k > 0 && Decoded(x) == |s| + SPECIAL && k + |s| < INT_LIMIT
    requires k + |s| <= |x| && x[k..k + |s|] == s
    ensures DeclaredSize(x) == k + |s| && Sliceable(x) && Decompressed(parse, x) == s
  {
    hide Decoded, Size;
    var t := Decoded(x);
    assert DeclaredSize(x) == Signed((t - SPECIAL + Size(x)) % WORD);
    assert t - SPECIAL + Size(x) == k + |s|;
    SignedIs(k + |s|);
  }

  lemma GeneralRoundTrip(parse: Curve, s: seq<Byte>, rest: seq<Byte>)
    requires |Enc(|s| + SPECIAL) + s| < INT_LIMIT
    ensures ReadsAs(parse, Enc(|s| + SPECIAL) + s, rest, s)
  {
    var v := Enc(|s| + SPECIAL);
    assert v + s + rest == v + (s + rest);
    ReadsEnc(|s| + SPECIAL, s + rest);
    GeneralReadsAs(parse, v + s + rest, |v|, s);
  }

  /** Decompression undoes compression on every script, whatever follows, and the
      declared size is the exact one. */
  lemma ScriptRoundTrip(parse: Curve, s: seq<Byte>, rest: seq<Byte>)
    requires Sec1(parse) && |Compressed(parse, s)| < INT_LIMIT
    ensures ReadsAs(parse, Compressed(parse, s), rest, s)
  {
    if IsPubKeyHash(s) || IsScriptHash(s) {
      HashRoundTrip(parse, s, rest);
    } else if PubKeyOf(parse, s).Some? {
      KeyRoundTrip(parse, s, rest);
    } else {
      GeneralRoundTrip(parse, s, rest);
    }
  }

  // ------------------------------------------------------- the forms, byte for byte

  /** A script paying to a hash takes 21 bytes: 0 or 1 and the hash. */
  lemma HashForms(parse: Curve, h: seq<Byte>)
    requires |h| == 20
    ensures Compressed(parse, [0x76, 0xa9, 0x14] + h + [0x88, 0xac]) == [0] + h
    ensures Compressed(parse, [0xa9, 0x14] + h + [0x87]) == [1] + h
  {
    var p, q := [0x76, 0xa9, 0x14] + h + [0x88, 0xac], [0xa9, 0x14] + h + [0x87];
    assert p[3..23] == h && q[2..22] == h;
  }

  /** A script paying to a valid key takes 33 bytes: 2 or 3 as in a compressed key, 4 or 5
      for the parity of an uncompressed one, and the first coordinate. */
  lemma CompressedKeyForm(parse: Curve, t: Byte, x: seq<Byte>)
    requires 2 <= t <= 3 && |x| == 32 && parse([t] + x).Some?
    ensures Compressed(parse, [0x21, t] + x + [0xac]) == [t] + x
  {
    var s := [0x21, t] + x + [0xac];
    assert s[1..34] == [t] + x;
    assert ([t] + x)[1..33] == x;
  }

  lemma UncompressedKeyForm(parse: Curve, x: seq<Byte>, y: seq<Byte>)
    requires |x| == 32 && |y| == 32 && parse([4] + x + y).Some?
    ensures Compressed(parse, [0x41, 4] + x + y + [0xac]) == [4 + y[31] % 2] + x
  {
    var k, s := [4] + x + y, [0x41, 4] + x + y + [0xac];
    assert s[1..66] == k;
    assert k[1..33] == x && k[64] == y[31];
  }

  /** None of the five forms above. */
  ghost predicate Unrecognised(parse: Curve, s: seq<Byte>) {
    (forall h: seq<Byte> :: |h| == 20 ==> s != [0x76, 0xa9, 0x14] + h + [0x88, 0xac] && s != [0xa9, 0x14] + h + [0x87])
    && (forall t: Byte, x: seq<Byte> :: 2 <= t <= 3 && |x| == 32 && parse([t] + x).Some? ==> s != [0x21, t] + x + [0xac])
    && (forall x: seq<Byte>, y: seq<Byte> :: |x| == 32 && |y| == 32 && parse([4] + x + y).Some? ==> s != [0x41, 4] + x + y + [0xac])
  }

  lemma HashOf(s: seq<Byte>) returns (h: seq<Byte>)
    requires IsPubKeyHash(s) || IsScriptHash(s)
    ensures |h| == 20 && (s == [0x76, 0xa9, 0x14] + h + [0x88, 0xac] || s == [0xa9, 0x14] + h + [0x87])
  {
    h := if |s| == 25 then s[3..23] else s[2..22];
  }

  lemma CoordinatesOf(parse: Curve, s: seq<Byte>) returns (t: Byte, x: seq<Byte>, y: seq<Byte>)
    requires PubKeyOf(parse, s).Some?
    ensures |x| == 32 && |y| == 32
    ensures (2 <= t <= 3 && parse([t] + x).Some? && s == [0x21, t] + x + [0xac])
            || (parse([4] + x + y).Some? && s == [0x41, 4] + x + y + [0xac])
  {
    t, x, y := s[1], s[2..34], if |s| == 35 then s[2..34] else s[34..66];
    assert if |s| == 35 then s[1..34] == [t] + x else s[1..66] == [4] + x + y;
  }

  /** Every other script, a key that is not valid included, is its length plus six as a
      variable length quantity, and then itself. */
  lemma GeneralForm(parse: Curve, s: seq<Byte>)
    requires Unrecognised(parse, s)
    ensures Compressed(parse, s) == Enc(|s| + 6) + s
  {
    hide IsPubKeyHash, IsScriptHash, PubKeyOf, Enc;
    if IsPubKeyHash(s) || IsScriptHash(s) {
      var h := HashOf(s);
      assert false;
    }
    if PubKeyOf(parse, s).Some? {
      var t, x, y := CoordinatesOf(parse, s);
      assert false;
    }
  }

  /** What is read for the six types below the general form, whatever follows: the scripts
      of the first four, and those of the keys that the last two stand for. */
  lemma HashesRead(parse: Curve, h: seq<Byte>, rest: seq<Byte>)
    requires |h| == 20
    ensures ReadsAs(parse, [0] + h, rest, [0x76, 0xa9, 0x14] + h + [0x88, 0xac])
    ensures ReadsAs(parse, [1] + h, rest, [0xa9, 0x14] + h + [0x87])
  {
    HashReadsAs(parse, 0, h, rest);
    HashReadsAs(parse, 1, h, rest);
  }

  lemma CompressedKeyRead(parse: Curve, t: Byte, x: seq<Byte>, rest: seq<Byte>)
    requires 2 <= t <= 3 && |x| == 32
    ensures ReadsAs(parse, [t] + x, rest, [0x21, t] + x + [0xac])
  {
    assert [t] + x + rest == [t] + (x + rest);
    OneByte(t, x + rest);
    assert ([t] + x + rest)[1..33] == x;
  }

  lemma UncompressedKeyRead(parse: Curve, t: Byte, x: seq<Byte>, rest: seq<Byte>)
    requires 4 <= t <= 5 && |x| == 32
    ensures parse([t - 2] + x).None? ==> ReadsAs(parse, [t] + x, rest, [])
    ensures parse([t - 2] + x).Some? ==> ReadsAs(parse, [t] + x, rest, [0x41] + parse([t - 2] + x).value + [0xac])
  {
    assert [t] + x + rest == [t] + (x + rest);
    OneByte(t, x + rest);
    assert Fitted(([t] + x + rest)[1..], 32) == x;
  }

  lemma SignedWrapped(n: int)
    requires 0 <= n < WORD + INT_LIMIT
    ensures Signed(n % WORD) == if n < INT_LIMIT then n else n - WORD
  {
    ModIs(n, if n < WORD then 0 else 1, if n < WORD then n else n - WORD);
  }

  /** The size that any input declares: the sum of 64-bit words, read as a signed
      number, so negative from half of the largest word on. */
  lemma DeclaredSizes(t: Word, rest: seq<Byte>)
    ensures DeclaredSize([]) == 0
    ensures DeclaredSize(Enc(t) + rest)
            == if t <= 1 then 21
               else if t <= 5 then 33
               else
                 var n := t - 6 + |Enc(t)|;
                 if n < 0x8000_0000_0000_0000 then n else n - 0x1_0000_0000_0000_0000
  {
    ReadsEnc(t, rest);
    EncAtMostTen(t);
    hide Enc, Decoded, Size;
    if t > 5 {
      SignedWrapped(t - SPECIAL + |Enc(t)|);
    }
  }

  /** A coordinate that the input cuts short is filled up with zeroes. */
  lemma CutKeyRead(parse: Curve, t: Byte, x: seq<Byte>)
    requires 4 <= t <= 5 && |x| < 32
    ensures Sliceable([t] + x)
    ensures Decompressed(parse, [t] + x) == PayToKey(parse([t - 2] + (x + seq(32 - |x|, _ => 0))))
  {
    OneByte(t, x);
    assert Fitted(([t] + x)[1..], 32) == x + seq(32 - |x|, _ => 0);
  }

  // ----------------------------------------------------------------------- sizes

  /** The buffer that the setter allocates is always large enough. */
  lemma FitsBuffer(parse: Curve, script: seq<Byte>)
    requires |script| + SPECIAL < WORD
    ensures |Compressed(parse, script)| <= |script| + 16
  {
    EncAtMostTen(|script| + SPECIAL);
    if PubKeyOf(parse, script).Some? {
      KeyForms(parse, script);
    }
  }

  method CompressedScriptSize(parse: Curve, pkScript: seq<Byte>) returns (size: nat)
    requires |pkScript| + SPECIAL < WORD
    ensures size == |Compressed(parse, pkScript)|
  {
    if IsPubKeyHash(pkScript) {
      return 21;
    }
    if IsScriptHash(pkScript) {
      return 21;
    }
    if PubKeyOf(parse, pkScript).Some? {
      KeyForms(parse, pkScript);
      return 33;
    }
    var vlq := SerializeSizeVLQ(|pkScript| + SPECIAL);
    return vlq + |pkScript|;
  }

  method DecodeCompressedScriptSize(serialized: seq<Byte>) returns (size: int)
    ensures size == DeclaredSize(serialized)
  {
    var scriptSize, bytesRead := Vlq.DeserializeVLQ(serialized);
    if bytesRead == 0 {
      return 0;
    }
    if scriptSize <= 1 {
      return 21;
    }
    if scriptSize <= 5 {
      return 33;
    }
    return Signed((scriptSize - SPECIAL + bytesRead) % WORD);
  }

  // ---------------------------------------------------------------- compression

  /** A byte and then some others, put at a place of the target. */
  method PutTagged(target: array<Byte>, at: nat, tag: Byte, bytes: seq<Byte>)
    requires at + 1 + |bytes| <= target.Length
    modifies target
    ensures target[..] == Written(old(target[..]), at, [tag] + bytes)
  {
    target[at] := tag;
    assert target[..] == Written(old(target[..]), at, [tag]);
    var count := CopyInto(target, at + 1, bytes);
    WrittenTwice(old(target[..]), at, [tag], bytes);
  }

  /** Compresses a script into the target and leaves everything around it. */
  method PutCompressedScript(parse: Curve, target: array<Byte>, at: nat, pkScript: seq<Byte>) returns (size: nat)
    requires |pkScript| + SPECIAL < WORD && at + |Compressed(parse, pkScript)| <= target.Length
    modifies target
    ensures size == |Compressed(parse, pkScript)|
    ensures target[..] == Written(old(target[..]), at, Compressed(parse, pkScript))
  {
    hide Written, Enc, PubKeyOf;
    if IsPubKeyHash(pkScript) {
      PutTagged(target, at, 0, pkScript[3..23]);
      return 21;
    }
    if IsScriptHash(pkScript) {
      PutTagged(target, at, 1, pkScript[2..22]);
      return 21;
    }
    var key := PubKeyOf(parse, pkScript);
    if key.Some? {
      KeyForms(parse, pkScript);
      PutTagged(target, at, if key.value[0] == 4 then 4 + key.value[64] % 2 else key.value[0], key.value[1..33]);
      return 33;
    }
    size := PutGeneral(target, at, pkScript);
  }

  method PutGeneral(target: array<Byte>, at: nat, pkScript: seq<Byte>) returns (size: nat)
    requires |pkScript| + SPECIAL < WORD && at + |Enc(|pkScript| + SPECIAL) + pkScript| <= target.Length
    modifies target
    ensures size == |Enc(|pkScript| + SPECIAL) + pkScript|
    ensures target[..] == Written(old(target[..]), at, Enc(|pkScript| + SPECIAL) + pkScript)
  {
    var vlq := PutVLQ(target, at, |pkScript| + SPECIAL);
    var count := CopyInto(target, at + vlq, pkScript);
    assert pkScript[..count] == pkScript;
    WrittenTwice(old(target[..]), at, Enc(|pkScript| + SPECIAL), pkScript);
    size := vlq + |pkScript|;
  }

  // -------------------------------------------------------------- decompression

  /** A script of `n` bytes that has `head` in front, `body` after it, and `tail` last. */
  method Assemble(n: nat, head: seq<Byte>, body: seq<Byte>, tail: seq<Byte>) returns (r: seq<Byte>)
    requires n == |head| + |body| + |tail|
    ensures r == head + body + tail
  {
    var pkScript := new Byte[n](_ => 0);
    var a := CopyInto(pkScript, 0, head);
    var b := CopyInto(pkScript, |head|, body);
    assert pkScript[..|head| + |body|] == head + body;
    var c := CopyInto(pkScript, |head| + |body|, tail);
    r := pkScript[..];
  }

  method DecompressScript(parse: Curve, compressed: seq<Byte>) returns (r: seq<Byte>)
    requires Sliceable(compressed)
    ensures r == Decompressed(parse, compressed)
  {
    if |compressed| == 0 {
      return [];
    }
    var t, k := Vlq.DeserializeVLQ(compressed);
    if t == 0 {
      r := Assemble(25, [0x76, 0xa9, 0x14], compressed[k..k + 20], [0x88, 0xac]);
    } else if t == 1 {
      r := Assemble(23, [0xa9, 0x14], compressed[k..k + 20], [0x87]);
    } else if t <= 3 {
      r := Assemble(35, [0x21, t], compressed[k..k + 32], [0xac]);
    } else if t <= 5 {
      r := WriteOutKey(parse, t - 2, compressed[1..]);
    } else {
      r := compressed[k..k + (t - SPECIAL)];
    }
  }

  /** Writes a pay-to-pubkey script for the key with this parity and coordinate. */
  method WriteOutKey(parse: Curve, parity: Byte, x: seq<Byte>) returns (r: seq<Byte>)
    ensures r == PayToKey(parse([parity] + Fitted(x, 32)))
  {
    var compressedKey := new Byte[33](_ => 0);
    compressedKey[0] := parity;
    var count := CopyInto(compressedKey, 1, x);
    assert compressedKey[..] == [parity] + Fitted(x, 32);
    var key := parse(compressedKey[..]);
    if key.None? {
      return [];
    }
    r := Assemble(67, [0x41], key.value, [0xac]);
  }
}
