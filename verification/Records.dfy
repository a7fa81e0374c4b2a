/** Records of a chainstate snapshot: a transaction id, an index and a coin, read from
    a stream of bytes. */
module Records {
  import opened Wrappers
  import opened Vlq
  import opened BinaryUtils
  import opened Script
  import Amount

  const MAX_SCRIPT_SIZE: nat := 10000

  datatype ReadError = EndOfInput | AtBeginning | TooLarge(size: Word)

  datatype CoinData = CoinData(blockHeight: Word, isCoinBase: bool, amount: int, script: seq<Byte>)

  datatype RecordData = RecordData(txID: seq<Byte>, index: Word, coin: CoinData)

  // ------------------------------------------- the second script decompressor

  function GetScriptSize(t: Word): Word {
    if t <= 1 then 20 else if t <= 5 then 32 else t - SPECIAL
  }

  /** Decompression from a type and the bytes after it; for keys, the type included. */
  function FromPayload(parse: Curve, t: Word, payload: seq<Byte>): seq<Byte>
    requires 4 <= t <= 5 ==> |payload| > 0
  {
    if t == 0 then [0x76, 0xa9, 0x14] + Fitted(payload, 20) + [0x88, 0xac]
    else if t == 1 then [0xa9, 0x14] + Fitted(payload, 20) + [0x87]
    else if t <= 3 then [0x21] + Fitted(payload, 33) + [0xac]
    else if t <= 5 then PayToKey(parse([t - 2] + Fitted(payload[1..], 32)))
    else payload
  }

  method DecompressPayload(parse: Curve, t: Word, payload: seq<Byte>) returns (r: seq<Byte>)
    requires 4 <= t <= 5 ==> |payload| > 0
    ensures r == FromPayload(parse, t, payload)
  {
    if t == 0 {
      r := Frame([0x76, 0xa9, 0x14], 20, payload, [0x88, 0xac]);
    } else if t == 1 {
      r := Frame([0xa9, 0x14], 20, payload, [0x87]);
    } else if t <= 3 {
      r := Frame([0x21], 33, payload, [0xac]);
    } else if t <= 5 {
      r := WriteOutKey(parse, t - 2, payload[1..]);
    } else {
      r := payload;
    }
  }

  /** A zeroed script of exactly the right length: what is copied after the head may
      run on, but then the tail is written over it. */
  method Frame(head: seq<Byte>, n: nat, payload: seq<Byte>, tail: seq<Byte>) returns (r: seq<Byte>)
    ensures r == head + Fitted(payload, n) + tail
  {
    hide Written, Fitted;
    var pkScript := new Byte[|head| + n + |tail|](_ => 0);
    ghost var zeroes := pkScript[..];
    var a := CopyInto(pkScript, 0, head);
    ghost var x := pkScript[..];
    var b := CopyInto(pkScript, |head|, payload);
    ghost var y := pkScript[..];
    var c := CopyInto(pkScript, |head| + n, tail);
    r := pkScript[..];
    FrameIs(zeroes, x, y, r, head, n, payload, b, tail);
  }

  lemma FrameIs(zeroes: seq<Byte>, x: seq<Byte>, y: seq<Byte>, z: seq<Byte>,
                head: seq<Byte>, n: nat, payload: seq<Byte>, b: nat, tail: seq<Byte>)
    requires |zeroes| == |head| + n + |tail| && forall k :: 0 <= k < |zeroes| ==> zeroes[k] == 0
    requires b == if |payload| < n + |tail| then |payload| else n + |tail|
    requires x == Written(zeroes, 0, head) && y == Written(x, |head|, payload[..b]) && z == Written(y, |head| + n, tail)
    ensures z == head + Fitted(payload, n) + tail
  {
    var r := head + Fitted(payload, n) + tail;
    forall k | 0 <= k < |z| ensures z[k] == r[k] {
    }
  }

  /** The bytes handed to the second decompressor. */
  function Payload(t: Word, rest: seq<Byte>): (r: seq<Byte>)
    requires GetScriptSize(t) <= |rest|
    ensures |r| == GetScriptSize(t) + if 2 <= t <= 5 then 1 else 0
  {
    if 2 <= t <= 5 then [t] + rest[..32] else rest[..GetScriptSize(t)]
  }

  /** The two decompressors agree on everything that is long enough for both. */
  lemma DecompressorsAgree(parse: Curve, t: Word, rest: seq<Byte>)
    requires GetScriptSize(t) <= |rest| && GetScriptSize(t) < INT_LIMIT
    ensures Sliceable(Enc(t) + rest)
    ensures FromPayload(parse, t, Payload(t, rest)) == Decompressed(parse, Enc(t) + rest)
  {
    var s := Enc(t) + rest;
    ReadsEnc(t, rest);
    assert s[|Enc(t)|..|Enc(t)| + GetScriptSize(t)] == rest[..GetScriptSize(t)];
    if t <= 5 {
      assert Enc(t) == [t] && s[1..] == rest;
      if t <= 1 {
        HashAgree(parse, t, s, rest);
      } else if t <= 3 {
        CompressedKeyAgree(parse, t, s, rest);
      } else {
        KeyAgree(parse, t, s, rest);
      }
    }
  }

  lemma HashAgree(parse: Curve, t: Word, s: seq<Byte>, rest: seq<Byte>)
    requires t <= 1
    requires |s| > 0 && s[1..] == rest && Size(s) == 1 && Decoded(s) == t && GetScriptSize(t) <= |rest|
    ensures Sliceable(s) && FromPayload(parse, t, Payload(t, rest)) == Decompressed(parse, s)
  {
    FittedWhole(rest[..20]);
    assert Payload(t, rest) == rest[..20] == s[1..21];
  }

  lemma CompressedKeyAgree(parse: Curve, t: Word, s: seq<Byte>, rest: seq<Byte>)
    requires 2 <= t <= 3
    requires |s| > 0 && s[1..] == rest && Size(s) == 1 && Decoded(s) == t && GetScriptSize(t) <= |rest|
    ensures Sliceable(s) && FromPayload(parse, t, Payload(t, rest)) == Decompressed(parse, s)
  {
    FittedWhole([t] + rest[..32]);
    assert Payload(t, rest) == [t] + rest[..32] && s[1..33] == rest[..32];
    Shift(t, rest[..32]);
  }

  lemma KeyAgree(parse: Curve, t: Word, s: seq<Byte>, rest: seq<Byte>)
    requires 4 <= t <= 5
    requires |s| > 0 && s[1..] == rest && Size(s) == 1 && Decoded(s) == t && GetScriptSize(t) <= |rest|
    ensures Sliceable(s) && FromPayload(parse, t, Payload(t, rest)) == Decompressed(parse, s)
  {
    var p := Payload(t, rest);
    SameStart(p[1..], rest);
    DecompressedKey(parse, s, t);
  }

  lemma SameStart(x: seq<Byte>, y: seq<Byte>)
    requires 32 <= |x| && 32 <= |y| && x[..32] == y[..32]
    ensures Fitted(x, 32) == Fitted(y, 32)
  {
    forall k | 0 <= k < 32 ensures Fitted(x, 32)[k] == Fitted(y, 32)[k] {
      assert x[k] == x[..32][k] && y[k] == y[..32][k];
    }
  }

  lemma FittedWhole(s: seq<Byte>)
    ensures Fitted(s, |s|) == s
  {
  }

  lemma Shift(t: Byte, x: seq<Byte>)
    ensures [0x21] + ([t] + x) + [0xac] == [0x21, t] + x + [0xac]
  {
    assert [0x21] + ([t] + x) == [0x21, t] + x;
  }

  // ---------------------------------------------------------------- what is read

  function Sized(rest: seq<Byte>, size: Word): (r: Result<seq<Byte>, ReadError>)
    ensures r.Success? ==> |r.value| == size
  {
    if size > MAX_SCRIPT_SIZE then Failure(TooLarge(size))
    else
      match Filled(rest, size)
      case Some(payload) => Success(payload)
      case None => Failure(EndOfInput)
  }

  /** Reading a script's type and then the bytes it announces: for keys from the type
      on, which the reader steps back to. */
  function PayloadOf(s: seq<Byte>): (r: Result<seq<Byte>, ReadError>)
    ensures r.Success? && 4 <= Decoded(s) <= 5 ==> |r.value| > 0
  {
    var t, k := Decoded(s), Size(s);
    if 2 <= t <= 5 then
      if k == 0 then Failure(AtBeginning) else Sized(s[k - 1..], 33)
    else Sized(s[k..], GetScriptSize(t))
  }

  /** Numbers read one after the other, and what is left after them. */
  datatype Numbers = Numbers(values: seq<Word>, rest: seq<Byte>)

  function NumbersOf(s: seq<Byte>, n: nat): (r: Numbers)
    ensures |r.values| == n
    decreases n, |s|
  {
    if n == 0 then Numbers([], s)
    else
      var r := NumbersOf(s[Size(s)..], n - 1);
      Numbers([Decoded(s)] + r.values, r.rest)
  }

  /** A coin: its code and its amount, and then its script. */
  function CoinOf(parse: Curve, s: seq<Byte>): Result<CoinData, ReadError> {
    var h := NumbersOf(s, 2);
    CoinFrom(parse, h.values, Decoded(h.rest), PayloadOf(h.rest))
  }

  function CoinFrom(parse: Curve, h: seq<Word>, t: Word, payload: Result<seq<Byte>, ReadError>): Result<CoinData, ReadError>
    requires |h| == 2 && (payload.Success? && 4 <= t <= 5 ==> |payload.value| > 0)
  {
    match payload
    case Failure(e) => Failure(e)
    case Success(p) =>
      Success(CoinData(h[0] / 2, h[0] % 2 == 1, Signed(Amount.Decompress64(h[1])), FromPayload(parse, t, p)))
  }

  /** A record: an id written backwards, an index, and a coin. */
  function RecordOf(parse: Curve, s: seq<Byte>): Result<RecordData, ReadError> {
    match Filled(s, 32)
    case None => Failure(EndOfInput)
    case Some(id) =>
      var h := NumbersOf(s[if 32 < |s| then 32 else |s|..], 1);
      RecordFrom(Reversed(id), h.values[0], CoinOf(parse, h.rest))
  }

  function RecordFrom(txID: seq<Byte>, index: Word, coin: Result<CoinData, ReadError>): Result<RecordData, ReadError> {
    match coin
    case Failure(e) => Failure(e)
    case Success(c) => Success(RecordData(txID, index, c))
  }

  // ------------------------------------------------------------------------- code

  class Coin {
    var isCoinBase: bool
    var blockHeight: Word
    var out: Option<(int, seq<Byte>)>

    constructor ()
      ensures out == None
    {
      isCoinBase, blockHeight, out := false, 0, None;
    }

    ghost predicate Holds(c: CoinData)
      reads this
    {
      isCoinBase == c.isCoinBase && blockHeight == c.blockHeight && out == Some((c.amount, c.script))
    }

    method Deserialize(parse: Curve, coinBuffer: Reader) returns (error: Option<ReadError>)
      requires coinBuffer.Valid()
      modifies this, coinBuffer
      ensures coinBuffer.Valid()
      ensures match CoinOf(parse, old(coinBuffer.Rest()))
              case Success(c) => error == None && Holds(c)
              case Failure(e) => error == Some(e) && out == old(out)
      ensures var code := Decoded(old(coinBuffer.Rest())); blockHeight == code / 2 && isCoinBase == (code % 2 == 1)
    {
      hide NumbersOf, Decoded, Size, PayloadOf, CoinOf;
      ghost var s := coinBuffer.Rest();
      var code, codeSize := BinaryUtils.DeserializeVLQ(coinBuffer);
      blockHeight := code / 2;
      isCoinBase := code % 2 == 1;
      var amount, amountSize := BinaryUtils.DeserializeVLQ(coinBuffer);
      TwoNumbers(s);
      ghost var u := coinBuffer.Rest();
      CoinOfIs(parse, s, [code, amount], u, Decoded(u), PayloadOf(u));
      error := ReadOut(parse, coinBuffer, code, amount);
    }

    /** The rest of a coin, once its code and its amount were read. */
    method ReadOut(parse: Curve, coinBuffer: Reader, ghost code: Word, amount: Word) returns (error: Option<ReadError>)
      requires coinBuffer.Valid() && blockHeight == code / 2 && isCoinBase == (code % 2 == 1)
      modifies this`out, coinBuffer
      ensures coinBuffer.Valid()
      ensures var s := old(coinBuffer.Rest());
              match CoinFrom(parse, [code, amount], Decoded(s), PayloadOf(s))
              case Success(c) => error == None && Holds(c)
              case Failure(e) => error == Some(e) && out == old(out)
    {
      ghost var s := coinBuffer.Rest();
      var scriptType, size := BinaryUtils.DeserializeVLQ(coinBuffer);
      PayloadIsRead(coinBuffer.data, coinBuffer.pos, s);
      var payload := ReadPayload(coinBuffer, scriptType);
      if payload.Failure? {
        return Some(payload.error);
      }
      var value := Amount.DecompressTxOutAmount(amount);
      var pkScript := DecompressPayload(parse, scriptType, payload.value);
      out := Some((Signed(value), pkScript));
      error := None;
    }
  }

  lemma TwoNumbers(s: seq<Byte>)
    ensures var u := s[Size(s)..]; NumbersOf(s, 2) == Numbers([Decoded(s), Decoded(u)], u[Size(u)..])
  {
    var u := s[Size(s)..];
    NumbersMore(u, 0);
    NumbersMore(s, 1);
  }

  lemma NumbersMore(s: seq<Byte>, n: nat)
    ensures var r := NumbersOf(s[Size(s)..], n); NumbersOf(s, n + 1) == Numbers([Decoded(s)] + r.values, r.rest)
  {
  }

  /** The payload as the reader finds it, from where the type ended. */
  function PayloadAt(data: seq<Byte>, pos: nat, t: Word): Result<seq<Byte>, ReadError>
    requires pos <= |data|
  {
    if 2 <= t <= 5 then
      if pos == 0 then Failure(AtBeginning) else Sized(data[pos - 1..], 33)
    else Sized(data[pos..], GetScriptSize(t))
  }

  /** Stepping back never goes past the type: there is always a byte to unread. */
  lemma PayloadIsRead(data: seq<Byte>, pos: nat, s: seq<Byte>)
    requires Size(s) <= pos <= |data| && data[pos - Size(s)..] == s
    ensures PayloadAt(data, pos, Decoded(s)) == PayloadOf(s)
    ensures PayloadOf(s) != Failure(AtBeginning)
  {
    NothingIsZero(s);
    var k := Size(s);
    assert data[pos - k..][k..] == data[pos..];
    if k > 0 {
      assert data[pos - k..][k - 1..] == data[pos - 1..];
    }
  }

  lemma NothingIsZero(s: seq<Byte>)
    ensures Size(s) == 0 ==> Decoded(s) == 0
  {
  }

  method ReadPayload(coinBuffer: Reader, t: Word) returns (r: Result<seq<Byte>, ReadError>)
    requires coinBuffer.Valid()
    modifies coinBuffer
    ensures coinBuffer.Valid()
    ensures r == PayloadAt(coinBuffer.data, old(coinBuffer.pos), t)
  {
    var scriptSize := GetScriptSize(t);
    if 2 <= t <= 5 {
      var ok := coinBuffer.UnreadByte();
      if !ok {
        return Failure(AtBeginning);
      }
      scriptSize := scriptSize + 1;
    }
    if scriptSize > MAX_SCRIPT_SIZE {
      return Failure(TooLarge(scriptSize));
    }
    var pkScript := coinBuffer.Read(scriptSize);
    if pkScript.None? {
      return Failure(EndOfInput);
    }
    r := Success(pkScript.value);
  }

  class TxOut {
    var txID: seq<Byte>
    var index: Word
    const coin: Coin

    constructor ()
      ensures fresh(coin)
    {
      txID, index := [], 0;
      coin := new Coin();
    }

    method Deserialize(parse: Curve, r: Reader) returns (error: Option<ReadError>)
      requires r.Valid()
      modifies this, coin, r
      ensures r.Valid()
      ensures match RecordOf(parse, old(r.Rest()))
              case Success(x) => error == None && txID == x.txID && index == x.index && coin.Holds(x.coin)
              case Failure(e) => error == Some(e) && coin.out == old(coin.out)
      ensures var s := old(r.Rest());
              if s == [] then txID == old(txID) && index == old(index) && unchanged(coin)
              else txID == Reversed(Fitted(s, 32)) && index == Decoded(s[if 32 < |s| then 32 else |s|..])
    {
      var id := r.Read(32);
      if id.None? {
        return Some(EndOfInput);
      }
      txID := ReverseBytesWithCopy(id.value);
      ghost var s := r.Rest();
      var size;
      index, size := BinaryUtils.DeserializeVLQ(r);
      NumbersMore(s, 0);
      error := coin.Deserialize(parse, r);
    }
  }

  // ------------------------------------------------------------------ round trip

  /** The type of a compressed script, and what follows it. */
  function Tag(parse: Curve, s: seq<Byte>): nat {
    if IsPubKeyHash(s) then 0
    else if IsScriptHash(s) then 1
    else
      match PubKeyOf(parse, s)
      case Some(key) => KeyType(key)
      case None => |s| + SPECIAL
  }

  lemma TagIs(parse: Curve, s: seq<Byte>) returns (body: seq<Byte>)
    requires |s| + SPECIAL < WORD
    ensures Tag(parse, s) < WORD && Compressed(parse, s) == Enc(Tag(parse, s)) + body
    ensures |body| == GetScriptSize(Tag(parse, s))
    ensures Tag(parse, s) >= SPECIAL ==> Tag(parse, s) == |s| + SPECIAL && body == s
    ensures Tag(parse, s) < SPECIAL ==> 0 < |s| <= 67
  {
    if IsPubKeyHash(s) {
      body := s[3..23];
    } else if IsScriptHash(s) {
      body := s[2..22];
    } else if PubKeyOf(parse, s).Some? {
      KeyForms(parse, s);
      body := PubKeyOf(parse, s).value[1..33];
      assert Enc(Tag(parse, s)) == [Tag(parse, s)];
    } else {
      body := s;
    }
  }

  function EncodedCoin(parse: Curve, c: CoinData): seq<Byte>
    requires 0 <= c.amount < WORD
  {
    Enc(c.blockHeight * 2 + if c.isCoinBase then 1 else 0) + Enc(Amount.Compress64(c.amount)) + Compressed(parse, c.script)
  }

  function EncodedRecord(parse: Curve, x: RecordData): seq<Byte>
    requires 0 <= x.coin.amount < WORD
  {
    Reversed(x.txID) + Enc(x.index) + EncodedCoin(parse, x.coin)
  }

  /** What can be written: a height that leaves room for the flag, an amount that is
      not negative as a signed word, and a script of a length that can be. */
  predicate Encodable(c: CoinData) {
    c.blockHeight * 2 + 1 < WORD && 0 <= c.amount < INT_LIMIT && |c.script| + 16 < INT_LIMIT
  }

  /** A written coin as it is read: the amount has gone through its compression. */
  function AsRead(c: CoinData): CoinData
    requires 0 <= c.amount < WORD
  {
    c.(amount := Signed(Amount.Decompress64(Amount.Compress64(c.amount))))
  }

  /** What reading a script, and what it is part of, comes to: no script above the limit
      is taken, nor an empty one at the very end of the input. */
  function Outcome<T>(script: seq<Byte>, rest: seq<Byte>, value: T): Result<T, ReadError>
    requires |script| < WORD
  {
    if |script| > MAX_SCRIPT_SIZE then Failure(TooLarge(|script|))
    else if script == [] && rest == [] then Failure(EndOfInput)
    else Success(value)
  }

  /** Reading a payload finds what the encoding put there. */
  lemma PayloadBack(t: Word, body: seq<Byte>, rest: seq<Byte>)
    requires |body| == GetScriptSize(t)
    ensures PayloadOf(Enc(t) + (body + rest)) == Outcome(body, rest, Payload(t, body + rest))
  {
    var s := Enc(t) + (body + rest);
    ReadsEnc(t, body + rest);
    assert s[|Enc(t)|..] == body + rest;
    if 2 <= t <= 5 {
      assert Enc(t) == [t];
      assert Fitted(s[0..], 33) == [t] + (body + rest)[..32];
    } else {
      assert Fitted(body + rest, |body|) == (body + rest)[..|body|];
    }
  }

  lemma ScriptFromPayload(parse: Curve, s: seq<Byte>, body: seq<Byte>, rest: seq<Byte>)
    requires Sec1(parse) && |s| + 16 < INT_LIMIT && Tag(parse, s) < WORD
    requires Compressed(parse, s) == Enc(Tag(parse, s)) + body && |body| == GetScriptSize(Tag(parse, s))
    ensures FromPayload(parse, Tag(parse, s), Payload(Tag(parse, s), body + rest)) == s
  {
    var t := Tag(parse, s);
    FitsBuffer(parse, s);
    ScriptRoundTrip(parse, s, rest);
    assert Compressed(parse, s) + rest == Enc(t) + (body + rest);
    DecompressorsAgree(parse, t, body + rest);
  }

  /** The fields come back from the numbers they were packed into. */
  lemma FieldsBack(c: CoinData)
    requires Encodable(c)
    ensures var code := c.blockHeight * 2 + if c.isCoinBase then 1 else 0;
            code / 2 == c.blockHeight && (code % 2 == 1) == c.isCoinBase
    ensures AsRead(c) == c <==> Amount.Fits(c.amount)
  {
    Amount.LosslessExactly(c.amount);
  }

  lemma NumberBack(n: Word, ns: seq<Word>, s: seq<Byte>, rest: seq<Byte>)
    requires NumbersOf(s, |ns|) == Numbers(ns, rest)
    ensures NumbersOf(Enc(n) + s, |ns| + 1) == Numbers([n] + ns, rest)
  {
    ReadsEnc(n, s);
    assert (Enc(n) + s)[|Enc(n)|..] == s;
    NumbersMore(Enc(n) + s, |ns|);
  }

  /** The numbers in front of a coin's script. */
  function Header(c: CoinData): seq<Word>
    requires Encodable(c)
  {
    [c.blockHeight * 2 + if c.isCoinBase then 1 else 0, Amount.Compress64(c.amount)]
  }

  lemma HeaderBack(code: Word, amount: Word, u: seq<Byte>)
    ensures NumbersOf(Enc(code) + (Enc(amount) + u), 2) == Numbers([code, amount], u)
  {
    NumberBack(amount, [], u, u);
    NumberBack(code, [amount], Enc(amount) + u, u);
  }

  lemma CoinFromIs(parse: Curve, c: CoinData, t: Word, body: seq<Byte>, rest: seq<Byte>)
    requires Encodable(c) && |body| == GetScriptSize(t)
    requires FromPayload(parse, t, Payload(t, body + rest)) == c.script
    requires if t >= SPECIAL then body == c.script else 0 < |c.script| <= 67
    ensures CoinFrom(parse, Header(c), t, Outcome(body, rest, Payload(t, body + rest))) == Outcome(c.script, rest, AsRead(c))
  {
    FieldsBack(c);
  }

  lemma CoinOfIs(parse: Curve, s: seq<Byte>, h: seq<Word>, u: seq<Byte>, t: Word, payload: Result<seq<Byte>, ReadError>)
    requires |h| == 2 && NumbersOf(s, |h|) == Numbers(h, u) && Decoded(u) == t && PayloadOf(u) == payload
    ensures CoinOf(parse, s) == CoinFrom(parse, h, t, payload)
  {
  }

  lemma Regroup(a: seq<Byte>, b: seq<Byte>, c: seq<Byte>, rest: seq<Byte>)
    ensures a + b + c + rest == a + (b + (c + rest))
  {
  }

  lemma CoinOpened(parse: Curve, c: CoinData, t: Word, body: seq<Byte>, rest: seq<Byte>)
    requires Encodable(c) && Compressed(parse, c.script) == Enc(t) + body && |body| == GetScriptSize(t)
    ensures CoinOf(parse, EncodedCoin(parse, c) + rest)
            == CoinFrom(parse, Header(c), t, Outcome(body, rest, Payload(t, body + rest)))
  {
    hide Decoded, Size, NumbersOf, PayloadOf, CoinFrom, CoinOf;
    var u := Enc(t) + (body + rest);
    assert Compressed(parse, c.script) + rest == u;
    Regroup(Enc(Header(c)[0]), Enc(Header(c)[1]), Compressed(parse, c.script), rest);
    HeaderBack(Header(c)[0], Header(c)[1], u);
    ReadsEnc(t, body + rest);
    PayloadBack(t, body, rest);
    CoinOfIs(parse, EncodedCoin(parse, c) + rest, Header(c), u, t, Outcome(body, rest, Payload(t, body + rest)));
  }

  /** Reading undoes writing on every coin, exactly when its script is within the limit
      and is not an empty one at the end of the input, and its amount fits compressed. */
  lemma CoinRoundTrip(parse: Curve, c: CoinData, rest: seq<Byte>)
    requires Sec1(parse) && Encodable(c)
    ensures CoinOf(parse, EncodedCoin(parse, c) + rest)
            == if |c.script| > 10000 then Failure(TooLarge(|c.script|))
               else if c.script == [] && rest == [] then Failure(EndOfInput)
               else Success(AsRead(c))
    ensures AsRead(c) == c <==> Amount.Fits(c.amount)
  {
    FieldsBack(c);
    var t := Tag(parse, c.script);
    var body := TagIs(parse, c.script);
    CoinOpened(parse, c, t, body, rest);
    ScriptFromPayload(parse, c.script, body, rest);
    CoinFromIs(parse, c, t, body, rest);
  }

  lemma IdBack(parse: Curve, txID: seq<Byte>, index: Word, rest: seq<Byte>)
    requires |txID| == 32
    ensures RecordOf(parse, Reversed(txID) + (Enc(index) + rest)) == RecordFrom(txID, index, CoinOf(parse, rest))
  {
    var s := Reversed(txID) + (Enc(index) + rest);
    assert Fitted(s, 32) == Reversed(txID);
    ReversedTwice(txID);
    assert s[32..] == Enc(index) + rest;
    NumberBack(index, [], rest, rest);
  }

  /** And on every record. */
  lemma RecordRoundTrip(parse: Curve, x: RecordData, rest: seq<Byte>)
    requires Sec1(parse) && Encodable(x.coin) && |x.txID| == 32
    ensures RecordOf(parse, EncodedRecord(parse, x) + rest)
            == if |x.coin.script| > 10000 then Failure(TooLarge(|x.coin.script|))
               else if x.coin.script == [] && rest == [] then Failure(EndOfInput)
               else Success(x.(coin := AsRead(x.coin)))
    ensures AsRead(x.coin) == x.coin <==> Amount.Fits(x.coin.amount)
  {
    hide CoinOf, RecordOf, EncodedCoin;
    Regroup(Reversed(x.txID), Enc(x.index), EncodedCoin(parse, x.coin), rest);
    IdBack(parse, x.txID, x.index, EncodedCoin(parse, x.coin) + rest);
    CoinRoundTrip(parse, x.coin, rest);
  }

  /** What the fields of a record are, byte for byte: the id turned around, the index, the
      code of the height and the flag, the amount as a signed word, and here the script
      that pays to a hash, which is filled up with zeroes when the input ends within it. */
  lemma RecordReads(parse: Curve, id: seq<Byte>, index: Word, code: Word, a: Word, body: seq<Byte>)
    requires |id| == 32
    ensures var v := Amount.Decompress64(a);
            RecordOf(parse, Reversed(id) + (Enc(index) + (Enc(code) + (Enc(a) + ([0] + body)))))
            == if body == [] then Failure(EndOfInput)
               else Success(RecordData(id, index, CoinData(code / 2, code % 2 == 1,
                      if v < 0x8000_0000_0000_0000 then v else v - 0x1_0000_0000_0000_0000,
                      [0x76, 0xa9, 0x14] + Fitted(body, 20) + [0x88, 0xac])))
  {
    hide CoinOf, RecordOf;
    CoinReads(parse, code, a, body);
    IdBack(parse, id, index, Enc(code) + (Enc(a) + ([0] + body)));
  }

  lemma CoinReads(parse: Curve, code: Word, a: Word, body: seq<Byte>)
    ensures CoinOf(parse, Enc(code) + (Enc(a) + ([0] + body)))
            == if body == [] then Failure(EndOfInput)
               else Success(CoinData(code / 2, code % 2 == 1, Signed(Amount.Decompress64(a)),
                      [0x76, 0xa9, 0x14] + Fitted(body, 20) + [0x88, 0xac]))
  {
    hide NumbersOf, PayloadOf, CoinOf;
    var u := [0] + body;
    assert u == Enc(0) + body;
    HeaderBack(code, a, u);
    PayloadIs(0, body);
    ReadsEnc(0, body);
    CoinOfIs(parse, Enc(code) + (Enc(a) + u), [code, a], u, 0, Sized(body, 20));
    FittedTwice(body, 20);
  }

  /** Other scripts come as they are after their length plus six, none longer than the
      limit whatever follows, and are filled up as well. */
  lemma PlainCoinReads(parse: Curve, code: Word, a: Word, n: Word, body: seq<Byte>)
    requires n + 6 < WORD
    ensures CoinOf(parse, Enc(code) + (Enc(a) + (Enc(n + 6) + body)))
            == if n > 10000 then Failure(TooLarge(n))
               else if body == [] then Failure(EndOfInput)
               else Success(CoinData(code / 2, code % 2 == 1, Signed(Amount.Decompress64(a)), Fitted(body, n)))
  {
    hide NumbersOf, PayloadOf, CoinOf, Enc;
    var u := Enc(n + 6) + body;
    HeaderBack(code, a, u);
    PayloadIs(n + 6, body);
    ReadsEnc(n + 6, body);
    CoinOfIs(parse, Enc(code) + (Enc(a) + u), [code, a], u, n + 6, Sized(body, n));
  }

  lemma PayloadIs(t: Word, body: seq<Byte>)
    requires t <= 1 || t >= SPECIAL
    ensures PayloadOf(Enc(t) + body) == Sized(body, GetScriptSize(t))
  {
    ReadsEnc(t, body);
    assert (Enc(t) + body)[|Enc(t)|..] == body;
  }

  lemma FittedTwice(s: seq<Byte>, n: nat)
    ensures Fitted(Fitted(s, n), n) == Fitted(s, n)
  {
  }
}
