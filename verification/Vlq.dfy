/** Variable length quantities: seven bits a byte, most significant first, the high bit
    set on every byte but the last, and one subtracted from each group that is carried,
    so that every natural number has exactly one encoding. */
module Vlq {
  type Byte = b: int | 0 <= b < 256

  const WORD: nat := 0x1_0000_0000_0000_0000

  type Word = n: int | 0 <= n < WORD

  // -------------------------------------------------------------- specification

  /** The encoding of a number; `flag` is what the last byte carries in its high bit. */
  function Digits(n: nat, flag: Byte): (s: seq<Byte>)
    requires flag == 0 || flag == 128
    ensures |s| > 0
    decreases n
  {
    if n <= 127 then [n + flag]
    else Digits(n / 128 - 1, 128) + [n % 128 + flag]
  }

  function Enc(n: nat): (s: seq<Byte>)
    ensures |s| > 0
  {
    Digits(n, 0)
  }

  /** What the bytes read so far contribute to the next group. */
  function Carry(s: seq<Byte>): nat
    decreases |s|, 1
  {
    if |s| == 0 then 0 else Value(s) + 1
  }

  /** The number a string of bytes denotes when its last byte ends it. */
  function Value(s: seq<Byte>): nat
    requires |s| > 0
    decreases |s|, 0
  {
    Carry(s[..|s| - 1]) * 128 + s[|s| - 1] % 128
  }

  /** How many bytes a reader takes: up to the first one without the high bit, or all. */
  function Size(s: seq<Byte>): (k: nat)
    ensures k <= |s|
  {
    if |s| == 0 then 0
    else if s[0] < 128 then 1
    else 1 + Size(s[1..])
  }

  /** What a reader returns: the input may end before the number does, and the sum is
      kept in 64 bits. */
  function Decoded(s: seq<Byte>): Word {
    var k := Size(s);
    (if k > 0 && s[k - 1] < 128 then Value(s[..k]) else Carry(s[..k])) % WORD
  }

  /** A whole encoding: the last byte, and no other, ends it. */
  predicate Complete(s: seq<Byte>) {
    |s| > 0 && s[|s| - 1] < 128 && forall i :: 0 <= i < |s| - 1 ==> s[i] >= 128
  }

  // ------------------------------------------------------------------ round trip

  lemma {:induction false} DigitsHigh(n: nat, flag: Byte)
    requires flag == 0 || flag == 128
    ensures forall i :: 0 <= i < |Digits(n, flag)| - 1 ==> Digits(n, flag)[i] >= 128
    ensures Digits(n, flag)[|Digits(n, flag)| - 1] >= 128 <==> flag == 128
    decreases n
  {
    if n > 127 {
      DigitsHigh(n / 128 - 1, 128);
    }
  }

  lemma EncComplete(n: nat)
    ensures Complete(Enc(n))
  {
    DigitsHigh(n, 0);
  }

  lemma ValueAppend(front: seq<Byte>, b: Byte)
    ensures Value(front + [b]) == Carry(front) * 128 + b % 128
  {
    assert (front + [b])[..|front|] == front;
  }

  /** A group taken off a number, and put back. */
  lemma GroupOff(n: nat)
    requires n > 127
    ensures n / 128 >= 1 && (n / 128 - 1 + 1) * 128 + n % 128 == n
  {
  }

  lemma GroupOn(q: nat, r: nat)
    requires r < 128
    ensures var n := (q + 1) * 128 + r; n > 127 && n / 128 - 1 == q && n % 128 == r
  {
  }

  lemma LowBits(r: nat, flag: Byte)
    requires r < 128 && (flag == 0 || flag == 128)
    ensures (r + flag) % 128 == r
  {
  }

  lemma ValueOneMore(front: seq<Byte>, r: nat, flag: Byte)
    requires r < 128 && (flag == 0 || flag == 128)
    ensures Value(front + [r + flag]) == Carry(front) * 128 + r
  {
    LowBits(r, flag);
    ValueAppend(front, r + flag);
  }

  lemma DigitsMore(q: nat, r: nat, flag: Byte)
    requires r < 128 && (flag == 0 || flag == 128)
    ensures Digits((q + 1) * 128 + r, flag) == Digits(q, 128) + [r + flag]
  {
    GroupOn(q, r);
  }

  lemma DigitsValueStep(q: nat, r: nat, flag: Byte)
    requires r < 128 && (flag == 0 || flag == 128) && Value(Digits(q, 128)) == q
    ensures Value(Digits((q + 1) * 128 + r, flag)) == (q + 1) * 128 + r
  {
    hide Digits, Value;
    DigitsMore(q, r, flag);
    ValueOneMore(Digits(q, 128), r, flag);
    CarryIs(Digits(q, 128));
  }

  lemma CarryIs(s: seq<Byte>)
    requires |s| > 0
    ensures Carry(s) == Value(s) + 1
  {
  }

  lemma {:induction false} DigitsValue(n: nat, flag: Byte)
    requires flag == 0 || flag == 128
    ensures Value(Digits(n, flag)) == n
    decreases n
  {
    hide Value, Carry;
    if n <= 127 {
      ValueOneMore([], n, flag);
      assert [] + [n + flag] == Digits(n, flag);
      CarryNothing();
    } else {
      hide Digits;
      GroupOff(n);
      DigitsValue(n / 128 - 1, 128);
      DigitsValueStep(n / 128 - 1, n % 128, flag);
    }
  }

  lemma CarryNothing()
    ensures Carry([]) == 0
  {
  }

  lemma {:induction false} SizeOfComplete(s: seq<Byte>, rest: seq<Byte>)
    requires Complete(s)
    ensures Size(s + rest) == |s|
    decreases |s|
  {
    if |s| > 1 {
      assert (s + rest)[1..] == s[1..] + rest;
      SizeOfComplete(s[1..], rest);
    }
  }

  /** A reader of an encoding followed by anything gets the number and stops after it;
      nothing is lost exactly when the number fits in 64 bits. */
  lemma ReadsComplete(s: seq<Byte>, rest: seq<Byte>)
    requires Complete(s)
    ensures Size(s + rest) == |s| && Decoded(s + rest) == Value(s) % WORD
    ensures Decoded(s + rest) == Value(s) <==> Value(s) < WORD
  {
    SizeOfComplete(s, rest);
    assert (s + rest)[..|s|] == s;
  }

  lemma ReadsEnc(n: nat, rest: seq<Byte>)
    requires n < WORD
    ensures Size(Enc(n) + rest) == |Enc(n)| && Decoded(Enc(n) + rest) == n
  {
    EncComplete(n);
    DigitsValue(n, 0);
    ReadsComplete(Enc(n), rest);
  }

  lemma LastByte(b: Byte, flag: Byte)
    requires flag == if b >= 128 then 128 else 0
    ensures b == b % 128 + flag
  {
  }

  lemma {:induction false} DigitsOfValue(s: seq<Byte>, flag: Byte)
    requires |s| > 0 && forall i :: 0 <= i < |s| - 1 ==> s[i] >= 128
    requires flag == if s[|s| - 1] >= 128 then 128 else 0
    ensures Digits(Value(s), flag) == s
    decreases |s|
  {
    hide Value, Carry;
    var front, last := s[..|s| - 1], s[|s| - 1];
    assert s == front + [last];
    LastByte(last, flag);
    ValueAppend(front, last);
    if |s| > 1 {
      CarryIs(front);
      DigitsOfValue(front, 128);
      DigitsMore(Value(front), last % 128, flag);
    } else {
      CarryNothing();
    }
  }

  /** Encoding is onto the whole encodings and one-to-one: a whole encoding is that of
      the number it denotes, so different encodings denote different numbers. */
  lemma Canonical(s: seq<Byte>, t: seq<Byte>)
    requires Complete(s) && Complete(t)
    ensures Enc(Value(s)) == s
    ensures Value(s) == Value(t) <==> s == t
  {
    DigitsOfValue(s, 0);
    DigitsOfValue(t, 0);
  }

  /** No encoding begins another one. */
  lemma PrefixFree(n: nat, m: nat, rest: seq<Byte>)
    requires Enc(n) + rest == Enc(m)
    ensures n == m && rest == []
  {
    EncComplete(n);
    EncComplete(m);
    SizeOfComplete(Enc(n), rest);
    SizeOfComplete(Enc(m), []);
    assert Enc(m) + [] == Enc(m);
    assert rest == [];
    assert Enc(n) == Enc(m);
    DigitsValue(n, 0);
    DigitsValue(m, 0);
  }

  /** The whole code, byte by byte: a number below 128 is its own byte, and one that
      carries the number `m` is the encoding of `m`, the high bit of its last byte set,
      and then the low seven bits. */
  lemma EncStep(m: nat, d: Byte, front: seq<Byte>, last: Byte)
    requires d < 128 && Enc(m) == front + [last]
    ensures Enc(d) == [d]
    ensures last < 128 && Enc((m + 1) * 128 + d) == front + [last + 128, d]
  {
    EncComplete(m);
    DigitsMore(m, d, 0);
    DigitsFlagged(m, front, last);
  }

  lemma DigitsFlagged(m: nat, front: seq<Byte>, last: Byte)
    requires Digits(m, 0) == front + [last]
    ensures last < 128 && Digits(m, 128) == front + [last + 128]
  {
    if m > 127 {
      SameEnds(Digits(m / 128 - 1, 128), m % 128, front, last);
    } else {
      SameEnds([], m, front, last);
    }
  }

  lemma SameEnds(s: seq<Byte>, x: Byte, t: seq<Byte>, y: Byte)
    requires s + [x] == t + [y]
    ensures s == t && x == y
  {
    assert (s + [x])[|s|] == x && (t + [y])[|t|] == y;
    assert (s + [x])[..|s|] == s && (t + [y])[..|t|] == t;
  }

  /** An input that ends within a number, every byte of it with its high bit set, is read
      to its end as one more than the number that its bytes without the last high bit are. */
  lemma ReadsTruncated(m: nat, front: seq<Byte>, last: Byte)
    requires Enc(m) == front + [last]
    ensures last < 128 && Size(front + [last + 128]) == |front| + 1
    ensures Decoded(front + [last + 128]) == (m + 1) % WORD
    ensures Size([]) == 0 && Decoded([]) == 0
  {
    NothingDecoded();
    DigitsFlagged(m, front, last);
    hide *;
    FlaggedDecoded(m, front + [last + 128]);
  }

  lemma FlaggedDecoded(m: nat, s: seq<Byte>)
    requires s == Digits(m, 128)
    ensures Size(s) == |s| && Decoded(s) == (m + 1) % WORD
  {
    hide Digits, Value, Size, Decoded;
    DigitsHigh(m, 128);
    DigitsValue(m, 128);
    HighDecoded(s);
  }

  lemma NothingDecoded()
    ensures Size([]) == 0 && Decoded([]) == 0
  {
    CarryNothing();
  }

  lemma HighDecoded(s: seq<Byte>)
    requires |s| > 0 && forall i :: 0 <= i < |s| ==> s[i] >= 128
    ensures Size(s) == |s| && Decoded(s) == (Value(s) + 1) % WORD
  {
    SizeOfHigh(s);
    CarryIs(s);
    assert s[..|s|] == s;
  }

  lemma {:induction false} SizeOfHigh(s: seq<Byte>)
    requires forall i :: 0 <= i < |s| ==> s[i] >= 128
    ensures Size(s) == |s|
    decreases |s|
  {
    if |s| > 0 {
      SizeOfHigh(s[1..]);
    }
  }

  /** The documented encodings. */
  lemma Examples()
    ensures Enc(0) == [0x00] && Enc(127) == [0x7f] && Enc(128) == [0x80, 0x00] && Enc(129) == [0x80, 0x01]
    ensures Enc(255) == [0x80, 0x7f] && Enc(256) == [0x81, 0x00] && Enc(16511) == [0xff, 0x7f]
    ensures Enc(16512) == [0x80, 0x80, 0x00] && Enc(32895) == [0x80, 0xff, 0x7f] && Enc(2113663) == [0xff, 0xff, 0x7f]
    ensures Enc(270549119) == [0xff, 0xff, 0xff, 0x7f]
  {
    EncSmall(0);
    EncSmall(1);
    EncSmall(127);
    hide *;
    EncStep(0, 0x00, [], 0x00);
    EncStep(0, 0x01, [], 0x00);
    EncStep(0, 0x7f, [], 0x00);
    EncStep(1, 0x00, [], 0x01);
    EncStep(127, 0x7f, [], 0x7f);
    EncStep(128, 0x00, [0x80], 0x00);
    EncStep(255, 0x7f, [0x80], 0x7f);
    EncStep(16511, 0x7f, [0xff], 0x7f);
    EncStep(2113663, 0x7f, [0xff, 0xff], 0x7f);
  }

  lemma EncSmall(n: nat)
    requires n < 128
    ensures Enc(n) == [n] && Enc(n) == [] + [n]
  {
  }

  /** The documented encoding of the largest 64-bit number. */
  lemma LargestEncoding()
    ensures Enc(WORD - 1) == [0x80, 0xfe, 0xfe, 0xfe, 0xfe, 0xfe, 0xfe, 0xfe, 0xfe, 0x7f]
  {
    EncSmall(0);
    hide *;
    EncStep(0, 0x7e, [], 0x00);
    EncStep(254, 0x7e, [0x80], 0x7e);
    EncStep(32766, 0x7e, [0x80, 0xfe], 0x7e);
    EncStep(4194302, 0x7e, [0x80, 0xfe, 0xfe], 0x7e);
    EncStep(536870910, 0x7e, [0x80, 0xfe, 0xfe, 0xfe], 0x7e);
    EncStep(68719476734, 0x7e, [0x80, 0xfe, 0xfe, 0xfe, 0xfe], 0x7e);
    EncStep(8796093022206, 0x7e, [0x80, 0xfe, 0xfe, 0xfe, 0xfe, 0xfe], 0x7e);
    EncStep(1125899906842622, 0x7e, [0x80, 0xfe, 0xfe, 0xfe, 0xfe, 0xfe, 0xfe], 0x7e);
    EncStep(144115188075855870, 0x7f, [0x80, 0xfe, 0xfe, 0xfe, 0xfe, 0xfe, 0xfe, 0xfe], 0x7e);
  }

  // ----------------------------------------------------------------------- sizes

  function Power(k: nat): (p: nat)
    ensures p > 0
  {
    if k == 0 then 1 else 128 * Power(k - 1)
  }

  /** How many numbers take at most `k` bytes. */
  function Below(k: nat): nat {
    if k == 0 then 0 else Below(k - 1) + Power(k)
  }

  lemma {:induction false} BelowStep(k: nat)
    ensures Below(k + 1) == 128 * (Below(k) + 1)
  {
    if k > 0 {
      BelowStep(k - 1);
    } else {
      assert Power(1) == 128 * Power(0);
      assert Below(1) == Below(0) + Power(1);
    }
  }

  lemma {:induction false} DigitsLength(n: nat, flag: Byte, k: nat)
    requires flag == 0 || flag == 128
    ensures |Digits(n, flag)| <= k <==> n < Below(k)
    decreases n
  {
    if k > 0 {
      BelowStep(k - 1);
      if n > 127 {
        DigitsLength(n / 128 - 1, 128, k - 1);
      } else {
        assert Below(k) >= 128;
      }
    }
  }

  /** An encoding takes at most `k` bytes exactly when the number is below
      128 + 128^2 + ... + 128^k. */
  lemma EncLength(n: nat, k: nat)
    ensures |Enc(n)| <= k <==> n < Below(k)
  {
    DigitsLength(n, 0, k);
  }

  /** A 64-bit number takes at most ten bytes, and some take ten. */
  lemma EncAtMostTen(n: nat)
    requires n < WORD
    ensures |Enc(n)| <= 10
    ensures n == WORD - 1 ==> |Enc(n)| == 10
  {
    hide Enc, Below;
    BelowTen();
    EncLength(n, 10);
    EncLength(n, 9);
  }

  lemma BelowTen()
    ensures Below(9) < WORD - 1 && Below(10) >= WORD
  {
    BelowStep(0); BelowStep(1); BelowStep(2); BelowStep(3); BelowStep(4);
    BelowStep(5); BelowStep(6); BelowStep(7); BelowStep(8); BelowStep(9);
    assert Below(9) == 128 * (Below(8) + 1);
  }

  // ------------------------------------------------------------- 64-bit arithmetic

  lemma ModIs(x: nat, q: nat, r: nat)
    requires x == WORD * q + r && r < WORD
    ensures x % WORD == r
  {
  }

  lemma WordSplit(c: nat, b: nat)
    requires b < 128
    ensures (c * 128 + b) % WORD == 128 * (c % 0x200_0000_0000_0000) + b
  {
    var q, r := c / 0x200_0000_0000_0000, c % 0x200_0000_0000_0000;
    ModIs(c * 128 + b, q, 128 * r + b);
  }

  lemma ModMod(c: nat)
    ensures c % WORD % 0x200_0000_0000_0000 == c % 0x200_0000_0000_0000
  {
    var a, r := c % WORD / 0x200_0000_0000_0000, c % WORD % 0x200_0000_0000_0000;
    Mod57Is(c, 128 * (c / WORD) + a, r);
  }

  lemma Mod57Is(x: nat, q: nat, r: nat)
    requires x == 0x200_0000_0000_0000 * q + r && r < 0x200_0000_0000_0000
    ensures x % 0x200_0000_0000_0000 == r
  {
  }

  /** Shifting in seven bits in 64-bit arithmetic is the sum reduced. */
  lemma ShiftIn(c: nat, b: nat)
    requires b < 128
    ensures (c % WORD * 128) % WORD + b == (c * 128 + b) % WORD
  {
    WordSplit(c % WORD, 0);
    WordSplit(c, b);
    ModMod(c);
  }

  lemma AddOne(c: nat)
    ensures (c % WORD + 1) % WORD == (c + 1) % WORD
  {
  }

  // ------------------------------------------------------------------------ code

  /** Bytes with others written over them from a place on. */
  function Written(s: seq<Byte>, at: nat, x: seq<Byte>): (r: seq<Byte>)
    requires at + |x| <= |s|
    ensures |r| == |s|
    ensures forall k :: 0 <= k < |s| ==> r[k] == if at <= k < at + |x| then x[k - at] else s[k]
  {
    s[..at] + x + s[at + |x|..]
  }

  lemma WrittenTwice(s: seq<Byte>, at: nat, x: seq<Byte>, y: seq<Byte>)
    requires at + |x| + |y| <= |s|
    ensures Written(Written(s, at, x), at + |x|, y) == Written(s, at, x + y)
  {
  }

  lemma WrittenIs(s: seq<Byte>, at: nat, x: seq<Byte>, r: seq<Byte>)
    requires at + |x| <= |s| == |r|
    requires forall k :: 0 <= k < |s| ==> r[k] == if at <= k < at + |x| then x[k - at] else s[k]
    ensures r == Written(s, at, x)
  {
  }

  method SerializeSizeVLQ(n: Word) returns (size: nat)
    ensures size == |Enc(n)|
  {
    size := 1;
    var m: nat := n;
    ghost var flag: Byte := 0;
    while m > 127
      invariant flag == 0 || flag == 128
      invariant |Enc(n)| == |Digits(m, flag)| + size - 1
      decreases m
    {
      size := size + 1;
      m := m / 128 - 1;
      flag := 128;
    }
  }

  /** Writes the groups from the least significant one up, then turns them around. */
  method PutVLQ(target: array<Byte>, at: nat, n: Word) returns (size: nat)
    requires at + |Enc(n)| <= target.Length
    modifies target
    ensures size == |Enc(n)| && at + size <= target.Length
    ensures target[..] == Written(old(target[..]), at, Enc(n))
  {
    var offset := PutGroups(target, at, n);
    ReverseBetween(target, at, at + offset + 1);
    size := offset + 1;
    WrittenIs(old(target[..]), at, Enc(n), target[..]);
  }

  /** Turns a stretch of an array around in place. */
  method ReverseBetween(a: array<Byte>, lo: nat, hi: nat)
    requires lo <= hi <= a.Length
    modifies a
    ensures forall k :: lo <= k < hi ==> a[k] == old(a[lo + hi - 1 - k])
    ensures forall k :: 0 <= k < a.Length && !(lo <= k < hi) ==> a[k] == old(a[k])
  {
    var i, j := lo, hi - 1;
    while i < j
      invariant lo <= i <= j + 1 && i + j == lo + hi - 1
      invariant forall k :: 0 <= k < a.Length && (k < lo || i <= k <= j || hi <= k) ==> a[k] == old(a[k])
      invariant forall k :: lo <= k < i || j < k < hi ==> a[k] == old(a[lo + hi - 1 - k])
    {
      a[i], a[j] := a[j], a[i];
      i, j := i + 1, j - 1;
    }
  }

  method PutGroups(target: array<Byte>, at: nat, n: Word) returns (offset: nat)
    requires at + |Enc(n)| <= target.Length
    modifies target
    ensures offset + 1 == |Enc(n)|
    ensures forall k :: at <= k <= at + offset ==> target[k] == Enc(n)[at + offset - k]
    ensures forall k :: 0 <= k < target.Length && !(at <= k <= at + offset) ==> target[k] == old(target[k])
  {
    offset := 0;
    var m: nat := n;
    ghost var all := Enc(n);
    while m > 127
      invariant offset < |all| && Digits(m, if offset == 0 then 0 else 128) == all[..|all| - offset]
      invariant forall k :: at <= k < at + offset ==> target[k] == all[|all| - 1 - (k - at)]
      invariant forall k :: 0 <= k < target.Length && !(at <= k < at + offset) ==> target[k] == old(target[k])
      decreases m
    {
      GroupPut(m, if offset == 0 then 0 else 128, all, offset);
      target[at + offset] := m % 128 + if offset == 0 then 0 else 128;
      m := m / 128 - 1;
      offset := offset + 1;
    }
    target[at + offset] := m + if offset == 0 then 0 else 128;
    assert |all| - offset == 1 && all[..1][0] == all[0];
  }

  /** The last of the groups that are left, and the ones before it. */
  lemma GroupPut(m: nat, flag: Byte, all: seq<Byte>, offset: nat)
    requires m > 127 && (flag == 0 || flag == 128)
    requires offset < |all| && Digits(m, flag) == all[..|all| - offset]
    ensures all[|all| - 1 - offset] == m % 128 + flag
    ensures offset + 1 < |all| && Digits(m / 128 - 1, 128) == all[..|all| - offset - 1]
  {
    var here := Digits(m, flag);
    assert here[|here| - 1] == all[|all| - 1 - offset];
    assert here[..|here| - 1] == all[..|all| - offset - 1];
  }

  /** The loop body both readers share: shift seven bits in, and add one when the
      number goes on. */
  method TakeByte(n: Word, val: Byte, ghost before: seq<Byte>) returns (m: Word, last: bool)
    requires n == Carry(before) % WORD
    ensures last <==> val < 128
    ensures m == (if last then Value(before + [val]) else Carry(before + [val])) % WORD
  {
    assert (before + [val])[..|before|] == before;
    ShiftIn(Carry(before), val % 128);
    m := (n * 128) % WORD + val % 128;
    last := val < 128;
    if !last {
      AddOne(Value(before + [val]));
      m := (m + 1) % WORD;
    }
  }

  lemma ReadStep(s: seq<Byte>, i: nat)
    requires i < |s|
    ensures s[..i] + [s[i]] == s[..i + 1]
    ensures Size(s[i..]) == if s[i] < 128 then 1 else 1 + Size(s[i + 1..])
  {
    assert s[i..][1..] == s[i + 1..];
  }

  /** Reading from a slice. */
  method DeserializeVLQ(serialized: seq<Byte>) returns (n: Word, size: nat)
    ensures n == Decoded(serialized) && size == Size(serialized)
  {
    hide Decoded, Size, Value, Carry;
    n, size := 0, 0;
    var last := false;
    NothingRead(serialized);
    while size < |serialized| && !last
      invariant size <= |serialized|
      invariant if last then Ended(serialized, size, n) else GoesOn(serialized, size, n)
      decreases |serialized| - size, !last
    {
      ghost var before := n;
      n, last := TakeByte(n, serialized[size], serialized[..size]);
      ReadOn(serialized, size, before, n);
      size := size + 1;
    }
    ReadIs(serialized, size, n);
  }

  /** The number ended with the bytes read. */
  ghost predicate Ended(s: seq<Byte>, size: nat, n: Word) {
    0 < size <= |s| && size == Size(s) && s[size - 1] < 128 && n == Value(s[..size]) % WORD
  }

  /** The number goes on after the bytes read. */
  ghost predicate GoesOn(s: seq<Byte>, size: nat, n: Word) {
    size <= |s| && Size(s) == size + Size(s[size..]) && n == Carry(s[..size]) % WORD
    && (size > 0 ==> s[size - 1] >= 128)
  }

  /** Where the number ended, or the input did, the value read is the decoded one. */
  lemma ReadIs(s: seq<Byte>, size: nat, n: Word)
    requires Ended(s, size, n) || (size == |s| && GoesOn(s, size, n))
    ensures n == Decoded(s) && size == Size(s)
  {
  }

  lemma NothingRead(s: seq<Byte>)
    ensures GoesOn(s, 0, 0)
  {
    assert s[0..] == s && s[..0] == [];
  }

  /** One more byte taken. */
  lemma ReadOn(s: seq<Byte>, size: nat, n: Word, m: Word)
    requires size < |s| && GoesOn(s, size, n)
    requires m == (if s[size] < 128 then Value(s[..size] + [s[size]]) else Carry(s[..size] + [s[size]])) % WORD
    ensures if s[size] < 128 then Ended(s, size + 1, m) else GoesOn(s, size + 1, m)
  {
    ReadStep(s, size);
  }
}
