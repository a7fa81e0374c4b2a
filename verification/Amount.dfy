/** The compression of amounts: trailing zeroes, at most nine of them, become an
    exponent, and the last digit, which then is not zero, gives up its tenth value. */
module Amount {
  import opened Vlq

  // -------------------------------------------------------------- specification

  function Ten(e: nat): (p: nat)
    ensures p > 0
  {
    if e == 0 then 1 else 10 * Ten(e - 1)
  }

  /** How many trailing zeroes are taken off, nine at most. */
  function Exponent(a: nat, e: nat): (r: nat)
    requires e <= 9
    ensures e <= r <= 9
    decreases 9 - e
  {
    if a % 10 == 0 && e < 9 then Exponent(a / 10, e + 1) else e
  }

  /** What is left without them. */
  function Stripped(a: nat, e: nat): nat
    requires e <= 9
    decreases 9 - e
  {
    if a % 10 == 0 && e < 9 then Stripped(a / 10, e + 1) else a
  }

  /** An amount put together from its mantissa and exponent. */
  function Pack(n: nat, e: nat): nat {
    if e < 9 then 1 + 10 * (9 * (n / 10) + (if n % 10 > 0 then n % 10 - 1 else 0)) + e
    else 10 + 10 * (if n > 0 then n - 1 else 0)
  }

  /** Compression on the naturals. */
  function Compress(a: nat): nat {
    if a == 0 then 0 else Pack(Stripped(a, 0), Exponent(a, 0))
  }

  function Mantissa(x: nat): nat {
    if x == 0 then 0
    else if (x - 1) % 10 < 9 then (x - 1) / 10 / 9 * 10 + (x - 1) / 10 % 9 + 1
    else (x - 1) / 10 + 1
  }

  /** Decompression on the naturals. */
  function Decompress(x: nat): nat {
    if x == 0 then 0 else Mantissa(x) * Ten((x - 1) % 10)
  }

  /** Both as computed in 64 bits. */
  function Compress64(a: Word): Word {
    Compress(a) % WORD
  }

  function Decompress64(x: Word): Word {
    Decompress(x) % WORD
  }

  // ---------------------------------------------------------- how amounts split

  /** A mantissa and an exponent that an amount can have: the mantissa is positive and,
      below the largest exponent, does not end in zero. */
  predicate Normal(n: nat, e: nat) {
    n > 0 && e <= 9 && (e < 9 ==> n % 10 != 0)
  }

  lemma {:induction false} StrippedSplits(a: nat, e: nat)
    requires a > 0 && e <= 9
    ensures Normal(Stripped(a, e), Exponent(a, e)) && a == Stripped(a, e) * Ten(Exponent(a, e) - e)
    decreases 9 - e
  {
    if a % 10 == 0 && e < 9 {
      StrippedSplits(a / 10, e + 1);
      TenTimes(Stripped(a / 10, e + 1), Exponent(a / 10, e + 1) - (e + 1));
      Swap(Stripped(a, e), 10, Ten(Exponent(a, e) - (e + 1)));
    }
  }

  lemma StripStep(y: nat, f: nat)
    requires y > 0 && f < 9
    ensures Exponent(y * 10, f) == Exponent(y, f + 1) && Stripped(y * 10, f) == Stripped(y, f + 1)
  {
    assert y * 10 % 10 == 0 && y * 10 / 10 == y;
  }

  lemma {:induction false} StrippedOf(n: nat, e: nat, f: nat)
    requires Normal(n, e + f)
    ensures n * Ten(e) > 0
    ensures Exponent(n * Ten(e), f) == e + f && Stripped(n * Ten(e), f) == n
    decreases e
  {
    if e > 0 {
      var y := n * Ten(e - 1);
      StrippedOf(n, e - 1, f + 1);
      StripStep(y, f);
      assert n * Ten(e) == y * 10 by {
        TenTimes(n, e - 1);
        Swap(n, 10, Ten(e - 1));
      }
    } else {
      assert n * Ten(0) == n;
    }
  }

  lemma TenTimes(n: nat, e: nat)
    ensures n * Ten(e + 1) == n * 10 * Ten(e)
  {
    assert Ten(e + 1) == 10 * Ten(e);
    Associative(n, 10, Ten(e));
  }

  lemma Associative(x: int, y: int, z: int)
    ensures x * (y * z) == x * y * z
  {
  }

  lemma Swap(x: int, y: int, z: int)
    ensures x * y * z == x * z * y
  {
  }

  lemma PackNormal(n: nat, e: nat)
    requires Normal(n, e)
    ensures Pack(n, e) > 0 && (Pack(n, e) - 1) % 10 == e && Mantissa(Pack(n, e)) == n
  {
    if e < 9 {
      var q := 9 * (n / 10) + (n % 10 - 1);
      assert Pack(n, e) == 1 + 10 * q + e;
      assert (10 * q + e) % 10 == e && (10 * q + e) / 10 == q;
      NineSplit(n / 10, n % 10 - 1);
    } else {
      assert Pack(n, e) == 1 + 10 * (n - 1) + 9;
    }
  }

  lemma NineSplit(m: nat, d: nat)
    requires d < 9
    ensures (9 * m + d) / 9 == m && (9 * m + d) % 9 == d
  {
  }

  lemma MantissaNormal(x: nat)
    requires x > 0
    ensures Normal(Mantissa(x), (x - 1) % 10) && Pack(Mantissa(x), (x - 1) % 10) == x
  {
    var e, q := (x - 1) % 10, (x - 1) / 10;
    if e < 9 {
      assert Mantissa(x) == q / 9 * 10 + (q % 9 + 1);
      TenSplit(q / 9, q % 9 + 1);
    }
  }

  lemma TenSplit(m: nat, d: nat)
    requires d < 10
    ensures (m * 10 + d) / 10 == m && (m * 10 + d) % 10 == d
  {
  }

  // -------------------------------------------------------------------- bijection

  /** Compression is a bijection on the naturals: undoing it works from both sides. */
  lemma DecompressCompress(a: nat)
    ensures Decompress(Compress(a)) == a
  {
    if a > 0 {
      StrippedSplits(a, 0);
      PackNormal(Stripped(a, 0), Exponent(a, 0));
    }
  }

  lemma CompressDecompress(x: nat)
    ensures Compress(Decompress(x)) == x
  {
    if x > 0 {
      MantissaNormal(x);
      StrippedOf(Mantissa(x), (x - 1) % 10, 0);
    }
  }

  lemma {:induction false} TenGrows(e: nat)
    requires e <= 9
    ensures Ten(e) > e && (e == 9 ==> Ten(e) >= 10)
    decreases e
  {
    if e > 0 {
      TenGrows(e - 1);
    }
  }

  lemma PackSmall(n: nat, e: nat)
    requires Normal(n, e)
    ensures Pack(n, e) <= 9 * (n * Ten(e))
  {
    if e == 0 {
      assert n * Ten(0) == n;
    } else {
      TenTimes(n, e - 1);
      Scaled(n * 10, Ten(e - 1));
    }
  }

  lemma Scaled(n: nat, t: nat)
    requires t >= 1
    ensures n * t >= n
  {
  }

  /** Compressing never makes an amount more than nine times as large. */
  lemma CompressAtMostNinefold(a: nat)
    ensures Compress(a) <= 9 * a
  {
    if a > 0 {
      StrippedSplits(a, 0);
      PackSmall(Stripped(a, 0), Exponent(a, 0));
    }
  }

  /** The code of every amount: what is left of it without `e` trailing zeroes, nine at
      most, says with `e` which code it has, and the code says the amount. */
  lemma CodeOf(n: nat, e: nat)
    requires n > 0 && e <= 9 && (e < 9 ==> n % 10 != 0)
    ensures Compress(n * Ten(e)) == if e < 9 then 1 + 10 * (9 * (n / 10) + n % 10 - 1) + e else 10 + 10 * (n - 1)
    ensures Decompress(if e < 9 then 1 + 10 * (9 * (n / 10) + n % 10 - 1) + e else 10 + 10 * (n - 1)) == n * Ten(e)
    ensures Compress(0) == 0 && Decompress(0) == 0
  {
    StrippedOf(n, e, 0);
    DecompressCompress(n * Ten(e));
  }

  lemma PowersOfTen()
    ensures Ten(0) == 1 && Ten(1) == 10 && Ten(2) == 100 && Ten(3) == 1000 && Ten(4) == 10000
    ensures Ten(5) == 100000 && Ten(6) == 1000000 && Ten(7) == 10000000 && Ten(8) == 100000000 && Ten(9) == 1000000000
  {
  }

  /** The documented examples; the one of 50000000 is documented as 47 and is 48. */
  lemma CodeExamples()
    ensures Compress(1000) == 4 && Compress(10000) == 5 && Compress(12345678) == 111111101 && Compress(50000000) == 48
    ensures Compress(10000000) == 8 && Compress(100000000) == 9 && Compress(500000000) == 49 && Compress(1000000000) == 10
    ensures Decompress(80772) == 89750
  {
    hide Compress, Decompress;
    PowersOfTen();
    CodeOf(1, 3);
    CodeOf(1, 4);
    CodeOf(12345678, 0);
    CodeOf(5, 7);
    CodeOf(1, 7);
    CodeOf(1, 8);
    CodeOf(5, 8);
    CodeOf(1, 9);
    CodeOf(8975, 1);
  }

  // ------------------------------------------------------------------------- code

  method CompressTxOutAmount(amount: Word) returns (r: Word)
    ensures r == Compress64(amount) && r == Compress(amount) % 0x1_0000_0000_0000_0000
  {
    if amount == 0 {
      return 0;
    }
    var n, exponent := amount, 0;
    while n % 10 == 0 && exponent < 9
      invariant exponent <= 9 && 0 < n <= amount
      invariant Exponent(amount, 0) == Exponent(n, exponent) && Stripped(amount, 0) == Stripped(n, exponent)
      decreases 9 - exponent
    {
      n, exponent := n / 10, exponent + 1;
    }
    if exponent < 9 {
      var lastDigit := n % 10;
      n := n / 10;
      return (1 + 10 * (9 * n + lastDigit - 1) + exponent) % WORD;
    }
    return (10 + 10 * (n - 1)) % WORD;
  }

  method DecompressTxOutAmount(amount: Word) returns (r: Word)
    ensures r == Decompress64(amount) && r == Decompress(amount) % 0x1_0000_0000_0000_0000
  {
    if amount == 0 {
      return 0;
    }
    var x := amount - 1;
    var exponent := x % 10;
    x := x / 10;
    var n: nat;
    if exponent < 9 {
      var lastDigit := x % 9 + 1;
      x := x / 9;
      n := x * 10 + lastDigit;
    } else {
      n := x + 1;
    }
    assert n == Mantissa(amount);
    ghost var done, product: nat := 0, n;
    r := n;
    assert n * Ten(0) == n;
    while exponent > 0
      invariant exponent >= 0 && done + exponent == (amount - 1) % 10
      invariant r == product % WORD && product == n * Ten(done)
      decreases exponent
    {
      TimesTen(product);
      TenTimes(n, done);
      Swap(n, 10, Ten(done));
      r, product := (r * 10) % WORD, product * 10;
      exponent, done := exponent - 1, done + 1;
    }
  }

  lemma TimesTen(x: nat)
    ensures (x % WORD * 10) % WORD == (x * 10) % WORD
  {
    var q, r := x / WORD, x % WORD;
    assert x * 10 == WORD * (10 * q) + r * 10;
    ModIs(x * 10, 10 * q + r * 10 / WORD, r * 10 % WORD);
  }

  // ------------------------------------------------------ which amounts come back

  /** The 64-bit code gives an amount back whenever its compressed form fits in 64
      bits, so for every amount up to a ninth of the largest word. */
  lemma LosslessWhenItFits(a: nat)
    requires a < WORD && (Compress(a) < WORD || 9 * a < WORD)
    ensures Compress(a) < WORD && Compress64(a) == Compress(a) && Decompress64(Compress64(a)) == a
  {
    CompressAtMostNinefold(a);
    DecompressCompress(a);
    ModIs(Compress(a), 0, Compress(a));
    ModIs(a, 0, a);
  }

  lemma PackIs(n: nat, e: nat)
    requires Normal(n, e)
    ensures Pack(n, e) == if e < 9 then 9 * n + n % 10 + e - 9 else 10 * n
  {
    assert n == n / 10 * 10 + n % 10;
  }

  /** Whether the compressed form of a word fits in 64 bits. */
  predicate Fits(a: Word) {
    a % 10 == 0 || 9 * a + a % 10 - 9 < WORD
  }

  /** Only amounts that do not end in zero can be too large to compress. */
  lemma FitsExactly(a: Word)
    ensures a % 10 != 0 ==> Compress(a) == 9 * a + a % 10 - 9
    ensures Compress(a) < WORD <==> Fits(a)
  {
    if a > 0 {
      var n, e := Stripped(a, 0), Exponent(a, 0);
      StrippedSplits(a, 0);
      PackIs(n, e);
      if e > 0 {
        TenTimes(n, e - 1);
        Scaled(n * 10, Ten(e - 1));
        if e == 9 {
          assert Ten(9) == 1000000000;
        }
      }
    }
  }

  lemma NoMantissa2(n: nat, m: int, t: int)
    requires 891 * n == m * WORD + t && t in {-3, -2, 6, 7}
    ensures n > WORD / 9 + 1
  {
    assert n - 13705661702352102323 * t == WORD * (13705661702352102323 * m - 662 * n);
  }

  lemma NoMantissa4(n: nat, m: int, t: int)
    requires 89991 * n == m * WORD + t && t in {2, 3, 11, 12}
    ensures n > WORD / 9 + 1
  {
    assert n - 15842828238033401399 * t == WORD * (15842828238033401399 * m - 77288 * n);
  }

  lemma NoMantissa6(n: nat, m: int, t: int)
    requires 8999991 * n == m * WORD + t && t in {-1, 8}
    ensures n > WORD / 9 + 1
  {
    assert n - 12483635422780629383 * t == WORD * (12483635422780629383 * m - 6090647 * n);
  }

  lemma NoMantissa8(n: nat, m: int, t: int)
    requires 899999991 * n == m * WORD + t && t in {4, 5, 13, 14}
    ensures n > WORD / 9 + 1
  {
    assert n - 16430456183658535111 * t == WORD * (16430456183658535111 * m - 801627125 * n);
  }

  /** How often an overflowing code wrapped decides its exponent digit. */
  lemma WrappedDigit(q: nat, y: nat)
    requires 1 <= q <= 8 && y > 0 && (q * WORD + y) % 10 == 1
    ensures (y - 1) % 10 == 4 * q % 10
    ensures (y - 1) % 10 == [4, 8, 2, 6, 0, 4, 8, 2][q - 1]
  {
    assert (y - 1 + 6 * q) % 10 == 0;
  }

  /** No mantissa makes a wrapped code stand for the amount it came from: modulo 2^64
      it is determined, and too large. */
  lemma NoMantissa(n: nat, q: nat, k: nat, f: nat, t: int)
    requires 1 <= q <= 8 && f == [4, 8, 2, 6, 0, 4, 8, 2][q - 1] && f > 0
    requires f - 8 <= t <= f + 8 && 9 * (n * Ten(f)) == 9 * n + (q + 9 * k) * WORD + t
    ensures n > WORD / 9 + 1
  {
    assert Ten(2) == 100 && Ten(4) == 10000 && Ten(6) == 1000000 && Ten(8) == 100000000;
    assert (2 * q - t) % 9 == 0 by { MultipleOfNine(n * Ten(f) - n - k * WORD, q, t); }
    if f == 2 {
      NoMantissa2(n, q + 9 * k, t);
    } else if f == 4 {
      NoMantissa4(n, q + 9 * k, t);
    } else if f == 6 {
      NoMantissa6(n, q + 9 * k, t);
    } else {
      NoMantissa8(n, q + 9 * k, t);
    }
  }

  lemma MultipleOfNine(x: int, q: nat, t: int)
    requires 9 * x == q * WORD + t
    ensures (2 * q - t) % 9 == 0
  {
    assert 2 * q - t == 9 * (q * 2049638230412172402 - x);
  }

  lemma NotBack(a: Word, q: nat, y: Word, n: nat, f: nat)
    requires 9 * a + a % 10 - 9 == q * WORD + y && y == 9 * n + n % 10 + f - 9
    requires 1 <= q <= 8 && f == [4, 8, 2, 6, 0, 4, 8, 2][q - 1] && f > 0 && n % 10 != 0 && a % 10 != 0
    ensures n * Ten(f) % WORD != a
  {
    var x := n * Ten(f);
    if x % WORD == a {
      var k := x / WORD;
      assert x == k * WORD + a;
      NoMantissa(n, q, k, f, n % 10 + f - a % 10);
    }
  }

  lemma Wraps(a: Word)
    requires 9 * a + a % 10 - 9 >= WORD
    ensures var c := 9 * a + a % 10 - 9; 1 <= c / WORD <= 8 && c == c / WORD * WORD + c % WORD && c % 10 == 1
  {
    assert a == a / 10 * 10 + a % 10;
  }

  lemma LostWhenTooLarge(a: Word)
    requires Compress(a) >= WORD
    ensures Decompress64(Compress64(a)) != a
  {
    FitsExactly(a);
    Wraps(a);
    var q, y := Compress(a) / WORD, Compress64(a);
    if y > 0 {
      var n, f := Mantissa(y), (y - 1) % 10;
      WrappedDigit(q, y);
      MantissaNormal(y);
      PackIs(n, f);
      if f == 0 {
        UnscaledIsLost(a, y);
      } else {
        NotBack(a, q, y, n, f);
      }
    }
  }

  lemma UnscaledIsLost(a: Word, y: Word)
    requires Compress(a) >= WORD && y > 0 && (y - 1) % 10 == 0
    ensures Decompress64(y) != a
  {
    var n := Mantissa(y);
    assert n * Ten(0) == n;
    MantissaNormal(y);
    PackIs(n, 0);
    ModIs(n, 0, n);
    CompressDecompress(y);
  }

  /** The 64-bit code gives a word back exactly when its compressed form fits in 64
      bits: when it ends in zero, or nine times it and its last digit less nine does. */
  lemma LosslessExactly(a: Word)
    ensures Decompress64(Compress64(a)) == a <==> Fits(a)
    ensures Compress(a) < WORD <==> Fits(a)
  {
    FitsExactly(a);
    if Fits(a) {
      LosslessWhenItFits(a);
    } else {
      LostWhenTooLarge(a);
    }
  }

  /** Nine is the least factor that compressing stays within, and the largest word is
      one that does not come back. */
  lemma TooLargeIsLost()
    ensures Compress(9) == 9 * 9
    ensures var a := WORD - 1; Compress(a) >= WORD && Decompress64(Compress64(a)) != a
  {
    assert Exponent(9, 0) == 0 && Stripped(9, 0) == 9;
    LargestCompressed();
    LargestReadBack();
  }

  lemma LargestCompressed()
    ensures Compress(WORD - 1) == 166020696663385964531 && Compress64(WORD - 1) == 18446744073709551603
  {
    assert (WORD - 1) % 10 == 5 && (WORD - 1) / 10 == 1844674407370955161;
    assert Exponent(WORD - 1, 0) == 0 && Stripped(WORD - 1, 0) == WORD - 1;
    ModIs(166020696663385964531, 8, 18446744073709551603);
  }

  lemma LargestReadBack()
    ensures Decompress64(18446744073709551603) == 2049638230412172324
  {
    var n := 2049638230412172401;
    assert Mantissa(18446744073709551603) == n;
    assert Ten(0) == 1 && Ten(1) == 10 && Ten(2) == 100;
    ModIs(204963823041217240100, 11, 2049638230412172324);
  }
}
