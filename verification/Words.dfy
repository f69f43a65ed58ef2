/** 32-bit words: the bit patterns that the code computes with, and the numbers they stand for. */
module Words {
  const WORD_LIMIT: nat := 0x1_0000_0000

  function Pow2(k: nat): (p: nat)
    ensures p > 0
  {
    if k == 0 then 1 else 2 * Pow2(k - 1)
  }

  /** The number that a word stands for. */
  function ToNat(w: bv32): nat
    decreases w
  {
    if w == 0 then 0 else (if w & 1 == 1 then 1 else 0) + 2 * ToNat(w >> 1)
  }

  /** The word that stands for a number, modulo 2^32. */
  function FromNat(n: nat): bv32 {
    if n == 0 then 0 else (FromNat(n / 2) << 1) | (if n % 2 == 1 then 1 else 0)
  }

  // ---------- words as numbers ----------

  predicate Within(a: bv32, b: bv32) {
    a & b == a
  }

  lemma {:induction false} WithinIsLess(a: bv32, b: bv32)
    requires Within(a, b)
    ensures ToNat(a) <= ToNat(b)
    decreases a
  {
    if a == 0 {
    } else {
      WithinHalves(a, b);
      WithinIsLess(a >> 1, b >> 1);
    }
  }

  lemma WithinHalves(a: bv32, b: bv32)
    requires Within(a, b) && a != 0
    ensures Within(a >> 1, b >> 1) && a >> 1 < a && b != 0 && (a & 1 == 1 ==> b & 1 == 1)
  {
  }

  lemma ToNatDouble(w: bv32)
    requires w & 0x8000_0000 == 0
    ensures ToNat(w << 1) == 2 * ToNat(w)
    ensures ToNat((w << 1) | 1) == 2 * ToNat(w) + 1
  {
    assert (w << 1) >> 1 == w && ((w << 1) | 1) >> 1 == w;
  }

  lemma ToNatTop()
    ensures ToNat(0x8000_0000) == 0x8000_0000
  {
    assert ToNat(1) == 1 + 2 * ToNat(0);
    ToNatDouble(0x1); ToNatDouble(0x2); ToNatDouble(0x4); ToNatDouble(0x8);
    ToNatDouble(0x10); ToNatDouble(0x20); ToNatDouble(0x40); ToNatDouble(0x80);
    ToNatDouble(0x100); ToNatDouble(0x200); ToNatDouble(0x400); ToNatDouble(0x800);
    ToNatDouble(0x1000); ToNatDouble(0x2000); ToNatDouble(0x4000); ToNatDouble(0x8000);
    ToNatDouble(0x1_0000); ToNatDouble(0x2_0000); ToNatDouble(0x4_0000); ToNatDouble(0x8_0000);
    ToNatDouble(0x10_0000); ToNatDouble(0x20_0000); ToNatDouble(0x40_0000); ToNatDouble(0x80_0000);
    ToNatDouble(0x100_0000); ToNatDouble(0x200_0000); ToNatDouble(0x400_0000); ToNatDouble(0x800_0000);
    ToNatDouble(0x1000_0000); ToNatDouble(0x2000_0000); ToNatDouble(0x4000_0000);
  }

  lemma ToNatHalfOnes()
    ensures ToNat(0xFFFF) == 0xFFFF
  {
    assert ToNat(1) == 1 + 2 * ToNat(0);
    ToNatDouble(0x1); ToNatDouble(0x3); ToNatDouble(0x7); ToNatDouble(0xF);
    ToNatDouble(0x1F); ToNatDouble(0x3F); ToNatDouble(0x7F); ToNatDouble(0xFF);
    ToNatDouble(0x1FF); ToNatDouble(0x3FF); ToNatDouble(0x7FF); ToNatDouble(0xFFF);
    ToNatDouble(0x1FFF); ToNatDouble(0x3FFF); ToNatDouble(0x7FFF);
  }

  lemma ToNatOnes()
    ensures ToNat(0xFFFF_FFFF) == WORD_LIMIT - 1
  {
    ToNatHalfOnes();
    ToNatDouble(0xFFFF);
    ToNatDouble(0x1_FFFF); ToNatDouble(0x3_FFFF); ToNatDouble(0x7_FFFF); ToNatDouble(0xF_FFFF);
    ToNatDouble(0x1F_FFFF); ToNatDouble(0x3F_FFFF); ToNatDouble(0x7F_FFFF); ToNatDouble(0xFF_FFFF);
    ToNatDouble(0x1FF_FFFF); ToNatDouble(0x3FF_FFFF); ToNatDouble(0x7FF_FFFF); ToNatDouble(0xFFF_FFFF);
    ToNatDouble(0x1FFF_FFFF); ToNatDouble(0x3FFF_FFFF); ToNatDouble(0x7FFF_FFFF);
  }

  lemma ToNatLimit(w: bv32)
    ensures ToNat(w) < WORD_LIMIT
  {
    ToNatOnes();
    WithinIsLess(w, 0xFFFF_FFFF);
  }

  /** Every word is what its number stands for, so words with the same number are the same. */
  lemma {:induction false} WordRoundTrip(w: bv32)
    ensures FromNat(ToNat(w)) == w
    decreases w
  {
    if w == 0 {
    } else {
      WordRoundTrip(w >> 1);
      WordRoundTripStep(w);
    }
  }

  lemma WordRoundTripStep(w: bv32)
    requires w != 0 && FromNat(ToNat(w >> 1)) == w >> 1
    ensures FromNat(ToNat(w)) == w
  {
    assert ToNat(w) / 2 == ToNat(w >> 1);
  }

  lemma SmallHasNoTop(w: bv32)
    requires ToNat(w) < 0x8000_0000
    ensures w & 0x8000_0000 == 0
  {
    ToNatTop();
    if w & 0x8000_0000 != 0 {
      WithinIsLess(0x8000_0000, w);
    }
  }

  /** Every number below 2^32 is what its word stands for. */
  lemma {:induction false} RoundTrip(n: nat)
    requires n < WORD_LIMIT
    ensures ToNat(FromNat(n)) == n
  {
    if n > 0 {
      RoundTrip(n / 2);
      SmallHasNoTop(FromNat(n / 2));
      ToNatDouble(FromNat(n / 2));
    }
  }

  // ---------- single bits ----------

  function Low(w: bv32): (digit: nat)
    ensures digit <= 1
  {
    if w & 1 == 1 then 1 else 0
  }

  function Half(w: bv32): bv32 {
    w >> 1
  }

  lemma ToNatHalf(w: bv32)
    ensures ToNat(w) == Low(w) + 2 * ToNat(Half(w))
  {
  }

  /** The two lowest digits of a number. */
  lemma TwoDigits(w: bv32)
    ensures ToNat(w) == Low(w) + 2 * Low(Half(w)) + 4 * ToNat(Half(Half(w)))
  {
    ToNatHalf(w);
    ToNatHalf(Half(w));
  }

  /** Binary digit k of a number, counted from the least significant. */
  function Digit(n: nat, k: nat): nat {
    if k == 0 then n % 2 else Digit(n / 2, k - 1)
  }

  lemma {:induction false} ToNatNext(k: bv32)
    requires 0 < k <= 31
    ensures ToNat(k) == ToNat(k - 1) + 1
    decreases k
  {
    HalvesOfNext(k);
    ToNatHalf(k);
    ToNatHalf(k - 1);
    if Low(k) == 0 {
      ToNatNext(Half(k));
    }
  }

  lemma HalvesOfNext(k: bv32)
    requires 0 < k <= 31
    ensures if Low(k) == 1 then Low(k - 1) == 0 && Half(k - 1) == Half(k)
            else Low(k - 1) == 1 && 0 < Half(k) < k && Half(k - 1) == Half(k) - 1
  {
  }

  lemma {:induction false} ToNatSum(d: bv32, m: bv32, c: bv32)
    requires d <= c <= 31 && m <= c && d + m == c
    ensures ToNat(d) + ToNat(m) == ToNat(c)
    decreases m
  {
    if m == 0 {
      NothingMore(d, c);
    } else {
      var d', m' := d + 1, m - 1;
      NextSum(d, m, c, d', m');
      ToNatSum(d', m', c);
      ToNatNext(m);
      ToNatNext(d');
    }
  }

  lemma NothingMore(d: bv32, c: bv32)
    requires d + 0 == c
    ensures d == c
  {
  }

  lemma NextSum(d: bv32, m: bv32, c: bv32, d': bv32, m': bv32)
    requires d <= c <= 31 && 0 < m <= c && d + m == c && d' == d + 1 && m' == m - 1
    ensures 0 < d' <= c && m' < m && d' + m' == c && d' - 1 == d && m' == m - 1
  {
  }

  lemma ToNatDifference(c: bv32, m: bv32)
    requires m <= c <= 31
    ensures ToNat(c - m) + ToNat(m) == ToNat(c)
  {
    DifferenceAndSum(c, m);
    ToNatSum(c - m, m, c);
  }

  lemma DifferenceAndSum(c: bv32, m: bv32)
    requires m <= c <= 31
    ensures c - m <= c && (c - m) + m == c
  {
  }

  // ---------- the bit smear ----------

  /** Every bit below a set bit is set. */
  predicate Filled(f: bv32) {
    Within(f >> 1, f)
  }

  /** f fills every bit below the highest bit of x, and no other. */
  predicate Fills(f: bv32, x: bv32) {
    Filled(f) && Within(x, f) && Within(f, x | (f >> 1))
  }

  // After the shifts below m, y covers x, and y shifted by one up to x shifted by m; and a bit of y
  // is in x unless the next higher bit is in y. Each step doubles m.

  lemma FillsFrom16(x: bv32, d: bv32, f: bv32)
    requires f == (d >> 16) | d
    requires Within(x, d) && Within(d >> 1, d | (x >> 16)) && Within(d, x | (d >> 1)) && Within(x >> 15, d)
    ensures Fills(f, x)
  {
    Covers16(x, d, f);
    Highest16(x, d, f);
  }

  lemma FillsFrom8(x: bv32, c: bv32, d: bv32, f: bv32)
    requires d == (c >> 8) | c && f == (d >> 16) | d
    requires Within(x, c) && Within(c >> 1, c | (x >> 8)) && Within(c, x | (c >> 1)) && Within(x >> 7, c)
    ensures Fills(f, x)
  {
    Covers8(x, c, d);
    Highest8(x, c, d);
    FillsFrom16(x, d, f);
  }

  lemma FillsFrom4(x: bv32, b: bv32, c: bv32, d: bv32, f: bv32)
    requires c == (b >> 4) | b && d == (c >> 8) | c && f == (d >> 16) | d
    requires Within(x, b) && Within(b >> 1, b | (x >> 4)) && Within(b, x | (b >> 1)) && Within(x >> 3, b)
    ensures Fills(f, x)
  {
    Covers4(x, b, c);
    Highest4(x, b, c);
    FillsFrom8(x, c, d, f);
  }

  lemma FillsFrom2(x: bv32, a: bv32, b: bv32, c: bv32, d: bv32, f: bv32)
    requires b == (a >> 2) | a && c == (b >> 4) | b && d == (c >> 8) | c && f == (d >> 16) | d
    requires Within(x, a) && Within(a >> 1, a | (x >> 2)) && Within(a, x | (a >> 1)) && Within(x >> 1, a)
    ensures Fills(f, x)
  {
    Covers2(x, a, b);
    Highest2(x, a, b);
    FillsFrom4(x, b, c, d, f);
  }

  /** Ors with the shifts by 1, 2, 4, 8 and 16 fill the word up to its highest bit. */
  lemma SmearFills(x: bv32, a: bv32, b: bv32, c: bv32, d: bv32, f: bv32)
    requires a == (x >> 1) | x && b == (a >> 2) | a && c == (b >> 4) | b && d == (c >> 8) | c && f == (d >> 16) | d
    ensures Fills(f, x)
  {
    Covers1(x, a);
    Highest1(x, a);
    FillsFrom2(x, a, b, c, d, f);
  }

  lemma Covers1(x: bv32, a: bv32)
    requires a == (x >> 1) | x
    ensures Within(x, a) && Within(a >> 1, a | (x >> 2))
  {
  }

  lemma Highest1(x: bv32, a: bv32)
    requires a == (x >> 1) | x
    ensures Within(a, x | (a >> 1)) && Within(x >> 1, a)
  {
  }

  lemma Covers2(x: bv32, y: bv32, y': bv32)
    requires y' == (y >> 2) | y && Within(x, y) && Within(y >> 1, y | (x >> 2))
    ensures Within(x, y') && Within(y' >> 1, y' | (x >> 4))
  {
  }

  lemma Highest2(x: bv32, y: bv32, y': bv32)
    requires y' == (y >> 2) | y && Within(y, x | (y >> 1)) && Within(x >> 1, y)
    ensures Within(y', x | (y' >> 1)) && Within(x >> 3, y')
  {
  }

  lemma Covers4(x: bv32, y: bv32, y': bv32)
    requires y' == (y >> 4) | y && Within(x, y) && Within(y >> 1, y | (x >> 4))
    ensures Within(x, y') && Within(y' >> 1, y' | (x >> 8))
  {
  }

  lemma Highest4(x: bv32, y: bv32, y': bv32)
    requires y' == (y >> 4) | y && Within(y, x | (y >> 1)) && Within(x >> 3, y)
    ensures Within(y', x | (y' >> 1)) && Within(x >> 7, y')
  {
  }

  lemma Covers8(x: bv32, y: bv32, y': bv32)
    requires y' == (y >> 8) | y && Within(x, y) && Within(y >> 1, y | (x >> 8))
    ensures Within(x, y') && Within(y' >> 1, y' | (x >> 16))
  {
  }

  lemma Highest8(x: bv32, y: bv32, y': bv32)
    requires y' == (y >> 8) | y && Within(y, x | (y >> 1)) && Within(x >> 7, y)
    ensures Within(y', x | (y' >> 1)) && Within(x >> 15, y')
  {
  }

  lemma Covers16(x: bv32, y: bv32, y': bv32)
    requires y' == (y >> 16) | y && Within(x, y) && Within(y >> 1, y | (x >> 16))
    ensures Within(x, y') && Within(y' >> 1, y')
  {
  }

  lemma Highest16(x: bv32, y: bv32, y': bv32)
    requires y' == (y >> 16) | y && Within(y, x | (y >> 1)) && Within(x >> 15, y)
    ensures Within(y', x | (y' >> 1))
  {
  }

  lemma {:induction false} FilledIsPow2(f: bv32) returns (k: nat)
    requires Filled(f)
    ensures ToNat(f) + 1 == Pow2(k) && (f == 0 <==> k == 0)
    decreases f
  {
    if f == 0 {
      k := 0;
    } else {
      FilledIsOdd(f);
      k := FilledIsPow2(f >> 1);
      k := k + 1;
    }
  }

  lemma FilledIsOdd(f: bv32)
    requires Filled(f) && f != 0
    ensures f & 1 == 1 && Filled(f >> 1)
  {
  }

  /** A number that has the highest bit of a filled word is more than half of it. */
  lemma {:induction false} HighestBit(x: bv32, f: bv32)
    requires f != 0 && Filled(f) && Within(f, x | (f >> 1))
    ensures ToNat(x) > ToNat(f >> 1)
    decreases f
  {
    FilledIsOdd(f);
    if f >> 1 == 0 {
      assert f == 1 && x & 1 == 1;
    } else {
      HighestHalves(x, f);
      HighestBit(x >> 1, f >> 1);
    }
  }

  lemma HighestHalves(x: bv32, f: bv32)
    requires Within(f, x | (f >> 1)) && f >> 1 != 0
    ensures Within(f >> 1, (x >> 1) | ((f >> 1) >> 1)) && x != 0 && f >> 1 < f
  {
  }

  lemma FilledPower(x: bv32, f: bv32) returns (k: nat)
    requires Fills(f, x)
    ensures ToNat(f) + 1 == Pow2(k)
    ensures if ToNat(x) == 0 then k == 0 else k > 0 && Pow2(k - 1) <= ToNat(x) < Pow2(k)
  {
    k := FilledIsPow2(f);
    WithinIsLess(x, f);
    if f != 0 {
      FilledIsOdd(f);
      HighestBit(x, f);
    }
  }
}
