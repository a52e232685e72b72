/** Unsigned 64-bit integers converted to IEEE 754 binary64. */
module Doubles {
  import opened Words

  // As Remotery writes its times so that a JavaScript viewer can read them. Conversion rounds to
  // nearest, ties to even.

  const ONE := 0x10_0000_0000_0000  // 2^52, the implicit leading bit
  const BIAS := 1023

  function Log2(n: nat): (e: nat)
    requires n > 0
    ensures Pow2(e) <= n < 2 * Pow2(e)
  {
    if n == 1 then 0 else 1 + Log2(n / 2)
  }

  /** `n / 2^shift` to the nearest integer, ties to even. */
  function RoundShift(n: nat, shift: nat): nat {
    RoundDiv(n, Pow2(shift))
  }

  function RoundDiv(n: nat, unit: nat): nat
    requires unit > 0
  {
    RoundTo(n / unit, n % unit, unit)
  }

  function RoundTo(q: nat, r: nat, unit: nat): (k: nat)
    requires unit > 0
    ensures k == q || (k == q + 1 && r > 0)
  {
    if 2 * r > unit || (2 * r == unit && q % 2 == 1) then q + 1 else q
  }

  /** The significand of a positive integer scaled to 53 bits; rounding up may carry into a 54th. */
  function Significand(n: nat): nat
    requires n > 0
  {
    var e := Log2(n);
    if e <= 52 then n * Pow2(52 - e) else RoundShift(n, e - 52)
  }

  /** The bit pattern of the double nearest to `n`. */
  function ToDouble(n: nat): nat {
    if n == 0 then 0 else (BIAS + Log2(n)) * ONE + (Significand(n) - ONE)
  }

  /** The integer part of the non-negative double with these bits. */
  function FromDouble(bits: nat): nat {
    if bits == 0 then 0
    else
      var e, m := bits / ONE, ONE + bits % ONE;
      if e >= BIAS + 52 then m * Pow2(e - (BIAS + 52)) else m / Pow2(BIAS + 52 - e)
  }

  /** An integer that needs no more than 53 significant bits. */
  predicate Representable(n: nat) {
    n == 0 || Log2(n) <= 52 || n % Pow2(Log2(n) - 52) == 0
  }

  lemma OneIsPow2(p: nat)
    requires p == 26
    ensures Pow2(p + p) == ONE
  {
    Pow2Add(p, p);
    assert Pow2(8) == 256;
    assert Pow2(16) == 65536;
    assert Pow2(26) == 0x400_0000;
  }

  lemma MulMono(a: nat, b: nat, c: nat)
    ensures a <= b ==> a * c <= b * c
    ensures a < b && c > 0 ==> a * c < b * c
  {
  }

  lemma MulTwice(a: nat, b: nat)
    ensures (2 * a) * b == 2 * (a * b)
  {
  }

  lemma MulNext(s: nat, q: nat)
    ensures (q + 1) * s == s * q + s && q * s == s * q
  {
  }

  lemma ScaledBounds(n: nat, a: nat, b: nat)
    requires a <= n < 2 * a && b > 0
    ensures a * b <= n * b < 2 * (a * b)
  {
    MulMono(a, n, b);
    MulMono(n, 2 * a, b);
    MulTwice(a, b);
  }

  /** Scaling up to 53 bits is exact. */
  lemma SmallSignificand(n: nat, e: nat, p: nat)
    requires n > 0 && e == Log2(n) && e <= p
    ensures Pow2(p) <= n * Pow2(p - e) < 2 * Pow2(p)
  {
    Pow2Add(e, p - e);
    ScaledBounds(n, Pow2(e), Pow2(p - e));
  }

  /** Scaling down keeps the quotient within 53 bits, or just carries. */
  lemma LargeSignificand(n: nat, e: nat, p: nat)
    requires n > 0 && e == Log2(n) && e > p
    ensures Pow2(p) <= RoundShift(n, e - p) <= 2 * Pow2(p)
    ensures RoundShift(n, e - p) * Pow2(e - p) == n <==> n % Pow2(e - p) == 0
  {
    Pow2Add(p, e - p);
    RoundBounds(n, Pow2(p), Pow2(e - p), e - p);
  }

  lemma RoundBounds(n: nat, one: nat, s: nat, shift: nat)
    requires s == Pow2(shift) && one * s <= n < 2 * (one * s)
    ensures one <= RoundShift(n, shift) <= 2 * one
    ensures RoundShift(n, shift) * s == n <==> n % s == 0
  {
    var q, r := n / s, n % s;
    assert n == s * q + r;
    QuotientBounds(one, s, q, r);
    RoundedExactly(s, q, r);
  }

  lemma QuotientBounds(one: nat, s: nat, q: nat, r: nat)
    requires s > 0 && r < s && one * s <= s * q + r < 2 * (one * s)
    ensures one <= q < 2 * one
  {
    MulMono(q + 1, one, s);
    MulMono(2 * one, q, s);
    MulTwice(one, s);
    MulNext(s, q);
  }

  lemma RoundedExactly(s: nat, q: nat, r: nat)
    requires s > 0 && r < s
    ensures q * s == s * q + r <==> r == 0
    ensures r > 0 ==> (q + 1) * s != s * q + r
  {
    MulNext(s, q);
  }

  /** What a double written for `n` reads back as: `n` with all but 53 significant bits rounded away. */
  function Rounded(n: nat): nat {
    if n == 0 || Log2(n) <= 52 then n else Significand(n) * Pow2(Log2(n) - 52)
  }

  lemma DivideBack(n: nat, k: nat)
    requires k > 0
    ensures n * k / k == n
  {
    ModUnique(n * k, k, n, 0);
  }

  lemma SplitBits(e: nat, m: nat)
    requires m < ONE
    ensures (e * ONE + m) / ONE == e && (e * ONE + m) % ONE == m
  {
    ModUnique(e * ONE + m, ONE, e, m);
  }

  lemma ReadsBack(n: nat)
    ensures FromDouble(ToDouble(n)) == Rounded(n)
  {
    if n > 0 {
      if Log2(n) <= 52 {
        SmallReadsBack(n);
      } else {
        LargeReadsBack(n);
      }
    }
  }

  lemma SmallReadsBack(n: nat)
    requires n > 0 && Log2(n) <= 52
    ensures FromDouble(ToDouble(n)) == n
  {
    OneIsPow2(26);
    var e, m := Log2(n), Significand(n);
    SmallSignificand(n, e, 52);
    SplitBits(BIAS + e, m - ONE);
    if e < 52 {
      DivideBack(n, Pow2(52 - e));
    }
  }

  lemma LargeReadsBack(n: nat)
    requires n > 0 && Log2(n) > 52
    ensures FromDouble(ToDouble(n)) == Significand(n) * Pow2(Log2(n) - 52)
  {
    OneIsPow2(26);
    var e, m := Log2(n), Significand(n);
    LargeSignificand(n, e, 52);
    if m < 2 * ONE {
      SplitBits(BIAS + e, m - ONE);
    } else {
      Carried(e);
    }
  }

  /** A carry out of the significand doubles the exponent's power instead. */
  lemma Carried(e: nat)
    requires e > 52
    ensures FromDouble((BIAS + e) * ONE + ONE) == 2 * ONE * Pow2(e - 52)
  {
    assert (BIAS + e) * ONE + ONE == (BIAS + e + 1) * ONE + 0;
    SplitBits(BIAS + e + 1, 0);
    assert Pow2(e - 52 + 1) == 2 * Pow2(e - 52);
  }

  /** A time survives being written as a double exactly if it needs no more than 53 bits; every time
      below 2^53 does. */
  lemma ExactWhenRepresentable(n: nat)
    ensures Rounded(n) == n <==> Representable(n)
    ensures n < 2 * ONE ==> Representable(n)
  {
    if n > 0 && Log2(n) > 52 {
      LargeSignificand(n, Log2(n), 52);
      OneIsPow2(26);
      Pow2Monotone(53, Log2(n));
      assert Pow2(52 + 1) == 2 * Pow2(52);
    }
  }

  /** A 64-bit time gives a 64-bit pattern. */
  lemma FitsEightBytes(n: nat)
    requires n < WORD * WORD
    ensures ToDouble(n) < 0x8000_0000_0000_0000
  {
    if n > 0 {
      var e := Log2(n);
      OneIsPow2(26);
      if e >= 64 {
        Pow2Monotone(64, e);
        Pow2Add(32, 32);
        Pow2Of32();
        assert false;
      }
      if e <= 52 {
        SmallSignificand(n, e, 52);
      } else {
        LargeSignificand(n, e, 52);
      }
    }
  }
}
