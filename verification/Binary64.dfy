/** The numbers that bit patterns of IEEE 754 binary64 stand for, and the times written as such. */
module Binary64 {
  import opened Words
  import opened Doubles

  /** The pattern of a finite number with a zero sign bit stands for the whole number `v`, by section 3.4 of
      IEEE 754-2008: 11 bits of exponent with bias 1023, then 52 bits of fraction, the number being
      2^(exponent - 1023) * (1 + fraction / 2^52), or fraction * 2^-1074 for exponent 0. */
  predicate StandsFor(bits: nat, v: nat) {
    var exponent, fraction := bits / 0x10_0000_0000_0000, bits % 0x10_0000_0000_0000;
    && exponent < 2047
    && if exponent == 0 then fraction == 0 == v
       else if exponent >= 1075 then (0x10_0000_0000_0000 + fraction) * Pow2(exponent - 1075) == v
       else 0x10_0000_0000_0000 + fraction == v * Pow2(1075 - exponent)
  }

  lemma Below64(n: nat)
    requires 0 < n < WORD * WORD
    ensures Log2(n) < 64
  {
    var e := Log2(n);
    if e >= 64 {
      Pow2Monotone(64, e);
      Pow2Add(32, 32);
      Pow2Of32();
      assert false;
    }
  }

  lemma Pattern(n: nat)
    requires n > 0
    ensures ToDouble(n) == (1023 + Log2(n)) * 0x10_0000_0000_0000 + (Significand(n) - 0x10_0000_0000_0000)
  {
  }

  lemma Normal(exponent: nat, m: nat, v: nat)
    requires 1 <= exponent < 2047 && ONE <= m < 2 * ONE
    requires if exponent >= 1075 then m * Pow2(exponent - 1075) == v else m == v * Pow2(1075 - exponent)
    ensures StandsFor(exponent * 0x10_0000_0000_0000 + (m - 0x10_0000_0000_0000), v)
  {
    SplitBits(exponent, m - ONE);
  }

  /** The bits written for a 64-bit time are those of the double that is its rounded value. */
  lemma WritesRounded(n: nat)
    requires n < WORD * WORD
    ensures StandsFor(ToDouble(n), Rounded(n))
  {
    if n > 0 {
      var e := Log2(n);
      Below64(n);
      Pattern(n);
      Significands(n);
      if e <= 52 {
        Normal(1023 + e, Significand(n), n);
      } else {
        LargePattern(Significand(n), e);
      }
    }
  }

  lemma Significands(n: nat)
    requires n > 0
    ensures ONE <= Significand(n) <= 2 * ONE
    ensures Log2(n) <= 52 ==> Significand(n) < 2 * ONE && Significand(n) == n * Pow2(52 - Log2(n))
  {
    OneIsPow2(26);
    if Log2(n) <= 52 {
      SmallSignificand(n, Log2(n), 52);
    } else {
      LargeSignificand(n, Log2(n), 52);
    }
  }

  lemma LargePattern(m: nat, e: nat)
    requires ONE <= m <= 2 * ONE && 52 < e < 64
    ensures StandsFor((1023 + e) * 0x10_0000_0000_0000 + (m - 0x10_0000_0000_0000), m * Pow2(e - 52))
  {
    if m < 2 * ONE {
      Normal(1023 + e, m, m * Pow2(e - 52));
    } else {
      CarriedPattern(e);
      assert Pow2(e - 52 + 1) == 2 * Pow2(e - 52);
      Normal(1023 + e + 1, ONE, m * Pow2(e - 52));
    }
  }

  lemma CarriedPattern(e: nat)
    ensures (1023 + e) * 0x10_0000_0000_0000 + 0x10_0000_0000_0000 == (1023 + e + 1) * 0x10_0000_0000_0000 + 0
  {
  }

  /** A pattern stands for one number at most. */
  lemma StandsForOne(bits: nat, v: nat, w: nat)
    requires StandsFor(bits, v) && StandsFor(bits, w)
    ensures v == w
  {
    var exponent := bits / 0x10_0000_0000_0000;
    if 0 < exponent < 1075 {
      var p := Pow2(1075 - exponent);
      MulMono(v + 1, w, p);
      MulMono(w + 1, v, p);
      MulNext(p, v);
      MulNext(p, w);
    }
  }

  /** Of the multiples of a unit, the one rounded to is nearest; of two as near, the even one. */
  lemma NearestMultiple(n: nat, unit: nat, k: int)
    requires unit > 0
    ensures var r := RoundDiv(n, unit);
      && Gap(r * unit, n) <= Gap(k * unit, n)
      && (Gap(r * unit, n) == Gap(k * unit, n) && k != r ==> r % 2 == 0)
  {
    var q, r := n / unit, n % unit;
    assert n == q * unit + r;
    assert (q + 1) * unit == q * unit + unit;
    if k < q {
      Monotone(k + 1, q, unit);
      assert (k + 1) * unit == k * unit + unit;
    } else if k > q + 1 {
      Monotone(q + 2, k, unit);
      assert (q + 2) * unit == q * unit + 2 * unit;
    }
  }

  function Gap(a: int, b: int): int {
    if a < b then b - a else a - b
  }

  lemma Monotone(a: int, b: int, unit: nat)
    requires a <= b
    ensures a * unit <= b * unit
  {
  }
}
