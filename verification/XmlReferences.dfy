/** Character references as they may be written, whoever wrote them, and what TinyXML reads them as in
    byte-wise mode. */
module XmlReferences {
  import opened Options
  import opened XmlText

  const LOWER := "0123456789abcdef"
  const UPPER := "0123456789ABCDEF"

  /** `c` is the digit `d`, in either case. */
  predicate IsDigit(c: char, d: nat) {
    d < 16 && (c == LOWER[d] || c == UPPER[d])
  }

  /** `s` writes `n` in the base: its last digit is the remainder, what is in front of it writes the
      quotient. Zeros in front are allowed. */
  predicate Writes(s: string, n: nat, base: nat)
    requires base > 0
  {
    if s == "" then n == 0 else IsDigit(s[|s| - 1], n % base) && Writes(s[..|s| - 1], n / base, base)
  }

  /** A decimal numeral without zeros in front. */
  function Decimal(n: nat): (s: string)
    ensures s != "" && Writes(s, n, 10)
  {
    if n < 10 then
      assert [LOWER[n]][..0] == "";
      [LOWER[n]]
    else
      var s := Decimal(n / 10) + [LOWER[n % 10]];
      assert s[..|s| - 1] == Decimal(n / 10);
      s
  }

  lemma DigitValueIs(c: char, d: nat, base: nat)
    requires (base == 10 || base == 16) && d < base
    ensures DigitValue(c, base) == Some(d) <==> IsDigit(c, d)
  {
  }

  lemma DigitValueBelow(c: char, base: nat)
    requires (base == 10 || base == 16) && DigitValue(c, base).Some?
    ensures DigitValue(c, base).value < base && IsDigit(c, DigitValue(c, base).value)
  {
  }

  lemma {:induction false} NumberLast(s: string, c: char, base: nat)
    requires Number(s, base).Some? && DigitValue(c, base).Some?
    ensures Number(s + [c], base) == Some(Number(s, base).value * base + DigitValue(c, base).value)
  {
    if s == "" {
      assert [c][1..] == "" && s + [c] == [c];
      assert Power(base, 0) == 1;
    } else {
      assert (s + [c])[1..] == s[1..] + [c];
      NumberLast(s[1..], c, base);
      var d, low := DigitValue(s[0], base).value, Number(s[1..], base).value;
      Shift(d, Power(base, |s| - 1), low, base, DigitValue(c, base).value);
    }
  }

  lemma Shift(d: nat, p: nat, low: nat, base: nat, last: nat)
    ensures d * (base * p) + (low * base + last) == (d * p + low) * base + last
  {
  }

  /** What the digits write is what the reader computes from them. */
  lemma {:induction false} NumberIs(s: string, n: nat, base: nat)
    requires (base == 10 || base == 16) && Writes(s, n, base)
    ensures Number(s, base) == Some(n)
  {
    if s != "" {
      var short, c := s[..|s| - 1], s[|s| - 1];
      NumberIs(short, n / base, base);
      LastDigit(short, c, n, base);
      assert s == short + [c];
    }
  }

  lemma LastDigit(short: string, c: char, n: nat, base: nat)
    requires (base == 10 || base == 16) && IsDigit(c, n % base) && Number(short, base) == Some(n / base)
    ensures Number(short + [c], base) == Some(n)
  {
    DigitValueIs(c, n % base, base);
    NumberLast(short, c, base);
    assert n / base * base + n % base == n;
  }

  lemma {:induction false} DigitsOnly(s: string, n: nat, base: nat)
    requires (base == 10 || base == 16) && Writes(s, n, base)
    ensures forall c :: c in s ==> c != ';' && c != 'x' && c != '#'
  {
    if s != "" {
      DigitsOnly(s[..|s| - 1], n / base, base);
      assert s == s[..|s| - 1] + [s[|s| - 1]];
    }
  }

  /** The low byte of the number, and what follows the semicolon. */
  lemma ReferenceIs(s: string, from: nat, mark: char, digits: string, n: nat, base: nat, t: string)
    requires (base == 10 || base == 16) && Writes(digits, n, base) && (mark == 'x' || mark == '#')
    requires 0 < from <= |s| && s[from - 1] == mark && s[from..] == digits + (";" + t)
    ensures Reference(s, from, mark, base) == Step([(n % 256) as char], Some(t))
  {
    var q := from + |digits|;
    DigitsOnly(digits, n, base);
    assert s[from..][|digits|] == ';';
    forall i | from <= i < q ensures s[i] != ';' && s[i] != mark {
      assert s[i] == s[from..][i - from] == digits[i - from] && digits[i - from] in digits;
    }
    IndexFromIs(s, from, ';', q);
    BackwardsIs(s, from - 1, q, mark);
    assert s[from..q] == s[from..][..|digits|] == digits;
    NumberIs(digits, n, base);
    assert s[q + 1..] == s[from..][|digits| + 1..] == t;
  }

  /** A decimal reference reads as the low byte of its number, whatever the digits in front. */
  lemma DecimalReads(digits: string, n: nat, t: string)
    requires Writes(digits, n, 10)
    ensures GetEntity("&#" + (digits + (";" + t))) == Step([(n % 256) as char], Some(t))
  {
    var rest := digits + (";" + t);
    var s := "&#" + rest;
    DigitsOnly(digits, n, 10);
    assert s[2..] == rest && s[2] == rest[0];
    assert digits != "" ==> rest[0] == digits[0] && digits[0] in digits;
    ReferenceIs(s, 2, '#', digits, n, 10, t);
  }

  /** So does a hexadecimal one, with digits of either case. */
  lemma HexReads(digits: string, n: nat, t: string)
    requires Writes(digits, n, 16)
    ensures GetEntity("&#x" + (digits + (";" + t))) == Step([(n % 256) as char], Some(t))
  {
    var rest := digits + (";" + t);
    var s := "&#x" + rest;
    assert s[3..] == rest;
    ReferenceIs(s, 3, 'x', digits, n, 16, t);
  }

  /** In particular the numeral of any number. */
  lemma NumeralReads(n: nat, t: string)
    ensures GetEntity("&#" + (Decimal(n) + (";" + t))) == Step([(n % 256) as char], Some(t))
  {
    DecimalReads(Decimal(n), n, t);
  }

  // ---------------------------------------------------------------------------------------------
  // Which references fail
  // ---------------------------------------------------------------------------------------------

  ghost predicate SomeDigit(c: char, base: nat) {
    exists d: nat :: d < base && IsDigit(c, d)
  }

  ghost predicate AllDigits(s: string, base: nat) {
    forall c :: c in s ==> SomeDigit(c, base)
  }

  lemma {:induction false} NumberExactly(s: string, base: nat)
    requires base == 10 || base == 16
    ensures Number(s, base).Some? <==> AllDigits(s, base)
  {
    if s != "" {
      NumberExactly(s[1..], base);
      assert s == [s[0]] + s[1..];
      SomeDigitExactly(s[0], base);
      assert AllDigits(s, base) <==> SomeDigit(s[0], base) && AllDigits(s[1..], base);
    }
  }

  lemma SomeDigitExactly(c: char, base: nat)
    requires base == 10 || base == 16
    ensures DigitValue(c, base).Some? <==> SomeDigit(c, base)
  {
    if DigitValue(c, base).Some? {
      DigitValueBelow(c, base);
    }
    if d: nat :| d < base && IsDigit(c, d) {
      DigitValueIs(c, d, base);
    }
  }

  /** The digits the reader takes: from the last mark to the first semicolon behind `from`. */
  ghost predicate Between(s: string, from: nat, mark: char, m: nat, q: nat) {
    && 0 < from <= q < |s| && s[q] == ';' && (forall i :: from <= i < q ==> s[i] != ';')
    && from - 1 <= m < q && s[m] == mark && forall i :: m < i < q ==> s[i] != mark
  }

  /** A reference is read if and only if there is a semicolon behind it and only digits of its base
      between the last mark and the first semicolon. */
  lemma ReferenceExactly(s: string, from: nat, mark: char, base: nat)
    requires (base == 10 || base == 16) && 0 < from <= |s| && s[from - 1] == mark
    ensures Reference(s, from, mark, base).next.Some? <==>
      exists m: nat, q: nat :: Between(s, from, mark, m, q) && AllDigits(s[m + 1..q], base)
  {
    var end := IndexFrom(s, from, ';');
    if end.Some? {
      var q := end.value;
      var m := LastMark(s, from, q, mark);
      BackwardsIs(s, m, q, mark);
      NumberExactly(s[m + 1..q], base);
      assert Between(s, from, mark, m, q);
      forall m': nat, q': nat | Between(s, from, mark, m', q') ensures m' == m && q' == q {
      }
    }
  }

  /** The same for what starts with `&#`, decimal unless an `x` follows. */
  lemma EntityFailsExactly(s: string)
    requires |s| >= 3 && s[0] == '&' && s[1] == '#'
    ensures s[2] != 'x' ==> (GetEntity(s).next.None? <==>
      !exists m: nat, q: nat :: Between(s, 2, '#', m, q) && AllDigits(s[m + 1..q], 10))
    ensures s[2] == 'x' ==> (GetEntity(s).next.None? <==>
      !exists m: nat, q: nat :: Between(s, 3, 'x', m, q) && AllDigits(s[m + 1..q], 16))
  {
    if s[2] != 'x' {
      ReferenceExactly(s, 2, '#', 10);
    } else {
      ReferenceExactly(s, 3, 'x', 16);
    }
  }

  /** What the printer writes for a control character: two digits, in upper case. */
  lemma PrintedReference(c: char)
    requires c as int < 32
    ensures EscapeChar(c) == "&#x" + [UPPER[c as int / 16], UPPER[c as int % 16]] + ";"
  {
  }
}
