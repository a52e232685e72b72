/** Unicode strings and their encodings, as the standards define them.

    UTF-8 by RFC 3629 sections 3 and 4, UTF-16 by RFC 2781 sections 2.1 and 2.2. Nothing here
    follows the library's code. */
module Utf8Spec {

  type Octet = bv8
  type Unit = bv16
  type CodePoint = bv32

  /** A Unicode scalar value: at most U+10FFFF and not a surrogate. */
  predicate IsScalar(cp: CodePoint) {
    cp <= 0x10ffff && !(0xd800 <= cp <= 0xdfff)
  }

  lemma Regroup<T>(a: seq<T>, b: seq<T>, c: seq<T>)
    ensures (a + b) + c == a + (b + c)
  {
  }

  predicate AllScalar(cps: seq<CodePoint>) {
    forall i :: 0 <= i < |cps| ==> IsScalar(cps[i])
  }

  /** UTF8-tail of RFC 3629 section 4. */
  predicate Tail(b: Octet) {
    0x80 <= b <= 0xbf
  }

  predicate Char1(a: Octet) {
    a <= 0x7f
  }

  predicate Char2(a: Octet, b: Octet) {
    0xc2 <= a <= 0xdf && Tail(b)
  }

  predicate Char3(a: Octet, b: Octet, c: Octet) {
    || (a == 0xe0 && 0xa0 <= b <= 0xbf && Tail(c))
    || (0xe1 <= a <= 0xec && Tail(b) && Tail(c))
    || (a == 0xed && 0x80 <= b <= 0x9f && Tail(c))
    || (0xee <= a <= 0xef && Tail(b) && Tail(c))
  }

  predicate Char4(a: Octet, b: Octet, c: Octet, d: Octet) {
    || (a == 0xf0 && 0x90 <= b <= 0xbf && Tail(c) && Tail(d))
    || (0xf1 <= a <= 0xf3 && Tail(b) && Tail(c) && Tail(d))
    || (a == 0xf4 && 0x80 <= b <= 0x8f && Tail(c) && Tail(d))
  }

  /** The syntax rule UTF8-char of RFC 3629 section 4. */
  predicate Utf8Char(s: seq<Octet>) {
    || (|s| == 1 && Char1(s[0]))
    || (|s| == 2 && Char2(s[0], s[1]))
    || (|s| == 3 && Char3(s[0], s[1], s[2]))
    || (|s| == 4 && Char4(s[0], s[1], s[2], s[3]))
  }

  /** The number of octets of the UTF8-char a string starts with, or 0 if there is none. */
  function CharLength(s: seq<Octet>): (n: nat)
    ensures n <= 4 && n <= |s|
    ensures n > 0 <==> exists k :: 0 < k <= |s| && Utf8Char(s[..k])
    ensures n > 0 ==> Utf8Char(s[..n])
  {
    if |s| >= 1 && Char1(s[0]) then assert Utf8Char(s[..1]); 1
    else if |s| >= 2 && Char2(s[0], s[1]) then assert Utf8Char(s[..2]); 2
    else if |s| >= 3 && Char3(s[0], s[1], s[2]) then assert Utf8Char(s[..3]); 3
    else if |s| >= 4 && Char4(s[0], s[1], s[2], s[3]) then assert Utf8Char(s[..4]); 4
    else 0
  }

  /** The bits of an octet below its marker, as RFC 3629 section 3 lays them out. */
  function Low(b: Octet, mask: Octet): CodePoint {
    (b & mask) as bv32
  }

  function Bits2(a: Octet, b: Octet): CodePoint {
    (Low(a, 0x1f) << 6) | Low(b, 0x3f)
  }

  function Bits3(a: Octet, b: Octet, c: Octet): CodePoint {
    (Low(a, 0x0f) << 12) | (Low(b, 0x3f) << 6) | Low(c, 0x3f)
  }

  function Bits4(a: Octet, b: Octet, c: Octet, d: Octet): CodePoint {
    (Low(a, 0x07) << 18) | (Low(b, 0x3f) << 12) | (Low(c, 0x3f) << 6) | Low(d, 0x3f)
  }

  /** The character number a UTF8-char stands for. */
  function CharValue(s: seq<Octet>): CodePoint
    requires Utf8Char(s)
  {
    if |s| == 1 then s[0] as bv32
    else if |s| == 2 then Bits2(s[0], s[1])
    else if |s| == 3 then Bits3(s[0], s[1], s[2])
    else Bits4(s[0], s[1], s[2], s[3])
  }

  function Part(cp: CodePoint, shift: bv6, mask: CodePoint, marker: Octet): Octet
    requires mask <= 0xff && shift <= 32
  {
    marker | (((cp >> shift) & mask) as bv8)
  }

  lemma Parts2(cp: CodePoint)
    requires 0x7f < cp <= 0x7ff
    ensures var a, b := Part(cp, 6, 0x1f, 0xc0), Part(cp, 0, 0x3f, 0x80);
      Char2(a, b) && Bits2(a, b) == cp
  {
  }

  lemma Parts3(cp: CodePoint)
    requires 0x7ff < cp <= 0xffff && IsScalar(cp)
    ensures var a, b, c := Part(cp, 12, 0x0f, 0xe0), Part(cp, 6, 0x3f, 0x80), Part(cp, 0, 0x3f, 0x80);
      Char3(a, b, c) && Bits3(a, b, c) == cp
  {
  }

  lemma Parts4(cp: CodePoint)
    requires 0xffff < cp <= 0x10ffff
    ensures var a, b, c, d := Part(cp, 18, 0x07, 0xf0), Part(cp, 12, 0x3f, 0x80),
                              Part(cp, 6, 0x3f, 0x80), Part(cp, 0, 0x3f, 0x80);
      Char4(a, b, c, d) && Bits4(a, b, c, d) == cp
  {
  }

  /** The octets of a character number, filled from the low end as in RFC 3629 section 3. */
  function EncodeChar(cp: CodePoint): (s: seq<Octet>)
    requires IsScalar(cp)
    ensures Utf8Char(s) && CharValue(s) == cp
  {
    if cp <= 0x7f then [cp as bv8]
    else if cp <= 0x7ff then
      Parts2(cp);
      [Part(cp, 6, 0x1f, 0xc0), Part(cp, 0, 0x3f, 0x80)]
    else if cp <= 0xffff then
      Parts3(cp);
      [Part(cp, 12, 0x0f, 0xe0), Part(cp, 6, 0x3f, 0x80), Part(cp, 0, 0x3f, 0x80)]
    else
      Parts4(cp);
      [Part(cp, 18, 0x07, 0xf0), Part(cp, 12, 0x3f, 0x80), Part(cp, 6, 0x3f, 0x80), Part(cp, 0, 0x3f, 0x80)]
  }

  function Encode(cps: seq<CodePoint>): seq<Octet>
    requires AllScalar(cps)
  {
    if cps == [] then [] else EncodeChar(cps[0]) + Encode(cps[1..])
  }

  /** `s` is the UTF-8 form of the code points `cps`. */
  ghost predicate Means(s: seq<Octet>, cps: seq<CodePoint>) {
    AllScalar(cps) && Encode(cps) == s
  }

  ghost predicate IsUtf8(s: seq<Octet>) {
    exists cps :: Means(s, cps)
  }

  // ---------------------------------------------------------------------------------------------
  // UTF-8 is a prefix code
  // ---------------------------------------------------------------------------------------------

  lemma Fill2(a: Octet, b: Octet)
    requires Char2(a, b)
    ensures var cp := Bits2(a, b);
      && 0x7f < cp <= 0x7ff && a == Part(cp, 6, 0x1f, 0xc0) && b == Part(cp, 0, 0x3f, 0x80)
  {
  }

  lemma Fill3(a: Octet, b: Octet, c: Octet)
    requires Char3(a, b, c)
    ensures var cp := Bits3(a, b, c);
      && 0x7ff < cp <= 0xffff && IsScalar(cp) && a == Part(cp, 12, 0x0f, 0xe0)
      && b == Part(cp, 6, 0x3f, 0x80) && c == Part(cp, 0, 0x3f, 0x80)
  {
  }

  lemma Fill4(a: Octet, b: Octet, c: Octet, d: Octet)
    requires Char4(a, b, c, d)
    ensures var cp := Bits4(a, b, c, d);
      && 0xffff < cp <= 0x10ffff && a == Part(cp, 18, 0x07, 0xf0)
      && b == Part(cp, 12, 0x3f, 0x80) && c == Part(cp, 6, 0x3f, 0x80) && d == Part(cp, 0, 0x3f, 0x80)
  {
  }

  /** Every UTF8-char is the encoding of a scalar value: decoding and encoding are inverse. */
  lemma EncodeDecode(s: seq<Octet>)
    requires Utf8Char(s)
    ensures IsScalar(CharValue(s)) && EncodeChar(CharValue(s)) == s
  {
    if |s| == 2 {
      Fill2(s[0], s[1]);
    } else if |s| == 3 {
      Fill3(s[0], s[1], s[2]);
    } else if |s| == 4 {
      Fill4(s[0], s[1], s[2], s[3]);
    }
  }

  /** The lead octet settles the length: no UTF8-char is a proper prefix of another. */
  lemma PrefixFree(s: seq<Octet>, k: nat)
    requires 0 < k <= |s| && Utf8Char(s[..k])
    ensures CharLength(s) == k
  {
    assert s[..k][0] == s[0];
    assert k > 1 ==> s[..k][1] == s[1];
  }

  lemma {:induction false} EncodeConcat(a: seq<CodePoint>, b: seq<CodePoint>)
    requires AllScalar(a) && AllScalar(b)
    ensures AllScalar(a + b) && Encode(a + b) == Encode(a) + Encode(b)
  {
    if a == [] {
      assert a + b == b;
    } else {
      assert (a + b)[0] == a[0] && (a + b)[1..] == a[1..] + b;
      EncodeConcat(a[1..], b);
      Regroup(EncodeChar(a[0]), Encode(a[1..]), Encode(b));
    }
  }

  lemma EncodeOne(cp: CodePoint)
    requires IsScalar(cp)
    ensures AllScalar([cp]) && Encode([cp]) == EncodeChar(cp)
  {
    assert Encode([cp]) == EncodeChar(cp) + Encode([]);
  }

  /** A string that starts with a UTF8-char is UTF-8 exactly when the rest is. */
  lemma MeansHead(s: seq<Octet>, cps: seq<CodePoint>)
    requires Means(s, cps) && s != []
    ensures cps != [] && CharLength(s) == |EncodeChar(cps[0])| > 0
    ensures CharValue(s[..CharLength(s)]) == cps[0]
    ensures Means(s[CharLength(s)..], cps[1..])
  {
    var n := |EncodeChar(cps[0])|;
    assert s == EncodeChar(cps[0]) + Encode(cps[1..]);
    assert s[..n] == EncodeChar(cps[0]);
    PrefixFree(s, n);
  }

  /** No string is the UTF-8 form of two different sequences. */
  lemma {:induction false} MeansUnique(s: seq<Octet>, a: seq<CodePoint>, b: seq<CodePoint>)
    requires Means(s, a) && Means(s, b)
    ensures a == b
    decreases |a|
  {
    if s == [] {
      if a != [] {
        EncodeNonempty(a);
      } else if b != [] {
        EncodeNonempty(b);
      }
    } else {
      MeansHead(s, a);
      MeansHead(s, b);
      MeansUnique(s[CharLength(s)..], a[1..], b[1..]);
      assert a == [a[0]] + a[1..] && b == [b[0]] + b[1..];
    }
  }

  lemma EncodeNonempty(cps: seq<CodePoint>)
    requires AllScalar(cps) && cps != []
    ensures Encode(cps) != []
  {
    assert |Encode(cps)| == |EncodeChar(cps[0])| + |Encode(cps[1..])|;
  }

  lemma MeansConcat(s: seq<Octet>, a: seq<CodePoint>, t: seq<Octet>, b: seq<CodePoint>)
    requires Means(s, a) && Means(t, b)
    ensures Means(s + t, a + b)
  {
    EncodeConcat(a, b);
  }

  lemma MeansSplit(c: seq<Octet>, rest: seq<Octet>, cps: seq<CodePoint>)
    requires Utf8Char(c) && Means(c + rest, cps)
    ensures cps != [] && CharValue(c) == cps[0] && Means(rest, cps[1..])
  {
    assert (c + rest)[..|c|] == c && (c + rest)[|c|..] == rest;
    PrefixFree(c + rest, |c|);
    MeansHead(c + rest, cps);
  }

  /** Dropping a UTF-8 prefix from a UTF-8 string leaves one. */
  lemma {:induction false} MeansSuffix(s: seq<Octet>, a: seq<CodePoint>, t: seq<Octet>, cps: seq<CodePoint>)
    requires Means(s, a) && Means(s + t, cps)
    ensures a <= cps && Means(t, cps[|a|..])
    decreases |a|
  {
    if a == [] {
      assert s == [];
      assert s + t == t;
    } else {
      var c, rest := EncodeChar(a[0]), Encode(a[1..]);
      assert s + t == c + (rest + t);
      MeansSplit(c, rest + t, cps);
      MeansSuffix(rest, a[1..], t, cps[1..]);
      assert cps == [cps[0]] + cps[1..] && a == [a[0]] + a[1..];
    }
  }

  /** Reading one character onto a decoded prefix. */
  lemma ExtendMeans(s: seq<Octet>, from: nat, it: nat, n: nat, cps: seq<CodePoint>)
    requires from <= it && it + n <= |s| && Means(s[from..it], cps) && Utf8Char(s[it..it + n])
    ensures Means(s[from..it + n], cps + [CharValue(s[it..it + n])])
  {
    var c := s[it..it + n];
    EncodeDecode(c);
    EncodeOne(CharValue(c));
    MeansConcat(s[from..it], cps, c, [CharValue(c)]);
    assert s[from..it] + c == s[from..it + n];
  }

  /** After a decoded prefix, a string with no UTF8-char next is not UTF-8. */
  lemma StuckMeansInvalid(s: seq<Octet>, from: nat, it: nat, cps: seq<CodePoint>)
    requires from <= it < |s| && Means(s[from..it], cps) && CharLength(s[it..]) == 0
    ensures !IsUtf8(s[from..])
  {
    if all :| Means(s[from..], all) {
      assert s[from..] == s[from..it] + s[it..];
      MeansSuffix(s[from..it], cps, s[it..], all);
      MeansHead(s[it..], all[|cps|..]);
    }
  }

  // ---------------------------------------------------------------------------------------------
  // UTF-16
  // ---------------------------------------------------------------------------------------------

  predicate HighSurrogate(u: Unit) {
    0xd800 <= u <= 0xdbff
  }

  predicate LowSurrogate(u: Unit) {
    0xdc00 <= u <= 0xdfff
  }

  /** RFC 2781 section 2.1: a unit, or two holding the high and low ten bits of U - 0x10000. */
  function EncodeChar16(cp: CodePoint): (s: seq<Unit>)
    requires IsScalar(cp)
  {
    if cp < 0x10000 then [(cp & 0xffff) as bv16]
    else
      var u := cp - 0x10000;
      [0xd800 | (((u >> 10) & 0x3ff) as bv16), 0xdc00 | ((u & 0x3ff) as bv16)]
  }

  function Encode16(cps: seq<CodePoint>): seq<Unit>
    requires AllScalar(cps)
  {
    if cps == [] then [] else EncodeChar16(cps[0]) + Encode16(cps[1..])
  }

  ghost predicate Means16(s: seq<Unit>, cps: seq<CodePoint>) {
    AllScalar(cps) && Encode16(cps) == s
  }

  ghost predicate IsUtf16(s: seq<Unit>) {
    exists cps :: Means16(s, cps)
  }

  /** RFC 2781 section 2.2: the character a well-formed string starts with and its units. */
  predicate Char16(s: seq<Unit>) {
    || (|s| == 1 && !HighSurrogate(s[0]) && !LowSurrogate(s[0]))
    || (|s| == 2 && HighSurrogate(s[0]) && LowSurrogate(s[1]))
  }

  function Pair(high: Unit, low: Unit): CodePoint {
    ((((high & 0x3ff) as bv32) << 10) | ((low & 0x3ff) as bv32)) + 0x10000
  }

  function CharValue16(s: seq<Unit>): CodePoint
    requires Char16(s)
  {
    if |s| == 1 then s[0] as bv32 else Pair(s[0], s[1])
  }

  lemma PairRange(high: Unit, low: Unit)
    requires HighSurrogate(high) && LowSurrogate(low)
    ensures var cp := Pair(high, low);
      && 0x10000 <= cp <= 0x10ffff
      && high == 0xd800 | ((((cp - 0x10000) >> 10) & 0x3ff) as bv16)
      && low == 0xdc00 | (((cp - 0x10000) & 0x3ff) as bv16)
  {
  }

  lemma PairBack(cp: CodePoint)
    requires 0x10000 <= cp <= 0x10ffff
    ensures var u := cp - 0x10000;
      var high, low: Unit := 0xd800 | (((u >> 10) & 0x3ff) as bv16), 0xdc00 | ((u & 0x3ff) as bv16);
      HighSurrogate(high) && LowSurrogate(low) && Pair(high, low) == cp
  {
  }

  lemma SingleBack(cp: CodePoint)
    requires cp < 0x10000 && IsScalar(cp)
    ensures var u: Unit := (cp & 0xffff) as bv16;
      !HighSurrogate(u) && !LowSurrogate(u) && u as bv32 == cp
  {
  }

  lemma SingleScalar(u: Unit)
    requires !HighSurrogate(u) && !LowSurrogate(u)
    ensures u as bv32 < 0x10000 && IsScalar(u as bv32) && ((u as bv32) & 0xffff) as bv16 == u
  {
  }

  lemma Encode16Decode(s: seq<Unit>)
    requires Char16(s)
    ensures IsScalar(CharValue16(s)) && EncodeChar16(CharValue16(s)) == s
  {
    if |s| == 1 {
      SingleScalar(s[0]);
    } else {
      EncodePair(s[0], s[1]);
      assert s == [s[0], s[1]];
    }
  }

  lemma EncodePair(high: Unit, low: Unit)
    requires HighSurrogate(high) && LowSurrogate(low)
    ensures IsScalar(Pair(high, low)) && EncodeChar16(Pair(high, low)) == [high, low]
  {
    PairRange(high, low);
  }

  lemma Decode16Encode(cp: CodePoint)
    requires IsScalar(cp)
    ensures Char16(EncodeChar16(cp)) && CharValue16(EncodeChar16(cp)) == cp
  {
    if cp < 0x10000 {
      SingleBack(cp);
    } else {
      PairBack(cp);
    }
  }

  lemma {:induction false} Encode16Concat(a: seq<CodePoint>, b: seq<CodePoint>)
    requires AllScalar(a) && AllScalar(b)
    ensures AllScalar(a + b) && Encode16(a + b) == Encode16(a) + Encode16(b)
  {
    if a == [] {
      assert a + b == b;
    } else {
      assert (a + b)[0] == a[0] && (a + b)[1..] == a[1..] + b;
      Encode16Concat(a[1..], b);
      Regroup(EncodeChar16(a[0]), Encode16(a[1..]), Encode16(b));
    }
  }

  lemma Encode16One(cp: CodePoint)
    requires IsScalar(cp)
    ensures AllScalar([cp]) && Encode16([cp]) == EncodeChar16(cp)
  {
    assert Encode16([cp]) == EncodeChar16(cp) + Encode16([]);
  }

  lemma Means16Head(s: seq<Unit>, cps: seq<CodePoint>)
    requires Means16(s, cps) && s != []
    ensures cps != []
    ensures var n := |EncodeChar16(cps[0])|;
      0 < n <= |s| && Char16(s[..n]) && CharValue16(s[..n]) == cps[0] && Means16(s[n..], cps[1..])
  {
    Decode16Encode(cps[0]);
    assert s == EncodeChar16(cps[0]) + Encode16(cps[1..]);
    assert s[..|EncodeChar16(cps[0])|] == EncodeChar16(cps[0]);
  }

  lemma Encode16Nonempty(cps: seq<CodePoint>)
    requires AllScalar(cps) && cps != []
    ensures Encode16(cps) != []
  {
    assert |Encode16(cps)| == |EncodeChar16(cps[0])| + |Encode16(cps[1..])|;
  }

  lemma {:induction false} Means16Unique(s: seq<Unit>, a: seq<CodePoint>, b: seq<CodePoint>)
    requires Means16(s, a) && Means16(s, b)
    ensures a == b
    decreases |a|
  {
    if s == [] {
      if a != [] {
        Encode16Nonempty(a);
      } else if b != [] {
        Encode16Nonempty(b);
      }
    } else {
      Means16Head(s, a);
      Means16Head(s, b);
      var n, m := |EncodeChar16(a[0])|, |EncodeChar16(b[0])|;
      assert s[..n][0] == s[0] == s[..m][0];
      assert n == m;
      Means16Unique(s[n..], a[1..], b[1..]);
      assert a == [a[0]] + a[1..] && b == [b[0]] + b[1..];
    }
  }

  lemma ExtendMeans16(s: seq<Unit>, it: nat, n: nat, cps: seq<CodePoint>)
    requires it + n <= |s| && Means16(s[..it], cps) && Char16(s[it..it + n])
    ensures Means16(s[..it + n], cps + [CharValue16(s[it..it + n])])
  {
    var c := s[it..it + n];
    Encode16Decode(c);
    Encode16One(CharValue16(c));
    Encode16Concat(cps, [CharValue16(c)]);
    assert s[..it] + c == s[..it + n];
  }

  /** The first unit decides how many units a character has. */
  lemma SameLength16(s: seq<Unit>, n: nat, m: nat)
    requires n <= |s| && m <= |s| && Char16(s[..n]) && Char16(s[..m])
    ensures n == m
  {
    assert s[..n][0] == s[..m][0];
  }

  lemma FirstSame16(s: seq<Unit>, a: seq<CodePoint>, t: seq<Unit>, cps: seq<CodePoint>)
    requires a != [] && Means16(s, a) && Means16(s + t, cps)
    ensures cps != [] && cps[0] == a[0] && Means16(Encode16(a[1..]) + t, cps[1..])
  {
    var c := EncodeChar16(a[0]);
    var n := |c|;
    Decode16Encode(a[0]);
    Regroup(c, Encode16(a[1..]), t);
    assert (c + (Encode16(a[1..]) + t))[..n] == c && (c + (Encode16(a[1..]) + t))[n..] == Encode16(a[1..]) + t;
    Means16Head(s + t, cps);
    SameLength16(s + t, n, |EncodeChar16(cps[0])|);
  }

  /** Dropping a decoded prefix from a UTF-16 string leaves a UTF-16 string. */
  lemma {:induction false} Means16Suffix(s: seq<Unit>, a: seq<CodePoint>, t: seq<Unit>, cps: seq<CodePoint>)
    requires Means16(s, a) && Means16(s + t, cps)
    ensures a <= cps && Means16(t, cps[|a|..])
    decreases |a|
  {
    if a == [] {
      assert s == [];
      assert s + t == t;
    } else {
      FirstSame16(s, a, t, cps);
      Means16Suffix(Encode16(a[1..]), a[1..], t, cps[1..]);
      assert cps == [cps[0]] + cps[1..] && a == [a[0]] + a[1..];
    }
  }

  /** After a decoded prefix, a unit that starts no character makes the string ill-formed. */
  lemma StuckMeansInvalid16(s: seq<Unit>, it: nat, cps: seq<CodePoint>)
    requires it < |s| && Means16(s[..it], cps)
    requires !Char16(s[it..it + 1]) && (it + 2 <= |s| ==> !Char16(s[it..it + 2]))
    ensures !IsUtf16(s)
  {
    if all :| Means16(s, all) {
      NextIsChar16(s, it, cps, all);
    }
  }

  lemma NextIsChar16(s: seq<Unit>, it: nat, cps: seq<CodePoint>, all: seq<CodePoint>)
    requires it < |s| && Means16(s[..it], cps) && Means16(s, all)
    ensures Char16(s[it..it + 1]) || (it + 2 <= |s| && Char16(s[it..it + 2]))
  {
    assert s == s[..it] + s[it..];
    Means16Suffix(s[..it], cps, s[it..], all);
    var rest := all[|cps|..];
    Means16Head(s[it..], rest);
    var n := |EncodeChar16(rest[0])|;
    assert s[it..][..n] == s[it..it + n];
  }
}
