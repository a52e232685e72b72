/** The checked interface of utf8-cpp. */
module Utf8Checked {
  import opened Utf8Spec
  import opened Utf8Core

  // A thrown exception is an outcome other than Value.

  datatype Outcome<T> =
    | Value(value: T)
    | NotEnoughRoomThrown
    | InvalidUtf8Thrown(octet: Octet)
    | InvalidUtf16Thrown(unit: Unit)
    | InvalidCodePointThrown(cp: CodePoint)

  function Truncate8(x: CodePoint): Octet {
    (x & 0xff) as bv8
  }

  function Truncate16(x: CodePoint): Unit {
    (x & 0xffff) as bv16
  }

  lemma AppendOctets2(cp: CodePoint)
    requires 0x7f < cp <= 0x7ff
    ensures Truncate8((cp >> 6) | 0xc0) == Part(cp, 6, 0x1f, 0xc0)
    ensures Truncate8((cp & 0x3f) | 0x80) == Part(cp, 0, 0x3f, 0x80)
  {
  }

  lemma AppendOctets3(cp: CodePoint)
    requires 0x7ff < cp <= 0xffff
    ensures Truncate8((cp >> 12) | 0xe0) == Part(cp, 12, 0x0f, 0xe0)
    ensures Truncate8(((cp >> 6) & 0x3f) | 0x80) == Part(cp, 6, 0x3f, 0x80)
    ensures Truncate8((cp & 0x3f) | 0x80) == Part(cp, 0, 0x3f, 0x80)
  {
  }

  lemma AppendOctets4(cp: CodePoint)
    requires 0xffff < cp <= 0x10ffff
    ensures Truncate8((cp >> 18) | 0xf0) == Part(cp, 18, 0x07, 0xf0)
    ensures Truncate8(((cp >> 12) & 0x3f) | 0x80) == Part(cp, 12, 0x3f, 0x80)
    ensures Truncate8(((cp >> 6) & 0x3f) | 0x80) == Part(cp, 6, 0x3f, 0x80)
    ensures Truncate8((cp & 0x3f) | 0x80) == Part(cp, 0, 0x3f, 0x80)
  {
  }

  method Append(cp: CodePoint, out: seq<Octet>) returns (r: Outcome<seq<Octet>>)
    ensures IsScalar(cp) ==> r == Value(out + EncodeChar(cp))
    ensures !IsScalar(cp) ==> r == InvalidCodePointThrown(cp)
  {
    if !IsCodePointValid(cp) {
      return InvalidCodePointThrown(cp);
    }
    var result := out;
    if cp < 0x80 {
      result := result + [Truncate8(cp)];
    } else if cp < 0x800 {
      AppendOctets2(cp);
      result := result + [Truncate8((cp >> 6) | 0xc0)];
      result := result + [Truncate8((cp & 0x3f) | 0x80)];
    } else if cp < 0x10000 {
      AppendOctets3(cp);
      result := result + [Truncate8((cp >> 12) | 0xe0)];
      result := result + [Truncate8(((cp >> 6) & 0x3f) | 0x80)];
      result := result + [Truncate8((cp & 0x3f) | 0x80)];
    } else {
      AppendOctets4(cp);
      result := result + [Truncate8((cp >> 18) | 0xf0)];
      result := result + [Truncate8(((cp >> 12) & 0x3f) | 0x80)];
      result := result + [Truncate8(((cp >> 6) & 0x3f) | 0x80)];
      result := result + [Truncate8((cp & 0x3f) | 0x80)];
    }
    assert result == out + EncodeChar(cp);
    return Value(result);
  }

  /** The exception `next` throws for a diagnosis; an invalid code point is always reported as 0. */
  function Thrown(err: Error, octet: Octet): Outcome<CodePoint>
    requires err != Ok
  {
    match err
    case NotEnoughRoom => NotEnoughRoomThrown
    case InvalidCodePoint => InvalidCodePointThrown(0)
    case _ => InvalidUtf8Thrown(octet)
  }

  method Next(s: seq<Octet>, it0: nat) returns (r: Outcome<CodePoint>, it: nat)
    requires it0 < |s|
    ensures r.Value? <==> exists e :: it0 < e <= |s| && Utf8Char(s[it0..e])
    ensures r.Value? ==> it0 < it <= |s| && Utf8Char(s[it0..it]) && r.value == CharValue(s[it0..it])
    ensures !r.Value? ==> it == it0 && Diagnose(s[it0..]) != Ok && r == Thrown(Diagnose(s[it0..]), s[it0])
  {
    var err, cp;
    err, it, cp := ValidateNext(s, it0);
    match err
    case Ok => r := Value(cp);
    case NotEnoughRoom => r := NotEnoughRoomThrown;
    case InvalidCodePoint => r := InvalidCodePointThrown(cp);
    case _ => r := InvalidUtf8Thrown(s[it]);
  }

  /** In the UTF-8 form of a non-empty text the last character is its last lead octet and the
      tails after it. */
  lemma LastChar(s: seq<Octet>, cps: seq<CodePoint>)
    requires Means(s, cps) && cps != []
    ensures var c := EncodeChar(cps[|cps| - 1]);
      && |c| <= |s| && s[|s| - |c|..] == c && !Tail(c[0])
      && forall k :: |s| - |c| < k < |s| ==> Tail(s[k])
  {
    var n := |cps| - 1;
    var c := EncodeChar(cps[n]);
    assert cps == cps[..n] + [cps[n]];
    EncodeConcat(cps[..n], [cps[n]]);
    EncodeOne(cps[n]);
    assert s == Encode(cps[..n]) + c;
    TailsAfterLead(c);
    forall k | |s| - |c| < k < |s| ensures Tail(s[k]) {
      assert s[k] == c[k - (|s| - |c|)];
    }
  }

  lemma TailsAfterLead(c: seq<Octet>)
    requires Utf8Char(c)
    ensures !Tail(c[0]) && forall k :: 0 < k < |c| ==> Tail(c[k])
  {
    if |c| == 2 {
      assert Char2(c[0], c[1]);
    } else if |c| == 3 {
      assert Char3(c[0], c[1], c[2]);
    } else if |c| == 4 {
      assert Char4(c[0], c[1], c[2], c[3]);
    }
  }

  method Prior(s: seq<Octet>, it0: nat, start: nat) returns (r: Outcome<CodePoint>, it: nat)
    requires start <= it0 <= |s|
    ensures it0 == start ==> r == NotEnoughRoomThrown
    ensures r.Value? ==> start <= it < it0
    ensures r.Value? ==> exists e :: it < e <= it0 && Utf8Char(s[it..e]) && r.value == CharValue(s[it..e])
    ensures forall cps :: Means(s[start..it0], cps) && cps != [] ==>
      r == Value(cps[|cps| - 1]) && it == it0 - |EncodeChar(cps[|cps| - 1])|
  {
    it := it0;
    if it == start {
      forall cps | Means(s[start..it0], cps) && cps != [] ensures false {
        EncodeNonempty(cps);
      }
      return NotEnoughRoomThrown, it;
    }
    var stuck;
    it, stuck := BackToLead(s, it0, start);
    if stuck {
      forall cps | Means(s[start..it0], cps) && cps != [] ensures false {
        LastLead(s, start, it, it0, cps);
      }
      return InvalidUtf8Thrown(s[it]), it;
    }
    r := NextUpTo(s, it, it0);
    forall cps | Means(s[start..it0], cps) && cps != []
      ensures r == Value(cps[|cps| - 1]) && it == it0 - |EncodeChar(cps[|cps| - 1])|
    {
      LastLead(s, start, it, it0, cps);
    }
  }

  /** The character at `it`, given no more than the octets before `end`. */
  method NextUpTo(s: seq<Octet>, it: nat, end: nat) returns (r: Outcome<CodePoint>)
    requires it < end <= |s|
    ensures r.Value? ==> exists e :: it < e <= end && Utf8Char(s[it..e]) && r.value == CharValue(s[it..e])
    ensures Utf8Char(s[it..end]) ==> r == Value(CharValue(s[it..end]))
  {
    var after;
    r, after := Next(s[..end], it);
    if r.Value? {
      assert s[..end][it..after] == s[it..after];
    }
    assert s[..end][it..end] == s[it..end];
  }

  /** The loop of `prior`: back over tail octets to one that is none, or to the start. */
  method BackToLead(s: seq<Octet>, it0: nat, start: nat) returns (it: nat, stuck: bool)
    requires start < it0 <= |s|
    ensures start <= it < it0 && forall k :: it < k < it0 ==> Tail(s[k])
    ensures stuck <==> Tail(s[it])
    ensures stuck ==> it == start
  {
    it := it0 - 1;
    TrailIsTail(s[it]);
    while IsTrail(s[it])
      invariant start <= it < it0
      invariant IsTrail(s[it]) == Tail(s[it])
      invariant forall k :: it < k < it0 ==> Tail(s[k])
      decreases it
    {
      if it == start {
        return it, true;
      }
      it := it - 1;
      TrailIsTail(s[it]);
    }
    return it, false;
  }

  lemma LastLead(s: seq<Octet>, start: nat, it: nat, end: nat, cps: seq<CodePoint>)
    requires start <= it < end <= |s| && Means(s[start..end], cps) && cps != []
    requires forall k :: it < k < end ==> Tail(s[k])
    requires !Tail(s[it]) || it == start
    ensures !Tail(s[it]) && s[it..end] == EncodeChar(cps[|cps| - 1])
  {
    var t := s[start..end];
    var c := EncodeChar(cps[|cps| - 1]);
    LastChar(t, cps);
    var lead := |t| - |c|;
    assert t[lead] == c[0] == s[start + lead];
    forall j | start + lead < j < end ensures Tail(s[j]) {
      assert s[j] == t[j - start];
    }
    assert it == start + lead;
    assert s[it..end] == t[lead..];
  }

  /** find_invalid: the end of the longest UTF-8 prefix. */
  method FindInvalid(s: seq<Octet>) returns (result: nat)
    ensures result <= |s| && IsUtf8(s[..result])
    ensures result == |s| <==> IsUtf8(s)
    ensures forall k :: result < k <= |s| ==> !IsUtf8(s[..k])
  {
    result := 0;
    ghost var cps: seq<CodePoint> := [];
    assert s[..|s|] == s;
    assert Means(s[..0], []);
    while result != |s|
      invariant result <= |s| && Means(s[0..result], cps)
      decreases |s| - result
    {
      var err, it, _ := ValidateNext(s, result);
      if err != Ok {
        forall k | result < k <= |s| ensures !IsUtf8(s[..k]) {
          ShorterHasNoChar(s[result..], k - result);
          assert s[..k][result..] == s[result..][..k - result];
          assert s[..k][0..result] == s[0..result];
          StuckMeansInvalid(s[..k], 0, result, cps);
          assert s[..k][0..] == s[..k];
        }
        assert s[0..result] == s[..result];
        return;
      }
      ExtendMeans(s, 0, result, it - result, cps);
      cps := cps + [CharValue(s[result..it])];
      result := it;
    }
    assert s[0..result] == s[..result];
  }

  lemma ShorterHasNoChar(r: seq<Octet>, k: nat)
    requires CharLength(r) == 0 && k <= |r|
    ensures CharLength(r[..k]) == 0
  {
  }

  method Utf8To32(s: seq<Octet>) returns (r: Outcome<seq<CodePoint>>)
    ensures r.Value? <==> IsUtf8(s)
    ensures r.Value? ==> Means(s, r.value)
  {
    var it, out := 0, [];
    assert s[0..] == s;
    while it != |s|
      invariant it <= |s| && Means(s[0..it], out)
      decreases |s| - it
    {
      var c, after := Next(s, it);
      if !c.Value? {
        Stuck(s, it, out);
        match c {
          case NotEnoughRoomThrown => return NotEnoughRoomThrown;
          case InvalidUtf8Thrown(octet) => return InvalidUtf8Thrown(octet);
          case InvalidCodePointThrown(cp) => return InvalidCodePointThrown(cp);
          case InvalidUtf16Thrown(unit) => return InvalidUtf16Thrown(unit);
        }
      }
      ExtendMeans(s, 0, it, after - it, out);
      out := out + [c.value];
      it := after;
    }
    assert s[0..it] == s;
    return Value(out);
  }

  lemma Stuck(s: seq<Octet>, it: nat, cps: seq<CodePoint>)
    requires it < |s| && Means(s[0..it], cps) && Diagnose(s[it..]) != Ok
    ensures !IsUtf8(s)
  {
    StuckMeansInvalid(s, 0, it, cps);
    assert s[0..] == s;
  }

  method Utf32To8(cps: seq<CodePoint>) returns (r: Outcome<seq<Octet>>)
    ensures AllScalar(cps) ==> r == Value(Encode(cps))
    ensures !AllScalar(cps) ==>
      exists i :: 0 <= i < |cps| && AllScalar(cps[..i]) && !IsScalar(cps[i]) && r == InvalidCodePointThrown(cps[i])
  {
    var result: seq<Octet> := [];
    for i := 0 to |cps|
      invariant AllScalar(cps[..i]) && result == Encode(cps[..i])
    {
      var c := Append(cps[i], result);
      if !c.Value? {
        return c;
      }
      EncodeOne(cps[i]);
      EncodeConcat(cps[..i], [cps[i]]);
      assert cps[..i + 1] == cps[..i] + [cps[i]];
      result := c.value;
    }
    assert cps[..|cps|] == cps;
    return Value(result);
  }

  /** The two strings are the UTF-8 and UTF-16 forms of one text. */
  ghost predicate SameText(s8: seq<Octet>, s16: seq<Unit>) {
    exists cps :: Means(s8, cps) && Means16(s16, cps)
  }

  /** Each form determines the other, so going there and back is the identity. */
  lemma SameTextIsOneToOne(a8: seq<Octet>, a16: seq<Unit>, b8: seq<Octet>, b16: seq<Unit>)
    requires SameText(a8, a16) && SameText(b8, b16)
    ensures a8 == b8 <==> a16 == b16
  {
    var a :| Means(a8, a) && Means16(a16, a);
    var b :| Means(b8, b) && Means16(b16, b);
    if a8 == b8 {
      MeansUnique(a8, a, b);
    }
    if a16 == b16 {
      Means16Unique(a16, a, b);
    }
  }

  const LEAD_OFFSET: bv32 := 0xd800 - (0x10000 >> 10)
  const SURROGATE_OFFSET: bv32 := 0x10000 - (0xd800 << 10) - 0xdc00

  /** `(cp << 10) + trail + SURROGATE_OFFSET`, modulo 2^32, undoes the split of RFC 2781. */
  lemma JoinSurrogates(lead: Unit, trail: Unit)
    requires HighSurrogate(lead) && LowSurrogate(trail)
    ensures (lead as bv32 << 10) + (trail as bv32) + SURROGATE_OFFSET == Pair(lead, trail)
  {
  }

  lemma SplitSurrogates(cp: CodePoint)
    requires 0xffff < cp <= 0x10ffff
    ensures EncodeChar16(cp)
         == [Truncate16((cp >> 10) + LEAD_OFFSET), Truncate16((cp & 0x3ff) + 0xdc00)]
  {
    SplitHigh(cp);
    SplitLow(cp);
  }

  lemma SplitHigh(cp: CodePoint)
    requires 0xffff < cp <= 0x10ffff
    ensures Truncate16((cp >> 10) + LEAD_OFFSET) == 0xd800 | ((((cp - 0x10000) >> 10) & 0x3ff) as bv16)
  {
  }

  lemma SplitLow(cp: CodePoint)
    requires 0xffff < cp <= 0x10ffff
    ensures Truncate16((cp & 0x3ff) + 0xdc00) == 0xdc00 | (((cp - 0x10000) & 0x3ff) as bv16)
  {
  }

  predicate IsLeadSurrogate(u: Unit) {
    u >= 0xd800 && u <= 0xdbff
  }

  predicate IsTrailSurrogate(u: Unit) {
    u >= 0xdc00 && u <= 0xdfff
  }

  lemma Copy16To8(s: seq<Unit>, from: nat, to: nat, cps: seq<CodePoint>, out: seq<Octet>, cp: CodePoint)
    requires from <= to <= |s| && Means16(s[..from], cps) && Means(out, cps)
    requires Char16(s[from..to]) && cp == CharValue16(s[from..to])
    ensures IsScalar(cp) && Means16(s[..to], cps + [cp]) && Means(out + EncodeChar(cp), cps + [cp])
  {
    Encode16Decode(s[from..to]);
    ExtendMeans16(s, from, to - from, cps);
    EncodeOne(cp);
    MeansConcat(out, cps, EncodeChar(cp), [cp]);
  }

  lemma Copy8To16(s: seq<Octet>, from: nat, to: nat, cps: seq<CodePoint>, out: seq<Unit>, cp: CodePoint)
    requires from <= to <= |s| && Means(s[0..from], cps) && Means16(out, cps)
    requires Utf8Char(s[from..to]) && cp == CharValue(s[from..to])
    ensures IsScalar(cp) && Means(s[0..to], cps + [cp]) && Means16(out + EncodeChar16(cp), cps + [cp])
  {
    EncodeDecode(s[from..to]);
    ExtendMeans(s, 0, from, to - from, cps);
    Encode16One(cp);
    Encode16Concat(cps, [cp]);
  }

  method Utf16To8(s: seq<Unit>) returns (r: Outcome<seq<Octet>>)
    ensures r.Value? <==> IsUtf16(s)
    ensures r.Value? ==> SameText(r.value, s)
  {
    var it, result: seq<Octet> := 0, [];
    ghost var cps: seq<CodePoint> := [];
    while it != |s|
      invariant it <= |s| && Means16(s[..it], cps) && Means(result, cps)
      decreases |s| - it
    {
      var cp, next := TakeUnits(s, it);
      if !cp.Value? {
        StuckMeansInvalid16(s, it, cps);
        return InvalidUtf16Thrown(cp.unit);
      }
      Copy16To8(s, it, next, cps, result, cp.value);
      var c := Append(cp.value, result);
      cps := cps + [cp.value];
      result := c.value;
      it := next;
    }
    assert s[..it] == s;
    return Value(result);
  }

  /** One turn of the loop: a code point from one unit or a surrogate pair, or the unit to complain
      about. */
  method TakeUnits(s: seq<Unit>, start: nat) returns (r: Outcome<CodePoint>, it: nat)
    requires start < |s|
    ensures r.Value? ==> start < it <= |s| && Char16(s[start..it]) && r.value == CharValue16(s[start..it])
    ensures !r.Value? ==>
      r.InvalidUtf16Thrown? && !Char16(s[start..start + 1]) && (start + 2 <= |s| ==> !Char16(s[start..start + 2]))
  {
    var lead := s[start];
    if IsLeadSurrogate(lead) {
      r, it := TakePair(s, start);
      return;
    }
    it := start + 1;
    LoneUnit(s, start);
    if IsTrailSurrogate(lead) {
      return InvalidUtf16Thrown(Truncate16(lead as bv32)), it;
    }
    return Value(lead as bv32), it;
  }

  /** A unit that leads no pair. */
  lemma LoneUnit(s: seq<Unit>, start: nat)
    requires start < |s| && !HighSurrogate(s[start])
    ensures !LowSurrogate(s[start]) ==> Char16(s[start..start + 1]) && s[start] as bv32 == CharValue16(s[start..start + 1])
    ensures LowSurrogate(s[start]) ==> !Char16(s[start..start + 1]) && (start + 2 <= |s| ==> !Char16(s[start..start + 2]))
  {
    assert s[start..start + 1] == [s[start]];
    if start + 2 <= |s| {
      assert s[start..start + 2] == [s[start], s[start + 1]];
    }
  }

  /** A leading surrogate must be followed by a trailing one. */
  method TakePair(s: seq<Unit>, start: nat) returns (r: Outcome<CodePoint>, it: nat)
    requires start < |s| && HighSurrogate(s[start])
    ensures r.Value? ==> start < it <= |s| && Char16(s[start..it]) && r.value == CharValue16(s[start..it])
    ensures !r.Value? ==>
      r.InvalidUtf16Thrown? && !Char16(s[start..start + 1]) && (start + 2 <= |s| ==> !Char16(s[start..start + 2]))
  {
    it := start + 1;
    if it == |s| {
      return InvalidUtf16Thrown(Truncate16(s[start] as bv32)), it;
    }
    it := it + 1;
    assert s[start..it] == [s[start], s[start + 1]];
    if !IsTrailSurrogate(s[start + 1]) {
      return InvalidUtf16Thrown(s[start + 1]), it;
    }
    var cp := JoinUnits(s[start], s[start + 1]);
    return Value(cp), it;
  }

  method JoinUnits(lead: Unit, trail: Unit) returns (cp: CodePoint)
    requires HighSurrogate(lead) && LowSurrogate(trail)
    ensures cp == Pair(lead, trail)
  {
    cp := lead as bv32;
    JoinSurrogates(lead, trail);
    cp := (cp << 10) + (trail as bv32) + SURROGATE_OFFSET;
  }

  method Utf8To16(s: seq<Octet>) returns (r: Outcome<seq<Unit>>)
    ensures r.Value? <==> IsUtf8(s)
    ensures r.Value? ==> SameText(s, r.value)
  {
    var it, result: seq<Unit> := 0, [];
    ghost var cps: seq<CodePoint> := [];
    assert s[0..] == s;
    while it != |s|
      invariant it <= |s| && Means(s[0..it], cps) && Means16(result, cps)
      decreases |s| - it
    {
      var c, after := Next(s, it);
      if !c.Value? {
        Stuck(s, it, cps);
        match c {
          case NotEnoughRoomThrown => return NotEnoughRoomThrown;
          case InvalidUtf8Thrown(octet) => return InvalidUtf8Thrown(octet);
          case InvalidCodePointThrown(cp) => return InvalidCodePointThrown(cp);
          case InvalidUtf16Thrown(unit) => return InvalidUtf16Thrown(unit);
        }
      }
      var cp := c.value;
      Copy8To16(s, it, after, cps, result, cp);
      ghost var result0 := result;
      if cp > 0xffff {
        SplitSurrogates(cp);
        result := result + [Truncate16((cp >> 10) + LEAD_OFFSET)];
        result := result + [Truncate16((cp & 0x3ff) + 0xdc00)];
      } else {
        result := result + [Truncate16(cp)];
      }
      assert result == result0 + EncodeChar16(cp);
      cps := cps + [cp];
      it := after;
    }
    assert s[0..it] == s;
    return Value(result);
  }
}
