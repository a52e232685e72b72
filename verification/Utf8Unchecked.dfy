/** The unchecked twin of utf8-cpp. */
module Utf8Unchecked {
  import opened Utf8Spec
  import opened Utf8Core
  import opened Utf8Checked

  // The same results with no test, on input that is known to be valid.

  method Next(s: seq<Octet>, it0: nat) returns (cp: CodePoint, it: nat)
    requires it0 < |s| && CharLength(s[it0..]) > 0
    ensures it == it0 + CharLength(s[it0..])
    ensures cp == CharValue(s[it0..][..CharLength(s[it0..])])
  {
    ghost var r := s[it0..];
    LeadOfChar(r);
    it := it0;
    cp := s[it] as bv32;
    var length := SequenceLength(s[it]);
    if length == 2 {
      Formula2(r[0], r[1]);
      it := it + 1;
      cp := ((cp << 6) & 0x7ff) + ((s[it] & 0x3f) as bv32);
    } else if length == 3 {
      Formula3(r[0], r[1], r[2]);
      it := it + 1;
      cp := ((cp << 12) & 0xffff) + ((s[it] as bv32 << 6) & 0xfff);
      it := it + 1;
      cp := cp + ((s[it] & 0x3f) as bv32);
    } else if length == 4 {
      Formula4(r[0], r[1], r[2], r[3]);
      it := it + 1;
      cp := ((cp << 18) & 0x1fffff) + ((s[it] as bv32 << 12) & 0x3ffff);
      it := it + 1;
      cp := cp + ((s[it] as bv32 << 6) & 0xfff);
      it := it + 1;
      cp := cp + ((s[it] & 0x3f) as bv32);
    }
    it := it + 1;
  }

  /** unchecked::append has no test of the code point; on valid ones it writes what append writes. */
  method Append(cp: CodePoint, out: seq<Octet>) returns (result: seq<Octet>)
    requires IsScalar(cp)
    ensures result == out + EncodeChar(cp)
  {
    result := out;
    if cp < 0x80 {
      result := result + [Truncate8(cp)];
    } else if cp < 0x800 {
      AppendOctets2(cp);
      result := result + [Truncate8((cp >> 6) | 0xc0)];
      result := result + [Truncate8((cp & 0x3f) | 0x80)];
    } else if cp < 0x10000 {
      AppendOctets3(cp);
      result := result + [Truncate8((cp >> 12) | 0xe0)];
      result := result + [Truncate8(((cp >> 6) & 0x3f) | 0x80)];
      result := result + [Truncate8((cp & 0x3f) | 0x80)];
    } else {
      AppendOctets4(cp);
      result := result + [Truncate8((cp >> 18) | 0xf0)];
      result := result + [Truncate8(((cp >> 12) & 0x3f) | 0x80)];
      result := result + [Truncate8(((cp >> 6) & 0x3f) | 0x80)];
      result := result + [Truncate8((cp & 0x3f) | 0x80)];
    }
    assert result == out + EncodeChar(cp);
  }

  /** Steps back over the last character; no bound is needed when there is one. */
  method Prior(s: seq<Octet>, it0: nat, ghost cps: seq<CodePoint>) returns (cp: CodePoint, it: nat)
    requires it0 <= |s| && Means(s[0..it0], cps) && cps != []
    ensures cp == cps[|cps| - 1] && it + |EncodeChar(cp)| == it0
  {
    LastChar(s[0..it0], cps);
    ghost var lead := it0 - |EncodeChar(cps[|cps| - 1])|;
    assert s[0..it0][lead..] == s[lead..it0];
    it := it0 - 1;
    TrailIsTail(s[it]);
    while IsTrail(s[it])
      invariant lead <= it < it0 && IsTrail(s[it]) == Tail(s[it])
      decreases it
    {
      it := it - 1;
      TrailIsTail(s[it]);
    }
    assert forall k :: lead < k < it0 ==> Tail(s[0..it0][k]);
    assert it == lead;
    assert s[it..][..it0 - it] == s[lead..it0];
    PrefixFree(s[it..], it0 - it);
    var after;
    cp, after := Next(s, it);
  }

  method Utf8To32(s: seq<Octet>) returns (out: seq<CodePoint>)
    requires IsUtf8(s)
    ensures Means(s, out)
  {
    var it := 0;
    out := [];
    assert s[0..] == s;
    while it < |s|
      invariant it <= |s| && Means(s[0..it], out)
    {
      MoreToRead(s, it, out);
      ghost var it0 := it;
      var cp;
      cp, it := Next(s, it);
      assert s[it0..][..it - it0] == s[it0..it];
      ExtendMeans(s, 0, it0, it - it0, out);
      out := out + [cp];
    }
    assert s[0..it] == s;
  }

  lemma MoreToRead(s: seq<Octet>, it: nat, cps: seq<CodePoint>)
    requires it < |s| && Means(s[0..it], cps) && IsUtf8(s)
    ensures CharLength(s[it..]) > 0
  {
    assert s[0..] == s;
    if CharLength(s[it..]) == 0 {
      StuckMeansInvalid(s, 0, it, cps);
    }
  }

  method Utf8To16(s: seq<Octet>) returns (result: seq<Unit>)
    requires IsUtf8(s)
    ensures SameText(s, result)
  {
    var it := 0;
    result := [];
    ghost var cps: seq<CodePoint> := [];
    assert s[0..] == s;
    while it < |s|
      invariant it <= |s| && Means(s[0..it], cps) && Means16(result, cps)
    {
      MoreToRead(s, it, cps);
      ghost var it0 := it;
      var cp;
      cp, it := Next(s, it);
      assert s[it0..][..it - it0] == s[it0..it];
      Copy8To16(s, it0, it, cps, result, cp);
      ghost var result0 := result;
      if cp > 0xffff {
        SplitSurrogates(cp);
        result := result + [Truncate16((cp >> 10) + LEAD_OFFSET)];
        result := result + [Truncate16((cp & 0x3ff) + 0xdc00)];
      } else {
        result := result + [Truncate16(cp)];
      }
      assert result == result0 + EncodeChar16(cp);
      cps := cps + [cp];
    }
    assert s[0..it] == s;
  }

  lemma UnitsToRead(s: seq<Unit>, it: nat, cps: seq<CodePoint>, all: seq<CodePoint>)
    requires it < |s| && Means16(s[..it], cps) && Means16(s, all)
    ensures HighSurrogate(s[it]) ==>
      it + 1 < |s| && LowSurrogate(s[it + 1]) && Char16(s[it..it + 2])
      && CharValue16(s[it..it + 2]) == Pair(s[it], s[it + 1])
    ensures !HighSurrogate(s[it]) ==> Char16(s[it..it + 1]) && CharValue16(s[it..it + 1]) == s[it] as bv32
  {
    NextIsChar16(s, it, cps, all);
  }

  method Utf16To8(s: seq<Unit>) returns (result: seq<Octet>)
    requires IsUtf16(s)
    ensures SameText(result, s)
  {
    var it := 0;
    result := [];
    ghost var cps: seq<CodePoint> := [];
    ghost var all: seq<CodePoint> :| Means16(s, all);
    while it != |s|
      invariant it <= |s| && Means16(s[..it], cps) && Means(result, cps)
      decreases |s| - it
    {
      UnitsToRead(s, it, cps, all);
      ghost var it0 := it;
      var cp := s[it] as bv32;
      it := it + 1;
      if IsLeadSurrogate(s[it - 1]) {
        var trail := s[it];
        it := it + 1;
        JoinSurrogates(s[it - 2], trail);
        cp := (cp << 10) + (trail as bv32) + SURROGATE_OFFSET;
      }
      Copy16To8(s, it0, it, cps, result, cp);
      result := Append(cp, result);
      cps := cps + [cp];
    }
    assert s[..it] == s;
  }
}
