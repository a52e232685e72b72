/** replace_invalid and what it promises. */
module Utf8Repair {
  import opened Utf8Spec
  import opened Utf8Core
  import opened Utf8Checked

  function DropTails(s: seq<Octet>): (r: seq<Octet>)
    ensures |r| <= |s| && r == s[|s| - |r|..]
    ensures forall k :: 0 <= k < |s| - |r| ==> Tail(s[k])
    ensures r != [] ==> !Tail(r[0])
  {
    if s != [] && Tail(s[0]) then DropTails(s[1..]) else s
  }

  /** What is left to read after the ill-formed start of `s`: one octet is dropped, and the tails
      after it too unless it could not have led a character. */
  function AfterError(s: seq<Octet>): (r: seq<Octet>)
    requires s != [] && Diagnose(s) != Ok && Diagnose(s) != NotEnoughRoom
    ensures |r| < |s| && r == s[|s| - |r|..]
  {
    if Diagnose(s) == InvalidLead then s[1..] else DropTails(s[1..])
  }

  function Prepend(a: seq<Octet>, r: Outcome<seq<Octet>>): Outcome<seq<Octet>> {
    if r.Value? then Value(a + r.value) else r
  }

  /** The repaired text: characters are copied, each ill-formed stretch becomes the replacement. */
  function Repaired(s: seq<Octet>, rep: CodePoint): Outcome<seq<Octet>>
    decreases |s|
  {
    if s == [] then Value([])
    else if Diagnose(s) == Ok then Prepend(s[..CharLength(s)], Repaired(s[CharLength(s)..], rep))
    else if Diagnose(s) == NotEnoughRoom then NotEnoughRoomThrown
    else if !IsScalar(rep) then InvalidCodePointThrown(rep)
    else Prepend(EncodeChar(rep), Repaired(AfterError(s), rep))
  }

  lemma PrependNothing(r: Outcome<seq<Octet>>)
    ensures Prepend([], r) == r
  {
    if r.Value? {
      assert [] + r.value == r.value;
    }
  }

  lemma PrependPrepend(a: seq<Octet>, b: seq<Octet>, r: Outcome<seq<Octet>>)
    ensures Prepend(a, Prepend(b, r)) == Prepend(a + b, r)
  {
    if r.Value? {
      assert a + (b + r.value) == (a + b) + r.value;
    }
  }

  /** Past the octet that starts an ill-formed stretch, and past the tails after it unless it could not
      have led a character. */
  method SkipError(s: seq<Octet>, start: nat, err: Error) returns (next: nat)
    requires start < |s| && err == Diagnose(s[start..]) && err != Ok && err != NotEnoughRoom
    ensures start < next <= |s| && s[next..] == AfterError(s[start..])
  {
    next := start + 1;
    assert s[next..] == s[start..][1..];
    if err != InvalidLead {
      next := SkipTails(s, next);
    }
  }

  method ReplaceInvalid(s: seq<Octet>, rep: CodePoint) returns (r: Outcome<seq<Octet>>)
    ensures r == Repaired(s, rep)
  {
    var start := 0;
    var out: seq<Octet> := [];
    assert s[0..] == s;
    PrependNothing(Repaired(s, rep));
    while start != |s|
      invariant start <= |s| && Repaired(s, rep) == Prepend(out, Repaired(s[start..], rep))
      decreases |s| - start
    {
      var sequence_start := start;
      var err, it, _ := ValidateNext(s, start);
      match err {
        case Ok =>
          start := it;
          CharIsCopied(s, sequence_start, start, rep, out);
          out := out + s[sequence_start..start];
        case NotEnoughRoom =>
          return NotEnoughRoomThrown;
        case _ =>
          var c := Append(rep, out);
          if !c.Value? { return c; }
          start := SkipError(s, sequence_start, err);
          ErrorIsReplaced(s, sequence_start, start, rep, out);
          out := c.value;
      }
    }
    assert s[start..] == [] && out + [] == out;
    return Value(out);
  }

  lemma CharIsCopied(s: seq<Octet>, from: nat, to: nat, rep: CodePoint, out: seq<Octet>)
    requires from < to <= |s| && Utf8Char(s[from..to])
    ensures Prepend(out, Repaired(s[from..], rep)) == Prepend(out + s[from..to], Repaired(s[to..], rep))
  {
    CharAt(s, from, to);
    PrependPrepend(out, s[from..to], Repaired(s[to..], rep));
  }

  lemma ErrorIsReplaced(s: seq<Octet>, from: nat, to: nat, rep: CodePoint, out: seq<Octet>)
    requires from < to <= |s| && IsScalar(rep) && Diagnose(s[from..]) != Ok && Diagnose(s[from..]) != NotEnoughRoom
    requires s[to..] == AfterError(s[from..])
    ensures Prepend(out, Repaired(s[from..], rep)) == Prepend(out + EncodeChar(rep), Repaired(s[to..], rep))
  {
    PrependPrepend(out, EncodeChar(rep), Repaired(s[to..], rep));
  }

  lemma CharAt(s: seq<Octet>, from: nat, to: nat)
    requires from < to <= |s| && Utf8Char(s[from..to])
    ensures CharLength(s[from..]) == to - from
    ensures s[from..][..to - from] == s[from..to] && s[from..][to - from..] == s[to..]
  {
    assert s[from..][..to - from] == s[from..to];
    PrefixFree(s[from..], to - from);
  }

  method SkipTails(s: seq<Octet>, it0: nat) returns (it: nat)
    requires it0 <= |s|
    ensures it0 <= it <= |s| && s[it..] == DropTails(s[it0..])
  {
    it := it0;
    if it != |s| { TrailIsTail(s[it]); }
    while it != |s| && IsTrail(s[it])
      invariant it0 <= it <= |s| && DropTails(s[it..]) == DropTails(s[it0..])
      invariant it != |s| ==> IsTrail(s[it]) == Tail(s[it])
      decreases |s| - it
    {
      assert s[it..][1..] == s[it + 1..];
      it := it + 1;
      if it != |s| { TrailIsTail(s[it]); }
    }
  }

  /** Whatever replace_invalid returns is UTF-8. */
  lemma {:induction false} RepairedIsUtf8(s: seq<Octet>, rep: CodePoint) returns (cps: seq<CodePoint>)
    requires Repaired(s, rep).Value?
    ensures Means(Repaired(s, rep).value, cps)
    decreases |s|
  {
    if s == [] {
      cps := [];
    } else if Diagnose(s) == Ok {
      var n := CharLength(s);
      cps := RepairedIsUtf8(s[n..], rep);
      var c := s[..n];
      EncodeDecode(c);
      EncodeOne(CharValue(c));
      MeansConcat(c, [CharValue(c)], Repaired(s[n..], rep).value, cps);
      cps := [CharValue(c)] + cps;
    } else {
      cps := RepairedIsUtf8(AfterError(s), rep);
      EncodeOne(rep);
      MeansConcat(EncodeChar(rep), [rep], Repaired(AfterError(s), rep).value, cps);
      cps := [rep] + cps;
    }
  }

  /** UTF-8 is returned unchanged, whatever the replacement. */
  lemma {:induction false} RepairedKeepsUtf8(s: seq<Octet>, cps: seq<CodePoint>, rep: CodePoint)
    requires Means(s, cps)
    ensures Repaired(s, rep) == Value(s)
    decreases |cps|
  {
    if s != [] {
      MeansHead(s, cps);
      var n := CharLength(s);
      RepairedKeepsUtf8(s[n..], cps[1..], rep);
      assert s == s[..n] + s[n..];
    }
  }

  /** Repairing twice is repairing once. */
  lemma RepairIsIdempotent(s: seq<Octet>, rep: CodePoint, rep2: CodePoint)
    requires Repaired(s, rep).Value?
    ensures Repaired(Repaired(s, rep).value, rep2) == Repaired(s, rep)
  {
    var cps := RepairedIsUtf8(s, rep);
    RepairedKeepsUtf8(Repaired(s, rep).value, cps, rep2);
  }

  /** The octet at `i` leads a sequence longer than what is left, and all that is left are tails. */
  predicate CutAt(s: seq<Octet>, i: nat)
    requires i < |s|
  {
    SequenceLength(s[i]) > |s| - i && forall j :: i < j < |s| ==> Tail(s[j])
  }

  /** The string ends in the middle of a character. */
  predicate EndsInsideChar(s: seq<Octet>) {
    exists i :: 0 <= i < |s| && CutAt(s, i)
  }

  /** That is what the decoder reports as not enough room. */
  lemma CutIsNoRoom(s: seq<Octet>, i: nat)
    requires i < |s|
    ensures CutAt(s, i) <==> Diagnose(s[i..]) == NotEnoughRoom
  {
    var r := s[i..];
    assert forall k :: 0 <= k < |r| ==> r[k] == s[i + k];
    if CharLength(r) > 0 {
      LeadOfChar(r);
    }
    if CutAt(s, i) {
      forall k | 0 < k < |r| ensures Tail(r[k]) {
        assert r[k] == s[i + k];
      }
      LeadRanges(r[0]);
    }
  }

  /** With a valid replacement, replace_invalid throws exactly on strings cut off inside their last
      character; anything else is repaired. */
  lemma {:induction false} RepairReturnsExactly(s: seq<Octet>, rep: CodePoint)
    requires IsScalar(rep)
    ensures Repaired(s, rep).Value? <==> !EndsInsideChar(s)
    decreases |s|
  {
    if s == [] {
    } else if Diagnose(s) == NotEnoughRoom {
      assert s[0..] == s;
      CutIsNoRoom(s, 0);
    } else {
      var k := if Diagnose(s) == Ok then CharLength(s) else |s| - |AfterError(s)|;
      assert s[k..] == if Diagnose(s) == Ok then s[CharLength(s)..] else AfterError(s);
      StepOverTails(s, k);
      RepairReturnsExactly(s[k..], rep);
      EndsInSuffix(s, k);
    }
  }

  lemma StepOverTails(s: seq<Octet>, k: nat)
    requires s != [] && Diagnose(s) != NotEnoughRoom
    requires k == if Diagnose(s) == Ok then CharLength(s) else |s| - |AfterError(s)|
    ensures 0 < k <= |s| && forall i :: 0 < i < k ==> Tail(s[i])
  {
    if Diagnose(s) == Ok {
      TailsAfterLead(s[..k]);
      forall i | 0 < i < k ensures Tail(s[i]) {
        assert s[..k][i] == s[i];
      }
    } else if Diagnose(s) != InvalidLead {
      forall i | 0 < i < k ensures Tail(s[i]) {
        assert s[1..][i - 1] == s[i];
      }
    }
  }

  lemma EndsInSuffix(s: seq<Octet>, k: nat)
    requires 0 < k <= |s| && Diagnose(s) != NotEnoughRoom
    requires forall i :: 0 < i < k ==> Tail(s[i])
    ensures EndsInsideChar(s) <==> EndsInsideChar(s[k..])
  {
    var t := s[k..];
    assert s[0..] == s && forall j :: 0 <= j < |t| ==> t[j] == s[k + j];
    CutIsNoRoom(s, 0);
    if i :| 0 <= i < |s| && CutAt(s, i) {
      LeadRanges(s[i]);
      assert CutAt(t, i - k);
    }
    if j :| 0 <= j < |t| && CutAt(t, j) {
      forall i | k + j < i < |s| ensures Tail(s[i]) {
        assert s[i] == t[i - k];
      }
      assert CutAt(s, k + j);
    }
  }

  // ---------------------------------------------------------------------------------------------
  // What the repaired text is
  // ---------------------------------------------------------------------------------------------

  /** The ill-formed stretch `p` that `s` starts with: no character starts there; an octet that leads nothing
      is a stretch of its own, any other takes all the tails behind it. */
  ghost predicate Broken(s: seq<Octet>, p: seq<Octet>) {
    && p != [] && p <= s && (forall n: nat :: 0 < n <= |s| ==> !Utf8Char(s[..n]))
    && if SequenceLength(s[0]) == 0 then |p| == 1
       else (forall k :: 0 < k < |p| ==> Tail(s[k])) && (|p| < |s| ==> !Tail(s[|p|]))
  }

  /** `s` cut into characters and ill-formed stretches. */
  ghost predicate Cut(s: seq<Octet>, pieces: seq<seq<Octet>>)
    decreases |pieces|
  {
    if pieces == [] then s == []
    else
      var p := pieces[0];
      p != [] && p <= s && (Utf8Char(p) || Broken(s, p)) && Cut(s[|p|..], pieces[1..])
  }

  /** Characters as they are, the replacement for each ill-formed stretch. */
  function Mended(pieces: seq<seq<Octet>>, rep: CodePoint): seq<Octet>
    requires IsScalar(rep)
  {
    if pieces == [] then []
    else (if Utf8Char(pieces[0]) then pieces[0] else EncodeChar(rep)) + Mended(pieces[1..], rep)
  }

  lemma NoCharHere(s: seq<Octet>)
    requires s != []
    ensures Diagnose(s) == Ok <==> exists n: nat :: 0 < n <= |s| && Utf8Char(s[..n])
  {
  }

  lemma SkippedIsBroken(s: seq<Octet>)
    requires s != [] && Diagnose(s) != Ok && Diagnose(s) != NotEnoughRoom
    ensures Broken(s, s[..|s| - |AfterError(s)|])
  {
    var k := |s| - |AfterError(s)|;
    NoCharHere(s);
    LeadRanges(s[0]);
    StepOverTails(s, k);
    if SequenceLength(s[0]) != 0 && k < |s| {
      assert AfterError(s) == s[k..] && AfterError(s)[0] == s[k];
    }
  }

  /** With a valid replacement, what is returned is the text with each of its ill-formed stretches replaced
      and its characters kept, in order. */
  lemma {:induction false} RepairMends(s: seq<Octet>, rep: CodePoint) returns (pieces: seq<seq<Octet>>)
    requires IsScalar(rep) && !EndsInsideChar(s)
    ensures Cut(s, pieces) && Repaired(s, rep) == Value(Mended(pieces, rep))
    decreases |s|
  {
    if s == [] {
      pieces := [];
    } else {
      RepairReturnsExactly(s, rep);
      var k := if Diagnose(s) == Ok then CharLength(s) else |s| - |AfterError(s)|;
      if Diagnose(s) != Ok {
        SkippedIsBroken(s);
      }
      assert s[0..] == s;
      CutIsNoRoom(s, 0);
      StepOverTails(s, k);
      EndsInSuffix(s, k);
      var rest := RepairMends(s[k..], rep);
      pieces := [s[..k]] + rest;
      assert pieces[1..] == rest && s[k..] == s[|pieces[0]|..];
      assert Diagnose(s) != Ok ==> !Utf8Char(s[..k]);
    }
  }

  /** There is only one way to cut a text. */
  lemma {:induction false} CutIsUnique(s: seq<Octet>, a: seq<seq<Octet>>, b: seq<seq<Octet>>)
    requires Cut(s, a) && Cut(s, b)
    ensures a == b
    decreases |a|
  {
    if a != [] && b != [] {
      SamePiece(s, a[0], b[0]);
      CutIsUnique(s[|a[0]|..], a[1..], b[1..]);
      assert a == [a[0]] + a[1..] && b == [b[0]] + b[1..];
    }
  }

  lemma SamePiece(s: seq<Octet>, p: seq<Octet>, q: seq<Octet>)
    requires p != [] && q != [] && p <= s && q <= s && (Utf8Char(p) || Broken(s, p)) && (Utf8Char(q) || Broken(s, q))
    ensures p == q
  {
    assert p == s[..|p|] && q == s[..|q|];
    if Utf8Char(p) && Utf8Char(q) {
      PrefixFree(s, |p|);
      PrefixFree(s, |q|);
    }
  }

  // ---------------------------------------------------------------------------------------------
  // What each diagnosis means
  // ---------------------------------------------------------------------------------------------

  /** The lead's octets are there: the value they spell out is the scalar value of a shorter character, or no
      scalar value at all. */
  lemma WrongValueMeans(s: seq<Octet>)
    requires s != [] && SequenceLength(s[0]) <= |s|
    ensures Diagnose(s) == OverlongSequence ==>
      var v := RawValue(s, SequenceLength(s[0])); IsScalar(v) && |EncodeChar(v)| < SequenceLength(s[0])
    ensures Diagnose(s) == InvalidCodePoint ==> !IsScalar(RawValue(s, SequenceLength(s[0])))
  {
  }
}
