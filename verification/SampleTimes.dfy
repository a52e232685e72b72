/** How Remotery's sample tree accounts for time over every well-nested run of calls, whatever the flags. */
module SampleTimes {
  import opened Samples
  import opened SampleRuns

  /** The reported lengths of some nodes, together. */
  function Sum(nodes: seq<Info>, children: seq<nat>): nat {
    if children == [] then 0
    else (if children[0] < |nodes| then nodes[children[0]].usLength else 0) + Sum(nodes, children[1..])
  }

  /** Each node below the root has sampled exactly the lengths of its children. */
  ghost predicate SampledRight(nodes: seq<Info>) {
    forall p: nat :: 0 < p < |nodes| ==> NodeSampledRight(nodes, p)
  }

  predicate NodeSampledRight(nodes: seq<Info>, p: nat)
    requires p < |nodes|
  {
    nodes[p].usSampledLength == Sum(nodes, nodes[p].children)
  }

  ghost predicate AllSampledRight(s: State) {
    SampledRight(s.nodes) && forall tree :: tree in s.sent ==> SampledRight(tree)
  }

  lemma {:induction false} SumSame(a: seq<Info>, b: seq<Info>, children: seq<nat>)
    requires forall c :: c in children ==> c < |a| && c < |b| && a[c].usLength == b[c].usLength
    ensures Sum(a, children) == Sum(b, children)
  {
    if children != [] {
      Split(children);
      SumSame(a, b, children[1..]);
    }
  }

  lemma {:induction false} SumAppend(nodes: seq<Info>, children: seq<nat>, c: nat)
    requires c < |nodes|
    ensures Sum(nodes, children + [c]) == Sum(nodes, children) + nodes[c].usLength
  {
    if children != [] {
      assert (children + [c])[1..] == children[1..] + [c];
      SumAppend(nodes, children[1..], c);
    } else {
      assert children + [c] == [c] && [c][1..] == [];
    }
  }

  /** Lengthening one node lengthens the sum over a list that holds it once. */
  lemma {:induction false} SumBump(a: seq<Info>, b: seq<Info>, children: seq<nat>, n: nat, length: nat)
    requires n < |a| == |b| && b[n].usLength == a[n].usLength + length
    requires forall c: nat :: c < |a| && c != n ==> a[c].usLength == b[c].usLength
    requires forall j, k :: 0 <= j < k < |children| ==> children[j] < children[k]
    ensures Sum(b, children) == Sum(a, children) + if n in children then length else 0
  {
    if children != [] {
      SumBump(a, b, children[1..], n, length);
      assert n in children <==> n == children[0] || n in children[1..];
      assert forall c :: c in children[1..] ==> c > children[0];
    }
  }

  /** A change that moves no length and no child keeps the sums. */
  lemma LengthsKept(a: seq<Info>, b: seq<Info>)
    requires Shape(a) && SampledRight(a) && |a| == |b|
    requires forall i: nat :: i < |a| ==> a[i].usLength == b[i].usLength
    requires forall i: nat :: i < |a| ==> a[i].children == b[i].children
    requires forall i: nat :: i < |a| ==> a[i].usSampledLength == b[i].usSampledLength
    ensures SampledRight(b)
  {
    forall p: nat | 0 < p < |b| ensures NodeSampledRight(b, p) {
      assert NodeSampledRight(a, p) && ChildrenRight(a, p);
      SumSame(a, b, a[p].children);
    }
  }

  lemma ExtendSampled(s: State, nameHash: nat, now: nat)
    requires Inv(s) && AllSampledRight(s)
    ensures AllSampledRight(Extend(s, nameHash, now))
  {
    var a, b := s.nodes, Extend(s, nameHash, now).nodes;
    forall p: nat | 0 < p < |b| ensures NodeSampledRight(b, p) {
      if p < |a| {
        assert NodeSampledRight(a, p) && ChildrenRight(a, p);
        SumSame(a, b, a[p].children);
        if p == s.current {
          SumAppend(b, a[p].children, |a|);
        }
      }
    }
  }

  lemma BeginSampled(s: State, nameHash: nat, aggregate: bool, recursive: bool, now: nat)
    requires Inv(s) && AllSampledRight(s)
    ensures AllSampledRight(Begin(s, nameHash, aggregate, recursive, now))
  {
    var b := Begin(s, nameHash, aggregate, recursive, now);
    var sibling := FindChild(s.nodes, s.nodes[s.current].children, nameHash);
    if (aggregate && sibling.Some?) || (recursive && s.nodes[s.current].nameHash == nameHash) {
      LengthsKept(s.nodes, b.nodes);
    } else {
      ExtendSampled(s, nameHash, now);
    }
  }

  /** Closing a node moves the same length to the node and to its parent's sum. */
  lemma CloseSampled(s: State, now: nat)
    requires Inv(s) && s.current != 0 && SampledRight(s.nodes)
    ensures SampledRight(Close(s, now).nodes)
  {
    var a, b := s.nodes, Close(s, now).nodes;
    var n := s.current;
    var length := CallLength(a[n], now);
    forall p: nat | 0 < p < |b| ensures NodeSampledRight(b, p) {
      assert NodeSampledRight(a, p) && ChildrenRight(a, p);
      SumBump(a, b, a[p].children, n, length);
    }
  }

  lemma EndSampled(s: State, now: nat)
    requires Inv(s) && s.current != 0 && AllSampledRight(s)
    ensures AllSampledRight(End(s, now))
  {
    if s.nodes[s.current].recurseDepth > 0 {
      LengthsKept(s.nodes, End(s, now).nodes);
    } else {
      CloseSampled(s, now);
    }
  }

  lemma StepSampled(s: State, step: Step)
    requires Inv(s) && AllSampledRight(s)
    ensures AllSampledRight(RunStep(s, step))
  {
    match step
    case BeginStep(nameHash, aggregate, recursive, at) => BeginSampled(s, nameHash, aggregate, recursive, at);
    case EndStep(at) =>
      if s.current != 0 {
        EndSampled(s, at);
      }
  }

  /** At every moment of every run, in live and in sent trees alike, the time a node has sampled is
      the sum of its children's lengths: after any steps, and so after the first `k` of them. */
  lemma {:induction false} RunSampled(s: State, steps: seq<Step>, k: nat)
    requires Inv(s) && NamedSteps(steps) && AllSampledRight(s) && k <= |steps|
    ensures Inv(RunSteps(s, steps[..k])) && AllSampledRight(RunSteps(s, steps[..k]))
    decreases k
  {
    if k > 0 {
      assert steps[0] in steps && steps[..k][0] == steps[0] && steps[..k][1..] == steps[1..][..k - 1];
      StepInv(s, steps[0]);
      StepSampled(s, steps[0]);
      RunSampled(RunStep(s, steps[0]), steps[1..], k - 1);
    }
  }

  // ---------------------------------------------------------------------------------------------
  // Self time
  // ---------------------------------------------------------------------------------------------

  /** When the open call of a node began. */
  function OpenedAt(n: Info): nat {
    if n.reentered then n.usEnd else n.usStart
  }

  predicate OnPath(s: State, i: nat) {
    IsAncestor(s.nodes, i, s.current)
  }

  /** What closing a node adds, for a clock not behind its two stamps: the time since it was opened,
      if and only if the branch that chooses the stamp chooses the one the opening set, or the two are
      the same. For a node within the counters' range that is: unless it was both returned to and
      recursed into. */
  lemma ClosingLength(n: Info, now: nat)
    requires n.usStart <= now && n.usEnd <= now
    ensures CallLength(n, now) == now - OpenedAt(n) <==>
      ((n.callCount > 1 && n.maxRecurseDepth == 0) == n.reentered || n.usStart == n.usEnd)
    ensures (n.callCount > 1 <==> n.reentered || n.maxRecurseDepth > 0) ==>
      (CallLength(n, now) == now - OpenedAt(n) <==> !(n.reentered && n.maxRecurseDepth > 0) || n.usStart == n.usEnd)
  {
  }

  /** When the last of the steps was taken, `now` if there are none. */
  function Clock(steps: seq<Step>, now: nat): nat {
    if steps == [] then now else steps[|steps| - 1].at
  }

  /** The clock does not go back. */
  ghost predicate Ordered(steps: seq<Step>, now: nat)
    decreases |steps|
  {
    steps != [] ==> now <= steps[0].at && Ordered(steps[1..], steps[0].at)
  }

  // ---------------------------------------------------------------------------------------------
  // Why the condition is needed
  // ---------------------------------------------------------------------------------------------

  /** Sample 1 is open from 0 to 50. In it, sample 2 is taken from 0 to 20 and, aggregated, again from
      20 to 50, the second time with a recursive call inside. */
  const MIXED_BODY := [Call(2, true, false, 0, [], 20), Call(2, true, true, 20, [Call(2, false, true, 20, [], 20)], 50)]

  function Outer(sampled: nat): Info {
    Info(1, 0, [2], 1, 0, 0, 0, sampled, 1, 0, 0, false)
  }

  function Inner(end: nat, length: nat, calls: nat, depth: nat, deepest: nat, reentered: bool): Info {
    Info(2, 1, [], 0, 0, end, length, 0, calls, depth, deepest, reentered)
  }

  function Root(): Info {
    Info(0, 0, [1], 1, 0, 0, 0, 0, 1, 0, 0, false)
  }

  lemma FirstPart()
    ensures var s := State([Root(), Info(1, 0, [], 0, 0, 0, 0, 0, 1, 0, 0, false)], 1, 1, []);
      && Inv(s) && Begin(Start(), 1, false, false, 0) == s
      && RunCall(s, MIXED_BODY[0]) == State([Root(), Outer(20), Inner(0, 20, 1, 0, 0, false)], 1, 2, [])
  {
    var s := Begin(Start(), 1, false, false, 0);
    StartInv();
    BeginKeepsInv(Start(), 1, false, false, 0);
    BeginKeepsInv(s, 2, true, false, 0);
    var b := Begin(s, 2, true, false, 0);
    assert b.nodes[0] == Root() && b.nodes[1] == Outer(0) && b.nodes[2] == Inner(0, 0, 1, 0, 0, false);
    assert b == State([Root(), Outer(0), Inner(0, 0, 1, 0, 0, false)], 2, 2, []);
    assert RunCalls(b, []) == b;
  }

  lemma SecondPart()
    requires Inv(State([Root(), Outer(20), Inner(0, 20, 1, 0, 0, false)], 1, 2, []))
    ensures var s := State([Root(), Outer(20), Inner(0, 20, 1, 0, 0, false)], 1, 2, []);
      RunCall(s, MIXED_BODY[1]) == State([Root(), Outer(70), Inner(20, 70, 3, 0, 1, true)], 1, 2, [])
  {
    var s := State([Root(), Outer(20), Inner(0, 20, 1, 0, 0, false)], 1, 2, []);
    BeginKeepsInv(s, 2, true, true, 20);
    var b := Begin(s, 2, true, true, 20);
    assert b == State([Root(), Outer(20), Inner(20, 20, 2, 0, 0, true)], 2, 2, []);
    var inner := Call(2, false, true, 20, [], 20);
    BeginKeepsInv(b, 2, false, true, 20);
    var r := Begin(b, 2, false, true, 20);
    assert r == State([Root(), Outer(20), Inner(20, 20, 3, 1, 1, true)], 2, 2, []);
    assert RunCalls(r, []) == r;
    var e := State([Root(), Outer(20), Inner(20, 20, 3, 0, 1, true)], 2, 2, []);
    assert RunCall(b, inner) == e;
    EndKeepsInv(r, 20);
    assert RunCalls(b, [inner]) == RunCalls(e, [inner][1..]) == e;
  }

  lemma LastPart()
    ensures var t := End(State([Root(), Outer(70), Inner(20, 70, 3, 0, 1, true)], 1, 2, []), 50);
      |t.sent| == 1 && |t.sent[0]| > 1 && t.sent[0][1].usSampledLength == 70 && t.sent[0][1].usLength == 50
  {
  }

  lemma BodyPart()
    ensures var s := Begin(Start(), 1, false, false, 0);
      && RunCalls(s, MIXED_BODY) == State([Root(), Outer(70), Inner(20, 70, 3, 0, 1, true)], 1, 2, [])
      && Inv(RunCalls(s, MIXED_BODY))
  {
    FirstPart();
    MixedNamed();
    var s := State([Root(), Info(1, 0, [], 0, 0, 0, 0, 0, 1, 0, 0, false)], 1, 1, []);
    CallInv(s, MIXED_BODY[0]);
    SecondPart();
    CallInv(RunCall(s, MIXED_BODY[0]), MIXED_BODY[1]);
    var last := MIXED_BODY[1..];
    assert last[0] == MIXED_BODY[1] && last[1..] == [];
  }

  /** A sample aggregated into and recursed into counts its first call twice: here its parent has
      sampled 70 microseconds of the 50 it took. */
  lemma MixedOvercounts()
    ensures var t := RunCalls(Start(), [Call(1, false, false, 0, MIXED_BODY, 50)]);
      |t.sent| == 1 && |t.sent[0]| > 1 && t.sent[0][1].usSampledLength == 70 && t.sent[0][1].usLength == 50
  {
    var c := Call(1, false, false, 0, MIXED_BODY, 50);
    BodyPart();
    LastPart();
    StartInv();
    var t := RunCall(Start(), c);
    assert RunCalls(Start(), [c]) == RunCalls(t, [c][1..]) == t;
  }

  lemma MixedNamed()
    ensures Named(MIXED_BODY) && Named(MIXED_BODY[0].body) && Named(MIXED_BODY[1].body)
  {
  }
}
