/** Every well-nested run of BeginCPUSample and EndCPUSample: what it restores, what it sends, and how
    it accounts for time. */
module SampleRuns {
  import opened Samples

  lemma RestoredTrans(s: State, t: State, u: State)
    requires Restored(s, t) && Restored(t, u)
    ensures Restored(s, u)
  {
    if s.current != 0 {
      forall i: nat | i < |u.nodes| ensures SameNode(s, u, i) {
        assert SameNode(t, u, i);
        if i < |t.nodes| {
          assert SameNode(s, t, i);
        }
      }
    }
  }

  /** Around a recursive call: the depth goes up by one and comes down again. */
  lemma RecurseRestores(s: State, t: State, end: nat)
    requires Inv(s) && s.current != 0 && s.nodes[s.current].recurseDepth + 1 < WORD16
    requires Inv(t) && Restored(Recurse(s), t)
    ensures Restored(s, End(t, end)) && End(t, end).sent == s.sent
  {
    var b := Recurse(s);
    assert SameNode(b, t, s.current);
    var u := End(t, end);
    forall i: nat | i < |u.nodes| ensures SameNode(s, u, i) {
      assert SameNode(b, t, i);
    }
  }

  /** Around a call that opened a node, new or returned to: closing it leads back to its parent. */
  lemma OpenRestores(s: State, b: State, t: State, end: nat)
    requires Inv(s) && Inv(t) && b.current != 0 && b.current < |b.nodes| && |s.nodes| <= |b.nodes|
    requires Restored(b, t) && b.sent == s.sent
    requires b.nodes[b.current].parent == s.current && b.nodes[b.current].recurseDepth == 0
    requires forall i: nat :: i < |b.nodes| ==> SameNode(s, b, i)
    ensures Restored(s, End(t, end))
    ensures s.current != 0 ==> End(t, end).sent == s.sent
    ensures s.current == 0 ==> |End(t, end).sent| == |s.sent| + 1
  {
    assert SameNode(b, t, b.current);
    var u := End(t, end);
    if s.current != 0 {
      forall i: nat | i < |u.nodes| ensures SameNode(s, u, i) {
        assert SameNode(b, t, i);
        if i < |b.nodes| {
          assert SameNode(s, b, i);
        }
      }
    } else {
      assert SameNode(b, t, 0) && SameNode(s, b, 0);
    }
  }

  /** How a call begins. */
  lemma BeginCases(s: State, c: Call)
    requires Inv(s) && c.nameHash != 0
    ensures var b := Begin(s, c.nameHash, c.aggregate, c.recursive, c.begin);
      || (b == Recurse(s) && s.current != 0)
      || (b.current != 0 && b.current < |b.nodes| && |s.nodes| <= |b.nodes| && b.sent == s.sent
          && b.nodes[b.current].parent == s.current && b.nodes[b.current].recurseDepth == 0
          && forall i: nat :: i < |b.nodes| ==> SameNode(s, b, i))
  {
    assert ChildrenRight(s.nodes, s.current);
    var sibling := FindChild(s.nodes, s.nodes[s.current].children, c.nameHash);
    if c.aggregate && sibling.Some? {
      var k := sibling.value;
      assert DepthRight(s, k);
      if s.nodes[k].recurseDepth > 0 {
        AncestorsBefore(s.nodes, k, s.current);
      }
    }
  }

  /** Every step keeps the invariant, whatever the flags and however deep the nesting. */
  lemma StepInv(s: State, step: Step)
    requires Inv(s) && (step.BeginStep? ==> step.nameHash != 0)
    ensures Inv(RunStep(s, step))
  {
    match step
    case BeginStep(nameHash, aggregate, recursive, at) => BeginKeepsInv(s, nameHash, aggregate, recursive, at);
    case EndStep(at) =>
      if s.current != 0 {
        EndKeepsInv(s, at);
      }
  }

  lemma {:induction false} StepsInv(s: State, steps: seq<Step>)
    requires Inv(s) && NamedSteps(steps)
    ensures Inv(RunSteps(s, steps))
    decreases |steps|
  {
    if steps != [] {
      assert steps[0] in steps;
      StepInv(s, steps[0]);
      StepsInv(RunStep(s, steps[0]), steps[1..]);
    }
  }

  lemma {:induction false} StepsInTurn(s: State, a: seq<Step>, b: seq<Step>)
    ensures RunSteps(s, a + b) == RunSteps(RunSteps(s, a), b)
    decreases |a|
  {
    if a == [] {
      assert a + b == b;
    } else {
      assert (a + b)[0] == a[0] && (a + b)[1..] == a[1..] + b;
      StepsInTurn(RunStep(s, a[0]), a[1..], b);
    }
  }

  lemma NamedParts(calls: seq<Call>)
    requires calls != [] && Named(calls)
    ensures calls[0].nameHash != 0 && Named(calls[0].body) && Named(calls[1..])
  {
    assert calls[0] in calls;
  }

  /** A run of calls is the run of its steps. */
  lemma {:induction false} CallsAreSteps(s: State, calls: seq<Call>)
    requires Inv(s) && Named(calls)
    ensures NamedSteps(Steps(calls)) && RunSteps(s, Steps(calls)) == RunCalls(s, calls) && Inv(RunCalls(s, calls))
    decreases calls
  {
    if calls != [] {
      var c, rest := calls[0], calls[1..];
      NamedParts(calls);
      var b := Begin(s, c.nameHash, c.aggregate, c.recursive, c.begin);
      var begin, end := BeginStep(c.nameHash, c.aggregate, c.recursive, c.begin), EndStep(c.end);
      BeginKeepsInv(s, c.nameHash, c.aggregate, c.recursive, c.begin);
      CallsAreSteps(b, c.body);
      StepInv(RunCalls(b, c.body), end);
      CallsAreSteps(RunCall(s, c), rest);
      OneCall(s, begin, Steps(c.body), end, Steps(rest));
    }
  }

  lemma CallInv(s: State, c: Call)
    requires Inv(s) && c.nameHash != 0 && Named(c.body)
    ensures Inv(RunCall(s, c))
  {
    var b := Begin(s, c.nameHash, c.aggregate, c.recursive, c.begin);
    BeginKeepsInv(s, c.nameHash, c.aggregate, c.recursive, c.begin);
    CallsAreSteps(b, c.body);
    StepInv(RunCalls(b, c.body), EndStep(c.end));
  }

  lemma OneCall(s: State, begin: Step, body: seq<Step>, end: Step, rest: seq<Step>)
    ensures RunSteps(s, [begin] + body + [end] + rest) == RunSteps(RunStep(RunSteps(RunStep(s, begin), body), end), rest)
  {
    var all := [begin] + body + [end] + rest;
    assert all[1..] == body + ([end] + rest) && ([end] + rest)[1..] == rest;
    StepsInTurn(RunStep(s, begin), body, [end] + rest);
  }

  /** With room for everything in it, one call returns to the node it began at, with every recursion
      depth as before, and sends one tree exactly if it began at the root. */
  lemma {:induction false} RunCallRestores(s: State, c: Call)
    requires Inv(s) && c.nameHash != 0 && Named(c.body) && CallHasRoom(s, c)
    ensures Inv(RunCall(s, c)) && Restored(s, RunCall(s, c))
    ensures |RunCall(s, c).sent| == |s.sent| + if s.current == 0 then 1 else 0
    decreases c
  {
    var b := Begin(s, c.nameHash, c.aggregate, c.recursive, c.begin);
    BeginKeepsInv(s, c.nameHash, c.aggregate, c.recursive, c.begin);
    BeginCases(s, c);
    RunRestores(b, c.body);
    var t := RunCalls(b, c.body);
    EndKeepsInv(t, c.end);
    if Collapses(s, c) {
      RecurseRestores(s, t, c.end);
    } else {
      OpenRestores(s, b, t, c.end);
    }
  }

  /** Every well-nested run with room restores the open node and all recursion depths, keeps the
      tree's shape, loses and invents no node, and sends one closed tree for each of its calls made at
      the root. */
  lemma {:induction false} RunRestores(s: State, calls: seq<Call>)
    requires Inv(s) && Named(calls) && CallsHaveRoom(s, calls)
    ensures Inv(RunCalls(s, calls)) && Restored(s, RunCalls(s, calls))
    ensures |RunCalls(s, calls).sent| == |s.sent| + if s.current == 0 then |calls| else 0
    decreases calls
  {
    if calls == [] {
      forall i: nat | i < |s.nodes| ensures SameNode(s, s, i) {
      }
    } else {
      assert calls[0] in calls;
      var t := RunCall(s, calls[0]);
      RunCallRestores(s, calls[0]);
      RunRestores(t, calls[1..]);
      RestoredTrans(s, t, RunCalls(t, calls[1..]));
    }
  }

  /** The guard is exact: a call whose body has room returns to where it began if and only if the call
      itself has room. Otherwise the counter wraps to zero, and the end of the call closes the node it
      was folded into and leaves it. */
  lemma RestoresExactly(s: State, c: Call)
    requires Inv(s) && c.nameHash != 0 && Named(c.body)
    requires CallsHaveRoom(Begin(s, c.nameHash, c.aggregate, c.recursive, c.begin), c.body)
    ensures RunCall(s, c).current == s.current <==> HasRoom(s, c)
    ensures Restored(s, RunCall(s, c)) <==> HasRoom(s, c)
  {
    if HasRoom(s, c) {
      RunCallRestores(s, c);
    } else {
      BeginCases(s, c);
      RecurseKeepsInv(s);
      RunRestores(Recurse(s), c.body);
      WrapLeaves(s, RunCalls(Recurse(s), c.body), c.end);
    }
  }

  lemma WrapLeaves(s: State, t: State, end: nat)
    requires Inv(s) && s.current != 0 && s.nodes[s.current].recurseDepth + 1 >= WORD16
    requires Inv(t) && Restored(Recurse(s), t)
    ensures t.current != 0 && End(t, end).current != s.current
  {
    assert DepthRight(s, s.current) && SameNode(Recurse(s), t, s.current);
  }

  /** Samples that are not recursive always have room, however deep they nest. */
  lemma {:induction false} PlainCallsHaveRoom(s: State, calls: seq<Call>)
    requires Plain(calls)
    ensures CallsHaveRoom(s, calls)
    decreases calls
  {
    if calls != [] {
      var c := calls[0];
      assert c in calls;
      if Inv(s) {
        PlainCallsHaveRoom(Begin(s, c.nameHash, c.aggregate, c.recursive, c.begin), c.body);
      }
      PlainCallsHaveRoom(RunCall(s, c), calls[1..]);
    }
  }

  ghost predicate Plain(calls: seq<Call>) {
    forall c :: c in calls ==> !c.recursive && Plain(c.body)
  }

  lemma StartInv()
    ensures Inv(Start())
  {
    var nodes := Start().nodes;
    assert ChildrenRight(nodes, 0);
  }

  /** From the start: after any calls with room the thread is back at an empty root, and the trees sent
      are one for each outermost call, together holding every node ever allocated. */
  lemma WholeRun(calls: seq<Call>)
    requires Named(calls) && CallsHaveRoom(Start(), calls)
    ensures var t := RunCalls(Start(), calls);
      && Inv(t) && t.current == 0 && |t.nodes| == 1 && |t.sent| == |calls| && t.allocations == TotalSent(t.sent)
  {
    StartInv();
    RunRestores(Start(), calls);
  }

  // ---------------------------------------------------------------------------------------------
  // A run without room
  // ---------------------------------------------------------------------------------------------

  /** `n` calls of sample 1, each within the one before, to be folded into one another. */
  function Nest(n: nat): seq<Call> {
    if n == 0 then [] else [Call(1, false, true, 0, Nest(n - 1), 0)]
  }

  lemma {:induction false} NestNamed(n: nat)
    ensures Named(Nest(n))
  {
    if n > 0 {
      NestNamed(n - 1);
    }
  }

  /** Sample 1, open below the root. */
  ghost predicate FirstOpen(s: State) {
    Inv(s) && s.current != 0 && s.nodes[s.current].parent == 0 && s.nodes[s.current].nameHash == 1
  }

  /** The outermost call of a nest folds into the open sample. */
  lemma NestFolds(s: State, n: nat)
    requires FirstOpen(s) && n > 0
    ensures FirstOpen(Recurse(s)) && Recurse(s).current == s.current
    ensures HasRoom(s, Nest(n)[0]) <==> s.nodes[s.current].recurseDepth + 1 < WORD16
    ensures CallsHaveRoom(s, Nest(n)) <==> HasRoom(s, Nest(n)[0]) && CallsHaveRoom(Recurse(s), Nest(n - 1))
  {
    RecurseKeepsInv(s);
    OnlyCall(s, Nest(n)[0]);
  }

  lemma NestEnds(s: State, n: nat)
    requires FirstOpen(s) && n > 0
    ensures var t := RunCalls(Recurse(s), Nest(n - 1));
      RunCalls(s, Nest(n)) == if !Inv(t) || t.current == 0 then t else End(t, 0)
  {
    OnlyCall(s, Nest(n)[0]);
  }

  /** As long as the counter has room for all of them, calls folded into one another meet the guard. */
  lemma {:induction false} NestFits(s: State, n: nat)
    requires FirstOpen(s) && s.nodes[s.current].recurseDepth + n < WORD16
    ensures CallsHaveRoom(s, Nest(n))
    decreases n
  {
    if n > 0 {
      NestFolds(s, n);
      NestFits(Recurse(s), n - 1);
    }
  }

  /** With one too many, the innermost wraps the counter, and its end leaves the sample. */
  lemma {:induction false} NestWraps(s: State, n: nat)
    requires FirstOpen(s) && n > 0 && s.nodes[s.current].recurseDepth + n == WORD16
    ensures !CallsHaveRoom(s, Nest(n)) && RunCalls(s, Nest(n)).current == 0
    decreases n
  {
    NestFolds(s, n);
    NestEnds(s, n);
    if n == 1 {
      LastNest(s, Nest(n - 1));
    } else {
      NestWraps(Recurse(s), n - 1);
    }
  }

  lemma LastNest(s: State, body: seq<Call>)
    requires FirstOpen(s) && s.nodes[s.current].recurseDepth == WORD16 - 1 && body == []
    ensures RunCalls(Recurse(s), body) == Recurse(s) && End(Recurse(s), 0).current == 0
  {
  }

  lemma OnlyCall(s: State, c: Call)
    ensures RunCalls(s, [c]) == RunCall(s, c)
    ensures CallsHaveRoom(s, [c]) == CallHasRoom(s, c)
  {
    assert [c][1..] == [];
  }

  /** From the start of a thread: 65535 calls folded into an open sample leave it open; one more, and
      the tree is sent while the sample is open. */
  lemma TooDeep(n: nat)
    requires n <= WORD16
    ensures var s := Begin(Start(), 1, false, false, 0);
      && s.current == 1 && Named(Nest(n))
      && (CallsHaveRoom(s, Nest(n)) <==> n < WORD16)
      && (RunCalls(s, Nest(n)).current == s.current <==> n < WORD16)
  {
    var s := Begin(Start(), 1, false, false, 0);
    StartInv();
    BeginKeepsInv(Start(), 1, false, false, 0);
    NestNamed(n);
    if n < WORD16 {
      NestFits(s, n);
      RunRestores(s, Nest(n));
    } else {
      NestWraps(s, n);
    }
  }

  // ---------------------------------------------------------------------------------------------
  // A sent tree holds exactly its nodes
  // ---------------------------------------------------------------------------------------------

  lemma Split(s: seq<nat>)
    requires s != []
    ensures s[0] in s && forall c :: c in s[1..] ==> c in s
  {
  }

  /** The nodes of a subtree, each before its children. */
  ghost function Preorder(nodes: seq<Info>, i: nat): seq<nat>
    requires Shape(nodes) && i < |nodes|
    decreases |nodes| - i, 1
  {
    assert ChildrenRight(nodes, i);
    [i] + PreorderOf(nodes, i, nodes[i].children)
  }

  ghost function PreorderOf(nodes: seq<Info>, i: nat, children: seq<nat>): seq<nat>
    requires Shape(nodes) && forall c :: c in children ==> i < c < |nodes|
    decreases |nodes| - i, 0, |children|
  {
    if children == [] then []
    else
      Split(children);
      Preorder(nodes, children[0]) + PreorderOf(nodes, i, children[1..])
  }

  ghost predicate SomeAncestor(nodes: seq<Info>, tops: seq<nat>, x: nat) {
    exists c :: c in tops && IsAncestor(nodes, c, x)
  }

  lemma {:induction false} AncestorTrans(nodes: seq<Info>, a: nat, b: nat, x: nat)
    requires IsAncestor(nodes, a, b) && IsAncestor(nodes, b, x)
    ensures IsAncestor(nodes, a, x)
    decreases x
  {
    if b != x {
      AncestorTrans(nodes, a, b, nodes[x].parent);
    }
  }

  /** Below a node other than itself means below one of its children. */
  lemma {:induction false} BelowAChild(nodes: seq<Info>, i: nat, x: nat)
    requires Shape(nodes) && i < |nodes| && x < |nodes|
    ensures IsAncestor(nodes, i, x) <==> i == x || SomeAncestor(nodes, nodes[i].children, x)
    decreases x
  {
    assert ChildrenRight(nodes, i);
    if IsAncestor(nodes, i, x) && i != x {
      if nodes[x].parent == i {
        assert IsAncestor(nodes, x, x);
      } else {
        BelowAChild(nodes, i, nodes[x].parent);
        var c :| c in nodes[i].children && IsAncestor(nodes, c, nodes[x].parent);
        assert IsAncestor(nodes, c, x);
      }
    }
    if SomeAncestor(nodes, nodes[i].children, x) {
      var c :| c in nodes[i].children && IsAncestor(nodes, c, x);
      assert IsAncestor(nodes, i, i);
      assert IsAncestor(nodes, i, c);
      AncestorTrans(nodes, i, c, x);
    }
  }

  lemma {:induction false} PreorderMembers(nodes: seq<Info>, i: nat, x: nat)
    requires Shape(nodes) && i < |nodes|
    ensures x in Preorder(nodes, i) <==> x < |nodes| && IsAncestor(nodes, i, x)
    decreases |nodes| - i, 1
  {
    assert ChildrenRight(nodes, i);
    PreorderOfMembers(nodes, i, nodes[i].children, x);
    if x < |nodes| {
      BelowAChild(nodes, i, x);
    }
  }

  lemma {:induction false} PreorderOfMembers(nodes: seq<Info>, i: nat, children: seq<nat>, x: nat)
    requires Shape(nodes) && forall c :: c in children ==> i < c < |nodes|
    ensures x in PreorderOf(nodes, i, children) <==> x < |nodes| && SomeAncestor(nodes, children, x)
    decreases |nodes| - i, 0, |children|
  {
    if children != [] {
      Split(children);
      PreorderMembers(nodes, children[0], x);
      PreorderOfMembers(nodes, i, children[1..], x);
      assert SomeAncestor(nodes, children, x) <==>
        IsAncestor(nodes, children[0], x) || SomeAncestor(nodes, children[1..], x) by {
        if SomeAncestor(nodes, children, x) {
          var c :| c in children && IsAncestor(nodes, c, x);
          assert c == children[0] || c in children[1..];
        }
        if SomeAncestor(nodes, children[1..], x) {
          var c :| c in children[1..] && IsAncestor(nodes, c, x);
          assert c in children;
        }
      }
    }
  }

  ghost predicate NoDuplicates(s: seq<nat>) {
    forall j, k :: 0 <= j < k < |s| ==> s[j] != s[k]
  }

  /** Siblings have nothing below them in common. */
  lemma {:induction false} SiblingsApart(nodes: seq<Info>, a: nat, b: nat, x: nat)
    requires Shape(nodes) && 0 < a < b < |nodes| && nodes[a].parent == nodes[b].parent
    ensures !(IsAncestor(nodes, a, x) && IsAncestor(nodes, b, x))
    decreases x
  {
    if IsAncestor(nodes, a, x) && IsAncestor(nodes, b, x) {
      AncestorsBefore(nodes, b, x);
      if x == b {
        AncestorsBefore(nodes, a, nodes[b].parent);
      } else {
        SiblingsApart(nodes, a, b, nodes[x].parent);
      }
    }
  }

  lemma {:induction false} PreorderOnce(nodes: seq<Info>, i: nat)
    requires Shape(nodes) && i < |nodes|
    ensures NoDuplicates(Preorder(nodes, i))
    decreases |nodes| - i, 1
  {
    assert ChildrenRight(nodes, i);
    var rest := PreorderOf(nodes, i, nodes[i].children);
    PreorderOfOnce(nodes, i, nodes[i].children);
    PreorderOfMembers(nodes, i, nodes[i].children, i);
    if SomeAncestor(nodes, nodes[i].children, i) {
      var c :| c in nodes[i].children && IsAncestor(nodes, c, i);
      AncestorsBefore(nodes, c, i);
    }
    forall j | 0 <= j < |rest| ensures rest[j] != i {
      assert rest[j] in rest;
    }
  }

  lemma {:induction false} PreorderOfOnce(nodes: seq<Info>, i: nat, children: seq<nat>)
    requires Shape(nodes) && forall c :: c in children ==> i < c < |nodes| && nodes[c].parent == i
    requires forall j, k :: 0 <= j < k < |children| ==> children[j] < children[k]
    ensures NoDuplicates(PreorderOf(nodes, i, children))
    decreases |nodes| - i, 0, |children|
  {
    if children != [] {
      Split(children);
      var first, rest := Preorder(nodes, children[0]), PreorderOf(nodes, i, children[1..]);
      PreorderOnce(nodes, children[0]);
      PreorderOfOnce(nodes, i, children[1..]);
      forall x | x in first ensures x !in rest {
        PreorderMembers(nodes, children[0], x);
        PreorderOfMembers(nodes, i, children[1..], x);
        if SomeAncestor(nodes, children[1..], x) {
          var c :| c in children[1..] && IsAncestor(nodes, c, x);
          SiblingsApart(nodes, children[0], c, x);
        }
      }
      Disjoint(first, rest);
    }
  }

  lemma Disjoint(a: seq<nat>, b: seq<nat>)
    requires NoDuplicates(a) && NoDuplicates(b) && forall x :: x in a ==> x !in b
    ensures NoDuplicates(a + b)
  {
    var s := a + b;
    forall j, k | 0 <= j < k < |s| ensures s[j] != s[k] {
      if j < |a| <= k {
        assert a[j] in a && b[k - |a|] in b;
      }
    }
  }

  lemma {:induction false} BelowFirst(nodes: seq<Info>, x: nat)
    requires Shape(nodes) && 0 < x < |nodes|
    ensures IsAncestor(nodes, 1, x)
    decreases x
  {
    if x > 1 {
      BelowFirst(nodes, nodes[x].parent);
    }
  }

  /** A sent tree holds exactly the nodes allocated since the last return to the root, each once. */
  lemma SentTreeComplete(nodes: seq<Info>)
    requires SentRight(nodes)
    ensures var all := Preorder(nodes, 1);
      && NoDuplicates(all) && (forall x :: x in all <==> 0 < x < |nodes|) && |all| == |nodes| - 1
  {
    var all := Preorder(nodes, 1);
    PreorderOnce(nodes, 1);
    forall x ensures x in all <==> 0 < x < |nodes| {
      if x >= 0 {
        PreorderMembers(nodes, 1, x);
        if IsAncestor(nodes, 1, x) {
          AncestorsBefore(nodes, 1, x);
        }
        if 0 < x < |nodes| {
          BelowFirst(nodes, x);
        }
      }
    }
    CountMembers(all, 1, |nodes|);
  }

  lemma {:induction false} CountMembers(s: seq<nat>, low: nat, high: nat)
    requires low <= high && NoDuplicates(s) && forall x :: x in s <==> low <= x < high
    ensures |s| == high - low
  {
    DistinctCount(s);
    RangeCount(low, high);
    assert Members(s) == Range(low, high);
  }

  function Range(low: nat, high: nat): (r: set<nat>)
    requires low <= high
    ensures forall x :: x in r <==> low <= x < high
    decreases high - low
  {
    if low == high then {} else {low} + Range(low + 1, high)
  }

  lemma {:induction false} RangeCount(low: nat, high: nat)
    requires low <= high
    ensures |Range(low, high)| == high - low
    decreases high - low
  {
    if low < high {
      RangeCount(low + 1, high);
    }
  }

  ghost function Members(s: seq<nat>): set<nat> {
    set x | x in s
  }

  lemma {:induction false} DistinctCount(s: seq<nat>)
    requires NoDuplicates(s)
    ensures |Members(s)| == |s|
  {
    if s == [] {
      assert Members(s) == {};
    } else {
      DistinctCount(s[1..]);
      assert forall x :: x in s <==> x == s[0] || x in s[1..];
      assert Members(s) == {s[0]} + Members(s[1..]);
      assert s[0] !in s[1..];
    }
  }
}
