/** What the reported times of Remotery's samples are, over every run: the time their calls took, and
    how much more than that is counted. */
module SampleLedger {
  import opened Samples
  import opened SampleRuns
  import opened SampleTimes

  // ---------------------------------------------------------------------------------------------
  // A clock beside the program
  // ---------------------------------------------------------------------------------------------

  /** For each node, how long the calls closed on it took, and how much was counted on top. */
  datatype Account = Account(took: seq<int>, over: seq<int>)

  /** When each live node was last opened, the accounts of the live nodes, and those of each sent tree. */
  datatype Ledger = Ledger(since: seq<nat>, live: Account, sent: seq<Account>)

  function StartLedger(): Ledger {
    Ledger([0], Account([0], [0]), [])
  }

  predicate Fits(l: Ledger, s: State) {
    |l.since| == |l.live.took| == |l.live.over| == |s.nodes|
  }

  /** A sample begun, leading from `s` to `t`: a new open node, or an old one since again. A call folded
      into the open node is not noted. */
  function NoteBegin(l: Ledger, s: State, t: State, now: nat): Ledger
    requires Fits(l, s)
  {
    if |t.nodes| > |s.nodes| then
      Ledger(l.since + [now], Account(l.live.took + [0], l.live.over + [0]), l.sent)
    else if t.current != s.current && t.current < |s.nodes| then l.(since := l.since[t.current := now])
    else l
  }

  /** What closing a node counts on top: of one that was recursed into, the time from its start stamp to
      when it was last opened. That is none unless it was returned to as well. */
  function Overcount(n: Info, since: nat): int {
    if n.maxRecurseDepth > 0 then since - n.usStart else 0
  }

  /** The open node is closed: the call took the time since it was opened. Back at the root the accounts
      go with the tree sent. */
  function NoteEnd(l: Ledger, s: State, now: nat): Ledger
    requires Fits(l, s) && 0 < s.current < |s.nodes|
  {
    var n, a := s.current, l.live;
    var live := Account(a.took[n := a.took[n] + (now - l.since[n])], a.over[n := a.over[n] + Overcount(s.nodes[n], l.since[n])]);
    if s.nodes[n].parent == 0 then Ledger([0], Account([0], [0]), l.sent + [live]) else l.(live := live)
  }

  ghost function StepLedger(l: Ledger, s: State, step: Step): Ledger {
    if !Inv(s) || !Fits(l, s) then l
    else
      match step
      case BeginStep(_, _, _, at) => NoteBegin(l, s, RunStep(s, step), at)
      case EndStep(at) => if s.current == 0 || s.nodes[s.current].recurseDepth > 0 then l else NoteEnd(l, s, at)
  }

  ghost function RunLedger(l: Ledger, s: State, steps: seq<Step>): Ledger
    decreases |steps|
  {
    if steps == [] then l else RunLedger(StepLedger(l, s, steps[0]), RunStep(s, steps[0]), steps[1..])
  }

  // ---------------------------------------------------------------------------------------------
  // Sums over children
  // ---------------------------------------------------------------------------------------------

  function Total(values: seq<int>, children: seq<nat>): int {
    if children == [] then 0
    else (if children[0] < |values| then values[children[0]] else 0) + Total(values, children[1..])
  }

  lemma {:induction false} TotalSame(a: seq<int>, b: seq<int>, children: seq<nat>)
    requires forall c :: c in children ==> c < |a| && c < |b| && a[c] == b[c]
    ensures Total(a, children) == Total(b, children)
  {
    if children != [] {
      Split(children);
      TotalSame(a, b, children[1..]);
    }
  }

  lemma {:induction false} TotalAppend(values: seq<int>, children: seq<nat>, c: nat)
    requires c < |values|
    ensures Total(values, children + [c]) == Total(values, children) + values[c]
  {
    if children != [] {
      assert (children + [c])[1..] == children[1..] + [c];
      TotalAppend(values, children[1..], c);
    } else {
      assert children + [c] == [c] && [c][1..] == [];
    }
  }

  lemma {:induction false} TotalBump(a: seq<int>, children: seq<nat>, n: nat, more: int)
    requires n < |a| && forall j, k :: 0 <= j < k < |children| ==> children[j] < children[k]
    ensures Total(a[n := a[n] + more], children) == Total(a, children) + if n in children then more else 0
  {
    if children != [] {
      TotalBump(a, children[1..], n, more);
      assert n in children <==> n == children[0] || n in children[1..];
      assert forall c :: c in children[1..] ==> c > children[0];
    }
  }

  lemma {:induction false} SumIsTotal(nodes: seq<Info>, a: Account, children: seq<nat>)
    requires |a.took| == |a.over| == |nodes|
    requires forall c :: c in children ==> 0 < c < |nodes| && nodes[c].usLength == a.took[c] + a.over[c]
    ensures Sum(nodes, children) == Total(a.took, children) + Total(a.over, children)
  {
    if children != [] {
      Split(children);
      SumIsTotal(nodes, a, children[1..]);
    }
  }

  // ---------------------------------------------------------------------------------------------
  // What is reported is what was taken and what was counted on top
  // ---------------------------------------------------------------------------------------------

  /** A node's length, and the stamp its next closing will start from if it is not recursed into. */
  predicate NodeNoted(n: Info, since: nat, took: int, over: int, now: nat) {
    && n.usLength == took + over && over >= 0 && n.usStart <= since <= now
    && (n.maxRecurseDepth == 0 ==> since == if n.callCount > 1 then n.usEnd else n.usStart)
    && (!n.reentered ==> since == n.usStart)
    && (n.recurseDepth > 0 ==> n.maxRecurseDepth > 0)
  }

  predicate NotedAt(l: Ledger, s: State, now: nat, i: nat)
    requires Fits(l, s) && i < |s.nodes|
  {
    NodeNoted(s.nodes[i], l.since[i], l.live.took[i], l.live.over[i], now)
  }

  predicate LengthIs(nodes: seq<Info>, a: Account, i: nat)
    requires i < |nodes| == |a.took| == |a.over|
  {
    nodes[i].usLength == a.took[i] + a.over[i] && a.over[i] >= 0
  }

  ghost predicate Agrees(nodes: seq<Info>, a: Account) {
    |nodes| == |a.took| == |a.over| && forall i: nat :: 0 < i < |nodes| ==> LengthIs(nodes, a, i)
  }

  ghost predicate Noted(l: Ledger, s: State, now: nat) {
    && Fits(l, s) && |l.sent| == |s.sent|
    && (forall i: nat :: 0 < i < |s.nodes| ==> NotedAt(l, s, now, i))
    && (forall j: nat :: j < |s.sent| ==> Agrees(s.sent[j], l.sent[j]))
  }

  /** Both returned to by an aggregate call and recursed into. */
  predicate Mixed(n: Info) {
    n.reentered && n.maxRecurseDepth > 0
  }

  /** Only mixed nodes are overcounted, never by less than nothing: by the time from the start stamp to
      the last opening. */
  lemma OvercountsMixed(l: Ledger, s: State, now: nat, i: nat)
    requires Noted(l, s, now) && 0 < i < |s.nodes|
    ensures var n := s.nodes[i];
      Overcount(n, l.since[i]) >= 0 && (Overcount(n, l.since[i]) > 0 <==> Mixed(n) && n.usStart < l.since[i])
  {
    assert NotedAt(l, s, now, i);
  }

  lemma BeginNoted(l: Ledger, s: State, nameHash: nat, aggregate: bool, recursive: bool, before: nat, now: nat)
    requires Inv(s) && Noted(l, s, before) && before <= now && nameHash != 0
    ensures var t := Begin(s, nameHash, aggregate, recursive, now); Noted(NoteBegin(l, s, t, now), t, now)
  {
    var t := Begin(s, nameHash, aggregate, recursive, now);
    var m := NoteBegin(l, s, t, now);
    assert ChildrenRight(s.nodes, s.current);
    forall i: nat | 0 < i < |t.nodes| ensures NotedAt(m, t, now, i) {
      assert i < |s.nodes| ==> NotedAt(l, s, before, i);
    }
  }

  lemma EndNoted(l: Ledger, s: State, before: nat, now: nat)
    requires Inv(s) && Noted(l, s, before) && before <= now && s.current != 0 && s.nodes[s.current].recurseDepth == 0
    ensures Noted(NoteEnd(l, s, now), End(s, now), now)
  {
    var t, m := End(s, now), NoteEnd(l, s, now);
    var closed := Close(s, now).nodes;
    var n := s.current;
    var a := Account(l.live.took[n := l.live.took[n] + (now - l.since[n])],
                     l.live.over[n := l.live.over[n] + Overcount(s.nodes[n], l.since[n])]);
    assert NotedAt(l, s, before, n);
    forall i: nat | 0 < i < |closed| ensures NodeNoted(closed[i], l.since[i], a.took[i], a.over[i], now) {
      assert NotedAt(l, s, before, i);
    }
    if s.nodes[n].parent == 0 {
      forall i: nat | 0 < i < |closed| ensures LengthIs(closed, a, i) {
        assert NodeNoted(closed[i], l.since[i], a.took[i], a.over[i], now);
      }
      forall j: nat | j < |t.sent| ensures Agrees(t.sent[j], m.sent[j]) {
        assert j < |s.sent| ==> Agrees(s.sent[j], l.sent[j]);
      }
    } else {
      forall i: nat | 0 < i < |t.nodes| ensures NotedAt(m, t, now, i) {
        assert NodeNoted(closed[i], l.since[i], a.took[i], a.over[i], now);
      }
    }
  }

  // ---------------------------------------------------------------------------------------------
  // The calls of a node's children fit into its own
  // ---------------------------------------------------------------------------------------------

  /** A closed node's children took no longer than it did; an open one's no longer than it did and the
      time since it was opened, up to when its open child was opened. */
  predicate NestsAt(l: Ledger, s: State, now: nat, i: nat)
    requires Fits(l, s) && i < |s.nodes|
  {
    var p := s.nodes[i].parent;
    && l.since[i] <= now
    && (!OnPath(s, i) ==> InnerTime(l, s, i) <= l.live.took[i])
    && (i == s.current ==> InnerTime(l, s, i) + l.since[i] <= l.live.took[i] + now)
    && (OnPath(s, i) && 0 < p < |s.nodes| ==> InnerTime(l, s, p) + l.since[p] <= l.live.took[p] + l.since[i])
  }

  /** How long the calls closed on a node's children took. */
  function InnerTime(l: Ledger, s: State, i: nat): int
    requires i < |s.nodes|
  {
    Total(l.live.took, s.nodes[i].children)
  }

  ghost predicate NestedRight(nodes: seq<Info>, a: Account) {
    |nodes| == |a.took| && forall i: nat :: 0 < i < |nodes| ==> Total(a.took, nodes[i].children) <= a.took[i]
  }

  ghost predicate Nested(l: Ledger, s: State, now: nat) {
    && Fits(l, s) && |l.sent| == |s.sent|
    && (forall i: nat :: 0 < i < |s.nodes| ==> NestsAt(l, s, now, i))
    && (forall j: nat :: j < |s.sent| ==> NestedRight(s.sent[j], l.sent[j]))
  }

  lemma Later(l: Ledger, s: State, before: nat, now: nat)
    requires Nested(l, s, before) && before <= now
    ensures Nested(l, s, now)
  {
    forall i: nat | 0 < i < |s.nodes| ensures NestsAt(l, s, now, i) {
      assert NestsAt(l, s, before, i);
    }
  }

  lemma ReenterNested(l: Ledger, s: State, k: nat, now: nat)
    requires Inv(s) && Nested(l, s, now) && k in s.nodes[s.current].children && k < |s.nodes|
    ensures Nested(l.(since := l.since[k := now]), Reenter(s, k, now), now)
  {
    var t, m := Reenter(s, k, now), l.(since := l.since[k := now]);
    assert ChildrenRight(s.nodes, s.current);
    forall i: nat | 0 < i < |t.nodes| ensures NestsAt(m, t, now, i) {
      assert NestsAt(l, s, now, i);
      SameAncestors(s.nodes, t.nodes, i, s.current);
      if IsAncestor(s.nodes, k, s.current) {
        AncestorsBefore(s.nodes, k, s.current);
      }
      if s.current != 0 {
        assert NestsAt(l, s, now, s.current);
      }
      if OnPath(t, i) && i != k && 0 < s.nodes[i].parent {
        assert s.nodes[i].parent < i;
        AncestorsBefore(t.nodes, i, s.current);
      }
    }
  }

  lemma RecurseNested(l: Ledger, s: State, now: nat)
    requires Inv(s) && Nested(l, s, now) && s.current != 0
    ensures Nested(l, Recurse(s), now)
  {
    var t := Recurse(s);
    forall i: nat | 0 < i < |t.nodes| ensures NestsAt(l, t, now, i) {
      assert NestsAt(l, s, now, i);
      SameAncestors(s.nodes, t.nodes, i, s.current);
    }
  }

  lemma ExtendNested(l: Ledger, s: State, nameHash: nat, now: nat)
    requires Inv(s) && Nested(l, s, now)
    ensures var t := Extend(s, nameHash, now); Nested(NoteBegin(l, s, t, now), t, now)
  {
    var t := Extend(s, nameHash, now);
    var m := NoteBegin(l, s, t, now);
    forall i: nat | i < |s.nodes| ensures InnerTime(m, t, i) == InnerTime(l, s, i) {
      assert ChildrenRight(s.nodes, i);
      TotalSame(l.live.took, m.live.took, s.nodes[i].children);
      if i == s.current {
        TotalAppend(m.live.took, s.nodes[i].children, |s.nodes|);
      }
    }
    if s.current != 0 {
      assert NestsAt(l, s, now, s.current);
    }
    forall i: nat | 0 < i < |t.nodes| ensures NestsAt(m, t, now, i) {
      if i < |s.nodes| {
        assert NestsAt(l, s, now, i);
        AncestorsExtend(s.nodes, t.nodes, i, s.current);
      }
    }
  }

  lemma BeginNested(l: Ledger, s: State, nameHash: nat, aggregate: bool, recursive: bool, now: nat)
    requires Inv(s) && Nested(l, s, now) && nameHash != 0
    ensures var t := Begin(s, nameHash, aggregate, recursive, now); Nested(NoteBegin(l, s, t, now), t, now)
  {
    assert ChildrenRight(s.nodes, s.current);
    var sibling := FindChild(s.nodes, s.nodes[s.current].children, nameHash);
    if aggregate && sibling.Some? {
      ReenterNested(l, s, sibling.value, now);
    } else if recursive && s.nodes[s.current].nameHash == nameHash {
      RecurseNested(l, s, now);
    } else {
      ExtendNested(l, s, nameHash, now);
    }
  }

  /** Closing a node adds the same time to it and to its parent's children. */
  lemma CloseInner(l: Ledger, s: State, now: nat, i: nat)
    requires Inv(s) && Fits(l, s) && s.current != 0 && 0 < i < |s.nodes|
    ensures var n := s.current;
      Total(l.live.took[n := l.live.took[n] + (now - l.since[n])], s.nodes[i].children) ==
        InnerTime(l, s, i) + if i == s.nodes[n].parent then now - l.since[n] else 0
  {
    assert ChildrenRight(s.nodes, i);
    TotalBump(l.live.took, s.nodes[i].children, s.current, now - l.since[s.current]);
  }

  lemma EndNested(l: Ledger, s: State, now: nat)
    requires Inv(s) && Nested(l, s, now) && s.current != 0 && s.nodes[s.current].recurseDepth == 0
    ensures Nested(NoteEnd(l, s, now), End(s, now), now)
  {
    if s.nodes[s.current].parent == 0 {
      LastEndNested(l, s, now);
    } else {
      InnerEndNested(l, s, now);
    }
  }

  /** The tree is sent. */
  lemma LastEndNested(l: Ledger, s: State, now: nat)
    requires Inv(s) && Nested(l, s, now) && s.current != 0 && s.nodes[s.current].recurseDepth == 0
    requires s.nodes[s.current].parent == 0
    ensures Nested(NoteEnd(l, s, now), End(s, now), now)
  {
    var t, m := End(s, now), NoteEnd(l, s, now);
    var closed := Close(s, now).nodes;
    var n := s.current;
    var took := l.live.took[n := l.live.took[n] + (now - l.since[n])];
    assert NestsAt(l, s, now, n);
    forall i: nat | 0 < i < |s.nodes| ensures Total(took, closed[i].children) <= took[i] {
      assert NestsAt(l, s, now, i);
      CloseInner(l, s, now, i);
      if IsAncestor(s.nodes, i, 0) {
        AncestorsBefore(s.nodes, i, 0);
      }
    }
    forall j: nat | j < |t.sent| ensures NestedRight(t.sent[j], m.sent[j]) {
      assert j < |s.sent| ==> NestedRight(s.sent[j], l.sent[j]);
    }
  }

  /** The parent is the open node again. */
  lemma InnerEndNested(l: Ledger, s: State, now: nat)
    requires Inv(s) && Nested(l, s, now) && s.current != 0 && s.nodes[s.current].recurseDepth == 0
    requires s.nodes[s.current].parent != 0
    ensures Nested(NoteEnd(l, s, now), End(s, now), now)
  {
    var t, m := End(s, now), NoteEnd(l, s, now);
    var n, p := s.current, s.nodes[s.current].parent;
    assert NestsAt(l, s, now, n);
    forall i: nat | 0 < i < |s.nodes| ensures NestsAt(m, t, now, i) {
      assert NestsAt(l, s, now, i);
      CloseInner(l, s, now, i);
      SameAncestors(s.nodes, t.nodes, i, p);
      if IsAncestor(s.nodes, n, p) {
        AncestorsBefore(s.nodes, n, p);
      }
      if IsAncestor(s.nodes, i, p) {
        AncestorsBefore(s.nodes, i, p);
      }
      if 0 < s.nodes[i].parent {
        CloseInner(l, s, now, s.nodes[i].parent);
      }
    }
  }

  // ---------------------------------------------------------------------------------------------
  // Whole runs
  // ---------------------------------------------------------------------------------------------

  ghost predicate Kept(l: Ledger, s: State, now: nat) {
    Inv(s) && AllSampledRight(s) && Noted(l, s, now) && Nested(l, s, now)
  }

  /** A recursive call folded into the open node ends. */
  lemma FoldedEndKept(l: Ledger, s: State, before: nat, now: nat)
    requires Noted(l, s, before) && Nested(l, s, before) && before <= now && Inv(s)
    requires s.current != 0 && s.nodes[s.current].recurseDepth > 0
    ensures Noted(l, End(s, now), now) && Nested(l, End(s, now), now)
  {
    var t := End(s, now);
    Later(l, s, before, now);
    forall i: nat | 0 < i < |t.nodes| ensures NotedAt(l, t, now, i) && NestsAt(l, t, now, i) {
      assert NotedAt(l, s, before, i) && NestsAt(l, s, now, i);
      SameAncestors(s.nodes, t.nodes, i, s.current);
    }
  }

  lemma IdleKept(l: Ledger, s: State, before: nat, now: nat)
    requires Noted(l, s, before) && before <= now
    ensures Noted(l, s, now)
  {
    forall i: nat | 0 < i < |s.nodes| ensures NotedAt(l, s, now, i) {
      assert NotedAt(l, s, before, i);
    }
  }

  lemma StepKept(l: Ledger, s: State, step: Step, now: nat)
    requires Kept(l, s, now) && now <= step.at && (step.BeginStep? ==> step.nameHash != 0)
    ensures Kept(StepLedger(l, s, step), RunStep(s, step), step.at)
  {
    StepInv(s, step);
    StepSampled(s, step);
    Later(l, s, now, step.at);
    match step
    case BeginStep(nameHash, aggregate, recursive, at) =>
      BeginNoted(l, s, nameHash, aggregate, recursive, now, at);
      BeginNested(l, s, nameHash, aggregate, recursive, at);
    case EndStep(at) =>
      if s.current == 0 {
        IdleKept(l, s, now, at);
      } else if s.nodes[s.current].recurseDepth > 0 {
        FoldedEndKept(l, s, now, at);
      } else {
        EndNoted(l, s, now, at);
        EndNested(l, s, at);
      }
  }

  lemma {:induction false} RunKept(l: Ledger, s: State, steps: seq<Step>, now: nat)
    requires Kept(l, s, now) && NamedSteps(steps) && Ordered(steps, now)
    ensures Kept(RunLedger(l, s, steps), RunSteps(s, steps), Clock(steps, now))
    decreases |steps|
  {
    if steps != [] {
      var step, rest := steps[0], steps[1..];
      assert step in steps;
      StepKept(l, s, step, now);
      RunKept(StepLedger(l, s, step), RunStep(s, step), rest, step.at);
      assert Clock(steps, now) == Clock(rest, step.at);
    }
  }

  /** A closed node's times: its length is what its calls took and what was counted on top, what it
      sampled is the same of its children, and its calls took at least as long as theirs. So it has
      sampled more than its length exactly if more was counted on top of its children than on top of
      itself and in the time its calls did not spend in them. */
  predicate Settled(nodes: seq<Info>, a: Account, i: nat)
    requires i < |nodes| == |a.took| == |a.over|
  {
    var n := nodes[i];
    var self := a.took[i] - Total(a.took, n.children);
    && n.usLength == a.took[i] + a.over[i] && a.over[i] >= 0
    && n.usSampledLength == Total(a.took, n.children) + Total(a.over, n.children)
    && self >= 0
    && (n.usSampledLength > n.usLength <==> Total(a.over, n.children) > self + a.over[i])
  }

  ghost predicate AllSettled(nodes: seq<Info>, a: Account) {
    |nodes| == |a.took| == |a.over| && forall i: nat :: 0 < i < |nodes| ==> Settled(nodes, a, i)
  }

  /** The closed nodes of a live tree. */
  ghost predicate ClosedSettled(l: Ledger, s: State) {
    Fits(l, s) && forall i: nat :: 0 < i < |s.nodes| && !OnPath(s, i) ==> Settled(s.nodes, l.live, i)
  }

  lemma NodeSettles(nodes: seq<Info>, a: Account, i: nat)
    requires Shape(nodes) && SampledRight(nodes) && Agrees(nodes, a) && 0 < i < |nodes|
    requires Total(a.took, nodes[i].children) <= a.took[i]
    ensures Settled(nodes, a, i)
  {
    assert NodeSampledRight(nodes, i) && ChildrenRight(nodes, i) && LengthIs(nodes, a, i);
    forall c | c in nodes[i].children ensures 0 < c < |nodes| && nodes[c].usLength == a.took[c] + a.over[c] {
      assert LengthIs(nodes, a, c);
    }
    SumIsTotal(nodes, a, nodes[i].children);
  }

  lemma KeptSettles(l: Ledger, s: State, now: nat)
    requires Kept(l, s, now)
    ensures ClosedSettled(l, s) && |l.sent| == |s.sent| && forall j: nat :: j < |s.sent| ==> AllSettled(s.sent[j], l.sent[j])
  {
    forall i: nat | 0 < i < |s.nodes| ensures LengthIs(s.nodes, l.live, i) {
      assert NotedAt(l, s, now, i);
    }
    forall i: nat | 0 < i < |s.nodes| && !OnPath(s, i) ensures Settled(s.nodes, l.live, i) {
      assert NestsAt(l, s, now, i);
      NodeSettles(s.nodes, l.live, i);
    }
    forall j: nat | j < |s.sent| ensures AllSettled(s.sent[j], l.sent[j]) {
      assert Agrees(s.sent[j], l.sent[j]) && NestedRight(s.sent[j], l.sent[j]) && s.sent[j] in s.sent;
      forall i: nat | 0 < i < |s.sent[j]| ensures Settled(s.sent[j], l.sent[j], i) {
        NodeSettles(s.sent[j], l.sent[j], i);
      }
    }
  }

  lemma StartKept(now: nat)
    ensures Kept(StartLedger(), Start(), now)
  {
    StartInv();
  }

  /** At every moment of every run from the start whose clock does not go back, whatever the flags and the
      counters, every closed node is settled, and so is every node of every tree sent. */
  lemma RunSettles(steps: seq<Step>, now: nat, k: nat)
    requires NamedSteps(steps) && Ordered(steps, now) && k <= |steps|
    ensures var s, l := RunSteps(Start(), steps[..k]), RunLedger(StartLedger(), Start(), steps[..k]);
      && Inv(s) && ClosedSettled(l, s)
      && |l.sent| == |s.sent| && forall j: nat :: j < |s.sent| ==> AllSettled(s.sent[j], l.sent[j])
  {
    StartKept(now);
    PrefixOrdered(steps, now, k);
    RunKept(StartLedger(), Start(), steps[..k], now);
    KeptSettles(RunLedger(StartLedger(), Start(), steps[..k]), RunSteps(Start(), steps[..k]), Clock(steps[..k], now));
  }

  lemma {:induction false} PrefixOrdered(steps: seq<Step>, now: nat, k: nat)
    requires Ordered(steps, now) && k <= |steps|
    ensures Ordered(steps[..k], now)
    decreases k
  {
    if k > 0 {
      assert steps[..k][0] == steps[0] && steps[..k][1..] == steps[1..][..k - 1];
      PrefixOrdered(steps[1..], steps[0].at, k - 1);
    }
  }

  // ---------------------------------------------------------------------------------------------
  // Runs that mix nothing
  // ---------------------------------------------------------------------------------------------

  /** The guard on beginning a sample: aggregation does not return to a node that was recursed into, and
      recursion does not fold into a node that was returned to. */
  predicate Unmixing(s: State, nameHash: nat, aggregate: bool, recursive: bool)
    requires s.current < |s.nodes|
  {
    var p := s.nodes[s.current];
    var sibling := FindChild(s.nodes, p.children, nameHash);
    if aggregate && sibling.Some? then s.nodes[sibling.value].maxRecurseDepth == 0
    else if recursive && p.nameHash == nameHash then !p.reentered
    else true
  }

  ghost predicate UnmixedRun(s: State, steps: seq<Step>)
    decreases |steps|
  {
    steps != [] ==> UnmixedStep(s, steps[0]) && UnmixedRun(RunStep(s, steps[0]), steps[1..])
  }

  ghost predicate UnmixedStep(s: State, step: Step) {
    Inv(s) && step.BeginStep? ==> Unmixing(s, step.nameHash, step.aggregate, step.recursive)
  }

  ghost predicate Zeros(values: seq<int>) {
    forall v :: v in values ==> v == 0
  }

  /** No node is mixed and nothing was counted on top. */
  ghost predicate Exact(l: Ledger, s: State) {
    && Inv(s) && Fits(l, s) && Zeros(l.live.over) && (forall a :: a in l.sent ==> Zeros(a.over))
    && (forall n :: n in s.nodes ==> !Mixed(n))
  }

  lemma BeginUnmixed(s: State, nameHash: nat, aggregate: bool, recursive: bool, now: nat)
    requires Inv(s) && Unmixing(s, nameHash, aggregate, recursive) && forall n :: n in s.nodes ==> !Mixed(n)
    ensures forall n :: n in Begin(s, nameHash, aggregate, recursive, now).nodes ==> !Mixed(n)
  {
    var t := Begin(s, nameHash, aggregate, recursive, now);
    forall n | n in t.nodes ensures !Mixed(n) {
      var i :| 0 <= i < |t.nodes| && t.nodes[i] == n;
      assert i < |s.nodes| ==> s.nodes[i] in s.nodes;
    }
  }

  lemma EndExact(l: Ledger, s: State, before: nat, now: nat)
    requires Exact(l, s) && Noted(l, s, before) && s.current != 0
    ensures forall n :: n in End(s, now).nodes ==> !Mixed(n)
    ensures l.live.over[s.current := l.live.over[s.current] + Overcount(s.nodes[s.current], l.since[s.current])] == l.live.over
  {
    var t, n := End(s, now), s.current;
    forall m | m in t.nodes ensures !Mixed(m) {
      var i :| 0 <= i < |t.nodes| && t.nodes[i] == m;
      assert s.nodes[i] in s.nodes;
    }
    OvercountsMixed(l, s, before, n);
    assert s.nodes[n] in s.nodes;
  }

  lemma StepExact(l: Ledger, s: State, step: Step, now: nat)
    requires Exact(l, s) && Noted(l, s, now) && UnmixedStep(s, step) && (step.BeginStep? ==> step.nameHash != 0)
    ensures Exact(StepLedger(l, s, step), RunStep(s, step))
  {
    StepInv(s, step);
    match step
    case BeginStep(nameHash, aggregate, recursive, at) => BeginUnmixed(s, nameHash, aggregate, recursive, at);
    case EndStep(at) =>
      if s.current != 0 {
        EndExact(l, s, now, at);
      }
  }

  lemma {:induction false} RunExact(l: Ledger, s: State, steps: seq<Step>, now: nat)
    requires Exact(l, s) && Kept(l, s, now) && NamedSteps(steps) && Ordered(steps, now) && UnmixedRun(s, steps)
    ensures Exact(RunLedger(l, s, steps), RunSteps(s, steps))
    decreases |steps|
  {
    if steps != [] {
      var step := steps[0];
      assert step in steps;
      StepExact(l, s, step, now);
      StepKept(l, s, step, now);
      RunExact(StepLedger(l, s, step), RunStep(s, step), steps[1..], step.at);
    }
  }

  lemma {:induction false} TotalZero(values: seq<int>, children: seq<nat>)
    requires Zeros(values)
    ensures Total(values, children) == 0
  {
    if children != [] {
      assert children[0] < |values| ==> values[children[0]] in values;
      TotalZero(values, children[1..]);
    }
  }

  /** No node's self time, its length less what it sampled, is negative, so serialising it clamps
      nothing. */
  ghost predicate SelfTimeRight(nodes: seq<Info>) {
    forall i: nat :: 0 < i < |nodes| ==> nodes[i].usSampledLength <= nodes[i].usLength
  }

  lemma ExactSettled(nodes: seq<Info>, a: Account, i: nat)
    requires i < |nodes| == |a.took| == |a.over| && Zeros(a.over) && Settled(nodes, a, i)
    ensures nodes[i].usLength == a.took[i] && nodes[i].usSampledLength <= nodes[i].usLength
  {
    assert a.over[i] in a.over;
    TotalZero(a.over, nodes[i].children);
  }

  /** In such a run in which no node is both aggregated into and recursed into, a closed node's length is
      what its calls took, and it has sampled no more. */
  lemma RunWithin(steps: seq<Step>, now: nat, k: nat)
    requires NamedSteps(steps) && Ordered(steps, now) && k <= |steps|
    requires UnmixedRun(Start(), steps[..k])
    ensures var s, l := RunSteps(Start(), steps[..k]), RunLedger(StartLedger(), Start(), steps[..k]);
      && Inv(s) && Fits(l, s)
      && (forall i: nat :: 0 < i < |s.nodes| && !OnPath(s, i) ==>
        s.nodes[i].usLength == l.live.took[i] && s.nodes[i].usSampledLength <= s.nodes[i].usLength)
      && forall tree :: tree in s.sent ==> SelfTimeRight(tree)
  {
    var s, l := RunSteps(Start(), steps[..k]), RunLedger(StartLedger(), Start(), steps[..k]);
    StartInv();
    RunSettles(steps, now, k);
    StartKept(now);
    PrefixOrdered(steps, now, k);
    RunExact(StartLedger(), Start(), steps[..k], now);
    forall i: nat | 0 < i < |s.nodes| && !OnPath(s, i)
      ensures s.nodes[i].usLength == l.live.took[i] && s.nodes[i].usSampledLength <= s.nodes[i].usLength
    {
      ExactSettled(s.nodes, l.live, i);
    }
    forall tree: seq<Info> | tree in s.sent ensures SelfTimeRight(tree) {
      var j :| 0 <= j < |s.sent| && s.sent[j] == tree;
      assert AllSettled(s.sent[j], l.sent[j]) && l.sent[j] in l.sent;
      forall i: nat | 0 < i < |tree| ensures tree[i].usSampledLength <= tree[i].usLength {
        ExactSettled(tree, l.sent[j], i);
      }
    }
  }

  /** From the start of a thread, in every tree its calls send: each node's sampled time is its children's
      total, whatever the calls; if the clock does not go back each node is settled, and none is clamped
      if none is mixed. */
  lemma SentTimes(calls: seq<Call>, now: nat)
    requires Named(calls)
    ensures var s, l := RunCalls(Start(), calls), RunLedger(StartLedger(), Start(), Steps(calls));
      && (forall tree :: tree in s.sent ==> SampledRight(tree))
      && (Ordered(Steps(calls), now) ==>
        && |l.sent| == |s.sent| && (forall j: nat :: j < |s.sent| ==> AllSettled(s.sent[j], l.sent[j]))
        && (UnmixedRun(Start(), Steps(calls)) ==> forall tree :: tree in s.sent ==> SelfTimeRight(tree)))
  {
    var steps := Steps(calls);
    StartInv();
    CallsAreSteps(Start(), calls);
    assert steps[..|steps|] == steps;
    RunSampled(Start(), steps, |steps|);
    if Ordered(steps, now) {
      RunSettles(steps, now, |steps|);
      if UnmixedRun(Start(), steps) {
        RunWithin(steps, now, |steps|);
      }
    }
  }
}
