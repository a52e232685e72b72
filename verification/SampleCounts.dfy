/** What the reported counts of Remotery's samples are, over every run: how many calls a node took, how
    deep it recursed, and when it started. */
module SampleCounts {
  import opened Words
  import opened Samples
  import opened SampleRuns

  // ---------------------------------------------------------------------------------------------
  // A tally beside the program
  // ---------------------------------------------------------------------------------------------

  /** For one node: the calls it took, how many recursive calls are folded into it now, and the most there
      ever were at once, none of which wraps; and when its first call began, or the first since a 32-bit
      count of them went round. */
  datatype Tally = Tally(calls: nat, depth: nat, deepest: nat, start: nat)

  /** The tallies of the live nodes, and those of each sent tree. */
  datatype Tallies = Tallies(live: seq<Tally>, sent: seq<seq<Tally>>)

  function StartTallies(): Tallies {
    Tallies([Tally(1, 0, 0, 0)], [])
  }

  function Called(tally: Tally, now: nat): Tally {
    tally.(calls := tally.calls + 1, start := if (tally.calls + 1) % WORD <= 1 then now else tally.start)
  }

  function Deeper(tally: Tally): Tally {
    Tally(tally.calls + 1, tally.depth + 1, if tally.depth + 1 > tally.deepest then tally.depth + 1 else tally.deepest,
          tally.start)
  }

  /** A sample begun, leading from `s` to `t`: taken by a new node, by another old one, or folded into the
      open one. */
  function TallyBegin(l: Tallies, s: State, t: State, now: nat): Tallies
    requires |l.live| == |s.nodes| && s.current < |s.nodes|
  {
    if |t.nodes| > |s.nodes| then l.(live := l.live + [Tally(1, 0, 0, now)])
    else if t.current == s.current then l.(live := l.live[s.current := Deeper(l.live[s.current])])
    else if t.current < |s.nodes| then l.(live := l.live[t.current := Called(l.live[t.current], now)])
    else l
  }

  /** A sample ended: a folded call, which leaves the node open, or the node itself. A tree sent takes its
      tallies with it. */
  function TallyEnd(l: Tallies, s: State, t: State): Tallies
    requires |l.live| == |s.nodes| && s.current < |s.nodes|
  {
    var n := l.live[s.current];
    if t.current == s.current then l.(live := l.live[s.current := n.(depth := if n.depth > 0 then n.depth - 1 else 0)])
    else
      var closed := l.live[s.current := n.(depth := 0)];
      if |t.sent| > |s.sent| then Tallies([closed[0]], l.sent + [closed]) else l.(live := closed)
  }

  ghost function TallyStep(l: Tallies, s: State, step: Step): Tallies {
    if !Inv(s) || |l.live| != |s.nodes| then l
    else if step.BeginStep? then TallyBegin(l, s, RunStep(s, step), step.at)
    else if s.current == 0 then l
    else TallyEnd(l, s, RunStep(s, step))
  }

  ghost function RunTallies(l: Tallies, s: State, steps: seq<Step>): Tallies
    decreases |steps|
  {
    if steps == [] then l else RunTallies(TallyStep(l, s, steps[0]), RunStep(s, steps[0]), steps[1..])
  }

  // ---------------------------------------------------------------------------------------------
  // The program's counters
  // ---------------------------------------------------------------------------------------------

  /** The 32-bit count of calls wraps; the 16-bit depth wraps, and the deepest depth stays at its largest
      value once that was reached. */
  predicate Counted(n: Info, tally: Tally) {
    && n.callCount == Wrap32(tally.calls) && n.recurseDepth == tally.depth % WORD16
    && n.maxRecurseDepth == (if tally.deepest < WORD16 then tally.deepest else WORD16 - 1)
    && tally.depth <= tally.deepest && n.usStart == tally.start
  }

  predicate CountedAt(nodes: seq<Info>, tallies: seq<Tally>, i: nat)
    requires i < |nodes| == |tallies|
  {
    Counted(nodes[i], tallies[i])
  }

  ghost predicate AllCounted(nodes: seq<Info>, tallies: seq<Tally>) {
    |nodes| == |tallies| && forall i: nat :: 0 < i < |nodes| ==> CountedAt(nodes, tallies, i)
  }

  ghost predicate Tallied(l: Tallies, s: State) {
    && AllCounted(s.nodes, l.live) && |l.sent| == |s.sent|
    && forall j: nat :: j < |s.sent| ==> AllCounted(s.sent[j], l.sent[j])
  }

  lemma CalledCounted(n: Info, tally: Tally, now: nat)
    requires Counted(n, tally)
    ensures var calls := Wrap32(n.callCount + 1);
      calls == Wrap32(tally.calls + 1) && Called(tally, now).start == if calls > 1 then n.usStart else now
  {
  }

  lemma DeeperCounted(n: Info, tally: Tally)
    requires Counted(n, tally)
    ensures var depth := (n.recurseDepth + 1) % WORD16;
      Counted(n.(recurseDepth := depth, maxRecurseDepth := Max(n.maxRecurseDepth, depth), callCount := Wrap32(n.callCount + 1)),
              Deeper(tally))
  {
  }

  lemma BeginTallied(l: Tallies, s: State, nameHash: nat, aggregate: bool, recursive: bool, now: nat)
    requires Inv(s) && Tallied(l, s) && nameHash != 0
    ensures var t := Begin(s, nameHash, aggregate, recursive, now); Tallied(TallyBegin(l, s, t, now), t)
  {
    var t := Begin(s, nameHash, aggregate, recursive, now);
    var m := TallyBegin(l, s, t, now);
    assert ChildrenRight(s.nodes, s.current);
    forall i: nat | 0 < i < |t.nodes| ensures CountedAt(t.nodes, m.live, i) {
      if i < |s.nodes| {
        assert CountedAt(s.nodes, l.live, i);
        DeeperCounted(s.nodes[i], l.live[i]);
        CalledCounted(s.nodes[i], l.live[i], now);
      }
    }
  }

  lemma EndTallied(l: Tallies, s: State, now: nat)
    requires Inv(s) && Tallied(l, s) && s.current != 0
    ensures var t := End(s, now); Tallied(TallyEnd(l, s, t), t)
  {
    var t := End(s, now);
    var m := TallyEnd(l, s, t);
    var n := s.current;
    assert CountedAt(s.nodes, l.live, n);
    var closed := if s.nodes[n].recurseDepth > 0 then t.nodes else Close(s, now).nodes;
    var live := if s.nodes[n].recurseDepth > 0 then m.live else l.live[n := l.live[n].(depth := 0)];
    forall i: nat | 0 < i < |closed| ensures CountedAt(closed, live, i) {
      assert CountedAt(s.nodes, l.live, i);
    }
    assert AllCounted(closed, live);
  }

  lemma StepTallied(l: Tallies, s: State, step: Step)
    requires Inv(s) && Tallied(l, s) && (step.BeginStep? ==> step.nameHash != 0)
    ensures Tallied(TallyStep(l, s, step), RunStep(s, step))
  {
    match step
    case BeginStep(nameHash, aggregate, recursive, at) => BeginTallied(l, s, nameHash, aggregate, recursive, at);
    case EndStep(at) =>
      if s.current != 0 {
        EndTallied(l, s, at);
      }
  }

  lemma {:induction false} RunTallied(l: Tallies, s: State, steps: seq<Step>)
    requires Inv(s) && Tallied(l, s) && NamedSteps(steps)
    ensures Inv(RunSteps(s, steps)) && Tallied(RunTallies(l, s, steps), RunSteps(s, steps))
    decreases |steps|
  {
    if steps != [] {
      assert steps[0] in steps;
      StepInv(s, steps[0]);
      StepTallied(l, s, steps[0]);
      RunTallied(TallyStep(l, s, steps[0]), RunStep(s, steps[0]), steps[1..]);
    }
  }

  /** At every moment of every run from the start, whatever the flags and the nesting, in live and in sent
      trees alike, a node's count of calls is the calls it took, modulo 2^32, its deepest recursion is the
      deepest there was, up to 65535, and its start is that of its first call. */
  lemma CountsOverRuns(steps: seq<Step>, k: nat)
    requires NamedSteps(steps) && k <= |steps|
    ensures Tallied(RunTallies(StartTallies(), Start(), steps[..k]), RunSteps(Start(), steps[..k]))
  {
    StartInv();
    RunTallied(StartTallies(), Start(), steps[..k]);
  }
}
