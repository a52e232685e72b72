/** Remotery's sample tree of one thread: what beginning and ending samples does to it, over every
    well-nested run of calls. Nodes are numbered in allocation order; node 0 is the root. */
module Samples {
  import opened Options
  import opened Words

  const WORD16 := 0x1_0000

  /** One node. `reentered` records that an aggregate call returned to it; the program keeps no such
      field. */
  datatype Info = Info(
    nameHash: nat,
    parent: nat,
    children: seq<nat>,
    nbChildren: nat,
    usStart: nat,
    usEnd: nat,
    usLength: nat,
    usSampledLength: nat,
    callCount: nat,
    recurseDepth: nat,
    maxRecurseDepth: nat,
    reentered: bool)

  /** The live nodes, the innermost open one, how many nodes were ever allocated below the root, and
      the trees sent so far, each with the nodes as they were when node 1 was sent. */
  datatype State = State(nodes: seq<Info>, current: nat, allocations: nat, sent: seq<seq<Info>>)

  function Prepared(nameHash: nat, parent: nat): Info {
    Info(nameHash, parent, [], 0, 0, 0, 0, 0, 1, 0, 0, false)
  }

  function Start(): State {
    State([Prepared(0, 0)], 0, 0, [])
  }

  // ---------------------------------------------------------------------------------------------
  // The operations
  // ---------------------------------------------------------------------------------------------

  /** The first child with the given name. */
  function FindChild(nodes: seq<Info>, children: seq<nat>, nameHash: nat): (r: Option<nat>)
    ensures r.Some? ==> r.value in children && r.value < |nodes| && nodes[r.value].nameHash == nameHash
    ensures r.None? ==> forall c :: c in children && c < |nodes| ==> nodes[c].nameHash != nameHash
  {
    if children == [] then None
    else if children[0] < |nodes| && nodes[children[0]].nameHash == nameHash then Some(children[0])
    else FindChild(nodes, children[1..], nameHash)
  }

  function Max(a: int, b: int): int {
    if a > b then a else b
  }

  /** Return to a sibling of the same name. */
  function Reenter(s: State, child: nat, now: nat): State
    requires child < |s.nodes|
  {
    var n := s.nodes[child];
    var calls := Wrap32(n.callCount + 1);
    var n' := n.(callCount := calls, reentered := true);
    var n'' := if calls > 1 then n'.(usEnd := now) else n'.(usStart := now);
    s.(nodes := s.nodes[child := n''], current := child)
  }

  /** Fold a recursive call into the open node. */
  function Recurse(s: State): State
    requires s.current < |s.nodes|
  {
    var n := s.nodes[s.current];
    var depth := (n.recurseDepth + 1) % WORD16;
    var n' := n.(recurseDepth := depth, maxRecurseDepth := Max(n.maxRecurseDepth, depth),
                 callCount := Wrap32(n.callCount + 1));
    s.(nodes := s.nodes[s.current := n'])
  }

  /** Add a new last child to the open node and open it. */
  function Extend(s: State, nameHash: nat, now: nat): State
    requires s.current < |s.nodes|
  {
    var p := s.nodes[s.current];
    var p' := p.(children := p.children + [|s.nodes|], nbChildren := Wrap32(p.nbChildren + 1));
    s.(nodes := s.nodes[s.current := p'] + [Prepared(nameHash, s.current).(usStart := now)],
       current := |s.nodes|, allocations := s.allocations + 1)
  }

  function Begin(s: State, nameHash: nat, aggregate: bool, recursive: bool, now: nat): State
    requires s.current < |s.nodes|
  {
    var p := s.nodes[s.current];
    var sibling := if aggregate then FindChild(s.nodes, p.children, nameHash) else None;
    if sibling.Some? then Reenter(s, sibling.value, now)
    else if recursive && p.nameHash == nameHash then Recurse(s)
    else Extend(s, nameHash, now)
  }

  /** How long the closing call of a node took. */
  function CallLength(n: Info, usEnd: nat): nat {
    if n.callCount > 1 && n.maxRecurseDepth == 0 then Max(usEnd - n.usEnd, 0) else Max(usEnd - n.usStart, 0)
  }

  function Close(s: State, now: nat): State
    requires 0 < s.current < |s.nodes| && s.nodes[s.current].parent < |s.nodes|
  {
    var n := s.nodes[s.current];
    var length := CallLength(n, now);
    var nodes := s.nodes[s.current := n.(usLength := n.usLength + length)];
    var p := nodes[n.parent];
    s.(nodes := nodes[n.parent := p.(usSampledLength := p.usSampledLength + length)])
  }

  /** Leave the open node; back at the root, send everything below it and start afresh. */
  function Pop(s: State): State
    requires 0 < s.current < |s.nodes|
  {
    var parent := s.nodes[s.current].parent;
    if parent == 0 then
      State([s.nodes[0].(children := [], nbChildren := 0)], 0, s.allocations, s.sent + [s.nodes])
    else s.(current := parent)
  }

  function End(s: State, now: nat): State
    requires 0 < s.current < |s.nodes| && s.nodes[s.current].parent < |s.nodes|
  {
    var n := s.nodes[s.current];
    if n.recurseDepth > 0 then s.(nodes := s.nodes[s.current := n.(recurseDepth := n.recurseDepth - 1)])
    else Pop(Close(s, now))
  }

  // ---------------------------------------------------------------------------------------------
  // The invariant
  // ---------------------------------------------------------------------------------------------

  /** `a` is `i` or above it. */
  predicate IsAncestor(nodes: seq<Info>, a: nat, i: nat)
    decreases i
  {
    a == i || (0 < i < |nodes| && nodes[i].parent < i && IsAncestor(nodes, a, nodes[i].parent))
  }

  ghost predicate ChildrenRight(nodes: seq<Info>, p: nat)
    requires p < |nodes|
  {
    && (forall c :: c in nodes[p].children <==> 0 < c < |nodes| && nodes[c].parent == p)
    && (forall j, k :: 0 <= j < k < |nodes[p].children| ==> nodes[p].children[j] < nodes[p].children[k])
    && nodes[p].nbChildren == Wrap32(|nodes[p].children|)
  }

  /** Parents come before their children, child lists hold exactly the children in order, and only
      the first node hangs off the root. */
  ghost predicate Shape(nodes: seq<Info>) {
    && |nodes| > 0
    && (forall i :: 0 < i < |nodes| ==> nodes[i].parent < i && (i > 1 ==> nodes[i].parent > 0))
    && (forall p: nat :: p < |nodes| ==> ChildrenRight(nodes, p))
  }

  /** A node recursed into is open, the root never is. */
  ghost predicate RecursionRight(s: State) {
    && (forall i: nat :: i < |s.nodes| ==> DepthRight(s, i))
    && s.nodes != [] && s.nodes[0].recurseDepth == 0
  }

  predicate DepthRight(s: State, i: nat)
    requires i < |s.nodes|
  {
    && s.nodes[i].recurseDepth < WORD16
    && (s.nodes[i].recurseDepth > 0 ==> IsAncestor(s.nodes, i, s.current))
  }

  ghost predicate NamesRight(nodes: seq<Info>) {
    nodes != [] && nodes[0].nameHash == 0 && forall i :: 0 < i < |nodes| ==> nodes[i].nameHash != 0
  }

  /** Nodes sent and nodes live are all the nodes allocated. */
  function TotalSent(sent: seq<seq<Info>>): int {
    if sent == [] then 0 else TotalSent(sent[..|sent| - 1]) + |sent[|sent| - 1]| - 1
  }

  /** A sent tree: every node closed. */
  ghost predicate SentRight(nodes: seq<Info>) {
    Shape(nodes) && |nodes| > 1 && forall i :: 0 <= i < |nodes| ==> nodes[i].recurseDepth == 0
  }

  ghost predicate Inv(s: State) {
    && Shape(s.nodes) && s.current < |s.nodes| && (s.current == 0 ==> |s.nodes| == 1)
    && RecursionRight(s) && NamesRight(s.nodes)
    && s.allocations == TotalSent(s.sent) + |s.nodes| - 1
    && forall tree :: tree in s.sent ==> SentRight(tree)
  }

  // ---------------------------------------------------------------------------------------------
  // Well-nested runs
  // ---------------------------------------------------------------------------------------------

  /** A call of BeginCPUSample, the calls up to its matching EndCPUSample, and when each happens. */
  datatype Call = Call(nameHash: nat, aggregate: bool, recursive: bool, begin: nat, body: seq<Call>, end: nat)

  ghost predicate Named(calls: seq<Call>) {
    forall c :: c in calls ==> c.nameHash != 0 && Named(c.body)
  }

  /** Whether a call is folded into the open node. */
  predicate Collapses(s: State, c: Call)
    requires s.current < |s.nodes|
  {
    var p := s.nodes[s.current];
    && !(c.aggregate && FindChild(s.nodes, p.children, c.nameHash).Some?)
    && c.recursive && p.nameHash == c.nameHash
  }

  /** The guard on a call: folding it in does not wrap the 16-bit recursion counter. */
  predicate HasRoom(s: State, c: Call)
    requires s.current < |s.nodes|
  {
    Collapses(s, c) ==> s.nodes[s.current].recurseDepth + 1 < WORD16
  }

  /** Every call of a run meets the guard when it begins. */
  ghost predicate CallHasRoom(s: State, c: Call)
    decreases c
  {
    Inv(s) ==> HasRoom(s, c) && CallsHaveRoom(Begin(s, c.nameHash, c.aggregate, c.recursive, c.begin), c.body)
  }

  ghost predicate CallsHaveRoom(s: State, calls: seq<Call>)
    decreases calls
  {
    calls != [] ==> CallHasRoom(s, calls[0]) && CallsHaveRoom(RunCall(s, calls[0]), calls[1..])
  }

  /** What well-nested calls leave as they were: every node there before is still there under the same
      parent, with the same recursion depth. New nodes are closed. Below the root, nothing remains. */
  ghost predicate Restored(s: State, t: State) {
    && t.current == s.current
    && s.nodes != [] && t.nodes != []
    && (s.current == 0 ==> |t.nodes| == 1 && t.nodes[0].recurseDepth == s.nodes[0].recurseDepth)
    && (s.current != 0 ==> t.sent == s.sent && |s.nodes| <= |t.nodes|)
    && (s.current != 0 ==> forall i: nat :: i < |t.nodes| ==> SameNode(s, t, i))
  }

  predicate SameNode(s: State, t: State, i: nat)
    requires i < |t.nodes|
  {
    if i < |s.nodes| then
      && t.nodes[i].recurseDepth == s.nodes[i].recurseDepth && t.nodes[i].parent == s.nodes[i].parent
      && t.nodes[i].nameHash == s.nodes[i].nameHash
    else t.nodes[i].recurseDepth == 0
  }

  /** The source asserts that no sample is ended at the root; a run here stays at the root instead.
      It also stops where the invariant would fail; `RunInv` shows it never does. */
  ghost function RunCall(s: State, c: Call): State
    decreases c
  {
    if !Inv(s) then s
    else
      var t := RunCalls(Begin(s, c.nameHash, c.aggregate, c.recursive, c.begin), c.body);
      if !Inv(t) || t.current == 0 then t else End(t, c.end)
  }

  ghost function RunCalls(s: State, calls: seq<Call>): State
    decreases calls
  {
    if calls == [] then s else RunCalls(RunCall(s, calls[0]), calls[1..])
  }

  // The same run, one step at a time.

  datatype Step =
    | BeginStep(nameHash: nat, aggregate: bool, recursive: bool, at: nat)
    | EndStep(at: nat)

  ghost function RunStep(s: State, step: Step): State {
    if !Inv(s) then s
    else
      match step
      case BeginStep(nameHash, aggregate, recursive, at) => Begin(s, nameHash, aggregate, recursive, at)
      case EndStep(at) => if s.current == 0 then s else End(s, at)
  }

  ghost function RunSteps(s: State, steps: seq<Step>): State
    decreases |steps|
  {
    if steps == [] then s else RunSteps(RunStep(s, steps[0]), steps[1..])
  }

  ghost predicate NamedSteps(steps: seq<Step>) {
    forall step :: step in steps && step.BeginStep? ==> step.nameHash != 0
  }

  ghost function Steps(calls: seq<Call>): seq<Step> {
    if calls == [] then []
    else
      var c := calls[0];
      [BeginStep(c.nameHash, c.aggregate, c.recursive, c.begin)] + Steps(c.body) + [EndStep(c.end)] + Steps(calls[1..])
  }

  // ---------------------------------------------------------------------------------------------
  // Each step keeps the invariant
  // ---------------------------------------------------------------------------------------------

  /** The fields that make up the shape of the tree. */
  predicate SameLinks(a: seq<Info>, b: seq<Info>) {
    |a| == |b| && forall i :: 0 <= i < |a| ==> SameLink(a[i], b[i])
  }

  predicate SameLink(a: Info, b: Info) {
    a.parent == b.parent && a.children == b.children && a.nbChildren == b.nbChildren && a.nameHash == b.nameHash
  }

  lemma {:induction false} SameAncestors(a: seq<Info>, b: seq<Info>, x: nat, i: nat)
    requires SameLinks(a, b)
    ensures IsAncestor(a, x, i) == IsAncestor(b, x, i)
    decreases i
  {
    if 0 < i < |a| && a[i].parent < i {
      assert SameLink(a[i], b[i]);
      SameAncestors(a, b, x, a[i].parent);
    }
  }

  lemma SameShape(a: seq<Info>, b: seq<Info>)
    requires Shape(a) && NamesRight(a) && SameLinks(a, b)
    ensures Shape(b) && NamesRight(b)
  {
    forall i | 0 <= i < |a| ensures SameLink(a[i], b[i]) {
    }
    forall p: nat | p < |b| ensures ChildrenRight(b, p) {
      assert ChildrenRight(a, p);
    }
  }

  /** An ancestor has no larger number than what is below it. */
  lemma {:induction false} AncestorsBefore(nodes: seq<Info>, a: nat, i: nat)
    requires IsAncestor(nodes, a, i)
    ensures a <= i
    decreases i
  {
    if a != i {
      AncestorsBefore(nodes, a, nodes[i].parent);
    }
  }

  /** Moving the open node down keeps what was above it above it. */
  lemma {:induction false} AncestorsBelow(nodes: seq<Info>, a: nat, i: nat, child: nat)
    requires 0 < child < |nodes| && nodes[child].parent == i && i < child && IsAncestor(nodes, a, i)
    ensures IsAncestor(nodes, a, child)
  {
  }

  lemma {:induction false} AncestorsExtend(a: seq<Info>, b: seq<Info>, x: nat, i: nat)
    requires |a| <= |b| && (forall j :: 0 <= j < |a| ==> a[j].parent == b[j].parent) && i < |a|
    ensures IsAncestor(a, x, i) == IsAncestor(b, x, i)
    decreases i
  {
    if 0 < i && a[i].parent < i {
      AncestorsExtend(a, b, x, a[i].parent);
    }
  }

  /** A change of counters and times alone. */
  lemma LinksKeepInv(s: State, t: State)
    requires Inv(s) && SameLinks(s.nodes, t.nodes) && t.current == s.current
    requires t.allocations == s.allocations && t.sent == s.sent
    requires forall i: nat :: i < |t.nodes| ==> DepthOk(s, t, i)
    requires t.nodes[0].recurseDepth == 0
    ensures Inv(t)
  {
    SameShape(s.nodes, t.nodes);
    forall i: nat | i < |t.nodes| ensures DepthRight(t, i) {
      assert DepthOk(s, t, i) && DepthRight(s, i);
      SameAncestors(s.nodes, t.nodes, i, s.current);
    }
  }

  predicate DepthOk(s: State, t: State, i: nat)
    requires i < |s.nodes| && i < |t.nodes|
  {
    t.nodes[i].recurseDepth < WORD16 && (t.nodes[i].recurseDepth > 0 ==> s.nodes[i].recurseDepth > 0 || i == s.current)
  }

  lemma ReenterKeepsInv(s: State, child: nat, now: nat)
    requires Inv(s) && child in s.nodes[s.current].children
    ensures child < |s.nodes| && Inv(Reenter(s, child, now))
  {
    assert ChildrenRight(s.nodes, s.current);
    var t := Reenter(s, child, now);
    assert SameLinks(s.nodes, t.nodes);
    SameShape(s.nodes, t.nodes);
    forall i: nat | i < |t.nodes| ensures DepthRight(t, i) {
      assert DepthRight(s, i);
      SameAncestors(s.nodes, t.nodes, i, s.current);
      if t.nodes[i].recurseDepth > 0 {
        AncestorsBelow(t.nodes, i, s.current, child);
      }
    }
  }

  lemma RecurseKeepsInv(s: State)
    requires Inv(s) && s.current != 0
    ensures Inv(Recurse(s))
  {
    forall i: nat | i < |s.nodes| ensures DepthOk(s, Recurse(s), i) {
      assert DepthRight(s, i);
    }
    LinksKeepInv(s, Recurse(s));
  }

  lemma CountOneMore(count: nat, k: nat)
    requires count == Wrap32(k)
    ensures Wrap32(count + 1) == Wrap32(k + 1)
  {
  }

  lemma AppendChild(nodes: seq<Info>, t: seq<Info>, p: nat)
    requires p < |nodes| && ChildrenRight(nodes, p) && |t| == |nodes| + 1
    requires t[p].children == nodes[p].children + [|nodes|] && t[|nodes|].parent == p && |nodes| > 0
    requires forall i :: 0 <= i < |nodes| ==> t[i].parent == nodes[i].parent
    requires t[p].nbChildren == Wrap32(|t[p].children|)
    ensures ChildrenRight(t, p)
  {
    var old', new' := nodes[p].children, t[p].children;
    forall c ensures c in new' <==> 0 < c < |t| && t[c].parent == p {
      assert c in new' <==> c in old' || c == |nodes|;
    }
    forall j, k | 0 <= j < k < |new'| ensures new'[j] < new'[k] {
      assert old'[j] in old';
    }
  }

  lemma ExtendShape(s: State, nameHash: nat, now: nat)
    requires Inv(s) && nameHash != 0
    ensures Shape(Extend(s, nameHash, now).nodes) && NamesRight(Extend(s, nameHash, now).nodes)
  {
    var t := Extend(s, nameHash, now).nodes;
    var n := |s.nodes|;
    forall p: nat | p < |t| ensures ChildrenRight(t, p) {
      if p < n {
        assert ChildrenRight(s.nodes, p);
      }
      if p == s.current {
        CountOneMore(s.nodes[p].nbChildren, |s.nodes[p].children|);
        AppendChild(s.nodes, t, p);
      } else if p == n {
        assert forall c :: 0 < c < |t| ==> t[c].parent != n;
      } else {
        assert t[p] == s.nodes[p];
      }
    }
  }

  lemma ExtendKeepsInv(s: State, nameHash: nat, now: nat)
    requires Inv(s) && nameHash != 0
    ensures Inv(Extend(s, nameHash, now))
  {
    var t := Extend(s, nameHash, now);
    ExtendShape(s, nameHash, now);
    forall i: nat | i < |t.nodes| ensures DepthRight(t, i) {
      if i < |s.nodes| {
        assert DepthRight(s, i);
        AncestorsExtend(s.nodes, t.nodes, i, s.current);
      }
    }
  }

  lemma BeginKeepsInv(s: State, nameHash: nat, aggregate: bool, recursive: bool, now: nat)
    requires Inv(s) && nameHash != 0
    ensures Inv(Begin(s, nameHash, aggregate, recursive, now))
  {
    var sibling := FindChild(s.nodes, s.nodes[s.current].children, nameHash);
    if aggregate && sibling.Some? {
      ReenterKeepsInv(s, sibling.value, now);
    } else if recursive && s.nodes[s.current].nameHash == nameHash {
      RecurseKeepsInv(s);
    } else {
      ExtendKeepsInv(s, nameHash, now);
    }
  }

  lemma PopKeepsInv(s: State)
    requires Inv(s) && s.current != 0 && s.nodes[s.current].recurseDepth == 0
    ensures Inv(Pop(s))
  {
    var t := Pop(s);
    var parent := s.nodes[s.current].parent;
    if parent == 0 {
      forall i: nat | i < |s.nodes| ensures s.nodes[i].recurseDepth == 0 {
        assert DepthRight(s, i);
        if s.nodes[i].recurseDepth > 0 && i != s.current {
          AncestorsBefore(s.nodes, i, parent);
        }
      }
      assert t.sent[..|s.sent|] == s.sent;
    } else {
      forall i: nat | i < |t.nodes| ensures DepthRight(t, i) {
        assert DepthRight(s, i);
      }
    }
  }

  lemma EndKeepsInv(s: State, now: nat)
    requires Inv(s) && s.current != 0
    ensures Inv(End(s, now))
  {
    var n := s.nodes[s.current];
    var t := if n.recurseDepth > 0 then End(s, now) else Close(s, now);
    forall i: nat | i < |s.nodes| ensures DepthOk(s, t, i) {
      assert DepthRight(s, i);
    }
    LinksKeepInv(s, t);
    if n.recurseDepth == 0 {
      PopKeepsInv(Close(s, now));
    }
  }
}
