/** The sample tree as the linked nodes the program keeps.

    Each operation is proved to do to the links and counters what module Samples defines on numbered
    nodes. */
module SampleTrees {
  import opened Options
  import opened Words
  import opened Samples
  import opened SampleObjects

  ghost predicate LinksAre(objects: seq<Sample>, links: seq<Links>)
    reads objects`parent, objects`firstChild, objects`lastChild, objects`nextSibling
  {
    |links| == |objects| && forall i: nat :: i < |objects| ==> objects[i].CurrentLinks() == links[i]
  }

  /** The links of node `i` are those its number has. */
  ghost predicate Linked(objects: seq<Sample>, links: seq<Links>, nodes: seq<Info>, i: nat)
    requires |objects| == |links| == |nodes| && i < |nodes|
  {
    var o, n := links[i], nodes[i];
    && (i > 0 ==> n.parent < |nodes| && o.parent == objects[n.parent])
    && (n.children == [] ==> o.firstChild == null && o.lastChild == null)
    && (n.children != [] ==>
         && n.children[0] < |nodes| && n.children[|n.children| - 1] < |nodes|
         && o.firstChild == objects[n.children[0]] && o.lastChild == objects[n.children[|n.children| - 1]])
    && (forall k: nat :: k < |n.children| ==> SiblingLinked(objects, links, n.children, k))
  }

  /** The `k`-th child is followed by the next one, the last by nothing. */
  ghost predicate SiblingLinked(objects: seq<Sample>, links: seq<Links>, children: seq<nat>, k: nat)
    requires |objects| == |links| && k < |children|
  {
    && children[k] < |objects|
    && (k + 1 < |children| ==> children[k + 1] < |objects| && links[children[k]].nextSibling == objects[children[k + 1]])
    && (k + 1 == |children| ==> links[children[k]].nextSibling == null)
  }

  ghost predicate LinkedUp(objects: seq<Sample>, links: seq<Links>, nodes: seq<Info>) {
    |objects| == |links| == |nodes| && forall i: nat :: i < |nodes| ==> Linked(objects, links, nodes, i)
  }

  ghost predicate AllHold(objects: seq<Sample>, nodes: seq<Info>)
    reads objects`nameHash, objects`nbChildren, objects`usStart, objects`usEnd, objects`usLength, objects`usSampledLength,
      objects`callCount, objects`recurseDepth, objects`maxRecurseDepth
  {
    |objects| == |nodes| && forall i: nat :: i < |nodes| ==> objects[i].Holds(nodes[i])
  }

  /** The objects are linked up as the numbered nodes are, and hold the same counters and times. */
  ghost predicate Mirrors(objects: seq<Sample>, links: seq<Links>, nodes: seq<Info>)
    reads objects
  {
    Distinct(objects) && AllHold(objects, nodes) && LinksAre(objects, links) && LinkedUp(objects, links, nodes)
  }

  /** Links do not depend on counters. */
  lemma LinksStay(objects: seq<Sample>, links: seq<Links>, a: seq<Info>, b: seq<Info>)
    requires SameLinks(a, b) && LinkedUp(objects, links, a)
    ensures LinkedUp(objects, links, b)
  {
    forall i: nat | i < |b| ensures Linked(objects, links, b, i) {
      assert SameLink(a[i], b[i]) && Linked(objects, links, a, i);
      forall k: nat | k < |b[i].children| ensures SiblingLinked(objects, links, b[i].children, k) {
        assert SiblingLinked(objects, links, a[i].children, k);
      }
    }
  }

  /** The links with `sample` as a new last child of `objects[p]`. */
  ghost function LinksAfter(objects: seq<Sample>, sample: Sample, before: seq<Links>, p: nat): (after: seq<Links>)
    requires p < |objects| == |before|
    ensures |after| == |objects| + 1
    ensures after[|objects|] == Links(objects[p], null, null, null)
    ensures forall i: nat :: i < |objects| ==> after[i] == LinkAfter(objects, sample, before, p, i)
  {
    seq(|objects| + 1, i requires 0 <= i <= |objects| =>
      if i == |objects| then Links(objects[p], null, null, null) else LinkAfter(objects, sample, before, p, i))
  }

  ghost function LinkAfter(objects: seq<Sample>, sample: Sample, before: seq<Links>, p: nat, i: nat): Links
    requires p < |objects| == |before| && i < |objects|
  {
    Links(
      before[i].parent,
      if i == p && before[i].firstChild == null then sample else before[i].firstChild,
      if i == p then sample else before[i].lastChild,
      if objects[i] == before[p].lastChild then sample else before[i].nextSibling)
  }

  lemma ChildLinked(objects: seq<Sample>, sample: Sample, before: seq<Links>, a: seq<Info>, b: seq<Info>, p: nat)
    requires Shape(a) && Distinct(objects) && LinkedUp(objects, before, a) && p < |a|
    requires |b| == |a| + 1 && b[|a|].children == [] && b[|a|].parent == p && b[p].children == a[p].children + [|a|]
    requires forall i: nat :: i < |a| ==> b[i].parent == a[i].parent && (i != p ==> b[i].children == a[i].children)
    ensures LinkedUp(objects + [sample], LinksAfter(objects, sample, before, p), b)
  {
    var all, after := objects + [sample], LinksAfter(objects, sample, before, p);
    forall i: nat | i < |b| ensures Linked(all, after, b, i) {
      if i < |a| {
        assert Linked(objects, before, a, i) && ChildrenRight(a, i) && ChildrenRight(a, p) && Linked(objects, before, a, p);
        forall k: nat | k < |b[i].children| ensures SiblingLinked(all, after, b[i].children, k) {
          if k < |a[i].children| {
            assert SiblingLinked(objects, before, a[i].children, k);
            LastChildOnly(a, p, i, k);
          }
        }
      }
    }
  }

  /** The last child of `p` is no one else's child and no other child of `p`. */
  lemma LastChildOnly(nodes: seq<Info>, p: nat, i: nat, k: nat)
    requires p < |nodes| && i < |nodes| && ChildrenRight(nodes, p) && ChildrenRight(nodes, i) && k < |nodes[i].children|
    ensures var last := nodes[p].children;
      last != [] && nodes[i].children[k] == last[|last| - 1] ==> i == p && k == |last| - 1
    ensures nodes[i].children[k] < |nodes|
  {
    assert nodes[i].children[k] in nodes[i].children;
    var last := nodes[p].children;
    if last != [] {
      assert last[|last| - 1] in last;
    }
  }

  /** A new last child of the open node. */
  method LinkChild(ghost objects: seq<Sample>, ghost links: seq<Links>, ghost s: State, parent: Sample, sample: Sample,
                   nameHash: nat, now: nat)
    requires s.current < |s.nodes| && Mirrors(objects, links, s.nodes) && Shape(s.nodes)
    requires parent == objects[s.current] && sample !in objects
    modifies sample`nameHash, sample`uniqueId, sample`parent, sample`firstChild, sample`lastChild, sample`nextSibling, sample`nbChildren,
      sample`usStart, sample`usEnd, sample`usLength, sample`usSampledLength, sample`usGpuIssueOnCpu, sample`callCount, sample`recurseDepth, sample`maxRecurseDepth
    modifies objects`nbChildren, objects`firstChild, objects`lastChild, objects`nextSibling
    ensures Mirrors(objects + [sample], LinksAfter(objects, sample, links, s.current), Extend(s, nameHash, now).nodes)
  {
    ParentLinks(objects, links, s.nodes, s.current);
    CountChild(objects, s.nodes, s.current, parent);
    LinkPrepared(objects, links, s, parent, sample, nameHash, now);
    ChildLinked(objects, sample, links, s.nodes, Extend(s, nameHash, now).nodes, s.current);
    DistinctAppend(objects, sample);
  }

  method LinkPrepared(ghost objects: seq<Sample>, ghost links: seq<Links>, ghost s: State, parent: Sample, sample: Sample,
                      nameHash: nat, now: nat)
    requires s.current < |s.nodes| == |objects| && parent == objects[s.current] && Distinct(objects) && LinksAre(objects, links)
    requires var n := s.nodes[s.current];
      AllHold(objects, s.nodes[s.current := n.(nbChildren := Wrap32(n.nbChildren + 1))])
    requires parent.firstChild == null <==> parent.lastChild == null
    requires parent.lastChild != null ==> parent.lastChild in objects
    requires sample !in objects
    modifies sample`nameHash, sample`uniqueId, sample`parent, sample`firstChild, sample`lastChild, sample`nextSibling, sample`nbChildren,
      sample`usStart, sample`usEnd, sample`usLength, sample`usSampledLength, sample`usGpuIssueOnCpu, sample`callCount, sample`recurseDepth, sample`maxRecurseDepth
    modifies objects`firstChild, objects`lastChild, objects`nextSibling
    ensures AllHold(objects + [sample], Extend(s, nameHash, now).nodes)
    ensures LinksAre(objects + [sample], LinksAfter(objects, sample, links, s.current))
  {
    sample.Prepare(nameHash, parent);
    sample.usStart := now;
    LinkLast(objects, links, s.current, parent, sample);
    AppendHolds(objects, sample, s, nameHash, now);
  }

  lemma DistinctAppend(objects: seq<Sample>, sample: Sample)
    requires Distinct(objects) && sample !in objects
    ensures Distinct(objects + [sample])
  {
  }

  lemma ParentLinks(objects: seq<Sample>, links: seq<Links>, nodes: seq<Info>, p: nat)
    requires LinkedUp(objects, links, nodes) && Shape(nodes) && p < |nodes|
    ensures links[p].firstChild == null <==> links[p].lastChild == null
    ensures links[p].lastChild != null ==> links[p].lastChild in objects
  {
    assert Linked(objects, links, nodes, p) && ChildrenRight(nodes, p);
  }

  method CountChild(ghost objects: seq<Sample>, ghost nodes: seq<Info>, ghost p: nat, parent: Sample)
    requires Distinct(objects) && AllHold(objects, nodes) && p < |nodes| && parent == objects[p]
    modifies parent`nbChildren
    ensures AllHold(objects, nodes[p := nodes[p].(nbChildren := Wrap32(nodes[p].nbChildren + 1))])
  {
    parent.nbChildren := Wrap32(parent.nbChildren + 1);
  }

  lemma AppendHolds(objects: seq<Sample>, sample: Sample, s: State, nameHash: nat, now: nat)
    requires s.current < |s.nodes|
    requires var n := s.nodes[s.current];
      AllHold(objects, s.nodes[s.current := n.(nbChildren := Wrap32(n.nbChildren + 1))])
    requires sample.Holds(Prepared(nameHash, s.current).(usStart := now))
    ensures AllHold(objects + [sample], Extend(s, nameHash, now).nodes)
  {
    var n := s.nodes[s.current];
    var counted := s.nodes[s.current := n.(nbChildren := Wrap32(n.nbChildren + 1))];
    var all, b := objects + [sample], Extend(s, nameHash, now).nodes;
    forall i: nat | i < |b| ensures all[i].Holds(b[i]) {
      if i < |s.nodes| {
        assert objects[i].Holds(counted[i]);
      }
    }
  }

  method LinkLast(ghost objects: seq<Sample>, ghost links: seq<Links>, ghost p: nat, parent: Sample, sample: Sample)
    requires p < |objects| && parent == objects[p] && Distinct(objects) && sample !in objects && LinksAre(objects, links)
    requires sample.CurrentLinks() == Links(parent, null, null, null)
    requires parent.firstChild == null <==> parent.lastChild == null
    requires parent.lastChild != null ==> parent.lastChild in objects
    modifies objects`firstChild, objects`lastChild, objects`nextSibling
    ensures LinksAre(objects + [sample], LinksAfter(objects, sample, links, p))
  {
    if parent.firstChild == null {
      parent.firstChild := sample;
      parent.lastChild := sample;
    } else {
      parent.lastChild.nextSibling := sample;
      parent.lastChild := sample;
    }
  }

  method CountReentry(ghost objects: seq<Sample>, ghost links: seq<Links>, ghost s: State, ghost k: nat, sibling: Sample, now: nat)
    requires Mirrors(objects, links, s.nodes) && k < |s.nodes| && sibling == objects[k]
    modifies sibling`callCount, sibling`usEnd, sibling`usStart
    ensures Mirrors(objects, links, Reenter(s, k, now).nodes)
  {
    sibling.callCount := Wrap32(sibling.callCount + 1);
    if sibling.callCount > 1 {
      sibling.usEnd := now;
    } else {
      sibling.usStart := now;
    }
    LinksStay(objects, links, s.nodes, Reenter(s, k, now).nodes);
  }

  method CountRecursion(ghost objects: seq<Sample>, ghost links: seq<Links>, ghost s: State, sample: Sample)
    requires s.current < |s.nodes| && Mirrors(objects, links, s.nodes) && sample == objects[s.current]
    modifies sample`callCount, sample`recurseDepth, sample`maxRecurseDepth
    ensures Mirrors(objects, links, Recurse(s).nodes)
  {
    sample.recurseDepth := (sample.recurseDepth + 1) % WORD16;
    sample.maxRecurseDepth := Max(sample.maxRecurseDepth, sample.recurseDepth);
    sample.callCount := Wrap32(sample.callCount + 1);
    LinksStay(objects, links, s.nodes, Recurse(s).nodes);
  }

  method LeaveRecursion(ghost objects: seq<Sample>, ghost links: seq<Links>, ghost s: State, sample: Sample)
    requires s.current < |s.nodes| && Mirrors(objects, links, s.nodes) && sample == objects[s.current]
    requires s.nodes[s.current].recurseDepth > 0
    modifies sample`recurseDepth
    ensures Mirrors(objects, links, Uncount(s).nodes)
  {
    assert sample.Holds(s.nodes[s.current]);
    sample.recurseDepth := sample.recurseDepth - 1;
    LinksStay(objects, links, s.nodes, Uncount(s).nodes);
  }

  /** The state with one less recursion into the open node. */
  ghost function Uncount(s: State): State
    requires s.current < |s.nodes| && s.nodes[s.current].recurseDepth > 0
  {
    s.(nodes := s.nodes[s.current := s.nodes[s.current].(recurseDepth := s.nodes[s.current].recurseDepth - 1)])
  }

  /** Sample_Close: the sample and its parent take up the length of the call. */
  method CloseSample(ghost objects: seq<Sample>, ghost links: seq<Links>, ghost s: State, sample: Sample, usEnd: nat)
    requires Shape(s.nodes) && 0 < s.current < |s.nodes|
    requires Mirrors(objects, links, s.nodes) && sample == objects[s.current]
    modifies objects`usLength, objects`usSampledLength
    ensures Mirrors(objects, links, Close(s, usEnd).nodes)
  {
    ghost var k := s.current;
    ParentIs(objects, links, s.nodes, k);
    assert sample.Holds(s.nodes[k]) && sample.CurrentLinks() == links[k];
    var usLength := LengthOf(sample, s.nodes[k], usEnd);
    if sample.parent != null {
      AddLengths(objects, s, usEnd, sample, sample.parent, usLength);
    }
    CloseLinks(s, usEnd);
    LinksStay(objects, links, s.nodes, Close(s, usEnd).nodes);
  }

  method LengthOf(sample: Sample, ghost n: Info, usEnd: nat) returns (usLength: nat)
    requires sample.Holds(n)
    ensures usLength == CallLength(n, usEnd)
  {
    if sample.callCount > 1 && sample.maxRecurseDepth == 0 {
      usLength := Max(usEnd - sample.usEnd, 0);
    } else {
      usLength := Max(usEnd - sample.usStart, 0);
    }
  }

  lemma CloseLinks(s: State, usEnd: nat)
    requires Shape(s.nodes) && 0 < s.current < |s.nodes|
    ensures SameLinks(s.nodes, Close(s, usEnd).nodes)
  {
  }

  method AddLengths(ghost objects: seq<Sample>, ghost s: State, ghost usEnd: nat, sample: Sample, parent: Sample, length: nat)
    requires Distinct(objects) && AllHold(objects, s.nodes) && 0 < s.current < |s.nodes| && sample == objects[s.current]
    requires s.nodes[s.current].parent < |s.nodes| && parent == objects[s.nodes[s.current].parent]
    requires length == CallLength(s.nodes[s.current], usEnd)
    modifies sample`usLength, parent`usSampledLength
    ensures AllHold(objects, Close(s, usEnd).nodes)
  {
    ghost var k := s.current;
    AddLength(objects, s.nodes, k, sample, length);
    ghost var lengthened := s.nodes[k := s.nodes[k].(usLength := s.nodes[k].usLength + length)];
    AddSampled(objects, lengthened, s.nodes[k].parent, parent, length);
  }

  method AddLength(ghost objects: seq<Sample>, ghost nodes: seq<Info>, ghost k: nat, sample: Sample, length: nat)
    requires Distinct(objects) && AllHold(objects, nodes) && k < |nodes| && sample == objects[k]
    modifies sample`usLength
    ensures AllHold(objects, nodes[k := nodes[k].(usLength := nodes[k].usLength + length)])
  {
    sample.usLength := sample.usLength + length;
  }

  method AddSampled(ghost objects: seq<Sample>, ghost nodes: seq<Info>, ghost k: nat, sample: Sample, length: nat)
    requires Distinct(objects) && AllHold(objects, nodes) && k < |nodes| && sample == objects[k]
    modifies sample`usSampledLength
    ensures AllHold(objects, nodes[k := nodes[k].(usSampledLength := nodes[k].usSampledLength + length)])
  {
    sample.usSampledLength := sample.usSampledLength + length;
  }

  class SampleTree {
    const allocator: Allocator
    var root: Sample
    var currentParent: Sample
    ghost var objects: seq<Sample>
    ghost var links: seq<Links>
    ghost var state: State

    /** The objects are what the numbered state says. */
    ghost predicate Refines()
      reads this, objects
    {
      && state.current < |state.nodes| && Mirrors(objects, links, state.nodes)
      && root == objects[0] && currentParent == objects[state.current]
    }

    ghost predicate Valid()
      reads this, objects, allocator, allocator.free`link
    {
      Inv(state) && Sound()
    }

    /** The objects are what the state says, and none of them is free. */
    ghost predicate Sound()
      reads this, objects, allocator, allocator.free`link
    {
      Refines() && allocator.Valid() && Disjoint(objects, allocator.free)
    }

    constructor ()
      ensures Valid() && state == Start() && fresh(allocator) && allocator.free == []
      ensures allocator.nbInuse == allocator.nbAllocated == 1 && fresh(objects)
    {
      var pool := new Allocator();
      var sample := pool.Alloc();
      sample.Prepare(0, null);
      allocator := pool;
      root := sample;
      currentParent := sample;
      objects := [sample];
      links := [Links(null, null, null, null)];
      state := Start();
      new;
      assert ChildrenRight(state.nodes, 0);
    }

    /** The first child of the open node with the given name. */
    method FindSibling(nameHash: nat) returns (sibling: Sample?)
      requires Valid()
      ensures var r := FindChild(state.nodes, state.nodes[state.current].children, nameHash);
        sibling == if r.Some? then objects[r.value] else null
    {
      ghost var children := state.nodes[state.current].children;
      ghost var k := 0;
      assert ChildrenRight(state.nodes, state.current);
      assert Linked(objects, links, state.nodes, state.current);
      assert children[0..] == children;
      sibling := currentParent.firstChild;
      while sibling != null
        invariant k <= |children| && forall c :: c in children ==> c < |objects|
        invariant sibling == if k < |children| then objects[children[k]] else null
        invariant FindChild(state.nodes, children, nameHash) == FindChild(state.nodes, children[k..], nameHash)
        decreases |children| - k
      {
        NextSibling(objects, links, state.nodes, children, nameHash, k);
        if sibling.nameHash == nameHash {
          return;
        }
        sibling := sibling.nextSibling;
        k := k + 1;
      }
    }

    /** BeginCPUSample: push a sample and note when it began. */
    method Begin(nameHash: nat, aggregate: bool, recursive: bool, now: nat)
      requires Valid() && nameHash != 0
      modifies this`currentParent, this`objects, this`links, this`state, objects, allocator, allocator.free
      ensures Valid() && state == Samples.Begin(old(state), nameHash, aggregate, recursive, now)
      ensures root == old(root) && Taken(old(objects), old(allocator.free))
      ensures allocator.nbInuse - old(allocator.nbInuse) == |objects| - |old(objects)|
    {
      BeginKeepsInv(state, nameHash, aggregate, recursive, now);
      var sibling: Sample? := null;
      if aggregate {
        sibling := FindSibling(nameHash);
      }
      if sibling != null {
        ReenterSibling(sibling, FindChild(state.nodes, state.nodes[state.current].children, nameHash).value, now);
      } else {
        PushOrRecurse(nameHash, recursive, now);
      }
    }

    /** No sibling to return to: collapse on recursion, or add a child. */
    method PushOrRecurse(nameHash: nat, recursive: bool, now: nat)
      requires Valid()
      modifies this`currentParent, this`objects, this`links, this`state, objects, allocator, allocator.free
      ensures Sound() && root == old(root) && Taken(old(objects), old(allocator.free))
      ensures allocator.nbInuse - old(allocator.nbInuse) == |objects| - |old(objects)|
      ensures old(state).current < |old(state).nodes|
      ensures state == if recursive && old(state).nodes[old(state).current].nameHash == nameHash then Recurse(old(state))
        else Extend(old(state), nameHash, now)
    {
      assert currentParent.Holds(state.nodes[state.current]);
      if recursive && currentParent.nameHash == nameHash {
        RecurseCurrent();
      } else {
        AddChild(nameHash, now);
      }
    }

    /** Nothing was taken, or the first free object, or a new one if there was none. */
    twostate predicate Taken(before: seq<Sample>, free: seq<Sample>)
      reads this, allocator
    {
      || (objects == before && allocator.free == free)
      || (free != [] && objects == before + [free[0]] && allocator.free == free[1..])
      || (free == [] && allocator.free == [] && |objects| == |before| + 1 && before <= objects && fresh(objects[|before|]))
    }

    method ReenterSibling(sibling: Sample, ghost k: nat, now: nat)
      requires Sound() && k < |objects| && sibling == objects[k]
      modifies this`currentParent, this`objects, this`links, this`state
      modifies objects`callCount, objects`usEnd, objects`usStart
      ensures Sound() && objects == old(objects) && root == old(root) && state == Reenter(old(state), k, now)
    {
      CountReentry(objects, links, state, k, sibling, now);
      Advance(sibling, objects, links, Reenter(state, k, now));
    }

    /** Open another sample. */
    method Advance(sample: Sample, ghost all: seq<Sample>, ghost allLinks: seq<Links>, ghost next: State)
      requires Mirrors(all, allLinks, next.nodes) && next.current < |next.nodes| && sample == all[next.current] && root == all[0]
      modifies this`currentParent, this`objects, this`links, this`state
      ensures Refines() && objects == all && links == allLinks && state == next && root == old(root)
    {
      currentParent := sample;
      objects := all;
      links := allLinks;
      state := next;
    }

    method RecurseCurrent()
      requires Sound()
      modifies this`currentParent, this`objects, this`links, this`state
      modifies objects`callCount, objects`recurseDepth, objects`maxRecurseDepth
      ensures Sound() && objects == old(objects) && root == old(root) && state == Recurse(old(state))
    {
      CountRecursion(objects, links, state, currentParent);
      Advance(currentParent, objects, links, Recurse(state));
    }

    method AddChild(nameHash: nat, now: nat)
      requires Valid()
      modifies this`currentParent, this`objects, this`links, this`state, objects, allocator, allocator.free
      ensures Sound() && root == old(root) && state == Extend(old(state), nameHash, now) && Taken(old(objects), old(allocator.free))
      ensures |objects| == |old(objects)| + 1 && allocator.nbInuse == old(allocator.nbInuse) + 1
    {
      var sample := TakeSample();
      OpenChild(sample, nameHash, now);
    }

    /** A sample for the tree that is not in it. */
    method TakeSample() returns (sample: Sample)
      requires Valid()
      modifies allocator, allocator.free`link
      ensures Refines() && allocator.Valid() && sample !in objects && Disjoint(objects + [sample], allocator.free)
      ensures allocator.nbInuse == old(allocator.nbInuse) + 1
      ensures old(allocator.free) == [] ==> fresh(sample) && allocator.free == []
      ensures old(allocator.free) != [] ==> sample == old(allocator.free)[0] && allocator.free == old(allocator.free)[1..]
    {
      assert allocated(objects) && allocated(allocator.free);
      sample := allocator.Alloc();
    }

    method OpenChild(sample: Sample, nameHash: nat, now: nat)
      requires Refines() && Shape(state.nodes) && sample !in objects
      modifies this`currentParent, this`objects, this`links, this`state
      modifies sample`nameHash, sample`uniqueId, sample`parent, sample`firstChild, sample`lastChild, sample`nextSibling, sample`nbChildren,
        sample`usStart, sample`usEnd, sample`usLength, sample`usSampledLength, sample`usGpuIssueOnCpu, sample`callCount, sample`recurseDepth, sample`maxRecurseDepth
      modifies objects`nbChildren, objects`firstChild, objects`lastChild, objects`nextSibling
      ensures Refines() && root == old(root) && state == Extend(old(state), nameHash, now)
      ensures objects == old(objects) + [sample]
    {
      LinkChild(objects, links, state, currentParent, sample, nameHash, now);
      Advance(sample, objects + [sample], LinksAfter(objects, sample, links, state.current), Extend(state, nameHash, now));
    }

    /** EndCPUSample: leave a collapsed recursion, or close the open sample and pop it. Back at the
        root, the finished tree is detached and handed over. */
    method End(now: nat) returns (finished: Sample?)
      requires Valid() && state.current != 0
      modifies this`currentParent, this`objects, this`links, this`state
      modifies objects`recurseDepth, objects`usLength, objects`usSampledLength, root`firstChild, root`lastChild, root`nbChildren
      ensures Valid() && state == Samples.End(old(state), now) && root == old(root)
      ensures finished != null <==> state.current == 0
      ensures finished == null ==> objects == old(objects)
      ensures finished != null ==> finished == old(objects)[1] && objects == [root]
      ensures finished != null ==> state.sent != [] && Detached(old(objects), old(links), state.sent[|state.sent| - 1])
    {
      EndKeepsInv(state, now);
      assert state.nodes[state.current].parent == 0 ==> state.current == 1;
      assert currentParent.Holds(state.nodes[state.current]);
      if currentParent.recurseDepth > 0 {
        LeaveCurrent();
        finished := null;
      } else {
        finished := CloseAndPop(now);
      }
    }

    method LeaveCurrent()
      requires Refines() && state.nodes[state.current].recurseDepth > 0
      modifies this`currentParent, this`objects, this`links, this`state
      modifies objects`recurseDepth
      ensures Refines() && objects == old(objects) && root == old(root) && state == Uncount(old(state))
    {
      LeaveRecursion(objects, links, state, currentParent);
      Advance(currentParent, objects, links, Uncount(state));
    }

    method CloseAndPop(now: nat) returns (finished: Sample?)
      requires Refines() && Shape(state.nodes) && state.current != 0
      requires state.nodes[state.current].parent == 0 ==> state.current == 1
      modifies this`currentParent, this`objects, this`links, this`state
      modifies objects`usLength, objects`usSampledLength, root`firstChild, root`lastChild, root`nbChildren
      ensures Refines() && root == old(root) && state == Pop(Close(old(state), now))
      ensures finished != null <==> state.current == 0
      ensures finished == null ==> objects == old(objects)
      ensures finished != null ==> finished == old(objects)[1] && objects == [root]
      ensures finished != null ==> state.sent != [] && Detached(old(objects), old(links), state.sent[|state.sent| - 1])
    {
      var sample := currentParent;
      ParentIs(objects, links, state.nodes, state.current);
      CloseSample(objects, links, state, sample, now);
      if sample.parent == root {
        Finish(Close(state, now));
        finished := sample;
      } else {
        Advance(sample.parent, objects, links, Pop(Close(state, now)));
        finished := null;
      }
    }

    /** Take the finished tree off the root. */
    method Finish(ghost closed: State)
      requires Mirrors(objects, links, closed.nodes) && 0 < closed.current < |closed.nodes|
      requires closed.nodes[closed.current].parent == 0 && root == objects[0]
      modifies this`currentParent, this`objects, this`links, this`state, root`firstChild, root`lastChild, root`nbChildren
      ensures Refines() && root == old(root) && state == Pop(closed) && objects == [root]
      ensures Detached(old(objects), old(links), closed.nodes)
    {
      ResetRoot(objects, links, closed.nodes, root);
      Advance(root, [root], [links[0].(firstChild := null, lastChild := null)], Pop(closed));
    }
  }

  /** One step along the children: found here, or searched for among those that follow. */
  lemma NextSibling(objects: seq<Sample>, links: seq<Links>, nodes: seq<Info>, children: seq<nat>, nameHash: nat, k: nat)
    requires Mirrors(objects, links, nodes) && k < |children| && SiblingLinked(objects, links, children, k)
    ensures children[k] < |objects| && objects[children[k]].nextSibling == if k + 1 < |children| then objects[children[k + 1]] else null
    ensures FindChild(nodes, children[k..], nameHash) ==
      if objects[children[k]].nameHash == nameHash then Some(children[k]) else FindChild(nodes, children[k + 1..], nameHash)
  {
    assert children[k..][1..] == children[k + 1..];
    assert objects[children[k]].Holds(nodes[children[k]]) && objects[children[k]].CurrentLinks() == links[children[k]];
  }

  lemma ParentIs(objects: seq<Sample>, links: seq<Links>, nodes: seq<Info>, i: nat)
    requires Distinct(objects) && LinkedUp(objects, links, nodes) && Shape(nodes) && 0 < i < |nodes|
    ensures links[i].parent == objects[nodes[i].parent]
    ensures links[i].parent == objects[0] <==> nodes[i].parent == 0
  {
    assert Linked(objects, links, nodes, i);
  }

  method ResetRoot(ghost objects: seq<Sample>, ghost links: seq<Links>, ghost nodes: seq<Info>, root: Sample)
    requires Mirrors(objects, links, nodes) && |objects| > 0 && root == objects[0]
    modifies root`firstChild, root`lastChild, root`nbChildren
    ensures Detached(objects, links, nodes)
    ensures Mirrors([root], [links[0].(firstChild := null, lastChild := null)], [nodes[0].(children := [], nbChildren := 0)])
  {
    assert root.Holds(nodes[0]) && root.CurrentLinks() == links[0];
    root.firstChild := null;
    root.lastChild := null;
    root.nbChildren := 0;
    assert forall i: nat :: 0 < i < |nodes| ==> Linked(objects, links, nodes, i);
  }

  /** Below its root, a tree taken off the profiler is linked up as the numbered nodes were. */
  ghost predicate Detached(objects: seq<Sample>, links: seq<Links>, nodes: seq<Info>)
    reads objects
  {
    && Distinct(objects) && |objects| == |nodes| == |links|
    && (forall i: nat :: 0 < i < |nodes| ==> objects[i].Holds(nodes[i]) && objects[i].CurrentLinks() == links[i])
    && (forall i: nat :: 0 < i < |nodes| ==> Linked(objects, links, nodes, i))
  }
}
