/** Flattening a finished sample tree in place into one chain, and giving the chain back to the
    allocator.

    A Tree is the finite tree the links spell out; its preorder is the chain. */
module Flatten {
  import opened SampleObjects

  /** A finite tree of samples, as its links spell it out. */
  datatype Tree = Tree(node: Sample, children: seq<Tree>)

  ghost function Preorder(t: Tree): (r: seq<Sample>)
    ensures r != [] && r[0] == t.node
    decreases t, 0
  {
    [t.node] + PreorderAll(t.children)
  }

  ghost function PreorderAll(ts: seq<Tree>): seq<Sample>
    decreases ts
  {
    if ts == [] then [] else Preorder(ts[0]) + PreorderAll(ts[1..])
  }

  /** The samples of a tree. */
  ghost function Nodes(t: Tree): set<Sample>
    decreases t, 0
  {
    {t.node} + NodesAll(t.children)
  }

  ghost function NodesAll(ts: seq<Tree>): set<Sample>
    decreases ts
  {
    if ts == [] then {} else Nodes(ts[0]) + NodesAll(ts[1..])
  }

  lemma {:induction false} NodesInPreorder(t: Tree, x: Sample)
    ensures x in Nodes(t) <==> x in Preorder(t)
    decreases t, 0
  {
    NodesAllInPreorder(t.children, x);
  }

  lemma {:induction false} NodesAllInPreorder(ts: seq<Tree>, x: Sample)
    ensures x in NodesAll(ts) <==> x in PreorderAll(ts)
    decreases ts
  {
    if ts != [] {
      NodesInPreorder(ts[0], x);
      NodesAllInPreorder(ts[1..], x);
    }
  }

  lemma NodesAre(t: Tree)
    ensures forall x :: x in Nodes(t) ==> x in Preorder(t)
    ensures forall x :: x in Preorder(t) ==> x in Nodes(t)
  {
    forall x | x in Nodes(t) ensures x in Preorder(t) {
      NodesInPreorder(t, x);
    }
    forall x | x in Preorder(t) ensures x in Nodes(t) {
      NodesInPreorder(t, x);
    }
  }

  lemma NodesAllAre(ts: seq<Tree>)
    ensures forall x :: x in NodesAll(ts) ==> x in PreorderAll(ts)
    ensures forall x :: x in PreorderAll(ts) ==> x in NodesAll(ts)
  {
    forall x | x in NodesAll(ts) ensures x in PreorderAll(ts) {
      NodesAllInPreorder(ts, x);
    }
    forall x | x in PreorderAll(ts) ensures x in NodesAll(ts) {
      NodesAllInPreorder(ts, x);
    }
  }

  ghost function First(ts: seq<Tree>): Sample? {
    if ts == [] then null else ts[0].node
  }

  /** The links of the samples spell out the tree. */
  ghost predicate Built(t: Tree)
    reads Nodes(t)`firstChild, Nodes(t)`nextSibling
    decreases t, 0
  {
    t.node.firstChild == First(t.children) && BuiltAll(t.children)
  }

  /** The trees are siblings in this order, the last one's link empty. */
  ghost predicate BuiltAll(ts: seq<Tree>)
    reads NodesAll(ts)`firstChild, NodesAll(ts)`nextSibling
    decreases ts
  {
    ts != [] ==> Built(ts[0]) && ts[0].node.nextSibling == First(ts[1..]) && BuiltAll(ts[1..])
  }

  ghost predicate Cleared(s: seq<Sample>)
    reads s`firstChild, s`lastChild, s`nbChildren
  {
    forall x :: x in s ==> x.firstChild == null && x.lastChild == null && x.nbChildren == 0
  }

  /** Chain the samples of a tree in preorder, count them, and clear their child links. */
  method FlattenSamples(sample: Sample, ghost t: Tree, nbSamples: nat) returns (curLink: Sample, count: nat)
    requires Built(t) && sample == t.node && Distinct(Preorder(t))
    modifies Nodes(t)`link, Nodes(t)`firstChild, Nodes(t)`lastChild, Nodes(t)`nbChildren
    ensures Threaded(Preorder(t)) && curLink == Last(Preorder(t)) && curLink.link == null
    ensures count == nbSamples + |Preorder(t)|
    ensures Cleared(Preorder(t))
    decreases t, 0
  {
    count := nbSamples + 1;
    sample.link := sample.firstChild;
    var child := sample.firstChild;
    DistinctParts([sample], PreorderAll(t.children));
    NodesAllAre(t.children);
    assert Preorder(t) == [sample] + PreorderAll(t.children);
    curLink, count := FlattenChildren(child, t.children, sample, count);
    sample.firstChild := null;
    sample.lastChild := null;
    sample.nbChildren := 0;
  }

  /** The loop over the children. The sample above them is linked to the first of them. */
  method FlattenChildren(first: Sample?, ghost ts: seq<Tree>, sample: Sample, nbSamples: nat)
      returns (curLink: Sample, count: nat)
    requires BuiltAll(ts) && first == First(ts) && Distinct([sample] + PreorderAll(ts)) && sample.link == first
    modifies NodesAll(ts)`link, NodesAll(ts)`firstChild, NodesAll(ts)`lastChild, NodesAll(ts)`nbChildren
    ensures Threaded([sample] + PreorderAll(ts)) && curLink == Last([sample] + PreorderAll(ts)) && curLink.link == null
    ensures count == nbSamples + |PreorderAll(ts)| && Cleared(PreorderAll(ts))
    decreases ts
  {
    curLink, count := sample, nbSamples;
    var child := first;
    ghost var k, done := 0, [];
    assert ts[0..] == ts && [sample] + done == [sample];
    while child != null
      invariant k <= |ts| && child == First(ts[k..])
      invariant PreorderAll(ts) == done + PreorderAll(ts[k..])
      invariant BuiltAll(ts[k..]) && NodesAll(ts[k..]) <= NodesAll(ts)
      invariant Threaded([sample] + done) && curLink == Last([sample] + done) && curLink.link == child
      invariant count == nbSamples + |done| && Cleared(done)
      decreases |ts| - k
    {
      ghost var rest := ts[k..];
      NextTree(ts, k, done);
      curLink, count := FlattenNext(child, sample, done, rest, count);
      done := done + Preorder(rest[0]);
      k := k + 1;
      child := child.nextSibling;
    }
    assert done == PreorderAll(ts);
  }

  lemma NextTree(ts: seq<Tree>, k: nat, done: seq<Sample>)
    requires k < |ts| && PreorderAll(ts) == done + PreorderAll(ts[k..])
    ensures ts[k..][1..] == ts[k + 1..]
    ensures PreorderAll(ts) == (done + Preorder(ts[k])) + PreorderAll(ts[k + 1..])
    ensures NodesAll(ts[k..]) == Nodes(ts[k]) + NodesAll(ts[k + 1..])
  {
    assert ts[k..][1..] == ts[k + 1..];
    assert PreorderAll(ts[k..]) == Preorder(ts[k]) + PreorderAll(ts[k + 1..]);
    Regroup(done, Preorder(ts[k]), PreorderAll(ts[k + 1..]));
  }

  lemma Regroup(a: seq<Sample>, b: seq<Sample>, c: seq<Sample>)
    ensures (a + b) + c == a + (b + c)
  {
  }

  /** One turn of the loop: flatten a child and link its last sample to the next child. */
  method FlattenNext(child: Sample, ghost sample: Sample, ghost done: seq<Sample>, ghost rest: seq<Tree>, nbSamples: nat)
      returns (lastLink: Sample, count: nat)
    requires rest != [] && child == rest[0].node && BuiltAll(rest) && Distinct([sample] + (done + PreorderAll(rest)))
    requires Threaded([sample] + done) && Last([sample] + done).link == child && Cleared(done)
    modifies Nodes(rest[0])`link, Nodes(rest[0])`firstChild, Nodes(rest[0])`lastChild, Nodes(rest[0])`nbChildren
    ensures BuiltAll(rest[1..])
    ensures var done' := done + Preorder(rest[0]);
      Threaded([sample] + done') && lastLink == Last([sample] + done') && Cleared(done')
    ensures lastLink.link == First(rest[1..]) == child.nextSibling
    ensures count == nbSamples + |Preorder(rest[0])|
    decreases rest[0], 1
  {
    ghost var here, before := Preorder(rest[0]), [sample] + done;
    Separate(sample, done, rest);
    ghost var after := rest[1..];
    Apart(rest[0], before, after);
    assert BuiltAll(after) && allocated(NodesAll(after)) && allocated(here);
    assert Last(before) in before && forall x :: x in done ==> x in before;
    lastLink, count := FlattenSamples(child, rest[0], nbSamples);
    assert BuiltAll(after) && Threaded(before) && Cleared(done);
    assert here[|here| - 1] in here;
    LinkOn(sample, done, here, lastLink, child.nextSibling);
  }

  /** Link the end of the thread to what comes next. */
  method LinkOn(ghost sample: Sample, ghost done: seq<Sample>, ghost here: seq<Sample>, last: Sample, next: Sample?)
    requires here != [] && Threaded([sample] + done) && Threaded(here) && Last([sample] + done).link == here[0]
    requires Cleared(done) && Cleared(here) && Distinct(here) && Disjoint([sample] + done, here) && last == Last(here)
    modifies last`link
    ensures Threaded([sample] + (done + here)) && Last([sample] + (done + here)) == last && last.link == next
    ensures Cleared(done + here)
  {
    Relink(here, last, next);
    assert Last([sample] + done) in [sample] + done && last in here;
    JoinThread(sample, done, here);
  }

  lemma JoinThread(sample: Sample, done: seq<Sample>, here: seq<Sample>)
    requires here != [] && Threaded([sample] + done) && Threaded(here) && Last([sample] + done).link == here[0]
    requires Cleared(done) && Cleared(here)
    ensures Threaded([sample] + (done + here)) && Last([sample] + (done + here)) == Last(here)
    ensures Cleared(done + here)
  {
    ThreadedParts([sample] + done, here);
    assert ([sample] + done) + here == [sample] + (done + here);
  }

  lemma Apart(t: Tree, before: seq<Sample>, after: seq<Tree>)
    requires Disjoint(before, Preorder(t)) && Disjoint(Preorder(t), PreorderAll(after))
    ensures Nodes(t) !! NodesAll(after)
    ensures forall x :: x in before ==> x !in Nodes(t)
    ensures forall x :: x in Preorder(t) ==> x in Nodes(t)
  {
    NodesAre(t);
    NodesAllAre(after);
  }

  /** The samples done, those of the next tree, and those after it are all different. */
  lemma Separate(sample: Sample, done: seq<Sample>, rest: seq<Tree>)
    requires rest != [] && Distinct([sample] + (done + PreorderAll(rest)))
    ensures Distinct(Preorder(rest[0])) && Distinct(PreorderAll(rest[1..])) && Distinct([sample] + done)
    ensures Disjoint([sample] + done, Preorder(rest[0])) && Disjoint(Preorder(rest[0]), PreorderAll(rest[1..]))
    ensures Disjoint([sample] + done, PreorderAll(rest[1..]))
  {
    var here, after := Preorder(rest[0]), PreorderAll(rest[1..]);
    assert [sample] + (done + PreorderAll(rest)) == ([sample] + done) + (here + after);
    DistinctParts([sample] + done, here + after);
    DistinctParts(here, after);
    assert forall x :: x in here || x in after ==> x in here + after;
  }

  // ---------------------------------------------------------------------------------------------
  // Giving the samples back
  // ---------------------------------------------------------------------------------------------

  /** Freeing a tree moves exactly its samples to the free list, in preorder, and moves as many from
      one counter to the other. */
  method FreeSamples(sample: Sample, allocator: Allocator, ghost t: Tree)
    requires Built(t) && sample == t.node && Distinct(Preorder(t))
    requires allocator.Valid() && Disjoint(Preorder(t), allocator.free)
    modifies allocator, Nodes(t)`link, Nodes(t)`firstChild, Nodes(t)`lastChild, Nodes(t)`nbChildren
    ensures allocator.Valid() && allocator.free == Preorder(t) + old(allocator.free)
    ensures allocator.nbFree == old(allocator.nbFree) + |Preorder(t)|
    ensures allocator.nbInuse == old(allocator.nbInuse) - |Preorder(t)|
  {
    ghost var all := Preorder(t);
    NodesAre(t);
    var lastLink, nbClearedSamples := FlattenSamples(sample, t, 0);
    assert allocator.Valid();
    assert Last(all) in all;
    if sample.link != null {
      allocator.FreeRange(sample, lastLink, nbClearedSamples, all);
    } else {
      assert |all| > 1 ==> LinkedToNext(all, 0);
      assert all == [sample];
      allocator.Free(sample);
    }
  }
}
