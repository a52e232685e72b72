/** The tree a thread hands over. */
module SentTrees {
  import opened Samples
  import opened SampleObjects
  import opened SampleTrees
  import SampleRuns
  import Flatten

  // When its outermost sample ends, the tree is one that flattening accepts, and freeing it frees
  // every sample taken since the thread was last at its root.

  ghost predicate AllBetween(numbers: seq<nat>, low: nat, high: nat) {
    forall c :: c in numbers ==> low < c < high
  }

  ghost function TreeOf(objects: seq<Sample>, nodes: seq<Info>, i: nat): Flatten.Tree
    requires Shape(nodes) && |objects| == |nodes| && i < |nodes|
    decreases |nodes| - i, 1
  {
    assert ChildrenRight(nodes, i);
    Flatten.Tree(objects[i], TreesOf(objects, nodes, i, nodes[i].children))
  }

  ghost function TreesOf(objects: seq<Sample>, nodes: seq<Info>, i: nat, children: seq<nat>): seq<Flatten.Tree>
    requires Shape(nodes) && |objects| == |nodes| && AllBetween(children, i, |nodes|)
    decreases |nodes| - i, 0, |children|
  {
    if children == [] then []
    else
      SampleRuns.Split(children);
      [TreeOf(objects, nodes, children[0])] + TreesOf(objects, nodes, i, children[1..])
  }

  /** The objects with the given numbers. */
  ghost function Named(objects: seq<Sample>, numbers: seq<nat>): (r: seq<Sample>)
    requires forall x :: x in numbers ==> x < |objects|
    ensures |r| == |numbers|
    ensures forall k :: 0 <= k < |r| ==> numbers[k] < |objects| && r[k] == objects[numbers[k]]
  {
    if numbers == [] then []
    else
      SampleRuns.Split(numbers);
      [objects[numbers[0]]] + Named(objects, numbers[1..])
  }

  lemma {:induction false} PreorderIs(objects: seq<Sample>, nodes: seq<Info>, i: nat)
    requires Shape(nodes) && |objects| == |nodes| && i < |nodes|
    ensures forall x :: x in SampleRuns.Preorder(nodes, i) ==> x < |objects|
    ensures Flatten.Preorder(TreeOf(objects, nodes, i)) == Named(objects, SampleRuns.Preorder(nodes, i))
    decreases |nodes| - i, 1
  {
    assert ChildrenRight(nodes, i);
    PreorderOfIs(objects, nodes, i, nodes[i].children);
  }

  lemma {:induction false} PreorderOfIs(objects: seq<Sample>, nodes: seq<Info>, i: nat, children: seq<nat>)
    requires Shape(nodes) && |objects| == |nodes| && AllBetween(children, i, |nodes|)
    ensures forall x :: x in SampleRuns.PreorderOf(nodes, i, children) ==> x < |objects|
    ensures Flatten.PreorderAll(TreesOf(objects, nodes, i, children)) == Named(objects, SampleRuns.PreorderOf(nodes, i, children))
    decreases |nodes| - i, 0, |children|
  {
    if children != [] {
      SampleRuns.Split(children);
      PreorderIs(objects, nodes, children[0]);
      PreorderOfIs(objects, nodes, i, children[1..]);
      ConsTree(TreeOf(objects, nodes, children[0]), TreesOf(objects, nodes, i, children[1..]));
      NamedConcat(objects, SampleRuns.Preorder(nodes, children[0]), SampleRuns.PreorderOf(nodes, i, children[1..]));
    }
  }

  lemma ConsTree(t: Flatten.Tree, ts: seq<Flatten.Tree>)
    ensures Flatten.PreorderAll([t] + ts) == Flatten.Preorder(t) + Flatten.PreorderAll(ts)
  {
    assert ([t] + ts)[1..] == ts;
  }

  lemma NamedConcat(objects: seq<Sample>, a: seq<nat>, b: seq<nat>)
    requires (forall x :: x in a ==> x < |objects|) && (forall x :: x in b ==> x < |objects|)
    ensures forall x :: x in a + b ==> x < |objects|
    ensures Named(objects, a + b) == Named(objects, a) + Named(objects, b)
  {
  }

  /** Links that follow the numbers spell out the tree. */
  lemma {:induction false} IsBuilt(objects: seq<Sample>, links: seq<Links>, nodes: seq<Info>, i: nat)
    requires Shape(nodes) && Detached(objects, links, nodes) && 0 < i < |nodes|
    ensures Flatten.Built(TreeOf(objects, nodes, i))
    decreases |nodes| - i, 1
  {
    var children := nodes[i].children;
    assert ChildrenRight(nodes, i) && Linked(objects, links, nodes, i);
    assert objects[i].CurrentLinks() == links[i];
    assert children[0..] == children;
    AreBuilt(objects, links, nodes, i, 0);
    if children != [] {
      NextIs(objects, nodes, i, 0);
    }
  }

  lemma {:induction false} AreBuilt(objects: seq<Sample>, links: seq<Links>, nodes: seq<Info>, i: nat, k: nat)
    requires Shape(nodes) && Detached(objects, links, nodes) && 0 < i < |nodes| && k <= |nodes[i].children|
    requires AllBetween(nodes[i].children[k..], i, |nodes|)
    ensures Flatten.BuiltAll(TreesOf(objects, nodes, i, nodes[i].children[k..]))
    decreases |nodes| - i, 0, |nodes[i].children| - k
  {
    var children := nodes[i].children;
    if k < |children| {
      SampleRuns.Split(children[k..]);
      assert children[k..][1..] == children[k + 1..];
      assert Linked(objects, links, nodes, i) && SiblingLinked(objects, links, children, k);
      assert objects[children[k]].CurrentLinks() == links[children[k]];
      IsBuilt(objects, links, nodes, children[k]);
      AreBuilt(objects, links, nodes, i, k + 1);
      NextIs(objects, nodes, i, k);
    }
  }

  lemma NextIs(objects: seq<Sample>, nodes: seq<Info>, i: nat, k: nat)
    requires Shape(nodes) && |objects| == |nodes| && i < |nodes| && k < |nodes[i].children|
    requires AllBetween(nodes[i].children[k..], i, |nodes|)
    ensures var children := nodes[i].children;
      var ts := TreesOf(objects, nodes, i, children[k..]);
      && children[k] < |nodes| && ts != [] && ts[0] == TreeOf(objects, nodes, children[k])
      && AllBetween(children[k + 1..], i, |nodes|)
      && ts[1..] == TreesOf(objects, nodes, i, children[k + 1..])
      && (k + 1 < |children| ==> children[k + 1] < |nodes| && Flatten.First(ts[1..]) == objects[children[k + 1]])
      && (k + 1 == |children| ==> Flatten.First(ts[1..]) == null)
  {
    var children := nodes[i].children;
    SampleRuns.Split(children[k..]);
    assert children[k..][1..] == children[k + 1..];
    if k + 1 < |children| {
      assert children[k + 1] in children[k + 1..];
    }
  }

  /** A finished tree: linked up, every sample in it once, and no sample of the run missing. */
  lemma FinishedTree(objects: seq<Sample>, links: seq<Links>, nodes: seq<Info>)
    requires Detached(objects, links, nodes) && SentRight(nodes)
    ensures var t := TreeOf(objects, nodes, 1);
      && t.node == objects[1] && Flatten.Built(t) && Distinct(Flatten.Preorder(t))
      && |Flatten.Preorder(t)| == |nodes| - 1
      && forall k :: 0 < k < |nodes| ==> objects[k] in Flatten.Preorder(t)
  {
    var t := TreeOf(objects, nodes, 1);
    var numbers := SampleRuns.Preorder(nodes, 1);
    IsBuilt(objects, links, nodes, 1);
    PreorderIs(objects, nodes, 1);
    SampleRuns.SentTreeComplete(nodes);
    forall k | 0 < k < |nodes| ensures objects[k] in Flatten.Preorder(t) {
      assert k in numbers;
      var j :| 0 <= j < |numbers| && numbers[j] == k;
      assert Named(objects, numbers)[j] == objects[k];
    }
    var named := Named(objects, numbers);
    forall j, k | 0 <= j < k < |named| ensures named[j] != named[k] {
      assert numbers[j] != numbers[k];
    }
  }

  /** The samples taken off the profiler are not free and no longer its own. */
  lemma FinishedApart(objects: seq<Sample>, links: seq<Links>, nodes: seq<Info>, free: seq<Sample>)
    requires Detached(objects, links, nodes) && SentRight(nodes) && Disjoint(objects, free)
    ensures Disjoint(Flatten.Preorder(TreeOf(objects, nodes, 1)), free)
    ensures forall x :: x in Flatten.Preorder(TreeOf(objects, nodes, 1)) ==> x in objects && x != objects[0]
  {
    PreorderIs(objects, nodes, 1);
    var numbers := SampleRuns.Preorder(nodes, 1);
    SampleRuns.SentTreeComplete(nodes);
    var named := Named(objects, numbers);
    forall x | x in named ensures x in objects && x != objects[0] {
      var k :| 0 <= k < |named| && named[k] == x;
      assert numbers[k] in numbers;
    }
  }

  /** Once what an End hands over has been sent and freed, the allocator's count of objects in use has
      fallen by exactly the samples that left the tree: none is lost and none is freed twice. */
  method EndAndFree(tree: SampleTree, now: nat)
    requires tree.Valid() && tree.state.current != 0
    modifies tree, tree.objects, tree.allocator, tree.allocator.free
    ensures tree.Valid() && tree.state == Samples.End(old(tree.state), now)
    ensures tree.allocator.nbInuse - |tree.objects| == old(tree.allocator.nbInuse) - |old(tree.objects)|
    ensures |tree.allocator.free| + |tree.objects| == |old(tree.allocator.free)| + |old(tree.objects)|
    ensures forall x :: x in old(tree.objects) ==> x in tree.objects || x in tree.allocator.free
  {
    ghost var objects, links, free := tree.objects, tree.links, tree.allocator.free;
    var finished := tree.End(now);
    if finished != null {
      ghost var nodes := tree.state.sent[|tree.state.sent| - 1];
      assert SentRight(nodes);
      ghost var t := TreeOf(objects, nodes, 1);
      FinishedTree(objects, links, nodes);
      FinishedApart(objects, links, nodes, free);
      Flatten.NodesAre(t);
      assert forall x :: x in Flatten.Nodes(t) ==> x in objects;
      Flatten.FreeSamples(finished, tree.allocator, t);
    }
  }
}
