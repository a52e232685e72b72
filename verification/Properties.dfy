/** Remotery's properties: registered lazily, parents first, into a tree under a root, and written out
    as one linear list. */
module Properties {
  import opened Options

  class Property {
    const id: nat
    ghost const level: nat  // how deep the declared parent links put it; acyclic links give every property one
    var initialised: bool
    var parent: Property?
    var firstChild: Property?
    var lastChild: Property?
    var nextSibling: Property?
    ghost var Children: seq<Property>

    /** A property as its macro declares it. */
    constructor (id: nat, parent: Property?, ghost level: nat)
      ensures this.id == id && this.level == level && this.parent == parent && !initialised
      ensures firstChild == null && lastChild == null && nextSibling == null && Children == []
    {
      this.id := id;
      this.level := level;
      this.parent := parent;
      initialised := false;
      firstChild, lastChild, nextSibling := null, null, null;
      Children := [];
    }
  }

  ghost function At(s: seq<Property>, i: int): Property? {
    if 0 <= i < |s| then s[i] else null
  }

  ghost predicate Distinct(s: seq<Property>) {
    forall i, j :: 0 <= i < j < |s| ==> s[i] != s[j]
  }

  /** The child list of `p` spells out `children`. */
  ghost predicate Spells(p: Property, children: seq<Property>)
    reads p`firstChild, p`lastChild, children`nextSibling
  {
    && Distinct(children)
    && p.firstChild == At(children, 0) && p.lastChild == At(children, |children| - 1)
    && forall i: nat :: i < |children| ==> NextIs(children, i)
  }

  ghost predicate NextIs(children: seq<Property>, i: nat)
    requires i < |children|
    reads children`nextSibling
  {
    children[i].nextSibling == At(children, i + 1)
  }

  /** A declared property: its parent, if it names one, is declared above it. */
  ghost predicate Declared(p: Property, root: Property, all: set<Property>)
    reads p`parent
  {
    (p == root <==> p.level == 0) && (p != root && p.parent != null ==> p.parent in all && p.parent.level < p.level)
  }

  /** A child list holds registered properties only, each with this parent. */
  ghost predicate ListOk(p: Property, root: Property, all: set<Property>)
    requires p in all
    reads all
  {
    && (forall c :: c in p.Children ==> c in all && c != root && c.initialised && c.parent == p)
    && Spells(p, p.Children)
  }

  /** A registered property is in the list of its parent, which is registered too; one that is not
      registered has no children yet and nothing after it. */
  ghost predicate Placed(p: Property, root: Property, all: set<Property>)
    requires p in all
    reads all
  {
    && (p.initialised && p != root ==>
          p.parent != null && p.parent in all && p.parent.initialised && p in p.parent.Children)
    && (!p.initialised ==> p.Children == [] && p.nextSibling == null)
  }

  ghost predicate AllDeclared(root: Property, all: set<Property>)
    reads all`parent
  {
    forall p :: p in all ==> Declared(p, root, all)
  }

  ghost predicate Wf(root: Property, all: set<Property>)
    reads all
  {
    && root in all && root.initialised && AllDeclared(root, all)
    && (forall p :: p in all ==> ListOk(p, root, all))
    && (forall p :: p in all ==> Placed(p, root, all))
  }

  /** Before any registration: only the root counts as registered, and all lists are empty. */
  ghost predicate Start(root: Property, all: set<Property>)
    reads all
  {
    && root in all && root.initialised && AllDeclared(root, all)
    && (forall p :: p in all ==> p.Children == [] && p.firstChild == null && p.lastChild == null)
    && (forall p :: p in all && p != root ==> !p.initialised && p.nextSibling == null)
  }

  lemma StartWf(root: Property, all: set<Property>)
    requires Start(root, all)
    ensures Wf(root, all)
  {
    forall p | p in all ensures ListOk(p, root, all) && Placed(p, root, all) {
    }
  }

  /** Where a property goes: under its declared parent, or under the root. */
  function Above(p: Property, root: Property): Property
    reads p`parent
  {
    if p.parent == null then root else p.parent
  }

  /** `p` and the properties above it, up to the root. */
  ghost function Line(p: Property, root: Property, all: set<Property>): (r: set<Property>)
    requires root in all && p in all && AllDeclared(root, all)
    reads all`parent
    ensures p in r && forall q :: q in r ==> q in all && q.level <= p.level
    decreases p.level
  {
    assert Declared(p, root, all) && Declared(root, root, all);
    if p == root then {p} else {p} + Line(Above(p, root), root, all)
  }

  /** Where every property goes. Registering changes none of it. */
  ghost function Places(root: Property, all: set<Property>): map<Property, Property>
    reads all`parent
  {
    map p | p in all :: Above(p, root)
  }

  /** Places that lead up to the root. */
  ghost predicate Upward(root: Property, places: map<Property, Property>) {
    forall p :: p in places && p != root ==> places[p] in places && places[p].level < p.level
  }

  ghost function LineUp(p: Property, root: Property, places: map<Property, Property>): set<Property>
    requires Upward(root, places) && p in places
    decreases p.level
  {
    if p == root then {p} else {p} + LineUp(places[p], root, places)
  }

  lemma PlacesUpward(root: Property, all: set<Property>)
    requires root in all && AllDeclared(root, all)
    ensures Upward(root, Places(root, all))
  {
    forall p | p in all && p != root ensures Above(p, root) in all && Above(p, root).level < p.level {
      assert Declared(p, root, all) && Declared(root, root, all);
    }
  }

  lemma {:induction false} LineIsUp(p: Property, root: Property, all: set<Property>)
    requires root in all && p in all && AllDeclared(root, all) && Upward(root, Places(root, all))
    ensures Line(p, root, all) == LineUp(p, root, Places(root, all))
    decreases p.level
  {
    assert Declared(p, root, all) && Declared(root, root, all);
    if p != root {
      LineIsUp(Above(p, root), root, all);
    }
  }

  /** Link a property into its parent's list. */
  method LinkLast(parent: Property, property: Property, ghost children: seq<Property>)
    requires Spells(parent, children) && property !in children && property.nextSibling == null
    modifies parent`firstChild, parent`lastChild, children`nextSibling
    ensures Spells(parent, children + [property])
  {
    if parent.firstChild != null {
      parent.lastChild.nextSibling := property;
      parent.lastChild := property;
    } else {
      parent.firstChild := property;
      parent.lastChild := property;
    }
    ghost var all := children + [property];
    forall i: nat | i < |all| ensures NextIs(all, i) {
      assert i < |children| ==> old(NextIs(children, i));
    }
  }

  /** Add an unregistered property under its registered parent. */
  method Attach(parent: Property, property: Property, root: Property, ghost all: set<Property>)
    requires Wf(root, all) && property in all && !property.initialised && parent in all && parent.initialised
    requires property.parent == parent
    modifies all`firstChild, all`lastChild, all`nextSibling, parent`Children, property`initialised
    ensures Wf(root, all) && property.initialised
    ensures parent.Children == old(parent.Children) + [property]
  {
    ghost var children := parent.Children;
    assert ListOk(parent, root, all) && Placed(property, root, all);
    ChildrenApart(root, all, parent);
    AttachLast(parent, property, root, all);
    forall q | q in all ensures Placed(q, root, all) {
      assert old(Placed(q, root, all));
      if q in children {
        assert q in children + [property];
      }
    }
  }

  method AttachLast(parent: Property, property: Property, root: Property, ghost all: set<Property>)
    requires property in all && !property.initialised && property != root && parent in all && parent != property
    requires property.parent == parent && property.nextSibling == null
    requires forall q :: q in all ==> ListOk(q, root, all)
    requires forall q :: q in all && q != parent ==> Disjoint(parent.Children, q.Children)
    modifies all`firstChild, all`lastChild, all`nextSibling, parent`Children, property`initialised
    ensures forall q :: q in all ==> ListOk(q, root, all)
    ensures property.initialised && parent.Children == old(parent.Children) + [property]
    ensures forall q :: q in all && q !in old(parent.Children) ==> q.nextSibling == old(q.nextSibling)
  {
    ghost var children := parent.Children;
    assert ListOk(parent, root, all);
    LinkLast(parent, property, children);
    parent.Children := children + [property];
    property.initialised := true;
    forall q | q in all ensures ListOk(q, root, all) {
      if q != parent {
        assert old(ListOk(q, root, all));
        ghost var others := q.Children;
        assert Disjoint(children, others);
        forall i: nat | i < |others| ensures NextIs(others, i) {
          assert old(NextIs(others, i)) && others[i] in others;
        }
      }
    }
  }

  ghost predicate Disjoint(a: seq<Property>, b: seq<Property>) {
    forall x :: x in a ==> x !in b
  }

  lemma ChildrenApart(root: Property, all: set<Property>, p: Property)
    requires Wf(root, all) && p in all
    ensures forall q :: q in all && q != p ==> Disjoint(p.Children, q.Children)
  {
    assert ListOk(p, root, all);
    forall q | q in all && q != p ensures Disjoint(p.Children, q.Children) {
      assert ListOk(q, root, all);
    }
  }

  /** A registered property's line is registered. */
  lemma {:induction false} LineRegistered(p: Property, root: Property, all: set<Property>)
    requires Wf(root, all) && p in all && p.initialised
    ensures forall q :: q in Line(p, root, all) ==> q.initialised
    decreases p.level
  {
    assert Declared(p, root, all) && Declared(root, root, all) && Placed(p, root, all);
    if p != root {
      LineRegistered(p.parent, root, all);
    }
  }

  /** Registering a property registers exactly it and the properties above it. */
  method RegisterProperty(property: Property, root: Property, ghost all: set<Property>)
    requires Wf(root, all) && property in all
    modifies all
    ensures Wf(root, all) && property.initialised
    ensures forall q :: q in all ==> (q.initialised <==> old(q.initialised) || q in old(Line(property, root, all)))
    ensures forall q :: q in all ==> old(q.Children) <= q.Children && (old(q.parent) != null ==> q.parent == old(q.parent))
    ensures Places(root, all) == old(Places(root, all))
    decreases property.level, 1
  {
    if !property.initialised {
      assert Declared(property, root, all) && Declared(root, root, all);
      RegisterAbove(property, root, all);
      Attach(property.parent, property, root, all);
    } else {
      LineRegistered(property, root, all);
    }
  }

  /** The parent first, the root standing in for a parent that was not named. */
  method RegisterAbove(property: Property, root: Property, ghost all: set<Property>)
    requires Wf(root, all) && property in all && !property.initialised && property != root
    modifies all
    ensures Wf(root, all) && property.parent != null && property.parent in all && property.parent.initialised
    ensures !property.initialised
    ensures forall q :: q in all ==>
      (q.initialised <==> old(q.initialised) || (q != property && q in old(Line(property, root, all))))
    ensures forall q :: q in all ==> old(q.Children) <= q.Children && (old(q.parent) != null ==> q.parent == old(q.parent))
    ensures Places(root, all) == old(Places(root, all))
    decreases property.level, 0
  {
    assert Declared(property, root, all) && Declared(root, root, all);
    ghost var line := Line(property, root, all);
    if property.parent == null {
      Adopt(property, root, all);
      LineRegistered(root, root, all);
      assert line == {property, root};
    } else {
      assert line == {property} + Line(property.parent, root, all);
    }
    RegisterProperty(property.parent, root, all);
  }

  /** A property declared without a parent is put under the root. */
  method Adopt(property: Property, root: Property, ghost all: set<Property>)
    requires Wf(root, all) && property in all && !property.initialised && property.parent == null
    modifies property`parent
    ensures Wf(root, all) && property.parent == root && Places(root, all) == old(Places(root, all))
  {
    assert Declared(property, root, all) && Declared(root, root, all) && Placed(property, root, all);
    property.parent := root;
    forall q | q in all ensures ListOk(q, root, all) && Placed(q, root, all) && Declared(q, root, all) {
      assert old(ListOk(q, root, all)) && old(Placed(q, root, all)) && old(Declared(q, root, all));
      assert property !in q.Children;
    }
  }

  /** In a line of one of the properties. */
  ghost predicate InALine(q: Property, properties: seq<Property>, root: Property, places: map<Property, Property>)
  {
    Upward(root, places) && exists i :: 0 <= i < |properties| && properties[i] in places && q in LineUp(properties[i], root, places)
  }

  /** Any registrations in any order, from the start: what is registered then is the root and the lines
      of the properties, as they were declared. */
  method RegisterAll(properties: seq<Property>, root: Property, ghost all: set<Property>)
    requires Start(root, all) && forall p :: p in properties ==> p in all
    modifies all
    ensures Wf(root, all)
    ensures forall q :: q in all ==> (q.initialised <==> q == root || InALine(q, properties, root, old(Places(root, all))))
  {
    StartWf(root, all);
    PlacesUpward(root, all);
    ghost var places := Places(root, all);
    for i := 0 to |properties|
      invariant Wf(root, all) && Places(root, all) == places
      invariant forall q :: q in all ==> (q.initialised <==> q == root || InALine(q, properties[..i], root, places))
    {
      assert properties[i] in properties;
      LineIsUp(properties[i], root, all);
      RegisterProperty(properties[i], root, all);
      forall q | q in all ensures InALine(q, properties[..i + 1], root, places) <==>
        InALine(q, properties[..i], root, places) || q in LineUp(properties[i], root, places)
      {
        OneMoreLine(q, properties, i, root, places);
      }
    }
    assert properties[..|properties|] == properties;
  }

  lemma OneMoreLine(q: Property, properties: seq<Property>, i: nat, root: Property, places: map<Property, Property>)
    requires Upward(root, places) && i < |properties| && properties[i] in places
    ensures InALine(q, properties[..i + 1], root, places) <==>
      InALine(q, properties[..i], root, places) || q in LineUp(properties[i], root, places)
  {
    var now, next := properties[..i], properties[..i + 1];
    assert next == now + [properties[i]];
    if j :| 0 <= j < |now| && now[j] in places && q in LineUp(now[j], root, places) {
      assert next[j] == now[j];
    }
    if q in LineUp(properties[i], root, places) {
      assert next[i] == properties[i];
    }
  }

  // ---------------------------------------------------------------------------------------------
  // Snapshots
  // ---------------------------------------------------------------------------------------------

  /** The registered properties below one, as a tree. */
  datatype Tree = Tree(node: Property, children: seq<Tree>)

  ghost predicate Bounded(all: set<Property>, bound: nat) {
    forall p :: p in all ==> p.level <= bound
  }

  ghost predicate AllBelow(children: seq<Property>, level: nat, all: set<Property>) {
    forall c :: c in children ==> c in all && level < c.level
  }

  lemma ChildrenBelow(p: Property, root: Property, all: set<Property>)
    requires Wf(root, all) && p in all
    ensures AllBelow(p.Children, p.level, all)
  {
    assert ListOk(p, root, all);
    forall c | c in p.Children ensures c in all && p.level < c.level {
      assert Declared(c, root, all);
    }
  }

  ghost function TreeOf(p: Property, root: Property, all: set<Property>, bound: nat): Tree
    requires Wf(root, all) && p in all && Bounded(all, bound)
    reads all
    decreases bound - p.level, 1
  {
    ChildrenBelow(p, root, all);
    Tree(p, TreesOf(p.Children, p.level, root, all, bound))
  }

  ghost function TreesOf(children: seq<Property>, level: nat, root: Property, all: set<Property>, bound: nat): (r: seq<Tree>)
    requires Wf(root, all) && Bounded(all, bound) && level <= bound && AllBelow(children, level, all)
    reads all
    ensures |r| == |children|
    decreases bound - level, 0, |children|
  {
    if children == [] then []
    else
      assert children[0] in children && AllBelow(children[1..], level, all);
      [TreeOf(children[0], root, all, bound)] + TreesOf(children[1..], level, root, all, bound)
  }

  /** One record of the linear list. */
  datatype Snapshot = Snapshot(id: nat, nbChildren: nat, depth: nat)

  /** The tree, each property before its children, with how many those are. */
  function Linear(t: Tree, depth: nat): seq<Snapshot>
    decreases t, 0
  {
    [Snapshot(t.node.id, |t.children|, depth % 256)] + LinearAll(t.children, depth + 1)
  }

  function LinearAll(ts: seq<Tree>, depth: nat): seq<Snapshot>
    decreases ts
  {
    if ts == [] then [] else Linear(ts[0], depth) + LinearAll(ts[1..], depth)
  }

  /** What a reader of the list can know of the tree. */
  datatype View = View(id: nat, children: seq<View>)

  function ViewOf(t: Tree): View
    decreases t, 0
  {
    View(t.node.id, ViewsOf(t.children))
  }

  function ViewsOf(ts: seq<Tree>): seq<View>
    decreases ts
  {
    if ts == [] then [] else [ViewOf(ts[0])] + ViewsOf(ts[1..])
  }

  /** Rebuild a tree from the front of the list by the counts alone. */
  function Rebuild(list: seq<Snapshot>): (r: Option<(View, seq<Snapshot>)>)
    ensures r.Some? ==> |r.value.1| < |list|
    decreases |list|, 0
  {
    if list == [] then None
    else
      match RebuildAll(list[1..], list[0].nbChildren)
      case None => None
      case Some((children, rest)) => Some((View(list[0].id, children), rest))
  }

  function RebuildAll(list: seq<Snapshot>, count: nat): (r: Option<(seq<View>, seq<Snapshot>)>)
    ensures r.Some? ==> |r.value.1| <= |list|
    decreases |list|, 1, count
  {
    if count == 0 then Some(([], list))
    else
      match Rebuild(list)
      case None => None
      case Some((first, rest)) =>
        match RebuildAll(rest, count - 1)
        case None => None
        case Some((more, end)) => Some(([first] + more, end))
  }

  /** The counts of a list determine the tree it came from. */
  lemma {:induction false} Rebuilds(t: Tree, depth: nat, rest: seq<Snapshot>)
    ensures Rebuild(Linear(t, depth) + rest) == Some((ViewOf(t), rest))
    decreases t, 0
  {
    var list := Linear(t, depth) + rest;
    assert list[1..] == LinearAll(t.children, depth + 1) + rest;
    RebuildsAll(t.children, depth + 1, rest);
  }

  lemma {:induction false} RebuildsAll(ts: seq<Tree>, depth: nat, rest: seq<Snapshot>)
    ensures RebuildAll(LinearAll(ts, depth) + rest, |ts|) == Some((ViewsOf(ts), rest))
    decreases ts
  {
    if ts == [] {
      assert LinearAll(ts, depth) + rest == rest;
    } else {
      var more := LinearAll(ts[1..], depth) + rest;
      assert LinearAll(ts, depth) + rest == Linear(ts[0], depth) + more;
      Rebuilds(ts[0], depth, more);
      RebuildsAll(ts[1..], depth, rest);
    }
  }

  /** Trees with the same list are the same. */
  lemma ListDetermines(a: Tree, b: Tree, depth: nat)
    requires Linear(a, depth) == Linear(b, depth)
    ensures ViewOf(a) == ViewOf(b)
  {
    Rebuilds(a, depth, []);
    Rebuilds(b, depth, []);
  }

  /** The parent's record counts one more child. */
  function Counted(list: seq<Snapshot>, parentAt: Option<nat>): (r: seq<Snapshot>)
    requires parentAt.Some? ==> parentAt.value < |list|
    ensures |r| == |list|
  {
    if parentAt.None? then list
    else list[parentAt.value := list[parentAt.value].(nbChildren := list[parentAt.value].nbChildren + 1)]
  }

  lemma {:induction false} TreesAt(children: seq<Property>, level: nat, root: Property, all: set<Property>, bound: nat, k: nat)
    requires Wf(root, all) && Bounded(all, bound) && level <= bound && AllBelow(children, level, all) && k < |children|
    ensures children[k] in all
    ensures TreesOf(children, level, root, all, bound)[k] == TreeOf(children[k], root, all, bound)
    decreases k
  {
    assert children[0] in children && AllBelow(children[1..], level, all);
    if k > 0 {
      TreesAt(children[1..], level, root, all, bound, k - 1);
    }
  }

  lemma CountChild(base: seq<Snapshot>, id: nat, k: nat, depth: nat, done: seq<Snapshot>, more: seq<Snapshot>)
    ensures Counted(base + [Snapshot(id, k, depth)] + done, Some(|base|)) + more
      == base + [Snapshot(id, k + 1, depth)] + (done + more)
  {
    assert Counted(base + [Snapshot(id, k, depth)] + done, Some(|base|)) == base + [Snapshot(id, k + 1, depth)] + done;
  }

  // ---------------------------------------------------------------------------------------------
  // Taking the snapshot
  // ---------------------------------------------------------------------------------------------

  ghost function Nodes(t: Tree): seq<Property>
    decreases t, 0
  {
    [t.node] + NodesAll(t.children)
  }

  ghost function NodesAll(ts: seq<Tree>): seq<Property>
    decreases ts
  {
    if ts == [] then [] else Nodes(ts[0]) + NodesAll(ts[1..])
  }

  ghost function First(ts: seq<Tree>): Property? {
    if ts == [] then null else ts[0].node
  }

  ghost function NodeSet(t: Tree): set<Property>
    decreases t, 0
  {
    {t.node} + NodeSets(t.children)
  }

  ghost function NodeSets(ts: seq<Tree>): set<Property>
    decreases ts
  {
    if ts == [] then {} else NodeSet(ts[0]) + NodeSets(ts[1..])
  }

  /** The child and sibling links spell out the tree. */
  ghost predicate LinkedTree(t: Tree)
    reads NodeSet(t)`firstChild, NodeSet(t)`nextSibling
    decreases t, 0
  {
    t.node.firstChild == First(t.children) && LinkedTrees(t.children)
  }

  ghost predicate LinkedTrees(ts: seq<Tree>)
    reads NodeSets(ts)`firstChild, NodeSets(ts)`nextSibling
    decreases ts
  {
    ts != [] ==> LinkedTree(ts[0]) && ts[0].node.nextSibling == First(ts[1..]) && LinkedTrees(ts[1..])
  }

  lemma {:induction false} TreeIsLinked(p: Property, root: Property, all: set<Property>, bound: nat)
    requires Wf(root, all) && p in all && Bounded(all, bound)
    ensures LinkedTree(TreeOf(p, root, all, bound))
    decreases bound - p.level, 1
  {
    ChildrenBelow(p, root, all);
    assert ListOk(p, root, all) && p.Children[0..] == p.Children;
    TreesAreLinked(p, root, all, bound, 0);
    assert First(TreesOf(p.Children, p.level, root, all, bound)) == At(p.Children, 0);
  }

  lemma {:induction false} TreesAreLinked(p: Property, root: Property, all: set<Property>, bound: nat, k: nat)
    requires Wf(root, all) && p in all && Bounded(all, bound) && k <= |p.Children|
    requires AllBelow(p.Children[k..], p.level, all) && Spells(p, p.Children)
    ensures LinkedTrees(TreesOf(p.Children[k..], p.level, root, all, bound))
    decreases bound - p.level, 0, |p.Children| - k
  {
    var left := p.Children[k..];
    if left != [] {
      assert left[0] in left && left[1..] == p.Children[k + 1..] && NextIs(p.Children, k);
      TreeIsLinked(left[0], root, all, bound);
      TreesAreLinked(p, root, all, bound, k + 1);
      var ts := TreesOf(left, p.level, root, all, bound);
      assert ts[1..] == TreesOf(left[1..], p.level, root, all, bound);
    }
  }

  /** The record a snapshot makes of a property. */
  class PropertySnapshot {
    const id: nat
    const depth: nat
    var nbChildren: nat
    var nextSnapshot: PropertySnapshot?

    constructor (id: nat, depth: nat)
      ensures this.id == id && this.depth == depth && nbChildren == 0 && nextSnapshot == null
    {
      this.id, this.depth := id, depth;
      nbChildren, nextSnapshot := 0, null;
    }
  }

  ghost function RecordAt(records: seq<PropertySnapshot>, i: int): PropertySnapshot? {
    if 0 <= i < |records| then records[i] else null
  }

  /** Different records, each linked to the next, that read as `list`. */
  ghost predicate Chained(records: seq<PropertySnapshot>, list: seq<Snapshot>)
    reads records
  {
    && |list| == |records|
    && (forall i, j :: 0 <= i < j < |records| ==> records[i] != records[j])
    && forall i: nat :: i < |records| ==> RecordIs(records, list, i)
  }

  ghost predicate RecordIs(records: seq<PropertySnapshot>, list: seq<Snapshot>, i: nat)
    requires i < |records| == |list|
    reads records
  {
    && records[i].nextSnapshot == RecordAt(records, i + 1)
    && Snapshot(records[i].id, records[i].nbChildren, records[i].depth) == list[i]
  }

  /** The two ends of the chain of records, which the recursion passes along. */
  class Chain {
    var first: PropertySnapshot?
    var prev: PropertySnapshot?
    ghost var records: seq<PropertySnapshot>
    ghost var list: seq<Snapshot>

    ghost predicate Valid()
      reads this, records
    {
      Chained(records, list) && first == RecordAt(records, 0) && prev == RecordAt(records, |records| - 1)
    }

    constructor ()
      ensures Valid() && records == [] && list == []
    {
      first, prev, records, list := null, null, [], [];
    }

    /** Count a child in its parent's record. */
    method Count(parent: PropertySnapshot, ghost at: nat)
      requires Valid() && at < |records| && records[at] == parent
      modifies this`list, parent`nbChildren
      ensures Valid() && list == Counted(old(list), Some(at))
    {
      parent.nbChildren := parent.nbChildren + 1;
      list := Counted(list, Some(at));
      forall i: nat | i < |records| ensures RecordIs(records, list, i) {
        assert old(RecordIs(records, list, i));
      }
    }

    /** Link a new record to the end. */
    method Append(snapshot: PropertySnapshot)
      requires Valid() && snapshot !in records && snapshot.nextSnapshot == null
      modifies this, records
      ensures Valid() && records == old(records) + [snapshot]
      ensures list == old(list) + [Snapshot(snapshot.id, old(snapshot.nbChildren), snapshot.depth)]
    {
      if first == null {
        first := snapshot;
      }
      if prev != null {
        prev.nextSnapshot := snapshot;
      }
      prev := snapshot;
      records, list := records + [snapshot], list + [Snapshot(snapshot.id, snapshot.nbChildren, snapshot.depth)];
      forall i: nat | i < |records| ensures RecordIs(records, list, i) {
        if i < |old(records)| {
          assert old(RecordIs(records, list, i)) && records[i] != snapshot;
        }
      }
    }
  }

  /** Append the records of a property and everything linked below it. */
  method TakePropertySnapshot(property: Property, parent: PropertySnapshot?, chain: Chain, depth: nat, ghost t: Tree,
                              ghost parentAt: Option<nat>)
    requires LinkedTree(t) && property == t.node && chain.Valid()
    requires parentAt.Some? ==> parentAt.value < |chain.records| && parent == chain.records[parentAt.value]
    requires parentAt.None? ==> parent == null
    modifies chain, chain.records
    ensures Extended(chain, old(chain.records)) && chain.list == Counted(old(chain.list), parentAt) + Linear(t, depth)
    decreases t, 1
  {
    ghost var base := Counted(chain.list, parentAt);
    assert LinkedTree(t) && allocated(NodeSet(t));
    var snapshot := new PropertySnapshot(property.id, depth % 256);
    if parent != null {
      chain.Count(parent, parentAt.value);
    }
    chain.Append(snapshot);
    assert LinkedTree(t);
    TakeChildren(property, snapshot, chain, depth, t, base);
    Regroup(base, [Snapshot(property.id, |t.children|, depth % 256)], LinearAll(t.children, depth + 1));
  }

  /** The chain has only grown. */
  twostate predicate Extended(chain: Chain, before: seq<PropertySnapshot>)
    reads chain, chain.records
  {
    chain.Valid() && before <= chain.records && forall i :: |before| <= i < |chain.records| ==> fresh(chain.records[i])
  }

  lemma Regroup(a: seq<Snapshot>, b: seq<Snapshot>, c: seq<Snapshot>)
    ensures a + b + c == a + (b + c)
  {
  }

  /** The loop over the children, counted in the record just made. */
  method TakeChildren(property: Property, snapshot: PropertySnapshot, chain: Chain, depth: nat, ghost t: Tree, ghost base: seq<Snapshot>)
    requires LinkedTree(t) && property == t.node && chain.Valid()
    requires |chain.records| == |base| + 1 && chain.records[|base|] == snapshot
    requires chain.list == base + [Snapshot(property.id, 0, depth % 256)]
    modifies chain, chain.records
    ensures Extended(chain, old(chain.records))
    ensures chain.list == base + [Snapshot(property.id, |t.children|, depth % 256)] + LinearAll(t.children, depth + 1)
    decreases t, 0
  {
    ghost var ts, k, done: seq<Snapshot> := t.children, 0, [];
    assert chain.list == base + [Snapshot(property.id, 0, depth % 256)] + done && ts[0..] == ts;
    var child := property.firstChild;
    while child != null
      invariant k <= |ts| && child == First(ts[k..]) && LinkedTrees(ts[k..])
      invariant Extended(chain, old(chain.records))
      invariant chain.list == base + [Snapshot(property.id, k, depth % 256)] + done
      invariant LinearAll(ts, depth + 1) == done + LinearAll(ts[k..], depth + 1)
      decreases |ts| - k
    {
      NextTree(ts, k, depth + 1, done);
      CountChild(base, property.id, k, depth % 256, done, Linear(ts[k], depth + 1));
      child := TakeNext(child, snapshot, chain, depth + 1, ts[k..], |base|);
      done := done + Linear(ts[k], depth + 1);
      k := k + 1;
    }
  }

  /** One turn of the loop. */
  method TakeNext(child: Property, snapshot: PropertySnapshot, chain: Chain, depth: nat, ghost ts: seq<Tree>, ghost at: nat)
      returns (next: Property?)
    requires ts != [] && child == ts[0].node && LinkedTrees(ts)
    requires chain.Valid() && at < |chain.records| && snapshot == chain.records[at]
    modifies chain, chain.records
    ensures Extended(chain, old(chain.records)) && chain.list == Counted(old(chain.list), Some(at)) + Linear(ts[0], depth)
    ensures LinkedTrees(ts[1..]) && next == First(ts[1..])
    decreases ts[0], 2
  {
    assert LinkedTree(ts[0]) && LinkedTrees(ts[1..]) && allocated(NodeSets(ts[1..]));
    TakePropertySnapshot(child, snapshot, chain, depth, ts[0], Some(at));
    next := child.nextSibling;
  }

  /** _rmt_PropertySnapshotAll's list: the root and everything registered below it, or no list if
      nothing is. */
  method SnapshotAll(root: Property, ghost all: set<Property>, ghost bound: nat) returns (chain: Chain?)
    requires Wf(root, all) && root in all && Bounded(all, bound)
    ensures chain == null <==> forall p :: p in all && p.initialised ==> p == root
    ensures chain != null ==> fresh(chain) && chain.Valid() && chain.list == Linear(TreeOf(root, root, all, bound), 0)
  {
    NoneBelow(root, all);
    if root.firstChild == null {
      return null;
    }
    ghost var t := TreeOf(root, root, all, bound);
    TreeIsLinked(root, root, all, bound);
    assert LinkedTree(t) && allocated(NodeSet(t));
    chain := new Chain();
    assert LinkedTree(t);
    TakePropertySnapshot(root, null, chain, 0, t, None);
    assert [] + Linear(t, 0) == Linear(t, 0);
  }

  /** The root has no child exactly when nothing else is registered. */
  lemma NoneBelow(root: Property, all: set<Property>)
    requires Wf(root, all)
    ensures root.firstChild == null <==> forall p :: p in all && p.initialised ==> p == root
  {
    assert ListOk(root, root, all);
    if root.Children == [] {
      forall p | p in all && p.initialised ensures p == root {
        if p != root {
          RootAbove(p, root, all);
          var c := ThroughAChild(root, p, root, all);
        }
      }
    } else {
      assert root.Children[0] in root.Children;
    }
  }

  lemma NextTree(ts: seq<Tree>, k: nat, depth: nat, done: seq<Snapshot>)
    requires k < |ts| && LinearAll(ts, depth) == done + LinearAll(ts[k..], depth)
    ensures LinearAll(ts, depth) == (done + Linear(ts[k], depth)) + LinearAll(ts[k + 1..], depth)
  {
    assert ts[k..][1..] == ts[k + 1..];
  }

  // ---------------------------------------------------------------------------------------------
  // A snapshot holds every registered property once
  // ---------------------------------------------------------------------------------------------

  lemma {:induction false} LineTrans(c: Property, x: Property, root: Property, all: set<Property>)
    requires root in all && x in all && AllDeclared(root, all) && c in Line(x, root, all)
    ensures c in all && Line(c, root, all) <= Line(x, root, all)
    decreases x.level
  {
    assert Declared(x, root, all) && Declared(root, root, all);
    if c != x {
      LineTrans(c, Above(x, root), root, all);
    }
  }

  /** A registered property below `p` is below, or is, one of its children. */
  lemma {:induction false} ThroughAChild(p: Property, x: Property, root: Property, all: set<Property>) returns (c: Property)
    requires Wf(root, all) && p in all && x in all && x.initialised && p in Line(x, root, all) && p != x
    ensures c in p.Children && c in all && c in Line(x, root, all)
    decreases x.level
  {
    assert Declared(x, root, all) && Declared(root, root, all) && Placed(x, root, all);
    if x.parent == p {
      c := x;
    } else {
      c := ThroughAChild(p, x.parent, root, all);
    }
  }

  /** Two children of one property have nothing below them in common. */
  lemma {:induction false} SiblingsApart(c: Property, d: Property, x: Property, root: Property, all: set<Property>)
    requires Wf(root, all) && c in all && d in all && x in all && c != d && c != root && d != root
    requires c.parent != null && c.parent == d.parent
    ensures !(c in Line(x, root, all) && d in Line(x, root, all))
    decreases x.level
  {
    assert Declared(x, root, all) && Declared(root, root, all) && Declared(c, root, all) && Declared(d, root, all);
    if x != root && x != c && x != d {
      SiblingsApart(c, d, Above(x, root), root, all);
    }
  }

  lemma InSomeTree(ts: seq<Tree>, x: Property)
    ensures x in NodesAll(ts) <==> exists k :: 0 <= k < |ts| && x in Nodes(ts[k])
  {
    if ts != [] {
      InSomeTree(ts[1..], x);
      if x in NodesAll(ts[1..]) {
        var k :| 0 <= k < |ts[1..]| && x in Nodes(ts[1..][k]);
        assert x in Nodes(ts[k + 1]);
      }
      if exists k :: 0 <= k < |ts| && x in Nodes(ts[k]) {
        var k :| 0 <= k < |ts| && x in Nodes(ts[k]);
        assert k > 0 ==> x in Nodes(ts[1..][k - 1]);
      }
    }
  }

  /** The tree of a registered property holds exactly the registered properties at or below it. */
  lemma {:induction false} Members(p: Property, x: Property, root: Property, all: set<Property>, bound: nat)
    requires Wf(root, all) && p in all && p.initialised && Bounded(all, bound) && x in all
    ensures x in Nodes(TreeOf(p, root, all, bound)) <==> x.initialised && p in Line(x, root, all)
    decreases bound - p.level
  {
    var ts := TreeOf(p, root, all, bound).children;
    ChildrenBelow(p, root, all);
    assert ListOk(p, root, all);
    forall k | 0 <= k < |ts|
      ensures x in Nodes(ts[k]) <==> x.initialised && p.Children[k] in Line(x, root, all)
    {
      assert p.Children[k] in p.Children;
      TreesAt(p.Children, p.level, root, all, bound, k);
      Members(p.Children[k], x, root, all, bound);
    }
    InSomeTree(ts, x);
    if x.initialised && p in Line(x, root, all) && p != x {
      var c := ThroughAChild(p, x, root, all);
      var k :| 0 <= k < |p.Children| && p.Children[k] == c;
      assert x in Nodes(ts[k]);
    }
    if x in NodesAll(ts) {
      var k :| 0 <= k < |ts| && x in Nodes(ts[k]);
      var c := p.Children[k];
      assert c in p.Children && Declared(c, root, all);
      LineTrans(c, x, root, all);
      assert p in Line(c, root, all) by { assert p in Line(p, root, all); }
    }
  }

  /** A snapshot from the root has every registered property in it, and nothing else. */
  lemma SnapshotHoldsRegistered(x: Property, root: Property, all: set<Property>, bound: nat)
    requires Wf(root, all) && Bounded(all, bound) && x in all
    ensures x in Nodes(TreeOf(root, root, all, bound)) <==> x.initialised
  {
    Members(root, x, root, all, bound);
    RootAbove(x, root, all);
  }

  lemma {:induction false} RootAbove(x: Property, root: Property, all: set<Property>)
    requires root in all && x in all && AllDeclared(root, all)
    ensures root in Line(x, root, all)
    decreases x.level
  {
    assert Declared(x, root, all) && Declared(root, root, all);
    if x != root {
      RootAbove(Above(x, root), root, all);
    }
  }

  lemma JoinDistinct(a: seq<Property>, b: seq<Property>)
    requires Distinct(a) && Distinct(b) && Disjoint(a, b)
    ensures Distinct(a + b)
  {
    var s := a + b;
    forall i, j | 0 <= i < j < |s| ensures s[i] != s[j] {
      if i < |a| <= j {
        assert a[i] in a && b[j - |a|] in b;
      }
    }
  }

  /** And it has none of them twice. */
  lemma {:induction false} NoneTwice(p: Property, root: Property, all: set<Property>, bound: nat)
    requires Wf(root, all) && p in all && p.initialised && Bounded(all, bound)
    ensures Distinct(Nodes(TreeOf(p, root, all, bound)))
    ensures forall x :: x in Nodes(TreeOf(p, root, all, bound)) ==> x in all && p in Line(x, root, all)
    decreases bound - p.level, 1, 0
  {
    var ts := TreeOf(p, root, all, bound).children;
    ChildrenBelow(p, root, all);
    NoneTwiceBelow(p, root, all, bound, 0);
    assert ts[0..] == ts;
    forall x | x in NodesAll(ts) ensures x in all && p in Line(x, root, all) && x != p {
      InSomeTree(ts, x);
      var k :| 0 <= k < |ts| && x in Nodes(ts[k]);
      ChildAbove(p, p.Children[k], x, root, all);
    }
    JoinDistinct([p], NodesAll(ts));
  }

  /** What is below a child of `p` is below `p` and is not `p`. */
  lemma ChildAbove(p: Property, c: Property, x: Property, root: Property, all: set<Property>)
    requires Wf(root, all) && p in all && c in p.Children && x in all && c in Line(x, root, all)
    ensures p in Line(x, root, all) && x != p
  {
    assert ListOk(p, root, all) && Declared(c, root, all);
    LineTrans(c, x, root, all);
    assert p in Line(p, root, all) && Line(p, root, all) <= Line(c, root, all);
  }

  /** A property below the child `k` is below no later one. */
  lemma InOneTree(p: Property, root: Property, all: set<Property>, ts: seq<Tree>, k: nat, x: Property)
    requires Wf(root, all) && p in all && p.initialised && k < |p.Children| == |ts|
    requires x in all && p.Children[k] in Line(x, root, all)
    requires forall j :: k < j < |ts| ==> forall y :: y in Nodes(ts[j]) ==> y in all && p.Children[j] in Line(y, root, all)
    ensures x !in NodesAll(ts[k + 1..])
  {
    assert ListOk(p, root, all) && p.Children[k] in p.Children;
    if x in NodesAll(ts[k + 1..]) {
      InSomeTree(ts[k + 1..], x);
      var j :| 0 <= j < |ts[k + 1..]| && x in Nodes(ts[k + 1..][j]);
      assert x in Nodes(ts[k + 1 + j]) && p.Children[k + 1 + j] in p.Children;
      SiblingsApart(p.Children[k], p.Children[k + 1 + j], x, root, all);
    }
  }

  lemma {:induction false} NoneTwiceBelow(p: Property, root: Property, all: set<Property>, bound: nat, k: nat)
    requires Wf(root, all) && p in all && p.initialised && Bounded(all, bound) && AllBelow(p.Children, p.level, all)
    requires k <= |p.Children|
    ensures var ts := TreesOf(p.Children, p.level, root, all, bound);
      && Distinct(NodesAll(ts[k..]))
      && forall j :: k <= j < |ts| ==> forall x :: x in Nodes(ts[j]) ==> x in all && p.Children[j] in Line(x, root, all)
    decreases bound - p.level, 0, |p.Children| - k
  {
    var children, ts := p.Children, TreesOf(p.Children, p.level, root, all, bound);
    if k < |children| {
      assert ListOk(p, root, all) && children[k] in children;
      TreesAt(children, p.level, root, all, bound, k);
      NoneTwice(children[k], root, all, bound);
      NoneTwiceBelow(p, root, all, bound, k + 1);
      assert ts[k..][1..] == ts[k + 1..] && ts[k..][0] == ts[k];
      forall x | x in Nodes(ts[k]) ensures x !in NodesAll(ts[k + 1..]) {
        InOneTree(p, root, all, ts, k, x);
      }
      JoinDistinct(Nodes(ts[k]), NodesAll(ts[k + 1..]));
    }
  }

  // ---------------------------------------------------------------------------------------------
  // The depths in it
  // ---------------------------------------------------------------------------------------------

  /** How many properties are above one, up to the root. */
  ghost function Height(p: Property, root: Property, all: set<Property>): nat
    requires root in all && p in all && AllDeclared(root, all)
    reads all`parent
    decreases p.level
  {
    assert Declared(p, root, all) && Declared(root, root, all);
    if p == root then 0 else 1 + Height(Above(p, root), root, all)
  }

  /** The records are those of the nodes, each with how far it is below `p`, in one byte. */
  ghost predicate DepthsRight(list: seq<Snapshot>, nodes: seq<Property>, p: Property, depth: nat, root: Property, all: set<Property>)
    requires root in all && AllDeclared(root, all) && p in all
    reads all`parent
  {
    |list| == |nodes| && forall i :: 0 <= i < |nodes| ==> DepthRight(list[i], nodes[i], p, depth, root, all)
  }

  function OneByte(k: int): nat {
    k % 256
  }

  ghost predicate DepthRight(record: Snapshot, x: Property, p: Property, depth: nat, root: Property, all: set<Property>)
    requires root in all && AllDeclared(root, all) && p in all
    reads all`parent
  {
    && x in all && record.id == x.id && Height(p, root, all) <= Height(x, root, all)
    && record.depth == OneByte(depth + Height(x, root, all) - Height(p, root, all))
  }

  lemma HeightOfChild(p: Property, c: Property, root: Property, all: set<Property>)
    requires Wf(root, all) && p in all && c in p.Children
    ensures c in all && Height(c, root, all) == Height(p, root, all) + 1
  {
    assert ListOk(p, root, all);
  }

  /** The depth of each record is the number of properties between its own and the root, in one byte. */
  lemma {:induction false} SnapshotDepths(p: Property, depth: nat, root: Property, all: set<Property>, bound: nat)
    requires Wf(root, all) && p in all && Bounded(all, bound)
    ensures var t := TreeOf(p, root, all, bound); DepthsRight(Linear(t, depth), Nodes(t), p, depth, root, all)
    decreases bound - p.level, 1, 0
  {
    var t := TreeOf(p, root, all, bound);
    ChildrenBelow(p, root, all);
    assert ListOk(p, root, all) && p.Children[0..] == p.Children;
    ChildDepths(p, depth, root, all, bound, 0);
  }

  lemma {:induction false} ChildDepths(p: Property, depth: nat, root: Property, all: set<Property>, bound: nat, k: nat)
    requires Wf(root, all) && p in all && Bounded(all, bound) && k <= |p.Children|
    requires AllBelow(p.Children[k..], p.level, all)
    ensures var ts := TreesOf(p.Children[k..], p.level, root, all, bound);
      DepthsRight(LinearAll(ts, depth + 1), NodesAll(ts), p, depth, root, all)
    decreases bound - p.level, 0, |p.Children| - k
  {
    var left := p.Children[k..];
    if left != [] {
      var c := left[0];
      assert c in left && c in p.Children && left[1..] == p.Children[k + 1..];
      HeightOfChild(p, c, root, all);
      SnapshotDepths(c, depth + 1, root, all, bound);
      ChildDepths(p, depth, root, all, bound, k + 1);
      var t := TreeOf(c, root, all, bound);
      DepthsFurther(Linear(t, depth + 1), Nodes(t), c, p, depth, root, all);
      var ts := TreesOf(left, p.level, root, all, bound);
      assert ts[0] == t && ts[1..] == TreesOf(left[1..], p.level, root, all, bound);
      DepthsJoin(Linear(t, depth + 1), Nodes(t), LinearAll(ts[1..], depth + 1), NodesAll(ts[1..]), p, depth, root, all);
    }
  }

  lemma DepthsFurther(list: seq<Snapshot>, nodes: seq<Property>, c: Property, p: Property, depth: nat, root: Property, all: set<Property>)
    requires root in all && AllDeclared(root, all) && p in all && c in all
    requires Height(c, root, all) == Height(p, root, all) + 1 && DepthsRight(list, nodes, c, depth + 1, root, all)
    ensures DepthsRight(list, nodes, p, depth, root, all)
  {
    forall i | 0 <= i < |nodes| ensures DepthRight(list[i], nodes[i], p, depth, root, all) {
      assert DepthRight(list[i], nodes[i], c, depth + 1, root, all);
    }
  }

  lemma DepthsJoin(a: seq<Snapshot>, x: seq<Property>, b: seq<Snapshot>, y: seq<Property>,
                   p: Property, depth: nat, root: Property, all: set<Property>)
    requires root in all && AllDeclared(root, all) && p in all
    requires DepthsRight(a, x, p, depth, root, all) && DepthsRight(b, y, p, depth, root, all)
    ensures DepthsRight(a + b, x + y, p, depth, root, all)
  {
    forall i | 0 <= i < |x + y| ensures DepthRight((a + b)[i], (x + y)[i], p, depth, root, all) {
      if i >= |x| {
        assert DepthRight(b[i - |x|], y[i - |x|], p, depth, root, all);
      } else {
        assert DepthRight(a[i], x[i], p, depth, root, all);
      }
    }
  }
}
