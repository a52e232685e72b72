/** TinyXML's tree of linked nodes: every edit of a node's children is the edit of a sequence it is
    named after, and keeps all links of the whole document consistent.

    `nodes` is the set of nodes of the document; Children is the sequence a node's links spell out. */
module Dom {
  import Xml

  datatype Kind = DocumentKind | ElementKind | TextKind | OtherKind

  class Node {
    const kind: Kind
    const value: string
    var parent: Node?
    var prev: Node?
    var next: Node?
    var firstChild: Node?
    var lastChild: Node?
    ghost var Children: seq<Node>

    constructor (kind: Kind, value: string)
      ensures this.kind == kind && this.value == value && parent == null && prev == null && next == null
      ensures firstChild == null && lastChild == null && Children == []
    {
      this.kind, this.value := kind, value;
      parent, prev, next, firstChild, lastChild := null, null, null, null, null;
      Children := [];
    }
  }

  ghost predicate Distinct(nodes: seq<Node>) {
    forall i, j :: 0 <= i < j < |nodes| ==> nodes[i] != nodes[j]
  }

  ghost function At(nodes: seq<Node>, i: int): Node? {
    if 0 <= i < |nodes| then nodes[i] else null
  }

  /** A child's links: to its parent and to its neighbours in the sequence. */
  ghost predicate LinkedAt(p: Node, children: seq<Node>, i: nat)
    requires i < |children|
    reads children`parent, children`prev, children`next
  {
    children[i].parent == p && children[i].prev == At(children, i - 1) && children[i].next == At(children, i + 1)
  }

  /** The links below `p` spell out `children`. */
  ghost predicate Spells(p: Node, children: seq<Node>)
    reads p`firstChild, p`lastChild, children`parent, children`prev, children`next
  {
    && Distinct(children)
    && p.firstChild == At(children, 0) && p.lastChild == At(children, |children| - 1)
    && forall i: nat :: i < |children| ==> LinkedAt(p, children, i)
  }

  ghost predicate ListOk(p: Node, nodes: set<Node>)
    reads nodes
    requires p in nodes
  {
    (forall c :: c in p.Children ==> c in nodes) && p !in p.Children && Spells(p, p.Children)
  }

  /** Every node's child list is right, and every node but `loose` is in its parent's list. */
  ghost predicate Wf(nodes: set<Node>, loose: Node?)
    reads nodes
  {
    && (forall p :: p in nodes ==> ListOk(p, nodes))
    && (forall n :: n in nodes && n != loose ==> InItsPlace(n, nodes))
  }

  ghost predicate InItsPlace(n: Node, nodes: set<Node>)
    reads nodes
    requires n in nodes
  {
    n.parent != null && n.parent in nodes ==> n in n.parent.Children
  }

  /** `n` is in no child list. */
  ghost predicate Unlinked(n: Node, nodes: set<Node>)
    reads nodes
  {
    forall p :: p in nodes ==> n !in p.Children
  }

  // ---------------------------------------------------------------------------------------------
  // Sequence edits
  // ---------------------------------------------------------------------------------------------

  ghost function Insert(s: seq<Node>, k: nat, n: Node): seq<Node>
    requires k <= |s|
  {
    s[..k] + [n] + s[k..]
  }

  ghost function RemoveAt(s: seq<Node>, k: nat): seq<Node>
    requires k < |s|
  {
    s[..k] + s[k + 1..]
  }

  ghost function Replace(s: seq<Node>, k: nat, n: Node): seq<Node>
    requires k < |s|
  {
    s[..k] + [n] + s[k + 1..]
  }

  /** What is where after an insertion. */
  lemma InsertAt(s: seq<Node>, k: nat, n: Node)
    requires Distinct(s) && k <= |s| && n !in s
    ensures Distinct(Insert(s, k, n)) && |Insert(s, k, n)| == |s| + 1
    ensures forall i: int :: i < k ==> At(Insert(s, k, n), i) == At(s, i)
    ensures forall i: int :: k < i ==> At(Insert(s, k, n), i) == At(s, i - 1)
    ensures At(Insert(s, k, n), k) == n
  {
  }

  // The pointer work of each edit.

  method LinkEnd(p: Node, node: Node, ghost children: seq<Node>)
    requires Spells(p, children) && node !in children && node != p && p !in children
    modifies p`firstChild, p`lastChild, node`parent, node`prev, node`next, children`next
    ensures Spells(p, children + [node])
  {
    node.parent := p;
    node.prev := p.lastChild;
    node.next := null;
    if p.lastChild != null {
      p.lastChild.next := node;
    } else {
      p.firstChild := node;
    }
    p.lastChild := node;
    ghost var all := children + [node];
    forall i: nat | i < |all| ensures LinkedAt(p, all, i) {
      assert i < |children| ==> old(LinkedAt(p, children, i));
    }
  }

  method LinkBefore(p: Node, node: Node, beforeThis: Node, ghost children: seq<Node>, ghost k: nat)
    requires Spells(p, children) && k < |children| && children[k] == beforeThis
    requires node !in children && node != p && p !in children
    modifies p`firstChild, node`parent, node`prev, node`next, children`next, children`prev
    ensures Spells(p, Insert(children, k, node))
  {
    assert LinkedAt(p, children, k);
    node.parent := p;
    node.next := beforeThis;
    node.prev := beforeThis.prev;
    if beforeThis.prev != null {
      beforeThis.prev.next := node;
    } else {
      p.firstChild := node;
    }
    beforeThis.prev := node;
    ghost var all := Insert(children, k, node);
    InsertAt(children, k, node);
    forall i: nat | i < |all| ensures LinkedAt(p, all, i) {
      assert all[i] == At(all, i);
      if i < k {
        assert old(LinkedAt(p, children, i));
      } else if i > k {
        assert old(LinkedAt(p, children, i - 1));
      }
    }
  }

  method LinkAfter(p: Node, node: Node, afterThis: Node, ghost children: seq<Node>, ghost k: nat)
    requires Spells(p, children) && 0 < k <= |children| && children[k - 1] == afterThis
    requires node !in children && node != p && p !in children
    modifies p`lastChild, node`parent, node`prev, node`next, children`next, children`prev
    ensures Spells(p, Insert(children, k, node))
  {
    assert LinkedAt(p, children, k - 1);
    node.parent := p;
    node.prev := afterThis;
    node.next := afterThis.next;
    if afterThis.next != null {
      afterThis.next.prev := node;
    } else {
      p.lastChild := node;
    }
    afterThis.next := node;
    ghost var all := Insert(children, k, node);
    InsertAt(children, k, node);
    forall i: nat | i < |all| ensures LinkedAt(p, all, i) {
      assert all[i] == At(all, i);
      if i < k {
        assert old(LinkedAt(p, children, i));
      } else if i > k {
        assert old(LinkedAt(p, children, i - 1));
      }
    }
  }

  method LinkInstead(p: Node, node: Node, replaceThis: Node, ghost children: seq<Node>, ghost k: nat)
    requires Spells(p, children) && k < |children| && children[k] == replaceThis
    requires node !in children && node != p && p !in children
    modifies p`firstChild, p`lastChild, node`parent, node`prev, node`next, children`next, children`prev
    ensures Spells(p, Replace(children, k, node))
  {
    assert LinkedAt(p, children, k);
    node.next := replaceThis.next;
    node.prev := replaceThis.prev;
    if replaceThis.next != null {
      replaceThis.next.prev := node;
    } else {
      p.lastChild := node;
    }
    if replaceThis.prev != null {
      replaceThis.prev.next := node;
    } else {
      p.firstChild := node;
    }
    node.parent := p;
    ghost var all := Replace(children, k, node);
    forall i: nat | i < |all| ensures LinkedAt(p, all, i) {
      if i != k {
        assert old(LinkedAt(p, children, i));
      }
    }
  }

  method LinkOut(p: Node, node: Node, ghost children: seq<Node>, ghost k: nat)
    requires Spells(p, children) && k < |children| && node == children[k] && p !in children
    modifies p`firstChild, p`lastChild, children`next, children`prev
    ensures Spells(p, RemoveAt(children, k))
  {
    assert LinkedAt(p, children, k);
    if node.next != null {
      node.next.prev := node.prev;
    } else {
      p.lastChild := node.prev;
    }
    if node.prev != null {
      node.prev.next := node.next;
    } else {
      p.firstChild := node.next;
    }
    ghost var all := RemoveAt(children, k);
    forall i: nat | i < |all| ensures LinkedAt(p, all, i) {
      if i < k {
        assert old(LinkedAt(p, children, i));
      } else {
        assert old(LinkedAt(p, children, i + 1));
      }
    }
  }

  // ---------------------------------------------------------------------------------------------
  // The edits
  // ---------------------------------------------------------------------------------------------

  /** Where a child is in its parent's list. */
  ghost function IndexOf(s: seq<Node>, n: Node): (k: nat)
    requires n in s
    ensures k < |s| && s[k] == n
  {
    if s[0] == n then 0 else 1 + IndexOf(s[1..], n)
  }

  /** Different nodes have different children, and no child list holds its own node's place twice. */
  lemma ChildrenApart(nodes: set<Node>, loose: Node?, p: Node, q: Node)
    requires Wf(nodes, loose) && p in nodes && q in nodes && p != q
    ensures forall c :: c in p.Children ==> c !in q.Children
  {
    forall c | c in p.Children ensures c !in q.Children {
      assert ListOk(p, nodes) && ListOk(q, nodes);
      var i :| 0 <= i < |p.Children| && p.Children[i] == c;
      assert LinkedAt(p, p.Children, i);
      forall j: nat | j < |q.Children| ensures q.Children[j] != c {
        assert LinkedAt(q, q.Children, j);
      }
    }
  }

  /** What an edit of `p` leaves alone: every other node's child list. */
  twostate predicate OthersKept(nodes: set<Node>, p: Node)
    reads nodes
  {
    forall q :: q in nodes && q != p ==> q.Children == old(q.Children)
  }

  /** LinkEndChild: a node that is in no list becomes the last child, unless it is a document, which is
      thrown away. */
  method LinkEndChild(p: Node, node: Node, ghost nodes: set<Node>) returns (r: Node?)
    requires Wf(nodes, node) && p in nodes && node in nodes && Unlinked(node, nodes) && node != p
    requires node.parent == null || node.parent == p
    modifies p`Children, p`firstChild, p`lastChild, node`parent, node`prev, node`next, p.Children`next
    ensures node.kind == DocumentKind ==> r == null && p.Children == old(p.Children) && Wf(nodes, node)
    ensures node.kind != DocumentKind ==> r == node && p.Children == old(p.Children) + [node] && Wf(nodes, null)
    ensures OthersKept(nodes, p)
  {
    if node.kind == DocumentKind {
      return null;
    }
    assert ListOk(p, nodes);
    ghost var children := p.Children;
    Others(nodes, node, p);
    LinkEnd(p, node, children);
    p.Children := children + [node];
    r := node;
    forall q | q in nodes ensures ListOk(q, nodes) {
      if q != p {
        ghost var others := q.Children;
        assert Disjoint(children, others) && node !in others && old(ListOk(q, nodes));
        forall i: nat | i < |others| ensures LinkedAt(q, others, i) {
          assert old(LinkedAt(q, others, i)) && others[i] in others;
        }
      }
    }
    assert LinkedAt(p, p.Children, |children|);
    forall n | n in nodes ensures InItsPlace(n, nodes) {
      assert n != node ==> old(InItsPlace(n, nodes)) && n.parent == old(n.parent);
      assert n in children ==> n in children + [node];
    }
  }

  ghost predicate Disjoint(a: seq<Node>, b: seq<Node>) {
    forall x :: x in a ==> x !in b
  }

  lemma Others(nodes: set<Node>, loose: Node?, p: Node)
    requires Wf(nodes, loose) && p in nodes
    ensures forall q :: q in nodes && q != p ==> Disjoint(p.Children, q.Children)
  {
    forall q | q in nodes && q != p ensures Disjoint(p.Children, q.Children) {
      ChildrenApart(nodes, loose, p, q);
    }
  }

  // ---------------------------------------------------------------------------------------------
  // Copies
  // ---------------------------------------------------------------------------------------------

  /** A finite tree of nodes. */
  datatype Tree = Tree(node: Node, children: seq<Tree>)

  /** What a tree says, whoever its nodes are. */
  datatype Content = Content(kind: Kind, value: string, children: seq<Content>)

  ghost function Nodes(t: Tree): set<Node>
    decreases t, 0
  {
    {t.node} + NodesAll(t.children)
  }

  ghost function NodesAll(ts: seq<Tree>): set<Node>
    decreases ts
  {
    if ts == [] then {} else Nodes(ts[0]) + NodesAll(ts[1..])
  }

  ghost function First(ts: seq<Tree>): Node? {
    if ts == [] then null else ts[0].node
  }

  ghost function Roots(ts: seq<Tree>): (r: seq<Node>)
    ensures |r| == |ts|
  {
    if ts == [] then [] else [ts[0].node] + Roots(ts[1..])
  }

  /** The child sequences are those of the tree. */
  ghost predicate Spelled(t: Tree)
    reads Nodes(t)`Children
    decreases t, 0
  {
    t.node.Children == Roots(t.children) && SpelledAll(t.children)
  }

  ghost predicate SpelledAll(ts: seq<Tree>)
    reads NodesAll(ts)`Children
    decreases ts
  {
    ts != [] ==> Spelled(ts[0]) && SpelledAll(ts[1..])
  }

  /** The links lead through the tree. */
  ghost predicate Walked(t: Tree)
    reads Nodes(t)`firstChild, Nodes(t)`next
    decreases t, 0
  {
    t.node.firstChild == First(t.children) && WalkedAll(t.children)
  }

  ghost predicate WalkedAll(ts: seq<Tree>)
    reads NodesAll(ts)`firstChild, NodesAll(ts)`next
    decreases ts
  {
    ts != [] ==> Walked(ts[0]) && ts[0].node.next == First(ts[1..]) && WalkedAll(ts[1..])
  }

  ghost function ContentOf(t: Tree): Content
    decreases t, 0
  {
    Content(t.node.kind, t.node.value, ContentsOf(t.children))
  }

  ghost function ContentsOf(ts: seq<Tree>): seq<Content>
    decreases ts
  {
    if ts == [] then [] else [ContentOf(ts[0])] + ContentsOf(ts[1..])
  }

  /** What a copy says. CopyTo hands the value on as a C string, so it is cut at the first zero. Only
      elements and documents copy their children, and a document among them is thrown away. */
  function Cloned(c: Content): Content
    decreases c, 0
  {
    Content(c.kind, Xml.CString(c.value), if c.kind == ElementKind || c.kind == DocumentKind then ClonedAll(c.children) else [])
  }

  function ClonedAll(cs: seq<Content>): seq<Content>
    decreases cs
  {
    if cs == [] then [] else (if cs[0].kind == DocumentKind then [] else [Cloned(cs[0])]) + ClonedAll(cs[1..])
  }

  /** Trees without zeros in their values, without documents inside, and with children only where
      children belong, are copied as they are. */
  predicate Plain(c: Content)
    decreases c, 0
  {
    '\0' !in c.value && PlainAll(c.children) && (c.children != [] ==> c.kind == ElementKind || c.kind == DocumentKind)
  }

  predicate PlainAll(cs: seq<Content>)
    decreases cs
  {
    cs != [] ==> cs[0].kind != DocumentKind && Plain(cs[0]) && PlainAll(cs[1..])
  }

  /** A copy says what the original says if and only if the original is such a tree. */
  lemma {:induction false} CloneIsCopy(c: Content)
    ensures Cloned(c) == c <==> Plain(c)
    decreases c, 0
  {
    Xml.CStringExactly(c.value);
    ClonesAreCopies(c.children);
  }

  /** A text that parsing `a&#x00;b` makes is copied as its first character. */
  lemma CloneCutsAtZero()
    ensures Cloned(Content(TextKind, "a\0b", [])) == Content(TextKind, "a", [])
  {
    var v := "a\0b";
    assert v[1..][0] == '\0' && Xml.CString(v) == ['a'] + Xml.CString(v[1..]);
  }

  /** Children are copied one by one and in order, wherever among them documents are left out. */
  lemma {:induction false} ClonesInOrder(a: seq<Content>, b: seq<Content>)
    ensures ClonedAll(a + b) == ClonedAll(a) + ClonedAll(b)
    ensures forall c: Content :: c.kind != DocumentKind ==> ClonedAll([c]) == [Cloned(c)]
    ensures forall c: Content :: c.kind == DocumentKind ==> ClonedAll([c]) == []
    decreases a
  {
    forall c: Content ensures ClonedAll([c]) == if c.kind == DocumentKind then [] else [Cloned(c)] {
      assert [c][1..] == [];
    }
    if a == [] {
      assert a + b == b;
    } else {
      assert (a + b)[1..] == a[1..] + b;
      ClonesInOrder(a[1..], b);
    }
  }

  lemma {:induction false} ClonesAreCopies(cs: seq<Content>)
    ensures |ClonedAll(cs)| <= |cs| && (ClonedAll(cs) == cs <==> PlainAll(cs))
    decreases cs
  {
    if cs != [] {
      CloneIsCopy(cs[0]);
      ClonesAreCopies(cs[1..]);
      if ClonedAll(cs) == cs {
        assert cs[0].kind != DocumentKind;
        assert ClonedAll(cs)[1..] == ClonedAll(cs[1..]) && ClonedAll(cs)[0] == Cloned(cs[0]);
      }
    }
  }

  /** A document of its own: the tree `t` in it hangs off nothing and nothing hangs off anything else. */
  ghost predicate Standalone(nodes: set<Node>, t: Tree)
    reads nodes
  {
    && Wf(nodes, null) && Nodes(t) <= nodes && Spelled(t) && t.node !in NodesAll(t.children)
    && t.node.parent == null && Unlinked(t.node, nodes)
    && forall n :: n in nodes ==> n.parent == null || n.parent in nodes
  }

  /** In a consistent document the links lead through every tree its child sequences spell out, so what
      was copied can be copied again. */
  lemma {:induction false} SpelledIsWalked(t: Tree, nodes: set<Node>, loose: Node?)
    requires Wf(nodes, loose) && Nodes(t) <= nodes && Spelled(t)
    ensures Walked(t)
    decreases t, 1
  {
    var n := t.node;
    assert ListOk(n, nodes) && t.children[0..] == t.children;
    RootsAt(t.children);
    ChildrenWalked(n, t.children, 0, nodes, loose);
  }

  lemma {:induction false} ChildrenWalked(n: Node, ts: seq<Tree>, k: nat, nodes: set<Node>, loose: Node?)
    requires Wf(nodes, loose) && n in nodes && n.Children == Roots(ts) && k <= |ts|
    requires NodesAll(ts[k..]) <= nodes && SpelledAll(ts[k..])
    ensures WalkedAll(ts[k..])
    decreases ts[k..], 0
  {
    if k < |ts| {
      assert ts[k..][1..] == ts[k + 1..] && ts[k] in ts[k..];
      assert ListOk(n, nodes) && LinkedAt(n, n.Children, k);
      RootsAt(ts);
      SpelledIsWalked(ts[k], nodes, loose);
      ChildrenWalked(n, ts, k + 1, nodes, loose);
    }
  }

  lemma {:induction false} RootsAt(ts: seq<Tree>)
    ensures forall i :: 0 <= i < |ts| ==> Roots(ts)[i] == ts[i].node
  {
    if ts != [] {
      RootsAt(ts[1..]);
    }
  }

  /** Two documents side by side. */
  lemma Beside(a: set<Node>, b: set<Node>, loose: Node)
    requires a !! b && Wf(a, null) && Wf(b, null)
    requires forall n :: n in a ==> n.parent !in b
    requires forall n :: n in b ==> n.parent !in a
    requires loose in b && Unlinked(loose, b)
    ensures Wf(a + b, loose) && Unlinked(loose, a + b)
  {
    forall p | p in a + b ensures ListOk(p, a + b) && loose !in p.Children {
      assert p in a ==> ListOk(p, a);
      assert p in b ==> ListOk(p, b);
    }
    forall n | n in a + b && n != loose ensures InItsPlace(n, a + b) {
      assert n in a ==> InItsPlace(n, a);
      assert n in b ==> InItsPlace(n, b);
    }
  }

  /** Link a copied child to the copy of its parent, unless it is a document. */
  method LinkClone(copy: Node, clone: Node, ghost made: set<Node>, ghost ct: Tree, ghost cloned: set<Node>, ghost tree: Tree)
      returns (ghost more: set<Node>, ghost longer: Tree)
    requires made !! cloned && Standalone(made, ct) && Standalone(cloned, tree) && copy == ct.node && clone == tree.node
    modifies made, clone
    ensures Standalone(more, longer) && longer.node == copy && more == made + (if clone.kind == DocumentKind then {} else cloned)
    ensures longer.children == ct.children + if clone.kind == DocumentKind then [] else [tree]
  {
    Beside(made, cloned, clone);
    AppendTree(ct.children, tree);
    assert made + cloned == cloned + made;
    ghost var above, below := ct.children, NodesAll(ct.children);
    assert Spelled(tree) && SpelledAll(above) && copy !in Nodes(tree) && copy.Children == Roots(above);
    var linked := LinkEndChild(copy, clone, made + cloned);
    assert Spelled(tree) && SpelledAll(above);
    if linked != null {
      more, longer := made + cloned, Tree(copy, above + [tree]);
      assert LinkedAt(copy, copy.Children, |above|);
      forall n | n in more ensures n.parent == null || n.parent in more {
        assert n != clone ==> n.parent == old(n.parent);
      }
    } else {
      more, longer := made, ct;
      Part(made, cloned, clone);
    }
  }

  lemma {:induction false} AppendTree(ts: seq<Tree>, t: Tree)
    ensures NodesAll(ts + [t]) == NodesAll(ts) + Nodes(t) && Roots(ts + [t]) == Roots(ts) + [t.node]
    ensures ContentsOf(ts + [t]) == ContentsOf(ts) + [ContentOf(t)]
    ensures SpelledAll(ts) && Spelled(t) ==> SpelledAll(ts + [t])
    decreases ts
  {
    if ts == [] {
      assert ts + [t] == [t] && [t][1..] == [];
    } else {
      assert (ts + [t])[1..] == ts[1..] + [t] && (ts + [t])[0] == ts[0];
      AppendTree(ts[1..], t);
    }
  }

  /** One of two documents side by side. */
  lemma Part(a: set<Node>, b: set<Node>, loose: Node)
    requires a !! b && Wf(a + b, loose) && loose in b
    requires forall p :: p in a ==> forall c :: c in p.Children ==> c in a
    ensures Wf(a, null)
  {
    forall p | p in a ensures ListOk(p, a) {
      assert ListOk(p, a + b);
    }
    forall n | n in a ensures InItsPlace(n, a) {
      assert InItsPlace(n, a + b);
    }
  }

  /** A copy of a tree: new nodes, linked up among themselves, that say what Cloned says. */
  method Clone(node: Node, ghost t: Tree) returns (copy: Node, ghost made: set<Node>, ghost ct: Tree)
    requires Walked(t) && node == t.node
    ensures fresh(made) && Standalone(made, ct) && ct.node == copy && ContentOf(ct) == Cloned(ContentOf(t))
    decreases t, 1
  {
    assert allocated(Nodes(t)) && Walked(t);
    var value := Xml.CString(node.value);
    copy := new Node(node.kind, value);
    made, ct := {copy}, Tree(copy, []);
    assert Walked(t);
    if node.kind == ElementKind || node.kind == DocumentKind {
      made, ct := CloneChildren(node, copy, t);
    }
  }

  /** The loop over the children. */
  method CloneChildren(node: Node, copy: Node, ghost t: Tree) returns (ghost made: set<Node>, ghost ct: Tree)
    requires Walked(t) && node == t.node && copy !in Nodes(t) && Standalone({copy}, Tree(copy, []))
    modifies copy
    ensures copy in made && fresh(made - {copy}) && Standalone(made, ct) && ct.node == copy
    ensures ContentOf(ct) == Content(copy.kind, copy.value, ClonedAll(ContentsOf(t.children)))
    decreases t, 0
  {
    made, ct := {copy}, Tree(copy, []);
    ghost var rest := t.children;
    var child := node.firstChild;
    while child != null
      invariant fresh(made - {copy}) && Copying(copy, made, ct, child, rest)
      invariant Remaining(rest, t.children) && SaysSoFar(ct, rest, t)
      decreases |rest|
    {
      assert rest[0] in t.children;
      child, made, ct := CloneNext(child, copy, rest, made, ct);
      rest := rest[1..];
    }
    SaysAll(ct, t);
  }

  ghost predicate Remaining(rest: seq<Tree>, all: seq<Tree>) {
    |rest| <= |all| && rest == all[|all| - |rest|..]
  }

  /** What was copied and what is still to be copied make up the whole copy. */
  ghost predicate SaysSoFar(ct: Tree, rest: seq<Tree>, t: Tree) {
    ContentsOf(ct.children) + ClonedAll(ContentsOf(rest)) == ClonedAll(ContentsOf(t.children))
  }

  lemma {:induction false} SaysAll(ct: Tree, t: Tree)
    requires SaysSoFar(ct, [], t)
    ensures ContentsOf(ct.children) == ClonedAll(ContentsOf(t.children))
  {
    assert ContentsOf(ct.children) + ClonedAll(ContentsOf([])) == ContentsOf(ct.children);
  }

  /** Part of the children have been copied, the rest are still to come. */
  ghost predicate Copying(copy: Node, made: set<Node>, ct: Tree, child: Node?, rest: seq<Tree>)
    reads made, NodesAll(rest)
  {
    && copy in made && Standalone(made, ct) && ct.node == copy
    && WalkedAll(rest) && child == First(rest) && made !! NodesAll(rest)
  }

  /** One turn of the loop. */
  method CloneNext(child: Node, copy: Node, ghost rest: seq<Tree>, ghost made: set<Node>, ghost ct: Tree)
      returns (next: Node?, ghost more: set<Node>, ghost longer: Tree)
    requires rest != [] && child == rest[0].node && WalkedAll(rest) && made !! NodesAll(rest)
    requires copy in made && Standalone(made, ct) && ct.node == copy
    modifies made
    ensures WalkedAll(rest[1..]) && next == First(rest[1..]) && more !! NodesAll(rest[1..])
    ensures made <= more && fresh(more - made) && Standalone(more, longer) && longer.node == copy
    ensures ContentsOf(longer.children) + ClonedAll(ContentsOf(rest[1..])) == ContentsOf(ct.children) + ClonedAll(ContentsOf(rest))
    decreases rest[0], 2
  {
    assert Walked(rest[0]) && WalkedAll(rest[1..]) && allocated(NodesAll(rest)) && allocated(made);
    var clone;
    ghost var cloned, tree;
    clone, cloned, tree := Clone(child, rest[0]);
    assert WalkedAll(rest[1..]) && Standalone(made, ct);
    assert made + {clone} !! NodesAll(rest[1..]);
    more, longer := LinkClone(copy, clone, made, ct, cloned, tree);
    assert WalkedAll(rest[1..]);
    NextContent(ct.children, tree, rest);
    next := child.next;
  }

  lemma {:induction false} NextContent(done: seq<Tree>, tree: Tree, rest: seq<Tree>)
    requires rest != [] && ContentOf(tree) == Cloned(ContentOf(rest[0]))
    ensures tree.node.kind == rest[0].node.kind
    ensures ContentsOf(done + if tree.node.kind == DocumentKind then [] else [tree]) + ClonedAll(ContentsOf(rest[1..]))
      == ContentsOf(done) + ClonedAll(ContentsOf(rest))
  {
    AppendTree(done, tree);
    assert done + [] == done;
    var one: seq<Content> := if tree.node.kind == DocumentKind then [] else [ContentOf(tree)];
    assert ClonedAll(ContentsOf(rest)) == one + ClonedAll(ContentsOf(rest[1..]));
    assert (ContentsOf(done) + one) + ClonedAll(ContentsOf(rest[1..])) == ContentsOf(done) + (one + ClonedAll(ContentsOf(rest[1..])));
  }

  /** What a copy is: new nodes that say what the original says, documents inside it left out. */
  ghost predicate IsCopy(copy: Node, made: set<Node>, ct: Tree, t: Tree)
    reads made`Children
  {
    copy == ct.node && Nodes(ct) <= made && Spelled(ct) && ContentOf(ct) == Cloned(ContentOf(t))
  }

  /** Copy a tree, next to the document it will go into. */
  method CloneBeside(addThis: Node, ghost t: Tree, ghost nodes: set<Node>)
      returns (node: Node, ghost made: set<Node>, ghost ct: Tree)
    requires Wf(nodes, null) && Walked(t) && addThis == t.node
    ensures fresh(made) && node in made && node.kind == addThis.kind && node.parent == null && IsCopy(node, made, ct, t)
    ensures Wf(nodes, null) && Wf(nodes + made, node) && Unlinked(node, nodes + made)
  {
    assert allocated(nodes);
    node, made, ct := Clone(addThis, t);
    assert forall n :: n in nodes ==> n.parent == old(n.parent);
    Beside(nodes, made, node);
  }

  /** Link a new node in front of a child. */
  method PlaceBefore(p: Node, node: Node, beforeThis: Node, ghost nodes: set<Node>)
    requires Wf(nodes, node) && p in nodes && node in nodes && node != p && beforeThis in p.Children
    requires Unlinked(node, nodes) && node.parent == null
    modifies p`Children, p`firstChild, p`lastChild, node`parent, node`prev, node`next, p.Children`next, p.Children`prev
    ensures p.Children == Insert(old(p.Children), IndexOf(old(p.Children), beforeThis), node)
    ensures Wf(nodes, null) && OthersKept(nodes, p)
  {
    assert ListOk(p, nodes);
    ghost var children, k := p.Children, IndexOf(p.Children, beforeThis);
    Others(nodes, node, p);
    LinkBefore(p, node, beforeThis, children, k);
    p.Children := Insert(children, k, node);
    InsertMembers(children, k, node);
    assert p.Children[k] == node && LinkedAt(p, p.Children, k);
    forall q | q in nodes ensures ListOk(q, nodes) {
      if q != p {
        ghost var others := q.Children;
        assert Disjoint(children, others) && node !in others && old(ListOk(q, nodes));
        forall i: nat | i < |others| ensures LinkedAt(q, others, i) {
          assert old(LinkedAt(q, others, i)) && others[i] in others;
        }
        assert Spells(q, others);
      } else {
        assert Spells(p, p.Children) && p !in p.Children;
      }
    }
    forall n | n in nodes ensures InItsPlace(n, nodes) {
      if n != node {
        assert old(InItsPlace(n, nodes)) && n.parent == old(n.parent);
        assert n.parent == p ==> n in children;
      }
    }
  }

  /** InsertBeforeChild: a copy of `addThis` goes in front of `beforeThis`, unless that is no child of
      `p` or the copy would be a document. */
  method InsertBeforeChild(p: Node, beforeThis: Node?, addThis: Node, ghost nodes: set<Node>, ghost t: Tree)
      returns (r: Node?, ghost made: set<Node>, ghost ct: Tree)
    requires Wf(nodes, null) && p in nodes && (beforeThis != null ==> beforeThis in nodes)
    requires Walked(t) && addThis == t.node
    modifies p, p.Children`next, p.Children`prev
    ensures beforeThis == null || beforeThis !in old(p.Children) || addThis.kind == DocumentKind ==>
      r == null && p.Children == old(p.Children) && Wf(nodes, null)
    ensures beforeThis != null && beforeThis in old(p.Children) && addThis.kind != DocumentKind ==>
      && r != null && fresh(made) && IsCopy(r, made, ct, t) && Wf(nodes + made, null)
      && p.Children == Insert(old(p.Children), IndexOf(old(p.Children), beforeThis), r)
    ensures OthersKept(nodes, p)
  {
    assert ListOk(p, nodes);
    made, ct := {}, t;
    if beforeThis != null {
      ChildIffParent(p, beforeThis, nodes);
    }
    if beforeThis == null || beforeThis.parent != p {
      return null, made, ct;
    }
    if addThis.kind == DocumentKind {
      return null, made, ct;
    }
    var node;
    node, made, ct := CloneBeside(addThis, t, nodes);
    assert p !in made;
    PlaceBefore(p, node, beforeThis, nodes + made);
    assert IsCopy(node, made, ct, t);
    r := node;
  }

  /** Link a new node behind a child. */
  method PlaceAfter(p: Node, node: Node, afterThis: Node, ghost nodes: set<Node>)
    requires Wf(nodes, node) && p in nodes && node in nodes && node != p && afterThis in p.Children
    requires Unlinked(node, nodes) && node.parent == null
    modifies p`Children, p`firstChild, p`lastChild, node`parent, node`prev, node`next, p.Children`next, p.Children`prev
    ensures p.Children == Insert(old(p.Children), IndexOf(old(p.Children), afterThis) + 1, node)
    ensures Wf(nodes, null) && OthersKept(nodes, p)
  {
    assert ListOk(p, nodes);
    ghost var children, k := p.Children, IndexOf(p.Children, afterThis) + 1;
    Others(nodes, node, p);
    LinkAfter(p, node, afterThis, children, k);
    p.Children := Insert(children, k, node);
    InsertMembers(children, k, node);
    assert p.Children[k] == node && LinkedAt(p, p.Children, k);
    forall q | q in nodes ensures ListOk(q, nodes) {
      if q != p {
        ghost var others := q.Children;
        assert Disjoint(children, others) && node !in others && old(ListOk(q, nodes));
        forall i: nat | i < |others| ensures LinkedAt(q, others, i) {
          assert old(LinkedAt(q, others, i)) && others[i] in others;
        }
        assert Spells(q, others);
      } else {
        assert Spells(p, p.Children) && p !in p.Children;
      }
    }
    forall n | n in nodes ensures InItsPlace(n, nodes) {
      if n != node {
        assert old(InItsPlace(n, nodes)) && n.parent == old(n.parent);
        assert n.parent == p ==> n in children;
      }
    }
  }

  /** A copy behind a child. */
  method InsertCopyAfter(p: Node, afterThis: Node, addThis: Node, ghost nodes: set<Node>, ghost t: Tree)
      returns (r: Node, ghost made: set<Node>, ghost ct: Tree)
    requires Wf(nodes, null) && p in nodes && afterThis in p.Children && Walked(t) && addThis == t.node
    modifies p, p.Children`next, p.Children`prev
    ensures fresh(made) && IsCopy(r, made, ct, t) && Wf(nodes + made, null)
    ensures p.Children == Insert(old(p.Children), IndexOf(old(p.Children), afterThis) + 1, r)
    ensures OthersKept(nodes, p)
  {
    assert ListOk(p, nodes);
    r, made, ct := CloneBeside(addThis, t, nodes);
    assert p !in made && afterThis in p.Children && p.Children == old(p.Children);
    assert forall q :: q in nodes ==> q.Children == old(q.Children);
    PlaceAfter(p, r, afterThis, nodes + made);
    assert IsCopy(r, made, ct, t);
  }

  /** InsertAfterChild: a copy of `addThis` goes behind `afterThis`, unless that is no child of `p` or
      the copy would be a document. */
  method InsertAfterChild(p: Node, afterThis: Node?, addThis: Node, ghost nodes: set<Node>, ghost t: Tree)
      returns (r: Node?, ghost made: set<Node>, ghost ct: Tree)
    requires Wf(nodes, null) && p in nodes && (afterThis != null ==> afterThis in nodes)
    requires Walked(t) && addThis == t.node
    modifies p, p.Children`next, p.Children`prev
    ensures afterThis == null || afterThis !in old(p.Children) || addThis.kind == DocumentKind ==>
      r == null && p.Children == old(p.Children) && Wf(nodes, null)
    ensures afterThis != null && afterThis in old(p.Children) && addThis.kind != DocumentKind ==>
      && r != null && fresh(made) && IsCopy(r, made, ct, t) && Wf(nodes + made, null)
      && p.Children == Insert(old(p.Children), IndexOf(old(p.Children), afterThis) + 1, r)
    ensures OthersKept(nodes, p)
  {
    assert ListOk(p, nodes);
    made, ct := {}, t;
    if afterThis != null {
      ChildIffParent(p, afterThis, nodes);
    }
    if afterThis == null || afterThis.parent != p {
      return null, made, ct;
    }
    if addThis.kind == DocumentKind {
      return null, made, ct;
    }
    r, made, ct := InsertCopyAfter(p, afterThis, addThis, nodes, t);
  }

  /** Link a new node where a child was. */
  method PlaceInstead(p: Node, node: Node, replaceThis: Node, ghost nodes: set<Node>)
    requires Wf(nodes, node) && p in nodes && node in nodes && node != p && replaceThis in p.Children
    requires Unlinked(node, nodes) && node.parent == null
    modifies p`Children, p`firstChild, p`lastChild, node`parent, node`prev, node`next, p.Children`next, p.Children`prev
    ensures p.Children == Replace(old(p.Children), IndexOf(old(p.Children), replaceThis), node)
    ensures Wf(nodes - {replaceThis}, null) && OthersKept(nodes, p)
  {
    assert ListOk(p, nodes);
    ghost var children, k := p.Children, IndexOf(p.Children, replaceThis);
    Others(nodes, node, p);
    LinkInstead(p, node, replaceThis, children, k);
    p.Children := Replace(children, k, node);
    ReplaceMembers(children, k, node);
    ghost var now := nodes - {replaceThis};
    assert p.Children[k] == node && LinkedAt(p, p.Children, k);
    forall q | q in now ensures ListOk(q, now) {
      if q != p {
        ghost var others := q.Children;
        assert Disjoint(children, others) && node !in others && old(ListOk(q, nodes)) && replaceThis in children;
        forall i: nat | i < |others| ensures LinkedAt(q, others, i) {
          assert old(LinkedAt(q, others, i)) && others[i] in others;
        }
        assert Spells(q, others);
      } else {
        assert Spells(p, p.Children) && p !in p.Children;
      }
    }
    forall n | n in now ensures InItsPlace(n, now) {
      if n != node {
        assert old(InItsPlace(n, nodes)) && n.parent == old(n.parent);
        assert n.parent == p ==> n in children;
      }
    }
  }

  /** ReplaceChild: a copy of `withThis` takes the place of `replaceThis`, which is deleted, unless
      that is no child of `p`. Unlike insertion it does not refuse a document. */
  method ReplaceChild(p: Node, replaceThis: Node, withThis: Node, ghost nodes: set<Node>, ghost t: Tree)
      returns (r: Node?, ghost made: set<Node>, ghost ct: Tree)
    requires Wf(nodes, null) && p in nodes && replaceThis in nodes
    requires Walked(t) && withThis == t.node
    modifies p, p.Children`next, p.Children`prev
    ensures replaceThis !in old(p.Children) ==> r == null && p.Children == old(p.Children) && Wf(nodes, null)
    ensures replaceThis in old(p.Children) ==>
      && r != null && fresh(made) && IsCopy(r, made, ct, t) && Wf(nodes + made - {replaceThis}, null)
      && p.Children == Replace(old(p.Children), IndexOf(old(p.Children), replaceThis), r)
    ensures OthersKept(nodes, p)
  {
    assert ListOk(p, nodes);
    made, ct := {}, t;
    ChildIffParent(p, replaceThis, nodes);
    if replaceThis.parent != p {
      return null, made, ct;
    }
    var node;
    node, made, ct := CloneBeside(withThis, t, nodes);
    assert p !in made;
    PlaceInstead(p, node, replaceThis, nodes + made);
    assert IsCopy(node, made, ct, t);
    r := node;
  }

  /** RemoveChild: the child is taken out and deleted; a node that is no child of `p` is refused. */
  method RemoveChild(p: Node, removeThis: Node, ghost nodes: set<Node>) returns (removed: bool)
    requires Wf(nodes, null) && p in nodes && removeThis in nodes
    modifies p, p.Children`next, p.Children`prev
    ensures removed == (removeThis in old(p.Children))
    ensures !removed ==> p.Children == old(p.Children) && Wf(nodes, null)
    ensures removed ==>
      Wf(nodes - {removeThis}, null) && p.Children == RemoveAt(old(p.Children), IndexOf(old(p.Children), removeThis))
    ensures OthersKept(nodes, p)
  {
    assert ListOk(p, nodes);
    ChildIffParent(p, removeThis, nodes);
    if removeThis.parent != p {
      return false;
    }
    ghost var children, k := p.Children, IndexOf(p.Children, removeThis);
    Others(nodes, null, p);
    LinkOut(p, removeThis, children, k);
    p.Children := RemoveAt(children, k);
    RemoveMembers(children, k);
    ghost var now := nodes - {removeThis};
    forall q | q in now ensures ListOk(q, now) {
      if q != p {
        ghost var others := q.Children;
        assert Disjoint(children, others) && old(ListOk(q, nodes)) && removeThis in children;
        forall i: nat | i < |others| ensures LinkedAt(q, others, i) {
          assert old(LinkedAt(q, others, i)) && others[i] in others;
        }
      }
    }
    forall n | n in now ensures InItsPlace(n, now) {
      assert old(InItsPlace(n, nodes)) && n.parent == old(n.parent);
    }
    return true;
  }

  /** The parent link says whose child a node is. */
  lemma ChildIffParent(p: Node, c: Node, nodes: set<Node>)
    requires Wf(nodes, null) && p in nodes && c in nodes
    ensures c in p.Children <==> c.parent == p
  {
    assert ListOk(p, nodes) && InItsPlace(c, nodes);
    if c in p.Children {
      var i: nat :| i < |p.Children| && p.Children[i] == c;
      assert LinkedAt(p, p.Children, i);
    }
  }

  lemma InsertMembers(s: seq<Node>, k: nat, n: Node)
    requires k <= |s|
    ensures forall x :: x in Insert(s, k, n) <==> x in s || x == n
  {
    assert Insert(s, k, n)[k] == n;
    forall x | x in s ensures x in Insert(s, k, n) {
      var i :| 0 <= i < |s| && s[i] == x;
      assert Insert(s, k, n)[if i < k then i else i + 1] == x;
    }
  }

  lemma ReplaceMembers(s: seq<Node>, k: nat, n: Node)
    requires Distinct(s) && k < |s| && n !in s
    ensures forall x :: x in Replace(s, k, n) <==> (x in s && x != s[k]) || x == n
  {
    forall x | x in s && x != s[k] ensures x in Replace(s, k, n) {
      var i :| 0 <= i < |s| && s[i] == x;
      assert Replace(s, k, n)[i] == x;
    }
    assert Replace(s, k, n)[k] == n;
  }

  lemma RemoveMembers(s: seq<Node>, k: nat)
    requires Distinct(s) && k < |s|
    ensures forall x :: x in RemoveAt(s, k) <==> x in s && x != s[k]
  {
    forall x | x in s && x != s[k] ensures x in RemoveAt(s, k) {
      var i :| 0 <= i < |s| && s[i] == x;
      assert RemoveAt(s, k)[if i < k then i else i - 1] == x;
    }
  }
}
