/** The message that carries a sample tree to a viewer, from header to footer, and how a viewer reads it. */
module TreeMessages {
  import opened Options
  import opened Words
  import opened Buffers
  import opened Serialise
  import SampleObjects
  import SampleTrees
  import Flatten
  import Samples
  import SampleRuns
  import SentTrees

  const SMPL: seq<Byte> := [83, 77, 80, 76]

  function Aligned(n: nat): (r: nat)
    ensures n <= r < n + 4 && r % 4 == 0
  {
    (n + 3) - (n + 3) % 4
  }

  /** What a viewer reads of a message: the thread's name, the number of samples, whether the tree is
      partial, and the tree. */
  function ReadTreeMessage(m: seq<Byte>): Option<(seq<Byte>, nat, bool, View)> {
    if |m| < 12 then None
    else
      var n := ReadU32(m, 8);
      if |m| < Aligned(20 + n) then None
      else
        match Decode(m[Aligned(20 + n)..])
        case None => None
        case Some((view, _)) => Some((m[12..12 + n], ReadU32(m, 12 + n), ReadU32(m, 16 + n) != 0, view))
  }

  /** What comes between the header and the tree, before aligning. */
  function Front(name: seq<Byte>, nbSamples: nat, partialTree: bool): (r: seq<Byte>)
    requires |name| < WORD && nbSamples < WORD
    ensures |r| == 12 + |name|
  {
    U32ToBytes(|name|) + name + U32ToBytes(nbSamples) + U32ToBytes(if partialTree then 1 else 0)
  }

  lemma FrontReads(m: seq<Byte>, name: seq<Byte>, nbSamples: nat, partialTree: bool)
    requires |name| < WORD && nbSamples < WORD && |m| >= 20 + |name| && m[8..20 + |name|] == Front(name, nbSamples, partialTree)
    ensures ReadU32(m, 8) == |name| && m[12..12 + |name|] == name
    ensures ReadU32(m, 12 + |name|) == nbSamples && (ReadU32(m, 16 + |name|) != 0) == partialTree
  {
    var n, f, flag := |name|, Front(name, nbSamples, partialTree), if partialTree then 1 else 0;
    FourParts(U32ToBytes(n), name, U32ToBytes(nbSamples), U32ToBytes(flag));
    Inside(m, 8, 20 + n, f, 0, 4);
    Inside(m, 8, 20 + n, f, 4, 4 + n);
    Inside(m, 8, 20 + n, f, 4 + n, 8 + n);
    Inside(m, 8, 20 + n, f, 8 + n, 12 + n);
    FieldU32(m, 8, n);
    FieldU32(m, 12 + n, nbSamples);
    FieldU32(m, 16 + n, flag);
  }

  /** Where the parts of a message's body are in it. */
  lemma MessageParts(m: seq<Byte>, id: seq<Byte>, front: seq<Byte>, pad: seq<Byte>, tree: seq<Byte>, n: nat, from: nat)
    requires IsMessage(m, id, front + pad + tree) && |front| == 12 + n && from == 20 + n + |pad|
    ensures |m| >= from + |tree| && m[8..20 + n] == front && m[from..] == tree + m[from + |tree|..]
  {
    var body := front + pad + tree;
    assert m[8..8 + |body|] == body;
    assert body[..|front|] == front && body[|front| + |pad|..] == tree;
    assert m[8..20 + n] == body[..|front|];
    assert m[from..from + |tree|] == body[|front| + |pad|..];
  }

  /** A viewer reads back the name, the flag, the number of samples and the whole tree. */
  lemma MessageReads(m: seq<Byte>, id: seq<Byte>, name: seq<Byte>, nbSamples: nat, partialTree: bool, pad: seq<Byte>, s: Record)
    requires InRange(s) && |name| < WORD && nbSamples < WORD && 20 + |name| + |pad| == Aligned(20 + |name|)
    requires IsMessage(m, id, Front(name, nbSamples, partialTree) + pad + Encode(s, 0))
    ensures ReadTreeMessage(m) == Some((name, nbSamples, partialTree, Viewed(s, 0)))
  {
    var front, tree, from := Front(name, nbSamples, partialTree), Encode(s, 0), 20 + |name| + |pad|;
    MessageParts(m, id, front, pad, tree, |name|, from);
    DecodesTree(s, 0, m[from + |tree|..]);
    PartsRead(m, front, name, nbSamples, partialTree, from, Viewed(s, 0), m[from + |tree|..]);
  }

  lemma PartsRead(m: seq<Byte>, front: seq<Byte>, name: seq<Byte>, nbSamples: nat, partialTree: bool,
                  from: nat, view: View, rest: seq<Byte>)
    requires |name| < WORD && nbSamples < WORD && front == Front(name, nbSamples, partialTree)
    requires from == Aligned(20 + |name|) && |m| >= from && m[8..20 + |name|] == front
    requires Decode(m[from..]) == Some((view, rest))
    ensures ReadTreeMessage(m) == Some((name, nbSamples, partialTree, view))
  {
    FrontReads(m, name, nbSamples, partialTree);
  }

  // ---------------------------------------------------------------------------------------------
  // Writing
  // ---------------------------------------------------------------------------------------------

  /** The samples of a tree, counted along their links. */
  method CountSamples(sample: SampleObjects.Sample, ghost t: Flatten.Tree, nbSamples: nat) returns (count: nat)
    requires Flatten.Built(t) && sample == t.node
    ensures count == nbSamples + |Flatten.Preorder(t)|
    decreases t, 0
  {
    count := nbSamples + 1;
    var child := sample.firstChild;
    ghost var rest := t.children;
    while child != null
      invariant Flatten.BuiltAll(rest) && child == Flatten.First(rest) && |rest| <= |t.children| && rest == t.children[|t.children| - |rest|..]
      invariant count + |Flatten.PreorderAll(rest)| == nbSamples + |Flatten.Preorder(t)|
      decreases |rest|
    {
      assert rest[0] in t.children && Flatten.Built(rest[0]) && Flatten.BuiltAll(rest[1..]);
      assert allocated(Flatten.NodesAll(rest[1..]));
      assert child.nextSibling == Flatten.First(rest[1..]);
      count := CountSamples(child, rest[0], count);
      child := child.nextSibling;
      rest := rest[1..];
    }
  }

  /** The most bytes a buffer may grow by for a message. */
  function MessageNeed(name: seq<Byte>, s: Record, granularity: nat): nat {
    26 + |name| + 8 * granularity + Need(s, NODE_SIZE + 11 * granularity)
  }

  /** What comes before the tree. */
  method WriteFront(buffer: Buffer, name: seq<Byte>, nbSamples: nat, partialTree: bool)
    requires buffer.Valid() && |name| < WORD && nbSamples < WORD
    requires buffer.Room(12 + |name| + 3 * buffer.allocGranularity)
    modifies buffer, buffer.data
    ensures Grown(buffer, old(buffer.Contents()) + Front(name, nbSamples, partialTree),
                  old(buffer.allocGranularity), old(buffer.bytesAllocated) + 12 + |name| + 4 * old(buffer.allocGranularity))
    ensures buffer.data == old(buffer.data) || fresh(buffer.data)
  {
    ghost var before, flag := buffer.Contents(), if partialTree then 1 else 0;
    buffer.WriteU32(|name|);
    buffer.Write(name);
    buffer.WriteU32(nbSamples);
    buffer.WriteU32(if partialTree then 1 else 0);
    FrontJoins(before, U32ToBytes(|name|), name, U32ToBytes(nbSamples), U32ToBytes(flag));
  }

  /** Step to the next multiple of four bytes after the start of the message. */
  method Align(buffer: Buffer, writeStartOffset: nat) returns (ghost pad: seq<Byte>)
    requires buffer.Valid() && buffer.Room(3) && writeStartOffset <= buffer.bytesUsed
    modifies buffer, buffer.data
    ensures Grown(buffer, old(buffer.Contents()) + pad, old(buffer.allocGranularity),
                  old(buffer.bytesAllocated) + 3 + old(buffer.allocGranularity))
    ensures old(buffer.bytesUsed) - writeStartOffset + |pad| == Aligned(old(buffer.bytesUsed) - writeStartOffset)
    ensures buffer.data == old(buffer.data) || fresh(buffer.data)
  {
    ghost var before := buffer.Contents();
    buffer.AlignedPad(writeStartOffset);
    pad := buffer.Contents()[|before|..];
    OneAligned(|before| - writeStartOffset, buffer.bytesUsed - writeStartOffset);
    assert buffer.Contents() == before + pad;
  }

  /** Everything before the tree. */
  method StartMessage(buffer: Buffer, name: seq<Byte>, nbSamples: nat, partialTree: bool)
      returns (writeStartOffset: nat, ghost pad: seq<Byte>)
    requires buffer.Valid() && |name| < WORD && nbSamples < WORD
    requires buffer.Room(23 + |name| + 6 * buffer.allocGranularity)
    modifies buffer, buffer.data
    ensures writeStartOffset == |old(buffer.Contents())| && 20 + |name| + |pad| == Aligned(20 + |name|)
    ensures Grown(buffer, old(buffer.Contents()) + SMPL + [32, 32, 32, 32] + Front(name, nbSamples, partialTree) + pad,
                  old(buffer.allocGranularity), old(buffer.bytesAllocated) + 23 + |name| + 7 * old(buffer.allocGranularity))
    ensures buffer.data == old(buffer.data) || fresh(buffer.data)
  {
    writeStartOffset := buffer.MessageHeader(SMPL);
    WriteFront(buffer, name, nbSamples, partialTree);
    pad := Align(buffer, writeStartOffset);
  }

  /** The end of the message, given what has been written of it. */
  method EndMessage(buffer: Buffer, writeStartOffset: nat, ghost before: seq<Byte>, ghost body: seq<Byte>)
    requires buffer.Valid() && buffer.Room(3) && writeStartOffset == |before|
    requires buffer.Contents() == before + SMPL + [32, 32, 32, 32] + body
    modifies buffer, buffer.data
    ensures buffer.Valid() && |before| <= |buffer.Contents()| && buffer.Contents()[..|before|] == before
    ensures IsMessage(buffer.Contents()[|before|..], SMPL, body)
    ensures buffer.data == old(buffer.data) || fresh(buffer.data)
  {
    MessageLayout(before, SMPL, body);
    buffer.MessageFooter(writeStartOffset, SMPL);
  }

  lemma OneAligned(n: nat, m: nat)
    requires n <= m < n + 4 && m % 4 == 0
    ensures m == Aligned(n)
  {
  }

  lemma FrontJoins(start: seq<Byte>, a: seq<Byte>, b: seq<Byte>, c: seq<Byte>, d: seq<Byte>)
    ensures start + a + b + c + d == start + (a + b + c + d)
  {
  }

  /** The message but for its end. */
  method WriteBody(buffer: Buffer, rootSample: SampleObjects.Sample, name: seq<Byte>, nbSamples: nat, partialTree: bool,
                   ghost t: Flatten.Tree, ghost s: Record)
      returns (writeStartOffset: nat, ghost pad: seq<Byte>)
    requires buffer.Valid() && rootSample == t.node && Shows(t, s) && InRange(s) && |name| < WORD && nbSamples < WORD
    requires buffer.Room(MessageNeed(name, s, buffer.allocGranularity))
    modifies buffer, buffer.data
    ensures writeStartOffset == |old(buffer.Contents())| && 20 + |name| + |pad| == Aligned(20 + |name|)
    ensures buffer.Valid() && buffer.Room(3)
    ensures buffer.Contents()
      == old(buffer.Contents()) + SMPL + [32, 32, 32, 32] + (Front(name, nbSamples, partialTree) + pad + Encode(s, 0))
    ensures buffer.data == old(buffer.data) || fresh(buffer.data)
  {
    ghost var before := buffer.Contents();
    assert allocated(Flatten.Nodes(t)) && Shows(t, s);
    writeStartOffset, pad := StartMessage(buffer, name, nbSamples, partialTree);
    assert Shows(t, s);
    BinSample(buffer, rootSample, 0, t, s);
    BodyJoins(before + SMPL + [32, 32, 32, 32], Front(name, nbSamples, partialTree), pad, Encode(s, 0));
  }

  ghost predicate IsTreeMessage(m: seq<Byte>, name: seq<Byte>, nbSamples: nat, partialTree: bool, s: Record) {
    && (exists body :: IsMessage(m, SMPL, body))
    && ReadTreeMessage(m) == Some((name, nbSamples, partialTree, Viewed(s, 0)))
  }

  /** bin_SampleTree: one message, from which a viewer reads back the whole tree. */
  method BinSampleTree(buffer: Buffer, rootSample: SampleObjects.Sample, threadName: seq<Byte>, partialTree: bool,
                       ghost t: Flatten.Tree, ghost s: Record)
    requires buffer.Valid() && rootSample == t.node && Shows(t, s) && InRange(s) && |threadName| < 256
    requires |Flatten.Preorder(t)| < WORD && buffer.Room(MessageNeed(threadName, s, buffer.allocGranularity))
    modifies buffer, buffer.data
    ensures buffer.Valid() && |old(buffer.Contents())| <= |buffer.Contents()|
    ensures buffer.Contents()[..|old(buffer.Contents())|] == old(buffer.Contents())
    ensures IsTreeMessage(buffer.Contents()[|old(buffer.Contents())|..], threadName, |Flatten.Preorder(t)|, partialTree, s)
    ensures buffer.data == old(buffer.data) || fresh(buffer.data)
  {
    ghost var before := buffer.Contents();
    assert allocated(Flatten.Nodes(t)) && Shows(t, s);
    var nbSamples := CountSamples(rootSample, t, 0);
    assert Shows(t, s);
    var writeStartOffset;
    ghost var pad;
    writeStartOffset, pad := WriteBody(buffer, rootSample, threadName, nbSamples, partialTree, t, s);
    ghost var body := Front(threadName, nbSamples, partialTree) + pad + Encode(s, 0);
    EndMessage(buffer, writeStartOffset, before, body);
    IsRead(buffer.Contents()[|before|..], body, threadName, nbSamples, partialTree, pad, s);
  }

  lemma IsRead(m: seq<Byte>, body: seq<Byte>, name: seq<Byte>, nbSamples: nat, partialTree: bool, pad: seq<Byte>, s: Record)
    requires InRange(s) && |name| < WORD && nbSamples < WORD && 20 + |name| + |pad| == Aligned(20 + |name|)
    requires body == Front(name, nbSamples, partialTree) + pad + Encode(s, 0) && IsMessage(m, SMPL, body)
    ensures IsTreeMessage(m, name, nbSamples, partialTree, s)
  {
    MessageReads(m, SMPL, name, nbSamples, partialTree, pad, s);
  }

  lemma BodyJoins(start: seq<Byte>, front: seq<Byte>, pad: seq<Byte>, tree: seq<Byte>)
    ensures start + front + pad + tree == start + (front + pad + tree)
  {
  }

  lemma MessageLayout(before: seq<Byte>, id: seq<Byte>, body: seq<Byte>)
    requires |id| == 4
    ensures var all := before + id + [32, 32, 32, 32] + body;
      all[..|before|] == before && all[|before|..|before| + 4] == id && all[|before| + 8..] == body
  {
  }

  // ---------------------------------------------------------------------------------------------
  // The trees there are to send
  // ---------------------------------------------------------------------------------------------

  ghost predicate FewChildren(nodes: seq<Samples.Info>) {
    forall i: nat :: i < |nodes| ==> |nodes[i].children| < WORD
  }

  lemma {:induction false} TreeCounted(objects: seq<SampleObjects.Sample>, links: seq<SampleObjects.Links>, nodes: seq<Samples.Info>, i: nat)
    requires Samples.Shape(nodes) && SampleTrees.Detached(objects, links, nodes) && FewChildren(nodes) && 0 < i < |nodes|
    ensures Counted(SentTrees.TreeOf(objects, nodes, i))
    decreases |nodes| - i, 1
  {
    assert Samples.ChildrenRight(nodes, i) && objects[i].Holds(nodes[i]);
    TreesCounted(objects, links, nodes, i, nodes[i].children);
  }

  lemma {:induction false} TreesCounted(objects: seq<SampleObjects.Sample>, links: seq<SampleObjects.Links>, nodes: seq<Samples.Info>,
                                        i: nat, children: seq<nat>)
    requires Samples.Shape(nodes) && SampleTrees.Detached(objects, links, nodes) && FewChildren(nodes)
    requires SentTrees.AllBetween(children, i, |nodes|)
    ensures CountedAll(SentTrees.TreesOf(objects, nodes, i, children))
    ensures |SentTrees.TreesOf(objects, nodes, i, children)| == |children|
    decreases |nodes| - i, 0, |children|
  {
    if children != [] {
      SampleRuns.Split(children);
      TreeCounted(objects, links, nodes, children[0]);
      TreesCounted(objects, links, nodes, i, children[1..]);
      var ts := SentTrees.TreesOf(objects, nodes, i, children);
      assert ts[1..] == SentTrees.TreesOf(objects, nodes, i, children[1..]);
    }
  }

  /** A tree taken off a profiler is one that BinSampleTree accepts, as long as its numbers fit their
      fields: its links spell it out, its counts are right, and it has every sample of the run. */
  lemma FinishedTreeShows(objects: seq<SampleObjects.Sample>, links: seq<SampleObjects.Links>, nodes: seq<Samples.Info>)
    requires SampleTrees.Detached(objects, links, nodes) && Samples.SentRight(nodes) && FewChildren(nodes)
    ensures var t := SentTrees.TreeOf(objects, nodes, 1);
      t.node == objects[1] && Shows(t, RecordOf(t)) && |Flatten.Preorder(t)| == |nodes| - 1
  {
    SentTrees.FinishedTree(objects, links, nodes);
    TreeCounted(objects, links, nodes, 1);
  }
}
