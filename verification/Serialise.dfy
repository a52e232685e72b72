/** The binary form in which Remotery sends a sample tree to a viewer, and a decoder that reads it back. */
module Serialise {
  import opened Options
  import opened Words
  import opened Buffers
  import opened Doubles
  import SampleObjects
  import Flatten

  /** What is written of a sample and the samples below it. Times are 64-bit, the other counters 32-bit. */
  datatype Record = Record(
    nameHash: nat, uniqueId: nat, colour: seq<Byte>,
    usStart: nat, usLength: nat, usSampledLength: nat, usGpuIssueOnCpu: nat,
    callCount: nat, maxRecurseDepth: nat, children: seq<Record>)

  /** What a viewer reads of it. */
  datatype View = View(
    nameHash: nat, uniqueId: nat, colour: seq<Byte>, depth: nat,
    usStart: nat, usLength: nat, usSelf: nat, usGpuIssueOnCpu: nat,
    callCount: nat, maxRecurseDepth: nat, children: seq<View>)

  const NODE_SIZE := 56

  predicate Time(t: nat) {
    t < WORD * WORD
  }

  predicate InRange(s: Record) {
    && s.nameHash < WORD && s.uniqueId < WORD && |s.colour| == 3
    && Time(s.usStart) && Time(s.usLength) && Time(s.usSampledLength) && Time(s.usGpuIssueOnCpu)
    && s.callCount < WORD && s.maxRecurseDepth < WORD && |s.children| < WORD
    && forall child :: child in s.children ==> InRange(child)
  }

  /** `maxS64(us_length - us_sampled_length, 0)`: the difference of two unsigned 64-bit numbers, taken as
      a signed one. */
  function SignedPart(length: int, sampled: int): nat {
    var difference := (length - sampled) % (WORD * WORD);
    if difference < WORD * WORD / 2 then difference else 0
  }

  function SelfTime(s: Record): nat {
    SignedPart(s.usLength, s.usSampledLength)
  }

  /** It is the time not spent in the children, or nothing if they took longer, exactly while the two
      are less than 2^63 apart. */
  lemma SelfTimeExactly(length: nat, sampled: nat)
    requires Time(length) && Time(sampled)
    ensures SignedPart(length, sampled) == (if length > sampled then length - sampled else 0)
      <==> -(WORD * WORD / 2) <= length - sampled < WORD * WORD / 2
  {
    var d := length - sampled;
    if d < 0 {
      assert d % (WORD * WORD) == d + WORD * WORD;
    } else {
      assert d % (WORD * WORD) == d;
    }
  }

  function U64ToBytes(value: nat): (bytes: seq<Byte>)
    requires Time(value)
    ensures |bytes| == 8
  {
    U32ToBytes(value % WORD) + U32ToBytes(value / WORD)
  }

  /** A time as its double's bytes. */
  function TimeBytes(t: nat): (bytes: seq<Byte>)
    requires Time(t)
    ensures |bytes| == 8
  {
    FitsEightBytes(t);
    U64ToBytes(ToDouble(t))
  }

  function ReadU32(s: seq<Byte>, at: nat): nat
    requires at + 4 <= |s|
  {
    BytesToU32(s[at..at + 4])
  }

  function ReadTime(s: seq<Byte>, at: nat): nat
    requires at + 8 <= |s|
  {
    FromDouble(BytesToU32(s[at..at + 4]) + WORD * BytesToU32(s[at + 4..at + 8]))
  }

  // ---------------------------------------------------------------------------------------------
  // Encoding
  // ---------------------------------------------------------------------------------------------

  /** One thing written. */
  datatype Field = Word(value: nat) | Time64(value: nat) | Raw(bytes: seq<Byte>)

  predicate FieldInRange(f: Field) {
    match f
    case Word(n) => n < WORD
    case Time64(t) => Time(t)
    case Raw(_) => true
  }

  function FieldBytes(f: Field): seq<Byte>
    requires FieldInRange(f)
  {
    match f
    case Word(n) => U32ToBytes(n)
    case Time64(t) => TimeBytes(t)
    case Raw(bytes) => bytes
  }

  /** The bytes of fields written one after another. */
  function Flat(fields: seq<Field>): seq<Byte>
    requires forall f :: f in fields ==> FieldInRange(f)
  {
    if fields == [] then [] else Flat(fields[..|fields| - 1]) + FieldBytes(fields[|fields| - 1])
  }

  lemma FlatAppend(fields: seq<Field>, f: Field)
    requires FieldInRange(f) && forall g :: g in fields ==> FieldInRange(g)
    ensures Flat(fields + [f]) == Flat(fields) + FieldBytes(f)
  {
    assert (fields + [f])[..|fields|] == fields;
  }

  /** What is written of a sample before its children; the depth is one byte. */
  function Fields(s: Record, depth: Byte): (r: seq<Field>)
    requires InRange(s)
    ensures |r| == 11 && forall f :: f in r ==> FieldInRange(f)
  {
    NameFields(s, depth) + TimeFields(s) + CountFields(s)
  }

  /** A sample's own 56 bytes. */
  function Header(s: Record, depth: Byte): (r: seq<Byte>)
    requires InRange(s)
    ensures |r| == NODE_SIZE
  {
    HeaderParts(s, depth);
    Flat(Fields(s, depth))
  }

  ghost predicate AllInRange(fields: seq<Field>) {
    forall f :: f in fields ==> FieldInRange(f)
  }

  lemma {:induction false} FlatConcat(a: seq<Field>, b: seq<Field>)
    requires AllInRange(a) && AllInRange(b)
    ensures AllInRange(a + b) && Flat(a + b) == Flat(a) + Flat(b)
  {
    if b == [] {
      assert a + b == a;
    } else {
      var short, last := b[..|b| - 1], b[|b| - 1];
      FlatConcat(a, short);
      FlatLast(b);
      assert (a + b)[..|a + b| - 1] == a + short;
      FlatLast(a + b);
      Regroup(Flat(a), Flat(short), FieldBytes(last));
    }
  }

  lemma FlatLast(fields: seq<Field>)
    requires fields != [] && AllInRange(fields)
    ensures AllInRange(fields[..|fields| - 1]) && FieldInRange(fields[|fields| - 1])
    ensures Flat(fields) == Flat(fields[..|fields| - 1]) + FieldBytes(fields[|fields| - 1])
  {
  }

  lemma Flat1(w: Field)
    requires FieldInRange(w)
    ensures AllInRange([w]) && Flat([w]) == FieldBytes(w)
  {
    FlatAppend([], w);
    EmptyFirst(FieldBytes(w));
    assert [] + [w] == [w];
  }

  lemma EmptyFirst(b: seq<Byte>)
    ensures [] + b == b
  {
  }

  lemma Flat2(w: Field, x: Field)
    requires FieldInRange(w) && FieldInRange(x)
    ensures AllInRange([w, x]) && Flat([w, x]) == FieldBytes(w) + FieldBytes(x)
  {
    Flat1(w);
    Flat1(x);
    FlatConcat([w], [x]);
    assert [w] + [x] == [w, x];
  }

  lemma Flat4(w: Field, x: Field, y: Field, z: Field)
    requires FieldInRange(w) && FieldInRange(x) && FieldInRange(y) && FieldInRange(z)
    ensures AllInRange([w, x, y, z])
    ensures Flat([w, x, y, z]) == FieldBytes(w) + FieldBytes(x) + FieldBytes(y) + FieldBytes(z)
  {
    Flat2(w, x);
    Flat2(y, z);
    FlatConcat([w, x], [y, z]);
    assert [w, x] + [y, z] == [w, x, y, z];
  }

  lemma Flat3(w: Field, x: Field, y: Field)
    requires FieldInRange(w) && FieldInRange(x) && FieldInRange(y)
    ensures AllInRange([w, x, y]) && Flat([w, x, y]) == FieldBytes(w) + FieldBytes(x) + FieldBytes(y)
  {
    Flat2(w, x);
    FlatAppend([w, x], y);
    assert [w, x] + [y] == [w, x, y];
  }

  function NameFields(s: Record, depth: Byte): seq<Field> {
    [Word(s.nameHash), Word(s.uniqueId), Raw(s.colour), Raw([depth])]
  }

  function TimeFields(s: Record): seq<Field> {
    [Time64(s.usStart), Time64(s.usLength), Time64(SelfTime(s)), Time64(s.usGpuIssueOnCpu)]
  }

  function CountFields(s: Record): seq<Field> {
    [Word(s.callCount), Word(s.maxRecurseDepth), Word(|s.children|)]
  }

  lemma NameParts(s: Record, depth: Byte)
    requires InRange(s)
    ensures AllInRange(NameFields(s, depth)) && Flat(NameFields(s, depth)) == Names(s, depth)
  {
    Flat4(Word(s.nameHash), Word(s.uniqueId), Raw(s.colour), Raw([depth]));
  }

  lemma TimeParts(s: Record)
    requires InRange(s)
    ensures AllInRange(TimeFields(s)) && Flat(TimeFields(s)) == Times(s)
  {
    Flat4(Time64(s.usStart), Time64(s.usLength), Time64(SelfTime(s)), Time64(s.usGpuIssueOnCpu));
  }

  lemma CountParts(s: Record)
    requires InRange(s)
    ensures AllInRange(CountFields(s)) && Flat(CountFields(s)) == Counts(s)
  {
    Flat3(Word(s.callCount), Word(s.maxRecurseDepth), Word(|s.children|));
  }

  lemma HeaderParts(s: Record, depth: Byte)
    requires InRange(s)
    ensures Flat(Fields(s, depth)) == Names(s, depth) + Times(s) + Counts(s)
  {
    NameParts(s, depth);
    TimeParts(s);
    CountParts(s);
    FlatConcat(NameFields(s, depth), TimeFields(s));
    FlatConcat(NameFields(s, depth) + TimeFields(s), CountFields(s));
  }

  function Names(s: Record, depth: Byte): (r: seq<Byte>)
    requires InRange(s)
    ensures |r| == 12
  {
    U32ToBytes(s.nameHash) + U32ToBytes(s.uniqueId) + s.colour + [depth]
  }

  function Times(s: Record): (r: seq<Byte>)
    requires InRange(s)
    ensures |r| == 32
  {
    TimeBytes(s.usStart) + TimeBytes(s.usLength) + TimeBytes(SelfTime(s)) + TimeBytes(s.usGpuIssueOnCpu)
  }

  function Counts(s: Record): (r: seq<Byte>)
    requires InRange(s)
    ensures |r| == 12
  {
    U32ToBytes(s.callCount) + U32ToBytes(s.maxRecurseDepth) + U32ToBytes(|s.children|)
  }

  function Encode(s: Record, depth: Byte): seq<Byte>
    requires InRange(s)
    decreases s, 0
  {
    Header(s, depth) + EncodeAll(s.children, ((depth + 1) % 256) as Byte)
  }

  function EncodeAll(samples: seq<Record>, depth: Byte): seq<Byte>
    requires forall child :: child in samples ==> InRange(child)
    decreases samples
  {
    if samples == [] then [] else Encode(samples[0], depth) + EncodeAll(samples[1..], depth)
  }

  function Size(s: Record): nat
    decreases s, 0
  {
    1 + SizeAll(s.children)
  }

  function SizeAll(samples: seq<Record>): nat
    decreases samples
  {
    if samples == [] then 0 else Size(samples[0]) + SizeAll(samples[1..])
  }

  // ---------------------------------------------------------------------------------------------
  // Decoding
  // ---------------------------------------------------------------------------------------------

  /** One sample from the front of the bytes, with its children, and the bytes left. */
  function Decode(s: seq<Byte>): (r: Option<(View, seq<Byte>)>)
    ensures r.Some? ==> |r.value.1| + NODE_SIZE <= |s|
    decreases |s|, 0
  {
    if |s| < NODE_SIZE then None
    else
      match DecodeAll(s[NODE_SIZE..], ReadU32(s, 52))
      case None => None
      case Some((children, rest)) =>
        Some((View(ReadU32(s, 0), ReadU32(s, 4), s[8..11], s[11], ReadTime(s, 12), ReadTime(s, 20), ReadTime(s, 28),
                   ReadTime(s, 36), ReadU32(s, 44), ReadU32(s, 48), children), rest))
  }

  function DecodeAll(s: seq<Byte>, count: nat): (r: Option<(seq<View>, seq<Byte>)>)
    ensures r.Some? ==> |r.value.1| <= |s|
    decreases |s|, 1, count
  {
    if count == 0 then Some(([], s))
    else
      match Decode(s)
      case None => None
      case Some((first, rest)) =>
        match DecodeAll(rest, count - 1)
        case None => None
        case Some((more, end)) => Some(([first] + more, end))
  }

  /** What a viewer should read: depths modulo 256, times to 53 significant bits. */
  function Viewed(s: Record, depth: Byte): View
    decreases s, 0
  {
    View(s.nameHash, s.uniqueId, s.colour, depth,
         Rounded(s.usStart), Rounded(s.usLength), Rounded(SelfTime(s)), Rounded(s.usGpuIssueOnCpu),
         s.callCount, s.maxRecurseDepth, ViewedAll(s.children, ((depth + 1) % 256) as Byte))
  }

  function ViewedAll(samples: seq<Record>, depth: Byte): seq<View>
    decreases samples
  {
    if samples == [] then [] else [Viewed(samples[0], depth)] + ViewedAll(samples[1..], depth)
  }

  lemma TimeReads(t: nat)
    requires Time(t)
    ensures var b := TimeBytes(t); FromDouble(BytesToU32(b[0..4]) + WORD * BytesToU32(b[4..8])) == Rounded(t)
  {
    FitsEightBytes(t);
    var d := ToDouble(t);
    var b := TimeBytes(t);
    assert b[0..4] == U32ToBytes(d % WORD) && b[4..8] == U32ToBytes(d / WORD);
    U32RoundTrip(d % WORD);
    U32RoundTrip(d / WORD);
    ReadsBack(t);
  }

  /** The first bytes read as the sample's own fields. */
  predicate Means(h: seq<Byte>, s: Record, depth: Byte)
    requires |h| >= NODE_SIZE
  {
    && ReadU32(h, 0) == s.nameHash && ReadU32(h, 4) == s.uniqueId && h[8..11] == s.colour && h[11] == depth
    && ReadTime(h, 12) == Rounded(s.usStart) && ReadTime(h, 20) == Rounded(s.usLength)
    && ReadTime(h, 28) == Rounded(SelfTime(s)) && ReadTime(h, 36) == Rounded(s.usGpuIssueOnCpu)
    && ReadU32(h, 44) == s.callCount && ReadU32(h, 48) == s.maxRecurseDepth && ReadU32(h, 52) == |s.children|
  }

  lemma FieldU32(h: seq<Byte>, at: nat, n: nat)
    requires n < WORD && at + 4 <= |h| && h[at..at + 4] == U32ToBytes(n)
    ensures ReadU32(h, at) == n
  {
    U32RoundTrip(n);
  }

  lemma FieldTime(h: seq<Byte>, at: nat, t: nat)
    requires Time(t) && at + 8 <= |h| && h[at..at + 8] == TimeBytes(t)
    ensures ReadTime(h, at) == Rounded(t)
  {
    TimeReads(t);
    Inside(h, at, at + 8, TimeBytes(t), 0, 4);
    Inside(h, at, at + 8, TimeBytes(t), 4, 8);
  }

  /** Where the parts of a concatenation lie. */
  lemma FourParts(a: seq<Byte>, b: seq<Byte>, c: seq<Byte>, d: seq<Byte>)
    ensures var all := a + b + c + d;
      && all[..|a|] == a && all[|a|..|a| + |b|] == b
      && all[|a| + |b|..|a| + |b| + |c|] == c && all[|a| + |b| + |c|..] == d
  {
  }

  lemma Inside(h: seq<Byte>, from: nat, to: nat, part: seq<Byte>, i: nat, j: nat)
    requires from <= to <= |h| && h[from..to] == part && i <= j <= |part|
    ensures h[from + i..from + j] == part[i..j]
  {
    forall k | 0 <= k < j - i ensures h[from + i..from + j][k] == part[i..j][k] {
      assert h[from..to][i + k] == h[from + i + k];
    }
  }

  lemma NamesMean(s: Record, depth: Byte, h: seq<Byte>)
    requires InRange(s) && |h| >= NODE_SIZE && h[0..12] == Names(s, depth)
    ensures ReadU32(h, 0) == s.nameHash && ReadU32(h, 4) == s.uniqueId && h[8..11] == s.colour && h[11] == depth
  {
    var n := Names(s, depth);
    FourParts(U32ToBytes(s.nameHash), U32ToBytes(s.uniqueId), s.colour, [depth]);
    Inside(h, 0, 12, n, 0, 4);
    Inside(h, 0, 12, n, 4, 8);
    Inside(h, 0, 12, n, 8, 11);
    assert h[0..12][11] == n[11];
    FieldU32(h, 0, s.nameHash);
    FieldU32(h, 4, s.uniqueId);
  }

  lemma TimesMean(s: Record, h: seq<Byte>)
    requires InRange(s) && |h| >= NODE_SIZE && h[12..44] == Times(s)
    ensures ReadTime(h, 12) == Rounded(s.usStart) && ReadTime(h, 20) == Rounded(s.usLength)
    ensures ReadTime(h, 28) == Rounded(SelfTime(s)) && ReadTime(h, 36) == Rounded(s.usGpuIssueOnCpu)
  {
    FourTimes(h, s.usStart, s.usLength, SelfTime(s), s.usGpuIssueOnCpu);
  }

  lemma FourTimes(h: seq<Byte>, w: nat, x: nat, y: nat, z: nat)
    requires |h| >= NODE_SIZE && Time(w) && Time(x) && Time(y) && Time(z)
    requires h[12..44] == TimeBytes(w) + TimeBytes(x) + TimeBytes(y) + TimeBytes(z)
    ensures ReadTime(h, 12) == Rounded(w) && ReadTime(h, 20) == Rounded(x)
    ensures ReadTime(h, 28) == Rounded(y) && ReadTime(h, 36) == Rounded(z)
  {
    FourPlaces(h, TimeBytes(w), TimeBytes(x), TimeBytes(y), TimeBytes(z));
    FieldTime(h, 12, w);
    FieldTime(h, 20, x);
    FieldTime(h, 28, y);
    FieldTime(h, 36, z);
  }

  lemma FourPlaces(h: seq<Byte>, w: seq<Byte>, x: seq<Byte>, y: seq<Byte>, z: seq<Byte>)
    requires |h| >= NODE_SIZE && |w| == |x| == |y| == |z| == 8 && h[12..44] == w + x + y + z
    ensures h[12..20] == w && h[20..28] == x && h[28..36] == y && h[36..44] == z
  {
    var t := w + x + y + z;
    FourParts(w, x, y, z);
    Inside(h, 12, 44, t, 0, 8);
    Inside(h, 12, 44, t, 8, 16);
    Inside(h, 12, 44, t, 16, 24);
    Inside(h, 12, 44, t, 24, 32);
  }

  lemma CountsMean(s: Record, h: seq<Byte>)
    requires InRange(s) && |h| >= NODE_SIZE && h[44..56] == Counts(s)
    ensures ReadU32(h, 44) == s.callCount && ReadU32(h, 48) == s.maxRecurseDepth && ReadU32(h, 52) == |s.children|
  {
    var c := Counts(s);
    FourParts(U32ToBytes(s.callCount), U32ToBytes(s.maxRecurseDepth), U32ToBytes(|s.children|), []);
    assert c + [] == c;
    Inside(h, 44, 56, c, 0, 4);
    Inside(h, 44, 56, c, 4, 8);
    Inside(h, 44, 56, c, 8, 12);
    FieldU32(h, 44, s.callCount);
    FieldU32(h, 48, s.maxRecurseDepth);
    FieldU32(h, 52, |s.children|);
  }

  lemma HeaderMeans(s: Record, depth: Byte, t: seq<Byte>)
    requires InRange(s)
    ensures Means(Header(s, depth) + t, s, depth) && (Header(s, depth) + t)[NODE_SIZE..] == t
  {
    var h := Header(s, depth) + t;
    HeaderParts(s, depth);
    FourParts(Names(s, depth), Times(s), Counts(s), t);
    NamesMean(s, depth, h);
    TimesMean(s, h);
    CountsMean(s, h);
  }

  /** The step of the decoder, given what the first bytes mean and what the rest decodes to. */
  lemma DecodeStep(s: Record, depth: Byte, h: seq<Byte>, views: seq<View>, t: seq<Byte>)
    requires |h| >= NODE_SIZE && Means(h, s, depth)
    requires DecodeAll(h[NODE_SIZE..], |s.children|) == Some((views, t))
    requires views == ViewedAll(s.children, ((depth + 1) % 256) as Byte)
    ensures Decode(h) == Some((Viewed(s, depth), t))
  {
  }

  lemma Regroup(a: seq<Byte>, b: seq<Byte>, c: seq<Byte>)
    ensures (a + b) + c == a + (b + c)
  {
  }

  /** Decoding takes back exactly the bytes of the tree, whatever follows them, and finds every field
      and the whole shape. */
  lemma {:induction false} DecodesTree(s: Record, depth: Byte, t: seq<Byte>)
    requires InRange(s)
    ensures Decode(Encode(s, depth) + t) == Some((Viewed(s, depth), t))
    ensures |Encode(s, depth)| == NODE_SIZE * Size(s)
    decreases s, 0
  {
    var below := ((depth + 1) % 256) as Byte;
    var children := EncodeAll(s.children, below);
    Regroup(Header(s, depth), children, t);
    HeaderMeans(s, depth, children + t);
    DecodesTrees(s.children, below, t);
    DecodeStep(s, depth, Header(s, depth) + (children + t), ViewedAll(s.children, below), t);
  }

  lemma {:induction false} DecodesTrees(samples: seq<Record>, depth: Byte, t: seq<Byte>)
    requires forall child :: child in samples ==> InRange(child)
    ensures DecodeAll(EncodeAll(samples, depth) + t, |samples|) == Some((ViewedAll(samples, depth), t))
    ensures |EncodeAll(samples, depth)| == NODE_SIZE * SizeAll(samples)
    decreases samples
  {
    if samples == [] {
      assert EncodeAll(samples, depth) + t == t;
    } else {
      var rest := EncodeAll(samples[1..], depth) + t;
      Regroup(Encode(samples[0], depth), EncodeAll(samples[1..], depth), t);
      assert samples[0] in samples;
      DecodesTree(samples[0], depth, rest);
      DecodesTrees(samples[1..], depth, t);
    }
  }

  /** Times below 2^53 come back exactly. */
  lemma TimesExact(s: Record, depth: Byte)
    requires s.usStart < 2 * ONE && s.usLength < 2 * ONE && s.usSampledLength < 2 * ONE && s.usGpuIssueOnCpu < 2 * ONE
    ensures var v := Viewed(s, depth);
      && v.usStart == s.usStart && v.usLength == s.usLength && v.usGpuIssueOnCpu == s.usGpuIssueOnCpu
      && v.usSelf == if s.usLength > s.usSampledLength then s.usLength - s.usSampledLength else 0
  {
    SelfTimeExactly(s.usLength, s.usSampledLength);
    ExactWhenRepresentable(s.usStart);
    ExactWhenRepresentable(s.usLength);
    ExactWhenRepresentable(s.usGpuIssueOnCpu);
    ExactWhenRepresentable(SelfTime(s));
  }

  // ---------------------------------------------------------------------------------------------
  // The linked samples
  // ---------------------------------------------------------------------------------------------

  /** What the samples of a tree hold. */
  ghost function RecordOf(t: Flatten.Tree): Record
    reads Flatten.Nodes(t)
    decreases t, 0
  {
    var n := t.node;
    Record(n.nameHash, n.uniqueId, n.uniqueColour, n.usStart, n.usLength, n.usSampledLength, n.usGpuIssueOnCpu,
           n.callCount, n.maxRecurseDepth, RecordsOf(t.children))
  }

  ghost function RecordsOf(ts: seq<Flatten.Tree>): (r: seq<Record>)
    reads Flatten.NodesAll(ts)
    ensures |r| == |ts|
    decreases ts
  {
    if ts == [] then [] else [RecordOf(ts[0])] + RecordsOf(ts[1..])
  }

  /** Every nb_children is the length of the list it counts. */
  ghost predicate Counted(t: Flatten.Tree)
    reads Flatten.Nodes(t)
    decreases t, 0
  {
    t.node.nbChildren == |t.children| && CountedAll(t.children)
  }

  ghost predicate CountedAll(ts: seq<Flatten.Tree>)
    reads Flatten.NodesAll(ts)
    decreases ts
  {
    ts != [] ==> Counted(ts[0]) && CountedAll(ts[1..])
  }

  /** The samples are linked up as the tree says, its counts are right, and they hold what `s` says. */
  ghost predicate Shows(t: Flatten.Tree, s: Record)
    reads Flatten.Nodes(t)
  {
    Flatten.Built(t) && Counted(t) && s == RecordOf(t)
  }

  ghost predicate ShowsAll(ts: seq<Flatten.Tree>, samples: seq<Record>)
    reads Flatten.NodesAll(ts)
  {
    Flatten.BuiltAll(ts) && CountedAll(ts) && samples == RecordsOf(ts)
  }

  /** A sample's own fields. */
  ghost predicate Holds(sample: SampleObjects.Sample, s: Record)
    reads sample
  {
    && sample.nameHash == s.nameHash && sample.uniqueId == s.uniqueId && sample.uniqueColour == s.colour
    && sample.usStart == s.usStart && sample.usLength == s.usLength && sample.usSampledLength == s.usSampledLength
    && sample.usGpuIssueOnCpu == s.usGpuIssueOnCpu && sample.callCount == s.callCount
    && sample.maxRecurseDepth == s.maxRecurseDepth && sample.nbChildren == |s.children|
  }

  // ---------------------------------------------------------------------------------------------
  // Writing
  // ---------------------------------------------------------------------------------------------

  /** The most bytes a buffer may grow by for a tree, when each write may round up to the
      granularity. */
  function Need(s: Record, perSample: nat): nat
    decreases s, 0
  {
    perSample + NeedAll(s.children, perSample)
  }

  function NeedAll(samples: seq<Record>, perSample: nat): nat
    decreases samples
  {
    if samples == [] then 0 else Need(samples[0], perSample) + NeedAll(samples[1..], perSample)
  }

  /** The buffer holds `contents`, in no more than `most` bytes of memory. */
  ghost predicate Grown(buffer: Buffer, contents: seq<Byte>, granularity: nat, most: nat)
    reads buffer, buffer.data
  {
    buffer.Valid() && buffer.Contents() == contents && buffer.allocGranularity == granularity && buffer.bytesAllocated <= most
  }

  /** The first `k` of the fields have been written after `before`. */
  ghost predicate Written(buffer: Buffer, before: seq<Byte>, fields: seq<Field>, k: nat, granularity: nat, most: nat)
    reads buffer, buffer.data
  {
    && k <= |fields| && (forall f :: f in fields[..k] ==> FieldInRange(f))
    && Grown(buffer, before + Flat(fields[..k]), granularity, most)
  }

  lemma OneMoreField(before: seq<Byte>, fields: seq<Field>, k: nat)
    requires k < |fields| && FieldInRange(fields[k]) && forall f :: f in fields[..k] ==> FieldInRange(f)
    ensures forall f :: f in fields[..k + 1] ==> FieldInRange(f)
    ensures before + Flat(fields[..k + 1]) == before + Flat(fields[..k]) + FieldBytes(fields[k])
  {
    assert fields[..k + 1] == fields[..k] + [fields[k]];
    FlatAppend(fields[..k], fields[k]);
    Regroup(before, Flat(fields[..k]), FieldBytes(fields[k]));
  }

  /** The next field of a sample. */
  method WriteField(buffer: Buffer, f: Field, ghost before: seq<Byte>, ghost fields: seq<Field>, ghost k: nat, ghost most: nat)
    requires k < |fields| && fields[k] == f && FieldInRange(f) && Written(buffer, before, fields, k, buffer.allocGranularity, most)
    requires most + |FieldBytes(f)| + buffer.allocGranularity <= WORD
    modifies buffer, buffer.data
    ensures Written(buffer, before, fields, k + 1, old(buffer.allocGranularity), most + |FieldBytes(f)| + old(buffer.allocGranularity))
    ensures buffer.data == old(buffer.data) || fresh(buffer.data)
  {
    OneMoreField(before, fields, k);
    match f {
      case Word(n) => buffer.WriteU32(n);
      case Time64(t) =>
        FitsEightBytes(t);
        buffer.Write(U64ToBytes(ToDouble(t)));
      case Raw(bytes) => buffer.Write(bytes);
    }
  }

  /** Times are written as doubles, which is all a JavaScript viewer can read. */
  method WriteTime(buffer: Buffer, t: nat, ghost before: seq<Byte>, ghost fields: seq<Field>, ghost k: nat, ghost most: nat)
    requires k < |fields| && fields[k] == Time64(t) && Time(t) && Written(buffer, before, fields, k, buffer.allocGranularity, most)
    requires most + 8 + buffer.allocGranularity <= WORD
    modifies buffer, buffer.data
    ensures Written(buffer, before, fields, k + 1, old(buffer.allocGranularity), most + 8 + old(buffer.allocGranularity))
    ensures buffer.data == old(buffer.data) || fresh(buffer.data)
  {
    WriteField(buffer, Time64(t), before, fields, k, most);
  }

  method WriteNames(buffer: Buffer, sample: SampleObjects.Sample, depth: Byte, ghost s: Record, ghost before: seq<Byte>, ghost fields: seq<Field>, ghost most: nat)
    requires InRange(s) && Holds(sample, s) && fields == Fields(s, depth) && Written(buffer, before, fields, 0, buffer.allocGranularity, most)
    requires most + 12 + 4 * buffer.allocGranularity <= WORD
    modifies buffer, buffer.data
    ensures Written(buffer, before, fields, 4, old(buffer.allocGranularity), most + 12 + 4 * old(buffer.allocGranularity))
    ensures buffer.data == old(buffer.data) || fresh(buffer.data)
  {
    ghost var g := buffer.allocGranularity;
    WriteField(buffer, Word(sample.nameHash), before, fields, 0, most);
    WriteField(buffer, Word(sample.uniqueId), before, fields, 1, most + 4 + g);
    WriteField(buffer, Raw(sample.uniqueColour), before, fields, 2, most + 8 + 2 * g);
    WriteField(buffer, Raw([depth]), before, fields, 3, most + 11 + 3 * g);
  }

  method WriteTimes(buffer: Buffer, usStart: nat, usLength: nat, usSelf: nat, usIssue: nat,
                    ghost before: seq<Byte>, ghost fields: seq<Field>, ghost most: nat)
    requires |fields| == 11 && Time(usStart) && Time(usLength) && Time(usSelf) && Time(usIssue)
    requires fields[4] == Time64(usStart) && fields[5] == Time64(usLength)
    requires fields[6] == Time64(usSelf) && fields[7] == Time64(usIssue)
    requires Written(buffer, before, fields, 4, buffer.allocGranularity, most)
    requires most + 32 + 4 * buffer.allocGranularity <= WORD
    modifies buffer, buffer.data
    ensures Written(buffer, before, fields, 8, old(buffer.allocGranularity), most + 32 + 4 * old(buffer.allocGranularity))
    ensures buffer.data == old(buffer.data) || fresh(buffer.data)
  {
    ghost var g := buffer.allocGranularity;
    WriteTime(buffer, usStart, before, fields, 4, most);
    WriteTime(buffer, usLength, before, fields, 5, most + 8 + g);
    WriteTime(buffer, usSelf, before, fields, 6, most + 16 + 2 * g);
    WriteTime(buffer, usIssue, before, fields, 7, most + 24 + 3 * g);
  }

  method WriteCounts(buffer: Buffer, sample: SampleObjects.Sample, ghost s: Record, ghost before: seq<Byte>, ghost fields: seq<Field>, ghost most: nat)
    requires InRange(s) && Holds(sample, s) && |fields| == 11 && fields[8..] == CountFields(s)
    requires Written(buffer, before, fields, 8, buffer.allocGranularity, most)
    requires most + 12 + 3 * buffer.allocGranularity <= WORD
    modifies buffer, buffer.data
    ensures Written(buffer, before, fields, 11, old(buffer.allocGranularity), most + 12 + 3 * old(buffer.allocGranularity))
    ensures buffer.data == old(buffer.data) || fresh(buffer.data)
  {
    ghost var g := buffer.allocGranularity;
    assert forall i :: 8 <= i < 11 ==> fields[i] == fields[8..][i - 8];
    WriteField(buffer, Word(sample.callCount), before, fields, 8, most);
    WriteField(buffer, Word(sample.maxRecurseDepth), before, fields, 9, most + 4 + g);
    WriteField(buffer, Word(sample.nbChildren), before, fields, 10, most + 8 + 2 * g);
  }

  method SelfTimeOf(sample: SampleObjects.Sample, ghost s: Record) returns (usSelf: nat)
    requires Holds(sample, s)
    ensures usSelf == SelfTime(s)
  {
    usSelf := SignedPart(sample.usLength, sample.usSampledLength);
  }

  method WriteHeader(buffer: Buffer, sample: SampleObjects.Sample, depth: Byte, ghost s: Record)
    requires buffer.Valid() && buffer.Room(NODE_SIZE + 11 * buffer.allocGranularity) && InRange(s) && Holds(sample, s)
    modifies buffer, buffer.data
    ensures Grown(buffer, old(buffer.Contents()) + Header(s, depth), old(buffer.allocGranularity),
                  old(buffer.bytesAllocated) + NODE_SIZE + 11 * buffer.allocGranularity)
    ensures buffer.data == old(buffer.data) || fresh(buffer.data)
  {
    ghost var before, fields, most, g := buffer.Contents(), Fields(s, depth), buffer.bytesAllocated, buffer.allocGranularity;
    assert fields[..0] == [] && before + [] == before;
    assert fields[8..] == CountFields(s) && fields[..11] == fields;
    WriteNames(buffer, sample, depth, s, before, fields, most);
    var usSelf := SelfTimeOf(sample, s);
    WriteTimes(buffer, sample.usStart, sample.usLength, usSelf, sample.usGpuIssueOnCpu, before, fields, most + 12 + 4 * g);
    WriteCounts(buffer, sample, s, before, fields, most + 44 + 8 * g);
  }

  /** A sample and everything linked below it. */
  method BinSample(buffer: Buffer, sample: SampleObjects.Sample, depth: Byte, ghost t: Flatten.Tree, ghost s: Record)
    requires buffer.Valid() && sample == t.node && Shows(t, s) && InRange(s)
    requires buffer.Room(Need(s, NODE_SIZE + 11 * buffer.allocGranularity))
    modifies buffer, buffer.data
    ensures Grown(buffer, old(buffer.Contents()) + Encode(s, depth), old(buffer.allocGranularity),
                  old(buffer.bytesAllocated) + Need(s, NODE_SIZE + 11 * buffer.allocGranularity))
    ensures buffer.data == old(buffer.data) || fresh(buffer.data)
    decreases t, 0
  {
    ghost var c := buffer.Contents();
    var below := ((depth + 1) % 256) as Byte;
    assert ShowsAll(t.children, s.children) && allocated(Flatten.NodesAll(t.children)) && Holds(sample, s);
    WriteHeader(buffer, sample, depth, s);
    assert ShowsAll(t.children, s.children) && Holds(sample, s);
    BinSampleArray(buffer, sample, below, t.children, s.children);
    Regroup(c, Header(s, depth), EncodeAll(s.children, below));
  }

  /** The loop over the children, along their sibling links. */
  method BinSampleArray(buffer: Buffer, parentSample: SampleObjects.Sample, depth: Byte,
                        ghost ts: seq<Flatten.Tree>, ghost samples: seq<Record>)
    requires buffer.Valid() && parentSample.firstChild == Flatten.First(ts) && ShowsAll(ts, samples)
    requires forall child :: child in samples ==> InRange(child)
    requires buffer.Room(NeedAll(samples, NODE_SIZE + 11 * buffer.allocGranularity))
    modifies buffer, buffer.data
    ensures Grown(buffer, old(buffer.Contents()) + EncodeAll(samples, depth), old(buffer.allocGranularity),
                  old(buffer.bytesAllocated) + NeedAll(samples, NODE_SIZE + 11 * buffer.allocGranularity))
    ensures buffer.data == old(buffer.data) || fresh(buffer.data)
    decreases ts
  {
    ghost var granularity, before, all := buffer.allocGranularity, buffer.Contents(), EncodeAll(samples, depth);
    ghost var top := buffer.bytesAllocated + NeedAll(samples, NODE_SIZE + 11 * granularity);
    ghost var done, rest, left := [], ts, samples;
    var sample := parentSample.firstChild;
    assert before + done == before && done + all == all;
    while sample != null
      invariant InLoop(buffer, sample, rest, left, depth, before, done, all, granularity, top)
      invariant buffer.data == old(buffer.data) || fresh(buffer.data)
      invariant |rest| <= |ts| && rest == ts[|ts| - |rest|..]
      decreases |rest|
    {
      assert rest[0] in ts;
      sample := BinSampleNext(buffer, sample, depth, rest, left, before, done, all, granularity, top);
      done, rest, left := done + Encode(left[0], depth), rest[1..], left[1..];
    }
    assert done + [] == done;
  }

  /** Of all the bytes to write, the first have been written and the rest are those of the samples left. */
  ghost predicate InLoop(buffer: Buffer, sample: SampleObjects.Sample?, rest: seq<Flatten.Tree>, left: seq<Record>, depth: Byte,
                         before: seq<Byte>, done: seq<Byte>, all: seq<Byte>, granularity: nat, top: nat)
    reads buffer, buffer.data, Flatten.NodesAll(rest)
  {
    && ShowsAll(rest, left) && sample == Flatten.First(rest) && (forall child :: child in left ==> InRange(child))
    && top <= WORD - granularity && top >= NeedAll(left, NODE_SIZE + 11 * granularity)
    && Grown(buffer, before + done, granularity, top - NeedAll(left, NODE_SIZE + 11 * granularity))
    && all == done + EncodeAll(left, depth)
  }

  lemma NextRecord(left: seq<Record>, before: seq<Byte>, done: seq<Byte>, depth: Byte)
    requires left != [] && forall child :: child in left ==> InRange(child)
    ensures InRange(left[0]) && forall child :: child in left[1..] ==> InRange(child)
    ensures (before + done) + Encode(left[0], depth) == before + (done + Encode(left[0], depth))
    ensures done + EncodeAll(left, depth) == (done + Encode(left[0], depth)) + EncodeAll(left[1..], depth)
  {
    assert left[0] in left;
    Regroup(before, done, Encode(left[0], depth));
    Regroup(done, Encode(left[0], depth), EncodeAll(left[1..], depth));
  }

  /** One turn of the loop. */
  method BinSampleNext(buffer: Buffer, sample: SampleObjects.Sample, depth: Byte,
                       ghost rest: seq<Flatten.Tree>, ghost left: seq<Record>,
                       ghost before: seq<Byte>, ghost done: seq<Byte>, ghost all: seq<Byte>, ghost granularity: nat, ghost top: nat)
      returns (next: SampleObjects.Sample?)
    requires rest != [] && InLoop(buffer, sample, rest, left, depth, before, done, all, granularity, top)
    modifies buffer, buffer.data
    ensures left != [] && InRange(left[0])
    ensures InLoop(buffer, next, rest[1..], left[1..], depth, before, done + Encode(left[0], depth), all, granularity, top)
    ensures buffer.data == old(buffer.data) || fresh(buffer.data)
    decreases rest[0], 1
  {
    NextRecord(left, before, done, depth);
    assert Shows(rest[0], left[0]) && ShowsAll(rest[1..], left[1..]) && allocated(Flatten.NodesAll(rest[1..]));
    BinSample(buffer, sample, depth, rest[0], left[0]);
    next := sample.nextSibling;
  }
}
