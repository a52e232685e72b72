/** Remotery's multiple-producer, single-consumer message queue as a transition system. */
module MessageQueue {
  import opened Words

  // One step per load, test, compare-and-swap or store, any number of producers, sequentially
  // consistent. The two position counters are kept unwrapped, as natural numbers; every test, mask
  // and compare-and-swap of the code is made on their 32-bit words.

  // sizeof(Message) on a 64-bit target: id (4), payload_size (4), threadProfiler (8), payload[1]
  // and tail padding. The payload starts at byte 16.
  const HEADER := 24
  const PAYLOAD := 16

  datatype Message = Message(id: nat, profiler: nat, payload: seq<Byte>)

  predicate ValidMessage(m: Message) {
    && 0 < m.id < WORD               // any identifier but MsgID_NotReady
    && m.profiler < Pow256(8)
    && |m.payload| < 0x4000_0000
  }

  /** rmtMessageQueue_SizeForPayload: the header and the payload, rounded up to 8 bytes in 32-bit
      arithmetic. SizeForPayloadMask shows that this is the code's `(size + 7) & ~7U`. */
  function SizeForPayload(n: nat): nat {
    var x := Wrap32(HEADER + n + 7);
    x - x % 8
  }

  lemma SizeForPayloadMask(n: nat)
    ensures SizeForPayload(n) == BitAnd(Wrap32(HEADER + n + 7), WORD - 8)
  {
    MaskLowBits(Wrap32(HEADER + n + 7), WORD - 8);
  }

  lemma SizeForPayloadRounds(n: nat)
    requires n < 0x4000_0000
    ensures SizeForPayload(n) % 8 == 0
    ensures HEADER + n <= SizeForPayload(n) < HEADER + n + 8
  {
  }

  function Total(m: Message): nat {
    SizeForPayload(|m.payload|)
  }

  // ---------------------------------------------------------------------------------------------
  // State
  // ---------------------------------------------------------------------------------------------

  /** A range of the buffer won by a compare-and-swap. `written` counts the stores its owner has
      done: 1 for payload_size, 2 for threadProfiler, then one for each payload byte. */
  datatype Claim = Claim(pos: nat, msg: Message, owner: nat, written: nat, committed: bool)

  datatype Producer =
    | Idle
    | LoadedWrite(msg: Message, w: nat, readThen: nat)
    | LoadedRead(msg: Message, w: nat, r: nat, readThen: nat)
    | Fits(msg: Message, w: nat)        // the overflow test passed; the swap is next
    | Retrying(msg: Message)            // the swap found another position; round the loop again
    | Refused                           // AllocMessage returned NULL
    | Filling(claim: nat)
    | Checked(claim: nat)               // CommitMessage has loaded the identifier
    | AssertFailed                      // ... and it was not MsgID_NotReady

  datatype Consumer =
    | Resting
    | PeekedWrite(w: nat)
    | PeekedRead(w: nat, r: nat)
    | HasMessage(r: nat)                // PeekNextMessage returned a pointer
    | Zeroing(r: nat, total: nat, done: nat)

  datatype State = State(
    size: nat, mem: seq<Byte>, readPos: nat, writePos: nat,
    producers: seq<Producer>, consumer: Consumer,
    claims: seq<Claim>,                 // every claim ever made, in compare-and-swap order
    consumed: nat,                      // how many of them the consumer has released
    delivered: seq<Message>)            // what the consumer decoded from memory, in order

  /** The address of a position: its 32-bit word modulo the size. AddressMask shows that this is
      the code's `w & (s - 1)` for the power-of-two sizes the queue is built for. */
  function Address(size: nat, pos: nat): (a: nat)
    requires size > 0
    ensures a < size
  {
    Wrap32(pos) % size
  }

  ghost predicate PowerOfTwo(size: nat) {
    exists k: nat :: k <= 30 && size == Pow2(k)
  }

  lemma AddressMask(size: nat, pos: nat)
    requires PowerOfTwo(size)
    ensures Address(size, pos) == BitAnd(Wrap32(pos), size - 1) == pos % size
  {
    var k: nat :| k <= 30 && size == Pow2(k);
    MaskIsMod(Wrap32(pos), k);
    WrapThenMask(pos, k);
  }

  lemma SizeBound(size: nat)
    requires PowerOfTwo(size)
    ensures 0 < size <= 0x4000_0000
  {
    var k: nat :| k <= 30 && size == Pow2(k);
    Pow2Monotone(k, 30);
    Pow2Of30();
  }

  /** Stores `bytes` at consecutive addresses from `p`; the mirror buffer wraps at its size. */
  function Store(mem: seq<Byte>, p: nat, bytes: seq<Byte>): (r: seq<Byte>)
    requires |mem| > 0
    ensures |r| == |mem|
  {
    seq(|mem|, a requires 0 <= a < |mem| =>
      var d := (a - p) % |mem|;
      if d < |bytes| then bytes[d] else mem[a])
  }

  /** Loads `n` bytes from consecutive addresses from `p`. */
  function Load(mem: seq<Byte>, p: nat, n: nat): (r: seq<Byte>)
    requires |mem| > 0
    ensures |r| == n
  {
    seq(n, k requires 0 <= k < n => mem[(p + k) % |mem|])
  }

  /** The message a reader finds at address `p`, field by field. */
  function ReadMessage(mem: seq<Byte>, p: nat): Message
    requires |mem| > 0
  {
    Message(
      FromLittleEndian(Load(mem, p, 4)),
      FromLittleEndian(Load(mem, p + 8, 8)),
      Load(mem, p + PAYLOAD, FromLittleEndian(Load(mem, p + 4, 4))))
  }

  // ---------------------------------------------------------------------------------------------
  // Steps
  // ---------------------------------------------------------------------------------------------

  predicate Running(s: State) {
    s.size > 0 && |s.mem| == s.size
  }

  function SetProducer(s: State, t: nat, p: Producer): State
    requires t < |s.producers|
  {
    s.(producers := s.producers[t := p])
  }

  /** `(int)(w - r) > (int)(s - write_size)` in 32-bit words. */
  predicate Overflows(size: nat, w: nat, r: nat, total: nat) {
    Signed32(Wrap32(w - r)) > Signed32(Wrap32(size - total))
  }

  /** The store the owner of `c` does next, as a position and bytes. */
  function NextStore(c: Claim): (nat, seq<Byte>)
    requires c.written < 2 + |c.msg.payload|
  {
    if c.written == 0 then (c.pos + 4, LittleEndian(|c.msg.payload|, 4))
    else if c.written == 1 then (c.pos + 8, LittleEndian(c.msg.profiler, 8))
    else (c.pos + PAYLOAD + c.written - 2, [c.msg.payload[c.written - 2]])
  }

  /** One step of producer `t`. `msg` is what an idle producer decides to send. */
  function ProducerStep(s: State, t: nat, msg: Message): State
    requires Running(s) && t < |s.producers|
  {
    match s.producers[t]
    case Idle =>
      SetProducer(s, t, LoadedWrite(msg, s.writePos, s.readPos))
    case LoadedWrite(m, w, readThen) =>
      SetProducer(s, t, LoadedRead(m, w, s.readPos, readThen))
    case LoadedRead(m, w, r, readThen) =>
      if Overflows(s.size, w, r, Total(m)) then SetProducer(s, t, Refused)
      else SetProducer(s, t, Fits(m, w))
    case Fits(m, w) =>
      if Wrap32(s.writePos) == Wrap32(w) then
        SetProducer(
          s.(writePos := s.writePos + Total(m),
             claims := s.claims + [Claim(s.writePos, m, t, 0, false)]),
          t, Filling(|s.claims|))
      else
        SetProducer(s, t, Retrying(m))
    case Retrying(m) =>
      SetProducer(s, t, LoadedWrite(m, s.writePos, s.readPos))
    case Refused =>
      SetProducer(s, t, Idle)
    case Filling(i) =>
      if i >= |s.claims| then s
      else
        var c := s.claims[i];
        if c.written < 2 + |c.msg.payload| then
          var (p, bytes) := NextStore(c);
          s.(mem := Store(s.mem, p, bytes), claims := s.claims[i := c.(written := c.written + 1)])
        else if FromLittleEndian(Load(s.mem, Address(s.size, c.pos), 4)) == 0 then
          SetProducer(s, t, Checked(i))
        else
          SetProducer(s, t, AssertFailed)
    case Checked(i) =>
      if i >= |s.claims| then s
      else
        var c := s.claims[i];
        SetProducer(
          s.(mem := Store(s.mem, c.pos, LittleEndian(c.msg.id, 4)),
             claims := s.claims[i := c.(committed := true)]),
          t, Idle)
    case AssertFailed => s
  }

  /** One step of the consumer: peek, then decode, zero and release the message it was given. */
  function ConsumerStep(s: State): State
    requires Running(s)
  {
    match s.consumer
    case Resting => s.(consumer := PeekedWrite(s.writePos))
    case PeekedWrite(w) => s.(consumer := PeekedRead(w, s.readPos))
    case PeekedRead(w, r) =>
      if Wrap32(w - r) == 0 then s.(consumer := Resting)
      else if FromLittleEndian(Load(s.mem, Address(s.size, r), 4)) == 0 then s.(consumer := Resting)
      else s.(consumer := HasMessage(r))
    case HasMessage(r) =>
      var m := ReadMessage(s.mem, Address(s.size, r));
      s.(consumer := Zeroing(r, Total(m), 0), delivered := s.delivered + [m])
    case Zeroing(r, total, done) =>
      if done < total then
        s.(mem := Store(s.mem, r + done, [0]), consumer := Zeroing(r, total, done + 1))
      else
        s.(readPos := s.readPos + total, consumed := s.consumed + 1, consumer := Resting)
  }

  ghost predicate Next(s: State, s': State) {
    Running(s) && (
      || s' == ConsumerStep(s)
      || exists t: nat, m: Message ::
           t < |s.producers| && ValidMessage(m) && s' == ProducerStep(s, t, m))
  }

  ghost predicate Init(s: State) {
    && PowerOfTwo(s.size)
    && s.mem == seq(s.size, i => 0)
    && s.readPos == s.writePos == s.consumed == 0
    && s.claims == [] && s.delivered == []
    && s.consumer == Resting
    && forall t :: 0 <= t < |s.producers| ==> s.producers[t] == Idle
  }

  // ---------------------------------------------------------------------------------------------
  // Invariant
  // ---------------------------------------------------------------------------------------------

  /** Where claim `i` starts; the write position for the claim after the last. */
  function Start(claims: seq<Claim>, writePos: nat, i: nat): nat {
    if i < |claims| then claims[i].pos else writePos
  }

  /** Claims follow one another without gap or overlap, from position 0 to the write position. */
  ghost predicate Tiled(claims: seq<Claim>, writePos: nat) {
    && Start(claims, writePos, 0) == 0
    && forall i: nat :: i < |claims| ==> Adjacent(claims, writePos, i)
  }

  ghost predicate Adjacent(claims: seq<Claim>, writePos: nat, i: nat)
    requires i < |claims|
  {
    Start(claims, writePos, i + 1) == End(claims[i])
  }

  function End(c: Claim): nat {
    c.pos + Total(c.msg)
  }

  lemma {:induction false} StartMonotone(claims: seq<Claim>, writePos: nat, i: nat, j: nat)
    requires Tiled(claims, writePos) && i < j <= |claims|
    ensures End(claims[i]) <= Start(claims, writePos, j)
    decreases j
  {
    assert Adjacent(claims, writePos, j - 1);
    if i + 1 < j {
      StartMonotone(claims, writePos, i, j - 1);
    }
  }

  ghost predicate WellFormedClaim(c: Claim) {
    && ValidMessage(c.msg)
    && c.written <= 2 + |c.msg.payload|
    && (c.committed ==> c.written == 2 + |c.msg.payload|)
  }

  /** The byte at offset `k` of a claim's range, given what its owner has stored so far. */
  function Expected(c: Claim, k: nat): Byte {
    if k < 4 then
      if c.committed then LittleEndian(c.msg.id, 4)[k] else 0
    else if k < 8 then
      if c.written >= 1 then LittleEndian(|c.msg.payload|, 4)[k - 4] else 0
    else if k < 16 then
      if c.written >= 2 then LittleEndian(c.msg.profiler, 8)[k - 8] else 0
    else if k - PAYLOAD < |c.msg.payload| && k - PAYLOAD < c.written - 2 then
      c.msg.payload[k - PAYLOAD]
    else 0
  }

  /** How many leading bytes of claim `i` the consumer has already zeroed. */
  function Zeroed(s: State, i: nat): nat {
    if s.consumer.Zeroing? && i == s.consumed then s.consumer.done else 0
  }

  ghost predicate ByteAt(mem: seq<Byte>, p: nat, b: Byte) {
    |mem| > 0 && mem[p % |mem|] == b
  }

  ghost predicate ClaimByteOk(s: State, i: nat, k: nat)
    requires i < |s.claims|
  {
    ByteAt(s.mem, s.claims[i].pos + k, if k < Zeroed(s, i) then 0 else Expected(s.claims[i], k))
  }

  /** Every byte of a live claim holds what was stored there and every other byte is zero. */
  ghost predicate MemoryOk(s: State) {
    && (forall i: nat, k: nat ::
          s.consumed <= i < |s.claims| && k < Total(s.claims[i].msg) ==> ClaimByteOk(s, i, k))
    && (forall p: nat {:trigger ByteAt(s.mem, p, 0)} ::
          s.writePos <= p < s.readPos + s.size ==> ByteAt(s.mem, p, 0))
  }

  ghost predicate ProducerOk(s: State, t: nat)
    requires t < |s.producers|
  {
    match s.producers[t]
    case Idle => true
    case LoadedWrite(m, w, readThen) =>
      ValidMessage(m) && readThen <= w <= s.writePos && readThen <= s.readPos
      && w <= readThen + s.size
    case LoadedRead(m, w, r, readThen) =>
      ValidMessage(m) && readThen <= w <= s.writePos && readThen <= r <= s.readPos
      && w <= readThen + s.size
    case Fits(m, w) =>
      ValidMessage(m) && w <= s.writePos
      && (w == s.writePos ==> s.writePos + Total(m) <= s.readPos + s.size)
    case Retrying(m) => ValidMessage(m)
    case Refused => true
    case Filling(i) =>
      s.consumed <= i < |s.claims| && s.claims[i].owner == t && !s.claims[i].committed
    case Checked(i) =>
      s.consumed <= i < |s.claims| && s.claims[i].owner == t && !s.claims[i].committed
      && s.claims[i].written == 2 + |s.claims[i].msg.payload|
    case AssertFailed => false
  }

  /** An uncommitted claim is in the hands of exactly its owner. */
  ghost predicate OwnerOk(s: State, i: nat)
    requires i < |s.claims|
  {
    var c := s.claims[i];
    && (i < s.consumed ==> c.committed)
    && (!c.committed ==>
          c.owner < |s.producers|
          && (s.producers[c.owner] == Filling(i) || s.producers[c.owner] == Checked(i)))
  }

  function Messages(claims: seq<Claim>): (ms: seq<Message>)
    ensures |ms| == |claims|
    ensures forall i :: 0 <= i < |ms| ==> ms[i] == claims[i].msg
  {
    seq(|claims|, i requires 0 <= i < |claims| => claims[i].msg)
  }

  ghost predicate ConsumerOk(s: State)
    requires s.consumed <= |s.claims|
  {
    && (!s.consumer.Zeroing? ==> s.delivered == Messages(s.claims[..s.consumed]))
    && match s.consumer
       case Resting => true
       case PeekedWrite(w) => s.readPos <= w <= s.writePos
       case PeekedRead(w, r) => r == s.readPos <= w <= s.writePos
       case HasMessage(r) =>
         r == s.readPos && s.consumed < |s.claims| && s.claims[s.consumed].committed
       case Zeroing(r, total, done) =>
         && r == s.readPos && s.consumed < |s.claims| && s.claims[s.consumed].committed
         && total == Total(s.claims[s.consumed].msg) && done <= total
         && s.delivered == Messages(s.claims[..s.consumed + 1])
  }

  /** The capacity claim: unread bytes never exceed the buffer. */
  ghost predicate CapacityOk(s: State) {
    s.readPos <= s.writePos <= s.readPos + s.size
  }

  ghost predicate Inv(s: State) {
    && PowerOfTwo(s.size) && Running(s)
    && CapacityOk(s)
    && s.consumed <= |s.claims|
    && Tiled(s.claims, s.writePos)
    && s.readPos == Start(s.claims, s.writePos, s.consumed)
    && (forall i :: 0 <= i < |s.claims| ==> WellFormedClaim(s.claims[i]) && OwnerOk(s, i))
    && (forall t :: 0 <= t < |s.producers| ==> ProducerOk(s, t))
    && ConsumerOk(s)
    && MemoryOk(s)
  }

  // ---------------------------------------------------------------------------------------------
  // Memory
  // ---------------------------------------------------------------------------------------------

  /** A store that stays inside a window of one buffer length changes exactly the positions it names. */
  lemma StorePoint(mem: seq<Byte>, p: nat, bytes: seq<Byte>, base: nat, q: nat)
    requires |mem| > 0 && base <= p && p + |bytes| <= base + |mem| && base <= q < base + |mem|
    ensures Store(mem, p, bytes)[q % |mem|]
         == if p <= q < p + |bytes| then bytes[q - p] else mem[q % |mem|]
  {
    var s := |mem|;
    ModSub(q, p, s);
    if p <= q {
      ModUnique(q - p, s, 0, q - p);
    } else {
      ModUnique(q - p, s, -1, q - p + s);
    }
  }

  lemma LiveRange(s: State, i: nat)
    requires Tiled(s.claims, s.writePos) && s.consumed <= i < |s.claims|
    requires s.readPos == Start(s.claims, s.writePos, s.consumed)
    ensures s.readPos <= s.claims[i].pos && End(s.claims[i]) <= s.writePos
  {
    StartMonotone(s.claims, s.writePos, i, |s.claims|);
    if s.consumed < i {
      StartMonotone(s.claims, s.writePos, s.consumed, i);
    }
  }

  lemma DisjointClaims(s: State, i: nat, j: nat)
    requires Tiled(s.claims, s.writePos) && i < |s.claims| && j < |s.claims| && i != j
    ensures End(s.claims[i]) <= s.claims[j].pos || End(s.claims[j]) <= s.claims[i].pos
  {
    if i < j {
      StartMonotone(s.claims, s.writePos, i, j);
    } else {
      StartMonotone(s.claims, s.writePos, j, i);
    }
  }

  /** What replacing claim `i` by `c'` must do to the bytes of its range for a store of `bytes`
      at offset `off` to keep memory and claims in step. */
  ghost predicate Tracks(c: Claim, c': Claim, off: nat, bytes: seq<Byte>) {
    && c'.pos == c.pos && c'.msg == c.msg
    && off + |bytes| <= Total(c.msg)
    && forall k: nat :: k < Total(c.msg) ==>
         Expected(c', k) == if off <= k < off + |bytes| then bytes[k - off] else Expected(c, k)
  }

  lemma StoreKeepsMemory(s: State, i: nat, c': Claim, off: nat, bytes: seq<Byte>)
    requires Inv(s) && s.consumed <= i < |s.claims| && Zeroed(s, i) == 0
    requires Tracks(s.claims[i], c', off, bytes)
    ensures MemoryOk(s.(mem := Store(s.mem, s.claims[i].pos + off, bytes), claims := s.claims[i := c']))
  {
    var c := s.claims[i];
    var s' := s.(mem := Store(s.mem, c.pos + off, bytes), claims := s.claims[i := c']);
    LiveRange(s, i);
    forall j: nat, k: nat | s.consumed <= j < |s.claims| && k < Total(s'.claims[j].msg)
      ensures ClaimByteOk(s', j, k)
    {
      assert ClaimByteOk(s, j, k);
      LiveRange(s, j);
      StoreMovesByte(s, i, c', off, bytes, j, k);
    }
    forall p: nat | s.writePos <= p < s.readPos + s.size
      ensures ByteAt(s'.mem, p, 0)
    {
      StorePoint(s.mem, c.pos + off, bytes, s.readPos, p);
      assert ByteAt(s.mem, p, 0);
    }
  }

  lemma StoreMovesByte(s: State, i: nat, c': Claim, off: nat, bytes: seq<Byte>, j: nat, k: nat)
    requires Running(s) && CapacityOk(s) && Tiled(s.claims, s.writePos)
    requires i < |s.claims| && j < |s.claims| && k < Total(s.claims[j].msg)
    requires s.readPos <= s.claims[i].pos && End(s.claims[i]) <= s.writePos
    requires s.readPos <= s.claims[j].pos && End(s.claims[j]) <= s.writePos
    requires Zeroed(s, i) == 0 && Tracks(s.claims[i], c', off, bytes)
    requires ClaimByteOk(s, j, k)
    ensures ClaimByteOk(
      s.(mem := Store(s.mem, s.claims[i].pos + off, bytes), claims := s.claims[i := c']), j, k)
  {
    StorePoint(s.mem, s.claims[i].pos + off, bytes, s.readPos, s.claims[j].pos + k);
    if i != j {
      DisjointClaims(s, i, j);
    } else {
      assert Expected(c', k) == if off <= k < off + |bytes| then bytes[k - off] else Expected(s.claims[i], k);
    }
  }

  lemma NextStoreTracks(c: Claim)
    requires WellFormedClaim(c) && !c.committed && c.written < 2 + |c.msg.payload|
    ensures NextStore(c).0 >= c.pos
    ensures Tracks(c, c.(written := c.written + 1), NextStore(c).0 - c.pos, NextStore(c).1)
  {
    SizeForPayloadRounds(|c.msg.payload|);
  }

  lemma CommitTracks(c: Claim)
    requires WellFormedClaim(c) && !c.committed
    ensures Tracks(c, c.(committed := true), 0, LittleEndian(c.msg.id, 4))
  {
    SizeForPayloadRounds(|c.msg.payload|);
  }

  /** Loading `n` bytes at offset `off` of a live claim yields exactly what its owner stored. */
  lemma LoadClaim(s: State, i: nat, off: nat, n: nat)
    requires Inv(s) && s.consumed <= i < |s.claims| && Zeroed(s, i) == 0
    requires off + n <= Total(s.claims[i].msg)
    ensures Load(s.mem, Address(s.size, s.claims[i].pos) + off, n)
         == seq(n, j requires 0 <= j < n => Expected(s.claims[i], off + j))
  {
    var c := s.claims[i];
    var loaded := Load(s.mem, Address(s.size, c.pos) + off, n);
    forall j: nat | j < n
      ensures loaded[j] == Expected(c, off + j)
    {
      AddressOffset(s.size, c.pos, off + j);
      assert ClaimByteOk(s, i, off + j);
    }
  }

  lemma AddressOffset(size: nat, pos: nat, k: nat)
    requires PowerOfTwo(size)
    ensures size > 0 && (Address(size, pos) + k) % size == (pos + k) % size
  {
    SizeBound(size);
    AddressMask(size, pos);
    var back: int := 0 - k;
    ModSub(pos, back, size);
  }

  /** The identifier a reader loads is NotReady exactly when the claim is not committed. */
  lemma LoadIdentifier(s: State, i: nat)
    requires Inv(s) && s.consumed <= i < |s.claims| && Zeroed(s, i) == 0
    ensures FromLittleEndian(Load(s.mem, Address(s.size, s.claims[i].pos), 4))
         == if s.claims[i].committed then s.claims[i].msg.id else 0
  {
    var c := s.claims[i];
    assert WellFormedClaim(c);
    SizeForPayloadRounds(|c.msg.payload|);
    LittleEndianZero(4);
    Pow256Of4();
    LoadWord(s, i, 0, 4, if c.committed then c.msg.id else 0);
  }

  lemma Pow256Of4()
    ensures Pow256(4) == WORD
  {
  }

  lemma LoadWord(s: State, i: nat, off: nat, width: nat, n: nat)
    requires Inv(s) && s.consumed <= i < |s.claims| && Zeroed(s, i) == 0
    requires off + width <= Total(s.claims[i].msg) && n < Pow256(width)
    requires forall k: nat :: k < width ==> Expected(s.claims[i], off + k) == LittleEndian(n, width)[k]
    ensures FromLittleEndian(Load(s.mem, Address(s.size, s.claims[i].pos) + off, width)) == n
  {
    LoadClaim(s, i, off, width);
    assert Load(s.mem, Address(s.size, s.claims[i].pos) + off, width) == LittleEndian(n, width);
    LittleEndianRoundTrip(n, width);
  }

  lemma ReadSize(s: State, i: nat)
    requires Inv(s) && s.consumed <= i < |s.claims| && Zeroed(s, i) == 0 && s.claims[i].committed
    ensures FromLittleEndian(Load(s.mem, Address(s.size, s.claims[i].pos) + 4, 4))
         == |s.claims[i].msg.payload|
  {
    var c := s.claims[i];
    assert WellFormedClaim(c);
    SizeForPayloadRounds(|c.msg.payload|);
    Pow256Of4();
    LoadWord(s, i, 4, 4, |c.msg.payload|);
  }

  lemma ReadProfiler(s: State, i: nat)
    requires Inv(s) && s.consumed <= i < |s.claims| && Zeroed(s, i) == 0 && s.claims[i].committed
    ensures FromLittleEndian(Load(s.mem, Address(s.size, s.claims[i].pos) + 8, 8))
         == s.claims[i].msg.profiler
  {
    var c := s.claims[i];
    assert WellFormedClaim(c);
    SizeForPayloadRounds(|c.msg.payload|);
    LoadWord(s, i, 8, 8, c.msg.profiler);
  }

  lemma ReadPayload(s: State, i: nat)
    requires Inv(s) && s.consumed <= i < |s.claims| && Zeroed(s, i) == 0 && s.claims[i].committed
    ensures Load(s.mem, Address(s.size, s.claims[i].pos) + PAYLOAD, |s.claims[i].msg.payload|)
         == s.claims[i].msg.payload
  {
    var c := s.claims[i];
    assert WellFormedClaim(c);
    SizeForPayloadRounds(|c.msg.payload|);
    var n := |c.msg.payload|;
    LoadClaim(s, i, PAYLOAD, n);
    var loaded := Load(s.mem, Address(s.size, c.pos) + PAYLOAD, n);
    forall j: nat | j < n ensures loaded[j] == c.msg.payload[j] {
      assert loaded[j] == Expected(c, PAYLOAD + j);
    }
  }

  /** A reader of a committed claim decodes the very message its owner was given. */
  lemma ReadCommitted(s: State, i: nat)
    requires Inv(s) && s.consumed <= i < |s.claims| && Zeroed(s, i) == 0 && s.claims[i].committed
    ensures ReadMessage(s.mem, Address(s.size, s.claims[i].pos)) == s.claims[i].msg
  {
    LoadIdentifier(s, i);
    ReadSize(s, i);
    ReadProfiler(s, i);
    ReadPayload(s, i);
  }

  // ---------------------------------------------------------------------------------------------
  // Preservation
  // ---------------------------------------------------------------------------------------------

  /** The guard on a swap: if it wins, the message still fits. */
  predicate SwapHasRoom(s: State, t: nat)
    requires t < |s.producers|
  {
    var p := s.producers[t];
    p.Fits? && Wrap32(s.writePos) == Wrap32(p.w) ==> s.writePos + Total(p.msg) <= s.readPos + s.size
  }

  lemma InitInv(s: State)
    requires Init(s)
    ensures Inv(s)
  {
    SizeBound(s.size);
    forall p: nat | s.writePos <= p < s.readPos + s.size
      ensures ByteAt(s.mem, p, 0)
    {
    }
  }

  /** The code's test, on 32-bit words, is the exact one unless the loaded read position is 2^31 or
      more bytes past the loaded write position. */
  lemma OverflowExact(size: nat, w: nat, r: nat, total: nat)
    requires 0 < size <= 0x4000_0000 && total <= 0x4000_0000 + 32
    requires r - 0x8000_0000 < w <= r + size
    ensures Overflows(size, w, r, total) <==> w + total > r + size
  {
  }

  lemma TestedProducer(s: State, t: nat, m: Message)
    requires PowerOfTwo(s.size) && Running(s) && CapacityOk(s) && t < |s.producers|
    requires s.producers[t].LoadedRead? && ProducerOk(s, t)
    ensures ProducerOk(ProducerStep(s, t, m), t)
  {
    var LoadedRead(msg, w, r, readThen) := s.producers[t];
    SizeBound(s.size);
    SizeForPayloadRounds(|msg.payload|);
    if w == s.writePos {
      OverflowExact(s.size, w, r, Total(msg));
    }
  }

  /** A step that changes only the registers of a producer without a claim. */
  lemma RegistersStep(s: State, t: nat, p: Producer)
    requires Inv(s) && t < |s.producers| && !s.producers[t].Filling? && !s.producers[t].Checked?
    requires ProducerOk(SetProducer(s, t, p), t)
    ensures Inv(SetProducer(s, t, p))
  {
    var s' := SetProducer(s, t, p);
    SameMemory(s, s');
    forall i | 0 <= i < |s'.claims| ensures OwnerOk(s', i) {
      assert OwnerOk(s, i);
    }
    forall u | 0 <= u < |s'.producers| ensures ProducerOk(s', u) {
      assert u != t ==> ProducerOk(s, u);
    }
  }

  lemma TestStep(s: State, t: nat, m: Message)
    requires Inv(s) && t < |s.producers| && s.producers[t].LoadedRead?
    ensures Inv(ProducerStep(s, t, m))
  {
    TestedProducer(s, t, m);
    RegistersStep(s, t, ProducerStep(s, t, m).producers[t]);
  }

  lemma SameMemory(s: State, s': State)
    requires MemoryOk(s)
    requires s'.mem == s.mem && s'.size == s.size && s'.readPos == s.readPos && s'.writePos == s.writePos
    requires s'.claims == s.claims && s'.consumed == s.consumed
    requires forall i: nat :: Zeroed(s', i) == Zeroed(s, i)
    ensures MemoryOk(s')
  {
    forall i: nat, k: nat | s'.consumed <= i < |s'.claims| && k < Total(s'.claims[i].msg)
      ensures ClaimByteOk(s', i, k)
    {
      assert ClaimByteOk(s, i, k);
    }
  }

  /** The steps of the allocation loop other than the test and a winning swap, and the return
      from a refusal: only the producer's own registers change. */
  lemma LoopStep(s: State, t: nat, m: Message)
    requires Inv(s) && t < |s.producers| && ValidMessage(m)
    requires var p := s.producers[t];
      p.Idle? || p.LoadedWrite? || p.Retrying? || p.Refused? || (p.Fits? && Wrap32(s.writePos) != Wrap32(p.w))
    ensures Inv(ProducerStep(s, t, m))
  {
    assert ProducerOk(s, t);
    RegistersStep(s, t, ProducerStep(s, t, m).producers[t]);
  }

  lemma ClaimStep(s: State, t: nat, m: Message)
    requires Inv(s) && t < |s.producers|
    requires s.producers[t].Fits? && Wrap32(s.writePos) == Wrap32(s.producers[t].w) && SwapHasRoom(s, t)
    ensures Inv(ProducerStep(s, t, m))
  {
    var Fits(msg, w) := s.producers[t];
    var s' := ProducerStep(s, t, m);
    assert ProducerOk(s, t);
    AppendTiled(s.claims, s.writePos, Claim(s.writePos, msg, t, 0, false));
    ClaimOwners(s, s', t, msg);
    ClaimProducers(s, s', t, msg);
    ClaimConsumer(s, s', t, msg);
    ClaimKeepsMemory(s, s', t, msg);
  }

  /** What a winning swap does to the state. */
  ghost predicate Claims(s: State, s': State, t: nat, msg: Message) {
    && t < |s.producers| && s.producers[t].Fits? && s.producers[t].msg == msg
    && s' == s.(writePos := s.writePos + Total(msg), claims := s.claims + [Claim(s.writePos, msg, t, 0, false)],
                producers := s.producers[t := Filling(|s.claims|)])
  }

  lemma ClaimOwners(s: State, s': State, t: nat, msg: Message)
    requires Claims(s, s', t, msg) && ValidMessage(msg) && s.consumed <= |s.claims|
    requires forall i :: 0 <= i < |s.claims| ==> WellFormedClaim(s.claims[i]) && OwnerOk(s, i)
    ensures forall i :: 0 <= i < |s'.claims| ==> WellFormedClaim(s'.claims[i]) && OwnerOk(s', i)
  {
    forall i | 0 <= i < |s'.claims| ensures WellFormedClaim(s'.claims[i]) && OwnerOk(s', i) {
      if i < |s.claims| {
        assert OwnerOk(s, i);
      }
    }
  }

  lemma ClaimConsumer(s: State, s': State, t: nat, msg: Message)
    requires Claims(s, s', t, msg) && s.consumed <= |s.claims| && ConsumerOk(s)
    ensures ConsumerOk(s')
  {
    assert s'.claims[..s.consumed] == s.claims[..s.consumed];
    if s.consumed < |s.claims| {
      assert s'.claims[..s.consumed + 1] == s.claims[..s.consumed + 1];
    }
  }

  lemma ClaimProducers(s: State, s': State, t: nat, msg: Message)
    requires Claims(s, s', t, msg) && s.consumed <= |s.claims|
    requires forall u :: 0 <= u < |s.producers| ==> ProducerOk(s, u)
    ensures forall u :: 0 <= u < |s'.producers| ==> ProducerOk(s', u)
  {
    forall u | 0 <= u < |s'.producers| ensures ProducerOk(s', u) {
      assert ProducerOk(s, u);
    }
  }

  /** A range won at the write position goes on the end of the tiling. */
  lemma AppendTiled(claims: seq<Claim>, writePos: nat, c: Claim)
    requires Tiled(claims, writePos) && c.pos == writePos
    ensures Tiled(claims + [c], End(c))
    ensures forall i: nat :: i <= |claims| ==>
      && Start(claims + [c], End(c), i) == Start(claims, writePos, i)
      && (claims + [c])[..i] == claims[..i]
  {
    forall i: nat | i < |claims| + 1 ensures Adjacent(claims + [c], End(c), i) {
      assert i < |claims| ==> Adjacent(claims, writePos, i);
    }
  }

  /** A winning range inherits the zeroes the consumer left, so its identifier reads NotReady. */
  lemma ClaimKeepsMemory(s: State, s': State, t: nat, msg: Message)
    requires Inv(s) && s.writePos + Total(msg) <= s.readPos + s.size && Claims(s, s', t, msg)
    ensures MemoryOk(s')
  {
    var n := |s.claims|;
    forall i: nat, k: nat | s'.consumed <= i < |s'.claims| && k < Total(s'.claims[i].msg)
      ensures ClaimByteOk(s', i, k)
    {
      if i < n {
        assert ClaimByteOk(s, i, k);
      } else {
        assert ByteAt(s.mem, s.writePos + k, 0);
      }
    }
    forall p: nat | s'.writePos <= p < s'.readPos + s'.size
      ensures ByteAt(s'.mem, p, 0)
    {
      assert ByteAt(s.mem, p, 0);
    }
  }

  lemma StoreNext(s: State, i: nat, c: Claim)
    requires Inv(s) && s.consumed <= i < |s.claims| && c == s.claims[i] && Zeroed(s, i) == 0
    requires WellFormedClaim(c) && !c.committed && c.written < 2 + |c.msg.payload|
    ensures MemoryOk(s.(mem := Store(s.mem, NextStore(c).0, NextStore(c).1), claims := s.claims[i := c.(written := c.written + 1)]))
  {
    NextStoreTracks(c);
    StoreKeepsMemory(s, i, c.(written := c.written + 1), NextStore(c).0 - c.pos, NextStore(c).1);
  }

  /** The owner's next store into its range. */
  lemma FillStep(s: State, t: nat, m: Message, i: nat)
    requires Inv(s) && t < |s.producers| && s.producers[t] == Filling(i)
    requires i < |s.claims| && s.claims[i].written < 2 + |s.claims[i].msg.payload|
    ensures Inv(ProducerStep(s, t, m))
  {
    var s' := ProducerStep(s, t, m);
    assert ProducerOk(s, t);
    var c := s.claims[i];
    assert WellFormedClaim(c);
    UpdateClaim(s, s', i, c.(written := c.written + 1));
    StoreNext(s, i, c);
    forall j | 0 <= j < |s'.claims| ensures WellFormedClaim(s'.claims[j]) && OwnerOk(s', j) {
      assert OwnerOk(s, j);
    }
    forall u | 0 <= u < |s'.producers| ensures ProducerOk(s', u) {
      assert ProducerOk(s, u);
    }
  }

  /** CommitMessage's load of the identifier, which finds NotReady. */
  lemma CheckStep(s: State, t: nat, m: Message, i: nat)
    requires Inv(s) && t < |s.producers| && s.producers[t] == Filling(i)
    requires i < |s.claims| && s.claims[i].written >= 2 + |s.claims[i].msg.payload|
    ensures Inv(ProducerStep(s, t, m))
  {
    var s' := ProducerStep(s, t, m);
    assert ProducerOk(s, t);
    assert WellFormedClaim(s.claims[i]);
    LoadIdentifier(s, i);
    SameMemory(s, s');
    forall j | 0 <= j < |s'.claims| ensures OwnerOk(s', j) {
      assert OwnerOk(s, j);
    }
    forall u | 0 <= u < |s'.producers| ensures ProducerOk(s', u) {
      assert ProducerOk(s, u);
    }
  }

  /** Updating one claim's progress moves no boundary and no message. */
  lemma UpdateClaim(s: State, s': State, i: nat, c': Claim)
    requires Tiled(s.claims, s.writePos) && i < |s.claims| && s.consumed <= |s.claims|
    requires c'.pos == s.claims[i].pos && c'.msg == s.claims[i].msg
    requires s'.claims == s.claims[i := c'] && s'.writePos == s.writePos
    ensures Tiled(s'.claims, s'.writePos)
    ensures forall j: nat :: Start(s'.claims, s'.writePos, j) == Start(s.claims, s.writePos, j)
    ensures forall j: nat :: j <= |s.claims| ==> Messages(s'.claims[..j]) == Messages(s.claims[..j])
  {
    forall j: nat | j < |s'.claims| ensures Adjacent(s'.claims, s'.writePos, j) {
      assert Adjacent(s.claims, s.writePos, j);
    }
  }

  lemma CommitMemory(s: State, t: nat, m: Message)
    requires Inv(s) && t < |s.producers| && s.producers[t].Checked?
    ensures MemoryOk(ProducerStep(s, t, m))
  {
    var i := s.producers[t].claim;
    var s' := ProducerStep(s, t, m);
    assert ProducerOk(s, t);
    var c := s.claims[i];
    assert WellFormedClaim(c);
    var c' := c.(committed := true);
    CommitTracks(c);
    StoreKeepsMemory(s, i, c', 0, LittleEndian(c.msg.id, 4));
    SameMemory(s.(mem := s'.mem, claims := s'.claims), s');
  }

  lemma CommitStep(s: State, t: nat, m: Message)
    requires Inv(s) && t < |s.producers| && s.producers[t].Checked?
    ensures Inv(ProducerStep(s, t, m))
  {
    var i := s.producers[t].claim;
    var s' := ProducerStep(s, t, m);
    assert ProducerOk(s, t);
    var c := s.claims[i];
    assert WellFormedClaim(c);
    var c' := c.(committed := true);
    CommitMemory(s, t, m);
    UpdateClaim(s, s', i, c');
    forall j | 0 <= j < |s'.claims| ensures WellFormedClaim(s'.claims[j]) && OwnerOk(s', j) {
      assert OwnerOk(s, j);
    }
    forall u | 0 <= u < |s'.producers| ensures ProducerOk(s', u) {
      assert ProducerOk(s, u);
    }
  }

  lemma ProducerKeepsInv(s: State, t: nat, m: Message)
    requires Inv(s) && t < |s.producers| && ValidMessage(m) && SwapHasRoom(s, t)
    ensures Inv(ProducerStep(s, t, m))
  {
    assert ProducerOk(s, t);
    match s.producers[t]
    case LoadedRead(_, _, _, _) => TestStep(s, t, m);
    case Fits(_, w) =>
      if Wrap32(s.writePos) == Wrap32(w) {
        ClaimStep(s, t, m);
      } else {
        LoopStep(s, t, m);
      }
    case Filling(i) =>
      if s.claims[i].written < 2 + |s.claims[i].msg.payload| {
        FillStep(s, t, m, i);
      } else {
        CheckStep(s, t, m, i);
      }
    case Checked(_) => CommitStep(s, t, m);
    case AssertFailed => assert false;
    case _ => LoopStep(s, t, m);
  }

  /** The guard is exact: a producer's step keeps the invariant, and the queue within its capacity, if
      and only if it is not a swap that wins without room. */
  lemma ProducerKeepsInvExactly(s: State, t: nat, m: Message)
    requires Inv(s) && t < |s.producers| && ValidMessage(m)
    ensures Inv(ProducerStep(s, t, m)) <==> SwapHasRoom(s, t)
    ensures CapacityOk(ProducerStep(s, t, m)) <==> SwapHasRoom(s, t)
  {
    if SwapHasRoom(s, t) {
      ProducerKeepsInv(s, t, m);
    }
  }

  /** Only a swap on a write position loaded a whole number of times 2^32 bytes ago, and not just now,
      can win without room. */
  lemma OnlyStaleSwaps(s: State, t: nat)
    requires Inv(s) && t < |s.producers| && !SwapHasRoom(s, t)
    ensures s.producers[t].Fits?
    ensures var gap := s.writePos - s.producers[t].w; gap >= WORD && gap % WORD == 0
  {
    assert ProducerOk(s, t);
    SameWord(s.writePos, s.producers[t].w);
  }

  lemma SameWord(a: nat, b: nat)
    requires Wrap32(a) == Wrap32(b) && b < a
    ensures a - b >= WORD && (a - b) % WORD == 0
  {
  }

  lemma ConsumerKeepsInv(s: State)
    requires Inv(s)
    ensures Inv(ConsumerStep(s))
  {
    match s.consumer
    case HasMessage(r) => DecodeStep(s);
    case Zeroing(r, total, done) =>
      if done < total {
        ZeroStep(s);
      } else {
        ReleaseStep(s);
      }
    case PeekedRead(w, r) => PeekStep(s);
    case _ => QuietStep(s, ConsumerStep(s));
  }

  /** A consumer step that changes only its registers (and what it has delivered). */
  lemma QuietStep(s: State, s': State)
    requires Inv(s)
    requires s' == s.(consumer := s'.consumer, delivered := s'.delivered)
    requires ConsumerOk(s')
    requires forall i: nat :: Zeroed(s', i) == Zeroed(s, i)
    ensures Inv(s')
  {
    SameMemory(s, s');
    forall i | 0 <= i < |s'.claims| ensures OwnerOk(s', i) {
      assert OwnerOk(s, i);
    }
    forall u | 0 <= u < |s'.producers| ensures ProducerOk(s', u) {
      assert ProducerOk(s, u);
    }
  }

  lemma PeekStep(s: State)
    requires Inv(s) && s.consumer.PeekedRead?
    ensures Inv(ConsumerStep(s))
  {
    var PeekedRead(w, r) := s.consumer;
    SizeBound(s.size);
    if Wrap32(w - r) != 0 {
      assert s.consumed < |s.claims|;
      assert r == s.claims[s.consumed].pos;
      LoadIdentifier(s, s.consumed);
    }
    QuietStep(s, ConsumerStep(s));
  }

  lemma DecodeStep(s: State)
    requires Inv(s) && s.consumer.HasMessage?
    ensures Inv(ConsumerStep(s))
  {
    var i := s.consumed;
    ReadCommitted(s, i);
    assert s.claims[..i + 1] == s.claims[..i] + [s.claims[i]];
    QuietStep(s, ConsumerStep(s));
  }

  /** Zeroing one more byte of the front message leaves the other claims' bytes alone. */
  lemma ZeroClaimBytes(s: State, total: nat, done: nat, i: nat, k: nat)
    requires Running(s) && CapacityOk(s) && Tiled(s.claims, s.writePos) && s.consumed <= i < |s.claims|
    requires s.readPos == Start(s.claims, s.writePos, s.consumed) && s.consumer == Zeroing(s.readPos, total, done)
    requires done < total == Total(s.claims[s.consumed].msg) && k < Total(s.claims[i].msg)
    requires ClaimByteOk(s, i, k)
    ensures ClaimByteOk(ConsumerStep(s), i, k)
  {
    LiveRange(s, s.consumed);
    LiveRange(s, i);
    if i != s.consumed {
      DisjointClaims(s, i, s.consumed);
    }
    ZeroByte(s.mem, s.readPos, s.readPos + done, s.claims[i].pos + k, if k < Zeroed(s, i) then 0 else Expected(s.claims[i], k));
  }

  lemma ZeroByte(mem: seq<Byte>, base: nat, at: nat, q: nat, b: Byte)
    requires ByteAt(mem, q, b) && base <= at < base + |mem| && base <= q < base + |mem|
    ensures ByteAt(Store(mem, at, [0]), q, if q == at then 0 else b)
  {
    StorePoint(mem, at, [0], base, q);
  }

  lemma ZeroMemory(s: State)
    requires Inv(s) && s.consumer.Zeroing? && s.consumer.done < s.consumer.total
    ensures MemoryOk(ConsumerStep(s))
  {
    var s' := ConsumerStep(s);
    var Zeroing(r, total, done) := s.consumer;
    LiveRange(s, s.consumed);
    forall i: nat, k: nat | s'.consumed <= i < |s'.claims| && k < Total(s'.claims[i].msg)
      ensures ClaimByteOk(s', i, k)
    {
      assert ClaimByteOk(s, i, k);
      ZeroClaimBytes(s, total, done, i, k);
    }
    forall p: nat | s'.writePos <= p < s'.readPos + s'.size
      ensures ByteAt(s'.mem, p, 0)
    {
      assert ByteAt(s.mem, p, 0);
      ZeroByte(s.mem, s.readPos, r + done, p, 0);
    }
  }

  lemma ZeroStep(s: State)
    requires Inv(s) && s.consumer.Zeroing? && s.consumer.done < s.consumer.total
    ensures Inv(ConsumerStep(s))
  {
    var s' := ConsumerStep(s);
    LiveRange(s, s.consumed);
    ZeroMemory(s);
    forall i | 0 <= i < |s'.claims| ensures OwnerOk(s', i) {
      assert OwnerOk(s, i);
    }
    forall u | 0 <= u < |s'.producers| ensures ProducerOk(s', u) {
      assert ProducerOk(s, u);
    }
  }

  lemma ReleaseStep(s: State)
    requires Inv(s) && s.consumer.Zeroing? && s.consumer.done == s.consumer.total
    ensures Inv(ConsumerStep(s))
  {
    var s' := ConsumerStep(s);
    assert Adjacent(s.claims, s.writePos, s.consumed);
    LiveRange(s, s.consumed);
    ReleaseKeepsMemory(s, s');
    forall j | 0 <= j < |s'.claims| ensures OwnerOk(s', j) {
      assert OwnerOk(s, j);
    }
    forall u | 0 <= u < |s'.producers| ensures ProducerOk(s', u) {
      assert ProducerOk(s, u);
      if s.producers[u].Filling? || s.producers[u].Checked? {
        assert OwnerOk(s, s.producers[u].claim);
      }
    }
  }

  /** The positions the window gains share their cells with the message just zeroed. */
  lemma ReleaseKeepsMemory(s: State, s': State)
    requires Running(s) && CapacityOk(s) && MemoryOk(s) && s.consumed < |s.claims|
    requires s.readPos == s.claims[s.consumed].pos
    requires var total := Total(s.claims[s.consumed].msg);
      && s.consumer == Zeroing(s.readPos, total, total)
      && s.readPos + total <= s.writePos
      && s' == s.(readPos := s.readPos + total, consumed := s.consumed + 1, consumer := Resting)
    ensures MemoryOk(s')
  {
    forall j: nat, k: nat | s'.consumed <= j < |s'.claims| && k < Total(s'.claims[j].msg)
      ensures ClaimByteOk(s', j, k)
    {
      assert ClaimByteOk(s, j, k);
    }
    forall p: nat | s'.writePos <= p < s'.readPos + s'.size
      ensures ByteAt(s'.mem, p, 0)
    {
      if p < s.readPos + s.size {
        assert ByteAt(s.mem, p, 0);
      } else {
        assert ClaimByteOk(s, s.consumed, p - s.size - s.readPos);
        ModAddMultiple(p - s.size, s.size, 1);
      }
    }
  }

  /** A step that is not a producer's swap winning without room. */
  ghost predicate StepHasRoom(s: State, s': State)
    requires Running(s)
  {
    forall t: nat, m: Message :: t < |s.producers| && ValidMessage(m) && s' == ProducerStep(s, t, m) ==> SwapHasRoom(s, t)
  }

  lemma NextKeepsInv(s: State, s': State)
    requires Inv(s) && Next(s, s') && StepHasRoom(s, s')
    ensures Inv(s')
  {
    if s' == ConsumerStep(s) {
      ConsumerKeepsInv(s);
    } else {
      var t: nat, m: Message :| t < |s.producers| && ValidMessage(m) && s' == ProducerStep(s, t, m);
      ProducerKeepsInv(s, t, m);
    }
  }

  // ---------------------------------------------------------------------------------------------
  // Whole runs
  // ---------------------------------------------------------------------------------------------

  ghost predicate Run(run: seq<State>) {
    && |run| > 0 && Init(run[0])
    && forall i: nat :: i + 1 < |run| ==> Next(run[i], run[i + 1])
  }

  /** No swap among the first `n` steps wins without room. */
  ghost predicate RunHasRoom(run: seq<State>, n: nat)
    requires n < |run|
  {
    forall i: nat :: i < n ==> Running(run[i]) && StepHasRoom(run[i], run[i + 1])
  }

  lemma {:induction false} RunInv(run: seq<State>, n: nat)
    requires Run(run) && n < |run| && RunHasRoom(run, n)
    ensures Inv(run[n])
  {
    if n == 0 {
      InitInv(run[0]);
    } else {
      RunInv(run, n - 1);
      assert Next(run[n - 1], run[n - 1 + 1]);
      NextKeepsInv(run[n - 1], run[n]);
    }
  }

  ghost predicate CapacityThrough(run: seq<State>, n: nat)
    requires n < |run|
  {
    forall i: nat :: i <= n ==> CapacityOk(run[i])
  }

  /** The capacity claim holds throughout a run if and only if no swap of the run wins without room. */
  lemma CapacityExactly(run: seq<State>, n: nat)
    requires Run(run) && n < |run|
    ensures CapacityThrough(run, n) <==> RunHasRoom(run, n)
  {
    if RunHasRoom(run, n) {
      forall i: nat | i <= n ensures CapacityOk(run[i]) {
        RunInv(run, i);
      }
    }
    if CapacityThrough(run, n) {
      CapacityNeedsRoom(run, n);
    }
  }

  lemma {:induction false} CapacityNeedsRoom(run: seq<State>, n: nat)
    requires Run(run) && n < |run| && CapacityThrough(run, n)
    ensures RunHasRoom(run, n)
  {
    if n > 0 {
      CapacityNeedsRoom(run, n - 1);
      RunInv(run, n - 1);
      assert Next(run[n - 1], run[n - 1 + 1]) && CapacityOk(run[n]);
      LastHasRoom(run[n - 1], run[n]);
    }
  }

  lemma LastHasRoom(s: State, s': State)
    requires Inv(s) && CapacityOk(s')
    ensures StepHasRoom(s, s')
  {
    forall t: nat, m: Message | t < |s.producers| && ValidMessage(m) && s' == ProducerStep(s, t, m)
      ensures SwapHasRoom(s, t)
    {
      ProducerKeepsInvExactly(s, t, m);
    }
  }

  /** No producer about to swap loaded the write position 2^32 or more bytes of traffic ago. */
  ghost predicate Fresh(s: State) {
    forall t :: 0 <= t < |s.producers| && s.producers[t].Fits? ==> s.writePos - s.producers[t].w < WORD
  }

  /** So a run has room as long as no producer sleeps through 2^32 bytes of traffic. */
  lemma {:induction false} FreshRunHasRoom(run: seq<State>, n: nat)
    requires Run(run) && n < |run| && forall i: nat :: i < n ==> Fresh(run[i])
    ensures RunHasRoom(run, n)
  {
    if n > 0 {
      FreshRunHasRoom(run, n - 1);
      RunInv(run, n - 1);
      FreshHasRoom(run[n - 1], run[n]);
    }
  }

  lemma FreshHasRoom(s: State, s': State)
    requires Inv(s) && Fresh(s)
    ensures StepHasRoom(s, s')
  {
    forall t: nat, m: Message | t < |s.producers| && ValidMessage(m) && s' == ProducerStep(s, t, m)
      ensures SwapHasRoom(s, t)
    {
      if !SwapHasRoom(s, t) {
        OnlyStaleSwaps(s, t);
      }
    }
  }

  /** In every interleaving with room no two live claims share a byte of the buffer, however stale the
      read position a producer tested was. */
  lemma CapacityOverRuns(run: seq<State>, n: nat, i: nat, j: nat, k: nat, l: nat)
    requires Run(run) && n < |run| && RunHasRoom(run, n)
    ensures Running(run[n]) && CapacityOk(run[n])
    ensures run[n].consumed <= i < |run[n].claims| && run[n].consumed <= j < |run[n].claims|
         && i != j && k < Total(run[n].claims[i].msg) && l < Total(run[n].claims[j].msg)
         ==> Address(run[n].size, run[n].claims[i].pos + k)
             != Address(run[n].size, run[n].claims[j].pos + l)
  {
    RunInv(run, n);
    var s := run[n];
    if s.consumed <= i < |s.claims| && s.consumed <= j < |s.claims|
       && i != j && k < Total(s.claims[i].msg) && l < Total(s.claims[j].msg) {
      var p, q := s.claims[i].pos + k, s.claims[j].pos + l;
      LiveRange(s, i);
      LiveRange(s, j);
      DisjointClaims(s, i, j);
      AddressMask(s.size, p);
      AddressMask(s.size, q);
      if p % s.size == q % s.size {
        ModInjective(p, q, s.size);
      }
    }
  }

  /** The consumer is handed each message once, whole, in compare-and-swap order; CommitMessage
      never finds its identifier already set; and what is waiting was not handed out before. */
  lemma DeliveryOverRuns(run: seq<State>, n: nat)
    requires Run(run) && n < |run| && RunHasRoom(run, n)
    ensures |run[n].delivered| <= |run[n].claims|
    ensures run[n].delivered == Messages(run[n].claims)[..|run[n].delivered|]
    ensures forall i :: 0 <= i < |run[n].delivered| ==> run[n].claims[i].committed
    ensures AssertFailed !in run[n].producers
  {
    RunInv(run, n);
    var s := run[n];
    assert s.delivered == Messages(s.claims[..|s.delivered|]);
    forall i | 0 <= i < |s.delivered| ensures s.claims[i].committed {
      assert OwnerOk(s, i);
    }
    forall t | 0 <= t < |s.producers| ensures s.producers[t] != AssertFailed {
      assert ProducerOk(s, t);
    }
  }

  /** Outside the claimed ranges every byte of the buffer is zero, that is, NotReady. */
  lemma UnclaimedIsNotReady(run: seq<State>, n: nat, p: nat)
    requires Run(run) && n < |run| && RunHasRoom(run, n)
    requires run[n].writePos <= p < run[n].readPos + run[n].size
    ensures Running(run[n])
    ensures run[n].mem[Address(run[n].size, p)] == 0
  {
    RunInv(run, n);
    AddressMask(run[n].size, p);
    assert ByteAt(run[n].mem, p, 0);
  }

  // ---------------------------------------------------------------------------------------------
  // Refinement of an atomic queue
  // ---------------------------------------------------------------------------------------------

  /** The queue a reader of the API imagines: entries in order, each ready or not yet, and how
      many have been taken from the front. */
  datatype Entry = Entry(msg: Message, ready: bool)
  datatype Fifo = Fifo(entries: seq<Entry>, taken: nat)

  ghost predicate FifoStep(q: Fifo, q': Fifo) {
    || q' == q
    || (exists m :: ValidMessage(m) && q' == q.(entries := q.entries + [Entry(m, false)]))
    || (exists i: nat :: q.taken <= i < |q.entries| && !q.entries[i].ready
          && q' == q.(entries := q.entries[i := q.entries[i].(ready := true)]))
    || (q.taken < |q.entries| && q.entries[q.taken].ready && q' == q.(taken := q.taken + 1))
  }

  function Abstract(s: State): Fifo {
    Fifo(seq(|s.claims|, i requires 0 <= i < |s.claims| => Entry(s.claims[i].msg, s.claims[i].committed)),
         |s.delivered|)
  }

  /** Every step of the queue is a step of the atomic one, or changes nothing it can see. */
  lemma RefinesFifo(s: State, s': State)
    requires Inv(s) && Next(s, s')
    ensures FifoStep(Abstract(s), Abstract(s'))
  {
    if s' == ConsumerStep(s) {
      ConsumerRefines(s);
    } else {
      var t: nat, m: Message :| t < |s.producers| && ValidMessage(m) && s' == ProducerStep(s, t, m);
      ProducerRefines(s, t, m);
    }
  }

  /** Handing a message over takes the front entry, which is ready; nothing else the consumer does shows. */
  lemma ConsumerRefines(s: State)
    requires Inv(s)
    ensures FifoStep(Abstract(s), Abstract(ConsumerStep(s)))
  {
    var q, q' := Abstract(s), Abstract(ConsumerStep(s));
    if s.consumer.HasMessage? {
      assert q.entries[q.taken].ready;
      assert q' == q.(taken := q.taken + 1);
    } else {
      assert q' == q;
    }
  }

  /** A winning swap appends an entry and a commit makes one ready; nothing else a producer does shows. */
  lemma ProducerRefines(s: State, t: nat, m: Message)
    requires Inv(s) && t < |s.producers| && ValidMessage(m)
    ensures FifoStep(Abstract(s), Abstract(ProducerStep(s, t, m)))
  {
    var q, q' := Abstract(s), Abstract(ProducerStep(s, t, m));
    assert ProducerOk(s, t);
    match s.producers[t]
    case Fits(msg, w) =>
      if Wrap32(s.writePos) == Wrap32(w) {
        assert q'.entries == q.entries + [Entry(msg, false)];
      } else {
        assert q' == q;
      }
    case Checked(i) =>
      CommitIsVisible(s, i);
      assert q'.entries == q.entries[i := q.entries[i].(ready := true)];
    case Filling(i) => assert q'.entries == q.entries;
    case _ => assert q' == q;
  }

  /** A claim still being written has not been delivered. */
  lemma CommitIsVisible(s: State, i: nat)
    requires Inv(s) && s.consumed <= i < |s.claims| && !s.claims[i].committed
    ensures |s.delivered| <= i
  {
  }

  // ---------------------------------------------------------------------------------------------
  // Refusals
  // ---------------------------------------------------------------------------------------------

  /** So many bytes were released between a producer's two loads that the signed difference of the
      positions it loaded comes out positive and larger than what is left beside the message. */
  predicate Overtaken(size: nat, w: nat, r: nat, total: nat) {
    r - w > 0x8000_0000 && 0x8000_0000 < (r - w) % WORD < WORD - (size - total)
  }

  /** What the code's test decides, for any two positions it may have loaded. */
  lemma OverflowsExactly(size: nat, w: nat, r: nat, total: nat)
    requires 0 < size <= 0x4000_0000 && total <= size && w <= r + size
    ensures Overflows(size, w, r, total) <==> w + total > r + size || Overtaken(size, w, r, total)
  {
    if r - 0x8000_0000 < w {
      OverflowExact(size, w, r, total);
    } else {
      Backwards(r - w);
      assert Wrap32(size - total) == size - total;
    }
  }

  /** The signed 32-bit reading of a negative number. */
  lemma Backwards(d: nat)
    ensures Signed32(Wrap32(0 - d)) == if d % WORD <= 0x8000_0000 then 0 - d % WORD else WORD - d % WORD
  {
  }

  /** AllocMessage refuses a message exactly if it does not fit between the positions loaded or the
      producer was overtaken. A message too large for any buffer state never fits; so a refused
      message did not fit when the write position was loaded, unless the producer was overtaken. */
  lemma RefusalMeansFull(s: State, t: nat, m: Message)
    requires Inv(s) && t < |s.producers| && s.producers[t].LoadedRead?
    ensures var p, p' := s.producers[t], ProducerStep(s, t, m).producers[t];
      && (Total(p.msg) <= s.size ==>
            (p' == Refused <==> p.w + Total(p.msg) > p.r + s.size || Overtaken(s.size, p.w, p.r, Total(p.msg))))
      && (p' == Refused && !Overtaken(s.size, p.w, p.r, Total(p.msg)) ==> p.w + Total(p.msg) > p.readThen + s.size)
  {
    var LoadedRead(msg, w, r, readThen) := s.producers[t];
    assert ProducerOk(s, t);
    SizeBound(s.size);
    SizeForPayloadRounds(|msg.payload|);
    if Total(msg) <= s.size {
      OverflowsExactly(s.size, w, r, Total(msg));
    }
  }

  // ---------------------------------------------------------------------------------------------
  // Runs that exist
  // ---------------------------------------------------------------------------------------------

  ghost predicate Path(run: seq<State>, s: State, s': State) {
    && |run| > 0 && run[0] == s && run[|run| - 1] == s'
    && forall i: nat :: i + 1 < |run| ==> Next(run[i], run[i + 1])
  }

  ghost predicate Reaches(s: State, s': State) {
    exists run :: Path(run, s, s')
  }

  lemma ReachesSelf(s: State)
    ensures Reaches(s, s)
  {
    assert Path([s], s, s);
  }

  lemma ReachesThen(a: State, b: State, c: State)
    requires Reaches(a, b) && Reaches(b, c)
    ensures Reaches(a, c)
  {
    var p :| Path(p, a, b);
    var q :| Path(q, b, c);
    var r := p + q[1..];
    forall i: nat | i + 1 < |r| ensures Next(r[i], r[i + 1]) {
      if i + 1 < |p| {
        assert Next(p[i], p[i + 1]);
      } else {
        var j := i + 1 - |p|;
        assert Next(q[j], q[j + 1]);
      }
    }
    assert Path(r, a, c);
  }

  lemma ReachesNext(s0: State, s: State, s': State)
    requires Reaches(s0, s) && Next(s, s')
    ensures Reaches(s0, s')
  {
    var p :| Path(p, s0, s);
    var r := p + [s'];
    forall i: nat | i + 1 < |r| ensures Next(r[i], r[i + 1]) {
      if i + 1 < |p| {
        assert Next(p[i], p[i + 1]);
      }
    }
    assert Path(r, s0, s');
  }

  lemma ProducerGoes(s0: State, s: State, t: nat, m: Message)
    requires Reaches(s0, s) && Inv(s) && t < |s.producers| && ValidMessage(m)
    requires SwapHasRoom(s, t)
    ensures Reaches(s0, ProducerStep(s, t, m)) && Inv(ProducerStep(s, t, m))
  {
    ProducerKeepsInv(s, t, m);
    ReachesNext(s0, s, ProducerStep(s, t, m));
  }

  lemma ConsumerGoes(s0: State, s: State)
    requires Reaches(s0, s) && Inv(s)
    ensures Reaches(s0, ConsumerStep(s)) && Inv(ConsumerStep(s))
  {
    ConsumerKeepsInv(s);
    ReachesNext(s0, s, ConsumerStep(s));
  }

  /** An idle producer whose message fits gets as far as the swap. */
  lemma CanTest(s: State, t: nat, m: Message) returns (s': State)
    requires Inv(s) && t < |s.producers| && s.producers[t] == Idle
    requires ValidMessage(m) && s.writePos + Total(m) <= s.readPos + s.size
    ensures Reaches(s, s') && Inv(s')
    ensures s' == SetProducer(s, t, Fits(m, s.writePos))
  {
    ReachesSelf(s);
    ProducerGoes(s, s, t, m);
    var s1 := ProducerStep(s, t, m);
    ProducerGoes(s, s1, t, m);
    var s2 := ProducerStep(s1, t, m);
    SizeBound(s.size);
    SizeForPayloadRounds(|m.payload|);
    OverflowExact(s.size, s.writePos, s.readPos, Total(m));
    ProducerGoes(s, s2, t, m);
    s' := ProducerStep(s2, t, m);
    assert s'.producers == s.producers[t := Fits(m, s.writePos)];
  }

  /** ... and wins it if nobody else moves. */
  lemma CanClaim(s: State, t: nat, m: Message) returns (s': State)
    requires Inv(s) && t < |s.producers| && s.producers[t] == Idle
    requires ValidMessage(m) && s.writePos + Total(m) <= s.readPos + s.size
    ensures Reaches(s, s') && Inv(s')
    ensures s' == SetProducer(
      s.(writePos := s.writePos + Total(m), claims := s.claims + [Claim(s.writePos, m, t, 0, false)]),
      t, Filling(|s.claims|))
  {
    var s1 := CanTest(s, t, m);
    ProducerGoes(s, s1, t, m);
    s' := ProducerStep(s1, t, m);
    assert s'.producers == s.producers[t := Filling(|s.claims|)];
  }

  function StoresLeft(s: State, t: nat): nat
    requires t < |s.producers|
  {
    var p := s.producers[t];
    if p.Filling? && p.claim < |s.claims| then
      var c := s.claims[p.claim];
      if c.written <= 2 + |c.msg.payload| then 2 + |c.msg.payload| - c.written else 0
    else 0
  }

  function Filled(c: Claim): Claim {
    c.(written := 2 + |c.msg.payload|)
  }

  lemma {:induction false} CanFill(s0: State, s: State, t: nat, m: Message) returns (s': State)
    requires Inv(s) && t < |s.producers| && s.producers[t].Filling? && ValidMessage(m)
    requires Reaches(s0, s)
    ensures Reaches(s0, s') && Inv(s')
    ensures s.producers[t].claim < |s.claims|
    ensures s' == s.(mem := s'.mem,
                     claims := s.claims[s.producers[t].claim := Filled(s.claims[s.producers[t].claim])])
    decreases StoresLeft(s, t)
  {
    assert ProducerOk(s, t);
    var i := s.producers[t].claim;
    assert WellFormedClaim(s.claims[i]);
    if StoresLeft(s, t) == 0 {
      s' := s;
    } else {
      ProducerGoes(s0, s, t, m);
      s' := CanFill(s0, ProducerStep(s, t, m), t, m);
    }
  }

  /** ... and can then commit it. */
  lemma CanCommit(s0: State, s: State, t: nat, m: Message) returns (s': State)
    requires Inv(s) && t < |s.producers| && s.producers[t].Filling? && ValidMessage(m)
    requires Reaches(s0, s)
    ensures Reaches(s0, s') && Inv(s')
    ensures s.producers[t].claim < |s.claims|
    ensures var i := s.producers[t].claim;
      s' == SetProducer(
        s.(mem := s'.mem, claims := s.claims[i := Filled(s.claims[i]).(committed := true)]), t, Idle)
  {
    assert ProducerOk(s, t);
    var i := s.producers[t].claim;
    var s1 := CanFill(s0, s, t, m);
    LoadIdentifier(s1, i);
    ProducerGoes(s0, s1, t, m);
    var s2 := ProducerStep(s1, t, m);
    assert s2.producers[t] == Checked(i);
    ProducerGoes(s0, s2, t, m);
    s' := ProducerStep(s2, t, m);
    assert s'.producers == s.producers[t := Idle];
  }

  lemma {:induction false} CanZero(s0: State, s: State) returns (s': State)
    requires Inv(s) && s.consumer.Zeroing? && Reaches(s0, s)
    ensures Reaches(s0, s') && Inv(s')
    ensures s' == s.(mem := s'.mem, consumer := Zeroing(s.consumer.r, s.consumer.total, s.consumer.total))
    decreases s.consumer.total - s.consumer.done
  {
    if s.consumer.done == s.consumer.total {
      s' := s;
    } else {
      ConsumerGoes(s0, s);
      s' := CanZero(s0, ConsumerStep(s));
    }
  }

  /** A resting consumer finds a committed message at the head. */
  lemma CanPeek(s0: State, s: State) returns (s': State)
    requires Inv(s) && s.consumer == Resting && Reaches(s0, s)
    requires s.consumed < |s.claims| && s.claims[s.consumed].committed
    ensures Reaches(s0, s') && Inv(s') && s' == s.(consumer := HasMessage(s.readPos))
  {
    HeadWaits(s);
    ConsumerGoes(s0, s);
    var s1 := s.(consumer := PeekedWrite(s.writePos));
    ConsumerGoes(s0, s1);
    var s2 := s.(consumer := PeekedRead(s.writePos, s.readPos));
    LoadIdentifier(s2, s.consumed);
    ConsumerGoes(s0, s2);
    s' := ConsumerStep(s2);
  }

  lemma HeadWaits(s: State)
    requires Inv(s) && s.consumed < |s.claims|
    ensures Wrap32(s.writePos - s.readPos) != 0 && s.claims[s.consumed].msg.id != 0
  {
    assert WellFormedClaim(s.claims[s.consumed]);
    SizeBound(s.size);
    LiveRange(s, s.consumed);
    SizeForPayloadRounds(|s.claims[s.consumed].msg.payload|);
  }

  /** ... and can take, zero and release it. */
  lemma CanConsume(s0: State, s: State) returns (s': State)
    requires Inv(s) && s.consumer == Resting && Reaches(s0, s)
    requires s.consumed < |s.claims| && s.claims[s.consumed].committed
    ensures Reaches(s0, s') && Inv(s')
    ensures var m := s.claims[s.consumed].msg;
      s' == s.(mem := s'.mem, readPos := s.readPos + Total(m), consumed := s.consumed + 1,
               delivered := s.delivered + [m])
  {
    var s1 := CanPeek(s0, s);
    ReadCommitted(s1, s.consumed);
    ConsumerGoes(s0, s1);
    var s2 := CanZero(s0, ConsumerStep(s1));
    ConsumerGoes(s0, s2);
    s' := ConsumerStep(s2);
  }

  /** A message no larger than the buffer gets through an empty queue. */
  lemma CanDeliver(s0: State, s: State, t: nat, m: Message) returns (s': State)
    requires Inv(s) && t < |s.producers| && s.producers[t] == Idle && Reaches(s0, s)
    requires s.consumer == Resting && s.consumed == |s.claims|
    requires ValidMessage(m) && Total(m) <= s.size
    ensures Reaches(s0, s') && Inv(s')
    ensures s'.size == s.size && s'.producers == s.producers && s'.consumer == Resting
    ensures s'.consumed == |s'.claims| && s'.delivered == s.delivered + [m]
    ensures s'.writePos == s.writePos + Total(m) == s'.readPos
  {
    var s1 := CanClaim(s, t, m);
    ReachesThen(s0, s, s1);
    var s2 := CanCommit(s0, s1, t, m);
    s' := CanConsume(s0, s2);
    assert s'.producers == s.producers;
  }

  // ---------------------------------------------------------------------------------------------
  // A stale swap
  // ---------------------------------------------------------------------------------------------

  /** A message that fills a buffer. */
  function Block(size: nat): (m: Message)
    requires HEADER <= size <= 0x4000_0000 && size % 8 == 0
    ensures ValidMessage(m) && Total(m) == size
  {
    Message(1, 0, seq(size - HEADER, i => 0))
  }

  lemma {:induction false} CanDeliverBlocks(s0: State, s: State, t: nat, k: nat) returns (s': State)
    requires Inv(s) && t < |s.producers| && s.producers[t] == Idle && HEADER <= s.size <= 0x4000_0000 && s.size % 8 == 0
    requires s.consumer == Resting && s.consumed == |s.claims| && Reaches(s0, s)
    ensures Reaches(s0, s') && Inv(s')
    ensures s'.size == s.size && s'.producers == s.producers && s'.consumer == Resting
    ensures s'.consumed == |s'.claims| && s'.writePos == s'.readPos == s.writePos + k * s.size
    decreases k
  {
    if k == 0 {
      s' := s;
    } else {
      var s1 := CanDeliver(s0, s, t, Block(s.size));
      s' := CanDeliverBlocks(s0, s1, t, k - 1);
      OneMoreTimes(k, s.size);
    }
  }

  lemma OneMoreTimes(k: nat, n: nat)
    requires k > 0
    ensures n + (k - 1) * n == k * n
  {
  }

  lemma Powers(b: nat)
    requires 5 <= b <= 30
    ensures Pow2(b) % 8 == 0 && Pow2(32 - b) * Pow2(b) == WORD
  {
    Pow2Add(3, b - 3);
    assert Pow2(3) == 8;
    Pow2Add(32 - b, b);
    Pow2Of32();
  }

  /** A power of two from 32 to 2^30 is a multiple of 8, and 2^32 a multiple of it. */
  lemma SizeDividesWord(size: nat) returns (k: nat)
    requires PowerOfTwo(size) && size >= HEADER + 8
    ensures size % 8 == 0 && size <= 0x4000_0000 && k * size + size == WORD
  {
    var b: nat :| b <= 30 && size == Pow2(b);
    SizeBound(size);
    if b < 5 {
      Pow2Monotone(b, 4);
    }
    Powers(b);
    k := Pow2(32 - b) - 1;
    OneMoreTimes(k + 1, size);
  }

  /** The guard can fail: in every buffer that can hold a message and from the start, exactly 2^32
      bytes go by between a producer's load of the write position and its swap; the swap still wins,
      on the strength of a test made when the buffer was empty, and overruns what is by then full. */
  lemma StaleSwapOverruns(init: State, m: Message) returns (stale: State)
    requires Init(init) && init.size >= HEADER + 8 && |init.producers| >= 2
    requires ValidMessage(m) && Total(m) <= init.size
    ensures Reaches(init, stale) && Inv(stale) && 0 < |stale.producers| && !SwapHasRoom(stale, 0)
    ensures Reaches(init, ProducerStep(stale, 0, m)) && !CapacityOk(ProducerStep(stale, 0, m))
  {
    InitInv(init);
    var k := SizeDividesWord(init.size);
    var a := CanTest(init, 0, m);
    var b := CanDeliverBlocks(init, a, 1, k);
    stale := CanClaim(b, 1, Block(init.size));
    ReachesThen(init, b, stale);
    assert stale.writePos == WORD && stale.producers[0] == Fits(m, 0);
    SizeForPayloadRounds(|m.payload|);
    ReachesNext(init, stale, ProducerStep(stale, 0, m));
  }
}
