/** What becomes of every call of AllocMessage and PeekNextMessage, over every run of the queue. */
module QueueCalls {
  import opened Words
  import opened MessageQueue

  // ---------------------------------------------------------------------------------------------
  // One step, as one producer sees it
  // ---------------------------------------------------------------------------------------------

  predicate SameClaim(c: Claim, c': Claim) {
    c'.pos == c.pos && c'.msg == c.msg && c'.owner == c.owner && (c.committed ==> c'.committed)
  }

  /** Claims are only ever added, one at a time, and those there keep their range, message and owner;
      the write position moves only with a claim, the read position never goes back. */
  ghost predicate ClaimsKept(s: State, s': State) {
    && |s.claims| <= |s'.claims| <= |s.claims| + 1 && |s'.producers| == |s.producers| && s'.size == s.size
    && s.readPos <= s'.readPos
    && (forall i :: 0 <= i < |s.claims| ==> SameClaim(s.claims[i], s'.claims[i]))
    && (|s'.claims| == |s.claims| ==> s'.writePos == s.writePos)
  }

  /** A step of anything but producer `t`: it stays as it is and wins no claim. */
  ghost predicate Elsewhere(s: State, s': State, t: nat)
    requires t < |s.producers| == |s'.producers|
  {
    s'.producers[t] == s.producers[t] && forall i :: |s.claims| <= i < |s'.claims| ==> s'.claims[i].owner != t
  }

  /** A step of producer `t`, as its own state tells it. Refusal follows a test that failed and nothing
      else; a lost swap leads round the loop again with the same message. */
  ghost predicate Moves(s: State, s': State, t: nat)
    requires t < |s.producers| == |s'.producers|
  {
    var p' := s'.producers[t];
    && (!s.producers[t].Fits? ==> |s'.claims| == |s.claims|)
    && match s.producers[t]
       case Idle => p'.LoadedWrite? && ValidMessage(p'.msg) && p' == LoadedWrite(p'.msg, s.writePos, s.readPos)
       case LoadedWrite(m, w, readThen) => p' == LoadedRead(m, w, s.readPos, readThen)
       case LoadedRead(m, w, r, _) => p' == if Overflows(s.size, w, r, Total(m)) then Refused else Fits(m, w)
       case Fits(m, w) =>
         if Wrap32(s.writePos) == Wrap32(w) then
           p' == Filling(|s.claims|) && s'.claims == s.claims + [Claim(s.writePos, m, t, 0, false)]
         else p' == Retrying(m) && s'.claims == s.claims
       case Retrying(m) => p' == LoadedWrite(m, s.writePos, s.readPos)
       case Refused => p' == Idle
       case Filling(c) => p' == Filling(c) || p' == Checked(c) || p' == AssertFailed
       case Checked(c) =>
         if c < |s.claims| then p' == Idle && s'.claims[c].committed else p' == Checked(c)
       case AssertFailed => p' == AssertFailed
  }

  lemma ConsumerElsewhere(s: State, t: nat)
    requires Running(s) && t < |s.producers|
    ensures ClaimsKept(s, ConsumerStep(s)) && Elsewhere(s, ConsumerStep(s), t)
  {
  }

  lemma ProducerKeepsClaims(s: State, u: nat, m: Message)
    requires Running(s) && u < |s.producers|
    ensures ClaimsKept(s, ProducerStep(s, u, m))
  {
  }

  lemma ProducerElsewhere(s: State, u: nat, m: Message, t: nat)
    requires Running(s) && u < |s.producers| && t < |s.producers| && t != u
    ensures |ProducerStep(s, u, m).producers| == |s.producers| && Elsewhere(s, ProducerStep(s, u, m), t)
  {
    ProducerKeepsClaims(s, u, m);
  }

  lemma ProducerMoves(s: State, t: nat, m: Message)
    requires Running(s) && t < |s.producers| && ValidMessage(m)
    ensures |ProducerStep(s, t, m).producers| == |s.producers| && Moves(s, ProducerStep(s, t, m), t)
  {
  }

  ghost predicate StepMoves(s: State, s': State) {
    ClaimsKept(s, s') && forall t: nat :: t < |s.producers| ==> Elsewhere(s, s', t) || Moves(s, s', t)
  }

  /** Every step of the queue is one of these for every producer. */
  lemma NextMoves(s: State, s': State)
    requires Next(s, s')
    ensures StepMoves(s, s')
  {
    if s' == ConsumerStep(s) {
      forall t: nat | t < |s.producers| ensures Elsewhere(s, s', t) {
        ConsumerElsewhere(s, t);
      }
    } else {
      var u: nat, m: Message :| u < |s.producers| && ValidMessage(m) && s' == ProducerStep(s, u, m);
      ProducerKeepsClaims(s, u, m);
      ProducerMoves(s, u, m);
      forall t: nat | t < |s.producers| && t != u ensures Elsewhere(s, s', t) {
        ProducerElsewhere(s, u, m, t);
      }
    }
  }

  ghost predicate Steps(run: seq<State>) {
    forall i: nat :: i + 1 < |run| ==> StepMoves(run[i], run[i + 1])
  }

  lemma RunSteps(run: seq<State>)
    requires Run(run)
    ensures Steps(run)
  {
    forall i: nat | i + 1 < |run| ensures StepMoves(run[i], run[i + 1]) {
      NextMoves(run[i], run[i + 1]);
    }
  }

  lemma StepFor(run: seq<State>, i: nat, t: nat)
    requires Steps(run) && i + 1 < |run| && t < |run[i].producers|
    ensures ClaimsKept(run[i], run[i + 1]) && (Elsewhere(run[i], run[i + 1], t) || Moves(run[i], run[i + 1], t))
  {
    assert StepMoves(run[i], run[i + 1]);
  }

  /** There are as many producers, and as much buffer, all along; claims are only added. */
  lemma {:induction false} Constant(run: seq<State>, i: nat, j: nat)
    requires Steps(run) && i <= j < |run|
    ensures |run[i].producers| == |run[j].producers| && run[i].size == run[j].size && run[i].readPos <= run[j].readPos
    ensures |run[i].claims| <= |run[j].claims| && (|run[i].claims| == |run[j].claims| ==> run[i].writePos == run[j].writePos)
    decreases j
  {
    if i < j {
      Constant(run, i, j - 1);
      assert StepMoves(run[j - 1], run[j - 1 + 1]);
    }
  }

  // ---------------------------------------------------------------------------------------------
  // A call of AllocMessage, from its first load
  // ---------------------------------------------------------------------------------------------

  /** Producer `t` is idle in state `a` and inside one call from then on up to state `b`. */
  ghost predicate InCall(run: seq<State>, t: nat, a: nat, b: nat) {
    && a < b < |run| && (forall i :: a <= i <= b ==> t < |run[i].producers|)
    && run[a].producers[t] == Idle && forall i :: a < i <= b ==> run[i].producers[t] != Idle
  }

  ghost predicate NoneMade(before: State, s: State, t: nat) {
    |before.claims| <= |s.claims| && forall i :: |before.claims| <= i < |s.claims| ==> s.claims[i].owner != t
  }

  /** Since `before`, producer `t` has made claim `c` and no other, and made it for `m`. */
  ghost predicate OneMade(before: State, s: State, t: nat, c: nat, m: Message) {
    && |before.claims| <= c < |s.claims| && s.claims[c].owner == t && s.claims[c].msg == m
    && forall i :: |before.claims| <= i < |s.claims| && i != c ==> s.claims[i].owner != t
  }

  /** How a call made for `m` stands: still going round the loop for `m`, or turned down, without a claim,
      or with one claim, made for `m`. */
  ghost predicate Stands(before: State, s: State, t: nat, m: Message)
    requires t < |s.producers|
  {
    match s.producers[t]
    case Idle => false
    case LoadedWrite(msg, _, _) => msg == m && NoneMade(before, s, t)
    case LoadedRead(msg, _, _, _) => msg == m && NoneMade(before, s, t)
    case Fits(msg, _) => msg == m && NoneMade(before, s, t)
    case Retrying(msg) => msg == m && NoneMade(before, s, t)
    case Refused => NoneMade(before, s, t)
    case Filling(c) => OneMade(before, s, t, c, m)
    case Checked(c) => OneMade(before, s, t, c, m)
    case AssertFailed => exists c: nat :: OneMade(before, s, t, c, m)
  }

  lemma OneMadeKept(before: State, s: State, s': State, t: nat, c: nat, m: Message)
    requires OneMade(before, s, t, c, m) && ClaimsKept(s, s')
    requires forall i :: |s.claims| <= i < |s'.claims| ==> s'.claims[i].owner != t
    ensures OneMade(before, s', t, c, m)
  {
    forall i | 0 <= i < |s.claims| ensures s'.claims[i].owner == s.claims[i].owner && s'.claims[i].msg == s.claims[i].msg {
      assert SameClaim(s.claims[i], s'.claims[i]);
    }
  }

  lemma NoneMadeKept(before: State, s: State, s': State, t: nat)
    requires NoneMade(before, s, t) && ClaimsKept(s, s')
    requires forall i :: |s.claims| <= i < |s'.claims| ==> s'.claims[i].owner != t
    ensures NoneMade(before, s', t)
  {
    forall i | 0 <= i < |s.claims| ensures s'.claims[i].owner == s.claims[i].owner {
      assert SameClaim(s.claims[i], s'.claims[i]);
    }
  }

  lemma StandsNext(before: State, s: State, s': State, t: nat, m: Message)
    requires t < |s.producers| == |s'.producers| && Stands(before, s, t, m) && ClaimsKept(s, s')
    requires Elsewhere(s, s', t) || Moves(s, s', t)
    requires s'.producers[t] != Idle
    ensures Stands(before, s', t, m)
  {
    if |s'.claims| == |s.claims| || Elsewhere(s, s', t) {
      if NoneMade(before, s, t) {
        NoneMadeKept(before, s, s', t);
      }
      forall c: nat | OneMade(before, s, t, c, m) ensures OneMade(before, s', t, c, m) {
        OneMadeKept(before, s, s', t, c, m);
      }
    } else {
      assert OneMade(before, s', t, |s.claims|, m);
    }
  }

  // Where the positions came from.

  ghost predicate LoadedAt(run: seq<State>, i: nat, w: nat, readThen: nat)
    requires i < |run|
  {
    run[i].writePos == w && run[i].readPos == readThen
  }

  /** One turn of the loop before state `b`: the write position loaded in state `i`, the read position in
      state `j`, and what the test of `m` against them says. */
  ghost predicate Tested(run: seq<State>, a: nat, b: nat, i: nat, j: nat, m: Message, overflow: bool)
    requires b < |run|
  {
    a <= i < j < b && Overflows(run[i].size, run[i].writePos, run[j].readPos, Total(m)) == overflow
  }

  ghost predicate PassedAt(run: seq<State>, a: nat, b: nat, m: Message, w: nat)
    requires b < |run|
  {
    exists i: nat, j: nat :: Tested(run, a, b, i, j, m, false) && Wrap32(run[i].writePos) == Wrap32(w)
  }

  ghost predicate FailedAt(run: seq<State>, a: nat, b: nat, m: Message)
    requires b < |run|
  {
    exists i: nat, j: nat :: Tested(run, a, b, i, j, m, true)
  }

  /** What the producer holds it loaded in this call, the write position first; a claim was won by a swap
      on a position that had passed the test; and a refusal is a test that failed. */
  ghost predicate Loaded(run: seq<State>, t: nat, m: Message, a: nat, b: nat)
    requires b < |run| && t < |run[b].producers|
  {
    match run[b].producers[t]
    case LoadedWrite(_, w, readThen) => exists i: nat :: a <= i < b && LoadedAt(run, i, w, readThen)
    case LoadedRead(_, w, r, readThen) =>
      exists i: nat, j: nat :: a <= i < j < b && LoadedAt(run, i, w, readThen) && run[j].readPos == r
    case Fits(_, w) => PassedAt(run, a, b, m, w)
    case Refused => FailedAt(run, a, b, m)
    case Filling(c) => c < |run[b].claims| && PassedAt(run, a, b, m, run[b].claims[c].pos)
    case Checked(c) => c < |run[b].claims| && PassedAt(run, a, b, m, run[b].claims[c].pos)
    case _ => true
  }

  lemma PassedLater(run: seq<State>, a: nat, b: nat, m: Message)
    requires b + 1 < |run|
    ensures FailedAt(run, a, b, m) ==> FailedAt(run, a, b + 1, m)
    ensures forall w: nat :: PassedAt(run, a, b, m, w) ==> PassedAt(run, a, b + 1, m, w)
  {
    forall i: nat, j: nat, o | Tested(run, a, b, i, j, m, o) ensures Tested(run, a, b + 1, i, j, m, o) {
    }
  }

  lemma SamePos(s: State, s': State, c: nat)
    requires ClaimsKept(s, s') && c < |s.claims|
    ensures s'.claims[c].pos == s.claims[c].pos
  {
    assert SameClaim(s.claims[c], s'.claims[c]);
  }

  lemma LoadedElsewhere(run: seq<State>, t: nat, m: Message, a: nat, b: nat)
    requires b + 1 < |run| && t < |run[b].producers| && Loaded(run, t, m, a, b)
    requires ClaimsKept(run[b], run[b + 1]) && run[b + 1].producers[t] == run[b].producers[t]
    ensures Loaded(run, t, m, a, b + 1)
  {
    PassedLater(run, a, b, m);
    match run[b].producers[t]
    case LoadedWrite(_, w, readThen) =>
      var i: nat :| a <= i < b && LoadedAt(run, i, w, readThen);
    case LoadedRead(_, w, r, readThen) =>
      var i: nat, j: nat :| a <= i < j < b && LoadedAt(run, i, w, readThen) && run[j].readPos == r;
    case Filling(c) => SamePos(run[b], run[b + 1], c);
    case Checked(c) => SamePos(run[b], run[b + 1], c);
    case _ =>
  }

  /** The test. */
  lemma TestLoaded(run: seq<State>, t: nat, m: Message, a: nat, b: nat)
    requires Steps(run) && b + 1 < |run| && t < |run[b].producers| == |run[b + 1].producers|
    requires run[b].producers[t].LoadedRead? && run[b].producers[t].msg == m && Loaded(run, t, m, a, b)
    requires Moves(run[b], run[b + 1], t)
    ensures Loaded(run, t, m, a, b + 1)
  {
    var LoadedRead(_, w, r, readThen) := run[b].producers[t];
    var i: nat, j: nat :| a <= i < j < b && LoadedAt(run, i, w, readThen) && run[j].readPos == r;
    Constant(run, i, b);
    if Overflows(run[b].size, w, r, Total(m)) {
      assert Tested(run, a, b + 1, i, j, m, true);
    } else {
      assert Tested(run, a, b + 1, i, j, m, false);
    }
  }

  lemma LoadedOwn(run: seq<State>, t: nat, m: Message, a: nat, b: nat)
    requires Steps(run) && a < b && b + 1 < |run| && t < |run[b].producers| == |run[b + 1].producers|
    requires Stands(run[a], run[b], t, m) && Loaded(run, t, m, a, b)
    requires ClaimsKept(run[b], run[b + 1]) && Moves(run[b], run[b + 1], t) && run[b + 1].producers[t] != Idle
    ensures Loaded(run, t, m, a, b + 1)
  {
    PassedLater(run, a, b, m);
    match run[b].producers[t]
    case LoadedWrite(_, w, readThen) =>
      var i: nat :| a <= i < b && LoadedAt(run, i, w, readThen);
      assert a <= i < b < b + 1 && run[b].readPos == run[b + 1].producers[t].r;
    case LoadedRead(_, _, _, _) => TestLoaded(run, t, m, a, b);
    case Retrying(_) => assert LoadedAt(run, b, run[b].writePos, run[b].readPos);
    case Fits(_, w) =>
    case Filling(c) => SamePos(run[b], run[b + 1], c);
    case _ =>
  }

  /** At every moment of a call begun for message `m` the producer is still going round the loop for `m`, or
      was turned down by a test of two positions it loaded in this call, the write position first, and has
      made no claim; or it has made exactly one claim in this call, for `m`, by a swap on a position that
      passed the test. */
  lemma {:induction false} CallHistory(run: seq<State>, t: nat, a: nat, b: nat)
    requires Steps(run) && InCall(run, t, a, b)
    ensures run[a + 1].producers[t].LoadedWrite? && ValidMessage(run[a + 1].producers[t].msg)
    ensures var m := run[a + 1].producers[t].msg; Stands(run[a], run[b], t, m) && Loaded(run, t, m, a, b)
    decreases b
  {
    StepFor(run, b - 1, t);
    if b == a + 1 {
      assert LoadedAt(run, a, run[a].writePos, run[a].readPos);
    } else {
      CallHistory(run, t, a, b - 1);
      var m := run[a + 1].producers[t].msg;
      StandsNext(run[a], run[b - 1], run[b], t, m);
      if Elsewhere(run[b - 1], run[b], t) {
        LoadedElsewhere(run, t, m, a, b - 1);
      } else {
        LoadedOwn(run, t, m, a, b - 1);
      }
    }
  }

  // ---------------------------------------------------------------------------------------------
  // Whole runs
  // ---------------------------------------------------------------------------------------------

  /** Producer `t`'s call that begins in state `a` and is over in state `b + 1`. */
  ghost predicate WholeCall(run: seq<State>, t: nat, a: nat, b: nat) {
    InCall(run, t, a, b) && b + 1 < |run| && t < |run[b + 1].producers| && run[b + 1].producers[t] == Idle
  }

  /** Two positions between which a message does not fit. */
  predicate NoRoom(size: nat, w: nat, r: nat, m: Message) {
    Total(m) > size || w + Total(m) > r + size || Overtaken(size, w, r, Total(m))
  }

  /** The end of a call that was refused. */
  ghost predicate EndsRefused(run: seq<State>, t: nat, a: nat, b: nat, m: Message)
    requires 0 <= a <= b && b + 1 < |run|
  {
    NoneMade(run[a], run[b + 1], t) && FailedAt(run, a, b, m)
  }

  /** The end of a call that allocated: its one claim is committed. */
  ghost predicate EndsCommitted(run: seq<State>, t: nat, a: nat, b: nat, m: Message, c: nat)
    requires 0 <= a <= b && b + 1 < |run|
  {
    && OneMade(run[a], run[b + 1], t, c, m) && run[b + 1].claims[c].committed
    && PassedAt(run, a, b, m, run[b + 1].claims[c].pos)
  }

  lemma StepsEnd(run: seq<State>, t: nat, a: nat, b: nat)
    requires Steps(run) && WholeCall(run, t, a, b)
    ensures run[a + 1].producers[t].LoadedWrite? && ValidMessage(run[a + 1].producers[t].msg)
    ensures var m := run[a + 1].producers[t].msg;
      if run[b].producers[t] == Refused then EndsRefused(run, t, a, b, m)
      else run[b].producers[t].Checked? && EndsCommitted(run, t, a, b, m, run[b].producers[t].claim)
  {
    CallHistory(run, t, a, b);
    StepFor(run, b, t);
    var m := run[a + 1].producers[t].msg;
    if run[b].producers[t] == Refused {
      NoneMadeKept(run[a], run[b], run[b + 1], t);
    } else {
      var c := run[b].producers[t].claim;
      OneMadeKept(run[a], run[b], run[b + 1], t, c, m);
      SamePos(run[b], run[b + 1], c);
    }
  }

  /** Every call of every producer over every run ends in one of two ways. Either it is refused and has
      made no claim, and it came to that from a test, in this call, of a write position and a read
      position loaded after it, that failed; or it has made exactly one claim, with the message it was
      begun with, on a position that passed the test, and committed it. */
  lemma CallEnds(run: seq<State>, t: nat, a: nat, b: nat) returns (m: Message)
    requires Run(run) && WholeCall(run, t, a, b)
    ensures ValidMessage(m) && run[a + 1].producers[t].LoadedWrite? && run[a + 1].producers[t].msg == m
    ensures if run[b].producers[t] == Refused then EndsRefused(run, t, a, b, m)
      else run[b].producers[t].Checked? && EndsCommitted(run, t, a, b, m, run[b].producers[t].claim)
  {
    RunSteps(run);
    StepsEnd(run, t, a, b);
    m := run[a + 1].producers[t].msg;
  }

  /** What the test decides in a run in which no swap wins without room. */
  lemma TestMeansRoom(run: seq<State>, a: nat, b: nat, i: nat, j: nat, m: Message, overflow: bool)
    requires Run(run) && b < |run| && RunHasRoom(run, b) && ValidMessage(m) && Tested(run, a, b, i, j, m, overflow)
    ensures overflow ==> NoRoom(run[i].size, run[i].writePos, run[j].readPos, m)
    ensures !overflow && Total(m) <= run[i].size ==> !NoRoom(run[i].size, run[i].writePos, run[j].readPos, m)
  {
    assert RunHasRoom(run, i);
    RunInv(run, i);
    RunSteps(run);
    Constant(run, i, j);
    SizeBound(run[i].size);
    SizeForPayloadRounds(|m.payload|);
    if Total(m) <= run[i].size {
      OverflowsExactly(run[i].size, run[i].writePos, run[j].readPos, Total(m));
    }
  }

  /** So, in such a run, a refused message did not fit between the two positions, or its producer was
      overtaken. */
  lemma RefusedHadNoRoom(run: seq<State>, t: nat, a: nat, b: nat) returns (m: Message, i: nat, j: nat)
    requires Run(run) && WholeCall(run, t, a, b) && RunHasRoom(run, b) && run[b].producers[t] == Refused
    ensures run[a + 1].producers[t].LoadedWrite? && run[a + 1].producers[t].msg == m
    ensures a <= i < j < b && NoRoom(run[i].size, run[i].writePos, run[j].readPos, m)
  {
    m := CallEnds(run, t, a, b);
    i, j :| Tested(run, a, b, i, j, m, true);
    TestMeansRoom(run, a, b, i, j, m, true);
  }

  lemma StepsLost(run: seq<State>, t: nat, a: nat, b: nat) returns (i: nat)
    requires Steps(run) && b + 1 < |run| && InCall(run, t, a, b) && t < |run[b + 1].producers| && run[b].producers[t].Fits?
    requires run[b + 1].producers[t] != run[b].producers[t] && !run[b + 1].producers[t].Filling?
    ensures a <= i < b && |run[i].claims| < |run[b].claims|
    ensures forall k :: |run[i].claims| <= k < |run[b].claims| ==> run[b].claims[k].owner != t
    ensures run[a + 1].producers[t].LoadedWrite? && run[b + 1].producers[t] == Retrying(run[a + 1].producers[t].msg)
  {
    CallHistory(run, t, a, b);
    var m, w := run[a + 1].producers[t].msg, run[b].producers[t].w;
    StepFor(run, b, t);
    var i0: nat, j: nat :| Tested(run, a, b, i0, j, m, false) && Wrap32(run[i0].writePos) == Wrap32(w);
    i := i0;
    Constant(run, i, b);
    Constant(run, a, i);
  }

  /** A swap is lost only to claims that others made since this call loaded the position, and the call
      goes on with its message. */
  lemma LostSwap(run: seq<State>, t: nat, a: nat, b: nat) returns (i: nat)
    requires Run(run) && b + 1 < |run| && InCall(run, t, a, b) && t < |run[b + 1].producers| && run[b].producers[t].Fits?
    requires run[b + 1].producers[t] != run[b].producers[t] && !run[b + 1].producers[t].Filling?
    ensures a <= i < b && |run[i].claims| < |run[b].claims|
    ensures forall k :: |run[i].claims| <= k < |run[b].claims| ==> run[b].claims[k].owner != t
    ensures run[a + 1].producers[t].LoadedWrite? && run[b + 1].producers[t] == Retrying(run[a + 1].producers[t].msg)
  {
    RunSteps(run);
    i := StepsLost(run, t, a, b);
  }

  // ---------------------------------------------------------------------------------------------
  // PeekNextMessage
  // ---------------------------------------------------------------------------------------------

  /** PeekNextMessage returns the front message exactly if there was one when it loaded the write position
      and it is committed now; otherwise null. */
  lemma PeekExactly(s: State)
    requires Inv(s) && s.consumer.PeekedRead?
    ensures ConsumerStep(s).consumer ==
      if s.readPos < s.consumer.w && s.claims[s.consumed].committed then HasMessage(s.readPos) else Resting
  {
    var PeekedRead(w, r) := s.consumer;
    SizeBound(s.size);
    if r < w {
      LoadIdentifier(s, s.consumed);
    }
  }
}
