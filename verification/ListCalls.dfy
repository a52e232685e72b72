/** What becomes of every call of Alloc and FreeRange, over every run of the allocator. */
module ListCalls {
  import opened FreeList

  // ---------------------------------------------------------------------------------------------
  // One step, as one thread sees it
  // ---------------------------------------------------------------------------------------------

  /** A step of thread `t`, as its own state tells it. Only taking an object ends an allocation, and only
      the counters' updates after a swap end the giving back of a range. */
  ghost predicate Moves(s: State, s': State, t: nat)
    requires t < |s.threads| == |s'.threads|
  {
    var th' := s'.threads[t];
    && (!s.threads[t].Quiet? && !s.threads[t].Taking? ==> s'.inUse == s.inUse)
    && match s.threads[t]
       case Quiet =>
         || (th' == Popping && s'.inUse == s.inUse)
         || (th'.Pushing? && th'.range != [] && Elements(th'.range) <= s.inUse && s'.inUse == s.inUse - Elements(th'.range))
       case Pushing(range) => th' == PushLoaded(range, s.first)
       case PushLoaded(range, seen) => th' == PushLinked(range, seen) || (range == [] && th' == s.threads[t])
       case PushLinked(range, seen) =>
         if s.first == seen then th' == Pushed(|range|) && s'.free == range + s.free && s'.first == Head(range)
         else th' == Pushing(range) && s'.free == s.free
       case Pushed(count) => th' == PushCounted(count)
       case PushCounted(_) => th' == Quiet
       case Popping =>
         if s.first == Null then th'.Made? && th'.obj !in s.next && th'.obj in s'.next else th' == PopLoaded(s.first.obj)
       case PopLoaded(top) => top in s.next && th' == PopNext(top, s.next[top])
       case PopNext(top, next) =>
         if s.first == To(top) then
           th' == Popped(top) && s'.first == next && s'.free == if s.free == [] then [] else s.free[1..]
         else th' == Popping && s'.free == s.free
       case Popped(o) => th' == PopCleared(o)
       case PopCleared(o) => th' == Taking(o)
       case Made(o) => th' == Taking(o)
       case Taking(o) => th' == Quiet && s'.inUse == s.inUse + {o}
  }

  lemma StepIsMove(s: State, t: nat, c: Choice)
    requires Enabled(s, t, c)
    ensures |Step(s, t, c).threads| == |s.threads| && Moves(s, Step(s, t, c), t)
  {
  }

  lemma StepElsewhere(s: State, u: nat, c: Choice, t: nat)
    requires Enabled(s, u, c) && t < |s.threads| && t != u
    ensures |Step(s, u, c).threads| == |s.threads| && Step(s, u, c).threads[t] == s.threads[t]
  {
  }

  ghost predicate StepMoves(s: State, s': State) {
    && |s'.threads| == |s.threads|
    && forall t: nat :: t < |s.threads| ==> s'.threads[t] == s.threads[t] || Moves(s, s', t)
  }

  lemma NextMoves(s: State, s': State)
    requires Next(s, s')
    ensures StepMoves(s, s')
  {
    if u: nat, c: Choice :| Enabled(s, u, c) && s' == Step(s, u, c) {
      StepIsMove(s, u, c);
      forall t: nat | t < |s.threads| && t != u ensures s'.threads[t] == s.threads[t] {
        StepElsewhere(s, u, c, t);
      }
    }
  }

  ghost predicate Steps(run: seq<State>) {
    forall i: nat :: i + 1 < |run| ==> StepMoves(run[i], run[i + 1])
  }

  lemma RunSteps(run: seq<State>)
    requires Run(run)
    ensures Steps(run)
  {
    forall i: nat | i + 1 < |run| ensures StepMoves(run[i], run[i + 1]) {
      NextMoves(run[i], run[i + 1]);
    }
  }

  lemma StepFor(run: seq<State>, i: nat, t: nat)
    requires Steps(run) && i + 1 < |run| && t < |run[i].threads|
    ensures |run[i + 1].threads| == |run[i].threads|
    ensures run[i + 1].threads[t] == run[i].threads[t] || Moves(run[i], run[i + 1], t)
  {
    assert StepMoves(run[i], run[i + 1]);
  }

  // ---------------------------------------------------------------------------------------------
  // A call, from its first step to its last
  // ---------------------------------------------------------------------------------------------

  /** Thread `t` is idle in state `a` and inside one call from then on up to state `b`. */
  ghost predicate InCall(run: seq<State>, t: nat, a: nat, b: nat) {
    && a < b < |run| && (forall i :: a <= i <= b ==> t < |run[i].threads|)
    && run[a].threads[t] == Quiet && forall i :: a < i <= b ==> run[i].threads[t] != Quiet
  }

  /** In state `k` the thread's swap takes `o` off the list. */
  ghost predicate WinsAt(run: seq<State>, t: nat, k: nat, o: nat) {
    && k + 1 < |run| && t < |run[k].threads| == |run[k + 1].threads|
    && run[k].threads[t].PopNext? && run[k].threads[t].top == o && run[k].first == To(o)
    && run[k + 1].threads[t] == Popped(o) && run[k + 1].free == if run[k].free == [] then [] else run[k].free[1..]
  }

  /** In state `k` the thread finds the list empty and makes `o`, which was no object before. */
  ghost predicate MakesAt(run: seq<State>, t: nat, k: nat, o: nat) {
    && k + 1 < |run| && t < |run[k].threads| == |run[k + 1].threads|
    && run[k].threads[t] == Popping && run[k].first == Null
    && run[k + 1].threads[t] == Made(o) && o !in run[k].next && o in run[k + 1].next
  }

  /** In state `k` the thread's swap puts the whole range in front of the list. */
  ghost predicate PutsAt(run: seq<State>, t: nat, k: nat, range: seq<nat>) {
    && k + 1 < |run| && t < |run[k].threads| == |run[k + 1].threads|
    && run[k].threads[t] == PushLinked(range, run[k].first)
    && run[k + 1].free == range + run[k].free && run[k + 1].first == Head(range)
  }

  ghost predicate Won(run: seq<State>, t: nat, a: nat, b: nat, o: nat) {
    exists k: nat :: a < k < b && WinsAt(run, t, k, o)
  }

  ghost predicate MadeNew(run: seq<State>, t: nat, a: nat, b: nat, o: nat) {
    exists k: nat :: a < k < b && MakesAt(run, t, k, o)
  }

  ghost predicate Put(run: seq<State>, t: nat, a: nat, b: nat, range: seq<nat>) {
    exists k: nat :: a < k < b && PutsAt(run, t, k, range)
  }

  /** How far an allocation has come. */
  ghost predicate Allocating(run: seq<State>, t: nat, a: nat, b: nat)
    requires b < |run| && t < |run[b].threads|
  {
    match run[b].threads[t]
    case Popping => true
    case PopLoaded(_) => true
    case PopNext(_, _) => true
    case Popped(o) => Won(run, t, a, b, o)
    case PopCleared(o) => Won(run, t, a, b, o)
    case Made(o) => MadeNew(run, t, a, b, o)
    case Taking(o) => Won(run, t, a, b, o) || MadeNew(run, t, a, b, o)
    case _ => false
  }

  /** How far the giving back of a range has come. */
  ghost predicate GivingBack(run: seq<State>, t: nat, a: nat, b: nat, range: seq<nat>)
    requires b < |run| && t < |run[b].threads|
  {
    match run[b].threads[t]
    case Pushing(r) => r == range
    case PushLoaded(r, _) => r == range
    case PushLinked(r, _) => r == range
    case Pushed(count) => count == |range| && Put(run, t, a, b, range)
    case PushCounted(count) => count == |range| && Put(run, t, a, b, range)
    case _ => false
  }

  lemma Later(run: seq<State>, t: nat, a: nat, b: nat)
    ensures forall o: nat :: Won(run, t, a, b, o) ==> Won(run, t, a, b + 1, o)
    ensures forall o: nat :: MadeNew(run, t, a, b, o) ==> MadeNew(run, t, a, b + 1, o)
    ensures forall range: seq<nat> :: Put(run, t, a, b, range) ==> Put(run, t, a, b + 1, range)
  {
    forall o: nat | Won(run, t, a, b, o) ensures Won(run, t, a, b + 1, o) {
      var k: nat :| a < k < b && WinsAt(run, t, k, o);
    }
    forall o: nat | MadeNew(run, t, a, b, o) ensures MadeNew(run, t, a, b + 1, o) {
      var k: nat :| a < k < b && MakesAt(run, t, k, o);
    }
    forall range: seq<nat> | Put(run, t, a, b, range) ensures Put(run, t, a, b + 1, range) {
      var k: nat :| a < k < b && PutsAt(run, t, k, range);
    }
  }

  lemma AllocatingNext(run: seq<State>, t: nat, a: nat, b: nat)
    requires a < b && b + 1 < |run| && t < |run[b].threads| == |run[b + 1].threads| && Allocating(run, t, a, b)
    requires run[b + 1].threads[t] == run[b].threads[t] || Moves(run[b], run[b + 1], t)
    requires run[b + 1].threads[t] != Quiet
    ensures Allocating(run, t, a, b + 1)
  {
    Later(run, t, a, b);
    var th, th' := run[b].threads[t], run[b + 1].threads[t];
    if th.PopNext? && th'.Popped? {
      assert WinsAt(run, t, b, th.top);
    } else if th.Popping? && th'.Made? {
      assert MakesAt(run, t, b, th'.obj);
    }
  }

  lemma GivingBackNext(run: seq<State>, t: nat, a: nat, b: nat, range: seq<nat>)
    requires a < b && b + 1 < |run| && t < |run[b].threads| == |run[b + 1].threads| && GivingBack(run, t, a, b, range)
    requires run[b + 1].threads[t] == run[b].threads[t] || Moves(run[b], run[b + 1], t)
    requires run[b + 1].threads[t] != Quiet
    ensures GivingBack(run, t, a, b + 1, range)
  {
    Later(run, t, a, b);
    var th, th' := run[b].threads[t], run[b + 1].threads[t];
    if th.PushLinked? && th'.Pushed? {
      assert PutsAt(run, t, b, range);
    }
  }

  /** At every moment of a call, whatever the other threads do: an allocation is still trying, or has won
      the head of the list, or has made a new object because it found the list empty; giving back a range
      is still trying, or has put the whole range in front of the list. */
  ghost predicate Stands(run: seq<State>, t: nat, a: nat, b: nat)
    requires a + 1 < |run| && b < |run| && t < |run[a + 1].threads| && t < |run[b].threads|
  {
    var first := run[a + 1].threads[t];
    (first == Popping && Allocating(run, t, a, b)) || (first.Pushing? && GivingBack(run, t, a, b, first.range))
  }

  lemma StandsFirst(run: seq<State>, t: nat, a: nat)
    requires Steps(run) && a + 1 < |run| && t < |run[a].threads| && t < |run[a + 1].threads|
    requires run[a].threads[t] == Quiet != run[a + 1].threads[t]
    ensures Stands(run, t, a, a + 1)
  {
    StepFor(run, a, t);
  }

  lemma StandsNext(run: seq<State>, t: nat, a: nat, b: nat)
    requires Steps(run) && a < b && b + 1 < |run| && t < |run[a + 1].threads| && t < |run[b].threads| && t < |run[b + 1].threads|
    requires Stands(run, t, a, b) && run[b + 1].threads[t] != Quiet
    ensures Stands(run, t, a, b + 1)
  {
    StepFor(run, b, t);
    var first := run[a + 1].threads[t];
    if first == Popping {
      AllocatingNext(run, t, a, b);
    } else {
      GivingBackNext(run, t, a, b, first.range);
    }
  }

  lemma {:induction false} CallHistory(run: seq<State>, t: nat, a: nat, b: nat)
    requires Steps(run) && InCall(run, t, a, b)
    ensures Stands(run, t, a, b)
    decreases b
  {
    if b == a + 1 {
      StandsFirst(run, t, a);
    } else {
      CallHistory(run, t, a, b - 1);
      StandsNext(run, t, a, b - 1);
    }
  }

  /** Thread `t`'s call that begins in state `a` and is over in state `b + 1`. */
  ghost predicate WholeCall(run: seq<State>, t: nat, a: nat, b: nat) {
    InCall(run, t, a, b) && b + 1 < |run| && t < |run[b + 1].threads| && run[b + 1].threads[t] == Quiet
  }

  lemma StepsEnd(run: seq<State>, t: nat, a: nat, b: nat)
    requires Steps(run) && WholeCall(run, t, a, b)
    ensures run[a + 1].threads[t] == Popping || run[a + 1].threads[t].Pushing?
    ensures run[a + 1].threads[t] == Popping ==>
      && run[b].threads[t].Taking? && run[b + 1].inUse == run[b].inUse + {run[b].threads[t].obj}
      && (Won(run, t, a, b, run[b].threads[t].obj) || MadeNew(run, t, a, b, run[b].threads[t].obj))
    ensures run[a + 1].threads[t].Pushing? ==>
      && run[a + 1].inUse == run[a].inUse - Elements(run[a + 1].threads[t].range)
      && Put(run, t, a, b, run[a + 1].threads[t].range)
  {
    CallHistory(run, t, a, b);
    StepFor(run, a, t);
    StepFor(run, b, t);
  }

  /** Every allocation of every thread, over every run in which no pop wins on an old link, yields one
      object: one that nobody was using or holding, and which was either the head of the list when this
      call's swap took it off, or made by this call on finding the list empty. */
  lemma AllocYields(run: seq<State>, t: nat, a: nat, b: nat) returns (o: nat)
    requires Run(run) && WholeCall(run, t, a, b) && RunPopsTails(run, b) && run[a + 1].threads[t] == Popping
    ensures run[b].threads[t] == Taking(o)
    ensures run[b + 1].inUse == run[b].inUse + {o} && o !in run[b].inUse && o !in run[b].free
    ensures forall u :: 0 <= u < |run[b].threads| && u != t ==> o !in Held(run[b].threads[u])
    ensures Won(run, t, a, b, o) || MadeNew(run, t, a, b, o)
  {
    RunSteps(run);
    StepsEnd(run, t, a, b);
    o := run[b].threads[t].obj;
    RunInv(run, b);
    assert o in Held(run[b].threads[t]);
  }

  /** The swap that won took the first object off the list. */
  lemma WonTheHead(run: seq<State>, t: nat, a: nat, b: nat, o: nat) returns (k: nat)
    requires Run(run) && b < |run| && RunPopsTails(run, b) && Won(run, t, a, b, o)
    ensures a < k < b && WinsAt(run, t, k, o) && run[k].free == [o] + run[k + 1].free
  {
    k :| a < k < b && WinsAt(run, t, k, o);
    assert RunPopsTails(run, k);
    RunInv(run, k);
  }

  /** Giving back a range ends only after a swap of this call has put the whole range, in its order, in
      front of the list. */
  lemma FreeRangePuts(run: seq<State>, t: nat, a: nat, b: nat) returns (range: seq<nat>, k: nat)
    requires Run(run) && WholeCall(run, t, a, b) && run[a + 1].threads[t] != Popping
    ensures run[a + 1].threads[t] == Pushing(range) && run[a + 1].inUse == run[a].inUse - Elements(range)
    ensures a < k < b && PutsAt(run, t, k, range)
  {
    RunSteps(run);
    StepsEnd(run, t, a, b);
    range := run[a + 1].threads[t].range;
    k :| a < k < b && PutsAt(run, t, k, range);
  }
}
