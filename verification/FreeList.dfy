/** Remotery's lock-free object allocator as a transition system. */
module FreeList {

  // Any number of threads freeing ranges of objects, allocating, and writing the links of objects
  // they own, one load, swap, store or counter update per step, sequentially consistent.

  datatype Ptr = Null | To(obj: nat)

  datatype Thread =
    | Quiet
    // ObjectAllocator_Push of the range whose first object is `start` and last is `end`
    | Pushing(range: seq<nat>)                 // old_link = first_free
    | PushLoaded(range: seq<nat>, seen: Ptr)    // end->next = old_link
    | PushLinked(range: seq<nat>, seen: Ptr)    // swap first_free from old_link to start
    | Pushed(count: nat)                       // nb_inuse -= count
    | PushCounted(count: nat)                  // nb_free += count
    // ObjectAllocator_Alloc
    | Popping                                  // old_link = first_free
    | PopLoaded(top: nat)                      // next_link = old_link->next
    | PopNext(top: nat, next: Ptr)             // swap first_free from old_link to next_link
    | Popped(obj: nat)                         // link->next = NULL
    | PopCleared(obj: nat)                     // nb_free -= 1
    | Made(obj: nat)                           // nb_allocated += 1
    | Taking(obj: nat)                         // nb_inuse += 1, and the caller has the object

  /** `next` maps every object ever made to its link; `free` is the sequence of objects the list is
      meant to hold and `inUse` the objects handed to callers and not given back. */
  datatype State = State(
    first: Ptr, next: map<nat, Ptr>,
    nbFree: int, nbInuse: int, nbAllocated: int,
    threads: seq<Thread>, free: seq<nat>, inUse: set<nat>)

  /** What an idle thread decides to do, and the address malloc returns if it needs one. */
  datatype Choice = Choose(push: bool, range: seq<nat>, addr: nat)

  // ---------------------------------------------------------------------------------------------
  // Steps
  // ---------------------------------------------------------------------------------------------

  function Head(list: seq<nat>): Ptr {
    if list == [] then Null else To(list[0])
  }

  function Elements(list: seq<nat>): (r: set<nat>)
    ensures forall x :: x in r <==> x in list
  {
    set x | x in list
  }

  ghost predicate Distinct(list: seq<nat>) {
    forall i, j :: 0 <= i < j < |list| ==> list[i] != list[j]
  }

  /** `list` is chained by `next` and its last object links to `last`. */
  ghost predicate Linked(next: map<nat, Ptr>, list: seq<nat>, last: Ptr) {
    forall i: nat :: i < |list| ==> LinkAt(next, list, last, i)
  }

  ghost predicate LinkAt(next: map<nat, Ptr>, list: seq<nat>, last: Ptr, i: nat)
    requires i < |list|
  {
    && list[i] in next
    && next[list[i]] == if i + 1 < |list| then To(list[i + 1]) else last
  }

  /** The links inside `list`, whatever its last object links to. */
  ghost predicate Chained(next: map<nat, Ptr>, list: seq<nat>) {
    && (forall i :: 0 <= i < |list| ==> list[i] in next)
    && forall i :: 0 <= i < |list| - 1 ==> next[list[i]] == To(list[i + 1])
  }

  /** FreeRange asks for a chain of distinct objects the caller owns; Alloc for a new address. */
  ghost predicate Enabled(s: State, t: nat, c: Choice) {
    && t < |s.threads|
    && (s.threads[t].Quiet? && c.push ==>
          c.range != [] && Distinct(c.range) && Elements(c.range) <= s.inUse && Chained(s.next, c.range))
    && (s.threads[t].Popping? && s.first == Null ==> c.addr !in s.next)
    && (s.threads[t].PopLoaded? ==> s.threads[t].top in s.next)
  }

  function Step(s: State, t: nat, c: Choice): State
    requires Enabled(s, t, c)
  {
    match s.threads[t]
    case Quiet =>
      if c.push then
        s.(threads := s.threads[t := Pushing(c.range)], inUse := s.inUse - Elements(c.range))
      else
        s.(threads := s.threads[t := Popping])
    case Pushing(range) =>
      s.(threads := s.threads[t := PushLoaded(range, s.first)])
    case PushLoaded(range, seen) =>
      if range == [] then s
      else
        s.(next := s.next[range[|range| - 1] := seen], threads := s.threads[t := PushLinked(range, seen)])
    case PushLinked(range, seen) =>
      if s.first == seen then
        s.(first := Head(range), free := range + s.free, threads := s.threads[t := Pushed(|range|)])
      else
        s.(threads := s.threads[t := Pushing(range)])
    case Pushed(count) =>
      s.(nbInuse := s.nbInuse - count, threads := s.threads[t := PushCounted(count)])
    case PushCounted(count) =>
      s.(nbFree := s.nbFree + count, threads := s.threads[t := Quiet])
    case Popping =>
      if s.first == Null then
        s.(next := s.next[c.addr := Null], threads := s.threads[t := Made(c.addr)])
      else
        s.(threads := s.threads[t := PopLoaded(s.first.obj)])
    case PopLoaded(top) =>
      s.(threads := s.threads[t := PopNext(top, s.next[top])])
    case PopNext(top, next) =>
      if s.first == To(top) then
        s.(first := next, free := if s.free == [] then [] else s.free[1..],
           threads := s.threads[t := Popped(top)])
      else
        s.(threads := s.threads[t := Popping])
    case Popped(obj) =>
      s.(next := s.next[obj := Null], threads := s.threads[t := PopCleared(obj)])
    case PopCleared(obj) =>
      s.(nbFree := s.nbFree - 1, threads := s.threads[t := Taking(obj)])
    case Made(obj) =>
      s.(nbAllocated := s.nbAllocated + 1, threads := s.threads[t := Taking(obj)])
    case Taking(obj) =>
      s.(nbInuse := s.nbInuse + 1, inUse := s.inUse + {obj}, threads := s.threads[t := Quiet])
  }

  /** A step of the allocator, or a caller writing the link of an object it owns. */
  ghost predicate Next(s: State, s': State) {
    || (exists t: nat, c: Choice :: Enabled(s, t, c) && s' == Step(s, t, c))
    || (exists o: nat, p: Ptr :: o in s.inUse && s' == WriteLink(s, o, p))
  }

  function WriteLink(s: State, o: nat, p: Ptr): State {
    s.(next := s.next[o := p])
  }

  ghost predicate Init(s: State) {
    && s.first == Null && s.next == map[] && s.free == [] && s.inUse == {}
    && s.nbFree == s.nbInuse == s.nbAllocated == 0
    && forall t :: 0 <= t < |s.threads| ==> s.threads[t] == Quiet
  }

  /** Popping is exclusive from the load of first_free to the swap; pushing never is. */
  ghost predicate OnePopper(s: State) {
    forall t, u :: 0 <= t < u < |s.threads| ==> !(MidPop(s.threads[t]) && MidPop(s.threads[u]))
  }

  predicate MidPop(th: Thread) {
    th.PopLoaded? || th.PopNext?
  }

  // ---------------------------------------------------------------------------------------------
  // Invariant
  // ---------------------------------------------------------------------------------------------

  /** The objects a thread holds between the caller and the list. */
  function Held(th: Thread): set<nat> {
    match th
    case Pushing(range) => Elements(range)
    case PushLoaded(range, _) => Elements(range)
    case PushLinked(range, _) => Elements(range)
    case Popped(obj) => {obj}
    case PopCleared(obj) => {obj}
    case Made(obj) => {obj}
    case Taking(obj) => {obj}
    case _ => {}
  }

  ghost predicate ThreadOk(s: State, t: nat)
    requires t < |s.threads|
  {
    match s.threads[t]
    case Pushing(range) => range != [] && Distinct(range) && Chained(s.next, range)
    case PushLoaded(range, _) => range != [] && Distinct(range) && Chained(s.next, range)
    case PushLinked(range, seen) => range != [] && Distinct(range) && Linked(s.next, range, seen)
    case PopLoaded(top) => top in s.next
    case PopNext(top, _) => top in s.next
    case _ => true
  }

  /** The guard on the popper's swap: if it wins, the link it loaded is still that of the object. */
  predicate PopsTail(s: State, t: nat)
    requires t < |s.threads|
  {
    var th := s.threads[t];
    th.PopNext? && s.first == To(th.top) ==> th.top in s.next && th.next == s.next[th.top]
  }

  /** Objects in transit are neither listed nor in use, and no two threads hold the same one. */
  ghost predicate Separate(s: State) {
    && (forall o :: o in s.free ==> o in s.next && o !in s.inUse)
    && s.inUse <= s.next.Keys
    && (forall t, o :: 0 <= t < |s.threads| && o in Held(s.threads[t]) ==>
          o in s.next && o !in s.free && o !in s.inUse)
    && (forall t, u, o :: 0 <= t < u < |s.threads| && o in Held(s.threads[t]) ==> o !in Held(s.threads[u]))
  }

  // How far each counter lags behind what a thread has already done, and how many objects it holds.

  function FreeLag(th: Thread): int {
    match th
    case Popped(_) => 1
    case PopCleared(_) => 1
    case Pushed(count) => 0 - count
    case PushCounted(count) => 0 - count
    case _ => 0
  }

  function UseLag(th: Thread): int {
    match th
    case Pushing(range) => |range|
    case PushLoaded(range, _) => |range|
    case PushLinked(range, _) => |range|
    case Pushed(count) => count
    case _ => 0
  }

  function MadeLag(th: Thread): int {
    if th.Made? then -1 else 0
  }

  function HeldCount(th: Thread): int {
    match th
    case Pushing(range) => |range|
    case PushLoaded(range, _) => |range|
    case PushLinked(range, _) => |range|
    case Popped(_) => 1
    case PopCleared(_) => 1
    case Made(_) => 1
    case Taking(_) => 1
    case _ => 0
  }

  function Sum(threads: seq<Thread>, f: Thread -> int): int {
    if threads == [] then 0 else f(threads[0]) + Sum(threads[1..], f)
  }

  lemma {:induction false} SumUpdate(threads: seq<Thread>, f: Thread -> int, t: nat, th: Thread)
    requires t < |threads|
    ensures Sum(threads[t := th], f) == Sum(threads, f) - f(threads[t]) + f(th)
  {
    if t == 0 {
      assert threads[t := th][1..] == threads[1..];
    } else {
      SumUpdate(threads[1..], f, t - 1, th);
      assert threads[t := th][1..] == threads[1..][t - 1 := th];
    }
  }

  lemma {:induction false} SumZero(threads: seq<Thread>, f: Thread -> int)
    requires forall t :: 0 <= t < |threads| ==> f(threads[t]) == 0
    ensures Sum(threads, f) == 0
  {
    if threads != [] {
      SumZero(threads[1..], f);
    }
  }

  ghost predicate Counted(s: State) {
    && s.nbFree == |s.free| + Sum(s.threads, FreeLag)
    && s.nbInuse == |s.inUse| + Sum(s.threads, UseLag)
    && s.nbAllocated == |s.next| + Sum(s.threads, MadeLag)
    && |s.next| == |s.free| + |s.inUse| + Sum(s.threads, HeldCount)
  }

  ghost predicate Inv(s: State) {
    && Distinct(s.free)
    && s.first == Head(s.free) && Linked(s.next, s.free, Null)
    && Separate(s)
    && (forall t :: 0 <= t < |s.threads| ==> ThreadOk(s, t))
    && Counted(s)
  }

  // ---------------------------------------------------------------------------------------------
  // Preservation
  // ---------------------------------------------------------------------------------------------

  lemma {:induction false} ElementsCount(list: seq<nat>)
    requires Distinct(list)
    ensures |Elements(list)| == |list|
  {
    if list != [] {
      ElementsCount(list[1..]);
      assert Elements(list) == {list[0]} + Elements(list[1..]);
    }
  }

  lemma CountStep(s: State, s': State, t: nat)
    requires t < |s.threads| && |s'.threads| == |s.threads|
    requires s'.threads == s.threads[t := s'.threads[t]]
    ensures Sum(s'.threads, FreeLag) == Sum(s.threads, FreeLag) - FreeLag(s.threads[t]) + FreeLag(s'.threads[t])
    ensures Sum(s'.threads, UseLag) == Sum(s.threads, UseLag) - UseLag(s.threads[t]) + UseLag(s'.threads[t])
    ensures Sum(s'.threads, MadeLag) == Sum(s.threads, MadeLag) - MadeLag(s.threads[t]) + MadeLag(s'.threads[t])
    ensures Sum(s'.threads, HeldCount) == Sum(s.threads, HeldCount) - HeldCount(s.threads[t]) + HeldCount(s'.threads[t])
  {
    SumUpdate(s.threads, FreeLag, t, s'.threads[t]);
    SumUpdate(s.threads, UseLag, t, s'.threads[t]);
    SumUpdate(s.threads, MadeLag, t, s'.threads[t]);
    SumUpdate(s.threads, HeldCount, t, s'.threads[t]);
  }

  /** Steps that touch neither links nor the list nor ownership: loads, failed swaps, counters. */
  lemma LoadStep(s: State, t: nat, c: Choice)
    requires Inv(s) && Enabled(s, t, c)
    requires var th := s.threads[t];
      || th.Pushing? || th.PopLoaded?
      || (th.Quiet? && !c.push) || (th.Popping? && s.first != Null)
    ensures Inv(Step(s, t, c))
  {
    var s' := Step(s, t, c);
    CountStep(s, s', t);
    assert ThreadOk(s, t);
    if s.threads[t].Popping? {
      assert s.first.obj == s.free[0];
    }
    Unmoved(s, s', t);
  }

  lemma FailedSwap(s: State, t: nat, c: Choice)
    requires Inv(s) && Enabled(s, t, c)
    requires var th := s.threads[t];
      || (th.PushLinked? && s.first != th.seen) || (th.PopNext? && s.first != To(th.top))
    ensures Inv(Step(s, t, c))
  {
    var s' := Step(s, t, c);
    CountStep(s, s', t);
    assert ThreadOk(s, t);
    if s.threads[t].PushLinked? {
      LinkedIsChained(s.next, s.threads[t].range, s.threads[t].seen);
    }
    Unmoved(s, s', t);
  }

  lemma LinkedIsChained(next: map<nat, Ptr>, list: seq<nat>, last: Ptr)
    requires Linked(next, list, last)
    ensures Chained(next, list)
  {
    forall i: nat | i < |list| ensures list[i] in next {
      assert LinkAt(next, list, last, i);
    }
    forall i: nat | i < |list| - 1 ensures next[list[i]] == To(list[i + 1]) {
      assert LinkAt(next, list, last, i);
    }
  }

  lemma CounterStep(s: State, t: nat, c: Choice)
    requires Inv(s) && Enabled(s, t, c)
    requires var th := s.threads[t]; th.Pushed? || th.PushCounted? || th.PopCleared? || th.Made?
    ensures Inv(Step(s, t, c))
  {
    var s' := Step(s, t, c);
    CountStep(s, s', t);
    Unmoved(s, s', t);
  }

  lemma Unmoved(s: State, s': State, t: nat)
    requires Inv(s) && t < |s.threads| && |s'.threads| == |s.threads|
    requires s'.first == s.first && s'.next == s.next && s'.free == s.free && s'.inUse == s.inUse
    requires s'.threads == s.threads[t := s'.threads[t]] && Held(s'.threads[t]) == Held(s.threads[t])
    requires ThreadOk(s', t) && Counted(s')
    ensures Inv(s')
  {
    forall u | 0 <= u < |s'.threads| ensures ThreadOk(s', u) {
      assert ThreadOk(s, u);
    }
  }

  lemma BeginPush(s: State, t: nat, c: Choice)
    requires Inv(s) && Enabled(s, t, c) && s.threads[t].Quiet? && c.push
    ensures Inv(Step(s, t, c))
  {
    var s' := Step(s, t, c);
    CountStep(s, s', t);
    ElementsCount(c.range);
    assert |s'.inUse| == |s.inUse| - |Elements(c.range)|;
    forall u | 0 <= u < |s'.threads| ensures ThreadOk(s', u) {
      assert ThreadOk(s, u);
    }
  }

  lemma WriteElsewhere(next: map<nat, Ptr>, list: seq<nat>, last: Ptr, o: nat, p: Ptr)
    requires Linked(next, list, last) && o !in list
    ensures Linked(next[o := p], list, last)
  {
    var next' := next[o := p];
    forall i: nat | i < |list| ensures LinkAt(next', list, last, i) {
      assert LinkAt(next, list, last, i);
    }
  }

  /** Writing the link of an object a thread holds, or a caller owns, disturbs nobody else. */
  lemma WriteOwnLink(s: State, o: nat, p: Ptr, u: nat)
    requires Inv(s) && u < |s.threads|
    requires o !in s.free && o !in Held(s.threads[u])
    ensures ThreadOk(WriteLink(s, o, p), u)
  {
    assert ThreadOk(s, u);
    match s.threads[u]
    case PushLinked(range, seen) => WriteElsewhere(s.next, range, seen, o, p);
    case _ =>
  }

  /** Storing the link of the end of a chain links the whole chain to that object. */
  lemma ChainThenLink(next: map<nat, Ptr>, range: seq<nat>, p: Ptr)
    requires range != [] && Distinct(range) && Chained(next, range)
    ensures Linked(next[range[|range| - 1] := p], range, p)
  {
  }

  lemma DistinctConcat(a: seq<nat>, b: seq<nat>)
    requires Distinct(a) && Distinct(b) && forall o :: o in a ==> o !in b
    ensures Distinct(a + b)
  {
    var c := a + b;
    forall i, j | 0 <= i < j < |c| ensures c[i] != c[j] {
      if i < |a| <= j {
        assert c[i] in a && c[j] in b;
      }
    }
  }

  lemma LinkedConcat(next: map<nat, Ptr>, a: seq<nat>, b: seq<nat>)
    requires Linked(next, a, Head(b)) && Linked(next, b, Null)
    ensures Linked(next, a + b, Null)
  {
    forall i: nat | i < |a + b| ensures LinkAt(next, a + b, Null, i) {
      if i < |a| {
        assert LinkAt(next, a, Head(b), i);
      } else {
        assert LinkAt(next, b, Null, i - |a|);
      }
    }
  }

  lemma LinkStep(s: State, t: nat, c: Choice)
    requires Inv(s) && Enabled(s, t, c) && s.threads[t].PushLoaded?
    ensures Inv(Step(s, t, c))
  {
    var s' := Step(s, t, c);
    var PushLoaded(range, seen) := s.threads[t];
    assert ThreadOk(s, t);
    var o := range[|range| - 1];
    assert o in Held(s.threads[t]);
    CountStep(s, s', t);
    assert Held(s'.threads[t]) == Held(s.threads[t]);
    assert s'.next.Keys == s.next.Keys;
    forall u: nat | u < |s'.threads| ensures ThreadOk(s', u) {
      assert ThreadOk(s, u);
      if u != t {
        assert o !in Held(s.threads[u]);
        WriteOwnLink(s, o, seen, u);
      }
    }
    WriteElsewhere(s.next, s.free, Null, o, seen);
    ChainThenLink(s.next, range, seen);
  }

  lemma PushSwap(s: State, t: nat, c: Choice)
    requires Inv(s) && Enabled(s, t, c) && s.threads[t].PushLinked? && s.first == s.threads[t].seen
    ensures Inv(Step(s, t, c))
  {
    var s' := Step(s, t, c);
    var PushLinked(range, seen) := s.threads[t];
    assert ThreadOk(s, t);
    CountStep(s, s', t);
    LinkedConcat(s.next, range, s.free);
    forall o | o in range ensures o !in s.free && o !in s.inUse && o in s.next {
      assert o in Held(s.threads[t]);
    }
    DistinctConcat(range, s.free);
    forall u | 0 <= u < |s'.threads| ensures ThreadOk(s', u) {
      assert ThreadOk(s, u);
    }
  }

  lemma MakeStep(s: State, t: nat, c: Choice)
    requires Inv(s) && Enabled(s, t, c) && s.threads[t].Popping? && s.first == Null
    ensures Inv(Step(s, t, c))
  {
    var s' := Step(s, t, c);
    CountStep(s, s', t);
    assert s'.next.Keys == s.next.Keys + {c.addr};
    forall u: nat | u < |s'.threads| ensures ThreadOk(s', u) {
      assert ThreadOk(s, u);
      WriteOwnLink(s, c.addr, Null, u);
    }
  }

  lemma LinkedTail(next: map<nat, Ptr>, list: seq<nat>)
    requires list != [] && Linked(next, list, Null)
    ensures Linked(next, list[1..], Null) && list[0] in next && next[list[0]] == Head(list[1..])
  {
    assert LinkAt(next, list, Null, 0);
    forall i: nat | i < |list| - 1 ensures LinkAt(next, list[1..], Null, i) {
      assert LinkAt(next, list, Null, i + 1);
    }
  }

  /** A winning pop whose link is still that of the object installs the true tail of the list. */
  lemma PopSwap(s: State, t: nat, c: Choice)
    requires Inv(s) && Enabled(s, t, c) && PopsTail(s, t)
    requires s.threads[t].PopNext? && s.first == To(s.threads[t].top)
    ensures Inv(Step(s, t, c))
    ensures s.threads[t].next == Head(s.free[1..])
  {
    var s' := Step(s, t, c);
    var PopNext(top, next) := s.threads[t];
    assert ThreadOk(s, t);
    CountStep(s, s', t);
    assert s.free == [top] + s'.free;
    LinkedTail(s.next, s.free);
    assert top !in s'.free;
    forall u | 0 <= u < |s'.threads| ensures ThreadOk(s', u) {
      assert ThreadOk(s, u);
    }
  }

  lemma ClearStep(s: State, t: nat, c: Choice)
    requires Inv(s) && Enabled(s, t, c) && s.threads[t].Popped?
    ensures Inv(Step(s, t, c))
  {
    var s' := Step(s, t, c);
    var o := s.threads[t].obj;
    assert o in Held(s.threads[t]);
    CountStep(s, s', t);
    assert Held(s'.threads[t]) == Held(s.threads[t]);
    assert s'.next.Keys == s.next.Keys;
    forall u: nat | u < |s'.threads| ensures ThreadOk(s', u) {
      assert ThreadOk(s, u);
      if u != t {
        assert o !in Held(s.threads[u]);
        WriteOwnLink(s, o, Null, u);
      }
    }
    WriteElsewhere(s.next, s.free, Null, o, Null);
  }

  lemma TakeStep(s: State, t: nat, c: Choice)
    requires Inv(s) && Enabled(s, t, c) && s.threads[t].Taking?
    ensures Inv(Step(s, t, c))
  {
    var s' := Step(s, t, c);
    assert s.threads[t].obj in Held(s.threads[t]);
    CountStep(s, s', t);
    forall u | 0 <= u < |s'.threads| ensures ThreadOk(s', u) {
      assert ThreadOk(s, u);
    }
  }

  lemma StepKeepsInv(s: State, t: nat, c: Choice)
    requires Inv(s) && Enabled(s, t, c) && PopsTail(s, t)
    ensures Inv(Step(s, t, c))
  {
    match s.threads[t]
    case Quiet => if c.push { BeginPush(s, t, c); } else { LoadStep(s, t, c); }
    case PushLoaded(_, _) => LinkStep(s, t, c);
    case PushLinked(_, seen) => if s.first == seen { PushSwap(s, t, c); } else { FailedSwap(s, t, c); }
    case Popping => if s.first == Null { MakeStep(s, t, c); } else { LoadStep(s, t, c); }
    case PopNext(top, _) => if s.first == To(top) { PopSwap(s, t, c); } else { FailedSwap(s, t, c); }
    case Popped(_) => ClearStep(s, t, c);
    case Taking(_) => TakeStep(s, t, c);
    case Pushing(_) => LoadStep(s, t, c);
    case PopLoaded(_) => LoadStep(s, t, c);
    case _ => CounterStep(s, t, c);
  }

  /** The guard is exact: a step of the allocator keeps the invariant if and only if it is not a pop
      that wins on a link loaded before the object was taken and given back. */
  lemma StepKeepsInvExactly(s: State, t: nat, c: Choice)
    requires Inv(s) && Enabled(s, t, c)
    ensures Inv(Step(s, t, c)) <==> PopsTail(s, t)
  {
    if PopsTail(s, t) {
      StepKeepsInv(s, t, c);
    } else {
      LinkedTail(s.next, s.free);
    }
  }

  lemma CallerKeepsInv(s: State, o: nat, p: Ptr)
    requires Inv(s) && o in s.inUse
    ensures Inv(WriteLink(s, o, p))
  {
    var s' := WriteLink(s, o, p);
    assert s'.next.Keys == s.next.Keys;
    WriteElsewhere(s.next, s.free, Null, o, p);
    forall u: nat | u < |s'.threads| ensures ThreadOk(s', u) {
      assert o !in Held(s.threads[u]);
      WriteOwnLink(s, o, p, u);
    }
  }

  // ---------------------------------------------------------------------------------------------
  // Whole runs
  // ---------------------------------------------------------------------------------------------

  ghost predicate Run(run: seq<State>) {
    && |run| > 0 && Init(run[0])
    && forall i: nat :: i + 1 < |run| ==> Next(run[i], run[i + 1])
  }

  lemma InitInv(s: State)
    requires Init(s)
    ensures Inv(s)
  {
    SumZero(s.threads, FreeLag);
    SumZero(s.threads, UseLag);
    SumZero(s.threads, MadeLag);
    SumZero(s.threads, HeldCount);
  }

  /** What the thread between its loads and its swap has read is still true. */
  ghost predicate LoadsFresh(s: State) {
    forall t: nat :: t < |s.threads| ==> LoadFresh(s, t)
  }

  ghost predicate LoadFresh(s: State, t: nat)
    requires t < |s.threads|
  {
    match s.threads[t]
    case PopLoaded(top) => top in s.free
    case PopNext(top, next) => top in s.free && top in s.next && s.next[top] == next
    case _ => true
  }

  /** Links of listed objects are written by nobody, and only a popper takes an object off the list. */
  lemma ListedUntouched(s: State, t: nat, c: Choice)
    requires Inv(s) && Enabled(s, t, c)
    ensures var s' := Step(s, t, c);
      && (forall o :: o in s.free && o in s'.free ==> o in s.next && o in s'.next && s'.next[o] == s.next[o])
      && (!MidPop(s.threads[t]) ==> forall o :: o in s.free ==> o in s'.free)
  {
    assert ThreadOk(s, t);
    match s.threads[t]
    case PushLoaded(range, _) => assert range[|range| - 1] in Held(s.threads[t]);
    case Popped(obj) => assert obj in Held(s.threads[t]);
    case PushLinked(range, seen) =>
    case _ =>
  }

  /** With one popper at a time, what a popper has read stays true until its swap, so it meets the
      guard. */
  lemma StepKeepsFresh(s: State, t: nat, c: Choice)
    requires Inv(s) && LoadsFresh(s) && OnePopper(s) && Enabled(s, t, c)
    ensures PopsTail(s, t) && LoadsFresh(Step(s, t, c))
  {
    var s' := Step(s, t, c);
    assert LoadFresh(s, t);
    ListedUntouched(s, t, c);
    forall u: nat | u < |s'.threads| ensures LoadFresh(s', u) {
      assert LoadFresh(s, u);
      if u != t && MidPop(s.threads[u]) {
        assert !MidPop(s.threads[t]);
      }
      if u == t && s.threads[t].Popping? && s.first != Null {
        assert s.first.obj == s.free[0];
      }
    }
  }

  lemma CallerKeepsFresh(s: State, o: nat, p: Ptr)
    requires Inv(s) && LoadsFresh(s) && o in s.inUse
    ensures LoadsFresh(WriteLink(s, o, p))
  {
    forall u: nat | u < |s.threads| ensures LoadFresh(WriteLink(s, o, p), u) {
      assert LoadFresh(s, u);
    }
  }

  /** A step that is not a pop winning on an old link. */
  ghost predicate StepPopsTail(s: State, s': State) {
    forall t: nat, c: Choice :: Enabled(s, t, c) && s' == Step(s, t, c) ==> PopsTail(s, t)
  }

  lemma NextKeepsInv(s: State, s': State)
    requires Inv(s) && Next(s, s') && StepPopsTail(s, s')
    ensures Inv(s')
  {
    if t: nat, c: Choice :| Enabled(s, t, c) && s' == Step(s, t, c) {
      StepKeepsInv(s, t, c);
    } else {
      var o: nat, p: Ptr :| o in s.inUse && s' == WriteLink(s, o, p);
      CallerKeepsInv(s, o, p);
    }
  }

  /** No pop among the first `n` steps wins on an old link. */
  ghost predicate RunPopsTails(run: seq<State>, n: nat)
    requires n < |run|
  {
    forall i: nat :: i < n ==> StepPopsTail(run[i], run[i + 1])
  }

  ghost predicate InvThrough(run: seq<State>, n: nat)
    requires n < |run|
  {
    forall i: nat :: i <= n ==> Inv(run[i])
  }

  /** The invariant holds throughout a run if and only if no pop of the run wins on an old link. */
  lemma {:induction false} RunInvExactly(run: seq<State>, n: nat)
    requires Run(run) && n < |run|
    ensures InvThrough(run, n) <==> RunPopsTails(run, n)
  {
    if n == 0 {
      InitInv(run[0]);
    } else {
      RunInvExactly(run, n - 1);
      assert Next(run[n - 1], run[n - 1 + 1]);
      if RunPopsTails(run, n) {
        assert RunPopsTails(run, n - 1) && Inv(run[n - 1]) && StepPopsTail(run[n - 1], run[n - 1 + 1]);
        NextKeepsInv(run[n - 1], run[n]);
      }
      if InvThrough(run, n) {
        assert InvThrough(run, n - 1) && Inv(run[n - 1]) && Inv(run[n]);
        LastPopsTail(run[n - 1], run[n]);
      }
    }
  }

  lemma LastPopsTail(s: State, s': State)
    requires Inv(s) && Inv(s')
    ensures StepPopsTail(s, s')
  {
    forall t: nat, c: Choice | Enabled(s, t, c) && s' == Step(s, t, c) ensures PopsTail(s, t) {
      StepKeepsInvExactly(s, t, c);
    }
  }

  lemma NextKeepsFresh(s: State, s': State)
    requires Inv(s) && LoadsFresh(s) && OnePopper(s) && Next(s, s')
    ensures Inv(s') && LoadsFresh(s') && StepPopsTail(s, s')
  {
    forall t: nat, c: Choice | Enabled(s, t, c) && s' == Step(s, t, c) ensures PopsTail(s, t) {
      StepKeepsFresh(s, t, c);
    }
    NextKeepsInv(s, s');
    if t: nat, c: Choice :| Enabled(s, t, c) && s' == Step(s, t, c) {
      StepKeepsFresh(s, t, c);
    } else {
      var o: nat, p: Ptr :| o in s.inUse && s' == WriteLink(s, o, p);
      CallerKeepsFresh(s, o, p);
    }
  }

  lemma RunInv(run: seq<State>, n: nat)
    requires Run(run) && n < |run| && RunPopsTails(run, n)
    ensures Inv(run[n])
  {
    RunInvExactly(run, n);
  }

  /** With one popper at a time, which a mutex or a flag provides, no pop wins on an old link. */
  lemma {:induction false} OnePopperPopsTails(run: seq<State>, n: nat)
    requires Run(run) && n < |run|
    requires forall i: nat :: i < n ==> OnePopper(run[i])
    ensures LoadsFresh(run[n]) && RunPopsTails(run, n)
  {
    if n > 0 {
      OnePopperPopsTails(run, n - 1);
      RunInv(run, n - 1);
      assert Next(run[n - 1], run[n - 1 + 1]);
      NextKeepsFresh(run[n - 1], run[n]);
    }
  }

  /** The list read off the links from `first`: `list` is the chain and it ends in null. */
  ghost predicate IsList(s: State, list: seq<nat>) {
    s.first == Head(list) && Linked(s.next, list, Null)
  }

  /** In every state of such a run the links from first_free form a finite list without repeats, and
      none of its objects is in a caller's hands or in transit. */
  lemma ListOverRuns(run: seq<State>, n: nat)
    requires Run(run) && n < |run| && RunPopsTails(run, n)
    ensures IsList(run[n], run[n].free) && Distinct(run[n].free)
    ensures forall o :: o in run[n].free ==>
      o !in run[n].inUse && forall t :: 0 <= t < |run[n].threads| ==> o !in Held(run[n].threads[t])
  {
    RunInv(run, n);
  }

  /** There is only one such list, so "the free list" is well defined by the links alone. */
  lemma {:induction false} ListUnique(next: map<nat, Ptr>, a: seq<nat>, b: seq<nat>)
    requires Linked(next, a, Null) && Linked(next, b, Null) && Head(a) == Head(b)
    ensures a == b
  {
    if a != [] && b != [] {
      LinkedTail(next, a);
      LinkedTail(next, b);
      ListUnique(next, a[1..], b[1..]);
      assert a == [a[0]] + a[1..] && b == [b[0]] + b[1..];
    }
  }

  /** When no thread is inside the allocator the counters are exact: objects on the list, objects
      in use, and all objects ever made. */
  lemma CountersAtRest(run: seq<State>, n: nat)
    requires Run(run) && n < |run| && RunPopsTails(run, n)
    requires forall t :: 0 <= t < |run[n].threads| ==> run[n].threads[t] == Quiet
    ensures run[n].nbFree == |run[n].free| && run[n].nbInuse == |run[n].inUse|
    ensures run[n].nbAllocated == |run[n].next| == run[n].nbFree + run[n].nbInuse
  {
    RunInv(run, n);
    SumZero(run[n].threads, FreeLag);
    SumZero(run[n].threads, UseLag);
    SumZero(run[n].threads, MadeLag);
    SumZero(run[n].threads, HeldCount);
  }

  /** A step of the allocator changes the list only at its head: a swap by a pusher puts the whole
      range in front, a swap by the popper takes the first object, and nothing else moves it. */
  lemma ListStep(s: State, t: nat, c: Choice)
    requires Inv(s) && Enabled(s, t, c) && PopsTail(s, t)
    ensures var s' := Step(s, t, c);
      || (s'.free == s.free && s'.first == s.first)
      || (s.threads[t].PushLinked? && s'.free == s.threads[t].range + s.free && IsList(s', s'.free))
      || (s.threads[t].PopNext? && s.free == [s.threads[t].top] + s'.free && IsList(s', s'.free)
          && s'.threads[t] == Popped(s.threads[t].top))
  {
    StepKeepsInv(s, t, c);
    assert ThreadOk(s, t);
  }

  // ---------------------------------------------------------------------------------------------
  // Two poppers
  // ---------------------------------------------------------------------------------------------

  ghost predicate Path(run: seq<State>, s: State, s': State) {
    && |run| > 0 && run[0] == s && run[|run| - 1] == s'
    && forall i: nat :: i + 1 < |run| ==> Next(run[i], run[i + 1])
  }

  ghost predicate Reaches(s: State, s': State) {
    exists run :: Path(run, s, s')
  }

  lemma Goes(s0: State, s: State, t: nat, c: Choice) returns (s': State)
    requires Reaches(s0, s) && Enabled(s, t, c)
    ensures s' == Step(s, t, c) && Reaches(s0, s')
  {
    s' := Step(s, t, c);
    var p :| Path(p, s0, s);
    var r := p + [s'];
    assert Next(s, s');
    forall i: nat | i + 1 < |r| ensures Next(r[i], r[i + 1]) {
      if i + 1 < |p| {
        assert Next(p[i], p[i + 1]);
      }
    }
    assert Path(r, s0, s');
  }

  /** Thread `t`, uninterrupted, reads the head and its link and stops before the swap. */
  lemma ReadTop(s0: State, s: State, t: nat) returns (s': State)
    requires Reaches(s0, s) && t < |s.threads| && s.threads[t] == Quiet
    requires s.first.To? && s.first.obj in s.next
    ensures Reaches(s0, s')
    ensures s' == s.(threads := s.threads[t := PopNext(s.first.obj, s.next[s.first.obj])])
  {
    var c := Choose(false, [], 0);
    var s1 := Goes(s0, s, t, c);
    var s2 := Goes(s0, s1, t, c);
    s' := Goes(s0, s2, t, c);
  }

  /** Thread `t`, uninterrupted, allocates the head of the list. */
  lemma TakeTop(s0: State, s: State, t: nat) returns (s': State)
    requires Reaches(s0, s) && t < |s.threads| && s.threads[t] == Quiet
    requires s.first.To? && s.first.obj in s.next
    ensures Reaches(s0, s')
    ensures s'.threads == s.threads && s'.first == s.next[s.first.obj]
    ensures s'.next == s.next[s.first.obj := Null] && s'.inUse == s.inUse + {s.first.obj}
  {
    var c := Choose(false, [], 0);
    var s1 := ReadTop(s0, s, t);
    var s2 := Goes(s0, s1, t, c);
    var s3 := Goes(s0, s2, t, c);
    var s4 := Goes(s0, s3, t, c);
    s' := Goes(s0, s4, t, c);
    assert s'.threads == s.threads;
  }

  /** Thread `t`, uninterrupted, gives one object back. */
  lemma GiveBack(s0: State, s: State, t: nat, o: nat) returns (s': State)
    requires Reaches(s0, s) && t < |s.threads| && s.threads[t] == Quiet
    requires o in s.inUse && o in s.next
    ensures Reaches(s0, s')
    ensures s'.threads == s.threads && s'.first == To(o)
    ensures s'.next == s.next[o := s.first] && s'.inUse == s.inUse - {o}
  {
    var c := Choose(true, [o], 0);
    var s1 := Goes(s0, s, t, c);
    var s2 := Goes(s0, s1, t, c);
    var s3 := Goes(s0, s2, t, c);
    var s4 := Goes(s0, s3, t, c);
    var s5 := Goes(s0, s4, t, c);
    s' := Goes(s0, s5, t, c);
    assert s'.threads == s.threads;
  }

  /** The guard can fail: from a state with two objects on the list and two idle threads, a popper that
      stops before its swap while another takes both and gives the first back installs an object that
      is in use. */
  lemma ShareAnObject(s0: State, s: State, t: nat, u: nat, x: nat, y: nat) returns (stale: State)
    requires Reaches(s0, s) && t < |s.threads| && u < |s.threads| && t != u
    requires s.threads[t] == s.threads[u] == Quiet
    requires s.first == To(x) && x != y && x in s.next && y in s.next && s.next[x] == To(y)
    ensures Reaches(s0, stale) && t < |stale.threads| && stale.threads[t] == PopNext(x, To(y))
    ensures stale.first == To(x) && y in stale.inUse
  {
    var a := ReadTop(s0, s, t);
    var b := TakeTop(s0, a, u);
    var c := TakeTop(s0, b, u);
    stale := GiveBack(s0, c, u, x);
  }

  lemma StaleSwap(s0: State, s: State, t: nat, x: nat, y: nat) returns (s': State)
    requires Reaches(s0, s) && t < |s.threads| && s.threads[t] == PopNext(x, To(y)) && s.first == To(x)
    ensures Reaches(s0, s') && s'.first == To(y) && s'.inUse == s.inUse
  {
    s' := Goes(s0, s, t, Choose(false, [], 0));
  }

  /** From any consistent state with two free objects and two idle threads, whatever the other threads
      are doing, two overlapping poppers can put an object that is in use at the head of the list. */
  lemma TwoPoppersShareAnObject(s: State, t: nat, u: nat) returns (bad: State)
    requires Inv(s) && |s.free| >= 2 && t < |s.threads| && u < |s.threads| && t != u
    requires s.threads[t] == s.threads[u] == Quiet
    ensures Reaches(s, bad) && bad.first == To(s.free[1]) && s.free[1] in bad.inUse && !Inv(bad)
  {
    var x, y := s.free[0], s.free[1];
    assert Path([s], s, s);
    LinkedTail(s.next, s.free);
    var stale := ShareAnObject(s, s, t, u, x, y);
    bad := StaleSwap(s, stale, t, x, y);
  }

  /** Thread `t` allocates when the list is empty, at a new address. */
  lemma MakeOne(s0: State, s: State, t: nat, addr: nat) returns (s': State)
    requires Reaches(s0, s) && t < |s.threads| && s.threads[t] == Quiet && s.first == Null && addr !in s.next
    ensures Reaches(s0, s') && s'.threads == s.threads && s'.first == Null
    ensures s'.next == s.next[addr := Null] && s'.inUse == s.inUse + {addr} && s'.free == s.free
  {
    var c := Choose(false, [], addr);
    var s1 := Goes(s0, s, t, c);
    var s2 := Goes(s0, s1, t, c);
    var s3 := Goes(s0, s2, t, c);
    s' := Goes(s0, s3, t, c);
    assert s'.threads == s.threads;
  }

  /** And such a state is reached from the start, so the failure is too. */
  lemma TwoPoppersFromTheStart(init: State) returns (bad: State)
    requires Init(init) && |init.threads| >= 2
    ensures Reaches(init, bad) && bad.first == To(0) && 0 in bad.inUse && !Inv(bad)
  {
    assert Path([init], init, init);
    var a := MakeOne(init, init, 0, 0);
    var b := MakeOne(init, a, 0, 1);
    var c := GiveBack(init, b, 0, 0);
    var d := GiveBack(init, c, 0, 1);
    var stale := ShareAnObject(init, d, 0, 1, 1, 0);
    bad := StaleSwap(init, stale, 0, 1, 0);
  }
}
