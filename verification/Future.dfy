/** saf's promise and future. */
module Futures {

  // One shared state, its waiting handlers, and who is told what, over every run.

  /** How a posted handler is called. */
  datatype Code = Success | Aborted

  datatype Error = BrokenPromise | AlreadyExtracted | AlreadySatisfied | UnreadyFuture | Thrown(what: int)

  /** The stored result. A type other than `int` would change nothing. */
  datatype Value = Unset | Exception(error: Error) | Result(value: int)

  datatype Posted = Posted(handler: nat, code: Code)

  /** Handlers are numbered in the order they are registered; `waiting` is the waiter list, `posted`
      what the executor was given, and `extractions` counts the calls that returned the value. */
  datatype State = State(
    value: Value, waiting: seq<nat>, posted: seq<Posted>, registered: nat, extractions: nat,
    retrieved: bool, promise: bool)

  datatype Op =
    | GetFuture
    | AsyncWait
    | Cancel(handler: nat)
    | SetValue(value: int)
    | SetException(what: int)
    | DestroyPromise
    | Extract

  predicate Ready(s: State) {
    !s.value.Unset?
  }

  function PostAll(handlers: seq<nat>, code: Code): seq<Posted> {
    if handlers == [] then [] else [Posted(handlers[0], code)] + PostAll(handlers[1..], code)
  }

  function Remove(handlers: seq<nat>, h: nat): seq<nat> {
    if handlers == [] then []
    else if handlers[0] == h then handlers[1..]
    else [handlers[0]] + Remove(handlers[1..], h)
  }

  /** Store a result if there is none yet, and tell everyone waiting. */
  function Satisfy(s: State, value: Value): State {
    if Ready(s) then s
    else s.(value := value, waiting := [], posted := s.posted + PostAll(s.waiting, Success))
  }

  /** Cancelling a handler does something only while it waits. */
  function CancelHandler(s: State, h: nat): State {
    if h in s.waiting then
      s.(waiting := Remove(s.waiting, h), posted := s.posted + [Posted(h, Aborted)])
    else s
  }

  function Wait(s: State): State {
    if Ready(s) then s.(posted := s.posted + [Posted(s.registered, Success)], registered := s.registered + 1)
    else s.(waiting := s.waiting + [s.registered], registered := s.registered + 1)
  }

  function ExtractValue(s: State): State {
    if s.value.Result? then s.(value := Exception(AlreadyExtracted), extractions := s.extractions + 1) else s
  }

  function Destroy(s: State): State {
    (if s.retrieved then Satisfy(s, Exception(BrokenPromise)) else s).(promise := false)
  }

  /** Operations on a promise already destroyed do not happen, nor does waiting or extracting without
      a future. */
  predicate Enabled(s: State, op: Op) {
    match op
    case GetFuture => s.promise
    case AsyncWait => s.retrieved
    case Cancel(h) => h < s.registered
    case SetValue(_) => s.promise
    case SetException(_) => s.promise
    case DestroyPromise => s.promise
    case Extract => s.retrieved
  }

  function Step(s: State, op: Op): State {
    match op
    case GetFuture => s.(retrieved := true)
    case AsyncWait => Wait(s)
    case Cancel(h) => CancelHandler(s, h)
    case SetValue(v) => Satisfy(s, Result(v))
    case SetException(e) => Satisfy(s, Exception(Thrown(e)))
    case DestroyPromise => Destroy(s)
    case Extract => ExtractValue(s)
  }

  function Start(): State {
    State(Unset, [], [], 0, 0, false, true)
  }

  function Run(s: State, ops: seq<Op>): State
    decreases ops
  {
    if ops == [] then s else Run(if Enabled(s, ops[0]) then Step(s, ops[0]) else s, ops[1..])
  }

  // ---------------------------------------------------------------------------------------------
  // Every handler exactly once
  // ---------------------------------------------------------------------------------------------

  /** How often a handler was posted. */
  function TimesPosted(posted: seq<Posted>, h: nat): nat {
    if posted == [] then 0
    else TimesPosted(posted[..|posted| - 1], h) + if posted[|posted| - 1].handler == h then 1 else 0
  }

  /** Later registered handlers are told of success later. */
  ghost predicate InOrder(posted: seq<Posted>) {
    forall i, j :: 0 <= i < j < |posted| && posted[i].code.Success? && posted[j].code.Success? ==>
      posted[i].handler < posted[j].handler
  }

  ghost predicate Increasing(handlers: seq<nat>) {
    forall i, j :: 0 <= i < j < |handlers| ==> handlers[i] < handlers[j]
  }

  /** A registered handler is waiting or was posted, once, never both. */
  predicate Accounted(s: State, h: nat) {
    TimesPosted(s.posted, h) == if h < s.registered && h !in s.waiting then 1 else 0
  }

  ghost predicate Inv(s: State) {
    && (forall h: nat :: Accounted(s, h))
    && Increasing(s.waiting) && (forall h :: h in s.waiting ==> h < s.registered)
    && (Ready(s) ==> s.waiting == [])
    && InOrder(s.posted)
    && (forall i :: 0 <= i < |s.posted| ==> s.posted[i].handler < s.registered)
    && (forall i :: 0 <= i < |s.posted| && s.posted[i].code.Success? ==> Ready(s))
    && s.extractions <= 1 && (s.value.Result? ==> s.extractions == 0) && (!Ready(s) ==> s.extractions == 0)
    && (!s.retrieved ==> s.waiting == [])
    && (!s.promise && s.retrieved ==> Ready(s))
  }

  lemma {:induction false} CountConcat(a: seq<Posted>, b: seq<Posted>, h: nat)
    ensures TimesPosted(a + b, h) == TimesPosted(a, h) + TimesPosted(b, h)
  {
    if b == [] {
      assert a + b == a;
    } else {
      assert (a + b)[..|a + b| - 1] == a + b[..|b| - 1];
      CountConcat(a, b[..|b| - 1], h);
    }
  }

  lemma CountOne(p: Posted, h: nat)
    ensures TimesPosted([p], h) == if p.handler == h then 1 else 0
  {
    assert [p][..0] == [];
  }

  lemma {:induction false} PostAllIs(handlers: seq<nat>, code: Code)
    ensures |PostAll(handlers, code)| == |handlers|
    ensures forall i :: 0 <= i < |handlers| ==> PostAll(handlers, code)[i] == Posted(handlers[i], code)
  {
    if handlers != [] {
      PostAllIs(handlers[1..], code);
    }
  }

  lemma {:induction false} CountAll(handlers: seq<nat>, code: Code, h: nat)
    requires Increasing(handlers)
    ensures TimesPosted(PostAll(handlers, code), h) == if h in handlers then 1 else 0
  {
    if handlers != [] {
      CountAll(handlers[1..], code, h);
      CountConcat([Posted(handlers[0], code)], PostAll(handlers[1..], code), h);
      CountOne(Posted(handlers[0], code), h);
    }
  }

  lemma {:induction false} RemoveIs(handlers: seq<nat>, h: nat)
    requires Increasing(handlers)
    ensures Increasing(Remove(handlers, h))
    ensures forall x :: x in Remove(handlers, h) <==> x in handlers && x != h
  {
    if handlers != [] {
      RemoveIs(handlers[1..], h);
      var rest := Remove(handlers[1..], h);
      assert forall x :: x in handlers <==> x == handlers[0] || x in handlers[1..];
      assert forall x :: x in handlers[1..] ==> handlers[0] < x;
      if handlers[0] != h {
        forall j | 0 <= j < |rest| ensures handlers[0] < rest[j] {
          assert rest[j] in rest;
        }
      }
    }
  }

  lemma SatisfyKeepsInv(s: State, value: Value)
    requires Inv(s) && !value.Unset?
    ensures Inv(Satisfy(s, value)) && Ready(Satisfy(s, value))
  {
    if !Ready(s) {
      var t := Satisfy(s, value);
      PostAllIs(s.waiting, Success);
      forall h: nat ensures Accounted(t, h) {
        assert Accounted(s, h);
        CountConcat(s.posted, PostAll(s.waiting, Success), h);
        CountAll(s.waiting, Success, h);
      }
      forall i | |s.posted| <= i < |t.posted| ensures t.posted[i].handler in s.waiting {
        assert t.posted[i] == PostAll(s.waiting, Success)[i - |s.posted|];
      }
    }
  }

  lemma CancelKeepsInv(s: State, h: nat)
    requires Inv(s)
    ensures Inv(CancelHandler(s, h))
  {
    if h in s.waiting {
      var t := CancelHandler(s, h);
      RemoveIs(s.waiting, h);
      forall x: nat ensures Accounted(t, x) {
        assert Accounted(s, x);
        CountConcat(s.posted, [Posted(h, Aborted)], x);
        CountOne(Posted(h, Aborted), x);
      }
    }
  }

  lemma WaitKeepsInv(s: State)
    requires Inv(s) && s.retrieved
    ensures Inv(Wait(s))
  {
    var t := Wait(s);
    forall i, j | 0 <= i < j < |t.waiting| ensures t.waiting[i] < t.waiting[j] {
      assert t.waiting[i] in s.waiting;
    }
    forall x: nat ensures Accounted(t, x) {
      assert Accounted(s, x);
      CountConcat(s.posted, [Posted(s.registered, Success)], x);
      CountOne(Posted(s.registered, Success), x);
    }
  }

  lemma StepKeepsInv(s: State, op: Op)
    requires Inv(s) && Enabled(s, op)
    ensures Inv(Step(s, op))
  {
    match op {
      case AsyncWait => WaitKeepsInv(s);
      case Cancel(h) => CancelKeepsInv(s, h);
      case SetValue(v) => SatisfyKeepsInv(s, Result(v));
      case SetException(e) => SatisfyKeepsInv(s, Exception(Thrown(e)));
      case DestroyPromise =>
        SatisfyKeepsInv(s, Exception(BrokenPromise));
        SameCounts(if s.retrieved then Satisfy(s, Exception(BrokenPromise)) else s, Step(s, op));
      case GetFuture => SameCounts(s, Step(s, op));
      case Extract => SameCounts(s, Step(s, op));
    }
  }

  lemma SameCounts(s: State, t: State)
    requires forall h: nat :: Accounted(s, h)
    requires t.posted == s.posted && t.waiting == s.waiting && t.registered == s.registered
    ensures forall h: nat :: Accounted(t, h)
  {
    forall h: nat ensures Accounted(t, h) {
      assert Accounted(s, h);
    }
  }

  /** What one step never takes back: readiness, posts, the order of things, and the promise's end. */
  ghost predicate Follows(s: State, t: State) {
    && (Ready(s) ==> Ready(t))
    && s.posted <= t.posted && s.registered <= t.registered && s.extractions <= t.extractions
    && (!s.promise ==> !t.promise) && (s.retrieved ==> t.retrieved)
    && (Ready(s) ==> t.value == s.value || (s.value.Result? && t.value == Exception(AlreadyExtracted)))
  }

  lemma FollowsTrans(s: State, t: State, u: State)
    requires Follows(s, t) && Follows(t, u)
    ensures Follows(s, u)
  {
  }

  /** Over every run: each registered handler is waiting or was posted exactly once, in registration
      order unless cancelled; a ready state has no waiters and stays ready; and the value was handed
      out at most once. */
  lemma {:induction false} RunKeepsInv(s: State, ops: seq<Op>)
    requires Inv(s)
    ensures Inv(Run(s, ops)) && Follows(s, Run(s, ops))
    decreases ops
  {
    if ops != [] {
      var t := if Enabled(s, ops[0]) then Step(s, ops[0]) else s;
      if Enabled(s, ops[0]) {
        StepKeepsInv(s, ops[0]);
      }
      RunKeepsInv(t, ops[1..]);
      FollowsTrans(s, t, Run(t, ops[1..]));
    }
  }

  lemma StartInv()
    ensures Inv(Start())
  {
    forall h: nat ensures Accounted(Start(), h) {
    }
  }

  /** Once a result is set, or the promise is gone after a future was taken from it, every handler ever
      registered has been posted exactly once, cancelled or not. */
  lemma ExactlyOnce(ops: seq<Op>)
    ensures var t := Run(Start(), ops);
      && (t.retrieved && !t.promise ==> Ready(t))
      && (Ready(t) ==> forall h: nat :: h < t.registered ==> TimesPosted(t.posted, h) == 1)
      && (forall h: nat :: TimesPosted(t.posted, h) <= 1)
      && InOrder(t.posted) && t.extractions <= 1
  {
    StartInv();
    RunKeepsInv(Start(), ops);
    var t := Run(Start(), ops);
    forall h: nat ensures TimesPosted(t.posted, h) <= 1 && (Ready(t) && h < t.registered ==> TimesPosted(t.posted, h) == 1) {
      assert Accounted(t, h);
    }
  }

  /** A handler is told it was cancelled only if it was cancelled while waiting; otherwise success. */
  lemma {:induction false} AbortedOnlyByCancel(s: State, ops: seq<Op>, h: nat)
    requires Posted(h, Aborted) !in s.posted && Cancel(h) !in ops
    ensures Posted(h, Aborted) !in Run(s, ops).posted
    decreases ops
  {
    if ops != [] {
      assert ops[0] in ops;
      PostAllIs(s.waiting, Success);
      AbortedOnlyByCancel(if Enabled(s, ops[0]) then Step(s, ops[0]) else s, ops[1..], h);
    }
  }

  // ---------------------------------------------------------------------------------------------
  // Which result it is
  // ---------------------------------------------------------------------------------------------

  /** What a call ends with: normally, with the value, or by throwing. */
  datatype Outcome = Fine | Gave(value: int) | Raised(error: Error)

  /** What the caller of an operation gets. */
  function Answer(s: State, op: Op): Outcome {
    match op
    case SetValue(_) => if Ready(s) then Raised(AlreadySatisfied) else Fine
    case SetException(_) => if Ready(s) then Raised(AlreadySatisfied) else Fine
    case Extract =>
      (match s.value
       case Unset => Raised(UnreadyFuture)
       case Exception(e) => Raised(e)
       case Result(v) => Gave(v))
    case _ => Fine
  }

  /** The state before operation `k`. */
  function Before(ops: seq<Op>, k: nat): State
    requires k <= |ops|
  {
    Run(Start(), ops[..k])
  }

  /** The operations that set a result if there is none: setting one, and the end of a promise whose future
      was taken. */
  predicate Sets(s: State, op: Op) {
    Enabled(s, op) && (op.SetValue? || op.SetException? || (op == DestroyPromise && s.retrieved))
  }

  /** The result such an operation sets. */
  function Argument(op: Op): Value {
    match op
    case SetValue(v) => Result(v)
    case SetException(e) => Exception(Thrown(e))
    case _ => Exception(BrokenPromise)
  }

  predicate SetsAt(ops: seq<Op>, k: nat) {
    k < |ops| && Sets(Before(ops, k), ops[k])
  }

  /** Operation `k` is the first to set a result. */
  ghost predicate SetsFirst(ops: seq<Op>, k: nat) {
    SetsAt(ops, k) && forall j: nat :: j < k ==> !SetsAt(ops, j)
  }

  predicate ExtractsAt(ops: seq<Op>, k: nat) {
    k < |ops| && ops[k] == Extract && Enabled(Before(ops, k), Extract)
  }

  ghost predicate ExtractedBetween(ops: seq<Op>, k: nat, n: nat) {
    exists j: nat :: k < j < n && ExtractsAt(ops, j)
  }

  lemma {:induction false} RunLast(s: State, ops: seq<Op>, op: Op)
    ensures Run(s, ops + [op]) == if Enabled(Run(s, ops), op) then Step(Run(s, ops), op) else Run(s, ops)
    decreases |ops|
  {
    if ops == [] {
      assert ops + [op] == [op] && [op][1..] == [];
    } else {
      assert (ops + [op])[1..] == ops[1..] + [op];
      RunLast(if Enabled(s, ops[0]) then Step(s, ops[0]) else s, ops[1..], op);
    }
  }

  lemma BeforeNext(ops: seq<Op>, k: nat)
    requires k < |ops|
    ensures Before(ops, k + 1) == if Enabled(Before(ops, k), ops[k]) then Step(Before(ops, k), ops[k]) else Before(ops, k)
  {
    assert ops[..k + 1] == ops[..k] + [ops[k]];
    RunLast(Start(), ops[..k], ops[k]);
  }

  /** Until an operation sets a result there is none. */
  lemma {:induction false} UnreadyUntilSet(ops: seq<Op>, n: nat)
    requires n <= |ops| && forall j: nat :: j < n ==> !SetsAt(ops, j)
    ensures Before(ops, n).value == Unset
  {
    if n > 0 {
      UnreadyUntilSet(ops, n - 1);
      BeforeNext(ops, n - 1);
      assert !SetsAt(ops, n - 1);
    }
  }

  /** Over every run the first operation that sets a result fixes it: from then on the state holds that
      operation's argument, except that a value, once extracted, has given way to an error. */
  lemma {:induction false} FirstSetFixes(ops: seq<Op>, k: nat, n: nat)
    requires SetsFirst(ops, k) && k < n <= |ops|
    ensures Before(ops, n).value ==
      if Argument(ops[k]).Result? && ExtractedBetween(ops, k, n) then Exception(AlreadyExtracted) else Argument(ops[k])
    decreases n
  {
    BeforeNext(ops, n - 1);
    if n == k + 1 {
      UnreadyUntilSet(ops, k);
    } else {
      FirstSetFixes(ops, k, n - 1);
      assert ExtractsAt(ops, n - 1) ==> ExtractedBetween(ops, k, n);
      if j: nat :| k < j < n - 1 && ExtractsAt(ops, j) {
        assert k < j < n;
      }
    }
  }

  /** So an extraction after it gives exactly the value set, if it is the first extraction since; an
      exception set is thrown each time. */
  lemma ExtractGives(ops: seq<Op>, k: nat, n: nat)
    requires SetsFirst(ops, k) && k < n && ExtractsAt(ops, n)
    ensures Answer(Before(ops, n), Extract) ==
      match Argument(ops[k])
      case Exception(e) => Raised(e)
      case Result(v) => if ExtractedBetween(ops, k, n) then Raised(AlreadyExtracted) else Gave(v)
      case Unset => Fine
  {
    FirstSetFixes(ops, k, n);
  }

  /** An extraction before any result throws, and so does setting a second one. */
  lemma OtherAnswers(ops: seq<Op>, n: nat)
    requires n < |ops|
    ensures (forall j: nat :: j < n ==> !SetsAt(ops, j)) ==> Answer(Before(ops, n), Extract) == Raised(UnreadyFuture)
    ensures ops[n].SetValue? || ops[n].SetException? ==>
      (Answer(Before(ops, n), ops[n]) == Raised(AlreadySatisfied) <==> exists j: nat :: j < n && SetsAt(ops, j))
  {
    if forall j: nat :: j < n ==> !SetsAt(ops, j) {
      UnreadyUntilSet(ops, n);
    } else {
      var k := FirstSet(ops, n);
      FirstSetFixes(ops, k, n);
    }
  }

  lemma {:induction false} FirstSet(ops: seq<Op>, n: nat) returns (k: nat)
    requires n <= |ops| && exists j: nat :: j < n && SetsAt(ops, j)
    ensures k < n && SetsFirst(ops, k)
    decreases n
  {
    if j: nat :| j < n - 1 && SetsAt(ops, j) {
      k := FirstSet(ops, n - 1);
    } else {
      k := n - 1;
    }
  }
}
