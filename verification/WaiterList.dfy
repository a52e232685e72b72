/** saf's shared state with its intrusive circular list of waiting operations, proved to do what module
    Futures defines. Calls run under the state's lock, one at a time; posting to an executor appends to
    a log. */
module WaiterLists {
  import opened Futures

  /** A link of the circular list: the list's own head, or a waiting operation with its handler. */
  class Node {
    var next: Node
    var prev: Node
    const handler: nat
    var cancellable: bool  // a cancellation handler is installed in the operation's slot

    /** A node by itself is a ring of one. */
    constructor (handler: nat)
      ensures next == this && prev == this && this.handler == handler && !cancellable
    {
      this.handler := handler;
      cancellable := false;
      next := this;
      prev := this;
    }
  }

  /** Each node's links lead to its neighbours, the last one's back to the head. */
  ghost predicate Ring(nodes: seq<Node>)
    reads nodes`next, nodes`prev
  {
    && |nodes| > 0 && Distinct(nodes)
    && forall i: nat :: i < |nodes| ==> Neighbours(nodes, i)
  }

  ghost predicate Neighbours(nodes: seq<Node>, i: nat)
    requires i < |nodes|
    reads nodes`next, nodes`prev
  {
    nodes[i].next == After(nodes, i) && After(nodes, i).prev == nodes[i]
  }

  ghost function After(nodes: seq<Node>, i: nat): Node
    requires i < |nodes|
  {
    if i + 1 < |nodes| then nodes[i + 1] else nodes[0]
  }

  ghost predicate Distinct(nodes: seq<Node>) {
    forall i, j :: 0 <= i < j < |nodes| ==> nodes[i] != nodes[j]
  }

  /** Insert `node` before the head, that is, at the end of the ring. */
  method LinkBefore(node: Node, head: Node, ghost nodes: seq<Node>)
    requires Ring(nodes) && nodes[0] == head && node !in nodes
    modifies node`next, node`prev, nodes`next, nodes`prev
    ensures Ring(nodes + [node])
  {
    ghost var last := |nodes| - 1;
    assert Neighbours(nodes, last);
    node.next := head;
    node.prev := head.prev;
    node.prev.next := node;
    head.prev := node;
    ghost var all := nodes + [node];
    forall i: nat | i < |all| ensures Neighbours(all, i) {
      assert i < |nodes| ==> old(Neighbours(nodes, i));
    }
  }

  /** Take a node other than the head out of the ring. Its own links are left as they were. */
  method Unlink(node: Node, ghost nodes: seq<Node>, ghost k: nat)
    requires Ring(nodes) && 0 < k < |nodes| && node == nodes[k]
    modifies nodes`next, nodes`prev
    ensures Ring(nodes[..k] + nodes[k + 1..])
  {
    assert Neighbours(nodes, k) && Neighbours(nodes, k - 1);
    node.next.prev := node.prev;
    node.prev.next := node.next;
    ghost var all := nodes[..k] + nodes[k + 1..];
    forall i: nat | i < |all| ensures Neighbours(all, i) {
      if i < k {
        assert old(Neighbours(nodes, i));
      } else {
        assert old(Neighbours(nodes, i + 1));
      }
    }
  }

  ghost function Elements(nodes: seq<Node>): set<Node> {
    set x | x in nodes
  }

  ghost function Handlers(nodes: seq<Node>): (r: seq<nat>)
    ensures |r| == |nodes| && forall i :: 0 <= i < |r| ==> r[i] == nodes[i].handler
  {
    seq(|nodes|, i requires 0 <= i < |nodes| => nodes[i].handler)
  }

  lemma HandlersSplit(nodes: seq<Node>, k: nat)
    requires k < |nodes|
    ensures Handlers(nodes[..k] + nodes[k + 1..]) == Handlers(nodes)[..k] + Handlers(nodes)[k + 1..]
  {
    var rest, h := nodes[..k] + nodes[k + 1..], Handlers(nodes);
    var a, b := Handlers(rest), h[..k] + h[k + 1..];
    assert |a| == |b|;
    forall i | 0 <= i < |a| ensures a[i] == b[i] {
      assert a[i] == rest[i].handler;
    }
  }

  /** Removing the one occurrence of a handler. */
  lemma {:induction false} RemoveAt(handlers: seq<nat>, k: nat)
    requires k < |handlers| && Increasing(handlers)
    ensures Remove(handlers, handlers[k]) == handlers[..k] + handlers[k + 1..]
  {
    if k > 0 {
      RemoveAt(handlers[1..], k - 1);
      assert handlers[..k] == [handlers[0]] + handlers[1..][..k - 1];
    } else {
      assert handlers[..0] + handlers[1..] == handlers[1..];
    }
  }

  lemma PostFirst(posted: seq<Posted>, waiters: seq<Node>, code: Code)
    requires waiters != []
    ensures posted + [Posted(waiters[0].handler, code)] + PostAll(Handlers(waiters[1..]), code)
      == posted + PostAll(Handlers(waiters), code)
  {
    assert Handlers(waiters)[1..] == Handlers(waiters[1..]);
  }

  /** The operations ever made, which of them are still waiting, and whose handlers they hold. */
  ghost predicate Operations(made: set<Node>, waiters: seq<Node>, registered: nat)
    reads made`cancellable
  {
    && Elements(waiters) <= made
    && (forall x :: x in made ==> x.handler < registered && (x.cancellable <==> x in waiters))
    && (forall x, y :: x in made && y in made && x.handler == y.handler ==> x == y)
  }

  class SharedState {
    const head: Node
    var value: Value
    var posted: seq<Posted>  // what the executor was given
    var registered: nat
    ghost var waiters: seq<Node>
    ghost var made: set<Node>
    ghost var state: State

    ghost predicate Valid()
      reads this, head, made
    {
      && Inv(state) && Elements(waiters) <= made && head !in made && Ring([head] + waiters)
      && state.value == value && state.posted == posted && state.registered == registered
      && state.waiting == Handlers(waiters) && Operations(made, waiters, registered)
    }

    constructor ()
      ensures Valid() && state == Start() && made == {} && fresh(head)
    {
      head := new Node(0);
      value := Unset;
      posted := [];
      registered := 0;
      waiters := [];
      made := {};
      state := Start();
      new;
      StartInv();
      assert [head] + waiters == [head];
    }

    predicate IsReady()
      reads this
    {
      !value.Unset?
    }

    /** Completing an operation: its slot cleared, out of the list, and its handler posted. */
    method Complete(op: Node, code: Code, ghost k: nat)
      requires Ring([head] + waiters) && k < |waiters| && op == waiters[k] && op in made && op != head
      requires Operations(made, waiters, registered)
      modifies this`posted, this`waiters, head`next, head`prev, made
      ensures waiters == old(waiters)[..k] + old(waiters)[k + 1..] && Ring([head] + waiters)
      ensures posted == old(posted) + [Posted(op.handler, code)]
      ensures Operations(made, waiters, registered)
    {
      op.cancellable := false;
      ghost var all := [head] + waiters;
      assert waiters == all[1..];
      RingApart(waiters, k);
      Unlink(op, all, k + 1);
      posted := posted + [Posted(op.handler, code)];
      assert all[..k + 1] + all[k + 2..] == [head] + (waiters[..k] + waiters[k + 1..]);
      waiters := waiters[..k] + waiters[k + 1..];
    }

    /** Complete every waiting operation, first to last. */
    method CompleteAll(code: Code)
      requires Ring([head] + waiters) && Operations(made, waiters, registered) && head !in made
      modifies this`posted, this`waiters, head`next, head`prev, made
      ensures waiters == [] && Ring([head] + waiters) && Operations(made, waiters, registered)
      ensures posted == old(posted) + PostAll(Handlers(old(waiters)), code)
    {
      ghost var handlers := Handlers(waiters);
      while head.next != head
        invariant Ring([head] + waiters) && Operations(made, waiters, registered)
        invariant posted + PostAll(Handlers(waiters), code) == old(posted) + PostAll(handlers, code)
        decreases |waiters|
      {
        FirstWaiter(head, waiters);
        CompleteFirst(code);
      }
      NoWaiter(head, waiters);
    }

    /** One turn of the loop: the first operation is completed. */
    method CompleteFirst(code: Code)
      requires Ring([head] + waiters) && Operations(made, waiters, registered) && head !in made && waiters != []
      requires head.next == waiters[0]
      modifies this`posted, this`waiters, head`next, head`prev, made
      ensures waiters == old(waiters)[1..] && Ring([head] + waiters) && Operations(made, waiters, registered)
      ensures posted + PostAll(Handlers(waiters), code) == old(posted) + PostAll(Handlers(old(waiters)), code)
    {
      PostFirst(posted, waiters, code);
      assert waiters[0] in Elements(waiters) && waiters[..0] + waiters[1..] == waiters[1..];
      Complete(head.next, code, 0);
    }

    /** Store a result and tell everyone, unless there is one already. */
    method Satisfy(result: Value) returns (r: Outcome)
      requires Valid() && !result.Unset?
      modifies this, head`next, head`prev, made
      ensures Valid() && state == Futures.Satisfy(old(state), result) && made == old(made)
      ensures r == if old(IsReady()) then Raised(AlreadySatisfied) else Fine
    {
      if IsReady() {
        return Raised(AlreadySatisfied);
      }
      SatisfyKeepsInv(state, result);
      state := Futures.Satisfy(state, result);
      value := result;
      CompleteAll(Success);
      return Fine;
    }

    /** Hand out the value once; afterwards, and if there was an exception, throw. */
    method Extract() returns (r: Outcome)
      requires Valid() && state.retrieved
      modifies this`value, this`state
      ensures Valid() && state == ExtractValue(old(state)) && made == old(made)
      ensures r == Answer(old(state), Futures.Extract)
    {
      StepKeepsInv(state, Futures.Extract);
      match value {
        case Unset => return Raised(UnreadyFuture);
        case Exception(e) => return Raised(e);
        case Result(v) =>
          value := Exception(AlreadyExtracted);
          state := ExtractValue(state);
          return Gave(v);
      }
    }

    /** Register a handler: posted at once if the state is ready, otherwise put in the list. */
    method AsyncWait() returns (op: Node?)
      requires Valid() && state.retrieved
      modifies this, head`next, head`prev, made
      ensures Valid() && state == Wait(old(state))
      ensures op == null <==> old(IsReady())
      ensures op != null ==> fresh(op) && made == old(made) + {op} && op.handler == old(registered)
      ensures op == null ==> made == old(made)
    {
      WaitKeepsInv(state);
      if IsReady() {
        posted := posted + [Posted(registered, Success)];
        op := null;
      } else {
        op := Enlist();
      }
      registered := registered + 1;
      state := Wait(state);
    }

    method Enlist() returns (op: Node)
      requires Ring([head] + waiters) && head !in made && Elements(waiters) <= made && Operations(made, waiters, registered)
      modifies this`waiters, this`made, head`next, head`prev, made
      ensures fresh(op) && op.handler == registered && made == old(made) + {op} && waiters == old(waiters) + [op]
      ensures Ring([head] + waiters) && Operations(made, waiters, registered + 1) && head !in made
    {
      op := new Node(registered);
      ghost var all := [head] + waiters;
      forall x | x in all ensures x != op {
        assert x == head || x in Elements(waiters);
      }
      LinkBefore(op, head, all);
      op.cancellable := true;
      assert all + [op] == [head] + (waiters + [op]);
      waiters := waiters + [op];
      made := made + {op};
    }

    /** Cancelling an operation completes it as aborted if its slot still holds the handler. */
    method Cancel(op: Node)
      requires Valid() && op in made
      modifies this, head`next, head`prev, made
      ensures Valid() && state == CancelHandler(old(state), op.handler) && made == old(made)
    {
      CancelKeepsInv(state, op.handler);
      if op.cancellable {
        ghost var k :| 0 <= k < |waiters| && waiters[k] == op;
        RemoveAt(state.waiting, k);
        HandlersSplit(waiters, k);
        Complete(op, Aborted, k);
        state := CancelHandler(state, op.handler);
      } else {
        NotWaiting(op);
      }
    }

    lemma NotWaiting(op: Node)
      requires Operations(made, waiters, registered) && op in made && !op.cancellable
      ensures op.handler !in Handlers(waiters)
    {
      forall k | 0 <= k < |waiters| ensures waiters[k].handler != op.handler {
        assert waiters[k] in Elements(waiters);
      }
    }
  }

  /** The promise end: it may set a result once, gives out one future, and if that future may still be
      waiting when it goes, breaks the promise. */
  class Promise {
    const shared: SharedState
    var retrieved: bool

    ghost predicate Valid()
      reads this, shared, shared.head, shared.made
    {
      shared.Valid() && shared.state.promise && shared.state.retrieved == retrieved
    }

    constructor ()
      ensures Valid() && shared.state == Start() && fresh(shared) && fresh(shared.head) && shared.made == {}
    {
      shared := new SharedState();
      retrieved := false;
    }

    /** The first result is the one kept. */
    method SetValue(v: int) returns (r: Outcome)
      requires Valid()
      modifies shared, shared.head`next, shared.head`prev, shared.made
      ensures Valid() && shared.state == Step(old(shared.state), Op.SetValue(v))
      ensures r == Answer(old(shared.state), Op.SetValue(v))
      ensures shared.value == if old(shared.IsReady()) then old(shared.value) else Result(v)
    {
      r := shared.Satisfy(Result(v));
    }

    method SetException(what: int) returns (r: Outcome)
      requires Valid()
      modifies shared, shared.head`next, shared.head`prev, shared.made
      ensures Valid() && shared.state == Step(old(shared.state), Op.SetException(what))
      ensures r == Answer(old(shared.state), Op.SetException(what))
      ensures shared.value == if old(shared.IsReady()) then old(shared.value) else Exception(Thrown(what))
    {
      r := shared.Satisfy(Exception(Thrown(what)));
    }

    /** A second call throws and gives no future. */
    method GetFuture() returns (given: bool)
      requires Valid()
      modifies this`retrieved, shared`state
      ensures Valid() && given == !old(retrieved) && shared.state == Step(old(shared.state), Op.GetFuture)
    {
      given := !retrieved;
      StepKeepsInv(shared.state, Op.GetFuture);
      retrieved := true;
      shared.state := Step(shared.state, Op.GetFuture);
    }

    /** The destructor. */
    method Destroy()
      requires Valid()
      modifies shared, shared.head`next, shared.head`prev, shared.made
      ensures shared.Valid() && shared.state == Step(old(shared.state), DestroyPromise)
      ensures retrieved ==> shared.IsReady()
    {
      StepKeepsInv(shared.state, DestroyPromise);
      ghost var before := shared.state;
      if retrieved {
        if !shared.IsReady() {
          var r := shared.Satisfy(Exception(BrokenPromise));
        }
      }
      shared.state := Step(before, DestroyPromise);
    }
  }

  /** A value set is the value extracted, once. */
  method SetThenExtract(promise: Promise, v: int) returns (first: Outcome, second: Outcome)
    requires promise.Valid() && promise.retrieved && !promise.shared.IsReady()
    modifies promise.shared, promise.shared.head`next, promise.shared.head`prev, promise.shared.made
    ensures promise.Valid() && first == Gave(v) && second == Raised(AlreadyExtracted)
  {
    var done := promise.SetValue(v);
    first := promise.shared.Extract();
    second := promise.shared.Extract();
  }

  /** A list whose head leads elsewhere has a first waiter; one whose head leads back to it has none. */
  lemma FirstWaiter(head: Node, waiters: seq<Node>)
    requires Ring([head] + waiters) && head.next != head
    ensures waiters != [] && head.next == waiters[0]
  {
    assert Neighbours([head] + waiters, 0);
  }

  lemma NoWaiter(head: Node, waiters: seq<Node>)
    requires Ring([head] + waiters) && head.next == head
    ensures waiters == []
  {
    var all := [head] + waiters;
    OthersDiffer(all);
    assert Neighbours(all, 0);
  }

  lemma OthersDiffer(nodes: seq<Node>)
    requires Distinct(nodes)
    ensures forall j :: 0 < j < |nodes| ==> nodes[j] != nodes[0]
  {
  }

  /** A node is in a list of different nodes once. */
  lemma RingApart(nodes: seq<Node>, k: nat)
    requires Distinct(nodes) && k < |nodes|
    ensures forall x :: x in nodes[..k] + nodes[k + 1..] <==> x in nodes && x != nodes[k]
  {
  }
}
