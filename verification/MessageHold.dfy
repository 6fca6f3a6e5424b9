/**
 The message callback installed on the main handler.  While a guest bind is in
 progress it holds launch and execute transactions; when the bind finishes they
 are pushed back at the front of the main queue, in reverse, so that the oldest
 is first again.
 */
module MessageHold {
  import opened Options
  import opened Sequences

  /** A handler message; payload is the identity of the opaque object it carries. */
  datatype Message = Message(what: int, payload: int, arg1: int, arg2: int)

  /** The two message codes, as resolved when the callback is installed. */
  datatype Codes = Codes(exec: int, launch: int)

  predicate IsTransaction(codes: Codes, m: Message) {
    m.what == codes.exec || m.what == codes.launch
  }

  /** The callback consumes a transaction that arrives between arm and finishBind. */
  predicate Holds(codes: Codes, armed: bool, bound: bool, m: Message) {
    armed && !bound && IsTransaction(codes, m)
  }

  /** The messages of ms that are (or are not) transactions, in order. */
  function Select(codes: Codes, transactions: bool, ms: seq<Message>): seq<Message> {
    if ms == [] then []
    else (if IsTransaction(codes, ms[0]) == transactions then [ms[0]] else []) + Select(codes, transactions, ms[1..])
  }

  lemma {:induction false} SelectConcat(codes: Codes, transactions: bool, a: seq<Message>, b: seq<Message>)
    ensures Select(codes, transactions, a + b) == Select(codes, transactions, a) + Select(codes, transactions, b)
  {
    if a == [] {
      assert a + b == b;
    } else {
      assert (a + b)[1..] == a[1..] + b;
      SelectConcat(codes, transactions, a[1..], b);
    }
  }

  function Reverse(ms: seq<Message>): seq<Message> {
    if ms == [] then [] else Reverse(ms[1..]) + [ms[0]]
  }

  lemma {:induction false} ReverseConcat(a: seq<Message>, b: seq<Message>)
    ensures Reverse(a + b) == Reverse(b) + Reverse(a)
  {
    if a == [] {
      assert a + b == b;
    } else {
      assert (a + b)[1..] == a[1..] + b;
      ReverseConcat(a[1..], b);
    }
  }

  lemma {:induction false} ReverseReverse(ms: seq<Message>)
    ensures Reverse(Reverse(ms)) == ms
  {
    if ms != [] {
      ReverseConcat(Reverse(ms[1..]), [ms[0]]);
      ReverseReverse(ms[1..]);
    }
  }

  /** Send each message to the front of the queue, one after the other. */
  function PushFront(ms: seq<Message>, queue: seq<Message>): seq<Message> {
    if ms == [] then queue else PushFront(ms[1..], [ms[0]] + queue)
  }

  lemma {:induction false} PushFrontReverses(ms: seq<Message>, queue: seq<Message>)
    ensures PushFront(ms, queue) == Reverse(ms) + queue
  {
    if ms == [] {
      assert Reverse(ms) + queue == queue;
    } else {
      PushFrontReverses(ms[1..], [ms[0]] + queue);
    }
  }

  // ---- The callback ----

  /** The main looper's queue. */
  class Handler {
    var queue: seq<Message>

    method SendMessage(m: Message)
      modifies this
      ensures queue == old(queue) + [m]
    {
      queue := queue + [m];
    }

    method SendMessageAtFrontOfQueue(m: Message)
      modifies this
      ensures queue == [m] + old(queue)
    {
      queue := [m] + queue;
    }
  }

  class HCallbackProxy {
    const codes: Codes
    const mh: Handler?
    const prevCallback: Option<Message -> bool>
    var armed: bool
    var bound: bool
    var queued: seq<Message>

    constructor (codes: Codes, mh: Handler?, prevCallback: Option<Message -> bool>)
      ensures this.codes == codes && this.mh == mh && this.prevCallback == prevCallback
      ensures !armed && !bound && queued == []
    {
      this.codes, this.mh, this.prevCallback := codes, mh, prevCallback;
      armed, bound, queued := false, false, [];
    }

    /**
     The handler callback: true when the message was consumed.  A message that is
     not held goes to the callback that was installed before, if there was one.
     */
    method HandleMessage(m: Message) returns (consumed: bool)
      modifies this`queued
      ensures Holds(codes, armed, bound, m) ==> consumed && queued == old(queued) + [m]
      ensures !Holds(codes, armed, bound, m) ==>
                queued == old(queued) && (consumed <==> prevCallback.Some? && prevCallback.value(m))
      ensures armed && !bound && m.what == codes.exec ==> consumed && queued == old(queued) + [m]
      ensures armed && !bound && m.what == codes.launch ==> consumed && queued == old(queued) + [m]
      ensures !armed || bound || (m.what != codes.exec && m.what != codes.launch) ==>
                queued == old(queued) && (consumed <==> prevCallback.Some? && prevCallback.value(m))
    {
      if armed && !bound && (m.what == codes.exec || m.what == codes.launch) {
        queued := queued + [m];
        return true;
      }
      return prevCallback.Some? && prevCallback.value(m);
    }

    method Arm()
      modifies this`armed, this`bound
      ensures armed && !bound
    {
      armed, bound := true, false;
    }

    /**
     Drain the held messages and push them, reversed, at the front of the queue:
     the queue becomes the held messages in their old order, then what was there.
     */
    method FinishBind()
      modifies this`armed, this`bound, this`queued, mh
      ensures !armed && bound && queued == []
      ensures mh != null ==> mh.queue == old(queued) + old(mh.queue)
    {
      armed, bound := false, true;
      var pending: seq<Message> := [];
      while queued != []
        invariant !armed && bound
        invariant pending + queued == old(queued)
        invariant mh != null ==> mh.queue == old(mh.queue)
        decreases |queued|
      {
        pending, queued := pending + [queued[0]], queued[1..];
      }
      assert pending == old(queued);
      pending := Reverse(pending);
      var i := 0;
      while i < |pending|
        invariant 0 <= i <= |pending|
        invariant !armed && bound && queued == []
        invariant mh != null ==> PushFront(pending[i..], mh.queue) == PushFront(pending, old(mh.queue))
      {
        assert pending[i..][1..] == pending[i + 1..];
        if mh != null {
          mh.SendMessageAtFrontOfQueue(pending[i]);
        }
        i := i + 1;
      }
      assert pending[i..] == [];
      if mh != null {
        PushFrontReverses(pending, old(mh.queue));
        ReverseReverse(old(queued));
      }
    }
  }

  // ---- Whole runs ----

  /** A delivered message, with the flags at that moment. */
  datatype Delivery = Delivery(message: Message, armed: bool, bound: bool)

  /** releasing holds what finishBind has drained, reversed, and not yet pushed. */
  datatype State = State(
    armed: bool,
    bound: bool,
    queue: seq<Message>,
    held: seq<Message>,
    releasing: seq<Message>,
    delivered: seq<Delivery>,
    posted: seq<Message>)

  /**
   Any thread may post at any time.  The other steps run on the main thread, so
   nothing is dispatched or armed between the pushes of one finishBind.
   */
  datatype Event = Post(message: Message) | Dispatch | Arm | FinishDrain | FinishPush

  const START := State(false, false, [], [], [], [], [])

  function Next(codes: Codes, s: State, e: Event): State {
    match e
    case Post(m) => s.(queue := s.queue + [m], posted := s.posted + [m])
    case Dispatch =>
      if s.queue == [] || s.releasing != [] then s
      else if Holds(codes, s.armed, s.bound, s.queue[0]) then
        s.(queue := s.queue[1..], held := s.held + [s.queue[0]])
      else
        s.(queue := s.queue[1..], delivered := s.delivered + [Delivery(s.queue[0], s.armed, s.bound)])
    case Arm => if s.releasing != [] then s else s.(armed := true, bound := false)
    case FinishDrain =>
      if s.releasing != [] then s
      else s.(armed := false, bound := true, held := [], releasing := Reverse(s.held))
    case FinishPush =>
      if s.releasing == [] then s
      else s.(queue := [s.releasing[0]] + s.queue, releasing := s.releasing[1..])
  }

  function Run(codes: Codes, s: State, es: seq<Event>): State
    decreases |es|
  {
    if es == [] then s else Run(codes, Next(codes, s, es[0]), es[1..])
  }

  function Messages(ds: seq<Delivery>): seq<Message> {
    seq(|ds|, i requires 0 <= i < |ds| => ds[i].message)
  }

  /** Everything posted, at the place in the order where it now stands. */
  function InFlight(s: State): seq<Message> {
    Messages(s.delivered) + s.held + Reverse(s.releasing) + s.queue
  }

  ghost predicate AllTransactions(codes: Codes, ms: seq<Message>) {
    forall i :: 0 <= i < |ms| ==> IsTransaction(codes, ms[i])
  }

  /** a and b hold the same transactions in the same order, and the same other messages in the same order. */
  ghost predicate SameOrders(codes: Codes, a: seq<Message>, b: seq<Message>) {
    forall t: bool :: Select(codes, t, a) == Select(codes, t, b)
  }

  /** Only transactions are held, and only during a bind; none was delivered during one. */
  ghost predicate HoldsInBind(codes: Codes, s: State) {
    && (s.held != [] ==> s.armed && !s.bound && s.releasing == [])
    && AllTransactions(codes, s.held) && AllTransactions(codes, s.releasing)
    && (forall i :: 0 <= i < |s.delivered| && s.delivered[i].armed && !s.delivered[i].bound ==>
                      !IsTransaction(codes, s.delivered[i].message))
  }

  ghost predicate Inv(codes: Codes, s: State) {
    HoldsInBind(codes, s) && SameOrders(codes, InFlight(s), s.posted)
  }

  // ---- Facts about the order of messages ----

  lemma {:induction false} SelectOfTransactions(codes: Codes, ms: seq<Message>)
    requires AllTransactions(codes, ms)
    ensures Select(codes, true, ms) == ms && Select(codes, false, ms) == []
  {
    if ms != [] {
      SelectOfTransactions(codes, ms[1..]);
    }
  }

  lemma {:induction false} ReverseContents(codes: Codes, ms: seq<Message>)
    ensures multiset(Reverse(ms)) == multiset(ms)
    ensures AllTransactions(codes, ms) ==> AllTransactions(codes, Reverse(ms))
  {
    if ms != [] {
      ReverseContents(codes, ms[1..]);
      assert ms == [ms[0]] + ms[1..];
    }
  }

  lemma {:induction false} SelectPartitions(codes: Codes, ms: seq<Message>)
    ensures multiset(ms) == multiset(Select(codes, true, ms)) + multiset(Select(codes, false, ms))
  {
    if ms != [] {
      SelectPartitions(codes, ms[1..]);
      assert ms == [ms[0]] + ms[1..];
    }
  }

  lemma {:induction false} SameOrdersAppend(codes: Codes, a: seq<Message>, b: seq<Message>, m: Message)
    requires SameOrders(codes, a, b)
    ensures SameOrders(codes, a + [m], b + [m])
  {
    forall t: bool
      ensures Select(codes, t, a + [m]) == Select(codes, t, b + [m])
    {
      SelectConcat(codes, t, a, [m]);
      SelectConcat(codes, t, b, [m]);
    }
  }

  /** Moving one ordinary message in front of transactions changes neither order. */
  lemma {:induction false} SameOrdersSwap(codes: Codes, a: seq<Message>, held: seq<Message>, x: Message, c: seq<Message>)
    requires AllTransactions(codes, held) && !IsTransaction(codes, x)
    ensures SameOrders(codes, a + ([x] + held) + c, a + (held + [x]) + c)
  {
    forall t: bool
      ensures Select(codes, t, a + ([x] + held) + c) == Select(codes, t, a + (held + [x]) + c)
    {
      SelectConcat(codes, t, a + ([x] + held), c);
      SelectConcat(codes, t, a, [x] + held);
      SelectConcat(codes, t, a + (held + [x]), c);
      SelectConcat(codes, t, a, held + [x]);
      SelectSwapped(codes, t, held, x);
    }
  }

  lemma {:induction false} SelectSwapped(codes: Codes, t: bool, held: seq<Message>, x: Message)
    requires AllTransactions(codes, held) && !IsTransaction(codes, x)
    ensures Select(codes, t, [x] + held) == Select(codes, t, held + [x])
  {
    SelectOfTransactions(codes, held);
    SelectConcat(codes, t, [x], held);
    SelectConcat(codes, t, held, [x]);
    assert Select(codes, t, [x]) == if t then [] else [x];
  }

  // ---- What one step does to the messages in flight ----

  /** Dispatching an ordinary message while transactions are held lets it overtake them. */
  predicate Overtakes(codes: Codes, s: State, e: Event) {
    e.Dispatch? && s.queue != [] && s.releasing == [] && s.held != [] && !IsTransaction(codes, s.queue[0])
  }

  lemma {:induction false} InFlightAfterPost(codes: Codes, s: State, m: Message)
    ensures InFlight(Next(codes, s, Post(m))) == InFlight(s) + [m]
  {
  }

  lemma {:induction false} InFlightAtRest(s: State)
    requires s.releasing == []
    ensures InFlight(s) == Messages(s.delivered) + s.held + s.queue
  {
  }

  lemma {:induction false} InFlightAfterDispatch(codes: Codes, s: State)
    requires HoldsInBind(codes, s) && !Overtakes(codes, s, Dispatch)
    ensures InFlight(Next(codes, s, Dispatch)) == InFlight(s)
  {
  }

  lemma {:induction false} InFlightAfterFinish(codes: Codes, s: State, e: Event)
    requires HoldsInBind(codes, s)
    requires e == FinishDrain || e == FinishPush
    ensures InFlight(Next(codes, s, e)) == InFlight(s)
  {
    var s' := Next(codes, s, e);
    if e == FinishDrain {
      if s.releasing == [] {
        InFlightAtRest(s);
        ReverseReverse(s.held);
        assert s'.held == [] && s'.queue == s.queue && s'.delivered == s.delivered;
      }
    } else if s.releasing != [] {
      assert Reverse(s.releasing) + s.queue == Reverse(s'.releasing) + s'.queue;
    }
  }

  lemma {:induction false} InFlightAfterOvertaking(codes: Codes, s: State)
    requires Overtakes(codes, s, Dispatch)
    ensures InFlight(s) == Messages(s.delivered) + (s.held + [s.queue[0]]) + s.queue[1..]
    ensures InFlight(Next(codes, s, Dispatch)) == Messages(s.delivered) + ([s.queue[0]] + s.held) + s.queue[1..]
  {
  }

  /** Apart from posts and overtaking, a step moves messages about without changing their order. */
  lemma {:induction false} InFlightUnchanged(codes: Codes, s: State, e: Event)
    requires HoldsInBind(codes, s) && !e.Post? && !Overtakes(codes, s, e)
    ensures InFlight(Next(codes, s, e)) == InFlight(s)
  {
    match e
    case Dispatch => InFlightAfterDispatch(codes, s);
    case FinishDrain => InFlightAfterFinish(codes, s, e);
    case FinishPush => InFlightAfterFinish(codes, s, e);
    case Arm =>
  }

  // ---- Whole runs keep the invariant ----

  lemma {:induction false} HoldsInBindNext(codes: Codes, s: State, e: Event)
    requires HoldsInBind(codes, s)
    ensures HoldsInBind(codes, Next(codes, s, e))
  {
    ReverseContents(codes, s.held);
  }

  lemma {:induction false} InvNext(codes: Codes, s: State, e: Event)
    requires Inv(codes, s)
    ensures Inv(codes, Next(codes, s, e))
  {
    HoldsInBindNext(codes, s, e);
    if e.Post? {
      InFlightAfterPost(codes, s, e.message);
      SameOrdersAppend(codes, InFlight(s), s.posted, e.message);
    } else if Overtakes(codes, s, e) {
      InFlightAfterOvertaking(codes, s);
      SameOrdersSwap(codes, Messages(s.delivered), s.held, s.queue[0], s.queue[1..]);
    } else {
      InFlightUnchanged(codes, s, e);
    }
  }

  lemma {:induction false} RunKeepsInv(codes: Codes, s: State, es: seq<Event>)
    requires Inv(codes, s)
    ensures Inv(codes, Run(codes, s, es))
    decreases |es|
  {
    if es != [] {
      InvNext(codes, s, es[0]);
      RunKeepsInv(codes, Next(codes, s, es[0]), es[1..]);
    }
  }

  lemma {:induction false} SelectInFlight(codes: Codes, s: State, t: bool)
    requires HoldsInBind(codes, s)
    ensures Select(codes, t, InFlight(s))
         == Select(codes, t, Messages(s.delivered)) + (if t then s.held + Reverse(s.releasing) else [])
            + Select(codes, t, s.queue)
  {
    var d, r := Messages(s.delivered), Reverse(s.releasing);
    ReverseContents(codes, s.releasing);
    assert AllTransactions(codes, s.held + r);
    SelectOfTransactions(codes, s.held + r);
    Regroup(d, s.held, r);
    SelectConcat(codes, t, d + (s.held + r), s.queue);
    SelectConcat(codes, t, d, s.held + r);
  }

  /**
   In every run from the start: the transactions delivered, then held, then
   being released, then queued are exactly the transactions posted, in posting
   order; the other messages are delivered in posting order too; and no
   transaction was delivered while armed and unbound.
   */
  lemma {:induction false} RunDeliversInOrder(codes: Codes, es: seq<Event>)
    ensures var s := Run(codes, START, es);
            && Select(codes, true, Messages(s.delivered)) + (s.held + Reverse(s.releasing)) + Select(codes, true, s.queue)
               == Select(codes, true, s.posted)
            && Select(codes, false, Messages(s.delivered)) + Select(codes, false, s.queue)
               == Select(codes, false, s.posted)
            && (forall i :: 0 <= i < |s.delivered| && IsTransaction(codes, s.delivered[i].message) ==>
                              !s.delivered[i].armed || s.delivered[i].bound)
  {
    RunKeepsInv(codes, START, es);
    var s := Run(codes, START, es);
    SelectInFlight(codes, s, true);
    SelectInFlight(codes, s, false);
    var d := Select(codes, false, Messages(s.delivered));
    assert d + [] == d;
  }

  /** By name: neither an execute nor a launch message is ever delivered while armed and unbound, and nothing else is ever held. */
  lemma {:induction false} RunHoldsBothCodes(codes: Codes, es: seq<Event>)
    ensures var s := Run(codes, START, es);
            && (forall i :: 0 <= i < |s.delivered| && s.delivered[i].armed && !s.delivered[i].bound ==>
                              s.delivered[i].message.what != codes.exec && s.delivered[i].message.what != codes.launch)
            && (forall i :: 0 <= i < |s.held| ==> s.held[i].what == codes.exec || s.held[i].what == codes.launch)
  {
    RunKeepsInv(codes, START, es);
  }

  /** The other steps, by name. */
  lemma {:induction false} OtherSteps(codes: Codes, s: State, m: Message)
    ensures Next(codes, s, Post(m)) == State(s.armed, s.bound, s.queue + [m], s.held, s.releasing, s.delivered, s.posted + [m])
    ensures s.releasing == [] ==>
              && Next(codes, s, Arm) == State(true, false, s.queue, s.held, [], s.delivered, s.posted)
              && Next(codes, s, FinishDrain) == State(false, true, s.queue, [], Reverse(s.held), s.delivered, s.posted)
    ensures s.releasing != [] ==>
              Next(codes, s, FinishPush)
              == State(s.armed, s.bound, [s.releasing[0]] + s.queue, s.held, s.releasing[1..], s.delivered, s.posted)
  {
  }

  /** One dispatch, by name: the head of the queue is held, or delivered with the flags of that moment. */
  lemma {:induction false} DispatchIs(codes: Codes, s: State)
    requires s.queue != [] && s.releasing == []
    ensures var m, s' := s.queue[0], Next(codes, s, Dispatch);
            && s'.queue == s.queue[1..] && s'.armed == s.armed && s'.bound == s.bound && s'.posted == s.posted
            && (if s.armed && !s.bound && (m.what == codes.exec || m.what == codes.launch)
                then s'.held == s.held + [m] && s'.delivered == s.delivered
                else s'.held == s.held && s'.delivered == s.delivered + [Delivery(m, s.armed, s.bound)])
  {
  }

  /** Outside a bind nothing is kept back: as many dispatches as there are messages deliver them all, in order. */
  lemma {:induction false} DispatchesDeliverAll(codes: Codes, s: State)
    requires s.releasing == [] && (!s.armed || s.bound)
    ensures var s' := Run(codes, s, seq(|s.queue|, i => Dispatch));
            s'.queue == [] && Messages(s'.delivered) == Messages(s.delivered) + s.queue
    decreases |s.queue|
  {
    var es := seq(|s.queue|, i => Dispatch);
    if s.queue == [] {
      assert Messages(s.delivered) + s.queue == Messages(s.delivered);
    } else {
      var s1 := Next(codes, s, Dispatch);
      assert es[1..] == seq(|s1.queue|, i => Dispatch);
      DispatchesDeliverAll(codes, s1);
      assert Messages(s1.delivered) == Messages(s.delivered) + [s.queue[0]];
      Regroup(Messages(s.delivered), [s.queue[0]], s1.queue);
      assert [s.queue[0]] + s1.queue == s.queue;
    }
  }

  /** No message is lost or duplicated: each is delivered, held, being released or queued, as often as it was posted. */
  lemma {:induction false} RunLosesNothing(codes: Codes, es: seq<Event>)
    ensures var s := Run(codes, START, es);
            multiset(Messages(s.delivered)) + multiset(s.held) + multiset(s.releasing) + multiset(s.queue)
            == multiset(s.posted)
  {
    RunKeepsInv(codes, START, es);
    var s := Run(codes, START, es);
    SelectPartitions(codes, InFlight(s));
    SelectPartitions(codes, s.posted);
    assert Select(codes, true, InFlight(s)) == Select(codes, true, s.posted);
    ReverseContents(codes, s.releasing);
  }

  /** Nothing stays behind: once the queue is empty and no bind is in progress, every message was delivered in order. */
  lemma {:induction false} QuiescentRunDeliveredAll(codes: Codes, es: seq<Event>)
    ensures var s := Run(codes, START, es);
            s.queue == [] && s.releasing == [] && !(s.armed && !s.bound) ==>
              SameOrders(codes, Messages(s.delivered), s.posted)
  {
    RunKeepsInv(codes, START, es);
    var s := Run(codes, START, es);
    if s.queue == [] && s.releasing == [] && !(s.armed && !s.bound) {
      InFlightAtRest(s);
      assert InFlight(s) == Messages(s.delivered);
    }
  }

  /**
   The order of all messages together is kept by a step exactly when it does not
   dispatch an ordinary message past held transactions.
   */
  lemma {:induction false} TotalOrderKeptIff(codes: Codes, s: State, e: Event)
    requires HoldsInBind(codes, s) && InFlight(s) == s.posted
    ensures var s' := Next(codes, s, e);
            InFlight(s') == s'.posted <==> !Overtakes(codes, s, e)
  {
    var s' := Next(codes, s, e);
    if e.Post? {
      InFlightAfterPost(codes, s, e.message);
    } else if Overtakes(codes, s, e) {
      InFlightAfterOvertaking(codes, s);
      var n := |s.delivered|;
      assert InFlight(s)[n] == s.held[0];
      assert InFlight(s')[n] == s.queue[0];
    } else {
      InFlightUnchanged(codes, s, e);
    }
  }

  /** No step of the run lets an ordinary message overtake held transactions. */
  predicate NeverOvertakes(codes: Codes, s: State, es: seq<Event>)
    decreases |es|
  {
    es == [] || (!Overtakes(codes, s, es[0]) && NeverOvertakes(codes, Next(codes, s, es[0]), es[1..]))
  }

  /** The n-th message delivered is not the n-th posted. */
  ghost predicate DisorderAt(s: State, n: nat) {
    n < |s.delivered| && n < |s.posted| && s.delivered[n].message != s.posted[n]
  }

  lemma {:induction false} OvertakingDisorders(codes: Codes, s: State)
    requires HoldsInBind(codes, s) && InFlight(s) == s.posted && Overtakes(codes, s, Dispatch)
    ensures DisorderAt(Next(codes, s, Dispatch), |s.delivered|)
  {
    InFlightAfterOvertaking(codes, s);
    assert InFlight(s)[|s.delivered|] == s.held[0];
  }

  /** What was delivered and posted stays as it is. */
  lemma {:induction false} DisorderRemains(codes: Codes, s: State, es: seq<Event>, n: nat)
    requires DisorderAt(s, n)
    ensures DisorderAt(Run(codes, s, es), n)
    decreases |es|
  {
    if es != [] {
      DisorderRemains(codes, Next(codes, s, es[0]), es[1..], n);
    }
  }

  lemma {:induction false} DisorderShows(s: State, n: nat)
    requires DisorderAt(s, n)
    ensures InFlight(s) != s.posted
  {
    assert InFlight(s)[n] == s.delivered[n].message;
  }

  /**
   In a run all messages together stay in posting order, delivered, held, being
   released and queued, exactly when no step of it dispatches an ordinary
   message past held transactions.
   */
  lemma {:induction false} RunKeepsTotalOrderIff(codes: Codes, s: State, es: seq<Event>)
    requires HoldsInBind(codes, s) && InFlight(s) == s.posted
    ensures InFlight(Run(codes, s, es)) == Run(codes, s, es).posted <==> NeverOvertakes(codes, s, es)
    decreases |es|
  {
    if es != [] {
      var s' := Next(codes, s, es[0]);
      if Overtakes(codes, s, es[0]) {
        OvertakingDisorders(codes, s);
        DisorderRemains(codes, s', es[1..], |s.delivered|);
        DisorderShows(Run(codes, s, es), |s.delivered|);
      } else {
        TotalOrderKeptIff(codes, s, es[0]);
        HoldsInBindNext(codes, s, es[0]);
        RunKeepsTotalOrderIff(codes, s', es[1..]);
      }
    }
  }

  lemma {:induction false} PushesComplete(codes: Codes, s: State)
    ensures var s' := Run(codes, s, seq(|s.releasing|, i => FinishPush));
            s' == s.(queue := PushFront(s.releasing, s.queue), releasing := [])
    decreases |s.releasing|
  {
    var es := seq(|s.releasing|, i => FinishPush);
    if s.releasing != [] {
      var s1 := Next(codes, s, FinishPush);
      assert es[1..] == seq(|s1.releasing|, i => FinishPush);
      PushesComplete(codes, s1);
    }
  }

  /** One finishBind, run to the end without a post in between, does to the queue what the method above does. */
  lemma {:induction false} FinishBindAsSteps(codes: Codes, s: State)
    requires s.releasing == []
    ensures Run(codes, s, [FinishDrain] + seq(|s.held|, i => FinishPush))
         == s.(armed := false, bound := true, queue := s.held + s.queue, held := [])
  {
    var s1 := Next(codes, s, FinishDrain);
    var es := [FinishDrain] + seq(|s.held|, i => FinishPush);
    ReverseContents(codes, s.held);
    assert |s1.releasing| == |s.held| by {
      assert |multiset(Reverse(s.held))| == |multiset(s.held)|;
    }
    assert es[1..] == seq(|s1.releasing|, i => FinishPush);
    PushesComplete(codes, s1);
    PushFrontReverses(s1.releasing, s.queue);
    ReverseReverse(s.held);
  }
}
