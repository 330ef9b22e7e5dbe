/** Deferred logging: other threads store messages, the log thread delivers them
    (src/logging/logging.c). */
module LogQueue {
  import opened Options

  datatype Message = Message(domain: Option<string>, level: int, text: string)

  /** A handler is limited to one domain, or open to all. */
  datatype Handler = Handler(domain: Option<string>)

  /** The test of direct output; a flush does not make it. */
  predicate Matches(handler: Handler, m: Message) {
    handler.domain.None? || m.domain.None? || handler.domain == m.domain
  }

  /** What a handler has been called with. A direct message remembers how many messages had been
      accepted when the flush before it took the stored ones. */
  datatype Output = Deferred(message: Message) | Direct(message: Message, taken: nat)

  function DeferredOf(out: seq<Output>): seq<Message> {
    if out == [] then []
    else
      var last := out[|out| - 1];
      DeferredOf(out[..|out| - 1]) + if last.Deferred? then [last.message] else []
  }

  function DirectOf(out: seq<Output>): seq<Message> {
    if out == [] then []
    else
      var last := out[|out| - 1];
      DirectOf(out[..|out| - 1]) + if last.Direct? then [last.message] else []
  }

  function MatchingOf(handler: Handler, ms: seq<Message>): seq<Message> {
    if ms == [] then []
    else
      var last := ms[|ms| - 1];
      MatchingOf(handler, ms[..|ms| - 1]) + if Matches(handler, last) then [last] else []
  }

  lemma DirectSnoc(out: seq<Output>, o: Output)
    ensures DirectOf(out + [o]) == DirectOf(out) + if o.Direct? then [o.message] else []
  {
    assert (out + [o])[..|out|] == out;
  }

  lemma MatchingSnoc(handler: Handler, ms: seq<Message>, m: Message)
    ensures MatchingOf(handler, ms + [m]) == MatchingOf(handler, ms) + if Matches(handler, m) then [m] else []
  {
    assert (ms + [m])[..|ms|] == ms;
  }

  lemma DeferredSnoc(out: seq<Output>, o: Output)
    ensures DeferredOf(out + [o]) == DeferredOf(out) + if o.Deferred? then [o.message] else []
  {
    assert (out + [o])[..|out|] == out;
  }

  datatype Own = NoOwn | Own(message: Message, taken: nat)

  /** Where the log thread is: outside, delivering a batch whose first message has reached the first
      `next` handlers, or printing its own message. */
  datatype LogThread =
    | Idle
    | Flushing(batch: seq<Message>, next: nat, own: Own)
    | Printing(message: Message, taken: nat, next: nat)

  /** accepted and logged are histories: the messages stored so far and the log thread's own ones. */
  datatype State = State(stored: seq<Message>, thread: LogThread, outs: seq<seq<Output>>,
                         accepted: seq<Message>, logged: seq<Message>)

  /** One critical section or one handler call. */
  datatype Event =
    | Store(message: Message)            // another thread, under the mutex
    | Take                               // the log thread starts a flush
    | TakeThenLog(message: Message)      // the log thread logs a message of its own: flush first
    | Step                               // the log thread goes on

  predicate Enabled(s: State, e: Event) {
    match e
    case Store(_) => true
    case Take => s.thread.Idle?
    case TakeThenLog(_) => s.thread.Idle?
    case Step => !s.thread.Idle?
  }

  function Call(outs: seq<seq<Output>>, h: nat, o: Output): seq<seq<Output>>
    requires h < |outs|
  {
    outs[h := outs[h] + [o]]
  }

  function Next(handlers: seq<Handler>, s: State, e: Event): (s': State)
    requires Enabled(s, e) && |s.outs| == |handlers|
    ensures |s'.outs| == |handlers|
  {
    match e
    case Store(m) => s.(stored := s.stored + [m], accepted := s.accepted + [m])
    case Take => s.(stored := [], thread := Flushing(s.stored, 0, NoOwn))
    case TakeThenLog(m) =>
      s.(stored := [], thread := Flushing(s.stored, 0, Own(m, |s.accepted|)), logged := s.logged + [m])
    case Step =>
      match s.thread
      case Flushing(batch, h, own) =>
        if batch == [] then
          (if own.NoOwn? then s.(thread := Idle) else s.(thread := Printing(own.message, own.taken, 0)))
        else if h < |handlers| then
          s.(outs := Call(s.outs, h, Deferred(batch[0])), thread := Flushing(batch, h + 1, own))
        else s.(thread := Flushing(batch[1..], 0, own))
      case Printing(m, n, h) =>
        if h < |handlers| then
          s.(outs := if Matches(handlers[h], m) then Call(s.outs, h, Direct(m, n)) else s.outs,
             thread := Printing(m, n, h + 1))
        else s.(thread := Idle)
  }

  /** The messages taken by the current flush that handler h has not had yet. */
  function InFlight(t: LogThread, h: nat): seq<Message> {
    if !t.Flushing? then []
    else if t.batch != [] && h < t.next then t.batch[1..]
    else t.batch
  }

  /** For one handler: nothing lost, duplicated or reordered between acceptance and delivery. */
  predicate Conserved(s: State, h: nat)
    requires h < |s.outs|
  {
    DeferredOf(s.outs[h]) + InFlight(s.thread, h) + s.stored == s.accepted
  }

  /** A direct message stands right behind exactly the messages accepted when its flush started. */
  predicate OwnInPlace(out: seq<Output>, accepted: seq<Message>) {
    forall p :: 0 <= p < |out| && out[p].Direct? ==>
      out[p].taken <= |accepted| && DeferredOf(out[..p]) == accepted[..out[p].taken]
  }

  /** What the log thread still owes its own message. */
  predicate OwnPending(s: State, h: nat)
    requires h < |s.outs|
  {
    match s.thread
    case Idle => true
    case Flushing(batch, _, own) =>
      own.Own? ==>
        && own.taken <= |s.accepted|
        && DeferredOf(s.outs[h]) + InFlight(s.thread, h) == s.accepted[..own.taken]
    case Printing(_, n, _) => n <= |s.accepted| && DeferredOf(s.outs[h]) == s.accepted[..n]
  }

  /** The log thread's own message, as long as handler h is still to be considered for it. */
  function OwnInFlight(handler: Handler, t: LogThread, h: nat): seq<Message> {
    match t
    case Idle => []
    case Flushing(_, _, own) => if own.Own? && Matches(handler, own.message) then [own.message] else []
    case Printing(m, _, k) => if h >= k && Matches(handler, m) then [m] else []
  }

  /** Own messages go once, in order, to the handlers whose domain they match. */
  predicate OwnConserved(handler: Handler, s: State, h: nat)
    requires h < |s.outs|
  {
    DirectOf(s.outs[h]) + OwnInFlight(handler, s.thread, h) == MatchingOf(handler, s.logged)
  }

  predicate HandlerInv(handlers: seq<Handler>, s: State, h: nat)
    requires h < |s.outs| == |handlers|
  {
    Conserved(s, h) && OwnInPlace(s.outs[h], s.accepted) && OwnPending(s, h) && OwnConserved(handlers[h], s, h)
  }

  predicate Inv(handlers: seq<Handler>, s: State) {
    && |s.outs| == |handlers|
    && (s.thread.Flushing? ==> s.thread.next <= |handlers| && (s.thread.batch == [] ==> s.thread.next == 0))
    && (s.thread.Printing? ==> s.thread.next <= |handlers|)
    && forall h :: 0 <= h < |s.outs| ==> HandlerInv(handlers, s, h)
  }

  function Initial(handlers: seq<Handler>): (s: State)
    ensures Inv(handlers, s)
  {
    State([], Idle, seq(|handlers|, _ => []), [], [])
  }

  lemma OwnInPlaceGrows(out: seq<Output>, accepted: seq<Message>, m: Message)
    requires OwnInPlace(out, accepted)
    ensures OwnInPlace(out, accepted + [m])
  {
    forall p | 0 <= p < |out| && out[p].Direct?
      ensures DeferredOf(out[..p]) == (accepted + [m])[..out[p].taken] {
      assert (accepted + [m])[..out[p].taken] == accepted[..out[p].taken];
    }
  }

  lemma OwnInPlaceSnoc(out: seq<Output>, accepted: seq<Message>, o: Output)
    requires OwnInPlace(out, accepted)
    requires o.Direct? ==> o.taken <= |accepted| && DeferredOf(out) == accepted[..o.taken]
    ensures OwnInPlace(out + [o], accepted)
  {
    var r := out + [o];
    forall p | 0 <= p < |r| && r[p].Direct?
      ensures r[p].taken <= |accepted| && DeferredOf(r[..p]) == accepted[..r[p].taken] {
      if p < |out| {
        assert r[..p] == out[..p];
      } else {
        assert r[..p] == out;
      }
    }
  }

  lemma StoreKeeps(handlers: seq<Handler>, s: State, m: Message, h: nat)
    requires Inv(handlers, s) && h < |handlers|
    ensures HandlerInv(handlers, Next(handlers, s, Store(m)), h)
  {
    hide DeferredOf, DirectOf, MatchingOf, Matches, OwnInPlace;
    assert HandlerInv(handlers, s, h);
    var s' := Next(handlers, s, Store(m));
    OwnInPlaceGrows(s.outs[h], s.accepted, m);
    var d := DeferredOf(s.outs[h]) + InFlight(s.thread, h);
    assert d + (s.stored + [m]) == (d + s.stored) + [m];
    assert forall n :: 0 <= n <= |s.accepted| ==> s'.accepted[..n] == s.accepted[..n];
  }

  lemma TakeKeeps(handlers: seq<Handler>, s: State, e: Event, h: nat)
    requires Inv(handlers, s) && h < |handlers| && s.thread.Idle? && (e.Take? || e.TakeThenLog?)
    ensures HandlerInv(handlers, Next(handlers, s, e), h)
  {
    hide DeferredOf, DirectOf, MatchingOf, Matches, OwnInPlace;
    assert HandlerInv(handlers, s, h);
    var d := DeferredOf(s.outs[h]);
    assert d + [] + s.stored == d + s.stored + [] == d + s.stored;
    assert s.accepted[..|s.accepted|] == s.accepted;
    var a := DirectOf(s.outs[h]);
    assert a + [] == a;
    if e.TakeThenLog? {
      MatchingSnoc(handlers[h], s.logged, e.message);
    }
  }

  lemma DeliverKeeps(handlers: seq<Handler>, s: State, h: nat)
    requires Inv(handlers, s) && h < |handlers| && s.thread.Flushing?
    ensures HandlerInv(handlers, Next(handlers, s, Step), h)
  {
    hide DeferredOf, DirectOf, MatchingOf, Matches, OwnInPlace;
    assert HandlerInv(handlers, s, h);
    var s' := Next(handlers, s, Step);
    var batch, k := s.thread.batch, s.thread.next;
    if batch == [] {
      assert DeferredOf(s.outs[h]) + [] == DeferredOf(s.outs[h]);
    } else if k < |handlers| && h == k {
      var o := Deferred(batch[0]);
      DeferredSnoc(s.outs[h], o);
      DirectSnoc(s.outs[h], o);
      OwnInPlaceSnoc(s.outs[h], s.accepted, o);
      assert DirectOf(s.outs[h]) + [] == DirectOf(s.outs[h]);
      assert (DeferredOf(s.outs[h]) + [batch[0]]) + batch[1..] == DeferredOf(s.outs[h]) + batch;
      assert DeferredOf(s'.outs[h]) + InFlight(s'.thread, h) == DeferredOf(s.outs[h]) + InFlight(s.thread, h);
    } else {
      assert InFlight(s'.thread, h) == InFlight(s.thread, h);
    }
  }

  lemma PrintKeeps(handlers: seq<Handler>, s: State, h: nat)
    requires Inv(handlers, s) && h < |handlers| && s.thread.Printing?
    ensures HandlerInv(handlers, Next(handlers, s, Step), h)
  {
    hide DeferredOf, DirectOf, MatchingOf, Matches, OwnInPlace;
    assert HandlerInv(handlers, s, h);
    var k := s.thread.next;
    if k < |handlers| && h == k {
      var o := Direct(s.thread.message, s.thread.taken);
      DeferredSnoc(s.outs[h], o);
      DirectSnoc(s.outs[h], o);
      OwnInPlaceSnoc(s.outs[h], s.accepted, o);
      assert DeferredOf(s.outs[h]) + [] == DeferredOf(s.outs[h]);
      assert DirectOf(s.outs[h]) + [] == DirectOf(s.outs[h]);
    }
  }

  /** Every step keeps the invariant. */
  lemma StepKeepsInv(handlers: seq<Handler>, s: State, e: Event)
    requires Inv(handlers, s) && Enabled(s, e)
    ensures Inv(handlers, Next(handlers, s, e))
  {
    hide HandlerInv;
    var s' := Next(handlers, s, e);
    forall h | 0 <= h < |s'.outs| ensures HandlerInv(handlers, s', h) {
      match e
      case Store(m) => StoreKeeps(handlers, s, m, h);
      case Take => TakeKeeps(handlers, s, e, h);
      case TakeThenLog(_) => TakeKeeps(handlers, s, e, h);
      case Step => if s.thread.Flushing? { DeliverKeeps(handlers, s, h); } else { PrintKeeps(handlers, s, h); }
    }
  }

  /** s leads to s' by the given interleaving of storing threads and the log thread. */
  predicate Leads(handlers: seq<Handler>, s: State, es: seq<Event>, s': State)
    requires |s.outs| == |handlers|
    decreases es
  {
    if es == [] then s == s'
    else Enabled(s, es[0]) && Leads(handlers, Next(handlers, s, es[0]), es[1..], s')
  }

  lemma {:induction false} RunKeepsInv(handlers: seq<Handler>, s: State, es: seq<Event>, s': State)
    requires Inv(handlers, s) && Leads(handlers, s, es, s')
    ensures Inv(handlers, s')
    decreases es
  {
    hide Inv, Next, Enabled;
    if es != [] {
      InvShape(handlers, s);
      StepKeepsInv(handlers, s, es[0]);
      RunKeepsInv(handlers, Next(handlers, s, es[0]), es[1..], s');
    }
  }

  lemma InvShape(handlers: seq<Handler>, s: State)
    requires Inv(handlers, s)
    ensures |s.outs| == |handlers|
  {
  }

  /** FIFO and exactly once, for every interleaving: accepted == delivered ++ in flight ++ stored. */
  lemma DeferredFifo(handlers: seq<Handler>, es: seq<Event>, s: State, h: nat)
    requires Leads(handlers, Initial(handlers), es, s) && h < |handlers|
    ensures |s.outs| == |handlers|
    ensures DeferredOf(s.outs[h]) + InFlight(s.thread, h) + s.stored == s.accepted
  {
    RunKeepsInv(handlers, Initial(handlers), es, s);
    assert HandlerInv(handlers, s, h);
  }

  /** A message of the log thread follows all that was accepted before its flush took the list, and
      precedes every other deferred message. */
  lemma OwnAfterItsFlush(handlers: seq<Handler>, es: seq<Event>, s: State, h: nat, p: nat)
    requires Leads(handlers, Initial(handlers), es, s) && h < |handlers| && |s.outs| == |handlers|
    requires p < |s.outs[h]| && s.outs[h][p].Direct?
    ensures s.outs[h][p].taken <= |s.accepted|
    ensures DeferredOf(s.outs[h][..p]) == s.accepted[..s.outs[h][p].taken]
  {
    RunKeepsInv(handlers, Initial(handlers), es, s);
    assert HandlerInv(handlers, s, h);
  }

  /** Own messages reach exactly the matching handlers, once each. */
  lemma OwnExactlyOnce(handlers: seq<Handler>, es: seq<Event>, s: State, h: nat)
    requires Leads(handlers, Initial(handlers), es, s) && h < |handlers|
    ensures |s.outs| == |handlers|
    ensures DirectOf(s.outs[h]) + OwnInFlight(handlers[h], s.thread, h) == MatchingOf(handlers[h], s.logged)
  {
    RunKeepsInv(handlers, Initial(handlers), es, s);
    assert HandlerInv(handlers, s, h);
  }

  lemma {:induction false} MatchingAll(handler: Handler, ms: seq<Message>)
    ensures |MatchingOf(handler, ms)| <= |ms|
    ensures MatchingOf(handler, ms) == ms <==> forall i :: 0 <= i < |ms| ==> Matches(handler, ms[i])
  {
    hide Matches;
    if ms != [] {
      var n := |ms| - 1;
      MatchingAll(handler, ms[..n]);
      assert ms == ms[..n] + [ms[n]];
      if MatchingOf(handler, ms) == ms {
        assert Matches(handler, ms[n]);
        assert MatchingOf(handler, ms[..n]) == MatchingOf(handler, ms)[..n] == ms[..n];
        assert forall i :: 0 <= i < n ==> ms[i] == ms[..n][i];
      }
    }
  }

  /** At any moment a handler has been given only messages of its domain by flushes, which is what direct
      output would have given it, exactly when all that has been flushed to it matches. */
  lemma FlushedInDomain(handlers: seq<Handler>, es: seq<Event>, s: State, h: nat)
    requires Leads(handlers, Initial(handlers), es, s) && h < |handlers|
    ensures |s.outs| == |handlers| && |DeferredOf(s.outs[h])| <= |s.accepted|
    ensures var k := |DeferredOf(s.outs[h])|;
            DeferredOf(s.outs[h]) == MatchingOf(handlers[h], s.accepted[..k])
            <==> forall i :: 0 <= i < k ==> Matches(handlers[h], s.accepted[i])
  {
    DeferredFifo(handlers, es, s, h);
    hide Leads, Matches;
    var d := DeferredOf(s.outs[h]);
    assert s.accepted == d + (InFlight(s.thread, h) + s.stored);
    assert s.accepted[..|d|] == d;
    MatchingAll(handlers[h], d);
  }

  /** Once everything is flushed, a handler limited to a domain has been given only messages of that domain
      if and only if no message of another domain has been stored. */
  lemma DomainRespected(handlers: seq<Handler>, es: seq<Event>, s: State, h: nat)
    requires Leads(handlers, Initial(handlers), es, s) && h < |handlers|
    requires s.thread.Idle? && s.stored == []
    ensures |s.outs| == |handlers|
    ensures DeferredOf(s.outs[h]) == MatchingOf(handlers[h], s.accepted)
            <==> forall i :: 0 <= i < |s.accepted| ==> Matches(handlers[h], s.accepted[i])
  {
    DeferredFifo(handlers, es, s, h);
    hide Leads, Matches;
    assert DeferredOf(s.outs[h]) + [] + [] == DeferredOf(s.outs[h]);
    MatchingAll(handlers[h], s.accepted);
  }

  /** A stored message reaches a handler at the next flush whatever their domains. */
  lemma FlushSkipsDomainFilter(handler: Handler, m: Message) returns (s: State)
    ensures Leads([handler], Initial([handler]), [Store(m), Take, Step, Step, Step], s)
    ensures s.thread.Idle? && s.outs == [[Deferred(m)]]
  {
    var hs, s0 := [handler], Initial([handler]);
    var s1 := Next(hs, s0, Store(m));
    var s2 := Next(hs, s1, Take);
    var s3 := Next(hs, s2, Step);
    assert s3.outs[0] == [] + [Deferred(m)] == [Deferred(m)];
    var s4 := Next(hs, s3, Step);
    s := Next(hs, s4, Step);
    TailOf(Step, []);
    TailOf(Step, [Step]);
    TailOf(Take, [Step, Step, Step]);
    TailOf(Store(m), [Take, Step, Step, Step]);
    assert Leads(hs, s4, [Step], s) && Leads(hs, s3, [Step, Step], s);
    assert Leads(hs, s1, [Take, Step, Step, Step], s);
  }

  /** Logged by the log thread instead, it reaches the handler exactly when the domains match. */
  lemma DirectAppliesDomainFilter(handler: Handler, m: Message) returns (s: State)
    ensures Leads([handler], Initial([handler]), [TakeThenLog(m), Step, Step, Step], s)
    ensures s.thread.Idle? && s.outs == if Matches(handler, m) then [[Direct(m, 0)]] else [[]]
  {
    var hs, s0 := [handler], Initial([handler]);
    var s1 := Next(hs, s0, TakeThenLog(m));
    var s2 := Next(hs, s1, Step);
    var s3 := Next(hs, s2, Step);
    assert Matches(handler, m) ==> s3.outs[0] == [] + [Direct(m, 0)] == [Direct(m, 0)];
    s := Next(hs, s3, Step);
    TailOf(Step, []);
    TailOf(Step, [Step]);
    TailOf(Step, [Step, Step]);
    TailOf(TakeThenLog(m), [Step, Step, Step]);
    assert Leads(hs, s3, [Step], s) && Leads(hs, s2, [Step, Step], s) && Leads(hs, s1, [Step, Step, Step], s);
  }

  lemma TailOf(e: Event, es: seq<Event>)
    ensures ([e] + es)[1..] == es
  {
  }

  // ----- the log thread gets out of a flush however many messages are stored meanwhile -----

  /** Steps the log thread needs before it is idle again. */
  function Work(handlers: seq<Handler>, t: LogThread): int {
    var h := |handlers| + 1;
    match t
    case Idle => 0
    case Flushing(batch, next, own) => Product(|batch|, h) - next + 1 + (if own.Own? then h else 0)
    case Printing(_, _, next) => h - next
  }

  function Product(a: nat, b: nat): (p: nat)
    ensures a > 0 ==> p >= b
  {
    if a == 0 then 0 else b + Product(a - 1, b)
  }

  lemma WorkDecreases(handlers: seq<Handler>, s: State, e: Event)
    requires Inv(handlers, s) && Enabled(s, e) && !s.thread.Idle?
    ensures Work(handlers, s.thread) > 0
    ensures Work(handlers, Next(handlers, s, e).thread) == Work(handlers, s.thread) - if e.Step? then 1 else 0
  {
    hide HandlerInv;
  }

  // ----- the code -----

  class Logger {
    const handlers: seq<Handler>
    var logThread: nat                // 0: no log thread, output is direct
    var stored: seq<Message>
    ghost var outs: seq<seq<Output>>  // the handler calls made so far
    ghost var accepted: seq<Message>
    ghost var logged: seq<Message>

    ghost predicate Valid()
      reads this
    {
      |outs| == |handlers|
    }

    ghost function Abs(): State
      reads this
    {
      State(stored, Idle, outs, accepted, logged)
    }

    constructor (hs: seq<Handler>, threadId: nat)
      ensures Valid() && handlers == hs && logThread == threadId && Abs() == Initial(hs)
    {
      handlers, logThread, stored := hs, threadId, [];
      outs := seq(|hs|, _ => []);
      accepted, logged := [], [];
    }

    /** Every stored message, in order, to every handler; the steps it goes through are steps of the protocol. */
    method FlushAs(ghost own: Own) returns (ghost es: seq<Event>, ghost s: State)
      requires Valid() && (own.Own? ==> own.taken == |accepted|)
      modifies this`stored, this`outs
      ensures Valid() && stored == []
      ensures s == State([], Flushing([], 0, own), outs, accepted, logged + if own.Own? then [own.message] else [])
      ensures Leads(handlers, old(Abs()), es, s)
    {
      var batch := stored;
      stored := [];
      es := [if own.Own? then TakeThenLog(own.message) else Take];
      s := Next(handlers, old(Abs()), es[0]);
      ghost var history := s.logged;
      assert s.logged == logged + if own.Own? then [own.message] else [];
      while batch != []
        invariant Valid() && stored == []
        invariant s == State([], Flushing(batch, 0, own), outs, accepted, history)
        invariant Leads(handlers, old(Abs()), es, s)
        decreases |batch|
      {
        var m := batch[0];
        var h := 0;
        while h < |handlers|
          invariant Valid() && stored == [] && 0 <= h <= |handlers|
          invariant s == State([], Flushing(batch, h, own), outs, accepted, history)
          invariant Leads(handlers, old(Abs()), es, s)
        {
          outs := outs[h := outs[h] + [Deferred(m)]];
          h := h + 1;
          es, s := OneMore(handlers, old(Abs()), es, s, Step);
        }
        es, s := OneMore(handlers, old(Abs()), es, s, Step);
        batch := batch[1..];
      }
    }

    method Flush() returns (ghost es: seq<Event>)
      requires Valid()
      modifies this`stored, this`outs
      ensures Valid() && stored == [] && Leads(handlers, old(Abs()), es, Abs())
    {
      ghost var s;
      es, s := FlushAs(NoOwn);
      assert logged + [] == logged;
      es, s := OneMore(handlers, old(Abs()), es, s, Step);
    }

    /** Output without a log thread: straight to the matching handlers. */
    method PrintDirect(m: Message)
      requires Valid()
      modifies this`outs
      ensures Valid() && outs == Printed(handlers, old(outs), m, |accepted|, |handlers|)
    {
      var h := 0;
      PrintedNothing(handlers, outs, m, |accepted|);
      while h < |handlers|
        invariant Valid() && 0 <= h <= |handlers| && outs == Printed(handlers, old(outs), m, |accepted|, h)
      {
        if Matches(handlers[h], m) {
          outs := outs[h := outs[h] + [Direct(m, |accepted|)]];
        }
        h := h + 1;
      }
    }

    /** The log thread: flush, then print its own message to the matching handlers. */
    method FlushAndPrint(m: Message) returns (ghost es: seq<Event>)
      requires Valid()
      modifies this`stored, this`outs, this`logged
      ensures Valid() && stored == [] && logged == old(logged) + [m] && Leads(handlers, old(Abs()), es, Abs())
    {
      ghost var s;
      es, s := FlushAs(Own(m, |accepted|));
      es, s := OneMore(handlers, old(Abs()), es, s, Step);
      ghost var n := |accepted|;
      logged := logged + [m];
      var h := 0;
      while h < |handlers|
        invariant Valid() && stored == [] && 0 <= h <= |handlers| && logged == old(logged) + [m]
        invariant s == State([], Printing(m, n, h), outs, accepted, logged)
        invariant Leads(handlers, old(Abs()), es, s)
      {
        if Matches(handlers[h], m) {
          outs := outs[h := outs[h] + [Direct(m, n)]];
        }
        es, s := OneMore(handlers, old(Abs()), es, s, Step);
        h := h + 1;
      }
      es, s := OneMore(handlers, old(Abs()), es, s, Step);
    }

    /** bctbx_logv, for a level below fatal: with a log thread set, its effect is a run of the protocol. */
    method Log(self: nat, enabled: bool, m: Message) returns (ghost es: seq<Event>)
      requires Valid()
      modifies this`stored, this`outs, this`accepted, this`logged
      ensures Valid()
      ensures !enabled || handlers == [] ==> Abs() == old(Abs())
      ensures enabled && handlers != [] && logThread == 0 ==>
                Abs() == old(Abs()).(outs := Printed(handlers, old(outs), m, |accepted|, |handlers|))
      ensures logThread != 0 ==> Leads(handlers, old(Abs()), es, Abs())
      ensures enabled && handlers != [] && logThread != 0 ==>
                if self == logThread then stored == [] && logged == old(logged) + [m] && accepted == old(accepted)
                else outs == old(outs) && logged == old(logged) && accepted == old(accepted) + [m]
    {
      es := [];
      if handlers != [] && enabled {
        if logThread == 0 {
          PrintDirect(m);
        } else if self == logThread {
          es := FlushAndPrint(m);
        } else {
          stored := stored + [m];
          accepted := accepted + [m];
          es := [Store(m)];
          assert es[1..] == [];
        }
      }
    }
  }

  /** The calls that direct output makes to the first k handlers. */
  ghost function Printed(handlers: seq<Handler>, outs: seq<seq<Output>>, m: Message, n: nat, k: nat): seq<seq<Output>>
    requires |outs| == |handlers|
  {
    seq(|outs|, h requires 0 <= h < |outs| =>
      if h < k && Matches(handlers[h], m) then outs[h] + [Direct(m, n)] else outs[h])
  }

  /** A message without a domain reaches every handler, a handler without one gets every message; otherwise the
      domains must be the same. */
  lemma PrintedByDomain(handlers: seq<Handler>, outs: seq<seq<Output>>, m: Message, n: nat, h: nat)
    requires |outs| == |handlers| && h < |handlers|
    ensures |Printed(handlers, outs, m, n, |handlers|)| == |handlers|
    ensures handlers[h].domain == None || m.domain == None ==>
              Printed(handlers, outs, m, n, |handlers|)[h] == outs[h] + [Direct(m, n)]
    ensures forall d, e :: handlers[h].domain == Some(d) && m.domain == Some(e) && d == e ==>
              Printed(handlers, outs, m, n, |handlers|)[h] == outs[h] + [Direct(m, n)]
    ensures forall d, e :: handlers[h].domain == Some(d) && m.domain == Some(e) && d != e ==>
              Printed(handlers, outs, m, n, |handlers|)[h] == outs[h]
  {
  }

  /** And so the log thread's own message, in a run of the protocol. */
  lemma OwnByDomain(handlers: seq<Handler>, s: State, h: nat)
    requires |s.outs| == |handlers| && h < |handlers| && s.thread.Printing? && s.thread.next == h
    ensures handlers[h].domain == None || s.thread.message.domain == None ==>
              Next(handlers, s, Step).outs[h] == s.outs[h] + [Direct(s.thread.message, s.thread.taken)]
    ensures forall d, e :: handlers[h].domain == Some(d) && s.thread.message.domain == Some(e) ==>
              Next(handlers, s, Step).outs[h]
              == if d == e then s.outs[h] + [Direct(s.thread.message, s.thread.taken)] else s.outs[h]
  {
  }

  lemma PrintedNothing(handlers: seq<Handler>, outs: seq<seq<Output>>, m: Message, n: nat)
    requires |outs| == |handlers|
    ensures Printed(handlers, outs, m, n, 0) == outs
  {
  }

  /** A run extended by one step. */
  lemma OneMore(handlers: seq<Handler>, s0: State, es: seq<Event>, s: State, e: Event)
    returns (es': seq<Event>, s': State)
    requires |s0.outs| == |s.outs| == |handlers| && Leads(handlers, s0, es, s) && Enabled(s, e)
    ensures s' == Next(handlers, s, e) && Leads(handlers, s0, es', s')
  {
    es', s' := es + [e], Next(handlers, s, e);
    LeadsSnoc(handlers, s0, es, s, e);
  }

  lemma {:induction false} LeadsSnoc(handlers: seq<Handler>, s0: State, es: seq<Event>, s: State, e: Event)
    requires |s0.outs| == |s.outs| == |handlers| && Leads(handlers, s0, es, s) && Enabled(s, e)
    ensures Leads(handlers, s0, es + [e], Next(handlers, s, e))
    decreases es
  {
    if es == [] {
      assert (es + [e])[1..] == [];
    } else {
      assert (es + [e])[1..] == es[1..] + [e];
      LeadsSnoc(handlers, Next(handlers, s0, es[0]), es[1..], s, e);
    }
  }
}
