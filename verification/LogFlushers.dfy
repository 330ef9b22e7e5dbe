/** Deferred logging when several threads flush, as bctbx_logv_flush lets them (src/logging/logging.c). */
module LogFlushers {
  import opened LogQueue

  /** A flush under way: the messages it took, the first of which has reached the first `next` handlers. */
  datatype Flight = Flight(batch: seq<Message>, next: nat)

  /** outs holds, for each handler, the flushed messages it has been called with. */
  datatype Race = Race(stored: seq<Message>, flights: seq<Flight>, outs: seq<seq<Message>>, accepted: seq<Message>)

  /** One critical section or one handler call, of any thread. */
  datatype Move = StoreMove(message: Message) | TakeMove | StepMove(flight: nat)

  predicate CanMove(s: Race, m: Move) {
    m.StepMove? ==> m.flight < |s.flights| && s.flights[m.flight].batch != []
  }

  function Moved(s: Race, m: Move): (s': Race)
    requires CanMove(s, m)
    ensures |s'.outs| == |s.outs|
  {
    match m
    case StoreMove(msg) => s.(stored := s.stored + [msg], accepted := s.accepted + [msg])
    case TakeMove => s.(stored := [], flights := s.flights + [Flight(s.stored, 0)])
    case StepMove(t) =>
      var f := s.flights[t];
      if f.next < |s.outs| then
        s.(outs := s.outs[f.next := s.outs[f.next] + [f.batch[0]]],
           flights := s.flights[t := Flight(f.batch, f.next + 1)])
      else s.(flights := s.flights[t := Flight(f.batch[1..], 0)])
  }

  function Quiet(handlers: nat): Race {
    Race([], [], seq(handlers, _ => []), [])
  }

  predicate Races(s: Race, ms: seq<Move>, s': Race)
    decreases ms
  {
    if ms == [] then s == s' else CanMove(s, ms[0]) && Races(Moved(s, ms[0]), ms[1..], s')
  }

  // ----- exactly once -----

  /** What a flush has still to hand to handler h. */
  function Due(f: Flight, h: nat): seq<Message> {
    if f.batch != [] && h < f.next then f.batch[1..] else f.batch
  }

  function InAir(flights: seq<Flight>, h: nat): multiset<Message> {
    if flights == [] then multiset{}
    else InAir(flights[..|flights| - 1], h) + multiset(Due(flights[|flights| - 1], h))
  }

  lemma {:induction false} InAirSnoc(flights: seq<Flight>, f: Flight, h: nat)
    ensures InAir(flights + [f], h) == InAir(flights, h) + multiset(Due(f, h))
  {
    assert (flights + [f])[..|flights|] == flights;
  }

  /** Sums of multisets may be regrouped, and equal parts cancelled. */
  lemma Regroup(x: multiset<Message>, y: multiset<Message>, z: multiset<Message>)
    ensures (x + y) + z == (x + z) + y
  {
  }

  lemma Cancel(x: multiset<Message>, y: multiset<Message>, z: multiset<Message>)
    requires x + z == y + z
    ensures x == y
  {
    assert x == (x + z) - z && y == (y + z) - z;
  }

  lemma {:induction false} InAirUpdate(flights: seq<Flight>, t: nat, f: Flight, h: nat)
    requires t < |flights|
    ensures InAir(flights[t := f], h) + multiset(Due(flights[t], h)) == InAir(flights, h) + multiset(Due(f, h))
  {
    var n := |flights| - 1;
    var r := flights[t := f];
    var was, will := multiset(Due(flights[t], h)), multiset(Due(f, h));
    var last := multiset(Due(flights[n], h));
    if t == n {
      assert r[..n] == flights[..n];
      Regroup(InAir(flights[..n], h), will, was);
    } else {
      InAirUpdate(flights[..n], t, f, h);
      assert r[..n] == flights[..n][t := f] && r[n] == flights[n] && flights[..n][t] == flights[t];
      var before, now := InAir(flights[..n], h), InAir(r[..n], h);
      assert now + was == before + will;
      assert InAir(r, h) == now + last && InAir(flights, h) == before + last;
      hide *;
      Regroup(now, last, was);
      Regroup(before, last, will);
    }
  }

  predicate OnceEach(s: Race, h: nat)
    requires h < |s.outs|
  {
    multiset(s.outs[h]) + InAir(s.flights, h) + multiset(s.stored) == multiset(s.accepted)
  }

  lemma {:induction false} HeadAndTail(ms: seq<Message>)
    requires ms != []
    ensures multiset(ms) == multiset{ms[0]} + multiset(ms[1..])
  {
    assert ms == [ms[0]] + ms[1..];
  }

  lemma {:induction false} StepOnceEach(s: Race, t: nat, h: nat)
    requires h < |s.outs| && CanMove(s, StepMove(t)) && OnceEach(s, h)
    ensures OnceEach(Moved(s, StepMove(t)), h)
  {
    hide InAir;
    var f, s' := s.flights[t], Moved(s, StepMove(t));
    var f' := s'.flights[t];
    var d, d' := multiset(Due(f, h)), multiset(Due(f', h));
    var a, a' := InAir(s.flights, h), InAir(s'.flights, h);
    InAirUpdate(s.flights, t, f', h);
    if h == f.next {
      var x := multiset{f.batch[0]};
      HeadAndTail(f.batch);
      assert multiset(s'.outs[h]) == multiset(s.outs[h]) + x;
      assert d == x + d';
      Cancel(a' + x, a, d') by {
        assert a' + (x + d') == (a' + x) + d';
      }
      assert multiset(s'.outs[h]) + a' == multiset(s.outs[h]) + (a' + x);
    } else {
      assert d == d';
      Cancel(a', a, d);
    }
  }

  lemma {:induction false} MoveOnceEach(s: Race, m: Move, h: nat)
    requires h < |s.outs| && CanMove(s, m) && OnceEach(s, h)
    ensures OnceEach(Moved(s, m), h)
  {
    match m
    case StoreMove(_) =>
    case TakeMove => InAirSnoc(s.flights, Flight(s.stored, 0), h);
    case StepMove(t) => StepOnceEach(s, t, h);
  }

  lemma {:induction false} RaceOnceEach(s: Race, ms: seq<Move>, s': Race, h: nat)
    requires h < |s.outs| && OnceEach(s, h) && Races(s, ms, s')
    ensures |s'.outs| == |s.outs| && OnceEach(s', h)
    decreases ms
  {
    hide OnceEach, Moved;
    if ms != [] {
      MoveOnceEach(s, ms[0], h);
      RaceOnceEach(Moved(s, ms[0]), ms[1..], s', h);
    }
  }

  /** However many threads flush and however they interleave, every message accepted is, for every handler,
      delivered, in the air or stored, and that exactly once. */
  lemma DeliveredOnce(handlers: nat, ms: seq<Move>, s: Race, h: nat)
    requires h < handlers && Races(Quiet(handlers), ms, s)
    ensures |s.outs| == handlers
    ensures multiset(s.outs[h]) + InAir(s.flights, h) + multiset(s.stored) == multiset(s.accepted)
  {
    RaceOnceEach(Quiet(handlers), ms, s, h);
  }

  predicate Landed(flights: seq<Flight>) {
    forall t :: 0 <= t < |flights| ==> flights[t].batch == []
  }

  lemma {:induction false} NothingInAir(flights: seq<Flight>, h: nat)
    requires Landed(flights)
    ensures InAir(flights, h) == multiset{}
  {
    if flights != [] {
      NothingInAir(flights[..|flights| - 1], h);
    }
  }

  /** Once every flush is over and nothing is stored, each handler has had each message exactly once. */
  lemma AllDelivered(handlers: nat, ms: seq<Move>, s: Race, h: nat)
    requires h < handlers && Races(Quiet(handlers), ms, s) && Landed(s.flights) && s.stored == []
    ensures |s.outs| == handlers && multiset(s.outs[h]) == multiset(s.accepted)
  {
    DeliveredOnce(handlers, ms, s, h);
    NothingInAir(s.flights, h);
  }

  // ----- in order, as long as flushes do not overlap -----

  /** No flush starts before the ones before it are over. */
  predicate Orderly(s: Race, ms: seq<Move>, s': Race)
    requires Races(s, ms, s')
    decreases ms
  {
    ms != [] ==> (ms[0].TakeMove? ==> Landed(s.flights)) && Orderly(Moved(s, ms[0]), ms[1..], s')
  }

  function LastDue(flights: seq<Flight>, h: nat): seq<Message> {
    if flights == [] then [] else Due(flights[|flights| - 1], h)
  }

  /** Only the last flush is still under way, and what it owes comes next. */
  predicate InOrder(s: Race, h: nat)
    requires h < |s.outs|
  {
    && (forall t :: 0 <= t < |s.flights| - 1 ==> s.flights[t].batch == [])
    && (s.flights != [] ==> s.flights[|s.flights| - 1].next <= |s.outs|)
    && s.outs[h] + LastDue(s.flights, h) + s.stored == s.accepted
  }

  lemma {:induction false} MoveInOrder(s: Race, m: Move, h: nat)
    requires h < |s.outs| && CanMove(s, m) && InOrder(s, h) && (m.TakeMove? ==> Landed(s.flights))
    ensures InOrder(Moved(s, m), h)
  {
    var s' := Moved(s, m);
    match m
    case StoreMove(msg) =>
      assert s.outs[h] + LastDue(s.flights, h) + (s.stored + [msg])
          == (s.outs[h] + LastDue(s.flights, h) + s.stored) + [msg];
    case TakeMove =>
      assert LastDue(s.flights, h) == [];
      assert s.outs[h] + [] + s.stored == s.outs[h] + s.stored + [];
    case StepMove(t) =>
      assert t == |s.flights| - 1;
      var f := s.flights[t];
      if f.next < |s.outs| && h == f.next {
        assert (s.outs[h] + [f.batch[0]]) + f.batch[1..] == s.outs[h] + f.batch;
      } else {
        assert Due(s'.flights[t], h) == Due(f, h);
      }
  }

  lemma {:induction false} RaceInOrder(s: Race, ms: seq<Move>, s': Race, h: nat)
    requires h < |s.outs| && InOrder(s, h) && Races(s, ms, s') && Orderly(s, ms, s')
    ensures |s'.outs| == |s.outs| && InOrder(s', h)
    decreases ms
  {
    hide InOrder, Moved;
    if ms != [] {
      MoveInOrder(s, ms[0], h);
      RaceInOrder(Moved(s, ms[0]), ms[1..], s', h);
    }
  }

  /** When no two flushes overlap, whichever threads make them, every handler gets the messages in order. */
  lemma FifoWithoutOverlap(handlers: nat, ms: seq<Move>, s: Race, h: nat)
    requires h < handlers && Races(Quiet(handlers), ms, s) && Orderly(Quiet(handlers), ms, s)
    ensures |s.outs| == handlers
    ensures s.outs[h] + LastDue(s.flights, h) + s.stored == s.accepted
  {
    RaceInOrder(Quiet(handlers), ms, s, h);
  }

  // ----- exactly when a handler gets the messages in order -----

  /** What all flushes under way owe handler h, in the order in which they started. */
  function DueAll(flights: seq<Flight>, h: nat): seq<Message> {
    if flights == [] then [] else Due(flights[0], h) + DueAll(flights[1..], h)
  }

  lemma {:induction false} DueAllSnoc(flights: seq<Flight>, f: Flight, h: nat)
    ensures DueAll(flights + [f], h) == DueAll(flights, h) + Due(f, h)
  {
    if flights == [] {
      assert [f][1..] == [];
    } else {
      DueAllSnoc(flights[1..], f, h);
      assert (flights + [f])[1..] == flights[1..] + [f];
      hide Due;
      var d, r := Due(flights[0], h), DueAll(flights[1..], h);
      assert d + (r + Due(f, h)) == (d + r) + Due(f, h);
    }
  }

  lemma {:induction false} DueAllSame(flights: seq<Flight>, t: nat, f: Flight, h: nat)
    requires t < |flights| && Due(f, h) == Due(flights[t], h)
    ensures DueAll(flights[t := f], h) == DueAll(flights, h)
  {
    hide Due;
    if t > 0 {
      DueAllSame(flights[1..], t - 1, f, h);
      assert flights[t := f][1..] == flights[1..][t - 1 := f];
    } else {
      assert flights[t := f][1..] == flights[1..];
    }
  }

  /** One message fewer is due from flush t: the first of all, if no earlier flush owes anything. */
  lemma {:induction false} DueAllHead(flights: seq<Flight>, t: nat, f: Flight, x: Message, h: nat)
    requires t < |flights| && Due(flights[t], h) == [x] + Due(f, h)
    requires forall i :: 0 <= i < t ==> Due(flights[i], h) == []
    ensures DueAll(flights, h) == [x] + DueAll(flights[t := f], h)
  {
    hide Due;
    if t > 0 {
      DueAllHead(flights[1..], t - 1, f, x, h);
      assert flights[t := f][1..] == flights[1..][t - 1 := f];
      assert [] + DueAll(flights[1..], h) == DueAll(flights[1..], h);
      assert [] + DueAll(flights[1..][t - 1 := f], h) == DueAll(flights[1..][t - 1 := f], h);
    } else {
      assert flights[t := f][1..] == flights[1..];
      var r := DueAll(flights[1..], h);
      assert ([x] + Due(f, h)) + r == [x] + (Due(f, h) + r);
    }
  }

  /** If an earlier flush owes something, what flush t delivers is due later than that. */
  lemma {:induction false} DueLater(flights: seq<Flight>, e: nat, t: nat, h: nat) returns (p: nat)
    requires e < t < |flights| && Due(flights[e], h) != [] && Due(flights[t], h) != []
    ensures 0 < p < |DueAll(flights, h)| && DueAll(flights, h)[p] == Due(flights[t], h)[0]
  {
    hide Due;
    if e > 0 {
      var q := DueLater(flights[1..], e - 1, t - 1, h);
      p := |Due(flights[0], h)| + q;
    } else {
      var q := DueAt(flights[1..], t - 1, h);
      p := |Due(flights[0], h)| + q;
    }
  }

  lemma {:induction false} DueAt(flights: seq<Flight>, t: nat, h: nat) returns (p: nat)
    requires t < |flights| && Due(flights[t], h) != []
    ensures p < |DueAll(flights, h)| && DueAll(flights, h)[p] == Due(flights[t], h)[0]
  {
    hide Due;
    if t > 0 {
      var q := DueAt(flights[1..], t - 1, h);
      p := |Due(flights[0], h)| + q;
    } else {
      p := 0;
    }
  }

  /** A call of handler h is made in turn when no flush that started earlier still owes h a message. */
  predicate InTurn(s: Race, m: Move, h: nat)
    requires CanMove(s, m)
  {
    m.StepMove? && s.flights[m.flight].next == h < |s.outs| ==>
      forall i :: 0 <= i < m.flight ==> Due(s.flights[i], h) == []
  }

  predicate AllInTurn(s: Race, ms: seq<Move>, s': Race, h: nat)
    requires Races(s, ms, s')
    decreases ms
  {
    ms != [] ==> InTurn(s, ms[0], h) && AllInTurn(Moved(s, ms[0]), ms[1..], s', h)
  }

  predicate Queued(s: Race, h: nat)
    requires h < |s.outs|
  {
    s.outs[h] + DueAll(s.flights, h) + s.stored == s.accepted
  }

  lemma {:induction false} MoveQueued(s: Race, m: Move, h: nat)
    requires h < |s.outs| && CanMove(s, m) && Queued(s, h) && InTurn(s, m, h)
    ensures Queued(Moved(s, m), h)
  {
    hide DueAll;
    var o, d := s.outs[h], DueAll(s.flights, h);
    match m
    case StoreMove(msg) => assert o + d + (s.stored + [msg]) == (o + d + s.stored) + [msg];
    case TakeMove =>
      DueAllSnoc(s.flights, Flight(s.stored, 0), h);
      assert o + (d + s.stored) + [] == o + d + s.stored;
    case StepMove(t) =>
      var f, s' := s.flights[t], Moved(s, m);
      var f' := s'.flights[t];
      if h == f.next {
        assert Due(f, h) == f.batch == [f.batch[0]] + Due(f', h);
        DueAllHead(s.flights, t, f', f.batch[0], h);
        var d' := DueAll(s'.flights, h);
        assert (o + [f.batch[0]]) + d' == o + ([f.batch[0]] + d');
      } else {
        DueAllSame(s.flights, t, f', h);
      }
  }

  predicate NoneTwice(ms: seq<Message>) {
    forall i, j :: 0 <= i < j < |ms| ==> ms[i] != ms[j]
  }

  /** Handler h has been given something else than the message accepted in that place. */
  predicate Misplaced(s: Race, h: nat)
    requires h < |s.outs|
  {
    exists p :: 0 <= p < |s.outs[h]| && p < |s.accepted| && s.outs[h][p] != s.accepted[p]
  }

  /** A call out of turn misplaces a message. */
  lemma {:induction false} OutOfTurn(s: Race, m: Move, h: nat)
    requires h < |s.outs| && CanMove(s, m) && Queued(s, h) && NoneTwice(s.accepted) && !InTurn(s, m, h)
    ensures Misplaced(Moved(s, m), h)
  {
    hide DueAll;
    var t := m.flight;
    var f, o, d := s.flights[t], s.outs[h], DueAll(s.flights, h);
    var e :| 0 <= e < t && Due(s.flights[e], h) != [];
    var p := DueLater(s.flights, e, t, h);
    assert s.accepted == o + d + s.stored;
    assert s.accepted[|o|] == d[0] && s.accepted[|o| + p] == d[p] == f.batch[0];
    assert Moved(s, m).outs[h][|o|] == f.batch[0];
  }

  lemma {:induction false} MisplacedStays(s: Race, ms: seq<Move>, s': Race, h: nat)
    requires h < |s.outs| && Races(s, ms, s') && Misplaced(s, h)
    ensures |s'.outs| == |s.outs| && Misplaced(s', h)
    decreases ms
  {
    if ms != [] {
      MoveGrows(s, ms[0], h);
      hide Moved, Misplaced;
      MisplacedStays(Moved(s, ms[0]), ms[1..], s', h);
    }
  }

  lemma {:induction false} MoveGrows(s: Race, m: Move, h: nat)
    requires h < |s.outs| && CanMove(s, m)
    ensures s.outs[h] <= Moved(s, m).outs[h] && s.accepted <= Moved(s, m).accepted
    ensures Misplaced(s, h) ==> Misplaced(Moved(s, m), h)
  {
    var s' := Moved(s, m);
    if Misplaced(s, h) {
      var p :| 0 <= p < |s.outs[h]| && p < |s.accepted| && s.outs[h][p] != s.accepted[p];
      assert s'.outs[h][p] != s'.accepted[p];
    }
  }

  lemma {:induction false} AcceptedGrows(s: Race, ms: seq<Move>, s': Race)
    requires Races(s, ms, s')
    ensures s.accepted <= s'.accepted
    decreases ms
  {
    if ms != [] {
      AcceptedGrows(Moved(s, ms[0]), ms[1..], s');
    }
  }

  lemma {:induction false} RaceQueued(s: Race, ms: seq<Move>, s': Race, h: nat)
    requires h < |s.outs| && Queued(s, h) && Races(s, ms, s') && NoneTwice(s'.accepted)
    ensures |s'.outs| == |s.outs|
    ensures if AllInTurn(s, ms, s', h) then Queued(s', h) else Misplaced(s', h)
    decreases ms
  {
    if ms != [] {
      var m, next := ms[0], Moved(s, ms[0]);
      AcceptedGrows(s, ms, s');
      assert NoneTwice(s.accepted) by {
        assert forall i :: 0 <= i < |s.accepted| ==> s.accepted[i] == s'.accepted[i];
      }
      hide Queued, Misplaced, InTurn, Moved, CanMove, NoneTwice;
      if InTurn(s, m, h) {
        MoveQueued(s, m, h);
        RaceQueued(next, ms[1..], s', h);
      } else {
        OutOfTurn(s, m, h);
        MisplacedStays(next, ms[1..], s', h);
      }
    }
  }

  /** With any number of flushing threads, and all messages different, a handler has been given the messages
      in the order in which they were accepted if and only if all its calls were made in turn. */
  lemma FifoExactly(handlers: nat, ms: seq<Move>, s: Race, h: nat)
    requires h < handlers && Races(Quiet(handlers), ms, s) && NoneTwice(s.accepted)
    ensures |s.outs| == handlers
    ensures s.outs[h] <= s.accepted <==> AllInTurn(Quiet(handlers), ms, s, h)
  {
    RaceQueued(Quiet(handlers), ms, s, h);
    hide AllInTurn, DueAll, Races;
    if AllInTurn(Quiet(handlers), ms, s, h) {
      var rest := DueAll(s.flights, h) + s.stored;
      assert s.outs[h] + DueAll(s.flights, h) + s.stored == s.outs[h] + rest;
    }
  }

  /** Two that overlap can swap messages: the second flush is faster than the first. */
  lemma OverlapSwaps(a: Message, b: Message) returns (s: Race)
    ensures Races(Quiet(1), [StoreMove(a), TakeMove, StoreMove(b), TakeMove, StepMove(1), StepMove(0)], s)
    ensures s.accepted == [a, b] && s.outs == [[b, a]]
  {
    var s0 := Quiet(1);
    var s1 := Moved(s0, StoreMove(a));
    var s2 := Moved(s1, TakeMove);
    var s3 := Moved(s2, StoreMove(b));
    var s4 := Moved(s3, TakeMove);
    assert s1.stored == [a] && s3.stored == [b] && s4.flights == [Flight([a], 0), Flight([b], 0)];
    assert s4.outs == [[]] && s4.accepted == [a] + [b] == [a, b];
    var s5 := Moved(s4, StepMove(1));
    assert s5.outs[0] == [] + [b] && s5.flights == [Flight([a], 0), Flight([b], 1)];
    s := Moved(s5, StepMove(0));
    assert s.outs[0] == [] + [b] + [a] == [b, a];
    assert CanMove(s2, StoreMove(b)) && CanMove(s4, StepMove(1)) && CanMove(s5, StepMove(0));
    hide Moved, Quiet, CanMove;
    OneMore(s5, StepMove(0), [], s);
    OneMore(s4, StepMove(1), [StepMove(0)], s);
    OneMore(s3, TakeMove, [StepMove(1), StepMove(0)], s);
    OneMore(s2, StoreMove(b), [TakeMove, StepMove(1), StepMove(0)], s);
    OneMore(s1, TakeMove, [StoreMove(b), TakeMove, StepMove(1), StepMove(0)], s);
    OneMore(s0, StoreMove(a), [TakeMove, StoreMove(b), TakeMove, StepMove(1), StepMove(0)], s);
  }

  lemma {:induction false} OneMore(s: Race, m: Move, ms: seq<Move>, s': Race)
    requires CanMove(s, m) && (ms == [] ==> Moved(s, m) == s') && (ms != [] ==> Races(Moved(s, m), ms, s'))
    ensures Races(s, [m] + ms, s')
  {
    assert ([m] + ms)[1..] == ms;
  }
}
