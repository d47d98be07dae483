/** What a slave does in each round of its life, from the rounds and events before it. */
module SlaveRounds {
  import opened CText
  import opened Clock
  import opened SlaveTrace
  import opened Slave

  /** The configuration of a slave. */
  datatype Config = Config(services: seq<Service>, reqsMax: nat, idleTimeout: TimeVal)

  ghost predicate AllKnown(g: Config, rounds: seq<Round>) {
    forall r :: r in rounds ==> Known(r, |g.services|)
  }

  /** The events of each round until the slave ends. */
  function Log(s: State, g: Config, rounds: seq<Round>): (log: seq<seq<Event>>)
    requires Paired(s, |g.services|) && AllKnown(g, rounds)
    ensures |log| <= |rounds|
    decreases |rounds|
  {
    if rounds == [] then []
    else if rounds[0].die || !Stays(s, g.reqsMax) then [EndEvents(s, g.services, rounds[0].die)]
    else
      var first := Iterated(s, g.services, g.reqsMax, g.idleTimeout, rounds[0]);
      [first.events] + if first.flow.Gone? then [] else Log(first.state, g, rounds[1..])
  }

  function Flat(log: seq<seq<Event>>): seq<Event> {
    if log == [] then [] else Flat(log[..|log| - 1]) + log[|log| - 1]
  }

  lemma {:induction false} FlatFirst(log: seq<seq<Event>>)
    requires log != []
    ensures Flat(log) == log[0] + Flat(log[1..])
  {
    var n := |log| - 1;
    if n == 0 {
      assert log[..0] == [] && log[1..] == [];
    } else {
      FlatFirst(log[..n]);
      assert log[..n][1..] == log[1..][..n - 1];
      Joined(log[0], Flat(log[1..][..n - 1]), log[n]);
    }
  }

  lemma Joined(a: seq<Event>, b: seq<Event>, c: seq<Event>)
    ensures a + b + c == a + (b + c)
  {
  }

  /** All rounds together are the life. */
  lemma {:induction false} LogIsLife(s: State, g: Config, rounds: seq<Round>)
    requires Paired(s, |g.services|) && AllKnown(g, rounds)
    ensures Flat(Log(s, g, rounds)) == Life(s, g.services, g.reqsMax, g.idleTimeout, rounds).0
    decreases |rounds|
  {
    hide Iterated, EndEvents, Stays, Flat;
    var log := Log(s, g, rounds);
    FlatNone();
    if rounds != [] {
      FlatFirst(log);
      if rounds[0].die || !Stays(s, g.reqsMax) {
        assert log[1..] == [];
        assert log[0] + [] == log[0];
      } else {
        var first := Iterated(s, g.services, g.reqsMax, g.idleTimeout, rounds[0]);
        if first.flow.Gone? {
          assert log[1..] == [];
          assert log[0] + [] == log[0];
        } else {
          LogIsLife(first.state, g, rounds[1..]);
          assert log[1..] == Log(first.state, g, rounds[1..]);
        }
      }
    }
  }

  lemma FlatNone()
    ensures Flat([]) == []
  {
  }

  // ----- What is known at the start of a round

  predicate Connects(events: seq<Event>) {
    exists i :: 0 <= i < |events| && events[i].Connected?
  }

  predicate Requests(events: seq<Event>) {
    exists i :: 0 <= i < |events| && events[i].Request?
  }

  predicate Kicks(events: seq<Event>) {
    exists i :: 0 <= i < |events| && events[i].Kick?
  }

  predicate Receives(events: seq<Event>) {
    exists i :: 0 <= i < |events| && events[i].Received?
  }

  /** The connection held, the requests and connections counted, and of the connection held: when it was
      taken, when its last request or its opening ended, and its service. */
  datatype View = View(holding: Holding, count: nat, start: TimeVal, done: TimeVal, srv: int)

  const NO_VIEW := View(Nothing, 0, TimeVal(0, 0), TimeVal(0, 0), -1)

  /** The view after a round, from its events and what the calls in it reported. */
  function Seen(v: View, holding: Holding, events: seq<Event>, r: Round): View {
    var v := v.(holding := holding, count := v.count + Work(events));
    if Connects(events) then
      v.(start := r.connStart, done := r.connDone, srv := if r.receive.Got? then r.receive.srv else -1)
    else if Requests(events) then v.(done := r.requestDone)
    else v
  }

  function HoldingAfter(events: seq<Event>): Holding {
    if Watch(events).Some? then Watch(events).value.holding else Nothing
  }

  /** The view at the start of round k. */
  function ViewAt(log: seq<seq<Event>>, rounds: seq<Round>, k: nat): View
    requires k <= |log| <= |rounds|
  {
    if k == 0 then NO_VIEW
    else Seen(ViewAt(log, rounds, k - 1), HoldingAfter(Flat(log[..k])), log[k - 1], rounds[k - 1])
  }

  predicate Held(v: View) {
    v.holding.Waiting? || v.holding.Active?
  }

  /** The state of a slave agrees with the view. */
  ghost predicate Agrees(s: State, v: View, services: nat) {
    && Paired(s, services) && v.holding == MonitorOf(s).holding && v.count == s.reqCnt
    && (s.conn >= 0 ==> v.start == s.clientStart && v.done == s.clientDone && v.srv == s.srv)
  }

  lemma ConnectsBoth(a: seq<Event>, b: seq<Event>)
    ensures Connects(a + b) <==> Connects(a) || Connects(b)
    ensures Requests(a + b) <==> Requests(a) || Requests(b)
    ensures Kicks(a + b) <==> Kicks(a) || Kicks(b)
    ensures Receives(a + b) <==> Receives(a) || Receives(b)
  {
    var ab := a + b;
    forall i | 0 <= i < |b| ensures ab[|a| + i] == b[i] {
    }
    forall i | 0 <= i < |a| ensures ab[i] == a[i] {
    }
    forall i | |a| <= i < |ab| ensures ab[i] == b[i - |a|] {
    }
  }

  /** What the parts of a round add to the view. */
  ghost predicate Adds(s: State, o: Outcome, r: Round) {
    !o.flow.Gone? && o.state.conn >= 0 ==>
      if Connects(o.events)
      then o.state.clientStart == r.connStart && o.state.clientDone == r.connDone
           && r.receive.Got? && o.state.srv == r.receive.srv
      else o.state.clientStart == s.clientStart && o.state.srv == s.srv
           && o.state.clientDone == if Requests(o.events) then r.requestDone else s.clientDone
  }

  lemma NoEvents()
    ensures !Connects([]) && !Requests([]) && !Kicks([]) && !Receives([])
  {
  }

  lemma OneEvent(e: Event)
    ensures Connects([e]) == e.Connected? && Requests([e]) == e.Request? && Kicks([e]) == e.Kick?
    ensures Receives([e]) == e.Received?
  {
    assert [e][0] == e;
  }

  lemma TwoEvents(a: Event, b: Event)
    ensures Connects([a, b]) == (a.Connected? || b.Connected?) && Requests([a, b]) == (a.Request? || b.Request?)
    ensures Kicks([a, b]) == (a.Kick? || b.Kick?) && Receives([a, b]) == (a.Received? || b.Received?)
  {
    assert [a, b] == [a] + [b];
    OneEvent(a);
    OneEvent(b);
    ConnectsBoth([a], [b]);
  }

  lemma DropSeen(conn: nat, svc: Service, reason: Reason)
    ensures var e := DropEvents(conn, svc, reason); !Connects(e) && !Requests(e) && Kicks(e) && !Receives(e)
    ensures var e := DropEvents(conn, svc, reason);
            Kick(reason) in e && forall x :: x in e && x.Kick? ==> x.reason == reason
  {
    var e := DropEvents(conn, svc, reason);
    assert e[0] == Kick(reason);
    assert forall i :: 0 < i < |e| ==> e[i].Disconnect? || e[i].Close?;
  }

  lemma ServedAdds(s: State, svc: Service, r: Round)
    requires s.conn >= 0
    ensures Adds(s, Served(s, svc, r), r) && !Connects(Served(s, svc, r).events) && !Receives(Served(s, svc, r).events)
  {
    hide CheckTimeout;
    NoEvents();
    OneEvent(Request(s.conn));
    var o := Served(s, svc, r);
    assert forall i :: 0 <= i < |o.events| ==> !o.events[i].Connected? && !o.events[i].Received?;
  }

  lemma BegunAdds(s: State, svc: Service, srv: nat, r: Round, conn: nat, seqNo: nat)
    ensures var o := Begun(s, svc, srv, r, conn, seqNo);
            && !Requests(o.events) && !Kicks(o.events) && !Receives(o.events)
            && (!o.flow.Gone? && o.state.conn >= 0 ==>
                  && Connects(o.events) && o.state.srv == srv
                  && o.state.clientStart == r.connStart && o.state.clientDone == r.connDone)
            && (!o.flow.Gone? && Connects(o.events) ==> o.state.conn >= 0)
  {
    TwoEvents(Acknowledged(seqNo), Connected(conn));
    TwoEvents(Acknowledged(seqNo), Close(conn));
    var o := Begun(s, svc, srv, r, conn, seqNo);
    assert forall i :: 0 <= i < |o.events| ==>
             o.events[i].Acknowledged? || o.events[i].Close? || o.events[i].Exit? || o.events[i].Connected?;
  }

  /** The slave takes what is at its master's socket. */
  predicate Taking(s: State, reqsMax: nat, sockReady: bool) {
    (s.conn < 0 || !s.firstRequest) && sockReady && s.reqCnt < reqsMax
  }

  lemma RenewedAdds(s: State, g: Config, r: Round, sockReady: bool, why: Option<Reason>)
    requires Paired(s, |g.services|) && Known(r, |g.services|)
    ensures var o := Renewed(s, g.services, g.reqsMax, r, sockReady, why);
            Adds(s, o, r) && !Requests(o.events)
  {
    hide Begun, DropEvents;
    NoEvents();
    OneEvent(Exit);
    var o := Renewed(s, g.services, g.reqsMax, r, sockReady, why);
    forall reason: Reason | s.conn >= 0
      ensures var e := DropEvents(s.conn, g.services[s.srv], reason); !Connects(e) && !Requests(e)
    {
      DropSeen(s.conn, g.services[s.srv], reason);
    }
    if Taking(s, g.reqsMax, sockReady) && r.receive.Got? {
      var received := [Received(r.receive.conn, r.receive.seqNo)];
      var kick := if s.reqCnt >= g.reqsMax && !s.firstRequest then CountReached else HighLoad;
      var dropped := if s.conn >= 0 then DropEvents(s.conn, g.services[s.srv], kick) else [];
      var t := if s.conn >= 0 then Closed(s) else s;
      var svc := g.services[r.receive.srv];
      var begun := Begun(t, svc, r.receive.srv, r, r.receive.conn, r.receive.seqNo);
      OneEvent(received[0]);
      BegunAdds(t, svc, r.receive.srv, r, r.receive.conn, r.receive.seqNo);
      ConnectsBoth(received, dropped);
      ConnectsBoth(received + dropped, begun.events);
      assert o.events == received + dropped + begun.events && o.state == begun.state;
    }
  }

  lemma IteratedAdds(s: State, g: Config, r: Round)
    requires Paired(s, |g.services|) && Known(r, |g.services|)
    ensures Adds(s, Iterated(s, g.services, g.reqsMax, g.idleTimeout, r), r)
    ensures var o := Iterated(s, g.services, g.reqsMax, g.idleTimeout, r);
            !o.flow.Gone? && o.state.conn >= 0 && !Connects(o.events) ==> s.conn >= 0
  {
    hide Served, Renewed, CheckTimeout;
    NoEvents();
    OneEvent(Exit);
    var sockReady := r.select.Ready? && r.select.sock && (s.conn < 0 || !s.firstRequest);
    if s.conn >= 0 && r.select.Ready? && r.select.conn {
      var svc := g.services[s.srv];
      var served := Served(s, svc, r);
      ServedAdds(s, svc, r);
      ServedPaired(s, svc, r, |g.services|);
      var renewed := Renewed(served.state, g.services, g.reqsMax, r, sockReady, served.kick);
      RenewedAdds(served.state, g, r, sockReady, served.kick);
      ConnectsBoth(served.events, renewed.events);
      if served.flow == GoOn && !renewed.flow.Gone? && renewed.state.conn >= 0 && !Connects(renewed.events) {
        StillHeld(served.state, g, r, sockReady, served.kick);
      }
    } else {
      var idle := s.conn >= 0 && CheckTimeout(g.idleTimeout, s.clientDone, r.now);
      var why := if idle then Some(IdleClient) else None;
      RenewedAdds(s, g, r, sockReady, why);
      var renewed := Renewed(s, g.services, g.reqsMax, r, sockReady, why);
      if !renewed.flow.Gone? && renewed.state.conn >= 0 && !Connects(renewed.events) {
        StillHeld(s, g, r, sockReady, why);
      }
    }
  }

  /** Without a new connection a connection held after the second half of a round was held before. */
  lemma StillHeld(s: State, g: Config, r: Round, sockReady: bool, why: Option<Reason>)
    requires Paired(s, |g.services|) && Known(r, |g.services|)
    requires var o := Renewed(s, g.services, g.reqsMax, r, sockReady, why);
             !o.flow.Gone? && o.state.conn >= 0 && !Connects(o.events)
    ensures s.conn >= 0 && Renewed(s, g.services, g.reqsMax, r, sockReady, why).state == s
  {
    hide Begun, DropEvents;
    if Taking(s, g.reqsMax, sockReady) && r.receive.Got? {
      var received := [Received(r.receive.conn, r.receive.seqNo)];
      var kick := if s.reqCnt >= g.reqsMax && !s.firstRequest then CountReached else HighLoad;
      var dropped := if s.conn >= 0 then DropEvents(s.conn, g.services[s.srv], kick) else [];
      var t := if s.conn >= 0 then Closed(s) else s;
      var svc := g.services[r.receive.srv];
      var begun := Begun(t, svc, r.receive.srv, r, r.receive.conn, r.receive.seqNo);
      BegunAdds(t, svc, r.receive.srv, r, r.receive.conn, r.receive.seqNo);
      ConnectsBoth(received + dropped, begun.events);
    }
  }

  // ----- The state at the start of a round

  /** What holds of the state s at the start of round k. */
  ghost predicate Reached(s: State, g: Config, rounds: seq<Round>, k: nat)
    requires AllKnown(g, rounds)
  {
    var log := Log(FRESH, g, rounds);
    && k < |log| && Good(s, |g.services|, g.reqsMax) && Agrees(s, ViewAt(log, rounds, k), |g.services|)
    && Watch(Flat(log[..k])) == Some(MonitorOf(s))
    && log[k..] == Log(s, g, rounds[k..])
  }

  lemma {:induction false} StateAt(g: Config, rounds: seq<Round>, k: nat) returns (s: State)
    requires AllKnown(g, rounds) && k < |Log(FRESH, g, rounds)|
    ensures Reached(s, g, rounds, k)
  {
    var log := Log(FRESH, g, rounds);
    if k == 0 {
      s := FRESH;
      assert log[0..] == log && rounds[0..] == rounds && log[..0] == [];
    } else {
      var t := StateAt(g, rounds, k - 1);
      s := Iterated(t, g.services, g.reqsMax, g.idleTimeout, rounds[k - 1]).state;
      NextReached(t, g, rounds, k);
    }
  }

  /** A round that is not the last is one of the loop. */
  lemma LoopRound(s: State, g: Config, rounds: seq<Round>)
    requires Paired(s, |g.services|) && AllKnown(g, rounds) && |Log(s, g, rounds)| > 1
    ensures rounds != [] && !rounds[0].die && Stays(s, g.reqsMax)
    ensures var o := Iterated(s, g.services, g.reqsMax, g.idleTimeout, rounds[0]);
            && !o.flow.Gone? && Log(s, g, rounds)[0] == o.events
            && Log(s, g, rounds)[1..] == Log(o.state, g, rounds[1..])
  {
    hide Iterated, EndEvents, Stays;
  }

  lemma NextReached(t: State, g: Config, rounds: seq<Round>, k: nat)
    requires AllKnown(g, rounds) && 0 < k < |Log(FRESH, g, rounds)| && Reached(t, g, rounds, k - 1)
    ensures var s := Iterated(t, g.services, g.reqsMax, g.idleTimeout, rounds[k - 1]).state;
            Reached(s, g, rounds, k)
  {
    hide Iterated, Work, Good, MonitorOf, Connects, Requests, Watch, ObserveAll, Flat, Log;
    var log, r, rest := Log(FRESH, g, rounds), rounds[k - 1], rounds[k - 1..];
    assert rest[0] == r && rest[1..] == rounds[k..] && r in rounds;
    GoodPaired(t, |g.services|, g.reqsMax);
    assert AllKnown(g, rest);
    LoopRound(t, g, rest);
    assert log[k - 1..][0] == log[k - 1] && log[k - 1..][1..] == log[k..];
    var o := Iterated(t, g.services, g.reqsMax, g.idleTimeout, r);
    IteratedLegal(t, g.services, g.reqsMax, g.idleTimeout, r);
    NothingIncoming(o.state);
    IteratedWork(t, g.services, g.reqsMax, g.idleTimeout, r);
    IteratedAdds(t, g, r);
    WatchMoreRounds(log, k, MonitorOf(t), MonitorOf(o.state));
    GoodPaired(o.state, |g.services|, g.reqsMax);
    AgreesAfter(t, o, r, log, rounds, k, |g.services|);
  }

  lemma NothingIncoming(s: State)
    ensures MonitorOf(s).(incoming := None) == MonitorOf(s)
  {
  }

  lemma WatchMoreRounds(log: seq<seq<Event>>, k: nat, before: Monitor, after: Monitor)
    requires 0 < k <= |log| && Watch(Flat(log[..k - 1])) == Some(before)
    requires ObserveAll(before, log[k - 1]) == Some(after)
    ensures Watch(Flat(log[..k])) == Some(after)
  {
    hide Watch, ObserveAll;
    assert log[..k][..k - 1] == log[..k - 1];
    assert Flat(log[..k]) == Flat(log[..k - 1]) + log[k - 1];
    WatchIsObserveAll(Flat(log[..k - 1]));
    WatchIsObserveAll(Flat(log[..k]));
    ObserveBoth(START, Flat(log[..k - 1]), log[k - 1]);
  }

  lemma AgreesAfter(t: State, o: Outcome, r: Round, log: seq<seq<Event>>, rounds: seq<Round>, k: nat, services: nat)
    requires 0 < k <= |log| <= |rounds| && rounds[k - 1] == r && log[k - 1] == o.events
    requires Agrees(t, ViewAt(log, rounds, k - 1), services) && Paired(o.state, services)
    requires Watch(Flat(log[..k])) == Some(MonitorOf(o.state)) && Adds(t, o, r) && !o.flow.Gone?
    requires Work(o.events) == o.state.reqCnt - t.reqCnt && (o.state.conn >= 0 && !Connects(o.events) ==> t.conn >= 0)
    ensures Agrees(o.state, ViewAt(log, rounds, k), services)
  {
    hide Work, Watch, Flat, Connects, Requests;
  }

  // ----- The rules of a round

  /** The slave goes on: it is not to end, and its count is not reached, or a first request is due. */
  predicate Running(v: View, r: Round, reqsMax: nat) {
    !r.die && (v.count < reqsMax || v.holding.Waiting?)
  }

  /** select() tells something. */
  predicate Looks(r: Round) {
    !r.select.Interrupted? && !r.select.Broken?
  }

  predicate RequestReady(v: View, r: Round) {
    Held(v) && r.select.Ready? && r.select.conn
  }

  /** Nothing is taken from the master's socket while a first request is due. */
  predicate ConnectionReady(v: View, r: Round) {
    !v.holding.Waiting? && r.select.Ready? && r.select.sock
  }

  predicate IdleDue(v: View, r: Round, g: Config) {
    && Running(v, r, g.reqsMax) && Held(v) && Looks(r) && !RequestReady(v, r) && !ConnectionReady(v, r)
    && CheckTimeout(g.idleTimeout, v.done, r.now)
  }

  predicate KicksFor(events: seq<Event>, reason: Reason) {
    exists i :: 0 <= i < |events| && events[i] == Kick(reason)
  }

  lemma KicksForBoth(a: seq<Event>, b: seq<Event>, reason: Reason)
    ensures KicksFor(a + b, reason) <==> KicksFor(a, reason) || KicksFor(b, reason)
  {
    var ab := a + b;
    forall i | 0 <= i < |a| ensures ab[i] == a[i] {
    }
    forall i | 0 <= i < |b| ensures ab[|a| + i] == b[i] {
    }
    forall i | |a| <= i < |ab| ensures ab[i] == b[i - |a|] {
    }
  }

  lemma NoKicksFor(events: seq<Event>, reason: Reason)
    requires !Kicks(events)
    ensures !KicksFor(events, reason)
  {
  }

  lemma DropKicksFor(conn: nat, svc: Service, why: Reason, reason: Reason)
    ensures KicksFor(DropEvents(conn, svc, why), reason) <==> reason == why
  {
    var e := DropEvents(conn, svc, why);
    assert e[0] == Kick(why);
    assert forall i :: 0 < i < |e| ==> e[i].Disconnect? || e[i].Close?;
  }

  /** The second half of a round, by its kicks. */
  lemma RenewedKicks(s: State, g: Config, r: Round, sockReady: bool, why: Option<Reason>, reason: Reason)
    requires Paired(s, |g.services|) && Known(r, |g.services|)
    ensures var o, taking := Renewed(s, g.services, g.reqsMax, r, sockReady, why), Taking(s, g.reqsMax, sockReady);
            && (Receives(o.events) <==> taking && r.receive.Got?)
            && (taking && r.receive.Got? ==> o.events != [] && o.events[0] == Received(r.receive.conn, r.receive.seqNo))
            && (KicksFor(o.events, reason) <==>
                  && s.conn >= 0 && (taking ==> r.receive.Got?)
                  && Some(reason) == if s.reqCnt >= g.reqsMax && !s.firstRequest then Some(CountReached)
                                     else if taking then Some(HighLoad) else why)
            && (!taking && KicksFor(o.events, reason) ==> o.events == DropEvents(s.conn, g.services[s.srv], reason))
            && (!taking && !(s.conn >= 0 && (why.Some? || (s.reqCnt >= g.reqsMax && !s.firstRequest))) ==>
                  o.events == [])
            && (taking && !r.receive.Got? ==> o.events == if r.receive.Failing? then [Exit] else [])
  {
    hide Begun, DropEvents;
    NoEvents();
    OneEvent(Exit);
    NoKicksFor([], reason);
    NoKicksFor([Exit], reason);
    var o, taking := Renewed(s, g.services, g.reqsMax, r, sockReady, why), Taking(s, g.reqsMax, sockReady);
    if !(taking && !r.receive.Got?) {
      var kick := if s.reqCnt >= g.reqsMax && !s.firstRequest then Some(CountReached)
                  else if taking then Some(HighLoad) else why;
      var dropped := if kick.Some? && s.conn >= 0 then DropEvents(s.conn, g.services[s.srv], kick.value) else [];
      if kick.Some? && s.conn >= 0 {
        DropKicksFor(s.conn, g.services[s.srv], kick.value, reason);
        DropSeen(s.conn, g.services[s.srv], kick.value);
      }
      if taking {
        var received := [Received(r.receive.conn, r.receive.seqNo)];
        var t := if s.conn >= 0 then Closed(s) else s;
        var svc := g.services[r.receive.srv];
        var begun := Begun(t, svc, r.receive.srv, r, r.receive.conn, r.receive.seqNo);
        OneEvent(received[0]);
        BegunAdds(t, svc, r.receive.srv, r, r.receive.conn, r.receive.seqNo);
        NoKicksFor(received, reason);
        NoKicksFor(begun.events, reason);
        KicksForBoth(received, dropped, reason);
        KicksForBoth(received + dropped, begun.events, reason);
        ConnectsBoth(received, dropped);
        ConnectsBoth(received + dropped, begun.events);
        assert o.events == received + dropped + begun.events;
      } else {
        assert o.events == dropped;
      }
    }
  }

  lemma EventsOf(s: State, g: Config, rounds: seq<Round>, k: nat)
    requires AllKnown(g, rounds) && Reached(s, g, rounds, k)
    ensures Paired(s, |g.services|) && k < |rounds| && Known(rounds[k], |g.services|)
    ensures var r, v := rounds[k], ViewAt(Log(FRESH, g, rounds), rounds, k);
            && Agrees(s, v, |g.services|) && Good(s, |g.services|, g.reqsMax)
            && (Running(v, r, g.reqsMax) <==> !r.die && Stays(s, g.reqsMax))
            && Log(FRESH, g, rounds)[k]
               == if Running(v, r, g.reqsMax) then Iterated(s, g.services, g.reqsMax, g.idleTimeout, r).events
                  else EndEvents(s, g.services, r.die)
  {
    hide Iterated, EndEvents, ViewAt, Watch;
    var log := Log(FRESH, g, rounds);
    assert rounds[k] in rounds && rounds[k..][0] == rounds[k];
    assert log[k..][0] == log[k];
  }

  lemma EndKicks(s: State, services: seq<Service>, die: bool)
    requires Paired(s, |services|)
    ensures var e := EndEvents(s, services, die);
            && !Requests(e) && !Receives(e)
            && forall x :: x in e && x.Kick? ==> x.reason in {Terminating, CountReached}
  {
    var e := EndEvents(s, services, die);
    assert forall i :: 0 <= i < |e| ==> e[i].Kick? || e[i].Disconnect? || e[i].Exit?;
  }

  /** One round, seen from its state. */
  lemma IdleIterated(s: State, g: Config, r: Round)
    requires Good(s, |g.services|, g.reqsMax) && Known(r, |g.services|) && Stays(s, g.reqsMax)
    ensures var e := Iterated(s, g.services, g.reqsMax, g.idleTimeout, r).events;
            && (KicksFor(e, IdleClient) <==>
                  && s.conn >= 0 && Looks(r) && !(r.select.Ready? && r.select.conn)
                  && !(!s.firstRequest && r.select.Ready? && r.select.sock)
                  && CheckTimeout(g.idleTimeout, s.clientDone, r.now))
            && (KicksFor(e, IdleClient) ==> e == DropEvents(s.conn, g.services[s.srv], IdleClient))
  {
    hide Served, Renewed, CheckTimeout, DropEvents;
    NoEvents();
    OneEvent(Exit);
    NoKicksFor([], IdleClient);
    NoKicksFor([Exit], IdleClient);
    var sockReady := r.select.Ready? && r.select.sock && (s.conn < 0 || !s.firstRequest);
    if s.conn >= 0 && r.select.Ready? && r.select.conn {
      var svc := g.services[s.srv];
      var served := Served(s, svc, r);
      ServedLegal(s, svc, r, |g.services|, g.reqsMax);
      ServedKicks(s, svc, r, IdleClient);
      ServedPaired(s, svc, r, |g.services|);
      RenewedKicks(served.state, g, r, sockReady, served.kick, IdleClient);
      KicksForBoth(served.events, Renewed(served.state, g.services, g.reqsMax, r, sockReady, served.kick).events,
                   IdleClient);
    } else {
      var idle := s.conn >= 0 && CheckTimeout(g.idleTimeout, s.clientDone, r.now);
      RenewedKicks(s, g, r, sockReady, if idle then Some(IdleClient) else None, IdleClient);
    }
  }

  lemma ServedKicks(s: State, svc: Service, r: Round, reason: Reason)
    requires s.conn >= 0
    ensures !KicksFor(Served(s, svc, r).events, reason)
  {
    hide CheckTimeout;
    var e := Served(s, svc, r).events;
    assert forall i :: 0 <= i < |e| ==> !e[i].Kick?;
  }

  /** In every life a client is dropped as idle in a round exactly when the slave goes on, holds it, has
      nothing to read from it or, unless its first request is due, from the master, and the time since its
      last request or its opening ended has passed the timeout. Nothing else happens in such a round. */
  lemma IdleClientKicked(g: Config, rounds: seq<Round>, k: nat)
    requires AllKnown(g, rounds) && k < |Log(FRESH, g, rounds)|
    ensures var log := Log(FRESH, g, rounds);
            var v := ViewAt(log, rounds, k);
            && (KicksFor(log[k], IdleClient) <==> IdleDue(v, rounds[k], g))
            && (KicksFor(log[k], IdleClient) ==>
                  && 0 <= v.srv < |g.services|
                  && log[k] == [Kick(IdleClient)]
                               + (if g.services[v.srv].onDisconnect then [Disconnect(v.holding.conn)] else [])
                               + [Close(v.holding.conn)])
  {
    hide Iterated, EndEvents, ViewAt, Log, CheckTimeout;
    var s := StateAt(g, rounds, k);
    EventsOf(s, g, rounds, k);
    var v, r := ViewAt(Log(FRESH, g, rounds), rounds, k), rounds[k];
    if Running(v, r, g.reqsMax) {
      IdleIterated(s, g, r);
    } else {
      EndKicks(s, g.services, r.die);
    }
  }

  lemma ServedRequests(s: State, svc: Service, r: Round)
    requires s.conn >= 0
    ensures var o := Served(s, svc, r);
            && (Requests(o.events) <==> svc.onRequest) && !Receives(o.events)
            && (svc.onRequest ==> o.events != [] && o.events[0] == Request(s.conn))
            && (!svc.onRequest ==> o.events == [] && o.flow == GoOn && o.kick == Some(NoHandler) && o.state == s)
  {
    hide CheckTimeout;
    var o := Served(s, svc, r);
    NoEvents();
    assert svc.onRequest ==> o.events[0] == Request(s.conn);
    assert forall i :: 0 <= i < |o.events| ==> !o.events[i].Received?;
  }

  lemma RequestIterated(s: State, g: Config, r: Round)
    requires Good(s, |g.services|, g.reqsMax) && Known(r, |g.services|) && Stays(s, g.reqsMax)
    ensures var e := Iterated(s, g.services, g.reqsMax, g.idleTimeout, r).events;
            && (Requests(e) <==> s.conn >= 0 && r.select.Ready? && r.select.conn && g.services[s.srv].onRequest)
            && (Requests(e) ==> e[0] == Request(s.conn))
  {
    hide Served, Renewed, CheckTimeout;
    NoEvents();
    OneEvent(Exit);
    var sockReady := r.select.Ready? && r.select.sock && (s.conn < 0 || !s.firstRequest);
    if s.conn >= 0 && r.select.Ready? && r.select.conn {
      var svc := g.services[s.srv];
      var served := Served(s, svc, r);
      ServedRequests(s, svc, r);
      ServedPaired(s, svc, r, |g.services|);
      RenewedAdds(served.state, g, r, sockReady, served.kick);
      ConnectsBoth(served.events, Renewed(served.state, g.services, g.reqsMax, r, sockReady, served.kick).events);
    } else {
      var idle := s.conn >= 0 && CheckTimeout(g.idleTimeout, s.clientDone, r.now);
      RenewedAdds(s, g, r, sockReady, if idle then Some(IdleClient) else None);
    }
  }

  /** A request is served in a round exactly when the slave goes on, the connection that it holds is ready,
      and its service has a handler. It comes first. */
  lemma RequestServed(g: Config, rounds: seq<Round>, k: nat)
    requires AllKnown(g, rounds) && k < |Log(FRESH, g, rounds)|
    ensures var log := Log(FRESH, g, rounds);
            var v := ViewAt(log, rounds, k);
            && (Held(v) ==> 0 <= v.srv < |g.services|)
            && (Requests(log[k]) <==>
                  Running(v, rounds[k], g.reqsMax) && RequestReady(v, rounds[k]) && g.services[v.srv].onRequest)
            && (Requests(log[k]) ==> log[k][0] == Request(v.holding.conn))
  {
    hide Iterated, EndEvents, ViewAt, Log, Requests;
    var s := StateAt(g, rounds, k);
    EventsOf(s, g, rounds, k);
    var v, r := ViewAt(Log(FRESH, g, rounds), rounds, k), rounds[k];
    if Running(v, r, g.reqsMax) {
      RequestIterated(s, g, r);
    } else {
      EndKicks(s, g.services, r.die);
    }
  }

  /** The client has been held for so long that after a request a new one may come. */
  predicate OldClient(v: View, r: Round) {
    CheckTimeout(TimeVal(10, 0), v.start, r.now)
  }

  /** A connection is waiting, and there is room in the count for it after a request. */
  predicate Offered(v: View, r: Round, reqsMax: nat) {
    ConnectionReady(v, r) && v.count + 1 < reqsMax
  }

  lemma AnsweredIterated(s: State, g: Config, r: Round, reason: Reason)
    requires Good(s, |g.services|, g.reqsMax) && Known(r, |g.services|) && Stays(s, g.reqsMax) && r.onRequest == 0
    requires s.conn >= 0 && r.select.Ready? && r.select.conn && g.services[s.srv].onRequest
    ensures var o := Iterated(s, g.services, g.reqsMax, g.idleTimeout, r);
            var late, offered := CheckTimeout(TimeVal(10, 0), s.clientStart, r.now),
                                 r.select.sock && !s.firstRequest && s.reqCnt + 1 < g.reqsMax;
            && (Receives(o.events) <==> late && offered && r.receive.Got?)
            && (KicksFor(o.events, reason) <==>
                  late && if offered then r.receive.Got? && reason == HighLoad
                         else s.reqCnt + 1 >= g.reqsMax && reason == CountReached)
            && (!(late && (if offered then r.receive.Got? else s.reqCnt + 1 >= g.reqsMax)) ==>
                  o.events == [Request(s.conn)] + if late && offered && r.receive.Failing? then [Exit] else [])
  {
    hide Renewed, CheckTimeout;
    var svc := g.services[s.srv];
    var served := Served(s, svc, r);
    ServedRequests(s, svc, r);
    ServedKicks(s, svc, r, reason);
    ServedPaired(s, svc, r, |g.services|);
    var sockReady := r.select.sock && !s.firstRequest;
    var renewed := Renewed(served.state, g.services, g.reqsMax, r, sockReady, None);
    RenewedKicks(served.state, g, r, sockReady, None, reason);
    KicksForBoth(served.events, renewed.events, reason);
    ConnectsBoth(served.events, renewed.events);
    assert [Request(s.conn)] + [] == [Request(s.conn)];
  }

  /** A request answered with 0 keeps the connection, unless the client has been held for 10 seconds and
      either a new connection is taken for it or the count is reached with this request. */
  lemma AnsweredIsKept(g: Config, rounds: seq<Round>, k: nat, reason: Reason)
    requires AllKnown(g, rounds) && k < |Log(FRESH, g, rounds)|
    requires Requests(Log(FRESH, g, rounds)[k]) && rounds[k].onRequest == 0
    ensures var log, r := Log(FRESH, g, rounds), rounds[k];
            var v := ViewAt(log, rounds, k);
            var offered := Offered(v, r, g.reqsMax);
            && Held(v)
            && (Receives(log[k]) <==> OldClient(v, r) && offered && r.receive.Got?)
            && (KicksFor(log[k], reason) <==>
                  OldClient(v, r) && if offered then r.receive.Got? && reason == HighLoad
                                     else v.count + 1 >= g.reqsMax && reason == CountReached)
            && (!(OldClient(v, r) && if offered then r.receive.Got? else v.count + 1 >= g.reqsMax) ==>
                  log[k] == [Request(v.holding.conn)]
                            + if OldClient(v, r) && offered && r.receive.Failing? then [Exit] else [])
  {
    hide Iterated, EndEvents, ViewAt, Log, Requests, CheckTimeout, KicksFor, Receives;
    RequestServed(g, rounds, k);
    var s := StateAt(g, rounds, k);
    EventsOf(s, g, rounds, k);
    AnsweredIterated(s, g, rounds[k], reason);
  }

  lemma OtherwiseIterated(s: State, g: Config, r: Round)
    requires Good(s, |g.services|, g.reqsMax) && Known(r, |g.services|) && Stays(s, g.reqsMax) && r.onRequest != 0
    requires s.conn >= 0 && r.select.Ready? && r.select.conn && g.services[s.srv].onRequest
    ensures var e := Iterated(s, g.services, g.reqsMax, g.idleTimeout, r).events;
            var disconnect := if g.services[s.srv].onDisconnect then [Disconnect(s.conn)] else [];
            && (r.onRequest < 0 ==> e == [Request(s.conn), Exit])
            && (r.onRequest > 0 && r.onRequest != 107 ==> e == [Request(s.conn), Close(s.conn)])
            && (r.onRequest == 107 ==>
                  if disconnect != [] && r.onDisconnect != 0
                  then e == [Request(s.conn), Disconnect(s.conn), Exit]
                  else [Request(s.conn)] + disconnect + [Close(s.conn)] <= e)
  {
    hide Renewed, CheckTimeout;
  }

  /** A negative answer ends the slave; a positive one closes the connection, after its disconnect handler
      when it says that the client has gone. */
  lemma AnsweredOtherwise(g: Config, rounds: seq<Round>, k: nat)
    requires AllKnown(g, rounds) && k < |Log(FRESH, g, rounds)|
    requires Requests(Log(FRESH, g, rounds)[k]) && rounds[k].onRequest != 0
    ensures var log, r := Log(FRESH, g, rounds), rounds[k];
            var v := ViewAt(log, rounds, k);
            && Held(v) && 0 <= v.srv < |g.services|
            && var c := v.holding.conn;
               var disconnect := if g.services[v.srv].onDisconnect then [Disconnect(c)] else [];
               && (r.onRequest < 0 ==> log[k] == [Request(c), Exit])
               && (r.onRequest > 0 && r.onRequest != 107 ==> log[k] == [Request(c), Close(c)])
               && (r.onRequest == 107 ==>
                     if disconnect != [] && r.onDisconnect != 0 then log[k] == [Request(c), Disconnect(c), Exit]
                     else [Request(c)] + disconnect + [Close(c)] <= log[k])
  {
    hide Iterated, EndEvents, ViewAt, Log, Requests;
    RequestServed(g, rounds, k);
    var s := StateAt(g, rounds, k);
    EventsOf(s, g, rounds, k);
    OtherwiseIterated(s, g, rounds[k]);
  }

  lemma TakenIterated(s: State, g: Config, r: Round)
    requires Good(s, |g.services|, g.reqsMax) && Known(r, |g.services|) && Stays(s, g.reqsMax)
    requires !(s.conn >= 0 && r.select.Ready? && r.select.conn)
    ensures var e := Iterated(s, g.services, g.reqsMax, g.idleTimeout, r).events;
            && (Receives(e) <==>
                  (s.conn < 0 || !s.firstRequest) && r.select.Ready? && r.select.sock && r.receive.Got?)
            && (Receives(e) ==> e[0] == Received(r.receive.conn, r.receive.seqNo))
            && (KicksFor(e, HighLoad) <==> Receives(e) && s.conn >= 0)
  {
    hide Served, Renewed, CheckTimeout;
    NoEvents();
    OneEvent(Exit);
    NoKicksFor([], HighLoad);
    NoKicksFor([Exit], HighLoad);
    var sockReady := r.select.Ready? && r.select.sock && (s.conn < 0 || !s.firstRequest);
    var idle := s.conn >= 0 && CheckTimeout(g.idleTimeout, s.clientDone, r.now);
    RenewedKicks(s, g, r, sockReady, if idle then Some(IdleClient) else None, HighLoad);
  }

  /** When the client held has nothing to read, a new connection is taken exactly when the slave goes on,
      no first request is due and the master's socket has one; it replaces the one held. */
  lemma ConnectionTaken(g: Config, rounds: seq<Round>, k: nat)
    requires AllKnown(g, rounds) && k < |Log(FRESH, g, rounds)|
    requires !RequestReady(ViewAt(Log(FRESH, g, rounds), rounds, k), rounds[k])
    ensures var log, r := Log(FRESH, g, rounds), rounds[k];
            var v := ViewAt(log, rounds, k);
            && (Receives(log[k]) <==> Running(v, r, g.reqsMax) && ConnectionReady(v, r) && r.receive.Got?)
            && (Receives(log[k]) ==> log[k][0] == Received(r.receive.conn, r.receive.seqNo))
            && (KicksFor(log[k], HighLoad) <==> Receives(log[k]) && Held(v))
  {
    hide Iterated, EndEvents, ViewAt, Log, Receives;
    var s := StateAt(g, rounds, k);
    EventsOf(s, g, rounds, k);
    var v, r := ViewAt(Log(FRESH, g, rounds), rounds, k), rounds[k];
    if Running(v, r, g.reqsMax) {
      TakenIterated(s, g, r);
    } else {
      EndKicks(s, g.services, r.die);
    }
  }

  /** What is done with a connection that was taken. */
  function Opening(r: Round, svc: Service, conn: nat, seqNo: nat): seq<Event> {
    if !r.ackSent then [Exit]
    else if r.nonBlocking && (!svc.onNewConn || r.onNewConn == 0) then [Acknowledged(seqNo), Connected(conn)]
    else if r.nonBlocking && r.onNewConn < 0 then [Acknowledged(seqNo), Close(conn), Exit]
    else [Acknowledged(seqNo), Close(conn)]
  }

  lemma TakenEvents(s: State, g: Config, r: Round)
    requires Good(s, |g.services|, g.reqsMax) && Known(r, |g.services|) && Stays(s, g.reqsMax)
    requires !(s.conn >= 0 && r.select.Ready? && r.select.conn)
    requires (s.conn < 0 || !s.firstRequest) && r.select.Ready? && r.select.sock && r.receive.Got?
    ensures Iterated(s, g.services, g.reqsMax, g.idleTimeout, r).events
            == [Received(r.receive.conn, r.receive.seqNo)]
               + (if s.conn >= 0 then DropEvents(s.conn, g.services[s.srv], HighLoad) else [])
               + Opening(r, g.services[r.receive.srv], r.receive.conn, r.receive.seqNo)
  {
    hide CheckTimeout, DropEvents;
  }

  /** A connection that is taken: the one held is dropped, and then the new one is acknowledged with its
      number and opened, or closed when it cannot be. */
  lemma ConnectionOpened(g: Config, rounds: seq<Round>, k: nat)
    requires AllKnown(g, rounds) && k < |Log(FRESH, g, rounds)|
    requires !RequestReady(ViewAt(Log(FRESH, g, rounds), rounds, k), rounds[k]) && Receives(Log(FRESH, g, rounds)[k])
    ensures var log, r := Log(FRESH, g, rounds), rounds[k];
            var v := ViewAt(log, rounds, k);
            && r.receive.Got? && r.receive.srv < |g.services| && (Held(v) ==> 0 <= v.srv < |g.services|)
            && log[k] == [Received(r.receive.conn, r.receive.seqNo)]
                         + (if !Held(v) then []
                            else [Kick(HighLoad)]
                                 + (if g.services[v.srv].onDisconnect then [Disconnect(v.holding.conn)] else [])
                                 + [Close(v.holding.conn)])
                         + Opening(r, g.services[r.receive.srv], r.receive.conn, r.receive.seqNo)
  {
    hide Iterated, EndEvents, ViewAt, Log, Receives, Opening;
    ConnectionTaken(g, rounds, k);
    var s := StateAt(g, rounds, k);
    EventsOf(s, g, rounds, k);
    TakenEvents(s, g, rounds[k]);
  }

  lemma UnservedIterated(s: State, g: Config, r: Round)
    requires Good(s, |g.services|, g.reqsMax) && Known(r, |g.services|) && Stays(s, g.reqsMax)
    requires s.conn >= 0 && r.select.Ready? && r.select.conn && !g.services[s.srv].onRequest
    requires s.firstRequest || !r.select.sock
    ensures Iterated(s, g.services, g.reqsMax, g.idleTimeout, r).events
            == DropEvents(s.conn, g.services[s.srv], NoHandler)
  {
    hide CheckTimeout, DropEvents;
    assert [] + DropEvents(s.conn, g.services[s.srv], NoHandler) == DropEvents(s.conn, g.services[s.srv], NoHandler);
  }

  /** A client whose service has no handler for its request is dropped, unless it makes room for a new one. */
  lemma NoHandlerDrops(g: Config, rounds: seq<Round>, k: nat)
    requires AllKnown(g, rounds) && k < |Log(FRESH, g, rounds)|
    ensures var log, r := Log(FRESH, g, rounds), rounds[k];
            var v := ViewAt(log, rounds, k);
            && (Held(v) ==> 0 <= v.srv < |g.services|)
            && (Running(v, r, g.reqsMax) && RequestReady(v, r) && !g.services[v.srv].onRequest && !ConnectionReady(v, r)
                ==> log[k] == [Kick(NoHandler)]
                              + (if g.services[v.srv].onDisconnect then [Disconnect(v.holding.conn)] else [])
                              + [Close(v.holding.conn)])
  {
    hide Iterated, EndEvents, ViewAt, Log;
    var s := StateAt(g, rounds, k);
    EventsOf(s, g, rounds, k);
    var v, r := ViewAt(Log(FRESH, g, rounds), rounds, k), rounds[k];
    if Running(v, r, g.reqsMax) && RequestReady(v, r) && !g.services[v.srv].onRequest && !ConnectionReady(v, r) {
      UnservedIterated(s, g, r);
    }
  }

  /** The slave ends in the first round in which it does not go on: with its client's disconnect handler,
      and its exit. */
  lemma EndsThen(g: Config, rounds: seq<Round>, k: nat)
    requires AllKnown(g, rounds) && k < |Log(FRESH, g, rounds)|
    ensures var log, r := Log(FRESH, g, rounds), rounds[k];
            var v := ViewAt(log, rounds, k);
            !Running(v, r, g.reqsMax) ==>
              && k == |log| - 1 && (Held(v) ==> 0 <= v.srv < |g.services|)
              && log[k] == (if !Held(v) then []
                            else [Kick(if r.die then Terminating else CountReached)]
                                 + if g.services[v.srv].onDisconnect then [Disconnect(v.holding.conn)] else [])
                           + [Exit]
  {
    hide Iterated, ViewAt, Log;
    var s := StateAt(g, rounds, k);
    EventsOf(s, g, rounds, k);
    LogEnds(s, g, rounds[k..]);
    var log := Log(FRESH, g, rounds);
    assert rounds[k..][0] == rounds[k] && |log[k..]| == |log| - k;
  }

  lemma LogEnds(s: State, g: Config, rounds: seq<Round>)
    requires Paired(s, |g.services|) && AllKnown(g, rounds) && rounds != []
    ensures rounds[0].die || !Stays(s, g.reqsMax) ==> |Log(s, g, rounds)| == 1
  {
    hide Iterated, EndEvents;
  }
}
