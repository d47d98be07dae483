/** The loop of a slave. What the system calls and handlers report is given round by round. */
module Slave {
  import opened CText
  import opened Clock
  import opened SlaveTrace

  const ENOTCONN := 107
  const NEW_CLIENT_DURATION := 10

  /** check_timeout(). */
  predicate CheckTimeout(timeout: TimeVal, before: TimeVal, after: TimeVal) {
    if timeout.usec <= after.usec - before.usec
    then timeout.sec <= after.sec - before.sec
    else timeout.sec < after.sec - before.sec
  }

  /** It is right but for a timeout whose microseconds exceed those elapsed by more than a second: then
      it may fire up to a second early. Whole seconds are always right. */
  lemma TimeoutExact(timeout: TimeVal, before: TimeVal, after: TimeVal)
    requires timeout.Normal() && before.Normal() && after.Normal()
    ensures CheckTimeout(timeout, before, after)
            <==> timeout.Total() <= Elapsed(before, after)
                 || (timeout.sec == after.sec - before.sec - 1 && timeout.usec > after.usec - before.usec + 1000000)
    ensures timeout.usec == 0 ==> (CheckTimeout(timeout, before, after) <==> timeout.Total() <= Elapsed(before, after))
  {
    var ds, du := after.sec - before.sec, after.usec - before.usec;
    assert Elapsed(before, after) == ds * 1000000 + du;
  }

  /** The timeout that stands for none, with -1 seconds, has always passed. */
  lemma NoTimeoutFires(timeout: TimeVal, before: TimeVal, after: TimeVal)
    requires timeout.sec == -1 && timeout.Normal() && before.Normal() && after.Normal()
    requires before.Total() <= after.Total()
    ensures CheckTimeout(timeout, before, after)
  {
  }

  /** The handlers of a service that may be missing. */
  datatype Service = Service(onRequest: bool, onDisconnect: bool, onNewConn: bool)

  /** select(): interrupted, failed, timed out, or which of the two descriptors are ready. */
  datatype Select = Interrupted | Broken | TimedOut | Ready(conn: bool, sock: bool)

  datatype Receive = Again | Failing | Got(conn: nat, srv: nat, seqNo: nat)

  /** All that a round of the loop may learn. Results are those of the handlers of the same names. */
  datatype Round = Round(
    die: bool, select: Select, now: TimeVal, onRequest: int, onDisconnect: int, requestDone: TimeVal,
    receive: Receive, connStart: TimeVal, ackSent: bool, nonBlocking: bool, onNewConn: int, connDone: TimeVal)

  // ----- What a round does

  datatype State = State(
    conn: int, srv: int, reqCnt: nat, firstRequest: bool, clientStart: TimeVal, clientDone: TimeVal)

  /** conn and srv are set and cleared together. */
  predicate Paired(s: State, services: nat) {
    (s.conn >= 0 <==> s.srv >= 0) && s.conn >= -1 && -1 <= s.srv < services
  }

  predicate Known(r: Round, services: nat) {
    r.receive.Got? ==> r.receive.srv < services
  }

  /** GoOn: to the second half of the round. NextRound: the round is over. Gone: the process exits. */
  datatype Flow = GoOn | NextRound | Gone

  datatype Outcome = Outcome(state: State, events: seq<Event>, flow: Flow, kick: Option<Reason>)

  function Closed(s: State): State {
    s.(conn := -1, srv := -1)
  }

  /** A request that is ready. */
  function Served(s: State, svc: Service, r: Round): Outcome
    requires s.conn >= 0
  {
    var t := s.(reqCnt := s.reqCnt + 1, firstRequest := false);
    var request := [Request(s.conn)];
    var flow := if CheckTimeout(TimeVal(NEW_CLIENT_DURATION, 0), s.clientStart, r.now) then GoOn else NextRound;
    if !svc.onRequest then Outcome(s, [], GoOn, Some(NoHandler))
    else if r.onRequest == ENOTCONN then
      if svc.onDisconnect && r.onDisconnect != 0 then Outcome(t, request + [Disconnect(s.conn), Exit], Gone, None)
      else
        var disconnect := if svc.onDisconnect then [Disconnect(s.conn)] else [];
        Outcome(Closed(t), request + disconnect + [Close(s.conn)], flow, None)
    else if r.onRequest > 0 then Outcome(Closed(t), request + [Close(s.conn)], NextRound, None)
    else if r.onRequest < 0 then Outcome(t, request + [Exit], Gone, None)
    else Outcome(t.(clientDone := r.requestDone), request, flow, None)
  }

  /** The connection held is dropped. */
  function DropEvents(conn: nat, svc: Service, reason: Reason): seq<Event> {
    [Kick(reason)] + (if svc.onDisconnect then [Disconnect(conn)] else []) + [Close(conn)]
  }

  /** A new connection is acknowledged and made ready. */
  function Begun(s: State, svc: Service, srv: nat, r: Round, conn: nat, seqNo: nat): Outcome {
    var t := s.(conn := conn, srv := srv, clientStart := r.connStart);
    var u := t.(reqCnt := s.reqCnt + 1);
    if !r.ackSent then Outcome(t, [Exit], Gone, None)
    else if !r.nonBlocking then Outcome(Closed(u), [Acknowledged(seqNo), Close(conn)], NextRound, None)
    else if svc.onNewConn && r.onNewConn != 0 then
      if r.onNewConn < 0 then Outcome(Closed(u), [Acknowledged(seqNo), Close(conn), Exit], Gone, None)
      else Outcome(Closed(u), [Acknowledged(seqNo), Close(conn)], NextRound, None)
    else
      Outcome(u.(clientDone := r.connDone, firstRequest := true), [Acknowledged(seqNo), Connected(conn)], NextRound,
              None)
  }

  /** The second half of a round: a new connection if the slave may take one and there is one, and the
      old one dropped for it, for its idleness or its missing handler, or for the count. */
  function Renewed(s: State, services: seq<Service>, reqsMax: nat, r: Round, sockReady: bool, why: Option<Reason>)
    : (o: Outcome)
    requires Paired(s, |services|) && Known(r, |services|)
    ensures Paired(o.state, |services|)
  {
    var taking := (s.conn < 0 || !s.firstRequest) && sockReady && s.reqCnt < reqsMax;
    if taking && r.receive.Again? then Outcome(s, [], NextRound, None)
    else if taking && r.receive.Failing? then Outcome(s, [Exit], Gone, None)
    else
      var kick := if s.reqCnt >= reqsMax && !s.firstRequest then Some(CountReached)
                  else if taking then Some(HighLoad) else why;
      var received := if taking then [Received(r.receive.conn, r.receive.seqNo)] else [];
      var dropped := if kick.Some? && s.conn >= 0 then DropEvents(s.conn, services[s.srv], kick.value) else [];
      var t := if kick.Some? && s.conn >= 0 then Closed(s) else s;
      if taking then
        var begun := Begun(t, services[r.receive.srv], r.receive.srv, r, r.receive.conn, r.receive.seqNo);
        begun.(events := received + dropped + begun.events)
      else Outcome(t, dropped, NextRound, None)
  }

  /** A whole round. The slave looks at its master's socket only when no first request is due. */
  function Iterated(s: State, services: seq<Service>, reqsMax: nat, idleTimeout: TimeVal, r: Round): (o: Outcome)
    requires Paired(s, |services|) && Known(r, |services|)
    ensures Paired(o.state, |services|)
  {
    if r.select.Interrupted? || (r.select.TimedOut? && s.conn < 0) then Outcome(s, [], NextRound, None)
    else if r.select.Broken? then Outcome(s, [Exit], Gone, None)
    else
      var sockReady := r.select.Ready? && r.select.sock && (s.conn < 0 || !s.firstRequest);
      if s.conn >= 0 && r.select.Ready? && r.select.conn then
        var served := Served(s, services[s.srv], r);
        if served.flow != GoOn then served
        else
          var renewed := Renewed(served.state, services, reqsMax, r, sockReady, served.kick);
          renewed.(events := served.events + renewed.events)
      else
        var idle := s.conn >= 0 && CheckTimeout(idleTimeout, s.clientDone, r.now);
        Renewed(s, services, reqsMax, r, sockReady, if idle then Some(IdleClient) else None)
  }

  /** The loop goes on for a connection whose first request is due, whatever the count. */
  predicate Stays(s: State, reqsMax: nat) {
    s.reqCnt < reqsMax || (s.conn >= 0 && s.firstRequest)
  }

  /** What is done after the loop. */
  function EndEvents(s: State, services: seq<Service>, die: bool): seq<Event>
    requires Paired(s, |services|)
  {
    (if s.conn >= 0 then
       [Kick(if die then Terminating else CountReached)]
       + (if services[s.srv].onDisconnect then [Disconnect(s.conn)] else [])
     else [])
    + [Exit]
  }

  /** All that a slave does in these rounds, and whether it has ended then. */
  function Life(s: State, services: seq<Service>, reqsMax: nat, idleTimeout: TimeVal, rounds: seq<Round>)
    : (seq<Event>, bool)
    requires Paired(s, |services|) && forall r :: r in rounds ==> Known(r, |services|)
    decreases |rounds|
  {
    if rounds == [] then ([], false)
    else if rounds[0].die || !Stays(s, reqsMax) then (EndEvents(s, services, rounds[0].die), true)
    else
      var first := Iterated(s, services, reqsMax, idleTimeout, rounds[0]);
      if first.flow.Gone? then (first.events, true)
      else
        var rest := Life(first.state, services, reqsMax, idleTimeout, rounds[1..]);
        (first.events + rest.0, rest.1)
  }

  // ----- What holds in every life

  predicate Good(s: State, services: nat, reqsMax: nat) {
    Paired(s, services) && s.reqCnt <= reqsMax + 1 && (s.conn >= 0 && s.firstRequest ==> s.reqCnt <= reqsMax)
  }

  /** The state of the automaton for a slave at the start of a round. */
  function MonitorOf(s: State): Monitor {
    Monitor(if s.conn < 0 then Nothing else if s.firstRequest then Waiting(s.conn) else Active(s.conn), None, false)
  }

  /** The automaton takes the events of an outcome, and ends where its state says. */
  predicate Legal(m: Monitor, o: Outcome, incoming: Option<(nat, nat)>) {
    var end := ObserveAll(m, o.events);
    && end.Some?
    && if o.flow.Gone? then end.value.exited else end.value == MonitorOf(o.state).(incoming := incoming)
  }

  lemma Observe1(m: Monitor, a: Event)
    ensures ObserveAll(m, [a]) == Observe(m, a)
  {
    assert [a][1..] == [];
  }

  lemma Observe2(m: Monitor, a: Event, b: Event)
    requires Observe(m, a).Some?
    ensures ObserveAll(m, [a, b]) == Observe(Observe(m, a).value, b)
  {
    assert [a, b][1..] == [b];
    Observe1(Observe(m, a).value, b);
  }

  lemma Observe3(m: Monitor, a: Event, b: Event, c: Event)
    requires Observe(m, a).Some? && Observe(Observe(m, a).value, b).Some?
    ensures ObserveAll(m, [a, b, c]) == Observe(Observe(Observe(m, a).value, b).value, c)
  {
    assert [a, b, c][1..] == [b, c];
    Observe2(Observe(m, a).value, b, c);
  }

  lemma ServedLegal(s: State, svc: Service, r: Round, services: nat, reqsMax: nat)
    requires Good(s, services, reqsMax) && Stays(s, reqsMax) && s.conn >= 0
    ensures var o := Served(s, svc, r);
            && Legal(MonitorOf(s), o, None) && Good(o.state, services, reqsMax) && o.kick in {None, Some(NoHandler)}
            && (o.flow.Gone? ==> o.state.reqCnt <= reqsMax + 1)
  {
    hide ObserveAll;
    var m, c := MonitorOf(s), s.conn;
    ObserveNone(m);
    Observe1(m, Request(c));
    Observe2(m, Request(c), Exit);
    Observe2(m, Request(c), Close(c));
    Observe3(m, Request(c), Disconnect(c), Exit);
    Observe3(m, Request(c), Disconnect(c), Close(c));
    assert [Request(c)] + [Disconnect(c), Exit] == [Request(c), Disconnect(c), Exit];
    assert [Request(c)] + [Disconnect(c)] + [Close(c)] == [Request(c), Disconnect(c), Close(c)];
    assert [Request(c)] + [] + [Close(c)] == [Request(c), Close(c)] == [Request(c)] + [Close(c)];
    assert [Request(c)] + [Exit] == [Request(c), Exit];
  }

  lemma ObserveNone(m: Monitor)
    ensures ObserveAll(m, []) == Some(m)
  {
  }

  lemma DropLegal(m: Monitor, svc: Service, reason: Reason)
    requires Observe(m, Kick(reason)).Some?
    ensures ObserveAll(m, DropEvents(m.holding.conn, svc, reason)) == Some(m.(holding := Nothing))
  {
    var c := m.holding.conn;
    Observe2(m, Kick(reason), Close(c));
    Observe3(m, Kick(reason), Disconnect(c), Close(c));
    assert [Kick(reason)] + [Disconnect(c)] + [Close(c)] == [Kick(reason), Disconnect(c), Close(c)];
    assert [Kick(reason)] + [] + [Close(c)] == [Kick(reason), Close(c)];
  }

  lemma BegunLegal(s: State, svc: Service, srv: nat, r: Round, conn: nat, seqNo: nat, services: nat, reqsMax: nat)
    requires Good(s, services, reqsMax) && s.conn < 0 && srv < services && s.reqCnt < reqsMax
    ensures var o := Begun(s, svc, srv, r, conn, seqNo);
            && Legal(Monitor(Nothing, Some((conn, seqNo)), false), o, None) && Good(o.state, services, reqsMax)
  {
    hide ObserveAll;
    var m := Monitor(Nothing, Some((conn, seqNo)), false);
    Observe1(m, Exit);
    Observe2(m, Acknowledged(seqNo), Close(conn));
    Observe2(m, Acknowledged(seqNo), Connected(conn));
    Observe3(m, Acknowledged(seqNo), Close(conn), Exit);
  }

  lemma RenewedLegal(s: State, services: seq<Service>, reqsMax: nat, r: Round, sockReady: bool, why: Option<Reason>)
    requires Good(s, |services|, reqsMax) && Known(r, |services|) && why in {None, Some(IdleClient), Some(NoHandler)}
    ensures var o := Renewed(s, services, reqsMax, r, sockReady, why);
            Legal(MonitorOf(s), o, None) && Good(o.state, |services|, reqsMax)
  {
    hide ObserveAll, Begun, DropEvents;
    var m := MonitorOf(s);
    ObserveNone(m);
    Observe1(m, Exit);
    var taking := (s.conn < 0 || !s.firstRequest) && sockReady && s.reqCnt < reqsMax;
    if !taking {
      var kick := if s.reqCnt >= reqsMax && !s.firstRequest then Some(CountReached) else why;
      if kick.Some? && s.conn >= 0 {
        DropLegal(m, services[s.srv], kick.value);
      }
    } else if r.receive.Got? {
      var c, n := r.receive.conn, r.receive.seqNo;
      var received := Received(c, n);
      Observe1(m, received);
      var holding := Observe(m, received).value;
      var dropped := if s.conn >= 0 then DropEvents(s.conn, services[s.srv], HighLoad) else [];
      var t := if s.conn >= 0 then Closed(s) else s;
      ObserveNone(holding);
      if s.conn >= 0 {
        DropLegal(holding, services[s.srv], HighLoad);
      }
      ObserveBoth(m, [received], dropped);
      var begun := Begun(t, services[r.receive.srv], r.receive.srv, r, c, n);
      BegunLegal(t, services[r.receive.srv], r.receive.srv, r, c, n, |services|, reqsMax);
      ObserveBoth(m, [received] + dropped, begun.events);
    }
  }

  lemma IteratedLegal(s: State, services: seq<Service>, reqsMax: nat, idleTimeout: TimeVal, r: Round)
    requires Good(s, |services|, reqsMax) && Stays(s, reqsMax) && Known(r, |services|)
    ensures var o := Iterated(s, services, reqsMax, idleTimeout, r);
            Legal(MonitorOf(s), o, None) && Good(o.state, |services|, reqsMax)
  {
    hide ObserveAll, Served, Renewed, CheckTimeout;
    var m := MonitorOf(s);
    ObserveNone(m);
    Observe1(m, Exit);
    var sockReady := r.select.Ready? && r.select.sock && (s.conn < 0 || !s.firstRequest);
    if s.conn >= 0 && r.select.Ready? && r.select.conn {
      var served := Served(s, services[s.srv], r);
      ServedLegal(s, services[s.srv], r, |services|, reqsMax);
      if served.flow == GoOn {
        RenewedLegal(served.state, services, reqsMax, r, sockReady, served.kick);
        ObserveBoth(m, served.events, Renewed(served.state, services, reqsMax, r, sockReady, served.kick).events);
      }
    } else {
      RenewedLegal(s, services, reqsMax, r, sockReady, None);
      RenewedLegal(s, services, reqsMax, r, sockReady, Some(IdleClient));
    }
  }

  lemma EndLegal(s: State, services: seq<Service>, reqsMax: nat, die: bool)
    requires Good(s, |services|, reqsMax) && (die || !Stays(s, reqsMax))
    ensures var end := ObserveAll(MonitorOf(s), EndEvents(s, services, die)); end.Some? && end.value.exited
  {
    hide ObserveAll;
    var m := MonitorOf(s);
    Observe1(m, Exit);
    assert [] + [Exit] == [Exit];
    if s.conn >= 0 {
      var kick := Kick(if die then Terminating else CountReached);
      Observe2(m, kick, Exit);
      Observe3(m, kick, Disconnect(s.conn), Exit);
      assert [kick] + [Disconnect(s.conn)] + [Exit] == [kick, Disconnect(s.conn), Exit];
      assert [kick] + [] + [Exit] == [kick, Exit];
    }
  }

  lemma {:induction false} LifeObserved(s: State, services: seq<Service>, reqsMax: nat, idleTimeout: TimeVal,
                                        rounds: seq<Round>)
    requires Good(s, |services|, reqsMax) && forall r :: r in rounds ==> Known(r, |services|)
    ensures var life := Life(s, services, reqsMax, idleTimeout, rounds);
            ObserveAll(MonitorOf(s), life.0).Some? && ObserveAll(MonitorOf(s), life.0).value.exited == life.1
    decreases |rounds|
  {
    hide ObserveAll, Iterated, EndEvents, Stays, Good;
    GoodPaired(s, |services|, reqsMax);
    if rounds == [] {
      ObserveNone(MonitorOf(s));
    } else if rounds[0].die || !Stays(s, reqsMax) {
      EndLegal(s, services, reqsMax, rounds[0].die);
    } else {
      var first := Iterated(s, services, reqsMax, idleTimeout, rounds[0]);
      IteratedLegal(s, services, reqsMax, idleTimeout, rounds[0]);
      if !first.flow.Gone? {
        LifeObserved(first.state, services, reqsMax, idleTimeout, rounds[1..]);
        ObserveBoth(MonitorOf(s), first.events, Life(first.state, services, reqsMax, idleTimeout, rounds[1..]).0);
      }
    }
  }

  lemma GoodPaired(s: State, services: nat, reqsMax: nat)
    requires Good(s, services, reqsMax)
    ensures Paired(s, services)
  {
  }

  const FRESH := State(-1, -1, 0, false, TimeVal(0, 0), TimeVal(0, 0))

  /** Whatever the system and the handlers report, a slave does nothing that the automaton rules out,
      and does nothing more once it has ended. */
  lemma LifeIsLegal(services: seq<Service>, reqsMax: nat, idleTimeout: TimeVal, rounds: seq<Round>)
    requires forall r :: r in rounds ==> Known(r, |services|)
    ensures var life := Life(FRESH, services, reqsMax, idleTimeout, rounds);
            Watch(life.0).Some? && Watch(life.0).value.exited == life.1
  {
    LifeObserved(FRESH, services, reqsMax, idleTimeout, rounds);
    WatchIsObserveAll(Life(FRESH, services, reqsMax, idleTimeout, rounds).0);
  }

  /** Requests served and connections acknowledged, which req_cnt counts. */
  function Work(events: seq<Event>): nat {
    if events == [] then 0
    else (if events[0].Request? || events[0].Acknowledged? then 1 else 0) + Work(events[1..])
  }

  lemma {:induction false} WorkBoth(a: seq<Event>, b: seq<Event>)
    ensures Work(a + b) == Work(a) + Work(b)
  {
    if a == [] {
      assert a + b == b;
    } else {
      assert (a + b)[1..] == a[1..] + b;
      WorkBoth(a[1..], b);
    }
  }

  lemma Work123(a: Event, b: Event, c: Event)
    ensures Work([]) == 0 && Work([a]) == (if a.Request? || a.Acknowledged? then 1 else 0)
    ensures Work([a, b]) == Work([a]) + Work([b]) && Work([a, b, c]) == Work([a]) + Work([b]) + Work([c])
  {
    assert [a][1..] == [] && [b][1..] == [] && [c][1..] == [];
    assert [a, b] == [a] + [b] && [a, b, c] == [a] + [b] + [c];
    WorkBoth([a], [b]);
    WorkBoth([a] + [b], [c]);
  }

  lemma ServedWork(s: State, svc: Service, r: Round)
    requires s.conn >= 0
    ensures Work(Served(s, svc, r).events) == Served(s, svc, r).state.reqCnt - s.reqCnt
  {
    hide Work;
    var c := s.conn;
    Work123(Request(c), Disconnect(c), Exit);
    Work123(Request(c), Disconnect(c), Close(c));
    Work123(Request(c), Close(c), Exit);
    Work123(Request(c), Exit, Exit);
    assert [Request(c)] + [Disconnect(c), Exit] == [Request(c), Disconnect(c), Exit];
    assert [Request(c)] + [Disconnect(c)] + [Close(c)] == [Request(c), Disconnect(c), Close(c)];
    assert [Request(c)] + [] + [Close(c)] == [Request(c), Close(c)] == [Request(c)] + [Close(c)];
    assert [Request(c)] + [Exit] == [Request(c), Exit];
    Work123(Disconnect(c), Close(c), Exit);
    Work123(Close(c), Exit, Exit);
    Work123(Exit, Exit, Exit);
  }

  lemma RenewedWork(s: State, services: seq<Service>, reqsMax: nat, r: Round, sockReady: bool, why: Option<Reason>)
    requires Paired(s, |services|) && Known(r, |services|)
    ensures var o := Renewed(s, services, reqsMax, r, sockReady, why); Work(o.events) == o.state.reqCnt - s.reqCnt
  {
    hide Work;
    Work123(Exit, Exit, Exit);
    if r.receive.Got? {
      var c, n := r.receive.conn, r.receive.seqNo;
      Work123(Received(c, n), Exit, Exit);
      Work123(Acknowledged(n), Close(c), Exit);
      Work123(Acknowledged(n), Connected(c), Exit);
      Work123(Close(c), Connected(c), Exit);
      Work123(Connected(c), Exit, Exit);
    }
    if s.conn >= 0 {
      forall reason: Reason ensures Work(DropEvents(s.conn, services[s.srv], reason)) == 0 {
        DropWork(s.conn, services[s.srv], reason);
      }
    }
    var taking := (s.conn < 0 || !s.firstRequest) && sockReady && s.reqCnt < reqsMax;
    if taking && r.receive.Got? {
      var received := [Received(r.receive.conn, r.receive.seqNo)];
      var kick := if s.reqCnt >= reqsMax && !s.firstRequest then Some(CountReached) else Some(HighLoad);
      var dropped := if s.conn >= 0 then DropEvents(s.conn, services[s.srv], kick.value) else [];
      var t := if s.conn >= 0 then Closed(s) else s;
      var begun := Begun(t, services[r.receive.srv], r.receive.srv, r, r.receive.conn, r.receive.seqNo);
      WorkBoth(received, dropped);
      WorkBoth(received + dropped, begun.events);
    }
  }

  lemma DropWork(conn: nat, svc: Service, reason: Reason)
    ensures Work(DropEvents(conn, svc, reason)) == 0
  {
    hide Work;
    Work123(Kick(reason), Disconnect(conn), Close(conn));
    Work123(Kick(reason), Close(conn), Close(conn));
    Work123(Disconnect(conn), Close(conn), Close(conn));
    Work123(Close(conn), Close(conn), Close(conn));
    assert [Kick(reason)] + [Disconnect(conn)] + [Close(conn)] == [Kick(reason), Disconnect(conn), Close(conn)];
    assert [Kick(reason)] + [] + [Close(conn)] == [Kick(reason), Close(conn)];
  }

  lemma IteratedWork(s: State, services: seq<Service>, reqsMax: nat, idleTimeout: TimeVal, r: Round)
    requires Paired(s, |services|) && Known(r, |services|)
    ensures var o := Iterated(s, services, reqsMax, idleTimeout, r); Work(o.events) == o.state.reqCnt - s.reqCnt
  {
    hide Work, Served, Renewed, CheckTimeout;
    Work123(Exit, Exit, Exit);
    var sockReady := r.select.Ready? && r.select.sock && (s.conn < 0 || !s.firstRequest);
    if s.conn >= 0 && r.select.Ready? && r.select.conn {
      var served := Served(s, services[s.srv], r);
      ServedWork(s, services[s.srv], r);
      ServedPaired(s, services[s.srv], r, |services|);
      RenewedWork(served.state, services, reqsMax, r, sockReady, served.kick);
      WorkBoth(served.events, Renewed(served.state, services, reqsMax, r, sockReady, served.kick).events);
    } else {
      RenewedWork(s, services, reqsMax, r, sockReady, None);
      RenewedWork(s, services, reqsMax, r, sockReady, Some(IdleClient));
    }
  }

  lemma ServedPaired(s: State, svc: Service, r: Round, services: nat)
    requires Paired(s, services) && s.conn >= 0
    ensures Paired(Served(s, svc, r).state, services)
  {
  }

  lemma EndWork(s: State, services: seq<Service>, die: bool)
    requires Paired(s, |services|)
    ensures Work(EndEvents(s, services, die)) == 0
  {
    hide Work;
    Work123(Exit, Exit, Exit);
    assert [] + [Exit] == [Exit];
    if s.conn >= 0 {
      var kick := Kick(if die then Terminating else CountReached);
      Work123(kick, Disconnect(s.conn), Exit);
      Work123(Disconnect(s.conn), Exit, Exit);
      Work123(kick, Exit, Exit);
      assert [kick] + [Disconnect(s.conn)] + [Exit] == [kick, Disconnect(s.conn), Exit];
      assert [kick] + [] + [Exit] == [kick, Exit];
    }
  }

  /** A slave serves no more requests and connections together than its limit and one. */
  lemma {:induction false} WorkIsLimited(s: State, services: seq<Service>, reqsMax: nat, idleTimeout: TimeVal,
                                         rounds: seq<Round>)
    requires Good(s, |services|, reqsMax) && forall r :: r in rounds ==> Known(r, |services|)
    ensures s.reqCnt + Work(Life(s, services, reqsMax, idleTimeout, rounds).0) <= reqsMax + 1
    decreases |rounds|
  {
    hide Work, Iterated, EndEvents, Stays;
    if rounds == [] {
      Work123(Exit, Exit, Exit);
    } else if rounds[0].die || !Stays(s, reqsMax) {
      EndWork(s, services, rounds[0].die);
    } else {
      var first := Iterated(s, services, reqsMax, idleTimeout, rounds[0]);
      IteratedLegal(s, services, reqsMax, idleTimeout, rounds[0]);
      IteratedWork(s, services, reqsMax, idleTimeout, rounds[0]);
      if !first.flow.Gone? {
        WorkIsLimited(first.state, services, reqsMax, idleTimeout, rounds[1..]);
        WorkBoth(first.events, Life(first.state, services, reqsMax, idleTimeout, rounds[1..]).0);
      }
    }
  }

  // ----- The loop itself

  class Slave {
    const services: seq<Service>
    const reqsMax: nat
    const idleTimeout: TimeVal
    var conn: int
    var srv: int
    var reqCnt: nat
    var firstRequest: bool
    var clientStart: TimeVal
    var clientDone: TimeVal
    ghost var trace: seq<Event>

    ghost predicate Valid()
      reads this
    {
      Paired(Now(), |services|)
    }

    ghost function Now(): State
      reads this
    {
      State(conn, srv, reqCnt, firstRequest, clientStart, clientDone)
    }

    constructor (services: seq<Service>, reqsMax: nat, idleTimeout: TimeVal)
      ensures Valid() && Now() == FRESH && trace == []
      ensures this.services == services && this.reqsMax == reqsMax && this.idleTimeout == idleTimeout
    {
      this.services, this.reqsMax, this.idleTimeout := services, reqsMax, idleTimeout;
      conn, srv, reqCnt, firstRequest := -1, -1, 0, false;
      clientStart, clientDone, trace := TimeVal(0, 0), TimeVal(0, 0), [];
    }

    /** close(conn); conn = -1; srv = -1. */
    method CloseConn()
      requires conn >= 0
      modifies this`conn, this`srv, this`trace
      ensures Now() == Closed(old(Now())) && trace == old(trace) + [Close(old(conn))]
    {
      trace := trace + [Close(conn)];
      conn, srv := -1, -1;
    }

    /** The request branch. */
    method Serve(r: Round) returns (flow: Flow, noHandler: bool)
      requires Valid() && conn >= 0
      modifies this
      ensures Valid()
      ensures var served := Served(old(Now()), services[old(srv)], r);
              && Now() == served.state && trace == old(trace) + served.events && flow == served.flow
              && served.kick == if noHandler then Some(NoHandler) else None
    {
      flow, noHandler := GoOn, false;
      if !services[srv].onRequest {
        noHandler := true;
        return;
      }
      reqCnt := reqCnt + 1;
      firstRequest := false;
      trace := trace + [Request(conn)];
      if r.onRequest == ENOTCONN {
        if services[srv].onDisconnect {
          trace := trace + [Disconnect(conn)];
          if r.onDisconnect != 0 {
            trace := trace + [Exit];
            flow := Gone;
            return;
          }
        }
        CloseConn();
      } else if r.onRequest > 0 {
        CloseConn();
        flow := NextRound;
        return;
      } else if r.onRequest < 0 {
        trace := trace + [Exit];
        flow := Gone;
        return;
      } else {
        clientDone := r.requestDone;
      }
      if !CheckTimeout(TimeVal(NEW_CLIENT_DURATION, 0), clientStart, r.now) {
        flow := NextRound;
      }
    }

    /** Drops the connection held, with its disconnect handler. */
    method Drop(reason: Reason)
      requires Valid() && conn >= 0
      modifies this`conn, this`srv, this`trace
      ensures Now() == Closed(old(Now()))
      ensures trace == old(trace) + DropEvents(old(conn), services[old(srv)], reason)
    {
      trace := trace + [Kick(reason)];
      if services[srv].onDisconnect {
        trace := trace + [Disconnect(conn)];
      }
      CloseConn();
    }

    /** A new connection in place of none: acknowledge it, and make it ready for its first request. */
    method Begin(r: Round, newConn: nat, newSrv: nat, seqNo: nat) returns (gone: bool)
      requires newSrv < |services|
      modifies this
      ensures Valid()
      ensures var begun := Begun(old(Now()), services[newSrv], newSrv, r, newConn, seqNo);
              Now() == begun.state && trace == old(trace) + begun.events && gone == begun.flow.Gone?
    {
      gone := false;
      conn, srv := newConn, newSrv;
      clientStart := r.connStart;
      if !r.ackSent {
        trace := trace + [Exit];
        gone := true;
        return;
      }
      trace := trace + [Acknowledged(seqNo)];
      reqCnt := reqCnt + 1;
      if !r.nonBlocking {
        CloseConn();
        return;
      }
      if services[srv].onNewConn && r.onNewConn != 0 {
        CloseConn();
        if r.onNewConn < 0 {
          trace := trace + [Exit];
          gone := true;
        }
        return;
      }
      clientDone := r.connDone;
      trace := trace + [Connected(conn)];
      firstRequest := true;
    }

    /** One round of the loop; false when the process has exited in it. */
    method Iterate(r: Round) returns (running: bool)
      requires Valid() && Known(r, |services|)
      modifies this
      ensures Valid()
      ensures var done := Iterated(old(Now()), services, reqsMax, idleTimeout, r);
              Now() == done.state && trace == old(trace) + done.events && running == !done.flow.Gone?
    {
      hide Served, Renewed, CheckTimeout;
      running := true;
      var listening := conn < 0 || !firstRequest;
      var connReady, sockReady := false, false;
      match r.select {
        case Interrupted => return;
        case Broken =>
          trace := trace + [Exit];
          return false;
        case TimedOut =>
          if conn < 0 {
            return;
          }
        case Ready(c, s) =>
          connReady, sockReady := c && conn >= 0, s && listening;
      }
      var kick: Option<Reason> := None;
      if conn >= 0 && connReady {
        var flow, noHandler := Serve(r);
        if flow != GoOn {
          return flow != Gone;
        }
        if noHandler {
          kick := Some(NoHandler);
        }
      } else if conn >= 0 && CheckTimeout(idleTimeout, clientDone, r.now) {
        kick := Some(IdleClient);
      }
      running := Renew(r, sockReady, kick);
    }

    /** The second half of a round: take a new connection if there is one, drop the old one if it has
        to go. */
    method Renew(r: Round, sockReady: bool, why: Option<Reason>) returns (running: bool)
      requires Valid() && Known(r, |services|)
      modifies this
      ensures Valid()
      ensures var renewed := Renewed(old(Now()), services, reqsMax, r, sockReady, why);
              Now() == renewed.state && trace == old(trace) + renewed.events && running == !renewed.flow.Gone?
    {
      hide Begun, DropEvents;
      running := true;
      var kick := why;
      var newConn: int, newSrv: int, seqNo: nat := -1, -1, 0;
      if (conn < 0 || !firstRequest) && sockReady && reqCnt < reqsMax {
        match r.receive {
          case Again => return;
          case Failing =>
            trace := trace + [Exit];
            return false;
          case Got(c, s, n) =>
            newConn, newSrv, seqNo := c, s, n;
            trace := trace + [Received(c, n)];
        }
        kick := Some(HighLoad);
      }
      if reqCnt >= reqsMax && !firstRequest {
        kick := Some(CountReached);
      }
      if kick.Some? && conn >= 0 {
        Drop(kick.value);
      }
      if newConn >= 0 {
        var gone := Begin(r, newConn, newSrv, seqNo);
        running := !gone;
      }
    }

    /** The slave's life: the loop, and what comes after it. */
    method Run(rounds: seq<Round>) returns (ended: bool)
      requires Valid() && forall r :: r in rounds ==> Known(r, |services|)
      modifies this
      ensures Valid()
      ensures var life := Life(old(Now()), services, reqsMax, idleTimeout, rounds);
              trace == old(trace) + life.0 && ended == life.1
    {
      hide Iterated;
      ghost var start := Now();
      var i := 0;
      assert rounds[0..] == rounds;
      while i < |rounds|
        invariant 0 <= i <= |rounds| && Valid()
        invariant var life := Life(start, services, reqsMax, idleTimeout, rounds);
                  var rest := Life(Now(), services, reqsMax, idleTimeout, rounds[i..]);
                  old(trace) + life.0 == trace + rest.0 && life.1 == rest.1
      {
        var r := rounds[i];
        if r.die || !(reqCnt < reqsMax || (conn >= 0 && firstRequest)) {
          if conn >= 0 {
            trace := trace + [Kick(if r.die then Terminating else CountReached)];
            if services[srv].onDisconnect {
              trace := trace + [Disconnect(conn)];
            }
          }
          trace := trace + [Exit];
          return true;
        }
        var running := Iterate(r);
        assert rounds[i..][1..] == rounds[i + 1..];
        if !running {
          return true;
        }
        i := i + 1;
      }
      ended := false;
    }
  }
}
