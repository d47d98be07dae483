/** What a slave may do to its connections, as an automaton over the calls it makes. */
module SlaveTrace {
  import opened CText

  datatype Reason = IdleClient | HighLoad | NoHandler | CountReached | Terminating

  datatype Event =
    | Received(conn: nat, seqNo: nat) // a descriptor from the master
    | Acknowledged(seqNo: nat)        // its number back to the master
    | Connected(conn: nat)            // the first request is expected
    | Request(conn: nat)              // on_request_hnd
    | Kick(reason: Reason)            // the connection held is to go
    | Disconnect(conn: nat)           // on_disconnect_hnd
    | Close(conn: nat)
    | Exit

  /** The connection held: acknowledged, waiting for its first request, served, about to be closed, and
      that after its disconnect handler. */
  datatype Holding = Nothing | Opening(conn: nat) | Waiting(conn: nat) | Active(conn: nat)
                   | Condemned(conn: nat) | Leaving(conn: nat)

  datatype Monitor = Monitor(holding: Holding, incoming: Option<(nat, nat)>, exited: bool)

  const START := Monitor(Nothing, None, false)

  /** The automaton. None: a slave never does this. */
  function Observe(m: Monitor, e: Event): Option<Monitor> {
    if m.exited then None
    else
      match e
      case Received(c, s) =>
        if m.incoming == None && (m.holding.Nothing? || m.holding.Active?)
        then Some(m.(incoming := Some((c, s)))) else None
      case Acknowledged(s) =>
        if m.holding.Nothing? && m.incoming.Some? && m.incoming.value.1 == s
        then Some(m.(holding := Opening(m.incoming.value.0), incoming := None)) else None
      case Connected(c) =>
        if m.holding == Opening(c) then Some(m.(holding := Waiting(c))) else None
      case Request(c) =>
        if m.holding == Waiting(c) || m.holding == Active(c) then Some(m.(holding := Active(c))) else None
      case Kick(reason) =>
        if m.holding.Active? || (m.holding.Waiting? && reason in {IdleClient, NoHandler, Terminating})
        then Some(m.(holding := Condemned(m.holding.conn))) else None
      case Disconnect(c) =>
        if m.holding == Active(c) || m.holding == Condemned(c) then Some(m.(holding := Leaving(c))) else None
      case Close(c) =>
        if m.holding in {Opening(c), Active(c), Condemned(c), Leaving(c)} then Some(m.(holding := Nothing)) else None
      case Exit => Some(m.(exited := true))
  }

  function Watch(trace: seq<Event>): Option<Monitor> {
    if trace == [] then Some(START)
    else
      var m := Watch(trace[..|trace| - 1]);
      if m == None then None else Observe(m.value, trace[|trace| - 1])
  }

  lemma {:induction false} PrefixLegal(trace: seq<Event>, k: nat)
    requires Watch(trace).Some? && k <= |trace|
    ensures Watch(trace[..k]).Some?
    ensures k < |trace| ==> Observe(Watch(trace[..k]).value, trace[k]).Some?
  {
    if k < |trace| {
      var init := trace[..|trace| - 1];
      PrefixLegal(init, k);
      assert init[..k] == trace[..k];
    } else {
      assert trace[..k] == trace;
    }
  }

  /** The automaton from some state on. */
  function ObserveAll(m: Monitor, events: seq<Event>): Option<Monitor>
    decreases |events|
  {
    if events == [] then Some(m)
    else
      var next := Observe(m, events[0]);
      if next == None then None else ObserveAll(next.value, events[1..])
  }

  lemma {:induction false} ObserveBoth(m: Monitor, a: seq<Event>, b: seq<Event>)
    ensures ObserveAll(m, a + b)
            == if ObserveAll(m, a).Some? then ObserveAll(ObserveAll(m, a).value, b) else None
    decreases |a|
  {
    if a == [] {
      assert a + b == b;
    } else {
      assert (a + b)[1..] == a[1..] + b;
      if Observe(m, a[0]).Some? {
        ObserveBoth(Observe(m, a[0]).value, a[1..], b);
      }
    }
  }

  lemma {:induction false} WatchIsObserveAll(trace: seq<Event>)
    ensures Watch(trace) == ObserveAll(START, trace)
  {
    if trace != [] {
      var n := |trace| - 1;
      WatchIsObserveAll(trace[..n]);
      ObserveBoth(START, trace[..n], [trace[n]]);
      assert trace[..n] + [trace[n]] == trace;
      assert forall m :: ObserveAll(m, [trace[n]]) == Observe(m, trace[n]) by {
        assert [trace[n]][1..] == [];
      }
    }
  }

  // ----- What the automaton rules out

  lemma {:induction false} AfterDisconnect(trace: seq<Event>, j: nat)
    requires Watch(trace).Some? && j < |trace| && trace[j].Disconnect?
    requires forall i :: j < i < |trace| ==> !trace[i].Connected?
    ensures var h := Watch(trace).value.holding; h.Leaving? || h.Nothing? || h.Opening?
  {
    var init := trace[..|trace| - 1];
    if j < |init| {
      assert forall i :: 0 <= i < |init| ==> init[i] == trace[i];
      AfterDisconnect(init, j);
    }
  }

  /** The disconnect handler runs at most once per connection: between two calls a connection is made. */
  lemma DisconnectOnce(trace: seq<Event>, j: nat, k: nat)
    requires Watch(trace).Some? && j < k < |trace| && trace[j].Disconnect? && trace[k].Disconnect?
    ensures exists i :: j < i < k && trace[i].Connected?
  {
    PrefixLegal(trace, k);
    if forall i :: j < i < k ==> !trace[i].Connected? {
      AfterDisconnect(trace[..k], j);
    }
  }

  lemma {:induction false} AfterAcknowledged(trace: seq<Event>, j: nat)
    requires Watch(trace).Some? && j < |trace| && trace[j].Acknowledged?
    requires forall i :: j < i < |trace| ==> !trace[i].Close?
    ensures !Watch(trace).value.holding.Nothing?
  {
    var init := trace[..|trace| - 1];
    if j < |init| {
      assert forall i :: 0 <= i < |init| ==> init[i] == trace[i];
      AfterAcknowledged(init, j);
    }
  }

  /** A connection held is closed before a new one takes its place. */
  lemma ClosedBeforeNext(trace: seq<Event>, j: nat, k: nat)
    requires Watch(trace).Some? && j < k < |trace| && trace[j].Acknowledged? && trace[k].Acknowledged?
    ensures exists i :: j < i < k && trace[i].Close?
  {
    PrefixLegal(trace, k);
    if forall i :: j < i < k ==> !trace[i].Close? {
      AfterAcknowledged(trace[..k], j);
    }
  }

  ghost predicate ReceivedAt(trace: seq<Event>, i: nat, c: nat, s: nat) {
    && i < |trace| && trace[i] == Received(c, s)
    && forall j :: i < j < |trace| ==> !trace[j].Received? && !trace[j].Acknowledged?
  }

  lemma {:induction false} IncomingFrom(trace: seq<Event>)
    requires Watch(trace).Some? && Watch(trace).value.incoming.Some?
    ensures exists i :: ReceivedAt(trace, i, Watch(trace).value.incoming.value.0, Watch(trace).value.incoming.value.1)
  {
    var n := |trace| - 1;
    var (c, s) := Watch(trace).value.incoming.value;
    if trace[n].Received? {
      assert ReceivedAt(trace, n, c, s);
    } else {
      IncomingFrom(trace[..n]);
      var i :| ReceivedAt(trace[..n], i, c, s);
      assert ReceivedAt(trace, i, c, s);
    }
  }

  /** An acknowledgement carries the number of the connection received last, which was not
      acknowledged before. */
  lemma OwnNumber(trace: seq<Event>, k: nat)
    requires Watch(trace).Some? && k < |trace| && trace[k].Acknowledged?
    ensures exists i, c :: ReceivedAt(trace[..k], i, c, trace[k].seqNo)
  {
    PrefixLegal(trace, k);
    IncomingFrom(trace[..k]);
  }

  ghost predicate RequestedAt(trace: seq<Event>, i: nat, c: nat) {
    i < |trace| && trace[i] == Request(c) && forall j :: i < j < |trace| ==> !trace[j].Connected?
  }

  lemma {:induction false} ActiveFrom(trace: seq<Event>)
    requires Watch(trace).Some? && Watch(trace).value.holding.Active?
    ensures exists i :: RequestedAt(trace, i, Watch(trace).value.holding.conn)
  {
    var n := |trace| - 1;
    var c := Watch(trace).value.holding.conn;
    if trace[n].Request? {
      assert RequestedAt(trace, n, c);
    } else {
      ActiveFrom(trace[..n]);
      var i :| RequestedAt(trace[..n], i, c);
      assert RequestedAt(trace, i, c);
    }
  }

  /** A connection that waits for its first request is never dropped for load or count: the one that
      is dropped had a request since it was made. */
  lemma DroppedAfterRequest(trace: seq<Event>, k: nat)
    requires Watch(trace).Some? && k < |trace| && trace[k].Kick? && trace[k].reason in {HighLoad, CountReached}
    ensures exists i, c :: RequestedAt(trace[..k], i, c)
  {
    PrefixLegal(trace, k);
    ActiveFrom(trace[..k]);
  }
}
