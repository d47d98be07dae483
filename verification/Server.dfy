/** The master and its slaves as one system: steps in any order, slaves that die and are replaced,
    acknowledgements that overtake each other. */
module Server {
  import opened CText
  import opened Master

  /** A connection: the number of its arrival at the master, and the number it was dispatched under. */
  datatype Conn = Conn(id: nat, seqNo: nat)

  /** A slave between taking a connection from the queue and acknowledging it, or not. */
  datatype Worker = Free | Took(conn: Conn)

  /** Where a connection is, for ever or for now. */
  datatype Place = Refused | Queued | TakenBy(slave: nat)

  datatype System = System(
    dispatched: nat, accepted: nat, fifo: seq<Conn>, slaves: seq<Worker>, acks: seq<nat>, places: seq<Place>,
    // History: the connections taken and the numbers acknowledged, both in order, whether a send
    // failed, and whether a slave died with an acknowledgement still to send.
    taken: seq<Conn>, acked: seq<nat>, sendFailed: bool, ackLost: bool)

  datatype Step = Arrive(sent: bool) | Take(slave: nat) | Ack(slave: nat) | Die(slave: nat) | ReadAck

  function Idle(n: nat): (r: seq<Worker>)
    ensures |r| == n && forall i :: 0 <= i < n ==> r[i] == Free
  {
    seq(n, _ => Free)
  }

  function Start(slaves: nat): System {
    System(0, 0, [], Idle(slaves), [], [], [], [], false, false)
  }

  function Arrival(s: System, sent: bool, window: nat): System
    requires s.dispatched < TWO64 - 1 && s.accepted < TWO64
  {
    if !Admits(s.dispatched, s.accepted, window) then s.(places := s.places + [Refused])
    else if !sent then
      s.(dispatched := s.dispatched + 1, places := s.places + [Refused], sendFailed := true)
    else
      s.(dispatched := s.dispatched + 1, places := s.places + [Queued],
         fifo := s.fifo + [Conn(|s.places|, s.dispatched)])
  }

  /** The state after a step, or None when it cannot happen. Arrivals stop before the dispatch counter
      wraps around. */
  function Next(s: System, step: Step, window: nat): Option<System> {
    match step
    case Arrive(sent) =>
      if s.dispatched < TWO64 - 1 && s.accepted < TWO64 then Some(Arrival(s, sent, window)) else None
    case Take(i) =>
      if s.fifo != [] && i < |s.slaves| && s.slaves[i].Free? && s.fifo[0].id < |s.places| then
        Some(s.(fifo := s.fifo[1..], slaves := s.slaves[i := Took(s.fifo[0])], taken := s.taken + [s.fifo[0]],
                places := s.places[s.fifo[0].id := TakenBy(i)]))
      else None
    case Ack(i) =>
      if i < |s.slaves| && s.slaves[i].Took? then
        var a := s.slaves[i].conn.seqNo;
        Some(s.(slaves := s.slaves[i := Free], acks := s.acks + [a], acked := s.acked + [a]))
      else None
    case Die(i) =>
      if i < |s.slaves| then
        Some(s.(slaves := s.slaves[i := Free], ackLost := s.ackLost || s.slaves[i].Took?))
      else None
    case ReadAck =>
      if s.acks != [] && s.acks[0] < TWO64 && s.dispatched < TWO64 && s.accepted < TWO64 then
        Some(s.(acks := s.acks[1..], accepted := AfterAck(s.dispatched, s.accepted, s.acks[0])))
      else None
  }

  /** The state after a run from the start, when each of its steps can happen. */
  function Run(steps: seq<Step>, slaves: nat, window: nat): Option<System> {
    if steps == [] then Some(Start(slaves))
    else
      var s := Run(steps[..|steps| - 1], slaves, window);
      if s == None then None else Next(s.value, steps[|steps| - 1], window)
  }

  // ----- The invariant

  /** All connections that entered the queue, in their order. */
  function Entered(s: System): seq<Conn> {
    s.taken + s.fifo
  }

  /** Numbers and arrivals grow along the queue, from the first connection ever taken to the last. */
  ghost predicate Ordered(s: System) {
    var all := Entered(s);
    && (forall j, k :: 0 <= j < k < |all| ==> all[j].seqNo < all[k].seqNo && all[j].id < all[k].id)
    && (forall k :: 0 <= k < |all| ==> all[k].seqNo < s.dispatched && all[k].id < |s.places|)
    && s.dispatched < TWO64
  }

  /** The place of each connection says where in the history it is. */
  ghost predicate Placed(s: System) {
    var all := Entered(s);
    && (forall k :: 0 <= k < |all| && all[k].id < |s.places| ==>
          if k < |s.taken| then s.places[all[k].id].TakenBy? else s.places[all[k].id] == Queued)
    && (forall id :: 0 <= id < |s.places| ==> (s.places[id] == Refused <==> !HasId(all, id)))
  }

  ghost predicate HasId(conns: seq<Conn>, id: nat) {
    exists k :: 0 <= k < |conns| && conns[k].id == id
  }

  ghost predicate HasNumber(conns: seq<Conn>, a: nat) {
    exists k :: 0 <= k < |conns| && conns[k].seqNo == a
  }

  /** Acknowledgements sent are of connections taken, each once; a slave that has one still to send
      holds a connection that no other slave holds. */
  ghost predicate Acknowledged(s: System) {
    && (forall j, k :: 0 <= j < k < |s.acked| ==> s.acked[j] != s.acked[k])
    && (forall k :: 0 <= k < |s.acked| ==> HasNumber(s.taken, s.acked[k]))
    && (forall k :: 0 <= k < |s.acks| ==> s.acks[k] in s.acked)
    && (forall i :: 0 <= i < |s.slaves| && s.slaves[i].Took? ==>
          s.slaves[i].conn in s.taken && s.slaves[i].conn.seqNo !in s.acked)
    && (forall i, j :: 0 <= i < j < |s.slaves| && s.slaves[i].Took? && s.slaves[j].Took? ==>
          s.slaves[i].conn.seqNo != s.slaves[j].conn.seqNo)
  }

  /** The accepted counter is a number acknowledged, or 0, and the window is kept. */
  ghost predicate Counted(s: System, window: nat) {
    && (s.accepted == 0 || s.accepted in s.acked)
    && s.accepted <= s.dispatched && s.dispatched - s.accepted <= window
    && (forall k :: 0 <= k < |s.acked| ==> s.acked[k] <= s.accepted || s.acked[k] in s.acks)
  }

  /** Nothing is missing as long as no send failed and no acknowledgement was lost. */
  ghost predicate Complete(s: System) {
    && (!s.sendFailed ==> |Entered(s)| == s.dispatched)
    && (!s.ackLost ==> forall k :: 0 <= k < |s.taken| ==> s.taken[k].seqNo in s.acked || Held(s.slaves, s.taken[k]))
  }

  ghost predicate Held(slaves: seq<Worker>, c: Conn) {
    exists i :: 0 <= i < |slaves| && slaves[i] == Took(c)
  }

  ghost predicate Inv(s: System, slaves: nat, window: nat) {
    |s.slaves| == slaves && Ordered(s) && Placed(s) && Acknowledged(s) && Counted(s, window) && Complete(s)
  }

  lemma StartInv(slaves: nat, window: nat)
    ensures Inv(Start(slaves), slaves, window)
  {
  }

  // ----- Each step keeps it

  lemma ArriveOrdered(s: System, sent: bool, window: nat)
    requires Ordered(s) && s.dispatched < TWO64 - 1 && s.accepted < TWO64
    ensures Ordered(Arrival(s, sent, window))
  {
    var t := Arrival(s, sent, window);
    assert Entered(t) == Entered(s) + t.fifo[|s.fifo|..];
  }

  lemma ArrivePlaced(s: System, sent: bool, window: nat)
    requires Ordered(s) && Placed(s) && s.dispatched < TWO64 - 1 && s.accepted < TWO64
    ensures Placed(Arrival(s, sent, window))
  {
    var t, all := Arrival(s, sent, window), Entered(s);
    if t.fifo == s.fifo {
      assert Entered(t) == all;
      assert !HasId(all, |s.places|);
    } else {
      var c := t.fifo[|s.fifo|];
      assert Entered(t) == all + [c];
      forall id | 0 <= id < |t.places| ensures HasId(Entered(t), id) <==> HasId(all, id) || id == c.id {
        HasIdAppend(all, c, id);
      }
    }
  }

  lemma HasIdAppend(all: seq<Conn>, c: Conn, id: nat)
    ensures HasId(all + [c], id) <==> HasId(all, id) || id == c.id
  {
    if HasId(all, id) {
      var k :| 0 <= k < |all| && all[k].id == id;
      assert (all + [c])[k].id == id;
    }
    assert (all + [c])[|all|] == c;
  }

  lemma ArriveCounted(s: System, sent: bool, window: nat)
    requires Ordered(s) && Acknowledged(s) && Counted(s, window) && Complete(s)
    requires s.dispatched < TWO64 - 1 && s.accepted < TWO64
    ensures var t := Arrival(s, sent, window); Acknowledged(t) && Counted(t, window) && Complete(t)
  {
    var t := Arrival(s, sent, window);
    assert Entered(t) == Entered(s) + t.fifo[|s.fifo|..];
  }

  /** A take moves the head of the queue into the history. */
  lemma TakeSame(s: System, i: nat, window: nat)
    requires Next(s, Take(i), window).Some?
    ensures Entered(Next(s, Take(i), window).value) == Entered(s)
  {
  }

  lemma TakePlaced(s: System, i: nat, window: nat)
    requires Ordered(s) && Placed(s) && Next(s, Take(i), window).Some?
    ensures Placed(Next(s, Take(i), window).value)
  {
    TakeSame(s, i, window);
    var all := Entered(s);
    assert all[|s.taken|] == s.fifo[0];
    assert HasId(all, s.fifo[0].id);
  }

  /** The head of the queue has a higher number than all that were taken or acknowledged. */
  lemma HeadIsNew(s: System)
    requires Ordered(s) && Acknowledged(s) && s.fifo != []
    ensures forall k :: 0 <= k < |s.taken| ==> s.taken[k].seqNo < s.fifo[0].seqNo
    ensures forall k :: 0 <= k < |s.acked| ==> s.acked[k] < s.fifo[0].seqNo
  {
    var all := Entered(s);
    assert all[|s.taken|] == s.fifo[0];
    forall k | 0 <= k < |s.taken| ensures s.taken[k].seqNo < s.fifo[0].seqNo {
      assert all[k] == s.taken[k];
    }
    forall k | 0 <= k < |s.acked| ensures s.acked[k] < s.fifo[0].seqNo {
      assert HasNumber(s.taken, s.acked[k]);
      var j :| 0 <= j < |s.taken| && s.taken[j].seqNo == s.acked[k];
    }
  }

  lemma TakeAcknowledged(s: System, i: nat, window: nat)
    requires Ordered(s) && Acknowledged(s) && Next(s, Take(i), window).Some?
    ensures Acknowledged(Next(s, Take(i), window).value)
  {
    hide Ordered;
    var t := Next(s, Take(i), window).value;
    HeadIsNew(s);
    TakeNumbers(s, i, window);
    TakeHeld(s, i, window);
    forall a, b | 0 <= a < b < |t.slaves| && t.slaves[a].Took? && t.slaves[b].Took?
      ensures t.slaves[a].conn.seqNo != t.slaves[b].conn.seqNo
    {
      if a == i {
        NumberBelow(s, b);
      } else if b == i {
        NumberBelow(s, a);
      }
    }
  }

  lemma TakeNumbers(s: System, i: nat, window: nat)
    requires Acknowledged(s) && Next(s, Take(i), window).Some?
    ensures var t := Next(s, Take(i), window).value;
            forall k :: 0 <= k < |t.acked| ==> HasNumber(t.taken, t.acked[k])
  {
    var t := Next(s, Take(i), window).value;
    forall k | 0 <= k < |t.acked| ensures HasNumber(t.taken, t.acked[k]) {
      var j :| 0 <= j < |s.taken| && s.taken[j].seqNo == s.acked[k];
      assert t.taken[j].seqNo == t.acked[k];
    }
  }

  /** The connection that a slave holds has a lower number than the head of the queue. */
  lemma NumberBelow(s: System, j: nat)
    requires Ordered(s) && Acknowledged(s) && s.fifo != [] && j < |s.slaves| && s.slaves[j].Took?
    ensures s.slaves[j].conn.seqNo < s.fifo[0].seqNo
  {
    hide Ordered;
    HeadIsNew(s);
    var k :| 0 <= k < |s.taken| && s.taken[k] == s.slaves[j].conn;
  }

  lemma TakeHeld(s: System, i: nat, window: nat)
    requires Ordered(s) && Acknowledged(s) && Next(s, Take(i), window).Some?
    ensures var t := Next(s, Take(i), window).value;
            forall j :: 0 <= j < |t.slaves| && t.slaves[j].Took? ==>
              t.slaves[j].conn in t.taken && t.slaves[j].conn.seqNo !in t.acked
  {
    hide Ordered;
    var t := Next(s, Take(i), window).value;
    HeadIsNew(s);
    assert t.taken[|s.taken|] == s.fifo[0];
    forall j | 0 <= j < |t.slaves| && t.slaves[j].Took?
      ensures t.slaves[j].conn in t.taken && t.slaves[j].conn.seqNo !in t.acked
    {
      if j != i {
        assert t.slaves[j] == s.slaves[j];
        var k :| 0 <= k < |s.taken| && s.taken[k] == s.slaves[j].conn;
        assert t.taken[k] == s.taken[k];
      }
    }
  }

  lemma TakeComplete(s: System, i: nat, window: nat)
    requires Complete(s) && Next(s, Take(i), window).Some?
    ensures Complete(Next(s, Take(i), window).value)
  {
    TakeSame(s, i, window);
    var t := Next(s, Take(i), window).value;
    if !s.ackLost {
      forall k | 0 <= k < |t.taken| ensures t.taken[k].seqNo in t.acked || Held(t.slaves, t.taken[k]) {
        if k == |s.taken| {
          assert t.slaves[i] == Took(t.taken[k]);
        } else if Held(s.slaves, s.taken[k]) {
          var j :| 0 <= j < |s.slaves| && s.slaves[j] == Took(s.taken[k]);
          assert t.slaves[j] == Took(t.taken[k]);
        }
      }
    }
  }

  lemma AckAcknowledged(s: System, i: nat, window: nat)
    requires Acknowledged(s) && Counted(s, window) && Next(s, Ack(i), window).Some?
    ensures var t := Next(s, Ack(i), window).value; Acknowledged(t) && Counted(t, window)
  {
    var t := Next(s, Ack(i), window).value;
    var c := s.slaves[i].conn;
    var k :| 0 <= k < |s.taken| && s.taken[k] == c;
    assert HasNumber(t.taken, c.seqNo);
    assert forall a :: a in t.acked <==> a in s.acked || a == c.seqNo;
  }

  lemma AckComplete(s: System, i: nat, window: nat)
    requires Complete(s) && Next(s, Ack(i), window).Some?
    ensures Complete(Next(s, Ack(i), window).value)
  {
    var t := Next(s, Ack(i), window).value;
    if !s.ackLost {
      forall k | 0 <= k < |t.taken| ensures t.taken[k].seqNo in t.acked || Held(t.slaves, t.taken[k]) {
        if Held(s.slaves, s.taken[k]) {
          var j :| 0 <= j < |s.slaves| && s.slaves[j] == Took(s.taken[k]);
          if j == i {
            assert t.acked[|s.acked|] == t.taken[k].seqNo;
          } else {
            assert t.slaves[j] == Took(t.taken[k]);
          }
        }
      }
    }
  }

  lemma DieComplete(s: System, i: nat, window: nat)
    requires Complete(s) && Next(s, Die(i), window).Some?
    ensures Complete(Next(s, Die(i), window).value)
  {
    var t := Next(s, Die(i), window).value;
    assert Entered(t) == Entered(s);
    if !t.ackLost {
      forall k | 0 <= k < |t.taken| ensures t.taken[k].seqNo in t.acked || Held(t.slaves, t.taken[k]) {
        if Held(s.slaves, s.taken[k]) {
          var j :| 0 <= j < |s.slaves| && s.slaves[j] == Took(s.taken[k]);
          assert t.slaves[j] == Took(t.taken[k]);
        }
      }
    }
  }

  lemma ReadCounted(s: System, window: nat)
    requires Ordered(s) && Acknowledged(s) && Counted(s, window) && Next(s, ReadAck, window).Some?
    ensures var t := Next(s, ReadAck, window).value; Acknowledged(t) && Counted(t, window)
  {
    var t := Next(s, ReadAck, window).value;
    assert s.acks[0] in s.acked;
    var k :| 0 <= k < |s.acked| && s.acked[k] == s.acks[0];
    var j :| 0 <= j < |s.taken| && s.taken[j].seqNo == s.acks[0];
    assert Entered(s)[j].seqNo < s.dispatched;
    forall n | 0 <= n < |t.acked| ensures t.acked[n] <= t.accepted || t.acked[n] in t.acks {
      if s.acked[n] in s.acks {
        assert s.acked[n] == s.acks[0] || s.acked[n] in s.acks[1..];
      }
    }
  }

  lemma NextInv(s: System, step: Step, slaves: nat, window: nat)
    requires Inv(s, slaves, window) && Next(s, step, window).Some?
    ensures Inv(Next(s, step, window).value, slaves, window)
  {
    hide Ordered, Placed, Acknowledged, Counted, Complete;
    match step
    case Arrive(sent) =>
      ArriveOrdered(s, sent, window);
      ArrivePlaced(s, sent, window);
      ArriveCounted(s, sent, window);
    case Take(i) =>
      TakeSame(s, i, window);
      TakeOrdered(s, i, window);
      TakePlaced(s, i, window);
      TakeAcknowledged(s, i, window);
      TakeComplete(s, i, window);
    case Ack(i) =>
      SameHistory(s, Next(s, step, window).value);
      AckAcknowledged(s, i, window);
      AckComplete(s, i, window);
    case Die(i) =>
      SameHistory(s, Next(s, step, window).value);
      DieAcknowledged(s, i, window);
      DieComplete(s, i, window);
    case ReadAck =>
      SameHistory(s, Next(s, step, window).value);
      ReadCounted(s, window);
      ReadComplete(s, window);
  }

  lemma TakeOrdered(s: System, i: nat, window: nat)
    requires Ordered(s) && Counted(s, window) && Next(s, Take(i), window).Some?
    ensures Ordered(Next(s, Take(i), window).value) && Counted(Next(s, Take(i), window).value, window)
  {
    TakeSame(s, i, window);
  }

  lemma SameHistory(s: System, t: System)
    requires Ordered(s) && Placed(s) && t.taken == s.taken && t.fifo == s.fifo && t.places == s.places
    requires t.dispatched == s.dispatched
    ensures Ordered(t) && Placed(t)
  {
    assert Entered(t) == Entered(s);
  }

  lemma DieAcknowledged(s: System, i: nat, window: nat)
    requires Acknowledged(s) && Counted(s, window) && Next(s, Die(i), window).Some?
    ensures var t := Next(s, Die(i), window).value; Acknowledged(t) && Counted(t, window)
  {
  }

  lemma ReadComplete(s: System, window: nat)
    requires Complete(s) && Next(s, ReadAck, window).Some?
    ensures Complete(Next(s, ReadAck, window).value)
  {
    assert Entered(Next(s, ReadAck, window).value) == Entered(s);
  }

  lemma {:induction false} RunInv(steps: seq<Step>, slaves: nat, window: nat)
    requires Run(steps, slaves, window).Some?
    ensures Inv(Run(steps, slaves, window).value, slaves, window)
  {
    hide Inv, Next;
    if steps == [] {
      StartInv(slaves, window);
    } else {
      RunInv(steps[..|steps| - 1], slaves, window);
      NextInv(Run(steps[..|steps| - 1], slaves, window).value, steps[|steps| - 1], slaves, window);
    }
  }

  // ----- What holds after every run

  /** The highest number that a slave has taken from the queue. */
  function HighestTaken(s: System): nat {
    if s.taken == [] then 0 else s.taken[|s.taken| - 1].seqNo
  }

  /** The counter of connections accepted never passes the highest one taken, the window is never
      exceeded, and so the queue holds no more than the window. */
  lemma WindowKept(steps: seq<Step>, slaves: nat, window: nat)
    requires Run(steps, slaves, window).Some?
    ensures var s := Run(steps, slaves, window).value;
            && s.accepted <= HighestTaken(s) && (forall k :: 0 <= k < |s.taken| ==> s.taken[k].seqNo <= HighestTaken(s))
            && 0 <= s.dispatched - s.accepted <= window && |s.fifo| <= window
  {
    RunInv(steps, slaves, window);
    var s := Run(steps, slaves, window).value;
    TakenInOrder(s);
    if s.accepted in s.acked {
      var k :| 0 <= k < |s.acked| && s.acked[k] == s.accepted;
      var j :| 0 <= j < |s.taken| && s.taken[j].seqNo == s.accepted;
    }
    QueueSpan(s, |s.fifo|);
  }

  lemma TakenInOrder(s: System)
    requires Ordered(s)
    ensures forall k :: 0 <= k < |s.taken| ==> s.taken[k].seqNo <= HighestTaken(s)
  {
    var all, n := Entered(s), |s.taken|;
    forall k | 0 <= k < n ensures s.taken[k].seqNo <= HighestTaken(s) {
      assert all[k] == s.taken[k] && all[n - 1] == s.taken[n - 1];
    }
  }

  /** Growing numbers leave room for no more than their span. */
  lemma {:induction false} QueueSpan(s: System, n: nat)
    requires Ordered(s) && n <= |s.fifo|
    ensures n > 0 ==> s.fifo[n - 1].seqNo >= n - 1 + (if s.taken == [] then 0 else HighestTaken(s) + 1)
    ensures n > 0 ==> s.fifo[n - 1].seqNo < s.dispatched
    decreases n
  {
    if n > 0 {
      var all, m := Entered(s), |s.taken|;
      assert all[m + n - 1] == s.fifo[n - 1];
      if n > 1 {
        QueueSpan(s, n - 1);
        assert all[m + n - 2] == s.fifo[n - 2];
      } else if m > 0 {
        assert all[m - 1] == s.taken[m - 1];
      }
    }
  }

  ghost predicate OnceAt(conns: seq<Conn>, id: nat, k: nat) {
    k < |conns| && conns[k].id == id && forall j :: 0 <= j < |conns| && conns[j].id == id ==> j == k
  }

  ghost predicate HasOnce(conns: seq<Conn>, id: nat) {
    exists k :: OnceAt(conns, id, k)
  }

  /** Every connection that arrived is in one place: refused, or in the queue once, or taken once. */
  lemma OnePlace(steps: seq<Step>, slaves: nat, window: nat, id: nat)
    requires Run(steps, slaves, window).Some? && id < |Run(steps, slaves, window).value.places|
    ensures var s := Run(steps, slaves, window).value;
            match s.places[id]
            case Refused => !HasId(s.taken, id) && !HasId(s.fifo, id)
            case Queued => !HasId(s.taken, id) && HasOnce(s.fifo, id)
            case TakenBy(_) => HasOnce(s.taken, id) && !HasId(s.fifo, id)
  {
    hide Inv, Run, HasOnce, HasId;
    RunInv(steps, slaves, window);
    PlaceIsOne(Run(steps, slaves, window).value, slaves, window, id);
  }

  lemma PlaceIsOne(s: System, slaves: nat, window: nat, id: nat)
    requires Inv(s, slaves, window) && id < |s.places|
    ensures match s.places[id]
            case Refused => !HasId(s.taken, id) && !HasId(s.fifo, id)
            case Queued => !HasId(s.taken, id) && HasOnce(s.fifo, id)
            case TakenBy(_) => HasOnce(s.taken, id) && !HasId(s.fifo, id)
  {
    hide Acknowledged, Counted, Complete, HasOnce, HasId;
    IdInParts(s, id);
    if HasId(s.taken, id) {
      var k := IndexOfId(s.taken, id);
      InTaken(s, k);
      OnceInPart(s, 0, s.taken, k);
    }
    if HasId(s.fifo, id) {
      var k := IndexOfId(s.fifo, id);
      InFifo(s, k);
      OnceInPart(s, |s.taken|, s.fifo, k);
    }
  }

  lemma IndexOfId(conns: seq<Conn>, id: nat) returns (k: nat)
    requires HasId(conns, id)
    ensures k < |conns| && conns[k].id == id
  {
    k :| 0 <= k < |conns| && conns[k].id == id;
  }

  lemma IdInParts(s: System, id: nat)
    ensures HasId(Entered(s), id) <==> HasId(s.taken, id) || HasId(s.fifo, id)
  {
    var all, n := Entered(s), |s.taken|;
    if HasId(all, id) {
      var k := IndexOfId(all, id);
      assert if k < n then s.taken[k].id == id else s.fifo[k - n].id == id;
    }
    if HasId(s.taken, id) {
      var k := IndexOfId(s.taken, id);
      assert all[k].id == id;
    }
    if HasId(s.fifo, id) {
      var k := IndexOfId(s.fifo, id);
      assert all[n + k].id == id;
    }
  }

  lemma InTaken(s: System, k: nat)
    requires Ordered(s) && Placed(s) && k < |s.taken|
    ensures s.taken[k].id < |s.places| && s.places[s.taken[k].id].TakenBy?
    ensures Entered(s)[0..0 + |s.taken|] == s.taken
  {
    assert Entered(s)[k] == s.taken[k];
  }

  lemma InFifo(s: System, k: nat)
    requires Ordered(s) && Placed(s) && k < |s.fifo|
    ensures s.fifo[k].id < |s.places| && s.places[s.fifo[k].id] == Queued
    ensures Entered(s)[|s.taken|..|s.taken| + |s.fifo|] == s.fifo
  {
    assert Entered(s)[|s.taken| + k] == s.fifo[k];
  }

  lemma OnceInPart(s: System, from: nat, part: seq<Conn>, k: nat)
    requires Ordered(s) && from + |part| <= |Entered(s)| && Entered(s)[from..from + |part|] == part && k < |part|
    ensures HasOnce(part, part[k].id)
  {
    hide Entered;
    var all, id := Entered(s), part[k].id;
    forall j | 0 <= j < |part| && part[j].id == id ensures j == k {
      assert all[from..from + |part|][j] == all[from + j] && all[from..from + |part|][k] == all[from + k];
    }
    assert OnceAt(part, id, k);
  }

  /** A place is for ever, but that a queued connection may be taken. */
  lemma PlacesStay(s: System, step: Step, slaves: nat, window: nat, id: nat)
    requires Inv(s, slaves, window) && Next(s, step, window).Some? && id < |s.places|
    ensures var t := Next(s, step, window).value;
            && |s.places| <= |t.places| <= |s.places| + 1
            && (t.places[id] == s.places[id]
                || (s.places[id] == Queued && step.Take? && t.places[id] == TakenBy(step.slave)))
  {
    if step.Take? {
      assert Entered(s)[|s.taken|] == s.fifo[0];
    }
  }

  /** Acknowledgements: each of one connection taken, none twice, and each with its own number. */
  lemma OneAckEach(steps: seq<Step>, slaves: nat, window: nat, k: nat)
    requires Run(steps, slaves, window).Some? && k < |Run(steps, slaves, window).value.acked|
    ensures var s := Run(steps, slaves, window).value;
            && (forall j :: 0 <= j < |s.acked| && s.acked[j] == s.acked[k] ==> j == k)
            && (exists n :: 0 <= n < |s.taken| && s.taken[n].seqNo == s.acked[k]
                            && forall m :: 0 <= m < |s.taken| && s.taken[m].seqNo == s.acked[k] ==> m == n)
  {
    RunInv(steps, slaves, window);
    var s := Run(steps, slaves, window).value;
    var all := Entered(s);
    var n :| 0 <= n < |s.taken| && s.taken[n].seqNo == s.acked[k];
    forall m | 0 <= m < |s.taken| && s.taken[m].seqNo == s.acked[k] ensures m == n {
      assert all[m] == s.taken[m] && all[n] == s.taken[n];
    }
  }

  // ----- When the queue has drained

  /** No connection waits, and no acknowledgement is under way. */
  predicate Drained(s: System) {
    s.fifo == [] && s.acks == [] && forall i :: 0 <= i < |s.slaves| ==> s.slaves[i] == Free
  }

  /** With nothing lost, a drained server lets the next connection in exactly when its window is at
      least 2, or when it is 1 and there was no connection before. */
  lemma DrainedAdmits(steps: seq<Step>, slaves: nat, window: nat)
    requires Run(steps, slaves, window).Some?
    ensures var s := Run(steps, slaves, window).value;
            Drained(s) && !s.sendFailed && !s.ackLost ==>
              (s.dispatched < TWO64 && s.accepted < TWO64
               && (Admits(s.dispatched, s.accepted, window) <==> window >= 2 || (window == 1 && s.dispatched == 0)))
  {
    hide Inv, Run, Drained;
    RunInv(steps, slaves, window);
    var s := Run(steps, slaves, window).value;
    if Drained(s) && !s.sendFailed && !s.ackLost {
      AllAccepted(s, slaves, window);
    }
  }

  /** The last number is acknowledged, and the acknowledgement read. */
  lemma AllAccepted(s: System, slaves: nat, window: nat)
    requires Inv(s, slaves, window) && Drained(s) && !s.sendFailed && !s.ackLost
    ensures s.accepted == if s.dispatched == 0 then 0 else s.dispatched - 1
    ensures s.dispatched < TWO64
  {
    hide Placed;
    assert Entered(s) == s.taken;
    if s.dispatched > 0 {
      LastNumber(s, s.dispatched);
      var last := s.taken[s.dispatched - 1];
      assert last.seqNo in s.acked || Held(s.slaves, last);
      var k :| 0 <= k < |s.acked| && s.acked[k] == last.seqNo;
      assert s.acked[k] <= s.accepted;
      AcceptedBelow(s);
    }
  }

  /** When every number dispatched entered the queue, they entered without a gap. */
  lemma {:induction false} LastNumber(s: System, n: nat)
    requires Ordered(s) && |Entered(s)| == s.dispatched && n <= s.dispatched
    ensures n > 0 ==> Entered(s)[n - 1].seqNo == n - 1
    decreases s.dispatched - n
  {
    NumberAtLeast(s, n);
    if n < s.dispatched {
      LastNumber(s, n + 1);
    }
  }

  lemma {:induction false} NumberAtLeast(s: System, n: nat)
    requires Ordered(s) && n <= |Entered(s)|
    ensures n > 0 ==> Entered(s)[n - 1].seqNo >= n - 1
  {
    if n > 1 {
      NumberAtLeast(s, n - 1);
      assert Entered(s)[n - 2].seqNo < Entered(s)[n - 1].seqNo;
    }
  }

  lemma AcceptedBelow(s: System)
    requires Ordered(s) && Acknowledged(s) && (s.accepted == 0 || s.accepted in s.acked) && s.dispatched > 0
    ensures s.accepted < s.dispatched
  {
    if s.accepted in s.acked {
      var k :| 0 <= k < |s.acked| && s.acked[k] == s.accepted;
      var j :| 0 <= j < |s.taken| && s.taken[j].seqNo == s.accepted;
      assert Entered(s)[j] == s.taken[j];
    }
  }

  /** The highest of some numbers, 0 when there are none. */
  function Highest(numbers: seq<nat>): (r: nat)
    ensures forall k :: 0 <= k < |numbers| ==> numbers[k] <= r
    ensures r == 0 || r in numbers
  {
    if numbers == [] then 0
    else
      var rest := Highest(numbers[..|numbers| - 1]);
      if numbers[|numbers| - 1] > rest then numbers[|numbers| - 1] else rest
  }

  /** Whatever was lost: once all acknowledgements are read, the next connection is let in exactly when
      the numbers dispatched since the highest one acknowledged leave room in the window. */
  lemma AdmitsExactly(steps: seq<Step>, slaves: nat, window: nat)
    requires Run(steps, slaves, window).Some? && Run(steps, slaves, window).value.acks == []
    ensures var s := Run(steps, slaves, window).value;
            && s.accepted == Highest(s.acked) && s.dispatched < TWO64 && s.accepted < TWO64
            && (Admits(s.dispatched, s.accepted, window) <==> s.dispatched - Highest(s.acked) < window)
            && (Drained(s) ==> (Wedged(s, window) <==> s.dispatched - Highest(s.acked) >= window))
  {
    hide Run, Ordered, Placed, Acknowledged, Complete;
    RunInv(steps, slaves, window);
    var s := Run(steps, slaves, window).value;
    DispatchedFits(s);
    forall a | a in s.acked ensures a <= s.accepted {
      var k :| 0 <= k < |s.acked| && s.acked[k] == a;
    }
  }

  lemma DispatchedFits(s: System)
    requires Ordered(s)
    ensures s.dispatched < TWO64
  {
  }

  /** A window of 1 lets one connection in and never another: number 0 is acknowledged to no effect. */
  lemma WindowOfOneSticks(steps: seq<Step>, slaves: nat)
    requires Run(steps, slaves, 1).Some? && Run(steps, slaves, 1).value.dispatched > 0
    ensures var s := Run(steps, slaves, 1).value;
            s.dispatched == 1 && s.accepted == 0 && !Admits(s.dispatched, s.accepted, 1)
  {
    RunInv(steps, slaves, 1);
    WindowKept(steps, slaves, 1);
    AcceptedBelow(Run(steps, slaves, 1).value);
    OneOnly(steps, slaves);
  }

  lemma {:induction false} OneOnly(steps: seq<Step>, slaves: nat)
    requires Run(steps, slaves, 1).Some?
    ensures Run(steps, slaves, 1).value.dispatched <= 1
  {
    hide Inv, Next;
    if steps != [] {
      var init := steps[..|steps| - 1];
      OneOnly(init, slaves);
      RunInv(init, slaves, 1);
      NoSecond(Run(init, slaves, 1).value, steps[|steps| - 1], slaves);
    }
  }

  lemma NoSecond(s: System, step: Step, slaves: nat)
    requires Inv(s, slaves, 1) && s.dispatched <= 1 && Next(s, step, 1).Some?
    ensures Next(s, step, 1).value.dispatched <= 1
  {
    hide Ordered, Acknowledged, Placed, Complete;
    if s.dispatched > 0 {
      AcceptedBelow(s);
    }
  }

  // ----- Lost acknowledgements

  /** A drained server whose window is used up. */
  predicate Wedged(s: System, window: nat) {
    Drained(s) && s.dispatched < TWO64 && s.accepted <= s.dispatched && s.dispatched - s.accepted >= window
  }

  /** It refuses every connection from then on, whatever happens. */
  lemma WedgedForEver(s: System, step: Step, window: nat)
    requires Wedged(s, window) && Next(s, step, window).Some?
    ensures var t := Next(s, step, window).value;
            && Wedged(t, window) && t.dispatched == s.dispatched && t.accepted == s.accepted
            && (step.Arrive? ==> t.places == s.places + [Refused])
  {
  }

  /** One connection whose slave dies before it acknowledges. */
  const LOSE_ONE := [Arrive(true), Take(0), Die(0)]

  function LoseMany(n: nat): seq<Step> {
    if n == 0 then [] else LoseMany(n - 1) + LOSE_ONE
  }

  lemma RunMore(steps: seq<Step>, step: Step, slaves: nat, window: nat)
    requires Run(steps, slaves, window).Some?
    ensures Run(steps + [step], slaves, window) == Next(Run(steps, slaves, window).value, step, window)
  {
    assert (steps + [step])[..|steps|] == steps;
  }

  /** Deaths before the acknowledgement can bring any server into this state. */
  lemma {:induction false} LossesWedge(n: nat, slaves: nat, window: nat)
    requires slaves > 0 && n <= window < TWO64 - 1
    ensures var r := Run(LoseMany(n), slaves, window);
            r.Some? && Drained(r.value) && r.value.dispatched == n && r.value.accepted == 0 && |r.value.places| == n
            && |r.value.slaves| == slaves
    ensures n == window ==> Wedged(Run(LoseMany(n), slaves, window).value, window)
  {
    if n > 0 {
      hide Run, Next;
      LossesWedge(n - 1, slaves, window);
      LoseAnother(LoseMany(n - 1), slaves, window);
      assert LoseMany(n) == LoseMany(n - 1) + [Arrive(true)] + [Take(0)] + [Die(0)];
    }
  }

  lemma LoseAnother(a: seq<Step>, slaves: nat, window: nat)
    requires Run(a, slaves, window).Some? && slaves > 0 && window < TWO64 - 1
    requires var s := Run(a, slaves, window).value;
             && Drained(s) && s.dispatched < window && s.accepted == 0
             && |s.places| == s.dispatched && |s.slaves| == slaves
    ensures var s, r := Run(a, slaves, window).value, Run(a + [Arrive(true)] + [Take(0)] + [Die(0)], slaves, window);
            r.Some? && Drained(r.value) && r.value.dispatched == s.dispatched + 1 && r.value.accepted == 0
            && |r.value.places| == s.dispatched + 1 && |r.value.slaves| == slaves
  {
    hide Run;
    var s0 := Run(a, slaves, window).value;
    RunMore(a, Arrive(true), slaves, window);
    var s1 := Next(s0, Arrive(true), window).value;
    RunMore(a + [Arrive(true)], Take(0), slaves, window);
    var s2 := Next(s1, Take(0), window).value;
    RunMore(a + [Arrive(true)] + [Take(0)], Die(0), slaves, window);
  }
}
