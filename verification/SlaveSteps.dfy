/** The life of one slave as steps of the system of master and slaves. */
module SlaveSteps {
  import opened CText
  import opened Clock
  import opened Server
  import opened SlaveTrace
  import Slave

  /** The step of slave i that an event is; the others change nothing outside the slave. */
  function StepOf(e: Event, i: nat): Option<Step> {
    match e
    case Received(_, _) => Some(Take(i))
    case Acknowledged(_) => Some(Ack(i))
    case Exit => Some(Die(i))
    case _ => None
  }

  /** The slave has the connection that it is to acknowledge, and none otherwise. */
  ghost predicate Matches(m: Monitor, s: System, i: nat) {
    && i < |s.slaves|
    && if m.exited || m.incoming == None then s.slaves[i] == Free
       else s.slaves[i].Took? && s.slaves[i].conn.seqNo == m.incoming.value.1
  }

  /** What is received is the head of the queue. */
  predicate FromQueue(e: Event, s: System) {
    e.Received? ==> s.fifo != [] && s.fifo[0].seqNo == e.seqNo
  }

  /** An event that the automaton takes is a step that can happen. */
  lemma EventIsStep(m: Monitor, e: Event, s: System, i: nat, slaves: nat, window: nat)
    requires Inv(s, slaves, window) && Matches(m, s, i) && Observe(m, e).Some? && FromQueue(e, s)
    ensures match StepOf(e, i)
            case None => Matches(Observe(m, e).value, s, i)
            case Some(step) =>
              && Next(s, step, window).Some?
              && Matches(Observe(m, e).value, Next(s, step, window).value, i)
              && (e.Acknowledged? ==> Next(s, step, window).value.acks == s.acks + [e.seqNo])
              && (e.Acknowledged? ==> Next(s, step, window).value.acked == s.acked + [e.seqNo])
              && (e.Exit? ==> Next(s, step, window).value.ackLost == (s.ackLost || m.incoming.Some?))
  {
    hide Placed, Server.Acknowledged, Counted, Complete;
    if e.Received? {
      assert Entered(s)[|s.taken|] == s.fifo[0];
    }
  }

  predicate OfSlave(step: Step, i: nat) {
    (step.Take? || step.Ack? || step.Die?) && step.slave == i
  }

  /** The steps of the master and of other slaves leave the slave alone. */
  lemma OthersApart(m: Monitor, s: System, step: Step, i: nat, window: nat)
    requires Matches(m, s, i) && !OfSlave(step, i) && Next(s, step, window).Some?
    ensures Matches(m, Next(s, step, window).value, i) && s.acked <= Next(s, step, window).value.acked
  {
  }

  /** What the slave does, among the steps of all others. */
  datatype Action = Own(event: Event) | Other(step: Step)

  function OwnEvents(actions: seq<Action>): seq<Event> {
    if actions == [] then []
    else (if actions[0].Own? then [actions[0].event] else []) + OwnEvents(actions[1..])
  }

  /** The steps of slave i and the others, in their order. */
  function Merged(actions: seq<Action>, i: nat): seq<Step> {
    if actions == [] then []
    else
      (match actions[0]
       case Other(step) => [step]
       case Own(e) => if StepOf(e, i) == None then [] else [StepOf(e, i).value]) + Merged(actions[1..], i)
  }

  function RunFrom(s: System, steps: seq<Step>, window: nat): Option<System>
    decreases |steps|
  {
    if steps == [] then Some(s)
    else if Next(s, steps[0], window) == None then None
    else RunFrom(Next(s, steps[0], window).value, steps[1..], window)
  }

  /** The others' steps are not those of slave i and can happen, and what it receives is always the head
      of the queue. Of its own steps nothing is asked. */
  predicate Fits(s: System, actions: seq<Action>, i: nat, window: nat)
    decreases |actions|
  {
    if actions == [] then true
    else
      match actions[0]
      case Other(step) =>
        && !OfSlave(step, i) && Next(s, step, window).Some?
        && Fits(Next(s, step, window).value, actions[1..], i, window)
      case Own(e) =>
        && FromQueue(e, s)
        && if StepOf(e, i) == None then Fits(s, actions[1..], i, window)
           else Next(s, StepOf(e, i).value, window).Some? ==>
                  Fits(Next(s, StepOf(e, i).value, window).value, actions[1..], i, window)
  }

  /** Among any steps of the others, the steps of what the automaton takes can all happen, and each
      acknowledgement in it is sent. */
  lemma {:induction false} EventsRun(m: Monitor, s: System, actions: seq<Action>, i: nat, slaves: nat, window: nat)
    requires Inv(s, slaves, window) && Matches(m, s, i) && Fits(s, actions, i, window)
    requires ObserveAll(m, OwnEvents(actions)).Some?
    ensures var t := RunFrom(s, Merged(actions, i), window);
            && t.Some? && Inv(t.value, slaves, window) && s.acked <= t.value.acked
            && Matches(ObserveAll(m, OwnEvents(actions)).value, t.value, i)
            && forall e :: e in OwnEvents(actions) && e.Acknowledged? ==> e.seqNo in t.value.acked
    decreases |actions|
  {
    hide Inv, Next, Matches, FromQueue, OfSlave, Observe;
    if actions != [] {
      var rest := actions[1..];
      match actions[0]
      case Other(step) =>
        OthersApart(m, s, step, i, window);
        NextInv(s, step, slaves, window);
        assert OwnEvents(actions) == OwnEvents(rest);
        EventsRun(m, Next(s, step, window).value, rest, i, slaves, window);
        assert Merged(actions, i)[1..] == Merged(rest, i);
      case Own(e) =>
        assert OwnEvents(actions)[1..] == OwnEvents(rest);
        EventIsStep(m, e, s, i, slaves, window);
        var m' := Observe(m, e).value;
        if StepOf(e, i) == None {
          EventsRun(m', s, rest, i, slaves, window);
          assert Merged(actions, i) == Merged(rest, i);
        } else {
          var step := StepOf(e, i).value;
          AckedGrows(s, step, window);
          NextInv(s, step, slaves, window);
          var s' := Next(s, step, window).value;
          EventsRun(m', s', rest, i, slaves, window);
          assert Merged(actions, i)[1..] == Merged(rest, i);
          assert e.Acknowledged? ==> s'.acked[|s.acked|] == e.seqNo;
        }
    }
  }

  lemma AckedGrows(s: System, step: Step, window: nat)
    requires Next(s, step, window).Some?
    ensures s.acked <= Next(s, step, window).value.acked
  {
  }

  /** The life of a slave that starts free, whatever the others do meanwhile, is a run of the system in
      which it takes what it receives, acknowledges it with its number, and dies when it ends. */
  lemma LifeRuns(services: seq<Slave.Service>, reqsMax: nat, idleTimeout: TimeVal, rounds: seq<Slave.Round>,
                 s: System, actions: seq<Action>, i: nat, slaves: nat, window: nat)
    requires forall r :: r in rounds ==> Slave.Known(r, |services|)
    requires Inv(s, slaves, window) && i < |s.slaves| && s.slaves[i] == Free && Fits(s, actions, i, window)
    requires OwnEvents(actions) == Slave.Life(Slave.FRESH, services, reqsMax, idleTimeout, rounds).0
    ensures var t := RunFrom(s, Merged(actions, i), window);
            && t.Some? && Inv(t.value, slaves, window)
            && (forall e :: e in OwnEvents(actions) && e.Acknowledged? ==> e.seqNo in t.value.acked)
            && (Slave.Life(Slave.FRESH, services, reqsMax, idleTimeout, rounds).1 ==> t.value.slaves[i] == Free)
  {
    hide Inv, Fits, Slave.Life, Merged, OwnEvents;
    Slave.LifeIsLegal(services, reqsMax, idleTimeout, rounds);
    WatchIsObserveAll(OwnEvents(actions));
    EventsRun(START, s, actions, i, slaves, window);
    SlavesStay(s, slaves, window);
  }

  lemma SlavesStay(s: System, slaves: nat, window: nat)
    requires Inv(s, slaves, window)
    ensures |s.slaves| == slaves
  {
  }
}
