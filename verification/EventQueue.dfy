/**
 The hand-off of events from the threads that produce them to the dispatcher: a queue and an
 eventfd counter that tells the dispatcher to look. Pushing has two halves, and any number of
 producers can be between them while the dispatcher drains the counter and pops.
 */
module EventQueue {
  import opened Bytes
  import opened Wrappers

  datatype Event = Connected | Disconnected | NotifyFrame(payload: seq<u8>)

  /** The largest value an eventfd holds; a write that would exceed it fails and changes nothing. */
  const COUNTER_MAX: nat := 0xFFFF_FFFF_FFFF_FFFE

  function Written(counter: nat): nat {
    if counter < COUNTER_MAX then counter + 1 else counter
  }

  class BmsEventQueue {
    var q: seq<Event>
    var counter: nat

    constructor ()
      ensures q == [] && counter == 0
    {
      q, counter := [], 0;
    }

    method Push(ev: Event)
      modifies this
      ensures q == old(q) + [ev] && counter == Written(old(counter)) > 0
    {
      q := q + [ev];
      counter := if counter < COUNTER_MAX then counter + 1 else counter;
    }

    method TryPop() returns (ev: Option<Event>)
      modifies this`q
      ensures ev.None? <==> old(q) == []
      ensures ev == None ==> q == []
      ensures ev.Some? ==> old(q) == [ev.value] + q
    {
      if q == [] {
        return None;
      }
      ev := Some(q[0]);
      q := q[1..];
    }

    /** Reads until there is nothing to read; each read returns the counter and zeroes it. */
    method DrainNotify()
      modifies this`counter
      ensures counter == 0
    {
      while counter > 0
        decreases counter
      {
        counter := 0;
      }
    }

    /** The dispatcher's callback: with nobody pushing meanwhile, everything queued is delivered in order. */
    method Pump() returns (delivered: seq<Event>)
      modifies this
      ensures delivered == old(q) && q == [] && counter == 0
    {
      DrainNotify();
      delivered := [];
      while true
        invariant delivered + q == old(q) && counter == 0
        decreases |q|
      {
        var ev := TryPop();
        if ev == None {
          break;
        }
        delivered := delivered + [ev.value];
      }
    }
  }

  // ---- Producers and the dispatcher interleaved --------------------------------

  /** Waiting for the counter to be readable, reading it, or popping events. */
  datatype Consumer = Idle | Draining | Popping

  /** `pushed` is every event in the order it was queued; `unwritten` counts producers that have queued but not written yet. */
  datatype System = System(
    q: seq<Event>, counter: nat, unwritten: nat, consumer: Consumer, delivered: seq<Event>, pushed: seq<Event>)

  datatype Action = Enqueue(ev: Event) | Write | Wake | Read | Drained | Pop | Done

  const START := System([], 0, 0, Idle, [], [])

  predicate Enabled(s: System, a: Action) {
    match a
    case Enqueue(_) => true
    case Write => s.unwritten > 0
    case Wake => s.consumer == Idle && s.counter > 0
    case Read => s.consumer == Draining && s.counter > 0
    case Drained => s.consumer == Draining && s.counter == 0
    case Pop => s.consumer == Popping && s.q != []
    case Done => s.consumer == Popping && s.q == []
  }

  function Apply(s: System, a: Action): System
    requires Enabled(s, a)
  {
    match a
    case Enqueue(ev) => s.(q := s.q + [ev], unwritten := s.unwritten + 1, pushed := s.pushed + [ev])
    case Write => s.(counter := Written(s.counter), unwritten := s.unwritten - 1)
    case Wake => s.(consumer := Draining)
    case Read => s.(counter := 0)
    case Drained => s.(consumer := Popping)
    case Pop => s.(q := s.q[1..], delivered := s.delivered + [s.q[0]])
    case Done => s.(consumer := Idle)
  }

  ghost predicate Run(run: seq<System>, actions: seq<Action>) {
    && |run| == |actions| + 1
    && forall i :: 0 <= i < |actions| ==> Enabled(run[i], actions[i]) && run[i + 1] == Apply(run[i], actions[i])
  }

  ghost predicate Reachable(s: System) {
    exists run, actions :: Run(run, actions) && run[0] == START && run[|run| - 1] == s
  }

  /** No event is lost, duplicated or reordered, and a queued event always has somebody who will look at it. */
  predicate Inv(s: System) {
    && s.pushed == s.delivered + s.q
    && (s.q != [] ==> s.counter > 0 || s.unwritten > 0 || s.consumer != Idle)
  }

  lemma StepKeepsInv(s: System, a: Action)
    requires Inv(s) && Enabled(s, a)
    ensures Inv(Apply(s, a))
  {
    if a.Pop? {
      assert s.delivered + s.q == (s.delivered + [s.q[0]]) + s.q[1..];
    } else if a.Enqueue? {
      assert (s.delivered + s.q) + [a.ev] == s.delivered + (s.q + [a.ev]);
    }
  }

  lemma {:induction false} RunKeepsInv(run: seq<System>, actions: seq<Action>)
    requires Run(run, actions) && Inv(run[0])
    ensures Inv(run[|run| - 1])
    decreases |actions|
  {
    hide Inv, Apply, Enabled;
    if actions != [] {
      var n := |actions| - 1;
      RunKeepsInv(run[..n + 1], actions[..n]);
      StepKeepsInv(run[n], actions[n]);
    }
  }

  /** In every reachable state the delivered events are the first pushed ones, the queue holds the others, and they are not stranded. */
  lemma NothingLostOrStranded(s: System)
    requires Reachable(s)
    ensures s.pushed == s.delivered + s.q
    ensures s.q != [] ==> s.counter > 0 || s.unwritten > 0 || s.consumer != Idle
  {
    var run, actions :| Run(run, actions) && run[0] == START && run[|run| - 1] == s;
    RunKeepsInv(run, actions);
  }

  // ---- Everything is delivered -------------------------------------------------

  /** How many steps are left, at most, if nothing more is pushed. */
  function Work(s: System): nat {
    var readable := s.counter > 0;
    |s.q| + 5 * s.unwritten
    + match s.consumer {
        case Idle => if readable then 4 else 0
        case Draining => if readable then 3 else 2
        case Popping => if readable then 5 else 1
      }
  }

  lemma StepsUseUpWork(s: System, a: Action)
    requires Enabled(s, a) && !a.Enqueue?
    ensures Work(Apply(s, a)) < Work(s)
  {
  }

  /** The next step the system can take without a new event. */
  function NextStep(s: System): Option<Action> {
    if s.unwritten > 0 then Some(Write)
    else if s.consumer == Idle then (if s.counter > 0 then Some(Wake) else None)
    else if s.consumer == Draining then Some(if s.counter > 0 then Read else Drained)
    else Some(if s.q != [] then Pop else Done)
  }

  /** The system stops only when everything pushed has been delivered. */
  lemma StopsOnlyWhenDelivered(s: System)
    requires Inv(s) && forall a: Action :: Enabled(s, a) ==> a.Enqueue?
    ensures s.delivered == s.pushed && s.q == []
  {
    if NextStep(s).Some? {
      assert Enabled(s, NextStep(s).value);
    }
  }

  /**
   From any reachable state a run without new events takes at most as many steps as there is
   work, and if it cannot go on, every event pushed has been delivered, in order.
   */
  lemma {:induction false} EverythingIsDelivered(run: seq<System>, actions: seq<Action>)
    requires Run(run, actions) && Inv(run[0]) && forall i :: 0 <= i < |actions| ==> !actions[i].Enqueue?
    ensures |actions| + Work(run[|run| - 1]) <= Work(run[0])
    ensures var s := run[|run| - 1];
      (forall a: Action :: Enabled(s, a) ==> a.Enqueue?) ==> s.delivered == run[0].pushed
    decreases |actions|
  {
    var s := run[|run| - 1];
    if actions != [] {
      var n := |actions| - 1;
      EverythingIsDelivered(run[..n + 1], actions[..n]);
      StepsUseUpWork(run[n], actions[n]);
    }
    RunKeepsInv(run, actions);
    NothingPushed(run, actions);
    if forall a: Action :: Enabled(s, a) ==> a.Enqueue? {
      StopsOnlyWhenDelivered(s);
    }
  }

  lemma {:induction false} NothingPushed(run: seq<System>, actions: seq<Action>)
    requires Run(run, actions) && forall i :: 0 <= i < |actions| ==> !actions[i].Enqueue?
    ensures run[|run| - 1].pushed == run[0].pushed
    decreases |actions|
  {
    if actions != [] {
      var n := |actions| - 1;
      NothingPushed(run[..n + 1], actions[..n]);
    }
  }
}
