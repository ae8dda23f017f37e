/**
 The connection machine of one BLE client as its thread runs it: events are handled to the end,
 one by one. The protocol takes the same handlers apart into steps that other clients can
 interleave with; a handler that runs undisturbed is a run of those steps.
 */
module BleClient {
  import opened BleProtocol
  import opened ScanCoordinator
  import opened Wrappers

  /** Entering a state can lead to entering one of lower rank. */
  function RankOf(s: State): nat {
    if s == WaitAdapter || s == Scan || s == Connect then 2 else 1
  }

  function Rank(t: Control): nat {
    if t.pc == Body then RankOf(t.state) else 0
  }

  /** The client about to run the body of state `s`. */
  function Entering(k: Client, s: State): Client {
    k.(ctl := Enter(k.ctl, s))
  }

  /** The client after its handler for one event has chosen what to do. */
  function Handled(k: Client, fd: Fd): Client {
    Handle(k.(batch := [fd])).(batch := [])
  }

  /** A handler run to its end: the client, the slot, and whose grant callback a release has run. */
  function Settle(me: ClientId, k: Client, slot: Slot, ok: bool): (Client, Slot, Option<ClientId>)
    decreases Rank(k.ctl)
  {
    if k.ctl.pc == StopCalls then Released(me, k, slot, InstallStopping)
    else if k.ctl.pc != Body then (k, slot, None)
    else match k.ctl.state
      case WaitSlot =>
        var (slot', granted) := Ask(slot, me);
        (k.(ctl := Control(WaitSlot, AtLoop, k.ctl.timer, k.ctl.slotEvent + if granted then 1 else 0)), slot', None)
      case Online => Released(me, k, slot, ClearWork)
      case Backoff => Released(me, k, slot, ArmBackoff)
      case Stopping => (k, slot, None)
      case _ => Settle(me, LocalBody(k, ok), slot, ok)
  }

  function Released(me: ClientId, k: Client, slot: Slot, rest: Rest): (Client, Slot, Option<ClientId>) {
    var (slot', grant) := GiveUp(slot, me);
    (FinishStep(WithPc(k, Tail(rest))), slot', grant)
  }

  class BleClient {
    const id: ClientId
    const coordinator: BleScanCoordinator
    var state: State
    var adapter: bool
    var peripheral: bool
    var scanMatch: bool
    var timer: Timer
    var slotEvent: nat
    var workEvent: bool
    var stopEvent: bool

    constructor (id: ClientId, coordinator: BleScanCoordinator)
      ensures this.id == id && this.coordinator == coordinator
      ensures Contents().(ctl := Contents().ctl.(pc := Body)) == FreshClient
    {
      this.id, this.coordinator := id, coordinator;
      state, timer, slotEvent := WaitAdapter, Disarmed, 0;
      adapter, peripheral, scanMatch, workEvent, stopEvent := false, false, false, false, false;
    }

    /** The client between two events. */
    function Contents(): Client
      reads this
    {
      Client(Control(state, AtLoop, timer, slotEvent), adapter, peripheral, scanMatch, workEvent, stopEvent, [])
    }

    /** The states whose bodies enter no other; `grant` tells whose callback a release runs. */
    method EnterSlotState(s: State, ghost ok: bool) returns (grant: Option<ClientId>)
      requires s == WaitSlot || s == Online || s == Backoff
      modifies this, coordinator
      ensures (Contents(), coordinator.Contents(), grant) ==
              Settle(id, Entering(old(Contents()), s), old(coordinator.Contents()), ok)
    {
      hide Ask, GiveUp, Settle;
      ghost var k, slot := Entering(Contents(), s), coordinator.Contents();
      SettleBody(id, k, slot, ok);
      state := s;
      match s
      case WaitSlot =>
        var granted := coordinator.Request(id);
        if granted {
          slotEvent := slotEvent + 1;
        }
        return None;
      case Online =>
        grant := coordinator.Release(id);
        workEvent := false;
        return;
      case Backoff =>
        grant := coordinator.Release(id);
        timer := Armed;
        return;
    }

    /** `ok` is the outcome of the Bluetooth call. */
    method EnterWaitAdapter(ok: bool) returns (grant: Option<ClientId>)
      modifies this, coordinator
      ensures (Contents(), coordinator.Contents(), grant) ==
              Settle(id, Entering(old(Contents()), WaitAdapter), old(coordinator.Contents()), ok)
    {
      hide LocalBody, Settle;
      ghost var k := Entering(Contents(), WaitAdapter);
      Bodies(k, ok);
      LocalBodySettles(id, k, coordinator.Contents(), ok);
      state := WaitAdapter;
      if ok {
        adapter := true;
        assert LocalBody(k, ok) == Entering(Contents(), WaitSlot);
        grant := EnterSlotState(WaitSlot, ok);
        return;
      }
      timer := Armed;
      grant := None;
    }

    method EnterScan(ok: bool) returns (grant: Option<ClientId>)
      modifies this, coordinator
      ensures (Contents(), coordinator.Contents(), grant) ==
              Settle(id, Entering(old(Contents()), Scan), old(coordinator.Contents()), ok)
    {
      hide LocalBody, Settle;
      ghost var k := Entering(Contents(), Scan);
      Bodies(k, ok);
      LocalBodySettles(id, k, coordinator.Contents(), ok);
      state := Scan;
      workEvent := false;
      var scanning := StartScan(ok);
      if scanning {
        timer := Armed;
        return None;
      }
      assert LocalBody(k, ok) == Entering(Contents(), Backoff);
      grant := EnterSlotState(Backoff, ok);
    }

    method EnterConnect(ok: bool) returns (grant: Option<ClientId>)
      modifies this, coordinator
      ensures (Contents(), coordinator.Contents(), grant) ==
              Settle(id, Entering(old(Contents()), Connect), old(coordinator.Contents()), ok)
    {
      hide LocalBody, Settle;
      ghost var k := Entering(Contents(), Connect);
      Bodies(k, ok);
      LocalBodySettles(id, k, coordinator.Contents(), ok);
      state := Connect;
      timer := Disarmed;
      var connected := ConnectToPeripheral(ok);
      var next := if connected then Online else Backoff;
      assert LocalBody(k, ok) == Entering(Contents(), next);
      grant := EnterSlotState(next, ok);
    }

    method EnterState(s: State, ok: bool) returns (grant: Option<ClientId>)
      requires s != Stopping
      modifies this, coordinator
      ensures (Contents(), coordinator.Contents(), grant) ==
              Settle(id, Entering(old(Contents()), s), old(coordinator.Contents()), ok)
    {
      if s == WaitAdapter {
        grant := EnterWaitAdapter(ok);
      } else if s == Scan {
        grant := EnterScan(ok);
      } else if s == Connect {
        grant := EnterConnect(ok);
      } else {
        grant := EnterSlotState(s, ok);
      }
    }

    method StartScan(ok: bool) returns (scanning: bool)
      modifies this`scanMatch, this`adapter
      ensures scanning == (old(adapter) && ok) && adapter == scanning
      ensures scanMatch == (old(scanMatch) && !old(adapter))
    {
      if !adapter {
        return false;
      }
      scanMatch := false;
      if !ok {
        adapter := false;
      }
      scanning := ok;
    }

    method ConnectToPeripheral(ok: bool) returns (connected: bool)
      modifies this`peripheral
      ensures connected == (old(peripheral) && ok) && peripheral == connected
    {
      if !peripheral {
        return false;
      }
      if !ok {
        peripheral := false;
      }
      connected := ok;
    }

    method OnStopEvent() returns (grant: Option<ClientId>)
      requires !stopEvent
      modifies this, coordinator
      ensures (Contents(), coordinator.Contents(), grant) ==
              Settle(id, Handled(old(Contents()), StopFd), old(coordinator.Contents()), true)
    {
      peripheral := false;
      grant := coordinator.Release(id);
      state := Stopping;
    }

    method OnWorkEvent(ok: bool) returns (grant: Option<ClientId>)
      requires !workEvent
      modifies this, coordinator
      ensures (Contents(), coordinator.Contents(), grant) ==
              Settle(id, Handled(old(Contents()), WorkFd), old(coordinator.Contents()), ok)
    {
      hide Settle;
      ghost var k := Handled(Contents(), WorkFd);
      grant := None;
      SettledAtLoop(id, k, coordinator.Contents(), ok);
      if state == Scan {
        var found := scanMatch;
        scanMatch := false;
        if !found {
          return None;
        }
        timer := Disarmed;
        peripheral := true;
        assert k == Entering(Contents(), Connect);
        grant := EnterState(Connect, ok);
      } else if state == Online {
        peripheral := false;
        assert k == Entering(Contents(), Backoff);
        grant := EnterState(Backoff, ok);
      }
    }

    method OnSlotEvent(ok: bool) returns (grant: Option<ClientId>)
      requires slotEvent == 0
      modifies this, coordinator
      ensures (Contents(), coordinator.Contents(), grant) ==
              Settle(id, Handled(old(Contents()), SlotFd), old(coordinator.Contents()), ok)
    {
      hide Settle;
      ghost var k := Handled(Contents(), SlotFd);
      grant := None;
      SettledAtLoop(id, k, coordinator.Contents(), ok);
      if state == WaitSlot {
        assert k == Entering(Contents(), Scan);
        grant := EnterState(Scan, ok);
      }
    }

    method OnTimerExpired(ok: bool) returns (grant: Option<ClientId>)
      requires timer != Expired
      modifies this, coordinator
      ensures (Contents(), coordinator.Contents(), grant) ==
              Settle(id, Handled(old(Contents()), TimerFd), old(coordinator.Contents()), ok)
    {
      hide Settle;
      ghost var k := Handled(Contents(), TimerFd);
      grant := None;
      SettledAtLoop(id, k, coordinator.Contents(), ok);
      if state == WaitAdapter {
        assert k == Entering(Contents(), WaitAdapter);
        grant := EnterState(WaitAdapter, ok);
      } else if state == Scan {
        assert k == Entering(Contents(), Backoff);
        grant := EnterState(Backoff, ok);
      } else if state == Backoff {
        var next := if adapter then WaitSlot else WaitAdapter;
        assert k == Entering(Contents(), next);
        grant := EnterState(next, ok);
      }
    }

    /** One iteration of the event loop. */
    method HandleEvent(fd: Fd, ok: bool) returns (grant: Option<ClientId>)
      requires state != Stopping
      modifies this, coordinator
      ensures (Contents(), coordinator.Contents(), grant) ==
              Settle(id, Handled(old(Contents()), fd), old(coordinator.Contents()), if fd == StopFd then true else ok)
    {
      hide Settle, Handled;
      ConsumingChangesNothing(Contents(), fd);
      ghost var k := Consumed(Contents(), fd);
      if fd == StopFd {
        stopEvent := false;
        assert Contents() == k;
        grant := OnStopEvent();
        return;
      }
      if fd == WorkFd {
        workEvent := false;
        assert Contents() == k;
        grant := OnWorkEvent(ok);
        return;
      }
      if fd == SlotFd {
        slotEvent := 0;
        assert Contents() == k;
        grant := OnSlotEvent(ok);
        return;
      }
      if timer == Expired {
        timer := Disarmed;
      }
      assert Contents() == k;
      grant := OnTimerExpired(ok);
    }
  }

  /** The client once the event's descriptor has been read. */
  function Consumed(k: Client, fd: Fd): Client {
    match fd
    case StopFd => k.(stopEvent := false)
    case WorkFd => k.(workEvent := false)
    case SlotFd => k.(ctl := k.ctl.(slotEvent := 0))
    case TimerFd => k.(ctl := k.ctl.(timer := if k.ctl.timer == Expired then Disarmed else k.ctl.timer))
  }

  lemma ConsumingChangesNothing(k: Client, fd: Fd)
    ensures Handled(Consumed(k, fd), fd) == Handled(k, fd)
  {
  }

  lemma SettledAtLoop(me: ClientId, k: Client, slot: Slot, ok: bool)
    ensures k.ctl.pc == AtLoop ==> Settle(me, k, slot, ok) == (k, slot, None)
  {
  }

  /** What the bodies that stay within the client lead to. */
  lemma Bodies(k: Client, ok: bool)
    requires k.ctl.pc == Body
    ensures k.ctl.state == WaitAdapter ==>
              LocalBody(k, ok) == (if ok then Entering(k.(adapter := true), WaitSlot)
                                   else k.(ctl := Control(WaitAdapter, AtLoop, Armed, k.ctl.slotEvent)))
    ensures k.ctl.state == Scan ==>
              var k' := k.(workEvent := false, found := k.found && !k.adapter, adapter := k.adapter && ok);
              LocalBody(k, ok) == (if k'.adapter then k'.(ctl := Control(Scan, AtLoop, Armed, k.ctl.slotEvent)) else Entering(k', Backoff))
    ensures k.ctl.state == Connect ==>
              var k' := k.(ctl := k.ctl.(timer := Disarmed), peripheral := k.peripheral && ok);
              LocalBody(k, ok) == Entering(k', if k'.peripheral then Online else Backoff)
  {
  }

  lemma LocalBodySettles(me: ClientId, k: Client, slot: Slot, ok: bool)
    requires k.ctl.pc == Body && RankOf(k.ctl.state) == 2
    ensures Settle(me, k, slot, ok) == Settle(me, LocalBody(k, ok), slot, ok)
    ensures LocalBody(k, ok).ctl.pc == AtLoop ==> Settle(me, k, slot, ok) == (LocalBody(k, ok), slot, None)
  {
  }

  lemma SettleBody(me: ClientId, k: Client, slot: Slot, ok: bool)
    requires k.ctl.pc == Body
    ensures k.ctl.state == WaitSlot ==>
              Settle(me, k, slot, ok) ==
              (k.(ctl := Control(WaitSlot, AtLoop, k.ctl.timer, k.ctl.slotEvent + if Ask(slot, me).1 then 1 else 0)), Ask(slot, me).0, None)
    ensures k.ctl.state == Online ==>
              Settle(me, k, slot, ok) ==
              (k.(ctl := Control(Online, AtLoop, k.ctl.timer, k.ctl.slotEvent), workEvent := false), GiveUp(slot, me).0, GiveUp(slot, me).1)
    ensures k.ctl.state == Backoff ==>
              Settle(me, k, slot, ok) ==
              (k.(ctl := Control(Backoff, AtLoop, Armed, k.ctl.slotEvent)), GiveUp(slot, me).0, GiveUp(slot, me).1)
    ensures k.ctl.state == Stopping ==> Settle(me, k, slot, ok) == (k, slot, None)
  {
    hide Ask, GiveUp;
  }

  // ---- A handler is a run of the protocol's steps -------------------------------

  /** A run from `s` to `s'` in which only client `c` steps. */
  ghost predicate RunOf(c: ClientId, run: seq<System>, actions: seq<Action>, s: System, s': System) {
    && Run(run, actions) && run[0] == s && run[|run| - 1] == s'
    && forall i :: 0 <= i < |actions| ==> actions[i].c == c
  }

  /** `s'` is reached from `s` by steps of client `c` alone. */
  ghost predicate Alone(s: System, s': System, c: ClientId) {
    exists run, actions :: RunOf(c, run, actions, s, s')
  }

  lemma NoStep(s: System, c: ClientId)
    ensures Alone(s, s, c)
  {
    assert RunOf(c, [s], [], s, s);
  }

  ghost predicate Step(s: System, a: Action, s': System) {
    Enabled(s, a) && s' == Apply(s, a)
  }

  lemma StepsAreRun(run: seq<System>, actions: seq<Action>)
    requires |run| == |actions| + 1
    ensures Run(run, actions) <==> forall i :: 0 <= i < |actions| ==> Step(run[i], actions[i], run[i + 1])
  {
    hide Apply, Reports;
    if Run(run, actions) {
      forall i | 0 <= i < |actions| ensures Step(run[i], actions[i], run[i + 1]) {
      }
    }
    if forall i :: 0 <= i < |actions| ==> Step(run[i], actions[i], run[i + 1]) {
      forall i | 0 <= i < |actions| ensures Enabled(run[i], actions[i]) && run[i + 1] == Apply(run[i], actions[i]) {
        assert Step(run[i], actions[i], run[i + 1]);
      }
    }
  }

  lemma StepThenRun(s: System, a: Action, run: seq<System>, actions: seq<Action>, s': System)
    requires Enabled(s, a) && RunOf(a.c, run, actions, Apply(s, a), s')
    ensures RunOf(a.c, [s] + run, [a] + actions, s, s')
  {
    var longer, more := [s] + run, [a] + actions;
    assert Step(s, a, run[0]);
    hide Enabled, Apply, Step;
    StepsAreRun(run, actions);
    hide Run;
    forall i | 0 <= i < |more| ensures Step(longer[i], more[i], longer[i + 1]) {
      if i > 0 {
        assert longer[i] == run[i - 1] && more[i] == actions[i - 1] && longer[i + 1] == run[i];
      }
    }
    StepsAreRun(longer, more);
  }

  lemma FirstStep(s: System, a: Action, s': System)
    requires Enabled(s, a) && Alone(Apply(s, a), s', a.c)
    ensures Alone(s, s', a.c)
  {
    hide Reports, RunOf, BodyStep, ReleaseStep, Handle;
    var run, actions :| RunOf(a.c, run, actions, Apply(s, a), s');
    StepThenRun(s, a, run, actions, s');
  }

  /** The system after a client has settled: its own record, the slot, and the grant signalled. */
  function Settled(s: System, c: ClientId, r: (Client, Slot, Option<ClientId>)): System {
    var clients := s.clients[c := r.0];
    if r.2.Some? && r.2.value in clients then
      var t := r.2.value;
      System(clients[t := clients[t].(ctl := clients[t].ctl.(slotEvent := clients[t].ctl.slotEvent + 1))], r.1)
    else System(clients, r.1)
  }

  /** Everyone who can be granted the slot is a client, and not the holder. */
  ghost predicate WellQueued(s: System) {
    forall w :: w in s.slot.waiters ==> w in s.clients && s.slot.holder != Some(w)
  }

  lemma ReleaseSettles(s: System, c: ClientId, rest: Rest)
    requires c in s.clients && WellQueued(s) && rest != BackToLoop
    ensures Alone(ReleaseStep(s, c, rest), Settled(s, c, Released(c, s.clients[c], s.slot, rest)), c)
  {
    hide Alone, Reports;
    var k, s1 := s.clients[c], ReleaseStep(s, c, rest);
    var done := Settled(s, c, Released(c, k, s.slot, rest));
    NoStep(done, c);
    if GiveUp(s.slot, c).1 == None {
      assert Apply(s1, Finish(c)).clients == done.clients;
      FirstStep(s1, Finish(c), done);
    } else {
      GrantSettles(s, c, rest);
    }
  }

  /** A client on its way through the grant callback of `w` runs it and finishes. */
  lemma CallbackThenFinish(s: System, c: ClientId, w: ClientId, rest: Rest)
    requires c in s.clients && w in s.clients && w != c && rest != BackToLoop
    ensures var k := s.clients[c];
      var s1 := System(s.clients[c := WithPc(k, Signal(w, rest))], s.slot);
      && Enabled(s1, RunGrant(c)) && Enabled(Apply(s1, RunGrant(c)), Finish(c))
      && Apply(Apply(s1, RunGrant(c)), Finish(c)) == Settled(s, c, (FinishStep(WithPc(k, Tail(rest))), s.slot, Some(w)))
  {
    hide Reports, BodyStep, Handle, FinishStep;
    var k := s.clients[c];
    var s2 := Apply(System(s.clients[c := WithPc(k, Signal(w, rest))], s.slot), RunGrant(c));
    var done := Settled(s, c, (FinishStep(WithPc(k, Tail(rest))), s.slot, Some(w)));
    assert s2.clients[c] == WithPc(k, Tail(rest));
    assert Apply(s2, Finish(c)).clients == done.clients;
  }

  lemma GrantThenFinish(s: System, c: ClientId, rest: Rest)
    requires c in s.clients && WellQueued(s) && rest != BackToLoop && GiveUp(s.slot, c).1.Some?
    ensures var s1 := ReleaseStep(s, c, rest);
      && Enabled(s1, RunGrant(c)) && Enabled(Apply(s1, RunGrant(c)), Finish(c))
      && Apply(Apply(s1, RunGrant(c)), Finish(c)) == Settled(s, c, Released(c, s.clients[c], s.slot, rest))
  {
    hide Enabled, Apply, FinishStep, Without;
    var (slot, grant) := GiveUp(s.slot, c);
    CallbackThenFinish(System(s.clients, slot), c, grant.value, rest);
  }

  lemma GrantSettles(s: System, c: ClientId, rest: Rest)
    requires c in s.clients && WellQueued(s) && rest != BackToLoop && GiveUp(s.slot, c).1.Some?
    ensures Alone(ReleaseStep(s, c, rest), Settled(s, c, Released(c, s.clients[c], s.slot, rest)), c)
  {
    hide Alone, Reports, Settled, Released, ReleaseStep;
    var s1, done := ReleaseStep(s, c, rest), Settled(s, c, Released(c, s.clients[c], s.slot, rest));
    GrantThenFinish(s, c, rest);
    NoStep(done, c);
    FirstStep(Apply(s1, RunGrant(c)), Finish(c), done);
    FirstStep(s1, RunGrant(c), done);
  }

  lemma RequestSettles(s: System, c: ClientId, ok: bool)
    requires c in s.clients && s.clients[c].ctl.pc == Body && s.clients[c].ctl.state == WaitSlot
    ensures Alone(s, Settled(s, c, Settle(c, s.clients[c], s.slot, ok)), c)
  {
    hide Reports, Alone, Ask, LocalBody, ReleaseStep, Handle;
    var k, s1 := s.clients[c], Apply(s, RunBody(c, ok));
    var done := Settled(s, c, Settle(c, k, s.slot, ok));
    NoStep(done, c);
    if Ask(s.slot, c).1 {
      assert s1.clients[c] == WithPc(k, Signal(c, BackToLoop));
      assert Apply(s1, RunGrant(c)).clients == done.clients;
      FirstStep(s1, RunGrant(c), done);
    } else {
      assert s1 == done;
    }
    FirstStep(s, RunBody(c, ok), done);
  }

  /** The steps that stay within the client leave everything else alone. */
  lemma LocalStep(s: System, c: ClientId, ok: bool)
    requires c in s.clients && s.clients[c].ctl.pc == Body && RankOf(s.clients[c].ctl.state) == 2
    ensures Enabled(s, RunBody(c, ok)) && Apply(s, RunBody(c, ok)) == System(s.clients[c := LocalBody(s.clients[c], ok)], s.slot)
    ensures var k' := LocalBody(s.clients[c], ok);
      k'.ctl.state != Stopping && Rank(k'.ctl) < 2 && (k'.ctl.pc == AtLoop || k'.ctl.pc == Body)
  {
  }

  lemma {:induction false} BodySettles(s: System, c: ClientId, ok: bool)
    requires c in s.clients && WellQueued(s) && s.clients[c].ctl.state != Stopping
    requires s.clients[c].ctl.pc == AtLoop || s.clients[c].ctl.pc == Body || s.clients[c].ctl.pc == StopCalls
    ensures Alone(s, Settled(s, c, Settle(c, s.clients[c], s.slot, ok)), c)
    decreases Rank(s.clients[c].ctl)
  {
    hide Reports, Alone, LocalBody, ReleaseStep, GiveUp, Ask;
    var k := s.clients[c];
    var done := Settled(s, c, Settle(c, k, s.slot, ok));
    if k.ctl.pc == AtLoop {
      assert s.clients[c := k] == s.clients;
      NoStep(s, c);
    } else if k.ctl.pc == StopCalls {
      ReleaseSettles(s, c, InstallStopping);
      FirstStep(s, StopRelease(c), done);
    } else if k.ctl.state == WaitSlot {
      RequestSettles(s, c, ok);
    } else if k.ctl.state == Online {
      ReleaseSettles(s, c, ClearWork);
      FirstStep(s, RunBody(c, ok), done);
    } else if k.ctl.state == Backoff {
      ReleaseSettles(s, c, ArmBackoff);
      FirstStep(s, RunBody(c, ok), done);
    } else {
      LocalStep(s, c, ok);
      var s1 := Apply(s, RunBody(c, ok));
      BodySettles(s1, c, ok);
      LocalBodySettles(c, k, s.slot, ok);
      SettledAfter(s, s1, c, Settle(c, k, s.slot, ok));
      FirstStep(s, RunBody(c, ok), done);
    }
  }

  lemma SettledAfter(s: System, s1: System, c: ClientId, r: (Client, Slot, Option<ClientId>))
    requires c in s.clients && c in s1.clients && s1.clients == s.clients[c := s1.clients[c]]
    ensures Settled(s1, c, r) == Settled(s, c, r)
  {
    assert s1.clients[c := r.0] == s.clients[c := r.0];
  }

  lemma WaitersAreClients(s: System)
    requires Inv(s)
    ensures WellQueued(s)
  {
    hide Fits, BatchInv, GrantInv;
    forall w | w in s.slot.waiters ensures w in s.clients && s.slot.holder != Some(w) {
      assert ClientInv(s, w);
      QueuedIsNotHolder(s, w);
    }
  }

  lemma QueuedIsNotHolder(s: System, w: ClientId)
    requires w in s.clients && ClientInv(s, w) && w in s.slot.waiters
    ensures s.slot.holder != Some(w)
  {
  }

  lemma HandlersStart(k: Client)
    requires k.batch != [] && k.ctl.pc == AtLoop && k.ctl.state != Stopping
    ensures var t := Handle(k).ctl; t.state != Stopping && (t.pc == AtLoop || t.pc == Body || t.pc == StopCalls)
  {
  }

  lemma DispatchSettles(s: System, c: ClientId, ok: bool)
    requires Reachable(s) && c in s.clients && Enabled(s, Dispatch(c))
    ensures Alone(s, Settled(s, c, Settle(c, Handle(s.clients[c]), s.slot, ok)), c)
  {
    hide Settle, Handle, Inv, Alone, Reports, Reachable;
    ReachableInv(s);
    WaitersAreClients(s);
    HandlersStart(s.clients[c]);
    var s1 := Apply(s, Dispatch(c));
    BodySettles(s1, c, ok);
    var r := Settle(c, Handle(s.clients[c]), s.slot, ok);
    SettledAfter(s, s1, c, r);
    FirstStep(s, Dispatch(c), Settled(s, c, r));
  }

  /** A handler neither looks at the other events the last wait has reported nor changes them. */
  lemma {:induction false} OtherEventsStay(me: ClientId, k: Client, slot: Slot, ok: bool, batch: seq<Fd>)
    ensures var r := Settle(me, k, slot, ok); Settle(me, k.(batch := batch), slot, ok) == (r.0.(batch := batch), r.1, r.2)
    decreases Rank(k.ctl)
  {
    hide Ask, GiveUp, Settle, LocalBody;
    var other := k.(batch := batch);
    if k.ctl.pc != Body {
      SettleElsewhere(me, k, slot, ok);
      SettleElsewhere(me, other, slot, ok);
    } else if RankOf(k.ctl.state) == 2 {
      LocalBodySettles(me, k, slot, ok);
      LocalBodySettles(me, other, slot, ok);
      LocalBodyKeepsBatch(k, ok, batch);
      OtherEventsStay(me, LocalBody(k, ok), slot, ok, batch);
    } else {
      SettleBody(me, k, slot, ok);
      SettleBody(me, other, slot, ok);
    }
  }

  /** In the stop handler, or with nothing left to do. */
  lemma SettleElsewhere(me: ClientId, k: Client, slot: Slot, ok: bool)
    requires k.ctl.pc != Body
    ensures Settle(me, k, slot, ok) ==
            if k.ctl.pc == StopCalls
            then (k.(ctl := Control(Stopping, AtLoop, k.ctl.timer, k.ctl.slotEvent)), GiveUp(slot, me).0, GiveUp(slot, me).1)
            else (k, slot, None)
  {
    hide GiveUp;
  }

  lemma LocalBodyKeepsBatch(k: Client, ok: bool, batch: seq<Fd>)
    requires k.ctl.pc == Body && RankOf(k.ctl.state) == 2
    ensures LocalBody(k.(batch := batch), ok) == LocalBody(k, ok).(batch := batch)
    ensures Rank(LocalBody(k, ok).ctl) < 2
  {
    hide LocalBody;
    Bodies(k, ok);
    Bodies(k.(batch := batch), ok);
  }

  lemma HandledIsHandle(k: Client)
    requires k.batch != []
    ensures Handle(k) == Handled(k.(batch := []), k.batch[0]).(batch := k.batch[1..])
  {
  }

  /**
   In every reachable state, what the client object's event handler does to the client, to the
   slot and to the client that is granted it is a run of the protocol in which nobody else takes
   a step; the other events reported by the last wait stay.
   */
  lemma HandlersAreRuns(s: System, c: ClientId, ok: bool)
    requires Reachable(s) && c in s.clients && Enabled(s, Dispatch(c))
    ensures var k := s.clients[c];
      var (k', slot, grant) := Settle(c, Handled(k.(batch := []), k.batch[0]), s.slot, ok);
      Alone(s, Settled(s, c, (k'.(batch := k.batch[1..]), slot, grant)), c)
  {
    hide Settle, Handle, Handled, Alone, Settled, Reports, Reachable;
    var k := s.clients[c];
    DispatchSettles(s, c, ok);
    HandledIsHandle(k);
    OtherEventsStay(c, Handled(k.(batch := []), k.batch[0]), s.slot, ok, k.batch[1..]);
  }
}
