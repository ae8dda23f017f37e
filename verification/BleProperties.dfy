/** What the slot protocol guarantees in every run of any number of clients. */
module BleProperties {
  import opened Wrappers
  import opened ScanCoordinator
  import opened BleProtocol

  // ---- Mutual exclusion --------------------------------------------------------

  predicate UsesAdapter(k: Client) {
    k.ctl.state == Scan || k.ctl.state == Connect
  }

  /** A scanning or connecting client holds the slot, except past the release in its stop handler. */
  lemma ScannerHoldsSlot(s: System, c: ClientId)
    requires Reachable(s) && c in s.clients && UsesAdapter(s.clients[c])
    ensures s.slot.holder == Some(c) <==> !Quit(s.clients[c].ctl.state, s.clients[c].ctl.pc)
  {
    ReachableInv(s);
    assert ClientInv(s, c);
  }

  lemma MutualExclusion(s: System, c: ClientId, d: ClientId)
    requires Reachable(s) && c in s.clients && d in s.clients && c != d
    requires UsesAdapter(s.clients[c]) && UsesAdapter(s.clients[d])
    ensures Quit(s.clients[c].ctl.state, s.clients[c].ctl.pc) || Quit(s.clients[d].ctl.state, s.clients[d].ctl.pc)
  {
    ScannerHoldsSlot(s, c);
    ScannerHoldsSlot(s, d);
  }

  lemma ReachableStep(s: System, a: Action)
    requires Reachable(s) && Enabled(s, a)
    ensures Reachable(Apply(s, a))
  {
    hide Reports;
    var run, actions :| Run(run, actions) && Initial(run[0]) && run[|run| - 1] == s;
    var run', actions' := run + [Apply(s, a)], actions + [a];
    assert Run(run', actions') && Initial(run'[0]) && run'[|run'| - 1] == Apply(s, a);
  }

  function Two(k: Client, l: Client, slot: Slot): System {
    System(map[0 := k, 1 := l], slot)
  }

  function At(st: State, pc: Pc, timer: Timer, slotEvent: nat): Client {
    Client(Control(st, pc, timer, slotEvent), true, false, false, false, false, [])
  }

  /** Client 0 takes a step: only its own record and the slot change. */
  lemma First(k: Client, l: Client, slot: Slot, a: Action, k': Client, slot': Slot)
    requires Reachable(Two(k, l, slot)) && a.c == 0 && Enabled(Two(k, l, slot), a)
    requires Apply(Two(k, l, slot), a) == System(Two(k, l, slot).clients[0 := k'], slot')
    ensures Reachable(Two(k', l, slot'))
  {
    ReachableStep(Two(k, l, slot), a);
    assert map[0 := k, 1 := l][0 := k'] == map[0 := k', 1 := l];
  }

  lemma Second(k: Client, l: Client, slot: Slot, a: Action, l': Client, slot': Slot)
    requires Reachable(Two(k, l, slot)) && a.c == 1 && Enabled(Two(k, l, slot), a)
    requires Apply(Two(k, l, slot), a) == System(Two(k, l, slot).clients[1 := l'], slot')
    ensures Reachable(Two(k, l', slot'))
  {
    ReachableStep(Two(k, l, slot), a);
    assert map[0 := k, 1 := l][1 := l'] == map[0 := k, 1 := l'];
  }

  /** Client 0 finds the adapter and is granted the free slot. */
  lemma FirstIsGranted()
    ensures Reachable(Two(At(WaitSlot, AtLoop, Disarmed, 1), FreshClient, Slot(Some(0), [])))
  {
    var f, free, held := FreshClient, Slot(None, []), Slot(Some(0), []);
    assert Run([Two(f, f, free)], []) && Initial([Two(f, f, free)][0]);
    assert [Two(f, f, free)][|[Two(f, f, free)]| - 1] == Two(f, f, free);
    First(f, f, free, RunBody(0, true), At(WaitSlot, Body, Disarmed, 0), free);
    First(At(WaitSlot, Body, Disarmed, 0), f, free, RunBody(0, true), At(WaitSlot, Signal(0, BackToLoop), Disarmed, 0), held);
    var k := At(WaitSlot, Signal(0, BackToLoop), Disarmed, 0);
    var two := Two(k, f, held).clients;
    assert two[0 := k.(ctl := k.ctl.(slotEvent := 1))][0 := At(WaitSlot, AtLoop, Disarmed, 1)]
        == two[0 := At(WaitSlot, AtLoop, Disarmed, 1)];
    First(k, f, held, RunGrant(0), At(WaitSlot, AtLoop, Disarmed, 1), held);
  }

  lemma ReadsGrant(k: Client, l: Client, slot: Slot, c: ClientId)
    requires c == 0 || c == 1
    requires (if c == 0 then k else l) == At(WaitSlot, AtLoop, Disarmed, 1) && Reachable(Two(k, l, slot))
    ensures Reachable(if c == 0 then Two(At(Scan, Body, Disarmed, 0), l, slot) else Two(k, At(Scan, Body, Disarmed, 0), slot))
  {
    var m := At(WaitSlot, AtLoop, Disarmed, 1);
    var m' := m.(batch := [SlotFd]);
    assert [SlotFd][1..] == [];
    assert Handle(m') == At(Scan, Body, Disarmed, 0);
    if c == 0 {
      First(k, l, slot, Poll(0, [SlotFd]), m', slot);
      First(m', l, slot, Dispatch(0), At(Scan, Body, Disarmed, 0), slot);
    } else {
      Second(k, l, slot, Poll(1, [SlotFd]), m', slot);
      Second(k, m', slot, Dispatch(1), At(Scan, Body, Disarmed, 0), slot);
    }
  }

  /** Client 0 scans while client 1 waits for the slot. */
  lemma FirstScansSecondWaits()
    ensures Reachable(Two(At(Scan, AtLoop, Armed, 0), At(WaitSlot, AtLoop, Disarmed, 0), Slot(Some(0), [1])))
  {
    hide Reports, Reachable;
    var f, held := FreshClient, Slot(Some(0), []);
    FirstIsGranted();
    ReadsGrant(At(WaitSlot, AtLoop, Disarmed, 1), f, held, 0);
    var k := At(Scan, AtLoop, Armed, 0);
    First(At(Scan, Body, Disarmed, 0), f, held, RunBody(0, true), k, held);
    Second(k, f, held, RunBody(1, true), At(WaitSlot, Body, Disarmed, 0), held);
    Second(k, At(WaitSlot, Body, Disarmed, 0), held, RunBody(1, true), At(WaitSlot, AtLoop, Disarmed, 0), Slot(Some(0), [1]));
  }

  lemma StopReachesHandler()
    ensures Reachable(Two(At(Scan, StopCalls, Armed, 0), At(WaitSlot, AtLoop, Disarmed, 0), Slot(Some(0), [1])))
  {
    hide Reachable;
    FirstScansSecondWaits();
    var k, l, held := At(Scan, AtLoop, Armed, 0), At(WaitSlot, AtLoop, Disarmed, 0), Slot(Some(0), [1]);
    First(k, l, held, StopRequested(0), k.(stopEvent := true), held);
    First(k.(stopEvent := true), l, held, Poll(0, [StopFd]), k.(stopEvent := true, batch := [StopFd]), held);
    assert [StopFd][1..] == [];
    First(k.(stopEvent := true, batch := [StopFd]), l, held, Dispatch(0), At(Scan, StopCalls, Armed, 0), held);
  }

  /** Client 0 is stopped and hands the slot to client 1 before it leaves state Scan. */
  lemma StopHandsSlotOver()
    ensures Reachable(Two(At(Scan, Tail(InstallStopping), Armed, 0), At(WaitSlot, AtLoop, Disarmed, 1), Slot(Some(1), [])))
  {
    hide Reports, Reachable;
    StopReachesHandler();
    var l, m := At(WaitSlot, AtLoop, Disarmed, 0), At(Scan, Signal(1, InstallStopping), Armed, 0);
    First(At(Scan, StopCalls, Armed, 0), l, Slot(Some(0), [1]), StopRelease(0), m, Slot(Some(1), []));
    ReachableStep(Two(m, l, Slot(Some(1), [])), RunGrant(0));
    assert map[0 := m, 1 := l][1 := At(WaitSlot, AtLoop, Disarmed, 1)][0 := At(Scan, Tail(InstallStopping), Armed, 0)]
        == map[0 := At(Scan, Tail(InstallStopping), Armed, 0), 1 := At(WaitSlot, AtLoop, Disarmed, 1)];
  }

  /**
   Without the exception the claim is false: a stop handler releases the slot while its client
   is still in state Scan, and the next client can be in Scan before that state is left.
   */
  lemma TwoClientsInScan()
    ensures exists s :: && Reachable(s) && 0 in s.clients && 1 in s.clients
                        && s.clients[0].ctl.state == Scan && s.clients[1].ctl.state == Scan
  {
    StopHandsSlotOver();
    var k := At(Scan, Tail(InstallStopping), Armed, 0);
    ReadsGrant(k, At(WaitSlot, AtLoop, Disarmed, 1), Slot(Some(1), []), 1);
  }

  // ---- The slot is never stranded ----------------------------------------------

  /** Who can hold the slot, and what then moves it on. */
  ghost predicate Live(s: System, h: ClientId)
    requires h in s.clients
  {
    var t := s.clients[h].ctl;
    match t.state
    case WaitSlot => t.pc == StopCalls || ((t.pc == AtLoop || t.pc.Signal?) && (t.slotEvent == 1 || InFlight(s, h)))
    case Scan => t.pc == Body || t.pc == StopCalls || (t.pc == AtLoop && t.timer != Disarmed)
    case Connect => t.pc == Body
    case Online => t.pc == Body
    case Backoff => t.pc == Body
    case _ => false
  }

  lemma SlotNeverStranded(s: System)
    requires Reachable(s)
    ensures s.slot.holder == None ==> s.slot.waiters == []
    ensures s.slot.holder.Some? ==> s.slot.holder.value in s.clients && Live(s, s.slot.holder.value)
  {
    ReachableInv(s);
    if s.slot.holder.Some? {
      assert ClientInv(s, s.slot.holder.value);
    }
  }

  /** A client never asks for a slot it already holds or is queued for. */
  lemma NoSecondRequest(s: System, c: ClientId, ok: bool)
    requires Reachable(s) && Enabled(s, RunBody(c, ok)) && s.clients[c].ctl.state == WaitSlot
    ensures s.slot.holder != Some(c) && c !in s.slot.waiters && !InFlight(s, c) && s.clients[c].ctl.slotEvent == 0
  {
    ReachableInv(s);
    assert ClientInv(s, c);
  }

  // ---- The slot moves on -------------------------------------------------------

  function PosOf(batch: seq<Fd>, fd: Fd): nat
    requires fd in batch
  {
    if batch[0] == fd then 0 else 1 + PosOf(batch[1..], fd)
  }

  /** How far the holder is from its release: a stage, and within a stage the events still to handle. */
  function Stage(k: Client): (nat, nat) {
    var t := k.ctl;
    if t.pc == StopCalls then (0, 0)
    else match t.state
      case WaitSlot =>
        if t.slotEvent == 0 then (9, 0)
        else if SlotFd in k.batch then (7, PosOf(k.batch, SlotFd))
        else (8, |k.batch|)
      case Scan =>
        if t.pc == Body then (6, 0)
        else if TimerFd in k.batch then (3, PosOf(k.batch, TimerFd))
        else if t.timer == Expired then (4, |k.batch|)
        else (5, 0)
      case Connect => (2, 0)
      case _ => (1, 0)
  }

  predicate Below(a: (nat, nat), b: (nat, nat)) {
    a.0 < b.0 || (a.0 == b.0 && a.1 < b.1)
  }

  /** The step the slot is waiting for: the holder's own next step, its timer, or its grant callback. */
  ghost predicate Due(s: System, h: ClientId, a: Action)
    requires h in s.clients
  {
    var k := s.clients[h];
    if k.ctl.pc == StopCalls then a == StopRelease(h)
    else if k.ctl.state == WaitSlot && k.ctl.slotEvent == 0 then a.RunGrant? && Signals(s, a.c, h)
    else if k.ctl.pc == Body then a.RunBody? && a.c == h
    else if k.batch != [] && (k.ctl.state == WaitSlot || k.ctl.timer == Expired || TimerFd in k.batch) then a == Dispatch(h)
    else if k.ctl.state == Scan && k.ctl.timer != Expired then a == TimerFires(h)
    else a.Poll? && a.c == h
  }

  /** The descriptors among `fds` that are readable. */
  function ReadyAmong(k: Client, fds: seq<Fd>): (ready: seq<Fd>)
    requires forall i, j :: 0 <= i < j < |fds| ==> fds[i] != fds[j]
    ensures forall i, j :: 0 <= i < j < |ready| ==> ready[i] != ready[j]
    ensures forall fd: Fd :: fd in ready <==> fd in fds && IsReady(k, fd)
  {
    if fds == [] then []
    else (if IsReady(k, fds[0]) then [fds[0]] else []) + ReadyAmong(k, fds[1..])
  }

  function ReadyList(k: Client): seq<Fd> {
    ReadyAmong(k, [StopFd, WorkFd, SlotFd, TimerFd])
  }

  lemma ReadyListReports(k: Client, fd: Fd)
    requires IsReady(k, fd)
    ensures Reports(k, ReadyList(k))
  {
    forall f: Fd ensures f in [StopFd, WorkFd, SlotFd, TimerFd] {
      match f
      case StopFd => case WorkFd => case SlotFd => case TimerFd =>
    }
    assert fd in ReadyList(k);
  }

  /** The holder of the slot: `Live`, and in the event loop once its grant is unread. */
  lemma HolderIsLive(s: System, h: ClientId)
    requires Inv(s) && s.slot.holder == Some(h)
    ensures h in s.clients && Live(s, h) && BatchInv(s.clients[h].ctl, s.clients[h].batch)
    ensures s.clients[h].ctl.slotEvent > 0 ==> s.clients[h].ctl.pc == AtLoop || s.clients[h].ctl.pc == StopCalls
    ensures s.clients[h].ctl.slotEvent <= 1
    ensures s.clients[h].ctl.slotEvent == 1 ==> s.clients[h].ctl.state == WaitSlot
  {
    assert ClientInv(s, h);
    var k := s.clients[h];
    if k.ctl.pc.Signal? {
      assert Signals(s, h, k.ctl.pc.target);
    }
  }

  lemma DueIsEnabled(s: System, h: ClientId)
    requires Inv(s) && s.slot.holder == Some(h)
    ensures h in s.clients && exists a :: Due(s, h, a) && Enabled(s, a)
  {
    HolderIsLive(s, h);
    var k := s.clients[h];
    if k.ctl.pc == StopCalls {
      assert Due(s, h, StopRelease(h)) && Enabled(s, StopRelease(h));
    } else if k.ctl.state == WaitSlot && k.ctl.slotEvent == 0 {
      var d :| Signals(s, d, h);
      assert Due(s, h, RunGrant(d)) && Enabled(s, RunGrant(d));
    } else if k.ctl.pc == Body {
      assert Due(s, h, RunBody(h, true)) && Enabled(s, RunBody(h, true));
    } else if k.batch != [] && (k.ctl.state == WaitSlot || k.ctl.timer == Expired || TimerFd in k.batch) {
      assert Due(s, h, Dispatch(h)) && Enabled(s, Dispatch(h));
    } else if k.ctl.state == Scan && k.ctl.timer != Expired {
      assert Due(s, h, TimerFires(h)) && Enabled(s, TimerFires(h));
    } else {
      ReadyListReports(k, if k.ctl.state == WaitSlot then SlotFd else TimerFd);
      assert Due(s, h, Poll(h, ReadyList(k))) && Enabled(s, Poll(h, ReadyList(k)));
    }
  }

  predicate NotAbove(a: (nat, nat), b: (nat, nat)) {
    a == b || Below(a, b)
  }

  lemma DispatchStepsDown(k: Client)
    requires k.ctl.pc == AtLoop && k.batch != [] && BatchInv(k.ctl, k.batch)
    requires k.ctl.state == WaitSlot || (k.ctl.state == Scan && k.ctl.timer != Disarmed && k.ctl.slotEvent == 0)
    ensures NotAbove(Stage(Handle(k)), Stage(k))
    ensures k.ctl.state == WaitSlot && k.ctl.slotEvent > 0 ==> Below(Stage(Handle(k)), Stage(k))
    ensures k.ctl.state == Scan && (k.ctl.timer == Expired || TimerFd in k.batch) ==> Below(Stage(Handle(k)), Stage(k))
  {
    assert k.batch == [k.batch[0]] + k.batch[1..];
  }

  /** No farther from the release; nearer if the step was due. */
  predicate MovesOn(k: Client, k': Client, due: bool) {
    NotAbove(Stage(k'), Stage(k)) && (due ==> Below(Stage(k'), Stage(k)))
  }

  lemma HolderDispatches(s: System, h: ClientId)
    requires Inv(s) && s.slot.holder == Some(h) && Enabled(s, Dispatch(h))
    ensures MovesOn(s.clients[h], Apply(s, Dispatch(h)).clients[h], Due(s, h, Dispatch(h)))
  {
    hide Reports, Handle, Stage;
    HolderIsLive(s, h);
    DispatchStepsDown(s.clients[h]);
  }

  lemma HolderRunsBody(s: System, h: ClientId, ok: bool)
    requires Inv(s) && s.slot.holder == Some(h) && Enabled(s, RunBody(h, ok))
    ensures Apply(s, RunBody(h, ok)).slot.holder == Some(h) ==> MovesOn(s.clients[h], Apply(s, RunBody(h, ok)).clients[h], true)
  {
    hide Reports;
    HolderIsLive(s, h);
  }

  /** A wait reports events the holder has not handled yet; other steps of its thread are not due. */
  lemma HolderWaits(s: System, h: ClientId, a: Action)
    requires Inv(s) && s.slot.holder == Some(h) && Enabled(s, a) && a.c == h
    requires !a.RunGrant? && !a.Dispatch? && !a.RunBody? && !a.StopRelease?
    ensures MovesOn(s.clients[h], Apply(s, a).clients[h], Due(s, h, a))
  {
    HolderIsLive(s, h);
  }

  lemma HolderGivesUp(s: System, h: ClientId)
    requires Inv(s) && s.slot.holder == Some(h) && Enabled(s, StopRelease(h))
    ensures Apply(s, StopRelease(h)).slot.holder != Some(h)
  {
    hide Reports, Without;
    assert ClientInv(s, h);
  }

  /** The holder's own steps never take it away from its release, and the due one brings it closer. */
  lemma HolderStepsDown(s: System, h: ClientId, a: Action)
    requires Inv(s) && s.slot.holder == Some(h) && Enabled(s, a) && a.c == h && !a.RunGrant?
    ensures Apply(s, a).slot.holder == Some(h) ==> MovesOn(s.clients[h], Apply(s, a).clients[h], Due(s, h, a))
  {
    hide Reports, Stage, Inv;
    match a
    case Dispatch(_) => HolderDispatches(s, h);
    case RunBody(_, ok) => HolderRunsBody(s, h, ok);
    case StopRelease(_) => HolderGivesUp(s, h);
    case _ => HolderWaits(s, h, a);
  }

  /** Running a grant callback for the holder is what a holder still waiting for it is due. */
  lemma GrantStepsDown(s: System, h: ClientId, a: Action)
    requires Inv(s) && s.slot.holder == Some(h) && Enabled(s, a) && a.RunGrant?
    ensures MovesOn(s.clients[h], Apply(s, a).clients[h], Due(s, h, a))
  {
    hide Reports;
    HolderIsLive(s, h);
    var k := s.clients[a.c];
    assert Signals(s, a.c, k.ctl.pc.target);
  }

  lemma OthersLeaveHolder(s: System, h: ClientId, a: Action)
    requires Inv(s) && s.slot.holder == Some(h) && Enabled(s, a) && a.c != h && !a.RunGrant?
    ensures h in s.clients && Apply(s, a).clients[h] == s.clients[h]
  {
  }

  lemma StepMovesOn(s: System, h: ClientId, a: Action)
    requires Inv(s) && s.slot.holder == Some(h) && Enabled(s, a) && Apply(s, a).slot.holder == Some(h)
    ensures h in s.clients && h in Apply(s, a).clients
    ensures MovesOn(s.clients[h], Apply(s, a).clients[h], Due(s, h, a))
  {
    hide Reports, Stage, Inv;
    HolderIsLive(s, h);
    ClientsStay(s, a);
    if a.RunGrant? {
      GrantStepsDown(s, h, a);
    } else if a.c == h {
      HolderStepsDown(s, h, a);
    } else {
      OthersLeaveHolder(s, h, a);
    }
  }

  /**
   While a client holds the slot there is always a due step, every step leaves the holder as
   close to its release as it was, and every outcome of the due step brings it closer.
   */
  lemma SlotMovesOn(s: System, h: ClientId)
    requires Reachable(s) && s.slot.holder == Some(h)
    ensures h in s.clients && exists a :: Due(s, h, a) && Enabled(s, a)
    ensures forall a :: Enabled(s, a) && Apply(s, a).slot.holder == Some(h) ==>
              MovesOn(s.clients[h], Apply(s, a).clients[h], Due(s, h, a))
  {
    hide Reports, Stage, Inv, Reachable, MovesOn;
    ReachableInv(s);
    DueIsEnabled(s, h);
    forall a | Enabled(s, a) && Apply(s, a).slot.holder == Some(h)
      ensures MovesOn(s.clients[h], Apply(s, a).clients[h], Due(s, h, a))
    {
      StepMovesOn(s, h, a);
    }
  }

  lemma {:induction false} FewEvents(batch: seq<Fd>, fds: set<Fd>)
    requires forall i, j :: 0 <= i < j < |batch| ==> batch[i] != batch[j]
    requires forall i :: 0 <= i < |batch| ==> batch[i] in fds
    ensures |batch| <= |fds|
  {
    if batch != [] {
      FewEvents(batch[1..], fds - {batch[0]});
    }
  }

  function Weight(k: Client): nat {
    5 * Stage(k).0 + Stage(k).1
  }

  lemma StageIsSmall(s: System, h: ClientId)
    requires Inv(s) && h in s.clients
    ensures Stage(s.clients[h]).1 <= 4 && Weight(s.clients[h]) <= 45
  {
    assert ClientInv(s, h);
    var batch := s.clients[h].batch;
    forall i | 0 <= i < |batch| ensures batch[i] in {StopFd, WorkFd, SlotFd, TimerFd} {
      match batch[i]
      case StopFd => case WorkFd => case SlotFd => case TimerFd =>
    }
    FewEvents(batch, {StopFd, WorkFd, SlotFd, TimerFd});
    forall fd: Fd | fd in batch ensures PosOf(batch, fd) < |batch| {
      PosInBatch(batch, fd);
    }
  }

  lemma {:induction false} PosInBatch(batch: seq<Fd>, fd: Fd)
    requires fd in batch
    ensures PosOf(batch, fd) < |batch|
  {
    if batch[0] != fd { PosInBatch(batch[1..], fd); }
  }

  /** A step that whoever holds the slot is waiting for. */
  ghost predicate DueForHolder(s: System, a: Action) {
    s.slot.holder.Some? && s.slot.holder.value in s.clients && Due(s, s.slot.holder.value, a)
  }

  /** How many steps of a run were due to whoever held the slot at the time. */
  ghost function DueSteps(run: seq<System>, actions: seq<Action>): nat
    requires |run| >= |actions|
  {
    if actions == [] then 0
    else
      var n := |actions| - 1;
      DueSteps(run, actions[..n]) + Count(DueForHolder(run[n], actions[n]))
  }

  lemma {:induction false} DueStepsOfPrefix(run: seq<System>, actions: seq<Action>)
    requires |run| > |actions|
    ensures DueSteps(run[..|run| - 1], actions) == DueSteps(run, actions)
  {
    hide DueForHolder;
    if actions != [] {
      DueStepsOfPrefix(run, actions[..|actions| - 1]);
    }
  }

  function WeightOfHolder(s: System): nat {
    if s.slot.holder.Some? && s.slot.holder.value in s.clients then Weight(s.clients[s.slot.holder.value]) else 0
  }

  /** While the holder stays, every due step is paid for by its weight. */
  lemma DueStepIsPaid(s: System, a: Action)
    requires Inv(s) && Enabled(s, a) && s.slot.holder.Some? && Apply(s, a).slot.holder == s.slot.holder
    ensures Count(DueForHolder(s, a)) + WeightOfHolder(Apply(s, a)) <= WeightOfHolder(s) <= 45
  {
    hide Inv, Apply, Reports, Due, Stage;
    var h := s.slot.holder.value;
    StepKeepsInv(s, a);
    StepMovesOn(s, h, a);
    StageIsSmall(s, h);
    StageIsSmall(Apply(s, a), h);
  }

  /**
   No client keeps the slot through more than 45 due steps: in every run through which `h`
   holds it, the due steps taken are at most what the first state still asks for.
   */
  lemma {:induction false} HolderDueStepsAreBounded(run: seq<System>, actions: seq<Action>, h: ClientId)
    requires Run(run, actions) && Reachable(run[0])
    requires forall i :: 0 <= i < |run| ==> run[i].slot.holder == Some(h)
    ensures DueSteps(run, actions) + WeightOfHolder(run[|run| - 1]) <= WeightOfHolder(run[0]) <= 45
    decreases |actions|
  {
    hide Inv, Apply, Reports, WeightOfHolder, DueForHolder;
    var n := |actions|;
    ReachableInv(run[0]);
    if n > 0 {
      var shorter := run[..n];
      assert Run(shorter, actions[..n - 1]) && shorter[|shorter| - 1] == run[n - 1];
      HolderDueStepsAreBounded(shorter, actions[..n - 1], h);
      DueStepsOfPrefix(run, actions[..n - 1]);
      RunKeepsInv(run, actions, n - 1);
      assert run[n - 1].slot.holder == Some(h) && run[n].slot.holder == Some(h) && run[n] == Apply(run[n - 1], actions[n - 1]);
      DueStepIsPaid(run[n - 1], actions[n - 1]);
    } else {
      HolderWeighsLittle(run[0]);
    }
  }

  lemma HolderWeighsLittle(s: System)
    requires Inv(s)
    ensures WeightOfHolder(s) <= 45
  {
    if s.slot.holder.Some? { StageIsSmall(s, s.slot.holder.value); }
  }

  // ---- First come, first served ------------------------------------------------

  function IndexOf(ws: seq<ClientId>, c: ClientId): (i: nat)
    requires c in ws
    ensures i < |ws| && ws[i] == c && c !in ws[..i]
  {
    if ws[0] == c then 0 else 1 + IndexOf(ws[1..], c)
  }

  /** What one step can do to the slot. */
  lemma SlotAfter(s: System, a: Action)
    requires Inv(s) && Enabled(s, a)
    ensures
      var slot' := Apply(s, a).slot;
      || slot' == s.slot
      || (s.slot.holder == None && slot' == Slot(Some(a.c), []) && a.RunBody? && s.clients[a.c].ctl.state == WaitSlot)
      || (s.slot.holder.Some? && slot' == Slot(s.slot.holder, s.slot.waiters + [a.c]) && a.RunBody? && s.clients[a.c].ctl.state == WaitSlot)
      || (s.slot.holder != Some(a.c) && slot' == Slot(s.slot.holder, Without(s.slot.waiters, a.c)))
      || (s.slot.holder == Some(a.c) && slot' == GiveUp(s.slot, a.c).0)
  {
    assert ClientInv(s, a.c);
  }

  /** A client leaves the queue only by being granted the slot or by being stopped. */
  lemma WithdrawsOnlyByStop(s: System, a: Action)
    requires Inv(s) && Enabled(s, a) && a.c in s.slot.waiters
    ensures a.c in Apply(s, a).slot.waiters || a == StopRelease(a.c)
  {
    assert ClientInv(s, a.c);
  }

  /** Whether a step takes the slot from its holder. */
  predicate ChangesHands(s: System, s': System) {
    s.slot.holder.Some? && s'.slot.holder != s.slot.holder
  }

  /** One step: a waiter moves up at every change of hands, is never overtaken, and is granted from the front. */
  lemma WaiterMovesUp(s: System, a: Action, c: ClientId)
    requires Inv(s) && Enabled(s, a) && c in s.slot.waiters && a != StopRelease(c)
    ensures var s' := Apply(s, a);
      || s'.slot.holder == Some(c)
      || (c in s'.slot.waiters
          && IndexOf(s'.slot.waiters, c) + (if ChangesHands(s, s') then 1 else 0) <= IndexOf(s.slot.waiters, c))
  {
    hide Apply, Reports, GrantInv, ClientInv, GiveUp;
    SlotAfter(s, a);
    WithoutKeepsOrder(s.slot.waiters, a.c);
    StepKeepsInv(s, a);
    if a.c == c {
      WithdrawsOnlyByStop(s, a);
    }
    PlaceAfter(s.slot, Apply(s, a).slot, a.c, c);
  }

  /** The place of a waiter `c` after `d` has asked, withdrawn or handed over. */
  lemma PlaceAfter(slot: Slot, slot': Slot, d: ClientId, c: ClientId)
    requires Distinct(slot.waiters) && Distinct(slot'.waiters) && c in slot.waiters && slot.holder.Some?
    requires slot' == slot || slot' == Slot(slot.holder, slot.waiters + [d]) || slot' == GiveUp(slot, d).0
          || (slot.holder != Some(d) && slot' == Slot(slot.holder, Without(slot.waiters, d)))
    requires d == c ==> c in slot'.waiters || slot.holder == Some(d)
    ensures slot'.holder == Some(c)
         || (c in slot'.waiters
             && IndexOf(slot'.waiters, c) + (if slot'.holder != slot.holder then 1 else 0) <= IndexOf(slot.waiters, c))
  {
    var i := IndexOf(slot.waiters, c);
    WithoutKeepsOrder(slot.waiters, d);
    if slot' == slot {
    } else if slot'.waiters == slot.waiters + [d] {
      assert (slot.waiters + [d])[i] == c;
      SamePlace(slot'.waiters, c, i);
    } else if slot.holder == Some(d) {
      if i > 0 {
        assert slot.waiters[1..][i - 1] == c;
        SamePlace(slot'.waiters, c, i - 1);
      }
    } else {
      assert c != d;
      var j :| 0 <= j <= i && j < |slot'.waiters| && slot'.waiters[j] == c;
      SamePlace(slot'.waiters, c, j);
    }
  }

  lemma SamePlace(ws: seq<ClientId>, c: ClientId, i: nat)
    requires Distinct(ws) && i < |ws| && ws[i] == c
    ensures c in ws && IndexOf(ws, c) == i
  {
  }

  /** How often the slot changes hands along a run. */
  function Handovers(run: seq<System>): nat {
    if |run| < 2 then 0
    else Handovers(run[..|run| - 1]) + if ChangesHands(run[|run| - 2], run[|run| - 1]) then 1 else 0
  }

  /**
   In any run in which it is not stopped, a client at index k of the queue has held the slot by
   the time the slot has changed hands k + 1 times; until then it has moved up by every change.
   */
  lemma {:induction false} FirstComeFirstServed(run: seq<System>, actions: seq<Action>, c: ClientId)
    requires Run(run, actions) && Reachable(run[0]) && c in run[0].slot.waiters
    requires StopRelease(c) !in actions
    ensures (exists i :: 0 <= i < |run| && run[i].slot.holder == Some(c))
         || (c in run[|run| - 1].slot.waiters
             && IndexOf(run[|run| - 1].slot.waiters, c) + Handovers(run) <= IndexOf(run[0].slot.waiters, c))
    ensures Handovers(run) > IndexOf(run[0].slot.waiters, c) ==>
              exists i :: 0 <= i < |run| && run[i].slot.holder == Some(c)
    decreases |run|
  {
    hide Inv, Apply, Reports, IndexOf;
    var n := |actions|;
    if n > 0 {
      var shorter := run[..n];
      assert run[..|run| - 1] == shorter;
      assert Run(shorter, actions[..n - 1]) && shorter[0] == run[0] && shorter[|shorter| - 1] == run[n - 1];
      FirstComeFirstServed(shorter, actions[..n - 1], c);
      if i :| 0 <= i < |shorter| && shorter[i].slot.holder == Some(c) {
        assert run[i].slot.holder == Some(c);
      } else {
        ReachableInv(run[0]);
        RunKeepsInv(run, actions, n - 1);
        assert actions[n - 1] in actions;
        WaiterMovesUp(run[n - 1], actions[n - 1], c);
      }
    }
  }

  // ---- Bounded waiting ---------------------------------------------------------

  /** What a waiter still has to sit through: the holder's steps, and 46 for each client ahead of it. */
  function Toll(s: System, c: ClientId): nat
    requires c in s.slot.waiters
  {
    WeightOfHolder(s) + 46 * IndexOf(s.slot.waiters, c)
  }

  /** Every due step brings a waiter closer to the slot, also the one that hands it to somebody else. */
  lemma WaiterPays(s: System, a: Action, c: ClientId)
    requires Inv(s) && Enabled(s, a) && c in s.slot.waiters && a != StopRelease(c)
    ensures var s' := Apply(s, a);
      || s'.slot.holder == Some(c)
      || (c in s'.slot.waiters && Count(DueForHolder(s, a)) + Toll(s', c) <= Toll(s, c))
  {
    hide ClientInv, GrantInv, Apply, Reports, Due, WeightOfHolder, IndexOf;
    var s' := Apply(s, a);
    WaiterMovesUp(s, a, c);
    StepKeepsInv(s, a);
    HolderWeighsLittle(s');
    if s'.slot.holder == s.slot.holder {
      DueStepIsPaid(s, a);
    }
  }

  /**
   Bounded waiting: in any run in which it is not stopped, a client at index k of the queue has
   held the slot by the time the holders have taken 46 * (k + 1) due steps.
   */
  lemma {:induction false} WaitingIsBounded(run: seq<System>, actions: seq<Action>, c: ClientId)
    requires Run(run, actions) && Reachable(run[0]) && c in run[0].slot.waiters
    requires StopRelease(c) !in actions
    ensures (exists i :: 0 <= i < |run| && run[i].slot.holder == Some(c))
         || (c in run[|run| - 1].slot.waiters && DueSteps(run, actions) + Toll(run[|run| - 1], c) <= Toll(run[0], c))
    ensures DueSteps(run, actions) >= 46 * (IndexOf(run[0].slot.waiters, c) + 1) ==>
              exists i :: 0 <= i < |run| && run[i].slot.holder == Some(c)
    decreases |run|
  {
    hide Inv, Apply, Reports, WeightOfHolder, DueForHolder, IndexOf;
    var n := |actions|;
    ReachableInv(run[0]);
    HolderWeighsLittle(run[0]);
    if n > 0 {
      var shorter := run[..n];
      assert Run(shorter, actions[..n - 1]) && shorter[|shorter| - 1] == run[n - 1];
      WaitingIsBounded(shorter, actions[..n - 1], c);
      if i :| 0 <= i < |shorter| && shorter[i].slot.holder == Some(c) {
        assert run[i].slot.holder == Some(c);
      } else {
        DueStepsOfPrefix(run, actions[..n - 1]);
        RunKeepsInv(run, actions, n - 1);
        assert actions[n - 1] in actions;
        WaiterPays(run[n - 1], actions[n - 1], c);
      }
    }
  }

  // ---- One grant per request ---------------------------------------------------

  /** A grant the client is still entitled to: it is queued, or its grant is in flight. */
  ghost predicate Owed(s: System, c: ClientId) {
    c in s.slot.waiters || InFlight(s, c)
  }

  predicate Requests(s: System, a: Action, c: ClientId) {
    a.RunBody? && a.c == c && c in s.clients && s.clients[c].ctl.state == WaitSlot
  }

  predicate SignalsTo(s: System, a: Action, c: ClientId) {
    a.RunGrant? && a.c in s.clients && s.clients[a.c].ctl.pc.Signal? && s.clients[a.c].ctl.pc.target == c
  }

  function Count(b: bool): nat {
    if b then 1 else 0
  }

  function RequestCount(run: seq<System>, actions: seq<Action>, c: ClientId): nat
    requires |run| >= |actions|
  {
    if actions == [] then 0
    else RequestCount(run, actions[..|actions| - 1], c) + Count(Requests(run[|actions| - 1], actions[|actions| - 1], c))
  }

  function GrantCount(run: seq<System>, actions: seq<Action>, c: ClientId): nat
    requires |run| >= |actions|
  {
    if actions == [] then 0
    else GrantCount(run, actions[..|actions| - 1], c) + Count(SignalsTo(run[|actions| - 1], actions[|actions| - 1], c))
  }

  /** Which grants a release puts in flight: the new holder's, if the slot changes hands. */
  lemma ReleaseGrants(s: System, c: ClientId, rest: Rest, e: ClientId)
    requires Inv(s) && c in s.clients && Releasing(s.clients[c].ctl, rest)
    ensures InFlight(ReleaseStep(s, c, rest), e) ==> InFlight(s, e) || e in s.slot.waiters
    ensures e in ReleaseStep(s, c, rest).slot.waiters ==> e in s.slot.waiters
  {
    var s' := ReleaseStep(s, c, rest);
    WithoutKeepsOrder(s.slot.waiters, c);
    if InFlight(s', e) {
      var d :| Signals(s', d, e);
      if d != c { assert Signals(s, d, e); }
    }
  }

  /** A grant callback turns a grant owed into a signal. */
  lemma GrantIsPaid(s: System, d: ClientId, c: ClientId)
    requires Inv(s) && Enabled(s, RunGrant(d)) && c in s.clients
    ensures Count(SignalsTo(s, RunGrant(d), c)) + Count(Owed(Apply(s, RunGrant(d)), c)) <= Count(Owed(s, c))
  {
    hide Reports, BatchInv;
    RunGrantMovesGrant(s, d, s.clients[d].ctl.pc.target);
    assert ClientInv(s, c);
  }

  lemma GrantsBalance(s: System, a: Action, c: ClientId)
    requires Inv(s) && Enabled(s, a) && c in s.clients
    ensures Count(SignalsTo(s, a, c)) + Count(Owed(Apply(s, a), c)) <= Count(Owed(s, c)) + Count(Requests(s, a, c))
  {
    hide Reports;
    var s' := Apply(s, a);
    if a.RunGrant? {
      GrantIsPaid(s, a.c, c);
    } else if a.StopRelease? {
      assert ClientInv(s, a.c);
      ReleaseGrants(s, a.c, InstallStopping, c);
    } else if a.RunBody? && s.clients[a.c].ctl.state == Online {
      ReleaseGrants(s, a.c, ClearWork, c);
    } else if a.RunBody? && s.clients[a.c].ctl.state == Backoff {
      ReleaseGrants(s, a.c, ArmBackoff, c);
    } else {
      if Owed(s', c) { OthersOweNothing(s, a, c); }
    }
  }

  ghost predicate Quiet(s: System, a: Action)
    requires Enabled(s, a)
  {
    && !a.RunGrant? && !a.StopRelease?
    && (a.RunBody? ==> s.clients[a.c].ctl.state != Online && s.clients[a.c].ctl.state != Backoff)
  }

  /** A request joins the queue, or puts the client's own grant in flight. */
  lemma RequestStep(s: System, a: Action)
    requires Enabled(s, a) && Requests(s, a, a.c)
    ensures var k' := Apply(s, a).clients[a.c];
      && Apply(s, a) == System(s.clients[a.c := k'], Ask(s.slot, a.c).0)
      && (k'.ctl.pc.Signal? ==> k'.ctl.pc.target == a.c)
  {
    hide Reports, Ask;
  }

  /** Any other quiet step changes only the client's own record and sends it to no grant. */
  lemma OwnStep(s: System, a: Action)
    requires Enabled(s, a) && Quiet(s, a) && !Requests(s, a, a.c)
    ensures var k' := Apply(s, a).clients[a.c];
      && Apply(s, a) == System(s.clients[a.c := k'], s.slot)
      && (k'.ctl.pc.Signal? ==> k'.ctl.pc == s.clients[a.c].ctl.pc)
  {
    hide Reports, ReleaseStep, Ask, Handle, LocalBody;
    if a.RunBody? {
      OwnBody(s.clients[a.c], a.ok);
    } else if a.Dispatch? {
      OwnHandler(s.clients[a.c]);
    }
  }

  lemma OwnBody(k: Client, ok: bool)
    ensures LocalBody(k, ok).ctl.pc.Signal? ==> LocalBody(k, ok).ctl.pc == k.ctl.pc
  {
  }

  lemma OwnHandler(k: Client)
    requires k.batch != []
    ensures Handle(k).ctl.pc.Signal? ==> Handle(k).ctl.pc == k.ctl.pc
  {
  }

  /** Steps that neither release nor run a grant put at most the client's own grant in flight. */
  lemma QuietSteps(s: System, a: Action)
    requires Enabled(s, a) && Quiet(s, a)
    ensures forall d :: d in s.clients && d != a.c ==> Apply(s, a).clients[d] == s.clients[d]
    ensures Apply(s, a).clients.Keys == s.clients.Keys
    ensures var pc' := Apply(s, a).clients[a.c].ctl.pc;
      pc'.Signal? ==> pc' == s.clients[a.c].ctl.pc || (Requests(s, a, a.c) && pc'.target == a.c)
    ensures Apply(s, a).slot.waiters == s.slot.waiters || (Requests(s, a, a.c) && Apply(s, a).slot.waiters == s.slot.waiters + [a.c])
  {
    hide Apply, Reports;
    if Requests(s, a, a.c) {
      RequestStep(s, a);
    } else {
      OwnStep(s, a);
    }
  }

  lemma OthersOweNothing(s: System, a: Action, c: ClientId)
    requires Enabled(s, a) && Quiet(s, a) && Owed(Apply(s, a), c)
    ensures Owed(s, c) || Requests(s, a, c)
  {
    QuietSteps(s, a);
    var s' := Apply(s, a);
    if InFlight(s', c) {
      var d :| Signals(s', d, c);
      if d != a.c || !Requests(s, a, a.c) { assert Signals(s, d, c); }
    }
  }

  /** At no moment is more than one grant for a client unread or in flight. */
  lemma OneGrantAtATime(s: System, c: ClientId)
    requires Reachable(s) && c in s.clients
    ensures s.clients[c].ctl.slotEvent + Count(InFlight(s, c)) <= 1
  {
    ReachableInv(s);
    if InFlight(s, c) {
      var d :| Signals(s, d, c);
    }
  }

  lemma ClientsStay(s: System, a: Action)
    requires Enabled(s, a)
    ensures Apply(s, a).clients.Keys == s.clients.Keys
  {
    hide Reports;
  }

  /**
   Along any run a client is signalled at most once per request, counting a grant it was owed
   at the start.
   */
  lemma {:induction false} OneGrantPerRequest(run: seq<System>, actions: seq<Action>, c: ClientId)
    requires Run(run, actions) && Reachable(run[0]) && c in run[0].clients
    ensures GrantCount(run, actions, c) + Count(Owed(run[|run| - 1], c))
         <= Count(Owed(run[0], c)) + RequestCount(run, actions, c)
    ensures c in run[|run| - 1].clients
    decreases |actions|
  {
    hide Apply, Reports, Inv, Owed, Requests, SignalsTo;
    var n := |actions|;
    if n > 0 {
      var shorter := run[..n];
      assert Run(shorter, actions[..n - 1]) && shorter[|shorter| - 1] == run[n - 1];
      ClientsStay(run[n - 1], actions[n - 1]);
      OneGrantPerRequest(shorter, actions[..n - 1], c);
      CountsOfPrefix(run, actions[..n - 1], c);
      ReachableInv(run[0]);
      RunKeepsInv(run, actions, n - 1);
      GrantsBalance(run[n - 1], actions[n - 1], c);
    }
  }

  /** The counts look only at the states in which the actions are taken. */
  lemma {:induction false} CountsOfPrefix(run: seq<System>, actions: seq<Action>, c: ClientId)
    requires |run| > |actions|
    ensures GrantCount(run[..|run| - 1], actions, c) == GrantCount(run, actions, c)
    ensures RequestCount(run[..|run| - 1], actions, c) == RequestCount(run, actions, c)
  {
    if actions != [] {
      CountsOfPrefix(run, actions[..|actions| - 1], c);
    }
  }

  // ---- Signals of a lost connection --------------------------------------------

  /** A work signal is readable, or reported and not handled yet. */
  predicate Pending(k: Client) {
    k.workEvent || WorkFd in k.batch
  }

  /** In the loop of state Online, or past it in the stop handler. */
  predicate Listening(t: Control) {
    t.state == Online && (t.pc == AtLoop || t.pc == StopCalls || Quit(t.state, t.pc))
  }

  /** One step leaves a signal pending, unless the client leaves Online by it. */
  lemma StepKeepsSignal(s: System, a: Action, c: ClientId)
    requires Enabled(s, a) && c in s.clients && Listening(s.clients[c].ctl) && Pending(s.clients[c])
    ensures c in Apply(s, a).clients
    ensures var k' := Apply(s, a).clients[c];
      k'.ctl.state == Online ==> Listening(k'.ctl) && Pending(k')
  {
    hide LocalBody, Ask, GiveUp;
    if a == Dispatch(c) {
      var batch := s.clients[c].batch;
      assert batch == [batch[0]] + batch[1..];
    }
  }

  /** A signal raised while a client is in the loop of state Online stays readable or reported for as long as it is Online. */
  lemma {:induction false} SignalStaysPending(run: seq<System>, actions: seq<Action>, c: ClientId, i: nat)
    requires Run(run, actions) && i < |run|
    requires forall j :: 0 <= j < |run| ==> c in run[j].clients && run[j].clients[c].ctl.state == Online
    requires run[0].clients[c].ctl.pc == AtLoop && Pending(run[0].clients[c])
    ensures Pending(run[i].clients[c]) && Listening(run[i].clients[c].ctl)
  {
    hide Apply, Reports, Pending;
    if i > 0 {
      SignalStaysPending(run, actions, c, i - 1);
      StepKeepsSignal(run[i - 1], actions[i - 1], c);
    }
  }

  /** Client 0 has found its peripheral and is connected. */
  lemma FirstConnects()
    ensures Reachable(Two(At(Online, Body, Disarmed, 0).(peripheral := true), FreshClient, Slot(Some(0), [])))
  {
    hide Reachable;
    var f, held := FreshClient, Slot(Some(0), []);
    FirstIsGranted();
    ReadsGrant(At(WaitSlot, AtLoop, Disarmed, 1), f, held, 0);
    var k := At(Scan, AtLoop, Armed, 0);
    First(At(Scan, Body, Disarmed, 0), f, held, RunBody(0, true), k, held);
    First(k, f, held, MatchFound(0), k.(found := true), held);
    MatchConnects();
  }

  lemma MatchConnects()
    requires Reachable(Two(At(Scan, AtLoop, Armed, 0).(found := true), FreshClient, Slot(Some(0), [])))
    ensures Reachable(Two(At(Online, Body, Disarmed, 0).(peripheral := true), FreshClient, Slot(Some(0), [])))
  {
    hide Reachable;
    var f, held := FreshClient, Slot(Some(0), []);
    var k := At(Scan, AtLoop, Armed, 0).(found := true);
    First(k, f, held, WorkSignalled(0), k.(workEvent := true), held);
    First(k.(workEvent := true), f, held, Poll(0, [WorkFd]), k.(workEvent := true, batch := [WorkFd]), held);
    assert [WorkFd][1..] == [];
    var l := At(Connect, Body, Disarmed, 0).(peripheral := true);
    First(k.(workEvent := true, batch := [WorkFd]), f, held, Dispatch(0), l, held);
    First(l, f, held, RunBody(0, true), At(Online, Body, Disarmed, 0).(peripheral := true), held);
  }

  /** Raised earlier, before the body of Online has cleared the descriptor, a signal can be lost unhandled. */
  lemma EarlySignalCanBeLost()
    ensures exists run: seq<System>, actions: seq<Action> ::
      && Run(run, actions) && Reachable(run[0]) && |actions| == 3 && actions[0] == WorkSignalled(0)
      && (forall i :: 0 <= i < |run| ==> 0 in run[i].clients && run[i].clients[0].ctl.state == Online)
      && (forall i :: 0 <= i < |actions| ==> !actions[i].Dispatch?)
      && run[3].clients[0].ctl.pc == AtLoop && !Pending(run[3].clients[0])
  {
    FirstConnects();
    hide Reachable, Reports;
    var k := At(Online, Body, Disarmed, 0).(peripheral := true);
    var s0 := Two(k, FreshClient, Slot(Some(0), []));
    var actions := [WorkSignalled(0), RunBody(0, true), Finish(0)];
    var s1 := Apply(s0, actions[0]);
    var s2 := Apply(s1, actions[1]);
    var s3 := Apply(s2, actions[2]);
    var run := [s0, s1, s2, s3];
    assert Run(run, actions);
    assert run[3].clients[0].ctl.pc == AtLoop && !Pending(run[3].clients[0]);
  }
}
