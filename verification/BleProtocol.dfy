/**
 Any number of BLE clients competing for the scan slot.

 A client is one thread: it waits for events, handles them one by one and moves between the
 seven states of its connection machine. The model interleaves clients at every access to
 shared data: each critical section of the coordinator, each grant callback and each
 assignment to the state between them is a step of its own. Events come from outside at any
 moment: the timer fires, a scan callback reports a match, a disconnect or failed write
 signals work, a stop is requested. Outcomes of Bluetooth calls are free.
 */
module BleProtocol {
  import opened Wrappers
  import opened ScanCoordinator

  datatype State = WaitAdapter | WaitSlot | Scan | Connect | Online | Backoff | Stopping

  datatype Fd = StopFd | WorkFd | SlotFd | TimerFd

  datatype Timer = Disarmed | Armed | Expired

  /** What a thread still does after its call into the coordinator. */
  datatype Rest = BackToLoop | ClearWork | ArmBackoff | InstallStopping

  /**
   Where a thread is: in the event loop; about to run the body of the state it has just
   installed; in the stop handler before the release; about to run a grant callback for
   `target`; or in the remainder of a handler.
   */
  datatype Pc =
    | AtLoop
    | Body
    | StopCalls
    | Signal(target: ClientId, rest: Rest)
    | Tail(rest: Rest)

  /** The part of a client the slot protocol depends on; `slotEvent` counts unread grant signals. */
  datatype Control = Control(state: State, pc: Pc, timer: Timer, slotEvent: nat)

  /** `batch` holds the events reported by the last wait and not handled yet. */
  datatype Client = Client(
    ctl: Control, adapter: bool, peripheral: bool, found: bool, workEvent: bool, stopEvent: bool, batch: seq<Fd>)

  datatype System = System(clients: map<ClientId, Client>, slot: Slot)

  datatype Action =
    | Poll(c: ClientId, ready: seq<Fd>)
    | Dispatch(c: ClientId)
    | RunBody(c: ClientId, ok: bool)
    | StopRelease(c: ClientId)
    | RunGrant(c: ClientId)
    | Finish(c: ClientId)
    | TimerFires(c: ClientId)
    | MatchFound(c: ClientId)
    | WorkSignalled(c: ClientId)
    | StopRequested(c: ClientId)

  const FreshClient := Client(Control(WaitAdapter, Body, Disarmed, 0), false, false, false, false, false, [])

  ghost predicate Initial(s: System) {
    && s.slot == Slot(None, [])
    && forall c :: c in s.clients ==> s.clients[c] == FreshClient
  }

  predicate IsReady(k: Client, fd: Fd) {
    match fd
    case StopFd => k.stopEvent
    case WorkFd => k.workEvent
    case SlotFd => k.ctl.slotEvent > 0
    case TimerFd => k.ctl.timer == Expired
  }

  /** A wait returns every readable descriptor once, in any order. */
  ghost predicate Reports(k: Client, ready: seq<Fd>) {
    && ready != []
    && (forall i, j :: 0 <= i < j < |ready| ==> ready[i] != ready[j])
    && forall fd: Fd :: fd in ready <==> IsReady(k, fd)
  }

  ghost predicate Enabled(s: System, a: Action) {
    && a.c in s.clients
    && var k := s.clients[a.c];
    match a
    case Poll(_, ready) => k.ctl.pc == AtLoop && k.ctl.state != Stopping && k.batch == [] && Reports(k, ready)
    case Dispatch(_) => k.ctl.pc == AtLoop && k.ctl.state != Stopping && k.batch != []
    case RunBody(_, _) => k.ctl.pc == Body
    case StopRelease(_) => k.ctl.pc == StopCalls
    case RunGrant(_) => k.ctl.pc.Signal? && k.ctl.pc.target in s.clients
    case Finish(_) => k.ctl.pc.Tail?
    case TimerFires(_) => k.ctl.timer == Armed
    case MatchFound(_) => true
    case WorkSignalled(_) => true
    case StopRequested(_) => true
  }

  /** enter(): install the state; its body runs as a later step. */
  function Enter(t: Control, st: State): Control {
    Control(st, Body, t.timer, t.slotEvent)
  }

  /** on_stop_event, on_work_event, on_slot_event, on_timer_expired: the control part. */
  function HandleControl(t: Control, fd: Fd, found: bool, adapter: bool): Control {
    match fd
    case StopFd => Control(t.state, StopCalls, t.timer, t.slotEvent)
    case WorkFd =>
      if t.state == Scan && found then Control(Connect, Body, Disarmed, t.slotEvent)
      else if t.state == Online then Enter(t, Backoff)
      else t
    case SlotFd =>
      if t.state == WaitSlot then Control(Scan, Body, t.timer, 0)
      else Control(t.state, t.pc, t.timer, 0)
    case TimerFd =>
      var t' := Control(t.state, t.pc, if t.timer == Expired then Disarmed else t.timer, t.slotEvent);
      if t.state == WaitAdapter then Enter(t', WaitAdapter)
      else if t.state == Scan then Enter(t', Backoff)
      else if t.state == Backoff then Enter(t', if adapter then WaitSlot else WaitAdapter)
      else t'
  }

  /** One iteration of the loop over reported events. */
  function Handle(k: Client): Client
    requires k.batch != []
  {
    var fd := k.batch[0];
    var matched := fd == WorkFd && k.ctl.state == Scan && k.found;
    Client(
      HandleControl(k.ctl, fd, k.found, k.adapter),
      k.adapter,
      matched || (k.peripheral && fd != StopFd && !(fd == WorkFd && k.ctl.state == Online)),
      k.found && !matched,
      k.workEvent && fd != WorkFd,
      k.stopEvent && fd != StopFd,
      k.batch[1..])
  }

  /** Where a thread goes from the coordinator: through the grant callback if there is one. */
  function After(grant: Option<ClientId>, rest: Rest): Pc {
    if grant.Some? then Signal(grant.value, rest)
    else if rest == BackToLoop then AtLoop
    else Tail(rest)
  }

  /** The bodies of enter() that stay within the client; `ok` is the outcome of its Bluetooth call. */
  function LocalBody(k: Client, ok: bool): Client {
    var t := k.ctl;
    match t.state
    case WaitAdapter =>
      if ok then k.(ctl := Enter(t, WaitSlot), adapter := true)
      else k.(ctl := Control(WaitAdapter, AtLoop, Armed, t.slotEvent))
    case Scan =>
      if ok && k.adapter then
        k.(ctl := Control(Scan, AtLoop, Armed, t.slotEvent), workEvent := false, found := false)
      else
        k.(ctl := Enter(t, Backoff), workEvent := false, found := k.found && !k.adapter, adapter := false)
    case Connect =>
      var connected := ok && k.peripheral;
      k.(ctl := Control(if connected then Online else Backoff, Body, Disarmed, t.slotEvent), peripheral := connected)
    case _ => k
  }

  function WithPc(k: Client, pc: Pc): Client {
    k.(ctl := Control(k.ctl.state, pc, k.ctl.timer, k.ctl.slotEvent))
  }

  /** release_slot() followed by `rest`: the critical section; a grant callback is a later step. */
  function ReleaseStep(s: System, c: ClientId, rest: Rest): System
    requires c in s.clients
  {
    var (slot, grant) := GiveUp(s.slot, c);
    System(s.clients[c := WithPc(s.clients[c], After(grant, rest))], slot)
  }

  function BodyStep(s: System, c: ClientId, ok: bool): System
    requires c in s.clients
  {
    var k := s.clients[c];
    match k.ctl.state
    case WaitSlot =>
      var (slot, granted) := Ask(s.slot, c);
      System(s.clients[c := WithPc(k, After(if granted then Some(c) else None, BackToLoop))], slot)
    case Online => ReleaseStep(s, c, ClearWork)
    case Backoff => ReleaseStep(s, c, ArmBackoff)
    case _ =>
      System(s.clients[c := LocalBody(k, ok)], s.slot)
  }

  function FinishStep(k: Client): Client
    requires k.ctl.pc.Tail?
  {
    var t := k.ctl;
    match t.pc.rest
    case BackToLoop => WithPc(k, AtLoop)
    case ClearWork => WithPc(k, AtLoop).(workEvent := false)
    case ArmBackoff => k.(ctl := Control(t.state, AtLoop, Armed, t.slotEvent))
    case InstallStopping => k.(ctl := Control(Stopping, AtLoop, t.timer, t.slotEvent))
  }

  function Apply(s: System, a: Action): System
    requires a.c in s.clients
    requires a.Dispatch? ==> s.clients[a.c].batch != []
    requires a.RunGrant? ==> s.clients[a.c].ctl.pc.Signal? && s.clients[a.c].ctl.pc.target in s.clients
    requires a.Finish? ==> s.clients[a.c].ctl.pc.Tail?
  {
    var k := s.clients[a.c];
    match a
    case Poll(c, ready) => System(s.clients[c := k.(batch := ready)], s.slot)
    case Dispatch(c) => System(s.clients[c := Handle(k)], s.slot)
    case RunBody(c, ok) => BodyStep(s, c, ok)
    case StopRelease(c) => ReleaseStep(s, c, InstallStopping)
    case RunGrant(c) =>
      var t := k.ctl.pc.target;
      var signalled := s.clients[t := s.clients[t].(ctl := s.clients[t].ctl.(slotEvent := s.clients[t].ctl.slotEvent + 1))];
      System(signalled[c := WithPc(signalled[c], After(None, k.ctl.pc.rest))], s.slot)
    case Finish(c) => System(s.clients[c := FinishStep(k)], s.slot)
    case TimerFires(c) =>
      System(s.clients[c := k.(ctl := Control(k.ctl.state, k.ctl.pc, Expired, k.ctl.slotEvent))], s.slot)
    case MatchFound(c) => System(s.clients[c := k.(found := true)], s.slot)
    case WorkSignalled(c) => System(s.clients[c := k.(workEvent := true)], s.slot)
    case StopRequested(c) => System(s.clients[c := k.(stopEvent := true)], s.slot)
  }

  /** `run` is a run: it starts in an initial state and each state follows by one step. */
  ghost predicate Run(run: seq<System>, actions: seq<Action>) {
    && |run| == |actions| + 1
    && forall i :: 0 <= i < |actions| ==> Enabled(run[i], actions[i]) && run[i + 1] == Apply(run[i], actions[i])
  }

  ghost predicate Reachable(s: System) {
    exists run, actions :: Run(run, actions) && Initial(run[0]) && run[|run| - 1] == s
  }

  // ---- The invariant -----------------------------------------------------------

  ghost predicate Signals(s: System, d: ClientId, c: ClientId) {
    d in s.clients && s.clients[d].ctl.pc.Signal? && s.clients[d].ctl.pc.target == c
  }

  /** Some thread has been told to run the grant callback of `c` and has not done so yet. */
  ghost predicate InFlight(s: System, c: ClientId) {
    exists d :: Signals(s, d, c)
  }

  /** The client has passed the release in its stop handler, or has stopped. */
  predicate Quit(st: State, pc: Pc) {
    st == Stopping || ((pc.Signal? || pc.Tail?) && pc.rest == InstallStopping)
  }

  /**
   A client's place at the coordinator: not there; queued; chosen as holder with the grant
   still unread; holder with the grant read; not there, with a grant it will never read.
   */
  datatype Place = Away | Queued | Called | Owner | Gone | Confused

  function PlaceOf(granted: bool, holds: bool, queued: bool): Place {
    if queued then (if holds || granted then Confused else Queued)
    else if holds then (if granted then Called else Owner)
    else if granted then Gone else Away
  }

  /** In the loop or a handler, or in the remainder `rest` of a release. */
  predicate Unbound(pc: Pc, rest: Rest) {
    pc == AtLoop || pc == StopCalls || pc == Tail(rest) || (pc.Signal? && pc.rest == rest)
  }

  /** Whether a client can be at a place, given its state and program counter. */
  predicate Fits(place: Place, st: State, pc: Pc, timer: Timer) {
    match place
    case Away =>
      || (if st == Stopping then pc == AtLoop else Quit(st, pc))
      || (st == WaitAdapter && (pc == AtLoop || pc == Body || pc == StopCalls))
      || (st == WaitSlot && pc == Body)
      || (st == Online && Unbound(pc, ClearWork))
      || (st == Backoff && (pc == Body || Unbound(pc, ArmBackoff)))
    case Queued => st == WaitSlot && (pc == AtLoop || pc == StopCalls)
    case Called => st == WaitSlot && Unbound(pc, BackToLoop) && !pc.Tail?
    case Owner =>
      || (st == Scan && (pc == Body || pc == StopCalls || (pc == AtLoop && timer != Disarmed)))
      || ((st == Connect || st == Online || st == Backoff) && pc == Body)
    case Gone => if st == Stopping then pc == AtLoop else Quit(st, pc)
    case Confused => false
  }

  predicate ControlPlaced(t: Control, inFlight: bool, holds: bool, queued: bool) {
    Fits(PlaceOf(t.slotEvent > 0 || inFlight, holds, queued), t.state, t.pc, t.timer)
  }

  /** A grant reported by the last wait is still unread when its turn comes. */
  ghost predicate BatchInv(t: Control, batch: seq<Fd>) {
    && (forall i, j :: 0 <= i < j < |batch| ==> batch[i] != batch[j])
    && (SlotFd in batch && !Quit(t.state, t.pc) && t.pc != StopCalls ==>
          t.pc == AtLoop && t.state == WaitSlot && t.slotEvent == 1)
  }

  /** At most one grant per client is unread or in flight. */
  ghost predicate GrantInv(s: System) {
    && (forall c :: c in s.clients ==> s.clients[c].ctl.slotEvent <= 1)
    && (forall d, c :: Signals(s, d, c) ==> c in s.clients && s.clients[c].ctl.slotEvent == 0)
    && (forall d, e, c :: Signals(s, d, c) && Signals(s, e, c) ==> d == e)
    && (forall d, c :: Signals(s, d, c) && s.clients[d].ctl.pc.rest == BackToLoop ==> c == d)
  }

  ghost predicate SlotInv(s: System) {
    && Distinct(s.slot.waiters)
    && (forall w :: w in s.slot.waiters ==> w in s.clients)
    && (s.slot.holder.Some? ==> s.slot.holder.value in s.clients)
    && (s.slot.holder == None ==> s.slot.waiters == [])
  }

  ghost predicate ClientInv(s: System, c: ClientId)
    requires c in s.clients
  {
    && ControlPlaced(s.clients[c].ctl, InFlight(s, c), s.slot.holder == Some(c), c in s.slot.waiters)
    && BatchInv(s.clients[c].ctl, s.clients[c].batch)
  }

  ghost predicate Inv(s: System) {
    && SlotInv(s)
    && GrantInv(s)
    && forall c :: c in s.clients ==> ClientInv(s, c)
  }

  // ---- Every step keeps the invariant ------------------------------------------

  lemma InitialInv(s: System)
    requires Initial(s)
    ensures Inv(s)
  {
  }

  lemma SameFlight(s: System, s': System, c: ClientId)
    requires forall d :: Signals(s', d, c) <==> Signals(s, d, c)
    ensures InFlight(s', c) <==> InFlight(s, c)
  {
    if InFlight(s, c) {
      var d :| Signals(s, d, c);
      assert Signals(s', d, c);
    }
    if InFlight(s', c) {
      var d :| Signals(s', d, c);
      assert Signals(s, d, c);
    }
  }

  /** A client whose record, place and pending grants a step leaves alone. */
  ghost predicate Untouched(s: System, s': System, e: ClientId)
    requires e in s.clients && e in s'.clients
  {
    && s'.clients[e] == s.clients[e]
    && (s'.slot.holder == Some(e)) == (s.slot.holder == Some(e))
    && (e in s'.slot.waiters) == (e in s.slot.waiters)
    && InFlight(s', e) == InFlight(s, e)
  }

  lemma UntouchedKeepsPlace(s: System, s': System, e: ClientId)
    requires e in s.clients && e in s'.clients && ClientInv(s, e) && Untouched(s, s', e)
    ensures ClientInv(s', e)
  {
  }

  lemma OthersKeepPlace(s: System, s': System, touched: set<ClientId>)
    requires s'.clients.Keys == s.clients.Keys && forall e :: e in s.clients ==> ClientInv(s, e)
    requires forall e :: e in s.clients && e !in touched ==> Untouched(s, s', e)
    requires forall e :: e in s.clients && e in touched ==> ClientInv(s', e)
    ensures forall e :: e in s'.clients ==> ClientInv(s', e)
  {
    forall e | e in s'.clients && e !in touched ensures ClientInv(s', e) {
      UntouchedKeepsPlace(s, s', e);
    }
  }

  /** Client `c` changes its record to `k'`; the grants in flight stay, and one from `c` to `w` joins if `more`. */
  lemma GrantsKeepInv(s: System, c: ClientId, k': Client, slot': Slot, w: ClientId, more: bool)
    requires GrantInv(s) && c in s.clients && w in s.clients
    requires k'.ctl.slotEvent == s.clients[c].ctl.slotEvent
    requires !s.clients[c].ctl.pc.Signal? && k'.ctl.pc.Signal? == more
    requires more ==> k'.ctl.pc.target == w && (k'.ctl.pc.rest == BackToLoop ==> w == c)
    requires more ==> s.clients[w].ctl.slotEvent == 0 && !InFlight(s, w)
    ensures GrantInv(System(s.clients[c := k'], slot'))
    ensures forall e :: InFlight(System(s.clients[c := k'], slot'), e) == (InFlight(s, e) || (more && e == w))
  {
    var s' := System(s.clients[c := k'], slot');
    assert forall d, e :: Signals(s', d, e) <==> Signals(s, d, e) || (more && d == c && e == w);
    if more { assert Signals(s', c, w); }
    forall e | e != w || !more ensures InFlight(s', e) == InFlight(s, e) {
      SameFlight(s, s', e);
    }
  }

  /** A step that changes one client's record, and neither the slot nor the grants in flight. */
  lemma LocalStepKeepsInv(s: System, c: ClientId, k': Client)
    requires Inv(s) && c in s.clients
    requires k'.ctl.pc == s.clients[c].ctl.pc || (!k'.ctl.pc.Signal? && !s.clients[c].ctl.pc.Signal?)
    requires k'.ctl.slotEvent <= s.clients[c].ctl.slotEvent
    requires ControlPlaced(k'.ctl, InFlight(s, c), s.slot.holder == Some(c), c in s.slot.waiters)
    requires BatchInv(k'.ctl, k'.batch)
    ensures Inv(s.(clients := s.clients[c := k']))
  {
    hide Fits, BatchInv;
    var s' := s.(clients := s.clients[c := k']);
    assert ClientInv(s, c);
    assert forall d, e :: Signals(s', d, e) <==> Signals(s, d, e);
    assert GrantInv(s');
    forall e ensures InFlight(s', e) == InFlight(s, e) {
      SameFlight(s, s', e);
    }
    OthersKeepPlace(s, s', {c});
  }

  lemma HandleKeepsPlace(t: Control, fd: Fd, found: bool, adapter: bool, inFlight: bool, holds: bool, queued: bool)
    requires t.pc == AtLoop && t.state != Stopping && ControlPlaced(t, inFlight, holds, queued)
    requires t.slotEvent > 0 ==> !inFlight
    requires fd == SlotFd ==> t.state == WaitSlot && t.slotEvent == 1
    ensures ControlPlaced(HandleControl(t, fd, found, adapter), inFlight, holds, queued)
  {
  }

  lemma HandleKeepsBatch(t: Control, found: bool, adapter: bool, batch: seq<Fd>)
    requires t.pc == AtLoop && t.state != Stopping && batch != [] && BatchInv(t, batch)
    ensures BatchInv(HandleControl(t, batch[0], found, adapter), batch[1..])
    ensures !HandleControl(t, batch[0], found, adapter).pc.Signal?
    ensures HandleControl(t, batch[0], found, adapter).slotEvent <= t.slotEvent
  {
    assert SlotFd in batch[1..] ==> SlotFd in batch && batch[0] != SlotFd;
  }

  lemma DispatchKeepsInv(s: System, c: ClientId)
    requires Inv(s) && Enabled(s, Dispatch(c))
    ensures Inv(Apply(s, Dispatch(c)))
  {
    assert ClientInv(s, c);
    var k := s.clients[c];
    assert k.batch[0] in k.batch;
    HandleKeepsPlace(k.ctl, k.batch[0], k.found, k.adapter, InFlight(s, c), s.slot.holder == Some(c), c in s.slot.waiters);
    HandleKeepsBatch(k.ctl, k.found, k.adapter, k.batch);
    LocalStepKeepsInv(s, c, Handle(k));
  }

  lemma EnvironmentKeepsInv(s: System, a: Action)
    requires Inv(s) && Enabled(s, a)
    requires a.TimerFires? || a.MatchFound? || a.WorkSignalled? || a.StopRequested?
    ensures Inv(Apply(s, a))
  {
    assert ClientInv(s, a.c);
    LocalStepKeepsInv(s, a.c, Apply(s, a).clients[a.c]);
  }

  lemma PollKeepsInv(s: System, c: ClientId, ready: seq<Fd>)
    requires Inv(s) && Enabled(s, Poll(c, ready))
    ensures Inv(Apply(s, Poll(c, ready)))
  {
    assert ClientInv(s, c);
    LocalStepKeepsInv(s, c, s.clients[c].(batch := ready));
  }

  lemma FinishedFits(t: Control, t': Control, inFlight: bool, holds: bool, queued: bool, batch: seq<Fd>)
    requires t.pc.Tail? && ControlPlaced(t, inFlight, holds, queued) && BatchInv(t, batch)
    requires t'.pc == AtLoop && t'.slotEvent == t.slotEvent
    requires t'.state == if t.pc.rest == InstallStopping then Stopping else t.state
    ensures ControlPlaced(t', inFlight, holds, queued) && BatchInv(t', batch)
  {
  }

  lemma FinishKeepsInv(s: System, c: ClientId)
    requires Inv(s) && Enabled(s, Finish(c))
    ensures Inv(Apply(s, Finish(c)))
  {
    hide ControlPlaced, BatchInv, GrantInv, SlotInv, Reports;
    assert ClientInv(s, c);
    var k' := FinishStep(s.clients[c]);
    FinishedFits(s.clients[c].ctl, k'.ctl, InFlight(s, c), s.slot.holder == Some(c), c in s.slot.waiters, k'.batch);
    LocalStepKeepsInv(s, c, k');
  }

  lemma LocalBodyKeepsInv(s: System, c: ClientId, ok: bool)
    requires Inv(s) && Enabled(s, RunBody(c, ok))
    requires s.clients[c].ctl.state == WaitAdapter || s.clients[c].ctl.state == Scan || s.clients[c].ctl.state == Connect
    ensures Inv(Apply(s, RunBody(c, ok)))
  {
    assert ClientInv(s, c);
    LocalStepKeepsInv(s, c, Apply(s, RunBody(c, ok)).clients[c]);
  }

  /** Running a grant callback: one grant less in flight, one more unread. */
  lemma RunGrantMovesGrant(s: System, c: ClientId, t: ClientId)
    requires Inv(s) && Enabled(s, RunGrant(c)) && t == s.clients[c].ctl.pc.target
    ensures GrantInv(Apply(s, RunGrant(c)))
    ensures InFlight(s, t)
    ensures forall e :: InFlight(Apply(s, RunGrant(c)), e) == (InFlight(s, e) && e != t)
  {
    hide Reports, ControlPlaced, BatchInv;
    var s' := Apply(s, RunGrant(c));
    assert Signals(s, c, t);
    assert forall d, e :: Signals(s', d, e) <==> Signals(s, d, e) && d != c;
    forall e | e != t ensures InFlight(s', e) == InFlight(s, e) {
      SameFlight(s, s', e);
    }
  }

  lemma ResumedFits(t: Control, inFlight: bool, holds: bool, queued: bool, batch: seq<Fd>, more: nat)
    requires ControlPlaced(t, inFlight, holds, queued) && BatchInv(t, batch) && t.pc.Signal?
    requires t.pc.rest == BackToLoop ==> t.slotEvent == 0 && more == 1
    requires more == 0 || inFlight
    ensures ControlPlaced(Control(t.state, After(None, t.pc.rest), t.timer, t.slotEvent + more), inFlight && more == 0, holds, queued)
    ensures BatchInv(Control(t.state, After(None, t.pc.rest), t.timer, t.slotEvent + more), batch)
  {
  }

  lemma RunGrantKeepsInv(s: System, c: ClientId)
    requires Inv(s) && Enabled(s, RunGrant(c))
    ensures Inv(Apply(s, RunGrant(c)))
  {
    hide Reports, Fits, BodyStep, ReleaseStep, Handle;
    var s' := Apply(s, RunGrant(c));
    var t := s.clients[c].ctl.pc.target;
    RunGrantMovesGrant(s, c, t);
    assert Signals(s, c, t) && ClientInv(s, c) && ClientInv(s, t);
    ResumedFits(s.clients[c].ctl, InFlight(s, c), s.slot.holder == Some(c), c in s.slot.waiters,
                s.clients[c].batch, if c == t then 1 else 0);
    assert ClientInv(s', c) && ClientInv(s', t);
    OthersKeepPlace(s, s', {c, t});
  }

  /** A client about to ask is away from the coordinator; it fits when granted at once and when queued. */
  lemma NewcomerFits(t: Control, inFlight: bool, holds: bool, queued: bool, batch: seq<Fd>, c: ClientId)
    requires ControlPlaced(t, inFlight, holds, queued) && BatchInv(t, batch) && t.pc == Body && t.state == WaitSlot
    ensures !inFlight && t.slotEvent == 0 && !holds && !queued
    ensures ControlPlaced(Control(WaitSlot, Signal(c, BackToLoop), t.timer, 0), true, true, false)
    ensures ControlPlaced(Control(WaitSlot, AtLoop, t.timer, 0), false, false, true)
    ensures forall t': Control :: BatchInv(t', batch)
  {
  }

  /** The system after a newcomer's request: it is granted a free slot at once, and queued last otherwise. */
  function Joined(s: System, c: ClientId): System
    requires c in s.clients
  {
    if s.slot.holder == None then System(s.clients[c := WithPc(s.clients[c], Signal(c, BackToLoop))], Slot(Some(c), []))
    else System(s.clients[c := WithPc(s.clients[c], AtLoop)], Slot(s.slot.holder, s.slot.waiters + [c]))
  }

  lemma NewcomerAsks(s: System, c: ClientId, ok: bool)
    requires SlotInv(s) && c in s.clients && s.clients[c].ctl.state == WaitSlot
    requires s.slot.holder != Some(c) && c !in s.slot.waiters
    ensures Apply(s, RunBody(c, ok)) == Joined(s, c)
  {
    hide Handle, LocalBody, ReleaseStep;
  }

  lemma NewcomerIsGranted(s: System, c: ClientId)
    requires Inv(s) && c in s.clients && s.clients[c].ctl.state == WaitSlot && s.clients[c].ctl.pc == Body
    requires s.slot.holder == None
    ensures Inv(Joined(s, c))
  {
    hide BatchInv, Fits;
    var s', k := Joined(s, c), s.clients[c];
    assert ClientInv(s, c);
    NewcomerFits(k.ctl, InFlight(s, c), false, c in s.slot.waiters, k.batch, c);
    GrantsKeepInv(s, c, s'.clients[c], s'.slot, c, true);
    assert ClientInv(s', c);
    OthersKeepPlace(s, s', {c});
  }

  lemma NewcomerIsQueued(s: System, c: ClientId)
    requires Inv(s) && c in s.clients && s.clients[c].ctl.state == WaitSlot && s.clients[c].ctl.pc == Body
    requires s.slot.holder.Some?
    ensures s.slot.holder != Some(c) && c !in s.slot.waiters
    ensures Inv(Joined(s, c))
  {
    hide BatchInv, Fits;
    var s', k := Joined(s, c), s.clients[c];
    assert ClientInv(s, c);
    NewcomerFits(k.ctl, InFlight(s, c), s.slot.holder == Some(c), c in s.slot.waiters, k.batch, c);
    GrantsKeepInv(s, c, s'.clients[c], s'.slot, c, false);
    assert ClientInv(s', c);
    OthersKeepPlace(s, s', {c});
  }

  /** Requesting the slot: the client is neither holder nor queued. */
  lemma AskKeepsInv(s: System, c: ClientId, ok: bool)
    requires Inv(s) && Enabled(s, RunBody(c, ok)) && s.clients[c].ctl.state == WaitSlot
    ensures Apply(s, RunBody(c, ok)) == Joined(s, c) && Inv(Joined(s, c))
  {
    hide Reports, Joined, GrantInv, ClientInv, Apply;
    if s.slot.holder == None {
      NewcomerIsGranted(s, c);
    } else {
      NewcomerIsQueued(s, c);
    }
    NewcomerAsks(s, c, ok);
  }

  /** The three places from which a client releases, and what follows there. */
  predicate Releasing(t: Control, rest: Rest) {
    || (t.pc == StopCalls && t.state != Stopping && rest == InstallStopping)
    || (t.pc == Body && t.state == Online && rest == ClearWork)
    || (t.pc == Body && t.state == Backoff && rest == ArmBackoff)
  }

  /** Having released, a client is at none of the coordinator's places. */
  lemma ReleasedFits(t: Control, rest: Rest, pc: Pc, inFlight: bool, holds: bool, queued: bool, batch: seq<Fd>)
    requires Releasing(t, rest) && ControlPlaced(t, inFlight, holds, queued) && BatchInv(t, batch)
    requires pc == Tail(rest) || (pc.Signal? && pc.rest == rest)
    ensures ControlPlaced(Control(t.state, pc, t.timer, t.slotEvent), inFlight, false, false)
    ensures BatchInv(Control(t.state, pc, t.timer, t.slotEvent), batch)
  {
  }

  lemma HolderIsNotQueued(t: Control, inFlight: bool, queued: bool)
    requires ControlPlaced(t, inFlight, true, queued)
    ensures !queued
  {
  }

  /** A waiter has no grant on its way; called, it fits where it is. */
  lemma WaiterFits(t: Control, inFlight: bool, holds: bool)
    requires ControlPlaced(t, inFlight, holds, true)
    ensures !inFlight && t.slotEvent == 0 && !holds
    ensures ControlPlaced(t, true, true, false)
  {
  }

  /** The holder hands the slot to the first waiter; its grant is now in flight. */
  lemma HandOverKeepsInv(s: System, c: ClientId, rest: Rest)
    requires Inv(s) && c in s.clients && Releasing(s.clients[c].ctl, rest)
    requires s.slot.holder == Some(c) && s.slot.waiters != []
    ensures Inv(ReleaseStep(s, c, rest))
  {
    hide Fits, BatchInv;
    var s', w := ReleaseStep(s, c, rest), s.slot.waiters[0];
    assert ClientInv(s, c) && ClientInv(s, w);
    HolderIsNotQueued(s.clients[c].ctl, InFlight(s, c), c in s.slot.waiters);
    WaiterFits(s.clients[w].ctl, InFlight(s, w), s.slot.holder == Some(w));
    DequeueKeepsOrder(s.slot.waiters);
    ReleasedFits(s.clients[c].ctl, rest, Signal(w, rest), InFlight(s, c), true, false, s.clients[c].batch);
    assert !InFlight(s, w) && w != c;
    GrantsKeepInv(s, c, s'.clients[c], Slot(Some(w), s.slot.waiters[1..]), w, true);
    assert ClientInv(s', c) && ClientInv(s', w);
    OthersKeepPlace(s, s', {c, w});
  }

  /** A holder with nobody queued frees the slot. */
  lemma FreeKeepsInv(s: System, c: ClientId, rest: Rest)
    requires Inv(s) && c in s.clients && Releasing(s.clients[c].ctl, rest)
    requires s.slot.holder == Some(c) && s.slot.waiters == []
    ensures Inv(ReleaseStep(s, c, rest))
  {
    hide Fits, BatchInv;
    var s' := ReleaseStep(s, c, rest);
    assert ClientInv(s, c);
    ReleasedFits(s.clients[c].ctl, rest, Tail(rest), InFlight(s, c), true, false, s.clients[c].batch);
    GrantsKeepInv(s, c, s'.clients[c], s'.slot, c, false);
    OthersKeepPlace(s, s', {c});
  }

  /** A release by a client that does not hold the slot at most withdraws it from the queue. */
  lemma WithdrawKeepsInv(s: System, c: ClientId, rest: Rest)
    requires Inv(s) && c in s.clients && Releasing(s.clients[c].ctl, rest) && s.slot.holder != Some(c)
    ensures Inv(ReleaseStep(s, c, rest))
  {
    hide Fits, BatchInv;
    var s' := ReleaseStep(s, c, rest);
    assert ClientInv(s, c);
    WithoutKeepsOrder(s.slot.waiters, c);
    assert s'.slot == Slot(s.slot.holder, Without(s.slot.waiters, c));
    ReleasedFits(s.clients[c].ctl, rest, Tail(rest), InFlight(s, c), false, c in s.slot.waiters, s.clients[c].batch);
    GrantsKeepInv(s, c, s'.clients[c], s'.slot, c, false);
    OthersKeepPlace(s, s', {c});
  }

  lemma ReleaseKeepsInv(s: System, c: ClientId, rest: Rest)
    requires Inv(s) && c in s.clients && Releasing(s.clients[c].ctl, rest)
    ensures Inv(ReleaseStep(s, c, rest))
  {
    if s.slot.holder != Some(c) {
      WithdrawKeepsInv(s, c, rest);
    } else if s.slot.waiters == [] {
      FreeKeepsInv(s, c, rest);
    } else {
      HandOverKeepsInv(s, c, rest);
    }
  }

  lemma StepKeepsInv(s: System, a: Action)
    requires Inv(s) && Enabled(s, a)
    ensures Inv(Apply(s, a))
  {
    assert ClientInv(s, a.c);
    match a
    case Dispatch(c) => DispatchKeepsInv(s, c);
    case Poll(c, ready) => PollKeepsInv(s, c, ready);
    case Finish(c) => FinishKeepsInv(s, c);
    case RunGrant(c) => RunGrantKeepsInv(s, c);
    case StopRelease(c) => ReleaseKeepsInv(s, c, InstallStopping);
    case RunBody(c, ok) =>
      match s.clients[c].ctl.state {
        case Online => ReleaseKeepsInv(s, c, ClearWork);
        case Backoff => ReleaseKeepsInv(s, c, ArmBackoff);
        case WaitSlot => AskKeepsInv(s, c, ok);
        case _ => LocalBodyKeepsInv(s, c, ok);
      }
    case _ => EnvironmentKeepsInv(s, a);
  }

  lemma {:induction false} RunKeepsInv(run: seq<System>, actions: seq<Action>, i: nat)
    requires Run(run, actions) && Inv(run[0]) && i < |run|
    ensures Inv(run[i])
  {
    if i > 0 {
      RunKeepsInv(run, actions, i - 1);
      StepKeepsInv(run[i - 1], actions[i - 1]);
    }
  }

  lemma ReachableInv(s: System)
    requires Reachable(s)
    ensures Inv(s)
  {
    var run, actions :| Run(run, actions) && Initial(run[0]) && run[|run| - 1] == s;
    InitialInv(run[0]);
    RunKeepsInv(run, actions, |run| - 1);
  }
}
