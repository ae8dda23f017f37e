/** What a client has at hand in each state: its dongle, its peripheral, and a timer that wakes it. */
module BleEquipment {
  import opened BleProperties
  import opened BleProtocol
  import opened ScanCoordinator
  import opened Wrappers

  /** In the stop handler, or done with it. */
  predicate Leaving(t: Control) {
    t.pc == StopCalls || Quit(t.state, t.pc)
  }

  /** What a thread does after its call into the coordinator belongs to the state it is in. */
  predicate RestFits(t: Control) {
    t.pc.Signal? || t.pc.Tail? ==>
      match t.pc.rest
      case BackToLoop => t.state == WaitSlot
      case ClearWork => t.state == Online
      case ArmBackoff => t.state == Backoff
      case InstallStopping => true
  }

  /**
   A client probes for a dongle exactly while it has none, and never asks for the slot without
   one; it has a peripheral exactly from a match to the end of the connection; and where only a
   timer can move it on, a timer is running or has expired.
   */
  predicate Equipped(k: Client) {
    var t := k.ctl;
    && RestFits(t)
    && (t.state == WaitAdapter ==> !k.adapter)
    && (t.state == WaitSlot || t.state == Scan || t.state == Connect || t.state == Online ==> k.adapter)
    && (k.peripheral <==> (t.state == Connect || t.state == Online) && !Leaving(t))
    && ((t.state == WaitAdapter || t.state == Scan || t.state == Backoff) && t.pc == AtLoop ==> t.timer != Disarmed)
    && (t.state == Connect || t.state == Online ==> t.timer == Disarmed)
  }

  ghost predicate AllEquipped(s: System) {
    forall c :: c in s.clients ==> Equipped(s.clients[c])
  }

  /** A handled event is consumed: its descriptor is quiet afterwards, and no other becomes readable by it. */
  lemma HandledIsConsumed(k: Client, fd: Fd)
    requires k.batch != []
    ensures !IsReady(Handle(k), k.batch[0])
    ensures IsReady(Handle(k), fd) ==> IsReady(k, fd)
    ensures fd != k.batch[0] && fd != TimerFd && IsReady(k, fd) ==> IsReady(Handle(k), fd)
  {
  }

  lemma HandlerKeepsEquipped(k: Client)
    requires Equipped(k) && k.ctl.pc == AtLoop && k.ctl.state != Stopping && k.batch != []
    ensures Equipped(Handle(k))
  {
  }

  lemma BodyKeepsEquipped(k: Client, ok: bool)
    requires Equipped(k) && k.ctl.pc == Body && k.ctl.state != WaitSlot && k.ctl.state != Online && k.ctl.state != Backoff
    ensures Equipped(LocalBody(k, ok))
  {
  }

  lemma FinishKeepsEquipped(k: Client)
    requires Equipped(k) && k.ctl.pc.Tail?
    ensures Equipped(FinishStep(k))
  {
  }

  /** A step of the client's own thread into or out of the coordinator. */
  lemma CallKeepsEquipped(k: Client, pc: Pc)
    requires Equipped(k)
    requires || (k.ctl.pc == Body && k.ctl.state == WaitSlot && (pc == AtLoop || (pc.Signal? && pc.rest == BackToLoop)))
             || (k.ctl.pc == Body && k.ctl.state == Online && (pc.Signal? || pc.Tail?) && pc.rest == ClearWork)
             || (k.ctl.pc == Body && k.ctl.state == Backoff && (pc.Signal? || pc.Tail?) && pc.rest == ArmBackoff)
             || (k.ctl.pc == StopCalls && (pc.Signal? || pc.Tail?) && pc.rest == InstallStopping)
             || (k.ctl.pc.Signal? && pc == if k.ctl.pc.rest == BackToLoop then AtLoop else Tail(k.ctl.pc.rest))
    ensures Equipped(WithPc(k, pc))
  {
  }

  lemma GrantKeepsEquipped(s: System, c: ClientId)
    requires AllEquipped(s) && Enabled(s, RunGrant(c))
    ensures AllEquipped(Apply(s, RunGrant(c)))
  {
    hide Reports, BodyStep, ReleaseStep, Handle, Leaving, RestFits;
    var k := s.clients[c];
    var t := k.ctl.pc.target;
    var signalled := s.clients[t].(ctl := s.clients[t].ctl.(slotEvent := s.clients[t].ctl.slotEvent + 1));
    SignalKeepsEquipped(s.clients[t]);
    CallKeepsEquipped(if t == c then signalled else k, if k.ctl.pc.rest == BackToLoop then AtLoop else Tail(k.ctl.pc.rest));
  }

  lemma SignalKeepsEquipped(k: Client)
    ensures Equipped(k.(ctl := k.ctl.(slotEvent := k.ctl.slotEvent + 1))) == Equipped(k)
  {
  }

  lemma ReleaseKeepsEquipped(s: System, c: ClientId, rest: Rest)
    requires AllEquipped(s) && c in s.clients && Releasing(s.clients[c].ctl, rest)
    ensures AllEquipped(ReleaseStep(s, c, rest))
  {
    hide GiveUp, Equipped;
    CallKeepsEquipped(s.clients[c], After(GiveUp(s.slot, c).1, rest));
  }

  /** No step of any client takes its equipment away. */
  lemma StepKeepsEquipped(s: System, a: Action)
    requires Inv(s) && AllEquipped(s) && Enabled(s, a)
    ensures AllEquipped(Apply(s, a))
  {
    hide Reports, Equipped, Handle, LocalBody, FinishStep, ReleaseStep, Ask, BatchInv, Fits, GrantInv;
    var k := s.clients[a.c];
    match a
    case Dispatch(c) => HandlerKeepsEquipped(k);
    case Finish(c) => FinishKeepsEquipped(k);
    case RunGrant(c) => GrantKeepsEquipped(s, c);
    case StopRelease(c) =>
      StopsOnce(s, c);
      ReleaseKeepsEquipped(s, c, InstallStopping);
    case RunBody(c, ok) =>
      match k.ctl.state {
        case Online => ReleaseKeepsEquipped(s, c, ClearWork);
        case Backoff => ReleaseKeepsEquipped(s, c, ArmBackoff);
        case WaitSlot => CallKeepsEquipped(k, After(if Ask(s.slot, c).1 then Some(c) else None, BackToLoop));
        case _ => BodyKeepsEquipped(k, ok);
      }
    case _ => EventKeepsEquipped(s, a);
  }

  lemma StopsOnce(s: System, c: ClientId)
    requires Inv(s) && Enabled(s, StopRelease(c))
    ensures s.clients[c].ctl.state != Stopping
  {
    assert ClientInv(s, c);
  }

  /** Waiting for events, and events from outside. */
  lemma EventKeepsEquipped(s: System, a: Action)
    requires AllEquipped(s) && Enabled(s, a)
    requires a.Poll? || a.TimerFires? || a.MatchFound? || a.WorkSignalled? || a.StopRequested?
    ensures AllEquipped(Apply(s, a))
  {
    hide Reports;
  }

  lemma {:induction false} RunKeepsEquipped(run: seq<System>, actions: seq<Action>, i: nat)
    requires Run(run, actions) && Initial(run[0]) && i < |run|
    ensures Inv(run[i]) && AllEquipped(run[i])
  {
    hide Inv, Apply, Enabled, Equipped;
    InitialInv(run[0]);
    RunKeepsInv(run, actions, i);
    if i > 0 {
      RunKeepsEquipped(run, actions, i - 1);
      StepKeepsEquipped(run[i - 1], actions[i - 1]);
    } else {
      FreshIsEquipped();
    }
  }

  lemma FreshIsEquipped()
    ensures Equipped(FreshClient)
  {
  }

  lemma ReachableEquipped(s: System, c: ClientId)
    requires Reachable(s) && c in s.clients
    ensures Equipped(s.clients[c])
  {
    hide Inv, Equipped, Apply, Enabled;
    var run, actions :| Run(run, actions) && Initial(run[0]) && run[|run| - 1] == s;
    RunKeepsEquipped(run, actions, |run| - 1);
  }

  // ---- A failed scan ---------------------------------------------------------------

  /** Only a successful probe finds a dongle. */
  predicate Probes(s: System, a: Action, c: ClientId) {
    a.RunBody? && a.c == c && a.ok && c in s.clients && s.clients[c].ctl.state == WaitAdapter
  }

  lemma StepFindsNone(s: System, a: Action, c: ClientId)
    requires Enabled(s, a) && c in s.clients && !s.clients[c].adapter && !Probes(s, a, c)
    ensures c in Apply(s, a).clients && !Apply(s, a).clients[c].adapter
  {
    hide Reports, HandleControl, Ask, GiveUp;
  }

  lemma FailedScanDropsAdapter(s: System, c: ClientId)
    requires Enabled(s, RunBody(c, false)) && s.clients[c].ctl.state == Scan
    ensures c in Apply(s, RunBody(c, false)).clients && !Apply(s, RunBody(c, false)).clients[c].adapter
  {
    hide Reports;
  }

  lemma {:induction false} StaysWithout(run: seq<System>, actions: seq<Action>, c: ClientId, i: nat)
    requires Run(run, actions) && i < |run| && c in run[0].clients && !run[0].clients[c].adapter
    requires forall j :: 0 <= j < |actions| ==> !Probes(run[j], actions[j], c)
    ensures c in run[i].clients && !run[i].clients[c].adapter
  {
    hide Enabled, Apply, Probes;
    if i > 0 {
      StaysWithout(run, actions, c, i - 1);
      StepFindsNone(run[i - 1], actions[i - 1], c);
    }
  }

  /** After a failed scan a client neither asks for the slot nor holds on to it, until a probe has found a dongle again. */
  lemma FailedScanNeedsProbe(run: seq<System>, actions: seq<Action>, c: ClientId, i: nat)
    requires Run(run, actions) && Reachable(run[0]) && 0 < i < |run|
    requires actions[0] == RunBody(c, false) && run[0].clients[c].ctl.state == Scan
    requires forall j :: 0 <= j < |actions| ==> !Probes(run[j], actions[j], c)
    ensures c in run[i].clients
    ensures var st := run[i].clients[c].ctl.state; st == WaitAdapter || st == Backoff || st == Stopping
  {
    hide Reports, Equipped, Probes, Inv;
    FailedScanDropsAdapter(run[0], c);
    var later, rest := run[1..], actions[1..];
    assert Run(later, rest);
    StaysWithout(later, rest, c, i - 1);
    LaterReachable(run, actions, i);
    ReachableEquipped(run[i], c);
    WithoutAdapter(run[i].clients[c]);
  }

  lemma WithoutAdapter(k: Client)
    requires Equipped(k) && !k.adapter
    ensures k.ctl.state == WaitAdapter || k.ctl.state == Backoff || k.ctl.state == Stopping
  {
  }

  lemma {:induction false} LaterReachable(run: seq<System>, actions: seq<Action>, i: nat)
    requires Run(run, actions) && Reachable(run[0]) && i < |run|
    ensures Reachable(run[i])
  {
    hide Reachable, Enabled, Apply;
    if i > 0 {
      LaterReachable(run, actions, i - 1);
      ReachableStep(run[i - 1], actions[i - 1]);
    }
  }

  // ---- A match ---------------------------------------------------------------------

  /** No match of the current scan has been reported. */
  predicate NoMatch(k: Client) {
    && (k.ctl.state == Scan && k.ctl.pc != Body ==> !k.found)
    && k.ctl.state != Connect && k.ctl.state != Online
  }

  lemma StepWithoutMatch(s: System, a: Action, c: ClientId)
    requires Enabled(s, a) && c in s.clients && NoMatch(s.clients[c]) && RestFits(s.clients[c].ctl) && a != MatchFound(c)
    ensures c in Apply(s, a).clients && NoMatch(Apply(s, a).clients[c])
  {
    hide Reports, Ask, GiveUp;
  }

  /** A client connects only to a peripheral found during the scan: a match left over from an earlier one is never used. */
  lemma {:induction false} ConnectNeedsMatch(run: seq<System>, actions: seq<Action>, c: ClientId, i: nat)
    requires Run(run, actions) && Reachable(run[0]) && i < |run| && c in run[0].clients && NoMatch(run[0].clients[c])
    requires MatchFound(c) !in actions
    ensures c in run[i].clients && NoMatch(run[i].clients[c])
  {
    hide Enabled, Apply, NoMatch, Reachable, RestFits, Leaving;
    if i > 0 {
      ConnectNeedsMatch(run, actions, c, i - 1);
      LaterReachable(run, actions, i - 1);
      ReachableEquipped(run[i - 1], c);
      assert actions[i - 1] in actions;
      StepWithoutMatch(run[i - 1], actions[i - 1], c);
    }
  }
}
