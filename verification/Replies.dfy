/** The answers of a module: INFO payloads built from its telemetry and limits. */
module Replies {
  import opened Advertising
  import Arith
  import opened Bms
  import opened Bytes
  import opened Capacity
  import opened Framing
  import opened FrameRoundTrip
  import opened Payload
  import opened PylontechMaster
  import opened Wrappers

  const GET_ANALOG: u8 := 0x42
  const GET_ALARM: u8 := 0x44
  const GET_SYSTEM: u8 := 0x47
  const GET_MANAGEMENT: u8 := 0x92

  const USER_DEFINED_US2000B: u8 := 2
  const ALARM_STATUS_2_NORMAL: u8 := 0x0E

  datatype AlarmResponse = AlarmResponse(
    dataflag: u8, command: u8, cellStates: seq<u8>, temperatureStates: seq<u8>, chargeCurrentState: u8,
    moduleVoltageState: u8, dischargeCurrentState: u8, status1: u8, status2: u8, status3: u8,
    cellErrors1: u8, cellErrors9: u8)

  function EncodeAlarm(a: AlarmResponse): seq<u8> {
    [a.dataflag, a.command, |a.cellStates| % 0x100] + a.cellStates
    + [|a.temperatureStates| % 0x100] + a.temperatureStates
    + [a.chargeCurrentState, a.moduleVoltageState, a.dischargeCurrentState, a.status1, a.status2, a.status3,
       a.cellErrors1, a.cellErrors9]
  }

  datatype ManagementResponse = ManagementResponse(
    command: u8, chargeVoltage: u16, dischargeVoltage: u16, chargeCurrent: i16, dischargeCurrent: i16,
    charge: bool, discharge: bool, immediate: bool, immediateLow: bool, full: bool)

  function Flag(on: bool, bit: u8): u8 {
    if on then bit else 0
  }

  function Status(m: ManagementResponse): u8 {
    (Flag(m.charge, 0x80) as int + Flag(m.discharge, 0x40) + Flag(m.immediate, 0x20)
     + Flag(m.immediateLow, 0x10) + Flag(m.full, 0x08)) % 0x100
  }

  function EncodeManagement(m: ManagementResponse): seq<u8> {
    [m.command] + Be16(m.chargeVoltage) + Be16(m.dischargeVoltage)
    + Be16(Wrap16(m.chargeCurrent)) + Be16(Wrap16(m.dischargeCurrent))
    + [Status(m)]
  }

  // ---- From telemetry to fields ------------------------------------------------

  /** The command byte of the request, or its address if it has none. */
  function EchoedCommand(req: Frame): u8 {
    if req.info == [] then req.adr else req.info[0]
  }

  function OkResponse(req: Frame, info: seq<u8>): Frame {
    Frame(req.ver, req.adr, 0x46, 0x00, info)
  }

  function DeciKelvin(dC: i16): u16 {
    Wrap16(dC as int + KELVIN_OFFSET)
  }

  function ClampU16(v: nat): u16 {
    if v > 0xFFFF then 0xFFFF else v
  }

  /** None where the program divides by zero. */
  function AnalogOf(req: Frame, cells: CellInfo, pack: PackInfo): Option<AnalogResponse> {
    match ScaleCapacity(pack.total, pack.remaining)
    case None => None
    case Some(c) =>
      Some(AnalogResponse(
             0, EchoedCommand(req), cells.voltages,
             [DeciKelvin(pack.temp1), DeciKelvin(pack.temp2), DeciKelvin(pack.tubeTemp)],
             CurrentField(pack), ClampU16(if pack.voltage > 0 then pack.voltage else 0),
             c.remain, USER_DEFINED_US2000B, c.total, ClampU16(pack.cycles)))
  }

  function Normal(n: nat): (s: seq<u8>) {
    seq(n, _ => 0)
  }

  /** No alarm; as many states as the analog answer has values. */
  function AlarmOf(req: Frame, cells: CellInfo): AlarmResponse {
    AlarmResponse(0, EchoedCommand(req), Normal(|cells.voltages|), Normal(3), 0, 0, 0, 0, ALARM_STATUS_2_NORMAL, 0, 0, 0)
  }

  function ModuleVoltage(cell: u16, count: u8): u16 {
    ClampU16(cell as int * count)
  }

  function SystemOf(limits: Settings): SystemParameters {
    SystemParameters(
      0, limits.cellOvp, limits.cellUvpr, limits.cellUvp, DeciKelvin(limits.chargeOtp), DeciKelvin(limits.chargeUtp),
      ChargeField(limits), ModuleVoltage(limits.cellOvp, limits.cellCount),
      ModuleVoltage(limits.cellUvpr, limits.cellCount), ModuleVoltage(limits.cellUvp, limits.cellCount),
      DeciKelvin(limits.dischargeOtp), DeciKelvin(limits.chargeUtp), DischargeField(limits))
  }

  function ManagementOf(req: Frame, pack: PackInfo, limits: Settings): ManagementResponse {
    ManagementResponse(
      EchoedCommand(req), ModuleVoltage(limits.cellOvp, limits.cellCount), ModuleVoltage(limits.cellUvpr, limits.cellCount),
      ChargeField(limits), DischargeField(limits), pack.charging, pack.discharging, false, false, false)
  }

  /** No answer, the end of the program, or a frame. */
  datatype Answer = Silence | Fault | Reply(frame: Frame)

  function AnswerTo(req: Frame, s: Snapshot): Answer {
    if req.cid2 == GET_ANALOG then
      match AnalogOf(req, s.cells, s.pack)
      case None => Fault
      case Some(a) => Reply(OkResponse(req, EncodeAnalog(a)))
    else if req.cid2 == GET_ALARM then Reply(OkResponse(req, EncodeAlarm(AlarmOf(req, s.cells))))
    else if req.cid2 == GET_SYSTEM then Reply(OkResponse(req, EncodeSystem(SystemOf(s.limits))))
    else if req.cid2 == GET_MANAGEMENT then Reply(OkResponse(req, EncodeManagement(ManagementOf(req, s.pack, s.limits))))
    else Silence
  }

  // ---- Building them -----------------------------------------------------------

  method PutBytes(info: seq<u8>, bytes: seq<u8>) returns (r: seq<u8>)
    ensures r == info + bytes
  {
    r := info;
    for k := 0 to |bytes|
      invariant r == info + bytes[..k]
    {
      r := r + [bytes[k]];
    }
    assert bytes[..|bytes|] == bytes;
  }

  method SerializeAlarm(a: AlarmResponse) returns (info: seq<u8>)
    ensures info == EncodeAlarm(a)
  {
    info := [a.dataflag, a.command, |a.cellStates| % 0x100];
    info := PutBytes(info, a.cellStates);
    info := info + [|a.temperatureStates| % 0x100];
    info := PutBytes(info, a.temperatureStates);
    info := info + [a.chargeCurrentState, a.moduleVoltageState, a.dischargeCurrentState, a.status1, a.status2, a.status3,
                    a.cellErrors1, a.cellErrors9];
  }

  method SerializeSystem(r: SystemParameters) returns (info: seq<u8>)
    ensures info == EncodeSystem(r)
  {
    info := [r.infoflag];
    info := PutWords(info, [r.cellHigh, r.cellLow, r.cellUnder, r.chargeHighTemp, r.chargeLowTemp, Wrap16(r.chargeCurrent),
                            r.moduleHigh, r.moduleLow, r.moduleUnder, r.dischargeHighTemp, r.dischargeLowTemp,
                            Wrap16(r.dischargeCurrent)]);
  }

  method SerializeManagement(m: ManagementResponse) returns (info: seq<u8>)
    ensures info == EncodeManagement(m)
  {
    info := [m.command] + Be16(m.chargeVoltage);
    info := info + Be16(m.dischargeVoltage);
    info := info + Be16(Wrap16(m.chargeCurrent));
    info := info + Be16(Wrap16(m.dischargeCurrent));
    var status := 0;
    if m.charge { status := status + 0x80; }
    if m.discharge { status := status + 0x40; }
    if m.immediate { status := status + 0x20; }
    if m.immediateLow { status := status + 0x10; }
    if m.full { status := status + 0x08; }
    info := info + [status % 0x100];
  }

  /** The answer to a request, as bytes; None for no answer. */
  method Respond(req: Frame, s: Snapshot) returns (out: Option<seq<u8>>, fault: bool)
    ensures fault <==> AnswerTo(req, s) == Fault
    ensures AnswerTo(req, s).Reply? <==> out.Some?
    ensures AnswerTo(req, s).Reply? ==> out == Some(Build(AnswerTo(req, s).frame))
  {
    hide Build, EncodeAnalog, EncodeAlarm, EncodeSystem, EncodeManagement;
    var info;
    if req.cid2 == GET_ANALOG {
      var a := AnalogOf(req, s.cells, s.pack);
      if a == None {
        return None, true;
      }
      info := SerializeAnalog(a.value);
    } else if req.cid2 == GET_ALARM {
      info := SerializeAlarm(AlarmOf(req, s.cells));
    } else if req.cid2 == GET_SYSTEM {
      info := SerializeSystem(SystemOf(s.limits));
    } else if req.cid2 == GET_MANAGEMENT {
      info := SerializeManagement(ManagementOf(req, s.pack, s.limits));
    } else {
      return None, false;
    }
    var bytes := BuildPylontech(OkResponse(req, info));
    return Some(bytes), false;
  }

  // ---- What the inverter receives ----------------------------------------------

  lemma InfoLengths(req: Frame, s: Snapshot)
    ensures var a := AnswerTo(req, s);
      a.Reply? ==>
        |a.frame.info| == (if req.cid2 == GET_ANALOG then 21 + 2 * |s.cells.voltages|
                           else if req.cid2 == GET_ALARM then 15 + |s.cells.voltages|
                           else if req.cid2 == GET_SYSTEM then 25
                           else 10)
  {
  }

  /**
   With at most 255 cells every answer is a well-formed frame: followed by anything it parses to
   itself, carries the address of the request, and its LENGTH holds the number of INFO digits and
   nibbles that sum to 0 modulo 16.
   */
  lemma AnswersAreWellFormed(req: Frame, s: Snapshot, tail: seq<u8>)
    requires |s.cells.voltages| <= 255 && AnswerTo(req, s).Reply?
    ensures var f := AnswerTo(req, s).frame; var length := LengthOf(f);
      && Parse(Build(f) + tail) == Got(|Build(f)|, f)
      && CanonicalLength(Build(f)[1..|Build(f)| - 1], f)
      && f.adr == req.adr && f.ver == req.ver && f.cid1 == 0x46 && f.cid2 == 0
      && length % 0x1000 == 2 * |f.info| && NibbleSum(length) % 0x10 == 0
  {
    var f := AnswerTo(req, s).frame;
    InfoLengths(req, s);
    assert f.adr == req.adr && f.ver == req.ver && f.cid1 == 0x46 && f.cid2 == 0;
    hide AnswerTo, Build, LengthOf, NibbleSum, Parse, Checked, FieldsWith, Encode;
    ParseUndoesBuild(f, tail);
    BuiltLengthIsInfoLength(f);
    BuildShape(f);
    BuiltBody(f, Be16(LengthOf(f)));
    assert Build(f)[1..|Build(f)| - 1] == BodyOf(f);
  }

  /** The program ends exactly on an analog request for a module with a total among the last 64999 values. */
  lemma FaultsExactly(req: Frame, s: Snapshot)
    ensures AnswerTo(req, s) == Fault <==> req.cid2 == GET_ANALOG && s.pack.total >= WRAPS_FROM
  {
    ScalingFails(s.pack.total, s.pack.remaining);
  }

  /** Temperatures survive the trip to tenths of a Kelvin and back, for all values. */
  lemma TemperatureReadsBack(dC: i16)
    ensures DeciCelsius(DeciKelvin(dC)) == dC
  {
  }

  /** A current in units of 100 mA: of the right direction, no larger, and off by less than 100 mA unless the field clamps. */
  predicate InTenths(tenths: int, current: int) {
    && (current >= 0 ==> 0 <= 100 * tenths <= current && (current - 100 * tenths < 100 <==> current < 3276800))
    && (current <= 0 ==> current <= 100 * tenths <= 0 && (100 * tenths - current < 100 <==> current > -3276900))
  }

  lemma CurrentFieldInTenths(pack: PackInfo)
    ensures InTenths(CurrentField(pack), pack.current)
  {
  }

  /**
   An analog answer echoes the command, and decodes to the module's cells and temperatures
   exactly, its voltage and cycles within 16 bits, its current cut to 100 mA, and its scaled
   capacities with the percentage they stand for.
   */
  lemma AnalogAnswerReadsBack(req: Frame, s: Snapshot)
    requires |s.cells.voltages| <= 255 && req.cid2 == GET_ANALOG && s.pack.total < WRAPS_FROM
    ensures AnswerTo(req, s).Reply? && DecodeAnalog(AnswerTo(req, s).frame.info).Some?
    ensures var t := TelemetryOf(DecodeAnalog(AnswerTo(req, s).frame.info).value);
      var c := ScaleCapacity(s.pack.total, s.pack.remaining).value;
      && t.cells == CellStats(s.cells.voltages)
      && t.pack.temp1 == s.pack.temp1 && t.pack.temp2 == s.pack.temp2 && t.pack.tubeTemp == s.pack.tubeTemp
      && t.pack.current == CurrentField(s.pack) as int * 100 && InTenths(CurrentField(s.pack), s.pack.current)
      && t.pack.voltage == (if s.pack.voltage < 0 then 0 else if s.pack.voltage > 0xFFFF then 0xFFFF else s.pack.voltage)
      && t.pack.total == c.total && t.pack.remaining == c.remain && IsPercentage(t.pack.soc, c.remain, c.total)
      && t.pack.cycles == (if s.pack.cycles > 0xFFFF then 0xFFFF else s.pack.cycles)
    ensures var a := DecodeAnalog(AnswerTo(req, s).frame.info).value;
      && a.infoflag == 0 && a.userDefined == 2 && |a.temps| == 3
      && a.command == if |req.info| > 0 then req.info[0] else req.adr
  {
    hide EncodeAnalog, DecodeAnalog, ScaleCapacity, CellStats, DeciCelsius, DeciKelvin, CurrentField, StateOfCharge, IsPercentage, InTenths;
    CurrentFieldInTenths(s.pack);
    ScalingFails(s.pack.total, s.pack.remaining);
    var a := AnalogOf(req, s.cells, s.pack).value;
    AnalogReadsBack(a, []);
    assert EncodeAnalog(a) + [] == EncodeAnalog(a);
    StateOfChargeIsPercentage(a.remain, a.total);
    TemperatureReadsBack(s.pack.temp1);
    TemperatureReadsBack(s.pack.temp2);
    TemperatureReadsBack(s.pack.tubeTemp);
  }

  /** The limit of a module of `count` cells: `count` times the cell's, or the most a field can hold. */
  predicate IsModuleLimit(limit: int, cell: int, count: int) {
    limit == if cell * count <= 65535 then cell * count else 65535
  }

  lemma ModuleVoltageIsLimit(cell: u16, count: u8)
    ensures IsModuleLimit(ModuleVoltage(cell, count), cell, count)
  {
  }

  lemma ModuleVoltages(l: Settings)
    ensures IsModuleLimit(ModuleVoltage(l.cellOvp, l.cellCount), l.cellOvp, l.cellCount)
    ensures IsModuleLimit(ModuleVoltage(l.cellUvpr, l.cellCount), l.cellUvpr, l.cellCount)
    ensures IsModuleLimit(ModuleVoltage(l.cellUvp, l.cellCount), l.cellUvp, l.cellCount)
  {
    hide IsModuleLimit, ModuleVoltage;
    ModuleVoltageIsLimit(l.cellOvp, l.cellCount);
    ModuleVoltageIsLimit(l.cellUvpr, l.cellCount);
    ModuleVoltageIsLimit(l.cellUvp, l.cellCount);
  }

  /**
   A system parameter answer decodes to the module's limits: voltages and temperatures exactly,
   currents never larger, and the module's voltage limits as those of its cells together.
   */
  lemma SystemAnswerReadsBack(req: Frame, s: Snapshot, cellCount: u8)
    requires req.cid2 == GET_SYSTEM
    ensures AnswerTo(req, s).Reply? && DecodeSystem(AnswerTo(req, s).frame.info) == Some(SystemOf(s.limits))
    ensures var l := SettingsOf(SystemOf(s.limits), cellCount);
      && l.cellOvp == s.limits.cellOvp && l.cellUvpr == s.limits.cellUvpr && l.cellUvp == s.limits.cellUvp
      && l.chargeOtp == s.limits.chargeOtp && l.chargeUtp == s.limits.chargeUtp && l.dischargeOtp == s.limits.dischargeOtp
      && l.maxCharge <= s.limits.maxCharge && l.maxDischarge <= s.limits.maxDischarge
      && (s.limits.maxCharge - l.maxCharge < 100 <==> s.limits.maxCharge < 3276800)
      && (s.limits.maxDischarge - l.maxDischarge < 100 <==> s.limits.maxDischarge < 3276900)
    ensures var r := SystemOf(s.limits);
      && r.infoflag == 0 && DeciCelsius(r.dischargeLowTemp) == s.limits.chargeUtp
      && IsModuleLimit(r.moduleHigh, s.limits.cellOvp, s.limits.cellCount)
      && IsModuleLimit(r.moduleLow, s.limits.cellUvpr, s.limits.cellCount)
      && IsModuleLimit(r.moduleUnder, s.limits.cellUvp, s.limits.cellCount)
  {
    var r := SystemOf(s.limits);
    ModuleVoltages(s.limits);
    hide IsModuleLimit, ModuleVoltage, EncodeSystem, DecodeSystem, DeciCelsius, DeciKelvin;
    SystemRoundTrip(r, []);
    assert EncodeSystem(r) + [] == EncodeSystem(r);
    TemperatureReadsBack(s.limits.chargeOtp);
    TemperatureReadsBack(s.limits.chargeUtp);
    TemperatureReadsBack(s.limits.dischargeOtp);
  }

  /**
   A charge management answer as bytes: the command echoed, the module's voltage limits as those
   of its cells together, current limits in units of 100 mA, and a status of 128 (bit 7) if the
   battery may charge plus 64 (bit 6) if it may discharge.
   */
  lemma ManagementAnswerReadsBack(req: Frame, s: Snapshot)
    requires req.cid2 == GET_MANAGEMENT
    ensures AnswerTo(req, s).Reply? && |AnswerTo(req, s).frame.info| == 10
    ensures var info := AnswerTo(req, s).frame.info;
      && info[0] == (if |req.info| > 0 then req.info[0] else req.adr)
      && IsModuleLimit(WordAt(info, 1), s.limits.cellOvp, s.limits.cellCount)
      && IsModuleLimit(WordAt(info, 3), s.limits.cellUvpr, s.limits.cellCount)
      && Signed16(WordAt(info, 5)) == ChargeField(s.limits) && Signed16(WordAt(info, 7)) == DischargeField(s.limits)
      && info[9] as int == (if s.pack.charging then 128 else 0) + if s.pack.discharging then 64 else 0
  {
    hide ModuleVoltage, IsModuleLimit, ChargeField, DischargeField, Signed16, Wrap16;
    var m := ManagementOf(req, s.pack, s.limits);
    ModuleVoltages(s.limits);
    SignedReadsBack(m.chargeCurrent);
    SignedReadsBack(m.dischargeCurrent);
    assert EncodeManagement(m)[9] == Status(m);
  }

  /** An alarm answer echoes the command and reports every cell, temperature and the module as normal. */
  lemma AlarmAnswerIsNormal(req: Frame, s: Snapshot)
    requires req.cid2 == GET_ALARM && |s.cells.voltages| <= 255
    ensures var a := AnswerTo(req, s); var n := |s.cells.voltages|;
      && a.Reply? && |a.frame.info| == n + 15
      && a.frame.info[1] == (if |req.info| > 0 then req.info[0] else req.adr)
      && a.frame.info[2] == n && a.frame.info[3 + n] == 3 && a.frame.info[n + 11] == 0x0E
      && forall i :: 0 <= i < n + 15 && i != 1 && i != 2 && i != 3 + n && i != n + 11 ==> a.frame.info[i] == 0
  {
    var a, n := AlarmOf(req, s.cells), |s.cells.voltages|;
    var head, states, temps := [0, EchoedCommand(req), n], Normal(n), Normal(3);
    var tail := [0, 0, 0, 0, 0x0E, 0, 0, 0];
    assert EncodeAlarm(a) == head + states + [3] + temps + tail;
  }

  /** The counts in an alarm answer are those in the analog answer of the same module. */
  lemma AlarmCountsMatchAnalog(req: Frame, other: Frame, s: Snapshot)
    requires req.cid2 == GET_ALARM && other.cid2 == GET_ANALOG
    requires |s.cells.voltages| <= 255 && s.pack.total < WRAPS_FROM
    ensures AnswerTo(req, s).Reply? && AnswerTo(other, s).Reply?
    ensures var alarm, analog, n := AnswerTo(req, s).frame.info, AnswerTo(other, s).frame.info, |s.cells.voltages|;
      && |alarm| > 3 + n && |analog| > 3 + 2 * n
      && alarm[2] == analog[2] == n && alarm[3 + n] == analog[3 + 2 * n] == 3
  {
    ScalingFails(s.pack.total, s.pack.remaining);
    hide ScaleCapacity, Words, FixedPart;
  }

  /** System parameters and charge management of a module agree, and keep the order of the cell limits. */
  lemma LimitsAgree(req: Frame, s: Snapshot)
    ensures var sys, mgmt := SystemOf(s.limits), ManagementOf(req, s.pack, s.limits);
      && mgmt.chargeVoltage == sys.moduleHigh && mgmt.dischargeVoltage == sys.moduleLow
      && mgmt.chargeCurrent == sys.chargeCurrent >= 0 && mgmt.dischargeCurrent == sys.dischargeCurrent <= 0
      && (s.limits.cellUvp <= s.limits.cellUvpr <= s.limits.cellOvp ==>
            sys.cellUnder <= sys.cellLow <= sys.cellHigh && sys.moduleUnder <= sys.moduleLow <= sys.moduleHigh)
  {
    var n: int := s.limits.cellCount;
    if s.limits.cellUvp <= s.limits.cellUvpr <= s.limits.cellOvp {
      Arith.MulMonotone(n, s.limits.cellUvp, s.limits.cellUvpr);
      Arith.MulMonotone(n, s.limits.cellUvpr, s.limits.cellOvp);
    }
  }

  /** Charge management payloads are unambiguous: different directives are different on the wire. */
  lemma ManagementIsUnambiguous(m: ManagementResponse, n: ManagementResponse)
    requires EncodeManagement(m) == EncodeManagement(n)
    ensures m == n
  {
    hide Status, Wrap16, Signed16;
    var a, b := EncodeManagement(m), EncodeManagement(n);
    assert forall i :: 0 <= i < 10 ==> a[i] == b[i];
    WordsDiffer(m.chargeVoltage, n.chargeVoltage, a, b, 1);
    WordsDiffer(m.dischargeVoltage, n.dischargeVoltage, a, b, 3);
    WordsDiffer(Wrap16(m.chargeCurrent), Wrap16(n.chargeCurrent), a, b, 5);
    WordsDiffer(Wrap16(m.dischargeCurrent), Wrap16(n.dischargeCurrent), a, b, 7);
    SignedReadsBack(m.chargeCurrent);
    SignedReadsBack(n.chargeCurrent);
    SignedReadsBack(m.dischargeCurrent);
    SignedReadsBack(n.dischargeCurrent);
    assert a[0] == m.command && b[0] == n.command && a[9] == Status(m) && b[9] == Status(n);
    assert m.chargeCurrent == n.chargeCurrent && m.dischargeCurrent == n.dischargeCurrent;
    FlagsDiffer(m, n);
  }

  lemma FlagsDiffer(m: ManagementResponse, n: ManagementResponse)
    requires Status(m) == Status(n)
    ensures m.charge == n.charge && m.discharge == n.discharge && m.immediate == n.immediate
    ensures m.immediateLow == n.immediateLow && m.full == n.full
  {
  }

  lemma WordsDiffer(x: u16, y: u16, a: seq<u8>, b: seq<u8>, i: nat)
    requires i + 1 < |a| == |b| && [a[i], a[i + 1]] == Be16(x) && [b[i], b[i + 1]] == Be16(y)
    requires a[i] == b[i] && a[i + 1] == b[i + 1]
    ensures x == y
  {
    assert x == a[i] as int * 0x100 + a[i + 1] && y == b[i] as int * 0x100 + b[i + 1];
  }
}
