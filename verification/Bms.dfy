/** Telemetry and settings of a battery, in JK units: mV, mA, mAh, micro-ohms, 0.1 degrees Celsius. */
module Bms {
  import opened Bytes
  import opened Wrappers

  datatype CellInfo = CellInfo(
    voltages: seq<u16>, resistances: seq<u16>, average: u16, spread: u16, maxIdx: u8, minIdx: u8)

  datatype PackInfo = PackInfo(
    voltage: i32, current: i32, soc: u8, remaining: u32, total: u32, cycles: u32,
    temp1: i16, temp2: i16, tubeTemp: i16, charging: bool, discharging: bool,
    balancing: bool, balanceCurrent: i16, errors: u16)

  datatype Settings = Settings(
    cellUvp: u16, cellUvpr: u16, cellOvp: u16, chargeOtp: i16, chargeUtp: i16, dischargeOtp: i16,
    maxCharge: u32, maxDischarge: u32, cellCount: u8)

  datatype Telemetry = Telemetry(cells: CellInfo, pack: PackInfo)

  /** What a battery protocol has decoded from the bytes fed to it. */
  datatype Parsed = Parsed(telemetry: Option<Telemetry>, settings: Option<Settings>)

  const NOTHING := Parsed(None, None)

  /** A later result replaces an earlier one of its kind. */
  function Merge(p: Parsed, q: Parsed): Parsed {
    Parsed(if q.telemetry.Some? then q.telemetry else p.telemetry, if q.settings.Some? then q.settings else p.settings)
  }
}
