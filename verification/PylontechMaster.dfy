/** The bridge as master: it polls a Pylontech battery and decodes the answers it receives. */
module PylontechMaster {
  import opened Arith
  import opened Bms
  import opened Bytes
  import opened Framing
  import opened FrameRoundTrip
  import opened FrameStream
  import opened Payload
  import opened Wrappers

  // ---- Cell statistics ---------------------------------------------------------

  function Total(v: seq<u16>): nat {
    if v == [] then 0 else Total(v[..|v| - 1]) + v[|v| - 1]
  }

  /** Where a scan that prefers strictly larger voltages ends. */
  function ArgMax(v: seq<u16>): (k: nat)
    requires v != []
    ensures k < |v|
  {
    if |v| == 1 then 0
    else
      var k := ArgMax(v[..|v| - 1]);
      if v[|v| - 1] > v[k] then |v| - 1 else k
  }

  /** Where a scan that prefers strictly smaller voltages ends. */
  function ArgMin(v: seq<u16>): (k: nat)
    requires v != []
    ensures k < |v|
  {
    if |v| == 1 then 0
    else
      var k := ArgMin(v[..|v| - 1]);
      if v[|v| - 1] < v[k] then |v| - 1 else k
  }

  /** The scans end at the first of the largest and the first of the smallest voltages. */
  lemma {:induction false} ExtremesAreFirst(v: seq<u16>)
    requires v != []
    ensures var k := ArgMax(v); (forall i :: 0 <= i < |v| ==> v[i] <= v[k]) && forall i :: 0 <= i < k ==> v[i] < v[k]
    ensures var k := ArgMin(v); (forall i :: 0 <= i < |v| ==> v[i] >= v[k]) && forall i :: 0 <= i < k ==> v[i] > v[k]
    decreases |v|
  {
    if |v| > 1 {
      var w := v[..|v| - 1];
      ExtremesAreFirst(w);
      assert forall i :: 0 <= i < |w| ==> w[i] == v[i];
    }
  }

  /** The statistics from the sum and the places of the largest and the smallest voltage. */
  function Summary(v: seq<u16>, sum: u32, hiIdx: nat, loIdx: nat): CellInfo
    requires hiIdx < |v| && loIdx < |v|
  {
    CellInfo(v, [], Wrap16(sum / |v|), Wrap16((v[hiIdx] as int) - v[loIdx]), hiIdx % 0x100, loIdx % 0x100)
  }

  function CellStats(v: seq<u16>): CellInfo {
    if v == [] then CellInfo([], [], 0, 0, 0, 0) else Summary(v, Wrap32(Total(v)), ArgMax(v), ArgMin(v))
  }

  lemma {:induction false} TotalBounds(v: seq<u16>, lo: nat, hi: nat)
    requires forall i :: 0 <= i < |v| ==> lo <= v[i] <= hi
    ensures lo * |v| <= Total(v) <= hi * |v|
    decreases |v|
  {
    if v != [] {
      TotalBounds(v[..|v| - 1], lo, hi);
      assert lo * |v| == lo * (|v| - 1) + lo && hi * |v| == hi * (|v| - 1) + hi;
    }
  }

  /** The total of one voltage is the voltage, and totals add up. */
  lemma {:induction false} TotalAdds(v: seq<u16>, w: seq<u16>)
    ensures Total(v + w) == Total(v) + Total(w)
    ensures forall x: u16 :: Total([x]) == x
    decreases |w|
  {
    if w == [] {
      assert v + w == v;
    } else {
      TotalAdds(v, w[..|w| - 1]);
      assert (v + w)[..|v + w| - 1] == v + w[..|w| - 1];
    }
    forall x: u16 ensures Total([x]) == x {
      assert [x][..0] == [];
    }
  }

  /** For as many cells as a payload can carry nothing wraps: the average is between the extremes, the spread is their distance. */
  lemma CellStatsAreExact(v: seq<u16>)
    requires 0 < |v| <= 255
    ensures var c := CellStats(v);
      && c.voltages == v && c.resistances == [] && c.maxIdx < |v| && c.minIdx < |v|
      && (forall i :: 0 <= i < |v| ==> v[c.minIdx] <= v[i] <= v[c.maxIdx])
      && c.average == Total(v) / |v| && v[c.minIdx] <= c.average <= v[c.maxIdx]
      && c.spread == v[c.maxIdx] as int - v[c.minIdx]
  {
    hide Total, ArgMax, ArgMin, Summary;
    ExtremesAreFirst(v);
    var lo, hi: int := v[ArgMin(v)], v[ArgMax(v)];
    TotalBounds(v, lo, hi);
    SummaryIsExact(v, Total(v), ArgMax(v), ArgMin(v));
  }

  lemma SummaryIsExact(v: seq<u16>, sum: nat, hiIdx: nat, loIdx: nat)
    requires 0 < |v| <= 255 && hiIdx < |v| && loIdx < |v|
    requires v[loIdx] <= v[hiIdx] && v[loIdx] as int * |v| <= sum <= v[hiIdx] as int * |v|
    ensures sum < 0x1_0000_0000
    ensures var c := Summary(v, Wrap32(sum), hiIdx, loIdx);
      && c.voltages == v && c.resistances == [] && c.maxIdx == hiIdx && c.minIdx == loIdx
      && c.average == sum / |v| && v[loIdx] <= c.average <= v[hiIdx]
      && c.spread == v[hiIdx] as int - v[loIdx]
  {
    AverageBetween(sum, |v|, v[loIdx], v[hiIdx]);
  }

  lemma AverageBetween(sum: nat, n: nat, lo: nat, hi: nat)
    requires 0 < n <= 255 && hi < 0x1_0000 && lo * n <= sum <= hi * n
    ensures sum < 0x1_0000_0000 && lo <= sum / n <= hi
  {
    MulMonotone(hi, n, 255);
    assert lo * n == n * lo && hi * n == n * hi;
    DivBetween(sum, n, lo, hi);
  }

  /** How the statistics of a prefix change with the next voltage. */
  lemma NextVoltage(v: seq<u16>, i: nat)
    requires 0 < i < |v|
    ensures var k := ArgMax(v[..i]); ArgMax(v[..i + 1]) == if v[i] > v[k] then i else k
    ensures var k := ArgMin(v[..i]); ArgMin(v[..i + 1]) == if v[i] < v[k] then i else k
  {
    assert v[..i + 1][..i] == v[..i];
  }

  lemma NextTotal(v: seq<u16>, i: nat)
    requires i < |v|
    ensures Wrap32(Total(v[..i + 1])) == Wrap32(Wrap32(Total(v[..i])) as int + v[i])
  {
    assert v[..i + 1][..i] == v[..i];
  }

  method FillCellStats(v: seq<u16>) returns (c: CellInfo)
    ensures c == CellStats(v)
  {
    if v == [] {
      return CellInfo([], [], 0, 0, 0, 0);
    }
    hide ArgMax, ArgMin, Total, Wrap32, Summary;
    var sum: u32 := 0;
    var lo, hi, loIdx, hiIdx := v[0], v[0], 0, 0;
    FirstVoltage(v);
    for i := 0 to |v|
      invariant sum == Wrap32(Total(v[..i]))
      invariant var n := if i == 0 then 1 else i; hiIdx == ArgMax(v[..n]) && loIdx == ArgMin(v[..n])
      invariant hi == v[hiIdx] && lo == v[loIdx]
    {
      NextTotal(v, i);
      sum := Wrap32(sum as int + v[i]);
      if i > 0 {
        NextVoltage(v, i);
      }
      if v[i] > hi {
        hi, hiIdx := v[i], i;
      }
      if v[i] < lo {
        lo, loIdx := v[i], i;
      }
    }
    assert v[..|v|] == v;
    c := Summary(v, sum, hiIdx, loIdx);
  }

  lemma FirstVoltage(v: seq<u16>)
    requires v != []
    ensures ArgMax(v[..1]) == 0 && ArgMin(v[..1]) == 0 && Wrap32(Total(v[..0])) == 0
  {
  }

  // ---- One frame ---------------------------------------------------------------

  const KELVIN_OFFSET := 2731

  function DeciCelsius(k10: u16): i16 {
    Signed16(Wrap16((k10 as int) - KELVIN_OFFSET))
  }

  function StateOfCharge(remain: u16, total: u16): u8 {
    if total == 0 then 0
    else
      var pct := (remain as int) * 100 / total;
      if pct > 100 then 100 else if pct < 0 then 0 else pct
  }

  /** The charge as a percentage rounded down; more than full is full, and nothing of nothing is empty. */
  predicate IsPercentage(soc: int, remain: int, total: int) {
    if total == 0 then soc == 0
    else if remain > total then soc == 100
    else soc <= 100 && total * soc <= 100 * remain < total * (soc + 1)
  }

  lemma StateOfChargeIsPercentage(remain: u16, total: u16)
    ensures IsPercentage(StateOfCharge(remain, total), remain, total)
  {
    if 0 < total < remain {
      DivMonotone(100 * total, 100 * remain, total);
      assert 100 * (total as int) / total == 100;
    } else if total > 0 {
      DivBetween(100 * remain, total, 0, 100);
    }
  }

  function TelemetryOf(a: AnalogResponse): Telemetry {
    var temp := (k: nat) => if k < |a.temps| then DeciCelsius(a.temps[k]) else 0;
    Telemetry(
      CellStats(a.cells),
      PackInfo(a.voltage, (a.current as int) * 100, StateOfCharge(a.remain, a.total), a.remain, a.total, a.cycles,
               temp(0), temp(1), temp(2), false, false, false, 0, 0))
  }

  function SettingsOf(s: SystemParameters, cellCount: u8): Settings {
    var discharge: int := s.dischargeCurrent;
    Settings(s.cellUnder, s.cellLow, s.cellHigh, DeciCelsius(s.chargeHighTemp), DeciCelsius(s.chargeLowTemp),
             DeciCelsius(s.dischargeHighTemp),
             Wrap32((s.chargeCurrent as int) * 100), (if discharge < 0 then 0 - discharge else discharge) * 100, cellCount)
  }

  /** The k-th temperature sent, in tenths of a Kelvin, up to a turn of the 16-bit field; 0 if none was sent. */
  predicate ShowsTemperature(dC: i16, temps: seq<u16>, k: nat) {
    if k < |temps| then (temps[k] as int - dC - 2731) % 0x1_0000 == 0 else dC == 0
  }

  /** Telemetry that shows the values sent in an analog answer; what such an answer does not carry is 0. */
  predicate Shows(t: Telemetry, a: AnalogResponse) {
    && t.cells == CellStats(a.cells)
    && t.pack.voltage == a.voltage && t.pack.current == 100 * (a.current as int)
    && t.pack.remaining == a.remain && t.pack.total == a.total && t.pack.cycles == a.cycles
    && IsPercentage(t.pack.soc, a.remain, a.total)
    && ShowsTemperature(t.pack.temp1, a.temps, 0) && ShowsTemperature(t.pack.temp2, a.temps, 1)
    && ShowsTemperature(t.pack.tubeTemp, a.temps, 2)
    && !t.pack.charging && !t.pack.discharging && !t.pack.balancing && t.pack.balanceCurrent == 0 && t.pack.errors == 0
  }

  lemma TelemetryShows(a: AnalogResponse)
    ensures Shows(TelemetryOf(a), a)
  {
    hide CellStats, StateOfCharge, IsPercentage;
    StateOfChargeIsPercentage(a.remain, a.total);
  }

  /** Settings that hold the limits sent as system parameters, the cell count aside. */
  predicate Limits(l: Settings, r: SystemParameters) {
    && l.cellOvp == r.cellHigh && l.cellUvpr == r.cellLow && l.cellUvp == r.cellUnder
    && ShowsTemperature(l.chargeOtp, [r.chargeHighTemp], 0) && ShowsTemperature(l.chargeUtp, [r.chargeLowTemp], 0)
    && ShowsTemperature(l.dischargeOtp, [r.dischargeHighTemp], 0)
    && (r.chargeCurrent >= 0 ==> l.maxCharge == 100 * (r.chargeCurrent as int))
    && l.maxDischarge == 100 * if r.dischargeCurrent < 0 then 0 - r.dischargeCurrent as int else r.dischargeCurrent as int
  }

  lemma SettingsHold(r: SystemParameters, cellCount: u8)
    ensures Limits(SettingsOf(r, cellCount), r) && SettingsOf(r, cellCount).cellCount == cellCount
  {
    LimitsSurvive(r, cellCount);
  }

  /** Settings decoded from these system parameters, at whatever cell count was known. */
  predicate SentAs(l: Settings, s: SystemParameters) {
    l == SettingsOf(s, l.cellCount)
  }

  /**
   The charge limit survives decoding exactly if it is not negative; a negative one becomes more
   than four million ampere. The discharge limit keeps its magnitude.
   */
  lemma LimitsSurvive(s: SystemParameters, cellCount: u8)
    ensures SettingsOf(s, cellCount).maxCharge == 100 * s.chargeCurrent <==> s.chargeCurrent >= 0
    ensures s.chargeCurrent < 0 ==> SettingsOf(s, cellCount).maxCharge > 4_000_000_000
    ensures SettingsOf(s, cellCount).maxDischarge == 100 * if s.dischargeCurrent < 0 then 0 - s.dischargeCurrent else s.dischargeCurrent
  {
  }

  /** What a frame contributes, and the cell count known after it. */
  function Absorb(adr: u8, cellCount: u8, f: Frame): (u8, Parsed) {
    if f.adr != adr then (cellCount, NOTHING)
    else if f.cid2 == 0x42 then
      match DecodeAnalog(f.info)
      case None => (cellCount, NOTHING)
      case Some(a) => (|a.cells| % 0x100, Parsed(Some(TelemetryOf(a)), None))
    else if f.cid2 == 0x47 then
      match DecodeSystem(f.info)
      case None => (cellCount, NOTHING)
      case Some(s) => (cellCount, Parsed(None, Some(SettingsOf(s, cellCount))))
    else (cellCount, NOTHING)
  }

  function AbsorbAll(adr: u8, cellCount: u8, frames: seq<Frame>): (u8, Parsed)
    decreases |frames|
  {
    if frames == [] then (cellCount, NOTHING)
    else
      var (c, p) := Absorb(adr, cellCount, frames[0]);
      var (d, q) := AbsorbAll(adr, c, frames[1..]);
      (d, Merge(p, q))
  }

  // ---- The receiver ------------------------------------------------------------

  datatype State = State(rx: seq<u8>, cellCount: u8)

  function FeedStep(adr: u8, s: State, data: seq<u8>): (State, Parsed) {
    var (frames, rx) := Extract(s.rx + data);
    var (c, p) := AbsorbAll(adr, s.cellCount, frames);
    (State(rx, c), p)
  }

  class PylontechMasterProtocol {
    const wireAdr: u8
    var rx: seq<u8>
    var lastCellCount: u8

    constructor (wireAdr: u8)
      ensures this.wireAdr == wireAdr && Contents() == State([], 0)
    {
      this.wireAdr, rx, lastCellCount := wireAdr, [], 0;
    }

    function Contents(): State
      reads this
    {
      State(rx, lastCellCount)
    }

    method Reset()
      modifies this
      ensures Contents() == old(Contents()).(rx := [])
    {
      rx := [];
    }

    method Feed(data: seq<u8>) returns (out: Parsed)
      modifies this
      ensures (Contents(), out) == FeedStep(wireAdr, old(Contents()), data)
    {
      hide Extract, Absorb, Parse, Merge;
      out := NOTHING;
      rx := rx + data;
      ghost var all := AbsorbAll(wireAdr, lastCellCount, Extract(rx).0);
      MergeNothing(all.1);
      while rx != []
        invariant Extract(rx).1 == Extract(old(rx) + data).1
        invariant var (c, p) := AbsorbAll(wireAdr, lastCellCount, Extract(rx).0); all == (c, Merge(out, p))
        decreases |rx|
      {
        ParseMakesProgress(rx);
        ExtractStep(rx);
        var n, f := TryParsePylontech(rx);
        if n == 0 {
          break;
        }
        if n < 0 {
          var drop := if 0 - n > |rx| then |rx| else 0 - n;
          rx := rx[drop..];
          continue;
        }
        ghost var rest := Extract(rx[n..]).0;
        assert ([f.value] + rest)[1..] == rest;
        rx := rx[n..];
        var c, p := AbsorbFrame(f.value);
        MergeAssociates(out, p, AbsorbAll(wireAdr, c, rest).1);
        lastCellCount := c;
        out := Merge(out, p);
      }
      ExtractStep(rx);
      MergeNothing(out);
    }

    method AbsorbFrame(f: Frame) returns (c: u8, p: Parsed)
      ensures (c, p) == Absorb(wireAdr, lastCellCount, f)
    {
      c, p := lastCellCount, NOTHING;
      if f.adr != wireAdr {
        return;
      }
      if f.cid2 == 0x42 {
        var a := DeserializeAnalog(f.info);
        if a == None {
          return;
        }
        var t := TelemetryOf(a.value);
        c, p := |a.value.cells| % 0x100, Parsed(Some(t), None);
      } else if f.cid2 == 0x47 {
        var s := DeserializeSystem(f.info);
        if s == None {
          return;
        }
        p := Parsed(None, Some(SettingsOf(s.value, lastCellCount)));
      }
    }
  }

  lemma MergeNothing(p: Parsed)
    ensures Merge(NOTHING, p) == p && Merge(p, NOTHING) == p
  {
  }

  lemma MergeAssociates(p: Parsed, q: Parsed, r: Parsed)
    ensures Merge(Merge(p, q), r) == Merge(p, Merge(q, r))
  {
  }

  lemma {:induction false} AbsorbInTwo(adr: u8, cellCount: u8, f: seq<Frame>, g: seq<Frame>)
    ensures var (c, p) := AbsorbAll(adr, cellCount, f); var (d, q) := AbsorbAll(adr, c, g);
      AbsorbAll(adr, cellCount, f + g) == (d, Merge(p, q))
    decreases |f|
  {
    hide Absorb, Merge;
    if f == [] {
      assert f + g == g;
      MergeNothing(AbsorbAll(adr, cellCount, g).1);
    } else {
      var (c, p) := Absorb(adr, cellCount, f[0]);
      assert (f + g)[1..] == f[1..] + g && (f + g)[0] == f[0];
      AbsorbInTwo(adr, c, f[1..], g);
      var (d, q) := AbsorbAll(adr, c, f[1..]);
      MergeAssociates(p, q, AbsorbAll(adr, d, g).1);
    }
  }

  /**
   Feeding two pieces one after the other leaves the same residue and cell count as feeding
   them at once, and the two results together, later ones first, are the result of the whole.
   */
  lemma FeedInTwo(adr: u8, s: State, a: seq<u8>, b: seq<u8>)
    requires Bounded(s.rx + a + b, MAX_FRAME_LEN)
    ensures var (t, p) := FeedStep(adr, s, a); var (u, q) := FeedStep(adr, t, b);
      FeedStep(adr, s, a + b) == (u, Merge(p, q))
  {
    hide Extract, Merge, AbsorbAll;
    assert s.rx + (a + b) == s.rx + a + b;
    ExtractInTwo(s.rx + a, b);
    var (f, r) := Extract(s.rx + a);
    AbsorbInTwo(adr, s.cellCount, f, Extract(r + b).0);
  }

  /** Feeding the chunks one by one; the results together, later ones first. */
  function FeedAll(adr: u8, s: State, chunks: seq<seq<u8>>): (State, Parsed)
    decreases |chunks|
  {
    if chunks == [] then (s, NOTHING)
    else
      var (t, p) := FeedStep(adr, s, chunks[0]);
      var (u, q) := FeedAll(adr, t, chunks[1..]);
      (u, Merge(p, q))
  }

  lemma FeedNothing(adr: u8, s: State)
    requires Extract(s.rx) == ([], s.rx)
    ensures FeedStep(adr, s, []) == (s, NOTHING)
  {
    assert s.rx + [] == s.rx;
  }

  /** However what is received is cut into chunks, residue, cell count and results are those of feeding it at once. */
  lemma {:induction false} ChunksFeedAlike(adr: u8, s: State, chunks: seq<seq<u8>>)
    requires Extract(s.rx) == ([], s.rx) && Bounded(s.rx + Concat(chunks), MAX_FRAME_LEN)
    ensures FeedAll(adr, s, chunks) == FeedStep(adr, s, Concat(chunks))
    decreases |chunks|
  {
    hide Bounded, Extract, Merge, AbsorbAll;
    if chunks == [] {
      FeedNothing(adr, s);
    } else {
      var a, rest := chunks[0], Concat(chunks[1..]);
      assert s.rx + (a + rest) == s.rx + a + rest;
      FeedInTwo(adr, s, a, rest);
      var t := FeedStep(adr, s, a).0;
      ResidueIsFixed(s.rx + a);
      ResidueAwaitsFrame(s.rx + a);
      var n := |s.rx + a| - |t.rx|;
      assert t.rx + rest == (s.rx + a + rest)[n..];
      BoundedSuffix(s.rx + a + rest, n, MAX_FRAME_LEN);
      ChunksFeedAlike(adr, t, chunks[1..]);
    }
  }

  /** A battery's answer, however it is cut into chunks, is decoded to the values it was built from. */
  lemma AnalogAnswerIsDecoded(adr: u8, cellCount: u8, ver: u8, cid1: u8, a: AnalogResponse, chunks: seq<seq<u8>>)
    requires |a.cells| <= 255 && |a.temps| <= 255
    requires Concat(chunks) == Build(Frame(ver, adr, cid1, 0x42, EncodeAnalog(a)))
    ensures var (s, p) := FeedAll(adr, State([], cellCount), chunks);
      s == State([], |a.cells|) && p == Parsed(Some(TelemetryOf(a)), None) && Shows(p.telemetry.value, a)
  {
    TelemetryShows(a);
    hide Shows, Build, EncodeAnalog, FeedStep, FeedAll, Bounded, Wire, Extract, Concat, Absorb, TelemetryOf;
    var f := Frame(ver, adr, cid1, 0x42, EncodeAnalog(a));
    AnalogLength(a);
    AnalogAbsorbed(adr, cellCount, f, a);
    BuildShape(f);
    AnswerInChunks(adr, cellCount, f, chunks);
  }

  lemma AnalogAbsorbed(adr: u8, cellCount: u8, f: Frame, a: AnalogResponse)
    requires |a.cells| <= 255 && |a.temps| <= 255
    requires f.adr == adr && f.cid2 == 0x42 && f.info == EncodeAnalog(a)
    ensures Absorb(adr, cellCount, f) == (|a.cells|, Parsed(Some(TelemetryOf(a)), None))
  {
    hide EncodeAnalog, DecodeAnalog, TelemetryOf;
    AnalogReadsBack(a, []);
    assert EncodeAnalog(a) + [] == EncodeAnalog(a);
  }

  /** A single frame of usual length, cut into chunks, is absorbed as a whole. */
  lemma AnswerInChunks(adr: u8, cellCount: u8, f: Frame, chunks: seq<seq<u8>>)
    requires Concat(chunks) == Build(f) && |Build(f)| <= LONGEST
    ensures var (c, p) := Absorb(adr, cellCount, f); FeedAll(adr, State([], cellCount), chunks) == (State([], c), p)
  {
    hide Build, FeedStep, FeedAll, Merge, Bounded, Wire, Extract, Concat, Absorb;
    SingleFrame(f);
    WireIsBounded([Item([], f)], [], MAX_FRAME_LEN);
    assert [] + Build(f) == Build(f);
    NothingExtracted();
    ChunksFeedAlike(adr, State([], cellCount), chunks);
    AloneIsFound(f);
    WholeAnswer(adr, cellCount, f, Build(f));
  }

  /** So are its system parameters. */
  lemma SystemAnswerIsDecoded(adr: u8, cellCount: u8, ver: u8, cid1: u8, r: SystemParameters, chunks: seq<seq<u8>>)
    requires Concat(chunks) == Build(Frame(ver, adr, cid1, 0x47, EncodeSystem(r)))
    ensures var (s, p) := FeedAll(adr, State([], cellCount), chunks);
      && s == State([], cellCount) && p == Parsed(None, Some(SettingsOf(r, cellCount)))
      && Limits(p.settings.value, r) && p.settings.value.cellCount == cellCount
  {
    SettingsHold(r, cellCount);
    hide Limits, Build, EncodeSystem, SettingsOf, FeedStep, FeedAll, Merge, Bounded, Wire, Extract, Concat, DecodeSystem;
    var f := Frame(ver, adr, cid1, 0x47, EncodeSystem(r));
    SystemRoundTrip(r, []);
    assert EncodeSystem(r) + [] == EncodeSystem(r);
    BuildShape(f);
    AnswerInChunks(adr, cellCount, f, chunks);
  }

  lemma WholeAnswer(adr: u8, cellCount: u8, f: Frame, buf: seq<u8>)
    requires Extract(buf) == ([f], [])
    ensures var (c, p) := Absorb(adr, cellCount, f); FeedStep(adr, State([], cellCount), buf) == (State([], c), p)
  {
    hide Extract, Absorb, Merge;
    assert [] + buf == buf && [f][1..] == [];
    var (c, p) := Absorb(adr, cellCount, f);
    MergeNothing(p);
    assert AbsorbAll(adr, c, []) == (c, NOTHING);
  }

  lemma AnalogLength(a: AnalogResponse)
    ensures |EncodeAnalog(a)| == 15 + 2 * |a.cells| + 2 * |a.temps|
  {
  }

  // ---- Whose answers count ---------------------------------------------------------

  /** An answer of the battery with either kind of payload. */
  predicate IsAnswer(adr: u8, f: Frame) {
    f.adr == adr && (f.cid2 == 0x42 || f.cid2 == 0x47)
  }

  function OwnAnswers(adr: u8, frames: seq<Frame>): seq<Frame> {
    if frames == [] then []
    else (if IsAnswer(adr, frames[0]) then [frames[0]] else []) + OwnAnswers(adr, frames[1..])
  }

  /** Frames from other addresses, and other frames of the battery, leave no trace. */
  lemma {:induction false} OnlyAnswersCount(adr: u8, cellCount: u8, frames: seq<Frame>)
    ensures AbsorbAll(adr, cellCount, frames) == AbsorbAll(adr, cellCount, OwnAnswers(adr, frames))
    decreases |frames|
  {
    hide TelemetryOf, SettingsOf, DecodeAnalog, DecodeSystem, Merge;
    if frames != [] {
      var (c, p) := Absorb(adr, cellCount, frames[0]);
      OnlyAnswersCount(adr, c, frames[1..]);
      var rest := OwnAnswers(adr, frames[1..]);
      assert ([frames[0]] + rest)[1..] == rest && [] + rest == rest;
      MergeNothing(AbsorbAll(adr, c, rest).1);
    }
  }

  /** A later answer replaces an earlier one of its kind and leaves the other kind alone. */
  lemma LastAnswerWins(adr: u8, cellCount: u8, frames: seq<Frame>, f: Frame)
    ensures var (c, p) := AbsorbAll(adr, cellCount, frames); var last := Absorb(adr, c, f).1;
      var all := AbsorbAll(adr, cellCount, frames + [f]).1;
      && (last.telemetry.Some? ==> all.telemetry == last.telemetry) && (last.telemetry == None ==> all.telemetry == p.telemetry)
      && (last.settings.Some? ==> all.settings == last.settings) && (last.settings == None ==> all.settings == p.settings)
  {
    hide Absorb;
    AbsorbInTwo(adr, cellCount, frames, [f]);
    var c := AbsorbAll(adr, cellCount, frames).0;
    assert [f][1..] == [];
    MergeNothing(Absorb(adr, c, f).1);
    assert AbsorbAll(adr, c, [f]).1 == Absorb(adr, c, f).1;
  }

  /** An analog answer followed by system parameters: the settings carry the number of cells of the telemetry. */
  lemma SettingsCarryCellCount(adr: u8, cellCount: u8, f: Frame, g: Frame, a: AnalogResponse, r: SystemParameters)
    requires |a.cells| <= 255 && |a.temps| <= 255
    requires f.adr == adr && f.cid2 == 0x42 && f.info == EncodeAnalog(a)
    requires g.adr == adr && g.cid2 == 0x47 && g.info == EncodeSystem(r)
    ensures var p := AbsorbAll(adr, cellCount, [f, g]).1;
      && p.telemetry.Some? && p.settings.Some? && p.settings.value.cellCount == |p.telemetry.value.cells.voltages| == |a.cells|
  {
    hide EncodeAnalog, EncodeSystem, DecodeAnalog, DecodeSystem, StateOfCharge, DeciCelsius;
    AnalogAbsorbed(adr, cellCount, f, a);
    SystemRoundTrip(r, []);
    assert EncodeSystem(r) + [] == EncodeSystem(r);
    assert [f, g][1..] == [g] && [g][1..] == [];
    assert AbsorbAll(adr, |a.cells|, [g]).1 == Merge(Absorb(adr, |a.cells|, g).1, AbsorbAll(adr, |a.cells|, []).1);
  }

  lemma DecodedCellsFitByte(adr: u8, cellCount: u8, f: Frame)
    ensures var p := Absorb(adr, cellCount, f).1; p.telemetry.Some? ==> |p.telemetry.value.cells.voltages| <= 255
  {
    CountsFitBytes(f.info);
  }

  /** Whatever is received, telemetry has at most 255 cells. */
  lemma {:induction false} ReceivedCellsFitByte(adr: u8, cellCount: u8, frames: seq<Frame>)
    ensures var p := AbsorbAll(adr, cellCount, frames).1; p.telemetry.Some? ==> |p.telemetry.value.cells.voltages| <= 255
    decreases |frames|
  {
    hide Absorb;
    if frames != [] {
      DecodedCellsFitByte(adr, cellCount, frames[0]);
      ReceivedCellsFitByte(adr, Absorb(adr, cellCount, frames[0]).0, frames[1..]);
    }
  }
}
