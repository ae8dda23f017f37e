/**
 The frames of a JK BMS, written in order: a header, the tables of cell voltages and resistances
 with 24 or 32 slots, and the fields around them. What is written this way is read back by the
 decoder, wherever the tables push the fields behind them.
 */
module JkLayout {
  import opened Bms
  import opened Bytes
  import opened JkAssembler
  import opened JkProtocol
  import opened Wrappers

  /** Two and four bytes of a frame, low ones first, and the numbers they stand for. */
  datatype Two = Two(lo: u8, hi: u8) {
    function Value(): u16 { Join16(hi, lo) }

    function Bytes(): (s: seq<u8>)
      ensures |s| == 2
    {
      [lo, hi]
    }
  }

  datatype Four = Four(lo: Two, hi: Two) {
    function Value(): u32 { lo.Value() as int + hi.Value() * 0x1_0000 }

    function Bytes(): (s: seq<u8>)
      ensures |s| == 4
    {
      lo.Bytes() + hi.Bytes()
    }
  }

  const ZERO := Two(0, 0)

  lemma EveryNumberHasBytes(x: u16, y: u32)
    ensures exists w: Two :: w.Value() == x
    ensures exists w: Four :: w.Value() == y
  {
    assert Two(x % 0x100, x / 0x100).Value() == x;
    var lo, hi := y % 0x1_0000, y / 0x1_0000;
    assert Four(Two(lo % 0x100, lo / 0x100), Two(hi % 0x100, hi / 0x100)).Value() == y;
  }

  /** What slot `k` of a table holds; the slots behind the values are empty. */
  function Padded(vs: seq<Two>, k: nat): Two { if k < |vs| then vs[k] else ZERO }

  /** A table of slots. */
  function Table(vs: seq<Two>, slots: nat): (s: seq<u8>)
    ensures |s| == 2 * slots
  {
    if slots == 0 then [] else Table(vs, slots - 1) + Padded(vs, slots - 1).Bytes()
  }

  /** `n` bytes the decoder does not look at. */
  function Gap(g: nat -> u8, n: nat): (s: seq<u8>)
    ensures |s| == n
  {
    seq(n, i requires 0 <= i < n => g(i))
  }

  function Slots(wide: bool): nat { if wide then 32 else 24 }

  /** Every response begins like this; the type follows. */
  const HEADER: seq<u8> := [0x55, 0xAA, 0xEB, 0x90]

  // ---- Cell info ---------------------------------------------------------------

  /** What a cell frame says about the cells, as it is written; indices count from 1. */
  datatype RawCells = RawCells(
    voltages: seq<Two>, resistances: seq<Two>, average: Two, spread: Two, maxIdx: u8, minIdx: u8)

  /** The same about the pack: signed numbers as two's complements, switches as bytes. */
  datatype RawPack = RawPack(
    voltage: Four, current: Four, soc: u8, remaining: Four, total: Four, cycles: Four,
    temp1: Two, temp2: Two, tubeTemp: Two, charging: u8, discharging: u8, balancing: u8, balanceCurrent: Two, errors: Two)

  datatype Raw = Raw(cells: RawCells, pack: RawPack)

  predicate SameNumbers(raw: seq<Two>, vs: seq<u16>) {
    |raw| == |vs| && forall i :: 0 <= i < |vs| ==> raw[i].Value() == vs[i]
  }

  predicate CellsMean(r: RawCells, c: CellInfo) {
    && SameNumbers(r.voltages, c.voltages) && SameNumbers(r.resistances, c.resistances)
    && r.average.Value() == c.average && r.spread.Value() == c.spread
    && ZeroBased(r.maxIdx) == c.maxIdx && ZeroBased(r.minIdx) == c.minIdx
  }

  predicate PackMeans(r: RawPack, p: PackInfo) {
    && Signed32(r.voltage.Value()) == p.voltage && Signed32(r.current.Value()) == p.current && r.soc == p.soc
    && r.remaining.Value() == p.remaining && r.total.Value() == p.total && r.cycles.Value() == p.cycles
    && r.errors.Value() == p.errors && Signed16(r.temp1.Value()) == p.temp1 && Signed16(r.temp2.Value()) == p.temp2
    && Signed16(r.tubeTemp.Value()) == p.tubeTemp && Signed16(r.balanceCurrent.Value()) == p.balanceCurrent
    && (r.charging != 0 <==> p.charging) && (r.discharging != 0 <==> p.discharging) && (r.balancing != 0 <==> p.balancing)
  }

  /** What is written as `r` means `t`. */
  predicate Means(r: Raw, t: Telemetry) {
    CellsMean(r.cells, t.cells) && PackMeans(r.pack, t.pack)
  }

  /**
   The parts of a cell frame in order; `g` gives the bytes that mean nothing to the decoder. The
   temperature of the tube stands in front of the voltage in the wide layout, and in front of the
   errors in the narrow one.
   */
  function CellParts(r: Raw, counter: u8, mask: Four, wide: bool, g: nat -> u8): (parts: seq<seq<u8>>)
    ensures |parts| == 24
  {
    var c, p := r.cells, r.pack;
    [HEADER, [0x02, counter],
     Table(c.voltages, Slots(wide)), mask.Bytes(), c.average.Bytes(), c.spread.Bytes(), [c.maxIdx, c.minIdx], Table(c.resistances, Slots(wide)),
     if wide then p.tubeTemp.Bytes() else Gap(g, 2), Gap(g, 4),
     p.voltage.Bytes(), Gap(g, 4), p.current.Bytes(), p.temp1.Bytes(), p.temp2.Bytes(),
     if wide then p.errors.Bytes() else p.tubeTemp.Bytes(), if wide then Gap(g, 2) else p.errors.Bytes(),
     p.balanceCurrent.Bytes(), [p.balancing, p.soc],
     p.remaining.Bytes(), p.total.Bytes(), p.cycles.Bytes(), Gap(g, 12), [p.charging, p.discharging]]
  }

  function Join(parts: seq<seq<u8>>): seq<u8> {
    if parts == [] then [] else Join(parts[..|parts| - 1]) + parts[|parts| - 1]
  }

  /** Where the k-th part begins. */
  function Offset(parts: seq<seq<u8>>, k: nat): nat
    requires k <= |parts|
  {
    if k == 0 then 0 else Offset(parts, k - 1) + |parts[k - 1]|
  }

  lemma {:induction false} JoinLength(parts: seq<seq<u8>>)
    ensures |Join(parts)| == Offset(parts, |parts|)
  {
    if parts != [] {
      var init := parts[..|parts| - 1];
      JoinLength(init);
      SameOffsets(parts, init, |init|);
    }
  }

  lemma {:induction false} SameOffsets(parts: seq<seq<u8>>, init: seq<seq<u8>>, k: nat)
    requires k <= |init| <= |parts| && init == parts[..|init|]
    ensures Offset(parts, k) == Offset(init, k)
  {
    if k > 0 { SameOffsets(parts, init, k - 1); }
  }

  lemma NextOffset(parts: seq<seq<u8>>)
    ensures Offset(parts, 0) == 0
    ensures forall k :: 0 <= k < |parts| ==> Offset(parts, k + 1) == Offset(parts, k) + |parts[k]|
  {
  }

  /** Where the parts of a cell frame begin. */
  lemma CellOffsets(r: Raw, counter: u8, mask: Four, wide: bool, g: nat -> u8)
    ensures var parts, n := CellParts(r, counter, mask, wide, g), 2 * Slots(wide);
      && Offset(parts, 0) == 0 && Offset(parts, 1) == 4 && Offset(parts, 2) == 6 && Offset(parts, 3) == 6 + n
      && Offset(parts, 4) == 10 + n && Offset(parts, 5) == 12 + n && Offset(parts, 6) == 14 + n && Offset(parts, 7) == 16 + n
      && Offset(parts, 8) == 16 + 2 * n
    ensures var parts, at := CellParts(r, counter, mask, wide, g), 16 + 4 * Slots(wide);
      && Offset(parts, 9) == at + 2 && Offset(parts, 10) == at + 6 && Offset(parts, 11) == at + 10 && Offset(parts, 12) == at + 14
      && Offset(parts, 13) == at + 18 && Offset(parts, 14) == at + 20 && Offset(parts, 15) == at + 22 && Offset(parts, 16) == at + 24
      && Offset(parts, 17) == at + 26 && Offset(parts, 18) == at + 28 && Offset(parts, 19) == at + 30 && Offset(parts, 20) == at + 34
      && Offset(parts, 21) == at + 38 && Offset(parts, 22) == at + 42 && Offset(parts, 23) == at + 54 && Offset(parts, 24) == at + 56
  {
    var parts := CellParts(r, counter, mask, wide, g);
    NextOffset(parts);
    PartLengths(r, counter, mask, wide, g);
    hide Offset, CellParts;
  }

  lemma PartLengths(r: Raw, counter: u8, mask: Four, wide: bool, g: nat -> u8)
    ensures var parts, n := CellParts(r, counter, mask, wide, g), 2 * Slots(wide);
      && |parts[0]| == 4 && |parts[1]| == 2 && |parts[2]| == n && |parts[3]| == 4 && |parts[4]| == 2 && |parts[5]| == 2
      && |parts[6]| == 2 && |parts[7]| == n && |parts[8]| == 2 && |parts[9]| == 4 && |parts[10]| == 4 && |parts[11]| == 4
      && |parts[12]| == 4 && |parts[13]| == 2 && |parts[14]| == 2 && |parts[15]| == 2 && |parts[16]| == 2 && |parts[17]| == 2
      && |parts[18]| == 2 && |parts[19]| == 4 && |parts[20]| == 4 && |parts[21]| == 4 && |parts[22]| == 12 && |parts[23]| == 2
  {
    hide CellParts, Slots;
    FirstLengths(r, counter, mask, wide, g);
    MiddleLengths(r, counter, mask, wide, g);
    LastLengths(r, counter, mask, wide, g);
  }

  lemma FirstLengths(r: Raw, counter: u8, mask: Four, wide: bool, g: nat -> u8)
    ensures var parts, n := CellParts(r, counter, mask, wide, g), 2 * Slots(wide);
      && |parts[0]| == 4 && |parts[1]| == 2 && |parts[2]| == n && |parts[3]| == 4
      && |parts[4]| == 2 && |parts[5]| == 2 && |parts[6]| == 2 && |parts[7]| == n
  {
    hide Table, Gap, Four.Bytes, Two.Bytes, Slots;
  }

  lemma MiddleLengths(r: Raw, counter: u8, mask: Four, wide: bool, g: nat -> u8)
    ensures var parts := CellParts(r, counter, mask, wide, g);
      && |parts[8]| == 2 && |parts[9]| == 4 && |parts[10]| == 4 && |parts[11]| == 4
      && |parts[12]| == 4 && |parts[13]| == 2 && |parts[14]| == 2 && |parts[15]| == 2
  {
    hide Table, Gap, Four.Bytes, Two.Bytes, Slots;
  }

  lemma LastLengths(r: Raw, counter: u8, mask: Four, wide: bool, g: nat -> u8)
    ensures var parts := CellParts(r, counter, mask, wide, g);
      && |parts[16]| == 2 && |parts[17]| == 2 && |parts[18]| == 2 && |parts[19]| == 4
      && |parts[20]| == 4 && |parts[21]| == 4 && |parts[22]| == 12 && |parts[23]| == 2
  {
    hide Table, Gap, Four.Bytes, Two.Bytes, Slots;
  }

  /** A cell frame: its parts, bytes that mean nothing, and the check byte. */
  function CellFrame(r: Raw, counter: u8, mask: Four, wide: bool, g: nat -> u8): (f: seq<u8>)
    ensures |f| == RESPONSE_SIZE
  {
    CellOffsets(r, counter, mask, wide, g);
    JoinLength(CellParts(r, counter, mask, wide, g));
    var body := Join(CellParts(r, counter, mask, wide, g)) + Gap(g, 227 - 4 * Slots(wide));
    body + [Crc8(body)]
  }

  // ---- Reading what was written --------------------------------------------------

  /** `f` holds the bytes `x` at `at`. */
  ghost predicate Holds(f: seq<u8>, at: nat, x: seq<u8>) {
    at + |x| <= |f| && f[at..at + |x|] == x
  }

  lemma HoldsParts(f: seq<u8>, at: nat, x: seq<u8>, y: seq<u8>)
    requires Holds(f, at, x + y)
    ensures Holds(f, at, x) && Holds(f, at + |x|, y)
  {
    var s := f[at..at + |x + y|];
    assert f[at..at + |x|] == s[..|x|] == x;
    assert f[at + |x|..at + |x| + |y|] == s[|x|..] == y;
  }

  lemma HoldsByte(f: seq<u8>, at: nat, x: seq<u8>, i: nat)
    requires Holds(f, at, x) && i < |x|
    ensures f[at + i] == x[i]
  {
  }

  lemma TwoHolds(f: seq<u8>, at: nat, x: Two)
    requires Holds(f, at, x.Bytes())
    ensures at + 1 < |f| && Le16(f, at) == x.Value()
  {
    HoldsByte(f, at, x.Bytes(), 0);
    HoldsByte(f, at, x.Bytes(), 1);
  }

  lemma FourHolds(f: seq<u8>, at: nat, x: Four)
    requires Holds(f, at, x.Bytes())
    ensures at + 3 < |f| && Le32(f, at) == x.Value()
  {
    HoldsParts(f, at, x.lo.Bytes(), x.hi.Bytes());
    TwoHolds(f, at, x.lo);
    TwoHolds(f, at + 2, x.hi);
  }

  lemma {:induction false} TableHolds(f: seq<u8>, at: nat, vs: seq<Two>, slots: nat, i: nat)
    requires Holds(f, at, Table(vs, slots)) && i < slots
    ensures at + 2 * i + 1 < |f| && Le16(f, at + 2 * i) == Padded(vs, i).Value()
  {
    hide Holds, Le16, Padded;
    var last := Padded(vs, slots - 1);
    HoldsParts(f, at, Table(vs, slots - 1), last.Bytes());
    if i < slots - 1 {
      TableHolds(f, at, vs, slots - 1, i);
    } else {
      TwoHolds(f, at + 2 * i, last);
    }
  }

  lemma {:induction false} PartHolds(f: seq<u8>, parts: seq<seq<u8>>, k: nat)
    requires Holds(f, 0, Join(parts)) && k < |parts|
    ensures Holds(f, Offset(parts, k), parts[k])
    decreases |parts|
  {
    hide Holds, Offset;
    var init := parts[..|parts| - 1];
    JoinLength(init);
    SameOffsets(parts, init, |init|);
    HoldsParts(f, 0, Join(init), parts[|parts| - 1]);
    if k < |init| {
      PartHolds(f, init, k);
      SameOffsets(parts, init, k);
    }
  }

  /** The parts up to the resistances at their places. */
  ghost predicate HoldsCells(f: seq<u8>, c: RawCells, counter: u8, mask: Four, wide: bool) {
    var n := 2 * Slots(wide);
    && Holds(f, 0, HEADER) && Holds(f, 4, [0x02, counter]) && Holds(f, 6, Table(c.voltages, Slots(wide)))
    && Holds(f, 6 + n, mask.Bytes()) && Holds(f, 10 + n, c.average.Bytes()) && Holds(f, 12 + n, c.spread.Bytes())
    && Holds(f, 14 + n, [c.maxIdx, c.minIdx]) && Holds(f, 16 + n, Table(c.resistances, Slots(wide)))
  }

  /** The parts of the pack at their places behind `at`. */
  ghost predicate HoldsPack(f: seq<u8>, at: nat, p: RawPack, wide: bool) {
    && Holds(f, at + 6, p.voltage.Bytes()) && Holds(f, at + 14, p.current.Bytes())
    && Holds(f, at + 18, p.temp1.Bytes()) && Holds(f, at + 20, p.temp2.Bytes())
    && Holds(f, if wide then at else at + 22, p.tubeTemp.Bytes()) && Holds(f, if wide then at + 22 else at + 24, p.errors.Bytes())
    && Holds(f, at + 26, p.balanceCurrent.Bytes()) && Holds(f, at + 28, [p.balancing, p.soc])
    && Holds(f, at + 30, p.remaining.Bytes()) && Holds(f, at + 34, p.total.Bytes()) && Holds(f, at + 38, p.cycles.Bytes())
    && Holds(f, at + 54, [p.charging, p.discharging])
  }

  lemma CellPartsHold(f: seq<u8>, r: Raw, counter: u8, mask: Four, wide: bool, g: nat -> u8)
    requires Holds(f, 0, Join(CellParts(r, counter, mask, wide, g)))
    ensures HoldsCells(f, r.cells, counter, mask, wide)
  {
    var parts, c := CellParts(r, counter, mask, wide, g), r.cells;
    assert parts[0] == HEADER && parts[1] == [0x02, counter] && parts[2] == Table(c.voltages, Slots(wide));
    assert parts[3] == mask.Bytes() && parts[4] == c.average.Bytes() && parts[5] == c.spread.Bytes();
    assert parts[6] == [c.maxIdx, c.minIdx] && parts[7] == Table(c.resistances, Slots(wide));
    hide Holds, Table, CellParts, Offset, Join;
    CellOffsets(r, counter, mask, wide, g);
    forall k | 0 <= k < 8 ensures Holds(f, Offset(parts, k), parts[k]) {
      PartHolds(f, parts, k);
    }
  }

  lemma PackPartsHold(f: seq<u8>, r: Raw, counter: u8, mask: Four, wide: bool, g: nat -> u8)
    requires Holds(f, 0, Join(CellParts(r, counter, mask, wide, g)))
    ensures HoldsPack(f, 16 + 4 * Slots(wide), r.pack, wide)
  {
    var parts, p := CellParts(r, counter, mask, wide, g), r.pack;
    assert parts[10] == p.voltage.Bytes() && parts[12] == p.current.Bytes();
    assert parts[13] == p.temp1.Bytes() && parts[14] == p.temp2.Bytes();
    assert if wide then parts[8] == p.tubeTemp.Bytes() && parts[15] == p.errors.Bytes()
           else parts[15] == p.tubeTemp.Bytes() && parts[16] == p.errors.Bytes();
    assert parts[17] == p.balanceCurrent.Bytes() && parts[18] == [p.balancing, p.soc] && parts[19] == p.remaining.Bytes();
    assert parts[20] == p.total.Bytes() && parts[21] == p.cycles.Bytes() && parts[23] == [p.charging, p.discharging];
    hide Holds, CellParts, Offset, Join;
    CellOffsets(r, counter, mask, wide, g);
    forall k | 0 <= k < 24 ensures Holds(f, Offset(parts, k), parts[k]) {
      PartHolds(f, parts, k);
    }
  }

  lemma HoldsMagic(f: seq<u8>)
    requires Holds(f, 0, HEADER)
    ensures StartsWithMagic(f)
  {
    forall i | 0 <= i < 4 ensures f[0 + i] == HEADER[i] {
      HoldsByte(f, 0, HEADER, i);
    }
  }

  // ---- The decoder -----------------------------------------------------------------

  /** Telemetry that fits a frame: no empty cell, and as many resistances as voltages. */
  predicate Writable(t: Telemetry, wide: bool) {
    && |t.cells.resistances| == |t.cells.voltages| <= Slots(wide)
    && forall i :: 0 <= i < |t.cells.voltages| ==> t.cells.voltages[i] != 0
  }

  lemma {:induction false} CellsRead(f: seq<u8>, raw: seq<Two>, vs: seq<u16>, slots: nat, i: nat)
    requires |f| >= RESPONSE_SIZE && slots <= 32 && i <= |vs| <= slots && SameNumbers(raw, vs)
    requires forall k :: 0 <= k < |vs| ==> vs[k] != 0
    requires forall k :: 0 <= k < slots ==> Le16(f, 6 + 2 * k) == Padded(raw, k).Value()
    ensures Cells(f, i, slots) == vs[i..]
    decreases |vs| - i
  {
    hide Le16;
    assert i < slots ==> Le16(f, 6 + 2 * i) == Padded(raw, i).Value();
    if i < |vs| { CellsRead(f, raw, vs, slots, i + 1); }
  }

  lemma ResistancesRead(f: seq<u8>, at: nat, raw: seq<Two>, rs: seq<u16>, slots: nat)
    requires Holds(f, at, Table(raw, slots)) && |rs| <= slots && at + 2 * slots <= |f| && SameNumbers(raw, rs)
    ensures Resistances(f, at, |rs|) == rs
  {
    hide Holds, Table, Le16;
    forall i | 0 <= i < |rs| ensures Le16(f, at + 2 * i) == rs[i] {
      TableHolds(f, at, raw, slots, i);
    }
  }

  lemma CellsPartRead(f: seq<u8>, r: RawCells, c: CellInfo, counter: u8, mask: Four, wide: bool)
    requires |f| == RESPONSE_SIZE && HoldsCells(f, r, counter, mask, wide) && CellsMean(r, c)
    requires |c.resistances| == |c.voltages| <= Slots(wide) && forall i :: 0 <= i < |c.voltages| ==> c.voltages[i] != 0
    requires Is32S(f) == wide
    ensures CellPart(f) == c
  {
    hide Holds, Le16, Table, Is32S, Two.Value;
    var n := Slots(wide);
    forall i | 0 <= i < n ensures Le16(f, 6 + 2 * i) == Padded(r.voltages, i).Value() {
      TableHolds(f, 6, r.voltages, n, i);
    }
    CellsRead(f, r.voltages, c.voltages, n, 0);
    ResistancesRead(f, 16 + 2 * n, r.resistances, c.resistances, n);
    TwoHolds(f, 10 + 2 * n, r.average);
    TwoHolds(f, 12 + 2 * n, r.spread);
    HoldsByte(f, 14 + 2 * n, [r.maxIdx, r.minIdx], 0);
    HoldsByte(f, 14 + 2 * n, [r.maxIdx, r.minIdx], 1);
  }

  lemma HeaderRead(f: seq<u8>, c: RawCells, counter: u8, mask: Four, wide: bool)
    requires HoldsCells(f, c, counter, mask, wide)
    ensures StartsWithMagic(f) && f[4] == FRAME_TYPE_CELL_INFO
  {
    hide Holds;
    HoldsMagic(f);
    HoldsByte(f, 4, [0x02, counter], 0);
  }

  /** If the layout is recognised, the frame is decoded to what was written. */
  lemma LayoutReadsBack(r: Raw, t: Telemetry, counter: u8, mask: Four, wide: bool, g: nat -> u8)
    requires Means(r, t) && Writable(t, wide)
    requires Is32S(CellFrame(r, counter, mask, wide, g)) == wide
    ensures CellInfoOf(CellFrame(r, counter, mask, wide, g)) == Some(t)
  {
    hide HoldsCells, HoldsPack, CellParts, Join, CellFrame, Is32S, StartsWithMagic, Crc8, PackMeans, CellsMean, PackFields, CellPart;
    var f := CellFrame(r, counter, mask, wide, g);
    FrameHolds(r, counter, mask, wide, g);
    CellPartsHold(f, r, counter, mask, wide, g);
    PackPartsHold(f, r, counter, mask, wide, g);
    HeaderRead(f, r.cells, counter, mask, wide);
    CellsPartRead(f, r.cells, t.cells, counter, mask, wide);
    PackRead(f, r.pack, t.pack, wide);
  }

  lemma FrameHolds(r: Raw, counter: u8, mask: Four, wide: bool, g: nat -> u8)
    ensures var f := CellFrame(r, counter, mask, wide, g);
      Holds(f, 0, Join(CellParts(r, counter, mask, wide, g))) && f[RESPONSE_SIZE - 1] == Crc8(f[..RESPONSE_SIZE - 1])
  {
    hide CellParts, Join, Crc8;
    var f := CellFrame(r, counter, mask, wide, g);
    var parts, rest := Join(CellParts(r, counter, mask, wide, g)), Gap(g, 227 - 4 * Slots(wide));
    var body := parts + rest;
    assert Holds(f, 0, f);
    HoldsParts(f, 0, body, [Crc8(body)]);
    HoldsParts(f, 0, parts, rest);
    assert f[..RESPONSE_SIZE - 1] == body;
  }

  lemma PackRead(f: seq<u8>, r: RawPack, p: PackInfo, wide: bool)
    requires |f| == RESPONSE_SIZE && HoldsPack(f, 16 + 4 * Slots(wide), r, wide) && PackMeans(r, p)
    ensures PackFields(f, wide) == p
  {
    hide Holds, Le16, Le32, Two.Value, Four.Value, Signed16, Signed32;
    var at := 16 + 4 * Slots(wide);
    FourHolds(f, at + 6, r.voltage);
    FourHolds(f, at + 14, r.current);
    TwoHolds(f, at + 18, r.temp1);
    TwoHolds(f, at + 20, r.temp2);
    TwoHolds(f, if wide then at else at + 22, r.tubeTemp);
    TwoHolds(f, if wide then at + 22 else at + 24, r.errors);
    TwoHolds(f, at + 26, r.balanceCurrent);
    HoldsByte(f, at + 28, [r.balancing, r.soc], 0);
    HoldsByte(f, at + 28, [r.balancing, r.soc], 1);
    FourHolds(f, at + 30, r.remaining);
    FourHolds(f, at + 34, r.total);
    FourHolds(f, at + 38, r.cycles);
    HoldsByte(f, at + 54, [r.charging, r.discharging], 0);
    HoldsByte(f, at + 54, [r.charging, r.discharging], 1);
  }

  // ---- Which layout is recognised ---------------------------------------------------

  /** What stands where the narrow layout has its mask: the 25th and 26th cell of the wide one. */
  function MaskSeen(r: Raw, mask: Four, wide: bool): u32 {
    if wide then Four(Padded(r.cells.voltages, 24), Padded(r.cells.voltages, 25)).Value() else mask.Value()
  }

  lemma MaskIsSeen(r: Raw, counter: u8, mask: Four, wide: bool, g: nat -> u8)
    ensures Le32(CellFrame(r, counter, mask, wide, g), 54) == MaskSeen(r, mask, wide)
  {
    hide Holds, Le16, Le32, Table, CellParts, Join, CellFrame, Crc8, Padded, Four.Value, Two.Value;
    var f := CellFrame(r, counter, mask, wide, g);
    FrameHolds(r, counter, mask, wide, g);
    CellPartsHold(f, r, counter, mask, wide, g);
    if wide {
      TableHolds(f, 6, r.cells.voltages, 32, 24);
      TableHolds(f, 6, r.cells.voltages, 32, 25);
      FourSeen(f, 54, Padded(r.cells.voltages, 24), Padded(r.cells.voltages, 25));
    } else {
      FourHolds(f, 54, mask);
    }
  }

  lemma FourSeen(f: seq<u8>, at: nat, lo: Two, hi: Two)
    requires at + 3 < |f| && Le16(f, at) == lo.Value() && Le16(f, at + 2) == hi.Value()
    ensures Le32(f, at) == Four(lo, hi).Value()
  {
    hide Le16;
  }

  /** A narrow frame is decoded to what was written if its mask enables the first n cells, for some n from 4 on. */
  lemma NarrowReadsBack(r: Raw, t: Telemetry, counter: u8, mask: Four, g: nat -> u8)
    requires Means(r, t) && Writable(t, false) && mask.Value() >= 0x0F && RunOfOnes(mask.Value())
    ensures CellInfoOf(CellFrame(r, counter, mask, false, g)) == Some(t)
  {
    hide CellFrame, CellInfoOf, LooksLikeBitmask;
    BitmaskMeansCells(mask.Value());
    MaskIsSeen(r, counter, mask, false, g);
    LayoutReadsBack(r, t, counter, mask, false, g);
  }

  /** A wide frame is decoded to what was written if and only if its 25th and 26th cell do not look like a mask. */
  lemma WideReadsBack(r: Raw, t: Telemetry, counter: u8, mask: Four, g: nat -> u8)
    requires Means(r, t) && Writable(t, true)
    ensures CellInfoOf(CellFrame(r, counter, mask, true, g)) == Some(t) <==> !LooksLikeBitmask(MaskSeen(r, mask, true))
    ensures |t.cells.voltages| <= 24 ==> !LooksLikeBitmask(MaskSeen(r, mask, true))
  {
    hide CellFrame, CellInfoOf, PackMeans;
    var f := CellFrame(r, counter, mask, true, g);
    MaskIsSeen(r, counter, mask, true, g);
    if Is32S(f) {
      LayoutReadsBack(r, t, counter, mask, true, g);
    } else {
      CellCountIsBounded(f);
    }
  }

  /** A pack of 25 cells in the wide layout loses its last one, at 4095 mV, and with it the place of all other fields. */
  lemma TwentyFifthCellLooksLikeMask(r: Raw, t: Telemetry, counter: u8, mask: Four, g: nat -> u8)
    requires Means(r, t) && Writable(t, true) && |t.cells.voltages| == 25 && t.cells.voltages[24] == 4095
    ensures CellInfoOf(CellFrame(r, counter, mask, true, g)) != Some(t)
  {
    hide CellFrame, CellInfoOf, And, PackMeans;
    assert Pow2(12) == 4096;
    assert RunOfOnes(4095);
    BitmaskMeansCells(4095);
    WideReadsBack(r, t, counter, mask, g);
  }

  // ---- What can be written -----------------------------------------------------------

  lemma {:induction false} NumbersCanBeWritten(vs: seq<u16>)
    ensures exists raw :: SameNumbers(raw, vs)
  {
    if vs == [] {
      assert SameNumbers([], vs);
    } else {
      var init, x := vs[..|vs| - 1], vs[|vs| - 1];
      NumbersCanBeWritten(init);
      var raw :| SameNumbers(raw, init);
      EveryNumberHasBytes(x, 0);
      var w: Two :| w.Value() == x;
      assert SameNumbers(raw + [w], vs);
    }
  }

  lemma SignedCanBeWritten(x: i16, y: i32)
    ensures exists w: Two :: Signed16(w.Value()) == x
    ensures exists w: Four :: Signed32(w.Value()) == y
  {
    hide Two.Value, Four.Value, Wrap16, Wrap32, Signed16, Signed32;
    EveryNumberHasBytes(Wrap16(x), Wrap32(y));
    SignedReadBack(x, y);
    var v: Two :| v.Value() == Wrap16(x);
    var w: Four :| w.Value() == Wrap32(y);
    assert Signed16(v.Value()) == x && Signed32(w.Value()) == y;
  }

  lemma SignedReadBack(x: i16, y: i32)
    ensures Signed16(Wrap16(x)) == x && Signed32(Wrap32(y)) == y
  {
  }

  lemma PackCanBeWritten(p: PackInfo)
    ensures exists r :: PackMeans(r, p)
  {
    SignedCanBeWritten(p.temp1, p.voltage);
    SignedCanBeWritten(p.temp2, p.current);
    SignedCanBeWritten(p.tubeTemp, 0);
    SignedCanBeWritten(p.balanceCurrent, 0);
    EveryNumberHasBytes(p.errors, p.remaining);
    EveryNumberHasBytes(0, p.total);
    EveryNumberHasBytes(0, p.cycles);
    hide Signed16, Signed32;
    var voltage: Four :| Signed32(voltage.Value()) == p.voltage;
    var current: Four :| Signed32(current.Value()) == p.current;
    var remaining: Four :| remaining.Value() == p.remaining;
    var total: Four :| total.Value() == p.total;
    var cycles: Four :| cycles.Value() == p.cycles;
    var temp1: Two :| Signed16(temp1.Value()) == p.temp1;
    var temp2: Two :| Signed16(temp2.Value()) == p.temp2;
    var tubeTemp: Two :| Signed16(tubeTemp.Value()) == p.tubeTemp;
    var balanceCurrent: Two :| Signed16(balanceCurrent.Value()) == p.balanceCurrent;
    var errors: Two :| errors.Value() == p.errors;
    var bit := (on: bool) => if on then 1 else 0;
    assert PackMeans(RawPack(voltage, current, p.soc, remaining, total, cycles, temp1, temp2, tubeTemp,
                             bit(p.charging), bit(p.discharging), bit(p.balancing), balanceCurrent, errors), p);
  }

  /** Every telemetry can be written whose indices can be counted from 1 in a byte. */
  lemma TelemetryCanBeWritten(t: Telemetry)
    requires t.cells.maxIdx < 0xFF && t.cells.minIdx < 0xFF
    ensures exists r :: Means(r, t)
  {
    hide PackMeans, SameNumbers;
    var c := t.cells;
    NumbersCanBeWritten(c.voltages);
    NumbersCanBeWritten(c.resistances);
    EveryNumberHasBytes(c.average, 0);
    EveryNumberHasBytes(c.spread, 0);
    PackCanBeWritten(t.pack);
    var voltages :| SameNumbers(voltages, c.voltages);
    var resistances :| SameNumbers(resistances, c.resistances);
    var average: Two :| average.Value() == c.average;
    var spread: Two :| spread.Value() == c.spread;
    var pack :| PackMeans(pack, t.pack);
    assert Means(Raw(RawCells(voltages, resistances, average, spread, c.maxIdx + 1, c.minIdx + 1), pack), t);
  }

  // ---- Settings ----------------------------------------------------------------------

  /** The words of a settings frame as they are written; `other` gives those the bridge does not use. */
  datatype RawSettings = RawSettings(
    uvp: Four, uvpr: Four, ovp: Four, maxCharge: Four, maxDischarge: Four,
    chargeOtp: Four, dischargeOtp: Four, chargeUtp: Four, cellCount: Four, other: nat -> Four)

  /** Voltages and the count are the low bytes of their words, temperatures their low half as a signed number. */
  predicate SettingsMean(r: RawSettings, l: Settings) {
    && r.uvp.lo.Value() == l.cellUvp && r.uvpr.lo.Value() == l.cellUvpr && r.ovp.lo.Value() == l.cellOvp
    && r.maxCharge.Value() == l.maxCharge && r.maxDischarge.Value() == l.maxDischarge
    && Signed16(r.chargeOtp.lo.Value()) == l.chargeOtp && Signed16(r.dischargeOtp.lo.Value()) == l.dischargeOtp
    && Signed16(r.chargeUtp.lo.Value()) == l.chargeUtp && r.cellCount.lo.lo == l.cellCount
  }

  function SettingsWords(r: RawSettings): seq<Four> {
    var o := r.other;
    [o(0), r.uvp, r.uvpr, r.ovp, o(4), o(5), o(6), o(7), o(8), o(9), o(10), r.maxCharge, o(12), o(13), r.maxDischarge,
     o(15), o(16), o(17), o(18), r.chargeOtp, o(20), r.dischargeOtp, o(22), r.chargeUtp, o(24), o(25), o(26), r.cellCount]
  }

  function Words32(ws: seq<Four>): (s: seq<u8>)
    ensures |s| == 4 * |ws|
  {
    if ws == [] then [] else Words32(ws[..|ws| - 1]) + ws[|ws| - 1].Bytes()
  }

  /** A settings frame. */
  function SettingsFrame(r: RawSettings, counter: u8, g: nat -> u8): (f: seq<u8>)
    ensures |f| == RESPONSE_SIZE
  {
    var body := HEADER + ([0x01, counter] + (Words32(SettingsWords(r)) + Gap(g, 181)));
    body + [Crc8(body)]
  }

  lemma {:induction false} WordHolds(f: seq<u8>, at: nat, ws: seq<Four>, k: nat)
    requires Holds(f, at, Words32(ws)) && k < |ws|
    ensures at + 4 * k + 3 < |f| && Le32(f, at + 4 * k) == ws[k].Value()
    decreases |ws|
  {
    hide Holds, Le32;
    var init := ws[..|ws| - 1];
    HoldsParts(f, at, Words32(init), ws[|ws| - 1].Bytes());
    if k < |ws| - 1 {
      WordHolds(f, at, init, k);
    } else {
      FourHolds(f, at + 4 * k, ws[k]);
    }
  }

  lemma SettingsHold(r: RawSettings, counter: u8, g: nat -> u8)
    ensures var f := SettingsFrame(r, counter, g);
      && Holds(f, 0, HEADER) && Holds(f, 4, [0x01, counter]) && Holds(f, 6, Words32(SettingsWords(r)))
      && f[RESPONSE_SIZE - 1] == Crc8(f[..RESPONSE_SIZE - 1])
  {
    hide Crc8, SettingsWords, Words32;
    var f, words := SettingsFrame(r, counter, g), Words32(SettingsWords(r));
    var kind, rest := [0x01, counter], Gap(g, 181);
    var body := HEADER + (kind + (words + rest));
    assert Holds(f, 0, f);
    HoldsParts(f, 0, body, [Crc8(body)]);
    HoldsParts(f, 0, HEADER, kind + (words + rest));
    HoldsParts(f, 4, kind, words + rest);
    HoldsParts(f, 6, words, rest);
    assert f[..RESPONSE_SIZE - 1] == body;
  }

  /** A settings frame is valid and handled as the settings written into it. */
  lemma SettingsReadBack(r: RawSettings, l: Settings, counter: u8, g: nat -> u8)
    requires SettingsMean(r, l)
    ensures var f := SettingsFrame(r, counter, g); ValidFrame(f) && Handle(f) == Parsed(None, Some(l))
  {
    hide Holds, SettingsFrame, Words32, Le32, Crc8, StartsWithMagic, SettingsWords, Two.Value, Four.Value, Wrap16, Signed16;
    var f, ws := SettingsFrame(r, counter, g), SettingsWords(r);
    SettingsHold(r, counter, g);
    HoldsMagic(f);
    HoldsByte(f, 4, [0x01, counter], 0);
    SettingsInOrder(r);
    WordHolds(f, 6, ws, 1);
    WordHolds(f, 6, ws, 2);
    WordHolds(f, 6, ws, 3);
    WordHolds(f, 6, ws, 11);
    WordHolds(f, 6, ws, 14);
    WordHolds(f, 6, ws, 19);
    WordHolds(f, 6, ws, 21);
    WordHolds(f, 6, ws, 23);
    WordHolds(f, 6, ws, 27);
    LowBytes(r.uvp);
    LowBytes(r.uvpr);
    LowBytes(r.ovp);
    LowBytes(r.chargeOtp);
    LowBytes(r.dischargeOtp);
    LowBytes(r.chargeUtp);
    LowBytes(r.cellCount);
    assert SettingsPart(f) == l;
  }

  lemma LowBytes(x: Four)
    ensures Wrap16(x.Value()) == x.lo.Value() && x.Value() % 0x100 == x.lo.lo
  {
    hide Wrap16, Join16;
    LowHalf(x.lo.Value(), x.hi.Value());
    LowByteOf(x.lo.lo, x.lo.hi, x.hi.Value());
  }

  lemma LowHalf(lo: u16, hi: u16)
    ensures Wrap16(lo as int + hi * 0x1_0000) == lo
  {
  }

  lemma LowByteOf(lo: u8, hi: u8, half: u16)
    ensures (Join16(hi, lo) as int + half * 0x1_0000) % 0x100 == lo
  {
    assert Join16(hi, lo) as int + half * 0x1_0000 == lo + (hi as int + half * 0x100) * 0x100;
  }

  lemma SettingsInOrder(r: RawSettings)
    ensures var ws := SettingsWords(r);
      && |ws| == 28 && ws[1] == r.uvp && ws[2] == r.uvpr && ws[3] == r.ovp && ws[11] == r.maxCharge && ws[14] == r.maxDischarge
      && ws[19] == r.chargeOtp && ws[21] == r.dischargeOtp && ws[23] == r.chargeUtp && ws[27] == r.cellCount
  {
  }

  /** A cell frame is valid whatever is written into it. */
  lemma CellFrameIsValid(r: Raw, counter: u8, mask: Four, wide: bool, g: nat -> u8)
    ensures ValidFrame(CellFrame(r, counter, mask, wide, g)) && CellFrame(r, counter, mask, wide, g)[4] == FRAME_TYPE_CELL_INFO
  {
    hide HoldsCells, CellParts, Join, CellFrame, StartsWithMagic, Crc8;
    var f := CellFrame(r, counter, mask, wide, g);
    FrameHolds(r, counter, mask, wide, g);
    CellPartsHold(f, r, counter, mask, wide, g);
    HeaderRead(f, r.cells, counter, mask, wide);
  }
}
