/** Decoding the frames of a JK BMS, little-endian, in the layout of 24 or of 32 cell slots. */
module JkProtocol {
  import opened Bms
  import opened Bytes
  import opened JkAssembler
  import opened Wrappers

  const FRAME_TYPE_SETTINGS: u8 := 0x01
  const FRAME_TYPE_CELL_INFO: u8 := 0x02

  function Le16(f: seq<u8>, i: nat): u16
    requires i + 1 < |f|
  {
    Join16(f[i + 1], f[i])
  }

  function Le32(f: seq<u8>, i: nat): u32
    requires i + 3 < |f|
  {
    Le16(f, i) as int + Le16(f, i + 2) * 0x1_0000
  }

  function Signed32(x: u32): i32 {
    if x < 0x8000_0000 then x else x - 0x1_0000_0000
  }

  // ---- Which layout ------------------------------------------------------------

  /** The bitwise and. */
  function And(a: nat, b: nat): nat {
    if a == 0 || b == 0 then 0 else 2 * And(a / 2, b / 2) + if a % 2 == 1 && b % 2 == 1 then 1 else 0
  }

  function Pow2(n: nat): (p: nat)
    ensures p >= 1
  {
    if n == 0 then 1 else 2 * Pow2(n - 1)
  }

  predicate LooksLikeBitmask(v: u32) {
    v >= 0x0F && And(Wrap32(v as int + 1), v) == 0
  }

  lemma {:induction false} AndSelf(a: nat)
    ensures And(a, a) == a
  {
    if a > 0 {
      AndSelf(a / 2);
    }
  }

  ghost predicate RunOfOnes(v: nat) {
    exists n: nat :: v + 1 == Pow2(n)
  }

  lemma HalfRunOfOnes(v: nat)
    ensures v == 0 ==> RunOfOnes(v)
    ensures v > 0 ==> (RunOfOnes(v) <==> v % 2 == 1 && RunOfOnes(v / 2))
  {
    if v == 0 {
      assert v + 1 == Pow2(0);
    } else {
      if RunOfOnes(v) {
        var n: nat :| v + 1 == Pow2(n);
        assert n > 0 && Pow2(n) == 2 * Pow2(n - 1);
        assert v / 2 + 1 == Pow2(n - 1);
      }
      if v % 2 == 1 && RunOfOnes(v / 2) {
        var n: nat :| v / 2 + 1 == Pow2(n);
        assert v + 1 == Pow2(n + 1);
      }
    }
  }

  /** A number and its successor share no bit exactly if the number is a run of ones. */
  lemma {:induction false} NoCommonBit(v: nat)
    ensures And(v + 1, v) == 0 <==> RunOfOnes(v)
  {
    HalfRunOfOnes(v);
    if v > 0 {
      if v % 2 == 0 {
        AndSelf(v / 2);
        assert (v + 1) / 2 == v / 2;
      } else {
        NoCommonBit(v / 2);
        assert (v + 1) / 2 == v / 2 + 1;
      }
    }
  }

  /** The mask of enabled cells is recognised for every number of cells from 4 on, and nothing else is. */
  lemma BitmaskMeansCells(v: u32)
    ensures LooksLikeBitmask(v) <==> v >= 0x0F && RunOfOnes(v)
  {
    hide And, RunOfOnes;
    NoCommonBit(v);
    if v == 0xFFFF_FFFF {
      LargestIsRun(v);
    }
  }

  lemma LargestIsRun(v: nat)
    requires v == 0xFFFF_FFFF
    ensures RunOfOnes(v) && And(0, v) == 0
  {
    Pow32();
    assert v + 1 == Pow2(32);
  }

  lemma Pow32()
    ensures Pow2(32) == 0x1_0000_0000
  {
    assert Pow2(8) == 0x100;
    assert Pow2(16) == 0x1_0000;
    assert Pow2(24) == 0x100_0000;
  }

  // ---- Cell info ---------------------------------------------------------------

  /** The cell voltages from slot `i` on, up to the first that is zero. */
  function Cells(f: seq<u8>, i: nat, slots: nat): (vs: seq<u16>)
    requires i <= slots <= 32 && |f| >= RESPONSE_SIZE
    ensures |vs| <= slots - i
    decreases slots - i
  {
    if i == slots || Le16(f, 6 + 2 * i) == 0 then [] else [Le16(f, 6 + 2 * i)] + Cells(f, i + 1, slots)
  }

  function ZeroBased(i: u8): u8 {
    if i > 0 then i - 1 else 0
  }

  predicate Is32S(f: seq<u8>)
    requires |f| >= RESPONSE_SIZE
  {
    !LooksLikeBitmask(Le32(f, 54))
  }

  /** The resistances of the first `n` cells, from the table at `at`. */
  function Resistances(f: seq<u8>, at: nat, n: nat): (rs: seq<u16>)
    requires at + 2 * n <= |f|
    ensures |rs| == n
  {
    seq(n, i requires 0 <= i < n => Le16(f, at + 2 * i))
  }

  /** The fields that follow the cell voltages. */
  function CellFields(f: seq<u8>, voltages: seq<u16>, resistances: seq<u16>): CellInfo
    requires |f| >= RESPONSE_SIZE
  {
    var shift := if Is32S(f) then 16 else 0;
    CellInfo(voltages, resistances, Le16(f, 58 + shift), Le16(f, 60 + shift),
             ZeroBased(f[62 + shift]), ZeroBased(f[63 + shift]))
  }

  function CellPart(f: seq<u8>): CellInfo
    requires |f| >= RESPONSE_SIZE
  {
    var voltages := Cells(f, 0, if Is32S(f) then 32 else 24);
    CellFields(f, voltages, Resistances(f, if Is32S(f) then 80 else 64, |voltages|))
  }

  function PackPart(f: seq<u8>): PackInfo
    requires |f| >= RESPONSE_SIZE
  {
    PackFields(f, Is32S(f))
  }

  /** The pack's fields in the layout of 32 slots, if `wide`, or of 24. */
  function PackFields(f: seq<u8>, wide: bool): PackInfo
    requires |f| >= RESPONSE_SIZE
  {
    var shift := if wide then 32 else 0;
    PackInfo(
      Signed32(Le32(f, 118 + shift)), Signed32(Le32(f, 126 + shift)), f[141 + shift], Le32(f, 142 + shift),
      Le32(f, 146 + shift), Le32(f, 150 + shift), Signed16(Le16(f, 130 + shift)), Signed16(Le16(f, 132 + shift)),
      Signed16(Le16(f, if wide then 144 else 134)), f[166 + shift] != 0, f[167 + shift] != 0,
      f[140 + shift] != 0, Signed16(Le16(f, 138 + shift)), Le16(f, if wide then 166 else 136))
  }

  function CellInfoOf(f: seq<u8>): Option<Telemetry> {
    if |f| < RESPONSE_SIZE || !StartsWithMagic(f) || f[4] != FRAME_TYPE_CELL_INFO then None
    else Some(Telemetry(CellPart(f), PackPart(f)))
  }

  method ReadResistances(f: seq<u8>, at: nat, n: nat) returns (rs: seq<u16>)
    requires at + 2 * n <= |f|
    ensures rs == Resistances(f, at, n)
  {
    hide Le16;
    rs := [];
    for k := 0 to n
      invariant rs == Resistances(f, at, k)
    {
      rs := rs + [Le16(f, at + 2 * k)];
    }
  }

  method ParseCellInfo(f: seq<u8>) returns (t: Option<Telemetry>)
    ensures t == CellInfoOf(f)
  {
    hide LooksLikeBitmask, Le16, Le32, CellFields, PackPart, Resistances, Is32S;
    if |f| < RESPONSE_SIZE || !StartsWithMagic(f) || f[4] != FRAME_TYPE_CELL_INFO {
      return None;
    }
    var slots := if Is32S(f) then 32 else 24;
    var voltages := [];
    ghost var all := Cells(f, 0, slots);
    assert [] + all == all;
    var i := 0;
    while i < slots
      invariant i <= slots && all == voltages + Cells(f, i, slots)
    {
      var v := Le16(f, 6 + 2 * i);
      if v == 0 {
        break;
      }
      assert (voltages + [v]) + Cells(f, i + 1, slots) == voltages + ([v] + Cells(f, i + 1, slots));
      voltages := voltages + [v];
      i := i + 1;
    }
    assert voltages + [] == voltages;
    var at := if Is32S(f) then 80 else 64;
    var resistances := ReadResistances(f, at, |voltages|);
    t := Some(Telemetry(CellFields(f, voltages, resistances), PackPart(f)));
  }

  /** The cells are the slots before the first empty one: none of them is zero, and there are at most 24 or 32. */
  lemma {:induction false} CellsBeforeFirstEmpty(f: seq<u8>, i: nat, slots: nat)
    requires i <= slots <= 32 && |f| >= RESPONSE_SIZE
    ensures var vs := Cells(f, i, slots);
      && (forall k :: 0 <= k < |vs| ==> vs[k] == Le16(f, 6 + 2 * (i + k)) && vs[k] != 0)
      && (i + |vs| == slots || Le16(f, 6 + 2 * (i + |vs|)) == 0)
    decreases slots - i
  {
    hide Le16;
    if i < slots && Le16(f, 6 + 2 * i) != 0 {
      CellsBeforeFirstEmpty(f, i + 1, slots);
    }
  }

  /** A decoded frame has at most 32 cells, and at most 24 if its mask of enabled cells is recognised. */
  lemma CellCountIsBounded(f: seq<u8>)
    ensures var t := CellInfoOf(f);
      t.Some? ==> |t.value.cells.voltages| <= 32 && (LooksLikeBitmask(Le32(f, 54)) ==> |t.value.cells.voltages| <= 24)
  {
    hide LooksLikeBitmask, Le16, Le32, Cells;
  }

  // ---- Settings ----------------------------------------------------------------

  function SettingsPart(f: seq<u8>): Settings
    requires |f| >= RESPONSE_SIZE
  {
    Settings(
      Wrap16(Le32(f, 10)), Wrap16(Le32(f, 14)), Wrap16(Le32(f, 18)), Signed16(Wrap16(Le32(f, 82))),
      Signed16(Wrap16(Le32(f, 98))), Signed16(Wrap16(Le32(f, 90))), Le32(f, 50), Le32(f, 62), Le32(f, 114) % 0x100)
  }

  // ---- The driver --------------------------------------------------------------

  /** What a complete frame contributes; device information is only logged. */
  function Handle(f: seq<u8>): Parsed
    requires ValidFrame(f)
  {
    if f[4] == FRAME_TYPE_CELL_INFO then Parsed(CellInfoOf(f), None)
    else if f[4] == FRAME_TYPE_SETTINGS then Parsed(None, Some(SettingsPart(f)))
    else NOTHING
  }

  /** What a chunk contributes: the last of the frames it completes. */
  function FeedStep(received: seq<u8>, data: seq<u8>): Parsed {
    var before, after := |Scan(received).0|, |Scan(received + data).0|;
    if before < after then Handle(FrameAt(received + data, after - 1)) else NOTHING
  }

  class JkProtocol {
    const assembler: JkFrameAssembler

    /** Between calls no complete frame is left to take. */
    ghost predicate Valid()
      reads assembler
    {
      assembler.Valid() && assembler.seen == |Scan(assembler.received).0|
    }

    constructor ()
      ensures Valid() && fresh(assembler) && assembler.received == []
    {
      assembler := new JkFrameAssembler();
    }

    method Reset()
      modifies assembler
      ensures Valid() && assembler.received == []
    {
      assembler.Reset();
    }

    /** Only the last frame completed by the chunk counts; one is handled exactly if the chunk completes one. */
    method Feed(data: seq<u8>) returns (out: Parsed)
      requires Valid()
      modifies assembler
      ensures Valid() && assembler.received == old(assembler.received) + data
      ensures out == FeedStep(old(assembler.received), data)
    {
      hide Scan, ValidFrame, CellInfoOf, SettingsPart;
      out := NOTHING;
      LaterFrames(assembler.received, data);
      assembler.PushChunk(data);
      while true
        invariant assembler.Valid() && assembler.received == old(assembler.received) + data
        invariant old(assembler.seen) <= assembler.seen <= |Scan(assembler.received).0|
        invariant assembler.seen == old(assembler.seen) ==> out == NOTHING
        invariant assembler.seen > old(assembler.seen) ==>
          var f := LastFrame(assembler.received);
          assembler.seen == |Scan(assembler.received).0| && f.Some? && ValidFrame(f.value) && out == Handle(f.value)
        decreases |Scan(assembler.received).0| - assembler.seen
      {
        var frame := assembler.TakeCompleteFrame();
        if frame == None {
          break;
        }
        var f := frame.value;
        SizeOfFrame(f);
        if f[4] == FRAME_TYPE_CELL_INFO {
          var t := ParseCellInfo(f);
          out := Parsed(t, None);
        } else if f[4] == FRAME_TYPE_SETTINGS {
          out := Parsed(None, Some(SettingsPart(f)));
        }
      }
      if assembler.seen > old(assembler.seen) {
        LastFrameIsAt(assembler.received);
      }
    }
  }

  // ---- Chunks --------------------------------------------------------------------

  function Concat(chunks: seq<seq<u8>>): seq<u8> {
    if chunks == [] then [] else chunks[0] + Concat(chunks[1..])
  }

  /** Feeding the chunks one by one; the results together, later ones first. */
  function FeedAll(received: seq<u8>, chunks: seq<seq<u8>>): Parsed
    decreases |chunks|
  {
    if chunks == [] then NOTHING
    else Merge(FeedStep(received, chunks[0]), FeedAll(received + chunks[0], chunks[1..]))
  }

  /** What the frames from the k-th on contribute together. */
  function HandleFrom(received: seq<u8>, k: nat): Parsed
    requires k <= |Scan(received).0|
    decreases |Scan(received).0| - k
  {
    if k == |Scan(received).0| then NOTHING
    else Merge(Handle(FrameAt(received, k)), HandleFrom(received, k + 1))
  }

  /** In chunks of at most 300 bytes every completed frame is handled: none is skipped, whatever is received. */
  lemma {:induction false} ShortChunksSkipNothing(received: seq<u8>, chunks: seq<seq<u8>>)
    requires forall i :: 0 <= i < |chunks| ==> |chunks[i]| <= RESPONSE_SIZE
    ensures |Scan(received).0| <= |Scan(received + Concat(chunks)).0|
    ensures FeedAll(received, chunks) == HandleFrom(received + Concat(chunks), |Scan(received).0|)
    decreases |chunks|
  {
    hide Scan, Handle, Merge, FrameAt, ValidFrame;
    if chunks == [] {
      assert received + Concat(chunks) == received;
    } else {
      var next, k := received + chunks[0], |Scan(received).0|;
      assert received + Concat(chunks) == next + Concat(chunks[1..]);
      ShortChunkCompletesOne(received, chunks[0]);
      ShortChunksSkipNothing(next, chunks[1..]);
      if |Scan(next).0| > k {
        FrameStays(next, Concat(chunks[1..]), k);
      } else {
        MergeNothing(HandleFrom(next + Concat(chunks[1..]), k));
      }
    }
  }

  lemma MergeNothing(p: Parsed)
    ensures Merge(NOTHING, p) == p
  {
  }

  /** A longer chunk can lose a frame: telemetry is lost when a settings frame follows it in one chunk. */
  lemma LongChunkLosesTelemetry(received: seq<u8>, f: seq<u8>, g: seq<u8>)
    requires Scan(received).1 == [] && ValidFrame(f) && ValidFrame(g)
    requires f[4] == FRAME_TYPE_CELL_INFO && g[4] == FRAME_TYPE_SETTINGS
    ensures FeedStep(received, f + g) == Handle(g) && Handle(g).telemetry == None
    ensures FeedAll(received, [f, g]) == Parsed(Handle(f).telemetry, Handle(g).settings)
    ensures Handle(f).telemetry.Some? && Handle(g).settings.Some?
  {
    hide Scan, SettingsPart, CellPart, PackPart, Crc8, FrameAt;
    FrameIsCompleted(received, f);
    FrameIsCompleted(received + f, g);
    assert received + (f + g) == received + f + g;
    FrameCompletedLast(received, f);
    FrameCompletedLast(received + f, g);
    assert [f, g][1..] == [g] && [g][1..] == [];
    assert FeedAll(received + f, [g]) == Merge(FeedStep(received + f, g), FeedAll(received + f + g, []));
  }

  /** There are such frames: for every type byte some frame is valid. */
  lemma SomeFrameIsValid(t: u8)
    ensures exists f :: ValidFrame(f) && f[4] == t
  {
    hide Crc8;
    var head := MAGIC + [t] + seq(RESPONSE_SIZE - 6, i => 0);
    var f := head + [Crc8(head)];
    assert f[..RESPONSE_SIZE - 1] == head;
    assert ValidFrame(f) && f[4] == t;
  }

  lemma FrameCompletedLast(received: seq<u8>, f: seq<u8>)
    requires Scan(received).1 == [] && ValidFrame(f)
    ensures |Scan(received + f).0| == |Scan(received).0| + 1
    ensures FrameAt(received + f, |Scan(received).0|) == f
  {
    hide Scan, ValidFrame;
    FrameIsCompleted(received, f);
    SizeOfFrame(f);
    assert (received + f)[|received|..|received| + RESPONSE_SIZE] == f;
  }
}
