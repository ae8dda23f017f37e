/** The bridge as slave: it answers the polls of the inverter, one module address at a time. */
module Inverter {
  import opened AddressMap
  import opened Advertising
  import Arith
  import opened Bms
  import opened Bytes
  import opened Capacity
  import opened Config
  import opened Framing
  import opened FrameRoundTrip
  import opened FrameStream
  import JkAssembler
  import JkProtocol
  import opened Payload
  import PylontechMaster
  import opened Replies
  import opened Wrappers

  const RX_LIMIT := 4096
  const BASE_ADDRESS := 2
  /** The longest piece the UART hands over at once. */
  const UART_READ := 512

  /** The answer to a request. `ready` holds the batteries with fresh and complete telemetry. */
  function Serve(slots: seq<Slot>, ready: map<string, Snapshot>, f: Frame): Answer {
    if f.adr < BASE_ADDRESS || f.adr - BASE_ADDRESS >= |slots| then Silence
    else
      var slot := slots[f.adr - BASE_ADDRESS];
      if Source(slot).name !in ready then Silence
      else AnswerTo(f, ModuleView(slot, ready[Source(slot).name]))
  }

  /** The telemetry at the time of each request, counted from the first one on. */
  type Snapshots = nat -> map<string, Snapshot>

  /** What is sent for the requests in turn, after `k` earlier ones, and whether the program ends on the way. */
  function ServeAll(slots: seq<Slot>, ready: Snapshots, k: nat, frames: seq<Frame>): (seq<seq<u8>>, bool)
    decreases |frames|
  {
    if frames == [] then ([], false)
    else
      match Serve(slots, ready(k), frames[0])
      case Fault => ([], true)
      case Silence => ServeAll(slots, ready, k + 1, frames[1..])
      case Reply(r) =>
        var (sent, fault) := ServeAll(slots, ready, k + 1, frames[1..]);
        ([Build(r)] + sent, fault)
  }

  /** Received bytes join the buffer, unless that would overflow: then the buffer is dropped first. */
  function Accumulate(rx: seq<u8>, data: seq<u8>): seq<u8> {
    if |rx| + |data| > RX_LIMIT then data else rx + data
  }

  /** The requests found in bytes that arrive in several calls, and what is left of them. */
  function Buffered(rx: seq<u8>, chunks: seq<seq<u8>>): (seq<Frame>, seq<u8>)
    decreases |chunks|
  {
    if chunks == [] then ([], rx)
    else
      var (f, r) := Extract(Accumulate(rx, chunks[0]));
      var (g, q) := Buffered(r, chunks[1..]);
      (f + g, q)
  }

  /** The telemetry from the k-th request on. */
  function From(ready: Snapshots, k: nat): Snapshots {
    (i: nat) => ready(k + i)
  }

  /** What several calls send in turn; each starts with the request after those of the calls before. */
  function Calls(slots: seq<Slot>, ready: Snapshots, rx: seq<u8>, chunks: seq<seq<u8>>): (seq<seq<u8>>, bool)
    decreases |chunks|
  {
    if chunks == [] then ([], false)
    else
      var (f, r) := Extract(Accumulate(rx, chunks[0]));
      var (sent, fault) := ServeAll(slots, ready, 0, f);
      if fault then (sent, true)
      else
        var (more, end) := Calls(slots, From(ready, |f|), r, chunks[1..]);
        (sent + more, end)
  }

  class Inverter {
    const slots: seq<Slot>
    var rx: seq<u8>

    constructor (batteries: seq<Battery>)
      ensures slots == Slots(batteries, |batteries|) && rx == []
    {
      rx := [];
      var blocks := BuildAddressMap(batteries);
      slots := blocks;
    }

    /** `ready` gives the telemetry at each request handled by this call. */
    method OnBytes(data: seq<u8>, ready: Snapshots) returns (sent: seq<seq<u8>>, fault: bool)
      modifies this
      ensures (sent, fault) == ServeAll(slots, ready, 0, Extract(Accumulate(old(rx), data)).0)
      ensures !fault ==> rx == Extract(Accumulate(old(rx), data)).1
    {
      if |rx| + |data| > RX_LIMIT {
        rx := [];
      }
      assert [] + data == data;
      rx := rx + data;
      sent, fault := ProcessBuffer(ready);
    }

    method ProcessBuffer(ready: Snapshots) returns (sent: seq<seq<u8>>, fault: bool)
      modifies this
      ensures (sent, fault) == ServeAll(slots, ready, 0, Extract(old(rx)).0)
      ensures !fault ==> rx == Extract(old(rx)).1
    {
      hide Extract, Parse, Build, AnswerTo;
      sent := [];
      ghost var all := ServeAll(slots, ready, 0, Extract(rx).0);
      assert [] + all.0 == all.0;
      var k := 0;
      while rx != []
        invariant Extract(rx).1 == Extract(old(rx)).1
        invariant var (more, fault) := ServeAll(slots, ready, k, Extract(rx).0); all == (sent + more, fault)
        decreases |rx|
      {
        ExtractStep(rx);
        var n, f := TryParsePylontech(rx);
        if n == 0 {
          assert sent + [] == sent;
          return sent, false;
        }
        if n < 0 {
          var drop := if 0 - n > |rx| then |rx| else 0 - n;
          rx := rx[drop..];
          continue;
        }
        ghost var rest := Extract(rx[n..]).0;
        assert ([f.value] + rest)[1..] == rest;
        rx := rx[n..];
        var now := ready(k);
        k := k + 1;
        if f.value.adr < BASE_ADDRESS || f.value.adr - BASE_ADDRESS >= |slots| {
          continue;
        }
        var slot := slots[f.value.adr - BASE_ADDRESS];
        if Source(slot).name !in now {
          continue;
        }
        var bytes, end := Replies.Respond(f.value, ModuleView(slot, now[Source(slot).name]));
        if end {
          assert sent + [] == sent;
          return sent, true;
        }
        if bytes.Some? {
          ghost var more := ServeAll(slots, ready, k, rest).0;
          assert (sent + [bytes.value]) + more == sent + ([bytes.value] + more);
          sent := sent + [bytes.value];
        }
      }
      ExtractStep(rx);
      assert sent + [] == sent;
      fault := false;
    }
  }

  // ---- The buffer --------------------------------------------------------------

  /** What the buffer holds between calls: nothing, or the beginning of a frame. */
  predicate AwaitsFrame(rx: seq<u8>) {
    rx == [] || (rx[0] == SOI && EOI !in rx && |rx| <= RX_LIMIT)
  }

  lemma BufferAwaitsFrame(rx: seq<u8>, data: seq<u8>)
    ensures AwaitsFrame(Extract(Accumulate(rx, data)).1)
  {
    ResidueAwaitsFrame(Accumulate(rx, data));
  }

  /**
   A request that arrives while the beginning of another one is in the buffer is lost, unless the
   buffer overflows; in any case the buffer is empty afterwards, and the next request is found.
   */
  lemma ResynchronisesAfterOneFrame(rx: seq<u8>, f: Frame, next: Frame)
    requires AwaitsFrame(rx)
    ensures Extract(Accumulate(rx, Build(f))) ==
            (if rx == [] || |rx| + |Build(f)| > RX_LIMIT then [f] else [], [])
    ensures Extract(Accumulate([], Build(next))) == ([next], [])
  {
    hide Extract, Build;
    AloneIsFound(f);
    AloneIsFound(next);
    assert [] + Build(f) == Build(f) && [] + Build(next) == Build(next);
    if rx != [] && |rx| + |Build(f)| <= RX_LIMIT {
      BrokenFrameIsDropped(rx, f);
    }
  }

  /** The beginning of a frame followed by a whole one: no frame, as SOI is not a digit. */
  lemma BrokenFrameIsDropped(rx: seq<u8>, f: Frame)
    requires AwaitsFrame(rx) && rx != []
    ensures Extract(rx + Build(f)) == ([], [])
  {
    hide Build, BodyOf, ParseBody;
    BuildShape(f);
    var buf, end := rx + Build(f), |rx| + |Build(f)| - 1;
    forall i | 1 <= i < end ensures buf[i] != EOI {
      if i < |rx| {
        assert rx[i] in rx;
      } else if i > |rx| {
        assert buf[i] == BodyOf(f)[i - |rx| - 1];
      }
    }
    assert buf[end] == EOI && buf[0] == SOI;
    FindIs(buf, EOI, 1, end);
    var body := buf[1..end];
    assert body[|rx| - 1] == SOI;
    NoDigitNoFrame(body, |rx| - 1);
    assert Parse(buf) == Drop(end + 1) && buf[end + 1..] == [];
    NothingExtracted();
  }

  lemma NoDigitNoFrame(body: seq<u8>, k: nat)
    requires k < |body| && body[k] == SOI
    ensures ParseBody(body) == None
  {
    if |body| >= MIN_BODY_LEN && |body| % 2 == 0 {
      DecodePairs(body, |body| / 2);
      assert PairAt(body, k / 2) == None;
    }
  }

  // ---- Serving -----------------------------------------------------------------

  lemma {:induction false} ServeInTwo(slots: seq<Slot>, ready: Snapshots, k: nat, f: seq<Frame>, g: seq<Frame>)
    ensures var (sent, fault) := ServeAll(slots, ready, k, f); var (more, end) := ServeAll(slots, ready, k + |f|, g);
      ServeAll(slots, ready, k, f + g) == if fault then (sent, true) else (sent + more, end)
    decreases |f|
  {
    hide Serve, Build;
    if f == [] {
      assert f + g == g && [] + ServeAll(slots, ready, k, g).0 == ServeAll(slots, ready, k, g).0;
    } else {
      assert (f + g)[1..] == f[1..] + g && (f + g)[0] == f[0];
      ServeInTwo(slots, ready, k + 1, f[1..], g);
      var answer := Serve(slots, ready(k), f[0]);
      if answer.Reply? {
        var first, sent, more := [Build(answer.frame)], ServeAll(slots, ready, k + 1, f[1..]).0, ServeAll(slots, ready, k + |f|, g).0;
        assert first + (sent + more) == (first + sent) + more;
      }
    }
  }

  /** Counting requests from a later one on is the same as starting with its telemetry. */
  lemma {:induction false} LaterRequests(slots: seq<Slot>, ready: Snapshots, later: Snapshots, k: nat, m: nat, frames: seq<Frame>)
    requires forall i: nat :: later(i) == ready(k + i)
    ensures ServeAll(slots, ready, k + m, frames) == ServeAll(slots, later, m, frames)
    decreases |frames|
  {
    hide Serve, Build;
    if frames != [] {
      LaterRequests(slots, ready, later, k, m + 1, frames[1..]);
    }
  }

  /** Call by call, the requests are answered like the same requests in one go. */
  lemma {:induction false} CallsServeAll(slots: seq<Slot>, ready: Snapshots, rx: seq<u8>, chunks: seq<seq<u8>>)
    ensures Calls(slots, ready, rx, chunks) == ServeAll(slots, ready, 0, Buffered(rx, chunks).0)
    decreases |chunks|
  {
    hide Extract, ServeAll, Accumulate;
    if chunks == [] {
      NobodyServed(slots, ready);
    } else {
      var (f, r) := Extract(Accumulate(rx, chunks[0]));
      var g := Buffered(r, chunks[1..]).0;
      ServeInTwo(slots, ready, 0, f, g);
      LaterRequests(slots, ready, From(ready, |f|), |f|, 0, g);
      CallsServeAll(slots, From(ready, |f|), r, chunks[1..]);
    }
  }

  lemma NobodyServed(slots: seq<Slot>, ready: Snapshots)
    ensures ServeAll(slots, ready, 0, []) == ([], false)
  {
  }

  lemma {:induction false} WithoutOverflow(rx: seq<u8>, chunks: seq<seq<u8>>)
    requires FitsBuffer(rx, chunks)
    ensures Buffered(rx, chunks) == Receive(rx, chunks)
    decreases |chunks|
  {
    hide Extract;
    if chunks != [] {
      WithoutOverflow(Extract(rx + chunks[0]).1, chunks[1..]);
    }
  }

  /** Without an overflow, requests in any pieces are answered like requests that arrive at once. */
  lemma PiecesAreServedAlike(slots: seq<Slot>, ready: Snapshots, rx: seq<u8>, chunks: seq<seq<u8>>)
    requires AwaitsFrame(rx) && FitsBuffer(rx, chunks)
    ensures Calls(slots, ready, rx, chunks) == ServeAll(slots, ready, 0, Extract(rx + Concat(chunks)).0)
    ensures Buffered(rx, chunks).1 == Extract(rx + Concat(chunks)).1
  {
    hide Extract, ServeAll;
    CallsServeAll(slots, ready, rx, chunks);
    WithoutOverflow(rx, chunks);
    BeginningWaits(rx);
    FittingChunksAreIrrelevant(rx, chunks);
  }

  /** Requests of up to 3585 bytes, between noise, are all answered however the UART delivers them. */
  lemma UartReadsAreServedAlike(slots: seq<Slot>, ready: Snapshots, items: seq<Item>, tail: seq<u8>, pieces: seq<seq<u8>>)
    requires Quiet(items, tail) && Concat(pieces) == Wire(items, tail)
    requires forall i :: 0 <= i < |items| ==> |Build(items[i].frame)| <= RX_LIMIT - UART_READ + 1
    requires forall i :: 0 <= i < |pieces| ==> |pieces[i]| <= UART_READ
    ensures Calls(slots, ready, [], pieces) == ServeAll(slots, ready, 0, Frames(items))
    ensures Buffered([], pieces).1 == []
  {
    hide Build, Extract, ServeAll, Bounded, Wire;
    WireIsBounded(items, tail, RX_LIMIT - UART_READ);
    NothingExtracted();
    assert [] + Concat(pieces) == Concat(pieces);
    ShortChunksFit([], pieces, RX_LIMIT - UART_READ);
    PiecesAreServedAlike(slots, ready, [], pieces);
    BuiltFramesComeOut(items, tail);
  }

  // ---- Regaining the frames ------------------------------------------------------

  predicate EndsFrame(s: seq<u8>)
    requires s != []
  {
    s[|s| - 1] == EOI
  }

  /** Data that ends in EOI empties the buffer, whatever that held, as no frame can begin behind it. */
  lemma EndEmptiesBuffer(rx: seq<u8>, data: seq<u8>)
    requires if data == [] then rx == [] else EndsFrame(data)
    ensures Extract(Accumulate(rx, data)).1 == []
  {
    hide Extract;
    var x := Accumulate(rx, data);
    ResidueAwaitsFrame(x);
    if Extract(x).1 != [] {
      EndsAlike(x, Extract(x).1);
    }
  }

  lemma EndsAlike(x: seq<u8>, r: seq<u8>)
    requires r != [] && |r| <= |x| && r == x[|x| - |r|..]
    ensures r[|r| - 1] == x[|x| - 1]
  {
  }

  /** So do bytes in any pieces, whether the buffer overflows on the way or not. */
  lemma {:induction false} EndEmptiesBufferInPieces(rx: seq<u8>, chunks: seq<seq<u8>>)
    requires if Concat(chunks) == [] then rx == [] else EndsFrame(Concat(chunks))
    ensures Buffered(rx, chunks).1 == []
    decreases |chunks|
  {
    hide Extract, Accumulate;
    if chunks != [] {
      if Concat(chunks[1..]) == [] {
        assert chunks[0] + [] == chunks[0];
        EndEmptiesBuffer(rx, chunks[0]);
      }
      EndEmptiesBufferInPieces(Extract(Accumulate(rx, chunks[0])).1, chunks[1..]);
    }
  }

  lemma {:induction false} BufferedInTwo(rx: seq<u8>, a: seq<seq<u8>>, b: seq<seq<u8>>)
    ensures var (f, r) := Buffered(rx, a); var (g, q) := Buffered(r, b); Buffered(rx, a + b) == (f + g, q)
    decreases |a|
  {
    hide Extract, Accumulate;
    if a == [] {
      assert a + b == b && [] + Buffered(rx, b).0 == Buffered(rx, b).0;
    } else {
      var (f, r) := Extract(Accumulate(rx, a[0]));
      assert (a + b)[0] == a[0] && (a + b)[1..] == a[1..] + b;
      BufferedInTwo(r, a[1..], b);
      var (g, q) := Buffered(r, a[1..]);
      assert f + (g + Buffered(q, b).0) == (f + g) + Buffered(q, b).0;
    }
  }

  lemma {:induction false} ShortStreamFits(rx: seq<u8>, chunks: seq<seq<u8>>)
    requires |rx| + |Concat(chunks)| <= RX_LIMIT
    ensures FitsBuffer(rx, chunks)
    decreases |chunks|
  {
    hide Extract;
    if chunks != [] {
      ResidueAwaitsFrame(rx + chunks[0]);
      ShortStreamFits(Extract(rx + chunks[0]).1, chunks[1..]);
    }
  }

  /**
   Requests in pieces. One that arrives behind the beginning of another is lost unless the buffer
   overflows; in any case the next one of at most 4096 bytes is found.
   */
  lemma ResynchronisesInPieces(rx: seq<u8>, f: Frame, pieces: seq<seq<u8>>, next: Frame, more: seq<seq<u8>>)
    requires AwaitsFrame(rx) && Concat(pieces) == Build(f) && Concat(more) == Build(next) && |Build(next)| <= RX_LIMIT
    ensures FitsBuffer(rx, pieces) ==> Buffered(rx, pieces).0 == if rx == [] then [f] else []
    ensures Buffered(rx, pieces + more) == (Buffered(rx, pieces).0 + [next], [])
  {
    hide Extract, Build, FitsBuffer, Buffered, Concat;
    if FitsBuffer(rx, pieces) {
      WithoutOverflow(rx, pieces);
      BeginningWaits(rx);
      FittingChunksAreIrrelevant(rx, pieces);
      if rx == [] { OnlyRequest(f, pieces); } else { BrokenFrameIsDropped(rx, f); }
    }
    BuildShape(f);
    EndEmptiesBufferInPieces(rx, pieces);
    BufferedInTwo(rx, pieces, more);
    OnlyRequest(next, more);
  }

  /** A request in an empty buffer is found in any pieces that fit. */
  lemma OnlyRequest(f: Frame, pieces: seq<seq<u8>>)
    requires Concat(pieces) == Build(f) && (FitsBuffer([], pieces) || |Build(f)| <= RX_LIMIT)
    ensures Buffered([], pieces) == ([f], [])
  {
    hide Extract, Build, FitsBuffer, Buffered, Concat;
    if |Build(f)| <= RX_LIMIT { ShortStreamFits([], pieces); }
    WithoutOverflow([], pieces);
    NothingExtracted();
    FittingChunksAreIrrelevant([], pieces);
    assert [] + Build(f) == Build(f);
    AloneIsFound(f);
  }

  /**
   Which requests are answered, or end the program: the four commands, at an address of a module,
   from 2 on, whose source has fresh telemetry.
   */
  lemma AnsweredRequests(slots: seq<Slot>, ready: map<string, Snapshot>, f: Frame)
    ensures Serve(slots, ready, f) != Silence <==>
      && 2 <= f.adr < 2 + |slots| && Source(slots[f.adr - 2]).name in ready
      && (f.cid2 == 0x42 || f.cid2 == 0x44 || f.cid2 == 0x47 || f.cid2 == 0x92)
  {
    hide Source, ModuleView;
  }

  /** An analog answer shows the cells, temperatures, voltage and cycles of the module's source as they are. */
  lemma SourceOnTheWire(slots: seq<Slot>, ready: map<string, Snapshot>, f: Frame)
    requires 2 <= f.adr < 2 + |slots| && Source(slots[f.adr - 2]).name in ready && f.cid2 == 0x42
    requires var s := ready[Source(slots[f.adr - 2]).name];
      |s.cells.voltages| <= 255 && 0 <= s.pack.voltage <= 0xFFFF && s.pack.cycles <= 0xFFFF
      && ModuleView(slots[f.adr - 2], s).pack.total < WRAPS_FROM
    ensures var a := Serve(slots, ready, f); a.Reply? && DecodeAnalog(a.frame.info).Some?
    ensures var s := ready[Source(slots[f.adr - 2]).name];
      var t := PylontechMaster.TelemetryOf(DecodeAnalog(Serve(slots, ready, f).frame.info).value);
      && t.cells.voltages == s.cells.voltages && t.pack.voltage == s.pack.voltage && t.pack.cycles == s.pack.cycles
      && t.pack.temp1 == s.pack.temp1 && t.pack.temp2 == s.pack.temp2 && t.pack.tubeTemp == s.pack.tubeTemp
  {
    hide ModuleView, Source, DecodeAnalog, AnswerTo, PylontechMaster.TelemetryOf;
    var slot := slots[f.adr - 2];
    var s := ready[Source(slot).name];
    ViewKeepsReadings(slot, s);
    ReadingsOnTheWire(f, ModuleView(slot, s));
  }

  lemma ReadingsOnTheWire(f: Frame, s: Snapshot)
    requires f.cid2 == 0x42 && |s.cells.voltages| <= 255 && 0 <= s.pack.voltage <= 0xFFFF && s.pack.cycles <= 0xFFFF
    requires s.pack.total < WRAPS_FROM
    ensures var a := AnswerTo(f, s); a.Reply? && DecodeAnalog(a.frame.info).Some?
    ensures var t := PylontechMaster.TelemetryOf(DecodeAnalog(AnswerTo(f, s).frame.info).value);
      && t.cells.voltages == s.cells.voltages && t.pack.voltage == s.pack.voltage && t.pack.cycles == s.pack.cycles
      && t.pack.temp1 == s.pack.temp1 && t.pack.temp2 == s.pack.temp2 && t.pack.tubeTemp == s.pack.tubeTemp
  {
    VoltagesOfStats(s.cells.voltages);
    hide DecodeAnalog, AnswerTo, PylontechMaster.CellStats, PylontechMaster.TelemetryOf, ScaleCapacity, PylontechMaster.IsPercentage, InTenths;
    AnalogAnswerReadsBack(f, s);
  }

  lemma VoltagesOfStats(v: seq<u16>)
    ensures PylontechMaster.CellStats(v).voltages == v
  {
  }

  lemma ViewKeepsReadings(slot: Slot, s: Snapshot)
    ensures var v := ModuleView(slot, s);
      && v.cells == s.cells && v.pack.voltage == s.pack.voltage && v.pack.cycles == s.pack.cycles
      && v.pack.temp1 == s.pack.temp1 && v.pack.temp2 == s.pack.temp2 && v.pack.tubeTemp == s.pack.tubeTemp
  {
  }

  /** The program ends exactly on an analog request for an undivided battery whose total is among the last 64999 values. */
  lemma OnlyHugePacksFault(bs: seq<Battery>, ready: map<string, Snapshot>, f: Frame)
    ensures var slots := Slots(bs, |bs|);
      Serve(slots, ready, f) == Fault <==>
      && f.cid2 == GET_ANALOG && BASE_ADDRESS <= f.adr < BASE_ADDRESS + |slots|
      && var slot := slots[f.adr - BASE_ADDRESS];
         slot.mirror == None && slot.modules == 1 && slot.battery.name in ready
         && ready[slot.battery.name].pack.total >= WRAPS_FROM
  {
    hide AnswerTo, Slots, Sliced, ForReserve, Source;
    var slots := Slots(bs, |bs|);
    if BASE_ADDRESS <= f.adr < BASE_ADDRESS + |slots| {
      var slot := slots[f.adr - BASE_ADDRESS];
      SlotCapacity(bs, f.adr - BASE_ADDRESS);
      SourceCases(slot);
      if Source(slot).name in ready {
        FaultsExactly(f, ModuleView(slot, ready[Source(slot).name]));
        ViewTotal(slot, ready[Source(slot).name]);
      }
    }
  }

  lemma SourceCases(slot: Slot)
    ensures slot.mirror == None ==> Source(slot) == slot.battery
  {
  }

  lemma SlotCapacity(bs: seq<Battery>, j: nat)
    requires j < |Slots(bs, |bs|)|
    ensures CapacityMah(Slots(bs, |bs|)[j].battery) < WRAPS_FROM
  {
    hide Slots, CapacityMah, ModuleCount, MirrorOf;
    var i := EveryAddressHasOwner(bs, |bs|, j);
    BlocksInOrder(bs, i);
    SharesFit(CapacityMah(bs[i]));
  }

  lemma ViewTotal(slot: Slot, s: Snapshot)
    requires CapacityMah(slot.battery) < WRAPS_FROM
    ensures ModuleView(slot, s).pack.total >= WRAPS_FROM <==> slot.mirror == None && slot.modules == 1 && s.pack.total >= WRAPS_FROM
  {
    hide Share;
    ShareOfHuge(if slot.mirror.Some? then CapacityMah(slot.battery) else s.pack.total, slot.modules);
  }

  lemma ShareOfHuge(total: u32, n: Count)
    ensures Share(total, n) >= WRAPS_FROM <==> n == 1 && total >= WRAPS_FROM
  {
    if n > 1 {
      Arith.MulMonotone(WRAPS_FROM - 1, 2, n);
      Arith.DivBetween(total, n, 0, WRAPS_FROM - 1);
    }
  }

  /** The limits and the current in the answers are the ones the sums over all modules are about. */
  lemma AdvertisedIsOnTheWire(slots: seq<Slot>, ready: map<string, Snapshot>, f: Frame)
    requires BASE_ADDRESS <= f.adr < BASE_ADDRESS + |slots| && Source(slots[f.adr - BASE_ADDRESS]).name in ready
    ensures var slot := slots[f.adr - BASE_ADDRESS];
      f.cid2 == GET_SYSTEM ==>
        var a := Serve(slots, ready, f);
        && a.Reply? && DecodeSystem(a.frame.info).Some?
        && DecodeSystem(a.frame.info).value.chargeCurrent as int * 100 == AdvertisedBy(ready, Charging, slot)
        && (0 - DecodeSystem(a.frame.info).value.dischargeCurrent as int) * 100 == AdvertisedBy(ready, Discharging, slot)
    ensures var slot := slots[f.adr - BASE_ADDRESS]; var s := ModuleView(slot, ready[Source(slot).name]);
      f.cid2 == GET_ANALOG && s.pack.total < WRAPS_FROM && |s.cells.voltages| <= 255 ==>
        var a := Serve(slots, ready, f);
        && a.Reply? && DecodeAnalog(a.frame.info).Some?
        && DecodeAnalog(a.frame.info).value.current as int * 100 == ShownBy(ready, 1, slot)
  {
    hide ModuleView, AnswerTo, DecodeSystem, DecodeAnalog, AdvertisedBy, ShownBy;
    var slot := slots[f.adr - BASE_ADDRESS];
    var s := ready[Source(slot).name];
    if f.cid2 == GET_SYSTEM {
      LimitsOnTheWire(ready, slot, f);
    } else if f.cid2 == GET_ANALOG && ModuleView(slot, s).pack.total < WRAPS_FROM && |ModuleView(slot, s).cells.voltages| <= 255 {
      CurrentOnTheWire(ready, slot, f);
    }
  }

  lemma LimitsOnTheWire(ready: map<string, Snapshot>, slot: Slot, f: Frame)
    requires Source(slot).name in ready && f.cid2 == GET_SYSTEM
    ensures var a := AnswerTo(f, ModuleView(slot, ready[Source(slot).name]));
      && a.Reply? && DecodeSystem(a.frame.info).Some?
      && DecodeSystem(a.frame.info).value.chargeCurrent as int * 100 == AdvertisedBy(ready, Charging, slot)
      && (0 - DecodeSystem(a.frame.info).value.dischargeCurrent as int) * 100 == AdvertisedBy(ready, Discharging, slot)
  {
    hide ModuleView, DecodeSystem, ChargeField, DischargeField, EncodeSystem;
    SystemAnswerReadsBack(f, ModuleView(slot, ready[Source(slot).name]), 0);
  }

  lemma CurrentOnTheWire(ready: map<string, Snapshot>, slot: Slot, f: Frame)
    requires Source(slot).name in ready && f.cid2 == GET_ANALOG
    requires var s := ModuleView(slot, ready[Source(slot).name]); s.pack.total < WRAPS_FROM && |s.cells.voltages| <= 255
    ensures var a := AnswerTo(f, ModuleView(slot, ready[Source(slot).name]));
      && a.Reply? && DecodeAnalog(a.frame.info).Some?
      && DecodeAnalog(a.frame.info).value.current as int * 100 == ShownBy(ready, 1, slot)
  {
    hide ModuleView, DecodeAnalog, CurrentField, EncodeAnalog;
    AnalogAnswerReadsBack(f, ModuleView(slot, ready[Source(slot).name]));
  }

  /** What a module answers about its charge is in order, and fits the fields without wrapping. */
  lemma ChargeOnTheWireIsInOrder(slot: Slot, s: Snapshot)
    requires s.pack.remaining <= s.pack.total && s.pack.soc <= 100 && ModuleView(slot, s).pack.total < WRAPS_FROM
    ensures var p := ModuleView(slot, s).pack; var c := ScaleCapacity(p.total, p.remaining).value;
      && c.remain <= c.total <= CAPACITY_MAX
      && (p.total > 0 ==> RatioWithin(p.total, p.remaining, c))
  {
    hide ModuleView, ScaleCapacity, RatioWithin;
    SlicedChargeStaysInOrder(slot, s);
    ScalingKeepsCharge(ModuleView(slot, s).pack.total, ModuleView(slot, s).pack.remaining);
  }

  // ---- Telemetry as received -----------------------------------------------------

  /** Telemetry that one of the two battery protocols has decoded from anything it was fed. */
  ghost predicate Received(t: Telemetry) {
    || (exists adr, count, frames :: FromPylontech(t, adr, count, frames))
    || (exists f :: FromJk(t, f))
  }

  predicate FromPylontech(t: Telemetry, adr: u8, count: u8, frames: seq<Frame>) {
    PylontechMaster.AbsorbAll(adr, count, frames).1.telemetry == Some(t)
  }

  predicate FromJk(t: Telemetry, f: seq<u8>) {
    JkAssembler.ValidFrame(f) && JkProtocol.Handle(f).telemetry == Some(t)
  }

  lemma ReceivedCellsFit(t: Telemetry)
    requires Received(t)
    ensures |t.cells.voltages| <= 255
  {
    if f: seq<u8> :| FromJk(t, f) {
      JkProtocol.CellCountIsBounded(f);
    } else {
      var adr, count, frames :| FromPylontech(t, adr, count, frames);
      PylontechMaster.ReceivedCellsFitByte(adr, count, frames);
    }
  }

  /** From whatever bytes the telemetry was decoded: every answer the bridge gives is a well-formed frame that parses back to itself at the address asked for. */
  lemma EveryAnswerIsWellFormed(slots: seq<Slot>, ready: map<string, Snapshot>, f: Frame, tail: seq<u8>)
    requires forall n :: n in ready ==> Received(Telemetry(ready[n].cells, ready[n].pack))
    ensures var a := Serve(slots, ready, f);
      a.Reply? ==>
        var length := LengthOf(a.frame);
        && Parse(Build(a.frame) + tail) == Got(|Build(a.frame)|, a.frame)
        && CanonicalLength(Build(a.frame)[1..|Build(a.frame)| - 1], a.frame)
        && a.frame.adr == f.adr
        && length % 0x1000 == 2 * |a.frame.info| && NibbleSum(length) % 0x10 == 0
  {
    hide AnswerTo, Build, Parse, LengthOf, NibbleSum, CanonicalLength, Received, Sliced, ForReserve;
    if Serve(slots, ready, f).Reply? {
      BuildShape(Serve(slots, ready, f).frame);
      var slot := slots[f.adr - BASE_ADDRESS];
      var s := ready[Source(slot).name];
      ReceivedCellsFit(Telemetry(s.cells, s.pack));
      ViewKeepsCells(slot, s);
      AnswersAreWellFormed(f, ModuleView(slot, s), tail);
    }
  }

  lemma ViewKeepsCells(slot: Slot, s: Snapshot)
    ensures ModuleView(slot, s).cells == s.cells
  {
  }
}
