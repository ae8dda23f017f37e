/**
 Reassembling the 300-byte frames of a JK BMS from the pieces a BLE link delivers, with idle
 noise between frames.
 */
module JkAssembler {
  import opened Bytes
  import opened Framing
  import opened Wrappers

  const RESPONSE_SIZE := 300
  const MAGIC: seq<u8> := [0x55, 0xAA, 0xEB, 0x90]
  const MAGIC_START: u8 := 0x55

  function Crc8(data: seq<u8>): u8 {
    Sum(data) % 0x100
  }

  /** The check byte is the sum of the bytes modulo 256: its own value for one byte, and it adds up. */
  lemma {:induction false} Crc8Adds(a: seq<u8>, b: seq<u8>)
    ensures Crc8(a + b) as int == (Crc8(a) as int + Crc8(b)) % 256
    ensures Crc8([]) == 0 && forall x: u8 :: Crc8([x]) == x
    decreases |b|
  {
    if b == [] {
      assert a + b == a;
    } else {
      var init, x := b[..|b| - 1], b[|b| - 1];
      Crc8Adds(a, init);
      assert (a + b)[..|a + b| - 1] == a + init;
      ByteAdds(Sum(a + init), Sum(a), Sum(init), x);
    }
    forall x: u8 ensures Crc8([x]) == x {
      assert [x][..0] == [];
    }
  }

  lemma ByteAdds(s: nat, a: nat, b: nat, x: u8)
    requires s % 0x100 == (a % 0x100 + b % 0x100) % 256
    ensures (s + x) % 0x100 == (a % 0x100 + (b + x) % 0x100) % 256
  {
    var low := a % 0x100;
    ModuloAdds(s, x);
    ModuloAdds(low + b % 0x100, x);
    ModuloAdds(b, low + x);
    ModuloAdds(b + x, low);
  }

  lemma ModuloAdds(x: nat, y: nat)
    ensures (x % 0x100 + y) % 0x100 == (x + y) % 0x100
  {
  }

  method JkCrc8(data: seq<u8>) returns (crc: u8)
    ensures crc == Crc8(data)
  {
    hide Sum, Wrap16;
    var s: u16 := 0;
    WrapsLikeSum([], 0);
    assert data[..0] == [];
    for i := 0 to |data|
      invariant s == Wrap16(Sum(data[..i]))
    {
      assert data[..i + 1] == data[..i] + [data[i]];
      WrapsLikeSum(data[..i], data[i]);
      s := Wrap16(s as int + data[i]);
    }
    assert data[..|data|] == data;
    LowByte(Sum(data));
    crc := s % 0x100;
  }

  /** A 16-bit sum is the sum up to wrap-around. */
  lemma WrapsLikeSum(data: seq<u8>, b: u8)
    ensures Wrap16(Sum([])) == 0
    ensures Wrap16(Sum(data + [b])) == Wrap16(Wrap16(Sum(data)) as int + b)
  {
    assert (data + [b])[..|data|] == data;
  }

  lemma LowByte(s: nat)
    ensures Wrap16(s) % 0x100 == s % 0x100
  {
    var q, r := s / 0x1_0000, s % 0x1_0000;
    var high, low := r / 0x100, r % 0x100;
    assert s == low + (q * 0x100 + high) * 0x100;
  }

  predicate StartsWithMagic(p: seq<u8>) {
    |p| >= 4 && p[0] == MAGIC[0] && p[1] == MAGIC[1] && p[2] == MAGIC[2] && p[3] == MAGIC[3]
  }

  predicate ValidFrame(f: seq<u8>) {
    |f| == RESPONSE_SIZE && StartsWithMagic(f) && f[RESPONSE_SIZE - 1] == Crc8(f[..RESPONSE_SIZE - 1])
  }

  // ---- The automaton -----------------------------------------------------------

  /** The partial frame after one more byte, and whether the byte completes a frame. */
  function Advance(buf: seq<u8>, b: u8): (seq<u8>, bool) {
    var grown := buf + [b];
    if buf == [] && b != MAGIC_START then ([], false)
    else if |grown| <= 4 && b != MAGIC[|grown| - 1] then ([], false)
    else if |grown| == RESPONSE_SIZE then ([], Crc8(buf) == b)
    else (grown, false)
  }

  /** The `n`-th byte after a reset: where frames have started, and the partial frame. */
  function Record(s: (seq<nat>, seq<u8>), b: u8, n: nat): (seq<nat>, seq<u8>) {
    var (next, complete) := Advance(s.1, b);
    (if complete && n >= RESPONSE_SIZE then s.0 + [n - RESPONSE_SIZE] else s.0, next)
  }

  /** For the bytes received since a reset: where the frames completed by them start, and the partial frame. */
  function Scan(received: seq<u8>): (seq<nat>, seq<u8>) {
    if received == [] then ([], [])
    else Record(Scan(received[..|received| - 1]), received[|received| - 1], |received|)
  }

  predicate PartialFrame(buf: seq<u8>) {
    |buf| < RESPONSE_SIZE && forall i :: 0 <= i < |buf| && i < 4 ==> buf[i] == MAGIC[i]
  }

  /** The slices of `bytes` that start at `starts` are valid frames, one after the other, in the first `end` bytes. */
  ghost predicate FramesAt(bytes: seq<u8>, starts: seq<nat>, end: nat) {
    && (forall k :: 0 <= k < |starts| ==> starts[k] + RESPONSE_SIZE <= end <= |bytes|)
    && (forall k :: 0 <= k < |starts| && starts[k] + RESPONSE_SIZE <= |bytes| ==> ValidFrame(bytes[starts[k]..starts[k] + RESPONSE_SIZE]))
    && (forall j, k :: 0 <= j < k < |starts| ==> starts[j] + RESPONSE_SIZE <= starts[k])
  }

  /**
   Every frame ever completed is a contiguous slice of the bytes received, with the magic and a
   right sum; frames do not overlap; and the partial frame is the end of what was received.
   */
  lemma {:induction false} FramesAreSlices(received: seq<u8>)
    ensures var (starts, buf) := Scan(received);
      && PartialFrame(buf) && |buf| <= |received| && buf == received[|received| - |buf|..]
      && FramesAt(received, starts, |received| - |buf|)
    decreases |received|
  {
    hide ValidFrame, Advance, FramesAt;
    if received == [] {
      NoFrames(received);
    } else {
      var n := |received| - 1;
      var init, b := received[..n], received[n];
      FramesAreSlices(init);
      var (starts, buf) := Scan(init);
      var (next, complete) := Advance(buf, b);
      AdvanceKeepsPartial(buf, b);
      SuffixGrows(received, buf);
      FramesStay(init, b, starts, n - |buf|, if complete then n - |buf| else n + 1 - |next|);
      if complete {
        AddFrame(received, starts);
      }
    }
  }

  lemma SuffixGrows(received: seq<u8>, buf: seq<u8>)
    requires received != [] && |buf| < |received| && buf == received[..|received| - 1][|received| - 1 - |buf|..]
    ensures received == received[..|received| - 1] + [received[|received| - 1]]
    ensures buf + [received[|received| - 1]] == received[|received| - 1 - |buf|..]
  {
  }

  lemma NoFrames(bytes: seq<u8>)
    ensures FramesAt(bytes, [], |bytes|)
  {
  }

  lemma AddFrame(received: seq<u8>, starts: seq<nat>)
    requires |received| >= RESPONSE_SIZE && FramesAt(received, starts, |received| - RESPONSE_SIZE)
    requires ValidFrame(received[|received| - RESPONSE_SIZE..])
    ensures FramesAt(received, starts + [|received| - RESPONSE_SIZE], |received|)
  {
    hide ValidFrame;
    var last := |received| - RESPONSE_SIZE;
    assert received[last..last + RESPONSE_SIZE] == received[last..];
  }

  lemma FramesStay(init: seq<u8>, b: u8, starts: seq<nat>, end: nat, later: nat)
    requires FramesAt(init, starts, end) && end <= later <= |init| + 1
    ensures FramesAt(init + [b], starts, later)
  {
    hide ValidFrame;
    forall k | 0 <= k < |starts| ensures ValidFrame((init + [b])[starts[k]..starts[k] + RESPONSE_SIZE]) {
      assert (init + [b])[starts[k]..starts[k] + RESPONSE_SIZE] == init[starts[k]..starts[k] + RESPONSE_SIZE];
    }
  }

  lemma AdvanceKeepsPartial(buf: seq<u8>, b: u8)
    requires PartialFrame(buf)
    ensures var (next, complete) := Advance(buf, b);
      && PartialFrame(next) && (next == [] || next == buf + [b])
      && (complete ==> next == [] && |buf + [b]| == RESPONSE_SIZE && ValidFrame(buf + [b]))
  {
    hide Crc8;
    assert (buf + [b])[..|buf|] == buf;
  }

  /** The last frame that the bytes complete. */
  function LastFrame(received: seq<u8>): Option<seq<u8>> {
    var starts := Scan(received).0;
    if starts == [] || starts[|starts| - 1] + RESPONSE_SIZE > |received| then None
    else Some(received[starts[|starts| - 1]..starts[|starts| - 1] + RESPONSE_SIZE])
  }

  /** The partial frame and the frame to take, for the bytes received and the number of frames complete at the last take. */
  ghost predicate Consistent(received: seq<u8>, seen: nat, buf: seq<u8>, ready: seq<u8>) {
    var (starts, partial) := Scan(received);
    && buf == partial && seen <= |starts|
    && (if |starts| == seen then ready == [] else LastFrame(received) == Some(ready))
  }

  lemma ByteKeepsConsistent(received: seq<u8>, seen: nat, buf: seq<u8>, ready: seq<u8>, b: u8)
    requires Consistent(received, seen, buf, ready)
    ensures PartialFrame(buf)
    ensures var (next, complete) := Advance(buf, b);
      Consistent(received + [b], seen, next, if complete then buf + [b] else ready)
  {
    hide Scan, Advance, ValidFrame, FramesAt;
    var bytes, starts := received + [b], Scan(received).0;
    FramesAreSlices(received);
    AdvanceKeepsPartial(buf, b);
    OneMore(received, b);
    if Advance(buf, b).1 {
      LastSlice(received, buf, b);
    } else if |starts| > seen {
      SliceOfPrefix(received, b, starts[|starts| - 1]);
    }
  }

  lemma LastSlice(received: seq<u8>, buf: seq<u8>, b: u8)
    requires |buf| == RESPONSE_SIZE - 1 <= |received| && buf == received[|received| - |buf|..]
    ensures var bytes := received + [b]; var at := |received| + 1 - RESPONSE_SIZE;
      at + RESPONSE_SIZE <= |bytes| && bytes[at..at + RESPONSE_SIZE] == buf + [b]
  {
  }

  lemma SliceOfPrefix(received: seq<u8>, b: u8, at: nat)
    requires at + RESPONSE_SIZE <= |received|
    ensures (received + [b])[at..at + RESPONSE_SIZE] == received[at..at + RESPONSE_SIZE]
  {
  }

  // ---- The assembler -----------------------------------------------------------

  class JkFrameAssembler {
    var buf: seq<u8>
    var ready: seq<u8>
    /** The bytes pushed since the last reset, and how many of their frames were complete at the last take. */
    ghost var received: seq<u8>
    ghost var seen: nat

    ghost predicate Valid()
      reads this
    {
      Consistent(received, seen, buf, ready)
    }

    constructor ()
      ensures Valid() && received == [] && seen == 0
    {
      buf, ready, received, seen := [], [], [], 0;
    }

    /** Afterwards the frame to take is the last one the bytes received so far complete, if it is a new one. */
    method PushChunk(data: seq<u8>)
      requires Valid()
      modifies this
      ensures Valid() && received == old(received) + data && seen == old(seen)
    {
      hide Crc8, Consistent;
      for i := 0 to |data|
        invariant Valid() && received == old(received) + data[..i] && seen == old(seen)
      {
        var b := data[i];
        ByteKeepsConsistent(received, seen, buf, ready, b);
        assert data[..i + 1] == data[..i] + [b];
        received := received + [b];
        if buf == [] && b != MAGIC[0] {
          continue;
        }
        buf := buf + [b];
        if |buf| <= 4 {
          if b != MAGIC[|buf| - 1] {
            buf := [];
            continue;
          }
        }
        if |buf| == RESPONSE_SIZE {
          assert buf[..RESPONSE_SIZE - 1] + [b] == buf;
          var computed := JkCrc8(buf[..RESPONSE_SIZE - 1]);
          if computed == buf[RESPONSE_SIZE - 1] {
            ready := buf;
          }
          buf := [];
        }
      }
      assert data[..|data|] == data;
    }

    /** The latest frame completed since the last take, once. */
    method TakeCompleteFrame() returns (frame: Option<seq<u8>>)
      requires Valid()
      modifies this
      ensures Valid() && received == old(received) && seen == |Scan(received).0|
      ensures frame.Some? <==> |Scan(received).0| > old(seen)
      ensures frame.Some? ==> frame == LastFrame(received) && ValidFrame(frame.value)
    {
      FramesAreSlices(received);
      frame := if ready == [] then None else Some(ready);
      ready, seen := [], |Scan(received).0|;
    }

    method Reset()
      modifies this
      ensures Valid() && received == [] && seen == 0
    {
      buf, ready, received, seen := [], [], [], 0;
    }
  }

  lemma OneMore(received: seq<u8>, b: u8)
    ensures var (starts, buf) := Scan(received);
      var (next, complete) := Advance(buf, b);
      && Scan(received + [b]).1 == next
      && Scan(received + [b]).0 ==
         if complete && |received| + 1 >= RESPONSE_SIZE then starts + [|received| + 1 - RESPONSE_SIZE] else starts
  {
    hide Advance, Scan;
    NextIsRecorded(received, b);
  }

  lemma NextIsRecorded(received: seq<u8>, b: u8)
    ensures Scan(received + [b]) == Record(Scan(received), b, |received| + 1)
  {
    hide Record;
    assert (received + [b])[..|received|] == received;
  }

  // ---- Frames of a chunk -------------------------------------------------------

  /** More bytes leave the frames completed before in place; new ones end among these bytes. */
  lemma {:induction false} LaterFrames(received: seq<u8>, data: seq<u8>)
    ensures var before, after := Scan(received).0, Scan(received + data).0;
      && |before| <= |after| && after[..|before|] == before
      && forall k :: |before| <= k < |after| ==> after[k] + RESPONSE_SIZE > |received|
    decreases |data|
  {
    hide Scan, Advance;
    if data == [] {
      assert received + data == received;
    } else {
      var init, b := data[..|data| - 1], data[|data| - 1];
      LaterFrames(received, init);
      assert received + data == (received + init) + [b];
      OneMore(received + init, b);
    }
  }

  /** A chunk no longer than a frame completes at most one. */
  lemma ShortChunkCompletesOne(received: seq<u8>, data: seq<u8>)
    requires |data| <= RESPONSE_SIZE
    ensures |Scan(received).0| <= |Scan(received + data).0| <= |Scan(received).0| + 1
  {
    hide Scan, ValidFrame, FramesAt;
    LaterFrames(received, data);
    FramesAreSlices(received + data);
    var k, starts := |Scan(received).0|, Scan(received + data).0;
    if |starts| > k + 1 {
      SecondEndsLater(received + data, starts, |received + data| - |Scan(received + data).1|, k, |received|);
    }
  }

  /** If a frame ends behind `place`, its successor ends more than a frame behind it. */
  lemma SecondEndsLater(bytes: seq<u8>, starts: seq<nat>, end: nat, k: nat, place: nat)
    requires FramesAt(bytes, starts, end) && k + 1 < |starts| && starts[k] + RESPONSE_SIZE > place
    ensures |bytes| >= end > place + RESPONSE_SIZE
  {
    hide ValidFrame;
    assert starts[k] + RESPONSE_SIZE <= starts[k + 1];
  }

  /** The k-th frame that the bytes complete. */
  function FrameAt(received: seq<u8>, k: nat): (f: seq<u8>)
    requires k < |Scan(received).0|
    ensures ValidFrame(f)
  {
    FramesAreSlices(received);
    var start := Scan(received).0[k];
    received[start..start + RESPONSE_SIZE]
  }

  lemma FrameStays(received: seq<u8>, data: seq<u8>, k: nat)
    requires k < |Scan(received).0|
    ensures k < |Scan(received + data).0| && FrameAt(received + data, k) == FrameAt(received, k)
  {
    hide Scan, ValidFrame;
    LaterFrames(received, data);
    FramesAreSlices(received);
    var start := Scan(received).0[k];
    assert Scan(received + data).0[..|Scan(received).0|][k] == start;
    assert (received + data)[start..start + RESPONSE_SIZE] == received[start..start + RESPONSE_SIZE];
  }

  lemma LastFrameIsAt(received: seq<u8>)
    requires Scan(received).0 != []
    ensures LastFrame(received) == Some(FrameAt(received, |Scan(received).0| - 1))
  {
    hide Scan, ValidFrame;
    FramesAreSlices(received);
  }

  // ---- Streams of valid frames -------------------------------------------------

  datatype Item = Item(noise: seq<u8>, frame: seq<u8>)

  function Wire(items: seq<Item>): seq<u8> {
    if items == [] then []
    else
      var n := |items| - 1;
      Wire(items[..n]) + items[n].noise + items[n].frame
  }

  /** Noise between frames leaves an empty buffer empty. */
  lemma {:induction false} NoiseIsSkipped(received: seq<u8>, noise: seq<u8>)
    requires Scan(received).1 == [] && MAGIC_START !in noise
    ensures Scan(received + noise) == (Scan(received).0, [])
    decreases |noise|
  {
    hide Scan;
    if noise == [] {
      assert received + noise == received;
    } else {
      var init, b := noise[..|noise| - 1], noise[|noise| - 1];
      NoiseIsSkipped(received, init);
      assert b in noise && received + noise == (received + init) + [b];
      OneMore(received + init, b);
    }
  }

  /** The first bytes of a valid frame are collected. */
  lemma {:induction false} FrameIsCollected(received: seq<u8>, f: seq<u8>, k: nat)
    requires Scan(received).1 == [] && ValidFrame(f) && k < RESPONSE_SIZE
    ensures Scan(received + f[..k]) == (Scan(received).0, f[..k])
    decreases k
  {
    hide Scan, Crc8;
    if k == 0 {
      assert received + f[..k] == received;
    } else {
      FrameIsCollected(received, f, k - 1);
      assert received + f[..k] == (received + f[..k - 1]) + [f[k - 1]] && f[..k] == f[..k - 1] + [f[k - 1]];
      OneMore(received + f[..k - 1], f[k - 1]);
    }
  }

  lemma FrameIsCompleted(received: seq<u8>, f: seq<u8>)
    requires Scan(received).1 == [] && ValidFrame(f)
    ensures Scan(received + f) == (Scan(received).0 + [|received|], [])
  {
    hide Scan, Crc8;
    var n := RESPONSE_SIZE - 1;
    FrameIsCollected(received, f, n);
    assert received + f == (received + f[..n]) + [f[n]];
    OneMore(received + f[..n], f[n]);
  }

  /** The frames that the bytes complete are those of the items, in order. */
  ghost predicate Completes(bytes: seq<u8>, starts: seq<nat>, items: seq<Item>) {
    && |starts| == |items|
    && forall i :: 0 <= i < |items| ==>
         starts[i] + RESPONSE_SIZE <= |bytes| && bytes[starts[i]..starts[i] + RESPONSE_SIZE] == items[i].frame
  }

  /**
   From a reset, valid frames separated by noise without 0x55 are completed exactly, in order. As
   the bytes received are all that counts, the pieces they arrive in do not matter.
   */
  lemma {:induction false} FramesComplete(items: seq<Item>, tail: seq<u8>)
    requires forall i :: 0 <= i < |items| ==> MAGIC_START !in items[i].noise && ValidFrame(items[i].frame)
    requires MAGIC_START !in tail
    ensures Scan(Wire(items) + tail).1 == []
    ensures Completes(Wire(items) + tail, Scan(Wire(items) + tail).0, items)
    decreases |items|
  {
    hide Scan, ValidFrame, Wire, Completes;
    if items == [] {
      NoItems();
    } else {
      var n := |items| - 1;
      var init, noise, f := items[..n], items[n].noise, items[n].frame;
      FramesComplete(init, noise);
      var before := Wire(init) + noise;
      LastOnWire(items);
      FrameIsCompleted(before, f);
      SizeOfFrame(f);
      OneMoreItem(before, Scan(before).0, items);
    }
    NoiseIsSkipped(Wire(items), tail);
    MoreBytes(Wire(items), Scan(Wire(items)).0, items, tail);
  }

  lemma NoItems()
    ensures Wire([]) == [] && Scan([]) == ([], []) && Completes([], [], [])
  {
  }

  lemma MoreBytes(bytes: seq<u8>, starts: seq<nat>, items: seq<Item>, tail: seq<u8>)
    requires Completes(bytes, starts, items)
    ensures Completes(bytes + tail, starts, items)
  {
    forall i | 0 <= i < |items| ensures (bytes + tail)[starts[i]..starts[i] + RESPONSE_SIZE] == items[i].frame {
      assert (bytes + tail)[starts[i]..starts[i] + RESPONSE_SIZE] == bytes[starts[i]..starts[i] + RESPONSE_SIZE];
    }
  }

  lemma OneMoreItem(before: seq<u8>, starts: seq<nat>, items: seq<Item>)
    requires items != [] && Completes(before, starts, items[..|items| - 1]) && |items[|items| - 1].frame| == RESPONSE_SIZE
    ensures Completes(before + items[|items| - 1].frame, starts + [|before|], items)
  {
    var f := items[|items| - 1].frame;
    MoreBytes(before, starts, items[..|items| - 1], f);
    assert (before + f)[|before|..|before| + RESPONSE_SIZE] == f;
  }

  lemma LastOnWire(items: seq<Item>)
    requires items != []
    ensures var n := |items| - 1; Wire(items) == Wire(items[..n]) + items[n].noise + items[n].frame
  {
  }

  lemma SizeOfFrame(f: seq<u8>)
    requires ValidFrame(f)
    ensures |f| == RESPONSE_SIZE && f[0] == MAGIC_START
  {
  }

  // ---- Losing and regaining alignment ------------------------------------------

  /** While a partial frame is in the buffer, a frame that follows is never aligned with it. */
  lemma {:induction false} NeverAligned(received: seq<u8>, f: seq<u8>, k: nat)
    requires Scan(received).1 != [] && k <= |f|
    ensures |Scan(received + f[..k]).1| != k
    decreases k
  {
    hide Scan, Crc8;
    if k == 0 {
      assert received + f[..k] == received;
    } else {
      NeverAligned(received, f, k - 1);
      assert received + f[..k] == (received + f[..k - 1]) + [f[k - 1]];
      OneMore(received + f[..k - 1], f[k - 1]);
    }
  }

  /** A valid frame is completed if and only if the buffer is empty when its first byte arrives. */
  lemma CompletedExactly(received: seq<u8>, f: seq<u8>)
    requires ValidFrame(f)
    ensures |received| in Scan(received + f).0 <==> Scan(received).1 == []
  {
    if Scan(received).1 == [] {
      FrameIsCompleted(received, f);
    } else {
      MisalignedIsLost(received, f);
    }
  }

  lemma MisalignedIsLost(received: seq<u8>, f: seq<u8>)
    requires ValidFrame(f) && Scan(received).1 != []
    ensures |received| !in Scan(received + f).0
  {
    hide Scan, Crc8;
    var n := RESPONSE_SIZE - 1;
    var before := received + f[..n];
    assert received + f == before + [f[n]];
    NeverAligned(received, f, n);
    FramesAreSlices(before);
    OneMore(before, f[n]);
    Earlier(before, Scan(before).0, |before| - |Scan(before).1|, |received|);
  }

  lemma Earlier(bytes: seq<u8>, starts: seq<nat>, end: nat, at: nat)
    requires FramesAt(bytes, starts, end) && end < at + RESPONSE_SIZE
    ensures at !in starts
  {
    hide ValidFrame;
  }

  /** A frame that was cut short loses the next one, which is collected as its rest. */
  lemma CutFrameLosesNext(received: seq<u8>, cut: seq<u8>, k: nat, f: seq<u8>)
    requires Scan(received).1 == [] && ValidFrame(cut) && 0 < k < RESPONSE_SIZE && ValidFrame(f)
    ensures |received + cut[..k]| !in Scan(received + cut[..k] + f).0
  {
    hide Scan, ValidFrame;
    FrameIsCollected(received, cut, k);
    SizeOfFrame(cut);
    CompletedExactly(received + cut[..k], f);
  }

  /**
   A stray 0x55 just before a frame loses it, as the 0x55 that breaks a match does not start a new
   one; if the frame holds no other 0x55, nothing of it stays in the buffer.
   */
  lemma StrayMagicByteLosesFrame(received: seq<u8>, f: seq<u8>)
    requires Scan(received).1 == [] && ValidFrame(f)
    ensures |received| + 1 !in Scan(received + [MAGIC_START] + f).0
    ensures MAGIC_START !in f[1..] ==> Scan(received + [MAGIC_START] + f) == (Scan(received).0, [])
  {
    hide Scan, Crc8;
    OneMore(received, MAGIC_START);
    OneMore(received + [MAGIC_START], f[0]);
    CompletedExactly(received + [MAGIC_START], f);
    var two := received + [MAGIC_START] + [f[0]];
    assert received + [MAGIC_START] + f == two + f[1..];
    if MAGIC_START !in f[1..] {
      NoiseIsSkipped(two, f[1..]);
    }
  }

  /** Whatever was received before, 299 bytes without 0x55 empty the buffer, so that the next valid frame is completed. */
  lemma QuietRegainsAlignment(received: seq<u8>, noise: seq<u8>, f: seq<u8>)
    requires |noise| >= RESPONSE_SIZE - 1 && MAGIC_START !in noise && ValidFrame(f)
    ensures Scan(received + noise).1 == []
    ensures Scan(received + noise + f) == (Scan(received + noise).0 + [|received| + |noise|], [])
  {
    hide Scan, ValidFrame;
    GrowsOrClears(received, noise);
    FramesAreSlices(received + noise);
    FrameIsCompleted(received + noise, f);
  }

  lemma {:induction false} GrowsOrClears(received: seq<u8>, noise: seq<u8>)
    requires MAGIC_START !in noise
    ensures var buf := Scan(received).1; var next := Scan(received + noise).1; next == [] || (buf != [] && next == buf + noise)
    decreases |noise|
  {
    hide Scan, Crc8;
    if noise == [] {
      assert received + noise == received && Scan(received).1 + noise == Scan(received).1;
    } else {
      var init, b := noise[..|noise| - 1], noise[|noise| - 1];
      GrowsOrClears(received, init);
      assert b in noise && received + noise == (received + init) + [b];
      assert Scan(received).1 + noise == (Scan(received).1 + init) + [b];
      OneMore(received + init, b);
    }
  }
}
