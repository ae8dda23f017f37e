/**
 Extracting frames from a byte stream: parse at the head of the buffer, discard what the parser
 tells to discard, take what it accepts, stop when it needs more bytes.
 */
module FrameStream {
  import opened Bytes
  import opened Framing
  import opened FrameRoundTrip

  /** A nonzero result consumes or discards between one byte and the whole buffer. */
  lemma ParseMakesProgress(buf: seq<u8>)
    ensures Parse(buf) != Need ==> 1 <= Parse(buf).n <= |buf|
  {
    hide ParseBody;
  }

  function Extract(buf: seq<u8>): (seq<Frame>, seq<u8>)
    decreases |buf|
  {
    ParseMakesProgress(buf);
    match Parse(buf)
    case Need => ([], buf)
    case Drop(n) => Extract(buf[n..])
    case Got(n, f) => ([f] + Extract(buf[n..]).0, Extract(buf[n..]).1)
  }

  lemma ExtractStep(buf: seq<u8>)
    ensures Parse(buf) != Need ==> 1 <= Parse(buf).n <= |buf|
    ensures Parse(buf).Need? ==> Extract(buf) == ([], buf)
    ensures Parse(buf).Drop? ==> Extract(buf) == Extract(buf[Parse(buf).n..])
    ensures Parse(buf).Got? ==>
      Extract(buf) == ([Parse(buf).frame] + Extract(buf[Parse(buf).n..]).0, Extract(buf[Parse(buf).n..]).1)
    ensures buf == [] ==> Parse(buf) == Need
  {
    hide ParseBody;
    ParseMakesProgress(buf);
  }

  // ---- The residue -------------------------------------------------------------

  predicate NoSoi(s: seq<u8>) {
    SOI !in s
  }

  /** What is left waits for the rest of a frame: it starts with SOI, has no EOI, and is no longer than a frame may be. */
  lemma {:induction false} ResidueAwaitsFrame(buf: seq<u8>)
    ensures var r := Extract(buf).1;
      r == [] || (r[0] == SOI && EOI !in r && |r| <= MAX_FRAME_LEN)
    ensures |Extract(buf).1| <= |buf| && Extract(buf).1 == buf[|buf| - |Extract(buf).1|..]
    decreases |buf|
  {
    hide Parse, Extract;
    ExtractStep(buf);
    match Parse(buf)
    case Need => NeedsMore(buf);
    case Drop(n) => ResidueAwaitsFrame(buf[n..]);
    case Got(n, _) => ResidueAwaitsFrame(buf[n..]);
  }

  /** The parser waits only for the end of a frame that has begun and is not too long. */
  lemma NeedsMore(buf: seq<u8>)
    requires Parse(buf) == Need
    ensures buf == [] || (buf[0] == SOI && EOI !in buf && |buf| <= MAX_FRAME_LEN)
  {
    hide ParseBody;
  }

  // ---- Chunking ----------------------------------------------------------------

  /** No SOI is followed by `m` bytes without an EOI. */
  ghost predicate Bounded(s: seq<u8>, m: nat) {
    forall i :: 0 <= i && i + m < |s| && s[i] == SOI ==> EOI in s[i + 1..i + 1 + m]
  }

  lemma BoundedSuffix(s: seq<u8>, n: nat, m: nat)
    requires Bounded(s, m) && n <= |s|
    ensures Bounded(s[n..], m)
  {
    var t := s[n..];
    forall i | 0 <= i && i + m < |t| && t[i] == SOI ensures EOI in t[i + 1..i + 1 + m] {
      assert s[n + i] == SOI;
      assert s[n + i + 1..n + i + 1 + m] == t[i + 1..i + 1 + m];
    }
  }

  lemma FindInPrefix(x: seq<u8>, y: seq<u8>, b: u8, i: nat)
    requires i <= |x|
    ensures Find(x, b, i) < |x| ==> Find(x + y, b, i) == Find(x, b, i)
    ensures Find(x, b, i) == |x| ==> Find(x + y, b, i) == |x| + Find(y, b, 0)
  {
    var k := Find(x, b, i);
    assert forall j :: i <= j < |x| ==> (x + y)[j] == x[j];
    assert forall j :: 0 <= j < |y| ==> (x + y)[|x| + j] == y[j];
    if k < |x| {
      FindIs(x + y, b, i, k);
    } else {
      FindIs(x + y, b, i, |x| + Find(y, b, 0));
    }
  }

  lemma FindIs(s: seq<u8>, b: u8, i: nat, k: nat)
    requires i <= k <= |s| && (k < |s| ==> s[k] == b) && forall j :: i <= j < k ==> s[j] != b
    ensures Find(s, b, i) == k
  {
  }

  /** Bytes without an SOI are discarded wherever the buffer is cut. */
  lemma SkipNoise(x: seq<u8>, y: seq<u8>)
    requires NoSoi(x)
    ensures Extract(x + y) == Extract(y)
  {
    if x != [] {
      FindInPrefix(x, y, SOI, 0);
      assert Find(x, SOI, 0) == |x|;
      var k := Find(y, SOI, 0);
      assert Parse(x + y) == Drop(|x| + k);
      assert (x + y)[|x| + k..] == y[k..];
      assert Extract(x + y) == Extract(y[k..]);
      if k > 0 {
        assert Parse(y) == Drop(k);
      } else {
        assert y[0..] == y;
      }
    } else {
      assert x + y == y;
    }
  }

  /** In a bounded stream a buffer that starts with SOI and has no EOI yet is never too long. */
  lemma AwaitedFrameIsShort(x: seq<u8>, y: seq<u8>, m: nat)
    requires x != [] && x[0] == SOI && Find(x, EOI, 1) == |x| && Bounded(x + y, m)
    ensures |x| <= m || |x| == 1
  {
    var s := x + y;
    if m < |s| {
      assert s[0] == SOI;
      var k :| 0 <= k < m && s[1..1 + m][k] == EOI;
      assert s[1 + k] == EOI && forall j :: 1 <= j < |x| ==> s[j] == x[j];
    }
  }

  /** A decision the parser has taken stands when more bytes follow. */
  lemma DecisionStands(x: seq<u8>, y: seq<u8>)
    requires Parse(x) != Need && !NoSoi(x) && (Bounded(x + y, MAX_FRAME_LEN) || |x| <= MAX_FRAME_LEN)
    ensures Parse(x + y) == Parse(x)
  {
    hide ParseBody, Bounded;
    FindInPrefix(x, y, SOI, 0);
    if Find(x, SOI, 0) == 0 {
      FindInPrefix(x, y, EOI, 1);
      var eoi := Find(x, EOI, 1);
      if eoi == |x| && |x| > MAX_FRAME_LEN { AwaitedFrameIsShort(x, y, MAX_FRAME_LEN); }
      assert (x + y)[1..eoi] == x[1..eoi];
    }
  }

  /** Extraction does not depend on where the bytes are cut in two. */
  lemma {:induction false} ExtractInTwo(x: seq<u8>, y: seq<u8>)
    requires Bounded(x + y, MAX_FRAME_LEN) || |x| <= MAX_FRAME_LEN
    ensures var (f, r) := Extract(x); var (g, q) := Extract(r + y); Extract(x + y) == (f + g, q)
    decreases |x|
  {
    hide Parse, Bounded;
    ParseMakesProgress(x);
    if Parse(x) == Need {
      assert [] + Extract(x + y).0 == Extract(x + y).0;
    } else if NoSoi(x) {
      SkipNoise(x, y);
      SkipNoise(x, []);
      NothingExtracted();
      assert x + [] == x && [] + y == y && [] + Extract(y).0 == Extract(y).0;
    } else {
      DecisionStands(x, y);
      var n := Parse(x).n;
      assert (x + y)[n..] == x[n..] + y;
      if Bounded(x + y, MAX_FRAME_LEN) { BoundedSuffix(x + y, n, MAX_FRAME_LEN); }
      ExtractInTwo(x[n..], y);
      var (f, r) := Extract(x[n..]);
      if Parse(x).Got? {
        var first := [Parse(x).frame];
        assert first + (f + Extract(r + y).0) == (first + f) + Extract(r + y).0;
      }
    }
  }

  lemma NothingExtracted()
    ensures Extract([]) == ([], [])
  {
  }

  function Concat(chunks: seq<seq<u8>>): seq<u8> {
    if chunks == [] then [] else chunks[0] + Concat(chunks[1..])
  }

  /** Receiving the chunks one by one, each appended to what the one before left. */
  function Receive(rx: seq<u8>, chunks: seq<seq<u8>>): (seq<Frame>, seq<u8>)
    decreases |chunks|
  {
    if chunks == [] then ([], rx)
    else
      var (f, r) := Extract(rx + chunks[0]);
      var (g, q) := Receive(r, chunks[1..]);
      (f + g, q)
  }

  /** However a stream is cut into chunks, the same frames come out and the same residue stays. */
  lemma {:induction false} ChunkingIsIrrelevant(rx: seq<u8>, chunks: seq<seq<u8>>)
    requires Extract(rx) == ([], rx) && Bounded(rx + Concat(chunks), MAX_FRAME_LEN)
    ensures Receive(rx, chunks) == Extract(rx + Concat(chunks))
    decreases |chunks|
  {
    hide Parse, Bounded, Extract;
    if chunks == [] {
      assert rx + Concat(chunks) == rx;
    } else {
      var x, rest := rx + chunks[0], Concat(chunks[1..]);
      var r := Extract(x).1;
      assert rx + Concat(chunks) == x + rest;
      ExtractInTwo(x, rest);
      ResidueAwaitsFrame(x);
      assert r + rest == (x + rest)[|x| - |r|..];
      BoundedSuffix(x + rest, |x| - |r|, MAX_FRAME_LEN);
      ResidueIsFixed(x);
      ChunkingIsIrrelevant(r, chunks[1..]);
    }
  }

  /** No chunk is too much for a buffer of 4096 bytes that holds what the ones before left. */
  predicate FitsBuffer(rx: seq<u8>, chunks: seq<seq<u8>>)
    decreases |chunks|
  {
    chunks == [] || (|rx| + |chunks[0]| <= MAX_FRAME_LEN && FitsBuffer(Extract(rx + chunks[0]).1, chunks[1..]))
  }

  /** With such chunks it does not matter either, whatever the stream. */
  lemma {:induction false} FittingChunksAreIrrelevant(rx: seq<u8>, chunks: seq<seq<u8>>)
    requires Extract(rx) == ([], rx) && FitsBuffer(rx, chunks)
    ensures Receive(rx, chunks) == Extract(rx + Concat(chunks))
    decreases |chunks|
  {
    hide Extract, Bounded;
    if chunks == [] {
      assert rx + Concat(chunks) == rx;
    } else {
      var x, rest := rx + chunks[0], Concat(chunks[1..]);
      assert rx + Concat(chunks) == x + rest;
      ExtractInTwo(x, rest);
      ResidueIsFixed(x);
      FittingChunksAreIrrelevant(Extract(x).1, chunks[1..]);
    }
  }

  /** Short frames in short chunks always fit: what is left is the beginning of a frame. */
  lemma {:induction false} ShortChunksFit(rx: seq<u8>, chunks: seq<seq<u8>>, m: nat)
    requires 1 <= m <= MAX_FRAME_LEN && Bounded(rx + Concat(chunks), m) && Extract(rx) == ([], rx)
    requires forall i :: 0 <= i < |chunks| ==> |chunks[i]| <= MAX_FRAME_LEN - m
    ensures FitsBuffer(rx, chunks)
    decreases |chunks|
  {
    hide Extract, Bounded;
    if chunks != [] {
      var x, rest := rx + chunks[0], Concat(chunks[1..]);
      var r := Extract(x).1;
      assert rx + Concat(chunks) == x + rest;
      ResidueIsShort(rx, Concat(chunks), m);
      ResidueAwaitsFrame(x);
      assert r + rest == (x + rest)[|x| - |r|..];
      BoundedSuffix(x + rest, |x| - |r|, m);
      ResidueIsFixed(x);
      ShortChunksFit(r, chunks[1..], m);
    }
  }

  lemma ResidueIsShort(rx: seq<u8>, rest: seq<u8>, m: nat)
    requires 1 <= m && Bounded(rx + rest, m) && Extract(rx) == ([], rx)
    ensures |rx| <= m
  {
    hide Extract, Bounded;
    ResidueAwaitsFrame(rx);
    if rx != [] {
      FindIs(rx, EOI, 1, |rx|);
      AwaitedFrameIsShort(rx, rest, m);
    }
  }

  lemma {:induction false} ResidueIsFixed(buf: seq<u8>)
    ensures Extract(Extract(buf).1) == ([], Extract(buf).1)
    decreases |buf|
  {
    hide Parse;
    ParseMakesProgress(buf);
    if Parse(buf) != Need {
      ResidueIsFixed(buf[Parse(buf).n..]);
    }
  }

  // ---- Streams of built frames -------------------------------------------------

  /** Noise and a frame, again and again, and noise at the end. */
  datatype Item = Item(noise: seq<u8>, frame: Frame)

  function Wire(items: seq<Item>, tail: seq<u8>): seq<u8> {
    if items == [] then tail else items[0].noise + Build(items[0].frame) + Wire(items[1..], tail)
  }

  function Frames(items: seq<Item>): seq<Frame> {
    seq(|items|, i requires 0 <= i < |items| => items[i].frame)
  }

  ghost predicate Quiet(items: seq<Item>, tail: seq<u8>) {
    NoSoi(tail) && forall i :: 0 <= i < |items| ==> NoSoi(items[i].noise)
  }

  /** Exactly the frames come out, in order, and nothing is left. */
  lemma {:induction false} BuiltFramesComeOut(items: seq<Item>, tail: seq<u8>)
    requires Quiet(items, tail)
    ensures Extract(Wire(items, tail)) == (Frames(items), [])
    decreases |items|
  {
    hide Parse, Build;
    if items == [] {
      SkipNoise(tail, []);
      assert tail + [] == tail;
      NothingExtracted();
    } else {
      var rest, f := Wire(items[1..], tail), items[0].frame;
      BuiltFramesComeOut(items[1..], tail);
      ParseUndoesBuild(f, rest);
      assert Wire(items, tail) == items[0].noise + (Build(f) + rest);
      SkipNoise(items[0].noise, Build(f) + rest);
      assert (Build(f) + rest)[|Build(f)|..] == rest;
      assert Frames(items) == [f] + Frames(items[1..]);
    }
  }

  /** The longest frame whose bytes can arrive in any pieces. */
  const LONGEST := MAX_FRAME_LEN + 1

  lemma BuildIsBounded(f: Frame, rest: seq<u8>, m: nat)
    requires Bounded(rest, m) && |Build(f)| <= m + 1
    ensures Bounded(Build(f) + rest, m)
  {
    hide Build, BodyOf;
    BuildShape(f);
    var s, n := Build(f) + rest, |Build(f)|;
    assert Build(f)[n - 1] == EOI && s[n - 1] == EOI;
    forall i | 0 < i < n ensures s[i] != SOI {
      if i < n - 1 {
        assert s[i] == BodyOf(f)[i - 1] && IsUpperHex(BodyOf(f)[i - 1]);
      }
    }
    forall i | 0 <= i && i + m < |s| && s[i] == SOI ensures EOI in s[i + 1..i + 1 + m] {
      if i == 0 {
        assert s[1..1 + m][n - 2] == EOI;
      } else {
        assert rest[i - n] == SOI;
        assert s[i + 1..i + 1 + m] == rest[i - n + 1..i - n + 1 + m];
      }
    }
  }

  lemma NoiseIsBounded(noise: seq<u8>, rest: seq<u8>, m: nat)
    requires Bounded(rest, m) && NoSoi(noise)
    ensures Bounded(noise + rest, m)
  {
    var s, n := noise + rest, |noise|;
    assert forall j :: 0 <= j < n ==> s[j] == noise[j] && noise[j] in noise;
    forall i | 0 <= i && i + m < |s| && s[i] == SOI ensures EOI in s[i + 1..i + 1 + m] {
      assert rest[i - n] == SOI;
      assert s[i + 1..i + 1 + m] == rest[i - n + 1..i - n + 1 + m];
    }
  }

  lemma {:induction false} WireIsBounded(items: seq<Item>, tail: seq<u8>, m: nat)
    requires Quiet(items, tail) && forall i :: 0 <= i < |items| ==> |Build(items[i].frame)| <= m + 1
    ensures Bounded(Wire(items, tail), m)
    decreases |items|
  {
    hide Build;
    if items != [] {
      WireIsBounded(items[1..], tail, m);
      BuildIsBounded(items[0].frame, Wire(items[1..], tail), m);
      NoiseIsBounded(items[0].noise, Build(items[0].frame) + Wire(items[1..], tail), m);
      assert Wire(items, tail) == items[0].noise + (Build(items[0].frame) + Wire(items[1..], tail));
    }
  }

  /** Built frames between noise come out exactly, in order, under any chunking. */
  lemma BuiltFramesSurviveChunking(items: seq<Item>, tail: seq<u8>, chunks: seq<seq<u8>>)
    requires Quiet(items, tail) && (forall i :: 0 <= i < |items| ==> |Build(items[i].frame)| <= LONGEST)
    requires Concat(chunks) == Wire(items, tail)
    ensures Receive([], chunks) == (Frames(items), [])
  {
    hide Build, Extract, Bounded;
    WireIsBounded(items, tail, MAX_FRAME_LEN);
    NothingExtracted();
    assert [] + Concat(chunks) == Concat(chunks);
    ChunkingIsIrrelevant([], chunks);
    BuiltFramesComeOut(items, tail);
  }

  lemma SingleFrame(f: Frame)
    ensures Wire([Item([], f)], []) == Build(f) && Frames([Item([], f)]) == [f] && Quiet([Item([], f)], [])
  {
    var items := [Item([], f)];
    assert items[1..] == [] && [] + Build(f) + [] == Build(f);
  }

  lemma AloneIsFound(f: Frame)
    ensures Extract(Build(f)) == ([f], [])
  {
    hide Extract, Build, Wire;
    SingleFrame(f);
    BuiltFramesComeOut([Item([], f)], []);
  }

  lemma InTwo(x: seq<u8>, y: seq<u8>)
    ensures Concat([x, y]) == x + y
    ensures Receive([], [x, y]) == var (f, r) := Extract(x); var (g, q) := Extract(r + y); (f + g, q)
    ensures Receive([], [x]) == Extract(x)
  {
    assert [x, y][1..] == [y] && [y][1..] == [] && [x][1..] == [] && [] + x == x;
    assert Concat([y]) == y + Concat([]) == y;
    var r := Extract(x).1;
    assert Extract(r + y).0 + [] == Extract(r + y).0 && Extract(x).0 + [] == Extract(x).0;
    assert Receive(r, [y]) == Extract(r + y);
  }

  /** A frame cut in two comes out if and only if its first piece is no longer than a frame may wait for its end. */
  lemma CutFrameComesOut(f: Frame, k: nat)
    requires k < |Build(f)|
    ensures Receive([], [Build(f)[..k], Build(f)[k..]]) == (if k <= MAX_FRAME_LEN then [f] else [], [])
  {
    hide Build, BodyOf, Extract, Receive;
    var cut, rest := Build(f)[..k], Build(f)[k..];
    InTwo(cut, rest);
    assert cut + rest == Build(f);
    if k <= MAX_FRAME_LEN {
      BuildShape(f);
      forall i | 1 <= i < k ensures cut[i] != EOI {
        assert cut[i] == BodyOf(f)[i - 1];
      }
      BeginningWaits(cut);
      SingleFrame(f);
      BuiltFramesComeOut([Item([], f)], []);
      assert [] + [f] == [f];
    } else {
      LongPieceIsDropped(f, k);
      var none: seq<Frame> := [];
      assert none + none == none;
    }
  }

  /** The beginning of a frame waits for its end while it is short. */
  lemma BeginningWaits(cut: seq<u8>)
    requires cut == [] || (cut[0] == SOI && |cut| <= MAX_FRAME_LEN && forall i :: 1 <= i < |cut| ==> cut[i] != EOI)
    ensures Extract(cut) == ([], cut)
  {
    hide ParseBody;
    if cut != [] {
      FindIs(cut, EOI, 1, |cut|);
    }
  }

  lemma LongPieceIsDropped(f: Frame, k: nat)
    requires MAX_FRAME_LEN < k < |Build(f)|
    ensures Extract(Build(f)[..k]) == ([], []) && Extract([] + Build(f)[k..]) == ([], [])
  {
    hide Build, Extract, BodyOf;
    BuildShape(f);
    var cut, rest := Build(f)[..k], Build(f)[k..];
    forall i | 1 <= i < k ensures cut[i] != SOI && cut[i] != EOI {
      assert cut[i] == BodyOf(f)[i - 1];
    }
    HeadlessIsDropped(cut);
    forall i | 0 <= i < |rest| ensures rest[i] != SOI {
      assert rest[i] == Build(f)[k + i];
      if k + i < |Build(f)| - 1 { assert rest[i] == BodyOf(f)[k + i - 1]; }
    }
    SkipNoise(rest, []);
    assert [] + rest == rest && rest + [] == rest;
    NothingExtracted();
  }

  /** A buffer that is too long and has no EOI loses its SOI, and with it everything up to the next one. */
  lemma HeadlessIsDropped(cut: seq<u8>)
    requires |cut| > MAX_FRAME_LEN && cut[0] == SOI && forall i :: 1 <= i < |cut| ==> cut[i] != SOI && cut[i] != EOI
    ensures Extract(cut) == ([], [])
  {
    FindIs(cut, EOI, 1, |cut|);
    assert Parse(cut) == Drop(1);
    SkipNoise(cut[1..], []);
    assert cut[1..] + [] == cut[1..];
    NothingExtracted();
  }
}
