/**
 Pylontech frames on the wire: SOI, an even number of hexadecimal digits, EOI. The digits hold
 VER, ADR, CID1, CID2, LENGTH, INFO and a two's-complement checksum over the digits before it.
 */
module Framing {
  import opened Bytes
  import opened Wrappers

  const SOI: u8 := 0x7E
  const EOI: u8 := 0x0D
  const MIN_BODY_LEN := 16
  const MAX_FRAME_LEN := 4096

  datatype Frame = Frame(ver: u8, adr: u8, cid1: u8, cid2: u8, info: seq<u8>)

  // ---- Hexadecimal -------------------------------------------------------------

  function HexChar(v: u8): u8
    requires v < 16
  {
    if v < 10 then '0' as int + v else 'A' as int + (v - 10)
  }

  function HexVal(c: u8): Option<u8> {
    if '0' as int <= c <= '9' as int then Some(c - '0' as int)
    else if 'A' as int <= c <= 'F' as int then Some(c - 'A' as int + 10)
    else if 'a' as int <= c <= 'f' as int then Some(c - 'a' as int + 10)
    else None
  }

  predicate IsUpperHex(c: u8) {
    '0' as int <= c <= '9' as int || 'A' as int <= c <= 'F' as int
  }

  function Hex8(v: u8): seq<u8> {
    [HexChar(v / 16), HexChar(v % 16)]
  }

  function Encode(bytes: seq<u8>): seq<u8> {
    if bytes == [] then [] else Encode(bytes[..|bytes| - 1]) + Hex8(bytes[|bytes| - 1])
  }

  /** The byte written by the digits 2k and 2k + 1. */
  function PairAt(digits: seq<u8>, k: nat): Option<u8>
    requires 2 * k + 1 < |digits|
  {
    var hi, lo := HexVal(digits[2 * k]), HexVal(digits[2 * k + 1]);
    if hi.Some? && lo.Some? then Some(hi.value * 16 + lo.value) else None
  }

  /** The first `n` bytes written by the digits; None if one of them is not written in digits. */
  function Decode(digits: seq<u8>, n: nat): Option<seq<u8>>
    requires 2 * n <= |digits|
  {
    if n == 0 then Some([])
    else
      var init, last := Decode(digits, n - 1), PairAt(digits, n - 1);
      if init.Some? && last.Some? then Some(init.value + [last.value]) else None
  }

  // ---- Checksums ---------------------------------------------------------------

  function Sum(p: seq<u8>): nat {
    if p == [] then 0 else Sum(p[..|p| - 1]) + p[|p| - 1]
  }

  function Checksum(p: seq<u8>): u16 {
    Negated16(Sum(p))
  }

  function NibbleSum(x: nat): nat {
    if x == 0 then 0 else x % 0x10 + NibbleSum(x / 0x10)
  }

  /** The first of `x`, `x` + 0x1000, ... whose nibbles sum to 0 modulo 16. */
  function WithCheckNibble(x: u16): u16
    decreases 0x1_0000 - x
  {
    if NibbleSum(x) % 0x10 == 0 || x >= 0xF000 then x else WithCheckNibble(x + 0x1000)
  }

  /** LENGTH: the low twelve bits of the length behind the nibble that makes the nibbles sum to 0 modulo 16. */
  function LengthField(lenid: u16): u16 {
    WithCheckNibble(lenid % 0x1000)
  }

  /** The low nibble of the two's complement. */
  function TwosComplement4(s: nat): nat {
    (0 - s as int) % 0x10
  }

  /** A number of at most three nibbles, with another nibble in front. */
  lemma NibbleInFront(k: nat, y: nat)
    requires k < 0x10 && y < 0x1000
    ensures NibbleSum(k * 0x1000 + y) == k + NibbleSum(y)
    ensures (k * 0x1000 + y) / 0x1000 == k && (k * 0x1000 + y) % 0x1000 == y
  {
    hide NibbleSum;
    var y1 := y / 0x10;
    var y2 := y1 / 0x10;
    LastNibble(k * 0x100 + y1, y % 0x10);
    LastNibble(k * 0x10 + y2, y1 % 0x10);
    LastNibble(k, y2);
    LastNibble(0, k);
    LastNibble(y1, y % 0x10);
    LastNibble(y2, y1 % 0x10);
    LastNibble(0, y2);
    assert NibbleSum(0) == 0 by { NoNibbles(); }
  }

  lemma LastNibble(x: nat, d: nat)
    requires d < 0x10
    ensures NibbleSum(x * 0x10 + d) == NibbleSum(x) + d
  {
    assert (x * 0x10 + d) / 0x10 == x && (x * 0x10 + d) % 0x10 == d;
  }

  lemma NoNibbles()
    ensures NibbleSum(0) == 0
  {
  }

  /** Counting up the front nibble stops at the two's complement of the sum of the others. */
  lemma {:induction false} CheckNibbleFound(y: nat, k: nat)
    requires y < 0x1000 && k <= TwosComplement4(NibbleSum(y))
    ensures WithCheckNibble(k * 0x1000 + y) == TwosComplement4(NibbleSum(y)) * 0x1000 + y
    decreases 0x10 - k
  {
    hide NibbleSum, TwosComplement4;
    var s := NibbleSum(y);
    FirstMultiple(s, k);
    NibbleInFront(k, y);
    if k < TwosComplement4(s) {
      CheckNibbleFound(y, k + 1);
      assert (k + 1) * 0x1000 + y == k * 0x1000 + y + 0x1000;
    }
  }

  lemma FirstMultiple(s: nat, k: nat)
    requires k <= TwosComplement4(s)
    ensures k <= TwosComplement4(s) < 0x10 && ((k + s) % 0x10 == 0 <==> k == TwosComplement4(s))
  {
  }

  /** The nibbles of every LENGTH sum to 0 modulo 16; exactly the lengths below 4096 can be read back. */
  lemma LengthFieldChecks(lenid: u16)
    ensures NibbleSum(LengthField(lenid)) % 0x10 == 0
    ensures LengthField(lenid) % 0x1000 == lenid <==> lenid < 0x1000
  {
    hide NibbleSum, TwosComplement4, WithCheckNibble;
    var y := lenid % 0x1000;
    FirstMultiple(NibbleSum(y), 0);
    CheckNibbleFound(y, 0);
    FirstMultiple(NibbleSum(y), TwosComplement4(NibbleSum(y)));
    NibbleInFront(TwosComplement4(NibbleSum(y)), y);
  }

  method ComputeLengthField(lenid: u16) returns (r: u16)
    ensures r == LengthField(lenid)
  {
    hide NibbleSum, WithCheckNibble, TwosComplement4;
    ThreeNibbles(lenid);
    var s: u8 := lenid / 0x100 % 0x10 + lenid / 0x10 % 0x10 + lenid % 0x10;
    var check := (0xFF - s + 1) % 0x10;
    ComplementOfByte(s);
    FirstMultiple(s, 0);
    r := check * 0x1000 + lenid % 0x1000;
    CheckNibbleFound(lenid % 0x1000, 0);
  }

  lemma ComplementOfByte(s: u8)
    ensures (0xFF - s + 1) % 0x10 == TwosComplement4(s)
  {
  }

  lemma Nibbles(k: nat, a: nat, b: nat, c: nat)
    requires a < 0x10 && b < 0x10 && c < 0x10
    ensures var x := k * 0x1000 + a * 0x100 + b * 0x10 + c;
      x / 0x100 % 0x10 == a && x / 0x10 % 0x10 == b && x % 0x10 == c && x % 0x1000 == a * 0x100 + b * 0x10 + c
  {
    var x := k * 0x1000 + a * 0x100 + b * 0x10 + c;
    assert x / 0x10 == k * 0x100 + a * 0x10 + b;
    assert x / 0x100 == k * 0x10 + a;
  }

  lemma SumOfThree(a: nat, b: nat, c: nat)
    requires a < 0x10 && b < 0x10 && c < 0x10
    ensures NibbleSum(a * 0x100 + b * 0x10 + c) == a + b + c
  {
    hide NibbleSum;
    LastNibble(a * 0x10 + b, c);
    LastNibble(a, b);
    LastNibble(0, a);
    NoNibbles();
  }

  lemma ThreeNibbles(x: nat)
    ensures NibbleSum(x % 0x1000) == x / 0x100 % 0x10 + x / 0x10 % 0x10 + x % 0x10
  {
    hide NibbleSum;
    var q1 := x / 0x10;
    var q2 := q1 / 0x10;
    assert x == q2 / 0x10 * 0x1000 + q2 % 0x10 * 0x100 + q1 % 0x10 * 0x10 + x % 0x10;
    Nibbles(q2 / 0x10, q2 % 0x10, q1 % 0x10, x % 0x10);
    SumOfThree(q2 % 0x10, q1 % 0x10, x % 0x10);
  }

  // ---- Building ----------------------------------------------------------------

  /** LENGTH of a frame: its number of INFO digits, cut to 16 bits. */
  function LengthOf(f: Frame): u16 {
    LengthField(Wrap16(2 * |f.info|))
  }

  /** The header bytes, the bytes of LENGTH, and INFO. */
  function FieldsWith(f: Frame, length: seq<u8>): seq<u8> {
    [f.ver, f.adr, f.cid1, f.cid2] + length + f.info
  }

  /** What the digits before the checksum write. */
  function Fields(f: Frame): seq<u8> {
    FieldsWith(f, Be16(LengthOf(f)))
  }

  function Build(f: Frame): seq<u8> {
    var body := Encode(Fields(f));
    [SOI] + body + Encode(Be16(Checksum(body))) + [EOI]
  }

  /** A 32-bit sum is the sum up to wrap-around, byte by byte, and its low half decides the checksum. */
  lemma NextByte(p: seq<u8>, i: nat)
    requires i < |p|
    ensures Wrap32(Sum(p[..i + 1])) == Wrap32(Wrap32(Sum(p[..i])) as int + p[i])
  {
    assert p[..i + 1][..i] == p[..i];
  }

  lemma LowHalf(s: nat)
    ensures Negated16(Wrap32(s) % 0x1_0000) == Negated16(s)
  {
    var q, r := s / 0x1_0000_0000, s % 0x1_0000_0000;
    var high, low := r / 0x1_0000, r % 0x1_0000;
    assert 0 - s == (0 - low) + (0 - q * 0x1_0000 - high) * 0x1_0000;
    Shifted(0 - low, 0 - q * 0x1_0000 - high);
  }

  lemma Shifted(x: int, k: int)
    ensures (x + k * 0x1_0000) % 0x1_0000 == x % 0x1_0000
  {
  }

  method ChecksumOver(p: seq<u8>) returns (c: u16)
    ensures c == Checksum(p)
  {
    hide Sum, Wrap32, Negated16;
    var sum: u32 := 0;
    assert Wrap32(Sum(p[..0])) == 0 by { NoBytes(p); }
    for i := 0 to |p|
      invariant sum == Wrap32(Sum(p[..i]))
    {
      NextByte(p, i);
      sum := Wrap32(sum as int + p[i]);
    }
    assert p[..|p|] == p;
    LowHalf(Sum(p));
    c := Negated16(sum % 0x1_0000);
  }

  lemma NoBytes(p: seq<u8>)
    ensures Wrap32(Sum(p[..0])) == 0
  {
  }

  method PutHex8(out: seq<u8>, v: u8) returns (r: seq<u8>)
    ensures r == out + Hex8(v)
  {
    r := out + [HexChar(v / 16)];
    r := r + [HexChar(v % 16)];
  }

  lemma EncodeSnoc(bytes: seq<u8>, v: u8)
    ensures Encode(bytes + [v]) == Encode(bytes) + Hex8(v)
  {
    assert (bytes + [v])[..|bytes|] == bytes;
  }

  lemma NothingToEncode()
    ensures Encode([]) == []
  {
  }

  lemma TwoBytes(hi: u8, lo: u8)
    ensures Encode([hi, lo]) == Hex8(hi) + Hex8(lo)
  {
    hide Encode, Hex8;
    NothingToEncode();
    EncodeSnoc([], hi);
    EncodeSnoc([hi], lo);
    assert [] + [hi] == [hi] && [hi] + [lo] == [hi, lo];
  }

  /** The six header bytes, written one after the other. */
  method PutHeader(f: Frame) returns (body: seq<u8>)
    ensures body == Encode(Fields(f)[..6])
  {
    var length := ComputeLengthField(Wrap16(2 * |f.info|));
    body := PutHex8([], f.ver);
    EncodeSnoc([], f.ver);
    assert [] + [f.ver] == [f.ver];
    body := PutHex8(body, f.adr);
    EncodeSnoc([f.ver], f.adr);
    assert [f.ver] + [f.adr] == [f.ver, f.adr];
    body := PutHex8(body, f.cid1);
    EncodeSnoc([f.ver, f.adr], f.cid1);
    assert [f.ver, f.adr] + [f.cid1] == [f.ver, f.adr, f.cid1];
    body := PutHex8(body, f.cid2);
    EncodeSnoc([f.ver, f.adr, f.cid1], f.cid2);
    assert [f.ver, f.adr, f.cid1] + [f.cid2] == [f.ver, f.adr, f.cid1, f.cid2];
    body := PutHex8(body, length / 0x100);
    EncodeSnoc([f.ver, f.adr, f.cid1, f.cid2], length / 0x100);
    var head := [f.ver, f.adr, f.cid1, f.cid2] + [length / 0x100];
    body := PutHex8(body, length % 0x100);
    EncodeSnoc(head, length % 0x100);
    assert Fields(f)[..6] == head + [length % 0x100];
  }

  method BuildPylontech(f: Frame) returns (out: seq<u8>)
    ensures out == Build(f)
  {
    hide LengthField;
    var body := PutHeader(f);
    for i := 0 to |f.info|
      invariant body == Encode(Fields(f)[..6 + i])
    {
      EncodeSnoc(Fields(f)[..6 + i], f.info[i]);
      assert Fields(f)[..6 + i] + [f.info[i]] == Fields(f)[..6 + (i + 1)];
      body := PutHex8(body, f.info[i]);
    }
    assert Fields(f)[..6 + |f.info|] == Fields(f);
    var cs := ChecksumOver(body);
    out := [SOI] + body;
    out := PutHex8(out, cs / 0x100);
    out := PutHex8(out, cs % 0x100);
    TwoBytes(cs / 0x100, cs % 0x100);
    out := out + [EOI];
  }

  // ---- Parsing -----------------------------------------------------------------

  /** Need more bytes; drop `n` bytes; or a frame in the first `n` bytes. */
  datatype Outcome = Need | Drop(n: nat) | Got(n: nat, frame: Frame)

  /** The first position from `i` on that holds `b`, or the length. */
  function Find(buf: seq<u8>, b: u8, i: nat): (k: nat)
    requires i <= |buf|
    ensures i <= k <= |buf| && (k < |buf| ==> buf[k] == b) && forall j :: i <= j < k ==> buf[j] != b
    decreases |buf| - i
  {
    if i == |buf| || buf[i] == b then i else Find(buf, b, i + 1)
  }

  /** The digits between SOI and EOI: a frame, if they decode and the checksum is right. */
  function ParseBody(body: seq<u8>): Option<Frame> {
    if |body| < MIN_BODY_LEN || |body| % 2 != 0 then None
    else
      var bytes := Decode(body, |body| / 2);
      if bytes == None then None
      else
        DecodeLength(body, |body| / 2);
        var b := bytes.value;
        if Join16(b[|b| - 2], b[|b| - 1]) != Checksum(body[..|body| - 4]) then None
        else Some(Frame(b[0], b[1], b[2], b[3], b[6..|b| - 2]))
  }

  lemma {:induction false} DecodeLength(digits: seq<u8>, n: nat)
    requires 2 * n <= |digits| && Decode(digits, n).Some?
    ensures |Decode(digits, n).value| == n
  {
    if n > 0 { DecodeLength(digits, n - 1); }
  }

  function Parse(buf: seq<u8>): Outcome {
    if buf == [] then Need
    else
      var soi := Find(buf, SOI, 0);
      if soi > 0 then Drop(soi)
      else
        var eoi := Find(buf, EOI, 1);
        if eoi == |buf| then (if |buf| > MAX_FRAME_LEN then Drop(1) else Need)
        else
          var f := ParseBody(buf[1..eoi]);
          if f.Some? then Got(eoi + 1, f.value) else Drop(eoi + 1)
  }

  /** The return value of the parser: bytes consumed, 0, or bytes to discard as a negative number. */
  function Code(o: Outcome): int {
    match o
    case Need => 0
    case Drop(n) => 0 - n
    case Got(n, _) => n
  }

  lemma {:induction false} DecodePairs(digits: seq<u8>, n: nat)
    requires 2 * n <= |digits|
    ensures Decode(digits, n).Some? <==> forall k :: 0 <= k < n ==> PairAt(digits, k).Some?
    ensures Decode(digits, n).Some? ==> |Decode(digits, n).value| == n
    ensures Decode(digits, n).Some? ==> forall k :: 0 <= k < n ==> Decode(digits, n).value[k] == PairAt(digits, k).value
  {
    if n > 0 { DecodePairs(digits, n - 1); }
  }

  method DecodeInfo(body: seq<u8>) returns (info: Option<seq<u8>>)
    requires |body| >= MIN_BODY_LEN && |body| % 2 == 0
    ensures info.Some? <==> forall k :: 6 <= k < |body| / 2 - 2 ==> PairAt(body, k).Some?
    ensures info.Some? ==> |info.value| == |body| / 2 - 8
    ensures info.Some? ==> forall k :: 0 <= k < |info.value| ==> info.value[k] == PairAt(body, 6 + k).value
  {
    var bytes := [];
    for i := 0 to (|body| - MIN_BODY_LEN) / 2
      invariant |bytes| == i
      invariant forall k :: 6 <= k < 6 + i ==> PairAt(body, k).Some?
      invariant forall k :: 0 <= k < i ==> bytes[k] == PairAt(body, 6 + k).value
    {
      var b := PairAt(body, 6 + i);
      if b == None {
        return None;
      }
      bytes := bytes + [b.value];
    }
    info := Some(bytes);
  }

  method ParseFrameBody(body: seq<u8>) returns (f: Option<Frame>)
    ensures f == ParseBody(body)
  {
    if |body| < MIN_BODY_LEN || |body| % 2 != 0 {
      return None;
    }
    hide Decode, PairAt;
    var pairs := |body| / 2;
    DecodePairs(body, pairs);
    for k := 0 to 6
      invariant forall j :: 0 <= j < k ==> PairAt(body, j).Some?
    {
      if PairAt(body, k) == None {
        return None;
      }
    }
    var hi, lo := PairAt(body, pairs - 2), PairAt(body, pairs - 1);
    if hi == None || lo == None {
      return None;
    }
    var expected := ChecksumOver(body[..|body| - 4]);
    if expected != Join16(hi.value, lo.value) {
      return None;
    }
    var info := DecodeInfo(body);
    if info == None {
      return None;
    }
    f := Some(Frame(PairAt(body, 0).value, PairAt(body, 1).value, PairAt(body, 2).value, PairAt(body, 3).value, info.value));
    assert Decode(body, pairs).value[6..pairs - 2] == info.value;
  }

  method TryParsePylontech(buf: seq<u8>) returns (n: int, out: Option<Frame>)
    ensures n == Code(Parse(buf))
    ensures n > 0 <==> out.Some?
    ensures n > 0 ==> Parse(buf) == Got(n, out.value)
  {
    hide ParseBody;
    out := None;
    if buf == [] {
      return 0, None;
    }
    var soi := 0;
    while soi < |buf| && buf[soi] != SOI
      invariant soi <= |buf| && Find(buf, SOI, 0) == Find(buf, SOI, soi)
    {
      soi := soi + 1;
    }
    if soi > 0 {
      return 0 - soi, None;
    }
    var eoi := 1;
    while eoi < |buf| && buf[eoi] != EOI
      invariant 1 <= eoi <= |buf| && Find(buf, EOI, 1) == Find(buf, EOI, eoi)
    {
      eoi := eoi + 1;
    }
    if eoi == |buf| {
      return if |buf| > MAX_FRAME_LEN then -1 else 0, None;
    }
    out := ParseFrameBody(buf[1..eoi]);
    n := if out.Some? then eoi + 1 else 0 - (eoi + 1);
  }
}
