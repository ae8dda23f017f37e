/** INFO payloads: big-endian fields, written one after the other and read back with a cursor. */
module Payload {
  import opened Bytes
  import opened Wrappers

  // ---- Writing -----------------------------------------------------------------

  /** 16-bit values, high byte first. */
  function Words(vs: seq<u16>): (r: seq<u8>)
    ensures |r| == 2 * |vs|
  {
    if vs == [] then [] else Words(vs[..|vs| - 1]) + Be16(vs[|vs| - 1])
  }

  datatype AnalogResponse = AnalogResponse(
    infoflag: u8, command: u8, cells: seq<u16>, temps: seq<u16>, current: i16, voltage: u16,
    remain: u16, userDefined: u8, total: u16, cycles: u16)

  /** The fields after the two lists. */
  function FixedPart(a: AnalogResponse): (r: seq<u8>)
    ensures |r| == 11
  {
    Be16(Wrap16(a.current)) + Be16(a.voltage) + Be16(a.remain) + [a.userDefined] + Be16(a.total) + Be16(a.cycles)
  }

  function EncodeAnalog(r: AnalogResponse): seq<u8> {
    [r.infoflag, r.command, |r.cells| % 0x100] + Words(r.cells)
    + [|r.temps| % 0x100] + Words(r.temps)
    + FixedPart(r)
  }

  datatype SystemParameters = SystemParameters(
    infoflag: u8, cellHigh: u16, cellLow: u16, cellUnder: u16, chargeHighTemp: u16, chargeLowTemp: u16,
    chargeCurrent: i16, moduleHigh: u16, moduleLow: u16, moduleUnder: u16, dischargeHighTemp: u16,
    dischargeLowTemp: u16, dischargeCurrent: i16)

  function EncodeSystem(r: SystemParameters): seq<u8> {
    [r.infoflag] + Words([r.cellHigh, r.cellLow, r.cellUnder, r.chargeHighTemp, r.chargeLowTemp, Wrap16(r.chargeCurrent),
                          r.moduleHigh, r.moduleLow, r.moduleUnder, r.dischargeHighTemp, r.dischargeLowTemp,
                          Wrap16(r.dischargeCurrent)])
  }

  method PutWords(info: seq<u8>, vs: seq<u16>) returns (r: seq<u8>)
    ensures r == info + Words(vs)
  {
    r := info;
    for k := 0 to |vs|
      invariant r == info + Words(vs[..k])
    {
      assert vs[..k + 1][..k] == vs[..k];
      r := r + Be16(vs[k]);
    }
    assert vs[..|vs|] == vs;
  }

  method SerializeAnalog(a: AnalogResponse) returns (info: seq<u8>)
    ensures info == EncodeAnalog(a)
  {
    info := [a.infoflag, a.command, |a.cells| % 0x100];
    info := PutWords(info, a.cells);
    info := info + [|a.temps| % 0x100];
    info := PutWords(info, a.temps);
    info := info + Be16(Wrap16(a.current));
    info := info + Be16(a.voltage);
    info := info + Be16(a.remain);
    info := info + [a.userDefined];
    info := info + Be16(a.total);
    info := info + Be16(a.cycles);
  }

  // ---- Reading -----------------------------------------------------------------

  function WordAt(p: seq<u8>, i: nat): u16
    requires i + 1 < |p|
  {
    Join16(p[i], p[i + 1])
  }

  function WordsAt(p: seq<u8>, i: nat, n: nat): seq<u16>
    requires i + 2 * n <= |p|
  {
    seq(n, k requires 0 <= k < n => WordAt(p, i + 2 * k))
  }

  /** An embedded count. */
  function CountAt(info: seq<u8>, i: nat): nat
    requires i < |info|
  {
    info[i]
  }

  /** Where the second count stands, and how long the payload must be for both counts. */
  function TempCountAt(info: seq<u8>): nat
    requires |info| > 2
  {
    3 + 2 * CountAt(info, 2)
  }

  predicate LongEnough(info: seq<u8>) {
    |info| > 2 && |info| > TempCountAt(info) && |info| >= TempCountAt(info) + 1 + 2 * CountAt(info, TempCountAt(info)) + 11
  }

  function DecodeAnalog(info: seq<u8>): Option<AnalogResponse> {
    if !LongEnough(info) then None
    else
      var t := TempCountAt(info);
      var e := t + 1 + 2 * CountAt(info, t);
      Some(AnalogResponse(info[0], info[1], WordsAt(info, 3, CountAt(info, 2)), WordsAt(info, t + 1, CountAt(info, t)), Signed16(WordAt(info, e)),
                          WordAt(info, e + 2), WordAt(info, e + 4), info[e + 6], WordAt(info, e + 7), WordAt(info, e + 9)))
  }

  const SYSTEM_LENGTH := 25

  function DecodeSystem(info: seq<u8>): Option<SystemParameters> {
    if |info| < SYSTEM_LENGTH then None
    else
      var w := WordsAt(info, 1, 12);
      Some(SystemParameters(info[0], w[0], w[1], w[2], w[3], w[4], Signed16(w[5]), w[6], w[7], w[8], w[9], w[10], Signed16(w[11])))
  }

  /** The cursor: a read past the end yields 0, does not move, and is remembered. */
  class BeReader {
    const p: seq<u8>
    var i: nat
    var ok: bool

    constructor (p: seq<u8>)
      ensures this.p == p && i == 0 && ok
    {
      this.p, i, ok := p, 0, true;
    }

    method U8() returns (v: u8)
      requires i <= |p|
      modifies this
      ensures i == old(i) + (if old(i) + 1 <= |p| then 1 else 0) && i <= |p|
      ensures ok == (old(ok) && old(i) + 1 <= |p|)
      ensures v == if old(i) + 1 <= |p| then p[old(i)] else 0
    {
      if i + 1 > |p| {
        ok := false;
        return 0;
      }
      v, i := p[i], i + 1;
    }

    method U16() returns (v: u16)
      requires i <= |p|
      modifies this
      ensures i == old(i) + (if old(i) + 2 <= |p| then 2 else 0) && i <= |p|
      ensures ok == (old(ok) && old(i) + 2 <= |p|)
      ensures v == if old(i) + 2 <= |p| then WordAt(p, old(i)) else 0
    {
      if i + 2 > |p| {
        ok := false;
        return 0;
      }
      v, i := WordAt(p, i), i + 2;
    }

    /** As many words as announced. */
    method U16s(n: nat) returns (vs: seq<u16>)
      requires i <= |p|
      modifies this
      ensures i <= |p|
      ensures ok == (old(ok) && old(i) + 2 * n <= |p|)
      ensures ok ==> i == old(i) + 2 * n && vs == WordsAt(p, old(i), n)
    {
      vs := [];
      for k := 0 to n
        invariant i <= |p|
        invariant ok == (old(ok) && old(i) + 2 * k <= |p|)
        invariant ok ==> i == old(i) + 2 * k && vs == WordsAt(p, old(i), k)
        invariant old(ok) && !ok ==> old(i) + 2 * k > |p|
      {
        var v := U16();
        vs := vs + [v];
      }
    }
  }

  /** The fixed fields at the end of an analog payload. */
  method ReadFixedPart(r: BeReader) returns (current: u16, voltage: u16, remain: u16, userDefined: u8, total: u16, cycles: u16)
    requires r.i <= |r.p|
    modifies r
    ensures r.ok == (old(r.ok) && old(r.i) + 11 <= |r.p|)
    ensures r.ok ==>
      var p, e := r.p, old(r.i);
      current == WordAt(p, e) && voltage == WordAt(p, e + 2) && remain == WordAt(p, e + 4)
      && userDefined == p[e + 6] && total == WordAt(p, e + 7) && cycles == WordAt(p, e + 9)
  {
    hide WordAt;
    current := r.U16();
    voltage := r.U16();
    remain := r.U16();
    userDefined := r.U8();
    total := r.U16();
    cycles := r.U16();
  }

  method DeserializeAnalog(info: seq<u8>) returns (a: Option<AnalogResponse>)
    ensures a == DecodeAnalog(info)
  {
    hide WordAt, WordsAt;
    var r := new BeReader(info);
    var infoflag := r.U8();
    var command := r.U8();
    var cellCount := r.U8();
    var cells := r.U16s(cellCount);
    var tempCount := r.U8();
    assert r.ok <==> |info| > 2 && |info| > TempCountAt(info);
    var temps := r.U16s(tempCount);
    var current, voltage, remain, userDefined, total, cycles := ReadFixedPart(r);
    assert r.ok <==> LongEnough(info);
    a := if r.ok then Some(AnalogResponse(infoflag, command, cells, temps, Signed16(current), voltage, remain, userDefined, total, cycles))
         else None;
  }

  method DeserializeSystem(info: seq<u8>) returns (s: Option<SystemParameters>)
    ensures s == DecodeSystem(info)
  {
    var r := new BeReader(info);
    var infoflag := r.U8();
    var w := r.U16s(12);
    s := if r.ok
         then Some(SystemParameters(infoflag, w[0], w[1], w[2], w[3], w[4], Signed16(w[5]), w[6], w[7], w[8], w[9], w[10], Signed16(w[11])))
         else None;
  }

  // ---- Round trips -------------------------------------------------------------

  lemma {:induction false} WordReadsBack(vs: seq<u16>, k: nat)
    requires k < |vs|
    ensures WordAt(Words(vs), 2 * k) == vs[k]
  {
    if k < |vs| - 1 {
      WordReadsBack(vs[..|vs| - 1], k);
    }
  }

  lemma WordInside(before: seq<u8>, w: seq<u8>, after: seq<u8>, j: nat)
    requires j + 1 < |w|
    ensures WordAt(before + w + after, |before| + j) == WordAt(w, j)
  {
  }

  lemma WordOfSlice(p: seq<u8>, i: nat, end: nat, j: nat)
    requires i <= end <= |p| && j + 1 < end - i
    ensures WordAt(p, i + j) == WordAt(p[i..end], j)
  {
  }

  lemma WordsOfSlice(p: seq<u8>, i: nat, vs: seq<u16>)
    requires i + 2 * |vs| <= |p| && p[i..i + 2 * |vs|] == Words(vs)
    ensures WordsAt(p, i, |vs|) == vs
  {
    hide WordAt, Words;
    forall k | 0 <= k < |vs| ensures WordAt(p, i + 2 * k) == vs[k] {
      WordReadsBack(vs, k);
      WordOfSlice(p, i, i + 2 * |vs|, 2 * k);
    }
  }

  lemma WordsInside(before: seq<u8>, vs: seq<u16>, after: seq<u8>)
    ensures WordsAt(before + Words(vs) + after, |before|, |vs|) == vs
  {
    hide WordAt, WordsAt, Words;
    var p := before + Words(vs) + after;
    assert p[|before|..|before| + |Words(vs)|] == Words(vs);
    WordsOfSlice(p, |before|, vs);
  }

  lemma SignedReadsBack(x: i16)
    ensures Signed16(Wrap16(x)) == x
  {
  }

  lemma FixedPartReadsBack(a: AnalogResponse, before: seq<u8>, tail: seq<u8>)
    ensures var p, e := before + FixedPart(a) + tail, |before|;
      Signed16(WordAt(p, e)) == a.current && WordAt(p, e + 2) == a.voltage && WordAt(p, e + 4) == a.remain
      && p[e + 6] == a.userDefined && WordAt(p, e + 7) == a.total && WordAt(p, e + 9) == a.cycles
  {
    SignedReadsBack(a.current);
    var x := FixedPart(a);
    WordInside(before, x, tail, 0);
    WordInside(before, x, tail, 2);
    WordInside(before, x, tail, 4);
    WordInside(before, x, tail, 7);
    WordInside(before, x, tail, 9);
  }

  /** An analog payload decodes to itself, with anything after it, if both counts fit a byte. */
  lemma AnalogReadsBack(a: AnalogResponse, tail: seq<u8>)
    requires |a.cells| <= 255 && |a.temps| <= 255
    ensures DecodeAnalog(EncodeAnalog(a) + tail) == Some(a)
  {
    hide WordAt, WordsAt, Words, FixedPart;
    var info := EncodeAnalog(a) + tail;
    var first := [a.infoflag, a.command, |a.cells|];
    var second := first + Words(a.cells) + [|a.temps|];
    var third := second + Words(a.temps);
    assert info == third + FixedPart(a) + tail;
    assert info == second + Words(a.temps) + (FixedPart(a) + tail);
    assert info == first + Words(a.cells) + ([|a.temps|] + Words(a.temps) + FixedPart(a) + tail);
    WordsInside(first, a.cells, [|a.temps|] + Words(a.temps) + FixedPart(a) + tail);
    WordsInside(second, a.temps, FixedPart(a) + tail);
    FixedPartReadsBack(a, third, tail);
    assert CountAt(info, 2) == |a.cells| && TempCountAt(info) == |second| - 1 && CountAt(info, |second| - 1) == |a.temps|;
  }

  /** With more than 255 cells or temperatures the counts wrap, and the payload does not decode to itself. */
  lemma AnalogRoundTrip(a: AnalogResponse)
    ensures DecodeAnalog(EncodeAnalog(a)) == Some(a) <==> |a.cells| <= 255 && |a.temps| <= 255
  {
    if |a.cells| <= 255 && |a.temps| <= 255 {
      AnalogReadsBack(a, []);
      assert EncodeAnalog(a) + [] == EncodeAnalog(a);
    } else {
      CountsFitBytes(EncodeAnalog(a));
    }
  }

  lemma CountsFitBytes(info: seq<u8>)
    ensures DecodeAnalog(info).Some? ==> |DecodeAnalog(info).value.cells| <= 255 && |DecodeAnalog(info).value.temps| <= 255
  {
  }

  /** System parameters decode to themselves for all values. */
  lemma SystemRoundTrip(r: SystemParameters, tail: seq<u8>)
    ensures |EncodeSystem(r)| == SYSTEM_LENGTH
    ensures DecodeSystem(EncodeSystem(r) + tail) == Some(r)
  {
    var w := [r.cellHigh, r.cellLow, r.cellUnder, r.chargeHighTemp, r.chargeLowTemp, Wrap16(r.chargeCurrent),
              r.moduleHigh, r.moduleLow, r.moduleUnder, r.dischargeHighTemp, r.dischargeLowTemp, Wrap16(r.dischargeCurrent)];
    WordsInside([r.infoflag], w, tail);
    SignedReadsBack(r.chargeCurrent);
    SignedReadsBack(r.dischargeCurrent);
  }
}
