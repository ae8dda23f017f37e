/** Building and parsing a Pylontech frame undo each other. */
module FrameRoundTrip {
  import opened Bytes
  import opened Wrappers
  import opened Framing

  /** Every byte becomes two upper-case digits at its own place. */
  lemma {:induction false} EncodeAt(bytes: seq<u8>)
    ensures |Encode(bytes)| == 2 * |bytes|
    ensures forall k :: 0 <= k < |bytes| ==> Encode(bytes)[2 * k] == HexChar(bytes[k] / 16) && Encode(bytes)[2 * k + 1] == HexChar(bytes[k] % 16)
    ensures forall i :: 0 <= i < |Encode(bytes)| ==> IsUpperHex(Encode(bytes)[i])
  {
    if bytes != [] {
      EncodeAt(bytes[..|bytes| - 1]);
    }
  }

  lemma PairOfEncoded(bytes: seq<u8>, k: nat)
    requires k < |bytes|
    ensures 2 * k + 1 < |Encode(bytes)| && PairAt(Encode(bytes), k) == Some(bytes[k])
  {
    EncodeAt(bytes);
    var hi, lo := bytes[k] / 16, bytes[k] % 16;
    assert Encode(bytes)[2 * k] == HexChar(hi) && Encode(bytes)[2 * k + 1] == HexChar(lo);
    assert HexVal(HexChar(hi)) == Some(hi) && HexVal(HexChar(lo)) == Some(lo);
  }

  lemma DecodeEncode(bytes: seq<u8>)
    ensures |Encode(bytes)| == 2 * |bytes| && Decode(Encode(bytes), |bytes|) == Some(bytes)
  {
    hide PairAt, Encode, Decode, HexChar;
    EncodeAt(bytes);
    DecodePairs(Encode(bytes), |bytes|);
    forall k | 0 <= k < |bytes| ensures PairAt(Encode(bytes), k) == Some(bytes[k]) {
      PairOfEncoded(bytes, k);
    }
    assert Decode(Encode(bytes), |bytes|).value == bytes;
  }

  lemma {:induction false} EncodeConcat(a: seq<u8>, b: seq<u8>)
    ensures Encode(a) + Encode(b) == Encode(a + b)
    decreases |b|
  {
    if b == [] {
      assert a + b == a && Encode(a) + [] == Encode(a);
    } else {
      var init, last := b[..|b| - 1], b[|b| - 1];
      EncodeConcat(a, init);
      EncodeSnoc(a + init, last);
      EncodeSnoc(init, last);
      assert a + b == (a + init) + [last] && init + [last] == b;
      assert Encode(a) + (Encode(init) + Hex8(last)) == (Encode(a) + Encode(init)) + Hex8(last);
    }
  }

  /** Bytes in digits, followed by their checksum. */
  function Checked(bytes: seq<u8>): seq<u8> {
    Encode(bytes) + Encode(Be16(Checksum(Encode(bytes))))
  }

  /** What lies between SOI and EOI of a built frame. */
  function BodyOf(f: Frame): seq<u8> {
    Checked(Fields(f))
  }

  lemma BuildShape(f: Frame)
    ensures Build(f) == [SOI] + BodyOf(f) + [EOI]
    ensures |Build(f)| == 18 + 2 * |f.info|
    ensures forall i :: 0 <= i < |BodyOf(f)| ==> IsUpperHex(BodyOf(f)[i])
  {
    var cs := Checksum(Encode(Fields(f)));
    EncodeConcat(Fields(f), Be16(cs));
    EncodeAt(Fields(f) + Be16(cs));
  }

  /** The body without its checksum is the encoded fields. */
  lemma BodyBeforeChecksum(fields: seq<u8>)
    ensures |Checked(fields)| == 2 * |fields| + 4
    ensures Checked(fields)[..|Checked(fields)| - 4] == Encode(fields)
  {
    hide Encode, Checksum;
    EncodeAt(fields);
    EncodeAt(Be16(Checksum(Encode(fields))));
  }

  /** The body decodes to the fields and their checksum. */
  lemma BodyDecodes(fields: seq<u8>)
    ensures |Checked(fields)| == 2 * |fields| + 4
    ensures Decode(Checked(fields), |fields| + 2) == Some(fields + Be16(Checksum(Encode(fields))))
  {
    hide Encode, Decode, Checksum;
    var cs := Be16(Checksum(Encode(fields)));
    EncodeConcat(fields, cs);
    DecodeEncode(fields + cs);
  }

  lemma ChecksumPair(bytes: seq<u8>, cs: u16)
    ensures var b := bytes + Be16(cs); Join16(b[|b| - 2], b[|b| - 1]) == cs && b[..|b| - 2] == bytes
  {
  }

  /** Whatever stands in the place of LENGTH. */
  lemma ParseBodyWith(f: Frame, length: seq<u8>)
    requires |length| == 2
    ensures ParseBody(Checked(FieldsWith(f, length))) == Some(f)
  {
    hide Encode, Decode, Checksum, Checked, Join16, FieldsWith;
    var fields := FieldsWith(f, length);
    FieldsInOrder(f, length, Be16(Checksum(Encode(fields))));
    BodyBeforeChecksum(fields);
    BodyDecodes(fields);
    ChecksumPair(fields, Checksum(Encode(fields)));
  }

  lemma FieldsInOrder(f: Frame, length: seq<u8>, cs: seq<u8>)
    requires |length| == 2 && |cs| == 2
    ensures var b := FieldsWith(f, length) + cs;
      |b| == 8 + |f.info| && b[0] == f.ver && b[1] == f.adr && b[2] == f.cid1 && b[3] == f.cid2 && b[6..|b| - 2] == f.info
  {
  }

  /** The parser does not look at LENGTH: any two bytes in its place are accepted, followed by anything. */
  lemma AnyLengthIsAccepted(f: Frame, length: seq<u8>, tail: seq<u8>)
    requires |length| == 2
    ensures var body := Checked(FieldsWith(f, length));
      Parse([SOI] + body + [EOI] + tail) == Got(|body| + 2, f)
  {
    hide FieldsWith, ParseBody, Checked;
    var body := Checked(FieldsWith(f, length));
    CheckedIsUpper(FieldsWith(f, length));
    ParseBodyWith(f, length);
    var buf, end := [SOI] + body + [EOI] + tail, |body| + 1;
    assert buf[0] == SOI && buf[end] == EOI;
    forall i | 1 <= i < end ensures buf[i] != EOI {
      assert buf[i] == body[i - 1];
    }
    FindEnd(buf, end);
    assert buf[1..end] == body;
  }

  lemma CheckedIsUpper(fields: seq<u8>)
    ensures forall i :: 0 <= i < |Checked(fields)| ==> IsUpperHex(Checked(fields)[i])
  {
    hide Encode;
    var cs := Checksum(Encode(fields));
    EncodeConcat(fields, Be16(cs));
    EncodeAt(fields + Be16(cs));
  }

  lemma FindEnd(buf: seq<u8>, end: nat)
    requires 1 <= end < |buf| && buf[end] == EOI && forall i :: 1 <= i < end ==> buf[i] != EOI
    ensures Find(buf, EOI, 1) == end
  {
  }

  /** A built frame followed by anything parses back to itself, whatever its INFO. */
  lemma ParseUndoesBuild(f: Frame, tail: seq<u8>)
    ensures Parse(Build(f) + tail) == Got(|Build(f)|, f)
  {
    hide Build, BodyOf, Parse;
    BuildShape(f);
    AnyLengthIsAccepted(f, Be16(LengthOf(f)), tail);
    BodyIsChecked(f);
  }

  lemma BodyIsChecked(f: Frame)
    ensures BodyOf(f) == Checked(FieldsWith(f, Be16(LengthOf(f))))
  {
  }

  /** LENGTH as the builder writes it. */
  predicate CanonicalLength(body: seq<u8>, f: Frame)
    requires |body| >= 12
  {
    body[8..12] == Encode(Be16(LengthOf(f)))
  }

  predicate AllUpper(body: seq<u8>) {
    forall i :: 0 <= i < |body| ==> IsUpperHex(body[i])
  }

  lemma UpperPair(digits: seq<u8>, k: nat)
    requires 2 * k + 1 < |digits| && IsUpperHex(digits[2 * k]) && IsUpperHex(digits[2 * k + 1])
    ensures PairAt(digits, k).Some? && Hex8(PairAt(digits, k).value) == digits[2 * k..2 * k + 2]
  {
  }

  /** Upper-case digits are what the builder writes for the bytes they decode to. */
  lemma {:induction false} EncodeDecode(digits: seq<u8>, n: nat)
    requires 2 * n <= |digits| && AllUpper(digits)
    ensures Decode(digits, n).Some? && Encode(Decode(digits, n).value) == digits[..2 * n]
  {
    hide Encode, PairAt, Hex8;
    if n == 0 {
      NothingToEncode();
    } else {
      EncodeDecode(digits, n - 1);
      UpperPair(digits, n - 1);
      EncodeSnoc(Decode(digits, n - 1).value, PairAt(digits, n - 1).value);
      assert digits[..2 * n] == digits[..2 * (n - 1)] + digits[2 * (n - 1)..2 * n];
    }
  }

  /** The decoded bytes of an accepted body, LENGTH being what stands there in digits. */
  lemma AcceptedBytes(body: seq<u8>, f: Frame, hi: u8, lo: u8)
    requires ParseBody(body) == Some(f) && |body| >= 12 && body[8..12] == Encode([hi, lo])
    ensures Decode(body, |body| / 2) == Some(FieldsWith(f, [hi, lo]) + Be16(Checksum(body[..|body| - 4])))
  {
    hide Decode, PairAt, Hex8, Checksum, Encode;
    var n := |body| / 2;
    DecodePairs(body, n);
    var b := Decode(body, n).value;
    TwoBytes(hi, lo);
    HexLength(hi);
    assert body[8..10] == body[8..12][..2] && body[10..12] == body[8..12][2..];
    HexInjective(b[4], hi, body, 4);
    HexInjective(b[5], lo, body, 5);
    Unjoin(b[n - 2], b[n - 1]);
    Assembled(b, f, Be16(Checksum(body[..|body| - 4])));
  }

  lemma Assembled(b: seq<u8>, f: Frame, cs: seq<u8>)
    requires |b| >= 8 && f == Frame(b[0], b[1], b[2], b[3], b[6..|b| - 2]) && cs == [b[|b| - 2], b[|b| - 1]]
    ensures b == FieldsWith(f, [b[4], b[5]]) + cs
  {
    assert b == [b[0], b[1], b[2], b[3]] + [b[4], b[5]] + b[6..|b| - 2] + [b[|b| - 2], b[|b| - 1]];
  }

  lemma HexLength(v: u8)
    ensures |Hex8(v)| == 2
  {
  }

  lemma Unjoin(hi: u8, lo: u8)
    ensures Be16(Join16(hi, lo)) == [hi, lo]
  {
  }

  /** An accepted body in upper case is what the builder would write with that LENGTH. */
  lemma AcceptedBody(body: seq<u8>, f: Frame, hi: u8, lo: u8)
    requires ParseBody(body) == Some(f) && AllUpper(body) && |body| >= 12 && body[8..12] == Encode([hi, lo])
    ensures body == Checked(FieldsWith(f, [hi, lo]))
  {
    hide Decode, PairAt, Encode, Checksum, Be16;
    AcceptedBytes(body, f, hi, lo);
    var n := |body| / 2;
    EncodeDecode(body, n);
    assert body[..2 * n] == body;
    var fields, cs := FieldsWith(f, [hi, lo]), Checksum(body[..|body| - 4]);
    EncodeConcat(fields, Be16(cs));
    EncodeAt(fields);
    EncodeAt(Be16(cs));
    assert |Be16(cs)| == 2 by { WidthOfBe16(cs); }
    assert body == Encode(fields) + Encode(Be16(cs));
    assert body[..|body| - 4] == Encode(fields);
  }

  lemma WidthOfBe16(v: u16)
    ensures |Be16(v)| == 2
  {
  }

  lemma HexInjective(decoded: u8, written: u8, digits: seq<u8>, k: nat)
    requires 2 * k + 1 < |digits| && PairAt(digits, k) == Some(decoded)
    requires digits[2 * k..2 * k + 2] == Hex8(written)
    ensures decoded == written
  {
    assert digits[2 * k] == digits[2 * k..2 * k + 2][0] && digits[2 * k + 1] == digits[2 * k..2 * k + 2][1];
  }

  /** LENGTH stands in the digits 8 to 11 of a body, all of them in upper case. */
  lemma BuiltBody(f: Frame, length: seq<u8>)
    requires |length| == 2
    ensures var body := Checked(FieldsWith(f, length));
      AllUpper(body) && |body| >= 16 && body[8..12] == Encode(length)
  {
    hide Encode, Checksum, Be16;
    var head, cs := [f.ver, f.adr, f.cid1, f.cid2], Be16(Checksum(Encode(FieldsWith(f, length))));
    EncodeConcat(FieldsWith(f, length), cs);
    EncodeAt(FieldsWith(f, length) + cs);
    EncodeConcat(head, length);
    EncodeConcat(head + length, f.info);
    EncodeAt(head);
    EncodeAt(length);
    WidthOfBe16(Checksum(Encode(FieldsWith(f, length))));
    assert Checked(FieldsWith(f, length))[8..12] == Encode(length);
  }

  /**
   Rebuilding an accepted frame reproduces the bytes it was read from exactly when those are
   written in upper case and carry the LENGTH the builder writes.
   */
  lemma BuildUndoesParse(buf: seq<u8>, n: nat, f: Frame)
    requires Parse(buf) == Got(n, f)
    ensures 18 <= n <= |buf|
    ensures Build(f) == buf[..n] <==> AllUpper(buf[1..n - 1]) && CanonicalLength(buf[1..n - 1], f)
  {
    var body := buf[1..n - 1];
    assert ParseBody(body) == Some(f);
    assert |body| >= 16 && buf[..n] == [SOI] + body + [EOI];
    hide ParseBody, Build, AllUpper, Checked, Encode, LengthOf, FieldsWith;
    BuildShape(f);
    var length := LengthOf(f);
    if AllUpper(body) && CanonicalLength(body, f) {
      AcceptedBody(body, f, length / 0x100, length % 0x100);
    }
    if Build(f) == buf[..n] {
      assert body == Build(f)[1..|Build(f)| - 1] == BodyOf(f);
      BuiltBody(f, Be16(length));
    }
  }

  /** LENGTH of a built frame carries the number of INFO digits exactly when that number fits twelve bits. */
  lemma BuiltLengthIsInfoLength(f: Frame)
    ensures var length := LengthOf(f);
      && NibbleSum(length) % 0x10 == 0
      && (length % 0x1000 == 2 * |f.info| <==> 2 * |f.info| < 0x1000)
  {
    hide LengthField, NibbleSum;
    LengthFieldChecks(Wrap16(2 * |f.info|));
  }
}
