/**
 Two requests as an inverter sends them, byte by byte: what the builder writes for the first, and
 what the parser makes of the second, whose LENGTH announces an INFO that is not there.
 */
module CapturedFrames {
  import opened Bytes
  import opened Framing
  import opened FrameRoundTrip

  /** ~20024642E00202FD33, CR */
  const ANALOG_DIGITS: seq<u8> := [0x32, 0x30, 0x30, 0x32, 0x34, 0x36, 0x34, 0x32, 0x45, 0x30, 0x30, 0x32, 0x30, 0x32]
  const ANALOG_REQUEST: seq<u8> := [0x7E] + ANALOG_DIGITS + [0x46, 0x44, 0x33, 0x33] + [0x0D]

  /** ~20024647E002FD90, CR */
  const SYSTEM_DIGITS: seq<u8> := [0x32, 0x30, 0x30, 0x32, 0x34, 0x36, 0x34, 0x37, 0x45, 0x30, 0x30, 0x32]
  const SYSTEM_REQUEST: seq<u8> := [0x7E] + SYSTEM_DIGITS + [0x46, 0x44, 0x39, 0x30] + [0x0D]

  /** The sum of the first `k` bytes. */
  function Running(s: seq<u8>, k: nat): nat
    requires k <= |s|
  {
    Sum(s[..k])
  }

  lemma RunningGrows(s: seq<u8>)
    ensures Running(s, 0) == 0 && Running(s, |s|) == Sum(s)
    ensures forall k :: 0 < k <= |s| ==> Running(s, k) == Running(s, k - 1) + s[k - 1]
  {
    assert s[..|s|] == s;
    forall k | 0 < k <= |s| ensures Running(s, k) == Running(s, k - 1) + s[k - 1] {
      assert s[..k][..k - 1] == s[..k - 1];
    }
  }

  lemma AnalogChecksum()
    ensures Checksum(ANALOG_DIGITS) == 0xFD33
  {
    var s := ANALOG_DIGITS;
    RunningGrows(s);
    hide Running;
    assert Running(s, 1) == 0x32 && Running(s, 2) == 0x62 && Running(s, 3) == 0x92 && Running(s, 4) == 0xC4;
    assert Running(s, 5) == 0xF8 && Running(s, 6) == 0x12E && Running(s, 7) == 0x162 && Running(s, 8) == 0x194;
    assert Running(s, 9) == 0x1D9 && Running(s, 10) == 0x209 && Running(s, 11) == 0x239 && Running(s, 12) == 0x26B;
    assert Running(s, 13) == 0x29B && Running(s, 14) == 0x2CD;
  }

  lemma SystemChecksum()
    ensures Checksum(SYSTEM_DIGITS) == 0xFD90
  {
    var s := SYSTEM_DIGITS;
    RunningGrows(s);
    hide Running;
    assert Running(s, 1) == 0x32 && Running(s, 2) == 0x62 && Running(s, 3) == 0x92 && Running(s, 4) == 0xC4;
    assert Running(s, 5) == 0xF8 && Running(s, 6) == 0x12E && Running(s, 7) == 0x162 && Running(s, 8) == 0x199;
    assert Running(s, 9) == 0x1DE && Running(s, 10) == 0x20E && Running(s, 11) == 0x23E && Running(s, 12) == 0x270;
  }

  lemma {:induction false} DigitsOf(bytes: seq<u8>, digits: seq<u8>)
    requires |digits| == 2 * |bytes|
    requires forall k :: 0 <= k < |bytes| ==> Hex8(bytes[k]) == [digits[2 * k], digits[2 * k + 1]]
    ensures Encode(bytes) == digits
  {
    hide Hex8;
    if bytes != [] {
      var n := |bytes| - 1;
      assert Hex8(bytes[n]) == [digits[2 * n], digits[2 * n + 1]];
      DigitsOf(bytes[..n], digits[..2 * n]);
      assert digits == digits[..2 * n] + [digits[2 * n], digits[2 * n + 1]];
    }
  }

  lemma Digits()
    ensures Encode([0x20, 0x02, 0x46, 0x42, 0xE0, 0x02, 0x02]) == ANALOG_DIGITS
    ensures Encode([0x20, 0x02, 0x46, 0x47, 0xE0, 0x02]) == SYSTEM_DIGITS
  {
    DigitsOf([0x20, 0x02, 0x46, 0x42, 0xE0, 0x02, 0x02], ANALOG_DIGITS);
    DigitsOf([0x20, 0x02, 0x46, 0x47, 0xE0, 0x02], SYSTEM_DIGITS);
  }

  lemma LengthOfOneByte()
    ensures LengthField(2) == 0xE002
  {
    assert NibbleSum(2) == 2;
    CheckNibbleFound(2, 0);
  }

  lemma ChecksumDigits()
    ensures Encode([0xFD, 0x33]) == [0x46, 0x44, 0x33, 0x33]
    ensures Encode([0xFD, 0x90]) == [0x46, 0x44, 0x39, 0x30]
  {
    EncodeAt([0xFD, 0x33]);
    EncodeAt([0xFD, 0x90]);
  }

  /** The request for analog values of address 2, as captured, is what the builder writes. */
  lemma AnalogRequestIsBuilt()
    ensures Build(Frame(0x20, 0x02, 0x46, 0x42, [0x02])) == ANALOG_REQUEST
  {
    hide Encode, Checksum, LengthField;
    LengthOfOneByte();
    AnalogChecksum();
    Digits();
    ChecksumDigits();
    assert Fields(Frame(0x20, 0x02, 0x46, 0x42, [0x02])) == [0x20, 0x02, 0x46, 0x42, 0xE0, 0x02, 0x02];
  }

  /** The captured request for system parameters is accepted as one without INFO, though its LENGTH announces two digits. */
  lemma SystemRequestIsAccepted(tail: seq<u8>)
    ensures Parse(SYSTEM_REQUEST + tail) == Got(18, Frame(0x20, 0x02, 0x46, 0x47, []))
  {
    hide Encode, Checksum, Parse;
    var f := Frame(0x20, 0x02, 0x46, 0x47, []);
    SystemChecksum();
    Digits();
    ChecksumDigits();
    assert FieldsWith(f, [0xE0, 0x02]) == [0x20, 0x02, 0x46, 0x47, 0xE0, 0x02];
    AnyLengthIsAccepted(f, [0xE0, 0x02], tail);
    assert [SOI] + Checked(FieldsWith(f, [0xE0, 0x02])) + [EOI] == SYSTEM_REQUEST;
  }
}
