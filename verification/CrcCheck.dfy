/** The published example values of the checksum, worked out by flip-flops. */
module CrcCheck {
  import opened Prelude
  import opened Bits
  import opened Crc16
  import opened CrcPeriod
  import opened CrcDetection

  /** A byte mixed into the upper half of the flip-flops. */
  function Mixed(r: Flops, byte: Byte): Flops {
    Flops(r.b0, r.b1, r.b2, r.b3, r.b4, r.b5, r.b6, r.b7,
          r.b8 != Bit(byte, 0), r.b9 != Bit(byte, 1), r.b10 != Bit(byte, 2), r.b11 != Bit(byte, 3),
          r.b12 != Bit(byte, 4), r.b13 != Bit(byte, 5), r.b14 != Bit(byte, 6), r.b15 != Bit(byte, 7))
  }

  lemma ReadMixed(crc: u16, byte: Byte)
    ensures Read(Xor16(crc, 0x100 * byte)) == Mixed(Read(crc), byte)
  {
    hide Bit, Xor;
    var mixed := Xor16(crc, 0x100 * byte);
    forall j | 0 <= j < 16
      ensures Bit(mixed, j) == (Bit(crc, j) != (j >= 8 && Bit(byte, j - 8)))
    {
      BitXor(crc, 0x100 * byte, j);
      BitOfShifted(byte, j);
    }
    hide Xor16;
  }

  lemma BitOfShifted(byte: Byte, j: nat)
    ensures Bit(0x100 * byte, j) == (j >= 8 && Bit(byte, j - 8))
  {
    hide Bit, Scale;
    ScaleConstants(byte);
    BitOfFields(byte, 0, 8, j);
    ZeroHasNoBits(j);
  }

  lemma EightClocks(v: u16)
    ensures Read(Shifts(v, 8)) == Clock(Clock(Clock(Clock(Clock(Clock(Clock(Clock(Read(v)))))))))
  {
    hide Read, Clock, Shift;
    ReadShift(v);
    ReadShift(Shift(v));
    ReadShift(Shift(Shift(v)));
    ReadShift(Shift(Shift(Shift(v))));
    ReadShift(Shift(Shift(Shift(Shift(v)))));
    ReadShift(Shift(Shift(Shift(Shift(Shift(v))))));
    ReadShift(Shift(Shift(Shift(Shift(Shift(Shift(v)))))));
    ReadShift(Shift(Shift(Shift(Shift(Shift(Shift(Shift(v))))))));
    assert Shifts(v, 8) == Shift(Shift(Shift(Shift(Shift(Shift(Shift(Shift(v))))))));
  }

  function At(r: Flops, j: nat): bool
    requires j < 16
  {
    if j < 8 then
      if j < 4 then (if j == 0 then r.b0 else if j == 1 then r.b1 else if j == 2 then r.b2 else r.b3)
      else (if j == 4 then r.b4 else if j == 5 then r.b5 else if j == 6 then r.b6 else r.b7)
    else
      if j < 12 then (if j == 8 then r.b8 else if j == 9 then r.b9 else if j == 10 then r.b10 else r.b11)
      else (if j == 12 then r.b12 else if j == 13 then r.b13 else if j == 14 then r.b14 else r.b15)
  }

  lemma BitIsAt(v: u16, j: nat)
    requires j < 16
    ensures Bit(v, j) == At(Read(v), j)
  {
    hide Bit;
  }

  lemma SameReading(x: u16, y: u16)
    requires Read(x) == Read(y)
    ensures x == y
  {
    hide Bit, Read, At;
    Powers();
    forall j | 0 <= j < 16
      ensures Bit(x, j) == Bit(y, j)
    {
      BitIsAt(x, j);
      BitIsAt(y, j);
    }
    SameBits(x, y, 16);
  }

  /** The registers of the published examples: nothing, the letter A, and the check
      value of CRC-16/CCITT-FALSE for the digits 1 to 9, in ASCII. */
  lemma CheckValues()
    ensures Crc(INIT, []) == 0xFFFF && Crc(INIT, [0x41]) == 0xB915
    ensures Crc(INIT, [0x31, 0x32, 0x33, 0x34, 0x35, 0x36, 0x37, 0x38, 0x39]) == 0x29B1
  {
    hide Crc, Read;
    ReadStart();
    ReadLetter();
    ReadCheck();
    ThirdThreeDigits();
    assert [] + [0x41] == [0x41];
    NextByte([], 0x41, Flops(
      true, false, true, false, true, false, false, false, true, false, false, true, true, true, false, true));
    SameReading(Crc(INIT, [0x41]), 0xB915);
    SameReading(Crc(INIT, [0x31, 0x32, 0x33, 0x34, 0x35, 0x36, 0x37, 0x38, 0x39]), 0x29B1);
  }

  lemma NextByte(data: Bytes, byte: Byte, after: Flops)
    requires Clock(Clock(Clock(Clock(Clock(Clock(Clock(Clock(Mixed(Read(Crc(INIT, data)), byte))))))))) == after
    ensures Read(Crc(INIT, data + [byte])) == after
  {
    assert (data + [byte])[..|data|] == data;
    hide Mixed, Clock, Read, Shifts;
    ReadMixed(Crc(INIT, data), byte);
    EightClocks(Xor16(Crc(INIT, data), 0x100 * byte));
  }

  lemma FirstThreeDigits()
    ensures Read(Crc(INIT, [0x31, 0x32, 0x33])) == Flops(
      false, true, true, true, false, false, true, true, true, true, false, true, true, false, true, false)
  {
    hide Crc, Read;
    ReadStart();
    var done: Bytes := [];
    NextByte(done, 0x31, Flops(
      false, true, false, false, false, false, false, true, true, true, true, false, false, false, true, true));
    NextByte(done + [0x31], 0x32, Flops(
      false, true, false, true, true, true, false, true, true, false, true, true, true, true, false, false));
    NextByte(done + [0x31] + [0x32], 0x33, Flops(
      false, true, true, true, false, false, true, true, true, true, false, true, true, false, true, false));
    assert done + [0x31] + [0x32] + [0x33] == [0x31, 0x32, 0x33];
  }

  lemma SecondThreeDigits()
    ensures Read(Crc(INIT, [0x31, 0x32, 0x33, 0x34, 0x35, 0x36])) == Flops(
      false, false, true, false, true, true, true, true, false, true, true, true, false, true, false, false)
  {
    FirstThreeDigits();
    var done: Bytes := [0x31, 0x32, 0x33];
    hide Crc, Read;
    NextByte(done, 0x34, Flops(
      true, false, false, true, false, false, true, false, true, true, false, false, true, false, true, false));
    NextByte(done + [0x34], 0x35, Flops(
      false, false, false, false, false, true, true, false, true, false, true, false, false, false, true, false));
    NextByte(done + [0x34] + [0x35], 0x36, Flops(
      false, false, true, false, true, true, true, true, false, true, true, true, false, true, false, false));
    assert done + [0x34] + [0x35] + [0x36] == [0x31, 0x32, 0x33, 0x34, 0x35, 0x36];
  }

  lemma ThirdThreeDigits()
    ensures Read(Crc(INIT, [0x31, 0x32, 0x33, 0x34, 0x35, 0x36, 0x37, 0x38, 0x39])) == Flops(
      true, false, false, false, true, true, false, true, true, false, false, true, false, true, false, false)
  {
    SecondThreeDigits();
    var done: Bytes := [0x31, 0x32, 0x33, 0x34, 0x35, 0x36];
    hide Crc, Read;
    NextByte(done, 0x37, Flops(
      false, false, false, true, true, false, false, false, true, true, true, false, true, true, true, false));
    NextByte(done + [0x37], 0x38, Flops(
      true, true, false, true, false, true, false, false, true, false, false, false, false, true, false, true));
    NextByte(done + [0x37] + [0x38], 0x39, Flops(
      true, false, false, false, true, true, false, true, true, false, false, true, false, true, false, false));
    assert done + [0x37] + [0x38] + [0x39] == [0x31, 0x32, 0x33, 0x34, 0x35, 0x36, 0x37, 0x38, 0x39];
  }

  lemma ReadStart()
    ensures Crc(INIT, []) == 0xFFFF
    ensures Read(Crc(INIT, [])) == Flops(
      true, true, true, true, true, true, true, true, true, true, true, true, true, true, true, true)
  {
    DigitsOfBytes(0xFF, 0xFF, 0);
    DigitsOfBytes(0xFF, 0xFF, 1);
    DigitsOfBytes(0xFF, 0xFF, 2);
    DigitsOfBytes(0xFF, 0xFF, 3);
    DigitsOfBytes(0xFF, 0xFF, 4);
    DigitsOfBytes(0xFF, 0xFF, 5);
    DigitsOfBytes(0xFF, 0xFF, 6);
    DigitsOfBytes(0xFF, 0xFF, 7);
  }

  lemma ReadLetter()
    ensures Read(0xB915) == Flops(
      true, false, true, false, true, false, false, false, true, false, false, true, true, true, false, true)
  {
    DigitsOfBytes(0xB9, 0x15, 0);
    DigitsOfBytes(0xB9, 0x15, 1);
    DigitsOfBytes(0xB9, 0x15, 2);
    DigitsOfBytes(0xB9, 0x15, 3);
    DigitsOfBytes(0xB9, 0x15, 4);
    DigitsOfBytes(0xB9, 0x15, 5);
    DigitsOfBytes(0xB9, 0x15, 6);
    DigitsOfBytes(0xB9, 0x15, 7);
  }

  lemma ReadCheck()
    ensures Read(0x29B1) == Flops(
      true, false, false, false, true, true, false, true, true, false, false, true, false, true, false, false)
  {
    DigitsOfBytes(0x29, 0xB1, 0);
    DigitsOfBytes(0x29, 0xB1, 1);
    DigitsOfBytes(0x29, 0xB1, 2);
    DigitsOfBytes(0x29, 0xB1, 3);
    DigitsOfBytes(0x29, 0xB1, 4);
    DigitsOfBytes(0x29, 0xB1, 5);
    DigitsOfBytes(0x29, 0xB1, 6);
    DigitsOfBytes(0x29, 0xB1, 7);
  }

  lemma DigitsOfBytes(high: Byte, low: Byte, j: nat)
    requires j < 8
    ensures Bit(0x100 * high + low, j) == Bit(low, j) && Bit(0x100 * high + low, j + 8) == Bit(high, j)
  {
    hide Bit, Scale;
    ScaleConstants(high);
    Powers();
    BitOfFields(high, low, 8, j);
    BitOfFields(high, low, 8, j + 8);
  }
}
