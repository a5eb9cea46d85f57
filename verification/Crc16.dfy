/** CRC-16/CCITT-FALSE: the bit-serial register as reference, the byte-at-a-time
    form of the packet format document, the table-driven code, and the algebra
    behind its error detection. Registers are 16-bit numbers. */
module Crc16 {
  import opened Prelude
  import opened Bits

  const POLY: u16 := 0x1021
  const INIT: u16 := 0xFFFF
  const TOP: u16 := 0x8000

  lemma Powers()
    ensures Pow2(8) == 0x100 && Pow2(15) == TOP && Pow2(16) == 0x1_0000
  {
    Pow2Square(4, 16);
    Pow2Square(8, 0x100);
    assert Pow2(16) == 2 * Pow2(15);
  }

  function Xor16(x: u16, y: u16): u16 {
    Powers();
    XorBound(x, y, 16);
    Xor(x, y)
  }

  /** One clock of the register with no input. */
  function Shift(crc: u16): u16 {
    if crc >= TOP then Xor16(2 * (crc - TOP), POLY) else 2 * crc
  }

  function Shifts(crc: u16, n: nat): u16
    decreases n
  {
    if n == 0 then crc else Shifts(Shift(crc), n - 1)
  }

  /** The register after one message byte, most significant bit first. */
  function CrcByte(crc: u16, byte: Byte): u16 {
    Shifts(Xor16(crc, 0x100 * byte), 8)
  }

  /** The checksum register after `data`, started from `crc`. */
  function Crc(crc: u16, data: Bytes): u16 {
    if data == [] then crc else CrcByte(Crc(crc, data[..|data| - 1]), data[|data| - 1])
  }

  lemma {:induction false} CrcConcat(crc: u16, a: Bytes, b: Bytes)
    ensures Crc(crc, a + b) == Crc(Crc(crc, a), b)
  {
    if b == [] {
      assert a + b == a;
    } else {
      var n := |b| - 1;
      assert (a + b)[..|a + b| - 1] == a + b[..n];
      CrcConcat(crc, a, b[..n]);
    }
  }

  // ------------------------------------------------------------- one-step algebra

  lemma ScaleByFour(a: nat)
    ensures Scale(a, 3) == 8 * a && Scale(a, 4) == 16 * a
  {
    assert Scale(a, 1) == 2 * a;
    assert Scale(a, 2) == 4 * a;
  }

  lemma ScaleConstants(a: nat)
    ensures Scale(a, 1) == 2 * a && Scale(a, 8) == 0x100 * a && Scale(a, 15) == 0x8000 * a
  {
    ScaleByFour(a);
    ScaleByFour(0x10 * a);
    ScaleByFour(0x100 * a);
    ScaleByFour(0x1000 * a);
    ScaleSum(a, 4, 4);
    ScaleSum(a, 8, 4);
    ScaleSum(a, 12, 3);
  }

  /** The top bit and the rest of a register. */
  lemma TopSplit(a: nat, r: nat, b: nat, s: nat)
    requires r < 0x8000 && s < 0x8000
    ensures Xor(0x8000 * a + r, 0x8000 * b + s) == 0x8000 * Xor(a, b) + Xor(r, s) && Xor(r, s) < 0x8000
  {
    Powers();
    ScaleConstants(a);
    ScaleConstants(b);
    ScaleConstants(Xor(a, b));
    XorSplit(15, a, r, b, s);
    XorBound(r, s, 15);
  }

  lemma ByteSplit(a: nat, r: nat, b: nat, s: nat)
    requires r < 0x100 && s < 0x100
    ensures Xor(0x100 * a + r, 0x100 * b + s) == 0x100 * Xor(a, b) + Xor(r, s)
  {
    Powers();
    ScaleConstants(a);
    ScaleConstants(b);
    ScaleConstants(Xor(a, b));
    XorSplit(8, a, r, b, s);
  }

  /** What a clock adds beyond doubling the low 15 bits. */
  function Feedback(carry: bool): u16 {
    if carry then POLY else 0
  }

  /** A register as its top bit and the rest. */
  function Top(crc: u16): nat {
    if crc >= TOP then 1 else 0
  }

  function Rest(crc: u16): nat {
    if crc >= TOP then crc - TOP else crc
  }

  lemma ShiftIsDoubling(crc: u16)
    ensures Shift(crc) == Xor(2 * Rest(crc), Feedback(crc >= TOP))
  {
    XorZero(2 * crc);
  }

  lemma XorOfBits(a: nat, b: nat)
    requires a <= 1 && b <= 1
    ensures Xor(a, b) == if a == b then 0 else 1
  {
    XorSelf(a);
    XorZero(1);
  }

  lemma FeedbackLinear(x: bool, y: bool)
    ensures Xor(Feedback(x), Feedback(y)) == Feedback(x != y)
  {
    XorSelf(Feedback(x));
    XorZero(Feedback(x));
    XorZero(Feedback(y));
  }

  lemma TopOfXor(x: u16, y: u16)
    ensures (Xor16(x, y) >= TOP) == ((x >= TOP) != (y >= TOP))
    ensures Rest(Xor16(x, y)) == Xor(Rest(x), Rest(y))
  {
    TopSplit(Top(x), Rest(x), Top(y), Rest(y));
    XorOfBits(Top(x), Top(y));
  }

  lemma ShiftLinear(x: u16, y: u16)
    ensures Shift(Xor16(x, y)) == Xor16(Shift(x), Shift(y))
  {
    hide Xor;
    TopOfXor(x, y);
    ShiftIsDoubling(x);
    ShiftIsDoubling(y);
    ShiftIsDoubling(Xor16(x, y));
    XorOfDoubles(Rest(x), 0, Rest(y), 0);
    XorZero(0);
    XorSwapsInner(2 * Rest(x), Feedback(x >= TOP), 2 * Rest(y), Feedback(y >= TOP));
    FeedbackLinear(x >= TOP, y >= TOP);
  }

  lemma {:induction false} ShiftsLinear(x: u16, y: u16, n: nat)
    ensures Shifts(Xor16(x, y), n) == Xor16(Shifts(x, n), Shifts(y, n))
    decreases n
  {
    if n > 0 {
      ShiftLinear(x, y);
      ShiftsLinear(Shift(x), Shift(y), n - 1);
    }
  }

  /** While nothing reaches the top, clocks only double. */
  lemma {:induction false} ShiftsDouble(v: u16, n: nat)
    requires Scale(v, n) < 0x1_0000
    ensures Shifts(v, n) == Scale(v, n)
    decreases n
  {
    if n > 0 {
      ScaleSum(v, 1, n - 1);
      ScaleConstants(v);
      ScaleBound(2 * v, 0, n - 1);
      ShiftsDouble(2 * v, n - 1);
    }
  }

  /** The generator has a constant term, so a clock never loses information. */
  lemma ShiftZero(crc: u16)
    ensures Shift(crc) == 0 <==> crc == 0
  {
    if crc >= TOP {
      XorHalves(2 * (crc - TOP), POLY);
    }
  }

  lemma {:induction false} ShiftsZero(crc: u16, n: nat)
    ensures Shifts(crc, n) == 0 <==> crc == 0
    decreases n
  {
    if n > 0 {
      ShiftZero(crc);
      ShiftsZero(Shift(crc), n - 1);
    }
  }

  // ------------------------------------------------------------ table-driven code

  /** What the lookup table must contain. */
  predicate IsTable(table: seq<u16>) {
    |table| == 256 && forall i: Byte :: table[i] == Shifts(0x100 * i, 8)
  }

  /** The table step: the byte leaving the register selects the entry. */
  lemma TableStep(crc: u16, byte: Byte)
    ensures CrcByte(crc, byte) == Xor16(0x100 * crc % 0x1_0000, Shifts(0x100 * XorByte(crc / 0x100, byte), 8))
  {
    hide Xor, Shifts, Scale;
    var hi, lo := crc / 0x100, crc % 0x100;
    var index: Byte := XorByte(hi, byte);
    ByteSplit(hi, lo, byte, 0);
    XorZero(lo);
    ByteSplit(0, lo, index, 0);
    XorZero(index);
    assert Xor16(crc, 0x100 * byte) == Xor16(lo, 0x100 * index);
    ShiftsLinear(lo, 0x100 * index, 8);
    ScaleConstants(lo);
    ShiftsDouble(lo, 8);
  }

  method BuildTable() returns (table: array<u16>)
    ensures fresh(table) && IsTable(table[..])
  {
    table := new u16[256](_ => 0);
    for i := 0 to 256
      invariant forall k :: 0 <= k < i ==> table[k] == Shifts(0x100 * k, 8)
    {
      table[i] := BuildEntry(i);
    }
  }

  /** The code's clock: shift out of 16 bits, subtract when a bit left. */
  lemma ClockInCode(crc: u16)
    ensures Shift(crc) == if crc >= TOP then Xor16(2 * crc % 0x1_0000, POLY) else 2 * crc
  {
    hide Xor;
  }

  /** The inner loop of the table: eight clocks. */
  method BuildEntry(i: Byte) returns (crc: u16)
    ensures crc == Shifts(0x100 * i, 8)
  {
    hide Shift, Xor16;
    ghost var entry := Shifts(0x100 * i, 8);
    crc := 0x100 * i;
    for bit := 0 to 8
      invariant Shifts(crc, 8 - bit) == entry
    {
      ClockInCode(crc);
      crc := if crc >= TOP then Xor16(2 * crc % 0x1_0000, POLY) else 2 * crc;
    }
  }

  /** The loop shared by every table-driven computation. */
  method CrcStep(table: seq<u16>, start: u16, data: Bytes) returns (crc: u16)
    requires IsTable(table)
    ensures crc == Crc(start, data)
  {
    crc := start;
    for i := 0 to |data|
      invariant crc == Crc(start, data[..i])
    {
      assert data[..i + 1][..i] == data[..i];
      TableStep(crc, data[i]);
      var index := XorByte(crc / 0x100, data[i]);
      crc := Xor16(0x100 * crc % 0x1_0000, table[index]);
    }
    assert data[..|data|] == data;
  }

  method CrcTable(table: seq<u16>, data: Bytes) returns (crc: u16)
    requires IsTable(table)
    ensures crc == Crc(INIT, data)
  {
    crc := CrcStep(table, INIT, data);
  }

  /** Two segments without concatenating them. */
  method CrcTwoSegments(table: seq<u16>, a: Bytes, b: Bytes) returns (crc: u16)
    requires IsTable(table)
    ensures crc == Crc(INIT, a + b)
  {
    crc := CrcStep(table, INIT, a);
    crc := CrcStep(table, crc, b);
    CrcConcat(INIT, a, b);
  }
}
