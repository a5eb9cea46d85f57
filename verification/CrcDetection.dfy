/** What the checksum detects: the register as a bit-serial linear machine. Any
    error confined to 16 consecutive bits, and any odd number of flipped bits,
    changes the checksum of a message of any length; two flipped bits do unless
    their distance is a multiple of 32767. */
module CrcDetection {
  import opened Prelude
  import opened Bits
  import opened Crc16
  import opened CrcPeriod

  /** A message bit as it meets the top of the register. */
  function Feed(bit: bool): u16 {
    if bit then TOP else 0
  }

  /** One clock of the register with message bit `bit`. */
  function ClockBit(crc: u16, bit: bool): u16 {
    Shift(Xor16(crc, Feed(bit)))
  }

  function CrcBits(crc: u16, bits: seq<bool>): u16
    decreases |bits|
  {
    if bits == [] then crc else CrcBits(ClockBit(crc, bits[0]), bits[1..])
  }

  lemma {:induction false} CrcBitsConcat(crc: u16, a: seq<bool>, b: seq<bool>)
    ensures CrcBits(crc, a + b) == CrcBits(CrcBits(crc, a), b)
    decreases |a|
  {
    hide ClockBit;
    if a == [] {
      assert a + b == b;
    } else {
      assert (a + b)[1..] == a[1..] + b;
      CrcBitsConcat(ClockBit(crc, a[0]), a[1..], b);
    }
  }

  // ------------------------------------------------------- bits, values and bytes

  /** The number a bit string writes, most significant bit first. */
  function Value(bits: seq<bool>): (v: nat)
    ensures v < Pow2(|bits|)
  {
    if bits == [] then 0
    else (if bits[0] then Pow2(|bits| - 1) else 0) + Value(bits[1..])
  }

  /** The `n` low digits of `v`, most significant first. */
  function Digits(v: nat, n: nat): (bits: seq<bool>)
    ensures |bits| == n
  {
    if n == 0 then []
    else if v >= Pow2(n - 1) then [true] + Digits(v - Pow2(n - 1), n - 1)
    else [false] + Digits(v, n - 1)
  }

  lemma {:induction false} ValueOfDigits(v: nat, n: nat)
    requires v < Pow2(n)
    ensures Value(Digits(v, n)) == v
  {
    if n > 0 {
      ValueOfDigits(if v >= Pow2(n - 1) then v - Pow2(n - 1) else v, n - 1);
    }
  }

  predicate AllClear(bits: seq<bool>) {
    forall i :: 0 <= i < |bits| ==> !bits[i]
  }

  lemma {:induction false} ValueZero(bits: seq<bool>)
    requires Value(bits) == 0
    ensures AllClear(bits)
  {
    if bits != [] {
      ValueZero(bits[1..]);
    }
  }

  /** The bits of a message, in transmission order. */
  function MessageBits(data: Bytes): (bits: seq<bool>)
    ensures |bits| == 8 * |data|
  {
    if data == [] then [] else MessageBits(data[..|data| - 1]) + Digits(data[|data| - 1], 8)
  }

  /** Feeding up to 16 bits one by one is mixing their number into the top of the
      register and clocking as often. */
  lemma {:induction false} LoadThenClock(crc: u16, bits: seq<bool>)
    requires |bits| <= 16
    ensures Scale(Value(bits), 16 - |bits|) < 0x1_0000
    ensures CrcBits(crc, bits) == Shifts(Xor16(crc, Scale(Value(bits), 16 - |bits|)), |bits|)
    decreases |bits|
  {
    hide Xor, Scale, Pow2, ClockBit, Shift;
    Powers();
    ScaleBound(Value(bits), |bits|, 16 - |bits|);
    if bits == [] {
      ScaleZero(16);
      XorZero(crc);
    } else {
      var n, low := |bits|, Value(bits[1..]);
      var rest := Scale(low, 16 - n);
      ScaleBound(low, n - 1, 16 - n);
      ScaledTop(bits[0], low, n);
      ScaleNext(low, 16 - n);
      LoadTop(crc, bits[0], rest);
      LoadThenClock(ClockBit(crc, bits[0]), bits[1..]);
    }
  }

  lemma ScaleNext(a: nat, k: nat)
    ensures Scale(a, k + 1) == 2 * Scale(a, k)
  {
  }

  lemma {:induction false} ScaleZero(k: nat)
    ensures Scale(0, k) == 0
  {
    if k > 0 {
      ScaleZero(k - 1);
    }
  }

  lemma ScaledTop(bit: bool, low: nat, n: nat)
    requires 0 < n <= 16
    ensures Scale((if bit then Pow2(n - 1) else 0) + low, 16 - n) == Feed(bit) + Scale(low, 16 - n)
  {
    hide Scale, Pow2;
    if bit {
      ScaleAdds(Pow2(n - 1), low, 16 - n);
      ScalePow2(n - 1, 16 - n);
      Powers();
    }
  }

  /** One clock consumes the top bit of what waits and doubles the rest. */
  lemma LoadTop(crc: u16, bit: bool, rest: nat)
    requires rest < 0x8000
    ensures Feed(bit) + rest < 0x1_0000
    ensures Shift(Xor16(crc, Feed(bit) + rest)) == Xor16(ClockBit(crc, bit), 2 * rest)
  {
    hide Xor;
    TopSplit(if bit then 1 else 0, 0, 0, rest);
    XorZero(if bit then 1 else 0);
    XorZero(rest);
    assert Xor16(Feed(bit), rest) == Feed(bit) + rest;
    XorAssociates(crc, Feed(bit), rest);
    ShiftLinear(Xor16(crc, Feed(bit)), rest);
  }

  /** Eight clocks, most significant bit first, make a byte step. */
  lemma ByteIsEightBits(crc: u16, byte: Byte)
    ensures CrcBits(crc, Digits(byte, 8)) == CrcByte(crc, byte)
  {
    hide Xor, Digits, Shifts;
    Powers();
    ValueOfDigits(byte, 8);
    LoadThenClock(crc, Digits(byte, 8));
    ScaleConstants(byte);
  }

  /** The bytewise checksum is the bit-serial one. */
  lemma {:induction false} CrcIsBitSerial(crc: u16, data: Bytes)
    ensures Crc(crc, data) == CrcBits(crc, MessageBits(data))
  {
    hide CrcByte, Digits, ClockBit;
    if data != [] {
      var n := |data| - 1;
      CrcIsBitSerial(crc, data[..n]);
      CrcBitsConcat(crc, MessageBits(data[..n]), Digits(data[n], 8));
      ByteIsEightBits(Crc(crc, data[..n]), data[n]);
    }
  }

  // -------------------------------------------------------------------- linearity

  lemma ClockLinear(a: u16, x: bool, b: u16, y: bool)
    ensures Xor16(ClockBit(a, x), ClockBit(b, y)) == ClockBit(Xor16(a, b), x != y)
  {
    hide Xor;
    ShiftLinear(Xor16(a, Feed(x)), Xor16(b, Feed(y)));
    XorSwapsInner(a, Feed(x), b, Feed(y));
    XorSelf(Feed(x));
    XorZero(Feed(x));
    XorZero(Feed(y));
  }

  /** Where two messages of one length differ. */
  function Difference(x: seq<bool>, y: seq<bool>): seq<bool>
    requires |x| == |y|
  {
    seq(|x|, i requires 0 <= i < |x| => x[i] != y[i])
  }

  lemma {:induction false} CrcLinear(a: u16, x: seq<bool>, b: u16, y: seq<bool>)
    requires |x| == |y|
    ensures Xor16(CrcBits(a, x), CrcBits(b, y)) == CrcBits(Xor16(a, b), Difference(x, y))
    decreases |x|
  {
    hide ClockBit, Xor16;
    if x != [] {
      CrcLinear(ClockBit(a, x[0]), x[1..], ClockBit(b, y[0]), y[1..]);
      ClockLinear(a, x[0], b, y[0]);
      assert Difference(x, y)[1..] == Difference(x[1..], y[1..]);
    }
  }

  // ----------------------------------------------------------------------- bursts

  /** From a zero register, at most 16 bits not all clear leave it nonzero. */
  lemma BurstLeavesTrace(bits: seq<bool>)
    requires |bits| <= 16 && CrcBits(0, bits) == 0
    ensures AllClear(bits)
  {
    hide Xor, CrcBits;
    LoadThenClock(0, bits);
    var loaded := Scale(Value(bits), 16 - |bits|);
    XorZero(loaded);
    ShiftsZero(loaded, |bits|);
    ScaleBound(Value(bits), 0, 16 - |bits|);
    ValueZero(bits);
  }

  /** Clear bits never change whether the register is zero. */
  lemma {:induction false} ClearBitsKeepZero(crc: u16, bits: seq<bool>)
    requires AllClear(bits)
    ensures CrcBits(crc, bits) == 0 <==> crc == 0
    decreases |bits|
  {
    hide Xor;
    if bits != [] {
      XorZero(crc);
      ShiftZero(crc);
      ClearBitsKeepZero(ClockBit(crc, bits[0]), bits[1..]);
    }
  }

  /** Every set bit lies among the 16 that start at `s`. */
  predicate ConfinedBurst(bits: seq<bool>, s: nat) {
    forall i :: 0 <= i < |bits| && bits[i] ==> s <= i < s + 16
  }

  /** A nonzero error confined to 16 consecutive bits changes the checksum. */
  lemma BurstChangesRegister(error: seq<bool>, s: nat)
    requires ConfinedBurst(error, s) && CrcBits(0, error) == 0
    ensures AllClear(error)
  {
    hide CrcBits;
    var from := if s <= |error| then s else |error|;
    var to := if s + 16 <= |error| then s + 16 else |error|;
    var head, burst, tail := error[..from], error[from..to], error[to..];
    assert error == head + (burst + tail);
    CrcBitsConcat(0, head, burst + tail);
    CrcBitsConcat(CrcBits(0, head), burst, tail);
    ClearBitsKeepZero(0, head);
    ClearBitsKeepZero(CrcBits(0, burst), tail);
    BurstLeavesTrace(burst);
    forall i | 0 <= i < |error|
      ensures !error[i]
    {
      if from <= i < to {
        assert burst[i - from] == error[i];
      }
    }
  }

  // ------------------------------------------------------------ two flipped bits

  /** Exactly the bits at `p` and `q` are set. */
  ghost predicate TwoBits(bits: seq<bool>, p: nat, q: nat) {
    p < q < |bits| && forall i :: 0 <= i < |bits| ==> (bits[i] <==> i == p || i == q)
  }

  /** Clear bits only clock the register. */
  lemma {:induction false} ClearBitsClock(crc: u16, bits: seq<bool>)
    requires AllClear(bits)
    ensures CrcBits(crc, bits) == Shifts(crc, |bits|)
    decreases |bits|
  {
    hide Shift, Xor;
    if bits != [] {
      XorZero(crc);
      ClearBitsClock(ClockBit(crc, bits[0]), bits[1..]);
    }
  }

  /** A set bit, then clear ones. */
  lemma OneThenClear(crc: u16, bits: seq<bool>, rest: seq<bool>)
    requires AllClear(bits)
    ensures CrcBits(crc, [true] + bits + rest) == CrcBits(Shifts(Xor16(crc, TOP), |bits| + 1), rest)
  {
    hide Shift, Xor;
    var all := [true] + bits + rest;
    assert all[1..] == bits + rest;
    CrcBitsConcat(ClockBit(crc, true), bits, rest);
    ClearBitsClock(ClockBit(crc, true), bits);
  }

  lemma AroundTwoBits(error: seq<bool>, p: nat, q: nat)
    requires TwoBits(error, p, q)
    ensures var head, middle, tail := error[..p], error[p + 1..q], error[q + 1..];
            && error == head + ([true] + middle + ([true] + tail + []))
            && AllClear(head) && AllClear(middle) && AllClear(tail)
  {
  }

  /** The second bit cancels the first exactly when the register is back at it. */
  lemma TwoBitsChangeRegister(error: seq<bool>, p: nat, q: nat)
    requires TwoBits(error, p, q)
    ensures CrcBits(0, error) == 0 <==> (q - p) % PERIOD == 0
  {
    AroundTwoBits(error, p, q);
    var head, middle, tail := error[..p], error[p + 1..q], error[q + 1..];
    hide CrcBits, Xor, Shifts, AllClear, TwoBits;
    CrcBitsConcat(0, head, [true] + middle + ([true] + tail + []));
    ClearBitsKeepZero(0, head);
    OneThenClear(0, middle, [true] + tail + []);
    XorZero(TOP);
    BackAtTop(Shifts(TOP, q - p), tail);
    TopReturnsIff(q - p);
  }

  /** A set bit, then clear ones, leave zero exactly when the bit cancels the top. */
  lemma BackAtTop(crc: u16, tail: seq<bool>)
    requires AllClear(tail)
    ensures CrcBits(crc, [true] + tail + []) == 0 <==> crc == TOP
  {
    hide CrcBits, Xor, Shifts, AllClear;
    OneThenClear(crc, tail, []);
    NoBits(Shifts(Xor16(crc, TOP), |tail| + 1));
    ShiftsZero(Xor16(crc, TOP), |tail| + 1);
    XorSelf(TOP);
    if Xor16(crc, TOP) == 0 {
      XorNothing(crc, TOP);
    }
  }

  lemma NoBits(crc: u16)
    ensures CrcBits(crc, []) == crc
  {
  }

  // ------------------------------------------------------------------ odd errors

  function OddBits(bits: seq<bool>): bool {
    if bits == [] then false else bits[0] != OddBits(bits[1..])
  }

  lemma {:induction false} OddOnesOfPower(n: nat)
    ensures OddOnes(Pow2(n))
  {
    if n > 0 {
      OddOnesOfPower(n - 1);
    }
  }

  lemma ParityConstants()
    ensures OddOnes(POLY) && OddOnes(TOP) && !OddOnes(0)
  {
    Powers();
    OddOnesOfPower(15);
    assert OddOnes(0x40);
    assert !OddOnes(0x81);
    assert !OddOnes(0x408);
  }

  /** The generator has x + 1 as a factor: a clock adds the parity of its bit. */
  lemma ClockParity(crc: u16, bit: bool)
    ensures OddOnes(ClockBit(crc, bit)) == (OddOnes(crc) != bit)
  {
    hide Xor, OddOnes;
    ParityConstants();
    var fed := Xor16(crc, Feed(bit));
    ParityOfXor(crc, Feed(bit));
    ParityOfDouble(Rest(fed));
    if fed >= TOP {
      ParityWithoutTop(fed);
      ParityOfXor(2 * (fed - TOP), POLY);
    }
  }

  lemma ParityOfDouble(x: nat)
    ensures OddOnes(2 * x) == OddOnes(x)
  {
  }

  lemma ParityWithoutTop(crc: u16)
    requires crc >= TOP
    ensures OddOnes(crc - TOP) != OddOnes(crc)
  {
    hide Xor, OddOnes;
    ParityConstants();
    TopSplit(1, 0, 0, crc - TOP);
    XorZero(1);
    XorZero(crc - TOP);
    ParityOfXor(TOP, crc - TOP);
  }

  /** The register keeps the parity of everything fed to it. */
  lemma {:induction false} RegisterKeepsParity(crc: u16, bits: seq<bool>)
    ensures OddOnes(CrcBits(crc, bits)) == (OddOnes(crc) != OddBits(bits))
    decreases |bits|
  {
    hide ClockBit, OddOnes;
    if bits != [] {
      ClockParity(crc, bits[0]);
      RegisterKeepsParity(ClockBit(crc, bits[0]), bits[1..]);
    }
  }

  // ------------------------------------------------------------------- code words

  /** The two bytes of a checksum, big-endian. */
  function ChecksumBytes(crc: u16): (b: Bytes)
    ensures |b| == 2
  {
    [crc / 0x100, crc % 0x100]
  }

  lemma CrcOfTwo(crc: u16, a: Byte, b: Byte)
    ensures Crc(crc, [a, b]) == CrcByte(CrcByte(crc, a), b)
  {
    hide CrcByte;
    assert [a, b][..1] == [a] && [a][..0] == [];
    assert Crc(crc, [a]) == CrcByte(crc, a);
  }

  /** A register that consumes its own value becomes zero. */
  lemma OwnChecksum(crc: u16)
    ensures CrcByte(CrcByte(crc, crc / 0x100), crc % 0x100) == 0
  {
    hide Xor, Shifts, CrcByte;
    TableStep(crc, crc / 0x100);
    XorByteLaws(crc / 0x100, 0, 0);
    ShiftsZero(0, 8);
    XorZero(0x100 * crc % 0x1_0000);
    var next: u16 := 0x100 * crc % 0x1_0000;
    assert next == 0x100 * (crc % 0x100);
    TableStep(next, crc % 0x100);
    XorByteLaws(crc % 0x100, 0, 0);
    XorZero(0);
  }

  /** A message followed by its own checksum drives the register to zero. */
  lemma CodeWordResidue(data: Bytes)
    ensures Crc(INIT, data + ChecksumBytes(Crc(INIT, data))) == 0
  {
    hide CrcByte;
    var crc := Crc(INIT, data);
    CrcConcat(INIT, data, ChecksumBytes(crc));
    CrcOfTwo(crc, crc / 0x100, crc % 0x100);
    OwnChecksum(crc);
  }

  /** Two registers differ by what the difference of the messages leaves. */
  lemma DifferenceOfRegisters(a: Bytes, b: Bytes)
    requires |a| == |b|
    ensures Xor16(Crc(INIT, a), Crc(INIT, b)) == CrcBits(0, Difference(MessageBits(a), MessageBits(b)))
  {
    hide CrcBits, Xor, Crc;
    CrcIsBitSerial(INIT, a);
    CrcIsBitSerial(INIT, b);
    CrcLinear(INIT, MessageBits(a), INIT, MessageBits(b));
    XorSelf(INIT);
  }

  /** From a code word, the register after a damaged copy is that of the error. */
  lemma ResidueOfError(a: Bytes, b: Bytes)
    requires |a| == |b| && Crc(INIT, a) == 0
    ensures Crc(INIT, b) == CrcBits(0, Difference(MessageBits(a), MessageBits(b)))
  {
    hide CrcBits, Xor, Crc;
    DifferenceOfRegisters(a, b);
    XorZero(Crc(INIT, b));
  }

  /** Two flipped bits of a code word of any length go unnoticed if and only if
      their distance is a multiple of 32767. */
  lemma TwoFlipsUnnoticedIff(a: Bytes, b: Bytes, p: nat, q: nat)
    requires |a| == |b| && Crc(INIT, a) == 0 && TwoBits(Difference(MessageBits(a), MessageBits(b)), p, q)
    ensures Crc(INIT, b) == 0 <==> (q - p) % PERIOD == 0
  {
    ResidueOfError(a, b);
    TwoBitsChangeRegister(Difference(MessageBits(a), MessageBits(b)), p, q);
  }

  /** The generator as an error: four flipped bits within seventeen. */
  const GENERATOR: seq<bool> := [true] + Digits(POLY, 16)

  /** The guarantees are tight: that error, anywhere, never changes the checksum. */
  lemma GeneratorUnnoticed(a: Bytes, b: Bytes, head: seq<bool>, tail: seq<bool>)
    requires |a| == |b| && AllClear(head) && AllClear(tail)
    requires Difference(MessageBits(a), MessageBits(b)) == head + (GENERATOR + tail)
    ensures Crc(INIT, a) == Crc(INIT, b)
  {
    hide CrcBits, Xor, Crc, Shifts, Digits, AllClear;
    DifferenceOfRegisters(a, b);
    CrcBitsConcat(0, head, GENERATOR + tail);
    ClearBitsKeepZero(0, head);
    CrcBitsConcat(0, GENERATOR, tail);
    ClearBitsKeepZero(0, tail);
    GeneratorCancels();
    XorNothing(Crc(INIT, a), Crc(INIT, b));
  }

  lemma GeneratorCancels()
    ensures CrcBits(0, GENERATOR) == 0
  {
    hide CrcBits, Xor, Digits, Scale;
    OneThenClear(0, [], Digits(POLY, 16));
    assert [true] + [] + Digits(POLY, 16) == GENERATOR;
    XorZero(TOP);
    XorZero(POLY);
    LoadThenClock(POLY, Digits(POLY, 16));
    Powers();
    ValueOfDigits(POLY, 16);
    ZeroScale(POLY);
    XorSelf(POLY);
    ShiftsZero(0, 16);
  }

  lemma ZeroScale(a: nat)
    ensures Scale(a, 0) == a
  {
  }

  /** `k` clear bits and a set one. */
  function SetAfter(k: nat): seq<bool> {
    if k == 0 then [true] else [false] + SetAfter(k - 1)
  }

  lemma {:induction false} Pow2Grows(n: nat, k: nat)
    ensures Pow2(n) <= Pow2(n + k)
  {
    if k > 0 {
      Pow2Grows(n, k - 1);
    }
  }

  lemma DigitsStep(v: nat, n: nat)
    ensures Digits(v, n + 1)
         == if v >= Pow2(n) then [true] + Digits(v - Pow2(n), n) else [false] + Digits(v, n)
  {
  }

  lemma {:induction false} FirstDigit(v: nat, k: nat, n: nat)
    requires Pow2(n) <= v < Pow2(n + 1)
    ensures Digits(v, k + 1 + n) == SetAfter(k) + Digits(v - Pow2(n), n)
  {
    hide Digits, Pow2;
    DigitsStep(v, k + n);
    if k > 0 {
      FirstDigit(v, k - 1, n);
      Pow2Grows(n + 1, k - 1);
    }
  }

  lemma PowersOfTwo()
    ensures Pow2(0) == 1 && Pow2(1) == 2 && Pow2(5) == 0x20 && Pow2(6) == 0x40
    ensures Pow2(12) == 0x1000 && Pow2(13) == 0x2000
  {
    Powers();
    assert Pow2(4) == 0x10;
    Pow2Sum(8, 4);
    assert Pow2(13) == 2 * Pow2(12);
  }

  /** After the first bit, three more: x^12, x^5 and 1. */
  lemma GeneratorHasFourBits()
    ensures Digits(POLY, 16) == SetAfter(3) + Digits(0x21, 12)
    ensures Digits(0x21, 12) == SetAfter(6) + Digits(1, 5)
    ensures Digits(1, 5) == SetAfter(4) + []
  {
    assert Digits(0, 0) == [];
    hide Pow2, SetAfter, Digits;
    PowersOfTwo();
    FirstDigit(POLY, 3, 12);
    FirstDigit(0x21, 6, 5);
    FirstDigit(1, 4, 0);
  }

  // ------------------------------------------------------- counting flipped bits

  function SetBits(bits: seq<bool>): nat {
    if bits == [] then 0 else (if bits[0] then 1 else 0) + SetBits(bits[1..])
  }

  lemma {:induction false} SetBitsConcat(a: seq<bool>, b: seq<bool>)
    ensures SetBits(a + b) == SetBits(a) + SetBits(b)
  {
    if a == [] {
      assert a + b == b;
    } else {
      assert (a + b)[1..] == a[1..] + b;
      SetBitsConcat(a[1..], b);
    }
  }

  lemma {:induction false} ClearHasNone(bits: seq<bool>)
    ensures SetBits(bits) == 0 <==> AllClear(bits)
  {
    if bits != [] {
      ClearHasNone(bits[1..]);
      if AllClear(bits[1..]) && !bits[0] {
        assert forall i :: 0 < i < |bits| ==> bits[i] == bits[1..][i - 1];
      }
      if AllClear(bits) {
        assert AllClear(bits[1..]);
      }
    }
  }

  lemma {:induction false} OddBitsCount(bits: seq<bool>)
    ensures OddBits(bits) <==> SetBits(bits) % 2 == 1
  {
    if bits != [] {
      OddBitsCount(bits[1..]);
    }
  }

  lemma {:induction false} OneBitAt(bits: seq<bool>) returns (p: nat)
    requires SetBits(bits) == 1
    ensures p < |bits| && forall i :: 0 <= i < |bits| ==> (bits[i] <==> i == p)
  {
    if bits[0] {
      p := 0;
      ClearHasNone(bits[1..]);
      assert forall i :: 0 < i < |bits| ==> bits[i] == bits[1..][i - 1];
    } else {
      p := OneBitAt(bits[1..]);
      p := p + 1;
      assert forall i :: 0 < i < |bits| ==> bits[i] == bits[1..][i - 1];
    }
  }

  lemma {:induction false} TwoBitsAt(bits: seq<bool>) returns (p: nat, q: nat)
    requires SetBits(bits) == 2
    ensures TwoBits(bits, p, q)
  {
    assert forall i :: 0 < i < |bits| ==> bits[i] == bits[1..][i - 1];
    if bits[0] {
      p := 0;
      q := OneBitAt(bits[1..]);
    } else {
      p, q := TwoBitsAt(bits[1..]);
      p := p + 1;
    }
    q := q + 1;
  }

  lemma {:induction false} SetAfterHasOne(k: nat)
    ensures SetBits(SetAfter(k)) == 1
  {
    if k == 0 {
      assert [true][1..] == [];
    } else {
      assert SetAfter(k)[1..] == SetAfter(k - 1);
      SetAfterHasOne(k - 1);
    }
  }

  lemma GeneratorWeight()
    ensures SetBits(GENERATOR) == 4
  {
    GeneratorHasFourBits();
    SetAfterHasOne(3);
    SetAfterHasOne(6);
    SetAfterHasOne(4);
    assert [true][1..] == [] && SetBits([]) == 0 && SetBits([true]) == 1;
    hide SetBits, SetAfter, Digits;
    SetBitsConcat([true], Digits(POLY, 16));
    SetBitsConcat(SetAfter(3), Digits(0x21, 12));
    SetBitsConcat(SetAfter(6), Digits(1, 5));
    SetBitsConcat(SetAfter(4), []);
  }

  // ------------------------------------------------- four flips that change nothing

  lemma {:induction false} DigitAt(v: nat, n: nat, i: nat)
    requires v < Pow2(n) && i < n
    ensures Digits(v, n)[i] == Bit(v, n - 1 - i)
  {
    TopBit(v, n - 1);
    var half := Pow2(n - 1);
    assert Pow2(n) == 2 * half;
    hide Pow2, Bit;
    if i > 0 {
      BitTruncated(v, n - 1, n - 1 - i);
      if v >= half {
        Division(v, half, 1, v - half);
        DigitAt(v - half, n - 1, i - 1);
      } else {
        Division(v, half, 0, v);
        DigitAt(v, n - 1, i - 1);
      }
    }
  }

  /** Flipping the digits of `mask` in a byte is the error that writes it. */
  lemma FlippedDigits(x: Byte, mask: Byte)
    ensures Difference(Digits(x, 8), Digits(XorByte(x, mask), 8)) == Digits(mask, 8)
  {
    hide Digits, Bit, Xor, Pow2;
    Powers();
    var y := XorByte(x, mask);
    forall i | 0 <= i < 8
      ensures (Digits(x, 8)[i] != Digits(y, 8)[i]) == Digits(mask, 8)[i]
    {
      DigitAt(x, 8, i);
      DigitAt(y, 8, i);
      DigitAt(mask, 8, i);
      BitXor(x, mask, 7 - i);
    }
  }

  lemma {:induction false} BitOfFields(a: nat, b: nat, k: nat, j: nat)
    requires b < Pow2(k)
    ensures Bit(Scale(a, k) + b, j) == if j < k then Bit(b, j) else Bit(a, j - k)
  {
    if k > 0 {
      assert (Scale(a, k) + b) / 2 == Scale(a, k - 1) + b / 2;
      if j > 0 {
        BitOfFields(a, b / 2, k - 1, j - 1);
      }
    }
  }

  lemma FieldsBound(a: nat, n: nat, b: nat, k: nat)
    requires a < Pow2(n) && b < Pow2(k)
    ensures Scale(a, k) + b < Pow2(n + k)
  {
    hide Scale, Pow2;
    var whole := Pow2(n);
    ScalePow2(n, k);
    ScaleAdds(a + 1, whole - a - 1, k);
    ScaleAdds(a, 1, k);
    ScalePow2(0, k);
    OneIsPower();
  }

  lemma OneIsPower()
    ensures Pow2(0) == 1
  {
  }

  /** The digits of two fields are those of each, one after the other. */
  lemma DigitsConcat(v: nat, a: nat, n: nat, b: nat, k: nat)
    requires a < Pow2(n) && b < Pow2(k) && v == Scale(a, k) + b
    ensures Digits(v, n + k) == Digits(a, n) + Digits(b, k)
  {
    hide Digits, Scale, Pow2, Bit;
    FieldsBound(a, n, b, k);
    var whole, fields := Digits(v, n + k), Digits(a, n) + Digits(b, k);
    assert |whole| == |fields|;
    forall i | 0 <= i < n + k
      ensures whole[i] == fields[i]
    {
      DigitAt(v, n + k, i);
      BitOfFields(a, b, k, n + k - 1 - i);
      if i < n {
        DigitAt(a, n, i);
      } else {
        DigitAt(b, k, i - n);
      }
    }
  }

  /** The generator, left-aligned in three bytes. */
  lemma GeneratorInBytes()
    ensures Digits(0x88, 8) + (Digits(0x10, 8) + Digits(0x80, 8)) == GENERATOR + Digits(0, 7)
  {
    Powers();
    assert Pow2(7) == 0x80 && Pow2(17) == 0x2_0000;
    DigitsStep(0x11021, 16);
    hide Digits, Pow2, Scale;
    ScaleConstants(0x10);
    ScaleConstants(0x88);
    ScaleConstants(0x8800);
    ScaleSum(0x88, 8, 8);
    ScaleByFour(0x11021);
    ScaleByFour(0x88108);
    ScaleSum(0x11021, 3, 4);
    DigitsConcat(0x881080, 0x88, 8, 0x1080, 16);
    DigitsConcat(0x1080, 0x10, 8, 0x80, 8);
    DigitsConcat(0x881080, 0x11021, 17, 0, 7);
  }

  lemma {:induction false} DigitsOfZero(n: nat)
    ensures AllClear(Digits(0, n))
  {
    if n > 0 {
      DigitsOfZero(n - 1);
    }
  }

  lemma {:induction false} MessageBitsConcat(a: Bytes, b: Bytes)
    ensures MessageBits(a + b) == MessageBits(a) + MessageBits(b)
  {
    hide Digits;
    if b == [] {
      assert a + b == a;
    } else {
      var n := |b| - 1;
      assert (a + b)[..|a + b| - 1] == a + b[..n];
      MessageBitsConcat(a, b[..n]);
    }
  }

  lemma DifferenceConcat(x: seq<bool>, y: seq<bool>, u: seq<bool>, v: seq<bool>)
    requires |x| == |y| && |u| == |v|
    ensures Difference(x + u, y + v) == Difference(x, y) + Difference(u, v)
  {
  }

  /** Four bits of the first three bytes flipped. */
  function FlipFour(p: Bytes): Bytes
    requires |p| >= 3
  {
    [XorByte(p[0], 0x88), XorByte(p[1], 0x10), XorByte(p[2], 0x80)] + p[3..]
  }

  lemma ThreeBytesFlipped(x: Byte, y: Byte, z: Byte)
    ensures Difference(MessageBits([x, y, z]), MessageBits([XorByte(x, 0x88), XorByte(y, 0x10), XorByte(z, 0x80)]))
         == GENERATOR + Digits(0, 7)
  {
    var x', y', z' := XorByte(x, 0x88), XorByte(y, 0x10), XorByte(z, 0x80);
    BitsOfThree(x, y, z);
    BitsOfThree(x', y', z');
    hide Digits, MessageBits, XorByte, Difference;
    DifferenceConcat(Digits(y, 8), Digits(y', 8), Digits(z, 8), Digits(z', 8));
    DifferenceConcat(Digits(x, 8), Digits(x', 8), Digits(y, 8) + Digits(z, 8), Digits(y', 8) + Digits(z', 8));
    FlippedDigits(x, 0x88);
    FlippedDigits(y, 0x10);
    FlippedDigits(z, 0x80);
    GeneratorInBytes();
  }

  lemma BitsOfThree(x: Byte, y: Byte, z: Byte)
    ensures MessageBits([x, y, z]) == Digits(x, 8) + (Digits(y, 8) + Digits(z, 8))
  {
    hide Digits;
    BitsOfOne(x);
    BitsOfOne(y);
    BitsOfOne(z);
    hide MessageBits;
    MessageBitsConcat([y], [z]);
    MessageBitsConcat([x], [y] + [z]);
    assert [x, y, z] == [x] + ([y] + [z]);
  }

  lemma BitsOfOne(x: Byte)
    ensures MessageBits([x]) == Digits(x, 8)
  {
    hide Digits;
    assert [x][..0] == [];
  }

  /** Inside any message, that is the generator as an error. */
  lemma FlipFourIsGenerator(before: Bytes, p: Bytes, after: Bytes) returns (head: seq<bool>, tail: seq<bool>)
    requires |p| >= 3
    ensures AllClear(head) && AllClear(tail)
    ensures Difference(MessageBits(before + p + after), MessageBits(before + FlipFour(p) + after))
         == head + (GENERATOR + tail)
  {
    var first, flipped, rest := p[..3], FlipFour(p)[..3], p[3..] + after;
    ThreeBytesFlipped(p[0], p[1], p[2]);
    assert first == [p[0], p[1], p[2]];
    hide MessageBits, Digits, FlipFour, Difference, XorByte;
    FirstThree(before, p, after);
    FirstThree(before, FlipFour(p), after);
    ErrorInside(before, first, flipped, rest);
    DifferenceSelf(MessageBits(before));
    DifferenceSelf(MessageBits(rest));
    DigitsOfZero(7);
    head := Difference(MessageBits(before), MessageBits(before));
    var clear := Difference(MessageBits(rest), MessageBits(rest));
    tail := Digits(0, 7) + clear;
    Regroup(head, GENERATOR, Digits(0, 7), clear);
  }

  lemma Regroup(a: seq<bool>, b: seq<bool>, c: seq<bool>, d: seq<bool>)
    ensures a + (b + c + d) == a + (b + (c + d))
  {
    assert b + c + d == b + (c + d);
  }

  lemma FirstThree(before: Bytes, p: Bytes, after: Bytes)
    requires |p| >= 3
    ensures before + p + after == before + (p[..3] + (p[3..] + after))
    ensures |FlipFour(p)| == |p| && FlipFour(p)[3..] == p[3..]
  {
  }

  lemma DifferenceSelf(x: seq<bool>)
    ensures AllClear(Difference(x, x))
  {
  }

  /** An error inside a message is the error between clear bits. */
  lemma ErrorInside(before: Bytes, x: Bytes, y: Bytes, rest: Bytes)
    requires |x| == |y|
    ensures var b, r := MessageBits(before), MessageBits(rest);
            Difference(MessageBits(before + (x + rest)), MessageBits(before + (y + rest)))
            == Difference(b, b) + (Difference(MessageBits(x), MessageBits(y)) + Difference(r, r))
  {
    hide MessageBits, Difference;
    MessageBitsConcat(before, x + rest);
    MessageBitsConcat(before, y + rest);
    MessageBitsConcat(x, rest);
    MessageBitsConcat(y, rest);
    var b, r := MessageBits(before), MessageBits(rest);
    DifferenceConcat(b, b, MessageBits(x) + r, MessageBits(y) + r);
    DifferenceConcat(MessageBits(x), MessageBits(y), r, r);
  }

  // --------------------------------------------------------------- minimum distance

  /** Two code words of one length that differ only inside 16 consecutive bits
      are equal, and no two differ in an odd number of bits, or in two bits at a
      distance that is no multiple of 32767. */
  lemma CodeWordsFarApart(a: Bytes, b: Bytes)
    requires |a| == |b|
    ensures var error := Difference(MessageBits(a), MessageBits(b));
            Crc(INIT, a) == 0 && Crc(INIT, b) == 0 ==>
              && !OddBits(error)
              && (forall s: nat :: ConfinedBurst(error, s) ==> a == b)
              && (forall p: nat, q: nat :: TwoBits(error, p, q) ==> (q - p) % PERIOD == 0)
  {
    hide CrcBits, Xor, Crc, OddBits, TwoBits;
    if Crc(INIT, a) != 0 || Crc(INIT, b) != 0 {
      return;
    }
    var error := Difference(MessageBits(a), MessageBits(b));
    ResidueOfError(a, b);
    RegisterKeepsParity(0, error);
    forall p: nat, q: nat | TwoBits(error, p, q)
      ensures (q - p) % PERIOD == 0
    {
      TwoFlipsUnnoticedIff(a, b, p, q);
    }
    forall s: nat | ConfinedBurst(error, s)
      ensures a == b
    {
      BurstChangesRegister(error, s);
      NoDifference(MessageBits(a), MessageBits(b));
      BitsInjective(a, b);
    }
  }

  lemma NoDifference(x: seq<bool>, y: seq<bool>)
    requires |x| == |y| && AllClear(Difference(x, y))
    ensures x == y
  {
    forall i | 0 <= i < |x|
      ensures x[i] == y[i]
    {
      assert !Difference(x, y)[i];
    }
  }

  /** Equal bits, equal bytes. */
  lemma {:induction false} BitsInjective(a: Bytes, b: Bytes)
    requires |a| == |b| && MessageBits(a) == MessageBits(b)
    ensures a == b
  {
    hide Digits;
    if a != [] {
      var n := |a| - 1;
      assert MessageBits(a[..n]) == MessageBits(a)[..8 * n] && MessageBits(b[..n]) == MessageBits(b)[..8 * n];
      BitsInjective(a[..n], b[..n]);
      assert Digits(a[n], 8) == MessageBits(a)[8 * n..] && Digits(b[n], 8) == MessageBits(b)[8 * n..];
      Powers();
      ValueOfDigits(a[n], 8);
      ValueOfDigits(b[n], 8);
      assert a == a[..n] + [a[n]] && b == b[..n] + [b[n]];
    }
  }
}
