/** The wire packet: a 24-byte header, the payload, its length and the CRC-16 of
    everything before it. Encoding and decoding are mutually inverse, and damage
    of the kinds the checksum covers is always rejected. */
module Packet {
  import opened Prelude
  import opened Bits
  import opened Crc16
  import opened CrcDetection
  import CrcPeriod

  const MAGIC: Bytes := [0x47, 0x53]
  const PROTOCOL_VERSION: Byte := 1
  const HEADER_SIZE: nat := 24
  const DEFAULT_MTU: nat := 1200
  const MAX_PAYLOAD_SIZE: nat := DEFAULT_MTU - HEADER_SIZE

  datatype Error =
    | TooShort | BadMagic | ProtocolMismatch | ReservedFieldNonZero
    | LengthMismatch | PayloadTooLarge | BadChecksum | BufferTooSmall

  datatype PacketHeader = PacketHeader(
    version: Byte, flags: Byte, msgType: Byte, sessionId: u32, sequence: u32, timestamp: u64)

  // ------------------------------------------------------------------- big-endian

  /** The `n` low bytes of `v`, most significant first. */
  function BigEndian(v: nat, n: nat): (b: Bytes)
    ensures |b| == n
  {
    if n == 0 then [] else BigEndian(v / 0x100, n - 1) + [v % 0x100]
  }

  function FromBigEndian(b: Bytes): (v: nat)
    ensures v < Pow2(8 * |b|)
  {
    if b == [] then 0
    else
      var n := |b| - 1;
      var high := FromBigEndian(b[..n]);
      Pow2Step8(8 * n);
      0x100 * high + b[n]
  }

  lemma Pow2Step8(n: nat)
    ensures Pow2(n + 8) == 0x100 * Pow2(n)
  {
    Pow2Square(4, 16);
    Pow2Sum(n, 8);
  }

  lemma {:induction false} FromToBigEndian(v: nat, n: nat)
    requires v < Pow2(8 * n)
    ensures FromBigEndian(BigEndian(v, n)) == v
  {
    if n > 0 {
      Pow2Step8(8 * (n - 1));
      FromToBigEndian(v / 0x100, n - 1);
      assert BigEndian(v, n)[..n - 1] == BigEndian(v / 0x100, n - 1);
    }
  }

  lemma {:induction false} ToFromBigEndian(b: Bytes)
    ensures BigEndian(FromBigEndian(b), |b|) == b
  {
    if b != [] {
      var n := |b| - 1;
      ToFromBigEndian(b[..n]);
      var v := FromBigEndian(b);
      assert v / 0x100 == FromBigEndian(b[..n]) && v % 0x100 == b[n];
      assert b == b[..n] + [b[n]];
    }
  }

  /** Byte `i` from the left has weight 256^(n - 1 - i). */
  lemma {:induction false} BigEndianAt(v: nat, n: nat, i: nat)
    requires i < n
    ensures BigEndian(v, n)[i] == v / Pow2(8 * (n - 1 - i)) % 0x100
  {
    if i < n - 1 {
      BigEndianAt(v / 0x100, n - 1, i);
      Pow2Step8(8 * (n - 2 - i));
      DivideTwice(v, 0x100, Pow2(8 * (n - 2 - i)));
    }
  }

  lemma DivideTwice(v: nat, a: nat, b: nat)
    requires a > 0 && b > 0
    ensures a * b > 0 && v / a / b == v / (a * b)
  {
    MulAtLeast(a, b);
    var q := v / a / b;
    var r := v / a % b;
    assert v / a == q * b + r;
    assert v == (q * b + r) * a + v % a;
    Distribute(q * b, r, a);
    MulMonotone(r + 1, b, a);
    Distribute(r, 1, a);
    assert q * b * a == q * (a * b);
    Division(v, a * b, q, r * a + v % a);
  }

  lemma TwoBigEndian(v: u16)
    ensures BigEndian(v, 2) == [v / 0x100, v % 0x100]
  {
    assert BigEndian(v / 0x100, 1) == [] + [v / 0x100 % 0x100];
  }

  lemma WordWidths()
    ensures Pow2(8 * 2) == 0x1_0000 && Pow2(8 * 4) == 0x1_0000_0000 && Pow2(8 * 8) == MOD64
  {
    Pow2Square(4, 16);
    Pow2Square(8, 0x100);
    Pow2Square(16, 0x1_0000);
    Pow64();
  }

  // ----------------------------------------------------------------------- header

  function HeaderBytes(h: PacketHeader): (b: Bytes)
    ensures |b| == HEADER_SIZE
  {
    FirstBytes(h) + BigEndian(h.sessionId, 4) + BigEndian(h.sequence, 4) + BigEndian(h.timestamp, 8)
  }

  /** Up to the reserved bytes. */
  function FirstBytes(h: PacketHeader): (b: Bytes)
    ensures |b| == 8
  {
    MAGIC + [h.version, h.flags, h.msgType] + [0, 0, 0]
  }

  function DecodeHeader(buf: Bytes): Result<PacketHeader, Error> {
    if |buf| < HEADER_SIZE then Err(TooShort)
    else if buf[0] != MAGIC[0] || buf[1] != MAGIC[1] then Err(BadMagic)
    else if buf[2] != PROTOCOL_VERSION then Err(ProtocolMismatch)
    else if buf[5] != 0 || buf[6] != 0 || buf[7] != 0 then Err(ReservedFieldNonZero)
    else
      Ok(PacketHeader(buf[2], buf[3], buf[4], ReadU32(buf[8..12]), ReadU32(buf[12..16]), ReadU64(buf[16..24])))
  }

  function ReadU16(b: Bytes): u16
    requires |b| == 2
  {
    WordWidths();
    FromBigEndian(b)
  }

  function ReadU32(b: Bytes): u32
    requires |b| == 4
  {
    WordWidths();
    FromBigEndian(b)
  }

  function ReadU64(b: Bytes): u64
    requires |b| == 8
  {
    WordWidths();
    FromBigEndian(b)
  }

  /** Where the header's fields lie; `BigEndianAt` gives their bytes. */
  lemma HeaderFields(h: PacketHeader, rest: Bytes)
    ensures var buf := HeaderBytes(h) + rest;
            && buf[0] == 0x47 && buf[1] == 0x53
            && buf[2] == h.version && buf[3] == h.flags && buf[4] == h.msgType
            && buf[5] == 0 && buf[6] == 0 && buf[7] == 0
            && buf[8..12] == BigEndian(h.sessionId, 4)
            && buf[12..16] == BigEndian(h.sequence, 4)
            && buf[16..24] == BigEndian(h.timestamp, 8)
  {
    hide BigEndian;
    var front := FirstBytes(h);
    assert (HeaderBytes(h) + rest)[..8] == front;
  }

  /** The header decoder reads back exactly the headers of this version. */
  lemma HeaderRoundTrip(h: PacketHeader, rest: Bytes)
    ensures DecodeHeader(HeaderBytes(h) + rest)
         == if h.version == PROTOCOL_VERSION then Ok(h) else Err(ProtocolMismatch)
  {
    hide FromBigEndian, BigEndian, HeaderBytes;
    HeaderFields(h, rest);
    WordWidths();
    FromToBigEndian(h.sessionId, 4);
    FromToBigEndian(h.sequence, 4);
    FromToBigEndian(h.timestamp, 8);
  }

  /** Whatever header is accepted re-encodes to the bytes it came from. */
  lemma HeaderReencodes(buf: Bytes)
    requires DecodeHeader(buf).Ok?
    ensures HeaderBytes(DecodeHeader(buf).value) == buf[..HEADER_SIZE]
  {
    hide FromBigEndian, BigEndian;
    ToFromBigEndian(buf[8..12]);
    ToFromBigEndian(buf[12..16]);
    ToFromBigEndian(buf[16..24]);
    var h := DecodeHeader(buf).value;
    assert buf[..HEADER_SIZE] == buf[..8] + buf[8..12] + buf[12..16] + buf[16..24];
    assert buf[..8] == MAGIC + [h.version, h.flags, h.msgType] + [0, 0, 0];
  }

  // ----------------------------------------------------------------------- packet

  /** Everything the checksum covers. */
  function Covered(h: PacketHeader, payload: Bytes): Bytes {
    HeaderBytes(h) + payload + BigEndian(|payload|, 2)
  }

  function PacketBytes(h: PacketHeader, payload: Bytes): (b: Bytes)
    ensures |b| == HEADER_SIZE + |payload| + 4
  {
    Covered(h, payload) + ChecksumBytes(Crc(INIT, Covered(h, payload)))
  }

  /** Checks in the order of the code, cheapest first. */
  function DecodePacket(buf: Bytes): Result<(PacketHeader, Bytes), Error> {
    var total := |buf|;
    if total < HEADER_SIZE + 4 then Err(TooShort)
    else
      var header := DecodeHeader(buf);
      if header.Err? then Err(header.error)
      else
        var payloadLen := FromBigEndian(buf[total - 4..total - 2]);
        if HEADER_SIZE + payloadLen + 4 != total then Err(LengthMismatch)
        else if payloadLen > MAX_PAYLOAD_SIZE then Err(PayloadTooLarge)
        else if FromBigEndian(buf[total - 2..]) != Crc(INIT, buf[..total - 2]) then Err(BadChecksum)
        else Ok((header.value, buf[HEADER_SIZE..HEADER_SIZE + payloadLen]))
  }

  method Decode(table: seq<u16>, buf: Bytes) returns (r: Result<(PacketHeader, Bytes), Error>)
    requires IsTable(table)
    ensures r == DecodePacket(buf)
  {
    hide FromBigEndian, BigEndian, DecodeHeader, Crc;
    var total := |buf|;
    if total < HEADER_SIZE + 4 {
      return Err(TooShort);
    }
    var header := DecodeHeader(buf);
    if header.Err? {
      return Err(header.error);
    }
    var payloadLen := FromBigEndian(buf[total - 4..total - 2]);
    if HEADER_SIZE + payloadLen + 4 != total {
      return Err(LengthMismatch);
    }
    if payloadLen > MAX_PAYLOAD_SIZE {
      return Err(PayloadTooLarge);
    }
    var payload := buf[HEADER_SIZE..HEADER_SIZE + payloadLen];
    var stored := FromBigEndian(buf[total - 2..]);
    var computed := ComputeChecksum(table, buf[..HEADER_SIZE], payload, payloadLen);
    ToFromBigEndian(buf[total - 4..total - 2]);
    assert buf[..total - 2] == buf[..HEADER_SIZE] + payload + BigEndian(payloadLen, 2);
    if stored != computed {
      return Err(BadChecksum);
    }
    r := Ok((header.value, payload));
  }

  /** Three passes, without concatenating. */
  method ComputeChecksum(table: seq<u16>, header: Bytes, payload: Bytes, payloadLen: nat) returns (crc: u16)
    requires IsTable(table)
    ensures crc == Crc(INIT, header + payload + BigEndian(payloadLen, 2))
  {
    crc := CrcStep(table, INIT, header);
    crc := CrcStep(table, crc, payload);
    crc := CrcStep(table, crc, BigEndian(payloadLen, 2));
    CrcConcat(INIT, header, payload);
    CrcConcat(INIT, header + payload, BigEndian(payloadLen, 2));
  }

  /** `copy_from_slice` into part of the caller's buffer: `data` goes after what is
      `done`, over what `was` there. */
  method CopyInto(out: array<Byte>, at: nat, data: Bytes, ghost done: Bytes, ghost was: Bytes)
    requires at == |done| && at + |data| <= out.Length == |was|
    requires out[..] == done + was[at..]
    modifies out
    ensures out[..] == done + data + was[at + |data|..]
  {
    ghost var before := out[..];
    forall i | 0 <= i < |data| {
      out[at + i] := data[i];
    }
    assert out[..] == before[..at] + data + before[at + |data|..];
    assert before[..at] == done && before[at + |data|..] == was[at + |data|..];
  }

  method EncodeHeader(h: PacketHeader, out: array<Byte>) returns (error: Option<Error>)
    modifies out
    ensures out.Length < HEADER_SIZE ==> error == Some(BufferTooSmall) && out[..] == old(out[..])
    ensures out.Length >= HEADER_SIZE ==> error == None && out[..] == HeaderBytes(h) + old(out[HEADER_SIZE..])
  {
    if out.Length < HEADER_SIZE {
      return Some(BufferTooSmall);
    }
    ghost var was := out[..];
    assert was[0..] == was && was[HEADER_SIZE..] == old(out[HEADER_SIZE..]);
    var front, sid := FirstBytes(h), BigEndian(h.sessionId, 4);
    var sequence, timestamp := BigEndian(h.sequence, 4), BigEndian(h.timestamp, 8);
    ghost var two := front + sid;
    ghost var three := two + sequence;
    assert HeaderBytes(h) == three + timestamp && [] + front == front;
    hide BigEndian, FirstBytes, HeaderBytes;
    CopyInto(out, 0, front, [], was);
    CopyInto(out, 8, sid, front, was);
    CopyInto(out, 12, sequence, two, was);
    CopyInto(out, 16, timestamp, three, was);
    error := None;
  }

  /** Writes the packet at the front of `out`; on any error `out` is untouched. */
  method Encode(table: seq<u16>, h: PacketHeader, payload: Bytes, out: array<Byte>)
    returns (r: Result<nat, Error>)
    requires IsTable(table)
    modifies out
    ensures |payload| > MAX_PAYLOAD_SIZE ==> r == Err(PayloadTooLarge)
    ensures |payload| <= MAX_PAYLOAD_SIZE && out.Length < HEADER_SIZE + |payload| + 4 ==> r == Err(BufferTooSmall)
    ensures |payload| <= MAX_PAYLOAD_SIZE && out.Length >= HEADER_SIZE + |payload| + 4 ==>
              r == Ok(HEADER_SIZE + |payload| + 4)
    ensures r.Err? ==> out[..] == old(out[..])
    ensures r.Ok? ==> out[..] == PacketBytes(h, payload) + old(out[HEADER_SIZE + |payload| + 4..])
  {
    hide BigEndian, Crc, HeaderBytes, ChecksumBytes;
    var payloadLen := |payload|;
    if payloadLen > MAX_PAYLOAD_SIZE {
      return Err(PayloadTooLarge);
    }
    var total := HEADER_SIZE + payloadLen + 4;
    if out.Length < total {
      return Err(BufferTooSmall);
    }
    ghost var was, head := out[..], HeaderBytes(h);
    assert was[total..] == old(out[total..]) && was[HEADER_SIZE..] == old(out[HEADER_SIZE..]);
    var _ := EncodeHeader(h, out);
    assert out[..HEADER_SIZE] == head;
    CopyInto(out, HEADER_SIZE, payload, head, was);
    assert out[..HEADER_SIZE] == head;
    var checksum := CrcTwoSegments(table, out[..HEADER_SIZE], payload);
    var len := BigEndian(payloadLen, 2);
    CopyInto(out, total - 4, len, head + payload, was);
    checksum := CrcStep(table, checksum, len);
    CrcConcat(INIT, head + payload, len);
    CopyInto(out, total - 2, ChecksumBytes(checksum), head + payload + len, was);
    r := Ok(total);
  }

  // --------------------------------------------------------------------- theorems

  lemma TwoBytes(crc: u16)
    ensures FromBigEndian(ChecksumBytes(crc)) == crc
  {
    var b := ChecksumBytes(crc);
    assert b[..1] == [b[0]] && [b[0]][..0] == [];
    assert FromBigEndian([b[0]]) == b[0];
  }

  /** Decoding undoes encoding, for every header of this version and every
      payload within the limit; any other version is refused. */
  lemma RoundTrip(h: PacketHeader, payload: Bytes)
    requires |payload| <= MAX_PAYLOAD_SIZE
    ensures DecodePacket(PacketBytes(h, payload))
         == if h.version == PROTOCOL_VERSION then Ok((h, payload)) else Err(ProtocolMismatch)
  {
    hide HeaderBytes, DecodeHeader, BigEndian, FromBigEndian, Crc;
    var covered, buf := Covered(h, payload), PacketBytes(h, payload);
    HeaderRoundTrip(h, payload + BigEndian(|payload|, 2) + ChecksumBytes(Crc(INIT, covered)));
    Layout(h, payload);
    WordWidths();
    FromToBigEndian(|payload|, 2);
    TwoBytes(Crc(INIT, covered));
    hide PacketBytes, Covered, ChecksumBytes;
  }

  /** Where the parts of a packet are found again. */
  lemma Layout(h: PacketHeader, payload: Bytes)
    requires |payload| <= MAX_PAYLOAD_SIZE
    ensures var covered, buf, total := Covered(h, payload), PacketBytes(h, payload), HEADER_SIZE + |payload| + 4;
            && |buf| == total
            && buf == HeaderBytes(h) + (payload + BigEndian(|payload|, 2) + ChecksumBytes(Crc(INIT, covered)))
            && buf[HEADER_SIZE..HEADER_SIZE + |payload|] == payload
            && buf[total - 4..total - 2] == BigEndian(|payload|, 2)
            && buf[..total - 2] == covered && buf[total - 2..] == ChecksumBytes(Crc(INIT, covered))
  {
    hide HeaderBytes, BigEndian, Crc;
  }

  /** Which error names which fault: a packet of this version with one byte changed, or
      cut too short. */
  lemma FaultsNamed(h: PacketHeader, payload: Bytes, i: nat, x: Byte)
    requires |payload| <= MAX_PAYLOAD_SIZE && h.version == PROTOCOL_VERSION
    requires i < HEADER_SIZE + |payload| + 4
    ensures var sent, total := PacketBytes(h, payload), HEADER_SIZE + |payload| + 4;
            && (i < HEADER_SIZE + 4 ==> DecodePacket(sent[..i]) == Err(TooShort))
            && (x != sent[i] ==>
                  var r := DecodePacket(sent[i := x]);
                  && (i < 2 ==> r == Err(BadMagic))
                  && (i == 2 ==> r == Err(ProtocolMismatch))
                  && (5 <= i < 8 ==> r == Err(ReservedFieldNonZero))
                  && (total - 4 <= i < total - 2 ==> r == Err(LengthMismatch))
                  && (total - 2 <= i ==> r == Err(BadChecksum)))
  {
    hide BigEndian, FromBigEndian, Crc;
    var sent, total := PacketBytes(h, payload), HEADER_SIZE + |payload| + 4;
    if x != sent[i] {
      Layout(h, payload);
      HeaderFields(h, sent[HEADER_SIZE..]);
      assert HeaderBytes(h) + sent[HEADER_SIZE..] == sent;
      if i >= total - 2 {
        FaultInChecksum(h, payload, i, x);
      } else if i >= total - 4 {
        FaultInLength(h, payload, i, x);
      }
    }
  }

  lemma FaultInLength(h: PacketHeader, payload: Bytes, i: nat, x: Byte)
    requires |payload| <= MAX_PAYLOAD_SIZE && h.version == PROTOCOL_VERSION
    requires HEADER_SIZE + |payload| <= i < HEADER_SIZE + |payload| + 2 && x != PacketBytes(h, payload)[i]
    ensures DecodePacket(PacketBytes(h, payload)[i := x]) == Err(LengthMismatch)
  {
    hide FromBigEndian, Crc, HeaderBytes, DecodeHeader, DecodePacket, PacketBytes;
    var sent, total := PacketBytes(h, payload), HEADER_SIZE + |payload| + 4;
    TailOf(h, payload);
    SameHeader(h, sent, i, x);
    TailDecides(h, sent[i := x]);
    ChangedSlice(sent, i, x, total - 4, total - 2);
    ReadsDiffer(sent[i := x][total - 4..total - 2], sent[total - 4..total - 2]);
  }

  lemma FaultInChecksum(h: PacketHeader, payload: Bytes, i: nat, x: Byte)
    requires |payload| <= MAX_PAYLOAD_SIZE && h.version == PROTOCOL_VERSION
    requires HEADER_SIZE + |payload| + 2 <= i < HEADER_SIZE + |payload| + 4 && x != PacketBytes(h, payload)[i]
    ensures DecodePacket(PacketBytes(h, payload)[i := x]) == Err(BadChecksum)
  {
    hide FromBigEndian, Crc, HeaderBytes, DecodeHeader, DecodePacket, PacketBytes;
    var sent, total := PacketBytes(h, payload), HEADER_SIZE + |payload| + 4;
    TailOf(h, payload);
    SameHeader(h, sent, i, x);
    TailDecides(h, sent[i := x]);
    ChangedEnds(sent, i, x, total - 2);
    ChangedSlice(sent, i, x, total - 4, total - 2);
    ReadsDiffer(sent[i := x][total - 2..], sent[total - 2..]);
  }

  /** The fields of a packet as the decoder reads them. */
  lemma TailOf(h: PacketHeader, payload: Bytes)
    requires |payload| <= MAX_PAYLOAD_SIZE
    ensures var sent, total := PacketBytes(h, payload), HEADER_SIZE + |payload| + 4;
            && sent[..HEADER_SIZE] == HeaderBytes(h)
            && FromBigEndian(sent[total - 4..total - 2]) == |payload|
            && FromBigEndian(sent[total - 2..]) == Crc(INIT, sent[..total - 2])
  {
    hide BigEndian, FromBigEndian, Crc, HeaderBytes;
    Layout(h, payload);
    WordWidths();
    FromToBigEndian(|payload|, 2);
    TwoBytes(Crc(INIT, Covered(h, payload)));
    hide Covered, ChecksumBytes;
  }

  lemma ChangedEnds(b: Bytes, i: nat, x: Byte, at: nat)
    requires at <= i < |b| && x != b[i]
    ensures b[i := x][..at] == b[..at] && b[i := x][at..] != b[at..]
  {
    assert b[i := x][at..][i - at] != b[at..][i - at];
  }

  /** Past a good header, the length field and then the checksum decide. */
  lemma TailDecides(h: PacketHeader, buf: Bytes)
    requires |buf| >= HEADER_SIZE + 4 && DecodeHeader(buf) == Ok(h)
    ensures var total := |buf|;
            var len := FromBigEndian(buf[total - 4..total - 2]);
            && (HEADER_SIZE + len + 4 != total ==> DecodePacket(buf) == Err(LengthMismatch))
            && (HEADER_SIZE + len + 4 == total && len <= MAX_PAYLOAD_SIZE
                && FromBigEndian(buf[total - 2..]) != Crc(INIT, buf[..total - 2]) ==>
                  DecodePacket(buf) == Err(BadChecksum))
  {
    hide FromBigEndian, Crc, DecodeHeader;
  }

  lemma ChangedSlice(b: Bytes, i: nat, x: Byte, lo: nat, hi: nat)
    requires i < |b| && x != b[i] && lo <= hi <= |b|
    ensures b[i := x][lo..hi] == b[lo..hi] <==> !(lo <= i < hi)
  {
    if lo <= i < hi {
      assert b[i := x][lo..hi][i - lo] != b[lo..hi][i - lo];
    }
  }

  lemma SameHeader(h: PacketHeader, sent: Bytes, i: nat, x: Byte)
    requires h.version == PROTOCOL_VERSION && HEADER_SIZE <= i < |sent| && sent[..HEADER_SIZE] == HeaderBytes(h)
    ensures DecodeHeader(sent[i := x]) == Ok(h)
  {
    hide HeaderBytes, DecodeHeader;
    var buf := sent[i := x];
    HeaderRoundTrip(h, buf[HEADER_SIZE..]);
    assert HeaderBytes(h) + buf[HEADER_SIZE..] == buf;
  }

  lemma ReadsDiffer(a: Bytes, b: Bytes)
    requires |a| == |b| && a != b
    ensures FromBigEndian(a) != FromBigEndian(b)
  {
    ToFromBigEndian(a);
    ToFromBigEndian(b);
  }

  /** A well-formed packet whose payload is over the limit is refused for that. */
  lemma OversizeNamed(h: PacketHeader, payload: Bytes)
    requires MAX_PAYLOAD_SIZE < |payload| < 0x1_0000 && h.version == PROTOCOL_VERSION
    ensures DecodePacket(PacketBytes(h, payload)) == Err(PayloadTooLarge)
  {
    hide BigEndian, FromBigEndian, Crc, HeaderBytes, DecodeHeader;
    var buf, total := PacketBytes(h, payload), HEADER_SIZE + |payload| + 4;
    HeaderRoundTrip(h, buf[HEADER_SIZE..]);
    assert HeaderBytes(h) + buf[HEADER_SIZE..] == buf;
    WordWidths();
    FromToBigEndian(|payload|, 2);
    assert buf[total - 4..total - 2] == BigEndian(|payload|, 2);
  }

  /** Encoding undoes decoding: an accepted buffer is byte for byte the encoding
      of what it decodes to. */
  lemma Reencodes(buf: Bytes)
    requires DecodePacket(buf).Ok?
    ensures var (h, payload) := DecodePacket(buf).value;
            h.version == PROTOCOL_VERSION && |payload| <= MAX_PAYLOAD_SIZE && buf == PacketBytes(h, payload)
  {
    hide HeaderBytes, BigEndian, FromBigEndian, Crc;
    var total := |buf|;
    var (h, payload) := DecodePacket(buf).value;
    HeaderReencodes(buf);
    ToFromBigEndian(buf[total - 4..total - 2]);
    ToFromBigEndian(buf[total - 2..]);
    assert buf[..total - 2] == Covered(h, payload);
    ChecksumIsBigEndian(Crc(INIT, buf[..total - 2]));
    assert buf == buf[..total - 2] + buf[total - 2..];
  }

  lemma ChecksumIsBigEndian(crc: u16)
    ensures BigEndian(crc, 2) == ChecksumBytes(crc)
  {
    TwoBigEndian(crc);
  }

  /** The decoder accepts the encodings of valid packets and nothing else. */
  lemma AcceptsExactlyEncodings(buf: Bytes)
    ensures DecodePacket(buf).Ok? <==>
            exists h: PacketHeader, payload: Bytes ::
              h.version == PROTOCOL_VERSION && |payload| <= MAX_PAYLOAD_SIZE && buf == PacketBytes(h, payload)
  {
    if DecodePacket(buf).Ok? {
      Reencodes(buf);
    }
    if h: PacketHeader, payload: Bytes :|
      h.version == PROTOCOL_VERSION && |payload| <= MAX_PAYLOAD_SIZE && buf == PacketBytes(h, payload) {
      RoundTrip(h, payload);
    }
  }

  /** The payload limit leaves no room for the length and the checksum: an encoded
      packet is within the default MTU exactly when its payload is four bytes under
      the limit. */
  lemma FitsMtuIff(h: PacketHeader, payload: Bytes)
    ensures |PacketBytes(h, payload)| <= DEFAULT_MTU <==> |payload| <= MAX_PAYLOAD_SIZE - 4
  {
  }

  /** The largest payload the encoder accepts makes a packet over the default MTU. */
  lemma LargestPacketOverMtu(h: PacketHeader, payload: Bytes)
    requires |payload| == MAX_PAYLOAD_SIZE
    ensures |PacketBytes(h, payload)| == 1204 > DEFAULT_MTU
  {
  }

  /** Accepted buffers are code words of the checksum. */
  lemma AcceptedResidue(buf: Bytes)
    requires DecodePacket(buf).Ok?
    ensures Crc(INIT, buf) == 0
  {
    Reencodes(buf);
    var (h, payload) := DecodePacket(buf).value;
    CodeWordResidue(Covered(h, payload));
  }

  /** No packet is as long as the period of the checksum. */
  lemma TwoBitsTooClose(a: Bytes, b: Bytes)
    requires |a| == |b| <= HEADER_SIZE + MAX_PAYLOAD_SIZE + 4
    ensures var error := Difference(MessageBits(a), MessageBits(b));
            forall p: nat, q: nat :: TwoBits(error, p, q) ==> (q - p) % CrcPeriod.PERIOD != 0
  {
    var error := Difference(MessageBits(a), MessageBits(b));
    forall p: nat, q: nat | TwoBits(error, p, q)
      ensures (q - p) % CrcPeriod.PERIOD != 0
    {
      assert 0 < q - p < CrcPeriod.PERIOD;
    }
  }

  /** Error detection: flip any nonzero pattern of bits confined to 16 consecutive
      bits anywhere in an encoded packet, any odd number of bits, or any two bits,
      and decoding fails. So at least four flipped bits are needed to get through. */
  lemma DamageRejected(h: PacketHeader, payload: Bytes, damaged: Bytes)
    requires h.version == PROTOCOL_VERSION && |payload| <= MAX_PAYLOAD_SIZE
    requires |damaged| == HEADER_SIZE + |payload| + 4
    ensures var sent := PacketBytes(h, payload);
            var error := Difference(MessageBits(sent), MessageBits(damaged));
            damaged != sent
            && (OddBits(error) || (exists s: nat :: ConfinedBurst(error, s))
                || exists p: nat, q: nat :: TwoBits(error, p, q)) ==>
              DecodePacket(damaged).Err?
  {
    hide DecodePacket, PacketBytes, OddBits, MessageBits, ConfinedBurst, TwoBits;
    var sent := PacketBytes(h, payload);
    RoundTrip(h, payload);
    AcceptedResidue(sent);
    if DecodePacket(damaged).Ok? {
      AcceptedResidue(damaged);
      CodeWordsFarApart(sent, damaged);
      TwoBitsTooClose(sent, damaged);
    }
  }

  /** So one, two or three flipped bits never get through. */
  lemma FewFlipsRejected(h: PacketHeader, payload: Bytes, damaged: Bytes)
    requires h.version == PROTOCOL_VERSION && |payload| <= MAX_PAYLOAD_SIZE
    requires |damaged| == HEADER_SIZE + |payload| + 4
    ensures var flips := SetBits(Difference(MessageBits(PacketBytes(h, payload)), MessageBits(damaged)));
            1 <= flips <= 3 ==> DecodePacket(damaged).Err?
  {
    hide DecodePacket, PacketBytes, OddBits, MessageBits, ConfinedBurst, TwoBits, SetBits;
    var sent := PacketBytes(h, payload);
    var error := Difference(MessageBits(sent), MessageBits(damaged));
    if 1 <= SetBits(error) <= 3 {
      ClearHasNone(error);
      if SetBits(error) == 2 {
        var p, q := TwoBitsAt(error);
      } else {
        OddBitsCount(error);
      }
      DamageRejected(h, payload, damaged);
    }
  }

  /** And four can: flip four bits of the first three payload bytes, and the packet is
      accepted with another payload. */
  lemma FourFlipsAccepted(h: PacketHeader, payload: Bytes) returns (damaged: Bytes)
    requires h.version == PROTOCOL_VERSION && 3 <= |payload| <= MAX_PAYLOAD_SIZE
    ensures |damaged| == HEADER_SIZE + |payload| + 4
    ensures SetBits(Difference(MessageBits(PacketBytes(h, payload)), MessageBits(damaged))) == 4
    ensures DecodePacket(damaged) == Ok((h, FlipFour(payload))) && FlipFour(payload) != payload
  {
    hide DecodePacket, MessageBits, SetBits, Crc, HeaderBytes, BigEndian, XorByte, AllClear, Digits;
    var flipped, len := FlipFour(payload), BigEndian(|payload|, 2);
    FlipChanges(payload);
    var head, tail := FlipFourIsGenerator(HeaderBytes(h), payload, len);
    GeneratorUnnoticed(Covered(h, payload), Covered(h, flipped), head, tail);
    damaged := PacketBytes(h, flipped);
    RoundTrip(h, flipped);
    var checksum := ChecksumBytes(Crc(INIT, Covered(h, payload)));
    assert HeaderBytes(h) + payload + (len + checksum) == PacketBytes(h, payload);
    assert HeaderBytes(h) + flipped + (len + checksum) == damaged;
    head, tail := FlipFourIsGenerator(HeaderBytes(h), payload, len + checksum);
    GeneratorWeight();
    ClearHasNone(head);
    ClearHasNone(tail);
    SetBitsConcat(head, GENERATOR + tail);
    SetBitsConcat(GENERATOR, tail);
  }

  lemma FlipChanges(p: Bytes)
    requires |p| >= 3
    ensures FlipFour(p) != p && |FlipFour(p)| == |p|
  {
    hide Xor;
    if XorByte(p[0], 0x88) == p[0] {
      XorAssociates(p[0], p[0], 0x88);
      XorSelf(p[0]);
      XorZero(0x88);
      assert false;
    }
  }
}
