/** The PCM path of the voice pipeline: cutting a frame into packets on the way
    out, and filling the gaps of lost frames on the way in. */
module VoicePipeline {
  import opened Prelude
  import Packet

  const FRAME_OVERHEAD: nat := 4 + 16

  /** The largest piece of raw PCM the code puts in one packet: what fits the
      maximum payload, which is four bytes more than fits the default MTU. */
  const LIMIT: nat := Packet.MAX_PAYLOAD_SIZE - FRAME_OVERHEAD

  // ---------------------------------------------------------------------- sending

  function DivCeil(a: nat, b: nat): nat
    requires b >= 1
  {
    (a + b - 1) / b
  }

  function NextMultiple(a: nat, m: nat): nat
    requires m >= 1
  {
    DivCeil(a, m) * m
  }

  /** Bytes of one sample group: 16 bits for each channel. */
  function GroupBytes(channels: nat): (bytes: nat)
    ensures bytes == if channels == 0 then 2 else channels + channels
  {
    Max(channels, 1) * 2
  }

  /** The chunk size the code chooses for a frame that needs splitting. */
  function ChunkSize(len: nat, channels: nat): nat {
    NextMultiple(DivCeil(len, Max(DivCeil(len, LIMIT), 1)), GroupBytes(channels))
  }

  lemma DivCeilBounds(a: nat, b: nat, n: nat)
    requires b >= 1
    ensures DivCeil(a, b) <= n <==> a <= n * b
    ensures a <= DivCeil(a, b) * b
  {
    QuotientBelow(a + b - 1, b, n + 1);
    assert (n + 1) * b == n * b + b;
    QuotientBelow(a + b - 1, b, DivCeil(a, b) + 1);
    assert (DivCeil(a, b) + 1) * b == DivCeil(a, b) * b + b;
  }

  /** How a frame leaves: whole if it fits a packet, the empty frame included, and
      otherwise in consecutive pieces of the chosen size, the last one shorter. */
  ghost predicate IsSplit(pcm: Bytes, channels: nat, sent: seq<Bytes>) {
    if |pcm| <= LIMIT then sent == [pcm]
    else
      var size := Max(ChunkSize(|pcm|, channels), 1);
      && Concat(sent) == pcm
      && |sent| == DivCeil(|pcm|, size)
      && forall i :: 0 <= i < |sent| ==> 0 < |sent[i]| <= size && (i < |sent| - 1 ==> |sent[i]| == size)
  }

  /** Cuts at multiples of a size chosen so that the pieces are as even as whole
      sample groups allow. In mono and stereo every piece is within the limit and
      no split within it has fewer; the empty frame leaves as one empty packet. */
  method SendRaw(pcm: Bytes, channels: nat) returns (sent: seq<Bytes>)
    ensures IsSplit(pcm, channels, sent) && Concat(sent) == pcm
    ensures pcm == [] ==> sent == [[]]
    ensures channels <= 2 ==> forall i :: 0 <= i < |sent| ==> |sent[i]| <= LIMIT
    ensures channels <= 2 && pcm != [] ==> |sent| == DivCeil(|pcm|, LIMIT)
  {
    if |pcm| <= LIMIT {
      sent := [pcm];
      assert sent[..0] == [];
    } else {
      sent := SendChunks(pcm, channels);
    }
    if channels <= 2 {
      SplitOptimal(pcm, channels, sent);
    }
  }

  /** The chunk loop of a frame too large for one packet. */
  method SendChunks(pcm: Bytes, channels: nat) returns (sent: seq<Bytes>)
    requires |pcm| > LIMIT
    ensures IsSplit(pcm, channels, sent)
  {
    var parts := DivCeil(|pcm|, LIMIT);
    var size := NextMultiple(DivCeil(|pcm|, parts), GroupBytes(channels));
    ChunkSizePositive(|pcm|, channels);
    sent := [];
    var at := 0;
    while at < |pcm|
      invariant at <= |pcm| && Concat(sent) == pcm[..at]
      invariant at == |pcm| || at == |sent| * size
      invariant at == |pcm| ==> 0 < |sent| && (|sent| - 1) * size < |pcm| <= |sent| * size
      invariant forall i :: 0 <= i < |sent| ==>
                  0 < |sent[i]| <= size && (at < |pcm| || i < |sent| - 1 ==> |sent[i]| == size)
      decreases |pcm| - at
    {
      var end := if at + size <= |pcm| then at + size else |pcm|;
      var chunk := pcm[at..end];
      assert (sent + [chunk])[..|sent|] == sent;
      assert (|sent| + 1) * size == |sent| * size + size;
      sent := sent + [chunk];
      at := end;
    }
    assert pcm[..at] == pcm;
    DivCeilBounds(|pcm|, size, |sent|);
    DivCeilBounds(|pcm|, size, |sent| - 1);
  }

  lemma ChunkSizePositive(len: nat, channels: nat)
    requires len > LIMIT
    ensures DivCeil(len, LIMIT) >= 1
    ensures ChunkSize(len, channels) >= 1
    ensures ChunkSize(len, channels) * DivCeil(len, LIMIT) >= len
  {
    var parts, group := DivCeil(len, LIMIT), GroupBytes(channels);
    DivCeilBounds(len, LIMIT, 0);
    var even := DivCeil(len, parts);
    DivCeilBounds(len, parts, 0);
    DivCeilBounds(even, group, 0);
    MulMonotone(even, ChunkSize(len, channels), parts);
  }

  /** When whole groups fill a packet, the chosen size is a whole number of groups,
      fits in one packet, and needs the least possible number of them. */
  lemma ChunkSizeOptimal(len: nat, channels: nat)
    requires len > LIMIT && LIMIT % GroupBytes(channels) == 0
    ensures var size := ChunkSize(len, channels);
            1 <= size <= LIMIT && size % GroupBytes(channels) == 0 && DivCeil(len, size) == DivCeil(len, LIMIT)
  {
    var parts, group := DivCeil(len, LIMIT), GroupBytes(channels);
    var even, size := DivCeil(len, parts), ChunkSize(len, channels);
    ChunkSizePositive(len, channels);
    DivCeilBounds(len, LIMIT, parts);
    DivCeilBounds(len, parts, LIMIT);
    var groups := LIMIT / group;
    assert LIMIT == groups * group;
    DivCeilBounds(even, group, groups);
    MulMonotone(DivCeil(even, group), groups, group);
    Division(size, group, DivCeil(even, group), 0);
    DivCeilBounds(len, size, parts);
    var count := DivCeil(len, size);
    DivCeilBounds(len, size, count);
    MulMonotone(size, LIMIT, count);
    DivCeilBounds(len, LIMIT, count);
  }

  /** For every frame, the empty one apart, when whole sample groups fill a packet:
      pieces are cut at group boundaries, fit the limit, and number the least
      possible. */
  lemma SplitOptimal(pcm: Bytes, channels: nat, sent: seq<Bytes>)
    requires IsSplit(pcm, channels, sent)
    ensures pcm == [] ==> sent == [[]]
    ensures LIMIT % GroupBytes(channels) == 0 ==>
              && (pcm != [] ==> |sent| == DivCeil(|pcm|, LIMIT))
              && forall i :: 0 <= i < |sent| ==>
                   |sent[i]| <= LIMIT && (i < |sent| - 1 ==> |sent[i]| % GroupBytes(channels) == 0)
    ensures channels <= 2 ==> LIMIT % GroupBytes(channels) == 0
  {
    hide Concat;
    if |pcm| <= LIMIT {
      if pcm != [] {
        DivCeilBounds(|pcm|, LIMIT, 0);
        DivCeilBounds(|pcm|, LIMIT, 1);
      }
    } else if LIMIT % GroupBytes(channels) == 0 {
      ChunkSizeOptimal(|pcm|, channels);
    }
  }

  /** The pieces are as even as whole groups allow: no smaller whole number of groups
      covers the frame in as many pieces as it takes at the limit. */
  lemma ChunkSizeLeast(len: nat, channels: nat, groups: nat)
    requires len > LIMIT && groups * GroupBytes(channels) * DivCeil(len, LIMIT) >= len
    ensures ChunkSize(len, channels) <= groups * GroupBytes(channels)
  {
    var parts, group := DivCeil(len, LIMIT), GroupBytes(channels);
    ChunkSizePositive(len, channels);
    DivCeilBounds(len, parts, groups * group);
    DivCeilBounds(DivCeil(len, parts), group, groups);
    MulMonotone(DivCeil(DivCeil(len, parts), group), groups, group);
  }

  /** No way of cutting a frame into packets that fit uses fewer. */
  lemma {:induction false} NoFewerPackets(chunks: seq<Bytes>)
    requires forall i :: 0 <= i < |chunks| ==> |chunks[i]| <= LIMIT
    ensures DivCeil(|Concat(chunks)|, LIMIT) <= |chunks|
  {
    ConcatLength(chunks);
    DivCeilBounds(|Concat(chunks)|, LIMIT, |chunks|);
  }

  lemma {:induction false} ConcatLength(chunks: seq<Bytes>)
    requires forall i :: 0 <= i < |chunks| ==> |chunks[i]| <= LIMIT
    ensures |Concat(chunks)| <= |chunks| * LIMIT
  {
    if chunks != [] {
      ConcatLength(chunks[..|chunks| - 1]);
    }
  }

  /** Mono and stereo are covered; in general every piece of every frame fits
      exactly when whole sample groups fill a packet. */
  lemma FitsIffGroupsFillPacket(channels: nat)
    ensures (forall len: nat :: len > LIMIT ==> ChunkSize(len, channels) <= LIMIT)
       <==> LIMIT % GroupBytes(channels) == 0
    ensures channels <= 2 ==> LIMIT % GroupBytes(channels) == 0
  {
    var group := GroupBytes(channels);
    if LIMIT % group == 0 {
      forall len: nat | len > LIMIT
        ensures ChunkSize(len, channels) <= LIMIT
      {
        ChunkSizeOptimal(len, channels);
      }
    } else {
      var len := 2 * LIMIT;
      assert DivCeil(len, LIMIT) == 2 && DivCeil(len, 2) == LIMIT;
      DivCeilBounds(LIMIT, group, 0);
      var groups := DivCeil(LIMIT, group);
      DivCeilBounds(LIMIT, group, groups);
      if groups * group == LIMIT {
        Division(LIMIT, group, groups, 0);
      }
      assert ChunkSize(len, channels) > LIMIT;
    }
  }

  /** Three channels are accepted and break the limit: a frame of two full packets
      is cut into pieces of 1158 bytes. */
  lemma ThreeChannelsOverLimit()
    ensures ChunkSize(2 * LIMIT, 3) == 1158 > LIMIT
  {
    assert DivCeil(2 * LIMIT, LIMIT) == 2 && DivCeil(2 * LIMIT, 2) == LIMIT && DivCeil(LIMIT, 6) == 193;
    hide DivCeil;
  }

  // --------------------------------------------------------------- the default MTU

  /** A sealed piece fits a packet of the default MTU: sequence and tag around the
      samples, header, length and checksum around those. */
  predicate FitsMtu(piece: Bytes) {
    Packet.HEADER_SIZE + (FRAME_OVERHEAD + |piece|) + 4 <= Packet.DEFAULT_MTU
  }

  /** `FitsMtu` is the size of the packet the session encodes for the piece. */
  lemma SealedPieceFits(h: Packet.PacketHeader, sealed: Bytes, piece: Bytes)
    requires |sealed| == FRAME_OVERHEAD + |piece|
    ensures |Packet.PacketBytes(h, sealed)| <= Packet.DEFAULT_MTU <==> FitsMtu(piece)
    ensures FitsMtu(piece) <==> |piece| <= LIMIT - 4
  {
  }

  /** Every piece of a frame can be encoded into a buffer of the default MTU if and
      only if the frame is at least four bytes under the limit, or is split into
      pieces that are. */
  lemma SplitFitsMtuIff(pcm: Bytes, channels: nat, sent: seq<Bytes>)
    requires IsSplit(pcm, channels, sent)
    ensures (forall i :: 0 <= i < |sent| ==> FitsMtu(sent[i]))
       <==> |pcm| <= LIMIT - 4 || (|pcm| > LIMIT && ChunkSize(|pcm|, channels) <= LIMIT - 4)
  {
    hide Concat;
    if |pcm| > LIMIT {
      ChunkSizePositive(|pcm|, channels);
      var size := ChunkSize(|pcm|, channels);
      DivCeilBounds(|pcm|, size, 0);
      if |sent| == 1 {
        OneChunk(sent);
      } else {
        assert |sent[0]| == size;
      }
    } else {
      assert sent[0] == pcm;
    }
  }

  lemma OneChunk(sent: seq<Bytes>)
    requires |sent| == 1
    ensures Concat(sent) == sent[0]
  {
    assert sent[..0] == [];
  }

  /** A mono frame of 2312 bytes leaves in two pieces, neither of which fits. */
  lemma MonoFrameOverMtu(pcm: Bytes, sent: seq<Bytes>)
    requires |pcm| == 2312 && IsSplit(pcm, 1, sent)
    ensures |sent| == 2 && |sent[0]| == 1156 && !FitsMtu(sent[0])
  {
    assert DivCeil(2312, LIMIT) == 2 && DivCeil(2312, 2) == LIMIT && DivCeil(LIMIT, 2) == 578;
    hide DivCeil;
    assert ChunkSize(2312, 1) == 1156;
  }

  // -------------------------------------------------------------------- receiving

  const MAX_CONCEALED: nat := 3

  /** A larger jump (or any backward one) is a restart, not a loss. */
  const RESTART: nat := 1_000

  /** What the decoder is asked for. A call yields samples or fails. */
  datatype Call = Conceal | Recover(payload: Bytes) | Decode(payload: Bytes)

  /** Frames missing before `s`, as the code counts them. */
  function Missing(last: Option<u32>, s: u32): (n: nat)
    ensures n <= MAX_CONCEALED
  {
    if last.None? then 0
    else
      var gap := WrapSub(WrapSub(s, last.value), 1);
      if gap > RESTART then 0 else if gap < MAX_CONCEALED then gap else MAX_CONCEALED
  }

  /** The decoder calls that fill the gap before a frame and play it, in order. */
  function Calls(last: Option<u32>, s: u32, payload: Bytes): seq<Call> {
    var missing := Missing(last, s);
    seq(if missing >= 1 then missing - 1 else 0, _ => Conceal)
    + (if missing >= 1 then [Recover(payload)] else [])
    + [Decode(payload)]
  }

  /** What the first `n` decoder calls append: nothing for a call that fails. */
  function Appended(answers: nat -> Option<seq<int>>, n: nat): seq<int> {
    if n == 0 then []
    else Appended(answers, n - 1) + (if answers(n - 1).Some? then answers(n - 1).value else [])
  }

  class Receiver {
    var last: Option<u32>

    constructor ()
      ensures last == None
    {
      last := None;
    }

    /** `answers(i)` is what the decoder answers to call `i` of this receive. A frame
        that does not decode is concealed like a lost one. */
    method Receive(s: u32, payload: Bytes, answers: nat -> Option<seq<int>>)
      returns (calls: seq<Call>, out: seq<int>)
      modifies this
      ensures last == Some(s)
      ensures var expected := Calls(old(last), s, payload);
              calls == expected + if answers(|expected| - 1).Some? then [] else [Conceal]
      ensures out == Appended(answers, |calls|)
    {
      assert Appended(answers, 0) == [];
      hide Appended;
      var missing := if last.None? then 0 else WrapSub(WrapSub(s, last.value), 1);
      last := Some(s);
      missing := if missing > RESTART then 0 else if missing < MAX_CONCEALED then missing else MAX_CONCEALED;
      calls, out := [], [];
      var i := 1;
      while i < missing
        invariant 1 <= i && (missing == 0 ==> i == 1) && (missing >= 1 ==> i <= missing)
        invariant last == Some(s)
        invariant calls == seq(i - 1, _ => Conceal) && out == Appended(answers, |calls|)
      {
        calls, out := Ask(calls, out, Conceal, answers);
        i := i + 1;
      }
      if missing >= 1 {
        calls, out := Ask(calls, out, Recover(payload), answers);
      }
      calls, out := Ask(calls, out, Decode(payload), answers);
      assert missing == Missing(old(last), s);
      assert calls == Calls(old(last), s, payload);
      if answers(|calls| - 1).None? {
        calls, out := Ask(calls, out, Conceal, answers);
      }
    }

    /** One decoder call, appending what it yields. */
    static method Ask(calls: seq<Call>, out: seq<int>, call: Call, answers: nat -> Option<seq<int>>)
      returns (calls': seq<Call>, out': seq<int>)
      requires out == Appended(answers, |calls|)
      ensures calls' == calls + [call] && out' == Appended(answers, |calls'|)
    {
      calls' := calls + [call];
      var answer := answers(|calls|);
      out' := if answer.Some? then out + answer.value else out;
    }
  }

  /** When each call yields one frame of `size` samples, one receive plays between
      one and four frames, on any arrivals whatever, the received one last. */
  lemma OneToFourFrames(last: Option<u32>, s: u32, payload: Bytes, answers: nat -> Option<seq<int>>, size: nat)
    requires forall i :: answers(i).Some? && |answers(i).value| == size
    ensures var calls := Calls(last, s, payload);
            && 1 <= |calls| <= 4 && calls[|calls| - 1] == Decode(payload)
            && |Appended(answers, |calls|)| == |calls| * size
  {
    AppendedLength(answers, |Calls(last, s, payload)|, size);
  }

  lemma {:induction false} AppendedLength(answers: nat -> Option<seq<int>>, n: nat, size: nat)
    requires forall i :: answers(i).Some? && |answers(i).value| == size
    ensures |Appended(answers, n)| == n * size
  {
    if n > 0 {
      AppendedLength(answers, n - 1, size);
      assert n * size == (n - 1) * size + size;
    }
  }

  /** The calls for a frame `gap` positions after the last one heard: the gap is filled
      with up to three frames, the last of them from the copy this packet carries, and
      not at all when it is a restart. */
  lemma CallsForGap(before: nat, gap: nat, payload: Bytes)
    requires gap < MOD32
    ensures var calls := Calls(Some(Wrap(before)), Wrap(before + 1 + gap), payload);
            var filled := if gap > 1000 then 0 else if gap < 3 then gap else 3;
            && |calls| == filled + 1 && calls[filled] == Decode(payload)
            && (filled > 0 ==> calls[filled - 1] == Recover(payload))
            && forall i :: 0 <= i < filled - 1 ==> calls[i] == Conceal
    ensures Calls(None, Wrap(before), payload) == [Decode(payload)]
  {
    WrapSubWraps(before + 1 + gap, before);
    WrapSubWraps(gap + 1, 1);
    WrapSmall(1);
    WrapSmall(gap);
    hide Wrap;
  }

  /** Frames played for the arrivals at unwrapped `positions`, in that order. */
  function Played(positions: seq<nat>): nat {
    if positions == [] then 0
    else
      var n := |positions| - 1;
      var last := if n == 0 then None else Some(Wrap(positions[n - 1]));
      Played(positions[..n]) + |Calls(last, Wrap(positions[n]), [])|
  }

  ghost predicate Increasing(positions: seq<nat>) {
    forall i :: 0 < i < |positions| ==> positions[i - 1] < positions[i] <= positions[i - 1] + MOD32
  }

  ghost predicate SmallGaps(positions: seq<nat>) {
    forall i :: 0 < i < |positions| ==> positions[i] - positions[i - 1] - 1 <= MAX_CONCEALED
  }

  /** Between two arrivals the code never plays more frames than were sent, and
      plays exactly as many when at most three are missing. */
  lemma GapFilled(before: nat, at: nat)
    requires before < at <= before + MOD32
    ensures |Calls(Some(Wrap(before)), Wrap(at), [])| <= at - before
    ensures |Calls(Some(Wrap(before)), Wrap(at), [])| == at - before <==> at - before - 1 <= MAX_CONCEALED
  {
    WrapSubWraps(at, before);
    WrapSubWraps(at - before, 1);
    WrapSmall(1);
    WrapSmall(at - before - 1);
  }

  lemma LastGap(positions: seq<nat>)
    requires |positions| >= 2 && Increasing(positions)
    ensures var n := |positions| - 1;
            && positions[n - 1] < positions[n] <= positions[n - 1] + MOD32
            && Increasing(positions[..n])
            && (SmallGaps(positions) <==>
                  SmallGaps(positions[..n]) && positions[n] - positions[n - 1] - 1 <= MAX_CONCEALED)
  {
  }

  /** Conservation: over any increasing run of arrivals, across wrap-around, the
      frames played number exactly last - first + 1 when no gap misses more than
      three frames, and fewer otherwise. */
  lemma {:induction false} GapFillingConserves(positions: seq<nat>)
    requires positions != [] && Increasing(positions)
    ensures var first, last := positions[0], positions[|positions| - 1];
            && first + Played(positions) <= last + 1
            && (first + Played(positions) == last + 1 <==> SmallGaps(positions))
  {
    var n := |positions| - 1;
    if n > 0 {
      hide Calls, Wrap;
      LastGap(positions);
      hide Increasing, SmallGaps;
      GapFillingConserves(positions[..n]);
      GapFilled(positions[n - 1], positions[n]);
    } else {
      assert positions[..0] == [];
    }
  }
}
