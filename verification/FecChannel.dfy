/** The FEC pair across a lossy, reordering, duplicating channel: what one group
    gives back from any state of the decoder, streams whose groups arrive one after
    another, and streams that arrive in any order whatever. */
module FecChannel {
  import opened Prelude
  import opened Bits
  import opened Fec

  // ------------------------------------------------------------------- sender

  /** Sends the frames of one group on consecutive sequences; the result is what
      the last push emitted. */
  function SendGroup(e: Sender, base: u32, frames: seq<Bytes>): (Sender, Option<FecParity>) {
    if frames == [] then (e, None)
    else
      var n := |frames| - 1;
      Send(SendGroup(e, base, frames[..n]).0, Wrap(base + n), frames[n])
  }

  /** The encoder emits the parity of exactly that group, on its last frame. */
  lemma {:induction false} SendGroupParity(e: Sender, base: u32, frames: seq<Bytes>)
    requires e.group == [] && e.window >= 2 && |frames| <= e.window
    ensures var (e', parity) := SendGroup(e, base, frames);
            && e'.window == e.window
            && (0 < |frames| < e.window ==> e'.group == frames && e'.seqBase == base && parity == None)
            && (|frames| == e.window ==> e'.group == [] && parity == Some(FecParity(base, e.window, Parity(frames))))
            && (|frames| == 0 ==> e' == e)
  {
    assert Wrap(base) == base;
    hide Parity, Wrap;
    if frames != [] {
      var n := |frames| - 1;
      SendGroupParity(e, base, frames[..n]);
      assert frames[..n] + [frames[n]] == frames;
      assert SendGroup(e, base, frames) == Send(SendGroup(e, base, frames[..n]).0, Wrap(base + n), frames[n]);
      hide SendGroup;
    }
  }

  // ----------------------------------------------------------------- receiver

  /** Feeds the decoder the frames at `offsets` of a group, in that order. */
  function ReceiveFrames(d: Receiver, base: u32, frames: seq<Bytes>, offsets: seq<nat>): (r: Receiver)
    requires WellFormed(d)
    requires forall i :: 0 <= i < |offsets| ==> offsets[i] < |frames|
    ensures WellFormed(r) && r.window == d.window
  {
    if offsets == [] then d
    else
      var last := offsets[|offsets| - 1];
      ReceiveData(ReceiveFrames(d, base, frames, offsets[..|offsets| - 1]), Wrap(base + last), frames[last])
  }

  /** The decoder is on the group at `base` and holds the frames at `offsets`, and
      in the other slots what `prior` held. */
  ghost predicate Holds(d: Receiver, base: u32, frames: seq<Bytes>, offsets: seq<nat>, prior: seq<Option<Bytes>>) {
    && d.active && d.seqBase == base && |d.received| == |prior| == |frames|
    && forall i :: 0 <= i < |frames| ==>
         d.received[i] == if i in offsets then Some(frames[i]) else prior[i]
  }

  predicate Aligned(base: u32, window: nat)
    requires window > 0
  {
    base % window == 0 && base + window <= MOD32
  }

  lemma BaseOfAligned(base: u32, offset: nat, window: nat)
    requires offset < window && base % window == 0 && base + offset < MOD32
    ensures Wrap(base + offset) == base + offset && GroupBase(base + offset, window) == base
  {
    var q := base / window;
    assert base == q * window;
    AddTurns(offset, q, window);
    SmallRemainder(offset, window);
  }

  lemma SmallRemainder(x: nat, m: nat)
    requires x < m
    ensures x % m == x
  {
  }

  /** From any state, whatever the order and multiplicity of the frames. */
  lemma {:induction false} ArrivedAreHeld(d: Receiver, base: u32, frames: seq<Bytes>, offsets: seq<nat>)
    requires WellFormed(d) && d.window == |frames| && Aligned(base, d.window)
    requires forall i :: 0 <= i < |offsets| ==> offsets[i] < |frames|
    ensures var r := ReceiveFrames(d, base, frames, offsets);
            && Holds(Enter(r, base), base, frames, offsets, Enter(d, base).received)
            && (offsets != [] ==> r.active && r.seqBase == base)
  {
    hide ReceiveData, Aligned, Wrap;
    if offsets != [] {
      hide Holds, Enter;
      var n := |offsets| - 1;
      ArrivedAreHeld(d, base, frames, offsets[..n]);
      assert offsets == offsets[..n] + [offsets[n]];
      var before := ReceiveFrames(d, base, frames, offsets[..n]);
      assert ReceiveFrames(d, base, frames, offsets)
          == ReceiveData(before, Wrap(base + offsets[n]), frames[offsets[n]]);
      hide ReceiveFrames;
      ArrivalIsHeld(before, base, frames, offsets[..n], offsets[n], Enter(d, base).received);
    }
  }

  lemma ArrivalIsHeld(
      d: Receiver, base: u32, frames: seq<Bytes>, before: seq<nat>, last: nat, prior: seq<Option<Bytes>>)
    requires WellFormed(d) && d.window == |frames| && Aligned(base, d.window) && last < |frames|
    requires Holds(Enter(d, base), base, frames, before, prior)
    ensures var r := ReceiveData(d, Wrap(base + last), frames[last]);
            && Enter(r, base) == r && r.active && r.seqBase == base && r.window == d.window
            && Holds(r, base, frames, before + [last], prior)
  {
    BaseOfAligned(base, last, d.window);
    hide Wrap, GroupBase, Aligned;
  }

  // ------------------------------------------------------------- one lost frame

  /** The frames present, as options. */
  ghost predicate AllBut(received: seq<Option<Bytes>>, frames: seq<Bytes>, lost: nat) {
    && |received| == |frames|
    && forall i :: 0 <= i < |frames| ==> received[i] == if i == lost then None else Some(frames[i])
  }

  /** The column XOR of a group is that of the frames present and the lost one. */
  lemma {:induction false} XorSplits(received: seq<Option<Bytes>>, frames: seq<Bytes>, lost: nat, j: nat)
    requires AllBut(received, frames, lost)
    ensures XorAt(frames, j)
         == XorByte(XorPresent(received, j), if lost < |frames| then ByteAt(frames[lost], j) else 0)
  {
    hide Xor;
    if frames == [] {
      XorByteLaws(0, 0, 0);
    } else {
      var n := |frames| - 1;
      XorSplits(received[..n], frames[..n], lost, j);
      var present, last := XorPresent(received[..n], j), ByteAt(frames[n], j);
      if lost < n {
        var gone := ByteAt(frames[lost], j);
        XorByteLaws(present, gone, last);
        XorByteLaws(gone, last, 0);
        XorByteLaws(present, last, gone);
      } else {
        XorByteLaws(present, 0, last);
        XorByteLaws(XorByte(present, last), 0, 0);
      }
    }
  }

  lemma RecoveredIsPadded(received: seq<Option<Bytes>>, frames: seq<Bytes>, lost: nat)
    requires AllBut(received, frames, lost) && lost < |frames|
    ensures RecoveredPayload(received, Parity(frames)) == Padded(frames[lost], MaxLen(frames))
  {
    hide Xor;
    forall j | 0 <= j < MaxLen(frames)
      ensures XorByte(Parity(frames)[j], XorPresent(received, j)) == ByteAt(frames[lost], j)
    {
      XorSplits(received, frames, lost, j);
      var present, gone := XorPresent(received, j), ByteAt(frames[lost], j);
      XorByteLaws(present, gone, present);
      XorByteLaws(gone, present, present);
      XorByteLaws(present, 0, 0);
      XorByteLaws(gone, 0, 0);
    }
  }

  /** Padding keeps the payload itself as a prefix. */
  lemma {:induction false} FitsInGroup(frames: seq<Bytes>, i: nat)
    requires i < |frames|
    ensures |frames[i]| <= MaxLen(frames) && frames[i] <= Padded(frames[i], MaxLen(frames))
  {
    if i < |frames| - 1 {
      FitsInGroup(frames[..|frames| - 1], i);
    }
  }

  // ------------------------------------------------------------------ one group

  datatype Arrival = Arrival(offsets: seq<nat>, parity: bool)

  ghost function ReceiveGroup(d: Receiver, base: u32, frames: seq<Bytes>, p: FecParity, a: Arrival)
    : (r: (Receiver, Option<(u32, Bytes)>))
    requires WellFormed(d)
    requires forall i :: 0 <= i < |a.offsets| ==> a.offsets[i] < |frames|
    ensures WellFormed(r.0)
  {
    var held := ReceiveFrames(d, base, frames, a.offsets);
    if a.parity then ReceiveParity(held, p) else (held, None)
  }

  ghost predicate OnlyLost(a: Arrival, size: nat, lost: nat) {
    lost < size && forall i :: 0 <= i < size ==> (i !in a.offsets <==> i == lost)
  }

  /** What the receiver must get back from a group. */
  ghost predicate GroupOutcome(base: u32, frames: seq<Bytes>, a: Arrival, result: Option<(u32, Bytes)>) {
    && (forall lost: nat :: OnlyLost(a, |frames|, lost) && a.parity ==>
          result == Some((Wrap(base + lost), Padded(frames[lost], MaxLen(frames)))))
    && ((forall lost: nat :: !OnlyLost(a, |frames|, lost)) || !a.parity ==> result == None)
  }

  /** One aligned group: a single loss is recovered exactly, padded with zeros to
      the longest frame; no loss, or two or more, recovers nothing. */
  lemma GroupRecovery(d: Receiver, base: u32, frames: seq<Bytes>, a: Arrival)
    requires WellFormed(d) && d.window == |frames| && Aligned(base, d.window)
    requires !d.active || d.seqBase != base
    requires forall i :: 0 <= i < |a.offsets| ==> a.offsets[i] < |frames|
    ensures var p := FecParity(base, d.window, Parity(frames));
            var (d', result) := ReceiveGroup(d, base, frames, p, a);
            && GroupOutcome(base, frames, a, result)
            && d'.window == d.window
            && (Heard(a) ==> d'.active && d'.seqBase == base)
  {
    hide Parity, Recovery, Holds;
    var held := ReceiveFrames(d, base, frames, a.offsets);
    ArrivedAreHeld(d, base, frames, a.offsets);
    if a.parity {
      var g := Enter(held, base).(parity := Some(Parity(frames)));
      ParityKeepsHeld(Enter(held, base), Parity(frames), base, frames, a.offsets, Enter(d, base).received);
      RecoveryOfHeld(g, base, frames, a, Enter(d, base).received);
    }
  }

  lemma ParityKeepsHeld(
      d: Receiver, parity: Bytes, base: u32, frames: seq<Bytes>, offsets: seq<nat>, prior: seq<Option<Bytes>>)
    requires Holds(d, base, frames, offsets, prior)
    ensures Holds(d.(parity := Some(parity)), base, frames, offsets, prior)
  {
  }

  lemma RecoveryOfHeld(g: Receiver, base: u32, frames: seq<Bytes>, a: Arrival, prior: seq<Option<Bytes>>)
    requires Holds(g, base, frames, a.offsets, prior) && a.parity
    requires forall i :: 0 <= i < |prior| ==> prior[i].None?
    ensures GroupOutcome(base, frames, a, Recovery(g, Parity(frames)))
  {
    assert forall lost: nat :: OnlyMissing(g.received, lost) <==> OnlyLost(a, |frames|, lost);
    if lost: nat :| OnlyLost(a, |frames|, lost) {
      assert AllBut(g.received, frames, lost);
      RecoveredIsPadded(g.received, frames, lost);
    }
  }

  // --------------------------------------------------------- whole streams

  /** A stream of groups on consecutive sequences from `start`, and what of each
      group arrives: some of it, all of it, or nothing. */
  datatype Stream = Stream(window: nat, start: nat, groups: seq<seq<Bytes>>, arrivals: seq<Arrival>)

  function Base(s: Stream, g: nat): u32 {
    Wrap(s.start + g * s.window)
  }

  /** Something of the group arrives. */
  predicate Heard(a: Arrival) {
    a.parity || a.offsets != []
  }

  /** The last of the first `n` groups of which anything arrives, or -1. */
  function LastHeard(s: Stream, n: nat): (g: int)
    requires n <= |s.arrivals|
    ensures -1 <= g < n
  {
    if n == 0 then -1 else if Heard(s.arrivals[n - 1]) then n - 1 else LastHeard(s, n - 1)
  }

  /** Groups are whole and aligned. The link may fall silent for any number of
      groups, but does not come back on the very sequence where it was lost, which
      takes a whole lap of silence: see `ShortSilence`. */
  ghost predicate Transmissible(s: Stream) {
    && 2 <= s.window <= 255 && |s.groups| == |s.arrivals|
    && (forall g :: 0 <= g < |s.groups| ==> |s.groups[g]| == s.window && Aligned(Base(s, g), s.window))
    && (forall g, i :: 0 <= g < |s.groups| && 0 <= i < |s.arrivals[g].offsets| ==>
          s.arrivals[g].offsets[i] < s.window)
    && (forall g :: 0 <= g < |s.groups| && Heard(s.arrivals[g]) && LastHeard(s, g) >= 0 ==>
          Base(s, g) != Base(s, LastHeard(s, g)))
  }

  /** Runs encoder, channel and decoder over the first `n` groups; the result
      lists what the decoder recovered, group by group. */
  ghost function Transfer(s: Stream, n: nat): (r: (Sender, Receiver, seq<Option<(u32, Bytes)>>))
    requires Transmissible(s) && n <= |s.groups|
    ensures WellFormed(r.1) && |r.2| == n
  {
    if n == 0 then (Sender(s.window, 0, []), Receiver(s.window, false, 0, [], None), [])
    else
      var (e, d, results) := Transfer(s, n - 1);
      var (e', d', result) := TransferGroup(s, n - 1, e, d);
      (e', d', results + [result])
  }

  /** Sends group `g` and receives what arrives of it. */
  ghost function TransferGroup(s: Stream, g: nat, e: Sender, d: Receiver)
    : (r: (Sender, Receiver, Option<(u32, Bytes)>))
    requires Transmissible(s) && g < |s.groups| && WellFormed(d)
    ensures WellFormed(r.1)
  {
    var (e', parity) := SendGroup(e, Base(s, g), s.groups[g]);
    var a := s.arrivals[g];
    var (d', result) :=
      ReceiveGroup(d, Base(s, g), s.groups[g],
                   if parity.Some? then parity.value else FecParity(0, 0, []),
                   a.(parity := a.parity && parity.Some?));
    (e', d', result)
  }

  /** Both ends are between groups, the receiver still on the last one it heard. */
  ghost predicate BetweenGroups(s: Stream, n: nat, e: Sender, d: Receiver) {
    && WellFormed(d) && e.window == s.window == d.window && e.group == []
    && n <= |s.arrivals|
    && (if LastHeard(s, n) < 0 then !d.active else d.active && d.seqBase == Base(s, LastHeard(s, n)))
  }

  lemma GroupTransferred(s: Stream, g: nat, e: Sender, d: Receiver)
    requires Transmissible(s) && g < |s.groups| && BetweenGroups(s, g, e, d)
    ensures var (e', d', result) := TransferGroup(s, g, e, d);
            && BetweenGroups(s, g + 1, e', d')
            && GroupOutcome(Base(s, g), s.groups[g], s.arrivals[g], result)
  {
    SendGroupParity(e, Base(s, g), s.groups[g]);
    if Heard(s.arrivals[g]) {
      GroupRecovery(d, Base(s, g), s.groups[g], s.arrivals[g]);
    }
  }

  /** Every group of a stream meets its outcome, for any interleaving of losses,
      reorderings and duplicates inside the groups, whole groups lost included. */
  lemma {:induction false} StreamRecovery(s: Stream, n: nat)
    requires Transmissible(s) && n <= |s.groups|
    ensures var (e, d, results) := Transfer(s, n);
            && BetweenGroups(s, n, e, d)
            && forall g :: 0 <= g < n ==> GroupOutcome(Base(s, g), s.groups[g], s.arrivals[g], results[g])
  {
    hide TransferGroup, GroupOutcome;
    if n > 0 {
      StreamRecovery(s, n - 1);
      var (e, d, results) := Transfer(s, n - 1);
      GroupTransferred(s, n - 1, e, d);
    }
  }

  /** A silence shorter than a lap of the sequence space always returns on a new
      base. */
  lemma ShortSilence(s: Stream, g: nat)
    requires s.window > 0 && g < |s.arrivals| && LastHeard(s, g) >= 0
    requires (g - LastHeard(s, g)) * s.window < MOD32
    ensures Base(s, g) != Base(s, LastHeard(s, g))
  {
    hide Wrap;
    var h := LastHeard(s, g);
    MulAtLeast(s.window, g - h);
    Distribute(h, g - h, s.window);
    WrapsApart(s.start + h * s.window, (g - h) * s.window);
  }

  /** With at most one data frame lost per group and every parity delivered, the
      receiver ends up with every frame of the stream: received, or recovered
      with its own bytes first and zeros after them. */
  lemma EveryFrameReaches(s: Stream, g: nat, i: nat)
    requires Transmissible(s) && g < |s.groups| && i < s.window
    requires s.arrivals[g].parity
    requires forall k :: 0 <= k < s.window && k != i ==> k in s.arrivals[g].offsets
    ensures i in s.arrivals[g].offsets
         || var result := Transfer(s, |s.groups|).2[g];
            && result.Some? && result.value.0 == Base(s, g) + i
            && s.groups[g][i] <= result.value.1 && |result.value.1| == MaxLen(s.groups[g])
            && forall j :: |s.groups[g][i]| <= j < |result.value.1| ==> result.value.1[j] == 0
  {
    hide Transfer, Parity, MaxLen;
    if i !in s.arrivals[g].offsets {
      assert OnlyLost(s.arrivals[g], s.window, i);
      FitsInGroup(s.groups[g], i);
      StreamRecovery(s, |s.groups|);
      hide Transmissible, BetweenGroups, Wrap;
    }
  }

  lemma AlignedBeforeWrap(s: Stream, g: nat)
    requires s.window > 0 && s.start % s.window == 0
    requires MOD32 % s.window == 0 || s.start + (g + 1) * s.window <= MOD32
    ensures Aligned(Base(s, g), s.window)
  {
    hide Wrap;
    var at := s.start + g * s.window;
    AddTurns(s.start, g, s.window);
    if MOD32 % s.window == 0 {
      WrapKeepsRemainder(at, s.window);
      MultipleFits(Wrap(at), s.window);
    } else {
      Distribute(g, 1, s.window);
      WrapSmall(at);
    }
  }

  /** The last group that starts before the end of the sequence space does not fit
      into it, unless the window divides the space. */
  lemma WrapsInside(s: Stream, g: nat, rest: nat)
    requires s.window > 0 && s.start % s.window == 0 && MOD32 % s.window != 0
    requires MOD32 == s.start + g * s.window + rest && rest < s.window
    ensures !Aligned(Base(s, g), s.window)
  {
    AddTurns(s.start, g, s.window);
    WrapSmall(s.start + g * s.window);
  }

  /** A stream that starts on a window boundary is aligned throughout its first `n`
      groups exactly when the window divides the sequence space or they end before
      it does. */
  lemma StreamsStayAligned(s: Stream, n: nat)
    requires s.window > 0 && s.start % s.window == 0 && s.start < MOD32
    ensures (forall g :: 0 <= g < n ==> Aligned(Base(s, g), s.window))
       <==> MOD32 % s.window == 0 || s.start + n * s.window <= MOD32
  {
    hide Aligned, Base;
    if MOD32 % s.window == 0 || s.start + n * s.window <= MOD32 {
      forall g | 0 <= g < n
        ensures Aligned(Base(s, g), s.window)
      {
        MulMonotone(g + 1, n, s.window);
        AlignedBeforeWrap(s, g);
      }
    } else {
      QuotientBelow(MOD32 - s.start, s.window, n);
      WrapsInside(s, (MOD32 - s.start) / s.window, (MOD32 - s.start) % s.window);
    }
  }

  lemma MultipleFits(base: u32, window: nat)
    requires 0 < window && base % window == 0 && MOD32 % window == 0
    ensures base + window <= MOD32
  {
    var rest := MOD32 / window - base / window;
    assert MOD32 - base == window * rest;
    if rest >= 1 {
      MulAtLeast(window, rest);
    } else if rest <= -1 {
      MulAtLeast(window, -rest);
    }
  }

  // ------------------------------------------------------ unaligned groups

  /** Apart from wrap-around the base of every group the decoder infers is a
      multiple of the window; 2^32 + 1 has no divisor a window could be. */
  lemma NextLapNotDivisible(window: nat)
    requires 2 <= window <= 255
    ensures (MOD32 + 1) % window != 0
  {
  }

  /** Frame `i` of the group is assigned to another base. */
  predicate Strays(base: u32, window: nat, i: nat)
    requires window > 0
  {
    base % window != 0 || base + i >= MOD32
  }

  lemma StrayLeaves(base: u32, window: nat, i: nat)
    requires i < window <= 255
    ensures GroupBase(Wrap(base + i), window) == base <==> !Strays(base, window, i)
    ensures !Strays(base, window, i) ==> Wrap(base + i) == base + i
  {
    if base % window != 0 {
      hide Wrap;
      GroupBaseDivides(Wrap(base + i), window);
    } else if base + i < MOD32 {
      BaseOfAligned(base, i, window);
    } else {
      hide GroupBase;
      assert Wrap(base + i) == base + i - MOD32;
    }
  }

  /** A decoder that enters the group, or that any frame assigned elsewhere made leave
      it, has none of those frames. */
  lemma {:induction false} StraysNotStored(d: Receiver, base: u32, frames: seq<Bytes>, offsets: seq<nat>)
    requires WellFormed(d) && d.window == |frames|
    requires forall i :: 0 <= i < |offsets| ==> offsets[i] < |frames|
    requires !d.active || d.seqBase != base || exists i :: 0 <= i < |offsets| && Strays(base, d.window, offsets[i])
    ensures var r := ReceiveFrames(d, base, frames, offsets);
            r.active && r.seqBase == base ==>
              forall i :: 0 <= i < d.window && Strays(base, d.window, i) ==> r.received[i].None?
  {
    hide Strays, Wrap, GroupBase;
    if offsets != [] {
      var n := |offsets| - 1;
      StrayLeaves(base, d.window, offsets[n]);
      if !Strays(base, d.window, offsets[n]) {
        if d.active && d.seqBase == base {
          var i :| 0 <= i < |offsets| && Strays(base, d.window, offsets[i]);
          assert offsets[..n][i] == offsets[i];
        }
        StraysNotStored(d, base, frames, offsets[..n]);
      }
    }
  }

  /** A group that does not start on a window boundary, or wraps in the middle, is
      never helped by its parity, from any state on another group, or once a frame
      of its own was assigned elsewhere. */
  lemma UnalignedRecoversNothing(d: Receiver, base: u32, frames: seq<Bytes>, a: Arrival)
    requires WellFormed(d) && d.window == |frames| && !Aligned(base, d.window)
    requires forall i :: 0 <= i < |a.offsets| ==> a.offsets[i] < |frames|
    requires !d.active || d.seqBase != base
          || exists i :: 0 <= i < |a.offsets| && Strays(base, d.window, a.offsets[i])
    ensures ReceiveGroup(d, base, frames, FecParity(base, d.window, Parity(frames)), a).1 == None
  {
    hide Parity, ReceiveFrames;
    var held := ReceiveFrames(d, base, frames, a.offsets);
    StraysNotStored(d, base, frames, a.offsets);
    var i := TwoStray(base, d.window);
    TwoMissing(Enter(held, base), i, i + 1, Parity(frames));
  }

  lemma TwoStray(base: u32, window: nat) returns (i: nat)
    requires 2 <= window <= 255 && !Aligned(base, window)
    ensures i + 1 < window && Strays(base, window, i) && Strays(base, window, i + 1)
  {
    if base % window != 0 {
      i := 0;
    } else {
      WrapTakesTwo(base, window);
      i := window - 2;
    }
  }

  lemma TwoMissing(g: Receiver, i: nat, j: nat, parity: Bytes)
    requires i < j < |g.received| && g.received[i].None? && g.received[j].None?
    ensures Recovery(g, parity) == None
  {
    hide RecoveredPayload;
  }

  /** A group on a multiple of the window that wraps has at least two frames past
      the wrap. */
  lemma WrapTakesTwo(base: u32, window: nat)
    requires 2 <= window <= 255 && base % window == 0 && base + window > MOD32
    ensures MOD32 - base <= window - 2
  {
    if base == MOD32 + 1 - window {
      AddTurns(base, 1, window);
      NextLapNotDivisible(window);
      assert false;
    }
  }

  /** The decoder assumes groups start at multiples of the window; the encoder
      starts them anywhere. From every state of the decoder, a single loss is
      recovered exactly when they agree, the sequence does not wrap inside the group,
      and the decoder does not still hold a frame in the lost one's place; and then
      with its own bytes. */
  lemma RecoversIffAligned(d: Receiver, base: u32, frames: seq<Bytes>, a: Arrival, lost: nat)
    requires WellFormed(d) && d.window == |frames|
    requires forall i :: 0 <= i < |a.offsets| ==> a.offsets[i] < |frames|
    requires a.parity && OnlyLost(a, |frames|, lost)
    ensures var p := FecParity(base, d.window, Parity(frames));
            var result := ReceiveGroup(d, base, frames, p, a).1;
            && (result.Some? <==>
                  Aligned(base, d.window) && (d.active && d.seqBase == base ==> d.received[lost].None?))
            && (result.Some? ==> result.value == (Wrap(base + lost), Padded(frames[lost], MaxLen(frames))))
  {
    if Aligned(base, d.window) {
      AlignedLoss(d, base, frames, a, lost);
    } else {
      UnalignedLoss(d, base, frames, a, lost);
    }
  }

  lemma UnalignedLoss(d: Receiver, base: u32, frames: seq<Bytes>, a: Arrival, lost: nat)
    requires WellFormed(d) && d.window == |frames| && !Aligned(base, d.window)
    requires forall i :: 0 <= i < |a.offsets| ==> a.offsets[i] < |frames|
    requires OnlyLost(a, |frames|, lost)
    ensures ReceiveGroup(d, base, frames, FecParity(base, d.window, Parity(frames)), a).1 == None
  {
    hide Aligned, Strays, Parity, ReceiveGroup;
    var i := TwoStray(base, d.window);
    var k := if i == lost then i + 1 else i;
    assert k in a.offsets;
    UnalignedRecoversNothing(d, base, frames, a);
  }

  lemma AlignedLoss(d: Receiver, base: u32, frames: seq<Bytes>, a: Arrival, lost: nat)
    requires WellFormed(d) && d.window == |frames| && Aligned(base, d.window)
    requires forall i :: 0 <= i < |a.offsets| ==> a.offsets[i] < |frames|
    requires a.parity && OnlyLost(a, |frames|, lost)
    ensures var p := FecParity(base, d.window, Parity(frames));
            var result := ReceiveGroup(d, base, frames, p, a).1;
            && (result.Some? <==> Enter(d, base).received[lost].None?)
            && (result.Some? ==> result.value == (Wrap(base + lost), Padded(frames[lost], MaxLen(frames))))
  {
    var prior := Enter(d, base).received;
    OnlyHoleOfLoss(a, prior, lost);
    hide Parity, Padded, ReceiveGroup, OnlyHole, Aligned, XorAt, MaxLen, Wrap;
    OutcomeOverPrior(d, base, frames, a);
    if prior[lost].None? {
      assert Mixed(frames, prior, a.offsets) == frames;
      RecoveredOverPrior(d, base, frames, a, lost);
    }
  }

  // ------------------------------------------------- a decoder still on the base

  /** The only slot neither arrived nor held before. */
  ghost predicate OnlyHole(a: Arrival, prior: seq<Option<Bytes>>, lost: nat) {
    lost < |prior| && forall i :: 0 <= i < |prior| ==> (i !in a.offsets && prior[i].None? <==> i == lost)
  }

  lemma OnlyHoleOfLoss(a: Arrival, prior: seq<Option<Bytes>>, lost: nat)
    requires OnlyLost(a, |prior|, lost)
    ensures forall k: nat :: OnlyHole(a, prior, k) <==> k == lost && prior[lost].None?
  {
    forall k: nat
      ensures OnlyHole(a, prior, k) <==> k == lost && prior[lost].None?
    {
      if OnlyHole(a, prior, k) {
        assert k !in a.offsets;
      }
    }
  }

  /** The group with the frames of `prior` where they stand in. */
  function Mixed(frames: seq<Bytes>, prior: seq<Option<Bytes>>, offsets: seq<nat>): seq<Bytes>
    requires |prior| == |frames|
  {
    seq(|frames|, i requires 0 <= i < |frames| =>
      if i in offsets || prior[i].None? then frames[i] else prior[i].value)
  }

  /** Column-wise XOR of the first `len` columns. */
  function Columns(group: seq<Bytes>, len: nat): Bytes {
    seq(len, j requires 0 <= j => XorAt(group, j))
  }

  /** From every state, the parity of an aligned group gives something back exactly
      when one slot is neither arrived nor held from before. A whole lap of
      silence brings the decoder back on the old base. */
  lemma OutcomeOverPrior(d: Receiver, base: u32, frames: seq<Bytes>, a: Arrival)
    requires WellFormed(d) && d.window == |frames| && Aligned(base, d.window) && a.parity
    requires forall i :: 0 <= i < |a.offsets| ==> a.offsets[i] < |frames|
    ensures var p := FecParity(base, d.window, Parity(frames));
            var result := ReceiveGroup(d, base, frames, p, a).1;
            result.Some? <==> exists lost: nat :: OnlyHole(a, Enter(d, base).received, lost)
  {
    hide Parity, RecoveredPayload;
    ArrivedAreHeld(d, base, frames, a.offsets);
    var g := Enter(ReceiveFrames(d, base, frames, a.offsets), base);
    assert forall lost: nat :: OnlyMissing(g.received, lost) <==> OnlyHole(a, Enter(d, base).received, lost);
  }

  /** In particular nothing comes back over a complete old group. */
  lemma LapOfSilenceDefeats(d: Receiver, base: u32, frames: seq<Bytes>, a: Arrival)
    requires WellFormed(d) && d.window == |frames| && Aligned(base, d.window) && d.active && d.seqBase == base
    requires forall i :: 0 <= i < |d.received| ==> d.received[i].Some?
    requires forall i :: 0 <= i < |a.offsets| ==> a.offsets[i] < |frames|
    ensures ReceiveGroup(d, base, frames, FecParity(base, d.window, Parity(frames)), a).1 == None
  {
    hide Parity, Aligned, Recovery;
    if a.parity {
      OutcomeOverPrior(d, base, frames, a);
      forall lost: nat
        ensures !OnlyHole(a, d.received, lost)
      {
        assert lost < |d.received| ==> d.received[lost].Some?;
      }
    }
  }

  /** What it gives back is the lost frame exactly when the frames that stand in have
      the column XOR of those they replace. */
  lemma RecoveredOverPrior(d: Receiver, base: u32, frames: seq<Bytes>, a: Arrival, lost: nat)
    requires WellFormed(d) && d.window == |frames| && Aligned(base, d.window) && a.parity
    requires forall i :: 0 <= i < |a.offsets| ==> a.offsets[i] < |frames|
    requires OnlyHole(a, Enter(d, base).received, lost)
    ensures var p := FecParity(base, d.window, Parity(frames));
            var result := ReceiveGroup(d, base, frames, p, a).1;
            var mixed := Mixed(frames, Enter(d, base).received, a.offsets);
            && result.Some? && result.value.0 == Wrap(base + lost)
            && (result.value.1 == Padded(frames[lost], MaxLen(frames)) <==>
                  Columns(mixed, MaxLen(frames)) == Parity(frames))
  {
    hide RecoveredPayload, XorAt, Padded, ReceiveFrames, Parity, Holds, OnlyHole, AllBut, Mixed, Aligned;
    var prior := Enter(d, base).received;
    ArrivedAreHeld(d, base, frames, a.offsets);
    var g := Enter(ReceiveFrames(d, base, frames, a.offsets), base);
    HeldIsMixed(g, base, frames, a, prior, lost);
    RecoveredFromMixed(g.received, frames, Mixed(frames, prior, a.offsets), lost);
  }

  lemma HeldIsMixed(
      g: Receiver, base: u32, frames: seq<Bytes>, a: Arrival, prior: seq<Option<Bytes>>, lost: nat)
    requires Holds(g, base, frames, a.offsets, prior) && OnlyHole(a, prior, lost)
    ensures OnlyMissing(g.received, lost) && lost < |frames|
    ensures var mixed := Mixed(frames, prior, a.offsets);
            AllBut(g.received, mixed, lost) && mixed[lost] == frames[lost]
  {
  }

  lemma RecoveredFromMixed(received: seq<Option<Bytes>>, frames: seq<Bytes>, mixed: seq<Bytes>, lost: nat)
    requires AllBut(received, mixed, lost) && lost < |mixed| == |frames| && mixed[lost] == frames[lost]
    ensures RecoveredPayload(received, Parity(frames)) == Padded(frames[lost], MaxLen(frames))
       <==> Columns(mixed, MaxLen(frames)) == Parity(frames)
  {
    forall j | 0 <= j < MaxLen(frames)
      ensures RecoveredPayload(received, Parity(frames))[j] == Padded(frames[lost], MaxLen(frames))[j]
         <==> Columns(mixed, MaxLen(frames))[j] == Parity(frames)[j]
    {
      ColumnFromMixed(received, frames, mixed, lost, j);
    }
    EqualTogether(RecoveredPayload(received, Parity(frames)), Padded(frames[lost], MaxLen(frames)),
                  Columns(mixed, MaxLen(frames)), Parity(frames));
  }

  lemma EqualTogether(a: Bytes, b: Bytes, c: Bytes, d: Bytes)
    requires |a| == |b| == |c| == |d|
    requires forall j :: 0 <= j < |a| ==> (a[j] == b[j] <==> c[j] == d[j])
    ensures a == b <==> c == d
  {
    if a == b {
      assert c == d;
    }
    if c == d {
      assert a == b;
    }
  }

  lemma ColumnFromMixed(received: seq<Option<Bytes>>, frames: seq<Bytes>, mixed: seq<Bytes>, lost: nat, j: nat)
    requires AllBut(received, mixed, lost) && lost < |mixed| == |frames| && mixed[lost] == frames[lost]
    requires j < MaxLen(frames)
    ensures RecoveredPayload(received, Parity(frames))[j] == Padded(frames[lost], MaxLen(frames))[j]
       <==> XorAt(mixed, j) == XorAt(frames, j)
  {
    hide XorByte, XorAt, XorPresent;
    XorSplits(received, mixed, lost, j);
    CancelsIff(XorAt(frames, j), XorPresent(received, j), ByteAt(frames[lost], j));
  }

  lemma CancelsIff(x: Byte, y: Byte, z: Byte)
    ensures XorByte(x, y) == z <==> XorByte(y, z) == x
  {
    hide XorByte;
    XorByteLaws(x, y, 0);
    XorByteLaws(y, y, x);
    XorByteLaws(y, y, z);
    XorByteLaws(0, x, 0);
    XorByteLaws(x, 0, 0);
    XorByteLaws(0, z, 0);
    XorByteLaws(z, 0, 0);
  }

  /** The default window of four on base 1: one frame is lost, the other three and
      the parity arrive in order, and nothing is recovered. */
  lemma UnalignedLossNotRecovered(frames: seq<Bytes>)
    requires |frames| == 4
    ensures var idle := Receiver(4, false, 0, [], None);
            var (_, parity) := SendGroup(Sender(4, 0, []), 1, frames);
            && parity.Some?
            && ReceiveGroup(idle, 1, frames, parity.value, Arrival([0, 1, 3], true)).1 == None
  {
    hide Parity, SendGroup, ReceiveGroup;
    var idle, three := Receiver(4, false, 0, [], None), Arrival([0, 1, 3], true);
    SendGroupParity(Sender(4, 0, []), 1, frames);
    UnalignedRecoversNothing(idle, 1, frames, three);
  }

  lemma GroupBaseDivides(sequence: u32, window: nat)
    requires window > 0
    ensures GroupBase(sequence, window) % window == 0
  {
    var q := sequence / window;
    assert sequence - sequence % window == 0 + q * window;
    AddTurns(0, q, window);
  }

  // ------------------------------------------------------------ any order at all

  /** A packet of the stream reaching the receiver. */
  datatype Arriving = DataOf(group: nat, offset: nat) | ParityOf(group: nat)

  /** Any packets of aligned groups in any order: late, early, repeated, or across
      group boundaries. Groups that follow one another have different bases, as
      groups less than a lap apart do. */
  ghost predicate AnyOrder(s: Stream, packets: seq<Arriving>) {
    && 2 <= s.window <= 255
    && (forall i :: 0 <= i < |packets| ==>
          var g := packets[i].group;
          && g < |s.groups| && |s.groups[g]| == s.window && Aligned(Base(s, g), s.window)
          && (packets[i].DataOf? ==> packets[i].offset < s.window))
    && (forall i :: 0 < i < |packets| && packets[i - 1].group != packets[i].group ==>
          Base(s, packets[i - 1].group) != Base(s, packets[i].group))
  }

  /** What the receiver does with one packet, and what it recovers on it. */
  ghost function Hear(s: Stream, d: Receiver, p: Arriving): (r: (Receiver, Option<(u32, Bytes)>))
    requires WellFormed(d) && p.group < |s.groups| && (p.DataOf? ==> p.offset < |s.groups[p.group]|)
    ensures WellFormed(r.0)
  {
    var base, frames := Base(s, p.group), s.groups[p.group];
    if p.DataOf? then (ReceiveData(d, Wrap(base + p.offset), frames[p.offset]), None)
    else ReceiveParity(d, FecParity(base, s.window, Parity(frames)))
  }

  ghost function HearAll(s: Stream, packets: seq<Arriving>): (r: (Receiver, seq<Option<(u32, Bytes)>>))
    requires AnyOrder(s, packets)
    ensures WellFormed(r.0) && |r.1| == |packets|
  {
    if packets == [] then (Receiver(s.window, false, 0, [], None), [])
    else
      var n := |packets| - 1;
      var (d, results) := HearAll(s, packets[..n]);
      var (d', result) := Hear(s, d, packets[n]);
      (d', results + [result])
  }

  /** The frames of group `g` among the packets since the last one of another group. */
  function Unbroken(packets: seq<Arriving>, g: nat): seq<nat> {
    if packets == [] || packets[|packets| - 1].group != g then []
    else
      var last := packets[|packets| - 1];
      Unbroken(packets[..|packets| - 1], g) + (if last.DataOf? then [last.offset] else [])
  }

  function NoFrames(window: nat): seq<Option<Bytes>> {
    seq(window, _ => None)
  }

  /** The decoder remembers the group of the last packet, and of that the frames since
      it last heard another group. */
  ghost predicate Remembers(s: Stream, packets: seq<Arriving>, d: Receiver) {
    WellFormed(d) && d.window == s.window &&
    if packets == [] then !d.active
    else
      var g := packets[|packets| - 1].group;
      && g < |s.groups| && |s.groups[g]| == s.window
      && Holds(d, Base(s, g), s.groups[g], Unbroken(packets, g), NoFrames(s.window))
  }

  /** What packet `n` must give back. */
  ghost predicate PacketOutcome(s: Stream, packets: seq<Arriving>, n: nat, result: Option<(u32, Bytes)>)
    requires n < |packets| && packets[n].group < |s.groups|
  {
    var g := packets[n].group;
    if packets[n].DataOf? then result == None
    else GroupOutcome(Base(s, g), s.groups[g], Arrival(Unbroken(packets[..n], g), true), result)
  }

  /** On entering the group of the next packet. */
  lemma EntersRemembered(s: Stream, packets: seq<Arriving>, d: Receiver, p: Arriving)
    requires AnyOrder(s, packets + [p]) && Remembers(s, packets, d)
    ensures p.group < |s.groups| && |s.groups[p.group]| == s.window && Aligned(Base(s, p.group), s.window)
    ensures p.DataOf? ==> p.offset < s.window
    ensures Holds(Enter(d, Base(s, p.group)), Base(s, p.group), s.groups[p.group], Unbroken(packets, p.group),
                  NoFrames(s.window))
  {
    hide Aligned, Base;
    var all := packets + [p];
    assert all[|packets|] == p;
    if packets != [] {
      assert all[|packets| - 1] == packets[|packets| - 1];
    }
  }

  lemma UnbrokenAppend(packets: seq<Arriving>, p: Arriving)
    ensures Unbroken(packets + [p], p.group)
         == Unbroken(packets, p.group) + (if p.DataOf? then [p.offset] else [])
  {
    assert (packets + [p])[..|packets|] == packets;
  }

  lemma HeardIsRemembered(s: Stream, packets: seq<Arriving>, d: Receiver, p: Arriving)
    requires AnyOrder(s, packets + [p]) && Remembers(s, packets, d)
    ensures p.group < |s.groups| && (p.DataOf? ==> p.offset < |s.groups[p.group]|)
    ensures var (d', result) := Hear(s, d, p);
            && Remembers(s, packets + [p], d')
            && PacketOutcome(s, packets + [p], |packets|, result)
  {
    EntersRemembered(s, packets, d, p);
    hide Hear, AnyOrder, Remembers, PacketOutcome;
    if p.DataOf? {
      DataIsRemembered(s, packets, d, p);
    } else {
      ParityIsAnswered(s, packets, d, p);
    }
  }

  lemma RemembersNow(s: Stream, packets: seq<Arriving>, d: Receiver, p: Arriving)
    requires WellFormed(d) && d.window == s.window && p.group < |s.groups| && |s.groups[p.group]| == s.window
    requires Holds(d, Base(s, p.group), s.groups[p.group],
                   Unbroken(packets, p.group) + (if p.DataOf? then [p.offset] else []), NoFrames(s.window))
    ensures Remembers(s, packets + [p], d)
  {
    UnbrokenAppend(packets, p);
    hide Holds, NoFrames, Unbroken;
    assert (packets + [p])[|packets|] == p;
  }

  lemma DataIsRemembered(s: Stream, packets: seq<Arriving>, d: Receiver, p: Arriving)
    requires AnyOrder(s, packets + [p]) && Remembers(s, packets, d) && p.DataOf?
    ensures p.group < |s.groups| && p.offset < |s.groups[p.group]|
    ensures var (d', result) := Hear(s, d, p);
            Remembers(s, packets + [p], d') && PacketOutcome(s, packets + [p], |packets|, result)
  {
    EntersRemembered(s, packets, d, p);
    assert d.window == s.window && (packets + [p])[|packets|] == p;
    hide Holds, Base, AnyOrder, Unbroken, Aligned, Wrap, NoFrames, Enter, ReceiveData, Remembers;
    ArrivalIsHeld(d, Base(s, p.group), s.groups[p.group], Unbroken(packets, p.group), p.offset, NoFrames(s.window));
    RemembersNow(s, packets, Hear(s, d, p).0, p);
  }

  lemma ParityIsAnswered(s: Stream, packets: seq<Arriving>, d: Receiver, p: Arriving)
    requires AnyOrder(s, packets + [p]) && Remembers(s, packets, d) && p.ParityOf?
    ensures p.group < |s.groups|
    ensures var (d', result) := Hear(s, d, p);
            Remembers(s, packets + [p], d') && PacketOutcome(s, packets + [p], |packets|, result)
  {
    EntersRemembered(s, packets, d, p);
    assert d.window == s.window && (packets + [p])[..|packets|] == packets && (packets + [p])[|packets|] == p;
    hide Parity, Recovery, Holds, Base, AnyOrder, GroupOutcome, Unbroken, Aligned, Wrap, NoFrames, Remembers;
    var base, frames, offsets := Base(s, p.group), s.groups[p.group], Unbroken(packets, p.group);
    var none := NoFrames(s.window);
    ParityKeepsHeld(Enter(d, base), Parity(frames), base, frames, offsets, none);
    NoneIsNone(s.window);
    RecoveryOfHeld(Enter(d, base).(parity := Some(Parity(frames))), base, frames, Arrival(offsets, true), none);
    assert offsets + [] == offsets;
    RemembersNow(s, packets, Hear(s, d, p).0, p);
  }

  lemma NoneIsNone(window: nat)
    ensures forall i :: 0 <= i < |NoFrames(window)| ==> NoFrames(window)[i].None?
  {
  }

  lemma OutcomeOfPrefix(s: Stream, packets: seq<Arriving>, k: nat, n: nat, result: Option<(u32, Bytes)>)
    requires k < n <= |packets| && packets[k].group < |s.groups|
    ensures PacketOutcome(s, packets[..n], k, result) == PacketOutcome(s, packets, k, result)
  {
    assert packets[..n][..k] == packets[..k];
  }

  /** In any order whatever, a parity gives back the single frame missing among those
      of its group heard since the last packet of another group, and nothing when
      none or several are. */
  lemma {:induction false} AnyOrderRecovery(s: Stream, packets: seq<Arriving>)
    requires AnyOrder(s, packets)
    ensures var (d, results) := HearAll(s, packets);
            && Remembers(s, packets, d)
            && forall n :: 0 <= n < |packets| ==> PacketOutcome(s, packets, n, results[n])
  {
    if packets != [] {
      var n := |packets| - 1;
      var before := packets[..n];
      assert AnyOrder(s, before);
      assert packets == before + [packets[n]];
      hide AnyOrder, Remembers, Hear, PacketOutcome;
      AnyOrderRecovery(s, before);
      HeardIsRemembered(s, before, HearAll(s, before).0, packets[n]);
      var results := HearAll(s, packets).1;
      forall k | 0 <= k < n
        ensures packets[k].group < |s.groups| && PacketOutcome(s, packets, k, results[k])
      {
        assert packets[k] == before[k] && results[k] == HearAll(s, before).1[k];
        assert PacketOutcome(s, before, k, results[k]);
        OutcomeOfPrefix(s, packets, k, n, results[k]);
      }
    }
  }

  /** A parity that comes right after a packet of another group recovers nothing, and
      the decoder forgets whatever it held of that group. */
  lemma LateParityForgets(s: Stream, packets: seq<Arriving>, n: nat)
    requires AnyOrder(s, packets) && 0 < n == |packets| - 1
    requires packets[n].ParityOf? && packets[n - 1].group != packets[n].group
    ensures var (d, results) := HearAll(s, packets);
            results[n] == None && forall i :: 0 <= i < |d.received| ==> d.received[i].None?
  {
    hide HearAll;
    AnyOrderRecovery(s, packets);
    var a := Arrival(Unbroken(packets[..n], packets[n].group), true);
    assert packets[..n][n - 1] == packets[n - 1];
    assert a.offsets == [] && Unbroken(packets, packets[n].group) == [];
    forall lost: nat
      ensures !OnlyLost(a, s.window, lost)
    {
      assert 0 !in a.offsets && 1 !in a.offsets;
    }
  }
}
