/** The jitter buffer as a receiver would describe it: a map from unwrapped
    stream positions to frames, plus a cursor that only moves forward.
    `JitterBuffer.JitterBuffer` is proved to refine these operations. */
module JitterModel {
  import opened Prelude

  datatype Frame = Frame(sequence: u32, timestamp: nat, payload: Bytes)

  /** `cursor` and the keys of `pending` are unwrapped: the wire sequence of
      position `k` is `Wrap(k)`. */
  datatype Queue = Queue(primed: bool, cursor: nat, pending: map<nat, Frame>)

  const EMPTY: Queue := Queue(false, 0, map[])

  /** The position a wire sequence denotes: the first one at or after the cursor. */
  function Position(q: Queue, s: u32): nat {
    q.cursor + WrapSub(s, Wrap(q.cursor))
  }

  // ---------------------------------------------------------------- operations

  function Push(q: Queue, f: Frame, capacity: nat): (Queue, bool) {
    if !q.primed then
      (Queue(true, f.sequence, q.pending[f.sequence as nat := f]), true)
    else
      var at := Position(q, f.sequence);
      if at - q.cursor > HALF32 then (q, false)
      else if at - q.cursor < capacity then (q.(pending := q.pending[at := f]), true)
      else if q.pending != map[] then (q, false)
      else (Queue(true, at, map[at := f]), true)
  }

  function Pop(q: Queue): (Queue, Option<Frame>) {
    if q.primed && q.cursor in q.pending then
      (q.(cursor := q.cursor + 1, pending := q.pending - {q.cursor}), Some(q.pending[q.cursor]))
    else
      (q, None)
  }

  function Skip(q: Queue, count: nat): Queue {
    if !q.primed then q
    else Queue(true, q.cursor + count, map k | k in q.pending && q.cursor + count <= k :: q.pending[k])
  }

  lemma SkipOneMore(q: Queue, i: nat)
    requires q.primed
    ensures Skip(q, i + 1) == Queue(true, q.cursor + i + 1, Skip(q, i).pending - {q.cursor + i})
  {
  }

  /** The first position of `[lo, hi)` that holds a frame, or `hi`. */
  function FirstFrom(pending: map<nat, Frame>, lo: nat, hi: nat): (k: nat)
    requires lo <= hi
    ensures lo <= k <= hi
    ensures k < hi ==> k in pending
    ensures forall j :: lo <= j < k ==> j !in pending
    decreases hi - lo
  {
    if lo == hi || lo in pending then lo else FirstFrom(pending, lo + 1, hi)
  }

  function SkipToAvailable(q: Queue, capacity: nat): Queue
    requires capacity >= 1
  {
    var k := FirstFrom(q.pending, q.cursor + 1, q.cursor + capacity);
    Skip(q, if k < q.cursor + capacity then k - q.cursor else 1)
  }

  /** A hop to the first pending position, or of one when there is none. */
  lemma SkipsToFirst(q: Queue, hop: nat, capacity: nat)
    requires capacity >= 1 && hop >= 1
    requires forall k :: q.cursor < k < q.cursor + hop ==> k !in q.pending
    requires if hop < capacity && q.cursor + hop in q.pending then true
             else hop == 1 && forall k :: q.cursor < k < q.cursor + capacity ==> k !in q.pending
    ensures SkipToAvailable(q, capacity) == Skip(q, hop)
  {
    hide Skip;
  }

  function PopWithDeadline(q: Queue, expired: bool, capacity: nat): (Queue, Option<Frame>)
    requires capacity >= 1
  {
    var (popped, frame) := Pop(q);
    if frame.Some? then (popped, frame)
    else if expired then (SkipToAvailable(q, capacity), None)
    else (q, None)
  }

  // ----------------------------------------------------------------- invariant

  /** Every pending frame lies in the window and carries its own sequence. */
  ghost predicate InWindow(q: Queue, capacity: nat) {
    && (!q.primed ==> q == EMPTY)
    && (forall k :: k in q.pending ==> q.cursor <= k < q.cursor + capacity)
    && (forall k :: k in q.pending ==> q.pending[k].sequence == Wrap(k))
  }

  // ---------------------------------------------------------------------- runs

  datatype Op =
    | OpPush(frame: Frame)
    | OpPop
    | OpPopWithDeadline(expired: bool)
    | OpSkip(count: u32)
    | OpSkipToAvailable

  /** What an observer who knows unwrapped positions sees of one call. */
  datatype Event =
    | Accepted(at: nat, frame: Frame)
    | Rejected
    | Delivered(at: nat, frame: Frame)
    | Advanced(lost: set<nat>)
    | Idle

  function Step(q: Queue, op: Op, capacity: nat): (Queue, Event)
    requires capacity >= 1
  {
    match op
    case OpPush(f) =>
      var (q', ok) := Push(q, f, capacity);
      (q', if ok then Accepted(if q.primed then Position(q, f.sequence) else f.sequence, f) else Rejected)
    case OpPop =>
      var (q', r) := Pop(q);
      (q', if r.Some? then Delivered(q.cursor, r.value) else Idle)
    case OpPopWithDeadline(expired) =>
      var (q', r) := PopWithDeadline(q, expired, capacity);
      (q', if r.Some? then Delivered(q.cursor, r.value) else Advanced(q.pending.Keys - q'.pending.Keys))
    case OpSkip(count) =>
      var q' := Skip(q, count);
      (q', Advanced(q.pending.Keys - q'.pending.Keys))
    case OpSkipToAvailable =>
      var q' := SkipToAvailable(q, capacity);
      (q', Advanced(q.pending.Keys - q'.pending.Keys))
  }

  /** A whole run from a new (or reset) buffer: the final queue and the trace. */
  function Run(ops: seq<Op>, capacity: nat): (r: (Queue, seq<Event>))
    requires capacity >= 1
    ensures |r.1| == |ops|
  {
    if ops == [] then (EMPTY, [])
    else
      var (q, trace) := Run(ops[..|ops| - 1], capacity);
      var (q', e) := Step(q, ops[|ops| - 1], capacity);
      (q', trace + [e])
  }

  // -------------------------------------------------------- reading a trace

  /** The payload last accepted for position `k`. */
  function LastAccepted(trace: seq<Event>, k: nat): Option<Frame> {
    if trace == [] then None
    else
      var e := trace[|trace| - 1];
      if e.Accepted? && e.at == k then Some(e.frame) else LastAccepted(trace[..|trace| - 1], k)
  }

  /** Everything delivered for position `k`, in order. */
  function DeliveredAt(trace: seq<Event>, k: nat): seq<Frame> {
    if trace == [] then []
    else
      var e := trace[|trace| - 1];
      DeliveredAt(trace[..|trace| - 1], k) + (if e.Delivered? && e.at == k then [e.frame] else [])
  }

  /** How many times position `k` was discarded by an advance of the cursor. */
  function LostCount(trace: seq<Event>, k: nat): nat {
    if trace == [] then 0
    else
      var e := trace[|trace| - 1];
      LostCount(trace[..|trace| - 1], k) + (if e.Advanced? && k in e.lost then 1 else 0)
  }

  /** The three fates of an accepted position, mutually exclusive. */
  ghost predicate Accounted(q: Queue, trace: seq<Event>, k: nat) {
    match LastAccepted(trace, k)
    case None =>
      k !in q.pending && DeliveredAt(trace, k) == [] && LostCount(trace, k) == 0
    case Some(f) =>
      || (k in q.pending && q.pending[k] == f && DeliveredAt(trace, k) == [] && LostCount(trace, k) == 0)
      || (k < q.cursor && k !in q.pending && DeliveredAt(trace, k) == [f] && LostCount(trace, k) == 0)
      || (k < q.cursor && k !in q.pending && DeliveredAt(trace, k) == [] && LostCount(trace, k) == 1)
  }

  // --------------------------------------------------------------- step lemmas

  lemma StepKeepsWindow(q: Queue, op: Op, capacity: nat)
    requires capacity >= 1 && InWindow(q, capacity)
    ensures InWindow(Step(q, op, capacity).0, capacity)
    ensures q.primed ==> q.cursor <= Step(q, op, capacity).0.cursor
  {
    hide FirstFrom, Skip, Wrap, WrapSub;
    if op.OpPush? {
      PositionWraps(op.frame.sequence, q.cursor);
      WrapSmall(op.frame.sequence);
    } else {
      SkipKeepsWindow(q, capacity);
    }
  }

  lemma SkipKeepsWindow(q: Queue, capacity: nat)
    requires InWindow(q, capacity)
    ensures forall count: nat :: InWindow(Skip(q, count), capacity) && q.cursor <= Skip(q, count).cursor
  {
  }

  /** How the three readings of a trace grow with one event. */
  lemma Readings(trace: seq<Event>, e: Event, k: nat)
    ensures LastAccepted(trace + [e], k)
         == if e.Accepted? && e.at == k then Some(e.frame) else LastAccepted(trace, k)
    ensures DeliveredAt(trace + [e], k)
         == DeliveredAt(trace, k) + (if e.Delivered? && e.at == k then [e.frame] else [])
    ensures LostCount(trace + [e], k)
         == LostCount(trace, k) + (if e.Advanced? && k in e.lost then 1 else 0)
  {
    var longer := trace + [e];
    assert longer[..|longer| - 1] == trace;
  }

  /** How one step moves one position: what is accepted becomes pending, what
      leaves `pending` is delivered or listed as lost, and accepted positions
      are never behind the cursor. */
  lemma StepMovesPosition(q: Queue, op: Op, capacity: nat, k: nat)
    requires capacity >= 1 && InWindow(q, capacity)
    ensures var (q', e) := Step(q, op, capacity);
            && (e.Accepted? && e.at == k ==> q.cursor <= k && k in q'.pending && q'.pending[k] == e.frame)
            && (e.Delivered? && e.at == k ==>
                  k in q.pending && q.pending[k] == e.frame && k !in q'.pending && k < q'.cursor)
            && (e.Advanced? && k in e.lost ==> k in q.pending && k !in q'.pending && k < q'.cursor)
            && (!(e.Accepted? && e.at == k) && !(e.Delivered? && e.at == k) && !(e.Advanced? && k in e.lost) ==>
                  (k in q.pending <==> k in q'.pending) && (k in q.pending ==> q'.pending[k] == q.pending[k]))
            && (k < q.cursor ==> k < q'.cursor)
  {
    StepKeepsWindow(q, op, capacity);
  }

  /** One step extends the accounting of every position. */
  lemma StepKeepsAccount(q: Queue, trace: seq<Event>, op: Op, capacity: nat, k: nat)
    requires capacity >= 1 && InWindow(q, capacity) && Accounted(q, trace, k)
    ensures var (q', e) := Step(q, op, capacity); Accounted(q', trace + [e], k)
  {
    var (q', e) := Step(q, op, capacity);
    Readings(trace, e, k);
    StepMovesPosition(q, op, capacity, k);
  }

  // -------------------------------------------------------------- run theorems

  lemma {:induction false} RunKeepsWindow(ops: seq<Op>, capacity: nat)
    requires capacity >= 1
    ensures InWindow(Run(ops, capacity).0, capacity)
  {
    if ops != [] {
      RunKeepsWindow(ops[..|ops| - 1], capacity);
      StepKeepsWindow(Run(ops[..|ops| - 1], capacity).0, ops[|ops| - 1], capacity);
    }
  }

  /** Conservation: on every run, every accepted position is either still
      pending with its last accepted payload, or was delivered exactly once
      with that payload, or was discarded exactly once by a cursor advance;
      nothing else is pending or was ever delivered. */
  lemma {:induction false} EveryFrameAccounted(ops: seq<Op>, capacity: nat, k: nat)
    requires capacity >= 1
    ensures Accounted(Run(ops, capacity).0, Run(ops, capacity).1, k)
  {
    if ops != [] {
      var before := ops[..|ops| - 1];
      EveryFrameAccounted(before, capacity, k);
      RunKeepsWindow(before, capacity);
      StepKeepsAccount(Run(before, capacity).0, Run(before, capacity).1, ops[|ops| - 1], capacity, k);
    }
  }

  /** Deliveries happen at positions behind the final cursor, and in strictly
      increasing order, across wrap-around and resynchronisation. */
  lemma {:induction false} DeliveriesStrictlyIncrease(ops: seq<Op>, capacity: nat)
    requires capacity >= 1
    ensures var (q, trace) := Run(ops, capacity);
            && (forall i :: 0 <= i < |trace| && trace[i].Delivered? ==> trace[i].at < q.cursor)
            && (forall i :: 0 <= i < |trace| && trace[i].Delivered? ==> trace[i].frame.sequence == Wrap(trace[i].at))
            && (forall i, j :: 0 <= i < j < |trace| && trace[i].Delivered? && trace[j].Delivered? ==>
                  trace[i].at < trace[j].at)
  {
    if ops != [] {
      var before := ops[..|ops| - 1];
      DeliveriesStrictlyIncrease(before, capacity);
      RunKeepsWindow(before, capacity);
      UnprimedDeliversNothing(before, capacity);
      StepKeepsWindow(Run(before, capacity).0, ops[|ops| - 1], capacity);
    }
  }

  lemma {:induction false} UnprimedDeliversNothing(ops: seq<Op>, capacity: nat)
    requires capacity >= 1
    ensures var (q, trace) := Run(ops, capacity);
            !q.primed ==> forall i :: 0 <= i < |trace| ==> !trace[i].Delivered?
  {
    if ops != [] {
      UnprimedDeliversNothing(ops[..|ops| - 1], capacity);
    }
  }

  // ----------------------------------------------------- deadlines lose nothing

  predicate OnlyTimedPops(ops: seq<Op>) {
    forall i :: 0 <= i < |ops| ==> !ops[i].OpSkip? && !ops[i].OpSkipToAvailable?
  }

  /** An expired deadline never discards a buffered frame. */
  lemma DeadlineLosesNothing(q: Queue, expired: bool, capacity: nat)
    requires capacity >= 1 && InWindow(q, capacity) && Pop(q).1.None?
    ensures PopWithDeadline(q, expired, capacity).0.pending == q.pending
  {
    if q.primed && expired {
      var next := SkipToAvailable(q, capacity);
      forall k | k in q.pending
        ensures k in next.pending
      {
        assert k != q.cursor;
      }
      assert next.pending == q.pending;
    }
  }

  /** Called directly, the skip discards the frame at the cursor and nothing else,
      and lands on the nearest pending frame after it, or one position on. */
  lemma SkipToAvailableLosesOnlyTheCursor(q: Queue, capacity: nat)
    requires capacity >= 1 && InWindow(q, capacity)
    ensures var q' := SkipToAvailable(q, capacity);
            && q'.pending == q.pending - {q.cursor}
            && (q.primed ==> LandsOnNearest(q, q'.cursor))
  {
    if q.primed {
      assert SkipToAvailable(q, capacity).pending == q.pending - {q.cursor};
    }
  }

  /** `to` is the first pending position after the cursor, or the next one if there
      is none. */
  ghost predicate LandsOnNearest(q: Queue, to: nat) {
    && q.cursor < to
    && (forall k :: k in q.pending && q.cursor < k ==> to <= k)
    && (to in q.pending || (to == q.cursor + 1 && forall k :: k in q.pending ==> k <= q.cursor))
  }

  // -------------------------------------------------------------------- waiting

  /** A call that waits for the frame at the cursor: a pop, or a timed pop whose
      deadline has not come. */
  predicate Waits(op: Op) {
    op.OpPop? || (op.OpPopWithDeadline? && !op.expired)
  }

  /** A waiting call delivers exactly when the frame at the cursor is there, and
      otherwise leaves the queue alone; before the first frame nothing but a push
      changes it. An expired deadline moves on exactly as the skip does. */
  lemma StepsThatWait(q: Queue, op: Op, capacity: nat)
    requires capacity >= 1 && InWindow(q, capacity)
    ensures var (q', e) := Step(q, op, capacity);
            && (Waits(op) ==>
                  if q.cursor in q.pending then e == Delivered(q.cursor, q.pending[q.cursor])
                  else q' == q && !e.Delivered?)
            && (!q.primed && !op.OpPush? ==> q' == q)
            && (op == OpPopWithDeadline(true) && q.primed && q.cursor !in q.pending ==>
                  LandsOnNearest(q, q'.cursor))
  {
    SkipToAvailableLosesOnlyTheCursor(q, capacity);
    hide SkipToAvailable;
  }

  lemma {:induction false} WaitingChangesNothing(ops: seq<Op>, waits: seq<Op>, capacity: nat)
    requires capacity >= 1 && forall i :: 0 <= i < |waits| ==> Waits(waits[i])
    requires var q := Run(ops, capacity).0; q.cursor !in q.pending
    ensures Run(ops + waits, capacity).0 == Run(ops, capacity).0
  {
    if waits == [] {
      assert ops + waits == ops;
    } else {
      var n := |waits| - 1;
      WaitingChangesNothing(ops, waits[..n], capacity);
      RunKeepsWindow(ops, capacity);
      StepsThatWait(Run(ops, capacity).0, waits[n], capacity);
      RunAppend(ops + waits[..n], waits[n], capacity);
      assert ops + waits[..n] + [waits[n]] == ops + waits;
    }
  }

  lemma RunAppend(ops: seq<Op>, op: Op, capacity: nat)
    requires capacity >= 1
    ensures var (q, trace) := Run(ops, capacity);
            var (q', e) := Step(q, op, capacity);
            Run(ops + [op], capacity) == (q', trace + [e])
  {
    assert (ops + [op])[..|ops|] == ops;
  }

  /** On every run, the frame at the cursor can be waited for: however many calls
      find nothing before the deadline, when it comes it is accepted and played. */
  lemma LateFrameStillPlays(ops: seq<Op>, waits: seq<Op>, f: Frame, capacity: nat)
    requires capacity >= 1 && forall i :: 0 <= i < |waits| ==> Waits(waits[i])
    requires var q := Run(ops, capacity).0; q.cursor !in q.pending && f.sequence == Wrap(q.cursor)
    ensures var c := Run(ops, capacity).0.cursor;
            Run(ops + waits + [OpPush(f), OpPop], capacity).1[|ops + waits|..] == [Accepted(c, f), Delivered(c, f)]
  {
    hide Run, Step;
    WaitingChangesNothing(ops, waits, capacity);
    RunKeepsWindow(ops, capacity);
    TwoMore(ops + waits, OpPush(f), OpPop, capacity);
    NextPlays(Run(ops, capacity).0, f, capacity);
  }

  lemma NextPlays(q: Queue, f: Frame, capacity: nat)
    requires capacity >= 1 && InWindow(q, capacity) && f.sequence == Wrap(q.cursor)
    ensures var (q1, first) := Step(q, OpPush(f), capacity);
            first == Accepted(q.cursor, f) && Step(q1, OpPop, capacity).1 == Delivered(q.cursor, f)
  {
    WrapSubWraps(q.cursor, q.cursor);
    WrapSmall(0);
  }

  lemma {:induction false} NothingLostWithoutSkip(ops: seq<Op>, capacity: nat, k: nat)
    requires capacity >= 1 && OnlyTimedPops(ops)
    ensures LostCount(Run(ops, capacity).1, k) == 0
  {
    if ops != [] {
      var before, op := ops[..|ops| - 1], ops[|ops| - 1];
      NothingLostWithoutSkip(before, capacity, k);
      RunKeepsWindow(before, capacity);
      var (q, trace) := Run(before, capacity);
      var (q', e) := Step(q, op, capacity);
      if op.OpPopWithDeadline? && Pop(q).1.None? {
        DeadlineLosesNothing(q, op.expired, capacity);
      }
      var longer := trace + [e];
      assert longer[..|longer| - 1] == trace;
    }
  }

  /** Exactly-once delivery: with pushes, pops and deadlines only, an accepted
      position is either still pending with the last payload pushed for it, or
      was delivered exactly once, with that payload. */
  lemma ExactlyOnceDelivery(ops: seq<Op>, capacity: nat, k: nat)
    requires capacity >= 1 && OnlyTimedPops(ops)
    ensures var (q, trace) := Run(ops, capacity);
            match LastAccepted(trace, k)
            case None => k !in q.pending && DeliveredAt(trace, k) == []
            case Some(f) =>
              if k in q.pending then q.pending[k] == f && DeliveredAt(trace, k) == []
              else k < q.cursor && DeliveredAt(trace, k) == [f]
  {
    EveryFrameAccounted(ops, capacity, k);
    NothingLostWithoutSkip(ops, capacity, k);
  }

  // ------------------------------------------------------------------ progress

  /** Whenever a frame is pending, one expired deadline and one pop deliver the
      pending frame nearest to the cursor, however long the burst lost before it. */
  lemma Progress(q: Queue, capacity: nat, nearest: nat)
    requires capacity >= 1 && InWindow(q, capacity)
    requires nearest in q.pending && forall k :: k in q.pending ==> nearest <= k
    ensures var (q1, first) := PopWithDeadline(q, true, capacity);
            var (q2, second) := Pop(q1);
            if nearest == q.cursor then first == Some(q.pending[nearest])
            else first == None && second == Some(q.pending[nearest])
                 && q2.cursor == nearest + 1 && q2.pending == q.pending - {nearest}
  {
    if nearest != q.cursor {
      DeadlineLosesNothing(q, true, capacity);
      var k := FirstFrom(q.pending, q.cursor + 1, q.cursor + capacity);
      assert k == nearest;
    }
  }

  /** A run splits at any point: its trace so far never changes. */
  lemma {:induction false} RunPrefix(ops: seq<Op>, n: nat, capacity: nat)
    requires capacity >= 1 && n <= |ops|
    ensures Run(ops, capacity).1[..n] == Run(ops[..n], capacity).1
    ensures n < |ops| ==> Run(ops, capacity).1[n] == Step(Run(ops[..n], capacity).0, ops[n], capacity).1
  {
    hide Step;
    if n == |ops| {
      assert ops[..n] == ops;
    } else {
      var before := ops[..|ops| - 1];
      RunPrefix(before, n, capacity);
      assert before[..n] == ops[..n];
    }
  }

  /** On every run that leaves frames pending, one expired deadline and one pop
      bring out the nearest one. */
  lemma ProgressOnEveryRun(ops: seq<Op>, capacity: nat, nearest: nat)
    requires capacity >= 1
    requires var q := Run(ops, capacity).0;
             nearest in q.pending && forall k :: k in q.pending ==> nearest <= k
    ensures var q := Run(ops, capacity).0;
            var (_, trace) := Run(ops + [OpPopWithDeadline(true), OpPop], capacity);
            Delivered(nearest, q.pending[nearest]) in trace[|ops|..]
  {
    RunKeepsWindow(ops, capacity);
    Progress(Run(ops, capacity).0, capacity, nearest);
    TwoMore(ops, OpPopWithDeadline(true), OpPop, capacity);
    hide Run, FirstFrom, SkipToAvailable, InWindow;
  }

  lemma TwoMore(ops: seq<Op>, a: Op, b: Op, capacity: nat)
    requires capacity >= 1
    ensures var q := Run(ops, capacity).0;
            var (q1, first) := Step(q, a, capacity);
            Run(ops + [a, b], capacity).1[|ops|..] == [first, Step(q1, b, capacity).1]
  {
    hide Step;
    var one, two := ops + [a], ops + [a, b];
    assert one[..|one| - 1] == ops && two[..|two| - 1] == one;
    assert Run(one, capacity).1 == Run(ops, capacity).1 + [Step(Run(ops, capacity).0, a, capacity).1];
  }

  /** On every run, a frame already delivered that comes again less than a lap
      later is refused exactly when the cursor is less than half the sequence space
      past it, or frames are pending and it is beyond the window. */
  lemma DeliveredNotAcceptedAgain(ops: seq<Op>, capacity: nat, i: nat, j: nat)
    requires capacity >= 1 && i < j < |ops| && ops[j].OpPush?
    requires var trace := Run(ops, capacity).1;
             && trace[i].Delivered? && ops[j].frame.sequence == Wrap(trace[i].at)
             && Run(ops[..j], capacity).0.cursor - trace[i].at < MOD32
    ensures var q, trace := Run(ops[..j], capacity).0, Run(ops, capacity).1;
            var past := q.cursor - trace[i].at;
            && past > 0
            && (trace[j] == Rejected <==> past < HALF32 || (q.pending != map[] && MOD32 - past >= capacity))
  {
    RunPrefix(ops, j, capacity);
    var (q, trace) := Run(ops[..j], capacity);
    assert trace[i] == Run(ops, capacity).1[i];
    DeliveriesStrictlyIncrease(ops[..j], capacity);
    UnprimedDeliversNothing(ops[..j], capacity);
    StaleRejectedIff(q, ops[j].frame, q.cursor - trace[i].at, capacity);
    hide Run, Push, Pop, FirstFrom;
  }

  // ---------------------------------------------------------------- reordering

  function PushAll(q: Queue, frames: seq<Frame>, capacity: nat): Queue {
    if frames == [] then q
    else Push(PushAll(q, frames[..|frames| - 1], capacity), frames[|frames| - 1], capacity).0
  }

  function PopAll(q: Queue, count: nat): seq<Option<Frame>>
    decreases count
  {
    if count == 0 then [] else [Pop(q).1] + PopAll(Pop(q).0, count - 1)
  }

  /** The last frame pushed with sequence `s`. */
  function Latest(frames: seq<Frame>, s: u32): Option<Frame> {
    if frames == [] then None
    else if frames[|frames| - 1].sequence == s then Some(frames[|frames| - 1])
    else Latest(frames[..|frames| - 1], s)
  }

  /** Every frame of `frames` belongs to one of the next `span` positions. */
  ghost predicate WithinSpan(q: Queue, frames: seq<Frame>, span: nat) {
    forall i :: 0 <= i < |frames| ==> Position(q, frames[i].sequence) < q.cursor + span
  }

  /** `r` is `q` with the latest of `frames` pending on each of the next positions. */
  ghost predicate HoldsLatest(q: Queue, r: Queue, frames: seq<Frame>, span: nat) {
    && r.primed && r.cursor == q.cursor
    && (forall k :: k in r.pending ==> q.cursor <= k < q.cursor + span)
    && (forall k :: q.cursor <= k < q.cursor + span ==>
          Latest(frames, Wrap(k)) == if k in r.pending then Some(r.pending[k]) else None)
  }

  /** Frames of the window are all accepted, each replacing its own duplicates. */
  lemma {:induction false} BurstPending(q: Queue, frames: seq<Frame>, span: nat, capacity: nat)
    requires q.primed && q.pending == map[] && span <= capacity <= 2048 && WithinSpan(q, frames, span)
    ensures HoldsLatest(q, PushAll(q, frames, capacity), frames, span)
  {
    if frames != [] {
      hide PushAll, HoldsLatest;
      var n := |frames| - 1;
      BurstPending(q, frames[..n], span, capacity);
      BurstGrows(q, frames[..n], frames[n], span, capacity);
      assert frames[..n] + [frames[n]] == frames;
    }
  }

  lemma BurstGrows(q: Queue, frames: seq<Frame>, f: Frame, span: nat, capacity: nat)
    requires span <= capacity <= 2048 && Position(q, f.sequence) < q.cursor + span
    requires HoldsLatest(q, PushAll(q, frames, capacity), frames, span)
    ensures HoldsLatest(q, PushAll(q, frames + [f], capacity), frames + [f], span)
  {
    var before := PushAll(q, frames, capacity);
    PushInSpan(before, f, span, capacity);
    ReplacesLatest(q, before, frames, f, span);
    hide HoldsLatest, Push, Latest;
    assert (frames + [f])[..|frames|] == frames;
  }

  lemma ReplacesLatest(q: Queue, r: Queue, frames: seq<Frame>, f: Frame, span: nat)
    requires HoldsLatest(q, r, frames, span) && Position(q, f.sequence) < q.cursor + span <= q.cursor + 2048
    ensures HoldsLatest(q, r.(pending := r.pending[Position(q, f.sequence) := f]), frames + [f], span)
  {
    PositionWraps(f.sequence, q.cursor);
    forall k | q.cursor <= k < q.cursor + span && Wrap(k) == f.sequence
      ensures k == Position(q, f.sequence)
    {
      PositionUnique(q, k);
    }
    assert (frames + [f])[..|frames|] == frames;
    hide Wrap, WrapSub;
  }

  lemma PushInSpan(q: Queue, f: Frame, span: nat, capacity: nat)
    requires q.primed && Position(q, f.sequence) < q.cursor + span && span <= capacity <= 2048
    ensures Push(q, f, capacity) == (q.(pending := q.pending[Position(q, f.sequence) := f]), true)
  {
  }

  lemma PositionUnique(q: Queue, k: nat)
    requires q.cursor <= k < q.cursor + MOD32
    ensures Position(q, Wrap(k)) == k
  {
    WrapSubWraps(k, q.cursor);
    WrapSmall(k - q.cursor);
  }

  lemma {:induction false} PopsInOrder(q: Queue, count: nat, i: nat)
    requires q.primed && i < count && forall k :: q.cursor <= k < q.cursor + count ==> k in q.pending
    ensures |PopAll(q, count)| == count && PopAll(q, count)[i] == Some(q.pending[q.cursor + i])
    decreases count
  {
    var (rest, frame) := Pop(q);
    if count > 1 {
      PopsInOrder(rest, count - 1, if i > 0 then i - 1 else 0);
    }
  }

  /** Reordering is undone: whatever the order and repetition in which the frames
      of the next `span` positions arrive, popping delivers them in stream order,
      each with the payload that arrived last, across wrap-around. */
  lemma ReorderedBurstDelivered(q: Queue, frames: seq<Frame>, span: nat, capacity: nat, i: nat)
    requires q.primed && q.pending == map[] && span <= capacity <= 2048 && WithinSpan(q, frames, span)
    requires forall k :: q.cursor <= k < q.cursor + span ==> Latest(frames, Wrap(k)).Some?
    requires i < span
    ensures |PopAll(PushAll(q, frames, capacity), span)| == span
    ensures PopAll(PushAll(q, frames, capacity), span)[i] == Latest(frames, Wrap(q.cursor + i))
  {
    hide PushAll, PopAll, Latest, WithinSpan, Wrap;
    BurstPending(q, frames, span, capacity);
    var full := PushAll(q, frames, capacity);
    forall k | q.cursor <= k < q.cursor + span
      ensures k in full.pending
    {
      assert Latest(frames, Wrap(k)).Some?;
    }
    PopsInOrder(full, span, i);
  }

  /** After a long cut nothing blocks the new audio: with the buffer empty, any
      frame up to half the sequence space ahead is accepted and is the next one
      delivered. */
  lemma ResumesAfterCut(q: Queue, f: Frame, capacity: nat)
    requires capacity >= 1 && InWindow(q, capacity) && q.pending == map[]
    requires q.primed ==> Position(q, f.sequence) - q.cursor <= HALF32
    requires q.primed ==> Position(q, f.sequence) - q.cursor == 0 || Position(q, f.sequence) - q.cursor >= capacity
    ensures var (q1, accepted) := Push(q, f, capacity);
            accepted && Pop(q1).1 == Some(f) && Pop(q1).0.pending == map[]
  {
  }

  /** The sequence of a position behind the cursor: refused up to half the space
      back, and further back unless it restarts an empty buffer or falls in the
      window of the next lap. */
  lemma StaleRejectedIff(q: Queue, f: Frame, back: nat, capacity: nat)
    requires q.primed && 0 < back < MOD32 && back <= q.cursor && f.sequence == Wrap(q.cursor - back)
    ensures Push(q, f, capacity).1 <==> back >= HALF32 && (q.pending == map[] || MOD32 - back < capacity)
  {
    WrapSubWraps(q.cursor - back, q.cursor);
    WrapSmall(back);
    hide Wrap;
  }
}
