/** The anti-replay window: 64 words of marks aged by an in-place shift, over
    32-bit sequences that wrap. `Window` is the reference: the unwrapped newest
    position and the set of every position that ever became the newest. */
module Replay {
  import opened Prelude
  import opened Bits

  const WORDS: nat := 64
  const WINDOW: nat := 4096

  // ------------------------------------------------------------ reference model

  datatype Window = Window(started: bool, top: int, advanced: set<int>)

  const FRESH: Window := Window(false, 0, {})

  /** Whether `s` would become the newest sequence. */
  predicate Advances(w: Window, s: u32) {
    !w.started || 0 < WrapSub(s, Wrap(w.top)) < HALF32
  }

  /** How far behind the newest position `s` lies. */
  function Age(w: Window, s: u32): nat {
    WrapSub(Wrap(w.top), s)
  }

  /** The verdict on `s`, and the window after it. A late arrival is accepted
      when it lies inside the window and never was the newest; accepting it
      records nothing. */
  function Check(w: Window, s: u32): (Window, bool) {
    if !w.started then
      (Window(true, s, {s as int}), true)
    else if Advances(w, s) then
      var top := w.top + WrapSub(s, Wrap(w.top));
      (Window(true, top, w.advanced + {top}), true)
    else
      (w, Age(w, s) < WINDOW && w.top - Age(w, s) !in w.advanced)
  }

  ghost predicate Sound(w: Window) {
    && (!w.started ==> w == FRESH)
    && (w.started ==> w.top in w.advanced)
    && (forall k :: k in w.advanced ==> k <= w.top)
  }

  lemma CheckKeepsSound(w: Window, s: u32)
    requires Sound(w)
    ensures Sound(Check(w, s).0)
    ensures !w.started || Advances(w, s) ==> Wrap(Check(w, s).0.top) == s
  {
    PositionWraps(s, w.top);
  }

  // ------------------------------------------------------------------ the bitmap

  /** Mark number `age` of the window, counted from the newest. */
  predicate Mark(bitmap: seq<u64>, age: nat)
    requires |bitmap| == WORDS && age < WINDOW
  {
    Bit(bitmap[age / 64], age % 64)
  }

  /** The word `shift_left(64 * words + bits)` leaves at index `w`. */
  function ShiftedWord(bitmap: seq<u64>, words: nat, bits: nat, w: nat): u64
    requires |bitmap| == WORDS && w < WORDS && bits < 64
  {
    var val := if w >= words then bitmap[w - words] else 0;
    if bits == 0 then val
    else if w > words then Or(ShiftLeft(val, bits), ShiftRight(bitmap[w - words - 1], 64 - bits))
    else ShiftLeft(val, bits)
  }

  /** Across word boundaries, digit `j` of the new word `w` is the old mark `n`
      positions younger, and 0 when there is none. */
  lemma ShiftedWordBits(bitmap: seq<u64>, words: nat, bits: nat, w: nat, j: nat)
    requires |bitmap| == WORDS && w < WORDS && bits < 64 && j < 64
    ensures var age := 64 * (w - words) + (j - bits);
            Bit(ShiftedWord(bitmap, words, bits, w), j) == (age >= 0 && Mark(bitmap, age))
  {
    hide Bit, Or, ShiftLeft, ShiftRight;
    var val := if w >= words then bitmap[w - words] else 0;
    if w < words {
      ZeroHasNoBits(j);
    }
    if bits != 0 {
      if w > words {
        BitFunnel(val, bitmap[w - words - 1], bits, j);
      } else {
        BitShiftLeft(val, bits, j);
        if w < words && j >= bits {
          ZeroHasNoBits(j - bits);
        }
      }
    }
  }

  /** The bitmap holds exactly the recorded positions of the last 4096. */
  ghost predicate Mirrors(bitmap: seq<u64>, w: Window)
    requires |bitmap| == WORDS
  {
    forall age :: 0 <= age < WINDOW ==> Mark(bitmap, age) == (w.top - age in w.advanced)
  }

  /** `now` is `was` with every mark `n` positions older: new mark `k` is old mark
      `k - n` when there is one, and clear otherwise. */
  ghost predicate AgedBy(was: seq<u64>, now: seq<u64>, n: nat)
    requires |was| == |now| == WORDS
  {
    forall age :: 0 <= age < WINDOW ==> Mark(now, age) == (age >= n && Mark(was, age - n))
  }

  /** `now` is `was` with the newest position marked. */
  ghost predicate NewestMarked(was: seq<u64>, now: seq<u64>)
    requires |was| == |now| == WORDS
  {
    forall age :: 0 <= age < WINDOW ==> Mark(now, age) == (age == 0 || Mark(was, age))
  }

  lemma NothingAged(marks: seq<u64>)
    requires |marks| == WORDS
    ensures AgedBy(marks, marks, 0)
  {
  }

  lemma ClearedIsAged(was: seq<u64>, now: seq<u64>, n: nat)
    requires |was| == |now| == WORDS && n >= WINDOW
    requires forall age :: 0 <= age < WINDOW ==> !Mark(now, age)
    ensures AgedBy(was, now, n)
  {
    hide Mark;
  }

  lemma FirstMirrored(was: seq<u64>, now: seq<u64>, s: u32)
    requires |was| == |now| == WORDS && Mirrors(was, FRESH) && NewestMarked(was, now)
    ensures Mirrors(now, Check(FRESH, s).0)
  {
    hide Mark;
    forall age | 0 <= age < WINDOW
      ensures Mark(now, age) == (s - age in {s as int})
    {
      assert Mark(was, age) == (0 - age in FRESH.advanced);
    }
  }

  /** Ageing the marks by the distance advanced (or clearing them, when that
      exceeds the window) and marking the newest mirrors the reference step. */
  lemma AdvanceMirrored(was: seq<u64>, aged: seq<u64>, now: seq<u64>, w: Window, s: u32)
    requires |was| == |aged| == |now| == WORDS && Sound(w) && w.started && Advances(w, s) && Mirrors(was, w)
    requires AgedBy(was, aged, WrapSub(s, Wrap(w.top))) && NewestMarked(aged, now)
    ensures Mirrors(now, Check(w, s).0)
  {
    hide Mark;
    var n, next := WrapSub(s, Wrap(w.top)), Check(w, s).0;
    forall age | 0 <= age < WINDOW
      ensures Mark(now, age) == (next.top - age in next.advanced)
    {
      if age >= n {
        assert next.top - age == w.top - (age - n);
        assert Mark(was, age - n) == (w.top - (age - n) in w.advanced);
      }
    }
  }

  class ReplayWindow {
    var highest: u32
    var initialized: bool
    const bitmap: array<u64>

    /** The reference window this bitmap stands for. */
    ghost var model: Window

    ghost predicate Valid()
      reads this, bitmap
    {
      && bitmap.Length == WORDS
      && Sound(model)
      && initialized == model.started && highest == Wrap(model.top)
      && Mirrors(bitmap[..], model)
    }

    constructor ()
      ensures Valid() && fresh(bitmap) && model == FRESH
    {
      highest, initialized, model := 0, false, FRESH;
      bitmap := new u64[WORDS](_ => 0);
      new;
      ClearedMarks(bitmap[..]);
    }

    method CheckAndMark(s: u32) returns (accept: bool)
      requires Valid()
      modifies this, bitmap
      ensures Valid()
      ensures (model, accept) == Check(old(model), s)
    {
      if !initialized {
        First(s);
        return true;
      }
      var diff := WrapSub(s, highest);
      if diff == 0 {
        assert Age(model, s) == 0;
        return false;
      }
      if diff < 0x8000_0000 {
        Advance(s, diff);
        return true;
      }
      var age := WrapSub(highest, s);
      if age >= WINDOW {
        return false;
      }
      accept := !IsMarked(age);
    }

    /** The first packet: any sequence is fine. */
    method First(s: u32)
      requires Valid() && !initialized
      modifies this, bitmap
      ensures Valid() && model == Check(old(model), s).0
    {
      hide Mark;
      ghost var was := bitmap[..];
      initialized := true;
      highest := s;
      MarkNewest();
      FirstMirrored(was, bitmap[..], s);
      CheckKeepsSound(model, s);
      model := Check(model, s).0;
    }

    /** The branch that moves the window to a newer sequence. */
    method Advance(s: u32, diff: u32)
      requires Valid() && initialized && Advances(model, s) && diff == WrapSub(s, highest)
      modifies this, bitmap
      ensures Valid() && model == Check(old(model), s).0
    {
      hide Mark;
      CheckKeepsSound(model, s);
      ghost var was := bitmap[..];
      if diff >= WINDOW {
        Clear();
        ClearedIsAged(was, bitmap[..], diff);
      } else {
        ShiftMarks(diff);
      }
      ghost var aged := bitmap[..];
      highest := s;
      MarkNewest();
      AdvanceMirrored(was, aged, bitmap[..], model, s);
      model := Check(model, s).0;
    }

    /** `mark(0)`. */
    method MarkNewest()
      requires bitmap.Length == WORDS
      modifies bitmap
      ensures NewestMarked(old(bitmap[..]), bitmap[..])
    {
      ghost var was := bitmap[..];
      bitmap[0] := Or(bitmap[0], ShiftLeft(1, 0));
      forall age | 0 <= age < WINDOW
        ensures Mark(bitmap[..], age) == (age == 0 || Mark(was, age))
      {
        if age < 64 {
          BitOr(was[0], ShiftLeft(1, 0), 64, age);
          BitOfOne(0, age);
        }
      }
    }

    predicate IsMarked(age: nat)
      requires bitmap.Length == WORDS && age < WINDOW
      reads bitmap
      ensures IsMarked(age) == Mark(bitmap[..], age)
    {
      Bit(bitmap[age / 64], age % 64)
    }

    method Clear()
      requires bitmap.Length == WORDS
      modifies bitmap
      ensures forall age :: 0 <= age < WINDOW ==> !Mark(bitmap[..], age)
    {
      for w := 0 to WORDS
        invariant forall v :: 0 <= v < w ==> bitmap[v] == 0
      {
        bitmap[w] := 0;
      }
      ClearedMarks(bitmap[..]);
    }

    /** Ages every mark by `n`. */
    method ShiftMarks(n: nat)
      requires bitmap.Length == WORDS
      modifies bitmap
      ensures AgedBy(old(bitmap[..]), bitmap[..], n)
    {
      hide Mark, ShiftedWord, AgedBy;
      ghost var was := bitmap[..];
      if n == 0 {
        NothingAged(was);
        return;
      }
      var words, bits := n / 64, n % 64;
      if words >= WORDS {
        Clear();
        ClearedIsAged(was, bitmap[..], n);
        return;
      }
      ShiftWords(words, bits);
      ShiftedMarks(was, bitmap[..], words, bits);
    }

    /** The in-place loop: it runs from the oldest word down, so each word is
        computed from words not yet overwritten. */
    method ShiftWords(words: nat, bits: nat)
      requires bitmap.Length == WORDS && bits < 64
      modifies bitmap
      ensures forall w :: 0 <= w < WORDS ==> bitmap[w] == ShiftedWord(old(bitmap[..]), words, bits, w)
    {
      hide Or, ShiftLeft, ShiftRight;
      ghost var was := bitmap[..];
      var w := WORDS;
      while w > 0
        invariant 0 <= w <= WORDS
        invariant forall v :: w <= v < WORDS ==> bitmap[v] == ShiftedWord(was, words, bits, v)
        invariant forall v :: 0 <= v < w ==> bitmap[v] == was[v]
      {
        w := w - 1;
        var val := if w >= words then bitmap[w - words] else 0;
        if bits != 0 {
          val := ShiftLeft(val, bits);
          if w > words {
            val := Or(val, ShiftRight(bitmap[w - words - 1], 64 - bits));
          }
        }
        bitmap[w] := val;
      }
    }
  }

  lemma ShiftedMarks(was: seq<u64>, now: seq<u64>, words: nat, bits: nat)
    requires |was| == |now| == WORDS && bits < 64
    requires forall w :: 0 <= w < WORDS ==> now[w] == ShiftedWord(was, words, bits, w)
    ensures AgedBy(was, now, 64 * words + bits)
  {
    hide Bit, ShiftedWord;
    var n := 64 * words + bits;
    forall age | 0 <= age < WINDOW
      ensures Mark(now, age) == (age >= n && Mark(was, age - n))
    {
      ShiftedWordBits(was, words, bits, age / 64, age % 64);
    }
  }

  lemma ClearedMarks(bitmap: seq<u64>)
    requires |bitmap| == WORDS && forall w :: 0 <= w < WORDS ==> bitmap[w] == 0
    ensures forall age :: 0 <= age < WINDOW ==> !Mark(bitmap, age)
  {
    forall age | 0 <= age < WINDOW
      ensures !Mark(bitmap, age)
    {
      ZeroHasNoBits(age % 64);
    }
  }

  // ------------------------------------------------------------------------ runs

  /** The window after a whole run of arrivals. */
  function Run(arrivals: seq<u32>): Window {
    if arrivals == [] then FRESH
    else Check(Run(arrivals[..|arrivals| - 1]), arrivals[|arrivals| - 1]).0
  }

  /** The verdict on arrival `i` of a run. */
  predicate Accepted(arrivals: seq<u32>, i: nat)
    requires i < |arrivals|
  {
    Check(Run(arrivals[..i]), arrivals[i]).1
  }

  lemma {:induction false} RunSound(arrivals: seq<u32>)
    ensures Sound(Run(arrivals))
  {
    if arrivals != [] {
      RunSound(arrivals[..|arrivals| - 1]);
    }
  }

  /** The newest position never moves back, positions recorded stay recorded,
      and whatever is recorded later is newer. */
  lemma {:induction false} RunGrows(arrivals: seq<u32>, i: nat, j: nat)
    requires i <= j <= |arrivals| && Run(arrivals[..i]).started
    ensures var early, late := Run(arrivals[..i]), Run(arrivals[..j]);
            && late.started && early.top <= late.top && early.advanced <= late.advanced
            && forall k :: k in late.advanced && k <= early.top ==> k in early.advanced
    decreases j
  {
    if i < j {
      RunGrows(arrivals, i, j - 1);
      assert arrivals[..j][..j - 1] == arrivals[..j - 1];
      RunSound(arrivals[..j - 1]);
    }
  }

  /** What the code decides about position `k` at or behind the newest one. */
  lemma VerdictAtPosition(w: Window, k: int)
    requires w.started && Sound(w) && 0 <= w.top - k < MOD32
    ensures Advances(w, Wrap(k)) <==> w.top - k > HALF32
    ensures Check(w, Wrap(k)).1 <==>
            w.top - k > HALF32 || (w.top - k < WINDOW && k !in w.advanced)
  {
    WrapSubWraps(w.top, k);
    WrapSubWraps(k, w.top);
    WrapSmall(w.top - k);
  }

  /** Within half the sequence space either way, the verdict is that of an
      unbounded memory of the stream: newer positions are accepted, and older ones
      only inside the window and if they never were the newest. */
  lemma VerdictIsUnbounded(w: Window, k: int)
    requires w.started && Sound(w) && w.top - HALF32 <= k < w.top + HALF32
    ensures Advances(w, Wrap(k)) <==> k > w.top
    ensures Check(w, Wrap(k)).1 <==> k > w.top || (w.top - k < WINDOW && k !in w.advanced)
    ensures k > w.top ==> Check(w, Wrap(k)).0.top == k
  {
    if k <= w.top {
      VerdictAtPosition(w, k);
    } else {
      WrapSubWraps(k, w.top);
      WrapSmall(k - w.top);
    }
  }

  /** What the run remembers: a position is recorded exactly when some arrival moved
      the window to it. */
  lemma {:induction false} RecordedAreNewest(arrivals: seq<u32>, k: int)
    ensures k in Run(arrivals).advanced <==> WasNewest(arrivals, k)
  {
    if arrivals != [] {
      var n := |arrivals| - 1;
      RecordedAreNewest(arrivals[..n], k);
      RunSound(arrivals[..n]);
      assert arrivals[..n + 1] == arrivals;
      assert k in Run(arrivals).advanced <==> k in Run(arrivals[..n]).advanced || Newest(arrivals, n, k);
      forall i | 0 <= i < n
        ensures Newest(arrivals, i, k) <==> Newest(arrivals[..n], i, k)
      {
        NewestInPrefix(arrivals, n, i, k);
      }
    }
  }

  lemma NewestInPrefix(arrivals: seq<u32>, n: nat, i: nat, k: int)
    requires i < n <= |arrivals|
    ensures Newest(arrivals, i, k) <==> Newest(arrivals[..n], i, k)
  {
    assert arrivals[..n][..i] == arrivals[..i] && arrivals[..n][..i + 1] == arrivals[..i + 1];
  }

  /** Arrival `i` made position `k` the newest. */
  ghost predicate Newest(arrivals: seq<u32>, i: nat, k: int)
    requires i < |arrivals|
  {
    Advances(Run(arrivals[..i]), arrivals[i]) && Run(arrivals[..i + 1]).top == k
  }

  ghost predicate WasNewest(arrivals: seq<u32>, k: int) {
    exists i :: 0 <= i < |arrivals| && Newest(arrivals, i, k)
  }

  /** The verdict on every arrival of every run: accepted if it is the first or moves
      the window on, and otherwise exactly if it is inside the window and no earlier
      arrival made its position the newest. */
  lemma EveryVerdict(arrivals: seq<u32>, i: nat)
    requires i < |arrivals|
    ensures var w := Run(arrivals[..i]);
            var k := w.top - Age(w, arrivals[i]);
            && (i == 0 ==> Accepted(arrivals, i))
            && (Accepted(arrivals, i) <==>
                  || Advances(w, arrivals[i])
                  || (Age(w, arrivals[i]) < WINDOW && !WasNewest(arrivals[..i], k)))
  {
    var w := Run(arrivals[..i]);
    assert i == 0 ==> arrivals[..i] == [] && w == FRESH;
    RecordedAreNewest(arrivals[..i], w.top - Age(w, arrivals[i]));
    hide Run, WasNewest;
  }

  /** No replay: a sequence that became the newest is rejected when it comes
      again, and is taken for a new one exactly when the stream has meanwhile
      moved on by more than half the sequence space. */
  lemma NoReplay(arrivals: seq<u32>, i: nat, j: nat)
    requires i < j < |arrivals| && arrivals[j] == arrivals[i]
    requires Advances(Run(arrivals[..i]), arrivals[i])
    ensures var moved := Run(arrivals[..j]).top - Run(arrivals[..i + 1]).top;
            && 0 <= moved
            && (moved <= HALF32 ==> !Accepted(arrivals, j))
            && (moved < MOD32 ==> (Accepted(arrivals, j) <==> moved > HALF32))
  {
    var w := Run(arrivals[..i]);
    assert arrivals[..i + 1][..i] == arrivals[..i];
    RunSound(arrivals[..i]);
    RunSound(arrivals[..j]);
    PositionWraps(arrivals[i], w.top);
    RunGrows(arrivals, i + 1, j);
    var k, late := Run(arrivals[..i + 1]).top, Run(arrivals[..j]);
    assert Wrap(k) == arrivals[i] && k in late.advanced;
    if late.top - k < MOD32 {
      VerdictAtPosition(late, k);
    }
  }

  /** A late arrival leaves no mark, so the same sequence is accepted again
      exactly while it is still inside the 4096-wide window (or counts as new,
      past half the sequence space). */
  lemma LateArrivalRepeats(arrivals: seq<u32>, i: nat, j: nat)
    requires i < j < |arrivals| && arrivals[j] == arrivals[i]
    requires Accepted(arrivals, i) && !Advances(Run(arrivals[..i]), arrivals[i])
    ensures var behind := Run(arrivals[..j]).top - Run(arrivals[..i]).top + Age(Run(arrivals[..i]), arrivals[i]);
            behind < MOD32 ==> (Accepted(arrivals, j) <==> behind < WINDOW || behind > HALF32)
  {
    var w := Run(arrivals[..i]);
    RunSound(arrivals[..i]);
    RunSound(arrivals[..j]);
    var k := w.top - Age(w, arrivals[i]);
    AgeWraps(arrivals[i], w.top);
    RunGrows(arrivals, i, j);
    var late := Run(arrivals[..j]);
    assert k !in late.advanced;
    if late.top - k < MOD32 {
      VerdictAtPosition(late, k);
    }
  }

  /** The promise that each sequence is accepted only once fails: a reordered
      packet and its copy both pass. */
  lemma LateDuplicateAccepted()
    ensures var arrivals := [10, 12, 11, 11];
            Accepted(arrivals, 2) && Accepted(arrivals, 3)
  {
    var arrivals: seq<u32> := [10, 12, 11, 11];
    assert arrivals[..1] == [10] && arrivals[..2] == [10, 12] && arrivals[..3] == [10, 12, 11];
    assert [10, 12, 11][..2] == [10, 12] && [10, 12][..1] == [10] && [10][..0] == [];
    assert Run([10]) == Window(true, 10, {10});
    assert Run([10, 12]) == Window(true, 12, {10, 12});
    assert Run([10, 12, 11]) == Window(true, 12, {10, 12});
  }
}
