/** The ring itself: a power-of-two array of slots indexed by the low bits of
    the wire sequence, with a wrapping 32-bit cursor. A ghost unwrapped cursor
    ties it to `JitterModel`; every method is proved to be the model's
    operation of the same name. Each method is one atomic step. */
module JitterBuffer {
  import opened Prelude
  import opened JitterModel

  datatype Slot = Slot(occupied: bool, sequence: u32, frame: Option<Frame>)

  const EMPTY_SLOT: Slot := Slot(false, 0, None)

  predicate PowerOfTwoUpTo2048(c: nat) {
    c in {1, 2, 4, 8, 16, 32, 64, 128, 256, 512, 1024, 2048}
  }

  /** `sequence & mask`: the low bits, that is, the remainder by a power of two. */
  function Index(s: nat, capacity: nat): (i: nat)
    requires capacity > 0
    ensures i < capacity
  {
    s % capacity
  }

  /** The ring index of a wire sequence is that of its unwrapped position. */
  lemma IndexOfWrapped(k: nat, capacity: nat)
    requires PowerOfTwoUpTo2048(capacity)
    ensures Index(Wrap(k), capacity) == Index(k, capacity)
  {
    WrapKeepsRemainder(k, capacity);
  }

  /** Inside one window the index determines the position. */
  lemma IndexInjective(j: nat, k: nat, from: nat, capacity: nat)
    requires capacity > 0 && from <= j < from + capacity && from <= k < from + capacity
    requires Index(j, capacity) == Index(k, capacity)
    ensures j == k
  {
    if j <= k { SameRemainder(k, j, capacity); } else { SameRemainder(j, k, capacity); }
  }

  /** Every slot is the slot of exactly one position of the window. */
  lemma IndexSurjective(i: nat, from: nat, capacity: nat) returns (k: nat)
    requires i < capacity
    ensures from <= k < from + capacity && Index(k, capacity) == i
  {
    if from == 0 {
      k := i;
    } else {
      k := IndexSurjective(i, from - 1, capacity);
      if k == from - 1 {
        AddTurns(k, 1, capacity);
        k := k + capacity;
      }
    }
  }

  class JitterBuffer {
    const slots: array<Slot>
    const capacity: nat
    var nextSeq: u32
    var primed: bool

    /** The queue this ring stands for. */
    ghost var model: Queue

    /** The slot of position `k` is occupied exactly when `k` is pending, and
        then holds its frame. */
    ghost predicate Mirrors(k: nat)
      requires capacity == slots.Length > 0
      reads this`model, slots
    {
      var slot := slots[Index(k, capacity)];
      if k in model.pending then slot == Slot(true, Wrap(k), Some(model.pending[k])) else !slot.occupied
    }

    ghost predicate MirrorsWindow()
      reads this`model, slots
    {
      && PowerOfTwoUpTo2048(capacity) && slots.Length == capacity
      && InWindow(model, capacity)
      && (forall k :: model.cursor <= k < model.cursor + capacity ==> Mirrors(k))
    }

    ghost predicate Valid()
      reads this, slots
    {
      MirrorsWindow() && primed == model.primed && nextSeq == Wrap(model.cursor)
    }

    lemma PendingIffOccupied()
      requires Valid()
      ensures model.pending != map[] <==> exists i :: 0 <= i < capacity && slots[i].occupied
    {
      if i :| 0 <= i < capacity && slots[i].occupied {
        var k := IndexSurjective(i, model.cursor, capacity);
        assert Mirrors(k);
      }
      if k :| k in model.pending {
        assert Mirrors(k);
      }
    }

    /** In every valid state each occupied slot serves one position of the
        window, congruent to the slot's index. */
    lemma OccupiedSlotInWindow(i: nat) returns (k: nat)
      requires Valid() && i < capacity && slots[i].occupied
      ensures model.cursor <= k < model.cursor + capacity && k % capacity == i
      ensures slots[i].sequence == Wrap(k) && slots[i].sequence % capacity == i
      ensures k in model.pending && slots[i].frame == Some(model.pending[k])
    {
      k := IndexSurjective(i, model.cursor, capacity);
      assert Mirrors(k);
      IndexOfWrapped(k, capacity);
    }

    /** The test of `pop` and of the search: the slot of a window position shows
        its sequence exactly when it is pending. */
    lemma SlotHolds(k: nat)
      requires Valid() && model.cursor <= k < model.cursor + capacity
      ensures var slot := slots[Index(Wrap(k), capacity)];
              slot.occupied && slot.sequence == Wrap(k) <==> k in model.pending
    {
      IndexOfWrapped(k, capacity);
      assert Mirrors(k);
    }

    constructor (capacity: nat)
      requires PowerOfTwoUpTo2048(capacity)
      ensures Valid() && fresh(slots) && this.capacity == capacity
      ensures model == EMPTY
    {
      this.capacity := capacity;
      slots := new Slot[capacity](_ => EMPTY_SLOT);
      nextSeq, primed, model := 0, false, EMPTY;
    }

    method Reset()
      requires Valid()
      modifies this, slots
      ensures Valid() && model == EMPTY
    {
      for i := 0 to capacity
        invariant forall j :: 0 <= j < i ==> !slots[j].occupied
        modifies slots
      {
        slots[i] := EMPTY_SLOT;
      }
      nextSeq, primed, model := 0, false, EMPTY;
    }

    method HasPending() returns (any: bool)
      requires Valid()
      ensures any <==> model.pending != map[]
    {
      any := false;
      for i := 0 to capacity
        invariant any <==> exists j :: 0 <= j < i && slots[j].occupied
      {
        any := any || slots[i].occupied;
      }
      PendingIffOccupied();
    }

    method Push(frame: Frame) returns (accepted: bool)
      requires Valid()
      modifies this, slots
      ensures Valid()
      ensures (model, accepted) == JitterModel.Push(old(model), frame, capacity)
    {
      ghost var at: nat := if primed then Position(model, frame.sequence) else frame.sequence;
      PositionWraps(frame.sequence, model.cursor);
      if !primed {
        PendingIffOccupied();
        primed := true;
        Resync(frame.sequence, at);
      } else {
        var ahead := WrapSub(frame.sequence, nextSeq);
        if ahead > 0x8000_0000 {
          return false;
        }
        if ahead >= capacity {
          var busy := HasPending();
          if busy {
            return false;
          }
          PendingIffOccupied();
          Resync(frame.sequence, at);
        }
      }
      accepted := Store(frame, at);
    }

    /** Waits for `sequence` from now on. Only with the ring empty. */
    method Resync(sequence: u32, ghost at: nat)
      requires PowerOfTwoUpTo2048(capacity) && slots.Length == capacity
      requires primed && Wrap(at) == sequence
      requires forall i :: 0 <= i < capacity ==> !slots[i].occupied
      modifies this`nextSeq, this`model
      ensures Valid() && model == Queue(true, at, map[])
    {
      nextSeq := sequence;
      model := Queue(true, at, map[]);
    }

    /** The slot write that ends `push`. Its collision test never rejects: an
        occupied slot of the window already holds the sequence that maps to it. */
    method Store(frame: Frame, ghost at: nat) returns (accepted: bool)
      requires Valid() && primed && Wrap(at) == frame.sequence
      requires model.cursor <= at < model.cursor + capacity
      modifies slots, this`model
      ensures Valid() && accepted
      ensures model == old(model).(pending := old(model).pending[at := frame])
    {
      var index := Index(frame.sequence, capacity);
      IndexOfWrapped(at, capacity);
      assert Mirrors(at);
      accepted := !(slots[index].occupied && slots[index].sequence != frame.sequence);
      if accepted {
        slots[index] := Slot(true, frame.sequence, Some(frame));
      }
      model := model.(pending := model.pending[at := frame]);
      forall k | model.cursor <= k < model.cursor + capacity
        ensures Mirrors(k)
      {
        assert old(Mirrors(k));
        if Index(k, capacity) == index {
          IndexInjective(k, at, model.cursor, capacity);
        }
      }
    }

    method Pop() returns (frame: Option<Frame>)
      requires Valid()
      modifies this, slots
      ensures Valid()
      ensures (model, frame) == JitterModel.Pop(old(model))
    {
      if !primed {
        return None;
      }
      var next := nextSeq;
      var index := Index(next, capacity);
      IndexOfWrapped(model.cursor, capacity);
      assert Mirrors(model.cursor);
      if !slots[index].occupied || slots[index].sequence != next {
        return None;
      }
      frame := slots[index].frame;
      WrapAddWraps(model.cursor, 1);
      Vacate(index);
      nextSeq := WrapAdd(next, 1);
    }

    /** Frees the slot of the cursor and moves the (unwrapped) cursor past it;
        the position that enters the window reuses the slot just freed. */
    method Vacate(index: nat)
      requires MirrorsWindow() && model.primed && index == Index(model.cursor, capacity)
      modifies slots, this`model
      ensures MirrorsWindow()
      ensures model == Queue(true, old(model).cursor + 1, old(model).pending - {old(model).cursor})
    {
      ghost var from := model.cursor;
      slots[index] := slots[index].(occupied := false, frame := None);
      model := Queue(true, from + 1, model.pending - {from});
      forall k | from + 1 <= k < from + 1 + capacity
        ensures Mirrors(k)
      {
        if k == from + capacity {
          AddTurns(from, 1, capacity);
        } else {
          assert old(Mirrors(k));
          if Index(k, capacity) == index {
            IndexInjective(k, from, from, capacity);
          }
        }
      }
    }

    method Skip(count: u32)
      requires Valid()
      modifies this, slots
      ensures Valid()
      ensures model == JitterModel.Skip(old(model), count)
    {
      if !primed {
        return;
      }
      var next := nextSeq;
      assert model == JitterModel.Skip(model, 0);
      hide JitterModel.Skip, Wrap, WrapAdd;
      for i := 0 to count
        invariant MirrorsWindow()
        invariant model == JitterModel.Skip(old(model), i)
        modifies slots, this`model
      {
        var index := Index(WrapAdd(next, i), capacity);
        WrapAddWraps(old(model).cursor, i);
        IndexOfWrapped(model.cursor, capacity);
        Vacate(index);
        SkipOneMore(old(model), i);
      }
      nextSeq := WrapAdd(next, count);
      WrapAddWraps(old(model).cursor, count);
    }

    method SkipToAvailable()
      requires Valid()
      modifies this, slots
      ensures Valid()
      ensures model == JitterModel.SkipToAvailable(old(model), capacity)
    {
      if !primed {
        return;
      }
      hide JitterModel.Skip, JitterModel.SkipToAvailable, Wrap, WrapAdd, Index, PowerOfTwoUpTo2048;
      var next, hop := nextSeq, 1;
      var ahead := 1;
      while ahead < capacity
        invariant 1 <= ahead <= capacity && hop == 1
        invariant forall k :: model.cursor < k < model.cursor + ahead ==> k !in model.pending
        modifies {}
      {
        var s := WrapAdd(next, ahead);
        WrapAddWraps(model.cursor, ahead);
        SlotHolds(model.cursor + ahead);
        var slot := slots[Index(s, capacity)];
        if slot.occupied && slot.sequence == s {
          hop := ahead;
          break;
        }
        ahead := ahead + 1;
      }
      SkipsToFirst(model, hop, capacity);
      Skip(hop);
    }

    method PopWithDeadline(nowUs: nat, deadlineUs: nat) returns (frame: Option<Frame>)
      requires Valid()
      modifies this, slots
      ensures Valid()
      ensures (model, frame) == JitterModel.PopWithDeadline(old(model), nowUs >= deadlineUs, capacity)
    {
      frame := Pop();
      if frame.None? && nowUs >= deadlineUs {
        SkipToAvailable();
      }
    }
  }
}
