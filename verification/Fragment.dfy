/** Fragmentation of frames larger than a packet: the fragment sub-header and the
    reassembler, which keeps the first payload of each index. */
module Fragment {
  import opened Prelude
  import Packet

  const MAX_FRAGMENTS: nat := 16
  const SUBHEADER_SIZE: nat := 4

  datatype Error =
    | MalformedPayload | TooManyFragments | FragmentOutOfRange | DuplicateFragment | IncompleteReassembly

  // ------------------------------------------------------------------- sub-header

  datatype FragmentHeader = FragmentHeader(index: u16, total: u16)

  function HeaderBytes(h: FragmentHeader): (b: Bytes)
    ensures |b| == SUBHEADER_SIZE
  {
    Packet.BigEndian(h.index, 2) + Packet.BigEndian(h.total, 2)
  }

  function DecodeHeader(buf: Bytes): Result<FragmentHeader, Error> {
    if |buf| < SUBHEADER_SIZE then Err(MalformedPayload)
    else
      var index, total := Packet.ReadU16(buf[0..2]), Packet.ReadU16(buf[2..4]);
      if total == 0 || total > MAX_FRAGMENTS then Err(TooManyFragments)
      else if index >= total then Err(FragmentOutOfRange)
      else Ok(FragmentHeader(index, total))
  }

  /** The index in the first two bytes, the total in the next, high byte first. */
  lemma HeaderLayout(h: FragmentHeader)
    ensures HeaderBytes(h) == [h.index / 0x100, h.index % 0x100, h.total / 0x100, h.total % 0x100]
  {
    Packet.TwoBigEndian(h.index);
    Packet.TwoBigEndian(h.total);
  }

  /** A fragment's sub-header is read back from the front of its payload exactly
      when it is within range; otherwise the error says which bound it breaks. */
  lemma HeaderRoundTrip(h: FragmentHeader, content: Bytes)
    ensures DecodeHeader(HeaderBytes(h) + content)
         == if h.total == 0 || h.total > MAX_FRAGMENTS then Err(TooManyFragments)
            else if h.index >= h.total then Err(FragmentOutOfRange)
            else Ok(h)
  {
    hide Packet.BigEndian, Packet.FromBigEndian;
    var buf := HeaderBytes(h) + content;
    Packet.WordWidths();
    Packet.FromToBigEndian(h.index, 2);
    Packet.FromToBigEndian(h.total, 2);
    assert buf[0..2] == Packet.BigEndian(h.index, 2) && buf[2..4] == Packet.BigEndian(h.total, 2);
  }

  // ------------------------------------------------------------------- reassembly

  datatype Fragment = Fragment(index: nat, payload: Bytes)

  /** The payload first inserted for `index`. */
  function First(inserted: seq<Fragment>, index: nat): Option<Bytes> {
    if inserted == [] then None
    else if inserted[0].index == index then Some(inserted[0].payload)
    else First(inserted[1..], index)
  }

  function Filled(buffers: seq<Option<Bytes>>): nat {
    if buffers == [] then 0
    else Filled(buffers[..|buffers| - 1]) + (if buffers[|buffers| - 1].Some? then 1 else 0)
  }

  class FragmentReassembler {
    const expectedTotal: nat
    var buffers: seq<Option<Bytes>>
    var received: nat
    /** Every insertion attempted so far, accepted or not. */
    ghost var inserted: seq<Fragment>

    /** `received` counts the filled slots, and each slot holds the first payload
        of its index. */
    ghost predicate Valid()
      reads this
    {
      && 1 <= expectedTotal <= MAX_FRAGMENTS
      && |buffers| == expectedTotal
      && received == Filled(buffers)
      && forall i :: 0 <= i < expectedTotal ==> buffers[i] == First(inserted, i)
    }

    constructor (total: nat)
      requires 1 <= total <= MAX_FRAGMENTS
      ensures Valid() && inserted == [] && expectedTotal == total
    {
      expectedTotal := total;
      buffers := seq(total, _ => None);
      received, inserted := 0, [];
      new;
      NoneFilled(buffers);
    }

    static method New(total: nat) returns (r: Result<FragmentReassembler, Error>)
      ensures r.Ok? <==> 1 <= total <= MAX_FRAGMENTS
      ensures r.Err? ==> r.error == TooManyFragments
      ensures r.Ok? ==> fresh(r.value) && r.value.Valid() && r.value.inserted == [] && r.value.expectedTotal == total
    {
      if total == 0 || total > MAX_FRAGMENTS {
        return Err(TooManyFragments);
      }
      var reassembler := new FragmentReassembler(total);
      r := Ok(reassembler);
    }

    method Insert(index: nat, payload: Bytes) returns (error: Option<Error>)
      requires Valid()
      modifies this
      ensures Valid() && inserted == old(inserted) + [Fragment(index, payload)]
      ensures error == if index >= expectedTotal then Some(FragmentOutOfRange)
                       else if First(old(inserted), index).Some? then Some(DuplicateFragment)
                       else None
    {
      FirstAppend(inserted, Fragment(index, payload));
      inserted := inserted + [Fragment(index, payload)];
      if index >= expectedTotal {
        return Some(FragmentOutOfRange);
      }
      if buffers[index].Some? {
        return Some(DuplicateFragment);
      }
      FilledUpdate(buffers, index, payload);
      buffers := buffers[index := Some(payload)];
      received := received + 1;
      error := None;
    }

    /** Complete exactly when every index has been inserted at least once. */
    method IsComplete() returns (complete: bool)
      requires Valid()
      ensures complete <==> forall i :: 0 <= i < expectedTotal ==> First(inserted, i).Some?
    {
      AllFilled(buffers);
      complete := received == expectedTotal;
      if complete {
        forall i | 0 <= i < expectedTotal
          ensures First(inserted, i).Some?
        {
          assert buffers[i].Some?;
        }
      } else {
        ghost var i :| 0 <= i < expectedTotal && buffers[i].None?;
        assert First(inserted, i).None?;
      }
    }

    /** The first payload of each index, in index order, whatever the order of
        insertion. */
    method Finish() returns (r: Result<Bytes, Error>)
      requires Valid()
      ensures r.Ok? <==> forall i :: 0 <= i < expectedTotal ==> First(inserted, i).Some?
      ensures r.Err? ==> r.error == IncompleteReassembly
      ensures r.Ok? ==>
                r.value == Concat(FirstPayloads(inserted, expectedTotal))
    {
      var complete := IsComplete();
      if !complete {
        return Err(IncompleteReassembly);
      }
      ghost var parts := FirstPayloads(inserted, expectedTotal);
      var out: Bytes := [];
      for i := 0 to |buffers|
        invariant out == Concat(parts[..i])
      {
        assert parts[..i + 1][..i] == parts[..i];
        assert buffers[i] == First(inserted, i);
        if buffers[i].Some? {
          out := out + buffers[i].value;
        }
      }
      assert parts[..|buffers|] == parts;
      r := Ok(out);
    }
  }

  /** The first payload of each index, empty where there is none. */
  function FirstPayloads(inserted: seq<Fragment>, total: nat): seq<Bytes> {
    seq(total, i requires 0 <= i < total =>
      var first := First(inserted, i);
      if first.Some? then first.value else [])
  }

  lemma {:induction false} FirstAppend(inserted: seq<Fragment>, f: Fragment)
    ensures forall i: nat ::
              First(inserted + [f], i)
              == if First(inserted, i).Some? then First(inserted, i) else if f.index == i then Some(f.payload) else None
  {
    if inserted != [] {
      assert (inserted + [f])[1..] == inserted[1..] + [f];
      FirstAppend(inserted[1..], f);
    } else {
      assert [f][1..] == [];
    }
  }

  lemma {:induction false} NoneFilled(buffers: seq<Option<Bytes>>)
    requires forall i :: 0 <= i < |buffers| ==> buffers[i].None?
    ensures Filled(buffers) == 0
  {
    if buffers != [] {
      NoneFilled(buffers[..|buffers| - 1]);
    }
  }

  lemma {:induction false} AllFilled(buffers: seq<Option<Bytes>>)
    ensures Filled(buffers) <= |buffers|
    ensures Filled(buffers) == |buffers| <==> forall i :: 0 <= i < |buffers| ==> buffers[i].Some?
  {
    if buffers != [] {
      AllFilled(buffers[..|buffers| - 1]);
    }
  }

  lemma {:induction false} FilledUpdate(buffers: seq<Option<Bytes>>, i: nat, payload: Bytes)
    requires i < |buffers| && buffers[i].None?
    ensures Filled(buffers[i := Some(payload)]) == Filled(buffers) + 1
  {
    var n := |buffers| - 1;
    var now := buffers[i := Some(payload)];
    if i < n {
      FilledUpdate(buffers[..n], i, payload);
      assert now[..n] == buffers[..n][i := Some(payload)];
    } else {
      assert now[..n] == buffers[..n];
    }
  }

  /** Fragments of `parts` arriving in any order and with any repetition, each
      index at least once, give back the frame. */
  lemma ReassemblesAnyOrder(parts: seq<Bytes>, inserted: seq<Fragment>)
    requires forall f :: f in inserted && f.index < |parts| ==> f.payload == parts[f.index]
    requires forall i :: 0 <= i < |parts| ==> First(inserted, i).Some?
    ensures Concat(FirstPayloads(inserted, |parts|)) == Concat(parts)
  {
    forall i | 0 <= i < |parts|
      ensures FirstPayloads(inserted, |parts|)[i] == parts[i]
    {
      FirstIsInserted(inserted, i);
    }
    assert FirstPayloads(inserted, |parts|) == parts;
  }

  lemma {:induction false} FirstIsInserted(inserted: seq<Fragment>, index: nat)
    ensures First(inserted, index).Some? <==> exists f :: f in inserted && f.index == index
    ensures First(inserted, index).Some? ==> Fragment(index, First(inserted, index).value) in inserted
  {
    if inserted != [] {
      FirstIsInserted(inserted[1..], index);
      if inserted[0].index == index {
        assert inserted[0] in inserted;
      } else {
        assert forall f :: f in inserted <==> f == inserted[0] || f in inserted[1..];
      }
    }
  }
}
