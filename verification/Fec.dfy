/** XOR forward error correction over groups of `window` variable-length frames: the
    encoder and the decoder, each against a reference. `FecChannel` joins them. */
module Fec {
  import opened Prelude
  import opened Bits

  // ------------------------------------------------------------- XOR of a group

  /** Byte `j` of a payload, reading 0 past its end. */
  function ByteAt(p: Bytes, j: nat): Byte {
    if j < |p| then p[j] else 0
  }

  function MaxLen(group: seq<Bytes>): nat {
    if group == [] then 0
    else Max(MaxLen(group[..|group| - 1]), |group[|group| - 1]|)
  }

  function XorAt(group: seq<Bytes>, j: nat): Byte {
    if group == [] then 0
    else XorByte(XorAt(group[..|group| - 1], j), ByteAt(group[|group| - 1], j))
  }

  /** Column-wise XOR, as long as the longest frame. */
  function Parity(group: seq<Bytes>): Bytes {
    seq(MaxLen(group), j requires 0 <= j => XorAt(group, j))
  }

  function Padded(p: Bytes, len: nat): Bytes {
    seq(len, j requires 0 <= j => ByteAt(p, j))
  }

  /** The reference for `xor_into`: `data` is cut to the accumulator's length. */
  function Xored(acc: Bytes, data: Bytes): (r: Bytes)
    ensures |r| == |acc|
  {
    seq(|acc|, j requires 0 <= j < |acc| => XorByte(acc[j], ByteAt(data, j)))
  }

  method XorInto(accumulator: Bytes, data: Bytes) returns (out: Bytes)
    ensures out == Xored(accumulator, data)
  {
    out := accumulator;
    var len := if |accumulator| < |data| then |accumulator| else |data|;
    for i := 0 to len
      invariant |out| == |accumulator|
      invariant forall j :: 0 <= j < i ==> out[j] == XorByte(accumulator[j], data[j])
      invariant forall j :: i <= j < |out| ==> out[j] == accumulator[j]
    {
      out := out[i := XorByte(out[i], data[i])];
    }
    forall j | 0 <= j < |out|
      ensures out[j] == Xored(accumulator, data)[j]
    {
      XorByteLaws(accumulator[j], 0, 0);
    }
  }

  // -------------------------------------------------------------------- encoder

  datatype FecParity = FecParity(seqBase: u32, window: nat, payload: Bytes)

  /** The encoder as the list of frames of the group in progress. */
  datatype Sender = Sender(window: nat, seqBase: u32, group: seq<Bytes>)

  function Send(e: Sender, sequence: u32, payload: Bytes): (Sender, Option<FecParity>) {
    var base := if e.group == [] then sequence else e.seqBase;
    var group := e.group + [payload];
    if |group| < e.window then (Sender(e.window, base, group), None)
    else (Sender(e.window, base, []), Some(FecParity(base, e.window, Parity(group))))
  }

  class FecEncoder {
    const window: nat
    var parityBuf: Bytes
    var count: nat
    var seqBase: u32
    ghost var model: Sender

    ghost predicate Valid()
      reads this
    {
      && 2 <= window <= 255 && window == model.window
      && count == |model.group| < window
      && seqBase == model.seqBase
      && (count > 0 ==> parityBuf == Parity(model.group))
    }

    constructor (window: nat)
      requires window <= 255
      ensures Valid() && this.window == Max(window, 2) && model.group == []
    {
      var w := Max(window, 2);
      this.window := w;
      parityBuf, count, seqBase := [], 0, 0;
      model := Sender(w, 0, []);
    }

    method Push(sequence: u32, payload: Bytes) returns (parity: Option<FecParity>)
      requires Valid()
      modifies this
      ensures Valid()
      ensures (model, parity) == Send(old(model), sequence, payload)
    {
      GrowsByZeros(model.group, payload);
      hide Parity, Xored, Padded;
      if count == 0 {
        seqBase := sequence;
        parityBuf := seq(|payload|, _ => 0);
      }
      if |payload| > |parityBuf| {
        parityBuf := parityBuf + seq(|payload| - |parityBuf|, _ => 0);
      }
      AccumulateParity(model.group, payload);
      parityBuf := XorInto(parityBuf, payload);
      count := count + 1;
      model := Send(model, sequence, payload).0;
      if count >= window {
        parity := Some(FecParity(seqBase, window, parityBuf));
        count, parityBuf := 0, [];
      } else {
        parity := None;
      }
    }
  }

  /** Zeros appended to the parity pad it to the longer of the group and the frame. */
  lemma GrowsByZeros(group: seq<Bytes>, payload: Bytes)
    ensures |Parity(group)| == MaxLen(group)
    ensures var parity := Parity(group);
            Padded(parity, Max(MaxLen(group), |payload|))
            == if |payload| > |parity| then parity + seq(|payload| - |parity|, _ => 0) else parity
    ensures group == [] ==> Padded(Parity(group), |payload|) == seq(|payload|, _ => 0)
  {
  }

  /** Appending a frame extends the parity with zeros and XORs the frame in. */
  lemma AccumulateParity(group: seq<Bytes>, payload: Bytes)
    ensures Xored(Padded(Parity(group), Max(MaxLen(group), |payload|)), payload) == Parity(group + [payload])
  {
    var longer := group + [payload];
    assert longer[..|longer| - 1] == group;
    forall j | 0 <= j < Max(MaxLen(group), |payload|)
      ensures XorByte(ByteAt(Parity(group), j), ByteAt(payload, j)) == XorAt(longer, j)
    {
      if j >= MaxLen(group) {
        XorPastEnd(group, j);
      }
    }
  }

  lemma {:induction false} XorPastEnd(group: seq<Bytes>, j: nat)
    requires j >= MaxLen(group)
    ensures XorAt(group, j) == 0
  {
    if group != [] {
      XorPastEnd(group[..|group| - 1], j);
    }
  }

  // -------------------------------------------------------------------- decoder

  datatype Receiver = Receiver(
    window: nat, active: bool, seqBase: u32, received: seq<Option<Bytes>>, parity: Option<Bytes>)

  predicate WellFormed(d: Receiver) {
    2 <= d.window <= 255 && (d.active ==> |d.received| == d.window)
  }

  function StartGroup(d: Receiver, base: u32): Receiver {
    Receiver(d.window, true, base, seq(d.window, _ => None), None)
  }

  /** The window boundary the decoder infers for a sequence. */
  function GroupBase(sequence: u32, window: nat): (b: u32)
    requires window > 0
    ensures b <= sequence < b + window
  {
    sequence - sequence % window
  }

  function Enter(d: Receiver, base: u32): (r: Receiver)
    requires WellFormed(d)
    ensures WellFormed(r) && r.active && r.seqBase == base && r.window == d.window
  {
    if d.active && d.seqBase == base then d else StartGroup(d, base)
  }

  function ReceiveData(d: Receiver, sequence: u32, payload: Bytes): (r: Receiver)
    requires WellFormed(d)
    ensures WellFormed(r)
  {
    var g := Enter(d, GroupBase(sequence, d.window));
    g.(received := g.received[sequence - g.seqBase := Some(payload)])
  }

  /** XOR of the frames present, in one column. */
  function XorPresent(received: seq<Option<Bytes>>, j: nat): Byte {
    if received == [] then 0
    else
      var last := received[|received| - 1];
      XorByte(XorPresent(received[..|received| - 1], j), if last.Some? then ByteAt(last.value, j) else 0)
  }

  ghost predicate OnlyMissing(received: seq<Option<Bytes>>, lost: nat) {
    lost < |received| && forall i :: 0 <= i < |received| ==> (received[i].None? <==> i == lost)
  }

  lemma NoSingleMissing(received: seq<Option<Bytes>>, missing: seq<nat>)
    requires |missing| != 1
    requires forall k :: 0 <= k < |missing| ==> missing[k] < |received| && received[missing[k]].None?
    requires forall k, l :: 0 <= k < l < |missing| ==> missing[k] < missing[l]
    requires forall j :: 0 <= j < |received| && received[j].None? ==> j in missing
    ensures forall lost: nat :: !OnlyMissing(received, lost)
  {
    forall lost: nat
      ensures !OnlyMissing(received, lost)
    {
      if |missing| >= 2 {
        assert received[missing[0]].None? && received[missing[1]].None?;
      } else if lost < |received| {
        assert received[lost].Some?;
      }
    }
  }

  function RecoveredPayload(received: seq<Option<Bytes>>, parity: Bytes): Bytes {
    seq(|parity|, j requires 0 <= j < |parity| => XorByte(parity[j], XorPresent(received, j)))
  }

  /** What the parity of the group and the frames present determine: the one
      missing frame, or nothing when none or several are missing. */
  ghost function Recovery(g: Receiver, parity: Bytes): Option<(u32, Bytes)> {
    if lost: nat :| OnlyMissing(g.received, lost)
    then Some((Wrap(g.seqBase + lost), RecoveredPayload(g.received, parity)))
    else None
  }

  ghost function ReceiveParity(d: Receiver, p: FecParity): (r: (Receiver, Option<(u32, Bytes)>))
    requires WellFormed(d)
    ensures WellFormed(r.0)
  {
    var g := Enter(d, p.seqBase).(parity := Some(p.payload));
    (g, Recovery(g, p.payload))
  }

  class FecDecoder {
    const window: nat
    var seqBase: u32
    var received: seq<Option<Bytes>>
    var parity: Option<Bytes>
    var active: bool

    function State(): Receiver
      reads this
    {
      Receiver(window, active, seqBase, received, parity)
    }

    constructor (window: nat)
      requires window <= 255
      ensures WellFormed(State()) && State() == Receiver(Max(window, 2), false, 0, [], None)
    {
      this.window := Max(window, 2);
      seqBase, received, parity, active := 0, [], None, false;
    }

    method Start(base: u32)
      requires WellFormed(State())
      modifies this
      ensures State() == StartGroup(old(State()), base)
    {
      seqBase := base;
      received := seq(window, _ => None);
      parity := None;
      active := true;
    }

    /** Every frame belongs to the group it starts or joins. */
    method PushData(sequence: u32, payload: Bytes) returns (mine: bool)
      requires WellFormed(State())
      modifies this
      ensures WellFormed(State())
      ensures State() == ReceiveData(old(State()), sequence, payload) && mine
    {
      var base := sequence - sequence % window;
      if !active || seqBase != base {
        Start(base);
      }
      var offset := sequence - seqBase;
      mine := offset < window;
      if mine {
        received := received[offset := Some(payload)];
      }
    }

    method PushParity(p: FecParity) returns (result: Option<(u32, Bytes)>)
      requires WellFormed(State())
      modifies this
      ensures WellFormed(State())
      ensures (State(), result) == ReceiveParity(old(State()), p)
    {
      if !active || seqBase != p.seqBase {
        Start(p.seqBase);
      }
      parity := Some(p.payload);
      result := TryRecover();
    }

    method Reset()
      requires WellFormed(State())
      modifies this
      ensures WellFormed(State()) && !active
    {
      active, received, parity := false, [], None;
    }

    method TryRecover() returns (result: Option<(u32, Bytes)>)
      requires WellFormed(State()) && active
      ensures parity.None? ==> result.None?
      ensures parity.Some? ==> result == Recovery(State(), parity.value)
    {
      if parity.None? {
        return None;
      }
      var missing: seq<nat> := [];
      for i := 0 to |received|
        invariant forall k :: 0 <= k < |missing| ==> missing[k] < i && received[missing[k]].None?
        invariant forall k, l :: 0 <= k < l < |missing| ==> missing[k] < missing[l]
        invariant forall j :: 0 <= j < i && received[j].None? ==> j in missing
      {
        if received[i].None? {
          missing := missing + [i];
        }
      }
      if |missing| != 1 {
        NoSingleMissing(received, missing);
        return None;
      }
      var lostIdx := missing[0];
      assert OnlyMissing(received, lostIdx);
      var recovered := RecoverPayload(parity.value, lostIdx);
      result := Some((WrapAdd(seqBase, lostIdx), recovered));
    }

    method RecoverPayload(p: Bytes, lostIdx: nat) returns (recovered: Bytes)
      requires OnlyMissing(received, lostIdx)
      ensures recovered == RecoveredPayload(received, p)
    {
      hide Xor;
      recovered := p;
      forall j | 0 <= j < |p|
        ensures XorByte(p[j], XorPresent(received[..0], j)) == p[j]
      {
        XorByteLaws(p[j], 0, 0);
      }
      for i := 0 to |received|
        invariant |recovered| == |p|
        invariant forall j :: 0 <= j < |p| ==> recovered[j] == XorByte(p[j], XorPresent(received[..i], j))
      {
        assert received[..i + 1][..i] == received[..i];
        if i == lostIdx {
          forall j | 0 <= j < |p|
            ensures XorPresent(received[..i + 1], j) == XorPresent(received[..i], j)
          {
            XorByteLaws(XorPresent(received[..i], j), 0, 0);
          }
          continue;
        }
        ghost var was := recovered;
        if received[i].Some? {
          recovered := XorInto(recovered, received[i].value);
        }
        forall j | 0 <= j < |p|
          ensures recovered[j] == XorByte(p[j], XorPresent(received[..i + 1], j))
        {
          var term := if received[i].Some? then ByteAt(received[i].value, j) else 0;
          XorByteLaws(p[j], XorPresent(received[..i], j), term);
          XorByteLaws(was[j], 0, 0);
        }
      }
      assert received[..|received|] == received;
    }
  }
}
