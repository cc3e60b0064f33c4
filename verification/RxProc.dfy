/** Incoming frames: parsing, reassembly and counters (csrc/iface/rx-proc.c, iface/counters.go). */
module RxProc {
  import opened Common
  import opened Chain
  import opened Tlv
  import opened Lp
  import R = Reassembler

  datatype PktType = Interest | Data | Nack

  /** The network layer parser: what kind of packet the bytes are, if they are one. */
  type ParseL3 = (L3, Bytes) -> Option<PktType>

  datatype Delivered = Delivered(kind: PktType, l3: L3, payload: Bytes)

  datatype Counters = Counters(nInterests: int, nData: int, nNacks: int, nDecodeErr: int)

  /** One more packet of a kind, or one more that is none. */
  function Tally(c: Counters, kind: Option<PktType>): Counters {
    match kind
    case None => c.(nDecodeErr := c.nDecodeErr + 1)
    case Some(Interest) => c.(nInterests := c.nInterests + 1)
    case Some(Data) => c.(nData := c.nData + 1)
    case Some(Nack) => c.(nNacks := c.nNacks + 1)
  }

  function Payloads(fs: seq<Frame>): (r: seq<Bytes>) {
    seq(|fs|, i requires 0 <= i < |fs| => fs[i].payload)
  }

  /** What the parser accepts has fields within their bounds. */
  lemma {:induction false} FieldsBounded(f: Fields, b: Bytes)
    requires f.fragIndex < MAX_FRAGMENTS && f.fragCount <= MAX_FRAGMENTS
    ensures var r := ParseFields(f, b); r.Some? ==> r.value.0.fragIndex < MAX_FRAGMENTS && r.value.0.fragCount <= MAX_FRAGMENTS
    decreases |b|
  {
    hide DecodeTL, First, AfterFirst, ParseNack, DecodeNni;
    if DecodeTL(b).kind != 0 && First(b).kind != TT_LP_PAYLOAD {
      var f' := Interpret(f, First(b));
      if f'.Some? {
        FieldsBounded(f'.value, AfterFirst(b));
      }
    }
  }

  lemma ParsedAcceptable(b: Bytes)
    requires ParseFrame(b).Some? && ParseFrame(b).value.l2.fragCount > 1
    ensures R.Acceptable(ParseFrame(b).value)
  {
    hide ParseFields, DecodeTL;
    var tl := DecodeTL(b);
    if tl.kind == TT_LP_PACKET {
      FieldsBounded(INIT, b[tl.size..tl.size + tl.length]);
    }
  }

  class RxProc {
    const reass: R.Reassembler
    var nOctets: int
    var nInterests: int
    var nData: int
    var nNacks: int
    var nDecodeErr: int
    /** How many frames have been given to `Input`. */
    ghost var nInput: int

    constructor (capacity: nat)
      requires capacity >= 1
      ensures Valid() && nInput == 0 && fresh(reass) && reass.capacity == capacity
    {
      reass := new R.Reassembler(capacity);
      nOctets, nInterests, nData, nNacks, nDecodeErr, nInput := 0, 0, 0, 0, 0, 0;
    }

    /** The number of frames, as the face reports it. */
    function RxFrames(): (n: int)
      reads this, reass
    {
      nInterests + nData + nNacks - reass.nDeliverPackets + reass.nDeliverFragments + reass.nDropFragments
    }

    ghost function View(): (c: Counters)
      reads this
    {
      Counters(nInterests, nData, nNacks, nDecodeErr)
    }

    /** The fragments that wait in the reassembler. */
    ghost function Held(): (n: nat)
      reads reass
    {
      R.Held(reass.list, reass.table)
    }

    /** Every frame has been counted once. */
    ghost predicate Conserved()
      reads this, reass
    {
      nInput == RxFrames() + nDecodeErr + Held()
    }

    ghost predicate Valid()
      reads this, reass
    {
      reass.Valid() && Conserved()
    }

    method Count(kind: PktType)
      modifies this
      ensures View() == Tally(old(View()), Some(kind)) && unchanged(this`nInput, this`nOctets)
    {
      match kind
      case Interest => nInterests := nInterests + 1;
      case Data => nData := nData + 1;
      case Nack => nNacks := nNacks + 1;
    }

    /** A network layer packet, whole or reassembled. */
    method Finish(l3: L3, payload: Bytes, parse: ParseL3) returns (r: Option<Delivered>)
      modifies this
      ensures r == var k := parse(l3, payload); if k.Some? then Some(Delivered(k.value, l3, payload)) else None
      ensures View() == Tally(old(View()), parse(l3, payload)) && unchanged(this`nInput, this`nOctets)
    {
      var kind := parse(l3, payload);
      if kind.None? {
        nDecodeErr := nDecodeErr + 1;
        return None;
      }
      Count(kind.value);
      r := Some(Delivered(kind.value, l3, payload));
    }

    /** An incoming frame. */
    method Input(frame: Bytes, parse: ParseL3) returns (r: Option<Delivered>)
      requires Valid()
      modifies this, reass
      ensures Valid() && nInput == old(nInput) + 1 && nOctets == old(nOctets) + |frame|
      ensures ParseFrame(frame).None? ==> r == None && reass.View() == old(reass.View()) && View() == Tally(old(View()), None)
      ensures ParseFrame(frame).Some? ==> var f := ParseFrame(frame).value;
        if f.payload == [] then
          r == None && reass.View() == old(reass.View()) && View() == Tally(old(View()), None)
        else if f.l2.fragCount <= 1 then
          && reass.View() == old(reass.View()) && View() == Tally(old(View()), parse(f.l3, f.payload))
          && r == var k := parse(f.l3, f.payload); if k.Some? then Some(Delivered(k.value, f.l3, f.payload)) else None
        else
          var (s, whole) := R.Accepted(old(reass.View()), f);
          && reass.View() == s
          && r == (if whole == [] then None else Whole(whole, parse))
          && View() == if whole == [] then old(View()) else Tally(old(View()), parse(whole[0].l3, Concat(Payloads(whole))))
    {
      hide ParseFrame, R.Accepted, R.Good, R.Held, Concat;
      nInput, nOctets := nInput + 1, nOctets + |frame|;
      var f := ParseFrame(frame);
      if f.None? || f.value.payload == [] {
        nDecodeErr := nDecodeErr + 1;
        return None;
      }
      if f.value.l2.fragCount <= 1 {
        r := Finish(f.value.l3, f.value.payload, parse);
        return;
      }
      ParsedAcceptable(frame);
      ghost var s := reass.View();
      R.AcceptReceived(s, f.value);
      DeliveredOne(s, f.value);
      var whole := reass.Accept(f.value);
      if whole == [] {
        return None;
      }
      r := Finish(whole[0].l3, Concat(Payloads(whole)), parse);
    }

    /** Every frame of a run is counted once: reported, a decode error, or waiting in the reassembler. */
    method Run(frames: seq<Bytes>, parse: ParseL3)
      requires Valid()
      modifies this, reass
      ensures Valid() && nInput == old(nInput) + |frames|
      ensures nInput == RxFrames() + nDecodeErr + Held()
    {
      hide R.Good, R.Held, R.Accepted, ParseFrame;
      for i := 0 to |frames|
        invariant Valid() && nInput == old(nInput) + i
      {
        var r := Input(frames[i], parse);
      }
    }
  }

  /** What becomes of a whole message. */
  function Whole(fs: seq<Frame>, parse: ParseL3): (r: Option<Delivered>)
    requires fs != []
  {
    var l3, payload := fs[0].l3, Concat(Payloads(fs));
    var k := parse(l3, payload);
    if k.Some? then Some(Delivered(k.value, l3, payload)) else None
  }

  /** The reassembler counts a packet as delivered exactly when it delivers one. */
  lemma DeliveredOne(s: R.State, f: Frame)
    requires R.Good(s) && R.Acceptable(f)
    ensures var (s', whole) := R.Accepted(s, f);
      s'.nDeliverPackets == s.nDeliverPackets + if whole == [] then 0 else 1
  {
    hide R.Extend, R.Ordered, R.Begin;
    if f.l2.seqNumBase in s.table {
      R.SameCount(s.table[f.l2.seqNumBase], f);
    }
  }
}
