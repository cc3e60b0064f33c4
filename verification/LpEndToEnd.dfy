/**
  A packet from the fragmentation of one face to the reassembler of another
  (csrc/iface/tx-proc.c, csrc/ndni/lp.c, csrc/iface/reassembler.c).
 */
module LpEndToEnd {
  import opened Common
  import opened Chain
  import opened Lp
  import R = Reassembler
  import RxProc
  import TxProc

  /** A packet to be sent in fragments. */
  datatype Job = Job(packet: Bytes, size: nat, l3: L3, base: nat) {

    /** It needs at least two fragments, and no more than the protocol allows. */
    predicate Valid() {
      && 0 < size < |packet| && TxProc.DivCeil(|packet|, size) <= MAX_FRAGMENTS && l3.Valid() && base < SEQ_MOD
      && size + TxProc.MAX_HEADER < 0x1_0000_0000
    }

    function Count(): (n: nat)
      requires Valid()
    {
      TxProc.FragCount(|packet|, size)
    }

    /** The `i`-th frame on the wire. */
    function Wire(i: nat): (b: Bytes)
      requires Valid()
    {
      EncodeFrame(Frame(l3, L2(base, i, Count()), TxProc.Piece(packet, size, i)))
    }

    function Message(): (m: R.Message)
      requires Valid()
    {
      R.Message(base, l3, TxProc.Sent(packet, size))
    }
  }

  lemma JobCount(j: Job)
    requires j.Valid()
    ensures 1 < j.Count() <= MAX_FRAGMENTS && j.Message().Valid() && |j.Message().payloads| == j.Count()
    ensures Concat(j.Message().payloads) == j.packet
    ensures forall i | 0 <= i < j.Count() :: j.Message().payloads[i] == TxProc.Piece(j.packet, j.size, i) && j.Message().payloads[i] != []
  {
    hide Concat, TxProc.Piece;
    TxProc.SentExactly(j.packet, j.size);
  }

  /** What is parsed from the wire is the fragment, whatever trailer follows it. */
  lemma WireParsed(j: Job, i: nat, trailer: Bytes)
    requires j.Valid() && i < j.Count()
    ensures i < |j.Message().payloads| && ParseFrame(j.Wire(i) + trailer) == Some(j.Message().Fragment(i))
    ensures R.Acceptable(j.Message().Fragment(i))
  {
    hide EncodeFrame, ParseFrame, Concat, TxProc.Sent;
    JobCount(j);
    var f := Frame(j.l3, L2(j.base, i, j.Count()), TxProc.Piece(j.packet, j.size, i));
    TxProc.FrameSize(f);
    FrameRoundTrip(f, trailer);
  }

  /** A frame that arrives: one of the job, or a fragment of another message. */
  datatype Arrival = Own(i: nat, trailer: Bytes) | Other(raw: Bytes) {

    predicate Valid(j: Job)
      requires j.Valid()
    {
      match this
      case Own(i, _) => i < j.Count()
      case Other(raw) => ParseFrame(raw).Some? && ParseFrame(raw).value.l2.fragCount > 1 && ParseFrame(raw).value.l2.seqNumBase != j.base
    }

    function Raw(j: Job): (b: Bytes)
      requires j.Valid()
    {
      match this
      case Own(i, trailer) => j.Wire(i) + trailer
      case Other(raw) => raw
    }
  }

  /** What is parsed from the arrivals. */
  ghost function Parsed(j: Job, es: seq<Arrival>): (r: seq<Frame>)
    requires j.Valid()
    ensures |r| == |es|
  {
    seq(|es|, k requires 0 <= k < |es| =>
      var f := ParseFrame(es[k].Raw(j)); if f.Some? then f.value else Frame(L3_NONE, L2_NONE, []))
  }

  lemma ParsedArrivals(j: Job, es: seq<Arrival>)
    requires j.Valid() && forall k | 0 <= k < |es| :: es[k].Valid(j)
    ensures R.Arrivals(j.Message(), Parsed(j, es))
    ensures forall k | 0 <= k < |es| && es[k].Own? :: es[k].i < |j.Message().payloads| && Parsed(j, es)[k] == j.Message().Fragment(es[k].i)
    ensures forall k | 0 <= k < |es| && es[k].Other? :: Parsed(j, es)[k].l2.seqNumBase != j.base
  {
    hide EncodeFrame, ParseFrame, Job.Wire, Job.Message;
    MessageBase(j);
    forall k | 0 <= k < |es| && es[k].Own?
      ensures es[k].i < |j.Message().payloads| && Parsed(j, es)[k] == j.Message().Fragment(es[k].i) && R.Acceptable(Parsed(j, es)[k])
    {
      WireParsed(j, es[k].i, es[k].trailer);
    }
    forall k | 0 <= k < |es| && es[k].Other? ensures R.Acceptable(Parsed(j, es)[k]) {
      RxProc.ParsedAcceptable(es[k].raw);
    }
  }

  lemma MessageBase(j: Job)
    requires j.Valid()
    ensures j.Message().base == j.base
  {
  }

  /** The fragments of a message, put together. */
  lemma PutTogether(j: Job, r: seq<Frame>)
    requires j.Valid() && |r| == |j.Message().payloads| && forall k | 0 <= k < |r| :: r[k] == j.Message().Fragment(k)
    ensures r != [] && r[0].l3 == j.l3 && Concat(RxProc.Payloads(r)) == j.packet
  {
    hide Concat, TxProc.Sent;
    JobCount(j);
    assert RxProc.Payloads(r) == j.Message().payloads;
  }

  /** Frames of the job and of other messages, after which a frame of the job is the last one missing. */
  ghost predicate Completes(j: Job, es: seq<Arrival>, last: Arrival)
    requires j.Valid()
  {
    && last.Own? && last.Valid(j) && (forall k | 0 <= k < |es| :: es[k].Valid(j))
    && R.Seen(j.base, Parsed(j, es)) != R.Indices(j.Count())
    && R.Seen(j.base, Parsed(j, es)) + {last.i} == R.Indices(j.Count())
  }

  /** Nothing of the packet is delivered before the last frame, which delivers it and its layer 3 fields. */
  ghost predicate DeliversPacket(j: Job, s: R.State, es: seq<Arrival>, last: Arrival)
    requires j.Valid()
  {
    && (forall k | 0 <= k < |es| :: R.Unrelated(R.Outputs(s, Parsed(j, es))[k], j.base))
    && ParseFrame(last.Raw(j)).Some?
    && var (s', r) := R.Accepted(R.Run(s, Parsed(j, es)), ParseFrame(last.Raw(j)).value);
       j.base !in s'.table && r != [] && r[0].l3 == j.l3 && Concat(RxProc.Payloads(r)) == j.packet
  }

  /**
    When the frames of a packet arrive in any order, with duplicates and trailers, between fragments
    of other messages, and the reassembler does not throw the packet out to make room, then nothing
    of it is delivered before its last missing frame, and that one delivers it.
   */
  lemma EndToEnd(j: Job, s: R.State, es: seq<Arrival>, last: Arrival)
    requires j.Valid() && R.Good(s) && j.base !in s.table && Completes(j, es, last)
    requires R.Kept(s, Parsed(j, es), j.base)
    ensures DeliversPacket(j, s, es, last)
  {
    hide R.Accepted, R.Good, R.Outputs, R.Run, R.Seen, R.Indices, R.Kept, Concat, ParseFrame, EncodeFrame, Job.Wire;
    JobCount(j);
    MessageBase(j);
    var all := es + [last];
    assert forall k | 0 <= k < |es| :: all[k] == es[k];
    ParsedArrivals(j, all);
    WireParsed(j, last.i, last.trailer);
    var f := ParseFrame(last.Raw(j)).value;
    assert Parsed(j, all) == Parsed(j, es) + [f];
    R.DeliversOnce(s, Parsed(j, es), f, j.Message());
    PutTogether(j, R.Accepted(R.Run(s, Parsed(j, es)), f).1);
  }

  /** It is delivered in every run with at most `capacity` messages open at a time, however many there are in all. */
  lemma EndToEndFewOpen(j: Job, s: R.State, es: seq<Arrival>, last: Arrival)
    requires j.Valid() && R.Good(s) && j.base !in s.table && Completes(j, es, last)
    requires R.NeverFull(s, Parsed(j, es))
    ensures DeliversPacket(j, s, es, last)
  {
    hide R.Good, R.Kept, R.NeverFull, Parsed, Completes, DeliversPacket;
    R.RoomKeeps(s, Parsed(j, es), j.base);
    EndToEnd(j, s, es, last);
  }

  /** It is delivered, whatever was left open before, when at most `capacity` messages arrive in all. */
  lemma EndToEndFewMessages(j: Job, s: R.State, es: seq<Arrival>, last: Arrival)
    requires j.Valid() && R.Good(s) && j.base !in s.table && Completes(j, es, last)
    requires |R.Bases(Parsed(j, es)) + {j.base}| <= s.capacity
    ensures DeliversPacket(j, s, es, last)
  {
    hide R.Good, R.Kept, R.Bases, R.Seen, R.Indices, DeliversPacket, ParseFrame, EncodeFrame, Job.Wire;
    ParsedArrivals(j, es);
    R.FewMessagesKeep(s, Parsed(j, es), j.base);
    EndToEnd(j, s, es, last);
  }
}
