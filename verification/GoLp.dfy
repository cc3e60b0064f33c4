/**
  Fragmentation and reassembly in the Go library (ndn/lp.go), and their agreement with the
  reassembler of the data plane (csrc/iface/reassembler.c).
 */
module GoLp {
  import opened Common
  import opened Lists
  import opened Chain
  import opened Lp
  import R = Reassembler
  import RxProc

  // ------------------------------------------------------------------ fragmentation

  datatype Fragments = Whole | Error | Parts(payloads: seq<Bytes>)

  /** The payloads after the first one: as much as there is room for. */
  function Chunks(b: Bytes, room: nat): (r: seq<Bytes>)
    requires room > 0
  {
    if b == [] then [] else [b[..Min(room, |b|)]] + Chunks(b[Min(room, |b|)..], room)
  }

  /** How a packet is cut, when the first fragment also carries a header. */
  function Cut(header: nat, payload: Bytes, room: int): (r: Fragments) {
    var first := room - header;
    if first > |payload| then Whole
    else if first <= 0 then Error
    else Parts([payload[..first]] + Chunks(payload[first..], room))
  }

  lemma ConcatNil()
    ensures Concat([]) == []
  {
  }

  lemma ConcatCons(x: Bytes, rest: seq<Bytes>)
    ensures Concat([x] + rest) == x + Concat(rest)
  {
    assert ([x] + rest)[1..] == rest;
  }

  lemma {:induction false} ChunksConcat(b: Bytes, room: nat)
    requires room > 0
    ensures Concat(Chunks(b, room)) == b && forall i | 0 <= i < |Chunks(b, room)| :: 0 < |Chunks(b, room)[i]| <= room
    decreases |b|
  {
    hide Concat;
    if b == [] {
      assert Concat([]) == [] by { ConcatNil(); }
    } else {
      var k := Min(room, |b|);
      ChunksConcat(b[k..], room);
      ConcatCons(b[..k], Chunks(b[k..], room));
    }
  }

  /** The fragments make up the payload, none is empty, and each fits, the first one with the header. */
  lemma CutConcat(header: nat, payload: Bytes, room: int)
    requires Cut(header, payload, room).Parts?
    ensures var ps := Cut(header, payload, room).payloads;
      && ps != [] && Concat(ps) == payload && header + |ps[0]| <= room
      && forall i | 0 <= i < |ps| :: 0 < |ps[i]| <= room
    ensures |Cut(header, payload, room).payloads| == 1 <==> room - header == |payload|
  {
    var first := room - header;
    ChunksConcat(payload[first..], room);
    var ps := Cut(header, payload, room).payloads;
    assert ps[1..] == Chunks(payload[first..], room);
    assert payload == payload[..first] + payload[first..];
  }

  /** The message that the fragmenter makes of a payload that it cuts. */
  function Fragmentation(l3: L3, header: nat, payload: Bytes, room: int, seqNum: nat): (msg: R.Message)
    requires Cut(header, payload, room).Parts?
  {
    R.Message(seqNum, l3, Cut(header, payload, room).payloads)
  }

  class LpFragmenter {
    var nextSeqNum: nat
    const room: int

    constructor (seqNum: nat, room: int)
      ensures nextSeqNum == seqNum && this.room == room
    {
      nextSeqNum, this.room := seqNum, room;
    }

    /** Fragment a packet; the frames have consecutive sequence numbers. */
    method Fragment(l3: L3, header: nat, payload: Bytes) returns (r: Fragments, frames: seq<Frame>)
      requires nextSeqNum < SEQ_MOD
      modifies this
      ensures r == Cut(header, payload, room)
      ensures !r.Parts? ==> frames == [] && nextSeqNum == old(nextSeqNum)
      ensures r.Parts? ==>
        && |frames| == |r.payloads| && nextSeqNum == (old(nextSeqNum) + |frames|) % SEQ_MOD
        && forall i | 0 <= i < |frames| :: frames[i] == Fragmentation(l3, header, payload, room, old(nextSeqNum)).Fragment(i)
    {
      r := CutLoop(header, payload, room);
      frames := [];
      if !r.Parts? {
        return;
      }
      var ps := r.payloads;
      var base := nextSeqNum;
      for i := 0 to |ps|
        invariant |frames| == i && nextSeqNum == (base + i) % SEQ_MOD
        invariant forall k | 0 <= k < i :: frames[k] == Frame(if k == 0 then l3 else L3_NONE, L2(base, k, |ps|), ps[k])
      {
        frames := frames + [Frame(if i == 0 then l3 else L3_NONE, L2(base, i, |ps|), ps[i])];
        nextSeqNum := (nextSeqNum + 1) % SEQ_MOD;
      }
    }
  }

  /** Cut a packet, chunk by chunk. */
  method CutLoop(header: nat, payload: Bytes, room: int) returns (r: Fragments)
    ensures r == Cut(header, payload, room)
  {
    var first := room - header;
    if first > |payload| {
      return Whole;
    }
    if first <= 0 {
      return Error;
    }
    var ps := [payload[..first]];
    var offset := first;
    while offset < |payload|
      invariant first <= offset <= |payload|
      invariant ps + Chunks(payload[offset..], room) == [payload[..first]] + Chunks(payload[first..], room)
    {
      var next := if offset + room > |payload| then |payload| else offset + room;
      ghost var tail := payload[offset..];
      assert tail[..next - offset] == payload[offset..next] && tail[next - offset..] == payload[next..];
      assert ps + ([payload[offset..next]] + Chunks(payload[next..], room)) == (ps + [payload[offset..next]]) + Chunks(payload[next..], room);
      ps := ps + [payload[offset..next]];
      offset := next;
    }
    assert ps + [] == ps;
    r := Parts(ps);
  }

  // ------------------------------------------------------------------ reassembly of one packet

  /** A fragment as it is decoded: its payload is nil if there is no LpPayload in it. */
  datatype Fragment = Fragment(l3: L3, l2: L2, payload: Option<Bytes>) {

    predicate Valid() {
      l2.fragIndex < l2.fragCount && 1 < l2.fragCount
    }

    /** The frame as the data plane has it. */
    function Frame(): (f: Frame) {
      Lp.Frame(l3, l2, if payload.Some? then payload.value else [])
    }
  }

  /** A frame that arrives with its payload. */
  function Decoded(f: Frame): (g: Fragment) {
    Fragment(f.l3, f.l2, Some(f.payload))
  }

  /** A partial packet: a slot for every fragment, which is nil until it has been filled. */
  datatype Partial = Partial(l3: L3, buffer: seq<Option<Bytes>>, accepted: nat)

  datatype Outcome = Waiting(pp: Partial) | Discard | Ignore | Full(l3: L3, payload: Bytes)

  function AcceptOne(pp: Partial, g: Fragment): (r: Partial)
    requires g.l2.fragIndex < |pp.buffer|
  {
    Partial(if g.l2.fragIndex == 0 then g.l3 else pp.l3, pp.buffer[g.l2.fragIndex := g.payload], pp.accepted + 1)
  }

  /** The first fragment of a packet. */
  function Begin(g: Fragment): (r: Partial)
    requires g.Valid()
  {
    AcceptOne(Partial(L3_NONE, seq(g.l2.fragCount, _ => None), 0), g)
  }

  function Values(buffer: seq<Option<Bytes>>): (r: seq<Bytes>) {
    seq(|buffer|, i requires 0 <= i < |buffer| => if buffer[i].Some? then buffer[i].value else [])
  }

  /** Another fragment. */
  function Accept(pp: Partial, g: Fragment): (r: Outcome)
    requires g.Valid()
  {
    if g.l2.fragCount != |pp.buffer| then
      Discard
    else if pp.buffer[g.l2.fragIndex].Some? then
      Ignore
    else
      var pp' := AcceptOne(pp, g);
      if pp'.accepted == |pp'.buffer| then Full(pp'.l3, Concat(Values(pp'.buffer))) else Waiting(pp')
  }

  // ------------------------------------------------------------------ the two reassemblers agree

  /** The two forms of a partial message hold the same fragments. */
  ghost predicate Same(pp: Partial, pm: R.Partial) {
    && |pp.buffer| == pm.fragCount && pp.accepted == |pm.frags|
    && (forall i: nat | i < pm.fragCount :: pp.buffer[i].Some? <==> i in pm.frags)
    && (forall i: nat | i < pm.fragCount && i in pm.frags :: pp.buffer[i].value == pm.frags[i].payload)
    && pp.l3 == if 0 in pm.frags then pm.frags[0].l3 else L3_NONE
  }

  /** They begin alike exactly if the fragment has a payload. */
  lemma BeginSame(g: Fragment)
    requires R.Acceptable(g.Frame())
    ensures Same(Begin(g), R.Begin(g.Frame())) <==> g.payload.Some?
  {
    assert |R.Begin(g.Frame()).frags| == 1;
    assert g.l2.fragIndex in R.Begin(g.Frame()).frags;
  }

  /** They take one more fragment alike exactly if it has a payload. */
  lemma AcceptOneSame(pp: Partial, pm: R.Partial, g: Fragment)
    requires Same(pp, pm) && pm.Valid(g.l2.seqNumBase) && R.Acceptable(g.Frame())
    requires g.l2.fragCount == pm.fragCount && g.l2.fragIndex in pm.missing
    ensures Same(AcceptOne(pp, g), R.Extend(pm, g.Frame())) <==> g.payload.Some?
  {
    R.ExtendSize(pm, g.Frame());
    assert g.l2.fragIndex in R.Extend(pm, g.Frame()).frags;
  }

  /** A partial message is complete in one form exactly if it is in the other. */
  lemma CompleteSame(pm: R.Partial, f: Frame)
    requires pm.Valid(f.l2.seqNumBase) && f.l2.fragCount == pm.fragCount && f.l2.fragIndex in pm.missing
    ensures |R.Extend(pm, f).frags| == pm.fragCount <==> R.Extend(pm, f).missing == {}
  {
    R.ExtendSize(pm, f);
    var pm' := R.Extend(pm, f);
    if pm'.missing != {} {
      R.ExtendValid(pm, f);
      R.HeldByBitmap(pm', f.l2.seqNumBase);
    }
  }

  /** A fragment that is ignored leaves the partial packet as it was. */
  function Settled(pp: Partial, g: Fragment): (r: Outcome)
    requires g.Valid()
  {
    if Accept(pp, g) == Ignore then Waiting(pp) else Accept(pp, g)
  }

  /** What the data plane makes of another fragment of an open message. */
  datatype Fate = Open(pm: R.Partial) | GivenUp | Complete(frames: seq<Frame>)

  function Fragmented(pm: R.Partial, f: Frame): (r: Fate) {
    if pm.fragCount != f.l2.fragCount then GivenUp
    else if f.l2.fragIndex !in pm.missing then Open(pm)
    else if R.Extend(pm, f).missing != {} then Open(R.Extend(pm, f))
    else Complete(R.Chained(R.Extend(pm, f)))
  }

  /** It is what the reassembler of the data plane does. */
  lemma FragmentedIs(s: R.State, f: Frame)
    requires f.l2.seqNumBase in s.table
    ensures match Fragmented(s.table[f.l2.seqNumBase], f)
      case Open(pm) => f.l2.seqNumBase in R.Accepted(s, f).0.table && R.Accepted(s, f).0.table[f.l2.seqNumBase] == pm && R.Accepted(s, f).1 == []
      case GivenUp => f.l2.seqNumBase !in R.Accepted(s, f).0.table && R.Accepted(s, f).1 == []
      case Complete(frames) => f.l2.seqNumBase !in R.Accepted(s, f).0.table && R.Accepted(s, f).1 == frames
  {
  }

  /** The outcomes correspond: both wait with the same fragments, give up, or deliver the same packet. */
  ghost predicate Alike(go: Outcome, c: Fate) {
    match c
    case Open(pm) => go.Waiting? && Same(go.pp, pm)
    case GivenUp => go == Discard
    case Complete(frames) => frames != [] && go == Full(frames[0].l3, Concat(RxProc.Payloads(frames)))
  }

  /** The Go reassembler and the one of the data plane treat a fragment with a payload alike. */
  lemma ReassemblersAgree(pp: Partial, pm: R.Partial, g: Fragment)
    requires Same(pp, pm) && pm.Valid(g.l2.seqNumBase) && R.Acceptable(g.Frame()) && g.payload.Some?
    ensures Alike(Settled(pp, g), Fragmented(pm, g.Frame()))
  {
    hide Concat;
    var f := g.Frame();
    if pm.fragCount == f.l2.fragCount && f.l2.fragIndex in pm.missing {
      AcceptOneSame(pp, pm, g);
      CompleteSame(pm, f);
      var pp', pm' := AcceptOne(pp, g), R.Extend(pm, f);
      if pm'.missing == {} {
        forall i: nat | i < pm.fragCount ensures i in pm'.frags {
          assert i !in pm'.missing;
        }
        assert Values(pp'.buffer) == RxProc.Payloads(R.Chained(pm'));
      }
    }
  }

  function AcceptAll(pp: Partial, gs: seq<Fragment>): (r: Outcome)
    requires forall i | 0 <= i < |gs| :: gs[i].Valid()
    decreases |gs|
  {
    if gs == [] then Waiting(pp)
    else match Settled(pp, gs[0])
      case Waiting(pp') => AcceptAll(pp', gs[1..])
      case other => other
  }

  function FragmentedAll(pm: R.Partial, gs: seq<Fragment>): (r: Fate)
    decreases |gs|
  {
    if gs == [] then Open(pm)
    else match Fragmented(pm, gs[0].Frame())
      case Open(pm') => FragmentedAll(pm', gs[1..])
      case other => other
  }

  ghost predicate OfMessage(base: nat, gs: seq<Fragment>) {
    forall i | 0 <= i < |gs| :: gs[i].l2.seqNumBase == base && R.Acceptable(gs[i].Frame()) && gs[i].payload.Some?
  }

  lemma {:induction false} AgreeOn(pp: Partial, pm: R.Partial, base: nat, gs: seq<Fragment>)
    requires Same(pp, pm) && pm.Valid(base) && OfMessage(base, gs)
    ensures Alike(AcceptAll(pp, gs), FragmentedAll(pm, gs))
    decreases |gs|
  {
    hide Same, Settled, Fragmented, Concat;
    if gs != [] {
      ReassemblersAgree(pp, pm, gs[0]);
      match Fragmented(pm, gs[0].Frame()) {
        case Open(pm') =>
          FragmentedValid(pm, gs[0].Frame());
          AgreeOn(Settled(pp, gs[0]).pp, pm', base, gs[1..]);
        case _ =>
      }
    }
  }

  lemma FragmentedValid(pm: R.Partial, f: Frame)
    requires pm.Valid(f.l2.seqNumBase) && R.Acceptable(f)
    ensures Fragmented(pm, f).Open? ==> Fragmented(pm, f).pm.Valid(f.l2.seqNumBase)
  {
    if pm.fragCount == f.l2.fragCount && f.l2.fragIndex in pm.missing && R.Extend(pm, f).missing != {} {
      R.ExtendValid(pm, f);
    }
  }

  /** From the first fragment of a message on, they agree on all of its fragments. */
  lemma AgreeFromStart(g: Fragment, gs: seq<Fragment>)
    requires OfMessage(g.l2.seqNumBase, [g]) && OfMessage(g.l2.seqNumBase, gs)
    ensures g.Valid() && Alike(AcceptAll(Begin(g), gs), FragmentedAll(R.Begin(g.Frame()), gs))
  {
    hide Same, Begin, R.Begin;
    assert [g][0] == g;
    BeginSame(g);
    R.BeginValid(g.Frame());
    AgreeOn(Begin(g), R.Begin(g.Frame()), g.l2.seqNumBase, gs);
  }

  /**
    A first fragment without a payload, of two, arrives twice: it is counted twice, and the packet is
    complete although its second fragment has never been seen.
   */
  lemma NilCountsTwice(base: nat, l3: L3)
    ensures var g := Fragment(l3, L2(base, 0, 2), None);
      AcceptAll(Begin(g), [g]) == Full(l3, []) && FragmentedAll(R.Begin(g.Frame()), [g]) == Open(R.Begin(g.Frame()))
  {
    var g := Fragment(l3, L2(base, 0, 2), None);
    var none: seq<Bytes> := [[], []];
    assert Values(AcceptOne(Begin(g), g).buffer) == none;
    assert none[1..][1..] == [];
    assert Concat(none[1..]) == [] && Concat(none) == [];
    assert Accept(Begin(g), g) == Full(l3, []);
    assert 0 !in R.Begin(g.Frame()).missing;
    assert Fragmented(R.Begin(g.Frame()), g.Frame()) == Open(R.Begin(g.Frame()));
    assert [g][1..] == [];
  }

  // ------------------------------------------------------------------ the reassembler

  /** The partial packets, and their keys, the least recently used first. */
  datatype Reass = Reass(pms: map<nat, Partial>, order: seq<nat>, capacity: nat)

  const EMPTY := Partial(L3_NONE, [], 0)

  /** The partial packet of a fragment: found and made the most recent one, or added in place of the oldest one. */
  function Got(s: Reass, base: nat): (r: Reass) {
    if base in s.pms then
      s.(order := Without(s.order, base) + [base])
    else
      var s' := if s.order != [] && |s.order| >= s.capacity then s.(pms := s.pms - {s.order[0]}, order := s.order[1..]) else s;
      s'.(pms := s'.pms[base := EMPTY], order := s'.order + [base])
  }

  function Removed(s: Reass, base: nat): (r: Reass) {
    s.(pms := s.pms - {base}, order := Without(s.order, base))
  }

  /** What becomes of an arriving fragment, and the packet that it completes. */
  function Step(s: Reass, g: Fragment): (r: (Reass, Option<(L3, Bytes)>))
    requires g.Valid()
  {
    var base := g.l2.seqNumBase;
    var s' := Got(s, base);
    var pp := s'.pms[base];
    if pp.accepted == 0 then
      (s'.(pms := s'.pms[base := Begin(g)]), None)
    else
      match Accept(pp, g)
      case Waiting(pp') => (s'.(pms := s'.pms[base := pp']), None)
      case Ignore => (s', None)
      case Discard => (Removed(s', base), None)
      case Full(l3, payload) => (Removed(s', base), Some((l3, payload)))
  }

  class LpReassembler {
    var pms: map<nat, Partial>
    var order: seq<nat>
    const capacity: nat

    constructor (capacity: nat)
      ensures View() == Reass(map[], [], capacity)
    {
      pms, order, this.capacity := map[], [], capacity;
    }

    ghost function View(): (s: Reass)
      reads this
    {
      Reass(pms, order, capacity)
    }

    /** Look up a key, which becomes the most recent one; a new key may throw the oldest one out. */
    method Get(base: nat) returns (pp: Partial)
      modifies this
      ensures View() == Got(old(View()), base) && pp == pms[base]
    {
      if base in pms {
        order := Without(order, base) + [base];
      } else {
        if order != [] && |order| >= capacity {
          pms, order := pms - {order[0]}, order[1..];
        }
        pms, order := pms[base := EMPTY], order + [base];
      }
      pp := pms[base];
    }

    /** Process a fragment; the packet that it completes is returned. */
    method Accept(g: Fragment) returns (full: Option<(L3, Bytes)>)
      requires g.Valid()
      modifies this
      ensures (View(), full) == Step(old(View()), g)
    {
      hide Without, Concat, Got;
      var base := g.l2.seqNumBase;
      var pp := Get(base);
      if pp.accepted == 0 {
        pms := pms[base := Begin(g)];
        return None;
      }
      if g.l2.fragCount != |pp.buffer| {
        pms, order := pms - {base}, Without(order, base);
        return None;
      }
      if pp.buffer[g.l2.fragIndex].Some? {
        return None;
      }
      pp := AcceptOne(pp, g);
      if pp.accepted == |pp.buffer| {
        full := Some((pp.l3, Concat(Values(pp.buffer))));
        pms, order := pms - {base}, Without(order, base);
        return;
      }
      pms := pms[base := pp];
      return None;
    }
  }

  /** The partial packet that has exactly the given fragments. */
  ghost function Holding(msg: R.Message, seen: set<nat>): (pp: Partial) {
    Partial(if 0 in seen then msg.l3 else L3_NONE,
            seq(|msg.payloads|, i requires 0 <= i < |msg.payloads| => if i in seen then Some(msg.payloads[i]) else None),
            |seen|)
  }

  ghost predicate Progress(s: Reass, msg: R.Message, seen: set<nat>) {
    && seen < R.Indices(|msg.payloads|)
    && if seen == {} then msg.base !in s.pms else msg.base in s.pms && s.pms[msg.base] == Holding(msg, seen)
  }

  /** The arrival throws a partial packet out. */
  predicate Evicts(s: Reass, g: Fragment, base: nat) {
    g.l2.seqNumBase !in s.pms && |s.order| >= s.capacity && s.order != [] && s.order[0] == base
  }

  lemma OtherArrival(s: Reass, g: Fragment, base: nat)
    requires g.Valid() && g.l2.seqNumBase != base && !Evicts(s, g, base)
    ensures var s' := Step(s, g).0; base in s'.pms <==> base in s.pms
    ensures base in s.pms ==> Step(s, g).0.pms[base] == s.pms[base]
  {
    hide Accept;
  }

  lemma Subset(seen: set<nat>, n: nat)
    requires seen <= R.Indices(n)
    ensures |seen| <= n && (|seen| == n <==> seen == R.Indices(n))
  {
    assert R.Indices(n) == seen + (R.Indices(n) - seen);
    assert |R.Indices(n)| == |seen| + |R.Indices(n) - seen|;
    if |seen| == n { assert R.Indices(n) - seen == {}; }
  }

  /** One more fragment fills one more slot. */
  lemma HoldMore(msg: R.Message, seen: set<nat>, i: nat)
    requires seen <= R.Indices(|msg.payloads|) && i < |msg.payloads| && i !in seen
    ensures AcceptOne(Holding(msg, seen), Decoded(msg.Fragment(i))) == Holding(msg, seen + {i})
  {
    var a, b := AcceptOne(Holding(msg, seen), Decoded(msg.Fragment(i))), Holding(msg, seen + {i});
    assert |seen + {i}| == |seen| + 1;
    assert forall k | 0 <= k < |msg.payloads| :: a.buffer[k] == b.buffer[k];
    assert a.buffer == b.buffer;
  }

  lemma BeginHolding(msg: R.Message, i: nat)
    requires 1 < |msg.payloads| && i < |msg.payloads|
    ensures Begin(Decoded(msg.Fragment(i))) == Holding(msg, {i})
  {
    HoldMore(msg, {}, i);
    assert {} + {i} == {i};
    assert Holding(msg, {}) == Partial(L3_NONE, seq(|msg.payloads|, _ => None), 0);
  }

  lemma AllValues(msg: R.Message)
    ensures Values(Holding(msg, R.Indices(|msg.payloads|)).buffer) == msg.payloads
  {
  }

  /** A fragment of the message, when it does not complete it. */
  lemma OwnArrival(s: Reass, msg: R.Message, seen: set<nat>, i: nat)
    requires 1 < |msg.payloads| && Progress(s, msg, seen) && i < |msg.payloads| && seen + {i} != R.Indices(|msg.payloads|)
    ensures var r := Step(s, Decoded(msg.Fragment(i))); r.1 == None && Progress(r.0, msg, seen + {i})
  {
    hide R.Indices, Without, Holding, Begin;
    var n, g := |msg.payloads|, Decoded(msg.Fragment(i));
    Subset(seen + {i}, n);
    if seen == {} {
      BeginHolding(msg, i);
      assert seen + {i} == {i};
    } else {
      HoldingShape(msg, seen);
      if i in seen {
        assert seen + {i} == seen;
      } else {
        HoldMore(msg, seen, i);
        HoldingShape(msg, seen + {i});
      }
    }
  }

  lemma HoldingShape(msg: R.Message, seen: set<nat>)
    requires seen <= R.Indices(|msg.payloads|)
    ensures var pp := Holding(msg, seen);
      && |pp.buffer| == |msg.payloads| && pp.accepted == |seen| && (seen != {} ==> pp.accepted > 0)
      && (forall i: nat | i < |msg.payloads| :: pp.buffer[i].Some? <==> i in seen)
      && (0 in R.Indices(|msg.payloads|) && 0 in seen ==> pp.l3 == msg.l3)
  {
  }

  /** The last missing fragment completes the message. */
  lemma LastArrival(s: Reass, msg: R.Message, seen: set<nat>, i: nat)
    requires 1 < |msg.payloads| && Progress(s, msg, seen) && i < |msg.payloads| && seen + {i} == R.Indices(|msg.payloads|)
    ensures var r := Step(s, Decoded(msg.Fragment(i)));
      r.1 == Some((msg.l3, Concat(msg.payloads))) && msg.base !in r.0.pms
  {
    hide Without, Holding, Begin, Concat, R.Indices;
    var n := |msg.payloads|;
    assert 0 in R.Indices(n) && 1 in R.Indices(n);
    assert i in seen ==> seen + {i} == seen;
    assert seen != {};
    HoldingShape(msg, seen);
    HoldMore(msg, seen, i);
    HoldingShape(msg, R.Indices(n));
    Subset(R.Indices(n), n);
    AllValues(msg);
  }

  // ------------------------------------------------------------------ the round trip

  ghost function Run(s: Reass, gs: seq<Fragment>): (r: Reass)
    requires forall i | 0 <= i < |gs| :: gs[i].Valid()
    decreases |gs|
  {
    if gs == [] then s else Run(Step(s, gs[0]).0, gs[1..])
  }

  /** In the run, no arrival throws the packet out. */
  ghost predicate Kept(s: Reass, gs: seq<Fragment>, base: nat)
    requires forall i | 0 <= i < |gs| :: gs[i].Valid()
    decreases |gs|
  {
    gs == [] || (!Evicts(s, gs[0], base) && Kept(Step(s, gs[0]).0, gs[1..], base))
  }

  /** Whenever a packet begins, there is room for it. */
  ghost predicate NeverFull(s: Reass, gs: seq<Fragment>)
    requires forall i | 0 <= i < |gs| :: gs[i].Valid()
    decreases |gs|
  {
    gs == [] || ((gs[0].l2.seqNumBase in s.pms || |s.order| < s.capacity) && NeverFull(Step(s, gs[0]).0, gs[1..]))
  }

  lemma {:induction false} RoomKeeps(s: Reass, gs: seq<Fragment>, base: nat)
    requires forall i | 0 <= i < |gs| :: gs[i].Valid()
    requires NeverFull(s, gs)
    ensures Kept(s, gs, base)
    decreases |gs|
  {
    hide Step;
    if gs != [] {
      RoomKeeps(Step(s, gs[0]).0, gs[1..], base);
    }
  }

  /** No fragment of the message completes a packet in the run. */
  ghost predicate Quiet(s: Reass, gs: seq<Fragment>, base: nat)
    requires forall i | 0 <= i < |gs| :: gs[i].Valid()
    decreases |gs|
  {
    gs == [] || ((gs[0].l2.seqNumBase == base ==> Step(s, gs[0]).1 == None) && Quiet(Step(s, gs[0]).0, gs[1..], base))
  }

  /** All arrivals are fragments, and those with the base of the message are fragments of that message. */
  ghost predicate Arrivals(msg: R.Message, gs: seq<Fragment>) {
    forall i | 0 <= i < |gs| ::
      && gs[i].Valid()
      && (gs[i].l2.seqNumBase == msg.base ==> gs[i].l2.fragIndex < |msg.payloads| && gs[i] == Decoded(msg.Fragment(gs[i].l2.fragIndex)))
  }

  function Seen(base: nat, gs: seq<Fragment>): (r: set<nat>) {
    if gs == [] then {} else (if gs[0].l2.seqNumBase == base then {gs[0].l2.fragIndex} else {}) + Seen(base, gs[1..])
  }

  lemma {:induction false} SeenBound(msg: R.Message, gs: seq<Fragment>)
    requires Arrivals(msg, gs)
    ensures Seen(msg.base, gs) <= R.Indices(|msg.payloads|)
  {
    if gs != [] {
      SeenBound(msg, gs[1..]);
    }
  }

  lemma {:induction false} Underway(s: Reass, gs: seq<Fragment>, msg: R.Message, seen: set<nat>)
    requires 1 < |msg.payloads| && Arrivals(msg, gs) && Progress(s, msg, seen) && Kept(s, gs, msg.base)
    requires seen + Seen(msg.base, gs) != R.Indices(|msg.payloads|)
    ensures Progress(Run(s, gs), msg, seen + Seen(msg.base, gs)) && Quiet(s, gs, msg.base)
    decreases |gs|
  {
    hide Step, Progress, Evicts, R.Indices;
    if gs == [] {
      assert seen + Seen(msg.base, gs) == seen;
    } else {
      var g, rest := gs[0], Seen(msg.base, gs[1..]);
      if g.l2.seqNumBase == msg.base {
        var i := g.l2.fragIndex;
        assert seen + Seen(msg.base, gs) == seen + {i} + rest;
        NotYet(seen, i, rest, msg, gs[1..]);
        OwnArrival(s, msg, seen, i);
        Underway(Step(s, g).0, gs[1..], msg, seen + {i});
      } else {
        assert seen + Seen(msg.base, gs) == seen + rest;
        OtherArrival(s, g, msg.base);
        StillThere(s, Step(s, g).0, msg, seen);
        Underway(Step(s, g).0, gs[1..], msg, seen);
      }
    }
  }

  lemma StillThere(s: Reass, s': Reass, msg: R.Message, seen: set<nat>)
    requires Progress(s, msg, seen) && (msg.base in s'.pms <==> msg.base in s.pms)
    requires msg.base in s.pms ==> s'.pms[msg.base] == s.pms[msg.base]
    ensures Progress(s', msg, seen)
  {
  }

  lemma NotYet(seen: set<nat>, i: nat, rest: set<nat>, msg: R.Message, gs: seq<Fragment>)
    requires Arrivals(msg, gs) && rest == Seen(msg.base, gs) && seen + {i} + rest != R.Indices(|msg.payloads|)
    ensures seen + {i} != R.Indices(|msg.payloads|)
  {
    SeenBound(msg, gs);
    assert seen + {i} == R.Indices(|msg.payloads|) ==> seen + {i} + rest == seen + {i};
  }

  /**
    The frames of a packet, in any order and with duplicates, between fragments of other packets:
    none of them completes anything before the last missing one, and that one gives back the payload
    and the layer 3 fields.
   */
  lemma RoundTrip(s: Reass, gs: seq<Fragment>, msg: R.Message, i: nat)
    requires 1 < |msg.payloads| && msg.base !in s.pms && Arrivals(msg, gs) && Kept(s, gs, msg.base) && i < |msg.payloads|
    requires Seen(msg.base, gs) != R.Indices(|msg.payloads|) && Seen(msg.base, gs) + {i} == R.Indices(|msg.payloads|)
    ensures Quiet(s, gs, msg.base)
    ensures var r := Step(Run(s, gs), Decoded(msg.Fragment(i)));
      r.1 == Some((msg.l3, Concat(msg.payloads))) && msg.base !in r.0.pms
  {
    hide Step, Run, Seen, Kept, Quiet, Concat, Holding;
    assert {} + Seen(msg.base, gs) == Seen(msg.base, gs);
    assert 0 in R.Indices(|msg.payloads|);
    Underway(s, gs, msg, {});
    LastArrival(Run(s, gs), msg, Seen(msg.base, gs), i);
  }

  /** What the fragmenter cuts, the reassembler puts together, with at most `capacity` packets open at a time. */
  lemma FragmentThenReassemble(l3: L3, header: nat, payload: Bytes, room: int, seqNum: nat, s: Reass, gs: seq<Fragment>, i: nat)
    requires Cut(header, payload, room).Parts? && room - header < |payload|
    requires var msg := Fragmentation(l3, header, payload, room, seqNum);
      && seqNum !in s.pms && Arrivals(msg, gs) && NeverFull(s, gs) && i < |msg.payloads|
      && Seen(seqNum, gs) != R.Indices(|msg.payloads|) && Seen(seqNum, gs) + {i} == R.Indices(|msg.payloads|)
    ensures var msg := Fragmentation(l3, header, payload, room, seqNum);
      Quiet(s, gs, seqNum) && Step(Run(s, gs), Decoded(msg.Fragment(i))).1 == Some((l3, payload))
  {
    hide Step, Run, Seen, Kept, Quiet, Concat, NeverFull, Cut;
    CutConcat(header, payload, room);
    RoomKeeps(s, gs, seqNum);
    RoundTrip(s, gs, Fragmentation(l3, header, payload, room, seqNum), i);
  }
}
