/**
  NDNLPv2 headers (csrc/ndni/lp.c, csrc/ndni/lp.h), revision 59 of the protocol: indexed
  fragmentation, PIT token, network nack and congestion mark.
 */
module Lp {
  import opened Common
  import opened Chain
  import opened Tlv

  const TT_LP_PACKET := 0x64
  const TT_LP_PAYLOAD := 0x50
  const TT_LP_SEQ_NUM := 0x51
  const TT_FRAG_INDEX := 0x52
  const TT_FRAG_COUNT := 0x53
  const TT_PIT_TOKEN := 0x62
  const TT_NACK := 0x0320
  const TT_NACK_REASON := 0x0321
  const TT_CONGESTION_MARK := 0x0340

  const NACK_NONE := 0
  const NACK_UNSPECIFIED := 255
  const MAX_FRAGMENTS := 31
  const MAX_PIT_TOKEN := 32
  const SEQ_MOD := 0x1_0000_0000_0000_0000

  /** Layer 3 fields. */
  datatype L3 = L3(nackReason: nat, congMark: nat, pitToken: Bytes) {

    predicate Valid() {
      nackReason < 256 && congMark < 256 && |pitToken| <= MAX_PIT_TOKEN
    }
  }

  const L3_NONE := L3(NACK_NONE, 0, [])

  /** Layer 2 fields. */
  datatype L2 = L2(seqNumBase: nat, fragIndex: nat, fragCount: nat) {

    predicate Valid() {
      seqNumBase < SEQ_MOD && fragIndex < fragCount <= MAX_FRAGMENTS
    }

    function SeqNum(): (n: nat) {
      (seqNumBase + fragIndex) % SEQ_MOD
    }
  }

  const L2_NONE := L2(0, 0, 1)

  datatype Frame = Frame(l3: L3, l2: L2, payload: Bytes)

  // ------------------------------------------------------------------ encoding

  function NackElement(reason: nat): (e: Element) {
    Element(TT_NACK, if reason == NACK_UNSPECIFIED then [] else Element(TT_NACK_REASON, [reason % 256]).Encode())
  }

  function L3Elements(l3: L3): (es: seq<Element>) {
    (if l3.pitToken != [] then [Element(TT_PIT_TOKEN, l3.pitToken)] else [])
    + (if l3.nackReason != NACK_NONE then [NackElement(l3.nackReason)] else [])
    + (if l3.congMark != 0 then [Element(TT_CONGESTION_MARK, [l3.congMark % 256])] else [])
  }

  function L2Elements(l2: L2): (es: seq<Element>) {
    if l2.fragCount > 1 then
      [ Element(TT_LP_SEQ_NUM, ToBe(l2.SeqNum(), 8)), Element(TT_FRAG_INDEX, [l2.fragIndex % 256]), Element(TT_FRAG_COUNT, [l2.fragCount % 256]) ]
    else
      []
  }

  /** The elements of an LpPacket: layer 3 fields go with the first fragment only. */
  function HeaderElements(l3: L3, l2: L2): (es: seq<Element>) {
    L2Elements(l2) + if l2.fragIndex == 0 then L3Elements(l3) else []
  }

  function EncodeFrame(f: Frame): (b: Bytes) {
    var v := EncodeAll(HeaderElements(f.l3, f.l2)) + Element(TT_LP_PAYLOAD, f.payload).Encode();
    Element(TT_LP_PACKET, v).Encode()
  }

  // ------------------------------------------------------------------ parsing

  predicate IsCritical(kind: nat) {
    kind < 800 || kind > 959 || kind % 4 != 0
  }

  function NniUpTo(b: Bytes, max: nat): (r: Option<nat>) {
    var n := DecodeNni(b);
    if n.Some? && n.value <= max then n else None
  }

  /**
    The value of a Nack.  A reason that cannot be read counts as unspecified; the cursor then moves
    by at most 8 bytes.
   */
  function ParseNack(reason: nat, b: Bytes): (r: Option<nat>)
    decreases |b|
  {
    var tl := DecodeTL(b);
    if tl.kind == 0 then
      Some(reason)
    else if tl.kind == TT_NACK_REASON then
      var n := NniUpTo(First(b).value, 0xFF);
      ParseNack(if n.Some? then n.value else NACK_UNSPECIFIED, b[tl.size + Min(8, tl.length)..])
    else if IsCritical(tl.kind) then
      None
    else
      ParseNack(reason, AfterFirst(b))
  }

  /** State of the parser. */
  datatype Fields = Fields(l3: L3, seqNum: nat, fragIndex: nat, fragCount: nat)

  const INIT := Fields(L3_NONE, 0, 0, 1)

  function Interpret(f: Fields, e: Element): (r: Option<Fields>) {
    if e.kind == TT_LP_SEQ_NUM then
      if |e.value| == 8 then Some(f.(seqNum := Be(e.value))) else None
    else if e.kind == TT_FRAG_INDEX then
      var n := NniUpTo(e.value, MAX_FRAGMENTS - 1);
      if n.Some? then Some(f.(fragIndex := n.value)) else None
    else if e.kind == TT_FRAG_COUNT then
      var n := NniUpTo(e.value, MAX_FRAGMENTS);
      if n.Some? then Some(f.(fragCount := n.value)) else None
    else if e.kind == TT_PIT_TOKEN then
      if |e.value| <= MAX_PIT_TOKEN then Some(f.(l3 := f.l3.(pitToken := e.value))) else None
    else if e.kind == TT_NACK then
      var n := ParseNack(NACK_UNSPECIFIED, e.value);
      if n.Some? then Some(f.(l3 := f.l3.(nackReason := n.value))) else None
    else if e.kind == TT_CONGESTION_MARK then
      var n := NniUpTo(e.value, 0xFF);
      if n.Some? then Some(f.(l3 := f.l3.(congMark := n.value))) else None
    else if IsCritical(e.kind) then
      None
    else
      Some(f)
  }

  /** The loop over the fields: the payload ends it. */
  function ParseFields(f: Fields, b: Bytes): (r: Option<(Fields, Bytes)>)
    decreases |b|
  {
    if DecodeTL(b).kind == 0 then
      Some((f, []))
    else if First(b).kind == TT_LP_PAYLOAD then
      Some((f, First(b).value))
    else
      var f' := Interpret(f, First(b));
      if f'.None? then None else ParseFields(f'.value, AfterFirst(b))
  }

  function Finish(f: Fields, payload: Bytes): (r: Option<Frame>) {
    if f.fragIndex < f.fragCount then
      Some(Frame(f.l3, L2((f.seqNum - f.fragIndex) % SEQ_MOD, f.fragIndex, f.fragCount), payload))
    else
      None
  }

  /**
    Parse a frame; bytes after the outermost element are an Ethernet trailer.  When the cursor
    leaves the mbuf after the header of a network layer packet, nothing of that packet is left.
   */
  function ParseFrame(b: Bytes): (r: Option<Frame>) {
    var tl := DecodeTL(b);
    if tl.kind in {TT_INTEREST, TT_DATA} then
      Some(Frame(L3_NONE, L2_NONE, if tl.size == |b| then [] else b[..tl.size + tl.length]))
    else if tl.kind == TT_LP_PACKET then
      var f := ParseFields(INIT, b[tl.size..tl.size + tl.length]);
      if f.None? then None else Finish(f.value.0, f.value.1)
    else
      None
  }

  // ------------------------------------------------------------------ round trip

  /** Fields as the header elements give them, one by one. */
  function InterpretAll(f: Fields, es: seq<Element>): (r: Option<Fields>)
    decreases |es|
  {
    if es == [] then
      Some(f)
    else
      var f' := Interpret(f, es[0]);
      if f'.None? then None else InterpretAll(f'.value, es[1..])
  }

  predicate Regular(es: seq<Element>) {
    forall i | 0 <= i < |es| :: es[i].Valid() && es[i].kind != TT_LP_PAYLOAD
  }

  lemma {:induction false} FieldsOf(f: Fields, es: seq<Element>, payload: Bytes)
    requires Regular(es) && |payload| < 0x1_0000_0000
    ensures var r := InterpretAll(f, es);
      ParseFields(f, EncodeAll(es) + Element(TT_LP_PAYLOAD, payload).Encode()) == if r.None? then None else Some((r.value, payload))
    decreases |es|
  {
    hide Element.Encode, First, AfterFirst, DecodeTL, Interpret;
    var last := Element(TT_LP_PAYLOAD, payload);
    if es == [] {
      assert [] + last.Encode() == last.Encode() + [];
      FirstOf(last, []);
    } else {
      var rest := EncodeAll(es[1..]) + last.Encode();
      Associate(es[0].Encode(), EncodeAll(es[1..]), last.Encode());
      FirstOf(es[0], rest);
      var f' := Interpret(f, es[0]);
      if f'.Some? {
        FieldsOf(f'.value, es[1..], payload);
      }
    }
  }

  lemma {:induction false} InterpretSplit(f: Fields, a: seq<Element>, b: seq<Element>)
    ensures var r := InterpretAll(f, a);
      InterpretAll(f, a + b) == if r.None? then None else InterpretAll(r.value, b)
    decreases |a|
  {
    hide Interpret;
    if a == [] {
      assert a + b == b;
    } else {
      assert (a + b)[0] == a[0] && (a + b)[1..] == a[1..] + b;
      var f' := Interpret(f, a[0]);
      if f'.Some? {
        InterpretSplit(f'.value, a[1..], b);
      }
    }
  }

  lemma InterpretOne(f: Fields, e: Element)
    ensures InterpretAll(f, [e]) == Interpret(f, e)
  {
    hide Interpret;
    assert [e][1..] == [];
  }

  lemma OneByte(n: nat)
    requires n < 256
    ensures DecodeNni([n]) == Some(n)
  {
    assert [n][..0] == [];
    assert Be([n][..0]) == 0;
  }

  lemma NackRoundTrip(reason: nat)
    requires 0 < reason < 256
    ensures ParseNack(NACK_UNSPECIFIED, NackElement(reason).value) == Some(reason) && NackElement(reason).Valid()
  {
    if reason != NACK_UNSPECIFIED {
      var e := Element(TT_NACK_REASON, [reason]);
      OneByte(reason);
      assert e.Encode() + [] == e.Encode();
      FirstOf(e, []);
      NoMore(reason);
      hide DecodeNni;
      assert e.Encode()[DecodeTL(e.Encode()).size + 1..] == [];
    }
  }

  lemma NoMore(reason: nat)
    ensures ParseNack(reason, []) == Some(reason)
  {
  }

  lemma PitTokenField(f: Fields, l3: L3)
    requires l3.Valid()
    ensures InterpretAll(f, [Element(TT_PIT_TOKEN, l3.pitToken)]) == Some(f.(l3 := f.l3.(pitToken := l3.pitToken)))
  {
    InterpretOne(f, Element(TT_PIT_TOKEN, l3.pitToken));
  }

  lemma NackField(f: Fields, l3: L3)
    requires l3.Valid() && l3.nackReason != NACK_NONE
    ensures InterpretAll(f, [NackElement(l3.nackReason)]) == Some(f.(l3 := f.l3.(nackReason := l3.nackReason)))
    ensures NackElement(l3.nackReason).kind == TT_NACK && NackElement(l3.nackReason).Valid()
  {
    hide ParseNack;
    NackRoundTrip(l3.nackReason);
    InterpretOne(f, NackElement(l3.nackReason));
  }

  lemma CongestionField(f: Fields, l3: L3)
    requires l3.Valid()
    ensures InterpretAll(f, [Element(TT_CONGESTION_MARK, [l3.congMark % 256])]) == Some(f.(l3 := f.l3.(congMark := l3.congMark)))
  {
    OneByte(l3.congMark);
    InterpretOne(f, Element(TT_CONGESTION_MARK, [l3.congMark % 256]));
  }

  lemma NoFields(f: Fields)
    ensures InterpretAll(f, []) == Some(f)
  {
  }

  lemma L3Fields(f: Fields, l3: L3)
    requires l3.Valid() && f.l3 == L3_NONE
    ensures InterpretAll(f, L3Elements(l3)) == Some(f.(l3 := l3)) && Regular(L3Elements(l3))
  {
    hide ParseNack, NackElement, InterpretAll, DecodeNni;
    var a := if l3.pitToken != [] then [Element(TT_PIT_TOKEN, l3.pitToken)] else [];
    var b := if l3.nackReason != NACK_NONE then [NackElement(l3.nackReason)] else [];
    var c := if l3.congMark != 0 then [Element(TT_CONGESTION_MARK, [l3.congMark % 256])] else [];
    var f1 := f.(l3 := f.l3.(pitToken := l3.pitToken));
    var f2 := f1.(l3 := f1.l3.(nackReason := l3.nackReason));
    InterpretSplit(f, a + b, c);
    InterpretSplit(f, a, b);
    NoFields(f);
    NoFields(f1);
    NoFields(f2);
    PitTokenField(f, l3);
    if l3.nackReason != NACK_NONE {
      NackField(f1, l3);
    }
    CongestionField(f2, l3);
    assert InterpretAll(f, a) == Some(f1) && InterpretAll(f1, b) == Some(f2);
  }

  lemma SeqNumField(f: Fields, n: nat)
    requires n < SEQ_MOD
    ensures var e := Element(TT_LP_SEQ_NUM, ToBe(n, 8)); Interpret(f, e) == Some(f.(seqNum := n)) && e.Valid()
  {
    Powers();
    BeToBe(n, 8);
    hide ToBe, Be, DecodeNni, Pow256;
  }

  lemma FragFields(f: Fields, i: nat, n: nat)
    requires i < n <= MAX_FRAGMENTS
    ensures var e := Element(TT_FRAG_INDEX, [i % 256]); Interpret(f, e) == Some(f.(fragIndex := i)) && e.Valid()
    ensures var e := Element(TT_FRAG_COUNT, [n % 256]); Interpret(f, e) == Some(f.(fragCount := n)) && e.Valid()
  {
    OneByte(i);
    OneByte(n);
    hide DecodeNni;
  }

  lemma L2Fields(l2: L2)
    requires l2.Valid()
    ensures Regular(L2Elements(l2))
    ensures InterpretAll(INIT, L2Elements(l2)) == Some(if l2.fragCount > 1 then Fields(L3_NONE, l2.SeqNum(), l2.fragIndex, l2.fragCount) else INIT)
  {
    if l2.fragCount > 1 {
      hide ToBe, Interpret;
      var es := L2Elements(l2);
      var f1 := INIT.(seqNum := l2.SeqNum());
      var f2 := f1.(fragIndex := l2.fragIndex);
      SeqNumField(INIT, l2.SeqNum());
      FragFields(f1, l2.fragIndex, l2.fragCount);
      FragFields(f2, l2.fragIndex, l2.fragCount);
      assert es[1..][1..] == [es[2]] && [es[2]][1..] == [];
      hide L2Elements;
      assert InterpretAll(f2, es[1..][1..]) == Interpret(f2, es[2]);
      assert InterpretAll(f1, es[1..]) == InterpretAll(f2, es[1..][1..]);
    }
  }

  /** What a frame says once it has been sent: unfragmented packets carry no sequence number. */
  function Carried(f: Frame): (r: Frame) {
    Frame(if f.l2.fragIndex == 0 then f.l3 else L3_NONE, if f.l2.fragCount > 1 then f.l2 else L2_NONE, f.payload)
  }

  lemma HeaderFields(l3: L3, l2: L2)
    requires l3.Valid() && l2.Valid()
    ensures Regular(HeaderElements(l3, l2))
    ensures InterpretAll(INIT, HeaderElements(l3, l2)).Some?
    ensures var c := Carried(Frame(l3, l2, [])); var f := InterpretAll(INIT, HeaderElements(l3, l2)).value;
      f.l3 == c.l3 && Finish(f, []) == Some(c)
  {
    hide L2Elements, L3Elements, InterpretAll;
    L2Fields(l2);
    var f := InterpretAll(INIT, L2Elements(l2)).value;
    if l2.fragIndex == 0 {
      L3Fields(f, l3);
      InterpretSplit(INIT, L2Elements(l2), L3Elements(l3));
    } else {
      assert L2Elements(l2) + [] == L2Elements(l2);
    }
  }

  /** Parsing undoes encoding, also when the frame is followed by a trailer. */
  lemma FrameRoundTrip(f: Frame, trailer: Bytes)
    requires f.l3.Valid() && f.l2.Valid() && |EncodeFrame(f)| < 0x1_0000_0000
    ensures ParseFrame(EncodeFrame(f) + trailer) == Some(Carried(f))
  {
    hide HeaderElements, EncodeAll, InterpretAll, ParseFields, DecodeTL, Element.Encode;
    var es := HeaderElements(f.l3, f.l2);
    HeaderFields(f.l3, f.l2);
    var v := EncodeAll(es) + Element(TT_LP_PAYLOAD, f.payload).Encode();
    EncodingSize(Element(TT_LP_PAYLOAD, f.payload));
    EncodingSize(Element(TT_LP_PACKET, v));
    FieldsOf(INIT, es, f.payload);
    FirstOf(Element(TT_LP_PACKET, v), trailer);
  }

  lemma EncodingSize(e: Element)
    ensures |e.Encode()| >= |e.value|
  {
  }
}
