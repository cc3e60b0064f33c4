/** Outgoing packets: fragmentation into frames (csrc/iface/tx-proc.c, csrc/ndni/lp.c). */
module TxProc {
  import opened Common
  import opened Chain
  import opened Mbuf
  import opened Tlv
  import opened TlvRead
  import opened Lp

  function DivCeil(n: nat, size: nat): (q: nat)
    requires size > 0
  {
    (n + size - 1) / size
  }

  /** The fragment count is an 8-bit number. */
  function FragCount(n: nat, size: nat): (q: nat)
    requires size > 0
  {
    DivCeil(n, size) % 256
  }

  /** What remains before the `i`-th fragment. */
  function Skipped(b: Bytes, size: nat, i: nat): (r: Bytes)
    ensures |r| == if i * size <= |b| then |b| - i * size else 0
  {
    if i * size <= |b| then b[i * size..] else []
  }

  function Piece(b: Bytes, size: nat, i: nat): (r: Bytes) {
    var rest := Skipped(b, size, i);
    rest[..Min(size, |rest|)]
  }

  function Fragments(b: Bytes, size: nat, n: nat): (r: seq<Bytes>)
    ensures |r| == n
  {
    seq(n, i requires 0 <= i < n => Piece(b, size, i))
  }

  lemma NextSkipped(b: Bytes, size: nat, i: nat)
    ensures Skipped(b, size, i + 1) == Skipped(b, size, i)[|Piece(b, size, i)|..]
  {
    assert (i + 1) * size == i * size + size;
  }

  /** There is something left for every fragment. */
  lemma SomethingLeft(n: nat, size: nat, i: nat)
    requires size > 0 && i < DivCeil(n, size)
    ensures i * size < n
  {
    var q := DivCeil(n, size);
    assert q * size <= n + size - 1;
    assert (i + 1) * size <= q * size by { Monotone(i + 1, q, size); }
  }

  lemma Monotone(a: nat, b: nat, k: nat)
    requires a <= b
    ensures a * k <= b * k
  {
  }

  lemma NothingLeft(n: nat, size: nat)
    requires size > 0
    ensures DivCeil(n, size) * size >= n
  {
  }

  lemma ConcatSnoc(ps: seq<Bytes>, last: Bytes)
    ensures Concat(ps + [last]) == Concat(ps) + last
  {
    ConcatSplit(ps, [last]);
    assert Concat([last]) == last;
  }

  lemma FragmentsSnoc(b: Bytes, size: nat, n: nat)
    ensures Fragments(b, size, n + 1) == Fragments(b, size, n) + [Piece(b, size, n)]
  {
  }

  lemma {:induction false} FragmentsConcat(b: Bytes, size: nat, n: nat)
    ensures Concat(Fragments(b, size, n)) + Skipped(b, size, n) == b
  {
    hide Piece;
    if n > 0 {
      hide Concat, Fragments, Skipped;
      var ps, last := Fragments(b, size, n - 1), Piece(b, size, n - 1);
      FragmentsConcat(b, size, n - 1);
      FragmentsSnoc(b, size, n - 1);
      ConcatSnoc(ps, last);
      PieceThere(b, size, n - 1);
      Associate(Concat(ps), last, Skipped(b, size, n));
    }
  }

  lemma PieceThere(b: Bytes, size: nat, i: nat)
    ensures Skipped(b, size, i) == Piece(b, size, i) + Skipped(b, size, i + 1)
  {
    NextSkipped(b, size, i);
  }

  /** The payloads that are sent for a packet longer than a fragment. */
  function Sent(b: Bytes, size: nat): (r: seq<Bytes>)
    requires size > 0
  {
    var n := FragCount(|b|, size);
    if n > MAX_FRAGMENTS then [] else Fragments(b, size, n)
  }

  /** The whole packet is sent exactly when it needs no more fragments than the protocol allows. */
  lemma SentExactly(b: Bytes, size: nat)
    requires 0 < size < |b|
    ensures Concat(Sent(b, size)) == b <==> DivCeil(|b|, size) <= MAX_FRAGMENTS
    ensures DivCeil(|b|, size) <= MAX_FRAGMENTS ==> |Sent(b, size)| >= 2 && NonEmpty(Sent(b, size))
  {
    hide Skipped, Concat, DivCeil, Fragments;
    var q, n := DivCeil(|b|, size), FragCount(|b|, size);
    AtLeastTwo(|b|, size);
    if n <= MAX_FRAGMENTS {
      FragmentsConcat(b, size, n);
      if n < q {
        SomethingLeft(|b|, size, n);
      } else {
        NothingLeft(|b|, size);
        NoneEmpty(b, size, n);
      }
    } else {
      assert Concat([]) == [] by { EmptyConcat(); }
    }
  }

  lemma EmptyConcat()
    ensures Concat([]) == []
  {
  }

  lemma NoneEmpty(b: Bytes, size: nat, n: nat)
    requires 0 < size && n <= DivCeil(|b|, size)
    ensures NonEmpty(Fragments(b, size, n))
  {
    hide Skipped, DivCeil;
    forall i | 0 <= i < n ensures Piece(b, size, i) != [] {
      SomethingLeft(|b|, size, i);
    }
  }

  lemma AtLeastTwo(n: nat, size: nat)
    requires 0 < size < n
    ensures DivCeil(n, size) >= 2
  {
    if DivCeil(n, size) < 2 {
      Monotone(DivCeil(n, size), 1, size);
      NothingLeft(n, size);
      assert false;
    }
  }

  /**
    A packet that is a little longer than 256 fragments: a single fragment is sent, and it claims to
    be the only one.
   */
  lemma TooManyFragments(b: Bytes, size: nat)
    requires size > 0 && 256 * size < |b| <= 257 * size
    ensures FragCount(|b|, size) == 1 && Sent(b, size) == [b[..size]]
  {
    hide DivCeil, Skipped;
    CeilIs(|b|, size, 257);
    NoneSkipped(b, size);
    assert Fragments(b, size, 1) == [Piece(b, size, 0)];
  }

  lemma CeilIs(n: nat, size: nat, q: nat)
    requires size > 0 && q > 0 && (q - 1) * size < n <= q * size
    ensures DivCeil(n, size) == q
  {
    var d := DivCeil(n, size);
    NothingLeft(n, size);
    SomethingLeft(n, size, d - 1);
    if d < q { Monotone(d, q - 1, size); }
    if d > q { Monotone(q, d - 1, size); }
  }

  // ------------------------------------------------------------------ the size of a header

  /** The headroom that is set aside for a header, and by which fragments are shorter than the MTU. */
  const LP_HEADER_HEADROOM := 54

  /** What a header takes at most. */
  const MAX_HEADER := 76

  function L3Size(l3: L3): (n: nat)
    ensures l3.Valid() ==> n <= 48
  {
    (if l3.congMark != 0 then 5 else 0)
    + (if l3.nackReason == NACK_NONE then 0 else if l3.nackReason == NACK_UNSPECIFIED then 4 else 9)
    + (if l3.pitToken != [] then 2 + |l3.pitToken| else 0)
  }

  function L2Size(l2: L2): (n: nat)
    ensures n <= 16
  {
    if l2.fragCount > 1 then 16 else 0
  }

  /** The fields between the two TLV headers. */
  function FieldsSize(l3: L3, l2: L2): (n: nat) {
    L2Size(l2) + if l2.fragIndex == 0 then L3Size(l3) else 0
  }

  function HeaderSize(l3: L3, l2: L2, payload: nat): (n: nat)
    ensures l3.Valid() ==> n <= MAX_HEADER
  {
    var inner := 1 + SizeofVarNum(payload);
    1 + SizeofVarNum(FieldsSize(l3, l2) + inner + payload) + FieldsSize(l3, l2) + inner
  }

  lemma ElementSize(e: Element)
    requires e.kind < 0x1_0000_0000 && |e.value| < 0x1_0000_0000
    ensures |e.Encode()| == SizeofVarNum(e.kind) + SizeofVarNum(|e.value|) + |e.value|
  {
  }

  lemma FieldsSizeIs(l3: L3, l2: L2)
    requires l3.Valid()
    ensures |EncodeAll(HeaderElements(l3, l2))| == FieldsSize(l3, l2)
    ensures |EncodeAll(L3Elements(l3))| == L3Size(l3) && |EncodeAll(L2Elements(l2))| == L2Size(l2)
  {
    hide EncodeAll, NackElement, L3Elements, L2Elements, Element.Encode;
    L3Encoding(l3, []);
    FieldSizes(l3);
    L2Encoding(l2);
    assert EncodeAll(L3Elements(l3)) + [] == EncodeAll(L3Elements(l3));
    EncodeAllSplit(L2Elements(l2), if l2.fragIndex == 0 then L3Elements(l3) else []);
    OneOrNone(Element(0, []));
  }

  /** The size of a frame. */
  lemma FrameSize(f: Frame)
    requires f.l3.Valid() && |f.payload| + MAX_HEADER < 0x1_0000_0000
    ensures |EncodeFrame(f)| == |f.payload| + HeaderSize(f.l3, f.l2, |f.payload|)
  {
    hide EncodeAll, HeaderElements, Element.Encode, L3Size, L2Size;
    FieldsSizeIs(f.l3, f.l2);
    ElementSize(Element(TT_LP_PAYLOAD, f.payload));
    ElementSize(Element(TT_LP_PACKET, EncodeAll(HeaderElements(f.l3, f.l2)) + Element(TT_LP_PAYLOAD, f.payload).Encode()));
  }

  /**
    The headroom suffices, and the frame is within the MTU, exactly if the header takes no more.  For
    payloads as faces have them: if the token, the Nack and the congestion mark of a first fragment
    take at most 30 bytes, or 46 if it is the only one.
   */
  lemma HeadroomExactly(f: Frame)
    requires f.l3.Valid() && |f.payload| + MAX_HEADER < 0x1_0000_0000
    ensures |EncodeFrame(f)| <= |f.payload| + LP_HEADER_HEADROOM <==> HeaderSize(f.l3, f.l2, |f.payload|) <= LP_HEADER_HEADROOM
    ensures 0xFD <= |f.payload| <= 0xFFFF - MAX_HEADER ==>
      (|EncodeFrame(f)| <= |f.payload| + LP_HEADER_HEADROOM <==>
        (f.l2.fragIndex == 0 ==> L3Size(f.l3) <= if f.l2.fragCount > 1 then 30 else 46))
  {
    hide EncodeFrame;
    FrameSize(f);
  }

  /** With a token of at most 8 bytes, the headroom suffices for every payload. */
  lemma ShortTokenFits(f: Frame)
    requires f.l3.Valid() && |f.l3.pitToken| <= 8 && |f.payload| + MAX_HEADER < 0x1_0000_0000
    ensures |EncodeFrame(f)| <= |f.payload| + LP_HEADER_HEADROOM
  {
    hide EncodeFrame;
    FrameSize(f);
  }

  /** A first fragment with a token of 32 bytes and a congestion mark has 9 bytes too many. */
  lemma LongTokenExceeds(f: Frame)
    requires |f.l3.pitToken| == 32 && f.l3.nackReason == NACK_NONE && f.l3.congMark == 1
    requires f.l2.fragIndex == 0 && f.l2.fragCount == 2 && 0xFD <= |f.payload| <= 0xFFFF - MAX_HEADER
    ensures |EncodeFrame(f)| == |f.payload| + LP_HEADER_HEADROOM + 9
  {
    hide EncodeFrame;
    FrameSize(f);
  }

  // ------------------------------------------------------------------ in mbufs

  /** Prepend some bytes, if there is room for them. */
  method TryBytes(q: Packet, m: Mbuf, x: Bytes) returns (ok: bool)
    requires q.Valid() && HasHead(q, m)
    modifies q`pktLen, q`parts, m, m.buf
    ensures ok <==> |x| <= old(m.off)
    ensures q.Valid() && q.Flat() == (if ok then x else []) + old(q.Flat()) && m.off == old(m.off) - if ok then |x| else 0
  {
    hide Packet.Flat, Packet.Valid;
    ok := |x| <= m.off;
    if ok {
      PrependBytes(q, m, x);
    } else {
      assert [] + q.Flat() == q.Flat();
    }
  }

  /** Prepend a TLV header, if there is room for it. */
  method TryTLV(q: Packet, m: Mbuf, kind: nat) returns (ok: bool)
    requires q.Valid() && HasHead(q, m) && kind < 0xFD && |q.Flat()| < 0x1_0000_0000
    modifies q`pktLen, q`parts, m, m.buf
    ensures ok <==> 1 + SizeofVarNum(|old(q.Flat())|) <= old(m.off)
    ensures q.Valid() && q.Flat() == if ok then Element(kind, old(q.Flat())).Encode() else old(q.Flat())
    ensures m.off == old(m.off) - if ok then 1 + SizeofVarNum(|old(q.Flat())|) else 0
  {
    hide Packet.Flat, Packet.Valid, Element.Encode;
    PacketLength(q);
    ok := 1 + SizeofVarNum(q.pktLen) <= m.off;
    if ok {
      PrependTLV(q, m, kind);
    }
  }

  /** Prepend the layer 3 fields, last one first, until there is no room for one. */
  method PrependL3(q: Packet, m: Mbuf, l3: L3) returns (ok: bool)
    requires q.Valid() && HasHead(q, m) && l3.Valid()
    modifies q`pktLen, q`parts, m, m.buf
    ensures q.Valid() && (ok <==> L3Size(l3) <= old(m.off))
    ensures ok ==> q.Flat() == EncodeAll(L3Elements(l3)) + old(q.Flat()) && m.off == old(m.off) - L3Size(l3)
  {
    hide Packet.Flat, Packet.Valid, EncodeAll, Element.Encode, L3Elements, NackElement;
    ghost var b := q.Flat();
    L3Encoding(l3, b);
    FieldSizes(l3);
    ok := true;
    if l3.congMark != 0 {
      ok := TryBytes(q, m, Element(TT_CONGESTION_MARK, [l3.congMark % 256]).Encode());
    }
    if ok && l3.nackReason != NACK_NONE {
      ok := TryBytes(q, m, NackElement(l3.nackReason).Encode());
    }
    if ok && |l3.pitToken| > 0 {
      ok := TryBytes(q, m, Element(TT_PIT_TOKEN, l3.pitToken).Encode());
    }
  }

  lemma FieldSizes(l3: L3)
    requires l3.Valid()
    ensures |Element(TT_CONGESTION_MARK, [l3.congMark % 256]).Encode()| == 5
    ensures |NackElement(l3.nackReason).Encode()| == if l3.nackReason == NACK_UNSPECIFIED then 4 else 9
    ensures |Element(TT_PIT_TOKEN, l3.pitToken).Encode()| == 2 + |l3.pitToken|
  {
  }

  /** The layer 3 fields, in the order in which they are prepended. */
  lemma L3Encoding(l3: L3, b: Bytes)
    ensures var b1 := if l3.congMark != 0 then Element(TT_CONGESTION_MARK, [l3.congMark % 256]).Encode() + b else b;
      var b2 := if l3.nackReason != NACK_NONE then NackElement(l3.nackReason).Encode() + b1 else b1;
      var b3 := if l3.pitToken != [] then Element(TT_PIT_TOKEN, l3.pitToken).Encode() + b2 else b2;
      EncodeAll(L3Elements(l3)) + b == b3
  {
    hide EncodeAll, Element.Encode, NackElement;
    var a := if l3.pitToken != [] then [Element(TT_PIT_TOKEN, l3.pitToken)] else [];
    var n := if l3.nackReason != NACK_NONE then [NackElement(l3.nackReason)] else [];
    var c := if l3.congMark != 0 then [Element(TT_CONGESTION_MARK, [l3.congMark % 256])] else [];
    EncodeAllSplit(a + n, c);
    EncodeAllSplit(a, n);
    OneOrNone(Element(TT_PIT_TOKEN, l3.pitToken));
    OneOrNone(NackElement(l3.nackReason));
    OneOrNone(Element(TT_CONGESTION_MARK, [l3.congMark % 256]));
    assert EncodeAll(a) + EncodeAll(n) + EncodeAll(c) + b == EncodeAll(a) + (EncodeAll(n) + (EncodeAll(c) + b));
    assert [] + b == b;
  }

  lemma OneOrNone(e: Element)
    ensures EncodeAll([e]) == e.Encode() && EncodeAll([]) == []
  {
    hide Element.Encode;
    assert e.Encode() + [] == e.Encode();
  }

  /** Prepend the fields of a fragment, when there is more than one fragment, if there is room for them. */
  method PrependL2(q: Packet, m: Mbuf, l2: L2) returns (ok: bool)
    requires q.Valid() && HasHead(q, m)
    modifies q`pktLen, q`parts, m, m.buf
    ensures q.Valid() && (ok <==> L2Size(l2) <= old(m.off))
    ensures ok ==> q.Flat() == EncodeAll(L2Elements(l2)) + old(q.Flat()) && m.off == old(m.off) - L2Size(l2)
  {
    hide Packet.Flat, Packet.Valid, EncodeAll, L2Elements;
    ghost var b := q.Flat();
    L2Encoding(l2);
    ok := true;
    if l2.fragCount > 1 {
      ok := TryBytes(q, m, [TT_LP_SEQ_NUM, 8] + ToBe(l2.SeqNum(), 8) + [TT_FRAG_INDEX, 1, l2.fragIndex % 256] + [TT_FRAG_COUNT, 1, l2.fragCount % 256]);
    } else {
      assert [] + b == b;
    }
  }

  /** The fixed layout of the fields of a fragment. */
  lemma L2Encoding(l2: L2)
    ensures EncodeAll(L2Elements(l2)) == if l2.fragCount > 1 then
      [TT_LP_SEQ_NUM, 8] + ToBe(l2.SeqNum(), 8) + [TT_FRAG_INDEX, 1, l2.fragIndex % 256] + [TT_FRAG_COUNT, 1, l2.fragCount % 256]
    else
      []
  {
    var es := L2Elements(l2);
    if l2.fragCount > 1 {
      hide EncodeAll, ToBe;
      OneOrNone(es[0]);
      OneOrNone(es[1]);
      OneOrNone(es[2]);
      EncodeAllSplit([es[0]], [es[1]]);
      EncodeAllSplit([es[0], es[1]], [es[2]]);
      assert [es[0]] + [es[1]] == [es[0], es[1]] && [es[0], es[1]] + [es[2]] == es;
    }
  }

  /**
    Turn a payload into a frame.  The headroom that is asked for need not suffice: it stops at the
    first prepend that has no room.
   */
  method PrependHeader(q: Packet, m: Mbuf, l3: L3, l2: L2) returns (ok: bool)
    requires q.Valid() && HasHead(q, m) && m.off >= LP_HEADER_HEADROOM && l3.Valid() && |q.Flat()| + MAX_HEADER < 0x1_0000_0000
    modifies q`pktLen, q`parts, m, m.buf
    ensures q.Valid() && (ok <==> HeaderSize(l3, l2, |old(q.Flat())|) <= old(m.off))
    ensures ok ==> q.Flat() == EncodeFrame(Frame(l3, l2, old(q.Flat())))
  {
    hide Packet.Flat, Packet.Valid, EncodeAll, Element.Encode, L2Elements, L3Elements, L3Size, L2Size;
    ghost var payload := q.Flat();
    ghost var last := Element(TT_LP_PAYLOAD, payload).Encode();
    ghost var l3s := if l2.fragIndex == 0 then L3Elements(l3) else [];
    FieldsSizeIs(l3, l2);
    ElementSize(Element(TT_LP_PAYLOAD, payload));
    ok := TryTLV(q, m, TT_LP_PAYLOAD);
    if ok && l2.fragIndex == 0 {
      ok := PrependL3(q, m, l3);
    } else {
      NoElements(last);
    }
    if ok {
      ok := PrependL2(q, m, l2);
    }
    if ok {
      EncodeAllSplit(L2Elements(l2), l3s);
      Associate(EncodeAll(L2Elements(l2)), EncodeAll(l3s), last);
      ok := TryTLV(q, m, TT_LP_PACKET);
    }
  }

  lemma NoElements(b: Bytes)
    ensures EncodeAll([]) + b == b
  {
    assert [] + b == b;
  }

  /** The headroom of a new mbuf that is to begin with a header. */
  const FRAME_HEADROOM := 128 + LP_HEADER_HEADROOM

  /** One frame: a header mbuf followed by a clone of the next bytes. */
  method OneFrame(p: Packet, d: TlvDecoder, n: nat, l3: L3, l2: L2, bufLen: nat) returns (q: Packet, d': TlvDecoder)
    requires p.Valid() && d.In(p) && 0 < n <= d.length && n + MAX_HEADER < 0x1_0000_0000 && l3.Valid()
    requires FRAME_HEADROOM <= bufLen
    ensures fresh(q) && fresh(q.mbufs) && q.Valid() && q.Flat() == EncodeFrame(Frame(l3, l2, d.Ahead(p)[..n]))
    ensures d'.In(p) && d'.Ahead(p) == d.Ahead(p)[n..] && d'.length == d.length - n
  {
    hide Rest, EncodeFrame, Concat, NonEmpty, Sum, Packet.Valid, Packet.Flat, HasHead;
    var m := new Mbuf(bufLen);
    m.off := FRAME_HEADROOM;
    q := Single(m, []);
    var payload;
    payload, d' := Clone(p, d, n);
    EmptyHead(q);
    Join(q, payload);
    HeadOf(q, m, payload);
    assert [] + payload.Flat() == payload.Flat();
    var ok := PrependHeader(q, m, l3, l2);
  }

  lemma HeadOf(q: Packet, m: Mbuf, r: Packet)
    requires r.Valid() && q.segs == [m] + r.segs && m !in r.mbufs && m.buf !in r.bufs
    ensures HasHead(q, m)
  {
  }

  lemma EmptyHead(q: Packet)
    requires q.parts == [[]]
    ensures q.Flat() == []
  {
    assert Concat([[]]) == [] + Concat([]);
  }

  /** The frames hold the fragments. */
  ghost predicate Framed(frames: seq<Packet>, l3: L3, base: nat, count: nat, b: Bytes, size: nat)
    reads frames
  {
    forall i | 0 <= i < |frames| :: frames[i].Flat() == EncodeFrame(Frame(l3, L2(base, i, count), Piece(b, size, i)))
  }

  class TxProc {
    var nextSeqNum: nat
    var nL3Fragmented: nat
    var nL3OverLength: nat

    constructor ()
      ensures nextSeqNum == 0 && nL3Fragmented == 0 && nL3OverLength == 0
    {
      nextSeqNum, nL3Fragmented, nL3OverLength := 0, 0, 0;
    }

    /** Split a packet that is longer than a fragment. */
    method ChainedFrag(p: Packet, l3: L3, size: nat, bufLen: nat) returns (frames: seq<Packet>)
      requires p.Valid() && l3.Valid() && 0 < size < p.pktLen && size + MAX_HEADER < 0x1_0000_0000
      requires FRAME_HEADROOM <= bufLen
      modifies this
      ensures var n := FragCount(|p.Flat()|, size);
        if n > MAX_FRAGMENTS then
          frames == [] && nL3OverLength == old(nL3OverLength) + 1 && nextSeqNum == old(nextSeqNum) && nL3Fragmented == old(nL3Fragmented)
        else
          && |frames| == n && Framed(frames, l3, old(nextSeqNum), n, p.Flat(), size)
          && nextSeqNum == (old(nextSeqNum) + n) % SEQ_MOD && nL3Fragmented == old(nL3Fragmented) + 1 && nL3OverLength == old(nL3OverLength)
    {
      hide Rest, EncodeFrame, Concat, Packet.Valid, Packet.Flat, Skipped, Piece;
      PacketLength(p);
      ghost var b := p.Flat();
      var fragCount := FragCount(p.pktLen, size);
      frames := [];
      if fragCount > MAX_FRAGMENTS {
        nL3OverLength := nL3OverLength + 1;
        return;
      }
      var d := Init(p);
      NoneSkipped(b, size);
      for i := 0 to fragCount
        invariant |frames| == i && Framed(frames, l3, nextSeqNum, fragCount, b, size)
        invariant nextSeqNum == old(nextSeqNum) && nL3Fragmented == old(nL3Fragmented) && nL3OverLength == old(nL3OverLength)
        invariant p.Valid() && d.In(p) && d.Ahead(p) == Skipped(b, size, i) && d.length == |d.Ahead(p)|
      {
        SomethingLeft(|b|, size, i);
        NextPiece(b, size, i);
        var n := Min(size, d.length);
        var frame;
        frame, d := OneFrame(p, d, n, l3, L2(nextSeqNum, i, fragCount), bufLen);
        frames := frames + [frame];
      }
      nL3Fragmented := nL3Fragmented + 1;
      nextSeqNum := (nextSeqNum + fragCount) % SEQ_MOD;
    }
  }

  lemma NoneSkipped(b: Bytes, size: nat)
    ensures Skipped(b, size, 0) == b
  {
  }

  lemma NextPiece(b: Bytes, size: nat, i: nat)
    requires i * size < |b|
    ensures var rest := Skipped(b, size, i);
      && rest != [] && rest[..Min(size, |rest|)] == Piece(b, size, i) && rest[Min(size, |rest|)..] == Skipped(b, size, i + 1)
  {
    NextSkipped(b, size, i);
  }
}
