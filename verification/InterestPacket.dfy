/** The Interest parser and the guider rewriting on chains of mbufs (csrc/ndni/interest.c). */
module InterestPacket {
  import opened Common
  import opened Chain
  import opened Mbuf
  import opened Tlv
  import opened TlvRead
  import opened Interest
  import Name

  /** The bytes that a pointer shows. */
  method Shown(p: Packet, r: Pointer, n: nat, ghost b: Bytes) returns (x: Bytes)
    requires p.Valid() && |b| == n && r.Shows(p, b)
    ensures x == b
  {
    p.SegLen(r.m);
    var seg := p.segs[r.m];
    x := seg.buf[seg.off + r.offset..seg.off + r.offset + n];
    assert x == seg.Data()[r.offset..r.offset + n];
  }

  /** The value of an element, made contiguous. */
  method Value(p: Packet, d: TlvDecoder, n: nat, ghost ahead: Bytes) returns (v: Option<Bytes>, d': TlvDecoder)
    requires p.Valid() && p.Owned() && Stands(p, d, ahead, d.length) && n <= d.length
    modifies p, p.mbufs, p.bufs
    ensures p.Valid() && p.Owned() && p.Flat() == old(p.Flat())
    ensures fresh(p.mbufs - old(p.mbufs)) && fresh(p.bufs - old(p.bufs))
    ensures forall k: nat | Roomy(old(p.bufs), k) :: Roomy(p.bufs, k)
    ensures v.Some? ==> n > 0 && v.value == ahead[..n] && Stands(p, d', ahead[n..], d.length - n)
    ensures v.None? ==> n == 0 || !Roomy(old(p.bufs), n)
  {
    hide Packet.Valid, Packet.Owned, Packet.Flat, Rest, Roomy, NonEmpty;
    var r;
    r, d' := Linearize(p, d, n);
    if r == Null {
      v := None;
    } else {
      var b := Shown(p, r, n, ahead[..n]);
      v := Some(b);
    }
  }

  /** A name that is longer than some buffer. */
  ghost predicate NameTooLong(bufs: set<array<Byte>>, e: Element) {
    e.kind == TT_NAME && !Roomy(bufs, |e.value|) && |e.value| <= Name.NAME_MAX_LENGTH
  }

  /** A ForwardingHint has such a name in it. */
  ghost predicate HintsTooLong(bufs: set<array<Byte>>, b: Bytes)
    decreases |b|
  {
    DecodeTL(b).kind != 0 && (NameTooLong(bufs, First(b)) || HintsTooLong(bufs, AfterFirst(b)))
  }

  ghost predicate ElementTooLong(bufs: set<array<Byte>>, e: Element) {
    NameTooLong(bufs, e) || (e.kind == TT_FORWARDING_HINT && HintsTooLong(bufs, e.value))
  }

  /** An Interest has such a name in it, as its own or in a ForwardingHint. */
  ghost predicate TooLong(bufs: set<array<Byte>>, b: Bytes)
    decreases |b|
  {
    !Stops(b) && (ElementTooLong(bufs, First(b)) || TooLong(bufs, AfterFirst(b)))
  }

  /** Some buffer is shorter than the longest name that is accepted. */
  lemma {:induction false} HintsNotRoomy(bufs: set<array<Byte>>, b: Bytes)
    ensures HintsTooLong(bufs, b) ==> !Roomy(bufs, Name.NAME_MAX_LENGTH)
    decreases |b|
  {
    hide DecodeTL, First, AfterFirst;
    if HintsTooLong(bufs, b) && !NameTooLong(bufs, First(b)) {
      HintsNotRoomy(bufs, AfterFirst(b));
    }
  }

  lemma {:induction false} NotRoomy(bufs: set<array<Byte>>, b: Bytes)
    ensures TooLong(bufs, b) ==> !Roomy(bufs, Name.NAME_MAX_LENGTH)
    decreases |b|
  {
    hide DecodeTL, First, AfterFirst, HintsTooLong;
    if TooLong(bufs, b) {
      HintsNotRoomy(bufs, First(b).value);
      if !ElementTooLong(bufs, First(b)) {
        NotRoomy(bufs, AfterFirst(b));
      }
    }
  }

  lemma {:induction false} HintsEarlier(bufs: set<array<Byte>>, bufs': set<array<Byte>>, b: Bytes)
    requires forall k: nat | Roomy(bufs, k) :: Roomy(bufs', k)
    ensures HintsTooLong(bufs', b) ==> HintsTooLong(bufs, b)
    decreases |b|
  {
    hide DecodeTL, First, AfterFirst, Roomy;
    if HintsTooLong(bufs', b) && !NameTooLong(bufs', First(b)) {
      HintsEarlier(bufs, bufs', AfterFirst(b));
    }
  }

  lemma ElementEarlier(bufs: set<array<Byte>>, bufs': set<array<Byte>>, e: Element)
    requires forall k: nat | Roomy(bufs, k) :: Roomy(bufs', k)
    ensures ElementTooLong(bufs', e) ==> ElementTooLong(bufs, e)
  {
    hide HintsTooLong, Roomy;
    HintsEarlier(bufs, bufs', e.value);
  }

  /** What one round of the forwarding hint loop does. */
  datatype HintStep = Stop(r: Option<seq<Bytes>>) | More(hints: seq<Bytes>)

  function StepHint(hints: seq<Bytes>, b: Bytes): (r: HintStep) {
    var tl := DecodeTL(b);
    if tl.kind == 0 then
      Stop(if tl.size == |b| && hints != [] then Some(hints) else None)
    else
      var v := b[tl.size..tl.size + tl.length];
      if tl.kind == TT_NAME then
        if |hints| >= MAX_FW_HINTS then
          More(hints)
        else if |v| > Name.NAME_MAX_LENGTH || v == [] then
          Stop(None)
        else
          More(hints + [v])
      else if IsCriticalType(tl.kind) then
        Stop(None)
      else
        More(hints)
  }

  lemma HintUnfold(hints: seq<Bytes>, b: Bytes)
    ensures match StepHint(hints, b)
      case Stop(r) => ParseFwHint(hints, b) == r
      case More(h) => DecodeTL(b).kind != 0 && ParseFwHint(hints, b) == ParseFwHint(h, AfterFirst(b))
  {
    hide DecodeTL;
  }

  /** One round of the forwarding hint loop; it fails early only where a name does not fit a buffer. */
  method HintRound(p: Packet, d: TlvDecoder, hints: seq<Bytes>, ghost ahead: Bytes) returns (s: HintStep, d': TlvDecoder, ghost n: nat)
    requires p.Valid() && p.Owned() && Stands(p, d, ahead, d.length)
    modifies p, p.mbufs, p.bufs
    ensures p.Valid() && p.Owned() && p.Flat() == old(p.Flat())
    ensures fresh(p.mbufs - old(p.mbufs)) && fresh(p.bufs - old(p.bufs))
    ensures forall k: nat | Roomy(old(p.bufs), k) :: Roomy(p.bufs, k)
    ensures s == StepHint(hints, ahead[..d.length]) || (s == Stop(None) &&
      DecodeTL(ahead[..d.length]).kind != 0 && NameTooLong(old(p.bufs), First(ahead[..d.length])))
    ensures s.More? ==>
      && 0 < n <= d.length && Stands(p, d', ahead[n..], d.length - n)
      && DecodeTL(ahead[..d.length]).kind != 0 && ahead[n..][..d.length - n] == AfterFirst(ahead[..d.length])
    ensures s.Stop? && s.r.Some? ==> Stands(p, d', ahead[d.length..], 0)
  {
    hide Packet.Valid, Packet.Owned, Packet.Flat, Rest, DecodeTL, Roomy;
    var kind, length, d1 := ReadTL(p, d);
    ghost var tl := DecodeTL(ahead[..d.length]);
    n := tl.size;
    if kind == 0 {
      s, d' := Stop(if d1.length == 0 && hints != [] then Some(hints) else None), d1;
      return;
    }
    n := tl.size + length;
    Within(ahead, d.length, tl.size, length);
    s, d' := Stop(None), d1;
    if kind == TT_NAME && |hints| < MAX_FW_HINTS {
      if length <= Name.NAME_MAX_LENGTH {
        var v, d2 := Value(p, d1, length, ahead[tl.size..]);
        if v.Some? {
          s, d' := More(hints + [v.value]), d2;
        }
      }
    } else if kind == TT_NAME || !IsCriticalType(kind) {
      d' := SkipValue(p, d1, length, ahead[tl.size..]);
      s := More(hints);
    }
  }

  /** The names of a ForwardingHint: as on the flat bytes. */
  method FwHints(p: Packet, d: TlvDecoder, hints: seq<Bytes>, ghost ahead: Bytes) returns (r: Option<seq<Bytes>>, d': TlvDecoder)
    requires p.Valid() && p.Owned() && Stands(p, d, ahead, d.length)
    modifies p, p.mbufs, p.bufs
    ensures p.Valid() && p.Owned() && p.Flat() == old(p.Flat())
    ensures fresh(p.mbufs - old(p.mbufs)) && fresh(p.bufs - old(p.bufs))
    ensures forall k: nat | Roomy(old(p.bufs), k) :: Roomy(p.bufs, k)
    ensures r == ParseFwHint(hints, ahead[..d.length]) || (r == None && HintsTooLong(old(p.bufs), ahead[..d.length]))
    ensures r.Some? ==> Stands(p, d', ahead[d.length..], 0)
  {
    hide Packet.Valid, Packet.Owned, Packet.Flat, Rest, DecodeTL, Roomy, StepHint, ParseFwHint, TlvDecoder.In, TlvDecoder.Ahead, HintsTooLong, NameTooLong;
    var h := hints;
    d' := d;
    ghost var done: nat := 0;
    assert ahead[0..] == ahead;
    while true
      invariant p.Valid() && p.Owned() && p.Flat() == old(p.Flat())
      invariant fresh(p.mbufs - old(p.mbufs)) && fresh(p.bufs - old(p.bufs))
      invariant forall k: nat | Roomy(old(p.bufs), k) :: Roomy(p.bufs, k)
      invariant done <= d.length && Stands(p, d', ahead[done..], d.length - done)
      invariant ParseFwHint(hints, ahead[..d.length]) == ParseFwHint(h, ahead[done..][..d.length - done])
      invariant HintsTooLong(old(p.bufs), ahead[done..][..d.length - done]) ==> HintsTooLong(old(p.bufs), ahead[..d.length])
      decreases d'.length
    {
      ghost var b := ahead[done..][..d.length - done];
      HintUnfold(h, b);
      TooLongUnfold(old(p.bufs), p.bufs, b);
      ghost var n;
      var s;
      s, d', n := HintRound(p, d', h, ahead[done..]);
      match s {
        case Stop(x) =>
          r := x;
          assert ahead[done..][d.length - done..] == ahead[d.length..];
          return;
        case More(x) =>
          h := x;
          assert ahead[done..][n..] == ahead[done + n..];
          done := done + n;
      }
    }
  }

  lemma TooLongUnfold(bufs: set<array<Byte>>, bufs': set<array<Byte>>, b: Bytes)
    requires forall k: nat | Roomy(bufs, k) :: Roomy(bufs', k)
    ensures DecodeTL(b).kind != 0 && NameTooLong(bufs', First(b)) ==> HintsTooLong(bufs, b)
    ensures DecodeTL(b).kind != 0 && HintsTooLong(bufs, AfterFirst(b)) ==> HintsTooLong(bufs, b)
  {
    hide DecodeTL, Roomy;
  }

  lemma FewBytes(b: Bytes)
    ensures |b| == 4 ==> Be(b) <= 0xFFFF_FFFF
    ensures |b| == 1 ==> Be(b) <= 0xFF
  {
    Powers();
    ToBeBe(b);
  }

  /** A guider element. */
  method Guider(p: Packet, d: TlvDecoder, m: Meaning, kind: nat, n: nat, ghost ahead: Bytes) returns (r: Option<Meaning>, d': TlvDecoder)
    requires p.Valid() && Stands(p, d, ahead, d.length) && n <= d.length && IsGuider(kind)
    ensures p.Valid() && r == Interpret(m, Element(kind, ahead[..n]))
    ensures r.Some? ==> Stands(p, d', ahead[n..], d.length - n)
  {
    hide Packet.Valid, Rest, TlvDecoder.In, TlvDecoder.Ahead, Be;
    FewBytes(ahead[..n]);
    r, d' := None, d;
    if (kind == TT_NONCE && n != 4) || (kind == TT_HOP_LIMIT && n != 1) {
      return;
    }
    var x;
    x, d' := Number(p, d, n, if kind == TT_HOP_LIMIT then 0xFF else 0xFFFF_FFFF, ahead);
    if x.None? {
      return;
    }
    var g := if kind == TT_NONCE then m.guiders.(nonce := x.value)
             else if kind == TT_INTEREST_LIFETIME then m.guiders.(lifetime := x.value)
             else m.guiders.(hopLimit := x.value);
    r := Some(m.(guiders := g));
  }

  /** A Name element. */
  method NameElement(p: Packet, d: TlvDecoder, m: Meaning, n: nat, ghost ahead: Bytes) returns (r: Option<Meaning>, d': TlvDecoder)
    requires p.Valid() && p.Owned() && Stands(p, d, ahead, d.length) && n <= d.length
    modifies p, p.mbufs, p.bufs
    ensures p.Valid() && p.Owned() && p.Flat() == old(p.Flat())
    ensures fresh(p.mbufs - old(p.mbufs)) && fresh(p.bufs - old(p.bufs))
    ensures forall k: nat | Roomy(old(p.bufs), k) :: Roomy(p.bufs, k)
    ensures r == Interpret(m, Element(TT_NAME, ahead[..n])) || (r == None && NameTooLong(old(p.bufs), Element(TT_NAME, ahead[..n])))
    ensures r.Some? ==> Stands(p, d', ahead[n..], d.length - n)
  {
    hide Packet.Valid, Packet.Owned, Packet.Flat, Rest, Roomy, TlvDecoder.In, TlvDecoder.Ahead, Name.ParseComponents;
    r, d' := None, d;
    if n <= Name.NAME_MAX_LENGTH {
      var v;
      v, d' := Value(p, d, n, ahead);
      if v.Some? && Name.ParseComponents(v.value).Some? {
        r := Some(m.(name := v.value));
      }
    }
  }

  /** A ForwardingHint element: a decoder of its own for the value, whose end is where to go on. */
  method FwHintElement(p: Packet, d: TlvDecoder, m: Meaning, n: nat, ghost ahead: Bytes) returns (r: Option<Meaning>, d': TlvDecoder)
    requires p.Valid() && p.Owned() && Stands(p, d, ahead, d.length) && n <= d.length
    modifies p, p.mbufs, p.bufs
    ensures p.Valid() && p.Owned() && p.Flat() == old(p.Flat())
    ensures fresh(p.mbufs - old(p.mbufs)) && fresh(p.bufs - old(p.bufs))
    ensures forall k: nat | Roomy(old(p.bufs), k) :: Roomy(p.bufs, k)
    ensures r == Interpret(m, Element(TT_FORWARDING_HINT, ahead[..n])) || (r == None && HintsTooLong(old(p.bufs), ahead[..n]))
    ensures r.Some? ==> Stands(p, d', ahead[n..], d.length - n)
  {
    hide Packet.Valid, Packet.Owned, Packet.Flat, Rest, Roomy, ParseFwHint;
    var vd := d.(length := n);
    var h, vd' := FwHints(p, vd, m.fwHints, ahead);
    if h.Some? {
      r := Some(m.(fwHints := h.value));
      d' := vd'.(length := d.length - n);
    } else {
      r, d' := None, d;
    }
  }

  /** One element of an Interest. */
  method OneElement(p: Packet, d: TlvDecoder, m: Meaning, kind: nat, n: nat, ghost ahead: Bytes) returns (r: Option<Meaning>, d': TlvDecoder)
    requires p.Valid() && p.Owned() && Stands(p, d, ahead, d.length) && n <= d.length
    modifies p, p.mbufs, p.bufs
    ensures p.Valid() && p.Owned() && p.Flat() == old(p.Flat())
    ensures fresh(p.mbufs - old(p.mbufs)) && fresh(p.bufs - old(p.bufs))
    ensures forall k: nat | Roomy(old(p.bufs), k) :: Roomy(p.bufs, k)
    ensures r == Interpret(m, Element(kind, ahead[..n])) || (r == None && ElementTooLong(old(p.bufs), Element(kind, ahead[..n])))
    ensures r.Some? ==> Stands(p, d', ahead[n..], d.length - n)
  {
    hide Packet.Valid, Packet.Owned, Packet.Flat, Rest, Roomy, ParseFwHint, TlvDecoder.In, TlvDecoder.Ahead, Name.ParseComponents, DecodeNni, Be;
    if kind == TT_NAME {
      r, d' := NameElement(p, d, m, n, ahead);
    } else if kind == TT_FORWARDING_HINT {
      r, d' := FwHintElement(p, d, m, n, ahead);
    } else if IsGuider(kind) {
      r, d' := Guider(p, d, m, kind, n, ahead);
    } else if kind == TT_CAN_BE_PREFIX {
      d' := SkipValue(p, d, n, ahead);
      r := Some(m.(canBePrefix := true));
    } else if kind == TT_MUST_BE_FRESH {
      d' := SkipValue(p, d, n, ahead);
      r := Some(m.(mustBeFresh := true));
    } else if IsCriticalType(kind) {
      r, d' := None, d;
    } else {
      d' := SkipValue(p, d, n, ahead);
      r := Some(m);
    }
  }

  /** The loop over the elements: as on the flat bytes. */
  method ParseElements(p: Packet, d: TlvDecoder, ghost ahead: Bytes) returns (r: Option<Fields>)
    requires p.Valid() && p.Owned() && Stands(p, d, ahead, |ahead|)
    modifies p, p.mbufs, p.bufs
    ensures p.Valid() && p.Owned() && p.Flat() == old(p.Flat())
    ensures fresh(p.mbufs - old(p.mbufs)) && fresh(p.bufs - old(p.bufs))
    ensures r == ParseLoop(Fields(INIT, 0, 0), ahead) || (r == None && TooLong(old(p.bufs), ahead))
  {
    hide Packet.Valid, Packet.Owned, Packet.Flat, Rest, DecodeTL, Roomy, ParseLoop, TlvDecoder.In, TlvDecoder.Ahead, Interpret, INIT, ElementTooLong, TooLong;
    var f := Fields(INIT, 0, 0);
    var d' := d;
    ghost var b := ahead;
    while true
      invariant p.Valid() && p.Owned() && p.Flat() == old(p.Flat())
      invariant fresh(p.mbufs - old(p.mbufs)) && fresh(p.bufs - old(p.bufs))
      invariant forall k: nat | Roomy(old(p.bufs), k) :: Roomy(p.bufs, k)
      invariant Stands(p, d', b, |b|) && d'.length == |b| && ParseLoop(Fields(INIT, 0, 0), ahead) == ParseLoop(f, b)
      invariant TooLong(old(p.bufs), b) ==> TooLong(old(p.bufs), ahead)
      decreases d'.length
    {
      LoopUnfold(f, b);
      StillTooLong(old(p.bufs), p.bufs, b);
      var kind, n, d1 := ReadHeader(p, d', b);
      if kind in {0, TT_APP_PARAMETERS} {
        return Some(f);
      }
      var m, d2 := OneElement(p, d1, f.meaning, kind, n, b[DecodeTL(b).size..]);
      if m.None? {
        return None;
      }
      d' := d2;
      f := Fields(m.value,
                  if kind == TT_NONCE then d'.length + 6 else f.posNonce,
                  if IsGuider(kind) then d'.length else f.posEndGuider);
      b := AfterFirst(b);
    }
  }

  lemma StillTooLong(bufs: set<array<Byte>>, bufs': set<array<Byte>>, b: Bytes)
    requires forall k: nat | Roomy(bufs, k) :: Roomy(bufs', k)
    ensures !Stops(b) && ElementTooLong(bufs', First(b)) ==> TooLong(bufs, b)
    ensures !Stops(b) && TooLong(bufs, AfterFirst(b)) ==> TooLong(bufs, b)
  {
    hide DecodeTL, Roomy, First, ElementTooLong;
    if !Stops(b) {
      ElementEarlier(bufs, bufs', First(b));
    }
  }

  lemma LoopUnfold(f: Fields, b: Bytes)
    ensures var tl := DecodeTL(b);
      if tl.kind in {0, TT_APP_PARAMETERS} then
        ParseLoop(f, b) == Some(f)
      else
        && b[tl.size..][..tl.length] == First(b).value && b[tl.size..][tl.length..] == AfterFirst(b)
        && First(b).kind == tl.kind
        && var f' := Apply(f, First(b), |AfterFirst(b)|); ParseLoop(f, b) == if f'.None? then None else ParseLoop(f'.value, AfterFirst(b))
  {
    hide DecodeTL, Apply;
  }

  /** Parse an Interest: as on the flat bytes, unless a name in it is longer than some buffer. */
  method Parse(p: Packet) returns (r: Option<PInterest>)
    requires p.Valid() && p.Owned() && DecodeTL(p.Flat()).kind == TT_INTEREST
    modifies p, p.mbufs, p.bufs
    ensures p.Valid() && p.Owned() && p.Flat() == old(p.Flat())
    ensures var v := p.Flat()[DecodeTL(p.Flat()).size..];
      r == ParseValue(v) || (r == None && TooLong(old(p.bufs), v) && !Roomy(old(p.bufs), Name.NAME_MAX_LENGTH))
  {
    hide Packet.Valid, Packet.Owned, Packet.Flat, Rest, DecodeTL, Roomy, ParseLoop, Finish, INIT, TooLong;
    ghost var flat := p.Flat();
    var d := Init(p);
    var kind, n, d1 := ReadHeader(p, d, flat);
    ghost var v := flat[DecodeTL(flat).size..];
    var posStart := d1.length;
    NotRoomy(p.bufs, v);
    var f := ParseElements(p, d1, v);
    r := if f.None? then None else Finish(f.value, posStart);
  }

  // ------------------------------------------------------------------ rewriting

  /** A new mbuf with the new guiders. */
  method AppendGuiders(g: Guiders, bufLen: nat) returns (m: Mbuf)
    requires bufLen >= GUIDER_FIELDS_SIZE
    ensures fresh(m) && fresh(m.buf) && m.Fits() && m.Data() == EncodeGuiders(g)
  {
    hide ToBe;
    m := new Mbuf(bufLen);
    Store(m.buf, 0, [TT_NONCE, 4] + ToBe(g.nonce, 4) + [TT_INTEREST_LIFETIME, 4] + ToBe(g.lifetime, 4) + [TT_HOP_LIMIT, 1] + ToBe(g.hopLimit, 1));
    m.len := GUIDER_FIELDS_SIZE;
    assert m.Data() == m.buf[..][0..GUIDER_FIELDS_SIZE];
  }

  /** The bytes after the header of an Interest. */
  ghost function ValueOf(p: Packet): (v: Bytes)
    reads p
  {
    p.Flat()[DecodeTL(p.Flat()).size..]
  }

  /** New guiders and, unless it is empty, a clone of what comes after the old ones. */
  method NewTail(p: Packet, d: TlvDecoder, g: Guiders, bufLen: nat, ghost tail: Bytes) returns (q: Packet)
    requires p.Valid() && Stands(p, d, tail, |tail|) && bufLen >= GUIDER_FIELDS_SIZE
    ensures fresh(q) && fresh(q.mbufs) && q.Valid() && (forall b | b in q.bufs :: b in p.bufs || fresh(b))
    ensures NonEmpty(q.parts) && q.Flat() == EncodeGuiders(g) + tail
  {
    hide Packet.Valid, Rest, EncodeGuiders, Concat, NonEmpty;
    var m := AppendGuiders(g, bufLen);
    q := Single(m, EncodeGuiders(g));
    NonEmptyOne(EncodeGuiders(g));
    FlatOne(q, EncodeGuiders(g));
    if d.length > 0 {
      var last, d' := Clone(p, d, d.length);
      ghost var a := q.parts;
      Join(q, last);
      NonEmptyJoin(a, last.parts);
      assert tail[..|tail|] == tail;
    } else {
      assert EncodeGuiders(g) + tail == EncodeGuiders(g);
    }
  }

  /** The new value: a clone of what comes before the guiders, and the rest. */
  method NewValue(p: Packet, i: PInterest, g: Guiders, bufLen: nat) returns (q: Packet)
    requires p.Valid() && DecodeTL(p.Flat()).kind == TT_INTEREST && bufLen >= GUIDER_FIELDS_SIZE
    requires 0 < i.nonceOffset && i.nonceOffset + i.guiderSize <= |ValueOf(p)|
    ensures fresh(q) && fresh(q.mbufs) && q.Valid() && (forall b | b in q.bufs :: b in p.bufs || fresh(b))
    ensures NonEmpty(q.parts) && q.Flat() == Rewrite(ValueOf(p), i, g)
  {
    hide Packet.Valid, Packet.Flat, Rest, DecodeTL, EncodeGuiders, Concat, NonEmpty;
    ghost var v := ValueOf(p);
    var d0 := Init(p);
    var kind, n, d := ReadHeader(p, d0, p.Flat());
    q, d := Clone(p, d, i.nonceOffset);
    assert v[i.nonceOffset..][i.guiderSize..] == v[i.nonceOffset + i.guiderSize..];
    d := Skip(p, d, i.guiderSize);
    ghost var a, tail := q.parts, v[i.nonceOffset + i.guiderSize..];
    var rest := NewTail(p, d, g, bufLen, tail);
    Join(q, rest);
    NonEmptyJoin(a, rest.parts);
    Associate(v[..i.nonceOffset], EncodeGuiders(g), tail);
  }

  /** A new chain: a header that covers the given chain, and that chain. */
  method WithHeader(r: Packet, kind: nat, bufLen: nat, headroom: nat) returns (q: Packet)
    requires r.Valid() && NonEmpty(r.parts) && kind < 0xFD && |r.Flat()| < 0x1_0000_0000 && 6 <= headroom <= bufLen
    ensures fresh(q) && q.Valid() && NonEmpty(q.parts) && q.Flat() == EncodeTL(kind, |r.Flat()|) + r.Flat()
  {
    hide Packet.Flat, NonEmpty, Concat, Sum;
    var m := new Mbuf(bufLen);
    m.off := headroom;
    q := Single(m, []);
    FlatOne(q, []);
    ghost var parts := r.parts;
    Join(q, r);
    PacketLength(q);
    assert [] + r.Flat() == r.Flat();
    PrependTLV(q, m, kind);
    HeaderFirst(parts, EncodeTL(kind, |r.Flat()|));
  }

  /**
    Rewrite the guiders of a parsed Interest, without copying the rest of it: a new chain with the
    bytes that `Modified` gives, under a new header.  Nothing comes back where an assertion fails.
   */
  method ModifyGuiders(p: Packet, i: PInterest, g: Guiders, bufLen: nat, headroom: nat) returns (q: Option<Packet>)
    requires p.Valid() && DecodeTL(p.Flat()).kind == TT_INTEREST && ParseValue(ValueOf(p)) == Some(i)
    requires bufLen >= GUIDER_FIELDS_SIZE && 6 <= headroom <= bufLen
    requires |ValueOf(p)| + GUIDER_FIELDS_SIZE < 0x1_0000_0000
    ensures 0 <= i.nonceOffset && i.nonceOffset + i.guiderSize <= |ValueOf(p)|
    ensures q.Some? ==> fresh(q.value) && q.value.Valid() && NonEmpty(q.value.parts)
    ensures var v := Modified(ValueOf(p), i, g);
      if v.None? then q.None? else q.Some? && q.value.Flat() == EncodeTL(TT_INTEREST, |v.value|) + v.value
  {
    hide Packet.Valid, Packet.Flat, DecodeTL, EncodeGuiders, NonEmpty, ParseValue, Elements, EncodeAll, LastNonce, LastGuider, Rest;
    Layout(ValueOf(p));
    if i.nonceOffset == 0 {
      return None;
    }
    var r := NewValue(p, i, g, bufLen);
    var whole := WithHeader(r, TT_INTEREST, bufLen, headroom);
    q := Some(whole);
  }

  lemma HeaderFirst(parts: seq<Bytes>, tl: Bytes)
    requires NonEmpty(parts) && tl != []
    ensures NonEmpty([tl + []] + parts) && ([[]] + parts)[1..] == parts
  {
  }

  lemma FlatOne(q: Packet, data: Bytes)
    requires q.parts == [data]
    ensures q.Flat() == data
  {
    assert [data][1..] == [];
    assert Concat([data]) == data + [];
  }

  lemma NonEmptyJoin(a: seq<Bytes>, b: seq<Bytes>)
    requires NonEmpty(a) && NonEmpty(b)
    ensures NonEmpty(a + b)
  {
  }
}