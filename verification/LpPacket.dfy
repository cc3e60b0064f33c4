/** The NDNLPv2 header parser on an mbuf (csrc/ndni/lp.c). */
module LpPacket {
  import opened Common
  import opened Chain
  import opened Mbuf
  import opened Tlv
  import opened TlvRead
  import opened Lp

  lemma NackUnfold(reason: nat, b: Bytes)
    ensures var tl := DecodeTL(b);
      && (tl.kind == 0 ==> ParseNack(reason, b) == Some(reason))
      && (tl.kind == TT_NACK_REASON ==>
            var n := NniUpTo(b[tl.size..][..tl.length], 0xFF);
            ParseNack(reason, b) == ParseNack(if n.Some? then n.value else NACK_UNSPECIFIED, b[tl.size..][Min(8, tl.length)..]))
      && (tl.kind != 0 && tl.kind != TT_NACK_REASON ==>
            ParseNack(reason, b) == if IsCritical(tl.kind) then None else ParseNack(reason, b[tl.size..][tl.length..]))
  {
    hide DecodeTL, DecodeNni;
    var tl := DecodeTL(b);
    if tl.kind != 0 {
      assert b[tl.size..][..tl.length] == b[tl.size..tl.size + tl.length];
      assert b[tl.size..][tl.length..] == b[tl.size + tl.length..];
      assert b[tl.size..][Min(8, tl.length)..] == b[tl.size + Min(8, tl.length)..];
    }
  }

  /** Slices of what lies ahead, when only the first `n` bytes may be read. */
  lemma Limited(ahead: Bytes, n: nat, k: nat)
    requires k <= n <= |ahead|
    ensures ahead[..n][k..] == ahead[k..][..n - k] && ahead[..n][..k] == ahead[..k]
  {
  }

  /** The value of a Nack: as on the flat bytes. */
  method Nack(p: Packet, d: TlvDecoder, ghost ahead: Bytes) returns (r: Option<nat>)
    requires p.Valid() && Stands(p, d, ahead, d.length)
    ensures r == ParseNack(NACK_UNSPECIFIED, ahead[..d.length])
  {
    hide Packet.Valid, Rest, DecodeTL, ParseNack, DecodeNni, TlvDecoder.In, TlvDecoder.Ahead;
    var reason: nat, c := NACK_UNSPECIFIED, d;
    ghost var x := ahead;
    while true
      invariant p.Valid() && Stands(p, c, x, c.length)
      invariant ParseNack(NACK_UNSPECIFIED, ahead[..d.length]) == ParseNack(reason, x[..c.length])
      decreases c.length
    {
      ghost var b, tl := x[..c.length], DecodeTL(x[..c.length]);
      NackUnfold(reason, b);
      Limited(x, c.length, tl.size);
      var kind, n, c1 := LimitedHeader(p, c, x);
      if kind == 0 {
        return Some(reason);
      }
      ghost var y := x[tl.size..];
      Limited(y, c1.length, n);
      Limited(y, c1.length, Min(8, n));
      if kind == TT_NACK_REASON {
        var v;
        v, c := Number(p, c1, n, 0xFF, y);
        reason := if v.Some? then v.value else NACK_UNSPECIFIED;
        x := y[Min(8, n)..];
      } else if IsCritical(kind) {
        return None;
      } else {
        c := SkipValue(p, c1, n, y);
        x := y[n..];
      }
    }
  }

  /** One field of the header. */
  method Field(p: Packet, d: TlvDecoder, f: Fields, kind: nat, n: nat, ghost ahead: Bytes) returns (r: Option<Fields>, d': TlvDecoder)
    requires p.Valid() && Stands(p, d, ahead, d.length) && n <= d.length
    ensures p.Valid() && r == Interpret(f, Element(kind, ahead[..n]))
    ensures r.Some? ==> Stands(p, d', ahead[n..], d.length - n)
  {
    hide Packet.Valid, Rest, ParseNack, Be, TlvDecoder.In, TlvDecoder.Ahead;
    r, d' := None, d;
    if kind == TT_LP_SEQ_NUM {
      if n == 8 {
        EightBytes(ahead[..n]);
        var v;
        v, d' := Number(p, d, n, 0xFFFF_FFFF_FFFF_FFFF, ahead);
        r := if v.Some? then Some(f.(seqNum := v.value)) else None;
      }
    } else if kind == TT_FRAG_INDEX {
      var v;
      v, d' := Number(p, d, n, MAX_FRAGMENTS - 1, ahead);
      r := if v.Some? then Some(f.(fragIndex := v.value)) else None;
    } else if kind == TT_FRAG_COUNT {
      var v;
      v, d' := Number(p, d, n, MAX_FRAGMENTS, ahead);
      r := if v.Some? then Some(f.(fragCount := v.value)) else None;
    } else if kind == TT_CONGESTION_MARK {
      var v;
      v, d' := Number(p, d, n, 0xFF, ahead);
      r := if v.Some? then Some(f.(l3 := f.l3.(congMark := v.value))) else None;
    } else if kind == TT_PIT_TOKEN {
      if n <= MAX_PIT_TOKEN {
        var v;
        v, d' := Token(p, d, n, ahead);
        r := Some(f.(l3 := f.l3.(pitToken := v)));
      }
    } else if kind == TT_NACK {
      ShorterStands(p, d, ahead, n);
      var v := Nack(p, d.(length := n), ahead);
      d' := SkipValue(p, d, n, ahead);
      r := if v.Some? then Some(f.(l3 := f.l3.(nackReason := v.value))) else None;
    } else if !IsCritical(kind) {
      d' := SkipValue(p, d, n, ahead);
      r := Some(f);
    }
  }

  lemma ShorterStands(p: Packet, d: TlvDecoder, ahead: Bytes, n: nat)
    requires Stands(p, d, ahead, d.length) && n <= d.length
    ensures Stands(p, d.(length := n), ahead, n)
  {
  }

  lemma EightBytes(b: Bytes)
    requires |b| == 8
    ensures Be(b) <= 0xFFFF_FFFF_FFFF_FFFF
  {
    Powers();
    ToBeBe(b);
  }

  method Token(p: Packet, d: TlvDecoder, n: nat, ghost ahead: Bytes) returns (v: Bytes, d': TlvDecoder)
    requires p.Valid() && Stands(p, d, ahead, d.length) && n <= d.length
    ensures p.Valid() && v == ahead[..n] && Stands(p, d', ahead[n..], d.length - n)
  {
    hide Packet.Valid, Rest;
    assert ahead[..d.length][..n] == ahead[..n];
    v, d' := ReadBytes(p, d, n);
  }

  /** The header of the next element, among the bytes that may be read. */
  method LimitedHeader(p: Packet, d: TlvDecoder, ghost ahead: Bytes) returns (kind: nat, n: nat, d': TlvDecoder)
    requires p.Valid() && Stands(p, d, ahead, d.length)
    ensures p.Valid() && kind == DecodeTL(ahead[..d.length]).kind
    ensures var tl := DecodeTL(ahead[..d.length]);
      kind != 0 ==> n == tl.length && tl.size <= d.length && Stands(p, d', ahead[tl.size..], d.length - tl.size) && n <= d'.length
  {
    hide Packet.Valid, Rest, DecodeTL;
    kind, n, d' := ReadTL(p, d);
  }

  lemma FieldsUnfold(f: Fields, b: Bytes)
    ensures var tl := DecodeTL(b);
      && (tl.kind == 0 ==> ParseFields(f, b) == Some((f, [])))
      && (tl.kind == TT_LP_PAYLOAD ==> ParseFields(f, b) == Some((f, b[tl.size..][..tl.length])))
      && (tl.kind != 0 && tl.kind != TT_LP_PAYLOAD ==>
            var f' := Interpret(f, Element(tl.kind, b[tl.size..][..tl.length]));
            ParseFields(f, b) == if f'.None? then None else ParseFields(f'.value, b[tl.size..][tl.length..]))
  {
    hide DecodeTL, Interpret;
    var tl := DecodeTL(b);
    if tl.kind != 0 {
      assert b[tl.size..][..tl.length] == b[tl.size..tl.size + tl.length];
      assert b[tl.size..][tl.length..] == b[tl.size + tl.length..];
    }
  }

  /** The loop over the fields: where the payload is, if there is one. */
  method HeaderFields(p: Packet, d: TlvDecoder, ghost b: Bytes) returns (r: Option<Fields>, at: TlvDecoder, length: nat, ghost payload: Bytes)
    requires p.Valid() && Stands(p, d, b, |b|)
    ensures p.Valid() && ParseFields(INIT, b) == if r.None? then None else Some((r.value, payload))
    ensures r.Some? ==> length == |payload| && (length > 0 ==> at.In(p) && payload <= at.Ahead(p))
  {
    hide Packet.Valid, Rest, DecodeTL, Interpret, ParseFields, INIT;
    var f, c := INIT, d;
    ghost var x := b;
    at, length, payload := d, 0, [];
    while true
      invariant p.Valid() && Stands(p, c, x, |x|) && ParseFields(INIT, b) == ParseFields(f, x)
      decreases c.length
    {
      FieldsUnfold(f, x);
      ghost var tl := DecodeTL(x);
      var kind, n, c1 := ReadHeader(p, c, x);
      if kind == 0 {
        return Some(f), d, 0, [];
      }
      if kind == TT_LP_PAYLOAD {
        return Some(f), c1, n, x[tl.size..][..n];
      }
      var f';
      f', c := Field(p, c1, f, kind, n, x[tl.size..]);
      if f'.None? {
        return None, d, 0, [];
      }
      f := f'.value;
      x := x[tl.size..][n..];
    }
  }

  /** Keep `n` bytes of the only segment, from an offset on. */
  method Trim(p: Packet, offset: nat, n: nat)
    requires p.Valid() && |p.segs| == 1 && offset + n <= |p.parts[0]|
    modifies p`pktLen, p`parts, p.segs[0]
    ensures p.Valid() && p.parts == [old(p.parts)[0][offset..offset + n]] && p.segs == old(p.segs)
  {
    ghost var part := p.parts[0];
    var m := p.segs[0];
    m.off := m.off + offset;
    m.len := n;
    p.pktLen := n;
    p.parts := [part[offset..offset + n]];
    assert p.parts[1..] == [];
    assert m.Data() == part[offset..offset + n];
  }

  /** A cursor over a single segment. */
  lemma OneSegment(p: Packet, d: TlvDecoder)
    requires |p.parts| == 1 && d.In(p)
    ensures d.m == 0 ==> d.offset <= |p.parts[0]| && d.Ahead(p) == p.parts[0][d.offset..]
    ensures d.m == 0 && d.offset > 0 ==> d.offset < |p.parts[0]|
    ensures d.m != 0 ==> d.m == 1 && d.offset == 0 && d.Ahead(p) == []
    ensures p.Flat() == p.parts[0]
  {
    FlatOnly(p);
    assert p.parts[1..] == [];
  }

  lemma AtOffset(p: Packet, offset: nat, n: nat)
    requires |p.parts| == 1 && |p.parts[0]| == offset + n
    ensures if n == 0 then Stands(p, TlvDecoder(1, 0, 0), [], 0) else Stands(p, TlvDecoder(0, offset, n), p.parts[0][offset..], n)
  {
    assert p.parts[1..] == [];
  }

  /** Strip the header and the trailer of a frame: what is left is the payload. */
  method Parse(p: Packet) returns (r: Option<(L3, L2)>)
    requires p.Valid() && |p.segs| == 1
    modifies p`pktLen, p`parts, p.segs[0]
    ensures p.Valid()
    ensures r.Some? == ParseFrame(old(p.Flat())).Some?
    ensures r.Some? ==> var f := ParseFrame(old(p.Flat())).value; r.value == (f.l3, f.l2) && p.Flat() == f.payload
  {
    hide Packet.Valid, Rest, DecodeTL, ParseFields, INIT, Concat, TlvDecoder.In, TlvDecoder.Ahead;
    ghost var b := p.Flat();
    p.Holds(0);
    var d := Init(p);
    OneSegment(p, d);
    var kind, n, d1 := ReadHeader(p, d, b);
    ghost var size := DecodeTL(b).size;
    if kind == 0 {
      return None;
    }
    OneSegment(p, d1);
    assert d1.m == 0 ==> d1.offset == size < |b|;
    Trim(p, 0, d1.offset + n);
    AtOffset(p, d1.offset, n);
    FlatOnly(p);
    assert b[0..d1.offset + n] == b[..d1.offset + n];
    if kind == TT_INTEREST || kind == TT_DATA {
      return Some((L3_NONE, L2_NONE));
    }
    if kind != TT_LP_PACKET {
      return None;
    }
    r := StripHeader(p, if n == 0 then TlvDecoder(1, 0, 0) else TlvDecoder(0, d1.offset, n), b[size..size + n]);
  }

  /** Find the payload, and keep only that. */
  method StripHeader(p: Packet, d: TlvDecoder, ghost v: Bytes) returns (r: Option<(L3, L2)>)
    requires p.Valid() && |p.segs| == 1 && Stands(p, d, v, |v|)
    modifies p`pktLen, p`parts, p.segs[0]
    ensures p.Valid()
    ensures var f := ParseFields(INIT, v);
      var g := if f.None? then None else Finish(f.value.0, f.value.1);
      r.Some? == g.Some? && (r.Some? ==> r.value == (g.value.l3, g.value.l2) && p.Flat() == g.value.payload)
  {
    hide Packet.Valid, Rest, ParseFields, INIT, Concat, TlvDecoder.In, TlvDecoder.Ahead;
    p.Holds(0);
    var f, at, length;
    ghost var payload;
    f, at, length, payload := HeaderFields(p, d, v);
    if f.None? {
      return None;
    }
    if length > 0 {
      OneSegment(p, at);
    }
    Trim(p, if length > 0 then at.offset else 0, length);
    AtOffset(p, 0, length);
    FlatOnly(p);
    var l2 := L2((f.value.seqNum - f.value.fragIndex) % SEQ_MOD, f.value.fragIndex, f.value.fragCount);
    r := if f.value.fragIndex < f.value.fragCount then Some((f.value.l3, l2)) else None;
  }

  lemma FlatOnly(p: Packet)
    requires |p.parts| == 1
    ensures p.Flat() == p.parts[0]
  {
    assert p.parts[1..] == [];
    assert Concat(p.parts) == p.parts[0] + [];
  }
}
