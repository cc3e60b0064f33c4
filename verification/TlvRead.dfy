/** Reading and writing TLV numbers and headers in mbufs (csrc/ndni/tlv-decoder.h, csrc/ndni/tlv-encoder.h). */
module TlvRead {
  import opened Common
  import opened Chain
  import opened Mbuf
  import opened Tlv

  /** The bytes that the decoder may still read. */
  ghost function Left(p: Packet, d: TlvDecoder): (b: Bytes)
    requires d.In(p)
    reads p
  {
    d.Ahead(p)[..d.length]
  }

  /** The decoder has moved forward by `n` bytes. */
  ghost predicate Moved(p: Packet, d: TlvDecoder, d': TlvDecoder, n: nat)
    reads p
  {
    d.In(p) && d'.In(p) && n <= d.length && d'.Ahead(p) == d.Ahead(p)[n..] && d'.length == d.length - n
  }

  lemma MovedLeft(p: Packet, d: TlvDecoder, d': TlvDecoder, n: nat)
    requires Moved(p, d, d', n)
    ensures Left(p, d') == Left(p, d)[n..] && |Left(p, d)| == d.length
  {
  }

  lemma MovedTwice(p: Packet, d: TlvDecoder, d1: TlvDecoder, d2: TlvDecoder, n1: nat, n2: nat)
    requires Moved(p, d, d1, n1) && Moved(p, d1, d2, n2)
    ensures Moved(p, d, d2, n1 + n2)
  {
  }

  lemma NotMoved(p: Packet, d: TlvDecoder)
    requires d.In(p)
    ensures Moved(p, d, d, 0)
  {
  }

  /** Read a few bytes, through a scratch buffer when they are not contiguous. */
  method ReadBytes(p: Packet, d: TlvDecoder, count: nat) returns (b: Bytes, d': TlvDecoder)
    requires p.Valid() && d.In(p) && count <= d.length
    ensures p.Valid() && Moved(p, d, d', count) && |Left(p, d)| == d.length && b == Left(p, d)[..count]
  {
    hide Rest, Packet.Valid, Apart;
    var scratch := new Byte[count](_ => 0);
    ScratchApart(p, scratch);
    var r;
    r, d' := Read(p, d, scratch, count);
    if r == Null {
      b := scratch[..count];
    } else {
      p.SegLen(r.m);
      var seg := p.segs[r.m];
      b := seg.buf[seg.off + r.offset..seg.off + r.offset + count];
      assert b == seg.Data()[r.offset..r.offset + count];
    }
    assert d.Ahead(p)[..d.length][..count] == d.Ahead(p)[..count];
  }

  lemma ScratchApart(p: Packet, scratch: array<Byte>)
    requires p.Valid() && scratch !in p.bufs
    ensures Apart(p.segs, -1, scratch)
  {
  }

  /** Read a VAR-NUMBER: as on the flat bytes. */
  method ReadVarNum(p: Packet, d: TlvDecoder) returns (ok: bool, n: nat, d': TlvDecoder)
    requires p.Valid() && d.In(p)
    ensures p.Valid() && Moved(p, d, d', DecodeVarNum(Left(p, d)).size)
    ensures ok == DecodeVarNum(Left(p, d)).ok && (ok ==> n == DecodeVarNum(Left(p, d)).n)
  {
    hide Packet.Valid, Moved, Be;
    NotMoved(p, d);
    MovedLeft(p, d, d, 0);
    ghost var left := Left(p, d);
    if d.length < 1 {
      return false, 0, d;
    }
    var b, d1 := ReadBytes(p, d, 1);
    MovedLeft(p, d, d1, 1);
    MovedIn(p, d, d1, 1);
    d', n := d1, 0;
    match b[0]
    case 0xFD =>
      if d1.length >= 2 {
        b, d' := ReadBytes(p, d1, 2);
        MovedTwice(p, d, d1, d', 1, 2);
        assert b == left[1..3];
        n := Be(b);
        ok := n >= 0xFD;
      } else {
        ok := false;
      }
    case 0xFE =>
      if d1.length >= 4 {
        b, d' := ReadBytes(p, d1, 4);
        MovedTwice(p, d, d1, d', 1, 4);
        assert b == left[1..5];
        n := Be(b);
        ok := n > 0xFFFF;
      } else {
        ok := false;
      }
    case 0xFF =>
      ok := false;
    case _ =>
      n, ok := b[0], true;
  }

  lemma MovedIn(p: Packet, d: TlvDecoder, d': TlvDecoder, n: nat)
    requires Moved(p, d, d', n)
    ensures d'.In(p) && n <= d.length && d'.length == d.length - n
  {
  }

  /** Read TLV-TYPE and TLV-LENGTH: as on the flat bytes. */
  method ReadTL(p: Packet, d: TlvDecoder) returns (kind: nat, length: nat, d': TlvDecoder)
    requires p.Valid() && d.In(p)
    ensures p.Valid() && Moved(p, d, d', DecodeTL(Left(p, d)).size)
    ensures kind == DecodeTL(Left(p, d)).kind && (kind != 0 ==> length == DecodeTL(Left(p, d)).length <= d'.length)
  {
    hide Packet.Valid, Moved, DecodeVarNum;
    NotMoved(p, d);
    MovedLeft(p, d, d, 0);
    var ok, t, d1 := ReadVarNum(p, d);
    MovedIn(p, d, d1, DecodeVarNum(Left(p, d)).size);
    MovedLeft(p, d, d1, DecodeVarNum(Left(p, d)).size);
    if !ok {
      return 0, 0, d1;
    }
    ok, length, d' := ReadVarNum(p, d1);
    MovedIn(p, d1, d', DecodeVarNum(Left(p, d1)).size);
    MovedTwice(p, d, d1, d', DecodeVarNum(Left(p, d)).size, DecodeVarNum(Left(p, d1)).size);
    kind := if ok && length <= d'.length then t else 0;
  }

  /** Read a NonNegativeInteger of the given length, up to a maximum. */
  method ReadNni(p: Packet, d: TlvDecoder, length: nat, max: nat) returns (r: Option<nat>, d': TlvDecoder)
    requires p.Valid() && d.In(p) && length <= d.length
    ensures p.Valid() && |Left(p, d)| == d.length
    ensures r == (var n := DecodeNni(Left(p, d)[..length]); if n.Some? && n.value <= max then n else None)
    ensures Moved(p, d, d', if length < 8 then length else 8)
  {
    hide Packet.Valid, Moved, Be;
    var b;
    b, d' := ReadBytes(p, d, if length < 8 then length else 8);
    r := None;
    if length in {1, 2, 4, 8} {
      var n := Be(b);
      r := if n <= max then Some(n) else None;
    }
  }

  /** Some bytes with others written over them. */
  ghost function Put(b: Bytes, at: nat, x: Bytes): (r: Bytes)
    requires at + |x| <= |b|
  {
    b[..at] + x + b[at + |x|..]
  }

  /** Write a VAR-NUMBER into a buffer. */
  method WriteVarNum(room: array<Byte>, at: nat, n: nat) returns (size: nat)
    requires n < 0x1_0000_0000 && at + SizeofVarNum(n) <= room.Length
    modifies room
    ensures size == SizeofVarNum(n)
    ensures room[..] == Put(old(room[..]), at, EncodeVarNum(n))
  {
    if n < 0xFD {
      room[at] := n;
      size := 1;
    } else if n <= 0xFFFF {
      room[at] := 0xFD;
      room[at + 1], room[at + 2] := n / 256, n % 256;
      size := 3;
      assert ToBe(n, 2) == [n / 256, n % 256];
    } else {
      room[at] := 0xFE;
      room[at + 1], room[at + 2], room[at + 3], room[at + 4] := n / 256 / 256 / 256, n / 256 / 256 % 256, n / 256 % 256, n % 256;
      size := 5;
      FourBytes(n);
    }
  }

  lemma FourBytes(n: nat)
    requires n < 0x1_0000_0000
    ensures ToBe(n, 4) == [n / 256 / 256 / 256, n / 256 / 256 % 256, n / 256 % 256, n % 256]
  {
    var q := n / 256 / 256;
    assert ToBe(q, 2) == [q / 256, q % 256];
    assert ToBe(n / 256, 3) == ToBe(q, 2) + [n / 256 % 256];
  }

  /** Prepend TLV-TYPE and TLV-LENGTH to an mbuf that has enough headroom. */
  method PrependTL(m: Mbuf, kind: nat, length: nat)
    requires m.Fits() && kind < 0x1_0000_0000 && length < 0x1_0000_0000
    requires SizeofVarNum(kind) + SizeofVarNum(length) <= m.off
    modifies m, m.buf
    ensures m.Fits() && m.Data() == EncodeTL(kind, length) + old(m.Data())
    ensures m.off == old(m.off) - SizeofVarNum(kind) - SizeofVarNum(length)
  {
    hide EncodeVarNum, SizeofVarNum, Put;
    var size := SizeofVarNum(kind) + SizeofVarNum(length);
    ghost var was, off, len := m.buf[..], m.off, m.len;
    m.off := m.off - size;
    m.len := m.len + size;
    var w := WriteVarNum(m.buf, m.off, kind);
    w := WriteVarNum(m.buf, m.off + w, length);
    Prepended(was, m.buf[..], off, len, EncodeVarNum(kind), EncodeVarNum(length));
    assert m.Data() == m.buf[..][off - size..off + len] && old(m.Data()) == was[off..off + len];
  }

  lemma Prepended(was: Bytes, now: Bytes, off: nat, len: nat, a: Bytes, b: Bytes)
    requires off + len <= |was| && |a| + |b| <= off && now == Put(Put(was, off - |a| - |b|, a), off - |b|, b)
    ensures |now| == |was| && now[off - |a| - |b|..off + len] == a + b + was[off..off + len]
  {
    var at := off - |a| - |b|;
    assert now == was[..at] + a + b + was[off..];
  }

  /** Store bytes in a buffer. */
  method Store(buf: array<Byte>, at: nat, x: Bytes)
    requires at + |x| <= buf.Length
    modifies buf
    ensures buf[..] == Put(old(buf[..]), at, x)
  {
    for i := 0 to |x|
      invariant buf[..] == Put(old(buf[..]), at, x[..i])
    {
      buf[at + i] := x[i];
    }
    assert x[..|x|] == x;
  }

  /** The first segment of a packet, and no other, uses this mbuf and its buffer. */
  ghost predicate HasHead(q: Packet, m: Mbuf)
    reads q
  {
    && q.segs != [] && m == q.segs[0]
    && forall i | 0 < i < |q.segs| :: q.segs[i] != m && q.segs[i].buf != m.buf
  }

  /** A chain whose first segment has grown at the front is valid, once its counter has been updated. */
  lemma Grown(q: Packet, m: Mbuf, x: Bytes, parts: seq<Bytes>)
    requires HasHead(q, m) && q.nbSegs == |q.segs| == |parts| && q.pktLen == |x| + Sum(parts) && Listed(q)
    requires Others(q.segs, parts, 0) && m.Fits() && m.Data() == x + parts[0] && q.parts == [x + parts[0]] + parts[1..]
    ensures q.Valid() && q.Flat() == x + Concat(parts)
  {
    assert q.parts[1..] == parts[1..];
    Associate(x, parts[0], Concat(parts[1..]));
    assert Concat(q.parts) == x + Concat(parts);
    hide Concat, Sum;
  }

  /** Prepend bytes in the headroom of the first segment. */
  method PrependBytes(q: Packet, m: Mbuf, x: Bytes)
    requires q.Valid() && HasHead(q, m) && |x| <= m.off
    modifies q`pktLen, q`parts, m, m.buf
    ensures q.Valid() && q.Flat() == x + old(q.Flat()) && m.off == old(m.off) - |x|
    ensures q.parts == [x + old(q.parts)[0]] + old(q.parts)[1..]
  {
    hide Packet.Valid, Sum, Concat;
    q.Holds(0);
    OtherSeg(q.segs, q.parts, -1, 0);
    ghost var parts := q.parts;
    var off := m.off - |x|;
    Store(m.buf, off, x);
    Filled(old(m.buf[..]), m.buf[..], m.off, m.len, x);
    m.off := off;
    m.len := m.len + |x|;
    assert m.Data() == m.buf[..][m.off..m.off + m.len] && old(m.Data()) == old(m.buf[..])[old(m.off)..old(m.off) + old(m.len)];
    q.pktLen := q.pktLen + |x|;
    q.parts := [x + parts[0]] + parts[1..];
    Grown(q, m, x, parts);
  }

  lemma Filled(was: Bytes, now: Bytes, off: nat, len: nat, x: Bytes)
    requires off + len <= |was| && |x| <= off && now == Put(was, off - |x|, x)
    ensures now[off - |x|..off + len] == x + was[off..off + len]
  {
  }

  /** Prepend a TLV header that covers a whole chain, in its first segment. */
  method PrependTLV(q: Packet, m: Mbuf, kind: nat)
    requires q.Valid() && HasHead(q, m) && kind < 0xFD && |q.Flat()| < 0x1_0000_0000 && m.off >= 1 + SizeofVarNum(|q.Flat()|)
    modifies q`pktLen, q`parts, m, m.buf
    ensures q.Valid() && q.Flat() == Element(kind, old(q.Flat())).Encode() && m.off == old(m.off) - 1 - SizeofVarNum(|old(q.Flat())|)
    ensures q.parts == [EncodeTL(kind, |old(q.Flat())|) + old(q.parts)[0]] + old(q.parts)[1..]
  {
    hide Packet.Valid, Sum, Concat, EncodeTL;
    PacketLength(q);
    q.Holds(0);
    OtherSeg(q.segs, q.parts, -1, 0);
    ghost var parts, tl := q.parts, EncodeTL(kind, q.pktLen);
    var length := q.pktLen;
    HeaderSize(kind, length);
    PrependTL(m, kind, length);
    q.pktLen := q.pktLen + SizeofVarNum(kind) + SizeofVarNum(length);
    q.parts := [tl + parts[0]] + parts[1..];
    Grown(q, m, tl, parts);
  }

  lemma HeaderSize(kind: nat, length: nat)
    ensures |EncodeTL(kind, length)| == SizeofVarNum(kind) + SizeofVarNum(length)
    ensures kind < 0xFD ==> |EncodeTL(kind, length)| <= 6
  {
  }

  /** A cursor of the given remaining bytes, `ahead` of it to the end of the packet. */
  ghost predicate Stands(p: Packet, d: TlvDecoder, ahead: Bytes, length: nat)
    reads p
  {
    d.In(p) && d.Ahead(p) == ahead && d.length == length <= |ahead|
  }

  /** The bytes of an element within what the decoder may read. */
  lemma Within(ahead: Bytes, length: nat, size: nat, n: nat)
    requires size + n <= length <= |ahead|
    ensures ahead[..length][size..size + n] == ahead[size..][..n]
    ensures ahead[..length][size + n..] == ahead[size + n..][..length - size - n]
    ensures ahead[size..][n..] == ahead[size + n..]
  {
  }

  /** Skip, in terms of what lies ahead. */
  method SkipValue(p: Packet, d: TlvDecoder, n: nat, ghost ahead: Bytes) returns (d': TlvDecoder)
    requires p.Valid() && Stands(p, d, ahead, d.length) && n <= d.length
    ensures Stands(p, d', ahead[n..], d.length - n)
  {
    hide Packet.Valid, Rest;
    d' := Skip(p, d, n);
  }

  /** A number in an element. */
  method Number(p: Packet, d: TlvDecoder, n: nat, max: nat, ghost ahead: Bytes) returns (r: Option<nat>, d': TlvDecoder)
    requires p.Valid() && Stands(p, d, ahead, d.length) && n <= d.length
    ensures p.Valid()
    ensures r == var x := DecodeNni(ahead[..n]); if x.Some? && x.value <= max then x else None
    ensures var k := if n < 8 then n else 8; Stands(p, d', ahead[k..], d.length - k)
    ensures r.Some? ==> n <= 8
  {
    hide Packet.Valid, Rest;
    assert ahead[..d.length][..n] == ahead[..n];
    r, d' := ReadNni(p, d, n, max);
  }

  /** The header of the next element, when all of the packet may be read. */
  method ReadHeader(p: Packet, d: TlvDecoder, ghost b: Bytes) returns (kind: nat, n: nat, d': TlvDecoder)
    requires p.Valid() && Stands(p, d, b, |b|)
    ensures p.Valid() && kind == DecodeTL(b).kind
    ensures kind != 0 ==> n == DecodeTL(b).length && Stands(p, d', b[DecodeTL(b).size..], |b| - DecodeTL(b).size) && n <= d'.length
  {
    hide Packet.Valid, Rest, DecodeTL;
    assert b[..d.length] == b;
    kind, n, d' := ReadTL(p, d);
  }
}
