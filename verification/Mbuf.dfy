/**
  Packet buffers and the TLV decoder's cursor over them (csrc/ndni/tlv-decoder.h,
  csrc/ndni/tlv-decoder.c, csrc/dpdk/mbuf.h).

  An mbuf is a window of `len` bytes at offset `off` of a fixed-size buffer.  A packet is a chain
  of mbufs; the position of an mbuf in the chain stands for a pointer to it, and the length of the
  chain stands for NULL.
 */
module Mbuf {
  import opened Chain

  class Mbuf {
    const buf: array<Byte>
    var off: nat
    var len: nat

    constructor (bufLen: nat)
      ensures fresh(buf) && buf.Length == bufLen && off == 0 && len == 0
    {
      buf := new Byte[bufLen](_ => 0);
      off, len := 0, 0;
    }

    /** An indirect mbuf on `n` bytes of another one. */
    constructor Attach(m: Mbuf, offset: nat, n: nat)
      ensures buf == m.buf && off == m.off + offset && len == n
    {
      buf := m.buf;
      off, len := m.off + offset, n;
    }

    ghost predicate Fits()
      reads this
    {
      off + len <= buf.Length
    }

    ghost function Data(): (d: Bytes)
      reads this, buf
    {
      if Fits() then buf[off..off + len] else []
    }

    lemma Slice(offset: nat, n: nat)
      requires Fits() && offset + n <= len
      ensures buf[off + offset..off + offset + n] == Data()[offset..offset + n]
    {
    }
  }

  ghost predicate Distinct(segs: seq<Mbuf>) {
    forall i, j | 0 <= i < j < |segs| :: segs[i] != segs[j] && segs[i].buf != segs[j].buf
  }

  lemma DistinctCut(segs: seq<Mbuf>, i: nat, m: nat)
    requires Distinct(segs) && i <= m <= |segs|
    ensures Distinct(segs[..i] + segs[m..])
  {
  }

  class Packet {
    var segs: seq<Mbuf>
    var pktLen: nat
    var nbSegs: nat
    /** The contents of the segments, the mbufs of the chain, and their buffers. */
    ghost var parts: seq<Bytes>
    ghost var mbufs: set<Mbuf>
    ghost var bufs: set<array<Byte>>

    /** The counters agree with the chain. */
    ghost predicate Valid()
      reads this, mbufs, bufs
    {
      && nbSegs == |segs| == |parts| && pktLen == Sum(parts)
      && (forall i | 0 <= i < |segs| ::
            segs[i] in mbufs && segs[i].buf in bufs && segs[i].Fits() && parts[i] == segs[i].Data())
    }

    /** Every segment is a direct mbuf that nobody else uses. */
    ghost predicate Owned()
      reads this
    {
      Distinct(segs)
    }

    lemma SegLen(i: nat)
      requires Valid() && i < |parts|
      ensures |segs| == |parts| && segs[i] in mbufs && segs[i].buf in bufs && segs[i].Fits() && segs[i].len == |parts[i]| && segs[i].Data() == parts[i]
    {
    }

    lemma Holds(m: nat)
      requires Valid() && m < |segs|
      ensures |parts| == |segs| && Others(segs, parts, -1) && Listed(this)
      ensures pktLen == Sum(parts) && nbSegs == |segs|
    {
    }

    /** The bytes of the packet. */
    ghost function Flat(): (r: Bytes)
      reads this
    {
      Concat(parts)
    }
  }

  /** Copy within or between buffers. */
  method Memcpy(dst: array<Byte>, at: nat, src: array<Byte>, from: nat, n: nat)
    requires at + n <= dst.Length && from + n <= src.Length && dst != src
    modifies dst
    ensures dst[..] == old(dst[..at]) + src[from..from + n] + old(dst[at + n..])
  {
    for i := 0 to n
      invariant dst[..at] == old(dst[..at])
      invariant dst[at..at + i] == src[from..from + i]
      invariant dst[at + i..] == old(dst[at + i..])
    {
      dst[at + i] := src[from + i];
    }
  }

  /** A TLV decoder on a packet: the cursor, and how many bytes it may read. */
  datatype TlvDecoder = TlvDecoder(m: nat, offset: nat, length: nat) {

    ghost predicate In(p: Packet)
      reads p
    {
      AtByte(p.parts, m, offset) && length <= |Rest(p.parts, m, offset)|
    }

    /** The flat bytes from the cursor to the end of the packet, of which `length` may be read. */
    ghost function Ahead(p: Packet): (r: Bytes)
      requires AtByte(p.parts, m, offset)
      reads p
    {
      Rest(p.parts, m, offset)
    }
  }

  method Init(p: Packet) returns (d: TlvDecoder)
    requires p.Valid()
    ensures d.In(p) && d.Ahead(p) == p.Flat() && d.length == |p.Flat()|
  {
    d := TlvDecoder(0, 0, p.pktLen);
  }

  /** Skip bytes: as on the flat bytes. */
  method Skip(p: Packet, d: TlvDecoder, count: nat) returns (d': TlvDecoder)
    requires p.Valid() && d.In(p) && count <= d.length
    ensures d'.In(p) && d'.Ahead(p) == d.Ahead(p)[count..] && d'.length == d.length - count
  {
    hide Rest, Passed, Packet.Valid;
    ghost var parts, ahead := p.parts, d.Ahead(p);
    PassedStart(parts, d.m, d.offset);
    var m: nat, offset: nat, remain: nat := d.m, d.offset, count;
    while remain > 0
      invariant remain <= count && Passed(parts, m, offset, ahead, count - remain)
      decreases remain, |p.segs| - m
    {
      PassedHere(parts, m, offset, ahead, count - remain);
      p.SegLen(m);
      var here := p.segs[m].len - offset;
      if remain < here {
        PassedWithin(parts, m, offset, ahead, count - remain, remain);
        offset := offset + remain;
        remain := 0;
        break;
      }
      PassedNext(parts, m, offset, ahead, count - remain);
      remain := remain - here;
      m := m + 1;
      offset := 0;
    }
    PassedEnd(parts, m, offset, ahead, count);
    d' := TlvDecoder(m, offset, d.length - count);
  }

  /** All segments, except possibly the `i`-th, hold what they should. */
  ghost predicate Others(segs: seq<Mbuf>, parts: seq<Bytes>, i: int)
    reads segs, set i | 0 <= i < |segs| :: segs[i].buf
  {
    |segs| == |parts| && forall k | 0 <= k < |segs| && k != i :: segs[k].Fits() && segs[k].Data() == parts[k]
  }

  /** No segment, except possibly the `i`-th, uses the buffer. */
  ghost predicate Apart(segs: seq<Mbuf>, i: int, output: array<Byte>) {
    forall k | 0 <= k < |segs| && k != i :: segs[k].buf != output
  }

  /** Copy from within one segment of a chain. */
  method CopyHere(segs: seq<Mbuf>, ghost parts: seq<Bytes>, ghost i: int, m: nat, offset: nat, n: nat, output: array<Byte>, pos: nat)
    requires Others(segs, parts, i) && i < m < |segs| && offset + n <= |parts[m]| && pos + n <= output.Length
    requires Apart(segs, i, output)
    modifies output
    ensures output[..] == old(output[..])[..pos] + parts[m][offset..offset + n] + old(output[..])[pos + n..]
    ensures Others(segs, parts, i)
  {
    var seg := segs[m];
    OtherSeg(segs, parts, i, m);
    Memcpy(output, pos, seg.buf, seg.off + offset, n);
    seg.Slice(offset, n);
  }

  lemma OtherSeg(segs: seq<Mbuf>, parts: seq<Bytes>, i: int, m: nat)
    requires Others(segs, parts, i) && m < |parts| && m != i
    ensures |segs| == |parts| && segs[m].Fits() && segs[m].len == |parts[m]| && segs[m].Data() == parts[m]
  {
  }

  /** Copy the next bytes into a buffer that no segment uses, except possibly the `i`-th one, which is behind. */
  method CopyTo(p: Packet, d: TlvDecoder, output: array<Byte>, at: nat, count: nat, ghost i: int) returns (d': TlvDecoder)
    requires Others(p.segs, p.parts, i) && i < d.m && d.In(p) && count <= d.length
    requires at + count <= output.Length && Apart(p.segs, i, output)
    modifies output
    ensures d.m <= d'.m && d'.In(p) && d'.Ahead(p) == d.Ahead(p)[count..] && d'.length == d.length - count
    ensures Copied(old(output[..]), output[..], at, d.Ahead(p), count)
    ensures Others(p.segs, p.parts, i)
  {
    hide Rest, Passed, Copied, Others, Apart;
    ghost var parts, ahead, was := p.parts, d.Ahead(p), output[..];
    PassedStart(parts, d.m, d.offset);
    CopiedStart(was, at, ahead);
    var m: nat, offset: nat, done: nat := d.m, d.offset, 0;
    while done < count
      invariant done <= count && d.m <= m && Passed(parts, m, offset, ahead, done)
      invariant Copied(was, output[..], at, ahead, done) && Others(p.segs, parts, i)
      decreases count - done, |p.segs| - m
    {
      var n;
      m, offset, n := CopyStep(p.segs, parts, i, m, offset, ahead, done, count - done, output, at, was);
      done := done + n;
    }
    PassedEnd(parts, m, offset, ahead, count);
    d' := TlvDecoder(m, offset, d.length - count);
  }

  /** Copy as much as possible from the current segment. */
  method CopyStep(
    segs: seq<Mbuf>, ghost parts: seq<Bytes>, ghost i: int, m: nat, offset: nat, ghost ahead: Bytes, done: nat, remain: nat,
    output: array<Byte>, at: nat, ghost was: Bytes)
    returns (m': nat, offset': nat, n: nat)
    requires Others(segs, parts, i) && i < m && Passed(parts, m, offset, ahead, done) && 0 < remain && done + remain <= |ahead|
    requires Copied(was, output[..], at, ahead, done) && |was| == output.Length && at + done + remain <= output.Length && Apart(segs, i, output)
    modifies output
    ensures Others(segs, parts, i) && m < |segs| && m <= m' && n <= remain && (n < remain ==> m < m')
    ensures Passed(parts, m', offset', ahead, done + n) && Copied(was, output[..], at, ahead, done + n)
  {
    hide Rest, Passed, Copied, Others, Apart;
    PassedHere(parts, m, offset, ahead, done);
    OtherSeg(segs, parts, i, m);
    ghost var now := output[..];
    var here := segs[m].len - offset;
    n := if remain < here then remain else here;
    PassedStep(parts, m, offset, ahead, done, n);
    CopyHere(segs, parts, i, m, offset, n, output, at + done);
    CopiedMore(was, now, output[..], at, ahead, done, n);
    if n < here {
      m', offset' := m, offset + n;
    } else {
      m', offset' := m + 1, 0;
    }
  }

  /** Move bytes to the start of their buffer. */
  method MoveToStart(buf: array<Byte>, from: nat, n: nat)
    requires from + n <= buf.Length
    modifies buf
    ensures buf[..n] == old(buf[from..from + n])
  {
    for i := 0 to n
      invariant buf[..i] == old(buf[from..from + i])
      invariant buf[from + i..] == old(buf[from + i..])
    {
      buf[i] := buf[from + i];
    }
  }

  /** Make sure that the `m`-th segment can hold `need` bytes from its start on, without changing its contents. */
  method EnsureRoom(segs: seq<Mbuf>, m: nat, need: nat, ghost parts: seq<Bytes>)
    requires Distinct(segs) && m < |segs| && Others(segs, parts, -1) && need <= segs[m].buf.Length
    modifies segs[m], segs[m].buf
    ensures Others(segs, parts, -1) && segs[m].off + need <= segs[m].buf.Length
  {
    hide Distinct;
    var c := segs[m];
    if c.off + need > c.buf.Length {
      MoveSeg(c);
      forall k | 0 <= k < |segs| ensures segs[k].Fits() && segs[k].Data() == parts[k] {
        if k != m {
          DistinctPair(segs, k, m);
        }
      }
    }
  }

  lemma DistinctPair(segs: seq<Mbuf>, i: nat, j: nat)
    requires Distinct(segs) && i < |segs| && j < |segs| && i != j
    ensures segs[i] != segs[j] && segs[i].buf != segs[j].buf
  {
  }

  /** Move the contents of an mbuf to the start of its buffer. */
  method MoveSeg(c: Mbuf)
    requires c.Fits()
    modifies c, c.buf
    ensures c.Fits() && c.off == 0 && c.len == old(c.len) && c.Data() == old(c.Data())
  {
    MoveToStart(c.buf, c.off, c.len);
    c.off := 0;
  }

  /** Append to a segment the bytes ahead of a cursor in the segments after it. */
  method Absorb(p: Packet, i: nat, c: Mbuf, d: TlvDecoder, remain: nat) returns (d': TlvDecoder)
    requires p.Owned() && i < |p.segs| && c == p.segs[i] && d.m == i + 1 && d.In(p) && remain <= d.length
    requires Others(p.segs, p.parts, -1) && c.off + c.len + remain <= c.buf.Length
    modifies c`len, c.buf
    ensures d.m <= d'.m && d'.In(p) && d'.Ahead(p) == d.Ahead(p)[remain..] && d'.length == d.length - remain
    ensures Others(p.segs, p.parts, i) && c.Fits() && c.Data() == p.parts[i] + d.Ahead(p)[..remain]
  {
    hide Rest, NonEmpty;
    var room := c.off + c.len;
    ghost var data := c.Data();
    d' := CopyTo(p, d, c.buf, room, remain, i);
    assert c.buf[c.off..room] == data;
    assert c.buf[room..room + remain] == d.Ahead(p)[..remain];
    c.len := c.len + remain;
    assert c.Data() == c.buf[c.off..room] + c.buf[room..room + remain];
  }

  /** The first segments hold the given contents. */
  ghost predicate HeadHolds(segs: seq<Mbuf>, head: seq<Bytes>)
    reads segs, set i | 0 <= i < |segs| :: segs[i].buf
  {
    |head| <= |segs| && forall i | 0 <= i < |head| :: segs[i].Fits() && segs[i].Data() == head[i]
  }

  /** The segments from the `k`-th on hold what they should. */
  ghost predicate TailHolds(segs: seq<Mbuf>, parts: seq<Bytes>, k: nat)
    reads segs, set i | 0 <= i < |segs| :: segs[i].buf
  {
    |segs| == |parts| && forall i | k <= i < |segs| :: segs[i].Fits() && segs[i].Data() == parts[i]
  }

  lemma HeadAndTail(segs: seq<Mbuf>, parts: seq<Bytes>, i: nat, x: Bytes, m: nat)
    requires Others(segs, parts, i) && i < |segs| && segs[i].Fits() && segs[i].Data() == x && i < m
    ensures HeadHolds(segs, parts[..i] + [x]) && TailHolds(segs, parts, m)
  {
  }

  ghost predicate Listed(p: Packet)
    reads p
  {
    forall i | 0 <= i < |p.segs| :: p.segs[i] in p.mbufs && p.segs[i].buf in p.bufs
  }

  /** The segments from the `m`-th on hold the given contents. */
  ghost predicate TailIs(segs: seq<Mbuf>, m: nat, tail: seq<Bytes>)
    reads segs, set i | 0 <= i < |segs| :: segs[i].buf
  {
    m <= |segs| && |tail| == |segs| - m && forall k | m <= k < |segs| :: segs[k].Fits() && segs[k].Data() == tail[k - m]
  }

  lemma FromParts(parts: seq<Bytes>, m: nat, offset: nat)
    requires AtByte(parts, m, offset)
    ensures |From(parts, m, offset)| == |parts| - m
    ensures m < |parts| ==> From(parts, m, offset)[0] == parts[m][offset..]
    ensures forall k | m < k < |parts| :: From(parts, m, offset)[k - m] == parts[k]
  {
  }

  lemma TailCompose(segs: seq<Mbuf>, m: nat, offset: nat, parts: seq<Bytes>)
    requires AtByte(parts, m, offset) && |segs| == |parts|
    requires m < |segs| ==> TailHolds(segs, parts, m + 1) && segs[m].Fits() && segs[m].Data() == parts[m][offset..]
    ensures TailIs(segs, m, From(parts, m, offset))
  {
    hide From;
    FromParts(parts, m, offset);
  }

  /** Cut bytes off the front of the segment of the cursor. */
  method TrimSeg(segs: seq<Mbuf>, m: nat, n: nat, ghost parts: seq<Bytes>, ghost head: seq<Bytes>)
    requires Distinct(segs) && TailHolds(segs, parts, m) && HeadHolds(segs, head) && |head| <= m < |segs| && n <= |parts[m]|
    modifies segs[m]
    ensures TailHolds(segs, parts, m + 1) && HeadHolds(segs, head)
    ensures segs[m].Fits() && segs[m].Data() == parts[m][n..]
  {
    var s := segs[m];
    s.len := s.len - n;
    s.off := s.off + n;
  }

  method TrimAt(segs: seq<Mbuf>, m: nat, offset: nat, ghost parts: seq<Bytes>, ghost head: seq<Bytes>)
    requires Distinct(segs) && TailHolds(segs, parts, m) && HeadHolds(segs, head) && |head| <= m
    requires AtByte(parts, m, offset)
    modifies segs
    ensures TailIs(segs, m, From(parts, m, offset)) && HeadHolds(segs, head)
  {
    hide Distinct, HeadHolds, TailIs, From;
    if m < |segs| {
      TrimSeg(segs, m, offset, parts, head);
    }
    TailCompose(segs, m, offset, parts);
  }

  /** Free the segments from `i` up to `m`; only the count is left to update. */
  method Uncount(p: Packet, i: nat, m: nat)
    requires i <= m && p.nbSegs >= m - i
    modifies p`nbSegs
    ensures p.nbSegs == old(p.nbSegs) - (m - i)
  {
    for k := i to m
      invariant p.nbSegs == old(p.nbSegs) - (k - i)
    {
      p.nbSegs := p.nbSegs - 1;
    }
  }

  lemma AssembledValid(p: Packet, was: seq<Mbuf>, head: seq<Bytes>, tail: seq<Bytes>, i: nat, m: nat)
    requires i <= m <= |was| && |head| == i
    requires p.segs == was[..i] + was[m..] && p.parts == head + tail
    requires p.nbSegs == |p.segs| && p.pktLen == Sum(p.parts)
    requires HeadHolds(was, head) && TailIs(was, m, tail)
    requires forall k | 0 <= k < |was| :: was[k] in p.mbufs && was[k].buf in p.bufs
    ensures p.Valid()
  {
    hide NonEmpty, Sum;
    forall k | 0 <= k < |p.segs|
      ensures p.segs[k] in p.mbufs && p.segs[k].buf in p.bufs && p.segs[k].Fits() && p.parts[k] == p.segs[k].Data()
    {
      if k < i { assert p.segs[k] == was[k]; } else { assert p.segs[k] == was[m + k - i]; }
    }
  }

  /** Unlink the segments between the first `|head|` ones and the cursor, and trim the segment of the cursor. */
  method DeleteBetween(p: Packet, d: TlvDecoder, ghost head: seq<Bytes>, i: nat) returns (d': TlvDecoder)
    requires p.Owned() && Listed(p) && p.nbSegs == |p.segs| && |head| == i <= d.m
    requires d.In(p) && TailHolds(p.segs, p.parts, d.m) && HeadHolds(p.segs, head)
    requires p.pktLen == Sum(head + From(p.parts, d.m, d.offset))
    modifies p`segs, p`nbSegs, p`parts, p.segs
    ensures p.Valid() && p.Owned() && p.parts == head + From(old(p.parts), d.m, d.offset)
    ensures d' == TlvDecoder(i, 0, d.length)
  {
    hide NonEmpty, Sum, Rest, Packet.Valid, HeadHolds, TailIs, Distinct, From;
    ghost var was, parts, tail := p.segs, p.parts, From(p.parts, d.m, d.offset);
    assert d.m <= |p.segs|;
    TrimAt(p.segs, d.m, d.offset, parts, head);
    Uncount(p, i, d.m);
    p.parts := head + tail;
    p.segs := p.segs[..i] + p.segs[d.m..];
    DistinctCut(was, i, d.m);
    AssembledValid(p, was, head, tail, i, d.m);
    d' := TlvDecoder(i, 0, d.length);
  }

  /** Append to the current segment the bytes of the later ones that are needed to have `count` bytes in it. */
  method AbsorbNext(p: Packet, d: TlvDecoder, count: nat) returns (d': TlvDecoder)
    requires p.Owned() && Others(p.segs, p.parts, -1) && d.In(p) && 0 < count <= d.length
    requires d.m < |p.segs| && |p.parts[d.m]| - d.offset <= count && d.offset + count <= p.segs[d.m].buf.Length
    modifies p.segs[d.m], p.segs[d.m].buf
    ensures d.m < d'.m && d'.In(p) && d'.Ahead(p) == d.Ahead(p)[count..] && d'.length == d.length - count
    ensures var m, here := d.m, |p.parts[d.m]| - d.offset;
      Others(p.segs, p.parts, m) && p.segs[m].Fits() && p.segs[m].Data() == p.parts[m] + d.Ahead(p)[here..count]
  {
    hide Rest, Distinct, Others;
    var m, co := d.m, d.offset;
    var c := p.segs[m];
    ghost var parts, ahead := p.parts, d.Ahead(p);
    Sizes(p.segs, parts);
    EnsureRoom(p.segs, m, co + count, parts);
    OtherSeg(p.segs, parts, -1, m);
    var here := c.len - co;
    var remain := count - here;
    PassedStart(parts, m, co);
    PassedNext(parts, m, co, ahead, 0);
    PassedEnd(parts, m + 1, 0, ahead, here);
    d' := Absorb(p, m, c, TlvDecoder(m + 1, 0, d.length - here), remain);
    assert ahead[here..][remain..] == ahead[count..] && ahead[here..][..remain] == ahead[here..count];
  }

  /** Gather the next bytes in the current segment. */
  method MoveToFirst(p: Packet, d: TlvDecoder, count: nat) returns (d': TlvDecoder)
    requires p.Valid() && p.Owned() && d.In(p) && 0 < count <= d.length
    requires d.m < |p.segs| && |p.parts[d.m]| - d.offset <= count && d.offset + count <= p.segs[d.m].buf.Length
    modifies p`segs, p`nbSegs, p`parts, p.mbufs, p.bufs
    ensures p.Valid() && p.Owned() && p.Flat() == old(p.Flat()) && (NonEmpty(old(p.parts)) ==> NonEmpty(p.parts))
    ensures d'.In(p) && d'.Ahead(p) == old(d.Ahead(p))[count..] && d'.length == d.length - count
    ensures d.m < |p.parts| && d.offset + count <= |p.parts[d.m]|
    ensures p.parts[d.m][d.offset..d.offset + count] == old(d.Ahead(p))[..count]
  {
    hide Rest, Concat, Sum, NonEmpty, Distinct, From, HeadHolds, TailHolds, Others, Packet.Valid;
    var m := d.m;
    p.Holds(m);
    ghost var parts, ahead, here := p.parts, d.Ahead(p), |p.parts[m]| - d.offset;
    var d2 := AbsorbNext(p, d, count);
    GrownKeeps(parts, m, d.offset, d2.m, d2.offset, count);
    HeadAndTail(p.segs, parts, m, parts[m] + ahead[here..count], d2.m);
    d' := DeleteBetween(p, d2, parts[..m] + [parts[m] + ahead[here..count]], m + 1);
  }

  lemma InsertedHolds(was: seq<Mbuf>, segs: seq<Mbuf>, parts: seq<Bytes>, m: nat, r: Mbuf, cut: Bytes, mid: Bytes, k: nat)
    requires Others(was, parts, m) && m < |was| && m + 2 <= k && segs == was[..m + 1] + [r] + was[m + 1..]
    requires was[m].Fits() && was[m].Data() == cut && r.Fits() && r.Data() == mid
    ensures HeadHolds(segs, parts[..m] + [cut] + [mid]) && TailHolds(segs, Inserted(parts, m, cut, mid), k)
  {
    forall i | k <= i < |segs| ensures segs[i].Fits() && segs[i].Data() == Inserted(parts, m, cut, mid)[i] {
      assert segs[i] == was[i - 1];
    }
  }

  lemma DistinctInsert(was: seq<Mbuf>, m: nat, r: Mbuf)
    requires Distinct(was) && m < |was| && r !in was && Apart(was, -1, r.buf)
    ensures Distinct(was[..m + 1] + [r] + was[m + 1..])
  {
  }

  /** Cut a segment at the end. */
  method CutSeg(segs: seq<Mbuf>, m: nat, n: nat, ghost parts: seq<Bytes>)
    requires Distinct(segs) && Others(segs, parts, -1) && m < |segs| && n <= |parts[m]|
    modifies segs[m]
    ensures Others(segs, parts, m) && segs[m].Fits() && segs[m].Data() == parts[m][..n]
  {
    segs[m].len := n;
  }

  /** A new mbuf that holds the next bytes. */
  method CopyOut(p: Packet, d: TlvDecoder, count: nat, bufLen: nat) returns (r: Mbuf, d': TlvDecoder)
    requires p.Valid() && d.In(p) && count <= d.length && count <= bufLen
    ensures fresh(r) && fresh(r.buf) && r.buf.Length == bufLen && r.Fits() && r.Data() == d.Ahead(p)[..count]
    ensures d.m <= d'.m && d'.In(p) && d'.Ahead(p) == d.Ahead(p)[count..] && d'.length == d.length - count
    ensures r !in p.segs && Apart(p.segs, -1, r.buf) && Others(p.segs, p.parts, -1)
  {
    hide Rest, NonEmpty, Concat, Sum;
    r := new Mbuf(bufLen);
    assert Others(p.segs, p.parts, -1);
    d' := CopyTo(p, d, r.buf, 0, count, -1);
    r.len := count;
  }

  /** Cut the `m`-th segment and link a new one after it. */
  method InsertSeg(p: Packet, m: nat, n: nat, r: Mbuf, k: nat)
    requires p.Owned() && Listed(p) && Others(p.segs, p.parts, -1) && m < |p.segs| && n <= |p.parts[m]| && m + 2 <= k
    requires r.Fits() && r !in p.segs && Apart(p.segs, -1, r.buf)
    modifies p`segs, p`nbSegs, p`parts, p`mbufs, p`bufs, p.segs[m]
    ensures p.Owned() && Listed(p) && p.mbufs == old(p.mbufs) + {r} && p.bufs == old(p.bufs) + {r.buf}
    ensures p.nbSegs == old(p.nbSegs) + 1 && |p.segs| == |old(p.segs)| + 1
    ensures forall s | s in p.segs :: s in old(p.segs) || s == r
    ensures p.parts == Inserted(old(p.parts), m, old(p.parts)[m][..n], r.Data()) && r.Data() == old(r.Data())
    ensures TailHolds(p.segs, p.parts, k) && HeadHolds(p.segs, old(p.parts)[..m] + [old(p.parts)[m][..n]] + [r.Data()])
  {
    hide Distinct, HeadHolds, TailHolds, Others, Inserted;
    ghost var was, parts := p.segs, p.parts;
    CutSeg(p.segs, m, n, parts);
    p.mbufs := p.mbufs + {r};
    p.bufs := p.bufs + {r.buf};
    p.segs := p.segs[..m + 1] + [r] + p.segs[m + 1..];
    p.nbSegs := p.nbSegs + 1;
    p.parts := Inserted(parts, m, parts[m][..n], r.Data());
    InsertedHolds(was, p.segs, parts, m, r, parts[m][..n], r.Data(), k);
    DistinctInsert(was, m, r);
  }

  /** Gather the next bytes in a new segment after the current one, which is cut. */
  method CopyToNew(p: Packet, d: TlvDecoder, count: nat) returns (d': TlvDecoder)
    requires p.Valid() && p.Owned() && d.In(p) && 0 < count <= d.length && d.offset > 0
    requires d.m < |p.segs| && |p.parts[d.m]| - d.offset <= count <= p.segs[d.m].buf.Length
    modifies p, p.mbufs
    ensures p.Valid() && p.Owned() && p.Flat() == old(p.Flat()) && (NonEmpty(old(p.parts)) ==> NonEmpty(p.parts))
    ensures fresh(p.mbufs - old(p.mbufs)) && fresh(p.bufs - old(p.bufs))
    ensures d'.In(p) && d'.Ahead(p) == old(d.Ahead(p))[count..] && d'.length == d.length - count
    ensures d.m + 1 < |p.parts| && p.parts[d.m + 1] == old(d.Ahead(p))[..count]
    ensures forall n: nat | Roomy(old(p.bufs), n) :: Roomy(p.bufs, n)
  {
    hide Rest, Concat, Sum, NonEmpty, Distinct, From, HeadHolds, TailHolds, Others, Inserted, Packet.Valid, Apart, Mbuf.Data;
    var m, co := d.m, d.offset;
    ghost var parts, ahead := p.parts, d.Ahead(p);
    p.Holds(m);
    var r, d1 := CopyOut(p, d, count, p.segs[m].buf.Length);
    PassedBeyond(parts, m, co, d1.m, d1.offset, count);
    InsertSeg(p, m, co, r, d1.m + 1);
    InsertedFrom(parts, m, parts[m][..co], ahead[..count], d1.m, d1.offset);
    SplitKeeps(parts, m, co, d1.m, d1.offset, count);
    d' := DeleteBetween(p, TlvDecoder(d1.m + 1, d1.offset, d1.length), parts[..m] + [parts[m][..co]] + [ahead[..count]], m + 2);
  }

  /** Every buffer has room for `n` bytes. */
  ghost predicate Roomy(bufs: set<array<Byte>>, n: nat) {
    forall b | b in bufs :: b.Length >= n
  }

  /** Where contiguous bytes are: an offset in a segment, or nowhere. */
  datatype Pointer = Null | At(m: nat, offset: nat) {

    /** The `count` bytes pointed at are the given ones. */
    ghost predicate Shows(p: Packet, b: Bytes)
      reads p
    {
      At? && m < |p.parts| && offset + |b| <= |p.parts[m]| && p.parts[m][offset..offset + |b|] == b
    }
  }

  /** Step over bytes that lie within the current segment. */
  method ReadContiguous(p: Packet, d: TlvDecoder, count: nat) returns (r: Pointer, d': TlvDecoder)
    requires p.Valid() && d.In(p) && d.m < |p.parts| && count <= |p.parts[d.m]| - d.offset && count <= d.length
    ensures r == At(d.m, d.offset) && r.Shows(p, d.Ahead(p)[..count])
    ensures d'.In(p) && d'.Ahead(p) == d.Ahead(p)[count..] && d'.length == d.length - count
  {
    hide Rest, Packet.Valid;
    p.SegLen(d.m);
    PassedStart(p.parts, d.m, d.offset);
    PassedStep(p.parts, d.m, d.offset, d.Ahead(p), 0, count);
    if count < p.segs[d.m].len - d.offset {
      d' := TlvDecoder(d.m, d.offset + count, d.length - count);
    } else {
      d' := TlvDecoder(d.m + 1, 0, d.length - count);
    }
    r := At(d.m, d.offset);
    assert d.Ahead(p)[0..count] == d.Ahead(p)[..count];
  }

  lemma MoreBytes(parts: seq<Bytes>, m: nat, offset: nat)
    requires AtByte(parts, m, offset) && Rest(parts, m, offset) != []
    ensures m < |parts| && offset <= |parts[m]|
  {
  }

  /**
    Read the next bytes in contiguous memory: a pointer into the chain if they lie within one
    segment, otherwise (`Null`) a copy in the scratch buffer.
   */
  method Read(p: Packet, d: TlvDecoder, scratch: array<Byte>, count: nat) returns (r: Pointer, d': TlvDecoder)
    requires p.Valid() && d.In(p) && count <= d.length && count <= scratch.Length && Apart(p.segs, -1, scratch) && scratch !in p.bufs
    modifies scratch
    ensures p.Valid() && d'.In(p) && d'.Ahead(p) == d.Ahead(p)[count..] && d'.length == d.length - count
    ensures r.Shows(p, d.Ahead(p)[..count]) || (r == Null && scratch[..count] == d.Ahead(p)[..count])
  {
    hide Rest, Packet.Valid, Apart, Others;
    if count == 0 {
      return Null, d;
    }
    MoreBytes(p.parts, d.m, d.offset);
    p.SegLen(d.m);
    if count <= p.segs[d.m].len - d.offset {
      r, d' := ReadContiguous(p, d, count);
    } else {
      p.Holds(d.m);
      d' := CopyTo(p, d, scratch, 0, count, -1);
      r := Null;
    }
  }

  /**
    The next bytes, contiguous.  The flat bytes of the packet do not change, its counters stay
    right, and no segment becomes empty.  The only failure besides an empty request is that the
    bytes do not fit a buffer.
   */
  method Linearize(p: Packet, d: TlvDecoder, count: nat) returns (r: Pointer, d': TlvDecoder)
    requires p.Valid() && p.Owned() && d.In(p) && count <= d.length
    modifies p, p.mbufs, p.bufs
    ensures p.Valid() && p.Owned() && p.Flat() == old(p.Flat()) && (NonEmpty(old(p.parts)) ==> NonEmpty(p.parts))
    ensures fresh(p.mbufs - old(p.mbufs)) && fresh(p.bufs - old(p.bufs))
    ensures r == Null <==> count == 0 || (d.m < |old(p.segs)| && count >= old(p.segs[d.m].len) - d.offset && count > old(p.segs)[d.m].buf.Length)
    ensures forall n: nat | Roomy(old(p.bufs), n) :: Roomy(p.bufs, n)
    ensures count > 0 && Roomy(old(p.bufs), count) ==> r != Null
    ensures r == Null ==> d' == d && p.parts == old(p.parts)
    ensures r != Null ==> r.Shows(p, old(d.Ahead(p))[..count])
    ensures r != Null ==> d'.In(p) && d'.Ahead(p) == old(d.Ahead(p))[count..] && d'.length == d.length - count
  {
    hide Rest, Packet.Valid, Concat, NonEmpty, Distinct;
    if count == 0 {
      return Null, d;
    }
    MoreBytes(p.parts, d.m, d.offset);
    p.SegLen(d.m);
    if count < p.segs[d.m].len - d.offset {
      r, d' := ReadContiguous(p, d, count);
    } else if d.offset + count <= p.segs[d.m].buf.Length {
      d' := MoveToFirst(p, d, count);
      r := At(d.m, d.offset);
    } else if count > p.segs[d.m].buf.Length {
      return Null, d;
    } else {
      d' := CopyToNew(p, d, count);
      r := At(d.m + 1, 0);
    }
  }

  /** How many segments a clone of the next bytes has. */
  method CountPieces(p: Packet, d: TlvDecoder, count: nat) returns (nSegs: nat)
    requires p.Valid() && d.In(p) && count <= d.length
    ensures nSegs == |Pieces(p.parts, d.m, d.offset, count)|
  {
    hide Rest, Pieces, Taken, Packet.Valid;
    ghost var parts, all, got := p.parts, Pieces(p.parts, d.m, d.offset, count), [];
    TakenStart(parts, d.m, d.offset, count);
    var m: nat, offset: nat, remain: nat := d.m, d.offset, count;
    nSegs := 0;
    while remain > 0
      invariant Taken(parts, m, offset, remain, all, got) && nSegs == |got|
      decreases remain, |p.segs| - m
    {
      TakenHere(parts, m, offset, remain, all, got);
      p.SegLen(m);
      var here := p.segs[m].len - offset;
      if remain < here {
        TakenLast(parts, m, offset, remain, all, got);
        got := got + [parts[m][offset..offset + remain]];
        offset := offset + remain;
        nSegs := nSegs + 1;
        remain := 0;
        break;
      }
      TakenNext(parts, m, offset, remain, all, got);
      if here > 0 {
        got := got + [parts[m][offset..]];
        nSegs := nSegs + 1;
      } else {
        assert got + [] == got;
      }
      remain := remain - here;
      m := m + 1;
      offset := 0;
    }
    TakenAll(parts, m, offset, all, got);
  }

  /** Fresh mbufs on the buffers of a chain. */
  ghost predicate Indirect(segs: seq<Mbuf>, got: seq<Bytes>, p: Packet)
    reads p, segs, set i | 0 <= i < |segs| :: segs[i].buf
  {
    && Others(segs, got, -1)
    && forall i | 0 <= i < |segs| :: segs[i] !in p.mbufs && segs[i].buf in p.bufs
  }

  lemma IndirectMore(segs: seq<Mbuf>, got: seq<Bytes>, p: Packet, mi: Mbuf, piece: Bytes)
    requires Indirect(segs, got, p) && mi.Fits() && mi.Data() == piece && mi !in p.mbufs && mi.buf in p.bufs
    ensures Indirect(segs + [mi], got + [piece], p)
  {
  }

  /** One indirect mbuf. */
  method AttachOne(p: Packet, m: nat, offset: nat, n: nat) returns (mi: Mbuf)
    requires p.Valid() && m < |p.parts| && offset + n <= |p.parts[m]|
    ensures fresh(mi) && mi.buf in p.bufs && mi.Fits() && mi.Data() == p.parts[m][offset..offset + n]
  {
    hide Packet.Valid;
    p.SegLen(m);
    mi := new Mbuf.Attach(p.segs[m], offset, n);
    AttachData(p.segs[m], mi, offset, n);
  }

  lemma AttachData(m: Mbuf, mi: Mbuf, offset: nat, n: nat)
    requires m.Fits() && offset + n <= m.len && mi.buf == m.buf && mi.off == m.off + offset && mi.len == n
    ensures mi.Fits() && mi.Data() == m.Data()[offset..offset + n]
  {
  }

  /** Make indirect mbufs for the next bytes. */
  method AttachAll(p: Packet, d: TlvDecoder, count: nat) returns (segs: seq<Mbuf>, d': TlvDecoder)
    requires p.Valid() && d.In(p) && count <= d.length
    ensures forall i | 0 <= i < |segs| :: fresh(segs[i])
    ensures Indirect(segs, Pieces(p.parts, d.m, d.offset, count), p)
    ensures d'.In(p) && d'.Ahead(p) == d.Ahead(p)[count..] && d'.length == d.length - count
  {
    hide Rest, Pieces, Taken, Packet.Valid, Indirect, Passed;
    ghost var parts, all, ahead := p.parts, Pieces(p.parts, d.m, d.offset, count), d.Ahead(p);
    ghost var got: seq<Bytes> := [];
    TakenStart(parts, d.m, d.offset, count);
    PassedStart(parts, d.m, d.offset);
    var m: nat, offset: nat, remain: nat := d.m, d.offset, count;
    segs := [];
    assert Indirect(segs, got, p) by { NothingIndirect(p); }
    while remain > 0
      invariant remain <= count && Taken(parts, m, offset, remain, all, got) && Passed(parts, m, offset, ahead, count - remain)
      invariant Indirect(segs, got, p) && forall i | 0 <= i < |segs| :: fresh(segs[i])
      decreases remain, |p.segs| - m
    {
      TakenHere(parts, m, offset, remain, all, got);
      p.SegLen(m);
      var here := p.segs[m].len - offset;
      if remain < here {
        TakenLast(parts, m, offset, remain, all, got);
        PassedWithin(parts, m, offset, ahead, count - remain, remain);
        var mi := AttachOne(p, m, offset, remain);
        IndirectMore(segs, got, p, mi, parts[m][offset..offset + remain]);
        segs := segs + [mi];
        got := got + [parts[m][offset..offset + remain]];
        offset := offset + remain;
        remain := 0;
        break;
      }
      TakenNext(parts, m, offset, remain, all, got);
      PassedNext(parts, m, offset, ahead, count - remain);
      if here > 0 {
        assert parts[m][offset..] == parts[m][offset..offset + here];
        var mi := AttachOne(p, m, offset, here);
        IndirectMore(segs, got, p, mi, parts[m][offset..]);
        segs := segs + [mi];
        got := got + [parts[m][offset..]];
      } else {
        assert got + [] == got;
      }
      remain := remain - here;
      m := m + 1;
      offset := 0;
    }
    TakenAll(parts, m, offset, all, got);
    PassedEnd(parts, m, offset, ahead, count);
    d' := TlvDecoder(m, offset, d.length - count);
  }

  lemma NothingIndirect(p: Packet)
    ensures Indirect([], [], p)
  {
  }

  /** Add up the lengths of a vector of unsegmented mbufs. */
  method AddLengths(vec: seq<Mbuf>, ghost got: seq<Bytes>) returns (n: nat)
    requires vec != [] && Others(vec, got, -1)
    ensures n == Sum(got)
  {
    hide Sum, Concat, Others;
    Sizes(vec, got);
    OtherSeg(vec, got, -1, 0);
    n := vec[0].len;
    SumFirst(got);
    for i := 1 to |vec|
      invariant n == Sum(got[..i])
    {
      SumNext(got, i);
      OtherSeg(vec, got, -1, i);
      n := n + vec[i].len;
    }
    assert got[..|vec|] == got;
  }

  /** Chain a vector of unsegmented mbufs together. */
  method ChainVector(vec: seq<Mbuf>, ghost got: seq<Bytes>) returns (q: Packet)
    requires vec != [] && Others(vec, got, -1)
    ensures fresh(q) && q.segs == vec && q.parts == got && q.Valid()
    ensures q.mbufs == (set i | 0 <= i < |vec| :: vec[i]) && q.bufs == (set i | 0 <= i < |vec| :: vec[i].buf)
  {
    hide Sum, Concat, Packet.Valid;
    var n := AddLengths(vec, got);
    q := new Packet;
    q.pktLen := n;
    q.nbSegs := |vec|;
    q.segs := vec;
    q.parts := got;
    q.mbufs := set i | 0 <= i < |vec| :: vec[i];
    q.bufs := set i | 0 <= i < |vec| :: vec[i].buf;
    ChainValid(q);
  }

  lemma ChainValid(q: Packet)
    requires Others(q.segs, q.parts, -1) && q.pktLen == Sum(q.parts) && q.nbSegs == |q.segs|
    requires q.mbufs == (set i | 0 <= i < |q.segs| :: q.segs[i]) && q.bufs == (set i | 0 <= i < |q.segs| :: q.segs[i].buf)
    ensures q.Valid()
  {
    hide Sum, Concat;
  }

  /**
    Clone the next bytes into a chain of indirect mbufs on the same buffers, none of them empty.
    Both loops of the source see the same number of segments.
   */
  method Clone(p: Packet, d: TlvDecoder, count: nat) returns (q: Packet, d': TlvDecoder)
    requires p.Valid() && d.In(p) && 0 < count <= d.length
    ensures fresh(q) && fresh(q.mbufs) && q.bufs <= p.bufs
    ensures q.Valid() && NonEmpty(q.parts) && q.Flat() == d.Ahead(p)[..count] && q.pktLen == count
    ensures d'.In(p) && d'.Ahead(p) == d.Ahead(p)[count..] && d'.length == d.length - count
  {
    hide Rest, Pieces, Concat, NonEmpty, Sum, Others, Packet.Valid;
    ghost var all := Pieces(p.parts, d.m, d.offset, count);
    var nSegs := CountPieces(p, d, count);
    var segs;
    segs, d' := AttachAll(p, d, count);
    assert |segs| == |all| by { Sizes(segs, all); }
    assert |segs| == nSegs;
    PiecesConcat(p.parts, d.m, d.offset, count);
    q := ChainVector(segs, all);
    q.Holds(0);
  }

  lemma Sizes(segs: seq<Mbuf>, parts: seq<Bytes>)
    requires Others(segs, parts, -1)
    ensures |segs| == |parts|
  {
  }

  /** A packet of one mbuf. */
  method Single(m: Mbuf, ghost data: Bytes) returns (q: Packet)
    requires m.Fits() && m.Data() == data
    ensures fresh(q) && q.Valid() && q.segs == [m] && q.parts == [data] && q.mbufs == {m} && q.bufs == {m.buf}
  {
    q := new Packet;
    q.segs, q.pktLen, q.nbSegs := [m], m.len, 1;
    q.parts, q.mbufs, q.bufs := [data], {m}, {m.buf};
    assert [data][1..] == [];
  }

  /** Chain a packet onto another one. */
  method Join(a: Packet, b: Packet)
    requires a.Valid() && b.Valid() && a != b
    modifies a
    ensures a.Valid() && a.segs == old(a.segs) + b.segs && a.parts == old(a.parts) + b.parts && a.Flat() == old(a.Flat()) + b.Flat()
    ensures a.mbufs == old(a.mbufs) + b.mbufs && a.bufs == old(a.bufs) + b.bufs
  {
    hide Sum, Concat;
    ConcatSplit(a.parts, b.parts);
    a.segs := a.segs + b.segs;
    a.nbSegs := a.nbSegs + b.nbSegs;
    a.pktLen := a.pktLen + b.pktLen;
    a.parts := a.parts + b.parts;
    a.mbufs := a.mbufs + b.mbufs;
    a.bufs := a.bufs + b.bufs;
  }

  lemma PacketLength(q: Packet)
    requires q.Valid()
    ensures q.pktLen == |q.Flat()|
  {
  }
}
