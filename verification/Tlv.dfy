/**
  TLV numbers and headers on flat bytes (csrc/ndni/nni.h, csrc/ndni/tlv-encoder.h), and the decoder
  that reads them from a chain of mbufs (csrc/ndni/tlv-decoder.h).

  VAR-NUMBER and NonNegativeInteger are defined in the NDN Packet Format specification.
 */
module Tlv {
  import opened Common
  import opened Chain

  /** The value of big-endian bytes. */
  function Be(b: Bytes): (n: nat) {
    if b == [] then 0 else Be(b[..|b| - 1]) * 256 + b[|b| - 1]
  }

  /** The `k` low bytes of a number, big-endian. */
  function ToBe(n: nat, k: nat): (b: Bytes)
    ensures |b| == k
  {
    if k == 0 then [] else ToBe(n / 256, k - 1) + [n % 256]
  }

  function Pow256(k: nat): (n: nat)
    ensures n >= 1
  {
    if k == 0 then 1 else 256 * Pow256(k - 1)
  }

  lemma {:induction false} BeToBe(n: nat, k: nat)
    requires n < Pow256(k)
    ensures Be(ToBe(n, k)) == n
  {
    if k > 0 {
      BeToBe(n / 256, k - 1);
      var b := ToBe(n, k);
      assert b[..|b| - 1] == ToBe(n / 256, k - 1);
    }
  }

  lemma {:induction false} ToBeBe(b: Bytes)
    ensures Be(b) < Pow256(|b|) && ToBe(Be(b), |b|) == b
  {
    if b != [] {
      ToBeBe(b[..|b| - 1]);
      assert b == b[..|b| - 1] + [b[|b| - 1]];
    }
  }

  lemma Powers()
    ensures Pow256(1) == 0x100 && Pow256(2) == 0x1_0000 && Pow256(4) == 0x1_0000_0000 && Pow256(8) == 0x1_0000_0000_0000_0000
  {
    assert Pow256(4) == 256 * 256 * Pow256(2);
    assert Pow256(6) == 256 * 256 * Pow256(4);
  }

  /** NonNegativeInteger: the shortest of the sizes 1, 2, 4 and 8. */
  function EncodeNni(n: nat): (b: Bytes) {
    if n > 0xFFFF then
      if n > 0xFFFF_FFFF then ToBe(n, 8) else ToBe(n, 4)
    else if n > 0xFF then
      ToBe(n, 2)
    else
      ToBe(n, 1)
  }

  function DecodeNni(b: Bytes): (r: Option<nat>) {
    if |b| in {1, 2, 4, 8} then Some(Be(b)) else None
  }

  lemma NniRoundTrip(n: nat)
    requires n < 0x1_0000_0000_0000_0000
    ensures DecodeNni(EncodeNni(n)) == Some(n)
    ensures forall b: Bytes | DecodeNni(b) == Some(n) :: |EncodeNni(n)| <= |b|
  {
    Powers();
    BeToBe(n, |EncodeNni(n)|);
    forall b: Bytes | DecodeNni(b) == Some(n) ensures |EncodeNni(n)| <= |b| {
      ToBeBe(b);
    }
  }

  function SizeofVarNum(n: nat): (r: nat)
    ensures r == |EncodeVarNum(n)|
  {
    if n < 0xFD then 1 else if n <= 0xFFFF then 3 else 5
  }

  function EncodeVarNum(n: nat): (b: Bytes) {
    if n < 0xFD then [n] else if n <= 0xFFFF then [0xFD] + ToBe(n, 2) else [0xFE] + ToBe(n, 4)
  }

  /** Outcome of reading a VAR-NUMBER: how far the cursor moves also when it fails. */
  datatype Num = Num(ok: bool, n: nat, size: nat)

  function DecodeVarNum(b: Bytes): (r: Num)
    ensures r.size <= |b| && (r.ok ==> r.size >= 1)
  {
    if |b| < 1 then
      Num(false, 0, 0)
    else if b[0] == 0xFD then
      if |b| - 1 >= 2 then var n := Be(b[1..3]); Num(n >= 0xFD, n, 3) else Num(false, 0, 1)
    else if b[0] == 0xFE then
      if |b| - 1 >= 4 then var n := Be(b[1..5]); Num(n > 0xFFFF, n, 5) else Num(false, 0, 1)
    else if b[0] == 0xFF then
      Num(false, 0, 1)
    else
      Num(true, b[0], 1)
  }

  lemma VarNumRoundTrip(n: nat, x: Bytes)
    requires n < 0x1_0000_0000
    ensures DecodeVarNum(EncodeVarNum(n) + x) == Num(true, n, |EncodeVarNum(n)|)
  {
    Powers();
    var b := EncodeVarNum(n) + x;
    if 0xFD <= n <= 0xFFFF {
      BeToBe(n, 2);
      assert b[1..3] == ToBe(n, 2);
    } else if n > 0xFFFF {
      BeToBe(n, 4);
      assert b[1..5] == ToBe(n, 4);
    }
  }

  /** There is only one accepted encoding of each number. */
  lemma VarNumCanonical(b: Bytes)
    requires DecodeVarNum(b).ok
    ensures var r := DecodeVarNum(b); r.n < 0x1_0000_0000 && b[..r.size] == EncodeVarNum(r.n)
  {
    Powers();
    if b[0] == 0xFD {
      ToBeBe(b[1..3]);
      assert b[..3] == [b[0]] + b[1..3];
    } else if b[0] == 0xFE {
      ToBeBe(b[1..5]);
      assert b[..5] == [b[0]] + b[1..5];
    }
  }

  function EncodeTL(kind: nat, length: nat): (b: Bytes) {
    EncodeVarNum(kind) + EncodeVarNum(length)
  }

  /** Outcome of reading TLV-TYPE and TLV-LENGTH: type zero means the end, or a truncated element. */
  datatype Header = Header(kind: nat, length: nat, size: nat)

  function DecodeTL(b: Bytes): (r: Header)
    ensures r.size <= |b| && (r.kind != 0 ==> r.size >= 2 && r.size + r.length <= |b|)
  {
    var t := DecodeVarNum(b);
    if !t.ok then
      Header(0, 0, t.size)
    else
      var l := DecodeVarNum(b[t.size..]);
      var size := t.size + l.size;
      if !l.ok || l.n > |b| - size then Header(0, 0, size) else Header(t.n, l.n, size)
  }

  lemma TLRoundTrip(kind: nat, length: nat, x: Bytes)
    requires kind < 0x1_0000_0000 && length < 0x1_0000_0000 && length <= |x|
    ensures DecodeTL(EncodeTL(kind, length) + x) == Header(kind, length, |EncodeTL(kind, length)|)
  {
    var b := EncodeTL(kind, length) + x;
    assert b == EncodeVarNum(kind) + (EncodeVarNum(length) + x);
    VarNumRoundTrip(kind, EncodeVarNum(length) + x);
    VarNumRoundTrip(length, x);
    assert b[|EncodeVarNum(kind)|..] == EncodeVarNum(length) + x;
  }

  lemma TLCanonical(b: Bytes)
    requires DecodeTL(b).kind != 0
    ensures var r := DecodeTL(b);
      r.kind < 0x1_0000_0000 && r.length < 0x1_0000_0000 && b[..r.size] == EncodeTL(r.kind, r.length)
  {
    var t := DecodeVarNum(b);
    VarNumCanonical(b);
    var l := DecodeVarNum(b[t.size..]);
    VarNumCanonical(b[t.size..]);
    assert b[..t.size + l.size] == b[..t.size] + b[t.size..][..l.size];
  }

  predicate IsCriticalType(kind: nat) {
    kind <= 0x1F || kind % 2 == 1
  }

  /** The types of the packets of the network layer. */
  const TT_INTEREST := 0x05
  const TT_DATA := 0x06

  /** A TLV element. */
  datatype Element = Element(kind: nat, value: Bytes) {

    predicate Valid() {
      0 < kind < 0x1_0000_0000 && |value| < 0x1_0000_0000
    }

    function Encode(): (b: Bytes) {
      EncodeTL(kind, |value|) + value
    }
  }

  function EncodeAll(es: seq<Element>): (b: Bytes) {
    if es == [] then [] else es[0].Encode() + EncodeAll(es[1..])
  }

  lemma {:induction false} EncodeAllSplit(a: seq<Element>, b: seq<Element>)
    ensures EncodeAll(a + b) == EncodeAll(a) + EncodeAll(b)
  {
    hide Element.Encode;
    if a == [] {
      assert a + b == b;
    } else {
      EncodeAllSplit(a[1..], b);
      assert (a + b)[0] == a[0] && (a + b)[1..] == a[1..] + b;
      Associate(a[0].Encode(), EncodeAll(a[1..]), EncodeAll(b));
    }
  }

  /** The first element, when there is one. */
  function First(b: Bytes): (e: Element)
    requires DecodeTL(b).kind != 0
  {
    var r := DecodeTL(b);
    Element(r.kind, b[r.size..r.size + r.length])
  }

  function AfterFirst(b: Bytes): (r: Bytes)
    requires DecodeTL(b).kind != 0
    ensures |r| < |b|
  {
    var r := DecodeTL(b);
    b[r.size + r.length..]
  }

  lemma FirstCanonical(b: Bytes)
    requires DecodeTL(b).kind != 0
    ensures First(b).Valid() && b == First(b).Encode() + AfterFirst(b)
    ensures DecodeTL(b).size == |EncodeTL(First(b).kind, |First(b).value|)|
  {
    TLCanonical(b);
    var r := DecodeTL(b);
    assert b == b[..r.size] + b[r.size..r.size + r.length] + b[r.size + r.length..];
  }

  lemma FirstOf(e: Element, x: Bytes)
    requires e.Valid()
    ensures DecodeTL(e.Encode() + x).kind == e.kind && First(e.Encode() + x) == e && AfterFirst(e.Encode() + x) == x
  {
    var b := e.Encode() + x;
    assert b == EncodeTL(e.kind, |e.value|) + (e.value + x);
    TLRoundTrip(e.kind, |e.value|, e.value + x);
  }
}
