/** Names in their encoded form (csrc/ndni/name.h, csrc/ndni/name.c). */
module Name {
  import opened Common
  import opened Chain
  import opened Tlv

  const NAME_MAX_LENGTH := 2048

  /** A one- or three-byte number, followed by at least `minTail` bytes. */
  function ParseVarNum(v: Bytes, minTail: nat): (r: Option<(nat, nat)>)
    ensures r.Some? ==> 1 <= r.value.1 && r.value.1 + minTail <= |v|
  {
    if 1 + minTail > |v| then
      None
    else if v[0] < 0xFD then
      Some((v[0], 1))
    else if v[0] > 0xFD || 3 + minTail > |v| then
      None
    else
      Some((Be(v[1..3]), 3))
  }

  /** The first component and its encoded size. */
  function ParseComponent(v: Bytes): (r: Option<(Element, nat)>)
    ensures r.Some? ==> 2 <= r.value.1 <= |v|
  {
    var t := ParseVarNum(v, 1);
    if t.None? || t.value.0 == 0 then
      None
    else
      var l := ParseVarNum(v[t.value.1..], 0);
      if l.None? then
        None
      else
        var pos := t.value.1 + l.value.1;
        if pos + l.value.0 > |v| then None else Some((Element(t.value.0, v[pos..pos + l.value.0]), pos + l.value.0))
  }

  /** The components of a name; a single byte at the end is not looked at. */
  function ParseComponents(v: Bytes): (r: Option<seq<Element>>) {
    if |v| < 2 then
      Some([])
    else
      var c := ParseComponent(v);
      if c.None? then
        None
      else
        var rest := ParseComponents(v[c.value.1..]);
        if rest.None? then None else Some([c.value.0] + rest.value)
  }

  /** A number that takes at most three bytes, encoded in the shortest way. */
  lemma ParseVarNumOf(n: nat, x: Bytes, minTail: nat)
    requires n <= 0xFFFF && minTail <= |x|
    ensures ParseVarNum(EncodeVarNum(n) + x, minTail) == Some((n, |EncodeVarNum(n)|))
  {
    if n >= 0xFD {
      Powers();
      BeToBe(n, 2);
      var v := EncodeVarNum(n) + x;
      assert v[1..3] == ToBe(n, 2);
    }
  }

  lemma ParseComponentOf(c: Element, x: Bytes)
    requires 1 <= c.kind <= 0xFFFF && |c.value| <= 0xFFFF
    ensures ParseComponent(c.Encode() + x) == Some((c, |c.Encode()|)) && |c.Encode()| >= 2
  {
    hide EncodeVarNum;
    var k, l := EncodeVarNum(c.kind), EncodeVarNum(|c.value|);
    var v := c.Encode() + x;
    assert v == k + (l + (c.value + x));
    VarNumNonEmpty(|c.value|);
    VarNumNonEmpty(c.kind);
    ParseVarNumOf(c.kind, l + (c.value + x), 1);
    assert v[|k|..] == l + (c.value + x);
    ParseVarNumOf(|c.value|, c.value + x, 0);
    assert v[|k| + |l|..|k| + |l| + |c.value|] == c.value;
  }

  lemma VarNumNonEmpty(n: nat)
    ensures |EncodeVarNum(n)| >= 1
  {
  }

  /** Parsing an encoded name gives back its components. */
  lemma {:induction false} ParseComponentsOf(name: seq<Element>)
    requires forall i | 0 <= i < |name| :: 1 <= name[i].kind <= 0xFFFF && |name[i].value| <= 0xFFFF
    ensures ParseComponents(EncodeAll(name)) == Some(name)
  {
    hide Element.Encode, ParseComponent;
    if name != [] {
      ParseComponentsOf(name[1..]);
      ParseComponentOf(name[0], EncodeAll(name[1..]));
      var v := EncodeAll(name);
      assert v[|name[0].Encode()|..] == EncodeAll(name[1..]);
      assert [name[0]] + name[1..] == name;
    }
  }

  /** A name, as the list of its components. */
  type NameT = seq<Element>

  const TT_IMPLICIT_DIGEST := 0x01
  const TT_GENERIC := 0x08
  const DIGEST_LENGTH := 32

  /** What is found out about a name while it is parsed. */
  datatype PName = PName(nComps: nat, firstNonGeneric: int, hasDigestComp: bool)

  /** The same, from its components. */
  function Summary(comps: seq<Element>): (p: PName) {
    PName(|comps|, FirstNonGeneric(comps, 0),
          |comps| > 0 && comps[|comps| - 1].kind == TT_IMPLICIT_DIGEST && |comps[|comps| - 1].value| == DIGEST_LENGTH)
  }

  function FirstNonGeneric(comps: seq<Element>, i: nat): (k: int)
    requires i <= |comps|
    decreases |comps| - i
  {
    if i == |comps| then -1 else if comps[i].kind != TT_GENERIC then i else FirstNonGeneric(comps, i + 1)
  }

  lemma {:induction false} FirstNonGenericSnoc(comps: seq<Element>, c: Element, i: nat)
    requires i <= |comps|
    ensures FirstNonGeneric(comps + [c], i) ==
      if FirstNonGeneric(comps, i) >= 0 then FirstNonGeneric(comps, i) else if c.kind != TT_GENERIC then |comps| else -1
    decreases |comps| - i
  {
    if i < |comps| {
      FirstNonGenericSnoc(comps, c, i + 1);
    }
  }

  lemma Unfold(v: Bytes)
    ensures |v| < 2 ==> ParseComponents(v) == Some([])
    ensures |v| >= 2 && ParseComponent(v).None? ==> ParseComponents(v) == None
    ensures |v| >= 2 && ParseComponent(v).Some? ==>
      var (c, n) := ParseComponent(v).value; var rest := ParseComponents(v[n..]);
      ParseComponents(v) == if rest.None? then None else Some([c] + rest.value)
  {
  }

  /** The loop over the components of a name. */
  method Parse(v: Bytes) returns (r: Option<PName>)
    ensures r == var comps := ParseComponents(v); if comps.None? then None else Some(Summary(comps.value))
  {
    hide ParseComponent, ParseComponents;
    var pos: nat, nComps: nat, firstNonGeneric: int, kind: nat, length: nat := 0, 0, -1, 0, 0;
    ghost var comps: seq<Element> := [];
    assert v[0..] == v;
    assert ParseComponents(v).Some? ==> comps + ParseComponents(v).value == ParseComponents(v).value;
    while |v| - pos >= 2
      invariant pos <= |v| && nComps == |comps| && firstNonGeneric == FirstNonGeneric(comps, 0)
      invariant comps == [] ==> kind == 0
      invariant comps != [] ==> kind == comps[|comps| - 1].kind && length == |comps[|comps| - 1].value|
      invariant ParseComponents(v) == var rest := ParseComponents(v[pos..]); if rest.None? then None else Some(comps + rest.value)
      decreases |v| - pos
    {
      Unfold(v[pos..]);
      var c := ParseComponent(v[pos..]);
      if c.None? {
        return None;
      }
      FirstNonGenericSnoc(comps, c.value.0, 0);
      assert v[pos..][c.value.1..] == v[pos + c.value.1..];
      ghost var rest := ParseComponents(v[pos + c.value.1..]);
      if rest.Some? {
        Snoc(comps, c.value.0, rest.value);
      }
      comps := comps + [c.value.0];
      kind, length := c.value.0.kind, |c.value.0.value|;
      if kind != TT_GENERIC && firstNonGeneric < 0 {
        firstNonGeneric := nComps;
      }
      pos := pos + c.value.1;
      nComps := nComps + 1;
    }
    Unfold(v[pos..]);
    assert comps + [] == comps;
    r := Some(PName(nComps, firstNonGeneric, kind == TT_IMPLICIT_DIGEST && length == DIGEST_LENGTH));
  }

  lemma Snoc(a: seq<Element>, c: Element, b: seq<Element>)
    ensures a + ([c] + b) == a + [c] + b
  {
  }
}
