/**
  Interest packets: parsing, and rewriting of the guider fields Nonce, InterestLifetime and HopLimit
  (csrc/ndni/interest.c).  The format is that of NDN Packet Format v0.3, "Interest Packet".
 */
module Interest {
  import opened Common
  import opened Chain
  import opened Tlv
  import Name

  const TT_NAME := 0x07
  const TT_CAN_BE_PREFIX := 0x21
  const TT_MUST_BE_FRESH := 0x12
  const TT_FORWARDING_HINT := 0x1E
  const TT_NONCE := 0x0A
  const TT_INTEREST_LIFETIME := 0x0C
  const TT_HOP_LIMIT := 0x22
  const TT_APP_PARAMETERS := 0x24

  const DEFAULT_INTEREST_LIFETIME := 4000
  const MAX_FW_HINTS := 4

  datatype Guiders = Guiders(nonce: nat, lifetime: nat, hopLimit: nat) {

    predicate Valid() {
      nonce < 0x1_0000_0000 && lifetime < 0x1_0000_0000 && hopLimit < 0x100
    }
  }

  /** What an Interest says, besides its parameters. */
  datatype Meaning = Meaning(name: Bytes, canBePrefix: bool, mustBeFresh: bool, fwHints: seq<Bytes>, guiders: Guiders)

  /** State of the parser: positions count the bytes left. */
  datatype Fields = Fields(meaning: Meaning, posNonce: nat, posEndGuider: nat)

  const INIT := Meaning([], false, false, [], Guiders(0, DEFAULT_INTEREST_LIFETIME, 0xFF))

  predicate IsGuider(kind: nat) {
    kind in {TT_NONCE, TT_INTEREST_LIFETIME, TT_HOP_LIMIT}
  }

  /** The value of a ForwardingHint: only the first few names are kept. */
  function ParseFwHint(hints: seq<Bytes>, b: Bytes): (r: Option<seq<Bytes>>)
    ensures r.Some? ==> r.value != [] && hints <= r.value
    decreases |b|
  {
    var tl := DecodeTL(b);
    if tl.kind == 0 then
      if tl.size == |b| && hints != [] then Some(hints) else None
    else
      var e, rest := First(b), AfterFirst(b);
      if e.kind == TT_NAME then
        if |hints| >= MAX_FW_HINTS then
          ParseFwHint(hints, rest)
        else if |e.value| > Name.NAME_MAX_LENGTH || e.value == [] then
          None
        else
          ParseFwHint(hints + [e.value], rest)
      else if IsCriticalType(e.kind) then
        None
      else
        ParseFwHint(hints, rest)
  }

  /** The effect of one element on what the Interest says. */
  function Interpret(m: Meaning, e: Element): (r: Option<Meaning>) {
    if e.kind == TT_NAME then
      if e.value == [] || |e.value| > Name.NAME_MAX_LENGTH || Name.ParseComponents(e.value).None? then None else Some(m.(name := e.value))
    else if e.kind == TT_CAN_BE_PREFIX then
      Some(m.(canBePrefix := true))
    else if e.kind == TT_MUST_BE_FRESH then
      Some(m.(mustBeFresh := true))
    else if e.kind == TT_FORWARDING_HINT then
      var hints := ParseFwHint(m.fwHints, e.value);
      if hints.Some? then Some(m.(fwHints := hints.value)) else None
    else if e.kind == TT_NONCE then
      if |e.value| == 4 then Some(m.(guiders := m.guiders.(nonce := Be(e.value)))) else None
    else if e.kind == TT_INTEREST_LIFETIME then
      var n := DecodeNni(e.value);
      if n.Some? && n.value < 0x1_0000_0000 then Some(m.(guiders := m.guiders.(lifetime := n.value))) else None
    else if e.kind == TT_HOP_LIMIT then
      if |e.value| == 1 then Some(m.(guiders := m.guiders.(hopLimit := Be(e.value)))) else None
    else if IsCriticalType(e.kind) then
      None
    else
      Some(m)
  }

  /** The effect of one element on the state of the parser, when `left` bytes come after it. */
  function Apply(f: Fields, e: Element, left: nat): (r: Option<Fields>) {
    var m := Interpret(f.meaning, e);
    if m.None? then
      None
    else
      Some(Fields(m.value,
                  if e.kind == TT_NONCE then left + 6 else f.posNonce,
                  if IsGuider(e.kind) then left else f.posEndGuider))
  }

  /** The loop of the parser: it stops at the parameters and at anything that is not an element. */
  function ParseLoop(f: Fields, b: Bytes): (r: Option<Fields>)
    decreases |b|
  {
    if DecodeTL(b).kind in {0, TT_APP_PARAMETERS} then
      Some(f)
    else
      var f' := Apply(f, First(b), |AfterFirst(b)|);
      if f'.None? then None else ParseLoop(f'.value, AfterFirst(b))
  }

  datatype PInterest = PInterest(meaning: Meaning, nonceOffset: int, guiderSize: nat)

  /** The checks after the loop. */
  function Finish(f: Fields, posStart: nat): (r: Option<PInterest>) {
    var comps := Name.ParseComponents(f.meaning.name);
    if comps.None? || comps.value == [] || f.posNonce == 0 then
      None
    else if (f.posNonce - f.posEndGuider) % 0x1_0000_0000 > 0xFF then
      None
    else
      Some(PInterest(f.meaning, posStart - f.posNonce, (f.posNonce - f.posEndGuider) % 0x1_0000_0000))
  }

  /** Parse the bytes after the TLV-TYPE and TLV-LENGTH of the Interest. */
  function ParseValue(v: Bytes): (r: Option<PInterest>) {
    var f := ParseLoop(Fields(INIT, 0, 0), v);
    if f.None? then None else Finish(f.value, |v|)
  }

  // ------------------------------------------------------------------ elements

  predicate Stops(b: Bytes) {
    DecodeTL(b).kind in {0, TT_APP_PARAMETERS}
  }

  /** The elements that the parser looks at. */
  function Elements(b: Bytes): (es: seq<Element>) {
    if Stops(b) then [] else [First(b)] + Elements(AfterFirst(b))
  }

  /** The bytes that it does not look at. */
  function Tail(b: Bytes): (r: Bytes) {
    if Stops(b) then b else Tail(AfterFirst(b))
  }

  predicate Regular(es: seq<Element>) {
    forall i | 0 <= i < |es| :: es[i].Valid() && es[i].kind != TT_APP_PARAMETERS
  }

  lemma {:induction false} ElementsTail(b: Bytes)
    ensures b == EncodeAll(Elements(b)) + Tail(b) && Regular(Elements(b)) && Stops(Tail(b))
    decreases |b|
  {
    hide Element.Encode, First, AfterFirst, DecodeTL;
    if Stops(b) {
      assert b == [] + b;
    } else {
      var es := Elements(AfterFirst(b));
      ElementsTail(AfterFirst(b));
      FirstCanonical(b);
      FirstKind(b);
      assert ([First(b)] + es)[1..] == es;
      Associate(First(b).Encode(), EncodeAll(es), Tail(b));
    }
  }

  lemma FirstKind(b: Bytes)
    requires DecodeTL(b).kind != 0
    ensures First(b).kind == DecodeTL(b).kind
  {
  }

  lemma {:induction false} ElementsOf(es: seq<Element>, tail: Bytes)
    requires Regular(es) && Stops(tail)
    ensures Elements(EncodeAll(es) + tail) == es && Tail(EncodeAll(es) + tail) == tail
  {
    hide Element.Encode, First, AfterFirst, DecodeTL;
    if es == [] {
      assert [] + tail == tail;
    } else {
      var rest := EncodeAll(es[1..]) + tail;
      ElementsOf(es[1..], tail);
      Associate(es[0].Encode(), EncodeAll(es[1..]), tail);
      FirstOf(es[0], rest);
      assert [es[0]] + es[1..] == es;
    }
  }

  /** The parser as a fold over the elements. */
  function Run(f: Fields, es: seq<Element>, tail: nat): (r: Option<Fields>)
    decreases |es|
  {
    if es == [] then
      Some(f)
    else
      var f' := Apply(f, es[0], |EncodeAll(es[1..])| + tail);
      if f'.None? then None else Run(f'.value, es[1..], tail)
  }

  lemma {:induction false} LoopIsRun(f: Fields, b: Bytes)
    ensures ParseLoop(f, b) == Run(f, Elements(b), |Tail(b)|)
    decreases |b|
  {
    hide Element.Encode, First, AfterFirst, DecodeTL, Apply;
    if !Stops(b) {
      var es := Elements(AfterFirst(b));
      ElementsTail(AfterFirst(b));
      assert ([First(b)] + es)[1..] == es;
      var f' := Apply(f, First(b), |AfterFirst(b)|);
      if f'.Some? {
        LoopIsRun(f'.value, AfterFirst(b));
      }
    }
  }

  /** What the elements say, without positions. */
  function InterpretAll(m: Meaning, es: seq<Element>): (r: Option<Meaning>)
    decreases |es|
  {
    if es == [] then
      Some(m)
    else
      var m' := Interpret(m, es[0]);
      if m'.None? then None else InterpretAll(m'.value, es[1..])
  }

  /** Index of the last Nonce, or -1. */
  function LastNonce(es: seq<Element>): (k: int)
    ensures -1 <= k < |es| && (k >= 0 ==> es[k].kind == TT_NONCE)
    ensures forall i | k < i < |es| :: es[i].kind != TT_NONCE
  {
    if es == [] then -1 else if es[|es| - 1].kind == TT_NONCE then |es| - 1 else LastNonce(es[..|es| - 1])
  }

  /** Index of the last guider, or -1. */
  function LastGuider(es: seq<Element>): (k: int)
    ensures -1 <= k < |es| && (k >= 0 ==> IsGuider(es[k].kind))
    ensures forall i | k < i < |es| :: !IsGuider(es[i].kind)
  {
    if es == [] then -1 else if IsGuider(es[|es| - 1].kind) then |es| - 1 else LastGuider(es[..|es| - 1])
  }

  lemma LastNonceIs(es: seq<Element>, k: int)
    requires -1 <= k < |es| && (k >= 0 ==> es[k].kind == TT_NONCE) && forall i | k < i < |es| :: es[i].kind != TT_NONCE
    ensures LastNonce(es) == k
  {
  }

  lemma LastGuiderIs(es: seq<Element>, k: int)
    requires -1 <= k < |es| && (k >= 0 ==> IsGuider(es[k].kind)) && forall i | k < i < |es| :: !IsGuider(es[i].kind)
    ensures LastGuider(es) == k
  {
  }

  /** The last guider of the rest, or else the first element. */
  lemma LastsOfRest(es: seq<Element>)
    requires es != []
    ensures var k := LastNonce(es[1..]);
      LastNonce(es) == if k >= 0 then k + 1 else if es[0].kind == TT_NONCE then 0 else -1
    ensures var g := LastGuider(es[1..]);
      LastGuider(es) == if g >= 0 then g + 1 else if IsGuider(es[0].kind) then 0 else -1
  {
    var k, g := LastNonce(es[1..]), LastGuider(es[1..]);
    hide LastNonce, LastGuider;
    forall i | 0 < i < |es| ensures es[i] == es[1..][i - 1] {}
    LastNonceIs(es, if k >= 0 then k + 1 else if es[0].kind == TT_NONCE then 0 else -1);
    LastGuiderIs(es, if g >= 0 then g + 1 else if IsGuider(es[0].kind) then 0 else -1);
  }

  /** Where the last Nonce begins, in bytes from the end, if it has been found in `es`. */
  ghost predicate NonceAt(was: nat, es: seq<Element>, tail: nat, now: nat) {
    var k := LastNonce(es);
    now == if k >= 0 then |EncodeAll(es[k + 1..])| + tail + 6 else was
  }

  /** Where the last guider ends. */
  ghost predicate GuiderAt(was: nat, es: seq<Element>, tail: nat, now: nat) {
    var g := LastGuider(es);
    now == if g >= 0 then |EncodeAll(es[g + 1..])| + tail else was
  }

  /** The positions after a run. */
  ghost predicate Positions(f: Fields, es: seq<Element>, tail: nat, f': Fields) {
    NonceAt(f.posNonce, es, tail, f'.posNonce) && GuiderAt(f.posEndGuider, es, tail, f'.posEndGuider)
  }

  lemma RestAfter(es: seq<Element>, k: nat)
    requires k < |es|
    ensures es[1..][k..] == es[k + 1..]
  {
  }

  lemma NonceStep(was: nat, es: seq<Element>, tail: nat, mid: nat, now: nat)
    requires es != [] && NonceAt(mid, es[1..], tail, now)
    requires mid == if es[0].kind == TT_NONCE then |EncodeAll(es[1..])| + tail + 6 else was
    ensures NonceAt(was, es, tail, now)
  {
    hide EncodeAll, LastNonce, LastGuider, IsGuider;
    LastsOfRest(es);
    var k := LastNonce(es[1..]);
    if k >= 0 {
      RestAfter(es, k + 1);
    }
  }

  lemma GuiderStep(was: nat, es: seq<Element>, tail: nat, mid: nat, now: nat)
    requires es != [] && GuiderAt(mid, es[1..], tail, now)
    requires mid == if IsGuider(es[0].kind) then |EncodeAll(es[1..])| + tail else was
    ensures GuiderAt(was, es, tail, now)
  {
    hide EncodeAll, LastNonce, LastGuider, IsGuider;
    LastsOfRest(es);
    var g := LastGuider(es[1..]);
    if g >= 0 {
      RestAfter(es, g + 1);
    }
  }

  /** A run interprets the elements, and finds the last Nonce and the last guider. */
  lemma {:induction false} RunMeans(f: Fields, es: seq<Element>, tail: nat)
    ensures var r, m := Run(f, es, tail), InterpretAll(f.meaning, es);
      r.Some? == m.Some? && (r.Some? ==> r.value.meaning == m.value && Positions(f, es, tail, r.value))
    decreases |es|
  {
    hide EncodeAll, Interpret, NonceAt, GuiderAt, IsGuider;
    if es == [] {
      NoPositions(f, tail);
    } else {
      var f1 := Apply(f, es[0], |EncodeAll(es[1..])| + tail);
      if f1.Some? {
        RunMeans(f1.value, es[1..], tail);
        var r := Run(f1.value, es[1..], tail);
        if r.Some? {
          NonceStep(f.posNonce, es, tail, f1.value.posNonce, r.value.posNonce);
          GuiderStep(f.posEndGuider, es, tail, f1.value.posEndGuider, r.value.posEndGuider);
        }
      }
    }
  }

  lemma NoPositions(f: Fields, tail: nat)
    ensures Positions(f, [], tail, f)
  {
  }

  lemma {:induction false} InterpretSplit(m: Meaning, a: seq<Element>, b: seq<Element>)
    ensures var r := InterpretAll(m, a);
      InterpretAll(m, a + b) == if r.None? then None else InterpretAll(r.value, b)
    decreases |a|
  {
    hide Interpret;
    if a == [] {
      assert a + b == b;
    } else {
      assert (a + b)[0] == a[0] && (a + b)[1..] == a[1..] + b;
      var m' := Interpret(m, a[0]);
      if m'.Some? {
        InterpretSplit(m'.value, a[1..], b);
      }
    }
  }

  lemma {:induction false} NonceHasFour(m: Meaning, es: seq<Element>, k: nat)
    requires InterpretAll(m, es).Some? && k < |es| && es[k].kind == TT_NONCE
    ensures |es[k].value| == 4 && |es[k].Encode()| == 6
    decreases |es|
  {
    if k > 0 {
      NonceHasFour(Interpret(m, es[0]).value, es[1..], k - 1);
    }
  }

  // ------------------------------------------------------------------ rewriting

  function GuiderElements(g: Guiders): (es: seq<Element>) {
    [ Element(TT_NONCE, ToBe(g.nonce, 4)), Element(TT_INTEREST_LIFETIME, ToBe(g.lifetime, 4)), Element(TT_HOP_LIMIT, ToBe(g.hopLimit, 1)) ]
  }

  const GUIDER_FIELDS_SIZE := 15

  /** The fixed layout of new guiders. */
  function EncodeGuiders(g: Guiders): (b: Bytes)
    ensures |b| == GUIDER_FIELDS_SIZE
  {
    [TT_NONCE, 4] + ToBe(g.nonce, 4) + [TT_INTEREST_LIFETIME, 4] + ToBe(g.lifetime, 4) + [TT_HOP_LIMIT, 1] + ToBe(g.hopLimit, 1)
  }

  lemma GuidersEncode(g: Guiders)
    ensures EncodeGuiders(g) == EncodeAll(GuiderElements(g))
  {
    var es := GuiderElements(g);
    assert EncodeAll(es[2..]) == es[2].Encode();
    assert es[1..][1..] == es[2..];
    assert EncodeAll(es[1..]) == es[1].Encode() + es[2].Encode();
  }

  lemma GuidersMean(m: Meaning, g: Guiders)
    requires g.Valid()
    ensures InterpretAll(m, GuiderElements(g)) == Some(m.(guiders := g))
  {
    Powers();
    BeToBe(g.nonce, 4);
    BeToBe(g.lifetime, 4);
    BeToBe(g.hopLimit, 1);
    var es := GuiderElements(g);
    hide ToBe, Be, Pow256;
    var m1 := m.(guiders := m.guiders.(nonce := g.nonce));
    var m2 := m1.(guiders := m1.guiders.(lifetime := g.lifetime));
    assert Interpret(m, es[0]) == Some(m1) && Interpret(m1, es[1]) == Some(m2);
    assert InterpretAll(m2, es[2..]) == Some(m.(guiders := g));
    assert es[1..][1..] == es[2..];
    assert InterpretAll(m1, es[1..]) == InterpretAll(m2, es[2..]);
  }

  /** The bytes after TLV-TYPE and TLV-LENGTH, with other guiders. */
  function Rewrite(v: Bytes, i: PInterest, g: Guiders): (r: Bytes)
    requires 0 <= i.nonceOffset && i.nonceOffset + i.guiderSize <= |v|
  {
    v[..i.nonceOffset] + EncodeGuiders(g) + v[i.nonceOffset + i.guiderSize..]
  }

  /**
    What the chained rewriting makes of them.  It clones the bytes before the Nonce, and there must
    be some: the chain of mbufs that it makes of them must not be empty.
   */
  function Modified(v: Bytes, i: PInterest, g: Guiders): (r: Option<Bytes>)
    requires 0 <= i.nonceOffset && i.nonceOffset + i.guiderSize <= |v|
  {
    if i.nonceOffset == 0 then None else Some(Rewrite(v, i, g))
  }

  /** The length of a packet is a 32-bit number. */
  predicate Fits(v: Bytes) {
    |v| < 0x1_0000_0000
  }

  /** The elements before the last Nonce, those from there to the last guider, and those after it. */
  ghost function Before(v: Bytes): (es: seq<Element>)
    requires LastNonce(Elements(v)) >= 0
  {
    Elements(v)[..LastNonce(Elements(v))]
  }

  ghost function Amid(v: Bytes): (es: seq<Element>)
    requires 0 <= LastNonce(Elements(v)) <= LastGuider(Elements(v))
  {
    Elements(v)[LastNonce(Elements(v))..LastGuider(Elements(v)) + 1]
  }

  ghost function After(v: Bytes): (es: seq<Element>)
    requires LastGuider(Elements(v)) >= 0
  {
    Elements(v)[LastGuider(Elements(v)) + 1..]
  }

  lemma NonceIsGuider(es: seq<Element>)
    ensures LastNonce(es) <= LastGuider(es)
  {
  }

  lemma EncodeThree(a: seq<Element>, b: seq<Element>, c: seq<Element>)
    ensures EncodeAll(a + b + c) == EncodeAll(a) + EncodeAll(b) + EncodeAll(c)
  {
    EncodeAllSplit(a + b, c);
    EncodeAllSplit(a, b);
  }

  /** What the parser finds in an Interest that it accepts. */
  lemma Layout(v: Bytes)
    requires ParseValue(v).Some? && Fits(v)
    ensures var es := Elements(v); 0 <= LastNonce(es) <= LastGuider(es)
    ensures Elements(v) == Before(v) + Amid(v) + After(v)
    ensures v == EncodeAll(Before(v)) + EncodeAll(Amid(v)) + EncodeAll(After(v)) + Tail(v)
    ensures var i := ParseValue(v).value;
      && InterpretAll(INIT, Elements(v)) == Some(i.meaning)
      && i.nonceOffset == |EncodeAll(Before(v))| && i.guiderSize == |EncodeAll(Amid(v))| <= 0xFF
      && Name.ParseComponents(i.meaning.name).Some? && Name.ParseComponents(i.meaning.name).value != []
  {
    hide Elements, Tail, EncodeAll, InterpretAll, LastNonce, LastGuider, Name.ParseComponents, ParseLoop, Interpret, DecodeTL;
    var es, tail := Elements(v), |Tail(v)|;
    var f := Fields(INIT, 0, 0);
    LoopIsRun(f, v);
    RunMeans(f, es, tail);
    NonceIsGuider(es);
    var k, g := LastNonce(es), LastGuider(es);
    NonceHasFour(INIT, es, k);
    ElementsTail(v);
    assert es == es[..k] + es[k..g + 1] + es[g + 1..];
    EncodeThree(es[..k], es[k..g + 1], es[g + 1..]);
    NonceThere(es, k, g);
  }

  lemma NonceThere(es: seq<Element>, k: nat, g: nat)
    requires k <= g < |es| && |es[k].Encode()| == 6
    ensures 6 + |EncodeAll(es[k + 1..])| == |EncodeAll(es[k..g + 1])| + |EncodeAll(es[g + 1..])|
  {
    hide Element.Encode;
    assert es[k..] == es[k..g + 1] + es[g + 1..];
    EncodeAllSplit(es[k..g + 1], es[g + 1..]);
    assert es[k..][1..] == es[k + 1..];
  }

  // ------------------------------------------------------------------ rewriting preserves meaning

  predicate IsField(kind: nat) {
    kind in {TT_NAME, TT_CAN_BE_PREFIX, TT_MUST_BE_FRESH, TT_FORWARDING_HINT}
  }

  /** Two meanings that differ at most in the guiders. */
  predicate SameFields(m: Meaning, m': Meaning) {
    m' == m.(guiders := m'.guiders)
  }

  /** Elements that are not guiders act alike, and leave the guiders alone. */
  lemma {:induction false} NoGuidersAlike(m: Meaning, g: Guiders, es: seq<Element>)
    requires forall i | 0 <= i < |es| :: !IsGuider(es[i].kind)
    ensures var r, r' := InterpretAll(m, es), InterpretAll(m.(guiders := g), es);
      r.Some? == r'.Some? && (r.Some? ==> r'.value == r.value.(guiders := g))
    decreases |es|
  {
    if es != [] {
      var r := Interpret(m, es[0]);
      var r' := Interpret(m.(guiders := g), es[0]);
      assert r.Some? == r'.Some? && (r.Some? ==> r'.value == r.value.(guiders := g));
      if r.Some? {
        NoGuidersAlike(r.value, g, es[1..]);
      }
    }
  }

  /** No name, flag or forwarding hint stands among the guiders. */
  ghost predicate GuidersApart(v: Bytes)
    requires 0 <= LastNonce(Elements(v)) <= LastGuider(Elements(v))
  {
    forall i | 0 <= i < |Amid(v)| :: !IsField(Amid(v)[i].kind)
  }

  /** The elements of the rewritten Interest. */
  lemma RewriteElements(v: Bytes, g: Guiders)
    requires ParseValue(v).Some? && Fits(v) && g.Valid()
    ensures 0 <= LastNonce(Elements(v)) <= LastGuider(Elements(v))
    ensures var i := ParseValue(v).value; 0 <= i.nonceOffset && i.nonceOffset + i.guiderSize <= |v|
    ensures var r := Rewrite(v, ParseValue(v).value, g);
      && Elements(r) == Before(v) + GuiderElements(g) + After(v) && Tail(r) == Tail(v)
      && |r| == |EncodeAll(Before(v))| + GUIDER_FIELDS_SIZE + |EncodeAll(After(v))| + |Tail(v)|
  {
    hide Elements, Tail, EncodeAll, LastNonce, LastGuider, ParseValue, GuiderElements, EncodeGuiders, DecodeTL, Rewrite;
    Layout(v);
    ElementsTail(v);
    var i := ParseValue(v).value;
    var es := Before(v) + GuiderElements(g) + After(v);
    RewriteBytes(v, i, g, EncodeAll(Before(v)), EncodeAll(Amid(v)), EncodeAll(After(v)), Tail(v));
    GuidersEncode(g);
    EncodeThree(Before(v), GuiderElements(g), After(v));
    RegularParts(v, g);
    ElementsOf(es, Tail(v));
  }

  lemma RewriteBytes(v: Bytes, i: PInterest, g: Guiders, a: Bytes, b: Bytes, c: Bytes, tail: Bytes)
    requires v == a + b + c + tail && i.nonceOffset == |a| && i.guiderSize == |b|
    ensures Rewrite(v, i, g) == a + EncodeGuiders(g) + c + tail
  {
    hide EncodeGuiders;
    assert v[..|a|] == a && v[|a| + |b|..] == c + tail;
    Associate(a + EncodeGuiders(g), c, tail);
  }

  lemma RegularParts(v: Bytes, g: Guiders)
    requires 0 <= LastNonce(Elements(v)) <= LastGuider(Elements(v)) && Regular(Elements(v))
    ensures Regular(Before(v) + GuiderElements(g) + After(v))
  {
    hide Elements, LastNonce, LastGuider;
  }

  lemma LastsAfterRewrite(a: seq<Element>, g: Guiders, c: seq<Element>)
    requires forall i | 0 <= i < |c| :: !IsGuider(c[i].kind)
    ensures var es := a + GuiderElements(g) + c; LastNonce(es) == |a| && LastGuider(es) == |a| + 2
  {
    hide LastNonce, LastGuider;
    var es := a + GuiderElements(g) + c;
    forall i | |a| + 2 < i < |es| ensures !IsGuider(es[i].kind) && es[i].kind != TT_NONCE {
      assert es[i] == c[i - |a| - 3];
    }
    LastNonceIs(es, |a|);
    LastGuiderIs(es, |a| + 2);
  }

  lemma AfterNoGuiders(v: Bytes)
    requires LastGuider(Elements(v)) >= 0
    ensures forall i | 0 <= i < |After(v)| :: !IsGuider(After(v)[i].kind)
  {
  }

  /** What the parser makes of elements with new guiders in the middle. */
  lemma ParseNewGuiders(r: Bytes, a: seq<Element>, g: Guiders, c: seq<Element>, m: Meaning)
    requires Elements(r) == a + GuiderElements(g) + c && InterpretAll(INIT, Elements(r)) == Some(m)
    requires (forall i | 0 <= i < |c| :: !IsGuider(c[i].kind)) && |r| == |EncodeAll(a)| + GUIDER_FIELDS_SIZE + |EncodeAll(c)| + |Tail(r)|
    requires Name.ParseComponents(m.name).Some? && Name.ParseComponents(m.name).value != []
    ensures ParseValue(r) == Some(PInterest(m, |EncodeAll(a)|, GUIDER_FIELDS_SIZE))
  {
    hide Elements, Tail, EncodeAll, InterpretAll, LastNonce, LastGuider, Name.ParseComponents, ParseLoop, GuiderElements, NonceAt, GuiderAt, Run, Finish;
    LoopIsRun(Fields(INIT, 0, 0), r);
    RunMeans(Fields(INIT, 0, 0), Elements(r), |Tail(r)|);
    LastsAfterRewrite(a, g, c);
    RewritePositions(a, g, c);
    var f := Run(Fields(INIT, 0, 0), Elements(r), |Tail(r)|).value;
    assert Elements(r) == a + GuiderElements(g) + c;
    AtIndex(0, a + GuiderElements(g) + c, |Tail(r)|, f.posNonce, 0, f.posEndGuider, |a|, |a| + 2);
    FinishIs(f, |r|, |EncodeAll(a)|, |EncodeAll(c)| + |Tail(r)|);
  }

  lemma FinishIs(f: Fields, posStart: nat, before: nat, after: nat)
    requires f.posNonce == after + GUIDER_FIELDS_SIZE && f.posEndGuider == after && posStart == before + f.posNonce
    requires Name.ParseComponents(f.meaning.name).Some? && Name.ParseComponents(f.meaning.name).value != []
    ensures Finish(f, posStart) == Some(PInterest(f.meaning, before, GUIDER_FIELDS_SIZE))
  {
    hide Name.ParseComponents;
  }

  lemma AtIndex(was: nat, es: seq<Element>, tail: nat, now: nat, was': nat, now': nat, k: nat, g: nat)
    requires NonceAt(was, es, tail, now) && GuiderAt(was', es, tail, now') && LastNonce(es) == k && LastGuider(es) == g
    ensures now == |EncodeAll(es[k + 1..])| + tail + 6 && now' == |EncodeAll(es[g + 1..])| + tail
  {
  }

  lemma RewritePositions(a: seq<Element>, g: Guiders, c: seq<Element>)
    ensures var es := a + GuiderElements(g) + c;
      |EncodeAll(es[|a| + 1..])| + 6 == GUIDER_FIELDS_SIZE + |EncodeAll(c)| && EncodeAll(es[|a| + 2 + 1..]) == EncodeAll(c)
  {
    var es := a + GuiderElements(g) + c;
    assert es[|a| + 3..] == c;
    assert es[|a| + 1..] == GuiderElements(g)[1..] + c;
    EncodeAllSplit(GuiderElements(g)[1..], c);
    GuidersEncode(g);
    assert EncodeAll(GuiderElements(g)) == GuiderElements(g)[0].Encode() + EncodeAll(GuiderElements(g)[1..]);
  }

  // ------------------------------------------------------------------ what the elements say, field by field

  /** The element is acceptable on its own; a ForwardingHint depends on those before it. */
  predicate ElementOk(e: Element) {
    if e.kind == TT_NAME then e.value != [] && |e.value| <= Name.NAME_MAX_LENGTH && Name.ParseComponents(e.value).Some?
    else if e.kind == TT_NONCE then |e.value| == 4
    else if e.kind == TT_INTEREST_LIFETIME then DecodeNni(e.value).Some? && DecodeNni(e.value).value < 0x1_0000_0000
    else if e.kind == TT_HOP_LIMIT then |e.value| == 1
    else IsField(e.kind) || !IsCriticalType(e.kind)
  }

  predicate AllOk(es: seq<Element>) {
    es == [] || (ElementOk(es[0]) && AllOk(es[1..]))
  }

  predicate Has(es: seq<Element>, kind: nat) {
    es != [] && (es[0].kind == kind || Has(es[1..], kind))
  }

  /** The value of the last Name. */
  function LastName(name: Bytes, es: seq<Element>): Bytes
    decreases |es|
  {
    if es == [] then name else LastName(if es[0].kind == TT_NAME then es[0].value else name, es[1..])
  }

  /** The names in all ForwardingHints. */
  function AllHints(hints: seq<Bytes>, es: seq<Element>): Option<seq<Bytes>>
    decreases |es|
  {
    if es == [] then Some(hints)
    else if es[0].kind != TT_FORWARDING_HINT then AllHints(hints, es[1..])
    else
      var hints' := ParseFwHint(hints, es[0].value);
      if hints'.None? then None else AllHints(hints'.value, es[1..])
  }

  function AllGuiders(g: Guiders, es: seq<Element>): Guiders
    decreases |es|
  {
    if es == [] then
      g
    else
      var m := Interpret(INIT.(guiders := g), es[0]);
      AllGuiders(if IsGuider(es[0].kind) && m.Some? then m.value.guiders else g, es[1..])
  }

  /** What the elements say is what they say of each field. */
  function ByField(m: Meaning, es: seq<Element>): Option<Meaning> {
    var hints := AllHints(m.fwHints, es);
    if AllOk(es) && hints.Some? then
      Some(Meaning(LastName(m.name, es), m.canBePrefix || Has(es, TT_CAN_BE_PREFIX), m.mustBeFresh || Has(es, TT_MUST_BE_FRESH),
                   hints.value, AllGuiders(m.guiders, es)))
    else
      None
  }

  lemma OneByField(m: Meaning, e: Element, es: seq<Element>)
    ensures var m' := Interpret(m, e);
      ByField(m, [e] + es) == if m'.None? then None else ByField(m'.value, es)
  {
    hide ParseFwHint, Name.ParseComponents, DecodeNni, Be, IsCriticalType;
    assert ([e] + es)[1..] == es;
  }

  lemma {:induction false} InterpretByField(m: Meaning, es: seq<Element>)
    ensures InterpretAll(m, es) == ByField(m, es)
    decreases |es|
  {
    hide Interpret, ByField;
    if es == [] {
      NothingByField(m);
    } else {
      assert es == [es[0]] + es[1..];
      OneByField(m, es[0], es[1..]);
      var m' := Interpret(m, es[0]);
      if m'.Some? {
        InterpretByField(m'.value, es[1..]);
      }
    }
  }

  lemma NothingByField(m: Meaning)
    ensures ByField(m, []) == Some(m)
  {
  }

  /** Elements in the middle that are no fields can be left out, field by field. */
  lemma {:induction false} FieldsOutside(hints: seq<Bytes>, name: Bytes, kind: nat, a: seq<Element>, mid: seq<Element>, c: seq<Element>)
    requires (forall i | 0 <= i < |mid| :: !IsField(mid[i].kind)) && IsField(kind)
    ensures AllHints(hints, a + mid + c) == AllHints(hints, a + c) && LastName(name, a + mid + c) == LastName(name, a + c)
    ensures Has(a + mid + c, kind) == Has(a + c, kind)
    decreases |a| + |mid|
  {
    hide ParseFwHint;
    if a != [] {
      assert (a + mid + c)[0] == a[0] && (a + c)[0] == a[0];
      assert (a + mid + c)[1..] == a[1..] + mid + c && (a + c)[1..] == a[1..] + c;
      var h, n := ParseFwHint(hints, a[0].value), if a[0].kind == TT_NAME then a[0].value else name;
      FieldsOutside(if a[0].kind == TT_FORWARDING_HINT && h.Some? then h.value else hints, n, kind, a[1..], mid, c);
    } else if mid != [] {
      assert (a + mid + c)[0] == mid[0] && (a + mid + c)[1..] == a + mid[1..] + c;
      FieldsOutside(hints, name, kind, a, mid[1..], c);
    } else {
      assert a + mid + c == a + c;
    }
  }

  lemma {:induction false} AllOkConcat(a: seq<Element>, b: seq<Element>)
    ensures AllOk(a + b) == (AllOk(a) && AllOk(b))
  {
    hide ElementOk;
    if a == [] {
      assert a + b == b;
    } else {
      assert (a + b)[1..] == a[1..] + b;
      AllOkConcat(a[1..], b);
    }
  }

  // ------------------------------------------------------------------ exactly when

  /**
    Nothing is lost with the elements among the guiders: without them, the last name is the same,
    the same flags are set, and the forwarding hints are the same.
   */
  ghost predicate FieldsKept(v: Bytes)
    requires 0 <= LastNonce(Elements(v)) <= LastGuider(Elements(v))
  {
    var outside := Before(v) + After(v);
    && LastName([], outside) == LastName([], Elements(v))
    && (Has(Elements(v), TT_CAN_BE_PREFIX) ==> Has(outside, TT_CAN_BE_PREFIX))
    && (Has(Elements(v), TT_MUST_BE_FRESH) ==> Has(outside, TT_MUST_BE_FRESH))
    && AllHints([], outside) == AllHints([], Elements(v))
  }

  /** What the new elements say: the new guiders, and otherwise the same exactly if nothing is lost. */
  lemma NewElementsSay(v: Bytes, g: Guiders, m: Meaning)
    requires 0 <= LastNonce(Elements(v)) <= LastGuider(Elements(v)) && g.Valid()
    requires Elements(v) == Before(v) + Amid(v) + After(v) && InterpretAll(INIT, Elements(v)) == Some(m)
    ensures InterpretAll(INIT, Before(v) + GuiderElements(g) + After(v)) == Some(m.(guiders := g)) <==> FieldsKept(v)
  {
    hide Elements, LastNonce, LastGuider, InterpretAll, Interpret, AllHints, LastName, AllGuiders, Has, AllOk;
    var a, c := Before(v), After(v);
    var es := a + GuiderElements(g) + c;
    InterpretByField(INIT, Elements(v));
    InterpretByField(INIT, es);
    FieldsOutside([], [], TT_CAN_BE_PREFIX, a, GuiderElements(g), c);
    FieldsOutside([], [], TT_MUST_BE_FRESH, a, GuiderElements(g), c);
    OutsideHas(a, Amid(v), c, TT_CAN_BE_PREFIX);
    OutsideHas(a, Amid(v), c, TT_MUST_BE_FRESH);
    NewGuidersOk(a, Amid(v), c, g);
    AfterNoGuiders(v);
    NewGuidersSay(INIT, a, c, g);
  }

  lemma {:induction false} HasConcat(a: seq<Element>, b: seq<Element>, kind: nat)
    ensures Has(a + b, kind) == (Has(a, kind) || Has(b, kind))
  {
    if a == [] {
      assert a + b == b;
    } else {
      assert (a + b)[1..] == a[1..] + b;
      HasConcat(a[1..], b, kind);
    }
  }

  lemma OutsideHas(a: seq<Element>, b: seq<Element>, c: seq<Element>, kind: nat)
    ensures Has(a + c, kind) ==> Has(a + b + c, kind)
  {
    hide Has;
    HasConcat(a, c, kind);
    HasConcat(a + b, c, kind);
    HasConcat(a, b, kind);
  }

  lemma NewGuidersOk(a: seq<Element>, b: seq<Element>, c: seq<Element>, g: Guiders)
    requires AllOk(a + b + c) && g.Valid()
    ensures AllOk(a + GuiderElements(g) + c)
  {
    hide AllOk, InterpretAll, ByField, GuiderElements;
    AllOkConcat(a + b, c);
    AllOkConcat(a, b);
    AllOkConcat(a + GuiderElements(g), c);
    AllOkConcat(a, GuiderElements(g));
    GuidersMean(INIT, g);
    InterpretByField(INIT, GuiderElements(g));
    SomeByField(INIT, GuiderElements(g));
  }

  lemma SomeByField(m: Meaning, es: seq<Element>)
    ensures ByField(m, es).Some? ==> AllOk(es)
  {
  }

  lemma NewGuidersSay(m: Meaning, a: seq<Element>, c: seq<Element>, g: Guiders)
    requires g.Valid() && forall i | 0 <= i < |c| :: !IsGuider(c[i].kind)
    ensures var r := InterpretAll(m, a + GuiderElements(g) + c); r.Some? ==> r.value.guiders == g
  {
    hide InterpretAll, GuiderElements;
    InterpretSplit(m, a + GuiderElements(g), c);
    InterpretSplit(m, a, GuiderElements(g));
    var m1 := InterpretAll(m, a);
    if m1.Some? {
      GuidersMean(m1.value, g);
      NoGuidersAlike(m1.value.(guiders := g), g, c);
    }
  }

  /** If no name, flag or forwarding hint stands among the guiders, nothing is lost. */
  lemma ApartKept(v: Bytes)
    requires 0 <= LastNonce(Elements(v)) <= LastGuider(Elements(v)) && GuidersApart(v)
    requires Elements(v) == Before(v) + Amid(v) + After(v)
    ensures FieldsKept(v)
  {
    hide Elements, LastNonce, LastGuider, AllHints, LastName, Has;
    FieldsOutside([], [], TT_CAN_BE_PREFIX, Before(v), Amid(v), After(v));
    FieldsOutside([], [], TT_MUST_BE_FRESH, Before(v), Amid(v), After(v));
  }

  /** Rewriting gives the requested guiders, and changes nothing else of what the Interest says. */
  lemma RewriteKeepsMeaning(v: Bytes, g: Guiders)
    requires ParseValue(v).Some? && Fits(v) && g.Valid()
    requires 0 <= LastNonce(Elements(v)) <= LastGuider(Elements(v)) && FieldsKept(v)
    ensures var i := ParseValue(v).value; 0 <= i.nonceOffset && i.nonceOffset + i.guiderSize <= |v|
    ensures var i := ParseValue(v).value; var r := Rewrite(v, i, g);
      && ParseValue(r) == Some(PInterest(i.meaning.(guiders := g), i.nonceOffset, GUIDER_FIELDS_SIZE))
      && Tail(r) == Tail(v)
  {
    hide Elements, Tail, EncodeAll, InterpretAll, LastNonce, LastGuider, Name.ParseComponents, ParseValue, GuiderElements, FieldsKept, Rewrite, Before, Amid, After;
    Layout(v);
    RewriteElements(v, g);
    var i := ParseValue(v).value;
    NewElementsSay(v, g, i.meaning);
    AfterNoGuiders(v);
    ParseNewGuiders(Rewrite(v, i, g), Before(v), g, After(v), i.meaning.(guiders := g));
  }

  /** The rewritten bytes parse to the requested guiders and the same fields. */
  ghost predicate SaysTheSame(m: Meaning, g: Guiders, r: Bytes) {
    ParseValue(r).Some? && ParseValue(r).value.meaning == m.(guiders := g)
  }

  lemma RewriteExactly(v: Bytes, g: Guiders)
    requires ParseValue(v).Some? && Fits(v) && g.Valid()
    ensures 0 <= LastNonce(Elements(v)) <= LastGuider(Elements(v))
    ensures var i := ParseValue(v).value; 0 <= i.nonceOffset && i.nonceOffset + i.guiderSize <= |v|
    ensures var i := ParseValue(v).value; SaysTheSame(i.meaning, g, Rewrite(v, i, g)) <==> FieldsKept(v)
  {
    hide Elements, EncodeAll, InterpretAll, LastNonce, LastGuider, ParseValue, Rewrite, FieldsKept, Before, Amid, After, GuiderElements;
    Layout(v);
    RewriteElements(v, g);
    var i := ParseValue(v).value;
    var r := Rewrite(v, i, g);
    if FieldsKept(v) {
      RewriteKeepsMeaning(v, g);
    }
    if SaysTheSame(i.meaning, g, r) {
      ParsedMeaning(r);
      NewElementsSay(v, g, i.meaning);
    }
  }

  /**
    For every Interest that the parser accepts: the chained rewriting succeeds and preserves the
    meaning if and only if something comes before the Nonce and nothing is lost with the elements
    among the guiders.
   */
  lemma KeepsMeaningExactly(v: Bytes, g: Guiders)
    requires ParseValue(v).Some? && Fits(v) && g.Valid()
    ensures 0 <= LastNonce(Elements(v)) <= LastGuider(Elements(v))
    ensures var i := ParseValue(v).value; 0 <= i.nonceOffset && i.nonceOffset + i.guiderSize <= |v|
    ensures var i := ParseValue(v).value; var r := Modified(v, i, g);
      (r.Some? && SaysTheSame(i.meaning, g, r.value)) <==> LastNonce(Elements(v)) > 0 && FieldsKept(v)
  {
    hide Elements, EncodeAll, LastNonce, LastGuider, ParseValue, Rewrite, SaysTheSame, FieldsKept, InterpretAll;
    Layout(v);
    RewriteExactly(v, g);
    if LastNonce(Elements(v)) > 0 {
      NonEmptyEncoding(Before(v));
    } else {
      NoneBefore(v);
    }
  }

  lemma NoneBefore(v: Bytes)
    requires LastNonce(Elements(v)) == 0
    ensures EncodeAll(Before(v)) == []
  {
  }

  /** No name, flag or forwarding hint element occurs twice. */
  ghost predicate Once(es: seq<Element>) {
    forall i, j | 0 <= i < j < |es| && IsField(es[i].kind) :: es[i].kind != es[j].kind
  }

  /** The field of the given kind has been given. */
  predicate Given(m: Meaning, kind: nat) {
    if kind == TT_NAME then m.name != []
    else if kind == TT_CAN_BE_PREFIX then m.canBePrefix
    else if kind == TT_MUST_BE_FRESH then m.mustBeFresh
    else m.fwHints != []
  }

  lemma {:induction false} GivenBy(m: Meaning, es: seq<Element>, kind: nat)
    requires IsField(kind) && InterpretAll(m, es).Some?
    ensures Given(InterpretAll(m, es).value, kind) <==> Given(m, kind) || exists i :: 0 <= i < |es| && es[i].kind == kind
    decreases |es|
  {
    if es != [] {
      var m' := Interpret(m, es[0]).value;
      assert Given(m', kind) <==> Given(m, kind) || es[0].kind == kind;
      GivenBy(m', es[1..], kind);
      if i :| 0 <= i < |es[1..]| && es[1..][i].kind == kind {
        assert es[i + 1].kind == kind;
      }
      if i :| 0 < i < |es| && es[i].kind == kind {
        assert es[1..][i - 1].kind == kind;
      }
    }
  }

  /** The parser interprets the elements of whatever it accepts. */
  lemma ParsedMeaning(v: Bytes)
    requires ParseValue(v).Some?
    ensures InterpretAll(INIT, Elements(v)) == Some(ParseValue(v).value.meaning)
  {
    hide Elements, Tail, InterpretAll, ParseLoop;
    LoopIsRun(Fields(INIT, 0, 0), v);
    RunMeans(Fields(INIT, 0, 0), Elements(v), |Tail(v)|);
  }

  /** In a rewritten Interest, a field that stood among the guiders is missing. */
  lemma FieldLost(v: Bytes, g: Guiders, j: nat)
    requires ParseValue(v).Some? && Fits(v) && g.Valid() && Once(Elements(v))
    requires 0 <= LastNonce(Elements(v)) <= LastGuider(Elements(v)) && j < |Amid(v)| && IsField(Amid(v)[j].kind)
    ensures var i := ParseValue(v).value; 0 <= i.nonceOffset && i.nonceOffset + i.guiderSize <= |v|
    ensures var i := ParseValue(v).value; var r := ParseValue(Rewrite(v, i, g));
      r.None? || !SameFields(i.meaning, r.value.meaning)
  {
    hide Elements, Tail, EncodeAll, LastNonce, LastGuider, ParseValue, Rewrite, DecodeTL, Interpret, InterpretAll;
    RewriteElements(v, g);
    var i := ParseValue(v).value;
    var r := Rewrite(v, i, g);
    if ParseValue(r).Some? {
      var kind := Amid(v)[j].kind;
      ParsedMeaning(v);
      ParsedMeaning(r);
      GivenBy(INIT, Elements(v), kind);
      GivenBy(INIT, Elements(r), kind);
      var es, k := Elements(v), LastNonce(Elements(v)) + j;
      assert es[k].kind == kind;
      forall i' | 0 <= i' < |Elements(r)| ensures Elements(r)[i'].kind != kind {
        KindsApart(es, k, LastNonce(es), LastGuider(es), GuiderElements(g), i');
      }
    }
  }

  lemma KindsApart(es: seq<Element>, j: nat, k: nat, g: nat, mid: seq<Element>, i: nat)
    requires Once(es) && k <= j <= g < |es| && IsField(es[j].kind) && i < |es[..k] + mid + es[g + 1..]|
    requires forall n | 0 <= n < |mid| :: !IsField(mid[n].kind)
    ensures (es[..k] + mid + es[g + 1..])[i].kind != es[j].kind
  {
    var all := es[..k] + mid + es[g + 1..];
    if i < k {
      assert all[i] == es[i];
    } else if i < k + |mid| {
      assert all[i] == mid[i - k];
    } else {
      assert all[i] == es[g + 1 + i - k - |mid|];
    }
  }

  /** When no field is given twice, nothing is lost exactly when no field stands among the guiders. */
  lemma OnceKept(v: Bytes)
    requires ParseValue(v).Some? && Fits(v) && Once(Elements(v))
    ensures 0 <= LastNonce(Elements(v)) <= LastGuider(Elements(v)) && (FieldsKept(v) <==> GuidersApart(v))
  {
    hide Elements, EncodeAll, LastNonce, LastGuider, ParseValue, Rewrite, Once, FieldsKept, InterpretAll;
    Layout(v);
    if GuidersApart(v) {
      ApartKept(v);
    } else {
      var j :| 0 <= j < |Amid(v)| && IsField(Amid(v)[j].kind);
      FieldLost(v, Guiders(0, 0, 0), j);
      RewriteExactly(v, Guiders(0, 0, 0));
    }
  }

  /**
    An Interest that begins with its Nonce: the parser accepts it, no field is given twice or stands
    among the guiders, and the chained rewriting fails.
   */
  lemma NonceFirst(g: Guiders)
    ensures var v := EncodeAll(NONCE_FIRST);
      && ParseValue(v).Some? && Once(Elements(v)) && ParseValue(v).value.nonceOffset == 0 && ParseValue(v).value.guiderSize <= |v|
      && LastNonce(Elements(v)) == 0 == LastGuider(Elements(v)) && GuidersApart(v)
      && Modified(v, ParseValue(v).value, g) == None
  {
    hide EncodeAll, Name.ParseComponents, InterpretAll, Run, Elements, Tail, ParseLoop, DecodeTL, LastNonce, LastGuider;
    var es := NONCE_FIRST;
    var v := EncodeAll(es);
    assert v == EncodeAll(es) + [];
    NothingStops();
    ElementsOf(es, []);
    TwoElements(es[0], es[1]);
    assert es == [es[0], es[1]];
    RunMeans(Fields(INIT, 0, 0), es, 0);
    LoopIsRun(Fields(INIT, 0, 0), v);
    LastNonceIs(es, 0);
    LastGuiderIs(es, 0);
    assert es[1..] == [es[1]];
  }

  const NONCE_FIRST := [Element(TT_NONCE, [1, 2, 3, 4]), Element(TT_NAME, [8, 1, 65])]

  lemma TwoElements(nonce: Element, name: Element)
    requires nonce == Element(TT_NONCE, [1, 2, 3, 4]) && name == Element(TT_NAME, [8, 1, 65])
    ensures |EncodeAll([nonce, name])| == 11 && |EncodeAll([name])| == 5
    ensures Name.ParseComponents(name.value).Some? && Name.ParseComponents(name.value).value != []
    ensures var m := InterpretAll(INIT, [nonce, name]); m.Some? && m.value.name == name.value
  {
    SmallName(name.value);
    hide Name.ParseComponents;
    EncodeAllSplit([nonce], [name]);
    InterpretSplit(INIT, [nonce], [name]);
    assert [nonce] + [name] == [nonce, name];
  }

  /** Position of an element in the order of the packet format; other elements may stand anywhere. */
  function Rank(kind: nat): (r: nat) {
    match kind
    case 0x07 => 1
    case 0x21 => 2
    case 0x12 => 3
    case 0x1E => 4
    case 0x0A => 5
    case 0x0C => 6
    case 0x22 => 7
    case _ => 0
  }

  ghost predicate InOrder(es: seq<Element>) {
    forall i, j | 0 <= i < j < |es| && Rank(es[i].kind) > 0 && Rank(es[j].kind) > 0 :: Rank(es[i].kind) < Rank(es[j].kind)
  }

  lemma OrderOnce(es: seq<Element>)
    requires InOrder(es)
    ensures Once(es)
  {
    forall i, j | 0 <= i < j < |es| && IsField(es[i].kind) ensures es[i].kind != es[j].kind {
      assert Rank(es[i].kind) > 0;
    }
  }

  lemma OrderApart(es: seq<Element>, k: nat, i: nat)
    requires InOrder(es) && k < |es| && es[k].kind == TT_NONCE && i < |es| && IsField(es[i].kind)
    ensures i < k
  {
    assert Rank(es[k].kind) == 5 && 0 < Rank(es[i].kind) < 5;
  }

  /** In the order of the packet format the guiders stand apart, and come after the name. */
  lemma OrderSuffices(v: Bytes)
    requires ParseValue(v).Some? && Fits(v) && InOrder(Elements(v))
    ensures Once(Elements(v)) && ParseValue(v).value.nonceOffset > 0
    ensures 0 <= LastNonce(Elements(v)) <= LastGuider(Elements(v)) && GuidersApart(v)
  {
    hide Elements, EncodeAll, LastNonce, LastGuider, ParseValue, Interpret, InterpretAll, Name.ParseComponents, InOrder, Once;
    Layout(v);
    var es := Elements(v);
    var k := LastNonce(es);
    OrderOnce(es);
    forall i | 0 <= i < |Amid(v)| ensures !IsField(Amid(v)[i].kind) {
      assert Amid(v)[i] == es[k + i];
      if IsField(es[k + i].kind) {
        OrderApart(es, k, k + i);
      }
    }
    GivenBy(INIT, es, TT_NAME);
    EmptyName();
    var n :| 0 <= n < |es| && es[n].kind == TT_NAME;
    OrderApart(es, k, n);
    NonEmptyEncoding(Before(v));
  }

  lemma EmptyName()
    ensures Name.ParseComponents([]) == Some([])
  {
  }

  lemma NonEmptyEncoding(es: seq<Element>)
    requires es != []
    ensures EncodeAll(es) != []
  {
  }

  /**
    The whole packet: an Interest in the order of the packet format, rewritten and put under a new
    header, parses with the requested guiders, and with the same name, flags, forwarding hints and
    trailing bytes.
   */
  lemma RewrittenPacket(v: Bytes, g: Guiders)
    requires ParseValue(v).Some? && Fits(v) && g.Valid() && InOrder(Elements(v))
    requires |v| + GUIDER_FIELDS_SIZE < 0x1_0000_0000
    ensures var i := ParseValue(v).value; 0 < i.nonceOffset && i.nonceOffset + i.guiderSize <= |v|
    ensures var i := ParseValue(v).value; var r := Rewrite(v, i, g);
      var pkt := EncodeTL(TT_INTEREST, |r|) + r; var tl := DecodeTL(pkt);
      && tl.kind == TT_INTEREST && tl.length == |r| && pkt[tl.size..] == r
      && ParseValue(r) == Some(PInterest(i.meaning.(guiders := g), i.nonceOffset, GUIDER_FIELDS_SIZE))
      && Tail(r) == Tail(v)
  {
    hide Elements, Tail, ParseValue, LastNonce, LastGuider, InOrder, DecodeTL, EncodeTL;
    OrderSuffices(v);
    Layout(v);
    ApartKept(v);
    RewriteKeepsMeaning(v, g);
    var r := Rewrite(v, ParseValue(v).value, g);
    TLRoundTrip(TT_INTEREST, |r|, r);
  }

  const EXAMPLE := [Element(TT_NAME, [8, 1, 65]), Element(TT_NONCE, [1, 2, 3, 4]), Element(TT_CAN_BE_PREFIX, []), Element(TT_HOP_LIMIT, [9])]

  lemma ExampleParsed(name: Element, nonce: Element, flag: Element, hop: Element)
    requires name.kind == TT_NAME && |name.value| == 3 && Name.ParseComponents(name.value).Some? && Name.ParseComponents(name.value).value != []
    requires nonce.kind == TT_NONCE && |nonce.value| == 4 && flag.kind == TT_CAN_BE_PREFIX && |flag.value| == 0 && hop.kind == TT_HOP_LIMIT && |hop.value| == 1
    ensures var es := [name, nonce, flag, hop]; var v := EncodeAll(es);
      && Elements(v) == es && ParseValue(v).Some? && ParseValue(v).value.meaning.canBePrefix && Fits(v)
      && LastNonce(es) == 1 && LastGuider(es) == 3
  {
    hide EncodeAll, Name.ParseComponents, InterpretAll, Run, Elements, Tail, ParseLoop, DecodeTL, LastNonce, LastGuider;
    var es := [name, nonce, flag, hop];
    var v := EncodeAll(es);
    assert v == EncodeAll(es) + [];
    NothingStops();
    ElementsOf(es, []);
    SmallEncoding(name, nonce, flag, hop);
    SmallMeaning(name, nonce, flag, hop);
    RunMeans(Fields(INIT, 0, 0), es, 0);
    LoopIsRun(Fields(INIT, 0, 0), v);
    LastNonceIs(es, 1);
    LastGuiderIs(es, 3);
    assert es[2..] == [flag, hop] && es[4..] == [];
  }

  lemma NothingStops()
    ensures Stops([])
  {
  }

  /** An Interest with CanBePrefix between the guiders: the parser accepts it, and rewriting loses the flag. */
  lemma FlagLost(g: Guiders)
    requires g.Valid()
    ensures var v := EncodeAll(EXAMPLE);
      && ParseValue(v).Some? && ParseValue(v).value.meaning.canBePrefix
      && 0 <= ParseValue(v).value.nonceOffset && ParseValue(v).value.nonceOffset + ParseValue(v).value.guiderSize <= |v|
      && var r := ParseValue(Rewrite(v, ParseValue(v).value, g)); r.None? || !r.value.meaning.canBePrefix
  {
    hide EncodeAll, Name.ParseComponents, InterpretAll, Elements, Tail, ParseValue, LastNonce, LastGuider, Rewrite;
    var v := EncodeAll(EXAMPLE);
    SmallName(EXAMPLE[0].value);
    ExampleParsed(EXAMPLE[0], EXAMPLE[1], EXAMPLE[2], EXAMPLE[3]);
    assert EXAMPLE == [EXAMPLE[0], EXAMPLE[1], EXAMPLE[2], EXAMPLE[3]];
    RewriteElements(v, g);
    var r := Rewrite(v, ParseValue(v).value, g);
    if ParseValue(r).Some? {
      ParsedMeaning(r);
      GivenBy(INIT, Elements(r), TT_CAN_BE_PREFIX);
    }
  }

  lemma SmallEncoding(name: Element, nonce: Element, flag: Element, hop: Element)
    requires |name.value| == 3 && |nonce.value| == 4 && |flag.value| == 0 && |hop.value| == 1
    requires name.kind < 0xFD && nonce.kind < 0xFD && flag.kind < 0xFD && hop.kind < 0xFD
    ensures |EncodeAll([name, nonce, flag, hop])| == 16 && |EncodeAll([flag, hop])| == 5 && EncodeAll([]) == []
  {
    EncodeAllSplit([name, nonce], [flag, hop]);
    EncodeAllSplit([name], [nonce]);
    EncodeAllSplit([flag], [hop]);
    assert [name, nonce] + [flag, hop] == [name, nonce, flag, hop];
    assert [name] + [nonce] == [name, nonce] && [flag] + [hop] == [flag, hop];
  }

  lemma SmallMeaning(name: Element, nonce: Element, flag: Element, hop: Element)
    requires name.kind == TT_NAME && |name.value| == 3 && Name.ParseComponents(name.value).Some? && Name.ParseComponents(name.value).value != []
    requires nonce.kind == TT_NONCE && |nonce.value| == 4 && flag.kind == TT_CAN_BE_PREFIX && hop.kind == TT_HOP_LIMIT && |hop.value| == 1
    ensures var m := InterpretAll(INIT, [name, nonce, flag, hop]); m.Some? && m.value.canBePrefix && m.value.name == name.value
  {
    hide Name.ParseComponents;
    InterpretSplit(INIT, [name, nonce], [flag, hop]);
    InterpretSplit(INIT, [name], [nonce]);
    assert [name, nonce] + [flag, hop] == [name, nonce, flag, hop] && [name] + [nonce] == [name, nonce];
    var m := InterpretAll(INIT, [name, nonce]).value;
    InterpretSplit(m, [flag], [hop]);
    assert [flag] + [hop] == [flag, hop];
  }

  lemma SmallName(v: Bytes)
    requires v == [8, 1, 65]
    ensures Name.ParseComponents(v) == Some([Element(8, v[2..3])])
  {
    assert v[1..][0] == 1 && v[3..] == [];
    assert Name.ParseComponent(v) == Some((Element(8, v[2..3]), 3));
    EmptyName();
    assert Name.ParseComponents(v[3..]) == Some([]);
    assert [Element(8, v[2..3])] + [] == [Element(8, v[2..3])];
  }
}