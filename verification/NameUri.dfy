/**
  The URI form of names (ndn/name.go, ndn/name-component.go).  Text is a sequence of ASCII codes.
 */
module NameUri {
  import opened Common
  import opened Chain
  import opened Tlv
  import N = Name

  const SLASH: Byte := 0x2F
  const EQUALS: Byte := 0x3D
  const PERCENT: Byte := 0x25
  const PERIOD: Byte := 0x2E

  predicate ValidType(kind: nat) {
    1 <= kind <= 65535
  }

  predicate IsDigit(ch: Byte) {
    0x30 <= ch <= 0x39
  }

  predicate IsUnescaped(ch: Byte) {
    0x41 <= ch <= 0x5A || 0x61 <= ch <= 0x7A || IsDigit(ch) || ch == 0x2D || ch == PERIOD || ch == 0x5F || ch == 0x7E
  }

  // ------------------------------------------------------------------ numbers

  /** Decimal digits of a number. */
  function Itoa(n: nat): (s: Bytes)
    ensures s != []
  {
    if n < 10 then [0x30 + n] else Itoa(n / 10) + [0x30 + n % 10]
  }

  /** The value of decimal digits. */
  function ParseDigits(s: Bytes): (n: Option<nat>) {
    if s == [] then Some(0)
    else if !IsDigit(s[|s| - 1]) then None
    else
      var hi := ParseDigits(s[..|s| - 1]);
      if hi.None? then None else Some(hi.value * 10 + (s[|s| - 1] - 0x30))
  }

  /** A 32-bit unsigned decimal number. */
  function ParseUint32(s: Bytes): (n: Option<nat>) {
    if s == [] then None
    else
      var v := ParseDigits(s);
      if v.Some? && v.value < 0x1_0000_0000 then v else None
  }

  lemma {:induction false} ItoaParses(n: nat)
    ensures ParseDigits(Itoa(n)) == Some(n)
    ensures forall i | 0 <= i < |Itoa(n)| :: IsDigit(Itoa(n)[i])
  {
    if n < 10 {
      assert [0x30 + n][..0] == [];
      assert ParseDigits([]) == Some(0);
    } else {
      ItoaParses(n / 10);
      var s := Itoa(n);
      assert s[..|s| - 1] == Itoa(n / 10);
    }
  }

  function HexChar(d: nat): (ch: Byte)
    requires d < 16
  {
    if d < 10 then 0x30 + d else 0x41 + d - 10
  }

  /** The value of a hexadecimal digit in either case. */
  function HexValue(ch: Byte): (d: Option<nat>) {
    if IsDigit(ch) then Some(ch - 0x30)
    else if 0x41 <= ch <= 0x46 then Some(ch - 0x41 + 10)
    else if 0x61 <= ch <= 0x66 then Some(ch - 0x61 + 10)
    else None
  }

  // ------------------------------------------------------------------ components

  function EscapeByte(b: Byte): (s: Bytes)
    ensures s != []
  {
    if IsUnescaped(b) then [b] else [PERCENT, HexChar(b / 16), HexChar(b % 16)]
  }

  function Escape(v: Bytes): (s: Bytes) {
    if v == [] then [] else EscapeByte(v[0]) + Escape(v[1..])
  }

  predicate AllPeriods(v: Bytes) {
    forall i | 0 <= i < |v| :: v[i] == PERIOD
  }

  const THREE_PERIODS: Bytes := [PERIOD, PERIOD, PERIOD]

  function ComponentString(c: Element): (s: Bytes) {
    Itoa(c.kind) + [EQUALS] + Escape(c.value) + if AllPeriods(c.value) then THREE_PERIODS else []
  }

  /** Undo escapes; a percent sign that does not begin one stands for itself. */
  function Unescape(s: Bytes): (v: Bytes) {
    if s == [] then
      []
    else if s[0] == PERCENT && 2 < |s| && HexValue(s[1]).Some? && HexValue(s[2]).Some? then
      [HexValue(s[1]).value * 16 + HexValue(s[2]).value] + Unescape(s[3..])
    else
      [s[0]] + Unescape(s[1..])
  }

  /** Index of the first occurrence of a character, or -1. */
  function IndexByte(s: Bytes, ch: Byte): (k: int)
    ensures -1 <= k < |s| && (k >= 0 ==> s[k] == ch)
    ensures forall i | 0 <= i < (if k >= 0 then k else |s|) :: s[i] != ch
  {
    if s == [] then -1 else if s[0] == ch then 0
    else
      var k := IndexByte(s[1..], ch);
      if k < 0 then -1 else k + 1
  }

  /** How much of a string is left without the periods at its end. */
  function TrimmedLength(s: Bytes): (n: nat)
    ensures n <= |s| && (n > 0 ==> s[n - 1] != PERIOD) && forall i | n <= i < |s| :: s[i] == PERIOD
  {
    if s == [] || s[|s| - 1] != PERIOD then |s| else TrimmedLength(s[..|s| - 1])
  }

  /** The type of a component and where its value starts. */
  function ParseType(input: Bytes): (r: (nat, nat))
    ensures r.1 <= |input|
  {
    var eq := IndexByte(input, EQUALS);
    var kind := if eq >= 0 then ParseUint32(input[..eq]) else None;
    if kind.Some? && ValidType(kind.value) then (kind.value, eq + 1) else (N.TT_GENERIC, 0)
  }

  /** Parse a component; `None` where the source indexes beyond the end of its input. */
  function ParseComponent(input: Bytes): (c: Option<Element>) {
    var (kind, pos) := ParseType(input);
    if TrimmedLength(input) == pos && |input| >= 3 then
      if pos + 3 <= |input| then Some(Element(kind, input[pos + 3..])) else None
    else
      Some(Element(kind, Unescape(input[pos..])))
  }

  lemma UnescapeByte(b: Byte, s: Bytes)
    ensures Unescape(EscapeByte(b) + s) == [b] + Unescape(s)
  {
    var x := EscapeByte(b) + s;
    if IsUnescaped(b) {
      assert x[1..] == s;
    } else {
      assert x[3..] == s;
      assert b == b / 16 * 16 + b % 16;
    }
  }

  lemma {:induction false} UnescapeEscape(v: Bytes)
    ensures Unescape(Escape(v)) == v
  {
    hide EscapeByte;
    if v != [] {
      UnescapeEscape(v[1..]);
      UnescapeByte(v[0], Escape(v[1..]));
    }
  }

  /** Escaped text has only harmless characters, and looks like periods only if it is. */
  lemma {:induction false} EscapeClean(v: Bytes)
    ensures forall i | 0 <= i < |Escape(v)| :: Escape(v)[i] != SLASH && Escape(v)[i] != EQUALS
    ensures AllPeriods(v) ==> Escape(v) == v
    ensures !AllPeriods(v) ==> !AllPeriods(Escape(v))
  {
    if v != [] {
      EscapeClean(v[1..]);
      var e, rest := EscapeByte(v[0]), Escape(v[1..]);
      assert Escape(v) == e + rest;
      if AllPeriods(v) {
        assert v[1..] == rest && v == [v[0]] + v[1..];
      } else if v[0] != PERIOD {
        assert Escape(v)[0] == e[0] != PERIOD;
      } else {
        assert forall i | 0 < i < |v| :: v[i] == v[1..][i - 1];
        assert !AllPeriods(v[1..]);
        var i :| 0 <= i < |rest| && rest[i] != PERIOD;
        assert Escape(v)[i + |e|] == rest[i];
      }
    }
  }

  lemma IndexIs(s: Bytes, ch: Byte, k: nat)
    requires k < |s| && s[k] == ch && forall i | 0 <= i < k :: s[i] != ch
    ensures IndexByte(s, ch) == k
  {
  }

  lemma TrimmedIs(s: Bytes, pos: nat)
    requires 0 < pos <= |s| && s[pos - 1] != PERIOD
    ensures TrimmedLength(s) == pos <==> AllPeriods(s[pos..])
  {
    var n := TrimmedLength(s);
    hide TrimmedLength;
    assert forall i | pos <= i < |s| :: s[i] == s[pos..][i - pos];
    if n > pos {
      assert s[pos..][n - 1 - pos] == s[n - 1] != PERIOD;
    }
  }

  lemma TypeParses(kind: nat, rest: Bytes)
    requires ValidType(kind)
    ensures ParseType(Itoa(kind) + [EQUALS] + rest) == (kind, |Itoa(kind)| + 1)
  {
    ItoaParses(kind);
    hide Itoa, ParseDigits;
    var s := Itoa(kind) + [EQUALS] + rest;
    assert s[..|Itoa(kind)|] == Itoa(kind);
    IndexIs(s, EQUALS, |Itoa(kind)|);
  }

  /** Parsing undoes printing, for every type and every value. */
  lemma ComponentRoundTrip(c: Element)
    requires ValidType(c.kind)
    ensures ParseComponent(ComponentString(c)) == Some(c)
  {
    hide Itoa, Escape, Unescape, ParseType, TrimmedLength, AllPeriods;
    var d, e := Itoa(c.kind), Escape(c.value);
    var tail := if AllPeriods(c.value) then THREE_PERIODS else [];
    var s := ComponentString(c);
    assert s == d + [EQUALS] + (e + tail);
    TypeParses(c.kind, e + tail);
    EscapeClean(c.value);
    UnescapeEscape(c.value);
    var pos := |d| + 1;
    assert s[pos..] == e + tail && s[pos - 1] == EQUALS;
    TrimmedIs(s, pos);
    if AllPeriods(c.value) {
      MorePeriods(c.value);
      assert s[pos + 3..] == (c.value + THREE_PERIODS)[3..];
    } else {
      assert e + tail == e;
    }
  }

  /**
    The parser does not accept any input: it indexes beyond the end exactly if a type is followed by
    nothing but periods, fewer than three of them, and the text is at least three characters long.
   */
  lemma ParseFailsExactly(input: Bytes)
    ensures var pos := ParseType(input).1;
      ParseComponent(input).None? <==> |input| >= 3 && pos > |input| - 3 && AllPeriods(input[pos..])
  {
    hide Unescape, TrimmedLength, AllPeriods;
    var pos := ParseType(input).1;
    if pos > 0 {
      TrimmedIs(input, pos);
    }
  }

  /** It fails on every type followed by fewer than three periods, in a text of at least three characters. */
  lemma ParseFails(kind: nat, n: nat)
    requires ValidType(kind) && n < 3 <= |Itoa(kind)| + 1 + n
    ensures ParseComponent(Itoa(kind) + [EQUALS] + seq(n, _ => PERIOD)) == None
  {
    hide Itoa, ParseType, ParseComponent;
    var rest := seq(n, _ => PERIOD);
    var s := Itoa(kind) + [EQUALS] + rest;
    TypeParses(kind, rest);
    assert s[|Itoa(kind)| + 1..] == rest;
    ParseFailsExactly(s);
  }

  /** For example, on `8=.` and on `12=`. */
  lemma ParseFailsOn()
    ensures ParseComponent([0x38, EQUALS, PERIOD]) == None && ParseComponent([0x31, 0x32, EQUALS]) == None
  {
    hide ParseComponent;
    SmallTypes();
    assert [0x38] + [EQUALS] + seq(1, _ => PERIOD) == [0x38, EQUALS, PERIOD];
    assert [0x31, 0x32] + [EQUALS] + seq(0, _ => PERIOD) == [0x31, 0x32, EQUALS];
    ParseFails(8, 1);
    ParseFails(12, 0);
  }

  lemma SmallTypes()
    ensures Itoa(8) == [0x38] && Itoa(12) == [0x31, 0x32]
  {
    assert Itoa(1) == [0x31];
  }

  lemma MorePeriods(v: Bytes)
    requires AllPeriods(v)
    ensures AllPeriods(v + THREE_PERIODS) && (v + THREE_PERIODS)[3..] == v
  {
    var w := v + THREE_PERIODS;
    forall i | 0 <= i < |v| ensures w[3..][i] == v[i] {
    }
  }

  // ------------------------------------------------------------------ names

  function NameString(name: N.NameT): (s: Bytes) {
    if name == [] then [SLASH] else Slashed(name)
  }

  function Slashed(name: N.NameT): (s: Bytes) {
    if name == [] then [] else [SLASH] + ComponentString(name[0]) + Slashed(name[1..])
  }

  /** Pieces of a string between separators. */
  function Split(s: Bytes, sep: Byte): (r: seq<Bytes>)
    ensures |r| >= 1
  {
    var k := IndexByte(s, sep);
    if k < 0 then [s] else [s[..k]] + Split(s[k + 1..], sep)
  }

  /** The components of the tokens that are not empty. */
  function ParseTokens(tokens: seq<Bytes>): (r: Option<N.NameT>) {
    if tokens == [] then
      Some([])
    else if tokens[0] == [] then
      ParseTokens(tokens[1..])
    else
      var c, rest := ParseComponent(tokens[0]), ParseTokens(tokens[1..]);
      if c.None? || rest.None? then None else Some([c.value] + rest.value)
  }

  const SCHEME: Bytes := [0x6E, 0x64, 0x6E, 0x3A]

  function TrimScheme(s: Bytes): (r: Bytes) {
    if SCHEME <= s then s[|SCHEME|..] else s
  }

  function ParseName(input: Bytes): (name: Option<N.NameT>) {
    ParseTokens(Split(TrimScheme(input), SLASH))
  }

  /** A printed component is a token. */
  lemma ComponentClean(c: Element)
    ensures ComponentString(c) != [] && forall i | 0 <= i < |ComponentString(c)| :: ComponentString(c)[i] != SLASH
  {
    ItoaParses(c.kind);
    EscapeClean(c.value);
    hide Itoa, Escape, AllPeriods;
  }

  lemma SplitFirst(a: Bytes, rest: Bytes)
    requires forall i | 0 <= i < |a| :: a[i] != SLASH
    ensures Split(a + [SLASH] + rest, SLASH) == [a] + Split(rest, SLASH)
    ensures Split(a, SLASH) == [a]
  {
    var s := a + [SLASH] + rest;
    IndexIs(s, SLASH, |a|);
    assert s[..|a|] == a && s[|a| + 1..] == rest;
    assert IndexByte(a, SLASH) < 0;
  }

  function Strings(name: N.NameT): (r: seq<Bytes>) {
    seq(|name|, i requires 0 <= i < |name| => ComponentString(name[i]))
  }

  /** Splitting a printed name gives an empty piece and the printed components. */
  lemma {:induction false} SplitSlashed(name: N.NameT, a: Bytes)
    requires forall i | 0 <= i < |a| :: a[i] != SLASH
    ensures Split(a + Slashed(name), SLASH) == [a] + Strings(name)
  {
    hide ComponentString, Split;
    if name == [] {
      assert a + [] == a;
      SplitFirst(a, []);
    } else {
      var c := ComponentString(name[0]);
      ComponentClean(name[0]);
      SplitSlashed(name[1..], c);
      SplitFirst(a, c + Slashed(name[1..]));
      assert a + Slashed(name) == a + [SLASH] + (c + Slashed(name[1..]));
      assert Strings(name) == [c] + Strings(name[1..]);
    }
  }

  lemma {:induction false} TokensParse(name: N.NameT)
    requires forall i | 0 <= i < |name| :: ValidType(name[i].kind)
    ensures ParseTokens(Strings(name)) == Some(name)
  {
    hide ComponentString, ParseComponent;
    if name != [] {
      ComponentClean(name[0]);
      ComponentRoundTrip(name[0]);
      TokensParse(name[1..]);
      assert Strings(name)[1..] == Strings(name[1..]);
      assert [name[0]] + name[1..] == name;
    }
  }

  /** Parsing undoes printing, for every name whose types are valid. */
  lemma NameRoundTrip(name: N.NameT)
    requires forall i | 0 <= i < |name| :: ValidType(name[i].kind)
    ensures ParseName(NameString(name)) == Some(name)
  {
    hide ComponentString, ParseComponent, Split, ParseTokens;
    if name == [] {
      assert [SLASH] == [] + [SLASH] + [];
      SplitFirst([], []);
      EmptyTokens();
    } else {
      var s := NameString(name);
      assert s[0] == SLASH;
      assert [] + Slashed(name) == s;
      SplitSlashed(name, []);
      TokensParse(name);
      EmptyFirst(Strings(name));
    }
  }

  lemma EmptyTokens()
    ensures ParseTokens([[]] + [[]]) == Some([])
  {
    var none: Bytes := [];
    EmptyFirst([none]);
    EmptyFirst([]);
    assert [none] + [] == [none];
  }

  lemma EmptyFirst(tokens: seq<Bytes>)
    ensures ParseTokens([[]] + tokens) == ParseTokens(tokens)
  {
    assert ([[]] + tokens)[1..] == tokens;
  }

  // ------------------------------------------------------------------ the loops

  /** Print a name. */
  method Print(name: N.NameT) returns (s: Bytes)
    ensures s == NameString(name)
  {
    hide ComponentString;
    if name == [] {
      return [SLASH];
    }
    s := [];
    assert name[0..] == name;
    for i := 0 to |name|
      invariant s + Slashed(name[i..]) == Slashed(name)
    {
      var c := PrintComponent(name[i]);
      assert name[i..][1..] == name[i + 1..];
      Associate(s, [SLASH] + c, Slashed(name[i + 1..]));
      s := s + ([SLASH] + c);
    }
  }

  /** Print a component, counting what is not a period. */
  method PrintComponent(c: Element) returns (s: Bytes)
    ensures s == ComponentString(c)
  {
    hide EscapeByte, Itoa;
    var v := c.value;
    s := [];
    var nNonPeriods: nat := 0;
    assert v[0..] == v;
    for i := 0 to |v|
      invariant s + Escape(v[i..]) == Escape(v)
      invariant nNonPeriods == 0 <==> AllPeriods(v[..i])
    {
      assert v[i..][1..] == v[i + 1..] && v[..i + 1] == v[..i] + [v[i]];
      Associate(s, EscapeByte(v[i]), Escape(v[i + 1..]));
      s := s + EscapeByte(v[i]);
      if v[i] != PERIOD {
        nNonPeriods := nNonPeriods + 1;
        assert v[..i + 1][i] != PERIOD;
      }
    }
    assert v[..|v|] == v && v[|v|..] == [];
    s := Itoa(c.kind) + [EQUALS] + s + if nNonPeriods == 0 then THREE_PERIODS else [];
  }

  /** Undo escapes, from a position on. */
  method UnescapeFrom(input: Bytes, pos: nat) returns (v: Bytes)
    requires pos <= |input|
    ensures v == Unescape(input[pos..])
  {
    v := [];
    var i := pos;
    while i < |input|
      invariant pos <= i <= |input| && v + Unescape(input[i..]) == Unescape(input[pos..])
    {
      var rest := input[i..];
      ghost var u := Unescape(rest);
      if rest[0] == PERCENT && i + 2 < |input| && HexValue(rest[1]).Some? && HexValue(rest[2]).Some? {
        var b := HexValue(rest[1]).value * 16 + HexValue(rest[2]).value;
        assert rest[3..] == input[i + 3..];
        Associate(v, [b], Unescape(input[i + 3..]));
        v := v + [b];
        i := i + 3;
      } else {
        assert rest[1..] == input[i + 1..];
        Associate(v, [rest[0]], Unescape(input[i + 1..]));
        v := v + [rest[0]];
        i := i + 1;
      }
    }
  }
}
