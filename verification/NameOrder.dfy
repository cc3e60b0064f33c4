/**
  Names as sequences of components (ndn/name.go, ndn/name-component.go, ndn/data.go), against names as
  encoded bytes (csrc/ndni/name.h, csrc/ndni/name.c, csrc/ndni/data.c).

  A component is a TLV element, and a name is encoded by the encodings of its components, one after
  another.
 */
module NameOrder {
  import opened Common
  import opened Chain
  import opened Tlv
  import N = Name

  const DIGEST_SIZE := 34

  /** A component as names have it. */
  predicate ValidComponent(c: Element) {
    1 <= c.kind <= 65535 && |c.value| < 0x1_0000_0000
  }

  ghost predicate ValidName(name: N.NameT) {
    forall i | 0 <= i < |name| :: ValidComponent(name[i])
  }

  // ------------------------------------------------------------------ orders

  /** Lexicographic order of byte strings: negative, zero or positive. */
  function CompareBytes(a: Bytes, b: Bytes): (d: int) {
    if a == [] then (if b == [] then 0 else -1)
    else if b == [] then 1
    else if a[0] != b[0] then (if a[0] < b[0] then -1 else 1)
    else CompareBytes(a[1..], b[1..])
  }

  /** Components: by type, then by length, then by value. */
  function CompareComponents(a: Element, b: Element): (d: int) {
    if a.kind != b.kind then a.kind - b.kind
    else if |a.value| != |b.value| then |a.value| - |b.value|
    else CompareBytes(a.value, b.value)
  }

  /** The first difference among the components that both names have. */
  function CompareCommonPrefix(a: N.NameT, b: N.NameT): (d: int) {
    if a == [] || b == [] then 0
    else if CompareComponents(a[0], b[0]) != 0 then CompareComponents(a[0], b[0])
    else CompareCommonPrefix(a[1..], b[1..])
  }

  function Compare(a: N.NameT, b: N.NameT): (d: int) {
    var d := CompareCommonPrefix(a, b);
    if d != 0 then d else |a| - |b|
  }

  predicate IsPrefixOf(a: N.NameT, b: N.NameT) {
    CompareCommonPrefix(a, b) == 0 && |a| <= |b|
  }

  /** The loop over the common prefix. */
  method CompareLoop(a: N.NameT, b: N.NameT) returns (d: int)
    ensures d == CompareCommonPrefix(a, b)
  {
    var n := if |a| < |b| then |a| else |b|;
    assert a[0..] == a && b[0..] == b;
    for i := 0 to n
      invariant CompareCommonPrefix(a, b) == CompareCommonPrefix(a[i..], b[i..])
    {
      d := CompareComponents(a[i], b[i]);
      assert a[i..][1..] == a[i + 1..] && b[i..][1..] == b[i + 1..];
      if d != 0 {
        return;
      }
    }
    d := 0;
  }

  // ------------------------------------------------------------------ bytes against components

  predicate SameSign(a: int, b: int) {
    (a < 0 <==> b < 0) && (a > 0 <==> b > 0)
  }

  lemma {:induction false} CompareSelf(a: Bytes, x: Bytes, y: Bytes)
    ensures CompareBytes(a + x, a + y) == CompareBytes(x, y)
  {
    if a == [] {
      assert a + x == x && a + y == y;
    } else {
      CompareSelf(a[1..], x, y);
      assert (a + x)[1..] == a[1..] + x && (a + y)[1..] == a[1..] + y;
    }
  }

  /** Strings that differ before one of them ends keep their order whatever follows. */
  lemma {:induction false} CompareDiffer(a: Bytes, b: Bytes, x: Bytes, y: Bytes)
    requires |a| == |b| && a != b
    ensures CompareBytes(a + x, b + y) == CompareBytes(a, b) != 0
  {
    if a[0] == b[0] {
      assert a == [a[0]] + a[1..] && b == [b[0]] + b[1..];
      CompareDiffer(a[1..], b[1..], x, y);
      assert (a + x)[1..] == a[1..] + x && (b + y)[1..] == b[1..] + y;
    }
  }

  lemma {:induction false} CompareEqual(a: Bytes, b: Bytes)
    ensures CompareBytes(a, b) == 0 <==> a == b
  {
    if a != [] && b != [] {
      CompareEqual(a[1..], b[1..]);
      assert a == [a[0]] + a[1..] && b == [b[0]] + b[1..];
    }
  }

  /** Big-endian numbers of the same size compare as numbers. */
  lemma {:induction false} CompareBe(m: nat, n: nat, k: nat)
    requires m < n < Pow256(k)
    ensures ToBe(m, k) != ToBe(n, k) && CompareBytes(ToBe(m, k), ToBe(n, k)) < 0
  {
    var a, b := ToBe(m / 256, k - 1), ToBe(n / 256, k - 1);
    BeToBe(m, k);
    BeToBe(n, k);
    if m / 256 == n / 256 {
      assert m % 256 < n % 256;
      CompareSelf(a, [m % 256], [n % 256]);
    } else {
      assert m / 256 < n / 256;
      CompareBe(m / 256, n / 256, k - 1);
      CompareDiffer(a, b, [m % 256], [n % 256]);
    }
  }

  /** VAR-NUMBERs compare as numbers, whatever follows. */
  lemma CompareVarNum(m: nat, n: nat, x: Bytes, y: Bytes)
    requires m < n < 0x1_0000_0000
    ensures CompareBytes(EncodeVarNum(m) + x, EncodeVarNum(n) + y) < 0
  {
    Powers();
    var a, b := EncodeVarNum(m), EncodeVarNum(n);
    if a[0] == b[0] {
      var k := if n <= 0xFFFF then 2 else 4;
      CompareBe(m, n, k);
      CompareDiffer(ToBe(m, k), ToBe(n, k), x, y);
      assert a + x == [a[0]] + (ToBe(m, k) + x) && b + y == [a[0]] + (ToBe(n, k) + y);
      CompareSelf([a[0]], ToBe(m, k) + x, ToBe(n, k) + y);
    } else {
      assert (a + x)[0] == a[0] && (b + y)[0] == b[0];
    }
  }

  lemma {:induction false} CompareFlip(a: Bytes, b: Bytes)
    ensures SameSign(CompareBytes(a, b), -CompareBytes(b, a))
  {
    if a != [] && b != [] {
      CompareFlip(a[1..], b[1..]);
    }
  }

  lemma CompareVarNums(m: nat, n: nat, x: Bytes, y: Bytes)
    requires m < 0x1_0000_0000 && n < 0x1_0000_0000
    ensures m < n ==> CompareBytes(EncodeVarNum(m) + x, EncodeVarNum(n) + y) < 0
    ensures m > n ==> CompareBytes(EncodeVarNum(m) + x, EncodeVarNum(n) + y) > 0
    ensures m == n ==> CompareBytes(EncodeVarNum(m) + x, EncodeVarNum(n) + y) == CompareBytes(x, y)
  {
    hide EncodeVarNum;
    if m < n {
      CompareVarNum(m, n, x, y);
    } else if m > n {
      CompareVarNum(n, m, y, x);
      CompareFlip(EncodeVarNum(m) + x, EncodeVarNum(n) + y);
    } else {
      CompareSelf(EncodeVarNum(m), x, y);
    }
  }

  /** Encoded components compare as components, or else what follows decides. */
  lemma CompareEncoded(a: Element, b: Element, x: Bytes, y: Bytes)
    requires ValidComponent(a) && ValidComponent(b)
    ensures var d, e := CompareComponents(a, b), CompareBytes(a.Encode() + x, b.Encode() + y);
      && (d == 0 <==> a == b)
      && (d != 0 ==> SameSign(d, e)) && (d == 0 ==> e == CompareBytes(x, y))
  {
    hide EncodeVarNum, CompareBytes;
    var ka, kb, la, lb := EncodeVarNum(a.kind), EncodeVarNum(b.kind), EncodeVarNum(|a.value|), EncodeVarNum(|b.value|);
    assert a.Encode() + x == ka + (la + (a.value + x)) && b.Encode() + y == kb + (lb + (b.value + y));
    CompareVarNums(a.kind, b.kind, la + (a.value + x), lb + (b.value + y));
    CompareVarNums(|a.value|, |b.value|, a.value + x, b.value + y);
    CompareEqual(a.value, b.value);
    if a.kind == b.kind && |a.value| == |b.value| {
      if a.value == b.value {
        CompareSelf(a.value, x, y);
      } else {
        CompareDiffer(a.value, b.value, x, y);
      }
    }
  }

  lemma EncodedNonEmpty(e: Element)
    ensures e.Encode() != []
  {
  }

  lemma EncodeFirst(a: N.NameT)
    requires a != []
    ensures EncodeAll(a) == a[0].Encode() + EncodeAll(a[1..]) && EncodeAll(a) != []
  {
    hide Element.Encode;
    EncodedNonEmpty(a[0]);
  }

  /** The order of names is the order of their encodings. */
  lemma {:induction false} CompareIsByteOrder(a: N.NameT, b: N.NameT)
    requires ValidName(a) && ValidName(b)
    ensures SameSign(Compare(a, b), CompareBytes(EncodeAll(a), EncodeAll(b)))
  {
    hide Element.Encode, CompareComponents, ValidComponent;
    if a == [] {
      if b != [] {
        EncodeFirst(b);
      }
    } else if b == [] {
      EncodeFirst(a);
    } else {
      EncodeFirst(a);
      EncodeFirst(b);
      CompareEncoded(a[0], b[0], EncodeAll(a[1..]), EncodeAll(b[1..]));
      CompareIsByteOrder(a[1..], b[1..]);
    }
  }

  // ------------------------------------------------------------------ prefixes

  /** The byte-level prefix test: negative if not a prefix, otherwise how many bytes are left. */
  function LNameIsPrefix(a: Bytes, b: Bytes): (r: int) {
    if |a| > |b| || a != b[..|a|] then -1 else |b| - |a|
  }

  lemma {:induction false} CommonPrefixZero(a: N.NameT, b: N.NameT)
    requires ValidName(a) && ValidName(b) && |a| <= |b|
    ensures CompareCommonPrefix(a, b) == 0 <==> a <= b
  {
    hide CompareComponents;
    if a != [] {
      CommonPrefixZero(a[1..], b[1..]);
      CompareEncoded(a[0], b[0], [], []);
      assert a == [a[0]] + a[1..] && b == [b[0]] + b[1..];
    }
  }

  /** An encoding can be read from the front in only one way. */
  lemma {:induction false} EncodedPrefix(a: N.NameT, b: N.NameT, x: Bytes)
    requires ValidName(a) && ValidName(b) && EncodeAll(a) + x == EncodeAll(b)
    ensures a <= b && x == EncodeAll(b[|a|..])
  {
    hide Element.Encode;
    if a == [] {
      assert [] + x == x;
    } else {
      EncodeFirst(a);
      assert b != [];
      EncodeFirst(b);
      var x', y' := EncodeAll(a[1..]) + x, EncodeAll(b[1..]);
      Associate(a[0].Encode(), EncodeAll(a[1..]), x);
      FirstOf(a[0], x');
      FirstOf(b[0], y');
      EncodedPrefix(a[1..], b[1..], x);
      assert a == [a[0]] + a[1..] && b == [b[0]] + b[1..] && b[1..][|a| - 1..] == b[|a|..];
    }
  }

  /** The byte-level prefix test is the component-level one, and says when names are equal. */
  lemma PrefixTestsAgree(a: N.NameT, b: N.NameT)
    requires ValidName(a) && ValidName(b)
    ensures LNameIsPrefix(EncodeAll(a), EncodeAll(b)) >= 0 <==> IsPrefixOf(a, b)
    ensures LNameIsPrefix(EncodeAll(a), EncodeAll(b)) == 0 <==> a == b
    ensures IsPrefixOf(a, b) <==> a <= b
  {
    hide Element.Encode, CompareComponents, CompareCommonPrefix, EncodeAll;
    var x, y := EncodeAll(a), EncodeAll(b);
    if |a| <= |b| {
      CommonPrefixZero(a, b);
    }
    if a <= b {
      assert b == a + b[|a|..];
      EncodeAllSplit(a, b[|a|..]);
      if b[|a|..] != [] {
        EncodeFirst(b[|a|..]);
      } else {
        assert b == a;
      }
    }
    if |x| <= |y| && x == y[..|x|] {
      assert x + y[|x|..] == y;
      EncodedPrefix(a, b, y[|x|..]);
    }
  }

  // ------------------------------------------------------------------ satisfying an Interest

  datatype Satisfy = Yes | No | NeedDigest

  /** The byte-level test. */
  function PDataCanSatisfy(
    interest: Bytes, hasDigestComp: bool, canBePrefix: bool, mustBeFresh: bool,
    data: Bytes, freshness: nat, digest: Option<Bytes>): (r: Satisfy)
  {
    if mustBeFresh && freshness == 0 then
      No
    else if hasDigestComp then
      if |interest| != |data| + DIGEST_SIZE || interest[..|data|] != data then No
      else if digest.None? then NeedDigest
      else if interest[|interest| - N.DIGEST_LENGTH..] == digest.value then Yes
      else No
    else
      var cmp := LNameIsPrefix(interest, data);
      if canBePrefix then (if cmp >= 0 then Yes else No) else (if cmp == 0 then Yes else No)
  }

  /** The component-level test, for Data with the given implicit digest. */
  predicate DataCanSatisfy(interest: N.NameT, canBePrefix: bool, mustBeFresh: bool, data: N.NameT, freshness: int, digest: Bytes) {
    if |interest| == 0 then false
    else if mustBeFresh && freshness <= 0 then false
    else if interest[|interest| - 1].kind == N.TT_IMPLICIT_DIGEST then Compare(interest, data + [Element(N.TT_IMPLICIT_DIGEST, digest)]) == 0
    else if canBePrefix then IsPrefixOf(interest, data)
    else Compare(interest, data) == 0
  }

  lemma CompareZero(a: N.NameT, b: N.NameT)
    requires ValidName(a) && ValidName(b)
    ensures Compare(a, b) == 0 <==> a == b
  {
    hide CompareCommonPrefix;
    if |a| <= |b| {
      CommonPrefixZero(a, b);
    }
  }

  lemma DigestEncoding(digest: Bytes)
    requires |digest| == N.DIGEST_LENGTH
    ensures Element(N.TT_IMPLICIT_DIGEST, digest).Encode() == [1, 32] + digest
  {
  }

  lemma EncodeSnoc(a: N.NameT, c: Element)
    ensures EncodeAll(a + [c]) == EncodeAll(a) + c.Encode()
  {
    hide Element.Encode;
    EncodeAllSplit(a, [c]);
    assert c.Encode() + [] == c.Encode();
  }

  /** The digest test on bytes: the name of the Data, and one more component. */
  lemma DigestTest(interest: N.NameT, data: N.NameT, digest: Bytes)
    requires ValidName(interest) && ValidName(data) && |digest| == N.DIGEST_LENGTH && interest != []
    requires interest[|interest| - 1].kind == N.TT_IMPLICIT_DIGEST && |interest[|interest| - 1].value| == N.DIGEST_LENGTH
    ensures var x, y := EncodeAll(interest), EncodeAll(data);
      && |x| >= DIGEST_SIZE
      && ((|x| == |y| + DIGEST_SIZE && x[..|y|] == y && x[|x| - N.DIGEST_LENGTH..] == digest) <==> interest == data + [Element(N.TT_IMPLICIT_DIGEST, digest)])
  {
    hide Element.Encode, EncodeAll;
    var x, y := EncodeAll(interest), EncodeAll(data);
    var front, last := interest[..|interest| - 1], interest[|interest| - 1];
    assert interest == front + [last];
    EncodeSnoc(front, last);
    DigestEncoding(last.value);
    DigestEncoding(digest);
    EncodeSnoc(data, Element(N.TT_IMPLICIT_DIGEST, digest));
    assert x[|x| - N.DIGEST_LENGTH..] == last.value;
    if |x| == |y| + DIGEST_SIZE && x[..|y|] == y {
      assert x[..|y|] == EncodeAll(front);
      SameEncoding(front, data);
    }
  }

  lemma SameEncoding(a: N.NameT, b: N.NameT)
    requires ValidName(a) && ValidName(b) && EncodeAll(a) == EncodeAll(b)
    ensures a == b
  {
    hide EncodeAll;
    assert EncodeAll(a) + [] == EncodeAll(b);
    EncodedPrefix(a, b, []);
    if b[|a|..] != [] {
      EncodeFirst(b[|a|..]);
    }
  }

  /** With the digest known, the byte-level test says yes exactly when the component-level one does. */
  lemma CanSatisfyAgrees(interest: N.NameT, canBePrefix: bool, mustBeFresh: bool, data: N.NameT, freshness: nat, digest: Bytes)
    requires ValidName(interest) && ValidName(data) && interest != [] && |digest| == N.DIGEST_LENGTH
    requires interest[|interest| - 1].kind == N.TT_IMPLICIT_DIGEST ==> |interest[|interest| - 1].value| == N.DIGEST_LENGTH
    ensures var r := PDataCanSatisfy(EncodeAll(interest), N.Summary(interest).hasDigestComp, canBePrefix, mustBeFresh, EncodeAll(data), freshness, Some(digest));
      r != NeedDigest && (r == Yes <==> DataCanSatisfy(interest, canBePrefix, mustBeFresh, data, freshness, digest))
  {
    hide EncodeAll, Compare, IsPrefixOf, N.FirstNonGeneric;
    var full := data + [Element(N.TT_IMPLICIT_DIGEST, digest)];
    assert ValidName(full);
    CompareZero(interest, full);
    CompareZero(interest, data);
    PrefixTestsAgree(interest, data);
    if interest[|interest| - 1].kind == N.TT_IMPLICIT_DIGEST {
      DigestTest(interest, data, digest);
    }
  }

  ghost predicate SomeDigestSatisfies(interest: N.NameT, canBePrefix: bool, mustBeFresh: bool, data: N.NameT, freshness: int) {
    exists digest: Bytes :: |digest| == N.DIGEST_LENGTH && DataCanSatisfy(interest, canBePrefix, mustBeFresh, data, freshness, digest)
  }

  /** Without the digest, it is asked for exactly when it would decide. */
  lemma DigestAskedFor(interest: N.NameT, canBePrefix: bool, mustBeFresh: bool, data: N.NameT, freshness: nat)
    requires ValidName(interest) && ValidName(data) && interest != []
    requires interest[|interest| - 1].kind == N.TT_IMPLICIT_DIGEST ==> |interest[|interest| - 1].value| == N.DIGEST_LENGTH
    ensures PDataCanSatisfy(EncodeAll(interest), N.Summary(interest).hasDigestComp, canBePrefix, mustBeFresh, EncodeAll(data), freshness, None) == NeedDigest
      <==> interest[|interest| - 1].kind == N.TT_IMPLICIT_DIGEST && SomeDigestSatisfies(interest, canBePrefix, mustBeFresh, data, freshness)
  {
    hide EncodeAll, Compare, IsPrefixOf, N.FirstNonGeneric;
    var last := interest[|interest| - 1];
    if last.kind == N.TT_IMPLICIT_DIGEST {
      CanSatisfyAgrees(interest, canBePrefix, mustBeFresh, data, freshness, last.value);
      LastBytes(interest);
      forall digest: Bytes | |digest| == N.DIGEST_LENGTH && DataCanSatisfy(interest, canBePrefix, mustBeFresh, data, freshness, digest)
        ensures PDataCanSatisfy(EncodeAll(interest), true, canBePrefix, mustBeFresh, EncodeAll(data), freshness, None) == NeedDigest
      {
        CanSatisfyAgrees(interest, canBePrefix, mustBeFresh, data, freshness, digest);
      }
    }
  }

  lemma LastBytes(name: N.NameT)
    requires name != [] && |name[|name| - 1].value| == N.DIGEST_LENGTH
    ensures var x := EncodeAll(name); |x| >= N.DIGEST_LENGTH && x[|x| - N.DIGEST_LENGTH..] == name[|name| - 1].value
  {
    hide EncodeAll, EncodeTL;
    var front, last := name[..|name| - 1], name[|name| - 1];
    assert name == front + [last];
    EncodeSnoc(front, last);
  }
}
