/**
  The name tree of the forwarding information base (container/fib/fibtree), and the lookup table that
  is updated along with it (container/fib/fibreplica, container/fib/fib.go).
 */
module FibTree {
  import opened Common
  import opened Chain
  import opened FibTable = Fib

  /** A node of the tree; without a body it is not an entry. */
  datatype Node = Node(body: Option<Body>, height: nat)

  type Nodes = map<Path, Node>

  const MAX_NAME_LENGTH := 494
  /** Every component takes two bytes at least. */
  const MAX_DEPTH := 247

  predicate IsChild(p: Path, q: Path) {
    |q| == |p| + 1 && q[..|p|] == p
  }

  /** Every path has its parent. */
  ghost predicate Closed(t: Nodes) {
    [] in t && forall q | q in t && |q| > 0 :: q[..|q| - 1] in t
  }

  /** A node is higher than its children. */
  ghost predicate Dominates(t: Nodes, p: Path) {
    p in t && forall q | q in t && IsChild(p, q) :: t[q].height < t[p].height
  }

  ghost predicate HasChild(t: Nodes, p: Path) {
    exists q :: q in t && IsChild(p, q)
  }

  /** A node other than `c` is higher than its children, is a leaf only if its height says so, and then is an entry. */
  ghost predicate NodeGood(t: Nodes, p: Path, c: Path) {
    && Dominates(t, p) && (t[p].height > 0 ==> HasChild(t, p)) && t[p].height + |p| <= MAX_DEPTH
    && (p != c && |p| > 0 && t[p].height == 0 ==> t[p].body.Some?)
  }

  /** The tree is well-formed, except that `c` may be a leaf without being an entry. */
  ghost predicate GoodExcept(t: Nodes, c: Path) {
    Closed(t) && forall p | p in t :: NodeGood(t, p, c)
  }

  ghost predicate Good(t: Nodes) {
    GoodExcept(t, [])
  }

  // ------------------------------------------------------------------ heights and depths

  lemma {:induction false} AllPrefixes(t: Nodes, q: Path, k: nat)
    requires Closed(t) && q in t && k <= |q|
    ensures q[..k] in t
    decreases |q|
  {
    if k == |q| {
      assert q[..k] == q;
    } else {
      AllPrefixes(t, q[..|q| - 1], k);
      assert q[..|q| - 1][..k] == q[..k];
    }
  }

  lemma ChildLower(t: Nodes, p: Path, q: Path, c: Path)
    requires GoodExcept(t, c) && p in t && q in t && IsChild(p, q)
    ensures t[q].height < t[p].height
  {
    hide IsChild, HasChild;
    assert NodeGood(t, p, c);
  }

  lemma StepChild(q: Path, k: nat)
    requires k < |q|
    ensures IsChild(q[..k], q[..k + 1])
  {
    assert q[..k + 1][..k] == q[..k];
  }

  lemma IsClosed(t: Nodes, c: Path)
    requires GoodExcept(t, c)
    ensures Closed(t)
  {
  }

  /** A node is at least as high as its descendants are deep. */
  lemma {:induction false} HighEnough(t: Nodes, q: Path, k: nat, c: Path)
    requires GoodExcept(t, c) && q in t && k <= |q|
    ensures q[..k] in t && t[q[..k]].height >= |q| - k
    decreases |q| - k
  {
    hide GoodExcept, Closed, IsChild;
    IsClosed(t, c);
    AllPrefixes(t, q, k);
    if k < |q| {
      HighEnough(t, q, k + 1, c);
      StepChild(q, k);
      ChildLower(t, q[..k], q[..k + 1], c);
    }
  }

  // ------------------------------------------------------------------ what the table should be

  /** The table entry for a path. */
  function View(t: Nodes, sd: nat, p: Path): (e: Option<Entry>) {
    if p !in t then None
    else if |p| == sd && t[p].height > 0 then Some(Virtual(t[p].height, t[p].body))
    else if t[p].body.Some? then Some(Real(t[p].body.value))
    else None
  }

  function Lookup(table: Table, p: Path): (e: Option<Entry>) {
    if p in table then Some(table[p]) else None
  }

  ghost predicate Reflects(table: Table, t: Nodes, sd: nat) {
    forall p: Path :: Lookup(table, p) == View(t, sd, p)
  }

  /** The entries of the tree. */
  function Entries(t: Nodes): (r: map<Path, Body>) {
    map p | p in t && t[p].body.Some? :: t[p].body.value
  }

  lemma ReflectsAt(table: Table, t: Nodes, sd: nat, p: Path)
    requires Reflects(table, t, sd)
    ensures Lookup(table, p) == View(t, sd, p)
  {
  }

  lemma DeepEntry(table: Table, t: Nodes, sd: nat, p: Path, q: Path)
    requires Reflects(table, t, sd) && Good(t) && q in t && |p| == sd < |q| && p <= q
    ensures p in table && table[p].Virtual? && table[p].height >= |q| - sd
  {
    hide Reflects, GoodExcept;
    HighEnough(t, q, sd, []);
    assert q[..sd] == p;
    ReflectsAt(table, t, sd, p);
  }

  /** A table in line with a well-formed tree shows the entries of the tree. */
  lemma ReflectsShows(table: Table, t: Nodes, sd: nat)
    requires Reflects(table, t, sd) && Good(t)
    ensures Shows(table, sd, Entries(t))
  {
    hide Reflects, GoodExcept;
    var entries := Entries(t);
    forall p: Path ensures GetReal(table, p) == if p in entries then Some(entries[p]) else None {
      ReflectsAt(table, t, sd, p);
    }
    forall p | p in table && table[p].Virtual? ensures |p| == sd && table[p].height > 0 {
      ReflectsAt(table, t, sd, p);
    }
    forall p, q | q in entries && |p| == sd < |q| && p <= q
      ensures p in table && table[p].Virtual? && table[p].height >= |q| - sd
    {
      DeepEntry(table, t, sd, p, q);
    }
  }

  // ------------------------------------------------------------------ updates

  datatype Action = ActInsert | ActReplace | ActErase

  datatype VirtUpdate = VirtUpdate(name: Path, action: Action, hasReal: bool, height: nat)

  /** Update of a real entry; with the height of the virtual entry in front of it, if there is one. */
  datatype RealUpdate = RealUpdate(name: Path, action: Action, body: Body, withVirt: Option<nat>)

  datatype Update = Update(real_: Option<RealUpdate>, virt: Option<VirtUpdate>)

  function BodyOf(e: Option<Entry>): (b: Option<Body>) {
    if e.None? then None else match e.value case Real(b) => Some(b) case Virtual(_, b) => b
  }

  function RealEffect(u: RealUpdate): (e: Option<Entry>) {
    if u.action == ActErase then
      if u.withVirt.Some? then Some(Virtual(u.withVirt.value, None)) else None
    else
      Some(if u.withVirt.Some? then Virtual(u.withVirt.value, Some(u.body)) else Real(u.body))
  }

  function VirtEffect(u: VirtUpdate, was: Option<Entry>): (e: Option<Entry>) {
    var behind := if u.hasReal then BodyOf(was) else None;
    if u.action == ActErase then
      if behind.Some? then Some(Real(behind.value)) else None
    else
      Some(Virtual(u.height, behind))
  }

  /** What an update makes of the entry for a path. */
  function Effect(u: Update, p: Path, was: Option<Entry>): (e: Option<Entry>) {
    if u.virt.Some? && p == u.virt.value.name then VirtEffect(u.virt.value, was)
    else if u.real_.Some? && p == u.real_.value.name then RealEffect(u.real_.value)
    else was
  }

  /** The update describes the difference between two trees. */
  ghost predicate Describes(u: Update, t: Nodes, t': Nodes, sd: nat) {
    forall p: Path :: View(t', sd, p) == Effect(u, p, View(t, sd, p))
  }

  predicate ValidUpdate(u: Update) {
    u.real_.Some? && u.virt.Some? ==> u.real_.value.name != u.virt.value.name
  }

  function Put(table: Table, p: Path, e: Option<Entry>): (r: Table) {
    if e.Some? then table[p := e.value] else table - {p}
  }

  /** Execute an update on the table: what is read from the table is read before anything is written. */
  method Execute(table: Table, u: Update) returns (table': Table)
    requires ValidUpdate(u)
    ensures forall p: Path :: Lookup(table', p) == Effect(u, p, Lookup(table, p))
  {
    table' := table;
    if u.real_.Some? {
      table' := Put(table', u.real_.value.name, RealEffect(u.real_.value));
    }
    if u.virt.Some? {
      var v := u.virt.value;
      table' := Put(table', v.name, VirtEffect(v, Lookup(table, v.name)));
    }
  }

  lemma ExecuteReflects(table: Table, table': Table, u: Update, t: Nodes, t': Nodes, sd: nat)
    requires Reflects(table, t, sd) && Describes(u, t, t', sd)
    requires forall p: Path :: Lookup(table', p) == Effect(u, p, Lookup(table, p))
    ensures Reflects(table', t', sd)
  {
    forall p: Path ensures Lookup(table', p) == View(t', sd, p) {
      assert Lookup(table, p) == View(t, sd, p);
      assert View(t', sd, p) == Effect(u, p, View(t, sd, p));
    }
  }

  // ------------------------------------------------------------------ height of a node

  function Children(t: Nodes, p: Path): (r: set<Path>) {
    set q | q in t && IsChild(p, q)
  }

  /** One more than the highest child, or zero. */
  ghost predicate IsHeight(t: Nodes, p: Path, h: nat) {
    && (forall q | q in t && IsChild(p, q) :: t[q].height < h)
    && (h > 0 ==> exists q :: q in t && IsChild(p, q) && t[q].height == h - 1)
  }

  method NewHeight(t: Nodes, p: Path) returns (h: nat)
    ensures IsHeight(t, p, h)
  {
    hide IsChild;
    var rest := Children(t, p);
    h := 0;
    while rest != {}
      invariant rest <= Children(t, p)
      invariant forall q | q in Children(t, p) && q !in rest :: t[q].height < h
      invariant h > 0 ==> exists q :: q in Children(t, p) && t[q].height == h - 1
      decreases |rest|
    {
      var q :| q in rest;
      h := if t[q].height + 1 > h then t[q].height + 1 else h;
      rest := rest - {q};
    }
  }

  lemma SetHeightKeeps(t: Nodes, p: Path, h: nat, q: Path)
    requires p in t && Dominates(t, q) && q != p && !IsChild(q, p)
    ensures Dominates(t[p := t[p].(height := h)], q)
  {
  }

  // ------------------------------------------------------------------ insertion

  /** The same paths and heights. */
  ghost predicate SameShape(t: Nodes, t': Nodes) {
    t.Keys == t'.Keys && forall p | p in t :: t'[p].height == t[p].height
  }

  lemma SameShapeKeeps(t: Nodes, t': Nodes, p: Path)
    requires SameShape(t, t') && p in t
    ensures Dominates(t, p) ==> Dominates(t', p)
    ensures HasChild(t, p) ==> HasChild(t', p)
  {
    hide IsChild;
    if HasChild(t, p) {
      var q :| q in t && IsChild(p, q);
      assert q in t';
    }
  }

  /** A tree in which only one body differs. */
  lemma BodySet(t: Nodes, name: Path, b: Option<Body>)
    requires Good(t) && name in t && (b.Some? || t[name].height > 0 || name == [])
    ensures Good(t[name := t[name].(body := b)])
  {
    hide Dominates, HasChild;
    var t' := t[name := t[name].(body := b)];
    forall p | p in t' ensures NodeGood(t', p, []) {
      assert NodeGood(t, p, []);
      SameShapeKeeps(t, t', p);
    }
  }

  /** The paths of a tree, after the prefixes of a name have been added. */
  ghost predicate SameOff(t: Nodes, t': Nodes, name: Path) {
    && (forall p: Path :: p in t' <==> p in t || p <= name)
    && (forall p | p in t && !(p <= name) :: t'[p] == t[p])
  }

  function OldHeight(t: Nodes, p: Path): (h: nat) {
    if p in t then t[p].height else 0
  }

  function OldBody(t: Nodes, p: Path): (b: Option<Body>) {
    if p in t then t[p].body else None
  }

  /** A new entry is in the tree, and the heights of its ancestors are up to date from depth `k` down. */
  ghost predicate Growing(t: Nodes, t': Nodes, name: Path, b: Body, k: nat) {
    && k <= |name| && SameOff(t, t', name) && t'[name] == Node(Some(b), 0)
    && (forall d | 0 <= d < |name| :: t'[name[..d]].body == OldBody(t, name[..d]))
    && (forall d | 0 <= d < k :: t'[name[..d]].height == OldHeight(t, name[..d]))
    && (forall d | k <= d < |name| :: Dominates(t', name[..d]) && 0 < t'[name[..d]].height <= MAX_DEPTH - d)
  }

  lemma PrefixOf(name: Path, p: Path)
    requires p <= name
    ensures p == name[..|p|]
  {
  }

  lemma PrefixLength(name: Path, d: nat)
    requires d <= |name|
    ensures name[..d] <= name && |name[..d]| == d
  {
  }

  /** What has been sought is there: the name and its prefixes, new ones without a body. */
  ghost predicate Sought(t: Nodes, t': Nodes, name: Path, k: nat) {
    && k <= |name|
    && (forall p: Path :: p in t' <==> p in t || (p <= name && |p| <= k))
    && (forall p | p in t' :: t'[p] == if p in t then t[p] else Node(None, 0))
  }

  method Seek(t: Nodes, name: Path) returns (t': Nodes, isNew: bool)
    requires Closed(t)
    ensures Sought(t, t', name, |name|) && isNew == (name !in t)
  {
    t', isNew := t, false;
    SoughtStart(t, name);
    for k := 0 to |name|
      invariant Sought(t, t', name, k) && isNew == (name[..k] !in t)
    {
      SoughtNext(t, t', name, k);
      ChildOfMissing(t, name, k);
      if name[..k + 1] !in t' {
        t' := t'[name[..k + 1] := Node(None, 0)];
        isNew := true;
      }
    }
    assert name[..|name|] == name;
  }

  lemma SoughtStart(t: Nodes, name: Path)
    requires Closed(t)
    ensures Sought(t, t, name, 0)
  {
    forall p: Path | p <= name && |p| <= 0 ensures p in t {
      assert p == [];
    }
  }

  lemma SoughtNext(t: Nodes, t': Nodes, name: Path, k: nat)
    requires Sought(t, t', name, k) && k < |name|
    ensures name[..k + 1] in t' <==> name[..k + 1] in t
    ensures Sought(t, if name[..k + 1] in t' then t' else t'[name[..k + 1] := Node(None, 0)], name, k + 1)
  {
    var n := name[..k + 1];
    var t'' := if n in t' then t' else t'[n := Node(None, 0)];
    PrefixLength(name, k + 1);
    forall p: Path ensures p in t'' <==> p in t || (p <= name && |p| <= k + 1) {
      if p <= name && |p| == k + 1 {
        PrefixOf(name, p);
      }
    }
  }

  lemma ChildOfMissing(t: Nodes, name: Path, k: nat)
    requires Closed(t) && k < |name|
    ensures name[..k] !in t ==> name[..k + 1] !in t
  {
    assert name[..k + 1][..k] == name[..k];
  }

  lemma SoughtGrowing(t: Nodes, t': Nodes, name: Path, b: Body)
    requires name !in t && Sought(t, t', name, |name|)
    ensures name in t' && Growing(t, t'[name := Node(Some(b), 0)], name, b, |name|)
  {
    hide Good, Dominates;
    var t'' := t'[name := Node(Some(b), 0)];
    assert name <= name;
    forall p: Path ensures p in t'' <==> p in t || p <= name {
      assert p <= name ==> |p| <= |name|;
    }
    forall d | 0 <= d < |name| ensures t''[name[..d]].body == OldBody(t, name[..d]) && t''[name[..d]].height == OldHeight(t, name[..d]) {
      PrefixLength(name, d);
      assert name[..d] != name;
    }
  }

  /** One more ancestor with its height up to date. */
  lemma GrowingStep(t: Nodes, t': Nodes, name: Path, b: Body, k: nat, h: nat)
    requires Good(t) && Growing(t, t', name, b, k) && 0 < k && |name| <= MAX_DEPTH
    requires name[..k - 1] in t' && IsHeight(t', name[..k - 1], h)
    ensures Growing(t, t'[name[..k - 1] := t'[name[..k - 1]].(height := h)], name, b, k - 1)
  {
    hide IsChild, Dominates, IsHeight, Good;
    var p := name[..k - 1];
    var t'' := t'[p := t'[p].(height := h)];
    PrefixLength(name, k - 1);
    PrefixLength(name, |name|);
    assert name[..|name|] == name;
    assert SameOff(t, t'', name);
    GrowingHeight(t, t', name, b, k, h);
    forall d | 0 <= d < |name|
      ensures t''[name[..d]].body == OldBody(t, name[..d])
      ensures d < k - 1 ==> t''[name[..d]].height == OldHeight(t, name[..d])
      ensures k <= d ==> Dominates(t'', name[..d]) && 0 < t''[name[..d]].height <= MAX_DEPTH - d
    {
      PrefixLength(name, d);
      if k <= d {
        Shorter(name[..d], p);
        SetHeightKeeps(t', p, h, name[..d]);
      }
    }
  }

  lemma Shorter(p: Path, q: Path)
    requires |q| < |p|
    ensures p != q && !IsChild(p, q)
  {
  }

  lemma GrowingHeight(t: Nodes, t': Nodes, name: Path, b: Body, k: nat, h: nat)
    requires Good(t) && Growing(t, t', name, b, k) && 0 < k && |name| <= MAX_DEPTH
    requires name[..k - 1] in t' && IsHeight(t', name[..k - 1], h)
    ensures Dominates(t'[name[..k - 1] := t'[name[..k - 1]].(height := h)], name[..k - 1]) && 0 < h <= MAX_DEPTH - (k - 1)
  {
    var p := name[..k - 1];
    StepChild(name, k - 1);
    PrefixLength(name, k);
    assert name[..k] in t';
    var q :| q in t' && IsChild(p, q) && t'[q].height == h - 1;
    assert t'[q].height + |q| <= MAX_DEPTH by {
      if q <= name {
        PrefixOf(name, q);
        assert name[..|name|] == name;
      } else {
        assert NodeGood(t, q, []);
      }
    }
    HeightDominates(t', p, h);
  }

  lemma HeightDominates(t: Nodes, p: Path, h: nat)
    requires p in t && IsHeight(t, p, h)
    ensures Dominates(t[p := t[p].(height := h)], p)
  {
    forall q | q in t && IsChild(p, q) ensures t[q].height < h && q != p {
    }
  }

  lemma ChildOff(p: Path, q: Path, name: Path)
    requires IsChild(p, q) && !(p <= name)
    ensures !(q <= name)
  {
    assert p <= q;
  }

  /** Off the path to the new entry, nothing has changed. */
  lemma GrownOff(t: Nodes, t': Nodes, name: Path, b: Body, p: Path)
    requires Good(t) && Growing(t, t', name, b, 0) && p in t && !(p <= name)
    ensures NodeGood(t', p, [])
  {
    assert NodeGood(t, p, []);
    forall q | q in t' && IsChild(p, q) ensures q in t && t'[q] == t[q] {
      ChildOff(p, q, name);
    }
    if t[p].height > 0 {
      var q :| q in t && IsChild(p, q);
      assert q in t';
    }
  }

  lemma GrownOn(t: Nodes, t': Nodes, name: Path, b: Body, d: nat)
    requires Growing(t, t', name, b, 0) && d < |name|
    ensures name[..d] in t' && NodeGood(t', name[..d], [])
  {
    PrefixLength(name, d);
    PrefixLength(name, d + 1);
    StepChild(name, d);
    assert name[..d + 1] in t';
  }

  lemma GrownLeaf(t: Nodes, t': Nodes, name: Path, b: Body)
    requires Closed(t) && name !in t && Growing(t, t', name, b, 0) && |name| <= MAX_DEPTH
    ensures NodeGood(t', name, [])
  {
    forall q | q in t' ensures !IsChild(name, q) {
      assert q in t && |q| > 0 ==> q[..|q| - 1] in t;
    }
  }

  lemma GrownClosed(t: Nodes, t': Nodes, name: Path, b: Body)
    requires Closed(t) && Growing(t, t', name, b, 0)
    ensures Closed(t')
  {
    hide Dominates;
    forall q | q in t' && |q| > 0 ensures q[..|q| - 1] in t' {
      if q <= name {
        PrefixOf(name, q);
        PrefixLength(name, |q| - 1);
        assert q[..|q| - 1] == name[..|q| - 1];
      }
    }
  }

  /** With all heights up to date, the tree is well-formed again. */
  lemma GrownGood(t: Nodes, t': Nodes, name: Path, b: Body)
    requires Good(t) && name !in t && Growing(t, t', name, b, 0) && |name| <= MAX_DEPTH
    ensures Good(t')
  {
    hide NodeGood, Dominates;
    GrownClosed(t, t', name, b);
    forall p | p in t' ensures NodeGood(t', p, []) {
      if p == name {
        GrownLeaf(t, t', name, b);
      } else if p <= name {
        PrefixOf(name, p);
        GrownOn(t, t', name, b, |p|);
      } else {
        GrownOff(t, t', name, b, p);
      }
    }
  }

  /** The update for a changed height. */
  function VirtFor(t: Nodes, p: Path, h: nat): (u: Option<VirtUpdate>) {
    if h == OldHeight(t, p) then None
    else Some(VirtUpdate(p, if OldHeight(t, p) == 0 then ActInsert else if h == 0 then ActErase else ActReplace, OldBody(t, p).Some?, h))
  }

  /** The updates of a new entry tell exactly what has become different. */
  lemma GrownDescribes(t: Nodes, t': Nodes, name: Path, b: Body, sd: nat, action: Action)
    requires Growing(t, t', name, b, 0) && name !in t && action != ActErase
    ensures var v := if sd < |name| then VirtFor(t, name[..sd], t'[name[..sd]].height) else None;
      var u := Update(Some(RealUpdate(name, action, b, None)), v);
      ValidUpdate(u) && Describes(u, t, t', sd)
  {
    hide Dominates;
    var v := if sd < |name| then VirtFor(t, name[..sd], t'[name[..sd]].height) else None;
    var u := Update(Some(RealUpdate(name, action, b, None)), v);
    forall p: Path ensures View(t', sd, p) == Effect(u, p, View(t, sd, p)) {
      if p <= name && p != name {
        PrefixOf(name, p);
        var d := |p|;
        assert t'[name[..d]].body == OldBody(t, name[..d]);
        assert Dominates(t', name[..d]) && 0 < t'[name[..d]].height;
      }
    }
  }

  // ------------------------------------------------------------------ removal

  /**
    The body of an entry is gone, and so are the nodes below depth `k` on the way to it; the heights
    are up to date from there down.
   */
  ghost predicate Shrinking(t: Nodes, t': Nodes, name: Path, k: nat) {
    && k <= |name| && GoodExcept(t', name[..k])
    && (forall p: Path :: p in t' <==> p in t && !(p <= name && |p| > k))
    && (forall p | p in t' :: t'[p].body == if p == name then None else OldBody(t, p))
    && (forall p | p in t' && p != name[..k] :: t'[p].height == OldHeight(t, p))
    && name[..k] in t' && t'[name[..k]].height <= OldHeight(t, name[..k])
    && (forall d | k < d < |name| :: OldBody(t, name[..d]).None?)
  }

  lemma ShrinkingStart(t: Nodes, name: Path)
    requires Good(t) && name in t
    ensures Shrinking(t, t[name := t[name].(body := None)], name, |name|)
  {
    hide Dominates, HasChild;
    var t' := t[name := t[name].(body := None)];
    assert name[..|name|] == name;
    forall p | p in t' ensures NodeGood(t', p, name) {
      assert NodeGood(t, p, []);
      SameShapeKeeps(t, t', p);
    }
  }

  /** A leaf has no children. */
  lemma LeafAlone(t: Nodes, c: Path, q: Path)
    requires GoodExcept(t, c) && c in t && t[c].height == 0 && q in t
    ensures !IsChild(c, q)
  {
    assert NodeGood(t, c, c);
  }

  /** A tree without a node, and with the height of its parent changed. */
  function Removed(t: Nodes, c: Path, p: Path, h: nat): (t': Nodes) {
    if p in t then (t - {c})[p := t[p].(height := h)] else t
  }

  lemma NodeOf(t: Nodes, q: Path, c: Path)
    requires GoodExcept(t, c) && q in t
    ensures NodeGood(t, q, c)
  {
  }

  lemma RemovedDominates(t: Nodes, c: Path, p: Path, h: nat, q: Path)
    requires Dominates(t, q) && p in t && p != c && q != c && q != p && h <= t[p].height
    ensures Dominates(Removed(t, c, p, h), q)
  {
    hide IsChild;
  }

  lemma RemovedHasChild(t: Nodes, c: Path, p: Path, h: nat, q: Path)
    requires HasChild(t, q) && p in t && IsChild(p, c) && q != p
    ensures HasChild(Removed(t, c, p, h), q)
  {
    hide IsChild;
    var x :| x in t && IsChild(q, x);
    OneParent(p, q, c);
    assert x in Removed(t, c, p, h);
  }

  lemma RemovedNode(t: Nodes, c: Path, p: Path, h: nat, q: Path)
    requires GoodExcept(t, c) && p in t && IsChild(p, c) && q in t && q != c && q != p && h <= t[p].height
    ensures NodeGood(Removed(t, c, p, h), q, p)
  {
    hide GoodExcept, IsChild, Dominates, HasChild;
    NodeOf(t, q, c);
    Unlike(p, c);
    RemovedDominates(t, c, p, h, q);
    if t[q].height > 0 {
      RemovedHasChild(t, c, p, h, q);
    }
  }

  lemma Unlike(p: Path, c: Path)
    requires IsChild(p, c)
    ensures p != c
  {
  }

  lemma OneParent(p: Path, q: Path, c: Path)
    requires IsChild(p, c) && q != p
    ensures !IsChild(q, c)
  {
  }

  lemma RemovedParent(t: Nodes, c: Path, p: Path, h: nat)
    requires GoodExcept(t, c) && c in t && p in t && IsChild(p, c) && IsHeight(t - {c}, p, h)
    ensures h <= t[p].height && NodeGood(Removed(t, c, p, h), p, p)
  {
    assert NodeGood(t, p, c);
    var t' := Removed(t, c, p, h);
    if h > 0 {
      var x :| x in t - {c} && IsChild(p, x) && t[x].height == h - 1;
      assert x in t' && x != p;
    }
    forall x | x in t' && IsChild(p, x) ensures t'[x].height < h {
      assert x in t - {c} && x != p;
    }
  }

  lemma RemovedGood(t: Nodes, c: Path, p: Path, h: nat)
    requires GoodExcept(t, c) && c in t && t[c].height == 0 && p in t && IsChild(p, c) && IsHeight(t - {c}, p, h)
    ensures h <= t[p].height && GoodExcept(Removed(t, c, p, h), p)
  {
    hide NodeGood, IsHeight;
    var t' := Removed(t, c, p, h);
    RemovedParent(t, c, p, h);
    forall q | q in t' ensures NodeGood(t', q, p) {
      if q != p {
        RemovedNode(t, c, p, h, q);
      }
    }
    forall q | q in t' && |q| > 0 ensures q[..|q| - 1] in t' {
      LeafAlone(t, c, q);
      assert q[..|q| - 1] in t;
    }
  }

  /** One more node that is neither an entry nor on the way to one is gone. */
  lemma ShrinkingStep(t: Nodes, t': Nodes, name: Path, k: nat, h: nat)
    requires Shrinking(t, t', name, k) && 0 < k && t'[name[..k]].body.None? && t'[name[..k]].height == 0
    requires name[..k - 1] in t' && name[..k - 1] != name[..k] && IsHeight(t' - {name[..k]}, name[..k - 1], h)
    ensures Shrinking(t, Removed(t', name[..k], name[..k - 1], h), name, k - 1)
  {
    hide GoodExcept, IsHeight, IsChild;
    StepChild(name, k - 1);
    var c, p := name[..k], name[..k - 1];
    RemovedGood(t', c, p, h);
    var t'' := Removed(t', c, p, h);
    forall q: Path ensures q in t'' <==> q in t && !(q <= name && |q| > k - 1) {
      if q <= name && |q| == k {
        PrefixOf(name, q);
      }
      PrefixLength(name, k);
    }
    PrefixLength(name, k - 1);
    assert p != name;
    assert k < |name| ==> OldBody(t, name[..k]).None?;
  }

  /** When the removal stops, the tree is well-formed again. */
  lemma ShrunkGood(t: Nodes, t': Nodes, name: Path, k: nat)
    requires Shrinking(t, t', name, k) && (k == 0 || t'[name[..k]].body.Some? || t'[name[..k]].height > 0)
    ensures Good(t')
  {
    hide Dominates, HasChild;
    var c := name[..k];
    forall p | p in t' ensures NodeGood(t', p, []) {
      assert NodeGood(t', p, c);
    }
  }

  /** The update of the virtual entry, when the removal has come to depth `k`. */
  function ShrinkingVirt(t: Nodes, t': Nodes, name: Path, k: nat, sd: nat): (u: Option<VirtUpdate>)
    requires k <= |name|
  {
    if !(k <= sd < |name|) then None
    else VirtFor(t, name[..sd], if k == sd then OldHeight(t', name[..sd]) else 0)
  }

  /** The updates of a removed entry tell exactly what has become different. */
  lemma ShrunkDescribes(t: Nodes, t': Nodes, name: Path, k: nat, sd: nat, b: Body)
    requires Good(t) && Shrinking(t, t', name, k) && name in t && !(|name| == sd && OldHeight(t, name) > 0)
    ensures var u := Update(Some(RealUpdate(name, ActErase, b, None)), ShrinkingVirt(t, t', name, k, sd));
      ValidUpdate(u) && Describes(u, t, t', sd)
  {
    hide GoodExcept;
    var u := Update(Some(RealUpdate(name, ActErase, b, None)), ShrinkingVirt(t, t', name, k, sd));
    if sd < |name| {
      PrefixLength(name, sd);
      HighEnough(t, name, sd, []);
    }
    forall p: Path ensures View(t', sd, p) == Effect(u, p, View(t, sd, p)) {
      if p <= name {
        PrefixOf(name, p);
      }
    }
  }

  // ------------------------------------------------------------------ in place

  /** A name as entries have it: every component has a type and a length. */
  predicate ValidName(name: Path) {
    forall i | 0 <= i < |name| :: |name[i]| >= 2
  }

  lemma {:induction false} NotTooDeep(name: Path)
    requires ValidName(name)
    ensures 2 * |name| <= Sum(name)
  {
    if name != [] {
      NotTooDeep(name[1..]);
    }
  }

  class Fib {
    const startDepth: nat
    var nodes: Nodes
    var table: Table

    constructor (startDepth: nat)
      ensures Valid() && Entries(nodes) == map[] && this.startDepth == startDepth
    {
      this.startDepth := startDepth;
      nodes, table := map[[] := Node(None, 0)], map[];
    }

    ghost predicate Valid()
      reads this
    {
      Good(nodes) && Reflects(table, nodes, startDepth)
    }

    /** Bring the heights of the ancestors of a new entry up to date. */
    method UpdateAncestors(name: Path, b: Body, ghost t: Nodes) returns (virt: Option<VirtUpdate>)
      requires Good(t) && name !in t && |name| <= MAX_DEPTH && Growing(t, nodes, name, b, |name|)
      modifies this`nodes
      ensures Growing(t, nodes, name, b, 0)
      ensures virt == if startDepth < |name| then VirtFor(t, name[..startDepth], OldHeight(nodes, name[..startDepth])) else None
    {
      hide Good, Dominates, IsHeight;
      virt := None;
      var depth := |name|;
      while depth > 0
        invariant 0 <= depth <= |name| && Growing(t, nodes, name, b, depth)
        invariant virt == if depth <= startDepth < |name| then VirtFor(t, name[..startDepth], OldHeight(nodes, name[..startDepth])) else None
      {
        var p := name[..depth - 1];
        PrefixLength(name, depth - 1);
        var h := NewHeight(nodes, p);
        GrowingStep(t, nodes, name, b, depth, h);
        var oldHeight, isEntry := nodes[p].height, nodes[p].body.Some?;
        nodes := nodes[p := nodes[p].(height := h)];
        depth := depth - 1;
        if depth == startDepth && oldHeight != h {
          GrowingPositive(t, nodes, name, b, depth);
          virt := Some(VirtUpdate(p, if oldHeight == 0 then ActInsert else ActReplace, isEntry, h));
        }
        Unlike2(name, depth);
      }
    }

    /** Insert or replace an entry of the tree. */
    method TreeInsert(name: Path, b: Body) returns (u: Update)
      requires Good(nodes) && |name| <= MAX_DEPTH
      modifies this`nodes
      ensures Good(nodes) && ValidUpdate(u) && Describes(u, old(nodes), nodes, startDepth)
      ensures Entries(nodes) == Entries(old(nodes))[name := b]
    {
      hide Good, Growing, Describes, GoodExcept;
      ghost var t := nodes;
      TreeClosed(t);
      var isNew;
      nodes, isNew := Seek(nodes, name);
      SoughtName(t, nodes, name);
      var n := nodes[name];
      if n.body == Some(b) {
        Unchanged(t, nodes, name, startDepth);
        return Update(None, None);
      }
      var action := if n.body.Some? then ActReplace else ActInsert;
      if isNew {
        SoughtGrowing(t, nodes, name, b);
        nodes := nodes[name := Node(Some(b), 0)];
        var virt := UpdateAncestors(name, b, t);
        GrownGood(t, nodes, name, b);
        GrownNames(t, nodes, name, b);
        GrownDescribes(t, nodes, name, b, startDepth, action);
        GrownEntries(t, nodes, name, b);
        u := Update(Some(RealUpdate(name, action, b, None)), virt);
      } else {
        Unchanged(t, nodes, name, startDepth);
        BodySet(t, name, Some(b));
        nodes := nodes[name := n.(body := Some(b))];
        u := Update(Some(RealUpdate(name, action, b, if |name| == startDepth && n.height > 0 then Some(n.height) else None)), None);
        ReplacedDescribes(t, name, Some(b), u, startDepth);
        ReplacedEntries(t, name, b);
      }
    }

    /** Insert or replace an entry. */
    method Insert(name: Path, b: Body) returns (ok: bool)
      requires Valid() && ValidName(name)
      modifies this
      ensures Valid() && ok == (Sum(name) <= MAX_NAME_LENGTH)
      ensures Entries(nodes) == if ok then Entries(old(nodes))[name := b] else Entries(old(nodes))
    {
      hide Good, Describes, Reflects, Entries, Sum, GoodExcept;
      NotTooDeep(name);
      ok := Sum(name) <= MAX_NAME_LENGTH;
      if ok {
        ghost var t, was := nodes, table;
        var u := TreeInsert(name, b);
        table := Execute(table, u);
        ExecuteReflects(was, table, u, t, nodes, startDepth);
      }
    }

    /** Remove the nodes that are no longer on the way to an entry, and bring the heights up to date. */
    method RemoveUnused(name: Path, ghost t: Nodes) returns (virt: Option<VirtUpdate>, ghost k: nat)
      requires Good(t) && name in t && Shrinking(t, nodes, name, |name|)
      modifies this`nodes
      ensures Good(nodes) && k <= |name| && Shrinking(t, nodes, name, k) && virt == ShrinkingVirt(t, nodes, name, k, startDepth)
    {
      hide GoodExcept, IsHeight, Good;
      virt := None;
      var depth := |name|;
      while depth > 0 && nodes[name[..depth]].body.None? && Children(nodes, name[..depth]) == {}
        invariant 0 <= depth <= |name| && Shrinking(t, nodes, name, depth) && virt == ShrinkingVirt(t, nodes, name, depth, startDepth)
      {
        var c, p := name[..depth], name[..depth - 1];
        Childless(nodes, c);
        ParentThere(t, nodes, name, depth);
        Unlike2(name, depth - 1);
        var h := NewHeight(nodes - {c}, p);
        ShrinkingStep(t, nodes, name, depth, h);
        var oldHeight, isEntry := nodes[p].height, nodes[p].body.Some?;
        ShrinkingVirtStep(t, nodes, name, depth, h, startDepth);
        nodes := Removed(nodes, c, p, h);
        depth := depth - 1;
        if depth == startDepth && oldHeight != h {
          virt := Some(VirtUpdate(p, if h == 0 then ActErase else ActReplace, isEntry, h));
        }
      }
      k := depth;
      Stopped(nodes, name[..depth], depth);
      ShrunkGood(t, nodes, name, depth);
    }

    /** Erase an entry of the tree. */
    method TreeErase(name: Path) returns (u: Update)
      requires Good(nodes)
      modifies this`nodes
      ensures Good(nodes) && ValidUpdate(u) && Describes(u, old(nodes), nodes, startDepth)
      ensures Entries(nodes) == Entries(old(nodes)) - {name}
    {
      hide Good, GoodExcept, Shrinking;
      ghost var t := nodes;
      if name !in nodes || nodes[name].body.None? {
        return Update(None, None);
      }
      var n := nodes[name];
      if |name| == startDepth && n.height > 0 {
        BodySet(t, name, None);
        nodes := nodes[name := n.(body := None)];
        u := Update(Some(RealUpdate(name, ActErase, 0, Some(n.height))), None);
        ReplacedDescribes(t, name, None, u, startDepth);
        return;
      }
      ShrinkingStart(t, name);
      nodes := nodes[name := n.(body := None)];
      var virt;
      ghost var k;
      virt, k := RemoveUnused(name, t);
      u := Update(Some(RealUpdate(name, ActErase, 0, None)), virt);
      ShrunkDescribes(t, nodes, name, k, startDepth, 0);
      ShrunkEntries(t, nodes, name, k);
    }

    /** Erase an entry, if there is one. */
    method Erase(name: Path)
      requires Valid()
      modifies this
      ensures Valid() && Entries(nodes) == Entries(old(nodes)) - {name}
    {
      hide Good, Describes, Reflects, Entries, GoodExcept;
      ghost var t, was := nodes, table;
      var u := TreeErase(name);
      table := Execute(table, u);
      ExecuteReflects(was, table, u, t, nodes, startDepth);
    }

    /** Longest prefix match, through the table. */
    method Find(name: Path) returns (r: Option<Body>)
      requires Valid()
      ensures r == Longest(Entries(nodes), name, |name|)
    {
      hide Good, Reflects, Shows, Entries;
      ReflectsShows(table, nodes, startDepth);
      r := Lpm(table, startDepth, name, Entries(nodes));
    }
  }

  lemma TreeClosed(t: Nodes)
    requires Good(t)
    ensures Closed(t)
  {
  }

  lemma SoughtName(t: Nodes, t': Nodes, name: Path)
    requires Sought(t, t', name, |name|)
    ensures name in t' && t'[name] == if name in t then t[name] else Node(None, 0)
  {
    assert name <= name;
  }

  lemma GrowingPositive(t: Nodes, t': Nodes, name: Path, b: Body, k: nat)
    requires Growing(t, t', name, b, k) && k < |name|
    ensures name[..k] in t' && t'[name[..k]].height > 0 && t'[name[..k]].body == OldBody(t, name[..k])
  {
    PrefixLength(name, k);
  }

  lemma GrownNames(t: Nodes, t': Nodes, name: Path, b: Body)
    requires Growing(t, t', name, b, 0)
    ensures forall d | 0 <= d <= |name| :: name[..d] in t'
  {
    forall d | 0 <= d <= |name| ensures name[..d] in t' {
      PrefixLength(name, d);
    }
  }

  /** Different depths are different paths. */
  lemma Unlike2(name: Path, k: nat)
    requires k <= |name|
    ensures forall d | 0 <= d <= |name| && d != k :: name[..d] != name[..k]
  {
    forall d | 0 <= d <= |name| && d != k ensures name[..d] != name[..k] {
      PrefixLength(name, d);
      PrefixLength(name, k);
    }
  }

  /** Seeking a name that is there changes nothing. */
  lemma Unchanged(t: Nodes, t': Nodes, name: Path, sd: nat)
    requires Good(t) && Sought(t, t', name, |name|) && name in t
    ensures t' == t && Describes(Update(None, None), t, t', sd)
  {
    hide NodeGood;
    forall p: Path | p <= name ensures p in t {
      PrefixOf(name, p);
      AllPrefixes(t, name, |p|);
    }
    assert t'.Keys == t.Keys;
  }

  lemma ReplacedDescribes(t: Nodes, name: Path, b: Option<Body>, u: Update, sd: nat)
    requires name in t && u.virt.None? && u.real_.Some? && u.real_.value.name == name
    requires u.real_.value.withVirt == if |name| == sd && t[name].height > 0 then Some(t[name].height) else None
    requires if b.Some? then u.real_.value.action != ActErase && u.real_.value.body == b.value else u.real_.value.action == ActErase
    ensures Describes(u, t, t[name := t[name].(body := b)], sd)
  {
  }

  lemma ReplacedEntries(t: Nodes, name: Path, b: Body)
    requires name in t
    ensures Entries(t[name := t[name].(body := Some(b))]) == Entries(t)[name := b]
  {
  }

  lemma GrownEntries(t: Nodes, t': Nodes, name: Path, b: Body)
    requires Growing(t, t', name, b, 0) && name !in t
    ensures Entries(t') == Entries(t)[name := b]
  {
    hide Dominates;
    forall p | p in t' && p != name ensures t'[p].body == OldBody(t, p) {
      if p <= name {
        PrefixOf(name, p);
      }
    }
  }

  lemma Childless(t: Nodes, c: Path)
    requires GoodExcept(t, c) && c in t && Children(t, c) == {}
    ensures t[c].height == 0
  {
    NodeOf(t, c, c);
    assert forall q | q in t && IsChild(c, q) :: q in Children(t, c);
  }

  lemma Stopped(t: Nodes, c: Path, k: nat)
    requires GoodExcept(t, c) && c in t && (k == 0 || t[c].body.Some? || Children(t, c) != {})
    ensures k == 0 || t[c].body.Some? || t[c].height > 0
  {
    if Children(t, c) != {} {
      var q :| q in Children(t, c);
      ChildLower(t, c, q, c);
    }
  }

  lemma ParentThere(t: Nodes, t': Nodes, name: Path, k: nat)
    requires Shrinking(t, t', name, k) && 0 < k
    ensures name[..k - 1] in t' && name[..k - 1] != name[..k]
  {
    hide NodeGood;
    PrefixLength(name, k);
    PrefixLength(name, k - 1);
    assert name[..k][..k - 1] == name[..k - 1];
  }

  lemma ShrinkingVirtStep(t: Nodes, t': Nodes, name: Path, k: nat, h: nat, sd: nat)
    requires Good(t) && name in t && Shrinking(t, t', name, k) && 0 < k && t'[name[..k]].body.None? && t'[name[..k]].height == 0
    requires name[..k - 1] in t' && name[..k - 1] != name[..k]
    ensures var p := name[..k - 1];
      var old_, new_ := ShrinkingVirt(t, t', name, k, sd), ShrinkingVirt(t, Removed(t', name[..k], p, h), name, k - 1, sd);
      new_ == if k - 1 == sd && t'[p].height != h then Some(VirtUpdate(p, if h == 0 then ActErase else ActReplace, t'[p].body.Some?, h)) else old_
  {
    hide GoodExcept, NodeGood;
    PrefixLength(name, k - 1);
    PrefixLength(name, k);
    if sd < |name| {
      HighEnough(t, name, sd, []);
    }
    assert name[..k - 1] != name;
  }

  lemma ShrunkEntries(t: Nodes, t': Nodes, name: Path, k: nat)
    requires Shrinking(t, t', name, k)
    ensures Entries(t') == Entries(t) - {name}
  {
    hide GoodExcept;
    forall p | p in t && p !in t' && p != name ensures t[p].body.None? {
      PrefixOf(name, p);
    }
  }
}

