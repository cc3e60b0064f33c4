/**
  NDNLPv2 reassembly (csrc/iface/reassembler.c).

  The hash table is a map, and the list of partial messages a sequence of their keys; the first key
  belongs to the message that has not been touched for the longest time.  A bitmap of missing
  fragments is a set of indices.
 */
module Reassembler {
  import opened Lists
  import opened Chain
  import opened Lp

  /** A partial message. */
  datatype Partial = Partial(fragCount: nat, missing: set<nat>, frags: map<nat, Frame>) {

    ghost predicate Valid(base: nat) {
      && 1 < fragCount <= MAX_FRAGMENTS && missing != {}
      && (forall i | i in missing :: i < fragCount && i !in frags)
      && (forall i: nat | i < fragCount && i !in missing :: i in frags)
      && (forall i | i in frags :: i < fragCount && frags[i].l2 == L2(base, i, fragCount))
    }
  }

  datatype State = State(
    table: map<nat, Partial>, list: seq<nat>, capacity: nat,
    nDeliverPackets: int, nDeliverFragments: int, nDropFragments: int)

  /** All indices of a message. */
  function Indices(n: nat): (r: set<nat>)
    ensures |r| == n && forall i: nat :: i in r <==> i < n
  {
    if n == 0 then {} else Indices(n - 1) + {n - 1}
  }

  /** The list holds every key of the table once. */
  ghost predicate Ordered(list: seq<nat>, table: map<nat, Partial>) {
    NoDup(list) && forall k :: k in list <==> k in table
  }

  ghost predicate Entries(table: map<nat, Partial>) {
    forall k | k in table :: table[k].Valid(k)
  }

  ghost predicate Good(s: State) {
    s.capacity >= 1 && |s.list| <= s.capacity && Ordered(s.list, s.table) && Entries(s.table)
  }

  // ------------------------------------------------------------------ operations

  function Deleted(s: State, base: nat): (r: State) {
    s.(table := s.table - {base}, list := Without(s.list, base))
  }

  function GivenUp(s: State, base: nat): (r: State)
    requires base in s.table
  {
    var pm := s.table[base];
    Deleted(s, base).(nDropFragments := s.nDropFragments + (pm.fragCount - |pm.missing|))
  }

  /** Make room for one more message. */
  function Evict(s: State): (r: State) {
    if |s.list| >= s.capacity && |s.list| > 0 && s.list[0] in s.table then GivenUp(s, s.list[0]) else s
  }

  /** A message of which one fragment has arrived. */
  function Begin(f: Frame): (pm: Partial) {
    Partial(f.l2.fragCount, Indices(f.l2.fragCount) - {f.l2.fragIndex}, map[f.l2.fragIndex := f])
  }

  function Opened(s: State, f: Frame): (r: State) {
    var s', base := Evict(s), f.l2.seqNumBase;
    s'.(table := s'.table[base := Begin(f)], list := s'.list + [base])
  }

  /** A message of which one more fragment has arrived. */
  function Extend(pm: Partial, f: Frame): (r: Partial) {
    Partial(pm.fragCount, pm.missing - {f.l2.fragIndex}, pm.frags[f.l2.fragIndex := f])
  }

  /** All fragments, in order. */
  function Chained(pm: Partial): (r: seq<Frame>)
    ensures |r| == pm.fragCount
  {
    seq(pm.fragCount, i requires 0 <= i < pm.fragCount => if i in pm.frags then pm.frags[i] else Frame(L3_NONE, L2_NONE, []))
  }

  predicate Acceptable(f: Frame) {
    f.l2.fragIndex < f.l2.fragCount && 1 < f.l2.fragCount <= MAX_FRAGMENTS
  }

  function Dropped(s: State): (r: State) {
    s.(nDropFragments := s.nDropFragments + 1)
  }

  /** Another fragment of a message, and the message is still not complete. */
  function Update(s: State, base: nat, pm: Partial): (r: State) {
    s.(table := s.table[base := pm], list := Without(s.list, base) + [base])
  }

  function Deliver(s: State, base: nat, n: nat): (r: State) {
    Deleted(s, base).(nDeliverPackets := s.nDeliverPackets + 1, nDeliverFragments := s.nDeliverFragments + n)
  }

  /** What becomes of an arriving fragment: the fragments of a whole message, when it was the last missing one. */
  function Accepted(s: State, f: Frame): (r: (State, seq<Frame>)) {
    var base := f.l2.seqNumBase;
    if base !in s.table then
      (Opened(s, f), [])
    else
      var pm := s.table[base];
      if pm.fragCount != f.l2.fragCount then
        (Dropped(GivenUp(s, base)), [])
      else if f.l2.fragIndex !in pm.missing then
        (Dropped(s), [])
      else if Extend(pm, f).missing != {} then
        (Update(s, base, Extend(pm, f)), [])
      else
        (Deliver(s, base, pm.fragCount), Chained(Extend(pm, f)))
  }

  // ------------------------------------------------------------------ invariant

  lemma DeleteOrdered(list: seq<nat>, table: map<nat, Partial>, base: nat)
    requires Ordered(list, table)
    ensures Ordered(Without(list, base), table - {base})
    ensures |Without(list, base)| == |list| - (if base in table then 1 else 0)
  {
    WithoutNoDup(list, base);
  }

  lemma DeleteGood(s: State, base: nat)
    requires Good(s)
    ensures Good(Deleted(s, base)) && base !in Deleted(s, base).table && (base in s.table ==> |Deleted(s, base).list| < s.capacity)
  {
    hide Ordered;
    DeleteOrdered(s.list, s.table, base);
  }

  lemma AppendOrdered(list: seq<nat>, table: map<nat, Partial>, base: nat, pm: Partial)
    requires Ordered(list, table) && base !in table
    ensures Ordered(list + [base], table[base := pm])
  {
  }

  lemma EvictGood(s: State)
    requires Good(s)
    ensures Good(Evict(s)) && |Evict(s).list| < s.capacity == Evict(s).capacity && Evict(s).table.Keys <= s.table.Keys
  {
    if |s.list| >= s.capacity {
      assert s.list[0] in s.list;
      DeleteGood(s, s.list[0]);
    }
  }

  lemma BeginValid(f: Frame)
    requires Acceptable(f)
    ensures Begin(f).Valid(f.l2.seqNumBase)
  {
    var j: nat := if f.l2.fragIndex == 0 then 1 else 0;
    assert j in Begin(f).missing;
  }

  lemma InsertGood(s: State, f: Frame)
    requires Good(s) && Acceptable(f) && f.l2.seqNumBase !in s.table
    ensures Good(Opened(s, f))
  {
    hide Ordered, Evict, Begin, Partial.Valid;
    EvictGood(s);
    var s', base := Evict(s), f.l2.seqNumBase;
    AppendOrdered(s'.list, s'.table, base, Begin(f));
    BeginValid(f);
  }

  lemma UpdateGood(s: State, base: nat, pm: Partial)
    requires Good(s) && base in s.table && pm.Valid(base)
    ensures Good(Update(s, base, pm))
  {
    hide Ordered, Partial.Valid;
    DeleteOrdered(s.list, s.table, base);
    AppendOrdered(Without(s.list, base), s.table - {base}, base, pm);
    assert (s.table - {base})[base := pm] == s.table[base := pm];
  }

  lemma ExtendValid(pm: Partial, f: Frame)
    requires pm.Valid(f.l2.seqNumBase) && pm.fragCount == f.l2.fragCount && f.l2.fragIndex in pm.missing && Extend(pm, f).missing != {}
    ensures Extend(pm, f).Valid(f.l2.seqNumBase)
  {
  }

  /** Every arrival keeps the reassembler well-formed. */
  lemma AcceptGood(s: State, f: Frame)
    requires Good(s) && Acceptable(f)
    ensures Good(Accepted(s, f).0)
  {
    hide Ordered, Partial.Valid, Opened, Update, Extend, Evict;
    var base := f.l2.seqNumBase;
    if base !in s.table {
      InsertGood(s, f);
    } else {
      DeleteGood(s, base);
      var pm := s.table[base];
      if pm.fragCount == f.l2.fragCount && f.l2.fragIndex in pm.missing && Extend(pm, f).missing != {} {
        ExtendValid(pm, f);
        UpdateGood(s, base, Extend(pm, f));
      }
    }
  }

  // ------------------------------------------------------------------ conservation

  function Held(list: seq<nat>, table: map<nat, Partial>): (n: nat) {
    if list == [] then 0 else (if list[0] in table then |table[list[0]].frags| else 0) + Held(list[1..], table)
  }

  /** The fragments that a reassembler has received: held, delivered or dropped. */
  function Received(s: State): (n: int) {
    Held(s.list, s.table) + s.nDeliverFragments + s.nDropFragments
  }

  lemma {:induction false} HeldFrame(list: seq<nat>, t: map<nat, Partial>, t': map<nat, Partial>)
    requires forall k | k in list :: (k in t <==> k in t') && (k in t ==> t[k].frags == t'[k].frags)
    ensures Held(list, t) == Held(list, t')
  {
    if list != [] {
      HeldFrame(list[1..], t, t');
    }
  }

  lemma {:induction false} HeldWithout(list: seq<nat>, t: map<nat, Partial>, k: nat)
    requires NoDup(list) && k in list && k in t
    ensures Held(list, t) == Held(Without(list, k), t) + |t[k].frags|
  {
    if list[0] != k {
      HeldWithout(list[1..], t, k);
      assert ([list[0]] + Without(list[1..], k))[1..] == Without(list[1..], k);
    }
  }

  lemma {:induction false} HeldAppend(list: seq<nat>, t: map<nat, Partial>, k: nat)
    ensures Held(list + [k], t) == Held(list, t) + if k in t then |t[k].frags| else 0
  {
    if list == [] {
      assert [k][1..] == [];
    } else {
      HeldAppend(list[1..], t, k);
      assert (list + [k])[1..] == list[1..] + [k];
    }
  }

  /** Deleting a message gives up the fragments that it holds. */
  lemma HeldDelete(s: State, base: nat)
    requires Good(s) && base in s.table
    ensures Held(s.list, s.table) == Held(Deleted(s, base).list, Deleted(s, base).table) + |s.table[base].frags|
  {
    hide Held, Partial.Valid;
    HeldWithout(s.list, s.table, base);
    WithoutNoDup(s.list, base);
    HeldFrame(Without(s.list, base), s.table, s.table - {base});
  }

  lemma NoLongerListed(s: State, base: nat)
    requires Good(s)
    ensures base !in Without(s.list, base)
  {
    WithoutNoDup(s.list, base);
  }

  lemma HeldPut(list: seq<nat>, t: map<nat, Partial>, base: nat, pm: Partial)
    requires base !in list
    ensures Held(list + [base], t[base := pm]) == Held(list, t) + |pm.frags|
  {
    hide Held;
    HeldAppend(list, t[base := pm], base);
    HeldFrame(list, t, t[base := pm]);
  }

  /** How many fragments a partial message holds, as its bitmap tells. */
  lemma HeldByBitmap(pm: Partial, base: nat)
    requires pm.Valid(base)
    ensures |pm.frags| == pm.fragCount - |pm.missing|
  {
    var all := Indices(pm.fragCount);
    assert pm.frags.Keys == all - pm.missing;
    assert pm.missing <= all;
    assert all == pm.missing + (all - pm.missing);
    assert |all| == |pm.missing| + |all - pm.missing|;
  }

  lemma DropReceived(s: State, base: nat)
    requires Good(s) && base in s.table
    ensures Received(GivenUp(s, base)) == Received(s)
  {
    hide Held, Ordered, Partial.Valid;
    HeldDelete(s, base);
    HeldByBitmap(s.table[base], base);
  }

  lemma EvictReceived(s: State)
    requires Good(s)
    ensures Received(Evict(s)) == Received(s)
  {
    if |s.list| >= s.capacity {
      assert s.list[0] in s.list;
      DropReceived(s, s.list[0]);
    }
  }

  lemma InsertReceived(s: State, f: Frame)
    requires Good(s) && Acceptable(f) && f.l2.seqNumBase !in s.table
    ensures Received(Opened(s, f)) == Received(s) + 1
  {
    hide Held, Partial.Valid, Evict;
    EvictGood(s);
    EvictReceived(s);
    var s', base := Evict(s), f.l2.seqNumBase;
    HeldPut(s'.list, s'.table, base, Begin(f));
    assert |Begin(f).frags| == 1;
  }

  lemma UpdateReceived(s: State, base: nat, pm: Partial)
    requires Good(s) && base in s.table && |pm.frags| == |s.table[base].frags| + 1
    ensures Received(Update(s, base, pm)) == Received(s) + 1
  {
    hide Held, Partial.Valid, Ordered;
    HeldDelete(s, base);
    NoLongerListed(s, base);
    HeldPut(Without(s.list, base), s.table - {base}, base, pm);
    assert (s.table - {base})[base := pm] == s.table[base := pm];
  }

  lemma ExtendSize(pm: Partial, f: Frame)
    requires pm.Valid(f.l2.seqNumBase) && pm.fragCount == f.l2.fragCount && f.l2.fragIndex in pm.missing
    ensures |Extend(pm, f).frags| == |pm.frags| + 1
    ensures Extend(pm, f).missing == {} ==> |pm.frags| + 1 == pm.fragCount
  {
    var i := f.l2.fragIndex;
    assert pm.frags[i := f].Keys == pm.frags.Keys + {i};
    HeldByBitmap(pm, f.l2.seqNumBase);
    if pm.missing - {i} == {} {
      assert pm.missing == {i};
    }
  }

  /** Every arriving fragment is held, delivered or dropped, and only once. */
  lemma AcceptReceived(s: State, f: Frame)
    requires Good(s) && Acceptable(f)
    ensures Received(Accepted(s, f).0) == Received(s) + 1
  {
    hide Held, Ordered, Partial.Valid, Opened, Update, Extend, Evict;
    var base := f.l2.seqNumBase;
    if base !in s.table {
      InsertReceived(s, f);
    } else {
      var pm := s.table[base];
      DropReceived(s, base);
      HeldDelete(s, base);
      if pm.fragCount == f.l2.fragCount && f.l2.fragIndex in pm.missing {
        ExtendSize(pm, f);
        if Extend(pm, f).missing != {} {
          UpdateReceived(s, base, Extend(pm, f));
        }
      }
    }
  }

  // ------------------------------------------------------------------ delivery

  /** A message: its layer 3 fields, and the payloads of its fragments. */
  datatype Message = Message(base: nat, l3: L3, payloads: seq<Bytes>) {

    predicate Valid() {
      1 < |payloads| <= MAX_FRAGMENTS
    }

    /** A fragment as it arrives: the layer 3 fields come with the first one. */
    function Fragment(i: nat): (f: Frame)
      requires i < |payloads|
    {
      Frame(if i == 0 then l3 else L3_NONE, L2(base, i, |payloads|), payloads[i])
    }
  }

  /** All arrivals are fragments, and those with the base of the message are fragments of that message. */
  ghost predicate Arrivals(msg: Message, es: seq<Frame>) {
    forall i | 0 <= i < |es| ::
      && Acceptable(es[i])
      && (es[i].l2.seqNumBase == msg.base ==> es[i].l2.fragIndex < |msg.payloads| && es[i] == msg.Fragment(es[i].l2.fragIndex))
  }

  /** The fragments of the message that are among the arrivals. */
  function Seen(base: nat, es: seq<Frame>): (r: set<nat>) {
    if es == [] then {} else (if es[0].l2.seqNumBase == base then {es[0].l2.fragIndex} else {}) + Seen(base, es[1..])
  }

  /** Of the message, exactly the given fragments have arrived. */
  ghost predicate Progress(s: State, msg: Message, seen: set<nat>) {
    if seen == {} then
      msg.base !in s.table
    else
      && msg.base in s.table && seen < Indices(|msg.payloads|)
      && var pm := s.table[msg.base];
        pm.fragCount == |msg.payloads| && pm.missing == Indices(|msg.payloads|) - seen && pm.frags.Keys == seen
        && forall i | i in seen :: i < |msg.payloads| && pm.frags[i] == msg.Fragment(i)
  }

  /** The arrival throws a message out. */
  predicate Evicts(s: State, f: Frame, base: nat) {
    f.l2.seqNumBase !in s.table && |s.list| >= s.capacity && |s.list| > 0 && s.list[0] == base
  }

  lemma OtherArrival(s: State, f: Frame, msg: Message, seen: set<nat>)
    requires Good(s) && Progress(s, msg, seen) && f.l2.seqNumBase != msg.base && !Evicts(s, f, msg.base)
    ensures Progress(Accepted(s, f).0, msg, seen)
  {
    hide Partial.Valid, Indices, Entries, Ordered;
    var s', base := Accepted(s, f).0, msg.base;
    assert base in s'.table <==> base in s.table;
    assert base in s.table ==> s'.table[base] == s.table[base];
  }

  lemma FirstArrival(s: State, msg: Message, i: nat)
    requires Good(s) && msg.Valid() && msg.base !in s.table && i < |msg.payloads|
    ensures var r := Accepted(s, msg.Fragment(i)); r.1 == [] && Progress(r.0, msg, {i})
  {
    hide Partial.Valid, Entries, Ordered, Evict;
    var n, f := |msg.payloads|, msg.Fragment(i);
    assert |Indices(n)| == n && |{i}| == 1;
    Proper({i}, n);
  }

  lemma NextArrival(s: State, msg: Message, seen: set<nat>, i: nat)
    requires Good(s) && msg.Valid() && Progress(s, msg, seen) && seen != {} && i < |msg.payloads| && i !in seen
    requires seen + {i} != Indices(|msg.payloads|)
    ensures var r := Accepted(s, msg.Fragment(i)); r.1 == [] && Progress(r.0, msg, seen + {i})
  {
    hide Partial.Valid, Entries, Ordered, Evict, Indices;
    var n, f := |msg.payloads|, msg.Fragment(i);
    var pm := s.table[msg.base];
    Proper(seen + {i}, n);
    assert Indices(n) - seen - {i} == Indices(n) - (seen + {i});
    assert pm.frags[i := f].Keys == seen + {i};
  }

  lemma OwnArrival(s: State, msg: Message, seen: set<nat>, i: nat)
    requires Good(s) && msg.Valid() && Progress(s, msg, seen) && i < |msg.payloads| && seen + {i} != Indices(|msg.payloads|)
    ensures var r := Accepted(s, msg.Fragment(i)); r.1 == [] && Progress(r.0, msg, seen + {i})
  {
    hide Partial.Valid, Entries, Ordered, Good, Indices, Extend, Opened;
    if seen == {} {
      assert seen + {i} == {i};
      FirstArrival(s, msg, i);
    } else if i in seen {
      assert seen + {i} == seen;
    } else {
      NextArrival(s, msg, seen, i);
    }
  }

  lemma Proper(seen: set<nat>, n: nat)
    requires seen <= Indices(n) && seen != Indices(n)
    ensures seen < Indices(n) && Indices(n) - seen != {}
  {
    if Indices(n) - seen == {} {
      forall x | x in Indices(n) ensures x in seen {
        assert x !in Indices(n) - seen;
      }
      assert false;
    }
  }

  /** The last missing fragment completes the message. */
  lemma LastArrival(s: State, msg: Message, seen: set<nat>, i: nat)
    requires Good(s) && msg.Valid() && Progress(s, msg, seen) && i < |msg.payloads|
    requires seen != Indices(|msg.payloads|) && seen + {i} == Indices(|msg.payloads|)
    ensures var r := Accepted(s, msg.Fragment(i));
      && msg.base !in r.0.table && |r.1| == |msg.payloads|
      && forall k | 0 <= k < |r.1| :: r.1[k] == msg.Fragment(k)
  {
    hide Partial.Valid, Entries, Ordered;
    var n, f := |msg.payloads|, msg.Fragment(i);
    assert i in seen ==> seen + {i} == seen;
    assert 0 in Indices(n) && 1 in Indices(n);
    var pm := s.table[msg.base];
    assert Indices(n) - seen - {i} == {};
    assert i in pm.missing;
    forall k | 0 <= k < n ensures Chained(Extend(pm, f))[k] == msg.Fragment(k) {
      assert k in seen + {i};
    }
  }

  /** The run of a reassembler. */
  ghost function Run(s: State, es: seq<Frame>): (r: State)
    decreases |es|
  {
    if es == [] then s else Run(Accepted(s, es[0]).0, es[1..])
  }

  /** In the run, no arrival throws the message out. */
  ghost predicate Kept(s: State, es: seq<Frame>, base: nat)
    decreases |es|
  {
    es == [] || (!Evicts(s, es[0], base) && Kept(Accepted(s, es[0]).0, es[1..], base))
  }

  /** What is delivered at each arrival. */
  ghost function Outputs(s: State, es: seq<Frame>): (r: seq<seq<Frame>>)
    ensures |r| == |es|
    decreases |es|
  {
    if es == [] then [] else [Accepted(s, es[0]).1] + Outputs(Accepted(s, es[0]).0, es[1..])
  }

  ghost predicate Unrelated(r: seq<Frame>, base: nat) {
    forall k | 0 <= k < |r| :: r[k].l2.seqNumBase != base
  }

  lemma OtherOutput(s: State, f: Frame, base: nat)
    requires Good(s) && Acceptable(f) && f.l2.seqNumBase != base
    ensures Unrelated(Accepted(s, f).1, base)
  {
    hide Ordered;
    var r := Accepted(s, f).1;
    if r != [] {
      var pm := s.table[f.l2.seqNumBase];
      forall k | 0 <= k < |r| ensures r[k].l2.seqNumBase != base {
        assert k in Extend(pm, f).frags by {
          if k != f.l2.fragIndex {
            assert k !in Extend(pm, f).missing;
          }
        }
      }
    }
  }

  lemma Unfold(s: State, es: seq<Frame>, msg: Message)
    requires es != [] && Arrivals(msg, es)
    ensures var s' := Accepted(s, es[0]).0;
      && Run(s, es) == Run(s', es[1..]) && Outputs(s, es) == [Accepted(s, es[0]).1] + Outputs(s', es[1..])
      && (Kept(s, es, msg.base) <==> !Evicts(s, es[0], msg.base) && Kept(s', es[1..], msg.base))
      && Arrivals(msg, es[1..]) && Acceptable(es[0])
      && if es[0].l2.seqNumBase == msg.base then
        var i := es[0].l2.fragIndex; i < |msg.payloads| && es[0] == msg.Fragment(i) && Seen(msg.base, es) == {i} + Seen(msg.base, es[1..])
      else
        Seen(msg.base, es) == Seen(msg.base, es[1..])
  {
    hide Accepted;
  }

  /** Before a message is complete, nothing of it is delivered. */
  lemma {:induction false} Underway(s: State, es: seq<Frame>, msg: Message, seen: set<nat>)
    requires Good(s) && msg.Valid() && Arrivals(msg, es) && Progress(s, msg, seen) && Kept(s, es, msg.base)
    requires seen + Seen(msg.base, es) != Indices(|msg.payloads|)
    ensures Good(Run(s, es)) && Progress(Run(s, es), msg, seen + Seen(msg.base, es))
    ensures forall i | 0 <= i < |es| :: Unrelated(Outputs(s, es)[i], msg.base)
    decreases |es|
  {
    hide Accepted, Good, Progress, Evicts, Arrivals, Run, Outputs, Kept, Seen, Indices, Message.Fragment;
    if es == [] {
      UnderwayNone(s, msg.base, seen);
    } else {
      var s', rest := Accepted(s, es[0]).0, Seen(msg.base, es[1..]);
      Unfold(s, es, msg);
      AcceptGood(s, es[0]);
      if es[0].l2.seqNumBase == msg.base {
        var i := es[0].l2.fragIndex;
        assert seen + ({i} + rest) == seen + {i} + rest;
        NotYet(seen + {i}, rest, msg, es[1..]);
        OwnArrival(s, msg, seen, i);
        Underway(s', es[1..], msg, seen + {i});
      } else {
        OtherArrival(s, es[0], msg, seen);
        OtherOutput(s, es[0], msg.base);
        Underway(s', es[1..], msg, seen);
      }
    }
  }

  lemma UnderwayNone(s: State, base: nat, seen: set<nat>)
    ensures Run(s, []) == s && seen + Seen(base, []) == seen
  {
  }

  lemma {:induction false} SeenBound(msg: Message, es: seq<Frame>)
    requires Arrivals(msg, es)
    ensures Seen(msg.base, es) <= Indices(|msg.payloads|)
  {
    if es != [] {
      SeenBound(msg, es[1..]);
    }
  }

  lemma NotYet(a: set<nat>, rest: set<nat>, msg: Message, es: seq<Frame>)
    requires Arrivals(msg, es) && rest == Seen(msg.base, es) && a + rest != Indices(|msg.payloads|)
    ensures a != Indices(|msg.payloads|)
  {
    SeenBound(msg, es);
  }

  /**
    Fragments in any order, with duplicates, between those of other messages, deliver the message
    once: nothing before the last missing fragment arrives, and then all of it.
   */
  lemma DeliversOnce(s: State, es: seq<Frame>, last: Frame, msg: Message)
    requires Good(s) && msg.Valid() && msg.base !in s.table && Arrivals(msg, es + [last]) && Kept(s, es, msg.base)
    requires last.l2.seqNumBase == msg.base
    requires Seen(msg.base, es) != Indices(|msg.payloads|)
    requires Seen(msg.base, es) + {last.l2.fragIndex} == Indices(|msg.payloads|)
    ensures forall i | 0 <= i < |es| :: Unrelated(Outputs(s, es)[i], msg.base)
    ensures var r := Accepted(Run(s, es), last);
      && msg.base !in r.0.table && |r.1| == |msg.payloads|
      && forall k | 0 <= k < |r.1| :: r.1[k] == msg.Fragment(k)
  {
    hide Accepted, Good, Outputs, Run, Kept, Seen;
    assert forall i | 0 <= i < |es| :: es[i] == (es + [last])[i];
    assert last == (es + [last])[|es|];
    assert {} + Seen(msg.base, es) == Seen(msg.base, es);
    Underway(s, es, msg, {});
    LastArrival(Run(s, es), msg, Seen(msg.base, es), last.l2.fragIndex);
  }

  // ------------------------------------------------------------------ when a message is kept

  /** Whenever a new message begins, there is room for it. */
  ghost predicate NeverFull(s: State, es: seq<Frame>)
    decreases |es|
  {
    es == [] || ((es[0].l2.seqNumBase in s.table || |s.list| < s.capacity) && NeverFull(Accepted(s, es[0]).0, es[1..]))
  }

  /** While at most `capacity` messages are open, none is thrown out. */
  lemma {:induction false} RoomKeeps(s: State, es: seq<Frame>, base: nat)
    requires NeverFull(s, es)
    ensures Kept(s, es, base)
    decreases |es|
  {
    hide Accepted;
    if es != [] {
      RoomKeeps(Accepted(s, es[0]).0, es[1..], base);
    }
  }

  /** The messages touched since the given one are all in `touched`. */
  ghost predicate TouchedSince(list: seq<nat>, base: nat, touched: set<nat>) {
    forall i, j | 0 <= i < j < |list| && list[i] == base :: list[j] in touched
  }

  lemma {:induction false} WithoutTouched(list: seq<nat>, k: nat, base: nat, touched: set<nat>)
    requires TouchedSince(list, base, touched)
    ensures TouchedSince(Without(list, k), base, touched)
  {
    if list != [] {
      var rest := list[1..];
      assert forall i | 0 <= i < |rest| :: rest[i] == list[i + 1];
      WithoutTouched(rest, k, base, touched);
      if list[0] != k {
        var w := Without(rest, k);
        forall i, j | 0 <= i < j < |w| + 1 && ([list[0]] + w)[i] == base ensures ([list[0]] + w)[j] in touched {
          if i == 0 {
            assert w[j - 1] in rest;
          } else {
            assert w[i - 1] == base;
          }
        }
      }
    }
  }

  lemma AppendTouched(list: seq<nat>, k: nat, base: nat, touched: set<nat>)
    requires TouchedSince(list, base, touched)
    ensures TouchedSince(list + [k], base, touched + {k})
  {
  }

  lemma ArrivalTouched(s: State, f: Frame, base: nat, touched: set<nat>)
    requires TouchedSince(s.list, base, touched)
    ensures TouchedSince(Accepted(s, f).0.list, base, touched + {f.l2.seqNumBase})
  {
    hide TouchedSince, Without, Extend, Begin;
    var k := f.l2.seqNumBase;
    WithoutTouched(s.list, k, base, touched);
    AppendTouched(Without(s.list, k), k, base, touched);
    MoreTouched(s.list, base, touched, k);
    MoreTouched(Without(s.list, k), base, touched, k);
    AppendTouched(s.list, k, base, touched);
    if |s.list| > 0 {
      WithoutTouched(s.list, s.list[0], base, touched);
      AppendTouched(Without(s.list, s.list[0]), k, base, touched);
    }
  }

  lemma MoreTouched(list: seq<nat>, base: nat, touched: set<nat>, k: nat)
    requires TouchedSince(list, base, touched)
    ensures TouchedSince(list, base, touched + {k})
  {
  }

  function Keys(list: seq<nat>): (r: set<nat>)
    ensures forall k :: k in r <==> k in list
  {
    if list == [] then {} else {list[0]} + Keys(list[1..])
  }

  lemma {:induction false} KeysSize(list: seq<nat>)
    requires NoDup(list)
    ensures |Keys(list)| == |list|
  {
    if list != [] {
      KeysSize(list[1..]);
      assert list[0] !in Keys(list[1..]);
    }
  }

  lemma Smaller(a: set<nat>, b: set<nat>)
    requires a <= b
    ensures |a| <= |b|
  {
    assert b == a + (b - a);
    assert |b| == |a| + |b - a|;
  }

  lemma NotThrownOut(s: State, f: Frame, base: nat, touched: set<nat>, all: set<nat>)
    requires Good(s) && TouchedSince(s.list, base, touched)
    requires touched <= all && base in all && f.l2.seqNumBase in all && |all| <= s.capacity
    ensures !Evicts(s, f, base)
  {
    hide Entries, Keys;
    if Evicts(s, f, base) {
      KeysSize(s.list);
      var k := f.l2.seqNumBase;
      assert k !in Keys(s.list);
      forall x | x in Keys(s.list) + {k} ensures x in all {
        if x in s.list && x != base {
          var j :| 0 <= j < |s.list| && s.list[j] == x;
          assert s.list[j] in touched;
        }
      }
      Smaller(Keys(s.list) + {k}, all);
      assert false;
    }
  }

  /** The messages that the arrivals belong to. */
  function Bases(es: seq<Frame>): (r: set<nat>) {
    if es == [] then {} else {es[0].l2.seqNumBase} + Bases(es[1..])
  }

  lemma {:induction false} KeptSince(s: State, es: seq<Frame>, base: nat, touched: set<nat>, all: set<nat>)
    requires Good(s) && TouchedSince(s.list, base, touched) && (forall i | 0 <= i < |es| :: Acceptable(es[i]))
    requires touched <= all && base in all && Bases(es) <= all && |all| <= s.capacity
    ensures Kept(s, es, base)
    decreases |es|
  {
    hide Accepted, Good, Evicts, TouchedSince;
    if es != [] {
      var k := es[0].l2.seqNumBase;
      NotThrownOut(s, es[0], base, touched, all);
      ArrivalTouched(s, es[0], base, touched);
      AcceptGood(s, es[0]);
      SameCapacity(s, es[0]);
      KeptSince(Accepted(s, es[0]).0, es[1..], base, touched + {k}, all);
    }
  }

  lemma SameCapacity(s: State, f: Frame)
    ensures Accepted(s, f).0.capacity == s.capacity
  {
  }

  /** Whatever was open before, at most `capacity` messages at a time do not throw each other out. */
  lemma FewMessagesKeep(s: State, es: seq<Frame>, base: nat)
    requires Good(s) && base !in s.table && (forall i | 0 <= i < |es| :: Acceptable(es[i]))
    requires |Bases(es) + {base}| <= s.capacity
    ensures Kept(s, es, base)
  {
    assert base !in s.list;
    KeptSince(s, es, base, {}, Bases(es) + {base});
  }

  // ------------------------------------------------------------------ in place

  class Reassembler {
    var table: map<nat, Partial>
    var list: seq<nat>
    var count: nat
    const capacity: nat
    var nDeliverPackets: int
    var nDeliverFragments: int
    var nDropFragments: int

    constructor (capacity: nat)
      requires capacity >= 1
      ensures View() == State(map[], [], capacity, 0, 0, 0) && Valid()
    {
      this.capacity := capacity;
      table, list, count := map[], [], 0;
      nDeliverPackets, nDeliverFragments, nDropFragments := 0, 0, 0;
    }

    ghost function View(): (s: State)
      reads this
    {
      State(table, list, capacity, nDeliverPackets, nDeliverFragments, nDropFragments)
    }

    ghost predicate Valid()
      reads this
    {
      Good(View()) && count == |list|
    }

    method Delete(base: nat)
      requires Valid() && base in table
      modifies this
      ensures Valid() && View() == old(Deleted(View(), base))
    {
      DeleteGood(View(), base);
      WithoutNoDup(list, base);
      table := table - {base};
      list := Without(list, base);
      count := count - 1;
    }

    /** Give up a partial message. */
    method Drop(base: nat)
      requires Valid() && base in table
      modifies this
      ensures Valid() && View() == old(GivenUp(View(), base))
    {
      hide Good;
      var pm := table[base];
      Delete(base);
      nDropFragments := nDropFragments + (pm.fragCount - |pm.missing|);
      DropGood(old(View()), base);
    }

    /** Begin a message, after the one that was not touched for the longest time has made room for it. */
    method Insert(f: Frame)
      requires Valid() && Acceptable(f) && f.l2.seqNumBase !in table
      modifies this
      ensures Valid() && View() == old(Opened(View(), f))
    {
      hide Good, Begin;
      ghost var s := View();
      FirstListed(s);
      if count >= capacity {
        Drop(list[0]);
      }
      table := table[f.l2.seqNumBase := Begin(f)];
      list := list + [f.l2.seqNumBase];
      count := count + 1;
      InsertGood(s, f);
    }

    method Reassemble(base: nat, pm: Partial) returns (r: seq<Frame>)
      requires Valid() && base in table
      modifies this
      ensures Valid() && View() == old(Deliver(View(), base, pm.fragCount)) && r == Chained(pm)
    {
      hide Good, Chained;
      Delete(base);
      nDeliverPackets := nDeliverPackets + 1;
      nDeliverFragments := nDeliverFragments + pm.fragCount;
      r := Chained(pm);
      DeliverGood(old(View()), base, pm.fragCount);
    }

    /** An arriving fragment. */
    method Accept(f: Frame) returns (r: seq<Frame>)
      requires Valid() && Acceptable(f)
      modifies this
      ensures Valid() && (View(), r) == old(Accepted(View(), f))
    {
      hide Good, Chained, Extend;
      ghost var s := View();
      AcceptGood(s, f);
      r := [];
      var base := f.l2.seqNumBase;
      if base !in table {
        Insert(f);
        return;
      }
      var pm := table[base];
      if pm.fragCount != f.l2.fragCount {
        Drop(base);
        nDropFragments := nDropFragments + 1;
        return;
      }
      if f.l2.fragIndex !in pm.missing {
        nDropFragments := nDropFragments + 1;
        return;
      }
      var pm' := Extend(pm, f);
      if pm'.missing != {} {
        ListLength(s, base);
        table := table[base := pm'];
        list := Without(list, base) + [base];
        return;
      }
      SameCount(pm, f);
      r := Reassemble(base, pm');
    }
  }

  lemma SameCount(pm: Partial, f: Frame)
    ensures Extend(pm, f).fragCount == pm.fragCount
  {
  }

  lemma DropGood(s: State, base: nat)
    requires Good(s) && base in s.table
    ensures Good(GivenUp(s, base))
  {
    DeleteGood(s, base);
  }

  lemma DeliverGood(s: State, base: nat, n: nat)
    requires Good(s)
    ensures Good(Deliver(s, base, n))
  {
    DeleteGood(s, base);
  }

  lemma FirstListed(s: State)
    requires Good(s)
    ensures |s.list| >= s.capacity ==> |s.list| > 0 && s.list[0] in s.table
  {
    if |s.list| >= s.capacity {
      assert s.list[0] in s.list;
    }
  }

  lemma ListLength(s: State, base: nat)
    requires Good(s) && base in s.table
    ensures |Without(s.list, base) + [base]| == |s.list|
  {
    WithoutNoDup(s.list, base);
  }
}
