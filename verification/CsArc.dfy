/**
  The Adaptive Replacement Cache of the Content Store (csrc/pcct/cs-arc.c).

  An entry is known by a number.  A list is a sequence whose front is the least recently used
  entry; its `count` is its length.  The target size `p` is idealised as a real number.
 */
module CsArc {
  import opened Lists

  type Entry = nat

  /** Which list an entry is in: its `arcList` field. */
  datatype ListId = None | T1 | B1 | T2 | B2 | Del

  /** A cache: its five lists, where each entry is, the target size, the capacity, and who holds Data. */
  datatype Arc = Arc(t1: seq<Entry>, b1: seq<Entry>, t2: seq<Entry>, b2: seq<Entry>, del: seq<Entry>,
                     loc: map<Entry, ListId>, p: real, c: nat, data: set<Entry>)
  {
    function Get(l: ListId): seq<Entry> {
      match l
      case None => []
      case T1 => t1
      case B1 => b1
      case T2 => t2
      case B2 => b2
      case Del => del
    }

    function Set(l: ListId, s: seq<Entry>): Arc {
      match l
      case None => this
      case T1 => this.(t1 := s)
      case B1 => this.(b1 := s)
      case T2 => this.(t2 := s)
      case B2 => this.(b2 := s)
      case Del => this.(del := s)
    }

    function Where(e: Entry): ListId {
      if e in loc then loc[e] else None
    }
  }

  /** Move an entry to the most recently used end of a list, or out of the cache. */
  function Move(a: Arc, e: Entry, dst: ListId): Arc {
    var a' := a.Set(a.Where(e), Without(a.Get(a.Where(e)), e));
    a'.Set(dst, a'.Get(dst) + [e]).(loc := a.loc[e := dst])
  }

  /** Each entry is once in the list that its `arcList` names, and in no other. */
  ghost predicate Listed(a: Arc) {
    forall l | l != None :: ListedIn(a, l)
  }

  ghost predicate ListedIn(a: Arc, l: ListId) {
    NoDup(a.Get(l)) && forall e :: e in a.Get(l) <==> a.Where(e) == l
  }

  /** What a move does to each list. */
  function Moved(s: seq<Entry>, e: Entry, leaves: bool, enters: bool): seq<Entry> {
    (if leaves then Without(s, e) else s) + if enters then [e] else []
  }

  lemma MoveGet(a: Arc, e: Entry, dst: ListId, l: ListId)
    requires l != None
    ensures Move(a, e, dst).Get(l) == Moved(a.Get(l), e, l == a.Where(e), l == dst)
  {
  }

  lemma MovedNoDup(s: seq<Entry>, e: Entry, leaves: bool, enters: bool)
    requires NoDup(s) && (e in s <==> leaves)
    ensures NoDup(Moved(s, e, leaves, enters)) && (e in Moved(s, e, leaves, enters) <==> enters)
    ensures forall x | x != e :: x in Moved(s, e, leaves, enters) <==> x in s
  {
    if leaves { WithoutNoDup(s, e); }
  }

  lemma MoveWhere(a: Arc, e: Entry, dst: ListId)
    ensures Move(a, e, dst).Where(e) == dst
    ensures forall x | x != e :: Move(a, e, dst).Where(x) == a.Where(x)
  {
  }

  lemma MoveListed(a: Arc, e: Entry, dst: ListId)
    requires Listed(a)
    ensures Listed(Move(a, e, dst))
  {
    hide Move, Without, Moved, NoDup, Arc.Where, Arc.Get;
    MoveWhere(a, e, dst);
    forall l | l != None ensures ListedIn(Move(a, e, dst), l) {
      assert ListedIn(a, l);
      MoveGet(a, e, dst, l);
      MovedNoDup(a.Get(l), e, l == a.Where(e), l == dst);
    }
  }

  lemma MoveSizes(a: Arc, e: Entry, dst: ListId)
    requires Listed(a)
    ensures forall l | l != None ::
      |Move(a, e, dst).Get(l)| == |a.Get(l)| - (if l == a.Where(e) then 1 else 0) + (if l == dst then 1 else 0)
  {
    hide Move, NoDup, Arc.Where, Arc.Get;
    forall l | l != None
      ensures |Move(a, e, dst).Get(l)| == |a.Get(l)| - (if l == a.Where(e) then 1 else 0) + (if l == dst then 1 else 0)
    {
      assert ListedIn(a, l);
      MoveGet(a, e, dst, l);
    }
  }

  /** Whether REPLACE takes its victim from T1, as the code decides it from `floor(p)` and `max(1, floor(p))`. */
  predicate PicksT1(a: Arc, isB2: bool) {
    if isB2 then |a.t1| >= (if a.p.Floor >= 1 then a.p.Floor else 1) else |a.t1| > a.p.Floor
  }

  /** REPLACE has a victim. */
  predicate CanReplace(a: Arc, isB2: bool) {
    if PicksT1(a, isB2) then a.t1 != [] else a.t2 != []
  }

  function Victim(a: Arc, isB2: bool): Entry
    requires CanReplace(a, isB2)
  {
    if PicksT1(a, isB2) then a.t1[0] else a.t2[0]
  }

  /** ARC's REPLACE: the least recently used entry of T1 or T2 loses its Data and becomes a ghost. */
  function Replace(a: Arc, isB2: bool): Arc
    requires CanReplace(a, isB2)
  {
    var v := Victim(a, isB2);
    Move(a, v, if PicksT1(a, isB2) then B1 else B2).(data := a.data - {v})
  }

  function Min(x: real, y: real): real {
    if x <= y then x else y
  }

  function Max(x: real, y: real): real {
    if x >= y then x else y
  }

  /** How far a ghost hit moves the target size. */
  function Delta(hit: nat, other: nat): real
    requires hit > 0
  {
    if hit < other then other as real / hit as real else 1.0
  }

  function Total(a: Arc): nat {
    |a.t1| + |a.b1| + |a.t2| + |a.b2|
  }

  function HitB1(a: Arc): Arc
    requires a.b1 != []
  {
    a.(p := Min(a.p + Delta(|a.b1|, |a.b2|), a.c as real))
  }

  function HitB2(a: Arc): Arc
    requires a.b2 != []
  {
    a.(p := Max(a.p - Delta(|a.b2|, |a.b1|), 0.0))
  }

  /** The directory entry that a miss deletes before it calls REPLACE, if any. */
  function Forget(a: Arc): Arc {
    if |a.t1| + |a.b1| == a.c then
      if |a.t1| < a.c && a.b1 != [] then Move(a, a.b1[0], Del) else a
    else if Total(a) == 2 * a.c && a.b2 != [] then Move(a, a.b2[0], Del) else a
  }

  /** Whether a miss calls REPLACE. */
  predicate MissReplaces(a: Arc) {
    if |a.t1| + |a.b1| == a.c then |a.t1| < a.c else Total(a) >= a.c
  }

  /** The front of a list is taken only when that list is not empty. */
  predicate SafeMiss(a: Arc) {
    if MissReplaces(a) then
      && (|a.t1| + |a.b1| == a.c ==> a.b1 != [])
      && (|a.t1| + |a.b1| != a.c && Total(a) == 2 * a.c ==> a.b2 != [])
      && CanReplace(Forget(a), false)
    else
      |a.t1| + |a.b1| == a.c ==> a.t1 != []
  }

  predicate Safe(a: Arc, x: Entry) {
    match a.Where(x)
    case T1 => true
    case T2 => true
    case B1 => a.b1 != [] && CanReplace(HitB1(a), false)
    case B2 => a.b2 != [] && CanReplace(HitB2(a), true)
    case Del => SafeMiss(Move(a, x, None))
    case None => SafeMiss(a)
  }

  /** Make room for an entry that is in no list. */
  function Miss(a: Arc): Arc
    requires SafeMiss(a)
  {
    if MissReplaces(a) then Replace(Forget(a), false)
    else if |a.t1| + |a.b1| == a.c then Move(a.(data := a.data - {a.t1[0]}), a.t1[0], Del)
    else a
  }

  /** One request of the ARC algorithm, cases I to IV of Megiddo and Modha's description. */
  function Request(a: Arc, x: Entry): Arc
    requires Safe(a, x)
  {
    match a.Where(x)
    case T1 => Move(a, x, T2)
    case T2 => Move(a, x, T2)
    case B1 => Move(Replace(HitB1(a), false), x, T2)
    case B2 => Move(Replace(HitB2(a), true), x, T2)
    case Del => Move(Miss(Move(a, x, None)), x, T1)
    case None => Move(Miss(a), x, T1)
  }

  /** The invariant that holds whatever is removed from the cache. */
  ghost predicate Weak(a: Arc) {
    && Listed(a) && a.c >= 1 && 0.0 <= a.p <= a.c as real
    && |a.t1| + |a.b1| <= a.c && |a.t1| + |a.t2| <= a.c && Total(a) <= 2 * a.c
    && (forall e | e in a.data :: a.Where(e) == T1 || a.Where(e) == T2)
  }

  /** The cache is full as soon as there is a ghost. */
  ghost predicate Full(a: Arc) {
    a.b1 != [] || a.b2 != [] ==> |a.t1| + |a.t2| == a.c
  }

  lemma ListedSame(a: Arc, p: real, data: set<Entry>)
    requires Listed(a)
    ensures Listed(a.(p := p, data := data))
    ensures forall e :: a.(p := p, data := data).Where(e) == a.Where(e)
  {
    forall l | l != None ensures ListedIn(a.(p := p, data := data), l) {
      assert ListedIn(a, l);
    }
  }

  lemma ReplaceKeeps(a: Arc, isB2: bool)
    requires Weak(a) && CanReplace(a, isB2)
    ensures var a' := Replace(a, isB2);
      && Weak(a') && |a'.t1| + |a'.t2| == |a.t1| + |a.t2| - 1
      && |a'.t1| + |a'.b1| == |a.t1| + |a.b1| && |a'.t2| + |a'.b2| == |a.t2| + |a.b2|
      && (forall x | a.Where(x) != T1 && a.Where(x) != T2 :: a'.Where(x) == a.Where(x))
      && a'.p == a.p && a'.c == a.c
  {
    var v := Victim(a, isB2);
    var dst := if PicksT1(a, isB2) then B1 else B2;
    assert ListedIn(a, T1) && ListedIn(a, T2);
    assert v in a.Get(T1) || v in a.Get(T2);
    MoveListed(a, v, dst);
    MoveWhere(a, v, dst);
    MoveSizes(a, v, dst);
    var m := Move(a, v, dst);
    ListedSame(m, m.p, a.data - {v});
    hide Listed, ListedIn, Without;
    assert |m.Get(T1)| == |m.t1| && |m.Get(B1)| == |m.b1| && |m.Get(T2)| == |m.t2| && |m.Get(B2)| == |m.b2|;
  }

  /** A move keeps the lists consistent and changes two of their lengths. */
  lemma MoveCounts(a: Arc, e: Entry, dst: ListId)
    requires Listed(a)
    ensures var m, w := Move(a, e, dst), a.Where(e);
      && Listed(m) && m.p == a.p && m.c == a.c && m.data == a.data
      && |m.t1| == |a.t1| - (if w == T1 then 1 else 0) + (if dst == T1 then 1 else 0)
      && |m.b1| == |a.b1| - (if w == B1 then 1 else 0) + (if dst == B1 then 1 else 0)
      && |m.t2| == |a.t2| - (if w == T2 then 1 else 0) + (if dst == T2 then 1 else 0)
      && |m.b2| == |a.b2| - (if w == B2 then 1 else 0) + (if dst == B2 then 1 else 0)
      && m.Where(e) == dst && (forall x | x != e :: m.Where(x) == a.Where(x))
  {
    MoveListed(a, e, dst);
    MoveWhere(a, e, dst);
    MoveSizes(a, e, dst);
    var m := Move(a, e, dst);
    hide Listed, ListedIn, Without;
    assert |m.Get(T1)| == |m.t1| && |m.Get(B1)| == |m.b1| && |m.Get(T2)| == |m.t2| && |m.Get(B2)| == |m.b2|;
  }

  lemma FrontWhere(a: Arc)
    requires Listed(a)
    ensures a.t1 != [] ==> a.Where(a.t1[0]) == T1
    ensures a.b1 != [] ==> a.Where(a.b1[0]) == B1
    ensures a.t2 != [] ==> a.Where(a.t2[0]) == T2
    ensures a.b2 != [] ==> a.Where(a.b2[0]) == B2
  {
    assert ListedIn(a, T1) && ListedIn(a, B1) && ListedIn(a, T2) && ListedIn(a, B2);
    assert a.t1 == a.Get(T1) && a.b1 == a.Get(B1) && a.t2 == a.Get(T2) && a.b2 == a.Get(B2);
  }

  lemma ForgetKeeps(a: Arc)
    requires Weak(a) && SafeMiss(a) && MissReplaces(a)
    ensures var a' := Forget(a);
      && Weak(a') && |a'.t1| == |a.t1| && |a'.t2| == |a.t2| && a'.c == a.c
      && |a'.t1| + |a'.b1| <= a.c - 1 && Total(a') <= 2 * a.c - 1
      && (forall x | a.Where(x) == None :: a'.Where(x) == None)
  {
    hide Listed, Without, Move, Arc.Where;
    FrontWhere(a);
    if |a.t1| + |a.b1| == a.c {
      MoveCounts(a, a.b1[0], Del);
    } else if Total(a) == 2 * a.c {
      MoveCounts(a, a.b2[0], Del);
    }
  }

  lemma MissKeeps(a: Arc)
    requires Weak(a) && SafeMiss(a)
    ensures var a' := Miss(a);
      && Weak(a') && a'.c == a.c
      && |a'.t1| + |a'.b1| <= a.c - 1 && |a'.t1| + |a'.t2| <= a.c - 1 && Total(a') <= 2 * a.c - 1
      && (Full(a) ==> (a'.b1 == [] && a'.b2 == []) || |a'.t1| + |a'.t2| == a.c - 1)
      && (forall x | a.Where(x) == None :: a'.Where(x) == None)
  {
    hide Listed, Without, Move, Arc.Where, PicksT1;
    FrontWhere(a);
    if MissReplaces(a) {
      ForgetKeeps(a);
      ReplaceKeeps(Forget(a), false);
    } else if |a.t1| + |a.b1| == a.c {
      var v := a.t1[0];
      ListedSame(a, a.p, a.data - {v});
      MoveCounts(a.(data := a.data - {v}), v, Del);
    }
  }

  lemma GhostHitKeeps(a: Arc, x: Entry, p: real, isB2: bool)
    requires Weak(a) && 0.0 <= p <= a.c as real && CanReplace(a.(p := p), isB2)
    requires a.Where(x) == if isB2 then B2 else B1
    ensures var a' := Move(Replace(a.(p := p), isB2), x, T2);
      Weak(a') && a'.c == a.c && (Full(a) ==> Full(a')) && a'.Where(x) == T2
  {
    hide Listed, Without, Move, Arc.Where, PicksT1, Replace;
    ListedSame(a, p, a.data);
    ReplaceKeeps(a.(p := p), isB2);
    MoveCounts(Replace(a.(p := p), isB2), x, T2);
  }

  /** A request keeps the bounds, and keeps the cache full while there are ghosts. */
  lemma RequestKeeps(a: Arc, x: Entry)
    requires Weak(a) && Safe(a, x)
    ensures Weak(Request(a, x)) && Request(a, x).c == a.c && (Full(a) ==> Full(Request(a, x)))
    ensures Request(a, x).Where(x) == T1 || Request(a, x).Where(x) == T2
  {
    hide Listed, Without, Move, Arc.Where, PicksT1, SafeMiss, Replace, Miss;
    match a.Where(x)
    case T1 => MoveCounts(a, x, T2);
    case T2 => MoveCounts(a, x, T2);
    case B1 => GhostHitKeeps(a, x, HitB1(a).p, false);
    case B2 => GhostHitKeeps(a, x, HitB2(a).p, true);
    case Del =>
      MoveCounts(a, x, None);
      MissKeeps(Move(a, x, None));
      MoveCounts(Miss(Move(a, x, None)), x, T1);
    case None =>
      MissKeeps(a);
      MoveCounts(Miss(a), x, T1);
  }

  lemma ListedNonEmpty(a: Arc, x: Entry)
    requires Listed(a)
    ensures a.Where(x) == B1 ==> a.b1 != []
    ensures a.Where(x) == B2 ==> a.b2 != []
  {
    assert ListedIn(a, B1) && ListedIn(a, B2);
    assert a.b1 == a.Get(B1) && a.b2 == a.Get(B2);
  }

  /** A request that calls REPLACE on a T1 that the target size protects. */
  predicate CallsReplaceOnT2(a: Arc, x: Entry) {
    match a.Where(x)
    case T1 => false
    case T2 => false
    case B1 => a.b1 != [] && |a.t1| <= HitB1(a).p.Floor
    case B2 => a.b2 != [] && |a.t1| < (if HitB2(a).p.Floor >= 1 then HitB2(a).p.Floor else 1)
    case Del => MissReplaces(a) && |a.t1| <= a.p.Floor
    case None => MissReplaces(a) && |a.t1| <= a.p.Floor
  }

  /** When a request would take the front of an empty list: exactly when REPLACE turns to T2 and T2 is empty. */
  lemma FaultsExactly(a: Arc, x: Entry)
    requires Weak(a)
    ensures !Safe(a, x) <==> a.t2 == [] && CallsReplaceOnT2(a, x)
  {
    hide Listed, Without, Move, Arc.Where;
    ListedNonEmpty(a, x);
    if a.Where(x) == Del {
      MoveCounts(a, x, None);
      MissFaults(Move(a, x, None));
    } else if a.Where(x) == None {
      MissFaults(a);
    }
  }

  lemma MissFaults(a: Arc)
    requires Weak(a)
    ensures !SafeMiss(a) <==> MissReplaces(a) && a.t2 == [] && |a.t1| <= a.p.Floor
  {
    hide Listed, Without, Move, Arc.Where;
    FrontWhere(a);
    if MissReplaces(a) {
      if |a.t1| + |a.b1| == a.c {
        MoveCounts(a, a.b1[0], Del);
      } else if Total(a) == 2 * a.c {
        MoveCounts(a, a.b2[0], Del);
      }
    }
  }

  /** As long as the cache is full while it has ghosts, no request fails. */
  lemma FullIsSafe(a: Arc, x: Entry)
    requires Weak(a) && Full(a)
    ensures Safe(a, x)
  {
    hide Listed, Without, Move, Arc.Where, Safe;
    FaultsExactly(a, x);
    ListedNonEmpty(a, x);
    if a.Where(x) == B1 { FloorAtMost(HitB1(a).p, a.c); }
    if a.Where(x) == B2 { FloorAtMost(HitB2(a).p, a.c); }
  }

  lemma FloorAtMost(p: real, c: nat)
    requires p <= c as real
    ensures p.Floor <= c
  {
  }

  /** Take an entry out of the cache. */
  function Remove(a: Arc, e: Entry): Arc {
    Move(a, e, None).(data := a.data - {e})
  }

  /** Removing a ghost or a deleted entry is harmless; removing a stored one is, exactly when there are no ghosts. */
  lemma RemoveKeeps(a: Arc, e: Entry)
    requires Weak(a) && Full(a) && a.Where(e) != None
    ensures Weak(Remove(a, e))
    ensures Full(Remove(a, e)) <==>
      a.Where(e) == B1 || a.Where(e) == B2 || a.Where(e) == Del || (a.b1 == [] && a.b2 == [])
  {
    hide Listed, Without, Move, Arc.Where;
    MoveCounts(a, e, None);
    ListedSame(Move(a, e, None), a.p, a.data - {e});
  }

  function Empty(c: nat): Arc {
    Arc([], [], [], [], [], map[], 0.0, c, {})
  }

  /** ARC's own rule for REPLACE, for a target size `p`. */
  predicate ArcPicksT1(nT1: nat, p: real, isB2: bool) {
    nT1 >= 1 && ((isB2 && nT1 as real == p) || nT1 as real > p)
  }

  /** The code follows ARC's rule with `p` rounded down. */
  lemma PicksAsArcRounded(a: Arc, isB2: bool)
    requires a.p >= 0.0
    ensures PicksT1(a, isB2) <==> ArcPicksT1(|a.t1|, a.p.Floor as real, isB2)
  {
  }

  /** It departs from ARC's rule with the exact `p` in one case only: a B2 hit when T1 is the rounded target, and rounding lost something. */
  lemma PicksAsArcExactly(a: Arc, isB2: bool)
    requires a.p >= 0.0
    ensures (PicksT1(a, isB2) <==> ArcPicksT1(|a.t1|, a.p, isB2)) <==>
      !(isB2 && |a.t1| >= 1 && |a.t1| == a.p.Floor && a.p != a.p.Floor as real)
  {
    assert a.p.Floor as real <= a.p < (a.p.Floor + 1) as real;
  }

  // Recency: the order of the lists is the order of the last access.

  ghost predicate Increasing(s: seq<Entry>, last: map<Entry, int>) {
    && (forall e | e in s :: e in last)
    && (forall i, j | 0 <= i < j < |s| :: s[i] in last && s[j] in last && last[s[i]] < last[s[j]])
  }

  ghost predicate Before(s: seq<Entry>, last: map<Entry, int>, now: int) {
    forall e | e in s :: e in last && last[e] < now
  }

  /** Ghosts of a kind followed by the stored entries of that kind are in the order of their last accesses. */
  ghost predicate Recent(a: Arc, last: map<Entry, int>, now: int) {
    && Increasing(a.b1 + a.t1, last) && Before(a.b1 + a.t1, last, now)
    && Increasing(a.b2 + a.t2, last) && Before(a.b2 + a.t2, last, now)
  }

  lemma IncreasingCons(e: Entry, s: seq<Entry>, last: map<Entry, int>)
    requires e in last && Increasing(s, last) && (forall x | x in s :: last[e] < last[x])
    ensures Increasing([e] + s, last)
  {
  }

  lemma IncreasingTail(s: seq<Entry>, last: map<Entry, int>)
    requires s != [] && Increasing(s, last)
    ensures s[0] in last && Increasing(s[1..], last) && (forall x | x in s[1..] :: last[s[0]] < last[x])
  {
    assert s[0] in s;
  }

  lemma {:induction false} IncreasingWithout(s: seq<Entry>, e: Entry, last: map<Entry, int>)
    requires Increasing(s, last)
    ensures Increasing(Without(s, e), last)
  {
    if s != [] {
      hide Increasing;
      IncreasingTail(s, last);
      if s[0] != e {
        IncreasingWithout(s[1..], e, last);
        IncreasingCons(s[0], Without(s[1..], e), last);
      }
    }
  }

  lemma {:induction false} WithoutConcat(s: seq<Entry>, t: seq<Entry>, e: Entry)
    ensures Without(s + t, e) == if e in s then Without(s, e) + t else s + Without(t, e)
  {
    if s == [] {
      assert s + t == t;
    } else {
      assert s + t == [s[0]] + (s[1..] + t);
      WithoutConcat(s[1..], t, e);
    }
  }

  /** An entry is accessed: it goes to the end of its list, with the time of the access. */
  lemma IncreasingMoved(s: seq<Entry>, e: Entry, leaves: bool, enters: bool, last: map<Entry, int>, now: int)
    requires Increasing(s, last) && Before(s, last, now) && NoDup(s) && (e in s <==> leaves)
    ensures var s', last' := Moved(s, e, leaves, enters), last[e := now];
      Increasing(s', last') && Before(s', last', now + 1)
  {
    if leaves { IncreasingWithout(s, e, last); WithoutNoDup(s, e); }
    var r := if leaves then Without(s, e) else s;
    assert e !in r && Increasing(r, last) && Before(r, last, now);
    IncreasingAppend(r, e, last, now);
    assert r + [] == r;
  }

  lemma IncreasingAppend(s: seq<Entry>, e: Entry, last: map<Entry, int>, now: int)
    requires e !in s && Increasing(s, last) && Before(s, last, now)
    ensures Increasing(s, last[e := now]) && Before(s, last[e := now], now + 1)
    ensures Increasing(s + [e], last[e := now]) && Before(s + [e], last[e := now], now + 1)
  {
    forall i | 0 <= i < |s| ensures s[i] != e && last[s[i]] < now {
      assert s[i] in s;
    }
  }

  /** The two recency orders of a cache. */
  function L1(a: Arc): seq<Entry> { a.b1 + a.t1 }

  function L2(a: Arc): seq<Entry> { a.b2 + a.t2 }

  lemma OrdersNoDup(a: Arc)
    requires Listed(a)
    ensures NoDup(L1(a)) && NoDup(L2(a))
    ensures forall e :: e in L1(a) <==> a.Where(e) == B1 || a.Where(e) == T1
    ensures forall e :: e in L2(a) <==> a.Where(e) == B2 || a.Where(e) == T2
  {
    assert ListedIn(a, T1) && ListedIn(a, B1) && ListedIn(a, T2) && ListedIn(a, B2);
    assert a.t1 == a.Get(T1) && a.b1 == a.Get(B1) && a.t2 == a.Get(T2) && a.b2 == a.Get(B2);
    NoDupConcat(a.b1, a.t1);
    NoDupConcat(a.b2, a.t2);
  }

  lemma NoDupConcat(s: seq<Entry>, t: seq<Entry>)
    requires NoDup(s) && NoDup(t) && (forall e | e in s :: e !in t)
    ensures NoDup(s + t)
  {
    forall i, j | 0 <= i < j < |s + t| ensures (s + t)[i] != (s + t)[j] {
      if i < |s| <= j { assert s[i] in s && t[j - |s|] in t; }
    }
  }

  /** A move to T1, T2, the deleted entries or nowhere, seen on the two orders. */
  lemma MoveOrders(a: Arc, e: Entry, dst: ListId)
    requires Listed(a) && dst != B1 && dst != B2
    ensures L1(Move(a, e, dst)) == Moved(L1(a), e, e in L1(a), dst == T1)
    ensures L2(Move(a, e, dst)) == Moved(L2(a), e, e in L2(a), dst == T2)
  {
    OrdersNoDup(a);
    WhereLists(a, e);
    MoveGet(a, e, dst, T1);
    MoveGet(a, e, dst, B1);
    MoveGet(a, e, dst, T2);
    MoveGet(a, e, dst, B2);
    hide Listed, Without, Move, Moved, NoDup, Arc.Where;
    MovedConcat(a.b1, a.t1, e, a.Where(e) == B1, a.Where(e) == T1, dst == T1);
    MovedConcat(a.b2, a.t2, e, a.Where(e) == B2, a.Where(e) == T2, dst == T2);
  }

  lemma WhereLists(a: Arc, e: Entry)
    requires Listed(a)
    ensures (e in a.t1 <==> a.Where(e) == T1) && (e in a.b1 <==> a.Where(e) == B1)
    ensures (e in a.t2 <==> a.Where(e) == T2) && (e in a.b2 <==> a.Where(e) == B2)
  {
    assert ListedIn(a, T1) && ListedIn(a, B1) && ListedIn(a, T2) && ListedIn(a, B2);
    assert a.t1 == a.Get(T1) && a.b1 == a.Get(B1) && a.t2 == a.Get(T2) && a.b2 == a.Get(B2);
  }

  lemma MovedConcat(s: seq<Entry>, t: seq<Entry>, e: Entry, inS: bool, inT: bool, enters: bool)
    requires (e in s <==> inS) && (e in t <==> inT) && !(inS && inT)
    ensures Moved(s, e, inS, false) + Moved(t, e, inT, enters) == Moved(s + t, e, inS || inT, enters)
  {
    WithoutConcat(s, t, e);
  }

  /** REPLACE does not change the two orders at all: it only moves the line between ghosts and stored entries. */
  lemma ReplaceOrders(a: Arc, isB2: bool)
    requires Listed(a) && CanReplace(a, isB2)
    ensures L1(Replace(a, isB2)) == L1(a) && L2(Replace(a, isB2)) == L2(a)
  {
    var v := Victim(a, isB2);
    FrontWhere(a);
    var m := Replace(a, isB2);
    if PicksT1(a, isB2) {
      assert Without(a.t1, v) == a.t1[1..];
      assert m.t1 == a.t1[1..] && m.b1 == a.b1 + [v];
    } else {
      assert Without(a.t2, v) == a.t2[1..];
      assert m.t2 == a.t2[1..] && m.b2 == a.b2 + [v];
    }
  }

  lemma OrdersRecent(a: Arc, last: map<Entry, int>, now: int)
    ensures Recent(a, last, now) <==>
      Increasing(L1(a), last) && Before(L1(a), last, now) && Increasing(L2(a), last) && Before(L2(a), last, now)
  {
  }

  /** Accessing an entry keeps the recency orders. */
  lemma AccessRecent(a: Arc, x: Entry, dst: ListId, last: map<Entry, int>, now: int)
    requires Listed(a) && (dst == T1 || dst == T2) && Recent(a, last, now)
    ensures Recent(Move(a, x, dst), last[x := now], now + 1)
  {
    hide Listed, Without, Move, Moved, NoDup, Arc.Where, Increasing, Before;
    OrdersNoDup(a);
    MoveOrders(a, x, dst);
    IncreasingMoved(L1(a), x, x in L1(a), dst == T1, last, now);
    IncreasingMoved(L2(a), x, x in L2(a), dst == T2, last, now);
    OrdersRecent(Move(a, x, dst), last[x := now], now + 1);
  }

  /** Taking an entry out of the orders keeps the rest in order. */
  lemma DropRecent(a: Arc, e: Entry, dst: ListId, last: map<Entry, int>, now: int)
    requires Listed(a) && (dst == Del || dst == None) && Recent(a, last, now)
    ensures Recent(Move(a, e, dst), last, now)
  {
    OrdersNoDup(a);
    hide Listed, Move, NoDup, Arc.Where, Increasing;
    MoveOrders(a, e, dst);
    IncreasingWithout(L1(a), e, last);
    IncreasingWithout(L2(a), e, last);
    OrdersRecent(Move(a, e, dst), last, now);
    assert Moved(L1(a), e, true, false) == Without(L1(a), e) && Moved(L2(a), e, true, false) == Without(L2(a), e);
    assert Moved(L1(a), e, false, false) == L1(a) && Moved(L2(a), e, false, false) == L2(a);
  }

  lemma SameRecent(a: Arc, a': Arc, last: map<Entry, int>, now: int)
    requires Recent(a, last, now) && L1(a') == L1(a) && L2(a') == L2(a)
    ensures Recent(a', last, now)
  {
  }

  lemma MissRecent(a: Arc, last: map<Entry, int>, now: int)
    requires Weak(a) && SafeMiss(a) && Recent(a, last, now)
    ensures Recent(Miss(a), last, now)
  {
    hide Listed, Without, Move, Arc.Where, PicksT1, Recent;
    if MissReplaces(a) {
      ForgetKeeps(a);
      if |a.t1| + |a.b1| == a.c {
        DropRecent(a, a.b1[0], Del, last, now);
      } else if Total(a) == 2 * a.c {
        DropRecent(a, a.b2[0], Del, last, now);
      }
      ReplaceOrders(Forget(a), false);
      SameRecent(Forget(a), Miss(a), last, now);
    } else if |a.t1| + |a.b1| == a.c {
      var a0 := a.(data := a.data - {a.t1[0]});
      ListedSame(a, a.p, a0.data);
      SameRecent(a, a0, last, now);
      DropRecent(a0, a.t1[0], Del, last, now);
    }
  }

  /** A request keeps the recency orders: the entry becomes the most recent one, and no other entry changes places. */
  lemma RequestRecent(a: Arc, x: Entry, last: map<Entry, int>, now: int)
    requires Weak(a) && Safe(a, x) && Recent(a, last, now)
    ensures Recent(Request(a, x), last[x := now], now + 1)
  {
    hide Listed, Without, Move, Arc.Where, PicksT1, SafeMiss, Replace, Miss, Recent;
    match a.Where(x)
    case T1 => AccessRecent(a, x, T2, last, now);
    case T2 => AccessRecent(a, x, T2, last, now);
    case B1 => GhostHitRecent(a, x, HitB1(a).p, false, last, now);
    case B2 => GhostHitRecent(a, x, HitB2(a).p, true, last, now);
    case Del =>
      MoveCounts(a, x, None);
      DropRecent(a, x, None, last, now);
      MissKeeps(Move(a, x, None));
      MissRecent(Move(a, x, None), last, now);
      AccessRecent(Miss(Move(a, x, None)), x, T1, last, now);
    case None =>
      MissKeeps(a);
      MissRecent(a, last, now);
      AccessRecent(Miss(a), x, T1, last, now);
  }

  lemma GhostHitRecent(a: Arc, x: Entry, p: real, isB2: bool, last: map<Entry, int>, now: int)
    requires Weak(a) && 0.0 <= p <= a.c as real && CanReplace(a.(p := p), isB2) && Recent(a, last, now)
    ensures Recent(Move(Replace(a.(p := p), isB2), x, T2), last[x := now], now + 1)
  {
    hide Listed, Without, Move, Arc.Where, PicksT1, Replace, Recent;
    ListedSame(a, p, a.data);
    ReplaceKeeps(a.(p := p), isB2);
    ReplaceOrders(a.(p := p), isB2);
    SameRecent(a, Replace(a.(p := p), isB2), last, now);
    AccessRecent(Replace(a.(p := p), isB2), x, T2, last, now);
  }

  // Data: which entries hold a packet.

  predicate Stores(a: Arc, e: Entry) {
    a.Where(e) == T1 || a.Where(e) == T2
  }

  /** Every stored entry, except possibly the given one, holds Data. */
  ghost predicate HoldBut(a: Arc, x: Entry) {
    forall e | e != x && Stores(a, e) :: e in a.data
  }

  /** Exactly the stored entries hold Data: every stored entry does, and no ghost or deleted entry. */
  ghost predicate Exact(a: Arc) {
    forall e :: e in a.data <==> Stores(a, e)
  }

  lemma MoveHold(a: Arc, e: Entry, dst: ListId, x: Entry)
    requires HoldBut(a, x) && (e == x || (dst != T1 && dst != T2))
    ensures HoldBut(Move(a, e, dst), x)
  {
    hide Without;
    MoveWhere(a, e, dst);
  }

  lemma ReplaceHold(a: Arc, isB2: bool, x: Entry)
    requires HoldBut(a, x) && CanReplace(a, isB2)
    ensures HoldBut(Replace(a, isB2), x)
  {
    hide Without;
    MoveWhere(a, Victim(a, isB2), if PicksT1(a, isB2) then B1 else B2);
  }

  lemma MissHold(a: Arc, x: Entry)
    requires HoldBut(a, x) && SafeMiss(a)
    ensures HoldBut(Miss(a), x)
  {
    hide Without, Move, HoldBut, PicksT1, Replace;
    if MissReplaces(a) {
      if |a.t1| + |a.b1| == a.c {
        MoveHold(a, a.b1[0], Del, x);
      } else if Total(a) == 2 * a.c {
        MoveHold(a, a.b2[0], Del, x);
      }
      ReplaceHold(Forget(a), false, x);
    } else if |a.t1| + |a.b1| == a.c {
      DeleteHold(a, a.t1[0], x);
    }
  }

  lemma DeleteHold(a: Arc, v: Entry, x: Entry)
    requires HoldBut(a, x)
    ensures HoldBut(Move(a.(data := a.data - {v}), v, Del), x)
  {
    hide Without;
    MoveWhere(a.(data := a.data - {v}), v, Del);
  }

  /** A request takes Data from nobody but those that it makes ghosts or deletes. */
  lemma RequestHold(a: Arc, x: Entry)
    requires HoldBut(a, x) && Safe(a, x)
    ensures HoldBut(Request(a, x), x)
  {
    hide Without, Move, HoldBut, PicksT1, Replace, Miss, SafeMiss, Arc.Where;
    match a.Where(x)
    case T1 => MoveHold(a, x, T2, x);
    case T2 => MoveHold(a, x, T2, x);
    case B1 =>
      SameHold(a, HitB1(a).p, x);
      ReplaceHold(HitB1(a), false, x);
      MoveHold(Replace(HitB1(a), false), x, T2, x);
    case B2 =>
      SameHold(a, HitB2(a).p, x);
      ReplaceHold(HitB2(a), true, x);
      MoveHold(Replace(HitB2(a), true), x, T2, x);
    case Del =>
      MoveHold(a, x, None, x);
      MissHold(Move(a, x, None), x);
      MoveHold(Miss(Move(a, x, None)), x, T1, x);
    case None =>
      MissHold(a, x);
      MoveHold(Miss(a), x, T1, x);
  }

  lemma SameHold(a: Arc, p: real, x: Entry)
    requires HoldBut(a, x)
    ensures HoldBut(a.(p := p), x)
  {
  }

  // Whole runs.

  /** A Data packet is put in an entry, an entry with Data is found, or an entry is erased. */
  datatype Op = Put(e: Entry) | Found(e: Entry) | Erase(e: Entry)

  /** What every run keeps. */
  ghost predicate Good(a: Arc, last: map<Entry, int>, now: int) {
    Weak(a) && Full(a) && Exact(a) && Recent(a, last, now)
  }

  /** Erasing a stored entry is allowed only while there are no ghosts. */
  predicate Allowed(a: Arc, op: Op) {
    match op
    case Put(e) => true
    case Found(e) => true
    case Erase(e) =>
      var w := a.Where(e);
      w == B1 || w == B2 || w == Del || (w != None && a.b1 == [] && a.b2 == [])
  }

  function Cleared(a: Arc, e: Entry): Arc {
    a.(data := a.data - {e})
  }

  /** The operation calls on ARC: one that finds an entry without Data does not. */
  predicate Accesses(a: Arc, op: Op) {
    op.Put? || (op.Found? && op.e in a.data)
  }

  function Step(a: Arc, op: Op): Arc {
    match op
    case Put(e) =>
      if !Safe(Cleared(a, e), e) then a
      else var r := Request(Cleared(a, e), e); r.(data := r.data + {e})
    case Found(e) => if Accesses(a, op) && Safe(a, e) then Request(a, e) else a
    case Erase(e) => Remove(a, e)
  }

  /** The run as it goes: every operation is allowed when its turn comes. */
  predicate AllowedRun(a: Arc, ops: seq<Op>)
    decreases |ops|
  {
    ops == [] || (Allowed(a, ops[0]) && AllowedRun(Step(a, ops[0]), ops[1..]))
  }

  /** No request of the run takes the front of an empty list. */
  predicate NeverFaults(a: Arc, ops: seq<Op>)
    decreases |ops|
  {
    ops == [] || ((Accesses(a, ops[0]) ==> Safe(a, ops[0].e)) && NeverFaults(Step(a, ops[0]), ops[1..]))
  }

  function Final(a: Arc, ops: seq<Op>): Arc
    decreases |ops|
  {
    if ops == [] then a else Final(Step(a, ops[0]), ops[1..])
  }

  /** The last access of each entry, when the operations happen at times `now`, `now + 1`, and so on. */
  ghost function LastAccess(a: Arc, last: map<Entry, int>, now: int, ops: seq<Op>): map<Entry, int>
    decreases |ops|
  {
    if ops == [] then last
    else LastAccess(Step(a, ops[0]), if Accesses(a, ops[0]) then last[ops[0].e := now] else last, now + 1, ops[1..])
  }

  lemma ClearedSame(a: Arc, e: Entry)
    requires Weak(a)
    ensures Weak(Cleared(a, e)) && (Full(a) ==> Full(Cleared(a, e))) && (Safe(Cleared(a, e), e) <==> Safe(a, e))
    ensures Exact(a) ==> HoldBut(Cleared(a, e), e)
    ensures forall last, now :: Recent(a, last, now) ==> Recent(Cleared(a, e), last, now)
  {
    hide Without;
    ListedSame(a, a.p, a.data - {e});
    FaultsExactly(a, e);
    FaultsExactly(Cleared(a, e), e);
  }

  lemma PutGood(a: Arc, e: Entry, last: map<Entry, int>, now: int)
    requires Good(a, last, now)
    ensures Safe(a, e) && Good(Step(a, Put(e)), last[e := now], now + 1) && e in Step(a, Put(e)).data
  {
    hide Listed, Without, Move, Arc.Where, Safe, Request, Recent;
    var b := Cleared(a, e);
    ClearedSame(a, e);
    FullIsSafe(b, e);
    var r := Request(b, e);
    RequestKeeps(b, e);
    RequestHold(b, e);
    RequestRecent(b, e, last, now);
    WithData(r, e, last[e := now], now + 1);
  }

  lemma WithData(r: Arc, e: Entry, last: map<Entry, int>, now: int)
    requires Weak(r) && Stores(r, e) && HoldBut(r, e) && Recent(r, last, now)
    ensures var r' := r.(data := r.data + {e}); Weak(r') && Exact(r') && Recent(r', last, now) && (Full(r) ==> Full(r'))
  {
    hide Without;
    ListedSame(r, r.p, r.data + {e});
  }

  lemma FoundGood(a: Arc, e: Entry, last: map<Entry, int>, now: int)
    requires Good(a, last, now) && e in a.data
    ensures Safe(a, e) && Good(Step(a, Found(e)), last[e := now], now + 1)
  {
    hide Listed, Without, Arc.Where, Safe, Recent;
    FullIsSafe(a, e);
    RequestKeeps(a, e);
    RequestRecent(a, e, last, now);
    FoundExact(a, e);
  }

  lemma FoundExact(a: Arc, e: Entry)
    requires Exact(a) && e in a.data && Safe(a, e)
    ensures Exact(Request(a, e))
  {
    hide Without;
    MoveWhere(a, e, T2);
  }

  lemma EraseGood(a: Arc, e: Entry, last: map<Entry, int>, now: int)
    requires Good(a, last, now) && Allowed(a, Erase(e))
    ensures Good(Remove(a, e), last, now + 1)
  {
    hide Listed, Without, Arc.Where;
    RemoveKeeps(a, e);
    DropRecent(a, e, None, last, now);
    SameRecent(Move(a, e, None), Remove(a, e), last, now);
    RemoveExact(a, e);
  }

  lemma RemoveExact(a: Arc, e: Entry)
    requires Exact(a)
    ensures Exact(Remove(a, e))
  {
    hide Without;
    MoveWhere(a, e, None);
  }

  lemma LaterGood(a: Arc, last: map<Entry, int>, now: int)
    requires Good(a, last, now)
    ensures Good(a, last, now + 1)
  {
  }

  lemma StepGood(a: Arc, op: Op, last: map<Entry, int>, now: int)
    requires Good(a, last, now) && Allowed(a, op)
    ensures Accesses(a, op) ==> Safe(a, op.e)
    ensures Good(Step(a, op), if Accesses(a, op) then last[op.e := now] else last, now + 1)
  {
    hide Arc.Where, Safe, Request, Good, Remove, Cleared;
    match op
    case Put(e) => PutGood(a, e, last, now);
    case Found(e) => if e in a.data { FoundGood(a, e, last, now); } else { LaterGood(a, last, now); }
    case Erase(e) => EraseGood(a, e, last, now);
  }

  /**
    Every run of insertions, refreshments and lookups, together with removals of ghosts and deleted
    entries, starting from an empty cache: no request fails, the bounds hold, exactly the stored
    entries hold Data, and the lists are in the order of last access.
   */
  lemma {:induction false} RunGood(a: Arc, ops: seq<Op>, last: map<Entry, int>, now: int)
    requires Good(a, last, now) && AllowedRun(a, ops)
    ensures NeverFaults(a, ops)
    ensures Good(Final(a, ops), LastAccess(a, last, now, ops), now + |ops|)
    decreases |ops|
  {
    if ops != [] {
      hide Good, Step, Allowed, Accesses;
      StepGood(a, ops[0], last, now);
      RunGood(Step(a, ops[0]), ops[1..], if Accesses(a, ops[0]) then last[ops[0].e := now] else last, now + 1);
    }
  }

  lemma EmptyGood(c: nat)
    requires c >= 1
    ensures Good(Empty(c), map[], 0)
  {
    forall l | l != None ensures ListedIn(Empty(c), l) {
    }
  }

  // A run that fails, for every capacity.

  function Range(lo: nat, hi: nat): (r: seq<Entry>)
    requires lo <= hi
    ensures |r| == hi - lo && forall i | 0 <= i < |r| :: r[i] == lo + i
  {
    seq(hi - lo, i => lo + i)
  }

  /** The four lists, with nothing deleted and a target size of zero. */
  ghost predicate Looks(a: Arc, c: nat, t1: seq<Entry>, b1: seq<Entry>, t2: seq<Entry>, b2: seq<Entry>) {
    Weak(a) && a.c == c && a.p == 0.0 && a.del == [] && a.t1 == t1 && a.b1 == b1 && a.t2 == t2 && a.b2 == b2
  }

  lemma FreshWhere(a: Arc, e: Entry)
    requires Weak(a) && a.del == [] && e !in a.t1 && e !in a.b1 && e !in a.t2 && e !in a.b2
    ensures a.Where(e) == None && Cleared(a, e).Where(e) == None
  {
    WhereLists(a, e);
    assert ListedIn(a, Del) && a.del == a.Get(Del);
  }

  lemma WhereIs(a: Arc, e: Entry)
    requires Weak(a)
    ensures (e in a.t1 ==> a.Where(e) == T1) && (e in a.t2 ==> a.Where(e) == T2)
  {
    WhereLists(a, e);
  }

  lemma AddRoom(a: Arc, c: nat, k: nat)
    requires k < c && Looks(a, c, Range(0, k), [], [], [])
    ensures Looks(Step(a, Put(k)), c, Range(0, k + 1), [], [], [])
  {
    hide Listed;
    FreshWhere(a, k);
    ClearedSame(a, k);
    RequestKeeps(Cleared(a, k), k);
    assert Range(0, k) + [k] == Range(0, k + 1);
    PutWeak(a, k);
  }

  lemma PutWeak(a: Arc, e: Entry)
    requires Weak(a) && Safe(a, e)
    ensures Weak(Step(a, Put(e)))
  {
    hide Without, Move, Request, Safe;
    ClearedSame(a, e);
    RequestKeeps(Cleared(a, e), e);
    var r := Request(Cleared(a, e), e);
    ListedSame(r, r.p, r.data + {e});
  }

  lemma AddAgain(a: Arc, c: nat, k: nat)
    requires k < c && Looks(a, c, Range(k, c), [], Range(0, k), [])
    ensures Looks(Step(a, Put(k)), c, Range(k + 1, c), [], Range(0, k + 1), [])
  {
    hide Listed;
    assert Range(k, c)[0] == k;
    WhereIs(a, k);
    assert Cleared(a, k).Where(k) == T1;
    PutWeak(a, k);
    assert Without(Range(k, c), k) == Range(k + 1, c);
    assert Range(0, k) + [k] == Range(0, k + 1);
  }

  lemma MoveLists(a: Arc, e: Entry, dst: ListId)
    ensures var m, w := Move(a, e, dst), a.Where(e);
      && m.t1 == Moved(a.t1, e, w == T1, dst == T1) && m.b1 == Moved(a.b1, e, w == B1, dst == B1)
      && m.t2 == Moved(a.t2, e, w == T2, dst == T2) && m.b2 == Moved(a.b2, e, w == B2, dst == B2)
      && m.del == Moved(a.del, e, w == Del, dst == Del) && m.c == a.c && m.p == a.p
  {
    MoveGet(a, e, dst, T1);
    MoveGet(a, e, dst, B1);
    MoveGet(a, e, dst, T2);
    MoveGet(a, e, dst, B2);
    MoveGet(a, e, dst, Del);
  }

  lemma MovedFront(v: Entry, s: seq<Entry>)
    ensures Moved([v] + s, v, true, false) == s && Moved(s, v, false, false) == s && Moved(s, v, false, true) == s + [v]
  {
    assert ([v] + s)[1..] == s && s + [] == s;
  }

  /** A miss that replaces, when nothing is forgotten: the front of T1 or T2 becomes a ghost, and the entry goes to T1. */
  lemma MissLooks(a: Arc, c: nat, e: Entry, v: Entry, t1: seq<Entry>, t2: seq<Entry>)
    requires Weak(a) && a.c == c && a.p == 0.0 && a.del == [] && a.Where(e) == None && Safe(a, e)
    requires |a.t1| + |a.b1| < c <= Total(a) < 2 * c
    requires if a.t1 != [] then a.t1 == [v] + t1 && a.t2 == t2 else a.t2 == [v] + t2 && t1 == []
    ensures var b1, b2 := if a.t1 != [] then a.b1 + [v] else a.b1, if a.t1 != [] then a.b2 else a.b2 + [v];
      Looks(Step(a, Put(e)), c, t1 + [e], b1, t2, b2)
  {
    hide Listed, Move, Moved, Without, Arc.Where, HoldBut;
    var b := Cleared(a, e);
    ClearedSame(a, e);
    ClearedWhere(a, e);
    PutWeak(a, e);
    var r := Miss(b);
    assert Forget(b) == b && r == Replace(b, false) && Victim(b, false) == v;
    FrontWhere(b);
    MoveLists(b, v, if b.t1 != [] then B1 else B2);
    MovedFront(v, t1);
    MovedFront(v, t2);
    MovedFront(v, b.b1);
    MovedFront(v, b.b2);
    MovedFront(v, b.del);
    ReplaceKeeps(b, false);
    MoveLists(r, e, T1);
    MovedFront(e, t1);
    MovedFront(e, r.b1);
    MovedFront(e, r.t2);
    MovedFront(e, r.b2);
    MovedFront(e, r.del);
  }

  lemma ClearedWhere(a: Arc, e: Entry)
    ensures Cleared(a, e).Where(e) == a.Where(e)
  {
  }

  lemma FirstMiss(a: Arc, c: nat)
    requires c >= 1 && Looks(a, c, [], [], Range(0, c), [])
    ensures Looks(Step(a, Put(c)), c, [c], [], Range(1, c), [0])
  {
    hide Listed, Step, Arc.Where, Safe;
    FreshWhere(a, c);
    FullIsSafe(a, c);
    assert Range(0, c) == [0] + Range(1, c);
    MissLooks(a, c, c, 0, [], Range(1, c));
    assert [] + [c] == [c];
  }

  lemma NextMiss(a: Arc, c: nat, j: nat)
    requires 1 <= j < c && Looks(a, c, [c + j - 1], Range(c, c + j - 1), Range(1, c), [0])
    ensures Looks(Step(a, Put(c + j)), c, [c + j], Range(c, c + j), Range(1, c), [0])
  {
    hide Listed, Step, Arc.Where, Safe;
    FreshWhere(a, c + j);
    FullIsSafe(a, c + j);
    assert Range(c, c + j - 1) + [c + j - 1] == Range(c, c + j);
    MissLooks(a, c, c + j, c + j - 1, [], Range(1, c));
    assert [] + [c + j] == [c + j];
  }

  function PutAll(lo: nat, hi: nat): seq<Op>
    requires lo <= hi
  {
    if lo == hi then [] else PutAll(lo, hi - 1) + [Put(hi - 1)]
  }

  function EraseAll(lo: nat, hi: nat): seq<Op>
    requires lo <= hi
  {
    if lo == hi then [] else EraseAll(lo, hi - 1) + [Erase(hi - 1)]
  }

  lemma {:induction false} FinalSnoc(a: Arc, ops: seq<Op>, op: Op)
    ensures Final(a, ops + [op]) == Step(Final(a, ops), op)
    decreases |ops|
  {
    hide Step;
    if ops == [] {
      assert [op][1..] == [] && [] + [op] == [op];
    } else {
      assert (ops + [op])[1..] == ops[1..] + [op];
      FinalSnoc(Step(a, ops[0]), ops[1..], op);
    }
  }

  lemma {:induction false} FinalConcat(a: Arc, x: seq<Op>, y: seq<Op>)
    ensures Final(a, x + y) == Final(Final(a, x), y)
    decreases |x|
  {
    hide Step;
    if x == [] {
      assert x + y == y;
    } else {
      assert (x + y)[1..] == x[1..] + y;
      FinalConcat(Step(a, x[0]), x[1..], y);
    }
  }

  lemma {:induction false} FillUp(a: Arc, c: nat, k: nat)
    requires k <= c && Looks(a, c, [], [], [], [])
    ensures Looks(Final(a, PutAll(0, k)), c, Range(0, k), [], [], [])
  {
    hide Step, Weak;
    if k > 0 {
      FillUp(a, c, k - 1);
      FinalSnoc(a, PutAll(0, k - 1), Put(k - 1));
      AddRoom(Final(a, PutAll(0, k - 1)), c, k - 1);
    }
  }

  lemma {:induction false} HitAll(a: Arc, c: nat, k: nat)
    requires k <= c && Looks(a, c, Range(0, c), [], [], [])
    ensures Looks(Final(a, PutAll(0, k)), c, Range(k, c), [], Range(0, k), [])
  {
    hide Step, Weak;
    if k > 0 {
      HitAll(a, c, k - 1);
      FinalSnoc(a, PutAll(0, k - 1), Put(k - 1));
      AddAgain(Final(a, PutAll(0, k - 1)), c, k - 1);
    }
  }

  lemma {:induction false} MissAll(a: Arc, c: nat, j: nat)
    requires 1 <= j <= c && Looks(a, c, [], [], Range(0, c), [])
    ensures Looks(Final(a, PutAll(c, c + j)), c, [c + j - 1], Range(c, c + j - 1), Range(1, c), [0])
  {
    hide Step, Weak;
    FinalSnoc(a, PutAll(c, c + j - 1), Put(c + j - 1));
    if j == 1 {
      assert PutAll(c, c) == [] && Range(c, c) == [];
      FirstMiss(a, c);
    } else {
      MissAll(a, c, j - 1);
      NextMiss(Final(a, PutAll(c, c + j - 1)), c, j - 1);
    }
  }

  lemma EraseOne(a: Arc, c: nat, e: Entry, b1: seq<Entry>, t2: seq<Entry>, b2: seq<Entry>)
    requires Looks(a, c, [e], b1, t2, b2)
    ensures Looks(Step(a, Erase(e)), c, [], b1, t2, b2)
  {
    hide Listed;
    WhereIs(a, e);
    RemoveWeak(a, e);
    assert Without([e], e) == [];
  }

  lemma EraseNext(a: Arc, c: nat, k: nat, b1: seq<Entry>, b2: seq<Entry>)
    requires k < c && Looks(a, c, [], b1, Range(k, c), b2)
    ensures Looks(Step(a, Erase(k)), c, [], b1, Range(k + 1, c), b2)
  {
    hide Listed;
    assert Range(k, c)[0] == k;
    WhereIs(a, k);
    RemoveWeak(a, k);
    assert Without(Range(k, c), k) == Range(k + 1, c);
  }

  lemma {:induction false} EraseRest(a: Arc, c: nat, k: nat, b1: seq<Entry>, b2: seq<Entry>)
    requires 1 <= k <= c && Looks(a, c, [], b1, Range(1, c), b2)
    ensures Looks(Final(a, EraseAll(1, k)), c, [], b1, Range(k, c), b2)
  {
    hide Step, Weak;
    if k > 1 {
      EraseRest(a, c, k - 1, b1, b2);
      FinalSnoc(a, EraseAll(1, k - 1), Erase(k - 1));
      EraseNext(Final(a, EraseAll(1, k - 1)), c, k - 1, b1, b2);
    }
  }

  /** As many entries as there is room for, each put twice, and as many others. */
  function FaultPuts(c: nat): seq<Op> {
    PutAll(0, c) + (PutAll(0, c) + PutAll(c, c + c))
  }

  /** Everything that is then stored is erased. */
  function FaultErases(c: nat): seq<Op>
    requires c >= 1
  {
    [Erase(c + c - 1)] + EraseAll(1, c)
  }

  lemma {:induction false} OnlyPuts(lo: nat, hi: nat)
    requires lo <= hi
    ensures forall i | 0 <= i < |PutAll(lo, hi)| :: PutAll(lo, hi)[i].Put?
  {
    if lo < hi { OnlyPuts(lo, hi - 1); }
  }

  lemma {:induction false} OnlyErases(lo: nat, hi: nat)
    requires lo <= hi
    ensures forall i | 0 <= i < |EraseAll(lo, hi)| :: EraseAll(lo, hi)[i].Erase?
  {
    if lo < hi { OnlyErases(lo, hi - 1); }
  }

  lemma {:induction false} PutsAllowed(a: Arc, ops: seq<Op>)
    requires forall i | 0 <= i < |ops| :: ops[i].Put?
    ensures AllowedRun(a, ops)
    decreases |ops|
  {
    hide Step;
    if ops != [] { PutsAllowed(Step(a, ops[0]), ops[1..]); }
  }

  lemma {:induction false} ErasesSafe(a: Arc, ops: seq<Op>)
    requires forall i | 0 <= i < |ops| :: ops[i].Erase?
    ensures NeverFaults(a, ops)
    decreases |ops|
  {
    hide Step, Safe;
    if ops != [] { ErasesSafe(Step(a, ops[0]), ops[1..]); }
  }

  lemma {:induction false} SafeConcat(a: Arc, x: seq<Op>, y: seq<Op>)
    requires NeverFaults(a, x) && NeverFaults(Final(a, x), y)
    ensures NeverFaults(a, x + y)
    decreases |x|
  {
    hide Step, Safe, Accesses;
    if x == [] {
      assert x + y == y;
    } else {
      assert (x + y)[0] == x[0] && (x + y)[1..] == x[1..] + y;
      SafeConcat(Step(a, x[0]), x[1..], y);
    }
  }

  lemma FaultPutsLook(c: nat)
    requires c >= 1
    ensures Looks(Final(Empty(c), FaultPuts(c)), c, [c + c - 1], Range(c, c + c - 1), Range(1, c), [0])
    ensures NeverFaults(Empty(c), FaultPuts(c))
  {
    hide Step, Weak, Final, PutAll, NeverFaults, Good, AllowedRun, LastAccess;
    StartLooks(c);
    var a1 := Final(Empty(c), PutAll(0, c));
    FillUp(Empty(c), c, c);
    var a2 := Final(a1, PutAll(0, c));
    HitAll(a1, c, c);
    assert Range(c, c) == [];
    MissAll(a2, c, c);
    FinalConcat(Empty(c), PutAll(0, c), PutAll(0, c) + PutAll(c, c + c));
    FinalConcat(a1, PutAll(0, c), PutAll(c, c + c));
    OnlyPuts(0, c);
    OnlyPuts(c, c + c);
    PutsAllowed(Empty(c), FaultPuts(c));
    EmptyGood(c);
    RunGood(Empty(c), FaultPuts(c), map[], 0);
  }

  /**
    For every capacity, a run without a fault after which the next request takes the front of an
    empty list: entries are put, and those that are stored are erased while there are ghosts.
   */
  lemma RemoveThenFault(c: nat)
    requires c >= 1
    ensures NeverFaults(Empty(c), FaultPuts(c) + FaultErases(c))
    ensures !Safe(Final(Empty(c), FaultPuts(c) + FaultErases(c)), c + c)
  {
    hide Step, Weak, Safe, Final, NeverFaults, FaultPuts;
    var a3 := Final(Empty(c), FaultPuts(c));
    FaultPutsLook(c);
    var a4 := Final(a3, [Erase(c + c - 1)]);
    FinalOne(a3, Erase(c + c - 1));
    EraseOne(a3, c, c + c - 1, Range(c, c + c - 1), Range(1, c), [0]);
    EraseRest(a4, c, c, Range(c, c + c - 1), [0]);
    FinalConcat(a3, [Erase(c + c - 1)], EraseAll(1, c));
    FinalConcat(Empty(c), FaultPuts(c), FaultErases(c));
    OnlyErases(1, c);
    ErasesSafe(a3, FaultErases(c));
    SafeConcat(Empty(c), FaultPuts(c), FaultErases(c));
    LastFails(Final(a3, FaultErases(c)), c);
  }

  lemma FinalOne(a: Arc, op: Op)
    ensures Final(a, [op]) == Step(a, op)
  {
    hide Step;
    assert [op][1..] == [];
  }

  lemma StartLooks(c: nat)
    requires c >= 1
    ensures Looks(Empty(c), c, [], [], [], [])
  {
    EmptyGood(c);
  }

  lemma LastFails(a: Arc, c: nat)
    requires c >= 1 && Looks(a, c, [], Range(c, c + c - 1), [], [0])
    ensures !Safe(a, c + c)
  {
    hide Safe, Listed;
    FreshWhere(a, c + c);
    FaultsExactly(a, c + c);
  }

  /** The lists in place, as the forwarder keeps them. */
  class CsArc {
    var T1: seq<Entry>
    var B1: seq<Entry>
    var T2: seq<Entry>
    var B2: seq<Entry>
    var Del: seq<Entry>
    var p: real
    /** The capacity fields of B1, B2, T1 and T2. */
    var c: nat
    var c2: nat
    var p0: int
    var p1: int
    /** The `arcList` fields of the entries, and which of them hold Data. */
    var arcList: map<Entry, ListId>
    var data: set<Entry>

    ghost function View(): Arc
      reads this
    {
      Arc(T1, B1, T2, B2, Del, arcList, p, c, data)
    }

    ghost predicate Valid()
      reads this
    {
      Weak(View()) && c2 == 2 * c && p0 == p.Floor && p1 == if p0 >= 1 then p0 else 1
    }

    constructor (capacity: nat)
      requires capacity >= 1
      ensures Valid() && Full(View()) && View() == Empty(capacity)
    {
      T1, B1, T2, B2, Del := [], [], [], [], [];
      c, c2 := capacity, 2 * capacity;
      p, p0, p1 := 0.0, 0, 1;
      arcList, data := map[], {};
      new;
      EmptyGood(capacity);
    }

    method SetP(p': real)
      modifies this`p, this`p0, this`p1
      ensures View() == old(View()).(p := p') && p0 == p.Floor && p1 == if p0 >= 1 then p0 else 1
    {
      p := p';
      p0 := p.Floor;
      p1 := if p0 >= 1 then p0 else 1;
    }

    /** `CsList_Remove` from the list that the entry is in. */
    method Unlink(e: Entry)
      modifies this`T1, this`B1, this`T2, this`B2, this`Del
      ensures View() == old(View()).Set(old(View()).Where(e), Without(old(View()).Get(old(View()).Where(e)), e))
    {
      match if e in arcList then arcList[e] else None {
        case None =>
        case T1 => T1 := Without(T1, e);
        case B1 => B1 := Without(B1, e);
        case T2 => T2 := Without(T2, e);
        case B2 => B2 := Without(B2, e);
        case Del => Del := Without(Del, e);
      }
    }

    /** `CsList_Append`. */
    method Append(e: Entry, dst: ListId)
      modifies this`T1, this`B1, this`T2, this`B2, this`Del, this`arcList
      ensures View() == old(View()).Set(dst, old(View()).Get(dst) + [e]).(loc := old(arcList)[e := dst])
    {
      match dst {
        case None =>
        case T1 => T1 := T1 + [e];
        case B1 => B1 := B1 + [e];
        case T2 => T2 := T2 + [e];
        case B2 => B2 := B2 + [e];
        case Del => Del := Del + [e];
      }
      arcList := arcList[e := dst];
    }

    method MoveTo(e: Entry, dst: ListId)
      modifies this`T1, this`B1, this`T2, this`B2, this`Del, this`arcList
      ensures View() == Move(old(View()), e, dst)
    {
      hide Without;
      Unlink(e);
      Append(e, dst);
    }

    method ReplaceOne(isB2: bool)
      requires p0 == p.Floor && p1 == if p0 >= 1 then p0 else 1
      requires CanReplace(View(), isB2)
      modifies this`T1, this`B1, this`T2, this`B2, this`Del, this`arcList, this`data
      ensures View() == Replace(old(View()), isB2)
    {
      hide Without, Move;
      var moving;
      if if isB2 then |T1| >= p1 else |T1| > p0 {
        moving := T1[0];
        MoveTo(moving, ListId.B1);
      } else {
        moving := T2[0];
        MoveTo(moving, ListId.B2);
      }
      data := data - {moving};
    }

    method AddB1(e: Entry)
      requires B1 != [] && CanReplace(HitB1(View()), false)
      modifies this
      ensures View() == Move(Replace(HitB1(old(View())), false), e, ListId.T2)
      ensures unchanged(this`c, this`c2) && p0 == p.Floor && p1 == if p0 >= 1 then p0 else 1
    {
      hide Without, Move, Replace, PicksT1;
      var delta1 := 1.0;
      if |B1| < |B2| {
        delta1 := |B2| as real / |B1| as real;
      }
      SetP(Min(p + delta1, c as real));
      ReplaceOne(false);
      MoveTo(e, ListId.T2);
    }

    method AddB2(e: Entry)
      requires B2 != [] && CanReplace(HitB2(View()), true)
      modifies this
      ensures View() == Move(Replace(HitB2(old(View())), true), e, ListId.T2)
      ensures unchanged(this`c, this`c2) && p0 == p.Floor && p1 == if p0 >= 1 then p0 else 1
    {
      hide Without, Move, Replace, PicksT1;
      var delta2 := 1.0;
      if |B2| < |B1| {
        delta2 := |B1| as real / |B2| as real;
      }
      SetP(Max(p - delta2, 0.0));
      ReplaceOne(true);
      MoveTo(e, ListId.T2);
    }

    method AddNew(e: Entry)
      requires Valid() && SafeMiss(View())
      modifies this`T1, this`B1, this`T2, this`B2, this`Del, this`arcList, this`data
      ensures View() == Move(Miss(old(View())), e, ListId.T1)
    {
      hide Without, Move, Replace, PicksT1, Listed;
      var nL1 := |T1| + |B1|;
      if nL1 == c {
        if |T1| < c {
          MoveTo(B1[0], ListId.Del);
          ReplaceOne(false);
        } else {
          assert B1 == [];
          var deleting := T1[0];
          data := data - {deleting};
          MoveTo(deleting, ListId.Del);
        }
      } else {
        assert nL1 < c;
        var nL1L2 := nL1 + |T2| + |B2|;
        if nL1L2 >= c {
          if nL1L2 == c2 {
            MoveTo(B2[0], ListId.Del);
          }
          ReplaceOne(false);
        }
      }
      MoveTo(e, ListId.T1);
    }

    /**
      An entry is inserted, refreshed or found.  The code does what the ARC algorithm says, and
      while the cache is full as soon as it has ghosts, it never takes the front of an empty list.
     */
    method Add(e: Entry)
      requires Valid() && Full(View())
      modifies this
      ensures Valid() && Full(View()) && c == old(c)
      ensures Safe(old(View()), e) && View() == Request(old(View()), e)
    {
      hide Without, Move, Replace, Miss, PicksT1, Listed, SafeMiss;
      FullIsSafe(View(), e);
      RequestKeeps(View(), e);
      match if e in arcList then arcList[e] else None {
        case T1 => MoveTo(e, ListId.T2);
        case T2 => MoveTo(e, ListId.T2);
        case B1 => AddB1(e);
        case B2 => AddB2(e);
        case Del =>
          MoveCounts(View(), e, None);
          MoveTo(e, None);
          AddNew(e);
        case None => AddNew(e);
      }
    }

    /** A Data packet is put in a new or existing entry. */
    method PutDirect(e: Entry)
      requires Valid() && Full(View())
      modifies this
      ensures Valid() && Full(View()) && e in data && View() == Step(old(View()), Op.Put(e))
    {
      hide Without, Move, Request, Safe, Listed;
      ghost var a := View();
      ClearedSame(a, e);
      FullIsSafe(a, e);
      PutWeak(a, e);
      data := data - {e};
      Add(e);
      data := data + {e};
    }

    /** An entry matches an Interest; it is requested from the cache only if it holds Data. */
    method MatchInterest(e: Entry) returns (hasData: bool)
      requires Valid() && Full(View())
      modifies this
      ensures Valid() && Full(View()) && hasData == (e in old(data)) && View() == Step(old(View()), Op.Found(e))
    {
      hide Without, Move, Request, Safe, Listed;
      hasData := e in data;
      if hasData {
        Add(e);
      }
    }

    /** An entry is erased; `Add` stays safe afterwards unless it was a stored entry and there are ghosts. */
    method Erase(e: Entry)
      requires Valid() && e in arcList && arcList[e] != None
      modifies this`T1, this`B1, this`T2, this`B2, this`Del, this`arcList, this`data
      ensures Valid() && View() == Remove(old(View()), e)
      ensures old(Full(View())) ==> (Full(View()) <==> Allowed(old(View()), Op.Erase(e)))
    {
      hide Without, Move, Listed;
      if Full(View()) { RemoveKeeps(View(), e); } else { RemoveWeak(View(), e); }
      MoveTo(e, None);
      data := data - {e};
    }
  }

  lemma RemoveWeak(a: Arc, e: Entry)
    requires Weak(a) && a.Where(e) != None
    ensures Weak(Remove(a, e))
  {
    hide Listed, Without, Move, Arc.Where;
    MoveCounts(a, e, None);
    ListedSame(Move(a, e, None), a.p, a.data - {e});
  }
}