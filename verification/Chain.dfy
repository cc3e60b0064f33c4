/** Byte strings cut into segments: the mathematics of a cursor over an mbuf chain. */
module Chain {

  type Byte = b: int | 0 <= b < 256

  type Bytes = seq<Byte>

  /** The flat bytes of a chain of segments. */
  function Concat(parts: seq<Bytes>): (r: Bytes) {
    if parts == [] then [] else parts[0] + Concat(parts[1..])
  }

  lemma Associate(a: Bytes, b: Bytes, c: Bytes)
    ensures a + (b + c) == a + b + c
  {
  }

  lemma {:induction false} ConcatSplit(a: seq<Bytes>, b: seq<Bytes>)
    ensures Concat(a + b) == Concat(a) + Concat(b)
  {
    if a == [] {
      assert a + b == b;
    } else {
      ConcatSplit(a[1..], b);
      assert (a + b)[0] == a[0] && (a + b)[1..] == a[1..] + b;
      Associate(a[0], Concat(a[1..]), Concat(b));
    }
  }

  /** The total length, as the sum over the segments. */
  function Sum(parts: seq<Bytes>): (n: nat)
    ensures n == |Concat(parts)|
  {
    if parts == [] then 0 else |parts[0]| + Sum(parts[1..])
  }

  ghost predicate NonEmpty(parts: seq<Bytes>) {
    forall i | 0 <= i < |parts| :: parts[i] != []
  }

  /** A cursor: an offset within a segment, or the start of a possibly empty one, or past the last segment. */
  ghost predicate AtByte(parts: seq<Bytes>, m: nat, offset: nat) {
    m <= |parts| && (offset == 0 || (m < |parts| && offset < |parts[m]|))
  }

  /** The flat bytes from the cursor on. */
  ghost function Rest(parts: seq<Bytes>, m: nat, offset: nat): (r: Bytes)
    requires AtByte(parts, m, offset)
  {
    if m == |parts| then [] else parts[m][offset..] + Concat(parts[m + 1..])
  }

  lemma RestNext(parts: seq<Bytes>, m: nat, offset: nat)
    requires AtByte(parts, m, offset) && m < |parts|
    ensures AtByte(parts, m + 1, 0)
    ensures Rest(parts, m, offset) == parts[m][offset..] + Rest(parts, m + 1, 0)
  {
    if m + 1 < |parts| {
      assert parts[m + 1..][1..] == parts[m + 2..];
    }
  }

  /** What is left after a cursor has moved within its segment. */
  lemma RestWithin(parts: seq<Bytes>, m: nat, offset: nat, n: nat)
    requires AtByte(parts, m, offset) && m < |parts| && offset + n < |parts[m]|
    ensures AtByte(parts, m, offset + n) && n <= |Rest(parts, m, offset)|
    ensures Rest(parts, m, offset + n) == Rest(parts, m, offset)[n..]
    ensures Rest(parts, m, offset)[..n] == parts[m][offset..offset + n]
  {
  }

  /** The cursor has passed the first `done` bytes of `ahead`. */
  ghost predicate Passed(parts: seq<Bytes>, m: nat, offset: nat, ahead: Bytes, done: nat) {
    AtByte(parts, m, offset) && done <= |ahead| && Rest(parts, m, offset) == ahead[done..]
  }

  lemma PassedStart(parts: seq<Bytes>, m: nat, offset: nat)
    requires AtByte(parts, m, offset)
    ensures Passed(parts, m, offset, Rest(parts, m, offset), 0)
  {
  }

  lemma PassedEnd(parts: seq<Bytes>, m: nat, offset: nat, ahead: Bytes, done: nat)
    requires Passed(parts, m, offset, ahead, done)
    ensures AtByte(parts, m, offset) && done <= |ahead| && Rest(parts, m, offset) == ahead[done..]
  {
  }

  lemma PassedHere(parts: seq<Bytes>, m: nat, offset: nat, ahead: Bytes, done: nat)
    requires Passed(parts, m, offset, ahead, done) && done < |ahead|
    ensures m < |parts| && offset <= |parts[m]|
  {
  }

  lemma PassedWithin(parts: seq<Bytes>, m: nat, offset: nat, ahead: Bytes, done: nat, n: nat)
    requires Passed(parts, m, offset, ahead, done) && m < |parts| && offset + n < |parts[m]|
    ensures Passed(parts, m, offset + n, ahead, done + n)
    ensures done + n <= |ahead| && ahead[done..done + n] == parts[m][offset..offset + n]
  {
    RestWithin(parts, m, offset, n);
    assert ahead[done..done + n] == ahead[done..][..n];
  }

  lemma PassedNext(parts: seq<Bytes>, m: nat, offset: nat, ahead: Bytes, done: nat)
    requires Passed(parts, m, offset, ahead, done) && m < |parts|
    ensures var n := |parts[m]| - offset;
      && Passed(parts, m + 1, 0, ahead, done + n)
      && done + n <= |ahead| && ahead[done..done + n] == parts[m][offset..]
  {
    RestNext(parts, m, offset);
    var n := |parts[m]| - offset;
    assert ahead[done..done + n] == ahead[done..][..n];
  }

  /** One step of a walk: as far as possible within the current segment. */
  lemma PassedStep(parts: seq<Bytes>, m: nat, offset: nat, ahead: Bytes, done: nat, n: nat)
    requires Passed(parts, m, offset, ahead, done) && m < |parts| && offset + n <= |parts[m]|
    ensures if offset + n < |parts[m]| then Passed(parts, m, offset + n, ahead, done + n) else Passed(parts, m + 1, 0, ahead, done + n)
    ensures done + n <= |ahead| && ahead[done..done + n] == parts[m][offset..offset + n]
  {
    if offset + n < |parts[m]| {
      PassedWithin(parts, m, offset, ahead, done, n);
    } else {
      PassedNext(parts, m, offset, ahead, done);
      assert parts[m][offset..] == parts[m][offset..offset + n];
    }
  }

  /** The first `done` bytes of `ahead` have been written at position `at`. */
  ghost predicate Copied(was: Bytes, now: Bytes, at: nat, ahead: Bytes, done: nat) {
    done <= |ahead| && at + done <= |was| && now == was[..at] + ahead[..done] + was[at + done..]
  }

  lemma CopiedStart(was: Bytes, at: nat, ahead: Bytes)
    requires at <= |was|
    ensures Copied(was, was, at, ahead, 0)
  {
  }

  lemma CopiedMore(was: Bytes, now: Bytes, now': Bytes, at: nat, ahead: Bytes, done: nat, n: nat)
    requires Copied(was, now, at, ahead, done) && done + n <= |ahead| && at + done + n <= |was|
    requires |now| == |was| && now' == now[..at + done] + ahead[done..done + n] + now[at + done + n..]
    ensures Copied(was, now', at, ahead, done + n) && |now'| == |was|
  {
  }

  lemma SplitMiddle(a: Bytes, b: Bytes, k: nat, c: Bytes)
    requires k <= |b|
    ensures a + (b + c) == a + b[..k] + (b[k..] + c)
  {
  }

  /** The whole is what lies before the cursor and what lies after it. */
  lemma Around(parts: seq<Bytes>, m: nat, offset: nat)
    requires AtByte(parts, m, offset) && m < |parts|
    ensures Concat(parts) == Concat(parts[..m]) + parts[m][..offset] + Rest(parts, m, offset)
  {
    assert parts == parts[..m] + parts[m..];
    ConcatSplit(parts[..m], parts[m..]);
    var tail := Concat(parts[m + 1..]);
    assert Concat(parts[m..]) == parts[m] + tail by {
      assert parts[m..][1..] == parts[m + 1..];
    }
    hide Concat;
    SplitMiddle(Concat(parts[..m]), parts[m], offset, tail);
  }

  /** What remains of a chain from a cursor on: the cut segment and the segments after it. */
  ghost function From(parts: seq<Bytes>, m: nat, offset: nat): (r: seq<Bytes>)
    requires AtByte(parts, m, offset)
  {
    if m == |parts| then [] else [parts[m][offset..]] + parts[m + 1..]
  }

  lemma FromRest(parts: seq<Bytes>, m: nat, offset: nat)
    requires AtByte(parts, m, offset)
    ensures Concat(From(parts, m, offset)) == Rest(parts, m, offset)
    ensures NonEmpty(parts) ==> NonEmpty(From(parts, m, offset))
  {
    if m < |parts| {
      assert From(parts, m, offset)[1..] == parts[m + 1..];
    }
  }

  /**
    The chain in which the bytes between two cursors have been gathered in one segment: first the
    segments before `m`, then `front`, then `mid`, then what remains from the second cursor on.
   */
  ghost function Gathered(parts: seq<Bytes>, m: nat, front: seq<Bytes>, mid: Bytes, m': nat, offset': nat): (r: seq<Bytes>)
    requires m <= |parts| && AtByte(parts, m', offset')
  {
    parts[..m] + front + [mid] + From(parts, m', offset')
  }

  lemma GatheredKeeps(parts: seq<Bytes>, m: nat, offset: nat, front: seq<Bytes>, mid: Bytes, m': nat, offset': nat, count: nat)
    requires AtByte(parts, m, offset) && m < |parts| && NonEmpty(front) && mid != []
    requires AtByte(parts, m', offset') && count <= |Rest(parts, m, offset)|
    requires Rest(parts, m', offset') == Rest(parts, m, offset)[count..]
    requires Concat(front) + mid == parts[m][..offset] + Rest(parts, m, offset)[..count]
    ensures var g, k := Gathered(parts, m, front, mid, m', offset'), m + |front| + 1;
      && Concat(g) == Concat(parts) && (NonEmpty(parts) ==> NonEmpty(g))
      && AtByte(g, k, 0) && Rest(g, k, 0) == Rest(parts, m', offset')
  {
    hide Concat, Rest, Gathered, From, NonEmpty;
    GatheredTail(parts, m, front, mid, m', offset');
    FromRest(parts, m', offset');
    Around(parts, m, offset);
    GatheredFlat(parts, m, front, mid, m', offset');
    Reassociate(Concat(parts[..m]), Concat(front), mid, parts[m][..offset], Rest(parts, m, offset), count, Concat(From(parts, m', offset')));
  }

  lemma GatheredFlat(parts: seq<Bytes>, m: nat, front: seq<Bytes>, mid: Bytes, m': nat, offset': nat)
    requires m <= |parts| && AtByte(parts, m', offset')
    ensures Concat(Gathered(parts, m, front, mid, m', offset'))
         == Concat(parts[..m]) + (Concat(front) + mid) + Concat(From(parts, m', offset'))
  {
    GatheredConcat(parts[..m], front, mid, From(parts, m', offset'));
  }

  lemma GatheredTail(parts: seq<Bytes>, m: nat, front: seq<Bytes>, mid: Bytes, m': nat, offset': nat)
    requires m <= |parts| && AtByte(parts, m', offset') && NonEmpty(front) && mid != []
    ensures var g, k := Gathered(parts, m, front, mid, m', offset'), m + |front| + 1;
      (NonEmpty(parts) ==> NonEmpty(g)) && AtByte(g, k, 0) && Rest(g, k, 0) == Rest(parts, m', offset')
  {
    hide Concat;
    var g, k, tail := Gathered(parts, m, front, mid, m', offset'), m + |front| + 1, From(parts, m', offset');
    FromRest(parts, m', offset');
    forall i | NonEmpty(parts) && 0 <= i < |g| ensures g[i] != [] {
      if i < m { assert g[i] == parts[i]; } else if i < m + |front| { assert g[i] == front[i - m]; } else if i >= k { assert g[i] == tail[i - k]; }
    }
    if k < |g| {
      assert g[k + 1..] == tail[1..] && g[k] == tail[0] && g[k][0..] == g[k];
      assert tail[1..] == parts[m' + 1..];
    }
  }

  lemma GatheredConcat(a: seq<Bytes>, front: seq<Bytes>, mid: Bytes, tail: seq<Bytes>)
    ensures Concat(a + front + [mid] + tail) == Concat(a) + (Concat(front) + mid) + Concat(tail)
  {
    ConcatSplit(a + front + [mid], tail);
    ConcatSplit(a + front, [mid]);
    ConcatSplit(a, front);
    assert Concat([mid]) == mid;
  }

  lemma Reassociate(a: Bytes, front: Bytes, mid: Bytes, cut: Bytes, rest: Bytes, count: nat, tail: Bytes)
    requires count <= |rest| && front + mid == cut + rest[..count] && tail == rest[count..]
    ensures a + (front + mid) + tail == a + cut + rest
  {
    assert rest == rest[..count] + rest[count..];
  }

  /** Gathering in the current segment: it grows by the bytes taken from the segments after it. */
  lemma GrownKeeps(parts: seq<Bytes>, m: nat, offset: nat, m': nat, offset': nat, count: nat)
    requires AtByte(parts, m, offset) && m < |parts|
    requires AtByte(parts, m', offset') && |parts[m]| - offset <= count <= |Rest(parts, m, offset)| && count > 0
    requires Rest(parts, m', offset') == Rest(parts, m, offset)[count..]
    ensures var head := parts[..m] + [parts[m] + Rest(parts, m, offset)[|parts[m]| - offset..count]];
      var g := head + From(parts, m', offset');
      && Concat(g) == Concat(parts) && Sum(g) == Sum(parts) && (NonEmpty(parts) ==> NonEmpty(g))
      && AtByte(g, m + 1, 0) && Rest(g, m + 1, 0) == Rest(parts, m', offset')
      && offset + count <= |g[m]| && g[m][offset..offset + count] == Rest(parts, m, offset)[..count]
  {
    hide Rest, From, NonEmpty, Concat, Sum, Gathered;
    var ahead, here := Rest(parts, m, offset), |parts[m]| - offset;
    var mid := parts[m] + ahead[here..count];
    GrownFront(parts, m, offset, count);
    NonEmptyNil();
    GatheredKeeps(parts, m, offset, [], mid, m', offset', count);
    GatheredGrown(parts, m, mid, m', offset');
  }

  lemma GrownFront(parts: seq<Bytes>, m: nat, offset: nat, count: nat)
    requires AtByte(parts, m, offset) && m < |parts|
    requires |parts[m]| - offset <= count <= |Rest(parts, m, offset)| && count > 0
    ensures var mid := parts[m] + Rest(parts, m, offset)[|parts[m]| - offset..count];
      && mid != [] && Concat([]) + mid == parts[m][..offset] + Rest(parts, m, offset)[..count]
      && offset + count == |mid| && mid[offset..offset + count] == Rest(parts, m, offset)[..count]
  {
    var ahead, here := Rest(parts, m, offset), |parts[m]| - offset;
    PassedStart(parts, m, offset);
    PassedNext(parts, m, offset, ahead, 0);
    hide Rest, NonEmpty, Passed;
    assert ahead[..here] == ahead[0..here] == parts[m][offset..];
    assert ahead[..count] == ahead[..here] + ahead[here..count];
    assert parts[m] == parts[m][..offset] + parts[m][offset..];
  }

  lemma GatheredGrown(parts: seq<Bytes>, m: nat, mid: Bytes, m': nat, offset': nat)
    requires m <= |parts| && AtByte(parts, m', offset')
    ensures Gathered(parts, m, [], mid, m', offset') == parts[..m] + [mid] + From(parts, m', offset')
    ensures Gathered(parts, m, [], mid, m', offset')[m] == mid
  {
  }

  lemma NonEmptyNil()
    ensures NonEmpty([])
  {
  }

  lemma NonEmptyOne(x: Bytes)
    requires x != []
    ensures NonEmpty([x])
  {
  }

  /** A cursor that has passed a whole segment is in a later one. */
  lemma PassedBeyond(parts: seq<Bytes>, m: nat, offset: nat, m': nat, offset': nat, count: nat)
    requires AtByte(parts, m, offset) && m < |parts| && AtByte(parts, m', offset') && m <= m'
    requires |parts[m]| - offset <= count <= |Rest(parts, m, offset)| && count > 0
    requires Rest(parts, m', offset') == Rest(parts, m, offset)[count..]
    ensures m < m'
  {
  }

  /** The chain with one more segment after the `m`-th, which is cut. */
  ghost function Inserted(parts: seq<Bytes>, m: nat, cut: Bytes, mid: Bytes): (r: seq<Bytes>)
    requires m < |parts|
  {
    parts[..m] + [cut] + [mid] + parts[m + 1..]
  }

  lemma InsertedFrom(parts: seq<Bytes>, m: nat, cut: Bytes, mid: Bytes, m': nat, offset': nat)
    requires m < m' && AtByte(parts, m', offset')
    ensures var g := Inserted(parts, m, cut, mid);
      && |g| == |parts| + 1 && AtByte(g, m' + 1, offset')
      && From(g, m' + 1, offset') == From(parts, m', offset') && Rest(g, m' + 1, offset') == Rest(parts, m', offset')
  {
    var g := Inserted(parts, m, cut, mid);
    assert g[m' + 1..] == parts[m'..];
    if m' < |parts| {
      assert g[m' + 1..][1..] == g[m' + 2..] && parts[m'..][1..] == parts[m' + 1..];
    }
  }

  /** Gathering in a new segment, after the part of the current segment before the cursor. */
  lemma SplitKeeps(parts: seq<Bytes>, m: nat, offset: nat, m': nat, offset': nat, count: nat)
    requires AtByte(parts, m, offset) && m < |parts| && offset > 0
    requires AtByte(parts, m', offset') && 0 < count <= |Rest(parts, m, offset)|
    requires Rest(parts, m', offset') == Rest(parts, m, offset)[count..]
    ensures var g := parts[..m] + [parts[m][..offset]] + [Rest(parts, m, offset)[..count]] + From(parts, m', offset');
      && Concat(g) == Concat(parts) && Sum(g) == Sum(parts) && (NonEmpty(parts) ==> NonEmpty(g))
      && AtByte(g, m + 2, 0) && Rest(g, m + 2, 0) == Rest(parts, m', offset')
  {
    hide Rest, From, NonEmpty, Sum;
    var front, mid := [parts[m][..offset]], Rest(parts, m, offset)[..count];
    NonEmptyOne(parts[m][..offset]);
    assert Concat(front) == parts[m][..offset];
    GatheredKeeps(parts, m, offset, front, mid, m', offset', count);
  }

  /** The pieces of segments that make up the next `count` bytes. */
  ghost function Pieces(parts: seq<Bytes>, m: nat, offset: nat, count: nat): (r: seq<Bytes>)
    requires AtByte(parts, m, offset) && count <= |Rest(parts, m, offset)|
    decreases |parts| - m
  {
    if count == 0 then
      []
    else
      var here := |parts[m]| - offset;
      if count < here then
        [parts[m][offset..offset + count]]
      else
        RestNext(parts, m, offset);
        (if here > 0 then [parts[m][offset..]] else []) + Pieces(parts, m + 1, 0, count - here)
  }

  lemma PiecesStep(parts: seq<Bytes>, m: nat, offset: nat, count: nat)
    requires AtByte(parts, m, offset) && 0 < count <= |Rest(parts, m, offset)|
    ensures m < |parts| && offset <= |parts[m]|
    ensures var here := |parts[m]| - offset;
      && (count < here ==>
            && Pieces(parts, m, offset, count) == [parts[m][offset..offset + count]]
            && Rest(parts, m, offset)[..count] == parts[m][offset..offset + count])
      && (count >= here ==>
            && AtByte(parts, m + 1, 0) && count - here <= |Rest(parts, m + 1, 0)|
            && Rest(parts, m, offset) == parts[m][offset..] + Rest(parts, m + 1, 0)
            && Pieces(parts, m, offset, count) == (if here > 0 then [parts[m][offset..]] else []) + Pieces(parts, m + 1, 0, count - here))
  {
    RestNext(parts, m, offset);
  }

  lemma {:induction false} PiecesConcat(parts: seq<Bytes>, m: nat, offset: nat, count: nat)
    requires AtByte(parts, m, offset) && count <= |Rest(parts, m, offset)|
    ensures Concat(Pieces(parts, m, offset, count)) == Rest(parts, m, offset)[..count]
    ensures NonEmpty(Pieces(parts, m, offset, count)) && (count > 0 ==> Pieces(parts, m, offset, count) != [])
    decreases |parts| - m
  {
    hide Rest;
    if count > 0 {
      PiecesStep(parts, m, offset, count);
      var here := |parts[m]| - offset;
      if count >= here {
        PiecesConcat(parts, m + 1, 0, count - here);
        PiecesTail(parts[m][offset..], Pieces(parts, m + 1, 0, count - here));
      } else {
        assert Concat([parts[m][offset..offset + count]]) == parts[m][offset..offset + count];
      }
    }
  }

  lemma PiecesTail(first: Bytes, rest: seq<Bytes>)
    requires NonEmpty(rest)
    ensures var all := (if |first| > 0 then [first] else []) + rest; Concat(all) == first + Concat(rest) && NonEmpty(all)
  {
    if |first| > 0 {
      assert ([first] + rest)[1..] == rest;
    } else {
      assert [] + rest == rest;
    }
  }

  /** Of the pieces `all`, those in `got` have been taken; the cursor is `remain` bytes before the end. */
  ghost predicate Taken(parts: seq<Bytes>, m: nat, offset: nat, remain: nat, all: seq<Bytes>, got: seq<Bytes>) {
    AtByte(parts, m, offset) && remain <= |Rest(parts, m, offset)| && all == got + Pieces(parts, m, offset, remain)
  }

  lemma TakenStart(parts: seq<Bytes>, m: nat, offset: nat, count: nat)
    requires AtByte(parts, m, offset) && count <= |Rest(parts, m, offset)|
    ensures Taken(parts, m, offset, count, Pieces(parts, m, offset, count), [])
  {
    assert [] + Pieces(parts, m, offset, count) == Pieces(parts, m, offset, count);
  }

  lemma TakenHere(parts: seq<Bytes>, m: nat, offset: nat, remain: nat, all: seq<Bytes>, got: seq<Bytes>)
    requires Taken(parts, m, offset, remain, all, got) && remain > 0
    ensures m < |parts| && offset <= |parts[m]|
  {
    PiecesStep(parts, m, offset, remain);
  }

  lemma TakenAll(parts: seq<Bytes>, m: nat, offset: nat, all: seq<Bytes>, got: seq<Bytes>)
    requires Taken(parts, m, offset, 0, all, got)
    ensures all == got
  {
  }

  lemma TakenLast(parts: seq<Bytes>, m: nat, offset: nat, remain: nat, all: seq<Bytes>, got: seq<Bytes>)
    requires Taken(parts, m, offset, remain, all, got) && m < |parts| && 0 < remain < |parts[m]| - offset
    ensures Taken(parts, m, offset + remain, 0, all, got + [parts[m][offset..offset + remain]])
  {
    PiecesStep(parts, m, offset, remain);
    assert got + [parts[m][offset..offset + remain]] + [] == all;
  }

  lemma TakenNext(parts: seq<Bytes>, m: nat, offset: nat, remain: nat, all: seq<Bytes>, got: seq<Bytes>)
    requires Taken(parts, m, offset, remain, all, got) && m < |parts| && offset <= |parts[m]| && remain > 0 && remain >= |parts[m]| - offset
    ensures var here := |parts[m]| - offset;
      Taken(parts, m + 1, 0, remain - here, all, got + (if here > 0 then [parts[m][offset..]] else []))
  {
    PiecesStep(parts, m, offset, remain);
    hide Rest, Pieces, Concat;
    var here := |parts[m]| - offset;
    var first := if here > 0 then [parts[m][offset..]] else [];
    var rest := Pieces(parts, m + 1, 0, remain - here);
    assert got + (first + rest) == (got + first) + rest;
  }

  lemma SumFirst(parts: seq<Bytes>)
    requires parts != []
    ensures Sum(parts[..1]) == |parts[0]|
  {
    assert Concat(parts[..1]) == parts[0];
  }

  lemma SumNext(parts: seq<Bytes>, i: nat)
    requires i < |parts|
    ensures Sum(parts[..i + 1]) == Sum(parts[..i]) + |parts[i]|
  {
    assert parts[..i + 1] == parts[..i] + [parts[i]];
    ConcatSplit(parts[..i], [parts[i]]);
    assert Concat([parts[i]]) == parts[i];
  }
}
