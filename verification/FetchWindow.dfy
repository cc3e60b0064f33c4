/**
  The sliding window of segment states: a ring buffer (csrc/fetch/window.h, csrc/fetch/seg.h).

  The ring capacity is a power of two in the source, so that `& capacityMask` is `% capacity`.
 */
module FetchWindow {
  import opened Common
  import MinTmr

  /** Per-segment state; its RTO timer is the timer of the same ring position. */
  datatype FetchSeg = FetchSeg(segNum: nat, txTime: int, deleted: bool, inRetxQ: bool, nRetx: nat)

  /** A window as a value: the ring, the position of `lo`, and the segment numbers `lo <= n < hi`. */
  datatype Win = Win(ring: seq<FetchSeg>, loPos: nat, lo: nat, hi: nat) {

    /** The ring position of a segment number in the window. */
    ghost function Pos(n: nat): (p: int) {
      if n - lo + loPos < |ring| then n - lo + loPos else n - lo + loPos - |ring|
    }

    ghost predicate Shape() {
      && loPos < |ring|
      && lo <= hi <= lo + |ring|
      && (forall n | lo <= n < hi :: ring[Pos(n)].segNum == n)
    }

    /** In between operations the lowest segment number, if any, has not been deleted. */
    ghost predicate Valid() {
      Shape() && (lo < hi ==> !ring[loPos].deleted)
    }

    ghost predicate Has(n: nat) {
      lo <= n < hi && 0 <= Pos(n) < |ring| && !ring[Pos(n)].deleted
    }

    /** The ring positions that hold a segment which is in the window and not deleted. */
    ghost function Live(): (s: set<int>) {
      set p | 0 <= p < |ring| && Has(ring[p].segNum) && Pos(ring[p].segNum) == p
    }

    /** The segment numbers that were requested and then deleted, which is to say retrieved. */
    ghost function Done(): (s: set<nat>) {
      set n: nat | n < hi && (n < lo || !Has(n))
    }
  }

  /** Distinct segment numbers of the window have distinct ring positions. */
  lemma PosInjective(w: Win, m: nat, n: nat)
    requires w.Shape() && w.lo <= m < w.lo + |w.ring| && w.lo <= n < w.lo + |w.ring|
    ensures 0 <= w.Pos(n) < |w.ring|
    ensures w.Pos(m) == w.Pos(n) ==> m == n
  {
  }

  lemma LiveOf(w: Win, n: nat)
    requires w.Shape() && w.Has(n)
    ensures w.Pos(n) in w.Live() && w.ring[w.Pos(n)].segNum == n
  {
  }

  /** The window with a new segment at its upper end. */
  ghost function Appended(w: Win): (r: Win)
    requires w.Shape() && w.hi < w.lo + |w.ring|
  {
    Win(w.ring[w.Pos(w.hi) := FetchSeg(w.hi, 0, false, false, 0)], w.loPos, w.lo, w.hi + 1)
  }

  lemma AppendedValid(w: Win)
    requires w.Valid() && w.hi < w.lo + |w.ring|
    ensures Appended(w).Valid()
    ensures w.Pos(w.hi) !in w.Live() && Appended(w).Live() == w.Live() + {w.Pos(w.hi)}
    ensures Appended(w).Done() == w.Done()
  {
    var w', p := Appended(w), w.Pos(w.hi);
    forall n: nat | w.lo <= n <= w.hi ensures w'.Pos(n) == w.Pos(n) && (n < w.hi ==> w.Pos(n) != p) {
      PosInjective(w, n, w.hi);
    }
  }

  /** The window with a segment marked as deleted. */
  ghost function Marked(w: Win, n: nat): (r: Win)
    requires w.Shape() && w.Has(n)
  {
    w.(ring := w.ring[w.Pos(n) := w.ring[w.Pos(n)].(deleted := true)])
  }

  lemma MarkedShape(w: Win, n: nat)
    requires w.Shape() && w.Has(n)
    ensures Marked(w, n).Shape() && |Marked(w, n).ring| == |w.ring|
    ensures Marked(w, n).Live() == w.Live() - {w.Pos(n)} && w.Pos(n) in w.Live()
    ensures Marked(w, n).Done() == w.Done() + {n} && n !in w.Done()
  {
    var w' := Marked(w, n);
    forall m: nat | w.lo <= m < w.hi ensures w'.Pos(m) == w.Pos(m) && (w.Pos(m) == w.Pos(n) ==> m == n) {
      PosInjective(w, m, n);
    }
  }

  /** The window with its lower end moved over one deleted segment. */
  ghost function Stepped(w: Win): (r: Win) {
    w.(loPos := if w.loPos + 1 < |w.ring| then w.loPos + 1 else w.loPos + 1 - |w.ring|, lo := w.lo + 1)
  }

  lemma SteppedShape(w: Win)
    requires w.Shape() && w.lo < w.hi && w.ring[w.loPos].deleted
    ensures Stepped(w).Shape() && Stepped(w).Live() == w.Live() && Stepped(w).Done() == w.Done()
  {
    var w' := Stepped(w);
    forall n: nat | w.lo < n < w.hi ensures w'.Pos(n) == w.Pos(n) {
    }
  }

  /** The window with bookkeeping fields of one segment changed. */
  ghost predicate Touches(w: Win, w': Win, p: int) {
    && 0 <= p < |w.ring| && |w'.ring| == |w.ring|
    && w'.loPos == w.loPos && w'.lo == w.lo && w'.hi == w.hi
    && w'.ring[p].segNum == w.ring[p].segNum && w'.ring[p].deleted == w.ring[p].deleted
    && (forall q | 0 <= q < |w.ring| && q != p :: w'.ring[q] == w.ring[q])
  }

  lemma TouchesKeeps(w: Win, w': Win, p: int)
    requires w.Shape() && Touches(w, w', p)
    ensures w'.Shape() && (w.Valid() ==> w'.Valid()) && w'.Live() == w.Live() && w'.Done() == w.Done()
  {
    forall n: nat | w.lo <= n < w.hi ensures w'.Pos(n) == w.Pos(n) && w'.ring[w'.Pos(n)].segNum == n {
      PosInjective(w, n, n);
    }
  }

  class FetchWindow {
    const capacity: nat
    const ring: array<FetchSeg>
    var loPos: nat
    var loSegNum: nat
    var hiSegNum: nat

    ghost function View(): Win
      reads this, ring
    {
      Win(ring[..], loPos, loSegNum, hiSegNum)
    }

    ghost predicate Valid()
      reads this, ring
    {
      capacity == ring.Length && View().Valid()
    }

    constructor (capacity: nat)
      requires capacity > 0
      ensures Valid() && fresh(ring) && this.capacity == capacity
      ensures hiSegNum == 0 && View().Live() == {} && View().Done() == {}
    {
      this.capacity := capacity;
      ring := new FetchSeg[capacity](_ => FetchSeg(0, 0, false, false, 0));
      loPos, loSegNum, hiSegNum := 0, 0, 0;
    }

    /** The ring position of a segment number in the window. */
    method Access(segNum: nat) returns (p: nat)
      requires capacity == ring.Length && loPos < capacity && loSegNum <= segNum < loSegNum + capacity
      ensures p == View().Pos(segNum) && p < capacity
    {
      p := (segNum - loSegNum + loPos) % capacity;
      MinTmr.MaskWraps(segNum - loSegNum + loPos, capacity);
    }

    /** The ring position of a segment, if it is in the window and has not been deleted. */
    method Get(segNum: nat) returns (r: Option<nat>)
      requires Valid()
      ensures r.Some? <==> View().Has(segNum)
      ensures r.Some? ==> r.value == View().Pos(segNum) && r.value < capacity && r.value in View().Live()
    {
      if !(loSegNum <= segNum < hiSegNum) {
        return None;
      }
      var p := Access(segNum);
      if ring[p].deleted {
        return None;
      }
      LiveOf(View(), segNum);
      return Some(p);
    }

    /** Change the bookkeeping fields of one segment. */
    method Update(p: nat, seg: FetchSeg)
      requires Valid() && p < capacity && seg.segNum == ring[p].segNum && seg.deleted == ring[p].deleted
      modifies ring
      ensures Valid() && ring[p] == seg && Touches(old(View()), View(), p)
    {
      ring[p] := seg;
      TouchesKeeps(old(View()), View(), p);
    }

    /** Open the next segment; refused when the ring is full. */
    method Append() returns (r: Option<nat>)
      requires Valid()
      modifies this`hiSegNum, ring
      ensures Valid()
      ensures r.Some? <==> old(hiSegNum) < loSegNum + capacity
      ensures r.None? ==> View() == old(View())
      ensures r.Some? ==> View() == Appended(old(View())) && r.value == old(View().Pos(hiSegNum))
    {
      var segNum := hiSegNum;
      if segNum - loSegNum > capacity - 1 {
        return None;
      }
      AppendedValid(View());
      var p := Access(segNum);
      hiSegNum := hiSegNum + 1;
      ring[p] := FetchSeg(segNum, 0, false, false, 0);
      assert View().ring == Appended(old(View())).ring;
      return Some(p);
    }

    /** Move the lower end over the deleted segments. */
    method Advance()
      requires capacity == ring.Length && View().Shape()
      modifies this`loPos, this`loSegNum
      ensures Valid()
      ensures loSegNum >= old(loSegNum) && View().Live() == old(View().Live()) && View().Done() == old(View().Done())
    {
      while loSegNum < hiSegNum
        invariant View().Shape() && loSegNum >= old(loSegNum)
        invariant View().Live() == old(View().Live()) && View().Done() == old(View().Done())
      {
        if !ring[loPos].deleted {
          break;
        }
        SteppedShape(View());
        ghost var w := View();
        MinTmr.MaskWraps(loPos + 1, capacity);
        loPos := (loPos + 1) % capacity;
        loSegNum := loSegNum + 1;
        assert View() == Stepped(w);
      }
    }

    /**
      Discard a segment: afterwards it is no longer live, it counts as retrieved, and the lower
      end has moved over every segment that was retrieved in sequence.
     */
    method Delete(segNum: nat)
      requires Valid()
      modifies this`loPos, this`loSegNum, ring
      ensures Valid() && loSegNum >= old(loSegNum)
      ensures old(View().Has(segNum)) ==>
        && ring[..] == old(Marked(View(), segNum)).ring
        && View().Live() == old(View().Live()) - {old(View()).Pos(segNum)}
        && View().Done() == old(View().Done()) + {segNum}
      ensures !old(View().Has(segNum)) ==> View() == old(View())
    {
      var r := Get(segNum);
      if r.None? {
        return;
      }
      MarkedShape(View(), segNum);
      ghost var w := View();
      ring[r.value] := ring[r.value].(deleted := true);
      assert View() == Marked(w, segNum);
      if segNum == loSegNum {
        Advance();
      }
    }
  }
}
