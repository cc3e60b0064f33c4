/**
  Retransmission and congestion logic of the segment fetcher (csrc/fetch/logic.c, csrc/fetch/logic.h).

  A segment, its RTO timer and its node in the retransmission queue live in one ring slot, so
  all three are named by the ring position.  The congestion window size is an input of every
  transmission; the clock is an input of every operation.
 */
module FetchLogic {
  import opened Common
  import opened Lists
  import opened Window = FetchWindow
  import MinTmr
  import RttEst

  type Pos = int

  ghost function ToSet(s: seq<Pos>): set<Pos> {
    set p | p in s
  }

  /**
    The life cycle of the segments.  Every live segment is in exactly one of four places: its
    timer is armed (`armed`); it is queued, once, for retransmission; its timer has just expired
    and its callback is about to run (`firing`); or it was given up on because it lies beyond the
    final segment (`orphans`).  No other ring slot has an armed timer or is in the queue.
   */
  ghost predicate Tracked(w: Win, armed: set<Pos>, retxQ: seq<Pos>, firing: seq<Pos>, orphans: set<Pos>) {
    && NoDup(retxQ) && NoDup(firing)
    && armed !! ToSet(retxQ) !! ToSet(firing) !! orphans
    && w.Live() == armed + ToSet(retxQ) + ToSet(firing) + orphans
    && (forall p | p in w.Live() :: 0 <= p < |w.ring| && (w.ring[p].inRetxQ <==> p in retxQ))
  }

  lemma InRange(w: Win, armed: set<Pos>, retxQ: seq<Pos>, firing: seq<Pos>, orphans: set<Pos>)
    requires w.Shape() && Tracked(w, armed, retxQ, firing, orphans)
    ensures forall p | p in retxQ || p in firing :: 0 <= p < |w.ring| && p in w.Live() && w.ring[p].segNum < w.hi
  {
    forall p | p in retxQ || p in firing ensures p in w.Live() {
      assert p in ToSet(retxQ) || p in ToSet(firing);
    }
  }

  /** A newly opened segment gets its timer armed. */
  lemma TrackNew(w: Win, w': Win, armed: set<Pos>, retxQ: seq<Pos>, orphans: set<Pos>)
    requires w.Valid() && w.hi < w.lo + |w.ring| && Tracked(w, armed, retxQ, [], orphans)
    requires Touches(Appended(w), w', w.Pos(w.hi)) && !w'.ring[w.Pos(w.hi)].inRetxQ
    ensures w'.Valid() && w'.Done() == w.Done() && w.Pos(w.hi) !in armed
    ensures Tracked(w', armed + {w.Pos(w.hi)}, retxQ, [], orphans)
  {
    AppendedValid(w);
    TouchesKeeps(Appended(w), w', w.Pos(w.hi));
  }

  /** The head of the retransmission queue gets its timer armed. */
  lemma TrackRetx(w: Win, w': Win, armed: set<Pos>, retxQ: seq<Pos>, orphans: set<Pos>)
    requires w.Valid() && retxQ != [] && Tracked(w, armed, retxQ, [], orphans)
    requires Touches(w, w', retxQ[0]) && !w'.ring[retxQ[0]].inRetxQ
    ensures w'.Valid() && w'.Done() == w.Done() && retxQ[0] !in armed
    ensures Tracked(w', armed + {retxQ[0]}, retxQ[1..], [], orphans)
  {
    TouchesKeeps(w, w', retxQ[0]);
    var p := retxQ[0];
    assert p in retxQ;
    assert ToSet(retxQ) == {p} + ToSet(retxQ[1..]);
    assert p !in retxQ[1..];
  }

  /** Data arrived: the segment leaves whichever place it was in. */
  lemma TrackData(w: Win, w': Win, armed: set<Pos>, retxQ: seq<Pos>, orphans: set<Pos>, p: Pos)
    requires w.Valid() && Tracked(w, armed, retxQ, [], orphans)
    requires w'.Valid() && |w'.ring| == |w.ring| && p in w.Live() && w'.Live() == w.Live() - {p}
    requires forall q | 0 <= q < |w.ring| && q != p :: w'.ring[q] == w.ring[q]
    ensures Tracked(w', armed - {p}, Without(retxQ, p), [], orphans - {p})
    ensures w.ring[p].inRetxQ ==> p !in armed && p !in orphans
    ensures !w.ring[p].inRetxQ ==> p !in retxQ && Without(retxQ, p) == retxQ && (p in armed <==> p !in orphans)
  {
    WithoutNoDup(retxQ, p);
    assert ToSet(Without(retxQ, p)) == ToSet(retxQ) - {p};
    if p !in retxQ { WithoutAbsent(retxQ, p); }
  }

  lemma {:induction false} WithoutAbsent(s: seq<Pos>, p: Pos)
    requires p !in s
    ensures Without(s, p) == s
  {
    if s != [] {
      WithoutAbsent(s[1..], p);
    }
  }

  /** Timers expired: their segments wait for the callback. */
  lemma TrackFired(w: Win, armed: set<Pos>, armed': set<Pos>, retxQ: seq<Pos>, firing: seq<Pos>, orphans: set<Pos>)
    requires w.Shape() && Tracked(w, armed, retxQ, [], orphans)
    requires NoDup(firing) && ToSet(firing) <= armed && armed' == armed - ToSet(firing)
    ensures Tracked(w, armed', retxQ, firing, orphans)
  {
  }

  /** The callback queues the segment for retransmission. */
  lemma TrackTimeout(w: Win, w': Win, armed: set<Pos>, retxQ: seq<Pos>, firing: seq<Pos>, orphans: set<Pos>)
    requires w.Valid() && firing != [] && Tracked(w, armed, retxQ, firing, orphans)
    requires Touches(w, w', firing[0]) && w'.ring[firing[0]].inRetxQ
    ensures w'.Valid() && w'.Done() == w.Done()
    ensures Tracked(w', armed, retxQ + [firing[0]], firing[1..], orphans)
  {
    TouchesKeeps(w, w', firing[0]);
    var p := firing[0];
    assert p in firing;
    assert ToSet(firing) == {p} + ToSet(firing[1..]);
    assert p !in firing[1..];
    assert ToSet(retxQ + [p]) == ToSet(retxQ) + {p};
  }

  /** The callback gives up on a segment beyond the final one. */
  lemma TrackOrphan(w: Win, armed: set<Pos>, retxQ: seq<Pos>, firing: seq<Pos>, orphans: set<Pos>)
    requires w.Shape() && firing != [] && Tracked(w, armed, retxQ, firing, orphans)
    ensures Tracked(w, armed, retxQ, firing[1..], orphans + {firing[0]})
  {
    var p := firing[0];
    assert p in firing;
    assert ToSet(firing) == {p} + ToSet(firing[1..]);
    assert p !in firing[1..];
  }

  const UINT16 := 0x1_0000
  const UINT32 := 0x1_0000_0000

  function Wrap32(n: int): (r: int)
    ensures 0 <= n < UINT32 ==> r == n
    ensures 0 <= r < UINT32
  {
    n % UINT32
  }

  /** `++` and `--` on a 32-bit counter. */
  function Inc32(n: int): int {
    Wrap32(n + 1)
  }

  function Dec32(n: int): int {
    Wrap32(n - 1)
  }

  /** The value of the counter of Interests in flight. */
  ghost function Flight(armed: nat, firing: nat, late: nat): int {
    Wrap32(armed + firing - late)
  }

  lemma FlightUp(a: nat, f: nat, late: nat, a': nat)
    requires a' == a + 1
    ensures Inc32(Flight(a, f, late)) == Flight(a', f, late)
  {
  }

  lemma FlightDown(a: nat, f: nat, late: nat, a': nat, f': nat, late': nat)
    requires a' + f' - late' == a + f - late - 1
    ensures Dec32(Flight(a, f, late)) == Flight(a', f', late')
  {
  }

  lemma FlightSame(a: nat, f: nat, a': nat, f': nat, late: nat)
    requires a' + f' == a + f
    ensures Flight(a, f, late) == Flight(a', f', late)
  {
  }

  const WHEEL_SLOTS: nat := 65536

  /** The scheduler, whose interval is one millisecond, takes the largest timeout. */
  ghost predicate WheelFits(hz: nat) {
    0 < hz / 1000 && RttEst.FromMillis(RttEst.MAXRTO_MS, hz) <= MinTmr.GetMaxDelay(MinTmr.Config(hz / 1000, WHEEL_SLOTS))
  }

  /**
    The state as a value.  `orphans` are the live segments whose timers expired after they had been
    declared to be beyond the final one; `late` counts those that were then retrieved after all.
   */
  datatype State = State(win: Win, armed: set<Pos>, retxQ: seq<Pos>, firing: seq<Pos>, nInFlight: int, nRxData: nat,
                         orphans: set<Pos>, late: nat)

  /** The invariant of every run. */
  ghost predicate Good(s: State) {
    && s.win.Valid()
    && Tracked(s.win, s.armed, s.retxQ, s.firing, s.orphans)
    && s.nInFlight == Flight(|s.armed|, |s.firing|, s.late)
    && s.nRxData == |s.win.Done()|
  }

  lemma GoodStart(w: Win)
    requires w.Valid() && w.Live() == {} && w.Done() == {}
    ensures Good(State(w, {}, [], [], 0, 0, {}, 0))
  {
  }

  lemma QueueInRange(s: State)
    requires Good(s)
    ensures forall k | 0 <= k < |s.retxQ| :: 0 <= s.retxQ[k] < |s.win.ring|
    ensures forall k | 0 <= k < |s.firing| :: 0 <= s.firing[k] < |s.win.ring| && s.win.ring[s.firing[k]].segNum < s.win.hi
  {
    hide Flight, Tracked, Win.Live, Win.Done, Win.Shape, NoDup;
    InRange(s.win, s.armed, s.retxQ, s.firing, s.orphans);
    forall k | 0 <= k < |s.retxQ| ensures 0 <= s.retxQ[k] < |s.win.ring| { assert s.retxQ[k] in s.retxQ; }
    forall k | 0 <= k < |s.firing| ensures 0 <= s.firing[k] < |s.win.ring| && s.win.ring[s.firing[k]].segNum < s.win.hi { assert s.firing[k] in s.firing; }
  }

  /** The first queued segment is sent again; `w` is the window with its bookkeeping fields updated. */
  function Retx(s: State, w: Win): State
    requires s.retxQ != []
  {
    s.(win := w, armed := s.armed + {s.retxQ[0]}, retxQ := s.retxQ[1..], nInFlight := Inc32(s.nInFlight))
  }

  lemma GoodRetx(s: State, w: Win)
    requires Good(s) && s.firing == [] && s.retxQ != []
    requires Touches(s.win, w, s.retxQ[0]) && !w.ring[s.retxQ[0]].inRetxQ
    ensures Good(Retx(s, w)) && w.Done() == s.win.Done() && s.retxQ[0] !in s.armed
  {
    hide Inc32, Flight, Tracked, Touches, Win.Live, Win.Done, Win.Shape, NoDup;
    TrackRetx(s.win, w, s.armed, s.retxQ, s.orphans);
    FlightUp(|s.armed|, |s.firing|, s.late, |s.armed + {s.retxQ[0]}|);
  }

  /** A new segment is opened and sent. */
  ghost function Fresh(s: State, w: Win): State {
    s.(win := w, armed := s.armed + {s.win.Pos(s.win.hi)}, nInFlight := Inc32(s.nInFlight))
  }

  lemma GoodFresh(s: State, w: Win)
    requires Good(s) && s.firing == [] && s.win.hi < s.win.lo + |s.win.ring|
    requires Touches(Appended(s.win), w, s.win.Pos(s.win.hi)) && !w.ring[s.win.Pos(s.win.hi)].inRetxQ
    ensures Good(Fresh(s, w)) && w.Done() == s.win.Done() && s.win.Pos(s.win.hi) !in s.armed
  {
    hide Inc32, Flight, Tracked, Touches, Appended, Win.Live, Win.Done, NoDup;
    TrackNew(s.win, w, s.armed, s.retxQ, s.orphans);
    FlightUp(|s.armed|, |s.firing|, s.late, |s.armed + {s.win.Pos(s.win.hi)}|);
  }

  /** The segment in ring slot `p` is retrieved: it leaves the place it was in; `w` is the window without it. */
  ghost function Data(s: State, w: Win, p: Pos): State {
    s.(win := w, armed := s.armed - {p}, retxQ := Without(s.retxQ, p), orphans := s.orphans - {p},
       nInFlight := if 0 <= p < |s.win.ring| && s.win.ring[p].inRetxQ then s.nInFlight else Dec32(s.nInFlight),
       nRxData := s.nRxData + 1,
       late := if p in s.orphans then s.late + 1 else s.late)
  }

  lemma HasFacts(w: Win, n: nat)
    requires w.Valid() && w.Has(n)
    ensures 0 <= w.Pos(n) < |w.ring| && w.Pos(n) in w.Live() && n !in w.Done()
  {
  }

  lemma GoodData(s: State, w: Win, n: nat)
    requires Good(s) && s.firing == [] && s.win.Has(n)
    requires w.Valid() && |w.ring| == |s.win.ring|
    requires w.Live() == s.win.Live() - {s.win.Pos(n)} && w.Done() == s.win.Done() + {n}
    requires forall q | 0 <= q < |w.ring| && q != s.win.Pos(n) :: w.ring[q] == s.win.ring[q]
    ensures 0 <= s.win.Pos(n) < |w.ring|
    ensures Good(Data(s, w, s.win.Pos(n)))
    ensures !s.win.ring[s.win.Pos(n)].inRetxQ ==> Without(s.retxQ, s.win.Pos(n)) == s.retxQ
    ensures s.win.ring[s.win.Pos(n)].inRetxQ ==> s.win.Pos(n) !in s.armed
  {
    hide Dec32, Flight, Tracked, Win.Live, Win.Done, Win.Shape, Win.Has, NoDup, Without, Win.Pos;
    var p := s.win.Pos(n);
    HasFacts(s.win, n);
    TrackData(s.win, w, s.armed, s.retxQ, s.orphans, p);
    DataFlight(s, w, p);
  }

  lemma DataFlight(s: State, w: Win, p: Pos)
    requires s.nInFlight == Flight(|s.armed|, |s.firing|, s.late) && 0 <= p < |s.win.ring|
    requires s.win.ring[p].inRetxQ ==> p !in s.armed && p !in s.orphans
    requires !s.win.ring[p].inRetxQ ==> (p in s.armed <==> p !in s.orphans)
    ensures var s' := Data(s, w, p); s'.nInFlight == Flight(|s'.armed|, |s'.firing|, s'.late)
  {
    hide Dec32, Flight, Without;
    if p in s.armed {
      FlightDown(|s.armed|, |s.firing|, s.late, |s.armed - {p}|, |s.firing|, s.late);
    } else {
      assert s.armed - {p} == s.armed;
      if !s.win.ring[p].inRetxQ {
        FlightDown(|s.armed|, |s.firing|, s.late, |s.armed|, |s.firing|, s.late + 1);
      }
    }
  }

  /** The timers of the ring slots `firing` have expired. */
  function Expired(s: State, armed: set<Pos>, firing: seq<Pos>): State {
    s.(armed := armed, firing := firing)
  }

  lemma GoodExpired(s: State, armed: set<Pos>, firing: seq<Pos>)
    requires Good(s) && s.firing == [] && NoDup(firing)
    requires ToSet(firing) <= s.armed && armed == s.armed - ToSet(firing)
    ensures Good(Expired(s, armed, firing))
  {
    hide Tracked, Win.Live, Win.Done, Win.Shape, Flight, NoDup, ToSet;
    TrackFired(s.win, s.armed, armed, s.retxQ, firing, s.orphans);
    ToSetSize(firing);
    assert s.armed == armed + ToSet(firing);
    FlightSame(|s.armed|, 0, |armed|, |firing|, s.late);
  }

  lemma {:induction false} ToSetSize(s: seq<Pos>)
    requires NoDup(s)
    ensures |ToSet(s)| == |s|
  {
    if s == [] {
      assert ToSet(s) == {};
    } else {
      ToSetSize(s[1..]);
      assert s[0] !in s[1..];
      assert ToSet(s) == {s[0]} + ToSet(s[1..]);
    }
  }

  /** The callback of the first expired timer queues its segment for retransmission. */
  function Timeout(s: State, w: Win): State
    requires s.firing != []
  {
    s.(win := w, retxQ := s.retxQ + [s.firing[0]], firing := s.firing[1..], nInFlight := Dec32(s.nInFlight))
  }

  lemma GoodTimeout(s: State, w: Win)
    requires Good(s) && s.firing != []
    requires Touches(s.win, w, s.firing[0]) && w.ring[s.firing[0]].inRetxQ
    ensures Good(Timeout(s, w)) && w.Done() == s.win.Done()
  {
    hide Dec32, Flight, Tracked, Touches, Win.Live, Win.Done, Win.Shape, NoDup;
    TrackTimeout(s.win, w, s.armed, s.retxQ, s.firing, s.orphans);
    FlightDown(|s.armed|, |s.firing|, s.late, |s.armed|, |s.firing[1..]|, s.late);
  }

  /** The callback of the first expired timer gives up on a segment beyond the final one. */
  function GiveUp(s: State): State
    requires s.firing != []
  {
    s.(orphans := s.orphans + {s.firing[0]}, firing := s.firing[1..], nInFlight := Dec32(s.nInFlight))
  }

  lemma GoodGiveUp(s: State)
    requires Good(s) && s.firing != []
    ensures Good(GiveUp(s))
  {
    hide Dec32, Flight, Tracked, Win.Live, Win.Done, Win.Shape, NoDup;
    TrackOrphan(s.win, s.armed, s.retxQ, s.firing, s.orphans);
    FlightDown(|s.armed|, |s.firing|, s.late, |s.armed|, |s.firing[1..]|, s.late);
  }

  /** The callback of the first expired timer: `w` is the window in which the segment is marked as queued. */
  function Rto(s: State, w: Win, final: nat): State
    requires s.firing != [] && 0 <= s.firing[0] < |s.win.ring|
  {
    if s.win.ring[s.firing[0]].segNum > final then GiveUp(s) else Timeout(s, w)
  }

  /** `Finished` tells the truth: the lower end is past the final segment exactly when all segments up to it are retrieved. */
  lemma FinishedIsComplete(w: Win, final: nat)
    requires w.Valid()
    ensures w.lo > final <==> forall n: nat | n <= final :: n in w.Done()
  {
    if w.lo <= final {
      assert w.lo !in w.Done();
    }
  }

  /** When it is finished, as many Data were counted as there are segments: duplicates were not. */
  lemma FinishedCount(s: State, final: nat)
    requires Good(s) && s.win.hi <= final + 1 && s.win.lo > final
    ensures s.nRxData == final + 1 && s.win.Live() == {}
  {
    assert s.win.Done() == Range(final + 1);
  }

  ghost function Range(k: nat): (r: set<int>)
    ensures forall n :: n in r <==> 0 <= n < k
    ensures |r| == k
  {
    if k == 0 then {} else Range(k - 1) + {k - 1}
  }

  /**
    The counter of Interests in flight is the number of armed timers, exactly as long as no Data
    came for a segment that had been given up on (or such Data wrapped the counter around).
   */
  lemma InFlightIsArmed(s: State)
    requires Good(s) && s.firing == [] && |s.win.ring| < UINT32
    ensures s.nInFlight == |s.armed| <==> s.late % UINT32 == 0
  {
    hide Tracked, Win.Live, Win.Done, Win.Shape, NoDup, Flight;
    ArmedSize(s.win, s.armed, s.retxQ, s.orphans);
    FlightExact(|s.armed|, s.late);
  }

  /** At an arrival: a counter that is right stays right exactly if the segment was armed or queued. */
  lemma CountAtArrival(s: State, w: Win, n: nat)
    requires Good(s) && s.firing == [] && s.win.Has(n) && |s.win.ring| < UINT32 && s.nInFlight == |s.armed|
    requires w.Valid() && |w.ring| == |s.win.ring|
    requires w.Live() == s.win.Live() - {s.win.Pos(n)} && w.Done() == s.win.Done() + {n}
    requires forall q | 0 <= q < |w.ring| && q != s.win.Pos(n) :: w.ring[q] == s.win.ring[q]
    ensures var p := s.win.Pos(n); var s' := Data(s, w, p);
      s'.nInFlight == |s'.armed| <==> p in s.armed || p in s.retxQ
  {
    hide Good, Flight, Dec32, Win.Live, Win.Done, Win.Shape, Win.Has, Win.Pos, Win.Valid, NoDup, Without;
    var p := s.win.Pos(n);
    GoodData(s, w, n);
    InFlightIsArmed(s);
    InFlightIsArmed(Data(s, w, p));
    WaitingPlace(s, n);
  }

  /** A segment that is waited for is armed, queued, or given up on. */
  lemma WaitingPlace(s: State, n: nat)
    requires Good(s) && s.firing == [] && s.win.Has(n)
    ensures var p := s.win.Pos(n); p in s.orphans <==> !(p in s.armed || p in s.retxQ)
  {
    hide Win.Live, Win.Done, Win.Shape, Win.Has, Win.Pos, NoDup, Flight;
    HasFacts(s.win, n);
    assert ToSet([]) == {};
    assert forall q :: q in ToSet(s.retxQ) <==> q in s.retxQ;
  }

  lemma FlightExact(a: nat, late: nat)
    requires a < UINT32
    ensures Flight(a, 0, late) == a <==> late % UINT32 == 0
  {
  }

  lemma ArmedSize(w: Win, armed: set<Pos>, retxQ: seq<Pos>, orphans: set<Pos>)
    requires Tracked(w, armed, retxQ, [], orphans)
    ensures |armed| <= |w.ring|
  {
    forall p | p in armed ensures 0 <= p < |w.ring| {
      assert p in w.Live();
    }
    var r := Range(|w.ring|);
    assert r == armed + (r - armed);
  }

  /** Two segments in a window of two. */
  ghost function Two(first: FetchSeg, second: FetchSeg): Win {
    Win([first, second], 0, 0, 2)
  }

  const SEG0 := FetchSeg(0, 0, false, false, 0)
  const SEG1 := FetchSeg(1, 0, false, false, 0)

  /** Segments 0 and 1 have been sent; neither was beyond the final segment as it was then. */
  lemma TwoSent(s: State, final: nat)
    requires s == State(Two(SEG0, SEG1), {0, 1}, [], [], 2, 0, {}, 0) && final >= 1
    ensures var s0 := State(Win([SEG0, SEG0], 0, 0, 0), {}, [], [], 0, 0, {}, 0);
      var s1 := Fresh(s0, Win([SEG0, SEG0], 0, 0, 1));
      Good(s0) && s0.win.hi <= final && s1.win.hi <= final && s == Fresh(s1, Two(SEG0, SEG1)) && Good(s)
  {
    var s0 := State(Win([SEG0, SEG0], 0, 0, 0), {}, [], [], 0, 0, {}, 0);
    var w1 := Win([SEG0, SEG0], 0, 0, 1);
    GoodStart(s0.win);
    assert w1 == Appended(s0.win);
    GoodFresh(s0, w1);
    assert Two(SEG0, SEG1) == Appended(w1);
    GoodFresh(Fresh(s0, w1), Two(SEG0, SEG1));
  }

  /**
    What goes wrong when the final segment number is lowered below a segment already requested:
    segments 0 and 1 are sent, segment 0 is declared final, both timers expire, and then segment 1
    arrives after all.  The counter wraps to its largest value although no timer is armed, and no
    congestion window is large enough for another transmission.
   */
  lemma LoweringFinalUnderflows(s2: State, s3: State, s4: State, s5: State, final: nat)
    requires s2 == State(Two(SEG0, SEG1), {0, 1}, [], [], 2, 0, {}, 0)
    requires s3 == Expired(s2, {}, [0, 1])
    requires s4 == State(Two(SEG0.(inRetxQ := true), SEG1), {}, [0], [1], 1, 0, {}, 0)
    requires s5 == State(Two(SEG0.(inRetxQ := true), SEG1), {}, [0], [], 0, 0, {1}, 0)
    requires final == 0
    ensures Good(s2) && Good(s3) && s4 == Rto(s3, s4.win, final) && Good(s4) && s5 == Rto(s4, s5.win, final) && Good(s5)
    ensures var s6 := Data(s5, Two(SEG0.(inRetxQ := true), SEG1.(deleted := true)), 1); s6.nInFlight == UINT32 - 1 && s6.armed == {}
  {
    hide Good;
    TwoSent(s2, 1);
    TwoExpired(s2);
    OneQueued(s3, s4);
    GoodGiveUp(s4);
    assert s4.firing[1..] == [] && s3.firing[1..] == [1];
  }

  lemma TwoExpired(s2: State)
    requires s2 == State(Two(SEG0, SEG1), {0, 1}, [], [], 2, 0, {}, 0) && Good(s2)
    ensures Good(Expired(s2, {}, [0, 1]))
  {
    hide Good;
    assert ToSet([0, 1]) == {0, 1};
    GoodExpired(s2, {}, [0, 1]);
  }

  lemma OneQueued(s3: State, s4: State)
    requires s3 == State(Two(SEG0, SEG1), {}, [], [0, 1], 2, 0, {}, 0) && Good(s3)
    requires s4 == State(Two(SEG0.(inRetxQ := true), SEG1), {}, [0], [1], 1, 0, {}, 0)
    ensures s4 == Timeout(s3, s4.win) && Good(s4)
  {
    hide Good;
    assert s3.firing[1..] == [1];
    GoodTimeout(s3, s4.win);
  }

  /** With nothing in flight and the retrieval unfinished, there is a segment to send. */
  lemma NeverStuck(s: State, final: nat)
    requires Good(s) && s.firing == [] && s.orphans == {} && s.late == 0 && |s.win.ring| < UINT32
    requires s.win.hi <= final + 1 && s.win.lo <= final && s.nInFlight == 0
    ensures s.retxQ != [] || (s.win.hi <= final && s.win.hi < s.win.lo + |s.win.ring|)
  {
    hide Tracked, Win.Live, Win.Done, NoDup, Flight;
    InFlightIsArmed(s);
    if s.retxQ == [] {
      NothingLeft(s.win);
      if s.win.lo < s.win.hi {
        LiveOf(s.win, s.win.lo);
      }
    }
  }

  /** The segment numbers of a list of ring slots. */
  function SegNums(ring: seq<FetchSeg>, q: seq<Pos>): (r: seq<nat>)
    requires forall i | 0 <= i < |q| :: 0 <= q[i] < |ring|
  {
    seq(|q|, i requires 0 <= i < |q| => ring[q[i]].segNum)
  }

  /**
    What a burst sends: some segments from the front of the queue, in order, and then, only when
    the queue has been drained, segments that were never sent before, in order.
   */
  ghost predicate BurstOf(ring: seq<FetchSeg>, q: seq<Pos>, hi: nat, sent: seq<nat>, nRetx: nat, q': seq<Pos>, hi': nat) {
    && (forall i | 0 <= i < |q| :: 0 <= q[i] < |ring|)
    && nRetx <= |q| && nRetx <= |sent| && q' == q[nRetx..] && hi' == hi + |sent| - nRetx
    && (|sent| > nRetx ==> q' == [])
    && sent == SegNums(ring, q[..nRetx]) + seq(|sent| - nRetx, i => hi + i)
  }

  ghost predicate SameSegments(ring: seq<FetchSeg>, ring': seq<FetchSeg>) {
    |ring'| == |ring| && forall q | 0 <= q < |ring| :: ring'[q].segNum == ring[q].segNum
  }

  lemma SameRefl(ring: seq<FetchSeg>)
    ensures SameSegments(ring, ring)
  {
  }

  lemma TouchesSame(ring: seq<FetchSeg>, w: Win, w': Win, p: Pos)
    requires Touches(w, w', p) && SameSegments(ring, w.ring)
    ensures SameSegments(ring, w'.ring)
  {
  }

  lemma BurstStart(ring: seq<FetchSeg>, q: seq<Pos>, hi: nat)
    requires forall i | 0 <= i < |q| :: 0 <= q[i] < |ring|
    ensures BurstOf(ring, q, hi, [], 0, q, hi)
  {
  }

  lemma BurstEmpty(ring: seq<FetchSeg>, q: seq<Pos>, hi: nat, nRetx: nat, q': seq<Pos>, hi': nat)
    requires BurstOf(ring, q, hi, [], nRetx, q', hi')
    ensures q' == q && hi' == hi
  {
  }

  lemma BurstRetx(ring: seq<FetchSeg>, ring': seq<FetchSeg>, q: seq<Pos>, hi: nat, sent: seq<nat>, nRetx: nat, q': seq<Pos>)
    requires BurstOf(ring, q, hi, sent, nRetx, q', hi) && q' != [] && SameSegments(ring, ring')
    ensures 0 <= q'[0] < |ring'| && BurstOf(ring, q, hi, sent + [ring'[q'[0]].segNum], nRetx + 1, q'[1..], hi)
  {
    assert q[..nRetx + 1] == q[..nRetx] + [q'[0]];
  }

  lemma BurstNew(ring: seq<FetchSeg>, q: seq<Pos>, hi: nat, sent: seq<nat>, nRetx: nat, hi': nat)
    requires BurstOf(ring, q, hi, sent, nRetx, [], hi')
    ensures BurstOf(ring, q, hi, sent + [hi'], nRetx, [], hi' + 1)
  {
  }

  /** A segment that is sent again. */
  function SentAgain(seg: FetchSeg, now: int): FetchSeg {
    seg.(inRetxQ := false, nRetx := (seg.nRetx + 1) % UINT16, txTime := now)
  }

  /** The slots of a list whose segments are not beyond the final one: those to be sent again. */
  function Wanted(ring: seq<FetchSeg>, q: seq<Pos>, final: nat): (r: seq<Pos>)
    requires forall i | 0 <= i < |q| :: 0 <= q[i] < |ring|
  {
    if q == [] then []
    else Wanted(ring, q[..|q| - 1], final) + if ring[q[|q| - 1]].segNum > final then [] else [q[|q| - 1]]
  }

  lemma WantedNext(ring: seq<FetchSeg>, q: seq<Pos>, i: nat, final: nat)
    requires i < |q| && forall k | 0 <= k < |q| :: 0 <= q[k] < |ring|
    ensures Wanted(ring, q[..i + 1], final) == Wanted(ring, q[..i], final) + if ring[q[i]].segNum > final then [] else [q[i]]
  {
    assert q[..i + 1][..i] == q[..i];
  }

  lemma SameTrans(ring: seq<FetchSeg>, ring': seq<FetchSeg>, ring'': seq<FetchSeg>, p: Pos)
    requires SameSegments(ring, ring') && SameSegments(ring', ring'') && 0 <= p < |ring|
    ensures SameSegments(ring, ring'') && p < |ring'| && ring'[p].segNum == ring[p].segNum
  {
  }

  /** If no segment beyond the final one was requested, all are sent again. */
  lemma {:induction false} AllWanted(w: Win, q: seq<Pos>, final: nat)
    requires w.Valid() && w.hi <= final + 1
    requires forall i | 0 <= i < |q| :: q[i] in w.Live()
    ensures forall i | 0 <= i < |q| :: 0 <= q[i] < |w.ring|
    ensures Wanted(w.ring, q, final) == q
    decreases |q|
  {
    if q != [] {
      AllWanted(w, q[..|q| - 1], final);
      assert q == q[..|q| - 1] + [q[|q| - 1]];
    }
  }

  class FetchLogic {
    const win: FetchWindow
    const sched: MinTmr.MinSched
    const rtte: RttEst.RttEst
    var retxQ: seq<Pos>
    var nTxRetx: nat
    var nRxData: nat
    var finalSegNum: nat
    var hiDataSegNum: nat
    var cwndDecreaseInterestSegNum: nat
    var nInFlight: int
    ghost var orphans: set<Pos>
    ghost var late: nat

    ghost function View(firing: seq<Pos>): State
      reads this, win, win.ring, sched
    {
      State(win.View(), sched.Due().Keys, retxQ, firing, nInFlight, nRxData, orphans, late)
    }

    ghost predicate Parts()
      reads this, win, win.ring, sched, sched.slot, rtte
    {
      && win.Valid() && sched.Valid() && rtte.Valid()
      && MinTmr.Fits(sched.Cfg(), rtte.maxRto) && win.capacity < UINT32
    }

    ghost predicate Inv(firing: seq<Pos>)
      reads this, win, win.ring, sched, sched.slot, rtte
    {
      Parts() && Good(View(firing))
    }

    ghost predicate Valid()
      reads this, win, win.ring, sched, sched.slot, rtte
    {
      Inv([])
    }

    /** No segment beyond the final one was ever requested. */
    ghost predicate Bounded()
      reads this, win
    {
      win.hiSegNum <= finalSegNum + 1 && orphans == {} && late == 0
    }

    constructor (windowCapacity: nat, hz: nat, now: int)
      requires 0 < windowCapacity < UINT32
      requires WheelFits(hz)
      ensures Valid() && Bounded()
      ensures fresh(win) && fresh(win.ring) && fresh(sched) && fresh(sched.slot) && fresh(rtte)
      ensures win.hiSegNum == 0 && win.View().Done() == {} && nRxData == 0 && finalSegNum == 0xFFFF_FFFF_FFFF_FFFF
      ensures sched.Due().Keys == {} && retxQ == []
    {
      hide MinTmr.MinSched.Valid;
      hide MinTmr.DueOf;
      hide RttEst.FromMillis;
      hide Good;
      hide Win.Live;
      hide Win.Done;
      win := new FetchWindow(windowCapacity);
      rtte := new RttEst.RttEst(hz);
      sched := new MinTmr.MinSched(WHEEL_SLOTS, hz / 1000, now);
      retxQ, nTxRetx, nRxData, finalSegNum := [], 0, 0, 0xFFFF_FFFF_FFFF_FFFF;
      hiDataSegNum, cwndDecreaseInterestSegNum, nInFlight := 0, 0, 0;
      orphans, late := {}, 0;
      new;
      GoodStart(win.View());
      assert sched.Due().Keys == {};
    }

    predicate Finished()
      reads this, win
    {
      win.loSegNum > finalSegNum
    }

    /** Arm the RTO timer of a segment that is being sent; the scheduler cannot refuse. */
    method Send(p: Pos)
      requires Parts()
      modifies this`nInFlight, sched`where, sched`history, sched.slot
      ensures Parts() && sched.Due().Keys == old(sched.Due().Keys) + {p}
      ensures sched.Due() == old(sched.Due())[p := MinTmr.TickFor(sched.Cfg(), sched.ticks, rtte.rto)]
      ensures nInFlight == Inc32(old(nInFlight))
    {
      hide MinTmr.MinSched.Shape;
      hide MinTmr.Recorded;
      hide MinTmr.DueOf;
      hide MinTmr.Max;
      hide Inc32;
      hide Win.Valid;
      ghost var due := sched.Due();
      var ok := sched.After(p, rtte.rto);
      assert ok;
      assert sched.Due().Keys == due.Keys + {p};
      nInFlight := Inc32(nInFlight);
    }

    /** Send the first segment of the retransmission queue. */
    method TxRetx(now: int) returns (segNum: nat)
      requires Valid() && retxQ != []
      modifies this`retxQ, this`nInFlight, win.ring, sched`where, sched`history, sched.slot
      ensures Valid() && View([]) == Retx(old(View([])), win.View()) && win.View().Done() == old(win.View().Done())
      ensures Touches(old(win.View()), win.View(), old(retxQ[0]))
      ensures segNum == old(win.View()).ring[old(retxQ[0])].segNum
      ensures win.View().ring[old(retxQ[0])] == SentAgain(old(win.View()).ring[old(retxQ[0])], now)
      ensures sched.Due() == old(sched.Due())[old(retxQ[0]) := MinTmr.TickFor(sched.Cfg(), sched.ticks, rtte.rto)]
    {
      hide MinTmr.MinSched.Valid, MinTmr.MinSched.Due, RttEst.RttEst.Valid, MinTmr.Fits;
      hide Good, Touches, Inc32, Win.Valid;
      ghost var s := View([]);
      var p := retxQ[0];
      QueueInRange(s);
      var seg := win.ring[p];
      segNum := seg.segNum;
      retxQ := retxQ[1..];
      win.Update(p, SentAgain(seg, now));
      GoodRetx(s, win.View());
      Send(p);
    }

    /** Open a new segment and send it; refused when the window is full. */
    method TxNew(now: int) returns (r: Option<nat>)
      requires Valid()
      modifies this`nInFlight, win`hiSegNum, win.ring, sched`where, sched`history, sched.slot
      ensures Valid() && win.View().Done() == old(win.View().Done())
      ensures r.None? <==> old(win.hiSegNum) == win.loSegNum + win.capacity
      ensures r.None? ==> View([]) == old(View([]))
      ensures r.Some? ==> View([]) == Fresh(old(View([])), win.View()) && r.value == old(win.hiSegNum)
      ensures win.hiSegNum == old(win.hiSegNum) + if r.Some? then 1 else 0
      ensures r.Some? ==> var p := old(win.View().Pos(win.hiSegNum));
        && 0 <= p < |win.View().ring| && win.View().ring[p].txTime == now && win.View().ring[p].nRetx == 0
        && sched.Due() == old(sched.Due())[p := MinTmr.TickFor(sched.Cfg(), sched.ticks, rtte.rto)]
    {
      hide MinTmr.MinSched.Valid, MinTmr.MinSched.Due, RttEst.RttEst.Valid, MinTmr.Fits;
      hide Good, Touches, Inc32;
      ghost var s := View([]);
      var a := win.Append();
      if a.None? {
        return None;
      }
      var p := a.value;
      var seg := win.ring[p];
      win.Update(p, seg.(txTime := now));
      GoodFresh(s, win.View());
      Send(p);
      return Some(seg.segNum);
    }

    lemma QueueFacts()
      requires Valid()
      ensures forall k | 0 <= k < |retxQ| :: 0 <= retxQ[k] < |win.ring[..]|
    {
      hide Good;
      QueueInRange(View([]));
    }

    /** With nothing in flight and the retrieval unfinished, there is a segment to send. */
    lemma NotStuck()
      requires Valid() && Bounded() && !Finished() && nInFlight == 0
      ensures retxQ != [] || (win.hiSegNum <= finalSegNum && win.hiSegNum < win.loSegNum + win.capacity)
    {
      hide Good, Win.Valid;
      NeverStuck(View([]), finalSegNum);
    }

    /** Add to the count of retransmissions, which no invariant depends on. */
    method CountRetx(n: nat)
      requires Valid()
      modifies this`nTxRetx
      ensures Valid() && nTxRetx == old(nTxRetx) + n
    {
      hide Good, Win.Valid, MinTmr.MinSched.Valid;
      nTxRetx := nTxRetx + n;
    }

    /** One iteration of a burst: the first queued segment if there is one, otherwise a new one if possible. */
    method TxOne(now: int) returns (r: Option<nat>)
      requires Valid()
      modifies this`retxQ, this`nInFlight, win`hiSegNum, win.ring, sched`where, sched`history, sched.slot
      ensures Valid() && (old(Bounded()) ==> Bounded()) && win.View().Done() == old(win.View().Done())
      ensures r.None? <==>
        old(retxQ) == [] && (old(win.hiSegNum) > finalSegNum || old(win.hiSegNum) == win.loSegNum + win.capacity)
      ensures r.None? ==> unchanged(this) && win.hiSegNum == old(win.hiSegNum)
      ensures r.Some? && old(retxQ) != [] ==>
        && retxQ == old(retxQ)[1..] && win.hiSegNum == old(win.hiSegNum)
        && Touches(old(win.View()), win.View(), old(retxQ)[0])
        && 0 <= old(retxQ)[0] < |old(win.ring[..])| && r.value == old(win.ring[..])[old(retxQ)[0]].segNum
      ensures r.Some? && old(retxQ) == [] ==>
        retxQ == [] && r.value == old(win.hiSegNum) && win.hiSegNum == r.value + 1
      ensures r.Some? ==> var p := if old(retxQ) != [] then old(retxQ)[0] else old(win.View().Pos(win.hiSegNum));
        && 0 <= p < |win.View().ring| && win.View().ring[p].txTime == now
        && sched.Due() == old(sched.Due())[p := MinTmr.TickFor(sched.Cfg(), sched.ticks, rtte.rto)]
    {
      hide MinTmr.MinSched.Valid, MinTmr.MinSched.Due, RttEst.RttEst.Valid, MinTmr.Fits;
      hide Good, Inc32, Win.Valid, Touches;
      if retxQ != [] {
        QueueFacts();
        var segNum := TxRetx(now);
        return Some(segNum);
      }
      if win.hiSegNum > finalSegNum {
        return None;
      }
      r := TxNew(now);
    }

    /** Send as many segments as the congestion window and the limit allow. */
    method TxInterestBurst(now: int, cwnd: nat, limit: nat) returns (segNums: seq<nat>)
      requires Valid() && cwnd >= 1
      modifies this`retxQ, this`nInFlight, this`nTxRetx, win`hiSegNum, win.ring, sched`where, sched`history, sched.slot
      ensures Valid() && (old(Bounded()) ==> Bounded()) && win.View().Done() == old(win.View().Done())
      ensures old(Bounded() && !Finished() && nInFlight == 0) && limit > 0 ==> segNums != []
      ensures |segNums| <= limit && nTxRetx >= old(nTxRetx)
      ensures BurstOf(old(win.ring[..]), old(retxQ), old(win.hiSegNum), segNums, nTxRetx - old(nTxRetx), retxQ, win.hiSegNum)
      ensures |segNums| == limit || nInFlight >= cwnd ||
        (retxQ == [] && (win.hiSegNum > finalSegNum || win.hiSegNum == win.loSegNum + win.capacity))
    {
      hide FetchLogic.Valid, FetchLogic.View, BurstOf, SameSegments, Touches, Win.Done, Win.Pos, MinTmr.MinSched.Due, MinTmr.TickFor;
      segNums := [];
      var nRetx := 0;
      ghost var ring, q, hi := win.ring[..], retxQ, win.hiSegNum;
      ghost var idle := Bounded() && !Finished() && nInFlight == 0;
      if idle { NotStuck(); }
      QueueFacts();
      BurstStart(ring, q, hi);
      SameRefl(ring);
      while nInFlight < cwnd && |segNums| < limit
        invariant Valid() && (old(Bounded()) ==> Bounded()) && win.View().Done() == old(win.View().Done())
        invariant BurstOf(ring, q, hi, segNums, nRetx, retxQ, win.hiSegNum)
        invariant retxQ != [] ==> SameSegments(ring, win.ring[..]) && win.hiSegNum == hi
        invariant |segNums| <= limit && nTxRetx == old(nTxRetx)
        invariant segNums == [] ==> nInFlight == old(nInFlight)
        decreases limit - |segNums|
      {
        ghost var w, q', sent := win.View(), retxQ, segNums;
        var isRetx := retxQ != [];
        var r := TxOne(now);
        if r.None? {
          break;
        }
        segNums := segNums + [r.value];
        if isRetx {
          BurstRetx(ring, w.ring, q, hi, sent, nRetx, q');
          TouchesSame(ring, w, win.View(), q'[0]);
          nRetx := nRetx + 1;
        } else {
          BurstNew(ring, q, hi, sent, nRetx, w.hi);
        }
      }
      if segNums == [] { BurstEmpty(ring, q, hi, nRetx, retxQ, win.hiSegNum); }
      CountRetx(nRetx);
    }

    /** Shrink the congestion window, unless no Data beyond the last decrease has arrived. */
    method DecreaseCwnd() returns (decreased: bool)
      modifies this`cwndDecreaseInterestSegNum
      ensures decreased <==> hiDataSegNum > old(cwndDecreaseInterestSegNum)
      ensures cwndDecreaseInterestSegNum == if decreased then win.hiSegNum else old(cwndDecreaseInterestSegNum)
    {
      if hiDataSegNum <= cwndDecreaseInterestSegNum {
        return false;
      }
      cwndDecreaseInterestSegNum := win.hiSegNum;
      return true;
    }

    /** Take a segment out of the retransmission queue, or cancel its RTO timer. */
    method Release(p: Pos, inRetxQ: bool)
      requires Parts()
      modifies this`retxQ, this`nInFlight, sched`where, sched`history, sched.slot
      ensures Parts()
      ensures retxQ == if inRetxQ then Without(old(retxQ), p) else old(retxQ)
      ensures nInFlight == if inRetxQ then old(nInFlight) else Dec32(old(nInFlight))
      ensures sched.Due().Keys == if inRetxQ then old(sched.Due().Keys) else old(sched.Due().Keys) - {p}
    {
      hide MinTmr.MinSched.Shape, MinTmr.Recorded, MinTmr.DueOf, Without, Dec32, Win.Valid, MinTmr.Fits;
      if inRetxQ {
        retxQ := Without(retxQ, p);
      } else {
        nInFlight := Dec32(nInFlight);
        ghost var due := sched.Due();
        sched.Cancel(p);
        assert sched.Due().Keys == due.Keys - {p};
      }
    }

    /** Update the RTT estimate, unless the segment was retransmitted, and the congestion window. */
    method Measure(now: int, seg: FetchSeg, segNum: nat, hasCongMark: bool)
      requires Parts()
      modifies this`hiDataSegNum, this`cwndDecreaseInterestSegNum, rtte
      ensures Parts()
      ensures seg.nRetx == 0 ==> rtte.last == now - seg.txTime
      ensures seg.nRetx != 0 ==> unchanged(rtte)
      ensures hiDataSegNum == if old(hiDataSegNum) >= segNum then old(hiDataSegNum) else segNum
      ensures cwndDecreaseInterestSegNum ==
        if hasCongMark && old(hiDataSegNum) > old(cwndDecreaseInterestSegNum) then win.hiSegNum else old(cwndDecreaseInterestSegNum)
    {
      hide MinTmr.MinSched.Valid, Win.Valid;
      if seg.nRetx == 0 {
        rtte.Push(now, now - seg.txTime);
      }
      if hasCongMark {
        var _ := DecreaseCwnd();
      }
      hiDataSegNum := if hiDataSegNum >= segNum then hiDataSegNum else segNum;
    }

    /** Count the Data of a segment, take it out of its place, and measure. */
    method Settle(now: int, seg: FetchSeg, p: Pos, segNum: nat, hasCongMark: bool)
      requires Parts()
      modifies this`retxQ, this`nInFlight, this`nRxData, this`hiDataSegNum, this`cwndDecreaseInterestSegNum,
               sched`where, sched`history, sched.slot, rtte
      ensures Parts() && nRxData == old(nRxData) + 1
      ensures retxQ == if seg.inRetxQ then Without(old(retxQ), p) else old(retxQ)
      ensures nInFlight == if seg.inRetxQ then old(nInFlight) else Dec32(old(nInFlight))
      ensures sched.Due().Keys == if seg.inRetxQ then old(sched.Due().Keys) else old(sched.Due().Keys) - {p}
      ensures seg.nRetx == 0 ==> rtte.last == now - seg.txTime
      ensures seg.nRetx != 0 ==> unchanged(rtte)
      ensures hiDataSegNum == if old(hiDataSegNum) >= segNum then old(hiDataSegNum) else segNum
      ensures cwndDecreaseInterestSegNum ==
        if hasCongMark && old(hiDataSegNum) > old(cwndDecreaseInterestSegNum) then win.hiSegNum else old(cwndDecreaseInterestSegNum)
    {
      hide MinTmr.MinSched.Valid, MinTmr.MinSched.Due, RttEst.RttEst.Valid, MinTmr.Fits, Win.Valid, Dec32, Without;
      nRxData := nRxData + 1;
      Release(p, seg.inRetxQ);
      Measure(now, seg, segNum, hasCongMark);
    }

    /** Data arrived for the segment in ring slot `p`, which is being waited for. */
    method Accept(now: int, segNum: nat, p: nat, hasCongMark: bool)
      requires Valid() && win.View().Has(segNum) && p == win.View().Pos(segNum)
      modifies this`retxQ, this`nInFlight, this`nRxData, this`hiDataSegNum, this`cwndDecreaseInterestSegNum, this`orphans, this`late,
               win`loPos, win`loSegNum, win.ring, sched`where, sched`history, sched.slot, rtte
      ensures Valid() && win.loSegNum >= old(win.loSegNum)
      ensures View([]) == Data(old(View([])), win.View(), p)
      ensures win.View().Done() == old(win.View().Done()) + {segNum}
      ensures p < win.ring.Length
      ensures old(win.ring[p]).nRetx == 0 ==> rtte.last == now - old(win.ring[p]).txTime
      ensures old(win.ring[p]).nRetx != 0 ==> unchanged(rtte)
      ensures hiDataSegNum == if old(hiDataSegNum) >= segNum then old(hiDataSegNum) else segNum
      ensures cwndDecreaseInterestSegNum ==
        if hasCongMark && old(hiDataSegNum) > old(cwndDecreaseInterestSegNum) then win.hiSegNum else old(cwndDecreaseInterestSegNum)
    {
      hide MinTmr.MinSched.Valid, MinTmr.MinSched.Due, RttEst.RttEst.Valid, MinTmr.Fits, Win.Valid, Win.Shape, Win.Pos, Win.Has;
      hide Good, Dec32, Without, Win.Live, Win.Done;
      ghost var s := View([]);
      HasFacts(s.win, segNum);
      var seg := win.ring[p];
      Settle(now, seg, p, segNum, hasCongMark);
      win.Delete(segNum);
      GoodData(s, win.View(), segNum);
      if p in orphans {
        late := late + 1;
      }
      orphans := orphans - {p};
      assert seg.inRetxQ ==> s.armed - {p} == s.armed;
    }

    /** Data arrived.  Only a segment that is being waited for counts. */
    method RxData(now: int, segNum: nat, hasCongMark: bool)
      requires Valid()
      modifies this`retxQ, this`nInFlight, this`nRxData, this`hiDataSegNum, this`cwndDecreaseInterestSegNum, this`orphans, this`late,
               win`loPos, win`loSegNum, win.ring, sched`where, sched`history, sched.slot, rtte
      ensures Valid() && win.loSegNum >= old(win.loSegNum)
      ensures old(win.View().Has(segNum)) ==>
        && View([]) == Data(old(View([])), win.View(), old(win.View().Pos(segNum)))
        && win.View().Done() == old(win.View().Done()) + {segNum}
      ensures old(win.View().Has(segNum)) ==> var p := old(win.View().Pos(segNum));
        && 0 <= p < |old(win.ring[..])|
        && (old(win.ring[..])[p].nRetx == 0 ==> rtte.last == now - old(win.ring[..])[p].txTime)
        && (old(win.ring[..])[p].nRetx != 0 ==> unchanged(rtte))
        && hiDataSegNum == (if old(hiDataSegNum) >= segNum then old(hiDataSegNum) else segNum)
      ensures !old(win.View().Has(segNum)) ==> unchanged(this) && unchanged(rtte) && View([]) == old(View([]))
      ensures old(Bounded()) ==> Bounded()
    {
      hide MinTmr.MinSched.Valid, MinTmr.MinSched.Due, RttEst.RttEst.Valid, MinTmr.Fits, Win.Valid, Win.Pos, Win.Has;
      hide Good, Dec32, Without, Win.Live, Win.Done;
      var r := win.Get(segNum);
      if r.Some? {
        Accept(now, segNum, r.value, hasCongMark);
      }
    }

    /** The RTO timer of a segment expired: queue it for retransmission, unless it is beyond the final one. */
    method RtoTimeout(p: Pos, ghost firing: seq<Pos>)
      requires firing != [] && p == firing[0] && Inv(firing)
      modifies this`retxQ, this`nInFlight, this`cwndDecreaseInterestSegNum, this`orphans, win.ring, rtte`rto
      ensures Inv(firing[1..]) && win.View().Done() == old(win.View().Done())
      ensures 0 <= p < win.ring.Length && SameSegments(old(win.ring[..]), win.ring[..])
      ensures View(firing[1..]) == Rto(old(View(firing)), win.View(), finalSegNum)
      ensures retxQ == if old(win.ring[..])[p].segNum > finalSegNum then old(retxQ) else old(retxQ) + [p]
      ensures var decreased := old(win.ring[..])[p].segNum <= finalSegNum && hiDataSegNum > old(cwndDecreaseInterestSegNum);
        && cwndDecreaseInterestSegNum == (if decreased then win.hiSegNum else old(cwndDecreaseInterestSegNum))
        && rtte.rto == (if decreased then RttEst.Clamp(2 * old(rtte.rto), rtte.minRto, rtte.maxRto) else old(rtte.rto))
      ensures win.hiSegNum <= finalSegNum + 1 ==> orphans == old(orphans)
    {
      hide MinTmr.MinSched.Valid, MinTmr.MinSched.Due, RttEst.RttEst.Valid, MinTmr.Fits, Win.Valid, Win.Shape, Win.Pos, Win.Has;
      hide Good, Dec32, Win.Live, Win.Done, Touches, SameSegments, RttEst.Clamp;
      ghost var s := View(firing);
      QueueInRange(s);
      SameRefl(s.win.ring);
      nInFlight := Dec32(nInFlight);
      var seg := win.ring[p];
      if seg.segNum > finalSegNum {
        orphans := orphans + {p};
        GoodGiveUp(s);
        return;
      }
      var decreased := DecreaseCwnd();
      if decreased {
        rtte.Backoff();
      }
      win.Update(p, seg.(inRetxQ := true));
      retxQ := retxQ + [p];
      TouchesSame(s.win.ring, s.win, win.View(), p);
      GoodTimeout(s, win.View());
    }

    /** Let the scheduler expire the RTO timers that are due. */
    method Expire(now: int) returns (fired: seq<Pos>)
      requires Valid()
      modifies sched, sched.slot
      ensures Inv(fired)
      ensures sched.nextTime > now
      ensures NoDup(fired) && (forall k | 0 <= k < |fired| :: 0 <= fired[k] < |win.ring[..]|)
      ensures sched.Due().Keys == old(sched.Due().Keys) - ToSet(fired)
      ensures forall t :: t in fired <==> t in old(sched.Due()) && old(sched.Due())[t] < sched.ticks
    {
      hide MinTmr.DueOf, MinTmr.Recorded, MinTmr.MinSched.Shape, MinTmr.AllRounds, MinTmr.TakeAll, MinTmr.Flat, NoDup, Good, Win.Valid, Tracked;
      ghost var s := View([]);
      ghost var due := sched.Due();
      var cb: MinTmr.Callback := (t, n) => None;
      assert forall t, n :: cb(t, n) == None;
      ghost var rounds;
      fired, rounds := sched.Trigger(now, cb);
      assert MinTmr.Quiet(due, sched.Due(), fired, sched.ticks);
      forall t | t in ToSet(fired) ensures t in s.armed {
        assert t in fired && t in due;
      }
      assert sched.Due().Keys == s.armed - ToSet(fired);
      GoodExpired(s, sched.Due().Keys, fired);
      QueueInRange(View(fired));
    }

    /** Handle the expired timers one by one. */
    method Requeue(fired: seq<Pos>)
      requires Inv(fired) && forall k | 0 <= k < |fired| :: 0 <= fired[k] < |win.ring[..]|
      modifies this`retxQ, this`nInFlight, this`cwndDecreaseInterestSegNum, this`orphans, win.ring, rtte`rto
      ensures Valid() && win.View().Done() == old(win.View().Done())
      ensures win.hiSegNum <= finalSegNum + 1 ==> orphans == old(orphans)
      ensures retxQ == old(retxQ) + Wanted(old(win.ring[..]), fired, finalSegNum)
    {
      hide MinTmr.MinSched.Valid, MinTmr.MinSched.Due, FetchLogic.Inv, FetchLogic.View, Win.Done, Timeout, GiveUp;
      hide SameSegments, RttEst.Clamp;
      ghost var ring := win.ring[..];
      SameRefl(ring);
      var i := 0;
      while i < |fired|
        invariant 0 <= i <= |fired| && Inv(fired[i..]) && win.View().Done() == old(win.View().Done())
        invariant SameSegments(ring, win.ring[..]) && retxQ == old(retxQ) + Wanted(ring, fired[..i], finalSegNum)
        invariant win.hiSegNum <= finalSegNum + 1 ==> orphans == old(orphans)
      {
        ghost var ring' := win.ring[..];
        RtoTimeout(fired[i], fired[i..]);
        assert fired[i..][1..] == fired[i + 1..];
        SameTrans(ring, ring', win.ring[..], fired[i]);
        WantedNext(ring, fired, i, finalSegNum);
        i := i + 1;
      }
      assert fired[i..] == [] && fired[..i] == fired;
    }

    /** Trigger the scheduler: each segment whose RTO timer is due is queued for retransmission. */
    method TriggerRtoSched(now: int) returns (ghost fired: seq<Pos>)
      requires Valid()
      modifies this`retxQ, this`nInFlight, this`cwndDecreaseInterestSegNum, this`orphans, win.ring, rtte`rto, sched, sched.slot
      ensures Valid() && win.View().Done() == old(win.View().Done())
      ensures old(Bounded()) ==> Bounded()
      ensures sched.nextTime > now
      ensures forall t :: t in fired <==> t in old(sched.Due()) && old(sched.Due())[t] < sched.ticks
      ensures NoDup(fired) && (forall k | 0 <= k < |fired| :: 0 <= fired[k] < |old(win.ring[..])|)
      ensures retxQ == old(retxQ) + Wanted(old(win.ring[..]), fired, finalSegNum)
      ensures sched.Due().Keys == old(sched.Due().Keys) - ToSet(fired)
    {
      hide MinTmr.MinSched.Valid, MinTmr.MinSched.Due, NoDup, ToSet, FetchLogic.Inv, FetchLogic.View, Win.Done, Wanted;
      var due := Expire(now);
      fired := due;
      Requeue(due);
    }

    /** Declare the last segment; harmless as long as no segment beyond it was requested. */
    method SetFinalSegNum(segNum: nat)
      requires Valid()
      modifies this`finalSegNum
      ensures Valid() && finalSegNum == segNum
      ensures old(Bounded()) && win.hiSegNum <= segNum + 1 ==> Bounded()
    {
      hide Good, Win.Valid, MinTmr.MinSched.Valid;
      finalSegNum := segNum;
    }

    ghost function Now(): (m: Moment)
      reads this, win, win.ring, sched
    {
      Moment(View([]), sched.Due(), sched.ticks, sched.nextTime)
    }

    lemma Capacity()
      requires Valid()
      ensures |win.View().ring| == win.capacity
    {
      hide Good, MinTmr.MinSched.Valid;
    }

    /** One of the calls made by the fetcher thread. */
    method Take(e: Event)
      requires Valid() && (e.Tx? ==> e.cwnd >= 1)
      modifies this, win, win.ring, sched, sched.slot, rtte
      ensures Valid() && (old(Bounded()) ==> Bounded()) && finalSegNum == old(finalSegNum)
      ensures Happens(finalSegNum, old(Now()), e, Now())
    {
      hide FetchLogic.Valid, BurstOf, Win.Done, Win.Has, Data, NoDup, Wanted, ToSet, MinTmr.MinSched.Due;
      ghost var m := Now();
      match e {
        case Timers(now) =>
          ghost var fired := TriggerRtoSched(now);
          assert Handled(finalSegNum, m, Now(), fired);
        case Tx(now, cwnd, limit) =>
          ghost var before := nTxRetx;
          var sent := TxInterestBurst(now, cwnd, limit);
          Capacity();
          assert SentAll(finalSegNum, m, Now(), cwnd, limit, sent, nTxRetx - before);
        case Rx(now, segNum, congMark) => RxData(now, segNum, congMark);
      }
    }

    /** What the invariant says about completion and about the in-flight counter. */
    lemma Meaning()
      requires Valid()
      ensures Finished() <==> forall n: nat | n <= finalSegNum :: n in win.View().Done()
      ensures late == 0 ==> nInFlight == |sched.Due().Keys|
      ensures Bounded() && Finished() ==> nRxData == finalSegNum + 1 && sched.Due().Keys == {} && retxQ == []
      ensures Tracked(win.View(), sched.Due().Keys, retxQ, [], orphans)
    {
      hide Win.Done, Win.Live, Win.Shape, Tracked, Flight, NoDup;
      var s := View([]);
      FinishedIsComplete(s.win, finalSegNum);
      if late == 0 { InFlightIsArmed(s); }
      if Bounded() && Finished() {
        FinishedCount(s, finalSegNum);
        NothingTracked(s.win, s.armed, s.retxQ, s.orphans);
      }
    }
  }

  lemma NothingLeft(w: Win)
    requires Tracked(w, {}, [], [], {})
    ensures w.Live() == {}
  {
  }

  lemma NothingTracked(w: Win, armed: set<Pos>, retxQ: seq<Pos>, orphans: set<Pos>)
    requires Tracked(w, armed, retxQ, [], orphans) && w.Live() == {}
    ensures armed == {} && retxQ == []
  {
    ToSetSize(retxQ);
  }

  /** What can happen to a fetcher: the three calls made by the fetcher thread. */
  datatype Event =
    | Timers(now: int)
    | Tx(now: int, cwnd: nat, limit: nat)
    | Rx(now: int, segNum: nat, congMark: bool)

  /** A fetcher at some time, together with its timers. */
  datatype Moment = Moment(state: State, due: MinTmr.Schedule, ticks: int, nextTime: int)

  /** The timers due by the last tick have expired, and their segments up to the final one are queued. */
  ghost predicate Handled(final: nat, m: Moment, m': Moment, fired: seq<Pos>) {
    && NoDup(fired) && (forall t :: t in fired <==> t in m.due && m.due[t] < m'.ticks)
    && (forall k | 0 <= k < |fired| :: 0 <= fired[k] < |m.state.win.ring|)
    && m'.state.retxQ == m.state.retxQ + Wanted(m.state.win.ring, fired, final)
    && m'.state.armed == m.state.armed - ToSet(fired)
  }

  /** The given segments have been sent, and no more because of a limit or because there are no more. */
  ghost predicate SentAll(final: nat, m: Moment, m': Moment, cwnd: nat, limit: nat, sent: seq<nat>, nRetx: nat) {
    var s, s' := m.state, m'.state;
    && BurstOf(s.win.ring, s.retxQ, s.win.hi, sent, nRetx, s'.retxQ, s'.win.hi) && |sent| <= limit
    && (|sent| == limit || s'.nInFlight >= cwnd || (s'.retxQ == [] && (s'.win.hi > final || s'.win.hi == s'.win.lo + |s'.win.ring|)))
  }

  /** What an event does. */
  ghost predicate Happens(final: nat, m: Moment, e: Event, m': Moment) {
    var s, s' := m.state, m'.state;
    match e
    case Timers(now) => m'.nextTime > now && s'.win.Done() == s.win.Done() && exists fired :: Handled(final, m, m', fired)
    case Tx(_, cwnd, limit) => s'.win.Done() == s.win.Done() && exists sent, nRetx :: SentAll(final, m, m', cwnd, limit, sent, nRetx)
    case Rx(_, segNum, _) =>
      if s.win.Has(segNum) then s' == Data(s, s'.win, s.win.Pos(segNum)) && s'.win.Done() == s.win.Done() + {segNum}
      else s' == s
  }

  /** The segments whose Data arrived while they were waited for. */
  ghost function Retrieved(events: seq<Event>, moments: seq<Moment>, n: nat): (r: set<nat>)
    requires n <= |events| && n < |moments|
  {
    set i | 0 <= i < n && events[i].Rx? && moments[i].state.win.Has(events[i].segNum) :: events[i].segNum
  }

  /** An event changes what has been retrieved only if it is Data that was waited for. */
  lemma RetrievedNext(final: nat, events: seq<Event>, moments: seq<Moment>, m': Moment, n: nat)
    requires |moments| == n + 1 && n < |events| && Happens(final, moments[n], events[n], m')
    requires moments[n].state.win.Done() == Retrieved(events, moments, n)
    ensures m'.state.win.Done() == Retrieved(events, moments + [m'], n + 1)
  {
    hide Win.Done, Win.Has, Data, Handled, SentAll;
    var more := moments + [m'];
    assert forall i | 0 <= i <= n :: more[i] == moments[i];
    assert Retrieved(events, more, n) == Retrieved(events, moments, n);
    var e := events[n];
    assert Retrieved(events, more, n + 1) ==
      Retrieved(events, more, n) + if e.Rx? && moments[n].state.win.Has(e.segNum) then {e.segNum} else {};
  }

  /** Every run of a fetcher whose final segment was declared before the first transmission. */
  method Run(windowCapacity: nat, hz: nat, start: int, final: nat, events: seq<Event>)
    returns (fl: FetchLogic, ghost moments: seq<Moment>)
    requires 0 < windowCapacity < UINT32
    requires WheelFits(hz)
    requires forall i | 0 <= i < |events| && events[i].Tx? :: events[i].cwnd >= 1
    ensures fl.Valid() && fl.Bounded() && fl.finalSegNum == final
    ensures |moments| == |events| + 1 && moments[|events|] == fl.Now()
    ensures moments[0].state.win.hi == 0 && moments[0].state.armed == {} && moments[0].state.retxQ == []
    ensures forall i | 0 <= i < |events| :: Happens(final, moments[i], events[i], moments[i + 1])
    ensures fl.win.View().Done() == Retrieved(events, moments, |events|) <= Received(events)
    ensures fl.Finished() ==> fl.nRxData == final + 1 && (forall n: nat | n <= final :: n in Received(events))
    ensures fl.nInFlight == |fl.sched.Due().Keys|
  {
    hide FetchLogic.Valid, Happens, Win.Done, Win.Has, WheelFits;
    fl := new FetchLogic(windowCapacity, hz, start);
    fl.SetFinalSegNum(final);
    moments := [fl.Now()];
    assert Retrieved(events, moments, 0) == {};
    for i := 0 to |events|
      invariant fl.Valid() && fl.Bounded() && fl.finalSegNum == final
      invariant fresh(fl) && fresh(fl.win) && fresh(fl.win.ring) && fresh(fl.sched) && fresh(fl.sched.slot) && fresh(fl.rtte)
      invariant |moments| == i + 1 && moments[i] == fl.Now()
      invariant moments[0].state.win.hi == 0 && moments[0].state.armed == {} && moments[0].state.retxQ == []
      invariant forall j | 0 <= j < i :: Happens(final, moments[j], events[j], moments[j + 1])
      invariant fl.win.View().Done() == Retrieved(events, moments, i)
    {
      fl.Take(events[i]);
      RetrievedNext(final, events, moments, fl.Now(), i);
      moments := moments + [fl.Now()];
    }
    fl.Meaning();
  }

  /** The segment numbers of the Data that arrived. */
  ghost function Received(events: seq<Event>): (r: set<nat>) {
    set i | 0 <= i < |events| && events[i].Rx? :: events[i].segNum
  }

  /** The scheduler's wheel is long enough for the largest RTO on every clock of at least 12 kHz. */
  lemma WheelFitsMaxRto(hz: nat)
    requires hz >= 12000
    ensures WheelFits(hz)
  {
    assert hz < 1000 * (hz / 1000) + 1000;
  }
}
