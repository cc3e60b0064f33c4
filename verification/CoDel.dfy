/**
  The CoDel packet queue (csrc/iface/pktqueue.c), a simplified form of section 5 of RFC 8289.

  `recInvSqrt` is a 16-bit fixed point number that stands for 1/sqrt(count), scaled by 2^16.
 */
module CoDel {
  import opened Common

  const N := 0x1_0000_0000

  // ------------------------------------------------------------------ arithmetic

  /** One Newton step, with the shifts of the source; the subtraction is on integers. */
  function NewtonStep(count: nat, r: nat): (r': int) {
    var val := 3 * N - count * (r * r);
    val / 4 * (r * 0x10000) / 0x8000_0000 / 0x10000
  }

  lemma Times(a: int, b: int, k: nat)
    requires a <= b
    ensures a * k <= b * k
  {
  }

  /** The shifts only round down. */
  lemma NewtonRounds(count: nat, r: nat)
    requires count * (r * r) <= 3 * N
    ensures 0 <= NewtonStep(count, r) && NewtonStep(count, r) * (2 * N) <= r * (3 * N - count * (r * r))
  {
    var val := 3 * N - count * (r * r);
    var a := val / 4;
    var b := a * (r * 0x10000);
    assert b == a * r * 0x10000;
    assert 0 <= a * r by { Times(0, a, r); }
    var c := b / 0x8000_0000;
    var r' := c / 0x10000;
    assert r' * 0x10000 * 0x8000_0000 <= b;
    assert r' * 0x8000_0000 <= a * r;
    Times(a * 4, val, r);
    assert a * 4 * r == 4 * (a * r);
    assert val * r == r * val;
  }

  /** The cubic at the heart of the Newton iteration: x(3 - x)^2 <= 4 for 0 <= x <= 4. */
  lemma Cubic(w: nat, n: nat)
    requires w <= 4 * n
    ensures w * ((3 * n - w) * (3 * n - w)) <= 4 * (n * n * n)
  {
    var d := w - n;
    assert 4 * (n * n * n) - w * ((3 * n - w) * (3 * n - w)) == d * d * (4 * n - w);
    Square(d);
    Times(0, d * d, 4 * n - w);
  }

  lemma Square(d: int)
    ensures d * d >= 0
  {
  }

  lemma Squares(a: nat, b: nat)
    requires a <= b
    ensures a * a <= b * b
  {
  }

  lemma Cancel(a: int, b: int, k: nat)
    requires a * k <= b * k && k > 0
    ensures a <= b
  {
    if a > b {
      Times(b + 1, a, k);
      assert false;
    }
  }

  lemma SquareOfProduct(a: int, b: int)
    ensures (a * b) * (a * b) == (a * a) * (b * b)
  {
  }

  lemma Rotate(a: int, b: int, c: int)
    ensures a * b * c == c * a * b == (c * a) * b
  {
  }

  /** The algebra of a step, for a scale `n`. */
  lemma StepAlgebra(count: nat, r: nat, r': nat, w: nat, v: nat, n: nat)
    requires n > 0 && w == count * (r * r) && w <= 4 * n && v == 3 * n - w && r' * (2 * n) <= r * v
    ensures count * (r' * r') <= n
  {
    Squares(r' * (2 * n), r * v);
    SquareOfProduct(r', 2 * n);
    SquareOfProduct(r, v);
    var m := (2 * n) * (2 * n);
    assert (r' * r') * m <= (r * r) * (v * v);
    Times((r' * r') * m, (r * r) * (v * v), count);
    Rotate(r' * r', m, count);
    Rotate(r * r, v * v, count);
    Cubic(w, n);
    Scale(n);
    assert count * (r' * r') * m <= n * m;
    Positive(n);
    Cancel(count * (r' * r'), n, m);
  }

  lemma Scale(n: nat)
    ensures 4 * (n * n * n) == n * ((2 * n) * (2 * n))
  {
  }

  lemma Positive(n: nat)
    requires n > 0
    ensures (2 * n) * (2 * n) > 0
  {
  }

  /** The bound is kept by a step, whatever the current estimate, as long as it is not too high. */
  lemma NewtonBound(count: nat, r: nat)
    requires count * (r * r) <= 2 * N
    ensures var r' := NewtonStep(count, r); 0 <= r' && count * (r' * r') <= N
  {
    NewtonRounds(count, r);
    StepAlgebra(count, r, NewtonStep(count, r), count * (r * r), 3 * N - count * (r * r), N);
  }

  /** No step underflows or overflows 64 bits. */
  lemma NewtonFits(count: nat, r: nat)
    requires count * (r * r) <= 2 * N && r < 0x10000
    ensures var val := 3 * N - count * (r * r);
      N <= val <= 3 * N && val / 4 * (r * 0x10000) < 0x1_0000_0000_0000_0000
  {
    var val := 3 * N - count * (r * r);
    assert 0 <= count * (r * r) by { Square(r); Times(0, r * r, count); }
    assert val / 4 <= 3 * N / 4 < N;
    Times(val / 4, N, r * 0x10000);
    assert N * (r * 0x10000) <= N * 0xFFFF_0000;
  }

  /** An estimate above zero stays above zero. */
  lemma NewtonPositive(count: nat, r: nat)
    requires count * (r * r) <= 2 * N && r >= 1 && (r == 1 ==> count <= N)
    ensures NewtonStep(count, r) >= 1
  {
    var a := (3 * N - count * (r * r)) / 4;
    if r == 1 {
      assert a >= 0x8000_0000;
    } else {
      assert a >= 0x4000_0000;
      Times(0x4000_0000, a, r * 0x10000);
      assert 0x4000_0000 * (r * 0x10000) >= 0x4000_0000 * 0x20000;
    }
  }

  function ReciprocalScale(interval: nat, r: nat): (s: nat) {
    interval * (r * 0x10000) / N
  }

  /** The step of the control law: at most interval/sqrt(count). */
  lemma ControlLawBound(interval: nat, r: nat, count: nat)
    requires count * (r * r) <= N
    ensures StepBound(ReciprocalScale(interval, r), count, interval)
  {
    var s := ReciprocalScale(interval, r);
    ScaleRounds(interval, r);
    hide ReciprocalScale;
    Squares(s * 0x10000, interval * r);
    SquareOfProduct(s, 0x10000);
    SquareOfProduct(interval, r);
    assert s * s * N <= interval * interval * (r * r);
    Times(s * s * N, interval * interval * (r * r), count);
    Rotate(s * s, N, count);
    Regroup(interval * interval, r * r, count);
    Square(interval);
    Times(count * (r * r), N, interval * interval);
    assert count * (s * s) * N <= interval * interval * N;
    Cancel(count * (s * s), interval * interval, N);
  }

  lemma Regroup(a: int, b: int, c: int)
    ensures a * b * c == c * b * a
  {
  }

  lemma ScaleRounds(interval: nat, r: nat)
    ensures ReciprocalScale(interval, r) * 0x10000 <= interval * r
  {
    assert interval * (r * 0x10000) == interval * r * 0x10000;
  }

  /** The control law makes progress. */
  lemma ControlLawAdvances(interval: nat, r: nat)
    requires r >= 1 && interval >= 0x10000
    ensures ReciprocalScale(interval, r) >= 1
  {
    Times(1, r, interval);
    assert interval * (r * 0x10000) == interval * r * 0x10000;
  }

  // ------------------------------------------------------------------ the queue

  datatype State = State(count: nat, lastCount: nat, dropping: bool, recInvSqrt: nat, firstAboveTime: int, dropNext: int, nDrops: nat, sojourn: int)

  /** The bound on the estimate, and the ranges of the fields. */
  ghost predicate Good(q: State) {
    && q.lastCount <= q.count < N && q.recInvSqrt < 0x10000
    && q.count * (q.recInvSqrt * q.recInvSqrt) <= N
    && (q.count >= 1 ==> q.recInvSqrt >= 1) && (q.dropping ==> q.count >= 1)
  }

  /** The estimate for a count of two or more, with 16 bits. */
  lemma NewtonGood(q: State, count: nat)
    requires Good(q) && 2 <= count <= q.count + 1 && count < N
    ensures var r := NewtonStep(count, q.recInvSqrt);
      1 <= r < 0x10000 && count * (r * r) <= N
  {
    var r := q.recInvSqrt;
    Squares(r, 0xFFFF);
    Square(r);
    Times(count, q.count + 1, r * r);
    assert (q.count + 1) * (r * r) == q.count * (r * r) + r * r;
    NewtonBound(count, r);
    NewtonPositive(count, r);
    SmallSquare(NewtonStep(count, r), count);
  }

  lemma SmallSquare(r: nat, count: nat)
    requires count >= 2 && count * (r * r) <= N
    ensures r < 0x10000
  {
    if r >= 0x10000 {
      Squares(0x10000, r);
      Times(2, count, r * r);
      assert false;
    }
  }

  function ControlLaw(t: int, interval: nat, r: nat): (t': int) {
    t + ReciprocalScale(interval, r)
  }

  /** Whether the queue has been slow for a whole interval, and the time from which that is measured. */
  function ShouldDrop(firstAboveTime: int, sojourn: int, now: int, target: int, interval: nat): (r: (bool, int)) {
    if sojourn < target then (false, 0)
    else if firstAboveTime == 0 then (false, now + interval)
    else (now > firstAboveTime, firstAboveTime)
  }

  /** The time to the next drop is at most interval/sqrt(count). */
  ghost predicate StepBound(s: int, count: nat, interval: nat) {
    0 <= s && s * s * count <= interval * interval
  }

  // ------------------------------------------------------------------ popping

  datatype Params = Params(target: int, interval: nat, dequeueBurstSize: nat)

  /** The count is 32 bits wide, the estimate 16 bits. */
  function Rescheduled(q: State, p: Params, base: int, count: nat): State {
    var r := NewtonStep(count, q.recInvSqrt) % 0x10000;
    q.(count := count, recInvSqrt := r, dropNext := ControlLaw(base, p.interval, r))
  }

  /** The first packet of a burst arrived at the given time. */
  function Updated(q: State, p: Params, arrival: int, now: int): State {
    var (drop, above) := ShouldDrop(q.firstAboveTime, now - arrival, now, p.target, p.interval);
    var q1 := q.(firstAboveTime := above, nDrops := q.nDrops + (if drop then 1 else 0), sojourn := now - arrival);
    if q.dropping then
      if !drop then q1.(dropping := false)
      else if now >= q.dropNext then Rescheduled(q1, p, q.dropNext, (q.count + 1) % N)
      else q1
    else if drop then
      var delta := (q.count - q.lastCount) % N;
      var q2 := if delta > 1 && now - q.dropNext < 16 * p.interval then Rescheduled(q1, p, now, delta)
                else q1.(count := 1, recInvSqrt := 0xFFFF, dropNext := ControlLaw(now, p.interval, 0xFFFF));
      q2.(dropping := true, lastCount := q2.count)
    else
      q1
  }

  /** The count is taken beyond 32 bits. */
  predicate Wraps(q: State, p: Params, arrival: int, now: int) {
    q.count == N - 1 && q.dropping && ShouldDrop(q.firstAboveTime, now - arrival, now, p.target, p.interval).0 && now >= q.dropNext
  }

  lemma RescheduledGood(q: State, p: Params, base: int, count: nat)
    requires Good(q) && 2 <= count <= q.count + 1 && count < N
    ensures var q' := Rescheduled(q, p, base, count);
      && 1 <= q'.recInvSqrt < 0x10000 && q'.recInvSqrt == NewtonStep(count, q.recInvSqrt) && q'.count == count
      && count * (q'.recInvSqrt * q'.recInvSqrt) <= N && StepBound(q'.dropNext - base, count, p.interval)
  {
    hide NewtonStep, ReciprocalScale, StepBound;
    NewtonGood(q, count);
    ControlLawBound(p.interval, NewtonStep(count, q.recInvSqrt), count);
  }

  /** A pop keeps the bounds exactly if it does not take the count beyond 32 bits. */
  lemma UpdatedGood(q: State, p: Params, arrival: int, now: int)
    requires Good(q)
    ensures Good(Updated(q, p, arrival, now)) <==> !Wraps(q, p, arrival, now)
  {
    hide NewtonStep, ReciprocalScale, StepBound;
    if q.dropping && q.count < N - 1 {
      RescheduledGood(q, p, q.dropNext, q.count + 1);
    }
    if q.count - q.lastCount > 1 {
      RescheduledGood(q, p, now, q.count - q.lastCount);
    }
  }

  /** Whenever a pop schedules the next drop, the step is at most interval/sqrt(count). */
  lemma UpdatedStep(q: State, p: Params, arrival: int, now: int)
    requires Good(q) && !Wraps(q, p, arrival, now)
    requires ShouldDrop(q.firstAboveTime, now - arrival, now, p.target, p.interval).0 && (q.dropping ==> now >= q.dropNext)
    ensures var q' := Updated(q, p, arrival, now); StepBound(q'.dropNext - (if q.dropping then q.dropNext else now), q'.count, p.interval)
  {
    hide NewtonStep, ReciprocalScale, StepBound;
    if q.dropping {
      RescheduledGood(q, p, q.dropNext, q.count + 1);
    } else if q.count - q.lastCount > 1 && now - q.dropNext < 16 * p.interval {
      RescheduledGood(q, p, now, q.count - q.lastCount);
    } else {
      ControlLawBound(p.interval, 0xFFFF, 1);
    }
  }

  /** The arrival times of the packets in the ring, and the state of CoDel. */
  datatype Queue = Queue(ring: seq<int>, codel: State)

  function BurstSize(s: Queue, p: Params, n: nat): nat {
    Min(Min(n, p.dequeueBurstSize), |s.ring|)
  }

  function Popped(s: Queue, p: Params, n: nat, now: int): Queue {
    var k := BurstSize(s, p, n);
    Queue(s.ring[k..], if k == 0 then s.codel.(firstAboveTime := 0) else Updated(s.codel, p, s.ring[0], now))
  }

  predicate PopWraps(s: Queue, p: Params, n: nat, now: int) {
    BurstSize(s, p, n) > 0 && Wraps(s.codel, p, s.ring[0], now)
  }

  lemma PoppedGood(s: Queue, p: Params, n: nat, now: int)
    requires Good(s.codel)
    ensures Good(Popped(s, p, n, now).codel) <==> !PopWraps(s, p, n, now)
  {
    hide Updated, Wraps;
    if BurstSize(s, p, n) > 0 {
      UpdatedGood(s.codel, p, s.ring[0], now);
    }
  }

  /** Packets arrive, and then up to `n` packets are popped at time `now`. */
  datatype Pop = Pop(arrivals: seq<int>, n: nat, now: int)

  function Arrived(s: Queue, pop: Pop): Queue {
    s.(ring := s.ring + pop.arrivals)
  }

  function Ran(s: Queue, p: Params, pops: seq<Pop>): Queue {
    if pops == [] then s
    else
      var before := Ran(s, p, pops[..|pops| - 1]);
      var pop := pops[|pops| - 1];
      Popped(Arrived(before, pop), p, pop.n, pop.now)
  }

  /** In no pop of the run is the count taken beyond 32 bits. */
  ghost predicate NeverWraps(s: Queue, p: Params, pops: seq<Pop>) {
    forall i | 0 <= i < |pops| :: !PopWraps(Arrived(Ran(s, p, pops[..i]), pops[i]), p, pops[i].n, pops[i].now)
  }

  lemma RanNext(s: Queue, p: Params, pops: seq<Pop>, i: nat)
    requires i < |pops|
    ensures Ran(s, p, pops[..i + 1]) == Popped(Arrived(Ran(s, p, pops[..i]), pops[i]), p, pops[i].n, pops[i].now)
  {
    assert pops[..i + 1][..i] == pops[..i];
  }

  /** In every run, however long, the bounds hold all the time exactly if the count never goes beyond 32 bits. */
  lemma RunGood(s: Queue, p: Params, pops: seq<Pop>)
    requires Good(s.codel)
    ensures NeverWraps(s, p, pops) <==> forall i | 0 <= i <= |pops| :: Good(Ran(s, p, pops[..i]).codel)
  {
    hide Popped, PopWraps, Ran, Good;
    if NeverWraps(s, p, pops) {
      forall i | 0 <= i <= |pops| ensures Good(Ran(s, p, pops[..i]).codel) { RunGoodUpTo(s, p, pops, i); }
    }
    if forall i | 0 <= i <= |pops| :: Good(Ran(s, p, pops[..i]).codel) {
      forall i | 0 <= i < |pops| ensures !PopWraps(Arrived(Ran(s, p, pops[..i]), pops[i]), p, pops[i].n, pops[i].now) {
        RanNext(s, p, pops, i);
        PoppedGood(Arrived(Ran(s, p, pops[..i]), pops[i]), p, pops[i].n, pops[i].now);
      }
    }
  }

  lemma {:induction false} RunGoodUpTo(s: Queue, p: Params, pops: seq<Pop>, i: nat)
    requires Good(s.codel) && NeverWraps(s, p, pops) && i <= |pops|
    ensures Good(Ran(s, p, pops[..i]).codel)
  {
    hide Popped, PopWraps, Good;
    if i > 0 {
      RunGoodUpTo(s, p, pops, i - 1);
      RanNext(s, p, pops, i - 1);
      var before := Arrived(Ran(s, p, pops[..i - 1]), pops[i - 1]);
      PoppedGood(before, p, pops[i - 1].n, pops[i - 1].now);
    }
  }

  /** In particular, whenever the count is below 2^32 - 1 at each pop. */
  lemma SmallCountsSuffice(s: Queue, p: Params, pops: seq<Pop>)
    requires forall i | 0 <= i < |pops| :: Ran(s, p, pops[..i]).codel.count < N - 1
    ensures NeverWraps(s, p, pops)
  {
    hide Ran;
  }

  // ------------------------------------------------------------------ a run that takes the count beyond 32 bits

  const EMPTY := Queue([], State(0, 0, false, 0, 0, 0, 0, 0))

  /** Parameters with which a queue can drop packets. */
  predicate Usual(p: Params) {
    p.target >= 0 && p.interval > 0 && p.dequeueBurstSize > 0
  }

  /** A packet that has waited for as long as the target allows is popped. */
  function SlowPop(p: Params, now: int): Pop {
    Pop([now - p.target], 1, now)
  }

  /** The run keeps the count within 32 bits, and ends with dropping, the given count, and an empty ring. */
  ghost predicate DropsUpTo(p: Params, pops: seq<Pop>, k: nat) {
    var s := Ran(EMPTY, p, pops);
    && NeverWraps(EMPTY, p, pops) && Good(s.codel)
    && s.ring == [] && s.codel.dropping && s.codel.count == k && s.codel.firstAboveTime != 0
  }

  lemma RanSnoc(s: Queue, p: Params, pops: seq<Pop>, pop: Pop)
    ensures Ran(s, p, pops + [pop]) == Popped(Arrived(Ran(s, p, pops), pop), p, pop.n, pop.now)
    ensures NeverWraps(s, p, pops) && !PopWraps(Arrived(Ran(s, p, pops), pop), p, pop.n, pop.now) ==> NeverWraps(s, p, pops + [pop])
  {
    hide Popped, PopWraps, Ran;
    RanNext(s, p, pops + [pop], |pops|);
    assert (pops + [pop])[..|pops|] == pops && (pops + [pop])[..|pops| + 1] == pops + [pop];
    assert forall i | 0 <= i < |pops| :: (pops + [pop])[..i] == pops[..i] && (pops + [pop])[i] == pops[i];
  }

  /** What popping a slow packet from an empty ring does. */
  lemma SlowPopped(s: Queue, p: Params, now: int)
    requires Usual(p) && s.ring == []
    ensures var a := Arrived(s, SlowPop(p, now));
      && BurstSize(a, p, 1) == 1 && a.ring[0] == now - p.target
      && Popped(a, p, 1, now) == Queue([], Updated(s.codel, p, now - p.target, now))
  {
    hide Updated;
    assert [] + [now - p.target] == [now - p.target] && [now - p.target][1..] == [];
  }

  /** The first two slow packets: the first sets the time to measure from, the second is dropped. */
  lemma FirstDrop(p: Params)
    requires Usual(p)
    ensures DropsUpTo(p, [SlowPop(p, 0), SlowPop(p, p.interval + 1)], 1)
  {
    hide Ran, NewtonStep, ReciprocalScale, NeverWraps, Popped, Good;
    var a, b := SlowPop(p, 0), SlowPop(p, p.interval + 1);
    EmptyGood();
    RanNone(EMPTY, p);
    NoneWraps(EMPTY, p);
    RanSnoc(EMPTY, p, [], a);
    SlowPopped(EMPTY, p, 0);
    PoppedGood(Arrived(EMPTY, a), p, 1, 0);
    var s := Ran(EMPTY, p, [a]);
    RanSnoc(EMPTY, p, [a], b);
    assert [] + [a] == [a] && [a] + [b] == [a, b];
    SlowPopped(s, p, p.interval + 1);
    PoppedGood(Arrived(s, b), p, 1, p.interval + 1);
  }

  lemma NoneWraps(s: Queue, p: Params)
    ensures NeverWraps(s, p, [])
  {
  }

  lemma EmptyGood()
    ensures Good(EMPTY.codel)
  {
  }

  /** When the next slow packet is to be popped so that it is dropped and counted. */
  function NextTime(q: State): int {
    if q.dropNext > q.firstAboveTime then q.dropNext else q.firstAboveTime + 1
  }

  /** For every count that fits 32 bits, there is a run from the empty queue that gets there. */
  lemma {:induction false} CountReaches(p: Params, k: nat)
    requires Usual(p) && 1 <= k < N
    ensures exists pops :: DropsUpTo(p, pops, k)
  {
    hide DropsUpTo;
    if k == 1 {
      FirstDrop(p);
    } else {
      CountReaches(p, k - 1);
      var pops :| DropsUpTo(p, pops, k - 1);
      NextDrop(p, pops, k);
    }
  }

  lemma NextDrop(p: Params, pops: seq<Pop>, k: nat)
    requires Usual(p) && 1 < k < N && DropsUpTo(p, pops, k - 1)
    ensures DropsUpTo(p, pops + [SlowPop(p, NextTime(Ran(EMPTY, p, pops).codel))], k)
  {
    hide Ran, NewtonStep, ReciprocalScale, NeverWraps, Popped, Good;
    var s := Ran(EMPTY, p, pops);
    var now := NextTime(s.codel);
    RanSnoc(EMPTY, p, pops, SlowPop(p, now));
    SlowPopped(s, p, now);
    PoppedGood(Arrived(s, SlowPop(p, now)), p, 1, now);
  }

  /** After the run, popping one more slow packet takes the count beyond 32 bits, and breaks the bounds. */
  ghost predicate BreaksBounds(p: Params, pops: seq<Pop>, now: int) {
    var s := Arrived(Ran(EMPTY, p, pops), SlowPop(p, now));
    PopWraps(s, p, 1, now) && !Good(Popped(s, p, 1, now).codel)
  }

  /** So there is a run in which the bounds are kept all the time, and whose next pop breaks them. */
  lemma CountWraps(p: Params)
    requires Usual(p)
    ensures exists pops, now :: DropsUpTo(p, pops, N - 1) && BreaksBounds(p, pops, now)
  {
    hide Ran, Popped, NeverWraps, Good;
    CountReaches(p, N - 1);
    var pops :| DropsUpTo(p, pops, N - 1);
    var s := Ran(EMPTY, p, pops);
    var now := NextTime(s.codel);
    SlowPopped(s, p, now);
    PoppedGood(Arrived(s, SlowPop(p, now)), p, 1, now);
    assert BreaksBounds(p, pops, now);
  }

  class PktQueue {
    const target: int
    const interval: nat
    const dequeueBurstSize: nat
    /** Arrival times of the packets in the ring. */
    var ring: seq<int>
    var count: nat
    var lastCount: nat
    var dropping: bool
    var recInvSqrt: nat
    var firstAboveTime: int
    var dropNext: int
    var nDrops: nat
    var sojourn: int

    constructor (target: int, interval: nat, dequeueBurstSize: nat)
      ensures Valid() && ring == [] && P() == Params(target, interval, dequeueBurstSize)
    {
      this.target, this.interval, this.dequeueBurstSize := target, interval, dequeueBurstSize;
      ring := [];
      count, lastCount, dropping, recInvSqrt, firstAboveTime, dropNext, nDrops, sojourn := 0, 0, false, 0, 0, 0, 0, 0;
    }

    ghost function P(): (p: Params) {
      Params(target, interval, dequeueBurstSize)
    }

    ghost function View(): (s: Queue)
      reads this
    {
      Queue(ring, State(count, lastCount, dropping, recInvSqrt, firstAboveTime, dropNext, nDrops, sojourn))
    }

    ghost predicate Valid()
      reads this
    {
      Good(View().codel)
    }

    method PopFromRing(n: nat) returns (pkts: seq<int>)
      modifies this`ring
      ensures var k := BurstSize(old(View()), P(), n); pkts == old(ring)[..k] && ring == old(ring)[k..]
    {
      var k := Min(Min(n, dequeueBurstSize), |ring|);
      pkts := ring[..k];
      ring := ring[k..];
    }

    /** The Newton step and the control law. */
    method Reschedule(base: int)
      modifies this`recInvSqrt, this`dropNext
      ensures View().codel == Rescheduled(old(View().codel), P(), base, old(count))
    {
      recInvSqrt := NewtonStep(count, recInvSqrt) % 0x10000;
      dropNext := ControlLaw(base, interval, recInvSqrt);
    }

    /** Dequeue a burst, and decide whether to drop its first packet. */
    method PopCoDel(n: nat, now: int) returns (pkts: seq<int>, drop: bool)
      requires Valid()
      modifies this
      ensures View() == Popped(old(View()), P(), n, now)
      ensures Valid() <==> !PopWraps(old(View()), P(), n, now)
      ensures pkts == old(ring)[..BurstSize(old(View()), P(), n)]
      ensures pkts == [] ==> !drop
      ensures pkts != [] ==> (drop, firstAboveTime) == ShouldDrop(old(firstAboveTime), now - pkts[0], now, target, interval)
      ensures nDrops == old(nDrops) + (if drop then 1 else 0) && (pkts != [] ==> dropping == drop)
    {
      hide NewtonStep, ReciprocalScale, StepBound, Good;
      PoppedGood(View(), P(), n, now);
      pkts := PopFromRing(n);
      if pkts == [] {
        firstAboveTime := 0;
        return pkts, false;
      }
      sojourn := now - pkts[0];
      var d := ShouldDrop(firstAboveTime, sojourn, now, target, interval);
      drop, firstAboveTime := d.0, d.1;
      nDrops := nDrops + if drop then 1 else 0;
      if dropping {
        if !drop {
          dropping := false;
        } else if now >= dropNext {
          count := (count + 1) % N;
          Reschedule(dropNext);
        }
      } else if drop {
        dropping := true;
        var delta := (count - lastCount) % N;
        if delta > 1 && now - dropNext < 16 * interval {
          count := delta;
          Reschedule(now);
        } else {
          count := 1;
          recInvSqrt := 0xFFFF;
          dropNext := ControlLaw(now, interval, recInvSqrt);
        }
        lastCount := count;
      }
    }

    /** Every run in which the count is never taken beyond 32 bits. */
    method Run(pops: seq<Pop>)
      requires Valid() && NeverWraps(View(), P(), pops)
      modifies this
      ensures View() == Ran(old(View()), P(), pops)
      ensures Valid() && count * (recInvSqrt * recInvSqrt) <= N && lastCount <= count
    {
      hide NewtonStep, ReciprocalScale, Popped, PopWraps, Ran;
      ghost var s := View();
      RunGood(s, P(), pops);
      RanNone(s, P());
      assert pops[..0] == [];
      for i := 0 to |pops|
        invariant View() == Ran(s, P(), pops[..i])
      {
        assert Good(Ran(s, P(), pops[..i]).codel);
        RanNext(s, P(), pops, i);
        ring := ring + pops[i].arrivals;
        var pkts, drop := PopCoDel(pops[i].n, pops[i].now);
      }
      assert pops[..|pops|] == pops;
    }
  }

  lemma RanNone(s: Queue, p: Params)
    ensures Ran(s, p, []) == s
  {
  }
}
