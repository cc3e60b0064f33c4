/**
  The minute scheduler: a hashed timing wheel (csrc/core/mintmr.c, csrc/core/mintmr.h).

  A timer is known by a number.  A slot is the list of timers linked in it, most recently
  linked first; `where` plays the part of the prev/next pointers inside a timer: a timer is in
  its domain exactly when its `next` pointer is not NULL, and it names the list it is linked in.
  Ticks are numbered from 0: tick `k` happens at `origin + k * interval`, and `nextTime` is the
  time of tick number `ticks`.
 */
module MinTmr {
  import opened Common
  import opened Lists

  type TimerId = int

  /** What the callback does to the timer it is given: nothing, or arm it again. */
  type Callback = (TimerId, nat) -> Option<int>

  /** What has happened so far: a timer was armed for a tick, that arming was taken back, or it fired. */
  datatype Event = Armed(tmr: TimerId, tick: int) | Disarmed(tmr: TimerId, tick: int) | Fired(tmr: TimerId, tick: int)

  type History = seq<Event>

  /** The abstract schedule: at which tick each armed timer is going to fire. */
  type Schedule = map<TimerId, int>

  ghost function Pending(due: Schedule, t: TimerId, d: int): (n: nat) {
    if t in due && due[t] == d then 1 else 0
  }

  /** Every arming has fired, has been taken back, or is still pending: none is lost or repeated. */
  ghost predicate Accounted(h: History, due: Schedule) {
    forall t, d ::
      multiset(h)[Armed(t, d)] == multiset(h)[Fired(t, d)] + multiset(h)[Disarmed(t, d)] + Pending(due, t, d)
  }

  /** No timer fires twice for one tick, and nothing fires for a tick that has not come. */
  ghost predicate FiredOnce(h: History, ticks: int) {
    forall t, d :: multiset(h)[Fired(t, d)] <= if d < ticks then 1 else 0
  }

  /**
    The record of a run: `draining` are the timers due at the last tick taken whose callbacks
    are still to be invoked.
   */
  ghost predicate Recorded(h: History, due: Schedule, ticks: int, draining: seq<TimerId>) {
    && Accounted(h, due)
    && FiredOnce(h, ticks)
    && (forall t | t in draining :: multiset(h)[Fired(t, ticks - 1)] == 0)
  }

  lemma RecordArm(h: History, due: Schedule, ticks: int, draining: seq<TimerId>, t: TimerId, d: int)
    requires Recorded(h, due, ticks, draining) && t !in due
    ensures Recorded(h + [Armed(t, d)], due[t := d], ticks, draining)
  {
    var h' := h + [Armed(t, d)];
    assert multiset(h') == multiset(h) + multiset{Armed(t, d)};
    forall t', d' ensures multiset(h')[Armed(t', d')] ==
        multiset(h')[Fired(t', d')] + multiset(h')[Disarmed(t', d')] + Pending(due[t := d], t', d')
    {
      assert Pending(due, t', d') >= 0;
    }
  }

  lemma RecordDisarm(h: History, due: Schedule, ticks: int, draining: seq<TimerId>, t: TimerId)
    requires Recorded(h, due, ticks, draining) && t in due
    ensures Recorded(h + [Disarmed(t, due[t])], due - {t}, ticks, draining)
  {
    var h' := h + [Disarmed(t, due[t])];
    assert multiset(h') == multiset(h) + multiset{Disarmed(t, due[t])};
    forall t', d' ensures multiset(h')[Armed(t', d')] ==
        multiset(h')[Fired(t', d')] + multiset(h')[Disarmed(t', d')] + Pending(due - {t}, t', d')
    {
      assert Pending(due, t', d') >= 0;
    }
  }

  lemma RecordFire(h: History, due: Schedule, ticks: int, draining: seq<TimerId>)
    requires Recorded(h, due, ticks, draining)
    requires draining != [] && NoDup(draining) && draining[0] in due && due[draining[0]] == ticks - 1
    ensures Recorded(h + [Fired(draining[0], ticks - 1)], due - {draining[0]}, ticks, draining[1..])
  {
    var t := draining[0];
    var h' := h + [Fired(t, ticks - 1)];
    assert multiset(h') == multiset(h) + multiset{Fired(t, ticks - 1)};
    forall t', d' ensures multiset(h')[Armed(t', d')] ==
        multiset(h')[Fired(t', d')] + multiset(h')[Disarmed(t', d')] + Pending(due - {t}, t', d')
    {
      assert Pending(due, t', d') >= 0;
    }
    assert t in draining;
    forall t' | t' in draining[1..] ensures multiset(h')[Fired(t', ticks - 1)] == 0 {
      assert t' in draining;
    }
  }

  lemma RecordTick(h: History, due: Schedule, ticks: int, draining: seq<TimerId>)
    requires Recorded(h, due, ticks, [])
    ensures Recorded(h, due, ticks + 1, draining)
  {
  }

  /** The lists and the timers' own pointers agree: each armed timer is in exactly one list, once. */
  ghost predicate Linked(lists: seq<seq<TimerId>>, where: map<TimerId, nat>) {
    && (forall i | 0 <= i < |lists| :: NoDup(lists[i]))
    && (forall i, t | 0 <= i < |lists| && t in lists[i] :: t in where && where[t] == i)
    && (forall t | t in where :: where[t] < |lists| && t in lists[where[t]])
  }

  lemma LinkedCancel(lists: seq<seq<TimerId>>, where: map<TimerId, nat>, t: TimerId)
    requires Linked(lists, where) && t in where
    ensures Linked(lists[where[t] := Without(lists[where[t]], t)], where - {t})
  {
    WithoutNoDup(lists[where[t]], t);
  }

  lemma LinkedArm(lists: seq<seq<TimerId>>, where: map<TimerId, nat>, t: TimerId, i: nat)
    requires Linked(lists, where) && t !in where && i < |lists|
    ensures Linked(lists[i := [t] + lists[i]], where[t := i])
  {
  }

  lemma LinkedPop(lists: seq<seq<TimerId>>, where: map<TimerId, nat>, i: nat)
    requires Linked(lists, where) && i < |lists| && lists[i] != []
    ensures NoDup(lists[i]) && lists[i][0] in where && where[lists[i][0]] == i
    ensures Linked(lists[i := lists[i][1..]], where - {lists[i][0]})
  {
    var t := lists[i][0];
    assert t in lists[i];
    assert forall x :: x in lists[i] <==> x == t || x in lists[i][1..];
    assert NoDup(lists[i]);
    assert t !in lists[i][1..];
  }

  function Max(a: int, b: int): int {
    if a >= b then a else b
  }

  // ------------------------------------------------------------------ the abstract scheduler

  /** The state of a scheduler without slots: a schedule, the ticks taken, and what has happened. */
  datatype Abs = Abs(due: Schedule, ticks: int, nTriggered: nat, history: History)

  datatype Config = Config(interval: int, nSlots: int)

  /** Whether a delay is accepted. */
  predicate Fits(c: Config, after: int) {
    after < c.interval * (c.nSlots - 1) && c.nSlots > 1
  }

  /** The largest delay that is documented to be acceptable. */
  function GetMaxDelay(c: Config): int {
    c.interval * (c.nSlots - 2)
  }

  /** The documented delays are accepted, and so are those up to one interval longer. */
  lemma MaxDelayFits(c: Config, after: int)
    requires c.interval > 0 && c.nSlots > 1
    ensures Fits(c, after) <==> after < GetMaxDelay(c) + c.interval
  {
    assert c.interval * (c.nSlots - 1) == c.interval * (c.nSlots - 2) + c.interval;
  }

  /** The tick of a timer that is armed now. */
  function TickFor(c: Config, ticks: int, after: int): int {
    if c.interval > 0 then ticks + Max(after, 0) / c.interval else ticks
  }

  function Disarm(a: Abs, t: TimerId): Abs {
    if t in a.due then a.(due := a.due - {t}, history := a.history + [Disarmed(t, a.due[t])]) else a
  }

  function Arm(c: Config, a: Abs, t: TimerId, after: int): Abs {
    var b := Disarm(a, t);
    if Fits(c, after) then
      b.(due := b.due[t := TickFor(c, a.ticks, after)], history := b.history + [Armed(t, TickFor(c, a.ticks, after))])
    else
      b
  }

  /** A timer fires at the last tick taken, and its callback may arm it again. */
  function Fire(c: Config, a: Abs, t: TimerId, cb: Callback): Abs {
    var b := Abs(a.due - {t}, a.ticks, a.nTriggered + 1, a.history + [Fired(t, a.ticks - 1)]);
    match cb(t, b.nTriggered)
    case None => b
    case Some(after) => Arm(c, b, t, after)
  }

  function FireAll(c: Config, a: Abs, ts: seq<TimerId>, cb: Callback): Abs {
    if ts == [] then a else Fire(c, FireAll(c, a, ts[..|ts| - 1], cb), ts[|ts| - 1], cb)
  }

  /** The timers of the next tick, in some order. */
  ghost predicate Round(a: Abs, ts: seq<TimerId>) {
    NoDup(ts) && forall t :: t in ts <==> t in a.due && a.due[t] == a.ticks
  }

  /** Take a tick and fire the given timers. */
  function Take(c: Config, a: Abs, ts: seq<TimerId>, cb: Callback): Abs {
    FireAll(c, a.(ticks := a.ticks + 1), ts, cb)
  }

  /** Take one tick after the other, firing the timers of each. */
  function TakeAll(c: Config, a: Abs, rounds: seq<seq<TimerId>>, cb: Callback): Abs {
    if rounds == [] then a
    else Take(c, TakeAll(c, a, rounds[..|rounds| - 1], cb), rounds[|rounds| - 1], cb)
  }

  /** In every tick, exactly the timers fire that are due at it. */
  ghost predicate AllRounds(c: Config, a: Abs, rounds: seq<seq<TimerId>>, cb: Callback) {
    forall k | 0 <= k < |rounds| :: Round(TakeAll(c, a, rounds[..k], cb), rounds[k])
  }

  function Flat(rounds: seq<seq<TimerId>>): seq<TimerId> {
    if rounds == [] then [] else Flat(rounds[..|rounds| - 1]) + rounds[|rounds| - 1]
  }

  /** The timers that fired, in order. */
  function FiredIn(h: History): seq<TimerId> {
    if h == [] then []
    else FiredIn(h[..|h| - 1]) + if h[|h| - 1].Fired? then [h[|h| - 1].tmr] else []
  }

  lemma FiredInSnoc(h: History, e: Event)
    ensures FiredIn(h + [e]) == FiredIn(h) + if e.Fired? then [e.tmr] else []
  {
    assert (h + [e])[..|h|] == h;
  }

  lemma FireAllNext(c: Config, a: Abs, ts: seq<TimerId>, i: nat, cb: Callback)
    requires i < |ts|
    ensures FireAll(c, a, ts[..i + 1], cb) == Fire(c, FireAll(c, a, ts[..i], cb), ts[i], cb)
  {
    assert ts[..i + 1][..i] == ts[..i];
  }

  lemma TakeAllNext(c: Config, a: Abs, rounds: seq<seq<TimerId>>, ts: seq<TimerId>, cb: Callback)
    requires AllRounds(c, a, rounds, cb) && Round(TakeAll(c, a, rounds, cb), ts)
    ensures AllRounds(c, a, rounds + [ts], cb)
    ensures TakeAll(c, a, rounds + [ts], cb) == Take(c, TakeAll(c, a, rounds, cb), ts, cb)
    ensures Flat(rounds + [ts]) == Flat(rounds) + ts
  {
    hide Round, TakeAll, Take, Flat;
    var more := rounds + [ts];
    forall k | 0 <= k < |more| ensures Round(TakeAll(c, a, more[..k], cb), more[k]) {
      if k < |rounds| { assert more[..k] == rounds[..k]; } else { assert more[..k] == rounds; }
    }
    TakeAllLast(c, a, rounds, ts, cb);
  }

  lemma TakeAllLast(c: Config, a: Abs, rounds: seq<seq<TimerId>>, ts: seq<TimerId>, cb: Callback)
    ensures TakeAll(c, a, rounds + [ts], cb) == Take(c, TakeAll(c, a, rounds, cb), ts, cb)
    ensures Flat(rounds + [ts]) == Flat(rounds) + ts
  {
    assert (rounds + [ts])[..|rounds|] == rounds;
  }

  /** What fires is recorded as fired, in that order, at the tick taken, and whatever a callback arms is due later. */
  ghost predicate Grown(h: History, h': History, lo: int, hi: int) {
    && h <= h'
    && (forall k | |h| <= k < |h'| ::
          (h'[k].Fired? && lo <= h'[k].tick < hi) || (h'[k].Armed? && h'[k].tick > lo))
  }

  lemma FireGrown(c: Config, a: Abs, t: TimerId, cb: Callback)
    ensures var b := Fire(c, a, t, cb);
      && Grown(a.history, b.history, a.ticks - 1, a.ticks) && FiredIn(b.history) == FiredIn(a.history) + [t]
      && b.ticks == a.ticks && b.nTriggered == a.nTriggered + 1
  {
    hide FiredIn;
    FiredInSnoc(a.history, Fired(t, a.ticks - 1));
    var after := cb(t, a.nTriggered + 1);
    if after.Some? && Fits(c, after.value) {
      FiredInSnoc(a.history + [Fired(t, a.ticks - 1)], Armed(t, TickFor(c, a.ticks, after.value)));
    }
  }

  lemma {:induction false} FireAllGrown(c: Config, a: Abs, ts: seq<TimerId>, cb: Callback)
    ensures var b := FireAll(c, a, ts, cb);
      && Grown(a.history, b.history, a.ticks - 1, a.ticks) && FiredIn(b.history) == FiredIn(a.history) + ts
      && b.ticks == a.ticks && b.nTriggered == a.nTriggered + |ts|
    decreases |ts|
  {
    hide FiredIn, Fire;
    if ts != [] {
      var less := ts[..|ts| - 1];
      FireAllGrown(c, a, less, cb);
      FireGrown(c, FireAll(c, a, less, cb), ts[|ts| - 1], cb);
      assert ts == less + [ts[|ts| - 1]];
    }
  }

  /** What a Trigger adds to the history: the timers of its rounds, in order, and armings for later ticks. */
  lemma {:induction false} TakeAllGrown(c: Config, a: Abs, rounds: seq<seq<TimerId>>, cb: Callback)
    ensures var b := TakeAll(c, a, rounds, cb);
      && Grown(a.history, b.history, a.ticks, b.ticks) && FiredIn(b.history) == FiredIn(a.history) + Flat(rounds)
      && b.ticks == a.ticks + |rounds| && b.nTriggered == a.nTriggered + |Flat(rounds)|
    decreases |rounds|
  {
    hide FiredIn, FireAll;
    if rounds != [] {
      var less := rounds[..|rounds| - 1];
      TakeAllGrown(c, a, less, cb);
      var m := TakeAll(c, a, less, cb);
      FireAllGrown(c, m.(ticks := m.ticks + 1), rounds[|rounds| - 1], cb);
    }
  }

  /**
    When no callback arms its timer again: what has fired is, without repetition, what was
    scheduled for the ticks taken, and the rest of the schedule is unchanged.
   */
  ghost predicate Quiet(before: Schedule, after: Schedule, fired: seq<TimerId>, ticks: int) {
    && after == Minus(before, fired)
    && NoDup(fired)
    && (forall t :: t in fired <==> t in before && before[t] < ticks)
  }

  ghost function Minus(due: Schedule, fired: seq<TimerId>): Schedule {
    due - (set t | t in fired)
  }

  lemma QuietStart(due: Schedule, ticks: int)
    requires forall t | t in due :: due[t] >= ticks
    ensures Quiet(due, due, [], ticks)
  {
  }

  lemma QuietTick(before: Schedule, middle: Schedule, after: Schedule, fired: seq<TimerId>, more: seq<TimerId>, ticks: int)
    requires Quiet(before, middle, fired, ticks - 1)
    requires NoDup(more) && (forall t :: t in more <==> t in middle && middle[t] == ticks - 1)
    requires after == Minus(middle, more)
    ensures Quiet(before, after, fired + more, ticks)
  {
    forall i, j | 0 <= i < j < |fired + more| ensures (fired + more)[i] != (fired + more)[j] {
      if i < |fired| <= j {
        assert (fired + more)[i] in fired && (fired + more)[j] in more;
      }
    }
  }

  lemma MinusSnoc(due: Schedule, fired: seq<TimerId>, t: TimerId)
    ensures Minus(due, fired) - {t} == Minus(due, fired + [t])
  {
  }

  lemma {:induction false} FireAllQuiet(c: Config, a: Abs, ts: seq<TimerId>, cb: Callback)
    requires forall t, n :: cb(t, n) == None
    ensures FireAll(c, a, ts, cb).due == Minus(a.due, ts)
    decreases |ts|
  {
    if ts != [] {
      var less := ts[..|ts| - 1];
      FireAllQuiet(c, a, less, cb);
      MinusSnoc(a.due, less, ts[|ts| - 1]);
      assert ts == less + [ts[|ts| - 1]];
    }
  }

  lemma {:induction false} AllQuiet(c: Config, a: Abs, rounds: seq<seq<TimerId>>, cb: Callback)
    requires AllRounds(c, a, rounds, cb) && (forall t, n :: cb(t, n) == None)
    requires forall t | t in a.due :: a.due[t] >= a.ticks
    ensures Quiet(a.due, TakeAll(c, a, rounds, cb).due, Flat(rounds), a.ticks + |rounds|)
    decreases |rounds|
  {
    hide Quiet, FireAll, Grown, FiredIn, AllRounds, Minus;
    if rounds == [] {
      QuietStart(a.due, a.ticks);
    } else {
      var n := |rounds| - 1;
      var less := rounds[..n];
      LessRounds(c, a, rounds, cb);
      AllQuiet(c, a, less, cb);
      var m := TakeAll(c, a, less, cb);
      TakeAllGrown(c, a, less, cb);
      FireAllQuiet(c, m.(ticks := m.ticks + 1), rounds[n], cb);
      QuietTick(a.due, m.due, Minus(m.due, rounds[n]), Flat(less), rounds[n], a.ticks + n + 1);
    }
  }

  lemma LessRounds(c: Config, a: Abs, rounds: seq<seq<TimerId>>, cb: Callback)
    requires AllRounds(c, a, rounds, cb) && rounds != []
    ensures AllRounds(c, a, rounds[..|rounds| - 1], cb)
    ensures Round(TakeAll(c, a, rounds[..|rounds| - 1], cb), rounds[|rounds| - 1])
  {
    hide Round, TakeAll;
    var less := rounds[..|rounds| - 1];
    forall k | 0 <= k < |less| ensures Round(TakeAll(c, a, less[..k], cb), less[k]) {
      assert less[..k] == rounds[..k];
    }
  }

  // ------------------------------------------------------------------ the wheel

  lemma QuotientBelow(a: nat, i: int, k: int)
    requires 0 < i && 0 <= k
    ensures a / i < k <==> a < i * k
  {
    var q, r := a / i, a % i;
    assert a == i * q + r;
    if q < k { MulMono(i, q + 1, k); } else { MulMono(i, k, q); }
  }

  lemma MulMono(i: int, a: int, b: int)
    requires 0 <= i && a <= b
    ensures i * a <= i * b
  {
  }

  lemma AwayFits(after: int, interval: int, nSlots: nat)
    requires 0 < interval && 0 < nSlots
    ensures 0 < Max(after, 0) / interval + 1
    ensures Max(after, 0) / interval + 1 < nSlots <==> after < interval * (nSlots - 1) && nSlots > 1
  {
    QuotientBelow(Max(after, 0), interval, nSlots - 1);
    if nSlots > 1 { MulMono(interval, 1, nSlots - 1); }
  }

  /** How many ticks after the next one the given slot comes up. */
  function Dist(slotNum: int, lastSlot: int, nSlots: int): int {
    if slotNum > lastSlot then slotNum - lastSlot - 1 else slotNum - lastSlot - 1 + nSlots
  }

  /** The schedule that the slots stand for, after `ticks` ticks, the last of which executed slot `lastSlot`. */
  function DueOf(where: map<TimerId, nat>, lastSlot: int, nSlots: int, ticks: int): (due: Schedule)
    ensures due.Keys == where.Keys
  {
    map t | t in where :: if where[t] == lastSlot then ticks - 1 else ticks + Dist(where[t], lastSlot, nSlots)
  }

  lemma DueCancel(where: map<TimerId, nat>, lastSlot: int, nSlots: int, ticks: int, t: TimerId)
    ensures DueOf(where - {t}, lastSlot, nSlots, ticks) == DueOf(where, lastSlot, nSlots, ticks) - {t}
  {
  }

  lemma DueLast(where: map<TimerId, nat>, lastSlot: int, nSlots: int, ticks: int, t: TimerId)
    requires t in where && where[t] == lastSlot
    ensures DueOf(where, lastSlot, nSlots, ticks)[t] == ticks - 1
  {
  }

  lemma LastSlotFree(lists: seq<seq<TimerId>>, where: map<TimerId, nat>, lastSlot: nat)
    requires Linked(lists, where) && lastSlot < |lists| && lists[lastSlot] == []
    ensures forall t | t in where :: where[t] < |lists| && where[t] != lastSlot
  {
  }

  lemma DrainingIsDue(lists: seq<seq<TimerId>>, where: map<TimerId, nat>, lastSlot: nat, ticks: int)
    requires Linked(lists, where) && lastSlot < |lists|
    ensures forall t ::
      t in lists[lastSlot] <==>
      t in DueOf(where, lastSlot, |lists|, ticks) && DueOf(where, lastSlot, |lists|, ticks)[t] == ticks - 1
  {
  }

  lemma DueArm(where: map<TimerId, nat>, lastSlot: int, nSlots: int, ticks: int, t: TimerId, away: int)
    requires 0 <= lastSlot < nSlots && 0 < away < nSlots
    ensures DueOf(where[t := (lastSlot + away) % nSlots], lastSlot, nSlots, ticks)
         == DueOf(where, lastSlot, nSlots, ticks)[t := ticks + away - 1]
  {
    MaskWraps(lastSlot + away, nSlots);
  }

  lemma DueTick(where: map<TimerId, nat>, lastSlot: int, nSlots: int, ticks: int)
    requires 0 <= lastSlot < nSlots && (forall t | t in where :: where[t] < nSlots && where[t] != lastSlot)
    ensures DueOf(where, (lastSlot + 1) % nSlots, nSlots, ticks + 1) == DueOf(where, lastSlot, nSlots, ticks)
  {
    MaskWraps(lastSlot + 1, nSlots);
    var next := (lastSlot + 1) % nSlots;
    forall t | t in where
      ensures DueOf(where, next, nSlots, ticks + 1)[t] == DueOf(where, lastSlot, nSlots, ticks)[t]
    {
    }
  }

  /** `x & (n - 1)` for a power of two `n`, over the range where the scheduler uses it. */
  lemma MaskWraps(x: nat, n: nat)
    requires x < 2 * n
    ensures x % n == if x < n then x else x - n
  {
    var q, r := x / n, x % n;
    assert x == n * q + r;
    if q >= 2 { MulGe(n, q - 2); }
    if q == 1 { assert n * q == n; }
    if q == 0 { assert n * q == 0; }
  }

  lemma MulGe(n: nat, k: nat)
    ensures n * k >= 0 && n * (k + 2) == n * k + 2 * n
  {
  }

  class MinSched {
    const interval: int
    const nSlots: nat
    const slot: array<seq<TimerId>>
    var nextTime: int
    var lastSlot: nat
    var nTriggered: nat
    var where: map<TimerId, nat>

    ghost const origin: int
    ghost var ticks: nat
    ghost var history: History
    /** Timers of the slot being executed whose callback has not been invoked yet. */
    ghost var draining: seq<TimerId>

    ghost predicate Shape()
      reads this, slot
    {
      && 0 < interval && lastSlot < nSlots && slot.Length == nSlots
      && nextTime == origin + ticks * interval
      && Linked(slot[..][lastSlot := draining], where)
    }

    /** The abstract schedule that the slots stand for. */
    ghost function Due(): (due: Schedule)
      reads this
    {
      DueOf(where, lastSlot, nSlots, ticks)
    }

    ghost function View(): (a: Abs)
      reads this
    {
      Abs(Due(), ticks, nTriggered, history)
    }

    ghost function Cfg(): (c: Config) {
      Config(interval, nSlots)
    }

    /** The invariant, also in the middle of executing a slot. */
    ghost predicate Inv()
      reads this, slot
    {
      Shape() && Recorded(history, Due(), ticks, draining)
    }

    /** The invariant between calls: nothing is being executed. */
    ghost predicate Valid()
      reads this, slot
    {
      Inv() && draining == [] && slot[lastSlot] == []
    }

    /** The clock time of a tick. */
    ghost function TickTime(k: int): int
      reads this
    {
      origin + k * interval
    }

    constructor (nSlots: nat, interval: int, now: int)
      requires nSlots > 0 && interval > 0
      ensures Valid() && fresh(slot)
      ensures this.nSlots == nSlots && this.interval == interval && nextTime == now == origin
      ensures View() == Abs(map[], 0, 0, [])
    {
      this.interval, this.nSlots := interval, nSlots;
      slot := new seq<TimerId>[nSlots](_ => []);
      nextTime, origin, ticks, nTriggered := now, now, 0, 0;
      lastSlot := nSlots - 1;
      where, history, draining := map[], [], [];
    }

    /** Cancel a timer; nothing happens when it is not armed. */
    method Cancel(tmr: TimerId)
      requires Inv() && tmr !in draining
      modifies this`where, this`history, slot
      ensures Inv()
      ensures View() == Disarm(old(View()), tmr) && Due() == old(Due()) - {tmr}
      ensures slot[lastSlot] == old(slot[lastSlot])
    {
      hide Recorded;
      DueCancel(where, lastSlot, nSlots, ticks, tmr);
      if tmr !in where {
        assert where - {tmr} == where;
        return;
      }
      ghost var due := Due();
      var i := where[tmr];
      ghost var lists := slot[..][lastSlot := draining];
      LinkedCancel(lists, where, tmr);
      slot[i] := Without(slot[i], tmr);
      where := where - {tmr};
      assert slot[..][lastSlot := draining] == lists[i := Without(lists[i], tmr)];
      RecordDisarm(history, due, ticks, draining, tmr);
      history := history + [Disarmed(tmr, due[tmr])];
    }

    /**
      Arm a timer, replacing any previous setting.  The arming is refused exactly when the
      delay is at least `nSlots - 1` intervals.
     */
    method After(tmr: TimerId, after: int) returns (ok: bool)
      requires Inv() && tmr !in draining
      modifies this`where, this`history, slot
      ensures Inv()
      ensures ok <==> after < interval * (nSlots - 1) && nSlots > 1
      ensures View() == Arm(Cfg(), old(View()), tmr, after)
      ensures Due() == if ok then old(Due())[tmr := ticks + Max(after, 0) / interval] else old(Due()) - {tmr}
      ensures slot[lastSlot] == old(slot[lastSlot])
    {
      hide Recorded;
      hide Linked;
      hide DueOf;
      hide Max;
      Cancel(tmr);
      ghost var due := Due();
      var away := Max(after, 0) / interval + 1;
      AwayFits(after, interval, nSlots);
      if away >= nSlots {
        return false;
      }
      var slotNum := (lastSlot + away) % nSlots;
      MaskWraps(lastSlot + away, nSlots);
      ghost var lists := slot[..][lastSlot := draining];
      LinkedArm(lists, where, tmr, slotNum);
      DueArm(where, lastSlot, nSlots, ticks, tmr, away);
      RecordArm(history, due, ticks, draining, tmr, ticks + away - 1);
      slot[slotNum] := [tmr] + slot[slotNum];
      where := where[tmr := slotNum];
      history := history + [Armed(tmr, ticks + away - 1)];
      assert slot[..][lastSlot := draining] == lists[slotNum := [tmr] + lists[slotNum]];
      assert old(Due())[tmr := ticks + away - 1] == due[tmr := ticks + away - 1];
      return true;
    }

    /** Nothing that is still scheduled is overdue. */
    lemma NothingOverdue(t: TimerId)
      requires Valid() && t in Due()
      ensures Due()[t] >= ticks
    {
    }

    /** Take the next tick: its slot becomes the one to execute. */
    method Tick()
      requires Valid()
      modifies this`lastSlot, this`nextTime, this`ticks, this`draining
      ensures Inv() && draining == slot[lastSlot]
      ensures Due() == old(Due())
      ensures ticks == old(ticks) + 1 && nextTime == old(nextTime) + interval
      ensures forall t :: t in draining <==> t in Due() && Due()[t] == ticks - 1
    {
      hide Recorded;
      ghost var lists := slot[..];
      assert slot[..][lastSlot := draining] == lists;
      LastSlotFree(lists, where, lastSlot);
      hide Linked;
      hide DueOf;
      DueTick(where, lastSlot, nSlots, ticks);
      MaskWraps(lastSlot + 1, nSlots);
      var next := (lastSlot + 1) % nSlots;
      RecordTick(history, Due(), ticks, slot[next]);
      assert (ticks + 1) * interval == ticks * interval + interval;
      lastSlot := next;
      nextTime := nextTime + interval;
      ticks := ticks + 1;
      draining := slot[lastSlot];
      assert slot[..][lastSlot := draining] == lists;
      DrainingIsDue(lists, where, lastSlot, ticks);
    }

    /** Unlink the first timer of the slot being executed and invoke its callback, which may arm it again. */
    method FireFirst(tmr: TimerId, cb: Callback)
      requires Inv() && draining != [] && tmr == draining[0]
      modifies this`where, this`history, this`nTriggered, this`draining, slot
      ensures Inv() && draining == old(draining)[1..] && slot[lastSlot] == old(slot[lastSlot])
      ensures View() == Fire(Cfg(), old(View()), tmr, cb)
    {
      hide Recorded;
      hide Linked;
      hide DueOf;
      hide NoDup;
      hide Arm;
      ghost var lists := slot[..][lastSlot := draining];
      LinkedPop(lists, where, lastSlot);
      DueCancel(where, lastSlot, nSlots, ticks, tmr);
      DueLast(where, lastSlot, nSlots, ticks, tmr);
      RecordFire(history, Due(), ticks, draining);
      where := where - {tmr};
      history := history + [Fired(tmr, ticks - 1)];
      draining := draining[1..];
      assert slot[..][lastSlot := draining] == lists[lastSlot := lists[lastSlot][1..]];
      nTriggered := nTriggered + 1;
      match cb(tmr, nTriggered) {
        case None =>
        case Some(after) =>
          assert tmr !in draining;
          var _ := After(tmr, after);
      }
    }

    /** Invoke the callback of every timer in the slot of the tick just taken. */
    method Drain(cb: Callback) returns (fired: seq<TimerId>)
      requires Inv() && draining == slot[lastSlot]
      modifies this`where, this`history, this`nTriggered, this`draining, slot
      ensures Valid()
      ensures fired == old(draining) && NoDup(fired)
      ensures View() == FireAll(Cfg(), old(View()), fired, cb)
    {
      hide Recorded;
      hide DueOf;
      fired := slot[lastSlot];
      assert NoDup(fired) by { assert (slot[..][lastSlot := draining])[lastSlot] == fired; }
      hide Linked;
      hide NoDup;
      hide Fire;
      ghost var a := View();
      assert fired[..0] == [];
      var i := 0;
      while i < |fired|
        invariant 0 <= i <= |fired| && fired == slot[lastSlot] && draining == fired[i..]
        invariant Inv()
        invariant View() == FireAll(Cfg(), a, fired[..i], cb)
      {
        FireAllNext(Cfg(), a, fired, i, cb);
        FireFirst(fired[i], cb);
        i := i + 1;
      }
      ghost var lists := slot[..][lastSlot := draining];
      slot[lastSlot] := [];
      assert slot[..][lastSlot := draining] == lists;
      assert fired[..i] == fired;
    }

    /**
      Execute every tick up to `now`.  The timers whose callbacks are invoked, in order, are
      returned: tick by tick (`rounds`), exactly those that the abstract scheduler has due.
     */
    method Trigger(now: int, cb: Callback) returns (fired: seq<TimerId>, ghost rounds: seq<seq<TimerId>>)
      requires Valid()
      modifies this`where, this`history, this`nTriggered, this`draining, this`lastSlot, this`nextTime, this`ticks, slot
      ensures Valid() && nextTime > now
      ensures old(ticks) < ticks ==> TickTime(ticks - 1) <= now
      ensures AllRounds(Cfg(), old(View()), rounds, cb) && View() == TakeAll(Cfg(), old(View()), rounds, cb)
      ensures fired == Flat(rounds) && ticks == old(ticks) + |rounds|
      ensures (forall t, n :: cb(t, n) == None) ==> Quiet(old(Due()), Due(), fired, ticks)
    {
      hide Recorded;
      hide Linked;
      hide DueOf;
      hide Quiet;
      hide NoDup;
      hide FireAll;
      fired, rounds := [], [];
      ghost var a := View();
      assert forall t | t in a.due :: a.due[t] >= a.ticks by {
        forall t | t in Due() ensures Due()[t] >= ticks { NothingOverdue(t); }
      }
      assert AllRounds(Cfg(), a, rounds, cb) && a == TakeAll(Cfg(), a, rounds, cb) && fired == Flat(rounds);
      hide AllRounds, TakeAll, Flat;
      while nextTime <= now
        invariant Valid() && ticks == old(ticks) + |rounds| && fired == Flat(rounds)
        invariant old(ticks) < ticks ==> TickTime(ticks - 1) <= now
        invariant AllRounds(Cfg(), a, rounds, cb) && View() == TakeAll(Cfg(), a, rounds, cb)
        decreases now - nextTime
      {
        assert TickTime(ticks) <= now;
        Tick();
        var f := Drain(cb);
        TakeAllNext(Cfg(), a, rounds, f, cb);
        fired := fired + f;
        rounds := rounds + [f];
      }
      if forall t, n :: cb(t, n) == None {
        AllQuiet(Cfg(), a, rounds, cb);
      }
    }
  }

  /**
    Once its tick has been taken, an arming that was not taken back has fired exactly once:
    there are as many of them as firings, and there is at most one firing.
   */
  lemma ArmingsFireOnce(h: History, due: Schedule, ticks: int, t: TimerId, d: int)
    requires Recorded(h, due, ticks, []) && (forall x | x in due :: due[x] >= ticks)
    requires d < ticks
    ensures multiset(h)[Armed(t, d)] - multiset(h)[Disarmed(t, d)] == multiset(h)[Fired(t, d)] <= 1
  {
    assert Pending(due, t, d) == 0;
  }

  /** A timer armed on an up-to-date wheel fires less than one interval before, and at most one interval after, the requested time. */
  lemma TickIsNearDeadline(now: int, nextTime: int, interval: int, after: int)
    requires 0 < interval && nextTime - interval <= now < nextTime
    ensures now + Max(after, 0) - interval
            < nextTime + Max(after, 0) / interval * interval
            <= now + Max(after, 0) + interval
  {
    var a := Max(after, 0);
    assert a == interval * (a / interval) + a % interval;
  }

  datatype Op = After(tmr: TimerId, after: int) | Cancel(tmr: TimerId) | Trigger(now: int)

  /** The ticks up to `now` have been taken, and no others. */
  ghost predicate UpTo(c: Config, origin: int, ticks: int, ticks': int, now: int) {
    && origin + ticks' * c.interval > now
    && (ticks < ticks' ==> origin + (ticks' - 1) * c.interval <= now)
  }

  /** One operation of the abstract scheduler; timers that are due at the same tick may fire in any order. */
  ghost predicate Step(c: Config, origin: int, a: Abs, op: Op, cb: Callback, b: Abs) {
    match op
    case After(tmr, after) => b == Arm(c, a, tmr, after)
    case Cancel(tmr) => b == Disarm(a, tmr)
    case Trigger(now) =>
      UpTo(c, origin, a.ticks, b.ticks, now)
      && exists rounds :: AllRounds(c, a, rounds, cb) && b == TakeAll(c, a, rounds, cb)
  }

  /**
    Any run whatsoever: the wheel goes through the states of a run of the abstract scheduler, whose
    history then accounts for every arming, and after it nothing that was due by the time of some
    `Trigger` is still pending.
   */
  method Run(nSlots: nat, interval: int, start: int, ops: seq<Op>, cb: Callback)
    returns (sched: MinSched, ghost states: seq<Abs>)
    requires nSlots > 0 && interval > 0
    ensures sched.Valid() && sched.Cfg() == Config(interval, nSlots)
    ensures |states| == |ops| + 1 && states[0] == Abs(map[], 0, 0, []) && states[|ops|] == sched.View()
    ensures forall i | 0 <= i < |ops| :: Step(Config(interval, nSlots), start, states[i], ops[i], cb, states[i + 1])
    ensures Accounted(sched.history, sched.Due()) && FiredOnce(sched.history, sched.ticks)
    ensures forall t, i | t in sched.Due() && 0 <= i < |ops| && ops[i].Trigger? ::
      sched.TickTime(sched.Due()[t]) > ops[i].now
  {
    hide Recorded;
    hide Linked;
    hide DueOf;
    hide Quiet;
    hide NoDup;
    hide Arm, Disarm, AllRounds, TakeAll, Flat;
    sched := new MinSched(nSlots, interval, start);
    states := [sched.View()];
    for i := 0 to |ops|
      invariant sched.Valid() && fresh(sched) && fresh(sched.slot) && sched.Cfg() == Config(interval, nSlots) && sched.origin == start
      invariant |states| == i + 1 && states[0] == Abs(map[], 0, 0, []) && states[i] == sched.View()
      invariant forall j | 0 <= j < i :: Step(Config(interval, nSlots), start, states[j], ops[j], cb, states[j + 1])
      invariant forall j | 0 <= j < i && ops[j].Trigger? :: sched.nextTime > ops[j].now
    {
      ghost var a := sched.View();
      match ops[i] {
        case After(tmr, after) => var _ := sched.After(tmr, after);
        case Cancel(tmr) => sched.Cancel(tmr);
        case Trigger(now) =>
          ghost var was := sched.ticks;
          var _, _ := sched.Trigger(now, cb);
          MulMono(sched.interval, was, sched.ticks);
      }
      assert Step(sched.Cfg(), start, a, ops[i], cb, sched.View());
      states := states + [sched.View()];
    }
    RecordedParts(sched.history, sched.Due(), sched.ticks);
    forall t | t in sched.Due() ensures sched.TickTime(sched.Due()[t]) >= sched.nextTime {
      sched.NothingOverdue(t);
      MulMono(sched.interval, sched.ticks, sched.Due()[t]);
    }
  }

  lemma RecordedParts(h: History, due: Schedule, ticks: int)
    requires Recorded(h, due, ticks, [])
    ensures Accounted(h, due) && FiredOnce(h, ticks)
  {
  }
}
