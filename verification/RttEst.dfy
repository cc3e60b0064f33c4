/**
  The RTT estimator of RFC 6298 section 2 (csrc/fetch/rttest.h, csrc/fetch/rttest.c).
  Floating point is idealised as `real`; a conversion to an integer duration truncates toward zero.
 */
module RttEst {

  const INITRTO_MS := 1000
  const MINRTO_MS := 200
  const MAXRTO_MS := 60000

  /** `TscDuration_FromMillis` for a positive number of milliseconds. */
  function FromMillis(ms: nat, hz: nat): (d: nat)
  {
    ms * hz / 1000
  }

  function Trunc(x: real): int {
    if x >= 0.0 then x.Floor else -(-x).Floor
  }

  function Abs(x: real): real {
    if x >= 0.0 then x else -x
  }

  function Clamp(rto: int, lo: int, hi: int): (r: int)
    ensures lo <= hi ==> lo <= r <= hi
    ensures lo <= rto <= hi ==> r == rto
  {
    var x := if rto <= hi then rto else hi;
    if lo >= x then lo else x
  }

  class RttEst {
    const hz: nat
    const minRto: nat
    const maxRto: nat
    var last: int
    var sRtt: real
    var rttVar: real
    var rto: int
    var next: int

    /** The RTO always lies between its two bounds. */
    ghost predicate Valid()
      reads this
    {
      && minRto == FromMillis(MINRTO_MS, hz) && maxRto == FromMillis(MAXRTO_MS, hz)
      && minRto <= rto <= maxRto
    }

    constructor (hz: nat)
      ensures Valid() && this.hz == hz && next == 0
    {
      this.hz := hz;
      minRto, maxRto := FromMillis(MINRTO_MS, hz), FromMillis(MAXRTO_MS, hz);
      last, sRtt, rttVar, next := 0, 1.0, 0.0, 0;
      rto := FromMillis(INITRTO_MS, hz);
    }

    /** Take a sample, at most once per smoothed RTT. */
    method Push(now: int, rtt: int)
      requires Valid()
      modifies this
      ensures Valid() && last == rtt
      ensures old(next) > now ==> unchanged(this`sRtt, this`rttVar, this`rto, this`next)
      ensures old(next) <= now ==>
        && rto == Clamp(Trunc(sRtt + 4.0 * rttVar), minRto, maxRto)
        && next == Trunc(now as real + sRtt)
      ensures old(next) == 0 <= now ==> sRtt == rtt as real && rttVar == rtt as real / 2.0
      ensures old(next) <= now && old(next) != 0 ==>
        && sRtt == 0.875 * old(sRtt) + 0.125 * rtt as real
        && rttVar == 0.75 * old(rttVar) + 0.25 * Abs(old(sRtt) - rtt as real)
    {
      last := rtt;
      if next > now {
        return;
      }
      if next == 0 {
        sRtt := rtt as real;
        rttVar := rtt as real / 2.0;
      } else {
        rttVar := (1.0 - 0.25) * rttVar + 0.25 * Abs(sRtt - rtt as real);
        sRtt := (1.0 - 0.125) * sRtt + 0.125 * rtt as real;
      }
      rto := Clamp(Trunc(sRtt + 4.0 * rttVar), minRto, maxRto);
      next := Trunc(now as real + sRtt);
    }

    /** Double the RTO, within its bounds. */
    method Backoff()
      requires Valid()
      modifies this`rto
      ensures Valid() && rto == Clamp(2 * old(rto), minRto, maxRto) && rto >= old(rto)
    {
      rto := Clamp(rto * 2, minRto, maxRto);
    }
  }
}
