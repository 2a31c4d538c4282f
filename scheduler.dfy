/** The deadline arithmetic of a metric group's polling loop. Time is an
    integer number of nanoseconds (metricq's `Timestamp` and `Timedelta`);
    with a positive divisor Dafny's `%` and `/` agree with Python's. */
module Scheduler {

  /** `_sampling_interval`: a double-sampling group polls twice per interval. */
  function SamplingInterval(interval: int, doubleSample: bool): (s: int)
    ensures doubleSample ==> s == 2 * interval
    ensures !doubleSample ==> s == interval
    ensures interval > 0 ==> s >= interval > 0
  {
    if doubleSample then interval * 2 else interval
  }

  /** The first deadline: the clock rounded down to a multiple of the
      sampling interval. */
  function FirstDeadline(now: int, s: int): (d: int)
    requires s > 0
    ensures d <= now < d + s
    ensures d % s == 0
  {
    DivMod(now, s);
    ModUnique(now - now % s, s, now / s, 0);
    now - now % s
  }

  /** `d + s * k`, the deadline moved on by `k` intervals. */
  function Advance(d: int, s: int, k: nat): (r: int)
  {
    if k == 0 then d else Advance(d, s, k - 1) + s
  }

  lemma {:induction false} AdvanceIsMultiple(d: int, s: int, k: nat)
    ensures Advance(d, s, k) == d + s * k
  {
    if k > 0 {
      AdvanceIsMultiple(d, s, k - 1);
      assert s * k == s * (k - 1) + s;
    }
  }

  /** One step of the loop: advance the deadline by one sampling interval and,
      when the clock is already past it, by as many more intervals as were
      missed (`1 + missed // s`). */
  function NextDeadline(deadline: int, now: int, s: int): (d: int)
    requires s > 0
  {
    var next := deadline + s;
    var missed := now - next;
    if missed > 0 then Advance(next, s, 1 + missed / s) else next
  }

  /** Whether the step took the missed-deadline branch. */
  predicate Missed(deadline: int, now: int, s: int) {
    now - (deadline + s) > 0
  }

  /** The deadline moves forward by a whole, positive number of intervals. */
  lemma NextDeadlineAdvances(deadline: int, now: int, s: int)
    requires s > 0
    ensures NextDeadline(deadline, now, s) - deadline >= s
    ensures (NextDeadline(deadline, now, s) - deadline) % s == 0
  {
    var missed := now - (deadline + s);
    if missed > 0 {
      AdvanceIsMultiple(deadline + s, s, 1 + missed / s);
      var k := 2 + missed / s;
      assert NextDeadline(deadline, now, s) - deadline == s * k;
      MultipleMod(s, k);
    }
  }

  lemma MultipleMod(s: int, k: int)
    requires s > 0
    ensures (s * k) % s == 0
  {
    ModUnique(s * k, s, k, 0);
  }

  lemma DivMod(a: int, s: int)
    requires s > 0
    ensures a == s * (a / s) + a % s && 0 <= a % s < s
  {
  }

  /** A product by a positive factor of at least one is at least the other factor. */
  lemma {:induction false} MulAtLeast(s: int, x: int)
    requires s > 0 && x >= 1
    ensures s * x >= s
    decreases x
  {
    if x > 1 {
      MulAtLeast(s, x - 1);
      assert s * x == s * (x - 1) + s;
    }
  }

  /** Euclidean division is unique: quotient and remainder are determined. */
  lemma ModUnique(a: int, s: int, q: int, r: int)
    requires s > 0 && 0 <= r < s && a == s * q + r
    ensures a % s == r && a / s == q
  {
    DivMod(a, s);
    var q' := a / s;
    assert s * (q - q') == a % s - r;
    if q - q' >= 1 {
      MulAtLeast(s, q - q');
    } else if q' - q >= 1 {
      MulAtLeast(s, q' - q);
    }
  }

  /** Aligned deadlines stay aligned. */
  lemma NextDeadlineAligned(deadline: int, now: int, s: int)
    requires s > 0 && deadline % s == 0
    ensures NextDeadline(deadline, now, s) % s == 0
  {
    NextDeadlineAdvances(deadline, now, s);
    var d := NextDeadline(deadline, now, s);
    var k := (d - deadline) / s;
    assert d - deadline == s * k;
    assert d == s * (deadline / s + k);
    MultipleMod(s, deadline / s + k);
  }

  /** The sleep `deadline - now` is never negative. After a missed deadline it
      is strictly positive and at most one interval, so the new deadline is the
      first candidate `deadline + k * s` strictly after the clock (a candidate
      equal to the clock is skipped); otherwise it is simply `deadline + s`. */
  lemma NextDeadlineSleep(deadline: int, now: int, s: int)
    requires s > 0
    ensures NextDeadline(deadline, now, s) - now >= 0
    ensures Missed(deadline, now, s) ==> 0 < NextDeadline(deadline, now, s) - now <= s
    ensures Missed(deadline, now, s) ==> NextDeadline(deadline, now, s) - s <= now
    ensures !Missed(deadline, now, s) ==> NextDeadline(deadline, now, s) == deadline + s
  {
    var next := deadline + s;
    var missed := now - next;
    if missed > 0 {
      AdvanceIsMultiple(next, s, 1 + missed / s);
      DivMod(missed, s);
      var q := missed / s;
      assert NextDeadline(deadline, now, s) == next + s + s * q;
      assert NextDeadline(deadline, now, s) - now == s - missed % s;
    }
  }

  /** The deadlines the loop computes for the clock readings `nows`, one
      reading per cycle, starting from the clock reading `start`. */
  function Deadlines(start: int, nows: seq<int>, s: int): (ds: seq<int>)
    requires s > 0
    ensures |ds| == |nows|
  {
    if nows == [] then []
    else
      var before := Deadlines(start, nows[..|nows| - 1], s);
      var last := if before == [] then FirstDeadline(start, s) else before[|before| - 1];
      before + [NextDeadline(last, nows[|nows| - 1], s)]
  }

  /** Over any run, every deadline is a multiple of the sampling interval,
      each lies at least one interval after the one before, and none is
      earlier than the clock reading of its cycle. */
  lemma {:induction false} DeadlinesAligned(start: int, nows: seq<int>, s: int)
    requires s > 0
    ensures forall i :: 0 <= i < |nows| ==> Deadlines(start, nows, s)[i] % s == 0
    ensures forall i :: 0 <= i < |nows| ==> Deadlines(start, nows, s)[i] >= nows[i]
    ensures forall i :: 0 < i < |nows| ==>
      Deadlines(start, nows, s)[i] - Deadlines(start, nows, s)[i - 1] >= s
    ensures |nows| > 0 ==> Deadlines(start, nows, s)[0] - FirstDeadline(start, s) >= s
  {
    if nows != [] {
      var init := nows[..|nows| - 1];
      DeadlinesAligned(start, init, s);
      var before := Deadlines(start, init, s);
      var last := if before == [] then FirstDeadline(start, s) else before[|before| - 1];
      var now := nows[|nows| - 1];
      NextDeadlineAligned(last, now, s);
      NextDeadlineAdvances(last, now, s);
      NextDeadlineSleep(last, now, s);
      var ds := Deadlines(start, nows, s);
      assert ds == before + [NextDeadline(last, now, s)];
      assert forall i :: 0 <= i < |init| ==> ds[i] == before[i] && nows[i] == init[i];
    }
  }
}
