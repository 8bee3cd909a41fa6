/**
  Frame pacing arithmetic (gui/src/qmlmainwindow.cpp:5598-5764 and the estimates that feed it):
  deadlines on a grid of present intervals, caught up in a loop by one caller and in closed form by
  the other, and the moving averages that say how early to wake up.
  */
module DeadlineGrid {
  import opened Wrappers

  // ---- Catching up with the clock ----

  /** The closed form: the number of missed intervals, by division. */
  function CatchUp(target: nat, now: nat, interval: nat): nat
    requires interval > 0
  {
    if target > now then target else target + ((now - target) / interval + 1) * interval
  }

  /** The step-by-step form. */
  method CatchUpLoop(start: nat, now: nat, interval: nat) returns (target: nat)
    requires interval > 0
    ensures target == CatchUp(start, now, interval)
  {
    target := start;
    while target <= now
      invariant CatchUp(target, now, interval) == CatchUp(start, now, interval)
      decreases now + 1 - target
    {
      OneInterval(target, now, interval);
      target := target + interval;
    }
  }

  lemma OneInterval(target: nat, now: nat, interval: nat)
    requires interval > 0 && target <= now
    ensures CatchUp(target + interval, now, interval) == CatchUp(target, now, interval)
  {
    var q, r := (now - target) / interval, (now - target) % interval;
    assert now - target == q * interval + r;
    CatchUpBehind(target, now, q, r, interval);
    if q == 0 {
      CatchUpAhead(target + interval, now, interval);
    } else {
      assert q * interval == (q - 1) * interval + interval;
      MulMonotone(0, q - 1, interval);
      CatchUpBehind(target + interval, now, q - 1, r, interval);
      hide CatchUp;
      assert (q + 1) * interval == q * interval + interval;
    }
  }

  lemma CatchUpAhead(target: nat, now: nat, interval: nat)
    requires interval > 0
    ensures target > now ==> CatchUp(target, now, interval) == target
  {
  }

  lemma CatchUpBehind(target: nat, now: nat, q: nat, r: nat, interval: nat)
    requires interval > 0 && target <= now && now - target == q * interval + r && r < interval
    ensures CatchUp(target, now, interval) == target + (q + 1) * interval
  {
    Quotient(now - target, q, r, interval);
  }

  lemma MulMonotone(a: int, b: int, n: nat)
    requires a <= b
    ensures a * n <= b * n
  {
    assert b * n - a * n == (b - a) * n;
  }

  lemma Quotient(d: nat, q: nat, r: nat, n: nat)
    requires n > 0 && d == q * n + r && r < n
    ensures d / n == q
  {
    var q', r' := d / n, d % n;
    assert d == q' * n + r';
    if q > q' {
      assert (q' + 1) * n == q' * n + n;
      MulMonotone(q' + 1, q, n);
    } else if q < q' {
      assert (q + 1) * n == q * n + n;
      MulMonotone(q + 1, q', n);
    }
  }

  /** Deadline r lies on the grid of the given step that starts at target. */
  ghost predicate OnGrid(target: nat, r: int, interval: nat) {
    exists k: nat :: r == target + k * interval
  }

  /** Both forms give the least grid point after now: on the old deadline's grid, in the future, at
      most one interval away unless it was further already, and no earlier grid point is in the future. */
  lemma CatchUpIsLeast(target: nat, now: nat, interval: nat)
    requires interval > 0
    ensures var r := CatchUp(target, now, interval);
      && now < r && target <= r
      && OnGrid(target, r, interval)
      && (target <= now ==> r <= now + interval)
      && (forall k: nat :: target + k * interval > now ==> r <= target + k * interval)
  {
    var r := CatchUp(target, now, interval);
    if target > now {
      assert r == target + 0 * interval;
      forall k: nat ensures r <= target + k * interval {
        MulMonotone(0, k, interval);
      }
    } else {
      var q := (now - target) / interval;
      assert now - target == q * interval + (now - target) % interval;
      assert r == target + (q + 1) * interval;
      assert (q + 1) * interval == q * interval + interval;
      forall k: nat | target + k * interval > now ensures r <= target + k * interval {
        if k <= q {
          MulMonotone(k, q, interval);
        } else {
          MulMonotone(q + 1, k, interval);
        }
      }
    }
  }

  lemma GridIsTransitive(a: nat, b: nat, c: int, interval: nat)
    requires OnGrid(a, b, interval) && OnGrid(b, c, interval)
    ensures OnGrid(a, c, interval)
  {
    var m: nat :| b == a + m * interval;
    var k: nat :| c == b + k * interval;
    assert (m + k) * interval == m * interval + k * interval;
    assert c == a + (m + k) * interval;
  }

  // ---- The present throttle ----

  /** The deadlines served by calls at the given times, from the deadline left by the call before. */
  function Served(deadline: nat, nows: seq<nat>, interval: nat): seq<nat>
    requires interval > 0
    decreases nows
  {
    if nows == [] then []
    else
      var served := CatchUp(deadline, nows[0], interval);
      [served] + Served(served + interval, nows[1..], interval)
  }

  /** Without a reset the deadlines served stay on one grid, at least one interval apart, each after
      the time of its call. */
  lemma {:induction false} ServedOnGrid(deadline: nat, nows: seq<nat>, interval: nat)
    requires interval > 0
    ensures var s := Served(deadline, nows, interval);
      && |s| == |nows|
      && (forall i :: 0 <= i < |s| ==> nows[i] < s[i] && deadline <= s[i])
      && (forall i :: 0 <= i < |s| ==> OnGrid(deadline, s[i], interval))
      && (forall i :: 0 < i < |s| ==> s[i - 1] + interval <= s[i])
    decreases nows
  {
    if nows != [] {
      var first := CatchUp(deadline, nows[0], interval);
      CatchUpIsLeast(deadline, nows[0], interval);
      ServedOnGrid(first + interval, nows[1..], interval);
      var rest := Served(first + interval, nows[1..], interval);
      var s := Served(deadline, nows, interval);
      forall i | 0 <= i < |s| ensures OnGrid(deadline, s[i], interval) {
        if i > 0 {
          assert first + interval == first + 1 * interval;
          GridIsTransitive(deadline, first, first + interval, interval);
          GridIsTransitive(deadline, first + interval, rest[i - 1], interval);
        }
      }
    }
  }

  /** One more call, as a step of the list. */
  lemma {:induction false} ServedGrows(deadline: nat, nows: seq<nat>, now: nat, interval: nat)
    requires interval > 0
    ensures var s := Served(deadline, nows, interval);
      && |s| == |nows|
      && Served(deadline, nows + [now], interval)
         == s + [CatchUp(if s == [] then deadline else s[|s| - 1] + interval, now, interval)]
    decreases nows
  {
    hide CatchUp;
    if nows == [] {
      assert nows + [now] == [now] && [now][1..] == [];
    } else {
      var first := CatchUp(deadline, nows[0], interval);
      ServedGrows(first + interval, nows[1..], now, interval);
      assert (nows + [now])[1..] == nows[1..] + [now];
    }
  }

  function Max0(x: int): nat {
    if x > 0 then x else 0
  }

  datatype Estimates = Estimates(swapToStart: int, startBlock: int, renderSubmit: int, submitSwap: int)

  function Lead(e: Estimates): nat {
    Max0(e.swapToStart) + Max0(e.startBlock) + Max0(e.renderSubmit) + Max0(e.submitSwap)
  }

  /** The nearest whole number of microseconds. */
  function IntervalUs(seconds: real): (us: int)
    ensures us as real - 0.5 <= seconds * 1000000.0 < us as real + 0.5
  {
    (seconds * 1000000.0 + 0.5).Floor
  }

  class Throttle {
    var nextTargetUs: nat
    var lastIntervalS: real
    ghost var start: nat             // the deadline the present grid was started with
    ghost var step: nat              // its interval
    ghost var times: seq<nat>        // the calls on this grid...
    ghost var deadlines: seq<nat>    // ...and the deadlines they served

    /** The deadlines served since the grid was started are those of the list, and the next call
        builds on the last of them. */
    ghost predicate Valid()
      reads this
    {
      && (times != [] ==> OnRecord())
      && (nextTargetUs > 0 ==>
            times != [] && OnRecord() && nextTargetUs == deadlines[|deadlines| - 1] + step
            && step == IntervalUs(lastIntervalS))
    }

    ghost predicate OnRecord()
      reads this
    {
      step > 0 && |deadlines| == |times| && deadlines == Served(start, times, step)
    }

    constructor ()
      ensures Valid() && nextTargetUs == 0 && lastIntervalS == 0.0
    {
      nextTargetUs, lastIntervalS := 0, 0.0;
      start, step, times, deadlines := 0, 0, [], [];
    }

    /** Since its start the grid was never left: every deadline lies on it, after the time of its call,
        and at least one interval after the one before. */
    lemma DeadlinesStayOnGrid()
      requires Valid() && times != []
      ensures step > 0 && |deadlines| == |times|
      ensures forall i :: 0 <= i < |deadlines| ==> times[i] < deadlines[i] && OnGrid(start, deadlines[i], step)
      ensures forall i :: 0 < i < |deadlines| ==> deadlines[i - 1] + step <= deadlines[i]
    {
      ServedOnGrid(start, times, step);
    }

    /** The deadline the next call builds on: none after a reset or a change of interval. */
    function Base(reset: bool, seconds: real): nat
      reads this
    {
      var last := if reset then 0.0 else lastIntervalS;
      if reset || last - seconds > 0.000001 || seconds - last > 0.000001 then 0 else nextTargetUs
    }

    /** A call at this interval goes on with the present grid. */
    ghost predicate GoesOn(reset: bool, seconds: real)
      reads this
    {
      Base(reset, seconds) > 0 && step == IntervalUs(seconds)
    }

    /** Waits for the next deadline. `reset` and `resetAfter` are the pending-reset flag before and
        after the wait; `priority(n)` is the n-th reading of the user-interface flag, and the n-th
        sleep ends `late(n)` microseconds late. Returns the deadline served, if any, the wake-up
        chosen and the time of return. */
    method Pace(seconds: real, reset: bool, resetAfter: bool, now: nat, e: Estimates,
                priority: nat -> bool, late: nat -> nat)
      returns (served: Option<nat>, wakeup: nat, end: nat)
      requires Valid()
      modifies this
      ensures Valid()
      ensures served.None? ==> times == old(times) && deadlines == old(deadlines)
      ensures seconds <= 0.0 ==> served.None? && nextTargetUs == 0 && lastIntervalS == 0.0
      ensures seconds > 0.0 && IntervalUs(seconds) == 0 ==>
        served.None? && nextTargetUs == (if reset then 0 else old(nextTargetUs))
      ensures seconds > 0.0 && IntervalUs(seconds) > 0 ==>
        var interval := IntervalUs(seconds);
        var kept := !reset && old(nextTargetUs) > 0
          && seconds - old(lastIntervalS) <= 0.000001 && old(lastIntervalS) - seconds <= 0.000001;
        var room := (if kept then old(nextTargetUs) else now + interval) - now;
        var goesOn := kept && old(step) == interval;
        var lead := (if e.swapToStart > 0 then e.swapToStart else 0) + (if e.startBlock > 0 then e.startBlock else 0)
          + (if e.renderSubmit > 0 then e.renderSubmit else 0) + (if e.submitSwap > 0 then e.submitSwap else 0);
        && served == Some(CatchUp(if kept then old(nextTargetUs) else now + interval, now, interval))
        && (room > 0 ==> served.value == now + room)
        && now <= wakeup <= served.value
        && (served.value - now > lead ==> wakeup + lead == served.value)
        && (served.value - now <= lead ==> wakeup == now)
        && (nextTargetUs == served.value + interval || (nextTargetUs == 0 && lastIntervalS == 0.0))
        && (resetAfter ==> nextTargetUs == 0)
        && times == (if goesOn then old(times) else []) + [now]
        && deadlines == (if goesOn then old(deadlines) else []) + [served.value]
      ensures served.Some? && (forall n :: !priority(n)) ==>
        && end >= wakeup
        && (!resetAfter ==> nextTargetUs == served.value + IntervalUs(seconds) && lastIntervalS == seconds)
    {
      hide Served, CatchUp, Lead;
      ghost var base, goesOn := Base(reset, seconds), GoesOn(reset, seconds);
      served, wakeup, end := None, now, now;
      if reset {
        nextTargetUs, lastIntervalS := 0, 0.0;
      }
      assert Base(false, seconds) == base && GoesOn(false, seconds) == goesOn;
      if seconds <= 0.0 {
        nextTargetUs, lastIntervalS := 0, 0.0;
        return;
      }
      var intervalUs := IntervalUs(seconds);
      if intervalUs == 0 {
        return;
      }
      NextDeadline(seconds, intervalUs, now);
      served := Some(nextTargetUs);
      wakeup := ChooseWakeup(nextTargetUs, now, e);
      var tests: nat;
      end, tests := SleepUntil(wakeup, now, priority, late);
      if priority(tests) || resetAfter {
        nextTargetUs, lastIntervalS := 0, 0.0;
      } else {
        nextTargetUs := nextTargetUs + intervalUs;
      }
    }

    /** Early enough for the render path, but not in the past. */
    method ChooseWakeup(target: nat, now: nat, e: Estimates) returns (wakeup: nat)
      requires now < target
      ensures now <= wakeup <= target
      ensures var lead := (if e.swapToStart > 0 then e.swapToStart else 0)
          + (if e.startBlock > 0 then e.startBlock else 0)
          + (if e.renderSubmit > 0 then e.renderSubmit else 0) + (if e.submitSwap > 0 then e.submitSwap else 0);
        && (target - now > lead ==> wakeup + lead == target)
        && (target - now <= lead ==> wakeup == now)
    {
      var lead := Lead(e);
      var remaining := target - now;
      wakeup := if remaining > lead then target - lead else now;
    }

    /** The deadline of this call: a new grid after a reset or a change of interval, caught up with the
        clock. */
    method NextDeadline(seconds: real, intervalUs: nat, now: nat)
      requires Valid() && intervalUs == IntervalUs(seconds) > 0
      modifies this
      ensures var base := old(Base(false, seconds));
        nextTargetUs == CatchUp(if base == 0 then now + intervalUs else base, now, intervalUs)
      ensures nextTargetUs > now && lastIntervalS == seconds
      ensures var base := old(Base(false, seconds));
        (base == 0 ==> nextTargetUs == now + intervalUs) && (base > now ==> nextTargetUs == base)
      ensures times == (if old(GoesOn(false, seconds)) then old(times) else []) + [now]
      ensures deadlines == (if old(GoesOn(false, seconds)) then old(deadlines) else []) + [nextTargetUs]
      ensures OnRecord() && step == intervalUs
    {
      hide Served, CatchUp;
      ghost var goesOn := GoesOn(false, seconds);
      if lastIntervalS - seconds > 0.000001 || seconds - lastIntervalS > 0.000001 {
        nextTargetUs := 0;
      }
      lastIntervalS := seconds;
      if nextTargetUs == 0 {
        nextTargetUs := now + intervalUs;
      }
      if !goesOn {
        start, step, times, deadlines := nextTargetUs, intervalUs, [], [];
      }
      CatchUpIsLeast(nextTargetUs, now, intervalUs);
      CatchUpAhead(nextTargetUs, now, intervalUs);
      nextTargetUs := CatchUpLoop(nextTargetUs, now, intervalUs);
      ServedGrows(start, times, now, intervalUs);
      times, deadlines := times + [now], deadlines + [nextTargetUs];
    }

    /** Sleeps of at most a millisecond until the wake-up, or until the user interface wants a turn. */
    method SleepUntil(wakeup: nat, now: nat, priority: nat -> bool, late: nat -> nat) returns (end: nat, tests: nat)
      ensures now <= end && (end < wakeup ==> exists n :: priority(n))
    {
      end, tests := now, 0;
      var wait: nat := if wakeup > now then wakeup - now else 0;
      while wait > 0
        invariant now <= end && wait == (if wakeup > end then wakeup - end else 0)
        decreases wait
      {
        if priority(tests) {
          return end, tests + 1;
        }
        var sleep := if wait < 1000 then wait else 1000;
        end := end + sleep + late(tests);
        tests := tests + 1;
        wait := if wakeup > end then wakeup - end else 0;
      }
    }
  }

  // ---- The buffered schedule ----

  /** What a call asks of the others: a time to arm the pacer for, and whether to render now. */
  datatype Request = Request(arm: Option<nat>, update: bool)

  /** Successive deadlines of one grid, none before the one it follows, with `next` still to come. */
  ghost predicate Climbs(armed: seq<nat>, next: int, interval: nat) {
    && (forall i, k :: 0 <= i < k < |armed| ==> OnGrid(armed[i], armed[k], interval))
    && (forall i :: 0 <= i < |armed| ==> OnGrid(armed[i], next, interval))
  }

  lemma ClimbsTo(armed: seq<nat>, next: nat, later: int, interval: nat)
    requires Climbs(armed, next, interval) && OnGrid(next, later, interval)
    ensures Climbs(armed, later, interval)
  {
    forall i | 0 <= i < |armed| ensures OnGrid(armed[i], later, interval) {
      GridIsTransitive(armed[i], next, later, interval);
    }
  }

  lemma ClimbsBy(armed: seq<nat>, next: nat, interval: nat)
    requires Climbs(armed, next, interval)
    ensures Climbs(armed + [next], next, interval)
  {
    assert next == next + 0 * interval;
    assert OnGrid(next, next, interval);
  }

  class BufferedSchedule {
    var nextUpdateUs: int
    var lastIntervalUs: int
    ghost var armed: seq<nat>   // the deadlines armed since the schedule was last anchored

    /** Since the schedule was anchored its deadlines have stayed on one grid and never moved back. */
    ghost predicate Valid()
      reads this
    {
      nextUpdateUs >= 0
      && (nextUpdateUs > 0 ==> lastIntervalUs > 0 && Climbs(armed, nextUpdateUs, lastIntervalUs))
    }

    constructor ()
      ensures Valid() && nextUpdateUs == 0 && lastIntervalUs == 0
    {
      nextUpdateUs, lastIntervalUs, armed := 0, 0, [];
    }

    method Schedule(intervalUs: nat, now: nat, lastSwapUs: int, timerOwned: bool, paceArmed: bool, renderBusy: bool,
                    idleTimer: bool, timerFired: bool) returns (r: Request)
      requires Valid() && intervalUs > 0
      modifies this
      ensures Valid() && lastIntervalUs == intervalUs && nextUpdateUs > 0
      ensures var anchored := old(nextUpdateUs) == 0 || old(lastIntervalUs) != intervalUs;
        armed == (if anchored then [] else old(armed)) + (if r.arm.Some? then [r.arm.value] else [])
      ensures var changed := old(lastIntervalUs) != intervalUs;
        var kept := old(nextUpdateUs) != 0 && !changed;
        var deadline := if kept then old(nextUpdateUs)
                        else if lastSwapUs > 0 then lastSwapUs + intervalUs else now + intervalUs;
        if timerOwned && paceArmed && !changed then nextUpdateUs == deadline && r == Request(None, false)
        else if timerOwned && renderBusy then nextUpdateUs == deadline && r == Request(Some(deadline), false)
        else
          && nextUpdateUs == CatchUp(deadline, now, intervalUs) && nextUpdateUs > now
          && r == (if deadline > now then Request(Some(deadline), false)
                   else if timerOwned then Request(Some(nextUpdateUs), !idleTimer && timerFired)
                   else Request(None, true))
    {
      var changed := lastIntervalUs != intervalUs;
      if changed {
        nextUpdateUs := 0;
        lastIntervalUs := intervalUs;
      }
      if nextUpdateUs == 0 {
        var anchor := if lastSwapUs > 0 then lastSwapUs else now;
        nextUpdateUs := anchor + intervalUs;
        armed := [];
      }
      if timerOwned && paceArmed && !changed {
        return Request(None, false);
      }
      if timerOwned && renderBusy {
        r := Request(Some(nextUpdateUs), false);
      } else if now >= nextUpdateUs {
        CatchUpIsLeast(nextUpdateUs, now, intervalUs);
        ClimbsTo(armed, nextUpdateUs, CatchUp(nextUpdateUs, now, intervalUs), intervalUs);
        var elapsed := now - nextUpdateUs;
        var missed := elapsed / intervalUs + 1;
        nextUpdateUs := nextUpdateUs + missed * intervalUs;
        r := if timerOwned then Request(Some(nextUpdateUs), !idleTimer && timerFired) else Request(None, true);
      } else {
        r := Request(Some(nextUpdateUs), false);
      }
      if r.arm.Some? {
        ClimbsBy(armed, nextUpdateUs, intervalUs);
        armed := armed + [r.arm.value];
      }
    }
  }

  // ---- The moving averages ----

  /** Seven eighths of the estimate and one of the sample, rounded down; the first sample as it is. */
  function Average(prior: nat, sample: nat): (r: nat)
    ensures prior == 0 ==> r == sample
    ensures prior > 0 ==> 8 * r <= 7 * prior + sample < 8 * r + 8
  {
    if prior > 0 then (prior * 7 + sample) / 8 else sample
  }

  /** The estimate after the samples, of which those above two intervals are not accepted. */
  function Estimate(samples: seq<nat>, interval: nat): nat {
    if samples == [] then 0
    else
      var prior, sample := Estimate(samples[..|samples| - 1], interval), samples[|samples| - 1];
      if sample <= 2 * interval then Average(prior, sample) else prior
  }

  /** The estimate never leaves the range of the accepted samples. */
  lemma {:induction false} EstimateStaysInRange(samples: seq<nat>, interval: nat, lo: nat, hi: nat)
    requires lo <= hi
    requires forall k :: 0 <= k < |samples| && samples[k] <= 2 * interval ==> lo <= samples[k] <= hi
    ensures (exists k :: 0 <= k < |samples| && samples[k] <= 2 * interval) ==>
      lo <= Estimate(samples, interval) <= hi
    ensures (forall k :: 0 <= k < |samples| ==> samples[k] > 2 * interval) ==> Estimate(samples, interval) == 0
  {
    if samples != [] {
      var last := |samples| - 1;
      var before := samples[..last];
      EstimateStaysInRange(before, interval, lo, hi);
      if samples[last] <= 2 * interval {
        assert lo <= samples[last] <= hi;
      } else if exists k :: 0 <= k < |samples| && samples[k] <= 2 * interval {
        var k :| 0 <= k < |samples| && samples[k] <= 2 * interval;
        assert before[k] <= 2 * interval;
      }
    }
  }

  /** One more sample of at most two intervals moves the estimate an eighth of the way, rounded down; a
      greater one is ignored. */
  lemma OneMoreSample(samples: seq<nat>, sample: nat, interval: nat)
    ensures var prior, after := Estimate(samples, interval), Estimate(samples + [sample], interval);
      && (sample > 2 * interval ==> after == prior)
      && (sample <= 2 * interval && prior == 0 ==> after == sample)
      && (sample <= 2 * interval && prior > 0 ==> 8 * after <= 7 * prior + sample < 8 * after + 8)
  {
    assert (samples + [sample])[..|samples|] == samples;
  }

  /** So at a fixed present interval the wake-up leads the deadline by at most six intervals and the
      submit estimate. */
  lemma LeadIsBounded(gaps: seq<nat>, blocks: seq<nat>, submits: seq<nat>, interval: nat, submitSwap: nat)
    ensures var e := Estimates(
        Estimate(gaps, interval), Estimate(blocks, interval), Estimate(submits, interval), submitSwap);
      Lead(e) <= 6 * interval + submitSwap
  {
    EstimateStaysInRange(gaps, interval, 0, 2 * interval);
    EstimateStaysInRange(blocks, interval, 0, 2 * interval);
    EstimateStaysInRange(submits, interval, 0, 2 * interval);
  }

  /** Rounding down has a price: under a constant sample s the estimate comes to rest exactly when it
      is at s or at most 7 below it, and otherwise moves towards s without passing it. */
  lemma RestingPoints(prior: nat, s: nat)
    requires prior > 0
    ensures Average(prior, s) == prior <==> prior <= s <= prior + 7
    ensures prior > s ==> s <= Average(prior, s) < prior
    ensures prior + 7 < s ==> prior < Average(prior, s) <= s
  {
  }
}
