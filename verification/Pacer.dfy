/**
  The pacer threads (gui/src/qmlmainwindow.cpp:397-586; the two classes have the same code): arm and
  disarm from any thread, against one thread that sleeps until the armed time and then fires.
  Each mutex section is one atomic step; PacerSpec says what any interleaving of them can do.
  */
module PacerSpec {
  const GENERATIONS: nat := 0x1_0000_0000_0000_0000

  /** Where the thread is: before its loop test, in either wait, between deciding to fire and taking
      the mutex again, or gone. */
  datatype Place = Top | Asleep | Timed(target: int, generation: nat) | Firing | Done

  /** `signalled`: the condition was notified since the thread went to sleep. */
  datatype State = State(stopping: bool, armed: bool, target: int, generation: nat, place: Place, signalled: bool)

  const INIT := State(false, false, 0, 0, Top, false)

  /** A step of some caller, or of the thread when the clock reads `now`. */
  datatype Event = Arm(t: int) | Disarm | Stop | Thread(now: int)

  predicate Waiting(s: State) {
    s.place.Asleep? || s.place.Timed?
  }

  function Notify(s: State): State {
    s.(generation := (s.generation + 1) % GENERATIONS, signalled := s.signalled || Waiting(s))
  }

  function ArmStep(s: State, t: int): State {
    if s.stopping then s
    else Notify(s.(target := if !s.armed || t < s.target then t else s.target, armed := true))
  }

  function Fire(s: State): State {
    s.(armed := false, place := Firing, signalled := false)
  }

  /** One turn of the loop, from its test to the next release of the mutex. */
  function Turn(s: State, now: int): State {
    if s.stopping then s.(place := Done, signalled := false)
    else if !s.armed then s.(place := Asleep, signalled := false)
    else if s.target <= now then Fire(s)
    else s.(place := Timed(s.target, s.generation), signalled := false)
  }

  /** The wait predicate of the timed wait. */
  predicate Disturbed(s: State, target: int, generation: nat) {
    s.stopping || !s.armed || s.generation != generation || s.target != target
  }

  /** A thread in a wait moves on only if woken for a reason or out of time. */
  function ThreadStep(s: State, now: int): State {
    match s.place
    case Top => Turn(s, now)
    case Asleep => Turn(s, now)
    case Timed(target, generation) =>
      if Disturbed(s, target, generation) then Turn(s, now)
      else if target <= now then Fire(s)
      else s.(signalled := false)
    case Firing => s.(place := Top)
    case Done => s
  }

  function Next(s: State, e: Event): State {
    match e
    case Arm(t) => ArmStep(s, t)
    case Disarm => Notify(s.(armed := false))
    case Stop => Notify(s.(stopping := true, armed := false))
    case Thread(now) => ThreadStep(s, now)
  }

  function After(trace: seq<Event>): State {
    if trace == [] then INIT else Next(After(trace[..|trace| - 1]), trace[|trace| - 1])
  }

  /** The step decides to fire. */
  predicate Fires(s: State, e: Event) {
    e.Thread? && !s.place.Firing? && Next(s, e).place.Firing?
  }

  // ---- What callers asked for, told from the trace ----

  predicate FiresAt(trace: seq<Event>, k: nat)
    requires k < |trace|
  {
    Fires(After(trace[..k]), trace[k])
  }

  /** Step k leaves nothing armed. */
  predicate Idles(trace: seq<Event>, k: nat)
    requires k < |trace|
  {
    trace[k].Disarm? || trace[k].Stop? || FiresAt(trace, k)
  }

  predicate Stopped(trace: seq<Event>) {
    exists k :: 0 <= k < |trace| && trace[k].Stop?
  }

  /** Target t was armed at step k, before any stop, and nothing idled the pacer since. */
  predicate Pending(trace: seq<Event>, k: nat, t: int)
    requires k < |trace|
  {
    && trace[k] == Arm(t)
    && !Stopped(trace[..k])
    && forall i :: k < i < |trace| ==> !Idles(trace, i)
  }

  lemma PrefixSteps(trace: seq<Event>, k: nat)
    requires k < |trace| - 1
    ensures var before := trace[..|trace| - 1];
      before[k] == trace[k] && before[..k] == trace[..k] && Idles(before, k) == Idles(trace, k)
  {
    var before := trace[..|trace| - 1];
    assert before[..k] == trace[..k];
  }

  lemma {:induction false} StoppedIsStopping(trace: seq<Event>)
    ensures After(trace).stopping <==> Stopped(trace)
  {
    if trace != [] {
      var before := trace[..|trace| - 1];
      StoppedIsStopping(before);
      forall k | 0 <= k < |before| && before[k].Stop? ensures trace[k].Stop? {
      }
    }
  }

  /** Only one more step: what is pending after it. */
  lemma PendingStep(trace: seq<Event>, k: nat, t: int)
    requires k < |trace| - 1
    ensures var last := |trace| - 1;
      Pending(trace, k, t) <==> Pending(trace[..last], k, t) && !Idles(trace, last)
  {
    var last := |trace| - 1;
    var before := trace[..last];
    PrefixSteps(trace, k);
    forall i | k < i < last ensures Idles(before, i) == Idles(trace, i) {
      PrefixSteps(trace, i);
    }
  }

  /** The target is the minimum of everything armed since the pacer was last idle. */
  ghost predicate TargetIsLeast(trace: seq<Event>) {
    var s := After(trace);
    && (s.armed ==> exists k :: 0 <= k < |trace| && Pending(trace, k, s.target))
    && (forall k, t :: 0 <= k < |trace| && Pending(trace, k, t) ==> s.armed && s.target <= t)
  }

  lemma {:induction false} TargetIsAlwaysLeast(trace: seq<Event>)
    ensures TargetIsLeast(trace)
  {
    if trace != [] {
      var last := |trace| - 1;
      var before, e := trace[..last], trace[last];
      TargetIsAlwaysLeast(before);
      StoppedIsStopping(before);
      var s, s' := After(before), After(trace);
      forall k, t | 0 <= k < last && Pending(trace, k, t) ensures Pending(before, k, t) && !Idles(trace, last) {
        PendingStep(trace, k, t);
      }
      if s'.armed {
        if s.armed && s'.target == s.target && !Idles(trace, last) {
          var k :| 0 <= k < last && Pending(before, k, s.target);
          PendingStep(trace, k, s.target);
        } else {
          assert Pending(trace, last, s'.target);
        }
      }
    }
  }

  /** The target is due, was armed after the last disarm, stop or fire and is still pending, is the
      least of all targets pending, and nobody has asked for a stop. */
  ghost predicate MayFire(trace: seq<Event>, target: int, now: int) {
    && target <= now
    && !Stopped(trace)
    && (exists k :: 0 <= k < |trace| && Pending(trace, k, target))
    && (forall k, t :: 0 <= k < |trace| && Pending(trace, k, t) ==> target <= t)
  }

  ghost predicate NothingPending(trace: seq<Event>) {
    forall k, t :: 0 <= k < |trace| ==> !Pending(trace, k, t)
  }

  /** Safety of firing, over every interleaving: a fire is only decided when it may be; and nothing is
      pending afterwards, so each armed episode fires at most once. */
  lemma FiringIsSafe(trace: seq<Event>, now: int)
    requires Fires(After(trace), Thread(now))
    ensures MayFire(trace, After(trace).target, now)
    ensures NothingPending(trace + [Thread(now)])
  {
    TargetIsAlwaysLeast(trace);
    StoppedIsStopping(trace);
    var longer := trace + [Thread(now)];
    assert longer[..|trace|] == trace;
    assert Idles(longer, |trace|);
  }

  /** The pacer is armed exactly while something is pending. */
  lemma ArmedExactlyWhilePending(trace: seq<Event>)
    ensures After(trace).armed && !After(trace).stopping <==> !NothingPending(trace)
  {
    TargetIsAlwaysLeast(trace);
    StoppedNeverArmed(trace);
  }

  /** One more event, as a step of the run. */
  lemma AfterGrows(trace: seq<Event>, e: Event)
    ensures After(trace + [e]) == Next(After(trace), e)
  {
    assert (trace + [e])[..|trace|] == trace;
  }

  // ---- No wake-up is lost ----

  /** A sleeping thread that has not been notified is waiting for the right thing. */
  predicate Rested(s: State) {
    && (s.place.Asleep? && !s.signalled ==> !s.armed && !s.stopping)
    && (s.place.Timed? && !s.signalled ==> s.armed && !s.stopping && s.target == s.place.target)
    && (s.place.Done? ==> s.stopping)
  }

  lemma {:induction false} NoWakeUpIsLost(trace: seq<Event>)
    ensures Rested(After(trace))
  {
    if trace != [] {
      NoWakeUpIsLost(trace[..|trace| - 1]);
    }
  }

  /** The thread's step would do nothing but go back to sleep. */
  predicate Blocked(s: State, now: int) {
    (s.place.Asleep? && !s.signalled) || (s.place.Timed? && !s.signalled && now < s.place.target)
  }

  /** Progress: once the target is due, the thread is not blocked and its next step fires, whatever
      the callers did meanwhile and even if the 64-bit generation has come full circle. */
  lemma DueTargetFires(trace: seq<Event>, now: int)
    requires After(trace).armed && After(trace).target <= now
    requires !After(trace).place.Firing?
    ensures !Blocked(After(trace), now) && Fires(After(trace), Thread(now))
  {
    NoWakeUpIsLost(trace);
    StoppedNeverArmed(trace);
  }

  /** Steps of the thread until it is gone, once a stop was asked for. */
  function LeaveLeft(p: Place): nat {
    if p.Done? then 0 else if p.Firing? then 2 else 1
  }

  /** A join after a stop returns: the thread is not blocked, is gone after at most two of its own
      steps, and is not kept by anything the callers do meanwhile. */
  lemma StopIsBounded(trace: seq<Event>, now: int, e: Event)
    requires Stopped(trace)
    ensures !Blocked(After(trace), now)
    ensures LeaveLeft(After(trace).place) > 0 ==>
      LeaveLeft(After(trace + [Thread(now)]).place) == LeaveLeft(After(trace).place) - 1
    ensures After(trace).place.Done? ==> After(trace + [Thread(now)]).place.Done?
    ensures !e.Thread? ==> After(trace + [e]).place == After(trace).place
  {
    NoWakeUpIsLost(trace);
    StoppedIsStopping(trace);
    AfterGrows(trace, Thread(now));
    AfterGrows(trace, e);
  }

  lemma {:induction false} StoppedNeverArmed(trace: seq<Event>)
    ensures After(trace).stopping ==> !After(trace).armed
  {
    if trace != [] {
      StoppedNeverArmed(trace[..|trace| - 1]);
    }
  }
}

module Pacer {
  import opened PacerSpec

  class PacerThread {
    var stopping: bool
    var armed: bool
    var wakeupTargetUs: int
    var generation: nat
    ghost var place: Place
    ghost var signalled: bool
    ghost var trace: seq<Event>   // everything that happened, in order

    ghost function Model(): State
      reads this
    {
      State(stopping, armed, wakeupTargetUs, generation, place, signalled)
    }

    /** The pacer is where the run so far left it. */
    ghost predicate Valid()
      reads this
    {
      Model() == After(trace)
    }

    constructor ()
      ensures Valid() && trace == []
    {
      stopping, armed, wakeupTargetUs, generation := false, false, 0, 0;
      place, signalled, trace := Top, false, [];
    }

    /** ++generation; condition.notify_one() */
    method Bump()
      modifies this`generation, this`signalled
      ensures Model() == Notify(old(Model()))
    {
      generation := (generation + 1) % GENERATIONS;
      signalled := signalled || place.Asleep? || place.Timed?;
    }

    /** After the call the target is due no later than asked for, unless a stop was. */
    method ArmAt(targetWakeupUs: int)
      requires Valid()
      modifies this
      ensures Valid() && trace == old(trace) + [Arm(targetWakeupUs)]
      ensures stopping == old(stopping) && (!stopping ==> armed && wakeupTargetUs <= targetWakeupUs)
    {
      hide After;
      AfterGrows(trace, Arm(targetWakeupUs));
      trace := trace + [Arm(targetWakeupUs)];
      if stopping {
        return;
      }
      if !armed || targetWakeupUs < wakeupTargetUs {
        wakeupTargetUs := targetWakeupUs;
      }
      armed := true;
      Bump();
    }

    method DisarmNow()
      requires Valid()
      modifies this
      ensures Valid() && trace == old(trace) + [Disarm] && NothingPending(trace)
    {
      hide After;
      AfterGrows(trace, Disarm);
      trace := trace + [Disarm];
      armed := false;
      Bump();
      ArmedExactlyWhilePending(trace);
    }

    method StopThread()
      requires Valid()
      modifies this
      ensures Valid() && trace == old(trace) + [Stop] && NothingPending(trace)
    {
      hide After;
      AfterGrows(trace, Stop);
      trace := trace + [Stop];
      stopping := true;
      armed := false;
      Bump();
      ArmedExactlyWhilePending(trace);
    }

    /** Whether some target was armed and has neither been disarmed, stopped nor fired since. */
    method IsArmed() returns (r: bool)
      requires Valid()
      ensures r <==> exists k, t :: 0 <= k < |trace| && Pending(trace, k, t)
    {
      hide After, Pending;
      ArmedExactlyWhilePending(trace);
      r := armed && !stopping;
    }

    /** From the loop test to the next release of the mutex. */
    method TakeTurn(nowUs: int) returns (fired: bool)
      requires !place.Firing?
      modifies this`armed, this`place, this`signalled
      ensures Model() == Turn(old(Model()), nowUs) && fired == place.Firing?
    {
      fired := false;
      signalled := false;
      if stopping {
        place := Done;
      } else if !armed {
        place := Asleep;
      } else if wakeupTargetUs <= nowUs {
        armed := false;
        place := Firing;
        fired := true;
      } else {
        place := Timed(wakeupTargetUs, generation);
      }
    }

    /** A turn of the loop, from its top or woken from the untimed wait. If it fires, it may; if it goes
        to sleep, nothing is pending or the sleep ends at the least pending target. */
    method LoopTurn(nowUs: int) returns (fired: bool)
      requires Valid() && (place.Top? || place.Asleep?)
      modifies this
      ensures Valid() && trace == old(trace) + [Thread(nowUs)]
      ensures fired ==> MayFire(old(trace), old(wakeupTargetUs), nowUs) && NothingPending(trace)
      ensures !fired && place.Asleep? ==> NothingPending(trace)
      ensures !fired && place.Timed? ==> TargetIsLeast(trace) && place.target == wakeupTargetUs > nowUs
      ensures place.Done? <==> stopping
    {
      hide After, Pending;
      ghost var before := trace;
      AfterGrows(trace, Thread(nowUs));
      fired := TakeTurn(nowUs);
      trace := trace + [Thread(nowUs)];
      TurnResults(before, nowUs, After(trace));
    }

    /** The end of the timed wait: a wake-up whose predicate holds, a timeout, or back to sleep. */
    method EndTimedWait(targetNow: int, observedGeneration: nat, nowUs: int) returns (fired: bool)
      requires Valid() && place == Timed(targetNow, observedGeneration)
      modifies this
      ensures Valid() && trace == old(trace) + [Thread(nowUs)]
      ensures fired ==> MayFire(old(trace), old(wakeupTargetUs), nowUs) && NothingPending(trace)
      ensures old(armed && wakeupTargetUs <= nowUs) ==> fired
      ensures place.Done? <==> stopping
    {
      hide After, Pending;
      ghost var before := trace;
      AfterGrows(trace, Thread(nowUs));
      if old(armed && wakeupTargetUs <= nowUs) {
        DueTargetFires(before, nowUs);
      }
      fired := false;
      if stopping || !armed || generation != observedGeneration || wakeupTargetUs != targetNow {
        fired := TakeTurn(nowUs);
      } else if targetNow <= nowUs {
        armed := false;
        place, signalled := Firing, false;
        fired := true;
      } else {
        signalled := false;
      }
      trace := trace + [Thread(nowUs)];
      TurnResults(before, nowUs, After(trace));
    }

    /** Back under the mutex after a wake-up was sent. */
    method Relock(nowUs: int)
      requires Valid() && place.Firing?
      modifies this`place, this`trace
      ensures Valid() && trace == old(trace) + [Thread(nowUs)] && place.Top?
    {
      hide After;
      AfterGrows(trace, Thread(nowUs));
      place := Top;
      trace := trace + [Thread(nowUs)];
    }
  }

  /** What the run theorems say of one step of the thread. */
  lemma TurnResults(before: seq<Event>, now: int, after: State)
    requires after == After(before + [Thread(now)]) && !After(before).place.Firing?
    ensures after.place.Firing? ==> MayFire(before, After(before).target, now)
    ensures after.place.Firing? ==> NothingPending(before + [Thread(now)])
    ensures after.place.Asleep? && !After(before).place.Timed? ==> NothingPending(before + [Thread(now)])
    ensures TargetIsLeast(before + [Thread(now)])
  {
    AfterGrows(before, Thread(now));
    var trace := before + [Thread(now)];
    hide After, Pending;
    if after.place.Firing? {
      FiringIsSafe(before, now);
    }
    TargetIsAlwaysLeast(trace);
    ArmedExactlyWhilePending(trace);
  }
}
