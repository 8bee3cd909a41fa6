/**
  The deferred-swap worker (gui/src/qmlmainwindow.cpp:598-709, 5802-5823, 7115-7143): a one-slot task
  queue between the render thread and a worker, guarded by an in-flight flag that the render thread
  reads and sets without the worker's mutex. SwapSpec is the protocol as interleaved atomic steps.
  */
module SwapSpec {
  import opened Wrappers

  type Task = nat

  /** The worker, by the section it enters next. */
  datatype Worker =
    | Top              // before the wait loop
    | Sleeping         // in cond.wait
    | Busy(task: Task) // presenting the task, outside the mutex
    | Retire           // about to clear `active`
    | Clear            // about to clear the in-flight flag
    | Report           // about to schedule an update
    | Leaving          // left the loop, about to take the mutex one last time
    | Gone

  /** The render thread's handshake: it saw a clear flag, set it, was refused. */
  datatype Renderer = Away | SawClear | HasSet | Refused

  datatype State = State(stopping: bool, active: bool, pending: Option<Task>, inFlight: bool,
                         worker: Worker, woken: bool, renderer: Renderer, drainers: nat,
                         enqueued: seq<Task>, processed: seq<Task>)

  const INIT := State(false, false, None, false, Top, false, Away, 0, [], [])

  datatype Event =
    | Load             // the render thread reads the flag
    | Decline          // ... gives up before that: no swapchain
    | Set              // ... stores 1
    | Enqueue(task: Task)
    | Unset            // ... stores 0 after a refusal
    | Work             // the worker's next section
    | Drain            // a caller of drain tests the loop condition
    | Stop
    | Reset            // session change or renderer fallback: the flag is cleared from outside

  function EnqueueStep(s: State, task: Task): State {
    if s.stopping then s.(renderer := Refused)
    else s.(pending := Some(task), woken := true, renderer := Away, enqueued := s.enqueued + [task])
  }

  /** Top of the worker's loop; also what it does when woken. */
  function FetchStep(s: State): State {
    if s.stopping then s.(worker := Leaving, woken := false)
    else match s.pending
      case None => s.(worker := Sleeping, woken := false)
      case Some(task) => s.(pending := None, active := true, worker := Busy(task), woken := false)
  }

  function WorkStep(s: State): State {
    match s.worker
    case Top => FetchStep(s)
    case Sleeping => if s.woken then FetchStep(s) else s
    case Busy(task) => s.(worker := Retire, processed := s.processed + [task])
    case Retire => s.(active := false, worker := Clear, drainers := if s.pending.None? then 0 else s.drainers)
    case Clear => s.(worker := Report, inFlight := s.inFlight && s.pending.Some?)
    case Report => s.(worker := Top)
    case Leaving => s.(active := false, worker := Gone, drainers := 0)
    case Gone => s
  }

  function Next(s: State, e: Event): State {
    match e
    case Load => if s.renderer.Away? && !s.inFlight then s.(renderer := SawClear) else s
    case Decline => if s.renderer.SawClear? then s.(renderer := Away) else s
    case Set => if s.renderer.SawClear? then s.(renderer := HasSet, inFlight := true) else s
    case Enqueue(task) => if s.renderer.HasSet? then EnqueueStep(s, task) else s
    case Unset => if s.renderer.Refused? then s.(renderer := Away, inFlight := false) else s
    case Work => WorkStep(s)
    case Drain => if s.pending.Some? || s.active then s.(drainers := s.drainers + 1) else s
    case Stop => s.(stopping := true, woken := true)
    case Reset => s.(inFlight := false)
  }

  function After(trace: seq<Event>): State {
    if trace == [] then INIT else Next(After(trace[..|trace| - 1]), trace[|trace| - 1])
  }

  /** The worker is between taking a task and clearing the flag. */
  predicate Engaged(w: Worker) {
    w.Busy? || w.Retire? || w.Clear?
  }

  function InHand(w: Worker): seq<Task> {
    if w.Busy? then [w.task] else []
  }

  function Queued(pending: Option<Task>): seq<Task> {
    if pending.Some? then [pending.value] else []
  }

  /** The protocol's invariant. The flag says exactly whether somebody is using the slot. */
  predicate Sound(s: State) {
    && (s.inFlight <==> s.pending.Some? || Engaged(s.worker) || s.renderer.HasSet? || s.renderer.Refused?)
    && (s.renderer != Away ==> s.pending.None? && !Engaged(s.worker))
    && (Engaged(s.worker) ==> s.pending.None?)
    && (s.active <==> s.worker.Busy? || s.worker.Retire?)
    && s.enqueued == s.processed + InHand(s.worker) + Queued(s.pending)
    && (s.drainers > 0 && !s.stopping ==> s.pending.Some? || s.active)
    && (s.worker.Sleeping? && !s.woken ==> s.pending.None? && !s.stopping)
    && (s.worker.Leaving? || s.worker.Gone? || s.renderer.Refused? ==> s.stopping)
  }

  lemma StepKeepsSound(s: State, e: Event)
    requires Sound(s) && (e.Reset? ==> !s.inFlight)
    ensures Sound(Next(s, e))
  {
    var t := Next(s, e);
    if e.Enqueue? && s.renderer.HasSet? && !s.stopping {
      assert t.enqueued == s.processed + [] + [e.task];
    } else if e.Work? && s.worker.Busy? {
      assert s.processed + [s.worker.task] == t.processed + [];
    } else if e.Work? && t.worker.Busy? {
      assert s.processed + [] + [t.worker.task] == t.processed + [t.worker.task] + [];
    }
  }

  /** Every task enqueued is processed, in hand or waiting, in the order of the enqueues. */
  predicate Conserved(s: State) {
    s.enqueued == s.processed + InHand(s.worker) + Queued(s.pending)
  }

  /** A task is gone: it was enqueued, and is neither processed nor in hand nor waiting. */
  predicate Lost(s: State) {
    |s.enqueued| > |s.processed| + |InHand(s.worker)| + |Queued(s.pending)|
  }

  lemma StoppedKeepsConserved(s: State, e: Event)
    requires s.stopping && Conserved(s)
    ensures Next(s, e).stopping && Conserved(Next(s, e))
  {
    if e.Work? && s.worker.Busy? {
      assert s.processed + [s.worker.task] == s.processed + [s.worker.task] + [];
    }
  }

  /** Every reset in the run finds the flag clear, or comes after a stop. */
  predicate HarmlessResets(trace: seq<Event>) {
    forall k :: 0 <= k < |trace| && trace[k].Reset? ==> !After(trace[..k]).inFlight || After(trace[..k]).stopping
  }

  /** One more event, as a step of the run. */
  lemma AfterGrows(trace: seq<Event>, e: Event)
    ensures After(trace + [e]) == Next(After(trace), e)
  {
    assert (trace + [e])[..|trace|] == trace;
  }

  /** Every run whose resets are harmless loses nothing: the tasks enqueued are the tasks processed, in
      order and each once, then the one in hand, then the one waiting. Until a stop it is sound at
      every point: work in the slot keeps the flag up, and a sleeping drain has work outstanding. */
  lemma {:induction false} RunIsSound(trace: seq<Event>)
    requires HarmlessResets(trace)
    ensures Conserved(After(trace))
    ensures !After(trace).stopping ==> Sound(After(trace))
  {
    if trace != [] {
      var last := |trace| - 1;
      var before := trace[..last];
      forall k | 0 <= k < last && before[k].Reset?
        ensures !After(before[..k]).inFlight || After(before[..k]).stopping
      {
        assert before[..k] == trace[..k];
      }
      RunIsSound(before);
      if After(before).stopping {
        StoppedKeepsConserved(After(before), trace[last]);
      } else {
        StepKeepsSound(After(before), trace[last]);
      }
    }
  }

  /** A task is never overwritten: whoever is about to enqueue finds the slot empty and the worker idle,
      or is refused. */
  lemma NothingIsOverwritten(trace: seq<Event>)
    requires HarmlessResets(trace) && After(trace).renderer.HasSet? && !After(trace).stopping
    ensures After(trace).pending.None? && !After(trace).active
  {
    RunIsSound(trace);
  }

  /** What the run theorems say of the state that the run is in. */
  lemma SettledResults(trace: seq<Event>)
    ensures Steady(After(trace))
    ensures HarmlessResets(trace) ==> Conserved(After(trace)) && (After(trace).stopping || Sound(After(trace)))
  {
    RunIsSteady(trace);
    if HarmlessResets(trace) {
      RunIsSound(trace);
    }
  }

  // ---- Which resets lose a task ----

  function Then(s: State, more: seq<Event>): State
    decreases |more|
  {
    if more == [] then s else Then(Next(s, more[0]), more[1..])
  }

  predicate NoResets(more: seq<Event>) {
    forall k :: 0 <= k < |more| ==> !more[k].Reset?
  }

  lemma {:induction false} NothingIsLost(s: State, more: seq<Event>)
    requires NoResets(more) && (Sound(s) || (s.stopping && Conserved(s)))
    ensures Conserved(Then(s, more))
    decreases |more|
  {
    if more != [] {
      if Sound(s) {
        StepKeepsSound(s, more[0]);
      } else {
        StoppedKeepsConserved(s, more[0]);
      }
      NothingIsLost(Next(s, more[0]), more[1..]);
    }
  }

  lemma {:induction false} ThenAppends(s: State, a: seq<Event>, b: seq<Event>)
    ensures Then(s, a + b) == Then(Then(s, a), b)
    decreases |a|
  {
    if a == [] {
      assert a + b == b;
    } else {
      assert (a + b)[1..] == a[1..] + b;
      ThenAppends(Next(s, a[0]), a[1..], b);
    }
  }

  lemma ThenOne(s: State, e: Event)
    ensures Then(s, [e]) == Next(s, e)
  {
  }

  lemma ThenThree(s: State, e: Event, f: Event, g: Event)
    ensures Then(s, [e, f, g]) == Next(Next(Next(s, e), f), g)
  {
    ThenAppends(s, [e], [f, g]);
    ThenAppends(Next(s, e), [f], [g]);
    assert [e] + [f, g] == [e, f, g] && [f] + [g] == [f, g];
  }

  /** The render thread's three steps, when it finds the flag clear: a filled slot is overwritten. */
  lemma DeferOverwrites(s: State, task: Task)
    requires !s.inFlight && !s.stopping && s.renderer.Away? && s.pending.Some? && Conserved(s)
    ensures Lost(Then(s, [Load, Set, Enqueue(task)]))
  {
    ThenThree(s, Load, Set, Enqueue(task));
  }

  /** The same when it had set the flag before the reset. */
  lemma EnqueueThenOverwrites(s: State)
    requires !s.inFlight && !s.stopping && s.renderer.HasSet? && s.pending.None? && Conserved(s)
    ensures Lost(Then(s, [Enqueue(0), Load, Set, Enqueue(0)]))
  {
    var t := Next(s, Enqueue(0));
    assert t.enqueued == s.processed + InHand(s.worker) + [] + [0];
    DeferOverwrites(t, 0);
    ThenAppends(s, [Enqueue(0)], [Load, Set, Enqueue(0)]);
    assert [Enqueue(0)] + [Load, Set, Enqueue(0)] == [Enqueue(0), Load, Set, Enqueue(0)];
  }

  /** Worker sections until an engaged worker has dealt with the flag. */
  function ClearLeft(w: Worker): nat {
    if w.Busy? then 3 else if w.Retire? then 2 else 1
  }

  /** A worker on its way to clearing the flag does so behind the render thread's back. */
  lemma {:induction false} WorkerClears(s: State, n: nat)
    requires !s.stopping && s.renderer.HasSet? && s.pending.None? && Conserved(s) && Engaged(s.worker)
    requires n == ClearLeft(s.worker)
    ensures var t := Then(s, seq(n, _ => Work));
      !t.inFlight && !t.stopping && t.renderer.HasSet? && t.pending.None? && Conserved(t)
    decreases n
  {
    var t := Next(s, Work);
    assert seq(n, _ => Work)[1..] == seq(n - 1, _ => Work);
    if s.worker.Busy? {
      assert s.processed + [s.worker.task] == t.processed + [] + [];
    }
    if n > 1 {
      WorkerClears(t, n - 1);
    } else {
      assert Then(t, seq(0, _ => Work)) == t;
    }
  }

  /** What can follow the reset of a flag that is up. */
  lemma ResetWhileUpLoses(s: State) returns (more: seq<Event>)
    requires Sound(s) && s.inFlight && !s.stopping
    ensures NoResets(more) && Lost(Then(Next(s, Reset), more))
  {
    hide Then;
    var r := Next(s, Reset);
    if s.pending.Some? {
      more := [Load, Set, Enqueue(0)];
      DeferOverwrites(r, 0);
    } else if s.renderer.HasSet? {
      more := [Enqueue(0), Load, Set, Enqueue(0)];
      EnqueueThenOverwrites(r);
    } else {
      var n := ClearLeft(s.worker);
      var t := Next(Next(r, Load), Set);
      var work := seq(n, _ => Work);
      var tail := [Enqueue(0), Load, Set, Enqueue(0)];
      WorkerClears(t, n);
      ThenOne(r, Load);
      ThenOne(Next(r, Load), Set);
      EnqueueThenOverwrites(Then(t, work));
      ThenAppends(t, work, tail);
      ThenAppends(Next(r, Load), [Set], work + tail);
      ThenAppends(r, [Load], [Set] + (work + tail));
      more := [Load] + ([Set] + (work + tail));
    }
  }

  /** Exactly which resets can lose a task: from a sound state, some run without further resets loses
      one after the reset if and only if the flag was up and no stop had been asked for. */
  lemma ResetCanLoseExactlyWhenUp(s: State)
    requires Sound(s)
    ensures (exists more: seq<Event> :: NoResets(more) && Lost(Then(Next(s, Reset), more)))
      <==> s.inFlight && !s.stopping
  {
    if s.inFlight && !s.stopping {
      var more := ResetWhileUpLoses(s);
    } else {
      var r := Next(s, Reset);
      forall more: seq<Event> | NoResets(more) ensures !Lost(Then(r, more)) {
        NothingIsLost(r, more);
      }
    }
  }

  predicate Overwrote(s: State) {
    s.enqueued == [1, 2] && s.pending == Some(2) && s.processed == [] && InHand(s.worker) == []
  }

  /** A reset with a task in the slot lets the next one overwrite it: task 1 is never processed. */
  lemma ResetCanLoseATask()
    ensures exists trace: seq<Event> :: Overwrote(After(trace))
  {
    var t1 := [Load, Set, Enqueue(1)];
    var t2 := t1 + [Reset];
    var t3 := t2 + [Load];
    var t4 := t3 + [Set];
    var t5 := t4 + [Enqueue(2)];
    FirstDeferral(1);
    hide After;
    AfterGrows(t1, Reset);
    AfterGrows(t2, Load);
    AfterGrows(t3, Set);
    AfterGrows(t4, Enqueue(2));
    assert Overwrote(After(t5));
  }

  /** The first deferral of a run. */
  lemma FirstDeferral(task: Task)
    ensures After([Load, Set, Enqueue(task)])
         == INIT.(inFlight := true, pending := Some(task), woken := true, enqueued := [task])
  {
    AfterGrows([], Load);
    AfterGrows([Load], Set);
    AfterGrows([Load, Set], Enqueue(task));
    assert [] + [Load] == [Load] && [Load] + [Set] == [Load, Set];
    assert [Load, Set] + [Enqueue(task)] == [Load, Set, Enqueue(task)];
    assert [] + [task] == [task];
  }

  // ---- Draining ----

  /** Worker sections until every sleeping drain is woken. */
  function WorkLeft(s: State): nat {
    match s.worker
    case Busy(_) => 2
    case Retire => 1
    case Report => if s.pending.Some? then 4 else 0
    case _ => if s.pending.Some? then 3 else 0
  }

  /** A drain returns: while a drain sleeps there is work left, the worker is able to move, each of
      its sections leaves less, and nobody else adds any. So at most four sections wake the drain. */
  lemma DrainIsBounded(s: State, e: Event)
    requires Sound(s) && !s.stopping && (e.Reset? ==> !s.inFlight)
    ensures s.drainers > 0 ==> 0 < WorkLeft(s) <= 4
    ensures WorkLeft(s) > 0 ==> Next(s, Work) != s && WorkLeft(Next(s, Work)) == WorkLeft(s) - 1
    ensures WorkLeft(s) > 0 && !e.Work? ==> WorkLeft(Next(s, e)) == WorkLeft(s)
    ensures WorkLeft(Next(s, Work)) == 0 ==> Next(s, Work).drainers == 0
  {
  }

  // ---- After a stop ----

  /** What every event keeps, resets included. */
  predicate Steady(s: State) {
    && (s.active <==> s.worker.Busy? || s.worker.Retire?)
    && (s.worker.Sleeping? && !s.woken ==> !s.stopping)
    && (s.worker.Leaving? || s.worker.Gone? ==> s.stopping)
  }

  lemma StepKeepsSteady(s: State, e: Event)
    requires Steady(s)
    ensures Steady(Next(s, e))
  {
  }

  lemma {:induction false} RunIsSteady(trace: seq<Event>)
    ensures Steady(After(trace))
  {
    if trace != [] {
      var before, e := trace[..|trace| - 1], trace[|trace| - 1];
      RunIsSteady(before);
      StepKeepsSteady(After(before), e);
    }
  }

  /** Worker sections until the thread is gone. */
  function LeaveLeft(w: Worker): nat {
    match w
    case Busy(_) => 6
    case Retire => 5
    case Clear => 4
    case Report => 3
    case Leaving => 1
    case Gone => 0
    case _ => 2
  }

  /** A stopped worker is gone after at most six of its sections, whatever else happens meanwhile. */
  lemma StopIsBounded(s: State, e: Event)
    requires Steady(s) && s.stopping
    ensures LeaveLeft(s.worker) > 0 ==> LeaveLeft(Next(s, Work).worker) == LeaveLeft(s.worker) - 1
    ensures !e.Work? ==> Next(s, e).worker == s.worker
  {
  }

  /** From a stop on nobody fills the slot and nobody empties it. */
  lemma {:induction false} StopFreezesTheSlot(trace: seq<Event>, k: nat)
    requires k < |trace| && trace[k].Stop?
    ensures After(trace).stopping && After(trace).pending == After(trace[..k]).pending
  {
    var last := |trace| - 1;
    if k < last {
      StopFreezesTheSlot(trace[..last], k);
      assert trace[..last][..k] == trace[..k];
      StoppedKeepsSlot(After(trace[..last]), trace[last]);
    }
  }

  lemma StoppedKeepsSlot(s: State, e: Event)
    requires s.stopping
    ensures Next(s, e).stopping && Next(s, e).pending == s.pending
  {
  }

  /** After a stop `drain` no longer always returns: once the worker is gone, a drain returns at once if
      the slot was empty when the stop was asked for, and otherwise neither it nor any later one ever
      does. */
  lemma DrainAfterStop(trace: seq<Event>, k: nat, more: seq<Event>)
    requires k < |trace| && trace[k].Stop? && After(trace).worker.Gone?
    ensures var s := After(trace);
      && (Next(s, Drain) == s <==> After(trace[..k]).pending.None?)
      && (After(trace[..k]).pending.Some? ==>
            Then(s, more).drainers >= s.drainers && Next(Then(s, more), Drain) != Then(s, more))
  {
    RunIsSteady(trace);
    StopFreezesTheSlot(trace, k);
    if After(trace).pending.Some? {
      StrandedForEver(After(trace), more);
    }
  }

  predicate Stranded(s: State) {
    s.stopping && s.worker.Gone? && s.pending.Some?
  }

  lemma {:induction false} StrandedForEver(s: State, more: seq<Event>)
    requires Stranded(s)
    ensures Stranded(Then(s, more)) && Then(s, more).drainers >= s.drainers
    decreases |more|
  {
    if more != [] {
      StrandedForEver(Next(s, more[0]), more[1..]);
    }
  }

  /** It can happen: a stop that finds a task in the slot. */
  lemma StopCanStrand()
    ensures exists trace: seq<Event> :: NoResets(trace) && Stranded(After(trace))
  {
    var t1 := [Load, Set, Enqueue(1)];
    var t2 := t1 + [Stop];
    var t3 := t2 + [Work];
    var t4 := t3 + [Work];
    FirstDeferral(1);
    hide After;
    AfterGrows(t1, Stop);
    AfterGrows(t2, Work);
    AfterGrows(t3, Work);
    assert NoResets(t4) && Stranded(After(t4));
  }
}

module DeferredSwap {
  import opened Wrappers
  import opened SwapSpec

  /** The window's side: the flag, and where the render thread is in the handshake. */
  class Owner {
    var inFlight: bool
    ghost var renderer: Renderer

    constructor ()
      ensures !inFlight && renderer == Away
    {
      inFlight, renderer := false, Away;
    }
  }

  class DeferredSwapThread {
    const owner: Owner
    var pendingTask: Task
    var stopping: bool
    var active: bool
    var hasPendingTask: bool
    ghost var worker: Worker
    ghost var woken: bool
    ghost var drainers: nat
    ghost var enqueued: seq<Task>
    ghost var processed: seq<Task>
    ghost var trace: seq<Event>   // everything that happened, in order

    ghost function Model(): State
      reads this, owner
    {
      State(stopping, active, if hasPendingTask then Some(pendingTask) else None, owner.inFlight,
            worker, woken, owner.renderer, drainers, enqueued, processed)
    }

    /** The thread, the flag and the render thread are where the run so far left them. */
    ghost predicate Valid()
      reads this, owner
    {
      Model() == After(trace)
    }

    constructor (owner: Owner)
      requires !owner.inFlight && owner.renderer == Away
      ensures Valid() && this.owner == owner && trace == []
    {
      this.owner := owner;
      pendingTask, stopping, active, hasPendingTask := 0, false, false, false;
      worker, woken, drainers, enqueued, processed, trace := Top, false, 0, [], [], [];
    }

    /** The render thread's test of the flag; the result is whether it will defer the swap. If it will,
        everything enqueued so far has been processed. */
    method LoadFlag() returns (clear: bool)
      requires Valid() && owner.renderer == Away
      modifies owner`renderer, this`trace
      ensures Valid() && trace == old(trace) + [Load]
      ensures clear == !owner.inFlight && owner.renderer == (if clear then SawClear else Away)
      ensures clear && HarmlessResets(trace) && !stopping ==> enqueued == processed
    {
      hide After, HarmlessResets;
      AfterGrows(trace, Load);
      clear := !owner.inFlight;
      if clear {
        owner.renderer := SawClear;
      }
      trace := trace + [Load];
      SettledResults(trace);
    }

    method DeclineDeferral()
      requires Valid() && owner.renderer == SawClear
      modifies owner`renderer, this`trace
      ensures Valid() && trace == old(trace) + [Decline] && owner.renderer == Away
    {
      hide After, HarmlessResets;
      AfterGrows(trace, Decline);
      owner.renderer := Away;
      trace := trace + [Decline];
    }

    method SetFlag()
      requires Valid() && owner.renderer == SawClear
      modifies owner, this`trace
      ensures Valid() && trace == old(trace) + [Set] && owner.inFlight && owner.renderer == HasSet
    {
      hide After, HarmlessResets;
      AfterGrows(trace, Set);
      owner.inFlight, owner.renderer := true, HasSet;
      trace := trace + [Set];
    }

    /** Refused exactly after a stop. Otherwise the task goes into an empty slot behind an idle worker,
        in every run whose resets are harmless. */
    method EnqueueTask(task: Task) returns (accepted: bool)
      requires Valid() && owner.renderer == HasSet
      modifies this`pendingTask, this`hasPendingTask, this`woken, this`enqueued, this`trace, owner`renderer
      ensures Valid() && trace == old(trace) + [Enqueue(task)]
      ensures accepted == !stopping && (accepted ==> hasPendingTask && pendingTask == task && woken)
      ensures accepted && HarmlessResets(old(trace)) ==> old(!hasPendingTask && !active && enqueued == processed)
    {
      hide After, HarmlessResets;
      AfterGrows(trace, Enqueue(task));
      SettledResults(trace);
      if stopping {
        owner.renderer := Refused;
      } else {
        pendingTask := task;
        hasPendingTask := true;
        woken := true;
        owner.renderer := Away;
        enqueued := enqueued + [task];
      }
      accepted := !stopping;
      trace := trace + [Enqueue(task)];
    }

    method UnsetFlag()
      requires Valid() && owner.renderer == Refused
      modifies owner, this`trace
      ensures Valid() && trace == old(trace) + [Unset] && !owner.inFlight && owner.renderer == Away
    {
      hide After, HarmlessResets;
      AfterGrows(trace, Unset);
      owner.inFlight, owner.renderer := false, Away;
      trace := trace + [Unset];
    }

    /** A session change clears the flag whatever it says. */
    method ResetFlag()
      requires Valid()
      modifies owner`inFlight, this`trace
      ensures Valid() && trace == old(trace) + [SwapSpec.Reset] && !owner.inFlight
    {
      hide After, HarmlessResets;
      AfterGrows(trace, SwapSpec.Reset);
      owner.inFlight := false;
      trace := trace + [SwapSpec.Reset];
    }

    /** Idle means that everything enqueued has been processed. */
    method IsIdle() returns (idle: bool)
      requires Valid()
      ensures idle && HarmlessResets(trace) ==> enqueued == processed
      ensures !idle && HarmlessResets(trace) ==> |enqueued| > |processed| || worker == Retire
    {
      SettledResults(trace);
      idle := !hasPendingTask && !active;
    }

    /** One test of drain's loop condition: done, with everything enqueued processed, or asleep. */
    method DrainTest() returns (done: bool)
      requires Valid()
      modifies this`drainers, this`trace
      ensures Valid() && trace == old(trace) + [Drain]
      ensures drainers == old(drainers) + if done then 0 else 1
      ensures done <==> !hasPendingTask && !active
      ensures done && HarmlessResets(old(trace)) ==> enqueued == processed
    {
      hide After, HarmlessResets;
      AfterGrows(trace, Drain);
      SettledResults(trace);
      done := !(hasPendingTask || active);
      if !done {
        drainers := drainers + 1;
      }
      trace := trace + [Drain];
    }

    method StopThread()
      requires Valid()
      modifies this`stopping, this`woken, this`trace
      ensures Valid() && trace == old(trace) + [SwapSpec.Stop] && stopping && woken
    {
      hide After, HarmlessResets;
      AfterGrows(trace, SwapSpec.Stop);
      stopping := true;
      woken := true;
      trace := trace + [SwapSpec.Stop];
    }

    /** The wait loop: leave, sleep, or take the task, which is the first not yet processed. */
    method Fetch() returns (task: Option<Task>)
      requires Valid() && (worker == Top || (worker == Sleeping && woken))
      modifies this`hasPendingTask, this`active, this`worker, this`woken, this`trace
      ensures Valid() && trace == old(trace) + [Work]
      ensures task == (if worker.Busy? then Some(worker.task) else None)
      ensures stopping ==> worker == Leaving
      ensures !stopping && !old(hasPendingTask) ==> worker == Sleeping
      ensures task.Some? <==> !stopping && old(hasPendingTask)
      ensures task.Some? && HarmlessResets(old(trace)) ==>
        |processed| < |enqueued| && task.value == enqueued[|processed|]
    {
      hide After, HarmlessResets;
      AfterGrows(trace, Work);
      SettledResults(trace);
      woken := false;
      task := None;
      if stopping {
        worker := Leaving;
      } else if !hasPendingTask {
        worker := Sleeping;
      } else {
        task := Some(pendingTask);
        hasPendingTask := false;
        active := true;
        worker := Busy(pendingTask);
      }
      trace := trace + [Work];
    }

    /** processDeferredSwapTask, outside the mutex. */
    method Process(task: Task)
      requires Valid() && worker == Busy(task)
      modifies this`worker, this`processed, this`trace
      ensures Valid() && trace == old(trace) + [Work]
      ensures worker == Retire && processed == old(processed) + [task]
    {
      hide After, HarmlessResets;
      AfterGrows(trace, Work);
      worker := Retire;
      processed := processed + [task];
      trace := trace + [Work];
    }

    /** The three sections after a task. If nothing waits, the drains are woken with everything
        enqueued processed... */
    method RetireTask()
      requires Valid() && worker == Retire
      modifies this`active, this`worker, this`drainers, this`trace
      ensures Valid() && trace == old(trace) + [Work] && worker == SwapSpec.Clear && !active
      ensures hasPendingTask ==> drainers == old(drainers)
      ensures !hasPendingTask ==> drainers == 0 && (HarmlessResets(old(trace)) ==> enqueued == processed)
    {
      hide After, HarmlessResets;
      AfterGrows(trace, Work);
      SettledResults(trace);
      active := false;
      worker := SwapSpec.Clear;
      if !hasPendingTask {
        drainers := 0;
      }
      trace := trace + [Work];
    }

    /** ...the flag is cleared... */
    method ClearFlag()
      requires Valid() && worker == SwapSpec.Clear
      modifies this`worker, this`trace, owner`inFlight
      ensures Valid() && trace == old(trace) + [Work] && worker == Report
      ensures owner.inFlight == (old(owner.inFlight) && hasPendingTask)
      ensures HarmlessResets(old(trace)) && !stopping ==> !owner.inFlight && enqueued == processed
    {
      hide After, HarmlessResets;
      AfterGrows(trace, Work);
      SettledResults(trace);
      worker := Report;
      if !hasPendingTask {
        owner.inFlight := false;
      }
      trace := trace + [Work];
    }

    /** ...and an update is scheduled. */
    method ReportIdle() returns (schedule: bool)
      requires Valid() && worker == Report
      modifies this`worker, this`trace
      ensures Valid() && trace == old(trace) + [Work] && worker == Top
      ensures schedule && HarmlessResets(old(trace)) ==> enqueued == processed
      ensures !schedule && HarmlessResets(old(trace)) ==> |enqueued| > |processed|
    {
      hide After, HarmlessResets;
      AfterGrows(trace, Work);
      SettledResults(trace);
      worker := Top;
      schedule := !hasPendingTask;
      trace := trace + [Work];
    }

    method Leave()
      requires Valid() && worker == Leaving
      modifies this`active, this`worker, this`drainers, this`trace
      ensures Valid() && trace == old(trace) + [Work] && worker == Gone && !active && drainers == 0
    {
      hide After, HarmlessResets;
      AfterGrows(trace, Work);
      active := false;
      worker := Gone;
      drainers := 0;
      trace := trace + [Work];
    }
  }
}
