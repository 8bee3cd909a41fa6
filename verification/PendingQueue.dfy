/**
  The pending-frame slot and its overflow deque (gui/src/qmlmainwindow.cpp:3661-4118), edited in
  place under one mutex. Every method is one locked section; Queue() reads slot and deque as one
  list, and each contract is a step of PendingSpec.
  */
module PendingQueue {
  import opened Wrappers
  import opened PendingSpec

  /** The decoder's frame, whose ownership storePendingFrame may take. */
  class FfmpegFrame {
    var frame: Option<nat>
    var pts: real
    var duration: real

    constructor (frame: Option<nat>, pts: real, duration: real)
      ensures this.frame == frame && this.pts == pts && this.duration == duration
    {
      this.frame, this.pts, this.duration := frame, pts, duration;
    }
  }

  function OverflowLimit(enabled: bool, depthLimit: nat): nat {
    if !enabled then 0 else if depthLimit * 3 > 6 then depthLimit * 3 else 6
  }

  class PendingFrames {
    var frame: Option<nat>
    var warmup: bool
    var pts: real
    var duration: real
    var origin: real
    var storedUs: nat
    var overflow: seq<Entry>
    var present: bool
    var dropped: nat

    ghost var handed: seq<Entry>
    ghost var taken: seq<Entry>
    ghost var freed: seq<Entry>
    ghost var replaced: nat
    ghost var discarded: nat
    ghost var ops: seq<Op>   // every locked section so far, in order

    function Slot(): Entry
      reads this
      requires frame.Some?
    {
      Entry(frame.value, pts, duration, origin, storedUs, warmup)
    }

    ghost function Queue(): seq<Entry>
      reads this
    {
      if frame.None? then overflow else [Slot()] + overflow
    }

    ghost function Books(): Ledger
      reads this
    {
      Ledger(Queue(), handed, taken, freed, dropped, replaced, discarded)
    }

    /** Slot and deque are where the sections so far, as steps on one list, have brought them. */
    ghost predicate Valid()
      reads this
    {
      && (frame.None? ==> overflow == [])
      && Ordered(Queue())
      && (present <==> Queue() != [])
      && Books() == Run(ops)
      && ProperOps(ops)
    }

    /** So the whole history is accounted for: no frame is lost, duplicated or taken out of order, and
        the overflow is within the greatest limit that was ever in use. */
    lemma HistoryIsAccounted(bound: nat)
      requires Valid()
      ensures Conserved(Books()) && InOrder(Books())
      ensures LimitsAtMost(ops, bound) ==> |overflow| <= bound
    {
      RunConservesAndKeepsOrder(ops);
      if LimitsAtMost(ops, bound) {
        RunStaysBounded(ops, bound);
      }
    }

    constructor ()
      ensures Valid() && Books() == EMPTY && ops == []
    {
      frame, warmup, pts, duration, origin, storedUs := None, false, 0.0, 0.0, 0.0, 0;
      overflow, present, dropped := [], false, 0;
      handed, taken, freed, replaced, discarded := [], [], [], 0, 0;
      ops := [];
    }

    method SetSlot(e: Entry)
      modifies this`frame, this`warmup, this`pts, this`duration, this`origin, this`storedUs
      ensures frame.Some? && Slot() == e
    {
      frame, warmup, pts, duration, origin, storedUs := Some(e.id), e.warmup, e.pts, e.duration, e.origin, e.storedUs;
    }

    method ClearSlot()
      modifies this`frame, this`warmup, this`pts, this`duration, this`origin, this`storedUs
      ensures frame.None?
    {
      frame, warmup, pts, duration, origin, storedUs := None, false, 0.0, 0.0, 0.0, 0;
    }

    /** av_frame_free of an entry that no longer belongs to the queue. */
    ghost method Free(e: Entry)
      modifies this`freed
      ensures freed == old(freed) + [e]
    {
      freed := freed + [e];
    }

    /** The overflow is popped from the front until empty; a counted drain is a drain of drops. */
    method DrainOverflow(counted: bool)
      modifies this`overflow, this`dropped, this`discarded, this`freed
      ensures overflow == [] && freed == old(freed) + old(overflow)
      ensures dropped == old(dropped) + if counted then |old(overflow)| else 0
      ensures discarded == old(discarded) + if counted then 0 else |old(overflow)|
    {
      ghost var n := 0;
      while |overflow| > 0
        invariant n <= |old(overflow)| && overflow == old(overflow)[n..]
        invariant freed == old(freed) + old(overflow)[..n]
        invariant dropped == old(dropped) + if counted then n else 0
        invariant discarded == old(discarded) + if counted then 0 else n
      {
        var e := overflow[0];
        overflow := overflow[1..];
        if counted {
          dropped := dropped + 1;
        } else {
          discarded := discarded + 1;
        }
        Free(e);
        n := n + 1;
      }
    }

    /** Leaves only the slot. */
    method CutOff(counted: bool)
      requires frame.None? ==> overflow == []
      modifies this`overflow, this`dropped, this`discarded, this`freed
      ensures overflow == []
      ensures Books() == (if counted then DropTo(old(Books()), Head(old(Queue())), Tail(old(Queue())))
                          else DiscardTo(old(Books()), Head(old(Queue())), Tail(old(Queue()))))
    {
      assert frame.Some? ==> Head(Queue()) == [Slot()] && Tail(Queue()) == overflow;
      DrainOverflow(counted);
    }

    /** Inserts behind the entries that are not later. */
    method InsertOverflow(e: Entry)
      modifies this`overflow
      ensures exists k :: Position(old(overflow), e, k) && overflow == old(overflow)[..k] + [e] + old(overflow)[k..]
      ensures (forall x :: x in old(overflow) ==> x.pts <= e.pts + EPSILON) ==> overflow == old(overflow) + [e]
    {
      var k := 0;
      while k < |overflow| && overflow[k].pts <= e.pts + EPSILON
        invariant k <= |overflow|
        invariant forall i :: 0 <= i < k ==> overflow[i].pts <= e.pts + EPSILON
      {
        k := k + 1;
      }
      assert Position(overflow, e, k);
      assert k < |overflow| ==> overflow[k] in overflow;
      overflow := overflow[..k] + [e] + overflow[k..];
    }

    /** Hands a frame in. With ownership the frame is consumed whatever the outcome. */
    method Store(f: FfmpegFrame, takeOwnership: bool, clone: Option<nat>, synthetic: bool,
                 queueOrigin: real, nowUs: nat, enabled: bool, depthLimit: nat) returns (stored: bool)
      requires Valid()
      requires f.pts >= 0.0 && (synthetic ==> f.pts == 0.0)
      modifies this, f`frame
      ensures Valid()
      ensures var id := if takeOwnership then old(f.frame) else clone;
        if old(f.frame).None? || id.None? then
          !stored && Books() == old(Books()) && ops == old(ops) && f.frame == old(f.frame)
        else
          var e := Entry(id.value, f.pts, f.duration, queueOrigin, nowUs, synthetic);
          var limit := OverflowLimit(enabled, depthLimit);
          && Books() == Step(old(Books()), PendingSpec.Store(e, limit))
          && ops == old(ops) + [PendingSpec.Store(e, limit)]
          && stored == Accepts(if enabled then old(Queue()) else Head(old(Queue())), e)
          && f.frame == (if takeOwnership then None else old(f.frame))
      ensures var id := if takeOwnership then old(f.frame) else clone;
        old(f.frame).Some? && id.Some? ==>
          var e := Entry(id.value, f.pts, f.duration, queueOrigin, nowUs, synthetic);
          var q := old(Queue());
          var takesOver := q != [] && q[0].warmup && !synthetic;
          var later := q != [] && f.pts > q[if enabled then |q| - 1 else 0].pts + EPSILON;
          var room := |q| - 1 < 6 || |q| - 1 < 3 * depthLimit;
          && (stored <==> q == [] || takesOver || later)
          && (q == [] || takesOver ==> Queue() == [e])
          && (!stored ==> Queue() == if enabled then q else [q[0]])
          && (stored && q != [] && !takesOver ==>
                Queue() == if !enabled then [e] else if room then q + [e] else [q[0]] + q[2..] + [e])
          && replaced == old(replaced) + (if takesOver then 1 else 0)
          && dropped == old(dropped) + (if !enabled && q != [] then |q| - 1 else 0)
             + (if q == [] || takesOver || (stored && enabled && room) then 0 else 1)
    {
      hide Run, Step, Accepts;
      ghost var before := Books();
      if f.frame.None? {
        return false;
      }
      var id := if takeOwnership then f.frame else clone;
      if id.None? {
        return false;
      }
      var e := Entry(id.value, f.pts, f.duration, queueOrigin, nowUs, synthetic);
      StoreInWords(before, e, enabled, depthLimit);
      stored := StoreEntry(e, enabled, depthLimit);
      if takeOwnership {
        f.frame := None;
      }
    }

    /** The locked section of a store. */
    method StoreEntry(e: Entry, enabled: bool, depthLimit: nat) returns (stored: bool)
      requires Valid() && Proper(e)
      modifies this
      ensures Valid() && Books() == Step(old(Books()), PendingSpec.Store(e, OverflowLimit(enabled, depthLimit)))
      ensures ops == old(ops) + [PendingSpec.Store(e, OverflowLimit(enabled, depthLimit))]
      ensures stored == Accepts(if enabled then old(Queue()) else Head(old(Queue())), e)
    {
      hide Run, Place, Ordered;
      ghost var op := PendingSpec.Store(e, OverflowLimit(enabled, depthLimit));
      NextStep(ops, Books(), op);
      HeadOrdered(Queue());
      ops := ops + [op];
      if !enabled {
        CutOff(true);
      }
      stored := PlaceFrame(e, enabled, depthLimit);
    }

    method PlaceFrame(e: Entry, enabled: bool, depthLimit: nat) returns (stored: bool)
      requires Proper(e) && Ordered(Queue()) && (frame.None? ==> overflow == []) && (!enabled ==> overflow == [])
      requires present <==> Queue() != []
      modifies this`frame, this`warmup, this`pts, this`duration, this`origin, this`storedUs
      modifies this`overflow, this`present, this`dropped, this`handed, this`freed, this`replaced
      ensures stored == Accepts(old(Queue()), e)
      ensures Books() == Accept(old(Books()), e, OverflowLimit(enabled, depthLimit))
      ensures frame.Some? && present
    {
      hide Ordered, Place, Accepts;
      ghost var before := Books();
      var limit := OverflowLimit(enabled, depthLimit);
      stored := TakeIn(e, limit);
      handed := handed + [e];
      present := true;
      AcceptedBooks(before, e, limit, Place(before.queue, e, limit), Books());
    }

    /** Puts the frame where it belongs. */
    method TakeIn(e: Entry, limit: nat) returns (stored: bool)
      requires Ordered(Queue()) && (frame.None? || limit == 0 ==> overflow == [])
      modifies this`frame, this`warmup, this`pts, this`duration, this`origin, this`storedUs
      modifies this`overflow, this`dropped, this`freed, this`replaced
      ensures frame.Some? && stored == Accepts(old(Queue()), e)
      ensures var p := Place(old(Queue()), e, limit);
        && Queue() == p.queue
        && freed == old(freed) + p.gone
        && replaced == old(replaced) + (if p.replaced then |p.gone| else 0)
        && dropped == old(dropped) + (if p.replaced then 0 else |p.gone|)
    {
      hide Ordered;
      ghost var p := Place(Queue(), e, limit);
      assert frame.Some? ==> Queue()[1..] == overflow && Queue()[0] == Slot();
      if frame.None? {
        assert p == Placement([e], [], false);
        SetSlot(e);
        stored := true;
      } else if warmup && !e.warmup {
        assert p == Placement([e] + overflow, [Slot()], true);
        replaced := replaced + 1;
        ReplaceSlot(e);
        stored := true;
      } else {
        assert !p.replaced;
        stored := PlaceBehind(e, limit);
      }
    }

    method ReplaceSlot(e: Entry)
      requires frame.Some?
      modifies this`frame, this`warmup, this`pts, this`duration, this`origin, this`storedUs, this`freed
      ensures frame.Some? && Slot() == e && freed == old(freed) + [old(Slot())]
    {
      Free(Slot());
      SetSlot(e);
    }

    /** A frame that does not take over from a warm-up frame has to be later than all that wait. */
    method PlaceBehind(e: Entry, limit: nat) returns (stored: bool)
      requires frame.Some? && Ordered(Queue()) && (limit == 0 ==> overflow == []) && !(warmup && !e.warmup)
      modifies this`frame, this`warmup, this`pts, this`duration, this`origin, this`storedUs
      modifies this`overflow, this`dropped, this`freed
      ensures frame.Some? && stored == (e.pts > Last(old(Queue())).pts + EPSILON)
      ensures var p := Place(old(Queue()), e, limit);
        Queue() == p.queue && freed == old(freed) + p.gone && dropped == old(dropped) + |p.gone|
    {
      ghost var q, p := Queue(), Place(Queue(), e, limit);
      assert q[1..] == overflow && q[0] == Slot();
      var newest := if |overflow| == 0 then pts else overflow[|overflow| - 1].pts;
      assert newest == Last(q).pts;
      if e.pts <= newest + EPSILON {
        assert p == Placement(q, [e], false);
        dropped := dropped + 1;
        Free(e);
        return false;
      }
      if limit == 0 {
        assert p == Placement([e] + overflow, [Slot()], false);
        dropped := dropped + 1;
        ReplaceSlot(e);
      } else {
        LastIsLatest(q);
        assert forall x :: x in overflow ==> x in q;
        AppendOverflow(e, limit);
        assert |q| > limit ==> q[2..] == q[1..][1..] && q[1] == q[1..][0];
        assert Queue() == p.queue;
      }
      return true;
    }

    /** A full overflow gives up its own oldest frame, not the slot's. */
    method AppendOverflow(e: Entry, limit: nat)
      requires limit > 0 && forall x :: x in overflow ==> x.pts <= e.pts + EPSILON
      modifies this`overflow, this`dropped, this`freed
      ensures var was := old(overflow);
        if |was| >= limit then
          overflow == was[1..] + [e] && freed == old(freed) + [was[0]] && dropped == old(dropped) + 1
        else
          overflow == was + [e] && freed == old(freed) && dropped == old(dropped)
    {
      if |overflow| >= limit {
        EvictFront();
      }
      InsertOverflow(e);
    }

    /** Moves the front of the overflow into an empty slot. */
    method Promote() returns (filled: bool)
      requires frame.Some? ==> present
      modifies this`frame, this`warmup, this`pts, this`duration, this`origin, this`storedUs
      modifies this`overflow, this`present
      ensures Queue() == old(Queue()) && filled == frame.Some? && (present <==> frame.Some?)
      ensures frame.None? ==> overflow == []
    {
      if frame.Some? {
        return true;
      }
      if |overflow| == 0 {
        present := false;
        return false;
      }
      var e := overflow[0];
      overflow := overflow[1..];
      SetSlot(e);
      present := true;
      return true;
    }

    method Take() returns (e: Option<Entry>)
      requires Valid()
      modifies this
      ensures Valid() && Books() == Step(old(Books()), PendingSpec.Take) && ops == old(ops) + [PendingSpec.Take]
      ensures if old(Queue()) == [] then e == None && Queue() == [] && taken == old(taken)
              else e == Some(old(Queue())[0]) && Queue() == old(Queue())[1..] && taken == old(taken) + [e.value]
    {
      hide Run, Ordered, Step;
      ghost var before := Books();
      NextStep(ops, before, PendingSpec.Take);
      ops := ops + [PendingSpec.Take];
      if frame.None? {
        var filled := Promote();
        if !filled {
          assert taken == taken + Head(before.queue);
          TakenBooks(before, Books());
          return None;
        }
      }
      assert Head(Queue()) == [Slot()] && Tail(Queue()) == overflow;
      hide Head, Tail;
      var entry := HandOver();
      var filled := Promote();
      TakenBooks(before, Books());
      return Some(entry);
    }

    /** Gives the frame in the slot away. */
    method HandOver() returns (e: Entry)
      requires frame.Some?
      modifies this`frame, this`warmup, this`pts, this`duration, this`origin, this`storedUs, this`taken
      ensures e == old(Slot()) && frame.None? && taken == old(taken) + [e]
    {
      e := Slot();
      taken := taken + [e];
      ClearSlot();
    }

    /** Frees the frame in the slot, uncounted. */
    method FreeHead()
      requires frame.None? ==> overflow == []
      modifies this`frame, this`warmup, this`pts, this`duration, this`origin, this`storedUs
      modifies this`discarded, this`freed
      ensures frame.None? && overflow == Tail(old(Queue()))
      ensures freed == old(freed) + Head(old(Queue())) && discarded == old(discarded) + |Head(old(Queue()))|
    {
      assert frame.Some? ==> Head(Queue()) == [Slot()] && Tail(Queue()) == overflow;
      if frame.Some? {
        discarded := discarded + 1;
        Free(Slot());
      }
      ClearSlot();
    }

    /** Frees the head without counting it (the caller counts), and says whether another frame is up. */
    method DropHead() returns (promoted: bool)
      requires Valid()
      modifies this
      ensures Valid() && Books() == Step(old(Books()), PendingSpec.Drop) && ops == old(ops) + [PendingSpec.Drop]
      ensures promoted == (|old(Queue())| > 1) && dropped == old(dropped)
      ensures old(Queue()) != [] ==> Queue() == old(Queue())[1..] && freed == old(freed) + [old(Queue())[0]]
      ensures old(Queue()) == [] ==> Queue() == [] && freed == old(freed)
    {
      ghost var before := Books();
      hide Run, Ordered;
      NextStep(ops, before, PendingSpec.Drop);
      ops := ops + [PendingSpec.Drop];
      hide Head, Tail, Step;
      FreeHead();
      promoted := Promote();
      DroppedBooks(before, Books());
    }

    /** Looks only at the slot and at the front of the overflow, yet leaves exactly the fresh frames. */
    method PruneBefore(cutoff: real)
      requires Valid()
      modifies this
      ensures Valid() && Books() == Step(old(Books()), Prune(cutoff)) && ops == old(ops) + [Prune(cutoff)]
      ensures cutoff < 0.0 ==> Queue() == old(Queue()) && dropped == old(dropped)
      ensures cutoff >= 0.0 ==>
        var q := old(Queue());
        var n := |q| - |Queue()|;
        && Prunes(q, Queue(), cutoff)
        && 0 <= n && freed == old(freed) + q[..n] && dropped == old(dropped) + n
    {
      hide Run, Ordered, Prunes, Stale;
      NextStep(ops, Books(), Prune(cutoff));
      ops := ops + [Prune(cutoff)];
      if cutoff < 0.0 {
        return;
      }
      PruneInWords(Queue(), cutoff);
      ghost var n := FreshIsSuffix(Queue(), cutoff);
      PruneFirst(cutoff, n);
    }

    /** Drops the n stale frames at the front. */
    method PruneFirst(cutoff: real, ghost n: nat)
      requires Ordered(Queue()) && n <= |Queue()| && (frame.None? ==> overflow == [])
      requires (forall i :: 0 <= i < n ==> Stale(Queue()[i], cutoff)) && (n < |Queue()| ==> !Stale(Queue()[n], cutoff))
      modifies this`frame, this`warmup, this`pts, this`duration, this`origin, this`storedUs
      modifies this`overflow, this`present, this`dropped, this`freed
      ensures var q := old(Queue());
        Queue() == q[n..] && freed == old(freed) + q[..n] && dropped == old(dropped) + n
      ensures (frame.None? ==> overflow == []) && (present <==> Queue() != [])
    {
      hide Ordered, Stale;
      ghost var q, was := Queue(), freed;
      PruneSlot(cutoff, n);
      PruneOverflow(cutoff, q, n);
      assert n > 0 ==> q[..n] == [q[0]] + q[1..n];
      assert freed == was + q[..n];
      if frame.None? && |overflow| > 0 {
        var filled := Promote();
      }
      present := frame.Some? || |overflow| > 0;
    }

    method PruneSlot(cutoff: real, ghost n: nat)
      requires Ordered(Queue()) && n <= |Queue()| && (frame.None? ==> overflow == [])
      requires (forall i :: 0 <= i < n ==> Stale(Queue()[i], cutoff)) && (n < |Queue()| ==> !Stale(Queue()[n], cutoff))
      modifies this`frame, this`warmup, this`pts, this`duration, this`origin, this`storedUs
      modifies this`dropped, this`freed
      ensures var q := old(Queue());
        if n == 0 then
          Queue() == q && frame == old(frame) && freed == old(freed) && dropped == old(dropped)
        else
          Queue() == q[1..] && frame.None? && freed == old(freed) + [q[0]] && dropped == old(dropped) + 1
    {
      ghost var q := Queue();
      assert frame.Some? ==> q[0] == Slot() && q[1..] == overflow;
      if frame.Some? && (pts + EPSILON < cutoff || (warmup && pts <= cutoff + EPSILON)) {
        dropped := dropped + 1;
        Free(Slot());
        ClearSlot();
      }
    }

    method PruneOverflow(cutoff: real, ghost q: seq<Entry>, ghost n: nat)
      requires Ordered(q) && n <= |q|
      requires (forall i :: 0 <= i < n ==> Stale(q[i], cutoff)) && (n < |q| ==> !Stale(q[n], cutoff))
      requires Queue() == q[if n == 0 then 0 else 1..] && (frame.Some? <==> n == 0 && q != [])
      modifies this`overflow, this`dropped, this`freed
      ensures Queue() == q[n..]
      ensures var gone := if n == 0 then [] else q[1..n];
        freed == old(freed) + gone && dropped == old(dropped) + |gone|
    {
      ghost var k := if n == 0 then 0 else 1;
      if n == 0 && q != [] {
        OverflowFresh(q, cutoff);
      }
      while |overflow| > 0 && Stale(overflow[0], cutoff)
        invariant n > 0 ==> 1 <= k <= n && overflow == q[k..]
        invariant n == 0 ==> overflow == old(overflow) && k == 0
        invariant n > 0 ==> freed == old(freed) + q[1..k] && dropped == old(dropped) + (k - 1)
        invariant n == 0 ==> freed == old(freed) && dropped == old(dropped)
        decreases |overflow|
      {
        var e := overflow[0];
        overflow := overflow[1..];
        dropped := dropped + 1;
        Free(e);
        k := k + 1;
      }
    }

    method ClearAll()
      requires Valid()
      modifies this
      ensures Valid() && Books() == Step(old(Books()), Clear) && ops == old(ops) + [Clear]
      ensures Queue() == [] && freed == old(freed) + old(Queue()) && dropped == old(dropped)
    {
      hide Run;
      ghost var before := Books();
      NextStep(ops, before, Clear);
      ops := ops + [Clear];
      hide Head, Tail, Ordered, Step;
      FreeHead();
      DrainOverflow(false);
      present := false;
      ClearedBooks(before, Books());
    }

    /** The overflow was switched off: the deque is emptied, the slot stays. */
    method DisableOverflow()
      requires Valid()
      modifies this
      ensures Valid() && Books() == Step(old(Books()), CutOverflow) && ops == old(ops) + [CutOverflow]
      ensures old(Queue()) == [] ==> Queue() == [] && freed == old(freed)
      ensures old(Queue()) != [] ==> Queue() == [old(Queue())[0]] && freed == old(freed) + old(Queue())[1..]
      ensures dropped == old(dropped)
    {
      hide Run, Ordered;
      NextStep(ops, Books(), CutOverflow);
      ops := ops + [CutOverflow];
      CutOff(false);
      if frame.None? {
        present := false;
      }
    }

    /** The newest waiting frame is the last of the list. */
    method CloneNewest(cloneSucceeds: bool) returns (newest: Option<Entry>)
      requires Valid()
      ensures newest == if Queue() == [] || !cloneSucceeds then None else Some(Queue()[|Queue()| - 1])
    {
      newest := if frame.Some? then Some(Slot()) else None;
      if |overflow| > 0 {
        var back := overflow[|overflow| - 1];
        assert Queue()[0] == Slot() && back == Queue()[|Queue()| - 1];
        if newest.None? || Newer(back, newest.value) {
          newest := Some(back);
        }
      }
      if !cloneSucceeds {
        newest := None;
      }
    }

    method EvictFront()
      requires overflow != []
      modifies this`overflow, this`dropped, this`freed
      ensures overflow == old(overflow)[1..] && freed == old(freed) + [old(overflow)[0]] && dropped == old(dropped) + 1
    {
      var evicted := overflow[0];
      overflow := overflow[1..];
      dropped := dropped + 1;
      Free(evicted);
    }
  }

  /** One more section, as a step of the run. */
  lemma NextStep(ops: seq<Op>, books: Ledger, op: Op)
    requires books == Run(ops) && ProperOps(ops) && Ordered(books.queue) && (op.Store? ==> Proper(op.e))
    ensures Run(ops + [op]) == Step(books, op) && ProperOps(ops + [op]) && Ordered(Step(books, op).queue)
  {
    assert (ops + [op])[..|ops|] == ops;
    StepKeepsOrdered(books, op);
  }

  /** The store, entry by entry: whether the frame is accepted, what waits afterwards, what is counted. */
  lemma StoreInWords(l: Ledger, e: Entry, enabled: bool, depthLimit: nat)
    requires Ordered(l.queue)
    ensures var q, after := l.queue, Step(l, PendingSpec.Store(e, OverflowLimit(enabled, depthLimit)));
      var takesOver := q != [] && q[0].warmup && !e.warmup;
      var later := q != [] && e.pts > q[if enabled then |q| - 1 else 0].pts + EPSILON;
      var stored := q == [] || takesOver || later;
      var room := |q| - 1 < 6 || |q| - 1 < 3 * depthLimit;
      && (Accepts(if enabled then q else Head(q), e) <==> stored)
      && (q == [] || takesOver ==> after.queue == [e])
      && (!stored ==> after.queue == if enabled then q else [q[0]])
      && (stored && q != [] && !takesOver ==>
            after.queue == if !enabled then [e] else if room then q + [e] else [q[0]] + q[2..] + [e])
      && after.replaced == l.replaced + (if takesOver then 1 else 0)
      && after.drops == l.drops + (if !enabled && q != [] then |q| - 1 else 0)
         + (if q == [] || takesOver || (stored && enabled && room) then 0 else 1)
  {
    var limit := OverflowLimit(enabled, depthLimit);
    var q := l.queue;
    if q != [] && q[0].warmup {
      assert q == [q[0]];
    }
    if enabled {
      PlaceInWords(q, e, limit);
    } else {
      HeadOrdered(q);
      PlaceInWords(Head(q), e, limit);
    }
  }

  lemma ClearedBooks(before: Ledger, after: Ledger)
    requires after.queue == [] && after.freed == before.freed + Head(before.queue) + Tail(before.queue)
    requires after.discarded == before.discarded + |Head(before.queue)| + |Tail(before.queue)|
    requires after == before.(queue := after.queue, freed := after.freed, discarded := after.discarded)
    ensures after == Step(before, Clear) && after.freed == before.freed + before.queue
  {
    HeadTail(before.queue);
    assert after.freed == before.freed + (Head(before.queue) + Tail(before.queue));
  }

  lemma AcceptedBooks(before: Ledger, e: Entry, limit: nat, p: Placement, after: Ledger)
    requires p == Place(before.queue, e, limit)
    requires after.handed == before.handed + [e] && after.taken == before.taken && after.discarded == before.discarded
    requires after.queue == p.queue
    requires after.freed == before.freed + p.gone
    requires after.replaced == before.replaced + (if p.replaced then |p.gone| else 0)
    requires after.drops == before.drops + (if p.replaced then 0 else |p.gone|)
    ensures after == Accept(before, e, limit)
  {
  }

  lemma TakenBooks(before: Ledger, after: Ledger)
    requires after.queue == Tail(before.queue) && after.taken == before.taken + Head(before.queue)
    requires after == before.(queue := after.queue, taken := after.taken)
    ensures after == Step(before, PendingSpec.Take)
    ensures before.queue == [] ==> after.queue == [] && after.taken == before.taken
    ensures before.queue != [] ==> after.queue == before.queue[1..] && after.taken == before.taken + [before.queue[0]]
  {
  }

  lemma DroppedBooks(before: Ledger, after: Ledger)
    requires after.queue == Tail(before.queue)
    requires after.freed == before.freed + Head(before.queue)
    requires after.discarded == before.discarded + |Head(before.queue)|
    requires after == before.(queue := after.queue, freed := after.freed, discarded := after.discarded)
    ensures after == Step(before, PendingSpec.Drop)
    ensures before.queue == [] ==> after.queue == [] && after.freed == before.freed
    ensures before.queue != [] ==> after.queue == before.queue[1..] && after.freed == before.freed + [before.queue[0]]
  {
  }

  predicate Newer(a: Entry, b: Entry) {
    a.pts > b.pts + EPSILON || (-EPSILON <= a.pts - b.pts <= EPSILON && a.storedUs > b.storedUs)
  }

  lemma OverflowFresh(q: seq<Entry>, cutoff: real)
    requires Ordered(q) && q != [] && !Stale(q[0], cutoff)
    ensures forall i :: 0 <= i < |q| ==> !Stale(q[i], cutoff)
  {
  }

  lemma LastIsLatest(q: seq<Entry>)
    requires Ordered(q) && q != []
    ensures forall x :: x in q ==> x.pts <= Last(q).pts
  {
  }

  /** k is the first place whose entry is later than e. */
  predicate Position(q: seq<Entry>, e: Entry, k: int) {
    && 0 <= k <= |q|
    && (forall i :: 0 <= i < k ==> q[i].pts <= e.pts + EPSILON)
    && (k < |q| ==> q[k].pts > e.pts + EPSILON)
  }
}
