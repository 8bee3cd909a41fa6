/**
  The audio receiver (lib/src/audioreceiver.c): eight slots of 16-bit frame numbers edited in place.
  Ghost state gives every occupied slot and the play head their unbounded index; each method is
  proved to compute on the slots what JitterSpec and JitterRuns say about those indices.
  */
module AudioReceiver {
  import opened Wrappers
  import opened SerialNumbers
  import opened JitterSpec
  import opened JitterRuns
  import opened JitterSlots

  /** The buffer argument of a call, consumed by the first turn of its loop. */
  datatype Offer = Offer(frameIndex: Seq16, bytes: Bytes, copied: bool)

  /** What became of a copy. */
  datatype Fate = Live | Freed | Lost

  /** malloc and free, as far as the receiver uses them: copies are numbered in order of allocation. */
  class Heap {
    var allocations: nat
    ghost var fates: seq<Fate>
    ghost var leaks: nat

    constructor ()
      ensures Owes({}, {}) && leaks == 0
    {
      allocations, fates, leaks := 0, [], 0;
    }

    /** Exactly the copies in `held` and those in `away` are still to be released by somebody, and no
        copy is in both. */
    ghost predicate Owes(held: set<nat>, away: set<nat>)
      reads this
    {
      && allocations == |fates|
      && (forall id :: id in held ==> id < |fates| && id !in away)
      && (forall id :: id in away ==> id < |fates|)
      && (forall id :: 0 <= id < |fates| ==> (fates[id] == Live <==> id in held || id in away))
    }

    /** The same, and one more copy. */
    ghost predicate OwesAlso(held: set<nat>, away: set<nat>, buf: Buf)
      reads this
    {
      match buf
      case Null => Owes(held, away)
      case Block(copy, _) =>
        && copy !in held && copy !in away && copy < |fates| == allocations
        && (forall id :: id in held ==> id < |fates| && id !in away)
        && (forall id :: id in away ==> id < |fates|)
        && (forall id :: 0 <= id < |fates| ==> (fates[id] == Live <==> id in held || id in away || id == copy))
    }

    /** A copy taken out is one more in the callers' hands... */
    lemma HandedOut(held: set<nat>, away: set<nat>, buf: Buf)
      requires OwesAlso(held, away, buf)
      ensures Owes(held, away + Ids(buf)) && (buf.Block? ==> buf.id !in away)
    {
      assert buf.Null? ==> away + Ids(buf) == away;
    }

    /** ...and any of those can be the next to be released. */
    lemma InHand(held: set<nat>, away: set<nat>, buf: Buf)
      requires Owes(held, away + Ids(buf)) && (buf.Block? ==> buf.id !in away)
      ensures OwesAlso(held, away, buf)
    {
      assert buf.Null? ==> away + Ids(buf) == away;
    }

    method Malloc(bytes: Bytes, ghost held: set<nat>, ghost away: set<nat>) returns (copy: Buf)
      requires Owes(held, away)
      modifies this`fates, this`allocations
      ensures copy.Block? && copy.bytes == bytes && OwesAlso(held, away, copy)
    {
      copy := Block(allocations, bytes);
      fates := fates + [Live];
      allocations := allocations + 1;
    }

    /** free: a copy must be live to be released, and is so no longer. */
    ghost method Free(buf: Buf, held: set<nat>, away: set<nat>)
      requires OwesAlso(held, away, buf)
      modifies this`fates
      ensures Owes(held, away)
    {
      if buf.Block? {
        assert fates[buf.id] == Live;
        fates := fates[buf.id := Freed];
      }
    }

    /** The last pointer to a copy is dropped. */
    ghost method Leak(buf: Buf, held: set<nat>, away: set<nat>)
      requires OwesAlso(held, away, buf)
      modifies this`fates, this`leaks
      ensures Owes(held, away) && leaks == old(leaks) + (if buf.Block? then 1 else 0)
    {
      if buf.Block? {
        fates, leaks := fates[buf.id := Lost], leaks + 1;
      }
    }
  }

  /** A sink of the session: the frames it was called with since the last stream header. */
  class Sink {
    ghost var calls: seq<Callback>
  }

  class Receiver {
    var framePrev: Seq16
    var nextFrameIndex: Seq16
    var nextValid: bool
    var started: bool
    var startup: bool
    const slots: array<Slot>
    var count: nat
    const heap: Heap
    const audioSink: Sink?
    const hapticsSink: Sink?

    ghost var table: seq<Slot>                 // the contents of the slots
    ghost var next: int                        // the play head
    ghost var prev: int                        // the index framePrev stands for
    ghost var peak: Option<int>                // the greatest packet index of this stream
    ghost var sections: seq<Option<Arrival>>   // the locked sections of this stream, in order
    ghost var arrivals: seq<Arrival>           // the audio calls of this stream, in order
    ghost var lost: nat                        // the copies leaked in earlier streams

    ghost predicate Mirrored()
      reads this`table, slots
    {
      && slots.Length == CAPACITY == |table|
      && (forall i :: 0 <= i < CAPACITY ==> slots[i] == table[i])
      && Table(table)
    }

    ghost predicate Indexed()
      reads this`table, this`count, this`nextValid, this`started, this`nextFrameIndex, this`next, slots
    {
      && Mirrored()
      && count == Count(table)
      && Close(Frames(table).Keys)
      && nextValid == started
      && (started ==> nextFrameIndex == Wrap(next) && Ahead(Frames(table).Keys, next))
    }

    ghost function Model(): Jitter
      reads this`table, this`started, this`next
    {
      Jitter(if started then Playing(next) else Prefill, Frames(table))
    }

    /** Every copy still to be released is in exactly one slot or in one caller's hands. */
    ghost predicate Owned(away: set<nat>)
      reads this`table, heap
    {
      heap.Owes(Copies(table), away)
    }

    /** The same, but for one copy on its way out of the buffer. */
    ghost predicate OwnedBut(out: Buf, away: set<nat>)
      reads this`table, heap
    {
      heap.OwesAlso(Copies(table), away, out)
    }

    /** What every locked section keeps, whatever other callers are in the middle of. */
    ghost predicate Standing()
      reads this`table, this`count, this`nextValid, this`started, this`nextFrameIndex, this`next, slots
      reads this`framePrev, this`prev, this`sections
    {
      Indexed() && framePrev == Wrap(prev) && WellFormed(Model()) && Model() == Sections(sections).0
    }

    /** So for any interleaving of callers the callbacks decided are those of the run of sections. */
    lemma SectionsAreOrderly()
      requires Standing()
      ensures Orderly(sections, Model(), Sections(sections).1)
    {
      CallbacksAreConsecutive(sections);
    }

    /** The sink has heard everything before the play head, and nothing is leaked. */
    ghost predicate Logged()
      reads this`table, this`started, this`next, heap, audioSink
    {
      audioSink != null ==> heap.leaks == 0 && Expects(Model(), audioSink.calls)
    }

    /** What every turn of a single caller's loop keeps. */
    ghost predicate Ready()
      reads this`table, this`count, this`nextValid, this`started, this`nextFrameIndex, this`next, slots
      reads this`framePrev, this`prev, this`sections, heap, audioSink
    {
      Standing() && Owned({}) && Logged()
    }

    /** The audio calls of the stream, one after the other, explain the buffer and what the sink
        heard, or without a sink how many copies were leaked. */
    ghost predicate Explained()
      reads this`table, this`started, this`next, this`arrivals, this`lost, heap, audioSink
    {
      if audioSink != null then ExplainsCalls(arrivals, Model(), audioSink.calls)
      else heap.leaks >= lost && ExplainsLeaks(arrivals, Model(), heap.leaks - lost)
    }

    /** The receiver between two calls of a single caller. */
    ghost predicate Between()
      reads this`table, this`count, this`nextValid, this`started, this`nextFrameIndex, this`next, slots
      reads this`framePrev, this`prev, this`sections, this`arrivals, this`lost, heap, audioSink
    {
      Ready() && Explained() && (audioSink != null ==> audioSink != hapticsSink)
    }

    /** What every call keeps: while the startup flag holds, no packet index has wrapped. */
    ghost predicate Valid()
      reads this, slots, heap, audioSink
    {
      Between() && (peak.Some? ==> 0 <= peak.value && (startup ==> peak.value <= HALF))
    }

    constructor (heap: Heap, audioSink: Sink?, hapticsSink: Sink?)
      requires heap.Owes({}, {}) && (audioSink != null ==> audioSink != hapticsSink)
      requires audioSink != null ==> heap.leaks == 0 && audioSink.calls == []
      ensures Valid() && fresh(slots)
      ensures this.heap == heap && this.audioSink == audioSink && this.hapticsSink == hapticsSink
      ensures Model() == EMPTY && startup && prev == 0 && peak == None && arrivals == []
    {
      this.heap, this.audioSink, this.hapticsSink := heap, audioSink, hapticsSink;
      framePrev, nextFrameIndex, nextValid, started, startup := 0, 0, false, false, true;
      next, prev, peak, sections, arrivals, lost := 0, 0, None, [], [], heap.leaks;
      count := 0;
      slots := new Slot[CAPACITY](_ => FREE);
      table := seq(CAPACITY, _ => FREE);
      new;
      AllFree(CAPACITY);
    }

    method FindSlot(frameIndex: Seq16, ghost u: int) returns (slot: int)
      requires Indexed() && frameIndex == Wrap(u)
      requires Around(Frames(table).Keys, u)
      ensures u in Frames(table) ==> 0 <= slot < CAPACITY && slots[slot].occupied && slots[slot].index == u
      ensures u !in Frames(table) ==> slot == -1
    {
      for i := 0 to CAPACITY
        invariant forall k :: 0 <= k < i && slots[k].occupied ==> slots[k].frameIndex != frameIndex
      {
        if slots[i].occupied && slots[i].frameIndex == frameIndex {
          Member(table, i);
          NearIsFaithful(u, slots[i].index);
          return i;
        }
      }
      if u in Frames(table) {
        ghost var i := Locate(table, u);
        Member(table, i);
      }
      return -1;
    }

    /** The scan finds the true minimum: within the window the 16-bit order is the unbounded one. */
    method FindOldest() returns (oldest: int)
      requires Indexed()
      ensures Frames(table) == map[] ==> oldest == -1
      ensures Frames(table) != map[] ==>
        0 <= oldest < CAPACITY && slots[oldest].occupied && slots[oldest].index == Oldest(Frames(table).Keys)
    {
      oldest := -1;
      for i := 0 to CAPACITY
        invariant -1 <= oldest < CAPACITY && (oldest >= 0 ==> slots[oldest].occupied)
        invariant forall k :: 0 <= k < i && slots[k].occupied ==> oldest >= 0 && slots[oldest].index <= slots[k].index
      {
        if slots[i].occupied {
          Member(table, i);
          if oldest >= 0 {
            Member(table, oldest);
            NearIsFaithful(slots[i].index, slots[oldest].index);
          }
          if oldest < 0 || Lt(slots[i].frameIndex, slots[oldest].frameIndex) {
            oldest := i;
          }
        }
      }
      if Frames(table) != map[] {
        ghost var k := Locate(table, Oldest(Frames(table).Keys));
        Member(table, oldest);
      } else if oldest >= 0 {
        Member(table, oldest);
      }
    }

    method FindNewest() returns (newest: int)
      requires Indexed()
      ensures Frames(table) == map[] ==> newest == -1
      ensures Frames(table) != map[] ==>
        0 <= newest < CAPACITY && slots[newest].occupied && slots[newest].index == Newest(Frames(table).Keys)
    {
      newest := -1;
      for i := 0 to CAPACITY
        invariant -1 <= newest < CAPACITY && (newest >= 0 ==> slots[newest].occupied)
        invariant forall k :: 0 <= k < i && slots[k].occupied ==> newest >= 0 && slots[newest].index >= slots[k].index
      {
        if slots[i].occupied {
          Member(table, i);
          if newest >= 0 {
            Member(table, newest);
            NearIsFaithful(slots[i].index, slots[newest].index);
          }
          if newest < 0 || Gt(slots[i].frameIndex, slots[newest].frameIndex) {
            newest := i;
          }
        }
      }
      if Frames(table) != map[] {
        ghost var k := Locate(table, Newest(Frames(table).Keys));
        Member(table, newest);
      } else if newest >= 0 {
        Member(table, newest);
      }
    }

    method FindFree() returns (free: int)
      requires Indexed()
      ensures if |Frames(table)| < CAPACITY then 0 <= free < CAPACITY && !slots[free].occupied else free == -1
    {
      CountIsSize(table);
      for i := 0 to CAPACITY
        invariant forall k :: 0 <= k < i ==> slots[k].occupied
      {
        if !slots[i].occupied {
          return i;
        }
      }
      assert forall k :: 0 <= k < CAPACITY ==> table[k].occupied;
      return -1;
    }

    /** Empties a slot and hands its copy to the caller. */
    method Vacate(slot: nat, ghost away: set<nat>) returns (out: Buf)
      requires Indexed() && Owned(away)
      requires slot < CAPACITY && slots[slot].occupied
      modifies this`count, this`table, slots
      ensures Indexed() && OwnedBut(out, away) && !slots[slot].occupied
      ensures var frames := old(Frames(table)); var u := old(slots[slot].index);
        && u in frames && frames[u] == BytesOf(out)
        && Frames(table) == frames - {u}
      ensures out.Block? <==> BytesOf(out) != []
    {
      out := slots[slot].buf;
      Member(table, slot);
      slots[slot] := slots[slot].(occupied := false, buf := Null);
      Without(table, slot, slots[slot]);
      count := count - 1;
      table := table[slot := slots[slot]];
    }

    /** Copies the bytes into a free slot; an empty frame needs no allocation. */
    method Occupy(slot: nat, frameIndex: Seq16, bytes: Bytes, copied: bool, ghost u: int, ghost away: set<nat>)
      returns (ok: bool)
      requires Indexed() && Owned(away)
      requires slot < CAPACITY && !slots[slot].occupied
      requires frameIndex == Wrap(u) && u !in Frames(table) && InWindow(u) && (started ==> next <= u)
      modifies this`count, this`table, heap`fates, heap`allocations, slots
      ensures Indexed() && Owned(away)
      ensures (Frames(table), ok) == JitterSpec.Fill(old(Frames(table)), Arrival(u, bytes, copied))
    {
      var copy := Null;
      if |bytes| > 0 {
        if !copied {
          return false;
        }
        copy := heap.Malloc(bytes, Copies(table), away);
      }
      slots[slot] := Slot(true, frameIndex, copy, u);
      count := count + 1;
      With(table, slot, slots[slot]);
      table := table[slot := slots[slot]];
      return true;
    }

    method StoreFrame(frameIndex: Seq16, bytes: Bytes, copied: bool, ghost u: int, ghost away: set<nat>)
      returns (ok: bool)
      requires Indexed() && Owned(away)
      requires frameIndex == Wrap(u) && InWindow(u) && (started ==> next <= u)
      modifies this`count, this`table, heap`fates, heap`allocations, slots
      ensures Indexed() && Owned(away)
      ensures (Frames(table), ok) == Store(old(Frames(table)), Arrival(u, bytes, copied))
    {
      var duplicate := FindSlot(frameIndex, u);
      if duplicate >= 0 {
        return false;
      }
      var free := FindFree();
      if free < 0 {
        var newest := FindNewest();
        if newest >= 0 {
          Member(table, newest);
          NearIsFaithful(u, slots[newest].index);
        }
        if newest < 0 || !Lt(frameIndex, slots[newest].frameIndex) {
          return false;
        }
        var evicted := Vacate(newest, away);
        heap.Free(evicted, Copies(table), away);
        free := newest;
      }
      ok := Occupy(free, frameIndex, bytes, copied, u, away);
    }

    method BeginPlayback()
      requires Indexed()
      modifies this`started, this`nextValid, this`nextFrameIndex, this`next
      ensures Indexed() && Model() == Begin(old(Model()))
      ensures old(started) ==> next == old(next)
    {
      CountIsSize(table);
      if !started && count >= PREFILL {
        var oldest := FindOldest();
        if oldest >= 0 {
          Member(table, oldest);
          next := slots[oldest].index;
          nextFrameIndex := slots[oldest].frameIndex;
          nextValid := true;
          started := true;
        }
      }
    }

    /** Hands over the frame that is due, conceals it, or does nothing. */
    method PlayNext(ghost away: set<nat>) returns (due: bool, out: Buf)
      requires Indexed() && Owned(away)
      modifies this`framePrev, this`prev, this`nextFrameIndex, this`next, this`count, this`table, slots
      ensures Indexed() && OwnedBut(out, away)
      ensures var (after, cb) := Advance(old(Model()));
        && Model() == after
        && due == cb.Some?
        && BytesOf(out) == (if cb.Some? then cb.value.bytes else [])
      ensures if due then prev == old(next) && framePrev == Wrap(prev) && next == prev + 1
              else prev == old(prev) && framePrev == old(framePrev) && next == old(next)
      ensures (out.Block? <==> BytesOf(out) != []) && (!due ==> out == Null)
    {
      hide Frames, Copies, Oldest, Newest, CanConceal, Ahead, Close, Count;
      due, out := false, Null;
      if started && nextValid {
        due, out := TakeDue(away);
        if due {
          MoveHead();
        }
      }
    }

    /** Takes the frame at the play head out of its slot, or else decides whether to conceal it. */
    method TakeDue(ghost away: set<nat>) returns (due: bool, out: Buf)
      requires Indexed() && Owned(away) && started
      modifies this`count, this`table, slots
      ensures Indexed() && OwnedBut(out, away)
      ensures var frames := old(Frames(table));
        && due == (next in frames || (frames != map[] && CanConceal(frames, next)))
        && Frames(table) == (if due then frames - {next} else frames)
        && BytesOf(out) == (if next in frames then frames[next] else [])
      ensures (out.Block? <==> BytesOf(out) != []) && (!due ==> out == Null)
    {
      hide Frames, Copies, Oldest, Newest, CanConceal, Close;
      due, out := false, Null;
      CountIsSize(table);
      var slot := FindSlot(nextFrameIndex, next);
      if slot >= 0 {
        out := Vacate(slot, away);
        due := true;
      } else if count > 0 {
        due := MayConceal();
      }
    }

    method MoveHead()
      requires Indexed() && started && next !in Frames(table)
      modifies this`framePrev, this`prev, this`nextFrameIndex, this`next
      ensures Indexed() && prev == old(next) && framePrev == Wrap(prev) && next == prev + 1
    {
      framePrev, prev := nextFrameIndex, next;
      WrapAdds(next, 1);
      nextFrameIndex, next := Wrap(nextFrameIndex + 1), next + 1;
    }

    method MayConceal() returns (conceal: bool)
      requires Indexed() && started && count > 0
      requires next !in Frames(table)
      ensures conceal == CanConceal(Frames(table), next)
    {
      CountIsSize(table);
      var oldest := FindOldest();
      var newest := FindNewest();
      Member(table, oldest);
      Member(table, newest);
      NearIsFaithful(slots[oldest].index, next);
      NearIsFaithful(slots[newest].index, next + PREFILL - 1);
      WrapAdds(next, PREFILL);
      WrapAdds(next + PREFILL, -1);
      conceal := false;
      if oldest >= 0 && Gt(slots[oldest].frameIndex, nextFrameIndex) && newest >= 0 {
        if count >= PREFILL {
          var lookahead: int := Wrap(nextFrameIndex + PREFILL);
          conceal := Gt(slots[newest].frameIndex, Wrap(lookahead - 1));
        } else {
          conceal := true;
        }
      }
    }

    /** Refuses a frame that is already due, and stores any other. */
    method Accept(offer: Offer, ghost a: Arrival, ghost away: set<nat>) returns (stored: bool)
      requires Indexed() && Owned(away) && Stands(Some(offer), Some(a)) && InWindow(a.index)
      modifies this`count, this`table, heap`fates, heap`allocations, slots
      ensures Indexed() && Owned(away)
      ensures (Frames(table), stored) == if Late(old(Model()), a) then (old(Frames(table)), false)
                                             else Store(old(Frames(table)), a)
    {
      if nextValid {
        NearIsFaithful(a.index, next);
      }
      if nextValid && Lt(offer.frameIndex, nextFrameIndex) {
        return false;
      }
      stored := StoreFrame(offer.frameIndex, offer.bytes, offer.copied, a.index, away);
      assert a == Arrival(a.index, offer.bytes, offer.copied);
    }

    method Play(ghost away: set<nat>) returns (due: bool, out: Buf)
      requires Indexed() && Owned(away) && framePrev == Wrap(prev)
      modifies this`framePrev, this`prev, this`nextFrameIndex, this`next, this`nextValid, this`started
      modifies this`count, this`table, slots
      ensures Indexed() && OwnedBut(out, away) && framePrev == Wrap(prev)
      ensures (Model(), if due then Some(Callback(prev, BytesOf(out))) else None) == Advance(Begin(old(Model())))
      ensures (out.Block? <==> BytesOf(out) != []) && (!due ==> out == Null)
    {
      BeginPlayback();
      due, out := PlayNext(away);
    }

    /** What is done under the mutex, on the audio path. */
    method UnderMutex(offer: Option<Offer>, ghost a: Option<Arrival>, ghost away: set<nat>)
      returns (due: bool, out: Buf)
      requires Indexed() && Owned(away) && framePrev == Wrap(prev)
      requires Stands(offer, a) && (a.Some? ==> InWindow(a.value.index))
      modifies this`framePrev, this`prev, this`nextFrameIndex, this`next, this`nextValid, this`started
      modifies this`count, this`table, heap`fates, heap`allocations, slots
      ensures Indexed() && OwnedBut(out, away) && framePrev == Wrap(prev)
      ensures (Model(), if due then Some(Callback(prev, BytesOf(out))) else None) == Section(old(Model()), a)
      ensures (out.Block? <==> BytesOf(out) != []) && (!due ==> out == Null)
    {
      ghost var before := Model();
      due, out := false, Null;
      var goOn := true;
      if offer.Some? {
        goOn := Accept(offer.value, a.value, away);
      }
      assert Admits(before, a, Model(), goOn);
      SectionInTwo(before, a, Model(), goOn);
      if goOn {
        due, out := Play(away);
      }
    }

    /** One locked section, entered while other callers may hold the copies in `away` and may not yet
        have called the sink. The copy it takes out, if any, joins those in the callers' hands. */
    method AudioSection(offer: Option<Offer>, ghost a: Option<Arrival>, ghost away: set<nat>)
      returns (due: bool, out: Buf)
      requires Standing() && Owned(away)
      requires Stands(offer, a) && (a.Some? ==> InWindow(a.value.index))
      modifies this`framePrev, this`prev, this`nextFrameIndex, this`next, this`nextValid, this`started
      modifies this`count, this`table, this`sections, heap`fates, heap`allocations, slots
      ensures Standing() && Owned(away + Ids(out)) && (out.Block? ==> out.id !in away)
      ensures (Model(), if due then Some(Callback(prev, BytesOf(out))) else None) == Section(old(Model()), a)
      ensures sections == old(sections) + [a]
      ensures Sections(sections).1 == old(Sections(sections).1) + if due then [Callback(prev, BytesOf(out))] else []
      ensures (out.Block? <==> BytesOf(out) != []) && (!due ==> out == Null)
    {
      hide Sections, Section, Frames, Copies;
      SectionPhase(Model(), a);
      SectionsGrow(sections, a);
      due, out := UnderMutex(offer, a, away);
      heap.HandedOut(Copies(table), away, out);
      sections := sections + [a];
    }

    /** What a caller does after a section, without the mutex: the sink call for index k and the
        release of the copy it was given. Without a sink the copy is lost. */
    method Deliver(due: bool, out: Buf, ghost k: int, ghost away: set<nat>) returns (more: bool)
      requires Owned(away + Ids(out)) && (out.Block? ==> out.id !in away) && (!due ==> out == Null)
      modifies heap`fates, heap`leaks, audioSink
      ensures Owned(away)
      ensures more == (due && audioSink != null)
      ensures audioSink != null ==>
        audioSink.calls == old(audioSink.calls) + (if due then [Callback(k, BytesOf(out))] else [])
      ensures audioSink != null ==> heap.leaks == old(heap.leaks)
      ensures audioSink == null ==> (heap.leaks == old(heap.leaks) + if out.Null? then 0 else 1)
    {
      heap.InHand(Copies(table), away, out);
      more := due && audioSink != null;
      if more {
        audioSink.calls := audioSink.calls + [Callback(k, BytesOf(out))];
        heap.Free(out, Copies(table), away);
      } else {
        heap.Leak(out, Copies(table), away);
      }
    }

    /** One turn of a single caller's loop. */
    method Turn(offer: Option<Offer>, ghost a: Option<Arrival>) returns (more: bool)
      requires Ready() && Stands(offer, a) && (a.Some? ==> InWindow(a.value.index))
      modifies this`framePrev, this`prev, this`nextFrameIndex, this`next, this`nextValid, this`started
      modifies this`count, this`table, this`sections, heap, slots, audioSink
      ensures Ready()
      ensures var (after, cb) := Section(old(Model()), a);
        && Model() == after
        && more == (audioSink != null && cb.Some?)
        && (audioSink != null ==> audioSink.calls == After(old(audioSink.calls), cb))
        && (audioSink == null ==> heap.leaks == old(heap.leaks) + Sounds(cb))
    {
      hide Sections, Section, Store, Advance, Begin, Frames, Copies, EndsAt;
      if audioSink != null {
        SectionExpects(Model(), a, audioSink.calls);
      }
      var due, out := AudioSection(offer, a, {});
      more := Deliver(due, out, prev, {});
    }

    /** The turns after the first, until one makes no callback. */
    method LaterTurns(first: bool, ghost goal: Jitter, ghost all: seq<Callback>)
      requires Ready()
      requires if audioSink != null then Awaits(Model(), first, audioSink.calls, goal, all) else !first
      modifies this`framePrev, this`prev, this`nextFrameIndex, this`next, this`nextValid, this`started
      modifies this`count, this`table, this`sections, heap, slots, audioSink
      ensures Ready()
      ensures audioSink != null ==> Model() == goal && audioSink.calls == all
      ensures audioSink == null ==> Model() == old(Model()) && heap.leaks == old(heap.leaks)
    {
      var more := first;
      while more
        invariant Ready()
        invariant audioSink != null ==> Awaits(Model(), more, audioSink.calls, goal, all)
        invariant audioSink == null ==> !more && Model() == old(Model()) && heap.leaks == old(heap.leaks)
        decreases Remaining(Model()), more
      {
        TurnAwaits(Model(), audioSink.calls, goal, all);
        more := Turn(None, None);
      }
    }

    /** The receive loop: the first turn consumes the buffer, the others run without one. */
    method AudioFrame(offer: Offer, ghost a: Arrival)
      requires Ready() && Stands(Some(offer), Some(a)) && InWindow(a.index)
      modifies this`framePrev, this`prev, this`nextFrameIndex, this`next, this`nextValid, this`started
      modifies this`count, this`table, this`sections, heap, slots, audioSink
      ensures Ready()
      ensures audioSink != null ==>
        Model() == Call(old(Model()), a).0 && audioSink.calls == old(audioSink.calls) + Call(old(Model()), a).1
      ensures audioSink == null ==>
        var (after, cb) := Section(old(Model()), Some(a));
        Model() == after && heap.leaks == old(heap.leaks) + Sounds(cb)
    {
      ghost var (goal, played) := Call(Model(), a);
      ghost var all := if audioSink != null then audioSink.calls + played else [];
      if audioSink != null {
        CallAwaits(Model(), a, audioSink.calls);
      }
      var more := Turn(Some(offer), Some(a));
      LaterTurns(more, goal, all);
    }

    /** Haptics are not buffered: a frame goes out at once if it is newer than all before it. */
    method HapticsFrame(frameIndex: Seq16, bytes: Bytes, ghost u: int)
      requires framePrev == Wrap(prev) && frameIndex == Wrap(u) && Near(u, prev)
      modifies this`framePrev, this`prev, hapticsSink
      ensures framePrev == Wrap(prev) && prev == (if u > old(prev) then u else old(prev))
      ensures hapticsSink != null ==>
        hapticsSink.calls == old(hapticsSink.calls) + (if u > old(prev) then [Callback(u, bytes)] else [])
    {
      NearIsFaithful(u, prev);
      if Gt(frameIndex, framePrev) {
        framePrev, prev := frameIndex, u;
        if hapticsSink != null {
          hapticsSink.calls := hapticsSink.calls + [Callback(u, bytes)];
        }
      }
    }

    /** One call with one frame. What the sink hears of an audio frame follows from Valid: the calls of
        the stream, this one included, explain the whole log. */
    method Frame(frameIndex: Seq16, isHaptics: bool, bytes: Bytes, copied: bool, ghost u: int)
      requires Valid() && frameIndex == Wrap(u)
      requires if isHaptics then Near(u, prev) else InWindow(u)
      modifies this`framePrev, this`prev, this`nextFrameIndex, this`next, this`nextValid, this`started
      modifies this`count, this`table, this`sections, this`arrivals, heap, slots, audioSink, hapticsSink
      ensures Valid()
      ensures isHaptics ==>
        && Model() == old(Model()) && (audioSink != null ==> audioSink.calls == old(audioSink.calls))
        && arrivals == old(arrivals)
        && prev == (if u > old(prev) then u else old(prev))
        && (hapticsSink != null ==>
              hapticsSink.calls == old(hapticsSink.calls) + (if u > old(prev) then [Callback(u, bytes)] else []))
      ensures !isHaptics ==> arrivals == old(arrivals) + [Arrival(u, bytes, copied)]
      ensures !isHaptics ==>
        Model() == Answer(audioSink != null, old(Model()), Arrival(u, bytes, copied))
    {
      hide Between, Section, Call;
      if isHaptics {
        HapticsCall(frameIndex, bytes, u);
      } else {
        AudioCall(Offer(frameIndex, bytes, copied), Arrival(u, bytes, copied));
      }
    }

    method HapticsCall(frameIndex: Seq16, bytes: Bytes, ghost u: int)
      requires Between() && frameIndex == Wrap(u) && Near(u, prev)
      modifies this`framePrev, this`prev, hapticsSink
      ensures Between() && prev == (if u > old(prev) then u else old(prev))
      ensures audioSink != null ==> audioSink.calls == old(audioSink.calls)
      ensures hapticsSink != null ==>
        hapticsSink.calls == old(hapticsSink.calls) + (if u > old(prev) then [Callback(u, bytes)] else [])
    {
      hide Frames, Copies, Calls, Sections, EndsAt;
      HapticsFrame(frameIndex, bytes, u);
    }

    method AudioCall(offer: Offer, ghost a: Arrival)
      requires Between() && Stands(Some(offer), Some(a)) && InWindow(a.index)
      modifies this`framePrev, this`prev, this`nextFrameIndex, this`next, this`nextValid, this`started
      modifies this`count, this`table, this`sections, this`arrivals, heap, slots, audioSink
      ensures Between() && arrivals == old(arrivals) + [a]
      ensures Model() == Answer(audioSink != null, old(Model()), a)
    {
      hide Section, Call, Calls, Sections, Firsts, Sounding, Frames, Copies, EndsAt;
      if audioSink != null {
        OneMoreCall(arrivals, a);
      } else {
        OneMoreTurn(arrivals, a);
      }
      AudioFrame(offer, a);
      arrivals := arrivals + [a];
    }

    /** The whole stream, told from the calls alone. */
    lemma StreamIsHeard()
      requires Valid() && audioSink != null
      ensures Outcome(Copied(arrivals), Model(), audioSink.calls)
    {
      FailedCopiesAreSilent(arrivals);
      ListenerHears(Copied(arrivals));
    }

    /** Releases every buffered copy. */
    method ClearJitterBuffer(ghost away: set<nat>)
      requires Mirrored() && Owned(away)
      modifies this`count, this`table, heap`fates, slots
      ensures Mirrored() && Frames(table) == map[] && count == Count(table) == 0
      ensures heap.Owes({}, away) && Copies(table) == {}
    {
      for i := 0 to CAPACITY
        invariant Mirrored()
        invariant forall k :: 0 <= k < i ==> !table[k].occupied
        invariant Owned(away)
      {
        Vacated(table, i);
        heap.Free(slots[i].buf, Copies(table[i := slots[i].(occupied := false, buf := Null)]), away);
        slots[i] := slots[i].(occupied := false, buf := Null);
        table := table[i := slots[i]];
      }
      count := 0;
      NoneOccupied(table);
    }

    method Reset()
      requires Mirrored() && Owned({})
      requires audioSink != null ==> heap.leaks == 0 && audioSink.calls == [] && audioSink != hapticsSink
      modifies this`framePrev, this`prev, this`nextFrameIndex, this`next, this`nextValid, this`started
      modifies this`startup, this`peak, this`count, this`table, this`sections, this`arrivals, this`lost
      modifies heap`fates, slots
      ensures Valid() && Model() == EMPTY && startup && prev == 0 && peak == None && arrivals == []
      ensures heap.Owes({}, {})
    {
      hide Frames, Copies, Count, Mirrored, Indexed, ExplainsCalls, ExplainsLeaks, EndsAt;
      ClearJitterBuffer({});
      Rewind();
      NewEpoch();
      NothingYet();
    }

    method NewEpoch()
      modifies this`startup, this`peak, this`sections, this`arrivals, this`lost
      ensures startup && peak == None && sections == [] && arrivals == [] && lost == heap.leaks
    {
      startup, peak, sections, arrivals, lost := true, None, [], [], heap.leaks;
    }

    /** The play head of a receiver that has heard nothing, over an empty buffer. */
    method Rewind()
      requires Mirrored() && Frames(table) == map[] && count == Count(table)
      modifies this`framePrev, this`prev, this`nextFrameIndex, this`next, this`nextValid, this`started
      ensures Indexed() && framePrev == Wrap(prev) && Model() == EMPTY && prev == 0
    {
      hide Frames, Copies, Count, Mirrored, Ahead;
      WrapZero();
      assert Frames(table).Keys == {};
      assert Close(Frames(table).Keys);
      framePrev, nextFrameIndex, nextValid, started := 0, 0, false, false;
      next, prev := 0, 0;
    }

    /** A new stream: everything is reset, every copy is released, and the sink is given the new header. */
    method StreamInfo()
      requires Valid()
      modifies this, heap`fates, slots, audioSink
      ensures Valid() && Model() == EMPTY && startup && prev == 0 && peak == None && arrivals == []
      ensures heap.Owes({}, {})
      ensures audioSink != null ==> audioSink.calls == []
    {
      if audioSink != null {
        audioSink.calls := [];
      }
      Reset();
    }

    /** The new index is within the serial window of everything it is compared with. */
    ghost predicate InWindow(u: int)
      reads this`table, this`started, this`next
    {
      && Around(Frames(table).Keys, u)
      && (started ==> Near(u, next))
    }
  }

  /** The 16-bit offer stands for the unbounded arrival. */
  ghost predicate Stands(offer: Option<Offer>, a: Option<Arrival>) {
    match offer
    case None => a.None?
    case Some(o) => a.Some? && a.value.bytes == o.bytes && a.value.copied == o.copied
                    && o.frameIndex == Wrap(a.value.index)
  }

  ghost predicate EndsAt(calls: seq<Callback>, next: int) {
    forall i :: 0 <= i < |calls| ==> calls[i].index == next - |calls| + i
  }

  /** A log that ends just before the play head; nothing is heard before playback starts. */
  ghost predicate Expects(j: Jitter, calls: seq<Callback>) {
    match j.phase
    case Prefill => calls == []
    case Playing(next) => EndsAt(calls, next)
  }

  lemma SectionExpects(j: Jitter, offer: Option<Arrival>, calls: seq<Callback>)
    requires WellFormed(j) && Expects(j, calls)
    ensures var (k, cb) := Section(j, offer); Expects(k, After(calls, cb))
  {
    SectionPhase(j, offer);
  }

  lemma NothingYet()
    ensures ExplainsCalls([], EMPTY, []) && ExplainsLeaks([], EMPTY, 0)
  {
  }

  ghost predicate ExplainsCalls(arrivals: seq<Arrival>, j: Jitter, calls: seq<Callback>) {
    Settled(j) && (j, calls) == Calls(EMPTY, arrivals)
  }

  lemma OneMoreCall(arrivals: seq<Arrival>, a: Arrival)
    ensures var (j, out) := Calls(EMPTY, arrivals);
      ExplainsCalls(arrivals + [a], Call(j, a).0, out + Call(j, a).1)
  {
    var (j, out) := Calls(EMPTY, arrivals);
    CallsGrow(arrivals, a);
    CallSettles(j, a);
  }

  ghost predicate ExplainsLeaks(arrivals: seq<Arrival>, j: Jitter, leaks: nat) {
    var (k, out) := Sections(Firsts(arrivals));
    j == k && leaks == Sounding(out)
  }

  function Sounds(cb: Option<Callback>): nat {
    if cb.Some? && cb.value.bytes != [] then 1 else 0
  }

  lemma OneMoreTurn(arrivals: seq<Arrival>, a: Arrival)
    ensures var (j, out) := Sections(Firsts(arrivals));
      var (k, cb) := Section(j, Some(a));
      ExplainsLeaks(arrivals + [a], k, Sounding(out) + Sounds(cb))
  {
    FirstsGrow(arrivals, a);
    SectionsGrow(Firsts(arrivals), Some(a));
    var (j, out) := Sections(Firsts(arrivals));
    var cb := Section(j, Some(a)).1;
    if cb.Some? {
      SoundingGrows(out, cb.value);
    }
  }

  /** What is left of a call: nothing, or what the remaining turns will play. */
  ghost predicate Awaits(j: Jitter, more: bool, calls: seq<Callback>, goal: Jitter, all: seq<Callback>) {
    WellFormed(j) && if more then Drain(j).0 == goal && calls + Drain(j).1 == all else j == goal && calls == all
  }

  /** The state in which a call leaves the model: after its whole loop, or after one section without a sink. */
  ghost function Answer(sink: bool, j: Jitter, a: Arrival): Jitter
    requires WellFormed(j)
  {
    if sink then Call(j, a).0 else Section(j, Some(a)).0
  }

  function After(calls: seq<Callback>, cb: Option<Callback>): seq<Callback> {
    calls + (if cb.Some? then [cb.value] else [])
  }

  lemma CallAwaits(j: Jitter, a: Arrival, calls: seq<Callback>)
    requires WellFormed(j)
    ensures var (k, cb) := Section(j, Some(a));
      Awaits(k, cb.Some?, After(calls, cb), Call(j, a).0, calls + Call(j, a).1)
  {
    CallStep(j, a);
    var (k, cb) := Section(j, Some(a));
    AppendTwice(calls, cb, if cb.Some? then Drain(k).1 else []);
    assert calls + [] == calls;
  }

  lemma AppendTwice(calls: seq<Callback>, cb: Option<Callback>, rest: seq<Callback>)
    requires cb.None? ==> rest == []
    ensures After(calls, cb) + rest == calls + (if cb.None? then [] else [cb.value] + rest)
    ensures cb.None? ==> After(calls, cb) == calls
  {
  }

  lemma TurnAwaits(j: Jitter, calls: seq<Callback>, goal: Jitter, all: seq<Callback>)
    requires Awaits(j, true, calls, goal, all)
    ensures var (k, cb) := Section(j, None);
      && Awaits(k, cb.Some?, After(calls, cb), goal, all)
      && (cb.Some? ==> Remaining(k) < Remaining(j))
  {
    DrainStep(j);
    var (k, cb) := Section(j, None);
    AppendTwice(calls, cb, if cb.Some? then Drain(k).1 else []);
    assert calls + [] == calls;
  }

  ghost predicate Close(indices: set<int>) {
    forall u, v :: u in indices && v in indices ==> Near(u, v)
  }

  ghost predicate Around(indices: set<int>, u: int) {
    forall v :: v in indices ==> Near(u, v)
  }

  ghost predicate Ahead(indices: set<int>, next: int) {
    forall u :: u in indices ==> next <= u && Near(u, next)
  }
}
