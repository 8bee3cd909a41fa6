/**
  The audio jitter buffer over unbounded frame indices: what one locked section of the receive loop
  decides, what one whole call plays, and what a listener hears over any run of either.
  Module AudioReceiver proves that the 16-bit code computes exactly this.
  */
module JitterSpec {
  import opened Wrappers

  type Byte = b: int | 0 <= b < 256
  type Bytes = seq<Byte>

  const PREFILL: nat := 3
  const CAPACITY: nat := 8

  /** A frame handed to the receiver. `copied` is the outcome of the allocation of its copy. */
  datatype Arrival = Arrival(index: int, bytes: Bytes, copied: bool)

  /** A call of the audio sink; a NULL buffer of size 0 is the empty sequence. */
  datatype Callback = Callback(index: int, bytes: Bytes)

  datatype Phase = Prefill | Playing(next: int)

  datatype Jitter = Jitter(phase: Phase, frames: map<int, Bytes>)

  const EMPTY := Jitter(Prefill, map[])

  ghost predicate WellFormed(j: Jitter) {
    && |j.frames| <= CAPACITY
    && match j.phase
       case Prefill => |j.frames| < PREFILL
       case Playing(next) => forall u :: u in j.frames ==> next <= u
  }

  ghost predicate IsOldest(s: set<int>, m: int) {
    m in s && forall x :: x in s ==> m <= x
  }

  ghost predicate IsNewest(s: set<int>, m: int) {
    m in s && forall x :: x in s ==> x <= m
  }

  lemma {:induction false} OldestExists(s: set<int>)
    requires s != {}
    ensures exists m :: IsOldest(s, m)
    decreases |s|
  {
    var x := Choose(s);
    var rest := s - {x};
    if rest == {} {
      assert s == {x};
      assert IsOldest(s, x);
    } else {
      OldestExists(rest);
      var m :| IsOldest(rest, m);
      assert s == rest + {x};
      assert IsOldest(s, if x < m then x else m);
    }
  }

  lemma {:induction false} NewestExists(s: set<int>)
    requires s != {}
    ensures exists m :: IsNewest(s, m)
    decreases |s|
  {
    var x := Choose(s);
    var rest := s - {x};
    if rest == {} {
      assert s == {x};
      assert IsNewest(s, x);
    } else {
      NewestExists(rest);
      var m :| IsNewest(rest, m);
      assert s == rest + {x};
      assert IsNewest(s, if x > m then x else m);
    }
  }

  ghost function Oldest(s: set<int>): (m: int)
    ensures s != {} ==> IsOldest(s, m)
  {
    if s == {} then 0
    else
      OldestExists(s);
      var m :| IsOldest(s, m); m
  }

  ghost function Newest(s: set<int>): (m: int)
    ensures s != {} ==> IsNewest(s, m)
  {
    if s == {} then 0
    else
      NewestExists(s);
      var m :| IsNewest(s, m); m
  }

  // ---- One locked section ----

  predicate CopyFails(a: Arrival) {
    a.bytes != [] && !a.copied
  }

  /** Storing: duplicates are refused, a full buffer gives up its newest frame for an older one.
      An eviction is not undone when the copy then fails. */
  ghost function Store(frames: map<int, Bytes>, a: Arrival): (map<int, Bytes>, bool) {
    if a.index in frames then (frames, false)
    else if |frames| < CAPACITY then Fill(frames, a)
    else
      var newest := Newest(frames.Keys);
      if a.index < newest then Fill(frames - {newest}, a) else (frames, false)
  }

  ghost function Fill(frames: map<int, Bytes>, a: Arrival): (map<int, Bytes>, bool) {
    if CopyFails(a) then (frames, false) else (frames[a.index := a.bytes], true)
  }

  ghost function Begin(j: Jitter): Jitter {
    if j.phase.Prefill? && |j.frames| >= PREFILL then j.(phase := Playing(Oldest(j.frames.Keys))) else j
  }

  /** The lookahead test that guards a concealment. */
  ghost predicate CanConceal(frames: map<int, Bytes>, next: int) {
    && Oldest(frames.Keys) > next
    && (|frames| >= PREFILL ==> Newest(frames.Keys) > next + PREFILL - 1)
  }

  function Due(frames: map<int, Bytes>, k: int): Callback {
    Callback(k, if k in frames then frames[k] else [])
  }

  ghost function Advance(j: Jitter): (Jitter, Option<Callback>) {
    match j.phase
    case Prefill => (j, None)
    case Playing(next) =>
      if next in j.frames || (j.frames != map[] && CanConceal(j.frames, next))
      then (Jitter(Playing(next + 1), j.frames - {next}), Some(Due(j.frames, next)))
      else (j, None)
  }

  ghost predicate Late(j: Jitter, a: Arrival) {
    j.phase.Playing? && a.index < j.phase.next
  }

  /** A section with no offer is a later turn of the loop, after its buffer was consumed. */
  ghost function Section(j: Jitter, offer: Option<Arrival>): (Jitter, Option<Callback>) {
    match offer
    case None => Advance(Begin(j))
    case Some(a) =>
      if Late(j, a) then (j, None)
      else
        var (frames, stored) := Store(j.frames, a);
        if stored then Advance(Begin(j.(frames := frames))) else (j.(frames := frames), None)
  }

  /** What the first half of a section, which deals with the offer, leaves to the second. */
  ghost predicate Admits(j: Jitter, offer: Option<Arrival>, mid: Jitter, goOn: bool) {
    match offer
    case None => mid == j && goOn
    case Some(a) =>
      if Late(j, a) then mid == j && !goOn
      else mid == j.(frames := Store(j.frames, a).0) && goOn == Store(j.frames, a).1
  }

  lemma SectionInTwo(j: Jitter, offer: Option<Arrival>, mid: Jitter, goOn: bool)
    requires Admits(j, offer, mid, goOn)
    ensures Section(j, offer) == if goOn then Advance(Begin(mid)) else (mid, None)
  {
  }

  /** The store keeps the CAPACITY oldest indices of the old set and the new one. */
  lemma StoreKeepsOldest(frames: map<int, Bytes>, a: Arrival)
    requires |frames| <= CAPACITY
    requires !CopyFails(a)
    ensures var (after, stored) := Store(frames, a);
      var all := frames.Keys + {a.index};
      && after.Keys <= all
      && |after| == (if |all| < CAPACITY then |all| else CAPACITY)
      && (forall kept, gone :: kept in after && gone in all - after.Keys ==> kept < gone)
      && (forall u :: u in after && u in frames ==> after[u] == frames[u])
      && (stored <==> a.index in after && a.index !in frames)
      && (stored ==> after[a.index] == a.bytes)
  {
    var (after, stored) := Store(frames, a);
    var all := frames.Keys + {a.index};
    if a.index in frames {
      assert all == frames.Keys;
    } else {
      assert |all| == |frames.Keys| + 1;
      assert |frames.Keys| == |frames|;
      if |frames| < CAPACITY {
        assert after.Keys == all;
      } else {
        var newest := Newest(frames.Keys);
        if a.index < newest {
          assert (frames - {newest}).Keys == frames.Keys - {newest};
          assert after.Keys == all - {newest};
        } else {
          assert all - after.Keys == {a.index};
        }
      }
    }
  }

  /** A copy that fails is not stored, but the frame that a full buffer gave up for it is gone. */
  lemma FailedCopyStillEvicts(frames: map<int, Bytes>, a: Arrival, newest: int)
    requires CopyFails(a) && |frames| <= CAPACITY && (frames != map[] ==> IsNewest(frames.Keys, newest))
    ensures var evicts := a.index !in frames && |frames| == CAPACITY && a.index < newest;
      Store(frames, a) == (if evicts then frames - {newest} else frames, false)
  {
    if frames != map[] {
      assert Newest(frames.Keys) in frames.Keys && newest in frames.Keys;
      assert Newest(frames.Keys) == newest;
    }
  }

  lemma StoreBounds(frames: map<int, Bytes>, a: Arrival)
    requires |frames| <= CAPACITY
    ensures var (after, _) := Store(frames, a);
      && after.Keys <= frames.Keys + {a.index}
      && |after| <= CAPACITY
      && |after| <= |frames| + 1
      && (CopyFails(a) ==> |after| <= |frames|)
  {
    if !CopyFails(a) {
      StoreKeepsOldest(frames, a);
      assert |frames.Keys + {a.index}| <= |frames.Keys| + |{a.index}|;
    } else {
      var (after, _) := Store(frames, a);
      assert after.Keys <= frames.Keys;
      Subset(after.Keys, frames.Keys);
    }
  }

  lemma {:induction false} Subset<T>(a: set<T>, b: set<T>)
    requires a <= b
    ensures |a| <= |b|
  {
    assert b == a + (b - a);
    assert |b| == |a| + |b - a|;
  }

  lemma AdvanceKeepsWellFormed(j: Jitter)
    requires |j.frames| <= CAPACITY
    requires j.phase.Playing? ==> forall u :: u in j.frames ==> j.phase.next <= u
    ensures WellFormed(Advance(Begin(j)).0)
  {
    var b := Begin(j);
    var (after, _) := Advance(b);
    Subset(after.frames.Keys, j.frames.Keys);
  }

  lemma SectionKeepsWellFormed(j: Jitter, offer: Option<Arrival>)
    requires WellFormed(j)
    ensures WellFormed(Section(j, offer).0)
  {
    match offer
    case None => AdvanceKeepsWellFormed(j);
    case Some(a) =>
      if !Late(j, a) {
        StoreBounds(j.frames, a);
        var (frames, stored) := Store(j.frames, a);
        if stored {
          AdvanceKeepsWellFormed(j.(frames := frames));
        } else if j.phase.Prefill? {
          assert frames == j.frames;
        }
      }
  }

  /** A turn without an offer, in each of its cases: nothing before three frames are held; then the
      oldest of them; then whatever is due for as long as anything is held. */
  lemma TurnInWords(j: Jitter)
    requires WellFormed(j) || (j.phase.Prefill? && |j.frames| <= CAPACITY)
    ensures j.phase.Prefill? && |j.frames| < PREFILL ==> Section(j, None) == (j, None)
    ensures j.phase.Prefill? && |j.frames| >= PREFILL ==>
      exists u :: IsOldest(j.frames.Keys, u)
        && Section(j, None) == (Jitter(Playing(u + 1), j.frames - {u}), Some(Callback(u, j.frames[u])))
    ensures j.phase.Playing? && j.frames == map[] ==> Section(j, None) == (j, None)
    ensures j.phase.Playing? && j.frames != map[] ==>
      var next := j.phase.next;
      Section(j, None) == (Jitter(Playing(next + 1), j.frames - {next}),
                           Some(Callback(next, if next in j.frames then j.frames[next] else [])))
  {
    if j.phase.Playing? && j.frames != map[] {
      NonEmptyAlwaysPlays(j);
    }
    if j.phase.Prefill? && |j.frames| >= PREFILL {
      var u := Oldest(j.frames.Keys);
      assert j.frames.Keys != {};
      assert IsOldest(j.frames.Keys, u);
    }
  }

  /** A turn with an offer: a frame that does not get in ends the call without a callback, and one that
      does leaves the rest to a turn without an offer. */
  lemma OfferedTurnInWords(j: Jitter, a: Arrival)
    ensures j.phase.Playing? && a.index < j.phase.next ==> Section(j, Some(a)) == (j, None)
    ensures !(j.phase.Playing? && a.index < j.phase.next) ==>
      var (frames, stored) := Store(j.frames, a);
      Section(j, Some(a)) == if stored then Section(j.(frames := frames), None) else (j.(frames := frames), None)
  {
  }

  /** Three distinct indices above `next` leave the newest at `next + 3` or later. */
  lemma ThreeAhead(s: set<int>, next: int)
    requires |s| >= PREFILL
    requires forall u :: u in s ==> next < u
    ensures Newest(s) > next + PREFILL - 1
  {
    if Newest(s) <= next + PREFILL - 1 {
      forall u | u in s ensures u in {next + 1, next + 2} {
        assert u <= Newest(s);
      }
      assert s <= {next + 1, next + 2};
      Subset(s, {next + 1, next + 2});
    }
  }

  /** Progress: with playback started and frames held, a turn of the loop always makes a callback,
      for exactly the index that is due. */
  lemma NonEmptyAlwaysPlays(j: Jitter)
    requires WellFormed(j) && j.phase.Playing? && j.frames != map[]
    ensures var next := j.phase.next;
      Section(j, None) == (Jitter(Playing(next + 1), j.frames - {next}), Some(Due(j.frames, next)))
  {
    var next := j.phase.next;
    if next !in j.frames && |j.frames| >= PREFILL {
      ThreeAhead(j.frames.Keys, next);
    }
  }
}
