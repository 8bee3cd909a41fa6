/**
  Whole runs of the jitter buffer: any interleaving of locked sections, and the single-caller runs
  in which every call loops until it makes no callback.
  */
module JitterRuns {
  import opened Wrappers
  import opened JitterSpec

  // ---- Any interleaving of locked sections ----

  /** The state and the callbacks after the given sections, in the order the mutex admitted them. */
  ghost function Sections(offers: seq<Option<Arrival>>): (r: (Jitter, seq<Callback>))
    ensures WellFormed(r.0)
  {
    if offers == [] then (EMPTY, [])
    else
      var (j, out) := Sections(offers[..|offers| - 1]);
      SectionKeepsWellFormed(j, offers[|offers| - 1]);
      var (k, cb) := Section(j, offers[|offers| - 1]);
      (k, if cb.Some? then out + [cb.value] else out)
  }

  /** Some section offered these bytes under this index. */
  ghost predicate Offered(offers: seq<Option<Arrival>>, index: int, bytes: Bytes) {
    exists i :: 0 <= i < |offers| && offers[i].Some?
                && offers[i].value.index == index && offers[i].value.bytes == bytes
  }

  /** The frames a section looks at when it decides what to play. */
  ghost function Held(j: Jitter, offer: Option<Arrival>): map<int, Bytes> {
    match offer
    case None => j.frames
    case Some(a) => if Late(j, a) then j.frames else Store(j.frames, a).0
  }

  /** Which offers get in: one that is held already stays as it is; one that is new is held, with its
      own bytes, exactly if it is not behind the play head, its copy could be made, and there is room or
      something newer to give up. */
  lemma OfferIsHeld(j: Jitter, a: Arrival)
    requires WellFormed(j)
    ensures var held := Held(j, Some(a));
      && (a.index in j.frames ==> held == j.frames)
      && (a.index !in j.frames ==>
            (a.index in held <==>
             ((j.phase.Playing? ==> j.phase.next <= a.index)
              && (a.bytes == [] || a.copied)
              && (|j.frames| < CAPACITY || exists u :: u in j.frames && a.index < u))))
      && (a.index in held && a.index !in j.frames ==> held[a.index] == a.bytes)
      && (a.index in held && a.index !in j.frames && |j.frames| < CAPACITY ==> held == j.frames[a.index := a.bytes])
  {
    if |j.frames| >= CAPACITY {
      var newest := Newest(j.frames.Keys);
      assert newest in j.frames.Keys;
    }
  }

  /** One section, seen from outside: a callback is for the index that was due, playback starts with
      a callback, and everything played or kept was held. */
  ghost predicate SectionEffect(j: Jitter, held: map<int, Bytes>, k: Jitter, cb: Option<Callback>) {
    && (match cb
        case Some(c) => k.phase == Playing(c.index + 1)
                        && (j.phase.Playing? ==> j.phase.next == c.index)
                        && c == Due(held, c.index)
        case None => k.phase == j.phase)
    && (forall u :: u in k.frames ==> u in held && k.frames[u] == held[u])
  }

  lemma SectionHasEffect(j: Jitter, offer: Option<Arrival>)
    requires WellFormed(j)
    ensures SectionEffect(j, Held(j, offer), Section(j, offer).0, Section(j, offer).1)
  {
    if offer.Some? && !Late(j, offer.value) {
      StoreBounds(j.frames, offer.value);
    }
  }

  lemma SectionPhase(j: Jitter, offer: Option<Arrival>)
    requires WellFormed(j)
    ensures var (k, cb) := Section(j, offer);
      && WellFormed(k)
      && (cb.Some? ==> k.phase == Playing(cb.value.index + 1))
      && (cb.Some? && j.phase.Playing? ==> j.phase.next == cb.value.index)
      && (cb.None? ==> k.phase == j.phase)
  {
    SectionKeepsWellFormed(j, offer);
    SectionHasEffect(j, offer);
  }

  lemma HeldWasOffered(before: seq<Option<Arrival>>, j: Jitter, last: Option<Arrival>)
    requires AllOffered(before, j.frames)
    ensures AllOffered(before + [last], Held(j, last))
  {
    var offers := before + [last];
    forall u | u in Held(j, last) ensures Offered(offers, u, Held(j, last)[u]) {
      if u in j.frames && Held(j, last)[u] == j.frames[u] {
        StillOffered(before, last, u, j.frames[u]);
      } else {
        assert offers[|before|] == last;
      }
    }
  }

  lemma StillOffered(before: seq<Option<Arrival>>, last: Option<Arrival>, u: int, b: Bytes)
    requires Offered(before, u, b)
    ensures Offered(before + [last], u, b)
  {
    var i :| 0 <= i < |before| && before[i].Some? && before[i].value.index == u && before[i].value.bytes == b;
    assert (before + [last])[i] == before[i];
  }

  ghost predicate AllOffered(offers: seq<Option<Arrival>>, frames: map<int, Bytes>) {
    forall u :: u in frames ==> Offered(offers, u, frames[u])
  }

  /** Callback i came due in section n, and carries the bytes of the copy held for its index in that
      section, or none if no copy was held. */
  ghost predicate DueIn(offers: seq<Option<Arrival>>, n: nat, i: nat, c: Callback) {
    && n < |offers|
    && var (j, out) := Sections(offers[..n]);
       && |out| == i
       && (j.phase.Playing? ==> j.phase.next == c.index)
       && Section(j, offers[n]).1 == Some(c)
       && c == Due(Held(j, offers[n]), c.index)
  }

  ghost predicate CameDue(offers: seq<Option<Arrival>>, i: nat, c: Callback) {
    exists n: nat :: DueIn(offers, n, i, c)
  }

  /** The callbacks carry consecutive indices, and the play head is one past the last. */
  ghost predicate Consecutive(j: Jitter, out: seq<Callback>) {
    && (forall i :: 0 <= i < |out| ==> out[i].index == out[0].index + i)
    && j.phase == (if out == [] then Prefill else Playing(out[0].index + |out|))
  }

  /** Each callback carries exactly the copy held when it came due, and is silent exactly when none was. */
  ghost predicate Accounted(offers: seq<Option<Arrival>>, out: seq<Callback>) {
    forall i: nat :: i < |out| ==> CameDue(offers, i, out[i])
  }

  /** Every payload played or held was offered under the very index it is played for. */
  ghost predicate Sourced(offers: seq<Option<Arrival>>, j: Jitter, out: seq<Callback>) {
    && (forall i :: 0 <= i < |out| && out[i].bytes != [] ==> Offered(offers, out[i].index, out[i].bytes))
    && AllOffered(offers, j.frames)
  }

  ghost predicate Orderly(offers: seq<Option<Arrival>>, j: Jitter, out: seq<Callback>) {
    Consecutive(j, out) && Accounted(offers, out) && Sourced(offers, j, out)
  }

  lemma StillCameDue(before: seq<Option<Arrival>>, last: Option<Arrival>, i: nat, c: Callback)
    requires CameDue(before, i, c)
    ensures CameDue(before + [last], i, c)
  {
    var n: nat :| DueIn(before, n, i, c);
    assert (before + [last])[..n] == before[..n];
    assert DueIn(before + [last], n, i, c);
  }

  lemma LastCameDue(before: seq<Option<Arrival>>, last: Option<Arrival>)
    ensures var (j, out) := Sections(before);
      var cb := Section(j, last).1;
      cb.Some? ==> CameDue(before + [last], |out|, cb.value)
  {
    var (j, out) := Sections(before);
    SectionHasEffect(j, last);
    var cb := Section(j, last).1;
    if cb.Some? {
      assert (before + [last])[..|before|] == before;
      assert DueIn(before + [last], |before|, |out|, cb.value);
    }
  }

  /** One more section, as a step of the run. */
  lemma SectionsGrow(before: seq<Option<Arrival>>, last: Option<Arrival>)
    ensures var (j, out) := Sections(before);
      var (k, cb) := Section(j, last);
      Sections(before + [last]) == (k, if cb.Some? then out + [cb.value] else out)
  {
    assert (before + [last])[..|before|] == before;
  }

  /** Over every run of sections, in whatever order the callers interleave, the callbacks are exactly
      consecutive unbounded indices: none is skipped, none is heard twice, none carries another's
      bytes, and none is silent although a copy of it was held when it came due. */
  lemma {:induction false} CallbacksAreConsecutive(offers: seq<Option<Arrival>>)
    ensures Orderly(offers, Sections(offers).0, Sections(offers).1)
  {
    if offers != [] {
      var before, last := offers[..|offers| - 1], offers[|offers| - 1];
      assert offers == before + [last];
      CallbacksAreConsecutive(before);
      var (j, out) := Sections(before);
      var (k, cb) := Section(j, last);
      OneMoreSection(before, last, j, out, k, cb);
      SectionsGrow(before, last);
    }
  }

  lemma OneMoreSection(before: seq<Option<Arrival>>, last: Option<Arrival>, j: Jitter, out: seq<Callback>,
                       k: Jitter, cb: Option<Callback>)
    requires Orderly(before, j, out) && (j, out) == Sections(before) && (k, cb) == Section(j, last)
    ensures Orderly(before + [last], k, if cb.Some? then out + [cb.value] else out)
  {
    SectionHasEffect(j, last);
    hide Section, Consecutive, Accounted, Sourced, CameDue, SectionEffect;
    HeldWasOffered(before, j, last) by {
      assert AllOffered(before, j.frames) by { SourcedFrames(before, j, out); }
    }
    LastCameDue(before, last);
    StillConsecutive(j, out, Held(j, last), k, cb);
    StillAccounted(before, last, out, cb);
    StillSourced(before, last, j, out, Held(j, last), k, cb);
  }

  lemma SourcedFrames(offers: seq<Option<Arrival>>, j: Jitter, out: seq<Callback>)
    requires Sourced(offers, j, out)
    ensures AllOffered(offers, j.frames)
  {
  }

  lemma StillConsecutive(j: Jitter, out: seq<Callback>, held: map<int, Bytes>, k: Jitter, cb: Option<Callback>)
    requires Consecutive(j, out) && SectionEffect(j, held, k, cb)
    ensures Consecutive(k, if cb.Some? then out + [cb.value] else out)
  {
  }

  lemma StillAccounted(before: seq<Option<Arrival>>, last: Option<Arrival>, out: seq<Callback>, cb: Option<Callback>)
    requires Accounted(before, out) && (cb.Some? ==> CameDue(before + [last], |out|, cb.value))
    ensures Accounted(before + [last], if cb.Some? then out + [cb.value] else out)
  {
    hide CameDue;
    forall i: nat | i < |out| ensures CameDue(before + [last], i, out[i]) {
      StillCameDue(before, last, i, out[i]);
    }
  }

  lemma StillSourced(before: seq<Option<Arrival>>, last: Option<Arrival>, j: Jitter, out: seq<Callback>,
                     held: map<int, Bytes>, k: Jitter, cb: Option<Callback>)
    requires Sourced(before, j, out) && SectionEffect(j, held, k, cb) && AllOffered(before + [last], held)
    ensures Sourced(before + [last], k, if cb.Some? then out + [cb.value] else out)
  {
    forall i | 0 <= i < |out| && out[i].bytes != [] ensures Offered(before + [last], out[i].index, out[i].bytes) {
      StillOffered(before, last, out[i].index, out[i].bytes);
    }
  }

  // ---- One whole call ----

  /** Turns of the loop left before the newest held frame has been played. */
  ghost function Remaining(j: Jitter): nat
    requires WellFormed(j)
  {
    if j.phase.Playing? && j.frames != map[] then Newest(j.frames.Keys) + 1 - j.phase.next else 0
  }

  lemma SectionShrinks(j: Jitter)
    requires WellFormed(j)
    ensures var (k, cb) := Section(j, None); WellFormed(k) && (cb.Some? ==> Remaining(k) < Remaining(j))
  {
    SectionKeepsWellFormed(j, None);
  }

  /** The loop after its first section: sections without an offer until one makes no callback. */
  ghost function Drain(j: Jitter): (Jitter, seq<Callback>)
    requires WellFormed(j)
    decreases Remaining(j)
  {
    SectionShrinks(j);
    var (k, cb) := Section(j, None);
    if cb.None? then (k, [])
    else
      var (last, rest) := Drain(k);
      (last, [cb.value] + rest)
  }

  ghost function Call(j: Jitter, a: Arrival): (Jitter, seq<Callback>)
    requires WellFormed(j)
  {
    SectionKeepsWellFormed(j, Some(a));
    var (k, cb) := Section(j, Some(a));
    if cb.None? then (k, [])
    else
      var (last, rest) := Drain(k);
      (last, [cb.value] + rest)
  }

  lemma DrainStep(j: Jitter)
    requires WellFormed(j)
    ensures var (k, cb) := Section(j, None);
      && WellFormed(k)
      && Drain(j) == (if cb.None? then (k, []) else (Drain(k).0, [cb.value] + Drain(k).1))
      && (cb.Some? ==> Remaining(k) < Remaining(j))
  {
    SectionShrinks(j);
  }

  lemma CallStep(j: Jitter, a: Arrival)
    requires WellFormed(j)
    ensures var (k, cb) := Section(j, Some(a));
      && WellFormed(k)
      && Call(j, a) == (if cb.None? then (k, []) else (Drain(k).0, [cb.value] + Drain(k).1))
  {
    SectionKeepsWellFormed(j, Some(a));
  }

  /** What is heard for the indices from `lo` up to `hi`. */
  function Playout(frames: map<int, Bytes>, lo: int, hi: int): seq<Callback>
    requires lo <= hi
  {
    seq(hi - lo, i requires 0 <= i < hi - lo => Due(frames, lo + i))
  }

  lemma PlayoutStep(frames: map<int, Bytes>, lo: int, hi: int)
    requires lo < hi
    ensures Playout(frames, lo, hi) == [Due(frames, lo)] + Playout(frames - {lo}, lo + 1, hi)
  {
    var rest := Playout(frames - {lo}, lo + 1, hi);
    forall i | 0 <= i < hi - lo ensures Playout(frames, lo, hi)[i] == ([Due(frames, lo)] + rest)[i] {
      assert Playout(frames, lo, hi)[i] == Due(frames, lo + i);
      if i > 0 {
        assert rest[i - 1] == Due(frames - {lo}, lo + 1 + (i - 1));
      }
    }
  }

  lemma PlayoutExtends(frames: map<int, Bytes>, lo: int, mid: int, u: int, b: Bytes)
    requires lo <= mid <= u && forall k :: k in frames ==> k < mid
    ensures Playout(frames, lo, mid) + Playout(map[u := b], mid, u + 1) == Playout(frames[u := b], lo, u + 1)
  {
    var front, back := Playout(frames, lo, mid), Playout(map[u := b], mid, u + 1);
    forall i | 0 <= i < u + 1 - lo ensures (front + back)[i] == Playout(frames[u := b], lo, u + 1)[i] {
      if i < mid - lo {
        assert front[i] == Due(frames, lo + i);
      } else {
        assert back[i - (mid - lo)] == Due(map[u := b], lo + i);
      }
    }
  }

  /** The loop plays every index up to the newest held frame, conceals exactly the missing ones and
      leaves the buffer empty. */
  lemma {:induction false} DrainPlaysOut(j: Jitter)
    requires WellFormed(j) && j.phase.Playing? && j.frames != map[]
    ensures var newest := Newest(j.frames.Keys);
      && j.phase.next <= newest
      && Drain(j) == (Jitter(Playing(newest + 1), map[]), Playout(j.frames, j.phase.next, newest + 1))
    decreases Remaining(j)
  {
    NonEmptyAlwaysPlays(j);
    SectionShrinks(j);
    var next, newest := j.phase.next, Newest(j.frames.Keys);
    PlayoutStep(j.frames, next, newest + 1);
    var k := Jitter(Playing(next + 1), j.frames - {next});
    assert Drain(j) == (Drain(k).0, [Due(j.frames, next)] + Drain(k).1);
    if newest == next {
      assert k.frames == map[];
      assert Drain(k) == (k, []);
    } else {
      assert newest in k.frames;
      assert Newest(k.frames.Keys) == newest by { assert Newest(k.frames.Keys) in j.frames; }
      DrainPlaysOut(k);
    }
  }

  /** Any call that makes a callback plays everything held and returns with an empty buffer, whatever
      other callers had left in it. */
  lemma CallPlaysEverything(j: Jitter, a: Arrival)
    requires WellFormed(j) && Call(j, a).1 != []
    ensures var frames := Store(j.frames, a).0;
      var next := Begin(j.(frames := frames)).phase.next;
      && Begin(j.(frames := frames)).phase.Playing?
      && a.index in frames
      && next <= Newest(frames.Keys)
      && Call(j, a) == (Jitter(Playing(Newest(frames.Keys) + 1), map[]),
                        Playout(frames, next, Newest(frames.Keys) + 1))
  {
    StoreBounds(j.frames, a);
    var frames := Store(j.frames, a).0;
    var b := Begin(j.(frames := frames));
    DrainPlaysOut(b);
    assert Begin(b) == b;
    assert Section(b, None) == Section(j, Some(a));
    assert Drain(b) == Call(j, a);
  }

  // ---- Runs of a single caller ----

  /** The state in which a single caller always finds the receiver. */
  ghost predicate Settled(j: Jitter) {
    WellFormed(j) && (j.phase.Playing? ==> j.frames == map[])
  }

  ghost function Calls(j: Jitter, arrivals: seq<Arrival>): (r: (Jitter, seq<Callback>))
    requires Settled(j)
    ensures Settled(r.0)
  {
    if arrivals == [] then (j, [])
    else
      var (k, out) := Calls(j, arrivals[..|arrivals| - 1]);
      var a := arrivals[|arrivals| - 1];
      CallSettles(k, a);
      (Call(k, a).0, out + Call(k, a).1)
  }

  lemma CallsGrow(before: seq<Arrival>, a: Arrival)
    ensures var (j, out) := Calls(EMPTY, before);
      Calls(EMPTY, before + [a]) == (Call(j, a).0, out + Call(j, a).1)
  {
    assert (before + [a])[..|before|] == before;
  }

  /** The sections of calls that stop after the first. */
  function Firsts(arrivals: seq<Arrival>): seq<Option<Arrival>> {
    if arrivals == [] then [] else Firsts(arrivals[..|arrivals| - 1]) + [Some(arrivals[|arrivals| - 1])]
  }

  lemma FirstsGrow(before: seq<Arrival>, a: Arrival)
    ensures Firsts(before + [a]) == Firsts(before) + [Some(a)]
  {
    assert (before + [a])[..|before|] == before;
  }

  /** How many callbacks carry bytes. */
  function Sounding(out: seq<Callback>): nat {
    if out == [] then 0
    else Sounding(out[..|out| - 1]) + if out[|out| - 1].bytes == [] then 0 else 1
  }

  lemma SoundingGrows(out: seq<Callback>, c: Callback)
    ensures Sounding(out + [c]) == Sounding(out) + if c.bytes == [] then 0 else 1
  {
    assert (out + [c])[..|out|] == out;
  }

  lemma CallSettles(j: Jitter, a: Arrival)
    requires Settled(j)
    ensures Settled(Call(j, a).0)
  {
    SettledCall(j, a);
  }

  /** A frame that a single caller's call ignores altogether. */
  ghost predicate Ignored(j: Jitter, a: Arrival) {
    Late(j, a) || a.index in j.frames || CopyFails(a)
  }

  /** The whole effect of one call of a single caller, in each of its cases. */
  ghost predicate CallEffect(j: Jitter, a: Arrival, k: Jitter, more: seq<Callback>) {
    var frames := j.frames[a.index := a.bytes];
    if Ignored(j, a) then k == j && more == []
    else if j.phase.Prefill? && |frames| < PREFILL then k == Jitter(Prefill, frames) && more == []
    else
      var start, newest := if j.phase.Prefill? then Oldest(frames.Keys) else j.phase.next, Newest(frames.Keys);
      && start <= newest
      && k == Jitter(Playing(newest + 1), map[])
      && more == Playout(frames, start, newest + 1)
  }

  lemma SettledCall(j: Jitter, a: Arrival)
    requires Settled(j)
    ensures CallEffect(j, a, Call(j, a).0, Call(j, a).1)
  {
    var frames := j.frames[a.index := a.bytes];
    if Ignored(j, a) {
      assert Section(j, Some(a)) == (j, None);
    } else if j.phase.Prefill? && |frames| < PREFILL {
      assert Section(j, Some(a)) == (Jitter(Prefill, frames), None);
    } else {
      BegunCall(j, a, frames);
    }
  }

  lemma BegunCall(j: Jitter, a: Arrival, frames: map<int, Bytes>)
    requires Settled(j) && !Ignored(j, a) && frames == j.frames[a.index := a.bytes]
    requires j.phase.Playing? || |frames| >= PREFILL
    ensures var start, newest := if j.phase.Prefill? then Oldest(frames.Keys) else j.phase.next, Newest(frames.Keys);
      && start <= newest
      && Call(j, a) == (Jitter(Playing(newest + 1), map[]), Playout(frames, start, newest + 1))
  {
    assert Store(j.frames, a) == (frames, true);
    var b := Begin(j.(frames := frames));
    assert a.index in b.frames;
    assert Begin(b) == b;
    assert Section(j, Some(a)) == Section(b, None);
    BegunSectionPlays(b);
    CallPlaysEverything(j, a);
  }

  lemma BegunSectionPlays(b: Jitter)
    requires b.phase.Playing? && b.frames != map[] && |b.frames| <= CAPACITY
    requires forall u :: u in b.frames ==> b.phase.next <= u
    ensures Section(b, None).1.Some?
  {
    NonEmptyAlwaysPlays(b);
  }

  ghost function Indices(arrivals: seq<Arrival>): set<int> {
    set i | 0 <= i < |arrivals| :: arrivals[i].index
  }

  predicate AllCopied(arrivals: seq<Arrival>) {
    forall i :: 0 <= i < |arrivals| ==> !CopyFails(arrivals[i])
  }

  /** How many arrivals there were when the third distinct index came in. */
  ghost function PrefillLength(arrivals: seq<Arrival>): (n: nat)
    requires |Indices(arrivals)| >= PREFILL
    ensures n <= |arrivals| && |Indices(arrivals[..n])| >= PREFILL
    ensures n > 0 && |Indices(arrivals[..n - 1])| < PREFILL
  {
    var before := arrivals[..|arrivals| - 1];
    if |Indices(before)| >= PREFILL then
      var n := PrefillLength(before);
      assert before[..n] == arrivals[..n] && before[..n - 1] == arrivals[..n - 1];
      n
    else
      assert arrivals[..|arrivals|] == arrivals;
      |arrivals|
  }

  /** Arrival `a` is the first of its index and came during the prefill or ahead of everything before it. */
  ghost predicate InTime(before: seq<Arrival>, a: Arrival, prefill: nat) {
    && a.index !in Indices(before)
    && (|before| < prefill || forall u :: u in Indices(before) ==> u < a.index)
  }

  /** The frames of the arrivals that were in time. */
  ghost function Timely(arrivals: seq<Arrival>, prefill: nat): (frames: map<int, Bytes>) {
    if arrivals == [] then map[]
    else
      var before, a := arrivals[..|arrivals| - 1], arrivals[|arrivals| - 1];
      var frames := Timely(before, prefill);
      if InTime(before, a, prefill) then frames[a.index := a.bytes] else frames
  }

  lemma {:induction false} TimelyWithin(arrivals: seq<Arrival>, prefill: nat)
    ensures Timely(arrivals, prefill).Keys <= Indices(arrivals)
  {
    if arrivals != [] {
      var before, a := arrivals[..|arrivals| - 1], arrivals[|arrivals| - 1];
      TimelyWithin(before, prefill);
      assert arrivals == before + [a];
      IndicesGrow(before, a);
    }
  }

  /** Arrival i of a run was in time. */
  ghost predicate InTimeAt(arrivals: seq<Arrival>, prefill: nat, i: nat)
    requires i < |arrivals|
  {
    InTime(arrivals[..i], arrivals[i], prefill)
  }

  /** An arrival that was in time is heard with its own bytes... */
  lemma {:induction false} InTimeIsHeard(arrivals: seq<Arrival>, prefill: nat, i: nat)
    requires i < |arrivals| && InTimeAt(arrivals, prefill, i)
    ensures arrivals[i].index in Timely(arrivals, prefill)
    ensures Timely(arrivals, prefill)[arrivals[i].index] == arrivals[i].bytes
  {
    var last := |arrivals| - 1;
    if i < last {
      var before := arrivals[..last];
      assert before[..i] == arrivals[..i];
      InTimeIsHeard(before, prefill, i);
      assert before[i].index in Indices(before);
    }
  }

  /** ...and nothing else is heard. */
  lemma {:induction false} HeardWasInTime(arrivals: seq<Arrival>, prefill: nat, u: int) returns (i: nat)
    requires u in Timely(arrivals, prefill)
    ensures i < |arrivals| && arrivals[i].index == u && InTimeAt(arrivals, prefill, i)
  {
    var last := |arrivals| - 1;
    var before := arrivals[..last];
    if u in Timely(before, prefill) {
      i := HeardWasInTime(before, prefill, u);
      assert before[..i] == arrivals[..i];
    } else {
      i := last;
    }
  }

  /** During the prefill every index counts, at its first arrival. */
  lemma {:induction false} PrefillKeepsFirsts(arrivals: seq<Arrival>, p: nat, q: nat)
    requires |arrivals| <= p && |arrivals| <= q
    ensures Timely(arrivals, p) == Timely(arrivals, q)
    ensures Timely(arrivals, p).Keys == Indices(arrivals)
  {
    if arrivals != [] {
      var before, a := arrivals[..|arrivals| - 1], arrivals[|arrivals| - 1];
      PrefillKeepsFirsts(before, p, q);
      assert arrivals == before + [a];
      IndicesGrow(before, a);
    }
  }

  /** Playback that began when `prefill` arrivals were in, in terms of the arrivals alone. */
  ghost predicate Heard(arrivals: seq<Arrival>, prefill: nat, j: Jitter, out: seq<Callback>)
    requires prefill <= |arrivals|
  {
    var start, newest := Oldest(Indices(arrivals[..prefill])), Newest(Indices(arrivals));
    && j == Jitter(Playing(newest + 1), map[])
    && start <= newest
    && out == Playout(Timely(arrivals, prefill), start, newest + 1)
  }

  ghost predicate Outcome(arrivals: seq<Arrival>, j: Jitter, out: seq<Callback>) {
    if |Indices(arrivals)| < PREFILL then out == [] && j == Jitter(Prefill, Timely(arrivals, |arrivals|))
    else Heard(arrivals, PrefillLength(arrivals), j, out)
  }

  /** What a listener hears. Nothing before the third distinct index. From then on every index from
      the oldest of the prefill to the newest ever received is heard exactly once, in order, with its
      own bytes if its first arrival was in time and as silence otherwise: a frame that arrives after
      playback started and behind any earlier one is never played. */
  lemma {:induction false} ListenerHears(arrivals: seq<Arrival>)
    requires AllCopied(arrivals)
    ensures Outcome(arrivals, Calls(EMPTY, arrivals).0, Calls(EMPTY, arrivals).1)
  {
    if arrivals == [] {
      assert Indices(arrivals) == {};
    } else {
      var before, a := arrivals[..|arrivals| - 1], arrivals[|arrivals| - 1];
      ListenerHears(before);
      assert arrivals == before + [a];
      var (j, out) := Calls(EMPTY, before);
      SettledCall(j, a);
      OneMoreArrival(before, a, j, out, Call(j, a).0, Call(j, a).1);
    }
  }

  lemma OneMoreArrival(before: seq<Arrival>, a: Arrival, j: Jitter, out: seq<Callback>, k: Jitter, more: seq<Callback>)
    requires !CopyFails(a) && Outcome(before, j, out) && CallEffect(j, a, k, more)
    ensures Outcome(before + [a], k, out + more)
  {
    if |Indices(before)| >= PREFILL {
      PrefillStays(before, a);
      PlaybackGoesOn(before, a, PrefillLength(before), j, out, k, more);
    } else {
      PrefillGrows(before, a);
      if |Indices(before + [a])| >= PREFILL {
        PrefillEndsHere(before, a);
        PlaybackBegins(before, a, j.frames, k, more);
        assert out + more == more;
      }
    }
  }

  lemma PrefillGrows(before: seq<Arrival>, a: Arrival)
    ensures var arrivals, frames := before + [a], Timely(before, |before|);
      && Timely(arrivals, |arrivals|) == (if a.index in frames then frames else frames[a.index := a.bytes])
      && Timely(arrivals, |arrivals|).Keys == Indices(arrivals)
      && frames.Keys == Indices(before)
      && |frames| == |Indices(before)|
  {
    var arrivals := before + [a];
    assert arrivals[..|arrivals| - 1] == before;
    PrefillKeepsFirsts(before, |before|, |arrivals|);
    PrefillKeepsFirsts(arrivals, |arrivals|, |arrivals|);
    assert |Timely(before, |before|).Keys| == |Indices(before)|;
  }

  lemma PlaybackBegins(before: seq<Arrival>, a: Arrival, frames: map<int, Bytes>, k: Jitter, more: seq<Callback>)
    requires !CopyFails(a) && frames == Timely(before, |before|) && CallEffect(Jitter(Prefill, frames), a, k, more)
    requires |Indices(before)| < PREFILL <= |Indices(before + [a])|
    ensures Heard(before + [a], |before| + 1, k, more)
  {
    ThirdIndex(before, a);
    ThirdCall(frames, a, k, more);
    assert (before + [a])[..|before| + 1] == before + [a];
    AllHeard(before + [a], frames[a.index := a.bytes], k, more);
  }

  lemma ThirdCall(frames: map<int, Bytes>, a: Arrival, k: Jitter, more: seq<Callback>)
    requires !CopyFails(a) && CallEffect(Jitter(Prefill, frames), a, k, more)
    requires a.index !in frames && |frames[a.index := a.bytes]| >= PREFILL
    ensures Begun(frames[a.index := a.bytes], k, more)
  {
    assert !Ignored(Jitter(Prefill, frames), a);
  }

  ghost predicate Begun(frames: map<int, Bytes>, k: Jitter, more: seq<Callback>) {
    var start, newest := Oldest(frames.Keys), Newest(frames.Keys);
    start <= newest && k == Jitter(Playing(newest + 1), map[]) && more == Playout(frames, start, newest + 1)
  }

  lemma AllHeard(arrivals: seq<Arrival>, frames: map<int, Bytes>, k: Jitter, more: seq<Callback>)
    requires Begun(frames, k, more) && Timely(arrivals, |arrivals|) == frames
    requires Indices(arrivals) == frames.Keys && arrivals[..|arrivals|] == arrivals
    ensures Heard(arrivals, |arrivals|, k, more)
  {
    assert Indices(arrivals[..|arrivals|]) == frames.Keys;
  }

  lemma ThirdIndex(before: seq<Arrival>, a: Arrival)
    requires |Indices(before)| < PREFILL <= |Indices(before + [a])|
    ensures var arrivals, frames := before + [a], Timely(before, |before|);
      && a.index !in frames
      && Timely(arrivals, |before| + 1) == frames[a.index := a.bytes]
      && Indices(arrivals) == frames[a.index := a.bytes].Keys
      && |frames[a.index := a.bytes]| >= PREFILL
  {
    IndicesGrow(before, a);
    PrefillGrows(before, a);
    assert |Timely(before + [a], |before| + 1).Keys| == |Indices(before + [a])|;
  }

  lemma PrefillEndsHere(before: seq<Arrival>, a: Arrival)
    requires |Indices(before)| < PREFILL <= |Indices(before + [a])|
    ensures PrefillLength(before + [a]) == |before| + 1 && (before + [a])[..|before| + 1] == before + [a]
  {
    assert (before + [a])[..|before|] == before;
  }

  lemma IndicesGrow(before: seq<Arrival>, a: Arrival)
    ensures Indices(before + [a]) == Indices(before) + {a.index}
    ensures |Indices(before + [a])| == |Indices(before)| + (if a.index in Indices(before) then 0 else 1)
  {
    var arrivals := before + [a];
    forall u | u in Indices(before) + {a.index} ensures u in Indices(arrivals) {
      if u in Indices(before) {
        var i :| 0 <= i < |before| && before[i].index == u;
        assert arrivals[i].index == u;
      } else {
        assert arrivals[|before|].index == u;
      }
    }
    if a.index in Indices(before) {
      assert Indices(arrivals) == Indices(before);
    }
  }

  lemma PlaybackGoesOn(before: seq<Arrival>, a: Arrival, prefill: nat,
                       j: Jitter, out: seq<Callback>, k: Jitter, more: seq<Callback>)
    requires before != [] && prefill <= |before| && !CopyFails(a)
    requires Heard(before, prefill, j, out) && CallEffect(j, a, k, more)
    ensures Heard(before + [a], prefill, k, out + more)
  {
    var start, newest := Oldest(Indices(before[..prefill])), Newest(Indices(before));
    assert (before + [a])[..prefill] == before[..prefill];
    LaterArrival(before, a, prefill);
    if a.index <= newest {
      assert out + more == out;
    } else {
      var frames := map[a.index := a.bytes];
      assert j.frames[a.index := a.bytes] == frames;
      assert Newest(frames.Keys) in {a.index};
      TimelyWithin(before, prefill);
      PlayoutExtends(Timely(before, prefill), start, newest + 1, a.index, a.bytes);
    }
  }

  lemma PrefillStays(before: seq<Arrival>, a: Arrival)
    requires |Indices(before)| >= PREFILL
    ensures var arrivals := before + [a];
      && |Indices(arrivals)| >= PREFILL
      && PrefillLength(arrivals) == PrefillLength(before)
      && before != []
  {
    assert (before + [a])[..|before|] == before;
    IndicesGrow(before, a);
    assert before == [] ==> Indices(before) == {};
  }

  lemma LaterArrival(before: seq<Arrival>, a: Arrival, prefill: nat)
    requires before != [] && prefill <= |before|
    ensures var arrivals, newest := before + [a], Newest(Indices(before));
      if a.index <= newest then
        Newest(Indices(arrivals)) == newest && Timely(arrivals, prefill) == Timely(before, prefill)
      else
        Newest(Indices(arrivals)) == a.index && Timely(arrivals, prefill) == Timely(before, prefill)[a.index := a.bytes]
  {
    var arrivals, newest := before + [a], Newest(Indices(before));
    assert arrivals[..|before|] == before;
    IndicesGrow(before, a);
    assert before[0].index in Indices(before);
    assert IsNewest(Indices(arrivals), if a.index <= newest then newest else a.index);
    assert InTime(before, a, prefill) <==> a.index > newest;
  }

  // ---- Failed allocations ----

  function Copied(arrivals: seq<Arrival>): (r: seq<Arrival>)
    ensures AllCopied(r)
  {
    if arrivals == [] then []
    else
      var a := arrivals[|arrivals| - 1];
      Copied(arrivals[..|arrivals| - 1]) + (if CopyFails(a) then [] else [a])
  }

  /** To a single caller a failed allocation is a frame that never came, so ListenerHears covers every
      run: apply it to the arrivals whose copy succeeded. */
  lemma {:induction false} FailedCopiesAreSilent(arrivals: seq<Arrival>)
    ensures Calls(EMPTY, arrivals) == Calls(EMPTY, Copied(arrivals))
  {
    if arrivals != [] {
      var before, a := arrivals[..|arrivals| - 1], arrivals[|arrivals| - 1];
      FailedCopiesAreSilent(before);
      if CopyFails(a) {
        SettledCall(Calls(EMPTY, before).0, a);
        assert Calls(EMPTY, before).1 + [] == Calls(EMPTY, before).1;
        assert Copied(arrivals) == Copied(before);
      } else {
        assert Copied(arrivals)[..|Copied(arrivals)| - 1] == Copied(before);
      }
    }
  }

  // ---- Haptics ----

  /** Haptics frames are not buffered: one goes out exactly when it is newer than all before it. */
  function Rising(prev: int, arrivals: seq<Arrival>): (int, seq<Callback>) {
    if arrivals == [] then (prev, [])
    else
      var (p, out) := Rising(prev, arrivals[..|arrivals| - 1]);
      var a := arrivals[|arrivals| - 1];
      if a.index > p then (a.index, out + [Callback(a.index, a.bytes)]) else (p, out)
  }

  lemma RisingGrows(prev: int, arrivals: seq<Arrival>, a: Arrival, calls: seq<Callback>)
    ensures var (p, out) := Rising(prev, arrivals);
      && Rising(prev, arrivals + [a]).0 == (if a.index > p then a.index else p)
      && calls + Rising(prev, arrivals + [a]).1
         == calls + out + (if a.index > p then [Callback(a.index, a.bytes)] else [])
  {
    assert (arrivals + [a])[..|arrivals|] == arrivals;
  }

  /** The haptics sink hears strictly rising indices, ending with the greatest index received. */
  lemma {:induction false} HapticsRise(prev: int, arrivals: seq<Arrival>)
    ensures var (last, out) := Rising(prev, arrivals);
      && (forall i :: 0 <= i < |out| ==> prev < out[i].index <= last)
      && (forall i, k :: 0 <= i < k < |out| ==> out[i].index < out[k].index)
      && prev <= last && (forall i :: 0 <= i < |arrivals| ==> arrivals[i].index <= last)
      && last == (if out == [] then prev else out[|out| - 1].index)
  {
    if arrivals != [] {
      HapticsRise(prev, arrivals[..|arrivals| - 1]);
    }
  }
}
