/**
  The queue of video frames waiting to be submitted, as one list: the head is the pending slot, the
  rest is the overflow deque. A ledger records what became of every frame handed in.
  Module PendingQueue proves that the slot-and-deque code computes exactly this.
  */
module PendingSpec {
  const EPSILON: real := 0.000001

  datatype Entry = Entry(id: nat, pts: real, duration: real, origin: real, storedUs: nat, warmup: bool)

  /** Warm-up frames carry pts 0, real frames a pts of at least 0. */
  predicate Proper(e: Entry) {
    e.pts >= 0.0 && (e.warmup ==> e.pts == 0.0)
  }

  datatype Ledger = Ledger(queue: seq<Entry>, handed: seq<Entry>, taken: seq<Entry>, freed: seq<Entry>,
                           drops: nat, replaced: nat, discarded: nat)

  const EMPTY := Ledger([], [], [], [], 0, 0, 0)

  datatype Op =
    | Store(e: Entry, limit: nat)   // limit 0: the overflow is disabled
    | Take
    | Drop
    | Prune(cutoff: real)
    | CutOverflow
    | Clear

  function Last(q: seq<Entry>): Entry
    requires q != []
  {
    q[|q| - 1]
  }

  /** Frees the entries of the queue that `keep` does not hold on to, as counted drops. */
  function DropTo(l: Ledger, keep: seq<Entry>, gone: seq<Entry>): Ledger {
    l.(queue := keep, freed := l.freed + gone, drops := l.drops + |gone|)
  }

  function DiscardTo(l: Ledger, keep: seq<Entry>, gone: seq<Entry>): Ledger {
    l.(queue := keep, freed := l.freed + gone, discarded := l.discarded + |gone|)
  }

  predicate Stale(e: Entry, cutoff: real) {
    e.pts + EPSILON < cutoff || (e.warmup && e.pts <= cutoff + EPSILON)
  }

  function Fresh(q: seq<Entry>, cutoff: real): seq<Entry> {
    if q == [] then []
    else if Stale(q[0], cutoff) then Fresh(q[1..], cutoff)
    else [q[0]] + Fresh(q[1..], cutoff)
  }

  function StaleOf(q: seq<Entry>, cutoff: real): seq<Entry> {
    if q == [] then []
    else if Stale(q[0], cutoff) then [q[0]] + StaleOf(q[1..], cutoff)
    else StaleOf(q[1..], cutoff)
  }

  /** Where a new frame goes: the queue after it, and what that queue had no place for. */
  datatype Placement = Placement(queue: seq<Entry>, gone: seq<Entry>, replaced: bool)

  function Place(q: seq<Entry>, e: Entry, limit: nat): Placement {
    if q == [] then Placement([e], [], false)
    else if q[0].warmup && !e.warmup then Placement([e] + q[1..], [q[0]], true)
    else if e.pts <= Last(q).pts + EPSILON then Placement(q, [e], false)
    else if limit == 0 then Placement([e] + q[1..], [q[0]], false)
    else if |q| > limit then Placement([q[0]] + q[2..] + [e], [q[1]], false)
    else Placement(q + [e], [], false)
  }

  function Accept(l: Ledger, e: Entry, limit: nat): Ledger {
    var p := Place(l.queue, e, limit);
    var l' := l.(queue := p.queue, handed := l.handed + [e], freed := l.freed + p.gone);
    if p.replaced then l'.(replaced := l.replaced + |p.gone|) else l'.(drops := l.drops + |p.gone|)
  }

  predicate Accepts(q: seq<Entry>, e: Entry) {
    q == [] || (q[0].warmup && !e.warmup) || e.pts > Last(q).pts + EPSILON
  }

  function Head(q: seq<Entry>): seq<Entry> {
    if q == [] then [] else q[..1]
  }

  function Tail(q: seq<Entry>): seq<Entry> {
    if q == [] then [] else q[1..]
  }

  function Step(l: Ledger, op: Op): Ledger {
    var q := l.queue;
    match op
    case Store(e, limit) =>
      var cut := if limit == 0 then DropTo(l, Head(q), Tail(q)) else l;
      Accept(cut, e, limit)
    case Take => l.(queue := Tail(q), taken := l.taken + Head(q))
    case Drop => DiscardTo(l, Tail(q), Head(q))
    case Prune(cutoff) => if cutoff < 0.0 then l else DropTo(l, Fresh(q, cutoff), StaleOf(q, cutoff))
    case CutOverflow => DiscardTo(l, Head(q), Tail(q))
    case Clear => DiscardTo(l, [], q)
  }

  function Run(ops: seq<Op>): Ledger {
    if ops == [] then EMPTY else Step(Run(ops[..|ops| - 1]), ops[|ops| - 1])
  }

  /** Strictly increasing pts with gaps above epsilon; a warm-up frame waits alone. */
  ghost predicate Ordered(q: seq<Entry>) {
    && (forall i, k :: 0 <= i < k < |q| ==> q[i].pts + EPSILON < q[k].pts)
    && (forall i :: 0 <= i < |q| ==> Proper(q[i]))
    && (forall i :: 0 <= i < |q| && q[i].warmup ==> |q| == 1)
  }

  ghost predicate ProperOps(ops: seq<Op>) {
    forall i :: 0 <= i < |ops| && ops[i].Store? ==> Proper(ops[i].e)
  }

  ghost predicate LimitsAtMost(ops: seq<Op>, bound: nat) {
    forall i :: 0 <= i < |ops| && ops[i].Store? ==> ops[i].limit <= bound
  }

  lemma {:induction false} FreshIsSuffix(q: seq<Entry>, cutoff: real) returns (n: nat)
    requires Ordered(q)
    ensures n <= |q| && Fresh(q, cutoff) == q[n..] && StaleOf(q, cutoff) == q[..n]
    ensures n < |q| ==> !Stale(q[n], cutoff)
    ensures forall i :: 0 <= i < n ==> Stale(q[i], cutoff)
  {
    if q == [] {
      n := 0;
    } else if Stale(q[0], cutoff) {
      var m := FreshIsSuffix(q[1..], cutoff);
      n := m + 1;
      assert q[..n] == [q[0]] + q[1..][..m];
      forall i | 0 <= i < n ensures Stale(q[i], cutoff) {
        if i > 0 {
          assert q[i] == q[1..][i - 1];
        }
      }
    } else {
      n := 0;
      AllFresh(q, cutoff);
    }
  }

  lemma {:induction false} AllFresh(q: seq<Entry>, cutoff: real)
    requires Ordered(q) && q != [] && !Stale(q[0], cutoff)
    ensures Fresh(q, cutoff) == q && StaleOf(q, cutoff) == []
  {
    var rest := q[1..];
    if rest != [] {
      assert q[0].pts + EPSILON < q[1].pts && !q[1].warmup;
      AllFresh(rest, cutoff);
    }
    assert q == [q[0]] + rest;
  }

  lemma AppendKeepsOrdered(q: seq<Entry>, e: Entry)
    requires Ordered(q) && Proper(e) && q != [] && e.pts > Last(q).pts + EPSILON && !(q[0].warmup && !e.warmup)
    ensures Ordered(q + [e])
  {
    assert Proper(Last(q)) && !e.warmup;
  }

  lemma PlaceKeepsOrdered(q: seq<Entry>, e: Entry, limit: nat)
    requires Ordered(q) && Proper(e) && (limit == 0 ==> |q| <= 1)
    ensures Ordered(Place(q, e, limit).queue)
  {
    if q != [] && !(q[0].warmup && !e.warmup) && e.pts > Last(q).pts + EPSILON && limit > 0 {
      if |q| > limit {
        assert Ordered([q[0]] + q[2..]);
        if |q| == 2 {
          assert [q[0]] + q[2..] == [q[0]];
        }
        AppendKeepsOrdered([q[0]] + q[2..], e);
      } else {
        AppendKeepsOrdered(q, e);
      }
    }
  }

  lemma StepKeepsOrdered(l: Ledger, op: Op)
    requires Ordered(l.queue) && (op.Store? ==> Proper(op.e))
    ensures Ordered(Step(l, op).queue)
  {
    match op
    case Store(e, limit) =>
      StoreKeepsOrdered(l, e, limit);
    case Prune(cutoff) =>
      if cutoff >= 0.0 {
        var n := FreshIsSuffix(l.queue, cutoff);
      }
    case CutOverflow =>
      HeadOrdered(l.queue);
    case _ =>
      TailOrdered(l.queue);
  }

  lemma TailOrdered(q: seq<Entry>)
    requires Ordered(q)
    ensures Ordered(Tail(q)) && Ordered([])
  {
  }

  lemma StoreKeepsOrdered(l: Ledger, e: Entry, limit: nat)
    requires Ordered(l.queue) && Proper(e)
    ensures Ordered(Step(l, Store(e, limit)).queue)
  {
    var cut := if limit == 0 then DropTo(l, Head(l.queue), Tail(l.queue)) else l;
    PlaceKeepsOrdered(cut.queue, e, limit);
  }

  /** Over every run the queue is ordered... */
  lemma {:induction false} RunStaysOrdered(ops: seq<Op>)
    requires ProperOps(ops)
    ensures Ordered(Run(ops).queue)
  {
    if ops != [] {
      var before, op := ops[..|ops| - 1], ops[|ops| - 1];
      RunStaysOrdered(before);
      StepKeepsOrdered(Run(before), op);
    }
  }

  /** ...and its overflow never holds more than the greatest limit in use. */
  lemma {:induction false} RunStaysBounded(ops: seq<Op>, bound: nat)
    requires ProperOps(ops) && LimitsAtMost(ops, bound)
    ensures |Run(ops).queue| <= 1 + bound
  {
    if ops != [] {
      var before, op := ops[..|ops| - 1], ops[|ops| - 1];
      RunStaysBounded(before, bound);
      RunStaysOrdered(before);
      StepStaysBounded(Run(before), op, bound);
    }
  }

  lemma StepStaysBounded(l: Ledger, op: Op, bound: nat)
    requires Ordered(l.queue) && |l.queue| <= 1 + bound && (op.Store? ==> op.limit <= bound)
    ensures |Step(l, op).queue| <= 1 + bound
  {
    if op.Prune? && op.cutoff >= 0.0 {
      var n := FreshIsSuffix(l.queue, op.cutoff);
    }
  }

  // ---- What a step does, entry by entry ----

  /** Where a frame goes that is offered to an ordered queue. */
  lemma PlaceInWords(q: seq<Entry>, e: Entry, limit: nat)
    requires Ordered(q)
    ensures var p := Place(q, e, limit);
      && (q == [] ==> p.queue == [e] && p.gone == [])
      && (q != [] && q[0].warmup && !e.warmup ==> p.queue == [e] && p.gone == q && p.replaced)
      && (q != [] && !(q[0].warmup && !e.warmup) ==>
            && !p.replaced
            && (e.pts <= q[|q| - 1].pts + EPSILON ==> p.queue == q && p.gone == [e])
            && (e.pts > q[|q| - 1].pts + EPSILON ==>
                  && (limit == 0 ==> p.queue == [e] + q[1..] && p.gone == [q[0]])
                  && (|q| <= limit ==> p.queue == q + [e] && p.gone == [])
                  && (0 < limit < |q| ==> p.queue == [q[0]] + q[2..] + [e] && p.gone == [q[1]])))
  {
    if q != [] && q[0].warmup {
      assert q == [q[0]];
    }
  }

  /** What a prune at a cutoff of at least 0 keeps: all but the entries before the cutoff and a warm-up
      frame not after it, which are at the front. */
  ghost predicate Prunes(q: seq<Entry>, kept: seq<Entry>, cutoff: real) {
    var n := |q| - |kept|;
    && 0 <= n && kept == q[n..]
    && (forall i :: 0 <= i < n ==>
          q[i].pts + EPSILON < cutoff || (q[i].warmup && q[i].pts <= cutoff + EPSILON))
    && (forall i :: n <= i < |q| ==>
          q[i].pts + EPSILON >= cutoff && (q[i].warmup ==> q[i].pts > cutoff + EPSILON))
  }

  lemma PruneInWords(q: seq<Entry>, cutoff: real)
    requires Ordered(q)
    ensures Prunes(q, Fresh(q, cutoff), cutoff)
    ensures |Fresh(q, cutoff)| <= |q| && StaleOf(q, cutoff) == q[..|q| - |Fresh(q, cutoff)|]
  {
    var n := FreshIsSuffix(q, cutoff);
    if n < |q| {
      assert !Stale(q[n], cutoff);
      forall i | n <= i < |q| ensures !Stale(q[i], cutoff) {
        assert i > n ==> q[n].pts + EPSILON < q[i].pts && !q[i].warmup;
      }
    }
    assert forall i :: 0 <= i < n ==> Stale(q[i], cutoff);
  }

  // ---- When the order breaks ----

  /** The order alone, whatever the pts of the entries. */
  ghost predicate Lined(q: seq<Entry>) {
    && (forall i, k :: 0 <= i < k < |q| ==> q[i].pts + EPSILON < q[k].pts)
    && (forall i :: 0 <= i < |q| && q[i].warmup ==> |q| == 1)
  }

  /** A store breaks the order if and only if it queues a warm-up frame up behind a waiting one. */
  lemma OrderBreaksExactlyBehind(q: seq<Entry>, e: Entry, limit: nat)
    requires Lined(q) && (limit == 0 ==> |q| <= 1)
    ensures !Lined(Place(q, e, limit).queue)
      <==> limit > 0 && q != [] && e.warmup && e.pts > Last(q).pts + EPSILON
  {
    var after := Place(q, e, limit).queue;
    if limit > 0 && q != [] && e.pts > Last(q).pts + EPSILON {
      assert !(q[0].warmup && !e.warmup) ==> |after| >= 2 && after[|after| - 1] == e;
    }
  }

  /** Which takes a frame from before 0 in front: warm-up frames have pts 0. */
  lemma NegativePtsBreaksTheOrder()
    ensures var early, warm := Entry(0, -1.0, 0.0, 0.0, 0, false), Entry(1, 0.0, 0.0, 0.0, 0, true);
      !Proper(early) && !Ordered(Run([Store(early, 6), Store(warm, 6)]).queue)
  {
    var early, warm := Entry(0, -1.0, 0.0, 0.0, 0, false), Entry(1, 0.0, 0.0, 0.0, 0, true);
    var ops := [Store(early, 6), Store(warm, 6)];
    var first := ops[..1];
    assert first[..0] == [] && first[0] == ops[0];
    assert Run(first) == Step(EMPTY, ops[0]);
    assert Run(ops) == Step(Run(first), ops[1]);
    assert Run(ops).queue[1].warmup;
  }

  // ---- Conservation and order ----

  /** Every frame handed in is in exactly one place, and every freed one has a reason. */
  ghost predicate Conserved(l: Ledger) {
    && multiset(l.handed) == multiset(l.taken) + multiset(l.queue) + multiset(l.freed)
    && |l.freed| == l.drops + l.replaced + l.discarded
  }

  /** Moving `gone` from the queue to the freed frames, with `keep` left. */
  lemma FreeConserves(l: Ledger, keep: seq<Entry>, gone: seq<Entry>, after: Ledger)
    requires Conserved(l) && multiset(l.queue) == multiset(keep) + multiset(gone)
    requires after == l.(queue := keep, freed := l.freed + gone, drops := after.drops,
                         replaced := after.replaced, discarded := after.discarded)
    requires after.drops + after.replaced + after.discarded == l.drops + l.replaced + l.discarded + |gone|
    ensures Conserved(after)
  {
  }

  lemma SplitMultiset(q: seq<Entry>, n: nat)
    requires n <= |q|
    ensures multiset(q) == multiset(q[..n]) + multiset(q[n..])
  {
    assert q == q[..n] + q[n..];
  }

  lemma StepConserves(l: Ledger, op: Op)
    requires Conserved(l) && Ordered(l.queue)
    ensures Conserved(Step(l, op))
  {
    match op
    case Store(e, limit) => StoreConserves(l, e, limit);
    case Take => TakeConserves(l);
    case Prune(cutoff) => PruneConserves(l, cutoff);
    case _ => DiscardConserves(l, op);
  }

  lemma StoreConserves(l: Ledger, e: Entry, limit: nat)
    requires Conserved(l)
    ensures Conserved(Step(l, Store(e, limit)))
  {
    var q := l.queue;
    if limit == 0 {
      HeadTail(q);
      var cut := DropTo(l, Head(q), Tail(q));
      FreeConserves(l, Head(q), Tail(q), cut);
      AcceptConserves(cut, e, limit);
    } else {
      AcceptConserves(l, e, limit);
    }
  }

  lemma TakeConserves(l: Ledger)
    requires Conserved(l)
    ensures Conserved(Step(l, Take))
  {
    HeadTail(l.queue);
    assert multiset(l.taken + Head(l.queue)) == multiset(l.taken) + multiset(Head(l.queue));
  }

  lemma PruneConserves(l: Ledger, cutoff: real)
    requires Conserved(l) && Ordered(l.queue)
    ensures Conserved(Step(l, Prune(cutoff)))
  {
    if cutoff >= 0.0 {
      var n := FreshIsSuffix(l.queue, cutoff);
      SplitMultiset(l.queue, n);
      FreeConserves(l, Fresh(l.queue, cutoff), StaleOf(l.queue, cutoff), Step(l, Prune(cutoff)));
    }
  }

  lemma DiscardConserves(l: Ledger, op: Op)
    requires Conserved(l) && (op.Drop? || op.CutOverflow? || op.Clear?)
    ensures Conserved(Step(l, op))
  {
    var q, after := l.queue, Step(l, op);
    HeadTail(q);
    var gone := if op.Drop? then Head(q) else if op.CutOverflow? then Tail(q) else q;
    FreeConserves(l, after.queue, gone, after);
  }

  lemma HeadTail(q: seq<Entry>)
    ensures q == Head(q) + Tail(q) && multiset(q) == multiset(Head(q)) + multiset(Tail(q))
  {
    assert q == Head(q) + Tail(q);
  }

  lemma Regroup(taken: multiset<Entry>, q: multiset<Entry>, freed: multiset<Entry>, e: multiset<Entry>,
                keep: multiset<Entry>, gone: multiset<Entry>)
    requires q + e == keep + gone
    ensures taken + q + freed + e == taken + keep + (freed + gone)
  {
    forall x: Entry ensures (taken + q + freed + e)[x] == (taken + keep + (freed + gone))[x] {
      assert (q + e)[x] == (keep + gone)[x];
    }
  }

  lemma AcceptConserves(l: Ledger, e: Entry, limit: nat)
    requires Conserved(l)
    ensures Conserved(Accept(l, e, limit))
  {
    var p := Place(l.queue, e, limit);
    PlaceConserves(l.queue, e, limit);
    assert multiset(l.freed + p.gone) == multiset(l.freed) + multiset(p.gone);
    assert multiset(l.handed + [e]) == multiset(l.handed) + multiset([e]);
    Regroup(multiset(l.taken), multiset(l.queue), multiset(l.freed), multiset([e]),
            multiset(p.queue), multiset(p.gone));
  }

  lemma PlaceConserves(q: seq<Entry>, e: Entry, limit: nat)
    ensures var p := Place(q, e, limit);
      multiset(q) + multiset([e]) == multiset(p.queue) + multiset(p.gone)
  {
    if q == [] || e.pts <= Last(q).pts + EPSILON || (0 < limit && |q| <= limit) {
      assert multiset(q + [e]) == multiset(q) + multiset([e]);
    }
    if q != [] {
      HeadReplaced(q, e);
    }
    if |q| > 1 {
      SecondReplaced(q, e);
    }
  }

  lemma HeadReplaced(q: seq<Entry>, e: Entry)
    requires q != []
    ensures multiset(q) + multiset([e]) == multiset([e] + q[1..]) + multiset([q[0]])
  {
    assert multiset([e] + q[1..]) == multiset([e]) + multiset(q[1..]);
    assert multiset([q[0]] + q[1..]) == multiset([q[0]]) + multiset(q[1..]);
    assert q == [q[0]] + q[1..];
  }

  lemma SecondReplaced(q: seq<Entry>, e: Entry)
    requires |q| > 1
    ensures multiset(q) + multiset([e]) == multiset([q[0]] + q[2..] + [e]) + multiset([q[1]])
  {
    assert multiset([q[0]] + q[2..] + [e]) == multiset([q[0]]) + multiset(q[2..]) + multiset([e]);
    assert multiset([q[0]] + [q[1]] + q[2..]) == multiset([q[0]]) + multiset([q[1]]) + multiset(q[2..]);
    assert q == [q[0]] + [q[1]] + q[2..];
  }

  /** `a` is `b` with some elements left out. */
  ghost predicate Within(a: seq<Entry>, b: seq<Entry>) {
    a == [] ||
    (b != [] && ((Last(a) == Last(b) && Within(a[..|a| - 1], b[..|b| - 1])) || Within(a, b[..|b| - 1])))
  }

  lemma {:induction false} WithinSelf(a: seq<Entry>)
    ensures Within(a, a)
  {
    if a != [] {
      WithinSelf(a[..|a| - 1]);
    }
  }

  lemma WithinGrows(a: seq<Entry>, b: seq<Entry>, e: Entry)
    requires Within(a, b)
    ensures Within(a, b + [e]) && Within(a + [e], b + [e])
  {
    assert (b + [e])[..|b|] == b && (a + [e])[..|a|] == a;
  }

  lemma {:induction false} WithinTransitive(a: seq<Entry>, b: seq<Entry>, c: seq<Entry>)
    requires Within(a, b) && Within(b, c)
    ensures Within(a, c)
    decreases |a| + |b| + |c|
  {
    if a != [] {
      var a', b', c' := a[..|a| - 1], b[..|b| - 1], c[..|c| - 1];
      if Last(b) == Last(c) && Within(b', c') {
        if Last(a) == Last(b) && Within(a', b') {
          WithinTransitive(a', b', c');
        } else {
          WithinTransitive(a, b', c');
        }
      } else {
        WithinTransitive(a, b, c');
      }
    }
  }

  lemma {:induction false} WithinAppends(a: seq<Entry>, b: seq<Entry>, tail: seq<Entry>)
    requires Within(a, b)
    ensures Within(a + tail, b + tail)
  {
    if tail == [] {
      assert a + tail == a && b + tail == b;
    } else {
      var front, e := tail[..|tail| - 1], tail[|tail| - 1];
      WithinAppends(a, b, front);
      WithinGrows(a + front, b + front, e);
      assert a + tail == (a + front) + [e] && b + tail == (b + front) + [e];
    }
  }

  lemma {:induction false} WithinLonger(a: seq<Entry>, b: seq<Entry>, tail: seq<Entry>)
    requires Within(a, b)
    ensures Within(a, b + tail)
  {
    if tail == [] {
      assert b + tail == b;
    } else {
      var front, e := tail[..|tail| - 1], tail[|tail| - 1];
      WithinLonger(a, b, front);
      WithinGrows(a, b + front, e);
      assert b + tail == (b + front) + [e];
    }
  }

  /** Leaving out the middle piece. */
  lemma WithoutMiddle(front: seq<Entry>, gone: seq<Entry>, tail: seq<Entry>)
    ensures Within(front + tail, front + gone + tail)
  {
    WithinSelf(front);
    WithinLonger(front, front, gone);
    WithinAppends(front, front + gone, tail);
  }

  ghost predicate InOrder(l: Ledger) {
    Within(l.taken + l.queue, l.handed)
  }

  /** Dropping `gone` from the middle of what was taken or waits keeps the order. */
  lemma OrderSurvives(all: seq<Entry>, handed: seq<Entry>, front: seq<Entry>, gone: seq<Entry>, tail: seq<Entry>)
    requires Within(all, handed) && all == front + gone + tail
    ensures Within(front + tail, handed)
  {
    WithoutMiddle(front, gone, tail);
    WithinTransitive(front + tail, all, handed);
  }

  lemma EvictKeepsOrder(taken: seq<Entry>, q: seq<Entry>, e: Entry, handed: seq<Entry>)
    requires Within(taken + q + [e], handed) && |q| > 1
    ensures Within(taken + ([q[0]] + q[2..] + [e]), handed)
  {
    var front, tail := taken + [q[0]], q[2..] + [e];
    assert taken + q + [e] == front + [q[1]] + tail;
    OrderSurvives(taken + q + [e], handed, front, [q[1]], tail);
    assert taken + ([q[0]] + q[2..] + [e]) == front + tail;
  }

  lemma ReplaceKeepsOrder(taken: seq<Entry>, q: seq<Entry>, e: Entry, handed: seq<Entry>)
    requires Within(taken + q + [e], handed) && |q| == 1
    ensures Within(taken + ([e] + q[1..]), handed)
  {
    assert q == [q[0]] && [e] + q[1..] == [e];
    OrderSurvives(taken + q + [e], handed, taken, [q[0]], [e]);
  }

  lemma PlaceKeepsOrder(taken: seq<Entry>, q: seq<Entry>, e: Entry, limit: nat, handed: seq<Entry>)
    requires Within(taken + q, handed) && Ordered(q) && (limit == 0 ==> |q| <= 1)
    ensures Within(taken + Place(q, e, limit).queue, handed + [e])
  {
    WithinGrows(taken + q, handed, e);
    assert taken + (q + [e]) == taken + q + [e];
    if q == [] {
      assert q + [e] == [e];
    } else if q[0].warmup && !e.warmup {
      ReplaceKeepsOrder(taken, q, e, handed + [e]);
    } else if e.pts <= Last(q).pts + EPSILON {
    } else if limit == 0 {
      ReplaceKeepsOrder(taken, q, e, handed + [e]);
    } else if |q| > limit {
      EvictKeepsOrder(taken, q, e, handed + [e]);
    }
  }

  lemma CutKeepsOrder(taken: seq<Entry>, q: seq<Entry>, handed: seq<Entry>)
    requires Within(taken + q, handed)
    ensures Within(taken + Head(q), handed) && Within(taken + Tail(q), handed) && Within(taken + [], handed)
  {
    HeadTail(q);
    assert taken + q == (taken + Head(q)) + Tail(q) + [] && (taken + Head(q)) + [] == taken + Head(q);
    OrderSurvives(taken + q, handed, taken + Head(q), Tail(q), []);
    assert taken + q == taken + Head(q) + Tail(q);
    OrderSurvives(taken + q, handed, taken, Head(q), Tail(q));
    assert taken + q == taken + q + [];
    OrderSurvives(taken + q, handed, taken, q, []);
  }

  lemma TakeKeepsOrder(taken: seq<Entry>, q: seq<Entry>, handed: seq<Entry>)
    requires Within(taken + q, handed)
    ensures Within(taken + Head(q) + Tail(q), handed)
  {
    HeadTail(q);
    assert taken + Head(q) + Tail(q) == taken + q;
  }

  lemma PruneKeepsOrder(taken: seq<Entry>, q: seq<Entry>, cutoff: real, handed: seq<Entry>)
    requires Within(taken + q, handed) && Ordered(q)
    ensures Within(taken + Fresh(q, cutoff), handed)
  {
    var n := FreshIsSuffix(q, cutoff);
    assert taken + q == taken + q[..n] + q[n..];
    OrderSurvives(taken + q, handed, taken, q[..n], q[n..]);
  }

  lemma StoreKeepsOrder(taken: seq<Entry>, q: seq<Entry>, e: Entry, limit: nat, handed: seq<Entry>)
    requires Within(taken + q, handed) && Ordered(q)
    ensures Within(taken + Place(if limit == 0 then Head(q) else q, e, limit).queue, handed + [e])
  {
    if limit == 0 {
      CutKeepsOrder(taken, q, handed);
      HeadOrdered(q);
      PlaceKeepsOrder(taken, Head(q), e, limit, handed);
    } else {
      PlaceKeepsOrder(taken, q, e, limit, handed);
    }
  }

  lemma HeadOrdered(q: seq<Entry>)
    requires Ordered(q)
    ensures Ordered(Head(q)) && |Head(q)| <= 1
  {
  }

  lemma StepKeepsOrder(l: Ledger, op: Op)
    requires InOrder(l) && Ordered(l.queue)
    ensures InOrder(Step(l, op))
  {
    match op
    case Store(e, limit) => StoreKeepsOrder(l.taken, l.queue, e, limit, l.handed);
    case Take => TakeKeepsOrder(l.taken, l.queue, l.handed);
    case Prune(cutoff) => PruneKeepsOrder(l.taken, l.queue, cutoff, l.handed);
    case _ => CutKeepsOrder(l.taken, l.queue, l.handed);
  }

  /** Over every run of stores, takes, drops, prunes and clears: no frame is lost or duplicated (handed
      in = taken + held + freed, each freed one counted as a drop, a replaced warm-up or a discard),
      and the frames taken, then the frames waiting, are in the order in which they were handed in. */
  lemma {:induction false} RunConservesAndKeepsOrder(ops: seq<Op>)
    requires ProperOps(ops)
    ensures Conserved(Run(ops)) && InOrder(Run(ops))
  {
    if ops != [] {
      var before, op := ops[..|ops| - 1], ops[|ops| - 1];
      RunConservesAndKeepsOrder(before);
      RunStaysOrdered(before);
      StepConserves(Run(before), op);
      StepKeepsOrder(Run(before), op);
    }
  }
}
