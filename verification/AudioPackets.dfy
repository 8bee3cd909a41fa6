/**
  The packet entry point of the audio receiver (lib/src/audioreceiver.c:86-139): a packet has the
  effect of one call for each of its units, in order.
  */
module AudioPackets {
  import opened Wrappers
  import opened SerialNumbers
  import opened JitterSpec
  import opened JitterRuns
  import opened PacketExpansion
  import opened AudioReceiver

  /** Every index from lo up to hi is within the window of the buffered frames and the play head,
      now and when playback starts behind one of them. */
  ghost predicate InReach(j: Jitter, lo: int, hi: int) {
    && (forall v :: v in j.frames ==> hi - 1 - v < HALF && v + 1 - lo < HALF)
    && (j.phase.Playing? ==> hi - 1 - j.phase.next < HALF && j.phase.next - lo < HALF)
  }

  /** A unit in reach is within the window of the receiver, and leaves all units in reach. */
  lemma ReachStays(sink: bool, j: Jitter, a: Arrival, lo: int, hi: int)
    requires WellFormed(j) && (sink ==> Settled(j)) && InReach(j, lo, hi) && lo <= a.index < hi <= lo + 30
    ensures Around(j.frames.Keys, a.index) && (j.phase.Playing? ==> Near(a.index, j.phase.next))
    ensures InReach(Answer(sink, j, a), lo, hi)
  {
    if sink {
      SettledCall(j, a);
      StillInReach(j, a, Call(j, a).0, Call(j, a).1, lo, hi);
    } else {
      var held := Held(j, Some(a));
      SectionHasEffect(j, Some(a));
      HeldInReach(j, a, held, lo, hi);
      SectionInReach(j, a, held, lo, hi);
    }
  }

  lemma HeldInReach(j: Jitter, a: Arrival, held: map<int, Bytes>, lo: int, hi: int)
    requires WellFormed(j) && InReach(j, lo, hi) && lo <= a.index < hi <= lo + 30 && held == Held(j, Some(a))
    ensures forall v :: v in held ==> hi - 1 - v < HALF && v + 1 - lo < HALF
  {
    StoreBounds(j.frames, a);
    forall v | v in held ensures v in j.frames || v == a.index {
      assert v in held.Keys;
    }
  }

  lemma SectionInReach(j: Jitter, a: Arrival, held: map<int, Bytes>, lo: int, hi: int)
    requires WellFormed(j) && InReach(j, lo, hi) && held == Held(j, Some(a))
    requires SectionEffect(j, held, Section(j, Some(a)).0, Section(j, Some(a)).1)
    requires forall v :: v in held ==> hi - 1 - v < HALF && v + 1 - lo < HALF
    ensures InReach(Section(j, Some(a)).0, lo, hi)
  {
    var (k, cb) := Section(j, Some(a));
    if cb.Some? {
      var u := Oldest(held.Keys);
      assert held != map[] && u in held.Keys && cb.value.index <= u;
      if j.phase.Prefill? {
        assert cb.value.index == u;
      }
    }
  }

  lemma StillInReach(j: Jitter, a: Arrival, k: Jitter, more: seq<Callback>, lo: int, hi: int)
    requires InReach(j, lo, hi) && lo <= a.index < hi <= lo + 30 && CallEffect(j, a, k, more)
    ensures InReach(k, lo, hi)
  {
    var frames := j.frames[a.index := a.bytes];
    if k.phase.Playing? && k != j {
      assert a.index in frames.Keys && Newest(frames.Keys) in frames.Keys;
      assert a.index <= Newest(frames.Keys);
    }
  }

  /** While the startup flag survives a packet, the packet's index is its 16-bit number. */
  lemma NotWrapped(p: Packet, u: int, peak: Option<int>)
    requires p.frameIndex == Wrap(u)
    requires match peak case None => 0 <= u < MODULUS case Some(m) => Near(u, m) && 0 <= m
    ensures p.frameIndex <= HALF && (peak.Some? ==> peak.value <= HALF) ==> u == p.frameIndex
  {
    if u < 0 {
      Residue(u, -1, u + MODULUS);
    } else if u < MODULUS {
      Residue(u, 0, u);
    }
  }

  /** Offers every unit of an accepted packet, in order. What is heard of an audio packet follows from
      Valid: the calls of the stream, the units included, explain the whole log. */
  method AvPacket(r: Receiver, p: Packet, copied: seq<bool>, ghost u: int)
    requires r.Valid() && |copied| == p.unitsTotal && PacketWindow(r, p, u)
    modifies r`framePrev, r`prev, r`nextFrameIndex, r`next, r`nextValid, r`started, r`startup, r`peak
    modifies r`count, r`table, r`sections, r`arrivals, r.heap, r.slots, r.audioSink, r.hapticsSink
    ensures r.Valid()
    ensures !Accepted(p) ==> r.Model() == old(r.Model()) && r.startup == old(r.startup) && r.prev == old(r.prev)
    ensures !Accepted(p) || p.isHaptics ==> r.arrivals == old(r.arrivals)
    ensures Accepted(p) && r.startup ==> old(r.startup) && u == p.frameIndex
    ensures Accepted(p) && !p.isHaptics ==>
      r.arrivals == old(r.arrivals) + Units(p, r.startup, u, copied, p.unitsTotal)
    ensures forall s: nat, f: nat, size: nat ::
      Header(p.unitsInFrameFec, s, f, size) && Accepted(p) && !p.isHaptics ==>
        && s + f == p.unitsTotal && |old(r.arrivals)| <= |r.arrivals|
        && AreOffers(r.arrivals[|old(r.arrivals)|..], p, r.startup, u, copied, s, f, size)
    ensures Accepted(p) && p.isHaptics ==>
      var (last, out) := Rising(old(r.prev), Units(p, r.startup, u, copied, p.unitsTotal));
      r.prev == last && (r.hapticsSink != null ==> r.hapticsSink.calls == old(r.hapticsSink.calls) + out)
  {
    hide Receiver.Valid, Accepted, Rising, Units, InReach, Spans, AreOffers;
    var fits := HeaderFits(p);
    if fits {
      NoteIndex(r, p, u);
      UnitsSpan(p, u);
      if p.isHaptics {
        HapticsUnits(r, p, copied, u, u - Fec(p), u + Source(p));
      } else {
        AudioUnits(r, p, copied, u, u - Fec(p), u + Source(p));
        OffersAdded(p, r.startup, u, copied, old(r.arrivals), r.arrivals);
      }
    }
  }

  lemma OffersAdded(p: Packet, startup: bool, u: int, copied: seq<bool>, before: seq<Arrival>, after: seq<Arrival>)
    requires Accepted(p) && |copied| == p.unitsTotal
    requires after == before + Units(p, startup, u, copied, p.unitsTotal)
    ensures forall s: nat, f: nat, size: nat :: Header(p.unitsInFrameFec, s, f, size) ==>
      s + f == p.unitsTotal && AreOffers(after[|before|..], p, startup, u, copied, s, f, size)
  {
    assert after[|before|..] == Units(p, startup, u, copied, p.unitsTotal);
    forall s: nat, f: nat, size: nat | Header(p.unitsInFrameFec, s, f, size)
      ensures s + f == p.unitsTotal && AreOffers(after[|before|..], p, startup, u, copied, s, f, size)
    {
      OffersInWords(p, startup, u, copied, s, f, size);
    }
  }

  /** The header and the length of the data agree. */
  method HeaderFits(p: Packet) returns (fits: bool)
    ensures fits == Accepted(p)
    ensures forall s: nat, f: nat, size: nat :: Header(p.unitsInFrameFec, s, f, size) ==>
      (fits <==> p.codec == 5 && p.data != [] && p.unitsTotal == s + f && |p.data| == size * (s + f))
  {
    forall s: nat, f: nat, size: nat | Header(p.unitsInFrameFec, s, f, size)
      ensures Accepted(p) <==> p.codec == 5 && p.data != [] && p.unitsTotal == s + f && |p.data| == size * (s + f)
    {
      AcceptedInWords(p, s, f, size);
    }
    var source, fec, unitSize := p.unitsInFrameFec % 16, p.unitsInFrameFec / 16 % 16, p.unitsInFrameFec / 256;
    TotalIsProduct(unitSize, p.unitsTotal);
    fits := p.codec == 5 && |p.data| > 0 && fec + source == p.unitsTotal && |p.data| == unitSize * p.unitsTotal;
  }

  /** A packet index above 2^15 ends the startup phase. */
  method NoteIndex(r: Receiver, p: Packet, ghost u: int)
    requires r.Valid() && p.frameIndex == Wrap(u)
    requires match r.peak case None => 0 <= u < MODULUS case Some(m) => Near(u, m)
    modifies r`startup, r`peak
    ensures r.Valid() && r.startup == (old(r.startup) && p.frameIndex <= HALF)
    ensures r.startup ==> u == p.frameIndex
  {
    hide Receiver.Between;
    if p.frameIndex > HALF {
      r.startup := false;
    }
    NotWrapped(p, u, r.peak);
    r.peak := Some(if r.peak.Some? && r.peak.value > u then r.peak.value else u);
  }

  /** Numbers one unit as the code does, in 16 bits, and cuts it out of the data. */
  method CutUnit(p: Packet, i: nat, ghost u: int) returns (frameIndex: Seq16, bytes: Bytes)
    requires Accepted(p) && i < p.unitsTotal && p.frameIndex == Wrap(u)
    ensures frameIndex == Wrap(UnitIndex(p, u, i)) && bytes == UnitBytes(p, i)
    ensures forall s: nat, f: nat, size: nat :: Header(p.unitsInFrameFec, s, f, size) ==>
      && frameIndex == Wrap(if i < s then u + i else u - f + (i - s))
      && bytes == Piece(p.data, size, i)
  {
    forall s: nat, f: nat, size: nat | Header(p.unitsInFrameFec, s, f, size)
      ensures UnitIndex(p, u, i) == (if i < s then u + i else u - f + (i - s))
      ensures UnitBytes(p, i) == Piece(p.data, size, i)
    {
      UnitInWords(p, u, i, s, f, size);
    }
    var source, fec, unitSize := p.unitsInFrameFec % 16, p.unitsInFrameFec / 16 % 16, p.unitsInFrameFec / 256;
    frameIndex := if i < source then Wrap(p.frameIndex + i) else Wrap(p.frameIndex - fec + (i - source));
    UnitNumberWraps(p, u, i);
    UnitInside(p, i);
    bytes := p.data[unitSize * i..unitSize * i + unitSize];
  }

  method OfferUnit(r: Receiver, p: Packet, i: nat, copied: bool, ghost u: int)
    requires r.Valid() && Accepted(p) && i < p.unitsTotal && p.frameIndex == Wrap(u)
    requires if p.isHaptics then Near(UnitIndex(p, u, i), r.prev) else r.InWindow(UnitIndex(p, u, i))
    modifies r`framePrev, r`prev, r`nextFrameIndex, r`next, r`nextValid, r`started
    modifies r`count, r`table, r`sections, r`arrivals, r.heap, r.slots, r.audioSink, r.hapticsSink
    ensures r.Valid()
    ensures !p.isHaptics ==>
      var a := Arrival(UnitIndex(p, u, i), UnitBytes(p, i), copied);
      r.arrivals == old(r.arrivals) + [a] && r.Model() == Answer(r.audioSink != null, old(r.Model()), a)
    ensures p.isHaptics ==>
      var k := UnitIndex(p, u, i);
      && r.Model() == old(r.Model()) && r.arrivals == old(r.arrivals)
      && r.prev == (if k > old(r.prev) then k else old(r.prev))
      && (r.hapticsSink != null ==>
            r.hapticsSink.calls
            == old(r.hapticsSink.calls) + (if k > old(r.prev) then [Callback(k, UnitBytes(p, i))] else []))
  {
    hide Receiver.Valid, UnitBytes, UnitIndex, Accepted, Answer;
    var frameIndex, bytes := CutUnit(p, i, u);
    r.Frame(frameIndex, p.isHaptics, bytes, copied, UnitIndex(p, u, i));
  }

  method AudioUnit(r: Receiver, p: Packet, i: nat, copied: bool, ghost u: int, ghost lo: int, ghost hi: int)
    requires r.Valid() && Accepted(p) && i < p.unitsTotal && p.frameIndex == Wrap(u) && Spans(p, u, lo, hi)
    requires !p.isHaptics && InReach(r.Model(), lo, hi)
    modifies r`framePrev, r`prev, r`nextFrameIndex, r`next, r`nextValid, r`started
    modifies r`count, r`table, r`sections, r`arrivals, r.heap, r.slots, r.audioSink, r.hapticsSink
    ensures r.Valid() && InReach(r.Model(), lo, hi)
    ensures r.arrivals == old(r.arrivals) + [Arrival(UnitIndex(p, u, i), UnitBytes(p, i), copied)]
  {
    ReachStays(r.audioSink != null, r.Model(), Arrival(UnitIndex(p, u, i), UnitBytes(p, i), copied), lo, hi);
    OfferUnit(r, p, i, copied, u);
  }

  method AudioUnits(r: Receiver, p: Packet, copied: seq<bool>, ghost u: int, ghost lo: int, ghost hi: int)
    requires r.Valid() && Accepted(p) && |copied| == p.unitsTotal && p.frameIndex == Wrap(u) && Spans(p, u, lo, hi)
    requires !p.isHaptics && InReach(r.Model(), lo, hi)
    modifies r`framePrev, r`prev, r`nextFrameIndex, r`next, r`nextValid, r`started
    modifies r`count, r`table, r`sections, r`arrivals, r.heap, r.slots, r.audioSink, r.hapticsSink
    ensures r.Valid()
    ensures r.arrivals == old(r.arrivals) + Units(p, r.startup, u, copied, p.unitsTotal)
  {
    hide Receiver.Valid, Answer, InReach;
    ghost var startup, before := r.startup, r.arrivals;
    for i := 0 to p.unitsTotal
      invariant r.startup == startup && r.Valid() && InReach(r.Model(), lo, hi)
      invariant r.arrivals == before + Units(p, startup, u, copied, i)
    {
      UnitsStep(p, startup, u, copied, i);
      if !Skipped(p, r.startup, i) {
        AudioUnit(r, p, i, copied[i], u, lo, hi);
      }
    }
  }

  /** The same for haptics, which leave the jitter buffer alone. */
  ghost predicate Risen(r: Receiver, j: Jitter, before: int, calls: seq<Callback>, offered: seq<Arrival>,
                        lo: int, hi: int)
    reads r, r.hapticsSink
  {
    && r.Model() == j
    && r.prev - lo < HALF && hi - 1 - r.prev < HALF
    && r.prev == Rising(before, offered).0
    && (r.hapticsSink != null ==> r.hapticsSink.calls == calls + Rising(before, offered).1)
  }

  method HapticsUnit(r: Receiver, p: Packet, i: nat, copied: seq<bool>, ghost u: int, ghost lo: int, ghost hi: int,
                     ghost j: Jitter, ghost before: int, ghost calls: seq<Callback>, ghost offered: seq<Arrival>)
    requires r.Valid() && Accepted(p) && i < p.unitsTotal == |copied| && p.frameIndex == Wrap(u) && Spans(p, u, lo, hi)
    requires p.isHaptics && Risen(r, j, before, calls, offered, lo, hi)
    modifies r`framePrev, r`prev, r`nextFrameIndex, r`next, r`nextValid, r`started
    modifies r`count, r`table, r`sections, r`arrivals, r.heap, r.slots, r.audioSink, r.hapticsSink
    ensures r.Valid() && Risen(r, j, before, calls, WithUnit(p, r.startup, u, copied, offered, i), lo, hi)
    ensures r.arrivals == old(r.arrivals)
  {
    hide Receiver.Valid, Rising, Units, UnitBytes;
    if !Skipped(p, r.startup, i) {
      RisingGrows(before, offered, UnitArrival(p, u, copied, i), calls);
      OfferUnit(r, p, i, copied[i], u);
    }
  }

  method HapticsUnits(r: Receiver, p: Packet, copied: seq<bool>, ghost u: int, ghost lo: int, ghost hi: int)
    requires r.Valid() && Accepted(p) && |copied| == p.unitsTotal && p.frameIndex == Wrap(u) && Spans(p, u, lo, hi)
    requires p.isHaptics && r.prev - lo < HALF && hi - 1 - r.prev < HALF
    modifies r`framePrev, r`prev, r`nextFrameIndex, r`next, r`nextValid, r`started
    modifies r`count, r`table, r`sections, r`arrivals, r.heap, r.slots, r.audioSink, r.hapticsSink
    ensures r.Valid() && r.Model() == old(r.Model()) && r.arrivals == old(r.arrivals)
    ensures var (last, out) := Rising(old(r.prev), Units(p, r.startup, u, copied, p.unitsTotal));
      r.prev == last && (r.hapticsSink != null ==> r.hapticsSink.calls == old(r.hapticsSink.calls) + out)
  {
    hide Receiver.Valid;
    ghost var startup, j, before := r.startup, r.Model(), r.prev;
    ghost var calls := if r.hapticsSink != null then r.hapticsSink.calls else [];
    for i := 0 to p.unitsTotal
      invariant r.startup == startup && r.Valid()
      invariant Risen(r, j, before, calls, Units(p, startup, u, copied, i), lo, hi)
      invariant r.arrivals == old(r.arrivals)
    {
      HapticsUnit(r, p, i, copied, u, lo, hi, j, before, calls, Units(p, startup, u, copied, i));
      UnitsStep(p, startup, u, copied, i);
    }
  }

  /** The packet index is the first of its stream or near the greatest so far, and all its units
      are within the serial window of what they will be compared with. */
  ghost predicate PacketWindow(r: Receiver, p: Packet, u: int)
    reads r
  {
    && p.frameIndex == Wrap(u)
    && (match r.peak case None => 0 <= u < MODULUS case Some(m) => Near(u, m))
    && (if p.isHaptics then r.prev - (u - Fec(p)) < HALF && u + Source(p) - 1 - r.prev < HALF
        else InReach(r.Model(), u - Fec(p), u + Source(p)))
  }
}
