/**
  The reset-seed slot (gui/src/qmlmainwindow.cpp:3822-3891, 4422-4452): one cloned frame, kept for
  one reset generation, to start the picture again from.
  */
module SeedSpec {
  import opened Wrappers
  import PendingSpec

  datatype Seed = Seed(frame: nat, pts: real, generation: nat)

  /** A frame offered for a generation (`clone` is the outcome of cloning it), or a request for one. */
  datatype Event = Offer(clone: Option<nat>, pts: real, generation: nat) | Apply(generation: nat)

  predicate Valid(e: Event) {
    e.Offer? && e.clone.Some? && e.generation != 0
  }

  function Next(slot: Option<Seed>, e: Event): Option<Seed> {
    match e
    case Apply(_) => None
    case Offer(clone, pts, generation) =>
      if !Valid(e) then slot
      else if slot.Some? && slot.value.generation == generation && pts <= slot.value.pts + PendingSpec.EPSILON then slot
      else Some(Seed(clone.value, pts, generation))
  }

  function After(trace: seq<Event>): Option<Seed> {
    if trace == [] then None else Next(After(trace[..|trace| - 1]), trace[|trace| - 1])
  }

  /** The generation the last valid offer was for, unless the slot was asked for since. */
  function Holder(trace: seq<Event>): Option<nat> {
    if trace == [] then None
    else
      var e := trace[|trace| - 1];
      if e.Apply? then None
      else if Valid(e) then Some(e.generation)
      else Holder(trace[..|trace| - 1])
  }

  /** The valid offers since the slot took its present generation. */
  function Offers(trace: seq<Event>): seq<Event> {
    if trace == [] then []
    else
      var before, e := trace[..|trace| - 1], trace[|trace| - 1];
      if e.Apply? then []
      else if !Valid(e) then Offers(before)
      else if Holder(before) == Some(e.generation) then Offers(before) + [e]
      else [e]
  }

  ghost predicate AtMost(offers: seq<Event>, generation: nat, pts: real) {
    forall e :: e in offers ==> e.Offer? && e.generation == generation && e.pts <= pts
  }

  /** The slot holds one of the frames offered since it took its generation, and the greatest pts
      among them is at most epsilon above the one it holds: refusals do not add up. */
  ghost predicate HoldsNewest(trace: seq<Event>) {
    match After(trace)
    case None => Holder(trace) == None && Offers(trace) == []
    case Some(seed) =>
      && Holder(trace) == Some(seed.generation)
      && Offer(Some(seed.frame), seed.pts, seed.generation) in Offers(trace)
      && AtMost(Offers(trace), seed.generation, seed.pts + PendingSpec.EPSILON)
  }

  lemma {:induction false} SlotHoldsNewest(trace: seq<Event>)
    ensures HoldsNewest(trace)
  {
    if trace != [] {
      SlotHoldsNewest(trace[..|trace| - 1]);
    }
  }

  /** What a request gets: a frame if and only if the slot's generation is the one requested. */
  function Handed(slot: Option<Seed>, generation: nat): Option<Seed> {
    if slot.Some? && slot.value.generation == generation then slot else None
  }

  /** Over every run: a request is answered exactly when the last valid offer since the last request
      was for its generation, with a frame within epsilon of the greatest pts offered for it since the
      slot took that generation; and it leaves the slot empty either way. */
  lemma RequestGetsNewest(trace: seq<Event>, generation: nat)
    ensures var got := Handed(After(trace), generation);
      && (got.Some? <==> Holder(trace) == Some(generation))
      && (got.Some? ==>
            Offer(Some(got.value.frame), got.value.pts, generation) in Offers(trace)
            && AtMost(Offers(trace), generation, got.value.pts + PendingSpec.EPSILON))
      && After(trace + [Apply(generation)]) == None
  {
    SlotHoldsNewest(trace);
    assert (trace + [Apply(generation)])[..|trace|] == trace;
  }
}

module ResetSeed {
  import opened Wrappers
  import PendingSpec
  import opened SeedSpec

  class SeedSlot {
    var frame: Option<nat>
    var pts: real
    var generation: nat
    ghost var freed: seq<nat>

    ghost function Model(): Option<Seed>
      reads this
    {
      if frame.None? then None else Some(Seed(frame.value, pts, generation))
    }

    constructor ()
      ensures Model() == None && freed == []
    {
      frame, pts, generation, freed := None, 0.0, 0, [];
    }

    method Empty()
      modifies this`frame, this`pts, this`generation
      ensures Model() == None
    {
      frame, pts, generation := None, 0.0, 0;
    }

    /** Every clone made is either kept in the slot or freed; the frame it replaces is freed. */
    method Store(clone: Option<nat>, newPts: real, newGeneration: nat) returns (stored: bool)
      modifies this
      ensures Model() == Next(old(Model()), Offer(clone, newPts, newGeneration))
      ensures var later := old(frame).None? || old(generation) != newGeneration || newPts > old(pts) + 0.000001;
        stored <==> newGeneration != 0 && clone.Some? && later
      ensures !stored ==> Model() == old(Model())
      ensures stored ==> clone.Some? && Model() == Some(Seed(clone.value, newPts, newGeneration))
      ensures newGeneration == 0 || clone.None? ==> !stored && freed == old(freed)
      ensures newGeneration != 0 && clone.Some? ==>
        freed == old(freed) + if !stored then [clone.value] else if old(frame).Some? then [old(frame).value] else []
    {
      if newGeneration == 0 || clone.None? {
        return false;
      }
      if frame.Some? && generation != newGeneration {
        freed := freed + [frame.value];
        Empty();
      }
      if frame.Some? && newPts <= pts + PendingSpec.EPSILON {
        freed := freed + [clone.value];
        return false;
      }
      if frame.Some? {
        freed := freed + [frame.value];
      }
      frame, pts, generation := clone, newPts, newGeneration;
      return true;
    }

    /** The locked section of applyResetSeedFrame. */
    method Request(wanted: nat) returns (got: Option<Seed>)
      modifies this
      ensures got == Handed(old(Model()), wanted) && Model() == Next(old(Model()), Apply(wanted))
      ensures got.Some? <==> old(frame).Some? && old(generation) == wanted
      ensures got.Some? ==> got.value == Seed(old(frame).value, old(pts), wanted)
      ensures frame.None?
      ensures freed == old(freed) + if got.None? && old(frame).Some? then [old(frame).value] else []
    {
      if frame.None? {
        return None;
      }
      if generation != wanted {
        freed := freed + [frame.value];
        Empty();
        return None;
      }
      got := Some(Seed(frame.value, pts, generation));
      Empty();
    }
  }
}
