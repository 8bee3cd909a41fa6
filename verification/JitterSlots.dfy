/**
  The slot table of the audio jitter buffer as a sequence: which unbounded frames it holds, which
  heap copies it owns, and what emptying or filling one slot does to both.
  */
module JitterSlots {
  import opened SerialNumbers
  import opened JitterSpec

  /** A heap copy of a frame; NULL stands for a frame of size 0. */
  datatype Buf = Null | Block(id: nat, bytes: Bytes)

  function BytesOf(b: Buf): Bytes {
    if b.Null? then [] else b.bytes
  }

  function Ids(b: Buf): set<nat> {
    if b.Null? then {} else {b.id}
  }

  datatype Slot = Slot(occupied: bool, frameIndex: Seq16, buf: Buf, ghost index: int)

  const FREE := Slot(false, 0, Null, 0)

  ghost function Frames(slots: seq<Slot>): map<int, Bytes> {
    if slots == [] then map[]
    else
      var last := slots[|slots| - 1];
      var frames := Frames(slots[..|slots| - 1]);
      if last.occupied then frames[last.index := BytesOf(last.buf)] else frames
  }

  /** The copies the table owns. */
  ghost function Copies(slots: seq<Slot>): set<nat> {
    if slots == [] then {} else Copies(slots[..|slots| - 1]) + Ids(slots[|slots| - 1].buf)
  }

  /** `rest` is `all` without the given copy. */
  ghost predicate ButOne(all: set<nat>, rest: set<nat>, buf: Buf) {
    match buf
    case Null => rest == all
    case Block(copy, _) => copy !in rest && forall id :: id in all <==> id in rest || id == copy
  }

  /** Occupied slots hold distinct indices under their 16-bit numbers and own distinct non-empty copies. */
  ghost predicate Table(slots: seq<Slot>) {
    slots == [] ||
    var front, last := slots[..|slots| - 1], slots[|slots| - 1];
    && Table(front)
    && (last.occupied ==> last.index !in Frames(front) && last.frameIndex == Wrap(last.index))
    && (last.buf.Block? ==> last.occupied && last.buf.bytes != [] && last.buf.id !in Copies(front))
  }

  function Count(slots: seq<Slot>): nat {
    if slots == [] then 0
    else Count(slots[..|slots| - 1]) + (if slots[|slots| - 1].occupied then 1 else 0)
  }

  lemma {:induction false} CountIsSize(slots: seq<Slot>)
    requires Table(slots)
    ensures |Frames(slots)| == Count(slots) <= |slots|
    ensures Count(slots) == |slots| <==> forall i :: 0 <= i < |slots| ==> slots[i].occupied
  {
    if slots != [] {
      CountIsSize(slots[..|slots| - 1]);
    }
  }

  lemma {:induction false} Member(slots: seq<Slot>, i: nat)
    requires Table(slots) && i < |slots| && slots[i].occupied
    ensures slots[i].index in Frames(slots) && slots[i].frameIndex == Wrap(slots[i].index)
    ensures slots[i].buf.Block? ==> slots[i].buf.bytes != []
  {
    if i < |slots| - 1 {
      Member(slots[..|slots| - 1], i);
    }
  }

  lemma {:induction false} Locate(slots: seq<Slot>, u: int) returns (i: nat)
    requires u in Frames(slots)
    ensures i < |slots| && slots[i].occupied && slots[i].index == u
  {
    var last := |slots| - 1;
    if slots[last].occupied && slots[last].index == u {
      i := last;
    } else {
      i := Locate(slots[..last], u);
    }
  }

  lemma {:induction false} Owner(slots: seq<Slot>, i: nat)
    requires i < |slots|
    ensures Ids(slots[i].buf) <= Copies(slots)
  {
    if i < |slots| - 1 {
      Owner(slots[..|slots| - 1], i);
    }
  }

  /** Emptying a slot removes its frame and its copy, and nothing else. */
  lemma {:induction false} Without(slots: seq<Slot>, i: nat, empty: Slot)
    requires Table(slots) && i < |slots| && slots[i].occupied && !empty.occupied && empty.buf == Null
    ensures Table(slots[i := empty])
    ensures slots[i].index in Frames(slots) && Frames(slots)[slots[i].index] == BytesOf(slots[i].buf)
    ensures Frames(slots[i := empty]) == Frames(slots) - {slots[i].index}
    ensures Count(slots[i := empty]) == Count(slots) - 1
    ensures ButOne(Copies(slots), Copies(slots[i := empty]), slots[i].buf)
  {
    var end := |slots| - 1;
    var front, after := slots[..end], slots[i := empty];
    if i == end {
      assert after[..end] == front;
    } else {
      assert after[..end] == front[i := empty] && after[end] == slots[end];
      Without(front, i, empty);
      Member(front, i);
      Owner(front, i);
    }
  }

  /** The same for any slot: a free one has no frame and no copy to lose. */
  lemma Vacated(slots: seq<Slot>, i: nat)
    requires Table(slots) && i < |slots|
    ensures var after := slots[i := slots[i].(occupied := false, buf := Null)];
      && Table(after)
      && ButOne(Copies(slots), Copies(after), slots[i].buf)
  {
    var empty := slots[i].(occupied := false, buf := Null);
    if slots[i].occupied {
      Without(slots, i, empty);
    } else {
      FreeIsNull(slots, i);
      assert slots[i := empty] == slots;
    }
  }

  lemma {:induction false} FreeIsNull(slots: seq<Slot>, i: nat)
    requires Table(slots) && i < |slots| && !slots[i].occupied
    ensures slots[i].buf == Null
  {
    if i < |slots| - 1 {
      FreeIsNull(slots[..|slots| - 1], i);
    }
  }

  lemma {:induction false} NoneOccupied(slots: seq<Slot>)
    requires Table(slots) && forall i :: 0 <= i < |slots| ==> !slots[i].occupied
    ensures Frames(slots) == map[] && Count(slots) == 0 && Copies(slots) == {}
  {
    if slots != [] {
      NoneOccupied(slots[..|slots| - 1]);
    }
  }

  /** Filling a free slot adds one frame and its copy, and nothing else. */
  lemma {:induction false} With(slots: seq<Slot>, i: nat, full: Slot)
    requires Table(slots) && i < |slots| && !slots[i].occupied
    requires full.occupied && full.frameIndex == Wrap(full.index) && full.index !in Frames(slots)
    requires full.buf.Block? ==> full.buf.bytes != [] && full.buf.id !in Copies(slots)
    ensures Table(slots[i := full])
    ensures Frames(slots[i := full]) == Frames(slots)[full.index := BytesOf(full.buf)]
    ensures Count(slots[i := full]) == Count(slots) + 1
    ensures ButOne(Copies(slots[i := full]), Copies(slots), full.buf)
  {
    var end := |slots| - 1;
    var front, after := slots[..end], slots[i := full];
    if i == end {
      assert after[..end] == front;
    } else {
      assert after[..end] == front[i := full] && after[end] == slots[end];
      With(front, i, full);
    }
  }

  lemma {:induction false} AllFree(n: nat)
    ensures var slots := seq(n, _ => FREE);
      Table(slots) && Frames(slots) == map[] && Copies(slots) == {} && Count(slots) == 0
  {
    if n > 0 {
      AllFree(n - 1);
      assert seq(n, _ => FREE)[..n - 1] == seq(n - 1, _ => FREE);
    }
  }
}
