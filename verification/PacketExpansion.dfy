/**
  How one audio packet becomes frames: `source` units from the packet's own index on, then `fec`
  units that repeat the frames just before it (lib/src/audioreceiver.c:86-139).
  */
module PacketExpansion {
  import opened SerialNumbers
  import opened JitterSpec

  type Word = n: int | 0 <= n < 0x1_0000

  datatype Packet = Packet(codec: nat, unitsInFrameFec: Word, unitsTotal: Word,
                           frameIndex: Seq16, isHaptics: bool, data: Bytes)

  function Source(p: Packet): nat { p.unitsInFrameFec % 16 }

  function Fec(p: Packet): nat { p.unitsInFrameFec / 16 % 16 }

  function UnitSize(p: Packet): nat { p.unitsInFrameFec / 256 }

  /** size * count, as a sum. */
  function Total(size: nat, count: nat): nat {
    if count == 0 then 0 else Total(size, count - 1) + size
  }

  lemma {:induction false} TotalIsProduct(size: nat, count: nat)
    ensures Total(size, count) == size * count
  {
    if count > 0 {
      TotalIsProduct(size, count - 1);
    }
  }

  lemma {:induction false} TotalGrows(size: nat, i: nat, count: nat)
    requires i < count
    ensures Total(size, i) + size <= Total(size, count)
    ensures size == 0 ==> Total(size, count) == 0
  {
    if i < count - 1 {
      TotalGrows(size, i, count - 1);
    } else if i > 0 {
      TotalGrows(size, i - 1, i);
    }
  }

  predicate Accepted(p: Packet) {
    && p.codec == 5
    && p.data != []
    && Fec(p) + Source(p) == p.unitsTotal
    && |p.data| == Total(UnitSize(p), p.unitsTotal)
  }

  /** The startup rule, on the 16-bit packet index as the code computes it. */
  predicate Skipped(p: Packet, startup: bool, i: nat) {
    i >= Source(p) && startup && p.frameIndex + (i - Source(p)) < Fec(p) + 1
  }

  /** The unbounded index of unit i of the packet with unbounded index u. */
  function UnitIndex(p: Packet, u: int, i: nat): int {
    if i < Source(p) then u + i else u - Fec(p) + (i - Source(p))
  }

  /** All unit indices of the packet lie from lo up to hi. */
  ghost predicate Spans(p: Packet, u: int, lo: int, hi: int) {
    lo <= hi <= lo + 30 && forall i: nat :: i < p.unitsTotal ==> lo <= UnitIndex(p, u, i) < hi
  }

  lemma UnitsSpan(p: Packet, u: int)
    requires Accepted(p)
    ensures Spans(p, u, u - Fec(p), u + Source(p))
  {
  }

  /** Piece i of data cut into pieces of the given size. */
  function Piece(data: Bytes, size: nat, i: nat): Bytes {
    var start := size * i;
    if 0 <= start && start + size <= |data| then data[start..start + size] else []
  }

  function UnitBytes(p: Packet, i: nat): Bytes {
    Piece(p.data, UnitSize(p), i)
  }

  lemma UnitInside(p: Packet, i: nat)
    requires Accepted(p) && i < p.unitsTotal
    ensures 0 <= UnitSize(p) * i <= UnitSize(p) * i + UnitSize(p) <= |p.data|
    ensures UnitSize(p) > 0 && UnitBytes(p, i) == p.data[UnitSize(p) * i..UnitSize(p) * i + UnitSize(p)]
  {
    UnitFits(p, i);
  }

  lemma UnitFits(p: Packet, i: nat)
    requires Accepted(p) && i < p.unitsTotal
    ensures UnitSize(p) * i + UnitSize(p) <= |p.data| && UnitSize(p) > 0
  {
    TotalIsProduct(UnitSize(p), i);
    TotalGrows(UnitSize(p), i, p.unitsTotal);
  }

  function UnitArrival(p: Packet, u: int, copied: seq<bool>, i: nat): Arrival
    requires i < |copied|
  {
    Arrival(UnitIndex(p, u, i), UnitBytes(p, i), copied[i])
  }

  function WithUnit(p: Packet, startup: bool, u: int, copied: seq<bool>, before: seq<Arrival>, i: nat): seq<Arrival>
    requires i < |copied|
  {
    if Skipped(p, startup, i) then before else before + [UnitArrival(p, u, copied, i)]
  }

  /** The frames offered by the first n units, in order. */
  function Units(p: Packet, startup: bool, u: int, copied: seq<bool>, n: nat): seq<Arrival>
    requires n <= |copied|
  {
    if n == 0 then [] else WithUnit(p, startup, u, copied, Units(p, startup, u, copied, n - 1), n - 1)
  }

  lemma UnitsStep(p: Packet, startup: bool, u: int, copied: seq<bool>, n: nat)
    requires n < |copied|
    ensures Units(p, startup, u, copied, n + 1)
         == WithUnit(p, startup, u, copied, Units(p, startup, u, copied, n), n)
  {
  }

  function Concat(p: Packet, n: nat): Bytes
  {
    if n == 0 then [] else Concat(p, n - 1) + UnitBytes(p, n - 1)
  }

  /** The units tile the packet's data: no byte is dropped, repeated or shared. */
  lemma UnitsTileTheData(p: Packet)
    requires Accepted(p)
    ensures Concat(p, p.unitsTotal) == p.data
  {
    PrefixTiles(p, p.unitsTotal);
    TotalIsProduct(UnitSize(p), p.unitsTotal);
    assert p.data[..|p.data|] == p.data;
  }

  lemma {:induction false} PrefixTiles(p: Packet, n: nat)
    requires Accepted(p) && n <= p.unitsTotal
    ensures UnitSize(p) * n <= |p.data|
    ensures Concat(p, n) == p.data[..UnitSize(p) * n]
  {
    if n > 0 {
      PrefixTiles(p, n - 1);
      UnitInside(p, n - 1);
      assert UnitSize(p) * n == UnitSize(p) * (n - 1) + UnitSize(p);
    }
  }

  /** The 16-bit number the code computes for a unit is its unbounded index, wrapped. */
  lemma UnitNumberWraps(p: Packet, u: int, i: nat)
    requires p.frameIndex == Wrap(u)
    ensures Wrap(UnitIndex(p, u, i)) ==
      if i < Source(p) then Wrap(p.frameIndex + i) else Wrap(p.frameIndex - Fec(p) + (i - Source(p)))
  {
    WrapAdds(u, UnitIndex(p, u, i) - u);
  }

  /** Index k is due from the packet. */
  predicate Covers(p: Packet, startup: bool, u: int, k: int) {
    u - Fec(p) <= k < u + Source(p) && !(startup && k < u && k < 1)
  }

  ghost predicate Offers(units: seq<Arrival>, k: int) {
    exists i :: 0 <= i < |units| && units[i].index == k
  }

  /** An accepted packet offers exactly the indices from u - fec up to u + source, each once, except
      that while the startup flag holds (so the packet index has not wrapped) precisely the FEC
      indices below 1 are left out. No frame offered is empty. */
  lemma {:induction false} UnitsCoverEachIndexOnce(p: Packet, startup: bool, u: int, copied: seq<bool>)
    requires Accepted(p) && |copied| == p.unitsTotal && (startup ==> u == p.frameIndex)
    ensures var units := Units(p, startup, u, copied, p.unitsTotal);
      && (forall a :: a in units ==> Covers(p, startup, u, a.index) && a.bytes != [])
      && (forall k :: Covers(p, startup, u, k) ==> Offers(units, k))
      && Distinct(units)
  {
    var units := Units(p, startup, u, copied, p.unitsTotal);
    PrefixUnits(p, startup, u, copied, p.unitsTotal);
    UnitsDistinct(p, startup, u, copied, p.unitsTotal);
    forall k | Covers(p, startup, u, k) ensures Offers(units, k) {
      var n := if k < u then Source(p) + (k - u + Fec(p)) else k - u;
      assert UnitIndex(p, u, n) == k;
      var i := UnitIsOffered(p, startup, u, copied, p.unitsTotal, n);
      assert units[i].index == k;
    }
  }

  lemma {:induction false} PrefixUnits(p: Packet, startup: bool, u: int, copied: seq<bool>, n: nat)
    requires Accepted(p) && n <= p.unitsTotal == |copied| && (startup ==> u == p.frameIndex)
    ensures forall a :: a in Units(p, startup, u, copied, n) ==> Covers(p, startup, u, a.index) && a.bytes != []
  {
    if n > 0 {
      PrefixUnits(p, startup, u, copied, n - 1);
      UnitInside(p, n - 1);
    }
  }

  /** Source indices first, in rising order, then FEC indices: within both a later unit is greater. */
  lemma {:induction false} NotYetOffered(p: Packet, startup: bool, u: int, copied: seq<bool>, n: nat, m: nat)
    requires Accepted(p) && n <= m < p.unitsTotal == |copied|
    ensures forall a :: a in Units(p, startup, u, copied, n) ==> a.index != UnitIndex(p, u, m)
  {
    if n > 0 {
      NotYetOffered(p, startup, u, copied, n - 1, m);
    }
  }

  predicate Distinct(units: seq<Arrival>) {
    forall i, j :: 0 <= i < j < |units| ==> units[i].index != units[j].index
  }

  lemma DistinctGrows(before: seq<Arrival>, a: Arrival)
    requires Distinct(before) && forall b :: b in before ==> b.index != a.index
    ensures Distinct(before + [a])
  {
  }

  lemma {:induction false} UnitsDistinct(p: Packet, startup: bool, u: int, copied: seq<bool>, n: nat)
    requires Accepted(p) && n <= p.unitsTotal == |copied|
    ensures Distinct(Units(p, startup, u, copied, n))
  {
    if n > 0 {
      UnitsDistinct(p, startup, u, copied, n - 1);
      NotYetOffered(p, startup, u, copied, n - 1, n - 1);
      DistinctGrows(Units(p, startup, u, copied, n - 1),
                    UnitArrival(p, u, copied, n - 1));
    }
  }

  lemma {:induction false} UnitIsOffered(p: Packet, startup: bool, u: int, copied: seq<bool>, n: nat, i: nat)
    returns (k: nat)
    requires Accepted(p) && i < n <= p.unitsTotal == |copied| && !Skipped(p, startup, i)
    ensures k < |Units(p, startup, u, copied, n)|
    ensures Units(p, startup, u, copied, n)[k].index == UnitIndex(p, u, i)
  {
    if i == n - 1 {
      k := |Units(p, startup, u, copied, n)| - 1;
    } else {
      k := UnitIsOffered(p, startup, u, copied, n - 1, i);
    }
  }

  // ---- What is read from the header, in its own terms ----

  /** The header word of packets with s source units and f FEC units of the given size. */
  predicate Header(word: Word, s: nat, f: nat, size: nat) {
    s < 16 && f < 16 && size < 256 && word == size * 256 + f * 16 + s
  }

  lemma HeaderIsRead(p: Packet, s: nat, f: nat, size: nat)
    requires Header(p.unitsInFrameFec, s, f, size)
    ensures Source(p) == s && Fec(p) == f && UnitSize(p) == size
  {
  }

  lemma AcceptedInWords(p: Packet, s: nat, f: nat, size: nat)
    requires Header(p.unitsInFrameFec, s, f, size)
    ensures Accepted(p) <==> p.codec == 5 && p.data != [] && p.unitsTotal == s + f && |p.data| == size * (s + f)
  {
    HeaderIsRead(p, s, f, size);
    TotalIsProduct(size, p.unitsTotal);
  }

  lemma UnitInWords(p: Packet, u: int, i: nat, s: nat, f: nat, size: nat)
    requires Accepted(p) && i < p.unitsTotal && Header(p.unitsInFrameFec, s, f, size)
    ensures UnitIndex(p, u, i) == (if i < s then u + i else u - f + (i - s))
    ensures UnitBytes(p, i) == Piece(p.data, size, i)
  {
    HeaderIsRead(p, s, f, size);
    UnitInside(p, i);
  }

  /** How many of f FEC units the startup rule leaves out: those whose index would be below 1. */
  function Skips(startup: bool, frameIndex: nat, f: nat): nat {
    if !startup || frameIndex > f then 0 else if frameIndex == 0 then f else f + 1 - frameIndex
  }

  /** The offers of a packet with index u: u, u + 1, ..., u + s - 1 and then u - f, ..., u - 1, each with
      its own piece of the data; the startup rule leaves out the first of the latter. */
  ghost predicate AreOffers(units: seq<Arrival>, p: Packet, startup: bool, u: int, copied: seq<bool>,
                            s: nat, f: nat, size: nat)
    requires s + f <= |copied|
  {
    var skips := Skips(startup, p.frameIndex, f);
    && |units| == s + f - skips
    && (forall i :: 0 <= i < s ==> units[i] == Arrival(u + i, Piece(p.data, size, i), copied[i]))
    && (forall i :: s <= i < |units| ==>
          units[i] == Arrival(u - f + (i + skips - s), Piece(p.data, size, i + skips), copied[i + skips]))
  }

  lemma OffersInWords(p: Packet, startup: bool, u: int, copied: seq<bool>, s: nat, f: nat, size: nat)
    requires Accepted(p) && |copied| == p.unitsTotal && Header(p.unitsInFrameFec, s, f, size)
    ensures s + f == p.unitsTotal
    ensures AreOffers(Units(p, startup, u, copied, p.unitsTotal), p, startup, u, copied, s, f, size)
  {
    HeaderIsRead(p, s, f, size);
    var units := Units(p, startup, u, copied, p.unitsTotal);
    var skips := Skips(startup, p.frameIndex, f);
    OffersPrefix(p, startup, u, copied, p.unitsTotal, skips);
    hide Units, Accepted;
    forall i | 0 <= i < s ensures units[i] == Arrival(u + i, Piece(p.data, size, i), copied[i]) {
      UnitInWords(p, u, i, s, f, size);
    }
    forall i | s <= i < |units|
      ensures units[i] == Arrival(u - f + (i + skips - s), Piece(p.data, size, i + skips), copied[i + skips])
    {
      UnitInWords(p, u, i + skips, s, f, size);
    }
  }

  lemma {:induction false} OffersPrefix(p: Packet, startup: bool, u: int, copied: seq<bool>, n: nat, skipped: nat)
    requires n <= p.unitsTotal == |copied| && p.unitsTotal == Source(p) + Fec(p) && skipped <= Fec(p)
    requires forall i: nat :: i < p.unitsTotal ==>
      (Skipped(p, startup, i) <==> Source(p) <= i < Source(p) + skipped)
    ensures var units, s := Units(p, startup, u, copied, n), Source(p);
      && |units| == (if n <= s then n else if n <= s + skipped then s else n - skipped)
      && (forall i :: 0 <= i < |units| && i < s ==> units[i] == UnitArrival(p, u, copied, i))
      && (forall i :: s <= i < |units| ==> units[i] == UnitArrival(p, u, copied, i + skipped))
  {
    if n > 0 {
      OffersPrefix(p, startup, u, copied, n - 1, skipped);
      hide UnitArrival;
    }
  }
}
