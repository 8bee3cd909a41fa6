/**
  Wrapping 16-bit frame numbers (lib/include/chiaki/seqnum.h), compared in the style of RFC 1982,
  and their relation to unbounded indices: number u travels on the wire as Wrap(u).
  */
module SerialNumbers {
  const MODULUS: int := 0x1_0000
  const HALF: int := 0x8000

  type Seq16 = n: int | 0 <= n < 0x1_0000

  function Wrap(u: int): Seq16 {
    u % MODULUS
  }

  predicate Lt(a: Seq16, b: Seq16) {
    var d := b - a;
    a != b && ((a < b && d < HALF) || (a > b && -d > HALF))
  }

  predicate Gt(a: Seq16, b: Seq16) {
    var d := b - a;
    a != b && ((a < b && d > HALF) || (a > b && -d < HALF))
  }

  /** Two unbounded indices that the 16-bit comparators can tell apart. */
  predicate Near(u: int, v: int) {
    -HALF < u - v < HALF
  }

  /** The 16-bit comparisons agree with the unbounded order on u and v. */
  predicate Faithful(u: int, v: int) {
    && (Lt(Wrap(u), Wrap(v)) <==> u < v)
    && (Gt(Wrap(u), Wrap(v)) <==> u > v)
    && (Wrap(u) == Wrap(v) <==> u == v)
  }

  /** What the comparators decide for any two indices: the wrapped distance, read as a signed number. */
  lemma ComparisonIsWrappedDistance(u: int, v: int)
    ensures Lt(Wrap(u), Wrap(v)) <==> 0 < (v - u) % MODULUS < HALF
    ensures Gt(Wrap(u), Wrap(v)) <==> HALF < (v - u) % MODULUS
  {
    var a, b := Wrap(u), Wrap(v);
    var q := v / MODULUS - u / MODULUS;
    assert v - u == MODULUS * q + (b - a);
    if b >= a {
      Residue(v - u, q, b - a);
    } else {
      Residue(v - u, q - 1, b - a + MODULUS);
    }
  }

  lemma Residue(x: int, q: int, r: Seq16)
    requires x == MODULUS * q + r
    ensures x % MODULUS == r
  {
  }

  lemma NearIsFaithful(u: int, v: int)
    requires Near(u, v)
    ensures Faithful(u, v)
  {
    ComparisonIsWrappedDistance(u, v);
  }

  /** The serial window is exact: within one period the comparators are right if and only if the
      distance is below 2^15 (at 2^15 neither holds, beyond it both are reversed). */
  lemma FaithfulExactlyWhenNear(u: int, v: int)
    requires -MODULUS < u - v < MODULUS
    ensures Faithful(u, v) <==> Near(u, v)
  {
    ComparisonIsWrappedDistance(u, v);
    ComparisonIsWrappedDistance(v, u);
  }

  /** Outside the window the order is not even transitive: three numbers form a cycle. */
  lemma OrderHasCycles()
    ensures exists a: Seq16, b: Seq16, c: Seq16 :: Lt(a, b) && Lt(b, c) && Lt(c, a)
  {
    assert Lt(0, 30000) && Lt(30000, 50000) && Lt(50000, 0);
  }

  /** Wrapping an intermediate result does not change the final one. */
  lemma WrapAdds(u: int, k: int)
    ensures Wrap(Wrap(u) + k) == Wrap(u + k)
  {
    assert u + k == MODULUS * (u / MODULUS) + (Wrap(u) + k);
    var w := Wrap(u) + k;
    Residue(u + k, u / MODULUS + w / MODULUS, Wrap(w));
  }

  lemma WrapZero()
    ensures Wrap(0) == 0
  {
  }
}
