/** Properties of the Level.h helpers that relate several calls, or relate a
    helper to an independent definition of what it computes. */
module LevelProperties {
  import opened MachineTypes
  import opened Level

  /** `y` is a point of [lo, hi] at least as close to `v` as any other point. */
  ghost predicate IsNearest(y: int, v: int, lo: int, hi: int) {
    lo <= y <= hi && forall z :: lo <= z <= hi ==> Dist(y, v) <= Dist(z, v)
  }

  /** With ordered bounds, levelling picks the point of the range nearest to
      the value. */
  lemma NivelarRangoIsNearest(v: int, lo: int, hi: int)
    requires lo <= hi
    ensures IsNearest(NivelarRango(v, lo, hi), v, lo, hi)
  {
  }

  /** ... and it is the only such point. */
  lemma NearestIsNivelarRango(y: int, v: int, lo: int, hi: int)
    requires IsNearest(y, v, lo, hi)
    ensures y == NivelarRango(v, lo, hi)
  {
    var r := NivelarRango(v, lo, hi);
    NivelarRangoIsNearest(v, lo, hi);
    assert Dist(y, v) <= Dist(r, v);
    assert Dist(r, v) <= Dist(y, v);
  }

  /** A value below the minimum becomes exactly the minimum; a value above the
      maximum that is not below the minimum becomes exactly the maximum. */
  lemma OutOfRangeTakesBound(v: int, lo: int, hi: int)
    ensures v < lo ==> NivelarRango(v, lo, hi) == lo
    ensures lo <= v && hi < v ==> NivelarRango(v, lo, hi) == hi
  {
  }

  /** With inverted bounds the lower bound wins for every value below it, and
      every other value is sent to the upper bound. */
  lemma LowerBoundTakesPrecedence(v: int, lo: int, hi: int)
    requires hi < lo
    ensures NivelarRango(v, lo, hi) == (if v < lo then lo else hi)
  {
  }

  /** Levelling twice with the same bounds is the same as levelling once
      exactly when the bounds are ordered; with inverted bounds the second
      call always moves the value to the other bound. */
  lemma IdempotentIffOrderedBounds(v: int, lo: int, hi: int)
    ensures NivelarRango(NivelarRango(v, lo, hi), lo, hi) == NivelarRango(v, lo, hi) <==> lo <= hi
  {
  }

  /** With ordered bounds levelling preserves the order of values; with
      inverted bounds it does not. */
  lemma NivelarRangoMonotone(v1: int, v2: int, lo: int, hi: int)
    requires lo <= hi
    requires v1 <= v2
    ensures NivelarRango(v1, lo, hi) <= NivelarRango(v2, lo, hi)
  {
  }

  lemma InvertedBoundsBreakMonotonicity(lo: int, hi: int)
    requires hi < lo
    ensures NivelarRango(lo - 1, lo, hi) > NivelarRango(lo, lo, hi)
  {
  }

  /** `n` successive calls on the same variable with the same bounds, as a
      control loop does once per tick. */
  function Reapply(n: nat, v: int, lo: int, hi: int): int
    decreases n
  {
    if n == 0 then v else Reapply(n - 1, NivelarRango(v, lo, hi), lo, hi)
  }

  /** With ordered bounds, any number of calls agrees with one call. */
  lemma {:induction false} ReapplyStable(n: nat, v: int, lo: int, hi: int)
    requires lo <= hi
    requires 1 <= n
    ensures Reapply(n, v, lo, hi) == NivelarRango(v, lo, hi)
  {
    if n > 1 {
      var w := NivelarRango(v, lo, hi);
      ReapplyStable(n - 1, w, lo, hi);
      assert NivelarRango(w, lo, hi) == w;
    }
  }

  /** With inverted bounds the variable never settles: successive calls
      alternate between the two bounds, starting from the one the first call
      picks. */
  lemma {:induction false} ReapplyAlternates(n: nat, v: int, lo: int, hi: int)
    requires hi < lo
    requires 1 <= n
    ensures Reapply(n, v, lo, hi) == (if (v < lo) == (n % 2 == 1) then lo else hi)
  {
    if n > 1 {
      var w := NivelarRango(v, lo, hi);
      ReapplyAlternates(n - 1, w, lo, hi);
      assert (w < lo) == !(v < lo);
    }
  }

  /** The `long` overload gives the same result as the `int` overload on every
      input both accept. */
  lemma LongOverloadAgreesWithInt(v: Int16, lo: Int16, hi: Int16)
    ensures NivelarRangoLong(v, lo, hi) == NivelarRangoInt(v, lo, hi)
  {
  }

  /** Both ends of the band are excluded; the points one step inside them are
      included whenever the band is not empty. */
  lemma ToleranceBoundsExclusive(ref: Int16, t: Byte)
    requires InInt16(ref - t) && InInt16(ref + t)
    ensures !ComparaConTolerancia(ref + t, ref, t)
    ensures !ComparaConTolerancia(ref - t, ref, t)
    ensures 1 <= t ==> ComparaConTolerancia(ref + t - 1, ref, t)
    ensures 1 <= t ==> ComparaConTolerancia(ref - t + 1, ref, t)
  {
  }

  /** A zero tolerance matches nothing, not even the reference itself. */
  lemma ZeroToleranceMatchesNothing(v: Int16, ref: Int16)
    ensures !ComparaConTolerancia(v, ref, 0)
  {
  }

  /** A value is within tolerance of itself exactly when the tolerance is at
      least one. */
  lemma ToleranceReflexiveIffPositive(v: Int16, t: Byte)
    requires InInt16(v - t) && InInt16(v + t)
    ensures ComparaConTolerancia(v, v, t) <==> 1 <= t
  {
  }

  /** Swapping value and reference does not change the answer. */
  lemma ToleranceSymmetric(a: Int16, b: Int16, t: Byte)
    requires InInt16(a - t) && InInt16(a + t)
    requires InInt16(b - t) && InInt16(b + t)
    ensures ComparaConTolerancia(a, b, t) == ComparaConTolerancia(b, a, t)
  {
  }

  /** Widening the tolerance never turns a match into a mismatch. */
  lemma ToleranceMonotone(v: Int16, ref: Int16, t1: Byte, t2: Byte)
    requires t1 <= t2
    requires InInt16(ref - t2) && InInt16(ref + t2)
    ensures ComparaConTolerancia(v, ref, t1) ==> ComparaConTolerancia(v, ref, t2)
  {
  }

  /** The two helpers agree: a value is within tolerance `t` of `ref` exactly
      when levelling it into the closed range [ref - t + 1, ref + t - 1]
      leaves it unchanged. */
  lemma ToleranceIsClampFixedPoint(v: Int16, ref: Int16, t: Byte)
    requires InInt16(ref - t) && InInt16(ref + t)
    ensures ComparaConTolerancia(v, ref, t) <==> NivelarRango(v, ref - t + 1, ref + t - 1) == v
  {
  }
}
