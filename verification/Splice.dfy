/** Why only the corridor closure of an edit has to be marched again: outside it the edited scene
    looks the same, and where the marches stop at different steps the surplus steps see nothing in
    the tile. */
module Splice {
  import opened Planes
  import opened Rays
  import opened ShadowMarch
  import opened ShadowLaws
  import opened Scenes

  /** Refused exactly when the effective amplitudes differ and the scene with the smaller one is
      clamped by its absolute stop. */
  predicate ClampGuardPasses(pre: MarchInputs, post: MarchInputs)
    requires pre.Shaped() && post.Shaped()
  {
    var low, high := EffectiveAmplitude(pre), EffectiveAmplitude(post);
    if low == high then true
    else if low < high then RelativeBound(pre) <= pre.amaxvalue
    else RelativeBound(post) <= post.amaxvalue
  }

  /** Scenes of one tile. */
  predicate SameTile(x: MarchInputs, y: MarchInputs) {
    x.Shaped() && y.Shaped() && x.rows == y.rows && x.cols == y.cols
  }

  /** From (i, j) the two scenes show the same views during steps 1..n. */
  ghost predicate SameViews(x: MarchInputs, y: MarchInputs, ray: Ray, i: int, j: int, n: nat)
    requires SameTile(x, y) && InGrid(x.rows, x.cols, i, j)
  {
    && SameAt(x.Marched(), y.Marched(), i, j)
    && forall k | 1 <= k <= n :: Look(x.Marched(), ray, i, j, k) == Look(y.Marched(), ray, i, j, k)
  }

  /** Two marches of one ray: the old scene x stopped at ex, the new scene y at ey. */
  ghost predicate BothMarched(x: MarchInputs, y: MarchInputs, ray: Ray, ex: real, ey: real) {
    SameTile(x, y) && ray.Valid() && ClampGuardPasses(x, y) && Admissible(x, ex) && Admissible(y, ey)
  }

  /** An unclamped scene shows nothing once its effective amplitude is climbed past. */
  lemma UnclampedIsBlind(m: MarchInputs, ray: Ray, e: real, i: int, j: int, k: nat)
    requires m.Shaped() && InGrid(m.rows, m.cols, i, j) && RelativeBound(m) <= m.amaxvalue
    requires EffectiveAmplitude(m) <= e < ray.dz(k)
    ensures BlindInside(m.Marched(), ray, i, j, k)
  {
    BoundIsRelief(m);
    NothingInView(m.Marched(), ray, i, j, k, RelativeBound(m));
  }

  lemma BlindTransfers(x: MarchInputs, y: MarchInputs, ray: Ray, i: int, j: int, n: nat, k: nat)
    requires SameTile(x, y) && InGrid(x.rows, x.cols, i, j) && SameViews(x, y, ray, i, j, n) && 1 <= k <= n
    requires BlindInside(x.Marched(), ray, i, j, k)
    ensures BlindInside(y.Marched(), ray, i, j, k)
  {
    assert Look(x.Marched(), ray, i, j, k) == Look(y.Marched(), ray, i, j, k);
  }

  /** The smaller march belongs to a clamped scene: the guard then makes the larger one unclamped,
      with an effective amplitude the smaller march has already climbed past. */
  lemma LargerIsUnclamped(x: MarchInputs, y: MarchInputs, ex: real, ey: real)
    requires SameTile(x, y) && ClampGuardPasses(x, y)
    requires Admissible(x, ex) && Admissible(y, ey) && ex < ey && RelativeBound(x) > x.amaxvalue
    ensures RelativeBound(y) <= y.amaxvalue && EffectiveAmplitude(y) <= ex
  {
    ClampedAmplitude(x, ex);
    if RelativeBound(y) > y.amaxvalue {
      ClampedAmplitude(y, ey);
    }
  }

  lemma GuardIsSymmetric(x: MarchInputs, y: MarchInputs)
    requires x.Shaped() && y.Shaped()
    ensures ClampGuardPasses(x, y) == ClampGuardPasses(y, x)
  {
  }

  /** Past the last step at amplitude e every later step is higher. */
  lemma HigherThan(ray: Ray, rows: nat, cols: nat, e: real, high: real, k: nat)
    requires ray.Valid() && StepCount(ray, rows, cols, e) < k <= StepCount(ray, rows, cols, high)
    ensures e < high && e < ray.dz(k)
  {
    if high <= e {
      SmallerAmplitudeIsPrefix(ray, rows, cols, high, e);
      assert false;
    }
    SmallerAmplitudeIsPrefix(ray, rows, cols, e, high);
  }

  /** Steps the old march did not take but the oracle of the new scene does: the new scene shows
      nothing in them. */
  lemma OracleSurplus(x: MarchInputs, y: MarchInputs, ray: Ray, ex: real, ey: real, i: int, j: int, k: nat)
    requires BothMarched(x, y, ray, ex, ey) && InGrid(x.rows, x.cols, i, j)
    requires StepCount(ray, x.rows, x.cols, ex) < k <= StepCount(ray, x.rows, x.cols, y.amaxvalue)
    requires SameViews(x, y, ray, i, j, StepCount(ray, x.rows, x.cols, ey))
    ensures BlindInside(y.Marched(), ray, i, j, k)
  {
    if k > StepCount(ray, x.rows, x.cols, ey) {
      HigherThan(ray, x.rows, x.cols, ey, y.amaxvalue, k);
      assert RelativeBound(y) <= y.amaxvalue;
      UnclampedIsBlind(y, ray, ey, i, j, k);
    } else {
      HigherThan(ray, x.rows, x.cols, ex, ey, k);
      if RelativeBound(x) <= x.amaxvalue {
        UnclampedIsBlind(x, ray, ex, i, j, k);
        BlindTransfers(x, y, ray, i, j, StepCount(ray, x.rows, x.cols, ey), k);
      } else {
        LargerIsUnclamped(x, y, ex, ey);
        UnclampedIsBlind(y, ray, ex, i, j, k);
      }
    }
  }

  /** Steps the old march took past the oracle of the new scene: the new scene shows nothing in
      them either. */
  lemma KeptSurplus(x: MarchInputs, y: MarchInputs, ray: Ray, ex: real, ey: real, i: int, j: int, k: nat)
    requires BothMarched(x, y, ray, ex, ey) && InGrid(x.rows, x.cols, i, j)
    requires StepCount(ray, x.rows, x.cols, y.amaxvalue) < k <= StepCount(ray, x.rows, x.cols, ex)
    requires SameViews(x, y, ray, i, j, StepCount(ray, x.rows, x.cols, ex))
    ensures BlindInside(y.Marched(), ray, i, j, k)
  {
    HigherThan(ray, x.rows, x.cols, y.amaxvalue, ex, k);
    if RelativeBound(y) <= y.amaxvalue {
      UnclampedIsBlind(y, ray, y.amaxvalue, i, j, k);
    } else {
      GuardIsSymmetric(x, y);
      LargerIsUnclamped(y, x, y.amaxvalue, ex);
      UnclampedIsBlind(x, ray, y.amaxvalue, i, j, k);
      BlindTransfers(x, y, ray, i, j, StepCount(ray, x.rows, x.cols, ex), k);
    }
  }

  /** Between the step counts of two marches, whichever is longer, the surplus steps are inert. */
  ghost predicate InertBetween(s: Surfaces, ray: Ray, i: int, j: int, n: nat, m: nat)
    requires s.Valid() && s.Has(i, j)
  {
    if n <= m then Inert(s, ray, i, j, n, m) else Inert(s, ray, i, j, m, n)
  }

  /** Where both marches look at unchanged cells only, the old output is the oracle's output of the
      new scene exactly where the surplus steps are inert; the step counts may differ either way. */
  lemma UnchangedViewsExactly(x: MarchInputs, y: MarchInputs, ray: Ray, ex: real, ey: real, i: int, j: int)
    requires BothMarched(x, y, ray, ex, ey) && InGrid(x.rows, x.cols, i, j)
    requires StepCount(ray, x.rows, x.cols, ex) >= 2 && StepCount(ray, x.rows, x.cols, ey) >= 2
    requires SameViews(x, y, ray, i, j, StepCount(ray, x.rows, x.cols, ex))
    requires SameViews(x, y, ray, i, j, StepCount(ray, x.rows, x.cols, ey))
    ensures March(x.Marched(), ray, ex, i, j) == March(y.Marched(), ray, y.amaxvalue, i, j) <==>
            InertBetween(y.Marched(), ray, i, j, StepCount(ray, x.rows, x.cols, ex), StepCount(ray, x.rows, x.cols, y.amaxvalue))
  {
    var n, m := StepCount(ray, x.rows, x.cols, ex), StepCount(ray, x.rows, x.cols, y.amaxvalue);
    Locality(x.Marched(), y.Marched(), ray, i, j, n);
    SmallerAmplitudeIsPrefix(ray, x.rows, x.cols, ey, y.amaxvalue);
    if n <= m {
      forall k | n < k <= m ensures BlindInside(y.Marched(), ray, i, j, k) {
        OracleSurplus(x, y, ray, ex, ey, i, j, k);
      }
      StopPointsExactly(y.Marched(), ray, i, j, n, m);
    } else {
      forall k | m < k <= n ensures BlindInside(y.Marched(), ray, i, j, k) {
        KeptSurplus(x, y, ray, ex, ey, i, j, k);
      }
      StopPointsExactly(y.Marched(), ray, i, j, m, n);
    }
  }

  /** Where the edge condition holds in both scenes, surplus steps are always inert. */
  lemma EdgesKeepSurplusInert(x: MarchInputs, y: MarchInputs, ray: Ray, ex: real, ey: real, i: int, j: int)
    requires BothMarched(x, y, ray, ex, ey) && InGrid(x.rows, x.cols, i, j) && EdgeInert(x) && EdgeInert(y)
    requires x.a[i][j] == y.a[i][j]
    ensures InertBetween(y.Marched(), ray, i, j, StepCount(ray, x.rows, x.cols, ex), StepCount(ray, x.rows, x.cols, y.amaxvalue))
  {
    if RelativeBound(x) > x.amaxvalue && RelativeBound(y) > y.amaxvalue {
      ClampedAmplitude(x, ex);
      ClampedAmplitude(y, y.amaxvalue);
    } else {
      assert x.Marched().Has(i, j) && y.Marched().Has(i, j);
    }
  }
}
