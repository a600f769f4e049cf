/** The step geometry both shadow marches share: integer shifts along one azimuth and the
    height the ray has climbed after each shift, with the loop test that ends a march. */
module Rays {
  import opened Planes

  /** Round to the nearest integer, ties to the even one. */
  function RoundHalfEven(x: real): (n: int)
    ensures n as real - 0.5 <= x <= n as real + 0.5
    ensures x == n as real - 0.5 || x == n as real + 0.5 ==> n % 2 == 0
  {
    var n := x.Floor;
    var frac := x - n as real;
    if frac < 0.5 then n
    else if frac > 0.5 then n + 1
    else if n % 2 == 0 then n else n + 1
  }

  lemma RoundMonotone(x: real, y: real)
    requires x <= y
    ensures RoundHalfEven(x) <= RoundHalfEven(y)
  {
  }

  lemma RoundAdvances(x: real, r: real, k: nat)
    requires 0.0 <= r <= 1.0 && (r == 1.0 ==> x == k as real)
    ensures RoundHalfEven(x) <= RoundHalfEven(x + r) <= RoundHalfEven(x) + 1
  {
    RoundMonotone(x, x + r);
    if r < 1.0 {
      assert RoundHalfEven(x + r) as real < (RoundHalfEven(x) + 2) as real;
    }
  }

  function Signed(sign: int, m: int): int {
    if sign > 0 then m else if sign < 0 then -m else 0
  }

  /** One azimuth and altitude as the source sees them. `ratio` is |1/tan azimuth| on the
      sine-dominant branch and |tan azimuth| on the other; `rise` is ds * (tan altitude / scale). */
  datatype Bearing = Bearing(sineDominant: bool, signSin: int, signCos: int, ratio: real, rise: real) {

    predicate Valid() {
      && -1 <= signSin <= 1 && -1 <= signCos <= 1
      && (if sineDominant then signSin != 0 else signCos != 0)
      && 0.0 <= ratio <= 1.0 && rise > 0.0
    }

    /** ratio * k, one step at a time. */
    function Along(k: nat): real {
      if k == 0 then 0.0 else Along(k - 1) + ratio
    }

    function Minor(k: nat): int {
      RoundHalfEven(Along(k))
    }

    function Dx(k: nat): int {
      -Signed(signCos, if sineDominant then Minor(k) else k)
    }

    function Dy(k: nat): int {
      Signed(signSin, if sineDominant then k else Minor(k))
    }

    /** rise * k, one step at a time. */
    function Dz(k: nat): real {
      if k == 0 then 0.0 else Dz(k - 1) + rise
    }

    /** The sequence of steps a march along this bearing takes. */
    function Steps(): Ray {
      Ray(sineDominant, (k: nat) => Dx(k), (k: nat) => Dy(k), (k: nat) => Dz(k))
    }
  }

  /** The closed forms the source computes at step k. */
  lemma {:induction false} StepClosedForms(b: Bearing, k: nat)
    ensures b.Dz(k) == b.rise * k as real
    ensures b.Along(k) == b.ratio * k as real
  {
    if k > 0 {
      StepClosedForms(b, k - 1);
      assert k as real == (k - 1) as real + 1.0;
    }
  }

  lemma {:induction false} DzIncreases(b: Bearing, k: nat, l: nat)
    requires b.Valid() && k < l
    ensures b.Dz(k) < b.Dz(l)
  {
    if k + 1 < l {
      DzIncreases(b, k, l - 1);
    }
  }

  lemma {:induction false} AlongBounds(b: Bearing, k: nat)
    requires b.Valid()
    ensures 0.0 <= b.Along(k) <= k as real
    ensures b.ratio == 1.0 ==> b.Along(k) == k as real
  {
    if k > 0 {
      AlongBounds(b, k - 1);
    }
  }

  /** The shorter offset starts at zero and advances by at most one cell per step. Ties to even
      could jump by two only between half-integers one apart, which needs a ratio of one. */
  lemma MinorAdvances(b: Bearing, k: nat)
    requires b.Valid()
    ensures 0 <= b.Minor(k) <= k
    ensures b.Minor(k) <= b.Minor(k + 1) <= b.Minor(k) + 1
  {
    AlongBounds(b, k);
    assert b.Along(k + 1) == b.Along(k) + b.ratio;
    RoundAdvances(b.Along(k), b.ratio, k);
  }

  /** n is the integer nearest to x, the even one of two. */
  predicate Nearest(x: real, n: int) {
    && n as real - 0.5 <= x <= n as real + 0.5
    && (x == n as real - 0.5 || x == n as real + 0.5 ==> n % 2 == 0)
  }

  /** Which way and how far step k of a bearing goes: against the sign of the cosine along the rows,
      with the sign of the sine along the columns, k cells on the dominant axis and ratio * k cells,
      rounded, on the other. */
  lemma StepDirection(b: Bearing, k: nat)
    requires b.Valid()
    ensures if b.signCos > 0 then b.Dx(k) <= 0 else if b.signCos < 0 then b.Dx(k) >= 0 else b.Dx(k) == 0
    ensures if b.signSin > 0 then b.Dy(k) >= 0 else if b.signSin < 0 then b.Dy(k) <= 0 else b.Dy(k) == 0
    ensures b.sineDominant ==> Abs(b.Dy(k)) == k && (b.signCos != 0 ==> Nearest(b.ratio * k as real, Abs(b.Dx(k))))
    ensures !b.sineDominant ==> Abs(b.Dx(k)) == k && (b.signSin != 0 ==> Nearest(b.ratio * k as real, Abs(b.Dy(k))))
  {
    MinorAdvances(b, k);
    StepClosedForms(b, k);
  }

  /** A sequence of steps, abstractly: all a march needs to know about its direction. */
  datatype Ray = Ray(alongCols: bool, dx: nat -> int, dy: nat -> int, dz: nat -> real) {

    ghost predicate Valid() {
      && dx(0) == 0 && dy(0) == 0 && dz(0) == 0.0
      && (forall k: nat, l: nat | k < l :: dz(k) < dz(l))
      && (forall k: nat :: Abs(if alongCols then dy(k) else dx(k)) == k)
      && (forall k: nat, l: nat | l == k + 1 :: Abs(dx(l)) <= Abs(dx(k)) + 1)
      && (forall k: nat, l: nat | l == k + 1 :: Abs(dy(l)) <= Abs(dy(k)) + 1)
    }

    /** The while test as it stands after k steps: it looks at the last step taken. */
    predicate Continues(rows: nat, cols: nat, amplitude: real, k: nat) {
      amplitude >= dz(k) && Abs(dx(k)) < rows && Abs(dy(k)) < cols
    }

    function Reach(rows: nat, cols: nat): nat {
      if alongCols then cols else rows
    }
  }

  /** Every bearing of the sky gives a well-formed step sequence. */
  lemma BearingStepsValid(b: Bearing)
    requires b.Valid()
    ensures b.Steps().Valid()
  {
    var ray := b.Steps();
    forall k: nat, l: nat | k < l ensures ray.dz(k) < ray.dz(l) {
      DzIncreases(b, k, l);
    }
    forall k: nat ensures Abs(if ray.alongCols then ray.dy(k) else ray.dx(k)) == k {
    }
    forall k: nat, l: nat | l == k + 1
      ensures Abs(ray.dx(l)) <= Abs(ray.dx(k)) + 1 && Abs(ray.dy(l)) <= Abs(ray.dy(k)) + 1
    {
      MinorAdvances(b, k);
    }
    MinorAdvances(b, 0);
  }

  function StepsFrom(ray: Ray, rows: nat, cols: nat, amplitude: real, k: nat): (n: nat)
    requires ray.Valid()
    ensures k <= n && !ray.Continues(rows, cols, amplitude, n)
    ensures forall l | k <= l < n :: ray.Continues(rows, cols, amplitude, l)
    decreases ray.Reach(rows, cols) - k
  {
    if ray.Continues(rows, cols, amplitude, k)
    then StepsFrom(ray, rows, cols, amplitude, k + 1)
    else k
  }

  /** How many times the march body runs, the overshoot step included. */
  function StepCount(ray: Ray, rows: nat, cols: nat, amplitude: real): (n: nat)
    requires ray.Valid()
    ensures !ray.Continues(rows, cols, amplitude, n)
    ensures forall l | 0 <= l < n :: ray.Continues(rows, cols, amplitude, l)
  {
    StepsFrom(ray, rows, cols, amplitude, 0)
  }

  /** Every executed shift, overshoot included, fits in the plane, and a march never takes more
      steps than the plane is long on the dominant axis. */
  lemma ExecutedShiftsFit(ray: Ray, rows: nat, cols: nat, amplitude: real, k: nat)
    requires ray.Valid() && k <= StepCount(ray, rows, cols, amplitude)
    ensures Abs(ray.dx(k)) <= rows && Abs(ray.dy(k)) <= cols
    ensures k <= ray.Reach(rows, cols)
  {
    if k > 0 {
      NextShiftFits(ray, rows, cols, amplitude, k);
    }
  }

  lemma NextShiftFits(ray: Ray, rows: nat, cols: nat, amplitude: real, k: nat)
    requires ray.Valid() && k > 0 && ray.Continues(rows, cols, amplitude, k - 1)
    ensures Abs(ray.dx(k)) <= rows && Abs(ray.dy(k)) <= cols && k <= ray.Reach(rows, cols)
  {
    var l := k - 1;
    assert Abs(ray.dx(k)) <= Abs(ray.dx(l)) + 1 && Abs(ray.dy(k)) <= Abs(ray.dy(l)) + 1;
  }

  /** What one more pass through the loop relies on. */
  lemma LoopContinues(ray: Ray, rows: nat, cols: nat, amplitude: real, k: nat)
    requires ray.Valid() && k > 0 && amplitude >= ray.dz(k - 1) && Abs(ray.dx(k - 1)) < rows && Abs(ray.dy(k - 1)) < cols
    ensures Abs(ray.dx(k)) <= rows && Abs(ray.dy(k)) <= cols && k <= ray.Reach(rows, cols)
    ensures StepsFrom(ray, rows, cols, amplitude, k - 1) == StepsFrom(ray, rows, cols, amplitude, k)
  {
    NextShiftFits(ray, rows, cols, amplitude, k);
  }

  lemma SameCount(ray: Ray, rows: nat, cols: nat, amplitude: real, n: nat)
    requires ray.Valid() && !ray.Continues(rows, cols, amplitude, n)
    requires forall l | 0 <= l < n :: ray.Continues(rows, cols, amplitude, l)
    ensures n == StepCount(ray, rows, cols, amplitude)
  {
  }

  /** A march with a smaller amplitude is a prefix of one with a larger, and a strictly shorter
      one was ended by its amplitude. */
  lemma SmallerAmplitudeIsPrefix(ray: Ray, rows: nat, cols: nat, low: real, high: real)
    requires ray.Valid() && low <= high
    ensures StepCount(ray, rows, cols, low) <= StepCount(ray, rows, cols, high)
    ensures StepCount(ray, rows, cols, low) < StepCount(ray, rows, cols, high)
        ==> ray.dz(StepCount(ray, rows, cols, low)) > low
  {
    var n, m := StepCount(ray, rows, cols, low), StepCount(ray, rows, cols, high);
    assert m < n ==> ray.Continues(rows, cols, low, m);
    if n < m {
      assert ray.Continues(rows, cols, high, n);
    }
  }
}
