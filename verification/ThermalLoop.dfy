/** The thermal time loop (solweig_gpu/utci_process.py, `run_utci_window`, with the day and night
    branches of `Solweig_2022a_calc` and `TsWaveDelay_2015a` in solweig_gpu/solweig.py). The
    radiation physics is a parameter; what is modelled is the state carried from step to step. */
module ThermalLoop {
  import opened Planes
  import opened Arithmetic

  /** Planes are flattened: everything carried across steps is elementwise. */
  type Cells = seq<real>

  /** Number of carried planes: Tgmap1, Tgmap1E, Tgmap1S, Tgmap1W, Tgmap1N, TgOut1. */
  const CHANNELS: nat := 6

  /** 59 minutes as a fraction of a day. */
  const NEARLY_HOUR: real := 59.0 / 1440.0

  /** What the carried state is fed from. `source(i, d, water)` is the ground value plane of channel
      d at daytime step i, `nocturnal(i, water)` the upward flux at night, `weight` the delay
      function, `report` everything that is written out for one step. */
  datatype Physics<!Out> = Physics(
    cells: nat, timestep: real, landcover: bool,
    isDay: nat -> bool, isMidnight: nat -> bool,
    waterOf: nat -> real, midnightCi: nat -> real, dayCi: nat -> real,
    source: (nat, nat, Option<real>) -> Cells, nocturnal: (nat, Option<real>) -> Cells,
    weight: real -> real, report: (nat, real, Option<real>, seq<Cells>) -> Out)
  {
    ghost predicate Valid() {
      forall i, d, w :: |source(i, d, w)| == cells
    }
  }

  datatype State = State(planes: seq<Cells>, ci: real, water: Option<real>, firstday: real, timeadd: real) {
    predicate Fits(cells: nat) {
      |planes| == CHANNELS && forall d | 0 <= d < CHANNELS :: |planes[d]| == cells
    }
  }

  function Blend(now: Cells, stored: Cells, w: real): (r: Cells)
    requires |now| == |stored|
    ensures |r| == |now|
    ensures forall c | 0 <= c < |r| :: r[c] == now[c] * (1.0 - w) + stored[c] * w
  {
    seq(|now|, c requires 0 <= c < |now| => now[c] * (1.0 - w) + stored[c] * w)
  }

  /** The map the delay starts from: the first daytime step discards what was stored. */
  function Base(now: Cells, firstday: real, stored: Cells): Cells {
    if firstday == 1.0 then now else stored
  }

  datatype Delayed = Delayed(lup: Cells, timeadd: real, stored: Cells)

  /** Surface temperature wave delay. */
  function WaveDelay(now: Cells, firstday: real, timeadd: real, timestep: real, stored: Cells, weight: real -> real): (r: Delayed)
    requires |now| == |stored|
    ensures |r.lup| == |r.stored| == |now|
  {
    var base := Base(now, firstday, stored);
    if timeadd >= NEARLY_HOUR then
      var mixed := Blend(now, base, weight(timeadd));
      Delayed(mixed, if timestep > NEARLY_HOUR then timestep else 0.0, mixed)
    else
      Delayed(Blend(now, base, weight(timeadd + timestep)), timeadd + timestep, base)
  }

  // ---------------------------------------------------------------- one step

  /** The water temperature is set at midnight rows and at row 0, the clearness index at midnight. */
  function AtMidnight<Out>(ph: Physics<Out>, i: nat, s: State): State {
    var t := if ph.landcover && (ph.isMidnight(i) || i == 0) then s.(water := Some(ph.waterOf(i))) else s;
    if ph.isMidnight(i) then t.(ci := ph.midnightCi(i)) else t
  }

  function DelayOf<Out>(ph: Physics<Out>, i: nat, s: State, d: nat): (r: Delayed)
    requires ph.Valid() && s.Fits(ph.cells) && d < CHANNELS
    ensures |r.lup| == |r.stored| == ph.cells
  {
    WaveDelay(ph.source(i, d, s.water), s.firstday, s.timeadd, ph.timestep, s.planes[d], ph.weight)
  }

  function Delays<Out>(ph: Physics<Out>, i: nat, s: State): (r: seq<Delayed>)
    requires ph.Valid() && s.Fits(ph.cells)
    ensures |r| == CHANNELS && forall d | 0 <= d < CHANNELS :: r[d] == DelayOf(ph, i, s, d)
  {
    seq(CHANNELS, d requires 0 <= d < CHANNELS => DelayOf(ph, i, s, d))
  }

  function Lups(ds: seq<Delayed>): (r: seq<Cells>)
    ensures |r| == |ds| && forall d | 0 <= d < |ds| :: r[d] == ds[d].lup
  {
    seq(|ds|, d requires 0 <= d < |ds| => ds[d].lup)
  }

  function StoredMaps(ds: seq<Delayed>): (r: seq<Cells>)
    ensures |r| == |ds| && forall d | 0 <= d < |ds| :: r[d] == ds[d].stored
  {
    seq(|ds|, d requires 0 <= d < |ds| => ds[d].stored)
  }

  /** A daytime step; only the last of the six calls hands on the accumulated time. */
  function DayStep<Out>(ph: Physics<Out>, i: nat, s: State): (t: State)
    requires ph.Valid() && s.Fits(ph.cells)
    ensures t.Fits(ph.cells)
  {
    var ds := Delays(ph, i, s);
    State(StoredMaps(ds), ph.dayCi(i), s.water, 0.0, ds[5].timeadd)
  }

  function NightStep(s: State): State {
    s.(firstday := 1.0, timeadd := 0.0)
  }

  function StepState<Out>(ph: Physics<Out>, i: nat, s: State): (t: State)
    requires ph.Valid() && s.Fits(ph.cells)
    ensures t.Fits(ph.cells)
  {
    var m := AtMidnight(ph, i, s);
    if ph.isDay(i) then DayStep(ph, i, m) else NightStep(m)
  }

  function StepOut<Out>(ph: Physics<Out>, i: nat, s: State): Out
    requires ph.Valid() && s.Fits(ph.cells)
  {
    var m := AtMidnight(ph, i, s);
    if ph.isDay(i) then ph.report(i, ph.dayCi(i), m.water, Lups(Delays(ph, i, m)))
    else ph.report(i, m.ci, m.water, [ph.nocturnal(i, m.water)])
  }

  // ---------------------------------------------------------------- runs

  /** The state before step k of a run that starts at `start` in s. */
  function StateAt<Out>(ph: Physics<Out>, s: State, start: nat, k: nat): (t: State)
    requires ph.Valid() && s.Fits(ph.cells) && start <= k
    ensures t.Fits(ph.cells)
  {
    if k == start then s else StepState(ph, k - 1, StateAt(ph, s, start, k - 1))
  }

  function Outputs<Out>(ph: Physics<Out>, s: State, start: nat, stop: nat): (r: seq<Out>)
    requires ph.Valid() && s.Fits(ph.cells) && start <= stop
    ensures |r| == stop - start
  {
    if stop == start then []
    else Outputs(ph, s, start, stop - 1) + [StepOut(ph, stop - 1, StateAt(ph, s, start, stop - 1))]
  }

  function ColdState(cells: nat): (s: State)
    ensures s.Fits(cells) && s.ci == 1.0 && s.water.None? && s.firstday == 1.0 && s.timeadd == 0.0
    ensures forall d, c | 0 <= d < CHANNELS && 0 <= c < cells :: s.planes[d][c] == 0.0
  {
    State(seq(CHANNELS, _ => seq(cells, _ => 0.0)), 1.0, None, 1.0, 0.0)
  }

  /** What a run hands to its successor. */
  datatype Captured = Captured(state: State, nextStep: Option<int>)

  datatype Refusal = InvalidTimeRange | ResumedElsewhere | WrongExtent

  /** Run steps start..stop-1, cold or from a captured state. */
  method RunWindow<Out>(ph: Physics<Out>, start: int, stop: int, rows: nat, initial: Option<Captured>)
    returns (r: Result<(seq<Out>, Captured), Refusal>)
    requires ph.Valid()
    ensures r.Err? && r.error.InvalidTimeRange? <==> !(0 <= start < stop <= rows)
    ensures r.Err? && r.error.ResumedElsewhere? <==>
            0 <= start < stop <= rows && initial.Some? && initial.value.nextStep.Some? && initial.value.nextStep.value != start
    ensures r.Err? && r.error.WrongExtent? ==> initial.Some? && !initial.value.state.Fits(ph.cells)
    ensures r.Ok? ==> 0 <= start < stop <= rows && (initial.Some? ==> initial.value.state.Fits(ph.cells))
    ensures r.Ok? ==>
              var s := if initial.Some? then initial.value.state else ColdState(ph.cells);
              r.value == (Outputs(ph, s, start, stop), Captured(StateAt(ph, s, start, stop), Some(stop)))
  {
    if !(0 <= start < stop <= rows) {
      return Err(InvalidTimeRange);
    }
    var s := ColdState(ph.cells);
    if initial.Some? {
      if initial.value.nextStep.Some? && initial.value.nextStep.value != start {
        return Err(ResumedElsewhere);
      }
      if !initial.value.state.Fits(ph.cells) {
        return Err(WrongExtent);
      }
      s := initial.value.state;
    }
    ghost var first := s;
    var outputs := [];
    for i := start to stop
      invariant s.Fits(ph.cells) && s == StateAt(ph, first, start, i)
      invariant outputs == Outputs(ph, first, start, i)
    {
      outputs := outputs + [StepOut(ph, i, s)];
      s := StepState(ph, i, s);
    }
    r := Ok((outputs, Captured(s, Some(stop))));
  }

  // ---------------------------------------------------------------- warm starts

  lemma {:induction false} StatesCompose<Out>(ph: Physics<Out>, s: State, start: nat, k: nat, n: nat)
    requires ph.Valid() && s.Fits(ph.cells) && start <= k <= n
    ensures StateAt(ph, StateAt(ph, s, start, k), k, n) == StateAt(ph, s, start, n)
    decreases n
  {
    if k < n {
      StatesCompose(ph, s, start, k, n - 1);
    }
  }

  /** What a run writes at step j is decided by its state before j. */
  lemma {:induction false} OutputAt<Out>(ph: Physics<Out>, s: State, start: nat, n: nat, j: nat)
    requires ph.Valid() && s.Fits(ph.cells) && start <= j < n
    ensures Outputs(ph, s, start, n)[j - start] == StepOut(ph, j, StateAt(ph, s, start, j))
    decreases n
  {
    if j < n - 1 {
      OutputAt(ph, s, start, n - 1, j);
    }
  }

  /** A warm run from the state captured at k repeats the cold run from k on. */
  lemma WarmIsColdSuffix<Out>(ph: Physics<Out>, s: State, start: nat, k: nat, n: nat)
    requires ph.Valid() && s.Fits(ph.cells) && start <= k <= n
    ensures Outputs(ph, StateAt(ph, s, start, k), k, n) == Outputs(ph, s, start, n)[k - start..]
  {
    var warm, cold := Outputs(ph, StateAt(ph, s, start, k), k, n), Outputs(ph, s, start, n);
    forall i | 0 <= i < |warm| ensures warm[i] == cold[k - start..][i] {
      WarmOutputAt(ph, s, start, k, n, k + i);
    }
  }

  lemma WarmOutputAt<Out>(ph: Physics<Out>, s: State, start: nat, k: nat, n: nat, j: nat)
    requires ph.Valid() && s.Fits(ph.cells) && start <= k <= j < n
    ensures Outputs(ph, StateAt(ph, s, start, k), k, n)[j - k] == Outputs(ph, s, start, n)[j - start]
  {
    OutputAt(ph, StateAt(ph, s, start, k), k, n, j);
    OutputAt(ph, s, start, n, j);
    StatesCompose(ph, s, start, k, j);
  }

  // ---------------------------------------------------------------- forgotten planes

  /** Equal but for planes the next daytime step is going to discard. */
  predicate Alike(s: State, t: State) {
    && s.ci == t.ci && s.water == t.water && s.firstday == t.firstday && s.timeadd == t.timeadd
    && (s.firstday != 1.0 ==> s.planes == t.planes)
  }

  lemma AlikeDelays<Out>(ph: Physics<Out>, i: nat, s: State, t: State)
    requires ph.Valid() && s.Fits(ph.cells) && t.Fits(ph.cells) && Alike(s, t)
    ensures Delays(ph, i, s) == Delays(ph, i, t)
  {
    forall d | 0 <= d < CHANNELS ensures DelayOf(ph, i, s, d) == DelayOf(ph, i, t, d) {
    }
  }

  lemma AlikeStep<Out>(ph: Physics<Out>, i: nat, s: State, t: State)
    requires ph.Valid() && s.Fits(ph.cells) && t.Fits(ph.cells) && Alike(s, t)
    ensures StepOut(ph, i, s) == StepOut(ph, i, t)
    ensures Alike(StepState(ph, i, s), StepState(ph, i, t))
  {
    AlikeDelays(ph, i, AtMidnight(ph, i, s), AtMidnight(ph, i, t));
  }

  lemma {:induction false} AlikeStates<Out>(ph: Physics<Out>, s: State, t: State, start: nat, n: nat)
    requires ph.Valid() && s.Fits(ph.cells) && t.Fits(ph.cells) && start <= n && Alike(s, t)
    ensures Alike(StateAt(ph, s, start, n), StateAt(ph, t, start, n))
    decreases n
  {
    if start < n {
      AlikeStates(ph, s, t, start, n - 1);
      AlikeStep(ph, n - 1, StateAt(ph, s, start, n - 1), StateAt(ph, t, start, n - 1));
    }
  }

  lemma AlikeOutputAt<Out>(ph: Physics<Out>, s: State, t: State, start: nat, n: nat, j: nat)
    requires ph.Valid() && s.Fits(ph.cells) && t.Fits(ph.cells) && start <= j < n && Alike(s, t)
    ensures Outputs(ph, s, start, n)[j - start] == Outputs(ph, t, start, n)[j - start]
  {
    AlikeStates(ph, s, t, start, j);
    AlikeStep(ph, j, StateAt(ph, s, start, j), StateAt(ph, t, start, j));
    OutputAt(ph, s, start, n, j);
    OutputAt(ph, t, start, n, j);
  }

  /** Two runs whose states agree up to discarded planes write the same outputs ever after. */
  lemma AlikeRuns<Out>(ph: Physics<Out>, s: State, t: State, start: nat, n: nat)
    requires ph.Valid() && s.Fits(ph.cells) && t.Fits(ph.cells) && start <= n && Alike(s, t)
    ensures Outputs(ph, s, start, n) == Outputs(ph, t, start, n)
    ensures Alike(StateAt(ph, s, start, n), StateAt(ph, t, start, n))
  {
    AlikeStates(ph, s, t, start, n);
    var x, y := Outputs(ph, s, start, n), Outputs(ph, t, start, n);
    forall i | 0 <= i < |x| ensures x[i] == y[i] {
      AlikeOutputAt(ph, s, t, start, n, start + i);
    }
  }

  /** The zeros of a cold start never reach an output: any other planes give the same run. */
  lemma ColdZerosNeverLeak<Out>(ph: Physics<Out>, planes: seq<Cells>, start: nat, n: nat)
    requires ph.Valid() && start <= n && ColdState(ph.cells).(planes := planes).Fits(ph.cells)
    ensures Outputs(ph, ColdState(ph.cells), start, n) == Outputs(ph, ColdState(ph.cells).(planes := planes), start, n)
  {
    AlikeRuns(ph, ColdState(ph.cells), ColdState(ph.cells).(planes := planes), start, n);
  }

  /** A night step erases the history of the planes. */
  lemma NightErasesPlanes<Out>(ph: Physics<Out>, s: State, planes: seq<Cells>, i: nat, n: nat)
    requires ph.Valid() && s.Fits(ph.cells) && s.(planes := planes).Fits(ph.cells) && !ph.isDay(i) && i < n
    ensures Outputs(ph, s, i, n) == Outputs(ph, s.(planes := planes), i, n)
  {
    var t := s.(planes := planes);
    WarmIsColdSuffix(ph, s, i, i + 1, n);
    WarmIsColdSuffix(ph, t, i, i + 1, n);
    AlikeRuns(ph, StateAt(ph, s, i, i + 1), StateAt(ph, t, i, i + 1), i + 1, n);
    HeadAndRest(ph, s, i, n);
    HeadAndRest(ph, t, i, n);
  }

  lemma {:induction false} HeadAndRest<Out>(ph: Physics<Out>, s: State, start: nat, n: nat)
    requires ph.Valid() && s.Fits(ph.cells) && start < n
    ensures Outputs(ph, s, start, n) == [StepOut(ph, start, s)] + Outputs(ph, s, start, n)[1..]
    decreases n
  {
    if start + 1 < n {
      HeadAndRest(ph, s, start, n - 1);
    } else {
      assert Outputs(ph, s, start, start) == [];
    }
  }

  // ---------------------------------------------------------------- accumulated time

  predicate TimeInRange(timeadd: real, timestep: real) {
    0.0 <= timeadd < NEARLY_HOUR + timestep
  }

  /** Over every run with a non-negative timestep the accumulated time stays below 59 minutes plus
      one timestep. */
  lemma {:induction false} TimeStaysInRange<Out>(ph: Physics<Out>, s: State, start: nat, n: nat)
    requires ph.Valid() && s.Fits(ph.cells) && start <= n && ph.timestep >= 0.0 && TimeInRange(s.timeadd, ph.timestep)
    ensures TimeInRange(StateAt(ph, s, start, n).timeadd, ph.timestep)
    decreases n
  {
    if start < n {
      TimeStaysInRange(ph, s, start, n - 1);
    }
  }

  // ---------------------------------------------------------------- hull of the seen values

  /** The first step of the daytime stretch that step i belongs to. */
  function Morning<Out>(ph: Physics<Out>, start: nat, i: nat): (m: nat)
    requires start <= i
    ensures start <= m <= i
  {
    if i == start || !ph.isDay(i - 1) then i else Morning(ph, start, i - 1)
  }

  /** The fresh value channel d shows at cell c in daytime step k of the run. */
  function Seen<Out>(ph: Physics<Out>, s: State, start: nat, k: nat, d: nat, c: nat): real
    requires ph.Valid() && s.Fits(ph.cells) && start <= k && d < CHANNELS && c < ph.cells
  {
    ph.source(k, d, AtMidnight(ph, k, StateAt(ph, s, start, k)).water)[c]
  }

  /** The delayed flux of step k at cell c. */
  function LupAt<Out>(ph: Physics<Out>, s: State, start: nat, k: nat, d: nat, c: nat): real
    requires ph.Valid() && s.Fits(ph.cells) && start <= k && d < CHANNELS && c < ph.cells
  {
    DelayOf(ph, k, AtMidnight(ph, k, StateAt(ph, s, start, k)), d).lup[c]
  }

  ghost predicate DelayWeight(weight: real -> real) {
    forall t: real | t >= 0.0 :: 0.0 < weight(t) <= 1.0
  }

  lemma Between(x: real, y: real, w: real, lo: real, hi: real)
    requires lo <= x <= hi && lo <= y <= hi && 0.0 <= w <= 1.0
    ensures lo <= x * (1.0 - w) + y * w <= hi
  {
    NonNegativeProduct(x - lo, 1.0 - w);
    NonNegativeProduct(y - lo, w);
    NonNegativeProduct(hi - x, 1.0 - w);
    NonNegativeProduct(hi - y, w);
    assert (x - lo) * (1.0 - w) + (y - lo) * w == x * (1.0 - w) + y * w - lo;
    assert (hi - x) * (1.0 - w) + (hi - y) * w == hi - (x * (1.0 - w) + y * w);
  }

  lemma NonNegativeProduct(x: real, y: real)
    requires x >= 0.0 && y >= 0.0
    ensures x * y >= 0.0
  {
  }

  lemma DelayBetween(now: Cells, firstday: real, timeadd: real, timestep: real, stored: Cells, weight: real -> real,
                     c: nat, lo: real, hi: real)
    requires |now| == |stored| && c < |now| && timeadd >= 0.0 && timestep >= 0.0 && DelayWeight(weight)
    requires lo <= now[c] <= hi && (firstday != 1.0 ==> lo <= stored[c] <= hi)
    ensures var r := WaveDelay(now, firstday, timeadd, timestep, stored, weight);
            lo <= r.lup[c] <= hi && lo <= r.stored[c] <= hi && r.timeadd >= 0.0
  {
    var base := Base(now, firstday, stored);
    var w := weight(if timeadd >= NEARLY_HOUR then timeadd else timeadd + timestep);
    Between(now[c], base[c], w, lo, hi);
  }

  /** Every delayed flux and every stored map lies in the hull of the values seen since the first
      step of the day; a run resumed in mid-day adds the map it resumes from. */
  lemma {:induction false} DaytimeHull<Out>(ph: Physics<Out>, s: State, start: nat, i: nat, d: nat, c: nat, lo: real, hi: real)
    requires ph.Valid() && s.Fits(ph.cells) && start <= i && d < CHANNELS && c < ph.cells
    requires Morning(ph, start, i) == start && s.firstday != 1.0 ==> lo <= s.planes[d][c] <= hi
    requires TimeInRange(s.timeadd, ph.timestep) && ph.timestep >= 0.0 && DelayWeight(ph.weight)
    requires ph.isDay(i) && forall k | Morning(ph, start, i) <= k <= i :: lo <= Seen(ph, s, start, k, d, c) <= hi
    ensures lo <= LupAt(ph, s, start, i, d, c) <= hi
    ensures lo <= StateAt(ph, s, start, i + 1).planes[d][c] <= hi
    decreases i
  {
    var before := StateAt(ph, s, start, i);
    TimeStaysInRange(ph, s, start, i);
    if i > start && ph.isDay(i - 1) {
      DaytimeHull(ph, s, start, i - 1, d, c, lo, hi);
    } else {
      assert i > start ==> before.firstday == 1.0;
    }
    var m := AtMidnight(ph, i, before);
    assert lo <= Seen(ph, s, start, i, d, c) <= hi;
    DelayBetween(ph.source(i, d, m.water), m.firstday, m.timeadd, ph.timestep, m.planes[d], ph.weight, c, lo, hi);
  }

  // ---------------------------------------------------------------- one step, exactly

  predicate SetsWater<Out>(ph: Physics<Out>, k: nat) {
    ph.landcover && (ph.isMidnight(k) || k == 0)
  }

  lemma NextState<Out>(ph: Physics<Out>, s: State, start: nat, k: nat)
    requires ph.Valid() && s.Fits(ph.cells) && start <= k
    ensures StateAt(ph, s, start, k + 1) == StepState(ph, k, StateAt(ph, s, start, k))
  {
  }

  lemma ScalarStep<Out>(ph: Physics<Out>, k: nat, x: State)
    requires ph.Valid() && x.Fits(ph.cells)
    ensures StepState(ph, k, x).water == if SetsWater(ph, k) then Some(ph.waterOf(k)) else x.water
    ensures StepState(ph, k, x).ci == if ph.isDay(k) then ph.dayCi(k) else if ph.isMidnight(k) then ph.midnightCi(k) else x.ci
    ensures StepState(ph, k, x).firstday == if ph.isDay(k) then 0.0 else 1.0
  {
  }

  /** The fresh value, moved by the weight towards the stored one. */
  function Toward(w: real, now: real, stored: real): real {
    now + w * (stored - now)
  }

  lemma BlendMoves(now: real, stored: real, w: real)
    ensures now * (1.0 - w) + stored * w == Toward(w, now, stored)
  {
  }

  lemma DelayedFlux(now: Cells, firstday: real, timeadd: real, timestep: real, stored: Cells, weight: real -> real, c: nat)
    requires |now| == |stored| && c < |now|
    ensures var base := if firstday == 1.0 then now[c] else stored[c];
            var w := weight(if timeadd >= NEARLY_HOUR then timeadd else timeadd + timestep);
            WaveDelay(now, firstday, timeadd, timestep, stored, weight).lup[c] == Toward(w, now[c], base)
  {
    var base := if firstday == 1.0 then now[c] else stored[c];
    BlendMoves(now[c], base, weight(if timeadd >= NEARLY_HOUR then timeadd else timeadd + timestep));
  }

  lemma DelayedStore(now: Cells, firstday: real, timeadd: real, timestep: real, stored: Cells, weight: real -> real, c: nat)
    requires |now| == |stored| && c < |now|
    ensures var r := WaveDelay(now, firstday, timeadd, timestep, stored, weight);
            && r.stored[c] == (if timeadd >= NEARLY_HOUR then r.lup[c] else if firstday == 1.0 then now[c] else stored[c])
            && r.timeadd == (if timeadd < NEARLY_HOUR then timeadd + timestep else if timestep > NEARLY_HOUR then timestep else 0.0)
  {
  }

  // ---------------------------------------------------------------- the delay along a run

  /** One cell of one channel along a run: the time accumulated, the flag and the stored map before
      each step, the fresh value and the delayed flux of the step. */
  datatype Trace = Trace(timestep: real, weight: real -> real, toward: (real, real, real) -> real, time: nat -> real, flag: nat -> real, kept: nat -> real,
                         seen: nat -> real, lup: nat -> real)
  {
    /** The value the delay of step k starts from: the first step of a morning starts afresh. */
    function Base(k: nat): real {
      if flag(k) == 1.0 then seen(k) else kept(k)
    }

    /** The time whose weight step k uses: what has accumulated, with this step unless 59 minutes are
        reached already. */
    function DelayTime(k: nat): real {
      if time(k) >= NEARLY_HOUR then time(k) else time(k) + timestep
    }

    /** Daytime step k: the flux is the fresh value moved by the weight towards the stored one; the
        stored map is replaced, by exactly that flux, once 59 minutes have accumulated. */
    ghost predicate DayAt(k: nat) {
      && lup(k) == toward(weight(DelayTime(k)), seen(k), Base(k))
      && kept(k + 1) == (if time(k) >= NEARLY_HOUR then lup(k) else Base(k))
      && flag(k + 1) == 0.0
      && time(k + 1) == (if time(k) < NEARLY_HOUR then time(k) + timestep else if timestep > NEARLY_HOUR then timestep else 0.0)
    }
  }

  function TraceOf<Out>(ph: Physics<Out>, s: State, start: nat, d: nat, c: nat): Trace
    requires ph.Valid() && s.Fits(ph.cells) && d < CHANNELS && c < ph.cells
  {
    Trace(ph.timestep, ph.weight, Toward,
          k => if k < start then 0.0 else StateAt(ph, s, start, k).timeadd,
          k => if k < start then 0.0 else StateAt(ph, s, start, k).firstday,
          k => if k < start then 0.0 else StateAt(ph, s, start, k).planes[d][c],
          k => if k < start then 0.0 else Seen(ph, s, start, k, d, c),
          k => if k < start then 0.0 else LupAt(ph, s, start, k, d, c))
  }

  lemma DayStepParts<Out>(ph: Physics<Out>, k: nat, x: State, d: nat)
    requires ph.Valid() && x.Fits(ph.cells) && ph.isDay(k) && d < CHANNELS
    ensures var m, y := AtMidnight(ph, k, x), StepState(ph, k, x);
            && y.planes[d] == DelayOf(ph, k, m, d).stored && y.timeadd == DelayOf(ph, k, m, 5).timeadd && y.firstday == 0.0
            && m.firstday == x.firstday && m.timeadd == x.timeadd && m.planes == x.planes
  {
  }

  /** Every daytime step of every run follows the delay law in every channel and cell. */
  lemma RunObeysDelay<Out>(ph: Physics<Out>, s: State, start: nat, k: nat, d: nat, c: nat)
    requires ph.Valid() && s.Fits(ph.cells) && start <= k && d < CHANNELS && c < ph.cells && ph.isDay(k)
    ensures TraceOf(ph, s, start, d, c).DayAt(k)
  {
    TraceValues(ph, s, start, d, c, k);
    TraceValues(ph, s, start, d, c, k + 1);
    NextState(ph, s, start, k);
    StateObeys(ph, k, StateAt(ph, s, start, k), d, c, TraceOf(ph, s, start, d, c));
  }

  /** The same for one step and any trace that holds the values around it. */
  lemma StateObeys<Out>(ph: Physics<Out>, k: nat, x: State, d: nat, c: nat, t: Trace)
    requires ph.Valid() && x.Fits(ph.cells) && ph.isDay(k) && d < CHANNELS && c < ph.cells
    requires t.timestep == ph.timestep && t.weight == ph.weight && forall w, u, v :: t.toward(w, u, v) == Toward(w, u, v)
    requires t.time(k) == x.timeadd && t.flag(k) == x.firstday && t.kept(k) == x.planes[d][c]
    requires t.seen(k) == ph.source(k, d, AtMidnight(ph, k, x).water)[c] && t.lup(k) == DelayOf(ph, k, AtMidnight(ph, k, x), d).lup[c]
    requires var y := StepState(ph, k, x); t.time(k + 1) == y.timeadd && t.flag(k + 1) == y.firstday && t.kept(k + 1) == y.planes[d][c]
    ensures t.DayAt(k)
  {
    var m := AtMidnight(ph, k, x);
    DayStepParts(ph, k, x, d);
    DelayedFlux(ph.source(k, d, m.water), m.firstday, m.timeadd, ph.timestep, m.planes[d], ph.weight, c);
    DelayedStore(ph.source(k, d, m.water), m.firstday, m.timeadd, ph.timestep, m.planes[d], ph.weight, c);
    DelayedStore(ph.source(k, 5, m.water), m.firstday, m.timeadd, ph.timestep, m.planes[5], ph.weight, c);
  }

  /** What the trace of a run holds. */
  lemma TraceValues<Out>(ph: Physics<Out>, s: State, start: nat, d: nat, c: nat, k: nat)
    requires ph.Valid() && s.Fits(ph.cells) && d < CHANNELS && c < ph.cells && start <= k
    ensures var t, x := TraceOf(ph, s, start, d, c), StateAt(ph, s, start, k);
            && t.timestep == ph.timestep && t.weight == ph.weight
            && (forall w, u, v :: t.toward(w, u, v) == u + w * (v - u))
            && t.time(k) == x.timeadd && t.flag(k) == x.firstday && t.kept(k) == x.planes[d][c]
            && t.seen(k) == Seen(ph, s, start, k, d, c) && t.lup(k) == LupAt(ph, s, start, k, d, c)
  {
  }

  /** Every stretch of daytime after a night starts with the flag set and no time accumulated. */
  lemma MorningState<Out>(ph: Physics<Out>, s: State, start: nat, m: nat, d: nat, c: nat)
    requires ph.Valid() && s.Fits(ph.cells) && start < m && !ph.isDay(m - 1) && d < CHANNELS && c < ph.cells
    ensures TraceOf(ph, s, start, d, c).flag(m) == 1.0 && TraceOf(ph, s, start, d, c).time(m) == 0.0
  {
    NextState(ph, s, start, m - 1);
    TraceValues(ph, s, start, d, c, m);
  }

  /** Until 59 minutes have accumulated the stored map is the fresh value of the morning. */
  lemma {:induction false} MorningIsKept(t: Trace, m: nat, k: nat)
    requires m < k && t.flag(m) == 1.0 && forall j: nat | m <= j < k :: t.DayAt(j) && t.time(j) < NEARLY_HOUR
    ensures t.kept(k) == t.seen(m) && t.flag(k) == 0.0
  {
    assert t.DayAt(k - 1);
    if k > m + 1 {
      MorningIsKept(t, m, k - 1);
    }
  }

  /** Between replacements the stored map does not change. */
  lemma {:induction false} StoredIsKept(t: Trace, m: nat, k: nat)
    requires m <= k && t.flag(m) == 0.0 && forall j: nat | m <= j < k :: t.DayAt(j) && t.time(j) < NEARLY_HOUR
    ensures t.kept(k) == t.kept(m) && t.flag(k) == 0.0
  {
    if k > m {
      assert t.DayAt(k - 1);
      StoredIsKept(t, m, k - 1);
    }
  }

  // ---------------------------------------------------------------- accumulated time, exactly

  /** n timesteps. */
  function Elapsed(timestep: real, n: nat): real {
    if n == 0 then 0.0 else Elapsed(timestep, n - 1) + timestep
  }

  lemma {:induction false} ElapsedIsProduct(timestep: real, n: nat)
    ensures Elapsed(timestep, n) == n as real * timestep
  {
    if n > 0 {
      var m := (n - 1) as real;
      ElapsedIsProduct(timestep, n - 1);
      assert n as real == m + 1.0 && (m + 1.0) * timestep == m * timestep + timestep;
    }
  }

  lemma {:induction false} ElapsedGrows(timestep: real, n: nat, m: nat)
    requires timestep >= 0.0 && n <= m
    ensures Elapsed(timestep, n) <= Elapsed(timestep, m)
  {
    if n < m {
      ElapsedGrows(timestep, n, m - 1);
    }
  }

  /** q timesteps are the least number that accumulates 59 minutes. */
  predicate FillsHour(timestep: real, q: nat) {
    q >= 1 && Elapsed(timestep, q - 1) < NEARLY_HOUR <= Elapsed(timestep, q)
  }

  /** Where a cycle of q + 1 steps stands after n of them. */
  function Position(q: nat, n: nat): (p: nat)
    ensures p <= q
  {
    if n == 0 then 0 else if Position(q, n - 1) == q then 0 else Position(q, n - 1) + 1
  }

  lemma {:induction false} PositionIsRemainder(q: nat, n: nat)
    ensures Position(q, n) == n % (q + 1)
  {
    if n > 0 {
      PositionIsRemainder(q, n - 1);
      RemainderStep(n - 1, q + 1);
    }
  }

  lemma RemainderStep(n: nat, d: nat)
    requires d > 0
    ensures (n + 1) % d == if n % d == d - 1 then 0 else n % d + 1
  {
    var e, r := n / d, n % d;
    assert n == d * e + r;
    if r == d - 1 {
      assert d * (e + 1) == d * e + d;
      DivisionIsUnique(n + 1, d, e + 1, 0);
    } else {
      DivisionIsUnique(n + 1, d, e, r + 1);
    }
  }

  lemma CycleStep(timestep: real, q: nat, n: nat)
    requires timestep > 0.0 && FillsHour(timestep, q)
    ensures Elapsed(timestep, Position(q, n)) >= NEARLY_HOUR <==> Position(q, n) == q
    ensures Elapsed(timestep, Position(q, n + 1))
         == if Position(q, n) == q then 0.0 else Elapsed(timestep, Position(q, n)) + timestep
  {
    if Position(q, n) < q {
      ElapsedGrows(timestep, Position(q, n), q - 1);
    }
  }

  /** The time accumulated n steps into a stretch of daytime that starts with none: with steps of at
      most 59 minutes it cycles, and starts anew one step after 59 minutes are reached; longer steps
      accumulate one of them; without a timestep none accumulates. */
  lemma {:induction false} AccumulatedTime(t: Trace, m: nat, n: nat, q: nat)
    requires t.timestep >= 0.0 && t.time(m) == 0.0 && forall j: nat | m <= j < m + n :: t.DayAt(j)
    requires 0.0 < t.timestep <= NEARLY_HOUR ==> FillsHour(t.timestep, q)
    ensures 0.0 < t.timestep <= NEARLY_HOUR ==> t.time(m + n) == Elapsed(t.timestep, Position(q, n))
    ensures t.timestep > NEARLY_HOUR ==> t.time(m + n) == (if n == 0 then 0.0 else t.timestep)
    ensures t.timestep == 0.0 ==> t.time(m + n) == 0.0
  {
    if n > 0 {
      AccumulatedTime(t, m, n - 1, q);
      assert t.DayAt(m + n - 1);
      if 0.0 < t.timestep <= NEARLY_HOUR {
        CycleStep(t.timestep, q, n - 1);
      }
    }
  }

  lemma {:induction false} FirstPositions(q: nat, n: nat)
    requires n <= q
    ensures Position(q, n) == n
  {
    if n > 0 {
      FirstPositions(q, n - 1);
    }
  }

  lemma FirstTimes(t: Trace, m: nat, n: nat, q: nat)
    requires 0.0 < t.timestep <= NEARLY_HOUR && FillsHour(t.timestep, q) && n <= q && t.time(m) == 0.0
    requires forall j: nat | m <= j < m + n :: t.DayAt(j)
    ensures t.time(m + n) == Elapsed(t.timestep, n) && (t.time(m + n) >= NEARLY_HOUR <==> n == q)
  {
    AccumulatedTime(t, m, n, q);
    FirstPositions(q, n);
    CycleStep(t.timestep, q, n);
  }

  /** During the first cycle the delay starts from the morning's value. */
  lemma FirstBase(t: Trace, m: nat, n: nat, q: nat)
    requires 0.0 < t.timestep <= NEARLY_HOUR && FillsHour(t.timestep, q) && n <= q
    requires t.flag(m) == 1.0 && t.time(m) == 0.0 && forall j: nat | m <= j < m + n :: t.DayAt(j)
    ensures t.Base(m + n) == t.seen(m)
  {
    if n > 0 {
      EarlyTimes(t, m, n, q);
      MorningIsKept(t, m, m + n);
    }
  }

  lemma {:induction false} EarlyTimes(t: Trace, m: nat, n: nat, q: nat)
    requires 0.0 < t.timestep <= NEARLY_HOUR && FillsHour(t.timestep, q) && n <= q && t.time(m) == 0.0
    requires forall j: nat | m <= j < m + n :: t.DayAt(j)
    ensures forall j: nat | m <= j < m + n :: t.time(j) < NEARLY_HOUR
  {
    if n > 0 {
      EarlyTimes(t, m, n - 1, q);
      FirstTimes(t, m, n - 1, q);
    }
  }

  /** The first cycle of a day, in closed form: step m + n, for n below the number q of timesteps that
      fill 59 minutes, mixes the fresh value with the morning's by the weight of n + 1 timesteps; step
      m + q does so by the weight of q timesteps, and what it gives is the map stored from then on. */
  lemma FirstCycle(t: Trace, m: nat, n: nat, q: nat)
    requires 0.0 < t.timestep <= NEARLY_HOUR && FillsHour(t.timestep, q) && n <= q
    requires t.flag(m) == 1.0 && t.time(m) == 0.0 && forall j: nat | m <= j <= m + n :: t.DayAt(j)
    ensures t.lup(m + n) == t.toward(t.weight(Elapsed(t.timestep, if n < q then n + 1 else q)), t.seen(m + n), t.seen(m))
    ensures t.kept(m + n + 1) == (if n < q then t.seen(m) else t.lup(m + n))
  {
    FirstTimes(t, m, n, q);
    FirstBase(t, m, n, q);
    assert t.DayAt(m + n);
    assert t.DelayTime(m + n) == Elapsed(t.timestep, if n < q then n + 1 else q);
  }

  // ---------------------------------------------------------------- carried scalars

  /** The water temperature in force after step k is that of the last step that set it. */
  lemma {:induction false} WaterCarried<Out>(ph: Physics<Out>, s: State, start: nat, k: nat, last: nat)
    requires ph.Valid() && s.Fits(ph.cells) && start <= last <= k && forall j: nat | last < j <= k :: !SetsWater(ph, j)
    ensures SetsWater(ph, last) ==> StateAt(ph, s, start, k + 1).water == Some(ph.waterOf(last))
    ensures !SetsWater(ph, last) && last == start ==> StateAt(ph, s, start, k + 1).water == s.water
    decreases k
  {
    NextState(ph, s, start, k);
    ScalarStep(ph, k, StateAt(ph, s, start, k));
    if last < k {
      WaterCarried(ph, s, start, k - 1, last);
      assert !SetsWater(ph, k);
    }
  }

  /** The clearness index in force after step k is that of the last daytime or midnight step; by day
      the day's own value wins. */
  lemma {:induction false} ClearnessCarried<Out>(ph: Physics<Out>, s: State, start: nat, k: nat, last: nat)
    requires ph.Valid() && s.Fits(ph.cells) && start <= last <= k
    requires forall j: nat | last < j <= k :: !ph.isDay(j) && !ph.isMidnight(j)
    ensures ph.isDay(last) ==> StateAt(ph, s, start, k + 1).ci == ph.dayCi(last)
    ensures !ph.isDay(last) && ph.isMidnight(last) ==> StateAt(ph, s, start, k + 1).ci == ph.midnightCi(last)
    ensures !ph.isDay(last) && !ph.isMidnight(last) && last == start ==> StateAt(ph, s, start, k + 1).ci == s.ci
    decreases k
  {
    NextState(ph, s, start, k);
    ScalarStep(ph, k, StateAt(ph, s, start, k));
    if last < k {
      ClearnessCarried(ph, s, start, k - 1, last);
    }
  }

  /** A step reports the scalars it hands on, with its delayed fluxes by day and the nocturnal flux by
      night. */
  lemma ReportedExactly<Out>(ph: Physics<Out>, k: nat, x: State, fluxes: seq<Cells>)
    requires ph.Valid() && x.Fits(ph.cells)
    requires !ph.isDay(k) ==> fluxes == [ph.nocturnal(k, StepState(ph, k, x).water)]
    requires ph.isDay(k) ==>
               |fluxes| == CHANNELS && forall d | 0 <= d < CHANNELS :: fluxes[d] == DelayOf(ph, k, AtMidnight(ph, k, x), d).lup
    ensures StepOut(ph, k, x) == ph.report(k, StepState(ph, k, x).ci, StepState(ph, k, x).water, fluxes)
  {
    ScalarStep(ph, k, x);
    if ph.isDay(k) {
      assert Lups(Delays(ph, k, AtMidnight(ph, k, x))) == fluxes;
    }
  }
}
