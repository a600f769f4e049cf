/** Concrete batches for the splice laws: two edits that meet all their hypotheses and keep cells
    whose step count is below or above the oracle's, one accepted batch whose splice is not exact
    because its surface lies below zero, and a pair of scenes the clamp guard lets through although
    one is clamped. */
module EditWitness {
  import opened Planes
  import opened Rays
  import opened ShadowMarch
  import opened ShadowLaws
  import opened Scenes
  import opened SparseWork
  import opened Splice
  import opened SpliceExact
  import opened Witnesses

  // ---------------------------------------------------------------- tables

  /** The table of the first n steps of a ray that climbs 1 m per column. */
  function UnitTable(cols: nat, n: nat): (t: StepTable)
    ensures t.Valid() && t.kernel == SvfShadow && t.rows == 1 && t.cols == cols && t.Count() == n
    ensures forall k | 0 <= k < n :: t.steps.dx[k] == 0 && t.steps.dy[k] == k + 1 && t.steps.dz[k] == (k + 1) as real
  {
    StepTable(SvfShadow, 1, cols,
              Steps(seq(n, _ => 0), seq(n, k requires 0 <= k < n => k + 1), seq(n, k requires 0 <= k < n => (k + 1) as real)))
  }

  lemma UnitTableRecorded(cols: nat, metres: nat)
    requires metres + 1 < cols
    ensures Eastward(1.0).Valid() && RecordedFrom(UnitTable(cols, metres + 1), Eastward(1.0), metres as real)
  {
    UnitCount(cols, metres);
    EastwardValid(1.0);
    forall k: nat ensures Eastward(1.0).dz(k) == k as real {
      UnitDz(k);
    }
  }

  /** A batch of one patch. */
  function OnePatch(pre: MarchInputs, post: MarchInputs, before: StepTable, after: StepTable): Batch {
    Batch(pre, post, map[0 := before], map[0 := after], None, None, None, false)
  }

  // ---------------------------------------------------------------- a tower at the head of the row

  /** A row of six cells at 2 m with a tower of height h on the first: what the guards ask of it. */
  ghost predicate Scene(m: MarchInputs, h: real) {
    && m.Shaped() && m.rows == 1 && m.cols == 6
    && m.amaxvalue == h && RelativeBound(m) == h - 2.0 && EffectiveAmplitude(m) == h - 2.0
    && m.BushFree() && EdgeInert(m)
  }

  /** What the march reads of it. */
  ghost predicate Cells(m: MarchInputs, h: real) {
    && m.Shaped() && m.rows == 1 && m.cols == 6 && m.a[0][0] == h
    && forall j | 0 < j < 6 :: m.a[0][j] == 2.0 && m.vegdsm[0][j] == 0.0 && m.vegdsm2[0][j] == 0.0 && m.bush[0][j] == 0.0
  }

  ghost predicate Tower(m: MarchInputs, h: real) {
    && h > 2.0 && m.Composed() && m.rows == 1 && m.cols == 6
    && (forall j | 0 <= j < 6 :: m.a[0][j] == (if j == 0 then h else 2.0))
    && forall j | 0 <= j < 6 :: m.dem[0][j] == 1.0 && m.canopy[0][j] == 0.0
  }

  lemma TowerCells(m: MarchInputs, h: real, j: nat)
    requires Tower(m, h) && j < 6
    ensures m.vegdem[0][j] == 1.0 && m.vegdsm[0][j] == 0.0 && m.vegdsm2[0][j] == 0.0 && m.bush[0][j] == 0.0
  {
    assert m.CellComposed(0, j);
  }

  lemma TowerAmplitudes(m: MarchInputs, h: real)
    requires Tower(m, h)
    ensures m.amaxvalue == h && RelativeBound(m) == h - 2.0
  {
    forall j: nat | j < 6 ensures m.vegdem[0][j] == 1.0 && m.vegdsm[0][j] == 0.0 && m.vegdsm2[0][j] == 0.0 {
      TowerCells(m, h, j);
    }
    ConstantMax(m.vegdem, 6, 1.0);
    ConstantMax(m.vegdsm, 6, 0.0);
    ConstantMax(m.vegdsm2, 6, 0.0);
    TowerTop(m.a, h);
  }

  lemma TowerTop(p: Plane, h: real)
    requires HasShape(p, 1, 6) && h > 2.0 && forall j | 0 <= j < 6 :: p[0][j] == (if j == 0 then h else 2.0)
    ensures PlaneMax(p, 1, 6) == h && PlaneMin(p, 1, 6) == 2.0
  {
    MaxBounds(p, 1, 6, 0, 0);
    MinBounds(p, 1, 6, 0, 1);
  }

  lemma TowerIsInert(m: MarchInputs, h: real)
    requires Tower(m, h)
    ensures EdgeInert(m)
  {
    assert AboveZero(m.Marched());
  }

  lemma TowerIsBushFree(m: MarchInputs, h: real)
    requires Tower(m, h)
    ensures m.BushFree() && Cells(m, h)
  {
    forall j: nat | j < 6 ensures m.vegdsm[0][j] == 0.0 && m.vegdsm2[0][j] == 0.0 && m.bush[0][j] == 0.0 {
      TowerCells(m, h, j);
    }
  }

  lemma TowerIsScene(m: MarchInputs, h: real)
    requires Tower(m, h)
    ensures Scene(m, h) && Cells(m, h)
  {
    TowerAmplitudes(m, h);
    TowerIsInert(m, h);
    TowerIsBushFree(m, h);
  }

  method TowerScene(h: real) returns (m: MarchInputs)
    requires h > 2.0
    ensures Scene(m, h) && Cells(m, h)
  {
    m := Compose(Skyline(h), Level(1.0), Level(0.0), 1, 6).value;
    TowerIsScene(m, h);
  }

  function Skyline(h: real): (p: Plane)
    ensures HasShape(p, 1, 6) && forall j | 0 <= j < 6 :: p[0][j] == (if j == 0 then h else 2.0)
  {
    [[h, 2.0, 2.0, 2.0, 2.0, 2.0]]
  }

  function Level(v: real): (p: Plane)
    ensures HasShape(p, 1, 6) && forall j | 0 <= j < 6 :: p[0][j] == v
  {
    [seq(6, _ => v)]
  }

  // ---------------------------------------------------------------- edits of the tower

  /** The tower changes its height; each scene was marched to a stop of whole metres. */
  function Edit(pre: MarchInputs, post: MarchInputs, before: nat, after: nat): Batch {
    OnePatch(pre, post, UnitTable(6, before + 1), UnitTable(6, after + 1))
  }

  /** Stops of whole metres between the effective and the absolute one, at most 4 m. */
  ghost predicate Stops(h: real, k: real, before: nat, after: nat) {
    && h != k && 1 <= before <= 4 && 1 <= after <= 4
    && h - 2.0 <= before as real <= h && k - 2.0 <= after as real <= k
  }

  lemma UnclampedScenesPass(pre: MarchInputs, post: MarchInputs)
    requires pre.Shaped() && post.Shaped() && RelativeBound(pre) <= pre.amaxvalue && RelativeBound(post) <= post.amaxvalue
    ensures ClampGuardPasses(pre, post)
  {
  }

  lemma EditPasses(pre: MarchInputs, post: MarchInputs, h: real, k: real, before: nat, after: nat)
    requires Scene(pre, h) && Scene(post, k) && Stops(h, k, before, after)
    ensures Edit(pre, post, before, after).Valid() && AllPass(Edit(pre, post, before, after))
  {
    UnclampedScenesPass(pre, post);
  }

  lemma EditIsTraced(pre: MarchInputs, post: MarchInputs, h: real, k: real, before: nat, after: nat)
    requires Scene(pre, h) && Scene(post, k) && Stops(h, k, before, after) && Edit(pre, post, before, after).Valid()
    ensures Traced(Edit(pre, post, before, after), 0, Provenance(Eastward(1.0), before as real, after as real))
  {
    UnitTableRecorded(6, before);
    UnitTableRecorded(6, after);
    TracedFromParts(Edit(pre, post, before, after), Provenance(Eastward(1.0), before as real, after as real));
  }

  lemma TracedFromParts(b: Batch, from: Provenance)
    requires b.Valid() && 0 in b.tablesPre && 0 in b.tablesPost && from.ray.Valid()
    requires Admissible(b.pre, from.before) && Admissible(b.post, from.after)
    requires b.FitsTile(b.tablesPre[0]) && b.FitsTile(b.tablesPost[0])
    requires RecordedFrom(b.tablesPre[0], from.ray, from.before) && RecordedFrom(b.tablesPost[0], from.ray, from.after)
    ensures Traced(b, 0, from)
  {
  }

  /** Only the tower changed. */
  ghost predicate TowerChanged(pre: MarchInputs, post: MarchInputs) {
    && pre.Shaped() && post.Shaped() && pre.rows == post.rows == 1 && pre.cols == post.cols == 6
    && forall j | 0 <= j < 6 :: CellChanged(pre, post, 0, j) <==> j == 0
  }

  lemma OnlyTowerChanged(pre: MarchInputs, post: MarchInputs, h: real, k: real)
    requires Cells(pre, h) && Cells(post, k) && h != k
    ensures TowerChanged(pre, post)
  {
    forall j | 0 <= j < 6 ensures CellChanged(pre, post, 0, j) <==> j == 0 {
      if j > 0 {
        assert pre.a[0][j] == 2.0 && post.a[0][j] == 2.0;
      }
    }
  }

  /** No step reads the tower from further along the row, so every other cell is kept. */
  lemma OthersAreKept(plan: Plan, w: Work, j: nat)
    requires plan.Valid() && plan.rows == 1 && plan.cols == 6 && 0 < j < 6 && BuiltFrom(plan, w) && 0 in plan.before
    requires forall c | 0 <= c < 6 :: plan.source[0][c] <==> c == 0
    requires forall k | 0 <= k < plan.before[0].Count() :: plan.before[0].steps.dy[k] > 0
    requires forall k | 0 <= k < plan.after[0].Count() :: plan.after[0].steps.dy[k] > 0
    ensures !Remarched(w, 0, 0, j)
  {
    assert plan.source[0][0];
    assert !InClosure(plan.source, 1, 6, plan.before[0], plan.after[0], 0, j);
    forall k | 0 <= k < |w.entries| && w.entries[k].patch == 0 ensures !RR.Covered(w.entries[k].runs, 0, j) {
      assert EntryFor(plan, w.entries[k]);
      assert !NeededMask(plan, 0)[0][j];
    }
  }

  lemma KeptInBatch(b: Batch, w: Work)
    requires b.Valid() && b.Refused().None? && b.candidate.None? && BuiltFrom(PlanOf(b), w) && TowerChanged(b.pre, b.post)
    requires 0 in b.tablesPre && 0 in b.tablesPost
    requires forall k | 0 <= k < b.tablesPre[0].Count() :: b.tablesPre[0].steps.dy[k] > 0
    requires forall k | 0 <= k < b.tablesPost[0].Count() :: b.tablesPost[0].steps.dy[k] > 0
    ensures !Remarched(w, 0, 0, 1)
  {
    TowerIsSource(b);
    OthersAreKept(PlanOf(b), w, 1);
  }

  lemma TowerIsSource(b: Batch)
    requires b.Valid() && b.SameShape() && b.candidate.None? && TowerChanged(b.pre, b.post)
    ensures forall c | 0 <= c < 6 :: b.Source()[0][c] <==> c == 0
  {
    forall c | 0 <= c < 6 ensures b.Source()[0][c] <==> c == 0 {
      assert b.Source()[0][c] <==> CellChanged(b.pre, b.post, 0, c);
    }
  }

  /** An accepted edit with its work list, to which both splice laws apply. */
  ghost predicate Applies(b: Batch, w: Work, from: Provenance) {
    && b.Valid() && b.Refused().None? && CandidateCovers(b) && EdgeInert(b.pre) && EdgeInert(b.post)
    && BuiltFrom(PlanOf(b), w) && 0 in b.tablesPre && 0 in b.tablesPost && Traced(b, 0, from)
    && TowerChanged(b.pre, b.post)
  }

  /** Everything that can be said of the edit before its work list is built. */
  ghost predicate Ready(b: Batch, from: Provenance) {
    && b.Valid() && AllPass(b) && b.candidate.None? && EdgeInert(b.pre) && EdgeInert(b.post)
    && 0 in b.tablesPre && 0 in b.tablesPost && Traced(b, 0, from) && TowerChanged(b.pre, b.post)
    && (forall k | 0 <= k < b.tablesPre[0].Count() :: b.tablesPre[0].steps.dy[k] > 0)
    && forall k | 0 <= k < b.tablesPost[0].Count() :: b.tablesPost[0].steps.dy[k] > 0
  }

  lemma EditIsReady(pre: MarchInputs, post: MarchInputs, h: real, k: real, before: nat, after: nat)
    requires Scene(pre, h) && Scene(post, k) && Cells(pre, h) && Cells(post, k) && Stops(h, k, before, after)
    ensures Ready(Edit(pre, post, before, after), Provenance(Eastward(1.0), before as real, after as real))
  {
    EditPasses(pre, post, h, k, before, after);
    EditIsTraced(pre, post, h, k, before, after);
    OnlyTowerChanged(pre, post, h, k);
    PartsAreReady(pre, post, before, after, Provenance(Eastward(1.0), before as real, after as real));
  }

  lemma PartsAreReady(pre: MarchInputs, post: MarchInputs, before: nat, after: nat, from: Provenance)
    requires pre.Shaped() && post.Shaped() && EdgeInert(pre) && EdgeInert(post) && TowerChanged(pre, post)
    requires var b := Edit(pre, post, before, after); b.Valid() && AllPass(b) && Traced(b, 0, from)
    ensures Ready(Edit(pre, post, before, after), from)
  {
  }

  lemma ReadyApplies(b: Batch, w: Work, from: Provenance)
    requires Ready(b, from) && b.Refused().None? && BuiltFrom(PlanOf(b), w)
    ensures Applies(b, w, from) && !Remarched(w, 0, 0, 1)
  {
    KeptInBatch(b, w);
  }

  method BuildReady(b: Batch, ghost from: Provenance) returns (w: Work)
    requires Ready(b, from)
    ensures Applies(b, w, from) && !Remarched(w, 0, 0, 1)
  {
    AcceptedExactly(b);
    w := BuildAccepted(PlanOf(b));
    ReadyApplies(b, w, from);
  }

  /** The tower grows from 3 m to 4 m: the second cell is kept from a march of two steps, where the
      oracle of the new scene takes five. */
  method GrowTower() returns (b: Batch, w: Work)
    ensures Eastward(1.0).Valid() && Applies(b, w, Provenance(Eastward(1.0), 1.0, 2.0)) && !Remarched(w, 0, 0, 1)
    ensures StepsBehind(b, w, 0, Provenance(Eastward(1.0), 1.0, 2.0), 0, 1) == 2
    ensures StepCount(Eastward(1.0), 1, 6, b.post.amaxvalue) == 5
  {
    var pre := TowerScene(3.0);
    var post := TowerScene(4.0);
    EditIsReady(pre, post, 3.0, 4.0, 1, 2);
    b := Edit(pre, post, 1, 2);
    w := BuildReady(b, Provenance(Eastward(1.0), 1.0, 2.0));
    UnitCount(6, 1);
    UnitCount(6, 4);
  }

  /** The tower shrinks from 4 m to 3 m after a march to the absolute stop: the second cell is kept
      from a march of five steps, where the oracle of the new scene takes four. */
  method ShrinkTower() returns (b: Batch, w: Work)
    ensures Eastward(1.0).Valid() && Applies(b, w, Provenance(Eastward(1.0), 4.0, 3.0)) && !Remarched(w, 0, 0, 1)
    ensures StepsBehind(b, w, 0, Provenance(Eastward(1.0), 4.0, 3.0), 0, 1) == 5
    ensures StepCount(Eastward(1.0), 1, 6, b.post.amaxvalue) == 4
  {
    var pre := TowerScene(4.0);
    var post := TowerScene(3.0);
    EditIsReady(pre, post, 4.0, 3.0, 4, 3);
    b := Edit(pre, post, 4, 3);
    w := BuildReady(b, Provenance(Eastward(1.0), 4.0, 3.0));
    UnitCount(6, 4);
    UnitCount(6, 3);
  }

  // ---------------------------------------------------------------- a splice below zero

  /** A batch that changes nothing on the sunken row, marched to its effective stop. */
  function SunkenBatch(m: MarchInputs): Batch {
    OnePatch(m, m, UnitTable(4, 2), UnitTable(4, 2))
  }

  lemma SunkenBatchPasses(m: MarchInputs)
    requires Sunken(m)
    ensures SunkenBatch(m).Valid() && AllPass(SunkenBatch(m))
  {
    SunkenAmplitudes(m);
    UnclampedScenesPass(m, m);
    forall j: nat | j < 4 ensures m.bush[0][j] == 0.0 {
      SunkenCells(m, j);
    }
  }

  lemma SunkenBatchTraced(m: MarchInputs)
    requires Sunken(m) && SunkenBatch(m).Valid()
    ensures Eastward(1.0).Valid() && Traced(SunkenBatch(m), 0, Provenance(Eastward(1.0), 1.0, 1.0))
  {
    SunkenAmplitudes(m);
    UnitTableRecorded(4, 1);
  }

  lemma SunkenMarchesDiffer(m: MarchInputs)
    requires Sunken(m)
    ensures Eastward(1.0).Valid()
    ensures March(m.Marched(), Eastward(1.0), 1.0, 0, 0) != March(m.Marched(), Eastward(1.0), m.amaxvalue, 0, 0)
  {
    SunkenAmplitudes(m);
    UnitDz(1);
    GroundMustBeBelow(m);
  }

  /** When nothing changed, listed or not makes no difference. */
  lemma SameEitherWay(b: Batch, w: Work, from: Provenance)
    requires b.Valid() && b.Refused().None? && from.ray.Valid() && InGrid(b.pre.rows, b.pre.cols, 0, 0)
    requires b.pre == b.post && from.before == from.after
    ensures Spliced(b, w, 0, from, 0, 0) == March(b.post.Marched(), from.ray, from.after, 0, 0)
  {
  }

  /** The edge condition cannot be dropped: the sunken batch passes every check and its tables are
      traced to one ray at the effective stop, yet whatever work list is built from it, the first
      cell differs from the oracle. */
  lemma SpliceBelowZero(m: MarchInputs, w: Work)
    requires Sunken(m)
    ensures var b, from := SunkenBatch(m), Provenance(Eastward(1.0), 1.0, 1.0);
            && b.Valid() && b.Refused().None? && CandidateCovers(b) && Traced(b, 0, from)
            && Spliced(b, w, 0, from, 0, 0) != March(b.post.Marched(), from.ray, b.post.amaxvalue, 0, 0)
  {
    var b, from := SunkenBatch(m), Provenance(Eastward(1.0), 1.0, 1.0);
    SunkenBatchPasses(m);
    AcceptedExactly(b);
    SunkenBatchTraced(m);
    SameEitherWay(b, w, from);
    SunkenMarchesDiffer(m);
  }

  // ---------------------------------------------------------------- a clamped scene in an accepted pair

  lemma TwoCells(p: Plane, u: real, v: real)
    requires HasShape(p, 1, 2) && p[0] == [u, v]
    ensures PlaneMax(p, 1, 2) == Max(u, v) && PlaneMin(p, 1, 2) == Min(u, v)
  {
    MaxBounds(p, 1, 2, 0, 0);
    MaxBounds(p, 1, 2, 0, 1);
    MinBounds(p, 1, 2, 0, 0);
    MinBounds(p, 1, 2, 0, 1);
  }

  /** Two bare cells over ground at -1 m. */
  ghost predicate Bare(m: MarchInputs, u: real, v: real) {
    && m.Composed() && m.rows == 1 && m.cols == 2
    && m.a[0] == [u, v] && m.dem[0] == [-1.0, -1.0] && m.canopy[0] == [0.0, 0.0]
  }

  lemma BareCells(m: MarchInputs, u: real, v: real)
    requires Bare(m, u, v)
    ensures m.vegdem[0] == [-1.0, -1.0] && m.vegdsm[0] == [0.0, 0.0] && m.vegdsm2[0] == [0.0, 0.0]
  {
    assert m.CellComposed(0, 0) && m.CellComposed(0, 1);
  }

  lemma BareAmplitudes(m: MarchInputs, u: real, v: real)
    requires Bare(m, u, v) && u >= 0.0
    ensures m.amaxvalue == Max(u, v) && RelativeBound(m) == Max(u, v) - Min(u, v)
  {
    BareCells(m, u, v);
    TwoCells(m.a, u, v);
    TwoCells(m.vegdem, -1.0, -1.0);
    TwoCells(m.vegdsm, 0.0, 0.0);
    TwoCells(m.vegdsm2, 0.0, 0.0);
  }

  lemma BareRow(u: real, v: real) returns (m: MarchInputs)
    requires u >= 0.0
    ensures m.Shaped() && m.rows == 1 && m.cols == 2 && m.amaxvalue == Max(u, v) && RelativeBound(m) == Max(u, v) - Min(u, v)
  {
    m := RowScene([u, v], [-1.0, -1.0], [0.0, 0.0]);
    BareAmplitudes(m, u, v);
  }

  /** The guard also passes pairs in which the scene with the smaller stop is clamped: there its
      effective amplitude is the larger one. */
  lemma ClampedPair() returns (x: MarchInputs, y: MarchInputs)
    ensures SameTile(x, y) && ClampGuardPasses(x, y) && Admissible(x, x.amaxvalue) && Admissible(y, y.amaxvalue)
    ensures x.amaxvalue < y.amaxvalue && RelativeBound(x) > x.amaxvalue
  {
    x := BareRow(3.0, -1.0);
    y := BareRow(4.0, 2.0);
  }
}
