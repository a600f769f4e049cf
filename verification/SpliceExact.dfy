/** The law the sparse builder exists for: re-marching only the listed cells and keeping the old
    outputs everywhere else gives, at every cell, what a full march of the edited scene gives. */
module SpliceExact {
  import opened Planes
  import opened Rays
  import opened ShadowMarch
  import opened ShadowLaws
  import opened Scenes
  import opened Splice
  import opened SparseWork

  /** Where one patch was marched from: its ray, and the amplitude each scene was stopped at. */
  datatype Provenance = Provenance(ray: Ray, before: real, after: real)

  /** The tables of patch p record marches of one ray, each stopped at an admissible amplitude. */
  ghost predicate Traced(b: Batch, p: int, from: Provenance)
    requires b.Valid() && p in b.tablesPre && p in b.tablesPost
  {
    && from.ray.Valid()
    && Admissible(b.pre, from.before) && Admissible(b.post, from.after)
    && b.FitsTile(b.tablesPre[p]) && b.FitsTile(b.tablesPost[p])
    && RecordedFrom(b.tablesPre[p], from.ray, from.before)
    && RecordedFrom(b.tablesPost[p], from.ray, from.after)
  }

  /** The candidate footprint, when one is given, covers the composed diff. */
  ghost predicate CandidateCovers(b: Batch)
    requires b.Valid() && b.Refused().None?
  {
    b.candidate.Some? ==> Within(ChangeMask(b.pre, b.post), b.candidate.value, b.pre.rows, b.pre.cols)
  }

  /** The work list tells us to march cell (i, j) of patch p again. */
  ghost predicate Remarched(w: Work, p: int, i: int, j: int) {
    exists k :: 0 <= k < |w.entries| && w.entries[k].patch == p && RR.Covered(w.entries[k].runs, i, j)
  }

  lemma RemarchedWhenNeeded(plan: Plan, w: Work, p: int, i: int, j: int)
    requires plan.Valid() && BuiltFrom(plan, w) && p in plan.before && InGrid(plan.rows, plan.cols, i, j)
    requires !Remarched(w, p, i, j)
    ensures !plan.NothingChanged() ==> !InClosure(plan.source, plan.rows, plan.cols, plan.before[p], plan.after[p], i, j)
  {
    if !plan.NothingChanged() {
      assert p in PatchesOf(w.entries);
      var k :| 0 <= k < |w.entries| && w.entries[k].patch == p;
      assert EntryFor(plan, w.entries[k]);
      assert NeededMask(plan, p)[i][j] <==> RR.Covered(w.entries[k].runs, i, j);
    }
  }

  /** A cell outside the source of the closure is one the edit did not touch. */
  ghost predicate SoundSource(s: Surfaces, t: Surfaces, source: Mask)
    requires s.Valid() && t.Valid() && s.rows == t.rows && s.cols == t.cols && HasShape(source, s.rows, s.cols)
  {
    forall i, j | s.Has(i, j) && !source[i][j] :: SameAt(s, t, i, j)
  }

  lemma SourceIsSound(b: Batch)
    requires b.Valid() && b.Refused().None? && CandidateCovers(b)
    ensures SoundSource(b.pre.Marched(), b.post.Marched(), b.Source())
  {
    var diff := ChangeMask(b.pre, b.post);
    forall i, j | InGrid(b.pre.rows, b.pre.cols, i, j) && !b.Source()[i][j]
      ensures SameAt(b.pre.Marched(), b.post.Marched(), i, j)
    {
      assert !diff[i][j];
      assert !CellChanged(b.pre, b.post, i, j);
    }
  }

  /** Outside the closure no step of either table looks at a changed cell. */
  lemma UntouchedViews(s: Surfaces, t: Surfaces, plan: Plan, p: int, ray: Ray, table: StepTable, i: int, j: int)
    requires s.Valid() && t.Valid() && s.rows == t.rows == plan.rows && s.cols == t.cols == plan.cols
    requires plan.Valid() && SoundSource(s, t, plan.source) && p in plan.before && s.Has(i, j)
    requires !plan.NothingChanged() ==> !InClosure(plan.source, plan.rows, plan.cols, plan.before[p], plan.after[p], i, j)
    requires table == plan.before[p] || table == plan.after[p]
    requires forall k | 0 <= k < table.Count() :: table.steps.dx[k] == ray.dx(k + 1) && table.steps.dy[k] == ray.dy(k + 1)
    ensures SameAt(s, t, i, j)
    ensures forall k | 1 <= k <= table.Count() :: Look(s, ray, i, j, k) == Look(t, ray, i, j, k)
  {
    forall k | 1 <= k <= table.Count() ensures Look(s, ray, i, j, k) == Look(t, ray, i, j, k) {
      UntouchedStep(plan, p, table, i, j, k - 1);
      assert table.steps.dx[k - 1] == ray.dx(k) && table.steps.dy[k - 1] == ray.dy(k);
      SameLook(s, t, ray, i, j, k);
    }
  }

  lemma UntouchedStep(plan: Plan, p: int, t: StepTable, i: int, j: int, k: nat)
    requires plan.Valid() && p in plan.before && InGrid(plan.rows, plan.cols, i, j)
    requires (t == plan.before[p] || t == plan.after[p]) && k < t.Count()
    requires !plan.NothingChanged() ==> !InClosure(plan.source, plan.rows, plan.cols, plan.before[p], plan.after[p], i, j)
    ensures !Hits(plan.source, plan.rows, plan.cols, i + t.steps.dx[k], j + t.steps.dy[k])
  {
    if plan.NothingChanged() {
      assert forall x, y | 0 <= x < plan.rows && 0 <= y < plan.cols :: !plan.source[x][y];
    } else {
      assert !Reads(plan.source, plan.rows, plan.cols, t.steps.dx, t.steps.dy, i, j);
    }
  }

  // ---------------------------------------------------------------- what is listed

  /** The cell changed, and the candidate footprint, if there is one, holds it. */
  predicate Marked(b: Batch, i: int, j: int)
    requires b.Valid() && b.SameShape() && b.CandidateFits()
  {
    && InGrid(b.pre.rows, b.pre.cols, i, j)
    && (|| b.pre.a[i][j] != b.post.a[i][j] || b.pre.vegdsm[i][j] != b.post.vegdsm[i][j]
        || b.pre.vegdsm2[i][j] != b.post.vegdsm2[i][j] || b.pre.bush[i][j] != b.post.bush[i][j])
    && (b.candidate.Some? ==> b.candidate.value[i][j])
  }

  ghost predicate AnyMarked(b: Batch)
    requires b.Valid() && b.SameShape() && b.CandidateFits()
  {
    exists i, j :: Marked(b, i, j)
  }

  /** Some step of the table takes the cell to a marked one. */
  ghost predicate ReadsMarked(b: Batch, t: StepTable, i: int, j: int)
    requires b.Valid() && b.SameShape() && b.CandidateFits() && t.Valid()
  {
    exists k :: 0 <= k < |t.steps.dx| && Marked(b, i + t.steps.dx[k], j + t.steps.dy[k])
  }

  /** Some patch was marched through different offsets or heights in the two scenes. */
  ghost predicate ColumnsDiffer(b: Batch)
    requires b.tablesPre.Keys == b.tablesPost.Keys
  {
    exists p :: p in b.tablesPre &&
      (|| b.tablesPre[p].steps.dx != b.tablesPost[p].steps.dx || b.tablesPre[p].steps.dy != b.tablesPost[p].steps.dy
       || b.tablesPre[p].steps.dz != b.tablesPost[p].steps.dz)
  }

  lemma SourceIsMarked(b: Batch, i: int, j: int)
    requires b.Valid() && b.SameShape() && b.CandidateFits()
    ensures Hits(b.Source(), b.pre.rows, b.pre.cols, i, j) <==> Marked(b, i, j)
  {
  }

  lemma NothingMarked(b: Batch)
    requires b.Valid() && b.Refused().None?
    ensures PlanOf(b).NothingChanged() <==> !AnyMarked(b)
  {
    if AnyMarked(b) {
      var i, j :| Marked(b, i, j);
      SourceIsMarked(b, i, j);
      assert b.Source()[i][j];
    }
    if !PlanOf(b).NothingChanged() {
      var i, j :| 0 <= i < b.pre.rows && 0 <= j < b.pre.cols && b.Source()[i][j];
      SourceIsMarked(b, i, j);
    }
  }

  lemma SameColumns(b: Batch)
    requires b.Valid() && b.Refused().None?
    ensures PlanOf(b).TablesIdentical() <==> !ColumnsDiffer(b)
  {
    forall p | p in b.tablesPre
      ensures b.tablesPre[p].steps == b.tablesPost[p].steps <==>
              && b.tablesPre[p].steps.dx == b.tablesPost[p].steps.dx && b.tablesPre[p].steps.dy == b.tablesPost[p].steps.dy
              && b.tablesPre[p].steps.dz == b.tablesPost[p].steps.dz
    {
    }
  }

  lemma ReadsIsMarked(b: Batch, t: StepTable, i: int, j: int)
    requires b.Valid() && b.SameShape() && b.CandidateFits() && t.Valid()
    ensures Reads(b.Source(), b.pre.rows, b.pre.cols, t.steps.dx, t.steps.dy, i, j) <==> ReadsMarked(b, t, i, j)
  {
    forall k | 0 <= k < |t.steps.dx|
      ensures Hits(b.Source(), b.pre.rows, b.pre.cols, i + t.steps.dx[k], j + t.steps.dy[k])
         <==> Marked(b, i + t.steps.dx[k], j + t.steps.dy[k])
    {
      SourceIsMarked(b, i + t.steps.dx[k], j + t.steps.dy[k]);
    }
  }

  lemma RemarchedIsNeeded(plan: Plan, w: Work, p: int, i: int, j: int)
    requires plan.Valid() && BuiltFrom(plan, w) && p in plan.before && InGrid(plan.rows, plan.cols, i, j)
    ensures Remarched(w, p, i, j) <==> !w.emptyWork && Needed(plan, p, i, j)
  {
    forall k | 0 <= k < |w.entries| && w.entries[k].patch == p
      ensures RR.Covered(w.entries[k].runs, i, j) <==> Needed(plan, p, i, j)
    {
      assert EntryFor(plan, w.entries[k]);
      assert NeededMask(plan, p)[i][j] <==> RR.Covered(w.entries[k].runs, i, j);
    }
    if w.entries != [] {
      HasPatch(w.entries);
    }
    if !w.emptyWork {
      assert p in PatchesOf(w.entries);
    }
  }

  /** Which cells an accepted batch lists, read off the scenes and the tables: the marked cells and
      those from which a step of either table reads one; when nothing is marked, every cell if some
      column of some table changed and no cell otherwise. */
  lemma ListedExactly(b: Batch, w: Work, p: int, i: int, j: int)
    requires b.Valid() && b.Refused().None? && BuiltFrom(PlanOf(b), w) && p in b.tablesPre
    requires InGrid(b.pre.rows, b.pre.cols, i, j)
    ensures Remarched(w, p, i, j) <==>
            if AnyMarked(b) then Marked(b, i, j) || ReadsMarked(b, b.tablesPre[p], i, j) || ReadsMarked(b, b.tablesPost[p], i, j)
            else ColumnsDiffer(b)
  {
    RemarchedIsNeeded(PlanOf(b), w, p, i, j);
    NothingMarked(b);
    SameColumns(b);
    SourceIsMarked(b, i, j);
    ReadsIsMarked(b, b.tablesPre[p], i, j);
    ReadsIsMarked(b, b.tablesPost[p], i, j);
  }

  /** What the two flags of a work list mean. */
  lemma FlagsExactly(b: Batch, w: Work)
    requires b.Valid() && b.Refused().None? && BuiltFrom(PlanOf(b), w)
    ensures w.emptyWork <==> !AnyMarked(b) && !ColumnsDiffer(b)
    ensures w.tableChangedWithEmptyC <==> !AnyMarked(b) && ColumnsDiffer(b)
    ensures w.emptyWork ==> w.entries == [] && w.pairCount == 0
  {
    NothingMarked(b);
    SameColumns(b);
    if w.entries != [] {
      HasPatch(w.entries);
    }
  }

  lemma HasPatch(es: seq<Entry>)
    requires es != []
    ensures PatchesOf(es) != {}
  {
    assert es[0].patch in PatchesOf(es);
  }

  /** One cell of the spliced planes. */
  ghost function Spliced(b: Batch, w: Work, p: int, from: Provenance, i: int, j: int): Light
    requires b.Valid() && b.Refused().None? && from.ray.Valid() && InGrid(b.pre.rows, b.pre.cols, i, j)
  {
    if Remarched(w, p, i, j)
    then March(b.post.Marched(), from.ray, from.after, i, j)
    else March(b.pre.Marched(), from.ray, from.before, i, j)
  }

  /** Number of steps behind the spliced output of a cell. */
  ghost function StepsBehind(b: Batch, w: Work, p: int, from: Provenance, i: int, j: int): nat
    requires b.Valid() && b.Refused().None? && from.ray.Valid()
  {
    StepCount(from.ray, b.pre.rows, b.pre.cols, if Remarched(w, p, i, j) then from.after else from.before)
  }

  /** The steps that separate the spliced output from the oracle's are inert. */
  ghost predicate SpliceIsInert(b: Batch, w: Work, p: int, from: Provenance, i: int, j: int)
    requires b.Valid() && b.Refused().None? && from.ray.Valid() && InGrid(b.pre.rows, b.pre.cols, i, j)
  {
    InertBetween(b.post.Marched(), from.ray, i, j, StepsBehind(b, w, p, from, i, j),
                 StepCount(from.ray, b.pre.rows, b.pre.cols, b.post.amaxvalue))
  }

  /** What an unlisted cell knows: its own surface and every view of both marches are unchanged. */
  lemma KeptCellsSeeTheSame(b: Batch, w: Work, p: int, from: Provenance, i: int, j: int)
    requires b.Valid() && b.Refused().None? && CandidateCovers(b)
    requires BuiltFrom(PlanOf(b), w) && p in b.tablesPre && Traced(b, p, from)
    requires InGrid(b.pre.rows, b.pre.cols, i, j) && !Remarched(w, p, i, j)
    ensures SameViews(b.pre, b.post, from.ray, i, j, StepCount(from.ray, b.pre.rows, b.pre.cols, from.before))
    ensures SameViews(b.pre, b.post, from.ray, i, j, StepCount(from.ray, b.pre.rows, b.pre.cols, from.after))
  {
    var plan := PlanOf(b);
    SourceIsSound(b);
    RemarchedWhenNeeded(plan, w, p, i, j);
    UntouchedViews(b.pre.Marched(), b.post.Marched(), plan, p, from.ray, b.tablesPre[p], i, j);
    UntouchedViews(b.pre.Marched(), b.post.Marched(), plan, p, from.ray, b.tablesPost[p], i, j);
  }

  /** For every batch the builder accepts, the spliced planes equal the oracle's full march of the
      edited scene at its absolute stop exactly at the cells whose surplus steps are inert. */
  lemma SpliceExactly(b: Batch, w: Work, p: int, from: Provenance, i: int, j: int)
    requires b.Valid() && b.Refused().None? && CandidateCovers(b)
    requires BuiltFrom(PlanOf(b), w) && p in b.tablesPre && Traced(b, p, from)
    requires InGrid(b.pre.rows, b.pre.cols, i, j)
    ensures Spliced(b, w, p, from, i, j) == March(b.post.Marched(), from.ray, b.post.amaxvalue, i, j)
       <==> SpliceIsInert(b, w, p, from, i, j)
  {
    if Remarched(w, p, i, j) {
      SmallerAmplitudeIsPrefix(from.ray, b.pre.rows, b.pre.cols, from.after, b.post.amaxvalue);
      AdmissibleExactly(b.post, from.ray, from.after, i, j);
    } else {
      KeptCellsSeeTheSame(b, w, p, from, i, j);
      UnchangedViewsExactly(b.pre, b.post, from.ray, from.before, from.after, i, j);
    }
  }

  /** Splice exactness: for every batch the builder accepts, when neither scene can be reached past
      its relief by the zeros outside the tile, the spliced planes equal the oracle's full march of
      the edited scene at every cell of every patch. They can always be packed. */
  lemma SpliceIsExact(b: Batch, w: Work, p: int, from: Provenance, i: int, j: int)
    requires b.Valid() && b.Refused().None? && CandidateCovers(b) && EdgeInert(b.pre) && EdgeInert(b.post)
    requires BuiltFrom(PlanOf(b), w) && p in b.tablesPre && Traced(b, p, from)
    requires InGrid(b.pre.rows, b.pre.cols, i, j)
    ensures Spliced(b, w, p, from, i, j) == March(b.post.Marched(), from.ray, b.post.amaxvalue, i, j)
    ensures Classified(Spliced(b, w, p, from, i, j))
  {
    SpliceExactly(b, w, p, from, i, j);
    if Remarched(w, p, i, j) {
      AdmissibleIsExact(b.post, from.ray, from.after, i, j);
    } else {
      KeptCellsSeeTheSame(b, w, p, from, i, j);
      EdgesKeepSurplusInert(b.pre, b.post, from.ray, from.before, from.after, i, j);
    }
    SplicedIsClassified(b, w, p, from, i, j);
  }

  /** No accepted batch splices a value that cannot be packed. */
  lemma SplicedIsClassified(b: Batch, w: Work, p: int, from: Provenance, i: int, j: int)
    requires b.Valid() && b.Refused().None? && p in b.tablesPre && Traced(b, p, from)
    requires InGrid(b.pre.rows, b.pre.cols, i, j)
    ensures Classified(Spliced(b, w, p, from, i, j))
  {
    OutputsClassified(b.post.Marched(), from.ray, from.after, i, j);
    OutputsClassified(b.pre.Marched(), from.ray, from.before, i, j);
  }

  /** A verified candidate always covers, so no assumption on it is left. */
  lemma VerifiedCandidateCovers(b: Batch)
    requires b.Valid() && b.Refused().None? && b.verifyCandidate
    ensures CandidateCovers(b)
  {
  }
}
