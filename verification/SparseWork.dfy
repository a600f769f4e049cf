/** The sparse work builder (solweig_core/sparse_work.py): composed diff, corridor closure, the
    refusal guards, and the work list in both of its encodings. */
module SparseWork {
  import opened Planes
  import opened Rays
  import opened Scenes
  import opened Splice
  import RR = RowRuns
  import CB = ChunkBitsets

  // ---------------------------------------------------------------- step tables

  datatype Kernel = SvfShadow | WallHeight23

  /** The executed steps of one march; digests are taken to be injective, so two tables have the
      same content digest exactly when these columns agree. */
  datatype Steps = Steps(dx: seq<int>, dy: seq<int>, dz: seq<real>)

  datatype StepTable = StepTable(kernel: Kernel, rows: nat, cols: nat, steps: Steps) {
    predicate Valid() {
      |steps.dx| == |steps.dy| == |steps.dz|
    }

    function Count(): nat {
      |steps.dx|
    }
  }

  /** The table recorded from a march of `ray` stopped at `amplitude`. */
  ghost predicate RecordedFrom(t: StepTable, ray: Ray, amplitude: real)
    requires ray.Valid()
  {
    && t.Valid() && t.Count() == StepCount(ray, t.rows, t.cols, amplitude)
    && forall k | 0 <= k < t.Count() ::
      t.steps.dx[k] == ray.dx(k + 1) && t.steps.dy[k] == ray.dy(k + 1) && t.steps.dz[k] == ray.dz(k + 1)
  }

  // ---------------------------------------------------------------- the composed diff

  predicate CellChanged(pre: MarchInputs, post: MarchInputs, i: nat, j: nat)
    requires pre.Shaped() && post.Shaped() && pre.rows == post.rows && pre.cols == post.cols && i < pre.rows && j < pre.cols
  {
    || pre.a[i][j] != post.a[i][j] || pre.vegdsm[i][j] != post.vegdsm[i][j]
    || pre.vegdsm2[i][j] != post.vegdsm2[i][j] || pre.bush[i][j] != post.bush[i][j]
  }

  function ChangeMask(pre: MarchInputs, post: MarchInputs): (m: Mask)
    requires pre.Shaped() && post.Shaped() && pre.rows == post.rows && pre.cols == post.cols
    ensures HasShape(m, pre.rows, pre.cols)
    ensures forall i, j | 0 <= i < pre.rows && 0 <= j < pre.cols :: m[i][j] <==> CellChanged(pre, post, i, j)
    ensures forall i, j | 0 <= i < pre.rows && 0 <= j < pre.cols :: !m[i][j] <==>
              && pre.a[i][j] == post.a[i][j] && pre.vegdsm[i][j] == post.vegdsm[i][j]
              && pre.vegdsm2[i][j] == post.vegdsm2[i][j] && pre.bush[i][j] == post.bush[i][j]
  {
    seq(pre.rows, i requires 0 <= i < pre.rows => seq(pre.cols, j requires 0 <= j < pre.cols => CellChanged(pre, post, i, j)))
  }

  function And(x: Mask, y: Mask, rows: nat, cols: nat): (m: Mask)
    requires HasShape(x, rows, cols) && HasShape(y, rows, cols)
    ensures HasShape(m, rows, cols)
    ensures forall i, j | 0 <= i < rows && 0 <= j < cols :: m[i][j] <==> x[i][j] && y[i][j]
  {
    seq(rows, i requires 0 <= i < rows => seq(cols, j requires 0 <= j < cols => x[i][j] && y[i][j]))
  }

  predicate Within(x: Mask, y: Mask, rows: nat, cols: nat)
    requires HasShape(x, rows, cols) && HasShape(y, rows, cols)
  {
    forall i, j | 0 <= i < rows && 0 <= j < cols :: x[i][j] ==> y[i][j]
  }

  predicate Any(x: Mask, rows: nat, cols: nat)
    requires HasShape(x, rows, cols)
  {
    exists i, j | 0 <= i < rows && 0 <= j < cols :: x[i][j]
  }

  // ---------------------------------------------------------------- corridor and closure

  /** Some step of the table takes (i, j) to a marked cell. */
  ghost predicate Reads(m: Mask, rows: nat, cols: nat, dx: seq<int>, dy: seq<int>, i: int, j: int)
    requires HasShape(m, rows, cols) && |dx| == |dy|
  {
    exists k :: 0 <= k < |dx| && Hits(m, rows, cols, i + dx[k], j + dy[k])
  }

  predicate Hits(m: Mask, rows: nat, cols: nat, i: int, j: int)
    requires HasShape(m, rows, cols)
  {
    InGrid(rows, cols, i, j) && m[i][j]
  }

  /** OR one clipped shifted slice per step into a cleared mask. */
  method CorridorMask(m: Mask, rows: nat, cols: nat, dx: seq<int>, dy: seq<int>) returns (out: array2<bool>)
    requires HasShape(m, rows, cols) && |dx| == |dy|
    ensures fresh(out) && out.Length0 == rows && out.Length1 == cols
    ensures forall i, j | InGrid(rows, cols, i, j) :: out[i, j] <==> Reads(m, rows, cols, dx, dy, i, j)
  {
    out := new bool[rows, cols]((_, _) => false);
    for k := 0 to |dx|
      invariant forall i, j | InGrid(rows, cols, i, j) :: out[i, j] <==> Reads(m, rows, cols, dx[..k], dy[..k], i, j)
    {
      var x, y := dx[k], dy[k];
      var r0, r1 := if -x > 0 then -x else 0, rows - (if x > 0 then x else 0);
      var c0, c1 := if -y > 0 then -y else 0, cols - (if y > 0 then y else 0);
      label Before:
      if r0 < r1 && c0 < c1 {
        forall i, j | r0 <= i < r1 && c0 <= j < c1 {
          out[i, j] := out[i, j] || m[i + x][j + y];
        }
      }
      forall i, j | InGrid(rows, cols, i, j)
        ensures out[i, j] <==> Reads(m, rows, cols, dx[..k + 1], dy[..k + 1], i, j)
      {
        assert out[i, j] <==> old@Before(out[i, j]) || Hits(m, rows, cols, i + x, j + y);
        ReadsOneMore(m, rows, cols, dx, dy, k, i, j);
      }
    }
    assert dx[..|dx|] == dx && dy[..|dy|] == dy;
  }

  lemma ReadsOneMore(m: Mask, rows: nat, cols: nat, dx: seq<int>, dy: seq<int>, k: nat, i: int, j: int)
    requires HasShape(m, rows, cols) && |dx| == |dy| && k < |dx|
    ensures Reads(m, rows, cols, dx[..k + 1], dy[..k + 1], i, j)
        <==> Reads(m, rows, cols, dx[..k], dy[..k], i, j) || Hits(m, rows, cols, i + dx[k], j + dy[k])
  {
    var px, py, qx, qy := dx[..k], dy[..k], dx[..k + 1], dy[..k + 1];
    assert qx[k] == dx[k] && qy[k] == dy[k];
    if l :| 0 <= l < |px| && Hits(m, rows, cols, i + px[l], j + py[l]) {
      assert Hits(m, rows, cols, i + qx[l], j + qy[l]);
    }
    if l :| 0 <= l < |qx| && Hits(m, rows, cols, i + qx[l], j + qy[l]) {
      assert l < k ==> Hits(m, rows, cols, i + px[l], j + py[l]);
    }
  }

  /** The cell belongs to the closure of `m` under the steps of both tables. */
  ghost predicate InClosure(m: Mask, rows: nat, cols: nat, before: StepTable, after: StepTable, i: int, j: int)
    requires HasShape(m, rows, cols) && before.Valid() && after.Valid() && InGrid(rows, cols, i, j)
  {
    || m[i][j]
    || Reads(m, rows, cols, before.steps.dx, before.steps.dy, i, j)
    || Reads(m, rows, cols, after.steps.dx, after.steps.dy, i, j)
  }

  method ClosureMask(m: Mask, rows: nat, cols: nat, before: StepTable, after: StepTable) returns (d: Mask)
    requires HasShape(m, rows, cols) && before.Valid() && after.Valid()
    ensures HasShape(d, rows, cols)
    ensures forall i, j | InGrid(rows, cols, i, j) :: d[i][j] <==> InClosure(m, rows, cols, before, after, i, j)
  {
    var p := CorridorMask(m, rows, cols, before.steps.dx, before.steps.dy);
    var q := CorridorMask(m, rows, cols, after.steps.dx, after.steps.dy);
    d := [];
    for i := 0 to rows
      invariant HasShape(d, i, cols)
      invariant forall r, c | InGrid(i, cols, r, c) :: d[r][c] <==> InClosure(m, rows, cols, before, after, r, c)
    {
      var row := seq(cols, j requires 0 <= j < cols reads p, q => m[i][j] || p[i, j] || q[i, j]);
      d := d + [row];
    }
  }

  // ---------------------------------------------------------------- guards

  datatype Refusal =
    | ShapesDiffer | TableKeysDiffer | WrongTable
    | IdentityMismatch | NonzeroBush | ClampRegimeChange | OneStepRegime
    | CandidateShape | CandidateMissesChange

  /** Which checks pass. */
  datatype Checks = Checks(shapes: bool, keys: bool, tables: bool, identity: bool, bushes: bool, clamp: bool, steps: bool,
                           candidateShape: bool, candidateCovers: bool)
  {
    predicate Passes(r: Refusal) {
      match r
      case ShapesDiffer => shapes
      case TableKeysDiffer => keys
      case WrongTable => tables
      case IdentityMismatch => identity
      case NonzeroBush => bushes
      case ClampRegimeChange => clamp
      case OneStepRegime => steps
      case CandidateShape => candidateShape
      case CandidateMissesChange => candidateCovers
    }
  }

  /** The place of a check in the builder's order. */
  function Rank(r: Refusal): nat {
    match r
    case ShapesDiffer => 0
    case TableKeysDiffer => 1
    case WrongTable => 2
    case IdentityMismatch => 3
    case NonzeroBush => 4
    case ClampRegimeChange => 5
    case OneStepRegime => 6
    case CandidateShape => 7
    case CandidateMissesChange => 8
  }

  function FirstFailure(c: Checks): Option<Refusal> {
    if !c.shapes then Some(ShapesDiffer)
    else if !c.keys then Some(TableKeysDiffer)
    else if !c.tables then Some(WrongTable)
    else if !c.identity then Some(IdentityMismatch)
    else if !c.bushes then Some(NonzeroBush)
    else if !c.clamp then Some(ClampRegimeChange)
    else if !c.steps then Some(OneStepRegime)
    else if !c.candidateShape then Some(CandidateShape)
    else if !c.candidateCovers then Some(CandidateMissesChange)
    else None
  }

  /** A refusal is reported exactly when its check fails and every check before it passes. */
  lemma FirstFailureExactly(c: Checks, r: Refusal)
    ensures FirstFailure(c) == Some(r) <==> !c.Passes(r) && forall q | Rank(q) < Rank(r) :: c.Passes(q)
  {
    if FirstFailure(c) == Some(r) {
      forall q | Rank(q) < Rank(r) ensures c.Passes(q) {
        match q {
          case ShapesDiffer => case TableKeysDiffer => case WrongTable => case IdentityMismatch => case NonzeroBush =>
          case ClampRegimeChange => case OneStepRegime => case CandidateShape => case CandidateMissesChange =>
        }
      }
    } else if !c.Passes(r) {
      var q := FirstFailure(c).value;
      assert !c.Passes(q) && Rank(q) < Rank(r);
    }
  }

  const SCHEMA_VERSION: int := 1

  const IDENTITY_FIELDS: set<string> :=
    { "schema_version", "site_id", "tile_key", "cache_manifest_sha256",
      "patch_geometry_id", "rows", "cols", "chunk_checksums_sha256" }

  /** Provenance of the packed state a work list is spliced into; values are opaque. */
  type Descriptor = map<string, int>

  predicate KnownDescriptor(d: Option<Descriptor>) {
    d.None? || (d.value.Keys == IDENTITY_FIELDS && d.value["schema_version"] == SCHEMA_VERSION)
  }

  predicate IdentityPasses(pre: Option<Descriptor>, post: Option<Descriptor>) {
    && KnownDescriptor(pre) && KnownDescriptor(post)
    && (pre.Some? && post.Some? ==> pre.value == post.value)
  }

  /** What the identity guard accepts: descriptors over exactly the eight fields and of schema 1, and
      two of them only when they agree on every field. */
  lemma IdentityExactly(pre: Option<Descriptor>, post: Option<Descriptor>)
    ensures IdentityPasses(pre, post) <==>
            && (forall d | d == pre || d == post :: d.Some? ==>
                 && (forall f :: f in d.value <==>
                       || f == "schema_version" || f == "site_id" || f == "tile_key" || f == "cache_manifest_sha256"
                       || f == "patch_geometry_id" || f == "rows" || f == "cols" || f == "chunk_checksums_sha256")
                 && d.value["schema_version"] == 1)
            && (pre.Some? && post.Some? ==> forall f | f in pre.value && f in post.value :: pre.value[f] == post.value[f])
  {
  }

  type Tables = map<int, StepTable>

  predicate ValidTables(t: Tables) {
    forall p | p in t :: t[p].Valid()
  }

  /** No patch ran fewer than two steps. */
  predicate MultiStep(t: Tables) {
    forall p | p in t :: t[p].Count() >= 2
  }

  /** One edit batch. */
  datatype Batch = Batch(pre: MarchInputs, post: MarchInputs, tablesPre: Tables, tablesPost: Tables,
                         identityPre: Option<Descriptor>, identityPost: Option<Descriptor>,
                         candidate: Option<Mask>, verifyCandidate: bool)
  {
    predicate Valid() {
      pre.Shaped() && post.Shaped() && ValidTables(tablesPre) && ValidTables(tablesPost)
    }

    predicate SameShape() {
      pre.rows == post.rows && pre.cols == post.cols
    }

    /** The changed cells the closure starts from. */
    function Source(): (m: Mask)
      requires Valid() && SameShape() && (candidate.Some? ==> HasShape(candidate.value, pre.rows, pre.cols))
      ensures HasShape(m, pre.rows, pre.cols)
    {
      var diff := ChangeMask(pre, post);
      if candidate.Some? then And(diff, candidate.value, pre.rows, pre.cols) else diff
    }

    /** The first check, in the builder's order, that refuses the batch. */
    function Refused(): (r: Option<Refusal>)
      requires Valid()
      ensures r.None? ==> SameShape() && tablesPre.Keys == tablesPost.Keys
      ensures r.None? ==> candidate.Some? ==> HasShape(candidate.value, pre.rows, pre.cols)
      ensures r.None? ==> pre.BushFree() && post.BushFree() && ClampGuardPasses(pre, post)
      ensures r.None? ==> MultiStep(tablesPre) && MultiStep(tablesPost)
      ensures r.None? ==> verifyCandidate && candidate.Some? ==> Within(ChangeMask(pre, post), candidate.value, pre.rows, pre.cols)
    {
      FirstFailure(Verdicts())
    }

    /** All verdicts on the batch; a check that needs an earlier one fails with it. */
    function Verdicts(): Checks
      requires Valid()
    {
      var keys := tablesPre.Keys == tablesPost.Keys;
      var fits := SameShape() && CandidateFits();
      Checks(SameShape(), keys, keys && TablesFit(), IdentityPasses(identityPre, identityPost),
             pre.BushFree() && post.BushFree(), ClampGuardPasses(pre, post), MultiStep(tablesPre) && MultiStep(tablesPost),
             fits, fits && CandidateChecked())
    }

    /** Every table comes from the sky-patch march of this tile. */
    predicate TablesFit()
      requires tablesPre.Keys == tablesPost.Keys
    {
      forall p | p in tablesPre ::
        && tablesPre[p].kernel == tablesPost[p].kernel == SvfShadow
        && FitsTile(tablesPre[p]) && FitsTile(tablesPost[p])
    }

    predicate CandidateFits() {
      candidate.Some? ==> HasShape(candidate.value, pre.rows, pre.cols)
    }

    /** A candidate that is to be verified covers the diff. */
    predicate CandidateChecked()
      requires Valid() && SameShape() && CandidateFits()
    {
      candidate.Some? && verifyCandidate ==> Within(ChangeMask(pre, post), candidate.value, pre.rows, pre.cols)
    }

    predicate FitsTile(t: StepTable) {
      t.rows == pre.rows && t.cols == pre.cols
    }
  }

  /** Every check of the builder passes. */
  predicate AllPass(b: Batch)
    requires b.Valid()
  {
    && b.SameShape() && b.tablesPre.Keys == b.tablesPost.Keys && b.TablesFit()
    && IdentityPasses(b.identityPre, b.identityPost) && b.pre.BushFree() && b.post.BushFree()
    && ClampGuardPasses(b.pre, b.post) && MultiStep(b.tablesPre) && MultiStep(b.tablesPost)
    && b.CandidateFits() && b.CandidateChecked()
  }

  /** A batch is accepted exactly when every check passes; the order only decides which refusal is
      reported. */
  lemma AcceptedExactly(b: Batch)
    requires b.Valid()
    ensures b.Refused().None? <==> AllPass(b)
  {
  }

  /** What the checks on tables mean: no table of the other march or of another tile, none with fewer
      than two steps. */
  lemma TableChecks(b: Batch)
    requires b.tablesPre.Keys == b.tablesPost.Keys
    ensures b.TablesFit() <==> forall p, t | p in b.tablesPre && (t == b.tablesPre[p] || t == b.tablesPost[p]) ::
              t.kernel != WallHeight23 && t.rows == b.pre.rows && t.cols == b.pre.cols
    ensures MultiStep(b.tablesPre) <==> forall p | p in b.tablesPre :: !(|b.tablesPre[p].steps.dx| <= 1)
  {
  }

  /** What the checks on scenes and candidate mean, cell by cell. */
  lemma SceneChecks(b: Batch)
    requires b.Valid() && b.SameShape()
    ensures !b.pre.BushFree() <==> exists i, j :: InGrid(b.pre.rows, b.pre.cols, i, j) && b.pre.bush[i][j] != 0.0
    ensures b.CandidateFits() ==>
              (!b.CandidateChecked() <==>
                b.verifyCandidate && b.candidate.Some? &&
                exists i, j :: InGrid(b.pre.rows, b.pre.cols, i, j) && CellChanged(b.pre, b.post, i, j) && !b.candidate.value[i][j])
  {
    if !b.pre.BushFree() {
      var i, j :| 0 <= i < b.pre.rows && 0 <= j < b.pre.cols && b.pre.bush[i][j] != 0.0;
      assert InGrid(b.pre.rows, b.pre.cols, i, j);
    }
    if b.CandidateFits() && !b.CandidateChecked() {
      var i, j :| 0 <= i < b.pre.rows && 0 <= j < b.pre.cols && ChangeMask(b.pre, b.post)[i][j] && !b.candidate.value[i][j];
      assert InGrid(b.pre.rows, b.pre.cols, i, j);
    }
  }

  // ---------------------------------------------------------------- the build

  /** What the build loop works from once a batch has passed every check. */
  datatype Plan = Plan(rows: nat, cols: nat, source: Mask, before: Tables, after: Tables) {
    predicate Valid() {
      HasShape(source, rows, cols) && before.Keys == after.Keys && ValidTables(before) && ValidTables(after)
    }

    predicate NothingChanged()
      requires Valid()
    {
      !Any(source, rows, cols)
    }

    predicate TablesIdentical()
      requires Valid()
    {
      forall p | p in before :: before[p].steps == after[p].steps
    }
  }

  function PlanOf(b: Batch): (plan: Plan)
    requires b.Valid() && b.Refused().None?
    ensures plan.Valid()
  {
    Plan(b.pre.rows, b.pre.cols, b.Source(), b.tablesPre, b.tablesPost)
  }

  /** The cells of a patch to march again: the closure, or the whole tile when nothing changed but
      the stop context did. */
  ghost predicate Needed(plan: Plan, p: int, i: int, j: int)
    requires plan.Valid() && p in plan.before && InGrid(plan.rows, plan.cols, i, j)
  {
    plan.NothingChanged() || InClosure(plan.source, plan.rows, plan.cols, plan.before[p], plan.after[p], i, j)
  }

  ghost function NeededMask(plan: Plan, p: int): (m: Mask)
    requires plan.Valid() && p in plan.before
    ensures HasShape(m, plan.rows, plan.cols)
    ensures forall i, j | InGrid(plan.rows, plan.cols, i, j) :: m[i][j] <==> Needed(plan, p, i, j)
  {
    seq(plan.rows, i requires 0 <= i < plan.rows => seq(plan.cols, j requires 0 <= j < plan.cols => Needed(plan, p, i, j)))
  }

  /** What the work list says about one patch. */
  datatype Entry = Entry(patch: int, runs: seq<RR.Run>, bits: CB.Bitset, cells: nat)

  /** One entry: exactly the needed cells, in both encodings, with their number. */
  ghost predicate EntryFor(plan: Plan, e: Entry)
    requires plan.Valid()
  {
    && e.patch in plan.before
    && RR.Encodes(e.runs, NeededMask(plan, e.patch), plan.rows, plan.cols)
    && CB.EncodesBits(e.bits, NeededMask(plan, e.patch), plan.rows, plan.cols)
    && e.cells == |RR.Cells(NeededMask(plan, e.patch), plan.rows, plan.cols)|
  }

  function PairTotal(es: seq<Entry>): nat {
    if es == [] then 0 else PairTotal(es[..|es| - 1]) + es[|es| - 1].cells
  }

  /** The work list: one entry per patch with work, in ascending patch order. */
  datatype Work = Work(entries: seq<Entry>, pairCount: nat, emptyWork: bool, tableChangedWithEmptyC: bool)

  ghost predicate AllEntriesFor(plan: Plan, es: seq<Entry>)
    requires plan.Valid()
  {
    forall k | 0 <= k < |es| :: EntryFor(plan, es[k])
  }

  predicate Ascending(es: seq<Entry>) {
    forall k, l | 0 <= k < l < |es| :: es[k].patch < es[l].patch
  }

  function PatchesOf(es: seq<Entry>): set<int> {
    set k | 0 <= k < |es| :: es[k].patch
  }

  ghost predicate BuiltFrom(plan: Plan, w: Work)
    requires plan.Valid()
  {
    && AllEntriesFor(plan, w.entries) && Ascending(w.entries) && w.pairCount == PairTotal(w.entries)
    && w.emptyWork == (plan.NothingChanged() && plan.TablesIdentical())
    && w.tableChangedWithEmptyC == (plan.NothingChanged() && !plan.TablesIdentical())
    && PatchesOf(w.entries) == (if w.emptyWork then {} else plan.before.Keys)
  }

  function TotalRunLength(es: seq<Entry>): int {
    if es == [] then 0 else TotalRunLength(es[..|es| - 1]) + RR.TotalLength(es[|es| - 1].runs)
  }

  function TotalPopcount(es: seq<Entry>): nat {
    if es == [] then 0 else TotalPopcount(es[..|es| - 1]) + CB.TotalBits(es[|es| - 1].bits.words)
  }

  /** The pair count is the total run length and the total number of set bits. */
  lemma {:induction false} PairCountAgrees(plan: Plan, es: seq<Entry>)
    requires plan.Valid() && AllEntriesFor(plan, es)
    ensures PairTotal(es) == TotalRunLength(es) == TotalPopcount(es)
  {
    if es != [] {
      var last := es[|es| - 1];
      PairCountAgrees(plan, es[..|es| - 1]);
      assert EntryFor(plan, last);
      RR.LengthsCountCells(last.runs, NeededMask(plan, last.patch), plan.rows, plan.cols);
      CB.PopcountsCountCells(last.bits, NeededMask(plan, last.patch), plan.rows, plan.cols);
    }
  }

  lemma {:induction false} SmallestExists(s: set<int>)
    requires s != {}
    ensures exists p :: p in s && forall q | q in s :: p <= q
  {
    assert exists p :: p in s by {
      assert (forall p :: p !in s) ==> s == {};
    }
    var p :| p in s;
    if s == {p} {
      assert p in s && forall q | q in s :: p <= q;
    } else {
      var rest := s - {p};
      assert rest != {};
      SmallestExists(rest);
      var q :| q in rest && forall r | r in rest :: q <= r;
      var least := if p < q then p else q;
      assert least in s && forall r | r in s :: least <= r by {
        assert forall r | r in s :: r == p || r in rest;
      }
    }
  }

  method FullTile(rows: nat, cols: nat) returns (d: Mask)
    ensures HasShape(d, rows, cols) && forall i, j | InGrid(rows, cols, i, j) :: d[i][j]
  {
    d := seq(rows, _ => seq(cols, _ => true));
  }

  lemma SameMask(x: Mask, y: Mask, rows: nat, cols: nat)
    requires HasShape(x, rows, cols) && HasShape(y, rows, cols)
    requires forall i, j | InGrid(rows, cols, i, j) :: x[i][j] == y[i][j]
    ensures x == y
  {
    forall i | 0 <= i < rows ensures x[i] == y[i] {
      forall j | 0 <= j < cols ensures x[i][j] == y[i][j] {
        assert InGrid(rows, cols, i, j);
      }
    }
  }

  /** The mask of one patch, as the build loop chooses it. */
  method PatchMask(plan: Plan, p: int) returns (d: Mask)
    requires plan.Valid() && p in plan.before
    ensures d == NeededMask(plan, p)
  {
    if plan.NothingChanged() {
      d := FullTile(plan.rows, plan.cols);
    } else {
      d := ClosureMask(plan.source, plan.rows, plan.cols, plan.before[p], plan.after[p]);
    }
    SameMask(d, NeededMask(plan, p), plan.rows, plan.cols);
  }

  method BuildEntry(plan: Plan, p: int) returns (e: Entry)
    requires plan.Valid() && p in plan.before
    ensures EntryFor(plan, e) && e.patch == p
  {
    var d := PatchMask(plan, p);
    var runs := RR.FromMask(d, plan.rows, plan.cols);
    var bits := CB.FromMask(d, plan.rows, plan.cols);
    e := Entry(p, runs, bits, |RR.Cells(d, plan.rows, plan.cols)|);
  }

  /** The patch indices in ascending order. */
  method Sorted(keys: set<int>) returns (ks: seq<int>)
    ensures forall k, l | 0 <= k < l < |ks| :: ks[k] < ks[l]
    ensures forall p :: p in ks <==> p in keys
  {
    ks := [];
    var remaining := keys;
    while remaining != {}
      invariant remaining <= keys
      invariant forall p :: p in keys <==> p in remaining || p in ks
      invariant forall k, l | 0 <= k < l < |ks| :: ks[k] < ks[l]
      invariant forall k, q | 0 <= k < |ks| && q in remaining :: ks[k] < q
      decreases remaining
    {
      SmallestExists(remaining);
      var p :| p in remaining && forall q | q in remaining :: p <= q;
      ks := ks + [p];
      remaining := remaining - {p};
    }
  }

  method BuildEntries(plan: Plan, ks: seq<int>) returns (es: seq<Entry>, pairCount: nat)
    requires plan.Valid()
    requires forall k | 0 <= k < |ks| :: ks[k] in plan.before
    ensures EntriesFor(plan, es, ks) && pairCount == PairTotal(es)
  {
    es, pairCount := [], 0;
    for k := 0 to |ks|
      invariant EntriesFor(plan, es, ks[..k]) && pairCount == PairTotal(es)
    {
      var e := BuildEntry(plan, ks[k]);
      OneMoreEntry(plan, es, ks[..k], e);
      assert ks[..k] + [ks[k]] == ks[..k + 1];
      es, pairCount := es + [e], pairCount + e.cells;
    }
    assert ks[..|ks|] == ks;
  }

  /** Good entries for exactly the listed patches, in their order. */
  ghost predicate EntriesFor(plan: Plan, es: seq<Entry>, ks: seq<int>)
    requires plan.Valid()
  {
    AllEntriesFor(plan, es) && |es| == |ks| && forall k | 0 <= k < |es| :: es[k].patch == ks[k]
  }

  lemma OneMoreEntry(plan: Plan, es: seq<Entry>, ks: seq<int>, e: Entry)
    requires plan.Valid() && EntriesFor(plan, es, ks) && EntryFor(plan, e)
    ensures EntriesFor(plan, es + [e], ks + [e.patch]) && PairTotal(es + [e]) == PairTotal(es) + e.cells
  {
    assert (es + [e])[..|es|] == es;
  }

  lemma PatchesListed(es: seq<Entry>, ks: seq<int>, keys: set<int>)
    requires |es| == |ks| && forall k | 0 <= k < |es| :: es[k].patch == ks[k]
    requires forall p :: p in ks <==> p in keys
    ensures PatchesOf(es) == keys
  {
    forall p | p in keys ensures p in PatchesOf(es) {
      var k :| 0 <= k < |ks| && ks[k] == p;
      assert es[k].patch == p;
    }
    forall p | p in PatchesOf(es) ensures p in keys {
      var k :| 0 <= k < |es| && es[k].patch == p;
      assert ks[k] in ks;
    }
  }

  method BuildSparseWork(b: Batch) returns (r: Result<Work, Refusal>)
    requires b.Valid()
    ensures r.Err? ==> b.Refused() == Some(r.error)
    ensures r.Ok? ==> b.Refused().None? && BuiltFrom(PlanOf(b), r.value)
  {
    var refusal := b.Refused();
    if refusal.Some? {
      return Err(refusal.value);
    }
    var w := BuildAccepted(PlanOf(b));
    r := Ok(w);
  }

  method BuildAccepted(plan: Plan) returns (w: Work)
    requires plan.Valid()
    ensures BuiltFrom(plan, w)
  {
    var empty := plan.NothingChanged();
    if empty && plan.TablesIdentical() {
      return Work([], 0, true, false);
    }
    var ks := Sorted(plan.before.Keys);
    assert forall k | 0 <= k < |ks| :: ks[k] in ks;
    var es, pairCount := BuildEntries(plan, ks);
    PatchesListed(es, ks, plan.before.Keys);
    w := Work(es, pairCount, false, empty && !plan.TablesIdentical());
  }
}
