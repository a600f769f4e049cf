/** The chunk grid of the packed state and its ownership guards (solweig_core/bitplanes.py). */
module ChunkOwnership {
  import opened Planes

  type Chunk = (int, int)

  function ChunkGrid(rows: nat, cols: nat): (int, int) {
    ((rows + 63) / 64, (cols + 63) / 64)
  }

  datatype Window = Window(r0: int, r1: int, c0: int, c1: int) {
    predicate Has(r: int, c: int) {
      r0 <= r < r1 && c0 <= c < c1
    }
  }

  function ChunkWindow(rows: nat, cols: nat, chunk: Chunk): Window {
    var r0, c0 := 64 * chunk.0, 64 * chunk.1;
    Window(r0, if r0 + 64 < rows then r0 + 64 else rows, c0, if c0 + 64 < cols then c0 + 64 else cols)
  }

  function CellChunk(r: int, c: int): Chunk {
    (r / 64, c / 64)
  }

  /** The windows of the grid tile the cells: a cell lies in the window of a grid chunk exactly when
      that chunk is its own, and its own chunk is always in the grid. */
  lemma WindowsTileCells(rows: nat, cols: nat, r: int, c: int, chunk: Chunk)
    requires InGrid(rows, cols, r, c)
    ensures ChunkWindow(rows, cols, chunk).Has(r, c) <==> chunk == CellChunk(r, c)
    ensures var (nr, nc) := ChunkGrid(rows, cols); 0 <= CellChunk(r, c).0 < nr && 0 <= CellChunk(r, c).1 < nc
  {
  }

  /** A chunk is 64 by 64 cells, and the grid holds exactly the chunks that own a cell. */
  lemma ChunksAreSquares(rows: nat, cols: nat, chunk: Chunk)
    ensures forall r, c :: CellChunk(r, c) == chunk <==>
              64 * chunk.0 <= r < 64 * chunk.0 + 64 && 64 * chunk.1 <= c < 64 * chunk.1 + 64
    ensures var (nr, nc) := ChunkGrid(rows, cols);
            (0 <= chunk.0 < nr && 0 <= chunk.1 < nc) <==> exists r, c :: InGrid(rows, cols, r, c) && CellChunk(r, c) == chunk
  {
    var (nr, nc) := ChunkGrid(rows, cols);
    if 0 <= chunk.0 < nr && 0 <= chunk.1 < nc {
      assert InGrid(rows, cols, 64 * chunk.0, 64 * chunk.1) && CellChunk(64 * chunk.0, 64 * chunk.1) == chunk;
    }
  }

  // ---------------------------------------------------------------- overlapping claims

  ghost predicate ClaimsDisjoint(claims: map<string, set<Chunk>>) {
    forall v, w | v in claims && w in claims && v != w :: claims[v] !! claims[w]
  }

  /** A chunk and the two writers that claim it. */
  datatype Contested = Contested(chunk: Chunk, first: string, second: string)

  /** Record each chunk's claimant and refuse the first chunk met twice, naming it and both
      claimants. Writers and chunks are met in some order; the verdict does not depend on it. */
  method VerifyChunkOwnership(claims: map<string, set<Chunk>>) returns (r: Option<Contested>)
    ensures r.None? <==> ClaimsDisjoint(claims)
    ensures r.Some? ==>
              var c := r.value;
              && c.first in claims && c.second in claims && c.first != c.second
              && c.chunk in claims[c.first] && c.chunk in claims[c.second]
  {
    var seen: map<Chunk, string> := map[];
    var writers := claims.Keys;
    while writers != {}
      invariant writers <= claims.Keys
      invariant forall v, w | v in claims.Keys - writers && w in claims.Keys - writers && v != w :: claims[v] !! claims[w]
      invariant forall k :: k in seen <==> exists v :: v in claims.Keys - writers && k in claims[v]
      invariant forall k | k in seen :: seen[k] in claims.Keys - writers && k in claims[seen[k]]
      decreases writers
    {
      var writer :| writer in writers;
      ghost var before := seen;
      var chunks := claims[writer];
      while chunks != {}
        invariant chunks <= claims[writer]
        invariant forall k | k in claims[writer] - chunks :: k !in before
        invariant forall k :: k in seen <==> k in before || k in claims[writer] - chunks
        invariant forall k | k in seen :: seen[k] == if k in before then before[k] else writer
        decreases chunks
      {
        var chunk :| chunk in chunks;
        if chunk in seen {
          assert chunk in before;
          var first := seen[chunk];
          assert !(claims[first] !! claims[writer]);
          return Some(Contested(chunk, first, writer));
        }
        seen := seen[chunk := writer];
        chunks := chunks - {chunk};
      }
      forall v | v in claims.Keys - writers ensures claims[v] !! claims[writer] {
        assert forall k | k in claims[v] :: k in before;
      }
      writers := writers - {writer};
    }
    r := None;
  }

  // ---------------------------------------------------------------- exact partitions

  datatype Range = Range(rLo: int, rHi: int, cLo: int, cHi: int) {
    predicate Fits(nCols: int) {
      0 <= rLo < rHi && 0 <= cLo < cHi <= nCols
    }

    predicate Has(t: Chunk) {
      rLo <= t.0 < rHi && cLo <= t.1 < cHi
    }
  }

  /** One past the last chunk row any range reaches. */
  function RowsOf(ranges: seq<Range>): (n: int)
    ensures n >= 0 && forall k | 0 <= k < |ranges| :: ranges[k].rHi <= n
  {
    if ranges == [] then 0
    else
      var rest := RowsOf(ranges[..|ranges| - 1]);
      var last := ranges[|ranges| - 1].rHi;
      assert forall k | 0 <= k < |ranges| - 1 :: ranges[..|ranges| - 1][k] == ranges[k];
      if last > rest then last else rest
  }

  ghost predicate NoneTwice(ranges: seq<Range>) {
    forall k, l, t | 0 <= k < l < |ranges| :: !(ranges[k].Has(t) && ranges[l].Has(t))
  }

  ghost predicate Covered(ranges: seq<Range>, t: Chunk) {
    exists k :: 0 <= k < |ranges| && ranges[k].Has(t)
  }

  predicate InTiles(nRows: int, nCols: int, t: Chunk) {
    0 <= t.0 < nRows && 0 <= t.1 < nCols
  }

  /** Every range valid, every tile of the inferred grid in exactly one range. */
  ghost predicate ExactPartition(ranges: seq<Range>, nCols: int) {
    && nCols > 0 && (forall k | 0 <= k < |ranges| :: ranges[k].Fits(nCols))
    && NoneTwice(ranges)
    && forall t | InTiles(RowsOf(ranges), nCols, t) :: Covered(ranges, t)
  }

  /** Add the tiles of one range, stopping at the first tile already taken. */
  method AddRange(seen0: set<Chunk>, range: Range) returns (ok: bool, seen: set<Chunk>)
    ensures ok <==> forall t | range.Has(t) :: t !in seen0
    ensures ok ==> forall t :: t in seen <==> t in seen0 || range.Has(t)
  {
    seen := seen0;
    var cr := range.rLo;
    while cr < range.rHi
      invariant range.rLo <= range.rHi ==> range.rLo <= cr <= range.rHi
      invariant forall t :: t in seen <==> t in seen0 || (range.Has(t) && t.0 < cr)
      invariant forall t | range.Has(t) && t.0 < cr :: t !in seen0
    {
      var cc := range.cLo;
      while cc < range.cHi
        invariant range.cLo <= range.cHi ==> range.cLo <= cc <= range.cHi
        invariant forall t :: t in seen <==> t in seen0 || (range.Has(t) && (t.0 < cr || (t.0 == cr && t.1 < cc)))
        invariant forall t | range.Has(t) && (t.0 < cr || (t.0 == cr && t.1 < cc)) :: t !in seen0
      {
        if (cr, cc) in seen {
          assert range.Has((cr, cc));
          return false, seen;
        }
        seen := seen + {(cr, cc)};
        cc := cc + 1;
      }
      cr := cr + 1;
    }
    ok := true;
  }

  method VerifyChunkPartition(ranges: seq<Range>, nCols: int) returns (ok: bool)
    ensures ok <==> ExactPartition(ranges, nCols)
  {
    if nCols <= 0 {
      return false;
    }
    var seen: set<Chunk> := {};
    var nRows := 0;
    for k := 0 to |ranges|
      invariant nRows == RowsOf(ranges[..k])
      invariant forall l | 0 <= l < k :: ranges[l].Fits(nCols)
      invariant NoneTwice(ranges[..k])
      invariant forall t :: t in seen <==> Covered(ranges[..k], t)
    {
      var range := ranges[k];
      assert ranges[..k + 1][..k] == ranges[..k] && ranges[..k + 1] == ranges[..k] + [range];
      if !range.Fits(nCols) {
        return false;
      }
      nRows := if nRows < range.rHi then range.rHi else nRows;
      var fine;
      OneMoreRange(ranges, k, seen);
      fine, seen := AddRange(seen, range);
      if !fine {
        return false;
      }
    }
    assert ranges[..|ranges|] == ranges;
    var full := set cr, cc | 0 <= cr < nRows && 0 <= cc < nCols :: (cr, cc);
    ok := full <= seen;
    assert ok <==> forall t | InTiles(nRows, nCols, t) :: Covered(ranges, t) by {
      forall t ensures t in full <==> InTiles(nRows, nCols, t) {
        assert t == (t.0, t.1);
      }
    }
  }

  lemma OneMoreRange(ranges: seq<Range>, k: nat, seen: set<Chunk>)
    requires k < |ranges| && NoneTwice(ranges[..k]) && forall t :: t in seen <==> Covered(ranges[..k], t)
    ensures forall t :: Covered(ranges[..k + 1], t) <==> t in seen || ranges[k].Has(t)
    ensures NoneTwice(ranges[..k + 1]) <==> forall t | ranges[k].Has(t) :: t !in seen
    ensures NoneTwice(ranges) ==> NoneTwice(ranges[..k + 1])
  {
    var now, more := ranges[..k], ranges[..k + 1];
    forall t ensures Covered(more, t) <==> t in seen || ranges[k].Has(t) {
      if l :| 0 <= l < |now| && now[l].Has(t) {
        assert more[l].Has(t);
      }
      if ranges[k].Has(t) {
        assert more[k].Has(t);
      }
      if l :| 0 <= l < |more| && more[l].Has(t) {
        assert l < k ==> now[l].Has(t);
      }
    }
    if forall t | ranges[k].Has(t) :: t !in seen {
      forall i, l, t | 0 <= i < l < |more| ensures !(more[i].Has(t) && more[l].Has(t)) {
        if l == k {
          assert now[i].Has(t) ==> Covered(now, t);
        } else {
          assert now[i] == more[i] && now[l] == more[l];
        }
      }
    } else {
      var t :| ranges[k].Has(t) && t in seen;
      var l :| 0 <= l < |now| && now[l].Has(t);
      assert more[l].Has(t) && more[k].Has(t);
    }
  }

  /** An accepted partition that matches the chunk grid gives every cell exactly one writer. */
  lemma PartitionOwnsCells(ranges: seq<Range>, rows: nat, cols: nat, r: int, c: int)
    requires ExactPartition(ranges, ChunkGrid(rows, cols).1) && RowsOf(ranges) == ChunkGrid(rows, cols).0
    requires InGrid(rows, cols, r, c)
    ensures exists k :: 0 <= k < |ranges| && ranges[k].Has(CellChunk(r, c))
    ensures forall k, l | 0 <= k < |ranges| && 0 <= l < |ranges| && ranges[k].Has(CellChunk(r, c)) && ranges[l].Has(CellChunk(r, c)) :: k == l
  {
    WindowsTileCells(rows, cols, r, c, CellChunk(r, c));
    assert InTiles(RowsOf(ranges), ChunkGrid(rows, cols).1, CellChunk(r, c));
    assert Covered(ranges, CellChunk(r, c));
  }
}
