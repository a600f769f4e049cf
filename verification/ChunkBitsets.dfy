/** 64 x 64 chunked bitset encoding of a work mask (solweig_core/sparse_work.py, `ChunkedBitset`).
    A word is a natural number below 2^64; bit b of word k of chunk (ci, cj) is the cell
    (64 ci + k, 64 cj + b). */
module ChunkBitsets {
  import opened Planes
  import opened RowRuns
  import opened Arithmetic

  // ---------------------------------------------------------------- words

  /** Little-endian value of a line of bits. */
  function Word(bits: seq<bool>): nat {
    if bits == [] then 0 else (if bits[0] then 1 else 0) + 2 * Word(bits[1..])
  }

  function BitAt(w: nat, b: nat): bool {
    if b == 0 then w % 2 == 1 else BitAt(w / 2, b - 1)
  }

  function Popcount(w: nat): nat {
    if w == 0 then 0 else w % 2 + Popcount(w / 2)
  }

  lemma {:induction false} WordBits(bits: seq<bool>, b: nat)
    ensures BitAt(Word(bits), b) <==> b < |bits| && bits[b]
    decreases |bits|, b
  {
    if bits == [] {
      ZeroHasNoBits(b);
    } else if b > 0 {
      WordBits(bits[1..], b - 1);
      HalfOfWord(bits);
    }
  }

  lemma HalfOfWord(bits: seq<bool>)
    requires bits != []
    ensures Word(bits) / 2 == Word(bits[1..])
  {
  }

  /** Bit b of a word is the parity of its quotient by 2^b. */
  lemma {:induction false} BitIsParity(w: nat, b: nat)
    ensures Pow2(b) > 0 && (BitAt(w, b) <==> (w / Pow2(b)) % 2 == 1)
  {
    Pow2Positive(b);
    if b > 0 {
      Pow2Positive(b - 1);
      BitIsParity(w / 2, b - 1);
      QuotientOfQuotient(w, Pow2(b - 1));
    }
  }

  lemma QuotientOfQuotient(w: nat, d: nat)
    requires d > 0
    ensures (w / 2) / d == w / (2 * d)
  {
    var h := w / 2;
    var q, r := h / d, h % d;
    assert h == d * q + r && w == 2 * h + w % 2;
    assert 2 * (d * q) == (2 * d) * q;
    DivisionIsUnique(w, 2 * d, q, 2 * r + w % 2);
  }

  lemma {:induction false} ZeroHasNoBits(b: nat)
    ensures !BitAt(0, b)
  {
    if b > 0 {
      ZeroHasNoBits(b - 1);
    }
  }

  lemma {:induction false} WordFits(bits: seq<bool>)
    ensures Word(bits) < Pow2(|bits|)
  {
    if bits != [] {
      WordFits(bits[1..]);
    }
  }

  /** Words of one width that agree on every bit are equal. */
  lemma {:induction false} WordsAgree(u: nat, v: nat, n: nat)
    requires u < Pow2(n) && v < Pow2(n)
    requires forall b: nat | b < n :: BitAt(u, b) == BitAt(v, b)
    ensures u == v
  {
    if n > 0 {
      forall b: nat | b < n - 1 ensures BitAt(u / 2, b) == BitAt(v / 2, b) {
        assert BitAt(u, b + 1) == BitAt(v, b + 1);
      }
      WordsAgree(u / 2, v / 2, n - 1);
      assert BitAt(u, 0) == BitAt(v, 0);
    }
  }

  // ---------------------------------------------------------------- bitsets

  datatype Bitset = Bitset(rows: nat, cols: nat, keys: seq<(int, int)>, words: seq<seq<nat>>) {

    ghost predicate Shaped() {
      |words| == |keys| && forall n | 0 <= n < |words| :: |words[n]| == 64
    }

    /** Chunk n holds the cell (r, c). */
    ghost predicate HasIn(n: int, r: int, c: int)
      requires Shaped() && 0 <= n < |keys| && r >= 0 && c >= 0
    {
      keys[n] == (r / 64, c / 64) && BitAt(words[n][r % 64], c % 64)
    }

    ghost predicate Has(r: int, c: int)
      requires Shaped() && r >= 0 && c >= 0
    {
      exists n :: 0 <= n < |keys| && HasIn(n, r, c)
    }

    /** What the first n chunks decode to at (r, c): a later chunk with the same key overwrites the
        rows in which it holds anything. */
    predicate Decoded(n: nat, r: int, c: int)
      requires |words| == |keys| && (forall k | 0 <= k < |words| :: |words[k]| == 64) && n <= |keys| && r >= 0 && c >= 0
    {
      n > 0 &&
      if keys[n - 1] == (r / 64, c / 64) && words[n - 1][r % 64] != 0 then BitAt(words[n - 1][r % 64], c % 64)
      else Decoded(n - 1, r, c)
    }

    /** Chunk n starts past the right edge by 1 to 62 columns and holds something in a row of the
        grid: its line then has the wrong length for the empty slice it is assigned to. */
    ghost predicate Misfit(n: nat)
      requires Shaped() && n < |keys|
    {
      -63 < cols - 64 * keys[n].1 < 0 && exists k :: 0 <= k < 64 && words[n][k] != 0 && 64 * keys[n].0 + k < rows
    }

    ghost predicate Keyed() {
      Shaped() && forall n | 0 <= n < |keys| :: keys[n].0 >= 0 && keys[n].1 >= 0
    }

    /** Keys in row-major order, no empty chunk, no bit outside the grid. */
    ghost predicate Canonical() {
      && Shaped()
      && (forall m, n | 0 <= m < n < |keys| :: Precedes(keys[m], keys[n]))
      && (forall n | 0 <= n < |keys| :: keys[n].0 >= 0 && keys[n].1 >= 0)
      && (forall n, k | 0 <= n < |keys| && 0 <= k < 64 :: words[n][k] < Pow2(64))
      && (forall n | 0 <= n < |keys| :: NonEmpty(words[n]))
      && (forall n, k, b: nat | 0 <= n < |keys| && 0 <= k < 64 && b < 64 && BitAt(words[n][k], b) ::
            64 * keys[n].0 + k < rows && 64 * keys[n].1 + b < cols)
    }
  }

  predicate Precedes(x: (int, int), y: (int, int)) {
    x.0 < y.0 || (x.0 == y.0 && x.1 < y.1)
  }

  ghost predicate NonEmpty(words: seq<nat>) {
    exists k, b: nat :: 0 <= k < |words| && b < 64 && BitAt(words[k], b)
  }

  ghost predicate EncodesBits(bs: Bitset, mask: Mask, rows: nat, cols: nat)
    requires HasShape(mask, rows, cols)
  {
    && bs.Canonical() && bs.rows == rows && bs.cols == cols
    && forall r, c | InGrid(rows, cols, r, c) :: mask[r][c] <==> bs.Has(r, c)
  }

  // ---------------------------------------------------------------- encoding

  predicate Marked(mask: Mask, rows: nat, cols: nat, r: int, c: int)
    requires HasShape(mask, rows, cols)
  {
    InGrid(rows, cols, r, c) && mask[r][c]
  }

  /** Row k of chunk (ci, cj), padded with False past the grid. */
  function Line(mask: Mask, rows: nat, cols: nat, ci: nat, cj: nat, k: nat): (line: seq<bool>)
    requires HasShape(mask, rows, cols)
    ensures |line| == 64 && forall b | 0 <= b < 64 :: line[b] == Marked(mask, rows, cols, 64 * ci + k, 64 * cj + b)
  {
    seq(64, b requires 0 <= b < 64 => Marked(mask, rows, cols, 64 * ci + k, 64 * cj + b))
  }

  function ChunkWords(mask: Mask, rows: nat, cols: nat, ci: nat, cj: nat): (words: seq<nat>)
    requires HasShape(mask, rows, cols)
    ensures |words| == 64 && forall k | 0 <= k < 64 :: words[k] == Word(Line(mask, rows, cols, ci, cj, k))
  {
    seq(64, k requires 0 <= k < 64 => Word(Line(mask, rows, cols, ci, cj, k)))
  }

  lemma ChunkWordBits(mask: Mask, rows: nat, cols: nat, ci: nat, cj: nat, k: nat, b: nat)
    requires HasShape(mask, rows, cols) && k < 64
    ensures ChunkWords(mask, rows, cols, ci, cj)[k] < Pow2(64)
    ensures BitAt(ChunkWords(mask, rows, cols, ci, cj)[k], b) <==> b < 64 && Marked(mask, rows, cols, 64 * ci + k, 64 * cj + b)
  {
    WordBits(Line(mask, rows, cols, ci, cj, k), b);
    WordFits(Line(mask, rows, cols, ci, cj, k));
  }

  predicate ChunkAny(mask: Mask, rows: nat, cols: nat, ci: nat, cj: nat)
    requires HasShape(mask, rows, cols)
  {
    exists r, c | 64 * ci <= r < 64 * ci + 64 && 64 * cj <= c < 64 * cj + 64 :: Marked(mask, rows, cols, r, c)
  }

  /** Chunks before (ci, cj) are encoded. */
  ghost predicate EncodedTo(bs: Bitset, mask: Mask, ci: nat, cj: nat)
    requires HasShape(mask, bs.rows, bs.cols)
  {
    && bs.Canonical()
    && (forall n | 0 <= n < |bs.keys| :: Precedes(bs.keys[n], (ci, cj)))
    && forall r, c | InGrid(bs.rows, bs.cols, r, c) && Precedes((r / 64, c / 64), (ci, cj)) :: mask[r][c] <==> bs.Has(r, c)
  }

  method FromMask(mask: Mask, rows: nat, cols: nat) returns (bs: Bitset)
    requires HasShape(mask, rows, cols)
    ensures EncodesBits(bs, mask, rows, cols)
  {
    bs := Bitset(rows, cols, [], []);
    var ci := 0;
    while 64 * ci < rows
      invariant bs.rows == rows && bs.cols == cols && EncodedTo(bs, mask, ci, 0)
    {
      var cj := 0;
      while 64 * cj < cols
        invariant bs.rows == rows && bs.cols == cols && EncodedTo(bs, mask, ci, cj)
      {
        if ChunkAny(mask, rows, cols, ci, cj) {
          var ws := ChunkWords(mask, rows, cols, ci, cj);
          ChunkWordsHold(mask, rows, cols, ci, cj);
          AppendChunk(bs, mask, ci, cj, ws);
          bs := Extended(bs, (ci, cj), ws);
        } else {
          SkipChunk(bs, mask, ci, cj);
        }
        cj := cj + 1;
      }
      NextChunkRow(bs, mask, ci, cj);
      ci := ci + 1;
    }
  }

  lemma SkipChunk(bs: Bitset, mask: Mask, ci: nat, cj: nat)
    requires HasShape(mask, bs.rows, bs.cols) && EncodedTo(bs, mask, ci, cj) && !ChunkAny(mask, bs.rows, bs.cols, ci, cj)
    ensures EncodedTo(bs, mask, ci, cj + 1)
  {
    forall r, c | InGrid(bs.rows, bs.cols, r, c) && Precedes((r / 64, c / 64), (ci, cj + 1))
      ensures mask[r][c] <==> bs.Has(r, c)
    {
      if (r / 64, c / 64) == (ci, cj) {
        assert !Marked(mask, bs.rows, bs.cols, r, c);
        NotYet(bs, ci, cj, r, c);
      }
    }
  }

  lemma NextChunkRow(bs: Bitset, mask: Mask, ci: nat, cj: nat)
    requires HasShape(mask, bs.rows, bs.cols) && EncodedTo(bs, mask, ci, cj) && 64 * cj >= bs.cols
    ensures EncodedTo(bs, mask, ci + 1, 0)
  {
    forall r, c | InGrid(bs.rows, bs.cols, r, c) && Precedes((r / 64, c / 64), (ci + 1, 0))
      ensures mask[r][c] <==> bs.Has(r, c)
    {
      assert Precedes((r / 64, c / 64), (ci, cj));
    }
  }

  lemma HasAppend(bs: Bitset, key: (int, int), ws: seq<nat>, r: int, c: int)
    requires bs.Shaped() && |ws| == 64 && r >= 0 && c >= 0
    ensures var more := Extended(bs, key, ws);
            more.Shaped() && (more.Has(r, c) <==> bs.Has(r, c) || (key == (r / 64, c / 64) && BitAt(ws[r % 64], c % 64)))
  {
    var more := Extended(bs, key, ws);
    if n :| 0 <= n < |bs.keys| && bs.HasIn(n, r, c) {
      assert more.HasIn(n, r, c);
    }
    if key == (r / 64, c / 64) && BitAt(ws[r % 64], c % 64) {
      assert more.HasIn(|bs.keys|, r, c);
    }
    if more.Has(r, c) {
      var n :| 0 <= n < |more.keys| && more.HasIn(n, r, c);
      assert n < |bs.keys| ==> bs.HasIn(n, r, c);
    }
  }

  /** `ws` holds the bits of chunk (ci, cj). */
  ghost predicate HoldsChunk(ws: seq<nat>, mask: Mask, rows: nat, cols: nat, ci: nat, cj: nat)
    requires HasShape(mask, rows, cols)
  {
    && |ws| == 64 && NonEmpty(ws)
    && (forall k | 0 <= k < 64 :: ws[k] < Pow2(64))
    && (forall k, b: nat | 0 <= k < 64 && b < 64 :: BitAt(ws[k], b) <==> Marked(mask, rows, cols, 64 * ci + k, 64 * cj + b))
  }

  lemma ChunkWordsHold(mask: Mask, rows: nat, cols: nat, ci: nat, cj: nat)
    requires HasShape(mask, rows, cols) && ChunkAny(mask, rows, cols, ci, cj)
    ensures HoldsChunk(ChunkWords(mask, rows, cols, ci, cj), mask, rows, cols, ci, cj)
  {
    var ws := ChunkWords(mask, rows, cols, ci, cj);
    forall k | 0 <= k < 64 ensures ws[k] < Pow2(64) {
      ChunkWordBits(mask, rows, cols, ci, cj, k, 0);
    }
    forall k, b: nat | 0 <= k < 64 && b < 64
      ensures BitAt(ws[k], b) <==> Marked(mask, rows, cols, 64 * ci + k, 64 * cj + b)
    {
      ChunkWordBits(mask, rows, cols, ci, cj, k, b);
    }
    var x, y :| 64 * ci <= x < 64 * ci + 64 && 64 * cj <= y < 64 * cj + 64 && Marked(mask, rows, cols, x, y);
    ChunkWordBits(mask, rows, cols, ci, cj, x - 64 * ci, y - 64 * cj);
  }

  function Extended(bs: Bitset, key: (int, int), ws: seq<nat>): Bitset {
    bs.(keys := bs.keys + [key], words := bs.words + [ws])
  }

  lemma AppendedCell(bs: Bitset, mask: Mask, ci: nat, cj: nat, ws: seq<nat>, r: int, c: int)
    requires HasShape(mask, bs.rows, bs.cols) && EncodedTo(bs, mask, ci, cj) && HoldsChunk(ws, mask, bs.rows, bs.cols, ci, cj)
    requires InGrid(bs.rows, bs.cols, r, c) && Precedes((r / 64, c / 64), (ci, cj + 1))
    ensures var more := Extended(bs, (ci, cj), ws);
            more.Shaped() && (mask[r][c] <==> more.Has(r, c))
  {
    HasAppend(bs, (ci, cj), ws, r, c);
    if (r / 64, c / 64) == (ci, cj) {
      assert BitAt(ws[r % 64], c % 64) <==> Marked(mask, bs.rows, bs.cols, 64 * ci + r % 64, 64 * cj + c % 64);
      NotYet(bs, ci, cj, r, c);
    }
  }

  lemma AppendChunk(bs: Bitset, mask: Mask, ci: nat, cj: nat, ws: seq<nat>)
    requires HasShape(mask, bs.rows, bs.cols) && EncodedTo(bs, mask, ci, cj) && HoldsChunk(ws, mask, bs.rows, bs.cols, ci, cj)
    ensures EncodedTo(Extended(bs, (ci, cj), ws), mask, ci, cj + 1)
  {
    var more := Extended(bs, (ci, cj), ws);
    CanonicalAppend(bs, (ci, cj), ws);
    forall r, c | InGrid(bs.rows, bs.cols, r, c) && Precedes((r / 64, c / 64), (ci, cj + 1))
      ensures mask[r][c] <==> more.Has(r, c)
    {
      AppendedCell(bs, mask, ci, cj, ws, r, c);
    }
  }

  lemma NotYet(bs: Bitset, ci: nat, cj: nat, r: int, c: int)
    requires bs.Shaped() && r >= 0 && c >= 0 && (r / 64, c / 64) == (ci, cj)
    requires forall n | 0 <= n < |bs.keys| :: Precedes(bs.keys[n], (ci, cj))
    ensures !bs.Has(r, c)
  {
  }

  lemma CanonicalAppend(bs: Bitset, key: (int, int), ws: seq<nat>)
    requires bs.Canonical() && key.0 >= 0 && key.1 >= 0 && |ws| == 64 && NonEmpty(ws)
    requires forall n | 0 <= n < |bs.keys| :: Precedes(bs.keys[n], key)
    requires forall k | 0 <= k < 64 :: ws[k] < Pow2(64)
    requires forall k, b: nat | 0 <= k < 64 && b < 64 && BitAt(ws[k], b) :: 64 * key.0 + k < bs.rows && 64 * key.1 + b < bs.cols
    ensures Extended(bs, key, ws).Canonical()
  {
  }

  // ---------------------------------------------------------------- decoding

  /** Decode chunk by chunk; a chunk that does not fit its slice raises. */
  method ToMask(bs: Bitset) returns (ok: bool, out: array2<bool>)
    requires bs.Keyed()
    ensures fresh(out) && out.Length0 == bs.rows && out.Length1 == bs.cols
    ensures ok <==> forall n | 0 <= n < |bs.keys| :: !bs.Misfit(n)
    ensures ok ==> forall r, c | InGrid(bs.rows, bs.cols, r, c) :: out[r, c] <==> bs.Decoded(|bs.keys|, r, c)
  {
    out := new bool[bs.rows, bs.cols]((_, _) => false);
    for n := 0 to |bs.keys|
      invariant forall m | 0 <= m < n :: !bs.Misfit(m)
      invariant forall r, c | InGrid(bs.rows, bs.cols, r, c) :: out[r, c] <==> bs.Decoded(n, r, c)
    {
      var fits := DecodeChunk(bs, n, out);
      if !fits {
        return false, out;
      }
    }
    ok := true;
  }

  method DecodeChunk(bs: Bitset, n: nat, out: array2<bool>) returns (ok: bool)
    requires bs.Keyed() && n < |bs.keys| && out.Length0 == bs.rows && out.Length1 == bs.cols
    requires forall r, c | InGrid(bs.rows, bs.cols, r, c) :: out[r, c] <==> bs.Decoded(n, r, c)
    modifies out
    ensures ok <==> !bs.Misfit(n)
    ensures ok ==> forall r, c | InGrid(bs.rows, bs.cols, r, c) :: out[r, c] <==> bs.Decoded(n + 1, r, c)
  {
    var r0, c0 := 64 * bs.keys[n].0, 64 * bs.keys[n].1;
    var k := 0;
    while k < 64
      invariant 0 <= k <= 64
      invariant -63 < bs.cols - c0 < 0 ==> forall l | 0 <= l < k :: bs.words[n][l] == 0 || r0 + l >= bs.rows
      invariant forall r, c | InGrid(bs.rows, bs.cols, r, c) ::
                  out[r, c] <==> (if r0 <= r < r0 + k && c / 64 == bs.keys[n].1 && bs.words[n][r - r0] != 0
                                  then BitAt(bs.words[n][r - r0], c % 64) else old(out[r, c]))
    {
      var word := bs.words[n][k];
      if word != 0 {
        var r := r0 + k;
        if r >= bs.rows {
          break;
        }
        if -63 < bs.cols - c0 < 0 {
          return false;
        }
        forall c | c0 <= c < c0 + 64 && c < bs.cols {
          out[r, c] := BitAt(word, c - c0);
        }
      }
      k := k + 1;
    }
    ok := true;
  }

  /** With each chunk listed once, the decoder sees exactly the cells the bitset holds. */
  lemma {:induction false} DecodedIsHeld(bs: Bitset, n: nat, r: int, c: int)
    requires bs.Keyed() && n <= |bs.keys| && r >= 0 && c >= 0
    requires forall l, m | 0 <= l < m < |bs.keys| :: bs.keys[l] != bs.keys[m]
    ensures bs.Decoded(n, r, c) <==> exists m :: 0 <= m < n && bs.HasIn(m, r, c)
  {
    if n > 0 {
      DecodedIsHeld(bs, n - 1, r, c);
      ZeroHasNoBits(c % 64);
      assert bs.HasIn(n - 1, r, c) <==> bs.keys[n - 1] == (r / 64, c / 64) && BitAt(bs.words[n - 1][r % 64], c % 64);
      if bs.keys[n - 1] == (r / 64, c / 64) {
        assert forall m | 0 <= m < n - 1 :: !bs.HasIn(m, r, c);
      }
    }
  }

  // ---------------------------------------------------------------- canonicity

  lemma KeyIsUsed(x: Bitset, n: int) returns (r: int, c: int)
    requires x.Canonical() && 0 <= n < |x.keys|
    ensures r >= 0 && c >= 0 && (r / 64, c / 64) == x.keys[n] && InGrid(x.rows, x.cols, r, c) && x.HasIn(n, r, c)
  {
    assert NonEmpty(x.words[n]);
    var k, b: nat :| 0 <= k < |x.words[n]| && b < 64 && BitAt(x.words[n][k], b);
    r, c := 64 * x.keys[n].0 + k, 64 * x.keys[n].1 + b;
  }

  /** Whatever is canonical decodes, to exactly the cells it holds. */
  lemma CanonicalDecodes(x: Bitset)
    requires x.Canonical()
    ensures x.Keyed() && forall n | 0 <= n < |x.keys| :: !x.Misfit(n)
    ensures forall r, c | InGrid(x.rows, x.cols, r, c) :: x.Decoded(|x.keys|, r, c) <==> x.Has(r, c)
  {
    forall n | 0 <= n < |x.keys| ensures !x.Misfit(n) {
      var r, c := KeyIsUsed(x, n);
    }
    forall m, n | 0 <= m < n < |x.keys| ensures x.keys[m] != x.keys[n] {
      assert Precedes(x.keys[m], x.keys[n]);
    }
    forall r, c | InGrid(x.rows, x.cols, r, c) ensures x.Decoded(|x.keys|, r, c) <==> x.Has(r, c) {
      DecodedIsHeld(x, |x.keys|, r, c);
    }
  }

  lemma KeysAreShared(x: Bitset, y: Bitset, n: int)
    requires x.Canonical() && y.Canonical() && x.rows == y.rows && x.cols == y.cols && 0 <= n < |x.keys|
    requires forall r, c | InGrid(x.rows, x.cols, r, c) :: x.Has(r, c) ==> y.Has(r, c)
    ensures x.keys[n] in y.keys
  {
    var r, c := KeyIsUsed(x, n);
    assert x.Has(r, c) && y.Has(r, c);
  }

  /** Strictly ordered sequences with the same elements are the same sequence. */
  lemma {:induction false} SortedAgree(x: seq<(int, int)>, y: seq<(int, int)>)
    requires forall m, n | 0 <= m < n < |x| :: Precedes(x[m], x[n])
    requires forall m, n | 0 <= m < n < |y| :: Precedes(y[m], y[n])
    requires forall e :: e in x <==> e in y
    ensures x == y
    decreases |x|
  {
    assert y != [] ==> y[0] in y;
    if x != [] {
      assert x[0] in y && y != [] && y[0] in x;
      assert x[0] == y[0];
      forall e ensures e in x[1..] <==> e in y[1..] {
        assert e in x <==> e == x[0] || e in x[1..];
        assert e in y <==> e == y[0] || e in y[1..];
      }
      SortedAgree(x[1..], y[1..]);
      assert x == [x[0]] + x[1..] && y == [y[0]] + y[1..];
    }
  }

  lemma SameBits(x: Bitset, y: Bitset, n: int, k: int, b: nat)
    requires x.Canonical() && y.Canonical() && x.rows == y.rows && x.cols == y.cols && x.keys == y.keys
    requires forall r, c | InGrid(x.rows, x.cols, r, c) :: x.Has(r, c) ==> y.Has(r, c)
    requires 0 <= n < |x.keys| && 0 <= k < 64 && b < 64
    ensures BitAt(x.words[n][k], b) ==> BitAt(y.words[n][k], b)
  {
    if BitAt(x.words[n][k], b) {
      var r, c := 64 * x.keys[n].0 + k, 64 * x.keys[n].1 + b;
      assert x.HasIn(n, r, c) && x.Has(r, c) && y.Has(r, c);
      var m :| 0 <= m < |y.keys| && y.HasIn(m, r, c);
    }
  }

  /** A mask has exactly one canonical bitset, so decoding and encoding are mutually inverse. */
  lemma BitsetIsUnique(x: Bitset, y: Bitset)
    requires x.Canonical() && y.Canonical() && x.rows == y.rows && x.cols == y.cols
    requires forall r, c | InGrid(x.rows, x.cols, r, c) :: x.Has(r, c) <==> y.Has(r, c)
    ensures x == y
  {
    forall e ensures e in x.keys <==> e in y.keys {
      if n :| 0 <= n < |x.keys| && x.keys[n] == e {
        KeysAreShared(x, y, n);
      }
      if n :| 0 <= n < |y.keys| && y.keys[n] == e {
        KeysAreShared(y, x, n);
      }
    }
    SortedAgree(x.keys, y.keys);
    forall n | 0 <= n < |x.keys| ensures x.words[n] == y.words[n] {
      forall k | 0 <= k < 64 ensures x.words[n][k] == y.words[n][k] {
        forall b: nat | b < 64 ensures BitAt(x.words[n][k], b) == BitAt(y.words[n][k], b) {
          SameBits(x, y, n, k, b);
          SameBits(y, x, n, k, b);
        }
        WordsAgree(x.words[n][k], y.words[n][k], 64);
      }
    }
    assert x.words == y.words;
  }

  // ---------------------------------------------------------------- round trips

  /** Decoding the encoding of a mask gives the mask. */
  method EncodeThenDecode(mask: Mask, rows: nat, cols: nat) returns (out: array2<bool>)
    requires HasShape(mask, rows, cols)
    ensures fresh(out) && out.Length0 == rows && out.Length1 == cols
    ensures forall r, c | InGrid(rows, cols, r, c) :: out[r, c] == mask[r][c]
  {
    var bs := FromMask(mask, rows, cols);
    CanonicalDecodes(bs);
    var ok;
    ok, out := ToMask(bs);
  }

  /** Encoding what a canonical bitset decodes to gives the bitset. */
  method DecodeThenEncode(bs: Bitset) returns (again: Bitset)
    requires bs.Canonical()
    ensures again == bs
  {
    CanonicalDecodes(bs);
    var ok, out := ToMask(bs);
    again := FromMask(MaskOf(out), bs.rows, bs.cols);
    BitsetIsUnique(again, bs);
  }

  // ---------------------------------------------------------------- counting

  function Sum(words: seq<nat>): nat {
    if words == [] then 0 else Sum(words[..|words| - 1]) + Popcount(words[|words| - 1])
  }

  function TotalBits(words: seq<seq<nat>>): nat {
    if words == [] then 0 else TotalBits(words[..|words| - 1]) + Sum(words[|words| - 1])
  }

  /** The cells bits lo.. of a word stand for when bit 0 is column `c`. */
  ghost function WordCells(w: nat, r: int, c: int, n: nat): set<(int, int)> {
    set b | 0 <= b < n && BitAt(w, b) :: (r, c + b)
  }

  lemma {:induction false} WordCellsSize(w: nat, r: int, c: int, n: nat)
    requires w < Pow2(n)
    ensures |WordCells(w, r, c, n)| == Popcount(w)
    decreases n
  {
    if n == 0 {
      assert WordCells(w, r, c, n) == {};
    } else {
      WordCellsSize(w / 2, r, c + 1, n - 1);
      var low := if w % 2 == 1 then {(r, c)} else {};
      forall p ensures p in WordCells(w, r, c, n) <==> p in WordCells(w / 2, r, c + 1, n - 1) + low {
        if p in WordCells(w / 2, r, c + 1, n - 1) {
          var b :| 0 <= b < n - 1 && BitAt(w / 2, b) && p == (r, c + 1 + b);
          assert BitAt(w, b + 1) && p == (r, c + (b + 1));
        }
        if p in WordCells(w, r, c, n) {
          var b :| 0 <= b < n && BitAt(w, b) && p == (r, c + b);
          assert b > 0 ==> BitAt(w / 2, b - 1) && p == (r, c + 1 + (b - 1));
        }
        if p in low {
          assert BitAt(w, 0) && p == (r, c + 0);
        }
      }
      assert WordCells(w, r, c, n) == WordCells(w / 2, r, c + 1, n - 1) + low;
      assert Popcount(w) == w % 2 + Popcount(w / 2);
    }
  }

  /** The cells the first k words of a chunk hold. */
  ghost function RowsOf(words: seq<nat>, r0: int, c0: int): set<(int, int)> {
    set k, b | 0 <= k < |words| && 0 <= b < 64 && BitAt(words[k], b) :: (r0 + k, c0 + b)
  }

  lemma LastRow(words: seq<nat>, r0: int, c0: int)
    requires words != []
    ensures var k := |words| - 1;
            && RowsOf(words, r0, c0) == RowsOf(words[..k], r0, c0) + WordCells(words[k], r0 + k, c0, 64)
            && RowsOf(words[..k], r0, c0) !! WordCells(words[k], r0 + k, c0, 64)
  {
    var k := |words| - 1;
    forall p ensures p in RowsOf(words, r0, c0) <==> p in RowsOf(words[..k], r0, c0) || p in WordCells(words[k], r0 + k, c0, 64) {
      if p in RowsOf(words, r0, c0) {
        var l, b :| 0 <= l < |words| && 0 <= b < 64 && BitAt(words[l], b) && p == (r0 + l, c0 + b);
        assert l < k ==> words[..k][l] == words[l];
      }
      if p in RowsOf(words[..k], r0, c0) {
        var l, b :| 0 <= l < k && 0 <= b < 64 && BitAt(words[..k][l], b) && p == (r0 + l, c0 + b);
        assert BitAt(words[l], b);
      }
    }
  }

  lemma {:induction false} RowsOfSize(words: seq<nat>, r0: int, c0: int)
    requires forall k | 0 <= k < |words| :: words[k] < Pow2(64)
    ensures |RowsOf(words, r0, c0)| == Sum(words)
    decreases |words|
  {
    if words == [] {
      assert RowsOf(words, r0, c0) == {};
    } else {
      var k := |words| - 1;
      RowsOfSize(words[..k], r0, c0);
      WordCellsSize(words[k], r0 + k, c0, 64);
      LastRow(words, r0, c0);
    }
  }

  ghost function CellsTo(x: Bitset, n: nat): set<(int, int)>
    requires x.Canonical() && n <= |x.keys|
  {
    set r, c | 0 <= r < x.rows && 0 <= c < x.cols && (exists m :: 0 <= m < n && x.HasIn(m, r, c)) :: (r, c)
  }

  lemma ChunkCell(x: Bitset, n: nat, r: int, c: int)
    requires x.Canonical() && n < |x.keys|
    ensures (r, c) in RowsOf(x.words[n], 64 * x.keys[n].0, 64 * x.keys[n].1)
        <==> InGrid(x.rows, x.cols, r, c) && x.HasIn(n, r, c)
  {
    var (ci, cj) := x.keys[n];
    if (r, c) in RowsOf(x.words[n], 64 * ci, 64 * cj) {
      var k, b :| 0 <= k < 64 && 0 <= b < 64 && BitAt(x.words[n][k], b) && (r, c) == (64 * ci + k, 64 * cj + b);
      assert r / 64 == ci && c / 64 == cj && r % 64 == k && c % 64 == b;
    }
    if InGrid(x.rows, x.cols, r, c) && x.HasIn(n, r, c) {
      assert BitAt(x.words[n][r % 64], c % 64) && (r, c) == (64 * ci + r % 64, 64 * cj + c % 64);
    }
  }

  lemma OneChunkPerCell(x: Bitset, m: nat, n: nat, r: int, c: int)
    requires x.Canonical() && m < n < |x.keys| && r >= 0 && c >= 0 && x.HasIn(n, r, c)
    ensures !x.HasIn(m, r, c)
  {
    assert Precedes(x.keys[m], x.keys[n]);
  }

  lemma ChunkCells(x: Bitset, n: nat)
    requires x.Canonical() && n < |x.keys|
    ensures CellsTo(x, n + 1) == CellsTo(x, n) + RowsOf(x.words[n], 64 * x.keys[n].0, 64 * x.keys[n].1)
    ensures CellsTo(x, n) !! RowsOf(x.words[n], 64 * x.keys[n].0, 64 * x.keys[n].1)
  {
    var chunk := RowsOf(x.words[n], 64 * x.keys[n].0, 64 * x.keys[n].1);
    forall r, c
      ensures (r, c) in CellsTo(x, n + 1) <==> (r, c) in CellsTo(x, n) || (r, c) in chunk
      ensures !((r, c) in CellsTo(x, n) && (r, c) in chunk)
    {
      ChunkCell(x, n, r, c);
      forall m | 0 <= m < n && InGrid(x.rows, x.cols, r, c) && x.HasIn(n, r, c) ensures !x.HasIn(m, r, c) {
        OneChunkPerCell(x, m, n, r, c);
      }
    }
    assert CellsTo(x, n + 1) == CellsTo(x, n) + chunk;
  }

  lemma {:induction false} CellsToSize(x: Bitset, n: nat)
    requires x.Canonical() && n <= |x.keys|
    ensures |CellsTo(x, n)| == TotalBits(x.words[..n])
  {
    if n == 0 {
      assert CellsTo(x, 0) == {};
    } else {
      CellsToSize(x, n - 1);
      ChunkAddsBits(x, n - 1);
      TotalBitsStep(x.words, n - 1);
    }
  }

  lemma ChunkAddsBits(x: Bitset, n: nat)
    requires x.Canonical() && n < |x.keys|
    ensures |CellsTo(x, n + 1)| == |CellsTo(x, n)| + Sum(x.words[n])
  {
    ChunkCells(x, n);
    DisjointSize(CellsTo(x, n), RowsOf(x.words[n], 64 * x.keys[n].0, 64 * x.keys[n].1));
    RowsOfSize(x.words[n], 64 * x.keys[n].0, 64 * x.keys[n].1);
  }

  lemma DisjointSize(x: set<(int, int)>, y: set<(int, int)>)
    requires x !! y
    ensures |x + y| == |x| + |y|
  {
  }

  lemma TotalBitsStep(words: seq<seq<nat>>, n: nat)
    requires n < |words|
    ensures TotalBits(words[..n + 1]) == TotalBits(words[..n]) + Sum(words[n])
  {
    assert words[..n + 1][..n] == words[..n];
  }

  /** The word popcounts add up to the number of marked cells. */
  lemma PopcountsCountCells(x: Bitset, mask: Mask, rows: nat, cols: nat)
    requires HasShape(mask, rows, cols) && EncodesBits(x, mask, rows, cols)
    ensures TotalBits(x.words) == |Cells(mask, rows, cols)|
  {
    CellsToSize(x, |x.keys|);
    assert x.words[..|x.keys|] == x.words;
    forall r, c ensures (r, c) in CellsTo(x, |x.keys|) <==> (r, c) in Cells(mask, rows, cols) {
      assert InGrid(rows, cols, r, c) ==> (mask[r][c] <==> x.Has(r, c));
    }
    assert CellsTo(x, |x.keys|) == Cells(mask, rows, cols);
  }
}
