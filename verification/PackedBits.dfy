/** Packed binary patch state (solweig_core/bitplanes.py): patch p of a cell is bit p % 8 of its
    byte p / 8, and the bits past the last patch are meant to stay zero. */
module PackedBits {
  import opened Planes
  import opened Arithmetic

  // ---------------------------------------------------------------- bytes

  function Flag(i: nat): bv8
    requires i < 8
  {
    if i == 0 then 1 else if i == 1 then 2 else if i == 2 then 4 else if i == 3 then 8
    else if i == 4 then 16 else if i == 5 then 32 else if i == 6 then 64 else 128
  }

  predicate Bit(b: bv8, i: nat)
    requires i < 8
  {
    b & Flag(i) != 0
  }

  function Clear(b: bv8, i: nat): bv8
    requires i < 8
  {
    b & (Flag(i) ^ 0xFF)
  }

  /** Clear the bit, then set it where the value says so. */
  function WithBit(b: bv8, i: nat, v: bool): bv8
    requires i < 8
  {
    Clear(b, i) | (if v then Flag(i) else 0)
  }

  /** Patch p stands for 2^(p % 8) in its byte, and is read by shifting it down. */
  lemma FlagValue(i: nat, b: bv8)
    requires i < 8
    ensures Flag(i) as int == Pow2(i)
    ensures Bit(b, i) <==> (b >> i) & 1 == 1
  {
    if i == 0 {} else if i == 1 {} else if i == 2 {} else if i == 3 {} else if i == 4 {} else if i == 5 {} else if i == 6 {} else {}
  }

  /** Setting a clear bit adds its flag. */
  lemma SettingAdds(b: bv8, i: nat, v: bool)
    requires i < 8 && !Bit(b, i)
    ensures WithBit(b, i, v) == b + FlagIf(i, v)
  {
  }

  function FlagIf(i: nat, v: bool): bv8
    requires i < 8
  {
    if v then Flag(i) else 0
  }

  lemma BitOfWithBit(b: bv8, i: nat, v: bool, j: nat)
    requires i < 8 && j < 8
    ensures Bit(WithBit(b, i, v), j) == (if i == j then v else Bit(b, j))
  {
  }

  /** A byte is determined by its eight bits. */
  lemma BytesAgree(x: bv8, y: bv8)
    requires forall i: nat | i < 8 :: Bit(x, i) == Bit(y, i)
    ensures x == y
  {
    assert Bit(x, 0) == Bit(y, 0) && Bit(x, 1) == Bit(y, 1) && Bit(x, 2) == Bit(y, 2) && Bit(x, 3) == Bit(y, 3);
    assert Bit(x, 4) == Bit(y, 4) && Bit(x, 5) == Bit(y, 5) && Bit(x, 6) == Bit(y, 6) && Bit(x, 7) == Bit(y, 7);
  }

  // ---------------------------------------------------------------- one cell

  function BytesPerPatch(patches: nat): nat {
    (patches + 7) / 8
  }

  /** The fewest bytes that hold the patches. */
  lemma BytesAreFewest(patches: nat)
    ensures patches <= 8 * BytesPerPatch(patches) < patches + 8
  {
  }

  predicate Patch(bits: seq<bool>, p: int) {
    0 <= p < |bits| && bits[p]
  }

  /** The byte holding patches 8k .. 8k+7, built from its first n bits. */
  function PackByte(bits: seq<bool>, k: nat, n: nat): bv8
    requires n <= 8
  {
    if n == 0 then 0 else WithBit(PackByte(bits, k, n - 1), n - 1, Patch(bits, 8 * k + n - 1))
  }

  lemma {:induction false} PackByteBits(bits: seq<bool>, k: nat, n: nat, j: nat)
    requires n <= 8 && j < 8
    ensures Bit(PackByte(bits, k, n), j) <==> j < n && Patch(bits, 8 * k + j)
  {
    if n > 0 {
      PackByteBits(bits, k, n - 1, j);
      BitOfWithBit(PackByte(bits, k, n - 1), n - 1, Patch(bits, 8 * k + n - 1), j);
    }
  }

  /** The flags of the patches 8k .. 8k+n-1, added up. */
  function FlagSum(bits: seq<bool>, k: nat, n: nat): bv8
    requires n <= 8
  {
    if n == 0 then 0 else FlagSum(bits, k, n - 1) + FlagIf(n - 1, Patch(bits, 8 * k + n - 1))
  }

  /** A packed byte is the sum of the flags of its patches. */
  lemma {:induction false} ByteIsSum(bits: seq<bool>, k: nat, n: nat)
    requires n <= 8
    ensures PackByte(bits, k, n) == FlagSum(bits, k, n)
  {
    if n > 0 {
      ByteIsSum(bits, k, n - 1);
      PackByteBits(bits, k, n - 1, n - 1);
      SettingAdds(PackByte(bits, k, n - 1), n - 1, Patch(bits, 8 * k + n - 1));
    }
  }

  function PackCell(bits: seq<bool>): (bytes: seq<bv8>)
    ensures |bytes| == BytesPerPatch(|bits|)
    ensures forall k | 0 <= k < |bytes| :: bytes[k] == PackByte(bits, k, 8)
  {
    seq(BytesPerPatch(|bits|), k requires 0 <= k < BytesPerPatch(|bits|) => PackByte(bits, k, 8))
  }

  predicate PatchOf(bytes: seq<bv8>, p: int)
    requires 0 <= p < 8 * |bytes|
  {
    Bit(bytes[p / 8], p % 8)
  }

  function UnpackCell(bytes: seq<bv8>, patches: nat): (bits: seq<bool>)
    requires |bytes| == BytesPerPatch(patches)
    ensures |bits| == patches && forall p | 0 <= p < patches :: bits[p] == PatchOf(bytes, p)
  {
    seq(patches, p requires 0 <= p < patches => PatchOf(bytes, p))
  }

  /** No bit past the last patch is set. */
  predicate ZeroTail(bytes: seq<bv8>, patches: nat) {
    forall p | patches <= p < 8 * |bytes| :: !PatchOf(bytes, p)
  }

  lemma PackedPatch(bits: seq<bool>, p: nat)
    requires p < 8 * BytesPerPatch(|bits|)
    ensures PatchOf(PackCell(bits), p) == Patch(bits, p)
  {
    PackByteBits(bits, p / 8, 8, p % 8);
    assert 8 * (p / 8) + p % 8 == p;
  }

  /** Unpacking a packed cell gives the patches back, and packing leaves the tail zero. */
  lemma UnpackOfPack(bits: seq<bool>)
    ensures UnpackCell(PackCell(bits), |bits|) == bits
    ensures ZeroTail(PackCell(bits), |bits|)
  {
    forall p: nat | p < 8 * BytesPerPatch(|bits|) ensures PatchOf(PackCell(bits), p) == Patch(bits, p) {
      PackedPatch(bits, p);
    }
  }

  /** Packing an unpacked cell gives the bytes back exactly when their tail is zero; the container
      itself checks only the shape. */
  lemma PackOfUnpack(bytes: seq<bv8>, patches: nat)
    requires |bytes| == BytesPerPatch(patches)
    ensures PackCell(UnpackCell(bytes, patches)) == bytes <==> ZeroTail(bytes, patches)
  {
    var bits := UnpackCell(bytes, patches);
    UnpackOfPack(bits);
    if ZeroTail(bytes, patches) {
      forall k | 0 <= k < |bytes| ensures PackCell(bits)[k] == bytes[k] {
        SameByte(bytes, patches, k);
      }
    }
  }

  lemma SameByte(bytes: seq<bv8>, patches: nat, k: nat)
    requires |bytes| == BytesPerPatch(patches) && ZeroTail(bytes, patches) && k < |bytes|
    ensures PackByte(UnpackCell(bytes, patches), k, 8) == bytes[k]
  {
    forall j: nat | j < 8 ensures Bit(PackByte(UnpackCell(bytes, patches), k, 8), j) == Bit(bytes[k], j) {
      SameBit(bytes, patches, k, j);
    }
    BytesAgree(PackByte(UnpackCell(bytes, patches), k, 8), bytes[k]);
  }

  lemma SameBit(bytes: seq<bv8>, patches: nat, k: nat, j: nat)
    requires |bytes| == BytesPerPatch(patches) && ZeroTail(bytes, patches) && k < |bytes| && j < 8
    ensures Bit(PackByte(UnpackCell(bytes, patches), k, 8), j) == Bit(bytes[k], j)
  {
    var bits, p := UnpackCell(bytes, patches), 8 * k + j;
    PackByteBits(bits, k, 8, j);
    assert p / 8 == k && p % 8 == j;
    assert PatchOf(bytes, p) == Bit(bytes[k], j);
    assert p >= patches ==> !PatchOf(bytes, p);
  }

  // ---------------------------------------------------------------- memory

  /** One byte of the packed array. */
  datatype Addr = Addr(r: int, c: int, b: int)

  type Memory = map<Addr, bv8>

  /** One window update of one patch; `values` is relative to the window. */
  datatype Write = Write(patch: nat, r0: int, r1: int, c0: int, c1: int, values: Mask) {
    predicate Shaped() {
      r0 <= r1 && c0 <= c1 && HasShape(values, r1 - r0, c1 - c0)
    }

    predicate Covers(r: int, c: int) {
      r0 <= r < r1 && c0 <= c < c1
    }

    predicate Touches(a: Addr) {
      Covers(a.r, a.c) && a.b == patch / 8
    }

    function ValueAt(r: int, c: int): bool
      requires Shaped() && Covers(r, c)
    {
      values[r - r0][c - c0]
    }
  }

  /** The packed array after one window update. */
  function Apply(m: Memory, w: Write): (n: Memory)
    requires w.Shaped()
    ensures n.Keys == m.Keys
  {
    map a | a in m :: if w.Touches(a) then WithBit(m[a], w.patch % 8, w.ValueAt(a.r, a.c)) else m[a]
  }

  lemma IsApplied(m: Memory, w: Write, n: Memory)
    requires w.Shaped() && m.Keys == n.Keys
    requires forall a | a in m :: n[a] == if w.Touches(a) then WithBit(m[a], w.patch % 8, w.ValueAt(a.r, a.c)) else m[a]
    ensures n == Apply(m, w)
  {
  }

  function ApplyAll(m: Memory, ws: seq<Write>): (n: Memory)
    requires forall k | 0 <= k < |ws| :: ws[k].Shaped()
    ensures n.Keys == m.Keys
  {
    if ws == [] then m else Apply(ApplyAll(m, ws[..|ws| - 1]), ws[|ws| - 1])
  }

  /** Patch p of cell (r, c). */
  predicate PatchAt(m: Memory, r: int, c: int, p: nat)
    requires Addr(r, c, p / 8) in m
  {
    Bit(m[Addr(r, c, p / 8)], p % 8)
  }

  /** The plain cube under the same updates: the last write that covers a cell decides. */
  function CubeAfter(initial: bool, ws: seq<Write>, r: int, c: int, p: nat): bool
    requires forall k | 0 <= k < |ws| :: ws[k].Shaped()
  {
    if ws == [] then initial
    else
      var w := ws[|ws| - 1];
      if w.patch == p && w.Covers(r, c) then w.ValueAt(r, c)
      else CubeAfter(initial, ws[..|ws| - 1], r, c, p)
  }

  lemma ApplyPatch(m: Memory, w: Write, r: int, c: int, p: nat)
    requires w.Shaped() && Addr(r, c, p / 8) in m
    ensures PatchAt(Apply(m, w), r, c, p) == (if w.patch == p && w.Covers(r, c) then w.ValueAt(r, c) else PatchAt(m, r, c, p))
  {
    var a := Addr(r, c, p / 8);
    if w.Touches(a) {
      BitOfWithBit(m[a], w.patch % 8, w.ValueAt(r, c), p % 8);
      assert w.patch % 8 == p % 8 <==> w.patch == p;
    }
  }

  /** Over any sequence of window updates the packed array reads like the plain cube. */
  lemma {:induction false} WritesActOnCube(m: Memory, ws: seq<Write>, r: int, c: int, p: nat)
    requires (forall k | 0 <= k < |ws| :: ws[k].Shaped()) && Addr(r, c, p / 8) in m
    ensures PatchAt(ApplyAll(m, ws), r, c, p) == CubeAfter(PatchAt(m, r, c, p), ws, r, c, p)
  {
    if ws != [] {
      WritesActOnCube(m, ws[..|ws| - 1], r, c, p);
      ApplyPatch(ApplyAll(m, ws[..|ws| - 1]), ws[|ws| - 1], r, c, p);
    }
  }

  /** No update of a real patch ever touches the tail. */
  lemma {:induction false} WritesKeepTail(m: Memory, ws: seq<Write>, patches: nat, r: int, c: int, p: nat)
    requires (forall k | 0 <= k < |ws| :: ws[k].Shaped() && ws[k].patch < patches) && Addr(r, c, p / 8) in m && p >= patches
    ensures PatchAt(ApplyAll(m, ws), r, c, p) == PatchAt(m, r, c, p)
  {
    if ws != [] {
      WritesKeepTail(m, ws[..|ws| - 1], patches, r, c, p);
      ApplyPatch(ApplyAll(m, ws[..|ws| - 1]), ws[|ws| - 1], r, c, p);
    }
  }
}
