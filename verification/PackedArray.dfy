/** The packed array object with its in-place window update (solweig_core/bitplanes.py,
    `pack_bits`, `unpack_bits`, `set_patch_window`). */
module PackedArray {
  import opened Planes
  import opened PackedBits

  datatype PackError = NotBinary | NoPatches

  datatype WriteResult = Written | PatchOutOfRange | WindowOutOfRange | WrongShape | ValuesNotBinary

  predicate AllBinary(xs: seq<real>) {
    forall k | 0 <= k < |xs| :: Binary(xs[k])
  }

  function Ones(xs: seq<real>): (r: seq<bool>)
    ensures |r| == |xs| && forall k | 0 <= k < |xs| :: r[k] == (xs[k] == 1.0)
  {
    seq(|xs|, k requires 0 <= k < |xs| => xs[k] == 1.0)
  }

  function OnesMask(xs: Plane): (m: Mask)
    ensures |m| == |xs| && forall i | 0 <= i < |xs| :: m[i] == Ones(xs[i])
  {
    seq(|xs|, i requires 0 <= i < |xs| => Ones(xs[i]))
  }

  type Cube = seq<seq<seq<real>>>

  predicate CubeShape(dense: Cube, rows: nat, cols: nat, patches: nat) {
    HasShape(dense, rows, cols) && forall r, c | 0 <= r < rows && 0 <= c < cols :: |dense[r][c]| == patches
  }

  class Packed {
    const patchCount: nat
    const data: array3<bv8>

    constructor (patchCount: nat, data: array3<bv8>)
      ensures this.patchCount == patchCount && this.data == data
    {
      this.patchCount := patchCount;
      this.data := data;
    }

    predicate Valid() {
      patchCount > 0 && data.Length2 == BytesPerPatch(patchCount)
    }

    ghost function Snapshot(): Memory
      reads data
    {
      map r, c, b | 0 <= r < data.Length0 && 0 <= c < data.Length1 && 0 <= b < data.Length2 :: Addr(r, c, b) := data[r, c, b]
    }

    function CellBytes(r: nat, c: nat): (bytes: seq<bv8>)
      requires r < data.Length0 && c < data.Length1
      reads data
      ensures |bytes| == data.Length2 && forall b | 0 <= b < |bytes| :: bytes[b] == data[r, c, b]
    {
      seq(data.Length2, b requires 0 <= b < data.Length2 reads data => data[r, c, b])
    }

    /** The plain cube, cell by cell. */
    method Unpack() returns (cube: seq<seq<seq<bool>>>)
      requires Valid()
      ensures HasShape(cube, data.Length0, data.Length1)
      ensures forall r, c | 0 <= r < data.Length0 && 0 <= c < data.Length1 ::
                cube[r][c] == UnpackCell(CellBytes(r, c), patchCount)
    {
      cube := [];
      for r := 0 to data.Length0
        invariant HasShape(cube, r, data.Length1)
        invariant forall i, c | 0 <= i < r && 0 <= c < data.Length1 :: cube[i][c] == UnpackCell(CellBytes(i, c), patchCount)
      {
        var row := seq(data.Length1, c requires 0 <= c < data.Length1 reads data => UnpackCell(CellBytes(r, c), patchCount));
        cube := cube + [row];
      }
    }

    /** Set one patch over a window, refusing before anything is written. */
    method SetPatchWindow(patch: int, r0: int, r1: int, c0: int, c1: int, values: Plane) returns (result: WriteResult)
      requires Valid()
      modifies data
      ensures result.PatchOutOfRange? <==> !(0 <= patch < patchCount)
      ensures result.WindowOutOfRange? <==>
                0 <= patch < patchCount && !(0 <= r0 < r1 <= data.Length0 && 0 <= c0 < c1 <= data.Length1)
      ensures result.WrongShape? <==>
                && 0 <= patch < patchCount && 0 <= r0 < r1 <= data.Length0 && 0 <= c0 < c1 <= data.Length1
                && !HasShape(values, r1 - r0, c1 - c0)
      ensures result.ValuesNotBinary? ==> exists i :: 0 <= i < |values| && !AllBinary(values[i])
      ensures !result.Written? ==> Snapshot() == old(Snapshot())
      ensures result.Written? ==>
                && 0 <= patch < patchCount && 0 <= r0 < r1 <= data.Length0 && 0 <= c0 < c1 <= data.Length1
                && HasShape(values, r1 - r0, c1 - c0) && (forall i | 0 <= i < |values| :: AllBinary(values[i]))
      ensures result.Written? ==>
                var w := Write(patch, r0, r1, c0, c1, OnesMask(values));
                w.Shaped() && Snapshot() == Apply(old(Snapshot()), w)
    {
      if !(0 <= patch < patchCount) {
        return PatchOutOfRange;
      }
      if !(0 <= r0 < r1 <= data.Length0 && 0 <= c0 < c1 <= data.Length1) {
        return WindowOutOfRange;
      }
      if !HasShape(values, r1 - r0, c1 - c0) {
        return WrongShape;
      }
      if exists i | 0 <= i < |values| :: !AllBinary(values[i]) {
        return ValuesNotBinary;
      }
      var w := Write(patch, r0, r1, c0, c1, OnesMask(values));
      Overwrite(w);
      result := Written;
    }

    /** The two read-modify-write passes over the window. */
    method Overwrite(w: Write)
      requires Valid() && w.Shaped() && w.patch < patchCount
      requires 0 <= w.r0 && w.r1 <= data.Length0 && 0 <= w.c0 && w.c1 <= data.Length1
      modifies data
      ensures Snapshot() == Apply(old(Snapshot()), w)
    {
      var byte, bit := w.patch / 8, w.patch % 8;
      forall r, c | w.r0 <= r < w.r1 && w.c0 <= c < w.c1 {
        data[r, c, byte] := Clear(data[r, c, byte], bit);
      }
      forall r, c | w.r0 <= r < w.r1 && w.c0 <= c < w.c1 {
        data[r, c, byte] := data[r, c, byte] | (if w.ValueAt(r, c) then Flag(bit) else 0);
      }
      forall r, c, b | 0 <= r < data.Length0 && 0 <= c < data.Length1 && 0 <= b < data.Length2
        ensures data[r, c, b] == (if w.Touches(Addr(r, c, b)) then WithBit(old(data[r, c, b]), bit, w.ValueAt(r, c)) else old(data[r, c, b]))
      {
      }
      IsApplied(old(Snapshot()), w, Snapshot());
    }
  }

  /** Pack a cube, refusing any value other than 0 and 1 and a cube without patches. */
  method Pack(dense: Cube, rows: nat, cols: nat, patches: nat) returns (r: Result<Packed, PackError>)
    requires CubeShape(dense, rows, cols, patches)
    ensures r.Err? && r.error.NotBinary? <==> exists i, j | 0 <= i < rows && 0 <= j < cols :: !AllBinary(dense[i][j])
    ensures r.Err? && r.error.NoPatches? ==> patches == 0
    ensures r.Ok? ==> patches > 0 && fresh(r.value.data) && r.value.Valid() && r.value.patchCount == patches
    ensures r.Ok? ==> r.value.data.Length0 == rows && r.value.data.Length1 == cols
    ensures r.Ok? ==> forall i, j | 0 <= i < rows && 0 <= j < cols :: r.value.CellBytes(i, j) == PackCell(Ones(dense[i][j]))
  {
    if exists i, j | 0 <= i < rows && 0 <= j < cols :: !AllBinary(dense[i][j]) {
      return Err(NotBinary);
    }
    if patches == 0 {
      return Err(NoPatches);
    }
    var data := new bv8[rows, cols, BytesPerPatch(patches)](
      (i, j, b) requires 0 <= i < rows && 0 <= j < cols && 0 <= b < BytesPerPatch(patches) => PackByte(Ones(dense[i][j]), b, 8));
    var packed := new Packed(patches, data);
    forall i, j | 0 <= i < rows && 0 <= j < cols ensures packed.CellBytes(i, j) == PackCell(Ones(dense[i][j])) {
      assert forall b | 0 <= b < BytesPerPatch(patches) :: packed.CellBytes(i, j)[b] == PackCell(Ones(dense[i][j]))[b];
    }
    r := Ok(packed);
  }

  /** The container admits a stray tail: one cell of one patch with bit 1 set is valid, and packing
      what it unpacks to does not give its byte back. */
  method StrayTail() returns (p: Packed)
    ensures fresh(p.data) && p.Valid() && p.patchCount == 1 && p.data.Length0 == p.data.Length1 == 1
    ensures !ZeroTail(p.CellBytes(0, 0), 1) && PackCell(UnpackCell(p.CellBytes(0, 0), 1)) != p.CellBytes(0, 0)
  {
    var data := new bv8[1, 1, 1]((_, _, _) => 2);
    p := new Packed(1, data);
    var bytes := p.CellBytes(0, 0);
    assert bytes[0] == 2 && PatchOf(bytes, 1);
    PackOfUnpack(bytes, 1);
  }
}
