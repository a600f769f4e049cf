/** Rectangular planes of heights, the grid every march works on. */
module Planes {

  type Plane = seq<seq<real>>
  type Mask = seq<seq<bool>>

  datatype Result<+T, +E> = Ok(value: T) | Err(error: E)

  datatype Option<+T> = None | Some(value: T)

  predicate Binary(x: real) {
    x == 0.0 || x == 1.0
  }

  predicate HasShape<T>(p: seq<seq<T>>, rows: nat, cols: nat) {
    |p| == rows && forall i | 0 <= i < rows :: |p[i]| == cols
  }

  /** The mask an array holds. */
  function MaskOf(a: array2<bool>): (m: Mask)
    reads a
    ensures HasShape(m, a.Length0, a.Length1)
    ensures forall i, j | 0 <= i < a.Length0 && 0 <= j < a.Length1 :: m[i][j] == a[i, j]
  {
    seq(a.Length0, i requires 0 <= i < a.Length0 reads a => seq(a.Length1, j requires 0 <= j < a.Length1 reads a => a[i, j]))
  }

  predicate InGrid(rows: nat, cols: nat, i: int, j: int) {
    0 <= i < rows && 0 <= j < cols
  }

  function Max(x: real, y: real): real {
    if x < y then y else x
  }

  function Min(x: real, y: real): real {
    if y < x then y else x
  }

  /** The 0/1 value a boolean tensor takes under a float cast. */
  function AsReal(b: bool): real {
    if b then 1.0 else 0.0
  }

  function Abs(x: int): nat {
    if x < 0 then -x else x
  }

  function RowMax(row: seq<real>): (m: real)
    requires |row| > 0
    ensures m in row
    ensures forall j | 0 <= j < |row| :: row[j] <= m
  {
    if |row| == 1 then row[0] else Max(row[0], RowMax(row[1..]))
  }

  function PlaneMax(p: Plane, rows: nat, cols: nat): (m: real)
    requires HasShape(p, rows, cols) && rows > 0 && cols > 0
    ensures exists i, j :: InGrid(rows, cols, i, j) && p[i][j] == m
    ensures forall i, j | InGrid(rows, cols, i, j) :: p[i][j] <= m
    decreases rows
  {
    var head := RowMax(p[0]);
    assert exists j :: InGrid(rows, cols, 0, j) && p[0][j] == head by {
      var j :| 0 <= j < |p[0]| && p[0][j] == head;
      assert InGrid(rows, cols, 0, j);
    }
    if rows == 1 then head
    else
      var rest := PlaneMax(p[1..], rows - 1, cols);
      assert exists i, j :: InGrid(rows, cols, i, j) && p[i][j] == rest by {
        var i, j :| InGrid(rows - 1, cols, i, j) && p[1..][i][j] == rest;
        assert InGrid(rows, cols, i + 1, j) && p[i + 1][j] == rest;
      }
      assert forall i, j | InGrid(rows, cols, i, j) && i > 0 :: p[i][j] <= rest by {
        forall i, j | InGrid(rows, cols, i, j) && i > 0 ensures p[i][j] <= rest {
          assert InGrid(rows - 1, cols, i - 1, j) && p[1..][i - 1][j] == p[i][j];
        }
      }
      Max(head, rest)
  }

  function Added(p: Plane, q: Plane, rows: nat, cols: nat): (r: Plane)
    requires HasShape(p, rows, cols) && HasShape(q, rows, cols)
    ensures HasShape(r, rows, cols)
    ensures forall i, j | 0 <= i < rows && 0 <= j < cols :: r[i][j] == p[i][j] + q[i][j]
  {
    seq(rows, i requires 0 <= i < rows => seq(cols, j requires 0 <= j < cols => p[i][j] + q[i][j]))
  }

  function Negated(p: Plane, rows: nat, cols: nat): (n: Plane)
    requires HasShape(p, rows, cols)
    ensures HasShape(n, rows, cols)
    ensures forall i, j | InGrid(rows, cols, i, j) :: n[i][j] == -p[i][j]
  {
    seq(rows, i requires 0 <= i < rows => seq(cols, j requires 0 <= j < cols => -p[i][j]))
  }

  function PlaneMin(p: Plane, rows: nat, cols: nat): (m: real)
    requires HasShape(p, rows, cols) && rows > 0 && cols > 0
    ensures exists i, j :: InGrid(rows, cols, i, j) && p[i][j] == m
    ensures forall i, j | InGrid(rows, cols, i, j) :: m <= p[i][j]
  {
    var n := Negated(p, rows, cols);
    assert forall i, j | InGrid(rows, cols, i, j) :: n[i][j] == -p[i][j];
    var m := PlaneMax(n, rows, cols);
    assert exists i, j :: InGrid(rows, cols, i, j) && p[i][j] == -m by {
      var i, j :| InGrid(rows, cols, i, j) && n[i][j] == m;
      assert p[i][j] == -m;
    }
    -m
  }
}
