/** Row-major (C-order) reshaping, as numpy's `reshape` does it, and its inverse. */
module Grid {

  /** Grid size of the model in both scripts: `nx` columns (longitude), `ny` rows (latitude). */
  const NX: nat := 20
  const NY: nat := 16

  /** Number of fields in the decoded stack: the initial field and the 24 h forecast. */
  const FieldCount: nat := 2

  /** `g` has `rows` rows of `cols` values each. */
  predicate IsGrid<T>(g: seq<seq<T>>, rows: nat, cols: nat) {
    |g| == rows && forall r :: 0 <= r < rows ==> |g[r]| == cols
  }

  /** `s` has shape (fields, rows, cols). */
  predicate IsStack<T>(s: seq<seq<seq<T>>>, fields: nat, rows: nat, cols: nat) {
    |s| == fields && forall t :: 0 <= t < fields ==> IsGrid(s[t], rows, cols)
  }

  /** Position of cell [t][r][c] in the flat sequence of a (_, rows, cols) stack. */
  function CellIndex(t: nat, r: nat, c: nat, rows: nat, cols: nat): nat {
    t * (rows * cols) + r * cols + c
  }

  /** `flat` laid out as `rows` rows of `cols` values: row 0 is the first `cols` values. */
  function Reshape<T>(flat: seq<T>, rows: nat, cols: nat): (g: seq<seq<T>>)
    requires |flat| == rows * cols
    ensures IsGrid(g, rows, cols)
    decreases rows
  {
    if rows == 0 then [] else [flat[..cols]] + Reshape(flat[cols..], rows - 1, cols)
  }

  /** The rows of `g` concatenated in order. */
  function Flatten<T>(g: seq<seq<T>>): seq<T> {
    if g == [] then [] else g[0] + Flatten(g[1..])
  }

  /** `flat` with shape (fields, rows, cols) in C order: `flat.reshape(fields, rows, cols)`. */
  function Reshape3<T>(flat: seq<T>, fields: nat, rows: nat, cols: nat): (s: seq<seq<seq<T>>>)
    requires |flat| == fields * (rows * cols)
    ensures IsStack(s, fields, rows, cols)
  {
    var blocks := Reshape(flat, fields, rows * cols);
    seq(fields, t requires 0 <= t < fields => Reshape(blocks[t], rows, cols))
  }

  /** The fields of `s`, each flattened, concatenated in order. */
  function Flatten3<T>(s: seq<seq<seq<T>>>): seq<T> {
    Flatten(seq(|s|, t requires 0 <= t < |s| => Flatten(s[t])))
  }

  lemma {:induction false} MulMono(a: nat, b: nat, c: nat)
    requires a <= b
    ensures a * c <= b * c
    decreases b - a
  {
    if a < b {
      MulMono(a + 1, b, c);
      assert (a + 1) * c == a * c + c;
    }
  }

  lemma MulLeft(a: nat, b: nat, c: nat)
    ensures a < b ==> a * c + c <= b * c
  {
    if a < b {
      MulMono(a + 1, b, c);
      assert (a + 1) * c == a * c + c;
    }
  }

  /** Cell [r][c] of the reshaped grid is value r*cols + c of the flat sequence. */
  lemma {:induction false} ReshapeCell<T>(flat: seq<T>, rows: nat, cols: nat, r: nat, c: nat)
    requires |flat| == rows * cols && r < rows && c < cols
    ensures r * cols + c < |flat|
    ensures Reshape(flat, rows, cols)[r][c] == flat[r * cols + c]
    decreases rows
  {
    MulLeft(r, rows, cols);
    if r > 0 {
      assert (rows - 1) * cols == rows * cols - cols && (r - 1) * cols == r * cols - cols;
      ReshapeCell(flat[cols..], rows - 1, cols, r - 1, c);
      assert Reshape(flat, rows, cols)[r] == Reshape(flat[cols..], rows - 1, cols)[r - 1];
    }
  }

  /** A grid of `rows` rows of `cols` values flattens to rows*cols values. */
  lemma {:induction false} FlattenLength<T>(g: seq<seq<T>>, rows: nat, cols: nat)
    requires IsGrid(g, rows, cols)
    ensures |Flatten(g)| == rows * cols
    decreases rows
  {
    if rows > 0 {
      FlattenLength(g[1..], rows - 1, cols);
    }
  }

  /** Reshaping loses nothing: flattening the grid gives back the flat sequence. */
  lemma {:induction false} FlattenReshape<T>(flat: seq<T>, rows: nat, cols: nat)
    requires |flat| == rows * cols
    ensures Flatten(Reshape(flat, rows, cols)) == flat
    decreases rows
  {
    if rows > 0 {
      FlattenReshape(flat[cols..], rows - 1, cols);
      assert flat == flat[..cols] + flat[cols..];
    }
  }

  /** Reshaping a flattened grid gives back the grid. */
  lemma {:induction false} ReshapeFlatten<T>(g: seq<seq<T>>, rows: nat, cols: nat)
    requires IsGrid(g, rows, cols)
    ensures |Flatten(g)| == rows * cols
    ensures Reshape(Flatten(g), rows, cols) == g
    decreases rows
  {
    FlattenLength(g, rows, cols);
    if rows > 0 {
      ReshapeFlatten(g[1..], rows - 1, cols);
      var f := Flatten(g);
      assert f == g[0] + Flatten(g[1..]);
      assert f[..cols] == g[0] && f[cols..] == Flatten(g[1..]);
      assert g == [g[0]] + g[1..];
    }
  }

  /** Cell [t][r][c] of the reshaped stack is value CellIndex(t, r, c) of the flat sequence. */
  lemma Reshape3Cell<T>(flat: seq<T>, fields: nat, rows: nat, cols: nat, t: nat, r: nat, c: nat)
    requires |flat| == fields * (rows * cols) && t < fields && r < rows && c < cols
    ensures CellIndex(t, r, c, rows, cols) < |flat|
    ensures Reshape3(flat, fields, rows, cols)[t][r][c] == flat[CellIndex(t, r, c, rows, cols)]
  {
    var n := rows * cols;
    var blocks := Reshape(flat, fields, n);
    MulLeft(r, rows, cols);
    ReshapeCell(flat, fields, n, t, r * cols + c);
    ReshapeCell(blocks[t], rows, cols, r, c);
    assert blocks[t][r * cols + c] == flat[t * n + (r * cols + c)];
  }

  /** The stack reshape loses nothing: flattening it gives back the flat sequence. */
  lemma Flatten3Reshape3<T>(flat: seq<T>, fields: nat, rows: nat, cols: nat)
    requires |flat| == fields * (rows * cols)
    ensures Flatten3(Reshape3(flat, fields, rows, cols)) == flat
  {
    var s := Reshape3(flat, fields, rows, cols);
    var blocks := Reshape(flat, fields, rows * cols);
    forall t | 0 <= t < fields
      ensures Flatten(s[t]) == blocks[t]
    {
      FlattenReshape(blocks[t], rows, cols);
    }
    assert seq(|s|, t requires 0 <= t < |s| => Flatten(s[t])) == blocks;
    FlattenReshape(flat, fields, rows * cols);
  }

  /** Reshaping a flattened stack gives back the stack. */
  lemma Reshape3Flatten3<T>(s: seq<seq<seq<T>>>, fields: nat, rows: nat, cols: nat)
    requires IsStack(s, fields, rows, cols)
    ensures |Flatten3(s)| == fields * (rows * cols)
    ensures Reshape3(Flatten3(s), fields, rows, cols) == s
  {
    var fs := seq(|s|, t requires 0 <= t < |s| => Flatten(s[t]));
    forall t | 0 <= t < fields
      ensures |fs[t]| == rows * cols && Reshape(fs[t], rows, cols) == s[t]
    {
      ReshapeFlatten(s[t], rows, cols);
    }
    assert IsGrid(fs, fields, rows * cols);
    ReshapeFlatten(fs, fields, rows * cols);
  }

  /** Quotient and remainder are unique. */
  lemma DivModUnique(q1: nat, x1: nat, q2: nat, x2: nat, d: nat)
    requires x1 < d && x2 < d && q1 * d + x1 == q2 * d + x2
    ensures q1 == q2 && x1 == x2
  {
    MulLeft(q1, q2, d);
    MulLeft(q2, q1, d);
  }

  /** Distinct cells of a stack sit at distinct flat positions. */
  lemma CellIndexInjective(t1: nat, r1: nat, c1: nat, t2: nat, r2: nat, c2: nat, rows: nat, cols: nat)
    requires r1 < rows && c1 < cols && r2 < rows && c2 < cols
    requires CellIndex(t1, r1, c1, rows, cols) == CellIndex(t2, r2, c2, rows, cols)
    ensures t1 == t2 && r1 == r2 && c1 == c2
  {
    var x1, x2 := r1 * cols + c1, r2 * cols + c2;
    MulLeft(r1, rows, cols);
    MulLeft(r2, rows, cols);
    DivModUnique(t1, x1, t2, x2, rows * cols);
    DivModUnique(r1, c1, r2, c2, cols);
  }

  /** The cell a flat position lands in: every position of a (fields, rows, cols)
      stack belongs to exactly one cell. */
  function CellOf(k: nat, fields: nat, rows: nat, cols: nat): (cell: (nat, nat, nat))
    requires k < fields * (rows * cols)
    ensures cell.0 < fields && cell.1 < rows && cell.2 < cols
    ensures CellIndex(cell.0, cell.1, cell.2, rows, cols) == k
  {
    var n := rows * cols;
    assert n > 0 && cols > 0;
    var t, m := k / n, k % n;
    assert k == t * n + m && m < n;
    assert t < fields by {
      if t >= fields {
        MulMono(fields, t, n);
      }
    }
    var r, c := m / cols, m % cols;
    assert m == r * cols + c && c < cols;
    assert r < rows by {
      if r >= rows {
        MulMono(rows, r, cols);
      }
    }
    (t, r, c)
  }
}
