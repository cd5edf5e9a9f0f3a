/** Row-major sweeps over a rectangular parameter grid.

    A sweep concatenates one block of entries per grid point (i, j), row
    after row (i) and, within a row, column after column (j). This is the
    order in which the heart geometry generator pushes its vertex data and
    its triangle indices. */
module Grid {

  /** The entries of rows 0 .. rows - 1 of a grid with `cols` columns. */
  function Sweep<T>(f: (nat, nat) -> seq<T>, cols: nat, rows: nat): (s: seq<T>)
  {
    if rows == 0 then [] else Sweep(f, cols, rows - 1) + SweepRow(f, rows - 1, cols)
  }

  /** The entries of the first n grid points of row i. */
  function SweepRow<T>(f: (nat, nat) -> seq<T>, i: nat, n: nat): (s: seq<T>)
  {
    if n == 0 then [] else SweepRow(f, i, n - 1) + f(i, n - 1)
  }

  /** Every grid point contributes exactly w entries. */
  ghost predicate Uniform<T>(f: (nat, nat) -> seq<T>, w: nat)
  {
    forall i: nat, j: nat :: |f(i, j)| == w
  }

  // Arithmetic on block offsets, kept apart so that each fact is proved in a small context.

  lemma MulLe(a: nat, b: nat, c: nat)
    requires a <= b
    ensures c * a <= c * b
  {
  }

  /** Entry k of block j of a row of w-entry blocks lies inside the first n blocks. */
  lemma BlockInside(w: nat, n: nat, j: nat, k: nat)
    requires j < n && k < w
    ensures w * j + k < w * n
  {
    MulLe(j + 1, n, w);
    assert w * (j + 1) == w * j + w;
  }

  /** Grid point (i, j) of a row below row r comes before the first point of row r. */
  lemma PointInside(cols: nat, r: nat, i: nat, j: nat)
    requires i < r && j < cols
    ensures i * cols + j < cols * r
  {
    MulLe(i + 1, r, cols);
    assert cols * (i + 1) == i * cols + cols;
  }

  /** The whole block of grid point (i, j) lies inside the sweep. */
  lemma BlockFits(w: nat, cols: nat, rows: nat, i: nat, j: nat)
    requires i < rows && j < cols
    ensures w * (i * cols + j) + w <= w * (cols * rows)
  {
    PointInside(cols, rows, i, j);
    MulLe(i * cols + j + 1, cols * rows, w);
    assert w * (i * cols + j + 1) == w * (i * cols + j) + w;
  }

  /** The offset of grid point (i, j), split into i whole rows and the rest. */
  lemma OffsetSplit(w: nat, cols: nat, i: nat, j: nat, k: nat)
    ensures w * (i * cols + j) + k == w * (cols * i) + (w * j + k)
  {
  }

  /** One more row adds w * cols entries. */
  lemma RowsGrow(w: nat, cols: nat, r: nat)
    ensures w * (cols * r) + w * cols == w * (cols * (r + 1))
  {
  }

  lemma {:induction false} SweepRowLength<T>(f: (nat, nat) -> seq<T>, w: nat, i: nat, n: nat)
    requires Uniform(f, w)
    ensures |SweepRow(f, i, n)| == w * n
  {
    if n > 0 {
      assert SweepRow(f, i, n) == SweepRow(f, i, n - 1) + f(i, n - 1);
      SweepRowLength(f, w, i, n - 1);
      assert |f(i, n - 1)| == w;
      assert w * (n - 1) + w == w * n;
    }
  }

  lemma {:induction false} SweepLength<T>(f: (nat, nat) -> seq<T>, w: nat, cols: nat, rows: nat)
    requires Uniform(f, w)
    ensures |Sweep(f, cols, rows)| == w * (cols * rows)
  {
    if rows > 0 {
      assert Sweep(f, cols, rows) == Sweep(f, cols, rows - 1) + SweepRow(f, rows - 1, cols);
      SweepLength(f, w, cols, rows - 1);
      SweepRowLength(f, w, rows - 1, cols);
      RowsGrow(w, cols, rows - 1);
    }
  }

  /** Appending the entries of point (i, j) to the sweep so far extends it by one point. */
  lemma {:induction false} SweepRowStep<T>(f: (nat, nat) -> seq<T>, done: seq<T>, i: nat, j: nat, e: seq<T>)
    requires e == f(i, j)
    ensures (done + SweepRow(f, i, j)) + e == done + SweepRow(f, i, j + 1)
  {
    assert SweepRow(f, i, j + 1) == SweepRow(f, i, j) + e;
    assert (done + SweepRow(f, i, j)) + e == done + (SweepRow(f, i, j) + e);
  }

  /** Within row i, the entries of point j follow those of the points before it. */
  lemma {:induction false} SweepRowEntry<T>(f: (nat, nat) -> seq<T>, i: nat, n: nat, j: nat, k: nat)
    requires j < n && k < |f(i, j)|
    ensures |SweepRow(f, i, j)| + k < |SweepRow(f, i, n)|
    ensures SweepRow(f, i, n)[|SweepRow(f, i, j)| + k] == f(i, j)[k]
  {
    var before := SweepRow(f, i, n - 1);
    var last := f(i, n - 1);
    assert SweepRow(f, i, n) == before + last;
    if j < n - 1 {
      SweepRowEntry(f, i, n - 1, j, k);
      var p := |SweepRow(f, i, j)| + k;
      assert (before + last)[p] == before[p];
    } else {
      assert (before + last)[|before| + k] == last[k];
    }
  }

  /** The sweep of the first a rows is a prefix of the sweep of the first b >= a rows. */
  lemma {:induction false} SweepPrefix<T>(f: (nat, nat) -> seq<T>, cols: nat, a: nat, b: nat)
    requires a <= b
    ensures Sweep(f, cols, a) <= Sweep(f, cols, b)
  {
    if a < b {
      SweepPrefix(f, cols, a, b - 1);
      assert Sweep(f, cols, b) == Sweep(f, cols, b - 1) + SweepRow(f, b - 1, cols);
    }
  }

  lemma PrefixAt<T>(a: seq<T>, b: seq<T>, p: nat)
    requires a <= b && p < |a|
    ensures p < |b| && b[p] == a[p]
  {
  }

  lemma AppendAt<T>(a: seq<T>, b: seq<T>, q: nat)
    requires q < |b|
    ensures |a| + q < |a + b| && (a + b)[|a| + q] == b[q]
  {
  }

  /** The entries of point (i, j) follow those of the i earlier rows and of the j
      earlier points of row i. */
  lemma {:induction false} SweepEntry<T>(f: (nat, nat) -> seq<T>, cols: nat, rows: nat, i: nat, j: nat, k: nat)
    requires i < rows && j < cols && k < |f(i, j)|
    ensures |Sweep(f, cols, i)| + |SweepRow(f, i, j)| + k < |Sweep(f, cols, rows)|
    ensures Sweep(f, cols, rows)[|Sweep(f, cols, i)| + |SweepRow(f, i, j)| + k] == f(i, j)[k]
  {
    var before := Sweep(f, cols, i);
    var row := SweepRow(f, i, cols);
    var upto := Sweep(f, cols, i + 1);
    assert upto == before + row;
    SweepRowEntry(f, i, cols, j, k);
    var q := |SweepRow(f, i, j)| + k;
    AppendAt(before, row, q);
    SweepPrefix(f, cols, i + 1, rows);
    PrefixAt(upto, Sweep(f, cols, rows), |before| + q);
  }

  /** Grid point (i, j) occupies positions w*(i*cols + j) .. w*(i*cols + j) + w - 1. */
  lemma {:induction false} SweepAt<T>(f: (nat, nat) -> seq<T>, w: nat, cols: nat, rows: nat, i: nat, j: nat, k: nat)
    requires Uniform(f, w)
    requires i < rows && j < cols && k < w
    ensures |Sweep(f, cols, rows)| == w * (cols * rows)
    ensures w * (i * cols + j) + k < w * (cols * rows)
    ensures Sweep(f, cols, rows)[w * (i * cols + j) + k] == f(i, j)[k]
  {
    SweepLength(f, w, cols, rows);
    SweepLength(f, w, cols, i);
    SweepRowLength(f, w, i, j);
    PointInside(cols, rows, i, j);
    BlockInside(w, cols * rows, i * cols + j, k);
    OffsetSplit(w, cols, i, j, k);
    assert |f(i, j)| == w;
    SweepEntry(f, cols, rows, i, j, k);
  }

  /** The w entries of grid point (i, j) form one contiguous block of the sweep. */
  lemma {:induction false} SweepBlock<T>(f: (nat, nat) -> seq<T>, w: nat, cols: nat, rows: nat, i: nat, j: nat)
    requires Uniform(f, w)
    requires i < rows && j < cols
    ensures w * (i * cols + j) + w <= |Sweep(f, cols, rows)|
    ensures Sweep(f, cols, rows)[w * (i * cols + j)..w * (i * cols + j) + w] == f(i, j)
  {
    var s := Sweep(f, cols, rows);
    var p := w * (i * cols + j);
    SweepLength(f, w, cols, rows);
    BlockFits(w, cols, rows, i, j);
    var block := s[p..p + w];
    forall k | 0 <= k < w
      ensures block[k] == f(i, j)[k]
    {
      SweepAt(f, w, cols, rows, i, j, k);
      assert block[k] == s[p + k];
    }
    assert |f(i, j)| == w;
    assert block == f(i, j);
  }

  /** A value that occurs in a row occurs in the entries of one of its points. */
  lemma {:induction false} SweepRowMemberOf<T>(f: (nat, nat) -> seq<T>, i: nat, n: nat, x: T)
    requires x in SweepRow(f, i, n)
    ensures exists j: nat :: j < n && x in f(i, j)
  {
    assert n != 0;
    var m := n - 1;
    assert SweepRow(f, i, n) == SweepRow(f, i, m) + f(i, m);
    if x in f(i, m) {
      assert m < n && x in f(i, m);
    } else {
      assert x in SweepRow(f, i, m);
      SweepRowMemberOf(f, i, m, x);
      var j: nat :| j < m && x in f(i, j);
      assert j < n && x in f(i, j);
    }
  }

  /** The entries of each point of a row occur in the row. */
  lemma {:induction false} SweepRowMemberFrom<T>(f: (nat, nat) -> seq<T>, i: nat, n: nat, j: nat, x: T)
    requires j < n && x in f(i, j)
    ensures x in SweepRow(f, i, n)
  {
    assert SweepRow(f, i, n) == SweepRow(f, i, n - 1) + f(i, n - 1);
    if j < n - 1 {
      SweepRowMemberFrom(f, i, n - 1, j, x);
      assert x in SweepRow(f, i, n - 1);
    } else {
      assert x in f(i, n - 1);
    }
  }

  /** A value that occurs in a sweep occurs in the entries of one of its points. */
  lemma {:induction false} SweepMemberOf<T>(f: (nat, nat) -> seq<T>, cols: nat, rows: nat, x: T)
    requires x in Sweep(f, cols, rows)
    ensures exists i: nat, j: nat :: i < rows && j < cols && x in f(i, j)
  {
    assert rows != 0;
    var r := rows - 1;
    var before := Sweep(f, cols, r);
    var last := SweepRow(f, r, cols);
    assert Sweep(f, cols, rows) == before + last;
    if x in before {
      SweepMemberOf(f, cols, r, x);
      var i: nat, j: nat :| i < r && j < cols && x in f(i, j);
      assert i < rows && j < cols && x in f(i, j);
    } else {
      assert x in last;
      SweepRowMemberOf(f, r, cols, x);
      var j: nat :| j < cols && x in f(r, j);
      assert r < rows && j < cols && x in f(r, j);
    }
  }

  /** The entries of each point of the grid occur in the sweep. */
  lemma {:induction false} SweepMemberFrom<T>(f: (nat, nat) -> seq<T>, cols: nat, rows: nat,
                                               i: nat, j: nat, x: T)
    requires i < rows && j < cols && x in f(i, j)
    ensures x in Sweep(f, cols, rows)
  {
    var before := Sweep(f, cols, rows - 1);
    var last := SweepRow(f, rows - 1, cols);
    assert Sweep(f, cols, rows) == before + last;
    if i < rows - 1 {
      SweepMemberFrom(f, cols, rows - 1, i, j, x);
      assert x in before;
    } else {
      SweepRowMemberFrom(f, rows - 1, cols, j, x);
      assert x in last;
    }
  }

  /** A value occurs in a sweep exactly when it occurs in the entries of one of its points. */
  lemma {:induction false} SweepMembers<T>(f: (nat, nat) -> seq<T>, cols: nat, rows: nat, x: T)
    ensures x in Sweep(f, cols, rows) <==> exists i: nat, j: nat :: i < rows && j < cols && x in f(i, j)
  {
    if x in Sweep(f, cols, rows) {
      SweepMemberOf(f, cols, rows, x);
    }
    if exists i: nat, j: nat :: i < rows && j < cols && x in f(i, j) {
      var i: nat, j: nat :| i < rows && j < cols && x in f(i, j);
      SweepMemberFrom(f, cols, rows, i, j, x);
    }
  }
}
