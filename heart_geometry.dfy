/** The triangulated heart surface built once at scene setup.

    The generator samples a parametric surface on a (vSegments + 1) x
    (uSegments + 1) grid of (u, v) parameters, pushes one position, one
    normal and one texture coordinate per grid point in row-major order,
    and then covers each of the vSegments x uSegments grid cells with two
    triangles. The heart-curve formulas that give a point its position and
    its normal are floating-point trigonometry; here they are the
    parameters `position` and `normal`, functions of (u, v). */
module HeartGeometry {
  import opened Grid

  /** A point or direction in space. */
  datatype Vec3 = Vec3(x: real, y: real, z: real)

  /** The buffers handed to the rendering engine: the index buffer (three
      entries per triangle), positions and normals (three entries per
      vertex) and texture coordinates (two entries per vertex). */
  datatype BufferGeometry = BufferGeometry(index: seq<int>, position: seq<real>,
                                             normal: seq<real>, uv: seq<real>)

  /** The subdivision counts the scene uses. */
  const U_SEGMENTS: nat := 64
  const V_SEGMENTS: nat := 32

  /** Number of grid points, hence of vertices. */
  function VertexCount(uSegments: nat, vSegments: nat): (count: nat)
  {
    (uSegments + 1) * (vSegments + 1)
  }

  /** Row-major number of the vertex at grid row i, column j. */
  function VertexIndex(uSegments: nat, i: nat, j: nat): (n: nat)
  {
    i * (uSegments + 1) + j
  }

  /** Grid row of a vertex number. */
  function VertexRow(uSegments: nat, n: nat): (i: nat)
  {
    n / (uSegments + 1)
  }

  /** Grid column of a vertex number. */
  function VertexColumn(uSegments: nat, n: nat): (j: nat)
  {
    n % (uSegments + 1)
  }

  /** The six indices of cell (i, j): triangle (lower-left, next row, next
      column) and triangle (next row, diagonal corner, next column). */
  function Cell(uSegments: nat, i: nat, j: nat): (cell: seq<int>)
  {
    [VertexIndex(uSegments, i, j), VertexIndex(uSegments, i + 1, j), VertexIndex(uSegments, i, j + 1),
     VertexIndex(uSegments, i + 1, j), VertexIndex(uSegments, i + 1, j + 1), VertexIndex(uSegments, i, j + 1)]
  }

  function CellAt(uSegments: nat): (cells: (nat, nat) -> seq<int>)
  {
    (i: nat, j: nat) => Cell(uSegments, i, j)
  }

  /** The index buffer the generator is meant to produce: the cells in row-major order. */
  function Indices(uSegments: nat, vSegments: nat): (s: seq<int>)
  {
    Sweep(CellAt(uSegments), uSegments, vSegments)
  }

  /** Surface parameter u of grid column j. */
  function ParamU(uSegments: nat, j: nat): (u: real)
    requires uSegments >= 1
  {
    j as real / uSegments as real
  }

  /** Surface parameter v of grid row i. */
  function ParamV(vSegments: nat, i: nat): (v: real)
    requires vSegments >= 1
  {
    i as real / vSegments as real
  }

  function Components(p: Vec3): (c: seq<real>)
  {
    [p.x, p.y, p.z]
  }

  /** The three buffer entries of a vector field sampled at grid point (i, j). */
  function Sample(field: (real, real) -> Vec3, uSegments: nat, vSegments: nat): (samples: (nat, nat) -> seq<real>)
    requires uSegments >= 1 && vSegments >= 1
  {
    (i: nat, j: nat) => Components(field(ParamU(uSegments, j), ParamV(vSegments, i)))
  }

  /** The two buffer entries of the texture coordinate of grid point (i, j). */
  function UvAt(uSegments: nat, vSegments: nat): (uvs: (nat, nat) -> seq<real>)
    requires uSegments >= 1 && vSegments >= 1
  {
    (i: nat, j: nat) => [ParamU(uSegments, j), ParamV(vSegments, i)]
  }

  /** No triangle of a flat index buffer repeats a vertex. */
  ghost predicate NonDegenerate(s: seq<int>)
  {
    forall t :: 0 <= t < |s| / 3 ==> DistinctCorners(s, t)
  }

  /** Triangle t of a flat index buffer has three distinct corners. */
  ghost predicate DistinctCorners(s: seq<int>, t: int)
    requires 0 <= t < |s| / 3
  {
    s[3 * t] != s[3 * t + 1] && s[3 * t + 1] != s[3 * t + 2] && s[3 * t] != s[3 * t + 2]
  }

  /** Builds the buffers for a uSegments x vSegments grid: the vertex pass,
      then the triangle pass. */
  method CreateSurfaceGeometry(uSegments: nat, vSegments: nat,
                               position: (real, real) -> Vec3, normal: (real, real) -> Vec3)
    returns (g: BufferGeometry)
    requires uSegments >= 1 && vSegments >= 1
    ensures g.index == Indices(uSegments, vSegments)
    ensures g.position == Sweep(Sample(position, uSegments, vSegments), uSegments + 1, vSegments + 1)
    ensures g.normal == Sweep(Sample(normal, uSegments, vSegments), uSegments + 1, vSegments + 1)
    ensures g.uv == Sweep(UvAt(uSegments, vSegments), uSegments + 1, vSegments + 1)
    ensures |g.index| == 6 * (uSegments * vSegments)
    ensures |g.position| == |g.normal| == 3 * VertexCount(uSegments, vSegments)
    ensures |g.uv| == 2 * VertexCount(uSegments, vSegments)
    ensures forall n :: n in g.index ==> 0 <= n < VertexCount(uSegments, vSegments)
    ensures NonDegenerate(g.index)
  {
    var vertices, normals, uvs := PushVertices(uSegments, vSegments, position, normal);
    var indices := PushIndices(uSegments, vSegments);
    g := BufferGeometry(indices, vertices, normals, uvs);
  }

  /** The vertex pass: one position, normal and texture coordinate per grid
      point, row after row. */
  method PushVertices(uSegments: nat, vSegments: nat,
                      position: (real, real) -> Vec3, normal: (real, real) -> Vec3)
    returns (vertices: seq<real>, normals: seq<real>, uvs: seq<real>)
    requires uSegments >= 1 && vSegments >= 1
    ensures vertices == Sweep(Sample(position, uSegments, vSegments), uSegments + 1, vSegments + 1)
    ensures normals == Sweep(Sample(normal, uSegments, vSegments), uSegments + 1, vSegments + 1)
    ensures uvs == Sweep(UvAt(uSegments, vSegments), uSegments + 1, vSegments + 1)
    ensures |vertices| == |normals| == 3 * VertexCount(uSegments, vSegments)
    ensures |uvs| == 2 * VertexCount(uSegments, vSegments)
  {
    vertices, normals, uvs := [], [], [];
    ghost var cols := uSegments + 1;
    ghost var positionAt := Sample(position, uSegments, vSegments);
    ghost var normalAt := Sample(normal, uSegments, vSegments);
    ghost var uvAt := UvAt(uSegments, vSegments);
    for i := 0 to vSegments + 1
      invariant vertices == Sweep(positionAt, cols, i)
      invariant normals == Sweep(normalAt, cols, i)
      invariant uvs == Sweep(uvAt, cols, i)
    {
      var v := ParamV(vSegments, i);
      ghost var verticesBefore, normalsBefore, uvsBefore := vertices, normals, uvs;
      for j := 0 to uSegments + 1
        invariant vertices == verticesBefore + SweepRow(positionAt, i, j)
        invariant normals == normalsBefore + SweepRow(normalAt, i, j)
        invariant uvs == uvsBefore + SweepRow(uvAt, i, j)
      {
        var u := ParamU(uSegments, j);
        SampleAt(position, uSegments, vSegments, i, j);
        SampleAt(normal, uSegments, vSegments, i, j);
        var p := position(u, v);
        SweepRowStep(positionAt, verticesBefore, i, j, [p.x, p.y, p.z]);
        vertices := vertices + [p.x, p.y, p.z];
        var nv := normal(u, v);
        SweepRowStep(normalAt, normalsBefore, i, j, [nv.x, nv.y, nv.z]);
        normals := normals + [nv.x, nv.y, nv.z];
        SweepRowStep(uvAt, uvsBefore, i, j, [u, v]);
        uvs := uvs + [u, v];
      }
      assert Sweep(positionAt, cols, i + 1) == verticesBefore + SweepRow(positionAt, i, cols);
      assert Sweep(normalAt, cols, i + 1) == normalsBefore + SweepRow(normalAt, i, cols);
      assert Sweep(uvAt, cols, i + 1) == uvsBefore + SweepRow(uvAt, i, cols);
    }
    assert |vertices| == |normals| == 3 * VertexCount(uSegments, vSegments)
      && |uvs| == 2 * VertexCount(uSegments, vSegments) by {
      VertexBufferLengths(position, normal, uSegments, vSegments);
    }
  }

  /** The triangle pass: two triangles (a, b, c) and (b, d, c) per cell, row after row. */
  method PushIndices(uSegments: nat, vSegments: nat) returns (indices: seq<int>)
    ensures indices == Indices(uSegments, vSegments)
    ensures |indices| == 6 * (uSegments * vSegments)
    ensures forall n :: n in indices ==> 0 <= n < VertexCount(uSegments, vSegments)
    ensures NonDegenerate(indices)
  {
    indices := [];
    for i := 0 to vSegments
      invariant indices == Indices(uSegments, i)
    {
      ghost var before := indices;
      for j := 0 to uSegments
        invariant indices == before + SweepRow(CellAt(uSegments), i, j)
      {
        var a := i * (uSegments + 1) + j;
        var b := a + uSegments + 1;
        var c := a + 1;
        var d := b + 1;
        CellStep(uSegments, before, indices, i, j, a, b, c, d);
        indices := indices + [a, b, c];
        indices := indices + [b, d, c];
      }
      assert Indices(uSegments, i + 1) == before + SweepRow(CellAt(uSegments), i, uSegments);
    }
    assert |indices| == 6 * (uSegments * vSegments) by {
      IndexCount(uSegments, vSegments);
    }
    assert forall n :: n in indices ==> 0 <= n < VertexCount(uSegments, vSegments) by {
      IndicesInRange(uSegments, vSegments);
    }
    assert NonDegenerate(indices) by {
      TrianglesNonDegenerate(uSegments, vSegments);
    }
  }

  /** The heart geometry of the scene, with its 64 x 32 subdivision. */
  method CreateHeartGeometry(position: (real, real) -> Vec3, normal: (real, real) -> Vec3)
    returns (g: BufferGeometry)
    ensures g.index == Indices(U_SEGMENTS, V_SEGMENTS)
    ensures g.position == Sweep(Sample(position, U_SEGMENTS, V_SEGMENTS), U_SEGMENTS + 1, V_SEGMENTS + 1)
    ensures g.normal == Sweep(Sample(normal, U_SEGMENTS, V_SEGMENTS), U_SEGMENTS + 1, V_SEGMENTS + 1)
    ensures g.uv == Sweep(UvAt(U_SEGMENTS, V_SEGMENTS), U_SEGMENTS + 1, V_SEGMENTS + 1)
    ensures VertexCount(U_SEGMENTS, V_SEGMENTS) == 2145
    ensures |g.index| == 12288
    ensures |g.position| == |g.normal| == 3 * 2145 && |g.uv| == 2 * 2145
    ensures forall n :: n in g.index ==> 0 <= n < 2145
    ensures forall n :: 0 <= n < 2145 ==> n in g.index
    ensures NonDegenerate(g.index)
  {
    g := CreateSurfaceGeometry(U_SEGMENTS, V_SEGMENTS, position, normal);
    AllVerticesReferenced(U_SEGMENTS, V_SEGMENTS);
  }

  /** The generator reads nothing but its arguments: two runs agree. */
  method RebuildAgrees(uSegments: nat, vSegments: nat,
                       position: (real, real) -> Vec3, normal: (real, real) -> Vec3)
    returns (first: BufferGeometry, second: BufferGeometry)
    requires uSegments >= 1 && vSegments >= 1
    ensures first == second
  {
    first := CreateSurfaceGeometry(uSegments, vSegments, position, normal);
    second := CreateSurfaceGeometry(uSegments, vSegments, position, normal);
  }

  // ---------------------------------------------------------------------
  // Vertex numbering

  /** Row-major numbering and (row, column) decoding are inverse to each
      other: a bijection between the grid points and 0 .. VertexCount - 1. */
  lemma {:induction false} VertexNumbering(uSegments: nat, vSegments: nat, i: nat, j: nat)
    requires i <= vSegments && j <= uSegments
    ensures VertexIndex(uSegments, i, j) < VertexCount(uSegments, vSegments)
    ensures VertexRow(uSegments, VertexIndex(uSegments, i, j)) == i
    ensures VertexColumn(uSegments, VertexIndex(uSegments, i, j)) == j
  {
    var m := uSegments + 1;
    var n := i * m + j;
    MulLe(i, vSegments, m);
    assert n < (vSegments + 1) * m;
    var q, r := n / m, n % m;
    assert n == q * m + r;
    if q > i {
      MulLe(i + 1, q, m);
      assert false;
    } else if q < i {
      MulLe(q + 1, i, m);
      assert false;
    }
  }

  lemma {:induction false} VertexDecoding(uSegments: nat, vSegments: nat, n: nat)
    requires n < VertexCount(uSegments, vSegments)
    ensures VertexRow(uSegments, n) <= vSegments && VertexColumn(uSegments, n) <= uSegments
    ensures VertexIndex(uSegments, VertexRow(uSegments, n), VertexColumn(uSegments, n)) == n
  {
    var m := uSegments + 1;
    var q := n / m;
    assert n == q * m + n % m;
    if q > vSegments {
      assert false;
    }
  }

  // ---------------------------------------------------------------------
  // Cells

  lemma {:induction false} CellsUniform(uSegments: nat)
    ensures Uniform(CellAt(uSegments), 6)
  {
  }

  /** Cell (i, j) occupies index positions 6*(i*uSegments + j) .. +5 and holds a, b, c, b, d, c. */
  lemma {:induction false} CellLayout(uSegments: nat, vSegments: nat, i: nat, j: nat)
    requires i < vSegments && j < uSegments
    ensures 6 * (i * uSegments + j) + 6 <= |Indices(uSegments, vSegments)|
    ensures var p := 6 * (i * uSegments + j);
            var a := i * (uSegments + 1) + j;
            var b := a + uSegments + 1;
            var c := a + 1;
            var d := b + 1;
            Indices(uSegments, vSegments)[p..p + 6] == [a, b, c, b, d, c]
  {
    CellsUniform(uSegments);
    SweepBlock(CellAt(uSegments), 6, uSegments, vSegments, i, j);
  }

  /** Every entry of a cell names a vertex of the grid. */
  lemma {:induction false} CellInRange(uSegments: nat, vSegments: nat, i: nat, j: nat)
    requires i < vSegments && j < uSegments
    ensures forall n :: n in Cell(uSegments, i, j) ==> 0 <= n < VertexCount(uSegments, vSegments)
  {
    VertexNumbering(uSegments, vSegments, i, j);
    VertexNumbering(uSegments, vSegments, i + 1, j);
    VertexNumbering(uSegments, vSegments, i, j + 1);
    VertexNumbering(uSegments, vSegments, i + 1, j + 1);
  }

  /** Pushing triangles (a, b, c) and (b, d, c) of cell (i, j) extends the row by that cell. */
  lemma {:induction false} CellStep(uSegments: nat, before: seq<int>, done: seq<int>, i: nat, j: nat,
                                    a: int, b: int, c: int, d: int)
    requires done == before + SweepRow(CellAt(uSegments), i, j)
    requires a == i * (uSegments + 1) + j && b == a + uSegments + 1 && c == a + 1 && d == b + 1
    ensures done + [a, b, c] + [b, d, c] == before + SweepRow(CellAt(uSegments), i, j + 1)
  {
    assert VertexIndex(uSegments, i + 1, j) == b;
    assert Cell(uSegments, i, j) == [a, b, c] + [b, d, c];
    SweepRowStep(CellAt(uSegments), before, i, j, [a, b, c] + [b, d, c]);
    assert done + [a, b, c] + [b, d, c] == done + ([a, b, c] + [b, d, c]);
  }

  /** The two triangles of a cell each have three distinct corners. */
  lemma {:induction false} CellNonDegenerate(uSegments: nat, i: nat, j: nat)
    requires j < uSegments
    ensures NonDegenerate(Cell(uSegments, i, j))
  {
    var s := Cell(uSegments, i, j);
    forall t | 0 <= t < |s| / 3
      ensures DistinctCorners(s, t)
    {
      assert t == 0 || t == 1;
    }
  }

  lemma {:induction false} NonDegenerateAppend(a: seq<int>, b: seq<int>)
    requires |a| % 3 == 0
    requires NonDegenerate(a) && NonDegenerate(b)
    ensures NonDegenerate(a + b)
  {
    var s := a + b;
    forall t | 0 <= t < |s| / 3
      ensures DistinctCorners(s, t)
    {
      if 3 * t < |a| {
        assert DistinctCorners(a, t);
      } else {
        var t' := t - |a| / 3;
        assert 3 * t' == 3 * t - |a|;
        assert DistinctCorners(b, t');
      }
    }
  }

  /** 6 * m indices make 2 * m whole triangles. */
  lemma {:induction false} SixfoldTriples(m: nat)
    ensures (6 * m) % 3 == 0 && (6 * m) / 3 == 2 * m
  {
  }

  /** A row of six-index blocks without degenerate triangles has none either. */
  lemma {:induction false} BlocksNonDegenerate(f: (nat, nat) -> seq<int>, i: nat, n: nat)
    requires forall j: nat :: j < n ==> |f(i, j)| == 6 && NonDegenerate(f(i, j))
    ensures |SweepRow(f, i, n)| == 6 * n
    ensures NonDegenerate(SweepRow(f, i, n))
  {
    if n > 0 {
      var before := SweepRow(f, i, n - 1);
      var block := f(i, n - 1);
      assert SweepRow(f, i, n) == before + block;
      BlocksNonDegenerate(f, i, n - 1);
      SixfoldTriples(n - 1);
      NonDegenerateAppend(before, block);
    }
  }

  lemma {:induction false} RowNonDegenerate(uSegments: nat, i: nat, n: nat)
    requires n <= uSegments
    ensures |SweepRow(CellAt(uSegments), i, n)| == 6 * n
    ensures NonDegenerate(SweepRow(CellAt(uSegments), i, n))
  {
    forall j: nat | j < n
      ensures |CellAt(uSegments)(i, j)| == 6 && NonDegenerate(CellAt(uSegments)(i, j))
    {
      CellNonDegenerate(uSegments, i, j);
    }
    BlocksNonDegenerate(CellAt(uSegments), i, n);
  }

  // ---------------------------------------------------------------------
  // The index buffer

  /** Two triangles per cell: 6 * (uSegments * vSegments) indices. */
  lemma {:induction false} IndexCount(uSegments: nat, vSegments: nat)
    ensures |Indices(uSegments, vSegments)| == 6 * (uSegments * vSegments)
    ensures |Indices(uSegments, vSegments)| / 3 == 2 * (uSegments * vSegments)
    ensures |Indices(uSegments, vSegments)| % 3 == 0
  {
    CellsUniform(uSegments);
    SweepLength(CellAt(uSegments), 6, uSegments, vSegments);
    SixfoldTriples(uSegments * vSegments);
  }

  /** Every index names an existing vertex. */
  lemma {:induction false} IndicesInRange(uSegments: nat, vSegments: nat)
    ensures forall n :: n in Indices(uSegments, vSegments) ==> 0 <= n < VertexCount(uSegments, vSegments)
  {
    forall n | n in Indices(uSegments, vSegments)
      ensures 0 <= n < VertexCount(uSegments, vSegments)
    {
      SweepMemberOf(CellAt(uSegments), uSegments, vSegments, n);
      var i: nat, j: nat :| i < vSegments && j < uSegments && n in CellAt(uSegments)(i, j);
      CellInRange(uSegments, vSegments, i, j);
    }
  }

  /** No emitted triangle repeats a vertex. */
  lemma {:induction false} TrianglesNonDegenerate(uSegments: nat, vSegments: nat)
    ensures NonDegenerate(Indices(uSegments, vSegments))
  {
    if vSegments > 0 {
      var prefix := Indices(uSegments, vSegments - 1);
      var row := SweepRow(CellAt(uSegments), vSegments - 1, uSegments);
      assert |prefix| % 3 == 0 by {
        IndexCount(uSegments, vSegments - 1);
      }
      TrianglesNonDegenerate(uSegments, vSegments - 1);
      RowNonDegenerate(uSegments, vSegments - 1, uSegments);
      NonDegenerateAppend(prefix, row);
      assert Indices(uSegments, vSegments) == prefix + row;
    }
  }

  /** The two triangles of a cell share exactly the diagonal b-c. */
  lemma {:induction false} CellTrianglesShareDiagonal(uSegments: nat, vSegments: nat, i: nat, j: nat)
    requires i < vSegments && j < uSegments
    ensures 6 * (i * uSegments + j) + 6 <= |Indices(uSegments, vSegments)|
    ensures var s := Indices(uSegments, vSegments);
            var p := 6 * (i * uSegments + j);
            {s[p], s[p + 1], s[p + 2]} * {s[p + 3], s[p + 4], s[p + 5]} == {s[p + 1], s[p + 2]}
            && s[p + 1] != s[p + 2]
  {
    CellLayout(uSegments, vSegments, i, j);
    var s := Indices(uSegments, vSegments);
    var p := 6 * (i * uSegments + j);
    assert s[p..p + 6][0] == s[p];
  }

  /** The six index entries of cell (i, j), one by one. */
  lemma {:induction false} CellCorners(uSegments: nat, vSegments: nat, i: nat, j: nat)
    requires i < vSegments && j < uSegments
    ensures 6 * (i * uSegments + j) + 6 <= |Indices(uSegments, vSegments)|
    ensures var s := Indices(uSegments, vSegments);
            var p := 6 * (i * uSegments + j);
            var a := i * (uSegments + 1) + j;
            s[p] == a && s[p + 1] == a + uSegments + 1 && s[p + 2] == a + 1
            && s[p + 3] == a + uSegments + 1 && s[p + 4] == a + uSegments + 2 && s[p + 5] == a + 1
  {
    CellLayout(uSegments, vSegments, i, j);
    var s := Indices(uSegments, vSegments);
    var p := 6 * (i * uSegments + j);
    var block := s[p..p + 6];
    assert block[0] == s[p] && block[1] == s[p + 1] && block[2] == s[p + 2];
    assert block[3] == s[p + 3] && block[4] == s[p + 4] && block[5] == s[p + 5];
  }

  /** Consistent winding: every edge shared by two triangles is traversed in
      opposite directions by them. Inside a cell the diagonal runs b -> c in
      (a, b, c) and c -> b in (b, d, c); the edge c-d shared with the next cell
      of the row, and the edge b-d shared with the cell of the next row, are
      likewise reversed. */
  lemma {:induction false} CellWinding(uSegments: nat, vSegments: nat, i: nat, j: nat)
    requires i < vSegments && j < uSegments
    ensures 6 * (i * uSegments + j) + 6 <= |Indices(uSegments, vSegments)|
    ensures var s := Indices(uSegments, vSegments);
            var p := 6 * (i * uSegments + j);
            s[p + 1] == s[p + 3] && s[p + 2] == s[p + 5]
    ensures j + 1 < uSegments ==>
              var s := Indices(uSegments, vSegments);
              var p := 6 * (i * uSegments + j);
              var h := 6 * (i * uSegments + j + 1);
              h + 6 <= |s| && s[p + 4] == s[h + 1] && s[p + 5] == s[h]
    ensures i + 1 < vSegments ==>
              var s := Indices(uSegments, vSegments);
              var p := 6 * (i * uSegments + j);
              var w := 6 * ((i + 1) * uSegments + j);
              w + 6 <= |s| && s[p + 3] == s[w] && s[p + 4] == s[w + 2]
  {
    CellCorners(uSegments, vSegments, i, j);
    if j + 1 < uSegments {
      CellCorners(uSegments, vSegments, i, j + 1);
    }
    if i + 1 < vSegments {
      CellCorners(uSegments, vSegments, i + 1, j);
      assert (i + 1) * (uSegments + 1) == i * (uSegments + 1) + uSegments + 1;
    }
  }

  /** Every vertex of the grid is a corner of at least one triangle. */
  lemma {:induction false} AllVerticesReferenced(uSegments: nat, vSegments: nat)
    requires uSegments >= 1 && vSegments >= 1
    ensures forall n :: 0 <= n < VertexCount(uSegments, vSegments) ==> n in Indices(uSegments, vSegments)
  {
    forall n | 0 <= n < VertexCount(uSegments, vSegments)
      ensures n in Indices(uSegments, vSegments)
    {
      VertexDecoding(uSegments, vSegments, n);
      var i, j := VertexRow(uSegments, n), VertexColumn(uSegments, n);
      var ci := if i == vSegments then i - 1 else i;
      var cj := if j == uSegments then j - 1 else j;
      assert n in Cell(uSegments, ci, cj);
      assert n in CellAt(uSegments)(ci, cj);
      SweepMemberFrom(CellAt(uSegments), uSegments, vSegments, ci, cj, n);
    }
  }

  /** The seam columns j = 0 and j = uSegments of a row are two distinct
      vertices, both used by the triangles, with texture u = 0 and u = 1. */
  lemma {:induction false} SeamNotWelded(uSegments: nat, vSegments: nat, i: nat)
    requires uSegments >= 1 && vSegments >= 1 && i <= vSegments
    ensures VertexIndex(uSegments, i, 0) != VertexIndex(uSegments, i, uSegments)
    ensures VertexIndex(uSegments, i, 0) in Indices(uSegments, vSegments)
    ensures VertexIndex(uSegments, i, uSegments) in Indices(uSegments, vSegments)
    ensures ParamU(uSegments, 0) == 0.0 && ParamU(uSegments, uSegments) == 1.0
  {
    var first, last := VertexIndex(uSegments, i, 0), VertexIndex(uSegments, i, uSegments);
    assert first in Indices(uSegments, vSegments) && last in Indices(uSegments, vSegments) by {
      VertexNumbering(uSegments, vSegments, i, 0);
      VertexNumbering(uSegments, vSegments, i, uSegments);
      AllVerticesReferenced(uSegments, vSegments);
    }
    SeamParams(uSegments);
  }

  lemma {:induction false} SeamParams(uSegments: nat)
    requires uSegments >= 1
    ensures ParamU(uSegments, 0) == 0.0 && ParamU(uSegments, uSegments) == 1.0
  {
    assert uSegments as real / uSegments as real == 1.0;
  }

  // ---------------------------------------------------------------------
  // The vertex buffers

  lemma {:induction false} SamplesUniform(field: (real, real) -> Vec3, uSegments: nat, vSegments: nat)
    requires uSegments >= 1 && vSegments >= 1
    ensures Uniform(Sample(field, uSegments, vSegments), 3)
    ensures Uniform(UvAt(uSegments, vSegments), 2)
  {
    forall i: nat, j: nat
      ensures |Sample(field, uSegments, vSegments)(i, j)| == 3
      ensures |UvAt(uSegments, vSegments)(i, j)| == 2
    {
      assert Sample(field, uSegments, vSegments)(i, j)
          == Components(field(ParamU(uSegments, j), ParamV(vSegments, i)));
    }
  }

  /** Grid point (i, j) contributes the components of the field at (u, v) = (j/uSegments, i/vSegments)
      to a vertex buffer and (u, v) itself to the texture coordinates. */
  lemma {:induction false} SampleAt(field: (real, real) -> Vec3, uSegments: nat, vSegments: nat, i: nat, j: nat)
    requires uSegments >= 1 && vSegments >= 1
    ensures var p := field(ParamU(uSegments, j), ParamV(vSegments, i));
            Sample(field, uSegments, vSegments)(i, j) == [p.x, p.y, p.z]
    ensures UvAt(uSegments, vSegments)(i, j) == [ParamU(uSegments, j), ParamV(vSegments, i)]
  {
  }

  /** Positions and normals hold three entries per vertex, texture coordinates two. */
  lemma {:induction false} VertexBufferLengths(position: (real, real) -> Vec3, normal: (real, real) -> Vec3,
                            uSegments: nat, vSegments: nat)
    requires uSegments >= 1 && vSegments >= 1
    ensures |Sweep(Sample(position, uSegments, vSegments), uSegments + 1, vSegments + 1)|
            == 3 * VertexCount(uSegments, vSegments)
    ensures |Sweep(Sample(normal, uSegments, vSegments), uSegments + 1, vSegments + 1)|
            == 3 * VertexCount(uSegments, vSegments)
    ensures |Sweep(UvAt(uSegments, vSegments), uSegments + 1, vSegments + 1)|
            == 2 * VertexCount(uSegments, vSegments)
  {
    SamplesUniform(position, uSegments, vSegments);
    SamplesUniform(normal, uSegments, vSegments);
    SweepLength(Sample(position, uSegments, vSegments), 3, uSegments + 1, vSegments + 1);
    SweepLength(Sample(normal, uSegments, vSegments), 3, uSegments + 1, vSegments + 1);
    SweepLength(UvAt(uSegments, vSegments), 2, uSegments + 1, vSegments + 1);
  }

  /** The data of grid point (i, j) sits at vertex number i*(uSegments + 1) + j:
      its position and normal are the surface sampled at (j/uSegments, i/vSegments),
      and so is its texture coordinate, which lies in the unit square. */
  lemma {:induction false} VertexLayout(position: (real, real) -> Vec3, normal: (real, real) -> Vec3,
                     uSegments: nat, vSegments: nat, i: nat, j: nat)
    requires uSegments >= 1 && vSegments >= 1
    requires i <= vSegments && j <= uSegments
    ensures var n := VertexIndex(uSegments, i, j);
            var u := ParamU(uSegments, j);
            var v := ParamV(vSegments, i);
            var ps := Sweep(Sample(position, uSegments, vSegments), uSegments + 1, vSegments + 1);
            var ns := Sweep(Sample(normal, uSegments, vSegments), uSegments + 1, vSegments + 1);
            var uvs := Sweep(UvAt(uSegments, vSegments), uSegments + 1, vSegments + 1);
            3 * n + 3 <= |ps| && 3 * n + 3 <= |ns| && 2 * n + 2 <= |uvs|
            && ps[3 * n..3 * n + 3] == [position(u, v).x, position(u, v).y, position(u, v).z]
            && ns[3 * n..3 * n + 3] == [normal(u, v).x, normal(u, v).y, normal(u, v).z]
            && uvs[2 * n..2 * n + 2] == [u, v]
            && 0.0 <= u <= 1.0 && 0.0 <= v <= 1.0
  {
    var cols, rows := uSegments + 1, vSegments + 1;
    SamplesUniform(position, uSegments, vSegments);
    SamplesUniform(normal, uSegments, vSegments);
    SweepBlock(Sample(position, uSegments, vSegments), 3, cols, rows, i, j);
    SweepBlock(Sample(normal, uSegments, vSegments), 3, cols, rows, i, j);
    SweepBlock(UvAt(uSegments, vSegments), 2, cols, rows, i, j);
    UnitParam(j, uSegments);
    UnitParam(i, vSegments);
  }

  lemma {:induction false} UnitParam(k: nat, segments: nat)
    requires 1 <= segments && k <= segments
    ensures 0.0 <= k as real / segments as real <= 1.0
  {
  }
}
