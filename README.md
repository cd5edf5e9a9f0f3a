# Heart surface triangulation

This project models the heart geometry generator `create3DHeartGeometry` of the
3D heart scene (components/heart-scene.tsx). The generator works in two passes:

1. A vertex pass sweeps a (vSegments + 1) x (uSegments + 1) grid of surface
   parameters, row by row. For grid point (i, j), with u = j / uSegments and
   v = i / vSegments, it pushes:
   - three position components;
   - three normal components;
   - the texture coordinate (u, v).
2. A triangle pass walks the vSegments x uSegments cells, row by row. For the
   cell with corner a = i * (uSegments + 1) + j it emits two triangles,
   (a, b, c) and (b, d, c), where b = a + uSegments + 1, c = a + 1 and d = b + 1.

`create3DHeartGeometry` takes no arguments. It fixes `uSegments = 64` and
`vSegments = 32` as local constants (components/heart-scene.tsx:16-17), and the
heart mesh calls it once. The segment parameters of `CreateSurfaceGeometry`,
`PushVertices` and `PushIndices` generalise the model over these constants.
`CreateHeartGeometry` is the source's own instance.

The model has two modules.

`Grid` (grid.dfy) defines a row-major sweep. `Sweep(f, cols, rows)` concatenates
one block `f(i, j)` per grid point. Its lemmas locate the block of a given point
inside the sweep, give the length of the sweep, and characterise which values
occur in it.

`HeartGeometry` (heart_geometry.dfy) holds the generator itself:
- `PushVertices` and `PushIndices` are the two passes. Each is a method with
  nested `for` loops that appends to sequences, as the source appends to arrays.
- `CreateSurfaceGeometry` runs both passes for any segment counts of at least 1.
- `CreateHeartGeometry` runs them with the constants 64 and 32.

Each method is proved against a specification function:
- `Indices` is the cells in row-major order. Each cell is written through its
  grid corners, V(i, j), V(i + 1, j), V(i, j + 1), and so on, not through the
  source's a/b/c/d arithmetic.
- `Sweep(Sample(...))` and `Sweep(UvAt(...))` give the vertex buffers.

Lemmas prove the properties of the triangulation: lengths, index ranges,
layout, non-degeneracy, the shared diagonal, consistent winding, coverage and
the seam.

The surface formulas for positions and normals (sin, cos, pow, sqrt, exp and
atan2 on floats) are not modelled. They become the parameters
`position, normal: (real, real) -> Vec3` of the generator. The `position`
parameter stands for the scaled point `(0.15 x, 0.15 y, 0.15 z)` that the
source pushes. The `normal` parameter stands for the normalised vector (x, y, z).
Texture coordinates are the exact rationals j / uSegments and i / vSegments.

## Model

| member | source | states |
|---|---|---|
| HeartGeometry.PushVertices | components/heart-scene.tsx:20-55 | the vertex pass turns position, normal and uv into exactly the row-major sweep of grid points (0..vSegments) x (0..uSegments), sampled at (j/uSegments, i/vSegments); positions and normals hold 3 entries per vertex, uvs 2 |
| HeartGeometry.PushIndices | components/heart-scene.tsx:58-68 | the triangle pass produces the row-major sequence of cells; 6 * uSegments * vSegments indices, all naming an existing vertex, no triangle repeating a vertex |
| HeartGeometry.CreateSurfaceGeometry | components/heart-scene.tsx:9-77 | the geometry holds the four buffers of the two passes, with their lengths, the index range and non-degeneracy |
| HeartGeometry.CreateHeartGeometry | components/heart-scene.tsx:16-17 | with 64 x 32 segments: the four buffers are exactly the index sequence and the vertex sweeps of the general generator; 2145 vertices, 12288 indices, 6435 position and normal entries, 4290 uv entries, every index in 0..2144 and every vertex 0..2144 used by a triangle |
| HeartGeometry.RebuildAgrees | components/heart-scene.tsx:9-77 | the generator depends only on its arguments: two runs give identical buffers |
| HeartGeometry.IndexCount | components/heart-scene.tsx:58-68 | the index buffer has 6 * (uSegments * vSegments) entries, which is 2 * uSegments * vSegments whole triangles |
| HeartGeometry.IndicesInRange | components/heart-scene.tsx:60-66 | every index is at least 0 and below (uSegments + 1) * (vSegments + 1) |
| HeartGeometry.CellLayout | components/heart-scene.tsx:58-67 | cell (i, j) occupies index positions 6 * (i * uSegments + j) .. + 5 and holds exactly a, b, c, b, d, c with the source's a, b, c, d |
| HeartGeometry.CellStep | components/heart-scene.tsx:60-66 | pushing (a, b, c) and then (b, d, c) appends exactly the corners of cell (i, j) |
| HeartGeometry.TrianglesNonDegenerate | components/heart-scene.tsx:60-66 | every triangle of the index buffer has three pairwise distinct corners |
| HeartGeometry.CellNonDegenerate | components/heart-scene.tsx:65-66 | both triangles of one cell have three distinct corners |
| HeartGeometry.NonDegenerateAppend | components/heart-scene.tsx:65-66 | appending whole triangles without repeated corners to such a buffer keeps it free of degenerate triangles |
| HeartGeometry.BlocksNonDegenerate | components/heart-scene.tsx:59-67 | a row of six-index blocks, each without degenerate triangles, has 6n entries and no degenerate triangle |
| HeartGeometry.RowNonDegenerate | components/heart-scene.tsx:59-67 | the first n cells of a row give 6n indices without degenerate triangles |
| HeartGeometry.CellTrianglesShareDiagonal | components/heart-scene.tsx:60-66 | the corner sets of the two triangles of a cell intersect in exactly {b, c}, and b differs from c |
| HeartGeometry.CellCorners | components/heart-scene.tsx:60-66 | entries 6 * (i * uSegments + j) .. + 5 of the index buffer are a, b, c, b, d, c one by one, with b = a + uSegments + 1, c = a + 1, d = a + uSegments + 2 |
| HeartGeometry.CellWinding | components/heart-scene.tsx:60-66 | consistent winding: the diagonal runs b -> c in (a, b, c) and c -> b in (b, d, c); the edge d -> c of a cell is c -> d in the next cell of the row; the edge b -> d is d -> b in the cell of the next row |
| HeartGeometry.CellInRange | components/heart-scene.tsx:60-63 | the corners of a cell are vertices of the grid |
| HeartGeometry.AllVerticesReferenced | components/heart-scene.tsx:58-66 | every vertex 0 .. (uSegments + 1) * (vSegments + 1) - 1 is a corner of some triangle |
| HeartGeometry.SeamNotWelded | components/heart-scene.tsx:24-25 | columns j = 0 and j = uSegments of a row are distinct vertices, both used by triangles, with u = 0 and u = 1 |
| HeartGeometry.VertexNumbering | components/heart-scene.tsx:60 | the row-major number i * (uSegments + 1) + j is below the vertex count, and its row and column decode back to i and j |
| HeartGeometry.VertexDecoding | components/heart-scene.tsx:20-24 | every vertex number below the count is the row-major number of some grid point (its row and column) |
| HeartGeometry.VertexLayout | components/heart-scene.tsx:20-53 | the data of grid point (i, j) sits at vertex i * (uSegments + 1) + j: positions and normals at 3n .. 3n + 2 hold the field at (j/uSegments, i/vSegments), uvs at 2n, 2n + 1 hold (u, v), and both lie in [0, 1] |
| HeartGeometry.VertexBufferLengths | components/heart-scene.tsx:20-55 | positions and normals have 3 * (uSegments + 1) * (vSegments + 1) entries, uvs 2 * (uSegments + 1) * (vSegments + 1) |
| Grid.SweepLength | components/heart-scene.tsx:20-24 | a sweep of w-entry blocks over rows x cols points has w * (cols * rows) entries |
| Grid.SweepAt | components/heart-scene.tsx:20-24 | entry k of the block of point (i, j) sits at position w * (i * cols + j) + k |
| Grid.SweepBlock | components/heart-scene.tsx:58-59 | the block of point (i, j) is the contiguous slice at w * (i * cols + j) |
| Grid.SweepEntry | components/heart-scene.tsx:58-59 | the block of point (i, j) follows the blocks of the earlier rows and of the earlier points of its row |
| Grid.SweepMembers | components/heart-scene.tsx:58-59 | a value occurs in a sweep exactly when it occurs in the block of some grid point |
| Grid.SweepRowStep | components/heart-scene.tsx:24-54 | appending the block of point (i, j) extends the sweep by that point |

## Left out

- Position and normal values (components/heart-scene.tsx:29-51): floating-point trigonometry, pow, sqrt, exp and atan2. They are the parameters `position` and `normal`. The locals `scale` and `angle` are unused in the source and play no part.
- `computeVertexNormals` (components/heart-scene.tsx:74): this three.js call recomputes the normals from the triangles and overwrites the pushed ones. It is foreign code and is not modelled.
- `Float32BufferAttribute` (components/heart-scene.tsx:71-73): the conversion to 32-bit floats is not modelled. Buffers hold `real`s. The uvs j/64 and i/32 are exact in binary floating point anyway. For other segment counts, the source's `j / uSegments` and `i / vSegments` are float64 quotients rounded to the nearest double (1/3, for example). The model's uvs are then the exact rationals that those rounded values approximate.
- `geometry.setIndex(indices)` (components/heart-scene.tsx:70): three.js stores the index array as a 16-bit or 32-bit unsigned integer attribute. The model keeps `seq<int>` and does not model that width. At 64 x 32 nothing is lost: CreateHeartGeometry proves every index is below 2145, far inside 16 bits.
- The three.js `BufferGeometry` object (components/heart-scene.tsx:10, 70-73) is a datatype value holding the four buffers. The source fills it once and never changes it afterwards.
- CreateSurfaceGeometry: requires uSegments >= 1 and vSegments >= 1, and so does PushVertices. With 0 segments, JavaScript would compute 0 / 0 = NaN for u or v and push NaN entries, while the triangle pass would emit no indices. The model has no NaN, so that case is excluded. The source only runs with 64 and 32, so it never reaches that case. PushIndices has no such requirement.
- The generator's single function body is split into the methods PushVertices and PushIndices, one per loop nest, called in the source's order.
- Orbit particles (`ParticleOrbit`) and the floating animation of the main heart: these are per-frame float kinematics seeded by `Math.random`, written into three.js matrices.
- The petal tunnel and the background dust particles: float position and velocity updates with random respawn, tied to model loading, WebGL rendering and animation frames.
- Model viewers, pages, layout, routing, UI toggles, background cycling and the music player: React UI and browser I/O with no stateable logic.
