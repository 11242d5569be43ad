# Mesh3D: a verified model of a drawable textured mesh

This project models the `Mesh3D` class of a small OpenGL mesh viewer in Dafny.
The class uploads a vertex list and an index list to the graphics device once.
It keeps an append-only list of texture handles and an active-texture index that
the viewer's arrow keys move forward, backward or to a random texture. Each
frame it binds the active texture and draws the whole index list as triangles.
The class also has three factories for constant geometry: a square, a triangle
and a cube.

The project has three modules:

- `TextureIndex` (`texture_index.dfy`) holds the active-index arithmetic. `Inc`,
  `Dec` and `Rand` state the intended moves. `IncSizeT`, `DecSizeT` and
  `RandSizeT` are the C++ expressions evaluated in 64-bit `size_t`
  arithmetic. In `DecSizeT`, `i - 1` wraps to 2^64 - 1 when `i` is 0. Lemmas
  prove that the two forms agree. Further lemmas prove the cyclic law and the
  inverse law of repeated moves.
- `Geometry` (`geometry.dfy`) holds the `Vertex3D` record and the validity
  condition on index lists. It also holds `Assemble`, which gives the triangles
  an indexed triangle-list draw produces. The factory data is here too, with
  its counts, index bounds and shape.
- `Mesh` (`mesh.dfy`) holds the `Mesh3D` class. Its fields are those of the
  C++ class. Two ghost fields record what the device buffers hold. The object
  invariant `Valid()` requires at least one texture, an active index in
  range, and counts that match the uploaded geometry. Every method keeps
  `Valid()`. Each index move is stated against `TextureIndex`.

The class has exactly one constructor, and that constructor installs the first
texture. This models the deleted default constructor (`Mesh3D.h:28`): every
mesh has at least one texture, so the modulo in the index moves never divides
by zero.

The model follows the code on these points:

- `activeTexRand` is `rand() % n` (Mesh3D.cpp:114). It does not exclude the
  current index. With one texture it always picks 0, and any index `i` is
  picked again when the random value is `i`.
- The constructor does not check the index list (Mesh3D.cpp:11-61). An index
  out of range or an incomplete triple is passed to the device unchecked. The
  model therefore states the conditions the code relies on (`ValidGeometry`)
  as a `requires` on the constructor. It proves that all three factories meet
  them.
- `m_faceCount` is set to `faces.size()` (Mesh3D.cpp:13), the number of
  indices (three per triangle), not the number of triangles. The draw call
  reads that many indices (Mesh3D.cpp:69).
- No device call's result is checked (Mesh3D.cpp:15-60, 82-91). No error path
  exists to model.
- The cube shares its 8 corners between sides (Mesh3D.cpp:146-155). It does
  not have 24 per-side vertices.

## Model

| member | source | states |
|---|---|---|
| `Mesh.Mesh3D.Valid` | Mesh3D.h:21-25 | the class invariant over the fields: at least one texture and at most the vector's max_size, no texture handle listed twice, the active index names a texture, the two counts are the lengths of the uploaded lists, and the geometry is valid; it implies that every index is in range and that the face count is three times the number of triangles drawn |
| `Mesh.Mesh3D.constructor` | Mesh3D.cpp:11-61 | vertex count = number of vertices; face count = number of indices; the texture list is exactly the one new handle; active index 0; the invariant holds |
| `Mesh.Mesh3D.AddTexture` | Mesh3D.cpp:79-92 | the list grows by exactly one handle, appended at the end; earlier handles and the active index are unchanged; the invariant holds, so the handles stay distinct given that the new one is a fresh name as `glGenTextures` returns (Mesh3D.cpp:82) |
| `Mesh.Mesh3D.ActiveTexInc` | Mesh3D.cpp:94-100 | the active index becomes `Inc` of the old one (next, last wraps to 0); the new index is returned and is below the texture count |
| `Mesh.Mesh3D.ActiveTexDec` | Mesh3D.cpp:102-108 | the active index becomes `Dec` of the old one (previous, 0 wraps to n - 1); the new index is returned and is below the texture count |
| `Mesh.Mesh3D.ActiveTexRand` | Mesh3D.cpp:110-115 | the active index becomes the random value mod n, which is below n; the current index is not excluded |
| `Mesh.Mesh3D.GetActiveTextureIndex` | Mesh3D.cpp:117 | returns the active index and changes nothing; under the invariant it is below the texture count |
| `Mesh.Mesh3D.Render` | Mesh3D.cpp:63-73 | binds the mesh's vertex array and `textures[active]` (always in range); draws exactly `faceCount` indices, the whole uploaded index list, all in range, which assembles into `faceCount / 3` triangles; changes no mesh state |
| `Mesh.Mesh3D.Square` | Mesh3D.cpp:119-133 | a fresh valid mesh on the given vertex array with 4 vertices, 6 indices, the square's data, one texture, active index 0 |
| `Mesh.Mesh3D.Triangle` | Mesh3D.cpp:135-143 | a fresh valid mesh on the given vertex array with 3 vertices, 3 indices, the triangle's data, one texture, active index 0 |
| `Mesh.Mesh3D.Cube` | Mesh3D.cpp:145-172 | a fresh valid mesh on the given vertex array with 8 vertices, 36 indices, the cube's data, one texture, active index 0 |
| `TextureIndex.Inc` | Mesh3D.cpp:99 | the next index is always below the texture count |
| `TextureIndex.Dec` | Mesh3D.cpp:107 | the previous index is always below the texture count |
| `TextureIndex.Rand` | Mesh3D.cpp:114 | the random pick is below the texture count, and a random value already below it is taken as is |
| `TextureIndex.IncSizeT` | Mesh3D.cpp:99 | the increment as written, `(i + 1) % n` with the sum taken mod 2^64; always below n |
| `TextureIndex.DecSizeT` | Mesh3D.cpp:107 | the decrement as written, `(i - 1 + n) % n` with the difference and the sum taken mod 2^64; always below n |
| `TextureIndex.RandSizeT` | Mesh3D.cpp:114 | the random pick as written, `rand() % n` after conversion to `size_t` (mod 2^64); always below n |
| `TextureIndex.IncSizeTIsInc` | Mesh3D.cpp:99 | `(i + 1) % n` in `size_t` equals the wrapping successor for every list the vector can hold |
| `TextureIndex.DecSizeTIsDec` | Mesh3D.cpp:107 | `(i - 1 + n) % n` in `size_t`, with its unsigned wrap at `i = 0`, equals the wrapping predecessor (0 goes to n - 1) |
| `TextureIndex.RandSizeTIsRand` | Mesh3D.cpp:114 | converting `rand()`'s non-negative result to `size_t` keeps its value, so the pick is `rnd mod n` |
| `TextureIndex.IncTimes` | Mesh3D.cpp:94-100 | after any number of forward moves the index is below the texture count |
| `TextureIndex.DecTimes` | Mesh3D.cpp:102-108 | after any number of backward moves the index is below the texture count |
| `TextureIndex.IncTimesIsAdd` | Mesh3D.cpp:94-100 | k forward moves from i give `(i + k) mod n` |
| `TextureIndex.DecTimesIsSub` | Mesh3D.cpp:102-108 | k backward moves from i give `(i - k) mod n` |
| `TextureIndex.IncTimesCycle` | Mesh3D.cpp:94-100 | n forward moves, one per texture, return to the starting index |
| `TextureIndex.DecTimesCycle` | Mesh3D.cpp:102-108 | n backward moves return to the starting index |
| `TextureIndex.IncThenDec` | Mesh3D.cpp:94-108 | k backward moves undo k forward moves (k = 1: dec after inc restores the index) |
| `TextureIndex.DecThenInc` | Mesh3D.cpp:94-108 | k forward moves undo k backward moves (k = 1: inc after dec restores the index) |
| `Geometry.Assemble` | Mesh3D.cpp:69 | an indexed triangle-list draw yields one triangle per whole index triple; triangle t joins the vertices named by indices 3t, 3t + 1 and 3t + 2 |
| `Geometry.Square` | Mesh3D.cpp:119-133 | 4 vertices, 6 indices, 2 triangles; every index is below 4; no triangle repeats a vertex; every vertex is used; the 4 vertices sit at 4 different corners of the unit square at z = 0 (that the two triangles cover the square is `SquareSplitAlongDiagonal`) |
| `Geometry.SquareSplitAlongDiagonal` | Mesh3D.cpp:119-133 | the square's two triangles split it along a diagonal: each has a corner the other lacks, and those two corners are opposite corners of the square (their midpoint is the origin), so together the triangles cover the whole square |
| `Geometry.Triangle` | Mesh3D.cpp:135-143 | 3 vertices, 3 indices, 1 triangle; every index is below 3; the 3 vertices sit at 3 different places, each is a vertex of the square, and each is on its left or top edge, so they are its bottom-left, top-left and top-right corners (the upper-left half) |
| `Geometry.Cube` | Mesh3D.cpp:145-172 | 8 vertices, 36 indices, 12 triangles; every index is below 8 |
| `Geometry.CubeVertices` | Mesh3D.cpp:146-155 | the cube's corner list as written, with texture coordinates; the contract states that it has 8 vertices, and `CubeCornersDistinct` states that they are the 8 distinct corners |
| `Geometry.CubeFaces` | Mesh3D.cpp:156-169 | the cube's index list as written; the contract states that it has 36 indices (12 triangles), and `CubeIndicesInRange`, `CubeNonDegenerate` and `CubeTrianglesOnSides` state its shape |
| `Geometry.CubeIndicesInRange` | Mesh3D.cpp:156-169 | every index of the cube names one of its 8 corners |
| `Geometry.CubeNonDegenerate` | Mesh3D.cpp:156-169 | none of the cube's 12 triangles repeats a corner |
| `Geometry.CubeUsesEveryCorner` | Mesh3D.cpp:146-169 | each of the 8 corners belongs to some triangle |
| `Geometry.CubeTrianglesOnSides` | Mesh3D.cpp:146-169 | the 12 triangles cover the 6 sides two per side: triangles 2s and 2s + 1 have all their corners on side s (back, right, front, left, top, bottom), and they split that side along a diagonal (a corner c only in the first, a corner d only in the second, with c and d opposite corners of the side) |
| `Geometry.CubeSidesBackRightFront` | Mesh3D.cpp:157-162 | the back, right and front sides each get their own two triangles |
| `Geometry.CubeSidesLeftTopBottom` | Mesh3D.cpp:163-168 | the left, top and bottom sides each get their own two triangles |
| `Geometry.CubeSplitBack` | Mesh3D.cpp:157-158 | triangles 0 and 1 split the back side along a diagonal: each has a corner the other lacks, and those two are opposite corners of the side |
| `Geometry.CubeSplitRight` | Mesh3D.cpp:159-160 | triangles 2 and 3 split the right side along a diagonal: each has a corner the other lacks, and those two are opposite corners of the side |
| `Geometry.CubeSplitFront` | Mesh3D.cpp:161-162 | triangles 4 and 5 split the front side along a diagonal: each has a corner the other lacks, and those two are opposite corners of the side |
| `Geometry.CubeSplitLeft` | Mesh3D.cpp:163-164 | triangles 6 and 7 split the left side along a diagonal: each has a corner the other lacks, and those two are opposite corners of the side |
| `Geometry.CubeSplitTop` | Mesh3D.cpp:165-166 | triangles 8 and 9 split the top side along a diagonal: each has a corner the other lacks, and those two are opposite corners of the side |
| `Geometry.CubeSplitBottom` | Mesh3D.cpp:167-168 | triangles 10 and 11 split the bottom side along a diagonal: each has a corner the other lacks, and those two are opposite corners of the side |
| `Geometry.CubeCornersDistinct` | Mesh3D.cpp:146-155 | the 8 vertices are the 8 distinct corners of the unit cube centred at the origin |

## Left out

- Device calls are not modelled. This covers vertex-array, buffer and texture generation, `glBufferData`, the attribute layout (stride and uv offset), texture parameters, `glTexImage2D` and mipmaps. The handles the device would generate are parameters of the constructor and of `AddTexture`. Because `glGenTextures` only returns names not in use, `AddTexture` requires its handle not to be in the list already. The buffer contents are ghost fields.
- Mesh.Mesh3D.Render: returns the draw command instead of issuing it. It does not model the binding state it resets afterwards, or its unused window parameter. It does not model the conversion of the index count to a signed 32-bit `GLsizei` in `glDrawElements`.
- Mesh.Mesh3D.AddTexture: requires the list to be below `std::vector<uint32_t>::max_size()`. At that size `push_back` throws `std::length_error`, which the model does not represent.
- Mesh.Mesh3D.ActiveTexRand: `rand()` itself is not modelled. Its result is the parameter `rnd`, bounded by the GNU C library's `RAND_MAX`.
- Mesh.Mesh3D.constructor: `ValidGeometry` allows an empty index list. The C++ code takes `&faces[0]` of that list, which is undefined behaviour in that case.
- Vertex positions and texture coordinates are single-precision floats in the source. The model uses reals, so rounding is not modelled.
- The counts are unbounded naturals. The three index moves reduce modulo 2^64 as `size_t` does, but a wrap can only occur in the decrement.
- The source has no destructor, so device objects are never released. Nothing is modelled for destruction.
- The application loop, window and event handling, shader loading, the model importer and the camera matrices are not part of this model. Neither are the `move`, `grow`, `rotate` and two-argument `render` members that the loop calls, because those are not defined in `Mesh3D`. The image decoder is not part of this model either: a texture is only its handle.
