/** The geometry a mesh is built from: a vertex list and an index list whose
    consecutive triples are triangles, and the three built-in primitives
    (square, triangle, cube). */
module Geometry {

  /** An unsigned 32-bit value, the element type of the index list. */
  type U32 = x: int | 0 <= x < 0x1_0000_0000

  /** A vertex: position x, y, z, then texture coordinates u, v, in the order
      of the record's constructor arguments.  The single-precision floats of the
      record are modelled as reals. */
  datatype Vertex3D = Vertex3D(x: real, y: real, z: real, u: real, v: real)

  /** One triangle as the draw call assembles it from three indices. */
  datatype Face = Face(a: Vertex3D, b: Vertex3D, c: Vertex3D)

  /** A vertex list with the index list over it. */
  datatype MeshData = MeshData(vertices: seq<Vertex3D>, faces: seq<U32>)

  /** Every index names a vertex of a list of `vertexCount` vertices. */
  predicate IndicesInRange(vertexCount: nat, faces: seq<U32>)
  {
    forall k :: 0 <= k < |faces| ==> faces[k] < vertexCount
  }

  /** What the mesh constructor relies on but never checks: a non-empty vertex
      list, whole triangles, and indices that name vertices. */
  predicate ValidGeometry(vertices: seq<Vertex3D>, faces: seq<U32>)
  {
    |vertices| > 0 && |faces| % 3 == 0 && IndicesInRange(|vertices|, faces)
  }

  /** No triangle repeats a vertex. */
  predicate NonDegenerate(faces: seq<U32>)
  {
    forall t :: 0 <= t < |faces| / 3 ==>
      faces[3 * t] != faces[3 * t + 1] && faces[3 * t + 1] != faces[3 * t + 2] && faces[3 * t] != faces[3 * t + 2]
  }

  /** Every vertex is a corner of some triangle. */
  predicate AllVerticesUsed(vertexCount: nat, faces: seq<U32>)
  {
    forall j :: 0 <= j < vertexCount ==> j in faces
  }

  /** The triangles an indexed triangle-list draw produces from `faces` over
      `vertices`: triangle `t` joins the vertices named by indices 3t, 3t + 1
      and 3t + 2, and indices left over after the last whole triple are
      ignored. */
  function Assemble(vertices: seq<Vertex3D>, faces: seq<U32>): (fs: seq<Face>)
    requires IndicesInRange(|vertices|, faces)
    ensures |fs| == |faces| / 3
    ensures forall t :: 0 <= t < |fs| ==>
      fs[t] == Face(vertices[faces[3 * t]], vertices[faces[3 * t + 1]], vertices[faces[3 * t + 2]])
    decreases |faces|
  {
    if |faces| < 3 then []
    else
      var rest := Assemble(vertices, faces[3..]);
      assert forall t :: 1 <= t <= |rest| ==> faces[3..][3 * (t - 1)] == faces[3 * t];
      [Face(vertices[faces[0]], vertices[faces[1]], vertices[faces[2]])] + rest
  }

  /** A corner of the unit square centred at the origin in the z = 0 plane,
      with texture coordinates at the corners of the texture. */
  predicate OnUnitSquare(p: Vertex3D)
  {
    (p.x == 0.5 || p.x == -0.5) && (p.y == 0.5 || p.y == -0.5) && p.z == 0.0
    && (p.u == 0.0 || p.u == 1.0) && (p.v == 0.0 || p.v == 1.0)
  }

  /** Where a vertex is, leaving out its texture coordinates. */
  function Position(p: Vertex3D): (pos: (real, real, real))
  {
    (p.x, p.y, p.z)
  }

  /** The point halfway between the positions of `p` and `q`. */
  function Midpoint(p: Vertex3D, q: Vertex3D): (real, real, real)
  {
    ((p.x + q.x) / 2.0, (p.y + q.y) / 2.0, (p.z + q.z) / 2.0)
  }

  /** Index `c` is one of the three corners of triangle `t` of `faces`. */
  predicate InTriangle(faces: seq<U32>, t: nat, c: nat)
    requires 3 * t + 2 < |faces|
  {
    c == faces[3 * t] || c == faces[3 * t + 1] || c == faces[3 * t + 2]
  }

  /** Triangles `t` and `u` split a square centred at `centre` along the
      diagonal that does not join `c` and `d`: corner `c` belongs to `t` only,
      corner `d` to `u` only, and the two are opposite corners of the square
      (their midpoint is its centre).  When both triangles lie in the square
      and repeat no corner, they are then its two halves and together cover
      it. */
  predicate SplitAlongDiagonal(vertices: seq<Vertex3D>, faces: seq<U32>, t: nat, u: nat, c: nat, d: nat,
                               centre: (real, real, real))
    requires 3 * t + 2 < |faces| && 3 * u + 2 < |faces|
  {
    c < |vertices| && d < |vertices|
    && InTriangle(faces, t, c) && !InTriangle(faces, u, c)
    && InTriangle(faces, u, d) && !InTriangle(faces, t, d)
    && Midpoint(vertices[c], vertices[d]) == centre
  }

  /** Triangles `t` and `u` cover the square centred at `centre`, split along
      a diagonal. */
  predicate CoveredByPair(vertices: seq<Vertex3D>, faces: seq<U32>, t: nat, u: nat, centre: (real, real, real))
    requires 3 * t + 2 < |faces| && 3 * u + 2 < |faces|
  {
    exists c: nat, d: nat :: c < |vertices| && d < |vertices| && SplitAlongDiagonal(vertices, faces, t, u, c, d, centre)
  }

  /** A corner of the unit cube centred at the origin. */
  predicate OnUnitCube(p: Vertex3D)
  {
    (p.x == 0.5 || p.x == -0.5) && (p.y == 0.5 || p.y == -0.5) && (p.z == 0.5 || p.z == -0.5)
  }

  /** The 1x1 square centred at the origin: four corners at four different
      places, two triangles.  `SquareSplitAlongDiagonal` states that the two
      triangles cover it. */
  function Square(): (m: MeshData)
    ensures |m.vertices| == 4 && |m.faces| == 6
    ensures ValidGeometry(m.vertices, m.faces)
    ensures |Assemble(m.vertices, m.faces)| == 2
    ensures NonDegenerate(m.faces) && AllVerticesUsed(|m.vertices|, m.faces)
    ensures forall k :: 0 <= k < |m.vertices| ==> OnUnitSquare(m.vertices[k])
    ensures forall j, k :: 0 <= j < k < |m.vertices| ==> Position(m.vertices[j]) != Position(m.vertices[k])
  {
    MeshData(
      [ Vertex3D(0.5, 0.5, 0.0, 1.0, 0.0),     // top right
        Vertex3D(0.5, -0.5, 0.0, 1.0, 1.0),    // bottom right
        Vertex3D(-0.5, -0.5, 0.0, 0.0, 1.0),   // bottom left
        Vertex3D(-0.5, 0.5, 0.0, 0.0, 0.0) ],  // top left
      [ 3, 1, 2,
        3, 1, 0 ])
  }

  /** The square's two triangles split it along a diagonal, so together they
      cover it: the bottom-left corner is only in the first, the top-right
      corner only in the second, and the two are opposite corners of the
      square. */
  lemma SquareSplitAlongDiagonal()
    ensures CoveredByPair(Square().vertices, Square().faces, 0, 1, (0.0, 0.0, 0.0))
  {
    var m := Square();
    assert SplitAlongDiagonal(m.vertices, m.faces, 0, 1, 2, 0, (0.0, 0.0, 0.0));
  }

  /** The upper-left half of the square: one triangle whose three distinct
      corners are corners of the square, texture coordinates included, and lie
      on its left or top edge, so they are its bottom-left, top-left and
      top-right corners. */
  function Triangle(): (m: MeshData)
    ensures |m.vertices| == 3 && |m.faces| == 3
    ensures ValidGeometry(m.vertices, m.faces)
    ensures |Assemble(m.vertices, m.faces)| == 1
    ensures NonDegenerate(m.faces) && AllVerticesUsed(|m.vertices|, m.faces)
    ensures forall k :: 0 <= k < |m.vertices| ==> m.vertices[k] in Square().vertices
    ensures forall k :: 0 <= k < |m.vertices| ==> m.vertices[k].x == -0.5 || m.vertices[k].y == 0.5
    ensures forall j, k :: 0 <= j < k < |m.vertices| ==> Position(m.vertices[j]) != Position(m.vertices[k])
  {
    MeshData(
      [ Vertex3D(-0.5, -0.5, 0.0, 0.0, 1.0),
        Vertex3D(-0.5, 0.5, 0.0, 0.0, 0.0),
        Vertex3D(0.5, 0.5, 0.0, 1.0, 0.0) ],
      [ 2, 1, 0 ])
  }

  /** The 1x1x1 cube centred at the origin: eight shared corners, twelve
      triangles (two per side).  `CubeNonDegenerate`, `CubeUsesEveryCorner`,
      `CubeTrianglesOnSides` and `CubeCornersDistinct` state the rest of its shape. */
  function Cube(): (m: MeshData)
    ensures |m.vertices| == 8 && |m.faces| == 36
    ensures ValidGeometry(m.vertices, m.faces)
    ensures |Assemble(m.vertices, m.faces)| == 12
    ensures m.vertices == CubeVertices() && m.faces == CubeFaces()
  {
    CubeIndicesInRange();
    MeshData(CubeVertices(), CubeFaces())
  }

  /** Every index of the cube names one of its eight corners. */
  lemma CubeIndicesInRange()
    ensures IndicesInRange(8, CubeFaces())
  {
    var tris := CubeFaces();
    forall k | 0 <= k < 36 ensures tris[k] < 8 {
      var t := k / 3;
      assert t in {0, 1, 2, 3, 4, 5, 6, 7, 8, 9, 10, 11};
      assert k in {3 * t, 3 * t + 1, 3 * t + 2};
    }
  }

  /** The cube's corners, back side (z = -0.5) first. */
  function CubeVertices(): (vs: seq<Vertex3D>)
    ensures |vs| == 8
  {
    [ Vertex3D(0.5, 0.5, -0.5, 0.0, 0.0),     // back upper right
      Vertex3D(-0.5, 0.5, -0.5, 0.0, 0.0),    // back upper left
      Vertex3D(-0.5, -0.5, -0.5, 1.0, 0.0),   // back lower left
      Vertex3D(0.5, -0.5, -0.5, 0.0, 1.0),    // back lower right
      Vertex3D(0.5, 0.5, 0.5, 1.0, 0.0),      // front upper right
      Vertex3D(-0.5, 0.5, 0.5, 1.0, 1.0),     // front upper left
      Vertex3D(-0.5, -0.5, 0.5, 0.0, 1.0),    // front lower left
      Vertex3D(0.5, -0.5, 0.5, 1.0, 1.0) ]    // front lower right
  }

  /** The cube's index list, two triangles per side. */
  function CubeFaces(): (fs: seq<U32>)
    ensures |fs| == 36
  {
    [ 0, 1, 2,
      0, 2, 3,
      4, 0, 3,
      4, 3, 7,
      5, 4, 7,
      5, 7, 6,
      1, 5, 6,
      1, 6, 2,
      4, 5, 1,
      4, 1, 0,
      2, 6, 7,
      2, 7, 3 ]
  }

  /** Each of the cube's twelve triangles has three different corners. */
  lemma CubeNonDegenerate()
    ensures NonDegenerate(CubeFaces())
  {
    var tris := CubeFaces();
    forall t | 0 <= t < 12
      ensures tris[3 * t] != tris[3 * t + 1] && tris[3 * t + 1] != tris[3 * t + 2] && tris[3 * t] != tris[3 * t + 2]
    {
      assert t in {0, 1, 2, 3, 4, 5, 6, 7, 8, 9, 10, 11};
    }
  }

  /** Every corner of the cube belongs to some triangle. */
  lemma CubeUsesEveryCorner()
    ensures AllVerticesUsed(|CubeVertices()|, CubeFaces())
  {
    var tris := CubeFaces();
    forall j | 0 <= j < 8 ensures j in tris {
      var at := [0, 1, 2, 5, 6, 12, 17, 11];
      assert tris[at[j]] == j;
    }
  }

  /** A point on side `side` of the unit cube, the sides numbered back,
      right, front, left, top, bottom. */
  predicate OnCubeSide(side: nat, p: Vertex3D)
  {
    match side
    case 0 => p.z == -0.5
    case 1 => p.x == 0.5
    case 2 => p.z == 0.5
    case 3 => p.x == -0.5
    case 4 => p.y == 0.5
    case 5 => p.y == -0.5
    case _ => false
  }

  /** The corners of the cube's triangle `t`, all on side `side`. */
  predicate CubeTriangleOnSide(side: nat, t: nat)
    requires t < 12
  {
    var corners, tris := CubeVertices(), CubeFaces();
    OnCubeSide(side, corners[tris[3 * t]]) && OnCubeSide(side, corners[tris[3 * t + 1]])
    && OnCubeSide(side, corners[tris[3 * t + 2]])
  }

  /** The two triangles the cube draws for each of its back, right and front
      sides. */
  lemma CubeSidesBackRightFront(side: nat)
    requires side < 3
    ensures CubeTriangleOnSide(side, 2 * side) && CubeTriangleOnSide(side, 2 * side + 1)
  {
    if side == 0 {
      assert CubeTriangleOnSide(0, 0) && CubeTriangleOnSide(0, 1);
    } else if side == 1 {
      assert CubeTriangleOnSide(1, 2) && CubeTriangleOnSide(1, 3);
    } else {
      assert CubeTriangleOnSide(2, 4) && CubeTriangleOnSide(2, 5);
    }
  }

  /** The two triangles the cube draws for each of its left, top and bottom
      sides. */
  lemma CubeSidesLeftTopBottom(side: nat)
    requires 3 <= side < 6
    ensures CubeTriangleOnSide(side, 2 * side) && CubeTriangleOnSide(side, 2 * side + 1)
  {
    if side == 3 {
      assert CubeTriangleOnSide(3, 6) && CubeTriangleOnSide(3, 7);
    } else if side == 4 {
      assert CubeTriangleOnSide(4, 8) && CubeTriangleOnSide(4, 9);
    } else {
      assert CubeTriangleOnSide(5, 10) && CubeTriangleOnSide(5, 11);
    }
  }

  /** The centre of side `side` of the unit cube. */
  function SideCentre(side: nat): (centre: (real, real, real))
    requires side < 6
  {
    match side
    case 0 => (0.0, 0.0, -0.5)
    case 1 => (0.5, 0.0, 0.0)
    case 2 => (0.0, 0.0, 0.5)
    case 3 => (-0.5, 0.0, 0.0)
    case 4 => (0.0, 0.5, 0.0)
    case 5 => (0.0, -0.5, 0.0)
  }

  /** Triangles 2s and 2s + 1 of the cube cover side `s`: they split it
      along a diagonal. */
  predicate SideCovered(side: nat)
    requires side < 6
  {
    CoveredByPair(CubeVertices(), CubeFaces(), 2 * side, 2 * side + 1, SideCentre(side))
  }

  /** The back side is split along a diagonal: corner 1 is only in
      triangle 0, corner 3 only in triangle 1, and they are opposite. */
  lemma CubeSplitBack()
    ensures SideCovered(0)
  {
    assert InTriangle(CubeFaces(), 0, 1) && !InTriangle(CubeFaces(), 1, 1);
    assert InTriangle(CubeFaces(), 1, 3) && !InTriangle(CubeFaces(), 0, 3);
    assert SplitAlongDiagonal(CubeVertices(), CubeFaces(), 0, 1, 1, 3, SideCentre(0));
  }

  /** The right side is split along a diagonal: corner 0 is only in
      triangle 2, corner 7 only in triangle 3, and they are opposite. */
  lemma CubeSplitRight()
    ensures SideCovered(1)
  {
    assert InTriangle(CubeFaces(), 2, 0) && !InTriangle(CubeFaces(), 3, 0);
    assert InTriangle(CubeFaces(), 3, 7) && !InTriangle(CubeFaces(), 2, 7);
    assert SplitAlongDiagonal(CubeVertices(), CubeFaces(), 2, 3, 0, 7, SideCentre(1));
  }

  /** The front side is split along a diagonal: corner 4 is only in
      triangle 4, corner 6 only in triangle 5, and they are opposite. */
  lemma CubeSplitFront()
    ensures SideCovered(2)
  {
    assert InTriangle(CubeFaces(), 4, 4) && !InTriangle(CubeFaces(), 5, 4);
    assert InTriangle(CubeFaces(), 5, 6) && !InTriangle(CubeFaces(), 4, 6);
    assert SplitAlongDiagonal(CubeVertices(), CubeFaces(), 4, 5, 4, 6, SideCentre(2));
  }

  /** The left side is split along a diagonal: corner 5 is only in
      triangle 6, corner 2 only in triangle 7, and they are opposite. */
  lemma CubeSplitLeft()
    ensures SideCovered(3)
  {
    assert InTriangle(CubeFaces(), 6, 5) && !InTriangle(CubeFaces(), 7, 5);
    assert InTriangle(CubeFaces(), 7, 2) && !InTriangle(CubeFaces(), 6, 2);
    assert SplitAlongDiagonal(CubeVertices(), CubeFaces(), 6, 7, 5, 2, SideCentre(3));
  }

  /** The top side is split along a diagonal: corner 5 is only in
      triangle 8, corner 0 only in triangle 9, and they are opposite. */
  lemma CubeSplitTop()
    ensures SideCovered(4)
  {
    assert InTriangle(CubeFaces(), 8, 5) && !InTriangle(CubeFaces(), 9, 5);
    assert InTriangle(CubeFaces(), 9, 0) && !InTriangle(CubeFaces(), 8, 0);
    assert SplitAlongDiagonal(CubeVertices(), CubeFaces(), 8, 9, 5, 0, SideCentre(4));
  }

  /** The bottom side is split along a diagonal: corner 6 is only in
      triangle 10, corner 3 only in triangle 11, and they are opposite. */
  lemma CubeSplitBottom()
    ensures SideCovered(5)
  {
    assert InTriangle(CubeFaces(), 10, 6) && !InTriangle(CubeFaces(), 11, 6);
    assert InTriangle(CubeFaces(), 11, 3) && !InTriangle(CubeFaces(), 10, 3);
    assert SplitAlongDiagonal(CubeVertices(), CubeFaces(), 10, 11, 6, 3, SideCentre(5));
  }

  /** The cube's twelve triangles come in pairs, two per side: triangles 2s
      and 2s + 1 lie on side s, for the six sides back, right, front, left,
      top and bottom, and split that side along a diagonal, so the pair
      covers the side. */
  lemma CubeTrianglesOnSides()
    ensures |CubeFaces()| / 3 == 12
    ensures forall side :: 0 <= side < 6 ==>
      CubeTriangleOnSide(side, 2 * side) && CubeTriangleOnSide(side, 2 * side + 1)
    ensures forall side :: 0 <= side < 6 ==> SideCovered(side)
  {
    forall side | 0 <= side < 6
      ensures CubeTriangleOnSide(side, 2 * side) && CubeTriangleOnSide(side, 2 * side + 1)
    {
      if side < 3 {
        CubeSidesBackRightFront(side);
      } else {
        CubeSidesLeftTopBottom(side);
      }
    }
    forall side | 0 <= side < 6
      ensures SideCovered(side)
    {
      match side
      case 0 => CubeSplitBack();
      case 1 => CubeSplitRight();
      case 2 => CubeSplitFront();
      case 3 => CubeSplitLeft();
      case 4 => CubeSplitTop();
      case 5 => CubeSplitBottom();
    }
  }

  /** The cube's vertices are its eight corners, each at a different place. */
  lemma CubeCornersDistinct()
    ensures forall k :: 0 <= k < |CubeVertices()| ==> OnUnitCube(CubeVertices()[k])
    ensures forall j, k :: 0 <= j < k < |CubeVertices()| ==>
      Position(CubeVertices()[j]) != Position(CubeVertices()[k])
  {
    var corners := CubeVertices();
    forall k | 0 <= k < 8 ensures OnUnitCube(corners[k]) {
      assert k in {0, 1, 2, 3, 4, 5, 6, 7};
    }
    forall j, k | 0 <= j < k < 8 ensures Position(corners[j]) != Position(corners[k]) {
      assert j in {0, 1, 2, 3, 4, 5, 6} && k in {1, 2, 3, 4, 5, 6, 7};
    }
  }
}
