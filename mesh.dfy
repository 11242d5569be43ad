/** A drawable mesh: the geometry uploaded once to the graphics device, an
    append-only list of texture handles, and the index of the texture that
    rendering binds.

    Device calls are left out.  The handles the device would generate (the
    vertex array object and each texture object) are passed in by the caller,
    and `Render` returns the draw it would issue instead of issuing it. */
module Mesh {
  import opened Geometry
  import opened TextureIndex

  /** An OpenGL object name (an unsigned 32-bit value). */
  type Handle = U32

  /** The draw `Render` issues: the vertex array it binds, the texture it binds,
      and how many indices the triangle-list draw reads. */
  datatype DrawCommand = DrawCommand(vertexArray: Handle, texture: Handle, indexCount: nat)

  class Mesh3D {
    /** The vertex array object holding the vertex and index buffers. */
    var vao: Handle
    /** The texture objects, in the order they were added. */
    var textures: seq<Handle>
    var activeTextureIndex: nat
    var vertexCount: nat
    /** The number of indices (three per triangle), not of triangles. */
    var faceCount: nat

    /** What the device buffers behind `vao` hold: copies of the constructor's
        arguments. */
    ghost var vertexBuffer: seq<Vertex3D>
    ghost var indexBuffer: seq<U32>

    /** The object invariant: there is always a texture, the active index names
        one of them, no texture object is listed twice, and the recorded counts are those of the uploaded
        geometry, so the draw reads whole triangles only. */
    ghost predicate Valid()
      reads this
      ensures Valid() ==>
        (IndicesInRange(|vertexBuffer|, indexBuffer) && 3 * |Assemble(vertexBuffer, indexBuffer)| == faceCount)
    {
      1 <= |textures| <= MaxTextures
      && activeTextureIndex < |textures|
      && (forall j, k :: 0 <= j < k < |textures| ==> textures[j] != textures[k])
      && vertexCount == |vertexBuffer|
      && faceCount == |indexBuffer|
      && ValidGeometry(vertexBuffer, indexBuffer)
    }

    /** Uploads the geometry into the vertex array `vertexArray` and the image
        into the texture `texture`, which becomes texture 0 and the active one.
        This is the only constructor: a mesh cannot be made without geometry and
        a first texture. */
    constructor (vertices: seq<Vertex3D>, faces: seq<U32>, vertexArray: Handle, texture: Handle)
      requires ValidGeometry(vertices, faces)
      ensures Valid()
      ensures vertexCount == |vertices| && faceCount == |faces|
      ensures vertexBuffer == vertices && indexBuffer == faces && vao == vertexArray
      ensures textures == [texture] && activeTextureIndex == 0
    {
      vertexCount := |vertices|;
      faceCount := |faces|;
      vao := vertexArray;
      vertexBuffer := vertices;
      indexBuffer := faces;
      textures := [texture];
      activeTextureIndex := 0;
    }

    /** A mesh of the unit square. */
    static method Square(vertexArray: Handle, texture: Handle) returns (m: Mesh3D)
      ensures fresh(m) && m.Valid() && m.vao == vertexArray
      ensures m.vertexCount == 4 && m.faceCount == 6
      ensures m.vertexBuffer == Geometry.Square().vertices && m.indexBuffer == Geometry.Square().faces
      ensures m.textures == [texture] && m.activeTextureIndex == 0
    {
      var data := Geometry.Square();
      m := new Mesh3D(data.vertices, data.faces, vertexArray, texture);
    }

    /** A mesh of the upper-left half of the unit square. */
    static method Triangle(vertexArray: Handle, texture: Handle) returns (m: Mesh3D)
      ensures fresh(m) && m.Valid() && m.vao == vertexArray
      ensures m.vertexCount == 3 && m.faceCount == 3
      ensures m.vertexBuffer == Geometry.Triangle().vertices && m.indexBuffer == Geometry.Triangle().faces
      ensures m.textures == [texture] && m.activeTextureIndex == 0
    {
      var data := Geometry.Triangle();
      m := new Mesh3D(data.vertices, data.faces, vertexArray, texture);
    }

    /** A mesh of the unit cube. */
    static method Cube(vertexArray: Handle, texture: Handle) returns (m: Mesh3D)
      ensures fresh(m) && m.Valid() && m.vao == vertexArray
      ensures m.vertexCount == 8 && m.faceCount == 36
      ensures m.vertexBuffer == Geometry.Cube().vertices && m.indexBuffer == Geometry.Cube().faces
      ensures m.textures == [texture] && m.activeTextureIndex == 0
    {
      var data := Geometry.Cube();
      m := new Mesh3D(data.vertices, data.faces, vertexArray, texture);
    }

    /** Appends the texture object `texture` (the newly uploaded image) to the
        end of the list.  The active texture and the geometry stay as they
        were.  The list never outgrows what the vector can hold, and the
        device only hands out names not already in use, so `texture` is new. */
    method AddTexture(texture: Handle)
      requires Valid() && |textures| < MaxTextures && texture !in textures
      modifies this`textures
      ensures Valid()
      ensures textures == old(textures) + [texture]
      ensures activeTextureIndex == old(activeTextureIndex)
    {
      textures := textures + [texture];
    }

    /** Makes the next texture active, wrapping from the last to the first, and
        returns the new index. */
    method ActiveTexInc() returns (r: nat)
      requires Valid()
      modifies this`activeTextureIndex
      ensures Valid()
      ensures activeTextureIndex == Inc(old(activeTextureIndex), |textures|)
      ensures r == activeTextureIndex && r < |textures|
    {
      IncSizeTIsInc(activeTextureIndex, |textures|);
      activeTextureIndex := IncSizeT(activeTextureIndex, |textures|);
      r := activeTextureIndex;
    }

    /** Makes the previous texture active, wrapping from the first to the last,
        and returns the new index. */
    method ActiveTexDec() returns (r: nat)
      requires Valid()
      modifies this`activeTextureIndex
      ensures Valid()
      ensures activeTextureIndex == Dec(old(activeTextureIndex), |textures|)
      ensures r == activeTextureIndex && r < |textures|
    {
      DecSizeTIsDec(activeTextureIndex, |textures|);
      activeTextureIndex := DecSizeT(activeTextureIndex, |textures|);
      r := activeTextureIndex;
    }

    /** Makes the texture that the random number `rnd` (a result of `rand()`)
        selects active, and returns the new index.  The current texture is not
        excluded. */
    method ActiveTexRand(rnd: nat) returns (r: nat)
      requires Valid() && rnd <= RandMax
      modifies this`activeTextureIndex
      ensures Valid()
      ensures activeTextureIndex == Rand(rnd, |textures|)
      ensures r == activeTextureIndex && r < |textures|
    {
      RandSizeTIsRand(rnd, |textures|);
      activeTextureIndex := RandSizeT(rnd, |textures|);
      r := activeTextureIndex;
    }

    /** The active texture index, read without changing anything. */
    method GetActiveTextureIndex() returns (r: nat)
      ensures r == activeTextureIndex
      ensures Valid() ==> r < |textures|
    {
      r := activeTextureIndex;
    }

    /** The draw of one frame: bind the vertex array and the active texture,
        and draw every uploaded index as a triangle list.  The mesh is not
        changed. */
    method Render() returns (cmd: DrawCommand)
      requires Valid()
      ensures cmd.vertexArray == vao
      ensures activeTextureIndex < |textures| && cmd.texture == textures[activeTextureIndex]
      ensures cmd.indexCount == |indexBuffer| && cmd.indexCount % 3 == 0
      ensures IndicesInRange(|vertexBuffer|, indexBuffer)
      ensures |Assemble(vertexBuffer, indexBuffer)| == cmd.indexCount / 3
    {
      cmd := DrawCommand(vao, textures[activeTextureIndex], faceCount);
    }
  }
}
