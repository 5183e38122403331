/**
 * The glTF 2.0 document `gltf2` that `stl_to_gltf_custom` builds: one
 * scene, node, mesh and primitive, one buffer, two buffer views and two
 * accessors. Only the fields and their values are modelled; the JSON text
 * is not.
 *
 * Bounds of the position accessor are rounded coordinates in units of
 * 10^-5, as the welder produces them.
 */
module Gltf {
  import opened Bytes
  import opened Welder
  import opened BinaryPacker

  /** bufferView targets and accessor component types, section 3.6 ("Binary Data Storage") of glTF 2.0. */
  const ELEMENT_ARRAY_BUFFER: nat := 34963
  const ARRAY_BUFFER: nat := 34962
  const UNSIGNED_INT: nat := 5125
  const FLOAT: nat := 5126

  datatype AccessorType = Scalar | Vector3

  datatype BufferView = BufferView(buffer: nat, byteOffset: nat, byteLength: nat, target: nat)

  datatype Accessor = Accessor(
    bufferView: nat,
    byteOffset: nat,
    componentType: nat,
    count: nat,
    accessorType: AccessorType,
    max: seq<int>,
    min: seq<int>)

  /** The one mesh primitive: which accessor holds positions and which holds indices. */
  datatype Primitive = Primitive(position: nat, indices: nat)

  datatype Document = Document(
    sceneNodes: seq<nat>,
    nodeMesh: nat,
    primitive: Primitive,
    bufferByteLength: nat,
    bufferViews: seq<BufferView>,
    accessors: seq<Accessor>,
    assetVersion: string)

  function ComponentBytes(componentType: nat): nat
  {
    if componentType == UNSIGNED_INT || componentType == FLOAT then 4 else 0
  }

  function ComponentsPerElement(t: AccessorType): nat
  {
    match t
    case Scalar => 1
    case Vector3 => 3
  }

  /** The references inside the document point at things it has. */
  ghost predicate WellFormed(g: Document)
  {
    && |g.bufferViews| == 2 && |g.accessors| == 2
    && (forall i :: 0 <= i < |g.bufferViews| ==> g.bufferViews[i].buffer == 0)
    && (forall i :: 0 <= i < |g.accessors| ==> g.accessors[i].bufferView < |g.bufferViews|)
    && g.primitive.indices < |g.accessors| && g.primitive.position < |g.accessors|
  }

  /** The two views lie back to back and cover the whole buffer. */
  ghost predicate ViewsTileBuffer(g: Document)
    requires |g.bufferViews| == 2
  {
    && g.bufferViews[0].byteOffset == 0
    && g.bufferViews[1].byteOffset == g.bufferViews[0].byteOffset + g.bufferViews[0].byteLength
    && g.bufferViews[1].byteOffset + g.bufferViews[1].byteLength == g.bufferByteLength
  }

  /** Where accessor `i`'s first element starts in the buffer. */
  function AccessorStart(g: Document, i: nat): nat
    requires i < |g.accessors| && g.accessors[i].bufferView < |g.bufferViews|
  {
    g.bufferViews[g.accessors[i].bufferView].byteOffset + g.accessors[i].byteOffset
  }

  /** Bytes an accessor reads: count elements of the declared component type and arity. */
  function AccessorBytes(acc: Accessor): nat
  {
    acc.count * ComponentsPerElement(acc.accessorType) * ComponentBytes(acc.componentType)
  }

  /**
   * Each accessor starts aligned to its component size and reads only bytes
   * of its own view, the alignment and bounds rules of section 3.6.2 of glTF 2.0.
   */
  ghost predicate AccessorsFitViews(g: Document)
    requires WellFormed(g)
  {
    forall i :: 0 <= i < |g.accessors| ==>
      var acc := g.accessors[i];
      var view := g.bufferViews[acc.bufferView];
      && ComponentBytes(acc.componentType) > 0
      && AccessorStart(g, i) % ComponentBytes(acc.componentType) == 0
      && acc.byteOffset + AccessorBytes(acc) <= view.byteLength
  }

  /**
   * main.py lines 100-147, with the lengths of lines 92-97. The document is
   * consistent: its references resolve, the two views lie back to back over
   * a buffer of four bytes per index and twelve per vertex, and each
   * accessor is aligned and fits its view.
   */
  function BuildDocument(indexCount: nat, numberVertices: nat, box: Box): (g: Document)
    ensures WellFormed(g) && ViewsTileBuffer(g) && AccessorsFitViews(g)
    ensures g.bufferByteLength == 4 * indexCount + 12 * numberVertices
  {
    var verticesBytelength := numberVertices * VEC3_BYTES;
    var indicesBytelength := IndicesByteLength(indexCount);
    IndicesByteLengthExact(indexCount);
    var g := Document(
      [0],
      0,
      Primitive(1, 0),
      OutBinByteLength(indexCount, numberVertices),
      [BufferView(0, 0, indicesBytelength, ELEMENT_ARRAY_BUFFER),
       BufferView(0, indicesBytelength, verticesBytelength, ARRAY_BUFFER)],
      [Accessor(0, 0, UNSIGNED_INT, indexCount, Scalar, [numberVertices - 1], [0]),
       Accessor(1, 0, FLOAT, numberVertices, Vector3,
                [box.max.x, box.max.y, box.max.z], [box.min.x, box.min.y, box.min.z])],
      "2.0");
    assert AccessorBytes(g.accessors[0]) == indicesBytelength;
    assert AccessorBytes(g.accessors[1]) == verticesBytelength;
    assert AccessorStart(g, 1) == indicesBytelength;
    g
  }

  /**
   * The primitive's accessors are the right ones: the index accessor reads
   * the element-array view and counts every index, the position accessor
   * reads the vertex-array view, counts every vertex and carries the box as
   * its bounds.
   */
  lemma BuildDocumentConsistent(indexCount: nat, numberVertices: nat, box: Box)
    ensures var g := BuildDocument(indexCount, numberVertices, box);
            && g.bufferViews[g.accessors[g.primitive.indices].bufferView].target == ELEMENT_ARRAY_BUFFER
            && g.bufferViews[g.accessors[g.primitive.position].bufferView].target == ARRAY_BUFFER
            && g.accessors[g.primitive.indices].componentType == UNSIGNED_INT
            && g.accessors[g.primitive.position].componentType == FLOAT
            && g.accessors[g.primitive.indices].count == indexCount
            && g.accessors[g.primitive.indices].min == [0]
            && g.accessors[g.primitive.indices].max == [numberVertices - 1]
            && g.accessors[g.primitive.position].count == numberVertices
            && g.accessors[g.primitive.position].min == [box.min.x, box.min.y, box.min.z]
            && g.accessors[g.primitive.position].max == [box.max.x, box.max.y, box.max.z]
  {
  }

  /**
   * Where a loader finds component `c` of element `e` of accessor `i`: the
   * accessor's start plus `e` whole elements plus `c` components.
   */
  function ComponentOffset(g: Document, i: nat, e: nat, c: nat): nat
    requires i < |g.accessors| && g.accessors[i].bufferView < |g.bufferViews|
  {
    var acc := g.accessors[i];
    AccessorStart(g, i)
      + e * ComponentsPerElement(acc.accessorType) * ComponentBytes(acc.componentType)
      + c * ComponentBytes(acc.componentType)
  }

  /**
   * The declared offsets of the index accessor are the packer's byte
   * positions: element `k`, read as a little-endian uint32 the way a glTF
   * loader reads it, is index `k`.
   */
  lemma DocumentLocatesIndices(indices: seq<nat>, vertices: seq<Vec3>, f32: int -> Word, box: Box,
                               buffer: seq<Byte>)
    requires PackedLayout(buffer, indices, vertices, f32)
    ensures var g := BuildDocument(|indices|, |vertices|, box);
            && |buffer| == g.bufferByteLength
            && g.accessors[g.primitive.indices].count == |indices|
            && (forall k :: 0 <= k < |indices| ==>
                  var at := ComponentOffset(g, 0, k, 0);
                  at + 4 <= |buffer| && LeToU32(buffer[at..at + 4]) == indices[k])
  {
    var g := BuildDocument(|indices|, |vertices|, box);
    IndicesByteLengthExact(|indices|);
    forall k | 0 <= k < |indices|
      ensures var at := ComponentOffset(g, 0, k, 0);
              at + 4 <= |buffer| && LeToU32(buffer[at..at + 4]) == indices[k]
    {
      assert ComponentOffset(g, 0, k, 0) == 4 * k;
    }
  }

  /** The four bytes at `at` are `w`. */
  ghost predicate WordAt(buffer: seq<Byte>, at: nat, w: Word)
  {
    at + 4 <= |buffer| && buffer[at..at + 4] == w
  }

  /**
   * The declared offsets of the position accessor are the packer's byte
   * positions: component `a` of element `v` holds the packed coordinate `a`
   * of vertex `v`.
   */
  lemma DocumentLocatesPositions(indices: seq<nat>, vertices: seq<Vec3>, f32: int -> Word, box: Box,
                                 buffer: seq<Byte>)
    requires PackedLayout(buffer, indices, vertices, f32)
    ensures var g := BuildDocument(|indices|, |vertices|, box);
            && g.accessors[g.primitive.position].count == |vertices|
            && (forall v, a :: 0 <= v < |vertices| ==>
                  WordAt(buffer, ComponentOffset(g, 1, v, AxisIndex(a)), f32(Coord(vertices[v], a))))
  {
    var g := BuildDocument(|indices|, |vertices|, box);
    forall v, a | 0 <= v < |vertices|
      ensures WordAt(buffer, ComponentOffset(g, 1, v, AxisIndex(a)), f32(Coord(vertices[v], a)))
    {
      assert ComponentOffset(g, 1, v, AxisIndex(a)) == CoordOffset(|indices|, v, a);
    }
  }

  /**
   * Following element `k` of the index accessor to the position accessor:
   * the index read there names vertex `indices[k]`, whose packed coordinate
   * `a` is what the position accessor holds for it.
   */
  lemma DocumentFollowsIndex(indices: seq<nat>, vertices: seq<Vec3>, f32: int -> Word, box: Box,
                             buffer: seq<Byte>, k: nat, a: Axis)
    requires PackedLayout(buffer, indices, vertices, f32)
    requires k < |indices| && indices[k] < |vertices|
    ensures var g := BuildDocument(|indices|, |vertices|, box);
            var indexAt := ComponentOffset(g, 0, k, 0);
            && indexAt + 4 <= |buffer| && LeToU32(buffer[indexAt..indexAt + 4]) == indices[k]
            && WordAt(buffer, ComponentOffset(g, 1, indices[k], AxisIndex(a)), f32(Coord(vertices[indices[k]], a)))
  {
    DocumentLocatesIndices(indices, vertices, f32, box, buffer);
    DocumentLocatesPositions(indices, vertices, f32, box, buffer);
  }
}
