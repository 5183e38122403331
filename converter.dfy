/**
 * `stl_to_gltf_custom`: read a binary STL, weld its vertices, describe the
 * mesh as a glTF document, pack the binary buffer and return either the
 * document and the buffer separately or one GLB container.
 *
 * The parameters stand for what the model does not compute itself:
 * `round5` is `round(x, 5)` of the float with the given bit pattern (in
 * units of 10^-5), `f32` packs a rounded coordinate as a 4-byte float, and
 * `toText` is `str()` of the document, encoded as bytes.
 */
module Converter {
  import opened Bytes
  import opened Results
  import opened StlReader
  import opened Welder
  import opened BinaryPacker
  import opened Gltf
  import opened Glb

  const SINGLE_QUOTE: Byte := 0x27
  const DOUBLE_QUOTE: Byte := 0x22

  datatype ConvertError =
    | StlFailed(stl: StlError)
      /** Some vertex index does not fit `'<I'`: `struct.pack` raises `struct.error`. */
    | IndexOutOfRange(index: nat)
    | GlbFailed(glb: GlbError)

  /** The two result shapes: `"custom"` (document text and buffer) and `"custom-glb"`. */
  datatype Converted =
    | Split(gltf: seq<Byte>, bin: seq<Byte>)
    | Container(glb: seq<Byte>)

  /**
   * `.replace("'", '"')`: every single quote becomes a double quote and
   * nothing else changes, so no single quote is left.
   */
  function ReplaceQuotes(text: seq<Byte>): (r: seq<Byte>)
    ensures |r| == |text|
    ensures forall p :: 0 <= p < |r| ==>
              r[p] == (if text[p] == SINGLE_QUOTE then DOUBLE_QUOTE else text[p])
    ensures SINGLE_QUOTE !in r
  {
    if text == [] then []
    else
      var last := text[|text| - 1];
      ReplaceQuotes(text[..|text| - 1]) + [if last == SINGLE_QUOTE then DOUBLE_QUOTE else last]
  }

  /** The welded mesh of the records `data`. */
  ghost function MeshOf(data: seq<nat>, round5: nat -> int): Welded
    requires |data| % RECORD_VALUES == 0
  {
    Weld(Visits(data, round5))
  }

  /** The document `stl_to_gltf_custom` builds for the records `data`. */
  ghost function DocumentOf(data: seq<nat>, round5: nat -> int): Document
    requires |data| % RECORD_VALUES == 0
  {
    var w := MeshOf(data, round5);
    BuildDocument(|w.indices|, |w.order|, BoxOf(Visits(data, round5)))
  }

  /** Vertex indices run from 0 to one less than the vertex count, so only the last one can be out of range. */
  lemma IndicesInRange(data: seq<nat>, round5: nat -> int)
    requires |data| % RECORD_VALUES == 0
    ensures var w := MeshOf(data, round5);
            (exists k :: 0 <= k < |w.indices| && w.indices[k] >= U32_LIMIT) <==> |w.order| > U32_LIMIT
  {
    var visits := Visits(data, round5);
    var w := MeshOf(data, round5);
    WeldTable(visits);
    WeldLookup(visits);
    if |w.order| > U32_LIMIT {
      WeldLastIndexUsed(visits);
    }
    forall k | 0 <= k < |w.indices|
      ensures w.indices[k] < |w.order|
    {
      WeldInverse(visits, k);
    }
  }

  /**
   * The index accessor's bounds are exact: every index lies in [min, max]
   * and, when there is any facet, the maximum is attained.
   */
  lemma IndexBoundsHold(data: seq<nat>, round5: nat -> int)
    requires |data| % RECORD_VALUES == 0
    ensures var w, g := MeshOf(data, round5), DocumentOf(data, round5);
            && (forall k :: 0 <= k < |w.indices| ==>
                  g.accessors[0].min[0] <= w.indices[k] <= g.accessors[0].max[0])
            && (w.indices != [] ==> exists k :: 0 <= k < |w.indices| && w.indices[k] == g.accessors[0].max[0])
  {
    var visits := Visits(data, round5);
    var w := MeshOf(data, round5);
    assert w == Weld(visits);
    WeldTable(visits);
    WeldLookup(visits);
    forall k | 0 <= k < |w.indices|
      ensures w.indices[k] < |w.order|
    {
      WeldInverse(visits, k);
    }
    if w.indices != [] {
      WeldLastIndexUsed(visits);
    }
  }

  /** The position accessor's bounds hold every vertex of the buffer. */
  lemma PositionBoundsHold(data: seq<nat>, round5: nat -> int)
    requires |data| % RECORD_VALUES == 0
    ensures var w, g := MeshOf(data, round5), DocumentOf(data, round5);
            forall v, a :: 0 <= v < |w.order| ==>
              g.accessors[1].min[AxisIndex(a)] <= Coord(w.order[v], a) <= g.accessors[1].max[AxisIndex(a)]
  {
    var visits := Visits(data, round5);
    var w, g := MeshOf(data, round5), DocumentOf(data, round5);
    var box := BoxOf(visits);
    assert w == Weld(visits) && g.accessors[1] == BuildDocument(|w.indices|, |w.order|, box).accessors[1];
    forall v, a | 0 <= v < |w.order|
      ensures g.accessors[1].min[AxisIndex(a)] <= Coord(w.order[v], a) <= g.accessors[1].max[AxisIndex(a)]
    {
      BoxHoldsVertex(visits, v, a);
      assert g.accessors[1].min[AxisIndex(a)] == Coord(box.min, a) && g.accessors[1].max[AxisIndex(a)] == Coord(box.max, a) by {
        assert g.accessors[1].min == [box.min.x, box.min.y, box.min.z];
        assert g.accessors[1].max == [box.max.x, box.max.y, box.max.z];
      }
    }
  }

  /**
   * When every rounded coordinate lies within the sentinels, the position
   * accessor's bounds are those of the corrected box: the exact minimum and
   * maximum over the visits, each attained by some vertex.
   */
  lemma PositionBoundsExact(data: seq<nat>, round5: nat -> int)
    requires |data| % RECORD_VALUES == 0 && data != []
    requires WithinSentinels(Visits(data, round5))
    ensures var g, exact := DocumentOf(data, round5), ExactBox(Visits(data, round5));
            && g.accessors[1].min == [exact.min.x, exact.min.y, exact.min.z]
            && g.accessors[1].max == [exact.max.x, exact.max.y, exact.max.z]
  {
    var visits := Visits(data, round5);
    assert |visits| > 0;
    BoxOfExactWithinSentinels(visits);
  }

  /** Where coordinate `a` of corner `c` of facet `n` is stored in the STL file. */
  function StlCoordOffset(n: nat, c: nat, a: Axis): nat
  {
    RECORDS_START + RECORD_BYTES * n + VEC3_BYTES + VEC3_BYTES * c + FLOAT_BYTES * AxisIndex(a)
  }

  /** Visit `3n + c` is corner `c` of facet `n`, rounded from the file's floats. */
  lemma VisitFromFile(stl: seq<Byte>, data: seq<nat>, round5: nat -> int, n: nat, c: nat, a: Axis)
    requires ReadStl(stl) == Ok(data)
    requires n < FacetCount(stl) && c < 3
    ensures var visits := Visits(data, round5);
            var pos := StlCoordOffset(n, c, a);
            && 3 * n + c < |visits| && pos + 4 <= |stl|
            && Coord(visits[3 * n + c], a) == round5(LeToU32(stl[pos..pos + 4]))
  {
    var p := FIRST_VERTEX + 3 * c + AxisIndex(a);
    assert StlCoordOffset(n, c, a) == RECORDS_START + RECORD_BYTES * n + 4 * p;
    assert RECORD_VALUES * n + p == 13 * n + FIRST_VERTEX + 3 * c + AxisIndex(a);
    ReadStlFloatAt(stl, n, p);
    VisitCoordAt(data, round5, n, c, a);
  }

  /** Corner `c` of facet `n` is welded to a vertex whose coordinates are the corner's rounded floats. */
  lemma CornerVertex(stl: seq<Byte>, data: seq<nat>, round5: nat -> int, n: nat, c: nat, a: Axis)
    requires ReadStl(stl) == Ok(data)
    requires n < FacetCount(stl) && c < 3
    ensures var w, pos := MeshOf(data, round5), StlCoordOffset(n, c, a);
            && 3 * n + c < |w.indices| && w.indices[3 * n + c] < |w.order| && pos + 4 <= |stl|
            && Coord(w.order[w.indices[3 * n + c]], a) == round5(LeToU32(stl[pos..pos + 4]))
  {
    VisitFromFile(stl, data, round5, n, c, a);
    WeldInverse(Visits(data, round5), 3 * n + c);
  }

  /**
   * End to end: for corner `c` of facet `n` and axis `a`, a glTF loader
   * that reads index `3n + c` through the document's index accessor and then
   * that vertex's coordinate through the position accessor gets the packed
   * rounding of the float stored in the STL file at byte
   * 84 + 50 n + 12 + 12 c + 4 a.
   */
  lemma MeshRoundTrip(stl: seq<Byte>, data: seq<nat>, round5: nat -> int, f32: int -> Word, buffer: seq<Byte>,
                      n: nat, c: nat, a: Axis)
    requires ReadStl(stl) == Ok(data)
    requires var w := MeshOf(data, round5); PackedLayout(buffer, w.indices, w.order, f32)
    requires n < FacetCount(stl) && c < 3
    ensures var w, g := MeshOf(data, round5), DocumentOf(data, round5);
            var indexAt := ComponentOffset(g, 0, 3 * n + c, 0);
            var pos := StlCoordOffset(n, c, a);
            && indexAt + 4 <= |buffer| && pos + 4 <= |stl|
            && var v := LeToU32(buffer[indexAt..indexAt + 4]);
               && v < |w.order|
               && WordAt(buffer, ComponentOffset(g, 1, v, AxisIndex(a)), f32(round5(LeToU32(stl[pos..pos + 4]))))
  {
    var w := MeshOf(data, round5);
    CornerVertex(stl, data, round5, n, c, a);
    DocumentFollowsIndex(w.indices, w.order, f32, BoxOf(Visits(data, round5)), buffer, 3 * n + c, a);
  }

  /**
   * The `"custom-glb"` container for `text` and `bin`: its chunks read back
   * as the quote-replaced text, padded, and the buffer itself, which needs no
   * padding since its length is a multiple of 4.
   */
  lemma ContainerChunks(text: seq<Byte>, bin: seq<Byte>, indices: seq<nat>, vertices: seq<Vec3>,
                        f32: int -> Word)
    requires PackedLayout(bin, indices, vertices, f32)
    requires GlbLength(|text| + PadCount(|text|), |bin| + PadCount(|bin|)) < U32_LIMIT
    ensures var glb := CreateGlbFile(ReplaceQuotes(text), bin).value;
            && ParseGlb(glb) == Some((PadChunk(ReplaceQuotes(text)), bin))
            && PackedLayout(ParseGlb(glb).value.1, indices, vertices, f32)
  {
    GlbRoundTrip(ReplaceQuotes(text), bin);
    OutBinByteLengthAligned(|indices|, |vertices|);
    PadChunkAligned(bin);
  }

  /**
   * main.py lines 168-177: the `"custom-glb"` result. The document's text,
   * with single quotes made double, and the buffer go into one container;
   * only the container's total length can fail.
   */
  method ContainerResult(text: seq<Byte>, glbOut: seq<Byte>, ghost indices: seq<nat>, ghost vertices: seq<Vec3>,
                         ghost f32: int -> Word)
    returns (r: Result<Converted, ConvertError>)
    requires PackedLayout(glbOut, indices, vertices, f32)
    ensures var json := ReplaceQuotes(text);
            var total := GlbLength(|PadChunk(json)|, |glbOut|);
            && (r.Err? <==> total >= U32_LIMIT)
            && (r.Err? ==> r.error == GlbFailed(LengthOutOfRange(total)))
            && (r.Ok? ==> r.value.Container? && ParseGlb(r.value.glb) == Some((PadChunk(json), glbOut)))
  {
    var gltfJson := ReplaceQuotes(text);
    assert PadChunk(glbOut) == glbOut by {
      OutBinByteLengthAligned(|indices|, |vertices|);
      PadChunkAligned(glbOut);
    }
    var glbFile := CreateGlbFile(gltfJson, glbOut);
    if glbFile.Err? {
      return Err(GlbFailed(glbFile.error));
    }
    ContainerChunks(text, glbOut, indices, vertices, f32);
    r := Ok(Container(glbFile.value));
  }

  /**
   * The converter. It fails where the source raises: an STL of the wrong
   * size, a vertex index too large for `'<I'`, a container too large for its
   * length field. Otherwise the buffer holds the welded mesh in the layout
   * the document declares, the `"custom"` result is the document's text and
   * the buffer, and the `"custom-glb"` result is a container whose chunks are
   * the quote-replaced text, padded, and the buffer.
   */
  method StlToGltfCustom(stlBytes: seq<Byte>, isBinary: bool, round5: nat -> int, f32: int -> Word,
                         toText: Document -> seq<Byte>)
    returns (r: Result<Converted, ConvertError>)
    ensures ReadStl(stlBytes).Err? ==> r == Err(StlFailed(ReadStl(stlBytes).error))
    ensures ReadStl(stlBytes).Ok? ==>
              var data := ReadStl(stlBytes).value;
              var w := MeshOf(data, round5);
              (r.Err? && r.error.IndexOutOfRange? <==> |w.order| > U32_LIMIT)
    ensures ReadStl(stlBytes).Ok? && !isBinary ==>
              var data := ReadStl(stlBytes).value;
              var w := MeshOf(data, round5);
              && (r.Ok? <==> |w.order| <= U32_LIMIT)
              && (r.Ok? ==>
                    && r.value.Split? && r.value.gltf == toText(DocumentOf(data, round5))
                    && PackedLayout(r.value.bin, w.indices, w.order, f32))
    ensures ReadStl(stlBytes).Ok? && isBinary ==>
              var data := ReadStl(stlBytes).value;
              var w := MeshOf(data, round5);
              var json := ReplaceQuotes(toText(DocumentOf(data, round5)));
              var total := GlbLength(|PadChunk(json)|, OutBinByteLength(|w.indices|, |w.order|));
              && (|w.order| <= U32_LIMIT ==> (r.Err? <==> total >= U32_LIMIT))
              && (r.Err? && !r.error.IndexOutOfRange? ==> r.error == GlbFailed(LengthOutOfRange(total)))
              && (r.Ok? ==>
                    && r.value.Container? && ParseGlb(r.value.glb).Some?
                    && ParseGlb(r.value.glb).value.0 == PadChunk(json)
                    && PackedLayout(ParseGlb(r.value.glb).value.1, w.indices, w.order, f32))
  {
    var read := ReadStl(stlBytes);
    if read.Err? {
      return Err(StlFailed(read.error));
    }
    var data := read.value;
    ghost var visits := Visits(data, round5);
    ghost var w := Weld(visits);
    var vertices, indices, verticesLengthCounter, box := WeldVertices(data, round5);
    WeldTable(visits);
    var numberVertices := |vertices|;
    var gltf2 := BuildDocument(|indices|, numberVertices, box);
    assert gltf2 == DocumentOf(data, round5);
    var verticesList := ListVertices(vertices, numberVertices, w.order);
    IndicesInRange(data, round5);
    if exists k :: 0 <= k < |indices| && indices[k] >= U32_LIMIT {
      var k :| 0 <= k < |indices| && indices[k] >= U32_LIMIT;
      return Err(IndexOutOfRange(indices[k]));
    }
    var glbOut := PackBuffer(indices, verticesList, f32);
    if isBinary {
      r := ContainerResult(toText(gltf2), glbOut, indices, verticesList, f32);
    } else {
      r := Ok(Split(toText(gltf2), glbOut));
    }
  }
}
