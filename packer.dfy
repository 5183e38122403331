/**
 * The binary buffer `glb_out`: the indices as little-endian uint32, the
 * padding of the index section to a multiple of 4, then three floats per
 * vertex in first-seen order.
 *
 * How a float is packed (IEEE-754, in the machine's byte order, since the
 * source's `'%df'` has no `<`) is the parameter `f32`; the model only relies
 * on it giving four bytes per coordinate.
 */
module BinaryPacker {
  import opened Bytes
  import opened Welder


  /** The filler `b' '` appended after the indices. */
  const PAD_BYTE: Byte := 0x20

  /**
   * `(n + 3) & ~3`: on a non-negative integer `& ~3` clears the two low
   * bits, that is, subtracts the remainder modulo 4. The result is the
   * smallest multiple of 4 that is at least `n`.
   */
  function AlignTo4(n: nat): (r: nat)
    ensures r % 4 == 0 && n <= r < n + 4
  {
    (n + 3) - (n + 3) % 4
  }

  /** `indices_bytelength` for `count` indices. */
  function IndicesByteLength(count: nat): nat
  {
    AlignTo4(UNSIGNED_LONG_INT_BYTES * count)
  }

  /** Four-byte indices never need padding: the section is exactly 4 bytes per index. */
  lemma IndicesByteLengthExact(count: nat)
    ensures IndicesByteLength(count) == UNSIGNED_LONG_INT_BYTES * count
  {
  }

  /** `out_bin_bytelength`: the padded index section plus twelve bytes per vertex. */
  function OutBinByteLength(indexCount: nat, numberVertices: nat): nat
  {
    numberVertices * VEC3_BYTES + IndicesByteLength(indexCount)
  }

  /** The whole buffer is a multiple of 4 bytes long, so the BIN chunk needs no padding. */
  lemma OutBinByteLengthAligned(indexCount: nat, numberVertices: nat)
    ensures OutBinByteLength(indexCount, numberVertices) % 4 == 0
  {
    var padded := IndicesByteLength(indexCount);
    assert padded == 4 * (padded / 4);
    assert OutBinByteLength(indexCount, numberVertices) == 4 * (3 * numberVertices + padded / 4);
  }

  /** Where coordinate `a` of vertex `v` starts in the buffer. */
  function CoordOffset(indexCount: nat, v: nat, a: Axis): nat
  {
    IndicesByteLength(indexCount) + VEC3_BYTES * v + 4 * AxisIndex(a)
  }

  /** `struct.pack` of a run of fixed-width fields: four bytes per item, in order. */
  function PackWords<T>(xs: seq<T>, encode: T -> Word): (r: seq<Byte>)
    ensures |r| == 4 * |xs|
  {
    if xs == [] then []
    else PackWords(xs[..|xs| - 1], encode) + encode(xs[|xs| - 1])
  }

  /** Item `k` occupies bytes 4k to 4k+4 of the packed run. */
  lemma {:induction false} PackWordsAt<T>(xs: seq<T>, encode: T -> Word, k: nat)
    requires k < |xs|
    ensures PackWords(xs, encode)[4 * k..4 * k + 4] == encode(xs[k])
  {
    var last := |xs| - 1;
    var prefix := xs[..last];
    if k < last {
      PackWordsAt(prefix, encode, k);
      assert PackWords(xs, encode)[..4 * last] == PackWords(prefix, encode);
    }
  }

  /** `flattened_vertices`: x, y, z of each vertex in turn. */
  function Flatten(vertices: seq<Vec3>): (r: seq<int>)
    ensures |r| == 3 * |vertices|
  {
    if vertices == [] then []
    else
      var last := vertices[|vertices| - 1];
      Flatten(vertices[..|vertices| - 1]) + [last.x, last.y, last.z]
  }

  /** Coordinate `a` of vertex `v` is entry 3v + a of the flat list. */
  lemma {:induction false} FlattenAt(vertices: seq<Vec3>, v: nat, a: Axis)
    requires v < |vertices|
    ensures Flatten(vertices)[3 * v + AxisIndex(a)] == Coord(vertices[v], a)
  {
    var last := |vertices| - 1;
    if v < last {
      var prefix := vertices[..last];
      FlattenAt(prefix, v, a);
      assert Flatten(vertices)[..3 * last] == Flatten(prefix);
    }
  }

  /** Index `k` decodes from bytes 4k to 4k+4 of packed indices, whatever follows them. */
  lemma PackedIndexAt(indices: seq<U32>, tail: seq<Byte>, k: nat)
    requires k < |indices|
    ensures var out := PackWords(indices, U32ToLe) + tail;
            4 * k + 4 <= |out| && LeToU32(out[4 * k..4 * k + 4]) == indices[k]
  {
    var packed := PackWords(indices, U32ToLe);
    PackWordsAt(indices, U32ToLe, k);
    LeToU32Inverts(indices[k]);
    assert (packed + tail)[4 * k..4 * k + 4] == packed[4 * k..4 * k + 4];
  }

  /** Coordinate `a` of vertex `v` is the word at 12v + 4a of the packed flat list, whatever precedes it. */
  lemma PackedCoordAt(head: seq<Byte>, vertices: seq<Vec3>, f32: int -> Word, v: nat, a: Axis)
    requires v < |vertices|
    ensures var out, at := head + PackWords(Flatten(vertices), f32), |head| + VEC3_BYTES * v + 4 * AxisIndex(a);
            at + 4 <= |out| && out[at..at + 4] == f32(Coord(vertices[v], a))
  {
    var flattened := Flatten(vertices);
    var c := 3 * v + AxisIndex(a);
    FlattenAt(vertices, v, a);
    PackWordsAt(flattened, f32, c);
    assert (head + PackWords(flattened, f32))[|head| + 4 * c..|head| + 4 * c + 4] == PackWords(flattened, f32)[4 * c..4 * c + 4];
  }

  /**
   * What `glb_out` holds, byte for byte: index `k` decodes from the `<I` at 4k, filler
   * bytes up to the padded length, then the packed coordinates of each vertex.
   */
  ghost predicate PackedLayout(out: seq<Byte>, indices: seq<nat>, vertices: seq<Vec3>, f32: int -> Word)
  {
    && |out| == OutBinByteLength(|indices|, |vertices|)
    && (forall k :: 0 <= k < |indices| ==> LeToU32(out[4 * k..4 * k + 4]) == indices[k])
    && (forall p :: 4 * |indices| <= p < IndicesByteLength(|indices|) ==> out[p] == PAD_BYTE)
    && (forall v, a :: 0 <= v < |vertices| ==>
          CoordOffset(|indices|, v, a) + 4 <= |out| &&
          out[CoordOffset(|indices|, v, a)..CoordOffset(|indices|, v, a) + 4] == f32(Coord(vertices[v], a)))
  }

  /** main.py lines 161-162: append `count` filler bytes, one at a time. */
  method AppendPadding(buffer: seq<Byte>, count: nat) returns (out: seq<Byte>)
    ensures |out| == |buffer| + count && out[..|buffer|] == buffer
    ensures forall p :: |buffer| <= p < |out| ==> out[p] == PAD_BYTE
  {
    out := buffer;
    var n := 0;
    while n < count
      invariant 0 <= n <= count
      invariant |out| == |buffer| + n && out[..|buffer|] == buffer
      invariant forall p :: |buffer| <= p < |out| ==> out[p] == PAD_BYTE
    {
      out := out + [PAD_BYTE];
      n := n + 1;
    }
  }

  /**
   * main.py lines 150-165: extend `glb_out` with the packed indices, then one
   * filler byte at a time up to `indices_bytelength`, then the packed vertices.
   */
  method PackBuffer(indices: seq<U32>, verticesList: seq<Vec3>, f32: int -> Word)
    returns (glbOut: seq<Byte>)
    ensures PackedLayout(glbOut, indices, verticesList, f32)
  {
    var unpadded := UNSIGNED_LONG_INT_BYTES * |indices|;
    var padded := IndicesByteLength(|indices|);
    glbOut := PackWords(indices, U32ToLe);
    glbOut := AppendPadding(glbOut, padded - unpadded);
    var head := glbOut;
    var flattened := Flatten(verticesList);
    glbOut := glbOut + PackWords(flattened, f32);
    forall k | 0 <= k < |indices|
      ensures LeToU32(glbOut[4 * k..4 * k + 4]) == indices[k]
    {
      PackedIndexAt(indices, glbOut[unpadded..], k);
      assert glbOut == PackWords(indices, U32ToLe) + glbOut[unpadded..] by {
        assert head[..unpadded] == PackWords(indices, U32ToLe);
      }
    }
    forall v, a | 0 <= v < |verticesList|
      ensures CoordOffset(|indices|, v, a) + 4 <= |glbOut|
      ensures glbOut[CoordOffset(|indices|, v, a)..CoordOffset(|indices|, v, a) + 4]
           == f32(Coord(verticesList[v], a))
    {
      PackedCoordAt(head, verticesList, f32, v, a);
    }
  }
}
