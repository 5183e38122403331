# STL to glTF transcoder: a Dafny model of the custom converter

This project models the hand-written converter of the STL-to-glTF web
service, `stl_to_gltf_custom` and `_create_glb_file` in `main.py`, and
proves properties about it. The converter reads a binary STL file and welds
its triangle corners into shared vertices. It then describes the mesh as a
glTF 2.0 document and packs the indices and vertex positions into one binary
buffer. The result is either the document text plus the buffer (`"custom"`)
or a single GLB container (`"custom-glb"`).

The modules follow the stages of the converter:

| file | module | stage |
|---|---|---|
| `bytes.dfy` | `Results`, `Bytes` | result types; bytes and the little-endian `<I` / `<H` codecs |
| `stl_reader.dfy` | `StlReader` | header skip, facet count, size checks, `"12fH"` record unpacking |
| `welder.dfy` | `Welder` | the nested loop: rounding keys, the `vertices` dictionary, `indices`, the counter and the six running bounds |
| `packer.dfy` | `BinaryPacker` | `glb_out`: packed indices, padding, packed coordinates |
| `gltf.dfy` | `Gltf` | the `gltf2` document: buffer views, accessors, bounds |
| `glb.dfy` | `Glb` | `_create_glb_file`, and a GLB reader as its partner |
| `converter.dfy` | `Converter` | the whole function, with its error paths and end-to-end properties |

The code mutates several things step by step: the loop over records, the
dictionary with its counter, the index list, the bounds, the padding loop
and the `reversed_vertices` inversion. Each of these is a `method` with loop
invariants. Each method is proved against a specification function:
- the welding loop against `Weld` and `BoxOf`, folds over the sequence of vertex visits (one `WeldStep` or `Extend` per visit), whose properties are the `Welder` lemmas below;
- the buffer against the byte layout `PackedLayout`.

The lemmas are about those functions. The expression-level parts are
functions: the reader, the document, the container and the quote
replacement.

Floating point is not modelled. The model takes three parameters instead:
- A float field of the STL is kept as its 32-bit pattern.
- `round5` maps a pattern to `round(x, 5)`, counted in units of 10^-5. Keys
  and bounds are therefore integer triples, and comparing them is exact.
- `f32` packs a rounded coordinate as four bytes.

`toText` stands for `str(gltf2)` encoded as bytes.

## Model

| member | source | states |
|---|---|---|
| Bytes.LeToU32Inverts | main.py:48 | decoding the four bytes that `struct.pack('<I', x)` writes gives `x` back |
| Bytes.U32ToLeInverts | main.py:48 | any four bytes are the `<I` encoding of the value they decode to, so the codec is a bijection |
| StlReader.UnpackRecord | main.py:63 | one 50-byte `"12fH"` record unpacks to 13 values |
| StlReader.UnpackRecords | main.py:63 | `count` records unpack to `13 * count` values |
| StlReader.UnpackRecordAt | main.py:63 | value `p` of a record is field `p` decoded from its own bytes: `<I` bits for the 12 floats, `<H` for the attribute |
| StlReader.UnpackRecordsAt | main.py:63 | value `13n + p` is field `p` of the `n`-th 50-byte record |
| StlReader.ReadStl | main.py:44-63 | succeeds exactly when there are at least 84 bytes and the length is exactly 84 + 50 F (F is the count at bytes 80-84). Fewer than 84 bytes gives `CountUnreadable`; 84 + 50 F > length gives `IllFormatted(84 + 50 F, length)`, the `ValueError`; trailing bytes give `RecordsUnreadable`. On success there are 13 F values |
| StlReader.ReadStlValueAt | main.py:44-63 | every unpacked value is its field decoded from the record at byte 84 + 50 n |
| StlReader.ReadStlFloatAt | main.py:63-68 | float field `p` of facet `n` is the `<I` word at byte 84 + 50 n + 4 p |
| Welder.Visits | main.py:66-75 | the loop makes three vertex visits per 13-value record |
| Welder.VisitAt | main.py:66-75 | visit `3n + c` is the rounded triple at values `13n + 3 + 3c` to `+3`; the normal and the attribute are never read |
| Welder.VisitCoordAt | main.py:66-75 | coordinate `a` of visit `3n + c` is `round5` of value `13n + 3 + 3c + a` |
| Welder.NewKeyDense | main.py:79-82 | giving an unseen key the next counter value keeps the table a bijection between keys and `0 .. counter-1` |
| Welder.WeldStepDense | main.py:77-82 | one visit keeps the table dense, adds exactly the visited key and appends one index |
| Welder.WeldTable | main.py:77-82 | after any visits the table is dense, its keys are exactly the distinct keys seen, the counter equals their number, and there is one index per visit |
| Welder.WeldStepLookup | main.py:77-82 | one visit keeps every earlier visit's index and gives the new visit its key's table entry |
| Welder.WeldLookup | main.py:77-82 | each visit's index is the table entry of its key |
| Welder.WeldInverse | main.py:77-82 | the key listed at a visit's index is that visit's key, so indices and vertex list reconstruct every corner |
| Welder.WeldEqualKeys | main.py:77-82 | two visits share an index exactly when their rounded keys are equal |
| Welder.WeldStepExtends | main.py:77-82 | a visit only appends: earlier indices, first-seen order and table entries are unchanged |
| Welder.WeldPrefix | main.py:66-82 | welding a prefix of the visits gives a prefix of the indices and order, and a sub-table of the final table |
| Welder.WeldFirstSeen | main.py:79-82 | a visit whose key is new gets the number of distinct keys seen before it |
| Welder.WeldLastIndexUsed | main.py:79-82 | with any visit, the largest index `V - 1` is used by some visit |
| Welder.ExtendContains | main.py:84-90 | updating the six bounds with a point keeps every point already inside and adds the new one |
| Welder.ExtendBound | main.py:84-90 | each updated bound is the old bound or the point's coordinate, and moves only outward |
| Welder.BoxOfContainsVisits | main.py:56-90 | with no visits the bounds are the sentinels ±9999999; otherwise every visit lies inside the bounds |
| Welder.BoxHoldsVertex | main.py:84-90 | every welded vertex lies inside the bounds |
| Welder.BoxOfAttained | main.py:56-90 | each bound is its sentinel or some visit's coordinate |
| Welder.ExactBoxContainsVisits | main.py:84-90 | the corrected box (no sentinels) holds every visit |
| Welder.ExactBoxAttained | main.py:84-90 | each bound of the corrected box is attained by some visit |
| Welder.BoxOfExactWithinSentinels | main.py:56-58 | when every coordinate lies within ±9999999, the source's bounds equal the corrected box |
| Welder.SentinelClampsFarFacet | main.py:56-58 | one facet with all coordinates 2 × 9999999: the source's minimum stays 9999999, which no vertex has; the corrected minimum is the facet's point |
| Welder.WeldRecord | main.py:67-90 | the inner loop over `j = 3, 6, 9` advances the dictionary, index list, counter and six bounds by exactly the record's three visits |
| Welder.WeldVertices | main.py:56-90 | the nested loop returns `Weld(visits)`'s table, indices and counter, and `BoxOf(visits)` as the six bounds |
| Welder.ListVertices | main.py:153-154 | inverting a dense table and listing `0 .. number_vertices-1` gives the keys in first-seen order; each listed key maps back to its position |
| BinaryPacker.AlignTo4 | main.py:95 | `(n + 3) & ~3` is the least multiple of 4 that is at least `n` |
| BinaryPacker.IndicesByteLengthExact | main.py:94-95 | four-byte indices need no padding: `indices_bytelength` = 4 × `len(indices)` |
| BinaryPacker.OutBinByteLengthAligned | main.py:93-97 | `out_bin_bytelength` is a multiple of 4 |
| BinaryPacker.PackWords | main.py:158 | packing `n` fixed-width fields gives `4n` bytes |
| BinaryPacker.PackWordsAt | main.py:158 | field `k` occupies bytes `4k .. 4k+4` |
| BinaryPacker.Flatten | main.py:155 | flattening gives three coordinates per vertex |
| BinaryPacker.FlattenAt | main.py:155 | entry `3v + a` is coordinate `a` of vertex `v` |
| BinaryPacker.PackedIndexAt | main.py:158 | index `k` decodes from bytes `4k .. 4k+4` of the packed indices, whatever follows |
| BinaryPacker.PackedCoordAt | main.py:155-166 | coordinate `a` of vertex `v` is the word at `12v + 4a` of the packed vertex section |
| BinaryPacker.AppendPadding | main.py:161-162 | the padding loop keeps the prefix and appends exactly `count` spaces |
| BinaryPacker.PackBuffer | main.py:150-166 | `glb_out` has length `out_bin_bytelength`. Index `k` decodes from byte `4k`, and padding bytes are spaces. The packed coordinate `a` of vertex `v` sits at `indices_bytelength + 12v + 4a` |
| Gltf.BuildDocument | main.py:92-147 | the `gltf2` document is consistent: every reference resolves, the two buffer views lie back to back and cover a buffer of 4 bytes per index plus 12 per vertex, and each accessor starts aligned to its component size and reads only bytes of its own view |
| Gltf.BuildDocumentConsistent | main.py:104-144 | the primitive's index accessor reads the element-array view as `UNSIGNED_INT`, counts every index and has bounds `[0, V-1]`; its position accessor reads the vertex-array view as `FLOAT`, counts every vertex and carries the six bounds |
| Gltf.DocumentLocatesIndices | main.py:112-135 | reading element `k` of the index accessor at its declared offset gives index `k` |
| Gltf.DocumentLocatesPositions | main.py:112-144 | reading component `a` of element `v` of the position accessor gives the packed coordinate `a` of vertex `v` |
| Gltf.DocumentFollowsIndex | main.py:104-144 | following index `k` from the index accessor to the position accessor reaches the packed coordinate of vertex `indices[k]` |
| Glb.PadCount | main.py:193-194 | `(4 - n % 4) % 4` is below 4 and makes `n` a multiple of 4 |
| Glb.PadChunk | main.py:193-194 | a padded chunk is `PadCount` bytes longer |
| Glb.PadChunkAligned | main.py:193-194 | the padded chunk is the chunk plus fewer than 4 spaces, 4-aligned, and unchanged when already aligned |
| Glb.CreateGlbFile | main.py:188-220 | fails exactly when the total length does not fit `<I`, reporting that total; otherwise the container has the declared total length |
| Glb.ParseGlb | main.py:188-220 | an accepted container has 4-aligned chunks and a total length of 28 bytes plus the two chunks |
| Glb.GlbFields | main.py:196-218 | the written container, field by field: bytes 0-12 are the `<I` magic 0x46546C67, version 2 and the container's actual length; bytes 12-20 the padded JSON length and type 0x4E4F534A; then the padded JSON; then the padded BIN length and type 0x004E4942; then the padded BIN data, which ends the container |
| Glb.GlbRoundTrip | main.py:188-220 | reading the written container gives back the padded JSON chunk and the padded BIN chunk |
| Glb.GlbBinChunkAt | main.py:212-220 | the BIN data is the container's tail after 28 bytes and the padded JSON |
| Converter.ReplaceQuotes | main.py:170 | same length; each single quote becomes a double quote and every other byte stays; no single quote is left |
| Converter.IndicesInRange | main.py:158 | some index is out of `<I` range exactly when there are more than 2^32 distinct vertices |
| Converter.IndexBoundsHold | main.py:131-134 | every index lies in the index accessor's `[min, max]`, and with any facet the maximum is attained |
| Converter.PositionBoundsHold | main.py:140-143 | every vertex lies within the position accessor's `min` and `max` |
| Converter.PositionBoundsExact | main.py:142-143 | with every coordinate within ±9999999, the position bounds are the corrected (exact) box |
| Converter.VisitFromFile | main.py:44-75 | visit `3n + c` has, on axis `a`, the rounding of the float at byte 84 + 50 n + 12 + 12 c + 4 a of the file |
| Converter.CornerVertex | main.py:44-82 | corner `c` of facet `n` is welded to a vertex whose coordinates are that corner's rounded floats |
| Converter.MeshRoundTrip | main.py:23-166 | end to end: a loader that follows index `3n + c` to the position accessor reads the packed rounding of corner `c` of facet `n` |
| Converter.ContainerChunks | main.py:168-171 | the container's chunks read back as the quote-replaced text, padded, and the buffer unpadded |
| Converter.ContainerResult | main.py:168-177 | `"custom-glb"` fails only on the total length (`LengthOutOfRange(total)`); otherwise its chunks read back as the padded JSON and the buffer |
| Converter.StlToGltfCustom | main.py:23-185 | a reader failure is returned as `StlFailed`, and `IndexOutOfRange` arises exactly when there are more than 2^32 vertices. `"custom"` succeeds otherwise, with the document's text and a buffer in the declared layout. `"custom-glb"` fails exactly when the container is too long; otherwise its chunks hold the padded JSON and a buffer in that layout |

## Left out

- The FastAPI application, its CORS set-up, the upload endpoints, the 10 MB limit and exception-to-HTTP mapping are not part of this model; only the conversion itself is.
- The `trimesh`-based converter and `worker.py` are not part of this model.
- Floating point: `round(x, 5)`, the packing of a float with `'f'` (native byte order), NaN and infinities are the parameters `round5` and `f32`. Rounding is assumed to give a number; a NaN key, which would never compare equal to itself in a dictionary, is not modelled.
- Converter.MeshRoundTrip: the sign of a zero coordinate is not modelled. `round(x, 5)` gives -0.0 for a coordinate in (-0.000005, 0]; the dictionary treats -0.0 and 0.0 as the same key and keeps the float of the first visit, and packing writes that float's sign bit. Keys here are integers, so `f32(0)` is one word, and the byte-level statements of this lemma and of Converter.StlToGltfCustom hold for the source only up to the sign of a zero coordinate.
- The JSON text: `str(gltf2)` is the parameter `toText`. Its content and the fact that Python's `repr` is not always valid JSON are not modelled; only the quote replacement applied to it is.
- `base64` encoding, the `uuid` file names and the keys of the returned dictionary are left out; the result is the raw text and bytes.
- Welder.WeldVertices: the six bounds are returned as one `Box` value rather than six variables.
- Converter.StlToGltfCustom: `IndexOutOfRange` carries some index that is out of range, and which one is not stated; the source's `struct.error` carries only a message.
- Integer width: counts and lengths are unbounded integers. The source's own overflow points are modelled as errors: an index ≥ 2^32 and a GLB total ≥ 2^32.

## Findings

| source | as written | input that shows it | evidently intended | confidence | as-written member | corrected member |
|---|---|---|---|---|---|---|
| main.py:56-90 | the bounds start at ±9999999 and are only narrowed by `min`/`max`, so a coordinate beyond ±9999999 on the sentinel's side never replaces the sentinel | one facet whose three corners are all (19999998, 19999998, 19999998): the position accessor's `min` is 9999999 on every axis, a value no vertex has | `min`/`max` of the position accessor are the exact bounds of the vertices, as glTF requires | not executed | Welder.BoxOf, Welder.SentinelClampsFarFacet | Welder.ExactBox, Welder.ExactBoxContainsVisits, Welder.ExactBoxAttained, Welder.BoxOfExactWithinSentinels, Converter.PositionBoundsExact |

The converter model keeps the as-written bounds, so that it does what the source does. The corrected box is proved exact and attained. It is also proved equal to the as-written bounds, and so to the document's, whenever every coordinate lies within ±9999999.
