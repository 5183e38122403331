/**
 * `_create_glb_file`: the binary glTF container of chapter 4 ("GLB File
 * Format Specification") of glTF 2.0 — a 12-byte header (magic, version,
 * total length), then a JSON chunk and a BIN chunk, each an 8-byte chunk
 * header (length, type) followed by its data padded with spaces to a
 * multiple of 4 bytes.
 *
 * A reader `ParseGlb` is the writer's partner: it accepts a container only
 * when every header field is consistent, and gives back the two padded chunks.
 */
module Glb {
  import opened Bytes
  import opened Results

  /** "glTF" read as a little-endian uint32. */
  const GLB_MAGIC: U32 := 0x46546C67
  const GLB_VERSION: U32 := 2
  /** "JSON" and "BIN\0" read as little-endian uint32. */
  const CHUNK_JSON: U32 := 0x4E4F534A
  const CHUNK_BIN: U32 := 0x004E4942

  const GLB_HEADER_BYTES: nat := 12
  const CHUNK_HEADER_BYTES: nat := 8

  /** The filler `b' '`. */
  const SPACE: Byte := 0x20

  datatype GlbError =
      /** The total length does not fit the header's `<I` field: `struct.pack` raises `struct.error`. */
    | LengthOutOfRange(total: nat)

  /** `(4 - n % 4) % 4` spaces: the fewest that make `n` a multiple of 4. */
  function PadCount(n: nat): (r: nat)
    ensures r < 4 && (n + r) % 4 == 0
  {
    (4 - n % 4) % 4
  }

  /** A chunk followed by its filler spaces. */
  function PadChunk(chunk: seq<Byte>): (r: seq<Byte>)
    ensures |r| == |chunk| + PadCount(|chunk|)
  {
    chunk + seq(PadCount(|chunk|), _ => SPACE)
  }

  /**
   * The padded chunk is the shortest 4-aligned extension of the chunk by
   * spaces: it starts with the chunk, adds fewer than 4 bytes, all spaces,
   * and adds none when the chunk is aligned already.
   */
  lemma PadChunkAligned(chunk: seq<Byte>)
    ensures var r := PadChunk(chunk);
            && |r| % 4 == 0 && |chunk| <= |r| < |chunk| + 4
            && r[..|chunk|] == chunk
            && (forall p :: |chunk| <= p < |r| ==> r[p] == SPACE)
            && (|chunk| % 4 == 0 ==> r == chunk)
  {
    var r := PadChunk(chunk);
    assert r[..|chunk|] == chunk;
    if |chunk| % 4 == 0 {
      assert PadCount(|chunk|) == 0;
      assert r == chunk;
    }
  }

  /** The total length the header declares for two padded chunks. */
  function GlbLength(jsonPadded: nat, binPadded: nat): nat
  {
    GLB_HEADER_BYTES + CHUNK_HEADER_BYTES + jsonPadded + CHUNK_HEADER_BYTES + binPadded
  }

  /**
   * The whole container for `json` and `bin`, or `LengthOutOfRange` when its
   * length does not fit a uint32. The two chunk lengths are smaller than the
   * total, so the total is the only field that can be out of range.
   */
  function CreateGlbFile(json: seq<Byte>, bin: seq<Byte>): (r: Result<seq<Byte>, GlbError>)
    ensures var total := GlbLength(|PadChunk(json)|, |PadChunk(bin)|);
            && (r.Err? <==> total >= U32_LIMIT)
            && (r.Err? ==> r.error == LengthOutOfRange(total))
            && (r.Ok? ==> |r.value| == total)
  {
    var jsonChunkPadded := PadChunk(json);
    var binChunkPadded := PadChunk(bin);
    var total := GlbLength(|jsonChunkPadded|, |binChunkPadded|);
    if total >= U32_LIMIT then
      Err(LengthOutOfRange(total))
    else
      var glbHeader := U32ToLe(GLB_MAGIC) + U32ToLe(GLB_VERSION) + U32ToLe(total);
      var jsonChunkHeader := U32ToLe(|jsonChunkPadded|) + U32ToLe(CHUNK_JSON);
      var binChunkHeader := U32ToLe(|binChunkPadded|) + U32ToLe(CHUNK_BIN);
      Ok(glbHeader + jsonChunkHeader + jsonChunkPadded + binChunkHeader + binChunkPadded)
  }

  /** The uint32 stored little-endian at `at`. */
  function U32At(s: seq<Byte>, at: nat): U32
    requires at + 4 <= |s|
  {
    LeToU32(s[at..at + 4])
  }

  /**
   * A reader for what the writer produces: a JSON chunk and then a BIN
   * chunk, each declared with a 4-aligned length, and a declared total equal
   * to the actual length. Anything else is rejected.
   */
  function ParseGlb(glb: seq<Byte>): (r: Option<(seq<Byte>, seq<Byte>)>)
    ensures r.Some? ==> |r.value.0| % 4 == 0 && |r.value.1| % 4 == 0
    ensures r.Some? ==> |glb| == GlbLength(|r.value.0|, |r.value.1|)
  {
    if |glb| < GLB_HEADER_BYTES + CHUNK_HEADER_BYTES then None
    else if U32At(glb, 0) != GLB_MAGIC || U32At(glb, 4) != GLB_VERSION || U32At(glb, 8) != |glb| then None
    else
      var jsonLength := U32At(glb, 12);
      var jsonEnd := GLB_HEADER_BYTES + CHUNK_HEADER_BYTES + jsonLength;
      if U32At(glb, 16) != CHUNK_JSON || jsonLength % 4 != 0 || jsonEnd + CHUNK_HEADER_BYTES > |glb| then None
      else
        var binLength := U32At(glb, jsonEnd);
        if U32At(glb, jsonEnd + 4) != CHUNK_BIN || binLength % 4 != 0
           || jsonEnd + CHUNK_HEADER_BYTES + binLength != |glb| then None
        else
          Some((glb[GLB_HEADER_BYTES + CHUNK_HEADER_BYTES..jsonEnd], glb[jsonEnd + CHUNK_HEADER_BYTES..]))
  }

  /** The written container, field by field: header, JSON chunk header and data, BIN chunk header and data. */
  lemma GlbFields(json: seq<Byte>, bin: seq<Byte>)
    requires GlbLength(|json| + PadCount(|json|), |bin| + PadCount(|bin|)) < U32_LIMIT
    ensures var glb, jp, bp := CreateGlbFile(json, bin).value, PadChunk(json), PadChunk(bin);
            var jsonEnd := GLB_HEADER_BYTES + CHUNK_HEADER_BYTES + |jp|;
            && |glb| == jsonEnd + CHUNK_HEADER_BYTES + |bp|
            && glb[0..4] == U32ToLe(GLB_MAGIC) && glb[4..8] == U32ToLe(GLB_VERSION)
            && glb[8..12] == U32ToLe(|glb|)
            && glb[12..16] == U32ToLe(|jp|) && glb[16..20] == U32ToLe(CHUNK_JSON)
            && glb[20..jsonEnd] == jp
            && glb[jsonEnd..jsonEnd + 4] == U32ToLe(|bp|) && glb[jsonEnd + 4..jsonEnd + 8] == U32ToLe(CHUNK_BIN)
            && glb[jsonEnd + 8..] == bp
  {
  }

  /**
   * Reading back what `_create_glb_file` wrote gives the two padded chunks,
   * and so, up to the trailing spaces, the JSON text and the binary buffer.
   */
  lemma GlbRoundTrip(json: seq<Byte>, bin: seq<Byte>)
    requires GlbLength(|json| + PadCount(|json|), |bin| + PadCount(|bin|)) < U32_LIMIT
    ensures ParseGlb(CreateGlbFile(json, bin).value) == Some((PadChunk(json), PadChunk(bin)))
  {
    var glb := CreateGlbFile(json, bin).value;
    var jp, bp := PadChunk(json), PadChunk(bin);
    GlbFields(json, bin);
    LeToU32Inverts(GLB_MAGIC);
    LeToU32Inverts(GLB_VERSION);
    LeToU32Inverts(|glb|);
    LeToU32Inverts(|jp|);
    LeToU32Inverts(CHUNK_JSON);
    LeToU32Inverts(|bp|);
    LeToU32Inverts(CHUNK_BIN);
  }

  /** Where the BIN chunk's data starts in a written container. */
  lemma GlbBinChunkAt(json: seq<Byte>, bin: seq<Byte>)
    requires GlbLength(|json| + PadCount(|json|), |bin| + PadCount(|bin|)) < U32_LIMIT
    ensures var glb, start := CreateGlbFile(json, bin).value, GLB_HEADER_BYTES + 2 * CHUNK_HEADER_BYTES + |PadChunk(json)|;
            start + |PadChunk(bin)| == |glb| && glb[start..] == PadChunk(bin)
  {
    GlbRoundTrip(json, bin);
  }
}
