/**
 * The binary STL reader at the top of `stl_to_gltf_custom`: skip the
 * 80-byte header, read the little-endian facet count, check the size and
 * unpack every 50-byte facet record as `"12fH"`.
 *
 * A float field is kept as its 32-bit pattern (a `U32`): what it means as a
 * number is left to the welder's rounding parameter.
 */
module StlReader {
  import opened Bytes
  import opened Results

  const HEADER_BYTES: nat := 80

  /** Where the facet records start: the header plus the facet count, 80 + 4 bytes. */
  const RECORDS_START: nat := 84

  /** One record: the normal, three vertices and the attribute spacer, 12 + 3 * 12 + 2 bytes. */
  const RECORD_BYTES: nat := 50

  /** `"12fH"` unpacks to twelve floats and one unsigned short. */
  const RECORD_VALUES: nat := 13

  datatype StlError =
      /** Fewer than 4 bytes after the header: unpacking the count raises `struct.error`. */
    | CountUnreadable(actual: nat)
      /** The declared facets need more bytes than there are: the `ValueError`. */
    | IllFormatted(expected: nat, actual: nat)
      /** Bytes after the last facet: the record unpack needs an exact length and raises `struct.error`. */
    | RecordsUnreadable(expected: nat, actual: nat)

  /** The facet count stored right after the header. */
  function FacetCount(stl: seq<Byte>): U32
    requires |stl| >= RECORDS_START
  {
    LeToU32(stl[HEADER_BYTES..RECORDS_START])
  }

  /** One `"<12fH"` record: twelve float bit patterns, then the attribute. */
  function UnpackRecord(rec: seq<Byte>): (r: seq<nat>)
    requires |rec| == RECORD_BYTES
    ensures |r| == RECORD_VALUES
  {
    seq(12, i requires 0 <= i < 12 => LeToU32(rec[4 * i..4 * i + 4])) + [LeToU16(rec[48..50])]
  }

  /** `struct.unpack("<" + "12fH" * count, body)`, record after record. */
  function UnpackRecords(body: seq<Byte>, count: nat): (r: seq<nat>)
    requires |body| == RECORD_BYTES * count
    ensures |r| == RECORD_VALUES * count
  {
    if count == 0 then []
    else UnpackRecord(body[..RECORD_BYTES]) + UnpackRecords(body[RECORD_BYTES..], count - 1)
  }

  /** The value of a field as `struct` decodes it from its bytes in a record. */
  function FieldValue(rec: seq<Byte>, p: nat): nat
    requires |rec| == RECORD_BYTES && p < RECORD_VALUES
  {
    if p < 12 then LeToU32(rec[4 * p..4 * p + 4]) else LeToU16(rec[48..50])
  }

  /** Value `p` of one record is field `p` decoded from its bytes. */
  lemma UnpackRecordAt(rec: seq<Byte>, p: nat)
    requires |rec| == RECORD_BYTES && p < RECORD_VALUES
    ensures UnpackRecord(rec)[p] == FieldValue(rec, p)
  {
    if p < 12 {
      assert UnpackRecord(rec)[p] == LeToU32(rec[4 * p..4 * p + 4]);
    }
  }

  /** Value `p` of record `n` comes from the bytes of field `p` of the `n`-th 50-byte record. */
  lemma {:induction false} UnpackRecordsAt(body: seq<Byte>, count: nat, n: nat, p: nat)
    requires |body| == RECORD_BYTES * count
    requires n < count && p < RECORD_VALUES
    ensures UnpackRecords(body, count)[RECORD_VALUES * n + p]
         == FieldValue(body[RECORD_BYTES * n..RECORD_BYTES * n + RECORD_BYTES], p)
  {
    var head, rest := body[..RECORD_BYTES], body[RECORD_BYTES..];
    var all := UnpackRecords(body, count);
    assert all == UnpackRecord(head) + UnpackRecords(rest, count - 1);
    if n == 0 {
      UnpackRecordAt(head, p);
    } else {
      var m := n - 1;
      UnpackRecordsAt(rest, count - 1, m, p);
      assert all[RECORD_VALUES * n + p] == UnpackRecords(rest, count - 1)[RECORD_VALUES * m + p];
      assert rest[RECORD_BYTES * m..RECORD_BYTES * m + RECORD_BYTES]
          == body[RECORD_BYTES * n..RECORD_BYTES * n + RECORD_BYTES];
    }
  }

  /**
   * The whole reader. It succeeds exactly when the input is the header,
   * the count and `count` whole records with nothing after them.
   */
  function ReadStl(stl: seq<Byte>): (r: Result<seq<nat>, StlError>)
    ensures r.Ok? <==>
              |stl| >= RECORDS_START && |stl| == RECORDS_START + RECORD_BYTES * FacetCount(stl)
    ensures r.Ok? ==> |r.value| == RECORD_VALUES * FacetCount(stl) && |r.value| % RECORD_VALUES == 0
    ensures |stl| < RECORDS_START ==> r == Err(CountUnreadable(|stl|))
    ensures |stl| >= RECORDS_START && RECORDS_START + RECORD_BYTES * FacetCount(stl) > |stl| ==>
              r == Err(IllFormatted(RECORDS_START + RECORD_BYTES * FacetCount(stl), |stl|))
    ensures |stl| >= RECORDS_START && RECORDS_START + RECORD_BYTES * FacetCount(stl) < |stl| ==>
              r.Err? && r.error.RecordsUnreadable?
  {
    if |stl| < RECORDS_START then
      Err(CountUnreadable(|stl|))
    else
      var numberFaces := FacetCount(stl);
      var stlAssumeBytes := RECORDS_START + RECORD_BYTES * numberFaces;
      if stlAssumeBytes > |stl| then
        Err(IllFormatted(stlAssumeBytes, |stl|))
      else if |stl| - RECORDS_START != RECORD_BYTES * numberFaces then
        Err(RecordsUnreadable(RECORD_BYTES * numberFaces, |stl| - RECORDS_START))
      else
        var data := UnpackRecords(stl[RECORDS_START..], numberFaces);
        assert |data| % RECORD_VALUES == 0 by {
          assert |data| == RECORD_VALUES * numberFaces;
        }
        Ok(data)
  }

  /**
   * Every unpacked value is the little-endian decoding of the bytes at its
   * place in the file: field `p` of facet `n` starts at 84 + 50 n + 4 p.
   */
  lemma ReadStlValueAt(stl: seq<Byte>, n: nat, p: nat)
    requires ReadStl(stl).Ok?
    requires n < FacetCount(stl) && p < RECORD_VALUES
    ensures var at := RECORDS_START + RECORD_BYTES * n;
            ReadStl(stl).value[RECORD_VALUES * n + p] == FieldValue(stl[at..at + RECORD_BYTES], p)
  {
    var body := stl[RECORDS_START..];
    UnpackRecordsAt(body, FacetCount(stl), n, p);
    var at := RECORDS_START + RECORD_BYTES * n;
    assert body[RECORD_BYTES * n..RECORD_BYTES * n + RECORD_BYTES] == stl[at..at + RECORD_BYTES];
  }

  /** Float field `p` of facet `n` is the little-endian word at 84 + 50 n + 4 p. */
  lemma ReadStlFloatAt(stl: seq<Byte>, n: nat, p: nat)
    requires ReadStl(stl).Ok?
    requires n < FacetCount(stl) && p < 12
    ensures var at := RECORDS_START + RECORD_BYTES * n + 4 * p;
            && RECORD_VALUES * n + p < |ReadStl(stl).value| && at + 4 <= |stl|
            && ReadStl(stl).value[RECORD_VALUES * n + p] == LeToU32(stl[at..at + 4])
  {
    var start := RECORDS_START + RECORD_BYTES * n;
    ReadStlValueAt(stl, n, p);
    assert stl[start..start + RECORD_BYTES][4 * p..4 * p + 4] == stl[start + 4 * p..start + 4 * p + 4];
  }
}
