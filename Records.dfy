/** The 12-byte spatial record shared by the tessellation output, the combine
    input and the combine output: the raw 64-bit cell id in little-endian
    order, then the four little-endian bytes of an f32 value. The value is kept
    as its 32-bit pattern, so encoding and decoding are exact. */
module Records {
  import opened ByteOrder

  const RECORD_SIZE: nat := 12

  /** One (raw cell id, f32 bit pattern) pair. */
  datatype Record = Record(id: uint64, bits: uint32)

  /** The bytes a writer emits for one record. */
  function EncodeRecord(r: Record): (bs: seq<uint8>)
    ensures |bs| == RECORD_SIZE
    ensures ReadU64(bs[..8]) == r.id && ReadU32(bs[8..]) == r.bits
  {
    var bs := U64Bytes(r.id) + U32Bytes(r.bits);
    assert bs[..8] == U64Bytes(r.id) && bs[8..] == U32Bytes(r.bits);
    ReadU64OfU64Bytes(r.id);
    ReadU32OfU32Bytes(r.bits);
    bs
  }

  /** The record a reader takes from 12 bytes: the id from bytes 0..8, the
      value bits from bytes 8..12. */
  function DecodeRecord(bs: seq<uint8>): (r: Record)
    requires |bs| == RECORD_SIZE
    ensures EncodeRecord(r) == bs
  {
    var r := Record(ReadU64(bs[..8]), ReadU32(bs[8..]));
    assert bs == bs[..8] + bs[8..];
    r
  }

  lemma DecodeEncodeRecord(r: Record)
    ensures DecodeRecord(EncodeRecord(r)) == r
  {
  }

  /** A stream of records: their encodings back to back, with no header and no count. */
  function EncodeRecords(rs: seq<Record>): (bs: seq<uint8>)
    ensures |bs| == RECORD_SIZE * |rs|
  {
    if |rs| == 0 then [] else EncodeRecord(rs[0]) + EncodeRecords(rs[1..])
  }

  /** Writing two batches one after the other writes their concatenation. */
  lemma {:induction false} EncodeRecordsAppend(a: seq<Record>, b: seq<Record>)
    ensures EncodeRecords(a + b) == EncodeRecords(a) + EncodeRecords(b)
  {
    if |a| == 0 {
      assert a + b == b;
    } else {
      assert (a + b)[1..] == a[1..] + b;
      EncodeRecordsAppend(a[1..], b);
    }
  }

  /** Writing one more record appends its twelve bytes. */
  lemma EncodeRecordsSnoc(rs: seq<Record>, k: nat)
    requires k < |rs|
    ensures EncodeRecords(rs[..k + 1]) == EncodeRecords(rs[..k]) + U64Bytes(rs[k].id) + U32Bytes(rs[k].bits)
  {
    EncodeRecordsAppend(rs[..k], [rs[k]]);
    assert rs[..k + 1] == rs[..k] + [rs[k]];
    assert EncodeRecords([rs[k]]) == EncodeRecord(rs[k]) + EncodeRecords([]);
  }

  /** Record i of a stream occupies bytes 12i..12i+12 and decodes back to rs[i]. */
  lemma {:induction false} EncodeRecordsAt(rs: seq<Record>, i: nat)
    requires i < |rs|
    ensures EncodeRecords(rs)[RECORD_SIZE * i..RECORD_SIZE * i + RECORD_SIZE] == EncodeRecord(rs[i])
  {
    if i > 0 {
      EncodeRecordsAt(rs[1..], i - 1);
      var tail := EncodeRecords(rs[1..]);
      assert EncodeRecords(rs) == EncodeRecord(rs[0]) + tail;
      assert EncodeRecords(rs)[RECORD_SIZE * i..RECORD_SIZE * i + RECORD_SIZE]
          == tail[RECORD_SIZE * (i - 1)..RECORD_SIZE * (i - 1) + RECORD_SIZE];
    }
  }
}
