/** What the combine reader promises about a byte stream: which bytes become
    which inserted records, how the stream's tail is classified, and that what
    the writers emit reads back unchanged. */
module CombineFacts {
  import opened Wrappers
  import opened ByteOrder
  import opened Records
  import opened Combine

  /** The complete 12-byte records at the front of a stream, ignoring any tail
      shorter than a record. */
  function CompleteRecords(bs: seq<uint8>): (rs: seq<Record>)
    ensures |rs| == |bs| / RECORD_SIZE
    decreases |bs|
  {
    if |bs| < RECORD_SIZE then []
    else [DecodeRecord(bs[..RECORD_SIZE])] + CompleteRecords(bs[RECORD_SIZE..])
  }

  /** Record i of a stream: the id is the LE u64 of bytes 12i..12i+8 and the
      value bits are the LE u32 of bytes 12i+8..12i+12. */
  lemma {:induction false} CompleteRecordAt(bs: seq<uint8>, i: nat)
    requires i < |bs| / RECORD_SIZE
    ensures CompleteRecords(bs)[i].id == ReadU64(bs[RECORD_SIZE * i..RECORD_SIZE * i + 8])
    ensures CompleteRecords(bs)[i].bits == ReadU32(bs[RECORD_SIZE * i + 8..RECORD_SIZE * i + RECORD_SIZE])
  {
    RecordAtOffset(bs, i, RECORD_SIZE * i);
  }

  /** CompleteRecordAt with the record's byte offset named, so that each step
      of the induction moves the offset by one record. */
  lemma {:induction false} RecordAtOffset(bs: seq<uint8>, i: nat, off: nat)
    requires i < |bs| / RECORD_SIZE && off == RECORD_SIZE * i
    ensures off + RECORD_SIZE <= |bs|
    ensures CompleteRecords(bs)[i].id == ReadU64(bs[off..off + 8])
    ensures CompleteRecords(bs)[i].bits == ReadU32(bs[off + 8..off + RECORD_SIZE])
    decreases i
  {
    var first := bs[..RECORD_SIZE];
    var rest := bs[RECORD_SIZE..];
    assert CompleteRecords(bs) == [DecodeRecord(first)] + CompleteRecords(rest);
    if i == 0 {
      assert first[..8] == bs[0..8];
      assert first[8..] == bs[8..RECORD_SIZE];
    } else {
      RecordAtOffset(rest, i - 1, off - RECORD_SIZE);
      SliceShift(bs, RECORD_SIZE, off - RECORD_SIZE, off - RECORD_SIZE + 8);
      SliceShift(bs, RECORD_SIZE, off - RECORD_SIZE + 8, off);
    }
  }

  /** Slicing after dropping d elements is slicing d further on. */
  lemma SliceShift<T>(s: seq<T>, d: nat, a: nat, b: nat)
    requires d <= |s| && a <= b <= |s| - d
    ensures s[d..][a..b] == s[d + a..d + b]
  {
  }

  /** Every record in rs names a valid cell. */
  ghost predicate IdsValid(rs: seq<Record>, valid: uint64 -> bool)
  {
    forall i :: 0 <= i < |rs| ==> valid(rs[i].id)
  }

  /** A source decodes successfully exactly when its tail is shorter than 8 bytes
      and every complete record names a valid cell; it then inserts exactly its
      complete records, in stream order. A trailing 1 to 7 bytes is dropped. */
  lemma {:induction false} DecodeSourceOk(bs: seq<uint8>, valid: uint64 -> bool)
    ensures DecodeSource(bs, valid).Ok? <==> |bs| % RECORD_SIZE < 8 && IdsValid(CompleteRecords(bs), valid)
    ensures DecodeSource(bs, valid).Ok? ==> DecodeSource(bs, valid).value == CompleteRecords(bs)
    decreases |bs|
  {
    if |bs| >= RECORD_SIZE {
      DecodeSourceOk(bs[RECORD_SIZE..], valid);
      SplitFirstRecord(bs, valid);
    }
  }

  /** A stream of at least one record: its first complete record, then those
      of the rest, with the same tail length. */
  lemma SplitFirstRecord(bs: seq<uint8>, valid: uint64 -> bool)
    requires |bs| >= RECORD_SIZE
    ensures |bs[RECORD_SIZE..]| % RECORD_SIZE == |bs| % RECORD_SIZE
    ensures CompleteRecords(bs) == [DecodeRecord(bs[..RECORD_SIZE])] + CompleteRecords(bs[RECORD_SIZE..])
    ensures IdsValid(CompleteRecords(bs), valid)
        <==> valid(DecodeRecord(bs[..RECORD_SIZE]).id) && IdsValid(CompleteRecords(bs[RECORD_SIZE..]), valid)
  {
    var all, rest := CompleteRecords(bs), CompleteRecords(bs[RECORD_SIZE..]);
    assert forall i :: 0 <= i < |rest| ==> rest[i] == all[i + 1];
    if IdsValid(all, valid) {
      assert valid(all[0].id);
    } else if valid(all[0].id) {
      var i :| 0 <= i < |all| && !valid(all[i].id);
      assert !valid(rest[i - 1].id);
    }
  }

  /** A source whose records all name valid cells but which ends 8 to 11 bytes
      after its last complete record aborts with TruncatedRecord, and that is
      the only way to get it. */
  lemma {:induction false} DecodeSourceTruncated(bs: seq<uint8>, valid: uint64 -> bool)
    ensures DecodeSource(bs, valid) == Err(TruncatedRecord)
        <==> |bs| % RECORD_SIZE >= 8 && IdsValid(CompleteRecords(bs), valid)
    decreases |bs|
  {
    if |bs| >= RECORD_SIZE {
      DecodeSourceTruncated(bs[RECORD_SIZE..], valid);
      SplitFirstRecord(bs, valid);
    }
  }

  /** The first complete record whose id is not a cell aborts the source with
      InvalidCell of that id, whatever follows it. */
  lemma {:induction false} DecodeSourceInvalid(bs: seq<uint8>, valid: uint64 -> bool, k: nat)
    requires k < |bs| / RECORD_SIZE
    requires IdsValid(CompleteRecords(bs)[..k], valid)
    requires !valid(CompleteRecords(bs)[k].id)
    ensures DecodeSource(bs, valid) == Err(InvalidCell(CompleteRecords(bs)[k].id))
    decreases k
  {
    var rest := bs[RECORD_SIZE..];
    assert CompleteRecords(bs) == [DecodeRecord(bs[..RECORD_SIZE])] + CompleteRecords(rest);
    if k > 0 {
      assert CompleteRecords(bs)[..k][0] == CompleteRecords(bs)[0];
      assert CompleteRecords(rest)[..k - 1] == CompleteRecords(bs)[..k][1..];
      DecodeSourceInvalid(rest, valid, k - 1);
    }
  }

  /** A source made of whole records followed by a tail shorter than a record:
      with valid ids it inserts exactly those records when the tail has at most
      7 bytes and aborts with TruncatedRecord when it has 8 to 11; otherwise it
      fails with the first invalid id. */
  lemma {:induction false} DecodeEncodedRecords(rs: seq<Record>, tail: seq<uint8>, valid: uint64 -> bool)
    requires |tail| < RECORD_SIZE
    ensures IdsValid(rs, valid) ==>
              DecodeSource(EncodeRecords(rs) + tail, valid) == if |tail| < 8 then Ok(rs) else Err(TruncatedRecord)
    ensures forall k :: 0 <= k < |rs| && IdsValid(rs[..k], valid) && !valid(rs[k].id)
                 ==> DecodeSource(EncodeRecords(rs) + tail, valid) == Err(InvalidCell(rs[k].id))
  {
    if |rs| > 0 {
      var bs := EncodeRecords(rs) + tail;
      var rest := EncodeRecords(rs[1..]) + tail;
      assert bs == EncodeRecord(rs[0]) + rest;
      assert bs[..RECORD_SIZE] == EncodeRecord(rs[0]) && bs[RECORD_SIZE..] == rest;
      DecodeEncodedRecords(rs[1..], tail, valid);
      assert DecodeRecord(bs[..RECORD_SIZE]) == rs[0];
      if IdsValid(rs, valid) {
        assert IdsValid(rs[1..], valid) by {
          forall i | 0 <= i < |rs[1..]| ensures valid(rs[1..][i].id) {
            assert rs[1..][i] == rs[i + 1];
          }
        }
        assert [rs[0]] + rs[1..] == rs;
      }
      forall k | 0 <= k < |rs| && IdsValid(rs[..k], valid) && !valid(rs[k].id)
        ensures DecodeSource(bs, valid) == Err(InvalidCell(rs[k].id))
      {
        if k > 0 {
          assert rs[..k][0] == rs[0];
          assert rs[1..][..k - 1] == rs[..k][1..];
          assert rs[1..][k - 1] == rs[k];
        }
      }
    } else {
      assert EncodeRecords(rs) + tail == tail;
    }
  }

  /** The combine writer's output reads back as exactly the entries written, in
      order, and only when every entry's id is a valid cell. */
  lemma WrittenEntriesReadBack(entries: seq<Record>, valid: uint64 -> bool)
    ensures DecodeSource(EncodeRecords(entries), valid).Ok? <==> IdsValid(entries, valid)
    ensures IdsValid(entries, valid) ==> DecodeSource(EncodeRecords(entries), valid) == Ok(entries)
  {
    DecodeEncodedRecords(entries, [], valid);
    assert EncodeRecords(entries) + [] == EncodeRecords(entries);
    if !IdsValid(entries, valid) {
      var k := FirstInvalidExists(entries, valid);
    }
  }

  /** The position of the first record whose id is not a valid cell. */
  lemma {:induction false} FirstInvalidExists(rs: seq<Record>, valid: uint64 -> bool) returns (k: nat)
    requires !IdsValid(rs, valid)
    ensures k < |rs| && IdsValid(rs[..k], valid) && !valid(rs[k].id)
  {
    if valid(rs[0].id) {
      assert !IdsValid(rs[1..], valid) by {
        var i :| 0 <= i < |rs| && !valid(rs[i].id);
        assert rs[1..][i - 1] == rs[i];
      }
      var j := FirstInvalidExists(rs[1..], valid);
      k := j + 1;
      assert forall i :: 0 <= i < k ==> rs[..k][i] == (if i == 0 then rs[0] else rs[1..][..j][i - 1]);
    } else {
      k := 0;
    }
  }

  /** Sources are read one after another: every record of the earlier sources is
      inserted before any record of the later ones, and an error in an earlier
      source stops `combine` before a later source is read. */
  lemma {:induction false} CombineLogAppend(first: seq<seq<uint8>>, later: seq<seq<uint8>>, valid: uint64 -> bool)
    ensures CombineLog(first + later, valid)
         == match CombineLog(first, valid)
            case Err(e) => Err(e)
            case Ok(log) => Then(log, CombineLog(later, valid))
    decreases |later|
  {
    if |later| == 0 {
      assert first + later == first;
      if CombineLog(first, valid).Ok? {
        assert CombineLog(first, valid).value + [] == CombineLog(first, valid).value;
      }
    } else {
      var n := |later| - 1;
      var x := later[n];
      SplitLast(first, later);
      CombineLogSnoc(first + later[..n], x, first + later, valid);
      CombineLogSnoc(later[..n], x, later, valid);
      CombineLogAppend(first, later[..n], valid);
      if CombineLog(first, valid).Ok? && CombineLog(later[..n], valid).Ok? {
        ThenThen(CombineLog(first, valid).value, CombineLog(later[..n], valid).value, DecodeSource(x, valid));
      }
    }
  }

  /** One more source: its records follow those of the sources before it,
      unless those already failed. */
  lemma CombineLogSnoc(front: seq<seq<uint8>>, x: seq<uint8>, whole: seq<seq<uint8>>, valid: uint64 -> bool)
    requires whole == front + [x]
    ensures CombineLog(whole, valid)
         == match CombineLog(front, valid)
            case Err(e) => Err(e)
            case Ok(log) => Then(log, DecodeSource(x, valid))
  {
    assert whole[..|whole| - 1] == front;
  }

  lemma SplitLast<T>(a: seq<T>, b: seq<T>)
    requires |b| > 0
    ensures a + b == (a + b[..|b| - 1]) + [b[|b| - 1]]
    ensures b == b[..|b| - 1] + [b[|b| - 1]]
  {
  }

  /** Combining a single source inserts what that source decodes to. */
  lemma CombineLogSingle(bs: seq<uint8>, valid: uint64 -> bool)
    ensures CombineLog([bs], valid) == DecodeSource(bs, valid)
  {
    assert [bs][..0] == [];
    if DecodeSource(bs, valid).Ok? {
      assert [] + DecodeSource(bs, valid).value == DecodeSource(bs, valid).value;
    }
  }

  /** Feeding the combine output back to `combine` as its only source inserts
      the written entries again, in the order they were written. */
  lemma CombineOutputReadsBack(entries: seq<Record>, valid: uint64 -> bool)
    requires IdsValid(entries, valid)
    ensures CombineLog([EncodeRecords(entries)], valid) == Ok(entries)
  {
    CombineLogSingle(EncodeRecords(entries), valid);
    WrittenEntriesReadBack(entries, valid);
  }
}
