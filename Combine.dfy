/** The `combine` command: read every source record stream in order, insert each
    record into the hex-tree map, then write the map's entries back out as one
    record stream.

    The map is kept abstract: `M` is its state, `insert` is `HexTreeMap::insert`
    (with whatever overwriting and compaction it performs) and `entries` is the
    sequence `map.iter()` yields. `valid` is `Cell::try_from` succeeding on a raw
    u64. */
module Combine {
  import opened Wrappers
  import opened ByteOrder
  import opened Records

  /** The two ways a source stream can abort `combine`. */
  datatype CombineError =
    | TruncatedRecord          // the u64 was read but the f32 hit end of file
    | InvalidCell(raw: uint64) // Cell::try_from rejected the raw id

  /** Prefix every inserted record of a successful decode with `done`. */
  function Then(done: seq<Record>, r: Result<seq<Record>, CombineError>): Result<seq<Record>, CombineError>
  {
    match r
    case Ok(rest) => Ok(done + rest)
    case Err(e) => Err(e)
  }

  /** The records one source stream inserts, in stream order, or the error that
      aborts `combine`. Fewer than 8 remaining bytes: the u64 read reports
      UnexpectedEof and the source ends cleanly. 8 to 11: the u64 read succeeds
      and the f32 read fails. 12 or more: both succeed and the id is checked. */
  function DecodeSource(bs: seq<uint8>, valid: uint64 -> bool): (r: Result<seq<Record>, CombineError>)
    ensures r.Ok? ==> |r.value| == |bs| / RECORD_SIZE && |bs| % RECORD_SIZE < 8
    decreases |bs|
  {
    if |bs| < 8 then Ok([])
    else if |bs| < RECORD_SIZE then Err(TruncatedRecord)
    else
      var r := DecodeRecord(bs[..RECORD_SIZE]);
      if !valid(r.id) then Err(InvalidCell(r.id))
      else Then([r], DecodeSource(bs[RECORD_SIZE..], valid))
  }

  lemma ThenThen(a: seq<Record>, b: seq<Record>, r: Result<seq<Record>, CombineError>)
    ensures Then(a, Then(b, r)) == Then(a + b, r)
  {
    if r.Ok? {
      assert a + (b + r.value) == (a + b) + r.value;
    }
  }

  /** The records all sources insert, source after source, or the first error. */
  function CombineLog(sources: seq<seq<uint8>>, valid: uint64 -> bool): (r: Result<seq<Record>, CombineError>)
    ensures r.Ok? <==> forall i :: 0 <= i < |sources| ==> DecodeSource(sources[i], valid).Ok?
  {
    if |sources| == 0 then Ok([])
    else
      match CombineLog(sources[..|sources| - 1], valid)
      case Err(e) => Err(e)
      case Ok(log) => Then(log, DecodeSource(sources[|sources| - 1], valid))
  }

  /** The map after inserting `log` into `m`, one record after another. */
  function InsertAll<M>(insert: (M, Record) -> M, m: M, log: seq<Record>): M
  {
    if |log| == 0 then m else insert(InsertAll(insert, m, log[..|log| - 1]), log[|log| - 1])
  }

  // ---------------------------------------------------------------------------
  // The reading loop

  /** Inserting `a + b` is inserting `a`, then `b`. */
  lemma {:induction false} InsertAllAppend<M>(insert: (M, Record) -> M, m: M, a: seq<Record>, b: seq<Record>)
    ensures InsertAll(insert, m, a + b) == InsertAll(insert, InsertAll(insert, m, a), b)
  {
    if |b| == 0 {
      assert a + b == a;
    } else {
      var b' := b[..|b| - 1];
      assert (a + b)[..|a + b| - 1] == a + b';
      InsertAllAppend(insert, m, a, b');
    }
  }

  /** The `for source in sources { … }` loop. */
  method ReadSources<M>(sources: seq<seq<uint8>>, valid: uint64 -> bool,
                        insert: (M, Record) -> M, empty: M)
    returns (r: Result<M, CombineError>)
    ensures r.Ok? <==> CombineLog(sources, valid).Ok?
    ensures r.Ok? ==> r.value == InsertAll(insert, empty, CombineLog(sources, valid).value)
    ensures r.Err? ==> r.error == CombineLog(sources, valid).error
  {
    var tree := empty;
    ghost var log: seq<Record> := [];
    var s := 0;
    while s < |sources|
      invariant 0 <= s <= |sources|
      invariant CombineLog(sources[..s], valid) == Ok(log)
      invariant tree == InsertAll(insert, empty, log)
    {
      var res := ReadSource(sources[s], valid, insert, tree);
      assert sources[..s + 1][..s] == sources[..s];
      if res.Err? {
        forall i | 0 <= i < s ensures DecodeSource(sources[i], valid).Ok? {
          assert sources[..s][i] == sources[i];
        }
        CombineLogFails(sources, s + 1, valid);
        return Err(res.error);
      }
      InsertAllAppend(insert, empty, log, DecodeSource(sources[s], valid).value);
      log := log + DecodeSource(sources[s], valid).value;
      tree := res.value;
      s := s + 1;
    }
    assert sources[..s] == sources;
    r := Ok(tree);
  }

  /** The `loop { match (rdr.read_u64(), rdr.read_f32()) … }` over one source,
      inserting into the map as it stands when the source is opened. */
  method ReadSource<M>(bs: seq<uint8>, valid: uint64 -> bool, insert: (M, Record) -> M, start: M)
    returns (r: Result<M, CombineError>)
    ensures r.Ok? <==> DecodeSource(bs, valid).Ok?
    ensures r.Ok? ==> r.value == InsertAll(insert, start, DecodeSource(bs, valid).value)
    ensures r.Err? ==> r.error == DecodeSource(bs, valid).error
  {
    var tree := start;
    ghost var done: seq<Record> := [];
    var pos := 0;
    assert bs[pos..] == bs;
    assert DecodeSource(bs, valid) == Then([], DecodeSource(bs, valid)) by {
      if DecodeSource(bs, valid).Ok? {
        assert [] + DecodeSource(bs, valid).value == DecodeSource(bs, valid).value;
      }
    }
    while true
      invariant 0 <= pos <= |bs|
      invariant DecodeSource(bs, valid) == Then(done, DecodeSource(bs[pos..], valid))
      invariant tree == InsertAll(insert, start, done)
      decreases |bs| - pos
    {
      if |bs| - pos < 8 {
        break;
      }
      if |bs| - pos < RECORD_SIZE {
        return Err(TruncatedRecord);
      }
      var id := ReadU64(bs[pos..pos + 8]);
      var bits := ReadU32(bs[pos + 8..pos + RECORD_SIZE]);
      ghost var rest := bs[pos..];
      assert rest[..RECORD_SIZE][..8] == bs[pos..pos + 8];
      assert rest[..RECORD_SIZE][8..] == bs[pos + 8..pos + RECORD_SIZE];
      assert rest[RECORD_SIZE..] == bs[pos + RECORD_SIZE..];
      if !valid(id) {
        return Err(InvalidCell(id));
      }
      tree := insert(tree, Record(id, bits));
      assert (done + [Record(id, bits)])[..|done|] == done;
      assert DecodeSource(rest, valid) == Then([Record(id, bits)], DecodeSource(bs[pos + RECORD_SIZE..], valid));
      ThenThen(done, [Record(id, bits)], DecodeSource(bs[pos + RECORD_SIZE..], valid));
      done := done + [Record(id, bits)];
      pos := pos + RECORD_SIZE;
    }
    assert done + [] == done;
    r := Ok(tree);
  }

  /** When every source before s-1 decodes and source s-1 fails, the whole of
      `combine` fails with that error. */
  lemma {:induction false} CombineLogFails(sources: seq<seq<uint8>>, s: nat, valid: uint64 -> bool)
    requires 0 < s <= |sources|
    requires forall i :: 0 <= i < s - 1 ==> DecodeSource(sources[i], valid).Ok?
    requires DecodeSource(sources[s - 1], valid).Err?
    ensures CombineLog(sources, valid) == Err(DecodeSource(sources[s - 1], valid).error)
  {
    var before := sources[..s - 1];
    forall i | 0 <= i < |before| ensures DecodeSource(before[i], valid).Ok? {
      assert before[i] == sources[i];
    }
    assert sources[..s][..s - 1] == sources[..s - 1];
    CombineLogErrPersists(sources, s, valid);
  }

  /** Reading stops at the first error: extending the source list keeps it. */
  lemma {:induction false} CombineLogErrPersists(sources: seq<seq<uint8>>, s: nat, valid: uint64 -> bool)
    requires s <= |sources|
    requires CombineLog(sources[..s], valid).Err?
    ensures CombineLog(sources, valid) == CombineLog(sources[..s], valid)
    decreases |sources| - s
  {
    if s < |sources| {
      assert sources[..s + 1][..s] == sources[..s];
      CombineLogErrPersists(sources, s + 1, valid);
    } else {
      assert sources[..s] == sources;
    }
  }

  // ---------------------------------------------------------------------------
  // The writing loop

  /** The `for (cell, val) in map.iter()` loop: id bytes, then value bytes. */
  method WriteEntries(entries: seq<Record>) returns (dst: seq<uint8>)
    ensures dst == EncodeRecords(entries)
  {
    dst := [];
    for i := 0 to |entries|
      invariant dst == EncodeRecords(entries[..i])
    {
      dst := dst + U64Bytes(entries[i].id);
      dst := dst + U32Bytes(entries[i].bits);
      EncodeRecordsSnoc(entries, i);
    }
    assert entries[..|entries|] == entries;
  }

  /** `combine`: read all sources into the map, then serialise the map. */
  method Combine<M>(sources: seq<seq<uint8>>, valid: uint64 -> bool,
                    insert: (M, Record) -> M, empty: M, entries: M -> seq<Record>)
    returns (r: Result<seq<uint8>, CombineError>)
    ensures r.Ok? <==> CombineLog(sources, valid).Ok?
    ensures r.Ok? ==> r.value == EncodeRecords(entries(InsertAll(insert, empty, CombineLog(sources, valid).value)))
    ensures r.Err? ==> r.error == CombineLog(sources, valid).error
  {
    var read := ReadSources(sources, valid, insert, empty);
    match read {
      case Err(e) =>
        r := Err(e);
      case Ok(tree) =>
        var out := WriteEntries(entries(tree));
        r := Ok(out);
    }
  }
}
