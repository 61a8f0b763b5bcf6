/** The deterministic parts of tessellation (generate.rs): the vertical offset
    of a grid row, the cell list of one grid cell, the message each present
    sample sends to the writer, and the writer's loop.

    The covering query (the polygon in degrees and h3o's polyfill) is a
    parameter `cover`: given the row's vertical offset and the column it
    returns the raw covering output, or None where `Polygon::from_degrees`
    rejects the polygon and `unwrap` panics. The f32 division `val / len` is a
    parameter `scale` on bit patterns. */
module Generate {
  import opened Wrappers
  import opened ByteOrder
  import opened Records
  import opened CellList

  /** `header.nrows - row - 1` in unsigned arithmetic: None where it would
      underflow (a panic with overflow checks on). */
  function RowOffset(nrows: nat, row: nat): (r: Option<nat>)
    ensures r.Some? <==> row < nrows
    ensures r.Some? ==> r.value < nrows
  {
    if row < nrows then Some(nrows - row - 1) else None
  }

  /** The offset of the offset is the row: the flip is its own inverse. */
  lemma RowOffsetInvolution(nrows: nat, row: nat)
    requires row < nrows
    ensures RowOffset(nrows, RowOffset(nrows, row).value) == Some(row)
  {
  }

  /** The top row has the highest offset and the bottom row offset 0. */
  lemma RowOffsetEnds(nrows: nat)
    requires 0 < nrows
    ensures RowOffset(nrows, 0) == Some(nrows - 1)
    ensures RowOffset(nrows, nrows - 1) == Some(0)
  {
  }

  /** Each row down lowers the offset by one. */
  lemma RowOffsetOrder(nrows: nat, row: nat)
    requires row + 1 < nrows
    ensures RowOffset(nrows, row).value == RowOffset(nrows, row + 1).value + 1
  {
  }

  /** `tessalate_grid`: the canonical covering cell list for (row, col). */
  function TessellateGrid(nrows: nat, row: nat, col: nat, cover: (nat, nat) -> Option<seq<uint64>>)
    : (r: Option<seq<uint64>>)
    ensures r.Some? <==> row < nrows && cover(nrows - row - 1, col).Some?
    ensures r.Some? ==> StrictlyAscending(r.value)
    ensures r.Some? ==> forall x :: x in r.value <==> x in cover(nrows - row - 1, col).value
  {
    match RowOffset(nrows, row)
    case None => None
    case Some(offset) =>
      match cover(offset, col)
      case None => None
      case Some(covering) =>
        CanonicalProperties(covering);
        Some(Canonical(covering))
  }

  /** `tessalate_grid` as the program runs it, with its vector sorted and
      deduplicated in place. */
  method TessellateGridInPlace(nrows: nat, row: nat, col: nat, cover: (nat, nat) -> Option<seq<uint64>>)
    returns (r: Option<seq<uint64>>)
    ensures r == TessellateGrid(nrows, row, col, cover)
  {
    if row >= nrows {
      return None;
    }
    var offset := nrows - row - 1;
    var covering := cover(offset, col);
    if covering.None? {
      return None;
    }
    var hexes := CollectCells(covering.value);
    r := Some(hexes);
  }

  /** What a producer sends for one covered sample: its cells and its value. */
  datatype Message = Message(hexes: seq<uint64>, val: uint32)

  /** The messages one grid sample produces (line 62): none for a no-data
      sample, one for a present sample, None where tessellation panics. */
  function SampleMessages(nrows: nat, row: nat, col: nat, sample: Option<uint32>,
                          cover: (nat, nat) -> Option<seq<uint64>>): (r: Option<seq<Message>>)
    ensures sample.None? ==> r == Some([])
    ensures r.None? <==> sample.Some? && TessellateGrid(nrows, row, col, cover).None?
    ensures r.Some? && sample.Some? ==>
              r.value == [Message(TessellateGrid(nrows, row, col, cover).value, sample.value)]
  {
    match sample
    case None => Some([])
    case Some(val) =>
      match TessellateGrid(nrows, row, col, cover)
      case None => None
      case Some(hexes) => Some([Message(hexes, val)])
  }

  /** The messages of one row, column by column. */
  function RowMessages(nrows: nat, row: nat, samples: seq<Option<uint32>>,
                       cover: (nat, nat) -> Option<seq<uint64>>): (r: Option<seq<Message>>)
    ensures r.Some? ==> |r.value| <= |samples|
  {
    if |samples| == 0 then Some([])
    else
      match RowMessages(nrows, row, samples[..|samples| - 1], cover)
      case None => None
      case Some(ms) =>
        match SampleMessages(nrows, row, |samples| - 1, samples[|samples| - 1], cover)
        case None => None
        case Some(m) => Some(ms + m)
  }

  /** The number of samples in a grid, present or not. */
  function SampleCount(grid: seq<seq<Option<uint32>>>): nat
  {
    if |grid| == 0 then 0 else SampleCount(grid[..|grid| - 1]) + |grid[|grid| - 1]|
  }

  /** The messages of the whole grid, row by row: one arrival order among the
      many the parallel producers allow. */
  function GridMessages(nrows: nat, grid: seq<seq<Option<uint32>>>,
                        cover: (nat, nat) -> Option<seq<uint64>>): (r: Option<seq<Message>>)
    ensures r.Some? ==> |r.value| <= SampleCount(grid)
  {
    if |grid| == 0 then Some([])
    else
      match GridMessages(nrows, grid[..|grid| - 1], cover)
      case None => None
      case Some(ms) =>
        match RowMessages(nrows, |grid| - 1, grid[|grid| - 1], cover)
        case None => None
        case Some(m) => Some(ms + m)
  }

  // ---------------------------------------------------------------------------
  // The consumer

  /** The records the writer emits for one message: one per cell, in the
      message's order, all carrying the value scaled once. */
  function MessageRecords(m: Message, scale: (uint32, nat) -> uint32): (rs: seq<Record>)
    ensures |rs| == |m.hexes|
  {
    seq(|m.hexes|, k requires 0 <= k < |m.hexes| => Record(m.hexes[k], scale(m.val, |m.hexes|)))
  }

  /** The number of cells over all messages. */
  function CellCount(msgs: seq<Message>): nat
  {
    if |msgs| == 0 then 0 else CellCount(msgs[..|msgs| - 1]) + |msgs[|msgs| - 1].hexes|
  }

  /** The records the writer emits for a sequence of messages, in receipt
      order: one per cell over all messages. */
  function ConsumedRecords(msgs: seq<Message>, scale: (uint32, nat) -> uint32): (rs: seq<Record>)
    ensures |rs| == CellCount(msgs)
  {
    if |msgs| == 0 then []
    else ConsumedRecords(msgs[..|msgs| - 1], scale) + MessageRecords(msgs[|msgs| - 1], scale)
  }

  /** The `while let Ok((h3_indicies, val)) = rx.recv()` loop, over the
      messages in the order they arrived. */
  method WriteMessages(msgs: seq<Message>, scale: (uint32, nat) -> uint32) returns (dst: seq<uint8>)
    ensures dst == EncodeRecords(ConsumedRecords(msgs, scale))
  {
    dst := [];
    var i := 0;
    while i < |msgs|
      invariant 0 <= i <= |msgs|
      invariant dst == EncodeRecords(ConsumedRecords(msgs[..i], scale))
    {
      ConsumedStep(msgs, scale, i);
      dst := WriteMessage(dst, msgs[i], scale);
      i := i + 1;
    }
    assert msgs[..i] == msgs;
  }

  /** Consuming one more message appends the bytes of its records. */
  lemma ConsumedStep(msgs: seq<Message>, scale: (uint32, nat) -> uint32, i: nat)
    requires i < |msgs|
    ensures EncodeRecords(ConsumedRecords(msgs[..i + 1], scale))
         == EncodeRecords(ConsumedRecords(msgs[..i], scale)) + EncodeRecords(MessageRecords(msgs[i], scale))
  {
    assert msgs[..i + 1][..i] == msgs[..i];
    EncodeRecordsAppend(ConsumedRecords(msgs[..i], scale), MessageRecords(msgs[i], scale));
  }

  /** One iteration of that loop: scale the value once, then write each cell's
      eight bytes followed by the same four value bytes. */
  method WriteMessage(dst: seq<uint8>, m: Message, scale: (uint32, nat) -> uint32) returns (out: seq<uint8>)
    ensures out == dst + EncodeRecords(MessageRecords(m, scale))
  {
    var scaledValBytes := U32Bytes(scale(m.val, |m.hexes|));
    ghost var rs := MessageRecords(m, scale);
    out := dst;
    for k := 0 to |m.hexes|
      invariant out == dst + EncodeRecords(rs[..k])
    {
      MessageRecordAt(m, scale, k);
      AppendRecordBytes(dst, rs, k);
      out := out + U64Bytes(m.hexes[k]) + scaledValBytes;
    }
    assert rs[..|m.hexes|] == rs;
  }

  /** Record k of a message is cell k with the message's scaled value. */
  lemma MessageRecordAt(m: Message, scale: (uint32, nat) -> uint32, k: nat)
    requires k < |m.hexes|
    ensures |MessageRecords(m, scale)| == |m.hexes|
    ensures MessageRecords(m, scale)[k] == Record(m.hexes[k], scale(m.val, |m.hexes|))
  {
  }

  /** Appending record k's two fields extends the written prefix by that record. */
  lemma AppendRecordBytes(dst: seq<uint8>, rs: seq<Record>, k: nat)
    requires k < |rs|
    ensures dst + EncodeRecords(rs[..k]) + U64Bytes(rs[k].id) + U32Bytes(rs[k].bits)
         == dst + EncodeRecords(rs[..k + 1])
  {
    EncodeRecordsSnoc(rs, k);
  }
}
