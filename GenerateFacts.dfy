/** What tessellation promises: which samples send a message, what the writer
    puts on disk for each message, that the records on disk do not depend on
    the order in which messages arrive, and that `combine` reads them back. */
module GenerateFacts {
  import opened Wrappers
  import opened ByteOrder
  import opened Records
  import opened Combine
  import opened CombineFacts
  import opened Generate

  /** The number of present (not no-data) samples in a row. */
  function PresentCount(samples: seq<Option<uint32>>): nat
  {
    if |samples| == 0 then 0
    else PresentCount(samples[..|samples| - 1]) + (if samples[|samples| - 1].Some? then 1 else 0)
  }

  /** The number of present samples in a grid. */
  function GridPresentCount(grid: seq<seq<Option<uint32>>>): nat
  {
    if |grid| == 0 then 0
    else GridPresentCount(grid[..|grid| - 1]) + PresentCount(grid[|grid| - 1])
  }

  /** Some present sample of the row cannot be tessellated. */
  ghost predicate RowFails(nrows: nat, row: nat, samples: seq<Option<uint32>>, cover: (nat, nat) -> Option<seq<uint64>>)
  {
    exists c :: 0 <= c < |samples| && samples[c].Some? && TessellateGrid(nrows, row, c, cover).None?
  }

  /** m is what the present sample at (row, c) sends. */
  ghost predicate SentBy(nrows: nat, row: nat, c: nat, sample: Option<uint32>,
                         cover: (nat, nat) -> Option<seq<uint64>>, m: Message)
  {
    sample == Some(m.val) && TessellateGrid(nrows, row, c, cover) == Some(m.hexes)
  }

  /** A row's messages fail exactly when some present sample fails. */
  lemma {:induction false} RowMessagesFail(nrows: nat, row: nat, samples: seq<Option<uint32>>,
                                           cover: (nat, nat) -> Option<seq<uint64>>)
    ensures RowMessages(nrows, row, samples, cover).None? <==> RowFails(nrows, row, samples, cover)
  {
    if |samples| > 0 {
      var n := |samples| - 1;
      var p := samples[..n];
      RowMessagesFail(nrows, row, p, cover);
      if RowFails(nrows, row, p, cover) {
        var c :| 0 <= c < |p| && p[c].Some? && TessellateGrid(nrows, row, c, cover).None?;
        assert samples[c] == p[c];
      }
      if RowFails(nrows, row, samples, cover) {
        var c :| 0 <= c < |samples| && samples[c].Some? && TessellateGrid(nrows, row, c, cover).None?;
        if c < n {
          assert p[c] == samples[c];
        }
      }
    }
  }

  /** A row that succeeds sends one message per present sample. */
  lemma {:induction false} RowMessagesCount(nrows: nat, row: nat, samples: seq<Option<uint32>>,
                                            cover: (nat, nat) -> Option<seq<uint64>>)
    requires RowMessages(nrows, row, samples, cover).Some?
    ensures |RowMessages(nrows, row, samples, cover).value| == PresentCount(samples)
  {
    if |samples| > 0 {
      RowMessagesCount(nrows, row, samples[..|samples| - 1], cover);
    }
  }

  /** Every message of a row is sent by a present sample of that row: its value
      is the sample's and its cells are the sample's tessellation. */
  lemma {:induction false} RowMessagesSent(nrows: nat, row: nat, samples: seq<Option<uint32>>,
                                           cover: (nat, nat) -> Option<seq<uint64>>, k: nat)
    requires RowMessages(nrows, row, samples, cover).Some?
    requires k < |RowMessages(nrows, row, samples, cover).value|
    ensures exists c :: 0 <= c < |samples| && SentBy(nrows, row, c, samples[c], cover, RowMessages(nrows, row, samples, cover).value[k])
  {
    var n := |samples| - 1;
    var p := samples[..n];
    var ms := RowMessages(nrows, row, p, cover).value;
    var all := RowMessages(nrows, row, samples, cover).value;
    if k < |ms| {
      RowMessagesSent(nrows, row, p, cover, k);
      var c :| 0 <= c < |p| && SentBy(nrows, row, c, p[c], cover, ms[k]);
      assert p[c] == samples[c] && all[k] == ms[k];
    } else {
      assert SentBy(nrows, row, n, samples[n], cover, all[k]);
    }
  }

  /** Every present sample of a successful row sends its message. */
  lemma {:induction false} RowMessagesCover(nrows: nat, row: nat, samples: seq<Option<uint32>>,
                                            cover: (nat, nat) -> Option<seq<uint64>>, c: nat)
    requires RowMessages(nrows, row, samples, cover).Some?
    requires c < |samples| && samples[c].Some?
    ensures TessellateGrid(nrows, row, c, cover).Some?
    ensures Message(TessellateGrid(nrows, row, c, cover).value, samples[c].value) in RowMessages(nrows, row, samples, cover).value
  {
    var n := |samples| - 1;
    var p := samples[..n];
    if c < n {
      assert p[c] == samples[c];
      RowMessagesCover(nrows, row, p, cover, c);
    }
  }

  /** The columns of a row's present samples, in ascending order. */
  function PresentCols(samples: seq<Option<uint32>>): (cs: seq<nat>)
    ensures forall k :: 0 <= k < |cs| ==> cs[k] < |samples| && samples[cs[k]].Some?
    ensures forall k, l :: 0 <= k < l < |cs| ==> cs[k] < cs[l]
    ensures forall c :: 0 <= c < |samples| && samples[c].Some? ==> c in cs
  {
    if |samples| == 0 then []
    else
      var n := |samples| - 1;
      var p := samples[..n];
      assert forall c :: 0 <= c < n ==> p[c] == samples[c];
      PresentCols(p) + (if samples[n].Some? then [n] else [])
  }

  /** A successful row sends exactly one message per present sample, in column
      order: message k is the one the k-th present column sends. */
  lemma RowMessagesExact(nrows: nat, row: nat, samples: seq<Option<uint32>>,
                         cover: (nat, nat) -> Option<seq<uint64>>)
    requires RowMessages(nrows, row, samples, cover).Some?
    ensures |RowMessages(nrows, row, samples, cover).value| == |PresentCols(samples)|
    ensures forall k :: 0 <= k < |PresentCols(samples)| ==>
              SentBy(nrows, row, PresentCols(samples)[k], samples[PresentCols(samples)[k]], cover,
                     RowMessages(nrows, row, samples, cover).value[k])
  {
    RowMessagesLength(nrows, row, samples, cover);
    forall k | 0 <= k < |PresentCols(samples)|
      ensures SentBy(nrows, row, PresentCols(samples)[k], samples[PresentCols(samples)[k]], cover,
                     RowMessages(nrows, row, samples, cover).value[k])
    {
      RowMessageAt(nrows, row, samples, cover, k);
    }
  }

  lemma {:induction false} RowMessagesLength(nrows: nat, row: nat, samples: seq<Option<uint32>>,
                                             cover: (nat, nat) -> Option<seq<uint64>>)
    requires RowMessages(nrows, row, samples, cover).Some?
    ensures |RowMessages(nrows, row, samples, cover).value| == |PresentCols(samples)|
  {
    if |samples| > 0 {
      RowMessagesLength(nrows, row, samples[..|samples| - 1], cover);
    }
  }

  /** Message k of a successful row is the one its k-th present column sends. */
  lemma {:induction false} RowMessageAt(nrows: nat, row: nat, samples: seq<Option<uint32>>,
                                        cover: (nat, nat) -> Option<seq<uint64>>, k: nat)
    requires RowMessages(nrows, row, samples, cover).Some?
    requires k < |PresentCols(samples)|
    ensures k < |RowMessages(nrows, row, samples, cover).value|
    ensures SentBy(nrows, row, PresentCols(samples)[k], samples[PresentCols(samples)[k]], cover,
                   RowMessages(nrows, row, samples, cover).value[k])
  {
    RowMessagesLength(nrows, row, samples, cover);
    var n := |samples| - 1;
    var p := samples[..n];
    var ms, cs := RowMessages(nrows, row, p, cover).value, PresentCols(p);
    var all, allCs := RowMessages(nrows, row, samples, cover).value, PresentCols(samples);
    RowMessagesLength(nrows, row, p, cover);
    assert all == ms + SampleMessages(nrows, row, n, samples[n], cover).value;
    if k < |cs| {
      RowMessageAt(nrows, row, p, cover, k);
      assert all[k] == ms[k] && allCs[k] == cs[k];
      assert samples[cs[k]] == p[cs[k]];
    } else {
      assert allCs[k] == n;
    }
  }

  /** Some present sample of the grid cannot be tessellated. */
  ghost predicate GridFails(nrows: nat, grid: seq<seq<Option<uint32>>>, cover: (nat, nat) -> Option<seq<uint64>>)
  {
    exists r :: 0 <= r < |grid| && RowFails(nrows, r, grid[r], cover)
  }

  /** Tessellation panics exactly when some present sample cannot be
      tessellated; a no-data sample is never tessellated, so it cannot panic. */
  lemma {:induction false} GridMessagesFail(nrows: nat, grid: seq<seq<Option<uint32>>>,
                                            cover: (nat, nat) -> Option<seq<uint64>>)
    ensures GridMessages(nrows, grid, cover).None? <==> GridFails(nrows, grid, cover)
  {
    if |grid| > 0 {
      var n := |grid| - 1;
      var p := grid[..n];
      GridMessagesFail(nrows, p, cover);
      RowMessagesFail(nrows, n, grid[n], cover);
      if GridFails(nrows, p, cover) {
        var r :| 0 <= r < |p| && RowFails(nrows, r, p[r], cover);
        assert grid[r] == p[r];
      }
      if GridFails(nrows, grid, cover) {
        var r :| 0 <= r < |grid| && RowFails(nrows, r, grid[r], cover);
        if r < n {
          assert p[r] == grid[r];
        }
      }
    }
  }

  /** A grid that succeeds sends one message per present sample. */
  lemma {:induction false} GridMessagesCount(nrows: nat, grid: seq<seq<Option<uint32>>>,
                                             cover: (nat, nat) -> Option<seq<uint64>>)
    requires GridMessages(nrows, grid, cover).Some?
    ensures |GridMessages(nrows, grid, cover).value| == GridPresentCount(grid)
  {
    if |grid| > 0 {
      GridMessagesCount(nrows, grid[..|grid| - 1], cover);
      RowMessagesCount(nrows, |grid| - 1, grid[|grid| - 1], cover);
    }
  }

  /** Every message of the grid is sent by one of its present samples. */
  lemma {:induction false} GridMessagesSent(nrows: nat, grid: seq<seq<Option<uint32>>>,
                                            cover: (nat, nat) -> Option<seq<uint64>>, k: nat)
    requires GridMessages(nrows, grid, cover).Some?
    requires k < |GridMessages(nrows, grid, cover).value|
    ensures exists r, c :: 0 <= r < |grid| && 0 <= c < |grid[r]|
                        && SentBy(nrows, r, c, grid[r][c], cover, GridMessages(nrows, grid, cover).value[k])
  {
    var n := |grid| - 1;
    var p := grid[..n];
    var ms := GridMessages(nrows, p, cover).value;
    var all := GridMessages(nrows, grid, cover).value;
    if k < |ms| {
      GridMessagesSent(nrows, p, cover, k);
      var r, c :| 0 <= r < |p| && 0 <= c < |p[r]| && SentBy(nrows, r, c, p[r][c], cover, ms[k]);
      assert p[r] == grid[r] && all[k] == ms[k];
    } else {
      var last := RowMessages(nrows, n, grid[n], cover).value;
      assert all[k] == last[k - |ms|];
      RowMessagesSent(nrows, n, grid[n], cover, k - |ms|);
    }
  }

  /** Every present sample of a successful grid sends its message. */
  lemma {:induction false} GridMessagesCover(nrows: nat, grid: seq<seq<Option<uint32>>>,
                                             cover: (nat, nat) -> Option<seq<uint64>>, r: nat, c: nat)
    requires GridMessages(nrows, grid, cover).Some?
    requires r < |grid| && c < |grid[r]| && grid[r][c].Some?
    ensures TessellateGrid(nrows, r, c, cover).Some?
    ensures Message(TessellateGrid(nrows, r, c, cover).value, grid[r][c].value) in GridMessages(nrows, grid, cover).value
  {
    var n := |grid| - 1;
    var p := grid[..n];
    var ms := GridMessages(nrows, p, cover).value;
    var last := RowMessages(nrows, n, grid[n], cover).value;
    assert GridMessages(nrows, grid, cover).value == ms + last;
    if r < n {
      assert p[r] == grid[r];
      GridMessagesCover(nrows, p, cover, r, c);
    } else {
      RowMessagesCover(nrows, n, grid[n], cover, c);
    }
  }

  /** The (row, column) of every present sample of a grid, in row-major order. */
  function PresentCells(grid: seq<seq<Option<uint32>>>): (ps: seq<(nat, nat)>)
    ensures forall k :: 0 <= k < |ps| ==>
              ps[k].0 < |grid| && ps[k].1 < |grid[ps[k].0]| && grid[ps[k].0][ps[k].1].Some?
    ensures forall r, c :: 0 <= r < |grid| && 0 <= c < |grid[r]| && grid[r][c].Some? ==> (r, c) in ps
    ensures forall k, l :: 0 <= k < l < |ps| ==> CellBefore(ps[k], ps[l])
  {
    if |grid| == 0 then []
    else
      var n := |grid| - 1;
      assert forall r :: 0 <= r < n ==> grid[..n][r] == grid[r];
      var front, cells := PresentCells(grid[..n]), RowCells(n, PresentCols(grid[n]));
      RowCellsCover(n, grid[n]);
      RowMajorAppend(front, cells, n);
      front + cells
  }

  /** Every present column c of row r appears as (r, c) among its cells. */
  lemma RowCellsCover(r: nat, samples: seq<Option<uint32>>)
    ensures forall c :: 0 <= c < |samples| && samples[c].Some? ==> (r, c) in RowCells(r, PresentCols(samples))
  {
    var cs := PresentCols(samples);
    forall c | 0 <= c < |samples| && samples[c].Some? ensures (r, c) in RowCells(r, cs) {
      var k :| 0 <= k < |cs| && cs[k] == c;
      assert RowCells(r, cs)[k] == (r, c);
    }
  }

  /** Appending one row's cells, in column order, to the cells of earlier rows
      keeps the list in row-major order. */
  lemma RowMajorAppend(front: seq<(nat, nat)>, cells: seq<(nat, nat)>, n: nat)
    requires forall k :: 0 <= k < |front| ==> front[k].0 < n
    requires forall k, l :: 0 <= k < l < |front| ==> CellBefore(front[k], front[l])
    requires forall k :: 0 <= k < |cells| ==> cells[k].0 == n
    requires forall k, l :: 0 <= k < l < |cells| ==> cells[k].1 < cells[l].1
    ensures forall k, l :: 0 <= k < l < |front + cells| ==> CellBefore((front + cells)[k], (front + cells)[l])
  {
  }

  /** Strict row-major order on (row, column) pairs. */
  predicate CellBefore(a: (nat, nat), b: (nat, nat))
  {
    a.0 < b.0 || (a.0 == b.0 && a.1 < b.1)
  }

  /** The cells (r, c) for the columns cs of row r. */
  function RowCells(r: nat, cs: seq<nat>): (ps: seq<(nat, nat)>)
    ensures |ps| == |cs| && forall k :: 0 <= k < |cs| ==> ps[k] == (r, cs[k])
  {
    seq(|cs|, k requires 0 <= k < |cs| => (r, cs[k]))
  }

  /** A successful grid sends exactly one message per present sample, row by
      row and column by column: message k is the one the k-th present cell
      sends. */
  lemma {:induction false} GridMessagesExact(nrows: nat, grid: seq<seq<Option<uint32>>>,
                                             cover: (nat, nat) -> Option<seq<uint64>>)
    requires GridMessages(nrows, grid, cover).Some?
    ensures |GridMessages(nrows, grid, cover).value| == |PresentCells(grid)|
    ensures forall k :: 0 <= k < |PresentCells(grid)| ==>
              SentBy(nrows, PresentCells(grid)[k].0, PresentCells(grid)[k].1,
                     grid[PresentCells(grid)[k].0][PresentCells(grid)[k].1], cover,
                     GridMessages(nrows, grid, cover).value[k])
  {
    if |grid| > 0 {
      var n := |grid| - 1;
      var p := grid[..n];
      GridMessagesExact(nrows, p, cover);
      RowMessagesExact(nrows, n, grid[n], cover);
      var ms, ps := GridMessages(nrows, p, cover).value, PresentCells(p);
      var last, cs := RowMessages(nrows, n, grid[n], cover).value, PresentCols(grid[n]);
      var all, allPs := GridMessages(nrows, grid, cover).value, PresentCells(grid);
      assert all == ms + last;
      assert allPs == ps + RowCells(n, cs);
      forall k | 0 <= k < |allPs|
        ensures SentBy(nrows, allPs[k].0, allPs[k].1, grid[allPs[k].0][allPs[k].1], cover, all[k])
      {
        if k < |ps| {
          assert all[k] == ms[k] && allPs[k] == ps[k];
          assert grid[ps[k].0] == p[ps[k].0];
        } else {
          assert all[k] == last[k - |ms|];
          assert allPs[k] == (n, cs[k - |ps|]);
        }
      }
    }
  }

  // ---------------------------------------------------------------------------
  // The consumer

  /** For one message the writer emits 12 bytes per cell, in the message's
      order: the cell's eight LE bytes, then the four bytes of the value scaled
      once by the number of cells. */
  lemma MessageLayout(m: Message, scale: (uint32, nat) -> uint32, k: nat)
    requires k < |m.hexes|
    ensures |EncodeRecords(MessageRecords(m, scale))| == RECORD_SIZE * |m.hexes|
    ensures EncodeRecords(MessageRecords(m, scale))[RECORD_SIZE * k..RECORD_SIZE * k + 8] == U64Bytes(m.hexes[k])
    ensures EncodeRecords(MessageRecords(m, scale))[RECORD_SIZE * k + 8..RECORD_SIZE * k + RECORD_SIZE]
         == U32Bytes(scale(m.val, |m.hexes|))
  {
    var rs := MessageRecords(m, scale);
    EncodeRecordsAt(rs, k);
    var bs := EncodeRecords(rs);
    var rec := bs[RECORD_SIZE * k..RECORD_SIZE * k + RECORD_SIZE];
    assert rec == U64Bytes(m.hexes[k]) + U32Bytes(scale(m.val, |m.hexes|));
    assert bs[RECORD_SIZE * k..RECORD_SIZE * k + 8] == rec[..8];
    assert bs[RECORD_SIZE * k + 8..RECORD_SIZE * k + RECORD_SIZE] == rec[8..];
  }

  /** A message with no cells writes nothing. */
  lemma EmptyMessageWritesNothing(m: Message, scale: (uint32, nat) -> uint32)
    requires |m.hexes| == 0
    ensures EncodeRecords(MessageRecords(m, scale)) == []
  {
  }

  /** The writer's output for two batches of messages is the output for the
      first followed by the output for the second. */
  lemma {:induction false} ConsumedAppend(a: seq<Message>, b: seq<Message>, scale: (uint32, nat) -> uint32)
    ensures ConsumedRecords(a + b, scale) == ConsumedRecords(a, scale) + ConsumedRecords(b, scale)
    decreases |b|
  {
    if |b| == 0 {
      assert a + b == a;
    } else {
      var n := |b| - 1;
      var x := b[n];
      SplitLast(a, b);
      ConsumedSnoc(a + b[..n], x, scale);
      ConsumedSnoc(b[..n], x, scale);
      ConsumedAppend(a, b[..n], scale);
      Regroup(ConsumedRecords(a + b, scale), ConsumedRecords(a, scale), ConsumedRecords(b[..n], scale),
              MessageRecords(x, scale), ConsumedRecords(b, scale));
    }
  }

  lemma Regroup<T>(whole: seq<T>, p: seq<T>, q: seq<T>, r: seq<T>, tail: seq<T>)
    requires whole == (p + q) + r && tail == q + r
    ensures whole == p + tail
  {
  }

  /** Messages arrive in no fixed order; whatever the order, the records
      written are the same, counted with multiplicity. */
  lemma {:induction false} ArrivalOrderIrrelevant(a: seq<Message>, b: seq<Message>, scale: (uint32, nat) -> uint32)
    requires multiset(a) == multiset(b)
    ensures multiset(ConsumedRecords(a, scale)) == multiset(ConsumedRecords(b, scale))
    decreases |a|
  {
    if |a| == 0 {
      assert |b| == |multiset(b)| == 0;
    } else {
      var n := |a| - 1;
      assert a[n] in multiset(b);
      var j :| 0 <= j < |b| && b[j] == a[n];
      var rest := RemoveAt(b, j);
      assert multiset(a[..n]) == multiset(rest) by {
        assert a == a[..n] + [a[n]];
      }
      ArrivalOrderIrrelevant(a[..n], rest, scale);
      ConsumedRemoveAt(b, j, scale);
    }
  }

  /** b without its element at j; its multiset loses exactly that element. */
  function RemoveAt(b: seq<Message>, j: nat): (r: seq<Message>)
    requires j < |b|
    ensures multiset(r) == multiset(b) - multiset{b[j]}
  {
    assert b == b[..j] + [b[j]] + b[j + 1..];
    b[..j] + b[j + 1..]
  }

  /** Taking one message out of the arrival order takes out exactly its records. */
  lemma ConsumedRemoveAt(b: seq<Message>, j: nat, scale: (uint32, nat) -> uint32)
    requires j < |b|
    ensures multiset(ConsumedRecords(b, scale))
         == multiset(ConsumedRecords(RemoveAt(b, j), scale)) + multiset(MessageRecords(b[j], scale))
  {
    var front, x, back := b[..j], b[j], b[j + 1..];
    var cf, cx, cb := ConsumedRecords(front, scale), MessageRecords(x, scale), ConsumedRecords(back, scale);
    assert ConsumedRecords(b, scale) == (cf + cx) + cb by {
      SplitAt(b, j);
      ConsumedAppend(front + [x], back, scale);
      ConsumedSnoc(front, x, scale);
    }
    assert ConsumedRecords(RemoveAt(b, j), scale) == cf + cb by {
      ConsumedAppend(front, back, scale);
    }
    assert multiset((cf + cx) + cb) == multiset(cf + cb) + multiset(cx);
  }

  lemma SplitAt<T>(b: seq<T>, j: nat)
    requires j < |b|
    ensures (b[..j] + [b[j]]) + b[j + 1..] == b
  {
  }

  lemma ConsumedSnoc(s: seq<Message>, x: Message, scale: (uint32, nat) -> uint32)
    ensures ConsumedRecords(s + [x], scale) == ConsumedRecords(s, scale) + MessageRecords(x, scale)
  {
    assert (s + [x])[..|s|] == s;
  }

  /** Every cell of every message names a valid cell. */
  ghost predicate CellsValid(msgs: seq<Message>, valid: uint64 -> bool)
  {
    forall i, k :: 0 <= i < |msgs| && 0 <= k < |msgs[i].hexes| ==> valid(msgs[i].hexes[k])
  }

  lemma {:induction false} ConsumedIdsValid(msgs: seq<Message>, scale: (uint32, nat) -> uint32, valid: uint64 -> bool)
    requires CellsValid(msgs, valid)
    ensures IdsValid(ConsumedRecords(msgs, scale), valid)
  {
    if |msgs| > 0 {
      var n := |msgs| - 1;
      assert CellsValid(msgs[..n], valid) by {
        forall i, k | 0 <= i < n && 0 <= k < |msgs[..n][i].hexes| ensures valid(msgs[..n][i].hexes[k]) {
          assert msgs[..n][i] == msgs[i];
        }
      }
      ConsumedIdsValid(msgs[..n], scale, valid);
      var front := ConsumedRecords(msgs[..n], scale);
      var back := MessageRecords(msgs[n], scale);
      var all: seq<Record> := front + back;
      forall i | 0 <= i < |all| ensures valid(all[i].id) {
        if i >= |front| {
          assert all[i] == back[i - |front|];
        } else {
          assert all[i] == front[i];
        }
      }
    }
  }

  /** A tessellation output file, read by `combine` as a source, inserts every
      record the writer emitted, in the order written, when all cells are valid. */
  lemma TessellationOutputReadsBack(msgs: seq<Message>, scale: (uint32, nat) -> uint32, valid: uint64 -> bool)
    requires CellsValid(msgs, valid)
    ensures DecodeSource(EncodeRecords(ConsumedRecords(msgs, scale)), valid) == Ok(ConsumedRecords(msgs, scale))
  {
    ConsumedIdsValid(msgs, scale, valid);
    WrittenEntriesReadBack(ConsumedRecords(msgs, scale), valid);
  }
}
