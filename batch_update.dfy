/**
 * The batch `UpdateExecutor`: every input row and its updated version are written to
 * the table's DML channel as an `UpdateDelete` / `UpdateInsert` pair, and the number of
 * updated rows is returned as a single Int64 datum.
 */
module BatchUpdate {
  import opened Wrappers
  import opened Rows

  /** An update expression: its return type and its value on an input row. */
  datatype UpdateExpr = UpdateExpr(returnType: DataType, eval: Row -> Datum)

  /** A chunk as written to the DML channel: one op per row, stored column by column. */
  datatype StreamChunk = StreamChunk(ops: seq<Op>, columns: seq<seq<Datum>>)

  datatype DmlError = TableNotFound

  /** `exprs.iter().map(|e| e.return_type())`. */
  function ReturnTypes(exprs: seq<UpdateExpr>): (r: seq<DataType>)
  {
    seq(|exprs|, j requires 0 <= j < |exprs| => exprs[j].returnType)
  }

  /** The updated row: each expression evaluated on the input row. */
  function Updated(exprs: seq<UpdateExpr>, row: Row): (r: Row)
  {
    seq(|exprs|, j requires 0 <= j < |exprs| => exprs[j].eval(row))
  }

  /** `rows().zip_eq(...).flat_map(|(a, b)| [a, b])`: old and new rows alternating, starting with the old one. */
  function Interleave(a: seq<Row>, b: seq<Row>): (r: seq<Row>)
    requires |a| == |b|
  {
    seq(2 * |a|, k requires 0 <= k < 2 * |a| => if k % 2 == 0 then a[k / 2] else b[k / 2])
  }

  /** The changelog of `n` updated rows: `UpdateDelete`, `UpdateInsert`, repeated `n` times. */
  function UpdateOps(n: nat): seq<Op> {
    seq(2 * n, k => if k % 2 == 0 then UpdateDelete else UpdateInsert)
  }

  /** Column `c` of a list of rows. */
  function ColumnOf(rows: seq<Row>, c: nat): seq<Datum>
    requires forall k :: 0 <= k < |rows| ==> c < |rows[k]|
  {
    seq(|rows|, k requires 0 <= k < |rows| => rows[k][c])
  }

  /** Rows of width `w` stored column by column. */
  function Columns(rows: seq<Row>, w: nat): (r: seq<seq<Datum>>)
    requires forall k :: 0 <= k < |rows| ==> |rows[k]| == w
  {
    seq(w, c requires 0 <= c < w => ColumnOf(rows, c))
  }

  /** Every row has width `w`. */
  predicate Width(rows: seq<Row>, w: nat) {
    forall k :: 0 <= k < |rows| ==> |rows[k]| == w
  }

  /** The chunk written for one input chunk: old and updated rows in pairs, with their ops. */
  function UpdateChunk(exprs: seq<UpdateExpr>, rows: seq<Row>): StreamChunk
    requires Width(rows, |exprs|)
  {
    var updated := seq(|rows|, i requires 0 <= i < |rows| => Updated(exprs, rows[i]));
    StreamChunk(UpdateOps(|rows|), Columns(Interleave(rows, updated), |exprs|))
  }

  /** Row `2i` is old row `i` and row `2i + 1` its update; there are twice as many rows. */
  lemma InterleavePairs(a: seq<Row>, b: seq<Row>)
    requires |a| == |b|
    ensures |Interleave(a, b)| == 2 * |a|
    ensures forall i :: 0 <= i < |a| ==> Interleave(a, b)[2 * i] == a[i] && Interleave(a, b)[2 * i + 1] == b[i]
  {
    forall i | 0 <= i < |a|
      ensures Interleave(a, b)[2 * i] == a[i] && Interleave(a, b)[2 * i + 1] == b[i]
    {
      assert (2 * i) / 2 == i && (2 * i + 1) / 2 == i && (2 * i + 1) % 2 == 1;
    }
  }

  /** The ops come in `[UpdateDelete, UpdateInsert]` pairs, one pair per input row. */
  lemma UpdateOpsPairs(n: nat)
    ensures |UpdateOps(n)| == 2 * n
    ensures forall i :: 0 <= i < n ==> UpdateOps(n)[2 * i .. 2 * i + 2] == [UpdateDelete, UpdateInsert]
  {
    forall i | 0 <= i < n
      ensures UpdateOps(n)[2 * i .. 2 * i + 2] == [UpdateDelete, UpdateInsert]
    {
      assert (2 * i) % 2 == 0 && (2 * i + 1) % 2 == 1;
    }
  }

  /**
   * The chunk written for `n` input rows has `2n` rows: in every column, row `2i` holds old
   * row `i`'s datum and row `2i + 1` the updated one, and the ops pair up as U-, U+.
   */
  lemma UpdateChunkPairs(exprs: seq<UpdateExpr>, rows: seq<Row>)
    requires Width(rows, |exprs|)
    ensures var ch := UpdateChunk(exprs, rows);
            && |ch.ops| == 2 * |rows| && |ch.columns| == |exprs|
            && (forall c :: 0 <= c < |exprs| ==> |ch.columns[c]| == 2 * |rows|)
            && (forall c, i :: 0 <= c < |exprs| && 0 <= i < |rows| ==>
                  ch.columns[c][2 * i] == rows[i][c] && ch.columns[c][2 * i + 1] == exprs[c].eval(rows[i]))
            && (forall i :: 0 <= i < |rows| ==> ch.ops[2 * i] == UpdateDelete && ch.ops[2 * i + 1] == UpdateInsert)
  {
    var updated := seq(|rows|, i requires 0 <= i < |rows| => Updated(exprs, rows[i]));
    InterleavePairs(rows, updated);
    UpdateOpsPairs(|rows|);
    var ch := UpdateChunk(exprs, rows);
    forall i | 0 <= i < |rows|
      ensures ch.ops[2 * i] == UpdateDelete && ch.ops[2 * i + 1] == UpdateInsert
    {
      assert ch.ops[2 * i .. 2 * i + 2] == [UpdateDelete, UpdateInsert];
    }
  }

  /** Update expressions that swap the two columns of a row. */
  function SwapExprs(): seq<UpdateExpr> {
    [UpdateExpr(Int32, (r: Row) => if |r| == 2 then r[1] else None),
     UpdateExpr(Int32, (r: Row) => if |r| == 2 then r[0] else None)]
  }

  /**
   * Swapping the two columns of rows of width two: in the written chunk, column 0 holds each
   * row's first datum and then its second, column 1 its second datum and then its first.
   */
  lemma SwapColumns(rows: seq<Row>)
    requires Width(rows, 2)
    ensures var ch := UpdateChunk(SwapExprs(), rows);
            && |ch.columns| == 2 && |ch.columns[0]| == 2 * |rows| && |ch.columns[1]| == 2 * |rows|
            && forall i :: 0 <= i < |rows| ==>
                 && ch.columns[0][2 * i] == rows[i][0] && ch.columns[0][2 * i + 1] == rows[i][1]
                 && ch.columns[1][2 * i] == rows[i][1] && ch.columns[1][2 * i + 1] == rows[i][0]
  {
    UpdateChunkPairs(SwapExprs(), rows);
  }

  /**
   * Rows (1, 2), (3, 4), ..., (2n - 1, 2n) updated by swapping the two columns: the first
   * column of the written chunk reads 1, 2, ..., 2n and the second 2, 1, 4, 3, ..., 2n, 2n - 1.
   */
  lemma SwapColumnsExample(n: nat)
    ensures var rows := seq(n, i => [Some(2 * i + 1), Some(2 * i + 2)]);
            var ch := UpdateChunk(SwapExprs(), rows);
            && |ch.columns| == 2 && |ch.columns[0]| == 2 * n && |ch.columns[1]| == 2 * n
            && forall i :: 0 <= i < n ==>
                 && ch.columns[0][2 * i] == Some(2 * i + 1) && ch.columns[0][2 * i + 1] == Some(2 * i + 2)
                 && ch.columns[1][2 * i] == Some(2 * i + 2) && ch.columns[1][2 * i + 1] == Some(2 * i + 1)
  {
    var rows := seq(n, i => [Some(2 * i + 1), Some(2 * i + 2)]);
    assert forall i :: 0 <= i < n ==> rows[i] == [Some(2 * i + 1), Some(2 * i + 2)];
    SwapColumns(rows);
  }

  /** One more pair of rows appends the old row and then the new one. */
  lemma InterleaveSnoc(a: seq<Row>, b: seq<Row>, x: Row, y: Row)
    requires |a| == |b|
    ensures Interleave(a + [x], b + [y]) == Interleave(a, b) + [x, y]
  {
    var l, r := Interleave(a + [x], b + [y]), Interleave(a, b) + [x, y];
    forall k | 0 <= k < |l|
      ensures l[k] == r[k]
    {
      if k < 2 * |a| {
        assert k / 2 < |a|;
      } else if k == 2 * |a| {
        assert k / 2 == |a| && k % 2 == 0;
      } else {
        assert k / 2 == |a| && k % 2 == 1;
      }
    }
  }

  /** The column of two more rows is the column extended by their datums. */
  lemma ColumnOfSnoc(rows: seq<Row>, x: Row, y: Row, c: nat)
    requires forall k :: 0 <= k < |rows| ==> c < |rows[k]|
    requires c < |x| && c < |y|
    ensures ColumnOf(rows + [x, y], c) == ColumnOf(rows, c) + [x[c], y[c]]
  {
  }

  /** The sum of the notifiers' row counts. */
  function Sum(s: seq<nat>): nat {
    if s == [] then 0 else Sum(s[..|s| - 1]) + s[|s| - 1]
  }

  /** Number of rows over a list of chunks. */
  function TotalRows(chunks: seq<seq<Row>>): nat {
    if chunks == [] then 0 else TotalRows(chunks[..|chunks| - 1]) + |chunks[|chunks| - 1]|
  }

  /** `rows_updated as i64`: two's-complement truncation of the count to 64 bits. */
  function AsI64(n: nat): (r: int)
    ensures -0x8000_0000_0000_0000 <= r < 0x8000_0000_0000_0000
    ensures n < 0x8000_0000_0000_0000 ==> r == n
  {
    var m := n % 0x1_0000_0000_0000_0000;
    if m < 0x8000_0000_0000_0000 then m else m - 0x1_0000_0000_0000_0000
  }

  /** The DML channels of the tables: a table with a reader receives the chunks written to it. */
  class DmlManager {
    var channels: map<nat, seq<StreamChunk>>

    constructor(tables: set<nat>)
      ensures channels == map t | t in tables :: []
    {
      channels := map t | t in tables :: [];
    }

    /** `write_chunk`: the chunk is queued for the table's reader; the notifier resolves to its row count. */
    method WriteChunk(table: nat, chunk: StreamChunk) returns (r: Result<nat, DmlError>)
      modifies this
      ensures table in old(channels) ==> r == Ok(|chunk.ops|) && channels == old(channels)[table := old(channels)[table] + [chunk]]
      ensures table !in old(channels) ==> r == Err(TableNotFound) && channels == old(channels)
    {
      if table in channels {
        channels := channels[table := channels[table] + [chunk]];
        r := Ok(|chunk.ops|);
      } else {
        r := Err(TableNotFound);
      }
    }
  }

  class UpdateExecutor {
    const tableId: nat
    const childTypes: seq<DataType>
    const exprs: seq<UpdateExpr>
    /** The output schema: one Int64 column, the number of updated rows. */
    const schema: seq<DataType>

    /** `UpdateExecutor::new`: the expressions return the child's column types, position by position. */
    constructor(tableId: nat, childTypes: seq<DataType>, exprs: seq<UpdateExpr>)
      requires childTypes == ReturnTypes(exprs)
      ensures this.tableId == tableId && this.childTypes == childTypes && this.exprs == exprs
      ensures schema == [Int64]
      ensures |this.childTypes| == |exprs| && forall j :: 0 <= j < |exprs| ==> this.childTypes[j] == exprs[j].returnType
    {
      this.tableId := tableId;
      this.childTypes := childTypes;
      this.exprs := exprs;
      schema := [Int64];
    }

    /** The cycled ops of one chunk of `n` rows. */
    static method BuildOps(n: nat) returns (ops: seq<Op>)
      ensures ops == UpdateOps(n)
    {
      ops := [];
      var k := 0;
      while k < 2 * n
        invariant 0 <= k <= 2 * n
        invariant ops == UpdateOps(n)[..k]
      {
        ops := ops + [if k % 2 == 0 then UpdateDelete else UpdateInsert];
        k := k + 1;
      }
    }

    /**
     * The column builders of one chunk: each old row and then its updated row is appended,
     * datum by datum, to the builder of its column.
     */
    static method BuildColumns(a: seq<Row>, b: seq<Row>, w: nat) returns (columns: seq<seq<Datum>>)
      requires |a| == |b| && Width(a, w) && Width(b, w)
      ensures forall k :: 0 <= k < |Interleave(a, b)| ==> |Interleave(a, b)[k]| == w
      ensures columns == Columns(Interleave(a, b), w)
    {
      var builders := new seq<Datum>[w](_ => []);
      var i := 0;
      while i < |a|
        invariant 0 <= i <= |a|
        invariant Width(Interleave(a[..i], b[..i]), w)
        invariant forall c :: 0 <= c < w ==> builders[c] == ColumnOf(Interleave(a[..i], b[..i]), c)
      {
        ghost var done := Interleave(a[..i], b[..i]);
        InterleaveSnoc(a[..i], b[..i], a[i], b[i]);
        assert a[..i + 1] == a[..i] + [a[i]] && b[..i + 1] == b[..i] + [b[i]];
        var c := 0;
        while c < w
          invariant 0 <= c <= w
          invariant forall c' :: 0 <= c' < c ==> builders[c'] == ColumnOf(done, c') + [a[i][c'], b[i][c']]
          invariant forall c' :: c <= c' < w ==> builders[c'] == ColumnOf(done, c')
        {
          builders[c] := builders[c] + [a[i][c], b[i][c]];
          c := c + 1;
        }
        forall c' | 0 <= c' < w
          ensures builders[c'] == ColumnOf(Interleave(a[..i + 1], b[..i + 1]), c')
        {
          ColumnOfSnoc(done, a[i], b[i], c');
        }
        i := i + 1;
      }
      assert a[..|a|] == a && b[..|b|] == b;
      columns := builders[..];
    }

    /**
     * `do_execute`: each input chunk (its visible rows) is written as its `UpdateChunk`;
     * the result is the total of the notifiers' counts divided by two, as one Int64 datum.
     * A chunk written to a table without a reader ends the execution with the error.
     */
    method Execute(input: seq<seq<Row>>, dml: DmlManager) returns (r: Result<Row, DmlError>)
      requires forall i :: 0 <= i < |input| ==> Width(input[i], |exprs|)
      modifies dml
      ensures tableId in old(dml.channels) ==>
                && r == Ok([Some(AsI64(TotalRows(input)))])
                && dml.channels == old(dml.channels)[tableId := old(dml.channels)[tableId] + Written(exprs, input)]
      ensures tableId !in old(dml.channels) ==> dml.channels == old(dml.channels) && (input != [] ==> r == Err(TableNotFound))
      ensures input == [] ==> r == Ok([Some(0)]) && dml.channels == old(dml.channels)
    {
      var notifiers: seq<nat> := [];
      ghost var queued: seq<StreamChunk> := [];
      if tableId in dml.channels {
        assert dml.channels[tableId] + queued == dml.channels[tableId];
        UpdateSame(dml.channels, tableId);
      }
      var i := 0;
      while i < |input|
        invariant 0 <= i <= |input|
        invariant |notifiers| == i
        invariant forall j :: 0 <= j < i ==> notifiers[j] == 2 * |input[j]|
        invariant queued == Written(exprs, input[..i])
        invariant tableId in old(dml.channels) ==> dml.channels == old(dml.channels)[tableId := old(dml.channels)[tableId] + queued]
        invariant tableId !in old(dml.channels) ==> dml.channels == old(dml.channels) && i == 0
      {
        var rows := input[i];
        var updated := seq(|rows|, k requires 0 <= k < |rows| => Updated(exprs, rows[k]));
        var columns := BuildColumns(rows, updated, |exprs|);
        var ops := BuildOps(|rows|);
        var chunk := StreamChunk(ops, columns);
        assert chunk == UpdateChunk(exprs, rows);
        var n := dml.WriteChunk(tableId, chunk);
        if n.Err? {
          return Err(n.error);
        }
        ghost var before := old(dml.channels);
        assert (before[tableId] + queued) + [chunk] == before[tableId] + (queued + [chunk]);
        UpdateTwice(before, tableId, before[tableId] + queued, before[tableId] + (queued + [chunk]));
        notifiers := notifiers + [n.value];
        assert input[..i + 1][..i] == input[..i];
        queued := queued + [chunk];
        i := i + 1;
      }
      assert input[..|input|] == input;
      var total := 0;
      var k := 0;
      while k < |notifiers|
        invariant 0 <= k <= |notifiers|
        invariant total == Sum(notifiers[..k])
      {
        assert notifiers[..k + 1][..k] == notifiers[..k];
        total := total + notifiers[k];
        k := k + 1;
      }
      assert notifiers[..|notifiers|] == notifiers;
      NotifiersCountPairs(input, notifiers);
      r := Ok([Some(AsI64(total / 2))]);
    }
  }

  /** The chunks written for a list of input chunks, in order. */
  function Written(exprs: seq<UpdateExpr>, input: seq<seq<Row>>): seq<StreamChunk>
    requires forall i :: 0 <= i < |input| ==> Width(input[i], |exprs|)
  {
    if input == [] then []
    else Written(exprs, input[..|input| - 1]) + [UpdateChunk(exprs, input[|input| - 1])]
  }

  /** Each chunk of `n` rows is written as `2n` rows, so half the notifiers' total is the number of input rows. */
  lemma {:induction false} NotifiersCountPairs(input: seq<seq<Row>>, notifiers: seq<nat>)
    requires |notifiers| == |input|
    requires forall j :: 0 <= j < |input| ==> notifiers[j] == 2 * |input[j]|
    ensures Sum(notifiers) == 2 * TotalRows(input)
    ensures Sum(notifiers) / 2 == TotalRows(input)
  {
    if input != [] {
      var n := |input| - 1;
      NotifiersCountPairs(input[..n], notifiers[..n]);
    }
  }

  lemma UpdateSame<K, V>(m: map<K, V>, k: K)
    requires k in m
    ensures m[k := m[k]] == m
  {
  }

  lemma UpdateTwice<K, V>(m: map<K, V>, k: K, v: V, w: V)
    ensures m[k := v][k := w] == m[k := w]
  {
  }
}
