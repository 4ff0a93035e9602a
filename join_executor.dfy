/**
 * `HashJoinExecutor` as an object: the two sides' hash tables are fields that each
 * processed row updates in place, and the per-row loops of `eq_join_oneside` are
 * methods proved equal to the step functions of `JoinStep`.
 */
module JoinExecutor {
  import opened Wrappers
  import opened Rows
  import opened JoinTypes
  import opened JoinStep

  class HashJoinExecutor {
    const joinType: JoinType
    const leftTypes: seq<DataType>
    const rightTypes: seq<DataType>
    /** Output column types: one side for semi/anti joins, left ++ right otherwise. */
    const schema: seq<DataType>
    const keyL: seq<nat>
    const keyR: seq<nat>
    const pkL: seq<nat>
    const pkR: seq<nat>
    /** The non-equi condition, evaluated on a row of the two sides' combined width; `None` when there is none. */
    const cond: Option<Row -> bool>
    const appendOnlyOptimize: bool
    var htL: HashTable
    var htR: HashTable

    function Width(side: Side): nat {
      if side == Left then |leftTypes| else |rightTypes|
    }

    function KeyIndices(side: Side): seq<nat> {
      if side == Left then keyL else keyR
    }

    function PkIndices(side: Side): seq<nat> {
      if side == Left then pkL else pkR
    }

    function UpdTable(side: Side): HashTable
      reads this
    {
      if side == Left then htL else htR
    }

    function MatTable(side: Side): HashTable
      reads this
    {
      if side == Left then htR else htL
    }

    /**
     * The join condition seen from `side`, evaluated on the row `eq_join_oneside` lays out:
     * left ++ right, except that semi/anti joins place both rows at position 0.
     */
    function Condition(side: Side): (Row, Row) -> bool {
      var c := cond;
      var jt := joinType;
      var n := |leftTypes|;
      (u: Row, m: Row) => match c
                          case None => true
                          case Some(f) => f(ConditionRowAsWritten(jt, side, n, u, m))
    }

    /** Key and pk positions lie within their side's rows, and every stored row has its side's width. */
    predicate Valid()
      reads this
    {
      && IndicesWithin(keyL, |leftTypes|) && IndicesWithin(pkL, |leftTypes|)
      && IndicesWithin(keyR, |rightTypes|) && IndicesWithin(pkR, |rightTypes|)
      && TableWidth(htL, |leftTypes|) && TableWidth(htR, |rightTypes|)
    }

    /** `HashJoinExecutor::new`: output schema, append-only decision, empty hash tables. */
    constructor(jt: JoinType, leftTypes: seq<DataType>, rightTypes: seq<DataType>,
                keyL: seq<nat>, keyR: seq<nat>, pkL: seq<nat>, pkR: seq<nat>,
                cond: Option<Row -> bool>, appendOnly: bool)
      requires IndicesWithin(keyL, |leftTypes|) && IndicesWithin(pkL, |leftTypes|)
      requires IndicesWithin(keyR, |rightTypes|) && IndicesWithin(pkR, |rightTypes|)
      ensures Valid()
      ensures this.joinType == jt && this.leftTypes == leftTypes && this.rightTypes == rightTypes
      ensures this.keyL == keyL && this.keyR == keyR && this.pkL == pkL && this.pkR == pkR && this.cond == cond
      ensures schema == OutputSchema(jt, leftTypes, rightTypes)
      ensures appendOnlyOptimize == AppendOnlyOptimize(appendOnly, pkL, keyL, pkR, keyR)
      ensures htL == map[] && htR == map[]
    {
      joinType := jt;
      this.leftTypes := leftTypes;
      this.rightTypes := rightTypes;
      schema := OutputSchema(jt, leftTypes, rightTypes);
      this.keyL := keyL;
      this.keyR := keyR;
      this.pkL := pkL;
      this.pkR := pkR;
      this.cond := cond;
      appendOnlyOptimize := AppendOnlyOptimize(appendOnly, pkL, keyL, pkR, keyR);
      htL := map[];
      htR := map[];
    }

    /** `check_join_condition`: lays the two rows out with `row_concat` and evaluates the condition. */
    method CheckJoinCondition(side: Side, u: Row, m: Row) returns (b: bool)
      requires |u| == Width(side) && |m| == Width(side.Other())
      ensures b == Condition(side)(u, m)
    {
      match cond
      case None =>
        b := true;
      case Some(f) =>
        var upos, mpos := StartPos(side, |leftTypes|), StartPos(side.Other(), |leftTypes|);
        if IsSemiOrAnti(joinType) {
          upos, mpos := 0, 0;
        }
        var r := RowConcat(u, upos, m, mpos);
        ConcatDetermined(u, upos, m, mpos, r);
        b := f(r);
        assert r == ConditionRowAsWritten(joinType, side, |leftTypes|, u, m);
    }

    /**
     * One matched row of the insert loop: whether it meets the condition, the row with its
     * degree raised if so, and the records `with_match_on_insert` emits for it.
     */
    method MatchOnInsert(side: Side, u: Row, m: JoinRow) returns (hit: bool, m': JoinRow, recs: seq<Record>)
      requires |u| == Width(side) && |m.row| == Width(side.Other())
      ensures hit == Condition(side)(u, m.row) && m' == Bumped(Condition(side), u, m)
      ensures recs == if hit && !ForwardExactlyOnce(joinType, side) then WithMatchOnInsert(joinType, side, u, m) else []
    {
      hit := CheckJoinCondition(side, u, m.row);
      m' := if hit then m.(degree := m.degree + 1) else m;
      recs := if hit && !ForwardExactlyOnce(joinType, side) then WithMatchOnInsert(joinType, side, u, m) else [];
    }

    /**
     * One matched row of the delete loop that does not underflow: whether it meets the
     * condition, the row with its degree lowered if so, and the records `with_match_on_delete`
     * emits for it.
     */
    method MatchOnDelete(side: Side, u: Row, m: JoinRow) returns (hit: bool, m': JoinRow, recs: seq<Record>)
      requires |u| == Width(side) && |m.row| == Width(side.Other())
      ensures hit == Condition(side)(u, m.row)
      ensures !(hit && m.degree == 0) ==> m' == Dropped(Condition(side), u, m)
      ensures recs == if hit && !ForwardExactlyOnce(joinType, side) then WithMatchOnDeleteAsWritten(joinType, side, u, m') else []
    {
      hit := CheckJoinCondition(side, u, m.row);
      m' := if hit && m.degree > 0 then m.(degree := m.degree - 1) else m;
      recs := if hit && !ForwardExactlyOnce(joinType, side) then WithMatchOnDeleteAsWritten(joinType, side, u, m') else [];
    }

    /** The insert loop over the matched rows under the key. */
    method ScanInsert(side: Side, u: Row, es: EntryState) returns (s: Scan)
      requires |u| == Width(side) && EntryWidth(es, Width(side.Other()))
      ensures s == InsertScan(joinType, side, Condition(side), u, es)
    {
      ghost var J := Condition(side);
      var entries: EntryState := [];
      var degree := 0;
      var out: seq<Record> := [];
      var i := 0;
      while i < |es|
        invariant 0 <= i <= |es|
        invariant InsertScan(joinType, side, J, u, es[..i]) == Scan(entries, degree, out)
      {
        var hit, m', recs := MatchOnInsert(side, u, es[i]);
        InsertScanStep(joinType, side, J, u, es, i, Scan(entries, degree, out), hit, m', recs);
        entries := entries + [m'];
        degree := degree + (if hit then 1 else 0);
        out := out + recs;
        i := i + 1;
      }
      assert es[..|es|] == es;
      s := Scan(entries, degree, out);
    }

    /** The delete loop over the matched rows under the key; `dec_degree` fails on a zero degree. */
    method ScanDelete(side: Side, u: Row, es: EntryState) returns (r: Result<Scan, JoinError>)
      requires |u| == Width(side) && EntryWidth(es, Width(side.Other()))
      ensures r == DeleteScan(AsWritten, joinType, side, Condition(side), u, es)
    {
      ghost var J := Condition(side);
      var entries: EntryState := [];
      var matches := 0;
      var out: seq<Record> := [];
      var i := 0;
      while i < |es|
        invariant 0 <= i <= |es|
        invariant DeleteScan(AsWritten, joinType, side, J, u, es[..i]) == Ok(Scan(entries, matches, out))
      {
        var hit, m', recs := MatchOnDelete(side, u, es[i]);
        DeleteScanStep(AsWritten, joinType, side, J, u, es, i, Scan(entries, matches, out), hit, m', recs);
        if hit && es[i].degree == 0 {
          DeleteScanStaysFailed(AsWritten, joinType, side, J, u, es, i + 1);
          return Err(DegreeUnderflow);
        }
        entries := entries + [m'];
        matches := matches + (if hit then 1 else 0);
        out := out + recs;
        i := i + 1;
      }
      assert es[..|es|] == es;
      r := Ok(Scan(entries, matches, out));
    }

    /** The insert half of `eq_join_oneside` for one row: match, count degrees, store the row. */
    method InsertRow(side: Side, op: Op, key: Row, pk: Row, row: Row, U: HashTable, M: HashTable) returns (st: StepOut)
      requires |row| == Width(side) && TableWidth(M, Width(side.Other()))
      ensures st == InsertStep(joinType, side, Condition(side), appendOnlyOptimize, op, key, pk, row, U, M)
    {
      var entry := Lookup(U, key);
      if HasNull(key) || key !in M {
        st := StepOut(U[key := Upsert(entry, JoinRow(pk, row, 0))], M, ForwardIfNotMatched(joinType, side, op, row));
      } else {
        assert EntryWidth(M[key], Width(side.Other()));
        var s := ScanInsert(side, row, M[key]);
        var out := s.out + (if s.matches == 0 then ForwardIfNotMatched(joinType, side, op, row)
                            else ForwardExactlyOnceIfMatched(joinType, side, op, row));
        if appendOnlyOptimize && s.entries != [] {
          st := StepOut(U[key := entry], M[key := RemovePk(s.entries, s.entries[0].pk)], out);
        } else {
          st := StepOut(U[key := Upsert(entry, JoinRow(pk, row, s.matches))], M[key := s.entries], out);
        }
      }
    }

    /** The delete half of `eq_join_oneside` for one row: remove it by pk, then retract its matches. */
    method DeleteRow(side: Side, op: Op, key: Row, pk: Row, row: Row, U: HashTable, M: HashTable) returns (r: Result<StepOut, JoinError>)
      requires |row| == Width(side) && TableWidth(M, Width(side.Other()))
      ensures r == DeleteStep(AsWritten, joinType, side, Condition(side), op, key, pk, row, U, M)
    {
      var newU := if key in U then U[key := RemovePk(U[key], pk)] else U;
      if HasNull(key) || key !in M {
        r := Ok(StepOut(newU, M, ForwardIfNotMatched(joinType, side, op, row)));
      } else {
        assert EntryWidth(M[key], Width(side.Other()));
        var d := ScanDelete(side, row, M[key]);
        if d.Err? {
          return Err(d.error);
        }
        r := Ok(StepOut(newU, M[key := d.value.entries],
                        d.value.out + (if d.value.matches == 0 then ForwardIfNotMatched(joinType, side, op, row)
                                       else ForwardExactlyOnceIfMatched(joinType, side, op, row))));
      }
    }

    /** The step of `JoinStep` for one row of `side`, with the executor's join type, condition and keys. */
    function RowStep(side: Side, op: Op, row: Row, U: HashTable, M: HashTable): Result<StepOut, JoinError>
      requires IndicesWithin(KeyIndices(side), |row|) && IndicesWithin(PkIndices(side), |row|)
    {
      Step(AsWritten, joinType, side, Condition(side), appendOnlyOptimize, op,
           Project(row, KeyIndices(side)), Project(row, PkIndices(side)), row, U, M)
    }

    /**
     * One row of `eq_join_oneside`: the side's tables become those of `Step`, and its
     * records are returned. When a degree would drop below zero the error is returned
     * and both tables are left as they were.
     */
    method ProcessRow(side: Side, op: Op, row: Row) returns (res: Result<seq<Record>, JoinError>)
      requires Valid() && |row| == Width(side)
      modifies this
      ensures Valid()
      ensures var st := RowStep(side, op, row, old(UpdTable(side)), old(MatTable(side)));
              && (res.Ok? <==> st.Ok?)
              && (st.Ok? ==> res.value == st.value.out && UpdTable(side) == st.value.upd && MatTable(side) == st.value.mat)
              && (st.Err? ==> htL == old(htL) && htR == old(htR))
    {
      var U, M := UpdTable(side), MatTable(side);
      var key := Project(row, KeyIndices(side));
      var pk := Project(row, PkIndices(side));
      ghost var J := Condition(side);
      var st: StepOut;
      if op.Adds() {
        st := InsertRow(side, op, key, pk, row, U, M);
      } else {
        var r := DeleteRow(side, op, key, pk, row, U, M);
        if r.Err? {
          return Err(r.error);
        }
        st := r.value;
      }
      assert Step(AsWritten, joinType, side, J, appendOnlyOptimize, op, key, pk, row, U, M) == Ok(st);
      StepKeepsWidths(AsWritten, joinType, side, J, appendOnlyOptimize, op, key, pk, row, U, M, Width(side), Width(side.Other()));
      if side == Left {
        htL, htR := st.upd, st.mat;
      } else {
        htR, htL := st.upd, st.mat;
      }
      res := Ok(st.out);
    }

    /** A chunk of one side: an op per row, every row of the side's width, its key and pk positions within it. */
    predicate Fits(side: Side, ops: seq<Op>, rows: seq<Row>) {
      && |ops| == |rows|
      && IndicesWithin(KeyIndices(side), Width(side)) && IndicesWithin(PkIndices(side), Width(side))
      && forall i :: 0 <= i < |rows| ==> |rows[i]| == Width(side)
    }

    /** The rows of a chunk processed in order: the tables after each and all records, or the first error. */
    function ChunkResult(side: Side, ops: seq<Op>, rows: seq<Row>, U: HashTable, M: HashTable): Result<StepOut, JoinError>
      requires Fits(side, ops, rows)
      decreases |rows|
    {
      if rows == [] then Ok(StepOut(U, M, []))
      else
        var n := |rows| - 1;
        match ChunkResult(side, ops[..n], rows[..n], U, M)
        case Err(e) => Err(e)
        case Ok(p) =>
          match RowStep(side, ops[n], rows[n], p.upd, p.mat)
          case Err(e) => Err(e)
          case Ok(q) => Ok(StepOut(q.upd, q.mat, p.out + q.out))
    }

    /**
     * The tables once the chunk has been processed up to its first error: those after the
     * longest prefix of the chunk that did not fail (the whole chunk when none fails).
     */
    function ChunkTables(side: Side, ops: seq<Op>, rows: seq<Row>, U: HashTable, M: HashTable): (HashTable, HashTable)
      requires Fits(side, ops, rows)
      decreases |rows|
    {
      match ChunkResult(side, ops, rows, U, M)
      case Ok(p) => (p.upd, p.mat)
      case Err(_) =>
        if rows == [] then (U, M)
        else ChunkTables(side, ops[..|rows| - 1], rows[..|rows| - 1], U, M)
    }

    /** `eq_join_oneside` over one chunk: every row in order, stopping at the first error. */
    method ProcessChunk(side: Side, ops: seq<Op>, rows: seq<Row>) returns (res: Result<seq<Record>, JoinError>)
      requires Valid() && |ops| == |rows|
      requires forall i :: 0 <= i < |rows| ==> |rows[i]| == Width(side)
      modifies this
      ensures Valid()
      ensures var cr := ChunkResult(side, ops, rows, old(UpdTable(side)), old(MatTable(side)));
              && (res.Ok? <==> cr.Ok?)
              && (cr.Ok? ==> res.value == cr.value.out && UpdTable(side) == cr.value.upd && MatTable(side) == cr.value.mat)
              && (cr.Err? ==> (UpdTable(side), MatTable(side)) == ChunkTables(side, ops, rows, old(UpdTable(side)), old(MatTable(side))))
    {
      ghost var U0, M0 := UpdTable(side), MatTable(side);
      var out: seq<Record> := [];
      var i := 0;
      while i < |rows|
        invariant 0 <= i <= |rows| && Valid()
        invariant ChunkResult(side, ops[..i], rows[..i], U0, M0) == Ok(StepOut(UpdTable(side), MatTable(side), out))
      {
        ChunkResultStep(side, ops, rows, U0, M0, i, StepOut(UpdTable(side), MatTable(side), out));
        var r := ProcessRow(side, ops[i], rows[i]);
        if r.Err? {
          ChunkFailsAt(side, ops, rows, U0, M0, i, StepOut(UpdTable(side), MatTable(side), out));
          return Err(r.error);
        }
        out := out + r.value;
        i := i + 1;
      }
      assert ops[..|ops|] == ops && rows[..|rows|] == rows;
      res := Ok(out);
    }

    /** One more row of the chunk after a prefix that did not fail. */
    lemma ChunkResultStep(side: Side, ops: seq<Op>, rows: seq<Row>, U: HashTable, M: HashTable, i: nat, p: StepOut)
      requires Fits(side, ops, rows) && i < |rows|
      requires ChunkResult(side, ops[..i], rows[..i], U, M) == Ok(p)
      ensures ChunkResult(side, ops[..i + 1], rows[..i + 1], U, M) ==
                match RowStep(side, ops[i], rows[i], p.upd, p.mat)
                case Err(e) => Err(e)
                case Ok(q) => Ok(StepOut(q.upd, q.mat, p.out + q.out))
    {
      assert ops[..i + 1][..i] == ops[..i] && rows[..i + 1][..i] == rows[..i];
    }

    /** When row `i` is the first to fail, the chunk fails and leaves the tables of the rows before it. */
    lemma ChunkFailsAt(side: Side, ops: seq<Op>, rows: seq<Row>, U: HashTable, M: HashTable, i: nat, p: StepOut)
      requires Fits(side, ops, rows) && i < |rows|
      requires ChunkResult(side, ops[..i], rows[..i], U, M) == Ok(p)
      requires ChunkResult(side, ops[..i + 1], rows[..i + 1], U, M).Err?
      ensures ChunkResult(side, ops, rows, U, M).Err?
      ensures ChunkTables(side, ops, rows, U, M) == (p.upd, p.mat)
    {
      ChunkStaysFailed(side, ops, rows, U, M, i + 1);
      ChunkTablesAfterFailure(side, ops, rows, U, M, i + 1, |rows|);
      ChunkTablesFailed(side, ops[..i + 1], rows[..i + 1], U, M);
      assert ops[..i + 1][..i] == ops[..i] && rows[..i + 1][..i] == rows[..i];
      ChunkTablesDone(side, ops[..i], rows[..i], U, M, p);
      assert ops[..|rows|] == ops && rows[..|rows|] == rows;
    }

    /** Once the prefix of `j` rows fails, every longer prefix leaves the tables that prefix leaves. */
    lemma {:induction false} ChunkTablesAfterFailure(side: Side, ops: seq<Op>, rows: seq<Row>, U: HashTable, M: HashTable,
                                                     j: nat, k: nat)
      requires Fits(side, ops, rows) && 0 < j <= k <= |rows|
      requires ChunkResult(side, ops[..j], rows[..j], U, M).Err?
      ensures ChunkTables(side, ops[..k], rows[..k], U, M) == ChunkTables(side, ops[..j], rows[..j], U, M)
      decreases k
    {
      if k > j {
        ChunkTablesAfterFailure(side, ops, rows, U, M, j, k - 1);
        var o, r := ops[..k], rows[..k];
        assert o[..j] == ops[..j] && r[..j] == rows[..j];
        ChunkStaysFailed(side, o, r, U, M, j);
        ChunkTablesFailed(side, o, r, U, M);
        assert o[..k - 1] == ops[..k - 1] && r[..k - 1] == rows[..k - 1];
      }
    }

    /** A chunk that does not fail leaves the tables it computes. */
    lemma ChunkTablesDone(side: Side, ops: seq<Op>, rows: seq<Row>, U: HashTable, M: HashTable, p: StepOut)
      requires Fits(side, ops, rows) && ChunkResult(side, ops, rows, U, M) == Ok(p)
      ensures ChunkTables(side, ops, rows, U, M) == (p.upd, p.mat)
    {
    }

    /** A failing chunk leaves the tables of the chunk without its last row. */
    lemma ChunkTablesFailed(side: Side, ops: seq<Op>, rows: seq<Row>, U: HashTable, M: HashTable)
      requires Fits(side, ops, rows) && rows != [] && ChunkResult(side, ops, rows, U, M).Err?
      ensures ChunkTables(side, ops, rows, U, M) == ChunkTables(side, ops[..|rows| - 1], rows[..|rows| - 1], U, M)
    {
    }

    /** Once a prefix of the chunk fails, every longer prefix fails. */
    lemma {:induction false} ChunkStaysFailed(side: Side, ops: seq<Op>, rows: seq<Row>, U: HashTable, M: HashTable, k: nat)
      requires Fits(side, ops, rows) && 0 < k <= |rows|
      requires ChunkResult(side, ops[..k], rows[..k], U, M).Err?
      ensures ChunkResult(side, ops, rows, U, M).Err?
      decreases |rows| - k
    {
      if k < |rows| {
        assert ops[..k + 1][..k] == ops[..k] && rows[..k + 1][..k] == rows[..k];
        ChunkStaysFailed(side, ops, rows, U, M, k + 1);
      } else {
        assert ops[..k] == ops && rows[..k] == rows;
      }
    }
  }

  /** Once the delete loop fails on a prefix of the entry, it fails on every longer prefix. */
  lemma {:induction false} DeleteScanStaysFailed(v: DeleteMode, jt: JoinType, side: Side, J: (Row, Row) -> bool, u: Row, es: EntryState, k: nat)
    requires 0 < k <= |es| && DeleteScan(v, jt, side, J, u, es[..k]).Err?
    ensures DeleteScan(v, jt, side, J, u, es) == Err(DegreeUnderflow)
    decreases |es| - k
  {
    if k < |es| {
      assert es[..k + 1][..k] == es[..k];
      DeleteScanStaysFailed(v, jt, side, J, u, es, k + 1);
    } else {
      assert es[..k] == es;
      assert DeleteScan(v, jt, side, J, u, es).error.DegreeUnderflow?;
    }
  }
}
