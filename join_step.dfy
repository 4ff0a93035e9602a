/**
 * The per-row step of the streaming hash join as a function of the two sides' join
 * states: which matched rows change degree, what is stored or removed, and which
 * changelog records `HashJoinChunkBuilder` emits for each join type and side.
 *
 * A side's state maps a join key to its entry: the rows with that key, unique by
 * primary key, in iteration order, each with its degree (how many rows of the other
 * side it currently joins with under the non-equi condition).
 */
module JoinStep {
  import opened Wrappers
  import opened Rows
  import opened JoinTypes

  /** `JoinRow`: a stored row, its primary key and its match degree. */
  datatype JoinRow = JoinRow(pk: Row, row: Row, degree: nat)

  /** `JoinEntryState`: the rows sharing one join key. */
  type EntryState = seq<JoinRow>

  /** `JoinHashMap`: join key to entry. */
  type HashTable = map<Row, EntryState>

  datatype JoinError = DegreeUnderflow

  /** An output row before layout: the left and right parts, `None` where padded with NULLs or not output. */
  datatype OutRow = OutRow(left: Option<Row>, right: Option<Row>)

  datatype Record = Record(op: Op, row: OutRow)

  /** `key.has_null()`. */
  predicate HasNull(key: Row) {
    None in key
  }

  function Pks(e: EntryState): set<Row> {
    set i | 0 <= i < |e| :: e[i].pk
  }

  lemma PksAppend(e: EntryState, x: JoinRow)
    ensures Pks(e + [x]) == Pks(e) + {x.pk}
  {
    var e' := e + [x];
    forall p | p in Pks(e') ensures p in Pks(e) + {x.pk} {
      var i :| 0 <= i < |e'| && e'[i].pk == p;
      if i < |e| {
        assert e'[i] == e[i];
      }
    }
    forall p | p in Pks(e) ensures p in Pks(e') {
      var i :| 0 <= i < |e| && e[i].pk == p;
      assert e'[i] == e[i];
    }
    assert e'[|e|] == x;
  }

  /** The entry under `key`, or the empty entry `get_or_init` would create. */
  function Lookup(t: HashTable, key: Row): EntryState {
    if key in t then t[key] else []
  }

  /**
   * `JoinEntryState::insert`: a row with a new pk is appended; a row with a stored pk takes
   * that row's place, and every other row keeps its place, contents and degree.
   */
  function Upsert(e: EntryState, jr: JoinRow): (r: EntryState)
    ensures jr in r
    ensures Pks(r) == Pks(e) + {jr.pk}
    ensures jr.pk !in Pks(e) ==> r == e + [jr]
    ensures jr.pk in Pks(e) ==> |r| == |e| && forall i :: 0 <= i < |e| ==> r[i] == (if e[i].pk == jr.pk then jr else e[i])
  {
    if jr.pk in Pks(e) then
      var r := seq(|e|, i requires 0 <= i < |e| => if e[i].pk == jr.pk then jr else e[i]);
      assert forall i :: 0 <= i < |e| ==> r[i].pk == e[i].pk;
      r
    else
      PksAppend(e, jr);
      e + [jr]
  }

  /**
   * `JoinEntryState::remove`: the rows of the entry whose pk differs, in their order; the
   * pk is gone from the entry and nothing else is.
   */
  function RemovePk(e: EntryState, pk: Row): (r: EntryState)
    ensures Pks(r) == Pks(e) - {pk}
    ensures forall x :: x in r <==> x in e && x.pk != pk
    ensures |r| <= |e|
    ensures pk !in Pks(e) ==> r == e
  {
    if e == [] then []
    else
      var init := RemovePk(e[..|e| - 1], pk);
      var last := e[|e| - 1];
      assert e == e[..|e| - 1] + [last];
      PksAppend(e[..|e| - 1], last);
      PksAppend(init, last);
      if last.pk == pk then init else init + [last]
  }

  /** The output row of an update row joined with a matched row. */
  function Joined(side: Side, u: Row, m: Row): OutRow {
    if side == Left then OutRow(Some(u), Some(m)) else OutRow(Some(m), Some(u))
  }

  /** `append_row_update`: the update row alone, the other side padded (or not output). */
  function UpdateOnly(side: Side, u: Row): OutRow {
    if side == Left then OutRow(Some(u), None) else OutRow(None, Some(u))
  }

  /** `append_row_matched`: the matched row alone, the update side padded (or not output). */
  function MatchedOnly(side: Side, m: Row): OutRow {
    if side == Left then OutRow(None, Some(m)) else OutRow(Some(m), None)
  }

  /**
   * `with_match_on_insert`: the records for an update row meeting one matched row,
   * given the matched row's degree before it is incremented.
   */
  function WithMatchOnInsert(jt: JoinType, side: Side, u: Row, m: JoinRow): seq<Record> {
    if IsAnti(jt) then
      if m.degree == 0 && OnlyForwardMatchedSide(jt, side) then [Record(Delete, MatchedOnly(side, m.row))] else []
    else if IsSemi(jt) then
      if m.degree == 0 && OnlyForwardMatchedSide(jt, side) then [Record(Insert, MatchedOnly(side, m.row))] else []
    else if m.degree == 0 && OuterSideNull(jt, side) then
      [Record(UpdateDelete, MatchedOnly(side, m.row)), Record(UpdateInsert, Joined(side, u, m.row))]
    else
      [Record(Insert, Joined(side, u, m.row))]
  }

  /**
   * `with_match_on_delete` as the source writes it, given the matched row's degree after
   * it is decremented: on the NULL-padded side of an outer join it retracts the padded
   * matched row instead of the joined row.
   */
  function WithMatchOnDeleteAsWritten(jt: JoinType, side: Side, u: Row, m: JoinRow): seq<Record> {
    if IsAnti(jt) then
      if m.degree == 0 && OnlyForwardMatchedSide(jt, side) then [Record(Insert, MatchedOnly(side, m.row))] else []
    else if IsSemi(jt) then
      if m.degree == 0 && OnlyForwardMatchedSide(jt, side) then [Record(Delete, MatchedOnly(side, m.row))] else []
    else if m.degree == 0 && OuterSideNull(jt, side) then
      [Record(UpdateDelete, MatchedOnly(side, m.row)), Record(UpdateInsert, MatchedOnly(side, m.row))]
    else
      [Record(Delete, Joined(side, u, m.row))]
  }

  /**
   * `with_match_on_delete` corrected: when the matched row's last match goes away it
   * retracts the joined row and re-emits the matched row padded with NULLs.
   */
  function WithMatchOnDelete(jt: JoinType, side: Side, u: Row, m: JoinRow): seq<Record> {
    if IsAnti(jt) then
      if m.degree == 0 && OnlyForwardMatchedSide(jt, side) then [Record(Insert, MatchedOnly(side, m.row))] else []
    else if IsSemi(jt) then
      if m.degree == 0 && OnlyForwardMatchedSide(jt, side) then [Record(Delete, MatchedOnly(side, m.row))] else []
    else if m.degree == 0 && OuterSideNull(jt, side) then
      [Record(UpdateDelete, Joined(side, u, m.row)), Record(UpdateInsert, MatchedOnly(side, m.row))]
    else
      [Record(Delete, Joined(side, u, m.row))]
  }

  /**
   * Which `with_match_on_delete` a delete uses: the source's, or the corrected one that
   * retracts the joined row when a matched row on the NULL-padded side loses its last match.
   */
  datatype DeleteMode = AsWritten | Corrected

  function WithMatchOnDeleteBy(v: DeleteMode, jt: JoinType, side: Side, u: Row, m: JoinRow): seq<Record> {
    if v == Corrected then WithMatchOnDelete(jt, side, u, m) else WithMatchOnDeleteAsWritten(jt, side, u, m)
  }

  /**
   * The delete records retract what the insert records added: the corrected ones for every
   * side, the source's away from the NULL-padded side of an outer join.
   */
  predicate RetractsJoined(v: DeleteMode, jt: JoinType, side: Side) {
    v == Corrected || !OuterSideNull(jt, side)
  }

  /** Away from the NULL-padded side of an outer join the source's delete records are the corrected ones. */
  lemma AsWrittenAgreesOffPaddedSide(jt: JoinType, side: Side, u: Row, m: JoinRow)
    requires !OuterSideNull(jt, side)
    ensures WithMatchOnDeleteAsWritten(jt, side, u, m) == WithMatchOnDelete(jt, side, u, m)
  {
  }

  /** `forward_if_not_matched`: only outer sides and the kept side of an anti join forward an unmatched row. */
  function ForwardIfNotMatched(jt: JoinType, side: Side, op: Op, u: Row): (r: seq<Record>)
    ensures r != [] <==> IsOuterSide(jt, side) || (IsAnti(jt) && side == KeptSide(jt))
    ensures r != [] ==> r == [Record(op, UpdateOnly(side, u))]
  {
    if (IsAnti(jt) && ForwardExactlyOnce(jt, side)) || IsOuterSide(jt, side) then [Record(op, UpdateOnly(side, u))] else []
  }

  /** `forward_exactly_once_if_matched`: only the kept side of a semi join forwards a matched row itself. */
  function ForwardExactlyOnceIfMatched(jt: JoinType, side: Side, op: Op, u: Row): (r: seq<Record>)
    ensures r != [] <==> IsSemi(jt) && side == KeptSide(jt)
    ensures r != [] ==> r == [Record(op, UpdateOnly(side, u))]
  {
    if IsSemi(jt) && ForwardExactlyOnce(jt, side) then [Record(op, UpdateOnly(side, u))] else []
  }

  /** How many rows of the entry meet the condition with `u`. */
  function CountMatching(J: (Row, Row) -> bool, u: Row, es: EntryState): nat {
    if es == [] then 0 else (if J(u, es[0].row) then 1 else 0) + CountMatching(J, u, es[1..])
  }

  lemma {:induction false} CountMatchingSnoc(J: (Row, Row) -> bool, u: Row, es: EntryState)
    requires es != []
    ensures CountMatching(J, u, es) == CountMatching(J, u, es[..|es| - 1]) + (if J(u, es[|es| - 1].row) then 1 else 0)
    decreases |es|
  {
    if |es| > 1 {
      CountMatchingSnoc(J, u, es[1..]);
      assert es[1..][..|es[1..]| - 1] == es[..|es| - 1][1..];
    }
  }

  /** Result of scanning a matched entry: the entry afterwards, how many rows matched, the records emitted. */
  datatype Scan = Scan(entries: EntryState, matches: nat, out: seq<Record>)

  /**
   * The insert loop over a matched entry: every row meeting the condition `J(u, row)`
   * is counted and has its degree incremented; the rest are untouched.
   */
  function InsertScan(jt: JoinType, side: Side, J: (Row, Row) -> bool, u: Row, es: EntryState): (r: Scan)
    ensures |r.entries| == |es| && r.matches <= |es|
    decreases |es|
  {
    if es == [] then Scan([], 0, [])
    else
      var p := InsertScan(jt, side, J, u, es[..|es| - 1]);
      var m := es[|es| - 1];
      if J(u, m.row) then
        Scan(p.entries + [m.(degree := m.degree + 1)], p.matches + 1,
             p.out + (if ForwardExactlyOnce(jt, side) then [] else WithMatchOnInsert(jt, side, u, m)))
      else
        Scan(p.entries + [m], p.matches, p.out)
  }

  /** A matched row after the insert loop: one more degree if it meets the condition with `u`. */
  function Bumped(J: (Row, Row) -> bool, u: Row, m: JoinRow): JoinRow {
    if J(u, m.row) then m.(degree := m.degree + 1) else m
  }

  /** After the insert loop every matched row meeting the condition has gained one degree; the others are untouched. */
  lemma {:induction false} InsertScanEntries(jt: JoinType, side: Side, J: (Row, Row) -> bool, u: Row, es: EntryState)
    ensures var r := InsertScan(jt, side, J, u, es);
      forall i :: 0 <= i < |es| ==>
        r.entries[i] == Bumped(J, u, es[i])
    decreases |es|
  {
    if es != [] {
      var init := es[..|es| - 1];
      InsertScanEntries(jt, side, J, u, init);
      assert forall i :: 0 <= i < |init| ==> init[i] == es[i];
    }
  }

  /**
   * The degree the insert loop computes for the update row is the number of matched rows
   * meeting the condition; records are emitted only when some row matched and the side
   * is not forwarded exactly once.
   */
  lemma {:induction false} InsertScanMatches(jt: JoinType, side: Side, J: (Row, Row) -> bool, u: Row, es: EntryState)
    ensures var r := InsertScan(jt, side, J, u, es);
      && r.matches == CountMatching(J, u, es)
      && (r.matches == 0 <==> forall i :: 0 <= i < |es| ==> !J(u, es[i].row))
      && (r.matches == 0 || ForwardExactlyOnce(jt, side) ==> r.out == [])
    decreases |es|
  {
    if es != [] {
      var init := es[..|es| - 1];
      InsertScanMatches(jt, side, J, u, init);
      CountMatchingSnoc(J, u, es);
      assert forall i :: 0 <= i < |init| ==> init[i] == es[i];
    }
  }

  /**
   * The delete loop over a matched entry: every row meeting the condition has its degree
   * decremented; decrementing a zero degree is an error.
   */
  function DeleteScan(v: DeleteMode, jt: JoinType, side: Side, J: (Row, Row) -> bool, u: Row, es: EntryState): (r: Result<Scan, JoinError>)
    ensures r.Ok? ==> |r.value.entries| == |es| && r.value.matches <= |es|
    decreases |es|
  {
    if es == [] then Ok(Scan([], 0, []))
    else
      var p := DeleteScan(v, jt, side, J, u, es[..|es| - 1]);
      var m := es[|es| - 1];
      if p.Err? then p
      else if J(u, m.row) then
        if m.degree == 0 then Err(DegreeUnderflow)
        else
          var m' := m.(degree := m.degree - 1);
          Ok(Scan(p.value.entries + [m'], p.value.matches + 1,
                  p.value.out + (if ForwardExactlyOnce(jt, side) then [] else WithMatchOnDeleteBy(v, jt, side, u, m'))))
      else
        Ok(Scan(p.value.entries + [m], p.value.matches, p.value.out))
  }

  /** The delete loop fails exactly when some row meeting the condition has degree zero. */
  lemma {:induction false} DeleteScanFails(v: DeleteMode, jt: JoinType, side: Side, J: (Row, Row) -> bool, u: Row, es: EntryState)
    ensures DeleteScan(v, jt, side, J, u, es).Ok? <==> forall i :: 0 <= i < |es| && J(u, es[i].row) ==> es[i].degree > 0
    decreases |es|
  {
    if es != [] {
      var init := es[..|es| - 1];
      DeleteScanFails(v, jt, side, J, u, init);
      assert forall i :: 0 <= i < |init| ==> init[i] == es[i];
    }
  }

  /** A matched row after a successful delete loop: one degree less if it meets the condition with `u`. */
  function Dropped(J: (Row, Row) -> bool, u: Row, m: JoinRow): JoinRow {
    if J(u, m.row) && m.degree > 0 then m.(degree := m.degree - 1) else m
  }

  /** After a successful delete loop every matched row meeting the condition has lost one degree; the others are untouched. */
  lemma {:induction false} DeleteScanEntries(v: DeleteMode, jt: JoinType, side: Side, J: (Row, Row) -> bool, u: Row, es: EntryState)
    ensures var r := DeleteScan(v, jt, side, J, u, es);
      r.Ok? ==> forall i :: 0 <= i < |es| ==> r.value.entries[i] == Dropped(J, u, es[i])
    decreases |es|
  {
    if es != [] {
      var init := es[..|es| - 1];
      DeleteScanEntries(v, jt, side, J, u, init);
      assert forall i :: 0 <= i < |init| ==> init[i] == es[i];
    }
  }

  /**
   * A successful delete loop counts the matched rows meeting the condition; records are
   * emitted only when some row matched and the side is not forwarded exactly once.
   */
  lemma {:induction false} DeleteScanMatches(v: DeleteMode, jt: JoinType, side: Side, J: (Row, Row) -> bool, u: Row, es: EntryState)
    ensures var r := DeleteScan(v, jt, side, J, u, es);
      && (r.Ok? ==> r.value.matches == CountMatching(J, u, es))
      && (r.Ok? ==> (r.value.matches == 0 <==> forall i :: 0 <= i < |es| ==> !J(u, es[i].row)))
      && (r.Ok? && (r.value.matches == 0 || ForwardExactlyOnce(jt, side)) ==> r.value.out == [])
    decreases |es|
  {
    if es != [] {
      var init, x := es[..|es| - 1], es[|es| - 1];
      DeleteScanMatches(v, jt, side, J, u, init);
      CountMatchingSnoc(J, u, es);
      assert es == init + [x];
      DeleteScanSnoc(v, jt, side, J, u, init, x);
      assert forall i :: 0 <= i < |init| ==> init[i] == es[i];
    }
  }

  /** `hash_eq_match`: a key with a NULL never looks up the other side. */
  function MatchedEntries(key: Row, t: HashTable): Option<EntryState> {
    if HasNull(key) || key !in t then None else Some(t[key])
  }

  /** The two sides' states after a step, and the records it emitted. */
  datatype StepOut = StepOut(upd: HashTable, mat: HashTable, out: seq<Record>)

  /**
   * An Insert or UpdateInsert of row `u` (join key `key`, primary key `pk`) on the update
   * side, whose state is `U`, against the matched side's state `M`.
   */
  function InsertStep(jt: JoinType, side: Side, J: (Row, Row) -> bool, appendOnly: bool,
                      op: Op, key: Row, pk: Row, u: Row, U: HashTable, M: HashTable): StepOut
  {
    var entry := Lookup(U, key);
    match MatchedEntries(key, M)
    case None =>
      StepOut(U[key := Upsert(entry, JoinRow(pk, u, 0))], M, ForwardIfNotMatched(jt, side, op, u))
    case Some(es) =>
      var s := InsertScan(jt, side, J, u, es);
      var out := s.out + (if s.matches == 0 then ForwardIfNotMatched(jt, side, op, u)
                          else ForwardExactlyOnceIfMatched(jt, side, op, u));
      if appendOnly && s.entries != [] then
        StepOut(U[key := entry], M[key := RemovePk(s.entries, s.entries[0].pk)], out)
      else
        StepOut(U[key := Upsert(entry, JoinRow(pk, u, s.matches))], M[key := s.entries], out)
  }

  /** A Delete or UpdateDelete of row `u`: removed from its own side by pk, then matched. */
  function DeleteStep(v: DeleteMode, jt: JoinType, side: Side, J: (Row, Row) -> bool,
                      op: Op, key: Row, pk: Row, u: Row, U: HashTable, M: HashTable): Result<StepOut, JoinError>
  {
    var U' := if key in U then U[key := RemovePk(U[key], pk)] else U;
    match MatchedEntries(key, M)
    case None => Ok(StepOut(U', M, ForwardIfNotMatched(jt, side, op, u)))
    case Some(es) =>
      match DeleteScan(v, jt, side, J, u, es)
      case Err(e) => Err(e)
      case Ok(s) =>
        Ok(StepOut(U', M[key := s.entries],
                   s.out + (if s.matches == 0 then ForwardIfNotMatched(jt, side, op, u)
                            else ForwardExactlyOnceIfMatched(jt, side, op, u))))
  }

  /** One row of `eq_join_oneside`: Insert/UpdateInsert insert, Delete/UpdateDelete delete. */
  function Step(v: DeleteMode, jt: JoinType, side: Side, J: (Row, Row) -> bool, appendOnly: bool,
                op: Op, key: Row, pk: Row, u: Row, U: HashTable, M: HashTable): Result<StepOut, JoinError> {
    if op.Adds() then Ok(InsertStep(jt, side, J, appendOnly, op, key, pk, u, U, M))
    else DeleteStep(v, jt, side, J, op, key, pk, u, U, M)
  }

  /** An insert rewrites the update side's entry under the row's join key and at most the matched side's entry under it. */
  lemma InsertStepFrame(jt: JoinType, side: Side, J: (Row, Row) -> bool, appendOnly: bool,
                        op: Op, key: Row, pk: Row, u: Row, U: HashTable, M: HashTable)
    ensures var r := InsertStep(jt, side, J, appendOnly, op, key, pk, u, U, M);
            && key in r.upd && r.upd == U[key := r.upd[key]]
            && (r.mat == M || (key in r.mat && r.mat == M[key := r.mat[key]]))
  {
    var r := InsertStep(jt, side, J, appendOnly, op, key, pk, u, U, M);
    var entry := Lookup(U, key);
    match MatchedEntries(key, M)
    case None =>
      Overwritten(U, key, Upsert(entry, JoinRow(pk, u, 0)));
      assert r.upd == U[key := Upsert(entry, JoinRow(pk, u, 0))];
      assert r.mat == M;
    case Some(es) =>
      var s := InsertScan(jt, side, J, u, es);
      if appendOnly && s.entries != [] {
        Overwritten(U, key, entry);
        Overwritten(M, key, RemovePk(s.entries, s.entries[0].pk));
        assert r.upd == U[key := entry];
        assert r.mat == M[key := RemovePk(s.entries, s.entries[0].pk)];
      } else {
        Overwritten(U, key, Upsert(entry, JoinRow(pk, u, s.matches)));
        Overwritten(M, key, s.entries);
        assert r.upd == U[key := Upsert(entry, JoinRow(pk, u, s.matches))];
        assert r.mat == M[key := s.entries];
      }
  }

  /** A delete that succeeds rewrites at most the two sides' entries under the row's join key. */
  lemma DeleteStepFrame(v: DeleteMode, jt: JoinType, side: Side, J: (Row, Row) -> bool,
                        op: Op, key: Row, pk: Row, u: Row, U: HashTable, M: HashTable)
    ensures var r := DeleteStep(v, jt, side, J, op, key, pk, u, U, M);
            r.Ok? ==> && (r.value.upd == U || (key in r.value.upd && r.value.upd == U[key := r.value.upd[key]]))
                      && (r.value.mat == M || (key in r.value.mat && r.value.mat == M[key := r.value.mat[key]]))
  {
    var r := DeleteStep(v, jt, side, J, op, key, pk, u, U, M);
    if key in U {
      Overwritten(U, key, RemovePk(U[key], pk));
    }
    match MatchedEntries(key, M)
    case None =>
    case Some(es) =>
      match DeleteScan(v, jt, side, J, u, es)
      case Err(_) =>
      case Ok(s) =>
        Overwritten(M, key, s.entries);
        assert r.value.mat == M[key := s.entries];
  }

  /**
   * `hash_eq_match` finds nothing for a key with a NULL or a key the other side lacks: the
   * other side is left alone and the row is forwarded as unmatched (or not at all).
   */
  lemma UnmatchedKeyForwarded(v: DeleteMode, jt: JoinType, side: Side, J: (Row, Row) -> bool, appendOnly: bool,
                              op: Op, key: Row, pk: Row, u: Row, U: HashTable, M: HashTable)
    requires HasNull(key) || key !in M
    ensures var r := Step(v, jt, side, J, appendOnly, op, key, pk, u, U, M);
            && r.Ok? && r.value.mat == M && r.value.out == ForwardIfNotMatched(jt, side, op, u)
  {
  }

  /** After writing `v` under `k`, the map is the original with `k` overwritten by what it now holds. */
  lemma Overwritten<K, V>(m: map<K, V>, k: K, v: V)
    ensures k in m[k := v] && m[k := v] == m[k := m[k := v][k]]
  {
  }

  /** The rows a sequence of records adds downstream (Insert, UpdateInsert), in order. */
  function AddedRows(recs: seq<Record>): seq<OutRow> {
    if recs == [] then []
    else AddedRows(recs[..|recs| - 1]) + (if recs[|recs| - 1].op.Adds() then [recs[|recs| - 1].row] else [])
  }

  /** The rows a sequence of records retracts downstream (Delete, UpdateDelete), in order. */
  function RetractedRows(recs: seq<Record>): seq<OutRow> {
    if recs == [] then []
    else RetractedRows(recs[..|recs| - 1]) + (if recs[|recs| - 1].op.Adds() then [] else [recs[|recs| - 1].row])
  }

  function Added(recs: seq<Record>): multiset<OutRow> {
    multiset(AddedRows(recs))
  }

  function Retracted(recs: seq<Record>): multiset<OutRow> {
    multiset(RetractedRows(recs))
  }

  /** Every row the records add is retracted by them as often: downstream is left as it was. */
  predicate Balanced(recs: seq<Record>) {
    Added(recs) == Retracted(recs)
  }

  lemma RowsAppend(a: seq<Record>, b: seq<Record>)
    ensures AddedRows(a + b) == AddedRows(a) + AddedRows(b)
    ensures RetractedRows(a + b) == RetractedRows(a) + RetractedRows(b)
  {
    AddedRowsAppend(a, b);
    RetractedRowsAppend(a, b);
  }

  lemma {:induction false} AddedRowsAppend(a: seq<Record>, b: seq<Record>)
    ensures AddedRows(a + b) == AddedRows(a) + AddedRows(b)
    decreases |b|
  {
    if b == [] {
      assert a + b == a;
    } else {
      var b' := b[..|b| - 1];
      AddedRowsAppend(a, b');
      assert (a + b)[..|a + b| - 1] == a + b';
    }
  }

  lemma {:induction false} RetractedRowsAppend(a: seq<Record>, b: seq<Record>)
    ensures RetractedRows(a + b) == RetractedRows(a) + RetractedRows(b)
    decreases |b|
  {
    if b == [] {
      assert a + b == a;
    } else {
      var b' := b[..|b| - 1];
      RetractedRowsAppend(a, b');
      assert (a + b)[..|a + b| - 1] == a + b';
    }
  }

  lemma AddedAppend(a: seq<Record>, b: seq<Record>)
    ensures Added(a + b) == Added(a) + Added(b)
    ensures Retracted(a + b) == Retracted(a) + Retracted(b)
  {
    RowsAppend(a, b);
  }

  lemma AddedSingle(r: Record)
    ensures AddedRows([r]) == if r.op.Adds() then [r.row] else []
    ensures RetractedRows([r]) == if r.op.Adds() then [] else [r.row]
  {
    assert [r][..0] == [];
  }

  lemma AddedPair(r1: Record, r2: Record)
    ensures AddedRows([r1, r2]) == AddedRows([r1]) + AddedRows([r2])
    ensures RetractedRows([r1, r2]) == RetractedRows([r1]) + RetractedRows([r2])
  {
    RowsAppend([r1], [r2]);
    assert [r1] + [r2] == [r1, r2];
  }

  /** A row added and then retracted (or the other way round) leaves nothing behind. */
  lemma OppositePairBalanced(r1: Record, r2: Record)
    requires r1.row == r2.row && r1.op.Adds() != r2.op.Adds()
    ensures Balanced([r1] + [r2])
  {
    RowsAppend([r1], [r2]);
    AddedSingle(r1);
    AddedSingle(r2);
  }

  /** Replacing x by y and then y by x leaves nothing behind. */
  lemma SwapBackBalanced(x: OutRow, y: OutRow)
    ensures Balanced([Record(UpdateDelete, x), Record(UpdateInsert, y)] + [Record(UpdateDelete, y), Record(UpdateInsert, x)])
  {
    var a, b := Record(UpdateDelete, x), Record(UpdateInsert, y);
    var c, d := Record(UpdateDelete, y), Record(UpdateInsert, x);
    AddedPair(a, b);
    AddedPair(c, d);
    AddedSingle(a); AddedSingle(b);
    AddedSingle(c); AddedSingle(d);
    RowsAppend([a, b], [c, d]);
  }

  /**
   * The records for meeting a matched row on insert and on the matching delete (which sees
   * the degree the insert saw) cancel out, for every join type and side.
   */
  lemma MatchRoundTripBalanced(jt: JoinType, side: Side, u: Row, m: JoinRow)
    ensures Balanced(WithMatchOnInsert(jt, side, u, m) + WithMatchOnDelete(jt, side, u, m))
  {
    var jr := Joined(side, u, m.row);
    var mr := MatchedOnly(side, m.row);
    if IsSemiOrAnti(jt) {
      if m.degree == 0 && OnlyForwardMatchedSide(jt, side) {
        if IsAnti(jt) {
          OppositePairBalanced(Record(Delete, mr), Record(Insert, mr));
        } else {
          OppositePairBalanced(Record(Insert, mr), Record(Delete, mr));
        }
      } else {
        assert WithMatchOnInsert(jt, side, u, m) + WithMatchOnDelete(jt, side, u, m) == [];
      }
    } else if m.degree == 0 && OuterSideNull(jt, side) {
      SwapBackBalanced(mr, jr);
    } else {
      OppositePairBalanced(Record(Insert, jr), Record(Delete, jr));
    }
  }

  /**
   * With `with_match_on_delete` as written, deleting the only match of a row on the
   * NULL-padded side of an outer join leaves the joined row downstream: LeftOuter, right
   * row (2, 7) against left row (2, 5) adds (2, 5, 2, 7) on insert and never retracts it.
   */
  lemma WithMatchOnDeleteAsWrittenUnbalanced()
    ensures var u := [Some(2), Some(7)];
            var m := JoinRow([Some(2)], [Some(2), Some(5)], 0);
            var recs := WithMatchOnInsert(LeftOuter, Right, u, m) + WithMatchOnDeleteAsWritten(LeftOuter, Right, u, m);
            !Balanced(recs) && Added(recs)[OutRow(Some(m.row), Some(u))] == 1 && Retracted(recs)[OutRow(Some(m.row), Some(u))] == 0
  {
    var u := [Some(2), Some(7)];
    var m := JoinRow([Some(2)], [Some(2), Some(5)], 0);
    var joined := OutRow(Some(m.row), Some(u));
    var padded := OutRow(Some(m.row), None);
    assert WithMatchOnInsert(LeftOuter, Right, u, m) == [Record(UpdateDelete, padded), Record(UpdateInsert, joined)];
    assert WithMatchOnDeleteAsWritten(LeftOuter, Right, u, m) == [Record(UpdateDelete, padded), Record(UpdateInsert, padded)];
    PaddedTwiceUnbalanced(joined, padded);
  }

  lemma PaddedTwiceUnbalanced(joined: OutRow, padded: OutRow)
    requires joined != padded
    ensures var recs := [Record(UpdateDelete, padded), Record(UpdateInsert, joined)] + [Record(UpdateDelete, padded), Record(UpdateInsert, padded)];
            !Balanced(recs) && Added(recs)[joined] == 1 && Retracted(recs)[joined] == 0
  {
    PaddedTwiceRows(joined, padded);
    assert multiset([joined, padded])[joined] == 1;
    assert multiset([padded, padded])[joined] == 0;
  }

  lemma PaddedTwiceRows(joined: OutRow, padded: OutRow)
    ensures var recs := [Record(UpdateDelete, padded), Record(UpdateInsert, joined)] + [Record(UpdateDelete, padded), Record(UpdateInsert, padded)];
            AddedRows(recs) == [joined, padded] && RetractedRows(recs) == [padded, padded]
  {
    var a, b := Record(UpdateDelete, padded), Record(UpdateInsert, joined);
    var d := Record(UpdateInsert, padded);
    AddedPair(a, b);
    AddedPair(a, d);
    AddedSingle(a); AddedSingle(b); AddedSingle(d);
    RowsAppend([a, b], [a, d]);
  }

  /** The unmatched-row forwarding of an insert and of the matching delete cancel out. */
  lemma ForwardPairBalanced(jt: JoinType, side: Side, insOp: Op, delOp: Op, u: Row)
    requires insOp.Adds() && !delOp.Adds()
    ensures Balanced(ForwardIfNotMatched(jt, side, insOp, u) + ForwardIfNotMatched(jt, side, delOp, u))
    ensures Balanced(ForwardExactlyOnceIfMatched(jt, side, insOp, u) + ForwardExactlyOnceIfMatched(jt, side, delOp, u))
  {
    var ins, del := Record(insOp, UpdateOnly(side, u)), Record(delOp, UpdateOnly(side, u));
    PairOrNothingBalanced(ForwardIfNotMatched(jt, side, insOp, u), ForwardIfNotMatched(jt, side, delOp, u), ins, del);
    PairOrNothingBalanced(ForwardExactlyOnceIfMatched(jt, side, insOp, u), ForwardExactlyOnceIfMatched(jt, side, delOp, u), ins, del);
  }

  /** A row added then retracted, or nothing at all, is balanced. */
  lemma PairOrNothingBalanced(a: seq<Record>, b: seq<Record>, r1: Record, r2: Record)
    requires r1.row == r2.row && r1.op.Adds() != r2.op.Adds()
    requires (a == [r1] && b == [r2]) || (a == [] && b == [])
    ensures Balanced(a + b)
  {
    if a == [] {
      assert a + b == [];
    } else {
      OppositePairBalanced(r1, r2);
    }
  }

  /** Two balanced exchanges, interleaved as (p, x) then (q, y), are balanced together. */
  lemma BalancedInterleave(p: seq<Record>, x: seq<Record>, q: seq<Record>, y: seq<Record>)
    requires Balanced(p + q) && Balanced(x + y)
    ensures Balanced((p + x) + (q + y))
  {
    AddedAppend(p, q);
    AddedAppend(x, y);
    AddedAppend(p, x);
    AddedAppend(q, y);
    AddedAppend(p + x, q + y);
    SumsInterleave(Added(p), Added(q), Retracted(p), Retracted(q), Added(x), Added(y), Retracted(x), Retracted(y));
  }

  lemma SumsInterleave<T>(a1: multiset<T>, a2: multiset<T>, r1: multiset<T>, r2: multiset<T>,
                          b1: multiset<T>, b2: multiset<T>, s1: multiset<T>, s2: multiset<T>)
    requires a1 + a2 == r1 + r2 && b1 + b2 == s1 + s2
    ensures (a1 + b1) + (a2 + b2) == (r1 + s1) + (r2 + s2)
  {
    forall o ensures ((a1 + b1) + (a2 + b2))[o] == ((r1 + s1) + (r2 + s2))[o] {
      assert (a1 + a2)[o] == (r1 + r2)[o];
      assert (b1 + b2)[o] == (s1 + s2)[o];
    }
  }

  /**
   * Deleting a row right after inserting it walks the matched entry back to where it was,
   * sees the same number of matches, and retracts everything the insert emitted.
   */
  lemma {:induction false} ScanRoundTripState(v: DeleteMode, jt: JoinType, side: Side, J: (Row, Row) -> bool, u: Row, es: EntryState)
    ensures var i := InsertScan(jt, side, J, u, es);
            var d := DeleteScan(v, jt, side, J, u, i.entries);
            && d.Ok? && d.value.entries == es && d.value.matches == i.matches
    decreases |es|
  {
    if es != [] {
      var init, m := es[..|es| - 1], es[|es| - 1];
      ScanRoundTripState(v, jt, side, J, u, init);
      var pI := InsertScan(jt, side, J, u, init);
      assert es == init + [m];
      InsertScanSnoc(jt, side, J, u, init, m);
      DeleteScanSnoc(v, jt, side, J, u, pI.entries, Bumped(J, u, m));
      DroppedBumped(J, u, m);
    }
  }

  /** Decrementing a degree the insert loop incremented gives the matched row back. */
  lemma DroppedBumped(J: (Row, Row) -> bool, u: Row, m: JoinRow)
    ensures Dropped(J, u, Bumped(J, u, m)) == m
  {
  }

  /** The insert loop over one more matched row. */
  lemma InsertScanSnoc(jt: JoinType, side: Side, J: (Row, Row) -> bool, u: Row, es: EntryState, x: JoinRow)
    ensures var p := InsertScan(jt, side, J, u, es);
            var r := InsertScan(jt, side, J, u, es + [x]);
            && r.entries == p.entries + [Bumped(J, u, x)]
            && r.matches == p.matches + (if J(u, x.row) then 1 else 0)
            && r.out == p.out + (if J(u, x.row) && !ForwardExactlyOnce(jt, side) then WithMatchOnInsert(jt, side, u, x) else [])
  {
    assert (es + [x])[..|es + [x]| - 1] == es;
  }

  /** The delete loop over one more matched row. */
  lemma DeleteScanSnoc(v: DeleteMode, jt: JoinType, side: Side, J: (Row, Row) -> bool, u: Row, es: EntryState, x: JoinRow)
    ensures var p := DeleteScan(v, jt, side, J, u, es);
            var r := DeleteScan(v, jt, side, J, u, es + [x]);
            && (r.Ok? <==> p.Ok? && !(J(u, x.row) && x.degree == 0))
            && (r.Ok? ==> r.value.entries == p.value.entries + [Dropped(J, u, x)]
                          && r.value.matches == p.value.matches + (if J(u, x.row) then 1 else 0)
                          && r.value.out == p.value.out + (if J(u, x.row) && !ForwardExactlyOnce(jt, side)
                                                           then WithMatchOnDeleteBy(v, jt, side, u, Dropped(J, u, x)) else []))
  {
    assert (es + [x])[..|es + [x]| - 1] == es;
  }

  /**
   * One iteration of the delete loop after a prefix that did not fail, at position `i`: a row
   * meeting the condition with a zero degree fails the loop, any other row appends its
   * dropped self, its match and its records.
   */
  lemma DeleteScanStep(v: DeleteMode, jt: JoinType, side: Side, J: (Row, Row) -> bool, u: Row, es: EntryState, i: nat, s: Scan,
                       hit: bool, m: JoinRow, recs: seq<Record>)
    requires i < |es| && DeleteScan(v, jt, side, J, u, es[..i]) == Ok(s)
    requires hit == J(u, es[i].row) && (!(hit && es[i].degree == 0) ==> m == Dropped(J, u, es[i]))
    requires recs == if hit && !ForwardExactlyOnce(jt, side) then WithMatchOnDeleteBy(v, jt, side, u, m) else []
    ensures DeleteScan(v, jt, side, J, u, es[..i + 1]) ==
              if hit && es[i].degree == 0 then Err(DegreeUnderflow)
              else Ok(Scan(s.entries + [m], s.matches + (if hit then 1 else 0), s.out + recs))
  {
    var x := es[i];
    assert es[..i + 1] == es[..i] + [x];
    DeleteScanSnoc(v, jt, side, J, u, es[..i], x);
    if !hit {
      assert s.out + [] == s.out;
    }
  }

  /** One iteration of the insert loop at position `i`: the row's bumped self, its match and its records are appended. */
  lemma InsertScanStep(jt: JoinType, side: Side, J: (Row, Row) -> bool, u: Row, es: EntryState, i: nat, s: Scan,
                       hit: bool, m: JoinRow, recs: seq<Record>)
    requires i < |es| && InsertScan(jt, side, J, u, es[..i]) == s
    requires hit == J(u, es[i].row) && m == Bumped(J, u, es[i])
    requires recs == if hit && !ForwardExactlyOnce(jt, side) then WithMatchOnInsert(jt, side, u, es[i]) else []
    ensures InsertScan(jt, side, J, u, es[..i + 1]) == Scan(s.entries + [m], s.matches + (if hit then 1 else 0), s.out + recs)
  {
    var e := es[..i + 1];
    assert e[..|e| - 1] == es[..i] && e[|e| - 1] == es[i];
    if !hit {
      assert s.out + [] == s.out;
    }
  }

  /** ... and retracts everything the insert loop emitted. */
  lemma {:induction false} ScanRoundTrip(v: DeleteMode, jt: JoinType, side: Side, J: (Row, Row) -> bool, u: Row, es: EntryState)
    requires RetractsJoined(v, jt, side)
    ensures var i := InsertScan(jt, side, J, u, es);
            var d := DeleteScan(v, jt, side, J, u, i.entries);
            && d.Ok? && Balanced(i.out + d.value.out)
    decreases |es|
  {
    if es == [] {
      assert AddedRows([]) == RetractedRows([]);
    } else {
      var init, m := es[..|es| - 1], es[|es| - 1];
      ScanRoundTrip(v, jt, side, J, u, init);
      ScanRoundTripState(v, jt, side, J, u, init);
      assert es == init + [m];
      ScanRoundTripLast(v, jt, side, J, u, init, m);
    }
  }

  /** The inductive step of `ScanRoundTrip`: one more matched row keeps the round trip balanced. */
  lemma ScanRoundTripLast(v: DeleteMode, jt: JoinType, side: Side, J: (Row, Row) -> bool, u: Row, init: EntryState, m: JoinRow)
    requires RetractsJoined(v, jt, side)
    requires var i := InsertScan(jt, side, J, u, init);
             var d := DeleteScan(v, jt, side, J, u, i.entries);
             d.Ok? && d.value.entries == init && Balanced(i.out + d.value.out)
    ensures var i := InsertScan(jt, side, J, u, init + [m]);
            var d := DeleteScan(v, jt, side, J, u, i.entries);
            && d.Ok? && Balanced(i.out + d.value.out)
  {
    var pI := InsertScan(jt, side, J, u, init);
    var pD := DeleteScan(v, jt, side, J, u, pI.entries).value;
    var emit := J(u, m.row) && !ForwardExactlyOnce(jt, side);
    var x := if emit then WithMatchOnInsert(jt, side, u, m) else [];
    var y := if emit then WithMatchOnDeleteBy(v, jt, side, u, m) else [];
    InsertScanSnoc(jt, side, J, u, init, m);
    DeleteScanSnoc(v, jt, side, J, u, pI.entries, Bumped(J, u, m));
    DroppedBumped(J, u, m);
    RowRoundTripBalanced(v, jt, side, u, m, emit);
    BalancedInterleave(pI.out, x, pD.out, y);
  }

  /** The records one matched row contributes to the insert and to the matching delete cancel out. */
  lemma RowRoundTripBalanced(v: DeleteMode, jt: JoinType, side: Side, u: Row, m: JoinRow, emit: bool)
    requires RetractsJoined(v, jt, side)
    ensures Balanced((if emit then WithMatchOnInsert(jt, side, u, m) else [])
                     + (if emit then WithMatchOnDeleteBy(v, jt, side, u, m) else []))
  {
    if emit {
      MatchRoundTripBalanced(jt, side, u, m);
      if v == AsWritten {
        AsWrittenAgreesOffPaddedSide(jt, side, u, m);
      }
    } else {
      assert AddedRows([]) == RetractedRows([]);
    }
  }

  /**
   * Inserting a row whose pk is new on its side and then deleting it restores both sides'
   * states (except that the update side keeps an entry, possibly empty, under the key) and
   * emits a balanced changelog, for every join type and side when the append-only
   * optimisation is off.
   */
  lemma InsertThenDeleteRestores(v: DeleteMode, jt: JoinType, side: Side, J: (Row, Row) -> bool, insOp: Op, delOp: Op,
                                 key: Row, pk: Row, u: Row, U: HashTable, M: HashTable)
    requires RetractsJoined(v, jt, side)
    requires insOp.Adds() && !delOp.Adds()
    requires pk !in Pks(Lookup(U, key))
    ensures var i := InsertStep(jt, side, J, false, insOp, key, pk, u, U, M);
            var d := DeleteStep(v, jt, side, J, delOp, key, pk, u, i.upd, i.mat);
            && d.Ok? && d.value.upd == U[key := Lookup(U, key)] && d.value.mat == M
            && Balanced(i.out + d.value.out)
  {
    var i := InsertStep(jt, side, J, false, insOp, key, pk, u, U, M);
    var d := DeleteStep(v, jt, side, J, delOp, key, pk, u, i.upd, i.mat);
    if MatchedEntries(key, M).None? {
      UnmatchedRoundTrip(v, jt, side, J, insOp, delOp, key, pk, u, U, M);
    } else {
      MatchedRoundTripState(v, jt, side, J, insOp, delOp, key, pk, u, U, M);
      MatchedRoundTripBalanced(v, jt, side, J, insOp, delOp, key, pk, u, U, M);
    }
    UpdateSideRoundTrip(v, jt, side, J, insOp, delOp, key, pk, u, U, M);
  }

  /** The update side gets its entry back after inserting and deleting a row with a new pk. */
  lemma UpdateSideRoundTrip(v: DeleteMode, jt: JoinType, side: Side, J: (Row, Row) -> bool, insOp: Op, delOp: Op,
                            key: Row, pk: Row, u: Row, U: HashTable, M: HashTable)
    requires pk !in Pks(Lookup(U, key))
    ensures var i := InsertStep(jt, side, J, false, insOp, key, pk, u, U, M);
            var d := DeleteStep(v, jt, side, J, delOp, key, pk, u, i.upd, i.mat);
            d.Ok? ==> d.value.upd == U[key := Lookup(U, key)]
  {
    var entry := Lookup(U, key);
    var i := InsertStep(jt, side, J, false, insOp, key, pk, u, U, M);
    InsertStores(jt, side, J, insOp, key, pk, u, U, M);
    var jr := JoinRow(pk, u, StoredDegree(J, u, key, M));
    UpsertThenRemove(entry, jr);
    assert i.upd == U[key := Upsert(entry, jr)];
    DeleteStepUpdate(v, jt, side, J, delOp, key, pk, u, i.upd, i.mat);
    OverwrittenTwice(U, key, Upsert(entry, jr), entry);
  }

  /** Writing under the same key twice keeps only the second write. */
  lemma OverwrittenTwice<K, V>(m: map<K, V>, k: K, v: V, w: V)
    ensures m[k := v][k := w] == m[k := w]
  {
  }

  /** Without matches the other side is untouched and the forwarded rows cancel out. */
  lemma UnmatchedRoundTrip(v: DeleteMode, jt: JoinType, side: Side, J: (Row, Row) -> bool, insOp: Op, delOp: Op,
                           key: Row, pk: Row, u: Row, U: HashTable, M: HashTable)
    requires insOp.Adds() && !delOp.Adds()
    requires HasNull(key) || key !in M
    ensures var i := InsertStep(jt, side, J, false, insOp, key, pk, u, U, M);
            var d := DeleteStep(v, jt, side, J, delOp, key, pk, u, i.upd, i.mat);
            && d.Ok? && d.value.mat == M && Balanced(i.out + d.value.out)
  {
    ForwardPairBalanced(jt, side, insOp, delOp, u);
  }

  /** A row with a new pk, stored and then removed by pk, leaves the entry as it was. */
  lemma UpsertThenRemove(e: EntryState, jr: JoinRow)
    requires jr.pk !in Pks(e)
    ensures RemovePk(Upsert(e, jr), jr.pk) == e
  {
    assert Upsert(e, jr) == e + [jr];
    assert (e + [jr])[..|e|] == e;
  }

  /** The degree an inserted row is stored with: its matches among the other side's rows under its key. */
  function StoredDegree(J: (Row, Row) -> bool, u: Row, key: Row, M: HashTable): nat {
    if HasNull(key) || key !in M then 0 else CountMatching(J, u, M[key])
  }

  /**
   * Without the append-only optimisation an insert stores the row under its key and pk,
   * with degree the number of rows of the other side it matches (none for a NULL key).
   */
  lemma InsertStores(jt: JoinType, side: Side, J: (Row, Row) -> bool, op: Op, key: Row, pk: Row, u: Row, U: HashTable, M: HashTable)
    ensures InsertStep(jt, side, J, false, op, key, pk, u, U, M).upd == U[key := Upsert(Lookup(U, key), JoinRow(pk, u, StoredDegree(J, u, key, M)))]
  {
    if !HasNull(key) && key in M {
      InsertScanMatches(jt, side, J, u, M[key]);
    }
  }

  /** A delete removes the row from its own side by pk, whatever its key. */
  lemma DeleteStepUpdate(v: DeleteMode, jt: JoinType, side: Side, J: (Row, Row) -> bool, op: Op, key: Row, pk: Row, u: Row, U: HashTable, M: HashTable)
    ensures var r := DeleteStep(v, jt, side, J, op, key, pk, u, U, M);
            r.Ok? ==> r.value.upd == if key in U then U[key := RemovePk(U[key], pk)] else U
  {
  }

  /** With matches, the other side's entry is walked back to where it was. */
  lemma MatchedRoundTripState(v: DeleteMode, jt: JoinType, side: Side, J: (Row, Row) -> bool, insOp: Op, delOp: Op,
                              key: Row, pk: Row, u: Row, U: HashTable, M: HashTable)
    requires insOp.Adds() && !delOp.Adds()
    requires !HasNull(key) && key in M
    ensures var i := InsertStep(jt, side, J, false, insOp, key, pk, u, U, M);
            var d := DeleteStep(v, jt, side, J, delOp, key, pk, u, i.upd, i.mat);
            && d.Ok? && d.value.mat == M
  {
    var s := InsertScan(jt, side, J, u, M[key]);
    ScanRoundTripState(v, jt, side, J, u, M[key]);
    var i := InsertStep(jt, side, J, false, insOp, key, pk, u, U, M);
    InsertMatchedUnfold(jt, side, J, insOp, key, pk, u, U, M);
    assert i.mat[key] == s.entries;
    DeleteMatchedUnfold(v, jt, side, J, delOp, key, pk, u, i.upd, i.mat);
    UpdateRestored(M, key, s.entries);
  }

  /** Overwriting a key and then writing its old value back gives the original map. */
  lemma UpdateRestored<K, V>(m: map<K, V>, k: K, v: V)
    requires k in m
    ensures m[k := v][k := m[k]] == m
  {
  }

  /** With matches, everything the insert emitted is retracted by the delete. */
  lemma MatchedRoundTripBalanced(v: DeleteMode, jt: JoinType, side: Side, J: (Row, Row) -> bool, insOp: Op, delOp: Op,
                                 key: Row, pk: Row, u: Row, U: HashTable, M: HashTable)
    requires RetractsJoined(v, jt, side)
    requires insOp.Adds() && !delOp.Adds()
    requires !HasNull(key) && key in M
    ensures var i := InsertStep(jt, side, J, false, insOp, key, pk, u, U, M);
            var d := DeleteStep(v, jt, side, J, delOp, key, pk, u, i.upd, i.mat);
            d.Ok? ==> Balanced(i.out + d.value.out)
  {
    var es := M[key];
    var s := InsertScan(jt, side, J, u, es);
    ScanRoundTrip(v, jt, side, J, u, es);
    ScanRoundTripState(v, jt, side, J, u, es);
    var t := DeleteScan(v, jt, side, J, u, s.entries).value;
    var fi := if s.matches == 0 then ForwardIfNotMatched(jt, side, insOp, u) else ForwardExactlyOnceIfMatched(jt, side, insOp, u);
    var fd := if t.matches == 0 then ForwardIfNotMatched(jt, side, delOp, u) else ForwardExactlyOnceIfMatched(jt, side, delOp, u);
    ForwardPairBalanced(jt, side, insOp, delOp, u);
    BalancedInterleave(s.out, fi, t.out, fd);
    var i := InsertStep(jt, side, J, false, insOp, key, pk, u, U, M);
    InsertMatchedUnfold(jt, side, J, insOp, key, pk, u, U, M);
    assert i.mat[key] == s.entries && i.out == s.out + fi;
    DeleteMatchedUnfold(v, jt, side, J, delOp, key, pk, u, i.upd, i.mat);
  }

  lemma InsertMatchedUnfold(jt: JoinType, side: Side, J: (Row, Row) -> bool, op: Op,
                            key: Row, pk: Row, u: Row, U: HashTable, M: HashTable)
    requires !HasNull(key) && key in M
    ensures var s := InsertScan(jt, side, J, u, M[key]);
            var i := InsertStep(jt, side, J, false, op, key, pk, u, U, M);
            && i.mat == M[key := s.entries]
            && i.out == s.out + (if s.matches == 0 then ForwardIfNotMatched(jt, side, op, u) else ForwardExactlyOnceIfMatched(jt, side, op, u))
  {
  }

  lemma DeleteMatchedUnfold(v: DeleteMode, jt: JoinType, side: Side, J: (Row, Row) -> bool, op: Op,
                            key: Row, pk: Row, u: Row, U: HashTable, M: HashTable)
    requires !HasNull(key) && key in M
    requires DeleteScan(v, jt, side, J, u, M[key]).Ok?
    ensures var s := DeleteScan(v, jt, side, J, u, M[key]).value;
            var d := DeleteStep(v, jt, side, J, op, key, pk, u, U, M);
            && d.Ok? && d.value.mat == M[key := s.entries]
            && d.value.out == s.out + (if s.matches == 0 then ForwardIfNotMatched(jt, side, op, u) else ForwardExactlyOnceIfMatched(jt, side, op, u))
  {
  }

  /** Entries whose rows pair up position by position with the same pks hold the same pks. */
  lemma {:induction false} PksPointwise(a: EntryState, b: EntryState)
    requires |a| == |b| && forall i :: 0 <= i < |a| ==> a[i].pk == b[i].pk
    ensures Pks(a) == Pks(b)
  {
    forall p | p in Pks(a) ensures p in Pks(b) {
      var i :| 0 <= i < |a| && a[i].pk == p;
      assert b[i].pk == p;
    }
    forall p | p in Pks(b) ensures p in Pks(a) {
      var i :| 0 <= i < |b| && b[i].pk == p;
      assert a[i].pk == p;
    }
  }

  /**
   * An insert whose key finds the other side's entry stores itself with degree the number of
   * matched rows meeting the condition, and bumps the degree of exactly those rows.
   */
  lemma InsertCountsMatches(jt: JoinType, side: Side, J: (Row, Row) -> bool, op: Op,
                            key: Row, pk: Row, u: Row, U: HashTable, M: HashTable)
    requires !HasNull(key) && key in M
    ensures var r := InsertStep(jt, side, J, false, op, key, pk, u, U, M);
            && key in r.upd && JoinRow(pk, u, CountMatching(J, u, M[key])) in r.upd[key]
            && key in r.mat && |r.mat[key]| == |M[key]|
            && forall i :: 0 <= i < |M[key]| ==> r.mat[key][i] == Bumped(J, u, M[key][i])
  {
    InsertStores(jt, side, J, op, key, pk, u, U, M);
    InsertMatchedUnfold(jt, side, J, op, key, pk, u, U, M);
    InsertScanEntries(jt, side, J, u, M[key]);
  }

  /**
   * A delete whose key finds the other side's entry fails exactly when a matched row meeting
   * the condition already has degree zero; otherwise it lowers the degree of exactly those rows.
   */
  lemma DeleteDropsMatches(v: DeleteMode, jt: JoinType, side: Side, J: (Row, Row) -> bool, op: Op,
                           key: Row, pk: Row, u: Row, U: HashTable, M: HashTable)
    requires !HasNull(key) && key in M
    ensures var r := DeleteStep(v, jt, side, J, op, key, pk, u, U, M);
            && (r.Ok? <==> forall i :: 0 <= i < |M[key]| && J(u, M[key][i].row) ==> M[key][i].degree > 0)
            && (r.Ok? ==> && key in r.value.mat && |r.value.mat[key]| == |M[key]|
                          && forall i :: 0 <= i < |M[key]| ==> r.value.mat[key][i] == Dropped(J, u, M[key][i]))
  {
    DeleteScanFails(v, jt, side, J, u, M[key]);
    if DeleteScan(v, jt, side, J, u, M[key]).Ok? {
      DeleteMatchedUnfold(v, jt, side, J, op, key, pk, u, U, M);
      DeleteScanEntries(v, jt, side, J, u, M[key]);
    }
  }

  /** A delete takes the row's pk out of its own side's entry under the key, if there is one. */
  lemma DeleteRemovesPk(v: DeleteMode, jt: JoinType, side: Side, J: (Row, Row) -> bool, op: Op,
                        key: Row, pk: Row, u: Row, U: HashTable, M: HashTable)
    ensures var r := DeleteStep(v, jt, side, J, op, key, pk, u, U, M);
            r.Ok? ==> && (key in U ==> key in r.value.upd && Pks(r.value.upd[key]) == Pks(U[key]) - {pk})
                      && (key !in U ==> r.value.upd == U)
  {
    DeleteStepUpdate(v, jt, side, J, op, key, pk, u, U, M);
  }

  /**
   * An insert that meets no matched row under the condition (or finds none) is forwarded as
   * unmatched, and so is the matching delete.
   */
  lemma NoMatchForwarded(v: DeleteMode, jt: JoinType, side: Side, J: (Row, Row) -> bool, appendOnly: bool, op: Op,
                         key: Row, pk: Row, u: Row, U: HashTable, M: HashTable)
    requires !HasNull(key) && key in M
    requires forall i :: 0 <= i < |M[key]| ==> !J(u, M[key][i].row)
    ensures var r := Step(v, jt, side, J, appendOnly, op, key, pk, u, U, M);
            r.Ok? && r.value.out == ForwardIfNotMatched(jt, side, op, u)
  {
    if op.Adds() {
      InsertScanMatches(jt, side, J, u, M[key]);
      InsertMatchedUnfold(jt, side, J, op, key, pk, u, U, M);
    } else {
      DeleteScanFails(v, jt, side, J, u, M[key]);
      DeleteScanMatches(v, jt, side, J, u, M[key]);
      DeleteMatchedUnfold(v, jt, side, J, op, key, pk, u, U, M);
    }
  }

  /** The records one matched row contributes to the insert loop: `with_match_on_insert` when it meets the condition. */
  function InsertPiece(jt: JoinType, side: Side, J: (Row, Row) -> bool, u: Row, m: JoinRow): seq<Record> {
    if J(u, m.row) then WithMatchOnInsert(jt, side, u, m) else []
  }

  /** The records one matched row contributes to a successful delete loop, seen at its lowered degree. */
  function DeletePiece(v: DeleteMode, jt: JoinType, side: Side, J: (Row, Row) -> bool, u: Row, m: JoinRow): seq<Record> {
    if J(u, m.row) then WithMatchOnDeleteBy(v, jt, side, u, Dropped(J, u, m)) else []
  }

  /** The concatenation of `f` over `xs`, in order. */
  function ConcatMap<T, R>(f: T -> seq<R>, xs: seq<T>): seq<R>
    decreases |xs|
  {
    if xs == [] then [] else f(xs[0]) + ConcatMap(f, xs[1..])
  }

  lemma {:induction false} ConcatMapAppend<T, R>(f: T -> seq<R>, a: seq<T>, b: seq<T>)
    ensures ConcatMap(f, a + b) == ConcatMap(f, a) + ConcatMap(f, b)
    decreases |a|
  {
    if a == [] {
      assert a + b == b;
    } else {
      var c := a + b;
      assert c[0] == a[0] && c[1..] == a[1..] + b;
      ConcatMapAppend(f, a[1..], b);
    }
  }

  /** The concatenation split at `xs[i]`: what comes before it, its own part, what comes after it. */
  lemma {:induction false} ConcatMapAt<T, R>(f: T -> seq<R>, xs: seq<T>, i: nat)
    requires i < |xs|
    ensures ConcatMap(f, xs) == ConcatMap(f, xs[..i]) + f(xs[i]) + ConcatMap(f, xs[i + 1..])
  {
    var a, b := xs[..i], xs[i..];
    assert xs == a + b;
    ConcatMapAppend(f, a, b);
    assert b[0] == xs[i] && b[1..] == xs[i + 1..];
  }

  /** The concatenation over `xs + [x]` ends with `x`'s part. */
  lemma ConcatMapSnoc<T, R>(f: T -> seq<R>, xs: seq<T>, x: T)
    ensures ConcatMap(f, xs + [x]) == ConcatMap(f, xs) + f(x)
  {
    ConcatMapAppend(f, xs, [x]);
    assert ConcatMap(f, [x]) == f(x) + ConcatMap(f, []);
    assert f(x) + [] == f(x);
  }

  /** The insert records of an entry, row by row in entry order. */
  function InsertRecords(jt: JoinType, side: Side, J: (Row, Row) -> bool, u: Row, es: EntryState): seq<Record> {
    ConcatMap((m: JoinRow) => InsertPiece(jt, side, J, u, m), es)
  }

  /** The delete records of an entry, row by row in entry order. */
  function DeleteRecords(v: DeleteMode, jt: JoinType, side: Side, J: (Row, Row) -> bool, u: Row, es: EntryState): seq<Record> {
    ConcatMap((m: JoinRow) => DeletePiece(v, jt, side, J, u, m), es)
  }

  /**
   * The records of the insert loop are, in entry order, the `with_match_on_insert` records
   * of each matched row meeting the condition, unless the side is forwarded exactly once.
   */
  lemma {:induction false} InsertScanOut(jt: JoinType, side: Side, J: (Row, Row) -> bool, u: Row, es: EntryState)
    ensures InsertScan(jt, side, J, u, es).out == if ForwardExactlyOnce(jt, side) then [] else InsertRecords(jt, side, J, u, es)
    decreases |es|
  {
    if es != [] {
      var init, x := es[..|es| - 1], es[|es| - 1];
      InsertScanOut(jt, side, J, u, init);
      assert es == init + [x];
      InsertScanSnoc(jt, side, J, u, init, x);
      ConcatMapSnoc((m: JoinRow) => InsertPiece(jt, side, J, u, m), init, x);
    }
  }

  /**
   * The records of a successful delete loop are, in entry order, the `with_match_on_delete`
   * records of each matched row meeting the condition, unless the side is forwarded exactly once.
   */
  lemma {:induction false} DeleteScanOut(v: DeleteMode, jt: JoinType, side: Side, J: (Row, Row) -> bool, u: Row, es: EntryState)
    ensures DeleteScan(v, jt, side, J, u, es).Ok? ==>
              DeleteScan(v, jt, side, J, u, es).value.out == if ForwardExactlyOnce(jt, side) then [] else DeleteRecords(v, jt, side, J, u, es)
    decreases |es|
  {
    if es != [] {
      var init, x := es[..|es| - 1], es[|es| - 1];
      DeleteScanOut(v, jt, side, J, u, init);
      assert es == init + [x];
      DeleteScanSnoc(v, jt, side, J, u, init, x);
      ConcatMapSnoc((m: JoinRow) => DeletePiece(v, jt, side, J, u, m), init, x);
    }
  }

  /** The insert records split at row `i`: the rows before it, row `i`'s own records, the rows after it. */
  lemma InsertRecordsAt(jt: JoinType, side: Side, J: (Row, Row) -> bool, u: Row, es: EntryState, i: nat)
    requires i < |es|
    ensures InsertRecords(jt, side, J, u, es)
            == InsertRecords(jt, side, J, u, es[..i]) + InsertPiece(jt, side, J, u, es[i]) + InsertRecords(jt, side, J, u, es[i + 1..])
  {
    ConcatMapAt((m: JoinRow) => InsertPiece(jt, side, J, u, m), es, i);
  }

  /** The delete records split at row `i`. */
  lemma DeleteRecordsAt(v: DeleteMode, jt: JoinType, side: Side, J: (Row, Row) -> bool, u: Row, es: EntryState, i: nat)
    requires i < |es|
    ensures DeleteRecords(v, jt, side, J, u, es)
            == DeleteRecords(v, jt, side, J, u, es[..i]) + DeletePiece(v, jt, side, J, u, es[i]) + DeleteRecords(v, jt, side, J, u, es[i + 1..])
  {
    ConcatMapAt((m: JoinRow) => DeletePiece(v, jt, side, J, u, m), es, i);
  }

  /**
   * On the NULL-padded side of an outer join, the first match of any matched row retracts
   * it padded and adds it joined, between the records of the rows before and after it.
   */
  lemma OuterFirstMatchSwaps(jt: JoinType, side: Side, J: (Row, Row) -> bool, u: Row, es: EntryState, i: nat)
    requires OuterSideNull(jt, side) && i < |es| && J(u, es[i].row) && es[i].degree == 0
    ensures InsertScan(jt, side, J, u, es).out
            == InsertRecords(jt, side, J, u, es[..i])
               + [Record(UpdateDelete, MatchedOnly(side, es[i].row)), Record(UpdateInsert, Joined(side, u, es[i].row))]
               + InsertRecords(jt, side, J, u, es[i + 1..])
  {
    InsertScanOut(jt, side, J, u, es);
    InsertRecordsAt(jt, side, J, u, es, i);
  }

  /**
   * ... and when its last match goes away the corrected records retract the joined row and
   * re-add it padded, while the source's retract and re-add the padded row.
   */
  lemma OuterLastMatchSwapsBack(v: DeleteMode, jt: JoinType, side: Side, J: (Row, Row) -> bool, u: Row, es: EntryState, i: nat)
    requires OuterSideNull(jt, side) && i < |es| && J(u, es[i].row) && es[i].degree == 1
    requires DeleteScan(v, jt, side, J, u, es).Ok?
    ensures DeleteScan(v, jt, side, J, u, es).value.out
            == DeleteRecords(v, jt, side, J, u, es[..i])
               + [Record(UpdateDelete, if v == Corrected then Joined(side, u, es[i].row) else MatchedOnly(side, es[i].row)),
                  Record(UpdateInsert, MatchedOnly(side, es[i].row))]
               + DeleteRecords(v, jt, side, J, u, es[i + 1..])
  {
    DeleteScanOut(v, jt, side, J, u, es);
    DeleteRecordsAt(v, jt, side, J, u, es, i);
  }

  /**
   * For the matched side of a semi/anti join, an update of the other side emits a matched
   * row only when its degree moves between zero and one: an insert meeting it at degree
   * zero adds it (semi) or retracts it (anti); at any other degree it contributes nothing.
   */
  lemma SemiAntiInsertEmitsOnFirstMatch(jt: JoinType, side: Side, J: (Row, Row) -> bool, u: Row, es: EntryState, i: nat)
    requires OnlyForwardMatchedSide(jt, side) && i < |es| && J(u, es[i].row)
    ensures InsertScan(jt, side, J, u, es).out
            == InsertRecords(jt, side, J, u, es[..i])
               + (if es[i].degree == 0 then [Record(if IsSemi(jt) then Insert else Delete, MatchedOnly(side, es[i].row))] else [])
               + InsertRecords(jt, side, J, u, es[i + 1..])
  {
    InsertScanOut(jt, side, J, u, es);
    InsertRecordsAt(jt, side, J, u, es, i);
  }

  /** ... and a delete that takes its degree from one to zero retracts it (semi) or adds it back (anti). */
  lemma SemiAntiDeleteEmitsOnLastMatch(v: DeleteMode, jt: JoinType, side: Side, J: (Row, Row) -> bool, u: Row, es: EntryState, i: nat)
    requires OnlyForwardMatchedSide(jt, side) && i < |es| && J(u, es[i].row)
    requires DeleteScan(v, jt, side, J, u, es).Ok?
    ensures DeleteScan(v, jt, side, J, u, es).value.out
            == DeleteRecords(v, jt, side, J, u, es[..i])
               + (if es[i].degree == 1 then [Record(if IsSemi(jt) then Delete else Insert, MatchedOnly(side, es[i].row))] else [])
               + DeleteRecords(v, jt, side, J, u, es[i + 1..])
  {
    DeleteScanOut(v, jt, side, J, u, es);
    DeleteRecordsAt(v, jt, side, J, u, es, i);
    DeleteScanFails(v, jt, side, J, u, es);
  }

  /**
   * With the append-only optimisation an insert that finds rows under its key removes the
   * first of them from the other side and does not store itself.
   */
  lemma AppendOnlyMatchConsumes(jt: JoinType, side: Side, J: (Row, Row) -> bool, op: Op,
                                key: Row, pk: Row, u: Row, U: HashTable, M: HashTable)
    requires !HasNull(key) && key in M && M[key] != []
    ensures var r := InsertStep(jt, side, J, true, op, key, pk, u, U, M);
            && r.upd == U[key := Lookup(U, key)]
            && key in r.mat && Pks(r.mat[key]) == Pks(M[key]) - {M[key][0].pk}
  {
    var s := InsertScan(jt, side, J, u, M[key]);
    InsertScanEntries(jt, side, J, u, M[key]);
    PksPointwise(s.entries, M[key]);
  }

  /** With the append-only optimisation an insert that finds no rows under its key is stored with degree zero. */
  lemma AppendOnlyNoMatchStores(jt: JoinType, side: Side, J: (Row, Row) -> bool, op: Op,
                                key: Row, pk: Row, u: Row, U: HashTable, M: HashTable)
    requires HasNull(key) || key !in M || M[key] == []
    ensures var r := InsertStep(jt, side, J, true, op, key, pk, u, U, M);
            && r.upd == U[key := Upsert(Lookup(U, key), JoinRow(pk, u, 0))]
            && r.mat == M
  {
    if !HasNull(key) && key in M {
      UpdateRestored(M, key, M[key]);
      assert M[key := []] == M;
    }
  }

  /** Every row stored in the entry has `w` columns. */
  predicate EntryWidth(e: EntryState, w: nat) {
    forall i :: 0 <= i < |e| ==> |e[i].row| == w
  }

  /** Every row stored in the table has `w` columns. */
  predicate TableWidth(t: HashTable, w: nat) {
    forall k :: k in t ==> EntryWidth(t[k], w)
  }

  lemma TableWidthUpdate(t: HashTable, k: Row, e: EntryState, w: nat)
    requires TableWidth(t, w) && EntryWidth(e, w)
    ensures TableWidth(t[k := e], w)
  {
  }

  lemma UpsertWidth(e: EntryState, jr: JoinRow, w: nat)
    requires EntryWidth(e, w) && |jr.row| == w
    ensures EntryWidth(Upsert(e, jr), w)
  {
  }

  lemma {:induction false} RemovePkWidth(e: EntryState, pk: Row, w: nat)
    requires EntryWidth(e, w)
    ensures EntryWidth(RemovePk(e, pk), w)
    decreases |e|
  {
    if e != [] {
      RemovePkWidth(e[..|e| - 1], pk, w);
    }
  }

  /**
   * A step keeps every stored row at its side's width: the update side stores only `u`, and
   * the matched side's rows change only in degree.
   */
  lemma StepKeepsWidths(v: DeleteMode, jt: JoinType, side: Side, J: (Row, Row) -> bool, appendOnly: bool, op: Op,
                        key: Row, pk: Row, u: Row, U: HashTable, M: HashTable, wU: nat, wM: nat)
    requires TableWidth(U, wU) && TableWidth(M, wM) && |u| == wU
    ensures var r := Step(v, jt, side, J, appendOnly, op, key, pk, u, U, M);
            r.Ok? ==> TableWidth(r.value.upd, wU) && TableWidth(r.value.mat, wM)
  {
    if op.Adds() {
      InsertKeepsWidths(jt, side, J, appendOnly, op, key, pk, u, U, M, wU, wM);
    } else {
      DeleteKeepsWidths(v, jt, side, J, op, key, pk, u, U, M, wU, wM);
    }
  }

  lemma InsertKeepsWidths(jt: JoinType, side: Side, J: (Row, Row) -> bool, appendOnly: bool, op: Op,
                          key: Row, pk: Row, u: Row, U: HashTable, M: HashTable, wU: nat, wM: nat)
    requires TableWidth(U, wU) && TableWidth(M, wM) && |u| == wU
    ensures var r := InsertStep(jt, side, J, appendOnly, op, key, pk, u, U, M);
            TableWidth(r.upd, wU) && TableWidth(r.mat, wM)
  {
    var r := InsertStep(jt, side, J, appendOnly, op, key, pk, u, U, M);
    var entry := Lookup(U, key);
    assert EntryWidth(entry, wU);
    match MatchedEntries(key, M)
    case None =>
      UpsertWidth(entry, JoinRow(pk, u, 0), wU);
      TableWidthUpdate(U, key, Upsert(entry, JoinRow(pk, u, 0)), wU);
      assert r.upd == U[key := Upsert(entry, JoinRow(pk, u, 0))] && r.mat == M;
    case Some(es) =>
      var s := InsertScan(jt, side, J, u, es);
      InsertScanEntries(jt, side, J, u, es);
      assert EntryWidth(es, wM);
      assert EntryWidth(s.entries, wM);
      if appendOnly && s.entries != [] {
        TableWidthUpdate(U, key, entry, wU);
        RemovePkWidth(s.entries, s.entries[0].pk, wM);
        TableWidthUpdate(M, key, RemovePk(s.entries, s.entries[0].pk), wM);
        assert r.upd == U[key := entry] && r.mat == M[key := RemovePk(s.entries, s.entries[0].pk)];
      } else {
        UpsertWidth(entry, JoinRow(pk, u, s.matches), wU);
        TableWidthUpdate(U, key, Upsert(entry, JoinRow(pk, u, s.matches)), wU);
        TableWidthUpdate(M, key, s.entries, wM);
        assert r.upd == U[key := Upsert(entry, JoinRow(pk, u, s.matches))] && r.mat == M[key := s.entries];
      }
  }

  lemma DeleteKeepsWidths(v: DeleteMode, jt: JoinType, side: Side, J: (Row, Row) -> bool, op: Op,
                          key: Row, pk: Row, u: Row, U: HashTable, M: HashTable, wU: nat, wM: nat)
    requires TableWidth(U, wU) && TableWidth(M, wM)
    ensures var r := DeleteStep(v, jt, side, J, op, key, pk, u, U, M);
            r.Ok? ==> TableWidth(r.value.upd, wU) && TableWidth(r.value.mat, wM)
  {
    var r := DeleteStep(v, jt, side, J, op, key, pk, u, U, M);
    var U' := if key in U then U[key := RemovePk(U[key], pk)] else U;
    if key in U {
      RemovePkWidth(U[key], pk, wU);
      TableWidthUpdate(U, key, RemovePk(U[key], pk), wU);
    }
    match MatchedEntries(key, M)
    case None =>
    case Some(es) =>
      match DeleteScan(v, jt, side, J, u, es)
      case Err(_) =>
      case Ok(s) =>
        DeleteScanEntries(v, jt, side, J, u, es);
        assert EntryWidth(es, wM);
        assert EntryWidth(s.entries, wM);
        TableWidthUpdate(M, key, s.entries, wM);
        assert r.value.upd == U' && r.value.mat == M[key := s.entries];
  }
}
