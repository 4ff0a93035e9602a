/**
 * The join-type and side table of the streaming hash join, the output schema and
 * append-only decision taken when the executor is built, and `row_concat`, which
 * lays an update row and a matched row side by side for the non-equi condition.
 */
module JoinTypes {
  import opened Wrappers
  import opened Rows

  datatype JoinType = Inner | LeftOuter | RightOuter | FullOuter | LeftSemi | LeftAnti | RightSemi | RightAnti

  datatype Side = Left | Right {
    function Other(): Side {
      if this == Left then Right else Left
    }
  }

  /** Rows of this side are kept (padded with NULLs) when they have no match. */
  predicate IsOuterSide(jt: JoinType, side: Side) {
    jt == FullOuter || (jt == LeftOuter && side == Left) || (jt == RightOuter && side == Right)
  }

  /** This side is the one padded with NULLs for the other side's unmatched rows. */
  predicate OuterSideNull(jt: JoinType, side: Side) {
    jt == FullOuter || (jt == LeftOuter && side == Right) || (jt == RightOuter && side == Left)
  }

  /** A semi/anti join forwards an update of its own (kept) side at most once. */
  predicate ForwardExactlyOnce(jt: JoinType, side: Side) {
    ((jt == LeftSemi || jt == LeftAnti) && side == Left) || ((jt == RightSemi || jt == RightAnti) && side == Right)
  }

  /** A semi/anti join forwards only the matched (kept) rows for updates of the other side. */
  predicate OnlyForwardMatchedSide(jt: JoinType, side: Side) {
    ((jt == LeftSemi || jt == LeftAnti) && side == Right) || ((jt == RightSemi || jt == RightAnti) && side == Left)
  }

  predicate IsSemi(jt: JoinType) {
    jt == LeftSemi || jt == RightSemi
  }

  predicate IsAnti(jt: JoinType) {
    jt == LeftAnti || jt == RightAnti
  }

  predicate IsSemiOrAnti(jt: JoinType) {
    IsSemi(jt) || IsAnti(jt)
  }

  /** The side whose columns a semi/anti join outputs. */
  function KeptSide(jt: JoinType): Side
    requires IsSemiOrAnti(jt)
  {
    if jt == LeftSemi || jt == LeftAnti then Left else Right
  }

  /** `outer_side_null` mirrors `is_outer_side`, and neither holds for inner, semi or anti joins. */
  lemma OuterSideTable(jt: JoinType, side: Side)
    ensures OuterSideNull(jt, side) <==> IsOuterSide(jt, side.Other())
    ensures jt == Inner || IsSemiOrAnti(jt) ==> !IsOuterSide(jt, side) && !OuterSideNull(jt, side)
  {
  }

  /** For semi/anti joins exactly one of the two forwarding modes applies to a side; for inner and outer joins neither. */
  lemma ForwardingModesPartition(jt: JoinType, side: Side)
    ensures IsSemiOrAnti(jt) ==> ForwardExactlyOnce(jt, side) != OnlyForwardMatchedSide(jt, side)
    ensures IsSemiOrAnti(jt) ==> (ForwardExactlyOnce(jt, side) <==> side == KeptSide(jt))
    ensures !IsSemiOrAnti(jt) ==> !ForwardExactlyOnce(jt, side) && !OnlyForwardMatchedSide(jt, side)
  {
  }

  /** `start_pos` of a side in the left ++ right output: 0 for the left side, the left column count for the right. */
  function StartPos(side: Side, leftColumns: nat): nat {
    if side == Left then 0 else leftColumns
  }

  /** The output schema built by `HashJoinExecutor::new`. */
  function OutputSchema<F>(jt: JoinType, left: seq<F>, right: seq<F>): (r: seq<F>)
    ensures IsSemiOrAnti(jt) ==> r == (if KeptSide(jt) == Left then left else right)
    ensures !IsSemiOrAnti(jt) ==> |r| == |left| + |right|
    ensures !IsSemiOrAnti(jt) ==> r[StartPos(Left, |left|)..StartPos(Right, |left|)] == left
    ensures !IsSemiOrAnti(jt) ==> r[StartPos(Right, |left|)..] == right
  {
    match jt
    case LeftSemi | LeftAnti => left
    case RightSemi | RightAnti => right
    case _ => left + right
  }

  /** Number of entries of `pk` that occur in `keys` (the filter-and-count of the source). */
  function CountContained(pk: seq<nat>, keys: seq<nat>): (n: nat)
    ensures n <= |pk|
  {
    if pk == [] then 0 else CountContained(pk[..|pk| - 1], keys) + (if pk[|pk| - 1] in keys then 1 else 0)
  }

  /** The append-only optimisation of `HashJoinExecutor::new`: the join keys cover the pk on both sides. */
  function AppendOnlyOptimize(appendOnly: bool, pkL: seq<nat>, keyL: seq<nat>, pkR: seq<nat>, keyR: seq<nat>): bool {
    if appendOnly then
      CountContained(pkL, keyL) == |pkL| && CountContained(pkR, keyR) == |pkR|
    else
      false
  }

  lemma {:induction false} CountContainedAll(pk: seq<nat>, keys: seq<nat>)
    ensures CountContained(pk, keys) == |pk| <==> forall i :: 0 <= i < |pk| ==> pk[i] in keys
  {
    if pk != [] {
      var init := pk[..|pk| - 1];
      CountContainedAll(init, keys);
      if pk[|pk| - 1] in keys {
        assert forall i :: 0 <= i < |init| ==> init[i] == pk[i];
      } else {
        assert CountContained(init, keys) <= |init|;
      }
    }
  }

  /** The optimisation is on iff requested and every pk column of each side is one of that side's join-key columns. */
  lemma AppendOnlyOptimizeCharacterised(appendOnly: bool, pkL: seq<nat>, keyL: seq<nat>, pkR: seq<nat>, keyR: seq<nat>)
    ensures AppendOnlyOptimize(appendOnly, pkL, keyL, pkR, keyR) <==>
              appendOnly && (forall i :: 0 <= i < |pkL| ==> pkL[i] in keyL) && (forall i :: 0 <= i < |pkR| ==> pkR[i] in keyR)
  {
    CountContainedAll(pkL, keyL);
    CountContainedAll(pkR, keyR);
  }

  /**
   * The row `row_concat` builds: width |u| + |m|, `m` at `mpos`, `u` at `upos` where `m`
   * does not overwrite it, NULL elsewhere.
   */
  function Concat(u: Row, upos: nat, m: Row, mpos: nat): Row {
    seq(|u| + |m|, k =>
      if mpos <= k < mpos + |m| then m[k - mpos]
      else if upos <= k < upos + |u| then u[k - upos]
      else None)
  }

  /**
   * A row of width |u| + |m| holding `m` at `mpos`, `u` at `upos` where `m` does not
   * overwrite it and NULL elsewhere is exactly `Concat(u, upos, m, mpos)`.
   */
  lemma ConcatDetermined(u: Row, upos: nat, m: Row, mpos: nat, r: Row)
    requires upos + |u| <= |u| + |m| && mpos + |m| <= |u| + |m|
    requires |r| == |u| + |m|
    requires forall i :: 0 <= i < |m| ==> r[i + mpos] == m[i]
    requires forall i :: 0 <= i < |u| && !(mpos <= i + upos < mpos + |m|) ==> r[i + upos] == u[i]
    requires forall k :: 0 <= k < |r| && !(mpos <= k < mpos + |m|) && !(upos <= k < upos + |u|) ==> r[k] == None
    ensures r == Concat(u, upos, m, mpos)
  {
    var c := Concat(u, upos, m, mpos);
    forall k | 0 <= k < |r|
      ensures r[k] == c[k]
    {
      if mpos <= k < mpos + |m| {
        assert r[(k - mpos) + mpos] == m[k - mpos];
      } else if upos <= k < upos + |u| {
        assert r[(k - upos) + upos] == u[k - upos];
      }
    }
  }

  /**
   * `row_concat` as written: a NULL row of width |u| + |m|, filled first with the update row at
   * `update_start_pos` and then with the matched row at `matched_start_pos`.
   */
  method RowConcat(u: Row, upos: nat, m: Row, mpos: nat) returns (r: Row)
    requires upos + |u| <= |u| + |m| && mpos + |m| <= |u| + |m|
    ensures |r| == |u| + |m|
    ensures forall i :: 0 <= i < |m| ==> r[i + mpos] == m[i]
    ensures forall i :: 0 <= i < |u| && !(mpos <= i + upos < mpos + |m|) ==> r[i + upos] == u[i]
    ensures forall k :: 0 <= k < |r| && !(mpos <= k < mpos + |m|) && !(upos <= k < upos + |u|) ==> r[k] == None
  {
    var a := new Datum[|u| + |m|](_ => None);
    var i := 0;
    while i < |u|
      invariant 0 <= i <= |u|
      invariant forall k :: 0 <= k < a.Length ==> a[k] == if upos <= k < upos + i then u[k - upos] else None
    {
      a[i + upos] := u[i];
      i := i + 1;
    }
    i := 0;
    while i < |m|
      invariant 0 <= i <= |m|
      invariant forall k :: 0 <= k < a.Length ==>
                  a[k] == if mpos <= k < mpos + i then m[k - mpos] else if upos <= k < upos + |u| then u[k - upos] else None
    {
      a[i + mpos] := m[i];
      i := i + 1;
    }
    r := a[..];
  }

  /**
   * The row the non-equi condition is evaluated on, as `eq_join_oneside` builds it: for
   * semi/anti joins both rows are placed at position 0, otherwise each at its side's start.
   */
  function ConditionRowAsWritten(jt: JoinType, side: Side, leftColumns: nat, u: Row, m: Row): Row {
    if IsSemiOrAnti(jt) then Concat(u, 0, m, 0)
    else Concat(u, StartPos(side, leftColumns), m, StartPos(side.Other(), leftColumns))
  }

  /** The condition row corrected: every join type lays the left row first and the right row after it. */
  function ConditionRow(side: Side, leftColumns: nat, u: Row, m: Row): Row {
    Concat(u, StartPos(side, leftColumns), m, StartPos(side.Other(), leftColumns))
  }

  /** The condition sees left ++ right, whichever side the update comes from. */
  lemma ConditionRowLeftRight(l: Row, r: Row)
    ensures ConditionRow(Left, |l|, l, r) == l + r
    ensures ConditionRow(Right, |l|, r, l) == l + r
  {
  }

  /** Outside semi/anti joins the condition row as written is the corrected one. */
  lemma ConditionRowAsWrittenAgrees(jt: JoinType, side: Side, leftColumns: nat, u: Row, m: Row)
    requires !IsSemiOrAnti(jt)
    ensures ConditionRowAsWritten(jt, side, leftColumns, u, m) == ConditionRow(side, leftColumns, u, m)
  {
  }

  /**
   * For semi/anti joins the matched row overwrites the update row: when the update row is
   * no wider than the matched row, none of its values reach the condition.
   */
  lemma ConditionRowAsWrittenLosesUpdate(jt: JoinType, side: Side, leftColumns: nat, u: Row, m: Row)
    requires IsSemiOrAnti(jt) && |u| <= |m|
    ensures ConditionRowAsWritten(jt, side, leftColumns, u, m) == m + seq(|u|, _ => None)
  {
    var r := ConditionRowAsWritten(jt, side, leftColumns, u, m);
    assert forall k :: 0 <= k < |r| ==> r[k] == (m + seq(|u|, _ => None))[k];
  }

  /**
   * A left semi join of left row (1, 4) with right row (1, 8): the condition is meant to see
   * (1, 4, 1, 8) but is given (1, 8, NULL, NULL).
   */
  lemma ConditionRowAsWrittenCounterexample()
    ensures ConditionRowAsWritten(LeftSemi, Left, 2, [Some(1), Some(4)], [Some(1), Some(8)]) == [Some(1), Some(8), None, None]
    ensures ConditionRow(Left, 2, [Some(1), Some(4)], [Some(1), Some(8)]) == [Some(1), Some(4), Some(1), Some(8)]
  {
    ConditionRowAsWrittenLosesUpdate(LeftSemi, Left, 2, [Some(1), Some(4)], [Some(1), Some(8)]);
    ConditionRowLeftRight([Some(1), Some(4)], [Some(1), Some(8)]);
  }
}
