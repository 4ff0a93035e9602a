/**
 * The write, commit and watermark bookkeeping of `StateTable`: rows are written to a
 * local store under `vnode ++ pk` keys, epochs are sealed, and every few commits with a
 * watermark one delete range per owned vnode is handed to the store. The pk and value
 * encodings, the vnode hash and the vnode's byte encoding are parameters of the table.
 */
module StateTables {
  import opened Wrappers
  import opened Rows
  import opened Memcomparable

  /** `STATE_CLEANING_PERIOD_EPOCH`. */
  const StateCleaningPeriodEpoch: nat := 5

  /** The identity value indices `0..n`. */
  function AllColumns(n: nat): seq<nat> {
    seq(n, i => i)
  }

  /** The value-indices normalisation of `from_table_catalog`: the full column list in order becomes `None`. */
  function NormaliseValueIndices(input: seq<nat>, numColumns: nat): Option<seq<nat>> {
    if |input| == numColumns && input == AllColumns(numColumns) then None else Some(input)
  }

  /** The columns a value encodes under (normalised) value indices. */
  function ValueColumns(row: Row, valueIndices: Option<seq<nat>>): Row
    requires valueIndices.Some? ==> IndicesWithin(valueIndices.value, |row|)
  {
    match valueIndices
    case None => row
    case Some(v) => Project(row, v)
  }

  /**
   * Normalisation is `None` exactly for the identity indices and keeps any other list, and
   * it never changes what a value encodes: the columns stored are the catalog's.
   */
  lemma NormaliseValueIndicesKeepsValues(input: seq<nat>, numColumns: nat, row: Row)
    requires IndicesWithin(input, numColumns) && |row| == numColumns
    ensures NormaliseValueIndices(input, numColumns).None? <==> input == AllColumns(numColumns)
    ensures NormaliseValueIndices(input, numColumns).Some? ==> NormaliseValueIndices(input, numColumns).value == input
    ensures ValueColumns(row, NormaliseValueIndices(input, numColumns)) == Project(row, input)
  {
    if input == AllColumns(numColumns) {
      assert forall i :: 0 <= i < |input| ==> Project(row, input)[i] == row[i];
    }
  }

  /** `iter().position`: the first position of `x` in `s`. */
  function Position(s: seq<nat>, x: nat): (r: Option<nat>)
    ensures r.Some? ==> r.value < |s| && s[r.value] == x && forall j :: 0 <= j < r.value ==> s[j] != x
    ensures r.None? <==> x !in s
  {
    if s == [] then None
    else if s[0] == x then Some(0)
    else match Position(s[1..], x)
         case None => None
         case Some(i) => Some(i + 1)
  }

  /** `get_dist_key_in_pk_indices`: where each distribution-key column sits in the pk. */
  function DistKeyInPk(distKey: seq<nat>, pk: seq<nat>): (r: seq<nat>)
    requires forall i :: 0 <= i < |distKey| ==> distKey[i] in pk
    ensures |r| == |distKey|
    ensures forall i :: 0 <= i < |r| ==> r[i] < |pk| && pk[r[i]] == distKey[i]
  {
    seq(|distKey|, i requires 0 <= i < |distKey| => Position(pk, distKey[i]).value)
  }

  /** The watermark state: the latest watermark, the one last cleaned up to, and the commits since. */
  datatype Watermarks = Watermarks(cur: Option<int>, last: Option<int>, commitsSinceClean: nat)

  /** `seal_current_epoch` on the watermark state: the new state and the watermark cleaned up to, if any. */
  datatype Sealed = Sealed(wm: Watermarks, cleanTo: Option<int>)

  function SealWatermarks(w: Watermarks): (r: Sealed)
    ensures r.cleanTo.Some? <==> w.cur.Some? && w.commitsSinceClean + 1 >= StateCleaningPeriodEpoch
    ensures r.cleanTo.Some? ==> r.cleanTo == w.cur && r.wm == Watermarks(None, w.cur, 0)
    ensures r.cleanTo.None? && w.cur.Some? ==> r.wm == w.(commitsSinceClean := w.commitsSinceClean + 1)
    ensures w.cur.None? ==> r.wm == w
  {
    match w.cur
    case None => Sealed(w, None)
    case Some(_) =>
      var n := w.commitsSinceClean + 1;
      if n >= StateCleaningPeriodEpoch then Sealed(Watermarks(None, w.cur, 0), w.cur)
      else Sealed(w.(commitsSinceClean := n), None)
  }

  /** `commit`: one count for a watermark, then the seal, which counts it again. */
  function CommitWatermarks(w: Watermarks): Sealed {
    SealWatermarks(if w.cur.Some? then w.(commitsSinceClean := w.commitsSinceClean + 1) else w)
  }

  /** A commit with a watermark advances the counter by two, so it cleans once the counter is at least three. */
  lemma CommitCountsTwice(w: Watermarks)
    requires w.cur.Some?
    ensures CommitWatermarks(w).cleanTo.Some? <==> w.commitsSinceClean + 2 >= StateCleaningPeriodEpoch
    ensures CommitWatermarks(w).cleanTo.None? ==> CommitWatermarks(w).wm.commitsSinceClean == w.commitsSinceClean + 2
  {
  }

  /**
   * From a clean state, with a watermark set before each commit, the first two commits do
   * not clean and the third does: cleaning happens every third commit, not every fifth.
   */
  lemma CleaningEveryThirdCommit(last: Option<int>, w1: int, w2: int, w3: int)
    ensures var s1 := CommitWatermarks(Watermarks(Some(w1), last, 0));
            var s2 := CommitWatermarks(s1.wm.(cur := Some(w2)));
            var s3 := CommitWatermarks(s2.wm.(cur := Some(w3)));
            && s1.cleanTo.None? && s2.cleanTo.None? && s3.cleanTo == Some(w3)
            && s3.wm == Watermarks(None, Some(w3), 0)
  {
    CommitCountsTwice(Watermarks(Some(w1), last, 0));
    var s1 := CommitWatermarks(Watermarks(Some(w1), last, 0));
    CommitCountsTwice(s1.wm.(cur := Some(w2)));
    var s2 := CommitWatermarks(s1.wm.(cur := Some(w2)));
    CommitCountsTwice(s2.wm.(cur := Some(w3)));
  }

  /** Number of set bits of a vnode bitmap. */
  function CountOnes(bits: seq<bool>): nat {
    if bits == [] then 0 else CountOnes(bits[..|bits| - 1]) + (if bits[|bits| - 1] then 1 else 0)
  }

  /** The delete range of one vnode: from `vnode ++ begin` to `vnode ++ end`. */
  function VnodeRange(vnodeKey: int -> Bytes, v: int, begin: Bytes, end: Bytes): (Bytes, Bytes) {
    (vnodeKey(v) + begin, vnodeKey(v) + end)
  }

  /** The delete ranges of `seal_current_epoch`: one `VnodeRange` for each set vnode, in order. */
  function DeleteRanges(vnodeKey: int -> Bytes, bits: seq<bool>, begin: Bytes, end: Bytes): seq<(Bytes, Bytes)> {
    if bits == [] then []
    else
      var n := |bits| - 1;
      DeleteRanges(vnodeKey, bits[..n], begin, end) + (if bits[n] then [VnodeRange(vnodeKey, n, begin, end)] else [])
  }

  /** `x` is the delete range of some set vnode. */
  predicate RangeOfSetVnode(vnodeKey: int -> Bytes, bits: seq<bool>, begin: Bytes, end: Bytes, x: (Bytes, Bytes)) {
    exists v :: 0 <= v < |bits| && bits[v] && x == VnodeRange(vnodeKey, v, begin, end)
  }

  /** Exactly one delete range per set vnode: one for each, each for one, and as many as there are. */
  lemma {:induction false} DeleteRangesPerVnode(vnodeKey: int -> Bytes, bits: seq<bool>, begin: Bytes, end: Bytes)
    ensures |DeleteRanges(vnodeKey, bits, begin, end)| == CountOnes(bits)
    ensures forall v :: 0 <= v < |bits| && bits[v] ==> VnodeRange(vnodeKey, v, begin, end) in DeleteRanges(vnodeKey, bits, begin, end)
    ensures forall x :: x in DeleteRanges(vnodeKey, bits, begin, end) ==> RangeOfSetVnode(vnodeKey, bits, begin, end, x)
  {
    if bits != [] {
      var n := |bits| - 1;
      var init := bits[..n];
      DeleteRangesPerVnode(vnodeKey, init, begin, end);
      var p := DeleteRanges(vnodeKey, init, begin, end);
      var r := DeleteRanges(vnodeKey, bits, begin, end);
      assert r == p + (if bits[n] then [VnodeRange(vnodeKey, n, begin, end)] else []);
      forall x | x in r
        ensures RangeOfSetVnode(vnodeKey, bits, begin, end, x)
      {
        if x in p {
          assert RangeOfSetVnode(vnodeKey, init, begin, end, x);
          var v :| 0 <= v < |init| && init[v] && x == VnodeRange(vnodeKey, v, begin, end);
          assert bits[v];
        } else {
          assert bits[n] && x == VnodeRange(vnodeKey, n, begin, end);
        }
      }
      forall v | 0 <= v < |bits| && bits[v]
        ensures VnodeRange(vnodeKey, v, begin, end) in r
      {
        if v < n {
          assert init[v];
          assert VnodeRange(vnodeKey, v, begin, end) in p;
        } else {
          assert r[|r| - 1] == VnodeRange(vnodeKey, v, begin, end);
        }
      }
    }
  }

  /** The store's change for one chunk row: Insert/UpdateInsert put the value, Delete/UpdateDelete remove the key. */
  function ApplyOp(store: map<Bytes, Bytes>, op: Op, key: Bytes, value: Bytes): map<Bytes, Bytes> {
    if op.Adds() then store[key := value] else store - {key}
  }

  class StateTable {
    const numColumns: nat
    const pkIndices: seq<nat>
    /** Distribution key in table columns; empty for a table without distribution. */
    const distKeyIndices: seq<nat>
    /** Distribution key as positions within the pk. */
    const distKeyInPkIndices: seq<nat>
    /** Position within the pk of the column holding each row's vnode, if there is one. */
    const vnodeColInPk: Option<nat>
    const valueIndices: Option<seq<nat>>
    /** `OrderedRowSerde` over a pk or a prefix of it. */
    const pkSerde: Row -> Bytes
    /** The value encoding of a row. */
    const valueSerde: Row -> Bytes
    /** `VirtualNode::to_be_bytes`. */
    const vnodeKey: int -> Bytes
    /** `compute_vnode` on the datums of a distribution key. */
    const hashVnode: Row -> int
    var vnodes: seq<bool>
    var store: map<Bytes, Bytes>
    var epoch: nat
    var dirty: bool
    /** The delete ranges handed to the store by the last seal. */
    var sealedRanges: seq<(Bytes, Bytes)>
    var wm: Watermarks

    predicate Valid()
    {
      && IndicesWithin(pkIndices, numColumns) && IndicesWithin(distKeyIndices, numColumns)
      && IndicesWithin(distKeyInPkIndices, |pkIndices|)
      && (vnodeColInPk.Some? ==> vnodeColInPk.value < |pkIndices|)
      && (valueIndices.Some? ==> IndicesWithin(valueIndices.value, numColumns))
    }

    /**
     * `from_table_catalog_may_disable_sanity_check`: the pk, the distribution (or the fallback
     * when no bitmap is given), the vnode column's position in the pk, normalised value
     * indices, and no watermark.
     */
    constructor(numColumns: nat, pkIndices: seq<nat>, distKey: seq<nat>, vnodeColIndex: Option<nat>,
                inputValueIndices: seq<nat>, givenVnodes: Option<seq<bool>>, fallbackVnodes: seq<bool>,
                pkSerde: Row -> Bytes, valueSerde: Row -> Bytes, vnodeKey: int -> Bytes, hashVnode: Row -> int,
                contents: map<Bytes, Bytes>)
      requires IndicesWithin(pkIndices, numColumns) && IndicesWithin(inputValueIndices, numColumns)
      requires IndicesWithin(distKey, numColumns) && forall i :: 0 <= i < |distKey| ==> distKey[i] in pkIndices
      ensures Valid()
      ensures this.numColumns == numColumns && this.pkIndices == pkIndices
      ensures distKeyInPkIndices == DistKeyInPk(distKey, pkIndices)
      ensures givenVnodes.Some? ==> distKeyIndices == distKey && vnodes == givenVnodes.value
      ensures givenVnodes.None? ==> distKeyIndices == [] && vnodes == fallbackVnodes
      ensures vnodeColInPk == (if vnodeColIndex.Some? then Position(pkIndices, vnodeColIndex.value) else None)
      ensures valueIndices == NormaliseValueIndices(inputValueIndices, numColumns)
      ensures this.pkSerde == pkSerde && this.valueSerde == valueSerde && this.vnodeKey == vnodeKey && this.hashVnode == hashVnode
      ensures store == contents && !dirty && sealedRanges == [] && wm == Watermarks(None, None, 0)
    {
      this.numColumns := numColumns;
      this.pkIndices := pkIndices;
      distKeyInPkIndices := DistKeyInPk(distKey, pkIndices);
      match givenVnodes {
        case Some(v) =>
          distKeyIndices := distKey;
          vnodes := v;
        case None =>
          distKeyIndices := [];
          vnodes := fallbackVnodes;
      }
      vnodeColInPk := if vnodeColIndex.Some? then Position(pkIndices, vnodeColIndex.value) else None;
      valueIndices := NormaliseValueIndices(inputValueIndices, numColumns);
      this.pkSerde := pkSerde;
      this.valueSerde := valueSerde;
      this.vnodeKey := vnodeKey;
      this.hashVnode := hashVnode;
      store := contents;
      epoch := 0;
      dirty := false;
      sealedRanges := [];
      wm := Watermarks(None, None, 0);
    }

    /** `compute_prefix_vnode` can read what it needs: the vnode column, a non-NULL datum, or the whole distribution key. */
    predicate PrefixVnodeDefined(prefix: Row) {
      match vnodeColInPk
      case Some(i) => i < |prefix| && prefix[i].Some?
      case None => IndicesWithin(distKeyInPkIndices, |prefix|)
    }

    /** `compute_prefix_vnode`: the vnode column's value, or the hash of the distribution key within the prefix. */
    function PrefixVnode(prefix: Row): int
      requires PrefixVnodeDefined(prefix)
    {
      match vnodeColInPk
      case Some(i) => prefix[i].value
      case None => hashVnode(Project(prefix, distKeyInPkIndices))
    }

    /** `compute_vnode` / `compute_chunk_vnode` on a full row. */
    function RowVnode(row: Row): int
      requires IndicesWithin(distKeyIndices, |row|)
    {
      hashVnode(Project(row, distKeyIndices))
    }

    /** `serialize_pk_with_vnode`: the vnode's bytes, then the encoded pk (prefix). */
    function PkKey(pk: Row): Bytes
      requires PrefixVnodeDefined(pk)
    {
      vnodeKey(PrefixVnode(pk)) + pkSerde(pk)
    }

    /** The key `write_chunk` builds for a row: the row's vnode, then its encoded pk. */
    function ChunkKey(row: Row): Bytes
      requires IndicesWithin(distKeyIndices, |row|) && IndicesWithin(pkIndices, |row|)
    {
      vnodeKey(RowVnode(row)) + pkSerde(Project(row, pkIndices))
    }

    /** `serialize_value`: the value columns, encoded. */
    function SerialiseValue(row: Row): Bytes
      requires valueIndices.Some? ==> IndicesWithin(valueIndices.value, |row|)
    {
      valueSerde(ValueColumns(row, valueIndices))
    }

    /** A row of this table whose pk determines a vnode. */
    predicate Writable(row: Row)
    {
      Valid() && |row| == numColumns && PrefixVnodeDefined(Project(row, pkIndices))
    }

    /**
     * Without a vnode column, the vnode `insert` computes from the pk is the vnode
     * `write_chunk` computes from the row, whenever the distribution key within the pk
     * points at the distribution key's columns.
     */
    lemma PrefixVnodeIsRowVnode(row: Row)
      requires Valid() && |row| == numColumns && vnodeColInPk.None?
      requires |distKeyInPkIndices| == |distKeyIndices|
      requires forall i :: 0 <= i < |distKeyIndices| ==> pkIndices[distKeyInPkIndices[i]] == distKeyIndices[i]
      ensures PrefixVnodeDefined(Project(row, pkIndices))
      ensures PrefixVnode(Project(row, pkIndices)) == RowVnode(row)
      ensures PkKey(Project(row, pkIndices)) == ChunkKey(row)
    {
      var pk := Project(row, pkIndices);
      assert Project(pk, distKeyInPkIndices) == Project(row, distKeyIndices);
    }

    /** With an injective pk encoding and a fixed-width vnode encoding, different pks never share a key. */
    lemma PkKeysDistinct(a: Row, b: Row)
      requires PrefixVnodeDefined(a) && PrefixVnodeDefined(b)
      requires forall x: Row, y: Row :: pkSerde(x) == pkSerde(y) ==> x == y
      requires forall v: int, w: int :: |vnodeKey(v)| == |vnodeKey(w)|
      ensures PkKey(a) == PkKey(b) ==> a == b
    {
      if PkKey(a) == PkKey(b) {
        var n := |vnodeKey(PrefixVnode(a))|;
        assert |vnodeKey(PrefixVnode(b))| == n;
        assert pkSerde(a) == PkKey(a)[n..];
        assert pkSerde(b) == PkKey(b)[n..];
      }
    }

    /** `get_compacted_row`: the stored value under the pk's key; the pk may be a prefix no longer than the pk. */
    method GetCompactedRow(pk: Row) returns (r: Option<Bytes>)
      requires |pk| <= |pkIndices| && PrefixVnodeDefined(pk)
      ensures PkKey(pk) in store <==> r.Some?
      ensures r.Some? ==> r.value == store[PkKey(pk)]
    {
      var key := vnodeKey(PrefixVnode(pk)) + pkSerde(pk);
      if key in store {
        r := Some(store[key]);
      } else {
        r := None;
      }
    }

    /**
     * `update_vnode_bitmap`: only on a clean table, with a bitmap of the same length, and
     * unchanged for a table without distribution key; both watermarks are cleared and the
     * previous bitmap is returned.
     */
    method UpdateVnodeBitmap(newVnodes: seq<bool>) returns (prev: seq<bool>)
      requires !dirty
      requires distKeyIndices == [] ==> newVnodes == vnodes
      requires |vnodes| == |newVnodes|
      modifies this
      ensures prev == old(vnodes) && vnodes == newVnodes
      ensures wm == old(wm).(cur := None, last := None)
      ensures store == old(store) && epoch == old(epoch) && dirty == old(dirty) && sealedRanges == old(sealedRanges)
    {
      wm := wm.(cur := None, last := None);
      prev := vnodes;
      vnodes := newVnodes;
    }

    /** `insert`: the encoded row is stored under its pk's key. */
    method Insert(row: Row)
      requires Writable(row)
      modifies this
      ensures store == old(store)[PkKey(Project(row, pkIndices)) := SerialiseValue(row)]
      ensures dirty && vnodes == old(vnodes) && epoch == old(epoch) && wm == old(wm) && sealedRanges == old(sealedRanges)
    {
      var pk := Project(row, pkIndices);
      var key := vnodeKey(PrefixVnode(pk)) + pkSerde(pk);
      store := store[key := SerialiseValue(row)];
      dirty := true;
    }

    /** `delete`: the key of the row's pk is removed. */
    method Delete(row: Row)
      requires Writable(row)
      modifies this
      ensures store == old(store) - {PkKey(Project(row, pkIndices))}
      ensures dirty && vnodes == old(vnodes) && epoch == old(epoch) && wm == old(wm) && sealedRanges == old(sealedRanges)
    {
      var pk := Project(row, pkIndices);
      var key := vnodeKey(PrefixVnode(pk)) + pkSerde(pk);
      store := store - {key};
      dirty := true;
    }

    /** `update`: both rows have the same pk; the new encoded row replaces the old one under that pk's key. */
    method Update(oldRow: Row, newRow: Row)
      requires Writable(oldRow) && Writable(newRow)
      requires Project(oldRow, pkIndices) == Project(newRow, pkIndices)
      modifies this
      ensures store == old(store)[PkKey(Project(newRow, pkIndices)) := SerialiseValue(newRow)]
      ensures dirty && vnodes == old(vnodes) && epoch == old(epoch) && wm == old(wm) && sealedRanges == old(sealedRanges)
    {
      var pk := Project(newRow, pkIndices);
      var key := vnodeKey(PrefixVnode(pk)) + pkSerde(pk);
      store := store[key := SerialiseValue(newRow)];
      dirty := true;
    }

    /** A chunk of this table: an op per row, a visibility per row when there is a bitmap, full-width rows. */
    predicate ChunkFits(ops: seq<Op>, rows: seq<Row>, vis: Option<seq<bool>>)
    {
      && Valid() && |ops| == |rows| && (vis.Some? ==> |vis.value| == |rows|)
      && forall i :: 0 <= i < |rows| ==> |rows[i]| == numColumns
    }

    /** Row `i` of the chunk is visible: always for a compact chunk, per the bitmap otherwise. */
    static predicate Visible(vis: Option<seq<bool>>, i: nat) {
      match vis
      case None => true
      case Some(bits) => i < |bits| && bits[i]
    }

    /** The store after the first `n` rows of a chunk: visible rows inserted or deleted by op, invisible ones skipped. */
    function ApplyChunk(s: map<Bytes, Bytes>, ops: seq<Op>, rows: seq<Row>, vis: Option<seq<bool>>, n: nat): map<Bytes, Bytes>
      requires ChunkFits(ops, rows, vis) && n <= |rows|
    {
      if n == 0 then s
      else
        var p := ApplyChunk(s, ops, rows, vis, n - 1);
        var row := rows[n - 1];
        if Visible(vis, n - 1) then ApplyOp(p, ops[n - 1], ChunkKey(row), SerialiseValue(row)) else p
    }

    /** Whether any of the first `n` rows is visible. */
    static predicate AnyVisible(vis: Option<seq<bool>>, n: nat) {
      exists i :: 0 <= i < n && Visible(vis, i)
    }

    /**
     * `write_chunk`: each visible row is inserted (Insert/UpdateInsert) or deleted
     * (Delete/UpdateDelete) under the key of its vnode and pk; invisible rows change nothing.
     */
    method WriteChunk(ops: seq<Op>, rows: seq<Row>, vis: Option<seq<bool>>)
      requires ChunkFits(ops, rows, vis)
      modifies this
      ensures store == ApplyChunk(old(store), ops, rows, vis, |rows|)
      ensures dirty == (old(dirty) || AnyVisible(vis, |rows|))
      ensures vnodes == old(vnodes) && epoch == old(epoch) && wm == old(wm) && sealedRanges == old(sealedRanges)
    {
      var st := store;
      var d := dirty;
      var i := 0;
      while i < |rows|
        invariant 0 <= i <= |rows|
        invariant st == ApplyChunk(old(store), ops, rows, vis, i)
        invariant d == (old(dirty) || AnyVisible(vis, i))
      {
        var row := rows[i];
        var visible := match vis case None => true case Some(bits) => bits[i];
        if visible {
          var key := vnodeKey(hashVnode(Project(row, distKeyIndices))) + pkSerde(Project(row, pkIndices));
          var value := SerialiseValue(row);
          if ops[i].Adds() {
            st := st[key := value];
          } else {
            st := st - {key};
          }
          assert key == ChunkKey(row);
          d := true;
        }
        assert visible == Visible(vis, i);
        assert AnyVisible(vis, i + 1) <==> AnyVisible(vis, i) || Visible(vis, i);
        i := i + 1;
      }
      store, dirty := st, d;
    }

    /** A chunk with no visible row leaves the store as it was. */
    lemma {:induction false} InvisibleChunkUnchanged(s: map<Bytes, Bytes>, ops: seq<Op>, rows: seq<Row>, vis: Option<seq<bool>>, n: nat)
      requires ChunkFits(ops, rows, vis) && n <= |rows| && !AnyVisible(vis, n)
      ensures ApplyChunk(s, ops, rows, vis, n) == s
    {
      if n > 0 {
        assert !Visible(vis, n - 1);
        InvisibleChunkUnchanged(s, ops, rows, vis, n - 1);
      }
    }

    /** `update_watermark`: the latest watermark. */
    method UpdateWatermark(w: int)
      modifies this
      ensures wm == old(wm).(cur := Some(w))
      ensures store == old(store) && vnodes == old(vnodes) && epoch == old(epoch) && dirty == old(dirty) && sealedRanges == old(sealedRanges)
    {
      wm := wm.(cur := Some(w));
    }

    /** The delete ranges a seal hands to the store: one per set vnode, from the last to the cleaned watermark. */
    function SealRanges(cleanTo: Option<int>): seq<(Bytes, Bytes)>
      reads this
    {
      match cleanTo
      case None => []
      case Some(w) =>
        var begin := if wm.last.Some? then pkSerde([Some(wm.last.value)]) else [];
        DeleteRanges(vnodeKey, vnodes, begin, pkSerde([Some(w)]))
    }

    /** Cleaning needs a pk to encode the watermark as a one-column prefix. */
    predicate CanClean(w: Watermarks)
    {
      SealWatermarks(w).cleanTo.Some? ==> pkIndices != []
    }

    /**
     * `seal_current_epoch`: counts a commit with a watermark, and once the count reaches
     * the cleaning period hands the store one delete range per set vnode and moves the
     * latest watermark to the last one. The store is sealed at `next` and is clean.
     */
    method SealCurrentEpoch(next: nat)
      requires CanClean(wm)
      modifies this
      ensures var r := SealWatermarks(old(wm));
              && wm == r.wm
              && sealedRanges == old(SealRanges(r.cleanTo))
      ensures epoch == next && !dirty
      ensures store == old(store) && vnodes == old(vnodes)
    {
      var cleanTo: Option<int> := None;
      var count := wm.commitsSinceClean;
      if wm.cur.Some? {
        count := count + 1;
        if count >= StateCleaningPeriodEpoch {
          cleanTo := wm.cur;
        }
      }
      var ranges: seq<(Bytes, Bytes)> := [];
      if cleanTo.Some? {
        var begin := if wm.last.Some? then pkSerde([Some(wm.last.value)]) else [];
        var end := pkSerde([Some(cleanTo.value)]);
        var i := 0;
        while i < |vnodes|
          invariant 0 <= i <= |vnodes|
          invariant ranges == DeleteRanges(vnodeKey, vnodes[..i], begin, end)
        {
          if vnodes[i] {
            ranges := ranges + [VnodeRange(vnodeKey, i, begin, end)];
          }
          assert vnodes[..i + 1][..i] == vnodes[..i];
          i := i + 1;
        }
        assert vnodes[..|vnodes|] == vnodes;
      }
      sealedRanges := ranges;
      epoch := next;
      dirty := false;
      if cleanTo.Some? {
        wm := Watermarks(None, wm.cur, 0);
      } else {
        wm := wm.(commitsSinceClean := count);
      }
    }

    /** `commit`: the store must be at the previous epoch; a watermark is counted, then the epoch is sealed. */
    method Commit(prev: nat, curr: nat)
      requires epoch == prev
      requires CanClean(if wm.cur.Some? then wm.(commitsSinceClean := wm.commitsSinceClean + 1) else wm)
      modifies this
      ensures var r := CommitWatermarks(old(wm));
              && wm == r.wm
              && sealedRanges == old(SealRanges(r.cleanTo))
      ensures epoch == curr && !dirty
      ensures store == old(store) && vnodes == old(vnodes)
    {
      if wm.cur.Some? {
        wm := wm.(commitsSinceClean := wm.commitsSinceClean + 1);
      }
      SealCurrentEpoch(curr);
    }

    /** `commit_no_data_expected`: a clean store at the previous epoch is sealed with no delete range; watermarks are untouched. */
    method CommitNoDataExpected(prev: nat, curr: nat)
      requires epoch == prev && !dirty
      modifies this
      ensures epoch == curr && !dirty && sealedRanges == []
      ensures store == old(store) && vnodes == old(vnodes) && wm == old(wm)
    {
      epoch := curr;
      sealedRanges := [];
    }
  }
}
