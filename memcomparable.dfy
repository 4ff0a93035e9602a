/**
 * Storage keys as byte strings in byte-wise lexicographic order, the prefix successor
 * behind `end_bound_of_prefix` / `start_bound_of_excluded_prefix`, and
 * `to_memcomparable` / `prefix_range_to_memcomparable`, which turn a range over pk
 * prefixes into a range over encoded keys.
 */
module Memcomparable {
  import opened Wrappers
  import opened Rows

  newtype byte = x: int | 0 <= x < 256

  type Bytes = seq<byte>

  datatype Bound<T> = Unbounded | Included(key: T) | Excluded(key: T)

  /** Byte-wise lexicographic order: the order of keys in the store. */
  predicate Lt(a: Bytes, b: Bytes)
    decreases |a|
  {
    if a == [] then b != []
    else if b == [] then false
    else a[0] < b[0] || (a[0] == b[0] && Lt(a[1..], b[1..]))
  }

  /** `k` starts with `p`. */
  predicate IsPrefix(p: Bytes, k: Bytes) {
    |p| <= |k| && k[..|p|] == p
  }

  /**
   * The shortest key above every key that starts with `p`: the trailing 0xFF bytes are
   * dropped and the last remaining byte is incremented; `None` when every byte is 0xFF.
   */
  function Successor(p: Bytes): (r: Option<Bytes>)
    ensures r.Some? ==> 0 < |r.value| <= |p|
    ensures r.Some? ==> var n := |r.value| - 1;
                        && r.value[..n] == p[..n] && p[n] != 255 && r.value[n] == p[n] + 1
                        && forall j :: n < j < |p| ==> p[j] == 255
    ensures r.None? <==> forall j :: 0 <= j < |p| ==> p[j] == 255
    decreases |p|
  {
    if p == [] then None
    else
      match Successor(p[1..])
      case Some(s) => Some([p[0]] + s)
      case None => if p[0] == 255 then None else Some([p[0] + 1])
  }

  /**
   * The successor separates the keys starting with `p` from those above them: a key is
   * below the successor exactly when it is below `p` or starts with `p`. Without a
   * successor every key is below `p` or starts with it.
   */
  lemma {:induction false} SuccessorSeparates(p: Bytes, k: Bytes)
    ensures Successor(p).Some? ==> (Lt(k, Successor(p).value) <==> Lt(k, p) || IsPrefix(p, k))
    ensures Successor(p).None? ==> Lt(k, p) || IsPrefix(p, k)
    decreases |p|
  {
    if p != [] && k != [] {
      var q, k' := p[1..], k[1..];
      SuccessorSeparates(q, k');
      IsPrefixCons(p, k);
      match Successor(q)
      case Some(s) =>
        assert Successor(p).value == [p[0]] + s;
        assert ([p[0]] + s)[1..] == s;
      case None =>
        if p[0] != 255 {
          assert Successor(p).value == [p[0] + 1];
          assert Lt(k, [p[0] + 1]) <==> k[0] <= p[0];
        }
    }
  }

  /** A non-empty `p` starts `k` iff their first bytes agree and the rest of `p` starts the rest of `k`. */
  lemma IsPrefixCons(p: Bytes, k: Bytes)
    requires p != [] && k != []
    ensures IsPrefix(p, k) <==> p[0] == k[0] && IsPrefix(p[1..], k[1..])
  {
    if p[0] == k[0] && IsPrefix(p[1..], k[1..]) {
      assert k[..|p|] == [k[0]] + k[1..][..|p| - 1];
    }
    if IsPrefix(p, k) {
      assert k[1..][..|p| - 1] == k[..|p|][1..];
    }
  }

  /** `end_bound_of_prefix`: the exclusive end of the keys starting with `p`, unbounded without a successor. */
  function EndBoundOfPrefix(p: Bytes): Bound<Bytes> {
    match Successor(p)
    case Some(s) => Excluded(s)
    case None => Unbounded
  }

  /** `start_bound_of_excluded_prefix`: the first key above every key starting with `p`. */
  function StartBoundOfExcludedPrefix(p: Bytes): Bound<Bytes>
    requires Successor(p).Some?
  {
    Included(Successor(p).value)
  }

  /** The pk prefix of a bound, serialised; the serialiser is a parameter. */
  function SerialiseBound(serde: Row -> Bytes, b: Bound<Row>): Bound<Bytes> {
    match b
    case Unbounded => Unbounded
    case Included(r) => Included(serde(r))
    case Excluded(r) => Excluded(serde(r))
  }

  /** A lower bound on a pk prefix whose encoding has no successor cannot be excluded. */
  predicate LowerBoundEncodable(serde: Row -> Bytes, b: Bound<Row>) {
    b.Excluded? ==> Successor(serde(b.key)).Some?
  }

  /**
   * `to_memcomparable`: an unbounded bound stays unbounded, a lower included and an upper
   * excluded bound keep the encoded prefix, an upper included bound becomes the end of the
   * prefix and a lower excluded bound the start after it.
   */
  function ToMemcomparable(serde: Row -> Bytes, b: Bound<Row>, isUpper: bool): (r: Bound<Bytes>)
    requires !isUpper ==> LowerBoundEncodable(serde, b)
    ensures b.Unbounded? ==> r.Unbounded?
    ensures b.Included? && !isUpper ==> r == Included(serde(b.key))
    ensures b.Excluded? && isUpper ==> r == Excluded(serde(b.key))
    ensures b.Included? && isUpper ==> r.Excluded? || r.Unbounded?
    ensures b.Excluded? && !isUpper ==> r.Included?
  {
    match b
    case Unbounded => Unbounded
    case Included(row) =>
      var p := serde(row);
      if isUpper then EndBoundOfPrefix(p) else Included(p)
    case Excluded(row) =>
      var p := serde(row);
      if !isUpper then StartBoundOfExcludedPrefix(p) else Excluded(p)
  }

  /** `prefix_range_to_memcomparable`: the lower bound as a lower, the upper as an upper bound. */
  function PrefixRangeToMemcomparable(serde: Row -> Bytes, lo: Bound<Row>, hi: Bound<Row>): (Bound<Bytes>, Bound<Bytes>)
    requires LowerBoundEncodable(serde, lo)
  {
    (ToMemcomparable(serde, lo, false), ToMemcomparable(serde, hi, true))
  }

  /** `k` is at or above a lower bound on encoded keys. */
  predicate AboveLower(k: Bytes, b: Bound<Bytes>) {
    match b
    case Unbounded => true
    case Included(x) => !Lt(k, x)
    case Excluded(x) => Lt(x, k)
  }

  /** `k` is at or below an upper bound on encoded keys. */
  predicate BelowUpper(k: Bytes, b: Bound<Bytes>) {
    match b
    case Unbounded => true
    case Included(x) => !Lt(x, k)
    case Excluded(x) => Lt(k, x)
  }

  /**
   * The meaning of a lower bound on a pk prefix: an included prefix admits every key from
   * it on; an excluded prefix admits only keys above it that do not start with it.
   */
  predicate AbovePrefixLower(k: Bytes, b: Bound<Bytes>) {
    match b
    case Unbounded => true
    case Included(p) => !Lt(k, p)
    case Excluded(p) => !Lt(k, p) && !IsPrefix(p, k)
  }

  /**
   * The meaning of an upper bound on a pk prefix: an included prefix admits every key below
   * it or starting with it; an excluded prefix admits only keys below it.
   */
  predicate BelowPrefixUpper(k: Bytes, b: Bound<Bytes>) {
    match b
    case Unbounded => true
    case Included(p) => Lt(k, p) || IsPrefix(p, k)
    case Excluded(p) => Lt(k, p)
  }

  /**
   * The encoded range admits exactly the keys the prefix range means: for every key,
   * the converted lower and upper bounds hold iff the prefix bounds do.
   */
  lemma PrefixRangeToMemcomparableExact(serde: Row -> Bytes, lo: Bound<Row>, hi: Bound<Row>, k: Bytes)
    requires LowerBoundEncodable(serde, lo)
    ensures var (l, u) := PrefixRangeToMemcomparable(serde, lo, hi);
            && (AboveLower(k, l) <==> AbovePrefixLower(k, SerialiseBound(serde, lo)))
            && (BelowUpper(k, u) <==> BelowPrefixUpper(k, SerialiseBound(serde, hi)))
  {
    if lo.Excluded? {
      SuccessorSeparates(serde(lo.key), k);
    }
    if hi.Included? {
      SuccessorSeparates(serde(hi.key), k);
    }
  }
}
