/** The specification of a non-unique ordered index: a finite map from keys to the rows filed under them. */
module Buckets {
  import opened Common
  import opened OrderedMap

  type Bucket = seq<RID>
  type BucketMap = map<int, Bucket>

  function RowsAt(m: BucketMap, key: int): Bucket {
    if key in m then m[key] else []
  }

  function Added(m: BucketMap, key: int, rid: RID): BucketMap {
    m[key := RowsAt(m, key) + [rid]]
  }

  /** The first position of a row; the length if it is not there. */
  function Position(s: Bucket, rid: RID): (i: nat)
    ensures i <= |s| && (i < |s| <==> rid in s)
    ensures i < |s| ==> s[i] == rid
    ensures forall j :: 0 <= j < i ==> s[j] != rid
  {
    if s == [] || s[0] == rid then 0 else 1 + Position(s[1..], rid)
  }

  function Without(s: Bucket, rid: RID): Bucket {
    var i := Position(s, rid);
    if i < |s| then s[..i] + s[i + 1..] else s
  }

  /** Removing a pair takes out its first occurrence, and the bucket with its last row. */
  function Removed(m: BucketMap, key: int, rid: RID): BucketMap {
    if key in m && rid in m[key] then
      var left := Without(m[key], rid);
      if left == [] then m - {key} else m[key := left]
    else m
  }

  /** Every key has the rows it had, `key` one more behind them. */
  ghost predicate Appends(m: BucketMap, m': BucketMap, key: int, rid: RID) {
    forall k :: RowsAt(m', k) == RowsAt(m, k) + if k == key then [rid] else []
  }

  /** The rows without the first `rid` among them, if there is one. */
  ghost predicate LacksFirst(rows: Bucket, rows': Bucket, rid: RID) {
    if rid in rows then exists i :: 0 <= i < |rows| && FirstAt(rows, i, rid) && rows' == rows[..i] + rows[i + 1..]
    else rows' == rows
  }

  predicate FirstAt(rows: Bucket, i: nat, rid: RID)
    requires i < |rows|
  {
    rows[i] == rid && rid !in rows[..i]
  }

  /** Every key has the rows it had, `key` without the first `rid`. */
  ghost predicate Drops(m: BucketMap, m': BucketMap, key: int, rid: RID) {
    && LacksFirst(RowsAt(m, key), RowsAt(m', key), rid)
    && forall k :: k != key ==> RowsAt(m', k) == RowsAt(m, k)
  }

  lemma AddedAppends(m: BucketMap, key: int, rid: RID)
    ensures Appends(m, Added(m, key, rid), key, rid)
  {
  }

  lemma RemovedDrops(m: BucketMap, key: int, rid: RID)
    ensures Drops(m, Removed(m, key, rid), key, rid)
  {
    var rows := RowsAt(m, key);
    if rid in rows {
      var i := Position(rows, rid);
      assert FirstAt(rows, i, rid);
    }
  }

  function Joined(bs: seq<Bucket>): Bucket {
    if bs == [] then [] else Joined(bs[..|bs| - 1]) + bs[|bs| - 1]
  }

  lemma {:induction false} JoinedConcat(a: seq<Bucket>, b: seq<Bucket>)
    ensures Joined(a + b) == Joined(a) + Joined(b)
    decreases |b|
  {
    if b == [] {
      assert a + b == a;
    } else {
      var n := |b| - 1;
      JoinedConcat(a, b[..n]);
      assert (a + b)[..|a + b| - 1] == a + b[..n];
    }
  }

  /** All rows with keys in [lo, hi], by key. */
  ghost function RowsBetween(m: BucketMap, lo: int, hi: int): Bucket {
    Joined(InRange(Listing(m), lo, hi))
  }

  function PairsOf(key: int, rows: Bucket): seq<(int, RID)> {
    seq(|rows|, i requires 0 <= i < |rows| => (key, rows[i]))
  }

  function PairsIn(es: seq<Entry<Bucket>>): seq<(int, RID)> {
    if es == [] then [] else PairsIn(es[..|es| - 1]) + PairsOf(es[|es| - 1].key, es[|es| - 1].val)
  }

  lemma PairsSnoc(es: seq<Entry<Bucket>>, i: nat)
    requires i < |es|
    ensures PairsIn(es[..i + 1]) == PairsIn(es[..i]) + PairsOf(es[i].key, es[i].val)
  {
    assert es[..i + 1][..i] == es[..i];
  }

  lemma {:induction false} PairsConcat(a: seq<Entry<Bucket>>, b: seq<Entry<Bucket>>)
    ensures PairsIn(a + b) == PairsIn(a) + PairsIn(b)
    decreases |b|
  {
    hide PairsOf;
    if b == [] {
      assert a + b == a;
    } else {
      var n := |b| - 1;
      PairsConcat(a, b[..n]);
      var both := a + b;
      assert both[..|both| - 1] == a + b[..n] && both[|both| - 1] == b[n];
      Associate(PairsIn(a), PairsIn(b[..n]), PairsOf(b[n].key, b[n].val));
    }
  }

  /** Every (key, row) pair, by key. */
  ghost function AllPairs(m: BucketMap): seq<(int, RID)> {
    PairsIn(Listing(m))
  }

  /** The rows that a list of pairs has under a key. */
  function Under(pairs: seq<(int, RID)>, key: int): Bucket {
    if pairs == [] then []
    else Under(pairs[..|pairs| - 1], key) + if pairs[|pairs| - 1].0 == key then [pairs[|pairs| - 1].1] else []
  }

  lemma {:induction false} UnderConcat(a: seq<(int, RID)>, b: seq<(int, RID)>, key: int)
    ensures Under(a + b, key) == Under(a, key) + Under(b, key)
    decreases |b|
  {
    if b == [] {
      assert a + b == a;
    } else {
      var n := |b| - 1;
      UnderConcat(a, b[..n], key);
      var both := a + b;
      assert both[..|both| - 1] == a + b[..n] && both[|both| - 1] == b[n];
    }
  }

  lemma {:induction false} UnderPairs(key: int, rows: Bucket, k: int)
    ensures Under(PairsOf(key, rows), k) == if k == key then rows else []
    decreases |rows|
  {
    if rows != [] {
      var n := |rows| - 1;
      UnderPairs(key, rows[..n], k);
      var pairs := PairsOf(key, rows);
      assert pairs[..n] == PairsOf(key, rows[..n]) && pairs[n] == (key, rows[n]);
      assert rows == rows[..n] + [rows[n]];
    }
  }

  lemma {:induction false} PairsUnder(es: seq<Entry<Bucket>>, k: int)
    ensures Under(PairsIn(es), k) == Joined(InRange(es, k, k))
    decreases |es|
  {
    hide PairsOf;
    if es != [] {
      var n := |es| - 1;
      PairsUnder(es[..n], k);
      UnderConcat(PairsIn(es[..n]), PairsOf(es[n].key, es[n].val), k);
      UnderPairs(es[n].key, es[n].val, k);
      var init := InRange(es[..n], k, k);
      if es[n].key == k {
        assert InRange(es, k, k) == init + [es[n].val];
        JoinedStep(init, es[n].val);
      } else {
        assert InRange(es, k, k) == init;
      }
    }
  }

  ghost predicate KeysAscend(pairs: seq<(int, RID)>) {
    forall i, j :: 0 <= i < j < |pairs| ==> pairs[i].0 <= pairs[j].0
  }

  lemma {:induction false} PairsAscend(es: seq<Entry<Bucket>>, hi: int)
    requires Sorted(es) && forall i :: 0 <= i < |es| ==> es[i].key <= hi
    ensures KeysAscend(PairsIn(es)) && forall i :: 0 <= i < |PairsIn(es)| ==> PairsIn(es)[i].0 <= hi
    decreases |es|
  {
    if es != [] {
      var n := |es| - 1;
      PairsAscend(es[..n], es[n].key);
    }
  }

  /** The list of all pairs is in key order and has under every key the rows filed there. */
  lemma AllPairsAre(m: BucketMap, k: int)
    ensures KeysAscend(AllPairs(m)) && Under(AllPairs(m), k) == RowsAt(m, k)
  {
    var es := Listing(m);
    ListingLists(m);
    PairsAscend(es, if es == [] then 0 else es[|es| - 1].key);
    PairsUnder(es, k);
    InRangePoint(es, m, k);
    JoinedOne(m, k);
  }

  lemma JoinedOne(m: BucketMap, k: int)
    ensures Joined(if k in m then [m[k]] else []) == RowsAt(m, k)
  {
    JoinedNone();
    if k in m {
      JoinedStep([], m[k]);
      assert [] + [m[k]] == [m[k]];
    }
  }

  /** A point query is a range; an empty range has no rows; a range is the two ranges it is cut into. */
  lemma RangesAre(m: BucketMap, lo: int, mid: int, hi: int)
    ensures RowsBetween(m, lo, lo) == RowsAt(m, lo)
    ensures hi < lo ==> RowsBetween(m, lo, hi) == []
    ensures lo <= mid <= hi ==> RowsBetween(m, lo, hi) == RowsBetween(m, lo, mid) + RowsBetween(m, mid + 1, hi)
  {
    hide Joined, InRange, Listing;
    var es := Listing(m);
    ListingLists(m);
    InRangePoint(es, m, lo);
    JoinedOne(m, lo);
    JoinedNone();
    if hi < lo { InRangeNone(es, lo, hi); }
    if lo <= mid <= hi {
      InRangeCut(es, lo, mid, hi);
      JoinedConcat(InRange(es, lo, mid), InRange(es, mid + 1, hi));
    }
  }

  /** Erasing what was just added gives the map back, if the bucket did not hold the row before. */
  lemma AddRemove(m: BucketMap, key: int, rid: RID)
    requires key in m ==> m[key] != [] && rid !in m[key]
    ensures Removed(Added(m, key, rid), key, rid) == m
  {
    var s := RowsAt(m, key) + [rid];
    assert Position(s, rid) == |s| - 1;
    assert Without(s, rid) == RowsAt(m, key);
  }

  lemma JoinedNone()
    ensures Joined([]) == []
  {
  }

  lemma JoinedStep(bs: seq<Bucket>, b: Bucket)
    ensures Joined(bs + [b]) == Joined(bs) + b
  {
    assert (bs + [b])[..|bs|] == bs;
  }
}
