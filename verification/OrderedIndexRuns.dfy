/** The two in-memory ordered indexes side by side. */
module OrderedIndexRuns {
  import opened Common
  import opened Buckets
  import opened MemBPlusTree
  import opened BitmapIndex

  datatype Op =
    | Ins(key: int, rid: RID)
    | Del(key: int, rid: RID)
    | Get(key: int)
    | Between(lo: int, hi: int)
    | All

  datatype Answer = Done | Erased(found: bool) | Rows(rows: Bucket) | Pairs(pairs: seq<(int, RID)>)

  method OnTree(index: BPlusTreeIndex, op: Op) returns (answer: Answer)
    requires index.Valid()
    modifies index, index.nodes
    ensures index.Valid() && fresh(index.nodes - old(index.nodes))
    ensures index.Model() == After(old(index.Model()), op) && answer == Reply(old(index.Model()), op)
  {
    match op
    case Ins(key, rid) =>
      index.Insert(key, rid);
      answer := Done;
    case Del(key, rid) =>
      var found := index.Erase(key, rid);
      answer := Erased(found);
    case Get(key) =>
      var rows := index.Find(key);
      answer := Rows(rows);
    case Between(lo, hi) =>
      var rows := index.Range(lo, hi);
      answer := Rows(rows);
    case All =>
      var pairs := index.ScanAll();
      answer := Pairs(pairs);
  }

  method OnBitmap(index: Bitmap, op: Op) returns (answer: Answer)
    modifies index
    ensures index.buckets == After(old(index.buckets), op) && answer == Reply(old(index.buckets), op)
  {
    match op
    case Ins(key, rid) =>
      index.Insert(key, rid);
      answer := Done;
    case Del(key, rid) =>
      var found := index.Erase(key, rid);
      answer := Erased(found);
    case Get(key) =>
      var rows := index.Find(key);
      answer := Rows(rows);
    case Between(lo, hi) =>
      var rows := index.Range(lo, hi);
      answer := Rows(rows);
    case All =>
      var pairs := index.ScanAll();
      answer := Pairs(pairs);
  }

  ghost function After(m: BucketMap, op: Op): BucketMap {
    match op
    case Ins(key, rid) => Added(m, key, rid)
    case Del(key, rid) => Removed(m, key, rid)
    case _ => m
  }

  ghost function Reply(m: BucketMap, op: Op): Answer {
    match op
    case Ins(_, _) => Done
    case Del(key, rid) => Erased(rid in RowsAt(m, key))
    case Get(key) => Rows(RowsAt(m, key))
    case Between(lo, hi) => Rows(RowsBetween(m, lo, hi))
    case All => Pairs(AllPairs(m))
  }

  ghost function MapAfter(ops: seq<Op>): BucketMap {
    if ops == [] then map[] else After(MapAfter(ops[..|ops| - 1]), ops[|ops| - 1])
  }

  lemma NoMap(ops: seq<Op>)
    ensures MapAfter(ops[..0]) == map[]
  {
  }

  lemma MapStep(ops: seq<Op>, i: nat)
    requires i < |ops|
    ensures MapAfter(ops[..i + 1]) == After(MapAfter(ops[..i]), ops[i])
  {
    assert ops[..i + 1][..i] == ops[..i];
  }

  // ---- what the answers are, operation by operation ----

  /** The answer of a point query after some operations. */
  ghost function Got(ops: seq<Op>, k: int): Answer {
    Reply(MapAfter(ops), Get(k))
  }

  /** Nothing is found at first. An insertion adds its row behind those of its key, also if the pair is there already;
      an erasure takes out the first such row of its key and says whether there was one; nothing else changes. */
  lemma GetFollows(ops: seq<Op>, op: Op, k: int)
    ensures Got([], k) == Rows([]) && Got(ops, k).Rows? && Got(ops + [op], k).Rows?
    ensures op.Ins? ==> Got(ops + [op], k).rows == Got(ops, k).rows + if op.key == k then [op.rid] else []
    ensures op.Del? && op.key == k ==> LacksFirst(Got(ops, k).rows, Got(ops + [op], k).rows, op.rid)
    ensures op.Del? && op.key == k ==> Reply(MapAfter(ops), op) == Erased(op.rid in Got(ops, k).rows)
    ensures (op.Del? && op.key != k) || op.Get? || op.Between? || op.All? ==> Got(ops + [op], k) == Got(ops, k)
  {
    assert (ops + [op])[..|ops|] == ops;
    var m := MapAfter(ops);
    if op.Ins? { AddedAppends(m, op.key, op.rid); }
    if op.Del? { RemovedDrops(m, op.key, op.rid); }
  }

  /** A range of one key is a point query, an empty range has no rows, and a range cut in two is the two answers one
      after the other; the list of all pairs is in key order and has the answer of every point query in it. */
  lemma RangesFollow(ops: seq<Op>, lo: int, mid: int, hi: int)
    ensures Reply(MapAfter(ops), Between(lo, lo)) == Got(ops, lo)
    ensures hi < lo ==> Reply(MapAfter(ops), Between(lo, hi)) == Rows([])
    ensures var m := MapAfter(ops);
      lo <= mid <= hi ==>
        Reply(m, Between(lo, hi)).rows == Reply(m, Between(lo, mid)).rows + Reply(m, Between(mid + 1, hi)).rows
    ensures var all := Reply(MapAfter(ops), All);
      all.Pairs? && KeysAscend(all.pairs) && Rows(Under(all.pairs, lo)) == Got(ops, lo)
  {
    RangesAre(MapAfter(ops), lo, mid, hi);
    AllPairsAre(MapAfter(ops), lo);
  }

  /** On any run of operations, repeated keys and repeated pairs included, both indexes give the same answers. */
  method RunBoth(ops: seq<Op>, order: nat) returns (fromTree: seq<Answer>, fromBitmap: seq<Answer>)
    requires order >= 1
    ensures |fromTree| == |ops| && fromTree == fromBitmap
    ensures forall i :: 0 <= i < |ops| ==> fromTree[i] == Reply(MapAfter(ops[..i]), ops[i])
  {
    hide MapAfter, After, Reply;
    var tree := new BPlusTreeIndex(order);
    var bitmap := new Bitmap();
    fromTree, fromBitmap := [], [];
    NoMap(ops);
    var i := 0;
    while i < |ops|
      invariant i <= |ops| && |fromTree| == i && fromTree == fromBitmap
      invariant fresh(tree) && fresh(bitmap) && fresh(tree.nodes)
      invariant tree.Valid() && tree.Model() == bitmap.buckets == MapAfter(ops[..i])
      invariant forall j :: 0 <= j < i ==> fromTree[j] == Reply(MapAfter(ops[..j]), ops[j])
    {
      MapStep(ops, i);
      var a := OnTree(tree, ops[i]);
      var b := OnBitmap(bitmap, ops[i]);
      fromTree, fromBitmap := fromTree + [a], fromBitmap + [b];
      i := i + 1;
    }
  }
}
