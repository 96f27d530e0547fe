/** Whole runs of the disk index against an ascending list of pairs, and against a sorted map. */
module DiskTreeRuns {
  import opened Common
  import opened OrderedMap
  import opened BTreeTheory
  import opened EqualKeys
  import opened DiskTreePages
  import opened DiskTreeChanges
  import opened DiskBPlusTree
  import Buckets

  datatype IndexOp =
    | Ins(key: int, rid: RID)
    | Del(key: int, rid: RID)
    | Get(key: int)
    | Between(lo: int, hi: int)
    | All

  datatype Answer = Done | Erased(found: bool) | Rids(rids: seq<RID>) | Pairs(pairs: seq<Entry<RID>>)

  type Listed = seq<Entry<RID>>

  // ---- the list the index stands for ----

  /** The answer of an ascending list of pairs. */
  ghost function Reply(es: Listed, op: IndexOp): Answer {
    match op
    case Ins(_, _) => Done
    case Del(key, rid) => Erased(Entry(key, rid) in es)
    case Get(key) => Rids(InRange(es, key, key))
    case Between(lo, hi) => Rids(InRange(es, lo, hi))
    case All => Pairs(es)
  }

  ghost function After(es: Listed, op: IndexOp): Listed {
    match op
    case Ins(key, rid) => Filed(es, Entry(key, rid))
    case Del(key, rid) => WithoutFirst(es, Entry(key, rid))
    case _ => es
  }

  ghost function ListAfter(es: Listed, ops: seq<IndexOp>): Listed {
    if ops == [] then es else After(ListAfter(es, ops[..|ops| - 1]), ops[|ops| - 1])
  }

  ghost function Replies(es: Listed, ops: seq<IndexOp>): seq<Answer> {
    if ops == [] then [] else
      var n := |ops| - 1;
      Replies(es, ops[..n]) + [Reply(ListAfter(es, ops[..n]), ops[n])]
  }

  // ---- what the list answers, operation by operation ----

  lemma RangeParts(a: Listed, e: Entry<RID>, b: Listed, k: int)
    ensures InRange(a + [e] + b, k, k) == InRange(a, k, k) + (if e.key == k then [e.val] else []) + InRange(b, k, k)
    ensures InRange(a + b, k, k) == InRange(a, k, k) + InRange(b, k, k)
  {
    InRangeConcat(a, b, k, k);
    InRangeConcat(a, [e], k, k);
    InRangeConcat(a + [e], b, k, k);
    assert [e][..0] == [];
    assert InRange([e][..0], k, k) == [];
  }

  lemma {:induction false} RangeHas(es: Listed, k: int, rid: RID)
    ensures rid in InRange(es, k, k) <==> Entry(k, rid) in es
    decreases |es|
  {
    if es != [] {
      var n := |es| - 1;
      RangeHas(es[..n], k, rid);
      assert es == es[..n] + [es[n]];
    }
  }

  lemma FirstPlace(es: Listed, e: Entry<RID>) returns (i: nat)
    requires e in es
    ensures i < |es| && es[i] == e && e !in es[..i]
    decreases |es|
  {
    if es[0] == e { return 0; }
    assert es == [es[0]] + es[1..];
    var j := FirstPlace(es[1..], e);
    i := j + 1;
    assert es[..i] == [es[0]] + es[1..][..j];
  }

  /** In an ascending list an insertion adds its row behind those of its key; an erasure takes out the first such row of
      its key and says whether there was one; no other answer about keys changes. */
  lemma GetFollows(es: Listed, op: IndexOp, k: int)
    requires Ascending(es)
    ensures Reply(es, Get(k)).Rids? && Reply(After(es, op), Get(k)).Rids?
    ensures var before, after := Reply(es, Get(k)).rids, Reply(After(es, op), Get(k)).rids;
      && (op.Ins? ==> after == before + if op.key == k then [op.rid] else [])
      && (op.Del? && op.key == k ==> Buckets.LacksFirst(before, after, op.rid))
      && (op.Del? && op.key == k ==> Reply(es, op) == Erased(op.rid in before))
      && (!op.Ins? && !(op.Del? && op.key == k) ==> after == before)
  {
    hide InRange, Place, WithoutFirst, Ascending;
    match op
    case Ins(key, rid) => InsertedRow(es, Entry(key, rid), k);
    case Del(key, rid) =>
      RangeHas(es, key, rid);
      if Entry(key, rid) in es { ErasedRow(es, Entry(key, rid), k); } else { WithoutAbsent(es, Entry(key, rid)); }
    case _ =>
  }

  lemma InsertedRow(es: Listed, e: Entry<RID>, k: int)
    requires Ascending(es)
    ensures InRange(Filed(es, e), k, k) == InRange(es, k, k) + if e.key == k then [e.val] else []
  {
    hide InRange, Place;
    PlaceFacts(es, e.key);
    var n := Place(es, e.key);
    var a, b := es[..n], es[n..];
    assert es == a + b;
    RangeParts(a, e, b, k);
    if e.key == k { InRangeNone(b, k, k); }
  }

  lemma ErasedRow(es: Listed, e: Entry<RID>, k: int)
    requires e in es
    ensures e.key == k ==> Buckets.LacksFirst(InRange(es, k, k), InRange(WithoutFirst(es, e), k, k), e.val)
    ensures e.key != k ==> InRange(WithoutFirst(es, e), k, k) == InRange(es, k, k)
  {
    hide InRange, WithoutFirst;
    var i := FirstPlace(es, e);
    var a, b := es[..i], es[i + 1..];
    assert es == a + [e] + b;
    WithoutFirstIs(a, e, b);
    RangeParts(a, e, b, k);
    if e.key == k {
      RangeHas(a, k, e.val);
      var x, y := InRange(a, k, k), InRange(b, k, k);
      var rows, n := x + [e.val] + y, |x|;
      assert rows[n] == e.val && rows[..n] == x && rows[n + 1..] == y;
      assert Buckets.FirstAt(rows, n, e.val);
    }
  }

  // ---- the trees of a run ----

  /** The tree and the next free page number. */
  datatype TreeState = TreeState(tree: DTree, next: int)

  ghost function TreeAfter(s: TreeState, op: IndexOp, sl: Slotting): TreeState {
    match op
    case Ins(key, rid) =>
      TreeState(Grown(s.tree, Entry(key, rid), s.next, sl), GrownNext(s.tree, Entry(key, rid), s.next, sl))
    case Del(key, rid) => TreeState(Shrunk(s.tree, Entry(key, rid), sl), s.next)
    case _ => s
  }

  ghost function TreesAfter(s: TreeState, ops: seq<IndexOp>, sl: Slotting): TreeState {
    if ops == [] then s else TreeAfter(TreesAfter(s, ops[..|ops| - 1], sl), ops[|ops| - 1], sl)
  }

  /** The operation neither cuts a full leaf between equal keys nor borrows the first of two equal keys. */
  ghost predicate Parts(t: DTree, op: IndexOp, sl: Slotting) {
    match op
    case Ins(key, rid) => !CutsRun(t, Entry(key, rid), sl)
    case Del(key, rid) => !BorrowCuts(t, Entry(key, rid), sl)
    case _ => true
  }

  ghost predicate Parted(s: TreeState, ops: seq<IndexOp>, sl: Slotting) {
    ops == [] ||
      var n := |ops| - 1;
      Parted(s, ops[..n], sl) && Parts(TreesAfter(s, ops[..n], sl).tree, ops[n], sl)
  }

  /** At no point of the run are there two pairs of the same key. */
  ghost predicate DistinctKeys(es: Listed, ops: seq<IndexOp>) {
    forall i :: 0 <= i <= |ops| ==> Sorted(ListAfter(es, ops[..i]))
  }

  method Step(index: DiskBPlusTreeIndex, op: IndexOp) returns (answer: Answer, ok: bool)
    requires index.Valid()
    modifies index
    ensures ok ==> index.Valid()
    ensures ok ==> TreeState(index.tree, index.nextPageNo)
                     == old(TreeAfter(TreeState(index.tree, index.nextPageNo), op, index.slots))
    ensures old(index.Unbroken()) ==>
      && ok && answer == Reply(old(index.Entries()), op) && index.Entries() == After(old(index.Entries()), op)
      && (index.Unbroken() <==> old(Parts(index.tree, op, index.slots)))
    ensures Sorted(old(index.Entries())) && Sorted(After(old(index.Entries()), op)) ==>
      old(Parts(index.tree, op, index.slots))
  {
    hide CutsRun, BorrowCuts, Grown, Shrunk, GrownNext, Filed, WithoutFirst, InRange, Sorted, Seen, Skipped;
    ok := true;
    match op
    case Ins(key, rid) =>
      ok := index.Insert(key, rid);
      answer := Done;
    case Del(key, rid) =>
      var found := index.Erase(key, rid);
      answer := Erased(found);
    case Get(key) =>
      var out := index.Find(key);
      answer := Rids(out);
    case Between(lo, hi) =>
      var out := index.Range(lo, hi);
      answer := Rids(out);
    case All =>
      var out := index.ScanAll();
      answer := Pairs(out);
  }

  ghost function StateOf(index: DiskBPlusTreeIndex): TreeState
    reads index
  {
    TreeState(index.tree, index.nextPageNo)
  }

  function Front(ops: seq<IndexOp>): seq<IndexOp> {
    if ops == [] then [] else ops[..|ops| - 1]
  }

  /** Every run from an index without cut runs, however it splits, borrows and merges, answers like the
      ascending list of the pairs inserted and not erased, up to and with the first operation that cuts
      a run of equal keys; from then on, and only then, some search misses a pair.  Runs without equal
      keys never get there. */
  method Serve(index: DiskBPlusTreeIndex, ops: seq<IndexOp>) returns (answers: seq<Answer>)
    requires index.Valid() && index.Unbroken()
    modifies index
    ensures Parted(old(StateOf(index)), Front(ops), index.slots) ==>
      && index.Valid() && answers == Replies(old(index.Entries()), ops)
      && index.Entries() == ListAfter(old(index.Entries()), ops)
      && ((forall key :: Findable(index.tree, key)) <==> Parted(old(StateOf(index)), ops, index.slots))
    ensures DistinctKeys(old(index.Entries()), ops) ==> Parted(old(StateOf(index)), ops, index.slots)
  {
    hide Reply, After, TreeAfter, Parts, Sorted, Findable, DistinctKeys;
    ghost var s, es, sl := StateOf(index), index.Entries(), index.slots;
    answers := [];
    var i := 0;
    while i < |ops|
      invariant i <= |ops| && index.Valid() && index.slots == sl
      invariant StateOf(index) == TreesAfter(s, ops[..i], sl)
      invariant Parted(s, Front(ops[..i]), sl) ==> (
        && index.Entries() == ListAfter(es, ops[..i]) && answers == Replies(es, ops[..i])
        && (index.Unbroken() <==> Parted(s, ops[..i], sl)))
      invariant DistinctKeys(es, ops) ==> Parted(s, ops[..i], sl)
    {
      assert ops[..i + 1][..i] == ops[..i];
      assert Front(ops[..i + 1]) == ops[..i];
      if DistinctKeys(es, ops) { DistinctAt(es, ops, i); }
      assert Parted(s, ops[..i], sl) ==> Parted(s, Front(ops[..i]), sl);
      var answer, ok := Step(index, ops[i]);
      if !ok {
        assert !Parted(s, ops[..i], sl);
        assert Front(ops)[..i] == ops[..i];
        if Parted(s, Front(ops), sl) { PartedPrefix(s, Front(ops), i, sl); }
        if DistinctKeys(es, ops) { assert false; }
        return;
      }
      answers := answers + [answer];
      i := i + 1;
    }
    assert ops[..i] == ops;
    if Parted(s, Front(ops), sl) { index.SearchesComplete(); }
  }

  lemma DistinctAt(es: Listed, ops: seq<IndexOp>, i: nat)
    requires DistinctKeys(es, ops) && i < |ops|
    ensures Sorted(ListAfter(es, ops[..i])) && Sorted(After(ListAfter(es, ops[..i]), ops[i]))
  {
    assert ops[..i + 1][..i] == ops[..i];
    assert Sorted(ListAfter(es, ops[..i + 1]));
  }

  lemma {:induction false} PartedPrefix(s: TreeState, ops: seq<IndexOp>, i: nat, sl: Slotting)
    requires Parted(s, ops, sl) && i <= |ops|
    ensures Parted(s, ops[..i], sl)
    decreases |ops|
  {
    if i == |ops| {
      assert ops[..i] == ops;
    } else {
      var n := |ops| - 1;
      PartedPrefix(s, ops[..n], i, sl);
      assert ops[..n][..i] == ops[..i];
    }
  }

  // ---- distinct keys: a sorted map ----

  type Pairing = map<int, RID>

  /** The answer of a sorted map. */
  ghost function MapReply(m: Pairing, op: IndexOp): Answer {
    match op
    case Ins(_, _) => Done
    case Del(key, rid) => Erased(key in m && m[key] == rid)
    case Get(key) => Rids(if key in m then [m[key]] else [])
    case Between(lo, hi) => Rids(InRange(Listing(m), lo, hi))
    case All => Pairs(Listing(m))
  }

  ghost function MapStep(m: Pairing, op: IndexOp): Pairing {
    match op
    case Ins(key, rid) => m[key := rid]
    case Del(key, rid) => if key in m && m[key] == rid then m - {key} else m
    case _ => m
  }

  ghost function MapAfter(m: Pairing, ops: seq<IndexOp>): Pairing {
    if ops == [] then m else MapStep(MapAfter(m, ops[..|ops| - 1]), ops[|ops| - 1])
  }

  ghost function MapReplies(m: Pairing, ops: seq<IndexOp>): seq<Answer> {
    if ops == [] then [] else
      var n := |ops| - 1;
      MapReplies(m, ops[..n]) + [MapReply(MapAfter(m, ops[..n]), ops[n])]
  }

  /** Nobody inserts a key that is in the index. */
  ghost predicate NewKeys(m: Pairing, ops: seq<IndexOp>) {
    forall i :: 0 <= i < |ops| && ops[i].Ins? ==> ops[i].key !in MapAfter(m, ops[..i])
  }

  lemma StepIsMapStep(m: Pairing, op: IndexOp)
    requires op.Ins? ==> op.key !in m
    ensures After(Listing(m), op) == Listing(MapStep(m, op)) && Reply(Listing(m), op) == MapReply(m, op)
  {
    hide Listing, InRange, Filed, WithoutFirst, Sorted, Lists;
    var es := Listing(m);
    ListingLists(m);
    match op
    case Ins(key, rid) => FiledListing(es, m, Entry(key, rid));
    case Del(key, rid) => WithoutListing(es, m, Entry(key, rid));
    case Get(key) => InRangePoint(es, m, key);
    case _ =>
  }

  lemma NewKeySorted(es: Listed, n: nat, e: Entry<RID>, m: Pairing)
    requires Sorted(es) && Lists(es, m) && e.key !in m && n <= |es|
    requires (forall i :: 0 <= i < n ==> es[i].key <= e.key) && (n < |es| ==> e.key < es[n].key)
    ensures Sorted(es[..n] + [e] + es[n..])
  {
    forall i | 0 <= i < n ensures es[i].key < e.key { assert es[i].key in m; }
  }

  lemma FiledListing(es: Listed, m: Pairing, e: Entry<RID>)
    requires Sorted(es) && Lists(es, m) && e.key !in m
    ensures Filed(es, e) == Listing(m[e.key := e.val])
  {
    hide Place, Listing;
    PlaceFacts(es, e.key);
    var n := Place(es, e.key);
    var a, b := es[..n], es[n..];
    assert es == a + b;
    NewKeySorted(es, n, e, m);
    InsertLists(a, e, b, m);
    ListingIs(a + [e] + b, m[e.key := e.val]);
  }

  lemma WithoutListing(es: Listed, m: Pairing, e: Entry<RID>)
    requires Sorted(es) && Lists(es, m)
    ensures e in es <==> e.key in m && m[e.key] == e.val
    ensures WithoutFirst(es, e) == Listing(if e in es then m - {e.key} else m)
  {
    hide Listing, WithoutFirst, ToMap;
    if e in es {
      var i :| 0 <= i < |es| && es[i] == e;
      var a, b := es[..i], es[i + 1..];
      assert es == a + [e] + b;
      RemoveLists(a, e, b, m);
      WithoutFirstIs(a, e, b);
      ListingIs(a + b, m - {e.key});
    } else {
      WithoutAbsent(es, e);
      ListingIs(es, m);
      if e.key in m {
        var i :| 0 <= i < |es| && es[i].key == e.key;
        assert es[i].val == m[e.key];
      }
    }
  }

  /** With distinct live keys the list is the listing of the sorted map, in every answer and at the end. */
  lemma {:induction false} RunIsMapRun(m: Pairing, ops: seq<IndexOp>)
    requires NewKeys(m, ops)
    ensures ListAfter(Listing(m), ops) == Listing(MapAfter(m, ops))
    ensures Replies(Listing(m), ops) == MapReplies(m, ops)
    ensures DistinctKeys(Listing(m), ops)
    decreases |ops|
  {
    var es := Listing(m);
    if ops != [] {
      var n := |ops| - 1;
      forall i | 0 <= i < n && ops[..n][i].Ins? ensures ops[..n][i].key !in MapAfter(m, ops[..n][..i]) {
        assert ops[..n][..i] == ops[..i];
      }
      RunIsMapRun(m, ops[..n]);
      StepIsMapStep(MapAfter(m, ops[..n]), ops[n]);
    }
    ListingLists(MapAfter(m, ops));
    forall i | 0 <= i <= |ops| ensures Sorted(ListAfter(es, ops[..i])) {
      if i == |ops| {
        assert ops[..i] == ops;
      } else {
        assert ops[..|ops| - 1][..i] == ops[..i];
      }
    }
  }
}
