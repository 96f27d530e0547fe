/** Runs of a new disk index, of any page layout, that lose pairs of equal keys. */
module EqualKeyRuns {
  import opened Common
  import opened OrderedMap
  import opened BTreeTheory
  import opened BTreeSteps
  import opened EqualKeys
  import opened DiskTreePages
  import opened DiskTreeSteps
  import opened DiskTreeChanges
  import opened DiskBPlusTree

  type Listed = seq<Entry<RID>>

  /** `n` pairs of one key, told apart by their row. */
  function Copies(key: int, n: nat): (es: Listed)
    ensures |es| == n && forall i :: 0 <= i < n ==> es[i] == Entry(key, RID(0, i))
  {
    seq(n, (i: nat) => Entry(key, RID(0, i)))
  }

  /** One pair for each key from `from` up to `to`. */
  function Ladder(from: nat, to: nat): (es: Listed)
    requires from <= to
    ensures |es| == to - from && forall i :: 0 <= i < |es| ==> es[i] == Entry(from + i, RID(1, from + i))
  {
    seq(to - from, (i: nat) => Entry(from + i, RID(1, from + i)))
  }

  lemma {:induction false} AllInRange(es: Listed, key: int)
    requires forall i :: 0 <= i < |es| ==> es[i].key == key
    ensures |InRange(es, key, key)| == |es|
    decreases |es|
  {
    if es != [] { AllInRange(es[..|es| - 1], key); }
  }

  // ---- trees of one leaf and of two ----

  lemma RootLeaf(root: int, es: Listed, e: Entry<RID>, next: int, sl: Slotting)
    requires |es| + 1 <= sl.leaf && sl.leaf >= 2
    ensures var t, es', mid := Leaf(root, es), Filed(es, e), (|es| + 1) / 2;
      && |es'| == |es| + 1 && Accepts(t, e, sl)
      && Grown(t, e, next, sl) ==
           (if |es'| < sl.leaf then Leaf(root, es')
            else Node(root, [es'[mid].key], [Leaf(next + 1, es'[..mid]), Leaf(next, es'[mid..])]))
      && (|es'| < sl.leaf ==> !CutsRun(t, e, sl))
      && (|es'| == sl.leaf ==> (CutsRun(t, e, sl) <==> es'[mid - 1].key == es'[mid].key))
  {
  }

  function Two(root: int, key: int, l: DTree, r: DTree): DTree {
    Node(root, [key], [l, r])
  }

  lemma ArriveTwo(root: int, sep: int, l: DTree, r: DTree, key: int)
    requires l.Leaf? && r.Leaf?
    ensures var t := Two(root, sep, l, r);
      && Arrive(Top, t, key) == Spot(Child(Top, t, if key < sep then 0 else 1), if key < sep then l else r)
      && (sep <= key ==> Seen(t, key) == Contents(r))
  {
    var t := Two(root, sep, l, r);
    assert UpperIdx(t.keys, key) == if key < sep then 0 else 1;
    assert t.kids[2..] == [];
  }

  // ---- one key too often ----

  // Another pair of the same key goes to the end, a smaller key in front.
  lemma CopiesGrow(key: int, n: nat)
    ensures Filed(Copies(key, n), Copies(key, n + 1)[n]) == Copies(key, n + 1)
  {
    var es, e := Copies(key, n), Copies(key, n + 1)[n];
    FiledIs(es, e, []);
    assert es + [] == es && es + [e] + [] == Copies(key, n + 1);
  }

  lemma LadderGrows(to: nat, rest: Listed)
    requires forall i :: 0 <= i < |rest| ==> to < rest[i].key
    ensures Filed(Ladder(0, to) + rest, Ladder(0, to + 1)[to]) == Ladder(0, to + 1) + rest
  {
    var es, e := Ladder(0, to), Ladder(0, to + 1)[to];
    FiledIs(es, e, rest);
    assert es + [e] == Ladder(0, to + 1);
  }

  /** The index is new, or still has only its root leaf, which holds `es`. */
  ghost predicate OneLeaf(index: DiskBPlusTreeIndex, es: Listed)
    reads index
  {
    index.Valid() && index.Unbroken() && index.tree == Leaf(index.root, es) && |es| < index.slots.leaf
  }

  ghost predicate TwoLeaves(index: DiskBPlusTreeIndex, sep: int, a: Listed, b: Listed)
    reads index
  {
    && index.Valid() && index.tree.Node? && |index.tree.kids| == 2
    && index.tree == Two(index.root, sep, Leaf(index.tree.kids[0].id, a), Leaf(index.tree.kids[1].id, b))
  }

  /** An insertion into an index that still has only its root leaf. */
  method Put(index: DiskBPlusTreeIndex, key: int, rid: RID, ghost es: Listed, ghost es': Listed)
    requires OneLeaf(index, es) && es' == Filed(es, Entry(key, rid))
    modifies index
    ensures |es'| == |es| + 1
    ensures |es'| < index.slots.leaf ==> OneLeaf(index, es')
    ensures var mid := index.slots.leaf / 2;
      |es'| == index.slots.leaf ==>
        && index.slots.leaf >= 3 && TwoLeaves(index, es'[mid].key, es'[..mid], es'[mid..]) && index.Entries() == es'
        && (index.Unbroken() <==> es'[mid - 1].key != es'[mid].key)
  {
    hide Grown, GrownNext, CutsRun, Accepts, Filed, Clean, Below, Sorted;
    index.SlotsRoomy();
    RootLeaf(index.root, es, Entry(key, rid), index.nextPageNo, index.slots);
    var ok := index.Insert(key, rid);
  }

  method PutCopies(index: DiskBPlusTreeIndex, key: int, n: nat)
    requires OneLeaf(index, []) && n < index.slots.leaf
    modifies index
    ensures OneLeaf(index, Copies(key, n))
  {
    var i := 0;
    while i < n
      invariant i <= n && OneLeaf(index, Copies(key, i))
    {
      CopiesGrow(key, i);
      Put(index, key, RID(0, i), Copies(key, i), Copies(key, i + 1));
      i := i + 1;
    }
  }

  method PutLadder(index: DiskBPlusTreeIndex, n: nat, ghost rest: Listed)
    requires OneLeaf(index, rest) && n + |rest| < index.slots.leaf
    requires forall i :: 0 <= i < |rest| ==> n <= rest[i].key
    modifies index
    ensures OneLeaf(index, Ladder(0, n) + rest)
  {
    var i := 0;
    assert Ladder(0, 0) + rest == rest;
    while i < n
      invariant i <= n && OneLeaf(index, Ladder(0, i) + rest)
    {
      LadderGrows(i, rest);
      Put(index, i, RID(1, i), Ladder(0, i) + rest, Ladder(0, i + 1) + rest);
      i := i + 1;
    }
  }

  lemma TwoContents(t: DTree, root: int, sep: int, l: DTree, r: DTree)
    requires t == Two(root, sep, l, r)
    ensures Contents(t) == Contents(l) + Contents(r)
  {
    FlatPair(l, r);
  }

  /** As many pairs of one key as a leaf page has slots: the last one splits the leaf, and a search
      finds only the pairs behind the cut. */
  method OneKeyTooOften(index: DiskBPlusTreeIndex, key: int) returns (out: seq<RID>)
    requires OneLeaf(index, [])
    modifies index
    ensures var n := index.slots.leaf;
      && TwoLeaves(index, key, Copies(key, n)[..n / 2], Copies(key, n)[n / 2..])
      && index.Entries() == Copies(key, n) && !index.Unbroken()
      && |out| == n - n / 2 < |InRange(index.Entries(), key, key)| == n
  {
    hide Skipped, Filed, Clean, Arrive;
    index.SlotsRoomy();
    var n := index.slots.leaf;
    PutCopies(index, key, n - 1);
    ghost var all := Copies(key, n);
    CopiesGrow(key, n - 1);
    Put(index, key, RID(0, n - 1), Copies(key, n - 1), all);
    out := index.Find(key);
    ArriveTwo(index.root, key, index.tree.kids[0], index.tree.kids[1], key);
    AllInRange(all, key);
    AllInRange(all[n / 2..], key);
  }

  // ---- borrowing ----

  // Erasing the smallest key of a two-leaf tree.
  lemma EraseLeft(root: int, sep: int, x: int, y: int, from: nat, to: nat, b: Listed, sl: Slotting)
    requires from < to <= sep
    ensures var t, e := Two(root, sep, Leaf(x, Ladder(from, to)), Leaf(y, b)), Entry(from, RID(1, from));
      var min := (sl.leaf - 1) / 2;
      && (to - from - 1 >= min ==>
            && Shrunk(t, e, sl) == Two(root, sep, Leaf(x, Ladder(from + 1, to)), Leaf(y, b))
            && !BorrowCuts(t, e, sl))
      && (to - from - 1 < min && |b| > min && |b| >= 2 ==>
            && Shrunk(t, e, sl) == Two(root, b[1].key, Leaf(x, Ladder(from + 1, to) + [b[0]]), Leaf(y, b[1..]))
            && (BorrowCuts(t, e, sl) <==> b[0].key == b[1].key))
  {
    var a, e := Ladder(from, to), Entry(from, RID(1, from));
    var l: DTree, r: DTree := Leaf(x, a), Leaf(y, b);
    ArriveTwo(root, sep, l, r, from);
    assert a[0] == e && WithoutFirst(a, e) == Ladder(from + 1, to);
    var c, g := Child(Top, Two(root, sep, l, r), 0), Leaf(x, Ladder(from + 1, to));
    assert Plug(c, g) == Two(root, sep, g, r);
  }

  /** Half a page of small keys and half a page of one large key, parted by a clean split. */
  method CleanHalves(index: DiskBPlusTreeIndex)
    requires OneLeaf(index, [])
    modifies index
    ensures var n := index.slots.leaf;
      TwoLeaves(index, n, Ladder(0, n / 2), Copies(n, n - n / 2)) && index.Unbroken()
  {
    hide Filed;
    index.SlotsRoomy();
    var n := index.slots.leaf;
    var m := n / 2;
    PutCopies(index, n, n - m);
    ghost var rest := Copies(n, n - m);
    PutLadder(index, m - 1, rest);
    LadderGrows(m - 1, rest);
    ghost var all := Ladder(0, m) + rest;
    Put(index, m - 1, RID(1, m - 1), Ladder(0, m - 1) + rest, all);
    assert all[..m] == Ladder(0, m) && all[m..] == rest;
  }

  /** Erasing the smallest key of the two leaves. */
  method EraseSmallest(index: DiskBPlusTreeIndex, from: nat, ghost to: nat, ghost b: Listed)
    requires from < to <= index.slots.leaf && |b| >= 2 && |b| > (index.slots.leaf - 1) / 2
    requires TwoLeaves(index, index.slots.leaf, Ladder(from, to), b) && index.Unbroken()
    modifies index
    ensures to - from - 1 >= (index.slots.leaf - 1) / 2 ==>
      TwoLeaves(index, index.slots.leaf, Ladder(from + 1, to), b) && index.Unbroken()
    ensures to - from - 1 < (index.slots.leaf - 1) / 2 ==>
      && TwoLeaves(index, b[1].key, Ladder(from + 1, to) + [b[0]], b[1..])
      && (index.Unbroken() <==> b[0].key != b[1].key)
  {
    hide Shrunk, BorrowCuts, Seen, Skipped, WithoutFirst, Contents, Clean, Below, Sorted, Arrive;
    EraseLeft(index.root, index.slots.leaf, index.tree.kids[0].id, index.tree.kids[1].id, from, to, b, index.slots);
    var erased := index.Erase(from, RID(1, from));
  }

  /** Erasing one or two of the small keys makes the left leaf borrow a pair of the large key, which
      searches miss from then on. */
  method BorrowedAway(index: DiskBPlusTreeIndex) returns (before: seq<RID>, out: seq<RID>)
    requires OneLeaf(index, [])
    modifies index
    ensures var key := index.slots.leaf;
      && index.Valid() && !index.Unbroken()
      && |before| == |InRange(index.Entries(), key, key)| == key - key / 2 && |out| < |before|
  {
    hide InRange, Skipped, Clean, Seen, Contents, Below;
    index.SlotsRoomy();
    var n := index.slots.leaf;
    var m := n / 2;
    CleanHalves(index);
    ghost var rest := Copies(n, n - m);
    before := FindUpper(index, n, Ladder(0, m), rest);
    EraseSmallest(index, 0, m, rest);
    if n % 2 == 0 { EraseSmallest(index, 1, m, rest); }
    out := FindUpper(index, n, Ladder(if n % 2 == 0 then 2 else 1, m) + [rest[0]], rest[1..]);
    AfterBorrow(index.tree, index.root, n, index.tree.kids[0].id, index.tree.kids[1].id,
                Ladder(if n % 2 == 0 then 2 else 1, m), rest);
  }

  // A search for the separator of two leaves finds the entries of the right one.
  method FindUpper(index: DiskBPlusTreeIndex, key: int, ghost a: Listed, ghost b: Listed) returns (out: seq<RID>)
    requires TwoLeaves(index, key, a, b) && forall i :: 0 <= i < |b| ==> b[i].key == key
    ensures |out| == |b|
  {
    out := index.Find(key);
    ArriveTwo(index.root, key, index.tree.kids[0], index.tree.kids[1], key);
    AllInRange(b, key);
  }

  lemma AfterBorrow(t: DTree, root: int, key: int, x: int, y: int, a: Listed, b: Listed)
    requires |b| >= 2 && (forall i :: 0 <= i < |b| ==> b[i].key == key) && forall i :: 0 <= i < |a| ==> a[i].key < key
    requires t == Two(root, key, Leaf(x, a + [b[0]]), Leaf(y, b[1..]))
    ensures |InRange(Contents(t), key, key)| == |b|
  {
    var l: DTree, r: DTree := Leaf(x, a + [b[0]]), Leaf(y, b[1..]);
    TwoContents(t, root, key, l, r);
    assert a + [b[0]] + b[1..] == a + b;
    InRangeConcat(a, b, key, key);
    InRangeNone(a, key, key);
    AllInRange(b, key);
  }

  // ---- a separator that does not find its parent ----

  lemma GrowLeft(root: int, sep: int, x: int, y: int, a: Listed, b: Listed, e: Entry<RID>, next: int, sl: Slotting)
    requires e.key < sep && |a| + 1 <= sl.leaf && sl.leaf >= 2
    ensures var t, a' := Two(root, sep, Leaf(x, a), Leaf(y, b)), Filed(a, e);
      && |a'| == |a| + 1
      && (|a'| < sl.leaf ==> Accepts(t, e, sl) && Grown(t, e, next, sl) == Two(root, sep, Leaf(x, a'), Leaf(y, b)))
      && (|a'| == sl.leaf && a'[|a'| / 2].key >= sep ==> !Accepts(t, e, sl))
  {
    var l: DTree, r: DTree := Leaf(x, a), Leaf(y, b);
    ArriveTwo(root, sep, l, r, e.key);
    var c, g := Child(Top, Two(root, sep, l, r), 0), Leaf(x, Filed(a, e));
    assert Plug(c, g) == Two(root, sep, g, r);
    assert Knit(c);
    LeftBound(c, sep, Filed(a, e)[(|a| + 1) / 2].key);
  }

  // The only separator bounds the left one of two leaves.
  lemma LeftBound(c: DCtx, sep: int, key: int)
    requires c.Down? && c.keys == [sep] && c.i == 0
    ensures Free(c, key) <==> key < sep
  {
    assert c.i < |c.keys|;
    assert CHi(c, key + 1) == c.keys[0];
  }

  /** With an even number of slots: as many pairs of one key as a leaf page has slots, then half as many
      smaller keys.  The last of them splits the left leaf at the large key, and from the root that
      separator leads past the leaf: its parent is not found. */
  method ParentLost(index: DiskBPlusTreeIndex) returns (ok: bool)
    requires OneLeaf(index, []) && index.slots.leaf % 2 == 0
    modifies index
    ensures !ok
  {
    hide Grown, GrownNext, CutsRun, Accepts, Filed, Clean, Below, Sorted, Contents, Seen, Arrive;
    index.SlotsRoomy();
    var n := index.slots.leaf;
    var m := n / 2;
    var out := OneKeyTooOften(index, n);
    ghost var rest, b := Copies(n, m), Copies(n, n)[m..];
    assert Copies(n, n)[..m] == rest;
    ghost var x, y := index.tree.kids[0].id, index.tree.kids[1].id;
    PutLeft(index, m - 1, n, x, y, rest, b);
    LadderGrows(m - 1, rest);
    ghost var e := Entry(m - 1, RID(1, m - 1));
    GrowLeft(index.root, n, x, y, Ladder(0, m - 1) + rest, b, e, index.nextPageNo, index.slots);
    ok := index.Insert(m - 1, RID(1, m - 1));
  }

  // Smaller keys enter the left one of two leaves.
  method PutLeft(index: DiskBPlusTreeIndex, k: nat, sep: int, ghost x: int, ghost y: int,
                 ghost rest: Listed, ghost b: Listed)
    requires index.Valid() && k + |rest| < index.slots.leaf && k <= sep
    requires forall i :: 0 <= i < |rest| ==> k <= rest[i].key
    requires index.tree == Two(index.root, sep, Leaf(x, rest), Leaf(y, b))
    modifies index
    ensures index.Valid() && index.tree == Two(index.root, sep, Leaf(x, Ladder(0, k) + rest), Leaf(y, b))
  {
    hide Grown, GrownNext, CutsRun, Accepts, Filed, Clean, Below, Sorted, Contents, Seen, Arrive;
    index.SlotsRoomy();
    assert Ladder(0, 0) + rest == rest;
    var i := 0;
    while i < k
      invariant i <= k && index.Valid()
      invariant index.tree == Two(index.root, sep, Leaf(x, Ladder(0, i) + rest), Leaf(y, b))
    {
      LadderGrows(i, rest);
      GrowLeft(index.root, sep, x, y, Ladder(0, i) + rest, b, Entry(i, RID(1, i)), index.nextPageNo, index.slots);
      var ok := index.Insert(i, RID(1, i));
      i := i + 1;
    }
  }
}
