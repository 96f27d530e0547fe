/** The disk B+ tree index: nodes are pages of a table file, reached through their page numbers. */
module DiskBPlusTree {
  import opened Common
  import opened OrderedMap
  import opened BTreeTheory
  import opened BTreeSteps
  import opened EqualKeys
  import opened DiskPage
  import opened DiskTreePages
  import opened DiskTreeSteps
  import opened DiskTreeChanges
  import opened DiskTreeStates
  import opened DiskTreeWalk

  class DiskBPlusTreeIndex {
    const slots: Slotting     // physical slots of a leaf and of an internal page
    const root: int           // the root page number never changes
    var pages: Pages          // the table's pages by number
    var nextPageNo: int       // the number the next new page will get
    ghost var tree: DTree     // the tree the pages represent

    function LeafCapacity(): int { slots.leaf - 1 }
    function InternalCapacity(): int { slots.inner - 1 }

    ghost function St(): Store
      reads this
    {
      Store(pages, nextPageNo, root, slots)
    }

    /** The pages form a balanced search tree whose leaf chain is the in-order list of its leaves. */
    ghost predicate Valid()
      reads this
    {
      exists lo, hi, h :: Holding(St(), tree, lo, hi, h)
    }

    /** The pairs in the index in ascending key order; pairs of equal keys in the order of the leaves. */
    ghost function Entries(): seq<Entry<RID>>
      reads this
    {
      Contents(tree)
    }

    /** No separator cuts a run of equal keys. */
    ghost predicate Unbroken()
      reads this
    {
      exists hi :: Below(Contents(tree), hi) && Clean(tree, hi)
    }

    lemma EntriesAscend()
      requires Valid()
      ensures Ascending(Entries())
    {
      var lo, hi, h :| Holding(St(), tree, lo, hi, h);
      ContentsSorted(tree, Cap(slots), lo, hi, h);
    }

    lemma SlotsRoomy()
      requires Valid()
      ensures slots.leaf >= 3 && slots.inner >= 3
    {
    }

    // A key range of the whole tree that holds the given key and ends behind every key of the index.
    lemma RangeAround(key: int) returns (lo: int, hi: int, h: nat)
      requires Valid()
      ensures Holding(St(), tree, lo, hi, h) && lo <= key < hi && Below(Entries(), hi)
    {
      var lo', hi', h' :| Holding(St(), tree, lo', hi', h');
      lo := if key < lo' then key else lo';
      hi := if key > hi' then key + 1 else hi' + 1;
      h := h';
      ContentsSorted(tree, Cap(slots), lo', hi', h');
      Widen(tree, Cap(slots), lo', hi', h', lo, hi);
    }

    lemma UnbrokenAt(hi: int)
      requires Below(Entries(), hi)
      ensures Unbroken() <==> Clean(tree, hi)
    {
      if Unbroken() {
        var hi' :| Below(Contents(tree), hi') && Clean(tree, hi');
        CleanRebound(tree, hi', hi);
      }
    }

    /** Searches find all entries of every key exactly when no separator cuts a run of equal keys. */
    lemma SearchesComplete()
      requires Valid()
      ensures (forall key :: Findable(tree, key)) <==> Unbroken()
    {
      var lo, hi, h := RangeAround(0);
      UnbrokenAt(hi);
      FindableIff(tree, Cap(slots), lo, hi, h);
    }

    /** A new index: an empty leaf as root, next to the pages the table already has. */
    constructor (existing: Pages, next: int, keyCols: nat)
      requires 0 <= next && forall p :: p in existing ==> p < next
      requires LeafSlots(keyCols) >= 3 && InternalSlots(keyCols) >= 3
      ensures Valid() && tree == Leaf(next, []) && Unbroken() && root == next
      ensures slots == Slotting(LeafSlots(keyCols), InternalSlots(keyCols))
    {
      slots := Slotting(LeafSlots(keyCols), InternalSlots(keyCols));
      root := next;
      pages := existing;
      nextPageNo := next;
      tree := Leaf(next, []);
      new;
      var no := AllocNode(true);
      EmptyTree(St(), 0);
      UnbrokenAt(0);
    }

    lemma EmptyTree(st: Store, lo: int)
      requires Roomy(st) && 0 <= st.root < st.next && st.root in st.pages && forall p :: p in st.pages ==> p < st.next
      requires st.pages[st.root] == Blank(true, st.sl.leaf) && tree == Leaf(st.root, [])
      ensures Holding(st, tree, lo, lo + 1, 0) && Contents(tree) == [] && Clean(tree, lo)
    {
      assert Ids(tree) == {st.root};
    }

    method AllocNode(isLeaf: bool) returns (no: int)
      modifies this`pages, this`nextPageNo
      ensures no == old(nextPageNo) && nextPageNo == no + 1
      ensures pages == old(pages)[no := Blank(isLeaf, if isLeaf then slots.leaf else slots.inner)]
    {
      no := nextPageNo;
      nextPageNo := nextPageNo + 1;
      pages := pages[no := Blank(isLeaf, if isLeaf then slots.leaf else slots.inner)];
    }

    /** Descend to the leaf a key belongs in; `c` is the tree around that leaf. */
    method FindLeafPage(key: int, ghost lo: int, ghost hi: int, ghost h: nat)
      returns (leaf: int, ghost c: DCtx, ghost f: DTree)
      requires Holding(St(), tree, lo, hi, h) && lo <= key < hi
      ensures f.Leaf? && f.id == leaf && InHole(St(), c, f, lo, hi, 0) && Plug(c, f) == tree
      ensures Arrive(Top, tree, key) == Spot(c, f)
      ensures leaf in pages && pages[leaf].isLeaf && CLo(c, lo) <= key < CHi(c, hi)
    {
      var cur := root;
      c, f := Top, tree;
      ghost var hf, st := h, St();
      Whole(st, tree, lo, hi, h);
      hide Holding, InHole, Overfull, Plug, CLo, CHi;
      assert InHole(st, c, f, lo, hi, hf) && CLo(c, lo) <= key < CHi(c, hi);
      assert Overfull(st, c, f, lo, hi, hf) by { InHoleIsOverfull(st, c, f, lo, hi, hf); }
      Open(st, c, f, lo, hi, hf);
      while !pages[cur].isLeaf
        invariant f.id == cur && InHole(st, c, f, lo, hi, hf) && Plug(c, f) == tree
        invariant cur in pages && pages[cur].isLeaf == f.Leaf?
        invariant !f.Leaf? ==> f.Node? && |f.kids| == |f.keys| + 1
        invariant !f.Leaf? ==> HoldsInner(pages[cur], f.keys, slots.inner) && KidIds(pages[cur], f.kids)
        invariant CLo(c, lo) <= key < CHi(c, hi) && Arrive(c, f, key) == Arrive(Top, tree, key)
        decreases f
      {
        var idx := UpperSlot(pages[cur], key);
        UpperIdxIs(f.keys, key, idx);
        Descend(st, c, f, idx, key, lo, hi, hf);
        c, f, hf := Child(c, f, idx), f.kids[idx], hf - 1;
        cur := pages[cur].kids[idx];
        InHoleIsOverfull(st, c, f, lo, hi, hf);
        Open(st, c, f, lo, hi, hf);
      }
      AtLeaf(st, c, f, lo, hi, hf);
      leaf := cur;
    }

    lemma UpperIdxIs(keys: seq<int>, key: int, idx: nat)
      requires Routes(keys, key, idx)
      ensures UpperIdx(keys, key) == idx
    {
      RoutesOnce(keys, key, UpperIdx(keys, key), idx);
    }

    /** The page above `target`, found by routing `hint` from the root again; -1 for the root, and -1
        if a separator right of the path is not greater than the hint and sends the descent past it. */
    method FindParent(target: int, hint: int, ghost c: DCtx, ghost ff: int, ghost lo: int, ghost hi: int, ghost hf: nat)
      returns (parent: int)
      requires Hole(St(), c, target, ff, lo, hi, hf) && target !in IdsC(c) && CLo(c, lo) <= hint
      ensures parent == if c.Down? && Free(c, hint) then c.id else -1
    {
      hide Hole, CLo, CHi, IdsC, Depth, HoldsInner, Anc, Free, Astray;
      ghost var st, k := St(), Depth(c) - 1;
      ghost var off, s := false, tree;     // the descent has left the path and stands at the tree `s`
      PathRoot(st, c, target, ff, lo, hi, hf);
      if root == target { return -1; }
      var cur := root;
      parent := -1;
      Waypoint(st, c, k, target, ff, lo, hi, hf);
      AtTop(c, hint);
      while !pages[cur].isLeaf
        invariant cur in pages && parent == -1
        invariant !off ==> 0 <= k < Depth(c) && Anc(c, k).Down? && cur == Anc(c, k).id && Free(Anc(c, k + 1), hint)
        invariant !off ==> !pages[cur].isLeaf
        invariant off ==> s.id == cur && Astray(st.pages, s, target, st.sl, Cap(st.sl)) && !Free(c, hint)
        decreases if off then 0 else k + 1, s
      {
        if off { AstrayInner(st, s, target); } else { Waypoint(st, c, k, target, ff, lo, hi, hf); }
        var idx := UpperSlot(pages[cur], hint);
        if off {
          AstrayKid(st.pages, s, idx, target, st.sl, Cap(st.sl));
          AstrayPage(st.pages, s.kids[idx], target, st.sl, Cap(st.sl));
        } else {
          OneStepDown(st, c, k, target, ff, lo, hi, hf, hint, pages[cur], idx);
          Onward(st, c, k, target, ff, lo, hi, hf, hint, idx);
        }
        var child := pages[cur].kids[idx];
        if child == target { return cur; }
        if off {
          s := s.kids[idx];
        } else if idx != Anc(c, k).i {
          off, s := true, Anc(c, k).kids[idx];
        } else {
          k := k - 1;
          Waypoint(st, c, k, target, ff, lo, hi, hf);
        }
        cur := child;
      }
    }

    lemma AtTop(c: DCtx, hint: int)
      requires c.Down?
      ensures Depth(c) > 0 && Free(Anc(c, Depth(c) - 1 + 1), hint)
    {
      AncTop(c);
    }

    lemma {:induction false} AncTop(c: DCtx)
      ensures Anc(c, Depth(c)).Top?
      decreases c
    {
      if c.Down? { AncTop(c.up); }
    }

    lemma AstrayInner(st: Store, s: DTree, target: int)
      requires Astray(st.pages, s, target, st.sl, Cap(st.sl)) && s.id in st.pages && !st.pages[s.id].isLeaf
      ensures s.Node? && |s.kids| == |s.keys| + 1
      ensures var p := st.pages[s.id]; p.numKeys <= |p.keys| && p.numKeys < |p.kids| && p.numKeys == |s.keys|
      ensures forall i :: 0 <= i < |s.kids| ==> st.pages[s.id].kids[i] == s.kids[i].id
    {
      AstrayPage(st.pages, s, target, st.sl, Cap(st.sl));
    }

    // Where a step from the k-th ancestor leads: off the path for good, or to the target, or further down.
    lemma Onward(st: Store, c: DCtx, k: nat, target: int, ff: int, lo: int, hi: int, hf: nat, hint: int, idx: nat)
      requires Hole(st, c, target, ff, lo, hi, hf) && k < Depth(c) && Anc(c, k).Down?
      requires idx == Anc(c, k).i <==> Free(Anc(c, k), hint)
      requires idx != Anc(c, k).i ==>
        idx < |Anc(c, k).kids| && Astray(st.pages, Anc(c, k).kids[idx], target, st.sl, Cap(st.sl))
      ensures idx != Anc(c, k).i ==>
        !Free(c, hint) && Anc(c, k).kids[idx].id != target && Anc(c, k).kids[idx].id in st.pages
      ensures idx == Anc(c, k).i && k == 0 ==> Free(c, hint) && c.Down?
    {
      if idx != Anc(c, k).i {
        AstrayPage(st.pages, Anc(c, k).kids[idx], target, st.sl, Cap(st.sl));
        if Free(c, hint) { FreeAbove(st, c, k, target, ff, lo, hi, hf, hint); }
      }
    }

    /** Store an entry behind all entries of its key; a full leaf uses its reserved slot. */
    method InsertIntoLeaf(leaf: int, key: int, rid: RID, ghost es: seq<Entry<RID>>, ghost nxt: int)
      requires leaf in pages && HoldsLeaf(pages[leaf], es, nxt, slots.leaf) && |es| < slots.leaf
      modifies this`pages
      ensures leaf in pages && pages == old(pages)[leaf := pages[leaf]]
      ensures HoldsLeaf(pages[leaf], Filed(es, Entry(key, rid)), nxt, slots.leaf)
    {
      var page := pages[leaf];
      var pos := UpperSlot(page, key);
      FiledIs(es[..pos], Entry(key, rid), es[pos..]);
      assert es == es[..pos] + es[pos..];
      page := LeafInsertAt(page, pos, key, rid, es, slots.leaf);
      pages := pages[leaf := page];
    }

    /** Add a pair, behind all pairs of the same key.  `ok` is false if a separator sent upwards does
        not find its parent any more; the program then reads a page -1. */
    method Insert(key: int, rid: RID) returns (ok: bool)
      requires Valid()
      modifies this
      ensures ok <==> old(Accepts(tree, Entry(key, rid), slots))
      ensures ok ==> Valid() && Entries() == Filed(old(Entries()), Entry(key, rid))
      ensures ok ==> tree == old(Grown(tree, Entry(key, rid), nextPageNo, slots))
      ensures ok ==> nextPageNo == old(GrownNext(tree, Entry(key, rid), nextPageNo, slots))
      ensures Sorted(Filed(old(Entries()), Entry(key, rid))) ==> !old(CutsRun(tree, Entry(key, rid), slots))
      ensures old(Unbroken()) ==> ok && (Unbroken() <==> !old(CutsRun(tree, Entry(key, rid), slots)))
    {
      hide Valid, Holding, InHole, Overfull, CL, CR, CLo, CHi, Accepts, Grown, GrownNext, CutsRun, Unbroken, Clean,
           Below, Filed, Arrive,
           Plug, Knit, Rises, Risen, RisenNext, Contents, Sorted;
      ghost var e := Entry(key, rid);
      ghost var lo, hi, h := RangeAround(key);
      InsertOutcome(e, lo, hi, h);
      var leaf; ghost var c, f;
      leaf, c, f := FindLeafPage(key, lo, hi, h);
      ghost var st := St();
      Close(st, c, f, lo, hi, 0);
      OpenLeaf(st, c, f, lo, hi);
      FiledThere(st, c, f, e, lo, hi);
      var full := !(pages[leaf].numKeys < LeafCapacity());
      InsertIntoLeaf(leaf, key, rid, f.es, CNext(c, -1));
      ghost var g := Leaf(leaf, Filed(f.es, e));
      hide LeafOk, HoldsLeaf;
      LeafContents(f);
      if Sorted(Filed(old(Entries()), e)) { DistinctUncut(old(tree), c, f, e, slots); }
      LeafContents(g);
      LeafChanged(st, c, f, pages[leaf], g.es, lo, hi);
      GrownIs(old(tree), c, f, e, st.next, st.sl);
      if !full {
        Settle(c, g, lo, hi, 0);
        ok := true;
      } else {
        ok := SplitLeaf(leaf, c, g, lo, hi);
      }
      if old(Unbroken()) {
        InsertedBelow(old(Entries()), e, hi);
        UnbrokenAt(hi);
      }
    }

    // The descent's leaf with the new entry, and the whole list with it.
    lemma FiledThere(st: Store, c: DCtx, f: DTree, e: Entry<RID>, lo: int, hi: int)
      requires InHole(st, c, f, lo, hi, 0) && f.Leaf? && CLo(c, lo) <= e.key < CHi(c, hi)
      ensures Knit(c) && 2 <= st.sl.leaf && |f.es| < st.sl.leaf && |Filed(f.es, e)| == |f.es| + 1
      ensures LeafOk(Filed(f.es, e), CLo(c, lo), CHi(c, hi), false)
      ensures Filed(CL(c) + f.es + CR(c), e) == CL(c) + Filed(f.es, e) + CR(c)
    {
      WFCKnit(c, Cap(st.sl), lo, hi, 0);
      AtLeaf(st, c, f, lo, hi, 0);
      CSides(c, Cap(st.sl), lo, hi, 0);
      FiledOrdered(f.es, e, CLo(c, lo), CHi(c, hi));
      FiledBetween(CL(c), f.es, CR(c), e);
    }

    // A part of a list without equal keys has no equal keys.
    lemma SortedPart(a: seq<Entry<RID>>, es: seq<Entry<RID>>, b: seq<Entry<RID>>)
      requires Sorted(a + es + b)
      ensures Sorted(es)
    {
      var s := a + es + b;
      forall i, j | 0 <= i < j < |es| ensures es[i].key < es[j].key {
        assert s[|a| + i] == es[i] && s[|a| + j] == es[j];
      }
    }

    lemma DistinctUncut(t: DTree, c: DCtx, f: DTree, e: Entry<RID>, sl: Slotting)
      requires Arrive(Top, t, e.key) == Spot(c, f) && f.Leaf?
      requires Sorted(CL(c) + Filed(f.es, e) + CR(c))
      ensures !CutsRun(t, e, sl)
    {
      SortedPart(CL(c), Filed(f.es, e), CR(c));
    }

    lemma DistinctUnborrowed(t: DTree, c: DCtx, f: DTree, e: Entry<RID>, sl: Slotting)
      requires Arrive(Top, t, e.key) == Spot(c, f) && f.Leaf? && Sorted(CL(c) + f.es + CR(c))
      ensures !BorrowCuts(t, e, sl)
    {
      if c.Down? && c.i + 1 < |c.kids| && c.kids[c.i + 1].Leaf? {
        var b := Flat(c.kids[c.i + 2..]) + CR(c.up);
        var es := c.kids[c.i + 1].es;
        RightContents(c);
        assert CR(c) == es + b by { SeqAssoc(es, Flat(c.kids[c.i + 2..]), CR(c.up)); }
        assert CL(c) + f.es + (es + b) == (CL(c) + f.es) + es + b;
        SortedPart(CL(c) + f.es, es, b);
      }
    }

    lemma FiledBetween(l: seq<Entry<RID>>, es: seq<Entry<RID>>, r: seq<Entry<RID>>, e: Entry<RID>)
      requires Before(l, e.key, false) && From(e.key + 1, r)
      ensures Filed(l + es + r, e) == l + Filed(es, e) + r
    {
      hide Filed, Place;
      PlaceFacts(es, e.key);
      var x, y := FiledParts(es, e);
      FiledIs(l + x, e, y + r);
      Inwards(l, x, [], y, r);
      Inwards(l, x, [e], y, r);
      assert x + [] + y == x + y && (l + x) + [] + (y + r) == (l + x) + (y + r);
    }

    lemma FiledParts(es: seq<Entry<RID>>, e: Entry<RID>) returns (x: seq<Entry<RID>>, y: seq<Entry<RID>>)
      ensures x == es[..Place(es, e.key)] && y == es[Place(es, e.key)..]
      ensures es == x + y && Filed(es, e) == x + [e] + y
    {
      x, y := es[..Place(es, e.key)], es[Place(es, e.key)..];
    }

    lemma Inwards<T>(l: seq<T>, x: seq<T>, m: seq<T>, y: seq<T>, r: seq<T>)
      ensures (l + x) + m + (y + r) == l + (x + m + y) + r
    {
    }

    lemma InsertedBelow(es: seq<Entry<RID>>, e: Entry<RID>, hi: int)
      requires Below(es, hi) && e.key < hi
      ensures Below(Filed(es, e), hi)
    {
      var n, s := Place(es, e.key), Filed(es, e);
      assert s == es[..n] + [e] + es[n..];
    }

    // What the tree and its separators will be if the index has no cut run now.
    lemma InsertOutcome(e: Entry<RID>, lo: int, hi: int, h: nat)
      requires Holding(St(), tree, lo, hi, h) && lo <= e.key < hi && Below(Entries(), hi)
      ensures Unbroken() ==> Accepts(tree, e, slots)
      ensures Unbroken() ==> (Clean(Grown(tree, e, nextPageNo, slots), hi) <==> !CutsRun(tree, e, slots))
    {
      if Unbroken() {
        UnbrokenAt(hi);
        GrownClean(tree, e, nextPageNo, slots, Cap(slots), lo, hi, h);
      }
    }

    lemma GrownIs(t: DTree, c: DCtx, f: DTree, e: Entry<RID>, next: int, sl: Slotting)
      requires Arrive(Top, t, e.key) == Spot(c, f) && f.Leaf? && Knit(c) && sl.leaf >= 2
      ensures var es := Filed(f.es, e);
        var mid := |es| / 2;
        && (|es| < sl.leaf ==>
              && Accepts(t, e, sl) && Grown(t, e, next, sl) == Plug(c, Leaf(f.id, es))
              && GrownNext(t, e, next, sl) == next)
        && (|es| >= sl.leaf ==>
              && (Accepts(t, e, sl) <==> Rises(c, es[mid].key, sl.inner))
              && GrownNext(t, e, next, sl) == RisenNext(c, es[mid].key, next + 1, sl.inner)
              && Grown(t, e, next, sl) ==
                Risen(c, Leaf(f.id, es[..mid]), es[mid].key, Leaf(next, es[mid..]), next + 1, sl.inner))
    {
    }

    // The pages are final: the tree is the one with `t` in the hole.
    ghost method Settle(c: DCtx, t: DTree, lo: int, hi: int, hf: nat)
      requires Overfull(St(), c, t, lo, hi, hf) && Fits(t, Cap(slots))
      modifies this`tree
      ensures Valid() && tree == Plug(c, t) && Contents(tree) == CL(c) + Contents(t) + CR(c)
    {
      hide InHole, Overfull, Holding, Valid, Plug, CL, CR, Contents;
      Fitting(St(), c, t, lo, hi, hf);
      Close(St(), c, t, lo, hi, hf);
      tree := Plug(c, t);
      NowValid(lo, hi, hf + Depth(c));
    }

    lemma LeafContents(f: DTree)
      requires f.Leaf?
      ensures Contents(f) == f.es
    {
    }

    lemma NowValid(lo: int, hi: int, h: nat)
      requires Holding(St(), tree, lo, hi, h)
      ensures Valid()
    {
    }

    /** Move the upper half of an overfull leaf to a new page and hand the new separator upwards. */
    method SplitLeaf(leaf: int, ghost c: DCtx, ghost g: DTree, ghost lo: int, ghost hi: int) returns (ok: bool)
      requires g.Leaf? && g.id == leaf && |g.es| == slots.leaf
      requires Overfull(St(), c, g, lo, hi, 0) && Knit(c) && slots.leaf > 0
      modifies this
      ensures var mid := |g.es| / 2;
        && (ok <==> Rises(c, g.es[mid].key, slots.inner))
        && (ok ==> tree == Risen(c, Leaf(leaf, g.es[..mid]), g.es[mid].key, Leaf(old(nextPageNo), g.es[mid..]),
                                 old(nextPageNo) + 1, slots.inner))
        && (ok ==> nextPageNo == RisenNext(c, g.es[mid].key, old(nextPageNo) + 1, slots.inner))
      ensures ok ==> Valid() && Contents(tree) == CL(c) + Contents(g) + CR(c)
    {
      hide Valid, Overfull, Halves, CL, CR, Contents, Rises, Risen, RisenNext, Knit;
      var up, sib, mid := CutLeaf(leaf, c, g, lo, hi);
      ghost var l, r := Leaf(leaf, g.es[..mid]), Leaf(sib, g.es[mid..]);
      LeafContents(l);
      LeafContents(r);
      LeafContents(g);
      CutAndJoin(g.es, mid);
      ok := InsertIntoParent(leaf, up, sib, c, l, r, lo, hi, 0);
    }

    // The page writes of a leaf split.
    method CutLeaf(leaf: int, ghost c: DCtx, ghost g: DTree, ghost lo: int, ghost hi: int)
      returns (up: int, sib: int, mid: nat)
      requires g.Leaf? && g.id == leaf && |g.es| == slots.leaf && Overfull(St(), c, g, lo, hi, 0)
      modifies this`pages, this`nextPageNo
      ensures mid == |g.es| / 2 < |g.es| && up == g.es[mid].key && sib == old(nextPageNo) && nextPageNo == sib + 1
      ensures Halves(St(), c, Leaf(leaf, g.es[..mid]), up, Leaf(sib, g.es[mid..]), lo, hi, 0)
    {
      hide Overfull, Halves;
      ghost var st := St();
      Open(st, c, g, lo, hi, 0);
      var page := pages[leaf];
      mid := page.numKeys / 2;
      sib := AllocNode(true);
      CutAndJoin(g.es, mid);
      var sibPage := LeafAppend(pages[sib], page, mid, [], g.es, slots.leaf);
      sibPage := sibPage.(nextLeaf := page.nextLeaf);
      page := page.(numKeys := mid, nextLeaf := sib);
      pages := pages[leaf := page][sib := sibPage];
      up := sibPage.keys[0];
      assert up == g.es[mid..][0].key;
      hide HoldsLeaf;
      LeafHalves(st, c, g, mid, page, sibPage, lo, hi);
      assert pages == st.pages[leaf := page][sib := sibPage];
    }

    lemma CutAndJoin(es: seq<Entry<RID>>, mid: nat)
      requires mid < |es|
      ensures [] + es[mid..] == es[mid..] && es[..mid] + es[mid..] == es
    {
    }

    /** Record the right half in the parent, found again from the root; split upwards if it overflows. */
    method InsertIntoParent(left: int, key: int, right: int, ghost c: DCtx, ghost l: DTree, ghost r: DTree,
                            ghost lo: int, ghost hi: int, ghost hf: nat) returns (ok: bool)
      requires l.id == left && r.id == right && Halves(St(), c, l, key, r, lo, hi, hf) && Knit(c)
      modifies this
      ensures ok <==> Rises(c, key, slots.inner)
      ensures ok ==> Valid() && tree == Risen(c, l, key, r, old(nextPageNo), slots.inner)
      ensures ok ==> nextPageNo == RisenNext(c, key, old(nextPageNo), slots.inner)
      ensures ok ==> Contents(tree) == CL(c) + (Contents(l) + Contents(r)) + CR(c)
      decreases c, 0
    {
      hide Valid, Overfull, InHole, Halves, Hole, Contents, CL, CR, IdsC, CLo, CHi, Plug, LeftHalf, RightHalf, Free;
      ghost var st := St();
      OpenHalves(st, c, l, key, r, lo, hi, hf);
      if left == root {
        GrowRootPage(left, key, right, l, r, lo, hi, hf);
        TopContents(c, Contents(l) + Contents(r));
        return true;
      }
      var parent := FindParent(left, key, c, First(l), lo, hi, hf);
      AboveRoot(st, c, l, key, r, lo, hi, hf);
      if parent < 0 { return false; }
      var page := pages[parent];
      var ci := ChildSlotOf(page, left);
      ghost var t := InsertKid(c, l, key, r);
      page := InnerInsertAt(page, ci, key, right, c.keys, slots.inner);
      var overflow := page.numKeys > InternalCapacity();
      pages := pages[parent := page];

      KidInserted(st, c, l, key, r, page, lo, hi, hf);
      InsertKidContents(c, l, key, r);
      Regrouped(c, l, r);
      if overflow {
        ok := SplitInternal(parent, c.up, t, lo, hi, hf + 1);
      } else {
        Settle(c.up, t, lo, hi, hf + 1);
        ok := true;
      }
    }

    // Page numbers of nodes are not negative.
    lemma AboveRoot(st: Store, c: DCtx, l: DTree, key: int, r: DTree, lo: int, hi: int, hf: nat)
      requires Halves(st, c, l, key, r, lo, hi, hf)
      ensures c.Down? ==> 0 <= c.id
    {
      if c.Down? { UpFacts(st, c, l.id, First(l), lo, hi, hf); }
    }

    lemma TopContents(c: DCtx, s: seq<Entry<RID>>)
      requires c.Top?
      ensures CL(c) + s + CR(c) == s
    {
    }

    lemma Regrouped(c: DCtx, l: DTree, r: DTree)
      ensures CL(c) + Contents(l) + Contents(r) + CR(c) == CL(c) + (Contents(l) + Contents(r)) + CR(c)
    {
    }

    /** The root page keeps its number: its content moves to a new page below it. */
    method GrowRootPage(left: int, key: int, right: int, ghost l: DTree, ghost r: DTree,
                        ghost lo: int, ghost hi: int, ghost h: nat)
      requires left == root && l.id == left && r.id == right && Halves(St(), Top, l, key, r, lo, hi, h)
      modifies this
      ensures Valid() && Contents(tree) == Contents(l) + Contents(r)
      ensures tree == Node(left, [key], [Rename(l, old(nextPageNo)), r]) && nextPageNo == old(nextPageNo) + 1
    {
      ghost var st := St();
      assert left in pages && left < nextPageNo && Roomy(st);
      hide Halves, Holding, Valid, Contents;
      var newLeft := AllocNode(true);
      pages := pages[newLeft := pages[left]];
      var page := Blank(false, slots.inner);
      page := page.(numKeys := 1, keys := page.keys[0 := key], kids := page.kids[0 := newLeft][1 := right]);
      pages := pages[left := page];
      assert page.kids[..2] == [newLeft, right];
      assert pages == st.pages[newLeft := st.pages[left]][left := page];
      RootGrown(st, l, key, r, page, lo, hi, h);
      tree := Node(left, [key], [Rename(l, newLeft), r]);
      NowValid(lo, hi, h + 1);
    }

    /** Move the upper half of an overfull internal page to a new page; the middle key moves up. */
    method SplitInternal(node: int, ghost c: DCtx, ghost t: DTree, ghost lo: int, ghost hi: int, ghost hf: nat)
      returns (ok: bool)
      requires t.Node? && t.id == node && |t.keys| == slots.inner && |t.kids| == |t.keys| + 1
      requires Overfull(St(), c, t, lo, hi, hf) && Knit(c) && slots.inner > 0
      modifies this
      ensures var mid := |t.keys| / 2;
        && (ok <==> Rises(c, t.keys[mid], slots.inner))
        && (ok ==> tree == Risen(c, LeftHalf(t, mid), t.keys[mid], RightHalf(t, mid, old(nextPageNo)),
                                 old(nextPageNo) + 1, slots.inner))
        && (ok ==> nextPageNo == RisenNext(c, t.keys[mid], old(nextPageNo) + 1, slots.inner))
      ensures ok ==> Valid() && Contents(tree) == CL(c) + Contents(t) + CR(c)
      decreases c, 1
    {
      hide Valid, Overfull, Halves, Contents, CL, CR, Rises, Risen, RisenNext, Knit;
      ghost var st := St();
      Open(st, c, t, lo, hi, hf);
      var page := pages[node];
      var mid := page.numKeys / 2;
      var up := page.keys[mid];
      var sib := AllocNode(false);
      var sibPage := InnerCopyTail(pages[sib], page, mid, t.keys, slots.inner);
      page := page.(numKeys := mid);
      pages := pages[node := page][sib := sibPage];
      assert pages == st.pages[node := page][sib := sibPage];

      InnerHalves(st, c, t, mid, sibPage, lo, hi, hf);
      SplitContents(t, mid, sib);
      ok := InsertIntoParent(node, up, sib, c, LeftHalf(t, mid), RightHalf(t, mid, sib), lo, hi, hf);
    }

    // ---- queries ----

    /** Collect the RIDs of one leaf page whose keys lie in [lo, hi]; `past` once a larger key is met. */
    method CollectLeaf(page: Page, lo: int, hi: int, acc: seq<RID>, ghost es: seq<Entry<RID>>)
      returns (out: seq<RID>, past: bool)
      requires HoldsLeaf(page, es, page.nextLeaf, slots.leaf) && Ascending(es)
      ensures out == acc + InRange(es, lo, hi)
      ensures past ==> EndsAbove(es, hi)
    {
      hide InRange, Ascending;
      out, past := acc, false;
      var i := 0;
      assert InRange(es[..0], lo, hi) == [] by { InRangeNone(es[..0], lo, hi); }
      while i < page.numKeys
        invariant i <= |es| && out == acc + InRange(es[..i], lo, hi)
      {
        var k := page.keys[i];
        if hi < k {
          past := true;
          InRangeStop(es, i, lo, hi);
          return;
        }
        InRangeStep(es, i, lo, hi);
        if !(k < lo) {
          out := out + [page.rids[i]];
        }
        i := i + 1;
      }
      assert es[..i] == es;
    }

    /** The RIDs filed under a key, in the order of their entries, from the leaf the descent ends in on:
        all of them if no separator cuts a run of equal keys. */
    method Find(key: int) returns (out: seq<RID>)
      requires Valid()
      ensures out == InRange(Seen(tree, key), key, key)
      ensures Unbroken() ==> out == InRange(Entries(), key, key)
    {
      out := Range(key, key);
    }

    /** The RIDs of all keys in [lo, hi], in ascending key order, from the leaf the descent for `lo` ends in on. */
    method Range(lo: int, hi: int) returns (out: seq<RID>)
      requires Valid()
      ensures out == InRange(Seen(tree, lo), lo, hi)
      ensures Unbroken() ==> out == InRange(Entries(), lo, hi)
      ensures lo <= hi ==> (out == InRange(Entries(), lo, hi) <==> Below(Skipped(tree, lo), lo))
    {
      ghost var l, h, d := RangeAround(lo);
      Complete(lo, hi, l, h, d);
      SpotSides(lo, l, h, d);
      hide Valid, Holding, InHole, Leaves, LL, Contents, Flat, LeafList, Seen, Skipped, Unbroken, Arrive, InRange,
           Below;
      var leaf; ghost var c, f;
      leaf, c, f := FindLeafPage(lo, l, h, d);
      LeafListOf(St(), tree, l, h, d);
      WalkStart(St(), c, f, tree, l, h);
      out := RangeFrom(leaf, lo, hi, Leaves(tree), |LL(c)|);
    }

    lemma SpotSides(key: int, lo: int, hi: int, h: nat)
      requires Holding(St(), tree, lo, hi, h) && lo <= key < hi
      ensures var s := Arrive(Top, tree, key);
        s.f.Leaf? && s.f.es + CR(s.c) == Seen(tree, key) && CL(s.c) == Skipped(tree, key)
      ensures Contents(tree) == Skipped(tree, key) + Seen(tree, key)
    {
      ArriveSides(Top, tree, key, Cap(slots), lo, hi, h);
      SeenSkipped(tree, key, Cap(slots), lo, hi, h);
      var s := Arrive(Top, tree, key);
      assert s.f.es + CR(s.c) == Seen(tree, key) + [] == Seen(tree, key);
      assert [] + Skipped(tree, key) == Skipped(tree, key);
    }

    // When the entries from the descent's leaf on are all there is to find.
    lemma Complete(a: int, b: int, lo: int, hi: int, h: nat)
      requires Holding(St(), tree, lo, hi, h) && Below(Entries(), hi)
      ensures a <= b ==> (InRange(Seen(tree, a), a, b) == InRange(Entries(), a, b) <==> Below(Skipped(tree, a), a))
      ensures Unbroken() ==> InRange(Seen(tree, a), a, b) == InRange(Entries(), a, b)
    {
      if a <= b {
        RangeCompleteIff(tree, a, b, Cap(slots), lo, hi, h);
        if Unbroken() {
          UnbrokenAt(hi);
          SkippedBelow(tree, a, Cap(slots), lo, hi, h);
        }
      } else {
        InRangeNone(Seen(tree, a), a, b);
        InRangeNone(Entries(), a, b);
      }
    }

    /** The range walk along the leaf chain from the leaf that `lo` belongs in. */
    method RangeFrom(start: int, lo: int, hi: int, ghost ls: seq<DTree>, ghost p: nat) returns (out: seq<RID>)
      requires LeafList(St(), ls) && p < |ls| && start == ls[p].id
      ensures out == InRange(Flat(ls[p..]), lo, hi)
    {
      hide Flat, LeafList, InRange, Ascending, HoldsLeaf, EndsAbove;
      LeafListPositive(ls);
      assert InRange(Flat(ls[p..p]), lo, hi) == [] by { NothingYet(ls, p, lo, hi); }
      var leaf, past := start, false;
      ghost var i := p;
      out := [];
      while leaf >= 0
        invariant p <= i <= |ls| && leaf == PageAt(ls, i) && !past
        invariant out == InRange(Flat(ls[p..i]), lo, hi)
        invariant leaf == start || p < i
        decreases |ls| - i
      {
        WalkStep(St(), ls, i);
        LeafPage(pages[leaf], ls[i].es, PageAt(ls, i + 1));
        RangeMore(ls, p, i, lo, hi);
        out, past := CollectLeaf(pages[leaf], lo, hi, out, ls[i].es);
        var next := pages[leaf].nextLeaf;
        i := i + 1;
        if past { break; }
        leaf := next;
      }
      assert Passed(ls, i, hi);
      WalkEnd(ls, p, i, lo, hi);
    }

    lemma LeafListPositive(ls: seq<DTree>)
      requires LeafList(St(), ls)
      ensures Ascending(Flat(ls)) && forall i :: 0 <= i < |ls| ==> ls[i].Leaf? && 0 <= ls[i].id
    {
    }

    lemma LeafPage(page: Page, es: seq<Entry<RID>>, nxt: int)
      requires HoldsLeaf(page, es, nxt, slots.leaf)
      ensures HoldsLeaf(page, es, page.nextLeaf, slots.leaf) && page.nextLeaf == nxt
    {
    }

    lemma NothingYet(ls: seq<DTree>, p: nat, lo: int, hi: int)
      requires p <= |ls|
      ensures Flat(ls[p..p]) == [] && InRange(Flat(ls[p..p]), lo, hi) == []
    {
      assert ls[p..p] == [];
    }

    lemma RangeMore(ls: seq<DTree>, p: nat, i: nat, lo: int, hi: int)
      requires p <= i < |ls| && ls[i].Leaf?
      ensures InRange(Flat(ls[p..i + 1]), lo, hi) == InRange(Flat(ls[p..i]), lo, hi) + InRange(ls[i].es, lo, hi)
    {
      FlatMore(ls, p, i);
      InRangeConcat(Flat(ls[p..i]), ls[i].es, lo, hi);
    }

    /** Every pair in the index, in ascending key order. */
    method ScanAll() returns (out: seq<Entry<RID>>)
      requires Valid()
      ensures out == Entries()
    {
      ghost var lo, hi, h := RangeAround(0);
      hide Valid, Holding, Leaves, Contents, Flat, LeafList, Below;
      var cur := LeftmostLeaf(lo, hi, h);
      ghost var ls, i := Leaves(tree), 0;
      LeafListOf(St(), tree, lo, hi, h);
      NothingYet(ls, 0, lo, hi);
      out := [];
      while cur >= 0
        invariant 0 <= i <= |ls| && cur == PageAt(ls, i) && out == Flat(ls[0..i])
        invariant cur == ls[0].id || 0 < i
        decreases |ls| - i
      {
        WalkStep(St(), ls, i);
        LeafPage(pages[cur], ls[i].es, PageAt(ls, i + 1));
        FlatMore(ls, 0, i);
        out := AppendLeaf(pages[cur], out, ls[i].es);
        cur := pages[cur].nextLeaf;
        i := i + 1;
      }
      LeafListEnd(ls, i);
    }

    lemma LeafListEnd(ls: seq<DTree>, i: nat)
      requires LeafList(St(), ls) && i <= |ls| && PageAt(ls, i) < 0
      ensures i == |ls| && ls[0..i] == ls
    {
    }

    method AppendLeaf(page: Page, acc: seq<Entry<RID>>, ghost es: seq<Entry<RID>>) returns (out: seq<Entry<RID>>)
      requires HoldsLeaf(page, es, page.nextLeaf, slots.leaf)
      ensures out == acc + es
    {
      out := acc;
      var j := 0;
      while j < page.numKeys
        invariant j <= |es| && out == acc + es[..j]
      {
        out := out + [Entry(page.keys[j], page.rids[j])];
        j := j + 1;
      }
      assert es[..j] == es;
    }

    method LeftmostLeaf(ghost lo: int, ghost hi: int, ghost h: nat) returns (cur: int)
      requires Holding(St(), tree, lo, hi, h) && lo < hi
      ensures cur == First(tree)
    {
      ghost var st, c, f, hf := St(), Top, tree, h;
      Whole(st, tree, lo, hi, h);
      InHoleIsOverfull(st, c, f, lo, hi, hf);
      Open(st, c, f, lo, hi, hf);
      hide Holding, InHole, Overfull, CLo, CHi, First;
      cur := root;
      while !pages[cur].isLeaf
        invariant f.id == cur && InHole(st, c, f, lo, hi, hf) && First(f) == First(tree)
        invariant cur in pages && pages[cur].isLeaf == f.Leaf?
        invariant !f.Leaf? ==> f.Node? && |f.kids| == |f.keys| + 1
        invariant !f.Leaf? ==> HoldsInner(pages[cur], f.keys, slots.inner) && KidIds(pages[cur], f.kids)
        decreases f
      {
        FirstBelow(st, c, f, lo, hi, hf);
        c, f, hf := Child(c, f, 0), f.kids[0], hf - 1;
        cur := pages[cur].kids[0];
        InHoleIsOverfull(st, c, f, lo, hi, hf);
        Open(st, c, f, lo, hi, hf);
      }
      LeafFirst(f);
    }

    lemma LeafFirst(f: DTree)
      requires f.Leaf?
      ensures First(f) == f.id
    {
    }

    lemma FirstBelow(st: Store, c: DCtx, f: DTree, lo: int, hi: int, hf: nat)
      requires InHole(st, c, f, lo, hi, hf) && f.Node? && |f.kids| == |f.keys| + 1
      ensures hf > 0 && InHole(st, Child(c, f, 0), f.kids[0], lo, hi, hf - 1) && First(f.kids[0]) == First(f)
    {
      StepInto(st, c, f, 0, lo, hi, hf);
    }

    // ---- deletion ----

    /** Look for a pair in one leaf page; `past` once a larger key is met. */
    method ScanLeafFor(page: Page, key: int, rid: RID, ghost es: seq<Entry<RID>>)
      returns (i: nat, found: bool, past: bool)
      requires HoldsLeaf(page, es, page.nextLeaf, slots.leaf) && Ascending(es)
      ensures found ==> i < |es| && es[i] == Entry(key, rid) && Entry(key, rid) !in es[..i]
      ensures !found ==> Entry(key, rid) !in es
      ensures past ==> EndsAbove(es, key)
    {
      i, found, past := 0, false, false;
      while i < page.numKeys
        invariant i <= |es| && forall j :: 0 <= j < i ==> es[j] != Entry(key, rid)
      {
        var k := page.keys[i];
        if key < k {
          past := true;
          return;
        }
        if !(k < key) && page.rids[i] == rid {
          found := true;
          return;
        }
        i := i + 1;
      }
    }

    /** Walk the leaf chain until the pair or a larger key is met; the pair can only be in the first leaf. */
    method FindPair(start: int, key: int, rid: RID, ghost ls: seq<DTree>, ghost p: nat)
      returns (leaf: int, i: nat, found: bool)
      requires LeafList(St(), ls) && p < |ls| && ls[p].Leaf? && start == ls[p].id
      requires forall j :: p < j < |ls| ==> ls[j].Leaf? && From(key + 1, ls[j].es)
      ensures found <==> Entry(key, rid) in Flat(ls[p..])
      ensures found ==>
        leaf == start && i < |ls[p].es| && ls[p].es[i] == Entry(key, rid) && Entry(key, rid) !in ls[p].es[..i]
      ensures found <==> Entry(key, rid) in ls[p].es
    {
      LeafListPositive(ls);
      ghost var e := Entry(key, rid);
      assert e !in Flat(ls[p..p]) by { NothingYet(ls, p, key, key); }
      hide Flat, LeafList, From, Ascending, HoldsLeaf, EndsAbove;
      ghost var n := p;
      var past := false;
      leaf, i, found := start, 0, false;
      while leaf >= 0
        invariant p <= n <= |ls| && leaf == PageAt(ls, n) && !past && !found
        invariant leaf == start || p < n
        invariant e !in Flat(ls[p..n])
        decreases |ls| - n
      {
        WalkStep(St(), ls, n);
        LeafPage(pages[leaf], ls[n].es, PageAt(ls, n + 1));
        i, found, past := ScanLeafFor(pages[leaf], key, rid, ls[n].es);
        if found {
          FoundHere(ls, p, n, i, e);
          return;
        }
        AbsentMore(ls, p, n, e);
        var next := pages[leaf].nextLeaf;
        n := n + 1;
        if past { break; }
        leaf := next;
      }
      assert Passed(ls, n, key);
      NotThere(St(), ls, p, n, e);
      NotFirst(ls, p, e);
    }

    // The pair is in the leaf the descent reached: all later leaves hold larger keys only.
    lemma FoundHere(ls: seq<DTree>, p: nat, n: nat, i: nat, e: Entry<RID>)
      requires p <= n < |ls| && ls[n].Leaf? && i < |ls[n].es| && ls[n].es[i] == e
      requires forall j :: p < j < |ls| ==> ls[j].Leaf? && From(e.key + 1, ls[j].es)
      ensures n == p && e in Flat(ls[p..])
    {
      assert ls[p..][0] == ls[p];
    }

    lemma NotFirst(ls: seq<DTree>, p: nat, e: Entry<RID>)
      requires p < |ls| && ls[p].Leaf? && e !in Flat(ls[p..])
      ensures e !in ls[p].es
    {
      assert ls[p..][0] == ls[p];
    }

    /** Remove a pair of the leaf its key's descent ends in, the first if it is there twice; afterwards
        an underfull leaf borrows from or merges with its right neighbour. */
    method Erase(key: int, rid: RID) returns (erased: bool)
      requires Valid()
      modifies this
      ensures Valid() && tree == old(Shrunk(tree, Entry(key, rid), slots)) && nextPageNo == old(nextPageNo)
      ensures erased <==> Entry(key, rid) in old(Seen(tree, key))
      ensures Entries() == if erased then old(Skipped(tree, key)) + WithoutFirst(old(Seen(tree, key)), Entry(key, rid))
                           else old(Entries())
      ensures old(Unbroken()) ==> (Unbroken() <==> !old(BorrowCuts(tree, Entry(key, rid), slots)))
      ensures old(Unbroken()) ==> (erased <==> Entry(key, rid) in old(Entries()))
      ensures old(Unbroken()) ==> Entries() == WithoutFirst(old(Entries()), Entry(key, rid))
      ensures Sorted(old(Entries())) ==> !old(BorrowCuts(tree, Entry(key, rid), slots))
    {
      hide Valid, Holding, InHole, Leaves, LL, Contents, Flat, LeafList, CL, CR, CLo, CHi, LeafOk, Overfull, HoldsLeaf,
           Sorted, Shrunk, BorrowCuts, Unbroken, Clean, Below, Seen, Skipped, Arrive, WithoutFirst, Plug, Rebalanced,
           From;
      ghost var e := Entry(key, rid);
      ghost var lo, hi, h := RangeAround(key);
      EraseOutcome(e, lo, hi, h);
      SpotSides(key, lo, hi, h);
      var leaf; ghost var c, f;
      leaf, c, f := FindLeafPage(key, lo, hi, h);
      ghost var st := St();
      LeafListOf(st, tree, lo, hi, h);
      WalkStart(st, c, f, tree, lo, hi);
      RightLeavesAbove(st, c, f, lo, hi, key);
      var i;
      leaf, i, erased := FindPair(leaf, key, rid, Leaves(tree), |LL(c)|);
      ShrunkIs(tree, c, f, e, slots);
      assert CL(c) + f.es + CR(c) == CL(c) + (f.es + CR(c));
      if Sorted(Entries()) { DistinctUnborrowed(tree, c, f, e, slots); }
      if !erased { return; }

      OpenLeaf(st, c, f, lo, hi);
      EntryOut(st, c, f, i, e, lo, hi);
      var page := LeafRemoveAt(pages[leaf], i, f.es, slots.leaf);
      pages := pages[leaf := page];
      ghost var g := Leaf(leaf, WithoutFirst(f.es, e));
      LeafChanged(st, c, f, page, g.es, lo, hi);
      Fitting(St(), c, g, lo, hi, 0);
      if leaf != root {
        RebalanceLeaf(leaf, key, c, g, lo, hi);
      } else {
        LeafContents(g);
        AtRoot(st, c, f, g, lo, hi);
        Settle(c, g, lo, hi, 0);
      }
      assert CL(c) + g.es + CR(c) == CL(c) + (g.es + CR(c));
      if old(Unbroken()) {
        ErasedBelow(old(Skipped(tree, key)), old(Seen(tree, key)), e, hi);
        UnbrokenAt(hi);
      }
    }

    lemma AtRoot(st: Store, c: DCtx, f: DTree, g: DTree, lo: int, hi: int)
      requires InHole(st, c, f, lo, hi, 0) && f.id == st.root
      ensures c.Top? && Rebalanced(c, g, st.sl) == Plug(c, g)
    {
      assert f.id in Ids(f);
      PathRoot(st, c, f.id, First(f), lo, hi, 0);
    }

    // The descent's leaf without the pair, and the whole list without it.
    lemma EntryOut(st: Store, c: DCtx, f: DTree, i: nat, e: Entry<RID>, lo: int, hi: int)
      requires InHole(st, c, f, lo, hi, 0) && f.Leaf? && CLo(c, lo) <= e.key < CHi(c, hi)
      requires i < |f.es| && f.es[i] == e && e !in f.es[..i]
      ensures WithoutFirst(f.es, e) == f.es[..i] + f.es[i + 1..] && |WithoutFirst(f.es, e)| < |f.es| < st.sl.leaf
      ensures LeafOk(WithoutFirst(f.es, e), CLo(c, lo), CHi(c, hi), false)
      ensures WithoutFirst(f.es + CR(c), e) == WithoutFirst(f.es, e) + CR(c)
    {
      AtLeaf(st, c, f, lo, hi, 0);
      hide InHole, CLo, CHi, CR, LeafOk, WithoutFirst;
      WithoutAt(f.es, i, e, CR(c));
      RemovedOk(f.es, i, CLo(c, lo), CHi(c, hi));
    }

    lemma RemovedOk(es: seq<Entry<RID>>, i: nat, lo: int, hi: int)
      requires LeafOk(es, lo, hi, false) && i < |es| && lo < hi
      ensures LeafOk(es[..i] + es[i + 1..], lo, hi, false)
    {
    }

    lemma WithoutAt(es: seq<Entry<RID>>, i: nat, e: Entry<RID>, r: seq<Entry<RID>>)
      requires i < |es| && es[i] == e && e !in es[..i]
      ensures WithoutFirst(es, e) == es[..i] + es[i + 1..]
      ensures WithoutFirst(es + r, e) == WithoutFirst(es, e) + r
    {
      hide WithoutFirst;
      var a, b := es[..i], es[i + 1..];
      assert es == a + [e] + b;
      WithoutFirstIs(a, e, b);
      WithoutFirstIs(a, e, b + r);
      SeqAssoc(a + [e], b, r);
      SeqAssoc(a, b, r);
    }

    lemma {:induction false} WithoutSkipped(a: seq<Entry<RID>>, b: seq<Entry<RID>>, e: Entry<RID>)
      requires e !in a
      ensures WithoutFirst(a + b, e) == a + WithoutFirst(b, e)
      decreases |a|
    {
      if a == [] {
        assert a + b == b;
      } else {
        WithoutSkipped(a[1..], b, e);
        assert (a + b)[1..] == a[1..] + b;
      }
    }

    lemma ErasedBelow(a: seq<Entry<RID>>, b: seq<Entry<RID>>, e: Entry<RID>, hi: int)
      requires Below(a + b, hi)
      ensures Below(a + WithoutFirst(b, e), hi)
    {
      BelowParts([], a, b, hi);
      assert [] + a + b == a + b;
      WithoutBelow(b, e, hi);
    }

    // What the tree, its separators and its entries will be.
    lemma EraseOutcome(e: Entry<RID>, lo: int, hi: int, h: nat)
      requires Holding(St(), tree, lo, hi, h) && lo <= e.key < hi && Below(Entries(), hi)
      ensures Below(Skipped(tree, e.key) + Seen(tree, e.key), hi)
      ensures Unbroken() ==> (Clean(Shrunk(tree, e, slots), hi) <==> !BorrowCuts(tree, e, slots))
      ensures Unbroken() ==> (e in Seen(tree, e.key) <==> e in Entries())
      ensures Unbroken() ==> WithoutFirst(Entries(), e) == Skipped(tree, e.key) + WithoutFirst(Seen(tree, e.key), e)
      ensures e !in Entries() ==> WithoutFirst(Entries(), e) == Entries()
    {
      var a, b := Skipped(tree, e.key), Seen(tree, e.key);
      SeenSkipped(tree, e.key, Cap(slots), lo, hi, h);
      if Unbroken() {
        UnbrokenAt(hi);
        ShrunkClean(tree, e, slots, Cap(slots), lo, hi, h);
        SkippedBelow(tree, e.key, Cap(slots), lo, hi, h);
        WithoutSkipped(a, b, e);
      }
      if e !in Entries() { WithoutAbsent(Entries(), e); }
    }

    lemma ShrunkIs(t: DTree, c: DCtx, f: DTree, e: Entry<RID>, sl: Slotting)
      requires Arrive(Top, t, e.key) == Spot(c, f) && f.Leaf?
      ensures Shrunk(t, e, sl) == if e in f.es then Rebalanced(c, Leaf(f.id, WithoutFirst(f.es, e)), sl) else t
      ensures e !in f.es ==> !BorrowCuts(t, e, sl)
    {
    }

    lemma RightLeavesAbove(st: Store, c: DCtx, f: DTree, lo: int, hi: int, key: int)
      requires InHole(st, c, f, lo, hi, 0) && f.Leaf? && Plug(c, f) == tree && key < CHi(c, hi)
      ensures forall j :: |LL(c)| < j < |Leaves(tree)| ==> Leaves(tree)[j].Leaf? && From(key + 1, Leaves(tree)[j].es)
    {
      forall j | |LL(c)| < j < |Leaves(tree)| ensures From(key + 1, Leaves(tree)[j].es) {
        BeyondHole(st, c, f, tree, j, lo, hi);
      }
    }

    lemma OpenLeaf(st: Store, c: DCtx, f: DTree, lo: int, hi: int)
      requires InHole(st, c, f, lo, hi, 0) && f.Leaf?
      ensures f.id in st.pages && HoldsLeaf(st.pages[f.id], f.es, CNext(c, -1), st.sl.leaf)
      ensures HoldsLeaf(st.pages[f.id], f.es, st.pages[f.id].nextLeaf, st.sl.leaf)
      ensures CNext(c, -1) == st.pages[f.id].nextLeaf
    {
      Open(st, c, f, lo, hi, 0);
    }

    /** An underfull leaf takes its right sibling's first entry, or all of the sibling's entries. */
    method RebalanceLeaf(leaf: int, hint: int, ghost c: DCtx, ghost g: DTree, ghost lo: int, ghost hi: int)
      requires g.Leaf? && g.id == leaf && leaf != root && InHole(St(), c, g, lo, hi, 0)
      requires CLo(c, lo) <= hint < CHi(c, hi)
      modifies this`pages, this`tree
      ensures Valid() && tree == Rebalanced(c, g, slots) && Contents(tree) == CL(c) + g.es + CR(c)
    {
      ghost var st := St();
      Neighbours(st, c, g, lo, hi);
      CHiFree(c, hint, hi);
      OpenLeaf(st, c, g, lo, hi);
      AtLeaf(st, c, g, lo, hi, 0);
      InHoleIsOverfull(st, c, g, lo, hi, 0);
      assert Contents(g) == g.es;
      hide Valid, InHole, Overfull, Hole, CL, CR, CLo, CHi, Contents, IdsC, WF, LeafOk, Free, Plug, ResetKids,
           MergeKids;
      var minKeys := LeafCapacity() / 2;
      var lp := pages[leaf];
      if lp.numKeys >= minKeys || lp.nextLeaf < 0 {
        Settle(c, g, lo, hi, 0);
        return;
      }
      var right := lp.nextLeaf;
      var parent := FindParent(leaf, hint, c, leaf, lo, hi, 0);
      var pp, ci, sameParent := lp, 0, false;
      if parent >= 0 {
        pp := pages[parent];
        ci := ChildSlotOf(pp, leaf);
        sameParent := ci < pp.numKeys && pp.kids[ci + 1] == right;
      }
      if !sameParent {
        Settle(c, g, lo, hi, 0);
        return;
      }
      if pages[right].numKeys > minKeys {
        Borrow(leaf, right, parent, ci, c, g, lo, hi);
      } else {
        Merge(leaf, right, parent, ci, c, g, lo, hi);
      }
    }

    /** What the pages of a leaf, its right sibling and their parent hold before they are rewritten. */
    ghost predicate Siblings(leaf: int, right: int, parent: int, ci: nat, c: DCtx, g: DTree, lo: int, hi: int)
      reads this
    {
      && InHole(St(), c, g, lo, hi, 0) && g.Leaf? && g.id == leaf
      && c.Down? && |c.kids| == |c.keys| + 1 && ci == c.i < |c.keys| && c.id == parent
      && c.kids[ci + 1].Leaf? && c.kids[ci + 1].id == right
      && leaf in pages && right in pages && parent in pages
      && HoldsLeaf(pages[leaf], g.es, right, slots.leaf)
      && HoldsLeaf(pages[right], c.kids[ci + 1].es, CNextOf(c, ci + 1, leaf, -1), slots.leaf)
      && HoldsInner(pages[parent], c.keys, slots.inner)
    }

    /** Move the right sibling's first entry to the leaf; the separator becomes the sibling's new first key. */
    method Borrow(leaf: int, right: int, parent: int, ci: nat, ghost c: DCtx, ghost g: DTree, ghost lo: int,
                  ghost hi: int)
      requires Siblings(leaf, right, parent, ci, c, g, lo, hi)
      requires |g.es| + 1 < slots.leaf && |c.kids[ci + 1].es| >= 2
      modifies this`pages, this`tree
      ensures Valid() && Contents(tree) == CL(c) + g.es + CR(c)
      ensures var r := c.kids[ci + 1];
        tree == Plug(c.up, ResetKids(c, Leaf(leaf, g.es + [r.es[0]]), r.es[1].key, Leaf(right, r.es[1..])))
    {
      hide Valid, InHole, CL, CR, Contents;
      ghost var st, r := St(), c.kids[ci + 1];
      var lp, rp, pp := pages[leaf], pages[right], pages[parent];
      lp := lp.(keys := lp.keys[lp.numKeys := rp.keys[0]], rids := lp.rids[lp.numKeys := rp.rids[0]],
                numKeys := lp.numKeys + 1);
      rp := LeafRemoveAt(rp, 0, r.es, slots.leaf);
      pp := pp.(keys := pp.keys[ci := rp.keys[0]]);
      pages := pages[leaf := lp][right := rp][parent := pp];
      assert r.es[..0] + r.es[1..] == r.es[1..];
      Borrowed(st, c, g, lp, rp, pp, lo, hi);
      ghost var t := ResetKids(c, Leaf(leaf, g.es + [r.es[0]]), r.es[1].key, Leaf(right, r.es[1..]));
      hide HoldsLeaf, Overfull;
      InHoleIsOverfull(St(), c.up, t, lo, hi, 1);
      Settle(c.up, t, lo, hi, 1);
    }

    /** Move all entries of the right sibling to the leaf and drop the sibling from the parent. */
    method Merge(leaf: int, right: int, parent: int, ci: nat, ghost c: DCtx, ghost g: DTree, ghost lo: int,
                 ghost hi: int)
      requires Siblings(leaf, right, parent, ci, c, g, lo, hi)
      requires |g.es| + |c.kids[ci + 1].es| < slots.leaf
      modifies this`pages, this`tree
      ensures Valid() && Contents(tree) == CL(c) + g.es + CR(c)
      ensures tree == Plug(c.up, MergeKids(c, Leaf(leaf, g.es + c.kids[ci + 1].es)))
    {
      hide Valid, InHole, CL, CR, Contents;
      ghost var st, r := St(), c.kids[ci + 1];
      var rp := pages[right];
      var lp := LeafAppend(pages[leaf], rp, 0, g.es, r.es, slots.leaf);
      lp := lp.(nextLeaf := rp.nextLeaf);
      var pp := InnerRemoveAt(pages[parent], ci, c.keys, slots.inner);
      pages := pages[leaf := lp][parent := pp];
      assert g.es + r.es[0..] == g.es + r.es;
      Merged(st, c, g, lp, pp, lo, hi);
      ghost var t := MergeKids(c, Leaf(leaf, g.es + r.es));
      hide HoldsLeaf, Overfull;
      InHoleIsOverfull(St(), c.up, t, lo, hi, 1);
      Settle(c.up, t, lo, hi, 1);
    }
  }
}
