/** How a page map represents a B+ tree, with its leaf chain, and a tree with a hole. */
module DiskTreePages {
  import opened Common
  import opened OrderedMap
  import opened BTreeTheory
  import opened DiskPage

  type DTree = Tree<int, RID>
  type DCtx = Ctx<int, RID>
  type Pages = map<int, Page>

  // The number of physical slots of a leaf and of an internal page.
  datatype Slotting = Slotting(leaf: nat, inner: nat)

  /** The page reached from the end of kid `j`: the next kid's first leaf, or what follows the node. */
  ghost function NextOf(kids: seq<DTree>, j: nat, nxt: int): int {
    if j + 1 < |kids| then First(kids[j + 1]) else nxt
  }

  ghost predicate KidIds(p: Page, kids: seq<DTree>) {
    && |kids| <= |p.kids|
    && forall i :: 0 <= i < |kids| ==> p.kids[i] == kids[i].id
  }

  /** Page `p` is the page of node `t` whose last leaf is followed by `nxt`. */
  ghost predicate Holds(p: Page, t: DTree, nxt: int, sl: Slotting) {
    match t
    case Leaf(_, es) => HoldsLeaf(p, es, nxt, sl.leaf)
    case Node(_, keys, kids) => HoldsInner(p, keys, sl.inner) && KidIds(p, kids)
  }

  /** Page map `pages` holds tree `t`, and the leaf after its last leaf is `nxt` (-1: none). */
  ghost predicate Rep(pages: Pages, t: DTree, nxt: int, sl: Slotting) {
    && t.id in pages
    && Holds(pages[t.id], t, nxt, sl)
    && (t.Node? ==> forall i :: 0 <= i < |t.kids| ==> Rep(pages, t.kids[i], NextOf(t.kids, i, nxt), sl))
  }

  lemma RepHead(pages: Pages, t: DTree, nxt: int, sl: Slotting)
    requires Rep(pages, t, nxt, sl)
    ensures t.id in pages && Holds(pages[t.id], t, nxt, sl)
  {
  }

  // What follows the hole of a context.
  ghost function CNext(c: DCtx, nxt: int): int {
    if c.Top? then nxt
    else if c.i + 1 < |c.kids| then First(c.kids[c.i + 1]) else CNext(c.up, nxt)
  }

  // The first leaf of a context's node when the hole's first leaf is `ff`.
  ghost function CFirst(c: DCtx, ff: int): int
    requires c.Down?
  {
    if c.i == 0 || c.kids == [] then ff else First(c.kids[0])
  }

  ghost function CNextOf(c: DCtx, j: nat, ff: int, nxt: int): int
    requires c.Down?
  {
    if j + 1 == c.i then ff
    else if j + 1 < |c.kids| then First(c.kids[j + 1]) else CNext(c.up, nxt)
  }

  /** Page map `pages` holds everything of `c` but the hole, whose root is `fid` and first leaf `ff`. */
  ghost predicate RepC(pages: Pages, c: DCtx, fid: int, ff: int, nxt: int, sl: Slotting) {
    c.Down? ==>
      && RepC(pages, c.up, c.id, CFirst(c, ff), nxt, sl)
      && c.id in pages
      && c.i < |c.kids|
      && HoldsInner(pages[c.id], c.keys, sl.inner)
      && |c.kids| <= |pages[c.id].kids|
      && pages[c.id].kids[c.i] == fid
      && (forall j :: 0 <= j < |c.kids| && j != c.i ==> pages[c.id].kids[j] == c.kids[j].id)
      && (forall j :: 0 <= j < |c.kids| && j != c.i ==> Rep(pages, c.kids[j], CNextOf(c, j, ff, nxt), sl))
  }

  lemma RepDown(pages: Pages, c: DCtx, t: DTree, i: nat, nxt: int, sl: Slotting)
    requires t.Node? && i < |t.kids|
    requires RepC(pages, c, t.id, First(t), nxt, sl) && Rep(pages, t, CNext(c, nxt), sl)
    ensures RepC(pages, Child(c, t, i), t.kids[i].id, First(t.kids[i]), nxt, sl)
    ensures Rep(pages, t.kids[i], CNext(Child(c, t, i), nxt), sl)
  {
    var d, ff := Child(c, t, i), First(t.kids[i]);
    assert CFirst(d, ff) == First(t);
    assert CNext(d, nxt) == NextOf(t.kids, i, CNext(c, nxt));
    forall j | 0 <= j < |d.kids| && j != i ensures Rep(pages, d.kids[j], CNextOf(d, j, ff, nxt), sl) {
      assert CNextOf(d, j, ff, nxt) == NextOf(t.kids, j, CNext(c, nxt));
      assert Rep(pages, t.kids[j], NextOf(t.kids, j, CNext(c, nxt)), sl);
    }
  }

  lemma RepUp(pages: Pages, c: DCtx, f: DTree, nxt: int, sl: Slotting)
    requires c.Down?
    requires RepC(pages, c, f.id, First(f), nxt, sl) && Rep(pages, f, CNext(c, nxt), sl)
    ensures var t := Node(c.id, c.keys, c.kids[c.i := f]);
      RepC(pages, c.up, t.id, First(t), nxt, sl) && Rep(pages, t, CNext(c.up, nxt), sl)
  {
    var t := Node(c.id, c.keys, c.kids[c.i := f]);
    forall j | 0 <= j < |t.kids|
      ensures Rep(pages, t.kids[j], NextOf(t.kids, j, CNext(c.up, nxt)), sl)
    {
      if j == c.i {
        assert NextOf(t.kids, j, CNext(c.up, nxt)) == CNext(c, nxt);
      } else {
        assert NextOf(t.kids, j, CNext(c.up, nxt)) == CNextOf(c, j, First(f), nxt);
      }
    }
  }

  lemma {:induction false} RepPlug(pages: Pages, c: DCtx, f: DTree, nxt: int, sl: Slotting)
    requires RepC(pages, c, f.id, First(f), nxt, sl) && Rep(pages, f, CNext(c, nxt), sl)
    ensures Rep(pages, Plug(c, f), nxt, sl)
    decreases c
  {
    if c.Down? {
      RepUp(pages, c, f, nxt, sl);
      RepPlug(pages, c.up, Node(c.id, c.keys, c.kids[c.i := f]), nxt, sl);
    }
  }

  /** The pages of `ids` are the same in both maps. */
  ghost predicate Same(pages: Pages, pages': Pages, ids: set<int>) {
    forall p :: p in ids && p in pages ==> p in pages' && pages'[p] == pages[p]
  }

  lemma {:induction false} RepFrame(pages: Pages, pages': Pages, t: DTree, nxt: int, sl: Slotting)
    requires Rep(pages, t, nxt, sl) && Same(pages, pages', Ids(t))
    ensures Rep(pages', t, nxt, sl)
    decreases t
  {
    match t
    case Leaf(id, _) =>
      assert Ids(t) == {id};
    case Node(id, _, kids) =>
      assert Ids(t) == {id} + IdsF(kids);
      forall i | 0 <= i < |t.kids| ensures Rep(pages', t.kids[i], NextOf(t.kids, i, nxt), sl) {
        IdsSplit(t.kids, i);
        RepFrame(pages, pages', t.kids[i], NextOf(t.kids, i, nxt), sl);
      }
  }

  lemma {:induction false} RepCFrame(pages: Pages, pages': Pages, c: DCtx, fid: int, ff: int, nxt: int, sl: Slotting)
    requires RepC(pages, c, fid, ff, nxt, sl) && Same(pages, pages', IdsC(c))
    ensures RepC(pages', c, fid, ff, nxt, sl)
    decreases c
  {
    if c.Down? {
      RepCFrame(pages, pages', c.up, c.id, CFirst(c, ff), nxt, sl);
      forall j | 0 <= j < |c.kids| && j != c.i ensures Rep(pages', c.kids[j], CNextOf(c, j, ff, nxt), sl) {
        IdsCKid(c, j);
        RepFrame(pages, pages', c.kids[j], CNextOf(c, j, ff, nxt), sl);
      }
    }
  }

  lemma {:induction false} FirstInIds(t: DTree)
    ensures First(t) in Ids(t)
    decreases t
  {
    if t.Node? && t.kids != [] { FirstInIds(t.kids[0]); }
  }

  // ---- the path from the root to the hole ----

  ghost function RootId(c: DCtx, fid: int): int {
    if c.Top? then fid else RootId(c.up, c.id)
  }

  lemma {:induction false} RootOfPlug(c: DCtx, f: DTree)
    ensures Plug(c, f).id == RootId(c, f.id)
    decreases c
  {
    if c.Down? { RootOfPlug(c.up, Node(c.id, c.keys, if c.i < |c.kids| then c.kids[c.i := f] else c.kids)); }
  }

  // The context of the k-th ancestor of the hole.
  ghost function Anc(c: DCtx, k: nat): DCtx {
    if k == 0 || c.Top? then c else Anc(c.up, k - 1)
  }

  // The child through which the path runs below the k-th ancestor.
  ghost function PathChild(c: DCtx, k: nat, fid: int): int {
    if k == 0 || c.Top? then fid else PathChild(c.up, k - 1, c.id)
  }

  lemma {:induction false} AncRoot(c: DCtx, k: nat, fid: int)
    requires k + 1 == Depth(c)
    ensures Anc(c, k).Down? && Anc(c, k).id == RootId(c, fid)
    decreases c
  {
    if k > 0 { AncRoot(c.up, k - 1, c.id); }
  }

  lemma {:induction false} PathIds(c: DCtx, k: nat, fid: int)
    requires Ok(c) && k < Depth(c)
    ensures Anc(c, k).Down? && Anc(c, k).id in IdsC(c)
    ensures k == 0 ==> PathChild(c, k, fid) == fid
    ensures k > 0 ==> Anc(c, k - 1).Down? && PathChild(c, k, fid) == Anc(c, k - 1).id && PathChild(c, k, fid) in IdsC(c)
    decreases c
  {
    if k > 0 {
      PathIds(c.up, k - 1, c.id);
    }
  }

  /** The page of the k-th ancestor of the hole: its separators left of the path are not greater than
      any key of the hole's range, and its children are the path's next page and the other kids. */
  lemma {:induction false} PathStep(pages: Pages, c: DCtx, k: nat, fid: int, ff: int, nxt: int, sl: Slotting,
                                    cp: Caps, lo: int, hi: int, hf: nat, hint: int)
    requires k < Depth(c) && RepC(pages, c, fid, ff, nxt, sl)
    requires lo < hi && WFC(c, cp, lo, hi, hf) && CLo(c, lo) <= hint
    ensures var d := Anc(c, k);
      && d.Down? && d.id in pages && HoldsInner(pages[d.id], d.keys, sl.inner)
      && d.i < |d.kids| == |d.keys| + 1 && |pages[d.id].kids| >= |d.kids|
      && (forall j :: 0 <= j < d.i ==> d.keys[j] <= hint)
      && pages[d.id].kids[d.i] == PathChild(c, k, fid)
      && (forall j :: 0 <= j < |d.kids| && j != d.i ==> pages[d.id].kids[j] == d.kids[j].id)
    decreases c
  {
    hide HoldsInner, CFirst;
    CRange(c, cp, lo, hi, hf);
    if k > 0 {
      PathStep(pages, c.up, k - 1, c.id, CFirst(c, ff), nxt, sl, cp, lo, hi, hf + 1, hint);
    }
  }

  /** Page map `pages` holds a well-shaped tree `t` that does not contain page `target`. */
  ghost predicate Astray(pages: Pages, t: DTree, target: int, sl: Slotting, cp: Caps) {
    && target !in Ids(t)
    && exists nxt, lo, hi, h :: Rep(pages, t, nxt, sl) && WF(t, cp, lo, hi, h)
  }

  // A kid of the k-th ancestor beside the path.
  lemma {:induction false} SideKid(pages: Pages, c: DCtx, k: nat, j: nat, fid: int, ff: int, nxt: int, sl: Slotting,
                                   cp: Caps, lo: int, hi: int, hf: nat, target: int)
    requires k < Depth(c) && RepC(pages, c, fid, ff, nxt, sl) && WFC(c, cp, lo, hi, hf) && target !in IdsC(c)
    requires Anc(c, k).Down? && j < |Anc(c, k).kids| && j != Anc(c, k).i
    ensures Astray(pages, Anc(c, k).kids[j], target, sl, cp)
    decreases c
  {
    hide Rep, WF, HoldsInner, CLo, CHi, CNext, First, Ids, IdsF, Astray, Between;
    if k > 0 {
      SideKid(pages, c.up, k - 1, j, c.id, CFirst(c, ff), nxt, sl, cp, lo, hi, hf + 1, target);
    } else {
      IdsCKid(c, j);
      IsAstray(pages, c.kids[j], target, CNextOf(c, j, ff, nxt), sl, cp,
               Lower(c.keys, j, CLo(c.up, lo)), Upper(c.keys, j, CHi(c.up, hi)), hf);
    }
  }

  lemma IsAstray(pages: Pages, t: DTree, target: int, nxt: int, sl: Slotting, cp: Caps, lo: int, hi: int, h: nat)
    requires target !in Ids(t) && Rep(pages, t, nxt, sl) && WF(t, cp, lo, hi, h)
    ensures Astray(pages, t, target, sl, cp)
  {
  }

  // The page of a tree that does not contain `target`, and its children.
  lemma AstrayPage(pages: Pages, t: DTree, target: int, sl: Slotting, cp: Caps)
    requires Astray(pages, t, target, sl, cp)
    ensures t.id in pages && pages[t.id].isLeaf == t.Leaf? && t.id != target
    ensures t.Node? ==>
      HoldsInner(pages[t.id], t.keys, sl.inner) && KidIds(pages[t.id], t.kids) && |t.kids| == |t.keys| + 1
  {
    var nxt, lo, hi, h :| Rep(pages, t, nxt, sl) && WF(t, cp, lo, hi, h);
    RepHead(pages, t, nxt, sl);
    assert Shape(t, cp, lo, hi, h);
  }

  lemma AstrayKid(pages: Pages, t: DTree, i: nat, target: int, sl: Slotting, cp: Caps)
    requires Astray(pages, t, target, sl, cp) && t.Node? && i < |t.kids|
    ensures Astray(pages, t.kids[i], target, sl, cp)
  {
    var nxt, lo, hi, h: nat :| Rep(pages, t, nxt, sl) && WF(t, cp, lo, hi, h);
    assert target !in Ids(t.kids[i]) by { IdsSplit(t.kids, i); }
    hide Ids, IdsF, HoldsInner, HoldsLeaf, Astray, Between;
    assert h > 0 by { assert Shape(t, cp, lo, hi, h); }
    IsAstray(pages, t.kids[i], target, NextOf(t.kids, i, nxt), sl, cp, Lower(t.keys, i, lo), Upper(t.keys, i, hi),
      h - 1);
  }

  // ---- separators that lead back to the hole ----

  /** The nearest separator right of the hole, if there is one, is greater than `key`. */
  ghost predicate Free(c: DCtx, key: int) {
    key < CHi(c, key + 1)
  }

  lemma {:induction false} CHiFree(c: DCtx, key: int, hi: int)
    requires key < CHi(c, hi)
    ensures Free(c, key)
    decreases c
  {
    if c.Down? && c.i >= |c.keys| { CHiFree(c.up, key, hi); }
  }

  lemma {:induction false} RightBound(c: DCtx, a: int, b: int)
    requires CHi(c, a) != a
    ensures CHi(c, b) == CHi(c, a)
    decreases c
  {
    if c.Down? && c.i >= |c.keys| { RightBound(c.up, a, b); }
  }

  // What blocks an ancestor blocks the hole.
  lemma {:induction false} FreeUp(c: DCtx, k: nat, key: int, cp: Caps, lo: int, hi: int, hf: nat)
    requires WFC(c, cp, lo, hi, hf) && Free(c, key)
    ensures Free(Anc(c, k), key)
    decreases c
  {
    if k > 0 && c.Down? {
      if !Free(c.up, key) { RightBound(c.up, key + 1, hi); }
      FreeUp(c.up, k - 1, key, cp, lo, hi, hf + 1);
    }
  }

  // ---- the leaf chain ----

  /** The leaves `ls` are chained through their next pointers, ending in `nxt`. */
  ghost predicate Chained(pages: Pages, ls: seq<DTree>, nxt: int, sl: Slotting) {
    forall i :: 0 <= i < |ls| ==>
      ls[i].Leaf? && ls[i].id in pages && HoldsLeaf(pages[ls[i].id], ls[i].es, NextOf(ls, i, nxt), sl.leaf)
  }

  lemma ChainedConcat(pages: Pages, a: seq<DTree>, b: seq<DTree>, nxt: int, sl: Slotting)
    requires b != [] && b[0].Leaf?
    requires Chained(pages, a, b[0].id, sl) && Chained(pages, b, nxt, sl)
    ensures Chained(pages, a + b, nxt, sl)
  {
    var s := a + b;
    forall i | 0 <= i < |s|
      ensures s[i].Leaf? && s[i].id in pages && HoldsLeaf(pages[s[i].id], s[i].es, NextOf(s, i, nxt), sl.leaf)
    {
      if i < |a| {
        assert s[i] == a[i] && NextOf(s, i, nxt) == NextOf(a, i, b[0].id);
      } else {
        assert s[i] == b[i - |a|] && NextOf(s, i, nxt) == NextOf(b, i - |a|, nxt);
      }
    }
  }

  /** In a represented tree the next pointers visit exactly the leaves, in key order. */
  lemma {:induction false} ChainOfTree(pages: Pages, t: DTree, nxt: int, sl: Slotting, cp: Caps, lo: int, hi: int,
                                       h: nat)
    requires Rep(pages, t, nxt, sl) && WF(t, cp, lo, hi, h)
    ensures Chained(pages, Leaves(t), nxt, sl)
    ensures |Leaves(t)| > 0 && Leaves(t)[0].id == First(t)
    decreases t, 0
  {
    if t.Node? {
      ChainOfForest(pages, t.kids, t.keys, nxt, sl, cp, lo, hi, h - 1);
    }
  }

  lemma {:induction false} ChainOfForest(pages: Pages, ts: seq<DTree>, keys: seq<int>, nxt: int, sl: Slotting,
                                         cp: Caps, lo: int, hi: int, h: nat)
    requires |ts| == |keys| + 1
    requires forall i :: 0 <= i < |ts| ==> Rep(pages, ts[i], NextOf(ts, i, nxt), sl)
    requires forall i :: 0 <= i < |ts| ==> WF(ts[i], cp, Lower(keys, i, lo), Upper(keys, i, hi), h)
    ensures Chained(pages, LeavesF(ts), nxt, sl)
    ensures |LeavesF(ts)| > 0 && LeavesF(ts)[0].id == First(ts[0])
    decreases ts, 1
  {
    ChainOfTree(pages, ts[0], NextOf(ts, 0, nxt), sl, cp, lo, Upper(keys, 0, hi), h);
    var rest := ts[1..];
    if keys == [] {
      assert LeavesF(rest) == [];
    } else {
      forall i | 0 <= i < |rest|
        ensures Rep(pages, rest[i], NextOf(rest, i, nxt), sl)
        ensures WF(rest[i], cp, Lower(keys[1..], i, keys[0]), Upper(keys[1..], i, hi), h)
      {
        assert rest[i] == ts[i + 1];
        assert NextOf(rest, i, nxt) == NextOf(ts, i + 1, nxt);
      }
      ChainOfForest(pages, rest, keys[1..], nxt, sl, cp, keys[0], hi, h);
      ChainedConcat(pages, Leaves(ts[0]), LeavesF(rest), nxt, sl);
    }
  }
}
