/** The states a disk B+ tree passes through during one operation, and the steps between them.

    At rest the store holds a whole tree (`Holding`).  While an insertion works its way up, one
    node stands in a hole of the tree: in place (`InHole`), one entry too large (`Overfull`), or
    already cut into two halves of which the parent knows only the left one (`Halves`).
 */
module DiskTreeStates {
  import opened Common
  import opened OrderedMap
  import opened BTreeTheory
  import opened BTreeSteps
  import opened EqualKeys
  import opened DiskPage
  import opened DiskTreePages
  import opened DiskTreeSteps

  /** The pages of the table, the next free page number, the index's root page and slot counts. */
  datatype Store = Store(pages: Pages, next: int, root: int, sl: Slotting)

  // At least three slots per page: two logical entries and the reserved overflow slot.
  ghost predicate Roomy(st: Store) {
    st.sl.leaf >= 3 && st.sl.inner >= 3
  }

  // Logical capacity is one below the physical slot count; a key may be filed more than once.
  ghost function Cap(sl: Slotting): Caps {
    Caps(if sl.leaf > 0 then sl.leaf - 1 else 0, if sl.inner > 0 then sl.inner - 1 else 0, false)
  }

  ghost predicate Allocated(st: Store, ids: set<int>) {
    && 0 <= st.next
    && (forall p :: p in ids ==> 0 <= p < st.next)
    && forall p :: p in st.pages ==> p < st.next
  }

  /** The store holds tree `t`: balanced, ordered, within capacity, its leaves chained in order. */
  ghost predicate Holding(st: Store, t: DTree, lo: int, hi: int, h: nat) {
    && Roomy(st)
    && t.id == st.root
    && WF(t, Cap(st.sl), lo, hi, h)
    && Rep(st.pages, t, -1, st.sl)
    && Distinct(t)
    && Allocated(st, Ids(t))
  }

  /** Everything around the hole `c` is in place; the hole's root page is `fid`, its first leaf `ff`. */
  ghost predicate Hole(st: Store, c: DCtx, fid: int, ff: int, lo: int, hi: int, hf: nat) {
    && Roomy(st)
    && lo < hi
    && WFC(c, Cap(st.sl), lo, hi, hf)
    && DistinctC(c)
    && RepC(st.pages, c, fid, ff, -1, st.sl)
    && RootId(c, fid) == st.root
  }

  /** A node is in place, ordered and complete, but may hold one entry or separator too many. */
  ghost predicate Overfull(st: Store, c: DCtx, t: DTree, lo: int, hi: int, hf: nat) {
    && Hole(st, c, t.id, First(t), lo, hi, hf)
    && Shape(t, Cap(st.sl), CLo(c, lo), CHi(c, hi), hf)
    && Rep(st.pages, t, CNext(c, -1), st.sl)
    && Distinct(t) && IdsC(c) !! Ids(t)
    && Allocated(st, IdsC(c) + Ids(t))
  }

  ghost predicate InHole(st: Store, c: DCtx, t: DTree, lo: int, hi: int, hf: nat) {
    Overfull(st, c, t, lo, hi, hf) && Fits(t, Cap(st.sl))
  }

  /** Two halves stand where one node was; the right one is not yet in the parent. */
  ghost predicate Halves(st: Store, c: DCtx, l: DTree, key: int, r: DTree, lo: int, hi: int, hf: nat) {
    && Hole(st, c, l.id, First(l), lo, hi, hf)
    && CLo(c, lo) <= key <= CHi(c, hi)
    && WF(l, Cap(st.sl), CLo(c, lo), key, hf) && WF(r, Cap(st.sl), key, CHi(c, hi), hf)
    && Rep(st.pages, l, First(r), st.sl) && Rep(st.pages, r, CNext(c, -1), st.sl)
    && Distinct(l) && Distinct(r) && Ids(l) !! Ids(r) && IdsC(c) !! Ids(l) && IdsC(c) !! Ids(r)
    && Allocated(st, IdsC(c) + Ids(l) + Ids(r))
  }

  // ---- entering and leaving a hole ----

  lemma Whole(st: Store, t: DTree, lo: int, hi: int, h: nat)
    requires Holding(st, t, lo, hi, h) && lo < hi
    ensures InHole(st, Top, t, lo, hi, h)
  {
  }

  lemma Close(st: Store, c: DCtx, t: DTree, lo: int, hi: int, hf: nat)
    requires InHole(st, c, t, lo, hi, hf)
    ensures Holding(st, Plug(c, t), lo, hi, hf + Depth(c))
    ensures Contents(Plug(c, t)) == CL(c) + Contents(t) + CR(c)
  {
    hide Rep, RepC, WFC, Shape, Fits, DistinctC, Distinct, Ids, IdsC, Contents, CL, CR, Plug;
    WFCOk(c, Cap(st.sl), lo, hi, hf);
    WFPlug(c, t, Cap(st.sl), lo, hi, hf);
    RepPlug(st.pages, c, t, -1, st.sl);
    RootOfPlug(c, t);
    DistinctPlug(c, t);
    ContentsPlug(c, t);
  }

  /** What the page of a node in place looks like. */
  lemma Open(st: Store, c: DCtx, t: DTree, lo: int, hi: int, hf: nat)
    requires Overfull(st, c, t, lo, hi, hf)
    ensures Roomy(st) && 0 <= t.id < st.next && t.id in st.pages
    ensures forall p :: p in st.pages ==> p < st.next
    ensures st.pages[t.id].isLeaf == t.Leaf? && Holds(st.pages[t.id], t, CNext(c, -1), st.sl)
    ensures !t.Leaf? ==> (
      && t.Node? && |t.kids| == |t.keys| + 1
      && HoldsInner(st.pages[t.id], t.keys, st.sl.inner) && KidIds(st.pages[t.id], t.kids))
    ensures lo <= CLo(c, lo) <= CHi(c, hi) <= hi
  {
    hide RepC, WFC, DistinctC, Distinct, IdsC;
    CRange(c, Cap(st.sl), lo, hi, hf);
    RepHead(st.pages, t, CNext(c, -1), st.sl);
  }

  lemma InHoleIsOverfull(st: Store, c: DCtx, t: DTree, lo: int, hi: int, hf: nat)
    requires InHole(st, c, t, lo, hi, hf)
    ensures Overfull(st, c, t, lo, hi, hf) && Fits(t, Cap(st.sl))
  {
  }

  lemma Fitting(st: Store, c: DCtx, t: DTree, lo: int, hi: int, hf: nat)
    requires Overfull(st, c, t, lo, hi, hf) && Fits(t, Cap(st.sl))
    ensures InHole(st, c, t, lo, hi, hf)
  {
  }

  lemma AtLeaf(st: Store, c: DCtx, t: DTree, lo: int, hi: int, hf: nat)
    requires InHole(st, c, t, lo, hi, hf) && t.Leaf?
    ensures hf == 0 && InHole(st, c, t, lo, hi, 0)
    ensures LeafOk(t.es, CLo(c, lo), CHi(c, hi), false) && |t.es| < st.sl.leaf
  {
    hide Rep, RepC, WFC, DistinctC, Distinct, Ids, IdsC;
  }

  /** Stepping from a node in place to the child that a key routes to. */
  lemma Descend(st: Store, c: DCtx, t: DTree, i: nat, key: int, lo: int, hi: int, hf: nat)
    requires InHole(st, c, t, lo, hi, hf) && t.Node? && i < |t.kids| == |t.keys| + 1
    requires CLo(c, lo) <= key < CHi(c, hi)
    requires forall j :: 0 <= j < i ==> t.keys[j] <= key
    requires i < |t.keys| ==> key < t.keys[i]
    ensures hf > 0 && InHole(st, Child(c, t, i), t.kids[i], lo, hi, hf - 1)
    ensures CLo(Child(c, t, i), lo) <= key < CHi(Child(c, t, i), hi)
    ensures Plug(Child(c, t, i), t.kids[i]) == Plug(c, t)
  {
    StepInto(st, c, t, i, lo, hi, hf);
  }

  /** Stepping from a node in place to any of its children. */
  lemma StepInto(st: Store, c: DCtx, t: DTree, i: nat, lo: int, hi: int, hf: nat)
    requires InHole(st, c, t, lo, hi, hf) && t.Node? && i < |t.kids| == |t.keys| + 1
    ensures hf > 0 && InHole(st, Child(c, t, i), t.kids[i], lo, hi, hf - 1)
    ensures Plug(Child(c, t, i), t.kids[i]) == Plug(c, t)
  {
    assert WF(t, Cap(st.sl), CLo(c, lo), CHi(c, hi), hf);
    WFDown(c, t, i, Cap(st.sl), lo, hi, hf);
    RepDown(st.pages, c, t, i, -1, st.sl);
    DistinctDown(c, t, i);
    assert t.kids[i := t.kids[i]] == t.kids;
    assert WF(t.kids[i], Cap(st.sl), CLo(Child(c, t, i), lo), CHi(Child(c, t, i), hi), hf - 1);
  }

  // ---- insertion ----

  // A hole is unaffected by writes to pages outside its context.
  lemma HoleFrame(st: Store, st': Store, c: DCtx, fid: int, ff: int, lo: int, hi: int, hf: nat)
    requires Hole(st, c, fid, ff, lo, hi, hf) && st'.root == st.root && st'.sl == st.sl
    requires Same(st.pages, st'.pages, IdsC(c))
    ensures Hole(st', c, fid, ff, lo, hi, hf)
  {
    hide WFC, DistinctC, RepC, RootId, CLo, CHi, IdsC;
    RepCFrame(st.pages, st'.pages, c, fid, ff, -1, st.sl);
  }

  lemma HoleRange(st: Store, c: DCtx, fid: int, ff: int, lo: int, hi: int, hf: nat)
    requires Hole(st, c, fid, ff, lo, hi, hf)
    ensures Roomy(st) && lo <= CLo(c, lo) <= CHi(c, hi) <= hi
  {
    CRange(c, Cap(st.sl), lo, hi, hf);
  }

  lemma LeafWF(id: int, es: seq<Entry<RID>>, cp: Caps, lo: int, hi: int)
    requires LeafOk(es, lo, hi, false) && |es| <= cp.leaf && !cp.unique
    ensures WF(Leaf(id, es), cp, lo, hi, 0)
  {
  }

  // Writing the page of an allocated node, and taking the next free page.
  lemma AllocatedWrite(st: Store, id: int, q: Page, ids: set<int>, ids': set<int>)
    requires Allocated(st, ids) && id in ids && ids' <= ids
    ensures Allocated(st.(pages := st.pages[id := q]), ids')
  {
  }

  lemma AllocatedNew(st: Store, id: int, p: Page, q: Page, ids: set<int>, ids': set<int>)
    requires Allocated(st, ids) && id in ids && ids' <= ids + {st.next}
    ensures Allocated(st.(pages := st.pages[id := p][st.next := q], next := st.next + 1), ids')
  {
  }

  /** Rewriting only the page of the leaf in the hole keeps everything else in place. */
  lemma LeafChanged(st: Store, c: DCtx, f: DTree, q: Page, es: seq<Entry<RID>>, lo: int, hi: int)
    requires InHole(st, c, f, lo, hi, 0) && f.Leaf?
    requires HoldsLeaf(q, es, CNext(c, -1), st.sl.leaf)
    requires LeafOk(es, CLo(c, lo), CHi(c, hi), false)
    ensures Overfull(st.(pages := st.pages[f.id := q]), c, Leaf(f.id, es), lo, hi, 0)
  {
    var g, st' := Leaf(f.id, es), st.(pages := st.pages[f.id := q]);
    hide Hole, LeafOk, HoldsLeaf;
    HoleFrame(st, st', c, f.id, f.id, lo, hi, 0);
    HoleRange(st, c, f.id, f.id, lo, hi, 0);
    assert Hole(st', c, g.id, First(g), lo, hi, 0);
    assert Shape(g, Cap(st'.sl), CLo(c, lo), CHi(c, hi), 0);
    assert Rep(st'.pages, g, CNext(c, -1), st'.sl);
    assert Ids(g) == Ids(f);
  }

  /** Cutting an overfull leaf at `mid`: both halves are non-empty and fit. */
  lemma LeafHalves(st: Store, c: DCtx, g: DTree, mid: nat, p: Page, q: Page, lo: int, hi: int)
    requires Overfull(st, c, g, lo, hi, 0) && g.Leaf? && |g.es| == st.sl.leaf && mid == |g.es| / 2
    requires HoldsLeaf(p, g.es[..mid], st.next, st.sl.leaf)
    requires HoldsLeaf(q, g.es[mid..], CNext(c, -1), st.sl.leaf)
    ensures Halves(st.(pages := st.pages[g.id := p][st.next := q], next := st.next + 1),
                   c, Leaf(g.id, g.es[..mid]), g.es[mid].key, Leaf(st.next, g.es[mid..]), lo, hi, 0)
  {
    var l, r := Leaf(g.id, g.es[..mid]), Leaf(st.next, g.es[mid..]);
    var st' := st.(pages := st.pages[g.id := p][st.next := q], next := st.next + 1);
    assert g.id !in IdsC(c) && st.next !in IdsC(c) && st.next != g.id;
    AtCut(st, c, g, mid, lo, hi);
    hide Hole, HoldsLeaf, WF, Shape, LeafOk, Allocated, IdsC, CLo, CHi, CNext;
    HoleFrame(st, st', c, g.id, g.id, lo, hi, 0);
    HoleRange(st, c, g.id, g.id, lo, hi, 0);
    assert Hole(st', c, l.id, First(l), lo, hi, 0);
    LeafWF(g.id, g.es[..mid], Cap(st'.sl), CLo(c, lo), g.es[mid].key);
    LeafWF(st.next, g.es[mid..], Cap(st'.sl), g.es[mid].key, CHi(c, hi));
    AllocatedNew(st, g.id, p, q, IdsC(c) + Ids(g), IdsC(c) + {g.id} + {st.next});
    assert Rep(st'.pages, l, First(r), st'.sl) && Rep(st'.pages, r, CNext(c, -1), st'.sl);
    assert Ids(l) == {g.id} && Ids(r) == {st.next};
  }

  lemma AtCut(st: Store, c: DCtx, g: DTree, mid: nat, lo: int, hi: int)
    requires Overfull(st, c, g, lo, hi, 0) && g.Leaf? && 0 < mid < |g.es|
    ensures var key := g.es[mid].key;
      && LeafOk(g.es[..mid], CLo(c, lo), key, false) && LeafOk(g.es[mid..], key, CHi(c, hi), false)
      && CLo(c, lo) <= key <= CHi(c, hi)
  {
    hide Hole, Rep, CLo, CHi;
  }

  // ---- the path from the root to the hole ----

  /** The root page is the topmost page of the path, or the hole itself. */
  lemma PathRoot(st: Store, c: DCtx, fid: int, ff: int, lo: int, hi: int, hf: nat)
    requires Hole(st, c, fid, ff, lo, hi, hf) && fid !in IdsC(c)
    ensures c.Top? <==> st.root == fid
    ensures c.Down? ==> Depth(c) > 0 && Anc(c, Depth(c) - 1).Down? && Anc(c, Depth(c) - 1).id == st.root
  {
    if c.Down? {
      WFCOk(c, Cap(st.sl), lo, hi, hf);
      AncRoot(c, Depth(c) - 1, fid);
      PathIds(c, Depth(c) - 1, fid);
    }
  }

  /** The position in `keys` that a key is routed to. */
  ghost predicate Routes(keys: seq<int>, hint: int, idx: nat) {
    && idx <= |keys|
    && (forall j :: 0 <= j < idx ==> keys[j] <= hint)
    && (idx < |keys| ==> hint < keys[idx])
  }

  lemma RoutesOnce(keys: seq<int>, hint: int, a: nat, b: nat)
    requires Routes(keys, hint, a) && Routes(keys, hint, b)
    ensures a == b
  {
  }

  /** The k-th ancestor of the hole is an internal page. */
  lemma Waypoint(st: Store, c: DCtx, k: nat, fid: int, ff: int, lo: int, hi: int, hf: nat)
    requires Hole(st, c, fid, ff, lo, hi, hf) && fid !in IdsC(c) && k < Depth(c)
    ensures Anc(c, k).Down? && Anc(c, k).id in st.pages
    ensures var p := st.pages[Anc(c, k).id];
      !p.isLeaf && p.numKeys <= |p.keys| && p.numKeys < |p.kids|
    ensures k == 0 ==> Anc(c, k).id == c.id
    ensures k > 0 ==> Anc(c, k - 1).Down? && Anc(c, k - 1).id != fid
  {
    WFCOk(c, Cap(st.sl), lo, hi, hf);
    PathIds(c, k, fid);
    CRange(c, Cap(st.sl), lo, hi, hf);
    PathStep(st.pages, c, k, fid, ff, -1, st.sl, Cap(st.sl), lo, hi, hf, CLo(c, lo));
  }

  /** Routing a key of the hole's range through the k-th ancestor leads one page down the path, unless
      a separator right of the path is not greater than the key. */
  lemma OneStepDown(st: Store, c: DCtx, k: nat, fid: int, ff: int, lo: int, hi: int, hf: nat, hint: int, p: Page,
                    idx: nat)
    requires Hole(st, c, fid, ff, lo, hi, hf) && fid !in IdsC(c) && k < Depth(c)
    requires CLo(c, lo) <= hint && Free(Anc(c, k + 1), hint)
    requires Anc(c, k).Down? && Anc(c, k).id in st.pages && p == st.pages[Anc(c, k).id]
    requires p.numKeys <= |p.keys| && idx <= p.numKeys < |p.kids| && Routes(p.keys[..p.numKeys], hint, idx)
    requires k > 0 ==> Anc(c, k - 1).Down?
    ensures var d := Anc(c, k);
      && d.i < |d.kids| == p.numKeys + 1
      && (idx == d.i <==> Free(d, hint))
      && (idx == d.i ==> p.kids[idx] == if k == 0 then fid else Anc(c, k - 1).id)
      && (idx != d.i ==> p.kids[idx] == d.kids[idx].id && Astray(st.pages, d.kids[idx], fid, st.sl, Cap(st.sl)))
  {
    WFCOk(c, Cap(st.sl), lo, hi, hf);
    PathIds(c, k, fid);
    PathStep(st.pages, c, k, fid, ff, -1, st.sl, Cap(st.sl), lo, hi, hf, hint);
    var d := Anc(c, k);
    assert p.keys[..p.numKeys] == d.keys;
    AncUp(c, k);
    hide Hole, Astray, WFC, RepC, HoldsInner, PathChild, Anc, Ok;
    if idx == d.i {
      assert Free(d, hint);
    } else {
      assert !(hint < p.keys[..p.numKeys][d.i]);
      AsideKid(st, c, k, idx, fid, ff, lo, hi, hf);
    }
  }

  lemma AncUp(c: DCtx, k: nat)
    requires k < Depth(c) && Anc(c, k).Down?
    ensures Anc(c, k).up == Anc(c, k + 1)
    decreases c
  {
    if k > 0 { AncUp(c.up, k - 1); }
  }

  lemma AsideKid(st: Store, c: DCtx, k: nat, j: nat, fid: int, ff: int, lo: int, hi: int, hf: nat)
    requires Hole(st, c, fid, ff, lo, hi, hf) && fid !in IdsC(c) && k < Depth(c)
    requires Anc(c, k).Down? && j < |Anc(c, k).kids| && j != Anc(c, k).i
    ensures Astray(st.pages, Anc(c, k).kids[j], fid, st.sl, Cap(st.sl))
  {
    SideKid(st.pages, c, k, j, fid, ff, -1, st.sl, Cap(st.sl), lo, hi, hf, fid);
  }

  lemma FreeAbove(st: Store, c: DCtx, k: nat, fid: int, ff: int, lo: int, hi: int, hf: nat, hint: int)
    requires Hole(st, c, fid, ff, lo, hi, hf) && Free(c, hint)
    ensures Free(Anc(c, k), hint)
  {
    FreeUp(c, k, hint, Cap(st.sl), lo, hi, hf);
  }

  lemma OpenHalves(st: Store, c: DCtx, l: DTree, key: int, r: DTree, lo: int, hi: int, hf: nat)
    requires Halves(st, c, l, key, r, lo, hi, hf)
    ensures Hole(st, c, l.id, First(l), lo, hi, hf) && l.id !in IdsC(c) && CLo(c, lo) <= key && Knit(c)
    ensures l.id == st.root ==> c.Top?
    ensures l.id != st.root ==> (
      && c.Down? && |c.kids| == |c.keys| + 1 && c.i < |c.kids| && |c.keys| < st.sl.inner
      && c.id in st.pages && HoldsInner(st.pages[c.id], c.keys, st.sl.inner)
      && st.pages[c.id].kids[c.i] == l.id
      && forall j :: 0 <= j < |c.kids| && j != c.i ==> st.pages[c.id].kids[j] != l.id)
  {
    assert IdsC(c) !! Ids(l) && l.id in Ids(l);
    PathRoot(st, c, l.id, First(l), lo, hi, hf);
    WFCKnit(c, Cap(st.sl), lo, hi, hf);
    if c.Down? {
      ParentPage(st, c, l.id, First(l), lo, hi, hf);
    }
  }

  /** The page above a hole. */
  lemma ParentPage(st: Store, c: DCtx, fid: int, ff: int, lo: int, hi: int, hf: nat)
    requires Hole(st, c, fid, ff, lo, hi, hf) && fid !in IdsC(c) && c.Down?
    ensures |c.kids| == |c.keys| + 1 && c.i < |c.kids| && |c.keys| < st.sl.inner
    ensures c.id in st.pages && HoldsInner(st.pages[c.id], c.keys, st.sl.inner)
    ensures st.pages[c.id].kids[c.i] == fid
    ensures forall j :: 0 <= j < |c.kids| && j != c.i ==> st.pages[c.id].kids[j] != fid
  {
    hide Rep, WF, DistinctC, Distinct;
    forall j | 0 <= j < |c.kids| && j != c.i ensures c.kids[j].id != fid {
      IdsCKid(c, j);
    }
  }

  /** Recording the right half in the parent's page yields the parent with one more child. */
  lemma KidInserted(st: Store, c: DCtx, l: DTree, key: int, r: DTree, q: Page, lo: int, hi: int, hf: nat)
    requires Halves(st, c, l, key, r, lo, hi, hf) && c.Down? && c.i < |c.kids| == |c.keys| + 1
    requires c.id in st.pages && GainsKid(q, st.pages[c.id], c, key, r.id, st.sl)
    ensures Overfull(st.(pages := st.pages[c.id := q]), c.up, InsertKid(c, l, key, r), lo, hi, hf + 1)
  {
    var st', t := st.(pages := st.pages[c.id := q]), InsertKid(c, l, key, r);
    UpFacts(st, c, l.id, First(l), lo, hi, hf);
    assert t.id == c.id;
    hide GainsKid, InsertKid, Rep, RepC, WF, WFC, Shape, Distinct, DistinctC, Ids, IdsC, CLo, CHi, CNext, RootId, First;
    assert c.id !in Ids(l) && c.id !in Ids(r);
    assert RepC(st'.pages, c.up, t.id, First(t), -1, st.sl) && Rep(st'.pages, t, CNext(c.up, -1), st.sl) by {
      RepInsert(st.pages, c, l, key, r, q, -1, st.sl);
    }
    hide HoldsInner;
    InsertKidDistinct(c, l, key, r);
    assert Allocated(st', IdsC(c.up) + Ids(t)) by {
      AllocatedWrite(st, c.id, q, IdsC(c) + Ids(l) + Ids(r), IdsC(c.up) + Ids(t));
    }
    hide Allocated;
    assert Shape(t, Cap(st.sl), CLo(c.up, lo), CHi(c.up, hi), hf + 1) by {
      InsertKidShape(c, l, key, r, Cap(st.sl), lo, hi, hf);
    }
    assert Hole(st', c.up, t.id, First(t), lo, hi, hf + 1);
  }

  // What a hole says about the hole one level up.
  lemma UpFacts(st: Store, c: DCtx, fid: int, ff: int, lo: int, hi: int, hf: nat)
    requires Hole(st, c, fid, ff, lo, hi, hf) && c.Down?
    ensures c.id in IdsC(c) && c.i < |c.kids| == |c.keys| + 1
    ensures WFC(c.up, Cap(st.sl), lo, hi, hf + 1) && DistinctC(c.up) && RootId(c.up, c.id) == st.root
  {
  }

  /** Cutting an overfull internal node at `mid`. */
  lemma InnerHalves(st: Store, c: DCtx, t: DTree, mid: nat, q: Page, lo: int, hi: int, hf: nat)
    requires Overfull(st, c, t, lo, hi, hf) && t.Node? && |t.keys| == st.sl.inner && |t.kids| == |t.keys| + 1
    requires mid == |t.keys| / 2 < |t.keys| && t.id in st.pages
    requires HoldsInner(q, t.keys[mid + 1..], st.sl.inner)
    requires |t.kids| <= |st.pages[t.id].kids|
    requires q.kids[..|t.keys| - mid] == st.pages[t.id].kids[mid + 1..|t.kids|]
    ensures Halves(st.(pages := st.pages[t.id := st.pages[t.id].(numKeys := mid)][st.next := q], next := st.next + 1),
                   c, LeftHalf(t, mid), t.keys[mid], RightHalf(t, mid, st.next), lo, hi, hf)
  {
    hide Hole, Rep, WF, Shape, Distinct, DistinctF, Ids, IdsF, IdsC, CLo, CHi, CNext, First, HoldsInner;
    var l, r := LeftHalf(t, mid), RightHalf(t, mid, st.next);
    var st' := st.(pages := st.pages[t.id := st.pages[t.id].(numKeys := mid)][st.next := q], next := st.next + 1);
    MiddleKey(st, c, t, mid, lo, hi, hf);
    HoleFrame(st, st', c, t.id, First(t), lo, hi, hf);
    hide RepC, WFC, DistinctC, RootId;
    SplitDistinct(t, mid, st.next);
    assert Allocated(st', IdsC(c) + Ids(l) + Ids(r)) by {
      AllocatedNew(st, t.id, st.pages[t.id].(numKeys := mid), q, IdsC(c) + Ids(t), IdsC(c) + Ids(l) + Ids(r));
    }
    assert IdsC(c) !! Ids(l) && IdsC(c) !! Ids(r);
    hide Allocated;
    RepSplit(st.pages, t, mid, st.next, q, CNext(c, -1), st.sl);
    SplitShape(t, mid, st.next, Cap(st.sl), CLo(c, lo), CHi(c, hi), hf);
  }

  lemma MiddleKey(st: Store, c: DCtx, t: DTree, mid: nat, lo: int, hi: int, hf: nat)
    requires Overfull(st, c, t, lo, hi, hf) && t.Node? && mid < |t.keys| < |t.kids|
    ensures t.id in Ids(t) && First(LeftHalf(t, mid)) == First(t)
    ensures CLo(c, lo) <= t.keys[mid] <= CHi(c, hi) && st.next !in Ids(t) && st.next !in IdsC(c) && t.id !in IdsC(c)
  {
  }

  /** The root's content moves to page `st.next`; the root page becomes the node above both halves. */
  lemma RootGrown(st: Store, l: DTree, key: int, r: DTree, q: Page, lo: int, hi: int, h: nat)
    requires Halves(st, Top, l, key, r, lo, hi, h) && l.id == st.root && l.id in st.pages
    requires HoldsInner(q, [key], st.sl.inner) && q.kids[..2] == [st.next, r.id]
    ensures var t := Node(st.root, [key], [Rename(l, st.next), r]);
      && Holding(st.(pages := st.pages[st.next := st.pages[l.id]][l.id := q], next := st.next + 1), t, lo, hi, h + 1)
      && Contents(t) == Contents(l) + Contents(r)
  {
    var l' := Rename(l, st.next);
    var pages1 := st.pages[st.next := st.pages[l.id]];
    RepRename(st.pages, l, st.next, First(r), st.sl);
    RepFrame(st.pages, pages1, r, -1, st.sl);
    RepGrow(pages1, l', key, r, st.root, q, st.sl);
    assert WF(l', Cap(st.sl), lo, key, h) by { assert Shape(l, Cap(st.sl), lo, key, h); }
    GrowRoot(l', key, r, st.root, Cap(st.sl), lo, hi, h);
  }

  // ---- deletion ----

  /** A leaf and the next child of the same parent, both in place. */
  lemma Neighbours(st: Store, c: DCtx, f: DTree, lo: int, hi: int)
    requires InHole(st, c, f, lo, hi, 0) && f.Leaf? && f.id != st.root
    ensures c.Down? && |c.kids| == |c.keys| + 1 && c.i < |c.kids| && |c.keys| < st.sl.inner
    ensures c.id in st.pages && HoldsInner(st.pages[c.id], c.keys, st.sl.inner)
    ensures st.pages[c.id].kids[c.i] == f.id
    ensures forall j :: 0 <= j < |c.kids| && j != c.i ==> st.pages[c.id].kids[j] != f.id
    ensures f.id !in IdsC(c) && Hole(st, c, f.id, f.id, lo, hi, 0)
    ensures c.i < |c.keys| ==>
      var right := c.kids[c.i + 1];
      && right.Leaf? && st.pages[c.id].kids[c.i + 1] == right.id == CNext(c, -1)
      && right.id in st.pages && right.id != f.id && right.id != c.id && c.id != f.id
      && HoldsLeaf(st.pages[right.id], right.es, CNextOf(c, c.i + 1, f.id, -1), st.sl.leaf)
      && WF(right, Cap(st.sl), c.keys[c.i], Upper(c.keys, c.i + 1, CHi(c.up, hi)), 0)
  {
    hide Distinct;
    if c.Down? {
      forall j | 0 <= j < |c.kids| && j != c.i ensures c.kids[j].id != f.id {
        IdsCKid(c, j);
      }
      if c.i < |c.keys| {
        var right := c.kids[c.i + 1];
        KidAvoids(c, c.i + 1);
        assert Shape(right, Cap(st.sl), c.keys[c.i], Upper(c.keys, c.i + 1, CHi(c.up, hi)), 0);
        assert Rep(st.pages, right, CNextOf(c, c.i + 1, f.id, -1), st.sl);
      }
    }
  }

  /** The first entry of the right neighbour moved to the end of the leaf; the separator follows. */
  lemma Borrowed(st: Store, c: DCtx, f: DTree, p: Page, q: Page, u: Page, lo: int, hi: int)
    requires InHole(st, c, f, lo, hi, 0) && f.Leaf? && c.Down? && c.i < |c.keys| && |c.kids| == |c.keys| + 1
    requires var r := c.kids[c.i + 1];
      && r.Leaf? && |r.es| >= 2 && |f.es| + 1 < st.sl.leaf && c.id in st.pages && r.id in st.pages
      && HoldsLeaf(p, f.es + [r.es[0]], r.id, st.sl.leaf)
      && HoldsLeaf(q, r.es[1..], st.pages[r.id].nextLeaf, st.sl.leaf)
      && c.i < |st.pages[c.id].keys|
      && u == st.pages[c.id].(keys := st.pages[c.id].keys[c.i := r.es[1].key])
    ensures var r := c.kids[c.i + 1];
      var t := ResetKids(c, Leaf(f.id, f.es + [r.es[0]]), r.es[1].key, Leaf(r.id, r.es[1..]));
      && InHole(st.(pages := st.pages[f.id := p][r.id := q][c.id := u]), c.up, t, lo, hi, 1)
      && CL(c.up) + Contents(t) + CR(c.up) == CL(c) + f.es + CR(c)
  {
    var r := c.kids[c.i + 1];
    var l', r' := Leaf(f.id, f.es + [r.es[0]]), Leaf(r.id, r.es[1..]);
    var key, top := r.es[1].key, Upper(c.keys, c.i + 1, CHi(c.up, hi));
    var t := ResetKids(c, l', key, r');
    var st' := st.(pages := st.pages[f.id := p][r.id := q][c.id := u]);
    UpFacts(st, c, f.id, f.id, lo, hi, 0);
    RightLeaf(st, c, f, lo, hi);
    HoleRange(st, c, f.id, f.id, lo, hi, 0);
    BorrowedShape(f.es, r.es, CLo(c, lo), c.keys[c.i], top);
    assert CLo(c, lo) <= key <= top;
    assert t.id == c.id && f.id !in IdsC(c) && Ids(l') == Ids(f) && Ids(r') == Ids(r);
    assert |r.es| <= Cap(st.sl).leaf by { WFKid(st, c, c.i + 1, lo, hi); }
    hide Rep, RepC, WFC, Shape, DistinctC, Ids, IdsC, CNext, RootId, First;
    LeafWF(f.id, f.es + [r.es[0]], Cap(st.sl), CLo(c, lo), key);
    LeafWF(r.id, r.es[1..], Cap(st.sl), key, top);
    ResetKidsOk(c, l', key, r', Cap(st.sl), lo, hi, 0);
    assert RepC(st'.pages, c.up, t.id, First(t), -1, st.sl) && Rep(st'.pages, t, CNext(c.up, -1), st.sl) by {
      RepReset(st.pages, st'.pages, c, l', key, r', -1, st.sl);
    }
    hide HoldsLeaf, WF, CLo, CHi, LeafOk;
    ResetKidsDistinct(c, l', key, r');
    assert Allocated(st', IdsC(c.up) + Ids(t)) by {
      AllocatedTwo(st, f.id, p, r.id, q, IdsC(c) + Ids(f), IdsC(c) + Ids(f));
      AllocatedWrite(st.(pages := st.pages[f.id := p][r.id := q]), c.id, u, IdsC(c) + Ids(f), IdsC(c.up) + Ids(t));
    }
    hide Allocated;
    assert Hole(st', c.up, t.id, First(t), lo, hi, 1);
    BorrowedContents(c, l', key, r', f.es);
  }

  lemma BorrowedContents(c: DCtx, l: DTree, key: int, r: DTree, es: seq<Entry<RID>>)
    requires c.Down? && c.i + 1 < |c.kids| && c.i < |c.keys| && c.kids[c.i + 1].Leaf?
    requires l.Leaf? && r.Leaf? && l.es + r.es == es + c.kids[c.i + 1].es
    ensures CL(c.up) + Contents(ResetKids(c, l, key, r)) + CR(c.up) == CL(c) + es + CR(c)
  {
    var a, b := Flat(c.kids[..c.i]), Flat(c.kids[c.i + 2..]);
    RightContents(c);
    PairContents(c, l, r, ResetKids(c, l, key, r).kids);
    var both, rest := l.es + r.es, c.kids[c.i + 1].es;
    assert Contents(ResetKids(c, l, key, r)) == a + both + b;
    assert CL(c) == CL(c.up) + a && CR(c) == rest + b + CR(c.up);
    Regroup(CL(c.up), a, es, rest, b, CR(c.up));
  }

  lemma Regroup<T>(u: seq<T>, a: seq<T>, e: seq<T>, r: seq<T>, b: seq<T>, v: seq<T>)
    ensures u + (a + (e + r) + b) + v == u + a + e + (r + b + v)
  {
  }

  lemma WFKid(st: Store, c: DCtx, j: nat, lo: int, hi: int)
    requires Roomy(st) && c.Down? && WFC(c, Cap(st.sl), lo, hi, 0) && j < |c.kids| && j != c.i
    ensures c.kids[j].Leaf? && |c.kids[j].es| <= Cap(st.sl).leaf
  {
    var l, u := Lower(c.keys, j, CLo(c.up, lo)), Upper(c.keys, j, CHi(c.up, hi));
    assert WF(c.kids[j], Cap(st.sl), l, u, 0);
    assert Shape(c.kids[j], Cap(st.sl), l, u, 0);
  }

  lemma BorrowedShape(a: seq<Entry<RID>>, b: seq<Entry<RID>>, lo: int, mid: int, hi: int)
    requires LeafOk(a, lo, mid, false) && LeafOk(b, mid, hi, false) && |b| >= 2
    ensures LeafOk(a + [b[0]], lo, b[1].key, false) && LeafOk(b[1..], b[1].key, hi, false)
    ensures lo <= b[1].key <= hi
    ensures a + [b[0]] + b[1..] == a + b
  {
  }

  lemma RightContents(c: DCtx)
    requires c.Down? && c.i + 1 < |c.kids|
    ensures CR(c) == Contents(c.kids[c.i + 1]) + Flat(c.kids[c.i + 2..]) + CR(c.up)
  {
    var b := c.kids[c.i + 1..];
    assert b[0] == c.kids[c.i + 1] && b[1..] == c.kids[c.i + 2..];
  }

  /** The right neighbour's entries moved into the leaf; separator and child left the parent. */
  lemma Merged(st: Store, c: DCtx, f: DTree, p: Page, u: Page, lo: int, hi: int)
    requires InHole(st, c, f, lo, hi, 0) && f.Leaf? && c.Down? && c.i < |c.keys| && |c.kids| == |c.keys| + 1
    requires var r := c.kids[c.i + 1];
      && r.Leaf? && |f.es| + |r.es| < st.sl.leaf && c.id in st.pages
      && HoldsLeaf(p, f.es + r.es, CNextOf(c, c.i + 1, f.id, -1), st.sl.leaf)
      && LosesKid(u, st.pages[c.id], c, st.sl)
    ensures var t := MergeKids(c, Leaf(f.id, f.es + c.kids[c.i + 1].es));
      && InHole(st.(pages := st.pages[f.id := p][c.id := u]), c.up, t, lo, hi, 1)
      && CL(c.up) + Contents(t) + CR(c.up) == CL(c) + f.es + CR(c)
  {
    var r := c.kids[c.i + 1];
    var l' := Leaf(f.id, f.es + r.es);
    var t, top := MergeKids(c, l'), Upper(c.keys, c.i + 1, CHi(c.up, hi));
    var st' := st.(pages := st.pages[f.id := p][c.id := u]);
    UpFacts(st, c, f.id, f.id, lo, hi, 0);
    RightLeaf(st, c, f, lo, hi);
    HoleRange(st, c, f.id, f.id, lo, hi, 0);
    MergedShape(f.es, r.es, CLo(c, lo), c.keys[c.i], top);
    assert t.id == c.id && f.id !in IdsC(c) && Ids(l') == Ids(f);
    hide LosesKid, Rep, RepC, WFC, Shape, DistinctC, Ids, IdsC, CNext, RootId, First, CNextOf;
    LeafWF(f.id, f.es + r.es, Cap(st.sl), CLo(c, lo), top);
    MergeKidsOk(c, l', Cap(st.sl), lo, hi, 0);
    assert RepC(st'.pages, c.up, t.id, First(t), -1, st.sl) && Rep(st'.pages, t, CNext(c.up, -1), st.sl) by {
      RepMerge(st.pages, st'.pages, c, l', -1, st.sl);
    }
    hide HoldsLeaf, WF, CLo, CHi, LeafOk;
    MergeKidsDistinct(c, l');
    assert Allocated(st', IdsC(c.up) + Ids(t)) by {
      AllocatedTwo(st, f.id, p, c.id, u, IdsC(c) + Ids(f), IdsC(c.up) + Ids(t));
    }
    hide Allocated;
    assert Hole(st', c.up, t.id, First(t), lo, hi, 1);
    MergedContents(c, f.id, f.es);
  }

  lemma MergedShape(a: seq<Entry<RID>>, b: seq<Entry<RID>>, lo: int, mid: int, hi: int)
    requires LeafOk(a, lo, mid, false) && LeafOk(b, mid, hi, false)
    ensures LeafOk(a + b, lo, hi, false)
  {
  }

  lemma MergedContents(c: DCtx, id: int, es: seq<Entry<RID>>)
    requires c.Down? && c.i + 1 < |c.kids| && c.i < |c.keys| && c.kids[c.i + 1].Leaf?
    ensures CL(c.up) + Contents(MergeKids(c, Leaf(id, es + c.kids[c.i + 1].es))) + CR(c.up) == CL(c) + es + CR(c)
  {
    var rest, b := c.kids[c.i + 1].es, Flat(c.kids[c.i + 2..]);
    RightContents(c);
    MergeKidsContents(c, Leaf(id, es + rest));
    assert Contents(Leaf(id, es + rest)) == es + rest && Contents(c.kids[c.i + 1]) == rest;
    hide Contents, Flat, CL, CR;
    Reassociate(CL(c), es, rest, b, CR(c.up));
  }

  lemma Reassociate<T>(u: seq<T>, e: seq<T>, r: seq<T>, b: seq<T>, v: seq<T>)
    ensures u + (e + r) + b + v == u + e + (r + b + v)
  {
  }

  lemma AllocatedTwo(st: Store, a: int, p: Page, b: int, q: Page, ids: set<int>, ids': set<int>)
    requires Allocated(st, ids) && a in ids && b in ids && ids' <= ids
    ensures Allocated(st.(pages := st.pages[a := p][b := q]), ids')
  {
  }

  // The right neighbour of a leaf in place is a leaf in place.
  lemma RightLeaf(st: Store, c: DCtx, f: DTree, lo: int, hi: int)
    requires InHole(st, c, f, lo, hi, 0) && f.Leaf? && c.Down? && c.i < |c.keys| && |c.kids| == |c.keys| + 1
    ensures var r, top := c.kids[c.i + 1], Upper(c.keys, c.i + 1, CHi(c.up, hi));
      && r.Leaf? && LeafOk(r.es, c.keys[c.i], top, false) && LeafOk(f.es, CLo(c, lo), c.keys[c.i], false)
      && r.id in IdsC(c) && Ids(r) <= IdsC(c) && r.id != c.id && c.id != f.id && r.id != f.id
  {
    var r, top := c.kids[c.i + 1], Upper(c.keys, c.i + 1, CHi(c.up, hi));
    assert WF(r, Cap(st.sl), c.keys[c.i], top, 0);
    assert Shape(r, Cap(st.sl), c.keys[c.i], top, 0);
    KidAvoids(c, c.i + 1);
    IdsCKid(c, c.i + 1);
  }
}
