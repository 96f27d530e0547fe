/** The page writes of the disk B+ tree carry out the node-level steps of `BTreeSteps`. */
module DiskTreeSteps {
  import opened Common
  import opened OrderedMap
  import opened BTreeTheory
  import opened BTreeSteps
  import opened DiskPage
  import opened DiskTreePages

  // Where the pages of a context's other kids stay put when only `id` (and fresh pages) change.
  lemma SiblingsStay(pages: Pages, pages': Pages, c: DCtx, fid: int, ff: int, nxt: int, sl: Slotting)
    requires c.Down? && DistinctC(c) && RepC(pages, c, fid, ff, nxt, sl)
    requires forall p :: p in pages && p != c.id ==> p in pages' && pages'[p] == pages[p]
    ensures RepC(pages', c.up, c.id, CFirst(c, ff), nxt, sl)
    ensures forall j :: 0 <= j < |c.kids| && j != c.i ==> Rep(pages', c.kids[j], CNextOf(c, j, ff, nxt), sl)
  {
    RepCFrame(pages, pages', c.up, c.id, CFirst(c, ff), nxt, sl);
    forall j | 0 <= j < |c.kids| && j != c.i ensures Rep(pages', c.kids[j], CNextOf(c, j, ff, nxt), sl) {
      KidAvoids(c, j);
      RepFrame(pages, pages', c.kids[j], CNextOf(c, j, ff, nxt), sl);
    }
  }

  lemma KidAvoids<P, V>(c: Ctx<P, V>, j: nat)
    requires c.Down? && DistinctC(c) && c.i < |c.kids| && j < |c.kids| && j != c.i
    ensures c.id !in Ids(c.kids[j])
  {
    if j < c.i {
      IdsSplit(c.kids[..c.i], j);
    } else {
      IdsSplit(c.kids[c.i + 1..], j - c.i - 1);
    }
  }

  /** Page `q` is page `p` of the node around the hole with one more separator and child. */
  ghost predicate GainsKid(q: Page, p: Page, c: DCtx, key: int, right: int, sl: Slotting) {
    && c.Down? && c.i <= |c.keys| && |c.kids| == |c.keys| + 1 <= |p.kids|
    && HoldsInner(q, c.keys[..c.i] + [key] + c.keys[c.i..], sl.inner)
    && q.kids[..|c.kids| + 1] == p.kids[..c.i + 1] + [right] + p.kids[c.i + 1..|c.kids|]
  }

  /** Page `q` is page `p` of the node around the hole without separator `c.i` and the child after the hole. */
  ghost predicate LosesKid(q: Page, p: Page, c: DCtx, sl: Slotting) {
    && c.Down? && c.i < |c.keys| && |c.kids| == |c.keys| + 1 <= |p.kids|
    && HoldsInner(q, c.keys[..c.i] + c.keys[c.i + 1..], sl.inner)
    && q.kids[..|c.keys|] == p.kids[..c.i + 1] + p.kids[c.i + 2..|c.keys| + 1]
  }

  lemma RepInsert(pages: Pages, c: DCtx, l: DTree, key: int, r: DTree, q: Page, nxt: int, sl: Slotting)
    requires c.Down? && |c.kids| == |c.keys| + 1 && c.i < |c.kids| && DistinctC(c)
    requires RepC(pages, c, l.id, First(l), nxt, sl)
    requires Rep(pages, l, First(r), sl) && Rep(pages, r, CNext(c, nxt), sl)
    requires c.id !in Ids(l) && c.id !in Ids(r)
    requires GainsKid(q, pages[c.id], c, key, r.id, sl)
    ensures var t, pages' := InsertKid(c, l, key, r), pages[c.id := q];
      RepC(pages', c.up, t.id, First(t), nxt, sl) && Rep(pages', t, CNext(c.up, nxt), sl)
  {
    var t, pages' := InsertKid(c, l, key, r), pages[c.id := q];
    SiblingsStay(pages, pages', c, l.id, First(l), nxt, sl);
    RepFrame(pages, pages', l, First(r), sl);
    RepFrame(pages, pages', r, CNext(c, nxt), sl);
    assert First(t) == CFirst(c, First(l));
    assert KidIds(q, t.kids) by { InsertKidIds(pages, c, l, key, r, q, nxt, sl); }
    forall j | 0 <= j < |t.kids|
      ensures Rep(pages', t.kids[j], NextOf(t.kids, j, CNext(c.up, nxt)), sl)
    {
      InsertKidNext(c, l, key, r, j, nxt);
    }
  }

  // Which kid sits at position `j` after the insertion, and what follows it.
  lemma InsertKidAt(c: DCtx, l: DTree, key: int, r: DTree, j: nat)
    requires c.Down? && |c.kids| == |c.keys| + 1 && c.i < |c.kids| && j <= |c.kids|
    ensures var kids := InsertKid(c, l, key, r).kids;
      && |kids| == |c.kids| + 1
      && kids[j] == (if j < c.i then c.kids[j] else if j == c.i then l else if j == c.i + 1 then r else c.kids[j - 1])
  {
  }

  lemma InsertKidNext(c: DCtx, l: DTree, key: int, r: DTree, j: nat, nxt: int)
    requires c.Down? && |c.kids| == |c.keys| + 1 && c.i < |c.kids| && j <= |c.kids|
    ensures var kids := InsertKid(c, l, key, r).kids;
      && |kids| == |c.kids| + 1
      && kids[j] == (if j < c.i then c.kids[j] else if j == c.i then l else if j == c.i + 1 then r else c.kids[j - 1])
      && NextOf(kids, j, CNext(c.up, nxt)) ==
           (if j < c.i then CNextOf(c, j, First(l), nxt) else if j == c.i then First(r)
            else if j == c.i + 1 then CNext(c, nxt) else CNextOf(c, j - 1, First(l), nxt))
  {
    hide First, InsertKid;
    InsertKidAt(c, l, key, r, j);
    if j < |c.kids| { InsertKidAt(c, l, key, r, j + 1); }
  }

  lemma InsertKidIds(pages: Pages, c: DCtx, l: DTree, key: int, r: DTree, q: Page, nxt: int, sl: Slotting)
    requires c.Down? && |c.kids| == |c.keys| + 1 && c.i < |c.kids|
    requires RepC(pages, c, l.id, First(l), nxt, sl)
    requires GainsKid(q, pages[c.id], c, key, r.id, sl)
    ensures KidIds(q, InsertKid(c, l, key, r).kids)
  {
    var kids, prev := InsertKid(c, l, key, r).kids, pages[c.id].kids;
    forall j | 0 <= j < |kids| ensures q.kids[j] == kids[j].id {
      assert q.kids[j] == q.kids[..|c.kids| + 1][j];
    }
  }

  lemma RepSplit(pages: Pages, t: DTree, mid: nat, sib: int, q: Page, nxt: int, sl: Slotting)
    requires t.Node? && |t.kids| == |t.keys| + 1 && mid < |t.keys|
    requires Rep(pages, t, nxt, sl) && Distinct(t) && sib !in Ids(t)
    requires HoldsInner(q, t.keys[mid + 1..], sl.inner)
    requires q.kids[..|t.keys| - mid] == pages[t.id].kids[mid + 1..|t.kids|]
    ensures var pages' := pages[t.id := pages[t.id].(numKeys := mid)][sib := q];
      && Rep(pages', LeftHalf(t, mid), First(RightHalf(t, mid, sib)), sl)
      && Rep(pages', RightHalf(t, mid, sib), nxt, sl)
  {
    var p' := pages[t.id].(numKeys := mid);
    var pages' := pages[t.id := p'][sib := q];
    forall j | 0 <= j < |t.kids| ensures Rep(pages', t.kids[j], NextOf(t.kids, j, nxt), sl) {
      IdsSplit(t.kids, j);
      RepFrame(pages, pages', t.kids[j], NextOf(t.kids, j, nxt), sl);
    }
    hide Ids, Distinct, RepC;
    RepHead(pages, t, nxt, sl);
    RepLeftHalf(pages', pages[t.id], t, mid, sib, nxt, sl);
    RepRightHalf(pages', pages[t.id], t, mid, sib, nxt, sl);
  }

  lemma RepLeftHalf(pages: Pages, p: Page, t: DTree, mid: nat, sib: int, nxt: int, sl: Slotting)
    requires t.Node? && |t.kids| == |t.keys| + 1 && mid < |t.keys| && t.id in pages
    requires Holds(p, t, nxt, sl) && pages[t.id] == p.(numKeys := mid)
    requires forall j :: 0 <= j < |t.kids| ==> Rep(pages, t.kids[j], NextOf(t.kids, j, nxt), sl)
    ensures Rep(pages, LeftHalf(t, mid), First(RightHalf(t, mid, sib)), sl)
  {
    var l, r := LeftHalf(t, mid), RightHalf(t, mid, sib);
    assert First(r) == First(t.kids[mid + 1]);
    forall j | 0 <= j < |l.kids| ensures Rep(pages, l.kids[j], NextOf(l.kids, j, First(r)), sl) {
      assert l.kids[j] == t.kids[j];
      assert NextOf(l.kids, j, First(r)) == NextOf(t.kids, j, nxt);
    }
  }

  lemma RepRightHalf(pages: Pages, p: Page, t: DTree, mid: nat, sib: int, nxt: int, sl: Slotting)
    requires t.Node? && |t.kids| == |t.keys| + 1 && mid < |t.keys| && sib in pages
    requires Holds(p, t, nxt, sl) && HoldsInner(pages[sib], t.keys[mid + 1..], sl.inner)
    requires pages[sib].kids[..|t.keys| - mid] == p.kids[mid + 1..|t.kids|]
    requires forall j :: 0 <= j < |t.kids| ==> Rep(pages, t.kids[j], NextOf(t.kids, j, nxt), sl)
    ensures Rep(pages, RightHalf(t, mid, sib), nxt, sl)
  {
    var r, q := RightHalf(t, mid, sib), pages[sib];
    forall j | 0 <= j < |r.kids|
      ensures Rep(pages, r.kids[j], NextOf(r.kids, j, nxt), sl) && q.kids[j] == r.kids[j].id
    {
      assert r.kids[j] == t.kids[mid + 1 + j];
      assert NextOf(r.kids, j, nxt) == NextOf(t.kids, mid + 1 + j, nxt);
      assert q.kids[j] == q.kids[..|t.keys| - mid][j];
    }
  }

  /** The same node under another page number. */
  ghost function Rename(t: DTree, id: int): DTree {
    if t.Leaf? then Leaf(id, t.es) else Node(id, t.keys, t.kids)
  }

  lemma RepRename(pages: Pages, t: DTree, id: int, nxt: int, sl: Slotting)
    requires Rep(pages, t, nxt, sl) && Distinct(t) && id !in Ids(t)
    ensures Rep(pages[id := pages[t.id]], Rename(t, id), nxt, sl)
    ensures Distinct(Rename(t, id)) && Contents(Rename(t, id)) == Contents(t)
    ensures Ids(Rename(t, id)) + {t.id} == Ids(t) + {id} && t.id !in Ids(Rename(t, id))
  {
    var pages' := pages[id := pages[t.id]];
    if t.Node? {
      forall j | 0 <= j < |t.kids| ensures Rep(pages', t.kids[j], NextOf(t.kids, j, nxt), sl) {
        IdsSplit(t.kids, j);
        RepFrame(pages, pages', t.kids[j], NextOf(t.kids, j, nxt), sl);
      }
    }
  }

  lemma RepGrow(pages: Pages, l: DTree, key: int, r: DTree, root: int, q: Page, sl: Slotting)
    requires Rep(pages, l, First(r), sl) && Rep(pages, r, -1, sl)
    requires root !in Ids(l) && root !in Ids(r)
    requires HoldsInner(q, [key], sl.inner) && q.kids[..2] == [l.id, r.id]
    ensures Rep(pages[root := q], Node(root, [key], [l, r]), -1, sl)
  {
    var pages', t := pages[root := q], Node(root, [key], [l, r]);
    RepFrame(pages, pages', l, First(r), sl);
    RepFrame(pages, pages', r, -1, sl);
    assert q.kids[0] == q.kids[..2][0] && q.kids[1] == q.kids[..2][1];
    forall j | 0 <= j < 2 ensures Rep(pages', t.kids[j], NextOf(t.kids, j, -1), sl) {
    }
  }

  // Pages after an entry moved between the neighbouring leaves `c.i` and `c.i + 1`.
  lemma RepReset(pages: Pages, pages': Pages, c: DCtx, l: DTree, key: int, r: DTree, nxt: int, sl: Slotting)
    requires c.Down? && |c.kids| == |c.keys| + 1 && c.i < |c.keys| && DistinctC(c)
    requires l.Leaf? && r.Leaf? && c.kids[c.i + 1].Leaf? && c.kids[c.i + 1].id == r.id && l.id !in IdsC(c)
    requires RepC(pages, c, l.id, l.id, nxt, sl)
    requires c.id in pages' && pages'[c.id] == pages[c.id].(keys := pages[c.id].keys[c.i := key])
    requires l.id in pages' && HoldsLeaf(pages'[l.id], l.es, r.id, sl.leaf)
    requires r.id in pages' && HoldsLeaf(pages'[r.id], r.es, pages[r.id].nextLeaf, sl.leaf)
    requires forall p :: p in pages && p != c.id && p != l.id && p != r.id ==> p in pages' && pages'[p] == pages[p]
    ensures var t := ResetKids(c, l, key, r);
      RepC(pages', c.up, t.id, First(t), nxt, sl) && Rep(pages', t, CNext(c.up, nxt), sl)
  {
    var t := ResetKids(c, l, key, r);
    IdsCKid(c, c.i + 1);
    KidAvoids(c, c.i + 1);
    KidOutside(c, c.i + 1);
    RepCFrame(pages, pages', c.up, c.id, CFirst(c, l.id), nxt, sl);
    assert Rep(pages, c.kids[c.i + 1], CNextOf(c, c.i + 1, l.id, nxt), sl);
    forall j | 0 <= j < |t.kids| ensures Rep(pages', t.kids[j], NextOf(t.kids, j, CNext(c.up, nxt)), sl) {
      if j == c.i {
      } else {
        assert NextOf(t.kids, j, CNext(c.up, nxt)) == CNextOf(c, j, l.id, nxt);
        if j != c.i + 1 {
          IdsCKid(c, j);
          KidAvoids(c, j);
          KidsApart(c, j, c.i + 1);
          RepFrame(pages, pages', c.kids[j], CNextOf(c, j, l.id, nxt), sl);
        }
      }
    }
  }

  lemma KidOutside<P, V>(c: Ctx<P, V>, j: nat)
    requires c.Down? && DistinctC(c) && c.i < |c.kids| && j < |c.kids| && j != c.i
    ensures Ids(c.kids[j]) !! IdsC(c.up) && Distinct(c.kids[j])
  {
    if j < c.i {
      IdsSplit(c.kids[..c.i], j);
    } else {
      IdsSplit(c.kids[c.i + 1..], j - c.i - 1);
    }
  }

  lemma KidsApart<P, V>(c: Ctx<P, V>, j: nat, k: nat)
    requires c.Down? && DistinctC(c) && c.i < |c.kids| && j < |c.kids| && k < |c.kids|
    requires j != k && j != c.i && k != c.i
    ensures Ids(c.kids[j]) !! Ids(c.kids[k])
  {
    var a, b := c.kids[..c.i], c.kids[c.i + 1..];
    if j < k {
      SidePair(a, b, j, k, c.i);
      assert c.kids[j] == (a + b)[if j < c.i then j else j - 1];
    } else {
      SidePair(a, b, k, j, c.i);
      assert c.kids[j] == (a + b)[if j < c.i then j else j - 1];
    }
  }

  lemma SidePair<P, V>(a: seq<Tree<P, V>>, b: seq<Tree<P, V>>, j: nat, k: nat, i: nat)
    requires |a| == i && j < k <= |a| + |b| && j != i && k != i
    requires DistinctF(a) && DistinctF(b) && IdsF(a) !! IdsF(b)
    ensures var s := a + b;
      Ids(s[if j < i then j else j - 1]) !! Ids(s[if k < i then k else k - 1])
  {
    IdsConcat(a, b);
    var s := a + b;
    var j', k' := if j < i then j else j - 1, if k < i then k else k - 1;
    IdsSplit(s, j');
    var rest := s[j' + 1..];
    assert rest[k' - j' - 1] == s[k'];
    IdsSplit(rest, k' - j' - 1);
  }

  // Pages after the leaf `c.i + 1` was merged into the leaf at the hole.
  lemma RepMerge(pages: Pages, pages': Pages, c: DCtx, l: DTree, nxt: int, sl: Slotting)
    requires c.Down? && |c.kids| == |c.keys| + 1 && c.i < |c.keys| && DistinctC(c)
    requires l.Leaf? && c.kids[c.i + 1].Leaf? && l.id !in IdsC(c)
    requires RepC(pages, c, l.id, l.id, nxt, sl)
    requires c.id in pages' && LosesKid(pages'[c.id], pages[c.id], c, sl)
    requires l.id in pages' && HoldsLeaf(pages'[l.id], l.es, CNextOf(c, c.i + 1, l.id, nxt), sl.leaf)
    requires forall p :: p in pages && p != c.id && p != l.id ==> p in pages' && pages'[p] == pages[p]
    ensures var t := MergeKids(c, l);
      RepC(pages', c.up, t.id, First(t), nxt, sl) && Rep(pages', t, CNext(c.up, nxt), sl)
  {
    var t := MergeKids(c, l);
    RepCFrame(pages, pages', c.up, c.id, CFirst(c, l.id), nxt, sl);
    assert First(t) == CFirst(c, l.id);
    forall j | 0 <= j < |c.kids| && j != c.i
      ensures Rep(pages', c.kids[j], CNextOf(c, j, l.id, nxt), sl)
    {
      IdsCKid(c, j);
      KidAvoids(c, j);
      RepFrame(pages, pages', c.kids[j], CNextOf(c, j, l.id, nxt), sl);
    }
    assert KidIds(pages'[c.id], t.kids) by { MergeKidIds(pages, pages'[c.id], c, l, nxt, sl); }
    forall j | 0 <= j < |t.kids|
      ensures Rep(pages', t.kids[j], NextOf(t.kids, j, CNext(c.up, nxt)), sl)
    {
      MergeKidNext(c, l, j, nxt);
    }
  }

  lemma MergeKidNext(c: DCtx, l: DTree, j: nat, nxt: int)
    requires c.Down? && |c.kids| == |c.keys| + 1 && c.i < |c.keys| && j < |c.keys| && First(l) == l.id
    ensures var kids := MergeKids(c, l).kids;
      && |kids| == |c.keys|
      && kids[j] == (if j < c.i then c.kids[j] else if j == c.i then l else c.kids[j + 1])
      && NextOf(kids, j, CNext(c.up, nxt)) == CNextOf(c, if j < c.i then j else j + 1, l.id, nxt)
  {
    hide First;
  }

  lemma MergeKidIds(pages: Pages, q: Page, c: DCtx, l: DTree, nxt: int, sl: Slotting)
    requires c.Down? && |c.kids| == |c.keys| + 1 && c.i < |c.keys| && l.Leaf?
    requires RepC(pages, c, l.id, l.id, nxt, sl) && LosesKid(q, pages[c.id], c, sl)
    ensures KidIds(q, MergeKids(c, l).kids)
  {
    hide Rep, CNext;
    var kids, prev := MergeKids(c, l).kids, pages[c.id].kids;
    forall j | 0 <= j < |c.keys| ensures q.kids[j] == kids[j].id {
      MergeKidNext(c, l, j, nxt);
      assert q.kids[j] == q.kids[..|c.keys|][j];
      assert q.kids[j] == prev[if j <= c.i then j else j + 1];
    }
  }
}
