/** The tree a disk index holds after an insertion or an erasure, and what becomes of equal keys.

    `Grown` and `Shrunk` give the whole new tree, page numbers included.  The lemmas say which of
    the steps behind them leave a separator that cuts a run of equal keys: cutting a full leaf
    inside a run, and borrowing the first entry of a run.  Merging never does.
 */
module DiskTreeChanges {
  import opened Common
  import opened OrderedMap
  import opened BTreeTheory
  import opened BTreeSteps
  import opened EqualKeys
  import opened DiskTreePages
  import opened DiskTreeSteps

  /** A leaf and the tree around it. */
  datatype Spot = Spot(c: DCtx, f: DTree)

  /** Where the descent for `key` from the node `t` ends. */
  ghost function Arrive(c: DCtx, t: DTree, key: int): Spot
    decreases t
  {
    if t.Leaf? then Spot(c, t) else
      var i := UpperIdx(t.keys, key);
      if i < |t.kids| then Arrive(Child(c, t, i), t.kids[i], key) else Spot(c, t)
  }

  lemma {:induction false} ArriveSides(c: DCtx, t: DTree, key: int, cp: Caps, lo: int, hi: int, h: nat)
    requires WFC(c, cp, lo, hi, h) && WF(t, cp, CLo(c, lo), CHi(c, hi), h) && CLo(c, lo) <= key < CHi(c, hi)
    ensures var s := Arrive(c, t, key);
      && s.f.Leaf? && Plug(s.c, s.f) == Plug(c, t) && Knit(s.c)
      && WFC(s.c, cp, lo, hi, 0) && WF(s.f, cp, CLo(s.c, lo), CHi(s.c, hi), 0)
      && CLo(s.c, lo) <= key < CHi(s.c, hi)
      && CL(s.c) == CL(c) + Skipped(t, key)
      && s.f.es + CR(s.c) == Seen(t, key) + CR(c)
    decreases t
  {
    if t.Leaf? {
      WFCKnit(c, cp, lo, hi, h);
    } else {
      var i := UpperIdx(t.keys, key);
      WFDown(c, t, i, cp, lo, hi, h);
      ArriveSides(Child(c, t, i), t.kids[i], key, cp, lo, hi, h - 1);
      hide WF, WFC, Shape, Seen, Skipped, CL, CR, CLo, CHi, Flat;
      assert t.kids[i := t.kids[i]] == t.kids;
      StepSides(c, t, key);
    }
  }

  // The entries left and right of a descent's leaf, one step down.
  lemma StepSides(c: DCtx, t: DTree, key: int)
    requires t.Node? && UpperIdx(t.keys, key) < |t.kids|
    ensures var i := UpperIdx(t.keys, key);
      var d := Child(c, t, i);
      && CL(d) + Skipped(t.kids[i], key) == CL(c) + Skipped(t, key)
      && Seen(t.kids[i], key) + CR(d) == Seen(t, key) + CR(c)
  {
    var i := UpperIdx(t.keys, key);
    SeqAssoc(CL(c), Flat(t.kids[..i]), Skipped(t.kids[i], key));
    SeqAssoc(Seen(t.kids[i], key), Flat(t.kids[i + 1..]), CR(c));
  }

  lemma SeqAssoc<T>(a: seq<T>, b: seq<T>, c: seq<T>)
    ensures (a + b) + c == a + (b + c)
  {
  }

  // ---- growing ----

  ghost function WithKey(c: DCtx, key: int): (keys: seq<int>)
    requires c.Down? && Knit(c)
    ensures |keys| == |c.keys| + 1
  {
    c.keys[..c.i] + [key] + c.keys[c.i..]
  }

  /** Every separator sent upwards from the hole finds the parent it belongs to: descending for it
      from the root must not lead past the node that was cut. */
  ghost predicate Rises(c: DCtx, key: int, slots: nat)
    requires Knit(c)
  {
    c.Down? ==>
      && Free(c, key)
      && var keys := WithKey(c, key);
         |keys| < slots || Rises(c.up, keys[|keys| / 2], slots)
  }

  /** The tree after the node in the hole was cut into `l` and `r` around `key`. */
  ghost function Risen(c: DCtx, l: DTree, key: int, r: DTree, next: int, slots: nat): DTree
    requires Knit(c)
    decreases c
  {
    if c.Top? then Node(l.id, [key], [Rename(l, next), r]) else
      var t := InsertKid(c, l, key, r);
      if |t.keys| < slots then Plug(c.up, t) else
        var mid := |t.keys| / 2;
        Risen(c.up, LeftHalf(t, mid), t.keys[mid], RightHalf(t, mid, next), next + 1, slots)
  }

  /** The next free page number after that. */
  ghost function RisenNext(c: DCtx, key: int, next: int, slots: nat): int
    requires Knit(c)
    decreases c
  {
    if c.Top? then next + 1 else
      var keys := WithKey(c, key);
      if |keys| < slots then next else RisenNext(c.up, keys[|keys| / 2], next + 1, slots)
  }

  lemma CleanInsertKid(c: DCtx, l: DTree, key: int, r: DTree, hi: int)
    requires c.Down? && Knit(c)
    ensures var t, top := InsertKid(c, l, key, r), CHi(c.up, hi);
      Clean(t, top) && CleanC(c.up, hi) <==> CleanC(c, hi) && Clean(l, key) && Clean(r, CHi(c, hi))
  {
    hide InsertKid;
    var t, top := InsertKid(c, l, key, r), CHi(c.up, hi);
    InsertedKid(c, l, key, r, top, c.i);
    InsertedKid(c, l, key, r, top, c.i + 1);
    if Clean(t, top) && CleanC(c.up, hi) {
      assert Clean(t.kids[c.i], Upper(t.keys, c.i, top)) && Clean(t.kids[c.i + 1], Upper(t.keys, c.i + 1, top));
      forall i | 0 <= i < |c.kids| && i != c.i ensures Clean(c.kids[i], Upper(c.keys, i, top)) {
        var j := if i < c.i then i else i + 1;
        InsertedKid(c, l, key, r, top, j);
        assert Clean(t.kids[j], Upper(t.keys, j, top));
      }
    }
    if CleanC(c, hi) && Clean(l, key) && Clean(r, CHi(c, hi)) {
      forall i | 0 <= i < |t.kids| ensures Clean(t.kids[i], Upper(t.keys, i, top)) {
        InsertedKid(c, l, key, r, top, i);
      }
    }
  }

  /** A child of the extended parent and its upper separator. */
  lemma InsertedKid(c: DCtx, l: DTree, key: int, r: DTree, top: int, i: nat)
    requires c.Down? && Knit(c) && i <= |c.kids|
    ensures var t := InsertKid(c, l, key, r);
      && t.Node? && |t.kids| == |c.kids| + 1 == |t.keys| + 1
      && t.kids[i] == (
           if i < c.i then c.kids[i] else if i == c.i then l else if i == c.i + 1 then r else c.kids[i - 1])
      && Upper(t.keys, i, top) ==
           if i < c.i then Upper(c.keys, i, top) else if i == c.i then key else Upper(c.keys, i - 1, top)
  {
    hide Clean, CleanC;
  }

  lemma CleanSplit(t: DTree, mid: nat, sib: int, hi: int)
    requires t.Node? && mid < |t.keys| && |t.kids| == |t.keys| + 1
    ensures Clean(t, hi) <==> Clean(LeftHalf(t, mid), t.keys[mid]) && Clean(RightHalf(t, mid, sib), hi)
  {
    var l, r := LeftHalf(t, mid), RightHalf(t, mid, sib);
    if Clean(t, hi) {
      forall i | 0 <= i < |l.kids| ensures Clean(l.kids[i], Upper(l.keys, i, t.keys[mid])) {
        assert Clean(t.kids[i], Upper(t.keys, i, hi));
      }
      forall i | 0 <= i < |r.kids| ensures Clean(r.kids[i], Upper(r.keys, i, hi)) {
        assert Clean(t.kids[mid + 1 + i], Upper(t.keys, mid + 1 + i, hi));
      }
    }
    if Clean(l, t.keys[mid]) && Clean(r, hi) {
      forall i | 0 <= i < |t.kids| ensures Clean(t.kids[i], Upper(t.keys, i, hi)) {
        if i <= mid {
          assert Clean(l.kids[i], Upper(l.keys, i, t.keys[mid]));
        } else {
          assert Clean(r.kids[i - mid - 1], Upper(r.keys, i - mid - 1, hi));
        }
      }
    }
  }

  lemma CleanPair(id: int, l: DTree, key: int, r: DTree, hi: int)
    ensures Clean(Node(id, [key], [l, r]), hi) <==> Clean(l, key) && Clean(r, hi)
  {
    var t: DTree := Node(id, [key], [l, r]);
    if Clean(t, hi) {
      assert Clean(t.kids[0], Upper(t.keys, 0, hi)) && Clean(t.kids[1], Upper(t.keys, 1, hi));
    }
  }

  lemma CleanRename(t: DTree, id: int, hi: int)
    ensures Clean(Rename(t, id), hi) <==> Clean(t, hi)
  {
  }

  /** Splits of internal nodes leave every leaf its bounds: only the cut in the leaf matters. */
  lemma {:induction false} RisenClean(c: DCtx, l: DTree, key: int, r: DTree, next: int, slots: nat, hi: int)
    requires Knit(c)
    ensures Clean(Risen(c, l, key, r, next, slots), hi) <==> CleanC(c, hi) && Clean(l, key) && Clean(r, CHi(c, hi))
    decreases c
  {
    if c.Top? {
      CleanPair(l.id, Rename(l, next), key, r, hi);
      CleanRename(l, next, key);
    } else {
      var t := InsertKid(c, l, key, r);
      CleanInsertKid(c, l, key, r, hi);
      if |t.keys| < slots {
        CleanPlug(c.up, t, hi);
      } else {
        var mid := |t.keys| / 2;
        CleanSplit(t, mid, next, CHi(c.up, hi));
        RisenClean(c.up, LeftHalf(t, mid), t.keys[mid], RightHalf(t, mid, next), next + 1, slots, hi);
      }
    }
  }

  lemma {:induction false} CleanRange(t: DTree, cp: Caps, lo: int, hi: int, h: nat)
    requires Shape(t, cp, lo, hi, h) && Clean(t, hi)
    ensures lo < hi
    decreases t
  {
    if t.Node? {
      var n := |t.keys|;
      assert WF(t.kids[n], cp, Lower(t.keys, n, lo), hi, h - 1);
      assert Clean(t.kids[n], Upper(t.keys, n, hi));
      CleanRange(t.kids[n], cp, Lower(t.keys, n, lo), hi, h - 1);
    } else {
      assert t.es != [] ==> t.es[0].key < hi;
    }
  }

  // All separators of a clean node are below its range's end.
  lemma KeysBelow(c: DCtx, cp: Caps, lo: int, hi: int, hf: nat)
    requires c.Down? && WFC(c, cp, lo, hi, hf) && CleanC(c, hi) && CLo(c, lo) < CHi(c, hi)
    ensures forall j :: 0 <= j < |c.keys| ==> c.keys[j] < CHi(c.up, hi)
  {
    var n := |c.keys|;
    if n > 0 && c.i < n {
      assert WF(c.kids[n], cp, Lower(c.keys, n, CLo(c.up, lo)), Upper(c.keys, n, CHi(c.up, hi)), hf);
      assert Clean(c.kids[n], Upper(c.keys, n, CHi(c.up, hi)));
      CleanRange(c.kids[n], cp, c.keys[n - 1], CHi(c.up, hi), hf);
    }
  }

  /** In a clean tree every separator finds its parent. */
  lemma {:induction false} CleanRises(c: DCtx, key: int, slots: nat, cp: Caps, lo: int, hi: int, hf: nat)
    requires WFC(c, cp, lo, hi, hf) && Knit(c) && CleanC(c, hi) && lo < hi
    requires CLo(c, lo) < CHi(c, hi) && key < CHi(c, hi)
    ensures Rises(c, key, slots)
    decreases c
  {
    if c.Down? {
      CHiFree(c, key, hi);
      KeysBelow(c, cp, lo, hi, hf);
      CRange(c, cp, lo, hi, hf);
      var keys := WithKey(c, key);
      CleanRises(c.up, keys[|keys| / 2], slots, cp, lo, hi, hf + 1);
    }
  }

  // ---- insertion ----

  ghost predicate Accepts(t: DTree, e: Entry<RID>, sl: Slotting) {
    var s := Arrive(Top, t, e.key);
    s.f.Leaf? && Knit(s.c) ==>
      var es := Filed(s.f.es, e);
      |es| < sl.leaf || Rises(s.c, es[|es| / 2].key, sl.inner)
  }

  /** The tree after an insertion; `next` is the first free page number. */
  ghost function Grown(t: DTree, e: Entry<RID>, next: int, sl: Slotting): DTree {
    var s := Arrive(Top, t, e.key);
    if !(s.f.Leaf? && Knit(s.c)) then t else
      var es := Filed(s.f.es, e);
      var mid := |es| / 2;
      if |es| < sl.leaf then Plug(s.c, Leaf(s.f.id, es))
      else Risen(s.c, Leaf(s.f.id, es[..mid]), es[mid].key, Leaf(next, es[mid..]), next + 1, sl.inner)
  }

  ghost function GrownNext(t: DTree, e: Entry<RID>, next: int, sl: Slotting): int {
    var s := Arrive(Top, t, e.key);
    if !(s.f.Leaf? && Knit(s.c)) then next else
      var es := Filed(s.f.es, e);
      if |es| < sl.leaf then next else RisenNext(s.c, es[|es| / 2].key, next + 1, sl.inner)
  }

  /** The insertion fills a leaf's last slot and the cut falls between two equal keys. */
  ghost predicate CutsRun(t: DTree, e: Entry<RID>, sl: Slotting) {
    var s := Arrive(Top, t, e.key);
    s.f.Leaf? &&
      var es := Filed(s.f.es, e);
      var mid := |es| / 2;
      |es| >= sl.leaf && mid > 0 && es[mid - 1].key == es[mid].key
  }

  lemma FiledOrdered(es: seq<Entry<RID>>, e: Entry<RID>, lo: int, hi: int)
    requires Ascending(es) && Inside(es, lo, hi, false) && lo <= e.key < hi
    ensures Ascending(Filed(es, e)) && Inside(Filed(es, e), lo, hi, false)
    ensures Below(Filed(es, e), hi) <==> Below(es, hi)
  {
    PlaceFacts(es, e.key);
    hide Place;
    var n, s := Place(es, e.key), Filed(es, e);
    assert forall i :: 0 <= i < |s| ==> s[i] == if i < n then es[i] else if i == n then e else es[i - 1];
    if Below(s, hi) {
      forall i | 0 <= i < |es| ensures es[i].key < hi {
        assert s[if i < n then i else i + 1] == es[i];
      }
    }
  }

  lemma {:induction false} PlaceFacts(es: seq<Entry<RID>>, key: int)
    ensures var n := Place(es, key);
      && (forall i :: 0 <= i < n ==> es[i].key <= key)
      && (n < |es| ==> key < es[n].key)
    decreases |es|
  {
    if es != [] && es[0].key <= key { PlaceFacts(es[1..], key); }
  }

  /** An insertion into a clean tree always succeeds, and leaves it clean exactly if no cut falls
      inside a run of equal keys. */
  lemma GrownClean(t: DTree, e: Entry<RID>, next: int, sl: Slotting, cp: Caps, lo: int, hi: int, h: nat)
    requires WF(t, cp, lo, hi, h) && !cp.unique && Clean(t, hi) && lo <= e.key < hi && sl.leaf >= 2
    ensures Accepts(t, e, sl)
    ensures Clean(Grown(t, e, next, sl), hi) <==> !CutsRun(t, e, sl)
  {
    hide Risen, Rises;
    ArriveSides(Top, t, e.key, cp, lo, hi, h);
    var s := Arrive(Top, t, e.key);
    CleanPlug(s.c, s.f, hi);
    var es, top := Filed(s.f.es, e), CHi(s.c, hi);
    var mid := |es| / 2;
    FiledOrdered(s.f.es, e, CLo(s.c, lo), top);
    if |es| < sl.leaf {
      CleanPlug(s.c, Leaf(s.f.id, es), hi);
    } else {
      CleanRises(s.c, es[mid].key, sl.inner, cp, lo, hi, 0);
      var l, r := Leaf(s.f.id, es[..mid]), Leaf(next, es[mid..]);
      RisenClean(s.c, l, es[mid].key, r, next + 1, sl.inner, hi);
      assert Clean(r, top);
      assert mid > 0;
      assert l.es[mid - 1] == es[mid - 1];
    }
  }

  // ---- erasure ----

  ghost predicate Underfull(c: DCtx, g: DTree, sl: Slotting) {
    && c.Down? && g.Leaf? && c.i < |c.keys| && c.i + 1 < |c.kids| && c.kids[c.i + 1].Leaf?
    && |g.es| < (sl.leaf - 1) / 2
  }

  // The right neighbour can spare an entry.
  ghost predicate Borrows(c: DCtx, g: DTree, sl: Slotting) {
    Underfull(c, g, sl) && |c.kids[c.i + 1].es| > (sl.leaf - 1) / 2 && |c.kids[c.i + 1].es| >= 2
  }

  /** The tree after an entry left the leaf `g` in the hole. */
  ghost function Rebalanced(c: DCtx, g: DTree, sl: Slotting): DTree {
    if Borrows(c, g, sl) then
      var r := c.kids[c.i + 1];
      Plug(c.up, ResetKids(c, Leaf(g.id, g.es + [r.es[0]]), r.es[1].key, Leaf(r.id, r.es[1..])))
    else if Underfull(c, g, sl) then
      Plug(c.up, MergeKids(c, Leaf(g.id, g.es + c.kids[c.i + 1].es)))
    else Plug(c, g)
  }

  /** The tree after a pair was erased from the leaf its key's descent ends in. */
  ghost function Shrunk(t: DTree, e: Entry<RID>, sl: Slotting): DTree {
    var s := Arrive(Top, t, e.key);
    if s.f.Leaf? && e in s.f.es then Rebalanced(s.c, Leaf(s.f.id, WithoutFirst(s.f.es, e)), sl) else t
  }

  /** The erasure makes a leaf borrow the first of two equal keys. */
  ghost predicate BorrowCuts(t: DTree, e: Entry<RID>, sl: Slotting) {
    var s := Arrive(Top, t, e.key);
    s.f.Leaf? && e in s.f.es && Borrows(s.c, Leaf(s.f.id, WithoutFirst(s.f.es, e)), sl)
    && var r := s.c.kids[s.c.i + 1]; r.es[0].key == r.es[1].key
  }

  lemma CleanReset(c: DCtx, l: DTree, key: int, r: DTree, hi: int)
    requires c.Down? && Knit(c) && c.i < |c.keys| && CleanC(c, hi)
    ensures Clean(ResetKids(c, l, key, r), CHi(c.up, hi))
        <==> Clean(l, key) && Clean(r, Upper(c.keys, c.i + 1, CHi(c.up, hi)))
  {
    var t, top := ResetKids(c, l, key, r), CHi(c.up, hi);
    assert t.kids[c.i] == l && t.kids[c.i + 1] == r && Upper(t.keys, c.i, top) == key;
    assert Upper(t.keys, c.i + 1, top) == Upper(c.keys, c.i + 1, top);
    forall i | 0 <= i < |t.kids| && i != c.i && i != c.i + 1 ensures Clean(t.kids[i], Upper(t.keys, i, top)) {
      assert t.kids[i] == c.kids[i] && Upper(t.keys, i, top) == Upper(c.keys, i, top);
    }
  }

  lemma CleanMerge(c: DCtx, l: DTree, hi: int)
    requires c.Down? && Knit(c) && c.i < |c.keys| && CleanC(c, hi)
    ensures Clean(MergeKids(c, l), CHi(c.up, hi)) <==> Clean(l, Upper(c.keys, c.i + 1, CHi(c.up, hi)))
  {
    var t, top := MergeKids(c, l), CHi(c.up, hi);
    assert t.kids[c.i] == l && Upper(t.keys, c.i, top) == Upper(c.keys, c.i + 1, top);
    forall i | 0 <= i < |t.kids| && i != c.i ensures Clean(t.kids[i], Upper(t.keys, i, top)) {
      var j := if i < c.i then i else i + 1;
      assert t.kids[i] == c.kids[j] && Upper(t.keys, i, top) == Upper(c.keys, j, top);
    }
  }

  lemma {:induction false} WithoutBelow(es: seq<Entry<RID>>, e: Entry<RID>, hi: int)
    requires Below(es, hi)
    ensures Below(WithoutFirst(es, e), hi)
    decreases |es|
  {
    if es != [] && es[0] != e { WithoutBelow(es[1..], e, hi); }
  }

  lemma BorrowedBelow(a: seq<Entry<RID>>, b: seq<Entry<RID>>, mid: int, top: int)
    requires Below(a, mid) && LeafOk(b, mid, top, false) && Below(b, top) && |b| >= 2
    ensures Below(a + [b[0]], b[1].key) <==> b[0].key != b[1].key
    ensures Below(b[1..], top)
  {
    var s := a + [b[0]];
    assert s[|a|] == b[0];
  }

  lemma MergedBelow(a: seq<Entry<RID>>, b: seq<Entry<RID>>, mid: int, top: int)
    requires Below(a, mid) && LeafOk(b, mid, top, false) && Below(b, top)
    ensures Below(a + b, top)
  {
  }

  /** Rebalancing a leaf of a clean tree: merging never cuts a run of equal keys, borrowing does
      exactly if the entry it moves shares its key with the next one. */
  lemma RebalancedClean(c: DCtx, g: DTree, sl: Slotting, cp: Caps, lo: int, hi: int)
    requires WFC(c, cp, lo, hi, 0) && Knit(c) && g.Leaf?
    requires CleanC(c, hi) && Clean(g, CHi(c, hi)) && lo < hi && !cp.unique
    ensures Clean(Rebalanced(c, g, sl), hi)
        <==> !(Borrows(c, g, sl) && c.kids[c.i + 1].es[0].key == c.kids[c.i + 1].es[1].key)
  {
    if Underfull(c, g, sl) {
      var r, mid, top := c.kids[c.i + 1], c.keys[c.i], Upper(c.keys, c.i + 1, CHi(c.up, hi));
      assert WF(r, cp, mid, top, 0) && Clean(r, top);
      assert CHi(c, hi) == mid;
      assert LeafOk(r.es, mid, top, false) by { assert Shape(r, cp, mid, top, 0); }
      hide WF, WFC, Shape, CHi;
      if Borrows(c, g, sl) {
        var l', r' := Leaf(g.id, g.es + [r.es[0]]), Leaf(r.id, r.es[1..]);
        BorrowedBelow(g.es, r.es, mid, top);
        CleanReset(c, l', r.es[1].key, r', hi);
        CleanPlug(c.up, ResetKids(c, l', r.es[1].key, r'), hi);
      } else {
        var l' := Leaf(g.id, g.es + r.es);
        MergedBelow(g.es, r.es, mid, top);
        CleanMerge(c, l', hi);
        CleanPlug(c.up, MergeKids(c, l'), hi);
      }
    } else {
      CleanPlug(c, g, hi);
    }
  }

  lemma ShrunkClean(t: DTree, e: Entry<RID>, sl: Slotting, cp: Caps, lo: int, hi: int, h: nat)
    requires WF(t, cp, lo, hi, h) && !cp.unique && Clean(t, hi) && lo <= e.key < hi
    ensures Clean(Shrunk(t, e, sl), hi) <==> !BorrowCuts(t, e, sl)
  {
    ArriveSides(Top, t, e.key, cp, lo, hi, h);
    var s := Arrive(Top, t, e.key);
    CleanPlug(s.c, s.f, hi);
    if e in s.f.es {
      WithoutBelow(s.f.es, e, CHi(s.c, hi));
      RebalancedClean(s.c, Leaf(s.f.id, WithoutFirst(s.f.es, e)), sl, cp, lo, hi);
    }
  }
}
