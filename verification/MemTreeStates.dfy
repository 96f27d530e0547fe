/** The states the in-memory B+ tree passes through during one operation, and the steps between them. */
module MemTreeStates {
  import opened Common
  import opened OrderedMap
  import opened BTreeTheory
  import opened BTreeSteps
  import opened MemTreeNodes

  /** The heap, the root node and the order of the tree. */
  datatype Heap = Heap(cells: Cells, root: Node, order: nat)

  ghost function Cap(hp: Heap): Caps { Caps(hp.order, hp.order, true) }

  /** At rest: a balanced search tree with right parent pointers, its leaves chained in order. */
  ghost predicate Holding(hp: Heap, t: MTree, lo: int, hi: int, h: nat) {
    && hp.order >= 1
    && t.id == hp.root
    && WF(t, Cap(hp), lo, hi, h)
    && Rep(hp.cells, t) && Distinct(t)
    && Linked(hp.cells, Leaves(t))
  }

  ghost predicate Hole(hp: Heap, c: MCtx, fid: Node, lo: int, hi: int, hf: nat) {
    && hp.order >= 1 && lo < hi
    && WFC(c, Cap(hp), lo, hi, hf)
    && RepC(hp.cells, c, fid) && DistinctC(c)
    && RootNode(c, fid) == hp.root
  }

  /** A node stands in the hole, complete and ordered, perhaps one key too large; `chain` is all leaves. */
  ghost predicate Overfull(hp: Heap, c: MCtx, t: MTree, chain: seq<MTree>, lo: int, hi: int, hf: nat) {
    && Hole(hp, c, t.id, lo, hi, hf)
    && Shape(t, Cap(hp), CLo(c, lo), CHi(c, hi), hf)
    && Rep(hp.cells, t) && Distinct(t) && IdsC(c) !! Ids(t)
    && LL(c) + Leaves(t) + LR(c) == chain
    && Linked(hp.cells, chain)
  }

  ghost predicate InHole(hp: Heap, c: MCtx, t: MTree, chain: seq<MTree>, lo: int, hi: int, hf: nat) {
    Overfull(hp, c, t, chain, lo, hi, hf) && Fits(t, Cap(hp))
  }

  /** Two halves stand where one node was; the parent only knows the left one. */
  ghost predicate Halves(hp: Heap, c: MCtx, l: MTree, key: int, r: MTree, chain: seq<MTree>, lo: int, hi: int,
                         hf: nat) {
    && Hole(hp, c, l.id, lo, hi, hf)
    && CLo(c, lo) < key < CHi(c, hi)
    && WF(l, Cap(hp), CLo(c, lo), key, hf) && WF(r, Cap(hp), key, CHi(c, hi), hf)
    && Rep(hp.cells, l) && Rep(hp.cells, r)
    && Distinct(l) && Distinct(r) && Ids(l) !! Ids(r) && IdsC(c) !! Ids(l) && IdsC(c) !! Ids(r)
    && LL(c) + Leaves(l) + Leaves(r) + LR(c) == chain
    && Linked(hp.cells, chain)
  }

  // ---- entering, descending, leaving ----

  lemma Descend(hp: Heap, c: MCtx, t: MTree, chain: seq<MTree>, key: int, lo: int, hi: int, hf: nat)
    requires InHole(hp, c, t, chain, lo, hi, hf) && t.Node? && CLo(c, lo) <= key < CHi(c, hi)
    ensures var i := UpperIdx(t.keys, key);
      && i < |t.kids| == |t.keys| + 1 && hf > 0
      && hp.cells[t.id].keys == t.keys && |hp.cells[t.id].kids| == |t.kids| && hp.cells[t.id].kids[i] == t.kids[i].id
      && InHole(hp, Child(c, t, i), t.kids[i], chain, lo, hi, hf - 1)
      && CLo(Child(c, t, i), lo) <= key < CHi(Child(c, t, i), hi)
      && Plug(Child(c, t, i), t.kids[i]) == Plug(c, t)
  {
    hide Leaves, LL, LR, Linked, IdsC, Ids;
    var i := UpperIdx(t.keys, key);
    assert WF(t, Cap(hp), CLo(c, lo), CHi(c, hi), hf);
    WFDown(c, t, i, Cap(hp), lo, hi, hf);
    RepDown(hp.cells, c, t, i);
    DistinctDown(c, t, i);
    DescendLeaves(c, t, i);
    assert t.kids[i := t.kids[i]] == t.kids;
    assert WF(t.kids[i], Cap(hp), CLo(Child(c, t, i), lo), CHi(Child(c, t, i), hi), hf - 1);
  }

  lemma DescendLeaves(c: MCtx, t: MTree, i: nat)
    requires t.Node? && i < |t.kids|
    ensures LL(Child(c, t, i)) + Leaves(t.kids[i]) + LR(Child(c, t, i)) == LL(c) + Leaves(t) + LR(c)
  {
    hide LeavesF;
    LeavesSplit(t.kids, i);
    Outwards(LL(c), LeavesF(t.kids[..i]), Leaves(t.kids[i]), LeavesF(t.kids[i + 1..]), LR(c));
  }

  /** What is known of the node in the hole. */
  lemma Open(hp: Heap, c: MCtx, t: MTree, chain: seq<MTree>, lo: int, hi: int, hf: nat)
    requires Overfull(hp, c, t, chain, lo, hi, hf)
    ensures hp.order >= 1 && t.id in hp.cells && hp.cells[t.id].isLeaf == t.Leaf?
    ensures t.Leaf? ==>
      HoldsLeaf(hp.cells[t.id], t.es) && Sorted(t.es) && Within(t.es, CLo(c, lo), CHi(c, hi)) && hf == 0
    ensures !t.Leaf? ==> t.Node? && HoldsInner(hp.cells[t.id], t.keys, IdsOf(t.kids)) && |t.kids| == |t.keys| + 1
    ensures lo <= CLo(c, lo) < CHi(c, hi) <= hi
    ensures IdsC(c) <= hp.cells.Keys && Ids(t) <= hp.cells.Keys
  {
    CRange(c, Cap(hp), lo, hi, hf);
    RepCIds(hp.cells, c, t.id);
    RepIds(hp.cells, t);
  }

  lemma Close(hp: Heap, c: MCtx, t: MTree, chain: seq<MTree>, lo: int, hi: int, hf: nat)
    requires InHole(hp, c, t, chain, lo, hi, hf)
    ensures Holding(hp, Plug(c, t), lo, hi, hf + Depth(c)) && Leaves(Plug(c, t)) == chain
  {
    hide Rep, RepC, WFC, Shape, Fits, DistinctC, Distinct, Ids, IdsC, LL, LR, Plug, Leaves;
    WFCOk(c, Cap(hp), lo, hi, hf);
    WFPlug(c, t, Cap(hp), lo, hi, hf);
    RepPlug(hp.cells, c, t);
    RootOfPlug(c, t);
    DistinctPlug(c, t);
    LeavesPlug(c, t);
  }

  /** A key's place in the entries of all leaves. */
  lemma Surroundings(hp: Heap, c: MCtx, f: MTree, chain: seq<MTree>, lo: int, hi: int)
    requires InHole(hp, c, f, chain, lo, hi, 0) && f.Leaf?
    ensures Flat(chain) == CL(c) + f.es + CR(c)
    ensures Below(CL(c), CLo(c, lo)) && From(CHi(c, hi), CR(c))
    ensures |LL(c)| < |chain| && chain[|LL(c)|] == f && Flat(chain[..|LL(c)|]) == CL(c)
  {
    FlatSides(c);
    CSides(c, Cap(hp), lo, hi, 0);
    assert chain[..|LL(c)|] == LL(c);
    FlatConcat(LL(c) + [f], LR(c));
    FlatConcat(LL(c), [f]);
    FlatOne(f);
  }

  // ---- a leaf changes ----

  /** Rewriting the entries of the leaf in the hole keeps everything else in place. */
  lemma LeafChanged(hp: Heap, hp': Heap, c: MCtx, f: MTree, chain: seq<MTree>, cell: Cell, es: Entries, lo: int,
                    hi: int)
    requires InHole(hp, c, f, chain, lo, hi, 0) && f.Leaf?
    requires HoldsLeaf(cell, es) && Sorted(es) && Within(es, CLo(c, lo), CHi(c, hi))
    requires f.id in hp.cells && cell.next == hp.cells[f.id].next && cell.parent == hp.cells[f.id].parent
    requires hp' == hp.(cells := hp.cells[f.id := cell])
    ensures var g := Leaf(f.id, es); Overfull(hp', c, g, LL(c) + [g] + LR(c), lo, hi, 0)
  {
    hide LL, LR, Linked, WFC, Sorted, Within, CLo, CHi, IdsC, DistinctC;
    var g := Leaf(f.id, es);
    var chain' := LL(c) + [g] + LR(c);
    CRange(c, Cap(hp), lo, hi, 0);
    assert f.id in Ids(f);
    RepCFrame(hp.cells, hp'.cells, c, f.id);
    LeafWF(f.id, es, Caps(|es|, 0, true), CLo(c, lo), CHi(c, hi));
    LinkedRename(hp.cells, hp'.cells, chain, chain');
  }

  /** Leaves with the same nodes and next pointers are chained alike. */
  lemma LinkedRename(m: Cells, m': Cells, ls: seq<MTree>, ls': seq<MTree>)
    requires Linked(m, ls) && NextKept(m, m') && |ls| == |ls'| && forall i :: 0 <= i < |ls| ==> ls[i].id == ls'[i].id
    ensures Linked(m', ls')
  {
    forall i | 0 <= i < |ls'| ensures LinkedAt(m', ls', i) {
      assert LinkedAt(m, ls, i) && ls[i].id == ls'[i].id;
      if i + 1 < |ls'| { assert ls[i + 1].id == ls'[i + 1].id; }
    }
  }

  // ---- a leaf splits ----

  lemma CutEntries(es: Entries, mid: nat, lo: int, hi: int)
    requires Sorted(es) && Within(es, lo, hi) && 0 < mid < |es|
    ensures Sorted(es[..mid]) && Within(es[..mid], lo, es[mid].key)
    ensures Sorted(es[mid..]) && Within(es[mid..], es[mid].key, hi)
    ensures lo < es[mid].key < hi
    ensures KeysOf(es[..mid]) == KeysOf(es)[..mid] && KeysOf(es[mid..]) == KeysOf(es)[mid..]
    ensures BucketsOf(es[..mid]) == BucketsOf(es)[..mid] && BucketsOf(es[mid..]) == BucketsOf(es)[mid..]
  {
    assert es[0].key < es[mid].key;
  }

  lemma LeafWF(id: Node, es: Entries, cp: Caps, lo: int, hi: int)
    requires Sorted(es) && Within(es, lo, hi) && lo < hi && |es| <= cp.leaf && cp.unique
    ensures WF(Leaf(id, es), cp, lo, hi, 0)
  {
  }

  lemma LinkedSplit(m: Cells, m': Cells, a: seq<MTree>, g: MTree, l: MTree, r: MTree, b: seq<MTree>)
    requires Linked(m, a + [g] + b) && l.id == g.id && g.id in m && r.id !in m && r.id in m' && g.id in m'
    requires m'[g.id].next == r.id && m'[r.id].next == m[g.id].next
    requires forall n :: n in m && n != g.id ==> n in m' && m'[n].next == m[n].next
    requires forall i :: 0 <= i < |a| ==> a[i].id != g.id
    requires forall i :: 0 <= i < |b| ==> b[i].id != g.id
    ensures Linked(m', a + [l, r] + b)
  {
    var s, s' := a + [g] + b, a + [l, r] + b;
    assert s[|a|] == g;
    forall i | 0 <= i < |s'| ensures LinkedAt(m', s', i) {
      if i < |a| {
        assert LinkedAt(m, s, i) && s[i] == a[i] && s'[i] == a[i] && s'[i + 1].id == s[i + 1].id;
      } else if i == |a| {
        assert s'[i] == l && s'[i + 1] == r;
      } else if i == |a| + 1 {
        assert LinkedAt(m, s, |a|) && s'[i] == r;
        if i + 1 < |s'| { assert s'[i + 1] == s[i]; }
      } else {
        assert LinkedAt(m, s, i - 1) && s[i - 1] == b[i - |a| - 2] && s'[i] == b[i - |a| - 2];
        if i + 1 < |s'| { assert s'[i + 1] == s[i]; }
      }
    }
  }

  lemma {:induction false} LeavesInIds(t: MTree)
    ensures forall i :: 0 <= i < |Leaves(t)| ==> Leaves(t)[i].id in Ids(t)
    decreases t, 0
  {
    if t.Node? { LeavesInIdsF(t.kids); }
  }

  lemma {:induction false} LeavesInIdsF(ts: seq<MTree>)
    ensures forall i :: 0 <= i < |LeavesF(ts)| ==> LeavesF(ts)[i].id in IdsF(ts)
    decreases ts, 1
  {
    if ts != [] {
      LeavesInIds(ts[0]);
      LeavesInIdsF(ts[1..]);
    }
  }

  lemma {:induction false} SidesInIds(c: MCtx)
    ensures forall i :: 0 <= i < |LL(c)| ==> LL(c)[i].id in IdsC(c)
    ensures forall i :: 0 <= i < |LR(c)| ==> LR(c)[i].id in IdsC(c)
    decreases c
  {
    if c.Down? && c.i < |c.kids| {
      SidesInIds(c.up);
      LeavesInIdsF(c.kids[..c.i]);
      LeavesInIdsF(c.kids[c.i + 1..]);
    }
  }

  lemma CutChain(m: Cells, m': Cells, c: MCtx, g: MTree, l: MTree, r: MTree)
    requires Linked(m, LL(c) + [g] + LR(c)) && l.id == g.id && g.id !in IdsC(c)
    requires g.id in m && r.id !in m && r.id in m' && g.id in m'
    requires m'[g.id].next == r.id && m'[r.id].next == m[g.id].next
    requires forall n :: n in m && n != g.id ==> n in m' && m'[n].next == m[n].next
    ensures Linked(m', LL(c) + [l, r] + LR(c))
  {
    SidesInIds(c);
    LinkedSplit(m, m', LL(c), g, l, r, LR(c));
  }

  /** Cutting an overfull leaf: the new node takes the upper half and the old next pointer. */
  lemma LeafHalves(hp: Heap, hp': Heap, c: MCtx, g: MTree, chain: seq<MTree>, mid: nat, sib: Node, p: Cell, q: Cell,
                   lo: int, hi: int)
    requires Overfull(hp, c, g, chain, lo, hi, 0) && g.Leaf? && |g.es| == hp.order + 1 && mid == |g.es| / 2
    requires g.id in hp.cells && sib !in hp.cells
    requires HoldsLeaf(p, g.es[..mid]) && p.next == sib && p.parent == hp.cells[g.id].parent
    requires HoldsLeaf(q, g.es[mid..]) && q.next == hp.cells[g.id].next
    requires hp' == hp.(cells := hp.cells[g.id := p][sib := q])
    ensures var l, r := Leaf(g.id, g.es[..mid]), Leaf(sib, g.es[mid..]);
      Halves(hp', c, l, g.es[mid].key, r, LL(c) + [l, r] + LR(c), lo, hi, 0)
  {
    hide Sorted, Within, LeafOk, WFC, Linked, LL, LR, CLo, CHi, DistinctC, Between, IdsC;
    var l, r := Leaf(g.id, g.es[..mid]), Leaf(sib, g.es[mid..]);
    Open(hp, c, g, chain, lo, hi, 0);
    CutEntries(g.es, mid, CLo(c, lo), CHi(c, hi));
    LeafWF(g.id, g.es[..mid], Cap(hp'), CLo(c, lo), g.es[mid].key);
    LeafWF(sib, g.es[mid..], Cap(hp'), g.es[mid].key, CHi(c, hi));
    hide WF;
    assert g.id in Ids(g);
    RepCFrame(hp.cells, hp'.cells, c, g.id);
    CutChain(hp.cells, hp'.cells, c, g, l, r);
    assert LL(c) + [l] + [r] + LR(c) == LL(c) + [l, r] + LR(c);
  }

  // ---- the halves go into the parent ----

  lemma LeavesPair(l: MTree, r: MTree)
    ensures LeavesF([l, r]) == Leaves(l) + Leaves(r)
  {
    assert [l, r][1..] == [r];
    assert [r][1..] == [];
    assert LeavesF([r]) == Leaves(r);
  }

  lemma Regroup<T>(u: seq<T>, a: seq<T>, l: seq<T>, r: seq<T>, b: seq<T>, v: seq<T>)
    ensures u + (a + (l + r) + b) + v == (u + a) + l + r + (b + v)
  {
  }

  lemma InsertKidLeaves(c: MCtx, l: MTree, key: int, r: MTree)
    requires c.Down? && c.i < |c.kids| && c.i <= |c.keys|
    ensures LL(c.up) + Leaves(InsertKid(c, l, key, r)) + LR(c.up) == LL(c) + Leaves(l) + Leaves(r) + LR(c)
  {
    var a, b := c.kids[..c.i], c.kids[c.i + 1..];
    LeavesConcat(a + [l, r], b);
    LeavesConcat(a, [l, r]);
    LeavesPair(l, r);
    hide Leaves, LeavesF;
    Regroup(LL(c.up), LeavesF(a), Leaves(l), Leaves(r), LeavesF(b), LR(c.up));
  }

  /** What the parent of the halves looks like, and that `left` is the root only at the top. */
  lemma OpenHalves(hp: Heap, c: MCtx, l: MTree, key: int, r: MTree, chain: seq<MTree>, lo: int, hi: int, hf: nat)
    requires Halves(hp, c, l, key, r, chain, lo, hi, hf)
    ensures l.id in hp.cells && r.id in hp.cells && l.id != r.id && lo < key < hi
    ensures l.id == hp.root <==> c.Top?
    ensures c.Down? ==>
      && hp.cells[l.id].parent == c.id && c.id in hp.cells && c.id != l.id && c.id != r.id
      && HoldsInner(hp.cells[c.id], c.keys, IdsOf(c.kids)[c.i := l.id])
      && c.i < |c.kids| == |c.keys| + 1 && |c.keys| <= hp.order
      && UpperIdx(c.keys, key) == c.i && |hp.cells[c.id].kids| == |c.kids|
    ensures Ids(l) <= hp.cells.Keys && Ids(r) <= hp.cells.Keys
  {
    CRange(c, Cap(hp), lo, hi, hf);
    RepIds(hp.cells, l);
    RepIds(hp.cells, r);
    assert l.id in Ids(l) && r.id in Ids(r);
    if c.Down? {
      RootAbove(hp.cells, c, l.id);
      UpperAt(c.keys, key, c.i);
    }
  }

  lemma UpperAt(keys: seq<int>, key: int, i: nat)
    requires SortedKeys(keys, true) && i <= |keys|
    requires (i > 0 ==> keys[i - 1] <= key) && (i < |keys| ==> key < keys[i])
    ensures UpperIdx(keys, key) == i
  {
    var r := UpperIdx(keys, key);
    assert forall j, k :: 0 <= j <= k < |keys| ==> keys[j] <= keys[k];
  }

  lemma KidInserted(hp: Heap, hp': Heap, c: MCtx, l: MTree, key: int, r: MTree, chain: seq<MTree>, p: Cell, lo: int,
                    hi: int, hf: nat)
    requires Halves(hp, c, l, key, r, chain, lo, hi, hf) && c.Down?
    requires r.id in hp.cells && c.id in hp.cells && c.i < |c.kids| && c.i <= |c.keys|
    requires HoldsInner(p, c.keys[..c.i] + [key] + c.keys[c.i..], IdsOf(InsertKid(c, l, key, r).kids))
    requires p.next == hp.cells[c.id].next && p.parent == hp.cells[c.id].parent
    requires hp' == hp.(cells := hp.cells[r.id := hp.cells[r.id].(parent := c.id)][c.id := p])
    ensures Overfull(hp', c.up, InsertKid(c, l, key, r), chain, lo, hi, hf + 1)
  {
    hide WF, LL, LR, Leaves, RepC, Rep, Ids, IdsC, Distinct, DistinctC;
    InsertKidShape(c, l, key, r, Cap(hp), lo, hi, hf);
    InsertKidDistinct(c, l, key, r);
    InsertKidLeaves(c, l, key, r);
    InsertKidRep(hp, hp', c, l, key, r, chain, p, lo, hi, hf);
    LinkedKept(hp.cells, hp'.cells, chain);
    UpHole(hp, c, l.id, lo, hi, hf);
  }

  lemma UpHole(hp: Heap, c: MCtx, fid: Node, lo: int, hi: int, hf: nat)
    requires Hole(hp, c, fid, lo, hi, hf) && c.Down?
    ensures WFC(c.up, Cap(hp), lo, hi, hf + 1) && DistinctC(c.up) && RootNode(c.up, c.id) == hp.root
    ensures RepC(hp.cells, c.up, c.id)
  {
  }

  lemma InsertKidRep(hp: Heap, hp': Heap, c: MCtx, l: MTree, key: int, r: MTree, chain: seq<MTree>, p: Cell, lo: int,
                     hi: int, hf: nat)
    requires Halves(hp, c, l, key, r, chain, lo, hi, hf) && c.Down?
    requires r.id in hp.cells && c.id in hp.cells && c.i < |c.kids| && c.i <= |c.keys|
    requires HoldsInner(p, c.keys[..c.i] + [key] + c.keys[c.i..], IdsOf(InsertKid(c, l, key, r).kids))
    requires p.parent == hp.cells[c.id].parent
    requires hp' == hp.(cells := hp.cells[r.id := hp.cells[r.id].(parent := c.id)][c.id := p])
    ensures RepC(hp'.cells, c.up, c.id) && Rep(hp'.cells, InsertKid(c, l, key, r))
  {
    hide WF, WFC, LL, LR, Leaves, Linked;
    var m, m', t := hp.cells, hp'.cells, InsertKid(c, l, key, r);
    assert c.id in IdsC(c) && l.id in Ids(l) && r.id in Ids(r);
    RepCFrame(m, m', c.up, c.id);
    RepFrame(m, m', r);
    RepSame(m, m', l);
    KidsStay(m, m', c, l, key, r);
  }

  lemma KidsStay(m: Cells, m': Cells, c: MCtx, l: MTree, key: int, r: MTree)
    requires c.Down? && RepC(m, c, l.id) && DistinctC(c) && IdsC(c) !! Ids(r) && c.i < |c.kids| && c.i <= |c.keys|
    requires forall n :: n in m && n != c.id && n != r.id ==> n in m' && m'[n] == m[n]
    requires l.id in m' && m'[l.id].parent == c.id && Rep(m', l) && r.id in m' && m'[r.id].parent == c.id && Rep(m', r)
    ensures var kids := InsertKid(c, l, key, r).kids;
      forall j :: 0 <= j < |kids| ==> Rep(m', kids[j]) && kids[j].id in m' && m'[kids[j].id].parent == c.id
  {
    hide Rep, RepC, Ids, IdsC, DistinctC;
    var kids := InsertKid(c, l, key, r).kids;
    forall j | 0 <= j < |kids| ensures Rep(m', kids[j]) && kids[j].id in m' && m'[kids[j].id].parent == c.id {
      if j < c.i {
        KidStays(m, m', c, j, l.id, r);
      } else if j > c.i + 1 {
        assert kids[j] == c.kids[j - 1];
        KidStays(m, m', c, j - 1, l.id, r);
      }
    }
  }

  lemma KidStays(m: Cells, m': Cells, c: MCtx, j: nat, fid: Node, r: MTree)
    requires c.Down? && RepC(m, c, fid) && DistinctC(c) && j < |c.kids| && j != c.i && IdsC(c) !! Ids(r)
    requires forall n :: n in m && n != c.id && n != r.id ==> n in m' && m'[n] == m[n]
    ensures Rep(m', c.kids[j]) && c.kids[j].id in m' && m'[c.kids[j].id].parent == c.id
  {
    IdsCKid(c, j);
    KidDistinct(c, j);
    assert r.id in Ids(r) && c.kids[j].id in Ids(c.kids[j]);
    RepSame(m, m', c.kids[j]);
  }

  // ---- an internal node splits ----

  /** The heap with the parent pointer of every node of `ns` set to `p`. */
  ghost function Reparented(m: Cells, ns: seq<Node>, p: Node): Cells {
    map n | n in m :: if n !in m then NO_CELL else if n in ns then m[n].(parent := p) else m[n]
  }

  lemma SplitLeaves(t: MTree, mid: nat, sib: Node)
    requires t.Node? && mid < |t.keys| < |t.kids|
    ensures Leaves(LeftHalf(t, mid)) + Leaves(RightHalf(t, mid, sib)) == Leaves(t)
  {
    LeavesConcat(t.kids[..mid + 1], t.kids[mid + 1..]);
    assert t.kids == t.kids[..mid + 1] + t.kids[mid + 1..];
  }

  /** Cutting an overfull internal node: the upper children move to the new node and learn their new parent. */
  lemma InnerHalves(hp: Heap, hp': Heap, c: MCtx, t: MTree, chain: seq<MTree>, mid: nat, sib: Node, p: Cell, q: Cell,
                    lo: int, hi: int, hf: nat)
    requires Overfull(hp, c, t, chain, lo, hi, hf) && t.Node? && |t.keys| == hp.order + 1 && mid == |t.keys| / 2
    requires t.id in hp.cells && sib !in hp.cells && |t.kids| == |t.keys| + 1
    requires HoldsInner(p, t.keys[..mid], IdsOf(t.kids)[..mid + 1])
    requires p.next == hp.cells[t.id].next && p.parent == hp.cells[t.id].parent
    requires HoldsInner(q, t.keys[mid + 1..], IdsOf(t.kids)[mid + 1..])
    requires hp' == hp.(cells := Reparented(hp.cells, IdsOf(t.kids)[mid + 1..], sib)[t.id := p][sib := q])
    ensures Halves(hp', c, LeftHalf(t, mid), t.keys[mid], RightHalf(t, mid, sib), chain, lo, hi, hf)
  {
    hide WF, LL, LR, Leaves, RepC, Rep, WFC, Shape, DistinctC, Distinct, CLo, CHi, Linked, IdsC, RootNode, HoldsInner,
         IdsOf, Ids, IdsF;
    SplitIds(hp, c, t, chain, sib, lo, hi, hf);
    CRange(c, Cap(hp), lo, hi, hf);
    KeyInRange(t, mid, Cap(hp), CLo(c, lo), CHi(c, hi), hf);
    SplitShape(t, mid, sib, Cap(hp), CLo(c, lo), CHi(c, hi), hf);
    SplitDistinct(t, mid, sib);
    SplitLeaves(t, mid, sib);
    LinkedKept(hp.cells, hp'.cells, chain);
    SplitContext(hp, hp', c, t, chain, mid, sib, p, q, lo, hi, hf);
    SplitRep(hp.cells, hp'.cells, t, mid, sib, p, q);
  }

  // The new node is none of those in place.
  lemma SplitIds(hp: Heap, c: MCtx, t: MTree, chain: seq<MTree>, sib: Node, lo: int, hi: int, hf: nat)
    requires Overfull(hp, c, t, chain, lo, hi, hf) && sib !in hp.cells
    ensures t.id in Ids(t) && sib !in Ids(t) && sib !in IdsC(c)
  {
    RepCIds(hp.cells, c, t.id);
    RepIds(hp.cells, t);
  }

  lemma KeyInRange(t: MTree, mid: nat, cp: Caps, lo: int, hi: int, h: nat)
    requires t.Node? && cp.unique && Shape(t, cp, lo, hi, h) && mid < |t.keys|
    ensures lo < t.keys[mid] < hi
  {
  }

  lemma {:induction false} KidIdsIn(ts: seq<MTree>, i: nat)
    requires i < |ts|
    ensures ts[i].id in IdsF(ts) && Ids(ts[i]) <= IdsF(ts)
  {
    IdsSplit(ts, i);
    assert ts[i].id in Ids(ts[i]);
  }

  lemma SplitContext(hp: Heap, hp': Heap, c: MCtx, t: MTree, chain: seq<MTree>, mid: nat, sib: Node, p: Cell,
                     q: Cell, lo: int, hi: int, hf: nat)
    requires Overfull(hp, c, t, chain, lo, hi, hf) && t.Node? && mid < |t.keys| && |t.kids| == |t.keys| + 1
    requires t.id in hp.cells && sib !in hp.cells && p.parent == hp.cells[t.id].parent
    requires hp' == hp.(cells := Reparented(hp.cells, IdsOf(t.kids)[mid + 1..], sib)[t.id := p][sib := q])
    ensures RepC(hp'.cells, c, t.id)
  {
    hide WF, WFC, LL, LR, Leaves, Linked, Shape, Rep;
    RepCIds(hp.cells, c, t.id);
    var moved := IdsOf(t.kids)[mid + 1..];
    forall n | n in IdsC(c) ensures n !in moved && n != t.id {
      assert t.id in Ids(t);
      if n in moved {
        var i :| 0 <= i < |moved| && moved[i] == n;
        KidIdsIn(t.kids, mid + 1 + i);
      }
    }
    RepCFrame(hp.cells, hp'.cells, c, t.id);
  }

  lemma SplitRep(m: Cells, m': Cells, t: MTree, mid: nat, sib: Node, p: Cell, q: Cell)
    requires Rep(m, t) && Distinct(t) && t.Node? && mid < |t.keys| && |t.kids| == |t.keys| + 1 && sib !in m
    requires HoldsInner(p, t.keys[..mid], IdsOf(t.kids)[..mid + 1])
    requires HoldsInner(q, t.keys[mid + 1..], IdsOf(t.kids)[mid + 1..])
    requires m' == Reparented(m, IdsOf(t.kids)[mid + 1..], sib)[t.id := p][sib := q]
    ensures Rep(m', LeftHalf(t, mid)) && Rep(m', RightHalf(t, mid, sib))
  {
    var l, r := LeftHalf(t, mid), RightHalf(t, mid, sib);
    var moved := IdsOf(t.kids)[mid + 1..];
    forall j | 0 <= j < |t.kids|
      ensures Rep(m', t.kids[j]) && m'[t.kids[j].id].parent == if j <= mid then t.id else sib
    {
      SplitKid(m, m', t, mid, sib, p, q, j);
    }
    assert IdsOf(l.kids) == IdsOf(t.kids)[..mid + 1] && IdsOf(r.kids) == moved;
    forall j | 0 <= j < |l.kids| ensures Rep(m', l.kids[j]) && m'[l.kids[j].id].parent == t.id {
      assert l.kids[j] == t.kids[j];
    }
    forall j | 0 <= j < |r.kids| ensures Rep(m', r.kids[j]) && m'[r.kids[j].id].parent == sib {
      assert r.kids[j] == t.kids[mid + 1 + j];
    }
  }

  lemma SplitKid(m: Cells, m': Cells, t: MTree, mid: nat, sib: Node, p: Cell, q: Cell, j: nat)
    requires Rep(m, t) && Distinct(t) && t.Node? && mid < |t.keys|
    requires |t.kids| == |t.keys| + 1 && sib !in m && j < |t.kids|
    requires m' == Reparented(m, IdsOf(t.kids)[mid + 1..], sib)[t.id := p][sib := q]
    ensures Rep(m', t.kids[j]) && m'[t.kids[j].id].parent == if j <= mid then t.id else sib
  {
    var kid, moved := t.kids[j], IdsOf(t.kids)[mid + 1..];
    assert Rep(m, kid) && m[kid.id].parent == t.id;
    RepIds(m, t);
    IdsSplit(t.kids, j);
    assert kid.id in Ids(kid) && Distinct(kid) && t.id !in Ids(kid);
    forall i | 0 <= i < |t.kids| && i != j ensures t.kids[i].id !in Ids(kid) {
      KidsApart(t.kids, i, j);
    }
    forall n | n in moved && n in Ids(kid) ensures n == kid.id && j > mid {
      var i :| 0 <= i < |moved| && moved[i] == n;
      assert moved[i] == t.kids[mid + 1 + i].id;
    }
    if j > mid { assert moved[j - mid - 1] == kid.id; }
    RepFrame(m, m', kid);
  }

  lemma KidsApart(ts: seq<MTree>, i: nat, j: nat)
    requires DistinctF(ts) && i < |ts| && j < |ts| && i != j
    ensures ts[i].id !in Ids(ts[j])
  {
    IdsSplit(ts, j);
    if i < j {
      assert ts[..j][i] == ts[i];
      KidIdsIn(ts[..j], i);
    } else {
      assert ts[j + 1..][i - j - 1] == ts[i];
      KidIdsIn(ts[j + 1..], i - j - 1);
    }
  }

  // ---- the root grows ----

  lemma RootGrown(hp: Heap, hp': Heap, l: MTree, key: int, r: MTree, chain: seq<MTree>, top: Node, p: Cell, lo: int,
                  hi: int, h: nat)
    requires Halves(hp, Top, l, key, r, chain, lo, hi, h)
    requires l.id in hp.cells && r.id in hp.cells && top !in hp.cells && HoldsInner(p, [key], [l.id, r.id])
    requires hp'.cells ==
      hp.cells[l.id := hp.cells[l.id].(parent := top)][r.id := hp.cells[r.id].(parent := top)][top := p]
    requires hp'.root == top && hp'.order == hp.order
    ensures var t := Tree.Node(top, [key], [l, r]); Holding(hp', t, lo, hi, h + 1) && Leaves(t) == chain
  {
    hide WF, Shape, Linked, Distinct, Sorted;
    var t := Tree.Node(top, [key], [l, r]);
    assert l.id in Ids(l) && r.id in Ids(r);
    RepIds(hp.cells, l);
    RepIds(hp.cells, r);
    GrowRoot(l, key, r, top, Cap(hp), lo, hi, h);
    LeavesPair(l, r);
    LinkedKept(hp.cells, hp'.cells, chain);
    RepFrame(hp.cells, hp'.cells, l);
    RepFrame(hp.cells, hp'.cells, r);
    assert IdsOf(t.kids) == [l.id, r.id];
    forall i | 0 <= i < |t.kids| ensures Rep(hp'.cells, t.kids[i]) && hp'.cells[t.kids[i].id].parent == top {
      assert t.kids[i] == if i == 0 then l else r;
    }
    assert Rep(hp'.cells, t);
    assert Leaves(t) == chain;
  }
}
