/** The in-memory B+ tree index: heap nodes with parent and next pointers, one bucket of rows per key. */
module MemBPlusTree {
  import opened Common
  import opened OrderedMap
  import opened BTreeTheory
  import opened BTreeSteps
  import opened Buckets
  import opened MemTreeNodes
  import opened MemTreeStates

  /** The first position whose key is not below `k`. */
  function LowerIdx(s: seq<int>, k: int): (r: nat)
    ensures r <= |s|
    ensures forall i :: 0 <= i < r ==> s[i] < k
    ensures r < |s| ==> k <= s[r]
  {
    if s == [] || k <= s[0] then 0 else 1 + LowerIdx(s[1..], k)
  }

  // ---- what a change of one leaf does to the map ----

  /** Where a key is in a tree's entries: only the leaf it is routed to can hold it. */
  lemma LookUp(l: Entries, es: Entries, r: Entries, key: int, m: BucketMap)
    requires Lists(l + es + r, m) && Below(l, key) && From(key + 1, r) && Sorted(es)
    ensures var i := LowerIdx(KeysOf(es), key);
      && (key in m <==> i < |es| && es[i].key == key)
      && (i < |es| && es[i].key == key ==> m[key] == es[i].val)
      && (forall j :: 0 <= j < |es| && es[j].key == key ==> j == i)
  {
    var i := LowerIdx(KeysOf(es), key);
    var all := l + es + r;
    if i < |es| { assert KeysOf(es)[i] == es[i].key && all[|l| + i] == es[i]; }
    forall j | 0 <= j < |es| && es[j].key == key ensures j == i {
      assert KeysOf(es)[j] == es[j].key;
    }
    if key in m {
      var k :| 0 <= k < |all| && all[k].key == key;
      assert |l| <= k < |l| + |es|;
      assert es[k - |l|].key == key;
    }
  }

  lemma ReplaceLists(a: Entries, e: Entry<Bucket>, e': Entry<Bucket>, b: Entries, m: BucketMap)
    requires Sorted(a + [e] + b) && Lists(a + [e] + b, m) && e'.key == e.key
    ensures Lists(a + [e'] + b, m[e.key := e'.val])
  {
    var t, t', m' := a + [e] + b, a + [e'] + b, m[e.key := e'.val];
    assert t[|a|] == e;
    forall i | 0 <= i < |t'| ensures t'[i].key in m' && m'[t'[i].key] == t'[i].val {
      if i != |a| { assert t'[i] == t[i] && t[i].key != e.key; }
    }
    forall k | k in m' ensures exists i :: 0 <= i < |t'| && t'[i].key == k {
      var i :| 0 <= i < |t| && t[i].key == k;
      assert t'[i].key == k;
    }
  }

  // ---- the leaf a key is routed to changes ----

  ghost function ChainOf(c: MCtx, g: MTree): seq<MTree> { LL(c) + [g] + LR(c) }

  lemma ChainFlat(c: MCtx, g: MTree)
    requires g.Leaf?
    ensures Flat(ChainOf(c, g)) == CL(c) + g.es + CR(c)
  {
    hide LL, LR, CL, CR;
    FlatSides(c);
    FlatConcat(LL(c) + [g], LR(c));
    FlatConcat(LL(c), [g]);
    FlatOne(g);
  }

  lemma PairFlat(c: MCtx, l: MTree, r: MTree, es: Entries)
    requires l.Leaf? && r.Leaf? && l.es + r.es == es
    ensures Flat(LL(c) + [l, r] + LR(c)) == CL(c) + es + CR(c)
  {
    hide LL, LR, CL, CR;
    FlatSides(c);
    FlatConcat(LL(c) + [l, r], LR(c));
    FlatConcat(LL(c), [l, r]);
    FlatPair(l, r);
  }

  lemma LeafReplaced(hp: Heap, hp': Heap, c: MCtx, f: MTree, chain: seq<MTree>, cell: Cell, pos: nat,
                     e: Entry<Bucket>, lo: int, hi: int)
    requires InHole(hp, c, f, chain, lo, hi, 0) && f.Leaf? && pos < |f.es| && e.key == f.es[pos].key && f.id in hp.cells
    requires cell == hp.cells[f.id].(rids := BucketsOf(f.es)[pos := e.val])
    requires hp' == hp.(cells := hp.cells[f.id := cell])
    ensures var g := Leaf(f.id, f.es[pos := e]); Overfull(hp', c, g, ChainOf(c, g), lo, hi, 0) && Fits(g, Cap(hp'))
  {
    hide Hole, Rep, Linked, LL, LR, CLo, CHi, IdsC, Distinct;
    var es := f.es[pos := e];
    Open(hp, c, f, chain, lo, hi, 0);
    assert KeysOf(es) == KeysOf(f.es) && BucketsOf(es) == BucketsOf(f.es)[pos := e.val];
    assert forall i :: 0 <= i < |es| ==> es[i].key == f.es[i].key;
    assert Sorted(es) && Within(es, CLo(c, lo), CHi(c, hi));
    LeafChanged(hp, hp', c, f, chain, cell, es, lo, hi);
  }

  lemma NewKeySorted(es: Entries, pos: nat, e: Entry<Bucket>, lo: int, hi: int)
    requires Sorted(es) && Within(es, lo, hi) && lo <= e.key < hi
    requires pos == LowerIdx(KeysOf(es), e.key) <= |es| && (pos < |es| ==> es[pos].key != e.key)
    ensures Sorted(es[..pos] + [e] + es[pos..]) && Within(es[..pos] + [e] + es[pos..], lo, hi)
  {
    assert forall i :: 0 <= i < |es| ==> KeysOf(es)[i] == es[i].key;
    assert forall i :: 0 <= i < pos ==> es[i].key < e.key;
    assert pos < |es| ==> e.key < es[pos].key;
    InsertSorted(es, pos, e, lo, hi);
  }

  lemma LeafInserted(hp: Heap, hp': Heap, c: MCtx, f: MTree, chain: seq<MTree>, cell: Cell, pos: nat,
                     e: Entry<Bucket>, lo: int, hi: int)
    requires InHole(hp, c, f, chain, lo, hi, 0) && f.Leaf? && f.id in hp.cells && CLo(c, lo) <= e.key < CHi(c, hi)
    requires pos == LowerIdx(KeysOf(f.es), e.key) <= |f.es| && (pos < |f.es| ==> f.es[pos].key != e.key)
    requires cell == hp.cells[f.id].(
      keys := KeysOf(f.es)[..pos] + [e.key] + KeysOf(f.es)[pos..],
      rids := BucketsOf(f.es)[..pos] + [e.val] + BucketsOf(f.es)[pos..])
    requires hp' == hp.(cells := hp.cells[f.id := cell])
    ensures var g := Leaf(f.id, f.es[..pos] + [e] + f.es[pos..]);
      Overfull(hp', c, g, ChainOf(c, g), lo, hi, 0) && |g.es| == |cell.keys| <= hp.order + 1
  {
    hide Hole, Rep, Linked, LL, LR, CLo, CHi, IdsC, Distinct, Sorted, Within, LeafOk;
    var es := f.es[..pos] + [e] + f.es[pos..];
    Open(hp, c, f, chain, lo, hi, 0);
    assert KeysOf(es) == cell.keys && BucketsOf(es) == cell.rids;
    NewKeySorted(f.es, pos, e, CLo(c, lo), CHi(c, hi));
    LeafChanged(hp, hp', c, f, chain, cell, es, lo, hi);
  }

  lemma LeafShrunk(hp: Heap, hp': Heap, c: MCtx, f: MTree, chain: seq<MTree>, cell: Cell, pos: nat, lo: int, hi: int)
    requires InHole(hp, c, f, chain, lo, hi, 0) && f.Leaf? && pos < |f.es| && f.id in hp.cells
    requires cell == hp.cells[f.id].(
      keys := KeysOf(f.es)[..pos] + KeysOf(f.es)[pos + 1..],
      rids := BucketsOf(f.es)[..pos] + BucketsOf(f.es)[pos + 1..])
    requires hp' == hp.(cells := hp.cells[f.id := cell])
    ensures var g := Leaf(f.id, f.es[..pos] + f.es[pos + 1..]);
      Overfull(hp', c, g, ChainOf(c, g), lo, hi, 0) && Fits(g, Cap(hp'))
  {
    hide Hole, Rep, Linked, LL, LR, CLo, CHi, IdsC, Distinct;
    var es := f.es[..pos] + f.es[pos + 1..];
    Open(hp, c, f, chain, lo, hi, 0);
    assert KeysOf(es) == cell.keys && BucketsOf(es) == cell.rids;
    RemoveSorted(f.es, pos, CLo(c, lo), CHi(c, hi));
    LeafChanged(hp, hp', c, f, chain, cell, es, lo, hi);
  }

  /** The child pointers of the parent after the right half went in. */
  lemma KidIds(c: MCtx, l: MTree, key: int, r: MTree)
    requires c.Down? && c.i < |c.kids| && c.i <= |c.keys|
    ensures var ids := IdsOf(c.kids)[c.i := l.id];
      IdsOf(InsertKid(c, l, key, r).kids) == ids[..c.i + 1] + [r.id] + ids[c.i + 1..]
  {
    hide InsertKid;
    InsertKidKids(c, l, key, r);
    var kids, ids := c.kids, IdsOf(c.kids)[c.i := l.id];
    assert IdsOf(kids[..c.i] + [l, r] + kids[c.i + 1..]) == ids[..c.i + 1] + [r.id] + ids[c.i + 1..];
  }

  lemma InsertKidKids(c: MCtx, l: MTree, key: int, r: MTree)
    requires c.Down? && c.i < |c.kids| && c.i <= |c.keys|
    ensures InsertKid(c, l, key, r).kids == c.kids[..c.i] + [l, r] + c.kids[c.i + 1..]
  {
  }

  /** A parent's cell with the key and the right half added. */
  lemma KidAdded(p: Cell, p': Cell, c: MCtx, l: MTree, key: int, r: MTree)
    requires c.Down? && c.i < |c.kids| == |c.keys| + 1 && HoldsInner(p, c.keys, IdsOf(c.kids)[c.i := l.id])
    requires p' == p.(keys := p.keys[..c.i] + [key] + p.keys[c.i..],
                      kids := p.kids[..c.i + 1] + [r.id] + p.kids[c.i + 1..])
    ensures HoldsInner(p', c.keys[..c.i] + [key] + c.keys[c.i..], IdsOf(InsertKid(c, l, key, r).kids))
  {
    hide InsertKid, IdsOf;
    KidIds(c, l, key, r);
  }

  class BPlusTreeIndex {
    const order: nat
    var root: Node
    ghost var nodes: set<Node>
    ghost var tree: MTree

    ghost function Hp(): Heap
      reads this, nodes
    {
      Heap(Snap(nodes), root, order)
    }

    ghost predicate Valid()
      reads this, nodes
    {
      exists lo, hi, h :: Holding(Hp(), tree, lo, hi, h)
    }

    ghost function Model(): BucketMap
      reads this
    {
      ToMap(Contents(tree))
    }

    lemma ModelLists()
      requires Valid()
      ensures Sorted(Contents(tree)) && Lists(Contents(tree), Model()) && Contents(tree) == Flat(Leaves(tree))
    {
      var lo, hi, h :| Holding(Hp(), tree, lo, hi, h);
      ContentsSorted(tree, Cap(Hp()), lo, hi, h);
      ToMapLists(Contents(tree));
      FlatLeaves(tree);
    }

    lemma RangeAround(key: int) returns (lo: int, hi: int, h: nat)
      requires Valid()
      ensures Holding(Hp(), tree, lo, hi, h) && lo <= key < hi
    {
      var lo', hi', h' :| Holding(Hp(), tree, lo', hi', h');
      lo := if key < lo' then key else lo';
      hi := if key >= hi' then key + 1 else hi';
      h := h';
      Widen(tree, Cap(Hp()), lo', hi', h', lo, hi);
    }

    constructor (order: nat)
      requires order >= 1
      ensures Valid() && Model() == map[] && fresh(nodes)
    {
      this.order := order;
      var leaf := new Node(true);
      root := leaf;
      nodes := {leaf};
      tree := Leaf(leaf, []);
      new;
      assert Snap(nodes)[root] == CellOf(root);
      EmptyTree(Hp(), leaf);
      assert Holding(Hp(), tree, 0, 1, 0);
    }

    lemma EmptyTree(hp: Heap, leaf: Node)
      requires hp.order >= 1 && hp.root == leaf && leaf in hp.cells
      requires hp.cells[leaf] == Cell(true, [], [], [], null, null)
      ensures Holding(hp, Leaf(leaf, []), 0, 1, 0)
    {
      var t: MTree := Leaf(leaf, []);
      assert Leaves(t) == [t] && LinkedAt(hp.cells, Leaves(t), 0);
      assert HoldsLeaf(hp.cells[leaf], t.es) && Rep(hp.cells, t);
      assert Shape(t, Cap(hp), 0, 1, 0) && WF(t, Cap(hp), 0, 1, 0);
    }

    method FindLeaf(key: int, ghost lo: int, ghost hi: int, ghost h: nat)
      returns (cur: Node, ghost c: MCtx, ghost f: MTree)
      requires Holding(Hp(), tree, lo, hi, h) && lo <= key < hi
      ensures f.Leaf? && f.id == cur && cur in nodes && Plug(c, f) == tree
      ensures InHole(Hp(), c, f, Leaves(tree), lo, hi, 0)
      ensures CLo(c, lo) <= key < CHi(c, hi)
      ensures HoldsLeaf(CellOf(cur), f.es) && Sorted(f.es) && Within(f.es, CLo(c, lo), CHi(c, hi))
    {
      hide Holding, InHole, Overfull, Plug, CLo, CHi, Leaves, Rep, Shape, WF, Snap;
      ghost var hp, chain := Hp(), Leaves(tree);
      Start(lo, hi, h);
      cur := root;
      c, f := Top, tree;
      ghost var hf := h;
      Inside(c, f, chain, lo, hi, hf);
      while !cur.isLeaf
        invariant f.id == cur && cur in nodes && InHole(hp, c, f, chain, lo, hi, hf) && Plug(c, f) == tree
        invariant cur in hp.cells && CellOf(cur) == hp.cells[cur] && cur.isLeaf == f.Leaf?
        invariant CLo(c, lo) <= key < CHi(c, hi)
        decreases f
      {
        Descend(hp, c, f, chain, key, lo, hi, hf);
        var idx := UpperIdx(cur.keys, key);
        cur := cur.kids[idx];
        c, f, hf := Child(c, f, idx), f.kids[idx], hf - 1;
        Inside(c, f, chain, lo, hi, hf);
      }
      AtLeaf(c, f, chain, lo, hi, hf);
    }

    lemma Start(lo: int, hi: int, h: nat)
      requires Holding(Hp(), tree, lo, hi, h) && lo < hi
      ensures tree.id == root && InHole(Hp(), Top, tree, Leaves(tree), lo, hi, h) && Plug(Top, tree) == tree
      ensures CLo<Node, Bucket>(Top, lo) == lo && CHi<Node, Bucket>(Top, hi) == hi
    {
    }

    lemma Inside(c: MCtx, f: MTree, chain: seq<MTree>, lo: int, hi: int, hf: nat)
      requires InHole(Hp(), c, f, chain, lo, hi, hf)
      ensures f.id in nodes && f.id in Hp().cells && Hp().cells[f.id] == CellOf(f.id) && f.id.isLeaf == f.Leaf?
    {
      Open(Hp(), c, f, chain, lo, hi, hf);
    }

    lemma AtLeaf(c: MCtx, f: MTree, chain: seq<MTree>, lo: int, hi: int, hf: nat)
      requires InHole(Hp(), c, f, chain, lo, hi, hf) && f.Leaf?
      ensures f.id in nodes && HoldsLeaf(CellOf(f.id), f.es) && hf == 0
      ensures Sorted(f.es) && Within(f.es, CLo(c, lo), CHi(c, hi))
    {
      Open(Hp(), c, f, chain, lo, hi, hf);
    }

    // ---- insertion ----

    /** File a row under a key, which may already have rows. */
    method Insert(key: int, rid: RID)
      requires Valid()
      modifies this, nodes
      ensures Valid() && Model() == Added(old(Model()), key, rid) && Appends(old(Model()), Model(), key, rid)
      ensures old(nodes) <= nodes && fresh(nodes - old(nodes))
    {
      hide Valid, Holding, InHole, Overfull, Model, CL, CR, LL, LR, Leaves, Flat, Plug, CLo, CHi, Sorted, Within,
           Lists, Contents, LowerIdx, ToMap, Appends;
      AddedAppends(Model(), key, rid);
      ghost var lo, hi, h := RangeAround(key);
      ghost var c, f;
      var leaf;
      leaf, c, f := FindLeaf(key, lo, hi, h);
      ghost var hp, chain := Hp(), Leaves(tree);
      Locate(c, f, key, lo, hi);
      var pos := LowerIdx(leaf.keys, key);
      if pos < |leaf.keys| && leaf.keys[pos] == key {
        ghost var e := Entry(key, f.es[pos].val + [rid]);
        ghost var g: MTree := Leaf(leaf, f.es[pos := e]);
        leaf.rids := leaf.rids[pos := leaf.rids[pos] + [rid]];
        assert Snap(nodes) == hp.cells[leaf := CellOf(leaf)];
        LeafReplaced(hp, Hp(), c, f, chain, CellOf(leaf), pos, e, lo, hi);
        Settle(c, g, ChainOf(c, g), lo, hi, 0);
        ReplacedModel(c, f.es, pos, e, g, old(Model()), old(Contents(tree)));
        return;
      }
      assert RowsAt(old(Model()), key) + [rid] == [rid];
      ghost var e := Entry(key, [rid]);
      ghost var g: MTree := Leaf(leaf, f.es[..pos] + [e] + f.es[pos..]);
      leaf.keys := leaf.keys[..pos] + [key] + leaf.keys[pos..];
      leaf.rids := leaf.rids[..pos] + [[rid]] + leaf.rids[pos..];
      assert Snap(nodes) == hp.cells[leaf := CellOf(leaf)];
      LeafInserted(hp, Hp(), c, f, chain, CellOf(leaf), pos, e, lo, hi);
      if |leaf.keys| > order {
        SplitLeaf(leaf, c, g, ChainOf(c, g), lo, hi);
      } else {
        Settle(c, g, ChainOf(c, g), lo, hi, 0);
        ChainFlat(c, g);
      }
      InsertedModel(c, f.es, pos, e, old(Model()), old(Contents(tree)));
    }

    // The heap is final: the tree is the one with `t` in the hole.
    ghost method Settle(c: MCtx, t: MTree, chain: seq<MTree>, lo: int, hi: int, hf: nat)
      requires Overfull(Hp(), c, t, chain, lo, hi, hf) && Fits(t, Cap(Hp()))
      modifies this`tree
      ensures Valid() && Leaves(tree) == chain
    {
      hide Overfull, Holding, Plug, Leaves;
      Close(Hp(), c, t, chain, lo, hi, hf);
      tree := Plug(c, t);
      assert Holding(Hp(), tree, lo, hi, hf + Depth(c));
    }

    lemma ReplacedModel(c: MCtx, es: Entries, pos: nat, e: Entry<Bucket>, g: MTree, m: BucketMap, before: Entries)
      requires Valid() && g.Leaf? && pos < |es| && g.es == es[pos := e] && e.key == es[pos].key
      requires Leaves(tree) == ChainOf(c, g) && before == CL(c) + es + CR(c) && Lists(before, m) && Sorted(before)
      ensures Model() == m[e.key := e.val]
    {
      hide Valid, Model, CL, CR, Leaves, Flat;
      ModelLists();
      ChainFlat(c, g);
      var a, b := CL(c) + es[..pos], es[pos + 1..] + CR(c);
      assert before == a + [es[pos]] + b;
      assert Contents(tree) == a + [e] + b;
      ReplaceLists(a, es[pos], e, b, m);
      ListsUnique(Contents(tree), Model(), m[e.key := e.val]);
    }

    lemma InsertedModel(c: MCtx, es: Entries, pos: nat, e: Entry<Bucket>, m: BucketMap, before: Entries)
      requires Valid() && pos <= |es|
      requires Flat(Leaves(tree)) == CL(c) + (es[..pos] + [e] + es[pos..]) + CR(c)
      requires before == CL(c) + es + CR(c) && Lists(before, m)
      ensures Model() == m[e.key := e.val] && e.key !in m
    {
      hide Valid, Model, CL, CR, Leaves, Flat;
      ModelLists();
      var a, b := CL(c) + es[..pos], es[pos..] + CR(c);
      assert before == a + b;
      assert Contents(tree) == a + [e] + b;
      InsertLists(a, e, b, m);
      ListsUnique(Contents(tree), Model(), m[e.key := e.val]);
    }

    /** Move the upper half of an overfull leaf to a new node and hand the new separator upwards. */
    method SplitLeaf(leaf: Node, ghost c: MCtx, ghost g: MTree, ghost chain: seq<MTree>, ghost lo: int, ghost hi: int)
      requires g.Leaf? && g.id == leaf && |g.es| == order + 1 && Overfull(Hp(), c, g, chain, lo, hi, 0)
      modifies this, nodes
      ensures Valid() && Flat(Leaves(tree)) == CL(c) + g.es + CR(c)
      ensures old(nodes) <= nodes && fresh(nodes - old(nodes))
    {
      hide Overfull, Halves, CL, CR, LL, LR, Leaves, Flat, CLo, CHi, Snap;
      ghost var hp := Hp();
      Open(hp, c, g, chain, lo, hi, 0);
      LeafHere(leaf);
      CutEntries(g.es, |g.es| / 2, CLo(c, lo), CHi(c, hi));
      var mid := |leaf.keys| / 2;
      var sibling := CutLeafNode(leaf, mid);
      LeafHalves(hp, Hp(), c, g, chain, mid, sibling, CellOf(leaf), CellOf(sibling), lo, hi);
      ghost var l: MTree, r: MTree := Leaf(leaf, g.es[..mid]), Leaf(sibling, g.es[mid..]);
      PairFlat(c, l, r, g.es);
      InsertIntoParent(leaf, sibling.keys[0], sibling, c, l, r, LL(c) + [l, r] + LR(c), lo, hi, 0);
    }

    lemma LeafHere(leaf: Node)
      requires leaf in Hp().cells
      ensures leaf in nodes && Hp().cells[leaf] == CellOf(leaf)
      ensures Hp().cells.Keys == nodes
    {
    }

    // Cut a leaf: a new node takes the entries from `mid` on and the next pointer.
    method CutLeafNode(leaf: Node, mid: nat) returns (sibling: Node)
      requires leaf in nodes && mid <= |leaf.keys| == |leaf.rids|
      modifies this`nodes, leaf
      ensures fresh(sibling) && nodes == old(nodes) + {sibling}
      ensures Snap(nodes) == old(Snap(nodes))[leaf := CellOf(leaf)][sibling := CellOf(sibling)]
      ensures CellOf(leaf) ==
        old(CellOf(leaf)).(keys := old(leaf.keys)[..mid], rids := old(leaf.rids)[..mid], next := sibling)
      ensures CellOf(sibling) == Cell(true, old(leaf.keys)[mid..], [], old(leaf.rids)[mid..], old(leaf.next), null)
    {
      hide Snap;
      ghost var before := nodes;
      sibling := new Node(true);
      MoveEntries(leaf, sibling, mid, before);
      nodes := nodes + {sibling};
      SnapMore(before, sibling);
    }

    method MoveEntries(leaf: Node, sibling: Node, mid: nat, ghost before: set<Node>)
      requires leaf in before && sibling !in before && mid <= |leaf.keys| == |leaf.rids|
      modifies leaf, sibling
      ensures Snap(before) == old(Snap(before))[leaf := CellOf(leaf)]
      ensures CellOf(leaf) ==
        old(CellOf(leaf)).(keys := old(leaf.keys)[..mid], rids := old(leaf.rids)[..mid], next := sibling)
      ensures CellOf(sibling) ==
        old(CellOf(sibling)).(keys := old(leaf.keys)[mid..], rids := old(leaf.rids)[mid..], next := old(leaf.next))
    {
      sibling.keys := leaf.keys[mid..];
      sibling.rids := leaf.rids[mid..];
      leaf.keys := leaf.keys[..mid];
      leaf.rids := leaf.rids[..mid];
      sibling.next := leaf.next;
      leaf.next := sibling;
    }

    /** Record the right half in the parent node; split upwards if it overflows. */
    method InsertIntoParent(left: Node, key: int, right: Node, ghost c: MCtx, ghost l: MTree, ghost r: MTree,
                            ghost chain: seq<MTree>, ghost lo: int, ghost hi: int, ghost hf: nat)
      requires l.id == left && r.id == right && Halves(Hp(), c, l, key, r, chain, lo, hi, hf)
      modifies this, nodes
      ensures Valid() && Leaves(tree) == chain
      ensures old(nodes) <= nodes && fresh(nodes - old(nodes))
      decreases c, 0
    {
      hide Valid, Overfull, Halves, Holding, Leaves, LL, LR, IdsC, Ids, CLo, CHi, RootNode, IdsOf;
      ghost var hp := Hp();
      OpenHalves(hp, c, l, key, r, chain, lo, hi, hf);
      if left == root {
        GrowNewRoot(left, key, right, l, r, chain, lo, hi, hf);
        return;
      }
      var parent := left.parent;
      assert parent == c.id && parent in nodes;
      var pos := UpperIdx(parent.keys, key);
      ghost var t := InsertKid(c, l, key, r);
      AddKid(parent, pos, key, right);
      KidAdded(hp.cells[parent], CellOf(parent), c, l, key, r);
      KidInserted(hp, Hp(), c, l, key, r, chain, CellOf(parent), lo, hi, hf);
      if |parent.keys| > order {
        SplitInternal(parent, c.up, t, chain, lo, hi, hf + 1);
      } else {
        Settle(c.up, t, chain, lo, hi, hf + 1);
      }
    }

    /** A new root above the two halves of the old one. */
    method Adopt(top: Node, left: Node, key: int, right: Node, ghost before: set<Node>)
      requires top !in before && left in before && right in before && left != right
      modifies top, left, right
      ensures left in old(Snap(before)) && right in old(Snap(before))
      ensures Snap(before) ==
        old(Snap(before))
          [left := old(Snap(before)[left]).(parent := top)][right := old(Snap(before)[right]).(parent := top)]
      ensures CellOf(top) == old(CellOf(top)).(keys := [key], kids := [left, right])
    {
      top.keys := [key];
      left.parent := top;
      right.parent := top;
      top.kids := [left, right];
    }

    method GrowNewRoot(left: Node, key: int, right: Node, ghost l: MTree, ghost r: MTree,
                       ghost chain: seq<MTree>, ghost lo: int, ghost hi: int, ghost h: nat)
      requires left == root && l.id == left && r.id == right && Halves(Hp(), Top, l, key, r, chain, lo, hi, h)
      modifies this, nodes
      ensures Valid() && Leaves(tree) == chain
      ensures old(nodes) <= nodes && fresh(nodes - old(nodes))
    {
      hide Halves, Holding, Leaves, Snap;
      ghost var hp, before := Hp(), nodes;
      SnapKeys(nodes);
      OpenHalves(hp, Top, l, key, r, chain, lo, hi, h);
      var top := new Node(false);
      Adopt(top, left, key, right, before);
      root := top;
      nodes := nodes + {top};
      SnapMore(before, top);
      RootGrown(hp, Hp(), l, key, r, chain, top, CellOf(top), lo, hi, h);
      tree := Tree.Node(top, [key], [l, r]);
      assert Holding(Hp(), tree, lo, hi, h + 1);
    }

    /** Move the upper half of an overfull internal node to a new node; the middle key moves up. */
    method SplitInternal(node: Node, ghost c: MCtx, ghost t: MTree, ghost chain: seq<MTree>, ghost lo: int,
                         ghost hi: int, ghost hf: nat)
      requires t.Node? && t.id == node && |t.keys| == order + 1 && Overfull(Hp(), c, t, chain, lo, hi, hf)
      modifies this, nodes
      ensures Valid() && Leaves(tree) == chain
      ensures old(nodes) <= nodes && fresh(nodes - old(nodes))
      decreases c, 1
    {
      hide Valid, Overfull, Halves, Leaves;
      var up, sibling, mid := CutInner(node, c, t, chain, lo, hi, hf);
      InsertIntoParent(node, up, sibling, c, LeftHalf(t, mid), RightHalf(t, mid, sibling), chain, lo, hi, hf);
    }

    // The node writes of an internal split.
    method CutInner(node: Node, ghost c: MCtx, ghost t: MTree, ghost chain: seq<MTree>, ghost lo: int, ghost hi: int,
                    ghost hf: nat)
      returns (up: int, sibling: Node, mid: nat)
      requires t.Node? && t.id == node && |t.keys| == order + 1 && Overfull(Hp(), c, t, chain, lo, hi, hf)
      modifies this`nodes, nodes
      ensures mid < |t.keys| < |t.kids| && sibling in nodes
      ensures Halves(Hp(), c, LeftHalf(t, mid), up, RightHalf(t, mid, sibling), chain, lo, hi, hf)
      ensures old(nodes) <= nodes && fresh(nodes - old(nodes))
    {
      hide Overfull, Halves, Leaves, LL, LR, Ids, IdsC, CLo, CHi;
      ghost var hp := Hp();
      Open(hp, c, t, chain, lo, hi, hf);
      KidsHere(c, t, chain, lo, hi, hf);
      mid := |node.keys| / 2;
      up := node.keys[mid];
      sibling := CutNode(node, mid);
      InnerHalves(hp, Hp(), c, t, chain, mid, sibling, CellOf(node), CellOf(sibling), lo, hi, hf);
    }

    lemma KidsHere(c: MCtx, t: MTree, chain: seq<MTree>, lo: int, hi: int, hf: nat)
      requires t.Node? && Overfull(Hp(), c, t, chain, lo, hi, hf)
      ensures forall i :: 0 <= i < |t.kids| ==> t.kids[i].id in nodes && t.kids[i].id != t.id
    {
      RepIds(Hp().cells, t);
      forall i | 0 <= i < |t.kids| ensures t.kids[i].id in nodes && t.kids[i].id != t.id {
        KidIdsIn(t.kids, i);
      }
    }

    // Enter a key and the child after it into an internal node.
    method AddKid(parent: Node, pos: nat, key: int, right: Node)
      requires parent in nodes && right in nodes && parent != right && pos <= |parent.keys| < |parent.kids|
      modifies parent, right
      ensures Snap(nodes) == old(Snap(nodes))[right := old(CellOf(right)).(parent := parent)][parent := CellOf(parent)]
      ensures CellOf(parent) == old(CellOf(parent)).(
        keys := old(parent.keys)[..pos] + [key] + old(parent.keys)[pos..],
        kids := old(parent.kids)[..pos + 1] + [right] + old(parent.kids)[pos + 1..])
    {
      right.parent := parent;
      parent.keys := parent.keys[..pos] + [key] + parent.keys[pos..];
      parent.kids := parent.kids[..pos + 1] + [right] + parent.kids[pos + 1..];
    }

    // Cut an internal node: a new node takes the keys after `mid` and the children below them.
    method CutNode(node: Node, mid: nat) returns (sibling: Node)
      requires node in nodes && mid < |node.keys| < |node.kids|
      requires forall n :: n in node.kids ==> n in nodes && n != node
      modifies this`nodes, nodes
      ensures fresh(sibling) && nodes == old(nodes) + {sibling}
      ensures Snap(nodes) ==
        Reparented(old(Snap(nodes)), old(node.kids)[mid + 1..], sibling)
          [node := CellOf(node)][sibling := CellOf(sibling)]
      ensures CellOf(node) == old(CellOf(node)).(keys := old(node.keys)[..mid], kids := old(node.kids)[..mid + 1])
      ensures CellOf(sibling) == Cell(false, old(node.keys)[mid + 1..], old(node.kids)[mid + 1..], [], null, null)
    {
      hide Reparented, Snap;
      ghost var before := nodes;
      sibling := new Node(false);
      sibling.keys := node.keys[mid + 1..];
      MoveKids(node, sibling, mid, before);
      Truncate(node, mid, before);
      nodes := nodes + {sibling};
      SnapMore(before, sibling);
    }

    method Truncate(node: Node, mid: nat, ghost before: set<Node>)
      requires node in before && mid < |node.keys| < |node.kids|
      modifies node
      ensures Snap(before) == old(Snap(before))[node := CellOf(node)]
      ensures CellOf(node) == old(CellOf(node)).(keys := old(node.keys)[..mid], kids := old(node.kids)[..mid + 1])
    {
      node.keys := node.keys[..mid];
      node.kids := node.kids[..mid + 1];
    }

    lemma SnapMore(ns: set<Node>, n: Node)
      requires n !in ns
      ensures Snap(ns + {n}) == Snap(ns)[n := CellOf(n)]
    {
    }

    method MoveKid(kid: Node, sibling: Node, ghost before: set<Node>)
      requires kid in before && sibling !in before
      modifies kid, sibling
      ensures kid in old(Snap(before))
      ensures Snap(before) == old(Snap(before))[kid := old(Snap(before)[kid]).(parent := sibling)]
      ensures CellOf(sibling) == old(CellOf(sibling)).(kids := old(sibling.kids) + [kid])
    {
      kid.parent := sibling;
      sibling.kids := sibling.kids + [kid];
    }

    /** The loop that hands the upper children over to the new node. */
    method MoveKids(node: Node, sibling: Node, mid: nat, ghost before: set<Node>)
      requires node in before && mid < |node.kids| && sibling !in before && sibling.kids == []
      requires forall n :: n in node.kids ==> n in before && n != node
      modifies before, sibling
      ensures Snap(before) == Reparented(old(Snap(before)), old(node.kids)[mid + 1..], sibling)
      ensures CellOf(sibling) == old(CellOf(sibling)).(kids := old(node.kids)[mid + 1..])
      ensures CellOf(node) == old(CellOf(node))
    {
      hide Snap, Reparented;
      ghost var ids, was := node.kids, Snap(before);
      var i := mid + 1;
      NoneReparented(was, sibling);
      assert ids[mid + 1..i] == [];
      assert forall n :: n in ids ==> n in was by { SnapKeys(before); }
      while i < |node.kids|
        invariant mid < i <= |node.kids| && CellOf(node) == old(CellOf(node))
        invariant Snap(before) == Reparented(was, ids[mid + 1..i], sibling)
        invariant CellOf(sibling) == old(CellOf(sibling)).(kids := ids[mid + 1..i])
      {
        MoveKid(node.kids[i], sibling, before);
        MoreReparented(was, ids, mid + 1, i, sibling);
        i := i + 1;
      }
      assert ids[mid + 1..i] == ids[mid + 1..];
    }

    lemma SnapKeys(ns: set<Node>)
      ensures Snap(ns).Keys == ns
    {
    }

    lemma NoneReparented(m: Cells, p: Node)
      ensures Reparented(m, [], p) == m
    {
    }

    lemma MoreReparented(m: Cells, ids: seq<Node>, from: nat, i: nat, p: Node)
      requires from <= i < |ids| && ids[i] in m
      ensures ids[from..i + 1] == ids[from..i] + [ids[i]]
      ensures var r := Reparented(m, ids[from..i], p);
        ids[i] in r && Reparented(m, ids[from..i + 1], p) == r[ids[i] := r[ids[i]].(parent := p)]
    {
    }

    // ---- removal ----

    /** Take a row out of its key's bucket; an empty bucket goes, its leaf stays. */
    method Erase(key: int, rid: RID) returns (erased: bool)
      requires Valid()
      modifies this, nodes
      ensures Valid() && nodes == old(nodes)
      ensures erased <==> rid in RowsAt(old(Model()), key)
      ensures Model() == Removed(old(Model()), key, rid) && Drops(old(Model()), Model(), key, rid)
    {
      hide Valid, Holding, InHole, Overfull, Model, CL, CR, LL, LR, Leaves, Flat, Plug, CLo, CHi, Sorted, Within,
           Lists, Contents, LowerIdx, ToMap, Drops;
      RemovedDrops(Model(), key, rid);
      ghost var lo, hi, h := RangeAround(key);
      ghost var c, f;
      var leaf;
      leaf, c, f := FindLeaf(key, lo, hi, h);
      ghost var hp, chain := Hp(), Leaves(tree);
      Locate(c, f, key, lo, hi);
      var pos := LowerIdx(leaf.keys, key);
      if pos == |leaf.keys| || leaf.keys[pos] != key { return false; }
      var rows := leaf.rids[pos];
      var at := Position(rows, rid);
      if at == |rows| { return false; }
      rows := rows[..at] + rows[at + 1..];
      erased := true;
      if rows != [] {
        ghost var e := Entry(key, rows);
        ghost var g: MTree := Leaf(leaf, f.es[pos := e]);
        leaf.rids := leaf.rids[pos := rows];
        assert Snap(nodes) == hp.cells[leaf := CellOf(leaf)];
        LeafReplaced(hp, Hp(), c, f, chain, CellOf(leaf), pos, e, lo, hi);
        Settle(c, g, ChainOf(c, g), lo, hi, 0);
        ReplacedModel(c, f.es, pos, e, g, old(Model()), old(Contents(tree)));
      } else {
        ghost var g: MTree := Leaf(leaf, f.es[..pos] + f.es[pos + 1..]);
        leaf.keys := leaf.keys[..pos] + leaf.keys[pos + 1..];
        leaf.rids := leaf.rids[..pos] + leaf.rids[pos + 1..];
        assert Snap(nodes) == hp.cells[leaf := CellOf(leaf)];
        LeafShrunk(hp, Hp(), c, f, chain, CellOf(leaf), pos, lo, hi);
        Settle(c, g, ChainOf(c, g), lo, hi, 0);
        ShrunkModel(c, f.es, pos, g, old(Model()), old(Contents(tree)));
      }
    }

    lemma ShrunkModel(c: MCtx, es: Entries, pos: nat, g: MTree, m: BucketMap, before: Entries)
      requires Valid() && g.Leaf? && pos < |es| && g.es == es[..pos] + es[pos + 1..]
      requires Leaves(tree) == ChainOf(c, g) && before == CL(c) + es + CR(c) && Lists(before, m) && Sorted(before)
      ensures Model() == m - {es[pos].key}
    {
      hide Valid, Model, CL, CR, Leaves, Flat;
      ModelLists();
      ChainFlat(c, g);
      var a, b := CL(c) + es[..pos], es[pos + 1..] + CR(c);
      assert before == a + [es[pos]] + b;
      assert Contents(tree) == a + b;
      RemoveLists(a, es[pos], b, m);
      ListsUnique(Contents(tree), Model(), m - {es[pos].key});
    }

    // ---- queries ----

    method Find(key: int) returns (out: Bucket)
      requires Valid()
      ensures out == RowsAt(Model(), key)
    {
      hide Valid, Holding, InHole, Model, CL, CR, Leaves, Flat, Plug;
      ghost var lo, hi, h := RangeAround(key);
      ghost var c, f;
      var leaf;
      leaf, c, f := FindLeaf(key, lo, hi, h);
      Locate(c, f, key, lo, hi);
      var i := LowerIdx(leaf.keys, key);
      if i < |leaf.keys| && leaf.keys[i] == key { return leaf.rids[i]; }
      return [];
    }

    /** The routed leaf decides about a key. */
    lemma Locate(c: MCtx, f: MTree, key: int, lo: int, hi: int)
      requires Valid() && InHole(Hp(), c, f, Leaves(tree), lo, hi, 0) && f.Leaf? && CLo(c, lo) <= key < CHi(c, hi)
      ensures Contents(tree) == CL(c) + f.es + CR(c) && Lists(Contents(tree), Model()) && Sorted(Contents(tree))
      ensures var i := LowerIdx(KeysOf(f.es), key);
        && (key in Model() <==> i < |f.es| && f.es[i].key == key)
        && (i < |f.es| && f.es[i].key == key ==> Model()[key] == f.es[i].val)
        && (forall j :: 0 <= j < |f.es| && f.es[j].key == key ==> j == i)
    {
      hide Valid, Holding, CL, CR, Leaves, Flat, Contents, ToMap, CLo, CHi, Hole, Rep, Linked, IdsC, Ids;
      ModelLists();
      Surroundings(Hp(), c, f, Leaves(tree), lo, hi);
      Open(Hp(), c, f, Leaves(tree), lo, hi, 0);
      LookUp(CL(c), f.es, CR(c), key, Model());
    }

    /** Walk the leaf chain from the leaf `lo` is routed to until a key passes `hi`. */
    method Range(lo: int, hi: int) returns (out: Bucket)
      requires Valid()
      ensures out == RowsBetween(Model(), lo, hi)
    {
      hide Valid, Holding, InHole, Model, CL, CR, Flat, Plug, InRange, Joined, Listing, Linked, Rep, ToMap, Contents,
           Leaves;
      ghost var klo, khi, h := RangeAround(lo);
      ghost var c, f;
      var leaf: Node?;
      leaf, c, f := FindLeaf(lo, klo, khi, h);
      ghost var ls, p := Leaves(tree), |LL(c)|;
      WalkStart(c, f, lo, klo, khi);
      ModelLists();
      ListingIs(Contents(tree), Model());
      out := [];
      ghost var i := p;
      NothingYet(ls, p, lo, hi);
      while leaf != null
        invariant p <= i <= |ls| && (leaf != null ==> i < |ls|) && leaf == (if i < |ls| then ls[i].id else null)
        invariant out == Joined(InRange(Flat(ls[p..i]), lo, hi))
        decreases |ls| - i
      {
        WalkStep(i);
        var past;
        out, past := CollectLeaf(leaf, lo, hi, out, ls[i].es);
        OneMore(ls, p, i, lo, hi);
        i := i + 1;
        if past {
          RangeSeen(ls, p, i, lo, hi);
          return;
        }
        leaf := leaf.next;
      }
      RangeSeen(ls, p, i, lo, hi);
    }

    /** Append the rows of one leaf with keys in [lo, hi]; `past` once a larger key is met. */
    method CollectLeaf(leaf: Node, lo: int, hi: int, acc: Bucket, ghost es: Entries) returns (out: Bucket, past: bool)
      requires HoldsLeaf(CellOf(leaf), es) && Sorted(es)
      ensures out == acc + Joined(InRange(es, lo, hi))
      ensures past ==> es != [] && hi < es[|es| - 1].key
    {
      hide InRange, Joined, Sorted;
      out, past := acc, false;
      var i := 0;
      InRangeNone(es[..0], lo, hi);
      JoinedNone();
      while i < |leaf.keys|
        invariant i <= |es| == |leaf.keys| && out == acc + Joined(InRange(es[..i], lo, hi))
      {
        assert leaf.keys[i] == es[i].key && leaf.rids[i] == es[i].val;
        InRangeStep(es, i, lo, hi);
        if leaf.keys[i] >= lo {
          if leaf.keys[i] > hi {
            past := true;
            SortedAscends(es);
            InRangeStop(es, i, lo, hi);
            return;
          }
          JoinedStep(InRange(es[..i], lo, hi), es[i].val);
          out := out + leaf.rids[i];
        } else {
          assert InRange(es[..i], lo, hi) + [] == InRange(es[..i], lo, hi);
        }
        i := i + 1;
      }
      assert es[..i] == es;
    }

    lemma WalkStart(c: MCtx, f: MTree, key: int, lo: int, hi: int)
      requires InHole(Hp(), c, f, Leaves(tree), lo, hi, 0) && f.Leaf? && CLo(c, lo) <= key
      ensures var ls, p := Leaves(tree), |LL(c)|;
        p < |ls| && ls[p] == f && Below(Flat(ls[..p]), key)
    {
      Surroundings(Hp(), c, f, Leaves(tree), lo, hi);
    }

    /** What the walk finds at position `i` of the leaf list. */
    lemma WalkStep(i: nat)
      requires Valid() && i < |Leaves(tree)|
      ensures var ls := Leaves(tree);
        && ls[i].Leaf? && ls[i].id in nodes && HoldsLeaf(CellOf(ls[i].id), ls[i].es) && Sorted(ls[i].es)
        && ls[i].id.next == if i + 1 < |ls| then ls[i + 1].id else null
    {
      var lo, hi, h :| Holding(Hp(), tree, lo, hi, h);
      var ls := Leaves(tree);
      LeavesHeld(Hp().cells, tree, i);
      assert LinkedAt(Hp().cells, ls, i);
      ModelLists();
      LeafSorted(ls, i);
    }

    lemma LeafSorted(ls: seq<MTree>, i: nat)
      requires i < |ls| && ls[i].Leaf? && Sorted(Flat(ls))
      ensures Sorted(ls[i].es)
    {
      FlatSplit(ls, i);
      var a, es := Flat(ls[..i]), ls[i].es;
      forall j, k | 0 <= j < k < |es| ensures es[j].key < es[k].key {
        assert Flat(ls)[|a| + j] == es[j] && Flat(ls)[|a| + k] == es[k];
      }
    }

    lemma NothingYet(ls: seq<MTree>, p: nat, lo: int, hi: int)
      requires p <= |ls|
      ensures Joined(InRange(Flat(ls[p..p]), lo, hi)) == []
    {
      assert ls[p..p] == [];
    }

    lemma OneMore(ls: seq<MTree>, p: nat, i: nat, lo: int, hi: int)
      requires p <= i < |ls| && ls[i].Leaf?
      ensures Flat(ls[p..i + 1]) == Flat(ls[p..i]) + ls[i].es
      ensures Joined(InRange(Flat(ls[p..i + 1]), lo, hi)) ==
        Joined(InRange(Flat(ls[p..i]), lo, hi)) + Joined(InRange(ls[i].es, lo, hi))
    {
      hide Joined, InRange;
      assert ls[p..i + 1] == ls[p..i] + [ls[i]];
      FlatConcat(ls[p..i], [ls[i]]);
      FlatOne(ls[i]);
      InRangeConcat(Flat(ls[p..i]), ls[i].es, lo, hi);
      JoinedConcat(InRange(Flat(ls[p..i]), lo, hi), InRange(ls[i].es, lo, hi));
    }

    /** A walk that starts behind everything below `lo` and has passed `hi` has seen the whole range. */
    lemma RangeSeen(ls: seq<MTree>, p: nat, i: nat, lo: int, hi: int)
      requires p <= i <= |ls| && Sorted(Flat(ls)) && Below(Flat(ls[..p]), lo) && Passed(ls, i, hi)
      ensures InRange(Flat(ls), lo, hi) == InRange(Flat(ls[p..i]), lo, hi)
    {
      hide InRange, Flat, Passed;
      SortedAscends(Flat(ls));
      WalkEnd(ls, p, i, lo, hi);
      FlatTail(ls, 0, p);
      assert ls[0..] == ls && ls[0..p] == ls[..p];
      InRangeConcat(Flat(ls[..p]), Flat(ls[p..]), lo, hi);
      InRangeNone(Flat(ls[..p]), lo, hi);
    }

    /** Every pair, from the leftmost leaf along the chain. */
    method ScanAll() returns (out: seq<(int, RID)>)
      requires Valid()
      ensures out == AllPairs(Model())
    {
      hide Valid, Holding, InHole, Model, Flat, Plug, PairsIn, Listing, Linked, Rep, ToMap, Contents, Leaves, CLo, CHi;
      var cur: Node? := LeftmostLeaf();
      ghost var ls := Leaves(tree);
      ModelLists();
      ListingIs(Contents(tree), Model());
      out := [];
      ghost var i := 0;
      NoPairs(ls);
      while cur != null
        invariant i <= |ls| && (cur != null ==> i < |ls|) && cur == (if i < |ls| then ls[i].id else null)
        invariant out == PairsIn(Flat(ls[..i]))
        decreases |ls| - i
      {
        WalkStep(i);
        out := AppendLeaf(cur, out, ls[i].es);
        MorePairs(ls, i);
        i := i + 1;
        cur := cur.next;
      }
      assert ls[..i] == ls;
    }

    lemma NoPairs(ls: seq<MTree>)
      ensures PairsIn(Flat(ls[..0])) == []
    {
      assert ls[..0] == [];
    }

    lemma MorePairs(ls: seq<MTree>, i: nat)
      requires i < |ls| && ls[i].Leaf?
      ensures PairsIn(Flat(ls[..i + 1])) == PairsIn(Flat(ls[..i])) + PairsIn(ls[i].es)
    {
      hide PairsIn;
      assert ls[..i + 1] == ls[..i] + [ls[i]];
      FlatConcat(ls[..i], [ls[i]]);
      FlatOne(ls[i]);
      PairsConcat(Flat(ls[..i]), ls[i].es);
    }

    method AppendLeaf(leaf: Node, acc: seq<(int, RID)>, ghost es: Entries) returns (out: seq<(int, RID)>)
      requires HoldsLeaf(CellOf(leaf), es)
      ensures out == acc + PairsIn(es)
    {
      out := acc;
      var i := 0;
      while i < |leaf.keys|
        invariant i <= |es| == |leaf.keys| && out == acc + PairsIn(es[..i])
      {
        assert leaf.keys[i] == es[i].key && leaf.rids[i] == es[i].val;
        assert es[..i + 1][..i] == es[..i];
        var j := 0;
        while j < |leaf.rids[i]|
          invariant j <= |es[i].val| && leaf.rids[i] == es[i].val && leaf.keys[i] == es[i].key
          invariant out == acc + PairsIn(es[..i]) + PairsOf(es[i].key, es[i].val[..j])
        {
          out := out + [(leaf.keys[i], leaf.rids[i][j])];
          assert PairsOf(es[i].key, es[i].val[..j + 1]) ==
            PairsOf(es[i].key, es[i].val[..j]) + [(es[i].key, es[i].val[j])];
          j := j + 1;
        }
        assert es[i].val[..j] == es[i].val;
        i := i + 1;
      }
      assert es[..i] == es;
    }

    method LeftmostLeaf() returns (cur: Node)
      requires Valid()
      ensures Leaves(tree) != [] && cur == Leaves(tree)[0].id
    {
      hide Valid, Holding, InHole, Overfull, Plug, Leaves, Rep, Shape, WF, CLo, CHi;
      ghost var lo, hi, h := RangeAround(0);
      ghost var hp, chain := Hp(), Leaves(tree);
      Start(lo, hi, h);
      cur := root;
      ghost var c: MCtx, f, hf := Top, tree, h;
      Inside(c, f, chain, lo, hi, hf);
      Leading(c, f, chain, lo, hi, hf);
      while !cur.isLeaf
        invariant f.id == cur && cur in nodes && InHole(hp, c, f, chain, lo, hi, hf) && LL(c) == []
        invariant cur.isLeaf == f.Leaf?
        decreases f
      {
        Leftmost(hp, c, f, chain, lo, hi, hf);
        assert cur.kids == hp.cells[cur].kids;
        cur := cur.kids[0];
        c, f, hf := Child(c, f, 0), f.kids[0], hf - 1;
        Inside(c, f, chain, lo, hi, hf);
      }
      FirstLeaf(c, f, chain, lo, hi, hf);
    }

    lemma Leading(c: MCtx, f: MTree, chain: seq<MTree>, lo: int, hi: int, hf: nat)
      requires c.Top?
      ensures LL(c) == []
    {
    }

    lemma FirstLeaf(c: MCtx, f: MTree, chain: seq<MTree>, lo: int, hi: int, hf: nat)
      requires InHole(Hp(), c, f, chain, lo, hi, hf) && f.Leaf? && LL(c) == []
      ensures chain != [] && chain[0] == f
    {
    }
  }

  /** Stepping to the leftmost child leaves nothing to the left. */
  lemma Leftmost(hp: Heap, c: MCtx, t: MTree, chain: seq<MTree>, lo: int, hi: int, hf: nat)
    requires InHole(hp, c, t, chain, lo, hi, hf) && t.Node? && LL(c) == []
    ensures t.id in hp.cells && |t.kids| > 0 && |hp.cells[t.id].kids| > 0
    ensures hp.cells[t.id].kids[0] == t.kids[0].id && hf > 0
    ensures InHole(hp, Child(c, t, 0), t.kids[0], chain, lo, hi, hf - 1) && LL(Child(c, t, 0)) == []
  {
    hide Linked, Leaves, LR, Ids, IdsC, Rep;
    CRange(c, Cap(hp), lo, hi, hf);
    LeftKey(hp, c, t, chain, lo, hi, hf);
    Descend(hp, c, t, chain, CLo(c, lo), lo, hi, hf);
    assert t.kids[..0] == [];
  }

  lemma LeftKey(hp: Heap, c: MCtx, t: MTree, chain: seq<MTree>, lo: int, hi: int, hf: nat)
    requires InHole(hp, c, t, chain, lo, hi, hf) && t.Node?
    ensures UpperIdx(t.keys, CLo(c, lo)) == 0 && t.id in hp.cells
  {
    assert Shape(t, Cap(hp), CLo(c, lo), CHi(c, hi), hf);
    assert Between(t.keys, CLo(c, lo), CHi(c, hi), true);
  }
}
