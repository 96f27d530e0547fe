/** The nodes of the in-memory B+ tree, and how a heap of nodes represents a tree and a tree with a hole. */
module MemTreeNodes {
  import opened Common
  import opened OrderedMap
  import opened BTreeTheory
  import opened Buckets

  class Node {
    var isLeaf: bool
    var keys: seq<int>
    var kids: seq<Node>
    var rids: seq<Bucket>
    var next: Node?
    var parent: Node?

    constructor (leaf: bool)
      ensures CellOf(this) == Cell(leaf, [], [], [], null, null)
    {
      isLeaf, keys, kids, rids, next, parent := leaf, [], [], [], null, null;
    }
  }

  /** The fields of one node. */
  datatype Cell = Cell(isLeaf: bool, keys: seq<int>, kids: seq<Node>, rids: seq<Bucket>, next: Node?, parent: Node?)

  const NO_CELL: Cell := Cell(true, [], [], [], null, null)

  type Cells = map<Node, Cell>
  type MTree = Tree<Node, Bucket>
  type MCtx = Ctx<Node, Bucket>
  type Entries = seq<Entry<Bucket>>

  ghost function CellOf(n: Node): Cell
    reads n
  {
    Cell(n.isLeaf, n.keys, n.kids, n.rids, n.next, n.parent)
  }

  /** A heap of nodes as a value. */
  ghost function Snap(nodes: set<Node>): Cells
    reads nodes
  {
    map n | n in nodes :: if n in nodes then CellOf(n) else NO_CELL
  }

  ghost function KeysOf(es: Entries): seq<int> { seq(|es|, i requires 0 <= i < |es| => es[i].key) }

  ghost function BucketsOf(es: Entries): seq<Bucket> { seq(|es|, i requires 0 <= i < |es| => es[i].val) }

  ghost function IdsOf(ts: seq<MTree>): seq<Node> { seq(|ts|, i requires 0 <= i < |ts| => ts[i].id) }

  ghost predicate HoldsLeaf(c: Cell, es: Entries) {
    c.isLeaf && c.keys == KeysOf(es) && c.rids == BucketsOf(es)
  }

  ghost predicate HoldsInner(c: Cell, keys: seq<int>, ids: seq<Node>) {
    !c.isLeaf && c.keys == keys && c.kids == ids
  }

  /** The nodes `m` hold tree `t`: keys, buckets, child pointers and the children's parent pointers. */
  ghost predicate Rep(m: Cells, t: MTree) {
    && t.id in m
    && (t.Leaf? ==> HoldsLeaf(m[t.id], t.es))
    && (t.Node? ==>
          && HoldsInner(m[t.id], t.keys, IdsOf(t.kids))
          && forall i :: 0 <= i < |t.kids| ==> Rep(m, t.kids[i]) && m[t.kids[i].id].parent == t.id)
  }

  /** The nodes `m` hold everything of `c` but the hole, whose root is node `fid`. */
  ghost predicate RepC(m: Cells, c: MCtx, fid: Node) {
    c.Down? ==>
      && RepC(m, c.up, c.id)
      && c.id in m && fid in m && c.i < |c.kids|
      && HoldsInner(m[c.id], c.keys, IdsOf(c.kids)[c.i := fid])
      && m[fid].parent == c.id
      && forall j :: 0 <= j < |c.kids| && j != c.i ==> Rep(m, c.kids[j]) && m[c.kids[j].id].parent == c.id
  }

  /** The leaves `ls` are chained through their next pointers. */
  ghost predicate Linked(m: Cells, ls: seq<MTree>) {
    forall i :: 0 <= i < |ls| ==> LinkedAt(m, ls, i)
  }

  ghost predicate LinkedAt(m: Cells, ls: seq<MTree>, i: int)
    requires 0 <= i < |ls|
  {
    ls[i].id in m && m[ls[i].id].next == if i + 1 < |ls| then ls[i + 1].id else null
  }

  ghost function RootNode(c: MCtx, fid: Node): Node {
    if c.Top? then fid else RootNode(c.up, c.id)
  }

  // ---- frames ----

  /** The nodes of `ids` are the same in both heaps. */
  ghost predicate Same(m: Cells, m': Cells, ids: set<Node>) {
    forall n :: n in ids && n in m ==> n in m' && m'[n] == m[n]
  }

  /** Node `n` differs at most in its parent pointer. */
  ghost predicate SameButParent(m: Cells, m': Cells, n: Node) {
    n in m && n in m' && m'[n] == m[n].(parent := m'[n].parent)
  }

  /** No node of the old heap had its next pointer changed. */
  ghost predicate NextKept(m: Cells, m': Cells) {
    forall n :: n in m ==> n in m' && m'[n].next == m[n].next
  }

  lemma LinkedKept(m: Cells, m': Cells, ls: seq<MTree>)
    requires Linked(m, ls) && NextKept(m, m')
    ensures Linked(m', ls)
  {
    forall i | 0 <= i < |ls| ensures LinkedAt(m', ls, i) {
      assert LinkedAt(m, ls, i);
    }
  }

  /** A tree only depends on its nodes, and not on the parent pointer of its root. */
  lemma {:induction false} RepFrame(m: Cells, m': Cells, t: MTree)
    requires Rep(m, t) && Distinct(t)
    requires Same(m, m', Ids(t) - {t.id}) && SameButParent(m, m', t.id)
    ensures Rep(m', t)
    decreases t
  {
    if t.Node? {
      forall i | 0 <= i < |t.kids| ensures Rep(m', t.kids[i]) && m'[t.kids[i].id].parent == t.id {
        var kid := t.kids[i];
        IdsSplit(t.kids, i);
        assert Ids(kid) <= Ids(t) - {t.id};
        assert kid.id in Ids(kid);
        RepFrame(m, m', kid);
      }
    }
  }

  lemma RepSame(m: Cells, m': Cells, t: MTree)
    requires Rep(m, t) && Distinct(t) && Same(m, m', Ids(t))
    ensures Rep(m', t)
  {
    assert t.id in Ids(t);
    RepFrame(m, m', t);
  }

  lemma {:induction false} RepCFrame(m: Cells, m': Cells, c: MCtx, fid: Node)
    requires RepC(m, c, fid) && DistinctC(c) && Same(m, m', IdsC(c))
    requires c.Down? ==> fid in m' && m'[fid].parent == c.id
    ensures RepC(m', c, fid)
    decreases c
  {
    if c.Down? {
      if c.up.Down? { assert c.id in IdsC(c); }
      RepCFrame(m, m', c.up, c.id);
      forall j | 0 <= j < |c.kids| && j != c.i ensures Rep(m', c.kids[j]) && m'[c.kids[j].id].parent == c.id {
        IdsCKid(c, j);
        KidDistinct(c, j);
        assert c.kids[j].id in Ids(c.kids[j]);
        RepSame(m, m', c.kids[j]);
      }
    }
  }

  lemma KidDistinct(c: MCtx, j: nat)
    requires c.Down? && DistinctC(c) && c.i < |c.kids| && j < |c.kids| && j != c.i
    ensures Distinct(c.kids[j]) && c.id !in Ids(c.kids[j])
  {
    if j < c.i {
      assert c.kids[j] == c.kids[..c.i][j];
      IdsSplit(c.kids[..c.i], j);
    } else {
      assert c.kids[j] == c.kids[c.i + 1..][j - c.i - 1];
      IdsSplit(c.kids[c.i + 1..], j - c.i - 1);
    }
  }

  /** All nodes of a represented tree or context are in the heap. */
  lemma {:induction false} RepIds(m: Cells, t: MTree)
    requires Rep(m, t)
    ensures Ids(t) <= m.Keys
    decreases t, 0
  {
    if t.Node? {
      assert forall i :: 0 <= i < |t.kids| ==> Rep(m, t.kids[i]);
      RepIdsF(m, t.kids);
    }
  }

  lemma {:induction false} RepIdsF(m: Cells, ts: seq<MTree>)
    requires forall i :: 0 <= i < |ts| ==> Rep(m, ts[i])
    ensures IdsF(ts) <= m.Keys
    decreases ts, 1
  {
    if ts != [] {
      RepIds(m, ts[0]);
      RepIdsF(m, ts[1..]);
    }
  }

  lemma {:induction false} RepCIds(m: Cells, c: MCtx, fid: Node)
    requires RepC(m, c, fid)
    ensures IdsC(c) <= m.Keys
    decreases c
  {
    if c.Down? {
      RepCIds(m, c.up, c.id);
      RepIdsF(m, c.kids[..c.i]);
      RepIdsF(m, c.kids[c.i + 1..]);
    }
  }

  lemma {:induction false} RootAbove(m: Cells, c: MCtx, fid: Node)
    requires RepC(m, c, fid) && c.Down?
    ensures RootNode(c, fid) in IdsC(c)
    decreases c
  {
    if c.up.Down? { RootAbove(m, c.up, c.id); }
  }

  lemma {:induction false} RootOfPlug(c: MCtx, f: MTree)
    ensures Plug(c, f).id == RootNode(c, f.id)
    decreases c
  {
    if c.Down? { RootOfPlug(c.up, Tree.Node(c.id, c.keys, if c.i < |c.kids| then c.kids[c.i := f] else c.kids)); }
  }

  // ---- down to a child, up to the parent ----

  lemma RepDown(m: Cells, c: MCtx, t: MTree, i: nat)
    requires t.Node? && i < |t.kids| && RepC(m, c, t.id) && Rep(m, t)
    ensures RepC(m, Child(c, t, i), t.kids[i].id) && Rep(m, t.kids[i])
    ensures m[t.id].kids[i] == t.kids[i].id
  {
    assert IdsOf(t.kids)[i := t.kids[i].id] == IdsOf(t.kids);
    assert Rep(m, t.kids[i]);
  }

  lemma RepUp(m: Cells, c: MCtx, f: MTree)
    requires c.Down? && RepC(m, c, f.id) && Rep(m, f)
    ensures var t := Tree.Node(c.id, c.keys, c.kids[c.i := f]);
      RepC(m, c.up, t.id) && Rep(m, t)
  {
    var t := Tree.Node(c.id, c.keys, c.kids[c.i := f]);
    assert IdsOf(t.kids) == IdsOf(c.kids)[c.i := f.id];
  }

  lemma {:induction false} RepPlug(m: Cells, c: MCtx, f: MTree)
    requires RepC(m, c, f.id) && Rep(m, f)
    ensures Rep(m, Plug(c, f))
    decreases c
  {
    if c.Down? {
      RepUp(m, c, f);
      RepPlug(m, c.up, Tree.Node(c.id, c.keys, c.kids[c.i := f]));
    }
  }

  /** Every leaf of a represented tree is held by its node. */
  lemma {:induction false} LeavesHeld(m: Cells, t: MTree, i: nat)
    requires Rep(m, t) && i < |Leaves(t)|
    ensures var f := Leaves(t)[i]; f.Leaf? && f.id in m && HoldsLeaf(m[f.id], f.es)
    decreases t, 0
  {
    if t.Node? {
      assert forall j :: 0 <= j < |t.kids| ==> Rep(m, t.kids[j]);
      LeavesHeldF(m, t.kids, i);
    }
  }

  lemma {:induction false} LeavesHeldF(m: Cells, ts: seq<MTree>, i: nat)
    requires (forall j :: 0 <= j < |ts| ==> Rep(m, ts[j])) && i < |LeavesF(ts)|
    ensures var f := LeavesF(ts)[i]; f.Leaf? && f.id in m && HoldsLeaf(m[f.id], f.es)
    decreases ts, 1
  {
    if i < |Leaves(ts[0])| { LeavesHeld(m, ts[0], i); } else { LeavesHeldF(m, ts[1..], i - |Leaves(ts[0])|); }
  }
}
