/** Walking the leaf chain of a disk B+ tree. */
module DiskTreeWalk {
  import opened Common
  import opened OrderedMap
  import opened BTreeTheory
  import opened DiskPage
  import opened DiskTreePages
  import opened DiskTreeStates

  /** `ls` are all leaves of the store's tree in key order, reachable through the next pointers. */
  ghost predicate LeafList(st: Store, ls: seq<DTree>) {
    && Chained(st.pages, ls, -1, st.sl)
    && (forall i :: 0 <= i < |ls| ==> 0 <= ls[i].id)
    && Ascending(Flat(ls))
  }

  // The page reached after `i` leaves; -1 at the end.
  ghost function PageAt(ls: seq<DTree>, i: nat): int {
    if i < |ls| then ls[i].id else -1
  }

  lemma {:induction false} LeafIds(t: DTree, i: nat)
    requires i < |Leaves(t)|
    ensures Leaves(t)[i].id in Ids(t)
    decreases t, 0
  {
    if t.Node? { LeafIdsF(t.kids, i); }
  }

  lemma {:induction false} LeafIdsF(ts: seq<DTree>, i: nat)
    requires i < |LeavesF(ts)|
    ensures LeavesF(ts)[i].id in IdsF(ts)
    decreases ts, 1
  {
    if i < |Leaves(ts[0])| { LeafIds(ts[0], i); } else { LeafIdsF(ts[1..], i - |Leaves(ts[0])|); }
  }

  lemma LeafListOf(st: Store, t: DTree, lo: int, hi: int, h: nat)
    requires Holding(st, t, lo, hi, h)
    ensures LeafList(st, Leaves(t)) && Flat(Leaves(t)) == Contents(t)
    ensures Leaves(t) != [] && Leaves(t)[0].id == First(t)
  {
    ChainOfTree(st.pages, t, -1, st.sl, Cap(st.sl), lo, hi, h);
    FlatLeaves(t);
    ContentsSorted(t, Cap(st.sl), lo, hi, h);
    forall i | 0 <= i < |Leaves(t)| ensures 0 <= Leaves(t)[i].id {
      LeafIds(t, i);
    }
  }

  /** The leaf a descent ended in, as a position in the leaf list. */
  lemma WalkStart(st: Store, c: DCtx, f: DTree, t: DTree, lo: int, hi: int)
    requires InHole(st, c, f, lo, hi, 0) && f.Leaf? && Plug(c, f) == t
    ensures var ls, p := Leaves(t), |LL(c)|;
      p < |ls| && ls[p] == f && Flat(ls[p..]) == f.es + CR(c)
  {
    hide Rep, RepC, WFC, Shape, Fits, Distinct, DistinctC, Ids, IdsC, Allocated, CLo, CHi, RootId;
    WFCOk(c, Cap(st.sl), lo, hi, 0);
    LeavesPlug(c, f);
    FlatSides(c);
    var ls, p := Leaves(t), |LL(c)|;
    assert ls[p..] == [f] + LR(c);
    assert ls[p..][1..] == LR(c);
  }

  /** What the walk finds at position `i` of the leaf list. */
  lemma WalkStep(st: Store, ls: seq<DTree>, i: nat)
    requires LeafList(st, ls) && PageAt(ls, i) >= 0
    ensures i < |ls| && ls[i].Leaf? && ls[i].id in st.pages && Ascending(ls[i].es)
    ensures HoldsLeaf(st.pages[ls[i].id], ls[i].es, PageAt(ls, i + 1), st.sl.leaf)
  {
    hide Flat;
    FlatSplit(ls, i);
    var a, es := Flat(ls[..i]), ls[i].es;
    forall j, k | 0 <= j < k < |es| ensures es[j].key <= es[k].key {
      assert Flat(ls)[|a| + j] == es[j] && Flat(ls)[|a| + k] == es[k];
    }
  }

  // ---- looking for one pair ----

  /** Leaves right of the descent's leaf hold only keys above the hole's range. */
  lemma BeyondHole(st: Store, c: DCtx, f: DTree, t: DTree, i: nat, lo: int, hi: int)
    requires InHole(st, c, f, lo, hi, 0) && f.Leaf? && Plug(c, f) == t
    requires |LL(c)| < i < |Leaves(t)|
    ensures From(CHi(c, hi), Leaves(t)[i].es)
  {
    WFCOk(c, Cap(st.sl), lo, hi, 0);
    LeavesPlug(c, f);
    FlatSides(c);
    CSides(c, Cap(st.sl), lo, hi, 0);
    var j := i - |LL(c)| - 1;
    assert Leaves(t)[i] == LR(c)[j];
    FlatSplit(LR(c), j);
    FromMiddle(CHi(c, hi), Flat(LR(c)[..j]), LR(c)[j].es, Flat(LR(c)[j + 1..]));
  }

  lemma FromMiddle(k: int, a: seq<Entry<RID>>, es: seq<Entry<RID>>, b: seq<Entry<RID>>)
    requires From(k, a + es + b)
    ensures From(k, es)
  {
    forall i | 0 <= i < |es| ensures k <= es[i].key {
      assert (a + es + b)[|a| + i] == es[i];
    }
  }

  lemma AbsentMore(ls: seq<DTree>, p: nat, n: nat, e: Entry<RID>)
    requires p <= n < |ls| && ls[n].Leaf? && e !in Flat(ls[p..n]) && e !in ls[n].es
    ensures e !in Flat(ls[p..n + 1])
  {
    FlatMore(ls, p, n);
  }

  /** A walk that passed a key without meeting the pair proves that no leaf from its first on holds it. */
  lemma NotThere(st: Store, ls: seq<DTree>, p: nat, j: nat, e: Entry<RID>)
    requires LeafList(st, ls) && p <= j && Passed(ls, j, e.key) && e !in Flat(ls[p..j])
    ensures e !in Flat(ls[p..])
  {
    FlatTail(ls, p, j);
    RestAbove(ls, j, e.key);
  }
}
