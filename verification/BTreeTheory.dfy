/** Shape, contents and contexts of B+ trees.

    A `Tree` is the mathematical picture of a B+ tree whose nodes carry an identity `id`: a page
    number for the disk tree, a node object for the in-memory tree.  A `Ctx` is a tree with one
    subtree missing; `Plug` fills the hole.  Every property of trees below has a twin on contexts
    and one lemma saying that a plugged tree has the property exactly when both parts do, so an
    operation that rewrites one node only reasons about that node.
 */
module BTreeTheory {
  import opened OrderedMap

  datatype Tree<P, V> =
    | Leaf(id: P, es: seq<Entry<V>>)
    | Node(id: P, keys: seq<int>, kids: seq<Tree<P, V>>)

  datatype Ctx<P, V> =
    | Top
    | Down(up: Ctx<P, V>, id: P, keys: seq<int>, kids: seq<Tree<P, V>>, i: nat)

  /** The largest number of entries of a leaf and of separators of an internal node, and whether
      every key is filed at most once.  With unique keys all orders below are strict; otherwise
      equal keys may lie on both sides of a separator. */
  datatype Caps = Caps(leaf: nat, inner: nat, unique: bool)

  // ---- sorted sequences ----

  ghost predicate Lt(unique: bool, a: int, b: int) {
    if unique then a < b else a <= b
  }

  ghost predicate SortedKeys(s: seq<int>, unique: bool) {
    forall i, j :: 0 <= i < j < |s| ==> Lt(unique, s[i], s[j])
  }

  ghost predicate Ordered<V>(es: seq<Entry<V>>, unique: bool) {
    if unique then Sorted(es) else Ascending(es)
  }

  ghost predicate Inside<V>(es: seq<Entry<V>>, lo: int, hi: int, unique: bool) {
    forall i :: 0 <= i < |es| ==> lo <= es[i].key && Lt(unique, es[i].key, hi)
  }

  /** A leaf's entries for the range [lo, hi): non-strictly, only an occupied leaf may have an empty range. */
  ghost predicate LeafOk<V>(es: seq<Entry<V>>, lo: int, hi: int, unique: bool) {
    && Lt(unique, lo, hi) && (lo == hi ==> es != [])
    && Ordered(es, unique) && Inside(es, lo, hi, unique)
  }

  /** The first position whose key is greater than `k`. */
  function UpperIdx(s: seq<int>, k: int): (r: nat)
    ensures r <= |s|
    ensures forall i :: 0 <= i < r ==> s[i] <= k
    ensures r < |s| ==> k < s[r]
  {
    if s == [] || k < s[0] then 0 else 1 + UpperIdx(s[1..], k)
  }

  // ---- order and occupancy ----

  ghost function Lower(keys: seq<int>, i: nat, lo: int): int
    requires i <= |keys|
  {
    if i == 0 then lo else keys[i - 1]
  }

  ghost function Upper(keys: seq<int>, i: nat, hi: int): int
    requires i <= |keys|
  {
    if i == |keys| then hi else keys[i]
  }

  ghost predicate Fits<P, V>(t: Tree<P, V>, cp: Caps) {
    match t
    case Leaf(_, es) => |es| <= cp.leaf
    case Node(_, keys, _) => |keys| <= cp.inner
  }

  ghost predicate Between(keys: seq<int>, lo: int, hi: int, unique: bool) {
    && Lt(unique, lo, hi)
    && SortedKeys(keys, unique)
    && forall i :: 0 <= i < |keys| ==> Lt(unique, lo, keys[i]) && Lt(unique, keys[i], hi)
  }

  /** A search tree of height `h` for the key range from `lo` to `hi`; the root may be overfull. */
  ghost predicate Shape<P, V>(t: Tree<P, V>, cp: Caps, lo: int, hi: int, h: nat)
    decreases t, 0
  {
    match t
    case Leaf(_, es) => h == 0 && LeafOk(es, lo, hi, cp.unique)
    case Node(_, keys, kids) =>
      && h > 0
      && |kids| == |keys| + 1
      && Between(keys, lo, hi, cp.unique)
      && forall i :: 0 <= i < |kids| ==> WF(kids[i], cp, Lower(keys, i, lo), Upper(keys, i, hi), h - 1)
  }

  /** The search-tree invariant: ordered, balanced and within capacity. */
  ghost predicate WF<P, V>(t: Tree<P, V>, cp: Caps, lo: int, hi: int, h: nat)
    decreases t, 1
  {
    Fits(t, cp) && Shape(t, cp, lo, hi, h)
  }

  // ---- contents ----

  ghost function Contents<P, V>(t: Tree<P, V>): seq<Entry<V>>
    decreases t, 0
  {
    match t
    case Leaf(_, es) => es
    case Node(_, _, kids) => Flat(kids)
  }

  ghost function Flat<P, V>(ts: seq<Tree<P, V>>): seq<Entry<V>>
    decreases ts, 1
  {
    if ts == [] then [] else Contents(ts[0]) + Flat(ts[1..])
  }

  lemma {:induction false} FlatConcat<P, V>(a: seq<Tree<P, V>>, b: seq<Tree<P, V>>)
    ensures Flat(a + b) == Flat(a) + Flat(b)
    decreases |a|
  {
    if a == [] {
      assert a + b == b;
    } else {
      FlatConcat(a[1..], b);
      assert (a + b)[1..] == a[1..] + b;
    }
  }

  lemma CutAt<T>(s: seq<T>, i: nat)
    requires i < |s|
    ensures s == s[..i] + s[i..] && s[i..][0] == s[i] && s[i..][1..] == s[i + 1..]
  {
  }

  lemma FlatHead<P, V>(ts: seq<Tree<P, V>>)
    requires ts != []
    ensures Flat(ts) == Contents(ts[0]) + Flat(ts[1..])
  {
  }

  lemma FlatSplit<P, V>(ts: seq<Tree<P, V>>, i: nat)
    requires i < |ts|
    ensures Flat(ts) == Flat(ts[..i]) + Contents(ts[i]) + Flat(ts[i + 1..])
  {
    hide Flat, Contents;
    var a, tail := ts[..i], ts[i..];
    CutAt(ts, i);
    FlatConcat(a, tail);
    FlatHead(tail);
    Associate(Flat(a), Contents(ts[i]), Flat(ts[i + 1..]));
  }

  // ---- identities ----

  ghost function Ids<P, V>(t: Tree<P, V>): set<P>
    decreases t, 0
  {
    match t
    case Leaf(id, _) => {id}
    case Node(id, _, kids) => {id} + IdsF(kids)
  }

  ghost function IdsF<P, V>(ts: seq<Tree<P, V>>): set<P>
    decreases ts, 1
  {
    if ts == [] then {} else Ids(ts[0]) + IdsF(ts[1..])
  }

  /** No identity occurs twice. */
  ghost predicate Distinct<P, V>(t: Tree<P, V>)
    decreases t, 0
  {
    t.Node? ==> t.id !in IdsF(t.kids) && DistinctF(t.kids)
  }

  ghost predicate DistinctF<P, V>(ts: seq<Tree<P, V>>)
    decreases ts, 1
  {
    ts != [] ==> Distinct(ts[0]) && Ids(ts[0]) !! IdsF(ts[1..]) && DistinctF(ts[1..])
  }

  lemma {:induction false} IdsFConcat<P, V>(a: seq<Tree<P, V>>, b: seq<Tree<P, V>>)
    ensures IdsF(a + b) == IdsF(a) + IdsF(b)
    decreases |a|
  {
    if a == [] {
      assert a + b == b;
    } else {
      IdsFConcat(a[1..], b);
      assert (a + b)[1..] == a[1..] + b;
    }
  }

  lemma {:induction false} IdsConcat<P, V>(a: seq<Tree<P, V>>, b: seq<Tree<P, V>>)
    ensures IdsF(a + b) == IdsF(a) + IdsF(b)
    ensures DistinctF(a + b) <==> DistinctF(a) && DistinctF(b) && IdsF(a) !! IdsF(b)
    decreases |a|
  {
    IdsFConcat(a, b);
    if a == [] {
      assert a + b == b;
    } else {
      var s := a + b;
      assert s[0] == a[0] && s[1..] == a[1..] + b;
      IdsConcat(a[1..], b);
      assert IdsF(a) == Ids(a[0]) + IdsF(a[1..]);
      assert DistinctF(s) <==> Distinct(a[0]) && Ids(a[0]) !! IdsF(a[1..]) + IdsF(b) && DistinctF(a[1..] + b);
    }
  }

  lemma IdsSplit<P, V>(ts: seq<Tree<P, V>>, i: nat)
    requires i < |ts|
    ensures IdsF(ts) == IdsF(ts[..i]) + Ids(ts[i]) + IdsF(ts[i + 1..])
    ensures DistinctF(ts) <==>
      && DistinctF(ts[..i]) && Distinct(ts[i]) && DistinctF(ts[i + 1..])
      && IdsF(ts[..i]) !! Ids(ts[i]) && IdsF(ts[..i]) !! IdsF(ts[i + 1..]) && Ids(ts[i]) !! IdsF(ts[i + 1..])
  {
    var tail := ts[i..];
    assert tail[0] == ts[i] && tail[1..] == ts[i + 1..];
    IdsConcat(ts[..i], tail);
    assert ts == ts[..i] + tail;
  }

  /** The identity of the leftmost leaf. */
  ghost function First<P, V>(t: Tree<P, V>): P {
    if t.Leaf? || t.kids == [] then t.id else First(t.kids[0])
  }

  // ---- contexts ----

  ghost function Plug<P, V>(c: Ctx<P, V>, t: Tree<P, V>): Tree<P, V> {
    match c
    case Top => t
    case Down(up, id, keys, kids, i) =>
      Plug(up, Node(id, keys, if i < |kids| then kids[i := t] else kids))
  }

  ghost function Depth<P, V>(c: Ctx<P, V>): nat {
    if c.Top? then 0 else 1 + Depth(c.up)
  }

  // The range of the keys that belong in the hole.
  ghost function CLo<P, V>(c: Ctx<P, V>, lo: int): int {
    if c.Top? then lo
    else if 0 < c.i <= |c.keys| then c.keys[c.i - 1] else CLo(c.up, lo)
  }

  ghost function CHi<P, V>(c: Ctx<P, V>, hi: int): int {
    if c.Top? then hi
    else if c.i < |c.keys| then c.keys[c.i] else CHi(c.up, hi)
  }

  ghost predicate WFC<P, V>(c: Ctx<P, V>, cp: Caps, lo: int, hi: int, hf: nat) {
    c.Down? ==>
      && WFC(c.up, cp, lo, hi, hf + 1)
      && |c.kids| == |c.keys| + 1
      && |c.keys| <= cp.inner
      && c.i < |c.kids|
      && Between(c.keys, CLo(c.up, lo), CHi(c.up, hi), cp.unique)
      && forall j :: 0 <= j < |c.kids| && j != c.i ==>
           WF(c.kids[j], cp, Lower(c.keys, j, CLo(c.up, lo)), Upper(c.keys, j, CHi(c.up, hi)), hf)
  }

  lemma {:induction false} WFPlug<P, V>(c: Ctx<P, V>, f: Tree<P, V>, cp: Caps, lo: int, hi: int, hf: nat)
    requires WFC(c, cp, lo, hi, hf)
    requires WF(f, cp, CLo(c, lo), CHi(c, hi), hf)
    ensures WF(Plug(c, f), cp, lo, hi, hf + Depth(c))
    decreases c
  {
    if c.Down? {
      WFPlug(c.up, Node(c.id, c.keys, c.kids[c.i := f]), cp, lo, hi, hf + 1);
    }
  }

  ghost function CL<P, V>(c: Ctx<P, V>): seq<Entry<V>> {
    if c.Top? || c.i >= |c.kids| then [] else CL(c.up) + Flat(c.kids[..c.i])
  }

  ghost function CR<P, V>(c: Ctx<P, V>): seq<Entry<V>> {
    if c.Top? || c.i >= |c.kids| then [] else Flat(c.kids[c.i + 1..]) + CR(c.up)
  }

  /** Every index of the context points into its node. */
  ghost predicate Ok<P, V>(c: Ctx<P, V>) {
    c.Down? ==> c.i < |c.kids| && Ok(c.up)
  }

  lemma {:induction false} WFCOk<P, V>(c: Ctx<P, V>, cp: Caps, lo: int, hi: int, hf: nat)
    requires WFC(c, cp, lo, hi, hf)
    ensures Ok(c)
    decreases c
  {
    if c.Down? { WFCOk(c.up, cp, lo, hi, hf + 1); }
  }

  lemma {:induction false} ContentsPlug<P, V>(c: Ctx<P, V>, f: Tree<P, V>)
    requires Ok(c)
    ensures Contents(Plug(c, f)) == CL(c) + Contents(f) + CR(c)
    decreases c
  {
    if c.Down? {
      var kids := c.kids[c.i := f];
      ContentsPlug(c.up, Node(c.id, c.keys, kids));
      FlatSplit(kids, c.i);
      assert kids[..c.i] == c.kids[..c.i];
      assert kids[c.i + 1..] == c.kids[c.i + 1..];
    }
  }

  // ---- ordered contents ----

  lemma {:induction false} ContentsSorted<P, V>(t: Tree<P, V>, cp: Caps, lo: int, hi: int, h: nat)
    requires Shape(t, cp, lo, hi, h)
    ensures Ordered(Contents(t), cp.unique) && Inside(Contents(t), lo, hi, cp.unique) && Lt(cp.unique, lo, hi)
    decreases t, 0
  {
    if t.Node? {
      FlatSorted(t.kids, t.keys, cp, lo, hi, h - 1);
    }
  }

  lemma {:induction false} FlatSorted<P, V>(ts: seq<Tree<P, V>>, keys: seq<int>, cp: Caps, lo: int, hi: int, h: nat)
    requires |ts| == |keys| + 1 && Between(keys, lo, hi, cp.unique)
    requires forall i :: 0 <= i < |ts| ==> WF(ts[i], cp, Lower(keys, i, lo), Upper(keys, i, hi), h)
    ensures Ordered(Flat(ts), cp.unique) && Inside(Flat(ts), lo, hi, cp.unique)
    decreases ts, 1
  {
    ContentsSorted(ts[0], cp, lo, Upper(keys, 0, hi), h);
    if keys == [] {
      assert ts[1..] == [];
    } else {
      var rest, ks := ts[1..], keys[1..];
      forall i | 0 <= i < |rest|
        ensures WF(rest[i], cp, Lower(ks, i, keys[0]), Upper(ks, i, hi), h)
      {
        assert rest[i] == ts[i + 1];
      }
      FlatSorted(rest, ks, cp, keys[0], hi, h);
    }
  }

  /** All keys lie left of `k`. */
  ghost predicate Before<V>(es: seq<Entry<V>>, k: int, unique: bool) {
    forall i :: 0 <= i < |es| ==> Lt(unique, es[i].key, k)
  }

  lemma {:induction false} FlatBefore<P, V>(ts: seq<Tree<P, V>>, k: int, unique: bool)
    requires forall i :: 0 <= i < |ts| ==> Before(Contents(ts[i]), k, unique)
    ensures Before(Flat(ts), k, unique)
    decreases |ts|
  {
    if ts != [] {
      forall i | 0 <= i < |ts[1..]| ensures Before(Contents(ts[1..][i]), k, unique) {
        assert ts[1..][i] == ts[i + 1];
      }
      FlatBefore(ts[1..], k, unique);
    }
  }

  lemma {:induction false} FlatFrom<P, V>(k: int, ts: seq<Tree<P, V>>)
    requires forall i :: 0 <= i < |ts| ==> From(k, Contents(ts[i]))
    ensures From(k, Flat(ts))
    decreases |ts|
  {
    if ts != [] {
      forall i | 0 <= i < |ts[1..]| ensures From(k, Contents(ts[1..][i])) {
        assert ts[1..][i] == ts[i + 1];
      }
      FlatFrom(k, ts[1..]);
    }
  }

  /** The hole's range is not reversed and lies inside the range of the whole tree. */
  lemma {:induction false} CRange<P, V>(c: Ctx<P, V>, cp: Caps, lo: int, hi: int, hf: nat)
    requires lo < hi && WFC(c, cp, lo, hi, hf)
    ensures lo <= CLo(c, lo) && Lt(cp.unique, CLo(c, lo), CHi(c, hi)) && CHi(c, hi) <= hi
    ensures c.Down? ==> CLo(c.up, lo) <= CLo(c, lo) && CHi(c, hi) <= CHi(c.up, hi)
    decreases c
  {
    if c.Down? { CRange(c.up, cp, lo, hi, hf + 1); }
  }

  /** Everything left of the hole is before the hole's range, everything right of it behind it. */
  lemma {:induction false} CSides<P, V>(c: Ctx<P, V>, cp: Caps, lo: int, hi: int, hf: nat)
    requires lo < hi && WFC(c, cp, lo, hi, hf)
    ensures Before(CL(c), CLo(c, lo), cp.unique) && From(CHi(c, hi), CR(c))
    decreases c
  {
    if c.Down? {
      CSides(c.up, cp, lo, hi, hf + 1);
      CRange(c, cp, lo, hi, hf);
      var l, r := c.kids[..c.i], c.kids[c.i + 1..];
      var clo, chi := CLo(c.up, lo), CHi(c.up, hi);
      forall j | 0 <= j < |l| ensures Before(Contents(l[j]), CLo(c, lo), cp.unique) {
        ContentsSorted(c.kids[j], cp, Lower(c.keys, j, clo), Upper(c.keys, j, chi), hf);
      }
      FlatBefore(l, CLo(c, lo), cp.unique);
      forall j | 0 <= j < |r| ensures From(CHi(c, hi), Contents(r[j])) {
        var k := c.i + 1 + j;
        ContentsSorted(c.kids[k], cp, Lower(c.keys, k, clo), Upper(c.keys, k, chi), hf);
      }
      FlatFrom(CHi(c, hi), r);
    }
  }

  /** A tree keeps its invariant in any wider key range. */
  lemma {:induction false} Widen<P, V>(t: Tree<P, V>, cp: Caps, lo: int, hi: int, h: nat, lo': int, hi': int)
    requires WF(t, cp, lo, hi, h) && lo' <= lo && hi <= hi'
    ensures WF(t, cp, lo', hi', h)
    decreases t
  {
    if t.Node? {
      forall i | 0 <= i < |t.kids|
        ensures WF(t.kids[i], cp, Lower(t.keys, i, lo'), Upper(t.keys, i, hi'), h - 1)
      {
        Widen(t.kids[i], cp, Lower(t.keys, i, lo), Upper(t.keys, i, hi), h - 1,
              Lower(t.keys, i, lo'), Upper(t.keys, i, hi'));
      }
    }
  }

  // ---- identities of contexts ----

  ghost function IdsC<P, V>(c: Ctx<P, V>): set<P> {
    if c.Top? || c.i >= |c.kids| then {}
    else IdsC(c.up) + {c.id} + IdsF(c.kids[..c.i]) + IdsF(c.kids[c.i + 1..])
  }

  ghost predicate DistinctC<P, V>(c: Ctx<P, V>) {
    c.Down? && c.i < |c.kids| ==>
      var l, r := c.kids[..c.i], c.kids[c.i + 1..];
      && DistinctC(c.up) && DistinctF(l) && DistinctF(r)
      && c.id !in IdsC(c.up) + IdsF(l) + IdsF(r)
      && IdsF(l) !! IdsC(c.up) && IdsF(r) !! IdsC(c.up) && IdsF(l) !! IdsF(r)
  }

  lemma IdsCKid<P, V>(c: Ctx<P, V>, j: nat)
    requires c.Down? && c.i < |c.kids| && j < |c.kids| && j != c.i
    ensures Ids(c.kids[j]) <= IdsC(c)
  {
    if j < c.i {
      assert c.kids[j] == c.kids[..c.i][j];
      IdsSplit(c.kids[..c.i], j);
    } else {
      assert c.kids[j] == c.kids[c.i + 1..][j - c.i - 1];
      IdsSplit(c.kids[c.i + 1..], j - c.i - 1);
    }
  }

  /** Moving the focus from a node to its i-th child. */
  function Child<P, V>(c: Ctx<P, V>, t: Tree<P, V>, i: nat): (r: Ctx<P, V>)
    requires t.Node?
  {
    Down(c, t.id, t.keys, t.kids, i)
  }

  lemma WFDown<P, V>(c: Ctx<P, V>, t: Tree<P, V>, i: nat, cp: Caps, lo: int, hi: int, hf: nat)
    requires t.Node? && i < |t.kids|
    requires WFC(c, cp, lo, hi, hf) && WF(t, cp, CLo(c, lo), CHi(c, hi), hf)
    ensures hf > 0 && WFC(Child(c, t, i), cp, lo, hi, hf - 1)
    ensures WF(t.kids[i], cp, CLo(Child(c, t, i), lo), CHi(Child(c, t, i), hi), hf - 1)
  {
  }

  /** Distinctness of a node in a context, seen from its i-th child, and back. */
  lemma DistinctDown<P, V>(c: Ctx<P, V>, t: Tree<P, V>, i: nat)
    requires t.Node? && i < |t.kids|
    requires DistinctC(c) && Distinct(t) && IdsC(c) !! Ids(t)
    ensures DistinctC(Child(c, t, i)) && Distinct(t.kids[i])
    ensures IdsC(Child(c, t, i)) !! Ids(t.kids[i])
    ensures IdsC(Child(c, t, i)) + Ids(t.kids[i]) == IdsC(c) + Ids(t)
  {
    IdsSplit(t.kids, i);
  }

  lemma DistinctUp<P, V>(c: Ctx<P, V>, f: Tree<P, V>)
    requires c.Down? && c.i < |c.kids|
    requires DistinctC(c) && Distinct(f) && IdsC(c) !! Ids(f)
    ensures var t := Node(c.id, c.keys, c.kids[c.i := f]);
      && Distinct(t) && IdsC(c.up) !! Ids(t)
      && IdsC(c.up) + Ids(t) == IdsC(c) + Ids(f)
  {
    var kids := c.kids[c.i := f];
    IdsSplit(kids, c.i);
    assert kids[..c.i] == c.kids[..c.i];
    assert kids[c.i + 1..] == c.kids[c.i + 1..];
  }

  lemma {:induction false} DistinctPlug<P, V>(c: Ctx<P, V>, f: Tree<P, V>)
    requires Ok(c) && DistinctC(c) && Distinct(f) && IdsC(c) !! Ids(f)
    ensures Distinct(Plug(c, f)) && Ids(Plug(c, f)) == IdsC(c) + Ids(f)
    decreases c
  {
    if c.Down? {
      DistinctUp(c, f);
      DistinctPlug(c.up, Node(c.id, c.keys, c.kids[c.i := f]));
    }
  }

  // ---- leaves in key order ----

  ghost function Leaves<P, V>(t: Tree<P, V>): (r: seq<Tree<P, V>>)
    ensures forall i :: 0 <= i < |r| ==> r[i].Leaf?
    decreases t, 0
  {
    if t.Leaf? then [t] else LeavesF(t.kids)
  }

  ghost function LeavesF<P, V>(ts: seq<Tree<P, V>>): (r: seq<Tree<P, V>>)
    ensures forall i :: 0 <= i < |r| ==> r[i].Leaf?
    decreases ts, 1
  {
    if ts == [] then [] else Leaves(ts[0]) + LeavesF(ts[1..])
  }

  lemma {:induction false} LeavesConcat<P, V>(a: seq<Tree<P, V>>, b: seq<Tree<P, V>>)
    ensures LeavesF(a + b) == LeavesF(a) + LeavesF(b)
    decreases |a|
  {
    if a == [] {
      assert a + b == b;
    } else {
      LeavesConcat(a[1..], b);
      assert (a + b)[1..] == a[1..] + b;
    }
  }

  lemma {:induction false} FlatLeaves<P, V>(t: Tree<P, V>)
    ensures Flat(Leaves(t)) == Contents(t)
    decreases t, 0
  {
    if t.Leaf? {
      assert [t][1..] == [];
    } else {
      FlatLeavesF(t.kids);
    }
  }

  lemma {:induction false} FlatLeavesF<P, V>(ts: seq<Tree<P, V>>)
    ensures Flat(LeavesF(ts)) == Flat(ts)
    decreases ts, 1
  {
    if ts != [] {
      FlatLeaves(ts[0]);
      FlatLeavesF(ts[1..]);
      FlatConcat(Leaves(ts[0]), LeavesF(ts[1..]));
    }
  }

  ghost function LL<P, V>(c: Ctx<P, V>): (r: seq<Tree<P, V>>)
    ensures forall i :: 0 <= i < |r| ==> r[i].Leaf?
  {
    if c.Top? || c.i >= |c.kids| then [] else LL(c.up) + LeavesF(c.kids[..c.i])
  }

  ghost function LR<P, V>(c: Ctx<P, V>): (r: seq<Tree<P, V>>)
    ensures forall i :: 0 <= i < |r| ==> r[i].Leaf?
  {
    if c.Top? || c.i >= |c.kids| then [] else LeavesF(c.kids[c.i + 1..]) + LR(c.up)
  }

  lemma {:induction false} LeavesPlug<P, V>(c: Ctx<P, V>, f: Tree<P, V>)
    requires Ok(c)
    ensures Leaves(Plug(c, f)) == LL(c) + Leaves(f) + LR(c)
    decreases c
  {
    hide LeavesF;
    if c.Down? {
      var kids := c.kids[c.i := f];
      LeavesPlug(c.up, Node(c.id, c.keys, kids));
      LeavesSplit(kids, c.i);
      var l, r := c.kids[..c.i], c.kids[c.i + 1..];
      assert kids[..c.i] == l;
      assert kids[c.i + 1..] == r;
      Outwards(LL(c.up), LeavesF(l), Leaves(f), LeavesF(r), LR(c.up));
    }
  }

  lemma Outwards<T>(u: seq<T>, a: seq<T>, m: seq<T>, b: seq<T>, v: seq<T>)
    ensures u + (a + m + b) + v == (u + a) + m + (b + v)
  {
  }

  lemma LeavesHead<P, V>(ts: seq<Tree<P, V>>)
    requires ts != []
    ensures LeavesF(ts) == Leaves(ts[0]) + LeavesF(ts[1..])
  {
  }

  lemma LeavesSplit<P, V>(ts: seq<Tree<P, V>>, i: nat)
    requires i < |ts|
    ensures LeavesF(ts) == LeavesF(ts[..i]) + Leaves(ts[i]) + LeavesF(ts[i + 1..])
  {
    hide LeavesF, Leaves;
    var a, tail := ts[..i], ts[i..];
    CutAt(ts, i);
    LeavesConcat(a, tail);
    LeavesHead(tail);
    Associate(LeavesF(a), Leaves(ts[i]), LeavesF(ts[i + 1..]));
  }

  lemma {:induction false} FlatSides<P, V>(c: Ctx<P, V>)
    ensures Flat(LL(c)) == CL(c) && Flat(LR(c)) == CR(c)
    decreases c
  {
    if c.Down? && c.i < |c.kids| {
      FlatSides(c.up);
      var l, r := c.kids[..c.i], c.kids[c.i + 1..];
      FlatLeavesF(l);
      FlatLeavesF(r);
      FlatConcat(LL(c.up), LeavesF(l));
      FlatConcat(LeavesF(r), LR(c.up));
    }
  }

  // ---- walking along the leaves ----

  lemma FlatMore<P, V>(ls: seq<Tree<P, V>>, p: nat, i: nat)
    requires p <= i < |ls| && ls[i].Leaf?
    ensures Flat(ls[p..i + 1]) == Flat(ls[p..i]) + ls[i].es
  {
    assert ls[p..i + 1] == ls[p..i] + [ls[i]];
    FlatConcat(ls[p..i], [ls[i]]);
    assert [ls[i]][1..] == [];
  }

  lemma FlatTail<P, V>(ls: seq<Tree<P, V>>, p: nat, j: nat)
    requires p <= j <= |ls|
    ensures Flat(ls[p..]) == Flat(ls[p..j]) + Flat(ls[j..])
  {
    hide Flat;
    assert ls[p..] == ls[p..j] + ls[j..];
    FlatConcat(ls[p..j], ls[j..]);
  }

  ghost predicate EndsAbove<V>(es: seq<Entry<V>>, hi: int) {
    es != [] && hi < es[|es| - 1].key
  }

  /** The walk has passed the range: all leaves are seen, or the last one seen ends above `hi`. */
  ghost predicate Passed<P, V>(ls: seq<Tree<P, V>>, j: nat, hi: int) {
    && j <= |ls|
    && (j < |ls| ==> j > 0 && ls[j - 1].Leaf? && EndsAbove(ls[j - 1].es, hi))
  }

  lemma RestAbove<P, V>(ls: seq<Tree<P, V>>, j: nat, hi: int)
    requires Ascending(Flat(ls)) && Passed(ls, j, hi)
    ensures forall k :: 0 <= k < |Flat(ls[j..])| ==> hi < Flat(ls[j..])[k].key
  {
    var b := Flat(ls[j..]);
    if j < |ls| {
      var es, a := ls[j - 1].es, Flat(ls[..j - 1]);
      FlatSplit(ls, j - 1);
      assert Flat(ls) == a + es + b;
      forall k | 0 <= k < |b| ensures hi < b[k].key {
        assert Flat(ls)[|a| + |es| - 1] == es[|es| - 1];
        assert Flat(ls)[|a| + |es| + k] == b[k];
      }
    }
  }

  /** A walk that has passed `hi` has seen everything of the range from its first leaf on. */
  lemma WalkEnd<P, V>(ls: seq<Tree<P, V>>, p: nat, j: nat, lo: int, hi: int)
    requires Ascending(Flat(ls)) && p <= j && Passed(ls, j, hi)
    ensures InRange(Flat(ls[p..]), lo, hi) == InRange(Flat(ls[p..j]), lo, hi)
  {
    var m, b := Flat(ls[p..j]), Flat(ls[j..]);
    FlatTail(ls, p, j);
    RestAbove(ls, j, hi);
    hide Flat, InRange, Passed;
    InRangeConcat(m, b, lo, hi);
    InRangeNone(b, lo, hi);
  }
}
