/** The node-level steps of B+ tree maintenance, on mathematical trees.

    Each step rewrites the node around a hole; its lemmas say that order, balance, contents and
    distinctness carry over.  Both trees of the repository are built from these steps.
 */
module BTreeSteps {
  import opened OrderedMap
  import opened BTreeTheory

  // ---- a child has split into `l` and `r` around `key` ----

  ghost function InsertKid<P, V>(c: Ctx<P, V>, l: Tree<P, V>, key: int, r: Tree<P, V>): Tree<P, V>
    requires c.Down? && c.i < |c.kids| && c.i <= |c.keys|
  {
    Node(c.id, c.keys[..c.i] + [key] + c.keys[c.i..], c.kids[..c.i] + [l, r] + c.kids[c.i + 1..])
  }

  lemma InsertKidKeys(keys: seq<int>, i: nat, key: int, lo: int, hi: int, unique: bool)
    requires i <= |keys| && Between(keys, lo, hi, unique)
    requires Lt(unique, Lower(keys, i, lo), key) && Lt(unique, key, Upper(keys, i, hi))
    ensures Between(keys[..i] + [key] + keys[i..], lo, hi, unique)
  {
  }

  lemma InsertKidShape<P, V>(c: Ctx<P, V>, l: Tree<P, V>, key: int, r: Tree<P, V>,
                             cp: Caps, lo: int, hi: int, hf: nat)
    requires c.Down? && WFC(c, cp, lo, hi, hf)
    requires Lt(cp.unique, CLo(c, lo), key) && Lt(cp.unique, key, CHi(c, hi))
    requires WF(l, cp, CLo(c, lo), key, hf) && WF(r, cp, key, CHi(c, hi), hf)
    ensures Shape(InsertKid(c, l, key, r), cp, CLo(c.up, lo), CHi(c.up, hi), hf + 1)
  {
    var t := InsertKid(c, l, key, r);
    var clo, chi := CLo(c.up, lo), CHi(c.up, hi);
    InsertKidKeys(c.keys, c.i, key, clo, chi, cp.unique);
    forall j | 0 <= j < |t.kids|
      ensures WF(t.kids[j], cp, Lower(t.keys, j, clo), Upper(t.keys, j, chi), hf)
    {
      if j < c.i {
        assert t.kids[j] == c.kids[j];
      } else if j > c.i + 1 {
        assert t.kids[j] == c.kids[j - 1];
      }
    }
  }

  lemma InsertKidContents<P, V>(c: Ctx<P, V>, l: Tree<P, V>, key: int, r: Tree<P, V>)
    requires c.Down? && c.i < |c.kids| && c.i <= |c.keys|
    ensures CL(c.up) + Contents(InsertKid(c, l, key, r)) + CR(c.up)
         == CL(c) + Contents(l) + Contents(r) + CR(c)
  {
    var a, b := c.kids[..c.i], c.kids[c.i + 1..];
    FlatConcat(a + [l, r], b);
    FlatConcat(a, [l, r]);
    FlatPair(l, r);
  }

  lemma FlatOne<P, V>(r: Tree<P, V>)
    ensures Flat([r]) == Contents(r) && IdsF([r]) == Ids(r) && (DistinctF([r]) <==> Distinct(r))
  {
    assert [r][1..] == [];
  }

  lemma FlatPair<P, V>(l: Tree<P, V>, r: Tree<P, V>)
    ensures Flat([l, r]) == Contents(l) + Contents(r) && IdsF([l, r]) == Ids(l) + Ids(r)
    ensures DistinctF([l, r]) <==> Distinct(l) && Distinct(r) && Ids(l) !! Ids(r)
  {
    FlatOne(r);
    assert [l, r][1..] == [r];
  }

  lemma InsertKidDistinct<P, V>(c: Ctx<P, V>, l: Tree<P, V>, key: int, r: Tree<P, V>)
    requires c.Down? && c.i < |c.kids| && c.i <= |c.keys|
    requires DistinctC(c) && Distinct(l) && Distinct(r)
    requires Ids(l) !! Ids(r) && IdsC(c) !! Ids(l) && IdsC(c) !! Ids(r)
    ensures var t := InsertKid(c, l, key, r);
      && Distinct(t) && IdsC(c.up) !! Ids(t)
      && IdsC(c.up) + Ids(t) == IdsC(c) + Ids(l) + Ids(r)
  {
    var a, b := c.kids[..c.i], c.kids[c.i + 1..];
    IdsConcat(a + [l, r], b);
    IdsConcat(a, [l, r]);
    FlatPair(l, r);
  }

  // ---- an internal node splits at separator `mid` ----

  ghost function LeftHalf<P, V>(t: Tree<P, V>, mid: nat): Tree<P, V>
    requires t.Node? && mid < |t.keys| < |t.kids|
  {
    Node(t.id, t.keys[..mid], t.kids[..mid + 1])
  }

  ghost function RightHalf<P, V>(t: Tree<P, V>, mid: nat, sib: P): Tree<P, V>
    requires t.Node? && mid < |t.keys| < |t.kids|
  {
    Node(sib, t.keys[mid + 1..], t.kids[mid + 1..])
  }

  lemma SplitShape<P, V>(t: Tree<P, V>, mid: nat, sib: P, cp: Caps, lo: int, hi: int, h: nat)
    requires t.Node? && Shape(t, cp, lo, hi, h) && mid < |t.keys| <= mid + 1 + cp.inner && mid <= cp.inner
    ensures WF(LeftHalf(t, mid), cp, lo, t.keys[mid], h)
    ensures WF(RightHalf(t, mid, sib), cp, t.keys[mid], hi, h)
  {
    var l, r, key := LeftHalf(t, mid), RightHalf(t, mid, sib), t.keys[mid];
    forall j | 0 <= j < |l.kids|
      ensures WF(l.kids[j], cp, Lower(l.keys, j, lo), Upper(l.keys, j, key), h - 1)
    {
      assert l.kids[j] == t.kids[j];
    }
    forall j | 0 <= j < |r.kids|
      ensures WF(r.kids[j], cp, Lower(r.keys, j, key), Upper(r.keys, j, hi), h - 1)
    {
      assert r.kids[j] == t.kids[mid + 1 + j];
    }
  }

  lemma SplitContents<P, V>(t: Tree<P, V>, mid: nat, sib: P)
    requires t.Node? && mid < |t.keys| < |t.kids|
    ensures Contents(LeftHalf(t, mid)) + Contents(RightHalf(t, mid, sib)) == Contents(t)
  {
    FlatConcat(t.kids[..mid + 1], t.kids[mid + 1..]);
    assert t.kids == t.kids[..mid + 1] + t.kids[mid + 1..];
  }

  lemma SplitDistinct<P, V>(t: Tree<P, V>, mid: nat, sib: P)
    requires t.Node? && mid < |t.keys| < |t.kids| && Distinct(t) && sib !in Ids(t)
    ensures var l, r := LeftHalf(t, mid), RightHalf(t, mid, sib);
      && Distinct(l) && Distinct(r) && Ids(l) !! Ids(r)
      && Ids(l) + Ids(r) == Ids(t) + {sib}
  {
    IdsConcat(t.kids[..mid + 1], t.kids[mid + 1..]);
    assert t.kids == t.kids[..mid + 1] + t.kids[mid + 1..];
  }

  // ---- the root grows: a new node above the two halves ----

  lemma GrowRoot<P, V>(l: Tree<P, V>, key: int, r: Tree<P, V>, id: P, cp: Caps, lo: int, hi: int, h: nat)
    requires cp.inner >= 1 && Lt(cp.unique, lo, key) && Lt(cp.unique, key, hi)
    requires WF(l, cp, lo, key, h) && WF(r, cp, key, hi, h)
    requires Distinct(l) && Distinct(r) && Ids(l) !! Ids(r) && id !in Ids(l) + Ids(r)
    ensures var t := Node(id, [key], [l, r]);
      && WF(t, cp, lo, hi, h + 1) && Distinct(t) && Ids(t) == {id} + Ids(l) + Ids(r)
      && Contents(t) == Contents(l) + Contents(r)
  {
    var t := Node(id, [key], [l, r]);
    forall j | 0 <= j < 2 ensures WF(t.kids[j], cp, Lower(t.keys, j, lo), Upper(t.keys, j, hi), h) {
    }
    FlatPair(l, r);
  }

  // ---- neighbouring leaves share their entries differently, or merge ----

  ghost function ResetKids<P, V>(c: Ctx<P, V>, l: Tree<P, V>, key: int, r: Tree<P, V>): Tree<P, V>
    requires c.Down? && c.i + 1 < |c.kids| && c.i < |c.keys|
  {
    Node(c.id, c.keys[c.i := key], c.kids[c.i := l][c.i + 1 := r])
  }

  lemma ResetKidsOk<P, V>(c: Ctx<P, V>, l: Tree<P, V>, key: int, r: Tree<P, V>,
                          cp: Caps, lo: int, hi: int, hf: nat)
    requires c.Down? && WFC(c, cp, lo, hi, hf) && c.i < |c.keys|
    requires Lt(cp.unique, CLo(c, lo), key) && Lt(cp.unique, key, Upper(c.keys, c.i + 1, CHi(c.up, hi)))
    requires WF(l, cp, CLo(c, lo), key, hf)
    requires WF(r, cp, key, Upper(c.keys, c.i + 1, CHi(c.up, hi)), hf)
    ensures WF(ResetKids(c, l, key, r), cp, CLo(c.up, lo), CHi(c.up, hi), hf + 1)
  {
    var t := ResetKids(c, l, key, r);
    var clo, chi := CLo(c.up, lo), CHi(c.up, hi);
    assert Between(t.keys, clo, chi, cp.unique);
    forall j | 0 <= j < |t.kids|
      ensures WF(t.kids[j], cp, Lower(t.keys, j, clo), Upper(t.keys, j, chi), hf)
    {
    }
  }

  lemma PairContents<P, V>(c: Ctx<P, V>, l: Tree<P, V>, r: Tree<P, V>, kids: seq<Tree<P, V>>)
    requires c.Down? && c.i + 1 < |c.kids| == |kids|
    requires kids == c.kids[c.i := l][c.i + 1 := r]
    ensures Flat(kids) == Flat(c.kids[..c.i]) + Contents(l) + Contents(r) + Flat(c.kids[c.i + 2..])
  {
    FlatSplit(kids, c.i);
    var tail := kids[c.i + 1..];
    assert tail[0] == r;
    assert tail[1..] == c.kids[c.i + 2..];
    assert kids[..c.i] == c.kids[..c.i];
  }

  ghost function MergeKids<P, V>(c: Ctx<P, V>, l: Tree<P, V>): Tree<P, V>
    requires c.Down? && c.i + 1 < |c.kids| && c.i < |c.keys|
  {
    Node(c.id, c.keys[..c.i] + c.keys[c.i + 1..], c.kids[..c.i] + [l] + c.kids[c.i + 2..])
  }

  lemma MergeKidsOk<P, V>(c: Ctx<P, V>, l: Tree<P, V>, cp: Caps, lo: int, hi: int, hf: nat)
    requires c.Down? && WFC(c, cp, lo, hi, hf) && c.i < |c.keys|
    requires WF(l, cp, CLo(c, lo), Upper(c.keys, c.i + 1, CHi(c.up, hi)), hf)
    ensures WF(MergeKids(c, l), cp, CLo(c.up, lo), CHi(c.up, hi), hf + 1)
  {
    var t := MergeKids(c, l);
    var clo, chi := CLo(c.up, lo), CHi(c.up, hi);
    DropKey(c.keys, c.i, clo, chi, cp.unique);
    forall j | 0 <= j < |t.kids|
      ensures WF(t.kids[j], cp, Lower(t.keys, j, clo), Upper(t.keys, j, chi), hf)
    {
      DroppedBounds(c.keys, c.i, j, clo, chi);
      if j < c.i {
        assert t.kids[j] == c.kids[j];
      } else if j > c.i {
        assert t.kids[j] == c.kids[j + 1];
      }
    }
  }

  lemma DropKey(keys: seq<int>, i: nat, lo: int, hi: int, unique: bool)
    requires i < |keys| && Between(keys, lo, hi, unique)
    ensures Between(keys[..i] + keys[i + 1..], lo, hi, unique)
  {
    var s := keys[..i] + keys[i + 1..];
    forall a | 0 <= a < |s| ensures s[a] == keys[if a < i then a else a + 1] {
    }
  }

  // The bounds of the children left over when separator `i` and the child behind it go.
  lemma DroppedBounds(keys: seq<int>, i: nat, j: nat, lo: int, hi: int)
    requires i < |keys| && j < |keys|
    ensures var s := keys[..i] + keys[i + 1..];
      && |s| == |keys| - 1
      && Lower(s, j, lo) == Lower(keys, if j <= i then j else j + 1, lo)
      && Upper(s, j, hi) == Upper(keys, if j < i then j else j + 1, hi)
  {
    var s := keys[..i] + keys[i + 1..];
    if j > 0 { assert s[j - 1] == keys[if j - 1 < i then j - 1 else j]; }
    if j < |s| { assert s[j] == keys[if j < i then j else j + 1]; }
  }

  lemma MergeKidsContents<P, V>(c: Ctx<P, V>, l: Tree<P, V>)
    requires c.Down? && c.i + 1 < |c.kids| && c.i < |c.keys|
    ensures CL(c.up) + Contents(MergeKids(c, l)) + CR(c.up)
         == CL(c) + Contents(l) + Flat(c.kids[c.i + 2..]) + CR(c.up)
  {
    var a, b := c.kids[..c.i], c.kids[c.i + 2..];
    FlatConcat(a + [l], b);
    FlatConcat(a, [l]);
    FlatOne(l);
  }

  lemma ResetKidsDistinct<P, V>(c: Ctx<P, V>, l: Tree<P, V>, key: int, r: Tree<P, V>)
    requires c.Down? && c.i + 1 < |c.kids| && c.i < |c.keys|
    requires DistinctC(c) && Distinct(l) && Distinct(r)
    requires IdsC(c) !! Ids(l) && Ids(r) == Ids(c.kids[c.i + 1])
    ensures var t := ResetKids(c, l, key, r);
      && Distinct(t) && IdsC(c.up) !! Ids(t) && IdsC(c.up) + Ids(t) == IdsC(c) + Ids(l)
  {
    var t := ResetKids(c, l, key, r);
    var a, b, b' := c.kids[..c.i], c.kids[c.i + 1..], t.kids[c.i + 1..];
    assert b[0] == c.kids[c.i + 1] && b'[0] == r && b[1..] == b'[1..];
    assert t.kids[..c.i] == a;
    IdsSplit(t.kids, c.i);
  }

  lemma MergeKidsDistinct<P, V>(c: Ctx<P, V>, l: Tree<P, V>)
    requires c.Down? && c.i + 1 < |c.kids| && c.i < |c.keys|
    requires DistinctC(c) && Distinct(l) && IdsC(c) !! Ids(l)
    ensures var t := MergeKids(c, l);
      && Distinct(t) && IdsC(c.up) !! Ids(t) && IdsC(c.up) + Ids(t) <= IdsC(c) + Ids(l)
  {
    var a, b := c.kids[..c.i], c.kids[c.i + 1..];
    assert b[1..] == c.kids[c.i + 2..];
    IdsConcat(a + [l], b[1..]);
    IdsConcat(a, [l]);
    FlatOne(l);
  }
}
