/** B+ trees in which a key may be filed more than once.

    A descent takes the child behind every separator that is not greater than the key, and a walk
    along the leaves only leads to the right.  Entries left of the leaf where a descent ends are
    therefore out of reach: `Skipped`.  They matter only if equal keys lie on both sides of a
    separator; a tree without such separators is `Clean`.
 */
module EqualKeys {
  import opened OrderedMap
  import opened BTreeTheory
  import opened BTreeSteps

  // ---- ascending lists with equal keys ----

  /** The position behind every entry whose key is not greater than `key`. */
  function Place<V>(es: seq<Entry<V>>, key: int): (n: nat)
    ensures n <= |es|
  {
    if es == [] || key < es[0].key then 0 else 1 + Place(es[1..], key)
  }

  /** The list with an entry behind all entries of the same key. */
  function Filed<V>(es: seq<Entry<V>>, e: Entry<V>): seq<Entry<V>> {
    var n := Place(es, e.key);
    es[..n] + [e] + es[n..]
  }

  function WithoutFirst<V(==)>(es: seq<Entry<V>>, e: Entry<V>): seq<Entry<V>> {
    if es == [] then [] else if es[0] == e then es[1..] else [es[0]] + WithoutFirst(es[1..], e)
  }

  lemma {:induction false} FiledIs<V>(a: seq<Entry<V>>, e: Entry<V>, b: seq<Entry<V>>)
    requires forall i :: 0 <= i < |a| ==> a[i].key <= e.key
    requires b != [] ==> e.key < b[0].key
    ensures Place(a + b, e.key) == |a| && Filed(a + b, e) == a + [e] + b
    decreases |a|
  {
    if a == [] {
      assert a + b == b;
    } else {
      FiledIs(a[1..], e, b);
      assert (a + b)[1..] == a[1..] + b;
    }
  }

  lemma {:induction false} WithoutFirstIs<V>(a: seq<Entry<V>>, e: Entry<V>, b: seq<Entry<V>>)
    requires e !in a
    ensures WithoutFirst(a + [e] + b, e) == a + b
    decreases |a|
  {
    var s := a + [e] + b;
    if a == [] {
      assert s[0] == e && s[1..] == b;
    } else {
      WithoutFirstIs(a[1..], e, b);
      assert s[1..] == a[1..] + [e] + b;
    }
  }

  lemma {:induction false} WithoutAbsent<V>(es: seq<Entry<V>>, e: Entry<V>)
    requires e !in es
    ensures WithoutFirst(es, e) == es
    decreases |es|
  {
    if es != [] { WithoutAbsent(es[1..], e); }
  }

  lemma {:induction false} InRangeEmpty<V>(es: seq<Entry<V>>, lo: int, hi: int)
    ensures InRange(es, lo, hi) == [] <==> forall i :: 0 <= i < |es| ==> !(lo <= es[i].key <= hi)
    decreases |es|
  {
    if es != [] {
      var n := |es| - 1;
      InRangeEmpty(es[..n], lo, hi);
      assert forall i :: 0 <= i < n ==> es[..n][i] == es[i];
    }
  }

  // ---- separators that part the keys ----

  /** Every leaf's keys lie strictly below the leaf's upper separator. */
  ghost predicate Clean<P, V>(t: Tree<P, V>, hi: int) {
    match t
    case Leaf(_, es) => Below(es, hi)
    case Node(_, keys, kids) =>
      |kids| == |keys| + 1 && forall i :: 0 <= i < |kids| ==> Clean(kids[i], Upper(keys, i, hi))
  }

  ghost predicate CleanC<P, V>(c: Ctx<P, V>, hi: int) {
    c.Down? ==>
      && CleanC(c.up, hi)
      && |c.kids| == |c.keys| + 1
      && forall i :: 0 <= i < |c.kids| && i != c.i ==> Clean(c.kids[i], Upper(c.keys, i, CHi(c.up, hi)))
  }

  /** Every node of the context has one child more than separators. */
  ghost predicate Knit<P, V>(c: Ctx<P, V>) {
    c.Down? ==> |c.kids| == |c.keys| + 1 && c.i < |c.kids| && Knit(c.up)
  }

  lemma {:induction false} WFCKnit<P, V>(c: Ctx<P, V>, cp: Caps, lo: int, hi: int, hf: nat)
    requires WFC(c, cp, lo, hi, hf)
    ensures Knit(c)
    decreases c
  {
    if c.Down? { WFCKnit(c.up, cp, lo, hi, hf + 1); }
  }

  lemma {:induction false} CleanPlug<P, V>(c: Ctx<P, V>, f: Tree<P, V>, hi: int)
    requires Knit(c)
    ensures Clean(Plug(c, f), hi) <==> CleanC(c, hi) && Clean(f, CHi(c, hi))
    decreases c
  {
    if c.Down? {
      var t, top := Node(c.id, c.keys, c.kids[c.i := f]), CHi(c.up, hi);
      CleanPlug(c.up, t, hi);
      assert Clean(f, CHi(c, hi)) <==> Clean(t.kids[c.i], Upper(c.keys, c.i, top));
      assert forall i :: 0 <= i < |t.kids| && i != c.i ==> t.kids[i] == c.kids[i];
    }
  }

  lemma {:induction false} CleanBelow<P, V>(t: Tree<P, V>, cp: Caps, lo: int, hi: int, h: nat)
    requires Shape(t, cp, lo, hi, h) && Clean(t, hi)
    ensures Below(Contents(t), hi)
    decreases t
  {
    if t.Node? {
      forall i | 0 <= i < |t.kids| ensures Before(Contents(t.kids[i]), hi, true) {
        CleanBelow(t.kids[i], cp, Lower(t.keys, i, lo), Upper(t.keys, i, hi), h - 1);
      }
      FlatBefore(t.kids, hi, true);
    }
  }

  /** A bound above all keys is as good as any other for the rightmost leaf. */
  lemma {:induction false} CleanRebound<P, V>(t: Tree<P, V>, hi: int, hi': int)
    requires Clean(t, hi) && Below(Contents(t), hi')
    ensures Clean(t, hi')
    decreases t
  {
    if t.Node? {
      var n := |t.keys|;
      FlatSplit(t.kids, n);
      BelowParts(Flat(t.kids[..n]), Contents(t.kids[n]), Flat(t.kids[n + 1..]), hi');
      CleanRebound(t.kids[n], hi, hi');
    }
  }

  lemma BelowParts<V>(a: seq<Entry<V>>, b: seq<Entry<V>>, c: seq<Entry<V>>, k: int)
    ensures Below(a + b + c, k) <==> Below(a, k) && Below(b, k) && Below(c, k)
  {
    var s := a + b + c;
    assert forall i :: 0 <= i < |a| ==> s[i] == a[i];
    assert forall i :: 0 <= i < |b| ==> s[|a| + i] == b[i];
    assert forall i :: 0 <= i < |c| ==> s[|a| + |b| + i] == c[i];
    if Below(s, k) {
      forall i | 0 <= i < |a| ensures a[i].key < k { assert s[i] == a[i]; }
      forall i | 0 <= i < |b| ensures b[i].key < k { assert s[|a| + i] == b[i]; }
      forall i | 0 <= i < |c| ensures c[i].key < k { assert s[|a| + |b| + i] == c[i]; }
    }
  }

  // ---- what a descent reaches ----

  /** The entries of the leaf where the descent for `key` ends, and of all leaves behind it. */
  ghost function Seen<P, V>(t: Tree<P, V>, key: int): seq<Entry<V>> {
    match t
    case Leaf(_, es) => es
    case Node(_, keys, kids) =>
      var i := UpperIdx(keys, key);
      if i < |kids| then Seen(kids[i], key) + Flat(kids[i + 1..]) else []
  }

  /** The entries of the leaves in front of the one where the descent ends. */
  ghost function Skipped<P, V>(t: Tree<P, V>, key: int): seq<Entry<V>> {
    match t
    case Leaf(_, es) => []
    case Node(_, keys, kids) =>
      var i := UpperIdx(keys, key);
      if i < |kids| then Flat(kids[..i]) + Skipped(kids[i], key) else []
  }

  lemma {:induction false} SeenSkipped<P, V>(t: Tree<P, V>, key: int, cp: Caps, lo: int, hi: int, h: nat)
    requires Shape(t, cp, lo, hi, h)
    ensures Contents(t) == Skipped(t, key) + Seen(t, key)
    decreases t
  {
    if t.Node? {
      var i := UpperIdx(t.keys, key);
      assert WF(t.kids[i], cp, Lower(t.keys, i, lo), Upper(t.keys, i, hi), h - 1);
      SeenSkipped(t.kids[i], key, cp, Lower(t.keys, i, lo), Upper(t.keys, i, hi), h - 1);
      FlatSplit(t.kids, i);
    }
  }

  /** Nothing a descent skips is greater than the key. */
  lemma {:induction false} SkippedAtMost<P, V>(t: Tree<P, V>, key: int, cp: Caps, lo: int, hi: int, h: nat)
    requires Shape(t, cp, lo, hi, h)
    ensures Before(Skipped(t, key), key, false)
    decreases t
  {
    if t.Node? {
      var i := UpperIdx(t.keys, key);
      assert WF(t.kids[i], cp, Lower(t.keys, i, lo), Upper(t.keys, i, hi), h - 1);
      SkippedAtMost(t.kids[i], key, cp, Lower(t.keys, i, lo), Upper(t.keys, i, hi), h - 1);
      forall j | 0 <= j < i ensures Before(Contents(t.kids[..i][j]), key, false) {
        ContentsSorted(t.kids[j], cp, Lower(t.keys, j, lo), Upper(t.keys, j, hi), h - 1);
      }
      FlatBefore(t.kids[..i], key, false);
    }
  }

  lemma {:induction false} SkippedBelow<P, V>(t: Tree<P, V>, key: int, cp: Caps, lo: int, hi: int, h: nat)
    requires Shape(t, cp, lo, hi, h) && Clean(t, hi)
    ensures Below(Skipped(t, key), key)
    decreases t
  {
    if t.Node? {
      var i := UpperIdx(t.keys, key);
      assert WF(t.kids[i], cp, Lower(t.keys, i, lo), Upper(t.keys, i, hi), h - 1);
      SkippedBelow(t.kids[i], key, cp, Lower(t.keys, i, lo), Upper(t.keys, i, hi), h - 1);
      forall j | 0 <= j < i ensures Before(Contents(t.kids[..i][j]), key, true) {
        CleanBelow(t.kids[j], cp, Lower(t.keys, j, lo), Upper(t.keys, j, hi), h - 1);
      }
      FlatBefore(t.kids[..i], key, true);
    }
  }

  lemma SkippedNone<P, V>(t: Tree<P, V>, key: int, cp: Caps, lo: int, hi: int, h: nat)
    requires Shape(t, cp, lo, hi, h) && key < lo
    ensures Skipped(t, key) == []
    decreases t
  {
    if t.Node? {
      assert UpperIdx(t.keys, key) == 0;
      assert WF(t.kids[0], cp, Lower(t.keys, 0, lo), Upper(t.keys, 0, hi), h - 1);
      SkippedNone(t.kids[0], key, cp, lo, Upper(t.keys, 0, hi), h - 1);
      assert t.kids[..0] == [];
    }
  }

  /** The range walk for [a, b] is complete exactly when no skipped entry has the key `a`. */
  lemma RangeCompleteIff<P, V>(t: Tree<P, V>, a: int, b: int, cp: Caps, lo: int, hi: int, h: nat)
    requires Shape(t, cp, lo, hi, h) && a <= b
    ensures InRange(Seen(t, a), a, b) == InRange(Contents(t), a, b) <==> Below(Skipped(t, a), a)
  {
    SeenSkipped(t, a, cp, lo, hi, h);
    SkippedAtMost(t, a, cp, lo, hi, h);
    hide Shape, Seen, Skipped, Contents, InRange;
    InRangeConcat(Skipped(t, a), Seen(t, a), a, b);
    InRangeEmpty(Skipped(t, a), a, b);
    var x, y := InRange(Skipped(t, a), a, b), InRange(Seen(t, a), a, b);
    assert x + y == y <==> x == [] by { if x != [] { assert |x + y| > |y|; } }
  }

  /** If nothing of a searched key is ever skipped, no separator cuts equal keys. */
  lemma {:induction false} FindableClean<P, V>(t: Tree<P, V>, cp: Caps, lo: int, hi: int, h: nat)
    requires Shape(t, cp, lo, hi, h) && Below(Contents(t), hi)
    requires forall key :: Below(Skipped(t, key), key)
    ensures Clean(t, hi)
    decreases t
  {
    if t.Node? {
      forall j | 0 <= j < |t.kids| ensures Clean(t.kids[j], Upper(t.keys, j, hi)) {
        var kid, l, u := t.kids[j], Lower(t.keys, j, lo), Upper(t.keys, j, hi);
        assert WF(kid, cp, l, u, h - 1);
        KidBelow(t, j, cp, lo, hi, h);
        forall key ensures Below(Skipped(kid, key), key) {
          KidFindable(t, j, key, cp, lo, hi, h);
        }
        FindableClean(kid, cp, l, u, h - 1);
      }
    }
  }

  lemma KidBelow<P, V>(t: Tree<P, V>, j: nat, cp: Caps, lo: int, hi: int, h: nat)
    requires t.Node? && Shape(t, cp, lo, hi, h) && Below(Contents(t), hi) && j < |t.kids|
    requires forall key :: Below(Skipped(t, key), key)
    ensures Below(Contents(t.kids[j]), Upper(t.keys, j, hi))
  {
    if j == |t.keys| {
      FlatSplit(t.kids, j);
      BelowParts(Flat(t.kids[..j]), Contents(t.kids[j]), Flat(t.kids[j + 1..]), hi);
    } else {
      var key := t.keys[j];
      var i := UpperIdx(t.keys, key);
      assert Below(Skipped(t, key), key);
      var l := t.kids[..i];
      FlatSplit(l, j);
      assert l[j] == t.kids[j];
      BelowParts(Flat(l[..j]), Contents(l[j]), Flat(l[j + 1..]) + Skipped(t.kids[i], key), key);
      assert Skipped(t, key) == Flat(l[..j]) + Contents(l[j]) + (Flat(l[j + 1..]) + Skipped(t.kids[i], key));
    }
  }

  lemma KidFindable<P, V>(t: Tree<P, V>, j: nat, key: int, cp: Caps, lo: int, hi: int, h: nat)
    requires t.Node? && Shape(t, cp, lo, hi, h) && Below(Contents(t), hi) && j < |t.kids|
    requires forall key' :: Below(Skipped(t, key'), key')
    ensures Below(Skipped(t.kids[j], key), key)
  {
    var kid, i := t.kids[j], UpperIdx(t.keys, key);
    var l, u := Lower(t.keys, j, lo), Upper(t.keys, j, hi);
    assert WF(kid, cp, l, u, h - 1);
    if i == j {
      assert Below(Skipped(t, key), key);
      BelowParts([], Flat(t.kids[..i]), Skipped(kid, key), key);
      assert [] + Flat(t.kids[..i]) + Skipped(kid, key) == Skipped(t, key);
    } else if i < j {
      SkippedNone(kid, key, cp, l, u, h - 1);
    } else {
      KidBelow(t, j, cp, lo, hi, h);
      SeenSkipped(kid, key, cp, l, u, h - 1);
      BelowParts([], Skipped(kid, key), Seen(kid, key), u);
      assert [] + Skipped(kid, key) + Seen(kid, key) == Contents(kid);
    }
  }

  /** A search for `key` finds all its entries. */
  ghost predicate Findable<P, V>(t: Tree<P, V>, key: int) {
    InRange(Seen(t, key), key, key) == InRange(Contents(t), key, key)
  }

  /** Every search finds all entries of its key exactly when no separator cuts a run of equal keys. */
  lemma FindableIff<P, V>(t: Tree<P, V>, cp: Caps, lo: int, hi: int, h: nat)
    requires Shape(t, cp, lo, hi, h) && Below(Contents(t), hi)
    ensures (forall key :: Findable(t, key)) <==> Clean(t, hi)
  {
    if Clean(t, hi) {
      forall key ensures Findable(t, key) {
        SkippedBelow(t, key, cp, lo, hi, h);
        RangeCompleteIff(t, key, key, cp, lo, hi, h);
      }
    }
    if forall key :: Findable(t, key) {
      forall key ensures Below(Skipped(t, key), key) {
        assert Findable(t, key);
        RangeCompleteIff(t, key, key, cp, lo, hi, h);
      }
      FindableClean(t, cp, lo, hi, h);
    }
  }
}
