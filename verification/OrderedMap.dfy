/** Sorted entry sequences and the finite maps they stand for.

    `Listing(m)` is the entries of the map `m` in ascending key order: what iterating over a
    sorted map yields.  All ordered indexes are specified by it.
 */
module OrderedMap {

  datatype Entry<V> = Entry(key: int, val: V)

  ghost predicate Sorted<V>(es: seq<Entry<V>>) {
    forall i, j :: 0 <= i < j < |es| ==> es[i].key < es[j].key
  }

  ghost predicate Ascending<V>(es: seq<Entry<V>>) {
    forall i, j :: 0 <= i < j < |es| ==> es[i].key <= es[j].key
  }

  ghost predicate Within<V>(es: seq<Entry<V>>, lo: int, hi: int) {
    forall i :: 0 <= i < |es| ==> lo <= es[i].key < hi
  }

  ghost predicate Below<V>(es: seq<Entry<V>>, k: int) {
    forall i :: 0 <= i < |es| ==> es[i].key < k
  }

  ghost predicate From<V>(k: int, es: seq<Entry<V>>) {
    forall i :: 0 <= i < |es| ==> k <= es[i].key
  }

  lemma SortedAscends<V>(es: seq<Entry<V>>)
    requires Sorted(es)
    ensures Ascending(es)
  {
  }

  // ---- sequences to maps ----

  ghost function ToMap<V>(es: seq<Entry<V>>): map<int, V> {
    if es == [] then map[] else ToMap(es[..|es| - 1])[es[|es| - 1].key := es[|es| - 1].val]
  }

  ghost predicate Lists<V>(es: seq<Entry<V>>, m: map<int, V>) {
    && (forall i :: 0 <= i < |es| ==> es[i].key in m && m[es[i].key] == es[i].val)
    && (forall k :: k in m ==> exists i :: 0 <= i < |es| && es[i].key == k)
  }

  lemma {:induction false} ToMapLists<V>(es: seq<Entry<V>>)
    requires Sorted(es)
    ensures Lists(es, ToMap(es))
    decreases |es|
  {
    if es != [] {
      var n := |es| - 1;
      var init, m := es[..n], ToMap(es[..n]);
      ToMapLists(init);
      forall k | k in ToMap(es) ensures exists i :: 0 <= i < |es| && es[i].key == k {
        if k == es[n].key {
        } else {
          var i :| 0 <= i < |init| && init[i].key == k;
          assert es[i].key == k;
        }
      }
      forall i | 0 <= i < |es| ensures es[i].key in ToMap(es) && ToMap(es)[es[i].key] == es[i].val {
        if i < n { assert init[i] == es[i]; }
      }
    }
  }

  lemma ListsUnique<V>(es: seq<Entry<V>>, m: map<int, V>, m': map<int, V>)
    requires Lists(es, m) && Lists(es, m')
    ensures m == m'
  {
    forall k | k in m ensures k in m' && m'[k] == m[k] {
      var i :| 0 <= i < |es| && es[i].key == k;
    }
    forall k | k in m' ensures k in m {
      var i :| 0 <= i < |es| && es[i].key == k;
    }
  }

  /** A sorted sequence is determined by the map it lists. */
  lemma {:induction false} SortedUnique<V>(a: seq<Entry<V>>, b: seq<Entry<V>>, m: map<int, V>)
    requires Sorted(a) && Sorted(b) && Lists(a, m) && Lists(b, m)
    ensures a == b
    decreases |a|
  {
    if a == [] {
      if b != [] { LastAgree(b, a, m); }
    } else {
      LastAgree(a, b, m);
      var n, k := |a| - 1, |b| - 1;
      DropLast(a, m);
      DropLast(b, m);
      SortedUnique(a[..n], b[..k], m - {a[n].key});
      assert a == a[..n] + [a[n]];
      assert b == b[..k] + [b[k]];
    }
  }

  lemma LastAgree<V>(a: seq<Entry<V>>, b: seq<Entry<V>>, m: map<int, V>)
    requires Sorted(a) && Sorted(b) && Lists(a, m) && Lists(b, m) && a != []
    ensures b != [] && a[|a| - 1] == b[|b| - 1]
  {
    var x := a[|a| - 1];
    assert x.key in m;
    var j :| 0 <= j < |b| && b[j].key == x.key;
    var y := b[|b| - 1];
    assert y.key in m;
    var i :| 0 <= i < |a| && a[i].key == y.key;
    assert x.key <= y.key && y.key <= x.key;
  }

  lemma DropLast<V>(a: seq<Entry<V>>, m: map<int, V>)
    requires Sorted(a) && Lists(a, m) && a != []
    ensures Lists(a[..|a| - 1], m - {a[|a| - 1].key}) && Sorted(a[..|a| - 1])
  {
    var n := |a| - 1;
    forall k | k in m - {a[n].key} ensures exists i :: 0 <= i < |a[..n]| && a[..n][i].key == k {
      var i :| 0 <= i < |a| && a[i].key == k;
      assert a[..n][i].key == k;
    }
  }

  // ---- maps to sequences ----

  lemma {:induction false} MaxExists(s: set<int>) returns (k: int)
    requires s != {}
    ensures k in s && forall j :: j in s ==> j <= k
    decreases |s|
  {
    assert (exists x :: x in s) || s == {};
    k :| k in s;
    var r := s - {k};
    if r != {} {
      var y := MaxExists(r);
      assert forall j :: j in s ==> j in r || j == k;
      k := if k < y then y else k;
    } else {
      assert s == {k};
    }
  }

  ghost function MaxKey(s: set<int>): (k: int)
    requires s != {}
    ensures k in s && forall j :: j in s ==> j <= k
  {
    assert exists k :: k in s && forall j :: j in s ==> j <= k by {
      var k := MaxExists(s);
    }
    var k :| k in s && forall j :: j in s ==> j <= k;
    k
  }

  ghost function Listing<V>(m: map<int, V>): seq<Entry<V>>
    decreases |m|
  {
    if m.Keys == {} then [] else
      var k := MaxKey(m.Keys);
      assert |(m - {k}).Keys| == |m.Keys| - 1 by { assert (m - {k}).Keys == m.Keys - {k}; }
      Listing(m - {k}) + [Entry(k, m[k])]
  }

  lemma {:induction false} ListingLists<V>(m: map<int, V>)
    ensures Sorted(Listing(m)) && Lists(Listing(m), m)
    decreases |m|
  {
    if m.Keys == {} {
      assert m == map[];
    } else {
      var k := MaxKey(m.Keys);
      assert |(m - {k}).Keys| == |m.Keys| - 1 by { assert (m - {k}).Keys == m.Keys - {k}; }
      ListingLists(m - {k});
      AppendLists(Listing(m - {k}), k, m);
    }
  }

  lemma AppendLists<V>(rest: seq<Entry<V>>, k: int, m: map<int, V>)
    requires k in m && forall j :: j in m ==> j <= k
    requires Sorted(rest) && Lists(rest, m - {k})
    ensures Sorted(rest + [Entry(k, m[k])]) && Lists(rest + [Entry(k, m[k])], m)
  {
    var s := rest + [Entry(k, m[k])];
    forall i | 0 <= i < |rest| ensures rest[i].key < k {
      assert rest[i].key in m - {k};
    }
    forall x | x in m ensures exists i :: 0 <= i < |s| && s[i].key == x {
      if x == k {
        assert s[|rest|].key == x;
      } else {
        assert x in m - {k};
        var i :| 0 <= i < |rest| && rest[i].key == x;
        assert s[i].key == x;
      }
    }
  }

  /** The one characterisation of `Listing`: the sorted sequence whose map is `m`. */
  lemma ListingIs<V>(es: seq<Entry<V>>, m: map<int, V>)
    requires Sorted(es) && Lists(es, m)
    ensures Listing(m) == es
  {
    ListingLists(m);
    SortedUnique(es, Listing(m), m);
  }

  // ---- point updates ----

  lemma InsertLists<V>(a: seq<Entry<V>>, e: Entry<V>, b: seq<Entry<V>>, m: map<int, V>)
    requires Sorted(a + [e] + b) && Lists(a + b, m)
    ensures e.key !in m && Lists(a + [e] + b, m[e.key := e.val])
  {
    var s, t := a + b, a + [e] + b;
    forall i | 0 <= i < |s| ensures s[i].key != e.key {
      assert t[|a|] == e;
      if i < |a| { assert t[i] == s[i]; } else { assert t[i + 1] == s[i]; }
    }
    var m' := m[e.key := e.val];
    forall i | 0 <= i < |t| ensures t[i].key in m' && m'[t[i].key] == t[i].val {
      if i < |a| { assert s[i] == t[i]; } else if i > |a| { assert s[i - 1] == t[i]; }
    }
    forall k | k in m' ensures exists i :: 0 <= i < |t| && t[i].key == k {
      if k == e.key {
        assert t[|a|].key == k;
      } else {
        var i :| 0 <= i < |s| && s[i].key == k;
        if i < |a| { assert t[i].key == k; } else { assert t[i + 1].key == k; }
      }
    }
  }

  lemma RemoveLists<V>(a: seq<Entry<V>>, e: Entry<V>, b: seq<Entry<V>>, m: map<int, V>)
    requires Sorted(a + [e] + b) && Lists(a + [e] + b, m)
    ensures e.key in m && m[e.key] == e.val && Sorted(a + b) && Lists(a + b, m - {e.key})
  {
    var s, t := a + b, a + [e] + b;
    assert t[|a|] == e;
    forall i | 0 <= i < |s| ensures s[i] == t[if i < |a| then i else i + 1] {
    }
    forall k | k in m - {e.key} ensures exists i :: 0 <= i < |s| && s[i].key == k {
      var i :| 0 <= i < |t| && t[i].key == k;
      if i < |a| { assert s[i].key == k; } else { assert s[i - 1].key == k; }
    }
  }

  /** Inserting a new key at its place keeps a sequence sorted. */
  lemma InsertSorted<V>(es: seq<Entry<V>>, pos: nat, e: Entry<V>, lo: int, hi: int)
    requires Sorted(es) && Within(es, lo, hi) && pos <= |es| && lo <= e.key < hi
    requires forall i :: 0 <= i < |es| ==> es[i].key != e.key
    requires forall i :: 0 <= i < pos ==> es[i].key <= e.key
    requires pos < |es| ==> e.key < es[pos].key
    ensures Sorted(es[..pos] + [e] + es[pos..]) && Within(es[..pos] + [e] + es[pos..], lo, hi)
  {
  }

  lemma RemoveSorted<V>(es: seq<Entry<V>>, pos: nat, lo: int, hi: int)
    requires Sorted(es) && Within(es, lo, hi) && pos < |es|
    ensures Sorted(es[..pos] + es[pos + 1..]) && Within(es[..pos] + es[pos + 1..], lo, hi)
  {
  }

  // ---- range queries ----

  /** The values of the entries with lo <= key <= hi, in order. */
  function InRange<V>(es: seq<Entry<V>>, lo: int, hi: int): seq<V> {
    if es == [] then []
    else InRange(es[..|es| - 1], lo, hi)
         + if lo <= es[|es| - 1].key <= hi then [es[|es| - 1].val] else []
  }

  lemma {:induction false} InRangeConcat<V>(a: seq<Entry<V>>, b: seq<Entry<V>>, lo: int, hi: int)
    ensures InRange(a + b, lo, hi) == InRange(a, lo, hi) + InRange(b, lo, hi)
    decreases |b|
  {
    if b == [] {
      assert a + b == a;
    } else {
      var init := b[..|b| - 1];
      InRangeConcat(a, init, lo, hi);
      assert (a + b)[..|a + b| - 1] == a + init;
    }
  }

  lemma {:induction false} InRangeNone<V>(es: seq<Entry<V>>, lo: int, hi: int)
    requires forall i :: 0 <= i < |es| ==> !(lo <= es[i].key <= hi)
    ensures InRange(es, lo, hi) == []
    decreases |es|
  {
    if es != [] { InRangeNone(es[..|es| - 1], lo, hi); }
  }

  lemma {:induction false} InRangeCut<V>(es: seq<Entry<V>>, lo: int, mid: int, hi: int)
    requires Sorted(es) && lo <= mid <= hi
    ensures InRange(es, lo, hi) == InRange(es, lo, mid) + InRange(es, mid + 1, hi)
    decreases |es|
  {
    if es != [] {
      var n := |es| - 1;
      var e := es[n];
      var all, low, high := InRange(es[..n], lo, hi), InRange(es[..n], lo, mid), InRange(es[..n], mid + 1, hi);
      InRangeCut(es[..n], lo, mid, hi);
      if e.key <= mid {
        InRangeNone(es[..n], mid + 1, hi);
        assert high == [] && InRange(es, mid + 1, hi) == [];
      } else if e.key <= hi {
        Associate(low, high, [e.val]);
      }
    }
  }

  lemma InRangeStep<V>(es: seq<Entry<V>>, i: nat, lo: int, hi: int)
    requires i < |es|
    ensures InRange(es[..i + 1], lo, hi) == InRange(es[..i], lo, hi) + if lo <= es[i].key <= hi then [es[i].val] else []
  {
    assert es[..i + 1][..i] == es[..i];
  }

  lemma InRangeStop<V>(es: seq<Entry<V>>, i: nat, lo: int, hi: int)
    requires i < |es| && Ascending(es) && hi < es[i].key
    ensures InRange(es, lo, hi) == InRange(es[..i], lo, hi)
    ensures hi < es[|es| - 1].key
  {
    assert es == es[..i] + es[i..];
    InRangeConcat(es[..i], es[i..], lo, hi);
    InRangeNone(es[i..], lo, hi);
  }

  /** A point query on a sorted listing finds the map's value. */
  lemma {:induction false} InRangePoint<V>(es: seq<Entry<V>>, m: map<int, V>, k: int)
    requires Sorted(es) && Lists(es, m)
    ensures InRange(es, k, k) == if k in m then [m[k]] else []
  {
    if k in m {
      var i :| 0 <= i < |es| && es[i].key == k;
      InRangeAt(es, i);
    } else {
      InRangeNone(es, k, k);
    }
  }

  lemma InRangeAt<V>(es: seq<Entry<V>>, i: nat)
    requires Sorted(es) && i < |es|
    ensures InRange(es, es[i].key, es[i].key) == [es[i].val]
  {
    var a, b, k := es[..i], es[i + 1..], es[i].key;
    InRangeNone(a, k, k);
    InRangeNone(b, k, k);
    InRangeConcat(a, [es[i]], k, k);
    InRangeConcat(a + [es[i]], b, k, k);
    assert es == a + [es[i]] + b;
    assert InRange([es[i]], k, k) == [es[i].val] by {
      assert [es[i]][..0] == [];
    }
  }

  lemma Associate<T>(a: seq<T>, b: seq<T>, c: seq<T>)
    ensures a + (b + c) == (a + b) + c
  {
  }
}
