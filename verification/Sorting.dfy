/** Orders, sorted sequences and the library sort. */
module Sorting {

  /** `less` is a strict weak order on the elements that satisfy `ok`. */
  ghost predicate WeakOrder<T(!new)>(less: (T, T) -> bool, ok: T -> bool) {
    && (forall a :: ok(a) ==> !less(a, a))
    && (forall a, b, c :: ok(a) && ok(b) && ok(c) && less(a, b) && less(b, c) ==> less(a, c))
    && (forall a, b, c :: ok(a) && ok(b) && ok(c) && !less(a, b) && !less(b, c) ==> !less(a, c))
  }

  ghost predicate AllOk<T>(rows: seq<T>, ok: T -> bool) {
    forall i :: 0 <= i < |rows| ==> ok(rows[i])
  }

  /** No row is less than an earlier one. */
  ghost predicate Ordered<T>(rows: seq<T>, less: (T, T) -> bool) {
    forall i, j :: 0 <= i < j < |rows| ==> !less(rows[j], rows[i])
  }

  lemma SameRowsOk<T>(a: seq<T>, b: seq<T>, ok: T -> bool)
    requires multiset(a) == multiset(b) && AllOk(a, ok)
    ensures AllOk(b, ok) && |a| == |b|
  {
    assert |multiset(a)| == |a| && |multiset(b)| == |b|;
    forall i | 0 <= i < |b| ensures ok(b[i]) {
      assert b[i] in multiset(a);
    }
  }

  /** Putting one row at its place in an ordered sequence. */
  function Placed<T>(rows: seq<T>, x: T, less: (T, T) -> bool): seq<T> {
    if rows == [] || !less(x, rows[|rows| - 1]) then rows + [x]
    else Placed(rows[..|rows| - 1], x, less) + [rows[|rows| - 1]]
  }

  lemma NotLessChain<T(!new)>(less: (T, T) -> bool, ok: T -> bool, a: T, b: T, c: T)
    requires WeakOrder(less, ok) && ok(a) && ok(b) && ok(c) && !less(a, b) && !less(b, c)
    ensures !less(a, c)
  {
  }

  lemma LessOneWay<T(!new)>(less: (T, T) -> bool, ok: T -> bool, a: T, b: T)
    requires WeakOrder(less, ok) && ok(a) && ok(b) && less(a, b)
    ensures !less(b, a)
  {
  }

  lemma {:induction false} PlacedBag<T(!new)>(rows: seq<T>, x: T, less: (T, T) -> bool)
    ensures multiset(Placed(rows, x, less)) == multiset(rows) + multiset{x}
    decreases |rows|
  {
    if rows != [] && less(x, rows[|rows| - 1]) {
      var n := |rows| - 1;
      assert rows == rows[..n] + [rows[n]];
      PlacedBag(rows[..n], x, less);
    }
  }

  lemma {:induction false} PlacedOrdered<T(!new)>(rows: seq<T>, x: T, less: (T, T) -> bool, ok: T -> bool)
    requires WeakOrder(less, ok) && AllOk(rows, ok) && ok(x) && Ordered(rows, less)
    ensures Ordered(Placed(rows, x, less), less)
    decreases |rows|
  {
    hide WeakOrder;
    if rows != [] {
      var n := |rows| - 1;
      var init, last := rows[..n], rows[n];
      if less(x, last) {
        PlacedOrdered(init, x, less, ok);
        PlacedBag(init, x, less);
        LessOneWay(less, ok, x, last);
        var p := Placed(init, x, less);
        forall i | 0 <= i < |p| ensures !less(last, p[i]) {
          assert p[i] in multiset(p);
          assert p[i] == x || p[i] in init;
        }
      } else {
        forall i | 0 <= i < n ensures !less(x, rows[i]) {
          NotLessChain(less, ok, x, last, rows[i]);
        }
      }
    }
  }

  /** The library sort: some ordered permutation. */
  method Sort<T(!new)>(rows: seq<T>, less: (T, T) -> bool, ghost ok: T -> bool) returns (out: seq<T>)
    requires WeakOrder(less, ok) && AllOk(rows, ok)
    ensures Ordered(out, less) && AllOk(out, ok) && multiset(out) == multiset(rows)
  {
    hide WeakOrder, Placed;
    out := [];
    var i := 0;
    while i < |rows|
      invariant i <= |rows| && Ordered(out, less) && AllOk(out, ok) && multiset(out) == multiset(rows[..i])
    {
      PlacedOrdered(out, rows[i], less, ok);
      PlacedBag(out, rows[i], less);
      out := Placed(out, rows[i], less);
      assert rows[..i + 1] == rows[..i] + [rows[i]];
      SameRowsOk(rows[..i + 1], out, ok);
      i := i + 1;
    }
    assert rows[..i] == rows;
  }
}
