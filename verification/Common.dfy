/** Values shared by the index, storage and transaction models. */
module Common {

  /** A row's address: data page and position inside the page. */
  datatype RID = RID(pageNo: int, rowIdx: nat)

  datatype Option<+T> = None | Some(value: T)

  /** The size of every page, of tables and of indexes. */
  const PAGE_SIZE: nat := 262144

  lemma DivBound(a: nat, b: nat)
    requires b > 0
    ensures (a / b) * b <= a
  {
  }

  /** The order of texts: the first difference decides, or else the shorter one comes first. */
  predicate TextLess(a: string, b: string) {
    if b == [] then false
    else if a == [] then true
    else a[0] < b[0] || (a[0] == b[0] && TextLess(a[1..], b[1..]))
  }

  /** `a` is a proper beginning of `b`, or has the smaller character where they first differ. */
  ghost predicate TextBefore(a: string, b: string) {
    || (|a| < |b| && a == b[..|a|])
    || exists k :: 0 <= k < |a| && k < |b| && a[..k] == b[..k] && a[k] < b[k]
  }

  lemma {:induction false} TextLessIs(a: string, b: string)
    ensures TextLess(a, b) <==> TextBefore(a, b)
    decreases |a|
  {
    if a != [] && b != [] {
      TextLessIs(a[1..], b[1..]);
      if a[0] < b[0] { assert a[..0] == b[..0]; }
      if a[0] == b[0] { TextBeforeTail(a, b); }
    }
  }

  lemma TextBeforeTail(a: string, b: string)
    requires a != [] && b != [] && a[0] == b[0]
    ensures TextBefore(a, b) <==> TextBefore(a[1..], b[1..])
  {
    var c, d := a[1..], b[1..];
    assert a == [a[0]] + c && b == [a[0]] + d;
    if k :| 0 <= k < |c| && k < |d| && c[..k] == d[..k] && c[k] < d[k] {
      assert a[..k + 1] == [a[0]] + c[..k] && b[..k + 1] == [a[0]] + d[..k];
      assert a[k + 1] < b[k + 1];
    }
    if k :| 0 <= k < |a| && k < |b| && a[..k] == b[..k] && a[k] < b[k] {
      assert c[..k - 1] == a[..k][1..] && d[..k - 1] == b[..k][1..];
      assert c[k - 1] < d[k - 1];
    }
    if |a| < |b| && a == b[..|a|] { assert c == d[..|c|]; }
    if |c| < |d| && c == d[..|c|] { assert a == b[..|a|]; }
  }

  lemma {:induction false} TextOrder(a: string, b: string, c: string)
    ensures !(TextLess(a, b) && TextLess(b, a))
    ensures a == b || TextLess(a, b) || TextLess(b, a)
    ensures TextLess(a, b) && TextLess(b, c) ==> TextLess(a, c)
    decreases |a|
  {
    if a != [] && b != [] {
      TextOrder(a[1..], b[1..], if c == [] then [] else c[1..]);
      assert a[0] == b[0] && a[1..] == b[1..] ==> a == [a[0]] + a[1..] == [b[0]] + b[1..] == b;
    }
  }

  // ---- columns by their ids ----

  /** The last position at which a column is named. */
  function PositionOf(colIds: seq<int>, id: int): (pos: Option<nat>)
    ensures pos.Some? ==> pos.value < |colIds|
  {
    if colIds == [] then None
    else if colIds[|colIds| - 1] == id then Some(|colIds| - 1)
    else PositionOf(colIds[..|colIds| - 1], id)
  }

  lemma {:induction false} PositionIs(colIds: seq<int>, id: int)
    ensures PositionOf(colIds, id).Some? <==> id in colIds
    ensures var pos := PositionOf(colIds, id);
      pos.Some? ==> colIds[pos.value] == id && forall j :: pos.value < j < |colIds| ==> colIds[j] != id
    decreases |colIds|
  {
    if colIds != [] && colIds[|colIds| - 1] != id {
      PositionIs(colIds[..|colIds| - 1], id);
    }
  }

  /** All columns by their ids; a repeated id takes its last position. */
  method PositionMap(colIds: seq<int>) returns (pos: map<int, nat>)
    ensures forall id :: id in pos <==> PositionOf(colIds, id).Some?
    ensures forall id :: id in pos ==> PositionOf(colIds, id) == Some(pos[id])
  {
    pos := map[];
    for j := 0 to |colIds|
      invariant forall id :: id in pos <==> PositionOf(colIds[..j], id).Some?
      invariant forall id :: id in pos ==> PositionOf(colIds[..j], id) == Some(pos[id])
    {
      assert colIds[..j + 1][..j] == colIds[..j];
      pos := pos[colIds[j] := j];
    }
    assert colIds[..|colIds|] == colIds;
  }
}
