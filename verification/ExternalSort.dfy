/** The sorting operators: the row comparator, external merge sort and top-n. */
module ExternalSort {
  import opened Common
  import opened Sorting

  datatype SortCell = Num(num: real) | Text(str: string)

  type SortRow = seq<SortCell>

  /** A cell of a chunk: the stored value and the validity bit. Sorting reads the value only. */
  datatype StoredCell = StoredCell(cell: SortCell, valid: bool)

  type StoredRow = seq<StoredCell>

  function CellsOf(row: StoredRow): SortRow {
    seq(|row|, c requires 0 <= c < |row| => row[c].cell)
  }

  /** A row of the output chunk, whose cells are valid from the start. */
  function EmittedRow(row: SortRow): StoredRow {
    seq(|row|, c requires 0 <= c < |row| => StoredCell(row[c], true))
  }

  function ValuesOf(rows: seq<StoredRow>): seq<SortRow> {
    seq(|rows|, r requires 0 <= r < |rows| => CellsOf(rows[r]))
  }

  function Emitted(rows: seq<SortRow>): seq<StoredRow> {
    seq(|rows|, r requires 0 <= r < |rows| => EmittedRow(rows[r]))
  }

  predicate Complete(row: StoredRow) {
    forall c :: 0 <= c < |row| ==> row[c].valid
  }

  /** No cell is NULL. */
  predicate NoNull(rows: seq<StoredRow>) {
    forall r :: 0 <= r < |rows| ==> Complete(rows[r])
  }

  method ReadRow(row: StoredRow) returns (cells: SortRow)
    ensures cells == CellsOf(row)
  {
    cells := [];
    var c := 0;
    while c < |row|
      invariant c <= |row| && cells == CellsOf(row)[..c]
    {
      cells := cells + [row[c].cell];
      c := c + 1;
    }
  }

  method EmitRows(rows: seq<SortRow>) returns (out: seq<StoredRow>)
    ensures out == Emitted(rows) && NoNull(out) && ValuesOf(out) == rows
  {
    out := [];
    var r := 0;
    while r < |rows|
      invariant r <= |rows| && out == Emitted(rows)[..r]
    {
      out := out + [EmittedRow(rows[r])];
      r := r + 1;
    }
    EmittedValues(rows);
  }

  lemma EmittedValues(rows: seq<SortRow>)
    ensures NoNull(Emitted(rows)) && ValuesOf(Emitted(rows)) == rows
  {
    forall r | 0 <= r < |rows| ensures Complete(Emitted(rows)[r]) && CellsOf(Emitted(rows)[r]) == rows[r] {
      assert Emitted(rows)[r] == EmittedRow(rows[r]);
      assert CellsOf(EmittedRow(rows[r])) == rows[r];
    }
  }

  lemma CompleteEmitted(rows: seq<StoredRow>)
    requires NoNull(rows)
    ensures Emitted(ValuesOf(rows)) == rows
  {
    forall r | 0 <= r < |rows| ensures EmittedRow(CellsOf(rows[r])) == rows[r] {
      assert Complete(rows[r]);
    }
  }

  lemma {:induction false} EmittedFewer(a: seq<SortRow>, b: seq<SortRow>)
    requires multiset(a) <= multiset(b)
    ensures multiset(Emitted(a)) <= multiset(Emitted(b))
    decreases |a|
  {
    hide Emitted, EmittedRow;
    if a == [] {
      NoneEmitted();
    } else {
      var k := IndexOf(a[0], a, b);
      var more, rest := a[..0] + a[1..], b[..k] + b[k + 1..];
      WithoutOne(a, 0);
      WithoutOne(b, k);
      Cancelled(multiset(more), multiset(rest), a[0]);
      EmittedFewer(more, rest);
      EmittedTake(a, 0);
      EmittedTake(b, k);
      Added(multiset(Emitted(more)), multiset(Emitted(rest)), EmittedRow(a[0]));
    }
  }

  lemma NoneEmitted()
    ensures Emitted([]) == []
  {
  }

  lemma IndexOf<T>(x: T, a: seq<T>, b: seq<T>) returns (k: nat)
    requires x in a && multiset(a) <= multiset(b)
    ensures k < |b| && b[k] == x
  {
    assert x in multiset(a);
    assert x in b;
    k :| 0 <= k < |b| && b[k] == x;
  }

  lemma EmittedTake(rows: seq<SortRow>, k: nat)
    requires k < |rows|
    ensures multiset(Emitted(rows)) == multiset(Emitted(rows[..k] + rows[k + 1..])) + multiset{EmittedRow(rows[k])}
  {
    WithoutOne(Emitted(rows), k);
    assert Emitted(rows)[..k] + Emitted(rows)[k + 1..] == Emitted(rows[..k] + rows[k + 1..]);
  }

  lemma Added<T>(a: multiset<T>, b: multiset<T>, x: T)
    requires a <= b
    ensures a + multiset{x} <= b + multiset{x}
  {
  }

  lemma Cancelled<T>(a: multiset<T>, b: multiset<T>, x: T)
    requires a + multiset{x} <= b + multiset{x}
    ensures a <= b
  {
    forall y ensures a[y] <= b[y] {
      assert (a + multiset{x})[y] <= (b + multiset{x})[y];
    }
  }

  lemma WithoutOne<T>(s: seq<T>, k: nat)
    requires k < |s|
    ensures multiset(s) == multiset(s[..k] + s[k + 1..]) + multiset{s[k]}
  {
    assert s == s[..k] + [s[k]] + s[k + 1..];
  }

  /** Rows without NULL that have the values of some stored rows are those rows exactly if none of them had a NULL. */
  lemma PermutedIff(out: seq<StoredRow>, stored: seq<StoredRow>)
    requires NoNull(out) && multiset(ValuesOf(out)) == multiset(ValuesOf(stored))
    ensures multiset(out) == multiset(stored) <==> NoNull(stored)
  {
    CompleteEmitted(out);
    if NoNull(stored) {
      CompleteEmitted(stored);
      EmittedFewer(ValuesOf(out), ValuesOf(stored));
      EmittedFewer(ValuesOf(stored), ValuesOf(out));
    }
    if multiset(out) == multiset(stored) {
      forall r | 0 <= r < |stored| ensures Complete(stored[r]) {
        assert stored[r] in multiset(stored);
        assert stored[r] in out;
      }
    }
  }

  // ---- the comparator ----

  predicate CellLess(a: SortCell, b: SortCell) {
    if a.Text? then b.Text? && TextLess(a.str, b.str) else b.Num? && a.num < b.num
  }

  function CellAt(row: SortRow, i: nat): SortCell {
    if i < |row| then row[i] else Num(0.0)
  }

  predicate Desc(desc: seq<bool>, k: nat) {
    k < |desc| && desc[k]
  }

  predicate RowLess(a: SortRow, b: SortRow, idx: seq<nat>, desc: seq<bool>, k: nat)
    decreases |idx| - k
  {
    k < |idx| &&
    var ca, cb := CellAt(a, idx[k]), CellAt(b, idx[k]);
    if CellLess(ca, cb) then !Desc(desc, k)
    else if CellLess(cb, ca) then Desc(desc, k)
    else RowLess(a, b, idx, desc, k + 1)
  }

  function Comparator(idx: seq<nat>, desc: seq<bool>): (SortRow, SortRow) -> bool {
    (a: SortRow, b: SortRow) => RowLess(a, b, idx, desc, 0)
  }

  /** A row of a table whose i-th column is text exactly if `kinds[i]`. */
  predicate Conforms(row: SortRow, kinds: seq<bool>) {
    |row| == |kinds| && forall i :: 0 <= i < |row| ==> (row[i].Text? <==> kinds[i])
  }

  function Rows(kinds: seq<bool>): SortRow -> bool {
    (row: SortRow) => Conforms(row, kinds)
  }

  /** Cells of one column are totally ordered. */
  lemma CellOrder(a: SortCell, b: SortCell, c: SortCell)
    requires a.Text? == b.Text? == c.Text?
    ensures !CellLess(a, a)
    ensures CellLess(a, b) && CellLess(b, c) ==> CellLess(a, c)
    ensures CellLess(a, b) || CellLess(b, a) || a == b
  {
    if a.Text? {
      TextOrder(a.str, b.str, c.str);
      TextOrder(a.str, a.str, a.str);
    }
  }

  lemma {:induction false} RowOrder(a: SortRow, b: SortRow, c: SortRow, kinds: seq<bool>, idx: seq<nat>,
                                    desc: seq<bool>, k: nat)
    requires Conforms(a, kinds) && Conforms(b, kinds) && Conforms(c, kinds)
    ensures !RowLess(a, a, idx, desc, k)
    ensures RowLess(a, b, idx, desc, k) && RowLess(b, c, idx, desc, k) ==> RowLess(a, c, idx, desc, k)
    ensures !RowLess(a, b, idx, desc, k) && !RowLess(b, c, idx, desc, k) ==> !RowLess(a, c, idx, desc, k)
    decreases |idx| - k
  {
    hide CellLess;
    if k < |idx| {
      var i := idx[k];
      var ca, cb, cc := CellAt(a, i), CellAt(b, i), CellAt(c, i);
      CellOrder(ca, cb, cc);
      CellOrder(cb, cc, ca);
      CellOrder(cc, ca, cb);
      CellOrder(ca, cc, cb);
      CellOrder(cb, ca, cc);
      CellOrder(cc, cb, ca);
      RowOrder(a, b, c, kinds, idx, desc, k + 1);
    }
  }

  /** The multi-column ascending/descending comparator is a strict weak order on the rows of a table. */
  lemma ComparatorOrders(idx: seq<nat>, desc: seq<bool>, kinds: seq<bool>)
    ensures WeakOrder(Comparator(idx, desc), Rows(kinds))
  {
    var less, ok := Comparator(idx, desc), Rows(kinds);
    forall a, b, c | ok(a) && ok(b) && ok(c)
      ensures !less(a, a)
      ensures less(a, b) && less(b, c) ==> less(a, c)
      ensures !less(a, b) && !less(b, c) ==> !less(a, c)
    {
      RowOrder(a, b, c, kinds, idx, desc, 0);
    }
  }

  // ---- what the order means ----

  ghost predicate Smaller(a: SortCell, b: SortCell) {
    if a.Num? then b.Num? && a.num < b.num else b.Text? && TextBefore(a.str, b.str)
  }

  /** Sort column k is the first in which the rows have different values. */
  ghost predicate FirstDiffer(a: SortRow, b: SortRow, idx: seq<nat>, k: nat)
    requires k < |idx|
  {
    && idx[k] < |a| && idx[k] < |b| && a[idx[k]] != b[idx[k]]
    && forall m :: 0 <= m < k && idx[m] < |a| && idx[m] < |b| ==> a[idx[m]] == b[idx[m]]
  }

  /** Row `a` may stand before `b`: where they first differ it has the smaller value, in a descending column the
      greater one. */
  ghost predicate InPlace(a: SortRow, b: SortRow, idx: seq<nat>, desc: seq<bool>) {
    forall k :: 0 <= k < |idx| && FirstDiffer(a, b, idx, k) ==>
      if k < |desc| && desc[k] then Smaller(b[idx[k]], a[idx[k]]) else Smaller(a[idx[k]], b[idx[k]])
  }

  /** Rows of one table have the same columns. */
  ghost predicate Alike(a: SortRow, b: SortRow) {
    |a| == |b| && forall c :: 0 <= c < |a| ==> (a[c].Text? <==> b[c].Text?)
  }

  ghost predicate InOrder(rows: seq<SortRow>, idx: seq<nat>, desc: seq<bool>) {
    forall i, j :: 0 <= i < j < |rows| ==> InPlace(rows[i], rows[j], idx, desc)
  }

  lemma CellLessIs(a: SortCell, b: SortCell)
    requires a.Text? == b.Text?
    ensures CellLess(a, b) <==> Smaller(a, b)
    ensures a == b || Smaller(a, b) || Smaller(b, a)
    ensures !(Smaller(a, b) && Smaller(b, a)) && !Smaller(a, a)
  {
    hide TextLess, TextBefore;
    if a.Text? {
      TextLessIs(a.str, b.str);
      TextLessIs(b.str, a.str);
      TextLessIs(a.str, a.str);
      TextOrder(a.str, b.str, a.str);
      TextOrder(a.str, a.str, a.str);
    }
  }

  /** The comparator decides by the first difference. */
  lemma {:induction false} LessByFirst(a: SortRow, b: SortRow, idx: seq<nat>, desc: seq<bool>, from: nat, k: nat)
    requires Alike(a, b) && from <= k < |idx| && FirstDiffer(a, b, idx, k)
    ensures RowLess(a, b, idx, desc, from) <==>
      if k < |desc| && desc[k] then Smaller(b[idx[k]], a[idx[k]]) else Smaller(a[idx[k]], b[idx[k]])
    decreases k - from
  {
    hide CellLess, Smaller;
    CellLessIs(CellAt(a, idx[from]), CellAt(b, idx[from]));
    CellLessIs(CellAt(b, idx[from]), CellAt(a, idx[from]));
    if from < k { LessByFirst(a, b, idx, desc, from + 1, k); }
  }

  lemma {:induction false} NotLessSame(a: SortRow, b: SortRow, idx: seq<nat>, desc: seq<bool>, from: nat)
    requires Alike(a, b) && forall k :: from <= k < |idx| && idx[k] < |a| ==> a[idx[k]] == b[idx[k]]
    ensures !RowLess(a, b, idx, desc, from)
    decreases |idx| - from
  {
    hide CellLess, Smaller;
    if from < |idx| {
      CellLessIs(CellAt(a, idx[from]), CellAt(b, idx[from]));
      NotLessSame(a, b, idx, desc, from + 1);
    }
  }

  lemma NotLessInPlace(a: SortRow, b: SortRow, idx: seq<nat>, desc: seq<bool>)
    requires Alike(a, b) && !Comparator(idx, desc)(b, a)
    ensures InPlace(a, b, idx, desc)
  {
    hide CellLess, Smaller, RowLess;
    forall k | 0 <= k < |idx| && FirstDiffer(a, b, idx, k)
      ensures if k < |desc| && desc[k] then Smaller(b[idx[k]], a[idx[k]]) else Smaller(a[idx[k]], b[idx[k]])
    {
      LessByFirst(b, a, idx, desc, 0, k);
      CellLessIs(a[idx[k]], b[idx[k]]);
    }
  }

  lemma ComparedRows(a: SortRow, b: SortRow, idx: seq<nat>, desc: seq<bool>)
    requires Alike(a, b)
    ensures forall k :: 0 <= k < |idx| && FirstDiffer(a, b, idx, k) ==>
      (RowLess(a, b, idx, desc, 0) <==>
         if k < |desc| && desc[k] then Smaller(b[idx[k]], a[idx[k]]) else Smaller(a[idx[k]], b[idx[k]]))
    ensures (forall k :: 0 <= k < |idx| && idx[k] < |a| ==> a[idx[k]] == b[idx[k]]) ==> !RowLess(a, b, idx, desc, 0)
  {
    hide Smaller;
    forall k | 0 <= k < |idx| && FirstDiffer(a, b, idx, k)
      ensures RowLess(a, b, idx, desc, 0) <==>
        if k < |desc| && desc[k] then Smaller(b[idx[k]], a[idx[k]]) else Smaller(a[idx[k]], b[idx[k]])
    {
      LessByFirst(a, b, idx, desc, 0, k);
    }
    if forall k :: 0 <= k < |idx| && idx[k] < |a| ==> a[idx[k]] == b[idx[k]] { NotLessSame(a, b, idx, desc, 0); }
  }

  method Compare(a: SortRow, b: SortRow, idx: seq<nat>, desc: seq<bool>) returns (less: bool)
    requires forall k :: 0 <= k < |idx| ==> idx[k] < |a| && idx[k] < |b|
    ensures less == Comparator(idx, desc)(a, b)
    ensures Alike(a, b) ==> forall k :: 0 <= k < |idx| && FirstDiffer(a, b, idx, k) ==>
      (less <==> if k < |desc| && desc[k] then Smaller(b[idx[k]], a[idx[k]]) else Smaller(a[idx[k]], b[idx[k]]))
    ensures Alike(a, b) && (forall k :: 0 <= k < |idx| ==> a[idx[k]] == b[idx[k]]) ==> !less
  {
    hide Smaller, Alike;
    if Alike(a, b) { ComparedRows(a, b, idx, desc); }
    var k := 0;
    while k < |idx|
      invariant k <= |idx| && RowLess(a, b, idx, desc, 0) == RowLess(a, b, idx, desc, k)
    {
      var d := if k < |desc| then desc[k] else false;
      var ca, cb := a[idx[k]], b[idx[k]];
      if CellLess(ca, cb) { return !d; }
      if CellLess(cb, ca) { return d; }
      k := k + 1;
    }
    less := false;
  }

  lemma ConformAlike(a: SortRow, b: SortRow, kinds: seq<bool>)
    requires Conforms(a, kinds) && Conforms(b, kinds)
    ensures Alike(a, b)
  {
  }

  lemma OrderedInPlace(rows: seq<SortRow>, kinds: seq<bool>, idx: seq<nat>, desc: seq<bool>)
    requires AllOk(rows, Rows(kinds)) && Ordered(rows, Comparator(idx, desc))
    ensures InOrder(rows, idx, desc)
  {
    hide InPlace, Conforms, Comparator;
    forall i, j | 0 <= i < j < |rows| ensures InPlace(rows[i], rows[j], idx, desc) {
      assert Rows(kinds)(rows[i]) && Rows(kinds)(rows[j]);
      ConformAlike(rows[i], rows[j], kinds);
      NotLessInPlace(rows[i], rows[j], idx, desc);
    }
  }

  /** The first rows of a sorted list are in order among themselves and before the rows left out. */
  lemma FirstInPlace(first: seq<SortRow>, all: seq<SortRow>, kinds: seq<bool>, idx: seq<nat>, desc: seq<bool>)
    requires AllOk(all, Rows(kinds)) && multiset(first) <= multiset(all) && Ordered(first, Comparator(idx, desc))
    requires forall o, left :: o in first && left in multiset(all) - multiset(first) ==> !Comparator(idx, desc)(left, o)
    ensures InOrder(first, idx, desc)
    ensures forall o, left :: o in first && left in multiset(all) - multiset(first) ==> InPlace(o, left, idx, desc)
  {
    hide InPlace, Conforms, Comparator;
    PartOk(first, all, Rows(kinds));
    OrderedInPlace(first, kinds, idx, desc);
    forall o, left | o in first && left in multiset(all) - multiset(first) ensures InPlace(o, left, idx, desc) {
      assert left in multiset(all) && o in multiset(all);
      PartOk([o], all, Rows(kinds));
      PartOk([left], all, Rows(kinds));
      assert Rows(kinds)([o][0]) && Rows(kinds)([left][0]);
      ConformAlike(o, left, kinds);
      NotLessInPlace(o, left, idx, desc);
    }
  }

  lemma EmptyInOrder(idx: seq<nat>, desc: seq<bool>)
    ensures InOrder([], idx, desc)
  {
  }

  lemma PartOk(part: seq<SortRow>, all: seq<SortRow>, ok: SortRow -> bool)
    requires AllOk(all, ok) && forall r :: r in part ==> r in multiset(all)
    ensures AllOk(part, ok)
  {
    forall i | 0 <= i < |part| ensures ok(part[i]) {
      assert part[i] in part && part[i] in all;
    }
  }

  // ---- merging sorted runs ----

  /** All rows of all runs from the given positions on. */
  ghost function Rest(runs: seq<seq<SortRow>>, from: seq<nat>): multiset<SortRow>
    requires |from| == |runs| && forall i :: 0 <= i < |runs| ==> from[i] <= |runs[i]|
  {
    if runs == [] then multiset{} else
      var n := |runs| - 1;
      Rest(runs[..n], from[..n]) + multiset(runs[n][from[n]..])
  }

  lemma TailBag(run: seq<SortRow>, k: nat)
    requires k < |run|
    ensures multiset(run[k..]) == multiset(run[k + 1..]) + multiset{run[k]}
  {
    assert run[k..] == [run[k]] + run[k + 1..];
  }

  lemma {:induction false} RestTake(runs: seq<seq<SortRow>>, from: seq<nat>, b: nat)
    requires |from| == |runs| && b < |runs| && from[b] < |runs[b]|
    requires forall i :: 0 <= i < |runs| ==> from[i] <= |runs[i]|
    ensures Rest(runs, from) == Rest(runs, from[b := from[b] + 1]) + multiset{runs[b][from[b]]}
    decreases |runs|
  {
    var n := |runs| - 1;
    var from' := from[b := from[b] + 1];
    if b == n {
      assert from'[..n] == from[..n];
      TailBag(runs[n], from[n]);
    } else {
      assert from'[..n] == from[..n][b := from[b] + 1];
      RestTake(runs[..n], from[..n], b);
    }
  }

  lemma {:induction false} RestNone(runs: seq<seq<SortRow>>, from: seq<nat>)
    requires |from| == |runs| && forall i :: 0 <= i < |runs| ==> from[i] == |runs[i]|
    ensures Rest(runs, from) == multiset{}
    decreases |runs|
  {
    if runs != [] { RestNone(runs[..|runs| - 1], from[..|runs| - 1]); }
  }

  function Zeros(n: nat): seq<nat> { seq(n, _ => 0) }

  /** A cursor over one run file: the next row to read, and the row in memory. */
  datatype Reader = Reader(off: nat, cur: SortRow, valid: bool)

  // Where the rows not yet merged start.
  function Pending(r: Reader): nat {
    if r.valid && r.off > 0 then r.off - 1 else r.off
  }

  ghost predicate Reading(r: Reader, run: seq<SortRow>) {
    && r.off <= |run|
    && (if r.valid then 0 < r.off && r.cur == run[r.off - 1] else r.off == |run|)
  }

  ghost predicate AllReading(readers: seq<Reader>, runs: seq<seq<SortRow>>) {
    |readers| == |runs| && forall i :: 0 <= i < |runs| ==> Reading(readers[i], runs[i])
  }

  ghost function Pendings(readers: seq<Reader>): seq<nat> {
    seq(|readers|, i requires 0 <= i < |readers| => Pending(readers[i]))
  }

  ghost predicate Runs(runs: seq<seq<SortRow>>, less: (SortRow, SortRow) -> bool, ok: SortRow -> bool) {
    forall i :: 0 <= i < |runs| ==> Ordered(runs[i], less) && AllOk(runs[i], ok)
  }

  /** No row still to come is less than a merged one. */
  ghost predicate Ahead(merged: seq<SortRow>, readers: seq<Reader>, runs: seq<seq<SortRow>>,
                        less: (SortRow, SortRow) -> bool)
    requires AllReading(readers, runs)
  {
    forall m, i, k :: 0 <= m < |merged| && 0 <= i < |runs| && Pending(readers[i]) <= k < |runs[i]| ==>
      !less(runs[i][k], merged[m])
  }

  /** The reader whose row was taken moves on to the next row of its run, if there is one. */
  method Advance(readers: seq<Reader>, runs: seq<seq<SortRow>>, best: nat) returns (after: seq<Reader>)
    requires AllReading(readers, runs) && best < |readers| && readers[best].valid
    ensures AllReading(after, runs)
    ensures Pendings(after) == Pendings(readers)[best := Pendings(readers)[best] + 1]
    ensures Pendings(readers)[best] < |runs[best]| && runs[best][Pendings(readers)[best]] == readers[best].cur
  {
    assert Reading(readers[best], runs[best]);
    if readers[best].off < |runs[best]| {
      after := readers[best := Reader(readers[best].off + 1, runs[best][readers[best].off], true)];
    } else {
      after := readers[best := readers[best].(valid := false)];
    }
  }

  method MergeRuns(runs: seq<seq<SortRow>>, less: (SortRow, SortRow) -> bool, ghost ok: SortRow -> bool)
    returns (merged: seq<SortRow>)
    requires WeakOrder(less, ok) && Runs(runs, less, ok)
    ensures Ordered(merged, less) && multiset(merged) == AllRows(runs)
  {
    hide WeakOrder, Rest, Ordered, AllOk, Ahead, Zeros;
    var readers := OpenRuns(runs);
    merged := [];
    NothingRead(readers, runs, less);
    EmptyOrdered(less);
    ghost var all := Rest(runs, Zeros(|runs|));
    while true
      invariant AllReading(readers, runs)
      invariant multiset(merged) + Rest(runs, Pendings(readers)) == all
      invariant Ordered(merged, less) && Ahead(merged, readers, runs, less)
      decreases |Rest(runs, Pendings(readers))|
    {
      var found, best := PickBest(readers, runs, less, ok);
      PendingsIn(readers, runs);
      if !found {
        RestNone(runs, Pendings(readers));
        return;
      }
      var row := readers[best].cur;
      RestTake(runs, Pendings(readers), best);
      BestIsLeast(readers, runs, less, ok, best);
      ghost var before, had := readers, merged;
      merged := merged + [row];
      readers := Advance(readers, runs, best);
      PendingsIn(readers, runs);
      Extended(had, row, less, before, readers, runs);
    }
  }

  lemma NothingRead(readers: seq<Reader>, runs: seq<seq<SortRow>>, less: (SortRow, SortRow) -> bool)
    requires AllReading(readers, runs) && forall i :: 0 <= i < |runs| ==> Pending(readers[i]) == 0
    ensures Pendings(readers) == Zeros(|runs|) && Ahead([], readers, runs, less)
  {
  }

  /** Where each reader stands; one without a row in memory is at the end of its run. */
  lemma PendingsIn(readers: seq<Reader>, runs: seq<seq<SortRow>>)
    requires AllReading(readers, runs)
    ensures |Pendings(readers)| == |runs|
    ensures forall i :: 0 <= i < |runs| ==> Pendings(readers)[i] == Pending(readers[i]) <= |runs[i]|
    ensures forall i :: 0 <= i < |runs| && !readers[i].valid ==> Pendings(readers)[i] == |runs[i]|
  {
    forall i | 0 <= i < |runs|
      ensures Pendings(readers)[i] == Pending(readers[i]) <= |runs[i]|
      ensures !readers[i].valid ==> Pending(readers[i]) == |runs[i]|
    {
      assert Reading(readers[i], runs[i]);
    }
  }

  lemma EmptyOrdered(less: (SortRow, SortRow) -> bool)
    ensures Ordered([], less)
  {
  }

  /** Open every run and read its first row. */
  method OpenRuns(runs: seq<seq<SortRow>>) returns (readers: seq<Reader>)
    ensures AllReading(readers, runs) && forall i :: 0 <= i < |runs| ==> Pending(readers[i]) == 0
  {
    readers := [];
    var i := 0;
    while i < |runs|
      invariant i <= |runs| && |readers| == i
      invariant forall j :: 0 <= j < i ==> Reading(readers[j], runs[j]) && Pending(readers[j]) == 0
    {
      readers := readers + [if 0 < |runs[i]| then Reader(1, runs[i][0], true) else Reader(0, [], false)];
      i := i + 1;
    }
  }

  /** The first reader whose row no other reader's row is less than. */
  method PickBest(readers: seq<Reader>, ghost runs: seq<seq<SortRow>>, less: (SortRow, SortRow) -> bool,
                  ghost ok: SortRow -> bool)
    returns (found: bool, best: nat)
    requires AllReading(readers, runs) && WeakOrder(less, ok) && Runs(runs, less, ok)
    ensures found ==> best < |readers| && readers[best].valid
    ensures found ==> forall i :: 0 <= i < |readers| && readers[i].valid ==> !less(readers[i].cur, readers[best].cur)
    ensures !found ==> forall i :: 0 <= i < |readers| ==> !readers[i].valid
  {
    hide WeakOrder, Ordered;
    found, best := false, 0;
    var i := 0;
    while i < |readers|
      invariant i <= |readers| && (found ==> best < i && readers[best].valid)
      invariant found ==> forall j :: 0 <= j < i && readers[j].valid ==> !less(readers[j].cur, readers[best].cur)
      invariant !found ==> forall j :: 0 <= j < i ==> !readers[j].valid
    {
      if readers[i].valid {
        OkCur(readers, runs, less, ok);
        if !found {
          NotBelowItself(less, ok, readers[i].cur);
          found, best := true, i;
        } else if less(readers[i].cur, readers[best].cur) {
          NotBelowItself(less, ok, readers[i].cur);
          LessOneWay(less, ok, readers[i].cur, readers[best].cur);
          forall j | 0 <= j < i && readers[j].valid ensures !less(readers[j].cur, readers[i].cur) {
            NotLessChain(less, ok, readers[j].cur, readers[best].cur, readers[i].cur);
          }
          best := i;
        }
      }
      i := i + 1;
    }
  }

  lemma NotBelowItself(less: (SortRow, SortRow) -> bool, ok: SortRow -> bool, a: SortRow)
    requires WeakOrder(less, ok) && ok(a)
    ensures !less(a, a)
  {
  }

  lemma OkCur(readers: seq<Reader>, runs: seq<seq<SortRow>>, less: (SortRow, SortRow) -> bool, ok: SortRow -> bool)
    requires AllReading(readers, runs) && Runs(runs, less, ok)
    ensures forall i :: 0 <= i < |readers| && readers[i].valid ==> ok(readers[i].cur)
  {
    forall i | 0 <= i < |readers| && readers[i].valid ensures ok(readers[i].cur) {
      assert Reading(readers[i], runs[i]);
    }
  }

  /** The picked row is least among all rows still to come, in memory or not. */
  lemma BestIsLeast(readers: seq<Reader>, runs: seq<seq<SortRow>>, less: (SortRow, SortRow) -> bool,
                    ok: SortRow -> bool, best: nat)
    requires AllReading(readers, runs) && WeakOrder(less, ok)
    requires Runs(runs, less, ok) && best < |readers| && readers[best].valid
    requires forall i :: 0 <= i < |readers| && readers[i].valid ==> !less(readers[i].cur, readers[best].cur)
    ensures forall i, k :: 0 <= i < |runs| && Pending(readers[i]) <= k < |runs[i]| ==>
      !less(runs[i][k], readers[best].cur)
  {
    hide WeakOrder;
    OkCur(readers, runs, less, ok);
    forall i, k | 0 <= i < |runs| && Pending(readers[i]) <= k < |runs[i]| ensures !less(runs[i][k], readers[best].cur) {
      assert Reading(readers[i], runs[i]) && Ordered(runs[i], less) && AllOk(runs[i], ok);
      if readers[i].valid {
        NotBelowItself(less, ok, readers[i].cur);
        assert !less(runs[i][k], readers[i].cur);
        NotLessChain(less, ok, runs[i][k], readers[i].cur, readers[best].cur);
      }
    }
  }

  lemma Extended(merged: seq<SortRow>, row: SortRow, less: (SortRow, SortRow) -> bool, before: seq<Reader>,
                 after: seq<Reader>, runs: seq<seq<SortRow>>)
    requires AllReading(before, runs) && AllReading(after, runs)
    requires Ordered(merged, less) && Ahead(merged, before, runs, less)
    requires forall i :: 0 <= i < |runs| ==> Pending(before[i]) <= Pending(after[i])
    requires exists i :: 0 <= i < |runs| && Pending(before[i]) < |runs[i]| && runs[i][Pending(before[i])] == row
    requires forall i, k :: 0 <= i < |runs| && Pending(before[i]) <= k < |runs[i]| ==> !less(runs[i][k], row)
    ensures Ordered(merged + [row], less) && Ahead(merged + [row], after, runs, less)
  {
    var b :| 0 <= b < |runs| && Pending(before[b]) < |runs[b]| && runs[b][Pending(before[b])] == row;
    forall m | 0 <= m < |merged| ensures !less(row, merged[m]) {
      assert !less(runs[b][Pending(before[b])], merged[m]);
    }
  }

  // ---- run generation ----

  const K_RUN_ROWS: nat := 4096

  /** All rows of a stream of chunks. */
  function Concat<T>(chunks: seq<seq<T>>): seq<T> {
    if chunks == [] then [] else Concat(chunks[..|chunks| - 1]) + chunks[|chunks| - 1]
  }

  /** The values of a stream of chunks. */
  function Values(chunks: seq<seq<StoredRow>>): seq<seq<SortRow>> {
    seq(|chunks|, c requires 0 <= c < |chunks| => ValuesOf(chunks[c]))
  }

  lemma ValuesAt(chunks: seq<seq<StoredRow>>)
    ensures |Values(chunks)| == |chunks|
    ensures forall c :: 0 <= c < |chunks| ==> |Values(chunks)[c]| == |chunks[c]|
    ensures forall c, r :: 0 <= c < |chunks| && 0 <= r < |chunks[c]| ==> Values(chunks)[c][r] == CellsOf(chunks[c][r])
  {
  }

  lemma {:induction false} ConcatValues(chunks: seq<seq<StoredRow>>)
    ensures Concat(Values(chunks)) == ValuesOf(Concat(chunks))
    decreases |chunks|
  {
    if chunks != [] {
      var n := |chunks| - 1;
      ConcatValues(chunks[..n]);
      assert Values(chunks)[..n] == Values(chunks[..n]);
      assert ValuesOf(Concat(chunks[..n]) + chunks[n]) == ValuesOf(Concat(chunks[..n])) + ValuesOf(chunks[n]);
    }
  }

  /** All rows of all runs. */
  ghost function AllRows(runs: seq<seq<SortRow>>): multiset<SortRow> {
    Rest(runs, Zeros(|runs|))
  }

  lemma AddRun(runs: seq<seq<SortRow>>, run: seq<SortRow>)
    ensures AllRows(runs + [run]) == AllRows(runs) + multiset(run)
  {
    var more := runs + [run];
    assert more[..|runs|] == runs && Zeros(|more|)[..|runs|] == Zeros(|runs|);
    assert run[0..] == run;
  }

  lemma RunAdded(runs: seq<seq<SortRow>>, run: seq<SortRow>, less: (SortRow, SortRow) -> bool, ok: SortRow -> bool)
    requires Runs(runs, less, ok) && Ordered(run, less) && AllOk(run, ok)
    ensures Runs(runs + [run], less, ok)
  {
    hide Ordered, AllOk;
    var more := runs + [run];
    forall i | 0 <= i < |more| ensures Ordered(more[i], less) && AllOk(more[i], ok) {
      if i < |runs| { assert more[i] == runs[i]; }
    }
  }

  /** Cut the input into sorted runs of at most `K_RUN_ROWS` rows. */
  method MakeRuns(input: seq<seq<StoredRow>>, less: (SortRow, SortRow) -> bool, ghost ok: SortRow -> bool)
    returns (runs: seq<seq<SortRow>>)
    requires WeakOrder(less, ok) && forall i :: 0 <= i < |input| ==> AllOk(Values(input)[i], ok)
    ensures Runs(runs, less, ok) && AllRows(runs) == multiset(Concat(Values(input)))
    ensures forall i :: 0 <= i < |runs| ==> 0 < |runs[i]| <= K_RUN_ROWS
  {
    hide WeakOrder, Rest, Ordered, AllOk, Concat, Values, ValuesOf, CellsOf, Runs, AllRows;
    runs := [];
    ghost var chunks := Values(input);
    ValuesAt(input);
    var buf: seq<SortRow> := [];
    NoRuns(chunks, less, ok);
    var c := 0;
    while c < |input|
      invariant c <= |chunks| && |buf| < K_RUN_ROWS && AllOk(buf, ok) && Runs(runs, less, ok)
      invariant forall i :: 0 <= i < |runs| ==> 0 < |runs[i]| <= K_RUN_ROWS
      invariant AllRows(runs) + multiset(buf) == multiset(Concat(chunks[..c]))
    {
      var r := 0;
      ConcatStart(chunks, c);
      while r < |input[c]|
        invariant r <= |chunks[c]| && |buf| < K_RUN_ROWS && AllOk(buf, ok) && Runs(runs, less, ok)
        invariant forall i :: 0 <= i < |runs| ==> 0 < |runs[i]| <= K_RUN_ROWS
        invariant AllRows(runs) + multiset(buf) == multiset(Concat(chunks[..c]) + chunks[c][..r])
      {
        OneMoreRow(Concat(chunks[..c]), chunks[c], r, buf, ok);
        var row := ReadRow(input[c][r]);
        buf := buf + [row];
        if |buf| >= K_RUN_ROWS {
          runs := FlushRun(runs, buf, less, ok);
          buf := [];
          NoneOk(ok);
        }
        r := r + 1;
      }
      ConcatEnd(chunks, c);
      c := c + 1;
    }
    assert chunks[..c] == chunks;
    if buf != [] {
      runs := FlushRun(runs, buf, less, ok);
    }
  }

  /** Sort the buffered rows into a run of their own. */
  method FlushRun(
    runs: seq<seq<SortRow>>, buf: seq<SortRow>, less: (SortRow, SortRow) -> bool, ghost ok: SortRow -> bool
  )
    returns (more: seq<seq<SortRow>>)
    requires WeakOrder(less, ok) && AllOk(buf, ok) && Runs(runs, less, ok) && 0 < |buf| <= K_RUN_ROWS
    requires forall i :: 0 <= i < |runs| ==> 0 < |runs[i]| <= K_RUN_ROWS
    ensures Runs(more, less, ok) && AllRows(more) == AllRows(runs) + multiset(buf)
    ensures forall i :: 0 <= i < |more| ==> 0 < |more[i]| <= K_RUN_ROWS
  {
    hide WeakOrder, Ordered, AllOk, AllRows;
    var run := Sort(buf, less, ok);
    SameLength(run, buf);
    AddRun(runs, run);
    RunAdded(runs, run, less, ok);
    more := runs + [run];
  }

  lemma NoRuns(chunks: seq<seq<SortRow>>, less: (SortRow, SortRow) -> bool, ok: SortRow -> bool)
    ensures AllRows([]) == multiset{} && Concat(chunks[..0]) == []
    ensures AllOk([], ok) && Runs([], less, ok)
  {
  }

  lemma NoneOk(ok: SortRow -> bool)
    ensures AllOk([], ok)
  {
  }

  lemma SameLength(a: seq<SortRow>, b: seq<SortRow>)
    requires multiset(a) == multiset(b)
    ensures |a| == |b|
  {
    assert |multiset(a)| == |a| && |multiset(b)| == |b|;
  }

  lemma ConcatStart(chunks: seq<seq<SortRow>>, c: nat)
    requires c < |chunks|
    ensures Concat(chunks[..c]) + chunks[c][..0] == Concat(chunks[..c])
  {
  }

  lemma ConcatEnd(chunks: seq<seq<SortRow>>, c: nat)
    requires c < |chunks|
    ensures Concat(chunks[..c + 1]) == Concat(chunks[..c]) + chunks[c][..|chunks[c]|]
  {
    assert chunks[..c + 1][..c] == chunks[..c];
  }

  lemma OneMoreRow(done: seq<SortRow>, chunk: seq<SortRow>, r: nat, buf: seq<SortRow>, ok: SortRow -> bool)
    requires r < |chunk| && AllOk(chunk, ok) && AllOk(buf, ok)
    ensures multiset(done + chunk[..r + 1]) == multiset(done + chunk[..r]) + multiset{chunk[r]}
    ensures AllOk(buf + [chunk[r]], ok)
  {
    assert chunk[..r + 1] == chunk[..r] + [chunk[r]];
    assert done + chunk[..r + 1] == (done + chunk[..r]) + [chunk[r]];
  }

  // ---- sort columns ----

  datatype SortResult = Done(rows: seq<StoredRow>) | TextUnsupported | ColumnMissing

  function Positions(ids: seq<int>, sortCols: seq<int>): seq<nat> {
    seq(|sortCols|, k requires 0 <= k < |sortCols| =>
      match PositionOf(ids, sortCols[k])
      case Some(pos) => pos
      case None => 0)
  }

  ghost predicate AllPresent(ids: seq<int>, sortCols: seq<int>) {
    forall k :: 0 <= k < |sortCols| ==> sortCols[k] in ids
  }

  /** Each sort column's position; of columns with the same id the last. */
  ghost predicate Resolved(ids: seq<int>, sortCols: seq<int>, idx: seq<nat>) {
    && |idx| == |sortCols|
    && forall k :: 0 <= k < |idx| ==>
         idx[k] < |ids| && ids[idx[k]] == sortCols[k] && forall j :: idx[k] < j < |ids| ==> ids[j] != sortCols[k]
  }

  lemma PositionsResolve(ids: seq<int>, sortCols: seq<int>)
    requires AllPresent(ids, sortCols)
    ensures Resolved(ids, sortCols, Positions(ids, sortCols))
  {
    forall k | 0 <= k < |sortCols|
      ensures PositionOf(ids, sortCols[k]).Some?
      ensures var pos := PositionOf(ids, sortCols[k]).value;
        pos < |ids| && ids[pos] == sortCols[k] && forall j :: pos < j < |ids| ==> ids[j] != sortCols[k]
    {
      PositionIs(ids, sortCols[k]);
    }
  }

  /** The sort columns' positions, unless one of them is not a column of the input. */
  method ResolveColumns(ids: seq<int>, sortCols: seq<int>) returns (ok: bool, idx: seq<nat>)
    ensures ok <==> AllPresent(ids, sortCols)
    ensures ok ==> idx == Positions(ids, sortCols) && Resolved(ids, sortCols, idx)
  {
    var m := PositionMap(ids);
    ok, idx := true, [];
    var k := 0;
    while k < |sortCols|
      invariant k <= |sortCols| == |Positions(ids, sortCols)| && AllPresent(ids, sortCols[..k])
      invariant idx == Positions(ids, sortCols)[..k]
    {
      PositionIs(ids, sortCols[k]);
      if sortCols[k] !in m { return false, []; }
      idx := idx + [m[sortCols[k]]];
      k := k + 1;
    }
    assert sortCols[..k] == sortCols;
    PositionsResolve(ids, sortCols);
  }

  /** The external sort: with input, text columns and unknown sort columns are refused, in this order;
      otherwise the output rows are in order and have exactly the values of the input, whatever the chunking
      and the number of runs. They are the input rows exactly if no input cell is NULL. */
  method ExternalSort(chunks: seq<seq<StoredRow>>, kinds: seq<bool>, ids: seq<int>, sortCols: seq<int>, desc: seq<bool>)
    returns (out: SortResult)
    requires forall i :: 0 <= i < |chunks| ==> AllOk(Values(chunks)[i], Rows(kinds))
    ensures out.TextUnsupported? <==> chunks != [] && true in kinds
    ensures out.ColumnMissing? <==> chunks != [] && true !in kinds && !AllPresent(ids, sortCols)
    ensures out.Done? ==>
      && Ordered(ValuesOf(out.rows), Comparator(Positions(ids, sortCols), desc))
      && multiset(ValuesOf(out.rows)) == multiset(ValuesOf(Concat(chunks))) && NoNull(out.rows)
      && (multiset(out.rows) == multiset(Concat(chunks)) <==> NoNull(Concat(chunks)))
      && InOrder(ValuesOf(out.rows), Positions(ids, sortCols), desc)
      && (chunks != [] ==> Resolved(ids, sortCols, Positions(ids, sortCols)))
  {
    hide WeakOrder, Rest, Ordered, AllOk, NoNull, InOrder, Resolved, Comparator;
    var idx := [];
    if chunks != [] {
      if true in kinds { return TextUnsupported; }
      var ok;
      ok, idx := ResolveColumns(ids, sortCols);
      if !ok { return ColumnMissing; }
    }
    var less := Comparator(idx, desc);
    ComparatorOrders(idx, desc, kinds);
    var runs := MakeRuns(chunks, less, Rows(kinds));
    var merged := MergeRuns(runs, less, Rows(kinds));
    if chunks == [] { NothingMerged(chunks, merged, Comparator(Positions(ids, sortCols), desc)); }
    var rows := EmitRows(merged);
    ConcatValues(chunks);
    PermutedIff(rows, Concat(chunks));
    ConcatOk(Values(chunks), Rows(kinds));
    SameRowsOk(Concat(Values(chunks)), merged, Rows(kinds));
    OrderedInPlace(merged, kinds, Positions(ids, sortCols), desc);
    out := Done(rows);
  }

  lemma NothingMerged(chunks: seq<seq<StoredRow>>, merged: seq<SortRow>, less: (SortRow, SortRow) -> bool)
    requires chunks == [] && multiset(merged) == multiset(Concat(Values(chunks)))
    ensures merged == [] && Ordered(merged, less)
  {
    assert Values(chunks) == [];
    SameLength(merged, []);
  }

  // ---- in memory ----

  /** The values of all input rows, and the sort columns' positions as soon as there is input. */
  method Materialize(chunks: seq<seq<StoredRow>>, ids: seq<int>, sortCols: seq<int>)
    returns (ok: bool, rows: seq<SortRow>, idx: seq<nat>)
    ensures ok <==> chunks == [] || AllPresent(ids, sortCols)
    ensures ok ==> rows == Concat(Values(chunks)) && idx == if chunks == [] then [] else Positions(ids, sortCols)
    ensures ok && chunks != [] ==> Resolved(ids, sortCols, idx)
  {
    hide Resolved, Concat, Positions, Values;
    ok, rows, idx := true, [], [];
    ghost var values := Values(chunks);
    ValuesAt(chunks);
    ConcatNone(values);
    var c := 0;
    while c < |chunks|
      invariant c <= |chunks| && ok && rows == Concat(values[..c])
      invariant c > 0 ==> AllPresent(ids, sortCols)
      invariant idx == if c == 0 then [] else Positions(ids, sortCols)
      invariant c > 0 ==> Resolved(ids, sortCols, idx)
    {
      if c == 0 {
        ok, idx := ResolveColumns(ids, sortCols);
        if !ok { return; }
      }
      var r := 0;
      ConcatStart(values, c);
      while r < |chunks[c]|
        invariant r <= |chunks[c]| && rows == Concat(values[..c]) + values[c][..r]
      {
        var row := ReadRow(chunks[c][r]);
        RowRead(Concat(values[..c]), values[c], r);
        rows := rows + [row];
        r := r + 1;
      }
      ConcatEnd(values, c);
      c := c + 1;
    }
    assert values[..c] == values;
  }

  lemma RowRead(done: seq<SortRow>, chunk: seq<SortRow>, r: nat)
    requires r < |chunk|
    ensures done + chunk[..r + 1] == (done + chunk[..r]) + [chunk[r]]
  {
    assert chunk[..r + 1] == chunk[..r] + [chunk[r]];
  }

  lemma ConcatNone(chunks: seq<seq<SortRow>>)
    ensures Concat(chunks[..0]) == []
  {
  }

  lemma {:induction false} ConcatOk(chunks: seq<seq<SortRow>>, ok: SortRow -> bool)
    requires forall i :: 0 <= i < |chunks| ==> AllOk(chunks[i], ok)
    ensures AllOk(Concat(chunks), ok)
    decreases |chunks|
  {
    if chunks != [] {
      ConcatOk(chunks[..|chunks| - 1], ok);
      assert AllOk(chunks[|chunks| - 1], ok);
    }
  }

  /** Sorting with a limit: `n` rows in order with values of the input, none of which sorts after a row left
      out. They are input rows if there is no NULL; with all rows taken, exactly then. */
  method TopN(chunks: seq<seq<StoredRow>>, n: nat, kinds: seq<bool>, ids: seq<int>, sortCols: seq<int>, desc: seq<bool>)
    returns (out: SortResult)
    requires forall i :: 0 <= i < |chunks| ==> AllOk(Values(chunks)[i], Rows(kinds))
    ensures out.ColumnMissing? <==> chunks != [] && !AllPresent(ids, sortCols)
    ensures !out.TextUnsupported?
    ensures out.Done? ==>
      var all, less := ValuesOf(Concat(chunks)), Comparator(Positions(ids, sortCols), desc);
      var first := ValuesOf(out.rows);
      && |first| == (if n < |all| then n else |all|) && multiset(first) <= multiset(all) && Ordered(first, less)
      && forall o, left :: o in first && left in multiset(all) - multiset(first) ==> !less(left, o)
    ensures out.Done? ==>
      var all, first, idx := ValuesOf(Concat(chunks)), ValuesOf(out.rows), Positions(ids, sortCols);
      && InOrder(first, idx, desc) && (chunks != [] ==> Resolved(ids, sortCols, idx))
      && forall o, left :: o in first && left in multiset(all) - multiset(first) ==> InPlace(o, left, idx, desc)
    ensures out.Done? && NoNull(Concat(chunks)) ==> multiset(out.rows) <= multiset(Concat(chunks))
    ensures out.Done? && n >= |Concat(chunks)| ==>
      (multiset(out.rows) == multiset(Concat(chunks)) <==> NoNull(Concat(chunks)))
  {
    hide WeakOrder, AllOk, NoNull, Ordered, InOrder, InPlace, Resolved, Comparator;
    var ok, rows, idx := Materialize(chunks, ids, sortCols);
    if !ok { return ColumnMissing; }
    ConcatValues(chunks);
    if chunks == [] {
      EmptyOrdered(Comparator(Positions(ids, sortCols), desc));
      var none := EmitRows([]);
      assert none == [];
      PermutedIff(none, Concat(chunks));
      EmptyInOrder(Positions(ids, sortCols), desc);
      return Done(none);
    }
    ConcatOk(Values(chunks), Rows(kinds));
    ComparatorOrders(idx, desc, kinds);
    var first := FirstRows(rows, n, Comparator(idx, desc), Rows(kinds));
    FirstInPlace(first, rows, kinds, idx, desc);
    var emitted := EmitRows(first);
    Kept(emitted, Concat(chunks));
    if n >= |rows| {
      SubAll(first, rows);
      PermutedIff(emitted, Concat(chunks));
    }
    out := Done(emitted);
  }

  lemma SubAll(a: seq<SortRow>, b: seq<SortRow>)
    requires multiset(a) <= multiset(b) && |a| == |b|
    ensures multiset(a) == multiset(b)
  {
    assert |multiset(b) - multiset(a)| == |multiset(b)| - |multiset(a)| == 0;
    assert multiset(b) == multiset(a) + (multiset(b) - multiset(a));
  }

  lemma Kept(out: seq<StoredRow>, stored: seq<StoredRow>)
    requires NoNull(out) && multiset(ValuesOf(out)) <= multiset(ValuesOf(stored))
    ensures NoNull(stored) ==> multiset(out) <= multiset(stored)
  {
    if NoNull(stored) {
      CompleteEmitted(out);
      CompleteEmitted(stored);
      EmittedFewer(ValuesOf(out), ValuesOf(stored));
    }
  }

  method FirstRows(rows: seq<SortRow>, n: nat, less: (SortRow, SortRow) -> bool, ghost ok: SortRow -> bool)
    returns (out: seq<SortRow>)
    requires WeakOrder(less, ok) && AllOk(rows, ok)
    ensures |out| == (if n < |rows| then n else |rows|) && multiset(out) <= multiset(rows) && Ordered(out, less)
    ensures forall o, left :: o in out && left in multiset(rows) - multiset(out) ==> !less(left, o)
  {
    hide WeakOrder, Ordered;
    var sorted := Sort(rows, less, ok);
    SameLength(sorted, rows);
    if n < |rows| {
      out := sorted[..n];
      CutOrdered(sorted, n, less);
    } else {
      out := sorted;
    }
  }

  /** What is left behind a cut of an ordered list does not sort before it. */
  lemma CutOrdered(sorted: seq<SortRow>, n: nat, less: (SortRow, SortRow) -> bool)
    requires Ordered(sorted, less) && n <= |sorted|
    ensures Ordered(sorted[..n], less) && multiset(sorted) == multiset(sorted[..n]) + multiset(sorted[n..])
    ensures multiset(sorted) - multiset(sorted[..n]) == multiset(sorted[n..])
    ensures forall o, left :: o in sorted[..n] && left in multiset(sorted[n..]) ==> !less(left, o)
  {
    assert sorted == sorted[..n] + sorted[n..];
    forall o, left | o in sorted[..n] && left in multiset(sorted[n..]) ensures !less(left, o) {
      var i :| 0 <= i < n && sorted[i] == o;
      assert left in sorted[n..];
      var j :| 0 <= j < |sorted[n..]| && sorted[n..][j] == left;
      assert sorted[n + j] == left;
    }
  }
}
