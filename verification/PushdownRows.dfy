/** Selecting rows by several predicates, and how that commutes with projections and joins.

    A join writes its rows with all cells valid, so a null test sees other bits above a join than
    below it.  Rows are therefore followed through joins with the bits their cells had below, and a
    predicate says which bits it looks at.
 */
module PushdownRows {
  import opened Expressions
  import opened Plans

  predicate Sat(e: Expr, row: Row) {
    EvalPredicate(e, row) == Ok(true)
  }

  ghost predicate AllSat(preds: seq<Expr>, row: Row) {
    forall e :: e in preds ==> Sat(e, row)
  }

  /** A predicate that looks at a row's own NULL bits, or at the row as a join emits it. */
  datatype Look = Look(e: Expr, raw: bool)

  predicate Holds(k: Look, row: Row) {
    Sat(k.e, if k.raw then row else AllValid(row))
  }

  ghost predicate AllHold(ks: seq<Look>, row: Row) {
    forall k :: k in ks ==> Holds(k, row)
  }

  function Looks(preds: seq<Expr>, raw: bool): seq<Look> {
    seq(|preds|, i requires 0 <= i < |preds| => Look(preds[i], raw))
  }

  lemma LooksHold(preds: seq<Expr>, raw: bool, row: Row)
    ensures AllHold(Looks(preds, raw), row) <==> AllSat(preds, if raw then row else AllValid(row))
  {
    var ks := Looks(preds, raw);
    forall e | e in preds ensures Look(e, raw) in ks {
      var i :| 0 <= i < |preds| && preds[i] == e;
      assert ks[i] == Look(e, raw);
    }
    if AllHold(ks, row) {
      forall e | e in preds ensures Sat(e, if raw then row else AllValid(row)) {
        assert Holds(Look(e, raw), row);
      }
    }
  }

  ghost function Select(ks: seq<Look>, rows: Rows): Rows {
    if rows == [] then [] else (if AllHold(ks, rows[0]) then [rows[0]] else []) + Select(ks, rows[1..])
  }

  /** Some rows, restricted to those for which all of `ks` hold. */
  ghost function Where(ks: seq<Look>, o: Outcome<Rows>): Outcome<Rows> {
    if o.Ok? then Ok(Select(ks, o.value)) else Failed
  }

  lemma {:induction false} SelectNone(rows: Rows)
    ensures Select([], rows) == rows
    decreases |rows|
  {
    if rows != [] {
      SelectNone(rows[1..]);
      assert rows == [rows[0]] + rows[1..];
    }
  }

  lemma {:induction false} SelectTwice(a: seq<Look>, b: seq<Look>, rows: Rows)
    ensures Select(a, Select(b, rows)) == Select(a + b, rows)
    decreases |rows|
  {
    if rows != [] {
      SelectTwice(a, b, rows[1..]);
      assert AllHold(a + b, rows[0]) <==> AllHold(a, rows[0]) && AllHold(b, rows[0]);
      if AllHold(b, rows[0]) {
        assert ([rows[0]] + Select(b, rows[1..]))[1..] == Select(b, rows[1..]);
      } else {
        assert Select(b, rows) == Select(b, rows[1..]);
      }
    }
  }

  /** Selection only depends on for which rows all predicates hold. */
  lemma {:induction false} SelectSame(a: seq<Look>, b: seq<Look>, rows: Rows)
    requires forall i :: 0 <= i < |rows| ==> (AllHold(a, rows[i]) <==> AllHold(b, rows[i]))
    ensures Select(a, rows) == Select(b, rows)
    decreases |rows|
  {
    if rows != [] { SelectSame(a, b, rows[1..]); }
  }

  lemma {:induction false} SelectAppend(ks: seq<Look>, a: Rows, b: Rows)
    ensures Select(ks, a + b) == Select(ks, a) + Select(ks, b)
    decreases |a|
  {
    hide AllHold;
    if a == [] {
      assert a + b == b;
    } else {
      SelectAppend(ks, a[1..], b);
      SelectFirst(ks, a + b);
      assert (a + b)[1..] == a[1..] + b && (a + b)[0] == a[0];
    }
  }

  lemma SelectFirst(ks: seq<Look>, rows: Rows)
    requires rows != []
    ensures Select(ks, rows) == (if AllHold(ks, rows[0]) then [rows[0]] else []) + Select(ks, rows[1..])
  {
  }

  lemma {:induction false} SelectShaped(ks: seq<Look>, rows: Rows, cols: set<int>, texts: set<int>)
    requires AllShaped(rows, cols, texts)
    ensures AllShaped(Select(ks, rows), cols, texts)
    decreases |rows|
  {
    if rows != [] {
      assert AllShaped(rows[1..], cols, texts) && Shaped(rows[0], cols, texts);
      SelectShaped(ks, rows[1..], cols, texts);
    }
  }

  /** Selecting by more predicates keeps fewer rows. */
  lemma {:induction false} SelectMore(a: seq<Look>, b: seq<Look>, rows: Rows)
    requires (forall k :: k in a ==> k in b) && Select(a, rows) == []
    ensures Select(b, rows) == []
    decreases |rows|
  {
    if rows != [] { SelectMore(a, b, rows[1..]); }
  }

  lemma {:induction false} SelectAll(ks: seq<Look>, rows: Rows)
    requires forall i :: 0 <= i < |rows| ==> AllHold(ks, rows[i])
    ensures Select(ks, rows) == rows
    decreases |rows|
  {
    if rows != [] {
      SelectAll(ks, rows[1..]);
      assert rows == [rows[0]] + rows[1..];
    }
  }

  lemma {:induction false} SelectNothing(ks: seq<Look>, rows: Rows)
    requires forall i :: 0 <= i < |rows| ==> !AllHold(ks, rows[i])
    ensures Select(ks, rows) == []
    decreases |rows|
  {
    if rows != [] { SelectNothing(ks, rows[1..]); }
  }

  lemma {:induction false} SelectKeeps(ks: seq<Look>, rows: Rows, x: Row)
    requires x in rows && AllHold(ks, x)
    ensures Select(ks, rows) != []
    decreases |rows|
  {
    if rows[0] != x { SelectKeeps(ks, rows[1..], x); }
  }

  lemma {:induction false} SelectFewer(ks: seq<Look>, rows: Rows)
    ensures |Select(ks, rows)| <= |rows|
    decreases |rows|
  {
    if rows != [] { SelectFewer(ks, rows[1..]); }
  }

  lemma {:induction false} SelectLoses(ks: seq<Look>, rows: Rows, x: Row)
    requires x in rows && !AllHold(ks, x)
    ensures |Select(ks, rows)| < |rows|
    decreases |rows|
  {
    if rows[0] == x { SelectFewer(ks, rows[1..]); } else { SelectLoses(ks, rows[1..], x); }
  }

  /** A predicate that cannot fail filters by satisfaction. */
  lemma {:induction false} KeepSelects(e: Expr, rows: Rows, cols: set<int>, texts: set<int>)
    requires NumericOk(e, cols, texts) && AllShaped(rows, cols, texts)
    ensures Keep(e, rows) == Ok(Select(Looks([e], true), rows))
    decreases |rows|
  {
    if rows != [] {
      assert AllShaped(rows[1..], cols, texts) && Shaped(rows[0], cols, texts);
      KeepSelects(e, rows[1..], cols, texts);
      EvalTotal(e, rows[0], cols, texts);
      LooksHold([e], true, rows[0]);
      assert AllSat([e], rows[0]) <==> Sat(e, rows[0]);
    }
  }

  // ---- columns ----

  lemma {:induction false} NumericColumns(e: Expr, cols: set<int>, texts: set<int>)
    requires NumericOk(e, cols, texts) || TextOk(e, cols, texts)
    ensures Columns(e) <= cols
  {
    match e
    case Binary(op, l, r) =>
      NumericColumns(l, cols, texts);
      NumericColumns(r, cols, texts);
    case _ =>
  }

  lemma {:induction false} NumericMoves(e: Expr, cols: set<int>, to: set<int>, texts: set<int>)
    requires Columns(e) <= to
    ensures NumericOk(e, cols, texts) ==> NumericOk(e, to, texts)
    ensures TextOk(e, cols, texts) ==> TextOk(e, to, texts)
  {
    match e
    case Binary(op, l, r) =>
      NumericMoves(l, cols, to, texts);
      NumericMoves(r, cols, to, texts);
    case _ =>
  }

  lemma MissingColumn(e: Expr, cols: set<int>) returns (c: int)
    requires !(Columns(e) <= cols)
    ensures c in Columns(e) && c !in cols
  {
    if forall c :: c in Columns(e) ==> c in cols { assert false; }
    c :| c in Columns(e) && c !in cols;
  }

  /** No row satisfies a predicate that reads a column the rows lack. */
  lemma {:induction false} SelectMissing(k: Look, ks: seq<Look>, rows: Rows, cols: set<int>, texts: set<int>)
    requires AllShaped(rows, cols, texts) && k in ks && !(Columns(k.e) <= cols)
    ensures Select(ks, rows) == []
    decreases |rows|
  {
    if rows != [] {
      assert AllShaped(rows[1..], cols, texts) && Shaped(rows[0], cols, texts);
      SelectMissing(k, ks, rows[1..], cols, texts);
      var c := MissingColumn(k.e, cols);
      EvalMissing(k.e, rows[0], c);
      EvalMissing(k.e, AllValid(rows[0]), c);
      assert !Holds(k, rows[0]);
    }
  }

  lemma HasShaped(rows: Rows, cols: set<int>, keys: seq<int>, texts: set<int>)
    requires AllShaped(rows, cols, texts) && forall c :: c in keys ==> c in cols
    ensures HasColumns(rows, keys)
  {
    forall i, j | 0 <= i < |rows| && 0 <= j < |keys| ensures keys[j] in rows[i] {
      var c := keys[j];
      assert Shaped(rows[i], cols, texts) && c in keys;
    }
  }

  // ---- rows as a join emits them ----

  /** Selecting emitted rows is emitting the rows that satisfy the predicates when all cells are valid. */
  lemma {:induction false} SelectEmitted(preds: seq<Expr>, rows: Rows)
    ensures Select(Looks(preds, true), Emitted(rows)) == Emitted(Select(Looks(preds, false), rows))
    decreases |rows|
  {
    if rows != [] {
      SelectEmitted(preds, rows[1..]);
      LooksHold(preds, true, AllValid(rows[0]));
      LooksHold(preds, false, rows[0]);
      hide AllHold;
      SelectFirst(Looks(preds, true), Emitted(rows));
      assert Emitted(rows)[1..] == Emitted(rows[1..]);
      var here := if AllHold(Looks(preds, false), rows[0]) then [rows[0]] else [];
      EmittedFirst(here, Select(Looks(preds, false), rows[1..]));
    }
  }

  lemma EmittedFirst(a: Rows, b: Rows)
    requires |a| <= 1
    ensures Emitted(a + b) == Emitted(a) + Emitted(b)
  {
    if a == [] { assert a + b == b; } else { assert (a + b)[1..] == b && a[1..] == []; }
  }

  lemma {:induction false} EmittedLength(rows: Rows)
    ensures |Emitted(rows)| == |rows|
    decreases |rows|
  {
    if rows != [] { EmittedLength(rows[1..]); }
  }

  lemma {:induction false} EmittedProject(rows: Rows, cols: seq<int>)
    ensures Emitted(ProjectRows(rows, cols)) == ProjectRows(Emitted(rows), cols)
    decreases |rows|
  {
    if rows != [] {
      EmittedProject(rows[1..], cols);
      assert AllValid(ProjectRow(rows[0], cols)) == ProjectRow(AllValid(rows[0]), cols);
      assert ProjectRows(rows, cols)[1..] == ProjectRows(rows[1..], cols);
      assert Emitted(rows)[1..] == Emitted(rows[1..]);
    }
  }

  lemma {:induction false} EmittedAppend(a: Rows, b: Rows)
    ensures Emitted(a + b) == Emitted(a) + Emitted(b)
    decreases |a|
  {
    if a == [] {
      assert a + b == b;
    } else {
      EmittedAppend(a[1..], b);
      assert (a + b)[1..] == a[1..] + b && (a + b)[0] == a[0];
    }
  }

  /** Emitting the left rows before they are joined makes no difference. */
  lemma {:induction false} EmittedLeftOne(ls: Rows, r: Row, lk: seq<int>, rk: seq<int>)
    ensures Emitted(JoinOne(Emitted(ls), r, lk, rk)) == Emitted(JoinOne(ls, r, lk, rk))
    decreases |ls|
  {
    if ls != [] {
      var l := ls[0];
      EmittedLeftOne(ls[1..], r, lk, rk);
      assert Emitted(ls)[1..] == Emitted(ls[1..]);
      assert KeysMatch(AllValid(l), r, lk, rk) <==> KeysMatch(l, r, lk, rk);
      assert AllValid(AllValid(l) + r) == AllValid(l + r);
      hide KeysMatch;
      EmittedFirst(if KeysMatch(l, r, lk, rk) then [l + r] else [], JoinOne(ls[1..], r, lk, rk));
      EmittedFirst(if KeysMatch(l, r, lk, rk) then [AllValid(l) + r] else [], JoinOne(Emitted(ls[1..]), r, lk, rk));
    }
  }

  lemma {:induction false} EmittedRightOne(ls: Rows, r: Row, lk: seq<int>, rk: seq<int>)
    ensures Emitted(JoinOne(ls, AllValid(r), lk, rk)) == Emitted(JoinOne(ls, r, lk, rk))
    decreases |ls|
  {
    if ls != [] {
      var l := ls[0];
      EmittedRightOne(ls[1..], r, lk, rk);
      assert KeysMatch(l, AllValid(r), lk, rk) <==> KeysMatch(l, r, lk, rk);
      assert AllValid(l + AllValid(r)) == AllValid(l + r);
      hide KeysMatch;
      EmittedFirst(if KeysMatch(l, r, lk, rk) then [l + r] else [], JoinOne(ls[1..], r, lk, rk));
      EmittedFirst(if KeysMatch(l, r, lk, rk) then [l + AllValid(r)] else [], JoinOne(ls[1..], AllValid(r), lk, rk));
    }
  }

  /** What a join emits does not depend on the NULL bits of its inputs. */
  lemma {:induction false} EmittedLeft(ls: Rows, rs: Rows, lk: seq<int>, rk: seq<int>)
    ensures Emitted(JoinRows(Emitted(ls), rs, lk, rk)) == Emitted(JoinRows(ls, rs, lk, rk))
    decreases |rs|
  {
    if rs != [] {
      EmittedLeft(ls, rs[1..], lk, rk);
      EmittedLeftOne(ls, rs[0], lk, rk);
      EmittedAppend(JoinOne(ls, rs[0], lk, rk), JoinRows(ls, rs[1..], lk, rk));
      EmittedAppend(JoinOne(Emitted(ls), rs[0], lk, rk), JoinRows(Emitted(ls), rs[1..], lk, rk));
    }
  }

  lemma {:induction false} EmittedRight(ls: Rows, rs: Rows, lk: seq<int>, rk: seq<int>)
    ensures Emitted(JoinRows(ls, Emitted(rs), lk, rk)) == Emitted(JoinRows(ls, rs, lk, rk))
    decreases |rs|
  {
    if rs != [] {
      EmittedRight(ls, rs[1..], lk, rk);
      EmittedRightOne(ls, rs[0], lk, rk);
      assert Emitted(rs)[1..] == Emitted(rs[1..]);
      EmittedAppend(JoinOne(ls, rs[0], lk, rk), JoinRows(ls, rs[1..], lk, rk));
      EmittedAppend(JoinOne(ls, AllValid(rs[0]), lk, rk), JoinRows(ls, Emitted(rs[1..]), lk, rk));
    }
  }

  // ---- through a projection ----

  /** Selecting before or after a projection is the same: the predicates only read projected columns. */
  lemma {:induction false} SelectProject(ks: seq<Look>, rows: Rows, cols: seq<int>)
    requires forall k :: k in ks ==> Columns(k.e) <= set c | c in cols
    ensures ProjectRows(Select(ks, rows), cols) == Select(ks, ProjectRows(rows, cols))
    decreases |rows|
  {
    if rows != [] {
      SelectProject(ks, rows[1..], cols);
      var row, small := rows[0], ProjectRow(rows[0], cols);
      forall k | k in ks ensures Holds(k, small) <==> Holds(k, row) {
        EvalAgree(k.e, small, row);
        EvalAgree(k.e, AllValid(small), AllValid(row));
      }
      assert AllHold(ks, small) <==> AllHold(ks, row);
      assert ([small] + ProjectRows(rows[1..], cols))[1..] == ProjectRows(rows[1..], cols);
      if AllHold(ks, row) {
        assert ([row] + Select(ks, rows[1..]))[1..] == Select(ks, rows[1..]);
      } else {
        assert Select(ks, rows) == Select(ks, rows[1..]);
      }
    }
  }

  // ---- into a join ----

  /** A predicate on one side's columns does not look at the other side of a joined row. */
  lemma SideHolds(k: Look, l: Row, r: Row, lc: set<int>, rc: set<int>)
    requires l.Keys == lc && r.Keys == rc && lc !! rc
    ensures Columns(k.e) <= lc ==> (Holds(k, l + r) <==> Holds(k, l))
    ensures Columns(k.e) <= rc ==> (Holds(k, l + r) <==> Holds(k, r))
  {
    if Columns(k.e) <= lc {
      EvalAgree(k.e, l + r, l);
      EvalAgree(k.e, AllValid(l + r), AllValid(l));
    }
    if Columns(k.e) <= rc {
      EvalAgree(k.e, l + r, r);
      EvalAgree(k.e, AllValid(l + r), AllValid(r));
    }
  }

  lemma PairHolds(lp: seq<Look>, rp: seq<Look>, l: Row, r: Row, lc: set<int>, rc: set<int>)
    requires l.Keys == lc && r.Keys == rc && lc !! rc
    requires forall k :: k in lp ==> Columns(k.e) <= lc
    requires forall k :: k in rp ==> Columns(k.e) <= rc
    ensures AllHold(lp + rp, l + r) <==> AllHold(lp, l) && AllHold(rp, r)
  {
    forall k | k in lp ensures Holds(k, l + r) <==> Holds(k, l) { SideHolds(k, l, r, lc, rc); }
    forall k | k in rp ensures Holds(k, l + r) <==> Holds(k, r) { SideHolds(k, l, r, lc, rc); }
    assert forall k :: k in lp + rp <==> k in lp || k in rp;
  }

  lemma {:induction false} SelectJoinOne(lp: seq<Look>, rp: seq<Look>, ls: Rows, r: Row, lk: seq<int>, rk: seq<int>,
                                         lc: set<int>, rc: set<int>, texts: set<int>)
    requires AllShaped(ls, lc, texts) && Shaped(r, rc, texts) && lc !! rc
    requires forall k :: k in lp ==> Columns(k.e) <= lc
    requires forall k :: k in rp ==> Columns(k.e) <= rc
    ensures Select(lp + rp, JoinOne(ls, r, lk, rk)) == if AllHold(rp, r) then JoinOne(Select(lp, ls), r, lk, rk) else []
    decreases |ls|
  {
    hide AllHold, KeysMatch;
    if ls != [] {
      assert AllShaped(ls[1..], lc, texts) && Shaped(ls[0], lc, texts);
      SelectJoinOne(lp, rp, ls[1..], r, lk, rk, lc, rc, texts);
      PairHolds(lp, rp, ls[0], r, lc, rc);
      var here := if KeysMatch(ls[0], r, lk, rk) then [ls[0] + r] else [];
      var kept := if AllHold(lp, ls[0]) then [ls[0]] else [];
      SelectAppend(lp + rp, here, JoinOne(ls[1..], r, lk, rk));
      JoinOneAppend(kept, Select(lp, ls[1..]), r, lk, rk);
    }
  }

  /** Selecting below both sides of a join is selecting its pairs. */
  lemma {:induction false} SelectJoin(lp: seq<Look>, rp: seq<Look>, ls: Rows, rs: Rows, lk: seq<int>, rk: seq<int>,
                                      lc: set<int>, rc: set<int>, texts: set<int>)
    requires AllShaped(ls, lc, texts) && AllShaped(rs, rc, texts) && lc !! rc
    requires forall k :: k in lp ==> Columns(k.e) <= lc
    requires forall k :: k in rp ==> Columns(k.e) <= rc
    ensures JoinRows(Select(lp, ls), Select(rp, rs), lk, rk) == Select(lp + rp, JoinRows(ls, rs, lk, rk))
    decreases |rs|
  {
    hide AllHold, KeysMatch;
    if rs != [] {
      assert AllShaped(rs[1..], rc, texts) && Shaped(rs[0], rc, texts);
      SelectJoin(lp, rp, ls, rs[1..], lk, rk, lc, rc, texts);
      SelectJoinOne(lp, rp, ls, rs[0], lk, rk, lc, rc, texts);
      SelectAppend(lp + rp, JoinOne(ls, rs[0], lk, rk), JoinRows(ls, rs[1..], lk, rk));
      if AllHold(rp, rs[0]) {
        assert ([rs[0]] + Select(rp, rs[1..]))[1..] == Select(rp, rs[1..]);
      } else {
        assert Select(rp, rs) == Select(rp, rs[1..]);
      }
    }
  }

  /** The pairs of a join, one by one. */
  lemma {:induction false} JoinOneHas(ls: Rows, r: Row, lk: seq<int>, rk: seq<int>, x: Row)
    ensures x in JoinOne(ls, r, lk, rk) <==> exists i :: 0 <= i < |ls| && KeysMatch(ls[i], r, lk, rk) && x == ls[i] + r
    decreases |ls|
  {
    hide KeysMatch;
    if ls != [] {
      JoinOneHas(ls[1..], r, lk, rk, x);
      if i :| 0 <= i < |ls| && KeysMatch(ls[i], r, lk, rk) && x == ls[i] + r {
        if i > 0 { assert ls[1..][i - 1] == ls[i]; }
      }
      if x in JoinOne(ls[1..], r, lk, rk) {
        var i :| 0 <= i < |ls[1..]| && KeysMatch(ls[1..][i], r, lk, rk) && x == ls[1..][i] + r;
        assert ls[i + 1] == ls[1..][i];
      }
    }
  }

  ghost predicate Paired(ls: Rows, rs: Rows, lk: seq<int>, rk: seq<int>, i: int, j: int) {
    0 <= i < |ls| && 0 <= j < |rs| && KeysMatch(ls[i], rs[j], lk, rk)
  }

  lemma {:induction false} JoinRowsHas(ls: Rows, rs: Rows, lk: seq<int>, rk: seq<int>, x: Row)
    ensures x in JoinRows(ls, rs, lk, rk) <==> exists i, j :: Paired(ls, rs, lk, rk, i, j) && x == ls[i] + rs[j]
    decreases |rs|
  {
    hide KeysMatch;
    if rs != [] {
      JoinOneHas(ls, rs[0], lk, rk, x);
      JoinRowsHas(ls, rs[1..], lk, rk, x);
      if i, j :| Paired(ls, rs, lk, rk, i, j) && x == ls[i] + rs[j] {
        if j > 0 { assert Paired(ls, rs[1..], lk, rk, i, j - 1); }
      }
      if x in JoinOne(ls, rs[0], lk, rk) {
        var i :| 0 <= i < |ls| && KeysMatch(ls[i], rs[0], lk, rk) && x == ls[i] + rs[0];
        assert Paired(ls, rs, lk, rk, i, 0);
      }
      if x in JoinRows(ls, rs[1..], lk, rk) {
        var i, j :| Paired(ls, rs[1..], lk, rk, i, j) && x == ls[i] + rs[1..][j];
        assert Paired(ls, rs, lk, rk, i, j + 1);
      }
    }
  }
}
