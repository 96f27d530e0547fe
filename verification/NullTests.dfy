/** Null tests above a join of two tables: what pushing them below the join changes. */
module NullTests {
  import opened Expressions
  import opened Plans
  import opened ConstantFolding
  import opened PushdownRows
  import opened PredicatePushdown

  /** A null test of column `c`, owned by table `owner`, above a join of the tables `t` and `u`. */
  datatype TestedJoin = TestedJoin(op: UnaryOp, owner: int, c: int, t: int, u: int,
                                   lt: seq<int>, rt: seq<int>, lk: seq<int>, rk: seq<int>)
  {
    function Test(): Expr { Unary(op, Column(owner, c)) }

    function Joining(left: Plan): Plan { Join(lt, rt, lk, rk, left, Scan(u)) }

    function Query(): Plan { Filter(Test(), Joining(Scan(t))) }
  }

  /** Whatever table the column belongs to, the test is sent to the left table. */
  lemma NullTestMoves(q: TestedJoin)
    ensures Optimize(q.Query()) == q.Joining(Filter(q.Test(), Scan(q.t)))
  {
    hide FoldPlan, SplitAnd, Partition;
    var test, join := q.Test(), q.Joining(Scan(q.t));
    TestFolds(test, q.lt, q.rt, q.lk, q.rk, q.t, q.u);
    TestGoesLeft(test, q.lt, q.rt);
    TestStays(test, Scan(q.t), Scan(q.u));
    assert Pushdown(join, [test]) == q.Joining(Filter(test, Scan(q.t)));
  }

  lemma TestGoesLeft(test: Expr, lt: seq<int>, rt: seq<int>)
    requires test.Unary?
    ensures SplitAnd(test) == [test] && [] + [test] == [test] && Partition([test], lt, rt) == Sides([test], [], [])
  {
    assert [test][..0] == [] && OnlyRefs(test, lt);
  }

  lemma TestStays(test: Expr, left: Plan, right: Plan)
    requires left.Scan? && right.Scan?
    ensures Pushdown(left, [test]) == Filter(test, left) && Pushdown(right, []) == right
  {
  }

  /** A null test on the left table's column is well aimed: the optimized query does not fail by it. */
  lemma NullTestAimed(env: Env, q: TestedJoin)
    requires q.t in env.schema && q.c in env.schema[q.t]
    ensures Aimed(env, FoldPlan(q.Query()), [])
  {
    hide FoldPlan, SplitAnd, Partition;
    var test, join := q.Test(), q.Joining(Scan(q.t));
    TestFolds(test, q.lt, q.rt, q.lk, q.rk, q.t, q.u);
    TestGoesLeft(test, q.lt, q.rt);
    TestFits(env, q);
    assert Aimed(env, join, [test]);
  }

  lemma TestFits(env: Env, q: TestedJoin)
    requires q.t in env.schema && q.c in env.schema[q.t]
    ensures !Misses(env, Scan(q.t), [q.Test()]) && !Misses(env, Scan(q.u), [])
    ensures Aimed(env, Scan(q.t), [q.Test()]) && Aimed(env, Scan(q.u), [])
  {
    assert Columns(q.Test()) == Columns(Column(q.owner, q.c)) == {q.c};
    assert OutColumns(env, Scan(q.t)) == env.schema[q.t];
  }

  // Folding leaves a filter with a unary test alone.
  lemma TestFolds(test: Expr, lt: seq<int>, rt: seq<int>, lk: seq<int>, rk: seq<int>, t: int, u: int)
    requires test.Unary?
    ensures var query := Filter(test, Join(lt, rt, lk, rk, Scan(t), Scan(u))); FoldPlan(query) == query
  {
    assert FoldExpr(test) == test;
    assert FoldPlan(Scan(t)) == Scan(t) && FoldPlan(Scan(u)) == Scan(u);
  }

  /** A null test on the right table's column goes to the left table, and fails there: the optimized query
      raises an error exactly when the left table has a row. */
  lemma NullTestMisplaced(env: Env, q: TestedJoin)
    requires EnvOk(env) && WellFormed(env, q.Query()) && q.t in env.db && q.u in env.db && q.c in env.schema[q.u]
    ensures Denote(env, q.Query()).Ok?
    ensures Denote(env, Optimize(q.Query())).Failed? <==> env.db[q.t] != []
  {
    var ls, rs, lc, rc := env.db[q.t], env.db[q.u], env.schema[q.t], env.schema[q.u];
    NullTestMoves(q);
    TestedPairs(env, q);
    JoinColumnsDisjoint(env, Scan(q.t), Scan(q.u));
    EmittedShaped(JoinRows(ls, rs, q.lk, q.rk), lc + rc, env.texts);
    KeepSelects(q.Test(), Emitted(JoinRows(ls, rs, q.lk, q.rk)), lc + rc, env.texts);
    assert Denote(env, Filter(q.Test(), Scan(q.t))) == Keep(q.Test(), ls);
    if ls != [] {
      assert Shaped(ls[0], lc, env.texts) && q.c !in lc;
      assert Eval(q.Test(), ls[0]).Failed?;
      assert Keep(q.Test(), ls).Failed?;
    } else {
      HasShaped(rs, rc, q.rk, env.texts);
      assert Keep(q.Test(), ls) == Ok([]);
    }
  }

  // The join of the two tables.
  lemma TestedPairs(env: Env, q: TestedJoin)
    requires EnvOk(env) && WellFormed(env, q.Query()) && q.t in env.db && q.u in env.db
    ensures var pairs := JoinRows(env.db[q.t], env.db[q.u], q.lk, q.rk);
      && AllShaped(pairs, env.schema[q.t] + env.schema[q.u], env.texts)
      && Denote(env, q.Joining(Scan(q.t))) == Ok(Emitted(pairs))
  {
    var ls, rs, lc, rc := env.db[q.t], env.db[q.u], env.schema[q.t], env.schema[q.u];
    HasShaped(ls, lc, q.lk, env.texts);
    HasShaped(rs, rc, q.rk, env.texts);
    JoinShaped(ls, rs, q.lk, q.rk, lc, rc, env.texts);
  }

  /** What the query and the optimized query return, by the pairs of the join. */
  lemma NullTestRows(env: Env, q: TestedJoin)
    requires EnvOk(env) && WellFormed(env, q.Query()) && q.t in env.db && q.u in env.db && q.c in env.schema[q.t]
    ensures var pairs := JoinRows(env.db[q.t], env.db[q.u], q.lk, q.rk);
      && Denote(env, q.Query()) == Ok(Emitted(Select(Looks([q.Test()], false), pairs)))
      && Denote(env, Optimize(q.Query())) == Ok(Emitted(Select(Looks([q.Test()], true), pairs)))
  {
    var test, raw := q.Test(), Looks([q.Test()], true);
    var ls, rs, lc, rc := env.db[q.t], env.db[q.u], env.schema[q.t], env.schema[q.u];
    var pairs := JoinRows(ls, rs, q.lk, q.rk);
    NullTestMoves(q);
    TestedPairs(env, q);
    JoinColumnsDisjoint(env, Scan(q.t), Scan(q.u));
    EmittedShaped(pairs, lc + rc, env.texts);
    KeepSelects(test, Emitted(pairs), lc + rc, env.texts);
    SelectEmitted([test], pairs);
    KeepSelects(test, ls, lc, env.texts);
    SelectShaped(raw, ls, lc, env.texts);
    HasShaped(Select(raw, ls), lc, q.lk, env.texts);
    HasShaped(rs, rc, q.rk, env.texts);
    assert Denote(env, Filter(test, Scan(q.t))) == Ok(Select(raw, ls));
    SelectNone(rs);
    SelectJoin(raw, [], ls, rs, q.lk, q.rk, lc, rc, env.texts);
    assert raw + [] == raw;
  }

  lemma TestHolds(q: TestedJoin, raw: bool, row: Row)
    requires q.c in row
    ensures AllHold(Looks([q.Test()], raw), row) <==> (if raw then row[q.c].valid else true) == (q.op == NON_NULL)
  {
    LooksHold([q.Test()], raw, row);
    var seen := if raw then row else AllValid(row);
    assert AllSat([q.Test()], seen) <==> Sat(q.Test(), seen);
  }

  /** Joins emit valid cells only, so pushing a null test below one changes the rows: they stay the same
      exactly if no row of the tested table with a NULL in the tested column has a join partner. */
  lemma NullTestSame(env: Env, q: TestedJoin)
    requires EnvOk(env) && WellFormed(env, q.Query()) && q.t in env.db && q.u in env.db && q.c in env.schema[q.t]
    ensures Denote(env, Optimize(q.Query())) == Denote(env, q.Query()) <==>
      forall i, j :: Paired(env.db[q.t], env.db[q.u], q.lk, q.rk, i, j) ==>
        q.c in env.db[q.t][i] && env.db[q.t][i][q.c].valid
  {
    hide Denote, WellFormed, AllHold, Select, Emitted, Optimize;
    var ls, rs := env.db[q.t], env.db[q.u];
    var pairs := JoinRows(ls, rs, q.lk, q.rk);
    var seen, raw := Looks([q.Test()], false), Looks([q.Test()], true);
    NullTestRows(env, q);
    EmittedLength(Select(seen, pairs));
    EmittedLength(Select(raw, pairs));
    if i, j :| Paired(ls, rs, q.lk, q.rk, i, j) && !(q.c in ls[i] && ls[i][q.c].valid) {
      var x := ls[i] + rs[j];
      JoinRowsHas(ls, rs, q.lk, q.rk, x);
      PairCell(env, q, i, j);
      TestHolds(q, false, x);
      TestHolds(q, true, x);
      TestedPairs(env, q);
      forall k | 0 <= k < |pairs| ensures q.c in pairs[k] {
        assert Shaped(pairs[k], env.schema[q.t] + env.schema[q.u], env.texts);
      }
      TestDecides(env, q, pairs, x);
    } else {
      forall k | 0 <= k < |pairs| ensures AllHold(seen, pairs[k]) <==> AllHold(raw, pairs[k]) {
        JoinRowsHas(ls, rs, q.lk, q.rk, pairs[k]);
        var i, j :| Paired(ls, rs, q.lk, q.rk, i, j) && pairs[k] == ls[i] + rs[j];
        PairCell(env, q, i, j);
        TestHolds(q, false, pairs[k]);
        TestHolds(q, true, pairs[k]);
      }
      SelectSame(seen, raw, pairs);
    }
  }

  // The tested cell of a pair is that of the left row.
  lemma PairCell(env: Env, q: TestedJoin, i: int, j: int)
    requires EnvOk(env) && WellFormed(env, q.Query()) && q.t in env.db && q.u in env.db && q.c in env.schema[q.t]
    requires Paired(env.db[q.t], env.db[q.u], q.lk, q.rk, i, j)
    ensures var l, r := env.db[q.t][i], env.db[q.u][j];
      q.c in l && q.c in l + r && (l + r)[q.c] == l[q.c]
  {
    JoinColumnsDisjoint(env, Scan(q.t), Scan(q.u));
    assert Shaped(env.db[q.t][i], env.schema[q.t], env.texts) && Shaped(env.db[q.u][j], env.schema[q.u], env.texts);
  }

  /** One pair with a NULL under test makes the two selections differ in length. */
  lemma TestDecides(env: Env, q: TestedJoin, pairs: Rows, x: Row)
    requires x in pairs && forall k :: 0 <= k < |pairs| ==> q.c in pairs[k]
    requires q.c in x && !x[q.c].valid
    ensures |Select(Looks([q.Test()], false), pairs)| != |Select(Looks([q.Test()], true), pairs)|
  {
    hide AllHold;
    var seen, raw := Looks([q.Test()], false), Looks([q.Test()], true);
    forall k | 0 <= k < |pairs| ensures AllHold(seen, pairs[k]) <==> q.op == NON_NULL {
      TestHolds(q, false, pairs[k]);
    }
    TestHolds(q, true, x);
    if q.op == NON_NULL {
      SelectAll(seen, pairs);
      SelectLoses(raw, pairs, x);
    } else {
      SelectNothing(seen, pairs);
      SelectKeeps(raw, pairs, x);
    }
  }

  // ---- a run of it ----

  /** Table 1 with one row, NULL in column 10, and table 2 with one row. */
  function OneNull(): Env {
    Env(map[1 := [map[10 := NumCell(ZERO, false)]], 2 := [map[20 := NumCell(ONE, true)]]],
        map[1 := {10}, 2 := {20}], {},
        (kind: int, outs: set<int>, inputs: seq<seq<Row>>) => Failed)
  }

  function CrossTest(op: UnaryOp): TestedJoin {
    TestedJoin(op, 1, 10, 1, 2, [1], [2], [], [])
  }

  /** The query and the optimized query disagree: an IS_NULL test finds nothing above the join and the row below
      it, a NON_NULL test the other way round. */
  lemma NullTestRun(op: UnaryOp)
    ensures var env, query := OneNull(), CrossTest(op).Query();
      var row := map[10 := NumCell(ZERO, true), 20 := NumCell(ONE, true)];
      && EnvOk(env) && WellFormed(env, query) && Aimed(env, FoldPlan(query), [])
      && Denote(env, query) == Ok(if op == IS_NULL then [] else [row])
      && Denote(env, Optimize(query)) == Ok(if op == IS_NULL then [row] else [])
  {
    hide Denote, Optimize, AllHold, EnvOk, WellFormed, Aimed;
    var env, q := OneNull(), CrossTest(op);
    var l, r := env.db[1][0], env.db[2][0];
    OneNullOk(op);
    NullTestAimed(env, q);
    NullTestRows(env, q);
    OnePair(l, r);
    TestHolds(q, false, l + r);
    TestHolds(q, true, l + r);
    OneSelected(Looks([q.Test()], false), l + r);
    OneSelected(Looks([q.Test()], true), l + r);
    assert AllValid(l + r) == map[10 := NumCell(ZERO, true), 20 := NumCell(ONE, true)];
  }

  lemma OneNullOk(op: UnaryOp)
    ensures EnvOk(OneNull()) && WellFormed(OneNull(), CrossTest(op).Query())
  {
    assert ScanTables(Scan(1)) == {1} && ScanTables(Scan(2)) == {2};
  }

  lemma OnePair(l: Row, r: Row)
    ensures JoinRows([l], [r], [], []) == [l + r]
  {
    assert [l][1..] == [] && [r][1..] == [];
    assert JoinOne([l], r, [], []) == [l + r];
  }

  lemma OneSelected(ks: seq<Look>, x: Row)
    ensures Emitted(Select(ks, [x])) == if AllHold(ks, x) then [AllValid(x)] else []
  {
    hide AllHold;
    assert [x][1..] == [];
    SelectFirst(ks, [x]);
  }
}
