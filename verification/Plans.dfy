/** Logical plans and the rows they denote. */
module Plans {
  import opened Expressions

  /** A logical plan. A join also lists the tables found under its `left_` and `right_` pointers. */
  datatype Plan =
    | Scan(table: int)
    | Filter(cond: Expr, child: Plan)
    | Project(cols: seq<int>, child: Plan)
    | Join(leftTables: seq<int>, rightTables: seq<int>, leftKeys: seq<int>, rightKeys: seq<int>,
           left: Plan, right: Plan)
    | Opaque(kind: int, outs: set<int>, children: seq<Plan>)

  /** The tables, their column ids, the ids of text columns, and what opaque operators do to rows. */
  datatype Env = Env(
    db: map<int, seq<Row>>,
    schema: map<int, set<int>>,
    texts: set<int>,
    ops: (int, set<int>, seq<seq<Row>>) -> Outcome<seq<Row>>)

  type Rows = seq<Row>

  // ---- operators on rows ----

  /** The filter operator: a predicate that fails on a row fails the query. */
  function Keep(p: Expr, rows: Rows): Outcome<Rows> {
    if rows == [] then Ok([]) else
      var here, rest := EvalPredicate(p, rows[0]), Keep(p, rows[1..]);
      if here.Failed? || rest.Failed? then Failed
      else Ok((if here.value then [rows[0]] else []) + rest.value)
  }

  predicate HasColumns(rows: Rows, cols: seq<int>) {
    forall i, j :: 0 <= i < |rows| && 0 <= j < |cols| ==> cols[j] in rows[i]
  }

  function ProjectRow(row: Row, cols: seq<int>): Row {
    map c | c in row && c in cols :: if c in row then row[c] else NumCell(NaN, false)
  }

  function ProjectRows(rows: Rows, cols: seq<int>): Rows {
    if rows == [] then [] else [ProjectRow(rows[0], cols)] + ProjectRows(rows[1..], cols)
  }

  /** Joins read the stored value of a cell, NULL or not. */
  predicate SameValue(a: Cell, b: Cell) {
    a.(valid := true) == b.(valid := true)
  }

  predicate KeysMatch(l: Row, r: Row, lk: seq<int>, rk: seq<int>) {
    forall i :: 0 <= i < |lk| && i < |rk| && lk[i] in l && rk[i] in r ==> SameValue(l[lk[i]], r[rk[i]])
  }

  /** A row as a join writes it into its output chunk, whose cells are valid from the start. */
  function AllValid(row: Row): Row {
    map c | c in row :: if c in row then row[c].(valid := true) else NumCell(NaN, false)
  }

  function Emitted(rows: Rows): Rows {
    if rows == [] then [] else [AllValid(rows[0])] + Emitted(rows[1..])
  }

  /** Every row of `ls` that matches `r`, side by side with it. */
  function JoinOne(ls: Rows, r: Row, lk: seq<int>, rk: seq<int>): Rows {
    if ls == [] then []
    else (if KeysMatch(ls[0], r, lk, rk) then [ls[0] + r] else []) + JoinOne(ls[1..], r, lk, rk)
  }

  /** The pairs the planner's join finds: for every right row in order, the matching left rows in order. */
  function JoinRows(ls: Rows, rs: Rows, lk: seq<int>, rk: seq<int>): Rows {
    if rs == [] then [] else JoinOne(ls, rs[0], lk, rk) + JoinRows(ls, rs[1..], lk, rk)
  }

  function Denote(env: Env, p: Plan): Outcome<Rows> {
    match p
    case Scan(t) => if t in env.db then Ok(env.db[t]) else Failed
    case Filter(cond, child) =>
      var rows := Denote(env, child);
      if rows.Ok? then Keep(cond, rows.value) else Failed
    case Project(cols, child) =>
      var rows := Denote(env, child);
      if rows.Ok? && HasColumns(rows.value, cols) then Ok(ProjectRows(rows.value, cols)) else Failed
    case Join(_, _, lk, rk, left, right) =>
      var l, r := Denote(env, left), Denote(env, right);
      if l.Ok? && r.Ok? && HasColumns(l.value, lk) && HasColumns(r.value, rk)
      then Ok(Emitted(JoinRows(l.value, r.value, lk, rk))) else Failed
    case Opaque(kind, cols, children) =>
      var inputs := seq(|children|, i requires 0 <= i < |children| => Denote(env, children[i]));
      if forall i :: 0 <= i < |inputs| ==> inputs[i].Ok?
      then env.ops(kind, cols, seq(|inputs|, i requires 0 <= i < |inputs| && inputs[i].Ok? => inputs[i].value))
      else Failed
  }

  // ---- what the operators do to rows ----

  /** A filter keeps a row exactly if its predicate is true, row by row in their order; if the predicate fails on a
      row, so does the filter. */
  lemma {:induction false} FilterKeeps(p: Expr, a: Rows, b: Rows, row: Row)
    ensures Keep(p, []) == Ok([])
    ensures EvalPredicate(p, row).Ok? ==> Keep(p, [row]) == Ok(if EvalPredicate(p, row).value then [row] else [])
    ensures EvalPredicate(p, row).Failed? ==> Keep(p, [row]) == Failed
    ensures Keep(p, a + b) ==
      if Keep(p, a).Ok? && Keep(p, b).Ok? then Ok(Keep(p, a).value + Keep(p, b).value) else Failed
    decreases |a|
  {
    hide EvalPredicate;
    KeepOne(p, row);
    if a == [] {
      assert a + b == b;
      if Keep(p, b).Ok? { assert Keep(p, a).value + Keep(p, b).value == Keep(p, b).value; }
    } else {
      FilterKeeps(p, a[1..], b, row);
      var here, later, far := EvalPredicate(p, a[0]), Keep(p, a[1..]), Keep(p, b);
      if here.Ok? && later.Ok? && far.Ok? {
        KeptInOrder(if here.value then [a[0]] else [], later.value, far.value);
      }
      assert (a + b)[0] == a[0] && (a + b)[1..] == a[1..] + b;
    }
  }

  lemma KeptInOrder(x: Rows, y: Rows, z: Rows)
    ensures x + (y + z) == (x + y) + z
  {
  }

  lemma KeepOne(p: Expr, row: Row)
    ensures var v := EvalPredicate(p, row);
      Keep(p, [row]) == if v.Ok? then Ok(if v.value then [row] else []) else Failed
  {
    hide EvalPredicate;
    var one := [row];
    assert one[1..] == [];
    assert Keep(p, one[1..]) == Ok([]);
    var v := EvalPredicate(p, row);
    var kept: Rows := if v.Ok? && v.value then [row] else [];
    assert kept + [] == kept;
  }

  /** A projection takes each row's named cells. */
  lemma {:induction false} ProjectionTakes(rows: Rows, cols: seq<int>, i: nat)
    requires i < |rows|
    ensures |ProjectRows(rows, cols)| == |rows|
    ensures var out := ProjectRows(rows, cols)[i];
      && (forall c :: c in out <==> c in rows[i] && c in cols) && (forall c :: c in out ==> out[c] == rows[i][c])
    decreases |rows|
  {
    if i > 0 {
      ProjectionTakes(rows[1..], cols, i - 1);
    } else if |rows| > 1 {
      ProjectionTakes(rows[1..], cols, 0);
    }
  }

  /** Two rows are joined exactly if they store the same values in all key columns. The join of two lists is the
      joins of their parts, one after the other: the right rows in their order, and for each the left rows in theirs. */
  lemma JoinPairs(ls: Rows, ms: Rows, rs: Rows, qs: Rows, l: Row, r: Row, lk: seq<int>, rk: seq<int>)
    requires |lk| == |rk| && forall k :: 0 <= k < |lk| ==> lk[k] in l && rk[k] in r
    ensures JoinRows([l], [r], lk, rk) ==
      if forall k :: 0 <= k < |lk| ==> SameStored(l[lk[k]], r[rk[k]]) then [l + r] else []
    ensures JoinRows(ls, [], lk, rk) == JoinRows([], rs, lk, rk) == []
    ensures JoinRows(ls, rs + qs, lk, rk) == JoinRows(ls, rs, lk, rk) + JoinRows(ls, qs, lk, rk)
    ensures JoinRows(ls + ms, [r], lk, rk) == JoinRows(ls, [r], lk, rk) + JoinRows(ms, [r], lk, rk)
  {
    hide KeysMatch;
    JoinSingle(l, r, lk, rk);
    JoinNoLeft(rs, lk, rk);
    JoinRights(ls, rs, qs, lk, rk);
    JoinOneAppend(ls, ms, r, lk, rk);
    JoinRight(ls, r, lk, rk);
    JoinRight(ms, r, lk, rk);
    JoinRight(ls + ms, r, lk, rk);
  }

  predicate SameStored(a: Cell, b: Cell) {
    if a.NumCell? then b.NumCell? && a.num == b.num else b.TextCell? && a.text == b.text
  }

  lemma JoinSingle(l: Row, r: Row, lk: seq<int>, rk: seq<int>)
    requires |lk| == |rk| && forall k :: 0 <= k < |lk| ==> lk[k] in l && rk[k] in r
    ensures JoinRows([l], [r], lk, rk) ==
      if forall k :: 0 <= k < |lk| ==> SameStored(l[lk[k]], r[rk[k]]) then [l + r] else []
  {
    JoinRight([l], r, lk, rk);
    assert [l][1..] == [] && [l][0] == l && [r][0] == r;
    assert JoinOne([], r, lk, rk) == [];
  }

  lemma JoinRight(ls: Rows, r: Row, lk: seq<int>, rk: seq<int>)
    ensures JoinRows(ls, [r], lk, rk) == JoinOne(ls, r, lk, rk)
  {
    hide KeysMatch;
    assert [r][1..] == [];
    assert JoinRows(ls, [], lk, rk) == [];
  }

  lemma {:induction false} JoinRights(ls: Rows, rs: Rows, qs: Rows, lk: seq<int>, rk: seq<int>)
    ensures JoinRows(ls, rs + qs, lk, rk) == JoinRows(ls, rs, lk, rk) + JoinRows(ls, qs, lk, rk)
    decreases |rs|
  {
    hide JoinOne;
    if rs == [] {
      assert rs + qs == qs;
    } else {
      JoinRights(ls, rs[1..], qs, lk, rk);
      assert (rs + qs)[0] == rs[0] && (rs + qs)[1..] == rs[1..] + qs;
    }
  }

  lemma {:induction false} JoinNoLeft(rs: Rows, lk: seq<int>, rk: seq<int>)
    ensures JoinRows([], rs, lk, rk) == []
    decreases |rs|
  {
    if rs != [] { JoinNoLeft(rs[1..], lk, rk); }
  }

  lemma JoinOneFirst(ls: Rows, r: Row, lk: seq<int>, rk: seq<int>)
    requires ls != []
    ensures JoinOne(ls, r, lk, rk) ==
      (if KeysMatch(ls[0], r, lk, rk) then [ls[0] + r] else []) + JoinOne(ls[1..], r, lk, rk)
  {
  }

  lemma {:induction false} JoinOneAppend(a: Rows, b: Rows, r: Row, lk: seq<int>, rk: seq<int>)
    ensures JoinOne(a + b, r, lk, rk) == JoinOne(a, r, lk, rk) + JoinOne(b, r, lk, rk)
    decreases |a|
  {
    hide KeysMatch;
    if a == [] {
      assert a + b == b;
    } else {
      JoinOneAppend(a[1..], b, r, lk, rk);
      JoinOneFirst(a + b, r, lk, rk);
      assert (a + b)[1..] == a[1..] + b && (a + b)[0] == a[0];
    }
  }

  /** Every output cell of a join is valid and has the value it was given. */
  lemma {:induction false} JoinEmits(rows: Rows, i: nat)
    requires i < |rows|
    ensures |Emitted(rows)| == |rows| && Emitted(rows)[i].Keys == rows[i].Keys
    ensures forall c :: c in rows[i] ==> Emitted(rows)[i][c].valid && SameStored(Emitted(rows)[i][c], rows[i][c])
    decreases |rows|
  {
    if i > 0 {
      JoinEmits(rows[1..], i - 1);
    } else if |rows| > 1 {
      JoinEmits(rows[1..], 0);
    }
  }

  // ---- columns, tables, well-formedness ----

  function OutColumns(env: Env, p: Plan): set<int> {
    match p
    case Scan(t) => if t in env.schema then env.schema[t] else {}
    case Filter(_, child) => OutColumns(env, child)
    case Project(cols, _) => set c | c in cols
    case Join(_, _, _, _, left, right) => OutColumns(env, left) + OutColumns(env, right)
    case Opaque(_, cols, _) => cols
  }

  /** The scans of a subtree, as the optimizer collects them. */
  function ScanTables(p: Plan): set<int> {
    match p
    case Scan(t) => {t}
    case Filter(_, child) => ScanTables(child)
    case Project(_, child) => ScanTables(child)
    case Join(_, _, _, _, left, right) => ScanTables(left) + ScanTables(right)
    case Opaque(_, _, children) => set i, t | 0 <= i < |children| && t in ScanTables(children[i]) :: t
  }

  predicate Shaped(row: Row, cols: set<int>, texts: set<int>) {
    row.Keys == cols && forall c :: c in cols ==> (row[c].TextCell? <==> c in texts)
  }

  predicate AllShaped(rows: Rows, cols: set<int>, texts: set<int>) {
    forall i :: 0 <= i < |rows| ==> Shaped(rows[i], cols, texts)
  }

  /** Tables hold rows of their schema, no column id is used twice, opaque operators return declared columns. */
  ghost predicate EnvOk(env: Env) {
    && env.db.Keys == env.schema.Keys
    && (forall t :: t in env.db ==> AllShaped(env.db[t], env.schema[t], env.texts))
    && (forall t, u, c :: t in env.schema && u in env.schema && c in env.schema[t] && c in env.schema[u] ==> t == u)
    && (forall k, cs, ins :: env.ops(k, cs, ins).Ok? ==> AllShaped(env.ops(k, cs, ins).value, cs, env.texts))
  }

  /** An expression that evaluates to text, or to a number, without failing. */
  predicate TextOk(e: Expr, cols: set<int>, texts: set<int>) {
    match e
    case Column(_, c) => c in cols && c in texts
    case Constant(v) => v.StringV?
    case _ => false
  }

  predicate NumericOk(e: Expr, cols: set<int>, texts: set<int>) {
    match e
    case Constant(v) => ConstToDouble(v).Ok?
    case Column(_, c) => c in cols && c !in texts
    case Binary(op, l, r) =>
      if TextMatching(op) then TextOk(l, cols, texts) && TextOk(r, cols, texts)
      else
        && op != IN
        && (|| (NumericOk(l, cols, texts) && NumericOk(r, cols, texts))
            || (Comparison(op) && TextOk(l, cols, texts) && TextOk(r, cols, texts)))
    case Unary(_, x) => x.Column? && x.col in cols
  }

  lemma {:induction false} EvalTotal(e: Expr, row: Row, cols: set<int>, texts: set<int>)
    requires NumericOk(e, cols, texts) && Shaped(row, cols, texts)
    ensures Eval(e, row).Ok?
    ensures !IsStringOperand(e, row)
  {
    match e
    case Binary(op, l, r) =>
      if TextOk(l, cols, texts) && TextOk(r, cols, texts) {
      } else {
        EvalTotal(l, row, cols, texts);
        EvalTotal(r, row, cols, texts);
      }
    case _ =>
  }

  /** Every column reference names the table that owns the column. */
  predicate Tabled(env: Env, e: Expr) {
    match e
    case Column(t, c) => t in env.schema && c in env.schema[t]
    case Binary(_, l, r) => Tabled(env, l) && Tabled(env, r)
    case Unary(_, x) => Tabled(env, x)
    case Constant(_) => true
  }

  predicate PredicateOk(env: Env, e: Expr, p: Plan) {
    NumericOk(e, OutColumns(env, p), env.texts) && Tabled(env, e)
  }

  predicate WellFormed(env: Env, p: Plan) {
    match p
    case Scan(t) => t in env.schema
    case Filter(cond, child) => WellFormed(env, child) && PredicateOk(env, cond, child)
    case Project(cols, child) => WellFormed(env, child) && forall c :: c in cols ==> c in OutColumns(env, child)
    case Join(lt, rt, lk, rk, left, right) =>
      && WellFormed(env, left) && WellFormed(env, right)
      && ScanTables(left) !! ScanTables(right)
      && (forall t :: t in lt ==> t in ScanTables(left)) && (forall t :: t in rt ==> t in ScanTables(right))
      && (forall c :: c in lk ==> c in OutColumns(env, left)) && (forall c :: c in rk ==> c in OutColumns(env, right))
      && (OutColumns(env, left) + OutColumns(env, right)) !! env.texts
    case Opaque(_, cols, children) =>
      && (forall i :: 0 <= i < |children| ==> WellFormed(env, children[i]))
      && (forall c :: c in cols ==> exists i :: 0 <= i < |children| && c in OutColumns(env, children[i]))
  }

  /** A plan's columns belong to the tables it scans. */
  lemma {:induction false} ColumnsOwned(env: Env, p: Plan, c: int)
    requires EnvOk(env) && WellFormed(env, p) && c in OutColumns(env, p)
    ensures exists t :: t in ScanTables(p) && t in env.schema && c in env.schema[t]
  {
    match p
    case Scan(t) => assert t in ScanTables(p);
    case Filter(_, child) => ColumnsOwned(env, child, c);
    case Project(_, child) => ColumnsOwned(env, child, c);
    case Join(_, _, _, _, left, right) =>
      if c in OutColumns(env, left) { ColumnsOwned(env, left, c); } else { ColumnsOwned(env, right, c); }
    case Opaque(_, _, children) =>
      var i :| 0 <= i < |children| && c in OutColumns(env, children[i]);
      ColumnsOwned(env, children[i], c);
  }

  lemma {:induction false} KeepShaped(p: Expr, rows: Rows, cols: set<int>, texts: set<int>)
    requires AllShaped(rows, cols, texts)
    ensures Keep(p, rows).Ok? ==> AllShaped(Keep(p, rows).value, cols, texts)
    decreases |rows|
  {
    if rows != [] {
      assert AllShaped(rows[1..], cols, texts);
      KeepShaped(p, rows[1..], cols, texts);
      assert Shaped(rows[0], cols, texts);
    }
  }

  lemma {:induction false} ProjectShaped(rows: Rows, from: set<int>, cols: seq<int>, texts: set<int>)
    requires AllShaped(rows, from, texts) && forall c :: c in cols ==> c in from
    ensures HasColumns(rows, cols) && AllShaped(ProjectRows(rows, cols), (set c | c in cols), texts)
    decreases |rows|
  {
    forall i, j | 0 <= i < |rows| && 0 <= j < |cols| ensures cols[j] in rows[i] {
      var c := cols[j];
      assert Shaped(rows[i], from, texts) && c in cols;
    }
    if rows != [] {
      assert AllShaped(rows[1..], from, texts);
      ProjectShaped(rows[1..], from, cols, texts);
      assert Shaped(rows[0], from, texts);
      var to := set c | c in cols;
      assert ProjectRow(rows[0], cols).Keys == to;
      assert Shaped(ProjectRow(rows[0], cols), to, texts);
    }
  }

  lemma {:induction false} JoinShaped(ls: Rows, rs: Rows, lk: seq<int>, rk: seq<int>, lc: set<int>, rc: set<int>,
                                      texts: set<int>)
    requires AllShaped(ls, lc, texts) && AllShaped(rs, rc, texts)
    ensures AllShaped(JoinRows(ls, rs, lk, rk), lc + rc, texts)
    decreases |rs|
  {
    if rs != [] {
      assert AllShaped(rs[1..], rc, texts) && Shaped(rs[0], rc, texts);
      JoinShaped(ls, rs[1..], lk, rk, lc, rc, texts);
      JoinOneShaped(ls, rs[0], lk, rk, lc, rc, texts);
    }
  }

  lemma {:induction false} EmittedShaped(rows: Rows, cols: set<int>, texts: set<int>)
    requires AllShaped(rows, cols, texts)
    ensures AllShaped(Emitted(rows), cols, texts)
    decreases |rows|
  {
    if rows != [] {
      assert AllShaped(rows[1..], cols, texts) && Shaped(rows[0], cols, texts);
      EmittedShaped(rows[1..], cols, texts);
      assert Shaped(AllValid(rows[0]), cols, texts);
    }
  }

  lemma {:induction false} JoinOneShaped(ls: Rows, r: Row, lk: seq<int>, rk: seq<int>, lc: set<int>, rc: set<int>,
                                         texts: set<int>)
    requires AllShaped(ls, lc, texts) && Shaped(r, rc, texts)
    ensures AllShaped(JoinOne(ls, r, lk, rk), lc + rc, texts)
    decreases |ls|
  {
    if ls != [] {
      assert AllShaped(ls[1..], lc, texts) && Shaped(ls[0], lc, texts);
      JoinOneShaped(ls[1..], r, lk, rk, lc, rc, texts);
      assert Shaped(ls[0] + r, lc + rc, texts);
    }
  }

  lemma {:induction false} DenoteShaped(env: Env, p: Plan)
    requires EnvOk(env) && WellFormed(env, p)
    ensures Denote(env, p).Ok? ==> AllShaped(Denote(env, p).value, OutColumns(env, p), env.texts)
  {
    if Denote(env, p).Ok? {
      match p
      case Scan(t) =>
      case Filter(cond, child) =>
        DenoteShaped(env, child);
        KeepShaped(cond, Denote(env, child).value, OutColumns(env, child), env.texts);
      case Project(cols, child) =>
        DenoteShaped(env, child);
        ProjectShaped(Denote(env, child).value, OutColumns(env, child), cols, env.texts);
      case Join(_, _, lk, rk, left, right) =>
        DenoteShaped(env, left);
        DenoteShaped(env, right);
        var ls, rs := Denote(env, left).value, Denote(env, right).value;
        JoinShaped(ls, rs, lk, rk, OutColumns(env, left), OutColumns(env, right), env.texts);
        EmittedShaped(JoinRows(ls, rs, lk, rk), OutColumns(env, p), env.texts);
      case Opaque(kind, cols, children) =>
    }
  }
}
