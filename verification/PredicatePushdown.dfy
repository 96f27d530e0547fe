/** The predicate-pushdown rule and the optimizer that runs it after constant folding. */
module PredicatePushdown {
  import opened Expressions
  import opened Plans
  import opened ConstantFolding
  import opened PushdownRows

  // ---- the rule ----

  function SplitAnd(e: Expr): seq<Expr> {
    if e.Binary? && e.op == AND then SplitAnd(e.left) + SplitAnd(e.right) else [e]
  }

  /** The conjunction, nested to the left. */
  function Conjunction(preds: seq<Expr>): Expr
    requires preds != []
  {
    var n := |preds| - 1;
    if n == 0 then preds[0] else Binary(AND, Conjunction(preds[..n]), preds[n])
  }

  method CombineAnd(preds: seq<Expr>) returns (result: Expr)
    requires preds != []
    ensures result == Conjunction(preds)
  {
    result := preds[0];
    assert preds[..1][0] == preds[0];
    var i := 1;
    while i < |preds|
      invariant 1 <= i <= |preds| && result == Conjunction(preds[..i])
    {
      result := Binary(AND, result, preds[i]);
      assert preds[..i + 1][..i] == preds[..i];
      i := i + 1;
    }
    assert preds[..i] == preds;
  }

  /** The tables an expression refers to; a unary operator's operand is not looked at. */
  function TableRefs(e: Expr): set<int> {
    match e
    case Column(t, _) => {t}
    case Binary(_, l, r) => TableRefs(l) + TableRefs(r)
    case _ => {}
  }

  predicate OnlyRefs(e: Expr, allowed: seq<int>) {
    forall t :: t in TableRefs(e) ==> t in allowed
  }

  /** Collecting references the way the rule does it, and the test that uses them. */
  method CollectTableRefs(e: Expr, found: seq<int>) returns (out: seq<int>)
    ensures forall t :: t in out <==> t in found || t in TableRefs(e)
    decreases e
  {
    out := found;
    match e
    case Column(t, _) => if t !in out { out := out + [t]; }
    case Binary(_, l, r) =>
      out := CollectTableRefs(l, out);
      out := CollectTableRefs(r, out);
    case _ =>
  }

  method TestOnlyRefs(e: Expr, allowed: seq<int>) returns (only: bool)
    ensures only == OnlyRefs(e, allowed)
  {
    var refs := CollectTableRefs(e, []);
    var i := 0;
    while i < |refs|
      invariant i <= |refs| && forall j :: 0 <= j < i ==> refs[j] in allowed
    {
      var t := refs[i];
      if t !in allowed {
        assert t in refs;
        return false;
      }
      i := i + 1;
    }
    forall t | t in TableRefs(e) ensures t in allowed {
      assert t in refs;
    }
    only := true;
  }

  function WrapWithFilter(p: Plan, preds: seq<Expr>): Plan {
    if preds == [] then p else Filter(Conjunction(preds), p)
  }

  datatype Sides = Sides(left: seq<Expr>, right: seq<Expr>, remain: seq<Expr>)

  /** Predicates for the left input, the right input, and above the join. */
  function Partition(preds: seq<Expr>, lt: seq<int>, rt: seq<int>): Sides {
    if preds == [] then Sides([], [], []) else
      var n := |preds| - 1;
      var s, p := Partition(preds[..n], lt, rt), preds[n];
      if OnlyRefs(p, lt) then s.(left := s.left + [p])
      else if OnlyRefs(p, rt) then s.(right := s.right + [p])
      else s.(remain := s.remain + [p])
  }

  function Pushdown(p: Plan, preds: seq<Expr>): Plan {
    match p
    case Filter(cond, child) => Pushdown(child, preds + SplitAnd(cond))
    case Project(cols, child) => Project(cols, Pushdown(child, preds))
    case Join(lt, rt, lk, rk, left, right) =>
      var s := Partition(preds, lt, rt);
      WrapWithFilter(Join(lt, rt, lk, rk, Pushdown(left, s.left), Pushdown(right, s.right)), s.remain)
    case Scan(_) => WrapWithFilter(p, preds)
    case Opaque(kind, outs, children) =>
      var pushed := seq(|children|, i requires 0 <= i < |children| => Pushdown(children[i], []));
      WrapWithFilter(Opaque(kind, outs, pushed), preds)
  }

  function Optimize(p: Plan): Plan {
    Pushdown(FoldPlan(p), [])
  }

  // ---- conjunctions ----

  lemma AndSat(l: Expr, r: Expr, row: Row)
    ensures Sat(Binary(AND, l, r), row) <==> Sat(l, row) && Sat(r, row)
  {
  }

  lemma {:induction false} SplitSat(e: Expr, row: Row)
    ensures Sat(e, row) <==> AllSat(SplitAnd(e), row)
  {
    if e.Binary? && e.op == AND {
      AndSat(e.left, e.right, row);
      SplitSat(e.left, row);
      SplitSat(e.right, row);
    }
  }

  lemma {:induction false} ConjunctionSat(preds: seq<Expr>, row: Row)
    requires preds != []
    ensures Sat(Conjunction(preds), row) <==> AllSat(preds, row)
    decreases |preds|
  {
    hide Sat;
    var n := |preds| - 1;
    assert preds == preds[..n] + [preds[n]];
    if n > 0 {
      ConjunctionSat(preds[..n], row);
      AndSat(Conjunction(preds[..n]), preds[n], row);
    }
  }

  lemma {:induction false} ConjunctionNumeric(preds: seq<Expr>, cols: set<int>, texts: set<int>)
    requires preds != [] && forall e :: e in preds ==> NumericOk(e, cols, texts)
    ensures NumericOk(Conjunction(preds), cols, texts)
    decreases |preds|
  {
    if |preds| > 1 { ConjunctionNumeric(preds[..|preds| - 1], cols, texts); }
  }

  lemma ConjunctionSelects(preds: seq<Expr>, rows: Rows)
    requires preds != []
    ensures Select(Looks([Conjunction(preds)], true), rows) == Select(Looks(preds, true), rows)
  {
    var all := Conjunction(preds);
    forall i | 0 <= i < |rows|
      ensures AllHold(Looks([all], true), rows[i]) <==> AllHold(Looks(preds, true), rows[i])
    {
      ConjunctionSat(preds, rows[i]);
      LooksHold([all], true, rows[i]);
      LooksHold(preds, true, rows[i]);
      assert AllSat([all], rows[i]) <==> Sat(all, rows[i]);
    }
    SelectSame(Looks([all], true), Looks(preds, true), rows);
  }

  /** The rule's wrapping filters by all its predicates. */
  lemma WrapSelects(env: Env, p: Plan, preds: seq<Expr>, cols: set<int>)
    requires Denote(env, p).Ok? ==> AllShaped(Denote(env, p).value, cols, env.texts)
    requires forall e :: e in preds ==> NumericOk(e, cols, env.texts)
    ensures Denote(env, WrapWithFilter(p, preds)) == Where(Looks(preds, true), Denote(env, p))
  {
    if Denote(env, p).Ok? {
      var rows := Denote(env, p).value;
      if preds == [] {
        SelectNone(rows);
        assert Looks(preds, true) == [];
      } else {
        var all := Conjunction(preds);
        ConjunctionNumeric(preds, cols, env.texts);
        KeepSelects(all, rows, cols, env.texts);
        ConjunctionSelects(preds, rows);
      }
    }
  }

  // ---- predicates across operators ----

  lemma {:induction false} SplitOk(env: Env, e: Expr, cols: set<int>)
    requires NumericOk(e, cols, env.texts) && Tabled(env, e)
    ensures forall x :: x in SplitAnd(e) ==>
      NumericOk(x, cols, env.texts) && Tabled(env, x) && (NoUnary(e) ==> NoUnary(x))
  {
    if e.Binary? && e.op == AND {
      SplitOk(env, e.left, cols);
      SplitOk(env, e.right, cols);
    }
  }

  // ---- predicates that suit a plan, and predicates of other tables ----

  predicate Fits(env: Env, p: Plan, e: Expr) {
    Columns(e) <= OutColumns(env, p)
  }

  ghost predicate Misses(env: Env, p: Plan, preds: seq<Expr>) {
    exists e :: e in preds && !Fits(env, p, e)
  }

  /** The predicate reads a column of a table that the plan does not scan. */
  ghost predicate Foreign(env: Env, p: Plan, e: Expr) {
    exists c :: c in Columns(e) && forall t :: t in ScanTables(p) && t in env.schema ==> c !in env.schema[t]
  }

  /** Pushed predicates evaluate without failing on the plan's rows, or read a column that no part of the plan has. */
  ghost predicate Settled(env: Env, p: Plan, preds: seq<Expr>) {
    forall e :: e in preds ==> NumericOk(e, OutColumns(env, p), env.texts) || Foreign(env, p, e)
  }

  lemma ForeignMisses(env: Env, p: Plan, e: Expr)
    requires EnvOk(env) && WellFormed(env, p) && Foreign(env, p, e)
    ensures !Fits(env, p, e)
  {
    var c :| c in Columns(e) && forall t :: t in ScanTables(p) && t in env.schema ==> c !in env.schema[t];
    if c in OutColumns(env, p) { ColumnsOwned(env, p, c); }
  }

  /** Exactly the settled predicates that fit are well typed. */
  lemma SettledFits(env: Env, p: Plan, preds: seq<Expr>)
    requires EnvOk(env) && WellFormed(env, p) && Settled(env, p, preds)
    ensures forall e :: e in preds ==> (Fits(env, p, e) <==> NumericOk(e, OutColumns(env, p), env.texts))
    ensures forall e :: e in preds && !Fits(env, p, e) ==> Foreign(env, p, e)
  {
    forall e | e in preds ensures Fits(env, p, e) <==> NumericOk(e, OutColumns(env, p), env.texts) {
      if NumericOk(e, OutColumns(env, p), env.texts) { NumericColumns(e, OutColumns(env, p), env.texts); }
      else { ForeignMisses(env, p, e); }
    }
  }

  ghost function Fitting(env: Env, p: Plan, preds: seq<Expr>): seq<Expr> {
    if preds == [] then [] else
      var n := |preds| - 1;
      Fitting(env, p, preds[..n]) + if Fits(env, p, preds[n]) then [preds[n]] else []
  }

  lemma {:induction false} FittingHas(env: Env, p: Plan, preds: seq<Expr>)
    ensures forall e :: e in Fitting(env, p, preds) <==> e in preds && Fits(env, p, e)
    ensures !Misses(env, p, preds) ==> Fitting(env, p, preds) == preds
    decreases |preds|
  {
    hide Fits;
    if preds != [] {
      var n := |preds| - 1;
      assert preds == preds[..n] + [preds[n]];
      FittingHas(env, p, preds[..n]);
      assert Misses(env, p, preds[..n]) ==> Misses(env, p, preds);
      assert !Fits(env, p, preds[n]) ==> Misses(env, p, preds);
    }
  }

  lemma {:induction false} ConjunctionColumns(preds: seq<Expr>, e: Expr)
    requires e in preds
    ensures Columns(e) <= Columns(Conjunction(preds))
    decreases |preds|
  {
    var n := |preds| - 1;
    if e != preds[n] { ConjunctionColumns(preds[..n], e); }
  }

  // ---- where a predicate lands ----

  /** A predicate that reads a missing column stands directly above a row of `q`. */
  ghost predicate Lands(env: Env, p: Plan, preds: seq<Expr>, q: Plan) {
    Misses(env, p, preds) && Denote(env, q).Ok? && Denote(env, q).value != []
  }

  /** The filter in which pushed predicates end: it fails exactly if a row meets a predicate that reads a
      missing column. */
  lemma WrapLands(env: Env, p: Plan, preds: seq<Expr>, q: Plan)
    requires EnvOk(env) && WellFormed(env, p) && Settled(env, p, preds)
    requires Denote(env, q).Ok? ==> AllShaped(Denote(env, q).value, OutColumns(env, p), env.texts)
    ensures Denote(env, WrapWithFilter(q, preds)) ==
      if Lands(env, p, preds, q) then Failed else Where(Looks(preds, true), Denote(env, q))
  {
    hide NumericOk, Foreign;
    var cols := OutColumns(env, p);
    SettledFits(env, p, preds);
    if !Misses(env, p, preds) {
      WrapSelects(env, q, preds, cols);
    } else if Denote(env, q).Ok? {
      var rows := Denote(env, q).value;
      var e :| e in preds && !Fits(env, p, e);
      if rows != [] {
        ConjunctionColumns(preds, e);
        var c := MissingColumn(e, cols);
        assert Shaped(rows[0], cols, env.texts);
        EvalMissing(Conjunction(preds), rows[0], c);
      }
    }
  }

  /** Some misdirected predicate meets a row while the optimized plan runs. */
  ghost predicate Hits(env: Env, p: Plan, preds: seq<Expr>)
    decreases p
  {
    match p
    case Filter(cond, child) => Hits(env, child, preds + SplitAnd(cond))
    case Project(_, child) => Hits(env, child, preds)
    case Join(lt, rt, lk, rk, left, right) =>
      var s := Partition(preds, lt, rt);
      || Hits(env, left, s.left) || Hits(env, right, s.right)
      || Lands(env, p, s.remain, Join(lt, rt, lk, rk, Pushdown(left, s.left), Pushdown(right, s.right)))
    case Scan(_) => Lands(env, p, preds, p)
    case Opaque(kind, outs, children) =>
      var pushed := seq(|children|, i requires 0 <= i < |children| => Pushdown(children[i], []));
      || (exists i :: 0 <= i < |children| && Hits(env, children[i], []))
      || Lands(env, p, preds, Opaque(kind, outs, pushed))
  }

  lemma {:induction false} PartitionMembers(preds: seq<Expr>, lt: seq<int>, rt: seq<int>)
    ensures var s := Partition(preds, lt, rt);
      && (forall e :: e in preds <==> e in s.left + s.right + s.remain)
      && (forall e :: e in s.left ==> OnlyRefs(e, lt))
      && (forall e :: e in s.right ==> !OnlyRefs(e, lt) && OnlyRefs(e, rt))
      && (forall e :: e in s.remain ==> !OnlyRefs(e, lt) && !OnlyRefs(e, rt))
    decreases |preds|
  {
    hide OnlyRefs;
    if preds != [] {
      var n := |preds| - 1;
      PartitionMembers(preds[..n], lt, rt);
      assert preds == preds[..n] + [preds[n]];
    }
  }

  // ---- how far predicates sink ----

  predicate Atomic(e: Expr) {
    !(e.Binary? && e.op == AND)
  }

  ghost predicate AllAtomic(preds: seq<Expr>) {
    forall e :: e in preds ==> Atomic(e)
  }

  /** No filter stands on a filter or a projection, and none of the conjuncts of a filter on a join refers to the
      tables of one side only. */
  ghost predicate Sunk(p: Plan) {
    match p
    case Filter(cond, child) =>
      && !child.Filter? && !child.Project? && Sunk(child)
      && (child.Join? ==> forall e :: e in SplitAnd(cond) ==>
            !(TableRefs(e) <= Listed(child.leftTables)) && !(TableRefs(e) <= Listed(child.rightTables)))
    case Project(_, child) => Sunk(child)
    case Join(_, _, _, _, left, right) => Sunk(left) && Sunk(right)
    case Opaque(_, _, children) => forall i :: 0 <= i < |children| ==> Sunk(children[i])
    case Scan(_) => true
  }

  function Listed(tables: seq<int>): set<int> {
    set t | t in tables
  }

  lemma {:induction false} SplitAtomic(e: Expr)
    ensures AllAtomic(SplitAnd(e))
  {
    if e.Binary? && e.op == AND {
      SplitAtomic(e.left);
      SplitAtomic(e.right);
    }
  }

  lemma {:induction false} ConjunctionSplits(preds: seq<Expr>)
    requires preds != [] && AllAtomic(preds)
    ensures SplitAnd(Conjunction(preds)) == preds
    decreases |preds|
  {
    var n := |preds| - 1;
    assert preds == preds[..n] + [preds[n]];
    assert Atomic(preds[n]);
    if n > 0 { ConjunctionSplits(preds[..n]); }
  }

  lemma WrapSunk(p: Plan, preds: seq<Expr>)
    requires AllAtomic(preds) && Sunk(p) && !p.Filter? && !p.Project?
    requires p.Join? ==> forall e :: e in preds ==> !OnlyRefs(e, p.leftTables) && !OnlyRefs(e, p.rightTables)
    ensures Sunk(WrapWithFilter(p, preds))
  {
    if preds != [] { ConjunctionSplits(preds); }
  }

  lemma {:induction false} PushdownSinks(p: Plan, preds: seq<Expr>)
    requires AllAtomic(preds)
    ensures Sunk(Pushdown(p, preds))
    decreases p
  {
    match p
    case Filter(cond, child) =>
      SplitAtomic(cond);
      PushdownSinks(child, preds + SplitAnd(cond));
    case Project(_, child) => PushdownSinks(child, preds);
    case Join(lt, rt, lk, rk, left, right) =>
      var s := Partition(preds, lt, rt);
      PartitionMembers(preds, lt, rt);
      forall e | e in s.left + s.right + s.remain ensures Atomic(e) {}
      PushdownSinks(left, s.left);
      PushdownSinks(right, s.right);
      WrapSunk(Join(lt, rt, lk, rk, Pushdown(left, s.left), Pushdown(right, s.right)), s.remain);
    case Scan(_) => WrapSunk(p, preds);
    case Opaque(kind, outs, children) =>
      var pushed := seq(|children|, i requires 0 <= i < |children| => Pushdown(children[i], []));
      forall i | 0 <= i < |children| ensures Sunk(pushed[i]) { PushdownSinks(children[i], []); }
      WrapSunk(Opaque(kind, outs, pushed), preds);
  }

  /** In every optimized plan the predicates have sunk as far as the rule can bring them. */
  lemma OptimizeSinks(p: Plan)
    ensures Sunk(Optimize(p))
  {
    PushdownSinks(FoldPlan(p), []);
  }

  lemma JoinColumnsDisjoint(env: Env, left: Plan, right: Plan)
    requires EnvOk(env) && WellFormed(env, left) && WellFormed(env, right) && ScanTables(left) !! ScanTables(right)
    ensures OutColumns(env, left) !! OutColumns(env, right)
  {
    forall c | c in OutColumns(env, left) && c in OutColumns(env, right) ensures false {
      ColumnsOwned(env, left, c);
      ColumnsOwned(env, right, c);
    }
  }

  // ---- rows with the NULL bits they had below the joins ----

  /** A join stands above every scan and every opaque operator that the plan's rows come from. */
  predicate Joined(p: Plan) {
    match p
    case Filter(_, child) => Joined(child)
    case Project(_, child) => Joined(child)
    case Join(_, _, _, _, _, _) => true
    case _ => false
  }

  /** The rule sends the predicate below all joins of the plan. */
  predicate Deep(p: Plan, e: Expr) {
    match p
    case Filter(_, child) => Deep(child, e)
    case Project(_, child) => Deep(child, e)
    case Join(lt, rt, _, _, left, right) =>
      if OnlyRefs(e, lt) then Deep(left, e) else OnlyRefs(e, rt) && Deep(right, e)
    case _ => true
  }

  /** Predicates above a plan, each with the bits it looks at where the rule puts it. */
  function LooksAt(p: Plan, preds: seq<Expr>): seq<Look> {
    seq(|preds|, i requires 0 <= i < |preds| => Look(preds[i], Deep(p, preds[i])))
  }

  /** The rows of the optimized plan, with the NULL bits their cells had below the joins: each filter looks
      at the bits its predicates find where the rule puts them. */
  ghost function Traced(env: Env, p: Plan): Outcome<Rows> {
    match p
    case Scan(t) => if t in env.db then Ok(env.db[t]) else Failed
    case Filter(cond, child) => Where(LooksAt(child, SplitAnd(cond)), Traced(env, child))
    case Project(cols, child) =>
      var rows := Traced(env, child);
      if rows.Ok? then Ok(ProjectRows(rows.value, cols)) else Failed
    case Join(_, _, lk, rk, left, right) =>
      var l, r := Traced(env, left), Traced(env, right);
      if l.Ok? && r.Ok? then Ok(JoinRows(l.value, r.value, lk, rk)) else Failed
    case Opaque(kind, cols, children) =>
      var inputs := seq(|children|, i requires 0 <= i < |children| => Shown(children[i], Traced(env, children[i])));
      if forall i :: 0 <= i < |inputs| ==> inputs[i].Ok?
      then env.ops(kind, cols, seq(|inputs|, i requires 0 <= i < |inputs| && inputs[i].Ok? => inputs[i].value))
      else Failed
  }

  /** Those rows as the plan puts them out. */
  ghost function Shown(p: Plan, o: Outcome<Rows>): Outcome<Rows> {
    if o.Ok? && Joined(p) then Ok(Emitted(o.value)) else o
  }

  lemma LooksAtHas(p: Plan, preds: seq<Expr>)
    ensures forall k :: k in LooksAt(p, preds) <==> k.e in preds && k.raw == Deep(p, k.e)
  {
    forall k: Look | k.e in preds && k.raw == Deep(p, k.e) ensures k in LooksAt(p, preds) {
      var i :| 0 <= i < |preds| && preds[i] == k.e;
      assert LooksAt(p, preds)[i] == k;
    }
  }

  lemma LooksAtAppend(p: Plan, a: seq<Expr>, b: seq<Expr>)
    ensures LooksAt(p, a + b) == LooksAt(p, a) + LooksAt(p, b)
  {
    assert forall i :: 0 <= i < |a + b| ==> (a + b)[i] == if i < |a| then a[i] else b[i - |a|];
  }

  lemma LooksAtSame(p: Plan, q: Plan, preds: seq<Expr>)
    requires forall e :: e in preds ==> Deep(p, e) == Deep(q, e)
    ensures LooksAt(p, preds) == LooksAt(q, preds)
  {
  }

  lemma {:induction false} NotJoinedDeep(p: Plan, e: Expr)
    requires !Joined(p)
    ensures Deep(p, e)
  {
    match p
    case Filter(_, child) => NotJoinedDeep(child, e);
    case Project(_, child) => NotJoinedDeep(child, e);
    case _ =>
  }

  lemma {:induction false} TracedShaped(env: Env, p: Plan)
    requires EnvOk(env) && WellFormed(env, p)
    ensures Traced(env, p).Ok? ==> AllShaped(Traced(env, p).value, OutColumns(env, p), env.texts)
  {
    if Traced(env, p).Ok? {
      match p
      case Scan(t) =>
      case Filter(cond, child) =>
        TracedShaped(env, child);
        SelectShaped(LooksAt(child, SplitAnd(cond)), Traced(env, child).value, OutColumns(env, child), env.texts);
      case Project(cols, child) =>
        TracedShaped(env, child);
        ProjectShaped(Traced(env, child).value, OutColumns(env, child), cols, env.texts);
      case Join(_, _, lk, rk, left, right) =>
        TracedShaped(env, left);
        TracedShaped(env, right);
        JoinShaped(Traced(env, left).value, Traced(env, right).value, lk, rk,
                   OutColumns(env, left), OutColumns(env, right), env.texts);
      case Opaque(kind, cols, children) =>
    }
  }

  lemma ShownShaped(p: Plan, o: Outcome<Rows>, cols: set<int>, texts: set<int>)
    requires o.Ok? ==> AllShaped(o.value, cols, texts)
    ensures Shown(p, o).Ok? ==> AllShaped(Shown(p, o).value, cols, texts)
  {
    if o.Ok? { EmittedShaped(o.value, cols, texts); }
  }

  // ---- what the rule does ----

  /** If a predicate misses the plan's columns and yet no row meets it, then the other predicates already leave
      no row. */
  ghost predicate Emptied(env: Env, p: Plan, preds: seq<Expr>) {
    !Hits(env, p, preds) && Misses(env, p, preds) && Traced(env, p).Ok? ==>
      Select(LooksAt(p, Fitting(env, p, preds)), Traced(env, p).value) == []
  }

  /** What the pushed plan denotes: a failure if a misdirected predicate meets a row, and otherwise the traced
      rows that satisfy all predicates, each looking at the bits it finds where it was put. */
  ghost predicate PushedTo(env: Env, p: Plan, preds: seq<Expr>) {
    Denote(env, Pushdown(p, preds)) ==
      if Hits(env, p, preds) then Failed else Shown(p, Where(LooksAt(p, preds), Traced(env, p)))
  }

  lemma {:induction false} PushdownIs(env: Env, p: Plan, preds: seq<Expr>)
    requires EnvOk(env) && WellFormed(env, p) && Settled(env, p, preds)
    ensures Denote(env, Pushdown(p, preds)) ==
      if Hits(env, p, preds) then Failed else Shown(p, Where(LooksAt(p, preds), Traced(env, p)))
    ensures Emptied(env, p, preds)
    decreases p
  {
    assert PushedTo(env, p, preds) && Emptied(env, p, preds) by {
      hide Settled, Fits, Misses, Emptied, Lands, Where, NumericOk, PushedTo;
      match p
      case Filter(cond, child) =>
        PushFilter(env, cond, child, preds);
        PushdownIs(env, child, preds + SplitAnd(cond));
        FilterPushed(env, cond, child, preds);
        EmptiedFilter(env, cond, child, preds);
      case Project(cols, child) =>
        ProjectSettled(env, cols, child, preds);
        PushdownIs(env, child, preds);
        PushProject(env, cols, child, preds);
      case Join(lt, rt, lk, rk, left, right) =>
        var s := Partition(preds, lt, rt);
        JoinSettled(env, p, preds);
        PushdownIs(env, left, s.left);
        PushdownIs(env, right, s.right);
        PushJoin(env, p, preds);
      case Scan(t) =>
        PushScan(env, t, preds);
      case Opaque(kind, outs, children) =>
        forall i | 0 <= i < |children| ensures PushedTo(env, children[i], []) {
          NothingSettled(env, children[i]);
          PushdownIs(env, children[i], []);
          IsPushed(env, children[i], []);
        }
        PushOpaque(env, kind, outs, children, preds);
    }
  }

  lemma IsPushed(env: Env, p: Plan, preds: seq<Expr>)
    requires Denote(env, Pushdown(p, preds)) ==
      if Hits(env, p, preds) then Failed else Shown(p, Where(LooksAt(p, preds), Traced(env, p)))
    ensures PushedTo(env, p, preds)
  {
  }

  lemma NothingSettled(env: Env, p: Plan)
    ensures Settled(env, p, []) && !Misses(env, p, [])
  {
  }

  lemma WhereNone(p: Plan, o: Outcome<Rows>)
    ensures Where(LooksAt(p, []), o) == o
  {
    assert LooksAt(p, []) == [];
    if o.Ok? { SelectNone(o.value); }
  }

  /** Above a scan or an opaque operator the predicates look at the rows as they are. */
  lemma RawLooks(p: Plan, preds: seq<Expr>)
    requires p.Scan? || p.Opaque?
    ensures LooksAt(p, preds) == Looks(preds, true)
  {
  }

  /** A plan whose pushed predicates stand directly above it. */
  lemma PushScan(env: Env, t: int, preds: seq<Expr>)
    requires EnvOk(env) && WellFormed(env, Scan(t)) && Settled(env, Scan(t), preds)
    ensures PushedTo(env, Scan(t), preds) && Emptied(env, Scan(t), preds)
  {
    var p := Scan(t);
    hide Settled, Select;
    DenoteShaped(env, p);
    WrapLands(env, p, preds, p);
    RawLooks(p, preds);
    assert Traced(env, p) == Denote(env, p);
    LandedEmpty(env, p, preds, p);
  }

  lemma LandedEmpty(env: Env, p: Plan, preds: seq<Expr>, q: Plan)
    requires Traced(env, p).Ok? && !Hits(env, p, preds) ==> Denote(env, q) == Traced(env, p) && !Lands(env, p, preds, q)
    ensures Emptied(env, p, preds)
  {
  }

  lemma PushOpaque(env: Env, kind: int, outs: set<int>, children: seq<Plan>, preds: seq<Expr>)
    requires var p := Opaque(kind, outs, children); EnvOk(env) && WellFormed(env, p) && Settled(env, p, preds)
    requires forall i :: 0 <= i < |children| ==> PushedTo(env, children[i], [])
    ensures var p := Opaque(kind, outs, children); PushedTo(env, p, preds) && Emptied(env, p, preds)
  {
    hide Settled, Where, Misses;
    var pushed := seq(|children|, i requires 0 <= i < |children| => Pushdown(children[i], []));
    var p, q := Opaque(kind, outs, children), Opaque(kind, outs, pushed);
    assert Pushdown(p, preds) == WrapWithFilter(q, preds);
    if exists i :: 0 <= i < |children| && Hits(env, children[i], []) {
      var i :| 0 <= i < |children| && Hits(env, children[i], []);
      OpaqueFails(env, kind, outs, pushed, i);
    } else {
      forall i | 0 <= i < |children| ensures Denote(env, pushed[i]) == Shown(children[i], Traced(env, children[i])) {
        WhereNone(children[i], Traced(env, children[i]));
      }
      OpaqueSameRows(env, kind, outs, pushed, children);
      TracedShaped(env, p);
      WrapLands(env, p, preds, q);
      RawLooks(p, preds);
      LandedEmpty(env, p, preds, q);
    }
  }

  lemma OpaqueSameRows(env: Env, kind: int, outs: set<int>, pushed: seq<Plan>, children: seq<Plan>)
    requires |pushed| == |children|
    requires forall i :: 0 <= i < |children| ==> Denote(env, pushed[i]) == Shown(children[i], Traced(env, children[i]))
    ensures Denote(env, Opaque(kind, outs, pushed)) == Traced(env, Opaque(kind, outs, children))
  {
    var p, q := Opaque(kind, outs, children), Opaque(kind, outs, pushed);
    var a := seq(|p.children|, i requires 0 <= i < |p.children| => Shown(p.children[i], Traced(env, p.children[i])));
    var b := seq(|q.children|, i requires 0 <= i < |q.children| => Denote(env, q.children[i]));
    assert a == b;
  }

  lemma OpaqueFails(env: Env, kind: int, outs: set<int>, children: seq<Plan>, i: nat)
    requires i < |children| && Denote(env, children[i]).Failed?
    ensures Denote(env, Opaque(kind, outs, children)).Failed?
    ensures forall preds :: Denote(env, WrapWithFilter(Opaque(kind, outs, children), preds)).Failed?
  {
    var p := Opaque(kind, outs, children);
    var inputs := seq(|p.children|, k requires 0 <= k < |p.children| => Denote(env, p.children[k]));
    assert inputs[i].Failed?;
  }

  // ---- through a filter ----

  lemma PushFilter(env: Env, cond: Expr, child: Plan, preds: seq<Expr>)
    requires EnvOk(env) && WellFormed(env, Filter(cond, child)) && Settled(env, Filter(cond, child), preds)
    ensures Settled(env, child, preds + SplitAnd(cond))
    ensures forall e :: e in SplitAnd(cond) ==> Fits(env, child, e)
  {
    var cols := OutColumns(env, child);
    SplitOk(env, cond, cols);
    forall e | e in SplitAnd(cond) ensures Fits(env, child, e) { NumericColumns(e, cols, env.texts); }
    forall e | e in preds ensures NumericOk(e, cols, env.texts) || Foreign(env, child, e) {
      assert ScanTables(Filter(cond, child)) == ScanTables(child);
      if !NumericOk(e, cols, env.texts) { assert Foreign(env, Filter(cond, child), e); }
    }
  }

  lemma FilterPushed(env: Env, cond: Expr, child: Plan, preds: seq<Expr>)
    requires Denote(env, Pushdown(child, preds + SplitAnd(cond))) ==
      if Hits(env, child, preds + SplitAnd(cond)) then Failed
      else Shown(child, Where(LooksAt(child, preds + SplitAnd(cond)), Traced(env, child)))
    ensures PushedTo(env, Filter(cond, child), preds)
  {
    var p := Filter(cond, child);
    LooksAtAppend(child, preds, SplitAnd(cond));
    LooksAtSame(child, p, preds);
    if Traced(env, child).Ok? {
      SelectTwice(LooksAt(p, preds), LooksAt(child, SplitAnd(cond)), Traced(env, child).value);
    }
  }

  lemma EmptiedFilter(env: Env, cond: Expr, child: Plan, preds: seq<Expr>)
    requires forall e :: e in SplitAnd(cond) ==> Fits(env, child, e)
    requires Emptied(env, child, preds + SplitAnd(cond))
    ensures Emptied(env, Filter(cond, child), preds)
  {
    var p, all := Filter(cond, child), preds + SplitAnd(cond);
    FittingHas(env, child, all);
    FittingHas(env, p, preds);
    assert forall e :: Fits(env, p, e) <==> Fits(env, child, e);
    if Misses(env, p, preds) {
      var e :| e in preds && !Fits(env, p, e);
      assert e in all && Misses(env, child, all);
      if Traced(env, child).Ok? && !Hits(env, p, preds) {
        var fit, rows := Fitting(env, p, preds), Traced(env, child).value;
        LooksAtHas(child, Fitting(env, child, all));
        LooksAtHas(p, fit);
        LooksAtHas(child, SplitAnd(cond));
        SelectMore(LooksAt(child, Fitting(env, child, all)), LooksAt(p, fit) + LooksAt(child, SplitAnd(cond)), rows);
        SelectTwice(LooksAt(p, fit), LooksAt(child, SplitAnd(cond)), rows);
      }
    }
  }

  // ---- through a projection ----

  lemma ProjectSettled(env: Env, cols: seq<int>, child: Plan, preds: seq<Expr>)
    requires EnvOk(env) && WellFormed(env, Project(cols, child)) && Settled(env, Project(cols, child), preds)
    ensures Settled(env, child, preds)
    ensures forall e :: e in preds ==> (Fits(env, child, e) <==> Fits(env, Project(cols, child), e))
  {
    var p := Project(cols, child);
    var out, from := (set c | c in cols), OutColumns(env, child);
    forall c | c in out ensures c in from { assert c in cols; }
    SettledFits(env, p, preds);
    forall e | e in preds
      ensures NumericOk(e, from, env.texts) || Foreign(env, child, e)
      ensures Fits(env, child, e) <==> Fits(env, p, e)
    {
      if Fits(env, p, e) {
        NumericMoves(e, out, from, env.texts);
      } else {
        assert Foreign(env, p, e) && ScanTables(p) == ScanTables(child);
        assert Foreign(env, child, e);
        ForeignMisses(env, child, e);
      }
    }
  }

  lemma PushProject(env: Env, cols: seq<int>, child: Plan, preds: seq<Expr>)
    requires EnvOk(env) && WellFormed(env, Project(cols, child)) && Settled(env, Project(cols, child), preds)
    requires Denote(env, Pushdown(child, preds)) ==
      if Hits(env, child, preds) then Failed else Shown(child, Where(LooksAt(child, preds), Traced(env, child)))
    requires Emptied(env, child, preds)
    ensures var p := Project(cols, child); PushedTo(env, p, preds) && Emptied(env, p, preds)
  {
    hide Settled, NumericOk, Foreign, LooksAt;
    var p, out, from := Project(cols, child), (set c | c in cols), OutColumns(env, child);
    ProjectSettled(env, cols, child, preds);
    FittingHas(env, child, preds);
    FittingHas(env, p, preds);
    FittingSame(env, child, p, preds);
    LooksAtSame(p, child, preds);
    LooksAtSame(p, child, Fitting(env, p, preds));
    LooksAtHas(child, preds);
    LooksAtHas(child, Fitting(env, p, preds));
    if Traced(env, child).Ok? && !Hits(env, child, preds) {
      var rows, ks, fit := Traced(env, child).value, LooksAt(child, preds), LooksAt(child, Fitting(env, p, preds));
      TracedShaped(env, child);
      ProjectedRows(env, cols, child, rows, ks);
      SelectProject(fit, rows, cols);
      if Misses(env, p, preds) {
        var e :| e in preds && !Fits(env, p, e);
        assert !Fits(env, child, e) && Misses(env, child, preds);
        ProjectShaped(rows, from, cols, env.texts);
        SelectMissing(Look(e, Deep(child, e)), ks, rows, from, env.texts);
        SelectMissing(Look(e, Deep(child, e)), ks, ProjectRows(rows, cols), out, env.texts);
      } else {
        SelectProject(ks, rows, cols);
      }
    }
  }

  /** Projecting the rows a plan shows is showing the projected ones. */
  lemma ProjectedRows(env: Env, cols: seq<int>, child: Plan, rows: Rows, ks: seq<Look>)
    requires AllShaped(rows, OutColumns(env, child), env.texts) && forall c :: c in cols ==> c in OutColumns(env, child)
    ensures var shown := Shown(child, Ok(Select(ks, rows)));
      && HasColumns(shown.value, cols)
      && Ok(ProjectRows(shown.value, cols)) == Shown(Project(cols, child), Ok(ProjectRows(Select(ks, rows), cols)))
  {
    SelectShaped(ks, rows, OutColumns(env, child), env.texts);
    ShownShaped(child, Ok(Select(ks, rows)), OutColumns(env, child), env.texts);
    ProjectShaped(Shown(child, Ok(Select(ks, rows))).value, OutColumns(env, child), cols, env.texts);
    EmittedProject(Select(ks, rows), cols);
  }

  lemma {:induction false} FittingSame(env: Env, p: Plan, q: Plan, preds: seq<Expr>)
    requires forall e :: e in preds ==> (Fits(env, p, e) <==> Fits(env, q, e))
    ensures Fitting(env, p, preds) == Fitting(env, q, preds)
    decreases |preds|
  {
    if preds != [] { FittingSame(env, p, q, preds[..|preds| - 1]); }
  }

  // ---- into a join ----

  /** A predicate sent to one input suits it, or reads a column of the other input's tables. */
  lemma SideSettled(env: Env, e: Expr, near: Plan, far: Plan, cols: set<int>)
    requires EnvOk(env) && WellFormed(env, near) && WellFormed(env, far) && ScanTables(near) !! ScanTables(far)
    requires cols == OutColumns(env, near) + OutColumns(env, far) && NumericOk(e, cols, env.texts)
    ensures NumericOk(e, OutColumns(env, near), env.texts) || Foreign(env, near, e)
  {
    NumericColumns(e, cols, env.texts);
    if Fits(env, near, e) {
      NumericMoves(e, cols, OutColumns(env, near), env.texts);
    } else {
      var c := MissingColumn(e, OutColumns(env, near));
      ColumnsOwned(env, far, c);
      assert Foreign(env, near, e) by {
        assert forall t :: t in ScanTables(near) && t in env.schema ==> c !in env.schema[t];
      }
    }
  }

  lemma ForeignBelow(env: Env, p: Plan, q: Plan, e: Expr)
    requires Foreign(env, p, e) && ScanTables(q) <= ScanTables(p)
    ensures Foreign(env, q, e)
  {
    var c :| c in Columns(e) && forall t :: t in ScanTables(p) && t in env.schema ==> c !in env.schema[t];
    assert forall t :: t in ScanTables(q) && t in env.schema ==> c !in env.schema[t];
  }

  lemma JoinSettled(env: Env, p: Plan, preds: seq<Expr>)
    requires EnvOk(env) && p.Join? && WellFormed(env, p) && Settled(env, p, preds)
    ensures var s := Partition(preds, p.leftTables, p.rightTables);
      && Settled(env, p.left, s.left) && Settled(env, p.right, s.right) && Settled(env, p, s.remain)
      && (forall e :: e in preds <==> e in s.left + s.right + s.remain)
  {
    hide OnlyRefs, Partition, NumericOk, Foreign;
    var s := Partition(preds, p.leftTables, p.rightTables);
    var lc, rc := OutColumns(env, p.left), OutColumns(env, p.right);
    PartitionMembers(preds, p.leftTables, p.rightTables);
    forall e | e in s.left ensures NumericOk(e, lc, env.texts) || Foreign(env, p.left, e) {
      assert e in preds;
      if NumericOk(e, OutColumns(env, p), env.texts) { SideSettled(env, e, p.left, p.right, lc + rc); }
      else { ForeignBelow(env, p, p.left, e); }
    }
    forall e | e in s.right ensures NumericOk(e, rc, env.texts) || Foreign(env, p.right, e) {
      assert e in preds && lc + rc == rc + lc;
      if NumericOk(e, OutColumns(env, p), env.texts) { SideSettled(env, e, p.right, p.left, rc + lc); }
      else { ForeignBelow(env, p, p.right, e); }
    }
  }

  /** The parts of a join that a proof about its rows needs. */
  ghost predicate JoinReady(env: Env, p: Plan, ls: Rows, rs: Rows) {
    && p.Join? && Traced(env, p.left) == Ok(ls) && Traced(env, p.right) == Ok(rs)
    && AllShaped(ls, OutColumns(env, p.left), env.texts) && AllShaped(rs, OutColumns(env, p.right), env.texts)
    && OutColumns(env, p.left) !! OutColumns(env, p.right)
    && Traced(env, p) == Ok(JoinRows(ls, rs, p.leftKeys, p.rightKeys))
  }

  lemma JoinIsReady(env: Env, p: Plan)
    requires EnvOk(env) && p.Join? && WellFormed(env, p) && Traced(env, p.left).Ok? && Traced(env, p.right).Ok?
    ensures JoinReady(env, p, Traced(env, p.left).value, Traced(env, p.right).value)
  {
    JoinColumnsDisjoint(env, p.left, p.right);
    TracedShaped(env, p.left);
    TracedShaped(env, p.right);
  }

  /** The predicates of the two sides, each with the bits it looks at. */
  function SideLooks(p: Plan, preds: seq<Expr>): (seq<Look>, seq<Look>)
    requires p.Join?
  {
    var s := Partition(preds, p.leftTables, p.rightTables);
    (LooksAt(p.left, s.left), LooksAt(p.right, s.right))
  }

  /** Seen from above the join they look at the same bits, and the remaining ones at emitted rows. */
  lemma SidesLook(p: Plan, preds: seq<Expr>)
    requires p.Join?
    ensures var s := Partition(preds, p.leftTables, p.rightTables);
      && LooksAt(p, s.left) == LooksAt(p.left, s.left) && LooksAt(p, s.right) == LooksAt(p.right, s.right)
      && LooksAt(p, s.remain) == Looks(s.remain, false)
  {
    hide OnlyRefs, Partition;
    PartitionMembers(preds, p.leftTables, p.rightTables);
  }

  /** An input that keeps no row leaves no pair for any larger set of predicates. */
  lemma LeftEmpties(env: Env, p: Plan, ls: Rows, rs: Rows, fit: seq<Look>)
    requires JoinReady(env, p, ls, rs) && Select(fit, ls) == [] && forall k :: k in fit ==> Fits(env, p.left, k.e)
    ensures Select(fit, JoinRows(ls, rs, p.leftKeys, p.rightKeys)) == []
  {
    SelectJoin(fit, [], ls, rs, p.leftKeys, p.rightKeys, OutColumns(env, p.left), OutColumns(env, p.right), env.texts);
    assert fit + [] == fit;
    JoinNoLeft(Select([], rs), p.leftKeys, p.rightKeys);
  }

  lemma RightEmpties(env: Env, p: Plan, ls: Rows, rs: Rows, fit: seq<Look>)
    requires JoinReady(env, p, ls, rs) && Select(fit, rs) == [] && forall k :: k in fit ==> Fits(env, p.right, k.e)
    ensures Select(fit, JoinRows(ls, rs, p.leftKeys, p.rightKeys)) == []
  {
    SelectJoin([], fit, ls, rs, p.leftKeys, p.rightKeys, OutColumns(env, p.left), OutColumns(env, p.right), env.texts);
    assert [] + fit == fit;
  }

  /** Predicates, fitting both inputs or not, that leave no pair of the join. */
  lemma SideEmpties(env: Env, p: Plan, preds: seq<Expr>, ls: Rows, rs: Rows)
    requires JoinReady(env, p, ls, rs)
    requires var s := Partition(preds, p.leftTables, p.rightTables);
      && !Hits(env, p.left, s.left) && !Hits(env, p.right, s.right)
      && Emptied(env, p.left, s.left) && Emptied(env, p.right, s.right)
      && (Misses(env, p.left, s.left) || Misses(env, p.right, s.right))
    ensures var (a, b) := SideLooks(p, preds);
      var rows := JoinRows(ls, rs, p.leftKeys, p.rightKeys);
      && Select(LooksAt(p, Fitting(env, p, preds)), rows) == [] && Select(a + b, rows) == []
      && JoinRows(Select(a, ls), Select(b, rs), p.leftKeys, p.rightKeys) == []
  {
    hide OnlyRefs, Partition, Hits, Misses, LooksAt;
    var rows, s := JoinRows(ls, rs, p.leftKeys, p.rightKeys), Partition(preds, p.leftTables, p.rightTables);
    var (a, b) := SideLooks(p, preds);
    PartitionMembers(preds, p.leftTables, p.rightTables);
    SidesLook(p, preds);
    FittingHas(env, p, preds);
    LooksAtHas(p, Fitting(env, p, preds));
    LooksAtHas(p, s.left);
    LooksAtHas(p, s.right);
    if Misses(env, p.left, s.left) {
      var fit := LooksAt(p.left, Fitting(env, p.left, s.left));
      FittingLooks(env, p, preds, p.left, s.left);
      LeftEmpties(env, p, ls, rs, fit);
      SelectMore(fit, LooksAt(p, Fitting(env, p, preds)), rows);
      SelectMore(fit, a + b, rows);
      SelectMore(fit, a, ls);
      JoinNoLeft(Select(b, rs), p.leftKeys, p.rightKeys);
    } else {
      var fit := LooksAt(p.right, Fitting(env, p.right, s.right));
      FittingLooks(env, p, preds, p.right, s.right);
      RightEmpties(env, p, ls, rs, fit);
      SelectMore(fit, LooksAt(p, Fitting(env, p, preds)), rows);
      SelectMore(fit, a + b, rows);
      SelectMore(fit, b, rs);
    }
  }

  /** The fitting predicates of one side are fitting predicates of the join. */
  lemma FittingLooks(env: Env, p: Plan, preds: seq<Expr>, q: Plan, side: seq<Expr>)
    requires p.Join? && (forall e :: e in side ==> e in preds) && (q == p.left || q == p.right)
    requires LooksAt(p, side) == LooksAt(q, side)
    ensures var fit := LooksAt(q, Fitting(env, q, side));
      forall k :: k in fit ==>
        Fits(env, q, k.e) && k in LooksAt(p, Fitting(env, p, preds)) && k in LooksAt(q, side)
  {
    hide LooksAt, Deep;
    FittingHas(env, q, side);
    FittingHas(env, p, preds);
    LooksAtHas(q, Fitting(env, q, side));
    LooksAtHas(p, Fitting(env, p, preds));
    LooksAtHas(q, side);
    LooksAtHas(p, side);
    forall k | k in LooksAt(q, Fitting(env, q, side)) ensures k in LooksAt(p, Fitting(env, p, preds)) {
      assert k in LooksAt(q, side) && k in LooksAt(p, side);
    }
  }

  /** Filtering the inputs of a join selects its pairs, whether or not the predicates suit their side. */
  lemma JoinedSelects(env: Env, p: Plan, preds: seq<Expr>, ls: Rows, rs: Rows)
    requires JoinReady(env, p, ls, rs)
    requires var s := Partition(preds, p.leftTables, p.rightTables);
      && !Hits(env, p.left, s.left) && !Hits(env, p.right, s.right)
      && Emptied(env, p.left, s.left) && Emptied(env, p.right, s.right)
    ensures var (a, b) := SideLooks(p, preds);
      JoinRows(Select(a, ls), Select(b, rs), p.leftKeys, p.rightKeys) ==
        Select(a + b, JoinRows(ls, rs, p.leftKeys, p.rightKeys))
  {
    hide OnlyRefs, Partition, Hits, Emptied, LooksAt;
    var s := Partition(preds, p.leftTables, p.rightTables);
    var (a, b) := SideLooks(p, preds);
    if Misses(env, p.left, s.left) || Misses(env, p.right, s.right) {
      SideEmpties(env, p, preds, ls, rs);
    } else {
      LooksAtHas(p.left, s.left);
      LooksAtHas(p.right, s.right);
      SelectJoin(a, b, ls, rs, p.leftKeys, p.rightKeys, OutColumns(env, p.left), OutColumns(env, p.right), env.texts);
    }
  }

  lemma PushJoin(env: Env, p: Plan, preds: seq<Expr>)
    requires EnvOk(env) && p.Join? && WellFormed(env, p) && Settled(env, p, preds)
    requires var s := Partition(preds, p.leftTables, p.rightTables);
      && Denote(env, Pushdown(p.left, s.left)) ==
           (if Hits(env, p.left, s.left) then Failed
            else Shown(p.left, Where(LooksAt(p.left, s.left), Traced(env, p.left))))
      && Denote(env, Pushdown(p.right, s.right)) ==
           (if Hits(env, p.right, s.right) then Failed
            else Shown(p.right, Where(LooksAt(p.right, s.right), Traced(env, p.right))))
      && Emptied(env, p.left, s.left) && Emptied(env, p.right, s.right)
    ensures PushedTo(env, p, preds) && Emptied(env, p, preds)
  {
    hide Settled, OnlyRefs, Partition, Misses, Emptied, Select, Fits, LooksAt;
    var s := Partition(preds, p.leftTables, p.rightTables);
    var joined := Join(p.leftTables, p.rightTables, p.leftKeys, p.rightKeys,
                       Pushdown(p.left, s.left), Pushdown(p.right, s.right));
    JoinSettled(env, p, preds);
    if Hits(env, p.left, s.left) || Hits(env, p.right, s.right)
       || Traced(env, p.left).Failed? || Traced(env, p.right).Failed? {
      assert Denote(env, joined).Failed?;
      WrapFails(env, joined, s.remain);
      HitsOrFails(env, p, preds);
    } else {
      JoinIsReady(env, p);
      JoinedRows(env, p, preds, joined);
      JoinOutput(env, p, preds);
      WrapLands(env, p, s.remain, joined);
      RemainSelects(env, p, preds);
      JoinEmptied(env, p, preds, joined);
    }
  }

  lemma WrapFails(env: Env, q: Plan, preds: seq<Expr>)
    requires Denote(env, q).Failed?
    ensures Denote(env, WrapWithFilter(q, preds)).Failed?
  {
  }

  lemma HitsOrFails(env: Env, p: Plan, preds: seq<Expr>)
    requires p.Join?
    requires var s := Partition(preds, p.leftTables, p.rightTables);
      || Hits(env, p.left, s.left) || Hits(env, p.right, s.right)
      || Traced(env, p.left).Failed? || Traced(env, p.right).Failed?
    ensures Hits(env, p, preds) || Traced(env, p).Failed?
    ensures Emptied(env, p, preds)
  {
  }

  /** The rows that the join of the pushed inputs puts out. */
  ghost function JoinOut(env: Env, p: Plan, preds: seq<Expr>): Rows
    requires p.Join? && Traced(env, p).Ok?
  {
    var (a, b) := SideLooks(p, preds);
    Emitted(Select(a + b, Traced(env, p).value))
  }

  lemma JoinOutput(env: Env, p: Plan, preds: seq<Expr>)
    requires EnvOk(env) && p.Join? && WellFormed(env, p) && Traced(env, p).Ok?
    ensures AllShaped(JoinOut(env, p, preds), OutColumns(env, p), env.texts)
  {
    var (a, b) := SideLooks(p, preds);
    TracedShaped(env, p);
    SelectShaped(a + b, Traced(env, p).value, OutColumns(env, p), env.texts);
    EmittedShaped(Select(a + b, Traced(env, p).value), OutColumns(env, p), env.texts);
  }

  lemma JoinedRows(env: Env, p: Plan, preds: seq<Expr>, joined: Plan)
    requires EnvOk(env) && p.Join? && WellFormed(env, p) && Traced(env, p.left).Ok? && Traced(env, p.right).Ok?
    requires JoinReady(env, p, Traced(env, p.left).value, Traced(env, p.right).value)
    requires joined.Join? && joined.leftKeys == p.leftKeys && joined.rightKeys == p.rightKeys
    requires var s := Partition(preds, p.leftTables, p.rightTables);
      && Denote(env, joined.left) == Shown(p.left, Where(LooksAt(p.left, s.left), Traced(env, p.left)))
      && Denote(env, joined.right) == Shown(p.right, Where(LooksAt(p.right, s.right), Traced(env, p.right)))
      && !Hits(env, p.left, s.left) && !Hits(env, p.right, s.right)
      && Emptied(env, p.left, s.left) && Emptied(env, p.right, s.right)
    ensures Denote(env, joined) == Ok(JoinOut(env, p, preds))
  {
    hide OnlyRefs, Partition, Hits, Emptied, Select, LooksAt;
    var ls, rs := Traced(env, p.left).value, Traced(env, p.right).value;
    var (a, b) := SideLooks(p, preds);
    SelectShaped(a, ls, OutColumns(env, p.left), env.texts);
    SelectShaped(b, rs, OutColumns(env, p.right), env.texts);
    ShownShaped(p.left, Ok(Select(a, ls)), OutColumns(env, p.left), env.texts);
    ShownShaped(p.right, Ok(Select(b, rs)), OutColumns(env, p.right), env.texts);
    HasShaped(Denote(env, joined.left).value, OutColumns(env, p.left), p.leftKeys, env.texts);
    HasShaped(Denote(env, joined.right).value, OutColumns(env, p.right), p.rightKeys, env.texts);
    JoinedSelects(env, p, preds, ls, rs);
    ShownJoin(p, Select(a, ls), Select(b, rs));
  }

  /** A join emits the same rows whether its inputs' bits are those shown or those traced. */
  lemma ShownJoin(p: Plan, ls: Rows, rs: Rows)
    requires p.Join?
    ensures Emitted(JoinRows(Shown(p.left, Ok(ls)).value, Shown(p.right, Ok(rs)).value, p.leftKeys, p.rightKeys)) ==
      Emitted(JoinRows(ls, rs, p.leftKeys, p.rightKeys))
  {
    EmittedLeft(ls, Shown(p.right, Ok(rs)).value, p.leftKeys, p.rightKeys);
    EmittedRight(ls, rs, p.leftKeys, p.rightKeys);
  }

  /** Selecting by the sides' predicates and then by the remaining ones is selecting by all. */
  lemma RemainSelects(env: Env, p: Plan, preds: seq<Expr>)
    requires p.Join? && Traced(env, p).Ok?
    ensures var s := Partition(preds, p.leftTables, p.rightTables);
      Where(Looks(s.remain, true), Ok(JoinOut(env, p, preds))) ==
        Shown(p, Where(LooksAt(p, preds), Traced(env, p)))
  {
    hide OnlyRefs, Partition, LooksAt;
    var s, rows := Partition(preds, p.leftTables, p.rightTables), Traced(env, p).value;
    var (a, b) := SideLooks(p, preds);
    var all := Looks(s.remain, false) + (a + b);
    SidesLook(p, preds);
    SelectEmitted(s.remain, Select(a + b, rows));
    SelectTwice(Looks(s.remain, false), a + b, rows);
    AllLooks(p, preds);
    forall i | 0 <= i < |rows| ensures AllHold(all, rows[i]) <==> AllHold(LooksAt(p, preds), rows[i]) {
      assert forall k :: k in LooksAt(p, preds) <==> k in all;
    }
    SelectSame(all, LooksAt(p, preds), rows);
  }

  lemma AllLooks(p: Plan, preds: seq<Expr>)
    requires p.Join?
    ensures var s := Partition(preds, p.leftTables, p.rightTables);
      var (a, b) := SideLooks(p, preds);
      forall k :: k in LooksAt(p, preds) <==> k in Looks(s.remain, false) + (a + b)
  {
    hide OnlyRefs, Partition, LooksAt, Deep;
    var s := Partition(preds, p.leftTables, p.rightTables);
    PartitionMembers(preds, p.leftTables, p.rightTables);
    SidesLook(p, preds);
    LooksAtHas(p, preds);
    LooksAtHas(p, s.left);
    LooksAtHas(p, s.right);
    LooksAtHas(p, s.remain);
  }

  lemma JoinEmptied(env: Env, p: Plan, preds: seq<Expr>, joined: Plan)
    requires EnvOk(env) && p.Join? && WellFormed(env, p) && Traced(env, p.left).Ok? && Traced(env, p.right).Ok?
    requires JoinReady(env, p, Traced(env, p.left).value, Traced(env, p.right).value)
    requires var s := Partition(preds, p.leftTables, p.rightTables);
      && joined == Join(p.leftTables, p.rightTables, p.leftKeys, p.rightKeys,
                        Pushdown(p.left, s.left), Pushdown(p.right, s.right))
      && Denote(env, joined) == Ok(JoinOut(env, p, preds))
      && !Hits(env, p.left, s.left) && !Hits(env, p.right, s.right)
      && Emptied(env, p.left, s.left) && Emptied(env, p.right, s.right)
    ensures Emptied(env, p, preds)
  {
    hide OnlyRefs, Partition, Select, LooksAt;
    var s, rows := Partition(preds, p.leftTables, p.rightTables), Traced(env, p).value;
    var ls, rs := Traced(env, p.left).value, Traced(env, p.right).value;
    var (a, b) := SideLooks(p, preds);
    if !Hits(env, p, preds) && Misses(env, p, preds) {
      if Misses(env, p.left, s.left) || Misses(env, p.right, s.right) {
        SideEmpties(env, p, preds, ls, rs);
      } else {
        RemainMisses(env, p, preds);
        EmittedLength(Select(a + b, rows));
        SidesFit(env, p, preds);
        SelectMore(a + b, LooksAt(p, Fitting(env, p, preds)), rows);
      }
    }
  }

  lemma RemainMisses(env: Env, p: Plan, preds: seq<Expr>)
    requires p.Join? && Misses(env, p, preds)
    requires var s := Partition(preds, p.leftTables, p.rightTables);
      !Misses(env, p.left, s.left) && !Misses(env, p.right, s.right)
    ensures Misses(env, p, Partition(preds, p.leftTables, p.rightTables).remain)
  {
    hide OnlyRefs, Partition;
    PartitionMembers(preds, p.leftTables, p.rightTables);
    var e :| e in preds && !Fits(env, p, e);
    assert e in Partition(preds, p.leftTables, p.rightTables).remain;
  }

  lemma SidesFit(env: Env, p: Plan, preds: seq<Expr>)
    requires p.Join?
    requires var s := Partition(preds, p.leftTables, p.rightTables);
      !Misses(env, p.left, s.left) && !Misses(env, p.right, s.right)
    ensures var (a, b) := SideLooks(p, preds);
      forall k :: k in a + b ==> k in LooksAt(p, Fitting(env, p, preds))
  {
    hide OnlyRefs, Partition, LooksAt, Deep;
    var s := Partition(preds, p.leftTables, p.rightTables);
    PartitionMembers(preds, p.leftTables, p.rightTables);
    SidesLook(p, preds);
    LooksAtHas(p, s.left);
    LooksAtHas(p, s.right);
    FittingHas(env, p, preds);
    LooksAtHas(p, Fitting(env, p, preds));
    forall e | e in s.left ensures Fits(env, p, e) { assert Fits(env, p.left, e); }
    forall e | e in s.right ensures Fits(env, p, e) { assert Fits(env, p.right, e); }
  }

  // ---- the optimizer ----

  lemma FoldedSettled(env: Env, p: Plan)
    requires EnvOk(env) && WellFormed(env, p)
    ensures WellFormed(env, FoldPlan(p)) && Settled(env, FoldPlan(p), [])
  {
    FoldWellFormed(env, p);
  }

  /** The optimized query fails exactly if a misdirected predicate meets a row or the traced plan fails;
      otherwise its rows are the traced rows of the folded plan. */
  lemma OptimizeIs(env: Env, p: Plan)
    requires EnvOk(env) && WellFormed(env, p)
    ensures Denote(env, Optimize(p)) ==
      if Hits(env, FoldPlan(p), []) then Failed else Shown(FoldPlan(p), Traced(env, FoldPlan(p)))
  {
    FoldedSettled(env, p);
    PushdownIs(env, FoldPlan(p), []);
    WhereNone(FoldPlan(p), Traced(env, FoldPlan(p)));
  }

  /** Every predicate that the rule sends to one input of a join reads only that input's columns. */
  ghost predicate Aimed(env: Env, p: Plan, preds: seq<Expr>)
    decreases p
  {
    match p
    case Filter(cond, child) => Aimed(env, child, preds + SplitAnd(cond))
    case Project(_, child) => Aimed(env, child, preds)
    case Join(lt, rt, _, _, left, right) =>
      var s := Partition(preds, lt, rt);
      && !Misses(env, left, s.left) && !Misses(env, right, s.right)
      && Aimed(env, left, s.left) && Aimed(env, right, s.right)
    case Scan(_) => true
    case Opaque(_, _, children) => forall i :: 0 <= i < |children| ==> Aimed(env, children[i], [])
  }

  lemma {:induction false} AimedNeverHits(env: Env, p: Plan, preds: seq<Expr>)
    requires EnvOk(env) && WellFormed(env, p) && Settled(env, p, preds)
    requires !Misses(env, p, preds) && Aimed(env, p, preds)
    ensures !Hits(env, p, preds)
    decreases p
  {
    hide NumericOk, Foreign, Fits;
    match p
    case Filter(cond, child) =>
      PushFilter(env, cond, child, preds);
      assert forall e :: Fits(env, p, e) <==> Fits(env, child, e) by { SameFits(env, p, child); }
      AimedNeverHits(env, child, preds + SplitAnd(cond));
    case Project(cols, child) =>
      ProjectSettled(env, cols, child, preds);
      AimedNeverHits(env, child, preds);
    case Join(lt, rt, lk, rk, left, right) =>
      var s := Partition(preds, lt, rt);
      JoinSettled(env, p, preds);
      AimedNeverHits(env, left, s.left);
      AimedNeverHits(env, right, s.right);
      assert !Misses(env, p, s.remain);
    case Scan(_) =>
    case Opaque(_, _, children) =>
      forall i | 0 <= i < |children| ensures !Hits(env, children[i], []) {
        NothingSettled(env, children[i]);
        AimedNeverHits(env, children[i], []);
      }
  }

  lemma SameFits(env: Env, p: Plan, q: Plan)
    requires OutColumns(env, p) == OutColumns(env, q)
    ensures forall e :: Fits(env, p, e) <==> Fits(env, q, e)
  {
  }

  // ---- null tests below joins ----

  /** The columns under unary operators. */
  function Tested(e: Expr): set<int> {
    match e
    case Binary(_, l, r) => Tested(l) + Tested(r)
    case Unary(_, x) => Columns(x)
    case _ => {}
  }

  /** Besides the tested columns' NULL bits, an expression only reads values. */
  lemma {:induction false} EvalBits(e: Expr, row: Row)
    requires forall c :: c in Tested(e) && c in row ==> row[c].valid
    ensures Eval(e, AllValid(row)) == Eval(e, row)
    ensures IsStringOperand(e, AllValid(row)) == IsStringOperand(e, row)
    ensures EvalString(e, AllValid(row)) == EvalString(e, row)
  {
    match e
    case Binary(op, l, r) =>
      EvalBits(l, row);
      EvalBits(r, row);
    case Unary(op, x) =>
      if x.Column? { assert x.col in Tested(e); }
    case _ =>
  }

  /** The predicate holds of each row with the bits below the joins exactly if it holds of the row as emitted. */
  ghost predicate Indifferent(e: Expr, rows: Rows) {
    forall i :: 0 <= i < |rows| ==> (Sat(e, rows[i]) <==> Sat(e, AllValid(rows[i])))
  }

  lemma NoNullsIndifferent(e: Expr, rows: Rows)
    requires forall i, c :: 0 <= i < |rows| && c in Tested(e) && c in rows[i] ==> rows[i][c].valid
    ensures Indifferent(e, rows)
  {
    forall i | 0 <= i < |rows| ensures Sat(e, rows[i]) <==> Sat(e, AllValid(rows[i])) {
      EvalBits(e, rows[i]);
    }
  }

  /** No conjunct that is sent below all joins under its filter has a unary operator, or it tests columns
      without a NULL among the pairs the joins find. */
  ghost predicate Steady(env: Env, p: Plan)
    decreases p
  {
    match p
    case Scan(_) => true
    case Filter(cond, child) =>
      && Steady(env, child)
      && forall e :: e in SplitAnd(cond) && Joined(child) && Deep(child, e) && Traced(env, child).Ok? ==>
           SeesNoNull(e, Traced(env, child).value)
    case Project(_, child) => Steady(env, child)
    case Join(_, _, _, _, left, right) => Steady(env, left) && Steady(env, right)
    case Opaque(_, _, children) => forall i :: 0 <= i < |children| ==> Steady(env, children[i])
  }

  ghost predicate SeesNoNull(e: Expr, rows: Rows) {
    Tested(e) == {} || forall i, c :: 0 <= i < |rows| && c in Tested(e) && c in rows[i] ==> rows[i][c].valid
  }

  /** A plan whose pushed null tests meet no NULL denotes what its traced rows show. */
  lemma {:induction false} SteadyTraced(env: Env, p: Plan)
    requires EnvOk(env) && WellFormed(env, p) && Steady(env, p)
    ensures Denote(env, p) == Shown(p, Traced(env, p))
    decreases p
  {
    hide LooksAt, NumericOk, Select;
    match p
    case Scan(t) =>
    case Filter(cond, child) =>
      SteadyTraced(env, child);
      if Traced(env, child).Ok? {
        TracedShaped(env, child);
        SteadyFilter(env, cond, child, Traced(env, child).value);
      }
    case Project(cols, child) =>
      SteadyTraced(env, child);
      if Traced(env, child).Ok? {
        var rows := Traced(env, child).value;
        TracedShaped(env, child);
        SelectNone(rows);
        ProjectedRows(env, cols, child, rows, []);
      }
    case Join(lt, rt, lk, rk, left, right) =>
      SteadyTraced(env, left);
      SteadyTraced(env, right);
      if Traced(env, left).Ok? && Traced(env, right).Ok? { SteadyJoin(env, p); }
    case Opaque(kind, outs, children) =>
      forall i | 0 <= i < |children| ensures Denote(env, children[i]) == Shown(children[i], Traced(env, children[i])) {
        SteadyTraced(env, children[i]);
      }
      OpaqueSameRows(env, kind, outs, children, children);
  }

  lemma SteadyJoin(env: Env, p: Plan)
    requires EnvOk(env) && p.Join? && WellFormed(env, p) && Traced(env, p.left).Ok? && Traced(env, p.right).Ok?
    requires Denote(env, p.left) == Shown(p.left, Traced(env, p.left))
    requires Denote(env, p.right) == Shown(p.right, Traced(env, p.right))
    ensures Denote(env, p) == Shown(p, Traced(env, p))
  {
    DenoteShaped(env, p.left);
    DenoteShaped(env, p.right);
    HasShaped(Denote(env, p.left).value, OutColumns(env, p.left), p.leftKeys, env.texts);
    HasShaped(Denote(env, p.right).value, OutColumns(env, p.right), p.rightKeys, env.texts);
    ShownJoin(p, Traced(env, p.left).value, Traced(env, p.right).value);
  }

  lemma SteadyFilter(env: Env, cond: Expr, child: Plan, rows: Rows)
    requires NumericOk(cond, OutColumns(env, child), env.texts) && AllShaped(rows, OutColumns(env, child), env.texts)
    requires forall e :: e in SplitAnd(cond) && Joined(child) && Deep(child, e) ==> SeesNoNull(e, rows)
    ensures var shown := Shown(child, Ok(rows)).value;
      Keep(cond, shown) == Shown(child, Ok(Select(LooksAt(child, SplitAnd(cond)), rows)))
  {
    var shown, es := Shown(child, Ok(rows)).value, SplitAnd(cond);
    ShownShaped(child, Ok(rows), OutColumns(env, child), env.texts);
    KeepSelects(cond, shown, OutColumns(env, child), env.texts);
    SplitSelects(cond, shown);
    if Joined(child) { SelectEmitted(es, rows); }
    forall i | 0 <= i < |rows|
      ensures AllHold(Looks(es, !Joined(child)), rows[i]) <==> AllHold(LooksAt(child, es), rows[i])
    {
      LookAnyway(child, es, rows, i);
    }
    SelectSame(Looks(es, !Joined(child)), LooksAt(child, es), rows);
  }

  lemma LookAnyway(child: Plan, es: seq<Expr>, rows: Rows, i: nat)
    requires i < |rows| && forall e :: e in es && Joined(child) && Deep(child, e) ==> SeesNoNull(e, rows)
    ensures AllHold(Looks(es, !Joined(child)), rows[i]) <==> AllHold(LooksAt(child, es), rows[i])
  {
    LooksAtHas(child, es);
    LooksHold(es, !Joined(child), rows[i]);
    forall e | e in es
      ensures Holds(Look(e, !Joined(child)), rows[i]) <==> Holds(Look(e, Deep(child, e)), rows[i])
    {
      if !Joined(child) {
        NotJoinedDeep(child, e);
      } else if Deep(child, e) {
        NoNullsIndifferent(e, rows);
      }
    }
    if AllHold(LooksAt(child, es), rows[i]) {
      forall e | e in es ensures Holds(Look(e, Deep(child, e)), rows[i]) {
        assert Look(e, Deep(child, e)) in LooksAt(child, es);
      }
    }
  }

  lemma SplitSelects(cond: Expr, rows: Rows)
    ensures Select(Looks([cond], true), rows) == Select(Looks(SplitAnd(cond), true), rows)
  {
    forall i | 0 <= i < |rows|
      ensures AllHold(Looks([cond], true), rows[i]) <==> AllHold(Looks(SplitAnd(cond), true), rows[i])
    {
      SplitSat(cond, rows[i]);
      LooksHold([cond], true, rows[i]);
      LooksHold(SplitAnd(cond), true, rows[i]);
      assert AllSat([cond], rows[i]) <==> Sat(cond, rows[i]);
    }
    SelectSame(Looks([cond], true), Looks(SplitAnd(cond), true), rows);
  }

  /** With well-aimed predicates, and null tests below joins only where there is no NULL, the optimizer returns
      a plan with the same rows in the same order. */
  lemma OptimizeSame(env: Env, p: Plan)
    requires EnvOk(env) && WellFormed(env, p) && Aimed(env, FoldPlan(p), []) && Steady(env, FoldPlan(p))
    ensures Denote(env, Optimize(p)) == Denote(env, p)
  {
    FoldedSettled(env, p);
    AimedNeverHits(env, FoldPlan(p), []);
    OptimizeIs(env, p);
    SteadyTraced(env, FoldPlan(p));
    FoldPlanSame(env, p);
  }

  // ---- which predicates are well aimed ----

  /** Without unary operators, the collected references cover every column. */
  lemma {:induction false} ColumnTables(env: Env, e: Expr, c: int)
    requires Tabled(env, e) && NoUnary(e) && c in Columns(e)
    ensures exists t :: t in TableRefs(e) && t in env.schema && c in env.schema[t]
  {
    match e
    case Column(t, _) => assert t in TableRefs(e);
    case Binary(_, l, r) =>
      if c in Columns(l) {
        ColumnTables(env, l, c);
        var t :| t in TableRefs(l) && t in env.schema && c in env.schema[t];
        assert t in TableRefs(e);
      } else {
        ColumnTables(env, r, c);
        var t :| t in TableRefs(r) && t in env.schema && c in env.schema[t];
        assert t in TableRefs(e);
      }
  }

  /** A predicate that refers only to tables of one input reads only that input's columns. */
  lemma SideColumns(env: Env, e: Expr, tables: seq<int>, near: Plan, far: Plan)
    requires EnvOk(env) && WellFormed(env, near) && WellFormed(env, far) && ScanTables(near) !! ScanTables(far)
    requires (forall t :: t in tables ==> t in ScanTables(near)) && OnlyRefs(e, tables)
    requires Tabled(env, e) && NoUnary(e) && Columns(e) <= OutColumns(env, near) + OutColumns(env, far)
    ensures Columns(e) <= OutColumns(env, near)
  {
    forall c | c in Columns(e) ensures c in OutColumns(env, near) {
      ColumnTables(env, e, c);
      if c in OutColumns(env, far) { ColumnsOwned(env, far, c); }
    }
  }
}
