/** The constant-folding rule. */
module ConstantFolding {
  import opened LikeMatcher
  import opened Expressions
  import opened Plans

  function ToDouble(v: Value): Outcome<Num> {
    match v
    case IntV(i) => Ok(Fin(i as real))
    case DoubleV(d) => Ok(d)
    case FloatV(f) => Ok(f)
    case BigIntV(b) => Ok(Fin(b as real))
    case _ => Failed
  }

  function FoldArithmetic(op: BinaryOp, l: Num, r: Num): Outcome<Expr> {
    match op
    case ADD => Ok(Constant(DoubleV(l.Plus(r))))
    case SUB => Ok(Constant(DoubleV(l.Minus(r))))
    case MUL => Ok(Constant(DoubleV(l.Times(r))))
    case DRI => if r.Zero() then Failed else Ok(Constant(DoubleV(l.Over(r))))
    case _ => Failed
  }

  function Flag(b: bool): Expr { Constant(IntV(if b then 1 else 0)) }

  function FoldComparison(op: BinaryOp, l: Num, r: Num): Outcome<Expr> {
    match op
    case EQ => Ok(Flag(l.Same(r)))
    case NE => Ok(Flag(!l.Same(r)))
    case GT => Ok(Flag(r.Less(l)))
    case GTE => Ok(Flag(r.Less(l) || l.Same(r)))
    case LT => Ok(Flag(l.Less(r)))
    case LTE => Ok(Flag(l.Less(r) || l.Same(r)))
    case _ => Failed
  }

  function FoldStringComparison(op: BinaryOp, l: string, r: string): Outcome<Expr> {
    match op
    case EQ => Ok(Flag(l == r))
    case NE => Ok(Flag(l != r))
    case _ => Failed
  }

  /** Fold one operator over two constants, if a rule applies. */
  function FoldConstants(op: BinaryOp, lc: Value, rc: Value): Outcome<Expr> {
    var l, r := ToDouble(lc), ToDouble(rc);
    var numeric := if l.Failed? || r.Failed? then Failed
                   else if FoldArithmetic(op, l.value, r.value).Ok? then FoldArithmetic(op, l.value, r.value)
                   else FoldComparison(op, l.value, r.value);
    if numeric.Ok? then numeric
    else if lc.StringV? && rc.StringV? then FoldStringComparison(op, lc.s, rc.s)
    else Failed
  }

  function FoldExpr(e: Expr): Expr {
    match e
    case Binary(op, left, right) =>
      var l, r := FoldExpr(left), FoldExpr(right);
      var folded := if l.Constant? && r.Constant? then FoldConstants(op, l.val, r.val) else Failed;
      if folded.Ok? then folded.value else Binary(op, l, r)
    case _ => e
  }

  predicate IsConstantTrue(e: Expr) {
    e.Constant? &&
    match e.val
    case IntV(i) => i != 0
    case BigIntV(b) => b != 0
    case DoubleV(d) => !d.Zero()
    case FloatV(f) => !f.Zero()
    case _ => false
  }

  function FoldPlan(p: Plan): Plan {
    match p
    case Filter(cond, child) =>
      var c, e := FoldPlan(child), FoldExpr(cond);
      if IsConstantTrue(e) then c else Filter(e, c)
    case Project(cols, child) => Project(cols, FoldPlan(child))
    case Join(lt, rt, lk, rk, left, right) => Join(lt, rt, lk, rk, FoldPlan(left), FoldPlan(right))
    case Opaque(kind, outs, children) =>
      Opaque(kind, outs, seq(|children|, i requires 0 <= i < |children| => FoldPlan(children[i])))
    case Scan(_) => p
  }

  // ---- folding keeps every value and every failure ----

  lemma FoldConstantsEval(op: BinaryOp, lc: Value, rc: Value, row: Row)
    ensures var f := FoldConstants(op, lc, rc);
      f.Ok? ==>
        && f.value.Constant? && !f.value.val.StringV?
        && Eval(f.value, row) == Eval(Binary(op, Constant(lc), Constant(rc)), row)
  {
    var l, r := ToDouble(lc), ToDouble(rc);
    if l.Ok? && r.Ok? {
      FoldNumbersEval(op, lc, rc, l.value, r.value, row);
    } else if lc.StringV? && rc.StringV? {
      FoldTextsEval(op, lc.s, rc.s, row);
    }
  }

  lemma FoldNumbersEval(op: BinaryOp, lc: Value, rc: Value, l: Num, r: Num, row: Row)
    requires ToDouble(lc) == Ok(l) && ToDouble(rc) == Ok(r)
    ensures ConstToDouble(lc) == Ok(l) && ConstToDouble(rc) == Ok(r) && !lc.StringV? && !rc.StringV?
    ensures forall f :: f == FoldArithmetic(op, l, r) || f == FoldComparison(op, l, r) ==>
      (f.Ok? ==>
         && f.value.Constant? && !f.value.val.StringV?
         && Eval(f.value, row) == Eval(Binary(op, Constant(lc), Constant(rc)), row))
  {
    assert Eval(Constant(lc), row) == Ok(l) && Eval(Constant(rc), row) == Ok(r);
    assert !IsStringOperand(Constant(lc), row) && !IsStringOperand(Constant(rc), row);
    assert Eval(Binary(op, Constant(lc), Constant(rc)), row) == Calculate(op, l, r);
  }

  lemma FoldTextsEval(op: BinaryOp, l: string, r: string, row: Row)
    ensures var f := FoldStringComparison(op, l, r);
      f.Ok? ==>
        && f.value.Constant? && !f.value.val.StringV?
        && Eval(f.value, row) == Eval(Binary(op, Constant(StringV(l)), Constant(StringV(r))), row)
  {
    assert EvalString(Constant(StringV(l)), row) == Ok(l) && EvalString(Constant(StringV(r)), row) == Ok(r);
  }

  /** An operand keeps its value, its text and whether it counts as text. */
  ghost predicate SameOperand(a: Expr, b: Expr, row: Row) {
    && Eval(a, row) == Eval(b, row) && IsStringOperand(a, row) == IsStringOperand(b, row)
    && EvalString(a, row) == EvalString(b, row)
  }

  lemma SameOperands(op: BinaryOp, l: Expr, r: Expr, l': Expr, r': Expr, row: Row)
    requires SameOperand(l, l', row) && SameOperand(r, r', row)
    ensures SameOperand(Binary(op, l, r), Binary(op, l', r'), row)
  {
  }

  /** On every row the folded expression evaluates like the original, failures included. */
  lemma {:induction false} FoldExprSame(e: Expr, row: Row)
    ensures SameOperand(FoldExpr(e), e, row)
  {
    if e.Binary? {
      var l, r := FoldExpr(e.left), FoldExpr(e.right);
      FoldExprSame(e.left, row);
      FoldExprSame(e.right, row);
      SameOperands(e.op, l, r, e.left, e.right, row);
      if l.Constant? && r.Constant? {
        FoldConstantsEval(e.op, l.val, r.val, row);
      }
    }
  }

  lemma {:induction false} KeepFolded(e: Expr, rows: Rows)
    ensures Keep(FoldExpr(e), rows) == Keep(e, rows)
    ensures IsConstantTrue(FoldExpr(e)) ==> Keep(e, rows) == Ok(rows)
    decreases |rows|
  {
    if rows != [] {
      FoldExprSame(e, rows[0]);
      KeepFolded(e, rows[1..]);
      assert [rows[0]] + rows[1..] == rows;
    }
  }

  /** Folding a plan's predicates and dropping its constant-true filters keeps its rows, or its failure. */
  lemma {:induction false} FoldPlanSame(env: Env, p: Plan)
    ensures Denote(env, FoldPlan(p)) == Denote(env, p)
  {
    match p
    case Scan(_) =>
    case Filter(cond, child) =>
      FoldPlanSame(env, child);
      if Denote(env, child).Ok? { KeepFolded(cond, Denote(env, child).value); }
    case Project(cols, child) => FoldPlanSame(env, child);
    case Join(_, _, _, _, left, right) =>
      FoldPlanSame(env, left);
      FoldPlanSame(env, right);
    case Opaque(kind, outs, children) =>
      var folded := FoldPlan(p).children;
      forall i | 0 <= i < |children| ensures Denote(env, folded[i]) == Denote(env, children[i]) {
        FoldPlanSame(env, children[i]);
      }
      OpaqueSame(env, kind, outs, children, folded);
  }

  /** An opaque operator only depends on what its inputs denote. */
  lemma OpaqueSame(env: Env, kind: int, outs: set<int>, a: seq<Plan>, b: seq<Plan>)
    requires |a| == |b| && forall i :: 0 <= i < |a| ==> Denote(env, a[i]) == Denote(env, b[i])
    ensures Denote(env, Opaque(kind, outs, a)) == Denote(env, Opaque(kind, outs, b))
  {
    var p, q := Opaque(kind, outs, a), Opaque(kind, outs, b);
    var ins := seq(|p.children|, i requires 0 <= i < |p.children| => Denote(env, p.children[i]));
    var ins' := seq(|q.children|, i requires 0 <= i < |q.children| => Denote(env, q.children[i]));
    assert ins == ins';
  }

  // ---- what is folded ----

  /** Arithmetic and comparisons of numeric constants, without division by zero. */
  predicate Foldable(e: Expr) {
    match e
    case Constant(v) => v.IntV? || v.BigIntV? || v.DoubleV? || v.FloatV?
    case Binary(op, l, r) =>
      && Foldable(l) && Foldable(r)
      && (op in {ADD, SUB, MUL} || Comparison(op) || (op == DRI && Eval(r, map[]) != Ok(Fin(0.0))))
    case _ => false
  }

  /** Such an expression becomes one constant with its value. */
  lemma {:induction false} FoldsCompletely(e: Expr)
    requires Foldable(e)
    ensures FoldExpr(e).Constant? && Foldable(FoldExpr(e))
    ensures ToDouble(FoldExpr(e).val) == Eval(e, map[]) && Eval(e, map[]).Ok?
  {
    match e
    case Constant(_) =>
    case Binary(op, l, r) =>
      FoldsCompletely(l);
      FoldsCompletely(r);
      FoldExprSame(e, map[]);
      var a, b := FoldExpr(l).val, FoldExpr(r).val;
      ConstantsFold(op, a, b);
      var c := FoldConstants(op, a, b).value;
      assert FoldExpr(e) == c;
      assert ToDouble(c.val) == Eval(c, map[]);
  }

  lemma ConstantsFold(op: BinaryOp, a: Value, b: Value)
    requires ToDouble(a).Ok? && ToDouble(b).Ok?
    requires op in {ADD, SUB, MUL} || Comparison(op) || (op == DRI && ToDouble(b).value != Fin(0.0))
    ensures var f := FoldConstants(op, a, b);
      f.Ok? && f.value.Constant? && (f.value.val.DoubleV? || f.value.val.IntV?)
  {
  }

  /** A filter whose predicate folds to a true constant disappears from the plan. */
  lemma TrueFilterGoes(cond: Expr, child: Plan)
    requires Foldable(cond)
    ensures EvalPredicate(cond, map[]) == Ok(true) ==> FoldPlan(Filter(cond, child)) == FoldPlan(child)
    ensures EvalPredicate(cond, map[]) == Ok(false) ==>
      FoldPlan(Filter(cond, child)) == Filter(FoldExpr(cond), FoldPlan(child))
  {
    FoldsCompletely(cond);
  }

  // ---- folding keeps plans well formed ----

  lemma {:induction false} FoldTyped(env: Env, e: Expr, cols: set<int>)
    ensures NumericOk(e, cols, env.texts) ==> NumericOk(FoldExpr(e), cols, env.texts)
    ensures TextOk(e, cols, env.texts) ==> TextOk(FoldExpr(e), cols, env.texts)
    ensures Tabled(env, e) ==> Tabled(env, FoldExpr(e))
    ensures NoUnary(e) ==> NoUnary(FoldExpr(e))
  {
    if e.Binary? {
      FoldTyped(env, e.left, cols);
      FoldTyped(env, e.right, cols);
    }
  }

  lemma {:induction false} FoldKeepsShape(env: Env, p: Plan)
    ensures OutColumns(env, FoldPlan(p)) == OutColumns(env, p)
    ensures ScanTables(FoldPlan(p)) == ScanTables(p)
  {
    match p
    case Scan(_) =>
    case Filter(_, child) => FoldKeepsShape(env, child);
    case Project(_, child) => FoldKeepsShape(env, child);
    case Join(_, _, _, _, left, right) =>
      FoldKeepsShape(env, left);
      FoldKeepsShape(env, right);
    case Opaque(_, _, children) =>
      var folded := FoldPlan(p).children;
      forall i | 0 <= i < |children| ensures ScanTables(folded[i]) == ScanTables(children[i]) {
        FoldKeepsShape(env, children[i]);
      }
  }

  lemma {:induction false} FoldWellFormed(env: Env, p: Plan)
    requires WellFormed(env, p)
    ensures WellFormed(env, FoldPlan(p))
  {
    match p
    case Scan(_) =>
    case Filter(cond, child) =>
      FoldWellFormed(env, child);
      FoldKeepsShape(env, child);
      FoldTyped(env, cond, OutColumns(env, child));
    case Project(_, child) =>
      FoldWellFormed(env, child);
      FoldKeepsShape(env, child);
    case Join(_, _, _, _, left, right) =>
      FoldWellFormed(env, left);
      FoldWellFormed(env, right);
      FoldKeepsShape(env, left);
      FoldKeepsShape(env, right);
    case Opaque(_, outs, children) =>
      var folded := FoldPlan(p).children;
      forall i | 0 <= i < |children|
        ensures WellFormed(env, folded[i]) && OutColumns(env, folded[i]) == OutColumns(env, children[i])
      {
        FoldWellFormed(env, children[i]);
        FoldKeepsShape(env, children[i]);
      }
      forall c | c in outs ensures exists i :: 0 <= i < |folded| && c in OutColumns(env, folded[i]) {
        var i :| 0 <= i < |children| && c in OutColumns(env, children[i]);
        assert c in OutColumns(env, folded[i]);
      }
  }
}
