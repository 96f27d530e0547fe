/** Bound expressions and their evaluation on one row. */
module Expressions {
  import opened Common
  import opened LikeMatcher

  // ---- numbers ----

  /** A C++ double without rounding: a real, an infinity or not-a-number; zero has one sign. */
  datatype Num = Fin(v: real) | Inf(positive: bool) | NaN {

    predicate Zero() { Fin? && v == 0.0 }

    predicate Less(other: Num) {
      match (this, other)
      case (Fin(a), Fin(b)) => a < b
      case (Fin(_), Inf(pos)) => pos
      case (Inf(pos), Fin(_)) => !pos
      case (Inf(a), Inf(b)) => !a && b
      case _ => false
    }

    predicate Same(other: Num) { this != NaN && this == other }

    function Negated(): Num {
      match this
      case Fin(a) => Fin(-a)
      case Inf(pos) => Inf(!pos)
      case NaN => NaN
    }

    function Plus(other: Num): Num {
      match (this, other)
      case (Fin(a), Fin(b)) => Fin(a + b)
      case (Inf(a), Inf(b)) => if a == b then this else NaN
      case (Inf(_), Fin(_)) => this
      case (Fin(_), Inf(_)) => other
      case _ => NaN
    }

    function Minus(other: Num): Num { Plus(other.Negated()) }

    function Times(other: Num): Num {
      if NaN? || other.NaN? then NaN
      else if Fin? && other.Fin? then Fin(v * other.v)
      else if Zero() || other.Zero() then NaN
      else Inf(Positive() == other.Positive())
    }

    function Over(other: Num): Num {
      if NaN? || other.NaN? || (Inf? && other.Inf?) || (Zero() && other.Zero()) then NaN
      else if other.Inf? then Fin(0.0)
      else if Inf? || other.Zero() then Inf(if Inf? then positive == other.Positive() else Positive())
      else Fin(v / other.v)
    }

    predicate Positive() { (Fin? && v >= 0.0) || (Inf? && positive) }
  }

  const ONE: Num := Fin(1.0)
  const ZERO: Num := Fin(0.0)

  function Truth(b: bool): Num { if b then ONE else ZERO }

  // ---- expressions ----

  datatype Value =
    | NoValue
    | IntV(i: int)
    | BigIntV(b: int)
    | DoubleV(d: Num)
    | FloatV(f: Num)
    | CharV(c: int)
    | StringV(s: string)

  datatype BinaryOp =
    | ADD | SUB | MUL | DRI | EQ | NE | GT | GTE | LT | LTE | AND | OR | LIKE | NOT_LIKE | ILIKE | IN

  datatype UnaryOp = IS_NULL | NON_NULL

  datatype Expr =
    | Constant(val: Value)
    | Column(table: int, col: int)
    | Binary(op: BinaryOp, left: Expr, right: Expr)
    | Unary(uop: UnaryOp, operand: Expr)

  /** One row of a chunk: column id to cell, with the validity bit. */
  datatype Cell = NumCell(num: Num, valid: bool) | TextCell(text: string, valid: bool)

  type Row = map<int, Cell>

  /** An evaluation ends with a value or with an exception. */
  datatype Outcome<+T> = Ok(value: T) | Failed

  // ---- evaluation ----

  predicate Comparison(op: BinaryOp) { op in {EQ, NE, GT, GTE, LT, LTE} }

  predicate TextMatching(op: BinaryOp) { op in {LIKE, NOT_LIKE, ILIKE} }

  function ConstToDouble(v: Value): Outcome<Num> {
    match v
    case IntV(i) => Ok(Fin(i as real))
    case BigIntV(i) => Ok(Fin(i as real))
    case DoubleV(d) => Ok(d)
    case FloatV(f) => Ok(f)
    case CharV(c) => Ok(Fin(c as real))
    case _ => Failed
  }

  predicate IsStringOperand(e: Expr, row: Row) {
    match e
    case Column(_, c) => c in row && row[c].TextCell?
    case Constant(v) => v.StringV?
    case _ => false
  }

  function EvalString(e: Expr, row: Row): Outcome<string> {
    match e
    case Column(_, c) => if c in row && row[c].TextCell? then Ok(row[c].text) else Failed
    case Constant(v) => if v.StringV? then Ok(v.s) else Failed
    case _ => Failed
  }

  function CompareText(op: BinaryOp, l: string, r: string): Outcome<Num> {
    match op
    case EQ => Ok(Truth(l == r))
    case NE => Ok(Truth(l != r))
    case GT => Ok(Truth(TextLess(r, l)))
    case GTE => Ok(Truth(!TextLess(l, r)))
    case LT => Ok(Truth(TextLess(l, r)))
    case LTE => Ok(Truth(!TextLess(r, l)))
    case LIKE => Ok(Truth(Matches(l, r, false)))
    case NOT_LIKE => Ok(Truth(!Matches(l, r, false)))
    case ILIKE => Ok(Truth(Matches(l, r, true)))
    case _ => Failed
  }

  function Calculate(op: BinaryOp, l: Num, r: Num): Outcome<Num> {
    match op
    case AND => Ok(Truth(!l.Zero() && !r.Zero()))
    case OR => Ok(Truth(!l.Zero() || !r.Zero()))
    case GT => Ok(Truth(r.Less(l)))
    case GTE => Ok(Truth(r.Less(l) || l.Same(r)))
    case LT => Ok(Truth(l.Less(r)))
    case LTE => Ok(Truth(l.Less(r) || l.Same(r)))
    case EQ => Ok(Truth(l.Same(r)))
    case NE => Ok(Truth(!l.Same(r)))
    case ADD => Ok(l.Plus(r))
    case SUB => Ok(l.Minus(r))
    case MUL => Ok(l.Times(r))
    case DRI => Ok(l.Over(r))
    case _ => Failed
  }

  function Eval(e: Expr, row: Row): Outcome<Num> {
    match e
    case Constant(v) => ConstToDouble(v)
    case Column(_, c) => if c in row && row[c].NumCell? then Ok(row[c].num) else Failed
    case Binary(op, l, r) =>
      if (Comparison(op) || TextMatching(op)) && (IsStringOperand(l, row) || IsStringOperand(r, row)) then
        var a, b := EvalString(l, row), EvalString(r, row);
        if a.Ok? && b.Ok? then CompareText(op, a.value, b.value) else Failed
      else
        var a, b := Eval(l, row), Eval(r, row);
        if a.Ok? && b.Ok? then Calculate(op, a.value, b.value) else Failed
    case Unary(op, x) =>
      if x.Column? && x.col in row then Ok(Truth(row[x.col].valid == (op == NON_NULL))) else Failed
  }

  /** Anything but zero is true. */
  function EvalPredicate(e: Expr, row: Row): Outcome<bool> {
    var v := Eval(e, row);
    if v.Ok? then Ok(!v.value.Zero()) else Failed
  }

  // ---- what the operators compute ----

  /** Comparing two numbers gives 1 or 0, as the numbers compare. */
  lemma NumbersCompared(l: Expr, r: Expr, row: Row, a: real, b: real)
    requires Eval(l, row) == Ok(Fin(a)) && Eval(r, row) == Ok(Fin(b))
    ensures Eval(Binary(GT, l, r), row) == Ok(Fin(if a > b then 1.0 else 0.0))
    ensures Eval(Binary(GTE, l, r), row) == Ok(Fin(if a >= b then 1.0 else 0.0))
    ensures Eval(Binary(LT, l, r), row) == Ok(Fin(if a < b then 1.0 else 0.0))
    ensures Eval(Binary(LTE, l, r), row) == Ok(Fin(if a <= b then 1.0 else 0.0))
    ensures Eval(Binary(EQ, l, r), row) == Ok(Fin(if a == b then 1.0 else 0.0))
    ensures Eval(Binary(NE, l, r), row) == Ok(Fin(if a != b then 1.0 else 0.0))
  {
    NumbersAreNoTexts(l, r, row);
  }

  /** Arithmetic on two numbers; dividing by zero gives the infinity of the dividend's sign, or no number for zero. */
  lemma NumbersCalculated(l: Expr, r: Expr, row: Row, a: real, b: real)
    requires Eval(l, row) == Ok(Fin(a)) && Eval(r, row) == Ok(Fin(b))
    ensures Eval(Binary(ADD, l, r), row) == Ok(Fin(a + b))
    ensures Eval(Binary(SUB, l, r), row) == Ok(Fin(a - b))
    ensures Eval(Binary(MUL, l, r), row) == Ok(Fin(a * b))
    ensures b != 0.0 ==> Eval(Binary(DRI, l, r), row) == Ok(Fin(a / b))
    ensures b == 0.0 && a != 0.0 ==> Eval(Binary(DRI, l, r), row) == Ok(Inf(a > 0.0))
    ensures b == 0.0 && a == 0.0 ==> Eval(Binary(DRI, l, r), row) == Ok(NaN)
  {
    hide Eval, Num.Times, Num.Over;
    forall op | op in {ADD, SUB, MUL, DRI} ensures Eval(Binary(op, l, r), row) == Calculate(op, Fin(a), Fin(b)) {
      OnNumbers(op, l, r, row);
    }
    NumbersMultiplied(a, b);
    NumbersDivided(a, b);
  }

  lemma OnNumbers(op: BinaryOp, l: Expr, r: Expr, row: Row)
    requires Eval(l, row).Ok? && Eval(r, row).Ok?
    ensures Eval(Binary(op, l, r), row) == Calculate(op, Eval(l, row).value, Eval(r, row).value)
  {
    NumbersAreNoTexts(l, r, row);
  }

  lemma NumbersMultiplied(a: real, b: real)
    ensures Fin(a).Times(Fin(b)) == Fin(a * b)
  {
  }

  lemma NumbersDivided(a: real, b: real)
    ensures Fin(a).Over(Fin(b)) ==
      if b != 0.0 then Fin(a / b) else if a != 0.0 then Inf(a > 0.0) else NaN
  {
  }

  lemma NumbersAreNoTexts(l: Expr, r: Expr, row: Row)
    requires Eval(l, row).Ok? && Eval(r, row).Ok?
    ensures !IsStringOperand(l, row) && !IsStringOperand(r, row)
  {
  }

  /** Every finite number lies strictly between the two infinities, and an infinity equals only itself. */
  lemma InfinitiesCompared(l: Expr, r: Expr, row: Row, a: Num, up: bool)
    requires Eval(l, row) == Ok(a) && Eval(r, row) == Ok(Inf(up)) && a != NaN && a != Inf(up)
    ensures forall op :: op in {LT, LTE} ==> Eval(Binary(op, l, r), row) == Ok(Fin(if up then 1.0 else 0.0))
    ensures forall op :: op in {GT, GTE} ==> Eval(Binary(op, l, r), row) == Ok(Fin(if up then 0.0 else 1.0))
    ensures forall op :: op in {LT, LTE} ==> Eval(Binary(op, r, l), row) == Ok(Fin(if up then 0.0 else 1.0))
    ensures forall op :: op in {GT, GTE} ==> Eval(Binary(op, r, l), row) == Ok(Fin(if up then 1.0 else 0.0))
    ensures Eval(Binary(EQ, l, r), row) == Ok(Fin(0.0)) && Eval(Binary(NE, l, r), row) == Ok(Fin(1.0))
    ensures Eval(Binary(EQ, r, r), row) == Ok(Fin(1.0)) && Eval(Binary(LT, r, r), row) == Ok(Fin(0.0))
    ensures Eval(Binary(GTE, r, r), row) == Eval(Binary(LTE, r, r), row) == Ok(Fin(1.0))
  {
    hide Eval;
    forall op | Comparison(op)
      ensures Eval(Binary(op, l, r), row) == Calculate(op, a, Inf(up))
      ensures Eval(Binary(op, r, l), row) == Calculate(op, Inf(up), a)
      ensures Eval(Binary(op, r, r), row) == Calculate(op, Inf(up), Inf(up))
    {
      OnNumbers(op, l, r, row);
      OnNumbers(op, r, l, row);
      OnNumbers(op, r, r, row);
    }
  }

  /** What is not a number compares with nothing, itself included, and only differs; calculating with it stays so. */
  lemma NoNumberCompared(l: Expr, r: Expr, row: Row, op: BinaryOp)
    requires Eval(l, row).Ok? && Eval(r, row).Ok? && (Eval(l, row) == Ok(NaN) || Eval(r, row) == Ok(NaN))
    ensures Comparison(op) ==> Eval(Binary(op, l, r), row) == Ok(Fin(if op == NE then 1.0 else 0.0))
    ensures op in {ADD, SUB, MUL, DRI} ==> Eval(Binary(op, l, r), row) == Ok(NaN)
  {
    hide Eval;
    OnNumbers(op, l, r, row);
  }

  /** Texts compare by their first difference, a beginning of a text being before it, and match by LIKE's patterns. */
  lemma TextsCompared(l: Expr, r: Expr, row: Row, s: string, t: string)
    requires EvalString(l, row) == Ok(s) && EvalString(r, row) == Ok(t)
    ensures Eval(Binary(LT, l, r), row) == Ok(Fin(if TextBefore(s, t) then 1.0 else 0.0))
    ensures Eval(Binary(LTE, l, r), row) == Ok(Fin(if TextBefore(s, t) || s == t then 1.0 else 0.0))
    ensures Eval(Binary(GT, l, r), row) == Ok(Fin(if TextBefore(t, s) then 1.0 else 0.0))
    ensures Eval(Binary(GTE, l, r), row) == Ok(Fin(if TextBefore(t, s) || s == t then 1.0 else 0.0))
    ensures Eval(Binary(EQ, l, r), row) == Ok(Fin(if s == t then 1.0 else 0.0))
    ensures Eval(Binary(NE, l, r), row) == Ok(Fin(if s != t then 1.0 else 0.0))
    ensures '%' !in s ==> Eval(Binary(LIKE, l, r), row) == Ok(Fin(if Denotes(t, s, false) then 1.0 else 0.0))
    ensures '%' !in s ==> Eval(Binary(NOT_LIKE, l, r), row) == Ok(Fin(if Denotes(t, s, false) then 0.0 else 1.0))
    ensures '%' !in s ==> Eval(Binary(ILIKE, l, r), row) == Ok(Fin(if Denotes(t, s, true) then 1.0 else 0.0))
  {
    hide Eval, TextLess, TextBefore, Matches, Denotes;
    forall op | Comparison(op) || TextMatching(op) ensures Eval(Binary(op, l, r), row) == CompareText(op, s, t) {
      OnTexts(op, l, r, row);
    }
    TextLessIs(s, t);
    TextLessIs(t, s);
    TextOrder(s, t, s);
    if '%' !in s {
      MatchesDenotes(s, t, false);
      MatchesDenotes(s, t, true);
    }
  }

  lemma OnTexts(op: BinaryOp, l: Expr, r: Expr, row: Row)
    requires EvalString(l, row).Ok? && EvalString(r, row).Ok? && (Comparison(op) || TextMatching(op))
    ensures Eval(Binary(op, l, r), row) == CompareText(op, EvalString(l, row).value, EvalString(r, row).value)
  {
    assert IsStringOperand(l, row) && IsStringOperand(r, row);
  }

  /** Constants and columns: a number is its value as a real, NULL or not; only the null tests look at the bit. */
  lemma LeavesRead(t: int, c: int, i: int, x: real, s: string, row: Row)
    ensures Eval(Constant(IntV(i)), row) == Eval(Constant(BigIntV(i)), row) == Eval(Constant(CharV(i)), row)
    ensures Eval(Constant(IntV(i)), row) == Ok(Fin(i as real))
    ensures Eval(Constant(DoubleV(Fin(x))), row) == Eval(Constant(FloatV(Fin(x))), row) == Ok(Fin(x))
    ensures EvalString(Constant(StringV(s)), row) == Ok(s) && Eval(Constant(StringV(s)), row) == Failed
    ensures c in row && row[c].NumCell? ==>
      Eval(Column(t, c), row) == Ok(row[c].num) && EvalString(Column(t, c), row).Failed?
    ensures c in row && row[c].TextCell? ==>
      EvalString(Column(t, c), row) == Ok(row[c].text) && Eval(Column(t, c), row).Failed?
    ensures c in row ==> EvalPredicate(Unary(IS_NULL, Column(t, c)), row) == Ok(!row[c].valid)
    ensures c in row ==> EvalPredicate(Unary(NON_NULL, Column(t, c)), row) == Ok(row[c].valid)
    ensures c !in row ==> Eval(Column(t, c), row).Failed? && EvalString(Column(t, c), row).Failed?
    ensures c !in row ==> forall op :: EvalPredicate(Unary(op, Column(t, c)), row).Failed?
  {
  }

  /** AND and OR of two values, of which all but zero are true; both sides are evaluated. */
  lemma TruthCombined(l: Expr, r: Expr, row: Row)
    ensures var a, b := EvalPredicate(l, row), EvalPredicate(r, row);
      && EvalPredicate(Binary(AND, l, r), row) == (if a.Ok? && b.Ok? then Ok(a.value && b.value) else Failed)
      && EvalPredicate(Binary(OR, l, r), row) == (if a.Ok? && b.Ok? then Ok(a.value || b.value) else Failed)
    ensures Eval(l, row).Ok? ==> EvalPredicate(l, row) == Ok(Eval(l, row).value != Fin(0.0))
  {
  }

  // ---- which columns an expression reads ----

  function Columns(e: Expr): set<int> {
    match e
    case Constant(_) => {}
    case Column(_, c) => {c}
    case Binary(_, l, r) => Columns(l) + Columns(r)
    case Unary(_, x) => Columns(x)
  }

  predicate NoUnary(e: Expr) {
    match e
    case Binary(_, l, r) => NoUnary(l) && NoUnary(r)
    case Unary(_, _) => false
    case _ => true
  }

  /** Rows that agree on an expression's columns give it the same value or failure. */
  lemma {:induction false} EvalAgree(e: Expr, a: Row, b: Row)
    requires forall c :: c in Columns(e) ==> (c in a <==> c in b) && (c in a ==> a[c] == b[c])
    ensures Eval(e, a) == Eval(e, b)
  {
    match e
    case Binary(op, l, r) =>
      EvalAgree(l, a, b);
      EvalAgree(r, a, b);
    case Unary(op, x) =>
      if x.Column? { assert x.col in Columns(e); }
    case _ =>
  }

  /** A row that lacks a column of an expression makes its evaluation fail. */
  lemma {:induction false} EvalMissing(e: Expr, row: Row, c: int)
    requires c in Columns(e) && c !in row
    ensures Eval(e, row).Failed? && (EvalString(e, row).Failed?)
  {
    match e
    case Binary(op, l, r) =>
      if c in Columns(l) { EvalMissing(l, row, c); } else { EvalMissing(r, row, c); }
    case _ =>
  }
}
