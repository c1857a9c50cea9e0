/** Expressions: the type checker that picks operator functions, the evaluator that runs them, and what
    the one promises about the other. */
module Expr {
  import opened Types
  import opened Schema
  import opened Codec

  datatype BinOp = EQ | NEQ | GT | GE | LT | LE | PLUS | MINUS | MULT | DIV | AND | OR

  /** The op_func pointer: unset, or the function for one operand type and operator. */
  datatype OpFunc = NoFunc | Func(ty: BType, op: BinOp)

  datatype Expr = Lit(d: Datum) | Ident(name: CString) | Bin(op: BinOp, fn: OpFunc, lhs: Expr, rhs: Expr)

  // ----- CheckType

  /** The type and the annotated tree, or Panic on an operator the operand type does not have. */
  datatype Checked = Checked(ty: BType, expr: Expr) | Panicked

  /** The last table of the join list that has the column decides, by its first match. */
  function IdentType(tables: seq<seq<ColDesc>>, name: CString): BType {
    if tables == [] then T_UNKNOWN else
      var last := tables[|tables| - 1];
      if ColIdx(last, name) < |last| then last[ColIdx(last, name)].ty else IdentType(tables[..|tables| - 1], name)
  }

  predicate IsComparison(op: BinOp) {
    op.EQ? || op.NEQ? || op.GT? || op.GE? || op.LT? || op.LE?
  }

  predicate HasOp(ty: BType, op: BinOp) {
    match ty
    case T_BOOL => IsComparison(op) || op.AND? || op.OR?
    case T_STRING => IsComparison(op)
    case T_INT => IsComparison(op) || op.PLUS? || op.MINUS? || op.MULT? || op.DIV?
    case _ => false
  }

  function ResultType(op: BinOp): BType {
    if op.PLUS? || op.MINUS? || op.MULT? || op.DIV? then T_INT else T_BOOL
  }

  function CheckType(e: Expr, tables: seq<seq<ColDesc>>): Checked {
    match e
    case Lit(d) => Checked(TypeOf(d), e)
    case Ident(name) => Checked(IdentType(tables, name), e)
    case Bin(op, fn, lhs, rhs) =>
      var l, r := CheckType(lhs, tables), CheckType(rhs, tables);
      if l.Panicked? || r.Panicked? then Panicked else
        var plain := Bin(op, fn, l.expr, r.expr);
        if l.ty == T_UNKNOWN || r.ty == T_UNKNOWN then Checked(T_UNKNOWN, plain)
        else if l.ty == T_NULL && r.ty == T_NULL then Checked(T_UNKNOWN, plain)
        else
          var ty := if l.ty == T_NULL then r.ty else l.ty;
          if HasOp(ty, op) then Checked(ResultType(op), Bin(op, Func(ty, op), l.expr, r.expr)) else Panicked
  }

  /** The named column of the last table that has it, its first of that name there. */
  lemma {:induction false} IdentTypeIs(tables: seq<seq<ColDesc>>, name: CString, i: nat, j: nat)
    requires i < |tables| && j < |tables[i]| && tables[i][j].name == name
    requires forall k :: 0 <= k < j ==> tables[i][k].name != name
    requires forall t, k :: i < t < |tables| && 0 <= k < |tables[t]| ==> tables[t][k].name != name
    ensures IdentType(tables, name) == tables[i][j].ty
  {
    if i < |tables| - 1 {
      IdentTypeIs(tables[..|tables| - 1], name, i, j);
    }
  }

  lemma {:induction false} IdentTypeNone(tables: seq<seq<ColDesc>>, name: CString)
    requires forall t, k :: 0 <= t < |tables| && 0 <= k < |tables[t]| ==> tables[t][k].name != name
    ensures IdentType(tables, name) == T_UNKNOWN
  {
    if tables != [] {
      IdentTypeNone(tables[..|tables| - 1], name);
    }
  }

  /** Which operations are accepted, and as what. A null literal takes the type of the other side; comparisons
      are there for all types, AND and OR for bool, arithmetic for int; any other operator panics. */
  lemma CheckedOperation(op: BinOp, fn: OpFunc, lhs: Expr, rhs: Expr, tables: seq<seq<ColDesc>>)
    ensures var l, r, whole := CheckType(lhs, tables), CheckType(rhs, tables), CheckType(Bin(op, fn, lhs, rhs), tables);
            && (l == Panicked || r == Panicked ==> whole == Panicked)
            && (l.Checked? && r.Checked? ==>
                  var ty := if l.ty == T_NULL then r.ty else l.ty;
                  && (l.ty == T_UNKNOWN || r.ty == T_UNKNOWN || ty == T_NULL ==>
                        whole.Checked? && whole.ty == T_UNKNOWN)
                  && (l.ty != T_UNKNOWN && r.ty != T_UNKNOWN && ty != T_NULL ==>
                        whole ==
                        match op
                        case PLUS | MINUS | MULT | DIV =>
                          if ty == T_INT then Checked(T_INT, Bin(op, Func(ty, op), l.expr, r.expr)) else Panicked
                        case AND | OR =>
                          if ty == T_BOOL then Checked(T_BOOL, Bin(op, Func(ty, op), l.expr, r.expr)) else Panicked
                        case EQ | NEQ | GT | GE | LT | LE =>
                          Checked(T_BOOL, Bin(op, Func(ty, op), l.expr, r.expr))))
  {
  }

  lemma CheckedLeaf(d: Datum, name: CString, tables: seq<seq<ColDesc>>)
    ensures CheckType(Lit(d), tables) == Checked(TypeOf(d), Lit(d))
    ensures CheckType(Ident(name), tables) == Checked(IdentType(tables, name), Ident(name))
  {
  }

  // ----- EvalExpr

  /** A value; AssertFails where the program aborts; Undefined where C leaves the result open (int32
      overflow, division by zero). */
  datatype Value = Val(d: Datum) | AssertFails | Undefined

  function IntValue(v: int): Value {
    if -INT32_LIMIT <= v < INT32_LIMIT then Val(IntD(v)) else Undefined
  }

  function Abs(x: int): nat {
    if x < 0 then -x else x
  }

  /** C division truncates toward zero. */
  function Truncated(a: int, b: int): int
    requires b != 0
  {
    var q := Abs(a) / Abs(b);
    if (a < 0) == (b < 0) then q else -q
  }

  function Compare(op: BinOp, less: bool, greater: bool): Value {
    match op
    case EQ => Val(BoolD(!less && !greater))
    case NEQ => Val(BoolD(less || greater))
    case GT => Val(BoolD(greater))
    case GE => Val(BoolD(!less))
    case LT => Val(BoolD(less))
    case LE => Val(BoolD(!greater))
    case _ => AssertFails
  }

  /** The functions of types.c: each asserts the types of both operands. */
  function Apply(fn: OpFunc, a: Datum, b: Datum): Value {
    match fn
    case NoFunc => AssertFails
    case Func(ty, op) =>
      if TypeOf(a) != ty || TypeOf(b) != ty then AssertFails
      else match a
        case NullD => AssertFails
        case StrD(s) => Compare(op, StrLess(s, b.s), StrLess(b.s, s))
        case BoolD(p) =>
          (match op
           case AND => Val(BoolD(p && b.b))
           case OR => Val(BoolD(p || b.b))
           case _ => Compare(op, !p && b.b, p && !b.b))
        case IntD(i) =>
          (match op
           case PLUS => IntValue(i + b.i)
           case MINUS => IntValue(i - b.i)
           case MULT => IntValue(i * b.i)
           case DIV => if b.i == 0 then Undefined else IntValue(Truncated(i, b.i))
           case _ => Compare(op, i < b.i, i > b.i))
  }

  function EvalExpr(e: Expr, row: Row, cols: seq<ColDesc>): Value {
    match e
    case Lit(d) => Val(d)
    case Ident(name) =>
      var i := ColIdx(cols, name);
      if i < |cols| && i < |row| then Val(row[i]) else AssertFails
    case Bin(op, fn, lhs, rhs) =>
      var l, r := EvalExpr(lhs, row, cols), EvalExpr(rhs, row, cols);
      if !l.Val? then l
      else if !r.Val? then r
      else if l.d == NullD || r.d == NullD then Val(NullD)
      else Apply(fn, l.d, r.d)
  }

  // ----- what the checker promises

  /** At every operator the operand types agree, a null literal agreeing with anything. */
  ghost predicate OperandsAgree(e: Expr, tables: seq<seq<ColDesc>>) {
    match e
    case Bin(op, fn, lhs, rhs) =>
      && OperandsAgree(lhs, tables) && OperandsAgree(rhs, tables)
      && var l, r := CheckType(lhs, tables), CheckType(rhs, tables);
         l.Checked? && r.Checked? && (l.ty == T_NULL || r.ty == T_NULL || l.ty == r.ty)
    case _ => true
  }

  /** Every column the expression names has, where it is evaluated, the type the checker saw. */
  ghost predicate NamesResolve(e: Expr, tables: seq<seq<ColDesc>>, cols: seq<ColDesc>) {
    match e
    case Lit(_) => true
    case Ident(name) =>
      IdentType(tables, name) != T_UNKNOWN ==>
        ColIdx(cols, name) < |cols| && cols[ColIdx(cols, name)].ty == IdentType(tables, name)
    case Bin(_, _, lhs, rhs) => NamesResolve(lhs, tables, cols) && NamesResolve(rhs, tables, cols)
  }

  /** Some literal or column the expression reads is null. */
  ghost predicate HasNullLeaf(e: Expr, row: Row, cols: seq<ColDesc>) {
    match e
    case Lit(d) => d == NullD
    case Ident(name) => ColIdx(cols, name) < |row| && row[ColIdx(cols, name)] == NullD
    case Bin(_, _, lhs, rhs) => HasNullLeaf(lhs, row, cols) || HasNullLeaf(rhs, row, cols)
  }

  lemma ApplySound(ty: BType, op: BinOp, a: Datum, b: Datum)
    requires HasOp(ty, op) && TypeOf(a) == ty && TypeOf(b) == ty
    ensures Apply(Func(ty, op), a, b) != AssertFails
    ensures Apply(Func(ty, op), a, b).Val? ==> TypeOf(Apply(Func(ty, op), a, b).d) == ResultType(op)
  {
    hide StrLess, Truncated;
  }

  /** On operands of the type it was picked for, every comparison says what the order of datums says, with
      equality being equality of values; AND and OR are the connectives. */
  lemma OperatorMeaning(ty: BType, op: BinOp, a: Datum, b: Datum)
    requires HasOp(ty, op) && TypeOf(a) == ty && TypeOf(b) == ty
    ensures IsComparison(op) ==>
              Apply(Func(ty, op), a, b) == Val(BoolD(
                match op
                case EQ => a == b
                case NEQ => a != b
                case GT => Gt(a, b)
                case GE => Gt(a, b) || a == b
                case LT => Gt(b, a)
                case _ => Gt(b, a) || a == b))
    ensures op.AND? ==> Apply(Func(ty, op), a, b) == Val(BoolD(a == BoolD(true) && b == BoolD(true)))
    ensures op.OR? ==> Apply(Func(ty, op), a, b) == Val(BoolD(a == BoolD(true) || b == BoolD(true)))
  {
    hide StrLess, Truncated;
    GtOrder();
    if a.StrD? {
      if !Gt(a, b) && !Gt(b, a) {
        GtAntisymmetric(a, b);
      }
    }
  }

  predicate InInt32(v: int) {
    -INT32_LIMIT <= v < INT32_LIMIT
  }

  /** Arithmetic has a value exactly where int32 can hold the result, and that is then the result; division
      truncates toward zero, and lacks a value exactly for divisor 0 and for the smallest int over -1. */
  lemma ArithmeticMeaning(a: Int32, b: Int32)
    ensures var v := Apply(Func(T_INT, PLUS), IntD(a), IntD(b)); v.Val? <==> InInt32(a + b)
    ensures var v := Apply(Func(T_INT, PLUS), IntD(a), IntD(b)); v.Val? ==> v.d == IntD(a + b)
    ensures var v := Apply(Func(T_INT, MINUS), IntD(a), IntD(b)); v.Val? <==> InInt32(a - b)
    ensures var v := Apply(Func(T_INT, MINUS), IntD(a), IntD(b)); v.Val? ==> v.d == IntD(a - b)
    ensures var v := Apply(Func(T_INT, MULT), IntD(a), IntD(b)); v.Val? <==> InInt32(a * b)
    ensures var v := Apply(Func(T_INT, MULT), IntD(a), IntD(b)); v.Val? ==> v.d == IntD(a * b)
    ensures var v := Apply(Func(T_INT, DIV), IntD(a), IntD(b)); v.Val? <==> b != 0 && !(a == -INT32_LIMIT && b == -1)
    ensures var v := Apply(Func(T_INT, DIV), IntD(a), IntD(b)); v.Val? ==> Remainder(a, b, a - b * v.d.i)
  {
    if b != 0 {
      TruncatedMeaning(a, b);
      TruncatedRange(a, b);
    }
  }

  lemma TruncatedRange(a: Int32, b: Int32)
    requires b != 0
    ensures InInt32(Truncated(a, b)) <==> !(a == -INT32_LIMIT && b == -1)
  {
    hide Truncated;
    TruncatedIs(a, b);
    QuotientRange(Abs(a), Abs(b));
  }

  lemma QuotientRange(m: int, n: int)
    requires m >= 0 && n > 0
    ensures 0 <= m / n && (n == 1 ==> m / n == m) && (n >= 2 ==> 2 * (m / n) <= m)
  {
    var q := m / n;
    DivideNat(m, n);
    if n >= 2 {
      Doubled(n, q);
    }
  }

  lemma Doubled(n: int, q: int)
    requires n >= 2 && q >= 0
    ensures 2 * q <= n * q
  {
  }

  /** A remainder smaller than the divisor, with the sign of the dividend. */
  predicate Remainder(a: int, b: int, r: int) {
    Abs(r) < Abs(b) && (a >= 0 ==> r >= 0) && (a <= 0 ==> r <= 0)
  }

  lemma TruncatedMeaning(a: int, b: int)
    requires b != 0
    ensures Remainder(a, b, a - b * Truncated(a, b))
  {
    hide Truncated;
    var m: int, n: int := Abs(a), Abs(b);
    var q := m / n;
    DivideNat(m, n);
    Signs(n, q);
    TruncatedIs(a, b);
    if b < 0 {
      assert b == -n;
    } else {
      assert b == n;
    }
  }

  lemma TruncatedIs(a: int, b: int)
    requires b != 0
    ensures Truncated(a, b) == if (a < 0) == (b < 0) then (Abs(a) as int) / Abs(b) else -((Abs(a) as int) / Abs(b))
  {
  }

  lemma Signs(n: int, q: int)
    ensures -n * q == -(n * q) && n * -q == -(n * q) && -n * -q == n * q
  {
  }

  lemma DivideNat(m: int, n: int)
    requires m >= 0 && n > 0
    ensures 0 <= m - n * (m / n) < n
  {
    assert m == n * (m / n) + m % n;
  }

  /** Type soundness: a checked expression whose operand types agree never trips an operator's type
      assertion; its value has the checked type, or is null, and it is null exactly when a leaf is. */
  lemma {:induction false} TypeSound(e: Expr, tables: seq<seq<ColDesc>>, row: Row, cols: seq<ColDesc>)
    requires CheckType(e, tables).Checked? && CheckType(e, tables).ty != T_UNKNOWN
    requires OperandsAgree(e, tables) && NamesResolve(e, tables, cols) && Conforms(row, ColTypes(cols))
    ensures var v := EvalExpr(CheckType(e, tables).expr, row, cols);
            && v != AssertFails
            && (v.Val? ==> (v.d == NullD || TypeOf(v.d) == CheckType(e, tables).ty))
            && (v.Val? ==> (v.d == NullD <==> HasNullLeaf(e, row, cols)))
  {
    match e
    case Lit(_) =>
    case Ident(_) =>
    case Bin(op, fn, lhs, rhs) =>
      hide Apply, HasOp, ResultType;
      TypeSound(lhs, tables, row, cols);
      TypeSound(rhs, tables, row, cols);
      var l, r := CheckType(lhs, tables), CheckType(rhs, tables);
      var a, b := EvalExpr(l.expr, row, cols), EvalExpr(r.expr, row, cols);
      if a.Val? && b.Val? && a.d != NullD && b.d != NullD {
        TypeOfNull(a.d);
        TypeOfNull(b.d);
        ApplySound(l.ty, op, a.d, b.d);
        ResultNotNull(op);
      }
  }

  /** Every column the expression names that is there where it is evaluated has the type the checker saw. */
  ghost predicate NamesMatch(e: Expr, tables: seq<seq<ColDesc>>, cols: seq<ColDesc>) {
    match e
    case Lit(_) => true
    case Ident(name) => ColIdx(cols, name) < |cols| ==> cols[ColIdx(cols, name)].ty == IdentType(tables, name)
    case Bin(_, _, lhs, rhs) => NamesMatch(lhs, tables, cols) && NamesMatch(rhs, tables, cols)
  }

  /** Without the side condition on operands: if a checked expression yields a value at all, it has the checked
      type or is null. */
  lemma {:induction false} ValueTyped(e: Expr, tables: seq<seq<ColDesc>>, row: Row, cols: seq<ColDesc>)
    requires CheckType(e, tables).Checked? && CheckType(e, tables).ty != T_UNKNOWN
    requires NamesMatch(e, tables, cols) && Conforms(row, ColTypes(cols))
    ensures var v := EvalExpr(CheckType(e, tables).expr, row, cols);
            v.Val? ==> v.d == NullD || TypeOf(v.d) == CheckType(e, tables).ty
  {
    match e
    case Lit(_) =>
    case Ident(_) =>
    case Bin(op, fn, lhs, rhs) =>
      hide Apply, HasOp, ResultType;
      var l, r := CheckType(lhs, tables), CheckType(rhs, tables);
      var a, b := EvalExpr(l.expr, row, cols), EvalExpr(r.expr, row, cols);
      if a.Val? && b.Val? && a.d != NullD && b.d != NullD {
        AppliedTyped(CheckType(e, tables).expr.fn, a.d, b.d);
      }
  }

  lemma AppliedTyped(fn: OpFunc, a: Datum, b: Datum)
    requires fn.Func? && HasOp(fn.ty, fn.op)
    ensures Apply(fn, a, b).Val? ==> TypeOf(Apply(fn, a, b).d) == ResultType(fn.op)
  {
    hide StrLess, Truncated;
  }

  lemma {:induction false} OwnNamesMatch(e: Expr, cols: seq<ColDesc>)
    ensures NamesMatch(e, [cols], cols) && NamesMatch(e, [cols], [])
  {
    hide ColIdx;
    if e.Bin? {
      OwnNamesMatch(e.lhs, cols);
      OwnNamesMatch(e.rhs, cols);
    } else if e.Ident? {
      assert IdentType([], e.name) == T_UNKNOWN;
    }
  }

  lemma TypeOfNull(d: Datum)
    ensures TypeOf(d) == T_NULL <==> d == NullD
  {
  }

  lemma ResultNotNull(op: BinOp)
    ensures ResultType(op) != T_NULL
  {
  }

  /** The side condition is needed: a checked expression in which operand types disagree somewhere never
      yields a value on a row with no nulls in it. */
  lemma {:induction false} DisagreementFails(e: Expr, tables: seq<seq<ColDesc>>, row: Row, cols: seq<ColDesc>)
    requires CheckType(e, tables).Checked? && CheckType(e, tables).ty != T_UNKNOWN
    requires !OperandsAgree(e, tables) && NamesResolve(e, tables, cols) && Conforms(row, ColTypes(cols))
    requires !HasNullLeaf(e, row, cols)
    ensures !EvalExpr(CheckType(e, tables).expr, row, cols).Val?
  {
    match e
    case Bin(op, fn, lhs, rhs) =>
      hide Compare, StrLess, Truncated, HasOp, IsComparison;
      if !OperandsAgree(lhs, tables) {
        DisagreementFails(lhs, tables, row, cols);
      } else if !OperandsAgree(rhs, tables) {
        DisagreementFails(rhs, tables, row, cols);
      } else {
        TypeSound(lhs, tables, row, cols);
        TypeSound(rhs, tables, row, cols);
      }
  }

  /** 1 + true is accepted as an int and then trips IntAdd's assertion. */
  lemma IntPlusBool()
    ensures var e := Bin(PLUS, NoFunc, Lit(IntD(1)), Lit(BoolD(true)));
            CheckType(e, []).Checked? && CheckType(e, []).ty == T_INT
              && EvalExpr(CheckType(e, []).expr, [], []) == AssertFails
  {
  }

  // ----- predicates

  /** The check every scan makes on its where clause: assert a bool datum, then test it. */
  datatype Test = Passes | Rejected | Stops

  function TestRow(where: Expr, row: Row, cols: seq<ColDesc>): Test {
    match EvalExpr(where, row, cols)
    case Val(BoolD(b)) => if b then Passes else Rejected
    case _ => Stops
  }

  datatype Where = NoWhere | Where(cond: Expr)

  function TestWhere(w: Where, row: Row, cols: seq<ColDesc>): Test {
    match w
    case NoWhere => Passes
    case Where(cond) => TestRow(cond, row, cols)
  }

  /** The where clause is true of the row, or there is none. */
  ghost predicate Satisfies(w: Where, row: Row, cols: seq<ColDesc>) {
    w.Where? ==> EvalExpr(w.cond, row, cols) == Val(BoolD(true))
  }

  ghost predicate Violates(w: Where, row: Row, cols: seq<ColDesc>) {
    w.Where? && EvalExpr(w.cond, row, cols) == Val(BoolD(false))
  }

  /** A row passes exactly if the clause is true of it, and is rejected exactly if it is false. */
  lemma TestMeaning(w: Where, row: Row, cols: seq<ColDesc>)
    ensures TestWhere(w, row, cols) == Passes <==> Satisfies(w, row, cols)
    ensures TestWhere(w, row, cols) == Rejected <==> Violates(w, row, cols)
  {
    hide EvalExpr;
  }

  /** A where clause the analyzer accepts stops the program exactly on the rows where one of its leaves
      is null or its arithmetic is undefined. */
  lemma WhereStopsExactly(where: Expr, tables: seq<seq<ColDesc>>, row: Row, cols: seq<ColDesc>)
    requires CheckType(where, tables).Checked? && CheckType(where, tables).ty == T_BOOL
    requires OperandsAgree(where, tables) && NamesResolve(where, tables, cols) && Conforms(row, ColTypes(cols))
    ensures TestRow(CheckType(where, tables).expr, row, cols) == Stops
            <==> HasNullLeaf(where, row, cols) || EvalExpr(CheckType(where, tables).expr, row, cols) == Undefined
  {
    hide CheckType, EvalExpr, OperandsAgree, NamesResolve, HasNullLeaf;
    TypeSound(where, tables, row, cols);
  }
}
