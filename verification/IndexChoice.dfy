/** When PlanJoin replaces a sequential scan by an index scan, and for which operators that is sound. */
module IndexChoice {
  import opened Types
  import opened Schema
  import opened Codec
  import opened Expr
  import IndexChain
  import IndexMachine
  import IndexScan

  datatype ScanDir = Forward | Backwards

  /** The column, the literal it is compared with and the direction, if the where clause is that simple. */
  datatype Boundary = NoBoundary | Boundary(col: CString, key: Datum, dir: ScanDir)

  function BoundaryOf(cond: Expr): Boundary {
    if !cond.Bin? then NoBoundary
    else if cond.lhs.Ident? && cond.rhs.Lit? then
      Boundary(cond.lhs.name, cond.rhs.d, if cond.op.LT? || cond.op.LE? then Backwards else Forward)
    else if cond.rhs.Ident? && cond.lhs.Lit? then
      Boundary(cond.rhs.name, cond.lhs.d, if cond.op.GT? || cond.op.GE? then Backwards else Forward)
    else NoBoundary
  }

  /** There is a boundary exactly for a column on one side and a literal on the other, and the scan goes
      backwards from it exactly if the column has to be less. */
  lemma BoundaryExactly(cond: Expr)
    ensures BoundaryOf(cond) == NoBoundary
            <==> !(cond.Bin? && ((cond.lhs.Ident? && cond.rhs.Lit?) || (cond.lhs.Lit? && cond.rhs.Ident?)))
    ensures forall op, fn, name, k :: cond == Bin(op, fn, Ident(name), Lit(k)) ==>
              BoundaryOf(cond) == Boundary(name, k, if op in [LT, LE] then Backwards else Forward)
    ensures forall op, fn, name, k :: cond == Bin(op, fn, Lit(k), Ident(name)) ==>
              BoundaryOf(cond) == Boundary(name, k, if op in [GT, GE] then Backwards else Forward)
  {
  }

  /** Every clause found to be a range clause gets its forward scan. */
  lemma RangeIsForward(cond: Expr, tables: seq<seq<ColDesc>>, name: CString, k: Datum)
    requires CheckType(cond, tables).Checked? && CheckType(cond, tables).ty == T_BOOL
    requires IndexScan.RangeOn(CheckType(cond, tables).expr, name, k)
    ensures BoundaryOf(cond) == Boundary(name, k, Forward)
  {
    if cond.Bin? {
      CheckedOperator(cond, tables);
    }
  }

  datatype IndexDef = IndexDef(table: nat, indexTable: nat)

  /** A single-column index of the table on that column. */
  predicate Covers(def: IndexDef, tables: seq<TableDef>, table: nat, col: CString) {
    && def.table == table && def.indexTable < |tables|
    && |tables[def.indexTable].cols| == 1 && tables[def.indexTable].cols[0].name == col
  }

  lemma CoversExactly(def: IndexDef, tables: seq<TableDef>, table: nat, col: CString)
    ensures Covers(def, tables, table, col)
            <==> def.table == table && def.indexTable < |tables|
                 && exists ty :: tables[def.indexTable].cols == [ColDesc(col, ty)]
  {
    if def.indexTable < |tables| {
      var cols := tables[def.indexTable].cols;
      assert |cols| == 1 && cols[0].name == col ==> cols == [ColDesc(col, cols[0].ty)];
    }
  }

  /** The search over the index definitions: the first that covers the column. */
  method ChooseIndex(defs: seq<IndexDef>, tables: seq<TableDef>, table: nat, col: CString) returns (found: bool, i: nat)
    ensures found <==> exists j :: 0 <= j < |defs| && Covers(defs[j], tables, table, col)
    ensures found ==> i < |defs| && Covers(defs[i], tables, table, col) && forall j :: 0 <= j < i ==>
            !Covers(defs[j], tables, table, col)
  {
    i := 0;
    while i < |defs|
      invariant i <= |defs| && forall j :: 0 <= j < i ==> !Covers(defs[j], tables, table, col)
    {
      if defs[i].table == table {
        if defs[i].indexTable < |tables| {
          var cols := tables[defs[i].indexTable].cols;
          if |cols| == 1 && cols[0].name == col {
            return true, i;
          }
        }
      }
      i := i + 1;
    }
    return false, i;
  }

  /** A clause found boolean carries the function for its own operator. */
  lemma CheckedOperator(cond: Expr, tables: seq<seq<ColDesc>>)
    requires cond.Bin? && CheckType(cond, tables).Checked? && CheckType(cond, tables).ty == T_BOOL
    ensures var checked := CheckType(cond, tables).expr;
            checked.Bin? && checked.fn.Func? && checked.fn.op == checked.op == cond.op
    ensures IsComparison(cond.op) || cond.op.AND? || cond.op.OR?
    ensures CheckType(cond, tables).expr.lhs == cond.lhs || cond.lhs.Bin?
    ensures CheckType(cond, tables).expr.rhs == cond.rhs || cond.rhs.Bin?
  {
  }

  /** A forward scan is chosen for one of the range clauses, for which the index scan agrees with the filtered
      sequential scan, exactly if the operator is neither != nor OR with the constant true. */
  lemma ForwardIsRange(cond: Expr, tables: seq<seq<ColDesc>>)
    requires CheckType(cond, tables).Checked? && CheckType(cond, tables).ty == T_BOOL
    requires BoundaryOf(cond).Boundary? && BoundaryOf(cond).dir == Forward
    ensures IndexScan.RangeOn(CheckType(cond, tables).expr, BoundaryOf(cond).col, BoundaryOf(cond).key)
            <==> !cond.op.NEQ? && !(cond.op.OR? && BoundaryOf(cond).key == BoolD(true))
  {
    hide CheckType;
    CheckedOperator(cond, tables);
  }

  /** The planner takes the boundary key as it comes. It has a type the index scan can compare exactly if the
      operand types agree, which the checker does not ask for, and the literal is not null. */
  lemma BoundaryTypedExactly(cond: Expr, tables: seq<seq<ColDesc>>, cols: seq<ColDesc>)
    requires BoundaryOf(cond).Boundary? && NamesResolve(cond, tables, cols)
    requires CheckType(cond, tables).Checked? && CheckType(cond, tables).ty == T_BOOL
    requires var i := ColIdx(cols, BoundaryOf(cond).col); i < |cols| ==> cols[i].ty != T_NULL
    ensures var i, key := ColIdx(cols, BoundaryOf(cond).col), BoundaryOf(cond).key;
            && i < |cols|
            && (key != NullD && TypeOf(key) == cols[i].ty <==> OperandsAgree(cond, tables) && key != NullD)
            && (key != NullD && TypeOf(key) == cols[i].ty <==> forall nodes :: IndexScan.Starts(cols[i].ty, key, nodes))
  {
    hide ColIdx, IdentType;
    var key, ty := BoundaryOf(cond).key, cols[ColIdx(cols, BoundaryOf(cond).col)].ty;
    StartsExactly(ty, key);
    TypeOfNull(key);
  }

  lemma StartsExactly(kt: BType, k: Datum)
    ensures k != NullD && TypeOf(k) == kt <==> forall nodes :: IndexScan.Starts(kt, k, nodes)
  {
    var nodes: IndexChain.Nodes := [[], []];
    assert IndexMachine.Searched(nodes);
    if forall nodes :: IndexScan.Starts(kt, k, nodes) {
      assert IndexScan.Starts(kt, k, nodes);
    }
  }

  /** The planner does not exclude these two: there every row below the boundary, which the scan skips, passes. */
  lemma SkippedRowPasses(cond: Expr, row: Row, cols: seq<ColDesc>)
    requires BoundaryOf(cond).Boundary? && BoundaryOf(cond).dir == Forward
    requires cond.op.NEQ? || (cond.op.OR? && BoundaryOf(cond).key == BoolD(true))
    requires cond.fn == Func(TypeOf(BoundaryOf(cond).key), cond.op) && BoundaryOf(cond).key != NullD
    requires var i := ColIdx(cols, BoundaryOf(cond).col);
             i < |cols| == |row| && TypeOf(row[i]) == TypeOf(BoundaryOf(cond).key) && Gt(BoundaryOf(cond).key, row[i])
    ensures TestRow(cond, row, cols) == Passes
  {
    hide StrLess, Truncated, Apply, ColIdx;
    var key, d := BoundaryOf(cond).key, row[ColIdx(cols, BoundaryOf(cond).col)];
    GtOrder();
    Different(key, d);
    if cond.lhs.Ident? && cond.rhs.Lit? {
      AppliedTo(cond, d, key, row, cols);
    } else {
      AppliedTo(cond, key, d, row, cols);
    }
  }

  lemma Different(a: Datum, b: Datum)
    requires Gt(a, b)
    ensures a != b
  {
    GtOrder();
  }

  lemma AppliedTo(cond: Expr, a: Datum, b: Datum, row: Row, cols: seq<ColDesc>)
    requires cond.Bin? && EvalExpr(cond.lhs, row, cols) == Val(a) && EvalExpr(cond.rhs, row, cols) == Val(b) && a != b
    requires a != NullD && b != NullD && TypeOf(a) == TypeOf(b) && cond.fn == Func(TypeOf(a), cond.op)
    requires cond.op.NEQ? || (cond.op.OR? && (a == BoolD(true) || b == BoolD(true)))
    ensures TestRow(cond, row, cols) == Passes
  {
    hide Apply;
    OperatorMeaning(TypeOf(a), cond.op, a, b);
  }
}
