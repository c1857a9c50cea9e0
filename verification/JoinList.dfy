/** The analysis of a from clause: every table and every intermediate join gets a slot in the join list. */
module JoinList {
  import opened Types
  import opened Schema
  import opened Codec
  import opened Expr

  datatype JoinMethod = INNER | LEFT | RIGHT

  /** A from clause; index is its slot in the join list, set during analysis. */
  datatype From =
    | RangeVar(table: CString, index: nat)
    | Join(kind: JoinMethod, left: From, right: From, qual: Where, index: nat)

  /** FindTableDef: the number of definitions if there is none of that name. */
  function FindTable(defs: seq<TableDef>, name: CString): (i: nat)
    ensures i <= |defs| && (i < |defs| ==> defs[i].name == name)
  {
    if defs == [] || defs[0].name == name then 0 else 1 + FindTable(defs[1..], name)
  }

  function ColLists(list: seq<TableDef>): (r: seq<seq<ColDesc>>)
    ensures |r| == |list| && forall i :: 0 <= i < |r| ==> r[i] == list[i].cols
  {
    seq(|list|, i requires 0 <= i < |list| => list[i].cols)
  }

  function Glued(a: CString, b: CString): CString {
    a + b
  }

  /** The annotated clause, the grown list and the slot of the whole; a refused statement; or a panic in
      CheckType. */
  datatype Listed = Listed(node: From, list: seq<TableDef>, last: nat) | Refused | Panics

  /** The qualification, checked against everything on the list so far. */
  datatype Qual = GoodQual(qual: Where) | BadQual | QualPanics

  function CheckQual(qual: Where, list: seq<TableDef>): Qual {
    if qual.NoWhere? then GoodQual(NoWhere) else
      match CheckType(qual.cond, ColLists(list))
      case Panicked => QualPanics
      case Checked(ty, cond) => if ty == T_BOOL then GoodQual(Where(cond)) else BadQual
  }

  function AnalyzeJoinList(node: From, defs: seq<TableDef>, list: seq<TableDef>): (r: Listed)
    ensures r.Listed? ==> r.last < |r.list|
  {
    match node
    case RangeVar(table, _) =>
      var i := FindTable(defs, table);
      if i < |defs| then Listed(RangeVar(table, |list|), list + [defs[i]], |list|) else Refused
    case Join(kind, left, right, qual, _) =>
      var l := AnalyzeJoinList(left, defs, list);
      if !l.Listed? then l else
        var r := AnalyzeJoinList(right, defs, l.list);
        if !r.Listed? then r else
          var joined := TableDef(Glued(l.list[l.last].name, r.list[r.last].name),
                                 l.list[l.last].cols + r.list[r.last].cols, 0);
          var grown := r.list + [joined];
          match CheckQual(qual, grown)
          case GoodQual(checked) => Listed(Join(kind, l.node, r.node, checked, |r.list|), grown, |r.list|)
          case BadQual => Refused
          case QualPanics => Panics
  }

  // ----- what the analysis leaves behind

  function TreeCols(node: From, defs: seq<TableDef>): seq<ColDesc> {
    match node
    case RangeVar(table, _) => if FindTable(defs, table) < |defs| then defs[FindTable(defs, table)].cols else []
    case Join(_, left, right, _, _) => TreeCols(left, defs) + TreeCols(right, defs)
  }

  function Size(node: From): nat {
    match node
    case RangeVar(_, _) => 1
    case Join(_, left, right, _, _) => Size(left) + Size(right) + 1
  }

  /** Slots in post-order from the first on: a node's slot comes right after those of its subtrees, and
      holds the table itself or the concatenation of the joined columns. */
  ghost predicate Numbered(node: From, defs: seq<TableDef>, list: seq<TableDef>, first: nat) {
    && node.index == first + Size(node) - 1 && node.index < |list|
    && match node
       case RangeVar(table, index) => FindTable(defs, table) < |defs| && list[index] == defs[FindTable(defs, table)]
       case Join(_, left, right, _, index) =>
         && list[index].cols == TreeCols(node, defs)
         && Numbered(left, defs, list, first) && Numbered(right, defs, list, first + Size(left))
  }

  ghost predicate SameShape(a: From, b: From) {
    match a
    case RangeVar(table, _) => b.RangeVar? && b.table == table
    case Join(kind, left, right, qual, _) =>
      b.Join? && b.kind == kind && (qual.NoWhere? <==> b.qual.NoWhere?) && SameShape(left, b.left)
        && SameShape(right, b.right)
  }

  lemma {:induction false} NumberedGrows(node: From, defs: seq<TableDef>, list: seq<TableDef>, more: seq<TableDef>,
                                         first: nat)
    requires Numbered(node, defs, list, first)
    ensures Numbered(node, defs, list + more, first)
  {
    if node.Join? {
      NumberedGrows(node.left, defs, list, more, first);
      NumberedGrows(node.right, defs, list, more, first + Size(node.left));
    }
  }

  lemma {:induction false} NumberedCols(node: From, defs: seq<TableDef>, list: seq<TableDef>, first: nat)
    requires Numbered(node, defs, list, first)
    ensures list[node.index].cols == TreeCols(node, defs)
  {
  }

  /** A join whose operands are numbered, and whose own definition comes next, is numbered. */
  lemma JoinNumbered(kind: JoinMethod, left: From, right: From, qual: Where, defs: seq<TableDef>,
                     before: seq<TableDef>, added: seq<TableDef>, joined: TableDef, first: nat)
    requires Numbered(left, defs, before, first) && Numbered(right, defs, before + added, |before|)
    requires |before| == first + Size(left) && |before + added| == |before| + Size(right)
    requires joined.cols == TreeCols(left, defs) + TreeCols(right, defs)
    ensures Numbered(Join(kind, left, right, qual, |before + added|), defs, before + added + [joined], first)
  {
    NumberedGrows(left, defs, before, added + [joined], first);
    NumberedGrows(right, defs, before + added, [joined], |before|);
    assert before + (added + [joined]) == before + added + [joined];
  }

  /** Analysis keeps what is on the list, appends one definition a node in post-order, and gives every join
      the columns of its operands, left then right. */
  lemma {:induction false} AnalyzeMeaning(node: From, defs: seq<TableDef>, list: seq<TableDef>)
    requires AnalyzeJoinList(node, defs, list).Listed?
    ensures var r := AnalyzeJoinList(node, defs, list);
            && |r.list| == |list| + Size(node) && r.list[..|list|] == list && r.last == |r.list| - 1 == r.node.index
            && SameShape(node, r.node) && Size(r.node) == Size(node) && TreeCols(r.node, defs) == TreeCols(node, defs)
            && Numbered(r.node, defs, r.list, |list|)
  {
    hide CheckQual, FindTable, Glued;
    match node
    case RangeVar(_, _) =>
    case Join(kind, left, right, qual, _) =>
      hide Numbered;
      var l := AnalyzeJoinList(left, defs, list);
      AnalyzeMeaning(left, defs, list);
      var r := AnalyzeJoinList(right, defs, l.list);
      AnalyzeMeaning(right, defs, l.list);
      NumberedCols(l.node, defs, l.list, |list|);
      NumberedCols(r.node, defs, r.list, |l.list|);
      var whole := AnalyzeJoinList(node, defs, list);
      var added, joined := r.list[|l.list|..], whole.list[|r.list|];
      assert r.list == l.list + added && whole.list == l.list + added + [joined];
      QualKept(qual, whole.list);
      JoinNumbered(kind, l.node, r.node, whole.node.qual, defs, l.list, added, joined, |list|);
  }

  lemma QualKept(qual: Where, list: seq<TableDef>)
    ensures CheckQual(qual, list).GoodQual? ==> (CheckQual(qual, list).qual.NoWhere? <==> qual.NoWhere?)
  {
    hide CheckType;
  }

  // ----- which clauses are accepted

  /** The columns of the clause's tables and joins in post-order. */
  function Posted(node: From, defs: seq<TableDef>): seq<seq<ColDesc>> {
    match node
    case RangeVar(_, _) => [TreeCols(node, defs)]
    case Join(_, left, right, _, _) => Posted(left, defs) + Posted(right, defs) + [TreeCols(node, defs)]
  }

  /** Every table is defined and every qualification is found boolean, looking at all columns listed before, its
      own join's the last. */
  ghost predicate Acceptable(node: From, defs: seq<TableDef>, before: seq<seq<ColDesc>>) {
    match node
    case RangeVar(table, _) => exists d :: d in defs && d.name == table
    case Join(_, left, right, qual, _) =>
      && Acceptable(left, defs, before) && Acceptable(right, defs, before + Posted(left, defs))
      && (qual.Where? ==> FoundBoolean(qual.cond, before + Posted(node, defs)))
  }

  predicate FoundBoolean(e: Expr, tables: seq<seq<ColDesc>>) {
    CheckType(e, tables).Checked? && CheckType(e, tables).ty == T_BOOL
  }

  lemma {:induction false} FindTableExactly(defs: seq<TableDef>, name: CString)
    ensures FindTable(defs, name) < |defs| <==> exists d :: d in defs && d.name == name
  {
    if defs != [] && defs[0].name != name {
      FindTableExactly(defs[1..], name);
      if d :| d in defs && d.name == name {
        assert d in defs[1..];
      }
    }
  }

  lemma ListsGrow(list: seq<TableDef>, d: TableDef)
    ensures ColLists(list + [d]) == ColLists(list) + [d.cols]
  {
  }

  lemma CheckQualIs(qual: Where, list: seq<TableDef>)
    ensures CheckQual(qual, list).GoodQual? <==> qual.NoWhere? || FoundBoolean(qual.cond, ColLists(list))
  {
    hide CheckType, ColLists;
  }

  lemma TableListed(node: From, defs: seq<TableDef>, list: seq<TableDef>)
    requires node.RangeVar?
    ensures AnalyzeJoinList(node, defs, list).Listed? <==> Acceptable(node, defs, ColLists(list))
    ensures var r := AnalyzeJoinList(node, defs, list);
            r.Listed? ==>
              ColLists(r.list) == ColLists(list) + Posted(node, defs) && r.list[r.last].cols == TreeCols(node, defs)
  {
    hide FindTable, ColLists;
    FindTableExactly(defs, node.table);
    var i := FindTable(defs, node.table);
    if i < |defs| {
      ListsGrow(list, defs[i]);
    }
  }

  /** One join, its operands being listed. */
  lemma JoinListed(node: From, defs: seq<TableDef>, list: seq<TableDef>)
    requires node.Join?
    ensures var l, whole := AnalyzeJoinList(node.left, defs, list), AnalyzeJoinList(node, defs, list);
            && (!l.Listed? ==> !whole.Listed?)
            && (l.Listed? ==>
                  var r := AnalyzeJoinList(node.right, defs, l.list);
                  && (!r.Listed? ==> !whole.Listed?)
                  && (r.Listed? ==>
                        var tables := ColLists(r.list) + [l.list[l.last].cols + r.list[r.last].cols];
                        && (whole.Listed? <==> node.qual.NoWhere? || FoundBoolean(node.qual.cond, tables))
                        && (whole.Listed? ==>
                            ColLists(whole.list) == tables && whole.list[whole.last].cols == tables[|r.list|])))
  {
    hide CheckQual, FoundBoolean, Glued, ColLists;
    var l := AnalyzeJoinList(node.left, defs, list);
    if l.Listed? {
      var r := AnalyzeJoinList(node.right, defs, l.list);
      if r.Listed? {
        var joined := TableDef(Glued(l.list[l.last].name, r.list[r.last].name),
                               l.list[l.last].cols + r.list[r.last].cols, 0);
        ListsGrow(r.list, joined);
        CheckQualIs(node.qual, r.list + [joined]);
      }
    }
  }

  /** A from clause is accepted exactly if it is acceptable; the list then holds its columns in post-order. */
  lemma {:induction false} ListedExactly(node: From, defs: seq<TableDef>, list: seq<TableDef>)
    ensures AnalyzeJoinList(node, defs, list).Listed? <==> Acceptable(node, defs, ColLists(list))
    ensures var r := AnalyzeJoinList(node, defs, list);
            r.Listed? ==>
              ColLists(r.list) == ColLists(list) + Posted(node, defs) && r.list[r.last].cols == TreeCols(node, defs)
  {
    hide FoundBoolean, ColLists, AnalyzeJoinList;
    if node.RangeVar? {
      TableListed(node, defs, list);
    } else {
      JoinListed(node, defs, list);
      ListedExactly(node.left, defs, list);
      var l := AnalyzeJoinList(node.left, defs, list);
      if l.Listed? {
        ListedExactly(node.right, defs, l.list);
        var before, a, b, c := ColLists(list), Posted(node.left, defs), Posted(node.right, defs),
          [TreeCols(node, defs)];
        assert before + a + b + c == before + (a + b + c);
      }
    }
  }

  /** The first thing found wrong, in post-order, is a qualification on which the type checker panics. */
  ghost predicate PanicsFirst(node: From, defs: seq<TableDef>, before: seq<seq<ColDesc>>) {
    node.Join? &&
    (|| PanicsFirst(node.left, defs, before)
     || (Acceptable(node.left, defs, before)
         && (|| PanicsFirst(node.right, defs, before + Posted(node.left, defs))
             || (Acceptable(node.right, defs, before + Posted(node.left, defs)) && node.qual.Where?
                 && CheckType(node.qual.cond, before + Posted(node, defs)).Panicked?))))
  }

  lemma JoinPanics(node: From, defs: seq<TableDef>, list: seq<TableDef>)
    requires node.Join?
    ensures var l, whole := AnalyzeJoinList(node.left, defs, list), AnalyzeJoinList(node, defs, list);
            && (!l.Listed? ==> whole == l)
            && (l.Listed? ==>
                  var r := AnalyzeJoinList(node.right, defs, l.list);
                  && (!r.Listed? ==> whole == r)
                  && (r.Listed? ==>
                        var tables := ColLists(r.list) + [l.list[l.last].cols + r.list[r.last].cols];
                        whole == Panics <==> node.qual.Where? && CheckType(node.qual.cond, tables).Panicked?))
  {
    hide CheckType, Glued, ColLists;
    var l := AnalyzeJoinList(node.left, defs, list);
    if l.Listed? {
      var r := AnalyzeJoinList(node.right, defs, l.list);
      if r.Listed? {
        ListsGrow(r.list, TableDef(Glued(l.list[l.last].name, r.list[r.last].name),
                                   l.list[l.last].cols + r.list[r.last].cols, 0));
      }
    }
  }

  /** Analysis panics on a from clause exactly then; else it refuses what it does not accept. */
  lemma {:induction false} PanicsExactly(node: From, defs: seq<TableDef>, list: seq<TableDef>)
    ensures AnalyzeJoinList(node, defs, list) == Panics <==> PanicsFirst(node, defs, ColLists(list))
  {
    hide CheckType, ColLists, AnalyzeJoinList, Acceptable;
    if node.RangeVar? {
      TablePanics(node, defs, list);
    } else {
      JoinPanics(node, defs, list);
      PanicsExactly(node.left, defs, list);
      ListedExactly(node.left, defs, list);
      var l := AnalyzeJoinList(node.left, defs, list);
      if l.Listed? {
        PanicsExactly(node.right, defs, l.list);
        ListedExactly(node.right, defs, l.list);
        var before, a, b, c := ColLists(list), Posted(node.left, defs), Posted(node.right, defs),
          [TreeCols(node, defs)];
        assert before + a + b + c == before + (a + b + c);
      }
    }
  }

  lemma TablePanics(node: From, defs: seq<TableDef>, list: seq<TableDef>)
    requires node.RangeVar?
    ensures AnalyzeJoinList(node, defs, list) != Panics
  {
    hide FindTable;
  }

  // ----- names

  ghost predicate Within(cols: seq<ColDesc>, all: seq<ColDesc>) {
    forall c :: c in cols ==> c in all
  }

  /** All definitions a clause adds to the list hold columns of the clause. */
  lemma {:induction false} ListWithin(node: From, defs: seq<TableDef>, list: seq<TableDef>, first: nat, i: nat)
    requires Numbered(node, defs, list, first) && first <= i < first + Size(node)
    ensures i < |list| && Within(list[i].cols, TreeCols(node, defs))
  {
    NumberedCols(node, defs, list, first);
    if node.Join? && i < node.index {
      if i < first + Size(node.left) {
        ListWithin(node.left, defs, list, first, i);
      } else {
        ListWithin(node.right, defs, list, first + Size(node.left), i);
      }
    }
  }

  lemma {:induction false} IdentResolves(tables: seq<seq<ColDesc>>, cols: seq<ColDesc>, name: CString)
    requires UniqueNames(cols) && forall t :: t in tables ==> Within(t, cols)
    ensures IdentType(tables, name) != T_UNKNOWN ==>
              ColIdx(cols, name) < |cols| && cols[ColIdx(cols, name)].ty == IdentType(tables, name)
  {
    hide ColIdx, UniqueNames;
    if tables != [] {
      var last := tables[|tables| - 1];
      var i := ColIdx(last, name);
      if i < |last| {
        assert last in tables && last[i] in last;
        assert last[i] in cols;
        var k :| 0 <= k < |cols| && cols[k] == last[i];
        ColIdxUnique(cols, k);
      } else {
        IdentResolves(tables[..|tables| - 1], cols, name);
      }
    }
  }

  lemma {:induction false} NamesWithin(e: Expr, tables: seq<seq<ColDesc>>, cols: seq<ColDesc>)
    requires UniqueNames(cols) && forall t :: t in tables ==> Within(t, cols)
    ensures NamesResolve(e, tables, cols)
  {
    hide UniqueNames, ColIdx, IdentType, Within;
    match e
    case Lit(_) =>
    case Ident(name) => IdentResolves(tables, cols, name);
    case Bin(_, _, lhs, rhs) =>
      NamesWithin(lhs, tables, cols);
      NamesWithin(rhs, tables, cols);
  }

  lemma ListedWithin(node: From, defs: seq<TableDef>)
    requires AnalyzeJoinList(node, defs, []).Listed?
    ensures forall t :: t in ColLists(AnalyzeJoinList(node, defs, []).list) ==> Within(t, TreeCols(node, defs))
  {
    hide AnalyzeJoinList, TreeCols, Within, Numbered;
    var r := AnalyzeJoinList(node, defs, []);
    AnalyzeMeaning(node, defs, []);
    var tables := ColLists(r.list);
    forall t | t in tables
      ensures Within(t, TreeCols(node, defs))
    {
      var i :| 0 <= i < |tables| && tables[i] == t;
      ListWithin(r.node, defs, r.list, 0, i);
    }
  }

  /** Analysis and evaluation agree on names: over tables whose column names all differ, every name an
      expression uses has, in a joined row, the type it was checked with. */
  lemma AnalyzedNamesResolve(node: From, defs: seq<TableDef>, e: Expr)
    requires AnalyzeJoinList(node, defs, []).Listed? && UniqueNames(TreeCols(node, defs))
    ensures NamesResolve(e, ColLists(AnalyzeJoinList(node, defs, []).list), TreeCols(node, defs))
  {
    hide AnalyzeJoinList, TreeCols, UniqueNames, NamesResolve, Within;
    ListedWithin(node, defs);
    NamesWithin(e, ColLists(AnalyzeJoinList(node, defs, []).list), TreeCols(node, defs));
  }

  // ----- qualifications

  /** Every right operand is a table. */
  predicate LeftDeep(node: From) {
    node.Join? ==> node.right.RangeVar? && LeftDeep(node.left)
  }

  /** Each qualification was found boolean against everything listed when its join was. */
  ghost predicate QualsAccepted(node: From, list: seq<TableDef>) {
    node.Join? ==>
      && QualAccepted(node, list) && QualsAccepted(node.left, list) && QualsAccepted(node.right, list)
  }

  ghost predicate QualAccepted(node: From, list: seq<TableDef>)
    requires node.Join?
  {
    node.index < |list| && (node.qual.Where? ==>
                            CheckType(node.qual.cond, Seen(node, list)) == Checked(T_BOOL, node.qual.cond))
  }

  /** What the qualification of a join is checked against. */
  function Seen(node: From, list: seq<TableDef>): seq<seq<ColDesc>> {
    if node.index < |list| then ColLists(list[..node.index + 1]) else []
  }

  /** Checking a checked expression changes nothing. */
  lemma {:induction false} CheckTwice(e: Expr, tables: seq<seq<ColDesc>>)
    requires CheckType(e, tables).Checked?
    ensures CheckType(CheckType(e, tables).expr, tables) == CheckType(e, tables)
  {
    hide HasOp, ResultType;
    if e.Bin? {
      CheckTwice(e.lhs, tables);
      CheckTwice(e.rhs, tables);
    }
  }

  lemma {:induction false} AcceptedGrows(node: From, list: seq<TableDef>, more: seq<TableDef>)
    requires QualsAccepted(node, list)
    ensures QualsAccepted(node, list + more)
  {
    hide CheckType, ColLists;
    if node.Join? {
      assert (list + more)[..node.index + 1] == list[..node.index + 1];
      AcceptedGrows(node.left, list, more);
      AcceptedGrows(node.right, list, more);
    }
  }

  lemma {:induction false} AnalyzeAccepts(node: From, defs: seq<TableDef>, list: seq<TableDef>)
    requires AnalyzeJoinList(node, defs, list).Listed?
    ensures var r := AnalyzeJoinList(node, defs, list); QualsAccepted(r.node, r.list)
  {
    hide CheckType, FindTable, Glued, ColLists, Numbered, SameShape, QualsAccepted, QualAccepted;
    if node.Join? {
      var l := AnalyzeJoinList(node.left, defs, list);
      var r := AnalyzeJoinList(node.right, defs, l.list);
      var whole := AnalyzeJoinList(node, defs, list);
      AnalyzeAccepts(node.left, defs, list);
      AnalyzeAccepts(node.right, defs, l.list);
      AnalyzeMeaning(node.right, defs, l.list);
      var joined := whole.list[|r.list|];
      assert whole.list == r.list + [joined] && r.list == l.list + r.list[|l.list|..];
      AcceptedGrows(l.node, l.list, r.list[|l.list|..] + [joined]);
      assert l.list + (r.list[|l.list|..] + [joined]) == whole.list;
      AcceptedGrows(r.node, r.list, [joined]);
      GoodQualAccepted(node.qual, whole.list, whole.node);
      JoinAccepted(whole.node, whole.list);
    } else {
      TableAccepted(AnalyzeJoinList(node, defs, list).node, AnalyzeJoinList(node, defs, list).list);
    }
  }

  lemma JoinAccepted(node: From, list: seq<TableDef>)
    requires node.Join? && QualAccepted(node, list) && QualsAccepted(node.left, list) && QualsAccepted(node.right, list)
    ensures QualsAccepted(node, list)
  {
  }

  lemma TableAccepted(node: From, list: seq<TableDef>)
    requires node.RangeVar?
    ensures QualsAccepted(node, list)
  {
  }

  lemma GoodQualAccepted(qual: Where, list: seq<TableDef>, node: From)
    requires node.Join? && node.index + 1 == |list| && CheckQual(qual, list) == GoodQual(node.qual)
    ensures QualAccepted(node, list)
  {
    hide CheckType, ColLists;
    assert list[..node.index + 1] == list;
    if qual.Where? {
      CheckTwice(qual.cond, ColLists(list));
    }
  }

  /** Every column the expression names is there. */
  predicate NamesOwn(e: Expr, cols: seq<ColDesc>) {
    match e
    case Lit(_) => true
    case Ident(name) => ColIdx(cols, name) < |cols|
    case Bin(_, _, lhs, rhs) => NamesOwn(lhs, cols) && NamesOwn(rhs, cols)
  }

  /** An expression with a type names only columns of the tables it was checked against; so if these lie
      within some columns, it names only those. */
  lemma {:induction false} TypedNamesOwn(e: Expr, tables: seq<seq<ColDesc>>, cols: seq<ColDesc>)
    requires CheckType(e, tables).Checked? && CheckType(e, tables).ty != T_UNKNOWN
    requires forall t :: t in tables ==> Within(t, cols)
    ensures NamesOwn(e, cols)
  {
    hide ColIdx, IdentType, Within, HasOp, ResultType;
    match e
    case Lit(_) =>
    case Ident(name) => IdentWithin(tables, cols, name);
    case Bin(_, _, lhs, rhs) =>
      TypedNamesOwn(lhs, tables, cols);
      TypedNamesOwn(rhs, tables, cols);
  }

  lemma {:induction false} IdentWithin(tables: seq<seq<ColDesc>>, cols: seq<ColDesc>, name: CString)
    requires IdentType(tables, name) != T_UNKNOWN && forall t :: t in tables ==> Within(t, cols)
    ensures ColIdx(cols, name) < |cols|
  {
    hide ColIdx;
    var last := tables[|tables| - 1];
    assert last in tables;
    if ColIdx(last, name) < |last| {
      assert last[ColIdx(last, name)] in cols;
    } else {
      IdentWithin(tables[..|tables| - 1], cols, name);
    }
  }

  /** Where all names in sight differ, the checked types hold in a joined row exactly if the join has the
      columns. */
  lemma {:induction false} OwnResolves(e: Expr, tables: seq<seq<ColDesc>>, cols: seq<ColDesc>, all: seq<ColDesc>)
    requires CheckType(e, tables).Checked? && CheckType(e, tables).ty != T_UNKNOWN
    requires UniqueNames(all) && Within(cols, all) && forall t :: t in tables ==> Within(t, all)
    ensures NamesResolve(e, tables, cols) <==> NamesOwn(e, cols)
  {
    hide ColIdx, IdentType, Within, UniqueNames, HasOp, ResultType;
    match e
    case Lit(_) =>
    case Ident(name) =>
      IdentResolves(tables, all, name);
      if ColIdx(cols, name) < |cols| {
        SameColumn(cols, all, name);
      }
    case Bin(_, _, lhs, rhs) =>
      OwnResolves(lhs, tables, cols, all);
      OwnResolves(rhs, tables, cols, all);
  }

  lemma SameColumn(cols: seq<ColDesc>, all: seq<ColDesc>, name: CString)
    requires UniqueNames(all) && Within(cols, all) && ColIdx(cols, name) < |cols|
    ensures ColIdx(all, name) < |all| && all[ColIdx(all, name)] == cols[ColIdx(cols, name)]
  {
    hide ColIdx, UniqueNames;
    var c := cols[ColIdx(cols, name)];
    assert c in all;
    var k :| 0 <= k < |all| && all[k] == c;
    ColIdxUnique(all, k);
  }

  /** A missing column stops the program on every row. */
  lemma {:induction false} MissingStops(e: Expr, row: Row, cols: seq<ColDesc>)
    requires !NamesOwn(e, cols)
    ensures !EvalExpr(e, row, cols).Val?
  {
    hide ColIdx, Apply;
    if e.Bin? {
      if !NamesOwn(e.lhs, cols) {
        MissingStops(e.lhs, row, cols);
      } else {
        MissingStops(e.rhs, row, cols);
      }
    }
  }

  /** Every join of the clause has the columns its qualification names. */
  ghost predicate QualsOwn(node: From, defs: seq<TableDef>) {
    node.Join? ==>
      && (node.qual.Where? ==> NamesOwn(node.qual.cond, TreeCols(node, defs)))
      && QualsOwn(node.left, defs) && QualsOwn(node.right, defs)
  }

  /** In a left-deep clause they do: everything listed when a join is checked belongs to the join. */
  lemma {:induction false} LeftDeepOwns(node: From, defs: seq<TableDef>, list: seq<TableDef>)
    requires LeftDeep(node) && Numbered(node, defs, list, 0) && QualsAccepted(node, list)
    ensures QualsOwn(node, defs)
  {
    hide TreeCols, CheckType, NamesOwn, Within;
    if node.Join? {
      LeftDeepOwns(node.left, defs, list);
      if node.qual.Where? {
        var tables := Seen(node, list);
        forall t | t in tables
          ensures Within(t, TreeCols(node, defs))
        {
          var i :| 0 <= i < |tables| && tables[i] == t;
          ListWithin(node, defs, list, 0, i);
        }
        TypedNamesOwn(node.qual.cond, tables, TreeCols(node, defs));
      }
    }
  }

  /** So on a left-deep clause that analysis accepts, no qualification escapes its join. */
  lemma AnalyzedLeftDeepOwns(node: From, defs: seq<TableDef>)
    requires LeftDeep(node) && AnalyzeJoinList(node, defs, []).Listed?
    ensures QualsOwn(AnalyzeJoinList(node, defs, []).node, defs)
  {
    hide AnalyzeJoinList, Numbered, QualsAccepted, QualsOwn;
    var r := AnalyzeJoinList(node, defs, []);
    AnalyzeMeaning(node, defs, []);
    AnalyzeAccepts(node, defs, []);
    SameLeftDeep(node, r.node);
    LeftDeepOwns(r.node, defs, r.list);
  }

  lemma {:induction false} SameLeftDeep(a: From, b: From)
    requires SameShape(a, b)
    ensures LeftDeep(a) <==> LeftDeep(b)
  {
    if a.Join? {
      SameLeftDeep(a.left, b.left);
    }
  }

  lemma {:induction false} IdentSkips(tables: seq<seq<ColDesc>>, more: seq<seq<ColDesc>>, name: CString)
    requires forall t :: t in more ==> ColIdx(t, name) == |t|
    ensures IdentType(tables + more, name) == IdentType(tables, name)
  {
    hide ColIdx;
    if more == [] {
      assert tables + more == tables;
    } else {
      var n := |more| - 1;
      assert (tables + more)[..|tables + more| - 1] == tables + more[..n] && (tables + more)[|tables| + n] == more[n];
      assert more[n] in more;
      IdentSkips(tables, more[..n], name);
    }
  }

  /** The qualification "name = 1". */
  function IsOne(name: CString): Where {
    Where(Bin(EQ, NoFunc, Ident(name), Lit(IntD(1))))
  }

  /** With a join as right operand they need not. Whatever the clause, let the joined right operand have a
      qualification on an int column of the left one: it is accepted, and stops the program on every row. */
  lemma RightJoinEscapes(kind: JoinMethod, left: From, right: From, on: Where, defs: seq<TableDef>, name: CString)
    requires right.Join? && AnalyzeJoinList(Join(kind, left, right.(qual := NoWhere), on, 0), defs, []).Listed?
    requires var cols := TreeCols(left, defs); ColIdx(cols, name) < |cols| && cols[ColIdx(cols, name)].ty == T_INT
    requires ColIdx(TreeCols(right, defs), name) == |TreeCols(right, defs)|
    ensures var r := AnalyzeJoinList(Join(kind, left, right.(qual := IsOne(name)), on, 0), defs, []);
            && r.Listed? && r.node.Join? && r.node.right.Join? && r.node.right.qual.Where?
            && forall row :: TestWhere(r.node.right.qual, row, TreeCols(right, defs)) == Stops
  {
    hide ColIdx, TreeCols, FindTable, Glued, IdentType, CheckType, NamesOwn, TestWhere;
    var l := AnalyzeJoinList(left, defs, []);
    var plain := AnalyzeJoinList(right.(qual := NoWhere), defs, l.list);
    assert l.Listed? && plain.Listed?;
    QualKeepsCols(right, NoWhere, defs);
    SeesLeft(left, right.(qual := NoWhere), defs, name);
    var q := AnalyzeJoinList(right.(qual := IsOne(name)), defs, l.list);
    OneAccepted(name, plain.list, TreeCols(right, defs));
    assert q.Listed? && q.list == plain.list && q.last == plain.last
           && q.node.qual == CheckQual(IsOne(name), plain.list).qual;
  }

  lemma QualKeepsCols(node: From, qual: Where, defs: seq<TableDef>)
    requires node.Join?
    ensures TreeCols(node.(qual := qual), defs) == TreeCols(node, defs)
  {
  }

  lemma OneAccepted(name: CString, list: seq<TableDef>, cols: seq<ColDesc>)
    requires IdentType(ColLists(list), name) == T_INT && ColIdx(cols, name) == |cols|
    ensures CheckQual(IsOne(name), list).GoodQual? && CheckQual(IsOne(name), list).qual.Where?
    ensures forall row :: TestWhere(CheckQual(IsOne(name), list).qual, row, cols) == Stops
  {
    hide IdentType, ColIdx;
    var tables := ColLists(list);
    assert CheckType(Ident(name), tables) == Checked(T_INT, Ident(name));
    assert CheckType(Lit(IntD(1)), tables) == Checked(T_INT, Lit(IntD(1)));
    var e := CheckQual(IsOne(name), list).qual.cond;
    assert !NamesOwn(Ident(name), cols) && !NamesOwn(e, cols);
    forall row
      ensures TestWhere(Where(e), row, cols) == Stops
    {
      MissingStops(e, row, cols);
    }
  }

  lemma SeesLeft(left: From, right: From, defs: seq<TableDef>, name: CString)
    requires var l := AnalyzeJoinList(left, defs, []); l.Listed? && AnalyzeJoinList(right, defs, l.list).Listed?
    requires var cols := TreeCols(left, defs); ColIdx(cols, name) < |cols| && cols[ColIdx(cols, name)].ty == T_INT
    requires ColIdx(TreeCols(right, defs), name) == |TreeCols(right, defs)|
    ensures IdentType(ColLists(AnalyzeJoinList(right, defs, AnalyzeJoinList(left, defs, []).list).list), name) == T_INT
  {
    hide ColIdx, TreeCols, AnalyzeJoinList, Numbered, IdentType, SameShape, ColLists, Acceptable, Posted;
    ListedExactly(left, defs, []);
    ListedExactly(right, defs, AnalyzeJoinList(left, defs, []).list);
    var l := AnalyzeJoinList(left, defs, []);
    var r := AnalyzeJoinList(right, defs, l.list);
    AnalyzeMeaning(left, defs, []);
    AnalyzeMeaning(right, defs, l.list);
    NumberedCols(l.node, defs, l.list, 0);
    MoreLacks(r.node, defs, r.list, |l.list|, name);
    var more := ColLists(r.list)[|l.list|..];
    assert ColLists(r.list) == ColLists(l.list) + more;
    IdentSkips(ColLists(l.list), more, name);
    LastDecides(ColLists(l.list), name);
  }

  lemma MoreLacks(node: From, defs: seq<TableDef>, list: seq<TableDef>, first: nat, name: CString)
    requires Numbered(node, defs, list, first) && |list| == first + Size(node)
    requires ColIdx(TreeCols(node, defs), name) == |TreeCols(node, defs)|
    ensures forall t :: t in ColLists(list)[first..] ==> ColIdx(t, name) == |t|
  {
    hide ColIdx, TreeCols, Numbered;
    var more := ColLists(list)[first..];
    forall t | t in more
      ensures ColIdx(t, name) == |t|
    {
      var i :| 0 <= i < |more| && more[i] == t;
      ListWithin(node, defs, list, first, first + i);
      LacksToo(t, TreeCols(node, defs), name);
    }
  }

  lemma LacksToo(t: seq<ColDesc>, cols: seq<ColDesc>, name: CString)
    requires Within(t, cols) && ColIdx(cols, name) == |cols|
    ensures ColIdx(t, name) == |t|
  {
    hide ColIdx;
    if ColIdx(t, name) < |t| {
      Named(t[ColIdx(t, name)], cols);
    }
  }

  lemma {:induction false} Named(c: ColDesc, cols: seq<ColDesc>)
    requires c in cols
    ensures ColIdx(cols, c.name) < |cols|
  {
    if cols[0].name != c.name {
      Named(c, cols[1..]);
    }
  }

  lemma LastDecides(tables: seq<seq<ColDesc>>, name: CString)
    requires tables != []
    ensures var last := tables[|tables| - 1]; ColIdx(last, name) < |last| ==>
            IdentType(tables, name) == last[ColIdx(last, name)].ty
  {
    hide ColIdx;
  }

  /** For example FROM a JOIN b JOIN c ON x = 1 ON true, over tables a (x int), b (y int) and c (z int). */
  lemma QualEscapes()
    ensures var defs := ThreeTables();
            var inner := Join(INNER, RangeVar("b", 0), RangeVar("c", 0), IsOne("x"), 0);
            var r := AnalyzeJoinList(Join(INNER, RangeVar("a", 0), inner, Where(Lit(BoolD(true))), 0), defs, []);
            && r.Listed? && r.node.Join? && r.node.right.Join?
            && forall row :: TestWhere(r.node.right.qual, row, [ColDesc("y", T_INT), ColDesc("z", T_INT)]) == Stops
  {
    hide CheckType, TestWhere, IsOne;
    var defs := ThreeTables();
    var left, right := RangeVar("a", 0), Join(INNER, RangeVar("b", 0), RangeVar("c", 0), NoWhere, 0);
    ThreeFound();
    assert TreeCols(left, defs) == [ColDesc("x", T_INT)] && ColIdx(TreeCols(left, defs), "x") == 0;
    var cols := [ColDesc("y", T_INT), ColDesc("z", T_INT)];
    assert TreeCols(right, defs) == cols;
    assert cols[1..] == [ColDesc("z", T_INT)] && cols[1..][1..] == [] && ColIdx(cols, "x") == 2;
    TrueAccepted();
    RightJoinEscapes(INNER, left, right, Where(Lit(BoolD(true))), defs, "x");
  }

  lemma TrueAccepted()
    ensures forall l :: CheckQual(Where(Lit(BoolD(true))), l) == GoodQual(Where(Lit(BoolD(true))))
  {
  }

  function ThreeTables(): seq<TableDef> {
    [TableDef("a", [ColDesc("x", T_INT)], 0), TableDef("b", [ColDesc("y", T_INT)], 1),
     TableDef("c", [ColDesc("z", T_INT)], 2)]
  }

  lemma ThreeFound()
    ensures FindTable(ThreeTables(), "a") == 0 && FindTable(ThreeTables(), "b") == 1
    ensures FindTable(ThreeTables(), "c") == 2
  {
    var defs := ThreeTables();
    assert defs[1..][0] == defs[1] && defs[1..][1..][0] == defs[2];
  }
}
