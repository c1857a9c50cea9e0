/** The analysis of a SELECT: names and types of the output, the where clause and the sort column. */
module SelectAnalysis {
  import opened Types
  import opened Schema
  import opened Codec
  import opened Expr
  import HeapFile
  import opened Relations
  import opened JoinList
  import Executor
  import opened PlanQuery

  // ----- names

  function Digits(n: nat): (r: CString)
    ensures r != ""
  {
    var last: CString := [(48 + n % 10) as char];
    if n < 10 then last else Glued(Digits(n / 10), last)
  }

  /** The name of the n-th output column that is not a plain column. */
  function AnonName(n: nat): (r: CString)
    ensures 0 < |r| && r[0] == '?'
  {
    Glued("?column", Glued(Digits(n), "?"))
  }

  /** Only letters and underscores, as the scanner reads names. */
  predicate Spelled(name: CString) {
    forall i :: 0 <= i < |name| ==> 'a' <= name[i] <= 'z' || 'A' <= name[i] <= 'Z' || name[i] == '_'
  }

  ghost predicate AllSpelled(cols: seq<ColDesc>) {
    forall i :: 0 <= i < |cols| ==> Spelled(cols[i].name)
  }

  lemma {:induction false} DigitsDiffer(m: nat, n: nat)
    requires Digits(m) == Digits(n)
    ensures m == n
  {
    var a, b := Digits(m), Digits(n);
    assert a[|a| - 1] == (48 + m % 10) as char && b[|b| - 1] == (48 + n % 10) as char;
    assert (m < 10 <==> |a| == 1) && (n < 10 <==> |b| == 1);
    if m >= 10 {
      assert a[..|a| - 1] == Digits(m / 10) && b[..|b| - 1] == Digits(n / 10);
      DigitsDiffer(m / 10, n / 10);
    }
  }

  /** The number that decimal digits spell. */
  function NumberOf(s: CString): int {
    if s == "" then 0 else 10 * NumberOf(Front(s)) + (s[|s| - 1] as int - '0' as int)
  }

  function Front(s: CString): (r: CString)
    requires s != ""
    ensures r == s[..|s| - 1]
  {
    assert forall i :: 0 <= i < |s| - 1 ==> s[..|s| - 1][i] == s[i];
    s[..|s| - 1]
  }

  lemma {:induction false} DigitsMeaning(n: nat)
    ensures NumberOf(Digits(n)) == n
    ensures forall i :: 0 <= i < |Digits(n)| ==> '0' <= Digits(n)[i] <= '9'
    ensures n > 0 ==> Digits(n)[0] != '0'
  {
    var s := Digits(n);
    assert s[|s| - 1] == (48 + n % 10) as char;
    if n >= 10 {
      DigitsMeaning(n / 10);
      assert Front(s) == Digits(n / 10);
    } else {
      assert Front(s) == "" && NumberOf("") == 0;
    }
  }

  /** The made-up names are ?column0?, ?column1? and so on. */
  lemma AnonNameIs(n: nat)
    ensures AnonName(n) == "?column" + Digits(n) + "?"
  {
    hide Digits;
    var front: CString, d, back: CString := "?column", Digits(n), "?";
    assert front + (d + back) == front + d + back;
  }

  lemma AnonDiffer(m: nat, n: nat)
    ensures AnonName(m) == AnonName(n) ==> m == n
    ensures !Spelled(AnonName(m))
  {
    hide Digits;
    var a, b := Digits(m), Digits(n);
    var first: CString := "?column";
    if AnonName(m) == AnonName(n) {
      assert AnonName(m) == first + a + "?" && AnonName(n) == first + b + "?";
      assert AnonName(m)[7..|AnonName(m)| - 1] == a && AnonName(n)[7..|AnonName(n)| - 1] == b;
      DigitsDiffer(m, n);
    }
  }

  // ----- targets

  /** The targets with their names, the output columns, and how many names had to be made up. */
  datatype Selection = Selection(targets: seq<Target>, out: seq<ColDesc>, anon: nat) | NoSelection | SelectionPanics

  function AnalyzeTargets(exprs: seq<Expr>, tables: seq<seq<ColDesc>>): Selection {
    if exprs == [] then Selection([], [], 0) else
      match AnalyzeTargets(exprs[..|exprs| - 1], tables)
      case Selection(targets, out, anon) =>
        var e := exprs[|exprs| - 1];
        (match CheckType(e, tables)
         case Panicked => SelectionPanics
         case Checked(ty, bound) =>
           var name := if e.Ident? then e.name else AnonName(anon);
           if ty == T_UNKNOWN then NoSelection
           else Selection(targets + [Target(bound, name)], out + [ColDesc(name, ty)],
                          if e.Ident? then anon else anon + 1))
      case failed => failed
  }

  datatype Analyzed = Analyzed(q: Query) | NotAnalyzed | AnalysisPanics

  predicate OnList(list: seq<TableDef>, name: CString) {
    exists i :: 0 <= i < |list| && ColIdx(list[i].cols, name) < |list[i].cols|
  }

  /** AnalyzeSelectStmt. The where clause and the sort column are looked up on the whole list, the output's
      definition at its end. */
  function AnalyzeSelect(from: From, exprs: seq<Expr>, cond: Where, ordering: Ordering, defs: seq<TableDef>): Analyzed {
    match AnalyzeJoinList(from, defs, [])
    case Refused => NotAnalyzed
    case Panics => AnalysisPanics
    case Listed(node, list, _) =>
      match AnalyzeTargets(exprs, ColLists(list))
      case NoSelection => NotAnalyzed
      case SelectionPanics => AnalysisPanics
      case Selection(targets, out, _) =>
        var full := list + [TableDef("", out, 0)];
        match CheckQual(cond, full)
        case BadQual => NotAnalyzed
        case QualPanics => AnalysisPanics
        case GoodQual(checked) =>
          if ordering.By? && !OnList(full, ordering.name) then NotAnalyzed
          else Analyzed(Query(full, node, targets, checked, ordering))
  }

  lemma SelectionStep(exprs: seq<Expr>, tables: seq<seq<ColDesc>>)
    requires exprs != [] && AnalyzeTargets(exprs, tables).Selection?
    ensures var n := |exprs| - 1;
            var before, after, c := AnalyzeTargets(exprs[..n], tables), AnalyzeTargets(exprs, tables),
              CheckType(exprs[n], tables);
            before.Selection? && c.Checked? && c.ty != T_UNKNOWN
            && var name := if exprs[n].Ident? then exprs[n].name else AnonName(before.anon);
               after.targets == before.targets + [Target(c.expr, name)]
                 && after.out == before.out + [ColDesc(name, c.ty)]
               && after.anon == before.anon + (if exprs[n].Ident? then 0 else 1)
  {
    hide CheckType, AnonName;
  }

  /** A target, the column it gives the output and what it was checked to be. */
  ghost predicate OutputAt(exprs: seq<Expr>, tables: seq<seq<ColDesc>>, s: Selection, i: nat) {
    s.Selection? && i < |exprs| && i < |s.targets| && i < |s.out| &&
    var c := CheckType(exprs[i], tables);
    && c.Checked? && c.ty != T_UNKNOWN && c.expr == s.targets[i].expr && s.out[i].ty == c.ty
    && s.out[i].name == s.targets[i].name
    && (exprs[i].Ident? ==> s.out[i].name == exprs[i].name)
    && (!exprs[i].Ident? ==> exists k: nat :: k < s.anon && s.out[i].name == AnonName(k))
  }

  lemma {:induction false} SelectionMeaning(exprs: seq<Expr>, tables: seq<seq<ColDesc>>)
    requires AnalyzeTargets(exprs, tables).Selection?
    ensures var s := AnalyzeTargets(exprs, tables);
            |s.out| == |s.targets| == |exprs| && OutputOf(s.out, s.targets)
            && forall i :: 0 <= i < |exprs| ==> OutputAt(exprs, tables, s, i)
  {
    hide CheckType, AnonName, AnalyzeTargets;
    if exprs == [] {
      assert AnalyzeTargets([], tables) == Selection([], [], 0) by { NoTargets(tables); }
    } else {
      var n := |exprs| - 1;
      SelectionStep(exprs, tables);
      SelectionMeaning(exprs[..n], tables);
      var before, s := AnalyzeTargets(exprs[..n], tables), AnalyzeTargets(exprs, tables);
      forall i: nat | i < |exprs|
        ensures OutputAt(exprs, tables, s, i)
      {
        if i < n {
          assert OutputAt(exprs[..n], tables, before, i);
        } else {
          assert before.anon < s.anon || exprs[n].Ident?;
        }
      }
    }
  }

  lemma NoTargets(tables: seq<seq<ColDesc>>)
    ensures AnalyzeTargets([], tables) == Selection([], [], 0)
  {
  }

  ghost predicate DifferentIdents(exprs: seq<Expr>) {
    forall i, j :: 0 <= i < j < |exprs| && exprs[i].Ident? && exprs[j].Ident? ==> exprs[i].name != exprs[j].name
  }

  ghost predicate IdentsSpelled(exprs: seq<Expr>) {
    forall i :: 0 <= i < |exprs| && exprs[i].Ident? ==> Spelled(exprs[i].name)
  }

  /** The made-up names keep the output names different, so that these are exactly if no column is selected
      twice. */
  lemma {:induction false} OutputUniqueExactly(exprs: seq<Expr>, tables: seq<seq<ColDesc>>)
    requires AnalyzeTargets(exprs, tables).Selection? && IdentsSpelled(exprs)
    ensures UniqueNames(AnalyzeTargets(exprs, tables).out) <==> DifferentIdents(exprs)
  {
    hide CheckType, AnonName, AnalyzeTargets;
    if exprs == [] {
      NoTargets(tables);
    } else {
      var n := |exprs| - 1;
      SelectionStep(exprs, tables);
      SelectionMeaning(exprs[..n], tables);
      OutputUniqueExactly(exprs[..n], tables);
      var before, out := AnalyzeTargets(exprs[..n], tables), AnalyzeTargets(exprs, tables).out;
      forall i: nat | i < n
        ensures out[i] == before.out[i]
        ensures out[i].name == out[n].name <==> exprs[i].Ident? && exprs[n].Ident? && exprs[i].name == exprs[n].name
      {
        assert OutputAt(exprs[..n], tables, before, i);
        AnonDiffer(before.anon, 0);
        if !exprs[i].Ident? {
          var k: nat :| k < before.anon && out[i].name == AnonName(k);
          AnonDiffer(k, before.anon);
        }
      }
      UniqueStep(before.out, out[n]);
      assert forall i :: 0 <= i < n ==> exprs[..n][i] == exprs[i];
    }
  }

  lemma UniqueStep(cols: seq<ColDesc>, c: ColDesc)
    ensures UniqueNames(cols + [c]) <==> UniqueNames(cols) && forall i :: 0 <= i < |cols| ==> cols[i].name != c.name
  {
    var all := cols + [c];
    assert forall i :: 0 <= i < |cols| ==> all[i] == cols[i];
    assert all[|cols|] == c;
  }

  // ----- what an analyzed statement is ready for

  /** Every table definition has its file. */
  ghost predicate DefsFiled(defs: seq<TableDef>, files: seq<HeapFile.Table>) {
    forall i :: 0 <= i < |defs| ==> defs[i].index < |files| && files[defs[i].index].types == ColTypes(defs[i].cols)
  }

  lemma {:induction false} NumberedFiled(node: From, defs: seq<TableDef>, list: seq<TableDef>,
                                         files: seq<HeapFile.Table>,
                                         first: nat)
    requires Numbered(node, defs, list, first) && DefsFiled(defs, files)
    ensures Filed(node, list, files)
  {
    if node.Join? {
      NumberedFiled(node.left, defs, list, files, first);
      NumberedFiled(node.right, defs, list, files, first + Size(node.left));
    }
  }

  lemma SelectParts(from: From, exprs: seq<Expr>, cond: Where, ordering: Ordering, defs: seq<TableDef>)
    requires AnalyzeSelect(from, exprs, cond, ordering, defs).Analyzed?
    ensures var q := AnalyzeSelect(from, exprs, cond, ordering, defs).q;
            var l := AnalyzeJoinList(from, defs, []);
            l.Listed? && var s := AnalyzeTargets(exprs, ColLists(l.list));
            && s.Selection? && q.list == l.list + [TableDef("", s.out, 0)] && q.from == l.node && q.targets == s.targets
            && q.ordering == ordering && CheckQual(cond, q.list) == GoodQual(q.cond) && Output(q) == s.out
            && (ordering.By? ==> OnList(q.list, ordering.name))
  {
    hide AnalyzeJoinList, AnalyzeTargets, CheckQual, ColLists, OnList;
  }

  /** What analysis accepts, planning and execution can take up: each table has its file, the slots are right,
      the output columns are named after the targets. */
  lemma AnalyzedReady(from: From, exprs: seq<Expr>, cond: Where, ordering: Ordering, defs: seq<TableDef>,
                      files: seq<HeapFile.Table>)
    requires AnalyzeSelect(from, exprs, cond, ordering, defs).Analyzed? && DefsFiled(defs, files)
    ensures var q := AnalyzeSelect(from, exprs, cond, ordering, defs).q;
            && Filed(q.from, q.list, files) && Numbered(q.from, defs, q.list, 0) && OutputOf(Output(q), q.targets)
            && TreeCols(q.from, defs) == TreeCols(from, defs)
  {
    hide AnalyzeSelect, AnalyzeJoinList, AnalyzeTargets, CheckQual, OnList, ColLists, Numbered, DefsFiled, OutputOf;
    SelectParts(from, exprs, cond, ordering, defs);
    var l, q := AnalyzeJoinList(from, defs, []), AnalyzeSelect(from, exprs, cond, ordering, defs).q;
    AnalyzeMeaning(from, defs, []);
    NumberedGrows(l.node, defs, l.list, [TableDef("", Output(q), 0)], 0);
    NumberedFiled(q.from, defs, q.list, files, 0);
    SelectionMeaning(exprs, ColLists(l.list));
  }

  // ----- the where clause

  lemma {:induction false} LastType(tables: seq<seq<ColDesc>>, out: seq<ColDesc>, name: CString)
    ensures IdentType(tables + [out], name) ==
            if ColIdx(out, name) < |out| then out[ColIdx(out, name)].ty else IdentType(tables, name)
  {
    hide ColIdx;
    assert (tables + [out])[..|tables + [out]| - 1] == tables;
  }

  /** An output column that has the name of a column of the tables has its type. */
  ghost predicate OutputAgrees(out: seq<ColDesc>, cols: seq<ColDesc>) {
    forall i, j :: 0 <= i < |out| && 0 <= j < |cols| && out[i].name == cols[j].name ==> out[i].ty == cols[j].ty
  }

  lemma AnalyzedOutputAgrees(exprs: seq<Expr>, tables: seq<seq<ColDesc>>, cols: seq<ColDesc>)
    requires AnalyzeTargets(exprs, tables).Selection? && UniqueNames(cols) && AllSpelled(cols)
    requires forall t :: t in tables ==> Within(t, cols)
    ensures OutputAgrees(AnalyzeTargets(exprs, tables).out, cols)
  {
    hide AnalyzeTargets, UniqueNames, Within, ColIdx, IdentType, AnonName;
    var s := AnalyzeTargets(exprs, tables);
    SelectionMeaning(exprs, tables);
    forall i, j | 0 <= i < |s.out| && 0 <= j < |cols| && s.out[i].name == cols[j].name
      ensures s.out[i].ty == cols[j].ty
    {
      assert OutputAt(exprs, tables, s, i);
      ColIdxUnique(cols, j);
      if exprs[i].Ident? {
        IdentResolves(tables, cols, exprs[i].name);
      } else {
        var k: nat :| k < s.anon && s.out[i].name == AnonName(k);
        AnonDiffer(k, k);
      }
    }
  }

  lemma {:induction false} OwnNamesResolve(e: Expr, tables: seq<seq<ColDesc>>, out: seq<ColDesc>, cols: seq<ColDesc>)
    requires UniqueNames(cols) && OutputAgrees(out, cols) && NamesOwn(e, cols)
    requires forall t :: t in tables ==> Within(t, cols)
    ensures NamesResolve(e, tables + [out], cols)
  {
    hide UniqueNames, Within, ColIdx, IdentType;
    match e
    case Lit(_) =>
    case Ident(name) =>
      LastType(tables, out, name);
      IdentResolves(tables, cols, name);
    case Bin(_, _, lhs, rhs) =>
      OwnNamesResolve(lhs, tables, out, cols);
      OwnNamesResolve(rhs, tables, out, cols);
  }

  lemma ListsConcat(list: seq<TableDef>, def: TableDef)
    ensures ColLists(list + [def]) == ColLists(list) + [def.cols]
  {
  }

  /** The where clause of an accepted statement over tables with different column names stops the program
      exactly on the joined rows where it names a column of the output alone, one of its leaves is null or its
      arithmetic is undefined. */
  lemma AnalyzedWhereStopsExactly(from: From, exprs: seq<Expr>, cond: Where, ordering: Ordering, defs: seq<TableDef>,
                                  row: Row)
    requires AnalyzeSelect(from, exprs, cond, ordering, defs).Analyzed? && cond.Where?
    requires UniqueNames(TreeCols(from, defs)) && AllSpelled(TreeCols(from, defs))
    requires OperandsAgree(cond.cond, ColLists(AnalyzeSelect(from, exprs, cond, ordering, defs).q.list))
    requires Conforms(row, ColTypes(TreeCols(from, defs)))
    ensures var q, cols := AnalyzeSelect(from, exprs, cond, ordering, defs).q, TreeCols(from, defs);
            q.cond.Where? &&
            (TestWhere(q.cond, row, cols) == Stops
             <==> !NamesOwn(cond.cond, cols) || HasNullLeaf(cond.cond, row, cols)
                  || EvalExpr(q.cond.cond, row, cols) == Undefined)
  {
    hide AnalyzeSelect, AnalyzeJoinList, AnalyzeTargets, TreeCols, UniqueNames, CheckType, OperandsAgree, HasNullLeaf,
         EvalExpr, NamesResolve, Within, AllSpelled, TestRow, NamesOwn, OutputAgrees, OnList;
    SelectParts(from, exprs, cond, ordering, defs);
    var l, q := AnalyzeJoinList(from, defs, []), AnalyzeSelect(from, exprs, cond, ordering, defs).q;
    var cols, e := TreeCols(from, defs), cond.cond;
    ListedWithin(from, defs);
    ListsConcat(l.list, TableDef("", Output(q), 0));
    AnalyzedOutputAgrees(exprs, ColLists(l.list), cols);
    if NamesOwn(e, cols) {
      OwnNamesResolve(e, ColLists(l.list), Output(q), cols);
      WhereStopsExactly(e, ColLists(q.list), row, cols);
    } else {
      CheckedNames(e, ColLists(q.list), cols);
      MissingStops(q.cond.cond, row, cols);
      NoValueStops(q.cond.cond, row, cols);
    }
  }

  /** Checking does not touch the names. */
  lemma {:induction false} CheckedNames(e: Expr, tables: seq<seq<ColDesc>>, cols: seq<ColDesc>)
    requires CheckType(e, tables).Checked?
    ensures NamesOwn(CheckType(e, tables).expr, cols) <==> NamesOwn(e, cols)
  {
    hide ColIdx, HasOp, ResultType, IdentType;
    if e.Bin? {
      CheckedNames(e.lhs, tables, cols);
      CheckedNames(e.rhs, tables, cols);
    }
  }

  // ----- the sort column

  lemma {:induction false} TypedIdentsSpelled(exprs: seq<Expr>, tables: seq<seq<ColDesc>>, cols: seq<ColDesc>)
    requires AnalyzeTargets(exprs, tables).Selection? && AllSpelled(cols)
    requires forall t :: t in tables ==> Within(t, cols)
    ensures IdentsSpelled(exprs)
    ensures var out := AnalyzeTargets(exprs, tables).out;
            forall i :: 0 <= i < |out| && Spelled(out[i].name) ==> ColIdx(cols, out[i].name) < |cols|
  {
    hide AnalyzeTargets, Within, ColIdx, IdentType, AnonName;
    var s := AnalyzeTargets(exprs, tables);
    SelectionMeaning(exprs, tables);
    forall i | 0 <= i < |exprs|
      ensures exprs[i].Ident? ==> Spelled(exprs[i].name)
      ensures Spelled(s.out[i].name) ==> ColIdx(cols, s.out[i].name) < |cols|
    {
      assert OutputAt(exprs, tables, s, i);
      if exprs[i].Ident? {
        IdentWithin(tables, cols, exprs[i].name);
        assert cols[ColIdx(cols, exprs[i].name)].name == exprs[i].name;
      } else {
        var k: nat :| k < s.anon && s.out[i].name == AnonName(k);
        AnonDiffer(k, k);
      }
    }
  }

  lemma ColIdxWithin(cols: seq<ColDesc>, all: seq<ColDesc>, name: CString)
    requires Within(cols, all) && ColIdx(cols, name) < |cols|
    ensures ColIdx(all, name) < |all|
  {
    hide ColIdx;
    assert cols[ColIdx(cols, name)] in all;
  }

  /** A sort column that analysis finds is a column of the tables. */
  lemma SortColumnKnown(from: From, exprs: seq<Expr>, cond: Where, ordering: Ordering, defs: seq<TableDef>)
    requires AnalyzeSelect(from, exprs, cond, ordering, defs).Analyzed? && ordering.By? && Spelled(ordering.name)
    requires AllSpelled(TreeCols(from, defs))
    ensures ColIdx(TreeCols(from, defs), ordering.name) < |TreeCols(from, defs)|
  {
    hide AnalyzeSelect, AnalyzeJoinList, AnalyzeTargets, TreeCols, Within, AllSpelled, ColIdx, CheckQual;
    SelectParts(from, exprs, cond, ordering, defs);
    var l, q := AnalyzeJoinList(from, defs, []), AnalyzeSelect(from, exprs, cond, ordering, defs).q;
    var tables := ColLists(l.list);
    ListedWithin(from, defs);
    TypedIdentsSpelled(exprs, tables, TreeCols(from, defs));
    var i :| 0 <= i < |q.list| && ColIdx(q.list[i].cols, ordering.name) < |q.list[i].cols|;
    if i < |l.list| {
      assert tables[i] in tables;
      ColIdxWithin(tables[i], TreeCols(from, defs), ordering.name);
    }
  }

  // ----- which statements are accepted

  /** The expression is found to have a type. */
  predicate HasType(e: Expr, tables: seq<seq<ColDesc>>) {
    CheckType(e, tables).Checked? && CheckType(e, tables).ty != T_UNKNOWN
  }

  lemma {:induction false} SelectionExactly(exprs: seq<Expr>, tables: seq<seq<ColDesc>>)
    ensures AnalyzeTargets(exprs, tables).Selection? <==> forall i :: 0 <= i < |exprs| ==> HasType(exprs[i], tables)
  {
    hide CheckType, AnonName;
    if exprs != [] {
      var n := |exprs| - 1;
      SelectionExactly(exprs[..n], tables);
      assert exprs == exprs[..n] + [exprs[n]];
    }
  }

  lemma SortColumnListed(from: From, defs: seq<TableDef>, full: seq<TableDef>, name: CString)
    requires AnalyzeJoinList(from, defs, []).Listed?
    requires |full| > |AnalyzeJoinList(from, defs, []).list|
    requires full[..|AnalyzeJoinList(from, defs, []).list|] == AnalyzeJoinList(from, defs, []).list
    requires exists c :: c in TreeCols(from, defs) && c.name == name
    ensures OnList(full, name)
  {
    hide AnalyzeJoinList, TreeCols, ColIdx;
    ListedExactly(from, defs, []);
    var r := AnalyzeJoinList(from, defs, []);
    assert full[r.last] == r.list[r.last];
    var c :| c in TreeCols(from, defs) && c.name == name;
    var i :| 0 <= i < |TreeCols(from, defs)| && TreeCols(from, defs)[i] == c;
    assert ColIdx(TreeCols(from, defs), name) <= i;
  }

  /** A SELECT is accepted exactly if its from clause is, every target has a type, the where clause is found
      boolean with the output columns in sight behind all others, and the sort column is one of the tables'. */
  lemma SelectAcceptedExactly(from: From, exprs: seq<Expr>, cond: Where, ordering: Ordering, defs: seq<TableDef>)
    requires AllSpelled(TreeCols(from, defs)) && (ordering.By? ==> Spelled(ordering.name))
    ensures var tables := Posted(from, defs);
            AnalyzeSelect(from, exprs, cond, ordering, defs).Analyzed?
            <==> && Acceptable(from, defs, [])
                 && (forall i :: 0 <= i < |exprs| ==> HasType(exprs[i], tables))
                 && AnalyzeTargets(exprs, tables).Selection?
                 && (cond.Where? ==> FoundBoolean(cond.cond, tables + [AnalyzeTargets(exprs, tables).out]))
                 && (ordering.By? ==> exists c :: c in TreeCols(from, defs) && c.name == ordering.name)
  {
    hide AnalyzeJoinList, AnalyzeTargets, CheckQual, FoundBoolean, HasType, OnList, Acceptable, TreeCols, Posted,
         ColLists,
         AllSpelled, ColIdx, Spelled;
    NothingListed();
    ListedExactly(from, defs, []);
    var l, tables := AnalyzeJoinList(from, defs, []), Posted(from, defs);
    assert [] + tables == tables;
    SelectionExactly(exprs, tables);
    if l.Listed? && AnalyzeTargets(exprs, tables).Selection? {
      var out := AnalyzeTargets(exprs, tables).out;
      var full := l.list + [TableDef("", out, 0)];
      ListsConcat(l.list, TableDef("", out, 0));
      CheckQualIs(cond, full);
      if ordering.By? {
        if AnalyzeSelect(from, exprs, cond, ordering, defs).Analyzed? {
          SortColumnKnown(from, exprs, cond, ordering, defs);
          var cols := TreeCols(from, defs);
          assert cols[ColIdx(cols, ordering.name)] in cols;
        } else if exists c :: c in TreeCols(from, defs) && c.name == ordering.name {
          SortColumnListed(from, defs, full, ordering.name);
        }
      }
    }
  }

  /** The first thing found wrong is a target on which the type checker panics. */
  ghost predicate TargetPanics(exprs: seq<Expr>, tables: seq<seq<ColDesc>>) {
    exists i :: 0 <= i < |exprs| && CheckType(exprs[i], tables).Panicked?
                && forall k :: 0 <= k < i ==> HasType(exprs[k], tables)
  }

  lemma {:induction false} SelectionPanicsExactly(exprs: seq<Expr>, tables: seq<seq<ColDesc>>)
    ensures AnalyzeTargets(exprs, tables) == SelectionPanics <==> TargetPanics(exprs, tables)
  {
    hide CheckType, AnonName, HasType;
    if exprs != [] {
      var n := |exprs| - 1;
      var init := exprs[..n];
      SelectionPanicsExactly(init, tables);
      SelectionExactly(init, tables);
      assert forall k :: 0 <= k < n ==> init[k] == exprs[k];
      if TargetPanics(init, tables) {
        var i :| 0 <= i < n && CheckType(init[i], tables).Panicked?
                 && forall k :: 0 <= k < i ==> HasType(init[k], tables);
        assert CheckType(exprs[i], tables).Panicked?;
      }
    }
  }

  /** A SELECT ends in a panic of the type checker exactly if that is the first thing wrong with it, taking from
      clause, targets and where clause in turn. */
  lemma SelectPanicsExactly(from: From, exprs: seq<Expr>, cond: Where, ordering: Ordering, defs: seq<TableDef>)
    ensures var tables := Posted(from, defs);
            AnalyzeSelect(from, exprs, cond, ordering, defs).AnalysisPanics?
            <==> || PanicsFirst(from, defs, [])
                 || (Acceptable(from, defs, [])
                     && (|| TargetPanics(exprs, tables)
                         || (AnalyzeTargets(exprs, tables).Selection? && cond.Where?
                             && CheckType(cond.cond, tables + [AnalyzeTargets(exprs, tables).out]).Panicked?)))
  {
    hide AnalyzeJoinList, AnalyzeTargets, CheckType, OnList, Acceptable, Posted, ColLists, PanicsFirst, TargetPanics;
    NothingListed();
    ListedExactly(from, defs, []);
    PanicsExactly(from, defs, []);
    var l, tables := AnalyzeJoinList(from, defs, []), Posted(from, defs);
    assert [] + tables == tables;
    SelectionPanicsExactly(exprs, tables);
    if l.Listed? && AnalyzeTargets(exprs, tables).Selection? {
      ListsConcat(l.list, TableDef("", AnalyzeTargets(exprs, tables).out, 0));
    }
  }

  lemma NothingListed()
    ensures ColLists([]) == []
  {
  }

  /** Every column has a type the sort can compare, as CREATE TABLE gives them. */
  ghost predicate AllOrdered(cols: seq<ColDesc>) {
    forall i :: 0 <= i < |cols| ==> cols[i].ty == T_STRING || cols[i].ty == T_BOOL || cols[i].ty == T_INT
  }

  /** An accepted statement is planned, the sort column included, exactly if its where clause is a binary
      expression: a boolean column or literal by itself passes analysis and trips an assertion. */
  lemma PlannedExactly(from: From, exprs: seq<Expr>, cond: Where, ordering: Ordering, defs: seq<TableDef>,
                       files: seq<HeapFile.Table>)
    requires AnalyzeSelect(from, exprs, cond, ordering, defs).Analyzed? && DefsFiled(defs, files)
    requires AllSpelled(TreeCols(from, defs)) && AllOrdered(TreeCols(from, defs))
    requires ordering.By? ==> Spelled(ordering.name)
    ensures PlanAccepts(AnalyzeSelect(from, exprs, cond, ordering, defs).q) <==> cond.NoWhere? || cond.cond.Bin?
  {
    hide AnalyzeSelect, AnalyzeJoinList, AnalyzeTargets, TreeCols, AllSpelled, ColIdx, CheckType, OnList, Numbered,
         Filed, DefsFiled, OutputOf;
    SelectParts(from, exprs, cond, ordering, defs);
    AnalyzedReady(from, exprs, cond, ordering, defs, files);
    var q := AnalyzeSelect(from, exprs, cond, ordering, defs).q;
    NumberedColsJoined(q.from, defs, q.list, 0);
    if ordering.By? {
      SortColumnKnown(from, exprs, cond, ordering, defs);
    }
    if cond.Where? {
      CheckedShape(cond.cond, ColLists(q.list));
    }
  }

  lemma CheckedShape(e: Expr, tables: seq<seq<ColDesc>>)
    requires CheckType(e, tables).Checked?
    ensures CheckType(e, tables).expr.Bin? <==> e.Bin?
  {
  }

  // ----- the types of the answer

  lemma {:induction false} TypedNamesMatch(e: Expr, tables: seq<seq<ColDesc>>, cols: seq<ColDesc>)
    requires CheckType(e, tables).Checked? && CheckType(e, tables).ty != T_UNKNOWN && NamesResolve(e, tables, cols)
    ensures NamesMatch(e, tables, cols)
  {
    hide ColIdx, IdentType, HasOp, ResultType;
    if e.Bin? {
      TypedNamesMatch(e.lhs, tables, cols);
      TypedNamesMatch(e.rhs, tables, cols);
    }
  }

  lemma {:induction false} OutputNamesTyped(exprs: seq<Expr>, tables: seq<seq<ColDesc>>)
    requires AnalyzeTargets(exprs, tables).Selection? && IdentsSpelled(exprs)
    ensures NamesTyped(AnalyzeTargets(exprs, tables).out)
  {
    hide CheckType, AnonName, AnalyzeTargets;
    if exprs == [] {
      NoTargets(tables);
    } else {
      var n := |exprs| - 1;
      SelectionStep(exprs, tables);
      SelectionMeaning(exprs[..n], tables);
      OutputNamesTyped(exprs[..n], tables);
      var before, out := AnalyzeTargets(exprs[..n], tables), AnalyzeTargets(exprs, tables).out;
      forall i: nat | i < n && out[i].name == out[n].name
        ensures out[i].ty == out[n].ty
      {
        assert OutputAt(exprs[..n], tables, before, i);
        AnonDiffer(before.anon, 0);
        if exprs[i].Ident? {
          SameIdent(exprs[i], exprs[n], tables);
        } else {
          var k: nat :| k < before.anon && out[i].name == AnonName(k);
          AnonDiffer(k, before.anon);
        }
      }
      assert forall i :: 0 <= i < n ==> out[i] == before.out[i];
    }
  }

  lemma SameIdent(a: Expr, b: Expr, tables: seq<seq<ColDesc>>)
    ensures a.Ident? && b.Ident? && a.name == b.name ==> CheckType(a, tables) == CheckType(b, tables)
  {
  }

  /** What a row that is shown holds has the types of the output columns. */
  lemma ShownRowTyped(exprs: seq<Expr>, tables: seq<seq<ColDesc>>, row: Row, cols: seq<ColDesc>)
    requires AnalyzeTargets(exprs, tables).Selection? && UniqueNames(cols) && AllSpelled(cols)
    requires forall t :: t in tables ==> Within(t, cols)
    requires Conforms(row, ColTypes(cols)) && Computes(AnalyzeTargets(exprs, tables).targets, row, cols)
    ensures var s := AnalyzeTargets(exprs, tables);
            |s.out| == |s.targets| && Conforms(NamedRow(s.out, Values(s.targets, row, cols), |s.out|), ColTypes(s.out))
  {
    hide AnalyzeTargets, UniqueNames, Within, CheckType, EvalExpr, Conforms, NamesMatch, NamesResolve, NamesTyped,
         NamedRow, AllSpelled, IdentsSpelled;
    var s := AnalyzeTargets(exprs, tables);
    SelectionMeaning(exprs, tables);
    TypedIdentsSpelled(exprs, tables, cols);
    OutputNamesTyped(exprs, tables);
    var values := Values(s.targets, row, cols);
    forall i | 0 <= i < |values|
      ensures values[i] == NullD || TypeOf(values[i]) == ColTypes(s.out)[i]
    {
      assert OutputAt(exprs, tables, s, i);
      NamesWithin(exprs[i], tables, cols);
      TypedNamesMatch(exprs[i], tables, cols);
      ValueTyped(exprs[i], tables, row, cols);
    }
    ConformsIs(values, ColTypes(s.out));
    ConformingLands(s.out, values);
    NamedConforms(s.out, values);
  }

  lemma ConformsIs(row: Row, types: seq<BType>)
    requires |row| == |types| && forall i :: 0 <= i < |row| ==> row[i] == NullD || TypeOf(row[i]) == types[i]
    ensures Conforms(row, types)
  {
  }

  lemma NamedConforms(cols: seq<ColDesc>, row: Row)
    requires Lands(cols, row)
    ensures Conforms(NamedRow(cols, row, |row|), ColTypes(cols))
  {
    hide NamedRow, FirstOf, LastOf;
    forall i: nat | i < |cols|
      ensures NamedRow(cols, row, |row|)[i] == NullD || TypeOf(NamedRow(cols, row, |row|)[i]) == cols[i].ty
    {
      NamedAt(cols, row, |row|, i);
      assert FirstOf(cols, i) == i ==> LandsIn(cols, row, i);
    }
  }

  lemma {:induction false} ChosenIn(w: Where, cols: seq<ColDesc>, rows: seq<Row>)
    ensures forall x :: x in Chosen(w, cols, rows) ==> x in rows
  {
    hide TestWhere;
    if rows != [] {
      ChosenIn(w, cols, rows[1..]);
    }
  }

  lemma FilteredConforms(q: Query, files: seq<HeapFile.Table>)
    requires Filed(q.from, q.list, files) && AllValid(files)
    requires ColsJoined(q.from, q.list) && UniqueNames(ColsAt(q.from, q.list))
    ensures AllConform(Filtered(q, files), ColTypes(ColsAt(q.from, q.list)))
  {
    hide Looped, Relation, Chosen, SortRows, Filed, AllValid, ColsJoined, UniqueNames, Conforms;
    LoopedIsRelation(q.from, q.list, files);
    RelationConforms(q.from, q.list, files);
    var all, ordered := Looped(q.from, q.list, files), OrderedRows(q, files);
    if q.ordering.By? {
      SortPermutes(SortingOf(q), all);
    }
    ChosenIn(q.cond, ColsAt(q.from, q.list), ordered);
    forall x | x in ordered
      ensures x in all
    {
      assert x in multiset(ordered);
    }
  }

  // ----- the statement

  /** Not accepted by the analysis; stopped on the way; or answered. */
  datatype Answer = NotAccepted | Crashes | Answer(rows: seq<Row>)

  ghost predicate TypedAnswer(q: Query, rows: seq<Row>) {
    AllConform(rows, ColTypes(Output(q)))
  }

  /** A SELECT from its text to its answer. It is answered exactly if it is accepted, planned and has a value.
      Over tables with different column names every row of the answer then has the output's column types. */
  method SelectStatement(from: From, exprs: seq<Expr>, cond: Where, ordering: Ordering, defs: seq<TableDef>,
                         files: seq<HeapFile.Table>) returns (r: Answer)
    requires DefsFiled(defs, files) && AllValid(files)
    ensures var a := AnalyzeSelect(from, exprs, cond, ordering, defs);
            && (r.NotAccepted? <==> a.NotAnalyzed?)
            && (a.Analyzed? ==>
                  && Filed(a.q.from, a.q.list, files) && OutputOf(Output(a.q), a.q.targets)
                  && (r.Answer? <==> PlanAccepts(a.q) && HasValue(a.q, files))
                  && (r.Answer? ==>
                        r.rows == Shown(a.q.targets, Output(a.q), ColsAt(a.q.from, a.q.list), Filtered(a.q, files)))
                  && (r.Answer? && UniqueNames(TreeCols(from, defs)) && AllSpelled(TreeCols(from, defs)) ==>
                        TypedAnswer(a.q, r.rows)))
            && (a.AnalysisPanics? ==> r.Crashes?)
  {
    hide AnalyzeSelect, DefsFiled, Filed, OutputOf, PlanAccepts, HasValue, Shown, Filtered, TypedAnswer, UniqueNames,
         AllSpelled;
    var a := AnalyzeSelect(from, exprs, cond, ordering, defs);
    match a {
      case NotAnalyzed => return NotAccepted;
      case AnalysisPanics => return Crashes;
      case Analyzed(q) =>
        AnalyzedReady(from, exprs, cond, ordering, defs, files);
        var ok, rows := Select(q, files);
        if !ok {
          return Crashes;
        }
        if UniqueNames(TreeCols(from, defs)) && AllSpelled(TreeCols(from, defs)) {
          AnswerTyped(from, exprs, cond, ordering, defs, files);
        }
        return Answer(rows);
    }
  }

  lemma AnswerTyped(from: From, exprs: seq<Expr>, cond: Where, ordering: Ordering, defs: seq<TableDef>,
                    files: seq<HeapFile.Table>)
    requires AnalyzeSelect(from, exprs, cond, ordering, defs).Analyzed? && DefsFiled(defs, files) && AllValid(files)
    requires UniqueNames(TreeCols(from, defs)) && AllSpelled(TreeCols(from, defs))
    ensures var q := AnalyzeSelect(from, exprs, cond, ordering, defs).q;
            && Filed(q.from, q.list, files) && |Output(q)| == |q.targets|
            && (HasValue(q, files) ==>
                  TypedAnswer(q, Shown(q.targets, Output(q), ColsAt(q.from, q.list), Filtered(q, files))))
  {
    hide AnalyzeSelect, AnalyzeJoinList, AnalyzeTargets, CheckQual, OnList, ColLists, Numbered, DefsFiled, Filtered,
         UniqueNames, AllSpelled, Conforms, Computes, Values, NamedRow, TreeCols, Filed, AllValid, Completes, Looped,
         Sortable, Decides, OrderedRows, ColsJoined, Within;
    SelectParts(from, exprs, cond, ordering, defs);
    AnalyzedReady(from, exprs, cond, ordering, defs, files);
    var l, q := AnalyzeJoinList(from, defs, []), AnalyzeSelect(from, exprs, cond, ordering, defs).q;
    NumberedColsJoined(q.from, defs, q.list, 0);
    ListedWithin(from, defs);
    FilteredConforms(q, files);
    if HasValue(q, files) {
      var rows := Filtered(q, files);
      var shown := Shown(q.targets, Output(q), ColsAt(q.from, q.list), rows);
      forall i | 0 <= i < |shown|
        ensures Conforms(shown[i], ColTypes(Output(q)))
      {
        assert rows[i] in rows;
        ShownRowTyped(exprs, ColLists(l.list), rows[i], TreeCols(from, defs));
      }
    }
  }
}
