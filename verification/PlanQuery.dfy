/** Planning and running a SELECT. */
module PlanQuery {
  import opened Types
  import opened Schema
  import opened Codec
  import opened Expr
  import opened Heap
  import opened HeapFile
  import ModifyScan
  import opened Relations
  import opened JoinList
  import opened Executor

  /** Every node has a slot on the join list, and every table on it a file. */
  ghost predicate Filed(node: From, list: seq<TableDef>, files: seq<Table>) {
    && node.index < |list|
    && match node
       case RangeVar(_, i) => list[i].index < |files| && files[list[i].index].types == ColTypes(list[i].cols)
       case Join(_, left, right, _, _) => Filed(left, list, files) && Filed(right, list, files)
  }

  function ColsAt(node: From, list: seq<TableDef>): seq<ColDesc> {
    if node.index < |list| then list[node.index].cols else []
  }

  /** The children of a nested loop: a right join swaps its operands. */
  function Outer(node: From): From
    requires node.Join?
  {
    if node.kind.RIGHT? then node.right else node.left
  }

  function Inner(node: From): From
    requires node.Join?
  {
    if node.kind.RIGHT? then node.left else node.right
  }

  function JoiningOf(node: From, list: seq<TableDef>): Joining
    requires node.Join?
  {
    Joining(!node.kind.INNER?, node.qual, ColsAt(Outer(node), list), ColsAt(Inner(node), list), ColsAt(node, list))
  }

  // ----- what the plan of a clause delivers

  ghost function TableRows(node: From, list: seq<TableDef>, files: seq<Table>): seq<Row>
    requires Filed(node, list, files)
    reads files
  {
    if node.RangeVar? then ModifyScan.RowsOf(LiveOf(files[list[node.index].index].pages), ColsAt(node, list)) else []
  }

  /** One run of the plan of a clause, after n earlier ones. Started again, a nested loop first pulls its
      inner side without a left tuple in hand, and crashes if it gets a row. */
  ghost function Delivered(node: From, list: seq<TableDef>, files: seq<Table>, n: nat): Stream
    requires Filed(node, list, files)
    reads files
    decreases node, 1, 0
  {
    if node.RangeVar? then Stream(TableRows(node, list, files), true) else
      var outer, first := Delivered(Outer(node), list, files, n), UsedBy(node, list, files, n);
      if n > 0 && Delivered(Inner(node), list, files, first) != NOTHING then STOPPED else
        LoopAll(JoiningOf(node, list), outer,
                RunsOf(Inner(node), list, files, first + (if n > 0 then 1 else 0), |outer.rows|))
  }

  ghost function RunsOf(node: From, list: seq<TableDef>, files: seq<Table>, first: nat, count: nat): (r: seq<Stream>)
    requires Filed(node, list, files)
    ensures |r| == count
    reads files
    decreases node, 2, count
  {
    if count == 0 then [] else [Delivered(node, list, files, first)] + RunsOf(node, list, files, first + 1, count - 1)
  }

  /** How often the inner side of a join is started in the first n runs of the join. */
  ghost function UsedBy(node: From, list: seq<TableDef>, files: seq<Table>, n: nat): nat
    requires node.Join? && Filed(node, list, files)
    reads files
    decreases node, 0, n
  {
    if n == 0 then 0 else
      UsedBy(node, list, files, n - 1) + (if n == 1 then 0 else 1) + |Delivered(Outer(node), list, files, n - 1).rows|
  }

  lemma {:induction false} SelectedAll(cols: seq<ColDesc>, s: Stream)
    ensures Selected(NoWhere, cols, s) == s
    decreases |s.rows|
  {
    if s.rows != [] {
      SelectedAll(cols, Rest(s));
      RestEmit(s, s.rows[0]);
    }
  }

  ghost predicate AllValid(files: seq<Table>)
    reads files
  {
    forall i :: 0 <= i < |files| ==> files[i].Valid()
  }

  /** A node that has not been pulled yet and delivers what the clause asks for, in every run. */
  ghost predicate PlanFor(p: PlanNode, node: From, list: seq<TableDef>, files: seq<Table>)
    requires Filed(node, list, files)
    reads p, p.Repr, p.Tables, files
  {
    && p.Shape() && p.AtStart() && p.done == 0 && p.OfJoin() && (forall t :: t in p.Tables ==> t in files)
    && p.cols == ColsAt(node, list) && forall n: nat :: p.Run(n) == Delivered(node, list, files, n)
  }

  /** PlanJoin on a table. */
  method PlanTable(node: From, list: seq<TableDef>, files: seq<Table>) returns (scan: PlanNode)
    requires node.RangeVar? && Filed(node, list, files) && AllValid(files)
    ensures PlanFor(scan, node, list, files) && fresh(scan.Repr)
  {
    hide HeapOk, LiveOf, LiveFrom, Selected;
    var table := list[node.index];
    var file := files[table.index];
    var cursor := new Cursor(file);
    scan := new PlanNode.Scan(table.cols, NoWhere, cursor);
    PageStart(file.pages, 0);
    assert file.pages[0..] == file.pages;
    SelectedAll(table.cols, Stream(TableRows(node, list, files), true));
  }

  ghost predicate LoopFor(p: PlanNode, node: From, list: seq<TableDef>, files: seq<Table>)
    requires node.Join? && Filed(node, list, files)
    reads p, p.Repr, p.Tables, files
    reads if p.left != null then {p.left} + p.left.Repr else {}
    reads if p.right != null then {p.right} + p.right.Repr else {}
  {
    && p.Shape() && p.op == NestedLoop(node.kind != INNER, node.qual) && p.cols == ColsAt(node, list)
    && p.left.Tables <= p.Tables && p.right.Tables <= p.Tables
    && PlanFor(p.left, Outer(node), list, files) && PlanFor(p.right, Inner(node), list, files)
  }

  lemma {:induction false} SameUsed(p: PlanNode, node: From, list: seq<TableDef>, files: seq<Table>, n: nat)
    requires node.Join? && Filed(node, list, files) && LoopFor(p, node, list, files)
    ensures p.Used(n) == UsedBy(node, list, files, n)
  {
    hide Delivered, Filed, PlanNode.Run, PlanNode.Shape, PlanNode.AtStart;
    if n > 0 {
      SameUsed(p, node, list, files, n - 1);
    }
  }

  lemma {:induction false} SameRuns(p: PlanNode, node: From, list: seq<TableDef>, files: seq<Table>, first: nat,
                                    count: nat)
    requires Filed(node, list, files) && PlanFor(p, node, list, files)
    ensures p.Runs(first, count) == RunsOf(node, list, files, first, count)
    decreases count
  {
    if count > 0 {
      SameRuns(p, node, list, files, first + 1, count - 1);
    }
  }

  lemma LoopParts(p: PlanNode, node: From, list: seq<TableDef>, files: seq<Table>)
    requires node.Join? && Filed(node, list, files) && LoopFor(p, node, list, files)
    ensures p.Shape() && p.op.NestedLoop? && p.left != null && p.right != null && p.left.Shape() && p.right.Shape()
    ensures Filed(Outer(node), list, files) && Filed(Inner(node), list, files)
    ensures PlanFor(p.left, Outer(node), list, files) && PlanFor(p.right, Inner(node), list, files)
    ensures p.Joins() == JoiningOf(node, list)
    ensures forall n: nat :: p.left.Run(n) == Delivered(Outer(node), list, files, n)
    ensures forall n: nat :: p.right.Run(n) == Delivered(Inner(node), list, files, n)
  {
    hide Delivered, PlanNode.Run, PlanNode.AtStart;
  }

  lemma RunParts(p: PlanNode, n: nat)
    requires p.Shape() && p.op.NestedLoop?
    ensures p.left != null && p.right != null && p.left.Shape() && p.right.Shape()
    ensures var first := p.Used(n);
            p.Run(n) ==
            if n > 0 && p.right.Run(first) != NOTHING then STOPPED
            else LoopAll(p.Joins(), p.left.Run(n), p.right.Runs(first + (if n > 0 then 1 else 0), |p.left.Run(n).rows|))
  {
    hide LoopAll, PlanNode.Used, PlanNode.Runs;
  }

  lemma DeliveredIs(node: From, list: seq<TableDef>, files: seq<Table>, n: nat)
    requires node.Join? && Filed(node, list, files)
    ensures Filed(Outer(node), list, files) && Filed(Inner(node), list, files)
    ensures var outer, first := Delivered(Outer(node), list, files, n), UsedBy(node, list, files, n);
            Delivered(node, list, files, n) ==
            if n > 0 && Delivered(Inner(node), list, files, first) != NOTHING then STOPPED
            else LoopAll(JoiningOf(node, list), outer,
                         RunsOf(Inner(node), list, files, first + (if n > 0 then 1 else 0), |outer.rows|))
  {
    hide LoopAll, RunsOf, UsedBy;
  }

  lemma LoopDelivers(p: PlanNode, node: From, list: seq<TableDef>, files: seq<Table>)
    requires node.Join? && Filed(node, list, files) && LoopFor(p, node, list, files)
    ensures p.Shape() && forall n: nat :: p.Run(n) == Delivered(node, list, files, n)
  {
    hide LoopAll, Filed, LoopFor, PlanFor, PlanNode.Shape, PlanNode.AtStart, PlanNode.Used, PlanNode.Run, UsedBy,
         RunsOf, Delivered, PlanNode.Runs, PlanNode.Joins, JoiningOf;
    LoopParts(p, node, list, files);
    forall n: nat
      ensures p.Run(n) == Delivered(node, list, files, n)
    {
      RunParts(p, n);
      DeliveredIs(node, list, files, n);
      SameUsed(p, node, list, files, n);
      SameRuns(p.right, Inner(node), list, files, p.Used(n) + (if n > 0 then 1 else 0), |p.left.Run(n).rows|);
    }
  }

  /** PlanJoin on a join, given the plans of its operands. */
  method PlanLoop(node: From, list: seq<TableDef>, files: seq<Table>, leftPlan: PlanNode, rightPlan: PlanNode)
    returns (loop: PlanNode)
    requires node.Join? && Filed(node, list, files)
    requires PlanFor(leftPlan, node.left, list, files) && PlanFor(rightPlan, node.right, list, files)
    requires leftPlan.Repr !! rightPlan.Repr && forall t :: t in files ==> t !in leftPlan.Repr + rightPlan.Repr
    ensures PlanFor(loop, node, list, files) && fresh(loop.Repr - leftPlan.Repr - rightPlan.Repr)
  {
    hide Delivered;
    var l, r := leftPlan, rightPlan;
    if node.kind == RIGHT {
      l, r := r, l;
    }
    loop := new PlanNode.Loop(node.kind != INNER, node.qual, ColsAt(node, list), l, r);
    LoopDelivers(loop, node, list, files);
  }

  /** PlanJoin, where no index covers a column of the where clause. It asserts that a where clause is a
      binary expression. */
  method PlanJoin(node: From, list: seq<TableDef>, w: Where, files: seq<Table>)
    returns (plan: Executor.Option<PlanNode>)
    requires Filed(node, list, files) && AllValid(files)
    ensures plan.Some? <==> w.NoWhere? || w.cond.Bin?
    ensures plan.Some? ==> PlanFor(plan.value, node, list, files) && fresh(plan.value.Repr)
    decreases node
  {
    hide PlanFor;
    if node.RangeVar? {
      if w.Where? && !w.cond.Bin? {
        return Option.None;
      }
      var scan := PlanTable(node, list, files);
      return Option.Some(scan);
    }
    var leftPlan := PlanJoin(node.left, list, w, files);
    if leftPlan.None? {
      return Option.None;
    }
    var rightPlan := PlanJoin(node.right, list, w, files);
    if rightPlan.None? {
      return Option.None;
    }
    var loop := PlanLoop(node, list, files, leftPlan.value, rightPlan.value);
    return Option.Some(loop);
  }

  // ----- what the clause means

  /** The join's operands come in the loop's order. */
  function OrderedCols(node: From, list: seq<TableDef>): seq<ColDesc>
    requires node.Join?
  {
    ColsAt(Outer(node), list) + ColsAt(Inner(node), list)
  }

  /** The relation a from clause denotes, tables in storage order, joins left-major; a right join is the
      left join of the swapped operands with the columns put back in order. */
  ghost function Relation(node: From, list: seq<TableDef>, files: seq<Table>): seq<Row>
    requires Filed(node, list, files)
    reads files
  {
    match node
    case RangeVar(_, _) => TableRows(node, list, files)
    case Join(kind, left, right, qual, _) =>
      var l, r := Relation(left, list, files), Relation(right, list, files);
      if kind.RIGHT?
      then Rotated(JoinOf(true, qual, OrderedCols(node, list), |ColsAt(left, list)|, r, l), |ColsAt(right, list)|)
      else JoinOf(kind.LEFT?, qual, OrderedCols(node, list), |ColsAt(right, list)|, l, r)
  }

  /** What the loops make of it, whatever the column names: rows joined by copying columns by name. */
  ghost function Looped(node: From, list: seq<TableDef>, files: seq<Table>): seq<Row>
    requires Filed(node, list, files)
    reads files
    decreases node
  {
    if node.RangeVar? then TableRows(node, list, files) else
      LoopRows(JoiningOf(node, list), Looped(Outer(node), list, files), Looped(Inner(node), list, files))
  }

  /** How often the inner side of a join over this many outer rows is started in its first n + 1 runs. */
  function Starts(rows: nat, n: nat): nat {
    rows * (n + 1) + n
  }

  /** The first n + 1 runs of the clause's plan all end. For a join: those of its outer side do; so do as many
      of its inner side as it starts; the qualification can be decided on every pair of rows; and if it is
      started again, its inner side has no rows. */
  ghost predicate Completes(node: From, list: seq<TableDef>, files: seq<Table>, n: nat)
    requires Filed(node, list, files)
    reads files
    decreases node
  {
    node.Join? ==>
      var outer, inner := Looped(Outer(node), list, files), Looped(Inner(node), list, files);
      var starts := Starts(|outer|, n);
      && Completes(Outer(node), list, files, n)
      && (starts > 0 ==> Completes(Inner(node), list, files, starts - 1))
      && NoPairStops(JoiningOf(node, list), outer, inner)
      && (n > 0 ==> inner == [])
  }

  /** Joined columns are the operands', left then right. */
  ghost predicate ColsJoined(node: From, list: seq<TableDef>) {
    node.Join? ==>
      && ColsAt(node, list) == ColsAt(node.left, list) + ColsAt(node.right, list)
      && ColsJoined(node.left, list) && ColsJoined(node.right, list)
  }

  lemma {:induction false} NumberedColsJoined(node: From, defs: seq<TableDef>, list: seq<TableDef>, first: nat)
    requires Numbered(node, defs, list, first)
    ensures ColsJoined(node, list) && ColsAt(node, list) == TreeCols(node, defs)
  {
    NumberedCols(node, defs, list, first);
    if node.Join? {
      NumberedColsJoined(node.left, defs, list, first);
      NumberedColsJoined(node.right, defs, list, first + Size(node.left));
    }
  }

  // ----- the plan delivers the relation

  lemma {:induction false} LiveConform(pages: Pages, cols: seq<ColDesc>)
    requires HeapOk(pages, ColTypes(cols))
    ensures forall x :: x in ModifyScan.RowsOf(LiveOf(pages), cols) ==> Conforms(x, ColTypes(cols))
  {
    hide HeapOk, LiveOf, StoredAt, TupleOf, RowOf, Lookup;
    var bs := LiveOf(pages);
    var rows := ModifyScan.RowsOf(bs, cols);
    forall i | 0 <= i < |rows|
      ensures Conforms(rows[i], ColTypes(cols))
    {
      LiveStored(pages, ColTypes(cols), bs[i]);
      var p: nat, s: nat :| Lookup(pages, p, s) == Found.Tuple(bs[i]) && StoredAt(bs[i], ColTypes(cols), p, s);
      StoredFacts(bs[i], ColTypes(cols), p, s);
    }
  }

  lemma {:induction false} ConcatsWide(q: Where, cols: seq<ColDesc>, l: Row, rs: seq<Row>, a: nat, b: nat)
    requires |l| == a && Wide(rs, b)
    ensures Wide(Concats(q, cols, l, rs), a + b)
  {
    hide TestWhere;
    if rs != [] {
      assert rs[0] in rs;
      ConcatsWide(q, cols, l, rs[1..], a, b);
    }
  }

  lemma {:induction false} JoinOfWide(outer: bool, q: Where, cols: seq<ColDesc>, ls: seq<Row>, rs: seq<Row>, a: nat,
                                      b: nat)
    requires Wide(ls, a) && Wide(rs, b)
    ensures Wide(JoinOf(outer, q, cols, b, ls, rs), a + b)
  {
    hide Concats;
    if ls != [] {
      assert ls[0] in ls;
      ConcatsWide(q, cols, ls[0], rs, a, b);
      JoinOfWide(outer, q, cols, ls[1..], rs, a, b);
    }
  }

  lemma RotatedWide(rows: seq<Row>, n: nat, w: nat)
    requires Wide(rows, w) && n <= w
    ensures Wide(Rotated(rows, n), w)
  {
  }

  lemma {:induction false} RelationWide(node: From, list: seq<TableDef>, files: seq<Table>)
    requires Filed(node, list, files) && AllValid(files) && ColsJoined(node, list)
    ensures Wide(Relation(node, list, files), |ColsAt(node, list)|)
  {
    hide HeapOk, JoinOf, Rotated, LiveOf;
    match node
    case RangeVar(_, _) =>
      LiveConform(files[list[node.index].index].pages, ColsAt(node, list));
    case Join(kind, left, right, qual, _) =>
      RelationWide(left, list, files);
      RelationWide(right, list, files);
      var l, r := Relation(left, list, files), Relation(right, list, files);
      if kind.RIGHT? {
        JoinOfWide(true, qual, OrderedCols(node, list), r, l, |ColsAt(right, list)|, |ColsAt(left, list)|);
        RotatedWide(JoinOf(true, qual, OrderedCols(node, list), |ColsAt(left, list)|, r, l), |ColsAt(right, list)|,
                    |ColsAt(node, list)|);
      } else {
        JoinOfWide(kind.LEFT?, qual, OrderedCols(node, list), l, r, |ColsAt(left, list)|, |ColsAt(right, list)|);
      }
  }

  /** The first n + 1 runs, one by one. */
  ghost predicate RunsMean(node: From, list: seq<TableDef>, files: seq<Table>, n: nat)
    requires Filed(node, list, files)
    reads files
  {
    forall k: nat :: k <= n ==> Delivered(node, list, files, k) == Stream(Looped(node, list, files), true)
  }

  ghost predicate RunsEnd(node: From, list: seq<TableDef>, files: seq<Table>, n: nat)
    requires Filed(node, list, files)
    reads files
  {
    forall k: nat :: k <= n ==> Delivered(node, list, files, k).ok
  }

  lemma {:induction false} RunsAt(node: From, list: seq<TableDef>, files: seq<Table>, first: nat, count: nat, i: nat)
    requires Filed(node, list, files) && i < count
    ensures RunsOf(node, list, files, first, count)[i] == Delivered(node, list, files, first + i)
    decreases count
  {
    hide Delivered;
    if i > 0 {
      RunsAt(node, list, files, first + 1, count - 1, i - 1);
    }
  }

  lemma {:induction false} UsedIs(node: From, list: seq<TableDef>, files: seq<Table>, n: nat)
    requires node.Join? && Filed(node, list, files)
    requires n > 0 ==> RunsMean(Outer(node), list, files, n - 1)
    ensures UsedBy(node, list, files, n) == if n == 0 then 0 else Starts(|Looped(Outer(node), list, files)|, n - 1)
  {
    hide Delivered, Looped;
    if n > 1 {
      UsedIs(node, list, files, n - 1);
      StartsMore(|Looped(Outer(node), list, files)|, n - 1);
    }
  }

  lemma StartsMore(rows: nat, n: nat)
    ensures n > 0 ==> Starts(rows, n) == Starts(rows, n - 1) + 1 + rows
    ensures Starts(rows, 0) == rows
  {
    assert rows * (n + 1) == rows * n + rows;
  }

  lemma FewerRuns(node: From, list: seq<TableDef>, files: seq<Table>, n: nat, m: nat)
    requires Filed(node, list, files) && m <= n
    ensures RunsMean(node, list, files, n) ==> RunsMean(node, list, files, m)
    ensures RunsEnd(node, list, files, n) ==> RunsEnd(node, list, files, m)
  {
    hide Delivered, Looped;
  }

  /** The inner side, in the runs the n-th run of a join starts. */
  lemma InnerRuns(node: From, list: seq<TableDef>, files: seq<Table>, first: nat, count: nat)
    requires node.Join? && Filed(node, list, files)
    requires count > 0 ==> RunsMean(Inner(node), list, files, first + count - 1)
    ensures AllSame(RunsOf(Inner(node), list, files, first, count), Stream(Looped(Inner(node), list, files), true))
  {
    hide Delivered, Looped, RunsOf;
    forall i | 0 <= i < count
      ensures RunsOf(Inner(node), list, files, first, count)[i] == Stream(Looped(Inner(node), list, files), true)
    {
      RunsAt(Inner(node), list, files, first, count, i);
    }
  }

  /** The first n + 1 runs of the clause's plan end exactly if it completes them, and then each delivers the
      relation. */
  ghost predicate Known(node: From, list: seq<TableDef>, files: seq<Table>, n: nat)
    requires Filed(node, list, files)
    reads files
  {
    && (Completes(node, list, files, n) <==> RunsEnd(node, list, files, n))
    && (Completes(node, list, files, n) ==> RunsMean(node, list, files, n))
  }

  /** A loop over sides that deliver their rows delivers those of the join. */
  lemma LoopDone(node: From, list: seq<TableDef>, files: seq<Table>, inner: seq<Stream>)
    requires node.Join? && Filed(node, list, files)
    requires |inner| == |Looped(Outer(node), list, files)|
    requires AllSame(inner, Stream(Looped(Inner(node), list, files), true))
    ensures var outer := Looped(Outer(node), list, files);
            var s := LoopAll(JoiningOf(node, list), Stream(outer, true), inner);
            && (s.ok <==> NoPairStops(JoiningOf(node, list), outer, Looped(Inner(node), list, files)))
            && (s.ok ==> s == Stream(Looped(node, list, files), true))
  {
    hide LoopAll, LoopRows, TableRows, NoPairStops, AllSame;
    LoopMeaning(JoiningOf(node, list), Stream(Looped(Outer(node), list, files), true),
                Stream(Looped(Inner(node), list, files), true), inner);
  }

  /** Some run of the inner side does not end: neither does the loop that starts it. */
  lemma InnerBroken(node: From, list: seq<TableDef>, files: seq<Table>, ls: Stream, first: nat, k: nat)
    requires node.Join? && Filed(node, list, files) && first <= k < first + |ls.rows|
    requires !Delivered(Inner(node), list, files, k).ok
    ensures !LoopAll(JoiningOf(node, list), ls, RunsOf(Inner(node), list, files, first, |ls.rows|)).ok
  {
    hide LoopAll, Delivered, RunsOf;
    RunsAt(Inner(node), list, files, first, |ls.rows|, k - first);
    LoopBroken(JoiningOf(node, list), ls, RunsOf(Inner(node), list, files, first, |ls.rows|));
  }

  lemma KnownFirst(node: From, list: seq<TableDef>, files: seq<Table>)
    requires Filed(node, list, files)
    ensures Known(node, list, files, 0)
            <==> && (Completes(node, list, files, 0) <==> Delivered(node, list, files, 0).ok)
                 && (Completes(node, list, files, 0) ==>
                     Delivered(node, list, files, 0) == Stream(Looped(node, list, files), true))
  {
    hide Delivered, Looped, Completes;
  }

  lemma KnownMeans(node: From, list: seq<TableDef>, files: seq<Table>, n: nat)
    requires Filed(node, list, files) && Known(node, list, files, n) && Completes(node, list, files, n)
    ensures RunsMean(node, list, files, n)
    ensures forall k: nat :: k <= n ==> Delivered(node, list, files, k) == Stream(Looped(node, list, files), true)
  {
    hide Delivered, Looped, Completes;
  }

  lemma KnownBroken(node: From, list: seq<TableDef>, files: seq<Table>, n: nat) returns (k: nat)
    requires Filed(node, list, files) && Known(node, list, files, n) && !Completes(node, list, files, n)
    ensures k <= n && !Delivered(node, list, files, k).ok
  {
    hide Delivered, Looped, Completes;
    k :| k <= n && !Delivered(node, list, files, k).ok;
  }

  lemma CompletesIs(node: From, list: seq<TableDef>, files: seq<Table>, n: nat)
    requires node.Join? && Filed(node, list, files)
    ensures var outer, inner := Looped(Outer(node), list, files), Looped(Inner(node), list, files);
            Completes(node, list, files, n)
            <==> && Completes(Outer(node), list, files, n)
                 && (Starts(|outer|, n) > 0 ==> Completes(Inner(node), list, files, Starts(|outer|, n) - 1))
                 && NoPairStops(JoiningOf(node, list), outer, inner)
                 && (n > 0 ==> inner == [])
  {
    hide Looped, NoPairStops, Starts;
  }

  lemma FirstRun(node: From, list: seq<TableDef>, files: seq<Table>)
    requires node.Join? && Filed(node, list, files) && Known(Outer(node), list, files, 0)
    requires var c := |Looped(Outer(node), list, files)|; c > 0 ==> Known(Inner(node), list, files, c - 1)
    ensures Known(node, list, files, 0)
  {
    hide LoopAll, RunsOf, NoPairStops, Looped, AllSame, Delivered, Completes, Known, RunsMean, Starts;
    var outer := Delivered(Outer(node), list, files, 0);
    var c := |Looped(Outer(node), list, files)|;
    KnownFirst(node, list, files);
    KnownFirst(Outer(node), list, files);
    CompletesIs(node, list, files, 0);
    DeliveredFirst(node, list, files);
    StartsMore(c, 0);
    if !outer.ok {
      LoopBroken(JoiningOf(node, list), outer, RunsOf(Inner(node), list, files, 0, |outer.rows|));
    } else if c > 0 && !Completes(Inner(node), list, files, c - 1) {
      var k := KnownBroken(Inner(node), list, files, c - 1);
      InnerBroken(node, list, files, outer, 0, k);
    } else {
      if c > 0 {
        KnownMeans(Inner(node), list, files, c - 1);
      }
      InnerRuns(node, list, files, 0, c);
      LoopDone(node, list, files, RunsOf(Inner(node), list, files, 0, c));
    }
  }

  lemma DeliveredFirst(node: From, list: seq<TableDef>, files: seq<Table>)
    requires node.Join? && Filed(node, list, files)
    ensures var outer := Delivered(Outer(node), list, files, 0);
            Delivered(node, list, files, 0) ==
              LoopAll(JoiningOf(node, list), outer, RunsOf(Inner(node), list, files, 0, |outer.rows|))
  {
    hide LoopAll, RunsOf;
  }

  lemma DeliveredLater(node: From, list: seq<TableDef>, files: seq<Table>, n: nat)
    requires node.Join? && Filed(node, list, files) && n > 0
    ensures var outer, first := Delivered(Outer(node), list, files, n), UsedBy(node, list, files, n);
            Delivered(node, list, files, n) ==
            if Delivered(Inner(node), list, files, first) != NOTHING then STOPPED
            else LoopAll(JoiningOf(node, list), outer, RunsOf(Inner(node), list, files, first + 1, |outer.rows|))
  {
    hide LoopAll, RunsOf, UsedBy;
  }

  /** One more run of a join, all before it having ended. */
  lemma LaterRun(node: From, list: seq<TableDef>, files: seq<Table>, n: nat)
    requires node.Join? && Filed(node, list, files) && n > 0 && Completes(node, list, files, n - 1)
    requires Known(node, list, files, n - 1)
    requires PartsKnown(node, list, files, n - 1) && PartsKnown(node, list, files, n)
    ensures Completes(node, list, files, n) <==> Delivered(node, list, files, n).ok
    ensures Completes(node, list, files, n) ==>
            Delivered(node, list, files, n) == Stream(Looped(node, list, files), true)
  {
    hide LoopAll, RunsOf, NoPairStops, Looped, AllSame, Delivered, UsedBy, Starts, Completes, Known,
         RunsMean;
    var c := |Looped(Outer(node), list, files)|;
    var outer, first := Delivered(Outer(node), list, files, n), UsedBy(node, list, files, n);
    CompletesIs(node, list, files, n - 1);
    CompletesIs(node, list, files, n);
    KnownMeans(Outer(node), list, files, n - 1);
    UsedIs(node, list, files, n);
    StartsMore(c, n);
    DeliveredLater(node, list, files, n);
    if !outer.ok {
      LoopBroken(JoiningOf(node, list), outer, RunsOf(Inner(node), list, files, first + 1, |outer.rows|));
      if Completes(Outer(node), list, files, n) {
        KnownMeans(Outer(node), list, files, n);
      }
    } else {
      OuterEnds(node, list, files, n);
      InnerEnds(node, list, files, n, first, c, outer);
    }
  }

  lemma InnerEnds(node: From, list: seq<TableDef>, files: seq<Table>, n: nat, first: nat, c: nat, outer: Stream)
    requires node.Join? && Filed(node, list, files) && n > 0 && c == |Looped(Outer(node), list, files)|
    requires outer == Stream(Looped(Outer(node), list, files), true)
    requires Delivered(Outer(node), list, files, n) == outer
    requires first == UsedBy(node, list, files, n) && Known(Inner(node), list, files, first + c)
    requires first > 0 ==> Known(Inner(node), list, files, first - 1) && Completes(Inner(node), list, files, first - 1)
    requires NoPairStops(JoiningOf(node, list), Looped(Outer(node), list, files), Looped(Inner(node), list, files))
    ensures Completes(Inner(node), list, files, first + c) && Looped(Inner(node), list, files) == []
            <==> Delivered(node, list, files, n).ok
    ensures Delivered(node, list, files, n).ok ==>
            Delivered(node, list, files, n) == Stream(Looped(node, list, files), true)
  {
    hide LoopAll, RunsOf, NoPairStops, Looped, AllSame, Delivered, UsedBy, Starts, Completes, Known,
         RunsMean;
    DeliveredLater(node, list, files, n);
    if Completes(Inner(node), list, files, first + c) {
      KnownMeans(Inner(node), list, files, first + c);
      InnerRuns(node, list, files, first + 1, c);
      LoopDone(node, list, files, RunsOf(Inner(node), list, files, first + 1, c));
    } else {
      var k := KnownBroken(Inner(node), list, files, first + c);
      if first > 0 {
        KnownMeans(Inner(node), list, files, first - 1);
      }
      if k > first {
        InnerBroken(node, list, files, outer, first + 1, k);
      }
    }
  }

  lemma OuterEnds(node: From, list: seq<TableDef>, files: seq<Table>, n: nat)
    requires node.Join? && Filed(node, list, files) && n > 0 && Delivered(Outer(node), list, files, n).ok
    requires Known(Outer(node), list, files, n - 1) && Known(Outer(node), list, files, n)
    requires Completes(Outer(node), list, files, n - 1)
    ensures Completes(Outer(node), list, files, n)
    ensures Delivered(Outer(node), list, files, n) == Stream(Looped(Outer(node), list, files), true)
  {
    hide Delivered, Looped, Completes;
    assert RunsEnd(Outer(node), list, files, n);
  }

  /** The plan of any from clause, run any number of times. */
  lemma {:induction false} AllRuns(node: From, list: seq<TableDef>, files: seq<Table>, n: nat)
    requires Filed(node, list, files)
    ensures Known(node, list, files, n)
    decreases node, n
  {
    hide LoopAll, Looped, Delivered, Starts, Known, Completes, RunsOf, Filed,
         ColsAt;
    if node.RangeVar? {
      TableRuns(node, list, files, n);
    } else {
      PartsReady(node, list, files);
      var c := |Looped(Outer(node), list, files)|;
      StartsMore(c, n);
      AllRuns(Outer(node), list, files, n);
      if Starts(c, n) > 0 {
        AllRuns(Inner(node), list, files, Starts(c, n) - 1);
      }
      if n == 0 {
        FirstRun(node, list, files);
      } else {
        AllRuns(node, list, files, n - 1);
        AllRuns(Outer(node), list, files, n - 1);
        if Starts(c, n - 1) > 0 {
          AllRuns(Inner(node), list, files, Starts(c, n - 1) - 1);
        }
        PartsAre(node, list, files, n - 1);
        PartsAre(node, list, files, n);
        NextRun(node, list, files, n);
      }
    }
  }

  lemma PartsAre(node: From, list: seq<TableDef>, files: seq<Table>, n: nat)
    requires node.Join? && Filed(node, list, files)
    ensures var starts := Starts(|Looped(Outer(node), list, files)|, n);
            PartsKnown(node, list, files, n)
            <==> Known(Outer(node), list, files, n) && (starts > 0 ==> Known(Inner(node), list, files, starts - 1))
  {
    hide Looped, Known, Starts;
  }

  lemma PartsReady(node: From, list: seq<TableDef>, files: seq<Table>)
    requires node.Join? && Filed(node, list, files)
    ensures Outer(node) < node && Inner(node) < node
    ensures Filed(Outer(node), list, files) && Filed(Inner(node), list, files)
  {
  }

  lemma TableRuns(node: From, list: seq<TableDef>, files: seq<Table>, n: nat)
    requires node.RangeVar? && Filed(node, list, files)
    ensures Known(node, list, files, n)
  {
    hide TableRows;
  }

  /** What is known of the sides of a join when it is started for the n-th time. */
  ghost predicate PartsKnown(node: From, list: seq<TableDef>, files: seq<Table>, n: nat)
    requires node.Join? && Filed(node, list, files)
    reads files
  {
    var starts := Starts(|Looped(Outer(node), list, files)|, n);
    Known(Outer(node), list, files, n) && (starts > 0 ==> Known(Inner(node), list, files, starts - 1))
  }

  lemma NextRun(node: From, list: seq<TableDef>, files: seq<Table>, n: nat)
    requires node.Join? && Filed(node, list, files) && n > 0 && Known(node, list, files, n - 1)
    requires PartsKnown(node, list, files, n - 1) && PartsKnown(node, list, files, n)
    ensures Known(node, list, files, n)
  {
    hide Looped, Delivered, Completes, Known, PartsKnown, Filed;
    CompletesLess(node, list, files, n);
    if Completes(node, list, files, n - 1) {
      LaterRun(node, list, files, n);
    }
    KnownStep(node, list, files, n);
  }

  lemma CompletesLess(node: From, list: seq<TableDef>, files: seq<Table>, n: nat)
    requires node.Join? && Filed(node, list, files) && n > 0
    requires PartsKnown(node, list, files, n - 1) && PartsKnown(node, list, files, n)
    ensures Completes(node, list, files, n) ==> Completes(node, list, files, n - 1)
  {
    hide Looped, Delivered, Starts, NoPairStops, Completes, Known;
    var c := |Looped(Outer(node), list, files)|;
    StartsMore(c, n);
    KnownParts(Outer(node), list, files, n, n - 1);
    if Starts(c, n - 1) > 0 {
      KnownParts(Inner(node), list, files, Starts(c, n) - 1, Starts(c, n - 1) - 1);
    }
    CompletesIs(node, list, files, n - 1);
    CompletesIs(node, list, files, n);
  }

  lemma KnownParts(node: From, list: seq<TableDef>, files: seq<Table>, n: nat, m: nat)
    requires Filed(node, list, files) && m <= n && Known(node, list, files, n) && Known(node, list, files, m)
    ensures Completes(node, list, files, n) ==> Completes(node, list, files, m)
  {
    hide Delivered, Looped, Completes, RunsMean;
    FewerRuns(node, list, files, n, m);
  }

  lemma KnownStep(node: From, list: seq<TableDef>, files: seq<Table>, n: nat)
    requires Filed(node, list, files) && n > 0 && Known(node, list, files, n - 1)
    requires Completes(node, list, files, n) ==> Completes(node, list, files, n - 1)
    requires Completes(node, list, files, n - 1) ==>
               && (Completes(node, list, files, n) <==> Delivered(node, list, files, n).ok)
               && (Completes(node, list, files, n) ==>
                   Delivered(node, list, files, n) == Stream(Looped(node, list, files), true))
    ensures Known(node, list, files, n)
  {
    hide Delivered, Looped, Completes, RunsMean, RunsEnd;
    OneMoreRun(node, list, files, n);
  }

  lemma OneMoreRun(node: From, list: seq<TableDef>, files: seq<Table>, n: nat)
    requires Filed(node, list, files) && n > 0
    ensures RunsEnd(node, list, files, n) <==> RunsEnd(node, list, files, n - 1) && Delivered(node, list, files, n).ok
    ensures RunsMean(node, list, files, n)
            <==> RunsMean(node, list, files, n - 1)
                 && Delivered(node, list, files, n) == Stream(Looped(node, list, files), true)
  {
    hide Delivered, Looped;
  }

  /** The plan of a from clause runs to its end exactly if it completes: every qualification it comes to can
      be decided, and no join that it starts again has an inner side with rows. It then delivers exactly what
      the loops make of the tables, in order. */
  lemma JoinMeaning(node: From, list: seq<TableDef>, files: seq<Table>)
    requires Filed(node, list, files)
    ensures Delivered(node, list, files, 0).ok <==> Completes(node, list, files, 0)
    ensures Delivered(node, list, files, 0).ok ==> Delivered(node, list, files, 0).rows == Looped(node, list, files)
  {
    hide Delivered, Looped, Completes;
    AllRuns(node, list, files, 0);
  }

  // ----- different column names

  lemma LoopIsJoin(node: From, list: seq<TableDef>, ls: seq<Row>, rs: seq<Row>)
    requires node.Join? && ColsJoined(node, list) && UniqueNames(ColsAt(node, list))
    requires Wide(ls, |ColsAt(Outer(node), list)|) && Wide(rs, |ColsAt(Inner(node), list)|)
    ensures var joined := JoinOf(!node.kind.INNER?, node.qual, OrderedCols(node, list), |ColsAt(Inner(node), list)|,
                                 ls, rs);
            && (NoPairStops(JoiningOf(node, list), ls, rs) <==> PairsDecide(node.qual, OrderedCols(node, list), ls, rs))
            && LoopRows(JoiningOf(node, list), ls, rs) ==
                 if node.kind.RIGHT? then Rotated(joined, |ColsAt(Outer(node), list)|) else joined
  {
    hide LoopRows, JoinOf, Rotated, UniqueNames, Wide, NoPairStops, PairsDecide;
    var j := JoiningOf(node, list);
    if node.kind.RIGHT? {
      SwappedJoined(j, ls, rs);
    } else {
      StraightJoined(j, ls, rs);
    }
  }

  lemma PartsUnique(node: From, list: seq<TableDef>)
    requires node.Join? && ColsJoined(node, list) && UniqueNames(ColsAt(node, list))
    ensures UniqueNames(ColsAt(node.left, list)) && UniqueNames(ColsAt(node.right, list))
  {
    hide UniqueNames;
    UniqueParts(ColsAt(node.left, list), ColsAt(node.right, list));
  }

  /** Over tables whose column names all differ, what the loops make is the relation the clause denotes. */
  lemma {:induction false} LoopedIsRelation(node: From, list: seq<TableDef>, files: seq<Table>)
    requires Filed(node, list, files) && AllValid(files)
    requires ColsJoined(node, list) && UniqueNames(ColsAt(node, list))
    ensures Looped(node, list, files) == Relation(node, list, files)
    ensures node.Join? ==>
              (NoPairStops(JoiningOf(node, list), Looped(Outer(node), list, files), Looped(Inner(node), list, files))
               <==> PairsDecide(node.qual, OrderedCols(node, list), Relation(Outer(node), list, files),
                                Relation(Inner(node), list, files)))
  {
    hide JoinOf, Rotated, UniqueNames, TableRows, PairsDecide, NoPairStops, LoopRows, Wide, AllValid;
    if node.Join? {
      PartsUnique(node, list);
      LoopedIsRelation(node.left, list, files);
      LoopedIsRelation(node.right, list, files);
      RelationWide(node.left, list, files);
      RelationWide(node.right, list, files);
      LoopIsJoin(node, list, Relation(Outer(node), list, files), Relation(Inner(node), list, files));
    }
  }

  lemma InRotated(rows: seq<Row>, n: nat, w: nat, x: Row)
    requires Wide(rows, w) && n <= w
    ensures x in Rotated(rows, n) <==> |x| == w && x[w - n..] + x[..w - n] in rows
  {
    var r := Rotated(rows, n);
    if x in r {
      var i :| 0 <= i < |r| && r[i] == x;
      assert rows[i] in rows;
      assert x[w - n..] == rows[i][..n] && x[..w - n] == rows[i][n..];
      assert rows[i] == rows[i][..n] + rows[i][n..];
    }
    if |x| == w && x[w - n..] + x[..w - n] in rows {
      var y := x[w - n..] + x[..w - n];
      var i :| 0 <= i < |rows| && rows[i] == y;
      assert y[n..] == x[..w - n] && y[..n] == x[w - n..];
      assert r[i] == x[..w - n] + x[w - n..] == x;
    }
  }

  ghost predicate Pairs(q: Where, cols: seq<ColDesc>, ls: seq<Row>, rs: seq<Row>, x: Row) {
    exists l, r :: l in ls && r in rs && Satisfies(q, l + r, cols) && x == l + r
  }

  ghost predicate LonelyLeft(q: Where, cols: seq<ColDesc>, ls: seq<Row>, rs: seq<Row>, pad: nat, x: Row) {
    exists l :: l in ls && x == l + NullRow(pad) && forall r :: r in rs ==> !Satisfies(q, l + r, cols)
  }

  ghost predicate LonelyRight(q: Where, cols: seq<ColDesc>, ls: seq<Row>, rs: seq<Row>, pad: nat, x: Row) {
    exists r :: r in rs && x == NullRow(pad) + r && forall l :: l in ls ==> !Satisfies(q, l + r, cols)
  }

  lemma JoinOfMeaning(outer: bool, q: Where, cols: seq<ColDesc>, pad: nat, ls: seq<Row>, rs: seq<Row>, x: Row)
    ensures x in JoinOf(outer, q, cols, pad, ls, rs)
            <==> Pairs(q, cols, ls, rs, x) || (outer && LonelyLeft(q, cols, ls, rs, pad, x))
  {
    hide TestWhere, JoinOf, Satisfies;
    JoinRowsAre(outer, q, cols, pad, ls, rs, x);
    forall row
      ensures TestWhere(q, row, cols) == Passes <==> Satisfies(q, row, cols)
    {
      TestMeaning(q, row, cols);
    }
  }

  /** With the sides and the columns exchanged. */
  lemma SwappedMeaning(q: Where, a: seq<ColDesc>, b: seq<ColDesc>, ls: seq<Row>, rs: seq<Row>, x: Row)
    requires UniqueNames(a + b) && Wide(ls, |a|) && Wide(rs, |b|) && |x| == |a| + |b|
    ensures var y := x[|a|..] + x[..|a|];
            && (Pairs(q, b + a, rs, ls, y) <==> Pairs(q, a + b, ls, rs, x))
            && (LonelyLeft(q, b + a, rs, ls, |a|, y) <==> LonelyRight(q, a + b, ls, rs, |a|, x))
  {
    hide TestWhere, Satisfies, UniqueNames, NullRow;
    var y := x[|a|..] + x[..|a|];
    forall l, r | l in ls && r in rs
      ensures Satisfies(q, l + r, a + b) <==> Satisfies(q, r + l, b + a)
      ensures x == l + r <==> y == r + l
    {
      TestSwapped(q, l, r, a, b);
      TestMeaning(q, l + r, a + b);
      TestMeaning(q, r + l, b + a);
      Exchanged(x, l, r);
    }
    forall r | r in rs
      ensures x == NullRow(|a|) + r <==> y == r + NullRow(|a|)
    {
      Exchanged(x, NullRow(|a|), r);
    }
  }

  lemma Exchanged(x: Row, l: Row, r: Row)
    requires |x| == |l| + |r|
    ensures x == l + r <==> x[|l|..] + x[..|l|] == r + l
  {
    var y := x[|l|..] + x[..|l|];
    assert x == x[..|l|] + x[|l|..];
    if y == r + l {
      assert y[..|r|] == r && y[|r|..] == l;
    }
  }

  /** The rows of a join over tables with different column names: the pairs of which the qualification is true;
      for LEFT also the left rows in no such pair, with nulls; for RIGHT the right rows likewise. */
  lemma RelationMeaning(node: From, list: seq<TableDef>, files: seq<Table>, x: Row)
    requires node.Join? && Filed(node, list, files) && AllValid(files)
    requires ColsJoined(node, list) && UniqueNames(ColsAt(node, list))
    ensures var a, b := ColsAt(node.left, list), ColsAt(node.right, list);
            var ls, rs := Relation(node.left, list, files), Relation(node.right, list, files);
            x in Relation(node, list, files)
            <==> || Pairs(node.qual, a + b, ls, rs, x)
                 || (node.kind == LEFT && LonelyLeft(node.qual, a + b, ls, rs, |b|, x))
                 || (node.kind == RIGHT && LonelyRight(node.qual, a + b, ls, rs, |a|, x))
  {
    hide JoinOf, Rotated, UniqueNames, Wide, Pairs, LonelyLeft, LonelyRight, AllValid;
    var a, b := ColsAt(node.left, list), ColsAt(node.right, list);
    var ls, rs := Relation(node.left, list, files), Relation(node.right, list, files);
    RelationWide(node.left, list, files);
    RelationWide(node.right, list, files);
    if node.kind.RIGHT? {
      var joined := JoinOf(true, node.qual, b + a, |a|, rs, ls);
      JoinOfWide(true, node.qual, b + a, rs, ls, |b|, |a|);
      InRotated(joined, |b|, |a| + |b|, x);
      PairsWide(node.qual, a + b, ls, rs, |a|, |b|, x);
      if |x| == |a| + |b| {
        JoinOfMeaning(true, node.qual, b + a, |a|, rs, ls, x[|a|..] + x[..|a|]);
        SwappedMeaning(node.qual, a, b, ls, rs, x);
      }
    } else {
      JoinOfMeaning(node.kind.LEFT?, node.qual, a + b, |b|, ls, rs, x);
    }
  }

  lemma PairsWide(q: Where, cols: seq<ColDesc>, ls: seq<Row>, rs: seq<Row>, a: nat, b: nat, x: Row)
    requires Wide(ls, a) && Wide(rs, b)
    ensures Pairs(q, cols, ls, rs, x) || LonelyRight(q, cols, ls, rs, a, x) ==> |x| == a + b
  {
    hide Satisfies;
  }

  // ----- which qualifications decide

  /** Every qualification of the clause can be decided on every pair of rows of its operands. */
  ghost predicate Decided(node: From, list: seq<TableDef>, files: seq<Table>)
    requires Filed(node, list, files)
    reads files
    decreases node
  {
    node.Join? ==>
      && NoPairStops(JoiningOf(node, list), Looped(Outer(node), list, files), Looped(Inner(node), list, files))
      && Decided(node.left, list, files) && Decided(node.right, list, files)
  }

  /** Every inner side is a table: no join is ever started again. */
  predicate InnerTables(node: From) {
    node.Join? ==> Inner(node).RangeVar? && InnerTables(Outer(node))
  }

  /** The plan of such a clause runs to its end exactly if every qualification decides. */
  lemma {:induction false} InnerTablesComplete(node: From, list: seq<TableDef>, files: seq<Table>)
    requires InnerTables(node) && Filed(node, list, files)
    ensures Completes(node, list, files, 0) <==> Decided(node, list, files)
  {
    hide Looped, NoPairStops, Starts;
    if node.Join? {
      InnerTablesComplete(Outer(node), list, files);
      CompletesIs(node, list, files, 0);
    }
  }

  ghost predicate AllConform(rows: seq<Row>, types: seq<BType>) {
    forall x :: x in rows ==> Conforms(x, types)
  }

  lemma ConformsConcat(l: Row, r: Row, a: seq<BType>, b: seq<BType>)
    requires Conforms(l, a) && Conforms(r, b)
    ensures Conforms(l + r, a + b)
  {
  }

  lemma NullsConform(n: nat, types: seq<BType>)
    requires n == |types|
    ensures Conforms(NullRow(n), types)
  {
  }

  lemma {:induction false} ConcatsConform(q: Where, cols: seq<ColDesc>, l: Row, rs: seq<Row>, a: seq<BType>,
                                          b: seq<BType>)
    requires Conforms(l, a) && AllConform(rs, b)
    ensures AllConform(Concats(q, cols, l, rs), a + b)
  {
    hide TestWhere, Conforms;
    if rs != [] {
      assert rs[0] in rs;
      ConformsConcat(l, rs[0], a, b);
      ConcatsConform(q, cols, l, rs[1..], a, b);
    }
  }

  lemma {:induction false} JoinOfConforms(outer: bool, q: Where, cols: seq<ColDesc>, ls: seq<Row>, rs: seq<Row>,
                                          a: seq<BType>, b: seq<BType>)
    requires AllConform(ls, a) && AllConform(rs, b)
    ensures AllConform(JoinOf(outer, q, cols, |b|, ls, rs), a + b)
  {
    hide Concats, Conforms;
    if ls != [] {
      assert ls[0] in ls;
      ConcatsConform(q, cols, ls[0], rs, a, b);
      NullsConform(|b|, b);
      ConformsConcat(ls[0], NullRow(|b|), a, b);
      JoinOfConforms(outer, q, cols, ls[1..], rs, a, b);
    }
  }

  lemma RotatedConforms(rows: seq<Row>, a: seq<BType>, b: seq<BType>)
    requires AllConform(rows, a + b)
    ensures AllConform(Rotated(rows, |a|), b + a)
  {
    hide Conforms;
    var r := Rotated(rows, |a|);
    forall i | 0 <= i < |r|
      ensures Conforms(r[i], b + a)
    {
      assert rows[i] in rows;
      HalvesConform(rows[i], a, b);
      ConformsConcat(rows[i][|a|..], rows[i][..|a|], b, a);
    }
  }

  lemma HalvesConform(x: Row, a: seq<BType>, b: seq<BType>)
    requires Conforms(x, a + b)
    ensures |x| == |a| + |b| && Conforms(x[..|a|], a) && Conforms(x[|a|..], b)
  {
  }

  lemma TypesConcat(a: seq<ColDesc>, b: seq<ColDesc>)
    ensures ColTypes(a + b) == ColTypes(a) + ColTypes(b)
  {
  }

  /** The rows a clause denotes have its column types. */
  lemma {:induction false} RelationConforms(node: From, list: seq<TableDef>, files: seq<Table>)
    requires Filed(node, list, files) && AllValid(files) && ColsJoined(node, list)
    ensures AllConform(Relation(node, list, files), ColTypes(ColsAt(node, list)))
  {
    hide HeapOk, JoinOf, Rotated, LiveOf, AllConform, Conforms;
    if node.RangeVar? {
      TableConforms(node, list, files);
    } else {
      RelationConforms(node.left, list, files);
      RelationConforms(node.right, list, files);
      var outer, inner := ColTypes(ColsAt(Outer(node), list)), ColTypes(ColsAt(Inner(node), list));
      var ls, rs := Relation(Outer(node), list, files), Relation(Inner(node), list, files);
      JoinOfConforms(!node.kind.INNER?, node.qual, OrderedCols(node, list), ls, rs, outer, inner);
      TypesConcat(ColsAt(node.left, list), ColsAt(node.right, list));
      if node.kind.RIGHT? {
        RotatedConforms(JoinOf(true, node.qual, OrderedCols(node, list), |inner|, ls, rs), outer, inner);
      }
    }
  }

  lemma TableConforms(node: From, list: seq<TableDef>, files: seq<Table>)
    requires node.RangeVar? && Filed(node, list, files) && AllValid(files)
    ensures AllConform(Relation(node, list, files), ColTypes(ColsAt(node, list)))
  {
    hide HeapOk, LiveOf, Conforms;
    LiveConform(files[list[node.index].index].pages, ColsAt(node, list));
  }

  /** On every pair no leaf of the qualification is null and its arithmetic is defined. */
  ghost predicate PairsDefined(e: Expr, cols: seq<ColDesc>, ls: seq<Row>, rs: seq<Row>) {
    forall l, r :: l in ls && r in rs ==> !HasNullLeaf(e, l + r, cols) && EvalExpr(e, l + r, cols) != Undefined
  }

  /** An accepted qualification whose operand types agree decides all pairs exactly if there are none, or the
      join has the columns it names, none of them null where it reads them, and its arithmetic is defined. */
  lemma PairsDecideExactly(e: Expr, tables: seq<seq<ColDesc>>, a: seq<ColDesc>, b: seq<ColDesc>, ls: seq<Row>,
                           rs: seq<Row>)
    requires CheckType(e, tables) == Checked(T_BOOL, e) && OperandsAgree(e, tables)
    requires NamesResolve(e, tables, a + b) <==> NamesOwn(e, a + b)
    requires AllConform(ls, ColTypes(a)) && AllConform(rs, ColTypes(b))
    ensures PairsDecide(Where(e), a + b, ls, rs)
            <==> ls == [] || rs == [] || (NamesOwn(e, a + b) && PairsDefined(e, a + b, ls, rs))
  {
    hide CheckType, OperandsAgree, NamesResolve, NamesOwn, HasNullLeaf, EvalExpr, Conforms, TestRow;
    TypesConcat(a, b);
    forall l, r | l in ls && r in rs
      ensures NamesOwn(e, a + b) ==>
                (TestWhere(Where(e), l + r, a + b) == Stops
                 <==> HasNullLeaf(e, l + r, a + b) || EvalExpr(e, l + r, a + b) == Undefined)
      ensures !NamesOwn(e, a + b) ==> TestWhere(Where(e), l + r, a + b) == Stops
    {
      ConformsConcat(l, r, ColTypes(a), ColTypes(b));
      if NamesOwn(e, a + b) {
        WhereStopsExactly(e, tables, l + r, a + b);
      } else {
        MissingStops(e, l + r, a + b);
        NoValueStops(e, l + r, a + b);
      }
    }
    if ls != [] && rs != [] && !NamesOwn(e, a + b) {
      assert ls[0] in ls && rs[0] in rs;
    }
  }

  lemma NoValueStops(e: Expr, row: Row, cols: seq<ColDesc>)
    requires !EvalExpr(e, row, cols).Val?
    ensures TestRow(e, row, cols) == Stops
  {
    hide EvalExpr;
  }

  /** What it takes for the qualification of one join to decide. */
  ghost predicate QualDefined(node: From, list: seq<TableDef>, files: seq<Table>)
    requires node.Join? && Filed(node, list, files)
    reads files
  {
    var ls, rs, cols := Relation(Outer(node), list, files), Relation(Inner(node), list, files), OrderedCols(node, list);
    node.qual.Where? ==>
      ls == [] || rs == [] || (NamesOwn(node.qual.cond, cols) && PairsDefined(node.qual.cond, cols, ls, rs))
  }

  ghost predicate QualsDefined(node: From, list: seq<TableDef>, files: seq<Table>)
    requires Filed(node, list, files)
    reads files
    decreases node
  {
    node.Join? ==>
      && QualDefined(node, list, files)
      && QualsDefined(node.left, list, files) && QualsDefined(node.right, list, files)
  }

  /** At every operator of every qualification the operand types agree. */
  ghost predicate QualsAgree(node: From, list: seq<TableDef>) {
    node.Join? ==>
      && (node.qual.Where? ==> OperandsAgree(node.qual.cond, Seen(node, list)))
      && QualsAgree(node.left, list) && QualsAgree(node.right, list)
  }

  ghost predicate ListWithinAll(list: seq<TableDef>, all: seq<ColDesc>) {
    forall i :: 0 <= i < |list| ==> Within(list[i].cols, all)
  }

  /** Over tables whose column names all differ, the qualifications of an accepted clause decide exactly if
      each is defined on its pairs: it names columns of its own join, and reads no null. */
  lemma {:induction false} DecidedExactly(node: From, list: seq<TableDef>, files: seq<Table>, all: seq<ColDesc>)
    requires Filed(node, list, files) && AllValid(files) && ColsJoined(node, list)
    requires QualsAccepted(node, list) && QualsAgree(node, list) && UniqueNames(all) && ListWithinAll(list, all)
    requires UniqueNames(ColsAt(node, list))
    ensures Decided(node, list, files) <==> QualsDefined(node, list, files)
  {
    hide Relation, PairsDecide, UniqueNames, ListWithinAll, QualDefined, OrderedCols, OperandsAgree, CheckType,
         AllValid, ColsAt;
    if node.Join? {
      PartsUnique(node, list);
      LoopedIsRelation(node, list, files);
      DecidedExactly(node.left, list, files, all);
      DecidedExactly(node.right, list, files, all);
      QualDecides(node, list, files, all);
    }
  }

  /** So for every clause that analysis accepts, whatever its shape; in a left-deep one no qualification names
      a column its join lacks. */
  lemma AnalyzedDecides(node: From, defs: seq<TableDef>, files: seq<Table>)
    requires AnalyzeJoinList(node, defs, []).Listed? && UniqueNames(TreeCols(node, defs)) && AllValid(files)
    requires var r := AnalyzeJoinList(node, defs, []); Filed(r.node, r.list, files) && QualsAgree(r.node, r.list)
    ensures var r := AnalyzeJoinList(node, defs, []);
            && (Decided(r.node, r.list, files) <==> QualsDefined(r.node, r.list, files))
            && (LeftDeep(node) ==> QualsOwn(r.node, defs))
  {
    hide AnalyzeJoinList, Numbered, QualsAccepted, QualsOwn, TreeCols, UniqueNames, Filed, Decided, QualsDefined,
         QualsAgree, AllValid, LeftDeep, ColsJoined, ListWithinAll, SameShape;
    var r := AnalyzeJoinList(node, defs, []);
    AnalyzeMeaning(node, defs, []);
    AnalyzeAccepts(node, defs, []);
    NumberedColsJoined(r.node, defs, r.list, 0);
    AllListed(r.node, defs, r.list);
    DecidedExactly(r.node, r.list, files, TreeCols(r.node, defs));
    if LeftDeep(node) {
      AnalyzedLeftDeepOwns(node, defs);
    }
  }

  lemma AllListed(node: From, defs: seq<TableDef>, list: seq<TableDef>)
    requires Numbered(node, defs, list, 0) && |list| == Size(node)
    ensures ListWithinAll(list, TreeCols(node, defs))
  {
    hide Numbered, TreeCols, Within;
    forall i | 0 <= i < |list|
      ensures Within(list[i].cols, TreeCols(node, defs))
    {
      ListWithin(node, defs, list, 0, i);
    }
  }

  lemma QualDecides(node: From, list: seq<TableDef>, files: seq<Table>, all: seq<ColDesc>)
    requires node.Join? && Filed(node, list, files) && AllValid(files) && ColsJoined(node, list)
    requires QualAccepted(node, list) && (node.qual.Where? ==> OperandsAgree(node.qual.cond, Seen(node, list)))
    requires UniqueNames(all) && ListWithinAll(list, all)
    ensures PairsDecide(node.qual, OrderedCols(node, list), Relation(Outer(node), list, files),
                        Relation(Inner(node), list, files))
            <==> QualDefined(node, list, files)
  {
    hide Relation, UniqueNames, OperandsAgree, CheckType, AllValid, NamesOwn, NamesResolve, AllConform, PairsDecide,
         PairsDefined;
    var ls, rs := Relation(Outer(node), list, files), Relation(Inner(node), list, files);
    if node.qual.Where? {
      RelationConforms(Outer(node), list, files);
      RelationConforms(Inner(node), list, files);
      SeenWithin(node, list, all);
      OrderedWithin(node, list, all);
      OwnResolves(node.qual.cond, Seen(node, list), OrderedCols(node, list), all);
      PairsDecideExactly(node.qual.cond, Seen(node, list), ColsAt(Outer(node), list), ColsAt(Inner(node), list), ls,
                         rs);
    } else {
      NoWhereDecides(OrderedCols(node, list), ls, rs);
    }
  }

  lemma NoWhereDecides(cols: seq<ColDesc>, ls: seq<Row>, rs: seq<Row>)
    ensures PairsDecide(NoWhere, cols, ls, rs)
  {
  }

  lemma SeenWithin(node: From, list: seq<TableDef>, all: seq<ColDesc>)
    requires ListWithinAll(list, all)
    ensures forall t :: t in Seen(node, list) ==> Within(t, all)
  {
    hide Within;
  }

  lemma OrderedWithin(node: From, list: seq<TableDef>, all: seq<ColDesc>)
    requires node.Join? && Outer(node).index < |list| && Inner(node).index < |list| && ListWithinAll(list, all)
    ensures Within(OrderedCols(node, list), all)
  {
    assert Within(list[Outer(node).index].cols, all) && Within(list[Inner(node).index].cols, all);
  }

  // ----- the whole statement

  datatype Ordering = Unordered | By(name: CString, desc: bool)

  /** An analyzed SELECT: the join list ends with the definition of the output. */
  datatype Query = Query(list: seq<TableDef>, from: From, targets: seq<Target>, cond: Where, ordering: Ordering)

  /** GetColType. */
  function ColType(cols: seq<ColDesc>, name: CString): BType {
    if ColIdx(cols, name) < |cols| then cols[ColIdx(cols, name)].ty else T_UNKNOWN
  }

  function Output(q: Query): seq<ColDesc> {
    if q.list == [] then [] else q.list[|q.list| - 1].cols
  }

  function SortingOf(q: Query): Sorting
    requires q.ordering.By?
  {
    Sorting(q.ordering.name, ColType(ColsAt(q.from, q.list), q.ordering.name), q.ordering.desc, ColsAt(q.from, q.list))
  }

  /** The assertions of PlanQuery and PlanJoin: a where clause is a binary expression, and a sort column
      is there and has an order. */
  predicate PlanAccepts(q: Query) {
    && (q.cond.NoWhere? || q.cond.cond.Bin?)
    && (q.ordering.By? ==> HasOrder(ColType(ColsAt(q.from, q.list), q.ordering.name)))
  }

  ghost function OrderedStream(q: Query, files: seq<Table>): Stream
    requires Filed(q.from, q.list, files)
    reads files
  {
    var joined := Delivered(q.from, q.list, files, 0);
    if q.ordering.By? then Resorted(SortingOf(q), joined) else joined
  }

  ghost function SelectStream(q: Query, files: seq<Table>): Stream
    requires Filed(q.from, q.list, files)
    reads files
  {
    ProjectAll(q.targets, Output(q), ColsAt(q.from, q.list),
               Selected(q.cond, ColsAt(q.from, q.list), OrderedStream(q, files)))
  }

  /** PlanQuery, for a SELECT. */
  method PlanSelect(q: Query, files: seq<Table>) returns (plan: Executor.Option<PlanNode>)
    requires Filed(q.from, q.list, files) && AllValid(files)
    ensures plan.Some? <==> PlanAccepts(q)
    ensures plan.Some? ==>
              && plan.value.Shape() && plan.value.AtStart() && plan.value.done == 0 && fresh(plan.value.Repr)
              && (forall t :: t in plan.value.Tables ==> t in files) && plan.value.Run(0) == SelectStream(q, files)
  {
    hide Delivered, ProjectAll, Selected, Resorted, Filed, AllValid, LoopAll, PlanNode.Rem, PlanNode.Valid,
         PlanNode.Runs, PlanNode.Used, PlanNode.Scanned;
    var left := PlanJoin(q.from, q.list, q.cond, files);
    if left.None? {
      return Option.None;
    }
    var below := left.value;
    if q.ordering.By? {
      var ty := ColType(below.cols, q.ordering.name);
      if !HasOrder(ty) {
        return Option.None;
      }
      below := new PlanNode.SortBy(q.ordering.name, ty, q.ordering.desc, below);
    }
    assert below.Run(0) == OrderedStream(q, files);
    var top := new PlanNode.ResultOf(q.cond, q.targets, Output(q), below);
    return Option.Some(top);
  }

  /** ExecPlan: initialise, then pull to the end. */
  method ExecPlan(plan: PlanNode) returns (ok: bool, rows: seq<Row>)
    requires plan.Shape() && plan.AtStart() && plan.done == 0
    modifies plan.Repr
    ensures ok <==> old(plan.Run(0)).ok
    ensures ok ==> rows == old(plan.Run(0)).rows
  {
    hide PlanNode.Shape, PlanNode.Valid, PlanNode.AtStart, PlanNode.Rem, PlanNode.Run;
    plan.Apart();
    ghost var full := plan.Run(0);
    plan.Init();
    rows := [];
    var pulled := plan.GetNext();
    while pulled.Got?
      invariant pulled.Got? ==> plan.Valid() && full == Then(Stream(rows, true), Emit(pulled.row, plan.Rem()))
      invariant pulled.End? ==> full == Stream(rows, true)
      invariant pulled.Crashed? ==> !full.ok
      decreases if pulled.Got? then 1 + |plan.Rem().rows| else 0
    {
      Collected(rows, pulled.row, plan.Rem());
      rows := rows + [pulled.row];
      pulled := plan.GetNext();
    }
    return pulled.End?, rows;
  }

  ghost function OrderedRows(q: Query, files: seq<Table>): seq<Row>
    requires Filed(q.from, q.list, files)
    reads files
  {
    var joined := Looped(q.from, q.list, files);
    if q.ordering.By? then SortRows(SortingOf(q), joined) else joined
  }

  /** The joined rows in order, filtered. */
  ghost function Filtered(q: Query, files: seq<Table>): seq<Row>
    requires Filed(q.from, q.list, files)
    reads files
  {
    Chosen(q.cond, ColsAt(q.from, q.list), OrderedRows(q, files))
  }

  /** The statement has a value: the joins run, no key is null where keys are compared, the where clause
      decides every joined row, and every target computes on every row that passes. */
  ghost predicate HasValue(q: Query, files: seq<Table>)
    requires Filed(q.from, q.list, files)
    reads files
  {
    && Completes(q.from, q.list, files, 0)
    && (q.ordering.By? ==> Sortable(SortingOf(q), Looped(q.from, q.list, files)))
    && Decides(q.cond, ColsAt(q.from, q.list), OrderedRows(q, files))
    && forall x :: x in Filtered(q, files) ==> Computes(q.targets, x, ColsAt(q.from, q.list))
  }

  /** For each row the values of the targets. */
  ghost function Projected(targets: seq<Target>, cols: seq<ColDesc>, rows: seq<Row>): (r: seq<Row>)
    requires forall x :: x in rows ==> Computes(targets, x, cols)
    ensures |r| == |rows|
  {
    seq(|rows|, i requires 0 <= i < |rows| => Values(targets, rows[i], cols))
  }

  /** The same, each value under its output name. */
  ghost function Shown(targets: seq<Target>, out: seq<ColDesc>, cols: seq<ColDesc>, rows: seq<Row>): (r: seq<Row>)
    requires |out| == |targets| && forall x :: x in rows ==> Computes(targets, x, cols)
    ensures |r| == |rows|
  {
    seq(|rows|, i requires 0 <= i < |rows| => NamedRow(out, Values(targets, rows[i], cols), |out|))
  }

  lemma {:induction false} ProjectAllMeaning(targets: seq<Target>, out: seq<ColDesc>, cols: seq<ColDesc>, s: Stream)
    requires s.ok && OutputOf(out, targets)
    ensures ProjectAll(targets, out, cols, s).ok <==> forall x :: x in s.rows ==> Computes(targets, x, cols)
    ensures ProjectAll(targets, out, cols, s).ok ==>
            ProjectAll(targets, out, cols, s).rows == Shown(targets, out, cols, s.rows)
    decreases |s.rows|
  {
    hide Computes, Values, ProjectRow, UniqueNames, NamedRow;
    if s.rows != [] {
      var x := s.rows[0];
      assert s.rows == [x] + s.rows[1..];
      ProjectMeaning(targets, out, x, cols);
      ProjectAllMeaning(targets, out, cols, Rest(s));
    }
  }

  /** Down the rows the values of column i do not fall, or for desc do not rise. */
  ghost predicate ColumnOrdered(rows: seq<Row>, i: nat, desc: bool) {
    && (forall a :: 0 <= a < |rows| ==> i < |rows[a]|)
    && forall a, b :: 0 <= a < b < |rows| ==> MayPrecede(rows[a], rows[b], i, desc)
  }

  predicate MayPrecede(x: Row, y: Row, i: nat, desc: bool) {
    i < |x| && i < |y| && if desc then !Gt(y[i], x[i]) else !Gt(x[i], y[i])
  }

  /** What ORDER BY promises of the joined rows, before and after the where clause: as they were but in the order
      of the sort column, wherever there are two to compare. */
  ghost predicate OrderKept(q: Query, files: seq<Table>)
    requires Filed(q.from, q.list, files)
    reads files
  {
    q.ordering.By? ==>
      var i, desc := ColIdx(ColsAt(q.from, q.list), q.ordering.name), q.ordering.desc;
      && multiset(OrderedRows(q, files)) == multiset(Looped(q.from, q.list, files))
      && (|OrderedRows(q, files)| > 1 ==> ColumnOrdered(OrderedRows(q, files), i, desc))
      && (|Filtered(q, files)| > 1 ==> ColumnOrdered(Filtered(q, files), i, desc))
  }

  lemma SortedColumn(s: Sorting, rows: seq<Row>)
    requires Sortable(s, rows) && s.ty != T_NULL
    ensures |rows| > 1 ==> ColumnOrdered(SortRows(s, rows), ColIdx(s.cols, s.name), s.desc)
  {
    hide SortRows, Before, InOrder, ColIdx;
    SortMeaning(s, rows);
    var sorted, i := SortRows(s, rows), ColIdx(s.cols, s.name);
    if |rows| > 1 {
      forall a | 0 <= a < |sorted|
        ensures Typed(s, sorted[a]) && i < |sorted[a]| && GetName(sorted[a], s.cols, s.name) == sorted[a][i]
      {
        assert sorted[a] in multiset(rows);
        TypeOfNull(NullD);
      }
      forall a, b | 0 <= a < b < |sorted|
        ensures MayPrecede(sorted[a], sorted[b], i, s.desc)
      {
        assert !Before(s, sorted[b], sorted[a]) by { InOrderAt(s, sorted, a, b); }
        BeforeIs(s, sorted[b], sorted[a]);
      }
    }
  }

  lemma InOrderAt(s: Sorting, rows: seq<Row>, a: nat, b: nat)
    requires InOrder(s, rows) && a < b < |rows|
    ensures !Before(s, rows[b], rows[a])
  {
    hide Before;
  }

  lemma OrderedCons(x: Row, rest: seq<Row>, i: nat, desc: bool)
    ensures ColumnOrdered([x] + rest, i, desc)
            <==> i < |x| && ColumnOrdered(rest, i, desc) && forall y :: y in rest ==> MayPrecede(x, y, i, desc)
  {
    hide MayPrecede;
    var all := [x] + rest;
    assert all[0] == x && forall a :: 0 <= a < |rest| ==> all[a + 1] == rest[a];
    if ColumnOrdered(all, i, desc) {
      forall y | y in rest
        ensures MayPrecede(x, y, i, desc)
      {
        var a :| 0 <= a < |rest| && rest[a] == y;
      }
    }
  }

  lemma {:induction false} ChosenOrdered(w: Where, cols: seq<ColDesc>, rows: seq<Row>, i: nat, desc: bool)
    requires ColumnOrdered(rows, i, desc)
    ensures ColumnOrdered(Chosen(w, cols, rows), i, desc)
    ensures forall x :: x in Chosen(w, cols, rows) ==> x in rows
  {
    hide TestWhere, MayPrecede, ColumnOrdered;
    if rows == [] {
      assert Chosen(w, cols, rows) == rows;
    } else {
      var rest := rows[1..];
      assert rows == [rows[0]] + rest;
      OrderedCons(rows[0], rest, i, desc);
      ChosenOrdered(w, cols, rest, i, desc);
      OrderedCons(rows[0], Chosen(w, cols, rest), i, desc);
      assert [] + Chosen(w, cols, rest) == Chosen(w, cols, rest);
    }
  }

  lemma {:induction false} ChosenFewer(w: Where, cols: seq<ColDesc>, rows: seq<Row>)
    ensures |Chosen(w, cols, rows)| <= |rows|
  {
    hide TestWhere;
    if rows != [] {
      ChosenFewer(w, cols, rows[1..]);
    }
  }

  lemma OrderMeaning(q: Query, files: seq<Table>)
    requires Filed(q.from, q.list, files) && PlanAccepts(q) && HasValue(q, files)
    ensures OrderKept(q, files)
  {
    hide Looped, SortRows, Sortable, Chosen, Completes, Decides, Computes, ColumnOrdered, Filed;
    if q.ordering.By? {
      var joined, ordered, cols := Looped(q.from, q.list, files), OrderedRows(q, files), ColsAt(q.from, q.list);
      var i := ColIdx(cols, q.ordering.name);
      SortPermutes(SortingOf(q), joined);
      ChosenFewer(q.cond, cols, ordered);
      if |joined| > 1 {
        SortedColumn(SortingOf(q), joined);
        ChosenOrdered(q.cond, cols, ordered, i, q.ordering.desc);
      }
    }
  }

  /** And of the answer: an output column that shows the sort column is in that order. */
  ghost predicate AnswerOrdered(q: Query, rows: seq<Row>) {
    forall j: nat :: j < |q.targets| && q.ordering.By? && q.targets[j].expr == Ident(q.ordering.name)
                     && UniqueNames(Output(q)) && |rows| > 1 ==>
      ColumnOrdered(rows, j, q.ordering.desc)
  }

  lemma ShownOrdered(q: Query, files: seq<Table>)
    requires Filed(q.from, q.list, files) && HasValue(q, files) && OrderKept(q, files)
    requires OutputOf(Output(q), q.targets)
    ensures AnswerOrdered(q, Shown(q.targets, Output(q), ColsAt(q.from, q.list), Filtered(q, files)))
  {
    hide OrderedRows, Looped, Chosen, Completes, Sortable, Decides, UniqueNames, NamedRow, ColIdx, Gt, Filed, Filtered;
    var cols, rows := ColsAt(q.from, q.list), Filtered(q, files);
    var shown := Shown(q.targets, Output(q), cols, rows);
    if q.ordering.By? && |rows| > 1 && UniqueNames(Output(q)) {
      UniqueExactly(Output(q));
      var i := ColIdx(cols, q.ordering.name);
      forall j: nat | j < |q.targets| && q.targets[j].expr == Ident(q.ordering.name)
        ensures ColumnOrdered(shown, j, q.ordering.desc)
      {
        forall a | 0 <= a < |rows|
          ensures |shown[a]| == |q.targets| && i < |rows[a]| && shown[a][j] == rows[a][i]
        {
          assert rows[a] in rows;
          assert shown[a] == Values(q.targets, rows[a], cols);
          assert EvalExpr(q.targets[j].expr, rows[a], cols).Val?;
        }
        forall a, b | 0 <= a < b < |shown|
          ensures MayPrecede(shown[a], shown[b], j, q.ordering.desc)
        {
          assert MayPrecede(rows[a], rows[b], i, q.ordering.desc);
        }
      }
    }
  }

  /** Row by row and target by target, the answer holds what the target computes on the filtered row. */
  ghost predicate AnswerShows(q: Query, cols: seq<ColDesc>, filtered: seq<Row>, rows: seq<Row>) {
    |rows| == |filtered| && forall a, j :: 0 <= a < |rows| && 0 <= j < |q.targets| && UniqueNames(Output(q)) ==>
      j < |rows[a]| && EvalExpr(q.targets[j].expr, filtered[a], cols) == Val(rows[a][j])
  }

  lemma ShownShows(q: Query, files: seq<Table>)
    requires Filed(q.from, q.list, files) && HasValue(q, files) && OutputOf(Output(q), q.targets)
    ensures var cols, rows := ColsAt(q.from, q.list), Filtered(q, files);
            AnswerShows(q, cols, rows, Shown(q.targets, Output(q), cols, rows))
  {
    hide EvalExpr, UniqueNames, NamedRow, Filtered, OrderedRows, Completes, Sortable, Decides, Filed, Looped;
    UniqueExactly(Output(q));
    var cols, rows := ColsAt(q.from, q.list), Filtered(q, files);
    var shown := Shown(q.targets, Output(q), cols, rows);
    forall a, j | 0 <= a < |rows| && 0 <= j < |q.targets| && UniqueNames(Output(q))
      ensures j < |shown[a]| && EvalExpr(q.targets[j].expr, rows[a], cols) == Val(shown[a][j])
    {
      assert rows[a] in rows;
    }
  }

  /** How often a row is delivered by a filter. */
  lemma {:induction false} ChosenMeaning(w: Where, cols: seq<ColDesc>, rows: seq<Row>, x: Row)
    ensures multiset(Chosen(w, cols, rows))[x] == if Satisfies(w, x, cols) then multiset(rows)[x] else 0
  {
    hide TestWhere, Satisfies;
    if rows != [] {
      var rest := rows[1..];
      ChosenMeaning(w, cols, rest, x);
      TestMeaning(w, rows[0], cols);
      assert rows == [rows[0]] + rest;
      ModifyScan.CountConcat([rows[0]], rest, x);
      ModifyScan.CountConcat(if TestWhere(w, rows[0], cols) == Passes then [rows[0]] else [], Chosen(w, cols, rest), x);
    }
  }

  /** A SELECT, planned and run, over any from clause: it succeeds exactly if the planner accepts it and it has
      a value. It then delivers, row for row, the projection of the filtered, sorted join, the columns of
      joins and of the output set by name. */
  method Select(q: Query, files: seq<Table>) returns (ok: bool, rows: seq<Row>)
    requires Filed(q.from, q.list, files) && AllValid(files) && OutputOf(Output(q), q.targets)
    ensures ok <==> PlanAccepts(q) && HasValue(q, files)
    ensures ok ==> rows == Shown(q.targets, Output(q), ColsAt(q.from, q.list), Filtered(q, files))
    ensures ok ==> OrderKept(q, files) && AnswerOrdered(q, rows)
    ensures ok ==> AnswerShows(q, ColsAt(q.from, q.list), Filtered(q, files), rows)
    ensures ok ==> forall x :: multiset(Filtered(q, files))[x] ==
                               if Satisfies(q.cond, x, ColsAt(q.from, q.list))
                               then multiset(OrderedRows(q, files))[x] else 0
  {
    hide Delivered, PlanAccepts, HasValue, Filed, Shown, SelectStream, OrderKept, OrderedRows, Satisfies, Chosen,
         AnswerOrdered, AnswerShows, Computes;
    SelectMeaning(q, files);
    if PlanAccepts(q) && HasValue(q, files) {
      OrderMeaning(q, files);
      ShownOrdered(q, files);
      ShownShows(q, files);
      forall x {
        ChosenMeaning(q.cond, ColsAt(q.from, q.list), OrderedRows(q, files), x);
      }
    }
    var plan := PlanSelect(q, files);
    if plan.None? {
      return false, [];
    }
    ok, rows := ExecPlan(plan.value);
  }

  /** The filtered, sorted relation of a from clause. */
  ghost function Answered(q: Query, files: seq<Table>): seq<Row>
    requires Filed(q.from, q.list, files)
    reads files
  {
    var all := Relation(q.from, q.list, files);
    Chosen(q.cond, ColsAt(q.from, q.list), if q.ordering.By? then SortRows(SortingOf(q), all) else all)
  }

  /** Where all column names differ, what is projected is the relation the from clause denotes, filtered and
      sorted; where all output names differ, the rows are the values of the targets in order. */
  lemma SelectPlainly(q: Query, defs: seq<TableDef>, files: seq<Table>)
    requires Filed(q.from, q.list, files) && AllValid(files) && Numbered(q.from, defs, q.list, 0)
    requires UniqueNames(TreeCols(q.from, defs)) && OutputOf(Output(q), q.targets) && HasValue(q, files)
    ensures ColsAt(q.from, q.list) == TreeCols(q.from, defs) && Filtered(q, files) == Answered(q, files)
    ensures UniqueNames(Output(q)) ==>
              Shown(q.targets, Output(q), TreeCols(q.from, defs), Answered(q, files))
              == Projected(q.targets, TreeCols(q.from, defs), Answered(q, files))
  {
    hide Looped, Relation, Chosen, SortRows, Completes, Computes, NamedRow, Filed, Values, Sortable, Decides, AllValid,
         UniqueNames, Numbered;
    NumberedColsJoined(q.from, defs, q.list, 0);
    LoopedIsRelation(q.from, q.list, files);
    if UniqueNames(Output(q)) {
      UniqueExactly(Output(q));
    }
  }

  lemma SelectMeaning(q: Query, files: seq<Table>)
    requires Filed(q.from, q.list, files) && OutputOf(Output(q), q.targets)
    ensures SelectStream(q, files).ok <==> HasValue(q, files)
    ensures HasValue(q, files) ==>
              SelectStream(q, files).rows == Shown(q.targets, Output(q), ColsAt(q.from, q.list), Filtered(q, files))
  {
    hide Delivered, Looped, Completes, Filed, Shown, ProjectAll, Selected, Chosen, Decides, Computes, SortRows,
         Sortable, OutputOf;
    JoinMeaning(q.from, q.list, files);
    var cols, s := ColsAt(q.from, q.list), OrderedStream(q, files);
    var selected := Selected(q.cond, cols, s);
    if s.ok {
      SelectedMeaning(q.cond, cols, s);
      if selected.ok {
        ProjectAllMeaning(q.targets, Output(q), cols, selected);
      } else {
        ProjectBroken(q.targets, Output(q), cols, selected);
      }
    } else {
      SelectedBroken(q.cond, cols, s);
      ProjectBroken(q.targets, Output(q), cols, selected);
    }
  }

  lemma {:induction false} SelectedBroken(w: Where, cols: seq<ColDesc>, s: Stream)
    requires !s.ok
    ensures !Selected(w, cols, s).ok
    decreases |s.rows|
  {
    hide TestWhere;
    if s.rows != [] {
      SelectedBroken(w, cols, Rest(s));
    }
  }

  lemma {:induction false} ProjectBroken(targets: seq<Target>, out: seq<ColDesc>, cols: seq<ColDesc>, s: Stream)
    requires !s.ok
    ensures !ProjectAll(targets, out, cols, s).ok
    decreases |s.rows|
  {
    hide ProjectRow;
    if s.rows != [] {
      ProjectBroken(targets, out, cols, Rest(s));
    }
  }
}
