/** The plan nodes of SELECT as pull iterators. */
module Executor {
  import opened PageLayout
  import opened Types
  import opened Schema
  import opened Codec
  import opened Expr
  import Heap
  import HeapFile
  import opened ModifyScan
  import opened Relations

  datatype Op =
    | SeqScan(where: Where)
    | NestedLoop(outer: bool, qual: Where)
    | Sort(name: CString, ty: BType, desc: bool)
    | Result(cond: Where, targets: seq<Target>)

  /** What a pull returns: a tuple, NULL, or not at all. */
  datatype Pulled = Got(row: Row) | End | Crashed

  /** A tuple pointer. */
  datatype Held = Null | Held(row: Row)

  datatype Option<T> = None | Some(value: T)

  predicate HasOrder(ty: BType) {
    ty == T_STRING || ty == T_BOOL || ty == T_INT
  }

  /** One pull: the row it returns comes off the front, NULL says nothing is left, and the program stops
      where the stream does. */
  ghost predicate Delivers(before: Stream, r: Pulled, after: Stream) {
    match r
    case Got(row) => before == Emit(row, after)
    case End => before == NOTHING
    case Crashed => before == STOPPED
  }

  class PlanNode {
    const op: Op
    const cols: seq<ColDesc>
    const left: PlanNode?
    const right: PlanNode?
    const cursor: HeapFile.Cursor?
    var needNewLeft: bool
    var curLeft: Held
    var results: seq<Row>
    var isSorted: bool
    var nextIndex: nat
    /** How many times the node has been pulled to its end. */
    ghost var done: nat
    ghost const height: nat
    ghost const Repr: set<object>
    ghost const Tables: set<HeapFile.Table>

    // ----- the tree

    ghost predicate Child(n: PlanNode) {
      n.height < height && n.Repr <= Repr && this !in n.Repr && n.Tables <= Tables
    }

    /** A tree of nodes over tables nobody writes; below a nested loop there are only scans and loops. */
    ghost predicate Shape()
      decreases height
    {
      && this in Repr && (forall t :: t in Tables ==> t !in Repr)
      && match op
         case SeqScan(_) => cursor != null && cursor in Repr && cursor.table in Tables
           && ColTypes(cols) == cursor.table.types
         case NestedLoop(_, _) =>
           && left != null && right != null && Child(left) && Child(right) && left.Shape() && right.Shape()
           && left.Repr !! right.Repr && left.OfJoin() && right.OfJoin()
         case Sort(_, ty, _) => left != null && Child(left) && left.Shape() && HasOrder(ty) && cols == left.cols
         case Result(_, _) => left != null && Child(left) && left.Shape()
    }

    predicate OfJoin() {
      op.SeqScan? || op.NestedLoop?
    }

    function Joins(): Joining
      requires op.NestedLoop? && left != null && right != null
    {
      Joining(op.outer, op.qual, left.cols, right.cols, cols)
    }

    function Sorts(): Sorting
      requires op.Sort?
    {
      Sorting(op.name, op.ty, op.desc, cols)
    }

    /** The children of a nested loop lie within it. */
    lemma Kids()
      requires Shape() && op.NestedLoop?
      ensures left != null && right != null && left.Shape() && right.Shape()
      ensures left in Repr && right in Repr && left.Repr <= Repr && right.Repr <= Repr
      ensures left.Tables <= Tables && right.Tables <= Tables && left.height < height && right.height < height
    {
    }

    // ----- the state

    /** Between runs: made and not pulled yet, or pulled to the end. Nothing sets need_new_left_tuple again. */
    ghost predicate AtStart()
      requires Shape()
      reads Repr, Tables
      decreases height
    {
      match op
      case SeqScan(_) => cursor.table.Valid()
      case NestedLoop(_, _) =>
        && left.AtStart() && right.AtStart() && left.done == done && right.done == Used(done)
        && if done == 0 then needNewLeft else !needNewLeft && curLeft == Null
      case Sort(_, _, _) => !isSorted && results == [] && nextIndex == 0 && left.AtStart() && left.done == 0
        && done == 0
      case Result(_, _) => left.AtStart() && left.done == 0 && done == 0
    }

    /** In a run. A nested loop starts its right child once more for the left tuple in hand, and once for each
        still to come. */
    ghost predicate Valid()
      requires Shape()
      reads Repr, Tables
      decreases height
    {
      match op
      case SeqScan(_) => cursor.table.Valid() && cursor.pageIndex <= |cursor.table.pages|
      case NestedLoop(_, _) =>
        && left.Valid() && left.done == done
        && (if needNewLeft then right.AtStart() else right.Valid())
        && right.done + (if needNewLeft then 0 else 1) + |left.Rem().rows| == Used(done + 1)
      case Sort(_, _, _) => nextIndex <= |results| && (!isSorted ==> results == [] && left.Valid() && left.done == 0)
      case Result(_, _) => left.Valid() && left.done == 0
    }

    // ----- what the node delivers

    ghost function Scanned(p: nat, s: nat): Stream
      requires Shape() && op.SeqScan?
      reads Tables
    {
      Selected(op.where, cols, Stream(RowsOf(Heap.LiveFrom(cursor.table.pages, p, s), cols), true))
    }

    /** One run from start to end, after n earlier ones. A nested loop that has been drained has no left tuple
        and does not ask for one when it is started again: it reads through a null pointer unless its right
        side has nothing to deliver. */
    ghost function LoopRun(n: nat): Stream
      requires Shape() && op.NestedLoop?
      reads Tables
      decreases height, 1, 0
    {
      if n > 0 && right.Run(Used(n)) != NOTHING then STOPPED
      else LoopAll(Joins(), left.Run(n), right.Runs(Used(n) + (if n > 0 then 1 else 0), |left.Run(n).rows|))
    }

    /** One run of any node. */
    ghost function Run(n: nat): Stream
      requires Shape()
      reads Tables
      decreases height, 2, 0
    {
      match op
      case SeqScan(_) => Scanned(0, 0)
      case NestedLoop(_, _) => LoopRun(n)
      case Sort(_, _, _) => if n > 0 then STOPPED else Resorted(Sorts(), left.Run(0))
      case Result(w, targets) =>
        if n > 0 then STOPPED else ProjectAll(targets, cols, left.cols, Selected(w, left.cols, left.Run(0)))
    }

    /** The runs from the given one on. */
    ghost function Runs(first: nat, count: nat): (r: seq<Stream>)
      requires Shape()
      ensures |r| == count
      reads Tables
      decreases height, 3, count
    {
      if count == 0 then [] else [Run(first)] + Runs(first + 1, count - 1)
    }

    /** How often a nested loop starts its right child in its first n runs: once for each left tuple, and,
        but for the first run, once when it starts. */
    ghost function Used(n: nat): nat
      requires Shape() && op.NestedLoop?
      reads Tables
      decreases height, 0, n
    {
      if n == 0 then 0 else Used(n - 1) + (if n == 1 then 0 else 1) + |left.Run(n - 1).rows|
    }

    /** What the rest of the left side gives, the right side starting with this run. */
    ghost function Ahead(first: nat): Stream
      requires Shape() && op.NestedLoop?
      reads Repr, Tables
      decreases height, 0
    {
      LoopAll(Joins(), left.Rem(), right.Runs(first, |left.Rem().rows|))
    }

    /** From here on, inside NestedLoopScan, where hit says that the current left tuple has had a
        partner in this call. */
    ghost function Looping(hit: bool): Stream
      requires Shape() && op.NestedLoop?
      reads Repr, Tables
      decreases height, 1
    {
      Kids();
      if needNewLeft then Ahead(right.done)
      else match curLeft
        case Null => if right.Rem() == NOTHING then Ahead(right.done + 1) else STOPPED
        case Held(l) => Then(Matches(Joins(), l, right.Rem(), hit), Ahead(right.done + 1))
    }

    /** From here on, between calls. The flag for "no result yet" is local to a call, so a call that
        resumes a left tuple starts as if it had had a partner; it has. */
    ghost function Rem(): Stream
      requires Shape()
      reads Repr, Tables
      decreases height, 2
    {
      match op
      case SeqScan(_) => Scanned(cursor.pageIndex, cursor.tupleIndex)
      case NestedLoop(_, _) => Looping(true)
      case Sort(_, _, _) => if isSorted && nextIndex <= |results| then Stream(results[nextIndex..], true)
        else Resorted(Sorts(), left.Rem())
      case Result(w, targets) => ProjectAll(targets, cols, left.cols, Selected(w, left.cols, left.Rem()))
    }

    // ----- making nodes

    constructor Scan(cols: seq<ColDesc>, where: Where, cursor: HeapFile.Cursor)
      requires ColTypes(cols) == cursor.table.types && cursor.table.Valid()
      ensures Shape() && AtStart() && done == 0 && fresh(Repr - {cursor}) && Tables == {cursor.table}
      ensures op == SeqScan(where) && this.cols == cols && this.cursor == cursor
    {
      op, this.cols, left, right, this.cursor := SeqScan(where), cols, null, null, cursor;
      needNewLeft, curLeft, results, isSorted, nextIndex, done := false, Null, [], false, 0, 0;
      height, Repr, Tables := 0, {this, cursor}, {cursor.table};
    }

    constructor Loop(outer: bool, qual: Where, cols: seq<ColDesc>, left: PlanNode, right: PlanNode)
      requires left.Shape() && right.Shape() && left.AtStart() && right.AtStart() && left.done == right.done == 0
      requires left.OfJoin() && right.OfJoin()
      requires left.Repr !! right.Repr && forall t :: t in left.Tables + right.Tables ==> t !in left.Repr + right.Repr
      ensures Shape() && AtStart() && done == 0 && fresh(Repr - left.Repr - right.Repr)
      ensures Tables == left.Tables + right.Tables
      ensures op == NestedLoop(outer, qual) && this.cols == cols && this.left == left && this.right == right
    {
      op, this.cols, this.left, this.right, cursor := NestedLoop(outer, qual), cols, left, right, null;
      needNewLeft, curLeft, results, isSorted, nextIndex, done := true, Null, [], false, 0, 0;
      height, Repr, Tables := left.height + right.height + 1, {this} + left.Repr + right.Repr,
        left.Tables + right.Tables;
    }

    constructor SortBy(name: CString, ty: BType, desc: bool, left: PlanNode)
      requires left.Shape() && left.AtStart() && left.done == 0 && HasOrder(ty)
      ensures Shape() && AtStart() && done == 0 && fresh(Repr - left.Repr) && Tables == left.Tables
      ensures op == Sort(name, ty, desc) && cols == left.cols && this.left == left
    {
      op, cols, this.left, right, cursor := Sort(name, ty, desc), left.cols, left, null, null;
      needNewLeft, curLeft, results, isSorted, nextIndex, done := false, Null, [], false, 0, 0;
      height, Repr, Tables := left.height + 1, {this} + left.Repr, left.Tables;
    }

    constructor ResultOf(cond: Where, targets: seq<Target>, cols: seq<ColDesc>, left: PlanNode)
      requires left.Shape() && left.AtStart() && left.done == 0
      ensures Shape() && AtStart() && done == 0 && fresh(Repr - left.Repr) && Tables == left.Tables
      ensures op == Result(cond, targets) && this.cols == cols && this.left == left
    {
      op, this.cols, this.left, right, cursor := Result(cond, targets), cols, left, null, null;
      needNewLeft, curLeft, results, isSorted, nextIndex, done := false, Null, [], false, 0, 0;
      height, Repr, Tables := left.height + 1, {this} + left.Repr, left.Tables;
    }

    lemma Apart()
      requires Shape()
      ensures forall t :: t in Tables ==> t !in Repr
    {
    }

    // ----- init

    /** init_func: InitChildren, or a new cursor position. */
    method Init()
      requires Shape() && AtStart()
      modifies Repr
      ensures Valid() && AtStart() && done == old(done)
      ensures Rem() == Run(done)
      decreases height, 1
    {
      hide LoopAll, Selected, Resorted, ProjectAll, Matches, Heap.HeapOk, Heap.LiveFrom;
      match op {
        case SeqScan(_) => cursor.pageIndex, cursor.tupleIndex := 0, 0;
        case NestedLoop(_, _) => InitLoop();
        case Sort(_, _, _) => left.Init();
        case Result(_, _) => left.Init();
      }
    }

    method InitLoop()
      requires Shape() && AtStart() && op.NestedLoop?
      modifies Repr
      ensures Valid() && AtStart() && done == old(done)
      ensures Rem() == Run(done)
      decreases height, 0
    {
      hide Shape, Valid, AtStart, Rem, Run, Runs, Used, Ahead, LoopAll, Looping;
      LoopShape();
      left.Init();
      right.Init();
      LoopShape();
      assert AtStart();
      StartRem();
    }

    /** A loop whose children are about to start, too. */
    lemma StartRem()
      requires Shape() && op.NestedLoop? && AtStart()
      requires left.Rem() == left.Run(done) && right.Rem() == right.Run(Used(done))
      ensures Rem() == Run(done) && |left.Rem().rows| + Used(done) + (if done == 0 then 0 else 1) == Used(done + 1)
    {
      hide Rem, Run, LoopRun, Runs, LoopAll, Ahead, Looping;
      LoopShape();
      RemLoops();
      AheadIs(right.done + (if done > 0 then 1 else 0));
      RunIs(done);
      LoopRunIs(done);
      if done == 0 {
        LoopingLeft(true);
      } else {
        LoopingRight(true);
      }
    }

    lemma {:induction false} RunIs(n: nat)
      requires Shape() && op.NestedLoop?
      ensures Run(n) == LoopRun(n)
    {
      hide LoopRun;
    }

    lemma {:induction false} LoopRunIs(n: nat)
      requires Shape() && op.NestedLoop?
      ensures LoopRun(n) ==
              if n > 0 && right.Run(Used(n)) != NOTHING then STOPPED
              else LoopAll(Joins(), left.Run(n), right.Runs(Used(n) + (if n > 0 then 1 else 0), |left.Run(n).rows|))
    {
      hide Run, LoopAll, Runs, Used;
    }

    // ----- get_next

    method GetNext() returns (r: Pulled)
      requires Shape() && Valid()
      modifies Repr
      ensures Delivers(old(Rem()), r, Rem())
      ensures r.Got? ==> Valid() && done == old(done)
      ensures r.End? && OfJoin() ==> AtStart() && done == old(done) + 1
      decreases height, 3
    {
      match op {
        case SeqScan(_) => r := SequentialScan();
        case NestedLoop(_, _) => r := NestedLoopScan();
        case Sort(_, _, _) => r := SortScan();
        case Result(_, _) => r := GetResult();
      }
    }

    method SequentialScan() returns (r: Pulled)
      requires Shape() && Valid() && op.SeqScan?
      modifies Repr
      ensures Delivers(old(Rem()), r, Rem())
      ensures r.Got? ==> Valid() && done == old(done)
      ensures r.End? ==> AtStart() && done == old(done) + 1
      decreases height, 0
    {
      hide Heap.LiveFrom, Heap.LiveBefore, Heap.Lookup, Selected, TestWhere, StoredRow, Heap.HeapOk;
      var pages := cursor.table.pages;
      while true
        invariant Valid() && cursor.table.pages == pages && done == old(done)
        invariant Rem() == old(Rem())
        decreases |Heap.LiveFrom(pages, cursor.pageIndex, cursor.tupleIndex)|
      {
        ghost var ahead := Heap.LiveFrom(pages, cursor.pageIndex, cursor.tupleIndex);
        var found, item := cursor.SeekNext();
        if !found {
          SelectedNone(op.where, cols);
          done := done + 1;
          return End;
        }
        var row := StoredRow(item, cols);
        ghost var rest := Heap.LiveFrom(pages, cursor.pageIndex, cursor.tupleIndex);
        assert ahead == [item] + rest;
        SelectedFirst(op.where, cols, item, rest);
        match TestWhere(op.where, row, cols) {
          case Stops => return Crashed;
          case Rejected =>
          case Passes => return Got(row);
        }
      }
    }

    method GetResult() returns (r: Pulled)
      requires Shape() && Valid() && op.Result?
      modifies Repr
      ensures Delivers(old(Rem()), r, Rem())
      ensures r.Got? ==> Valid() && done == old(done)
      decreases height, 0
    {
      hide Selected, ProjectAll, ProjectRow, TestWhere;
      while true
        invariant Valid() && done == old(done)
        invariant Rem() == old(Rem())
        decreases |left.Rem().rows|
      {
        ghost var before := left.Rem();
        var pulled := left.GetNext();
        match pulled {
          case Crashed =>
            ResultEnds(op.cond, op.targets, cols, left.cols);
            return Crashed;
          case End =>
            ResultEnds(op.cond, op.targets, cols, left.cols);
            return End;
          case Got(row) =>
            ResultFirst(op.cond, op.targets, cols, left.cols, row, left.Rem());
            match TestWhere(op.cond, row, left.cols) {
              case Stops => return Crashed;
              case Rejected =>
              case Passes =>
                var projected := ProjectColumns(op.targets, cols, row, left.cols);
                if projected.Failed? {
                  return Crashed;
                }
                return Got(projected.row);
            }
        }
      }
    }

    method SortScan() returns (r: Pulled)
      requires Shape() && Valid() && op.Sort?
      modifies Repr
      ensures Delivers(old(Rem()), r, Rem())
      ensures r.Got? ==> Valid() && done == old(done)
      decreases height, 2
    {
      hide SortRows, Sortable, Shape, Valid, Rem;
      SortShape();
      if !isSorted {
        var ok := Drain();
        if !ok {
          return Crashed;
        }
        ok := ExchangeSort();
        if !ok {
          return Crashed;
        }
        isSorted := true;
      }
      SortShape();
      if nextIndex >= |results| {
        return End;
      }
      r := Got(results[nextIndex]);
      nextIndex := nextIndex + 1;
      SortShape();
    }

    lemma SortShape()
      requires Shape() && op.Sort?
      ensures left != null && left.Shape() && Child(left) && this in Repr && HasOrder(op.ty)
      ensures Valid() <==> nextIndex <= |results| && (!isSorted ==> results == [] && left.Valid() && left.done == 0)
      ensures isSorted && nextIndex <= |results| ==> Rem() == Stream(results[nextIndex..], true)
      ensures !isSorted ==> Rem() == Resorted(Sorts(), left.Rem())
    {
      hide Resorted;
    }

    /** Pull the child to its end into results. */
    method Drain() returns (ok: bool)
      requires Shape() && Valid() && op.Sort? && !isSorted
      modifies Repr
      ensures ok <==> old(left.Rem()).ok
      ensures ok ==> results == old(left.Rem()).rows
      ensures isSorted == old(isSorted) && nextIndex == old(nextIndex) && done == old(done)
      decreases height, 1
    {
      hide Shape, Valid, Rem, AtStart, Run;
      SortShape();
      var pulled := left.GetNext();
      while pulled.Got?
        invariant pulled.Got? ==> left.Valid()
        invariant pulled.Got? ==> old(left.Rem()) == Then(Stream(results, true), Emit(pulled.row, left.Rem()))
        invariant pulled.End? ==> old(left.Rem()) == Stream(results, true)
        invariant pulled.Crashed? ==> !old(left.Rem()).ok
        invariant isSorted == old(isSorted) && nextIndex == old(nextIndex) && done == old(done)
        decreases if pulled.Got? then 1 + |left.Rem().rows| else 0
      {
        Collected(results, pulled.row, left.Rem());
        results := results + [pulled.row];
        pulled := left.GetNext();
      }
      return pulled.End?;
    }

    /** The exchange sort, in place; it stops at the first comparison of a null. */
    method ExchangeSort() returns (ok: bool)
      requires op.Sort? && HasOrder(op.ty)
      modifies this`results
      ensures ok <==> Sortable(Sorts(), old(results))
      ensures ok ==> results == SortRows(Sorts(), old(results))
    {
      hide CompareRows, Before, Through, SortRows, GetName, Typed, Sortable, Keyed;
      ghost var s, rows := Sorts(), results;
      SortNone(s);
      for i := 0 to |results|
        invariant |results| == |rows| && results[..i] == SortRows(s, rows[..i]) && results[i..] == rows[i..]
        invariant i >= 2 ==> Keyed(s, rows[..i])
      {
        assert results[i] == results[i..][0];
        var pushed := Push(i);
        SortStep(s, rows, i);
        if !pushed {
          SortFails(s, rows, i);
          return false;
        }
      }
      SortsAll(s, rows);
      assert rows[..|rows|] == rows && results[..|rows|] == results;
      return true;
    }

    /** The inner loop: push row i through the rows before it. */
    method Push(i: nat) returns (ok: bool)
      requires op.Sort? && HasOrder(op.ty) && i < |results|
      modifies this`results
      ensures |results| == |old(results)| && results[i + 1..] == old(results)[i + 1..]
      ensures ok <==> i == 0 || (Typed(Sorts(), old(results)[i]) && Keyed(Sorts(), old(results)[..i]))
      ensures ok ==> results[..i + 1] == Through(Sorts(), old(results)[i], old(results)[..i])
    {
      hide CompareRows, Before, Through, GetName, Typed, Keyed;
      ghost var s, prefix := Sorts(), results[..i];
      var insert := results[i];
      PushStart(s, results, i);
      for j := 0 to i
        invariant Pushing(s, old(results), results, i, j, insert)
        invariant if j > 0 then Typed(s, insert) && Typed(s, old(results)[i]) else insert == old(results)[i]
      {
        var current := results[j];
        var goes := CompareRows(Sorts(), insert, current);
        CompareFails(s, insert, current);
        PushStep(s, old(results), results, i, j, insert);
        if !goes.Val? {
          return false;
        }
        if goes == Val(BoolD(true)) {
          results := results[j := insert][i := current];
          insert := current;
        }
      }
      PushEnd(s, old(results), results, i, insert);
      return true;
    }

    /** NestedLoopScan, with its local flag for "no result yet". */
    method NestedLoopScan() returns (r: Pulled)
      requires Shape() && Valid() && op.NestedLoop?
      modifies Repr
      ensures Delivers(old(Rem()), r, Rem())
      ensures r.Got? ==> Valid() && done == old(done)
      ensures r.End? ==> AtStart() && done == old(done) + 1
      decreases height, 2
    {
      hide LoopAll, Matches, Shape, Valid, AtStart, Looping, Rem, Ahead, Run, Runs, Used;
      LoopShape();
      RemLoops();
      var noResult := false;
      while true
        invariant Valid() && done == old(done)
        invariant noResult && !needNewLeft ==> curLeft != Null
        invariant Looping(!noResult) == old(Looping(true))
        decreases |left.Rem().rows|, if needNewLeft then 0 else 1, |right.Rem().rows|
      {
        if needNewLeft {
          LoopingLeft(!noResult);
          AheadFirst(right.done);
          var pulled := NextLeft();
          if !pulled.Got? {
            return pulled;
          }
          LoopingRight(false);
          noResult := true;
        }
        var pulled := NextMatch(noResult);
        if pulled.Some? {
          RemLoops();
          return pulled.value;
        }
      }
    }

    /** One round with the inner child: what the call returns, if this round decides it. */
    method NextMatch(noResult: bool) returns (r: Option<Pulled>)
      requires Shape() && Valid() && op.NestedLoop? && !needNewLeft && (noResult ==> curLeft != Null)
      modifies Repr
      ensures done == old(done)
      ensures r.Some? ==> !r.value.End? && Delivers(old(Looping(!noResult)), r.value, Looping(true))
      ensures r.Some? && !r.value.Crashed? ==> Valid()
      ensures r.None? ==>
                && Valid() && Looping(!noResult) == old(Looping(!noResult)) && curLeft == old(curLeft)
                && left.Rem() == old(left.Rem()) && (needNewLeft || |right.Rem().rows| < |old(right.Rem().rows)|)
      decreases height, 1
    {
      hide LoopAll, Matches, Then, JoinRow, PadRow, TestWhere, Filled, Shape, Valid, AtStart, Looping, Rem, Ahead, Run,
           Runs, Used;
      LoopShape();
      LoopingRight(!noResult);
      ghost var rest := Ahead(right.done + 1);
      if curLeft.Held? {
        MatchFirst(Joins(), curLeft.row, right.Rem(), !noResult, rest);
      }
      var pulled := NextRight();
      match pulled {
        case Crashed => return Some(Crashed);
        case End =>
          LoopingLeft(!noResult);
          if op.outer && noResult {
            PadIs(Joins(), curLeft.row);
            var row := FillColumns(NullRow(|cols|), cols, left.cols, curLeft.row);
            return Some(Got(row));
          }
        case Got(x) =>
          if curLeft == Null {
            return Some(Crashed);
          }
          LoopingRight(!noResult);
          LoopingRight(true);
          var row := JoinColumns(Joins(), curLeft.row, x);
          match TestWhere(op.qual, row, cols) {
            case Stops => return Some(Crashed);
            case Rejected =>
            case Passes => return Some(Got(row));
          }
      }
      return None;
    }

    lemma RemLoops()
      requires Shape() && op.NestedLoop?
      ensures Rem() == Looping(true)
    {
      hide Looping;
    }

    lemma LoopingLeft(hit: bool)
      requires Shape() && op.NestedLoop? && needNewLeft
      ensures Looping(hit) == Looping(true) == Ahead(right.done)
    {
      hide Ahead, Rem;
    }

    /** Looping, spelled out where a left tuple, or a null pointer, is current. */
    lemma LoopingRight(hit: bool)
      requires Shape() && op.NestedLoop? && !needNewLeft
      ensures curLeft == Null ==> Looping(hit) == if right.Rem() == NOTHING then Ahead(right.done + 1) else STOPPED
      ensures curLeft != Null ==>
                Looping(hit) == Then(Matches(Joins(), curLeft.row, right.Rem(), hit), Ahead(right.done + 1))
    {
      hide Ahead, Rem, Then, Matches;
    }

    /** What lies ahead begins with the first left row still to come. */
    lemma AheadFirst(first: nat)
      requires Shape() && op.NestedLoop?
      ensures left.Rem().rows == [] ==> Ahead(first) == left.Rem()
      ensures left.Rem().rows != [] ==>
                Ahead(first) == Then(Matches(Joins(), left.Rem().rows[0], right.Run(first), false),
                                     LoopAll(Joins(), Rest(left.Rem()), right.Runs(first + 1, |left.Rem().rows| - 1)))
    {
      hide Rem, Run, Matches;
      var n := |left.Rem().rows|;
      if n > 0 {
        var runs := right.Runs(first, n);
        assert runs[0] == right.Run(first) && runs[1..] == right.Runs(first + 1, n - 1);
      }
    }

    lemma AheadIs(first: nat)
      requires Shape() && op.NestedLoop?
      ensures Ahead(first) == LoopAll(Joins(), left.Rem(), right.Runs(first, |left.Rem().rows|))
    {
      hide Rem, LoopAll, Runs;
    }

    lemma LoopShape()
      requires Shape() && op.NestedLoop?
      ensures left != null && right != null && left.Shape() && right.Shape() && Child(left) && Child(right)
      ensures this in Repr && left in left.Repr && right in right.Repr && left.Repr !! right.Repr && left.OfJoin()
      ensures right.OfJoin() && (forall t :: t in Tables ==> t !in Repr)
      ensures Valid() <==>
                && left.Valid() && left.done == done && (if needNewLeft then right.AtStart() else right.Valid())
                && right.done + (if needNewLeft then 0 else 1) + |left.Rem().rows| == Used(done + 1)
      ensures AtStart() <==>
                && left.AtStart() && right.AtStart() && left.done == done && right.done == Used(done)
                && if done == 0 then needNewLeft else !needNewLeft && curLeft == Null
    {
      hide Used, Rem;
    }

    /** The need_new_left_tuple branch. */
    method NextLeft() returns (r: Pulled)
      requires Shape() && Valid() && op.NestedLoop? && needNewLeft
      modifies Repr
      ensures Delivers(old(left.Rem()), r, left.Rem())
      ensures r.Got? ==>
                && Valid() && done == old(done) && !needNewLeft && curLeft == Held(r.row)
                && right.done == old(right.done) && right.Rem() == right.Run(right.done)
                && Ahead(right.done + 1) == LoopAll(Joins(), left.Rem(), right.Runs(right.done + 1, |left.Rem().rows|))
      ensures r.End? ==> AtStart() && done == old(done) + 1
      decreases height, 0
    {
      hide Shape, Valid, AtStart, Rem, Run, Runs, Used, Ahead, LoopAll;
      LoopShape();
      r := left.GetNext();
      needNewLeft := false;
      match r {
        case Crashed =>
        case End =>
          curLeft := Null;
          done := done + 1;
        case Got(l) =>
          curLeft := Held(l);
          right.Init();
          AheadIs(right.done + 1);
      }
      LoopShape();
    }

    /** The pull on the inner child. */
    method NextRight() returns (r: Pulled)
      requires Shape() && Valid() && op.NestedLoop? && !needNewLeft
      modifies Repr
      ensures Delivers(old(right.Rem()), r, right.Rem())
      ensures !r.Crashed? ==> Valid() && left.Rem() == old(left.Rem())
      ensures done == old(done) && curLeft == old(curLeft) && (needNewLeft <==> r.End?)
      ensures !r.Crashed? ==> Ahead(if r.End? then right.done else right.done + 1) == old(Ahead(right.done + 1))
      decreases height, 0
    {
      hide Shape, Valid, AtStart, Rem, Run, Runs, Used, Ahead, LoopAll;
      LoopShape();
      AheadIs(right.done + 1);
      r := right.GetNext();
      if r.End? {
        needNewLeft := true;
      }
      AheadIs(if r.End? then right.done else right.done + 1);
      LoopShape();
    }
  }

  lemma PadIs(j: Joining, l: Row)
    ensures PadRow(j, l) == Filled(NullRow(|j.cols|), j.cols, j.left, l, |j.left|)
  {
  }

  method JoinColumns(j: Joining, l: Row, x: Row) returns (r: Row)
    ensures r == JoinRow(j, l, x)
  {
    r := FillColumns(NullRow(|j.cols|), j.cols, j.left, l);
    r := FillColumns(r, j.cols, j.right, x);
  }

  lemma SortNone(s: Sorting)
    ensures SortRows(s, []) == []
  {
  }

  lemma SortStep(s: Sorting, rows: seq<Row>, i: nat)
    requires i < |rows|
    ensures SortRows(s, rows[..i + 1]) == Through(s, rows[i], SortRows(s, rows[..i]))
    ensures Keyed(s, SortRows(s, rows[..i])) && Typed(s, rows[i]) ==> Keyed(s, rows[..i + 1])
    ensures Keyed(s, SortRows(s, rows[..i])) <==> Keyed(s, rows[..i])
  {
    hide Through, Typed;
    assert rows[..i + 1][..i] == rows[..i] && rows[..i + 1] == rows[..i] + [rows[i]];
    KeyedSorted(s, rows[..i]);
  }

  lemma KeyedSorted(s: Sorting, rows: seq<Row>)
    ensures Keyed(s, SortRows(s, rows)) <==> Keyed(s, rows)
  {
    hide SortRows, Typed;
    SortPermutes(s, rows);
    assert forall x :: x in rows <==> x in multiset(rows);
    assert forall x :: x in SortRows(s, rows) <==> x in multiset(SortRows(s, rows));
  }

  /** The state of the inner loop: rows before j are in place, the row in hand sits at i, the rows in
      between have not been looked at. */
  ghost predicate Pushing(s: Sorting, start: seq<Row>, now: seq<Row>, i: nat, j: nat, insert: Row) {
    && j <= i < |start| == |now| && now[i] == insert && now[j..i] == start[j..i] && now[i + 1..] == start[i + 1..]
    && Through(s, start[i], start[..i]) == now[..j] + Through(s, insert, start[j..i])
    && Keyed(s, start[..j])
  }

  lemma PushStart(s: Sorting, rows: seq<Row>, i: nat)
    requires i < |rows|
    ensures Pushing(s, rows, rows, i, 0, rows[i])
  {
    hide Through, Typed;
  }

  lemma PushStep(s: Sorting, start: seq<Row>, now: seq<Row>, i: nat, j: nat, insert: Row)
    requires Pushing(s, start, now, i, j, insert) && j < i
    ensures now[j] == start[j] && now[j] in start[..i]
    ensures Typed(s, now[j]) ==>
              Pushing(s, start, if Before(s, insert, now[j]) then now[j := insert][i := now[j]] else now, i, j + 1,
                      if Before(s, insert, now[j]) then now[j] else insert)
    ensures !Typed(s, now[j]) ==> !Keyed(s, start[..i])
  {
    hide Before, Through, Typed, Keyed, Pushing;
    PushSees(s, start, now, i, j, insert);
    if Typed(s, now[j]) {
      if Before(s, insert, now[j]) {
        PushSwaps(s, start, now, i, j, insert);
      } else {
        PushStays(s, start, now, i, j, insert);
      }
    }
  }

  lemma PushSees(s: Sorting, start: seq<Row>, now: seq<Row>, i: nat, j: nat, insert: Row)
    requires Pushing(s, start, now, i, j, insert) && j < i
    ensures i < |now| == |start| && now[j] == start[j] && now[j] in start[..i]
    ensures Typed(s, now[j]) ==> Keyed(s, start[..j + 1])
    ensures !Typed(s, now[j]) ==> !Keyed(s, start[..i])
    ensures Through(s, insert, start[j..i]) ==
            if Before(s, insert, now[j]) then [insert] + Through(s, now[j], start[j + 1..i])
            else [now[j]] + Through(s, insert, start[j + 1..i])
  {
    hide Before, Through, Typed, Keyed;
    assert now[j] == now[j..i][0] == start[j..i][0] && start[..i][j] == now[j];
    assert start[j..i][1..] == start[j + 1..i] && start[j..i][0..] == start[j..i];
    ThroughStep(s, insert, start[j..i], 0);
    KeyedMore(s, start, j, i);
  }

  lemma PushSwaps(s: Sorting, start: seq<Row>, now: seq<Row>, i: nat, j: nat, insert: Row)
    requires Pushing(s, start, now, i, j, insert) && j < i && Keyed(s, start[..j + 1])
    requires Through(s, insert, start[j..i]) == [insert] + Through(s, now[j], start[j + 1..i])
    ensures Pushing(s, start, now[j := insert][i := now[j]], i, j + 1, now[j])
  {
    hide Before, Through, Typed, Keyed;
    Exchanged(now, i, j, insert);
    assert now[j..i][1..] == now[j + 1..i] && start[j..i][1..] == start[j + 1..i];
    assert now[..j] + ([insert] + Through(s, now[j], start[j + 1..i])) ==
           now[..j] + [insert] + Through(s, now[j], start[j + 1..i]);
  }

  lemma PushStays(s: Sorting, start: seq<Row>, now: seq<Row>, i: nat, j: nat, insert: Row)
    requires Pushing(s, start, now, i, j, insert) && j < i && Keyed(s, start[..j + 1])
    requires Through(s, insert, start[j..i]) == [now[j]] + Through(s, insert, start[j + 1..i])
    ensures Pushing(s, start, now, i, j + 1, insert)
  {
    hide Before, Through, Typed, Keyed;
    Exchanged(now, i, j, insert);
    assert now[j..i][1..] == now[j + 1..i] && start[j..i][1..] == start[j + 1..i];
    assert now[..j] + ([now[j]] + Through(s, insert, start[j + 1..i])) ==
           now[..j] + [now[j]] + Through(s, insert, start[j + 1..i]);
  }

  lemma KeyedMore(s: Sorting, start: seq<Row>, j: nat, i: nat)
    requires j < i <= |start| && Keyed(s, start[..j])
    ensures Typed(s, start[j]) ==> Keyed(s, start[..j + 1])
    ensures !Typed(s, start[j]) ==> !Keyed(s, start[..i])
  {
    hide Typed;
    assert start[..j + 1] == start[..j] + [start[j]] && start[..i][j] == start[j];
  }

  lemma Exchanged(now: seq<Row>, i: nat, j: nat, insert: Row)
    requires j < i < |now|
    ensures var swapped := now[j := insert][i := now[j]];
            && swapped[..j + 1] == now[..j] + [insert] && swapped[j + 1..i] == now[j + 1..i]
            && swapped[i + 1..] == now[i + 1..] && swapped[i] == now[j]
    ensures now[..j + 1] == now[..j] + [now[j]]
  {
  }

  lemma PushEnd(s: Sorting, start: seq<Row>, now: seq<Row>, i: nat, insert: Row)
    requires Pushing(s, start, now, i, i, insert)
    ensures now[..i + 1] == Through(s, start[i], start[..i]) && Keyed(s, start[..i]) && now[i + 1..] == start[i + 1..]
  {
    hide Typed;
    ThroughLast(s, insert);
    assert start[i..i] == [];
  }

  lemma ThroughStep(s: Sorting, insert: Row, prefix: seq<Row>, j: nat)
    requires j < |prefix|
    ensures Through(s, insert, prefix[j..]) ==
            if Before(s, insert, prefix[j]) then [insert] + Through(s, prefix[j], prefix[j + 1..])
            else [prefix[j]] + Through(s, insert, prefix[j + 1..])
  {
    hide Before;
    assert prefix[j..][1..] == prefix[j + 1..];
  }

  lemma ThroughLast(s: Sorting, insert: Row)
    ensures Through(s, insert, []) == [insert]
  {
  }

  lemma CompareFails(s: Sorting, a: Row, b: Row)
    requires HasOrder(s.ty)
    ensures CompareRows(s, a, b).Val? <==> Typed(s, a) && Typed(s, b)
    ensures CompareRows(s, a, b) == Val(BoolD(true)) <==> Before(s, a, b)
  {
    hide StrLess, GetName;
  }

  lemma SortFails(s: Sorting, rows: seq<Row>, i: nat)
    requires 0 < i < |rows| && !(Typed(s, rows[i]) && Keyed(s, rows[..i]))
    ensures !Sortable(s, rows)
  {
    hide Typed;
  }

  lemma SortsAll(s: Sorting, rows: seq<Row>)
    requires |rows| >= 2 ==> Keyed(s, rows[..|rows|])
    ensures Sortable(s, rows)
  {
    hide Typed;
    assert rows[..|rows|] == rows;
  }

  lemma Collected(sofar: seq<Row>, row: Row, s: Stream)
    ensures Then(Stream(sofar, true), Emit(row, s)) == Then(Stream(sofar + [row], true), s)
  {
    assert sofar + ([row] + s.rows) == sofar + [row] + s.rows;
  }

  /** One round of the inner loop, with what follows it. */
  lemma MatchFirst(j: Joining, l: Row, rs: Stream, hit: bool, rest: Stream)
    ensures rs == STOPPED ==> Then(Matches(j, l, rs, hit), rest) == STOPPED
    ensures rs == NOTHING ==>
              Then(Matches(j, l, rs, hit), rest) == if j.outer && !hit then Emit(PadRow(j, l), rest) else rest
    ensures rs.rows != [] ==>
              Then(Matches(j, l, rs, hit), rest) ==
              match TestPair(j, l, rs.rows[0])
              case Stops => STOPPED
              case Rejected => Then(Matches(j, l, Rest(rs), hit), rest)
              case Passes => Emit(JoinRow(j, l, rs.rows[0]), Then(Matches(j, l, Rest(rs), true), rest))
  {
    hide TestPair, JoinRow, PadRow;
    ThenEmit(PadRow(j, l), NOTHING, rest);
    if rs.rows != [] {
      ThenEmit(JoinRow(j, l, rs.rows[0]), Matches(j, l, Rest(rs), true), rest);
    }
  }

  /** The column loops of NestedLoopScan. */
  method FillColumns(base: Row, to: seq<ColDesc>, from: seq<ColDesc>, row: Row) returns (r: Row)
    ensures r == Filled(base, to, from, row, |from|)
  {
    r := base;
    for i := 0 to |from|
      invariant r == Filled(base, to, from, row, i)
    {
      r := SetName(r, to, from[i].name, GetName(row, from, from[i].name));
    }
  }

  /** The projection loop. */
  method ProjectColumns(targets: seq<Target>, out: seq<ColDesc>, row: Row, cols: seq<ColDesc>) returns (r: Projection)
    ensures r == ProjectRow(targets, out, row, cols, |targets|)
  {
    hide EvalExpr, ColIdx;
    var result := NullRow(|out|);
    for i := 0 to |targets|
      invariant ProjectRow(targets, out, row, cols, i) == Projected(result)
    {
      var value := EvalExpr(targets[i].expr, row, cols);
      if !value.Val? {
        ProjectFails(targets, out, row, cols, i, |targets|);
        return Failed;
      }
      result := SetName(result, out, targets[i].name, value.d);
    }
    return Projected(result);
  }

  lemma {:induction false} ProjectFails(targets: seq<Target>, out: seq<ColDesc>, row: Row, cols: seq<ColDesc>, i: nat,
                                        n: nat)
    requires i < n <= |targets| && !EvalExpr(targets[i].expr, row, cols).Val?
    ensures ProjectRow(targets, out, row, cols, n) == Failed
  {
    hide EvalExpr, ColIdx;
    if i < n - 1 {
      ProjectFails(targets, out, row, cols, i, n - 1);
    }
  }

  lemma SelectedNone(w: Where, cols: seq<ColDesc>)
    ensures Selected(w, cols, Stream(RowsOf([], cols), true)) == NOTHING
  {
  }

  lemma SelectedFirst(w: Where, cols: seq<ColDesc>, item: Bytes, rest: seq<Bytes>)
    ensures var row := StoredRow(item, cols);
            var later := Selected(w, cols, Stream(RowsOf(rest, cols), true));
            Selected(w, cols, Stream(RowsOf([item] + rest, cols), true)) ==
            match TestWhere(w, row, cols)
            case Stops => STOPPED
            case Rejected => later
            case Passes => Emit(row, later)
  {
    hide StoredRow, TestWhere;
    var rows := RowsOf([item] + rest, cols);
    assert rows[1..] == RowsOf(rest, cols) && rows[0] == StoredRow(item, cols);
  }

  lemma ResultEnds(w: Where, targets: seq<Target>, out: seq<ColDesc>, cols: seq<ColDesc>)
    ensures ProjectAll(targets, out, cols, Selected(w, cols, NOTHING)) == NOTHING
    ensures ProjectAll(targets, out, cols, Selected(w, cols, STOPPED)) == STOPPED
  {
  }

  lemma ResultFirst(w: Where, targets: seq<Target>, out: seq<ColDesc>, cols: seq<ColDesc>, row: Row, s: Stream)
    ensures var later := ProjectAll(targets, out, cols, Selected(w, cols, s));
            ProjectAll(targets, out, cols, Selected(w, cols, Emit(row, s))) ==
            match TestWhere(w, row, cols)
            case Stops => STOPPED
            case Rejected => later
            case Passes =>
              match ProjectRow(targets, out, row, cols, |targets|)
              case Failed => STOPPED
              case Projected(x) => Emit(x, later)
  {
    hide TestWhere, ProjectRow;
    RestEmit(s, row);
    RestEmit(Selected(w, cols, s), row);
  }
}
