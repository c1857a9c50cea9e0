/** DELETE, UPDATE and INSERT over a heap table. */
module ModifyScan {
  import opened PageLayout
  import opened Types
  import opened Schema
  import opened Codec
  import opened Expr
  import opened Heap
  import opened HeapFile
  import opened HeapWrites

  function StoredRow(b: Bytes, cols: seq<ColDesc>): Row {
    RowOf(TupleOf(b), ColTypes(cols))
  }

  function TestItem(w: Where, cols: seq<ColDesc>, b: Bytes): Test {
    TestWhere(w, StoredRow(b, cols), cols)
  }

  // ----- DELETE

  /** The tuples a where clause does not pass, in order. */
  function Kept(w: Where, cols: seq<ColDesc>, bs: seq<Bytes>): seq<Bytes> {
    if bs == [] then [] else
      var last := bs[|bs| - 1];
      Kept(w, cols, bs[..|bs| - 1]) + if TestItem(w, cols, last) == Passes then [] else [last]
  }

  ghost predicate NoneStops(w: Where, cols: seq<ColDesc>, bs: seq<Bytes>) {
    forall i :: 0 <= i < |bs| ==> TestItem(w, cols, bs[i]) != Stops
  }

  lemma KeptNone(w: Where, cols: seq<ColDesc>)
    ensures Kept(w, cols, []) == []
  {
  }

  lemma KeptStep(w: Where, cols: seq<ColDesc>, bs: seq<Bytes>, b: Bytes)
    ensures Kept(w, cols, bs + [b]) == Kept(w, cols, bs) + if TestItem(w, cols, b) == Passes then [] else [b]
  {
    hide TestItem;
    assert (bs + [b])[..|bs + [b]| - 1] == bs;
  }

  lemma LookupStored(table: Pages, types: seq<BType>, page: nat, slot: nat, b: Bytes)
    requires HeapOk(table, types) && Lookup(table, page, slot) == Found.Tuple(b)
    ensures page < |table| && slot < |table[page].locs| && StoredAt(b, types, page, slot)
    ensures TupleOf(b).tid == TupleId(page, slot) && ValidImage(table[page])
  {
    hide TupleOf, StoredAt, Slots, Dead, ValidImage;
    StoredFacts(b, types, page, slot);
  }

  /** Delete the tuple the cursor has just passed, by the id stored in it. */
  method DeleteBehind(table: Table, ghost p: nat, ghost s: nat, item: Bytes)
    requires table.Valid() && s > 0 && Lookup(table.pages, p, s - 1) == Found.Tuple(item)
    modifies table
    ensures table.Valid() && |table.pages| == |old(table.pages)|
    ensures LiveFrom(table.pages, p, s) == LiveFrom(old(table.pages), p, s)
    ensures LiveBefore(table.pages, p, s) == LiveBefore(old(table.pages), p, s - 1)
  {
    hide LiveFrom, LiveBefore, HeapOk, Lookup, TupleOf;
    LookupStored(table.pages, table.types, p, s - 1, item);
    DeletedLive(table.pages, p, s - 1);
    table.Delete(TupleOf(item).tid);
  }

  /** How many tuples come before the first on which the where clause cannot be decided. */
  function Decidable(w: Where, cols: seq<ColDesc>, bs: seq<Bytes>): (n: nat)
    ensures n <= |bs|
  {
    if bs == [] || TestItem(w, cols, bs[0]) == Stops then 0 else 1 + Decidable(w, cols, bs[1..])
  }

  /** DeleteScan: delete while scanning. It completes exactly if the where clause can be tested on every
      live tuple. It leaves exactly the tuples that fail it, unchanged and in their order; where it stops, this
      is so of the tuples before the one it stops at, and the others are all there. */
  method DeleteScan(table: Table, w: Where, cols: seq<ColDesc>) returns (ok: bool)
    requires table.Valid() && ColTypes(cols) == table.types
    modifies table
    ensures table.Valid()
    ensures ok <==> NoneStops(w, cols, LiveOf(old(table.pages)))
    ensures var all := LiveOf(old(table.pages));
            var n := Decidable(w, cols, all);
            LiveOf(table.pages) == Kept(w, cols, all[..n]) + all[n..]
    ensures ok ==> LiveOf(table.pages) == Kept(w, cols, LiveOf(old(table.pages)))
    ensures ok <==> Decided(w, cols, LiveOf(old(table.pages)))
    ensures ok ==> Purged(w, cols, LiveOf(old(table.pages)), LiveOf(table.pages))
  {
    hide TestItem, LiveOf, LiveFrom, LiveBefore, HeapOk, Lookup, TupleOf, Kept, Deleted, Decided, Purged,
         NoneStops, Decidable;
    var cursor := new Cursor(table);
    ghost var all, taken: seq<Bytes> := LiveOf(table.pages), [];
    KeptNone(w, cols);
    NoneStopsStep(w, cols, [], []);
    LiveSplit(table.pages, 0, 0);
    PageStart(table.pages, 0);
    assert table.pages[..0] == [];
    NoneLive();
    while true
      invariant table.Valid() && cursor.pageIndex <= |table.pages|
      invariant all == taken + LiveFrom(table.pages, cursor.pageIndex, cursor.tupleIndex)
      invariant LiveBefore(table.pages, cursor.pageIndex, cursor.tupleIndex) == Kept(w, cols, taken)
      invariant NoneStops(w, cols, taken)
      decreases |all| - |taken|
    {
      LiveSplit(table.pages, cursor.pageIndex, cursor.tupleIndex);
      var found, item := cursor.SeekNext();
      if !found {
        assert taken == all;
        DeleteFinished(w, cols, all);
        return true;
      }
      KeptStep(w, cols, taken, item);
      NoneStopsStep(w, cols, taken, item);
      match TestItem(w, cols, item) {
        case Stops =>
          DeleteStopped(w, cols, taken, item, LiveFrom(table.pages, cursor.pageIndex, cursor.tupleIndex));
          return false;
        case Rejected =>
        case Passes =>
          DeleteBehind(table, cursor.pageIndex, cursor.tupleIndex, item);
      }
      taken := taken + [item];
    }
  }

  /** The scan has come to the end. */
  lemma DeleteFinished(w: Where, cols: seq<ColDesc>, all: seq<Bytes>)
    requires NoneStops(w, cols, all)
    ensures Decided(w, cols, all) && Purged(w, cols, all, Kept(w, cols, all))
    ensures var n := Decidable(w, cols, all); Kept(w, cols, all[..n]) + all[n..] == Kept(w, cols, all)
  {
    hide TestItem, Kept, NoneStops, Decidable, Decided, Purged;
    assert all[..|all|] == all && all[|all|..] == [];
    DecidableIs(w, cols, all, |all|);
    DecidedIs(w, cols, all);
    KeptPurged(w, cols, all);
    assert Kept(w, cols, all) + [] == Kept(w, cols, all);
  }

  /** It has come to a tuple it cannot decide. */
  lemma DeleteStopped(w: Where, cols: seq<ColDesc>, taken: seq<Bytes>, item: Bytes, rest: seq<Bytes>)
    requires NoneStops(w, cols, taken) && TestItem(w, cols, item) == Stops
    ensures var all := taken + ([item] + rest);
            && !NoneStops(w, cols, all) && !Decided(w, cols, all) && Decidable(w, cols, all) == |taken|
            && all[..|taken|] == taken && all[|taken|..] == [item] + rest
  {
    hide TestItem, NoneStops, Decidable, Decided;
    var all := taken + ([item] + rest);
    assert all[..|taken|] == taken && all[|taken|] == item;
    DecidableIs(w, cols, all, |taken|);
    DecidedIs(w, cols, all);
    StopsWithin(w, cols, all, |taken|);
  }

  /** There, and nowhere else, everything before can be decided and nothing or an undecidable tuple is next. */
  lemma {:induction false} DecidableIs(w: Where, cols: seq<ColDesc>, bs: seq<Bytes>, n: nat)
    requires n <= |bs|
    ensures Decidable(w, cols, bs) == n
            <==> NoneStops(w, cols, bs[..n]) && (n < |bs| ==> TestItem(w, cols, bs[n]) == Stops)
    ensures n == |bs| ==> bs[..n] == bs && bs[n..] == []
  {
    hide TestItem;
    if bs != [] && n > 0 {
      var rest := bs[1..];
      DecidableIs(w, cols, rest, n - 1);
      assert bs[..n] == [bs[0]] + rest[..n - 1];
      NoneStopsFirst(w, cols, bs[0], rest[..n - 1]);
    }
  }

  lemma NoneStopsFirst(w: Where, cols: seq<ColDesc>, b: Bytes, bs: seq<Bytes>)
    ensures NoneStops(w, cols, [b] + bs) <==> TestItem(w, cols, b) != Stops && NoneStops(w, cols, bs)
  {
    hide TestItem;
    var all := [b] + bs;
    assert all[0] == b && forall i :: 0 <= i < |bs| ==> all[i + 1] == bs[i];
  }

  lemma NoneStopsStep(w: Where, cols: seq<ColDesc>, bs: seq<Bytes>, b: Bytes)
    ensures NoneStops(w, cols, [])
    ensures (NoneStops(w, cols, bs + [b]) <==> NoneStops(w, cols, bs) && TestItem(w, cols, b) != Stops)
  {
    hide TestItem;
    assert (bs + [b])[|bs|] == b && forall i :: 0 <= i < |bs| ==> (bs + [b])[i] == bs[i];
  }

  lemma StopsWithin(w: Where, cols: seq<ColDesc>, bs: seq<Bytes>, i: nat)
    requires i < |bs| && TestItem(w, cols, bs[i]) == Stops
    ensures !NoneStops(w, cols, bs)
  {
    hide TestItem;
  }

  /** A tuple is kept exactly if the where clause is not true of its row, as often as it was there. */
  lemma {:induction false} KeptMeaning(w: Where, cols: seq<ColDesc>, bs: seq<Bytes>, b: Bytes)
    ensures multiset(Kept(w, cols, bs))[b] == if Satisfies(w, StoredRow(b, cols), cols) then 0 else multiset(bs)[b]
  {
    hide EvalExpr, TestWhere, StoredRow, Satisfies, Kept;
    if bs == [] {
      KeptNone(w, cols);
    } else {
      var init, last := bs[..|bs| - 1], bs[|bs| - 1];
      KeptMeaning(w, cols, init, b);
      TestMeaning(w, StoredRow(last, cols), cols);
      assert bs == init + [last];
      KeptStep(w, cols, init, last);
      CountConcat(init, [last], b);
      CountConcat(Kept(w, cols, init), if TestItem(w, cols, last) == Passes then [] else [last], b);
    }
  }

  lemma CountConcat<T>(a: seq<T>, b: seq<T>, x: T)
    ensures multiset(a + b)[x] == multiset(a)[x] + multiset(b)[x]
  {
    assert multiset(a + b) == multiset(a) + multiset(b);
  }

  /** Exactly the tuples of whose rows the where clause is true are gone. */
  ghost predicate Purged(w: Where, cols: seq<ColDesc>, before: seq<Bytes>, after: seq<Bytes>) {
    forall b :: multiset(after)[b] == if Satisfies(w, StoredRow(b, cols), cols) then 0 else multiset(before)[b]
  }

  lemma KeptPurged(w: Where, cols: seq<ColDesc>, bs: seq<Bytes>)
    ensures Purged(w, cols, bs, Kept(w, cols, bs))
  {
    hide Kept, Satisfies, StoredRow;
    forall b
      ensures multiset(Kept(w, cols, bs))[b] == if Satisfies(w, StoredRow(b, cols), cols) then 0 else multiset(bs)[b]
    {
      KeptMeaning(w, cols, bs, b);
    }
  }

  /** The where clause is true or false of every row. */
  ghost predicate Decided(w: Where, cols: seq<ColDesc>, bs: seq<Bytes>) {
    forall b :: b in bs ==> Satisfies(w, StoredRow(b, cols), cols) || Violates(w, StoredRow(b, cols), cols)
  }

  lemma DecidedIs(w: Where, cols: seq<ColDesc>, bs: seq<Bytes>)
    ensures Decided(w, cols, bs) <==> NoneStops(w, cols, bs)
  {
    hide EvalExpr, TestWhere, StoredRow;
    forall b
      ensures Satisfies(w, StoredRow(b, cols), cols) || Violates(w, StoredRow(b, cols), cols)
              <==> TestItem(w, cols, b) != Stops
    {
      TestMeaning(w, StoredRow(b, cols), cols);
    }
    if NoneStops(w, cols, bs) {
      forall b | b in bs
        ensures TestItem(w, cols, b) != Stops
      {
        var i :| 0 <= i < |bs| && bs[i] == b;
      }
    }
  }

  // ----- UPDATE

  /** One SET clause: the column and the expression. */
  datatype Assign = Assign(col: CString, value: Expr)

  /** The SET clauses applied in order, every right-hand side evaluated on the original row. */
  datatype Assigned = Assigned(row: Row) | Fails

  function AssignRow(assigns: seq<Assign>, row: Row, cols: seq<ColDesc>): Assigned {
    if assigns == [] then Assigned(row) else
      var last := assigns[|assigns| - 1];
      match AssignRow(assigns[..|assigns| - 1], row, cols)
      case Fails => Fails
      case Assigned(r) =>
        var i := ColIdx(cols, last.col);
        match EvalExpr(last.value, row, cols)
        case Val(d) => if i < |cols| && i < |r| then Assigned(r[i := d]) else Fails
        case _ => Fails
  }

  /** Every column named is there and every value can be computed, on this row. */
  ghost predicate Settable(assigns: seq<Assign>, row: Row, cols: seq<ColDesc>) {
    forall k :: 0 <= k < |assigns| ==>
      ColIdx(cols, assigns[k].col) < |cols| && EvalExpr(assigns[k].value, row, cols).Val?
  }

  /** Clause k names column i, and none after it does. */
  ghost predicate SetsLast(assigns: seq<Assign>, cols: seq<ColDesc>, k: nat, i: nat) {
    k < |assigns| && ColIdx(cols, assigns[k].col) == i
    && forall m :: k < m < |assigns| ==> ColIdx(cols, assigns[m].col) != i
  }

  ghost predicate Sets(assigns: seq<Assign>, cols: seq<ColDesc>, i: nat) {
    exists k :: 0 <= k < |assigns| && ColIdx(cols, assigns[k].col) == i
  }

  /** Each column holds the value, on the old row, of the last clause that names it, or else what it held. */
  ghost predicate SetTo(assigns: seq<Assign>, old_: Row, new_: Row, cols: seq<ColDesc>) {
    && |new_| == |old_|
    && (forall k: nat, i: nat :: SetsLast(assigns, cols, k, i) && i < |new_| ==>
          EvalExpr(assigns[k].value, old_, cols) == Val(new_[i]))
    && (forall i: nat :: i < |new_| && !Sets(assigns, cols, i) ==> new_[i] == old_[i])
  }

  /** What the SET clauses of an UPDATE come to on one row. */
  lemma {:induction false} AssignMeaning(assigns: seq<Assign>, row: Row, cols: seq<ColDesc>)
    requires |row| == |cols|
    ensures AssignRow(assigns, row, cols).Assigned? <==> Settable(assigns, row, cols)
    ensures AssignRow(assigns, row, cols).Assigned? ==>
              SetTo(assigns, row, AssignRow(assigns, row, cols).row, cols)
  {
    hide EvalExpr, ColIdx;
    if assigns != [] {
      var n := |assigns| - 1;
      var init, last := assigns[..n], assigns[n];
      assert assigns == init + [last];
      AssignMeaning(init, row, cols);
      SettableStep(init, last, row, cols);
      if AssignRow(assigns, row, cols).Assigned? {
        SetToStep(init, last, row, AssignRow(init, row, cols).row, cols);
      }
    }
  }

  lemma SettableStep(init: seq<Assign>, a: Assign, row: Row, cols: seq<ColDesc>)
    ensures Settable([], row, cols)
    ensures Settable(init + [a], row, cols)
            <==> Settable(init, row, cols) && ColIdx(cols, a.col) < |cols| && EvalExpr(a.value, row, cols).Val?
  {
    hide EvalExpr, ColIdx;
    var all := init + [a];
    assert all[|init|] == a && forall k :: 0 <= k < |init| ==> all[k] == init[k];
  }

  lemma SetToStep(init: seq<Assign>, a: Assign, row: Row, before: Row, cols: seq<ColDesc>)
    requires SetTo(init, row, before, cols) && EvalExpr(a.value, row, cols).Val? && ColIdx(cols, a.col) < |row|
    ensures SetTo(init + [a], row, before[ColIdx(cols, a.col) := EvalExpr(a.value, row, cols).d], cols)
  {
    hide EvalExpr, ColIdx;
    var all, n, at := init + [a], |init|, ColIdx(cols, a.col);
    var after := before[at := EvalExpr(a.value, row, cols).d];
    assert all[n] == a && forall k :: 0 <= k < n ==> all[k] == init[k];
    forall k: nat, i: nat | SetsLast(all, cols, k, i) && i < |after|
      ensures EvalExpr(all[k].value, row, cols) == Val(after[i])
    {
      assert ColIdx(cols, all[n].col) == at;
      assert k < n ==> i != at && SetsLast(init, cols, k, i);
    }
    forall i: nat | i < |after| && !Sets(all, cols, i)
      ensures after[i] == row[i]
    {
      assert ColIdx(cols, all[n].col) == at;
      assert forall k :: 0 <= k < n ==> ColIdx(cols, all[k].col) != i;
    }
  }

  /** The value of a SET clause is null or of the column's type, on every row of the table. */
  ghost predicate TypedAssign(a: Assign, cols: seq<ColDesc>) {
    forall row :: Conforms(row, ColTypes(cols)) ==> TypedOn(a, row, cols)
  }

  ghost predicate TypedOn(a: Assign, row: Row, cols: seq<ColDesc>) {
    var i, v := ColIdx(cols, a.col), EvalExpr(a.value, row, cols);
    i < |cols| && (v.Val? ==> v.d == NullD || TypeOf(v.d) == cols[i].ty)
  }

  /** What AnalyzeUpdateStmt checks of a SET clause makes it typed. */
  lemma CheckedAssignIsTyped(col: CString, value: Expr, cols: seq<ColDesc>)
    requires ColIdx(cols, col) < |cols| && cols[ColIdx(cols, col)].ty != T_UNKNOWN && CheckType(value, [cols]).Checked?
    requires CheckType(value, [cols]).ty == cols[ColIdx(cols, col)].ty || CheckType(value, [cols]).ty == T_NULL
    ensures TypedAssign(Assign(col, CheckType(value, [cols]).expr), cols)
  {
    hide CheckType, EvalExpr, Conforms, NamesMatch;
    var a := Assign(col, CheckType(value, [cols]).expr);
    OwnNamesMatch(value, cols);
    forall row | Conforms(row, ColTypes(cols))
      ensures TypedOn(a, row, cols)
    {
      ValueTyped(value, [cols], row, cols);
      if EvalExpr(a.value, row, cols).Val? {
        TypeOfNull(EvalExpr(a.value, row, cols).d);
      }
    }
  }

  /** What UPDATE makes of one row. */
  function UpdatedRow(w: Where, assigns: seq<Assign>, cols: seq<ColDesc>, row: Row): Assigned {
    match TestWhere(w, row, cols)
    case Passes => AssignRow(assigns, row, cols)
    case Rejected => Assigned(row)
    case Stops => Fails
  }

  function RowsOf(bs: seq<Bytes>, cols: seq<ColDesc>): (r: seq<Row>)
    ensures |r| == |bs|
    ensures forall i :: 0 <= i < |r| ==> r[i] == StoredRow(bs[i], cols)
  {
    seq(|bs|, i requires 0 <= i < |bs| => StoredRow(bs[i], cols))
  }

  /** The same on the tuple: a copy of it with its columns set one after the other. */
  function SetAll(assigns: seq<Assign>, t: Tuple, row: Row, cols: seq<ColDesc>): (r: Tuple)
    requires |t.nulls| == |t.locs|
    ensures |r.nulls| == |r.locs| == |t.locs| && r.tid == t.tid
  {
    if assigns == [] then t else
      var last := assigns[|assigns| - 1];
      var before, i, v := SetAll(assigns[..|assigns| - 1], t, row, cols), ColIdx(cols, last.col),
        EvalExpr(last.value, row, cols);
      if v.Val? && i < |t.locs| then WithCol(before, i, v.d) else before
  }

  /** The new version of a stored tuple. */
  function VersionFrom(assigns: seq<Assign>, b: Bytes, cols: seq<ColDesc>): Tuple {
    SetAll(assigns, TupleOf(b), StoredRow(b, cols), cols)
  }

  /** The new versions of the matching tuples, in scan order. */
  function VersionsOf(w: Where, assigns: seq<Assign>, cols: seq<ColDesc>, bs: seq<Bytes>): seq<Tuple> {
    if bs == [] then [] else
      var last := bs[|bs| - 1];
      VersionsOf(w, assigns, cols, bs[..|bs| - 1])
      + if TestItem(w, cols, last) == Passes then [VersionFrom(assigns, last, cols)] else []
  }

  lemma VersionsStep(w: Where, assigns: seq<Assign>, cols: seq<ColDesc>, bs: seq<Bytes>, b: Bytes)
    ensures VersionsOf(w, assigns, cols, []) == []
    ensures VersionsOf(w, assigns, cols, bs + [b]) ==
            VersionsOf(w, assigns, cols, bs)
            + if TestItem(w, cols, b) == Passes then [VersionFrom(assigns, b, cols)] else []
  {
    hide TestItem, VersionFrom;
    assert (bs + [b])[..|bs + [b]| - 1] == bs;
  }

  /** The SET loop on one tuple: a copy keeps the tuple's id, every SetCol lays it out again. */
  method BuildVersion(item: Bytes, assigns: seq<Assign>, cols: seq<ColDesc>, ghost page: nat, ghost slot: nat)
    returns (ok: bool, t: Tuple)
    requires StoredAt(item, ColTypes(cols), page, slot) && AllTyped(assigns, cols)
    ensures ok <==> AssignRow(assigns, StoredRow(item, cols), cols).Assigned?
    ensures ok ==> t == VersionFrom(assigns, item, cols)
    ensures ok <==> Settable(assigns, StoredRow(item, cols), cols)
    ensures ok ==> SetTo(assigns, StoredRow(item, cols), NewRow(t, cols), cols)
    ensures ok ==> t.tid == TupleId(page, slot) && Shaped(t, ColTypes(cols))
                   && AssignRow(assigns, StoredRow(item, cols), cols) == Assigned(NewRow(t, cols))
  {
    hide StoredAt, TupleOf, RowOf, WellFormed, EvalExpr, WithCol, Shaped, Conforms, Fits, AllTyped, TypedAssign,
         Settable, SetTo, ColIdx, SetAll, AssignRow;
    var types := ColTypes(cols);
    StoredFacts(item, types, page, slot);
    t := TupleOf(item);
    var current := RowOf(t, types);
    AssignMeaning(assigns, current, cols);
    assert assigns[..|assigns|] == assigns && assigns[..0] == [];
    NoAssigns(t, current, cols);
    for i := 0 to |assigns|
      invariant Shaped(t, types) && t.tid == TupleId(page, slot)
      invariant t == SetAll(assigns[..i], TupleOf(item), current, cols)
      invariant AssignRow(assigns[..i], current, cols) == Assigned(NewRow(t, cols))
    {
      var a := assigns[i];
      AssignStep(assigns, i, TupleOf(item), current, cols);
      var idx := ColIdx(cols, a.col);
      var v := EvalExpr(a.value, current, cols);
      AssignTyped(assigns, i, current, cols);
      ShapedWidth(t, types);
      if !v.Val? || idx >= |cols| {
        PrefixFails(assigns, i + 1, current, cols);
        return false, t;
      }
      SetFits(t, idx, v.d, types);
      t := SetCol(t, idx, v.d);
    }
    return true, t;
  }

  lemma NoAssigns(t: Tuple, row: Row, cols: seq<ColDesc>)
    requires |t.nulls| == |t.locs|
    ensures SetAll([], t, row, cols) == t && AssignRow([], row, cols) == Assigned(row)
  {
  }

  lemma AssignStep(assigns: seq<Assign>, i: nat, t: Tuple, row: Row, cols: seq<ColDesc>)
    requires i < |assigns| && |t.nulls| == |t.locs|
    ensures var idx, v := ColIdx(cols, assigns[i].col), EvalExpr(assigns[i].value, row, cols);
            && SetAll(assigns[..i + 1], t, row, cols) ==
                 (if v.Val? && idx < |t.locs| then WithCol(SetAll(assigns[..i], t, row, cols), idx, v.d)
                  else SetAll(assigns[..i], t, row, cols))
            && AssignRow(assigns[..i + 1], row, cols) ==
                 match AssignRow(assigns[..i], row, cols)
                 case Fails => Fails
                 case Assigned(r) =>
                   if v.Val? && idx < |cols| && idx < |r| then Assigned(r[idx := v.d]) else Fails
  {
    hide EvalExpr, ColIdx, WithCol;
    assert assigns[..i + 1][..i] == assigns[..i];
  }

  lemma AssignTyped(assigns: seq<Assign>, i: nat, row: Row, cols: seq<ColDesc>)
    requires AllTyped(assigns, cols) && i < |assigns| && Conforms(row, ColTypes(cols))
    ensures TypedOn(assigns[i], row, cols)
  {
    hide EvalExpr, Conforms;
    assert TypedAssign(assigns[i], cols);
  }

  lemma {:induction false} PrefixFails(assigns: seq<Assign>, n: nat, row: Row, cols: seq<ColDesc>)
    requires n <= |assigns| && AssignRow(assigns[..n], row, cols) == Fails
    ensures AssignRow(assigns, row, cols) == Fails
    decreases |assigns| - n
  {
    hide EvalExpr;
    if n < |assigns| {
      assert assigns[..n + 1][..n] == assigns[..n];
      PrefixFails(assigns, n + 1, row, cols);
    } else {
      assert assigns[..n] == assigns;
    }
  }

  // ----- the effect of one update on the live rows

  lemma RowsConcat(a: seq<Bytes>, b: seq<Bytes>, cols: seq<ColDesc>)
    ensures RowsOf(a + b, cols) == RowsOf(a, cols) + RowsOf(b, cols)
  {
    hide StoredRow, RowsOf;
  }

  lemma RowsAround(a: seq<Bytes>, b: Bytes, c: seq<Bytes>, cols: seq<ColDesc>)
    ensures multiset(RowsOf(a + [b] + c, cols)) == multiset(RowsOf(a + c, cols)) + multiset{StoredRow(b, cols)}
  {
    hide StoredRow, RowsOf;
    RowsConcat(a + [b], c, cols);
    RowsConcat(a, [b], cols);
    RowsConcat(a, c, cols);
    assert RowsOf([b], cols) == [StoredRow(b, cols)];
  }

  lemma DeletedRows(pages: Pages, page: nat, slot: nat, b: Bytes, cols: seq<ColDesc>)
    requires Lookup(pages, page, slot) == Found.Tuple(b) && page < |pages| && slot < |pages[page].locs|
    requires ValidImage(pages[page])
    ensures multiset(RowsOf(LiveOf(pages), cols)) ==
            multiset(RowsOf(LiveOf(Deleted(pages, page, slot)), cols)) + multiset{StoredRow(b, cols)}
  {
    hide StoredRow, RowsOf, LiveOf, LiveFrom, LiveBefore, ValidImage, Slots, Dead, Deleted;
    var after := Deleted(pages, page, slot);
    DeletedLive(pages, page, slot);
    LiveSplit(pages, page, slot);
    LiveSplit(after, page, slot + 1);
    SlotStep(pages, page, slot);
    assert LiveOf(pages) == LiveBefore(pages, page, slot) + [b] + LiveFrom(pages, page, slot + 1);
    RowsAround(LiveBefore(pages, page, slot), b, LiveFrom(pages, page, slot + 1), cols);
  }

  lemma PutRows(pages: Pages, q: nat, t: Tuple, tid: TupleId, after: Pages, cols: seq<ColDesc>)
    requires HeapOk(pages, ColTypes(cols)) && PutTuple(pages, q, t, tid, after) && q < 0x1_0000
    requires Fits(t, ColTypes(cols))
    ensures multiset(RowsOf(LiveOf(after), cols)) == multiset(RowsOf(LiveOf(pages), cols)) + multiset{NewRow(t, cols)}
  {
    hide RowsOf, LiveOf, ValidImage, Slots, Dead, ItemOf, PutOn, Holds, StoredAt, TupleOf, RowOf, Fits;
    var b, k := ItemOf(t, tid), if q < |pages| then q + 1 else q;
    if q < |pages| {
      HeapPage(pages, ColTypes(cols), q);
    }
    SlotCountSmall(pages, ColTypes(cols), q);
    StoreTuple(t, ColTypes(cols), q, SlotCount(pages, q));
    FitsFacts(t, ColTypes(cols));
    PutLive(pages, q, b);
    RowsAround(LiveOf(pages[..k]), b, LiveOf(pages[k..]), cols);
  }

  lemma PutLookups(pages: Pages, types: seq<BType>, q: nat, t: Tuple, tid: TupleId, after: Pages)
    requires HeapOk(pages, types) && PutTuple(pages, q, t, tid, after) && q < 0x1_0000 && Fits(t, types)
    ensures Lookup(pages, tid.page, tid.loc) == Missing
    ensures forall p, s :: Lookup(after, p, s) == if p == tid.page && s == tid.loc then Found.Tuple(ItemOf(t, tid))
            else Lookup(pages, p, s)
    ensures RowOf(TupleOf(ItemOf(t, tid)), types) == RowOf(t, types)
  {
    hide ValidImage, Slots, Dead, ItemOf, PutOn, StoredAt, Lookup, HeapOk, TupleOf, RowOf, Fits;
    SlotCountSmall(pages, types, q);
    StoreTuple(t, types, q, SlotCount(pages, q));
    PutLookup(pages, q, ItemOf(t, tid), types);
  }

  lemma SlotCountSmall(pages: Pages, types: seq<BType>, q: nat)
    requires HeapOk(pages, types)
    ensures SlotCount(pages, q) < 0x1_0000
  {
    hide ValidImage, StoredAt, Slots, Dead;
    if q < |pages| {
      HeapPage(pages, types, q);
      Bounds(pages[q]);
    }
  }

  // ----- the two phases of UPDATE

  /** The rows of the collected versions. */
  function NewRows(ps: seq<Tuple>, cols: seq<ColDesc>): (r: seq<Row>)
    ensures |r| == |ps|
    ensures forall i :: 0 <= i < |r| ==> r[i] == NewRow(ps[i], cols)
  {
    seq(|ps|, i requires 0 <= i < |ps| => NewRow(ps[i], cols))
  }

  function NewRow(t: Tuple, cols: seq<ColDesc>): Row {
    if |t.nulls| == |t.locs| then RowOf(t, ColTypes(cols)) else []
  }

  function UpdatedItem(w: Where, assigns: seq<Assign>, cols: seq<ColDesc>, b: Bytes): Assigned {
    UpdatedRow(w, assigns, cols, StoredRow(b, cols))
  }

  /** The table's rows, each matching one replaced by its assigned image. */
  function UpdatedRows(w: Where, assigns: seq<Assign>, cols: seq<ColDesc>, bs: seq<Bytes>): (r: seq<Row>)
    ensures |r| == |bs|
  {
    if bs == [] then [] else
      var last := bs[|bs| - 1];
      UpdatedRows(w, assigns, cols, bs[..|bs| - 1])
      + [match UpdatedItem(w, assigns, cols, last) case Assigned(row) => row case Fails => StoredRow(last, cols)]
  }

  ghost predicate Updatable(w: Where, assigns: seq<Assign>, cols: seq<ColDesc>, bs: seq<Bytes>) {
    forall i :: 0 <= i < |bs| ==> UpdatedItem(w, assigns, cols, bs[i]).Assigned?
  }

  /** The pending versions still have their old tuples in place. */
  ghost predicate Waiting(pages: Pages, ps: seq<Tuple>, items: seq<Bytes>, from: nat) {
    |ps| == |items| && forall j :: from <= j < |ps| ==>
      Lookup(pages, ps[j].tid.page, ps[j].tid.loc) == Found.Tuple(items[j])
  }

  ghost predicate DistinctTids(ps: seq<Tuple>) {
    forall i, j :: 0 <= i < j < |ps| ==> ps[i].tid != ps[j].tid
  }

  ghost predicate Behind(tid: TupleId, p: nat, s: nat) {
    tid.page < p || (tid.page == p && tid.loc < s)
  }

  ghost predicate AllBehind(ps: seq<Tuple>, p: nat, s: nat) {
    forall i :: 0 <= i < |ps| ==> Behind(ps[i].tid, p, s)
  }

  /** Each pending version is what UPDATE makes of its matching old tuple. */
  ghost predicate Versions(w: Where, assigns: seq<Assign>, cols: seq<ColDesc>, ps: seq<Tuple>, items: seq<Bytes>) {
    |ps| == |items| && forall j :: 0 <= j < |ps| ==> VersionOf(w, assigns, cols, ps[j], items[j])
  }

  ghost predicate VersionOf(w: Where, assigns: seq<Assign>, cols: seq<ColDesc>, p: Tuple, b: Bytes) {
    && TestItem(w, cols, b) == Passes && UpdatedItem(w, assigns, cols, b) == Assigned(NewRow(p, cols))
    && Shaped(p, ColTypes(cols))
  }

  /** rest holds the rows UPDATE leaves alone: with the old rows of the pending versions it makes up the
      table as it was, with their new rows the table as it should be. */
  ghost predicate Ledger(w: Where, assigns: seq<Assign>, cols: seq<ColDesc>, bs: seq<Bytes>, ps: seq<Tuple>,
                         items: seq<Bytes>, rest: multiset<Row>) {
    && multiset(RowsOf(bs, cols)) == rest + multiset(RowsOf(items, cols))
    && multiset(UpdatedRows(w, assigns, cols, bs)) == rest + multiset(NewRows(ps, cols))
  }

  lemma UpdatedRowsStep(w: Where, assigns: seq<Assign>, cols: seq<ColDesc>, bs: seq<Bytes>, b: Bytes, row: Row)
    requires UpdatedItem(w, assigns, cols, b) == Assigned(row)
    ensures UpdatedRows(w, assigns, cols, bs + [b]) == UpdatedRows(w, assigns, cols, bs) + [row]
    ensures RowsOf(bs + [b], cols) == RowsOf(bs, cols) + [StoredRow(b, cols)]
  {
    hide StoredRow, RowsOf, UpdatedItem;
    RowsConcat(bs, [b], cols);
    assert RowsOf([b], cols) == [StoredRow(b, cols)];
    assert (bs + [b])[..|bs + [b]| - 1] == bs;
  }

  lemma LedgerRest(w: Where, assigns: seq<Assign>, cols: seq<ColDesc>, bs: seq<Bytes>, ps: seq<Tuple>,
                   items: seq<Bytes>, rest: multiset<Row>, b: Bytes)
    requires Ledger(w, assigns, cols, bs, ps, items, rest)
    requires UpdatedItem(w, assigns, cols, b) == Assigned(StoredRow(b, cols))
    ensures Ledger(w, assigns, cols, bs + [b], ps, items, rest + multiset{StoredRow(b, cols)})
  {
    hide StoredRow, RowsOf, UpdatedItem, UpdatedRows;
    UpdatedRowsStep(w, assigns, cols, bs, b, StoredRow(b, cols));
  }

  lemma LedgerVersion(w: Where, assigns: seq<Assign>, cols: seq<ColDesc>, bs: seq<Bytes>, ps: seq<Tuple>,
                      items: seq<Bytes>, rest: multiset<Row>, b: Bytes, p: Tuple)
    requires Ledger(w, assigns, cols, bs, ps, items, rest)
    requires UpdatedItem(w, assigns, cols, b) == Assigned(NewRow(p, cols))
    ensures Ledger(w, assigns, cols, bs + [b], ps + [p], items + [b], rest)
  {
    hide StoredRow, RowsOf, UpdatedItem, UpdatedRows, NewRows;
    UpdatedRowsStep(w, assigns, cols, bs, b, NewRow(p, cols));
    UpdatedRowsStep(w, assigns, cols, items, b, NewRow(p, cols));
    assert NewRows(ps + [p], cols) == NewRows(ps, cols) + [NewRow(p, cols)];
  }

  /** The scan of UpdateScan: collect the new versions without touching the table. */
  method CollectVersions(table: Table, w: Where, assigns: seq<Assign>, cols: seq<ColDesc>)
    returns (ok: bool, ps: seq<Tuple>, ghost items: seq<Bytes>, ghost rest: multiset<Row>)
    requires table.Valid() && ColTypes(cols) == table.types && AllTyped(assigns, cols)
    ensures ok <==> Updatable(w, assigns, cols, LiveOf(table.pages))
    ensures ok ==> Waiting(table.pages, ps, items, 0) && DistinctTids(ps) && Versions(w, assigns, cols, ps, items)
    ensures ok ==> Ledger(w, assigns, cols, LiveOf(table.pages), ps, items, rest)
    ensures ok ==> ps == VersionsOf(w, assigns, cols, LiveOf(table.pages))
  {
    hide TestItem, LiveOf, LiveFrom, LiveBefore, HeapOk, Lookup, TupleOf, Ledger, UpdatedItem, VersionOf, AssignRow,
         StoredRow, AllTyped, VersionsOf, VersionFrom;
    var cursor := new Cursor(table);
    ghost var taken: seq<Bytes> := [];
    ps, items, rest := [], [], multiset{};
    LedgerStart(w, assigns, cols);
    VersionsStep(w, assigns, cols, [], []);
    PageStart(table.pages, 0);
    assert table.pages[0..] == table.pages;
    while true
      invariant table.Valid() && cursor.pageIndex <= |table.pages|
      invariant LiveOf(table.pages) == taken + LiveFrom(table.pages, cursor.pageIndex, cursor.tupleIndex)
      invariant Updatable(w, assigns, cols, taken)
      invariant Waiting(table.pages, ps, items, 0) && DistinctTids(ps) && Versions(w, assigns, cols, ps, items)
      invariant AllBehind(ps, cursor.pageIndex, cursor.tupleIndex)
      invariant Ledger(w, assigns, cols, taken, ps, items, rest)
      invariant ps == VersionsOf(w, assigns, cols, taken)
      decreases |LiveOf(table.pages)| - |taken|
    {
      var found, item := cursor.SeekNext();
      if !found {
        assert taken == LiveOf(table.pages);
        return true, ps, items, rest;
      }
      assert LiveOf(table.pages)[|taken|] == item;
      var stop, matches, t := VersionFor(table, w, assigns, cols, item, cursor.pageIndex, cursor.tupleIndex - 1);
      if stop {
        return false, ps, items, rest;
      }
      VersionsStep(w, assigns, cols, taken, item);
      if matches {
        LedgerVersion(w, assigns, cols, taken, ps, items, rest, item, t);
        assert forall j :: 0 <= j < |ps| ==> ps[j].tid != t.tid;
        ps, items := ps + [t], items + [item];
      } else {
        LedgerRest(w, assigns, cols, taken, ps, items, rest, item);
        rest := rest + multiset{StoredRow(item, cols)};
      }
      taken := taken + [item];
    }
  }

  lemma LedgerStart(w: Where, assigns: seq<Assign>, cols: seq<ColDesc>)
    ensures Ledger(w, assigns, cols, [], [], [], multiset{})
  {
    hide RowsOf, NewRows;
  }

  /** What the scan does with one tuple. */
  method VersionFor(table: Table, w: Where, assigns: seq<Assign>, cols: seq<ColDesc>, item: Bytes, ghost page: nat,
                    ghost slot: nat)
    returns (stop: bool, matches: bool, t: Tuple)
    requires table.Valid() && ColTypes(cols) == table.types && AllTyped(assigns, cols)
    requires Lookup(table.pages, page, slot) == Found.Tuple(item)
    ensures stop <==> UpdatedItem(w, assigns, cols, item).Fails?
    ensures !stop && matches ==> t.tid == TupleId(page, slot) && VersionOf(w, assigns, cols, t, item)
    ensures !stop && matches ==> UpdatedItem(w, assigns, cols, item) == Assigned(NewRow(t, cols))
    ensures !stop ==> (matches <==> TestItem(w, cols, item) == Passes)
    ensures !stop && matches ==> t == VersionFrom(assigns, item, cols)
    ensures !stop && !matches ==> UpdatedItem(w, assigns, cols, item) == Assigned(StoredRow(item, cols))
  {
    hide TestWhere, HeapOk, Lookup, TupleOf, AssignRow, StoredAt, RowOf, Shaped, AllTyped, NewRow, VersionFrom;
    LookupStored(table.pages, table.types, page, slot, item);
    t := EmptyTuple(0);
    match TestWhere(w, StoredRow(item, cols), cols) {
      case Stops => return true, false, t;
      case Rejected => return false, false, t;
      case Passes =>
    }
    var ok;
    ok, t := BuildVersion(item, assigns, cols, page, slot);
    return !ok, true, t;
  }

  /** Every tuple live before, other than those in the list, is live at the same address with the same
      bytes. */
  ghost predicate OthersKept(before: Pages, after: Pages, ps: seq<Tuple>) {
    forall p, s :: Lookup(before, p, s).Tuple? && !Listed(ps, p, s) ==> Lookup(after, p, s) == Lookup(before, p, s)
  }

  ghost predicate Listed(ps: seq<Tuple>, page: nat, slot: nat) {
    exists j :: 0 <= j < |ps| && ps[j].tid == TupleId(page, slot)
  }

  /** CursorUpdateTupleById on one pending version. If the new version cannot be written, the old one is
      gone all the same. */
  method WriteVersion(table: Table, p: Tuple, cols: seq<ColDesc>, ghost item: Bytes) returns (r: WriteResult)
    requires HeapOk(table.pages, table.types) && ColTypes(cols) == table.types && Shaped(p, table.types)
    requires Lookup(table.pages, p.tid.page, p.tid.loc) == Found.Tuple(item)
    modifies table
    ensures r == UpdateOutcome(old(table.pages), p) && table.pages == UpdatePages(old(table.pages), p)
    ensures HeapOk(table.pages, table.types) && OthersKept(old(table.pages), table.pages, [p])
    ensures r == Written ==>
              multiset(RowsOf(LiveOf(table.pages), cols)) + multiset{StoredRow(item, cols)}
              == multiset(RowsOf(LiveOf(old(table.pages)), cols)) + multiset{NewRow(p, cols)}
    ensures r != Written && r != OutOfPages ==>
              multiset(RowsOf(LiveOf(table.pages), cols)) + multiset{StoredRow(item, cols)} ==
                multiset(RowsOf(LiveOf(old(table.pages)), cols))
    ensures r == OutOfPages ==> table.pages == old(table.pages)
  {
    hide RowsOf, LiveOf, StoredAt, ValidImage, PlaceOutcome, PutTuple, Slots, Dead, HeapOk, Lookup, WellFormed,
         ColsFit, Deleted, StoredRow, TupleOf, RowOf, ItemOf, WritePages, FirstStop;
    ghost var before := table.pages;
    LookupStored(before, table.types, p.tid.page, p.tid.loc, item);
    DeletedSize(before, p.tid.page, p.tid.loc);
    if |table.pages| >= MAX_PAGES {
      return OutOfPages;
    }
    DeletedRows(before, p.tid.page, p.tid.loc, item, cols);
    DeletedLookup(before, p.tid.page, p.tid.loc, table.types);
    assert [p][0] == p;
    ghost var without := Deleted(before, p.tid.page, p.tid.loc);
    WriteFails(without, p.tid.page, p);
    if p.length >= PAGE_SIZE {
      table.Delete(p.tid);
      return TooLong;
    }
    var placed, q := table.Update(p.tid, p);
    if placed.Placed? {
      PutLookups(without, table.types, q, p, placed.tid, table.pages);
      PutRows(without, q, p, placed.tid, table.pages, cols);
      WritePagesIs(without, p.tid.page, p, placed.tid, table.pages);
    }
    return WriteOf(placed);
  }

  lemma StoredRowIs(b: Bytes, cols: seq<ColDesc>)
    ensures StoredRow(b, cols) == RowOf(TupleOf(b), ColTypes(cols))
  {
    hide TupleOf, RowOf;
  }

  lemma DeletedSize(pages: Pages, page: nat, slot: nat)
    requires page < |pages| && slot < |pages[page].locs|
    ensures |Deleted(pages, page, slot)| == |pages|
  {
  }

  lemma OthersKeptStep(a: Pages, b: Pages, c: Pages, ps: seq<Tuple>, p: Tuple)
    requires OthersKept(a, b, ps) && OthersKept(b, c, [p])
    ensures OthersKept(a, c, ps + [p])
  {
    hide Lookup;
    forall page, slot | Lookup(a, page, slot).Tuple? && !Listed(ps + [p], page, slot)
      ensures Lookup(c, page, slot) == Lookup(a, page, slot)
    {
      assert (ps + [p])[|ps|] == p;
      assert forall j :: 0 <= j < |ps| ==> (ps + [p])[j] == ps[j];
      assert !Listed(ps, page, slot) && !Listed([p], page, slot);
    }
  }

  lemma WaitingStep(before: Pages, after: Pages, ps: seq<Tuple>, items: seq<Bytes>, i: nat)
    requires Waiting(before, ps, items, i) && i < |ps| && DistinctTids(ps) && OthersKept(before, after, [ps[i]])
    ensures Waiting(after, ps, items, i + 1)
  {
    hide Lookup;
    forall j | i + 1 <= j < |ps|
      ensures Lookup(after, ps[j].tid.page, ps[j].tid.loc) == Found.Tuple(items[j])
    {
      assert ps[i].tid != ps[j].tid;
      assert !Listed([ps[i]], ps[j].tid.page, ps[j].tid.loc);
    }
  }

  lemma WrittenStep(ps: seq<Tuple>, items: seq<Bytes>, i: nat, cols: seq<ColDesc>)
    requires i < |ps| == |items|
    ensures multiset(NewRows(ps[..i + 1], cols)) == multiset(NewRows(ps[..i], cols)) + multiset{NewRow(ps[i], cols)}
    ensures multiset(RowsOf(items[i..], cols)) ==
            multiset{StoredRow(items[i], cols)} + multiset(RowsOf(items[i + 1..], cols))
  {
    hide StoredRow, RowsOf, NewRows;
    assert NewRows(ps[..i + 1], cols) == NewRows(ps[..i], cols) + [NewRow(ps[i], cols)];
    assert RowsOf(items[i..], cols) == [StoredRow(items[i], cols)] + RowsOf(items[i + 1..], cols);
  }

  /** The second loop of UpdateScan: write the collected versions one after the other. */
  method WriteVersions(table: Table, ps: seq<Tuple>, cols: seq<ColDesc>, ghost items: seq<Bytes>,
                       ghost rest: multiset<Row>) returns (r: WriteResult)
    requires HeapOk(table.pages, table.types) && ColTypes(cols) == table.types
    requires Waiting(table.pages, ps, items, 0) && DistinctTids(ps)
    requires forall j :: 0 <= j < |ps| ==> Shaped(ps[j], table.types)
    requires multiset(RowsOf(LiveOf(table.pages), cols)) == rest + multiset(RowsOf(items, cols))
    modifies table
    ensures Writing(table.pages, r) == UpdateAll(old(table.pages), ps)
    ensures HeapOk(table.pages, table.types)
    ensures r == Written ==> multiset(RowsOf(LiveOf(table.pages), cols)) == rest + multiset(NewRows(ps, cols))
    ensures OthersKept(old(table.pages), table.pages, ps)
  {
    hide RowsOf, LiveOf, HeapOk, Lookup, Shaped, StoredRow, NewRows, OthersKept, Waiting, NewRow, UpdateAll,
         UpdatePages,
         UpdateOutcome;
    assert ps[..0] == [] && items[0..] == items && ps[..|ps|] == ps && items[|items|..] == [];
    NoneKept(table.pages);
    assert NewRows([], cols) == [] && RowsOf([], cols) == [];
    WaitingSize(table.pages, ps, items, 0);
    UpdateStep(table.pages, [], EmptyTuple(0));
    for i := 0 to |ps|
      invariant HeapOk(table.pages, table.types) && Waiting(table.pages, ps, items, i)
      invariant OthersKept(old(table.pages), table.pages, ps[..i])
      invariant Writing(table.pages, Written) == UpdateAll(old(table.pages), ps[..i])
      invariant multiset(RowsOf(LiveOf(table.pages), cols)) ==
                rest + multiset(NewRows(ps[..i], cols)) + multiset(RowsOf(items[i..], cols))
    {
      ghost var before := table.pages;
      WaitingAt(before, ps, items, i);
      r := WriteVersion(table, ps[i], cols, items[i]);
      OthersKeptStep(old(table.pages), before, table.pages, ps[..i], ps[i]);
      assert ps[..i] + [ps[i]] == ps[..i + 1];
      UpdateStep(old(table.pages), ps[..i], ps[i]);
      if r != Written {
        UpdateStuck(old(table.pages), ps, i + 1);
        OthersKeptMore(old(table.pages), table.pages, ps, i + 1);
        return;
      }
      WaitingStep(before, table.pages, ps, items, i);
      WrittenStep(ps, items, i, cols);
      Exchanged(multiset(RowsOf(LiveOf(table.pages), cols)), multiset(RowsOf(LiveOf(before), cols)),
                StoredRow(items[i], cols), NewRow(ps[i], cols),
                rest + multiset(NewRows(ps[..i], cols)), multiset(RowsOf(items[i + 1..], cols)));
    }
    return Written;
  }

  lemma Exchanged(after: multiset<Row>, before: multiset<Row>, was: Row, now: Row, done: multiset<Row>,
                  todo: multiset<Row>)
    requires after + multiset{was} == before + multiset{now}
    requires before == done + (multiset{was} + todo)
    ensures after == done + multiset{now} + todo
  {
    assert after + multiset{was} == (done + multiset{now} + todo) + multiset{was};
    assert after == (after + multiset{was}) - multiset{was};
  }

  lemma AllKeptStep(a: Pages, b: Pages, c: Pages)
    requires OthersKept(a, b, []) && OthersKept(b, c, [])
    ensures OthersKept(a, c, [])
  {
    hide Lookup;
  }

  lemma OthersKeptMore(before: Pages, after: Pages, ps: seq<Tuple>, n: nat)
    requires n <= |ps| && OthersKept(before, after, ps[..n])
    ensures OthersKept(before, after, ps)
  {
    hide Lookup;
    assert forall j :: 0 <= j < n ==> ps[..n][j] == ps[j];
  }

  lemma NoneKept(pages: Pages)
    ensures OthersKept(pages, pages, [])
  {
  }

  lemma WaitingSize(pages: Pages, ps: seq<Tuple>, items: seq<Bytes>, i: nat)
    requires Waiting(pages, ps, items, i)
    ensures |ps| == |items|
  {
  }

  lemma WaitingAt(pages: Pages, ps: seq<Tuple>, items: seq<Bytes>, i: nat)
    requires Waiting(pages, ps, items, i) && i < |ps|
    ensures |ps| == |items| && Lookup(pages, ps[i].tid.page, ps[i].tid.loc) == Found.Tuple(items[i])
  {
  }

  /** UPDATE can decide and, where the where clause is true, set every row. */
  ghost predicate CanUpdate(w: Where, assigns: seq<Assign>, cols: seq<ColDesc>, rows: seq<Row>) {
    forall row :: row in rows ==>
      Violates(w, row, cols) || (Satisfies(w, row, cols) && Settable(assigns, row, cols))
  }

  /** Row by row: set where the where clause is true, as it was elsewhere. */
  ghost predicate UpdatedTo(w: Where, assigns: seq<Assign>, cols: seq<ColDesc>, olds: seq<Row>, news: seq<Row>) {
    |news| == |olds| && forall i :: 0 <= i < |olds| ==> RowUpdated(w, assigns, cols, olds[i], news[i])
  }

  ghost predicate RowUpdated(w: Where, assigns: seq<Assign>, cols: seq<ColDesc>, was: Row, now: Row) {
    if Satisfies(w, was, cols) then SetTo(assigns, was, now, cols) else now == was
  }

  lemma UpdatedRowMeaning(w: Where, assigns: seq<Assign>, cols: seq<ColDesc>, row: Row)
    requires |row| == |cols|
    ensures UpdatedRow(w, assigns, cols, row).Assigned?
            <==> Violates(w, row, cols) || (Satisfies(w, row, cols) && Settable(assigns, row, cols))
    ensures UpdatedRow(w, assigns, cols, row).Assigned? ==>
              RowUpdated(w, assigns, cols, row, UpdatedRow(w, assigns, cols, row).row)
  {
    hide AssignRow, SetTo, Settable, TestWhere, Satisfies, Violates;
    TestMeaning(w, row, cols);
    AssignMeaning(assigns, row, cols);
  }

  ghost predicate RowsWide(rows: seq<Row>, n: nat) {
    forall i :: 0 <= i < |rows| ==> |rows[i]| == n
  }

  /** What UPDATE does to a table's rows. */
  lemma {:induction false} UpdateMeaning(w: Where, assigns: seq<Assign>, cols: seq<ColDesc>, bs: seq<Bytes>)
    requires RowsWide(RowsOf(bs, cols), |cols|)
    ensures Updatable(w, assigns, cols, bs) <==> CanUpdate(w, assigns, cols, RowsOf(bs, cols))
    ensures Updatable(w, assigns, cols, bs) ==>
              UpdatedTo(w, assigns, cols, RowsOf(bs, cols), UpdatedRows(w, assigns, cols, bs))
  {
    hide UpdatedRow, RowUpdated, Settable, Satisfies, Violates, StoredRow;
    var rows := RowsOf(bs, cols);
    forall i | 0 <= i < |bs|
      ensures rows[i] in rows
      ensures UpdatedItem(w, assigns, cols, bs[i]).Assigned?
              <==> Violates(w, rows[i], cols) || (Satisfies(w, rows[i], cols) && Settable(assigns, rows[i], cols))
    {
      UpdatedRowMeaning(w, assigns, cols, rows[i]);
    }
    if Updatable(w, assigns, cols, bs) {
      forall i | 0 <= i < |bs|
        ensures RowUpdated(w, assigns, cols, rows[i], UpdatedRows(w, assigns, cols, bs)[i])
      {
        UpdatedRowMeaning(w, assigns, cols, rows[i]);
        UpdatedAt(w, assigns, cols, bs, i);
      }
    }
  }

  lemma {:induction false} UpdatedAt(w: Where, assigns: seq<Assign>, cols: seq<ColDesc>, bs: seq<Bytes>, i: nat)
    requires i < |bs| && UpdatedItem(w, assigns, cols, bs[i]).Assigned?
    ensures UpdatedRows(w, assigns, cols, bs)[i] == UpdatedItem(w, assigns, cols, bs[i]).row
  {
    hide UpdatedItem, StoredRow;
    if i < |bs| - 1 {
      UpdatedAt(w, assigns, cols, bs[..|bs| - 1], i);
    }
  }

  lemma LiveWide(pages: Pages, cols: seq<ColDesc>)
    requires HeapOk(pages, ColTypes(cols))
    ensures RowsWide(RowsOf(LiveOf(pages), cols), |cols|)
  {
    hide HeapOk, LiveOf, StoredAt, TupleOf, RowOf, Lookup;
    var bs := LiveOf(pages);
    forall i | 0 <= i < |bs|
      ensures |StoredRow(bs[i], cols)| == |cols|
    {
      LiveStored(pages, ColTypes(cols), bs[i]);
      var p: nat, s: nat :| Lookup(pages, p, s) == Found.Tuple(bs[i]) && StoredAt(bs[i], ColTypes(cols), p, s);
      StoredFacts(bs[i], ColTypes(cols), p, s);
    }
  }

  datatype UpdateResult = Updated | Stopped | NotWritten(why: WriteResult)

  ghost predicate AllTyped(assigns: seq<Assign>, cols: seq<ColDesc>) {
    forall i :: 0 <= i < |assigns| ==> TypedAssign(assigns[i], cols)
  }

  /** UpdateScan. It stops during the scan, before changing anything, exactly if the where clause or a SET
      expression fails on some live row. Otherwise it comes to what writing the new versions of the matching
      tuples, one after the other, comes to, and leaves those pages. If it finishes, the table's rows are the
      old rows with each matching one replaced once by its image, wherever the new versions went. Finished or
      not, every tuple that did not match is still at its address, byte for byte. */
  method UpdateScan(table: Table, w: Where, assigns: seq<Assign>, cols: seq<ColDesc>) returns (r: UpdateResult)
    requires table.Valid() && ColTypes(cols) == table.types && AllTyped(assigns, cols)
    modifies table
    ensures HeapOk(table.pages, table.types)
    ensures r == Stopped <==> !Updatable(w, assigns, cols, LiveOf(old(table.pages)))
    ensures r == Stopped <==> !CanUpdate(w, assigns, cols, RowsOf(LiveOf(old(table.pages)), cols))
    ensures r == Stopped ==> table.pages == old(table.pages)
    ensures r != Stopped ==>
              var writing := UpdateAll(old(table.pages), VersionsOf(w, assigns, cols, LiveOf(old(table.pages))));
              && table.pages == writing.pages
              && r == if writing.result == Written then Updated else NotWritten(writing.result)
    ensures r == Updated ==>
              multiset(RowsOf(LiveOf(table.pages), cols)) ==
                multiset(UpdatedRows(w, assigns, cols, LiveOf(old(table.pages))))
    ensures r != Stopped ==>
              UpdatedTo(w, assigns, cols, RowsOf(LiveOf(old(table.pages)), cols),
                        UpdatedRows(w, assigns, cols, LiveOf(old(table.pages))))
    ensures forall p, s, b :: Lookup(old(table.pages), p, s) == Found.Tuple(b) ==>
                                Satisfies(w, StoredRow(b, cols), cols) || Lookup(table.pages, p, s) == Found.Tuple(b)
  {
    hide Updatable, CanUpdate, UpdatedTo, Satisfies, RowsWide, RowsOf, LiveOf, HeapOk, Lookup, StoredRow, NewRows,
         Waiting, TestItem, UpdatedItem, UpdatedRows, AllTyped,
         Listed, DistinctTids, Shaped, NewRow, UpdateAll, VersionsOf;
    LiveWide(table.pages, cols);
    UpdateMeaning(w, assigns, cols, LiveOf(table.pages));
    var ok, ps, items, rest := CollectVersions(table, w, assigns, cols);
    if !ok {
      return Stopped;
    }
    assert forall j :: 0 <= j < |ps| ==> VersionOf(w, assigns, cols, ps[j], items[j]);
    ghost var before := table.pages;
    var written := WriteVersions(table, ps, cols, items, rest);
    forall p, s, b | Lookup(before, p, s) == Found.Tuple(b) && !Satisfies(w, StoredRow(b, cols), cols)
      ensures Lookup(table.pages, p, s) == Found.Tuple(b)
    {
      ItemMeaning(w, cols, b);
      UnmatchedNotListed(before, w, assigns, cols, ps, items, p, s, b);
    }
    return if written == Written then Updated else NotWritten(written);
  }

  lemma ItemMeaning(w: Where, cols: seq<ColDesc>, b: Bytes)
    ensures TestItem(w, cols, b) == Passes <==> Satisfies(w, StoredRow(b, cols), cols)
  {
    hide TestWhere, Satisfies;
    TestMeaning(w, StoredRow(b, cols), cols);
  }

  lemma UnmatchedNotListed(pages: Pages, w: Where, assigns: seq<Assign>, cols: seq<ColDesc>, ps: seq<Tuple>,
                           items: seq<Bytes>, p: nat, s: nat, b: Bytes)
    requires Waiting(pages, ps, items, 0) && Versions(w, assigns, cols, ps, items)
    requires Lookup(pages, p, s) == Found.Tuple(b) && TestItem(w, cols, b) != Passes
    ensures !Listed(ps, p, s)
  {
    hide Lookup, TestItem, UpdatedItem, Shaped, StoredRow;
    forall j | 0 <= j < |ps|
      ensures ps[j].tid != TupleId(p, s)
    {
      assert VersionOf(w, assigns, cols, ps[j], items[j]);
    }
  }

  // ----- INSERT

  /** The values of one VALUES list, evaluated with no row at hand. */
  function ValuesRow(values: seq<Expr>): Assigned {
    if values == [] then Assigned([]) else
      match ValuesRow(values[..|values| - 1])
      case Fails => Fails
      case Assigned(row) =>
        match EvalExpr(values[|values| - 1], [], [])
        case Val(d) => Assigned(row + [d])
        case _ => Fails
  }

  /** The row one VALUES list leaves: each value under the name of its column. */
  function InsertedRow(values: seq<Expr>, cols: seq<ColDesc>): Row {
    match ValuesRow(values)
    case Assigned(row) => if |row| == |cols| then NamedRow(cols, row, |row|) else row
    case Fails => []
  }

  function InsertedRows(lists: seq<seq<Expr>>, cols: seq<ColDesc>): (r: seq<Row>)
    ensures |r| == |lists|
    ensures forall i :: 0 <= i < |r| ==> r[i] == InsertedRow(lists[i], cols)
  {
    seq(|lists|, i requires 0 <= i < |lists| => InsertedRow(lists[i], cols))
  }

  /** The list has one value for each column and all of them can be evaluated. */
  ghost predicate Evaluates(values: seq<Expr>, cols: seq<ColDesc>) {
    |values| == |cols| && forall k :: 0 <= k < |values| ==> EvalExpr(values[k], [], []).Val?
  }

  lemma {:induction false} EvaluatesIs(values: seq<Expr>, cols: seq<ColDesc>)
    ensures ValuesRow(values).Assigned? <==> forall k :: 0 <= k < |values| ==> EvalExpr(values[k], [], []).Val?
    ensures Evaluates(values, cols) <==> ValuesRow(values).Assigned? && |values| == |cols|
  {
    hide EvalExpr;
    if values != [] {
      var init := values[..|values| - 1];
      EvaluatesIs(init, cols);
      assert forall k :: 0 <= k < |init| ==> init[k] == values[k];
    }
  }

  /** The last value given under a name is in the first column of that name, every other column of the name is
      null. */
  ghost predicate InsertedFrom(values: seq<Expr>, cols: seq<ColDesc>, row: Row) {
    && |row| == |cols| == |values|
    && (forall i, k :: FirstNamed(cols, i) && LastNamed(cols, k) && cols[i].name == cols[k].name ==>
          EvalExpr(values[k], [], []) == Val(row[i]))
    && (forall i :: 0 <= i < |cols| && !FirstNamed(cols, i) ==> row[i] == NullD)
  }

  /** No column before has its name. */
  predicate FirstNamed(cols: seq<ColDesc>, i: int) {
    0 <= i < |cols| && forall j :: 0 <= j < i ==> cols[j].name != cols[i].name
  }

  /** No column behind has its name. */
  predicate LastNamed(cols: seq<ColDesc>, k: int) {
    0 <= k < |cols| && forall j :: k < j < |cols| ==> cols[j].name != cols[k].name
  }

  /** What INSERT makes of one VALUES list. */
  lemma InsertedMeaning(values: seq<Expr>, cols: seq<ColDesc>)
    requires Evaluates(values, cols)
    ensures InsertedFrom(values, cols, InsertedRow(values, cols))
  {
    hide EvalExpr, ValuesRow, NamedRow, FirstOf, LastOf;
    EvaluatesIs(values, cols);
    ValuesWidth(values);
    var given, row := ValuesRow(values).row, InsertedRow(values, cols);
    forall i: nat | i < |cols|
      ensures FirstNamed(cols, i) <==> FirstOf(cols, i) == i
      ensures FirstOf(cols, i) != i ==> row[i] == NullD
      ensures FirstOf(cols, i) == i ==> row[i] == given[LastOf(cols, |cols|, i)]
      ensures forall k :: LastNamed(cols, k) && cols[i].name == cols[k].name ==> k == LastOf(cols, |cols|, i)
    {
      NamedAt(cols, given, |cols|, i);
      LastIs(cols, i);
    }
  }

  lemma LastIs(cols: seq<ColDesc>, i: nat)
    requires i < |cols|
    ensures forall k :: LastNamed(cols, k) && cols[i].name == cols[k].name ==> k == LastOf(cols, |cols|, i)
  {
    var l := LastOf(cols, |cols|, i);
    assert cols[l].name == cols[FirstOf(cols, l)].name == cols[i].name;
    forall k | LastNamed(cols, k) && cols[i].name == cols[k].name
      ensures k == l
    {
      SameFirstOf(cols, i, k);
    }
  }

  lemma SameFirstOf(cols: seq<ColDesc>, i: nat, k: nat)
    requires i < |cols| && k < |cols| && cols[i].name == cols[k].name
    ensures FirstOf(cols, i) == FirstOf(cols, k)
  {
  }

  ghost predicate AllInserted(lists: seq<seq<Expr>>, cols: seq<ColDesc>, rows: seq<Row>) {
    |rows| == |lists| && forall i :: 0 <= i < |lists| ==> InsertedFrom(lists[i], cols, rows[i])
  }

  lemma AllInsertedStep(lists: seq<seq<Expr>>, cols: seq<ColDesc>, i: nat)
    requires i < |lists| && Evaluates(lists[i], cols) && AllInserted(lists[..i], cols, InsertedRows(lists[..i], cols))
    ensures AllInserted(lists[..i + 1], cols, InsertedRows(lists[..i + 1], cols))
  {
    hide InsertedFrom, InsertedRow, Evaluates;
    InsertedStep(lists, cols, i);
    InsertedMeaning(lists[i], cols);
    assert forall j :: 0 <= j < i ==> lists[..i + 1][j] == lists[..i][j];
  }

  lemma {:induction false} ValuesWidth(values: seq<Expr>)
    requires ValuesRow(values).Assigned?
    ensures |ValuesRow(values).row| == |values|
    ensures forall i :: 0 <= i < |values| ==> EvalExpr(values[i], [], []) == Val(ValuesRow(values).row[i])
  {
    hide EvalExpr;
    if values != [] {
      var init := values[..|values| - 1];
      ValuesWidth(init);
      assert forall i :: 0 <= i < |init| ==> values[i] == init[i];
    }
  }

  /** The values AnalyzeInsertStmt accepts for the columns, with their operators bound. */
  ghost predicate CheckedList(values: seq<Expr>, cols: seq<ColDesc>) {
    |values| == |cols| && forall i :: 0 <= i < |values| ==> CheckedValue(values[i], cols, cols[i].ty)
  }

  ghost predicate CheckedValue(bound: Expr, cols: seq<ColDesc>, ty: BType) {
    exists e :: Accepted(e, bound, cols, ty)
  }

  predicate Accepted(e: Expr, bound: Expr, cols: seq<ColDesc>, ty: BType) {
    var c := CheckType(e, [cols]);
    c.Checked? && c.ty != T_UNKNOWN && (c.ty == ty || c.ty == T_NULL) && c.expr == bound
  }

  /** What an accepted list evaluates to, if it can be evaluated, is null or of the type of its column, value by
      value, so that it also lands in its column if columns that share a name share a type. */
  lemma CheckedListLands(values: seq<Expr>, cols: seq<ColDesc>)
    requires CheckedList(values, cols) && ValuesRow(values).Assigned?
    ensures Conforms(ValuesRow(values).row, ColTypes(cols))
    ensures NamesTyped(cols) ==> Lands(cols, ValuesRow(values).row)
  {
    hide CheckType, EvalExpr, NamesMatch, NamesTyped, Lands, ValuesRow;
    ValuesWidth(values);
    var row := ValuesRow(values).row;
    forall i | 0 <= i < |row|
      ensures row[i] == NullD || TypeOf(row[i]) == ColTypes(cols)[i]
    {
      assert CheckedValue(values[i], cols, cols[i].ty);
      var e :| Accepted(e, values[i], cols, cols[i].ty);
      OwnNamesMatch(e, cols);
      ValueTyped(e, [cols], [], []);
      TypeOfNull(row[i]);
    }
    if NamesTyped(cols) {
      ConformingLands(cols, row);
    }
  }

  /** 1 + true is such a value for an int column, and cannot be evaluated. */
  lemma CheckedListStops()
    ensures exists values, cols :: CheckedList(values, cols) && !Evaluates(values, cols)
  {
    var e := Bin(PLUS, NoFunc, Lit(IntD(1)), Lit(BoolD(true)));
    var cols := [ColDesc("a", T_INT)];
    IntPlusBool();
    assert CheckType(e, [cols]) == CheckType(e, []);
    var values := [CheckType(e, [cols]).expr];
    assert Accepted(e, values[0], cols, T_INT);
    assert values[..0] == [];
    assert CheckedList(values, cols) && !Evaluates(values, cols);
  }

  /** Each list leaves the row of its values exactly if every column that shares its name with another is
      given null. */
  lemma InsertedExactly(values: seq<Expr>, cols: seq<ColDesc>)
    requires Evaluates(values, cols)
    ensures ValuesRow(values).Assigned?
    ensures InsertedRow(values, cols) == ValuesRow(values).row <==> SharedNull(cols, ValuesRow(values).row)
  {
    hide ValuesRow, SharedNull, NamedRow;
    EvaluatesIs(values, cols);
    ValuesWidth(values);
    NamedExactly(cols, ValuesRow(values).row);
  }

  /** NotEvaluated: a list of the wrong length, or a value that cannot be evaluated. */
  datatype InsertScanResult = Inserted | NotEvaluated | NotInserted(why: WriteResult)

  /** The pages after the lists, the page the cursor is on and how it went. */
  datatype Inserting = Inserting(pages: Pages, at: nat, result: InsertScanResult)

  ghost function InsertList(before: Inserting, values: seq<Expr>, cols: seq<ColDesc>): Inserting {
    match ValuesRow(values)
    case Fails => before.(result := NotEvaluated)
    case Assigned(row) =>
      if |row| != |cols| then before.(result := NotEvaluated) else InsertTupleOf(before, NamedTuple(cols, row, |row|))
  }

  ghost function InsertTupleOf(before: Inserting, t: Tuple): Inserting {
    var written := WriteOutcome(before.pages, before.at, t.length);
    Inserting(WritePages(before.pages, before.at, t), WritePage(before.pages, before.at, t.length),
              if written == Written then Inserted else NotInserted(written))
  }

  /** The lists one after the other, up to the first that stops the program. */
  ghost function InsertAll(pages: Pages, lists: seq<seq<Expr>>, cols: seq<ColDesc>): Inserting {
    if lists == [] then Inserting(pages, 0, Inserted) else
      var before := InsertAll(pages, lists[..|lists| - 1], cols);
      if before.result != Inserted then before else InsertList(before, lists[|lists| - 1], cols)
  }

  lemma InsertStep(pages: Pages, lists: seq<seq<Expr>>, cols: seq<ColDesc>, i: nat)
    requires i < |lists|
    ensures InsertAll(pages, lists[..0], cols) == Inserting(pages, 0, Inserted)
    ensures InsertAll(pages, lists[..i + 1], cols) ==
            var before := InsertAll(pages, lists[..i], cols);
            if before.result != Inserted then before else InsertList(before, lists[i], cols)
  {
    hide InsertList;
    assert lists[..i + 1][..i] == lists[..i];
  }

  lemma {:induction false} InsertStuck(pages: Pages, lists: seq<seq<Expr>>, cols: seq<ColDesc>, n: nat)
    requires n <= |lists| && InsertAll(pages, lists[..n], cols).result != Inserted
    ensures InsertAll(pages, lists, cols) == InsertAll(pages, lists[..n], cols)
    decreases |lists| - n
  {
    hide InsertList, InsertAll;
    if n < |lists| {
      InsertStep(pages, lists, cols, n);
      InsertStuck(pages, lists, cols, n + 1);
    } else {
      assert lists[..n] == lists;
    }
  }

  /** It goes through exactly if each list, in its turn, can be evaluated and its tuple written. */
  ghost predicate GoesIn(before: Inserting, values: seq<Expr>, cols: seq<ColDesc>) {
    var v := ValuesRow(values);
    && v.Assigned? && |v.row| == |cols|
    && WriteOutcome(before.pages, before.at, NamedTuple(cols, v.row, |v.row|).length) == Written
  }

  lemma {:induction false} InsertAllExactly(pages: Pages, lists: seq<seq<Expr>>, cols: seq<ColDesc>, n: nat)
    requires n <= |lists|
    ensures InsertAll(pages, lists[..n], cols).result == Inserted
            <==> forall i :: 0 <= i < n ==> GoesIn(InsertAll(pages, lists[..i], cols), lists[i], cols)
  {
    hide InsertAll, ValuesRow, WriteOutcome, WritePages, WritePage, NamedTuple;
    if n > 0 {
      InsertStep(pages, lists, cols, n - 1);
      InsertAllExactly(pages, lists, cols, n - 1);
    } else if lists != [] {
      InsertStep(pages, lists, cols, 0);
    } else {
      NoneInserted(pages, lists, cols);
    }
  }

  /** In numbers: the first list goes to the first page of all that is not passed over, every later one to the
      first from the page of the one before. */
  lemma InsertExactly(pages: Pages, values: seq<Expr>, cols: seq<ColDesc>, before: Inserting, q: nat)
    requires before.at <= q <= |before.pages|
    requires ValuesRow(values).Assigned? && |ValuesRow(values).row| == |cols|
    requires var size := NamedTuple(cols, ValuesRow(values).row, |cols|).length;
             && (forall i :: before.at <= i < q ==> PassedOver(before.pages[i], size))
             && (q < |before.pages| ==> !PassedOver(before.pages[q], size))
    ensures InsertAll(pages, [], cols) == Inserting(pages, 0, Inserted)
    ensures var size, after := NamedTuple(cols, ValuesRow(values).row, |cols|).length, InsertList(before, values, cols);
            var slack := if q < |before.pages| then Slack(before.pages[q]) else 8183;
            && (after.result == Inserted
                <==> IsTid(TupleId(|before.pages|, 0)) && size < 8192 && slack >= size + 6)
            && (after.result == Inserted ==>
                after.at == q && SameBut(before.pages, after.pages, q))
  {
    hide ItemOf, FirstItem, WithItemAt, ValidImage, Holds, WriteOutcome, WritePage, NamedTuple, ValuesRow, WritePages;
    var t := NamedTuple(cols, ValuesRow(values).row, |cols|);
    WriteStays(before.pages, before.at, t);
    WriteExactly(before.pages, before.at, t.length, q);
  }

  lemma NoneInserted(pages: Pages, lists: seq<seq<Expr>>, cols: seq<ColDesc>)
    ensures InsertAll(pages, lists[..0], cols) == Inserting(pages, 0, Inserted)
  {
  }

  /** The values have the types of the columns they end up in. */
  ghost predicate ListLands(values: seq<Expr>, cols: seq<ColDesc>) {
    ValuesRow(values).Assigned? && Lands(cols, ValuesRow(values).row)
  }

  /** InsertScan, for lists whose values, if they can be evaluated, land in columns of their types. It comes to
      what taking the lists one after the other comes to and leaves those pages: it stops on the first list
      that cannot be evaluated or written. In every case the table's rows are the old ones and one for each
      list before that, and every old tuple is where it was. */
  method InsertScan(table: Table, lists: seq<seq<Expr>>, cols: seq<ColDesc>)
    returns (r: InsertScanResult, ghost done: nat)
    requires table.Valid() && ColTypes(cols) == table.types
    requires forall i :: 0 <= i < |lists| && Evaluates(lists[i], cols) ==> ListLands(lists[i], cols)
    modifies table
    ensures HeapOk(table.pages, table.types)
    ensures r == InsertAll(old(table.pages), lists, cols).result
    ensures table.pages == InsertAll(old(table.pages), lists, cols).pages
    ensures done <= |lists| && (r == Inserted <==> done == |lists|)
    ensures r == NotEvaluated <==> done < |lists| && !Evaluates(lists[done], cols)
    ensures multiset(RowsOf(LiveOf(table.pages), cols))
            == multiset(RowsOf(LiveOf(old(table.pages)), cols)) + multiset(InsertedRows(lists[..done], cols))
    ensures AllInserted(lists[..done], cols, InsertedRows(lists[..done], cols))
    ensures OthersKept(old(table.pages), table.pages, [])
  {
    hide RowsOf, LiveOf, HeapOk, InsertedRows, InsertedRow, OthersKept, AllInserted, Evaluates, ValuesRow, NamedRow,
         Lands, InsertAll,
         InsertTupleOf, NamedTuple;
    var cursor := new Cursor(table);
    NoneKept(table.pages);
    assert lists[..0] == [] && lists[..|lists|] == lists;
    NoLists(cols);
    NoneInserted(table.pages, lists, cols);
    done := 0;
    for i := 0 to |lists|
      invariant HeapOk(table.pages, table.types) && cursor.pageIndex <= |table.pages| && done == i
      invariant OthersKept(old(table.pages), table.pages, [])
      invariant AllInserted(lists[..i], cols, InsertedRows(lists[..i], cols))
      invariant InsertAll(old(table.pages), lists[..i], cols) == Inserting(table.pages, cursor.pageIndex, Inserted)
      invariant multiset(RowsOf(LiveOf(table.pages), cols))
                == multiset(RowsOf(LiveOf(old(table.pages)), cols)) + multiset(InsertedRows(lists[..i], cols))
    {
      ghost var before := table.pages;
      InsertStep(before, lists, cols, i);
      EvaluatesIs(lists[i], cols);
      InsertStep(old(table.pages), lists, cols, i);
      var values := ValuesRow(lists[i]);
      if values.Assigned? {
        ValuesWidth(lists[i]);
      }
      if |lists[i]| != |cols| || values.Fails? {
        InsertStuck(old(table.pages), lists, cols, i + 1);
        return NotEvaluated, done;
      }
      InsertedStep(lists, cols, i);
      AllInsertedStep(lists, cols, i);
      InsertedRowIs(lists[i], cols);
      r := InsertRow(cursor, values.row, cols);
      AllKeptStep(old(table.pages), before, table.pages);
      if r != Inserted {
        InsertStuck(old(table.pages), lists, cols, i + 1);
        return r, done;
      }
      done := i + 1;
    }
    return Inserted, done;
  }

  lemma NoLists(cols: seq<ColDesc>)
    ensures InsertedRows([], cols) == [] && AllInserted([], cols, [])
  {
  }

  lemma InsertedStep(lists: seq<seq<Expr>>, cols: seq<ColDesc>, i: nat)
    requires i < |lists|
    ensures InsertedRows(lists[..i + 1], cols) == InsertedRows(lists[..i], cols) + [InsertedRow(lists[i], cols)]
  {
    hide InsertedRow;
  }

  lemma InsertedRowIs(values: seq<Expr>, cols: seq<ColDesc>)
    requires Evaluates(values, cols)
    ensures ValuesRow(values).Assigned? && |ValuesRow(values).row| == |cols|
    ensures InsertedRow(values, cols) == NamedRow(cols, ValuesRow(values).row, |cols|)
  {
    hide ValuesRow, NamedRow;
    EvaluatesIs(values, cols);
    ValuesWidth(values);
  }

  /** One round of InsertScan: build the tuple column by column, place it. */
  method InsertRow(cursor: Cursor, row: Row, cols: seq<ColDesc>) returns (r: InsertScanResult)
    requires HeapOk(cursor.table.pages, cursor.table.types) && cursor.pageIndex <= |cursor.table.pages|
    requires ColTypes(cols) == cursor.table.types && Lands(cols, row)
    modifies cursor, cursor.table
    ensures HeapOk(cursor.table.pages, cursor.table.types) && r != NotEvaluated
    ensures var before := Inserting(old(cursor.table.pages), old(cursor.pageIndex), Inserted);
            var after := InsertTupleOf(before, NamedTuple(cols, row, |row|));
            && r == after.result && cursor.table.pages == after.pages
            && (r == Inserted ==> cursor.pageIndex == after.at <= |after.pages|)
    ensures r == Inserted ==>
              multiset(RowsOf(LiveOf(cursor.table.pages), cols))
              == multiset(RowsOf(LiveOf(old(cursor.table.pages)), cols)) + multiset{NamedRow(cols, row, |row|)}
    ensures r != Inserted ==> cursor.table.pages == old(cursor.table.pages)
    ensures OthersKept(old(cursor.table.pages), cursor.table.pages, [])
  {
    hide RowsOf, LiveOf, HeapOk, Lookup, StoredRow, PlaceOutcome, PutTuple, WellFormed, ColsFit, TupleOf, RowOf,
         Listed, NamedTuple, NamedRow, ItemOf, WritePages, FirstStop;
    ghost var before := cursor.table.pages;
    NoneKept(before);
    LandsWidth(cols, row);
    NamedMeaning(cols, row);
    var t := BuildTuple(cols, row);
    WriteFails(before, cursor.pageIndex, t);
    if |cursor.table.pages| >= MAX_PAGES {
      return NotInserted(OutOfPages);
    }
    if t.length >= PAGE_SIZE {
      return NotInserted(TooLong);
    }
    ghost var p := cursor.pageIndex;
    var placed := cursor.InsertTuple(t);
    if placed.Placed? {
      PutLookups(before, cursor.table.types, cursor.pageIndex, t, placed.tid, cursor.table.pages);
      PutRows(before, cursor.pageIndex, t, placed.tid, cursor.table.pages, cols);
      PutSize(before, cursor.pageIndex, t, placed.tid, cursor.table.pages);
      WritePagesIs(before, p, t, placed.tid, cursor.table.pages);
      return Inserted;
    }
    return NotInserted(WriteOf(placed));
  }

  lemma LandsWidth(cols: seq<ColDesc>, row: Row)
    requires Lands(cols, row)
    ensures |row| == |cols|
  {
  }

  lemma PutSize(before: Pages, q: nat, t: Tuple, tid: TupleId, after: Pages)
    requires PutTuple(before, q, t, tid, after)
    ensures |after| >= q && |after| >= |before|
  {
    hide ItemOf, ValidImage, Holds, FirstItem;
  }
}
