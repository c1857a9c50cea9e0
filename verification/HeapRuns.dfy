/** Any run of inserts, deletes and updates on a heap table, against a map from tuple id to row. */
module HeapRuns {
  import opened PageLayout
  import opened Types
  import opened Codec
  import opened Heap
  import HeapFile
  import opened HeapWrites
  import ModifyScan

  // ----- the table as a map

  ghost function Tids(pages: Pages): set<TupleId> {
    set p: nat, s: nat | p < |pages| && s < |pages[p].locs| && Lookup(pages, p, s).Tuple? :: TupleId(p, s)
  }

  ghost function RowMap(pages: Pages, types: seq<BType>): map<TupleId, Row> {
    map t | t in Tids(pages) :: RowAt(pages, types, t)
  }

  ghost function RowAt(pages: Pages, types: seq<BType>, t: TupleId): Row
    requires t in Tids(pages)
  {
    RowOf(TupleOf(Lookup(pages, t.page, t.loc).bytes), types)
  }

  lemma TidsAre(pages: Pages, t: TupleId)
    ensures t in Tids(pages) <==> Lookup(pages, t.page, t.loc).Tuple?
  {
    hide Slots, Dead;
    if Lookup(pages, t.page, t.loc).Tuple? {
      assert t == TupleId(t.page, t.loc);
    }
  }

  /** Every live tuple's stored self id is its key in the map, and its row has the column types. */
  lemma SelfIds(pages: Pages, types: seq<BType>, t: TupleId)
    requires HeapOk(pages, types) && t in RowMap(pages, types)
    ensures Lookup(pages, t.page, t.loc).Tuple?
    ensures TupleOf(Lookup(pages, t.page, t.loc).bytes).tid == t && Conforms(RowMap(pages, types)[t], types)
  {
    hide Slots, Dead, StoredAt, TupleOf, RowOf, HeapOk, Lookup, Conforms;
    TidsAre(pages, t);
    var b := Lookup(pages, t.page, t.loc).bytes;
    ModifyScan.LookupStored(pages, types, t.page, t.loc, b);
    StoredFacts(b, types, t.page, t.loc);
  }

  lemma MapPut(before: Pages, after: Pages, types: seq<BType>, tid: TupleId, b: Bytes)
    requires Lookup(before, tid.page, tid.loc) == Missing
    requires forall p, s :: Lookup(after, p, s) == if p == tid.page && s == tid.loc then Found.Tuple(b)
             else Lookup(before, p, s)
    ensures tid !in RowMap(before, types)
    ensures RowMap(after, types) == RowMap(before, types)[tid := RowOf(TupleOf(b), types)]
  {
    hide Lookup, TupleOf, RowOf, Tids;
    var m, n := RowMap(before, types)[tid := RowOf(TupleOf(b), types)], RowMap(after, types);
    forall t: TupleId
      ensures t in n <==> t in m
      ensures t in n && t in m ==> n[t] == m[t]
    {
      TidsAre(before, t);
      TidsAre(after, t);
      assert t == tid <==> t.page == tid.page && t.loc == tid.loc;
    }
    TidsAre(before, tid);
    assert n.Keys == m.Keys;
  }

  lemma MapDelete(before: Pages, after: Pages, types: seq<BType>, tid: TupleId)
    requires forall p, s :: Lookup(after, p, s) == if p == tid.page && s == tid.loc then Missing
             else Lookup(before, p, s)
    ensures RowMap(after, types) == RowMap(before, types) - {tid}
  {
    hide Lookup, TupleOf, RowOf, Tids;
    var m, n := RowMap(before, types) - {tid}, RowMap(after, types);
    forall t: TupleId
      ensures t in n <==> t in m
      ensures t in n && t in m ==> n[t] == m[t]
    {
      TidsAre(before, t);
      TidsAre(after, t);
      assert t == tid <==> t.page == tid.page && t.loc == tid.loc;
    }
    assert n.Keys == m.Keys;
  }

  // ----- operations

  datatype HeapOp = Insert(row: Row) | Delete(tid: TupleId) | Update(tid: TupleId, row: Row)

  /** What the statements keep to: rows of the table's types, ids of live tuples. */
  ghost predicate Legal(m: map<TupleId, Row>, op: HeapOp, types: seq<BType>) {
    match op
    case Insert(row) => Conforms(row, types)
    case Delete(tid) => tid in m
    case Update(tid, row) => tid in m && Conforms(row, types)
  }

  /** The map after one operation that puts its row, if any, at the given id. */
  ghost function After(m: map<TupleId, Row>, op: HeapOp, at: TupleId): map<TupleId, Row> {
    match op
    case Insert(row) => m[at := row]
    case Delete(tid) => m - {tid}
    case Update(tid, row) => (m - {tid})[at := row]
  }

  /** The map after an operation that could not write its row: the old version of an update is gone. */
  ghost function AfterFailed(m: map<TupleId, Row>, op: HeapOp, why: WriteResult): map<TupleId, Row> {
    if op.Update? && why != OutOfPages then m - {op.tid} else m
  }

  /** The id a row is put at was free. */
  ghost predicate FreeFor(m: map<TupleId, Row>, op: HeapOp, at: TupleId) {
    match op
    case Insert(_) => at !in m
    case Delete(_) => true
    case Update(tid, _) => at !in m - {tid}
  }

  /** What an operation comes to, by the room left on the pages alone. */
  function OpOutcome(pages: Pages, op: HeapOp): WriteResult {
    match op
    case Insert(row) => WriteOutcome(pages, 0, RowSize(row))
    case Delete(_) => Written
    case Update(tid, row) => UpdateOutcome(pages, RowTuple(tid, row))
  }

  /** The pages it leaves. */
  ghost function OpPages(pages: Pages, op: HeapOp): Pages {
    match op
    case Insert(row) => WritePages(pages, 0, RowTuple(TupleId(0, 0), row))
    case Delete(tid) => Without(pages, tid)
    case Update(tid, row) => UpdatePages(pages, RowTuple(tid, row))
  }

  /** In numbers: an insertion goes to the first page of all that is not passed over, and no other page
      changes; an update as UpdateExactly says; a deletion always succeeds. */
  lemma InsertExactly(pages: Pages, row: Row, q: nat)
    requires q <= |pages| && forall i :: 0 <= i < q ==> PassedOver(pages[i], RowSize(row))
    requires q < |pages| ==> !PassedOver(pages[q], RowSize(row))
    ensures OpOutcome(pages, Insert(row)) == OutOfPages <==> !IsTid(TupleId(|pages|, 0))
    ensures var slack := if q < |pages| then Slack(pages[q]) else 8183;
            OpOutcome(pages, Insert(row)) != OutOfPages ==>
              && (OpOutcome(pages, Insert(row)) == Written <==> RowSize(row) < 8192 && slack >= RowSize(row) + 6)
              && (OpOutcome(pages, Insert(row)) == Overran <==> RowSize(row) < 8192 && slack < 6)
    ensures SameBut(pages, OpPages(pages, Insert(row)), q)
    ensures forall tid :: OpOutcome(pages, HeapOp.Delete(tid)) == Written
  {
    hide ItemOf, FirstItem, WithItemAt, ValidImage, Holds, WriteOutcome, WritePage, WritePages, RowTuple, RowSize;
    RowTupleSize(TupleId(0, 0), row);
    WriteExactly(pages, 0, RowSize(row), q);
    WriteFails(pages, 0, RowTuple(TupleId(0, 0), row));
    WriteStays(pages, 0, RowTuple(TupleId(0, 0), row));
  }

  method PerformInsert(table: HeapFile.Table, row: Row) returns (r: WriteResult, ghost at: TupleId)
    requires HeapOk(table.pages, table.types) && Conforms(row, table.types)
    modifies table
    ensures HeapOk(table.pages, table.types)
    ensures r == WriteOutcome(old(table.pages), 0, RowSize(row))
    ensures table.pages == WritePages(old(table.pages), 0, RowTuple(TupleId(0, 0), row))
    ensures r == Written ==>
              && at !in old(RowMap(table.pages, table.types))
              && RowMap(table.pages, table.types) == old(RowMap(table.pages, table.types))[at := row]
    ensures r != Written ==> table.pages == old(table.pages)
  {
    hide Lookup, HeapOk, PutTuple, PlaceOutcome, RowSize, Conforms, ItemOf, RowOf, TupleOf, RowMap, FirstStop, Fits,
         RowTuple, WritePages;
    at := TupleId(0, 0);
    var t := RowTuple(TupleId(0, 0), row);
    RowTupleSize(TupleId(0, 0), row);
    WriteFails(table.pages, 0, t);
    if |table.pages| >= HeapFile.MAX_PAGES {
      return OutOfPages, at;
    }
    if RowSize(row) >= PAGE_SIZE {
      return TooLong, at;
    }
    ghost var before := table.pages;
    RowFits(TupleId(0, 0), row, table.types);
    var placed, q := table.Place(0, t);
    if placed.Placed? {
      at := placed.tid;
      ModifyScan.PutSize(before, q, t, at, table.pages);
      ModifyScan.PutLookups(before, table.types, q, t, at, table.pages);
      MapPut(before, table.pages, table.types, at, ItemOf(t, at));
      WritePagesIs(before, 0, t, at, table.pages);
    }
    return WriteOf(placed), at;
  }

  lemma RowTupleSize(tid: TupleId, row: Row)
    ensures RowTuple(tid, row).length == RowSize(row) && RowTuple(tid, row).tid == tid
  {
    hide Joint, LocsOf;
  }

  method PerformDelete(table: HeapFile.Table, tid: TupleId)
    requires HeapOk(table.pages, table.types) && tid in RowMap(table.pages, table.types)
    modifies table
    ensures HeapOk(table.pages, table.types) && table.pages == Without(old(table.pages), tid)
    ensures RowMap(table.pages, table.types) == old(RowMap(table.pages, table.types)) - {tid}
  {
    hide Slots, Dead, HeapOk, RowOf, TupleOf, Tids, Deleted;
    ghost var before := table.pages;
    TidsAre(before, tid);
    table.Delete(tid);
    DeletedLookup(before, tid.page, tid.loc, table.types);
    MapDelete(before, table.pages, table.types, tid);
  }

  method PerformUpdate(table: HeapFile.Table, tid: TupleId, row: Row) returns (r: WriteResult, ghost at: TupleId)
    requires HeapOk(table.pages, table.types) && Conforms(row, table.types)
    requires tid in RowMap(table.pages, table.types)
    modifies table
    ensures HeapOk(table.pages, table.types)
    ensures r == UpdateOutcome(old(table.pages), RowTuple(tid, row))
    ensures table.pages == UpdatePages(old(table.pages), RowTuple(tid, row))
    ensures r == Written ==>
              && at !in old(RowMap(table.pages, table.types)) - {tid}
              && RowMap(table.pages, table.types) == (old(RowMap(table.pages, table.types)) - {tid})[at := row]
    ensures r != Written && r != OutOfPages ==>
              RowMap(table.pages, table.types) == old(RowMap(table.pages, table.types)) - {tid}
    ensures r == OutOfPages ==> table.pages == old(table.pages)
  {
    hide HeapOk, PutTuple, PlaceOutcome, RowSize, Conforms, ItemOf, RowOf, TupleOf, Slots, Dead, Tids, FirstStop,
         Deleted, Fits, RowTuple, WritePages;
    at := tid;
    ghost var before := table.pages;
    TidsAre(before, tid);
    RowTupleSize(tid, row);
    if |table.pages| >= HeapFile.MAX_PAGES {
      return OutOfPages, at;
    }
    DeletedLookup(before, tid.page, tid.loc, table.types);
    ghost var without := Deleted(before, tid.page, tid.loc);
    MapDelete(before, without, table.types, tid);
    ModifyScan.DeletedSize(before, tid.page, tid.loc);
    var t := RowTuple(tid, row);
    WriteFails(without, tid.page, t);
    if RowSize(row) >= PAGE_SIZE {
      table.Delete(tid);
      return TooLong, at;
    }
    RowFits(tid, row, table.types);
    var placed, q := table.Update(tid, t);
    if placed.Placed? {
      at := placed.tid;
      ModifyScan.PutLookups(without, table.types, q, t, at, table.pages);
      MapPut(without, table.pages, table.types, at, ItemOf(t, at));
      WritePagesIs(without, tid.page, t, at, table.pages);
    }
    return WriteOf(placed), at;
  }

  /** One operation: its outcome and the pages it leaves are those above, and the map changes as it asks.
      OutOfPages where a tuple id could not hold a new page's number. */
  method Perform(table: HeapFile.Table, op: HeapOp) returns (r: WriteResult, ghost at: TupleId)
    requires HeapOk(table.pages, table.types) && Legal(RowMap(table.pages, table.types), op, table.types)
    modifies table
    ensures HeapOk(table.pages, table.types)
    ensures r == OpOutcome(old(table.pages), op) && table.pages == OpPages(old(table.pages), op)
    ensures r == Written ==>
              && FreeFor(old(RowMap(table.pages, table.types)), op, at)
              && RowMap(table.pages, table.types) == After(old(RowMap(table.pages, table.types)), op, at)
    ensures r != Written ==>
              RowMap(table.pages, table.types) == AfterFailed(old(RowMap(table.pages, table.types)), op, r)
  {
    hide HeapOk, RowMap, Conforms, WriteOutcome, WritePages, UpdateOutcome, UpdatePages, Without;
    at := TupleId(0, 0);
    match op {
      case Insert(row) => r, at := PerformInsert(table, row);
      case Delete(tid) =>
        PerformDelete(table, tid);
        r := Written;
      case Update(tid, row) => r, at := PerformUpdate(table, tid, row);
    }
  }

  // ----- runs

  ghost function AfterAll(m: map<TupleId, Row>, ops: seq<HeapOp>, ats: seq<TupleId>): map<TupleId, Row>
    requires |ops| == |ats|
  {
    if ops == [] then m else
      After(AfterAll(m, ops[..|ops| - 1], ats[..|ats| - 1]), ops[|ops| - 1], ats[|ats| - 1])
  }

  /** Every id chosen along the run was free when it was chosen. */
  ghost predicate AllFree(m: map<TupleId, Row>, ops: seq<HeapOp>, ats: seq<TupleId>)
    requires |ops| == |ats|
  {
    forall i :: 0 <= i < |ops| ==> FreeAt(m, ops, ats, i)
  }

  ghost predicate FreeAt(m: map<TupleId, Row>, ops: seq<HeapOp>, ats: seq<TupleId>, i: nat)
    requires |ops| == |ats| && i < |ops|
  {
    FreeFor(AfterAll(m, ops[..i], ats[..i]), ops[i], ats[i])
  }

  method IsLegal(table: HeapFile.Table, op: HeapOp) returns (ok: bool)
    ensures ok <==> Legal(RowMap(table.pages, table.types), op, table.types)
  {
    hide Slots, Dead, RowOf, TupleOf, Tids, Conforms;
    match op {
      case Insert(row) => ok := FitsTypes(row, table.types);
      case Delete(tid) =>
        TidsAre(table.pages, tid);
        ok := Lookup(table.pages, tid.page, tid.loc).Tuple?;
      case Update(tid, row) =>
        TidsAre(table.pages, tid);
        ok := FitsTypes(row, table.types);
        ok := ok && Lookup(table.pages, tid.page, tid.loc).Tuple?;
    }
  }

  method FitsTypes(row: Row, types: seq<BType>) returns (ok: bool)
    ensures ok <==> Conforms(row, types)
  {
    if |row| != |types| {
      return false;
    }
    for i := 0 to |row|
      invariant forall j :: 0 <= j < i ==> row[j] == NullD || TypeOf(row[j]) == types[j]
    {
      if row[i] != NullD && TypeOf(row[i]) != types[i] {
        return false;
      }
    }
    return true;
  }

  /** All operations done; or the next one is not legal; or a write failed. */
  datatype RunResult = Completed | Illegal | NotWritten(why: WriteResult)

  /** A run as the pages alone decide it: up to the first operation that is not legal or not written. */
  datatype Running = Running(pages: Pages, result: RunResult, done: nat)

  ghost function RunNext(before: Running, types: seq<BType>, op: HeapOp): Running {
    if before.result != Completed then before
    else if !Legal(RowMap(before.pages, types), op, types) then before.(result := Illegal)
    else
      var r, pages := OpOutcome(before.pages, op), OpPages(before.pages, op);
      if r == Written then Running(pages, Completed, before.done + 1)
      else Running(pages, RunResult.NotWritten(r), before.done)
  }

  ghost function RunAll(pages: Pages, types: seq<BType>, ops: seq<HeapOp>): Running {
    if ops == [] then Running(pages, Completed, 0) else
      RunNext(RunAll(pages, types, ops[..|ops| - 1]), types, ops[|ops| - 1])
  }

  lemma RunAllStep(pages: Pages, types: seq<BType>, ops: seq<HeapOp>, n: nat)
    requires n < |ops|
    ensures RunAll(pages, types, ops[..n + 1]) == RunNext(RunAll(pages, types, ops[..n]), types, ops[n])
  {
    hide RunNext;
    assert ops[..n + 1][..n] == ops[..n];
  }

  lemma {:induction false} RunAllStuck(pages: Pages, types: seq<BType>, ops: seq<HeapOp>, n: nat)
    requires n <= |ops| && RunAll(pages, types, ops[..n]).result != Completed
    ensures RunAll(pages, types, ops) == RunAll(pages, types, ops[..n])
    decreases |ops| - n
  {
    hide RunAll, OpOutcome, OpPages, RowMap, Legal;
    if n < |ops| {
      RunAllStep(pages, types, ops, n);
      RunAllStuck(pages, types, ops, n + 1);
    } else {
      assert ops[..n] == ops;
    }
  }

  /** A run completes exactly if each operation, in its turn, is legal and finds a page. */
  ghost predicate GoesThrough(pages: Pages, types: seq<BType>, op: HeapOp) {
    Legal(RowMap(pages, types), op, types) && OpOutcome(pages, op) == Written
  }

  lemma {:induction false} RunAllExactly(pages: Pages, types: seq<BType>, ops: seq<HeapOp>, n: nat)
    requires n <= |ops|
    ensures RunAll(pages, types, ops[..n]).result == Completed
            <==> forall i :: 0 <= i < n ==> GoesThrough(RunAll(pages, types, ops[..i]).pages, types, ops[i])
  {
    hide RunAll, OpOutcome, OpPages, RowMap, Legal;
    if n > 0 {
      RunAllStep(pages, types, ops, n - 1);
      RunAllExactly(pages, types, ops, n - 1);
    } else {
      NoneRun(pages, types, ops);
    }
  }

  /** Every run comes to what the pages decide, and leaves those pages. Up to the first operation that is not
      legal or not written, the table is the map the operations describe, each new row under an id that was
      free, every other row untouched; by SelfIds every live tuple stores its own id. A row that cannot be
      written ends the run, with the map as it was or, in an update, without the row to be replaced. */
  method Run(table: HeapFile.Table, ops: seq<HeapOp>) returns (r: RunResult, done: nat, ghost ats: seq<TupleId>)
    requires HeapOk(table.pages, table.types)
    modifies table
    ensures HeapOk(table.pages, table.types) && done == |ats| <= |ops| && (r == Completed <==> done == |ops|)
    ensures Running(table.pages, r, done) == RunAll(old(table.pages), table.types, ops)
    ensures AllFree(old(RowMap(table.pages, table.types)), ops[..done], ats)
    ensures !r.NotWritten? ==>
              RowMap(table.pages, table.types) == AfterAll(old(RowMap(table.pages, table.types)), ops[..done], ats)
    ensures r == Illegal <==>
            done < |ops| && !Legal(AfterAll(old(RowMap(table.pages, table.types)), ops[..done], ats), ops[done],
                                   table.types)
    ensures r.NotWritten? ==>
              RowMap(table.pages, table.types)
              == AfterFailed(AfterAll(old(RowMap(table.pages, table.types)), ops[..done], ats), ops[done], r.why)
  {
    hide HeapOk, RowMap, Legal, FreeFor, After, AfterFailed, OpOutcome, OpPages, RunAll;
    ghost var start, pages := RowMap(table.pages, table.types), table.pages;
    done, ats := 0, [];
    NoneRun(pages, table.types, ops);
    while done < |ops|
      invariant HeapOk(table.pages, table.types) && done == |ats| <= |ops|
      invariant RunAll(pages, table.types, ops[..done]) == Running(table.pages, Completed, done)
      invariant AllFree(start, ops[..done], ats)
      invariant RowMap(table.pages, table.types) == AfterAll(start, ops[..done], ats)
    {
      RunAllStep(pages, table.types, ops, done);
      var legal := IsLegal(table, ops[done]);
      if !legal {
        RunAllStuck(pages, table.types, ops, done + 1);
        return Illegal, done, ats;
      }
      var written, at := Perform(table, ops[done]);
      if written != Written {
        RunAllStuck(pages, table.types, ops, done + 1);
        return RunResult.NotWritten(written), done, ats;
      }
      RunStep(start, ops, ats, at, done);
      done, ats := done + 1, ats + [at];
    }
    assert ops[..done] == ops;
    return Completed, done, ats;
  }

  lemma NoneRun(pages: Pages, types: seq<BType>, ops: seq<HeapOp>)
    ensures RunAll(pages, types, ops[..0]) == Running(pages, Completed, 0)
  {
  }

  lemma RunStep(m: map<TupleId, Row>, ops: seq<HeapOp>, ats: seq<TupleId>, at: TupleId, n: nat)
    requires n == |ats| < |ops| && AllFree(m, ops[..n], ats)
    requires FreeFor(AfterAll(m, ops[..n], ats), ops[n], at)
    ensures AfterAll(m, ops[..n + 1], ats + [at]) == After(AfterAll(m, ops[..n], ats), ops[n], at)
    ensures AllFree(m, ops[..n + 1], ats + [at])
  {
    hide FreeFor, After;
    var now, ids := ops[..n + 1], ats + [at];
    assert now[..n] == ops[..n] && ids[..n] == ats;
    forall i | 0 <= i < |now|
      ensures FreeAt(m, now, ids, i)
    {
      assert i < n ==> now[..i] == ops[..n][..i] && ids[..i] == ats[..i] && FreeAt(m, ops[..n], ats, i);
    }
  }
}
