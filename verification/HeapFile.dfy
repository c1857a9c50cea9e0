/** The heap table in a file and the cursor over it. Pages are read into private buffers, changed
    there and written back. */
module HeapFile {
  import opened PageLayout
  import PageBuffer
  import opened Types
  import opened Codec
  import opened Heap

  const MAX_PAGES: nat := 0x1_0000

  class Table {
    const types: seq<BType>
    var pages: seq<PageImage>

    /** Every page valid, every live tuple stored under its own address, page numbers within the 16
        bits a tuple id has for them. */
    ghost predicate Valid()
      reads this
    {
      HeapOk(pages, types) && |pages| < MAX_PAGES
    }

    /** SMCreate: one empty page. */
    constructor (types: seq<BType>)
      ensures Valid() && LiveOf(pages) == [] && pages == [EmptyImage(0, NoInfo)] && this.types == types
    {
      this.types := types;
      pages := [EmptyImage(0, NoInfo)];
      new;
      EmptyHeap(types);
    }

    /** The search of CursorInsertTuple and CursorUpdateTupleById: try each page from p on, else append
        a new page. Returns the page it stopped at. */
    method Place(p: nat, t: Tuple) returns (r: PlaceResult, q: nat)
      requires Valid() && p <= |pages| && Fits(t, types)
      modifies this
      ensures r == PlaceOutcome(old(pages), p, t.length) && q == FirstStop(old(pages), p, t.length)
      ensures !r.Placed? ==> pages == old(pages)
      ensures r.Placed? ==> PutTuple(old(pages), q, t, r.tid, pages)
      ensures HeapOk(pages, types)
    {
      hide Slots, Dead, StoredAt, ItemOf, Fits, ValidImage, Lookup;
      q := p;
      while q < |pages|
        invariant p <= q <= |pages| && pages == old(pages)
        invariant FirstStop(pages, q, t.length) == FirstStop(pages, p, t.length)
      {
        var tid := TupleId(q, SlotCount(pages, q));
        var added := Try(q, t);
        match added {
          case Added => return Placed(tid), q;
          case Overrun => return PageOverrun, q;
          case Full =>
        }
        q := q + 1;
      }
      r := Append(t);
    }

    /** One page of the search: build the tuple with the address it would get, try to add it, write the
        page back if that worked. */
    method Try(q: nat, t: Tuple) returns (r: AddResult)
      requires Valid() && q < |pages| && Fits(t, types)
      modifies this
      ensures r == AddOutcome(Slack(old(pages)[q]), t.length)
      ensures !r.Added? ==> pages == old(pages)
      ensures r.Added? ==> PutTuple(old(pages), q, t, TupleId(q, SlotCount(old(pages), q)), pages)
      ensures HeapOk(pages, types)
    {
      hide Slots, Dead, StoredAt, ItemOf, Fits, ValidImage, HeapOk, PutTuple;
      HeapPage(pages, types, q);
      Bounds(pages[q]);
      var page := new PageBuffer.Page.Read(pages[q]);
      var tid := TupleId(q % MAX_PAGES, page.numLocs % 0x1_0000);
      ItemLength(t, tid, types);
      r := page.AddItem(ItemOf(t, tid));
      if r.Added? {
        PlacedOnPage(pages, types, q, t);
        pages := pages[q := page.Image()];
      }
    }

    method Append(t: Tuple) returns (r: PlaceResult)
      requires Valid() && Fits(t, types)
      modifies this
      ensures r == PlaceOutcome(old(pages), |old(pages)|, t.length)
      ensures !r.Placed? ==> pages == old(pages)
      ensures r.Placed? ==> PutTuple(old(pages), |old(pages)|, t, r.tid, pages)
      ensures HeapOk(pages, types)
    {
      hide Slots, Dead, StoredAt, ItemOf, Fits, ValidImage, HeapOk, PutTuple;
      EmptyMeaning(0, NoInfo);
      var tid := TupleId(|pages| % MAX_PAGES, 0);
      var page := new PageBuffer.Page.Init(0, NoInfo);
      ItemLength(t, tid, types);
      var added := page.AddItem(ItemOf(t, tid));
      if !added.Added? {
        return TooBig;
      }
      PlacedOnNew(pages, types, t);
      pages := pages + [page.Image()];
      return Placed(tid);
    }

    /** CursorDeleteTupleById; the program asserts that the page and the slot exist. */
    method Delete(tid: TupleId)
      requires HeapOk(pages, types) && tid.page < |pages| && tid.loc < |pages[tid.page].locs|
      modifies this
      ensures pages == Deleted(old(pages), tid.page, tid.loc) && HeapOk(pages, types) && |pages| == |old(pages)|
    {
      hide Slots, Dead, StoredAt, ValidImage, Lookup;
      HeapPage(pages, types, tid.page);
      DeletedLookup(pages, tid.page, tid.loc, types);
      var page := new PageBuffer.Page.Read(pages[tid.page]);
      page.DeleteItem(tid.loc);
      pages := pages[tid.page := page.Image()];
    }

    /** CursorUpdateTupleById: mark the old version dead, place the new one from the same page on. */
    method Update(tid: TupleId, t: Tuple) returns (r: PlaceResult, ghost q: nat)
      requires Valid() && tid.page < |pages| && tid.loc < |pages[tid.page].locs|
      requires Fits(t, types)
      modifies this
      ensures var without := Deleted(old(pages), tid.page, tid.loc);
              && HeapOk(without, types)
              && r == PlaceOutcome(without, tid.page, t.length) && q == FirstStop(without, tid.page, t.length)
              && (!r.Placed? ==> pages == without)
              && (r.Placed? ==> PutTuple(without, q, t, r.tid, pages))
      ensures HeapOk(pages, types)
    {
      hide ItemOf, Fits, StoredAt, ValidImage, PlaceOutcome, PutTuple, Slots, Dead;
      Delete(tid);
      var at;
      r, at := Place(tid.page, t);
      q := at;
    }
  }

  lemma EmptyHeap(types: seq<BType>)
    ensures HeapOk([EmptyImage(0, NoInfo)], types) && LiveOf([EmptyImage(0, NoInfo)]) == []
  {
    hide StoredAt;
    EmptyMeaning(0, NoInfo);
    var pages := [EmptyImage(0, NoInfo)];
    assert pages[..0] == [];
  }

  /** The Cursor struct over one table. */
  class Cursor {
    const table: Table
    var pageIndex: nat
    var tupleIndex: nat

    /** CursorInit. */
    constructor (table: Table)
      ensures this.table == table && pageIndex == 0 && tupleIndex == 0
    {
      this.table := table;
      pageIndex, tupleIndex := 0, 0;
    }

    /** CursorSeekNext: the next live tuple, or the end. What lay ahead is what it returns followed by
        what lies ahead now. */
    method SeekNext() returns (found: bool, item: Bytes)
      requires table.Valid() && pageIndex <= |table.pages|
      modifies this
      ensures pageIndex <= |table.pages|
      ensures found ==>
                && LiveFrom(table.pages, old(pageIndex), old(tupleIndex)) ==
                     [item] + LiveFrom(table.pages, pageIndex, tupleIndex)
                && tupleIndex > 0 && (pageIndex > old(pageIndex)
                                      || (pageIndex == old(pageIndex) && tupleIndex > old(tupleIndex)))
                && LiveBefore(table.pages, pageIndex, tupleIndex - 1) ==
                     LiveBefore(table.pages, old(pageIndex), old(tupleIndex))
                && LiveBefore(table.pages, pageIndex, tupleIndex) ==
                     LiveBefore(table.pages, old(pageIndex), old(tupleIndex)) + [item]
                && Lookup(table.pages, pageIndex, tupleIndex - 1) == Found.Tuple(item)
      ensures !found ==> LiveFrom(table.pages, old(pageIndex), old(tupleIndex)) == [] && pageIndex == |table.pages|
    {
      hide Slots, Dead, StoredAt, ValidImage, LiveFrom, LiveBefore, HeapOk;
      while pageIndex < |table.pages|
        invariant old(pageIndex) <= pageIndex <= |table.pages|
        invariant (pageIndex == old(pageIndex) ==> tupleIndex >= old(tupleIndex))
        invariant LiveFrom(table.pages, pageIndex, tupleIndex) == LiveFrom(table.pages, old(pageIndex), old(tupleIndex))
        invariant LiveBefore(table.pages, pageIndex, tupleIndex) ==
                  LiveBefore(table.pages, old(pageIndex), old(tupleIndex))
        decreases |table.pages| - pageIndex,
                  if pageIndex < |table.pages| then |table.pages[pageIndex].locs| - tupleIndex else 0
      {
        HeapPage(table.pages, table.types, pageIndex);
        var page := new PageBuffer.Page.Read(table.pages[pageIndex]);
        if tupleIndex >= page.numLocs {
          PageStep(table.pages, pageIndex, tupleIndex);
          pageIndex, tupleIndex := pageIndex + 1, 0;
          continue;
        }
        SlotStep(table.pages, pageIndex, tupleIndex);
        DeadAt(table.pages[pageIndex], tupleIndex);
        assert page.locs[..page.numLocs][tupleIndex] == page.locs[tupleIndex];
        if page.locs[tupleIndex].dead {
          tupleIndex := tupleIndex + 1;
          continue;
        }
        found, item := page.GetItem(tupleIndex);
        tupleIndex := tupleIndex + 1;
        return;
      }
      NothingAhead(table.pages, pageIndex, tupleIndex);
      return false, [];
    }

    /** CursorInsertTuple, for one tuple. */
    method InsertTuple(t: Tuple) returns (r: PlaceResult)
      requires table.Valid() && pageIndex <= |table.pages| && Fits(t, table.types)
      modifies this, table
      ensures r == PlaceOutcome(old(table.pages), old(pageIndex), t.length)
      ensures pageIndex == FirstStop(old(table.pages), old(pageIndex), t.length) && tupleIndex == old(tupleIndex)
      ensures !r.Placed? ==> table.pages == old(table.pages)
      ensures r.Placed? ==> PutTuple(old(table.pages), pageIndex, t, r.tid, table.pages)
      ensures HeapOk(table.pages, table.types)
    {
      hide ItemOf, Fits, StoredAt, ValidImage, PlaceOutcome, PutTuple, Slots, Dead;
      var q;
      r, q := table.Place(pageIndex, t);
      pageIndex := q;
    }
  }

  lemma DeadAt(p: PageImage, s: nat)
    requires s < |p.locs|
    ensures Dead(p)[s] == p.locs[s].dead
  {
  }

  lemma NothingAhead(pages: Pages, p: nat, s: nat)
    requires p >= |pages|
    ensures LiveFrom(pages, p, s) == [] && LiveBefore(pages, p, s) == LiveOf(pages)
  {
  }
}
