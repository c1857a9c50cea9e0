/** Heaps on which CREATE INDEX as written goes wrong, page by page. */
module IndexHeaps {
  import opened PageLayout
  import opened Types
  import opened Schema
  import opened Codec
  import Expr
  import opened Heap
  import HeapFile
  import ModifyScan
  import IndexOrder
  import IndexSplit
  import IndexChain
  import opened IndexRuns
  import IndexInputs
  import BTreeIndex
  import opened CreateIndex
  import opened IndexScan

  // ----- a heap page with given keys

  /** A table with the one column k. */
  function KeyTable(kt: BType): seq<ColDesc> {
    [ColDesc("k", kt)]
  }

  /** Rows as they lie on the first page of the heap. */
  function RowItems(rows: seq<Row>): (r: seq<Bytes>)
    ensures |r| == |rows|
    ensures forall i :: 0 <= i < |r| ==> r[i] == ItemOf(RowTuple(TupleId(0, 0), rows[i]), TupleId(0, i))
  {
    seq(|rows|, i requires 0 <= i < |rows| => ItemOf(RowTuple(TupleId(0, 0), rows[i]), TupleId(0, i)))
  }

  function RowsCost(rows: seq<Row>): nat {
    if rows == [] then 0 else RowsCost(rows[..|rows| - 1]) + RowSize(rows[|rows| - 1]) + LOC_SIZE
  }

  lemma RowStored(types: seq<BType>, row: Row, slot: nat)
    requires Conforms(row, types) && RowSize(row) + LOC_SIZE <= Capacity(PAGE_SIZE) && slot < 0x1_0000
    ensures var b := ItemOf(RowTuple(TupleId(0, 0), row), TupleId(0, slot));
            |b| == RowSize(row) && StoredAt(b, types, 0, slot) && RowOf(TupleOf(b), types) == row
  {
    hide Fits, RowTuple, ItemOf, TupleOf, RowOf, StoredAt, RowSize, Conforms;
    RowFits(TupleId(0, 0), row, types);
    StoreTuple(RowTuple(TupleId(0, 0), row), types, 0, slot);
  }

  /** Rows that fit one page together make up a heap. */
  lemma {:induction false} RowHeap(types: seq<BType>, rows: seq<Row>) returns (pages: Pages)
    requires |rows| < 0x1_0000 && forall i :: 0 <= i < |rows| ==> Conforms(rows[i], types)
    requires RowsCost(rows) <= Capacity(PAGE_SIZE)
    ensures HeapOk(pages, types) && |pages| == 1 && SlotCount(pages, 0) == |rows|
    ensures Slack(pages[0]) == Capacity(PAGE_SIZE) - RowsCost(rows) && LiveOf(pages) == RowItems(rows)
  {
    hide HeapOk, RowTuple, ItemOf, Slots, Dead, StoredAt, RowSize, LiveOf, TupleOf, RowOf, Fits, PutOn, Holds,
         ValidImage, Conforms;
    if rows == [] {
      pages := [EmptyImage(0, NoInfo)];
      EmptyKeyHeap(types);
    } else {
      var n := |rows| - 1;
      var init := rows[..n];
      pages := RowHeap(types, init);
      RowStored(types, rows[n], n);
      var b := ItemOf(RowTuple(TupleId(0, 0), rows[n]), TupleId(0, n));
      HeapPage(pages, types, 0);
      HoldsIs(pages[0], b);
      PutLookup(pages, 0, b, types);
      PutPage(pages, 0, b);
      PutRoom(pages, b);
      PutLive(pages, 0, b);
      OnlyPage(pages);
      assert RowItems(rows) == RowItems(init) + [b] + [];
      pages := PutOn(pages, 0, b);
    }
  }

  /** One-column rows (d0), (d1), ... */
  function Singles(ds: seq<Datum>): (r: seq<Row>)
    ensures |r| == |ds| && forall i :: 0 <= i < |r| ==> r[i] == [ds[i]]
  {
    seq(|ds|, i requires 0 <= i < |ds| => [ds[i]])
  }

  function KeyItems(ds: seq<Datum>): (r: seq<Bytes>)
    ensures |r| == |ds|
    ensures forall i :: 0 <= i < |r| ==> r[i] == ItemOf(RowTuple(TupleId(0, 0), [ds[i]]), TupleId(0, i))
  {
    RowItems(Singles(ds))
  }

  /** The index entry of such a row. */
  function Entry(slot: nat, d: Datum): Bytes {
    EntryBytes(TupleId(0, slot), RowTuple(TupleId(0, 0), [d]))
  }

  ghost predicate AllOf(kt: BType, ds: seq<Datum>) {
    |ds| < 0x1_0000 && forall i :: 0 <= i < |ds| ==> KeyFor(kt, ds[i])
  }

  /** A key of the column's type in a row that fits a page. */
  ghost predicate KeyFor(kt: BType, d: Datum) {
    d != NullD && TypeOf(d) == kt && RowCost(d) <= Capacity(PAGE_SIZE)
  }

  /** Row, header and slot of a heap tuple with this one column. */
  function RowCost(d: Datum): nat {
    47 + match d case NullD => 0 case IntD(_) => 4 case BoolD(_) => 1 case StrD(s) => |s| + 1
  }

  function RowCosts(ds: seq<Datum>): nat {
    if ds == [] then 0 else RowCosts(ds[..|ds| - 1]) + RowCost(ds[|ds| - 1])
  }

  lemma RowItem(kt: BType, d: Datum, slot: nat)
    requires KeyFor(kt, d) && slot < 0x1_0000
    ensures Fits(RowTuple(TupleId(0, 0), [d]), [kt]) && RowTuple(TupleId(0, 0), [d]).length == RowCost(d) - LOC_SIZE
    ensures var b := ItemOf(RowTuple(TupleId(0, 0), [d]), TupleId(0, slot));
            |b| == RowCost(d) - LOC_SIZE && StoredAt(b, [kt], 0, slot) && RowOf(TupleOf(b), [kt]) == [d]
  {
    hide Fits, RowTuple, ItemOf, TupleOf, RowOf, StoredAt;
    OneCellSize(d);
    RowFits(TupleId(0, 0), [d], [kt]);
    RowStored([kt], [d], slot);
  }

  lemma OneCellSize(d: Datum)
    ensures RowSize([d]) == RowCost(d) - LOC_SIZE
  {
    var cells := RowCells([d]);
    assert cells[..0] == [] && Joint(cells) == Joint(cells[..0]) + cells[0];
  }

  lemma {:induction false} KeyHeap(kt: BType, ds: seq<Datum>) returns (pages: Pages)
    requires AllOf(kt, ds) && RowCosts(ds) <= Capacity(PAGE_SIZE)
    ensures HeapOk(pages, [kt]) && ColTypes(KeyTable(kt)) == [kt] && |pages| == 1 && SlotCount(pages, 0) == |ds|
    ensures Slack(pages[0]) == Capacity(PAGE_SIZE) - RowCosts(ds) && LiveOf(pages) == KeyItems(ds)
  {
    hide HeapOk, RowItems, Slack, LiveOf, RowCosts, RowsCost;
    SinglesCost(ds);
    pages := RowHeap([kt], Singles(ds));
  }

  lemma {:induction false} SinglesCost(ds: seq<Datum>)
    ensures RowsCost(Singles(ds)) == RowCosts(ds)
  {
    hide RowCost, RowSize;
    if ds != [] {
      var n := |ds| - 1;
      SinglesCost(ds[..n]);
      OneCellSize(ds[n]);
      assert Singles(ds)[..n] == Singles(ds[..n]);
    }
  }

  lemma EmptyKeyHeap(types: seq<BType>)
    ensures var pages := [EmptyImage(0, NoInfo)];
            HeapOk(pages, types) && LiveOf(pages) == [] && Slack(pages[0]) == Capacity(PAGE_SIZE)
              && |pages[0].locs| == 0
  {
    hide StoredAt;
    EmptyMeaning(0, NoInfo);
    var pages := [EmptyImage(0, NoInfo)];
    assert pages[..0] == [];
  }

  lemma HoldsIs(p: PageImage, b: Bytes)
    ensures Holds(p, b) <==> Slack(p) >= |b| + LOC_SIZE
  {
  }

  lemma PutRoom(pages: Pages, b: Bytes)
    requires |pages| == 1 && HeapImage(pages[0]) && Holds(pages[0], b)
    ensures Slack(PutOn(pages, 0, b)[0]) == Slack(pages[0]) - |b| - LOC_SIZE
    ensures SlotCount(PutOn(pages, 0, b), 0) == SlotCount(pages, 0) + 1
  {
    hide ValidImage, Slots, Dead, Cost, Slack, Holds;
    PutPage(pages, 0, b);
    SlackFromItems(pages[0]);
    SlackFromItems(PutOn(pages, 0, b)[0]);
    CostConcat(Slots(pages[0]), [b]);
    CostOne(b);
    SlotsSize(pages[0]);
    SlotsSize(PutOn(pages, 0, b)[0]);
  }

  lemma SlotsSize(p: PageImage)
    ensures |Slots(p)| == |p.locs|
  {
  }

  lemma OnlyPage(pages: Pages)
    requires |pages| == 1
    ensures pages[..1] == pages && pages[1..] == [] && LiveOf([]) == []
  {
  }

  function EntriesOf(ds: seq<Datum>): (es: seq<Bytes>)
    ensures |es| == |ds|
    ensures forall i :: 0 <= i < |es| ==> es[i] == Entry(i, ds[i])
  {
    seq(|ds|, i requires 0 <= i < |ds| => Entry(i, ds[i]))
  }

  /** CREATE INDEX over such rows comes to what the run over these entries comes to. */
  lemma KeyBuild(kt: BType, ds: seq<Datum>, src: nat)
    requires AllOf(kt, ds)
    ensures var run := Run(kt, EntriesOf(ds), src);
            BuildRun(kt, KeyTable(kt), [0], KeyItems(ds), src) == BuildState(ResultOf(run.result), run.nodes)
  {
    hide BuildRun, Run, IndexEntries, NoNullKeys, AllFit, KeyItems, EntriesOf, ResultOf, AllOf;
    KeyEntries(kt, ds);
    BuildFollows(kt, KeyTable(kt), [0], KeyItems(ds), src);
  }

  lemma KeyEntries(kt: BType, ds: seq<Datum>)
    requires AllOf(kt, ds)
    ensures IndexEntries(KeyTable(kt), [0], KeyItems(ds)) == EntriesOf(ds)
    ensures IndexCols(KeyTable(kt), [0]) && KeyTypeRead(KeyTable(kt), [0])
    ensures NoNullKeys(KeyTable(kt), [0], KeyItems(ds)) && AllFit(EntriesOf(ds))
  {
    hide KeyFor, Entry, ItemOf, RowTuple, IndexEntry, ModifyScan.StoredRow;
    var cols, bs, es := KeyTable(kt), KeyItems(ds), EntriesOf(ds);
    forall i: nat | i < |ds|
      ensures IndexEntry(cols, [0], bs[i]) == es[i] && |es[i]| < PAGE_SIZE
      ensures Project(ModifyScan.StoredRow(bs[i], cols), [0])[0] == ds[i] && ds[i] != NullD
    {
      KeyEntry(kt, ds[i], i);
    }
    assert IndexEntries(cols, [0], bs) == es;
  }

  lemma KeyEntry(kt: BType, d: Datum, slot: nat)
    requires KeyFor(kt, d) && slot < 0x1_0000
    ensures var b := ItemOf(RowTuple(TupleId(0, 0), [d]), TupleId(0, slot));
            && IndexEntry(KeyTable(kt), [0], b) == Entry(slot, d) && ModifyScan.StoredRow(b, KeyTable(kt)) == [d]
            && |Entry(slot, d)| < PAGE_SIZE && d != NullD
  {
    hide ItemOf, RowTuple, TupleOf, RowOf, Fits, StoredAt, NamedTuple, EntryBytes;
    var cols, b := KeyTable(kt), ItemOf(RowTuple(TupleId(0, 0), [d]), TupleId(0, slot));
    RowItem(kt, d, slot);
    StoredFacts(b, [kt], 0, slot);
    assert ColTypes(cols) == [kt];
    assert KeyCols(cols, [0]) == cols && Project([d], [0]) == [d];
    NamedUnique(cols, [d]);
    EntrySize(TupleId(0, slot), d);
  }

  lemma EntryFacts(slot: nat, d: Datum, kt: BType)
    requires slot < 0x1_0000 && d != NullD && TypeOf(d) == kt && (d.StrD? ==> |d.s| < PAGE_SIZE)
    ensures KeyOf(kt, Entry(slot, d)) == d && IndexSplit.ItemCost(Entry(slot, d)) == KeyCost(d)
  {
    hide KeyOf, EntryBytes, RowTuple, GetCol;
    EntrySize(TupleId(0, slot), d);
    OneCellSize(d);
    RowStorable(TupleId(0, 0), [d]);
    RowCol(TupleId(0, 0), [d], 0, kt);
    EntryRoundTrip(TupleId(0, slot), RowTuple(TupleId(0, 0), [d]), kt);
  }

  lemma {:induction false} SameRowCosts(w: nat, ds: seq<Datum>)
    requires forall i :: 0 <= i < |ds| ==> RowCost(ds[i]) == w
    ensures RowCosts(ds) == w * |ds|
  {
    hide RowCost;
    if ds != [] {
      SameRowCosts(w, ds[..|ds| - 1]);
      assert w * |ds| == w * (|ds| - 1) + w;
    }
  }

  // ----- a heap that loses an entry

  function GapKey(i: nat): Datum
    requires i < 149
  {
    IntD(if i < 148 then 10 * i else 1465)
  }

  /** The ints 0, 10, ..., 1470 and then 1465. */
  function GapKeys(): (ds: seq<Datum>)
    ensures |ds| == 149
    ensures forall i :: 0 <= i < 149 ==> ds[i] == GapKey(i)
  {
    seq(149, i requires 0 <= i < 149 => GapKey(i))
  }

  /** CREATE INDEX over a page of 149 ints clobbers a high key. */
  lemma GapHeapClobbers() returns (pages: Pages)
    ensures HeapOk(pages, ColTypes(KeyTable(T_INT))) && |LiveOf(pages)| == 149
    ensures BuildRun(T_INT, KeyTable(T_INT), [0], LiveOf(pages), 1).result == Broken(IndexSplit.Clobbered)
  {
    hide GapKeys, EntriesOf, Run, HeapOk, LiveOf, BuildRun, RowCosts, KeyItems, AllOf, RowCost;
    var ds := GapKeys();
    GapKeysFit(ds);
    GapRun(ds);
    KeyBuild(T_INT, ds, 1);
    pages := KeyHeap(T_INT, ds);
  }

  lemma GapKeysFit(ds: seq<Datum>)
    requires ds == GapKeys()
    ensures AllOf(T_INT, ds) && RowCosts(ds) <= Capacity(PAGE_SIZE)
  {
    hide GapKeys;
    SameRowCosts(51, ds);
  }

  lemma GapRun(ds: seq<Datum>)
    requires ds == GapKeys()
    ensures Run(T_INT, EntriesOf(ds), 1).result == IndexSplit.Clobbered
  {
    hide KeyOf, Entry, GapKeys, EntriesOf, IndexSplit.ItemCost, Run;
    var es := EntriesOf(ds);
    forall i: nat | i < 149
      ensures KeyOf(T_INT, es[i]) == GapKey(i) && IndexSplit.ItemCost(es[i]) == INT_COST
    {
      EntryFacts(i, GapKey(i), T_INT);
    }
    IndexInputs.GapEntryClobbers(T_INT, es);
  }

  // ----- a heap whose index overruns a page

  /** 126 rows of a text column, all of them the same 13 characters. */
  function TextKeys(): (ds: seq<Datum>)
    ensures |ds| == 126
    ensures forall i :: 0 <= i < 126 ==> ds[i] == StrD("thirteen char")
  {
    seq(126, _ => StrD("thirteen char"))
  }

  /** CREATE INDEX over that page writes past the free area of the root, with either high key. */
  lemma TextHeapOverruns(src: nat) returns (pages: Pages)
    requires src <= 1
    ensures HeapOk(pages, ColTypes(KeyTable(T_STRING))) && |LiveOf(pages)| == 126
    ensures BuildRun(T_STRING, KeyTable(T_STRING), [0], LiveOf(pages), src).result ==
            Broken(IndexSplit.InsertResult.Overrun)
  {
    hide TextKeys, EntriesOf, Run, HeapOk, LiveOf, BuildRun, RowCosts, KeyItems, AllOf, RowCost;
    var ds := TextKeys();
    TextKeysFit(ds);
    TextRun(ds, src);
    KeyBuild(T_STRING, ds, src);
    pages := KeyHeap(T_STRING, ds);
  }

  lemma TextKeysFit(ds: seq<Datum>)
    requires ds == TextKeys()
    ensures AllOf(T_STRING, ds) && RowCosts(ds) <= Capacity(PAGE_SIZE)
  {
    hide TextKeys;
    SameRowCosts(61, ds);
  }

  lemma TextRun(ds: seq<Datum>, src: nat)
    requires ds == TextKeys() && src <= 1
    ensures Run(T_STRING, EntriesOf(ds), src).result == IndexSplit.InsertResult.Overrun
  {
    hide KeyOf, Entry, TextKeys, EntriesOf, IndexSplit.ItemCost, Run;
    var es := EntriesOf(ds);
    forall i: nat | i < 126
      ensures IndexSplit.ItemCost(es[i]) == 65
    {
      EntryFacts(i, StrD("thirteen char"), T_STRING);
    }
    UnsafeBuild(65, T_STRING, es, src);
  }

  // ----- a heap whose index hides it

  function Repeated(c: char, n: nat): (s: CString)
    requires 0 < c as int < 256
    ensures |s| == n && forall i :: 0 <= i < n ==> s[i] == c
  {
    seq(n, _ => c)
  }

  /** The texts "b", 8030 times "c", and "a". */
  function LongTextKeys(): (ds: seq<Datum>)
    ensures |ds| == 3
  {
    [StrD("b"), StrD(Repeated('c', 8030)), StrD("a")]
  }

  lemma LongTextFits() returns (pages: Pages)
    ensures HeapOk(pages, ColTypes(KeyTable(T_STRING))) && LiveOf(pages) == KeyItems(LongTextKeys())
  {
    hide HeapOk, LiveOf, KeyItems, Repeated, LongTextKeys, AllOf, RowCosts;
    LongTextFor(LongTextKeys());
    pages := KeyHeap(T_STRING, LongTextKeys());
  }

  /** CREATE INDEX over that page completes and leaves the first page of the chain without a key. */
  lemma LongTextBuild()
    ensures var run := BuildRun(T_STRING, KeyTable(T_STRING), [0], KeyItems(LongTextKeys()), 1);
            run.result == Built && IndexOrder.Keys(run.nodes[0]) == []
  {
    hide KeyOf, Entry, IndexSplit.ItemCost, Run, Repeated, BuildRun, EntriesOf, KeyItems, AllOf;
    var ds, long := LongTextKeys(), Repeated('c', 8030);
    var es := EntriesOf(ds);
    EntryFacts(0, StrD("b"), T_STRING);
    EntryFacts(1, StrD(long), T_STRING);
    EntryFacts(2, StrD("a"), T_STRING);
    assert StrLess("b", long) && !StrLess("b", "a");
    IndexInputs.EmptyPageBuilds(T_STRING, es);
    LongTextFor(ds);
    KeyBuild(T_STRING, ds, 1);
  }

  lemma LongTextFor(ds: seq<Datum>)
    requires ds == LongTextKeys()
    ensures AllOf(T_STRING, ds) && RowCosts(ds) <= Capacity(PAGE_SIZE)
  {
    hide Repeated;
    ThreeRows(ds);
  }

  /** From then on an index scan finds none of the three rows, whatever text it looks for. */
  method HiddenRows(table: HeapFile.Table, w: Expr.Where, s: CString)
    returns (built: BuildResult, ok: bool, rows: seq<Bytes>)
    requires table.Valid() && table.types == ColTypes(KeyTable(T_STRING))
    requires LiveOf(table.pages) == KeyItems(LongTextKeys())
    ensures built == Built && ok && rows == []
  {
    hide HeapOk, LiveOf, BuildRun, IndexEntries, Passing, FetchAll, StartEntries, Fresh, AllPoint, KeySorted, Keyed,
         BTreeIndex.NodesOf, BTreeIndex.Linked, KeyItems, ModifyScan.NoneStops, Starts;
    var cols := KeyTable(T_STRING);
    var index;
    LongTextBuild();
    built, index := BuildIndex(table, cols, [0], 1);
    BuiltIsFresh(table.pages, cols, [0], 1);
    IndexScanSorted(table.pages, w, cols, [0], StrD(s), index.View());
    var scan := new Scan(index, table, StrD(s), w, cols);
    NothingStarts(StrD(s), index.View());
    NothingPasses(w, cols, table.pages);
    ok, rows := scan.Drain();
  }

  lemma NothingStarts(k: Datum, nodes: IndexChain.Nodes)
    requires nodes != [] && IndexOrder.Keys(nodes[0]) == [] && TypeOf(k) == T_STRING
    ensures StartEntries(T_STRING, k, nodes) == [] && Starts(T_STRING, k, nodes)
  {
  }

  lemma ThreeRows(ds: seq<Datum>)
    requires |ds| == 3
    ensures RowCosts(ds) == RowCost(ds[0]) + RowCost(ds[1]) + RowCost(ds[2])
  {
    hide RowCost;
    var two := ds[..2];
    var one := two[..1];
    assert one[..0] == [] && one[0] == ds[0] && two[1] == ds[1];
    assert RowCosts(one) == RowCosts([]) + RowCost(ds[0]) && RowCosts(two) == RowCosts(one) + RowCost(ds[1]);
  }

  // ----- an index on a column of another type than the first

  /** A table (a int, b bool). */
  function TwoTypes(): seq<ColDesc> {
    [ColDesc("a", T_INT), ColDesc("b", T_BOOL)]
  }

  function TwoTypeRows(): seq<Row> {
    [[IntD(1), BoolD(true)], [IntD(2), BoolD(false)]]
  }

  lemma TwoCellSize(n: Int32, b: bool)
    ensures RowSize([IntD(n), BoolD(b)]) == 63
  {
    var cells := RowCells([IntD(n), BoolD(b)]);
    assert cells[..1][..0] == [] && cells[..1][0] == cells[0];
    assert Joint(cells) == Joint(cells[..1]) + cells[1] && Joint(cells[..1]) == Joint(cells[..1][..0]) + cells[0];
  }

  lemma TwoTypeCosts()
    ensures RowsCost(TwoTypeRows()) == 138
    ensures ColTypes(TwoTypes()) == [T_INT, T_BOOL] && IndexCols(TwoTypes(), [1])
    ensures forall i :: 0 <= i < 2 ==> Conforms(TwoTypeRows()[i], [T_INT, T_BOOL]) && RowSize(TwoTypeRows()[i]) == 63
  {
    hide RowSize;
    var rows := TwoTypeRows();
    TwoCellSize(1, true);
    TwoCellSize(2, false);
    assert rows[..1][..0] == [] && rows[..1][0] == rows[0];
    assert RowsCost(rows) == RowsCost(rows[..1]) + RowSize(rows[1]) + LOC_SIZE;
    assert RowsCost(rows[..1]) == RowsCost(rows[..1][..0]) + RowSize(rows[0]) + LOC_SIZE;
  }

  /** CREATE INDEX on b, over a heap with these two rows, stops when it searches for the second one. */
  lemma WrongKeyHeap(src: nat) returns (pages: Pages)
    requires src <= 1
    ensures HeapOk(pages, ColTypes(TwoTypes())) && LiveOf(pages) == RowItems(TwoTypeRows())
    ensures IndexCols(TwoTypes(), [1])
    ensures BuildRun(T_BOOL, TwoTypes(), [1], LiveOf(pages), src).result == WrongKeyType
  {
    hide HeapOk, LiveOf, RowsCost, BuildRun, IndexEntry, ModifyScan.StoredRow, RowTuple, ItemOf, RowSize, TupleOf,
         RowOf,
         StoredAt, Conforms;
    var cols, rows, types := TwoTypes(), TwoTypeRows(), [T_INT, T_BOOL];
    TwoTypeCosts();
    pages := RowHeap(types, rows);
    var bs := RowItems(rows);
    TwoTypeItem(0);
    TwoTypeItem(1);
    WrongKeyExactly(T_BOOL, cols, [1], bs, src);
  }

  lemma TwoTypeItem(i: nat)
    requires i < 2
    ensures var b := RowItems(TwoTypeRows())[i];
            && Project(ModifyScan.StoredRow(b, TwoTypes()), [1])[0] == TwoTypeRows()[i][1]
            && |IndexEntry(TwoTypes(), [1], b)| == 46
  {
    hide ItemOf, TupleOf, RowOf, StoredAt, RowTuple, RowSize, Conforms, NamedTuple, EntryBytes, RowItems;
    TwoTypeCosts();
    var b, row := RowItems(TwoTypeRows())[i], TwoTypeRows()[i];
    RowStored([T_INT, T_BOOL], row, i);
    assert ModifyScan.StoredRow(b, TwoTypes()) == row;
    assert KeyCols(TwoTypes(), [1]) == [ColDesc("b", T_BOOL)] && Project(row, [1]) == [row[1]];
    NamedUnique([ColDesc("b", T_BOOL)], [row[1]]);
    EntrySize(TupleOf(b).tid, row[1]);
  }
}
