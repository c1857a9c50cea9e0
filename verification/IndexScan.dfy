/** The forward index scan, and its agreement with the filtered sequential scan. */
module IndexScan {
  import opened PageLayout
  import PageBuffer
  import opened Types
  import opened Schema
  import opened Codec
  import opened Expr
  import opened Heap
  import HeapFile
  import opened ModifyScan
  import opened IndexOrder
  import IndexSplit
  import opened IndexChain
  import opened IndexMachine
  import IndexNode
  import opened IndexRuns
  import opened BTreeIndex
  import IndexInputs
  import opened CreateIndex

  // ----- what lies ahead of an index cursor

  /** The entries along the right links, up to a page without keys: there the scan finds no item and ends. */
  function Reach(nodes: Nodes): seq<Bytes> {
    if nodes == [] || Keys(nodes[0]) == [] then [] else Keys(nodes[0]) + Reach(nodes[1..])
  }

  /** The entries from slot t of page i on. */
  function EntriesFrom(nodes: Nodes, i: nat, t: nat): seq<Bytes> {
    if i >= |nodes| then [] else (if t <= |nodes[i]| then nodes[i][t..] else []) + Reach(nodes[i + 1..])
  }

  /** Where BTreeFirst starts: the lower bound on page 1. It does not move right, so if every key there
      is below k it finds nothing. */
  function StartEntries(kt: BType, k: Datum, nodes: Nodes): seq<Bytes> {
    if nodes == [] then [] else
      var p := Pos(kt, k, Keys(nodes[0]));
      if p < |Keys(nodes[0])| then EntriesFrom(nodes, 0, p + 1) else []
  }

  lemma StepInPage(nodes: Nodes, i: nat, t: nat)
    requires i < |nodes| && t < |nodes[i]|
    ensures EntriesFrom(nodes, i, t) == [nodes[i][t]] + EntriesFrom(nodes, i, t + 1)
  {
    hide Reach;
    var page, rest := nodes[i], Reach(nodes[i + 1..]);
    assert page[t..] == [page[t]] + page[t + 1..];
    assert page[t..] + rest == [page[t]] + (page[t + 1..] + rest);
  }

  lemma StepToPage(nodes: Nodes, i: nat)
    requires i < |nodes|
    ensures i + 1 < |nodes| && |nodes[i + 1]| >= 2 ==> EntriesFrom(nodes, i, |nodes[i]|) == EntriesFrom(nodes, i + 1, 1)
    ensures i + 1 == |nodes| || |nodes[i + 1]| <= 1 ==> EntriesFrom(nodes, i, |nodes[i]|) == []
  {
    var none, rest := nodes[i][|nodes[i]|..], nodes[i + 1..];
    assert none == [] && none + Reach(rest) == Reach(rest);
    if i + 1 < |nodes| {
      assert rest[0] == nodes[i + 1] && rest[1..] == nodes[i + 2..];
    }
  }

  /** Where the entry after slot t of page i is: on the same page, first on the next, or nowhere. */
  lemma NextIs(nodes: Nodes, i: nat, t: nat)
    requires i < |nodes| && t < |nodes[i]|
    ensures t + 1 < |nodes[i]| ==> EntriesFrom(nodes, i, t + 1) == [nodes[i][t + 1]] + EntriesFrom(nodes, i, t + 2)
    ensures t + 1 == |nodes[i]| && (i + 1 == |nodes| || |nodes[i + 1]| <= 1) ==> EntriesFrom(nodes, i, t + 1) == []
    ensures t + 1 == |nodes[i]| && i + 1 < |nodes| && |nodes[i + 1]| >= 2 ==>
              EntriesFrom(nodes, i, t + 1) == [nodes[i + 1][1]] + EntriesFrom(nodes, i + 1, 2)
  {
    hide EntriesFrom;
    if t + 1 < |nodes[i]| {
      StepInPage(nodes, i, t + 1);
    } else {
      StepToPage(nodes, i);
      if i + 1 < |nodes| && |nodes[i + 1]| >= 2 {
        StepInPage(nodes, i + 1, 1);
      }
    }
  }

  /** What is reached is the front of the chain's entries, and all of them if no page is without keys. */
  lemma {:induction false} ReachFront(nodes: Nodes) returns (q: nat)
    ensures q <= |ChainKeys(nodes)| && Reach(nodes) == ChainKeys(nodes)[..q]
    ensures NoneEmpty(nodes) ==> q == |ChainKeys(nodes)|
  {
    hide ChainKeys, Keys;
    if nodes == [] {
      ChainEmpty();
      q := 0;
    } else {
      var keys, rest := Keys(nodes[0]), nodes[1..];
      ChainFrom(nodes, 0);
      assert nodes[0..] == nodes;
      FirstHasKeys(nodes);
      if keys == [] {
        q := 0;
      } else {
        var q' := ReachFront(rest);
        q := |keys| + q';
        assert (keys + ChainKeys(rest))[..q] == keys + ChainKeys(rest)[..q'];
      }
    }
  }

  lemma FirstHasKeys(nodes: Nodes)
    requires nodes != []
    ensures NoneEmpty(nodes) ==> Keys(nodes[0]) != [] && NoneEmpty(nodes[1..])
  {
  }

  lemma ChainFrom(nodes: Nodes, i: nat)
    requires i < |nodes|
    ensures ChainKeys(nodes[i..]) == Keys(nodes[i]) + ChainKeys(nodes[i + 1..])
  {
    hide ChainKeys, Keys;
    var rest := nodes[i..];
    ChainAt(rest, 0);
    ChainEmpty();
    assert rest[..0] == [] && rest[1..] == nodes[i + 1..] && rest[0] == nodes[i];
  }

  // ----- fetching and filtering

  /** The tuple an entry points at, dead or not, as PageGetItem returns it. */
  predicate Points(pages: Pages, e: Bytes) {
    PointerOf(e).page < |pages| && PointerOf(e).loc < |pages[PointerOf(e).page].locs|
  }

  function Fetch(pages: Pages, e: Bytes): Bytes {
    if Points(pages, e) then Slots(pages[PointerOf(e).page])[PointerOf(e).loc] else []
  }

  function FetchAll(pages: Pages, es: seq<Bytes>): (r: seq<Bytes>)
    ensures |r| == |es|
    ensures forall i :: 0 <= i < |r| ==> r[i] == Fetch(pages, es[i])
  {
    seq(|es|, i requires 0 <= i < |es| => Fetch(pages, es[i]))
  }

  ghost predicate AllPoint(pages: Pages, es: seq<Bytes>) {
    forall i :: 0 <= i < |es| ==> Points(pages, es[i])
  }

  /** The tuples a where clause passes, in order. */
  function Passing(w: Where, cols: seq<ColDesc>, bs: seq<Bytes>): seq<Bytes> {
    if bs == [] then [] else (if TestItem(w, cols, bs[0]) == Passes then [bs[0]] else []) + Passing(w, cols, bs[1..])
  }

  /** What pulling on these tuples one by one delivers, and whether it comes to the end. */
  datatype Pulling = Pulling(tuples: seq<Bytes>, ok: bool)

  function Pulled(w: Where, cols: seq<ColDesc>, bs: seq<Bytes>): Pulling {
    if bs == [] then Pulling([], true) else
      var rest := Pulled(w, cols, bs[1..]);
      match TestItem(w, cols, bs[0])
      case Stops => Pulling([], false)
      case Rejected => rest
      case Passes => Pulling([bs[0]] + rest.tuples, rest.ok)
  }

  lemma PulledFirst(w: Where, cols: seq<ColDesc>, b: Bytes, bs: seq<Bytes>)
    ensures Pulled(w, cols, [b] + bs) ==
            match TestItem(w, cols, b)
            case Stops => Pulling([], false)
            case Rejected => Pulled(w, cols, bs)
            case Passes => Pulling([b] + Pulled(w, cols, bs).tuples, Pulled(w, cols, bs).ok)
    ensures Pulled(w, cols, []) == Pulling([], true)
  {
    hide TestItem;
    assert ([b] + bs)[1..] == bs;
  }

  /** It is those that pass among the tuples before the first on which the where clause cannot be decided, and
      it comes to the end exactly if there is none such. */
  lemma {:induction false} PulledMeaning(w: Where, cols: seq<ColDesc>, bs: seq<Bytes>)
    ensures var n := Decidable(w, cols, bs); Pulled(w, cols, bs) == Pulling(Passing(w, cols, bs[..n]), n == |bs|)
    ensures Pulled(w, cols, bs).ok <==> NoneStops(w, cols, bs)
    ensures Pulled(w, cols, bs).ok ==> Pulled(w, cols, bs).tuples == Passing(w, cols, bs)
  {
    hide TestItem;
    var n := Decidable(w, cols, bs);
    if bs != [] && TestItem(w, cols, bs[0]) != Stops {
      PulledMeaning(w, cols, bs[1..]);
      assert bs[..n][1..] == bs[1..][..n - 1] && bs[..n][0] == bs[0];
    }
    assert n == |bs| ==> bs[..n] == bs;
  }

  lemma FetchFirst(pages: Pages, e: Bytes, es: seq<Bytes>)
    ensures FetchAll(pages, [e] + es) == [Fetch(pages, e)] + FetchAll(pages, es)
  {
    hide Fetch, FetchAll;
    var whole, parts := FetchAll(pages, [e] + es), [Fetch(pages, e)] + FetchAll(pages, es);
    forall i | 0 <= i < |whole|
      ensures whole[i] == parts[i]
    {
      assert ([e] + es)[i] == if i == 0 then e else es[i - 1];
    }
  }

  /** A search compares its key with every key of the chain and with the high keys of all pages but the last;
      none of them is null, so that the comparison function can look at it. */
  ghost predicate Keyed(kt: BType, nodes: Nodes) {
    forall i, j :: 0 <= i < |nodes| && 0 <= j < |nodes[i]| && (j > 0 || i < |nodes| - 1) ==>
      KeyOf(kt, nodes[i][j]) != NullD
  }

  /** The boundary key has a comparison function, and no comparison on the first page is between types. */
  predicate Starts(kt: BType, k: Datum, nodes: Nodes) {
    k != NullD && (Searched(nodes) ==> TypeOf(k) == kt)
  }

  /** What a scan delivers from its start on: nothing if it does not get past the type assertions. */
  function ScanOf(kt: BType, k: Datum, nodes: Nodes, w: Where, cols: seq<ColDesc>, pages: Pages): Pulling {
    if Starts(kt, k, nodes) then Pulled(w, cols, FetchAll(pages, StartEntries(kt, k, nodes))) else Pulling([], false)
  }

  datatype Pull = Tuple(b: Bytes) | Exhausted | Aborted

  datatype Visit = At(e: Bytes) | NoMore | Mistyped

  /** The IndexScan node with its IndexCursor. */
  class Scan {
    const index: Index
    const table: HeapFile.Table
    const k: Datum
    const w: Where
    const cols: seq<ColDesc>
    var pageId: nat
    var tupleId: nat
    ghost var at: nat

    /** IndexCursorInit. */
    constructor (index: Index, table: HeapFile.Table, k: Datum, w: Where, cols: seq<ColDesc>)
      ensures this.index == index && this.table == table && this.k == k && this.w == w && this.cols == cols
      ensures pageId == NULL_PAGE
    {
      this.index, this.table, this.k, this.w, this.cols := index, table, k, w, cols;
      pageId, tupleId, at := NULL_PAGE, 0, 0;
    }

    /** The index's entries have keys and point at slots that exist, and a cursor that has started stands on
        an entry. */
    ghost predicate Valid()
      reads this, index, table
    {
      && index.Valid() && HeapOk(table.pages, table.types)
      && Keyed(index.kt, index.View())
      && AllPoint(table.pages, ChainKeys(index.View()))
      && (pageId != NULL_PAGE ==>
            index.pages[0].info.root == ROOT_ID && at < |index.chain| && index.chain[at] == pageId
            && 1 <= tupleId < |index.View()[at]|)
    }

    /** The entries the cursor has still to visit. */
    ghost function Ahead(): seq<Bytes>
      requires index.Valid()
      reads this, index
    {
      if pageId == NULL_PAGE then StartEntries(index.kt, k, index.View())
        else EntriesFrom(index.View(), at, tupleId + 1)
    }

    /** What it has still to deliver. */
    ghost function Rem(): Pulling
      requires index.Valid()
      reads this, index, table
    {
      if pageId == NULL_PAGE then ScanOf(index.kt, k, index.View(), w, cols, table.pages)
        else Pulled(w, cols, FetchAll(table.pages, Ahead()))
    }

    /** BTreeFirst. The search asserts that the boundary key has the type of the keys it meets. */
    method First() returns (r: Visit)
      requires Valid() && pageId == NULL_PAGE && k != NullD
      modifies this, index
      ensures index.Valid() && index.View() == old(index.View())
      ensures r.Mistyped? <==> !Starts(index.kt, k, index.View())
      ensures r.At? ==> Valid() && pageId != NULL_PAGE && old(Ahead()) == [r.e] + Ahead()
      ensures r.NoMore? ==> old(Ahead()) == []
    {
      hide Linked, NodesOf, Slots, ValidImage, IndexNode.NodeImage, FRESH, Pos, KeyGt, ChainKeys, HeapOk, InsertionIdx,
           AllPoint,
           EntriesFrom, LinkAt, NoneEmpty, Keyed;
      ghost var nodes := index.View();
      pageId := index.EnsureRoot();
      at := 0;
      ChainStart(index.pages, index.chain);
      PageOfChain(index, 0);
      var compares := index.Compares();
      if compares && TypeOf(k) != index.kt {
        return Mistyped;
      }
      tupleId := IdxOn(pageId);
      StartIdx(index.kt, k, nodes[0], |nodes| == 1);
      if tupleId == HIGH_KEY || tupleId == |index.pages[pageId].locs| {
        return NoMore;
      }
      r := At(ItemOn(pageId, tupleId));
      StepInPage(nodes, 0, tupleId);
    }

    /** GetInsertionIdx on a page of the index. */
    method IdxOn(id: nat) returns (idx: nat)
      requires id < |index.pages| && IndexNode.NodeImage(index.pages[id])
      ensures |Slots(index.pages[id])| >= 1 && index.pages[id].info.NodeInfo?
      ensures idx == InsertionIdx(index.kt, k, Slots(index.pages[id]), index.pages[id].info.right == NULL_PAGE)
    {
      hide Slots, ValidImage, IndexNode.NodeImage, Pos, KeyGt, InsertionIdx;
      IndexNode.NodeFacts(index.pages[id]);
      var page := new PageBuffer.Page.Read(index.pages[id]);
      idx := IndexNode.FindIdx(page, index.kt, k);
    }

    /** BTreeGetNext, forward. */
    method Next() returns (r: Visit)
      requires Valid() && pageId != NULL_PAGE
      modifies this
      ensures r.At? ==> Valid() && pageId != NULL_PAGE && old(Ahead()) == [r.e] + Ahead()
      ensures !r.At? ==> r.NoMore? && old(Ahead()) == []
    {
      hide Linked, NodesOf, Slots, ValidImage, IndexNode.NodeImage, FRESH, ChainKeys, HeapOk, AllPoint, EntriesFrom,
           LinkAt,
           NoneEmpty, Keyed;
      PageOfChain(index, at);
      PageOfNext(index, at);
      NextIs(index.View(), at, tupleId);
      tupleId := tupleId + 1;
      if tupleId >= |index.pages[pageId].locs| {
        pageId := index.pages[pageId].info.right;
        if pageId == NULL_PAGE {
          return NoMore;
        }
        at := at + 1;
        PageOfChain(index, at);
        tupleId := FirstKey(index.pages[pageId].info.flags);
        if tupleId >= |index.pages[pageId].locs| {
          return NoMore;
        }
      }
      r := At(ItemOn(pageId, tupleId));
    }

    /** IdxScan: step until a tuple passes the where clause. */
    method GetNext() returns (r: Pull)
      requires Valid() && k != NullD
      modifies this, index
      ensures index.Valid() && index.View() == old(index.View())
      ensures r.Tuple? <==> old(Rem()).tuples != []
      ensures r.Tuple? ==> Valid() && pageId != NULL_PAGE && old(Rem()) == Pulling([r.b] + Rem().tuples, Rem().ok)
      ensures r.Exhausted? <==> old(Rem()) == Pulling([], true)
      ensures r.Aborted? <==> old(Rem()) == Pulling([], false)
    {
      hide Linked, NodesOf, HeapOk, AllPoint, KeysKept, Keyed, EntriesFrom, StartEntries, Pulled, FetchAll, Fetch,
           TestItem, FRESH, ValidImage, NoneStops, Starts;
      NothingPasses(w, cols, table.pages);
      while true
        invariant Valid() && index.View() == old(index.View())
        invariant Rem() == old(Rem())
        decreases |Ahead()|
      {
        var step;
        if pageId == NULL_PAGE {
          step := First();
        } else {
          step := Next();
        }
        if step.Mistyped? {
          return Aborted;
        }
        if step.NoMore? {
          return Exhausted;
        }
        FetchFirst(table.pages, step.e, Ahead());
        var b := Fetch(table.pages, step.e);
        PulledFirst(w, cols, b, FetchAll(table.pages, Ahead()));
        match TestItem(w, cols, b) {
          case Stops => return Aborted;
          case Rejected =>
          case Passes => return Pull.Tuple(b);
        }
      }
    }

    /** ExecPlan's loop: initialise, which panics on a null boundary key, then pull until the scan is
        exhausted. */
    method Drain() returns (ok: bool, rows: seq<Bytes>)
      requires Valid() && pageId == NULL_PAGE
      modifies this, index
      ensures Pulling(rows, ok) == old(Rem())
    {
      hide Valid, Rem;
      rows := [];
      NullRem(this);
      assert Rem() == Pulling(rows + Rem().tuples, Rem().ok);
      if k == NullD {
        return false, rows;
      }
      while true
        invariant Valid() && index.Valid()
        invariant old(Rem()) == Pulling(rows + Rem().tuples, Rem().ok)
        decreases |Rem().tuples|
      {
        var r := GetNext();
        match r {
          case Aborted => return false, rows;
          case Exhausted => return true, rows;
          case Tuple(b) => rows := rows + [b];
        }
      }
    }

    /** PageGetItem on a page of the index. */
    function ItemOn(id: nat, slot: nat): Bytes
      requires id < |index.pages| && slot < |index.pages[id].locs|
      reads index
    {
      Slots(index.pages[id])[slot]
    }
  }

  lemma NullRem(scan: Scan)
    requires scan.Valid()
    ensures scan.index.Valid() && (scan.pageId == NULL_PAGE && scan.k == NullD ==> scan.Rem() == Pulling([], false))
  {
    hide Linked, NodesOf, HeapOk, AllPoint, Keyed, EntriesFrom, StartEntries, FetchAll, FRESH, ValidImage;
  }

  lemma PageOfChain(index: Index, i: nat)
    requires index.Valid() && index.pages[0].info.root == ROOT_ID && i < |index.chain|
    ensures var id := index.chain[i];
            && 1 <= id < |index.pages| && IndexNode.NodeImage(index.pages[id]) && ValidImage(index.pages[id])
            && index.pages[id].info.NodeInfo? && FirstKey(index.pages[id].info.flags) == 1
            && |index.View()| == |index.chain| && index.View()[i] == Slots(index.pages[id])
            && |index.pages[id].locs| >= 1
            && (index.pages[id].info.right == NULL_PAGE <==> i == |index.chain| - 1)
  {
    hide Linked, IndexNode.NodeImage, ValidImage, NodesOf, LinkAt;
    LinkedAt(index.pages, index.chain, i);
    IndexNode.NodeFacts(index.pages[index.chain[i]]);
  }

  lemma PageOfNext(index: Index, i: nat)
    requires index.Valid() && index.pages[0].info.root == ROOT_ID && i < |index.chain|
    ensures var id := index.chain[i];
            id < |index.pages| && index.pages[id].info.NodeInfo?
            && (index.pages[id].info.right != NULL_PAGE ==>
                  i + 1 < |index.chain| && index.pages[id].info.right == index.chain[i + 1])
  {
    hide Linked, IndexNode.NodeImage, ValidImage, NodesOf, LinkAt, Slots, FRESH;
    LinkedAt(index.pages, index.chain, i);
    if i + 1 < |index.chain| {
      LinkedAt(index.pages, index.chain, i + 1);
    }
  }

  lemma StartIdx(kt: BType, k: Datum, slots: seq<Bytes>, rightmost: bool)
    requires |slots| >= 1
    ensures var p := Pos(kt, k, Keys(slots));
            var idx := InsertionIdx(kt, k, slots, rightmost);
            && |Keys(slots)| == |slots| - 1
            && (p < |slots| - 1 ==> idx == p + 1)
            && (p == |slots| - 1 ==> idx == HIGH_KEY || idx == |slots|)
  {
    hide Pos, KeyGt;
  }

  lemma NothingPasses(w: Where, cols: seq<ColDesc>, pages: Pages)
    ensures FetchAll(pages, []) == [] && Passing(w, cols, []) == [] && Pulled(w, cols, []) == Pulling([], true)
  {
  }

  // ----- agreement with the filtered sequential scan

  lemma FetchEntry(pages: Pages, cols: seq<ColDesc>, idxs: seq<nat>, b: Bytes)
    requires HeapOk(pages, ColTypes(cols)) && b in LiveOf(pages)
    ensures Points(pages, IndexEntry(cols, idxs, b)) && Fetch(pages, IndexEntry(cols, idxs, b)) == b
  {
    hide HeapOk, LiveOf, TupleOf, StoredAt, EntryBytes, PointerOf, Slots, Dead, StoredRow, KeyTuple;
    LiveStored(pages, ColTypes(cols), b);
    var p: nat, s: nat :| Lookup(pages, p, s) == Found.Tuple(b) && StoredAt(b, ColTypes(cols), p, s);
    StoredFacts(b, ColTypes(cols), p, s);
    EntryParts(TupleId(p, s), KeyTuple(cols, idxs, StoredRow(b, cols)));
  }

  /** The key a stored tuple is indexed under. */
  function RowKey(cols: seq<ColDesc>, idxs: seq<nat>, b: Bytes): Datum
    requires idxs != []
  {
    Project(StoredRow(b, cols), idxs)[0]
  }

  lemma EntryKey(pages: Pages, cols: seq<ColDesc>, idxs: seq<nat>, b: Bytes)
    requires HeapOk(pages, ColTypes(cols)) && b in LiveOf(pages) && IndexCols(cols, idxs)
    requires |IndexEntry(cols, idxs, b)| < PAGE_SIZE
    ensures KeyOf(KeyType(cols, idxs), IndexEntry(cols, idxs, b)) == RowKey(cols, idxs, b)
  {
    hide HeapOk, LiveOf, TupleOf, StoredAt, EntryBytes, KeyOf, Lookup, RowOf, KeyTuple, GetCol, Shaped, Project;
    LiveStored(pages, ColTypes(cols), b);
    var p: nat, s: nat :| Lookup(pages, p, s) == Found.Tuple(b) && StoredAt(b, ColTypes(cols), p, s);
    StoredFacts(b, ColTypes(cols), p, s);
    var t, types := KeyTuple(cols, idxs, StoredRow(b, cols)), ColTypes(KeyCols(cols, idxs));
    KeyTupleMeaning(cols, idxs, StoredRow(b, cols));
    ShapedWidth(t, types);
    ShapedSize(t, types);
    WellFormedStorable(t);
    EntryRoundTrip(TupleId(p, s), t, KeyType(cols, idxs));
  }

  lemma ShapedSize(t: Tuple, types: seq<BType>)
    requires Shaped(t, types)
    ensures |t.nulls| == |t.locs| && |TupleBytes(t)| == t.length
  {
    hide ColFits, Cell, Joint, LocsOf;
  }

  lemma FetchLast(pages: Pages, es: seq<Bytes>)
    requires es != []
    ensures var n := |es| - 1; FetchAll(pages, es) == FetchAll(pages, es[..n]) + [Fetch(pages, es[n])]
  {
    hide Fetch;
  }

  lemma EntriesRemove(cols: seq<ColDesc>, idxs: seq<nat>, bs: seq<Bytes>, j: nat)
    requires j < |bs|
    ensures IndexEntries(cols, idxs, RemoveAt(bs, j)) == RemoveAt(IndexEntries(cols, idxs, bs), j)
  {
    hide IndexEntry;
  }

  lemma FindEntry<T>(es: seq<T>, fs: seq<T>) returns (j: nat)
    requires es != [] && multiset(es) == multiset(fs)
    ensures j < |fs| && fs[j] == es[|es| - 1]
  {
    assert es[|es| - 1] in multiset(fs);
    j :| 0 <= j < |fs| && fs[j] == es[|es| - 1];
  }

  /** Fetching a permutation of the entries of live tuples gives a permutation of the live tuples. */
  lemma {:induction false} FetchPermutes(pages: Pages, cols: seq<ColDesc>, idxs: seq<nat>, es: seq<Bytes>,
                                         bs: seq<Bytes>)
    requires HeapOk(pages, ColTypes(cols)) && forall b :: b in bs ==> b in LiveOf(pages)
    requires multiset(es) == multiset(IndexEntries(cols, idxs, bs))
    ensures multiset(FetchAll(pages, es)) == multiset(bs)
  {
    hide HeapOk, LiveOf, IndexEntry, Fetch, FetchAll, RemoveAt, Points;
    var entries := IndexEntries(cols, idxs, bs);
    assert |multiset(es)| == |es| && |multiset(entries)| == |entries|;
    if es == [] {
      assert bs == [];
      NothingPasses(NoWhere, cols, pages);
    } else {
      var j := FindEntry(es, entries);
      FetchEntry(pages, cols, idxs, bs[j]);
      EntriesRemove(cols, idxs, bs, j);
      RemoveMultiset(entries, j);
      RemoveMultiset(bs, j);
      LastOut(es);
      RemoveSubset(bs, j);
      FetchPermutes(pages, cols, idxs, es[..|es| - 1], RemoveAt(bs, j));
      FetchLast(pages, es);
      assert bs[j] in bs;
    }
  }

  lemma RemoveSubset<T>(s: seq<T>, j: nat)
    requires j < |s|
    ensures forall x :: x in RemoveAt(s, j) ==> x in s
  {
  }

  lemma PassingStep(w: Where, cols: seq<ColDesc>, b: Bytes, bs: seq<Bytes>)
    ensures Passing(w, cols, [b] + bs) == (if TestItem(w, cols, b) == Passes then [b] else []) + Passing(w, cols, bs)
    ensures Passing(w, cols, []) == []
  {
    hide TestItem;
    assert ([b] + bs)[1..] == bs;
  }

  lemma {:induction false} PassingCount(w: Where, cols: seq<ColDesc>, bs: seq<Bytes>, x: Bytes)
    ensures multiset(Passing(w, cols, bs))[x] == if TestItem(w, cols, x) == Passes then multiset(bs)[x] else 0
  {
    hide TestItem, Passing;
    if bs == [] {
      PassingStep(w, cols, x, bs);
    } else {
      var first := if TestItem(w, cols, bs[0]) == Passes then [bs[0]] else [];
      PassingCount(w, cols, bs[1..], x);
      PassingStep(w, cols, bs[0], bs[1..]);
      CountConcat(first, Passing(w, cols, bs[1..]), x);
      CountConcat([bs[0]], bs[1..], x);
      assert bs == [bs[0]] + bs[1..];
    }
  }

  lemma PassingPermutes(w: Where, cols: seq<ColDesc>, s: seq<Bytes>, t: seq<Bytes>)
    requires multiset(s) == multiset(t)
    ensures multiset(Passing(w, cols, s)) == multiset(Passing(w, cols, t))
  {
    hide TestItem, Passing;
    forall x
      ensures multiset(Passing(w, cols, s))[x] == multiset(Passing(w, cols, t))[x]
    {
      PassingCount(w, cols, s, x);
      PassingCount(w, cols, t, x);
    }
  }

  lemma {:induction false} PassingConcat(w: Where, cols: seq<ColDesc>, s: seq<Bytes>, t: seq<Bytes>)
    ensures Passing(w, cols, s + t) == Passing(w, cols, s) + Passing(w, cols, t)
  {
    hide TestItem, Passing;
    if s == [] {
      PassingStep(w, cols, [], s);
      assert s + t == t && [] + Passing(w, cols, t) == Passing(w, cols, t);
    } else {
      PassingConcat(w, cols, s[1..], t);
      PassingStep(w, cols, s[0], s[1..]);
      PassingStep(w, cols, s[0], s[1..] + t);
      assert s == [s[0]] + s[1..] && s + t == [s[0]] + (s[1..] + t);
    }
  }

  lemma FetchConcat(pages: Pages, s: seq<Bytes>, t: seq<Bytes>)
    ensures FetchAll(pages, s + t) == FetchAll(pages, s) + FetchAll(pages, t)
  {
    hide Fetch;
  }

  lemma {:induction false} NonePasses(w: Where, cols: seq<ColDesc>, bs: seq<Bytes>)
    ensures Passing(w, cols, bs) == [] <==> forall b :: b in bs ==> TestItem(w, cols, b) != Passes
  {
    hide TestItem;
    if bs != [] {
      NonePasses(w, cols, bs[1..]);
      assert bs == [bs[0]] + bs[1..];
    }
  }

  /** An index that says what the heap says: in key order, exactly the entries of the live tuples. */
  ghost predicate Fresh(pages: Pages, cols: seq<ColDesc>, idxs: seq<nat>, nodes: Nodes) {
    && HeapOk(pages, ColTypes(cols)) && IndexCols(cols, idxs) && nodes != []
    && Sorted(KeyType(cols, idxs), ChainKeys(nodes))
    && NoNullKeys(cols, idxs, LiveOf(pages)) && AllFit(IndexEntries(cols, idxs, LiveOf(pages)))
    && multiset(ChainKeys(nodes)) == multiset(IndexEntries(cols, idxs, LiveOf(pages)))
  }

  /** The where clause passes no live tuple whose key is below the scan's boundary. */
  ghost predicate OnlyBeyond(pages: Pages, w: Where, cols: seq<ColDesc>, idxs: seq<nat>, k: Datum)
    requires idxs != []
  {
    forall b :: b in LiveOf(pages) && TestItem(w, cols, b) == Passes ==> !Gt(k, RowKey(cols, idxs, b))
  }

  /** Entry by entry: it belongs to a live tuple, fetches it, and carries its key. */
  lemma FreshEntry(pages: Pages, cols: seq<ColDesc>, idxs: seq<nat>, nodes: Nodes, e: Bytes)
    requires Fresh(pages, cols, idxs, nodes) && e in ChainKeys(nodes)
    ensures Points(pages, e) && Fetch(pages, e) in LiveOf(pages)
    ensures KeyOf(KeyType(cols, idxs), e) == RowKey(cols, idxs, Fetch(pages, e))
  {
    hide HeapOk, LiveOf, ChainKeys, Sorted, KeyOf, IndexEntry, RowKey, Fetch, Points;
    var es := IndexEntries(cols, idxs, LiveOf(pages));
    assert e in multiset(es);
    var i :| 0 <= i < |es| && es[i] == e;
    var b := LiveOf(pages)[i];
    FetchEntry(pages, cols, idxs, b);
    EntryKey(pages, cols, idxs, b);
  }

  /** What a scan still has to visit at its start: from the lower bound of the boundary key on, all entries up
      to the next page without keys, provided the leftmost page reaches that far; otherwise nothing. */
  lemma StartMeaning(kt: BType, k: Datum, nodes: Nodes) returns (q: nat)
    requires nodes != []
    ensures var p := Pos(kt, k, Keys(nodes[0]));
            && p <= |Keys(nodes[0])| <= q <= |ChainKeys(nodes)|
            && (KeysKept(nodes) ==> q == |ChainKeys(nodes)|)
            && (forall i :: 0 <= i < p ==> KeyGt(kt, k, ChainKeys(nodes)[i]))
            && StartEntries(kt, k, nodes) == if p < |Keys(nodes[0])| then ChainKeys(nodes)[p..q] else []
  {
    hide Pos, KeyGt, ChainKeys, Reach;
    ChainFrom(nodes, 0);
    assert nodes[0..] == nodes;
    var keys, rest := Keys(nodes[0]), nodes[1..];
    var q' := ReachFront(rest);
    q := |keys| + q';
    if KeysKept(nodes) {
      KeptBehind(nodes);
    }
    var p := Pos(kt, k, keys);
    assert (keys + ChainKeys(rest))[p..q] == keys[p..] + ChainKeys(rest)[..q'];
    if p < |keys| {
      assert nodes[0][p + 1..] == keys[p..];
    }
  }

  lemma KeptBehind(nodes: Nodes)
    requires nodes != [] && KeysKept(nodes)
    ensures NoneEmpty(nodes[1..])
  {
  }

  /** The index scan against the filtered sequential scan. On a fresh index, for a where clause that
      passes nothing below the boundary key, both deliver the same tuples as a multiset if and only if
      some key on the leftmost page reaches the boundary, or nothing passes at all; provided no page but the
      root of an empty index is without keys. */
  lemma IndexScanRefines(pages: Pages, w: Where, cols: seq<ColDesc>, idxs: seq<nat>, k: Datum, nodes: Nodes)
    requires Fresh(pages, cols, idxs, nodes) && KeysKept(nodes) && OnlyBeyond(pages, w, cols, idxs, k)
    ensures var kt := KeyType(cols, idxs);
            var indexed := Passing(w, cols, FetchAll(pages, StartEntries(kt, k, nodes)));
            var filtered := Passing(w, cols, LiveOf(pages));
            multiset(indexed) == multiset(filtered) <==> Pos(kt, k, Keys(nodes[0])) < |Keys(nodes[0])| || filtered == []
  {
    hide HeapOk, LiveOf, ChainKeys, Sorted, KeyOf, IndexEntry, RowKey, Fetch, Points, Pos, TestItem, Passing, FetchAll,
         StartEntries, Keys, Gt, Project, StoredRow;
    var kt := KeyType(cols, idxs);
    var all := ChainKeys(nodes);
    var q := StartMeaning(kt, k, nodes);
    assert all[..q] == all;
    NothingPasses(w, cols, pages);
    var p := Pos(kt, k, Keys(nodes[0]));
    var filtered := Passing(w, cols, LiveOf(pages));
    FetchPermutes(pages, cols, idxs, all, LiveOf(pages));
    PassingPermutes(w, cols, FetchAll(pages, all), LiveOf(pages));
    if p < |Keys(nodes[0])| {
      SkippedFail(pages, w, cols, idxs, k, nodes, p);
      assert all == all[..p] + all[p..];
      FetchConcat(pages, all[..p], all[p..]);
      PassingConcat(w, cols, FetchAll(pages, all[..p]), FetchAll(pages, all[p..]));
      assert [] + Passing(w, cols, FetchAll(pages, all[p..])) == Passing(w, cols, FetchAll(pages, all[p..]));
    } else {
      assert |multiset(filtered)| == |filtered|;
    }
  }

  lemma SkippedFail(pages: Pages, w: Where, cols: seq<ColDesc>, idxs: seq<nat>, k: Datum, nodes: Nodes, p: nat)
    requires Fresh(pages, cols, idxs, nodes) && OnlyBeyond(pages, w, cols, idxs, k)
    requires p <= |ChainKeys(nodes)| && forall i :: 0 <= i < p ==> KeyGt(KeyType(cols, idxs), k, ChainKeys(nodes)[i])
    ensures Passing(w, cols, FetchAll(pages, ChainKeys(nodes)[..p])) == []
  {
    hide Fresh, LiveOf, ChainKeys, KeyOf, RowKey, Fetch, Points, TestItem, Passing, Gt, IndexEntry;
    var skipped := ChainKeys(nodes)[..p];
    var bs := FetchAll(pages, skipped);
    forall b | b in bs
      ensures TestItem(w, cols, b) != Passes
    {
      var i :| 0 <= i < |bs| && bs[i] == b;
      FreshEntry(pages, cols, idxs, nodes, skipped[i]);
    }
    NonePasses(w, cols, bs);
  }

  ghost predicate KeySorted(cols: seq<ColDesc>, idxs: seq<nat>, bs: seq<Bytes>)
    requires idxs != []
  {
    forall i, j :: 0 <= i < j < |bs| ==> !Gt(RowKey(cols, idxs, bs[i]), RowKey(cols, idxs, bs[j]))
  }

  lemma {:induction false} PassingSorted(w: Where, cols: seq<ColDesc>, idxs: seq<nat>, bs: seq<Bytes>)
    requires idxs != [] && KeySorted(cols, idxs, bs)
    ensures KeySorted(cols, idxs, Passing(w, cols, bs))
    ensures forall b :: b in Passing(w, cols, bs) ==> b in bs
  {
    hide TestItem, Gt, RowKey;
    if bs != [] {
      assert forall i :: 0 <= i < |bs| - 1 ==> bs[1..][i] == bs[i + 1];
      PassingSorted(w, cols, idxs, bs[1..]);
      forall b | b in Passing(w, cols, bs[1..])
        ensures !Gt(RowKey(cols, idxs, bs[0]), RowKey(cols, idxs, b))
      {
        var j :| 0 <= j < |bs| - 1 && bs[1..][j] == b;
        assert bs[j + 1] == b;
      }
    }
  }

  /** The scan of a fresh index delivers its tuples in ascending key order, and every entry it visits
      points at a slot that exists. */
  lemma IndexScanSorted(pages: Pages, w: Where, cols: seq<ColDesc>, idxs: seq<nat>, k: Datum, nodes: Nodes)
    requires Fresh(pages, cols, idxs, nodes)
    ensures KeySorted(cols, idxs, Passing(w, cols, FetchAll(pages, StartEntries(KeyType(cols, idxs), k, nodes))))
    ensures AllPoint(pages, ChainKeys(nodes))
  {
    hide HeapOk, LiveOf, ChainKeys, KeyOf, IndexEntry, RowKey, Fetch, Points, Pos, TestItem, Passing, StartEntries, Gt;
    var kt, all := KeyType(cols, idxs), ChainKeys(nodes);
    var q := StartMeaning(kt, k, nodes);
    forall i | 0 <= i < |all|
      ensures Points(pages, all[i]) && KeyOf(kt, all[i]) == RowKey(cols, idxs, Fetch(pages, all[i]))
    {
      FreshEntry(pages, cols, idxs, nodes, all[i]);
    }
    PassingSorted(w, cols, idxs, FetchAll(pages, StartEntries(kt, k, nodes)));
  }

  // ----- the where clauses the planner hands to a forward index scan

  /** col = v, col >= v, col > v, and the same written the other way round; a connective with a constant that
      leaves something for the column to decide or rules everything out. */
  predicate RangeOn(cond: Expr, name: CString, k: Datum) {
    && cond.Bin? && cond.fn.Func? && cond.fn.op == cond.op
    && if cond.lhs == Ident(name) then cond.rhs == Lit(k) && (RangeOp(cond.op, k) || cond.op.GE? || cond.op.GT?)
       else cond.lhs == Lit(k) && cond.rhs == Ident(name) && (RangeOp(cond.op, k) || cond.op.LE? || cond.op.LT?)
  }

  predicate RangeOp(op: BinOp, k: Datum) {
    op.EQ? || op.AND? || (op.OR? && k != BoolD(true))
  }

  lemma ComparedTrue(fn: OpFunc, a: Datum, b: Datum)
    requires fn.Func? && Apply(fn, a, b) == Val(BoolD(true))
    ensures RangeOp(fn.op, b) || fn.op.GE? || fn.op.GT? ==> !Gt(b, a)
    ensures RangeOp(fn.op, a) || fn.op.LE? || fn.op.LT? ==> !Gt(a, b)
  {
    hide StrLess, Truncated;
    GtOrder();
  }

  lemma RangeRow(cond: Expr, name: CString, k: Datum, row: Row, cols: seq<ColDesc>)
    requires RangeOn(cond, name, k) && TestRow(cond, row, cols) == Passes
    ensures ColIdx(cols, name) < |row| && !Gt(k, row[ColIdx(cols, name)])
  {
    hide Apply, Gt;
    var l, r := EvalExpr(cond.lhs, row, cols), EvalExpr(cond.rhs, row, cols);
    ComparedTrue(cond.fn, l.d, r.d);
  }

  /** Such a clause passes no row whose key is below its constant. */
  lemma RangeWhere(pages: Pages, cond: Expr, cols: seq<ColDesc>, idxs: seq<nat>, k: Datum)
    requires IndexCols(cols, idxs) && RangeOn(cond, cols[idxs[0]].name, k)
    ensures OnlyBeyond(pages, Where(cond), cols, idxs, k)
  {
    hide LiveOf, StoredRow, RangeOn, TestRow, Gt;
    forall b | b in LiveOf(pages) && TestItem(Where(cond), cols, b) == Passes
      ensures !Gt(k, RowKey(cols, idxs, b))
    {
      RangeRow(cond, cols[idxs[0]].name, k, StoredRow(b, cols), cols);
    }
  }

  /** A range clause whose constant has another type than the column stops on every row without a null there. */
  lemma {:induction false} MistypedStops(cond: Expr, name: CString, k: Datum, row: Row, cols: seq<ColDesc>)
    requires RangeOn(cond, name, k) && ColIdx(cols, name) < |cols| && ColIdx(cols, name) < |row|
    requires k != NullD && row[ColIdx(cols, name)] != NullD && TypeOf(row[ColIdx(cols, name)]) != TypeOf(k)
    ensures TestRow(cond, row, cols) == Stops
  {
    hide ColIdx, Apply;
    var l, r := EvalExpr(cond.lhs, row, cols), EvalExpr(cond.rhs, row, cols);
    DifferentTypes(cond.fn, l.d, r.d);
  }

  lemma DifferentTypes(fn: OpFunc, a: Datum, b: Datum)
    requires TypeOf(a) != TypeOf(b)
    ensures Apply(fn, a, b) == AssertFails
  {
  }

  // ----- end to end

  /** The index a completed build leaves says what the heap says. */
  lemma BuiltIsFresh(pages: Pages, cols: seq<ColDesc>, idxs: seq<nat>, src: nat)
    requires HeapOk(pages, ColTypes(cols)) && IndexCols(cols, idxs) && src <= 1
    requires BuildRun(KeyType(cols, idxs), cols, idxs, LiveOf(pages), src).result == Built
    ensures Fresh(pages, cols, idxs, BuildRun(KeyType(cols, idxs), cols, idxs, LiveOf(pages), src).nodes)
    ensures Keyed(KeyType(cols, idxs), BuildRun(KeyType(cols, idxs), cols, idxs, LiveOf(pages), src).nodes)
  {
    hide HeapOk, LiveOf, ChainKeys, Sorted, IndexEntries, AllFit, NoNullKeys, Run, BuildRun, Ok, Keyed;
    var kt, es := KeyType(cols, idxs), IndexEntries(cols, idxs, LiveOf(pages));
    BuildCompletes(kt, cols, idxs, LiveOf(pages), src);
    BuiltIndex(cols, idxs, LiveOf(pages), kt, src);
    RunFromEntries(kt, es, src);
    EntriesKeyed(pages, cols, idxs, Run(kt, es, src).nodes);
  }

  lemma EntriesKeyed(pages: Pages, cols: seq<ColDesc>, idxs: seq<nat>, nodes: Nodes)
    requires HeapOk(pages, ColTypes(cols)) && IndexCols(cols, idxs)
    requires NoNullKeys(cols, idxs, LiveOf(pages)) && AllFit(IndexEntries(cols, idxs, LiveOf(pages)))
    requires FromEntries(IndexEntries(cols, idxs, LiveOf(pages)), nodes)
    ensures Keyed(KeyType(cols, idxs), nodes)
  {
    hide HeapOk, LiveOf, IndexEntry, KeyOf, StoredRow, FirstOf;
    var es := IndexEntries(cols, idxs, LiveOf(pages));
    forall e | e in es
      ensures KeyOf(KeyType(cols, idxs), e) != NullD
    {
      var i :| 0 <= i < |es| && es[i] == e;
      EntryKey(pages, cols, idxs, LiveOf(pages)[i]);
    }
  }

  lemma VisitedStop(pages: Pages, w: Where, cols: seq<ColDesc>, idxs: seq<nat>, k: Datum, nodes: Nodes)
    requires Fresh(pages, cols, idxs, nodes) && NoneStops(w, cols, LiveOf(pages))
    ensures NoneStops(w, cols, FetchAll(pages, StartEntries(KeyType(cols, idxs), k, nodes)))
  {
    hide HeapOk, LiveOf, ChainKeys, KeyOf, IndexEntry, RowKey, Fetch, Points, Pos, TestItem, Passing, StartEntries, Gt,
         Sorted, AllFit, NoNullKeys;
    var kt, all := KeyType(cols, idxs), ChainKeys(nodes);
    var q := StartMeaning(kt, k, nodes);
    forall i | 0 <= i < |all|
      ensures Fetch(pages, all[i]) in LiveOf(pages)
    {
      FreshEntry(pages, cols, idxs, nodes, all[i]);
    }
  }

  /** Where the filtered sequential scan runs to its end, the index scan meets no key of another type: there
      is none, or the constant has the column's type. */
  lemma ScanStarts(pages: Pages, cond: Expr, cols: seq<ColDesc>, idx: nat, k: Datum, nodes: Nodes)
    requires idx < |cols| && Fresh(pages, cols, [idx], nodes) && (Searched(nodes) ==> LiveOf(pages) != [])
    requires RangeOn(cond, cols[idx].name, k) && k != NullD && NoneStops(Where(cond), cols, LiveOf(pages))
    ensures Starts(cols[idx].ty, k, nodes)
  {
    hide HeapOk, LiveOf, ChainKeys, RangeOn, TestRow, Sorted, AllFit, StoredRow, Searched;
    if Searched(nodes) {
      var b := LiveOf(pages)[0];
      assert FirstOf(cols, idx) == idx;
      LiveKey(pages, cols, idx, b);
      LiveWidth(pages, cols, b);
      assert Project(StoredRow(b, cols), [idx])[0] == StoredRow(b, cols)[idx];
      if TypeOf(k) != cols[idx].ty {
        MistypedStops(cond, cols[idx].name, k, StoredRow(b, cols), cols);
      }
    }
  }

  lemma LiveWidth(pages: Pages, cols: seq<ColDesc>, b: Bytes)
    requires HeapOk(pages, ColTypes(cols)) && b in LiveOf(pages)
    ensures |StoredRow(b, cols)| == |cols|
  {
    hide HeapOk, LiveOf, StoredAt, TupleOf, RowOf;
    LiveStored(pages, ColTypes(cols), b);
    var p: nat, s: nat :| StoredAt(b, ColTypes(cols), p, s);
    StoredFacts(b, ColTypes(cols), p, s);
  }

  /** CREATE INDEX on a column of any type followed by a range SELECT through it. The scan of a built index
      fails if the constant is null. Otherwise, if the where clause stops on no live tuple, the scan runs to
      its end and delivers its tuples in ascending key order; if the build left no page without keys, it
      delivers what the filtered sequential scan would, if and only if some key on the leftmost page reaches
      the boundary or nothing passes. */
  method SelectThroughIndex(table: HeapFile.Table, cols: seq<ColDesc>, idx: nat, cond: Expr, k: Datum, src: nat)
    returns (built: BuildResult, ok: bool, rows: seq<Bytes>)
    requires table.Valid() && ColTypes(cols) == table.types && idx < |cols| && src <= 1
    requires RangeOn(cond, cols[idx].name, k) && FirstOf(cols, idx) == idx
    ensures var build := BuildRun(cols[idx].ty, cols, [idx], LiveOf(table.pages), src);
            var filtered := Passing(Where(cond), cols, LiveOf(table.pages));
            && built == build.result
            && (built == Built ==>
                  Pulling(rows, ok) == ScanOf(cols[idx].ty, k, build.nodes, Where(cond), cols, table.pages))
            && (built == Built && k == NullD ==> !ok)
            && (built == Built && k != NullD && NoneStops(Where(cond), cols, LiveOf(table.pages)) ==>
                  && ok && KeySorted(cols, [idx], rows)
                  && (KeysKept(build.nodes) ==>
                        (multiset(rows) == multiset(filtered)
                         <==> Pos(cols[idx].ty, k, Keys(build.nodes[0])) < |Keys(build.nodes[0])| || filtered == [])))
  {
    hide HeapOk, LiveOf, ChainKeys, Sorted, IndexEntries, NoNullKeys, Run, BuildRun, Ok, RangeOn, Passing, FetchAll,
         StartEntries, Fresh, Pos, Keys, OnlyBeyond, NoneStops, KeysKept, Linked, AllPoint, KeySorted, TestItem, FRESH,
           NodesOf, Keyed, Starts, Searched, FirstOf;
    var index;
    built, index := BuildIndex(table, cols, [idx], src);
    ok, rows := false, [];
    if built == Built {
      ghost var nodes := index.View();
      BuiltIsSearched(table.pages, cols, [idx], src);
      BuiltIsFresh(table.pages, cols, [idx], src);
      IndexScanSorted(table.pages, Where(cond), cols, [idx], k, nodes);
      var scan := new Scan(index, table, k, Where(cond), cols);
      ok, rows := scan.Drain();
      PulledMeaning(Where(cond), cols, FetchAll(table.pages, StartEntries(cols[idx].ty, k, nodes)));
      RangeWhere(table.pages, cond, cols, [idx], k);
      if KeysKept(nodes) {
        IndexScanRefines(table.pages, Where(cond), cols, [idx], k, nodes);
      }
      NullNeverStarts(cols[idx].ty, nodes);
      if k != NullD && NoneStops(Where(cond), cols, LiveOf(table.pages)) {
        VisitedStop(table.pages, Where(cond), cols, [idx], k, nodes);
        ScanStarts(table.pages, cond, cols, idx, k, nodes);
      }
    }
  }

  lemma NullNeverStarts(kt: BType, nodes: Nodes)
    ensures !Starts(kt, NullD, nodes)
  {
  }

  lemma BuiltIsSearched(pages: Pages, cols: seq<ColDesc>, idxs: seq<nat>, src: nat)
    requires IndexCols(cols, idxs) && src <= 1
    requires BuildRun(KeyType(cols, idxs), cols, idxs, LiveOf(pages), src).result == Built
    ensures Searched(BuildRun(KeyType(cols, idxs), cols, idxs, LiveOf(pages), src).nodes) ==> LiveOf(pages) != []
  {
    hide LiveOf, IndexEntries, BuildRun, Run, NoNullKeys, Searched, AllFit, NeverCompared;
    var bs, kt := LiveOf(pages), KeyType(cols, idxs);
    BuildCompletes(kt, cols, idxs, bs, src);
    RunSearched(kt, IndexEntries(cols, idxs, bs), src);
  }

  /** When a build leaves no page without keys but the root of an empty index: always with the high key taken
      as commented; as written, whenever the entries take at most a fifth of a page. */
  lemma BuiltKeepsKeys(cols: seq<ColDesc>, idxs: seq<nat>, bs: seq<Bytes>, src: nat)
    requires IndexCols(cols, idxs) && src <= 1
    requires src == HIGH_KEY || IndexSplit.AllSmall(IndexEntries(cols, idxs, bs))
    requires BuildRun(KeyType(cols, idxs), cols, idxs, bs, src).result == Built
    ensures KeysKept(BuildRun(KeyType(cols, idxs), cols, idxs, bs, src).nodes)
  {
    hide IndexEntries, BuildRun, Run, NoNullKeys, KeysKept, Ok, ChainKeys, Sorted, IndexSplit.AllSmall, AllFit,
         NeverCompared,
         AllAdmitted, AllRoomy, IndexInputs.Ascending, IndexInputs.NonIncreasing;
    var kt := KeyType(cols, idxs);
    BuildCompletes(kt, cols, idxs, bs, src);
    if src == HIGH_KEY {
      CommentedRunsKeepKeys(kt, IndexEntries(cols, idxs, bs));
    } else {
      CreateIndexSmall(cols, idxs, bs, src);
    }
  }
}
