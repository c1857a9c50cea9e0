/** CREATE INDEX: scan the table once, insert an entry for every live tuple. */
module CreateIndex {
  import opened PageLayout
  import opened Types
  import opened Schema
  import opened Codec
  import opened Heap
  import HeapFile
  import opened ModifyScan
  import IndexOrder
  import opened IndexSplit
  import opened IndexChain
  import opened IndexMachine
  import opened IndexRuns
  import opened IndexInputs
  import BTreeIndex

  function Project(row: Row, idxs: seq<nat>): (r: Row)
    ensures |r| == |idxs|
    ensures forall i :: 0 <= i < |idxs| && idxs[i] < |row| ==> r[i] == row[idxs[i]]
  {
    seq(|idxs|, i requires 0 <= i < |idxs| => if idxs[i] < |row| then row[idxs[i]] else NullD)
  }

  /** The columns of the index's own table. */
  function KeyCols(cols: seq<ColDesc>, idxs: seq<nat>): (r: seq<ColDesc>)
    ensures |r| == |idxs|
    ensures forall i :: 0 <= i < |idxs| && idxs[i] < |cols| ==> r[i] == cols[idxs[i]]
  {
    seq(|idxs|, i requires 0 <= i < |idxs| => if idxs[i] < |cols| then cols[idxs[i]] else ColDesc("", T_UNKNOWN))
  }

  /** The tuple of an entry: the indexed columns, each set by its name. */
  function KeyTuple(cols: seq<ColDesc>, idxs: seq<nat>, row: Row): (t: Tuple)
    ensures |t.nulls| == |t.locs| == |idxs| && t.tid == TupleId(0, 0)
  {
    NamedTuple(KeyCols(cols, idxs), Project(row, idxs), |idxs|)
  }

  /** The entry for a stored tuple: its address and the indexed columns. */
  function IndexEntry(cols: seq<ColDesc>, idxs: seq<nat>, b: Bytes): Bytes {
    EntryBytes(TupleOf(b).tid, KeyTuple(cols, idxs, StoredRow(b, cols)))
  }

  function IndexEntries(cols: seq<ColDesc>, idxs: seq<nat>, bs: seq<Bytes>): (r: seq<Bytes>)
    ensures |r| == |bs|
    ensures forall i :: 0 <= i < |r| ==> r[i] == IndexEntry(cols, idxs, bs[i])
  {
    seq(|bs|, i requires 0 <= i < |bs| => IndexEntry(cols, idxs, bs[i]))
  }

  /** The indexed columns, at least one, each the first of its name, as AnalyzeCreateIndexStmt finds them. */
  ghost predicate IndexCols(cols: seq<ColDesc>, idxs: seq<nat>) {
    idxs != [] && forall i :: 0 <= i < |idxs| ==> idxs[i] < |cols| && FirstOf(cols, idxs[i]) == idxs[i]
  }

  function KeyType(cols: seq<ColDesc>, idxs: seq<nat>): BType
    requires idxs != [] && idxs[0] < |cols|
  {
    cols[idxs[0]].ty
  }

  /** MakeIndexTuple. */
  method MakeIndexTuple(item: Bytes, cols: seq<ColDesc>, idxs: seq<nat>, ghost page: nat, ghost slot: nat)
    returns (e: Bytes, key: Datum)
    requires StoredAt(item, ColTypes(cols), page, slot) && IndexCols(cols, idxs)
    ensures e == IndexEntry(cols, idxs, item) && key == StoredRow(item, cols)[idxs[0]]
  {
    hide StoredAt, TupleOf, RowOf, WellFormed, TupleBytes, GetCol, LE, NamedTuple, Shaped, Fits;
    var types, keyCols := ColTypes(cols), KeyCols(cols, idxs);
    StoredFacts(item, types, page, slot);
    var t := TupleOf(item);
    ghost var row := RowOf(t, types);
    var keys := [];
    for i := 0 to |idxs|
      invariant keys == Project(row, idxs)[..i]
    {
      var at := ColIdx(cols, keyCols[i].name);
      assert FirstOf(cols, idxs[i]) == idxs[i];
      ColOfRow(t, types, at);
      keys := keys + [GetCol(t, at, cols[at].ty)];
    }
    assert Project(row, idxs)[..|idxs|] == Project(row, idxs);
    var data := BuildTuple(keyCols, keys);
    e := LE(t.tid.page, 2) + LE(t.tid.loc, 2) + TupleBytes(data);
    key := keys[0];
  }

  lemma ColOfRow(t: Tuple, types: seq<BType>, i: nat)
    requires |t.nulls| == |t.locs| == |types| && i < |types|
    ensures |RowOf(t, types)| == |types| && RowOf(t, types)[i] == GetCol(t, i, types[i])
  {
    hide GetCol;
  }

  lemma KeyColsTyped(cols: seq<ColDesc>, idxs: seq<nat>)
    requires IndexCols(cols, idxs)
    ensures NamesTyped(KeyCols(cols, idxs))
    ensures forall i, j :: 0 <= i < j < |idxs| && KeyCols(cols, idxs)[i].name == KeyCols(cols, idxs)[j].name ==>
            idxs[i] == idxs[j]
  {
    hide FirstOf;
    forall i: nat, j: nat | i < j < |idxs| && KeyCols(cols, idxs)[i].name == KeyCols(cols, idxs)[j].name
      ensures idxs[i] == idxs[j]
    {
      assert FirstOf(cols, idxs[i]) == idxs[i] && FirstOf(cols, idxs[j]) == idxs[j];
    }
  }

  lemma ProjectConforms(cols: seq<ColDesc>, idxs: seq<nat>, row: Row)
    requires IndexCols(cols, idxs) && Conforms(row, ColTypes(cols))
    ensures Conforms(Project(row, idxs), ColTypes(KeyCols(cols, idxs)))
  {
    forall i | 0 <= i < |idxs|
      ensures Project(row, idxs)[i] == NullD || TypeOf(Project(row, idxs)[i]) == ColTypes(KeyCols(cols, idxs))[i]
    {
      assert idxs[i] < |cols| && Project(row, idxs)[i] == row[idxs[i]];
    }
  }

  /** What an entry's tuple holds: the first column is the key. */
  lemma KeyTupleMeaning(cols: seq<ColDesc>, idxs: seq<nat>, row: Row)
    requires IndexCols(cols, idxs) && Conforms(row, ColTypes(cols))
    ensures var t, types := KeyTuple(cols, idxs, row), ColTypes(KeyCols(cols, idxs));
            && Shaped(t, types) && RowOf(t, types) == NamedRow(KeyCols(cols, idxs), Project(row, idxs), |idxs|)
            && GetCol(t, 0, types[0]) == Project(row, idxs)[0]
  {
    hide NamedTuple, NamedRow, NamesTyped, Lands, RowOf, Shaped, Conforms, GetCol;
    var keyCols, keys := KeyCols(cols, idxs), Project(row, idxs);
    var types := ColTypes(keyCols);
    KeyColsTyped(cols, idxs);
    ProjectConforms(cols, idxs, row);
    KeyWidth(keys, types);
    ConformingLands(keyCols, keys);
    NamedMeaning(keyCols, keys);
    ColOfRow(KeyTuple(cols, idxs, row), types, 0);
    NamedAt(keyCols, keys, |idxs|, 0);
    var l := LastOf(keyCols, |idxs|, 0);
    assert keyCols[l].name == keyCols[FirstOf(keyCols, l)].name;
  }

  lemma KeyWidth(keys: Row, types: seq<BType>)
    requires Conforms(keys, types)
    ensures |keys| == |types|
  {
  }

  /** The whole entry holds the indexed columns exactly if no index column is repeated, or it is null where
      one is: CREATE INDEX on (a, a) leaves the second key column null. */
  lemma KeyTupleExactly(cols: seq<ColDesc>, idxs: seq<nat>, row: Row)
    requires IndexCols(cols, idxs) && Conforms(row, ColTypes(cols))
    ensures |KeyTuple(cols, idxs, row).nulls| == |KeyTuple(cols, idxs, row).locs|
    ensures RowOf(KeyTuple(cols, idxs, row), ColTypes(KeyCols(cols, idxs))) == Project(row, idxs)
            <==> forall i, j :: 0 <= i < j < |idxs| && idxs[i] == idxs[j] ==> Project(row, idxs)[i] == NullD
  {
    hide NamedRow, RowOf, Conforms, KeyTuple, FirstOf;
    KeyTupleMeaning(cols, idxs, row);
    NamedExactly(KeyCols(cols, idxs), Project(row, idxs));
    KeyColsTyped(cols, idxs);
    var keyCols, keys := KeyCols(cols, idxs), Project(row, idxs);
    forall i: nat, j: nat | i < j < |idxs|
      ensures keyCols[i].name == keyCols[j].name <==> idxs[i] == idxs[j]
      ensures idxs[i] == idxs[j] ==> keys[i] == keys[j]
    {
      assert idxs[i] < |cols| && idxs[j] < |cols|;
    }
  }

  /** Built; or an insertion clobbered a high key, unnoticed; or the program stopped: at a null key, which
      has no comparison function; at the first comparison of a search key with a stored key of another
      type, because it reads search keys as the parent table's column 0 (storage.c:965-966); or in an
      insertion. */
  datatype BuildResult = Built | NullKey | WrongKeyType | Broken(why: InsertResult)

  predicate KeyTypeRead(cols: seq<ColDesc>, idxs: seq<nat>)
    requires idxs != [] && idxs[0] < |cols|
  {
    cols[0].ty == KeyType(cols, idxs)
  }

  ghost predicate NoNullKeys(cols: seq<ColDesc>, idxs: seq<nat>, bs: seq<Bytes>)
    requires idxs != []
  {
    forall i :: 0 <= i < |bs| ==> Project(StoredRow(bs[i], cols), idxs)[0] != NullD
  }

  ghost predicate AllFit(es: seq<Bytes>) {
    forall i :: 0 <= i < |es| ==> |es[i]| < PAGE_SIZE
  }

  datatype BuildState = BuildState(result: BuildResult, nodes: Nodes)

  predicate KeepsBuilding(r: BuildResult) {
    r.Built? || r == Broken(Clobbered)
  }

  function WorseBuild(before: BuildResult, now: BuildResult): BuildResult {
    if now == Built then before else now
  }

  function ResultOf(r: InsertResult): BuildResult {
    if r == InsertResult.Done then Built else Broken(r)
  }

  /** One round of the build loop. */
  ghost function BuildStep(kt: BType, cols: seq<ColDesc>, idxs: seq<nat>, nodes: Nodes, b: Bytes,
                           src: nat): (r: BuildState)
    requires Headed(nodes) && IndexCols(cols, idxs)
    ensures Headed(r.nodes)
  {
    hide Step, IndexEntry, StoredRow;
    var e := IndexEntry(cols, idxs, b);
    if Project(StoredRow(b, cols), idxs)[0] == NullD then BuildState(NullKey, nodes)
    else if !KeyTypeRead(cols, idxs) && Searched(nodes) then BuildState(WrongKeyType, nodes)
    else if |e| >= PAGE_SIZE then BuildState(Broken(Failed), nodes)
    else
      StepKeepsHeads(kt, nodes, e, src);
      BuildState(ResultOf(Step(kt, nodes, e, src).result), Step(kt, nodes, e, src).nodes)
  }

  lemma StepKeepsHeads(kt: BType, nodes: Nodes, e: Bytes, src: nat)
    requires Headed(nodes)
    ensures Headed(Step(kt, nodes, e, src).nodes)
  {
  }

  /** The build loop over the live tuples. */
  ghost function BuildRun(kt: BType, cols: seq<ColDesc>, idxs: seq<nat>, bs: seq<Bytes>, src: nat): (r: BuildState)
    requires IndexCols(cols, idxs)
    ensures Headed(r.nodes)
  {
    hide BuildStep;
    if bs == [] then BuildState(Built, FRESH) else
      var before := BuildRun(kt, cols, idxs, bs[..|bs| - 1], src);
      if !KeepsBuilding(before.result) then before else
        BuildStepHeaded(kt, cols, idxs, before.nodes, bs[|bs| - 1], src);
        var step := BuildStep(kt, cols, idxs, before.nodes, bs[|bs| - 1], src);
        BuildState(WorseBuild(before.result, step.result), step.nodes)
  }

  lemma BuildStepHeaded(kt: BType, cols: seq<ColDesc>, idxs: seq<nat>, nodes: Nodes, b: Bytes, src: nat)
    requires Headed(nodes) && IndexCols(cols, idxs)
    ensures Headed(BuildStep(kt, cols, idxs, nodes, b, src).nodes)
  {
  }

  /** The build loop of ExecuteUtilityStmt: it comes to what the run over the live tuples comes to, and
      leaves the chain that run leaves. */
  method BuildIndex(table: HeapFile.Table, cols: seq<ColDesc>, idxs: seq<nat>, src: nat)
    returns (r: BuildResult, index: BTreeIndex.Index)
    requires table.Valid() && ColTypes(cols) == table.types && IndexCols(cols, idxs) && src <= 1
    ensures fresh(index) && index.Valid() && index.kt == KeyType(cols, idxs) && index.src == src
    ensures BuildRun(index.kt, cols, idxs, LiveOf(table.pages), src) == BuildState(r, index.View())
  {
    hide LiveOf, LiveFrom, LiveBefore, HeapOk, Lookup, BuildStep, BuildRun, StoredAt, BTreeIndex.Linked, FRESH,
         ValidImage,
         TupleOf, BTreeIndex.NodesOf;
    index := new BTreeIndex.Index(KeyType(cols, idxs), src);
    var cursor := new HeapFile.Cursor(table);
    ghost var all, taken: seq<Bytes> := LiveOf(table.pages), [];
    ghost var kt := index.kt;
    PageStart(table.pages, 0);
    assert table.pages[0..] == table.pages;
    BuildStart(kt, cols, idxs, src);
    r := Built;
    while true
      invariant fresh(index) && index.Valid() && index.kt == kt && index.src == src && KeepsBuilding(r)
      invariant cursor.pageIndex <= |table.pages|
      invariant all == taken + LiveFrom(table.pages, cursor.pageIndex, cursor.tupleIndex)
      invariant BuildRun(kt, cols, idxs, taken, src) == BuildState(r, index.View())
      decreases |all| - |taken|
    {
      var found, item := cursor.SeekNext();
      if !found {
        assert taken == all;
        return r, index;
      }
      LookupStored(table.pages, table.types, cursor.pageIndex, cursor.tupleIndex - 1, item);
      var step := IndexOne(index, cols, idxs, item, cursor.pageIndex, cursor.tupleIndex - 1);
      BuildOne(kt, cols, idxs, taken, item, src);
      taken, r := taken + [item], WorseBuild(r, step);
      if !KeepsBuilding(step) {
        assert all[..|taken|] == taken;
        BuildStuck(kt, cols, idxs, all, |taken|, src);
        return step, index;
      }
    }
  }

  lemma BuildStart(kt: BType, cols: seq<ColDesc>, idxs: seq<nat>, src: nat)
    requires IndexCols(cols, idxs)
    ensures BuildRun(kt, cols, idxs, [], src) == BuildState(Built, FRESH)
  {
  }

  lemma BuildOne(kt: BType, cols: seq<ColDesc>, idxs: seq<nat>, bs: seq<Bytes>, b: Bytes, src: nat)
    requires IndexCols(cols, idxs)
    ensures Headed(BuildRun(kt, cols, idxs, bs, src).nodes)
    ensures BuildRun(kt, cols, idxs, bs + [b], src) ==
            var before := BuildRun(kt, cols, idxs, bs, src);
            if !KeepsBuilding(before.result) then before else
              var step := BuildStep(kt, cols, idxs, before.nodes, b, src);
              BuildState(WorseBuild(before.result, step.result), step.nodes)
  {
    hide BuildStep;
    assert (bs + [b])[..|bs + [b]| - 1] == bs;
  }

  /** BTreeIndexInsert for one tuple, from the heap bytes to the index page. */
  method IndexOne(index: BTreeIndex.Index, cols: seq<ColDesc>, idxs: seq<nat>, item: Bytes, ghost page: nat,
                  ghost slot: nat)
    returns (r: BuildResult)
    requires index.Valid() && IndexCols(cols, idxs) && StoredAt(item, ColTypes(cols), page, slot)
    modifies index
    ensures index.Valid()
    ensures BuildStep(index.kt, cols, idxs, old(index.View()), item, index.src) == BuildState(r, index.View())
  {
    hide StoredAt, BTreeIndex.Linked, FRESH, Outcome, NodesNext, StoredRow, IndexEntry;
    StoredWidth(item, cols, page, slot);
    var e, key := MakeIndexTuple(item, cols, idxs, page, slot);
    if key == NullD {
      return NullKey;
    }
    var compares := index.Compares();
    if !KeyTypeRead(cols, idxs) && compares {
      return WrongKeyType;
    }
    if |e| >= PAGE_SIZE {
      return Broken(Failed);
    }
    EntryBig(cols, idxs, item);
    var step := index.Insert(e);
    return ResultOf(step);
  }

  lemma {:induction false} BuildStuck(kt: BType, cols: seq<ColDesc>, idxs: seq<nat>, bs: seq<Bytes>, n: nat, src: nat)
    requires IndexCols(cols, idxs) && n <= |bs| && !KeepsBuilding(BuildRun(kt, cols, idxs, bs[..n], src).result)
    ensures BuildRun(kt, cols, idxs, bs, src) == BuildRun(kt, cols, idxs, bs[..n], src)
    decreases |bs| - n
  {
    hide BuildStep;
    if n < |bs| {
      assert bs[..n + 1][..n] == bs[..n];
      BuildStuck(kt, cols, idxs, bs, n + 1, src);
    } else {
      assert bs[..n] == bs;
    }
  }

  /** No search key meets a stored key of another type: they are read as what they are, or there is never
      a stored key to meet. */
  ghost predicate NeverCompared(cols: seq<ColDesc>, idxs: seq<nat>, bs: seq<Bytes>)
    requires idxs != [] && idxs[0] < |cols|
  {
    |bs| <= 1 || KeyTypeRead(cols, idxs)
  }

  /** The build completes exactly if no search key meets a stored key of another type, no key is null, no
      entry is as long as a page, and the run of the index machine over the entries is done. */
  lemma {:induction false} BuildCompletes(kt: BType, cols: seq<ColDesc>, idxs: seq<nat>, bs: seq<Bytes>, src: nat)
    requires IndexCols(cols, idxs) && src <= 1
    ensures BuildRun(kt, cols, idxs, bs, src).result == Built
            <==> && NeverCompared(cols, idxs, bs) && NoNullKeys(cols, idxs, bs) && AllFit(IndexEntries(cols, idxs, bs))
                 && Run(kt, IndexEntries(cols, idxs, bs), src).result == InsertResult.Done
    ensures BuildRun(kt, cols, idxs, bs, src).result == Built ==>
              BuildRun(kt, cols, idxs, bs, src).nodes == Run(kt, IndexEntries(cols, idxs, bs), src).nodes
  {
    hide Step, IndexEntry, StoredRow, FRESH, IndexEntries, AllFit, NoNullKeys, Project, Run, BuildRun, Searched,
         KeyTypeRead;
    EntriesOfNone(cols, idxs);
    RunNone(kt, src);
    BuildStart(kt, cols, idxs, src);
    if bs != [] {
      var init, last := bs[..|bs| - 1], bs[|bs| - 1];
      assert bs == init + [last];
      BuildCompletes(kt, cols, idxs, init, src);
      EntriesStep(cols, idxs, init, last);
      BuildOne(kt, cols, idxs, init, last, src);
      RunOne(kt, IndexEntries(cols, idxs, init), IndexEntry(cols, idxs, last), src);
      NoNullStep(cols, idxs, init, last);
      FitStep(IndexEntries(cols, idxs, init), IndexEntry(cols, idxs, last));
      if Run(kt, IndexEntries(cols, idxs, init), src).result == InsertResult.Done {
        RunSearched(kt, IndexEntries(cols, idxs, init), src);
      }
    }
  }

  /** The build stops at a null key, wherever it gets to one. */
  lemma NullKeyExactly(kt: BType, cols: seq<ColDesc>, idxs: seq<nat>, bs: seq<Bytes>, b: Bytes, src: nat)
    requires IndexCols(cols, idxs)
    ensures BuildRun(kt, cols, idxs, bs, src).result in {Built, Broken(Clobbered)} ==>
              (BuildRun(kt, cols, idxs, bs + [b], src).result == NullKey
               <==> Project(StoredRow(b, cols), idxs)[0] == NullD)
    ensures BuildRun(kt, cols, idxs, bs, src).result !in {Built, Broken(Clobbered)} ==>
              BuildRun(kt, cols, idxs, bs + [b], src) == BuildRun(kt, cols, idxs, bs, src)
  {
    hide Step, IndexEntry, StoredRow, Project, BuildRun, Searched;
    BuildOne(kt, cols, idxs, bs, b, src);
  }

  /** The first entry of an index goes on the root page if it fits there next to the placeholder. */
  lemma FirstEntry(kt: BType, e: Bytes, src: nat)
    requires src <= 1
    ensures Step(kt, FRESH, e, src).result == if |e| <= 8119 then InsertResult.Done else Failed
    ensures |e| <= 8119 ==> Searched(Step(kt, FRESH, e, src).nodes)
  {
    hide EmptyKey, KeyOf, IndexOrder.KeyGt;
    CostOne(EmptyKey());
    assert IndexOrder.Keys(FRESH[0]) == [];
    if |e| > 8119 && src == 0 {
      assert InsertAt(IndexOrder.Keys(FRESH[0]), 0, e) == [e];
      assert SplitPoint([e], 1) == 0;
    }
  }

  /** CREATE INDEX stops at a comparison between types exactly if the table's first column has another type than
      the first indexed one, there are at least two rows, the first of them gets its entry, and the second has a
      key to search with. */
  lemma {:induction false} WrongKeyExactly(kt: BType, cols: seq<ColDesc>, idxs: seq<nat>, bs: seq<Bytes>, src: nat)
    requires IndexCols(cols, idxs) && src <= 1
    ensures idxs[0] < |cols|
    ensures BuildRun(kt, cols, idxs, bs, src).result == WrongKeyType
            <==> && cols[0].ty != cols[idxs[0]].ty && |bs| >= 2
                 && Project(StoredRow(bs[0], cols), idxs)[0] != NullD
                 && Project(StoredRow(bs[1], cols), idxs)[0] != NullD && |IndexEntry(cols, idxs, bs[0])| <= 8119
    ensures cols[0].ty != cols[idxs[0]].ty && |bs| >= 2 ==> !KeepsBuilding(BuildRun(kt, cols, idxs, bs, src).result)
  {
    hide Step, IndexEntry, StoredRow, FRESH, Project, BuildRun, Searched;
    BuildStart(kt, cols, idxs, src);
    FreshUnsearched();
    if bs != [] {
      var n := |bs| - 1;
      var init := bs[..n];
      assert bs == init + [bs[n]];
      BuildOne(kt, cols, idxs, init, bs[n], src);
      WrongKeyExactly(kt, cols, idxs, init, src);
      if n == 1 {
        assert init == [] + [bs[0]];
        BuildOne(kt, cols, idxs, [], bs[0], src);
        FirstEntry(kt, IndexEntry(cols, idxs, bs[0]), src);
      }
    }
  }

  /** After a run that is done, there is a key to compare with exactly if there was an entry. */
  lemma RunSearched(kt: BType, es: seq<Bytes>, src: nat)
    requires src <= 1 && Run(kt, es, src).result == InsertResult.Done
    ensures Searched(Run(kt, es, src).nodes) <==> es != []
  {
    hide Run, Ok, IndexOrder.InsertedAll, FRESH;
    BuildRefines(kt, es, src);
    var nodes := Run(kt, es, src).nodes;
    if es == [] {
      RunNone(kt, src);
      FreshUnsearched();
    } else if |nodes| == 1 {
      OneNode(nodes[0]);
      assert nodes == [nodes[0]];
    }
  }

  lemma FreshUnsearched()
    ensures !Searched(FRESH)
  {
  }

  lemma EntriesOfNone(cols: seq<ColDesc>, idxs: seq<nat>)
    requires idxs != []
    ensures IndexEntries(cols, idxs, []) == [] && AllFit(IndexEntries(cols, idxs, [])) && NoNullKeys(cols, idxs, [])
  {
  }

  lemma EntriesStep(cols: seq<ColDesc>, idxs: seq<nat>, init: seq<Bytes>, last: Bytes)
    ensures var es := IndexEntries(cols, idxs, init + [last]);
            es == IndexEntries(cols, idxs, init) + [IndexEntry(cols, idxs, last)]
              && es[..|init|] == IndexEntries(cols, idxs, init)
  {
    hide IndexEntry;
    assert forall i :: 0 <= i < |init| ==> (init + [last])[i] == init[i];
  }

  lemma NoNullStep(cols: seq<ColDesc>, idxs: seq<nat>, init: seq<Bytes>, last: Bytes)
    requires idxs != []
    ensures NoNullKeys(cols, idxs, init + [last])
            <==> NoNullKeys(cols, idxs, init) && Project(StoredRow(last, cols), idxs)[0] != NullD
  {
    hide StoredRow;
    assert (init + [last])[|init|] == last;
    assert forall i :: 0 <= i < |init| ==> (init + [last])[i] == init[i];
  }

  lemma FitStep(init: seq<Bytes>, last: Bytes)
    ensures AllFit(init + [last]) <==> AllFit(init) && |last| < PAGE_SIZE
  {
    assert (init + [last])[|init|] == last;
    assert forall i :: 0 <= i < |init| ==> (init + [last])[i] == init[i];
  }

  lemma StoredWidth(b: Bytes, cols: seq<ColDesc>, page: nat, slot: nat)
    requires StoredAt(b, ColTypes(cols), page, slot)
    ensures |StoredRow(b, cols)| == |cols|
  {
    hide StoredAt, TupleOf, RowOf;
    StoredFacts(b, ColTypes(cols), page, slot);
  }

  lemma EntryBig(cols: seq<ColDesc>, idxs: seq<nat>, b: Bytes)
    ensures |IndexEntry(cols, idxs, b)| >= EMPTY_KEY_SIZE
  {
    hide TupleOf, StoredRow, KeyTuple;
  }

  /** The high-level reading of a build that completed: the invariant of the whole chain holds, the
      entries are in key order, and they are exactly the entries of the live tuples. */
  lemma BuiltIndex(cols: seq<ColDesc>, idxs: seq<nat>, bs: seq<Bytes>, kt: BType, src: nat)
    requires src <= 1 && Run(kt, IndexEntries(cols, idxs, bs), src).result == InsertResult.Done
    ensures var nodes := Run(kt, IndexEntries(cols, idxs, bs), src).nodes;
            && Ok(kt, nodes, src)
            && IndexOrder.Sorted(kt, ChainKeys(nodes))
            && multiset(ChainKeys(nodes)) == multiset(IndexEntries(cols, idxs, bs))
  {
    hide Ok, IndexOrder.Sorted, ChainKeys, Run, IndexOrder.InsertedAll, IndexEntries;
    BuildRefines(kt, IndexEntries(cols, idxs, bs), src);
    IndexOrder.BuildSorts(kt, IndexEntries(cols, idxs, bs));
  }

  /** What a completed build leaves, for entries of at most a fifth of a page. */
  ghost predicate GoodIndex(kt: BType, es: seq<Bytes>, nodes: Nodes, src: nat) {
    && Ok(kt, nodes, src) && IndexOrder.Sorted(kt, ChainKeys(nodes)) && multiset(ChainKeys(nodes)) == multiset(es)
    && KeysKept(nodes)
  }

  /** CREATE INDEX for every heap and any columns, with entries of at most a fifth of a page. It completes
      exactly if no key is null, none meets a stored key of another type, and the chain admits every
      insertion; with the high key taken from slot 0, and on heaps in ascending or non-increasing key order,
      exactly if every insertion finds six bytes on its page. A completed index satisfies the chain
      invariant, is in key order, holds exactly the entries of the live tuples, and has no empty page but
      the root of an empty index. */
  lemma CreateIndexSmall(cols: seq<ColDesc>, idxs: seq<nat>, bs: seq<Bytes>, src: nat)
    requires IndexCols(cols, idxs) && src <= 1 && AllSmall(IndexEntries(cols, idxs, bs))
    ensures var kt, es := KeyType(cols, idxs), IndexEntries(cols, idxs, bs);
            var run := BuildRun(kt, cols, idxs, bs, src);
            var read := NeverCompared(cols, idxs, bs) && NoNullKeys(cols, idxs, bs);
            && (run.result == Built <==> read && AllAdmitted(kt, es, src))
            && (src == IndexOrder.HIGH_KEY || Ascending(kt, es) || NonIncreasing(kt, es) ==>
                (run.result == Built <==> read && AllRoomy(kt, es, src)))
            && (run.result == Built ==> GoodIndex(kt, es, run.nodes, src))
  {
    hide IndexEntries, Run, BuildRun, Ok, IndexOrder.Sorted, ChainKeys, AllAdmitted, AllRoomy, Ascending,
         NonIncreasing, KeysKept,
         Small, AllSmall, AllFit, NoNullKeys, NeverCompared;
    var kt, es := KeyType(cols, idxs), IndexEntries(cols, idxs, bs);
    SmallFit(es);
    BuildCompletes(kt, cols, idxs, bs, src);
    SmallBuild(kt, es, src);
    if Ascending(kt, es) || NonIncreasing(kt, es) {
      OrderedBuild(kt, es, src);
    }
    if Run(kt, es, src).result == InsertResult.Done {
      BuiltIndex(cols, idxs, bs, kt, src);
    }
  }

  lemma SmallFit(es: seq<Bytes>)
    requires AllSmall(es)
    ensures AllFit(es)
  {
  }

  /** On entries of one safe width, int and bool entries among them, that leaves nulls, mistaken types and
      clobbered high keys: no insertion ever finds fewer than six bytes. */
  lemma CreateIndexUniform(w: nat, cols: seq<ColDesc>, idxs: seq<nat>, bs: seq<Bytes>, src: nat)
    requires IndexCols(cols, idxs) && src <= 1 && SafeWidth(w) && AllCost(w, IndexEntries(cols, idxs, bs))
    ensures var kt, es := KeyType(cols, idxs), IndexEntries(cols, idxs, bs);
            var run := BuildRun(kt, cols, idxs, bs, src);
            var read := NeverCompared(cols, idxs, bs) && NoNullKeys(cols, idxs, bs);
            && AllSmall(es)
            && (src == IndexOrder.HIGH_KEY || Ascending(kt, es) || NonIncreasing(kt, es) ==>
                (run.result == Built <==> read))
            && (KeyTypeRead(cols, idxs) && read ==> run.result == Built || run.result == Broken(Clobbered))
  {
    hide IndexEntries, Run, BuildRun, AllAdmitted, AllRoomy, Ascending, NonIncreasing, AllSmall, AllFit, NoNullKeys,
         SafeWidth, AllCost, AllUniform;
    var kt, es := KeyType(cols, idxs), IndexEntries(cols, idxs, bs);
    CostSmall(w, es);
    SmallFit(es);
    CreateIndexSmall(cols, idxs, bs, src);
    UniformBuild(w, kt, es, src);
    if KeyTypeRead(cols, idxs) && NoNullKeys(cols, idxs, bs) {
      BuildFollows(kt, cols, idxs, bs, src);
    }
  }

  /** If nothing else stands in the way, the build comes to what the run of insertions comes to, and leaves
      the same chain, clobbered or not. */
  lemma {:induction false} BuildFollows(kt: BType, cols: seq<ColDesc>, idxs: seq<nat>, bs: seq<Bytes>, src: nat)
    requires IndexCols(cols, idxs) && KeyTypeRead(cols, idxs)
    requires NoNullKeys(cols, idxs, bs) && AllFit(IndexEntries(cols, idxs, bs))
    ensures var run := Run(kt, IndexEntries(cols, idxs, bs), src);
            BuildRun(kt, cols, idxs, bs, src) == BuildState(ResultOf(run.result), run.nodes)
  {
    hide Step, IndexEntry, StoredRow, FRESH, IndexEntries, AllFit, NoNullKeys, Project, Run, BuildRun;
    EntriesOfNone(cols, idxs);
    RunNone(kt, src);
    BuildStart(kt, cols, idxs, src);
    if bs != [] {
      var init, last := bs[..|bs| - 1], bs[|bs| - 1];
      assert bs == init + [last];
      EntriesStep(cols, idxs, init, last);
      BuildOne(kt, cols, idxs, init, last, src);
      RunOne(kt, IndexEntries(cols, idxs, init), IndexEntry(cols, idxs, last), src);
      NoNullStep(cols, idxs, init, last);
      FitStep(IndexEntries(cols, idxs, init), IndexEntry(cols, idxs, last));
      BuildFollows(kt, cols, idxs, init, src);
    }
  }

  /** The size of a one-column entry is that of its key. */
  lemma EntryWidth(cols: seq<ColDesc>, idx: nat, b: Bytes)
    requires idx < |cols|
    ensures ItemCost(IndexEntry(cols, [idx], b)) == KeyCost(Project(StoredRow(b, cols), [idx])[0])
  {
    hide TupleOf, RowOf, EntryBytes, NamedTuple, RowTuple;
    var keyCols, keys := KeyCols(cols, [idx]), Project(StoredRow(b, cols), [idx]);
    assert keys == [keys[0]];
    NamedUnique(keyCols, keys);
    EntrySize(TupleOf(b).tid, keys[0]);
  }

  /** Slot, header and data of an entry with this one key. */
  function KeyCost(d: Datum): nat {
    51 + match d case NullD => 0 case IntD(_) => 4 case BoolD(_) => 1 case StrD(s) => |s| + 1
  }

  /** The longest text whose entry takes at most a fifth of a page. */
  const SHORT_TEXT: nat := ONE_FIFTH - 52

  ghost predicate ShortTexts(cols: seq<ColDesc>, idx: nat, bs: seq<Bytes>) {
    forall i :: 0 <= i < |bs| ==> ShortText(Project(StoredRow(bs[i], cols), [idx])[0])
  }

  predicate ShortText(d: Datum) {
    d.StrD? ==> |d.s| <= SHORT_TEXT
  }

  /** Which heaps the theorems above speak of, for one index column: entries over ints and bools without
      nulls have one safe width; entries over any column are small exactly if the texts are short. */
  lemma OneColumnEntries(cols: seq<ColDesc>, idx: nat, pages: Pages)
    requires HeapOk(pages, ColTypes(cols)) && idx < |cols|
    ensures var bs := LiveOf(pages);
            && (cols[idx].ty == T_INT && NoNullKeys(cols, [idx], bs) ==>
                AllCost(INT_COST, IndexEntries(cols, [idx], bs)))
            && (cols[idx].ty == T_BOOL && NoNullKeys(cols, [idx], bs) ==>
                AllCost(BOOL_COST, IndexEntries(cols, [idx], bs)))
            && (AllSmall(IndexEntries(cols, [idx], bs)) <==> ShortTexts(cols, idx, bs))
  {
    hide LiveOf, HeapOk, IndexEntry, StoredRow, TupleOf, ItemCost, ShortText, Project;
    var bs := LiveOf(pages);
    var es := IndexEntries(cols, [idx], bs);
    forall i: nat | i < |bs|
      ensures ItemCost(es[i]) == KeyCost(Project(StoredRow(bs[i], cols), [idx])[0])
      ensures cols[idx].ty == T_INT && Project(StoredRow(bs[i], cols), [idx])[0] != NullD ==>
              ItemCost(es[i]) == INT_COST
      ensures cols[idx].ty == T_BOOL && Project(StoredRow(bs[i], cols), [idx])[0] != NullD ==>
              ItemCost(es[i]) == BOOL_COST
      ensures ItemCost(es[i]) <= ONE_FIFTH <==> ShortText(Project(StoredRow(bs[i], cols), [idx])[0])
    {
      EntryWidth(cols, idx, bs[i]);
      LiveKey(pages, cols, idx, bs[i]);
      CostOfKey(Project(StoredRow(bs[i], cols), [idx])[0]);
    }
  }

  lemma CostOfKey(d: Datum)
    ensures KeyCost(d) <= ONE_FIFTH <==> ShortText(d)
  {
  }

  lemma LiveKey(pages: Pages, cols: seq<ColDesc>, idx: nat, b: Bytes)
    requires HeapOk(pages, ColTypes(cols)) && idx < |cols| && b in LiveOf(pages)
    ensures var d := Project(StoredRow(b, cols), [idx])[0]; d == NullD || TypeOf(d) == cols[idx].ty
  {
    hide LiveOf, HeapOk, TupleOf, StoredAt, RowOf;
    LiveStored(pages, ColTypes(cols), b);
    var p: nat, s: nat :| StoredAt(b, ColTypes(cols), p, s);
    StoredFacts(b, ColTypes(cols), p, s);
  }
}
