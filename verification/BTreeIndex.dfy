/** The index file: a meta page, then node pages linked from page 1. Pages are read into private
    buffers and written back whole. */
module BTreeIndex {
  import opened PageLayout
  import PageBuffer
  import opened Types
  import opened Codec
  import opened IndexOrder
  import opened IndexSplit
  import opened IndexChain
  import opened IndexMachine
  import opened IndexNode

  const ROOT_ID: nat := 1

  /** chain lists the node pages of the file in right-link order: from page 1, no page twice, none
      left out, the last one linking to NULL_PAGE. */
  ghost predicate Linked(pages: seq<PageImage>, chain: seq<nat>) {
    && |pages| == |chain| + 1 && |chain| >= 1 && chain[0] == ROOT_ID
    && (forall i :: 0 <= i < |chain| ==> LinkAt(pages, chain, i))
    && Distinct(chain)
  }

  ghost predicate Distinct(chain: seq<nat>) {
    forall i, j :: 0 <= i < j < |chain| ==> chain[i] != chain[j]
  }

  /** The i-th page of the chain is a node page that links to the next one. */
  ghost predicate LinkAt(pages: seq<PageImage>, chain: seq<nat>, i: nat) {
    && i < |chain| && 1 <= chain[i] < |pages| && NodeImage(pages[chain[i]])
    && LinksTo(pages[chain[i]], Next(chain, i))
  }

  ghost function Next(chain: seq<nat>, i: nat): nat {
    if i + 1 < |chain| then chain[i + 1] else NULL_PAGE
  }

  ghost predicate LinksTo(p: PageImage, id: nat) {
    p.info.NodeInfo? && p.info.right == id
  }

  ghost function NodesOf(pages: seq<PageImage>, chain: seq<nat>): (nodes: Nodes)
    ensures |nodes| == |chain|
    ensures forall i :: 0 <= i < |nodes| && chain[i] < |pages| ==> nodes[i] == Slots(pages[chain[i]])
  {
    seq(|chain|, i requires 0 <= i < |chain| => if chain[i] < |pages| then Slots(pages[chain[i]]) else [])
  }

  lemma LinkedAt(pages: seq<PageImage>, chain: seq<nat>, i: nat)
    requires Linked(pages, chain) && i < |chain|
    ensures 1 <= chain[i] < |pages| && NodeImage(pages[chain[i]])
    ensures NodesOf(pages, chain)[i] == Slots(pages[chain[i]]) && |Slots(pages[chain[i]])| >= 1
    ensures pages[chain[i]].info.NodeInfo? && pages[chain[i]].info.right == Next(chain, i)
    ensures pages[chain[i]].info.right == NULL_PAGE <==> i == |chain| - 1
  {
    hide Slots;
    assert LinkAt(pages, chain, i);
    if i + 1 < |chain| {
      assert LinkAt(pages, chain, i + 1);
    }
  }

  lemma LinkedHeaded(pages: seq<PageImage>, chain: seq<nat>)
    requires Linked(pages, chain)
    ensures Headed(NodesOf(pages, chain))
  {
    hide Slots, NodesOf;
    forall i | 0 <= i < |chain|
      ensures NodesOf(pages, chain)[i] != []
    {
      LinkedAt(pages, chain, i);
    }
  }

  lemma ChainApart(pages: seq<PageImage>, chain: seq<nat>, i: nat, j: nat)
    requires Linked(pages, chain) && i < |chain| && j < |chain| && i != j
    ensures chain[i] != chain[j]
  {
    hide LinkAt;
    if i < j {
      assert chain[i] != chain[j];
    } else {
      assert chain[j] != chain[i];
    }
  }

  /** Rewriting one page in place, same link. */
  lemma LinkedUpdate(pages: seq<PageImage>, chain: seq<nat>, i: nat, p: PageImage)
    requires Linked(pages, chain) && i < |chain| && chain[i] < |pages| && NodeImage(p) && LinksTo(p, Next(chain, i))
    ensures Linked(pages[chain[i] := p], chain)
    ensures NodesOf(pages[chain[i] := p], chain) == Replaced(NodesOf(pages, chain), i, [Slots(p)])
  {
    hide Slots, NodeImage, LinksTo, NodesOf;
    var q := pages[chain[i] := p];
    var r := Replaced(NodesOf(pages, chain), i, [Slots(p)]);
    forall j | 0 <= j < |chain|
      ensures LinkAt(q, chain, j) && NodesOf(q, chain)[j] == r[j]
    {
      assert LinkAt(pages, chain, j);
      if j != i {
        ChainApart(pages, chain, i, j);
      }
    }
  }

  /** The file after a split of page id: the left half in its place, the right half appended. */
  ghost function SplitPages(pages: seq<PageImage>, id: nat, left: PageImage, right: PageImage): (r: seq<PageImage>)
    ensures |r| == |pages| + 1 && r[|pages|] == right
    ensures forall j :: 0 <= j < |pages| ==> r[j] == if j == id then left else pages[j]
  {
    if id < |pages| then pages[id := left] + [right] else pages + [right]
  }

  ghost function SplitChain(chain: seq<nat>, i: nat, newId: nat): (r: seq<nat>)
    requires i < |chain|
    ensures |r| == |chain| + 1
    ensures forall j :: 0 <= j < |r| ==> r[j] == if j <= i then chain[j] else if j == i + 1 then newId else chain[j - 1]
  {
    InsertAt(chain, i + 1, newId)
  }

  /** Rewriting one page as the left half of a split and appending the right half. */
  lemma LinkedSplit(pages: seq<PageImage>, chain: seq<nat>, i: nat, left: PageImage, right: PageImage)
    requires Linked(pages, chain) && i < |chain| && NodeImage(left) && NodeImage(right)
    requires LinksTo(left, |pages|) && LinksTo(right, Next(chain, i))
    ensures Linked(SplitPages(pages, chain[i], left, right), SplitChain(chain, i, |pages|))
    ensures NodesOf(SplitPages(pages, chain[i], left, right), SplitChain(chain, i, |pages|))
            == Replaced(NodesOf(pages, chain), i, [Slots(left), Slots(right)])
  {
    hide NodeImage, LinksTo, SplitPages, Slots, LinkAt, NodesOf, Distinct;
    var q, after := SplitPages(pages, chain[i], left, right), SplitChain(chain, i, |pages|);
    var r := Replaced(NodesOf(pages, chain), i, [Slots(left), Slots(right)]);
    forall j | 0 <= j < |after|
      ensures LinkAt(q, after, j) && NodesOf(q, after)[j] == r[j]
    {
      SplitLink(pages, chain, i, left, right, j);
    }
    SplitDistinct(pages, chain, i);
  }

  lemma SplitLink(pages: seq<PageImage>, chain: seq<nat>, i: nat, left: PageImage, right: PageImage, j: nat)
    requires Linked(pages, chain) && i < |chain| && NodeImage(left) && NodeImage(right) && j <= |chain|
    requires LinksTo(left, |pages|) && LinksTo(right, Next(chain, i))
    ensures var q, after := SplitPages(pages, chain[i], left, right), SplitChain(chain, i, |pages|);
            LinkAt(q, after, j) && NodesOf(q, after)[j] ==
              Replaced(NodesOf(pages, chain), i, [Slots(left), Slots(right)])[j]
  {
    hide NodeImage, LinksTo, SplitPages, Slots, NodesOf;
    assert LinkAt(pages, chain, i);
    if j < i {
      assert LinkAt(pages, chain, j);
      ChainApart(pages, chain, i, j);
    } else if j > i + 1 {
      assert LinkAt(pages, chain, j - 1);
      ChainApart(pages, chain, i, j - 1);
    }
  }

  lemma SplitDistinct(pages: seq<PageImage>, chain: seq<nat>, i: nat)
    requires Linked(pages, chain) && i < |chain|
    ensures Distinct(SplitChain(chain, i, |pages|))
  {
    hide NodeImage, LinksTo;
    var after := SplitChain(chain, i, |pages|);
    forall j, k | 0 <= j < k < |after|
      ensures after[j] != after[k]
    {
      var j', k' := if j <= i then j else j - 1, if k <= i then k else k - 1;
      assert LinkAt(pages, chain, j') && LinkAt(pages, chain, k');
      if j' != k' {
        ChainApart(pages, chain, j', k');
      }
    }
  }

  class Index {
    const kt: BType
    const src: nat
    var pages: seq<PageImage>
    ghost var chain: seq<nat>

    ghost predicate Valid()
      reads this
    {
      && src <= 1 && |pages| >= 1
      && ValidImage(pages[0]) && pages[0].info.MetaInfo?
      && (pages[0].info.root == NULL_PAGE ==> |pages| == 1 && chain == [])
      && (pages[0].info.root != NULL_PAGE ==> pages[0].info.root == ROOT_ID && Linked(pages, chain))
    }

    /** The chain of pages, as slots. */
    ghost function View(): (nodes: Nodes)
      requires Valid()
      reads this
      ensures Headed(nodes)
    {
      if pages[0].info.root == NULL_PAGE then FRESH else LinkedHeaded(pages, chain); NodesOf(pages, chain)
    }

    /** CreateBTreeIndex, as far as the file goes: the meta page alone. */
    constructor (kt: BType, src: nat)
      requires src <= 1
      ensures Valid() && View() == FRESH && this.kt == kt && this.src == src
    {
      this.kt, this.src := kt, src;
      EmptyMeaning(META_INFO_SIZE, MetaInfo(NULL_PAGE));
      pages := [EmptyImage(META_INFO_SIZE, MetaInfo(NULL_PAGE))];
      chain := [];
    }

    /** BTreeReadOrCreateRootPageId. */
    method EnsureRoot() returns (id: nat)
      requires Valid()
      modifies this
      ensures Valid() && View() == old(View())
      ensures id == ROOT_ID && pages[0].info.root == ROOT_ID
    {
      hide EmptyKey, Slots, ValidImage;
      if pages[0].info.root != NULL_PAGE {
        return pages[0].info.root;
      }
      var root := NewNode(0, ROOT_PAGE + LEAF_PAGE, NULL_PAGE);
      RootNode(root.Image());
      MetaKeeps(pages[0]);
      pages := [pages[0].(info := MetaInfo(ROOT_ID)), root.Image()];
      chain := [ROOT_ID];
      FreshLinked(pages);
      return ROOT_ID;
    }

    /** Whether GetInsertionIdx on page 1 calls the comparison function. */
    method Compares() returns (r: bool)
      requires Valid()
      ensures r == Searched(View())
    {
      hide NodeImage, ValidImage, Slots, LinkAt;
      if pages[0].info.root == NULL_PAGE {
        return false;
      }
      ChainStart(pages, chain);
      LinkedAt(pages, chain, 0);
      NodeFacts(pages[ROOT_ID]);
      r := |pages[ROOT_ID].locs| > 1 || pages[ROOT_ID].info.right != NULL_PAGE;
    }

    /** The search for the page to insert into: from the root along right links. */
    method Locate(k: Datum) returns (id: nat, ghost i: nat)
      requires Valid() && pages[0].info.root == ROOT_ID
      ensures i == StopFrom(kt, k, View(), 0) < |chain| && id == chain[StopFrom(kt, k, View(), 0)]
    {
      hide Slots, NodeImage, ValidImage, KeyGt, Linked, MovesRight, InsertionIdx, NodesOf;
      ghost var nodes := View();
      LinkedHeaded(pages, chain);
      ChainStart(pages, chain);
      LinkedAt(pages, chain, 0);
      id, i := ROOT_ID, 0;
      var idx := IdxOn(id, 0, k);
      while idx == HIGH_KEY && pages[id].info.right != NULL_PAGE
        invariant i < |chain| && chain[i] == id && id < |pages| && pages[id].info.NodeInfo?
        invariant pages[id].info.right == NULL_PAGE <==> i == |chain| - 1
        invariant idx == InsertionIdx(kt, k, nodes[i], i == |chain| - 1)
        invariant StopFrom(kt, k, nodes, i) == StopFrom(kt, k, nodes, 0)
        decreases |chain| - i
      {
        MovesRightIff(kt, k, nodes[i]);
        LinkedAt(pages, chain, i);
        LinkedAt(pages, chain, i + 1);
        id, i := pages[id].info.right, i + 1;
        idx := IdxOn(id, i, k);
      }
      MovesRightIff(kt, k, nodes[i]);
    }

    /** GetInsertionIdx on page id, the i-th of the chain. */
    method IdxOn(id: nat, ghost i: nat, k: Datum) returns (idx: nat)
      requires Valid() && pages[0].info.root == ROOT_ID && i < |chain| && chain[i] == id
      ensures |View()| == |chain| && idx == InsertionIdx(kt, k, View()[i], i == |chain| - 1)
    {
      hide Slots, NodeImage, ValidImage, KeyGt, InsertionIdx;
      LinkedAt(pages, chain, i);
      NodeFacts(pages[id]);
      var page := new PageBuffer.Page.Read(pages[id]);
      idx := FindIdx(page, kt, k);
    }

    /** BTreeIndexInsert. What it comes to and the chain it leaves are those of the state machine; where the
        program stops, the chain is as it was. */
    method Insert(e: Bytes) returns (r: InsertResult)
      requires Valid() && EMPTY_KEY_SIZE <= |e| < PAGE_SIZE
      modifies this
      ensures r == Outcome(kt, old(View()), e, src)
      ensures Valid()
      ensures View() == NodesNext(kt, old(View()), e, src)
    {
      hide Slots, NodeImage, ValidImage, KeyOf, Outcome, NodesAfter, Linked, StopFrom;
      var root := EnsureRoot();
      var id, i := Locate(KeyOf(kt, e));
      LinkedAt(pages, chain, i);
      NodeFacts(pages[id]);
      var cur := new PageBuffer.Page.Read(pages[id]);
      Bounds(cur.Image());
      FreeSpaceTest(cur.upper, cur.lower, |e|);
      if FreeSpace(cur.upper, cur.lower) >= |e| {
        r := PutItem(cur, id, i, e);
      } else {
        r := PutSplit(cur, id, i, e);
      }
    }

    /** The page seems to have room. */
    method PutItem(cur: PageBuffer.Page, id: nat, ghost i: nat, e: Bytes) returns (r: InsertResult)
      requires Valid() && pages[0].info.root == ROOT_ID && EMPTY_KEY_SIZE <= |e| < PAGE_SIZE
      requires i < |chain| && chain[i] == id && id < |pages| && i == StopFrom(kt, KeyOf(kt, e), View(), 0)
      requires cur.Valid() && cur.Image() == pages[id] && AddOutcome(Slack(pages[id]), |e|) != Full
      modifies this, cur, cur.data, cur.locs
      ensures r == Outcome(kt, old(View()), e, src)
      ensures Valid()
      ensures View() == NodesNext(kt, old(View()), e, src)
    {
      hide Slots, NodeImage, ValidImage, KeyOf, Linked, StopFrom, InsertionIdx, Pos, AddOutcome, Cost, Keys, AllBig,
           Outcome, NodesNext, Replaced;
      LinkedAt(pages, chain, i);
      NodeFacts(pages[id]);
      StopIdx(kt, KeyOf(kt, e), View());
      FitsOutcome(kt, View(), e, src);
      var idx := FindIdx(cur, kt, KeyOf(kt, e));
      var was := cur.Image();
      var added := cur.AddItemAt(idx, e);
      OutcomeCases(Slack(was), |e|);
      if added == AddResult.Overrun {
        return InsertResult.Overrun;
      }
      AddMeaning(was, idx, e);
      NodeAdded(was, cur.Image(), idx, e);
      LinkedUpdate(pages, chain, i, cur.Image());
      pages := pages[id := cur.Image()];
      return InsertResult.Done;
    }

    /** The page is full: split it, write the left half back and the right half past the end. */
    method PutSplit(cur: PageBuffer.Page, id: nat, ghost i: nat, e: Bytes) returns (r: InsertResult)
      requires Valid() && pages[0].info.root == ROOT_ID && EMPTY_KEY_SIZE <= |e| < PAGE_SIZE
      requires i < |chain| && chain[i] == id && id < |pages| && i == StopFrom(kt, KeyOf(kt, e), View(), 0)
      requires cur.Valid() && cur.Image() == pages[id] && AddOutcome(Slack(pages[id]), |e|) == Full
      modifies this
      ensures r == Outcome(kt, old(View()), e, src)
      ensures Valid()
      ensures View() == NodesNext(kt, old(View()), e, src)
    {
      hide Slots, NodeImage, ValidImage, KeyOf, Linked, StopFrom, InsertionIdx, Pos, AddOutcome, Cost, Keys, AllBig,
           InsertOutcome, PagesAfter;
      LinkedAt(pages, chain, i);
      NodeFacts(pages[id]);
      StopIdx(kt, KeyOf(kt, e), View());
      var newId := |pages|;
      var left, right;
      r, left, right := Split(cur, kt, e, src, newId);
      if r == InsertResult.Done || r == Clobbered {
        NodeFacts(left);
        NodeFacts(right);
        LinkedSplit(pages, chain, i, left, right);
        ghost var after := SplitChain(chain, i, newId);
        assert pages[id := left] + [right] == SplitPages(pages, id, left, right);
        pages, chain := pages[id := left] + [right], after;
      }
    }
  }

  /** On the page the search stops at, the insertion slot is never the high-key slot. */
  lemma StopIdx(kt: BType, k: Datum, nodes: Nodes)
    requires Headed(nodes)
    ensures var i := StopFrom(kt, k, nodes, 0);
            InsertionIdx(kt, k, nodes[i], i == |nodes| - 1) == Pos(kt, k, Keys(nodes[i])) + 1
  {
    hide KeyGt, Pos, MovesRight;
    StopsWhereItStops(kt, k, nodes);
  }

  lemma FitsOutcome(kt: BType, nodes: Nodes, e: Bytes, src: nat)
    requires Headed(nodes)
    ensures var i := StopFrom(kt, KeyOf(kt, e), nodes, 0);
            AddOutcome(NODE_CAPACITY - Cost(nodes[i]), |e|) != Full ==>
              && (Outcome(kt, nodes, e, src) ==
                  if AddOutcome(NODE_CAPACITY - Cost(nodes[i]), |e|) == Added then InsertResult.Done
                  else InsertResult.Overrun)
              && (Outcome(kt, nodes, e, src) == InsertResult.Done ==>
                    NodesNext(kt, nodes, e, src) ==
                      Replaced(nodes, i, [InsertAt(nodes[i], Pos(kt, KeyOf(kt, e), Keys(nodes[i])) + 1, e)]))
              && (Outcome(kt, nodes, e, src) == InsertResult.Overrun ==> NodesNext(kt, nodes, e, src) == nodes)
  {
    hide KeyOf, Cost, AddOutcome, Keys, Replaced, Pos, SplitOutcome, StopFrom;
  }

  lemma NodeAdded(was: PageImage, now: PageImage, idx: nat, e: Bytes)
    requires NodeImage(was) && ValidImage(now) && now.special == was.special && now.info == was.info
    requires idx <= |was.locs| && EMPTY_KEY_SIZE <= |e| < PAGE_SIZE && Slots(now) == InsertAt(Slots(was), idx, e)
    ensures NodeImage(now)
  {
    hide Slots, ValidImage;
  }

  lemma FreshLinked(pages: seq<PageImage>)
    requires |pages| == 2 && NodeImage(pages[1]) && LinksTo(pages[1], NULL_PAGE) && Slots(pages[1]) == [EmptyKey()]
    ensures Linked(pages, [ROOT_ID]) && NodesOf(pages, [ROOT_ID]) == FRESH
  {
    hide NodeImage, Slots, EmptyKey;
  }

  lemma ChainStart(pages: seq<PageImage>, chain: seq<nat>)
    requires Linked(pages, chain)
    ensures |chain| >= 1 && chain[0] == ROOT_ID
  {
  }

  lemma RootNode(p: PageImage)
    requires ValidImage(p) && p.special == NODE_SPECIAL && p.info == NodeInfo(0, ROOT_PAGE + LEAF_PAGE, NULL_PAGE)
    requires Slots(p) == [EmptyKey()]
    ensures NodeImage(p)
  {
  }

  lemma MetaKeeps(p: PageImage)
    requires ValidImage(p)
    ensures ValidImage(p.(info := MetaInfo(ROOT_ID)))
  {
  }
}
