/** The index as a state machine over its chain of pages: one step per insertion, and whole builds. */
module IndexMachine {
  import opened PageLayout
  import opened Types
  import opened Codec
  import opened IndexOrder
  import opened IndexSplit
  import opened IndexChain

  /** BTreePageInit's placeholder: an index tuple header and a tuple with no columns. */
  function EmptyKey(): (b: Bytes)
    ensures |b| == EMPTY_KEY_SIZE
  {
    LE(0, 4) + LE(TUPLE_HEADER, 8) + LE(0, 16)
  }

  /** An index with no root page yet behaves as one whose root holds the placeholder alone. */
  const FRESH: Nodes := [[EmptyKey()]]

  ghost predicate Headed(nodes: Nodes) {
    nodes != [] && forall i :: 0 <= i < |nodes| ==> nodes[i] != []
  }

  /** A search that starts on the first page has something to compare with: a key there, or its high key. */
  predicate Searched(nodes: Nodes) {
    |nodes| > 1 || (|nodes| == 1 && |nodes[0]| > 1)
  }

  /** The page where the insertion loop stops, started at page i. */
  ghost function StopFrom(kt: BType, k: Datum, nodes: Nodes, i: nat): (r: nat)
    requires i < |nodes|
    ensures i <= r < |nodes|
    ensures forall j :: i <= j < r ==> MovesRight(kt, k, nodes[j])
    ensures r < |nodes| - 1 ==> !MovesRight(kt, k, nodes[r])
    decreases |nodes| - i
  {
    hide MovesRight;
    if i == |nodes| - 1 || !MovesRight(kt, k, nodes[i]) then i else StopFrom(kt, k, nodes, i + 1)
  }

  lemma MovesRightIff(kt: BType, k: Datum, slots: seq<Bytes>)
    requires slots != []
    ensures MovesRight(kt, k, slots) <==> InsertionIdx(kt, k, slots, false) == HIGH_KEY
  {
    hide KeyGt;
  }

  lemma StopsWhereItStops(kt: BType, k: Datum, nodes: Nodes)
    requires Headed(nodes)
    ensures StopsAt(kt, k, nodes, StopFrom(kt, k, nodes, 0))
  {
    hide KeyGt, Keys, Pos;
    var i := StopFrom(kt, k, nodes, 0);
    if Pos(kt, k, Keys(nodes[i])) == |Keys(nodes[i])| {
      assert AllBelow(kt, k, Keys(nodes[i]));
    }
  }

  /** What inserting e comes to. */
  ghost function Outcome(kt: BType, nodes: Nodes, e: Bytes, src: nat): InsertResult
    requires Headed(nodes)
  {
    var i := StopFrom(kt, KeyOf(kt, e), nodes, 0);
    InsertOutcome(kt, nodes[i], e, src, i == |nodes| - 1)
  }

  /** The page or pages that take the place of the page the key stops at. */
  ghost function PagesAfter(kt: BType, slots: seq<Bytes>, e: Bytes, src: nat): Nodes
    requires slots != []
  {
    var p := Pos(kt, KeyOf(kt, e), Keys(slots));
    if AddOutcome(NODE_CAPACITY - Cost(slots), |e|) != Full || src >= |slots| then
      [InsertAt(slots, p + 1, e)]
    else
      var v := Inserted(kt, Keys(slots), e);
      var c := LeftCount(v, p);
      [[v[c]] + v[..c], [slots[src]] + v[c..]]
  }

  /** The chain after an insertion that is done. */
  ghost function NodesAfter(kt: BType, nodes: Nodes, e: Bytes, src: nat): Nodes
    requires Headed(nodes)
  {
    var i := StopFrom(kt, KeyOf(kt, e), nodes, 0);
    Replaced(nodes, i, PagesAfter(kt, nodes[i], e, src))
  }

  /** The two pages of a split that clobbers: the right page has the new item in front of its high key, so
      that its first key is the displaced high key, which the left page then takes as its own. */
  ghost function ClobberedPages(kt: BType, slots: seq<Bytes>, e: Bytes, high: Bytes): Nodes {
    var keys, c := Keys(slots), LeftOf(kt, Keys(slots), e);
    [[high] + keys[..c], [e, high] + keys[c..]]
  }

  /** The chain after an insertion the program gets through; otherwise the chain as it was. */
  ghost function NodesNext(kt: BType, nodes: Nodes, e: Bytes, src: nat): Nodes
    requires Headed(nodes)
  {
    var i := StopFrom(kt, KeyOf(kt, e), nodes, 0);
    match Outcome(kt, nodes, e, src)
    case Done => NodesAfter(kt, nodes, e, src)
    case Clobbered => if src < |nodes[i]| then Replaced(nodes, i, ClobberedPages(kt, nodes[i], e, nodes[i][src]))
      else nodes
    case _ => nodes
  }

  /** The new item is pushed into the high-key slot if the split gets that far. */
  ghost predicate PushedOut(kt: BType, nodes: Nodes, e: Bytes, src: nat)
    requires Headed(nodes)
  {
    var i := StopFrom(kt, KeyOf(kt, e), nodes, 0);
    src < |nodes[i]| && Clobbers(kt, Keys(nodes[i]), e, nodes[i][src], i == |nodes| - 1)
  }

  /** What a clobbering insertion does to the entries: the new one is not among them, and the one the right
      page's high key was copied from is there twice. */
  lemma ClobberLoses(kt: BType, nodes: Nodes, e: Bytes, src: nat)
    requires Headed(nodes) && Outcome(kt, nodes, e, src) == Clobbered
    ensures var i := StopFrom(kt, KeyOf(kt, e), nodes, 0);
            && src < |nodes[i]|
            && multiset(ChainKeys(NodesNext(kt, nodes, e, src))) == multiset(ChainKeys(nodes)) + multiset{nodes[i][src]}
  {
    hide StopFrom, KeyOf, LeftOf, ChainKeys, Keys, SplitOutcome, Cost, AddOutcome, Replaced;
    var i := StopFrom(kt, KeyOf(kt, e), nodes, 0);
    var keys, c, high := Keys(nodes[i]), LeftOf(kt, Keys(nodes[i]), e), nodes[i][src];
    var left, right := [high] + keys[..c], [e, high] + keys[c..];
    ReplacedTwo(nodes, i, left, right);
    ChainAt(nodes, i);
    ClobberedKeys(keys, c, e, high);
    var front, back := ChainKeys(nodes[..i]), ChainKeys(nodes[i + 1..]);
    assert multiset(front + Keys(left) + Keys(right) + back) ==
           multiset(front) + multiset(Keys(left) + Keys(right)) + multiset(back);
  }

  lemma ReplacedTwo(nodes: Nodes, i: nat, left: seq<Bytes>, right: seq<Bytes>)
    requires i < |nodes|
    ensures ChainKeys(Replaced(nodes, i, [left, right])) ==
            ChainKeys(nodes[..i]) + Keys(left) + Keys(right) + ChainKeys(nodes[i + 1..])
  {
    hide Keys, ChainKeys;
    ChainConcat(nodes[..i], [left, right]);
    ChainConcat(nodes[..i] + [left, right], nodes[i + 1..]);
    ChainStep([left, right], 0);
    ChainStep([left, right], 1);
    ChainEmpty();
    assert [left, right][..0] == [] && [left, right][..2] == [left, right];
  }

  lemma ClobberedKeys(keys: seq<Bytes>, c: nat, e: Bytes, high: Bytes)
    requires c <= |keys|
    ensures multiset(Keys([high] + keys[..c]) + Keys([e, high] + keys[c..])) == multiset(keys) + multiset{high}
  {
    assert Keys([high] + keys[..c]) == keys[..c] && Keys([e, high] + keys[c..]) == [high] + keys[c..];
    assert keys == keys[..c] + keys[c..];
  }

  ghost predicate Ok(kt: BType, nodes: Nodes, src: nat) {
    nodes != [] && ChainOk(kt, nodes, src)
  }

  lemma FreshOk(kt: BType, src: nat)
    ensures Ok(kt, FRESH, src) && ChainKeys(FRESH) == []
  {
    OneNode(FRESH[0]);
  }

  /** One insertion, split or not, keeps the whole-index invariant and adds exactly the new entry, at
      its lower bound among all entries. */
  lemma StepKeeps(kt: BType, nodes: Nodes, e: Bytes, src: nat)
    requires Ok(kt, nodes, src) && src <= 1
    ensures ChainKeys(NodesAfter(kt, nodes, e, src)) == Inserted(kt, ChainKeys(nodes), e)
    ensures Ok(kt, NodesAfter(kt, nodes, e, src), src)
  {
    hide Pos, KeyOf, ChainKeys, Inserted, LeftCount, AddOutcome, Cost, StopsAt, ChainOk, Replaced;
    OkHeaded(kt, nodes, src);
    var i := StopFrom(kt, KeyOf(kt, e), nodes, 0);
    StopsWhereItStops(kt, KeyOf(kt, e), nodes);
    var mid := PagesAfter(kt, nodes[i], e, src);
    if AddOutcome(NODE_CAPACITY - Cost(nodes[i]), |e|) != Full || src >= |nodes[i]| {
      AfterInsert(kt, nodes, i, e, src);
    } else {
      var p := Pos(kt, KeyOf(kt, e), Keys(nodes[i]));
      AfterSplit(kt, nodes, i, e, src, LeftCount(Inserted(kt, Keys(nodes[i]), e), p));
    }
    ReplacedSize(nodes, i, mid);
  }

  /** Where a split falls, by the bytes: s keys of the page as it would be, and no more, fit the left page
      together with the next one as its high key. These stay there, but for the new one if it is the last. */
  lemma SplitFallsAt(kt: BType, slots: seq<Bytes>, e: Bytes, src: nat, s: nat, p: nat)
    requires slots != [] && src < |slots| && AddOutcome(NODE_CAPACITY - Cost(slots), |e|) == Full
    requires p < |slots| && AllBelow(kt, KeyOf(kt, e), Keys(slots)[..p])
    requires p < |slots| - 1 ==> !KeyGt(kt, KeyOf(kt, e), Keys(slots)[p])
    requires 1 <= s < |slots| && Cost(InsertAt(Keys(slots), p, e)[..s + 1]) <= 8159
    requires s + 1 < |slots| ==> Cost(InsertAt(Keys(slots), p, e)[..s + 2]) > 8159
    ensures var pages := PagesAfter(kt, slots, e, src);
            |pages| == 2 && pages[0] != [] && |Keys(pages[0])| == if p + 1 == s then s - 1 else s
  {
    hide Cost, KeyOf, KeyGt, Pos, SplitPoint, AddOutcome;
    var keys := Keys(slots);
    forall i | 0 <= i < p
      ensures KeyGt(kt, KeyOf(kt, e), keys[i])
    {
      assert keys[..p][i] == keys[i];
    }
    PosUnique(kt, KeyOf(kt, e), keys, p);
    var v := InsertAt(keys, p, e);
    var found := SplitPoint(v, |v|);
    if found > s {
      CostMonotone(v, s + 2, found + 1);
    }
    assert found == s;
  }

  lemma OkHeaded(kt: BType, nodes: Nodes, src: nat)
    requires Ok(kt, nodes, src)
    ensures Headed(nodes)
  {
  }

  lemma ReplacedSize(nodes: Nodes, i: nat, mid: Nodes)
    requires i < |nodes|
    ensures |Replaced(nodes, i, mid)| == |nodes| - 1 + |mid|
  {
  }
}
