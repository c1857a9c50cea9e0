/** Inputs that decide how a build goes: entries in key order never lose one; families of inputs make the
    program go wrong. */
module IndexInputs {
  import opened PageLayout
  import opened Types
  import opened Codec
  import opened IndexOrder
  import opened IndexSplit
  import opened IndexChain
  import opened IndexMachine
  import opened IndexRuns

  // ----- ordered heaps

  lemma OnePageNeverPushes(kt: BType, nodes: Nodes, e: Bytes, src: nat)
    requires Headed(nodes) && |nodes| == 1
    ensures StopFrom(kt, KeyOf(kt, e), nodes, 0) == 0
    ensures !PushedOut(kt, nodes, e, src)
  {
    hide KeyOf, Pos, MovesRight, KeyGt;
  }

  /** An entry not above any other goes to the first page, and not to its end. */
  lemma LowestNeverPushes(kt: BType, nodes: Nodes, e: Bytes, src: nat)
    requires Headed(nodes) && NoneEmpty(nodes)
    requires NoneBelow(kt, KeyOf(kt, e), ChainKeys(nodes))
    ensures !PushedOut(kt, nodes, e, src)
  {
    hide KeyOf, KeyGt, ChainKeys;
    ChainAt(nodes, 0);
    assert nodes[..0] == [];
    ChainEmpty();
    assert ChainKeys(nodes)[0] == Keys(nodes[0])[0];
    PosUnique(kt, KeyOf(kt, e), Keys(nodes[0]), 0);
    assert !MovesRight(kt, KeyOf(kt, e), nodes[0]);
    assert StopFrom(kt, KeyOf(kt, e), nodes, 0) == 0;
  }

  lemma AboveMovesRight(kt: BType, nodes: Nodes, k: Datum, i: nat)
    requires Headed(nodes) && NoneEmpty(nodes) && HighsOrdered(kt, nodes)
    requires AllBelow(kt, k, ChainKeys(nodes)) && i + 1 < |nodes|
    ensures MovesRight(kt, k, nodes[i])
  {
    hide KeyOf, Gt, Keys, ChainKeys;
    PageAllBelow(kt, nodes, k, i);
    PageAllBelow(kt, nodes, k, i + 1);
    assert HighBounds(kt, nodes[i], nodes[i + 1]);
    KeysCount(nodes[i + 1]);
    var y := Keys(nodes[i + 1])[0];
    assert KeyGt(kt, k, y) && !KeyGt(kt, KeyOf(kt, nodes[i][HIGH_KEY]), y);
    GtOrder();
  }

  lemma PageAllBelow(kt: BType, nodes: Nodes, k: Datum, i: nat)
    requires AllBelow(kt, k, ChainKeys(nodes)) && i < |nodes|
    ensures AllBelow(kt, k, Keys(nodes[i]))
  {
    hide KeyGt, Keys, ChainKeys;
    ChainAt(nodes, i);
    forall a | 0 <= a < |Keys(nodes[i])|
      ensures KeyGt(kt, k, Keys(nodes[i])[a])
    {
      assert ChainKeys(nodes)[|ChainKeys(nodes[..i])| + a] == Keys(nodes[i])[a];
    }
  }

  /** An entry above every other goes to the last page. */
  lemma HighestNeverPushes(kt: BType, nodes: Nodes, e: Bytes, src: nat)
    requires Headed(nodes) && NoneEmpty(nodes) && HighsOrdered(kt, nodes)
    requires AllBelow(kt, KeyOf(kt, e), ChainKeys(nodes))
    ensures !PushedOut(kt, nodes, e, src)
  {
    hide KeyOf, KeyGt, ChainKeys, Pos, MovesRight, HighsOrdered, AllBelow;
    var i := StopFrom(kt, KeyOf(kt, e), nodes, 0);
    if i < |nodes| - 1 {
      AboveMovesRight(kt, nodes, KeyOf(kt, e), i);
      assert false;
    }
  }

  ghost predicate Ascending(kt: BType, es: seq<Bytes>) {
    forall i, j :: 0 <= i < j < |es| ==> KeyGt(kt, KeyOf(kt, es[j]), es[i])
  }

  ghost predicate NonIncreasing(kt: BType, es: seq<Bytes>) {
    forall i, j :: 0 <= i < j < |es| ==> !KeyGt(kt, KeyOf(kt, es[j]), es[i])
  }

  /** Building an index as written over small entries in strictly ascending, or in non-increasing, key order
      completes exactly if every insertion finds six bytes on its page; nothing but an overrun can go wrong. */
  lemma {:induction false} OrderedBuild(kt: BType, es: seq<Bytes>, src: nat)
    requires AllSmall(es) && src <= 1
    requires Ascending(kt, es) || NonIncreasing(kt, es)
    ensures Run(kt, es, src).result == if AllRoomy(kt, es, src) then InsertResult.Done else InsertResult.Overrun
  {
    hide Cost, ItemCost, Run, Headed, KeysKept, Ascending, NonIncreasing, Small, AllAdmitted, AllRoomy, Outcome, Roomy,
         NodesNext, PushedOut;
    RunNone(kt, src);
    if es == [] {
      FreshSmall(kt, src);
    } else {
      OrderedPrefix(kt, es);
      var init, last := es[..|es| - 1], es[|es| - 1];
      OrderedBuild(kt, init, src);
      RunOne(kt, init, last, src);
      AllAdmittedStep(kt, init, last, src);
      SmallBuild(kt, init, src);
      SmallBuild(kt, es, src);
      SmallStep(kt, Run(kt, init, src).nodes, last, src);
      if Run(kt, init, src).result == InsertResult.Done {
        OrderedNeverPushes(kt, init, last, src);
      }
    }
  }

  lemma OrderedNeverPushes(kt: BType, init: seq<Bytes>, last: Bytes, src: nat)
    requires src <= 1 && Run(kt, init, src).result == InsertResult.Done
    requires KeysKept(Run(kt, init, src).nodes)
    requires Ascending(kt, init + [last]) || NonIncreasing(kt, init + [last])
    ensures Headed(Run(kt, init, src).nodes) && !PushedOut(kt, Run(kt, init, src).nodes, last, src)
  {
    hide KeyOf, KeyGt, ChainKeys, Run, InsertedAll, NoneEmpty, HighsOrdered, Ascending, NonIncreasing, Ok, AllBelow,
         NoneBelow, PushedOut, Headed;
    var nodes := Run(kt, init, src).nodes;
    BuildRefines(kt, init, src);
    BuildSorts(kt, init);
    OrderedStep(kt, init, last, nodes);
    if |nodes| == 1 {
      OnePageNeverPushes(kt, nodes, last, src);
    } else if AllBelow(kt, KeyOf(kt, last), ChainKeys(nodes)) {
      OkHighs(kt, nodes, src);
      HighestNeverPushes(kt, nodes, last, src);
    } else {
      LowestNeverPushes(kt, nodes, last, src);
    }
  }

  lemma OrderedPrefix(kt: BType, es: seq<Bytes>)
    requires es != []
    ensures es == es[..|es| - 1] + [es[|es| - 1]]
    ensures Ascending(kt, es) ==> Ascending(kt, es[..|es| - 1])
    ensures NonIncreasing(kt, es) ==> NonIncreasing(kt, es[..|es| - 1])
  {
    hide KeyOf, KeyGt;
  }

  lemma OkHighs(kt: BType, nodes: Nodes, src: nat)
    requires Ok(kt, nodes, src)
    ensures HighsOrdered(kt, nodes)
  {
  }

  lemma OrderedStep(kt: BType, init: seq<Bytes>, last: Bytes, nodes: Nodes)
    requires multiset(ChainKeys(nodes)) == multiset(init)
    requires Ascending(kt, init + [last]) || NonIncreasing(kt, init + [last])
    ensures Ascending(kt, init + [last]) ==> AllBelow(kt, KeyOf(kt, last), ChainKeys(nodes))
    ensures NonIncreasing(kt, init + [last]) ==> NoneBelow(kt, KeyOf(kt, last), ChainKeys(nodes))
  {
    hide KeyOf, KeyGt, ChainKeys;
    var es, keys := init + [last], ChainKeys(nodes);
    forall i | 0 <= i < |keys|
      ensures Ascending(kt, es) ==> KeyGt(kt, KeyOf(kt, last), keys[i])
      ensures NonIncreasing(kt, es) ==> !KeyGt(kt, KeyOf(kt, last), keys[i])
    {
      assert keys[i] in multiset(keys);
      assert keys[i] in init;
      var j :| 0 <= j < |init| && init[j] == keys[i];
      assert es[j] == keys[i] && es[|init|] == last;
    }
  }

  // ----- inputs on which the program loses an entry

  /** 147 int entries in ascending order fill the root page; the 148th splits it, taking only itself
      to the right. */
  lemma {:induction false} AscendingFillsRoot(kt: BType, es: seq<Bytes>)
    requires AllCost(INT_COST, es) && Ascending(kt, es) && |es| <= 147
    ensures Run(kt, es, 1) == RunState(InsertResult.Done, [[EmptyKey()] + es])
  {
    hide Cost, KeyOf, KeyGt, Outcome, NodesAfter, EmptyKey, Pos;
    if es != [] {
      var init, last := es[..|es| - 1], es[|es| - 1];
      AscendingFillsRoot(kt, init);
      RootCost(init);
      FillsRoot(kt, [[EmptyKey()] + init], last, 1);
      NextWhenDone(kt, [[EmptyKey()] + init], last, 1);
      AppendPos(kt, EmptyKey(), init, last);
      assert es == init + [last];
    } else {
      assert [EmptyKey()] + es == [EmptyKey()];
    }
  }

  lemma RootCost(init: seq<Bytes>)
    requires AllCost(INT_COST, init)
    ensures Cost([EmptyKey()] + init) == EMPTY_KEY_SIZE + LOC_SIZE + INT_COST * |init|
  {
    hide Cost, EmptyKey;
    HeadedCost(EmptyKey(), init);
    SameCost(INT_COST, init);
  }

  lemma {:induction false} SameCost(w: nat, es: seq<Bytes>)
    requires AllCost(w, es)
    ensures Cost(es) == w * |es|
  {
    if es != [] {
      SameCost(w, es[..|es| - 1]);
      assert w * |es| == w * (|es| - 1) + w;
    }
  }

  lemma AppendPos(kt: BType, high: Bytes, init: seq<Bytes>, last: Bytes)
    requires AllBelow(kt, KeyOf(kt, last), init)
    ensures Keys([high] + init) == init
    ensures Pos(kt, KeyOf(kt, last), init) == |init|
    ensures InsertAt([high] + init, |init| + 1, last) == [high] + (init + [last])
    ensures Inserted(kt, init, last) == init + [last]
  {
    hide KeyOf, KeyGt, Pos;
    PosUnique(kt, KeyOf(kt, last), init, |init|);
  }

  /** An ascending build of 148 int entries: all but the last on page 1, under the last as high key; the
      last alone on page 2, under the first as its high key. */
  lemma AscendingSplitsRoot(kt: BType, es: seq<Bytes>)
    requires AllCost(INT_COST, es) && Ascending(kt, es) && |es| == 148
    ensures Run(kt, es, 1) == RunState(InsertResult.Done, [[es[147]] + es[..147], [es[0]] + [es[147]]])
  {
    hide Cost, KeyOf, KeyGt, Outcome, NodesAfter, EmptyKey, Pos, StopFrom, Run;
    var init, last := es[..147], es[147];
    AscendingFillsRoot(kt, init);
    var nodes := [[EmptyKey()] + init];
    OnePageNeverPushes(kt, nodes, last, 1);
    RootCost(init);
    AppendPos(kt, EmptyKey(), init, last);
    assert es == init + [last];
    RunOne(kt, init, last, 1);
    FullPageSplits(kt, EmptyKey(), init, last, true);
    assert Replaced(nodes, 0, [[last] + init, [es[0]] + [last]]) == [[last] + init, [es[0]] + [last]];
    StepPages(kt, nodes, last, 1);
  }

  /** A page of 147 int entries and a new int entry above them all: the split moves the new entry alone.
      The right page's high key is the old first key; off the right end of the chain that clobbers. */
  lemma FullPageSplits(kt: BType, high: Bytes, init: seq<Bytes>, last: Bytes, rightmost: bool)
    requires AllCost(INT_COST, init) && |init| == 147 && ItemCost(last) == INT_COST
    requires ItemCost(high) == INT_COST || ItemCost(high) == EMPTY_KEY_SIZE + LOC_SIZE
    requires AllBelow(kt, KeyOf(kt, last), init)
    ensures InsertOutcome(kt, [high] + init, last, 1, rightmost) == if rightmost then InsertResult.Done else Clobbered
    ensures PagesAfter(kt, [high] + init, last, 1) == [[last] + init, [init[0]] + [last]]
  {
    hide Cost, KeyOf, KeyGt, Pos, SplitOutcome;
    HeadedCost(high, init);
    SameCost(INT_COST, init);
    SameCost(INT_COST, init + [last]);
    AppendPos(kt, high, init, last);
    var v := init + [last];
    assert v[..148] == v && v[..147] == init && v[147..] == [last] && init[147..] == [];
    CostOne(last);
    CostEmpty();
    assert SplitPoint(v, 148) == 147;
    FullPageOutcome(kt, init, last, rightmost);
  }

  lemma FullPageOutcome(kt: BType, init: seq<Bytes>, last: Bytes, rightmost: bool)
    requires |init| == 147 && ItemCost(last) == INT_COST && ItemCost(init[0]) == INT_COST
    requires Cost(init) == 147 * INT_COST
    requires AllBelow(kt, KeyOf(kt, last), init) && Pos(kt, KeyOf(kt, last), init) == 147
    requires SplitPoint(init + [last], 148) == 147
    ensures SplitOutcome(kt, init, last, init[0], rightmost) == if rightmost then InsertResult.Done else Clobbered
  {
    hide Cost, KeyOf, KeyGt, Pos, SplitPoint;
    var v := init + [last];
    assert InsertAt(init, 147, last) == v && v[147..] == [last] && init[147..] == [] && init[..147] == init;
    CostOne(last);
    CostEmpty();
    assert KeyGt(kt, KeyOf(kt, last), init[0]);
  }

  /** CREATE INDEX as written, on 148 ascending ints followed by one that lies between the last two
      (0, 10, ..., 1470, 1465): the last entry clobbers a high key. */
  lemma GapEntryClobbers(kt: BType, es: seq<Bytes>)
    requires AllCost(INT_COST, es) && |es| == 149 && Ascending(kt, es[..148])
    requires KeyGt(kt, KeyOf(kt, es[148]), es[146]) && KeyGt(kt, KeyOf(kt, es[147]), es[148])
    ensures Run(kt, es, 1).result == Clobbered
  {
    hide Cost, KeyOf, KeyGt, Outcome, NodesAfter, Pos, StopFrom, InsertOutcome, PagesAfter, Ascending, AllBelow;
    var e, init := es[148], es[..147];
    assert es[..148][..147] == init && es[..148][0] == es[0] && es[..148][147] == es[147] && init[0] == es[0];
    AscendingSplitsRoot(kt, es[..148]);
    var nodes := [[es[147]] + init, [es[0]] + [es[147]]];
    GapAbove(kt, es);
    StaysOnFirst(kt, nodes, e);
    StepPages(kt, nodes, e, 1);
    FullPageSplits(kt, es[147], init, e, false);
  }

  lemma GapAbove(kt: BType, es: seq<Bytes>)
    requires |es| == 149 && Ascending(kt, es[..148])
    requires KeyGt(kt, KeyOf(kt, es[148]), es[146])
    ensures AllBelow(kt, KeyOf(kt, es[148]), es[..147])
  {
    hide KeyOf, Gt;
    GtOrder();
    forall i | 0 <= i < 147
      ensures KeyGt(kt, KeyOf(kt, es[148]), es[..147][i])
    {
      if i < 146 {
        assert KeyGt(kt, KeyOf(kt, es[..148][146]), es[..148][i]);
      }
    }
  }

  lemma StaysOnFirst(kt: BType, nodes: Nodes, e: Bytes)
    requires Headed(nodes) && KeyGt(kt, KeyOf(kt, nodes[0][0]), e)
    ensures StopFrom(kt, KeyOf(kt, e), nodes, 0) == 0
  {
    hide KeyOf, Gt, AllBelow;
    GtOrder();
    assert !MovesRight(kt, KeyOf(kt, e), nodes[0]);
  }

  // ----- inputs that leave a page of the chain without keys

  /** A page with one key, split for a new item above it: one key each. */
  lemma SplitAbove(kt: BType, high: Bytes, k: Bytes, e: Bytes)
    requires KeyGt(kt, KeyOf(kt, e), k)
    requires ItemCost(high) + ItemCost(k) <= NODE_CAPACITY - LOC_SIZE
    requires ItemCost(high) + ItemCost(k) + ItemCost(e) > NODE_CAPACITY >= ItemCost(k) + ItemCost(e)
    ensures InsertOutcome(kt, [high, k], e, 1, true) == InsertResult.Done
    ensures PagesAfter(kt, [high, k], e, 1) == [[e, k], [k, e]]
  {
    hide Cost, KeyOf, KeyGt, Pos;
    TwoCost(high, k);
    TwoCost(k, e);
    CostOne(e);
    CostEmpty();
    PosUnique(kt, KeyOf(kt, e), [k], 1);
    var v := [k, e];
    assert Keys([high, k]) == [k] && InsertAt([k], 1, e) == v;
    assert v[..2] == v && v[1..] == [e] && [k][1..] == [] && v[..1] == [k];
    assert SplitPoint(v, 2) == 1;
    assert LeftCount(v, 1) == 1;
    assert SplitFound(v, k);
    assert SplitOutcome(kt, [k], e, k, true) == InsertResult.Done;
    assert [e] + v[..1] == [e, k] && [k] + v[1..] == [k, e];
  }

  /** A page with one key, split for a new item below it: everything goes right, and the left page is left
      with its new high key alone. */
  lemma SplitBelow(kt: BType, high: Bytes, k: Bytes, e: Bytes, rightmost: bool)
    requires !KeyGt(kt, KeyOf(kt, e), k)
    requires ItemCost(high) + ItemCost(k) <= NODE_CAPACITY - LOC_SIZE
    requires ItemCost(high) + ItemCost(k) + ItemCost(e) > NODE_CAPACITY >= ItemCost(k) + ItemCost(k) + ItemCost(e)
    ensures InsertOutcome(kt, [high, k], e, 1, rightmost) == InsertResult.Done
    ensures PagesAfter(kt, [high, k], e, 1) == [[e], [k, e, k]]
  {
    hide Cost, KeyOf, KeyGt, Pos;
    TwoCost(high, k);
    TwoCost(e, k);
    CostOne(k);
    PosUnique(kt, KeyOf(kt, e), [k], 0);
    var v := [e, k];
    assert Keys([high, k]) == [k] && InsertAt([k], 0, e) == v;
    assert v[..2] == v && v[1..] == [k] && [k][0..] == [k] && v[..0] == [] && v[0..] == v;
    assert SplitPoint(v, 2) == 1;
    assert LeftCount(v, 0) == 0;
    assert [e] + v[..0] == [e] && [k] + v[0..] == [k, e, k];
  }

  lemma TwoCost(a: Bytes, b: Bytes)
    ensures Cost([a, b]) == ItemCost(a) + ItemCost(b)
  {
    hide Cost;
    assert [a, b] == [a] + [b];
    HeadedCost(a, [b]);
    CostOne(b);
  }

  /** CREATE INDEX as written, on a short text, a very long one above it, and a short one not above the
      first: the build completes, and leaves the first page of the chain without a key. */
  lemma EmptyPageBuilds(kt: BType, es: seq<Bytes>)
    requires |es| == 3 && KeyGt(kt, KeyOf(kt, es[1]), es[0]) && !KeyGt(kt, KeyOf(kt, es[2]), es[0])
    requires ItemCost(es[0]) + ItemCost(es[1]) <= NODE_CAPACITY - LOC_SIZE
    requires EMPTY_KEY_SIZE + LOC_SIZE + ItemCost(es[0]) + ItemCost(es[1]) > NODE_CAPACITY
    requires EMPTY_KEY_SIZE + LOC_SIZE + ItemCost(es[0]) <= NODE_CAPACITY - LOC_SIZE
    requires ItemCost(es[0]) + ItemCost(es[1]) + ItemCost(es[2]) > NODE_CAPACITY >= ItemCost(es[0]) + ItemCost(es[0])
             + ItemCost(es[2])
    ensures Run(kt, es, 1) == RunState(InsertResult.Done, [[es[2]], [es[0], es[2], es[0]], [es[0], es[1]]])
  {
    hide KeyOf, KeyGt, Run, NodesNext, Outcome, InsertOutcome, PagesAfter, ItemCost;
    var a, b, c := es[0], es[1], es[2];
    RunNone(kt, 1);
    RootTakes(kt, a);
    RunOne(kt, [], a, 1);
    assert Run(kt, [] + [a], 1) == RunState(InsertResult.Done, [[EmptyKey(), a]]);
    EmptyKeyCost();
    SplitAbove(kt, EmptyKey(), a, b);
    OneNodeStep(kt, [EmptyKey(), a], b);
    RunOne(kt, [] + [a], b, 1);
    assert Run(kt, [] + [a] + [b], 1) == RunState(InsertResult.Done, [[b, a], [a, b]]);
    SplitBelow(kt, b, a, c, false);
    FirstNodeStep(kt, [b, a], [a, b], c);
    RunOne(kt, [] + [a] + [b], c, 1);
    var whole := [] + [a] + [b] + [c];
    assert Run(kt, whole, 1) == RunState(InsertResult.Done, [[c], [a, c, a]] + [[a, b]]);
    assert [[c], [a, c, a]] + [[a, b]] == [[c], [a, c, a], [a, b]];
    assert whole == es;
  }

  lemma EmptyKeyCost()
    ensures ItemCost(EmptyKey()) == EMPTY_KEY_SIZE + LOC_SIZE
  {
  }

  lemma RootTakes(kt: BType, e: Bytes)
    requires EMPTY_KEY_SIZE + LOC_SIZE + ItemCost(e) <= NODE_CAPACITY - LOC_SIZE
    ensures Outcome(kt, FRESH, e, 1) == InsertResult.Done && NodesNext(kt, FRESH, e, 1) == [[EmptyKey(), e]]
  {
    hide Cost, KeyOf, Pos, Outcome, NodesAfter;
    CostOne(EmptyKey());
    EmptyKeyCost();
    FillsRoot(kt, FRESH, e, 1);
    NextWhenDone(kt, FRESH, e, 1);
    assert InsertAt([EmptyKey()], 1, e) == [EmptyKey(), e];
    assert Keys([EmptyKey()]) == [];
  }

  lemma OneNodeStep(kt: BType, slots: seq<Bytes>, e: Bytes)
    requires slots != [] && InsertOutcome(kt, slots, e, 1, true) == InsertResult.Done
    ensures Outcome(kt, [slots], e, 1) == InsertResult.Done
    ensures NodesNext(kt, [slots], e, 1) == PagesAfter(kt, slots, e, 1)
  {
    hide KeyOf, InsertOutcome, PagesAfter, MovesRight;
    OnePageNeverPushes(kt, [slots], e, 1);
    StepPages(kt, [slots], e, 1);
    assert Replaced([slots], 0, PagesAfter(kt, slots, e, 1)) == PagesAfter(kt, slots, e, 1);
  }

  lemma FirstNodeStep(kt: BType, first: seq<Bytes>, second: seq<Bytes>, e: Bytes)
    requires |first| == 2 && second != [] && !KeyGt(kt, KeyOf(kt, e), first[1])
    requires InsertOutcome(kt, first, e, 1, false) == InsertResult.Done && |PagesAfter(kt, first, e, 1)| == 2
    ensures Outcome(kt, [first, second], e, 1) == InsertResult.Done
    ensures NodesNext(kt, [first, second], e, 1) == PagesAfter(kt, first, e, 1) + [second]
  {
    hide KeyOf, InsertOutcome, PagesAfter, KeyGt;
    var nodes := [first, second];
    assert Keys(first)[0] == first[1];
    assert !MovesRight(kt, KeyOf(kt, e), first);
    assert StopFrom(kt, KeyOf(kt, e), nodes, 0) == 0;
    StepPages(kt, nodes, e, 1);
    assert Replaced(nodes, 0, PagesAfter(kt, first, e, 1)) == PagesAfter(kt, first, e, 1) + [second];
  }
}
