/** Builds over entries of one width that fills the first page with room to spare and a later one without:
    as the split is written, such an index never has more than two pages. */
module IndexWidths {
  import opened PageLayout
  import opened Types
  import opened Codec
  import opened IndexOrder
  import opened IndexSplit
  import opened IndexChain
  import opened IndexMachine
  import opened IndexRuns

  lemma LeftOverExactly(room: nat, w: nat, n: nat)
    requires w >= LOC_SIZE && w * n <= room
    ensures n <= room / w
    ensures room - w * n < LOC_SIZE <==> n == room / w && room % w < LOC_SIZE
    ensures room - w * n < w <==> n == room / w
    ensures n == room / w ==> room - w * n == room % w
  {
    var q := room / w;
    assert room == w * q + room % w && w * (q + 1) == w * q + w;
    assert w * (n + 1) == w * n + w;
    Monotone(w, q + 1, if n > q then n else q + 1);
    Monotone(w, if n < q then n + 1 else q, q);
  }

  ghost predicate PlaceholderFirst(slots: seq<Bytes>) {
    slots != [] && ItemCost(slots[0]) == EMPTY_KEY_SIZE + LOC_SIZE
  }

  /** A page of entries of one width has fewer than six bytes left exactly if it is full and the width
      divides its room that closely: the whole page with an entry for high key, less with the placeholder. */
  lemma UniformSlackExactly(w: nat, slots: seq<Bytes>)
    requires w >= LOC_SIZE && Uniform(w, slots) && Cost(slots) <= NODE_CAPACITY
    ensures NODE_CAPACITY - Cost(slots) < LOC_SIZE
            <==> || (ItemCost(slots[0]) == w && |slots| == NODE_CAPACITY / w && NODE_CAPACITY % w < LOC_SIZE)
                 || (PlaceholderFirst(slots) && |slots| - 1 == ROOT_ROOM / w && ROOT_ROOM % w < LOC_SIZE)
  {
    hide Cost, ItemCost;
    UniformCost(w, slots);
    var n := |slots| - 1;
    assert w + w * n == w * (n + 1);
    if ItemCost(slots[0]) == w {
      LeftOverExactly(NODE_CAPACITY, w, n + 1);
    }
    if PlaceholderFirst(slots) {
      LeftOverExactly(ROOT_ROOM, w, n);
    }
  }

  /** Such a width: the root is left at least six bytes, a later page fewer. */
  predicate LaterUnsafe(w: nat) {
    LOC_SIZE <= w <= ONE_FIFTH && ROOT_ROOM % w >= LOC_SIZE && NODE_CAPACITY % w < LOC_SIZE
  }

  /** Text entries of 147 characters have one. */
  lemma LaterUnsafeText()
    ensures LaterUnsafe(199)
  {
  }

  /** The root page alone, or two pages that both have an entry for high key. */
  ghost predicate AtMostTwo(w: nat, nodes: Nodes) {
    && Headed(nodes) && Small(nodes) && AllUniform(w, nodes) && |nodes| <= 2
    && (|nodes| == 1 ==> PlaceholderFirst(nodes[0]) && w * (|nodes[0]| - 1) <= ROOT_ROOM)
    && (|nodes| == 2 ==> HeadIs(w, nodes[0]) && HeadIs(w, nodes[1]))
  }

  ghost predicate HeadIs(w: nat, slots: seq<Bytes>) {
    slots != [] && ItemCost(slots[0]) == w && w * |slots| <= NODE_CAPACITY
  }

  lemma HeadCost(w: nat, slots: seq<Bytes>)
    requires w >= LOC_SIZE && Uniform(w, slots) && Cost(slots) <= NODE_CAPACITY
    ensures ItemCost(slots[0]) == w ==> Cost(slots) == w * |slots| && HeadIs(w, slots)
    ensures PlaceholderFirst(slots) ==> NODE_CAPACITY - Cost(slots) == ROOT_ROOM - w * (|slots| - 1)
  {
    hide Cost, ItemCost;
    UniformCost(w, slots);
    assert w + w * (|slots| - 1) == w * |slots|;
  }

  /** How many entries fit the root page. */
  function RootCount(w: nat): nat {
    if w == 0 then 0 else ROOT_ROOM / w
  }

  /** One page left to fill, or full. */
  lemma RootStep(w: nat, kt: BType, nodes: Nodes, e: Bytes)
    requires LaterUnsafe(w) && AtMostTwo(w, nodes) && |nodes| == 1 && ItemCost(e) == w
    ensures var next := NodesNext(kt, nodes, e, 1);
            && Outcome(kt, nodes, e, 1) == InsertResult.Done && AtMostTwo(w, next) && 1 <= |next| <= 2
            && (|next| == 1 <==> |nodes[0]| - 1 < RootCount(w))
            && (|next| == 1 ==> |next[0]| == |nodes[0]| + 1)
  {
    hide Cost, ItemCost, KeyOf, Small, AllUniform, Uniform, Outcome, NodesNext, NodesAfter, PagesAfter, SmallPage,
         StopFrom, LeftCount, Pos, Inserted;
    var slots := nodes[0];
    SmallNode(nodes, 0);
    UniformNode(w, nodes, 0);
    HeadCost(w, slots);
    LeftOverExactly(ROOT_ROOM, w, |slots| - 1);
    SmallStep(kt, nodes, e, 1);
    RootOutcome(kt, nodes, e);
    StepPages(kt, nodes, e, 1);
    RootAfter(kt, nodes, e);
    var next := NodesNext(kt, nodes, e, 1);
    NextHeaded(kt, nodes, e);
    UniformPagesAfter(w, kt, slots, e, 1);
    UniformReplaced(w, nodes, 0, PagesAfter(kt, slots, e, 1));
    assert Replaced(nodes, 0, PagesAfter(kt, slots, e, 1)) == PagesAfter(kt, slots, e, 1);
    forall i | 0 <= i < |next|
      ensures Uniform(w, next[i]) && Cost(next[i]) <= NODE_CAPACITY
    {
      UniformNode(w, next, i);
      SmallNode(next, i);
    }
    RootPages(w, kt, slots, e);
    HeadCost(w, next[0]);
    HeadCost(w, next[|next| - 1]);
  }

  lemma NextHeaded(kt: BType, nodes: Nodes, e: Bytes)
    requires Headed(nodes)
    ensures Headed(NodesNext(kt, nodes, e, 1)) && |NodesNext(kt, nodes, e, 1)| >= 1
  {
    hide NodesNext;
    StepHeaded(kt, nodes, e, 1);
  }

  /** The only page is the last: nothing can be pushed into its high-key slot. */
  lemma RootOutcome(kt: BType, nodes: Nodes, e: Bytes)
    requires Headed(nodes) && |nodes| == 1
    ensures StopFrom(kt, KeyOf(kt, e), nodes, 0) == 0
    ensures !PushedOut(kt, nodes, e, 1)
    ensures Roomy(kt, nodes, e) <==> NODE_CAPACITY - Cost(nodes[0]) >= LOC_SIZE
    ensures Admits(kt, nodes, e, 1) <==> Roomy(kt, nodes, e)
  {
    hide Cost, KeyOf, Pos, KeyGt, MovesRight, AddOutcome;
  }

  lemma RootAfter(kt: BType, nodes: Nodes, e: Bytes)
    requires Headed(nodes) && |nodes| == 1 && Outcome(kt, nodes, e, 1) == InsertResult.Done
    ensures NODE_CAPACITY - Cost(nodes[0]) < ItemCost(e) && NODE_CAPACITY - Cost(nodes[0]) >= LOC_SIZE ==>
              AddOutcome(NODE_CAPACITY - Cost(nodes[0]), |e|) == Full && |nodes[0]| >= 2
    ensures NODE_CAPACITY - Cost(nodes[0]) >= ItemCost(e) ==>
              AddOutcome(NODE_CAPACITY - Cost(nodes[0]), |e|) == Added
  {
    hide Cost, KeyOf, Pos, MovesRight, SplitOutcome;
  }

  lemma RootPages(w: nat, kt: BType, slots: seq<Bytes>, e: Bytes)
    requires Uniform(w, slots) && ItemCost(e) == w && PlaceholderFirst(slots)
    ensures var mid := PagesAfter(kt, slots, e, 1);
            && 1 <= |mid| <= 2
            && (|mid| == 1 <==> AddOutcome(NODE_CAPACITY - Cost(slots), |e|) != Full || |slots| < 2)
            && (|mid| == 1 ==> PlaceholderFirst(mid[0]) && |mid[0]| == |slots| + 1)
            && (|mid| == 2 ==> mid[0] != [] && mid[1] != [] && ItemCost(mid[0][0]) == w && ItemCost(mid[1][0]) == w)
  {
    hide ItemCost, Cost, KeyOf, AddOutcome, LeftCount, Pos;
    var keys, p := Keys(slots), Pos(kt, KeyOf(kt, e), Keys(slots));
    var v := Inserted(kt, keys, e);
    assert forall i :: 0 <= i < |v| ==> ItemCost(v[i]) == w;
  }

  /** Two pages: an insertion finds room, or a full page, on which it overruns. */
  lemma LaterStep(w: nat, kt: BType, nodes: Nodes, e: Bytes)
    requires LaterUnsafe(w) && AtMostTwo(w, nodes) && |nodes| == 2 && ItemCost(e) == w
    ensures var i := StopFrom(kt, KeyOf(kt, e), nodes, 0);
            Outcome(kt, nodes, e, 1) ==
            if |nodes[i]| < NODE_CAPACITY / w then InsertResult.Done else InsertResult.Overrun
    ensures Outcome(kt, nodes, e, 1) == InsertResult.Done ==>
              AtMostTwo(w, NodesNext(kt, nodes, e, 1)) && |NodesNext(kt, nodes, e, 1)| == 2
  {
    hide Cost, ItemCost, KeyOf, Small, AllUniform, Uniform, Outcome, NodesNext, SmallPage, StopFrom, PagesAfter, Admits,
         Roomy, AddOutcome;
    var i := StopFrom(kt, KeyOf(kt, e), nodes, 0);
    SmallNode(nodes, i);
    UniformNode(w, nodes, i);
    HeadCost(w, nodes[i]);
    LeftOverExactly(NODE_CAPACITY, w, |nodes[i]|);
    SmallStep(kt, nodes, e, 1);
    StepPages(kt, nodes, e, 1);
    LaterAdmits(kt, nodes, e);
    if Outcome(kt, nodes, e, 1) == InsertResult.Done {
      LaterPages(kt, nodes[i], e);
      UniformPagesAfter(w, kt, nodes[i], e, 1);
      LaterKeeps(w, kt, nodes, i, PagesAfter(kt, nodes[i], e, 1));
    }
  }

  lemma LaterKeeps(w: nat, kt: BType, nodes: Nodes, i: nat, mid: Nodes)
    requires LaterUnsafe(w) && AtMostTwo(w, nodes) && |nodes| == 2 && i < 2 && |mid| == 1 && AllUniform(w, mid)
    requires nodes[i] != [] && mid[0] != [] && mid[0][0] == nodes[i][0] && Small(Replaced(nodes, i, mid))
    ensures AtMostTwo(w, Replaced(nodes, i, mid)) && |Replaced(nodes, i, mid)| == 2
  {
    hide Cost, ItemCost, Small, AllUniform, Uniform, SmallPage;
    var next := Replaced(nodes, i, mid);
    UniformReplaced(w, nodes, i, mid);
    assert next == nodes[i := mid[0]];
    forall m | 0 <= m < 2
      ensures HeadIs(w, next[m])
    {
      UniformNode(w, next, m);
      SmallNode(next, m);
      HeadCost(w, next[m]);
    }
  }

  lemma LaterAdmits(kt: BType, nodes: Nodes, e: Bytes)
    requires Headed(nodes)
    ensures var i := StopFrom(kt, KeyOf(kt, e), nodes, 0);
            var slack := NODE_CAPACITY - Cost(nodes[i]);
            && (slack < LOC_SIZE ==> !Roomy(kt, nodes, e))
            && (slack >= ItemCost(e) ==> Admits(kt, nodes, e, 1) && AddOutcome(slack, |e|) == Added)
  {
    hide Cost, KeyOf, PushedOut;
  }

  lemma LaterPages(kt: BType, slots: seq<Bytes>, e: Bytes)
    requires slots != [] && AddOutcome(NODE_CAPACITY - Cost(slots), |e|) == Added
    ensures var mid := PagesAfter(kt, slots, e, 1); |mid| == 1 && mid[0] != [] && mid[0][0] == slots[0]
  {
    hide Cost, KeyOf, Pos;
  }

  lemma FreshTwo(w: nat)
    ensures AtMostTwo(w, FRESH)
  {
    hide EmptyKey, Small, AllUniform;
    FreshUniform(w);
    FreshSmall(T_INT, 1);
  }

  lemma AllCostLast(w: nat, init: seq<Bytes>, last: Bytes)
    requires AllCost(w, init + [last])
    ensures AllCost(w, init) && ItemCost(last) == w
  {
    hide ItemCost;
    assert (init + [last])[|init|] == last;
    assert forall i :: 0 <= i < |init| ==> init[i] == (init + [last])[i];
  }

  /** A build over entries of such a width, in any order, completes or overruns: it completes if they are at most
      one more than fit the root page, which then splits for the last time. While it goes on there are at most
      two pages. */
  lemma {:induction false} LaterBuild(w: nat, kt: BType, es: seq<Bytes>)
    requires LaterUnsafe(w) && AllCost(w, es)
    ensures var r := Run(kt, es, 1);
            && (r.result == InsertResult.Done || r.result == InsertResult.Overrun)
            && (r.result == InsertResult.Done ==> AtMostTwo(w, r.nodes))
            && (|es| <= RootCount(w) ==>
                r.result == InsertResult.Done && |r.nodes| == 1 && |r.nodes[0]| == |es| + 1)
            && (|es| == RootCount(w) + 1 ==> r.result == InsertResult.Done)
            && (r.result == InsertResult.Done && |es| > RootCount(w) ==> |r.nodes| == 2)
  {
    hide AtMostTwo, RootCount, Run, Outcome, NodesNext, Headed, LaterUnsafe, ItemCost, AllCost;
    RunNone(kt, 1);
    if es == [] {
      FreshTwo(w);
      FreshSize(w);
    } else {
      var init, last := es[..|es| - 1], es[|es| - 1];
      assert es == init + [last];
      AllCostLast(w, init, last);
      LaterBuild(w, kt, init);
      RunOne(kt, init, last, 1);
      var nodes := Run(kt, init, 1).nodes;
      if Run(kt, init, 1).result == InsertResult.Done {
        TwoSize(w, nodes);
        if |nodes| == 1 {
          RootStep(w, kt, nodes, last);
        } else {
          LaterStep(w, kt, nodes, last);
        }
      }
    }
  }

  lemma FreshSize(w: nat)
    ensures |FRESH| == 1 && |FRESH[0]| == 1
  {
  }

  lemma TwoSize(w: nat, nodes: Nodes)
    requires AtMostTwo(w, nodes)
    ensures 1 <= |nodes| <= 2
  {
    hide Small, AllUniform, ItemCost;
  }

  lemma RootCountSmall(w: nat)
    requires LaterUnsafe(w)
    ensures RootCount(w) <= 2 * (NODE_CAPACITY / w - 1)
  {
    LeftOverExactly(NODE_CAPACITY, w, 5);
    assert w * (ROOT_ROOM / w) <= ROOT_ROOM;
    LeftOverExactly(NODE_CAPACITY, w, ROOT_ROOM / w);
  }

  lemma TwoHold(w: nat, nodes: Nodes)
    requires LaterUnsafe(w) && AtMostTwo(w, nodes) && |nodes| == 2
    ensures |ChainKeys(nodes)| <= 2 * (NODE_CAPACITY / w - 1)
  {
    hide Small, AllUniform, ItemCost, ChainKeys;
    assert nodes == [nodes[0], nodes[1]];
    TwoNodes(nodes[0], nodes[1]);
    LeftOverExactly(NODE_CAPACITY, w, |nodes[0]|);
    LeftOverExactly(NODE_CAPACITY, w, |nodes[1]|);
  }

  /** So no build over more entries than two pages hold completes. */
  lemma LaterLimit(w: nat, kt: BType, es: seq<Bytes>)
    requires LaterUnsafe(w) && AllCost(w, es) && |es| > 2 * (NODE_CAPACITY / w - 1)
    ensures Run(kt, es, 1).result == InsertResult.Overrun
  {
    hide Run, AtMostTwo, AllCost, ChainKeys, Ok, InsertedAll, LaterUnsafe, RootCount;
    LaterBuild(w, kt, es);
    RootCountSmall(w);
    if Run(kt, es, 1).result == InsertResult.Done {
      BuildRefines(kt, es, 1);
      BuildSorts(kt, es);
      var nodes := Run(kt, es, 1).nodes;
      assert |ChainKeys(nodes)| == |multiset(ChainKeys(nodes))| == |multiset(es)| == |es|;
      TwoHold(w, nodes);
    }
  }
}
