/** Whole builds: the run of the index machine over a list of entries, when it completes, what it
    then holds, and the inputs on which the program goes wrong. */
module IndexRuns {
  import opened PageLayout
  import opened Types
  import opened Codec
  import opened IndexOrder
  import opened IndexSplit
  import opened IndexChain
  import opened IndexMachine

  datatype RunState = RunState(result: InsertResult, nodes: Nodes)

  /** The program goes on: it does not notice a clobbered high key. */
  predicate GoesOn(r: InsertResult) {
    r.Done? || r.Clobbered?
  }

  /** A run is done if every insertion was; otherwise it tells that one clobbered, or how it stopped. */
  function Worse(before: InsertResult, now: InsertResult): InsertResult {
    if now == InsertResult.Done then before else now
  }

  /** Insert the entries in turn until the program stops. */
  ghost function Run(kt: BType, es: seq<Bytes>, src: nat): (r: RunState)
    ensures Headed(r.nodes)
  {
    hide Outcome, NodesNext;
    if es == [] then RunState(InsertResult.Done, FRESH) else
      var before := Run(kt, es[..|es| - 1], src);
      if !GoesOn(before.result) then before else
        var step := Step(kt, before.nodes, es[|es| - 1], src);
        RunState(Worse(before.result, step.result), step.nodes)
  }

  ghost function Step(kt: BType, nodes: Nodes, e: Bytes, src: nat): (r: RunState)
    requires Headed(nodes)
    ensures Headed(r.nodes)
  {
    hide Outcome, NodesNext;
    StepHeaded(kt, nodes, e, src);
    RunState(Outcome(kt, nodes, e, src), NodesNext(kt, nodes, e, src))
  }

  lemma RunOne(kt: BType, es: seq<Bytes>, e: Bytes, src: nat)
    ensures Headed(Run(kt, es, src).nodes)
    ensures var before := Run(kt, es, src);
            Run(kt, es + [e], src) ==
            if !GoesOn(before.result) then before
            else RunState(Worse(before.result, Step(kt, before.nodes, e, src).result),
                          Step(kt, before.nodes, e, src).nodes)
  {
    hide Step;
    assert (es + [e])[..|es + [e]| - 1] == es;
  }

  lemma RunNone(kt: BType, src: nat)
    ensures Run(kt, [], src) == RunState(InsertResult.Done, FRESH)
  {
  }

  lemma NextWhenDone(kt: BType, nodes: Nodes, e: Bytes, src: nat)
    requires Headed(nodes)
    ensures Outcome(kt, nodes, e, src) == InsertResult.Done ==>
            NodesNext(kt, nodes, e, src) == NodesAfter(kt, nodes, e, src)
  {
    hide Outcome, NodesAfter;
  }

  lemma StepHeaded(kt: BType, nodes: Nodes, e: Bytes, src: nat)
    requires Headed(nodes)
    ensures Headed(NodesNext(kt, nodes, e, src))
  {
    hide StopFrom, Outcome, PagesAfter, ClobberedPages, Replaced, Headed;
    HeadedSize(nodes);
    var i := StopFrom(kt, KeyOf(kt, e), nodes, 0);
    HeadedAt(nodes, i);
    PagesHeaded(kt, nodes[i], e, src);
    ReplacedHeaded(nodes, i, PagesAfter(kt, nodes[i], e, src));
    if src < |nodes[i]| {
      ReplacedHeaded(nodes, i, ClobberedPages(kt, nodes[i], e, nodes[i][src]));
    }
  }

  lemma HeadedSize(nodes: Nodes)
    requires Headed(nodes)
    ensures |nodes| > 0
  {
  }

  lemma HeadedAt(nodes: Nodes, i: nat)
    requires Headed(nodes) && i < |nodes|
    ensures nodes[i] != []
  {
  }

  lemma PagesHeaded(kt: BType, slots: seq<Bytes>, e: Bytes, src: nat)
    requires slots != []
    ensures Headed(PagesAfter(kt, slots, e, src))
    ensures src < |slots| ==> Headed(ClobberedPages(kt, slots, e, slots[src]))
  {
    hide Pos, KeyOf, Cost, AddOutcome, LeftCount, Inserted, LeftOf;
  }

  lemma ReplacedHeaded(nodes: Nodes, i: nat, mid: Nodes)
    requires Headed(nodes) && Headed(mid) && i < |nodes|
    ensures Headed(Replaced(nodes, i, mid))
  {
  }

  /** A build that completes satisfies the index invariant and spells out the sorted permutation of its
      entries, each put at its lower bound in turn. */
  lemma {:induction false} BuildRefines(kt: BType, es: seq<Bytes>, src: nat)
    requires src <= 1 && Run(kt, es, src).result == InsertResult.Done
    ensures Ok(kt, Run(kt, es, src).nodes, src)
    ensures ChainKeys(Run(kt, es, src).nodes) == InsertedAll(kt, es)
  {
    hide Ok, ChainKeys, Outcome, NodesAfter, Inserted, NodesNext;
    if es == [] {
      FreshOk(kt, src);
    } else {
      var nodes := Run(kt, es[..|es| - 1], src).nodes;
      BuildRefines(kt, es[..|es| - 1], src);
      StepKeeps(kt, nodes, es[|es| - 1], src);
      NextWhenDone(kt, nodes, es[|es| - 1], src);
    }
  }

  // ----- entries of at most a fifth of a page

  ghost predicate SmallPage(slots: seq<Bytes>) {
    AllSmall(slots) && Cost(slots) <= NODE_CAPACITY
  }

  ghost predicate Small(nodes: Nodes) {
    forall i :: 0 <= i < |nodes| ==> SmallPage(nodes[i])
  }

  ghost predicate NoneEmpty(nodes: Nodes) {
    forall i :: 0 <= i < |nodes| ==> |nodes[i]| >= 2
  }

  lemma SmallPagesAfter(kt: BType, slots: seq<Bytes>, e: Bytes, src: nat, rightmost: bool)
    requires |slots| >= 1 && SmallPage(slots) && ItemCost(e) <= ONE_FIFTH && src <= 1
    ensures InsertOutcome(kt, slots, e, src, rightmost) == InsertResult.Overrun
            <==> NODE_CAPACITY - Cost(slots) < LOC_SIZE
    ensures AddOutcome(NODE_CAPACITY - Cost(slots), |e|) == Full ==> src < |slots|
    ensures InsertOutcome(kt, slots, e, src, rightmost) == InsertResult.Done
            <==> && NODE_CAPACITY - Cost(slots) >= LOC_SIZE
                 && (AddOutcome(NODE_CAPACITY - Cost(slots), |e|) == Full ==>
                     !Clobbers(kt, Keys(slots), e, slots[src], rightmost))
    ensures InsertOutcome(kt, slots, e, src, rightmost) == InsertResult.Done ==>
              Small(PagesAfter(kt, slots, e, src)) && NoneEmpty(PagesAfter(kt, slots, e, src))
    ensures InsertOutcome(kt, slots, e, src, rightmost) == Clobbered ==>
              src < |slots| && Small(ClobberedPages(kt, slots, e, slots[src]))
                && NoneEmpty(ClobberedPages(kt, slots, e, slots[src]))
  {
    hide *;
    var keys := Keys(slots);
    var p, v, c := Pos(kt, KeyOf(kt, e), keys), Inserted(kt, keys, e), LeftOf(kt, keys, e);
    KeysCount(slots);
    SmallPageIs(slots);
    PagesCases(kt, slots, e, src, rightmost);
    OneCost(e);
    OutcomeCases(NODE_CAPACITY - Cost(slots), |e|);
    if AddOutcome(NODE_CAPACITY - Cost(slots), |e|) == Full {
      OneFifthSplits(kt, slots, e, src, rightmost);
      SmallInsert(slots, p, e);
      InsertedAtPos(kt, keys, e);
      SmallAt(slots, src);
      SmallHalves(v, c, slots[src]);
      TwoPages([v[c]] + v[..c], [slots[src]] + v[c..]);
      SmallIfClobbered(kt, slots, e, src, rightmost);
    } else if AddOutcome(NODE_CAPACITY - Cost(slots), |e|) == Added {
      CostInsert(slots, p + 1, e);
      SmallGrown(slots, p + 1, e);
      SmallPageIs(InsertAt(slots, p + 1, e));
      OnePage(InsertAt(slots, p + 1, e));
    }
  }

  lemma SmallPageIs(slots: seq<Bytes>)
    ensures SmallPage(slots) <==> AllSmall(slots) && Cost(slots) <= NODE_CAPACITY
  {
  }

  lemma InsertedAtPos(kt: BType, keys: seq<Bytes>, e: Bytes)
    ensures Inserted(kt, keys, e) == InsertAt(keys, Pos(kt, KeyOf(kt, e), keys), e)
  {
    hide Pos, KeyOf;
  }

  lemma TwoPages(a: seq<Bytes>, b: seq<Bytes>)
    ensures SmallPage(a) && SmallPage(b) ==> Small([a, b])
    ensures |a| >= 2 && |b| >= 2 <==> NoneEmpty([a, b])
  {
    hide SmallPage;
    assert [a, b][0] == a && [a, b][1] == b;
  }

  lemma OnePage(a: seq<Bytes>)
    ensures SmallPage(a) ==> Small([a])
    ensures |a| >= 2 <==> NoneEmpty([a])
  {
    hide SmallPage;
    assert [a][0] == a;
  }

  lemma KeysCount(slots: seq<Bytes>)
    requires |slots| >= 1
    ensures |Keys(slots)| == |slots| - 1
  {
  }

  lemma PagesCases(kt: BType, slots: seq<Bytes>, e: Bytes, src: nat, rightmost: bool)
    requires |slots| >= 1
    ensures var added := AddOutcome(NODE_CAPACITY - Cost(slots), |e|);
            var v, c := Inserted(kt, Keys(slots), e), LeftOf(kt, Keys(slots), e);
            && (added == Full && src < |slots| ==>
                PagesAfter(kt, slots, e, src) == [[v[c]] + v[..c], [slots[src]] + v[c..]])
            && (added != Full ==>
                  InsertOutcome(kt, slots, e, src, rightmost) ==
                  if added == Added then InsertResult.Done else InsertResult.Overrun)
            && (added != Full ==>
                  PagesAfter(kt, slots, e, src) == [InsertAt(slots, Pos(kt, KeyOf(kt, e), Keys(slots)) + 1, e)])
  {
    hide Cost, Pos, KeyOf, LeftCount, SplitOutcome, AddOutcome;
  }

  lemma SmallIfClobbered(kt: BType, slots: seq<Bytes>, e: Bytes, src: nat, rightmost: bool)
    requires src < |slots| && AllSmall(slots) && ItemCost(e) <= ONE_FIFTH && 1 <= LeftOf(kt, Keys(slots), e) < |slots|
    requires ItemCost(slots[src]) + Cost(Inserted(kt, Keys(slots), e)[LeftOf(kt, Keys(slots), e)..]) <= NODE_CAPACITY
    ensures Clobbers(kt, Keys(slots), e, slots[src], rightmost)
            && ClobberFits(Keys(slots), slots[src], LeftOf(kt, Keys(slots), e)) ==>
              Small(ClobberedPages(kt, slots, e, slots[src])) && NoneEmpty(ClobberedPages(kt, slots, e, slots[src]))
  {
    hide Cost, ItemCost, KeyOf, LeftOf, Clobbers, AllSmall, Keys, ClobberFits, Inserted, SmallPage;
    var keys, c, high := Keys(slots), LeftOf(kt, Keys(slots), e), slots[src];
    if Clobbers(kt, keys, e, high, rightmost) && ClobberFits(keys, high, c) {
      SmallKeys(slots);
      SmallAt(slots, src);
      ClobberAtEnd(kt, keys, e, high, rightmost);
      SmallClobbered(keys, c, e, high);
    }
  }

  lemma SmallKeys(slots: seq<Bytes>)
    requires AllSmall(slots)
    ensures AllSmall(Keys(slots))
  {
    hide ItemCost;
  }

  /** Only an item beyond all keys clobbers, and the split then takes its share from the old keys alone. */
  lemma ClobberAtEnd(kt: BType, keys: seq<Bytes>, e: Bytes, high: Bytes, rightmost: bool)
    requires Clobbers(kt, keys, e, high, rightmost)
    ensures Inserted(kt, keys, e) == keys + [e]
  {
    hide KeyOf, KeyGt;
  }

  lemma SmallClobbered(keys: seq<Bytes>, c: nat, e: Bytes, high: Bytes)
    requires AllSmall(keys) && ItemCost(e) <= ONE_FIFTH && ItemCost(high) <= ONE_FIFTH && 1 <= c <= |keys|
    requires ClobberFits(keys, high, c) && ItemCost(high) + Cost((keys + [e])[c..]) <= NODE_CAPACITY
    ensures SmallPage([high] + keys[..c]) && SmallPage([e, high] + keys[c..])
  {
    hide Cost, ItemCost;
    assert (keys + [e])[c..] == keys[c..] + [e];
    CostConcat(keys[c..], [e]);
    CostOne(e);
    OneCost(e);
    HeadedCost(high, keys[..c]);
    HeadedCost(high, keys[c..]);
    assert [e, high] + keys[c..] == [e] + ([high] + keys[c..]);
    HeadedCost(e, [high] + keys[c..]);
  }

  lemma OneCost(e: Bytes)
    ensures ItemCost(e) == |e| + LOC_SIZE
  {
  }

  lemma SmallAt(slots: seq<Bytes>, i: nat)
    requires AllSmall(slots) && i < |slots|
    ensures ItemCost(slots[i]) <= ONE_FIFTH
  {
  }

  lemma SmallGrown(slots: seq<Bytes>, i: nat, e: Bytes)
    requires i <= |slots| && AllSmall(slots) && ItemCost(e) <= ONE_FIFTH
    ensures AllSmall(InsertAt(slots, i, e))
  {
    hide ItemCost;
  }

  lemma SmallHalves(v: seq<Bytes>, c: nat, high: Bytes)
    requires AllSmall(v) && ItemCost(high) <= ONE_FIFTH && 1 <= c < |v|
    requires Cost(v[..c]) + ItemCost(v[c]) <= NODE_CAPACITY && ItemCost(high) + Cost(v[c..]) <= NODE_CAPACITY
    ensures SmallPage([v[c]] + v[..c]) && SmallPage([high] + v[c..])
  {
    hide Cost, ItemCost;
    HeadedCost(v[c], v[..c]);
    HeadedCost(high, v[c..]);
  }

  lemma HeadedCost(high: Bytes, part: seq<Bytes>)
    ensures Cost([high] + part) == ItemCost(high) + Cost(part)
  {
    hide Cost;
    CostConcat([high], part);
    CostOne(high);
  }

  lemma SmallReplaced(nodes: Nodes, i: nat, mid: Nodes)
    requires i < |nodes| && Small(nodes) && Small(mid) && NoneEmpty(mid)
    ensures Small(Replaced(nodes, i, mid))
    ensures NoneEmpty(nodes) || |nodes| == 1 ==> NoneEmpty(Replaced(nodes, i, mid))
  {
    hide SmallPage;
    var r, n := Replaced(nodes, i, mid), |mid|;
    forall a | 0 <= a < |r|
      ensures SmallPage(r[a])
      ensures NoneEmpty(nodes) || |nodes| == 1 ==> |r[a]| >= 2
    {
      assert r[a] == if a < i then nodes[a] else if a < i + n then mid[a - i] else nodes[a - n + 1];
    }
  }

  /** The page the key stops at has at least the six bytes that PageGetFreeSpace subtracts. */
  ghost predicate Roomy(kt: BType, nodes: Nodes, e: Bytes)
    requires Headed(nodes)
  {
    NODE_CAPACITY - Cost(nodes[StopFrom(kt, KeyOf(kt, e), nodes, 0)]) >= LOC_SIZE
  }

  /** And if it is full, the new item is not pushed into a high-key slot. */
  ghost predicate Admits(kt: BType, nodes: Nodes, e: Bytes, src: nat)
    requires Headed(nodes)
  {
    var i := StopFrom(kt, KeyOf(kt, e), nodes, 0);
    && Roomy(kt, nodes, e)
    && (AddOutcome(NODE_CAPACITY - Cost(nodes[i]), |e|) == Full ==> !PushedOut(kt, nodes, e, src))
  }

  /** With entries of at most a fifth of a page an insertion is done exactly if the chain admits it: no
      assertion fails unless the new item is pushed into a high-key slot, and the wrapped free-space test
      goes wrong exactly on a page with fewer than six bytes left. No page of the chain is left empty. */
  lemma SmallStep(kt: BType, nodes: Nodes, e: Bytes, src: nat)
    requires Headed(nodes) && Small(nodes) && ItemCost(e) <= ONE_FIFTH && src <= 1
    ensures Outcome(kt, nodes, e, src) == InsertResult.Done <==> Admits(kt, nodes, e, src)
    ensures Outcome(kt, nodes, e, src) == InsertResult.Overrun <==> !Roomy(kt, nodes, e)
    ensures Small(NodesNext(kt, nodes, e, src))
    ensures GoesOn(Outcome(kt, nodes, e, src)) && (NoneEmpty(nodes) || |nodes| == 1) ==>
            NoneEmpty(NodesNext(kt, nodes, e, src))
  {
    hide Cost, StopFrom, KeyOf, InsertOutcome, PagesAfter, ClobberedPages, SmallPage, Replaced, Clobbers;
    var i := StopFrom(kt, KeyOf(kt, e), nodes, 0);
    SmallPagesAfter(kt, nodes[i], e, src, i == |nodes| - 1);
    if Outcome(kt, nodes, e, src) == InsertResult.Done {
      SmallReplaced(nodes, i, PagesAfter(kt, nodes[i], e, src));
    } else if Outcome(kt, nodes, e, src) == Clobbered {
      SmallReplaced(nodes, i, ClobberedPages(kt, nodes[i], e, nodes[i][src]));
    }
  }

  /** Every insertion of the run is admitted by the chain it finds. */
  ghost predicate AllAdmitted(kt: BType, es: seq<Bytes>, src: nat) {
    forall i :: 0 <= i < |es| ==> Admits(kt, Run(kt, es[..i], src).nodes, es[i], src)
  }

  ghost predicate AllRoomy(kt: BType, es: seq<Bytes>, src: nat) {
    forall i :: 0 <= i < |es| ==> Roomy(kt, Run(kt, es[..i], src).nodes, es[i])
  }

  lemma AllAdmittedStep(kt: BType, init: seq<Bytes>, last: Bytes, src: nat)
    ensures AllAdmitted(kt, init + [last], src)
            <==> AllAdmitted(kt, init, src) && Admits(kt, Run(kt, init, src).nodes, last, src)
    ensures AllRoomy(kt, init + [last], src) <==> AllRoomy(kt, init, src) && Roomy(kt, Run(kt, init, src).nodes, last)
  {
    hide Admits, Roomy, Run, Headed;
    var es := init + [last];
    assert forall i :: 0 <= i < |init| ==> es[..i] == init[..i] && es[i] == init[i];
    assert es[..|init|] == init && es[|init|] == last;
  }

  /** A whole build over entries of at most a fifth of a page, of any column type and in any order,
      completes exactly if every insertion is admitted. With the high key taken as commented that only
      takes pages with six bytes left, and nothing but an overrun can go wrong. No page is left empty. */
  lemma {:induction false} SmallBuild(kt: BType, es: seq<Bytes>, src: nat)
    requires AllSmall(es) && src <= 1
    ensures Run(kt, es, src).result == InsertResult.Done <==> AllAdmitted(kt, es, src)
    ensures src == HIGH_KEY ==> Run(kt, es, src).result == if AllRoomy(kt, es, src) then InsertResult.Done
            else InsertResult.Overrun
    ensures Small(Run(kt, es, src).nodes) && KeysKept(Run(kt, es, src).nodes)
  {
    hide *;
    SmallRunMeaning(kt, es, src);
    if es == [] {
      RunNone(kt, src);
      FreshSmall(kt, src);
    } else {
      var init, last := es[..|es| - 1], es[|es| - 1];
      assert es == init + [last];
      SmallSplit(init, last);
      SmallBuild(kt, init, src);
      SmallRunMeaning(kt, init, src);
      SmallRunGrows(kt, init, last, src);
    }
  }

  /** What SmallBuild says of one run. */
  ghost predicate SmallRun(kt: BType, es: seq<Bytes>, src: nat) {
    var run := Run(kt, es, src);
    && (run.result == InsertResult.Done <==> AllAdmitted(kt, es, src))
    && (src == HIGH_KEY ==> run.result == if AllRoomy(kt, es, src) then InsertResult.Done else InsertResult.Overrun)
    && Small(run.nodes) && KeysKept(run.nodes)
  }

  lemma SmallRunMeaning(kt: BType, es: seq<Bytes>, src: nat)
    ensures var run := Run(kt, es, src);
            SmallRun(kt, es, src)
            <==> && (run.result == InsertResult.Done <==> AllAdmitted(kt, es, src))
                 && (src == HIGH_KEY ==> run.result == if AllRoomy(kt, es, src) then InsertResult.Done
                     else InsertResult.Overrun)
                 && Small(run.nodes) && KeysKept(run.nodes)
  {
    hide Run, AllAdmitted, AllRoomy, Small, KeysKept;
  }

  lemma SmallSplit(init: seq<Bytes>, last: Bytes)
    requires AllSmall(init + [last])
    ensures AllSmall(init) && ItemCost(last) <= ONE_FIFTH
  {
    hide ItemCost;
    var es := init + [last];
    assert es[|init|] == last && forall i :: 0 <= i < |init| ==> es[i] == init[i];
  }

  lemma SmallRunGrows(kt: BType, es: seq<Bytes>, e: Bytes, src: nat)
    requires SmallRun(kt, es, src) && ItemCost(e) <= ONE_FIFTH && src <= 1
    ensures SmallRun(kt, es + [e], src)
  {
    hide Small, NoneEmpty, Outcome, NodesNext, Run, ItemCost, Admits, Roomy, AllAdmitted, AllRoomy, Headed;
    RunOne(kt, es, e, src);
    AllAdmittedStep(kt, es, e, src);
    var nodes := Run(kt, es, src).nodes;
    SmallStep(kt, nodes, e, src);
    CommentedAdmits(kt, nodes, e);
    if !GoesOn(Outcome(kt, nodes, e, src)) {
      NextWhenStopped(kt, nodes, e, src);
    }
  }

  lemma FreshSmall(kt: BType, src: nat)
    ensures Small(FRESH) && KeysKept(FRESH) && AllAdmitted(kt, [], src) && AllRoomy(kt, [], src)
  {
    hide EmptyKey;
    CostOne(EmptyKey());
  }

  lemma CommentedAdmits(kt: BType, nodes: Nodes, e: Bytes)
    requires Headed(nodes)
    ensures Admits(kt, nodes, e, HIGH_KEY) <==> Roomy(kt, nodes, e)
    ensures Outcome(kt, nodes, e, HIGH_KEY) != Clobbered
  {
    hide Roomy, PushedOut, Outcome, Cost;
    CommentedNeverClobbers(kt, nodes, e);
  }

  // ----- what searches compare with

  /** Every key of the chain, and every high key but that of the last page, is one of these entries. */
  ghost predicate FromEntries(es: seq<Bytes>, nodes: Nodes) {
    forall i, j :: 0 <= i < |nodes| && 0 <= j < |nodes[i]| && (j > 0 || i < |nodes| - 1) ==> nodes[i][j] in es
  }

  /** Along every run the slots a search compares with hold entries that were inserted, never the
      placeholder of a fresh page. */
  lemma {:induction false} RunFromEntries(kt: BType, es: seq<Bytes>, src: nat)
    requires src <= 1
    ensures FromEntries(es, Run(kt, es, src).nodes)
  {
    hide Run, Step, FromEntries, Headed;
    RunNone(kt, src);
    if es == [] {
      FreshFromEntries(es);
    } else {
      var init, last := es[..|es| - 1], es[|es| - 1];
      assert es == init + [last];
      RunFromEntries(kt, init, src);
      RunOne(kt, init, last, src);
      StepFromEntries(kt, Run(kt, init, src).nodes, init, last, src);
    }
  }

  lemma FreshFromEntries(es: seq<Bytes>)
    ensures FromEntries(es, FRESH)
  {
    hide EmptyKey;
  }

  lemma StepFromEntries(kt: BType, nodes: Nodes, es: seq<Bytes>, e: Bytes, src: nat)
    requires Headed(nodes) && FromEntries(es, nodes) && src <= 1
    ensures FromEntries(es + [e], nodes) && FromEntries(es + [e], Step(kt, nodes, e, src).nodes)
  {
    hide StopFrom, KeyOf, PagesAfter, ClobberedPages, Replaced, Outcome, NodesNext, FromEntries, PageFrom, PagesFrom,
         InsertOutcome;
    var i := StopFrom(kt, KeyOf(kt, e), nodes, 0);
    MoreEntries(es, e, nodes);
    PageFromEntries(es, nodes, i);
    StepPages(kt, nodes, e, src);
    if Outcome(kt, nodes, e, src) == InsertResult.Done {
      DoneFrom(kt, es, nodes[i], e, src, i == |nodes| - 1);
      ReplacedFrom(es + [e], nodes, i, PagesAfter(kt, nodes[i], e, src));
    } else if Outcome(kt, nodes, e, src) == Clobbered {
      ClobberFrom(kt, es, nodes[i], e, src, i == |nodes| - 1);
      ReplacedFrom(es + [e], nodes, i, ClobberedPages(kt, nodes[i], e, nodes[i][src]));
    } else {
      NextWhenStopped(kt, nodes, e, src);
    }
  }

  lemma MoreEntries(es: seq<Bytes>, e: Bytes, nodes: Nodes)
    requires FromEntries(es, nodes)
    ensures FromEntries(es + [e], nodes)
  {
  }

  ghost predicate PageFrom(es: seq<Bytes>, slots: seq<Bytes>, last: bool) {
    forall j :: 0 <= j < |slots| && (j > 0 || !last) ==> slots[j] in es
  }

  lemma PageFromEntries(es: seq<Bytes>, nodes: Nodes, i: nat)
    requires i < |nodes| && FromEntries(es, nodes)
    ensures PageFrom(es, nodes[i], i == |nodes| - 1)
  {
  }

  /** The same of pages in a row, the last of them the last of the chain or not. */
  ghost predicate PagesFrom(es: seq<Bytes>, mid: Nodes, last: bool) {
    mid != [] && forall a :: 0 <= a < |mid| ==> PageFrom(es, mid[a], last && a == |mid| - 1)
  }

  lemma ReplacedFrom(es: seq<Bytes>, nodes: Nodes, i: nat, mid: Nodes)
    requires i < |nodes| && FromEntries(es, nodes) && PagesFrom(es, mid, i == |nodes| - 1)
    ensures FromEntries(es, Replaced(nodes, i, mid))
  {
    var r, n := Replaced(nodes, i, mid), |mid|;
    forall a, j | 0 <= a < |r| && 0 <= j < |r[a]| && (j > 0 || a < |r| - 1)
      ensures r[a][j] in es
    {
      assert r[a] == if a < i then nodes[a] else if a < i + n then mid[a - i] else nodes[a - n + 1];
      if i <= a < i + n {
        assert PageFrom(es, mid[a - i], i == |nodes| - 1 && a - i == n - 1);
      }
    }
  }

  lemma TwoFrom(es: seq<Bytes>, a: seq<Bytes>, b: seq<Bytes>, last: bool)
    requires PageFrom(es, a, false) && PageFrom(es, b, last)
    ensures PagesFrom(es, [a, b], last)
  {
    hide PageFrom;
  }

  lemma GrownFrom(es: seq<Bytes>, slots: seq<Bytes>, p: nat, e: Bytes, last: bool)
    requires PageFrom(es, slots, last) && p < |slots|
    ensures PagesFrom(es + [e], [InsertAt(slots, p + 1, e)], last)
  {
  }

  lemma HalvesFrom(es: seq<Bytes>, slots: seq<Bytes>, p: nat, e: Bytes, c: nat, src: nat, last: bool)
    requires PageFrom(es, slots, last) && p < |slots| && c <= p + |slots| && src <= 1 && src < |slots|
    requires c < |InsertAt(Keys(slots), p, e)|
    ensures var v := InsertAt(Keys(slots), p, e);
            PageFrom(es + [e], [v[c]] + v[..c], false) && PageFrom(es + [e], [slots[src]] + v[c..], last)
  {
    var v := InsertAt(Keys(slots), p, e);
    assert forall j :: 0 <= j < |Keys(slots)| ==> Keys(slots)[j] == slots[j + 1];
    assert forall j :: 0 <= j < |v| ==> v[j] in es + [e];
  }

  lemma ClobberedFrom(es: seq<Bytes>, slots: seq<Bytes>, e: Bytes, c: nat, src: nat)
    requires PageFrom(es, slots, false) && src < |slots| && c <= |Keys(slots)|
    ensures var keys := Keys(slots);
            PageFrom(es + [e], [slots[src]] + keys[..c], false)
              && PageFrom(es + [e], [e, slots[src]] + keys[c..], false)
  {
    assert forall j :: 0 <= j < |Keys(slots)| ==> Keys(slots)[j] == slots[j + 1];
  }

  lemma DoneFrom(kt: BType, es: seq<Bytes>, slots: seq<Bytes>, e: Bytes, src: nat, rightmost: bool)
    requires slots != [] && src <= 1 && PageFrom(es, slots, rightmost)
    requires InsertOutcome(kt, slots, e, src, rightmost) == InsertResult.Done
    ensures PagesFrom(es + [e], PagesAfter(kt, slots, e, src), rightmost)
  {
    hide *;
    var p, c := Pos(kt, KeyOf(kt, e), Keys(slots)), LeftOf(kt, Keys(slots), e);
    KeysCount(slots);
    PagesCases(kt, slots, e, src, rightmost);
    InsertedAtPos(kt, Keys(slots), e);
    if AddOutcome(NODE_CAPACITY - Cost(slots), |e|) == Full {
      FullNeedsSlot(kt, slots, e, src, rightmost);
      var v := Inserted(kt, Keys(slots), e);
      HalvesFrom(es, slots, p, e, c, src, rightmost);
      TwoFrom(es + [e], [v[c]] + v[..c], [slots[src]] + v[c..], rightmost);
    } else {
      GrownFrom(es, slots, p, e, rightmost);
    }
  }

  lemma FullNeedsSlot(kt: BType, slots: seq<Bytes>, e: Bytes, src: nat, rightmost: bool)
    requires slots != [] && AddOutcome(NODE_CAPACITY - Cost(slots), |e|) == Full
    requires InsertOutcome(kt, slots, e, src, rightmost) == InsertResult.Done
    ensures src < |slots| && LeftOf(kt, Keys(slots), e) < |Inserted(kt, Keys(slots), e)|
  {
    hide Cost, AddOutcome, SplitOutcome, Inserted, LeftCount, Pos, KeyOf;
  }

  lemma ClobberFrom(kt: BType, es: seq<Bytes>, slots: seq<Bytes>, e: Bytes, src: nat, rightmost: bool)
    requires slots != [] && src < |slots| && PageFrom(es, slots, rightmost)
    requires InsertOutcome(kt, slots, e, src, rightmost) == Clobbered
    ensures PagesFrom(es + [e], ClobberedPages(kt, slots, e, slots[src]), rightmost)
  {
    hide Pos, KeyOf, Cost, AddOutcome, SplitOutcome, LeftOf, PageFrom, PagesFrom, Clobbers;
    var keys, c, high := Keys(slots), LeftOf(kt, Keys(slots), e), slots[src];
    ClobberedClobbers(kt, keys, e, high, rightmost);
    ClobberInside(kt, keys, e, high, rightmost);
    ClobberedFrom(es, slots, e, c, src);
    TwoFrom(es + [e], [high] + keys[..c], [e, high] + keys[c..], false);
  }

  lemma ClobberInside(kt: BType, keys: seq<Bytes>, e: Bytes, high: Bytes, rightmost: bool)
    requires Clobbers(kt, keys, e, high, rightmost)
    ensures !rightmost
  {
  }

  // ----- pages without keys, for entries of any size

  /** The insertion splits a page with a single key for a new item below it, reading the right page's high
      key from the first key. */
  ghost predicate EmptiesLeft(kt: BType, nodes: Nodes, e: Bytes, src: nat)
    requires Headed(nodes)
  {
    var i := StopFrom(kt, KeyOf(kt, e), nodes, 0);
    && AddOutcome(NODE_CAPACITY - Cost(nodes[i]), |e|) == Full
    && src == 1 && |nodes[i]| == 2 && Pos(kt, KeyOf(kt, e), Keys(nodes[i])) == 0
  }

  /** An insertion the program gets through leaves a page without keys in exactly that case; never with the
      high key taken as commented. */
  lemma NoneEmptyExactly(kt: BType, nodes: Nodes, e: Bytes, src: nat)
    requires Headed(nodes) && src <= 1 && GoesOn(Outcome(kt, nodes, e, src)) && (NoneEmpty(nodes) || |nodes| == 1)
    ensures NoneEmpty(NodesNext(kt, nodes, e, src)) <==> !EmptiesLeft(kt, nodes, e, src)
  {
    hide StopFrom, Pos, KeyOf, Cost, AddOutcome, PagesAfter, ClobberedPages, Replaced, NodesNext, Outcome,
         InsertOutcome, Keys, NoneEmpty;
    var i := StopFrom(kt, KeyOf(kt, e), nodes, 0);
    StepPages(kt, nodes, e, src);
    PageSizes(kt, nodes[i], e, src, i == |nodes| - 1);
    EmptyAmong(nodes, i, PagesAfter(kt, nodes[i], e, src));
    if src < |nodes[i]| {
      EmptyAmong(nodes, i, ClobberedPages(kt, nodes[i], e, nodes[i][src]));
    }
  }

  lemma PageSizes(kt: BType, slots: seq<Bytes>, e: Bytes, src: nat, rightmost: bool)
    requires |slots| >= 1 && src <= 1
    ensures var full := AddOutcome(NODE_CAPACITY - Cost(slots), |e|) == Full;
            var empties := full && src == 1 && |slots| == 2 && Pos(kt, KeyOf(kt, e), Keys(slots)) == 0;
            && (InsertOutcome(kt, slots, e, src, rightmost) == InsertResult.Done ==>
                (NoneEmpty(PagesAfter(kt, slots, e, src)) <==> !empties))
            && (InsertOutcome(kt, slots, e, src, rightmost) == Clobbered ==>
                  src < |slots| && !empties && NoneEmpty(ClobberedPages(kt, slots, e, slots[src])))
  {
    hide *;
    var keys := Keys(slots);
    var v, c := Inserted(kt, keys, e), LeftOf(kt, keys, e);
    KeysCount(slots);
    PagesCases(kt, slots, e, src, rightmost);
    OnePage(InsertAt(slots, Pos(kt, KeyOf(kt, e), keys) + 1, e));
    if AddOutcome(NODE_CAPACITY - Cost(slots), |e|) == Full
      && (InsertOutcome(kt, slots, e, src, rightmost) == InsertResult.Done
          || InsertOutcome(kt, slots, e, src, rightmost) == Clobbered) {
      LeftEmptyExactly(kt, slots, e, src, rightmost);
      SplitWentThrough(kt, slots, e, src, rightmost);
      TwoPages([v[c]] + v[..c], [slots[src]] + v[c..]);
      ClobberedSizes(kt, slots, e, slots[src]);
      FullMeans(kt, slots, e, src, rightmost);
      if InsertOutcome(kt, slots, e, src, rightmost) == Clobbered {
        ClobberedClobbers(kt, keys, e, slots[src], rightmost);
        ClobberedLast(kt, keys, e, slots[src], rightmost);
      }
    }
  }

  lemma ClobberedSizes(kt: BType, slots: seq<Bytes>, e: Bytes, high: Bytes)
    ensures NoneEmpty(ClobberedPages(kt, slots, e, high)) <==> LeftOf(kt, Keys(slots), e) >= 1
  {
    hide LeftOf, Keys, NoneEmpty;
    var keys, c := Keys(slots), LeftOf(kt, Keys(slots), e);
    TwoPages([high] + keys[..c], [e, high] + keys[c..]);
  }

  lemma ClobberedClobbers(kt: BType, keys: seq<Bytes>, e: Bytes, high: Bytes, rightmost: bool)
    requires SplitOutcome(kt, keys, e, high, rightmost) == Clobbered
    ensures Clobbers(kt, keys, e, high, rightmost)
  {
    hide Cost, AddOutcome, LeftCount, Clobbers, SplitFound, ClobberFits, Pos, KeyOf;
  }

  lemma ClobberedLast(kt: BType, keys: seq<Bytes>, e: Bytes, high: Bytes, rightmost: bool)
    requires Clobbers(kt, keys, e, high, rightmost)
    ensures Pos(kt, KeyOf(kt, e), keys) == |keys|
  {
  }

  lemma EmptyAmong(nodes: Nodes, i: nat, mid: Nodes)
    requires i < |nodes| && (NoneEmpty(nodes) || |nodes| == 1)
    ensures NoneEmpty(Replaced(nodes, i, mid)) <==> NoneEmpty(mid)
  {
    var r, n := Replaced(nodes, i, mid), |mid|;
    assert forall a :: 0 <= a < n ==> r[i + a] == mid[a];
    assert forall a :: 0 <= a < |r| ==> r[a] == if a < i then nodes[a] else if a < i + n then mid[a - i]
           else nodes[a - n + 1];
  }

  ghost predicate KeysKept(nodes: Nodes) {
    NoneEmpty(nodes) || |nodes| == 1
  }

  /** With the high key taken as commented, no run leaves a page of the chain without keys, whatever the
      entries; only the root of an empty index has none. */
  lemma {:induction false} CommentedRunsKeepKeys(kt: BType, es: seq<Bytes>)
    ensures KeysKept(Run(kt, es, HIGH_KEY).nodes)
  {
    hide Run, NoneEmpty, Headed;
    if es == [] {
      RunNone(kt, HIGH_KEY);
    } else {
      var init, last := es[..|es| - 1], es[|es| - 1];
      CommentedRunsKeepKeys(kt, init);
      CommentedRunGrows(kt, init, last);
      assert es == init + [last];
    }
  }

  lemma CommentedRunGrows(kt: BType, es: seq<Bytes>, e: Bytes)
    requires KeysKept(Run(kt, es, HIGH_KEY).nodes)
    ensures KeysKept(Run(kt, es + [e], HIGH_KEY).nodes)
  {
    hide Run, KeysKept, Step, Headed;
    RunOne(kt, es, e, HIGH_KEY);
    CommentedStepKeepsKeys(kt, Run(kt, es, HIGH_KEY).nodes, e);
  }

  lemma CommentedStepKeepsKeys(kt: BType, nodes: Nodes, e: Bytes)
    requires Headed(nodes) && KeysKept(nodes)
    ensures KeysKept(Step(kt, nodes, e, HIGH_KEY).nodes)
  {
    hide NoneEmpty, EmptiesLeft, NodesNext, Outcome, Headed;
    if GoesOn(Outcome(kt, nodes, e, HIGH_KEY)) {
      NoneEmptyExactly(kt, nodes, e, HIGH_KEY);
      NeverEmpties(kt, nodes, e);
    } else {
      NextWhenStopped(kt, nodes, e, HIGH_KEY);
    }
  }

  lemma NeverEmpties(kt: BType, nodes: Nodes, e: Bytes)
    requires Headed(nodes)
    ensures !EmptiesLeft(kt, nodes, e, HIGH_KEY)
  {
  }

  lemma NextWhenStopped(kt: BType, nodes: Nodes, e: Bytes, src: nat)
    requires Headed(nodes) && !GoesOn(Outcome(kt, nodes, e, src))
    ensures NodesNext(kt, nodes, e, src) == nodes
  {
    hide Outcome;
  }

  // ----- entries of one width

  const INT_COST: nat := 55
  const BOOL_COST: nat := 52
  const ROOT_ROOM: nat := NODE_CAPACITY - EMPTY_KEY_SIZE - LOC_SIZE

  /** However many entries of this width a page has, and whether its high key is the placeholder or one of
      them, the bytes left over are never fewer than six. */
  predicate SafeWidth(w: nat) {
    0 < w <= ONE_FIFTH && ROOT_ROOM % w >= LOC_SIZE && NODE_CAPACITY % w >= LOC_SIZE
  }

  /** Int and bool entries have such a width, text entries of 13 characters do not. */
  lemma SafeWidths()
    ensures SafeWidth(INT_COST) && SafeWidth(BOOL_COST) && ROOT_ROOM % 65 < LOC_SIZE
  {
  }

  /** Every entry costs w; the high key costs w too, or is still the placeholder. */
  ghost predicate Uniform(w: nat, slots: seq<Bytes>) {
    && |slots| >= 1
    && (ItemCost(slots[0]) == w || ItemCost(slots[0]) == EMPTY_KEY_SIZE + LOC_SIZE)
    && forall i :: 1 <= i < |slots| ==> ItemCost(slots[i]) == w
  }

  ghost predicate AllUniform(w: nat, nodes: Nodes) {
    forall i :: 0 <= i < |nodes| ==> Uniform(w, nodes[i])
  }

  lemma {:induction false} UniformCost(w: nat, slots: seq<Bytes>)
    requires Uniform(w, slots)
    ensures Cost(slots) == ItemCost(slots[0]) + w * (|slots| - 1)
  {
    if |slots| == 1 {
      assert slots[..0] == [];
    } else {
      UniformCost(w, slots[..|slots| - 1]);
      assert w * (|slots| - 1) == w * (|slots| - 2) + w;
    }
  }

  /** On a page of entries of a safe width the bytes left over are never between 0 and 5. */
  lemma UniformSlack(w: nat, slots: seq<Bytes>)
    requires SafeWidth(w)
    requires Uniform(w, slots) && Cost(slots) <= NODE_CAPACITY
    ensures NODE_CAPACITY - Cost(slots) >= LOC_SIZE
  {
    hide Cost, ItemCost;
    UniformCost(w, slots);
    var n := |slots| - 1;
    if ItemCost(slots[0]) == w {
      assert w + w * n == w * (n + 1);
      LeftOver(NODE_CAPACITY, w, n + 1);
    } else {
      LeftOver(ROOT_ROOM, w, n);
    }
  }

  lemma LeftOver(room: nat, w: nat, n: nat)
    requires w > 0 && w * n <= room
    ensures room - w * n >= room % w
  {
    var q := room / w;
    assert room == w * q + room % w && w * (q + 1) == w * q + w;
    if n > q {
      Monotone(w, q + 1, n);
    } else {
      Monotone(w, n, q);
    }
  }

  lemma Monotone(w: nat, a: nat, b: nat)
    requires a <= b
    ensures w * a <= w * b
  {
  }

  lemma UniformPagesAfter(w: nat, kt: BType, slots: seq<Bytes>, e: Bytes, src: nat)
    requires |slots| >= 1 && Uniform(w, slots) && ItemCost(e) == w
    ensures AllUniform(w, PagesAfter(kt, slots, e, src))
  {
    hide ItemCost, Cost, Pos, KeyOf, LeftCount, AddOutcome, Uniform;
    var p := Pos(kt, KeyOf(kt, e), Keys(slots));
    UniformGrown(w, slots, p, e);
    if AddOutcome(NODE_CAPACITY - Cost(slots), |e|) == Full && src < |slots| {
      var v := Inserted(kt, Keys(slots), e);
      UniformHalves(w, slots, v, p, e, LeftCount(v, p), slots[src]);
    }
  }

  lemma UniformGrown(w: nat, slots: seq<Bytes>, p: nat, e: Bytes)
    requires Uniform(w, slots) && ItemCost(e) == w && p < |slots|
    ensures Uniform(w, InsertAt(slots, p + 1, e))
  {
    hide ItemCost;
  }

  lemma UniformHalves(w: nat, slots: seq<Bytes>, v: seq<Bytes>, p: nat, e: Bytes, c: nat, high: Bytes)
    requires Uniform(w, slots) && ItemCost(e) == w && p < |slots| && v == InsertAt(Keys(slots), p, e) && c < |v|
    requires high in slots
    ensures Uniform(w, [v[c]] + v[..c]) && Uniform(w, [high] + v[c..])
  {
    hide ItemCost;
    assert forall i :: 0 <= i < |v| ==> ItemCost(v[i]) == w;
  }

  lemma UniformReplaced(w: nat, nodes: Nodes, i: nat, mid: Nodes)
    requires i < |nodes| && AllUniform(w, nodes) && AllUniform(w, mid)
    ensures AllUniform(w, Replaced(nodes, i, mid))
  {
    hide Uniform;
    var r, n := Replaced(nodes, i, mid), |mid|;
    forall a | 0 <= a < |r|
      ensures Uniform(w, r[a])
    {
      assert r[a] == if a < i then nodes[a] else if a < i + n then mid[a - i] else nodes[a - n + 1];
    }
  }

  ghost predicate AllCost(w: nat, es: seq<Bytes>) {
    forall i :: 0 <= i < |es| ==> ItemCost(es[i]) == w
  }

  lemma FreshUniform(w: nat)
    ensures AllUniform(w, FRESH)
  {
    hide EmptyKey;
  }

  /** On uniform pages a clobbering split fits, so nothing worse than clobbering happens. */
  lemma UniformClobber(w: nat, kt: BType, slots: seq<Bytes>, e: Bytes, rightmost: bool)
    requires SafeWidth(w) && Uniform(w, slots) && ItemCost(e) == w && SmallPage(slots)
    ensures InsertOutcome(kt, slots, e, 1, rightmost) != Failed
    ensures InsertOutcome(kt, slots, e, 1, rightmost) == Clobbered ==>
            AllUniform(w, ClobberedPages(kt, slots, e, slots[1]))
  {
    hide Cost, KeyOf, LeftOf, Clobbers, AllSmall, SplitOutcome, AddOutcome, Uniform, ItemCost, Pos, Keys, ClobberFits,
         InsertOutcome;
    OneWidth(w, slots, e);
    UniformSize(w, slots);
    SmallPagesAfter(kt, slots, e, 1, rightmost);
    if 1 < |slots| {
      UniformClobbered(w, slots, LeftOf(kt, Keys(slots), e), e);
      if InsertOutcome(kt, slots, e, 1, rightmost) == Failed {
        FailedWhenFull(kt, slots, e, 1, rightmost);
        OneFifthSplits(kt, slots, e, 1, rightmost);
        ClobberAtEnd(kt, Keys(slots), e, slots[1], rightmost);
        UniformFits(w, slots, LeftOf(kt, Keys(slots), e), e);
      }
    }
  }

  lemma UniformSize(w: nat, slots: seq<Bytes>)
    requires Uniform(w, slots)
    ensures |slots| >= 1
  {
  }

  lemma FailedWhenFull(kt: BType, slots: seq<Bytes>, e: Bytes, src: nat, rightmost: bool)
    requires |slots| >= 1 && InsertOutcome(kt, slots, e, src, rightmost) == Failed
    ensures AddOutcome(NODE_CAPACITY - Cost(slots), |e|) == Full
  {
    hide Cost, SplitOutcome;
  }

  lemma OneWidth(w: nat, slots: seq<Bytes>, e: Bytes)
    requires SafeWidth(w) && ItemCost(e) == w
    ensures ItemCost(e) <= ONE_FIFTH
  {
  }

  lemma UniformClobbered(w: nat, slots: seq<Bytes>, c: nat, e: Bytes)
    requires Uniform(w, slots) && ItemCost(e) == w && 1 < |slots| && c <= |Keys(slots)|
    ensures Uniform(w, [slots[1]] + Keys(slots)[..c]) && Uniform(w, [e, slots[1]] + Keys(slots)[c..])
  {
    hide ItemCost;
  }

  lemma UniformFits(w: nat, slots: seq<Bytes>, c: nat, e: Bytes)
    requires Uniform(w, slots) && ItemCost(e) == w && 1 < |slots| && c <= |Keys(slots)|
    requires var v := Keys(slots) + [e]; Cost(v[..c]) + ItemCost(v[c]) <= NODE_CAPACITY
    ensures ClobberFits(Keys(slots), slots[1], c)
  {
    hide ItemCost, Cost;
    var v := Keys(slots) + [e];
    assert v[..c] == Keys(slots)[..c];
    assert ItemCost(v[c]) == w;
  }

  lemma UniformStep(w: nat, kt: BType, nodes: Nodes, e: Bytes, src: nat)
    requires SafeWidth(w) && src <= 1 && ItemCost(e) == w
    requires Headed(nodes) && Small(nodes) && AllUniform(w, nodes)
    ensures GoesOn(Outcome(kt, nodes, e, src)) && Roomy(kt, nodes, e)
    ensures AllUniform(w, NodesNext(kt, nodes, e, src))
  {
    hide Cost, StopFrom, KeyOf, InsertOutcome, PagesAfter, ClobberedPages, Uniform, NoneEmpty, AllSmall, SmallPage,
         Small, Replaced, PushedOut, NodesAfter;
    var i := StopFrom(kt, KeyOf(kt, e), nodes, 0);
    OneWidth(w, nodes[i], e);
    SmallStep(kt, nodes, e, src);
    SmallNode(nodes, i);
    UniformNode(w, nodes, i);
    UniformSlack(w, nodes[i]);
    CommentedNeverClobbers(kt, nodes, e);
    UniformPagesAfter(w, kt, nodes[i], e, src);
    UniformReplaced(w, nodes, i, PagesAfter(kt, nodes[i], e, src));
    UniformClobber(w, kt, nodes[i], e, i == |nodes| - 1);
    StepPages(kt, nodes, e, src);
    if Outcome(kt, nodes, e, src) == Clobbered {
      UniformReplaced(w, nodes, i, ClobberedPages(kt, nodes[i], e, nodes[i][src]));
    }
  }

  lemma SmallNode(nodes: Nodes, i: nat)
    requires Small(nodes) && i < |nodes|
    ensures SmallPage(nodes[i]) && Cost(nodes[i]) <= NODE_CAPACITY
  {
    hide Cost, AllSmall;
  }

  lemma UniformNode(w: nat, nodes: Nodes, i: nat)
    requires AllUniform(w, nodes) && i < |nodes|
    ensures Uniform(w, nodes[i]) && |nodes[i]| >= 1
  {
    hide ItemCost;
  }

  lemma StepPages(kt: BType, nodes: Nodes, e: Bytes, src: nat)
    requires Headed(nodes)
    ensures var i := StopFrom(kt, KeyOf(kt, e), nodes, 0);
            && Outcome(kt, nodes, e, src) == InsertOutcome(kt, nodes[i], e, src, i == |nodes| - 1)
            && (Outcome(kt, nodes, e, src) == InsertResult.Done ==>
                NodesNext(kt, nodes, e, src) == Replaced(nodes, i, PagesAfter(kt, nodes[i], e, src)))
            && (Outcome(kt, nodes, e, src) == Clobbered ==>
                  src < |nodes[i]| && NodesNext(kt, nodes, e, src) ==
                    Replaced(nodes, i, ClobberedPages(kt, nodes[i], e, nodes[i][src])))
  {
    hide StopFrom, KeyOf, PagesAfter, ClobberedPages, Replaced, Cost, SplitOutcome, AddOutcome;
  }

  /** Taking the high key from slot 0, as the comment says, never clobbers. */
  lemma CommentedNeverClobbers(kt: BType, nodes: Nodes, e: Bytes)
    requires Headed(nodes)
    ensures !PushedOut(kt, nodes, e, HIGH_KEY) && Outcome(kt, nodes, e, HIGH_KEY) != Clobbered
  {
    hide Cost, StopFrom, KeyOf, Pos, LeftCount, SplitFound, MovesRight, KeyGt, AddOutcome, LeftOf, ClobberFits;
    StopsWhereItStops(kt, KeyOf(kt, e), nodes);
  }

  /** A whole build over entries of one safe width, any number of them in any order: no page ever has
      fewer than six bytes left, so with the high key taken as commented it always completes; as written,
      the only thing that can go wrong is a clobbered high key. */
  lemma {:induction false} UniformBuild(w: nat, kt: BType, es: seq<Bytes>, src: nat)
    requires SafeWidth(w) && AllCost(w, es) && src <= 1
    ensures Run(kt, es, src).result == InsertResult.Done || Run(kt, es, src).result == Clobbered
    ensures src == HIGH_KEY ==> Run(kt, es, src).result == InsertResult.Done
    ensures AllRoomy(kt, es, src) && AllUniform(w, Run(kt, es, src).nodes)
  {
    hide Small, AllUniform, Outcome, NodesNext, Run, ItemCost, AllRoomy, Roomy, AllSmall, AllAdmitted, SafeWidth,
         Headed;
    RunNone(kt, src);
    CostSmall(w, es);
    SmallBuild(kt, es, src);
    if es == [] {
      FreshUniform(w);
      FreshSmall(kt, src);
    } else {
      var init, last := es[..|es| - 1], es[|es| - 1];
      assert es == init + [last];
      UniformBuild(w, kt, init, src);
      CostSmall(w, init);
      SmallBuild(kt, init, src);
      RunOne(kt, init, last, src);
      UniformStep(w, kt, Run(kt, init, src).nodes, last, src);
      AllAdmittedStep(kt, init, last, src);
    }
  }

  lemma CostSmall(w: nat, es: seq<Bytes>)
    requires SafeWidth(w) && AllCost(w, es)
    ensures AllSmall(es)
  {
    hide ItemCost;
  }

  /** If entries of width w would leave the root page fewer than six bytes, a build over them completes as
      long as they all fit the root page, and overruns at the next one. */
  lemma {:induction false} UnsafeBuild(w: nat, kt: BType, es: seq<Bytes>, src: nat)
    requires 0 < w <= ONE_FIFTH && ROOT_ROOM % w < LOC_SIZE && AllCost(w, es) && src <= 1
    ensures Run(kt, es, src).result == if w * |es| <= ROOT_ROOM then InsertResult.Done else InsertResult.Overrun
    ensures w * |es| <= ROOT_ROOM ==>
              |Run(kt, es, src).nodes| == 1 && Cost(Run(kt, es, src).nodes[0]) == NODE_CAPACITY - ROOT_ROOM + w * |es|
  {
    hide Cost, Run, ItemCost, Outcome, NodesNext, Headed, EmptyKey;
    RunNone(kt, src);
    if es == [] {
      CostOne(EmptyKey());
    } else {
      var init, last := es[..|es| - 1], es[|es| - 1];
      assert es == init + [last];
      UnsafeBuild(w, kt, init, src);
      RunOne(kt, init, last, src);
      assert w * |es| == w * |init| + w;
      if w * |init| <= ROOT_ROOM {
        FillsRoot(kt, Run(kt, init, src).nodes, last, src);
        NextWhenDone(kt, Run(kt, init, src).nodes, last, src);
        if w * |es| > ROOT_ROOM {
          JustFull(w, |init|);
        }
      }
    }
  }

  lemma JustFull(w: nat, n: nat)
    requires w > 0 && w * n <= ROOT_ROOM < w * n + w
    ensures ROOT_ROOM - w * n == ROOT_ROOM % w
  {
    var q := ROOT_ROOM / w;
    assert ROOT_ROOM == w * q + ROOT_ROOM % w && w * (q + 1) == w * q + w && w * (n + 1) == w * n + w;
    if n < q {
      Monotone(w, n + 1, q);
    } else if n > q {
      Monotone(w, q + 1, n);
    }
  }

  /** While the one root page still has room, an insertion only fills it up. */
  lemma FillsRoot(kt: BType, nodes: Nodes, e: Bytes, src: nat)
    requires Headed(nodes) && |nodes| == 1
    ensures Outcome(kt, nodes, e, src) == InsertOutcome(kt, nodes[0], e, src, true)
    ensures NODE_CAPACITY - Cost(nodes[0]) >= ItemCost(e) ==>
              && Outcome(kt, nodes, e, src) == InsertResult.Done
              && NodesAfter(kt, nodes, e, src) == [InsertAt(nodes[0], Pos(kt, KeyOf(kt, e), Keys(nodes[0])) + 1, e)]
              && Cost(NodesAfter(kt, nodes, e, src)[0]) == Cost(nodes[0]) + ItemCost(e)
    ensures NODE_CAPACITY - Cost(nodes[0]) < LOC_SIZE ==> Outcome(kt, nodes, e, src) == InsertResult.Overrun
  {
    hide Cost, KeyOf, Pos, SplitOutcome, MovesRight;
    CostInsert(nodes[0], Pos(kt, KeyOf(kt, e), Keys(nodes[0])) + 1, e);
  }
}
