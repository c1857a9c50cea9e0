/** The page-level steps of an index insertion, on page buffers: search, the split loop, the copies,
    and the whole split. */
module IndexNode {
  import opened PageLayout
  import opened PageBuffer
  import opened Types
  import opened Codec
  import opened IndexOrder
  import opened IndexSplit
  import opened IndexMachine

  const NODE_SPECIAL: nat := 8168

  /** A leaf page as the index keeps it: at least the high-key slot, and no item smaller than an index
      tuple with no columns. */
  ghost predicate NodeImage(p: PageImage) {
    && ValidImage(p) && p.special == NODE_SPECIAL
    && p.info.NodeInfo? && IsLeaf(p.info.flags)
    && |p.locs| >= 1 && AllBig(Slots(p))
  }

  ghost predicate AllBig(items: seq<Bytes>) {
    forall i :: 0 <= i < |items| ==> EMPTY_KEY_SIZE <= |items[i]| < PAGE_SIZE
  }

  lemma NodeFacts(p: PageImage)
    requires NodeImage(p)
    ensures ValidImage(p) && p.special == NODE_SPECIAL && p.info.NodeInfo? && |p.locs| >= 1 && AllBig(Slots(p))
    ensures FirstKey(p.info.flags) == 1
    ensures Slack(p) == NODE_CAPACITY - Cost(Slots(p)) && 0 <= Slack(p)
  {
    hide Slots, Cost;
    SlackFromItems(p);
  }

  /** BTreePageInit. */
  method NewNode(level: nat, flags: nat, right: nat) returns (page: Page)
    requires IsLeaf(flags)
    ensures fresh(page) && fresh(page.data) && fresh(page.locs)
    ensures page.Valid() && page.Image().special == NODE_SPECIAL && page.Image().info == NodeInfo(level, flags, right)
    ensures Slots(page.Image()) == [EmptyKey()]
  {
    hide EmptyKey, ValidImage, Slots;
    EmptyMeaning(BTREE_INFO_SIZE, NodeInfo(level, flags, right));
    page := new Page.Init(BTREE_INFO_SIZE, NodeInfo(level, flags, right));
    ghost var was := page.Image();
    var r := page.AddItemAt(HIGH_KEY, EmptyKey());
    AddMeaning(was, HIGH_KEY, EmptyKey());
    assert InsertAt([], 0, EmptyKey()) == [EmptyKey()];
  }

  /** GetInsertionIdx. */
  method FindIdx(page: Page, kt: BType, k: Datum) returns (r: nat)
    requires page.Valid() && NodeImage(page.Image())
    ensures r == InsertionIdx(kt, k, Slots(page.Image()), page.info.right == NULL_PAGE)
    ensures r <= page.numLocs
  {
    hide KeyGt, ValidImage, Slots, AllBig, KeyOf, Gt, NodeImage, InsertionIdx;
    NodeFacts(page.Image());
    ghost var slots := Slots(page.Image());
    var i := FirstKey(page.info.flags);
    while i < page.numLocs
      invariant 1 <= i <= page.numLocs
      invariant forall j :: 1 <= j < i ==> KeyGt(kt, k, slots[j])
    {
      var found, item := page.GetItem(i);
      if !KeyGt(kt, k, item) {
        IdxIs(kt, k, slots, page.info.right == NULL_PAGE, i);
        return i;
      }
      i := i + 1;
    }
    IdxIs(kt, k, slots, page.info.right == NULL_PAGE, i);
    if page.info.right == NULL_PAGE {
      return page.numLocs;
    }
    var found, high := page.GetItem(HIGH_KEY);
    return if KeyGt(kt, k, high) then HIGH_KEY else page.numLocs;
  }

  lemma IdxIs(kt: BType, k: Datum, slots: seq<Bytes>, rightmost: bool, i: nat)
    requires 1 <= i <= |slots|
    requires forall j :: 1 <= j < i ==> KeyGt(kt, k, slots[j])
    requires i < |slots| ==> !KeyGt(kt, k, slots[i])
    ensures InsertionIdx(kt, k, slots, rightmost) ==
            if i < |slots| || rightmost || !KeyGt(kt, k, slots[HIGH_KEY]) then i else HIGH_KEY
  {
    hide KeyGt;
    PosUnique(kt, k, Keys(slots), i - 1);
  }

  /** The split loop over item lengths, slot 0 being the high key: left and right are the running
      free-space counters. */
  method FindSplit(lens: seq<nat>, left: int, right: int, ghost v: seq<Bytes>, ghost high: Bytes)
    returns (ok: bool, s: nat)
    requires |lens| == |v| + 1 && |v| > 0
    requires forall i :: 0 <= i < |v| ==> lens[i + 1] == |v[i]|
    requires left == NODE_CAPACITY - Cost(v) && right == NODE_CAPACITY - ItemCost(high)
    ensures ok <==> SplitFound(v, high)
    ensures ok ==> s == SplitPoint(v, |v|)
  {
    hide Cost, SplitPoint, SplitFound;
    SplitFoundIs(v, high);
    var leftFree, rightFree := left, right;
    s := |lens| - 1;
    assert v[..|v|] == v && v[|v|..] == [];
    CostEmpty();
    while s >= 1
      invariant 0 <= s <= |v|
      invariant leftFree == NODE_CAPACITY - Cost(v[..s])
      invariant rightFree == NODE_CAPACITY - ItemCost(high) - Cost(v[s..])
      invariant s >= 1 ==> SplitPoint(v, s) == SplitPoint(v, |v|)
      invariant s < |v| ==> rightFree >= 0
      invariant s == 0 ==> SplitPoint(v, |v|) == 0
    {
      MoveOne(v, s);
      var size := lens[s] + LOC_SIZE;
      leftFree := leftFree + size;
      if rightFree < size {
        MoreMoved(v, s, high);
        return false, 0;
      }
      rightFree := rightFree - size;
      s := s - 1;
      if leftFree - size >= 0 && rightFree >= 0 {
        break;
      }
    }
    ok := s != FirstKey(LEAF_PAGE) - 1;
  }

  lemma SplitFoundIs(v: seq<Bytes>, high: Bytes)
    requires |v| > 0
    ensures SplitFound(v, high)
            <==> SplitPoint(v, |v|) >= 1 && Cost(v[SplitPoint(v, |v|)..]) + ItemCost(high) <= NODE_CAPACITY
  {
  }

  lemma MoveOne(v: seq<Bytes>, s: nat)
    requires 1 <= s <= |v|
    ensures Cost(v[..s]) == Cost(v[..s - 1]) + ItemCost(v[s - 1])
    ensures Cost(v[s - 1..]) == Cost(v[s..]) + ItemCost(v[s - 1])
    ensures SplitPoint(v, s) == if Cost(v[..s]) <= NODE_CAPACITY || s == 1 then s - 1 else SplitPoint(v, s - 1)
  {
    hide Cost;
    CostSplit(v, s - 1);
    CostSplit(v, s);
  }

  lemma MoreMoved(v: seq<Bytes>, s: nat, high: Bytes)
    requires 1 <= s <= |v| && SplitPoint(v, |v|) == SplitPoint(v, s)
    requires ItemCost(high) + Cost(v[s - 1..]) > NODE_CAPACITY
    ensures !SplitFound(v, high)
  {
    hide Cost;
    var r := SplitPoint(v, |v|);
    CostSplit(v, r);
    CostSplit(v, s - 1);
    CostMonotone(v, r, s - 1);
  }

  /** The unchecked copy loops of a split: nothing is dropped as long as there is room. */
  method CopyItems(from: Page, to: Page, lo: nat, hi: nat)
    requires from.Valid() && to.Valid() && from != to && from.data != to.data && from.locs != to.locs
    requires lo <= hi <= from.numLocs && AllBig(Slots(from.Image()))
    requires to.Image().special == NODE_SPECIAL
    requires Cost(Slots(to.Image())) + Cost(Slots(from.Image())[lo..hi]) <= NODE_CAPACITY
    modifies to, to.data, to.locs
    ensures to.Valid() && to.special == old(to.special) && to.info == old(to.info)
    ensures Slots(to.Image()) == old(Slots(to.Image())) + old(Slots(from.Image())[lo..hi])
  {
    hide Cost, Slots, ValidImage;
    ghost var all, start := Slots(from.Image()), Slots(to.Image());
    for j := lo to hi
      invariant from.Valid() && from.Image() == old(from.Image()) && to.Valid()
      invariant to.special == old(to.special) && to.info == old(to.info)
      invariant Slots(to.Image()) == start + all[lo..j]
    {
      var found, item := from.GetItem(j);
      CopyRoom(to.Image(), start, all, lo, j, hi);
      ghost var was := to.Image();
      var r := to.AddItem(item);
      AddMeaning(was, |was.locs|, item);
      Appended(start, all, lo, j);
    }
  }

  lemma Appended(start: seq<Bytes>, all: seq<Bytes>, lo: nat, j: nat)
    requires lo <= j < |all|
    ensures InsertAt(start + all[lo..j], |start + all[lo..j]|, all[j]) == start + all[lo..j + 1]
  {
  }

  lemma CopyRoom(to: PageImage, start: seq<Bytes>, all: seq<Bytes>, lo: nat, j: nat, hi: nat)
    requires ValidImage(to) && to.special == NODE_SPECIAL && lo <= j < hi <= |all|
    requires Slots(to) == start + all[lo..j] && Cost(start) + Cost(all[lo..hi]) <= NODE_CAPACITY
    ensures Slack(to) >= |all[j]| + LOC_SIZE
  {
    hide Cost, Slots, ValidImage;
    SlackFromItems(to);
    CostConcat(start, all[lo..j]);
    CostSplit(all[lo..hi], j - lo);
    CostMonotone(all[lo..hi], j - lo + 1, hi - lo);
    assert all[lo..hi][..j - lo] == all[lo..j];
    assert all[lo..hi][..hi - lo] == all[lo..hi];
  }

  // ----- the split

  /** Where the copies of a split cut the old page: how many old keys stay left. */
  function OldLeft(v: seq<Bytes>, p: nat): nat
    requires |v| > 0
  {
    if p < LeftCount(v, p) then LeftCount(v, p) - 1 else LeftCount(v, p)
  }

  /** There is room for both copies, and on the left for the new item too. */
  lemma SplitRoom(keys: seq<Bytes>, p: nat, e: Bytes, high: Bytes)
    requires p <= |keys| && AllBig(keys) && EMPTY_KEY_SIZE <= |e|
    requires SplitFound(InsertAt(keys, p, e), high)
    ensures OldLeft(InsertAt(keys, p, e), p) <= |keys|
    ensures var v := InsertAt(keys, p, e);
            var a := OldLeft(v, p);
            && EMPTY_KEY_SIZE + LOC_SIZE + Cost(keys[..a])
                 + (if p < LeftCount(v, p) then ItemCost(e) else 0) <= NODE_CAPACITY
            && ItemCost(high) + Cost(keys[a..]) <= NODE_CAPACITY
  {
    hide Cost, SplitPoint;
    var v := InsertAt(keys, p, e);
    var s, c, a := SplitPoint(v, |v|), LeftCount(v, p), OldLeft(v, p);
    BigInserted(keys, p, e);
    SplitFits(v, high, p);
    if p < c {
      assert v[..c] == InsertAt(keys[..a], p, e) && v[c..] == keys[a..];
      CostInsert(keys[..a], p, e);
    } else {
      assert v[..c] == keys[..a];
      RightCost(keys, p, e, c);
      CostSplit(v, c);
      CostSplit(v, s);
      CostOfSuffix(v, keys, p, e, c, s);
    }
  }

  lemma CostOfSuffix(v: seq<Bytes>, keys: seq<Bytes>, p: nat, e: Bytes, c: nat, s: nat)
    requires p <= |keys| && v == InsertAt(keys, p, e) && c <= p && s <= |v|
    requires c == s || (c == p && s == p + 1)
    ensures Cost(keys[c..]) <= Cost(v[s..])
  {
    hide Cost;
    if c == s {
      RightCost(keys, p, e, c);
    } else {
      assert v[s..] == keys[c..];
    }
  }

  lemma BigInserted(keys: seq<Bytes>, p: nat, e: Bytes)
    requires p <= |keys| && AllBig(keys) && EMPTY_KEY_SIZE <= |e|
    ensures forall i :: 0 <= i < |keys| + 1 ==> |InsertAt(keys, p, e)[i]| >= EMPTY_KEY_SIZE
  {
  }

  /** Insert the new item into one half, at the slot GetInsertionIdx gives there. */
  method PlaceItem(page: Page, kt: BType, e: Bytes) returns (r: AddResult, idx: nat)
    requires page.Valid() && NodeImage(page.Image()) && |e| < PAGE_SIZE
    modifies page, page.data, page.locs
    ensures page.Valid() && page.special == old(page.special) && page.info == old(page.info)
    ensures idx == InsertionIdx(kt, KeyOf(kt, e), old(Slots(page.Image())), old(page.info).right == NULL_PAGE)
    ensures r == AddOutcome(NODE_CAPACITY - Cost(old(Slots(page.Image()))), |e|)
    ensures r.Added? ==> Slots(page.Image()) == InsertAt(old(Slots(page.Image())), idx, e)
  {
    hide ValidImage, Slots, Cost, KeyOf, InsertionIdx, AllBig;
    NodeFacts(page.Image());
    idx := FindIdx(page, kt, KeyOf(kt, e));
    ghost var was := page.Image();
    r := page.AddItemAt(idx, e);
    if r.Added? {
      AddMeaning(was, idx, e);
    }
  }

  /** The array of item locations, lengths only, with the new item inserted virtually. */
  method VirtualLens(cur: Page, orig: nat, e: Bytes) returns (lens: seq<nat>)
    requires cur.Valid() && 1 <= orig <= cur.numLocs
    ensures |lens| == cur.numLocs + 1
    ensures var v := InsertAt(Keys(Slots(cur.Image())), orig - 1, e);
            forall i :: 0 <= i < |v| ==> lens[i + 1] == |v[i]|
  {
    hide Slots, ValidImage;
    ghost var slots := Slots(cur.Image());
    lens := [];
    for i := 0 to cur.numLocs
      invariant |lens| == i
      invariant forall j :: 0 <= j < i ==> lens[j] == |slots[j]|
    {
      SlotLength(cur.Image(), i);
      lens := lens + [cur.locs[i].length];
    }
    VirtualKeys(slots, lens, orig, e);
    lens := InsertAt(lens, orig, |e|);
  }

  lemma VirtualKeys(slots: seq<Bytes>, lens: seq<nat>, orig: nat, e: Bytes)
    requires |lens| == |slots| && 1 <= orig <= |slots|
    requires forall j :: 0 <= j < |lens| ==> lens[j] == |slots[j]|
    ensures var v := InsertAt(Keys(slots), orig - 1, e);
            forall i :: 0 <= i < |v| ==> InsertAt(lens, orig, |e|)[i + 1] == |v[i]|
  {
    var v := InsertAt(Keys(slots), orig - 1, e);
    forall i | 0 <= i < |v|
      ensures InsertAt(lens, orig, |e|)[i + 1] == |v[i]|
    {
      if i + 1 > orig {
        assert lens[i] == |slots[i]|;
      } else if i + 1 < orig {
        assert lens[i + 1] == |slots[i + 1]|;
      }
    }
  }

  lemma SlotLength(p: PageImage, i: nat)
    requires ValidImage(p) && i < |p.locs|
    ensures |Slots(p)[i]| == p.locs[i].length
  {
  }

  ghost predicate Separate(a: Page, b: Page) {
    a != b && a.data != b.data && a.locs != b.locs
  }

  /** Give the right page its high key, count bytes, find the split point. */
  method PlanSplit(cur: Page, newPage: Page, e: Bytes, orig: nat, high: Bytes) returns (ok: bool, s: nat)
    requires cur.Valid() && NodeImage(cur.Image()) && 1 <= orig <= cur.numLocs
    requires newPage.Valid() && newPage.special == NODE_SPECIAL && Slots(newPage.Image()) == [EmptyKey()]
    requires Separate(cur, newPage)
    requires high in Slots(cur.Image())
    modifies newPage, newPage.data, newPage.locs
    ensures newPage.Valid() && newPage.special == NODE_SPECIAL && newPage.info == old(newPage.info)
    ensures Slots(newPage.Image()) == [high]
    ensures ok <==> SplitFound(InsertAt(Keys(Slots(cur.Image())), orig - 1, e), high)
    ensures ok ==> s == SplitPoint(InsertAt(Keys(Slots(cur.Image())), orig - 1, e), cur.numLocs)
  {
    hide ValidImage, Slots, Cost, SplitPoint, EmptyKey, AllBig, InsertAt, NodeImage, SplitFound;
    NodeFacts(cur.Image());
    ghost var slots := Slots(cur.Image());
    ghost var v := InsertAt(Keys(slots), orig - 1, e);
    var lens := VirtualLens(cur, orig, e);
    CostInsert(Keys(slots), orig - 1, e);
    CostSplit(slots, 1);
    CostOfFirst(slots);
    SlotLength(cur.Image(), 0);
    var leftFree := cur.upper - cur.lower + (cur.locs[HIGH_KEY].length + LOC_SIZE) - (|e| + LOC_SIZE);
    OneKeyPage(newPage.Image(), high, slots);
    var r := newPage.SetHighKey(high);
    assert [EmptyKey()][0 := high] == [high];
    CostOne(high);
    SlackFromItems(newPage.Image());
    var rightFree := newPage.upper - newPage.lower;
    assert cur.locs[..cur.numLocs][0] == cur.locs[0];
    ok, s := FindSplit(lens, leftFree, rightFree, v, high);
  }

  /** A page holding only the placeholder has room for any key of a page instead. */
  lemma OneKeyPage(p: PageImage, high: Bytes, slots: seq<Bytes>)
    requires ValidImage(p) && p.special == NODE_SPECIAL && Slots(p) == [EmptyKey()]
    requires high in slots && Cost(slots) <= NODE_CAPACITY && AllBig(slots)
    ensures |p.locs| == 1 && Slack(p) + p.locs[0].length >= |high| && |high| < PAGE_SIZE
  {
    hide ValidImage, Cost, EmptyKey, Slots;
    SlackFromItems(p);
    CostOne(EmptyKey());
    SlotLength(p, 0);
    var i :| 0 <= i < |slots| && slots[i] == high;
    CostSplit(slots, i);
    CostMonotone(slots, i + 1, |slots|);
    assert slots[..|slots|] == slots;
  }

  /** Copy the old keys into the two new pages. */
  method FillHalves(cur: Page, curNew: Page, newPage: Page, a: nat, ghost high: Bytes)
    requires cur.Valid() && NodeImage(cur.Image()) && a < cur.numLocs
    requires curNew.Valid() && curNew.special == NODE_SPECIAL && Slots(curNew.Image()) == [EmptyKey()]
    requires newPage.Valid() && newPage.special == NODE_SPECIAL && Slots(newPage.Image()) == [high]
    requires Separate(cur, curNew) && Separate(cur, newPage) && Separate(curNew, newPage)
    requires EMPTY_KEY_SIZE + LOC_SIZE + Cost(Keys(Slots(cur.Image()))[..a]) <= NODE_CAPACITY
    requires ItemCost(high) + Cost(Keys(Slots(cur.Image()))[a..]) <= NODE_CAPACITY
    modifies curNew, curNew.data, curNew.locs, newPage, newPage.data, newPage.locs
    ensures curNew.Valid() && curNew.special == NODE_SPECIAL && curNew.info == old(curNew.info)
    ensures newPage.Valid() && newPage.special == NODE_SPECIAL && newPage.info == old(newPage.info)
    ensures Slots(curNew.Image()) == [EmptyKey()] + Keys(Slots(cur.Image()))[..a]
    ensures Slots(newPage.Image()) == [high] + Keys(Slots(cur.Image()))[a..]
  {
    hide ValidImage, Slots, Cost, EmptyKey, AllBig, NodeImage;
    NodeFacts(cur.Image());
    ghost var slots := Slots(cur.Image());
    assert slots[1..a + 1] == Keys(slots)[..a] && slots[a + 1..cur.numLocs] == Keys(slots)[a..];
    CostOne(EmptyKey());
    CostOne(high);
    CopyItems(cur, curNew, FirstKey(cur.info.flags), a + 1);
    CopyItems(cur, newPage, a + 1, cur.numLocs);
  }

  /** Make the first key of the right page the high key of the left one, and link the two; the program
      asserts that the key fits. */
  method LinkHalves(curNew: Page, newPage: Page, newId: nat) returns (ok: bool)
    requires curNew.Valid() && curNew.special == NODE_SPECIAL && curNew.numLocs >= 1 && curNew.info.NodeInfo?
    requires newPage.Valid() && newPage.numLocs >= 2 && Separate(curNew, newPage)
    requires |Slots(newPage.Image())[1]| < PAGE_SIZE
    modifies curNew, curNew.data, curNew.locs
    ensures ok <==> old(Cost(Keys(Slots(curNew.Image())))) + ItemCost(Slots(newPage.Image())[1]) <= NODE_CAPACITY
    ensures ok ==> curNew.Valid() && curNew.special == NODE_SPECIAL && curNew.info == old(curNew.info).(right := newId)
    ensures ok ==> Slots(curNew.Image()) == old(Slots(curNew.Image()))[0 := Slots(newPage.Image())[1]]
  {
    hide ValidImage, Slots, Cost;
    var found, high := newPage.GetItem(FirstKey(LEAF_PAGE));
    ghost var slots := Slots(curNew.Image());
    SlackFromItems(curNew.Image());
    CostSplit(slots, 1);
    CostOfFirst(slots);
    SlotLength(curNew.Image(), 0);
    var r := curNew.SetHighKey(high);
    if r != Added {
      return false;
    }
    InfoOnly(curNew.Image(), newId);
    curNew.SetRight(newId);
    return true;
  }

  lemma InfoOnly(p: PageImage, right: nat)
    requires p.info.NodeInfo?
    ensures Slots(p.(info := p.info.(right := right))) == Slots(p)
  {
  }

  ghost predicate FreshNode(page: Page)
    reads page, page.data, page.locs
  {
    page.Valid() && page.special == NODE_SPECIAL && page.info.NodeInfo? && IsLeaf(page.info.flags)
  }

  lemma KeysBig(slots: seq<Bytes>)
    requires AllBig(slots)
    ensures AllBig(Keys(slots))
  {
  }

  /** Everything up to the copies: two new pages, the split point, the old keys shared out. */
  method Halve(cur: Page, e: Bytes, orig: nat, high: Bytes)
    returns (ok: bool, splitIdx: nat, curNew: Page, newPage: Page)
    requires cur.Valid() && NodeImage(cur.Image()) && 1 <= orig <= cur.numLocs
    requires EMPTY_KEY_SIZE <= |e| < PAGE_SIZE && high in Slots(cur.Image())
    ensures fresh(curNew) && fresh(curNew.data) && fresh(curNew.locs) && fresh(newPage) && fresh(newPage.data)
    ensures fresh(newPage.locs)
    ensures Separate(curNew, newPage) && FreshNode(curNew) && FreshNode(newPage)
    ensures curNew.info.right == newPage.info.right == cur.info.right
    ensures var v := InsertAt(Keys(Slots(cur.Image())), orig - 1, e);
            && (ok <==> SplitFound(v, high))
            && (ok ==> splitIdx == OldLeft(v, orig - 1) < cur.numLocs
                       && (orig > splitIdx <==> orig - 1 >= LeftCount(v, orig - 1))
                       && Slots(curNew.Image()) == [EmptyKey()] + Keys(Slots(cur.Image()))[..splitIdx]
                       && Slots(newPage.Image()) == [high] + Keys(Slots(cur.Image()))[splitIdx..])
  {
    hide ValidImage, Slots, Cost, SplitPoint, EmptyKey, AllBig, InsertAt, NodeImage, SplitFound, LeftCount, OldLeft;
    NodeFacts(cur.Image());
    KeysBig(Slots(cur.Image()));
    newPage := NewNode(cur.info.level, LEAF_PAGE, cur.info.right);
    curNew := NewNode(cur.info.level, LEAF_PAGE, cur.info.right);
    var s;
    ok, s := PlanSplit(cur, newPage, e, orig, high);
    splitIdx := if orig <= s then s - 1 else s;
    if ok {
      ghost var v := InsertAt(Keys(Slots(cur.Image())), orig - 1, e);
      SplitFoundAt(v, high);
      SplitRoom(Keys(Slots(cur.Image())), orig - 1, e, high);
      LeftCountIs(v, orig - 1, s);
      FillHalves(cur, curNew, newPage, splitIdx, high);
    }
  }

  lemma SplitFoundAt(v: seq<Bytes>, high: Bytes)
    requires |v| > 0 && SplitFound(v, high)
    ensures SplitPoint(v, |v|) >= 1
  {
  }

  lemma LeftCountIs(v: seq<Bytes>, p: nat, s: nat)
    requires |v| > 0 && s == SplitPoint(v, |v|) && s >= 1
    ensures OldLeft(v, p) == if p + 1 <= s then s - 1 else s
    ensures p + 1 > OldLeft(v, p) <==> p >= LeftCount(v, p)
  {
  }

  lemma SplitNotFound(kt: BType, keys: seq<Bytes>, e: Bytes, high: Bytes, rightmost: bool)
    requires !SplitFound(Inserted(kt, keys, e), high)
    ensures SplitOutcome(kt, keys, e, high, rightmost) == Failed
  {
    hide Cost, KeyOf, Pos, SplitPoint, SplitFound, Clobbers, AddOutcome;
  }

  lemma SplitOutcomeCases(kt: BType, keys: seq<Bytes>, e: Bytes, high: Bytes, rightmost: bool)
    ensures var p := Pos(kt, KeyOf(kt, e), keys);
            var v := InsertAt(keys, p, e);
            var r := SplitOutcome(kt, keys, e, high, rightmost);
            var c := LeftCount(v, p);
            && (!SplitFound(v, high) ==> r == Failed)
            && (SplitFound(v, high) && p < c ==> r == InsertResult.Done)
            && (SplitFound(v, high) && p >= c ==>
                  match AddOutcome(NODE_CAPACITY - ItemCost(high) - Cost(keys[c..]), |e|)
                  case Overrun => r == InsertResult.Overrun
                  case Full => r == Failed
                  case Added =>
                    r == if !Clobbers(kt, keys, e, high, rightmost) then InsertResult.Done
                         else if ClobberFits(keys, high, c) then Clobbered else Failed)
  {
    hide Cost, KeyOf, Pos, SplitPoint, SplitFound, Clobbers, AddOutcome;
  }

  lemma NodePage(p: PageImage, slots: seq<Bytes>)
    requires ValidImage(p) && p.special == NODE_SPECIAL && p.info.NodeInfo? && IsLeaf(p.info.flags)
    requires Slots(p) == slots && |slots| >= 1 && AllBig(slots)
    ensures NodeImage(p)
  {
  }

  lemma BigSlots(high: Bytes, part: seq<Bytes>)
    requires EMPTY_KEY_SIZE <= |high| < PAGE_SIZE && AllBig(part)
    ensures AllBig([high] + part)
    ensures Cost([high] + part) == ItemCost(high) + Cost(part)
  {
    hide Cost;
    CostConcat([high], part);
    CostOne(high);
  }

  lemma BigParts(keys: seq<Bytes>, e: Bytes, p: nat)
    requires AllBig(keys) && p <= |keys| && EMPTY_KEY_SIZE <= |e| < PAGE_SIZE
    ensures AllBig(InsertAt(keys, p, e))
    ensures forall c :: 0 <= c <= |keys| ==> AllBig(keys[..c]) && AllBig(keys[c..])
  {
  }

  /** The new item goes right. */
  method FinishRight(curNew: Page, newPage: Page, kt: BType, e: Bytes, newId: nat, ghost keys: seq<Bytes>,
                     ghost c: nat, ghost high: Bytes)
    returns (r: InsertResult)
    requires FreshNode(curNew) && FreshNode(newPage) && Separate(curNew, newPage)
    requires AllBig(keys) && EMPTY_KEY_SIZE <= |e| < PAGE_SIZE && EMPTY_KEY_SIZE <= |high| < PAGE_SIZE
    requires c <= Pos(kt, KeyOf(kt, e), keys)
    requires Slots(curNew.Image()) == [EmptyKey()] + keys[..c] && Slots(newPage.Image()) == [high] + keys[c..]
    requires Cost(Inserted(kt, keys, e)[..c]) + ItemCost(Inserted(kt, keys, e)[c]) <= NODE_CAPACITY
    modifies curNew, curNew.data, curNew.locs, newPage, newPage.data, newPage.locs
    ensures r == match AddOutcome(NODE_CAPACITY - ItemCost(high) - Cost(keys[c..]), |e|)
                 case Overrun => InsertResult.Overrun
                 case Full => Failed
                 case Added =>
                   if !Clobbers(kt, keys, e, high, old(newPage.info).right == NULL_PAGE) then InsertResult.Done
                   else if ClobberFits(keys, high, c) then Clobbered else Failed
    ensures r == InsertResult.Done || r == Clobbered ==>
              && FreshNode(curNew) && FreshNode(newPage)
              && curNew.info.right == newId && newPage.info == old(newPage.info)
    ensures r == Clobbered ==>
              Slots(curNew.Image()) == [high] + keys[..c] && Slots(newPage.Image()) == [e, high] + keys[c..]
    ensures r == InsertResult.Done ==>
              var v := Inserted(kt, keys, e);
              && Slots(curNew.Image()) == [v[c]] + v[..c] && Slots(newPage.Image()) == [high] + v[c..]
  {
    hide ValidImage, Slots, Cost, EmptyKey, AllBig, NodeImage, KeyOf, Pos, Clobbers, KeyGt, InsertAt, InsertionIdx,
         Keys;
    BigParts(keys, e, Pos(kt, KeyOf(kt, e), keys));
    BigSlots(high, keys[c..]);
    NodePage(newPage.Image(), [high] + keys[c..]);
    RightIdxIs(kt, keys, e, c, high, newPage.info.right == NULL_PAGE);
    FilledRightIs(kt, keys, e, c, high, newPage.info.right == NULL_PAGE);
    var added, idx := PlaceItem(newPage, kt, e);
    match added {
      case Overrun => return InsertResult.Overrun;
      case Full => return Failed;
      case Added =>
    }
    ghost var v := Inserted(kt, keys, e);
    BigAt(v, c);
    HalfKeys(v, c, high, EmptyKey());
    ClobberKeys(keys, c, e, high, EmptyKey());
    var ok := LinkHalves(curNew, newPage, newId);
    if !ok {
      return Failed;
    }
    return if idx == HIGH_KEY then Clobbered else InsertResult.Done;
  }

  lemma ClobberKeys(keys: seq<Bytes>, c: nat, e: Bytes, high: Bytes, empty: Bytes)
    requires c <= |keys|
    ensures ([e, high] + keys[c..])[1] == high
    ensures Keys([empty] + keys[..c]) == keys[..c]
    ensures ([empty] + keys[..c])[0 := high] == [high] + keys[..c]
  {
  }

  lemma BigAt(v: seq<Bytes>, c: nat)
    requires AllBig(v) && c < |v|
    ensures EMPTY_KEY_SIZE <= |v[c]| < PAGE_SIZE
  {
  }

  lemma HalfKeys(v: seq<Bytes>, c: nat, high: Bytes, empty: Bytes)
    requires c < |v|
    ensures ([high] + v[c..])[1] == v[c]
    ensures Keys([empty] + v[..c]) == v[..c]
    ensures ([empty] + v[..c])[0 := v[c]] == [v[c]] + v[..c]
  {
  }

  /** The new item goes left. */
  method FinishLeft(curNew: Page, newPage: Page, kt: BType, e: Bytes, newId: nat, ghost keys: seq<Bytes>, ghost a: nat,
                    ghost high: Bytes)
    requires FreshNode(curNew) && FreshNode(newPage) && Separate(curNew, newPage)
    requires AllBig(keys) && EMPTY_KEY_SIZE <= |e| < PAGE_SIZE
    requires Pos(kt, KeyOf(kt, e), keys) < a < |keys|
    requires Slots(curNew.Image()) == [EmptyKey()] + keys[..a] && Slots(newPage.Image()) == [high] + keys[a..]
    requires EMPTY_KEY_SIZE + LOC_SIZE + Cost(keys[..a]) + ItemCost(e) <= NODE_CAPACITY
    requires Cost(Inserted(kt, keys, e)[..a + 1]) + ItemCost(Inserted(kt, keys, e)[a + 1]) <= NODE_CAPACITY
    modifies curNew, curNew.data, curNew.locs
    ensures FreshNode(curNew) && curNew.info.right == newId
    ensures var v := Inserted(kt, keys, e);
            Slots(curNew.Image()) == [v[a + 1]] + v[..a + 1] && Slots(newPage.Image()) == [high] + v[a + 1..]
  {
    hide ValidImage, Slots, Cost, EmptyKey, AllBig, NodeImage, KeyOf, Pos, KeyGt, InsertAt, InsertionIdx, Keys;
    BigParts(keys, e, Pos(kt, KeyOf(kt, e), keys));
    BigSlots(EmptyKey(), keys[..a]);
    NodePage(curNew.Image(), [EmptyKey()] + keys[..a]);
    SplitLeftMeaning(kt, keys, e, a, EmptyKey(), curNew.info.right == NULL_PAGE);
    var added, idx := PlaceItem(curNew, kt, e);
    ghost var v := Inserted(kt, keys, e);
    BigAt(v, a + 1);
    HalfKeys(v, a + 1, high, EmptyKey());
    var ok := LinkHalves(curNew, newPage, newId);
  }

  lemma BigIn(slots: seq<Bytes>, x: Bytes)
    requires AllBig(slots) && x in slots
    ensures EMPTY_KEY_SIZE <= |x| < PAGE_SIZE
  {
  }

  /** Both finished halves are node pages. */
  lemma HalvesAreNodes(left: PageImage, right: PageImage, v: seq<Bytes>, c: nat, high: Bytes)
    requires ValidImage(left) && left.special == NODE_SPECIAL && left.info.NodeInfo? && IsLeaf(left.info.flags)
    requires ValidImage(right) && right.special == NODE_SPECIAL && right.info.NodeInfo? && IsLeaf(right.info.flags)
    requires AllBig(v) && c < |v| && EMPTY_KEY_SIZE <= |high| < PAGE_SIZE
    requires Slots(left) == [v[c]] + v[..c] && Slots(right) == [high] + v[c..]
    ensures NodeImage(left) && NodeImage(right)
  {
    hide ValidImage, Slots;
  }

  lemma OutcomeWhenFull(kt: BType, slots: seq<Bytes>, e: Bytes, src: nat, rightmost: bool)
    requires |slots| >= 1 && AddOutcome(NODE_CAPACITY - Cost(slots), |e|) == Full
    ensures src >= |slots| ==> InsertOutcome(kt, slots, e, src, rightmost) == Failed
    ensures src < |slots| ==>
              InsertOutcome(kt, slots, e, src, rightmost) == SplitOutcome(kt, Keys(slots), e, slots[src], rightmost)
  {
    hide Cost, SplitOutcome, AddOutcome, Keys;
  }

  lemma PagesWhenFull(kt: BType, slots: seq<Bytes>, e: Bytes, src: nat, c: nat)
    requires src < |slots| && AddOutcome(NODE_CAPACITY - Cost(slots), |e|) == Full
    requires c == LeftCount(Inserted(kt, Keys(slots), e), Pos(kt, KeyOf(kt, e), Keys(slots)))
    ensures var v := Inserted(kt, Keys(slots), e);
            PagesAfter(kt, slots, e, src) == [[v[c]] + v[..c], [slots[src]] + v[c..]]
  {
    hide Cost, AddOutcome, Keys, Pos, KeyOf, LeftCount;
  }

  /** The split branch of BTreeIndexInsert, on page buffers; newId is the page the right half goes to. */
  method Split(cur: Page, kt: BType, e: Bytes, src: nat, newId: nat)
    returns (r: InsertResult, left: PageImage, right: PageImage)
    requires cur.Valid() && NodeImage(cur.Image()) && EMPTY_KEY_SIZE <= |e| < PAGE_SIZE
    requires AddOutcome(NODE_CAPACITY - Cost(Slots(cur.Image())), |e|) == Full
    requires InsertionIdx(kt, KeyOf(kt, e), Slots(cur.Image()), cur.info.right == NULL_PAGE) != HIGH_KEY
    ensures r == InsertOutcome(kt, Slots(cur.Image()), e, src, cur.info.right == NULL_PAGE)
    ensures r == InsertResult.Done ==> [Slots(left), Slots(right)] == PagesAfter(kt, Slots(cur.Image()), e, src)
    ensures r == Clobbered ==>
              src < |Slots(cur.Image())|
                && [Slots(left), Slots(right)] == ClobberedPages(kt, Slots(cur.Image()), e, Slots(cur.Image())[src])
    ensures r == InsertResult.Done || r == Clobbered ==>
              NodeImage(left) && NodeImage(right) && left.info.right == newId && right.info.right == cur.info.right
  {
    hide ValidImage, Slots, Cost, KeyOf, Pos, KeyGt, AllBig, InsertAt, SplitOutcome, NodeImage, LeftCount,
         InsertOutcome, AddOutcome, PagesAfter, Keys;
    NodeFacts(cur.Image());
    ghost var slots := Slots(cur.Image());
    OutcomeWhenFull(kt, slots, e, src, cur.info.right == NULL_PAGE);
    left, right := cur.Image(), cur.Image();
    var orig := FindIdx(cur, kt, KeyOf(kt, e));
    var found, high := cur.GetItem(src);
    if !found {
      return Failed, left, right;
    }
    r, left, right := SplitAt(cur, kt, e, orig, high, newId);
    if r == InsertResult.Done {
      PagesWhenFull(kt, slots, e, src, LeftOf(kt, Keys(slots), e));
    }
  }

  /** The rest of the split, from the insertion slot and the item copied as the right page's high key. */
  method SplitAt(cur: Page, kt: BType, e: Bytes, orig: nat, high: Bytes, newId: nat)
    returns (r: InsertResult, left: PageImage, right: PageImage)
    requires cur.Valid() && NodeImage(cur.Image()) && EMPTY_KEY_SIZE <= |e| < PAGE_SIZE
    requires orig == Pos(kt, KeyOf(kt, e), Keys(Slots(cur.Image()))) + 1 <= cur.numLocs && high in Slots(cur.Image())
    ensures r == SplitOutcome(kt, Keys(Slots(cur.Image())), e, high, cur.info.right == NULL_PAGE)
    ensures r == InsertResult.Done ==>
              var v, c := Inserted(kt, Keys(Slots(cur.Image())), e), LeftOf(kt, Keys(Slots(cur.Image())), e);
              Slots(left) == [v[c]] + v[..c] && Slots(right) == [high] + v[c..]
    ensures r == Clobbered ==> [Slots(left), Slots(right)] == ClobberedPages(kt, Slots(cur.Image()), e, high)
    ensures r == InsertResult.Done || r == Clobbered ==>
              NodeImage(left) && NodeImage(right) && left.info.right == newId && right.info.right == cur.info.right
  {
    hide ValidImage, Slots, Cost, KeyOf, Pos, SplitPoint, EmptyKey, KeyGt, AllBig, InsertAt, SplitOutcome, NodeImage,
         SplitFound, LeftCount, OldLeft,
      FreshNode, Separate;
    NodeFacts(cur.Image());
    ghost var slots, keys := Slots(cur.Image()), Keys(Slots(cur.Image()));
    KeysBig(slots);
    left, right := cur.Image(), cur.Image();
    var ok, splitIdx, curNew, newPage := Halve(cur, e, orig, high);
    if !ok {
      SplitNotFound(kt, keys, e, high, cur.info.right == NULL_PAGE);
      return Failed, left, right;
    }
    BigIn(slots, high);
    r, left, right := FinishSplit(curNew, newPage, kt, e, newId, orig > splitIdx, keys, orig - 1, high);
  }

  /** Place the new item and finish both halves. */
  method FinishSplit(curNew: Page, newPage: Page, kt: BType, e: Bytes, newId: nat, goesRight: bool,
                     ghost keys: seq<Bytes>, ghost p: nat, ghost high: Bytes)
    returns (r: InsertResult, left: PageImage, right: PageImage)
    requires FreshNode(curNew) && FreshNode(newPage) && Separate(curNew, newPage)
    requires AllBig(keys) && EMPTY_KEY_SIZE <= |e| < PAGE_SIZE && EMPTY_KEY_SIZE <= |high| < PAGE_SIZE
    requires p == Pos(kt, KeyOf(kt, e), keys) && SplitFound(InsertAt(keys, p, e), high)
    requires goesRight <==> p >= LeftCount(InsertAt(keys, p, e), p)
    requires var a := OldLeft(InsertAt(keys, p, e), p);
             a <= |keys| && Slots(curNew.Image()) == [EmptyKey()] + keys[..a]
               && Slots(newPage.Image()) == [high] + keys[a..]
    modifies curNew, curNew.data, curNew.locs, newPage, newPage.data, newPage.locs
    ensures r == SplitOutcome(kt, keys, e, high, old(newPage.info).right == NULL_PAGE)
    ensures r == InsertResult.Done ==>
              var v := InsertAt(keys, p, e);
              var c := LeftCount(v, p);
              && NodeImage(left) && NodeImage(right)
              && Slots(left) == [v[c]] + v[..c] && Slots(right) == [high] + v[c..]
    ensures r == Clobbered ==>
              var c := LeftCount(InsertAt(keys, p, e), p);
              && NodeImage(left) && NodeImage(right)
              && Slots(left) == [high] + keys[..c] && Slots(right) == [e, high] + keys[c..]
    ensures r == InsertResult.Done || r == Clobbered ==> left.info.right == newId && right.info == old(newPage.info)
  {
    hide ValidImage, Slots, Cost, KeyOf, Pos, EmptyKey, KeyGt, AllBig, InsertAt, SplitOutcome, NodeImage, SplitFound,
         LeftCount, OldLeft, AddOutcome, Clobbers, ClobberFits;
    ghost var v := InsertAt(keys, p, e);
    ghost var c := LeftCount(v, p);
    SplitOutcomeCases(kt, keys, e, high, newPage.info.right == NULL_PAGE);
    RoomToFinish(keys, p, e, high);
    r, left, right := InsertResult.Done, curNew.Image(), newPage.Image();
    if goesRight {
      r := FinishRight(curNew, newPage, kt, e, newId, keys, c, high);
    } else {
      FinishLeft(curNew, newPage, kt, e, newId, keys, c - 1, high);
    }
    if r == InsertResult.Done {
      left, right := curNew.Image(), newPage.Image();
      HalvesAreNodes(left, right, v, c, high);
    } else if r == Clobbered {
      left, right := curNew.Image(), newPage.Image();
      ClobberedAreNodes(left, right, keys, c, e, high);
    }
  }

  lemma ClobberedAreNodes(left: PageImage, right: PageImage, keys: seq<Bytes>, c: nat, e: Bytes, high: Bytes)
    requires ValidImage(left) && left.special == NODE_SPECIAL && left.info.NodeInfo? && IsLeaf(left.info.flags)
    requires ValidImage(right) && right.special == NODE_SPECIAL && right.info.NodeInfo? && IsLeaf(right.info.flags)
    requires AllBig(keys) && c <= |keys| && EMPTY_KEY_SIZE <= |high| < PAGE_SIZE && EMPTY_KEY_SIZE <= |e| < PAGE_SIZE
    requires Slots(left) == [high] + keys[..c] && Slots(right) == [e, high] + keys[c..]
    ensures NodeImage(left) && NodeImage(right)
  {
    hide ValidImage, Slots;
  }

  /** What the two finishing steps need to know about room. */
  lemma RoomToFinish(keys: seq<Bytes>, p: nat, e: Bytes, high: Bytes)
    requires p <= |keys| && AllBig(keys) && EMPTY_KEY_SIZE <= |e| < PAGE_SIZE
    requires SplitFound(InsertAt(keys, p, e), high)
    ensures var v := InsertAt(keys, p, e);
            var c := LeftCount(v, p);
            && AllBig(v)
            && Cost(v[..c]) + ItemCost(v[c]) <= NODE_CAPACITY
            && OldLeft(v, p) == (if p < c then c - 1 else c)
            && (p < c ==> p < c - 1 && EMPTY_KEY_SIZE + LOC_SIZE + Cost(keys[..c - 1]) + ItemCost(e) <= NODE_CAPACITY)
  {
    hide Cost, AllBig, InsertAt, SplitFound, LeftCount, OldLeft;
    BigParts(keys, e, p);
    BigInserted(keys, p, e);
    SplitFits(InsertAt(keys, p, e), high, p);
    SplitRoom(keys, p, e, high);
    OldLeftIs(InsertAt(keys, p, e), p);
  }

  lemma OldLeftIs(v: seq<Bytes>, p: nat)
    requires |v| > 0
    ensures OldLeft(v, p) == if p < LeftCount(v, p) then LeftCount(v, p) - 1 else LeftCount(v, p)
    ensures p < LeftCount(v, p) ==> p < OldLeft(v, p)
  {
  }
}
