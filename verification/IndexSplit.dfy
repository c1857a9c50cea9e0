/** What inserting into one index page comes to: fit, split, or one of the ways the program goes
    wrong; where a split falls; and what the two halves hold. */
module IndexSplit {
  import opened PageLayout
  import opened Types
  import opened Codec
  import opened IndexOrder

  const NODE_CAPACITY: nat := 8159

  /** Size of the placeholder BTreePageInit puts in the high-key slot. */
  const EMPTY_KEY_SIZE: nat := 28

  /** Done: the page or pages hold the old keys and the new one.
      Overrun: a wrapped free-space test sends the program over live bytes.
      Failed: an assertion fails or a null pointer is read.
      Clobbered: the split goes through, with the new item in the right page's high-key slot. */
  datatype InsertResult = Done | Overrun | Failed | Clobbered

  /** The split loop, with n virtual items still on the left: move the last one right; stop if the
      rest fits together with it as the new high key, or if nothing is left. */
  function SplitPoint(v: seq<Bytes>, n: nat): (s: nat)
    requires 0 < n <= |v|
    ensures s < n
    ensures s > 0 ==> Cost(v[..s + 1]) <= NODE_CAPACITY
    ensures forall t :: s + 1 < t <= n ==> Cost(v[..t]) > NODE_CAPACITY
  {
    hide Cost;
    if Cost(v[..n]) <= NODE_CAPACITY || n == 1 then n - 1 else SplitPoint(v, n - 1)
  }

  function ItemCost(e: Bytes): nat {
    |e| + LOC_SIZE
  }

  /** The loop's two assertions hold: it stops with something on the left, and the right page has
      room for its high key and everything moved. */
  predicate SplitFound(v: seq<Bytes>, high: Bytes)
    requires |v| > 0
  {
    var s := SplitPoint(v, |v|);
    s >= 1 && ItemCost(high) + Cost(v[s..]) <= NODE_CAPACITY
  }

  /** How many virtual items end up left. A new item that is the last the loop left there (p == s - 1)
      goes right all the same. */
  function LeftCount(v: seq<Bytes>, p: nat): (c: nat)
    requires |v| > 0
    ensures c < |v|
  {
    var s := SplitPoint(v, |v|);
    if p + 1 == s then s - 1 else s
  }

  /** The same, for inserting e into these keys. */
  function LeftOf(kt: BType, keys: seq<Bytes>, e: Bytes): (c: nat)
    ensures c <= |keys|
  {
    LeftCount(Inserted(kt, keys, e), Pos(kt, KeyOf(kt, e), keys))
  }

  predicate Clobbers(kt: BType, keys: seq<Bytes>, e: Bytes, high: Bytes, rightmost: bool) {
    && Pos(kt, KeyOf(kt, e), keys) == |keys|
    && !rightmost
    && KeyGt(kt, KeyOf(kt, e), high)
  }

  /** The left page of a clobbering split has room for its new high key, which is then the item the right
      page has in its first key slot: its displaced high key. */
  predicate ClobberFits(keys: seq<Bytes>, high: Bytes, c: nat)
    requires c <= |keys|
  {
    Cost(keys[..c]) + ItemCost(high) <= NODE_CAPACITY
  }

  /** What the split branch comes to; high is what the right page takes as its high key. */
  function SplitOutcome(kt: BType, keys: seq<Bytes>, e: Bytes, high: Bytes, rightmost: bool): InsertResult {
    var p := Pos(kt, KeyOf(kt, e), keys);
    var v := InsertAt(keys, p, e);
    var c := LeftCount(v, p);
    if !SplitFound(v, high) then Failed
    else if p < c then Done
    else match AddOutcome(NODE_CAPACITY - ItemCost(high) - Cost(keys[c..]), |e|)
      case Overrun => InsertResult.Overrun
      case Full => Failed
      case Added =>
        if !Clobbers(kt, keys, e, high, rightmost) then Done else if ClobberFits(keys, high, c) then Clobbered
          else Failed
  }

  /** What inserting into a page with these slots comes to. src is the slot the right page of a split
      takes its high key from: FirstKey as written (storage.c:1054), HIGH_KEY as commented
      (storage.c:1050). */
  function InsertOutcome(kt: BType, slots: seq<Bytes>, e: Bytes, src: nat, rightmost: bool): InsertResult
    requires |slots| >= 1
  {
    match AddOutcome(NODE_CAPACITY - Cost(slots), |e|)
    case Overrun => InsertResult.Overrun
    case Added => Done
    case Full => if src >= |slots| then Failed else SplitOutcome(kt, Keys(slots), e, slots[src], rightmost)
  }

  function RightIdx(kt: BType, keys: seq<Bytes>, e: Bytes, c: nat, high: Bytes, rightmost: bool): (i: nat)
    requires c <= |keys|
    ensures i <= 1 + |keys| - c
  {
    InsertionIdx(kt, KeyOf(kt, e), [high] + keys[c..], rightmost)
  }

  /** The right page of a split that sends the new item right, as the program fills it. */
  function FilledRight(kt: BType, keys: seq<Bytes>, e: Bytes, c: nat, high: Bytes, rightmost: bool): seq<Bytes>
    requires c <= |keys|
  {
    InsertAt([high] + keys[c..], RightIdx(kt, keys, e, c, high, rightmost), e)
  }

  lemma {:induction false} PosSuffix(kt: BType, k: Datum, keys: seq<Bytes>, c: nat)
    requires c <= Pos(kt, k, keys)
    ensures Pos(kt, k, keys[c..]) == Pos(kt, k, keys) - c
  {
    hide KeyGt, Pos;
    PosUnique(kt, k, keys[c..], Pos(kt, k, keys) - c);
  }

  lemma PosPrefix(kt: BType, k: Datum, keys: seq<Bytes>, c: nat)
    requires Pos(kt, k, keys) < c <= |keys|
    ensures Pos(kt, k, keys[..c]) == Pos(kt, k, keys)
  {
    hide KeyGt, Pos;
    PosUnique(kt, k, keys[..c], Pos(kt, k, keys));
  }

  lemma RightIdxIs(kt: BType, keys: seq<Bytes>, e: Bytes, c: nat, high: Bytes, rightmost: bool)
    requires c <= Pos(kt, KeyOf(kt, e), keys)
    ensures RightIdx(kt, keys, e, c, high, rightmost)
            == if Clobbers(kt, keys, e, high, rightmost) then HIGH_KEY else Pos(kt, KeyOf(kt, e), keys) - c + 1
  {
    hide KeyGt, Pos, KeyOf;
    PosSuffix(kt, KeyOf(kt, e), keys, c);
    assert Keys([high] + keys[c..]) == keys[c..];
  }

  lemma InsertedRight(keys: seq<Bytes>, e: Bytes, c: nat, p: nat, high: Bytes)
    requires c <= p <= |keys|
    ensures InsertAt([high] + keys[c..], p - c + 1, e) == [high] + InsertAt(keys, p, e)[c..]
    ensures keys[..c] == InsertAt(keys, p, e)[..c]
  {
  }

  /** Where a new item that goes right ends up: at its lower bound, or in the high-key slot. */
  lemma FilledRightIs(kt: BType, keys: seq<Bytes>, e: Bytes, c: nat, high: Bytes, rightmost: bool)
    requires c <= Pos(kt, KeyOf(kt, e), keys)
    ensures !Clobbers(kt, keys, e, high, rightmost) ==>
              keys[..c] == Inserted(kt, keys, e)[..c]
                && FilledRight(kt, keys, e, c, high, rightmost) == [high] + Inserted(kt, keys, e)[c..]
    ensures Clobbers(kt, keys, e, high, rightmost) ==>
            FilledRight(kt, keys, e, c, high, rightmost) == [e, high] + keys[c..]
  {
    hide KeyGt, Pos, KeyOf, RightIdx;
    RightIdxIs(kt, keys, e, c, high, rightmost);
    if !Clobbers(kt, keys, e, high, rightmost) {
      InsertedRight(keys, e, c, Pos(kt, KeyOf(kt, e), keys), high);
    }
  }

  /** New item right: the halves hold the old keys with the new one at its lower bound exactly when it
      is not clobbered. */
  lemma SplitRightMeaning(kt: BType, keys: seq<Bytes>, e: Bytes, c: nat, high: Bytes, rightmost: bool)
    requires c <= Pos(kt, KeyOf(kt, e), keys) && high != e
    ensures keys[..c] + Keys(FilledRight(kt, keys, e, c, high, rightmost)) == Inserted(kt, keys, e)
            <==> !Clobbers(kt, keys, e, high, rightmost)
  {
    hide KeyGt, Pos, KeyOf, RightIdx, FilledRight, Keys;
    FilledRightIs(kt, keys, e, c, high, rightmost);
    if Clobbers(kt, keys, e, high, rightmost) {
      ClobberedDiffers(keys, e, c, high);
    } else {
      KeysAfterHigh(high, Inserted(kt, keys, e)[c..]);
    }
  }

  lemma KeysAfterHigh(high: Bytes, part: seq<Bytes>)
    ensures Keys([high] + part) == part
  {
  }

  lemma ClobberedDiffers(keys: seq<Bytes>, e: Bytes, c: nat, high: Bytes)
    requires c <= |keys| && high != e
    ensures keys[..c] + Keys([e, high] + keys[c..]) != InsertAt(keys, |keys|, e)
  {
    hide Keys, InsertAt;
    CountClobbered(keys, e, c, high);
    CountAppended(keys, e);
  }

  lemma CountClobbered(keys: seq<Bytes>, e: Bytes, c: nat, high: Bytes)
    requires c <= |keys| && high != e
    ensures multiset(keys[..c] + Keys([e, high] + keys[c..]))[e] == multiset(keys)[e]
  {
    assert Keys([e, high] + keys[c..]) == [high] + keys[c..];
    assert keys == keys[..c] + keys[c..];
    assert multiset(keys) == multiset(keys[..c]) + multiset(keys[c..]);
    assert multiset(keys[..c] + ([high] + keys[c..])) == multiset(keys[..c]) + (multiset{high} + multiset(keys[c..]));
  }

  lemma CountAppended(keys: seq<Bytes>, e: Bytes)
    ensures multiset(InsertAt(keys, |keys|, e))[e] == multiset(keys)[e] + 1
  {
    assert InsertAt(keys, |keys|, e) == keys + [e];
  }

  /** New item left: its lower bound on the left page is its lower bound on the whole page, whatever
      stands in that page's high-key slot. */
  lemma SplitLeftMeaning(kt: BType, keys: seq<Bytes>, e: Bytes, c: nat, empty: Bytes, rightmost: bool)
    requires Pos(kt, KeyOf(kt, e), keys) < c <= |keys|
    ensures InsertionIdx(kt, KeyOf(kt, e), [empty] + keys[..c], rightmost) == Pos(kt, KeyOf(kt, e), keys) + 1
    ensures InsertAt([empty] + keys[..c], Pos(kt, KeyOf(kt, e), keys) + 1, e) ==
            [empty] + Inserted(kt, keys, e)[..c + 1]
    ensures Inserted(kt, keys, e)[c + 1..] == keys[c..]
  {
    hide KeyGt, Pos, KeyOf, InsertAt;
    PosPrefix(kt, KeyOf(kt, e), keys, c);
    assert Keys([empty] + keys[..c]) == keys[..c];
    InsertedLeft(keys, e, c, Pos(kt, KeyOf(kt, e), keys), empty);
  }

  lemma InsertedLeft(keys: seq<Bytes>, e: Bytes, c: nat, p: nat, empty: Bytes)
    requires p < c <= |keys|
    ensures InsertAt([empty] + keys[..c], p + 1, e) == [empty] + InsertAt(keys, p, e)[..c + 1]
    ensures InsertAt(keys, p, e)[c + 1..] == keys[c..]
  {
  }

  // ----- bytes

  lemma CostSplit(v: seq<Bytes>, t: nat)
    requires t <= |v|
    ensures Cost(v) == Cost(v[..t]) + Cost(v[t..])
    ensures t < |v| ==> Cost(v[..t + 1]) == Cost(v[..t]) + ItemCost(v[t])
  {
    assert v == v[..t] + v[t..];
    CostConcat(v[..t], v[t..]);
    if t < |v| {
      assert v[..t + 1][..t] == v[..t];
    }
  }

  lemma {:induction false} CostMonotone(v: seq<Bytes>, a: nat, b: nat)
    requires a <= b <= |v|
    ensures Cost(v[..a]) + (b - a) * LOC_SIZE <= Cost(v[..b])
    decreases b
  {
    if a < b {
      CostMonotone(v, a, b - 1);
      CostSplit(v, b - 1);
    }
  }

  lemma {:induction false} CostBound(v: seq<Bytes>, m: nat)
    requires forall i :: 0 <= i < |v| ==> ItemCost(v[i]) <= m
    ensures Cost(v) <= m * |v|
  {
    if v != [] {
      CostBound(v[..|v| - 1], m);
      assert m * |v| == m * (|v| - 1) + m;
    }
  }

  /** Byte accounting of a split that is found: the left page has room for its share next to the
      placeholder and then next to its new high key, and the right page for its share, unless the
      new item is pushed right beyond what the loop accounted for. */
  lemma SplitFits(v: seq<Bytes>, high: Bytes, p: nat)
    requires |v| > 0 && SplitFound(v, high)
    requires forall i :: 0 <= i < |v| ==> |v[i]| >= EMPTY_KEY_SIZE
    ensures EMPTY_KEY_SIZE + LOC_SIZE + Cost(v[..LeftCount(v, p)]) <= NODE_CAPACITY
    ensures Cost(v[..LeftCount(v, p)]) + ItemCost(v[LeftCount(v, p)]) <= NODE_CAPACITY
    ensures p + 1 != SplitPoint(v, |v|) ==> ItemCost(high) + Cost(v[LeftCount(v, p)..]) <= NODE_CAPACITY
  {
    hide Cost, SplitPoint;
    var s, c := SplitPoint(v, |v|), LeftCount(v, p);
    CostMonotone(v, c + 1, s + 1);
    CostSplit(v, c);
  }

  /** When a split leaves the left page without a key: only with the right page's high key read from the
      first key, as written, on a page with a single key, for a new item below it. */
  lemma LeftEmptyExactly(kt: BType, slots: seq<Bytes>, e: Bytes, src: nat, rightmost: bool)
    requires |slots| >= 1 && src <= 1 && AddOutcome(NODE_CAPACITY - Cost(slots), |e|) == Full
    requires InsertOutcome(kt, slots, e, src, rightmost) == Done
             || InsertOutcome(kt, slots, e, src, rightmost) == Clobbered
    ensures LeftOf(kt, Keys(slots), e) == 0 <==> src == 1 && |slots| == 2 && Pos(kt, KeyOf(kt, e), Keys(slots)) == 0
  {
    hide Cost, KeyOf, Pos, SplitPoint, AddOutcome, InsertOutcome, Keys, Inserted, LeftCount;
    var keys, high := Keys(slots), if src < |slots| then slots[src] else e;
    var p, v, c := Pos(kt, KeyOf(kt, e), keys), Inserted(kt, keys, e), LeftOf(kt, keys, e);
    SplitWentThrough(kt, slots, e, src, rightmost);
    LeftZero(v, p);
    FullCost(slots, e);
    InsertedCost(kt, keys, e);
    if c == 0 {
      OutcomeCases(NODE_CAPACITY - ItemCost(high) - Cost(keys[c..]), |e|);
      assert keys[0..] == keys && v[..|v|] == v;
    }
  }

  lemma InsertedCost(kt: BType, keys: seq<Bytes>, e: Bytes)
    ensures |Inserted(kt, keys, e)| == |keys| + 1 && Cost(Inserted(kt, keys, e)) == Cost(keys) + ItemCost(e)
  {
    hide Cost, Pos, KeyOf;
    CostInsert(keys, Pos(kt, KeyOf(kt, e), keys), e);
  }

  lemma SplitWentThrough(kt: BType, slots: seq<Bytes>, e: Bytes, src: nat, rightmost: bool)
    requires |slots| >= 1 && AddOutcome(NODE_CAPACITY - Cost(slots), |e|) == Full
    requires InsertOutcome(kt, slots, e, src, rightmost) == Done
             || InsertOutcome(kt, slots, e, src, rightmost) == Clobbered
    ensures var keys := Keys(slots);
            var c := LeftOf(kt, keys, e);
            && src < |slots| && SplitFound(Inserted(kt, keys, e), slots[src])
            && (Pos(kt, KeyOf(kt, e), keys) >= c ==>
                AddOutcome(NODE_CAPACITY - ItemCost(slots[src]) - Cost(keys[c..]), |e|) == Added)
  {
    hide *;
    FullMeans(kt, slots, e, src, rightmost);
    if src >= |slots| {
      FullFinds(kt, slots, e, src, rightmost);
    }
    SplitDone(kt, Keys(slots), e, slots[src], rightmost);
  }

  lemma FullFinds(kt: BType, slots: seq<Bytes>, e: Bytes, src: nat, rightmost: bool)
    requires |slots| >= 1 && AddOutcome(NODE_CAPACITY - Cost(slots), |e|) == Full && src >= |slots|
    ensures InsertOutcome(kt, slots, e, src, rightmost) == Failed
  {
    hide Cost;
  }

  lemma SplitDone(kt: BType, keys: seq<Bytes>, e: Bytes, high: Bytes, rightmost: bool)
    requires SplitOutcome(kt, keys, e, high, rightmost) == Done
             || SplitOutcome(kt, keys, e, high, rightmost) == Clobbered
    ensures SplitFound(Inserted(kt, keys, e), high)
    ensures Pos(kt, KeyOf(kt, e), keys) >= LeftOf(kt, keys, e) ==>
              AddOutcome(NODE_CAPACITY - ItemCost(high) - Cost(keys[LeftOf(kt, keys, e)..]), |e|) == Added
  {
    hide Cost, KeyOf, Pos, SplitFound, AddOutcome, Clobbers, ClobberFits, LeftCount, ItemCost;
  }

  lemma LeftZero(v: seq<Bytes>, p: nat)
    requires |v| > 0 && SplitPoint(v, |v|) >= 1
    ensures LeftCount(v, p) == 0 <==> SplitPoint(v, |v|) == 1 && p == 0
  {
    hide SplitPoint;
  }

  lemma FullCost(slots: seq<Bytes>, e: Bytes)
    requires |slots| >= 1
    ensures |Keys(slots)| == |slots| - 1 && Cost(slots) == ItemCost(slots[0]) + Cost(Keys(slots))
    ensures AddOutcome(NODE_CAPACITY - Cost(slots), |e|) == Full ==> Cost(slots) + ItemCost(e) > NODE_CAPACITY
  {
    hide Cost;
    CostSplit(slots, 1);
    CostOfFirst(slots);
  }

  const ONE_FIFTH: nat := 1631

  ghost predicate AllSmall(items: seq<Bytes>) {
    forall i :: 0 <= i < |items| ==> ItemCost(items[i]) <= ONE_FIFTH
  }

  /** If every entry, slot included, takes at most a fifth of the page, a page too full for the new
      item always splits: unless it clobbers, no assertion fails, the equal-slot case fits as well,
      and both halves keep at least one key. */
  lemma OneFifthSplits(kt: BType, slots: seq<Bytes>, e: Bytes, src: nat, rightmost: bool)
    requires |slots| >= 1 && src <= 1 && Cost(slots) <= NODE_CAPACITY
    requires AllSmall(slots) && ItemCost(e) <= ONE_FIFTH
    requires AddOutcome(NODE_CAPACITY - Cost(slots), |e|) == Full
    ensures src < |slots|
    ensures InsertOutcome(kt, slots, e, src, rightmost) ==
            if !Clobbers(kt, Keys(slots), e, slots[src], rightmost) then Done
            else if ClobberFits(Keys(slots), slots[src], LeftOf(kt, Keys(slots), e)) then Clobbered else Failed
    ensures var v := Inserted(kt, Keys(slots), e);
            var c := LeftOf(kt, Keys(slots), e);
            && 1 <= c < |slots|
            && Cost(v[..c]) + ItemCost(v[c]) <= NODE_CAPACITY
            && ItemCost(slots[src]) + Cost(v[c..]) <= NODE_CAPACITY
  {
    hide Cost, SplitPoint, Pos, KeyOf, Clobbers, ClobberFits, SplitOutcome, AllSmall, LeftCount, InsertOutcome,
         AddOutcome, SplitFound;
    FirstSmall(slots, src);
    FullMeans(kt, slots, e, src, rightmost);
    var keys := Keys(slots);
    var p := Pos(kt, KeyOf(kt, e), keys);
    var v := InsertAt(keys, p, e);
    CostInsert(keys, p, e);
    KeysCost(slots);
    AtLeastTwo(slots);
    SmallInsert(slots, p, e);
    OneFifthPoint(v, slots, e, slots[src]);
    LeftCountBounds(v, p);
    SplitFoundSmall(v, slots[src]);
    SplitOutcomeIs(kt, keys, e, slots[src], rightmost);
    LeftFits(v, p);
  }

  lemma AtLeastTwo(slots: seq<Bytes>)
    requires AllSmall(slots) && Cost(slots) > NODE_CAPACITY - ONE_FIFTH
    ensures |slots| >= 2
  {
    hide Cost, ItemCost;
    CostBound(slots, ONE_FIFTH);
  }

  lemma FullMeans(kt: BType, slots: seq<Bytes>, e: Bytes, src: nat, rightmost: bool)
    requires |slots| >= 1
    ensures AddOutcome(NODE_CAPACITY - Cost(slots), |e|) == Full ==>
              && Cost(slots) + ItemCost(e) > NODE_CAPACITY
              && (src < |slots| ==>
                    InsertOutcome(kt, slots, e, src, rightmost)
                    == SplitOutcome(kt, Keys(slots), e, slots[src], rightmost))
  {
    hide Cost, SplitOutcome, Keys;
  }

  lemma KeysCost(slots: seq<Bytes>)
    requires |slots| >= 1
    ensures |Keys(slots)| == |slots| - 1 && Cost(Keys(slots)) + ItemCost(slots[0]) == Cost(slots)
  {
    hide Cost;
    CostSplit(slots, 1);
    CostOfFirst(slots);
  }

  lemma SplitFoundSmall(v: seq<Bytes>, high: Bytes)
    requires |v| > 0 && SplitPoint(v, |v|) >= 1 && ItemCost(high) + Cost(v[SplitPoint(v, |v|)..]) <= NODE_CAPACITY
    ensures SplitFound(v, high)
  {
    hide Cost, SplitPoint;
  }

  lemma FirstSmall(slots: seq<Bytes>, src: nat)
    requires AllSmall(slots) && |slots| >= 1 && src <= 1
    ensures ItemCost(slots[0]) <= ONE_FIFTH && (src < |slots| ==> ItemCost(slots[src]) <= ONE_FIFTH)
    ensures forall i :: 0 <= i < |slots| ==> ItemCost(slots[i]) <= ONE_FIFTH
  {
  }

  lemma LeftCountBounds(v: seq<Bytes>, p: nat)
    requires |v| > 0
    ensures SplitPoint(v, |v|) - 1 <= LeftCount(v, p) <= SplitPoint(v, |v|)
  {
  }

  lemma LeftFits(v: seq<Bytes>, p: nat)
    requires |v| > 0 && SplitPoint(v, |v|) >= 1
    ensures Cost(v[..LeftCount(v, p)]) + ItemCost(v[LeftCount(v, p)]) <= NODE_CAPACITY
  {
    hide Cost, SplitPoint;
    CostMonotone(v, LeftCount(v, p) + 1, SplitPoint(v, |v|) + 1);
    CostSplit(v, LeftCount(v, p));
  }

  lemma SplitOutcomeIs(kt: BType, keys: seq<Bytes>, e: Bytes, high: Bytes, rightmost: bool)
    requires SplitFound(Inserted(kt, keys, e), high)
    requires var c := LeftCount(Inserted(kt, keys, e), Pos(kt, KeyOf(kt, e), keys));
             ItemCost(high) + Cost(Inserted(kt, keys, e)[c..]) <= NODE_CAPACITY
    ensures SplitOutcome(kt, keys, e, high, rightmost) ==
            if !Clobbers(kt, keys, e, high, rightmost) then Done
            else if ClobberFits(keys, high, LeftOf(kt, keys, e)) then Clobbered else Failed
  {
    hide Cost, SplitPoint, Pos, KeyOf, Clobbers, InsertAt, SplitFound, LeftCount;
    var p := Pos(kt, KeyOf(kt, e), keys);
    var c := LeftCount(InsertAt(keys, p, e), p);
    if p >= c {
      RightCost(keys, p, e, c);
    } else {
      NoClobberLeft(kt, keys, e, high, rightmost);
    }
  }

  lemma NoClobberLeft(kt: BType, keys: seq<Bytes>, e: Bytes, high: Bytes, rightmost: bool)
    requires Pos(kt, KeyOf(kt, e), keys) < |keys|
    ensures !Clobbers(kt, keys, e, high, rightmost)
  {
    hide Pos, KeyOf, KeyGt;
  }

  lemma RightCost(keys: seq<Bytes>, p: nat, e: Bytes, c: nat)
    requires c <= p <= |keys|
    ensures Cost(InsertAt(keys, p, e)[c..]) == Cost(keys[c..]) + ItemCost(e)
  {
    hide Cost;
    assert InsertAt(keys, p, e)[c..] == InsertAt(keys[c..], p - c, e);
    CostInsert(keys[c..], p - c, e);
  }

  lemma SmallInsert(slots: seq<Bytes>, p: nat, e: Bytes)
    requires |slots| >= 1 && p <= |Keys(slots)| && AllSmall(slots) && ItemCost(e) <= ONE_FIFTH
    ensures AllSmall(InsertAt(Keys(slots), p, e))
  {
    hide ItemCost;
  }

  lemma CostOfFirst(slots: seq<Bytes>)
    requires |slots| >= 1
    ensures Cost(slots[..1]) == ItemCost(slots[0])
  {
    assert slots[..1][..0] == [];
  }

  lemma OneFifthPoint(v: seq<Bytes>, slots: seq<Bytes>, e: Bytes, high: Bytes)
    requires |slots| >= 1 && |v| == |slots|
    requires AllSmall(v) && ItemCost(high) <= ONE_FIFTH && ItemCost(e) <= ONE_FIFTH && ItemCost(slots[0]) <= ONE_FIFTH
    requires Cost(v) + ItemCost(slots[0]) == Cost(slots) + ItemCost(e)
    requires Cost(slots) <= NODE_CAPACITY < Cost(slots) + ItemCost(e)
    ensures SplitPoint(v, |v|) >= 2
    ensures forall c :: SplitPoint(v, |v|) - 1 <= c < |v| ==> ItemCost(high) + Cost(v[c..]) <= NODE_CAPACITY
  {
    hide Cost, SplitPoint, ItemCost, AllSmall;
    ThreeLeft(v);
    var s := SplitPoint(v, |v|);
    MovedCost(v, s);
    forall c | s - 1 <= c < |v|
      ensures ItemCost(high) + Cost(v[c..]) <= NODE_CAPACITY
    {
      SuffixCost(v, s - 1, c);
    }
  }

  /** Four small items always fit, so the loop stops with at least two on the left. */
  lemma ThreeLeft(v: seq<Bytes>)
    requires AllSmall(v) && Cost(v) > NODE_CAPACITY - ONE_FIFTH
    ensures |v| >= 3 && SplitPoint(v, |v|) >= 2
  {
    hide Cost, SplitPoint, ItemCost;
    CostBound(v, ONE_FIFTH);
    CostBound(v[..3], ONE_FIFTH);
  }

  lemma SuffixCost(v: seq<Bytes>, a: nat, c: nat)
    requires a <= c <= |v|
    ensures Cost(v[c..]) <= Cost(v[a..])
  {
    hide Cost;
    CostMonotone(v, a, c);
    CostSplit(v, a);
    CostSplit(v, c);
  }

  /** What the loop moved, plus one more item, is at most three items over the excess. */
  lemma MovedCost(v: seq<Bytes>, s: nat)
    requires 1 <= s < |v| && AllSmall(v)
    requires s + 1 < |v| ==> Cost(v[..s + 2]) > NODE_CAPACITY
    ensures Cost(v[s - 1..]) <= if s + 1 == |v| then 2 * ONE_FIFTH else Cost(v) - NODE_CAPACITY + 3 * ONE_FIFTH
  {
    hide Cost;
    assert v[..|v|] == v;
    assert ItemCost(v[s - 1]) <= ONE_FIFTH && ItemCost(v[s]) <= ONE_FIFTH;
    CostSplit(v, s - 1);
    CostSplit(v, s);
    if s + 1 < |v| {
      assert ItemCost(v[s + 1]) <= ONE_FIFTH;
      CostSplit(v, s + 1);
    }
  }
}
