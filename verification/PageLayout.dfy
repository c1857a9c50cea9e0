/** The slotted page as a value: what is on disk, what it means, and what each page operation does
    to it. The class in Page.dfy carries the operations out in place. */
module PageLayout {

  newtype byte = b: int | 0 <= b < 256
  type Bytes = seq<byte>

  const PAGE_SIZE: nat := 8192
  const HEADER_SIZE: nat := 8
  const LOC_SIZE: nat := 6
  const MAX_LOCS: nat := 1364
  const BTREE_INFO_SIZE: nat := 24
  const META_INFO_SIZE: nat := 8
  const SIZE_T_RANGE: nat := 0x1_0000_0000_0000_0000

  datatype ItemLoc = ItemLoc(offset: nat, length: nat, dead: bool)

  /** What the reserved area at the end of the page holds. */
  datatype PageInfo = NoInfo | MetaInfo(root: nat) | NodeInfo(level: nat, flags: nat, right: nat)

  datatype PageImage = PageImage(data: Bytes, locs: seq<ItemLoc>, lower: nat, upper: nat, special: nat, info: PageInfo)

  /** Overrun: the guard of PageAddItem passes only because its unsigned subtraction wrapped, so the
      program writes over live bytes. The model stops there. */
  datatype AddResult = Added | Full | Overrun

  function SumLens(locs: seq<ItemLoc>): nat {
    if locs == [] then 0 else SumLens(locs[..|locs| - 1]) + locs[|locs| - 1].length
  }

  ghost predicate InArea(locs: seq<ItemLoc>, lo: nat, hi: nat) {
    forall i :: 0 <= i < |locs| ==> lo <= locs[i].offset && locs[i].offset + locs[i].length <= hi
  }

  ghost predicate Apart(a: ItemLoc, b: ItemLoc) {
    a.offset + a.length <= b.offset || b.offset + b.length <= a.offset
  }

  ghost predicate AllApart(locs: seq<ItemLoc>) {
    forall i, j :: 0 <= i < j < |locs| ==> Apart(locs[i], locs[j])
  }

  /** The page invariant: item extents lie between the free area and the reserved area, do not
      overlap, and add up to all the bytes there. */
  ghost predicate ValidImage(p: PageImage) {
    && |p.data| == PAGE_SIZE
    && p.lower == HEADER_SIZE + LOC_SIZE * |p.locs|
    && p.lower <= p.upper < p.special <= PAGE_SIZE
    && InArea(p.locs, p.upper + 1, p.special)
    && AllApart(p.locs)
    && SumLens(p.locs) == p.special - (p.upper + 1)
  }

  lemma Bounds(p: PageImage)
    requires ValidImage(p)
    ensures |p.data| == PAGE_SIZE && p.lower == HEADER_SIZE + LOC_SIZE * |p.locs|
    ensures p.lower <= p.upper < p.special <= PAGE_SIZE && |p.locs| < MAX_LOCS
  {
  }

  lemma LocBounds(p: PageImage, k: nat)
    requires ValidImage(p) && k < |p.locs|
    ensures p.upper < p.locs[k].offset && p.locs[k].offset + p.locs[k].length <= p.special
  {
  }

  function LocBytes(data: Bytes, loc: ItemLoc): Bytes {
    if loc.offset + loc.length <= |data| then data[loc.offset..loc.offset + loc.length] else []
  }

  /** The abstract view: the item byte strings in slot order, and which of them are marked dead. */
  function SlotsOf(data: Bytes, locs: seq<ItemLoc>): (s: seq<Bytes>)
    ensures |s| == |locs|
    ensures forall i :: 0 <= i < |s| ==> s[i] == LocBytes(data, locs[i])
  {
    seq(|locs|, i requires 0 <= i < |locs| => LocBytes(data, locs[i]))
  }

  function Slots(p: PageImage): (s: seq<Bytes>)
    ensures |s| == |p.locs|
  {
    SlotsOf(p.data, p.locs)
  }

  function DeadOf(locs: seq<ItemLoc>): (s: seq<bool>)
    ensures |s| == |locs|
    ensures forall i :: 0 <= i < |s| ==> s[i] == locs[i].dead
  {
    seq(|locs|, i requires 0 <= i < |locs| => locs[i].dead)
  }

  function Dead(p: PageImage): (s: seq<bool>)
    ensures |s| == |p.locs|
  {
    DeadOf(p.locs)
  }

  /** Bytes a list of items takes on a page, slot entries included. */
  function Cost(items: seq<Bytes>): nat {
    if items == [] then 0 else Cost(items[..|items| - 1]) + |items[|items| - 1]| + LOC_SIZE
  }

  function Capacity(special: nat): int {
    special - 1 - HEADER_SIZE
  }

  function Slack(p: PageImage): int {
    p.upper - p.lower
  }

  // ----- sequence helpers

  function InsertAt<T>(s: seq<T>, i: nat, x: T): (r: seq<T>)
    requires i <= |s|
    ensures |r| == |s| + 1
  {
    s[..i] + [x] + s[i..]
  }

  lemma InsertedAt<T>(s: seq<T>, r: seq<T>, i: nat, x: T)
    requires i <= |s| && |r| == |s| + 1 && r[i] == x
    requires (forall j :: 0 <= j < i ==> r[j] == s[j]) && (forall j :: i < j < |r| ==> r[j] == s[j - 1])
    ensures r == InsertAt(s, i, x)
  {
  }

  function RemoveAt<T>(s: seq<T>, i: nat): (r: seq<T>)
    requires i < |s|
    ensures |r| == |s| - 1
  {
    s[..i] + s[i + 1..]
  }

  lemma LastOut<T>(s: seq<T>)
    requires s != []
    ensures multiset(s) == multiset(s[..|s| - 1]) + multiset{s[|s| - 1]}
  {
    assert s == s[..|s| - 1] + [s[|s| - 1]];
  }

  lemma RemoveMultiset<T>(s: seq<T>, j: nat)
    requires j < |s|
    ensures multiset(RemoveAt(s, j)) == multiset(s) - multiset{s[j]}
  {
    assert s == s[..j] + [s[j]] + s[j + 1..];
  }

  lemma {:induction false} SumLensConcat(a: seq<ItemLoc>, b: seq<ItemLoc>)
    ensures SumLens(a + b) == SumLens(a) + SumLens(b)
  {
    if b == [] {
      assert a + b == a;
    } else {
      assert (a + b)[..|a + b| - 1] == a + b[..|b| - 1];
      SumLensConcat(a, b[..|b| - 1]);
    }
  }

  lemma SumLensInsert(locs: seq<ItemLoc>, i: nat, loc: ItemLoc)
    requires i <= |locs|
    ensures SumLens(InsertAt(locs, i, loc)) == SumLens(locs) + loc.length
  {
    assert locs == locs[..i] + locs[i..];
    SumLensConcat(locs[..i], locs[i..]);
    SumLensConcat(locs[..i] + [loc], locs[i..]);
    SumLensConcat(locs[..i], [loc]);
    assert [loc][..0] == [];
  }

  lemma SumLensRemove(locs: seq<ItemLoc>, i: nat)
    requires i < |locs|
    ensures SumLens(RemoveAt(locs, i)) == SumLens(locs) - locs[i].length
  {
    SumLensConcat(locs[..i], locs[i + 1..]);
    SumLensConcat(locs[..i + 1], locs[i + 1..]);
    assert locs == locs[..i + 1] + locs[i + 1..];
    assert locs[..i + 1][..i] == locs[..i];
  }

  lemma {:induction false} SumLensSame(a: seq<ItemLoc>, b: seq<ItemLoc>)
    requires |a| == |b|
    requires forall i :: 0 <= i < |a| ==> a[i].length == b[i].length
    ensures SumLens(a) == SumLens(b)
  {
    if a != [] {
      SumLensSame(a[..|a| - 1], b[..|b| - 1]);
    }
  }

  lemma {:induction false} CostConcat(a: seq<Bytes>, b: seq<Bytes>)
    ensures Cost(a + b) == Cost(a) + Cost(b)
  {
    if b == [] {
      assert a + b == a;
    } else {
      assert (a + b)[..|a + b| - 1] == a + b[..|b| - 1];
      CostConcat(a, b[..|b| - 1]);
    }
  }

  lemma CostEmpty()
    ensures Cost([]) == 0
  {
  }

  lemma CostOne(x: Bytes)
    ensures Cost([x]) == |x| + LOC_SIZE
  {
    assert [x][..0] == [];
  }

  lemma CostInsert(s: seq<Bytes>, i: nat, x: Bytes)
    requires i <= |s|
    ensures Cost(InsertAt(s, i, x)) == Cost(s) + |x| + LOC_SIZE
  {
    assert s == s[..i] + s[i..];
    CostConcat(s[..i], s[i..]);
    CostConcat(s[..i] + [x], s[i..]);
    CostConcat(s[..i], [x]);
    CostOne(x);
  }

  lemma {:induction false} CostOfLocs(data: Bytes, locs: seq<ItemLoc>, items: seq<Bytes>)
    requires |items| == |locs|
    requires forall i :: 0 <= i < |locs| ==> |items[i]| == locs[i].length
    ensures Cost(items) == SumLens(locs) + LOC_SIZE * |locs|
  {
    if locs != [] {
      CostOfLocs(data, locs[..|locs| - 1], items[..|items| - 1]);
    }
  }

  /** Free space is a function of the abstract items alone. */
  lemma SlackFromItems(p: PageImage)
    requires ValidImage(p)
    ensures Slack(p) == Capacity(p.special) - Cost(Slots(p))
  {
    CostOfLocs(p.data, p.locs, Slots(p));
  }

  // ----- exact tiling

  ghost function Span(lo: int, n: nat): (r: set<int>)
    ensures |r| == n
    ensures forall b :: b in r <==> lo <= b < lo + n
  {
    if n == 0 then {} else Span(lo, n - 1) + {lo + n - 1}
  }

  ghost predicate Owns(loc: ItemLoc, b: int) {
    loc.offset <= b < loc.offset + loc.length
  }

  ghost function Extents(locs: seq<ItemLoc>): set<int> {
    if locs == [] then {} else
      var last := locs[|locs| - 1];
      Extents(locs[..|locs| - 1]) + Span(last.offset, last.length)
  }

  lemma {:induction false} ExtentsMember(locs: seq<ItemLoc>, b: int)
    ensures b in Extents(locs) <==> exists i :: 0 <= i < |locs| && Owns(locs[i], b)
  {
    if locs != [] {
      var init := locs[..|locs| - 1];
      ExtentsMember(init, b);
      if b in Extents(init) {
        var i :| 0 <= i < |init| && Owns(init[i], b);
        assert Owns(locs[i], b);
      }
      if i :| 0 <= i < |locs| - 1 && Owns(locs[i], b) {
        assert Owns(init[i], b);
      }
    }
  }

  lemma {:induction false} ExtentsSize(locs: seq<ItemLoc>)
    requires AllApart(locs)
    ensures |Extents(locs)| == SumLens(locs)
  {
    if locs != [] {
      var init, last := locs[..|locs| - 1], locs[|locs| - 1];
      ExtentsSize(init);
      forall b | b in Extents(init)
        ensures b !in Span(last.offset, last.length)
      {
        ExtentsMember(init, b);
        var i :| 0 <= i < |init| && Owns(init[i], b);
        assert Apart(locs[i], locs[|locs| - 1]);
      }
      assert |Extents(locs)| == |Extents(init)| + |Span(last.offset, last.length)|;
    }
  }

  lemma SubsetSameSize(a: set<int>, b: set<int>)
    requires a <= b && |a| == |b|
    ensures a == b
  {
    assert b == a + (b - a);
    assert |b| == |a| + |b - a|;
  }

  /** Every byte between the free area and the reserved area belongs to exactly one item. */
  lemma ItemsTilePage(p: PageImage, b: int)
    requires ValidImage(p)
    requires p.upper < b < p.special
    ensures exists i :: 0 <= i < |p.locs| && Owns(p.locs[i], b)
    ensures forall i, j :: 0 <= i < j < |p.locs| ==> !(Owns(p.locs[i], b) && Owns(p.locs[j], b))
  {
    var area := Span(p.upper + 1, p.special - (p.upper + 1));
    ExtentsSize(p.locs);
    forall x | x in Extents(p.locs)
      ensures x in area
    {
      ExtentsMember(p.locs, x);
    }
    SubsetSameSize(Extents(p.locs), area);
    ExtentsMember(p.locs, b);
    forall i, j | 0 <= i < j < |p.locs|
      ensures !(Owns(p.locs[i], b) && Owns(p.locs[j], b))
    {
      assert Apart(p.locs[i], p.locs[j]);
    }
  }

  // ----- the free-space test

  /** The macro PageGetFreeSpace, in size_t arithmetic. */
  function FreeSpace(upper: nat, lower: nat): nat {
    (upper - lower - LOC_SIZE) % SIZE_T_RANGE
  }

  /** What adding an item of a given length to a page with this slack comes to. */
  function AddOutcome(slack: int, length: nat): AddResult {
    if slack < LOC_SIZE then Overrun
    else if slack < length + LOC_SIZE then Full
    else Added
  }

  lemma OutcomeCases(slack: int, length: nat)
    ensures AddOutcome(slack, length) == AddResult.Overrun <==> slack < LOC_SIZE
    ensures AddOutcome(slack, length) == Added <==> slack >= length + LOC_SIZE
  {
  }

  /** The wrapped test refuses exactly the items that do not fit, except on a page with fewer than
      six free bytes, where it refuses nothing. */
  lemma FreeSpaceTest(upper: nat, lower: nat, length: nat)
    requires lower <= upper < PAGE_SIZE && length < PAGE_SIZE
    ensures (FreeSpace(upper, lower) < length) <==> AddOutcome(upper - lower, length) == Full
    ensures (FreeSpace(upper, lower) >= length <==> upper - lower >= length + LOC_SIZE) <==> upper - lower >= LOC_SIZE
  {
    if upper - lower < LOC_SIZE {
      assert FreeSpace(upper, lower) == SIZE_T_RANGE + (upper - lower - LOC_SIZE);
    }
  }

  // ----- the operations on values

  function EmptyImage(reserve: nat, info: PageInfo): PageImage
    requires reserve < PAGE_SIZE - HEADER_SIZE
  {
    PageImage(seq(PAGE_SIZE, _ => 0), [], HEADER_SIZE, PAGE_SIZE - reserve - 1, PAGE_SIZE - reserve, info)
  }

  function Spliced(data: Bytes, at: nat, item: Bytes): (r: Bytes)
    requires at + |item| <= |data|
    ensures |r| == |data|
  {
    data[..at] + item + data[at + |item|..]
  }

  function WithItemAt(p: PageImage, idx: nat, item: Bytes): PageImage
    requires ValidImage(p) && idx <= |p.locs| && Slack(p) >= |item| + LOC_SIZE
  {
    var offset := p.upper - |item| + 1;
    p.(data := Spliced(p.data, offset, item),
       locs := InsertAt(p.locs, idx, ItemLoc(offset, |item|, false)),
       lower := p.lower + LOC_SIZE,
       upper := offset - 1)
  }

  function Closed(data: Bytes, upper: nat, gone: ItemLoc): (r: Bytes)
    requires upper < gone.offset && gone.offset + gone.length <= |data|
    ensures |r| == |data|
  {
    data[..upper + gone.length] + data[upper..gone.offset] + data[gone.offset + gone.length..]
  }

  function Moved(loc: ItemLoc, gone: ItemLoc): ItemLoc {
    if loc.offset <= gone.offset then loc.(offset := loc.offset + gone.length) else loc
  }

  function MovedAll(locs: seq<ItemLoc>, gone: ItemLoc): (r: seq<ItemLoc>)
    ensures |r| == |locs|
    ensures forall i :: 0 <= i < |locs| ==> r[i] == Moved(locs[i], gone)
  {
    seq(|locs|, i requires 0 <= i < |locs| => Moved(locs[i], gone))
  }

  function WithoutItem(p: PageImage, k: nat): PageImage
    requires ValidImage(p) && k < |p.locs|
  {
    var gone := p.locs[k];
    p.(data := Closed(p.data, p.upper, gone),
       locs := MovedAll(RemoveAt(p.locs, k), gone),
       lower := p.lower - LOC_SIZE,
       upper := p.upper + gone.length)
  }

  function WithDead(p: PageImage, k: nat): PageImage
    requires k < |p.locs|
  {
    p.(locs := p.locs[k := p.locs[k].(dead := true)])
  }

  // ----- what the operations mean

  lemma EmptyMeaning(reserve: nat, info: PageInfo)
    requires reserve < PAGE_SIZE - HEADER_SIZE
    ensures ValidImage(EmptyImage(reserve, info))
    ensures Slots(EmptyImage(reserve, info)) == [] && Dead(EmptyImage(reserve, info)) == []
  {
  }

  lemma AddMeaning(p: PageImage, idx: nat, item: Bytes)
    requires ValidImage(p) && idx <= |p.locs| && Slack(p) >= |item| + LOC_SIZE
    ensures ValidImage(WithItemAt(p, idx, item))
    ensures Slots(WithItemAt(p, idx, item)) == InsertAt(Slots(p), idx, item)
    ensures Dead(WithItemAt(p, idx, item)) == InsertAt(Dead(p), idx, false)
  {
    AddKeepsValid(p, idx, item);
    AddKeepsSlots(p, idx, item);
  }

  lemma SlotsOfInsert(before: Bytes, after: Bytes, locs: seq<ItemLoc>, idx: nat, loc: ItemLoc)
    requires idx <= |locs|
    requires forall i :: 0 <= i < |locs| ==> LocBytes(after, locs[i]) == LocBytes(before, locs[i])
    ensures SlotsOf(after, InsertAt(locs, idx, loc)) == InsertAt(SlotsOf(before, locs), idx, LocBytes(after, loc))
  {
    hide LocBytes, SlotsOf;
  }

  lemma AddKeepsSlots(p: PageImage, idx: nat, item: Bytes)
    requires ValidImage(p) && idx <= |p.locs| && Slack(p) >= |item| + LOC_SIZE
    ensures Slots(WithItemAt(p, idx, item)) == InsertAt(Slots(p), idx, item)
    ensures Dead(WithItemAt(p, idx, item)) == InsertAt(Dead(p), idx, false)
  {
    hide SlotsOf, DeadOf, ValidImage, LocBytes, Spliced;
    Bounds(p);
    var q, offset := WithItemAt(p, idx, item), p.upper - |item| + 1;
    SplicedIn(p.data, offset, item);
    forall i | 0 <= i < |p.locs|
      ensures LocBytes(q.data, p.locs[i]) == LocBytes(p.data, p.locs[i])
    {
      LocBounds(p, i);
      SplicedAway(p.data, offset, item, p.locs[i]);
    }
    SlotsOfInsert(p.data, q.data, p.locs, idx, ItemLoc(offset, |item|, false));
  }

  lemma SplicedIn(data: Bytes, at: nat, item: Bytes)
    requires at + |item| <= |data|
    ensures LocBytes(Spliced(data, at, item), ItemLoc(at, |item|, false)) == item
  {
  }

  lemma SplicedAway(data: Bytes, at: nat, item: Bytes, loc: ItemLoc)
    requires at + |item| <= |data| && at + |item| <= loc.offset
    ensures LocBytes(Spliced(data, at, item), loc) == LocBytes(data, loc)
  {
  }

  lemma AddKeepsValid(p: PageImage, idx: nat, item: Bytes)
    requires ValidImage(p) && idx <= |p.locs| && Slack(p) >= |item| + LOC_SIZE
    ensures ValidImage(WithItemAt(p, idx, item))
  {
    var q := WithItemAt(p, idx, item);
    SumLensInsert(p.locs, idx, q.locs[idx]);
    forall i | 0 <= i < |q.locs| && i != idx
      ensures q.locs[i] in p.locs && q.locs[i] == p.locs[if i < idx then i else i - 1]
      ensures Apart(q.locs[i], q.locs[idx])
    {
    }
    forall i, j | 0 <= i < j < |q.locs|
      ensures Apart(q.locs[i], q.locs[j])
    {
      if i != idx && j != idx {
        assert Apart(p.locs[if i < idx then i else i - 1], p.locs[if j < idx then j else j - 1]);
      }
    }
  }

  lemma MovedBytes(p: PageImage, k: nat, i: nat)
    requires ValidImage(p) && k < |p.locs| && i < |p.locs| && i != k
    ensures LocBytes(WithoutItem(p, k).data, Moved(p.locs[i], p.locs[k])) == LocBytes(p.data, p.locs[i])
    ensures p.upper + p.locs[k].length < Moved(p.locs[i], p.locs[k]).offset
    ensures Moved(p.locs[i], p.locs[k]).offset + p.locs[i].length <= p.special
  {
    var loc, gone := p.locs[i], p.locs[k];
    assert Apart(loc, gone) by {
      if i < k { assert Apart(p.locs[i], p.locs[k]); } else { assert Apart(p.locs[k], p.locs[i]); }
    }
    LocInside(p, i);
    LocInside(p, k);
    ClosedBytes(p.data, p.upper, gone, loc);
  }

  lemma LocInside(p: PageImage, i: nat)
    requires ValidImage(p) && i < |p.locs|
    ensures p.upper < p.locs[i].offset && p.locs[i].offset + p.locs[i].length <= p.special <= |p.data|
  {
  }

  /** Closing the gap of one item moves the bytes of the others along with their offsets. */
  lemma ClosedBytes(data: Bytes, upper: nat, gone: ItemLoc, loc: ItemLoc)
    requires upper < gone.offset && gone.offset + gone.length <= |data|
    requires upper < loc.offset && loc.offset + loc.length <= |data| && Apart(loc, gone)
    ensures LocBytes(Closed(data, upper, gone), Moved(loc, gone)) == LocBytes(data, loc)
  {
    hide Closed;
    var after, m := Closed(data, upper, gone), Moved(loc, gone);
    var now, was := after[m.offset..m.offset + loc.length], data[loc.offset..loc.offset + loc.length];
    forall j: nat | j < loc.length
      ensures now[j] == was[j]
    {
      ClosedAt(data, upper, gone, m.offset + j);
    }
    assert now == was;
  }

  lemma ClosedAt(data: Bytes, upper: nat, gone: ItemLoc, j: nat)
    requires upper < gone.offset && gone.offset + gone.length <= |data| && upper < j < |data|
    ensures Closed(data, upper, gone)[j] ==
            if upper + gone.length <= j < gone.offset + gone.length then data[j - gone.length] else data[j]
  {
  }

  lemma MovedApart(a: ItemLoc, b: ItemLoc, gone: ItemLoc)
    requires Apart(a, b) && Apart(a, gone) && Apart(b, gone)
    ensures Apart(Moved(a, gone), Moved(b, gone))
  {
  }

  lemma RemoveKeepsApartPair(p: PageImage, k: nat, i: nat, j: nat)
    requires ValidImage(p) && k < |p.locs| && i < j < |p.locs| - 1
    ensures Apart(WithoutItem(p, k).locs[i], WithoutItem(p, k).locs[j])
  {
    var i', j' := if i < k then i else i + 1, if j < k then j else j + 1;
    ApartFrom(p, i', j');
    ApartFrom(p, i', k);
    ApartFrom(p, j', k);
    MovedApart(p.locs[i'], p.locs[j'], p.locs[k]);
    hide ValidImage, Apart;
  }

  lemma RemoveKeepsApart(p: PageImage, k: nat)
    requires ValidImage(p) && k < |p.locs|
    ensures AllApart(WithoutItem(p, k).locs)
  {
    forall i, j | 0 <= i < j < |p.locs| - 1
      ensures Apart(WithoutItem(p, k).locs[i], WithoutItem(p, k).locs[j])
    {
      RemoveKeepsApartPair(p, k, i, j);
    }
    hide Apart, MovedAll;
  }

  lemma RemoveKeepsValid(p: PageImage, k: nat)
    requires ValidImage(p) && k < |p.locs|
    ensures ValidImage(WithoutItem(p, k))
  {
    hide AllApart, SumLens;
    var q, gone, kept := WithoutItem(p, k), p.locs[k], RemoveAt(p.locs, k);
    forall i | 0 <= i < |kept|
      ensures q.upper < q.locs[i].offset && q.locs[i].offset + q.locs[i].length <= q.special
    {
      MovedBytes(p, k, if i < k then i else i + 1);
    }
    RemoveKeepsApart(p, k);
    SumLensRemove(p.locs, k);
    SumLensSame(kept, q.locs);
  }

  lemma RemoveKeepsSlot(p: PageImage, k: nat, i: nat)
    requires ValidImage(p) && k < |p.locs| && i < |p.locs| - 1
    ensures Slots(WithoutItem(p, k))[i] == RemoveAt(Slots(p), k)[i]
    ensures Dead(WithoutItem(p, k))[i] == RemoveAt(Dead(p), k)[i]
  {
    MovedBytes(p, k, if i < k then i else i + 1);
    hide ValidImage, LocBytes, Closed;
  }

  /** Compaction: removing slot k leaves every other item with its bytes, its mark and its order,
      whatever the physical order of the items. */
  lemma RemoveMeaning(p: PageImage, k: nat)
    requires ValidImage(p) && k < |p.locs|
    ensures ValidImage(WithoutItem(p, k))
    ensures Slots(WithoutItem(p, k)) == RemoveAt(Slots(p), k)
    ensures Dead(WithoutItem(p, k)) == RemoveAt(Dead(p), k)
  {
    RemoveKeepsValid(p, k);
    forall i | 0 <= i < |p.locs| - 1
      ensures Slots(WithoutItem(p, k))[i] == RemoveAt(Slots(p), k)[i]
      ensures Dead(WithoutItem(p, k))[i] == RemoveAt(Dead(p), k)[i]
    {
      RemoveKeepsSlot(p, k, i);
    }
    hide ValidImage, Slots, Dead, RemoveAt;
  }

  lemma ApartFrom(p: PageImage, i: nat, k: nat)
    requires ValidImage(p) && k < |p.locs| && i < |p.locs| && i != k
    ensures Apart(p.locs[i], p.locs[k])
  {
    if i < k {
      assert Apart(p.locs[i], p.locs[k]);
    } else {
      assert Apart(p.locs[k], p.locs[i]);
    }
  }

  lemma DeadMeaning(p: PageImage, k: nat)
    requires ValidImage(p) && k < |p.locs|
    ensures ValidImage(WithDead(p, k))
    ensures Slots(WithDead(p, k)) == Slots(p)
    ensures Dead(WithDead(p, k)) == Dead(p)[k := true]
  {
    hide Slots, Dead, SumLens;
    SumLensSame(p.locs, WithDead(p, k).locs);
    DeadKeepsSlots(p, k);
    assert forall i :: 0 <= i < |p.locs| ==>
           WithDead(p, k).locs[i].offset == p.locs[i].offset && WithDead(p, k).locs[i].length == p.locs[i].length;
  }

  lemma DeadKeepsSlots(p: PageImage, k: nat)
    requires k < |p.locs|
    ensures Slots(WithDead(p, k)) == Slots(p)
    ensures Dead(WithDead(p, k)) == Dead(p)[k := true]
  {
    hide SlotsOf, DeadOf;
  }

  /** High-key replacement: remove slot 0 and add another item at slot 0. Only slot 0 changes. */
  lemma ReplaceFirst(p: PageImage, item: Bytes)
    requires ValidImage(p) && |p.locs| > 0
    requires Slack(p) + p.locs[0].length >= |item|
    ensures ValidImage(WithoutItem(p, 0)) && Slack(WithoutItem(p, 0)) >= |item| + LOC_SIZE
    ensures Slots(WithItemAt(WithoutItem(p, 0), 0, item)) == Slots(p)[0 := item]
    ensures Dead(WithItemAt(WithoutItem(p, 0), 0, item)) == Dead(p)[0 := false]
  {
    RemoveMeaning(p, 0);
    AddMeaning(WithoutItem(p, 0), 0, item);
    ReplacedFirst(Slots(p), item);
    ReplacedFirst(Dead(p), false);
    hide Slots, Dead, WithItemAt, InsertAt, RemoveAt, AllApart, InArea;
  }

  lemma ReplacedFirst<T>(s: seq<T>, x: T)
    requires |s| > 0
    ensures InsertAt(RemoveAt(s, 0), 0, x) == s[0 := x]
  {
  }
}
