/** A heap table as a list of pages: the live tuples in scan order, lookup by tuple id, and what
    placing and deleting a tuple do to both. */
module Heap {
  import opened PageLayout
  import opened Types
  import opened Codec

  type Pages = seq<PageImage>

  // ----- live tuples in (page, slot) order

  function LiveIn(slots: seq<Bytes>, dead: seq<bool>): seq<Bytes>
    requires |slots| == |dead|
  {
    if slots == [] then [] else
      var n := |slots| - 1;
      LiveIn(slots[..n], dead[..n]) + if dead[n] then [] else [slots[n]]
  }

  function LiveOn(p: PageImage): seq<Bytes> {
    LiveIn(Slots(p), Dead(p))
  }

  function LiveOf(pages: Pages): seq<Bytes> {
    if pages == [] then [] else LiveOf(pages[..|pages| - 1]) + LiveOn(pages[|pages| - 1])
  }

  lemma {:induction false} LiveInConcat(s: seq<Bytes>, d: seq<bool>, t: seq<Bytes>, e: seq<bool>)
    requires |s| == |d| && |t| == |e|
    ensures LiveIn(s + t, d + e) == LiveIn(s, d) + LiveIn(t, e)
  {
    if t == [] {
      assert s + t == s && d + e == d;
    } else {
      var n := |t| - 1;
      LiveInConcat(s, d, t[..n], e[..n]);
      assert (s + t)[..|s + t| - 1] == s + t[..n] && (d + e)[..|s + t| - 1] == d + e[..n];
    }
  }

  lemma {:induction false} LiveConcat(a: Pages, b: Pages)
    ensures LiveOf(a + b) == LiveOf(a) + LiveOf(b)
  {
    hide LiveOn;
    if b == [] {
      assert a + b == a;
    } else {
      assert (a + b)[..|a + b| - 1] == a + b[..|b| - 1];
      LiveConcat(a, b[..|b| - 1]);
    }
  }

  lemma LiveStep(pages: Pages, p: nat)
    requires p < |pages|
    ensures LiveOf(pages[..p + 1]) == LiveOf(pages[..p]) + LiveOn(pages[p])
  {
    hide LiveOn;
    assert pages[..p + 1][..p] == pages[..p];
  }

  lemma LiveAt(pages: Pages, p: nat)
    requires p < |pages|
    ensures LiveOf(pages) == LiveOf(pages[..p]) + LiveOn(pages[p]) + LiveOf(pages[p + 1..])
  {
    hide LiveOn, LiveOf;
    LiveStep(pages, p);
    assert pages == pages[..p + 1] + pages[p + 1..];
    LiveConcat(pages[..p + 1], pages[p + 1..]);
  }

  function Cut(s: nat, n: nat): (r: nat)
    ensures r <= n
  {
    if s < n then s else n
  }

  /** The live tuples from a cursor position on. */
  function LiveFrom(pages: Pages, p: nat, s: nat): seq<Bytes> {
    if p >= |pages| then [] else
      var slots, dead := Slots(pages[p]), Dead(pages[p]);
      var c := Cut(s, |slots|);
      LiveIn(slots[c..], dead[c..]) + LiveOf(pages[p + 1..])
  }

  /** The live tuples before a cursor position. */
  function LiveBefore(pages: Pages, p: nat, s: nat): seq<Bytes> {
    if p >= |pages| then LiveOf(pages) else
      var slots, dead := Slots(pages[p]), Dead(pages[p]);
      var c := Cut(s, |slots|);
      LiveOf(pages[..p]) + LiveIn(slots[..c], dead[..c])
  }

  lemma LiveSplit(pages: Pages, p: nat, s: nat)
    ensures LiveOf(pages) == LiveBefore(pages, p, s) + LiveFrom(pages, p, s)
  {
    hide LiveIn, LiveOf;
    if p < |pages| {
      var slots, dead := Slots(pages[p]), Dead(pages[p]);
      var c := Cut(s, |slots|);
      LiveAt(pages, p);
      LiveInConcat(slots[..c], dead[..c], slots[c..], dead[c..]);
      assert slots == slots[..c] + slots[c..] && dead == dead[..c] + dead[c..];
    }
  }

  lemma LiveInOne(slots: seq<Bytes>, dead: seq<bool>, i: nat)
    requires |slots| == |dead| && i < |slots|
    ensures LiveIn(slots[..i + 1], dead[..i + 1]) == LiveIn(slots[..i], dead[..i]) + if dead[i] then [] else [slots[i]]
    ensures LiveIn(slots[i..], dead[i..]) ==
            (if dead[i] then [] else [slots[i]]) + LiveIn(slots[i + 1..], dead[i + 1..])
  {
    assert slots[..i + 1][..i] == slots[..i] && dead[..i + 1][..i] == dead[..i];
    var one: seq<Bytes>, mark: seq<bool> := [slots[i]], [dead[i]];
    assert slots[i..] == one + slots[i + 1..] && dead[i..] == mark + dead[i + 1..];
    LiveInConcat(one, mark, slots[i + 1..], dead[i + 1..]);
    assert one[..0] == [] && mark[..0] == [];
  }

  /** One step of a cursor within a page. */
  lemma SlotStep(pages: Pages, p: nat, s: nat)
    requires p < |pages| && s < |Slots(pages[p])|
    ensures var slots, dead := Slots(pages[p]), Dead(pages[p]);
            var one := if dead[s] then [] else [slots[s]];
            && LiveFrom(pages, p, s) == one + LiveFrom(pages, p, s + 1)
            && LiveBefore(pages, p, s + 1) == LiveBefore(pages, p, s) + one
  {
    hide LiveOf, LiveIn, Slots, Dead;
    var slots, dead := Slots(pages[p]), Dead(pages[p]);
    assert Cut(s, |slots|) == s && Cut(s + 1, |slots|) == s + 1;
    LiveInOne(slots, dead, s);
  }

  lemma PageStart(pages: Pages, p: nat)
    requires p <= |pages|
    ensures LiveFrom(pages, p, 0) == LiveOf(pages[p..])
    ensures LiveBefore(pages, p, 0) == LiveOf(pages[..p])
  {
    hide Slots, Dead, LiveOf;
    if p < |pages| {
      var rest, slots, dead := pages[p..], Slots(pages[p]), Dead(pages[p]);
      LiveAt(rest, 0);
      assert rest[..0] == [] && rest[1..] == pages[p + 1..] && rest[0] == pages[p];
      assert slots[0..] == slots && dead[0..] == dead && slots[..0] == [] && dead[..0] == [];
    } else {
      assert pages[..p] == pages && pages[p..] == [];
    }
    NoneLive();
  }

  lemma NoneLive()
    ensures LiveOf([]) == [] && LiveIn([], []) == []
  {
  }

  lemma PageEnd(pages: Pages, p: nat, s: nat)
    requires p < |pages| && s >= |Slots(pages[p])|
    ensures LiveFrom(pages, p, s) == LiveOf(pages[p + 1..])
    ensures LiveBefore(pages, p, s) == LiveOf(pages[..p + 1])
  {
    hide Slots, Dead, LiveOf, LiveIn;
    var slots, dead := Slots(pages[p]), Dead(pages[p]);
    assert slots[|slots|..] == [] && dead[|slots|..] == [] && slots[..|slots|] == slots && dead[..|slots|] == dead;
    LiveStep(pages, p);
    NoneLive();
  }

  /** One step of a cursor to the next page. */
  lemma PageStep(pages: Pages, p: nat, s: nat)
    requires p < |pages| && s >= |Slots(pages[p])|
    ensures LiveFrom(pages, p, s) == LiveFrom(pages, p + 1, 0)
    ensures LiveBefore(pages, p, s) == LiveBefore(pages, p + 1, 0)
  {
    hide Slots, Dead, LiveOf, LiveFrom, LiveBefore;
    PageEnd(pages, p, s);
    PageStart(pages, p + 1);
  }

  // ----- lookup by tuple id

  datatype Found = Missing | Tuple(bytes: Bytes)

  /** The live tuple at (page, slot). */
  function Lookup(pages: Pages, page: nat, slot: nat): Found {
    if page < |pages| && slot < |pages[page].locs|
      && !Dead(pages[page])[slot] then Found.Tuple(Slots(pages[page])[slot]) else Missing
  }

  ghost predicate HeapImage(p: PageImage) {
    ValidImage(p) && p.special == PAGE_SIZE
  }

  /** The item a tuple is written as under its address. */
  function ItemOf(t: Tuple, tid: TupleId): Bytes {
    if |t.nulls| == |t.locs| then TupleBytes(Under(t, tid)) else []
  }

  /** A stored tuple: the bytes of a tuple of these column types under its own address. */
  ghost predicate StoredAt(b: Bytes, types: seq<BType>, page: nat, slot: nat) {
    && page < 0x1_0000 && slot < 0x1_0000
    && var t := TupleOf(b);
       b == TupleBytes(t) && t.tid == TupleId(page, slot) && Fits(t, types)
  }

  /** The heap invariant: valid pages, and every live tuple stores its own address. */
  ghost predicate HeapOk(pages: Pages, types: seq<BType>) {
    && (forall p :: 0 <= p < |pages| ==> HeapImage(pages[p]))
    && forall p, s :: 0 <= p < |pages| && 0 <= s < |Slots(pages[p])| && !Dead(pages[p])[s] ==>
         StoredAt(Slots(pages[p])[s], types, p, s)
  }

  lemma StoredFacts(b: Bytes, types: seq<BType>, page: nat, slot: nat)
    requires StoredAt(b, types, page, slot)
    ensures TupleOf(b).tid == TupleId(page, slot) && IsTid(TupleId(page, slot))
    ensures Fits(TupleOf(b), types) && Shaped(TupleOf(b), types)
    ensures |TupleOf(b).locs| == |RowOf(TupleOf(b), types)| == |types|
    ensures Conforms(RowOf(TupleOf(b), types), types) && |b| < PAGE_SIZE
  {
    hide TupleOf, RowOf, Fits, TupleBytes, Shaped;
    FitsFacts(TupleOf(b), types);
  }

  lemma ItemLength(t: Tuple, tid: TupleId, types: seq<BType>)
    requires Fits(t, types)
    ensures |ItemOf(t, tid)| == t.length < PAGE_SIZE
  {
    hide Fits, TupleBytes;
    UnderFits(t, tid, types);
    FitsFacts(t, types);
    FitsFacts(Under(t, tid), types);
  }

  lemma StoreTuple(t: Tuple, types: seq<BType>, page: nat, slot: nat)
    requires page < 0x1_0000 && slot < 0x1_0000 && Fits(t, types)
    ensures var b := ItemOf(t, TupleId(page, slot));
            && |b| == t.length && StoredAt(b, types, page, slot) && RowOf(TupleOf(b), types) == RowOf(t, types)
  {
    hide TupleOf, RowOf, Fits, TupleBytes;
    var tid := TupleId(page, slot);
    UnderFits(t, tid, types);
    FitsFacts(t, types);
    FitsFacts(Under(t, tid), types);
  }

  // ----- deleting

  function Deleted(pages: Pages, page: nat, slot: nat): Pages
    requires page < |pages| && slot < |pages[page].locs|
  {
    pages[page := WithDead(pages[page], slot)]
  }

  /** Marking one tuple dead: nothing else changes, by address. */
  lemma DeletedLookup(pages: Pages, page: nat, slot: nat, types: seq<BType>)
    requires HeapOk(pages, types) && page < |pages| && slot < |pages[page].locs|
    ensures HeapOk(Deleted(pages, page, slot), types)
    ensures forall p, s :: Lookup(Deleted(pages, page, slot), p, s) == if p == page && s == slot then Missing
            else Lookup(pages, p, s)
  {
    hide ValidImage, Slots, Dead, StoredAt;
    DeadMeaning(pages[page], slot);
  }

  /** Marking dead a tuple just passed by the cursor takes it out of what lies before the cursor and
      leaves what lies ahead. */
  lemma DeletedLive(pages: Pages, page: nat, slot: nat)
    requires page < |pages| && ValidImage(pages[page]) && slot < |pages[page].locs|
    ensures LiveFrom(Deleted(pages, page, slot), page, slot + 1) == LiveFrom(pages, page, slot + 1)
    ensures LiveBefore(Deleted(pages, page, slot), page, slot + 1) == LiveBefore(pages, page, slot)
  {
    hide ValidImage, Slots, Dead, LiveIn, LiveOf;
    DeadMeaning(pages[page], slot);
    var after := Deleted(pages, page, slot);
    var slots, dead := Slots(pages[page]), Dead(pages[page]);
    var dead' := dead[slot := true];
    assert after[..page] == pages[..page] && after[page + 1..] == pages[page + 1..];
    LiveInOne(slots, dead', slot);
    assert dead'[..slot] == dead[..slot] && dead'[slot + 1..] == dead[slot + 1..];
  }

  // ----- placing

  /** The first page from p on where PageAddItem does not answer "full"; the number of pages if none. */
  function FirstStop(pages: Pages, p: nat, size: nat): (q: nat)
    requires p <= |pages|
    ensures p <= q <= |pages|
    ensures q < |pages| ==> AddOutcome(Slack(pages[q]), size) != Full
    ensures forall j :: p <= j < q ==> AddOutcome(Slack(pages[j]), size) == Full
    decreases |pages| - p
  {
    if p == |pages| || AddOutcome(Slack(pages[p]), size) != Full then p else FirstStop(pages, p + 1, size)
  }

  datatype PlaceResult = Placed(tid: TupleId) | PageOverrun | TooBig

  /** What placing a tuple of this size comes to, searching from page p: room on some page; a page with
      fewer than six bytes left reached first; or a new page, which fails if the tuple does not fit on an
      empty one. */
  function PlaceOutcome(pages: Pages, p: nat, size: nat): PlaceResult
    requires p <= |pages|
  {
    var q := FirstStop(pages, p, size);
    if q < |pages| then
      if AddOutcome(Slack(pages[q]), size) == Added then Placed(TupleId(q % 0x1_0000, |pages[q].locs|)) else PageOverrun
    else if AddOutcome(Capacity(PAGE_SIZE), size) == Added then Placed(TupleId(q % 0x1_0000, 0))
    else TooBig
  }

  /** A new page with one item. */
  function FirstItem(b: Bytes): PageImage
    requires |b| + LOC_SIZE <= Capacity(PAGE_SIZE)
  {
    hide ValidImage;
    EmptyMeaning(0, NoInfo);
    WithItemAt(EmptyImage(0, NoInfo), 0, b)
  }

  predicate Holds(p: PageImage, b: Bytes) {
    Slack(p) >= |b| + LOC_SIZE
  }

  /** The pages after writing item b to page q, which is a page with room or the one past the end. */
  ghost function PutOn(pages: Pages, q: nat, b: Bytes): Pages
    requires q <= |pages|
    requires q < |pages| ==> ValidImage(pages[q]) && Holds(pages[q], b)
    requires q == |pages| ==> |b| + LOC_SIZE <= Capacity(PAGE_SIZE)
  {
    if q < |pages| then pages[q := WithItemAt(pages[q], |pages[q].locs|, b)] else pages + [FirstItem(b)]
  }

  function SlotCount(pages: Pages, q: nat): nat {
    if q < |pages| then |pages[q].locs| else 0
  }

  lemma FirstItemMeaning(b: Bytes)
    requires |b| + LOC_SIZE <= Capacity(PAGE_SIZE)
    ensures HeapImage(FirstItem(b)) && Slots(FirstItem(b)) == [b] && Dead(FirstItem(b)) == [false]
  {
    hide ValidImage, Slots, Dead;
    EmptyMeaning(0, NoInfo);
    AddMeaning(EmptyImage(0, NoInfo), 0, b);
    assert InsertAt([], 0, b) == [b] && InsertAt([], 0, false) == [false];
  }

  /** What the page written to holds afterwards. */
  lemma PutPage(pages: Pages, q: nat, b: Bytes)
    requires q <= |pages|
    requires q < |pages| ==> HeapImage(pages[q]) && Holds(pages[q], b)
    requires q == |pages| ==> |b| + LOC_SIZE <= Capacity(PAGE_SIZE)
    ensures |PutOn(pages, q, b)| == |pages| + (if q == |pages| then 1 else 0)
    ensures forall j :: 0 <= j < |pages| && j != q ==> PutOn(pages, q, b)[j] == pages[j]
    ensures var was := if q < |pages| then Slots(pages[q]) else [];
            var dead := if q < |pages| then Dead(pages[q]) else [];
            && HeapImage(PutOn(pages, q, b)[q])
            && Slots(PutOn(pages, q, b)[q]) == was + [b] && Dead(PutOn(pages, q, b)[q]) == dead + [false]
  {
    hide ValidImage, Slots, Dead, FirstItem;
    if q < |pages| {
      var n := |pages[q].locs|;
      AddMeaning(pages[q], n, b);
      assert InsertAt(Slots(pages[q]), n, b) == Slots(pages[q]) + [b];
      assert InsertAt(Dead(pages[q]), n, false) == Dead(pages[q]) + [false];
    } else {
      FirstItemMeaning(b);
    }
  }

  /** Placing a tuple: it becomes live at its own address, and nothing else changes, by address. */
  lemma PutLookup(pages: Pages, q: nat, b: Bytes, types: seq<BType>)
    requires HeapOk(pages, types) && q <= |pages|
    requires q < |pages| ==> Holds(pages[q], b)
    requires q == |pages| ==> |b| + LOC_SIZE <= Capacity(PAGE_SIZE)
    requires StoredAt(b, types, q, SlotCount(pages, q))
    ensures HeapOk(PutOn(pages, q, b), types)
    ensures Lookup(pages, q, SlotCount(pages, q)) == Missing
    ensures forall p, s :: Lookup(PutOn(pages, q, b), p, s) == if p == q
            && s == SlotCount(pages, q) then Found.Tuple(b) else Lookup(pages, p, s)
  {
    hide ValidImage, Slots, Dead, StoredAt, PutOn, Holds;
    PutPage(pages, q, b);
  }

  lemma PutLiveOn(pages: Pages, q: nat, b: Bytes)
    requires q <= |pages|
    requires q < |pages| ==> HeapImage(pages[q]) && Holds(pages[q], b)
    requires q == |pages| ==> |b| + LOC_SIZE <= Capacity(PAGE_SIZE)
    ensures |PutOn(pages, q, b)| > q
    ensures LiveOn(PutOn(pages, q, b)[q]) == (if q < |pages| then LiveOn(pages[q]) else []) + [b]
  {
    hide ValidImage, Slots, Dead, LiveIn, PutOn, Holds;
    PutPage(pages, q, b);
    OneLive(b);
    NoneLive();
    LiveInConcat(if q < |pages| then Slots(pages[q]) else [], if q < |pages| then Dead(pages[q]) else [], [b], [false]);
  }

  /** Placing a tuple adds it to the live tuples, at the end of its page. */
  lemma PutLive(pages: Pages, q: nat, b: Bytes)
    requires q <= |pages|
    requires q < |pages| ==> HeapImage(pages[q]) && Holds(pages[q], b)
    requires q == |pages| ==> |b| + LOC_SIZE <= Capacity(PAGE_SIZE)
    ensures var k := if q < |pages| then q + 1 else q;
            && LiveOf(pages) == LiveOf(pages[..k]) + LiveOf(pages[k..])
            && LiveOf(PutOn(pages, q, b)) == LiveOf(pages[..k]) + [b] + LiveOf(pages[k..])
  {
    hide ValidImage, Slots, Dead, LiveOf, LiveOn, PutOn, Holds;
    PutPage(pages, q, b);
    PutLiveOn(pages, q, b);
    if q < |pages| {
      LiveReplaced(pages, PutOn(pages, q, b), q, b);
    } else {
      assert PutOn(pages, q, b) == pages + [PutOn(pages, q, b)[q]];
      LiveAppended(pages, PutOn(pages, q, b)[q], b);
    }
  }

  lemma LiveReplaced(pages: Pages, after: Pages, q: nat, b: Bytes)
    requires q < |pages| == |after| && forall j :: 0 <= j < |pages| && j != q ==> after[j] == pages[j]
    requires LiveOn(after[q]) == LiveOn(pages[q]) + [b]
    ensures LiveOf(pages) == LiveOf(pages[..q + 1]) + LiveOf(pages[q + 1..])
    ensures LiveOf(after) == LiveOf(pages[..q + 1]) + [b] + LiveOf(pages[q + 1..])
  {
    hide LiveOf, LiveOn;
    assert after[..q] == pages[..q] && after[q + 1..] == pages[q + 1..];
    LiveAt(after, q);
    LiveAt(pages, q);
    LiveStep(pages, q);
  }

  lemma LiveAppended(pages: Pages, last: PageImage, b: Bytes)
    requires LiveOn(last) == [b]
    ensures LiveOf(pages) == LiveOf(pages[..|pages|]) + LiveOf(pages[|pages|..])
    ensures LiveOf(pages + [last]) == LiveOf(pages[..|pages|]) + [b] + LiveOf(pages[|pages|..])
  {
    hide LiveOf, LiveOn;
    assert pages[..|pages|] == pages && pages[|pages|..] == [];
    LiveConcat(pages, [last]);
    OneLivePage(last);
    NoneLive();
  }

  lemma OneLivePage(p: PageImage)
    ensures LiveOf([p]) == LiveOn(p)
  {
    hide LiveOn;
    assert [p][..0] == [];
  }

  lemma OneLive(b: Bytes)
    ensures LiveIn([b], [false]) == [b]
  {
    var one, mark := [b], [false];
    assert one[..0] == [] && mark[..0] == [];
  }

  /** after is before with the tuple placed on page q under its new address. */
  ghost predicate PutTuple(before: Pages, q: nat, t: Tuple, tid: TupleId, after: Pages) {
    var b := ItemOf(t, tid);
    && q <= |before| && tid == TupleId(q, SlotCount(before, q))
    && (q < |before| ==> ValidImage(before[q]) && Holds(before[q], b))
    && (q == |before| ==> |b| + LOC_SIZE <= Capacity(PAGE_SIZE))
    && after == PutOn(before, q, b)
  }

  lemma HeapPage(pages: Pages, types: seq<BType>, q: nat)
    requires HeapOk(pages, types) && q < |pages|
    ensures HeapImage(pages[q]) && ValidImage(pages[q])
  {
    hide StoredAt, Slots, Dead;
  }

  lemma PlacedOnPage(pages: Pages, types: seq<BType>, q: nat, t: Tuple)
    requires HeapOk(pages, types) && q < |pages| < 0x1_0000 && Fits(t, types)
    requires ValidImage(pages[q]) && Slack(pages[q]) >= t.length + LOC_SIZE
    ensures |pages[q].locs| < 0x1_0000
    ensures var tid := TupleId(q, |pages[q].locs|);
            var after := pages[q := WithItemAt(pages[q], |pages[q].locs|, ItemOf(t, tid))];
            PutTuple(pages, q, t, tid, after) && HeapOk(after, types)
  {
    hide StoredAt, Slots, Dead, ValidImage, HeapOk, Lookup, Fits, ItemOf;
    Bounds(pages[q]);
    ItemLength(t, TupleId(q, |pages[q].locs|), types);
    StoreTuple(t, types, q, |pages[q].locs|);
    PutLookup(pages, q, ItemOf(t, TupleId(q, |pages[q].locs|)), types);
  }

  lemma PlacedOnNew(pages: Pages, types: seq<BType>, t: Tuple)
    requires HeapOk(pages, types) && |pages| < 0x1_0000 && Fits(t, types)
    requires t.length + LOC_SIZE <= Capacity(PAGE_SIZE)
    ensures |ItemOf(t, TupleId(|pages|, 0))| + LOC_SIZE <= Capacity(PAGE_SIZE)
    ensures var tid := TupleId(|pages|, 0);
            var after := pages + [FirstItem(ItemOf(t, tid))];
            PutTuple(pages, |pages|, t, tid, after) && HeapOk(after, types)
  {
    hide StoredAt, Slots, Dead, ValidImage, HeapOk, Lookup, Fits, ItemOf;
    ItemLength(t, TupleId(|pages|, 0), types);
    StoreTuple(t, types, |pages|, 0);
    PutLookup(pages, |pages|, ItemOf(t, TupleId(|pages|, 0)), types);
  }

  /** Live tuples are stored tuples. */
  lemma {:induction false} LiveStored(pages: Pages, types: seq<BType>, b: Bytes)
    requires HeapOk(pages, types) && b in LiveOf(pages)
    ensures exists p: nat, s: nat :: Lookup(pages, p, s) == Found.Tuple(b) && StoredAt(b, types, p, s)
  {
    hide StoredAt, Slots, Dead, ValidImage, LiveIn;
    var n := |pages| - 1;
    if b in LiveOf(pages[..n]) {
      LiveStored(pages[..n], types, b);
      var p: nat, s: nat :| Lookup(pages[..n], p, s) == Found.Tuple(b) && StoredAt(b, types, p, s);
      assert Lookup(pages, p, s) == Found.Tuple(b);
    } else {
      var s := LiveInAt(Slots(pages[n]), Dead(pages[n]), b);
      assert Lookup(pages, n, s) == Found.Tuple(b);
      assert StoredAt(Slots(pages[n])[s], types, n, s);
    }
  }

  lemma {:induction false} LiveInAt(slots: seq<Bytes>, dead: seq<bool>, b: Bytes) returns (s: nat)
    requires |slots| == |dead| && b in LiveIn(slots, dead)
    ensures s < |slots| && slots[s] == b && !dead[s]
  {
    var n := |slots| - 1;
    if b in LiveIn(slots[..n], dead[..n]) {
      s := LiveInAt(slots[..n], dead[..n], b);
    } else {
      s := n;
    }
  }
}
