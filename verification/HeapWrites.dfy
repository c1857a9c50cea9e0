/** What writing tuples to a heap comes to, and the pages it leaves: one tuple, one update, a list of updates. */
module HeapWrites {
  import opened PageLayout
  import opened Codec
  import opened Heap
  import HeapFile

  /** Written: the tuple is in place. Otherwise the program stopped: on a page with fewer than six bytes
      left, on a tuple that fits on no page, or past the page numbers a tuple id can hold. */
  datatype WriteResult = Written | Overran | TooLong | OutOfPages

  function WriteOf(r: PlaceResult): WriteResult {
    match r
    case Placed(_) => Written
    case PageOverrun => Overran
    case TooBig => TooLong
  }

  /** The page a search from p begins with; past the end it comes to a new page at once. */
  function StartAt(pages: Pages, p: nat): (q: nat)
    ensures q <= |pages| && (p <= |pages| ==> q == p)
  {
    if p < |pages| then p else |pages|
  }

  /** What writing a tuple of this size comes to, searching from page p on. */
  function WriteOutcome(pages: Pages, p: nat, size: nat): WriteResult {
    if |pages| >= HeapFile.MAX_PAGES then OutOfPages
    else if size >= PAGE_SIZE then TooLong
    else WriteOf(PlaceOutcome(pages, StartAt(pages, p), size))
  }

  /** The page it ends up on. */
  function WritePage(pages: Pages, p: nat, size: nat): (q: nat)
    ensures q <= |pages|
  {
    FirstStop(pages, StartAt(pages, p), size)
  }

  ghost predicate CanPut(pages: Pages, q: nat, b: Bytes) {
    && q <= |pages|
    && (q < |pages| ==> ValidImage(pages[q]) && Holds(pages[q], b))
    && (q == |pages| ==> |b| + LOC_SIZE <= Capacity(PAGE_SIZE))
  }

  /** The pages it leaves: the tuple under its address behind the other slots of that page. */
  ghost function WritePages(pages: Pages, p: nat, t: Tuple): Pages {
    var q := WritePage(pages, p, t.length);
    var b := ItemOf(t, TupleId(q, SlotCount(pages, q)));
    if WriteOutcome(pages, p, t.length) == Written && CanPut(pages, q, b) then PutOn(pages, q, b) else pages
  }

  lemma WritePagesIs(pages: Pages, p: nat, t: Tuple, tid: TupleId, after: Pages)
    requires WriteOutcome(pages, p, t.length) == Written
    requires PutTuple(pages, WritePage(pages, p, t.length), t, tid, after)
    ensures after == WritePages(pages, p, t)
  {
    hide WritePage, WriteOutcome, ItemOf, PutOn, Holds, ValidImage;
  }

  /** The page is neither passed over as full nor are there too few bytes left to say so. */
  predicate PassedOver(page: PageImage, size: nat) {
    6 <= Slack(page) < size + 6
  }

  /** In numbers: a write finds no page number left exactly if the two bytes of a tuple id cannot hold the next
      one. Otherwise it comes to the first page from p on that is not passed over, or to an empty one of 8183
      bytes; it is refused for a page of its own size, writes over live bytes exactly on a page with fewer than
      six left, and succeeds exactly where tuple and slot fit. */
  lemma WriteExactly(pages: Pages, p: nat, size: nat, q: nat)
    requires p <= q <= |pages| && forall i :: p <= i < q ==> PassedOver(pages[i], size)
    requires q < |pages| ==> !PassedOver(pages[q], size)
    ensures WriteOutcome(pages, p, size) == OutOfPages <==> FromLE(LE(|pages|, 2)) != |pages|
    ensures WriteOutcome(pages, p, size) == OutOfPages <==> !IsTid(TupleId(|pages|, 0))
    ensures var slack := if q < |pages| then Slack(pages[q]) else 8183;
            WriteOutcome(pages, p, size) != OutOfPages ==>
              && WritePage(pages, p, size) == q
              && (WriteOutcome(pages, p, size) == Written <==> size < 8192 && slack >= size + 6)
              && (WriteOutcome(pages, p, size) == Overran <==> size < 8192 && slack < 6)
  {
    hide FromLE, LE;
    TidHolds(|pages|);
    StopsAtFirst(pages, p, size, q);
  }

  lemma {:induction false} StopsAtFirst(pages: Pages, p: nat, size: nat, q: nat)
    requires p <= q <= |pages| && forall i :: p <= i < q ==> PassedOver(pages[i], size)
    requires q < |pages| ==> !PassedOver(pages[q], size)
    ensures FirstStop(pages, p, size) == q
    decreases q - p
  {
    if p < q {
      StopsAtFirst(pages, p + 1, size, q);
    }
  }

  /** No page is gone, and none but q has changed. */
  ghost predicate SameBut(before: Pages, after: Pages, q: nat) {
    |after| >= |before| && forall i :: 0 <= i < |before| && i != q ==> after[i] == before[i]
  }

  /** No other page changes. */
  lemma WriteStays(pages: Pages, p: nat, t: Tuple)
    ensures SameBut(pages, WritePages(pages, p, t), WritePage(pages, p, t.length))
  {
    hide ItemOf, FirstItem, WithItemAt, ValidImage, Holds, WriteOutcome, WritePage;
  }

  /** A page number of a tuple id survives being stored exactly if it is below 2^16. */
  lemma TidHolds(n: nat)
    ensures FromLE(LE(n, 2)) == n <==> n < 0x1_0000
  {
    var b := LE(n, 2);
    assert LE(n / 256 / 256, 0) == [];
    assert LE(n / 256, 1) == [(n / 256 % 256) as byte];
    assert b[1..] == LE(n / 256, 1) && b[1..][1..] == [];
    assert FromLE(b[1..]) == n / 256 % 256;
  }

  /** A write that does not come off leaves the pages alone. */
  lemma WriteFails(pages: Pages, p: nat, t: Tuple)
    ensures WriteOutcome(pages, p, t.length) != Written ==> WritePages(pages, p, t) == pages
  {
    hide WritePage, WriteOutcome, ItemOf, PutOn, CanPut;
  }

  // ----- updates

  /** The pages with this tuple marked dead. */
  function Without(pages: Pages, tid: TupleId): (r: Pages)
    ensures |r| == |pages|
  {
    if tid.page < |pages| && tid.loc < |pages[tid.page].locs| then Deleted(pages, tid.page, tid.loc) else pages
  }

  /** CursorUpdateTupleById: the old version of t, at the address in its id, is marked dead, then t is written
      from the same page on. */
  function UpdateOutcome(pages: Pages, t: Tuple): WriteResult {
    WriteOutcome(Without(pages, t.tid), t.tid.page, t.length)
  }

  ghost function UpdatePages(pages: Pages, t: Tuple): Pages {
    if UpdateOutcome(pages, t) == OutOfPages then pages else WritePages(Without(pages, t.tid), t.tid.page, t)
  }

  /** In numbers: an update comes to the first page from that of the old version on that is not passed over,
      marking dead freeing nothing; pages before are left alone. */
  lemma UpdateExactly(pages: Pages, t: Tuple, q: nat)
    requires t.tid.page <= q <= |pages|
    requires forall i :: t.tid.page <= i < q ==> PassedOver(pages[i], t.length)
    requires q < |pages| ==> !PassedOver(pages[q], t.length)
    ensures UpdateOutcome(pages, t) == OutOfPages <==> !IsTid(TupleId(|pages|, 0))
    ensures var slack := if q < |pages| then Slack(pages[q]) else 8183;
            UpdateOutcome(pages, t) != OutOfPages ==>
              && (UpdateOutcome(pages, t) == Written <==> t.length < 8192 && slack >= t.length + 6)
              && (UpdateOutcome(pages, t) == Overran <==> t.length < 8192 && slack < 6)
    ensures SameBut(Without(pages, t.tid), UpdatePages(pages, t), q)
            || (UpdateOutcome(pages, t) == OutOfPages && UpdatePages(pages, t) == pages)
    ensures SameBut(pages, Without(pages, t.tid), t.tid.page)
  {
    hide ItemOf, FirstItem, WithItemAt, ValidImage, Holds, WriteOutcome, WritePage, WritePages;
    var without := Without(pages, t.tid);
    forall i | 0 <= i < |pages|
      ensures Slack(without[i]) == Slack(pages[i]) && (i != t.tid.page ==> without[i] == pages[i])
    {
    }
    WriteExactly(without, t.tid.page, t.length, q);
    WriteStays(without, t.tid.page, t);
    WriteFails(without, t.tid.page, t);
  }

  /** A list of updates, up to the first that cannot be written. */
  datatype Writing = Writing(pages: Pages, result: WriteResult)

  ghost function UpdateAll(pages: Pages, ts: seq<Tuple>): Writing {
    if ts == [] then Writing(pages, Written) else
      var before := UpdateAll(pages, ts[..|ts| - 1]);
      if before.result != Written then before else
        Writing(UpdatePages(before.pages, ts[|ts| - 1]), UpdateOutcome(before.pages, ts[|ts| - 1]))
  }

  lemma UpdateStep(pages: Pages, ts: seq<Tuple>, t: Tuple)
    ensures UpdateAll(pages, []) == Writing(pages, Written)
    ensures UpdateAll(pages, ts + [t]) ==
            var before := UpdateAll(pages, ts);
            if before.result != Written then before
            else Writing(UpdatePages(before.pages, t), UpdateOutcome(before.pages, t))
  {
    hide UpdatePages, UpdateOutcome;
    assert (ts + [t])[..|ts + [t]| - 1] == ts;
  }

  /** Nothing is written after the first that cannot be. */
  lemma {:induction false} UpdateStuck(pages: Pages, ts: seq<Tuple>, n: nat)
    requires n <= |ts| && UpdateAll(pages, ts[..n]).result != Written
    ensures UpdateAll(pages, ts) == UpdateAll(pages, ts[..n])
    decreases |ts| - n
  {
    hide UpdatePages, UpdateOutcome, UpdateAll;
    if n < |ts| {
      assert ts[..n + 1] == ts[..n] + [ts[n]];
      UpdateStep(pages, ts[..n], ts[n]);
      UpdateStuck(pages, ts, n + 1);
    } else {
      assert ts[..n] == ts;
    }
  }

  /** All are written exactly if each is in its turn. */
  lemma {:induction false} UpdateAllExactly(pages: Pages, ts: seq<Tuple>)
    ensures UpdateAll(pages, ts).result == Written
            <==> forall i :: 0 <= i < |ts| ==> UpdateOutcome(UpdateAll(pages, ts[..i]).pages, ts[i]) == Written
  {
    hide UpdatePages, UpdateOutcome, UpdateAll;
    if ts == [] {
      UpdateStep(pages, ts, Pack(TupleId(0, 0), [], []));
    } else {
      var n := |ts| - 1;
      var init := ts[..n];
      assert ts == init + [ts[n]];
      UpdateStep(pages, init, ts[n]);
      UpdateAllExactly(pages, init);
      assert forall i :: 0 <= i < n ==> init[..i] == ts[..i] && init[i] == ts[i];
    }
  }
}
