/** A page buffer in memory: item bytes grow down, slot entries grow up, everything is changed in
    place. Every method is proved against the value-level operations of PageLayout. */
module PageBuffer {
  import opened PageLayout

  class Page {
    const data: array<byte>
    const locs: array<ItemLoc>
    var numLocs: nat
    var lower: nat
    var upper: nat
    var special: nat
    var info: PageInfo

    function Image(): PageImage
      requires numLocs <= locs.Length
      reads this, data, locs
    {
      PageImage(data[..], locs[..numLocs], lower, upper, special, info)
    }

    ghost predicate Valid()
      reads this, data, locs
    {
      && data.Length == PAGE_SIZE
      && locs.Length == MAX_LOCS
      && numLocs <= MAX_LOCS
      && ValidImage(Image())
    }

    /** PageInit on a zeroed buffer. */
    constructor Init(reserve: nat, info: PageInfo)
      requires reserve < PAGE_SIZE - HEADER_SIZE
      ensures Valid() && fresh(data) && fresh(locs)
      ensures Image() == EmptyImage(reserve, info)
    {
      data := new byte[PAGE_SIZE](_ => 0);
      locs := new ItemLoc[MAX_LOCS](_ => ItemLoc(0, 0, false));
      numLocs := 0;
      lower := HEADER_SIZE;
      upper := PAGE_SIZE - reserve - 1;
      special := PAGE_SIZE - reserve;
      this.info := info;
    }

    /** ReadPage: a private copy of a page image. */
    constructor Read(image: PageImage)
      requires ValidImage(image)
      ensures Valid() && fresh(data) && fresh(locs)
      ensures Image() == image
    {
      data := new byte[PAGE_SIZE](i requires 0 <= i < |image.data| => image.data[i]);
      locs := new ItemLoc[MAX_LOCS](i => if 0 <= i < |image.locs| then image.locs[i] else ItemLoc(0, 0, false));
      numLocs := |image.locs|;
      lower, upper, special, info := image.lower, image.upper, image.special, image.info;
      new;
      assert data[..] == image.data;
      assert locs[..numLocs] == image.locs;
    }

    /** PageAddItem. */
    method AddItem(item: Bytes) returns (r: AddResult)
      requires Valid() && |item| < PAGE_SIZE
      modifies this, data, locs
      ensures Valid() && special == old(special) && info == old(info)
      ensures r == AddOutcome(old(Slack(Image())), |item|)
      ensures !r.Added? ==> Image() == old(Image())
      ensures r.Added? ==> Image() == WithItemAt(old(Image()), old(numLocs), item)
    {
      hide ValidImage, Spliced, InsertAt;
      Bounds(Image());
      FreeSpaceTest(upper, lower, |item|);
      if FreeSpace(upper, lower) < |item| {
        return Full;
      }
      if upper - lower < LOC_SIZE {
        return Overrun;
      }
      ghost var was := Image();
      var offset := upper - |item| + 1;
      AppendLoc(ItemLoc(offset, |item|, false));
      CopyIn(offset, item);
      lower := lower + LOC_SIZE;
      upper := offset - 1;
      AddMeaning(was, |was.locs|, item);
      assert Image() == WithItemAt(was, |was.locs|, item);
      return Added;
    }

    method AppendLoc(loc: ItemLoc)
      requires numLocs < locs.Length
      modifies this`numLocs, locs
      ensures numLocs == old(numLocs) + 1
      ensures locs[..numLocs] == InsertAt(old(locs[..numLocs]), old(numLocs), loc)
    {
      locs[numLocs] := loc;
      numLocs := numLocs + 1;
    }

    method CopyIn(at: nat, item: Bytes)
      requires at + |item| <= data.Length
      modifies data
      ensures data[..] == Spliced(old(data[..]), at, item)
    {
      forall i | at <= i < at + |item| {
        data[i] := item[i - at];
      }
    }

    /** PageAddItemAt: append, then rotate the new slot entry down to its place. */
    method AddItemAt(idx: nat, item: Bytes) returns (r: AddResult)
      requires Valid() && |item| < PAGE_SIZE && idx <= numLocs
      modifies this, data, locs
      ensures Valid() && special == old(special) && info == old(info)
      ensures r == AddOutcome(old(Slack(Image())), |item|)
      ensures !r.Added? ==> Image() == old(Image())
      ensures r.Added? ==> Image() == WithItemAt(old(Image()), idx, item)
    {
      hide ValidImage, Spliced, InsertAt;
      ghost var was := Image();
      Bounds(was);
      r := AddItem(item);
      if !r.Added? {
        return;
      }
      ghost var loc := ItemLoc(was.upper - |item| + 1, |item|, false);
      RotatedInsert(was.locs, loc);
      assert locs[..numLocs] == InsertAt(was.locs, |was.locs|, loc);
      assert locs[..numLocs - 1] == locs[..numLocs][..numLocs - 1];
      assert locs[numLocs - 1] == locs[..numLocs][numLocs - 1];
      RotateLast(idx);
      AddMeaning(was, idx, item);
      assert Image() == WithItemAt(was, idx, item);
    }

    method RotateLast(idx: nat)
      requires idx < numLocs <= locs.Length
      modifies locs
      ensures locs[..numLocs] == InsertAt(old(locs[..numLocs - 1]), idx, old(locs[numLocs - 1]))
    {
      hide *;
      var inserted := locs[numLocs - 1];
      ghost var appended := locs[..numLocs];
      var i := numLocs - 1;
      while i > idx
        invariant idx <= i < numLocs
        invariant forall j :: 0 <= j <= i ==> locs[j] == appended[j]
        invariant forall j :: i < j < numLocs ==> locs[j] == appended[j - 1]
      {
        locs[i] := locs[i - 1];
        i := i - 1;
      }
      locs[idx] := inserted;
      assert appended[..numLocs - 1] == old(locs[..numLocs - 1]);
      InsertedAt(appended[..numLocs - 1], locs[..numLocs], idx, inserted);
    }

    /** PageGetItem: None past the last slot. */
    method GetItem(i: nat) returns (found: bool, item: Bytes)
      requires Valid()
      ensures found <==> i < numLocs
      ensures found ==> item == Slots(Image())[i]
    {
      if i >= numLocs {
        return false, [];
      }
      var loc := locs[i];
      assert locs[..numLocs][i] == loc;
      return true, data[loc.offset..loc.offset + loc.length];
    }

    /** PageDeleteItem. */
    method DeleteItem(k: nat)
      requires Valid() && k < numLocs
      modifies locs
      ensures Valid()
      ensures Image() == WithDead(old(Image()), k)
    {
      ghost var was := Image();
      locs[k] := locs[k].(dead := true);
      assert locs[..numLocs] == was.locs[k := was.locs[k].(dead := true)];
      DeadMeaning(was, k);
    }

    /** PageRemoveLoc: close the gap in the slots, slide the data up, fix the offsets. */
    method RemoveLoc(k: nat)
      requires Valid()
      modifies this, data, locs
      ensures Valid() && special == old(special) && info == old(info)
      ensures k >= old(numLocs) ==> Image() == old(Image())
      ensures k < old(numLocs) ==> Image() == WithoutItem(old(Image()), k)
    {
      hide ValidImage, Closed, MovedAll, RemoveAt;
      if k >= numLocs {
        return;
      }
      ghost var was := Image();
      var gone := locs[k];
      Bounds(was);
      LocBounds(was, k);
      ShiftLocs(k);
      numLocs := numLocs - 1;
      lower := lower - LOC_SIZE;
      SlideUp(gone);
      upper := upper + gone.length;
      FixOffsets(gone);
      RemoveMeaning(was, k);
      assert Image() == WithoutItem(was, k);
    }

    /** The memmove of PageRemoveLoc. */
    method SlideUp(gone: ItemLoc)
      requires upper < gone.offset && gone.offset + gone.length <= data.Length
      modifies data
      ensures data[..] == Closed(old(data[..]), upper, gone)
    {
      forall i | upper + gone.length <= i < gone.offset + gone.length {
        data[i] := data[i - gone.length];
      }
    }

    method ShiftLocs(k: nat)
      requires k < numLocs < locs.Length
      modifies locs
      ensures locs[..numLocs - 1] == RemoveAt(old(locs[..numLocs]), k)
    {
      ghost var was := locs[..];
      var i := k;
      while i < numLocs
        invariant k <= i <= numLocs
        invariant forall j :: 0 <= j < k || i <= j < locs.Length ==> locs[j] == was[j]
        invariant forall j :: k <= j < i ==> locs[j] == was[j + 1]
      {
        locs[i] := locs[i + 1];
        i := i + 1;
      }
    }

    method FixOffsets(gone: ItemLoc)
      requires numLocs <= locs.Length
      modifies locs
      ensures locs[..numLocs] == MovedAll(old(locs[..numLocs]), gone)
    {
      ghost var was := locs[..numLocs];
      for i := 0 to numLocs
        invariant forall j :: 0 <= j < i ==> locs[j] == Moved(was[j], gone)
        invariant forall j :: i <= j < numLocs ==> locs[j] == was[j]
      {
        var loc := locs[i];
        if loc.offset <= gone.offset {
          locs[i] := loc.(offset := loc.offset + gone.length);
        }
      }
    }

    /** Store the right link in the reserved area. */
    method SetRight(right: nat)
      requires Valid() && info.NodeInfo?
      modifies this`info
      ensures Valid()
      ensures Image() == old(Image()).(info := old(info).(right := right))
    {
      info := info.(right := right);
      assert Image() == old(Image()).(info := info);
    }

    /** BTreePageSetHighKey: remove slot 0, add the new high key at slot 0. The program does not check the
        second step; if there is no room for the new item the old one is gone all the same. */
    method SetHighKey(item: Bytes) returns (r: AddResult)
      requires Valid() && |item| < PAGE_SIZE && numLocs > 0
      modifies this, data, locs
      ensures Valid() && special == old(special) && info == old(info)
      ensures r == if old(Slack(Image()) + locs[0].length) >= |item| then Added else Full
      ensures Slots(Image()) == if r == Added then old(Slots(Image()))[0 := item] else old(Slots(Image()))[1..]
    {
      ghost var was := Image();
      RemoveLoc(0);
      RemoveMeaning(was, 0);
      ghost var without := Image();
      r := AddItemAt(0, item);
      OutcomeCases(Slack(without), |item|);
      if r.Added? {
        AddMeaning(without, 0, item);
        ReplaceFirst(was, item);
      }
    }
  }

  lemma RotatedInsert(locs: seq<ItemLoc>, loc: ItemLoc)
    ensures var appended := InsertAt(locs, |locs|, loc);
            appended[..|locs|] == locs && appended[|locs|] == loc
  {
  }
}
