/** Any run of page operations, against a plain list of items. */
module PageRuns {
  import opened PageLayout
  import PageBuffer

  datatype Cell = Cell(item: Bytes, dead: bool)

  datatype PageOp = Add(item: Bytes) | AddAt(idx: nat, item: Bytes) | MarkDead(k: nat) | Remove(k: nat)

  function CellsOf(slots: seq<Bytes>, dead: seq<bool>): (r: seq<Cell>)
    requires |slots| == |dead|
    ensures |r| == |slots|
    ensures forall i :: 0 <= i < |r| ==> r[i] == Cell(slots[i], dead[i])
  {
    seq(|slots|, i requires 0 <= i < |slots| => Cell(slots[i], dead[i]))
  }

  function Cells(p: PageImage): seq<Cell> {
    CellsOf(Slots(p), Dead(p))
  }

  function Items(cells: seq<Cell>): (r: seq<Bytes>)
    ensures |r| == |cells| && forall i :: 0 <= i < |r| ==> r[i] == cells[i].item
  {
    seq(|cells|, i requires 0 <= i < |cells| => cells[i].item)
  }

  /** What the callers keep to: positions that exist, items shorter than a page. */
  predicate Allowed(op: PageOp, n: nat) {
    match op
    case Add(item) => |item| < PAGE_SIZE
    case AddAt(idx, item) => idx <= n && |item| < PAGE_SIZE
    case MarkDead(k) => k < n
    case Remove(_) => true
  }

  /** The list after one operation: an item that does not fit changes nothing, nor does removing a slot
      that is not there. */
  function After(cells: seq<Cell>, capacity: int, op: PageOp): (r: seq<Cell>)
    requires Allowed(op, |cells|)
  {
    var room := capacity - Cost(Items(cells));
    match op
    case Add(item) => if AddOutcome(room, |item|) == Added then cells + [Cell(item, false)] else cells
    case AddAt(idx, item) => if AddOutcome(room, |item|) == Added then InsertAt(cells, idx, Cell(item, false))
      else cells
    case MarkDead(k) => cells[k := cells[k].(dead := true)]
    case Remove(k) => if k < |cells| then RemoveAt(cells, k) else cells
  }

  /** The program never gets past an operation that is not allowed or that overruns the page. */
  predicate Goes(cells: seq<Cell>, capacity: int, op: PageOp) {
    && Allowed(op, |cells|)
    && (op.Add? || op.AddAt? ==> AddOutcome(capacity - Cost(Items(cells)), |op.item|) != Overrun)
  }

  /** Which operations go through, in numbers. */
  lemma GoesExactly(cells: seq<Cell>, capacity: int, op: PageOp)
    ensures var room := capacity - Cost(Items(cells));
            Goes(cells, capacity, op)
            <==> match op
                 case Add(item) => |item| < 8192 && room >= 6
                 case AddAt(idx, item) => idx <= |cells| && |item| < 8192 && room >= 6
                 case MarkDead(k) => k < |cells|
                 case Remove(_) => true
  {
    hide Cost, Items;
  }

  /** What they do, cell by cell. */
  lemma AfterExactly(cells: seq<Cell>, capacity: int, op: PageOp)
    requires Goes(cells, capacity, op)
    ensures var room, after := capacity - Cost(Items(cells)), After(cells, capacity, op);
            match op
            case Add(item) =>
              if room >= |item| + 6 then after == cells + [Cell(item, false)] else after == cells
            case AddAt(i, item) =>
              if room < |item| + 6 then after == cells else
                |after| == |cells| + 1 && after[..i] == cells[..i] && after[i] == Cell(item, false)
                  && after[i + 1..] == cells[i..]
            case MarkDead(k) =>
              |after| == |cells| && after[k] == Cell(cells[k].item, true)
                && forall j :: 0 <= j < |cells| && j != k ==> after[j] == cells[j]
            case Remove(k) => if k < |cells| then after == cells[..k] + cells[k + 1..] else after == cells
  {
    hide Cost, Items;
  }

  function AfterAll(capacity: int, ops: seq<PageOp>): seq<Cell> {
    if ops == [] then [] else
      var before := AfterAll(capacity, ops[..|ops| - 1]);
      if Goes(before, capacity, ops[|ops| - 1]) then After(before, capacity, ops[|ops| - 1]) else before
  }

  ghost predicate GoesAt(capacity: int, ops: seq<PageOp>, i: nat)
    requires i < |ops|
  {
    Goes(AfterAll(capacity, ops[..i]), capacity, ops[i])
  }

  ghost predicate AllGo(capacity: int, ops: seq<PageOp>) {
    forall i :: 0 <= i < |ops| ==> GoesAt(capacity, ops, i)
  }

  lemma CellsFacts(p: PageImage)
    requires ValidImage(p)
    ensures |Cells(p)| == |p.locs| && Items(Cells(p)) == Slots(p)
    ensures Slack(p) == Capacity(p.special) - Cost(Items(Cells(p)))
  {
    hide ValidImage;
    SlackFromItems(p);
  }

  lemma CellsAdded(p: PageImage, idx: nat, item: Bytes)
    requires ValidImage(p) && idx <= |p.locs| && Slack(p) >= |item| + LOC_SIZE
    ensures Cells(WithItemAt(p, idx, item)) == InsertAt(Cells(p), idx, Cell(item, false))
  {
    hide ValidImage, Slots, Dead, WithItemAt, Slack;
    AddMeaning(p, idx, item);
  }

  lemma CellsRemoved(p: PageImage, k: nat)
    requires ValidImage(p) && k < |p.locs|
    ensures Cells(WithoutItem(p, k)) == RemoveAt(Cells(p), k)
  {
    hide ValidImage, Slots, Dead, WithoutItem;
    RemoveMeaning(p, k);
  }

  lemma CellsMarked(p: PageImage, k: nat)
    requires ValidImage(p) && k < |p.locs|
    ensures Cells(WithDead(p, k)) == Cells(p)[k := Cells(p)[k].(dead := true)]
  {
    hide ValidImage, Slots, Dead, WithDead;
    DeadMeaning(p, k);
  }

  /** One operation on a page buffer. */
  method Perform(page: PageBuffer.Page, op: PageOp) returns (ok: bool)
    requires page.Valid()
    modifies page, page.data, page.locs
    ensures page.Valid() && page.special == old(page.special) && page.info == old(page.info)
    ensures ok <==> Goes(old(Cells(page.Image())), Capacity(page.special), op)
    ensures ok ==> Cells(page.Image()) == After(old(Cells(page.Image())), Capacity(page.special), op)
    ensures !ok ==> Cells(page.Image()) == old(Cells(page.Image()))
  {
    hide ValidImage, Slots, Dead, WithItemAt, WithoutItem, WithDead, Cells, Slack;
    ghost var was := page.Image();
    CellsFacts(was);
    match op {
      case Add(item) =>
        if |item| >= PAGE_SIZE {
          return false;
        }
        var r := page.AddItem(item);
        if r == Added {
          CellsAdded(was, |was.locs|, item);
        }
        return r != Overrun;
      case AddAt(idx, item) =>
        if |item| >= PAGE_SIZE || idx > page.numLocs {
          return false;
        }
        var r := page.AddItemAt(idx, item);
        if r == Added {
          CellsAdded(was, idx, item);
        }
        return r != Overrun;
      case MarkDead(k) =>
        if k >= page.numLocs {
          return false;
        }
        page.DeleteItem(k);
        CellsMarked(was, k);
        return true;
      case Remove(k) =>
        page.RemoveLoc(k);
        if k < |was.locs| {
          CellsRemoved(was, k);
        }
        return true;
    }
  }

  /** Every run on a fresh page: as long as no operation goes wrong, the page is valid, so its items tile
      their area exactly, and holds exactly the list the operations describe, marks included. */
  method Run(reserve: nat, info: PageInfo, ops: seq<PageOp>) returns (page: PageBuffer.Page, done: nat)
    requires reserve < PAGE_SIZE - HEADER_SIZE
    ensures page.Valid() && page.special == PAGE_SIZE - reserve && done <= |ops|
    ensures AllGo(Capacity(page.special), ops[..done])
    ensures Cells(page.Image()) == AfterAll(Capacity(page.special), ops[..done])
    ensures done < |ops| ==> !Goes(AfterAll(Capacity(page.special), ops[..done]), Capacity(page.special), ops[done])
  {
    hide ValidImage, Slots, Dead, Cells, Goes, After;
    page := new PageBuffer.Page.Init(reserve, info);
    EmptyCells(reserve, info);
    done := 0;
    while done < |ops|
      invariant fresh(page) && fresh(page.data) && fresh(page.locs)
      invariant page.Valid() && page.special == PAGE_SIZE - reserve && done <= |ops|
      invariant AllGo(Capacity(page.special), ops[..done])
      invariant Cells(page.Image()) == AfterAll(Capacity(page.special), ops[..done])
    {
      var ok := Perform(page, ops[done]);
      if !ok {
        return;
      }
      OneMoreOp(Capacity(page.special), ops, done);
      done := done + 1;
    }
  }

  lemma EmptyCells(reserve: nat, info: PageInfo)
    requires reserve < PAGE_SIZE - HEADER_SIZE
    ensures Cells(EmptyImage(reserve, info)) == [] && EmptyImage(reserve, info).special == PAGE_SIZE - reserve
  {
    hide ValidImage;
    EmptyMeaning(reserve, info);
  }

  lemma OneMoreOp(capacity: int, ops: seq<PageOp>, n: nat)
    requires n < |ops| && AllGo(capacity, ops[..n]) && Goes(AfterAll(capacity, ops[..n]), capacity, ops[n])
    ensures AllGo(capacity, ops[..n + 1])
    ensures AfterAll(capacity, ops[..n + 1]) == After(AfterAll(capacity, ops[..n]), capacity, ops[n])
  {
    hide Goes, After;
    var now := ops[..n + 1];
    assert now[..n] == ops[..n];
    forall i | 0 <= i < |now|
      ensures GoesAt(capacity, now, i)
    {
      assert now[..i] == ops[..i];
      assert i < n ==> ops[..n][..i] == ops[..i] && GoesAt(capacity, ops[..n], i);
    }
  }
}
