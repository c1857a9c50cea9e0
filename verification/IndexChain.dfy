/** The leaf chain as a list of pages, each a list of slots: where a key belongs along it, what the
    high keys promise, and how one page's insertion or split changes the whole. */
module IndexChain {
  import opened PageLayout
  import opened Types
  import opened Codec
  import opened IndexOrder

  type Nodes = seq<seq<Bytes>>

  /** Every entry, read along the right links. */
  function ChainKeys(nodes: Nodes): seq<Bytes> {
    if nodes == [] then [] else ChainKeys(nodes[..|nodes| - 1]) + Keys(nodes[|nodes| - 1])
  }

  lemma {:induction false} ChainConcat(a: Nodes, b: Nodes)
    ensures ChainKeys(a + b) == ChainKeys(a) + ChainKeys(b)
  {
    hide Keys;
    if b == [] {
      assert a + b == a;
    } else {
      assert (a + b)[..|a + b| - 1] == a + b[..|b| - 1];
      ChainConcat(a, b[..|b| - 1]);
    }
  }

  lemma ChainStep(nodes: Nodes, i: nat)
    requires i < |nodes|
    ensures ChainKeys(nodes[..i + 1]) == ChainKeys(nodes[..i]) + Keys(nodes[i])
  {
    hide Keys;
    assert nodes[..i + 1][..i] == nodes[..i];
  }

  lemma ChainAt(nodes: Nodes, i: nat)
    requires i < |nodes|
    ensures ChainKeys(nodes) == ChainKeys(nodes[..i]) + Keys(nodes[i]) + ChainKeys(nodes[i + 1..])
  {
    hide Keys, ChainKeys;
    ChainStep(nodes, i);
    assert nodes == nodes[..i + 1] + nodes[i + 1..];
    ChainConcat(nodes[..i + 1], nodes[i + 1..]);
  }

  // ----- the order along the chain

  ghost predicate AllBelow(kt: BType, k: Datum, es: seq<Bytes>) {
    forall i :: 0 <= i < |es| ==> KeyGt(kt, k, es[i])
  }

  ghost predicate NoneBelow(kt: BType, k: Datum, es: seq<Bytes>) {
    forall i :: 0 <= i < |es| ==> !KeyGt(kt, k, es[i])
  }

  lemma {:induction false} ChainAllBelow(kt: BType, k: Datum, nodes: Nodes)
    requires forall j :: 0 <= j < |nodes| ==> AllBelow(kt, k, Keys(nodes[j]))
    ensures AllBelow(kt, k, ChainKeys(nodes))
  {
    hide KeyGt, Keys;
    if nodes != [] {
      ChainAllBelow(kt, k, nodes[..|nodes| - 1]);
    }
  }

  lemma {:induction false} ChainNoneBelow(kt: BType, k: Datum, nodes: Nodes)
    requires forall j :: 0 <= j < |nodes| ==> NoneBelow(kt, k, Keys(nodes[j]))
    ensures NoneBelow(kt, k, ChainKeys(nodes))
  {
    hide KeyGt, Keys;
    if nodes != [] {
      ChainNoneBelow(kt, k, nodes[..|nodes| - 1]);
    }
  }

  /** No key of page b is below the high key of page a. */
  ghost predicate HighBounds(kt: BType, a: seq<Bytes>, b: seq<Bytes>) {
    a != [] && NoneBelow(kt, KeyOf(kt, a[HIGH_KEY]), Keys(b))
  }

  /** Every high key bounds every later page from below. */
  ghost predicate HighsOrdered(kt: BType, nodes: Nodes) {
    forall i, j :: 0 <= i < j < |nodes| ==> HighBounds(kt, nodes[i], nodes[j])
  }

  /** No key of a page exceeds the page's own high key, the last page aside. */
  ghost predicate KeysUnderHighs(kt: BType, nodes: Nodes) {
    forall i :: 0 <= i < |nodes| - 1 ==> UnderHigh(kt, nodes[i])
  }

  ghost predicate UnderHigh(kt: BType, slots: seq<Bytes>) {
    slots != [] && forall e :: e in Keys(slots) ==> !KeyGt(kt, KeyOf(kt, e), slots[HIGH_KEY])
  }

  /** The insertion loop leaves this page for its right neighbour. */
  ghost predicate MovesRight(kt: BType, k: Datum, slots: seq<Bytes>) {
    slots != [] && AllBelow(kt, k, Keys(slots)) && KeyGt(kt, k, slots[HIGH_KEY])
  }

  /** The insertion loop stops at page i. */
  ghost predicate StopsAt(kt: BType, k: Datum, nodes: Nodes, i: nat) {
    && i < |nodes| && nodes[i] != []
    && (forall j :: 0 <= j < i ==> MovesRight(kt, k, nodes[j]))
    && (Pos(kt, k, Keys(nodes[i])) < |Keys(nodes[i])| || i == |nodes| - 1 || !KeyGt(kt, k, nodes[i][HIGH_KEY]))
  }

  lemma LaterNotBelow(kt: BType, k: Datum, high: Bytes, keys: seq<Bytes>)
    requires !KeyGt(kt, k, high) && NoneBelow(kt, KeyOf(kt, high), keys)
    ensures NoneBelow(kt, k, keys)
  {
    hide KeyOf, Gt;
    GtOrder();
    forall i | 0 <= i < |keys|
      ensures !KeyGt(kt, k, keys[i])
    {
      assert !KeyGt(kt, KeyOf(kt, high), keys[i]);
    }
  }

  /** Where the loop stops is where the key belongs in the whole chain: its lower bound there is its
      lower bound on the page, counted from the keys of the pages before. */
  lemma StopIsLowerBound(kt: BType, k: Datum, nodes: Nodes, i: nat)
    requires HighsOrdered(kt, nodes) && StopsAt(kt, k, nodes, i)
    ensures Pos(kt, k, ChainKeys(nodes)) == |ChainKeys(nodes[..i])| + Pos(kt, k, Keys(nodes[i]))
  {
    hide KeyGt, Pos, KeyOf, Keys, ChainKeys, HighBounds;
    ChainAt(nodes, i);
    var front, keys, back := ChainKeys(nodes[..i]), Keys(nodes[i]), ChainKeys(nodes[i + 1..]);
    var p := Pos(kt, k, keys);
    ChainAllBelow(kt, k, nodes[..i]);
    if p == |keys| && i < |nodes| - 1 {
      var later := nodes[i + 1..];
      forall j | 0 <= j < |later|
        ensures NoneBelow(kt, k, Keys(later[j]))
      {
        HighBoundsIs(kt, nodes[i], nodes[i + 1 + j]);
        LaterNotBelow(kt, k, nodes[i][HIGH_KEY], Keys(nodes[i + 1 + j]));
      }
      ChainNoneBelow(kt, k, later);
    } else if i == |nodes| - 1 {
      assert nodes[i + 1..] == [];
      ChainEmpty();
    }
    PosUnique(kt, k, front + keys + back, |front| + p);
  }

  lemma ChainEmpty()
    ensures ChainKeys([]) == []
  {
  }

  lemma HighBoundsIs(kt: BType, a: seq<Bytes>, b: seq<Bytes>)
    requires HighBounds(kt, a, b)
    ensures a != [] && NoneBelow(kt, KeyOf(kt, a[HIGH_KEY]), Keys(b))
  {
  }

  /** Entries of an earlier page come before entries of a later page in the sorted chain. */
  lemma SortedAcross(kt: BType, nodes: Nodes, i: nat, j: nat, a: nat, b: nat)
    requires Sorted(kt, ChainKeys(nodes)) && i <= j < |nodes|
    requires a < |Keys(nodes[i])| && b < |Keys(nodes[j])| && (i < j || a < b)
    ensures !KeyGt(kt, KeyOf(kt, Keys(nodes[i])[a]), Keys(nodes[j])[b])
  {
    hide KeyOf, Keys, ChainKeys, Gt;
    ChainAt(nodes, i);
    ChainAt(nodes, j);
    PrefixGrows(nodes, i, j);
    var x, y := |ChainKeys(nodes[..i])| + a, |ChainKeys(nodes[..j])| + b;
    assert ChainKeys(nodes)[x] == Keys(nodes[i])[a];
    assert ChainKeys(nodes)[y] == Keys(nodes[j])[b];
    assert x < y;
  }

  lemma PrefixGrows(nodes: Nodes, i: nat, j: nat)
    requires i <= j < |nodes|
    ensures i < j ==> |ChainKeys(nodes[..i])| + |Keys(nodes[i])| <= |ChainKeys(nodes[..j])|
  {
    hide Keys, ChainKeys;
    if i < j {
      assert nodes[..j][..i] == nodes[..i];
      ChainAt(nodes[..j], i);
    }
  }

  // ----- replacing one page by one or two

  function Replaced(nodes: Nodes, i: nat, mid: Nodes): Nodes
    requires i < |nodes|
  {
    nodes[..i] + mid + nodes[i + 1..]
  }

  /** If the new pages spell out page i's keys with e at its lower bound there, the whole chain spells
      out the old entries with e at its lower bound. */
  lemma ReplacedKeys(kt: BType, nodes: Nodes, i: nat, mid: Nodes, e: Bytes)
    requires HighsOrdered(kt, nodes) && StopsAt(kt, KeyOf(kt, e), nodes, i)
    requires ChainKeys(mid) == Inserted(kt, Keys(nodes[i]), e)
    ensures ChainKeys(Replaced(nodes, i, mid)) == Inserted(kt, ChainKeys(nodes), e)
  {
    hide Pos, KeyOf, Keys, ChainKeys, HighsOrdered;
    StopIsLowerBound(kt, KeyOf(kt, e), nodes, i);
    ChainAt(nodes, i);
    ChainConcat(nodes[..i], mid);
    ChainConcat(nodes[..i] + mid, nodes[i + 1..]);
    InsertMiddle(ChainKeys(nodes[..i]), Keys(nodes[i]), ChainKeys(nodes[i + 1..]),
                 Pos(kt, KeyOf(kt, e), Keys(nodes[i])), e);
  }

  lemma InsertMiddle(a: seq<Bytes>, b: seq<Bytes>, c: seq<Bytes>, p: nat, e: Bytes)
    requires p <= |b|
    ensures InsertAt(a + b + c, |a| + p, e) == a + InsertAt(b, p, e) + c
  {
  }

  lemma HighsReplaced(kt: BType, nodes: Nodes, i: nat, mid: Nodes)
    requires i < |nodes| && HighsOrdered(kt, nodes) && HighsOrdered(kt, mid)
    requires forall j, m :: 0 <= j < i && 0 <= m < |mid| ==> HighBounds(kt, nodes[j], mid[m])
    requires forall m, j :: 0 <= m < |mid| && i < j < |nodes| ==> HighBounds(kt, mid[m], nodes[j])
    ensures HighsOrdered(kt, Replaced(nodes, i, mid))
  {
    hide HighBounds;
    var r, n := Replaced(nodes, i, mid), |mid|;
    forall a, b | 0 <= a < b < |r|
      ensures HighBounds(kt, r[a], r[b])
    {
      assert r[a] == if a < i then nodes[a] else if a < i + n then mid[a - i] else nodes[a - n + 1];
      assert r[b] == if b < i then nodes[b] else if b < i + n then mid[b - i] else nodes[b - n + 1];
    }
  }

  /** A high key the insertion passed bounds the new page, whose keys are old ones and e. */
  lemma HighBoundsGrown(kt: BType, slots: seq<Bytes>, before: seq<Bytes>, after: seq<Bytes>, e: Bytes)
    requires HighBounds(kt, slots, before) && KeyGt(kt, KeyOf(kt, e), slots[HIGH_KEY])
    requires forall x :: x in Keys(after) ==> x == e || x in Keys(before)
    ensures HighBounds(kt, slots, after)
  {
    hide KeyOf, Keys, Gt;
    GtOrder();
    var h := KeyOf(kt, slots[HIGH_KEY]);
    forall x | x in Keys(after)
      ensures !KeyGt(kt, h, x)
    {
      if x != e {
        var i :| 0 <= i < |Keys(before)| && Keys(before)[i] == x;
        assert !KeyGt(kt, h, Keys(before)[i]);
      }
    }
  }

  lemma HighsBefore(kt: BType, nodes: Nodes, i: nat, mid: Nodes, e: Bytes)
    requires HighsOrdered(kt, nodes) && StopsAt(kt, KeyOf(kt, e), nodes, i)
    requires forall m, x :: 0 <= m < |mid| && x in Keys(mid[m]) ==> x == e || x in Keys(nodes[i])
    ensures forall j, m :: 0 <= j < i && 0 <= m < |mid| ==> HighBounds(kt, nodes[j], mid[m])
  {
    hide KeyOf, Keys, HighBounds, Pos;
    forall j, m | 0 <= j < i && 0 <= m < |mid|
      ensures HighBounds(kt, nodes[j], mid[m])
    {
      assert MovesRight(kt, KeyOf(kt, e), nodes[j]);
      assert HighBounds(kt, nodes[j], nodes[i]);
      HighBoundsGrown(kt, nodes[j], nodes[i], mid[m], e);
    }
  }

  /** The chain invariant. src selects where a split's right page takes its high key from. */
  ghost predicate ChainOk(kt: BType, nodes: Nodes, src: nat) {
    && (forall i :: 0 <= i < |nodes| ==> nodes[i] != [])
    && Sorted(kt, ChainKeys(nodes))
    && HighsOrdered(kt, nodes)
    && (src == HIGH_KEY ==> KeysUnderHighs(kt, nodes))
  }

  /** Insertion without a split. */
  lemma AfterInsert(kt: BType, nodes: Nodes, i: nat, e: Bytes, src: nat)
    requires ChainOk(kt, nodes, src) && StopsAt(kt, KeyOf(kt, e), nodes, i)
    ensures var page := InsertAt(nodes[i], Pos(kt, KeyOf(kt, e), Keys(nodes[i])) + 1, e);
            && ChainKeys(Replaced(nodes, i, [page])) == Inserted(kt, ChainKeys(nodes), e)
            && ChainOk(kt, Replaced(nodes, i, [page]), src)
  {
    hide Pos, KeyOf, ChainKeys, HighsOrdered, Sorted, KeyGt, KeysUnderHighs;
    var p := Pos(kt, KeyOf(kt, e), Keys(nodes[i]));
    var page := InsertAt(nodes[i], p + 1, e);
    assert Keys(page) == InsertAt(Keys(nodes[i]), p, e);
    OneNode(page);
    ReplacedKeys(kt, nodes, i, [page], e);
    InsertedSorted(kt, ChainKeys(nodes), e);
    HighsAfterInsert(kt, nodes, i, e, page);
    if src == HIGH_KEY {
      UnderHighAfterInsert(kt, nodes, i, e, page);
    }
  }

  lemma OneNode(page: seq<Bytes>)
    ensures ChainKeys([page]) == Keys(page)
  {
    assert [page][..0] == [];
  }

  lemma TwoNodes(left: seq<Bytes>, right: seq<Bytes>)
    ensures ChainKeys([left, right]) == Keys(left) + Keys(right)
  {
    hide ChainKeys, Keys;
    assert [left, right] == [left] + [right];
    ChainConcat([left], [right]);
    OneNode(left);
    OneNode(right);
  }

  lemma HighsAfterInsert(kt: BType, nodes: Nodes, i: nat, e: Bytes, page: seq<Bytes>)
    requires HighsOrdered(kt, nodes) && StopsAt(kt, KeyOf(kt, e), nodes, i)
    requires page != [] && page[HIGH_KEY] == nodes[i][HIGH_KEY]
    requires Keys(page) == Inserted(kt, Keys(nodes[i]), e)
    ensures HighsOrdered(kt, Replaced(nodes, i, [page]))
  {
    hide Pos, KeyOf, Keys, NoneBelow, MovesRight;
    forall x | x in Keys(page)
      ensures x == e || x in Keys(nodes[i])
    {
    }
    HighsBefore(kt, nodes, i, [page], e);
    forall j | i < j < |nodes|
      ensures HighBounds(kt, page, nodes[j])
    {
      assert HighBounds(kt, nodes[i], nodes[j]);
    }
    HighsReplaced(kt, nodes, i, [page]);
  }

  /** A key that stops at a page does not exceed its high key, if the keys there do not. */
  lemma UnderHighGrown(kt: BType, slots: seq<Bytes>, e: Bytes, after: seq<Bytes>)
    requires UnderHigh(kt, slots)
    requires Pos(kt, KeyOf(kt, e), Keys(slots)) < |Keys(slots)| || !KeyGt(kt, KeyOf(kt, e), slots[HIGH_KEY])
    requires after != [] && after[HIGH_KEY] == slots[HIGH_KEY]
    requires forall x :: x in Keys(after) ==> x == e || x in Keys(slots)
    ensures UnderHigh(kt, after)
  {
    hide KeyOf, Keys, Gt, Pos;
    var p, k := Pos(kt, KeyOf(kt, e), Keys(slots)), KeyOf(kt, e);
    GtOrder();
    if p < |Keys(slots)| {
      assert !KeyGt(kt, k, Keys(slots)[p]);
      assert !KeyGt(kt, KeyOf(kt, Keys(slots)[p]), slots[HIGH_KEY]);
    }
  }

  lemma UnderHighsReplaced(kt: BType, nodes: Nodes, i: nat, mid: Nodes)
    requires i < |nodes| && |mid| > 0 && KeysUnderHighs(kt, nodes)
    requires forall m :: 0 <= m < |mid| - 1 ==> UnderHigh(kt, mid[m])
    requires i < |nodes| - 1 ==> UnderHigh(kt, mid[|mid| - 1])
    ensures KeysUnderHighs(kt, Replaced(nodes, i, mid))
  {
    hide UnderHigh;
    var r, n := Replaced(nodes, i, mid), |mid|;
    forall a | 0 <= a < |r| - 1
      ensures UnderHigh(kt, r[a])
    {
      assert r[a] == if a < i then nodes[a] else if a < i + n then mid[a - i] else nodes[a - n + 1];
    }
  }

  lemma UnderHighAfterInsert(kt: BType, nodes: Nodes, i: nat, e: Bytes, page: seq<Bytes>)
    requires KeysUnderHighs(kt, nodes) && StopsAt(kt, KeyOf(kt, e), nodes, i)
    requires page != [] && page[HIGH_KEY] == nodes[i][HIGH_KEY]
    requires Keys(page) == Inserted(kt, Keys(nodes[i]), e)
    ensures KeysUnderHighs(kt, Replaced(nodes, i, [page]))
  {
    hide KeyOf, Keys, KeyGt, Pos, MovesRight, UnderHigh;
    if i < |nodes| - 1 {
      UnderHighGrown(kt, nodes[i], e, page);
    }
    UnderHighsReplaced(kt, nodes, i, [page]);
  }

  /** Insertion with a split that leaves c of the entries, the new one among them, on the left. */
  lemma AfterSplit(kt: BType, nodes: Nodes, i: nat, e: Bytes, src: nat, c: nat)
    requires ChainOk(kt, nodes, src) && StopsAt(kt, KeyOf(kt, e), nodes, i)
    requires src <= 1 && src < |nodes[i]| && c <= |Keys(nodes[i])|
    ensures var v := Inserted(kt, Keys(nodes[i]), e);
            var pages := [[v[c]] + v[..c], [nodes[i][src]] + v[c..]];
            && ChainKeys(Replaced(nodes, i, pages)) == Inserted(kt, ChainKeys(nodes), e)
            && ChainOk(kt, Replaced(nodes, i, pages), src)
  {
    hide Pos, KeyOf, ChainKeys, HighsOrdered, Sorted, KeyGt, KeysUnderHighs, Inserted;
    var v := Inserted(kt, Keys(nodes[i]), e);
    var left, right := [v[c]] + v[..c], [nodes[i][src]] + v[c..];
    assert Keys(left) == v[..c] && Keys(right) == v[c..];
    TwoNodes(left, right);
    assert v[..c] + v[c..] == v;
    ReplacedKeys(kt, nodes, i, [left, right], e);
    InsertedSorted(kt, ChainKeys(nodes), e);
    InsertedFrom(kt, Keys(nodes[i]), e);
    HighsAfterSplit(kt, nodes, i, e, src, left, right);
    if src == HIGH_KEY {
      UnderHighAfterSplit(kt, nodes, i, e, left, right);
    }
  }

  lemma InsertedFrom(kt: BType, keys: seq<Bytes>, e: Bytes)
    ensures forall x :: x in Inserted(kt, keys, e) ==> x == e || x in keys
  {
    hide Pos;
  }

  lemma ReplacedAt(nodes: Nodes, i: nat, left: seq<Bytes>, right: seq<Bytes>)
    requires i < |nodes|
    ensures |Replaced(nodes, i, [left, right])| == |nodes| + 1
    ensures Replaced(nodes, i, [left, right])[i] == left && Replaced(nodes, i, [left, right])[i + 1] == right
    ensures forall j :: i < j < |nodes| ==> Replaced(nodes, i, [left, right])[j + 1] == nodes[j]
  {
  }

  /** The first key of the right page bounds the right page and every later page from below. */
  lemma FirstKeyBounds(kt: BType, nodes: Nodes, i: nat, j: nat, high: Bytes)
    requires Sorted(kt, ChainKeys(nodes)) && i <= j < |nodes| && Keys(nodes[i]) != [] && Keys(nodes[i])[0] == high
    ensures NoneBelow(kt, KeyOf(kt, high), Keys(nodes[j]))
  {
    hide KeyOf, Keys, ChainKeys, Gt, Sorted;
    GtOrder();
    forall b | 0 <= b < |Keys(nodes[j])|
      ensures !KeyGt(kt, KeyOf(kt, high), Keys(nodes[j])[b])
    {
      if i < j || 0 < b {
        SortedAcross(kt, nodes, i, j, 0, b);
      }
    }
  }

  lemma HighsAfterSplit(kt: BType, nodes: Nodes, i: nat, e: Bytes, src: nat, left: seq<Bytes>, right: seq<Bytes>)
    requires HighsOrdered(kt, nodes) && StopsAt(kt, KeyOf(kt, e), nodes, i) && Sorted(kt, ChainKeys(nodes))
    requires Sorted(kt, ChainKeys(Replaced(nodes, i, [left, right])))
    requires src <= 1 && src < |nodes[i]|
    requires left != [] && right != [] && right[HIGH_KEY] == nodes[i][src] && Keys(right) != []
    requires left[HIGH_KEY] == Keys(right)[0]
    requires forall x :: x in Keys(left) || x in Keys(right) ==> x == e || x in Keys(nodes[i])
    ensures HighsOrdered(kt, Replaced(nodes, i, [left, right]))
  {
    hide Pos, KeyOf, ChainKeys, Sorted, MovesRight, NoneBelow, Replaced, Keys, HighBounds;
    var mid, r := [left, right], Replaced(nodes, i, [left, right]);
    ReplacedAt(nodes, i, left, right);
    FirstKeyHighBounds(kt, r, i + 1, i + 1, left);
    forall j | i < j < |nodes|
      ensures HighBounds(kt, left, nodes[j]) && HighBounds(kt, right, nodes[j])
    {
      assert r[j + 1] == nodes[j];
      FirstKeyHighBounds(kt, r, i + 1, j + 1, left);
      RightHighBounds(kt, nodes, i, j, src, right);
    }
    HighsBefore(kt, nodes, i, mid, e);
    HighsReplaced(kt, nodes, i, mid);
  }

  lemma FirstKeyHighBounds(kt: BType, nodes: Nodes, i: nat, j: nat, left: seq<Bytes>)
    requires Sorted(kt, ChainKeys(nodes)) && i <= j < |nodes|
    requires Keys(nodes[i]) != [] && left != [] && left[HIGH_KEY] == Keys(nodes[i])[0]
    ensures HighBounds(kt, left, nodes[j])
  {
    hide KeyOf, ChainKeys, Sorted, NoneBelow;
    FirstKeyBounds(kt, nodes, i, j, left[HIGH_KEY]);
  }

  lemma RightHighBounds(kt: BType, nodes: Nodes, i: nat, j: nat, src: nat, right: seq<Bytes>)
    requires HighsOrdered(kt, nodes) && Sorted(kt, ChainKeys(nodes)) && i < j < |nodes|
    requires src <= 1 && src < |nodes[i]| && right != [] && right[HIGH_KEY] == nodes[i][src]
    ensures HighBounds(kt, right, nodes[j])
  {
    hide KeyOf, ChainKeys, Sorted, NoneBelow;
    assert HighBounds(kt, nodes[i], nodes[j]);
    if src == 1 {
      FirstKeyBounds(kt, nodes, i, j, nodes[i][src]);
    }
  }

  lemma UnderHighAfterSplit(kt: BType, nodes: Nodes, i: nat, e: Bytes, left: seq<Bytes>, right: seq<Bytes>)
    requires KeysUnderHighs(kt, nodes) && StopsAt(kt, KeyOf(kt, e), nodes, i)
    requires Sorted(kt, ChainKeys(Replaced(nodes, i, [left, right])))
    requires left != [] && right != [] && right[HIGH_KEY] == nodes[i][HIGH_KEY] && Keys(right) != []
    requires left[HIGH_KEY] == Keys(right)[0]
    requires forall x :: x in Keys(right) ==> x == e || x in Keys(nodes[i])
    ensures KeysUnderHighs(kt, Replaced(nodes, i, [left, right]))
  {
    hide Pos, KeyOf, ChainKeys, Sorted, MovesRight, Replaced, Keys, KeyGt;
    var r := Replaced(nodes, i, [left, right]);
    ReplacedAt(nodes, i, left, right);
    forall x | x in Keys(left)
      ensures !KeyGt(kt, KeyOf(kt, x), left[HIGH_KEY])
    {
      var a :| 0 <= a < |Keys(left)| && Keys(left)[a] == x;
      SortedAcross(kt, r, i, i + 1, a, 0);
    }
    if i < |nodes| - 1 {
      assert UnderHigh(kt, nodes[i]);
      UnderHighGrown(kt, nodes[i], e, right);
    }
    UnderHighsReplaced(kt, nodes, i, [left, right]);
  }
}
