/** When a split, with the right page's high key read from the first key as written, leaves the keys of every
    page under its high key. */
module IndexHighs {
  import opened PageLayout
  import opened Types
  import opened Codec
  import opened IndexOrder
  import IndexSplit
  import opened IndexChain
  import IndexMachine

  /** Neither the page's last key nor the new one exceeds its first key. */
  predicate Level(kt: BType, slots: seq<Bytes>, e: Bytes) {
    && |slots| >= 2 && !KeyGt(kt, KeyOf(kt, slots[|slots| - 1]), slots[1])
    && !KeyGt(kt, KeyOf(kt, e), slots[1])
  }

  lemma InsertedHas(keys: seq<Bytes>, p: nat, e: Bytes)
    requires p <= |keys|
    ensures forall x :: x in InsertAt(keys, p, e) <==> x == e || x in keys
  {
    assert InsertAt(keys, p, e)[p] == e;
    assert forall i :: 0 <= i < |keys| ==> keys[i] == InsertAt(keys, p, e)[if i < p then i else i + 1];
  }

  lemma LastIsTop(kt: BType, es: seq<Bytes>)
    requires Sorted(kt, es) && es != []
    ensures forall x :: x in es ==> !KeyGt(kt, KeyOf(kt, x), es[|es| - 1])
  {
    hide KeyOf, Gt;
    GtOrder();
  }

  /** One split: the right page starts with the old page's first key as its high key. */
  lemma RightUnderHighExactly(kt: BType, slots: seq<Bytes>, e: Bytes, c: nat)
    requires Sorted(kt, Keys(slots)) && |slots| >= 2 && c < |slots|
    ensures var v := Inserted(kt, Keys(slots), e);
            c < |v| && (UnderHigh(kt, [slots[1]] + v[c..]) <==> Level(kt, slots, e))
  {
    hide KeyOf, Gt, Pos, Sorted;
    var keys, p := Keys(slots), Pos(kt, KeyOf(kt, e), Keys(slots));
    var v := Inserted(kt, keys, e);
    GtOrder();
    InsertedSorted(kt, keys, e);
    InsertedHas(keys, p, e);
    LastIsTop(kt, keys);
    LastIsTop(kt, v);
    var right, last := [slots[1]] + v[c..], v[|v| - 1];
    assert Keys(right) == v[c..] && v[c..][|v| - 1 - c] == last && last in Keys(right);
    assert keys[|keys| - 1] == slots[|slots| - 1] && slots[|slots| - 1] in keys;
    forall x | x in v[c..]
      ensures x in v
    {
      var j :| 0 <= j < |v| - c && v[c..][j] == x;
      assert v[c + j] == x;
    }
  }

  lemma PageSorted(kt: BType, nodes: Nodes, i: nat)
    requires Sorted(kt, ChainKeys(nodes)) && i < |nodes|
    ensures Sorted(kt, Keys(nodes[i]))
  {
    hide KeyOf, Keys, ChainKeys, Gt, Sorted;
    forall a, b | 0 <= a < b < |Keys(nodes[i])|
      ensures !Gt(KeyOf(kt, Keys(nodes[i])[a]), KeyOf(kt, Keys(nodes[i])[b]))
    {
      SortedAcross(kt, nodes, i, i, a, b);
    }
    SortedIs(kt, Keys(nodes[i]));
  }

  lemma SortedIs(kt: BType, es: seq<Bytes>)
    requires forall a, b :: 0 <= a < b < |es| ==> !Gt(KeyOf(kt, es[a]), KeyOf(kt, es[b]))
    ensures Sorted(kt, es)
  {
  }

  /** One insertion into a chain whose keys are under their high keys. They still are afterwards exactly if
      the page does not split, or is the last, or its keys and the new one are level. */
  lemma HighsKeptExactly(kt: BType, nodes: Nodes, e: Bytes)
    requires IndexMachine.Ok(kt, nodes, 1) && KeysUnderHighs(kt, nodes)
    ensures IndexMachine.Headed(nodes)
    ensures var i := IndexMachine.StopFrom(kt, KeyOf(kt, e), nodes, 0);
            KeysUnderHighs(kt, IndexMachine.NodesAfter(kt, nodes, e, 1))
            <==> AddOutcome(IndexSplit.NODE_CAPACITY - Cost(nodes[i]), |e|) != Full || |nodes[i]| <= 1
                 || i == |nodes| - 1
                 || Level(kt, nodes[i], e)
  {
    hide Pos, KeyOf, ChainKeys, IndexSplit.LeftCount, AddOutcome, Cost, StopsAt, HighsOrdered, Replaced,
         KeysUnderHighs, Level,
         Sorted, Inserted, UnderHigh, IndexMachine.StopFrom, KeyGt;
    IndexMachine.OkHeaded(kt, nodes, 1);
    var i := IndexMachine.StopFrom(kt, KeyOf(kt, e), nodes, 0);
    var slots := nodes[i];
    IndexMachine.StopsWhereItStops(kt, KeyOf(kt, e), nodes);
    var p := Pos(kt, KeyOf(kt, e), Keys(slots));
    if AddOutcome(IndexSplit.NODE_CAPACITY - Cost(slots), |e|) != Full || |slots| <= 1 {
      InsertedPage(kt, slots, e);
      UnderHighAfterInsert(kt, nodes, i, e, InsertAt(slots, p + 1, e));
    } else {
      var v := Inserted(kt, Keys(slots), e);
      PageSorted(kt, nodes, i);
      var c := IndexSplit.LeftCount(v, p);
      RightUnderHighExactly(kt, slots, e, c);
      SplitHighs(kt, nodes, i, v, c, slots[1], e);
    }
  }

  lemma InsertedPage(kt: BType, slots: seq<Bytes>, e: Bytes)
    requires slots != []
    ensures var page := InsertAt(slots, Pos(kt, KeyOf(kt, e), Keys(slots)) + 1, e);
            page != [] && page[HIGH_KEY] == slots[HIGH_KEY] && Keys(page) == Inserted(kt, Keys(slots), e)
  {
    hide KeyOf, Pos;
  }

  lemma SplitHighs(kt: BType, nodes: Nodes, i: nat, v: seq<Bytes>, c: nat, high: Bytes, e: Bytes)
    requires i < |nodes| && KeysUnderHighs(kt, nodes) && c < |v| && v == Inserted(kt, Keys(nodes[i]), e)
    requires Sorted(kt, Keys(nodes[i]))
    ensures KeysUnderHighs(kt, Replaced(nodes, i, [[v[c]] + v[..c], [high] + v[c..]]))
            <==> i == |nodes| - 1 || UnderHigh(kt, [high] + v[c..])
  {
    hide KeyOf, UnderHigh, Sorted, Replaced, Inserted, KeyGt;
    var left, right := [v[c]] + v[..c], [high] + v[c..];
    ReplacedAt(nodes, i, left, right);
    InsertedSorted(kt, Keys(nodes[i]), e);
    LeftUnderHigh(kt, v, c);
    if i == |nodes| - 1 || UnderHigh(kt, right) {
      UnderHighsReplaced(kt, nodes, i, [left, right]);
    }
  }

  lemma LeftUnderHigh(kt: BType, v: seq<Bytes>, c: nat)
    requires Sorted(kt, v) && c < |v|
    ensures UnderHigh(kt, [v[c]] + v[..c])
  {
    hide KeyOf, Gt;
    assert Keys([v[c]] + v[..c]) == v[..c];
  }
}
