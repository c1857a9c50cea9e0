/** The order of index entries: the lower bound, insertion there, and what a sorted list of entries
    keeps under it. An index is specified by the list its pages spell out. */
module IndexOrder {
  import opened PageLayout
  import opened Types
  import opened Codec

  predicate KeyGt(kt: BType, k: Datum, e: Bytes) {
    Gt(k, KeyOf(kt, e))
  }

  /** The first entry not below k; the end if there is none. */
  function Pos(kt: BType, k: Datum, es: seq<Bytes>): (p: nat)
    ensures p <= |es|
    ensures forall i :: 0 <= i < p ==> KeyGt(kt, k, es[i])
    ensures p < |es| ==> !KeyGt(kt, k, es[p])
  {
    hide KeyGt;
    if es == [] || !KeyGt(kt, k, es[0]) then 0 else 1 + Pos(kt, k, es[1..])
  }

  lemma {:induction false} PosUnique(kt: BType, k: Datum, es: seq<Bytes>, p: nat)
    requires p <= |es|
    requires forall i :: 0 <= i < p ==> KeyGt(kt, k, es[i])
    requires p < |es| ==> !KeyGt(kt, k, es[p])
    ensures Pos(kt, k, es) == p
  {
    hide KeyGt;
    if p > 0 {
      PosUnique(kt, k, es[1..], p - 1);
    }
  }

  ghost predicate Sorted(kt: BType, es: seq<Bytes>) {
    forall i, j :: 0 <= i < j < |es| ==> !Gt(KeyOf(kt, es[i]), KeyOf(kt, es[j]))
  }

  /** Specification of one index insertion: put the entry at its lower bound. */
  function Inserted(kt: BType, es: seq<Bytes>, e: Bytes): (r: seq<Bytes>)
    ensures |r| == |es| + 1
  {
    InsertAt(es, Pos(kt, KeyOf(kt, e), es), e)
  }

  lemma InsertedSorted(kt: BType, es: seq<Bytes>, e: Bytes)
    requires Sorted(kt, es)
    ensures Sorted(kt, Inserted(kt, es, e))
  {
    hide KeyOf, Gt;
    GtOrder();
    var k := KeyOf(kt, e);
    var p, r := Pos(kt, k, es), Inserted(kt, es, e);
    forall i, j | 0 <= i < j < |r|
      ensures !Gt(KeyOf(kt, r[i]), KeyOf(kt, r[j]))
    {
      if j == p {
        assert KeyGt(kt, k, es[i]);
      } else if i == p {
        assert !Gt(k, KeyOf(kt, es[p]));
        if p < j - 1 {
          assert !Gt(KeyOf(kt, es[p]), KeyOf(kt, es[j - 1]));
        }
      } else {
        var i', j' := if i < p then i else i - 1, if j < p then j else j - 1;
        assert r[i] == es[i'] && r[j] == es[j'];
      }
    }
  }

  lemma InsertedMultiset(kt: BType, es: seq<Bytes>, e: Bytes)
    ensures multiset(Inserted(kt, es, e)) == multiset(es) + multiset{e}
  {
    hide Pos;
    var p := Pos(kt, KeyOf(kt, e), es);
    assert es == es[..p] + es[p..];
  }

  /** Specification of an index build. */
  function InsertedAll(kt: BType, es: seq<Bytes>): (r: seq<Bytes>)
    ensures |r| == |es|
  {
    if es == [] then [] else Inserted(kt, InsertedAll(kt, es[..|es| - 1]), es[|es| - 1])
  }

  lemma SortedEmpty(kt: BType)
    ensures Sorted(kt, [])
  {
  }

  /** A build sorts: its result is ordered by key and is a permutation of what went in. */
  lemma {:induction false} BuildSorts(kt: BType, es: seq<Bytes>)
    ensures Sorted(kt, InsertedAll(kt, es))
    ensures multiset(InsertedAll(kt, es)) == multiset(es)
  {
    hide Inserted, Sorted, KeyOf, Gt;
    if es == [] {
      SortedEmpty(kt);
    } else {
      var init, last := es[..|es| - 1], es[|es| - 1];
      BuildSorts(kt, init);
      InsertedSorted(kt, InsertedAll(kt, init), last);
      InsertedMultiset(kt, InsertedAll(kt, init), last);
      assert es == init + [last];
    }
  }

  // ----- one page

  const HIGH_KEY: nat := 0
  const LEAF_PAGE: nat := 1
  const ROOT_PAGE: nat := 2
  const NULL_PAGE: nat := 0

  predicate IsLeaf(flags: nat) {
    flags % 2 == 1
  }

  /** BTreePageGetFirstKey. */
  function FirstKey(flags: nat): nat {
    if IsLeaf(flags) then 1 else 2
  }

  /** The entries of a leaf: everything after the high key. */
  function Keys(slots: seq<Bytes>): seq<Bytes> {
    if slots == [] then [] else slots[1..]
  }

  /** GetInsertionIdx on a leaf: the slot of the first key not below k; failing that the end of the
      page, or HIGH_KEY to send the caller right. */
  function InsertionIdx(kt: BType, k: Datum, slots: seq<Bytes>, rightmost: bool): (r: nat)
    requires |slots| >= 1
    ensures r <= |slots|
  {
    var p := Pos(kt, k, Keys(slots));
    if p < |slots| - 1 || rightmost || !KeyGt(kt, k, slots[HIGH_KEY]) then p + 1 else HIGH_KEY
  }
}
