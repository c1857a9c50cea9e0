/** The order the whole exchange sort leaves rows of one key in, and when it is the order they came in. */
module SortStability {
  import opened Types
  import opened Codec
  import opened Relations
  import opened SortOrder

  /** x goes before the rows with key d. */
  predicate Below(s: Sorting, x: Row, d: Datum) {
    if s.desc then Gt(Key(s, x), d) else Gt(d, Key(s, x))
  }

  function Turned(rows: seq<Row>): (r: seq<Row>)
    ensures |r| == |rows|
  {
    if rows == [] then [] else rows[1..] + [rows[0]]
  }

  /** The rows of key d as the sort takes in one row after the other: a row of this key goes to the end, a row
      that goes before them turns them by one, any other leaves them alone. */
  function RunOf(s: Sorting, d: Datum, rows: seq<Row>): seq<Row> {
    if rows == [] then [] else
      var x, before := rows[|rows| - 1], RunOf(s, d, rows[..|rows| - 1]);
      if Key(s, x) == d then before + [x] else if Below(s, x, d) then Turned(before) else before
  }

  lemma BelowIs(s: Sorting, x: Row, y: Row)
    requires Typed(s, x) && Typed(s, y)
    ensures Before(s, x, y) <==> Below(s, x, Key(s, y))
    ensures Below(s, x, Key(s, y)) ==> Key(s, x) != Key(s, y)
  {
    hide GetName, Gt;
    BeforeIs(s, x, y);
    GtOrder();
  }

  lemma TurnFirst(y: Row, rest: seq<Row>)
    ensures Turned([y] + rest) == rest + [y]
    ensures Turned([]) == []
  {
    assert ([y] + rest)[1..] == rest;
  }

  /** Pushing a row through rows that are not below it turns every run. */
  lemma {:induction false} PushTurns(s: Sorting, d: Datum, y: Row, rest: seq<Row>)
    requires Ordered(s, [y] + rest)
    ensures WithKey(s, d, Through(s, y, rest)) == Turned(WithKey(s, d, [y] + rest))
    decreases |rest|
  {
    hide Before, Key, Ordered, Typed, WithKey, Turned;
    OrderedTail(s, [y] + rest);
    assert ([y] + rest)[1..] == rest;
    WithFirst(s, d, y, rest);
    TurnFirst(y, WithKey(s, d, rest));
    if rest == [] {
      WithFirst(s, d, y, []);
      TurnFirst(y, []);
      assert [y] + rest == [y] && [] + [y] == [y] && [y] + [] == [y];
    } else {
      var z, more := rest[0], rest[1..];
      assert rest == [z] + more && ([y] + rest)[1] == z;
      KeyFacts(s, y, z);
      WithFirst(s, d, z, more);
      if Before(s, y, z) {
        KeysApart(s, y, rest);
        PushTurns(s, d, z, more);
        WithFirst(s, d, y, Through(s, z, more));
        if Key(s, y) == d {
          WithNone(s, d, rest);
        } else {
          assert [] + WithKey(s, d, rest) == WithKey(s, d, rest);
        }
      } else {
        OrderedWithout(s, y, z, more);
        PushTurns(s, d, y, more);
        WithFirst(s, d, y, more);
        TurnFirst(y, WithKey(s, d, more));
        WithFirst(s, d, z, Through(s, y, more));
        if Key(s, y) == d {
          assert [z] + (WithKey(s, d, more) + [y]) == ([z] + WithKey(s, d, more)) + [y];
        } else {
          assert [] + WithKey(s, d, rest) == WithKey(s, d, rest)
                 && [] + WithKey(s, d, more) == WithKey(s, d, more);
        }
      }
    }
  }

  /** One round on the rows of one key. */
  lemma {:induction false} ThroughRun(s: Sorting, d: Datum, x: Row, rows: seq<Row>)
    requires Ordered(s, rows) && Typed(s, x)
    ensures WithKey(s, d, Through(s, x, rows)) ==
            var before := WithKey(s, d, rows);
            if Key(s, x) == d then before + [x] else if Below(s, x, d) then Turned(before) else before
    decreases |rows|
  {
    hide Before, Key, Ordered, Typed, WithKey, Turned, Below;
    if rows == [] {
      WithFirst(s, d, x, []);
      TurnFirst(x, []);
      assert rows == [] && [x] + [] == [x] && [] + [x] == [x];
    } else {
      OrderedTail(s, rows);
      var y, rest := rows[0], rows[1..];
      assert rows == [y] + rest;
      WithFirst(s, d, y, rest);
      if Before(s, x, y) {
        PushTurns(s, d, y, rest);
        OrderedWith(s, x, rows);
        KeysApart(s, x, rows);
        WithFirst(s, d, x, Through(s, y, rest));
        TurnFirst(x, []);
        if Key(s, x) == d {
          WithNone(s, d, rows);
        } else if !Below(s, x, d) {
          AllAbove(s, d, x, rows);
          WithNone(s, d, rows);
        }
      } else {
        ThroughRun(s, d, x, rest);
        WithFirst(s, d, y, Through(s, x, rest));
        BelowIs(s, x, y);
        var one, rests := if Key(s, y) == d then [y] else [], WithKey(s, d, rest);
        assert one + (rests + [x]) == (one + rests) + [x] && [] + Turned(rests) == Turned(rests) && [] + rests == rests;
      }
    }
  }

  lemma AllAbove(s: Sorting, d: Datum, x: Row, rows: seq<Row>)
    requires Ordered(s, [x] + rows) && rows != [] && Before(s, x, rows[0]) && !Below(s, x, d)
    ensures forall i :: 0 <= i < |rows| ==> Key(s, rows[i]) != d
  {
    hide Before, Key, Typed, Below;
    var all := [x] + rows;
    forall i | 0 <= i < |rows|
      ensures Key(s, rows[i]) != d
    {
      assert all[i + 1] == rows[i] && all[1] == rows[0] && all[0] == x;
      assert all[i + 1] in all && all[1] in all && all[0] in all;
      if i > 0 {
        BeforeChain(s, x, rows[0], rows[i]);
      }
      BelowIs(s, x, rows[i]);
    }
  }

  lemma RunStep(s: Sorting, d: Datum, init: seq<Row>, x: Row)
    ensures RunOf(s, d, init + [x]) ==
            var before := RunOf(s, d, init);
            if Key(s, x) == d then before + [x] else if Below(s, x, d) then Turned(before) else before
    ensures WithKey(s, d, init + [x]) == WithKey(s, d, init) + if Key(s, x) == d then [x] else []
  {
    hide Key, Below, Turned, WithKey;
    assert (init + [x])[..|init + [x]| - 1] == init;
    WithConcat(s, d, init, [x]);
    WithFirst(s, d, x, []);
    assert [x] + [] == [x];
  }

  /** The whole sort, key by key. */
  lemma {:induction false} SortRuns(s: Sorting, d: Datum, rows: seq<Row>)
    requires Keyed(s, rows)
    ensures WithKey(s, d, SortRows(s, rows)) == RunOf(s, d, rows)
  {
    hide Key, Below, Turned, WithKey, Typed, Before, Through, RunOf;
    if rows == [] {
      WithFirst(s, d, [], []);
      assert RunOf(s, d, []) == [] by { NoRun(s, d); }
    } else {
      var init, x := rows[..|rows| - 1], rows[|rows| - 1];
      assert rows == init + [x] && x in rows && forall r :: r in init ==> r in rows;
      SortRuns(s, d, init);
      RunStep(s, d, init, x);
      SortOrdered(s, init);
      ThroughRun(s, d, x, SortRows(s, init));
    }
  }

  lemma NoRun(s: Sorting, d: Datum)
    ensures RunOf(s, d, []) == []
  {
  }

  lemma SortOrdered(s: Sorting, rows: seq<Row>)
    requires Keyed(s, rows)
    ensures Ordered(s, SortRows(s, rows))
  {
    hide SortRows, Typed, InOrder;
    assert forall i :: 0 <= i < |rows| ==> rows[i] in rows;
    SortMeaning(s, rows);
    forall x | x in SortRows(s, rows)
      ensures Typed(s, x)
    {
      assert x in multiset(rows);
    }
  }

  lemma {:induction false} WithKeyIn(s: Sorting, d: Datum, rows: seq<Row>)
    ensures forall r :: r in WithKey(s, d, rows) <==> r in rows && Key(s, r) == d
  {
    hide Key;
    if rows != [] {
      assert rows == [rows[0]] + rows[1..];
      WithKeyIn(s, d, rows[1..]);
    }
  }

  lemma FirstKeys(s: Sorting, a: seq<Row>, b: seq<Row>)
    requires Ordered(s, a) && Ordered(s, b) && SameOrder(s, a, b) && a != []
    ensures b != [] && !Before(s, a[0], b[0])
  {
    hide Key, WithKey, Before, Typed;
    var d := Key(s, a[0]);
    WithKeyIn(s, d, a);
    WithKeyIn(s, d, b);
    assert WithKey(s, d, a) == WithKey(s, d, b) && a[0] in a && a[0] in b;
    var i :| 0 <= i < |b| && b[i] == a[0];
    BeforeOrder(s, b[0], b[0], b[0]);
  }

  /** Key order and the order for every key leave one arrangement: with SortRuns it is that of the sort. */
  lemma {:induction false} OrderDetermines(s: Sorting, a: seq<Row>, b: seq<Row>)
    requires Ordered(s, a) && Ordered(s, b) && SameOrder(s, a, b)
    ensures a == b
  {
    hide Key, WithKey, Before, Typed, SameOrder, Ordered;
    if a == [] {
      if b != [] {
        assert SameOrder(s, b, a) by { SameBack(s, a, b); }
        FirstKeys(s, b, a);
      }
    } else {
      SameBack(s, a, b);
      FirstKeys(s, a, b);
      FirstKeys(s, b, a);
      OrderedTail(s, a);
      OrderedTail(s, b);
      KeyFacts(s, a[0], b[0]);
      assert a == [a[0]] + a[1..] && b == [b[0]] + b[1..];
      SameFirstRow(s, a, b);
      SortOrder.SameFirst(s, a[0], a[1..], b[1..]);
      OrderDetermines(s, a[1..], b[1..]);
    }
  }

  lemma SameBack(s: Sorting, a: seq<Row>, b: seq<Row>)
    requires SameOrder(s, a, b)
    ensures SameOrder(s, b, a)
  {
    hide WithKey;
  }

  lemma SameFirstRow(s: Sorting, a: seq<Row>, b: seq<Row>)
    requires SameOrder(s, a, b) && a != [] && b != [] && Key(s, a[0]) == Key(s, b[0])
    ensures a[0] == b[0]
  {
    hide Key;
    assert WithKey(s, Key(s, a[0]), a)[0] == a[0] && WithKey(s, Key(s, a[0]), b)[0] == b[0];
  }

  // ----- turning

  function TurnedBy(rows: seq<Row>, n: nat): (r: seq<Row>)
    ensures |r| == |rows|
  {
    if rows == [] then [] else rows[n % |rows|..] + rows[..n % |rows|]
  }

  lemma TurnOnce(rows: seq<Row>, n: nat)
    ensures Turned(TurnedBy(rows, n)) == TurnedBy(rows, n + 1)
  {
    if rows != [] {
      StepMod(n, |rows|);
      TurnAt(rows, n % |rows|);
    }
  }

  lemma TurnAt(rows: seq<Row>, k: nat)
    requires k < |rows|
    ensures Turned(rows[k..] + rows[..k]) ==
            if k + 1 == |rows| then rows[0..] + rows[..0] else rows[k + 1..] + rows[..k + 1]
  {
    assert rows[k..] + rows[..k] == [rows[k]] + (rows[k + 1..] + rows[..k]);
    TurnFirst(rows[k], rows[k + 1..] + rows[..k]);
    assert rows[..k + 1] == rows[..k] + [rows[k]];
    if k + 1 == |rows| {
      assert rows[k + 1..] == [];
    }
  }

  lemma StepMod(n: nat, m: nat)
    requires m > 0
    ensures (n + 1) % m == if n % m + 1 == m then 0 else n % m + 1
    ensures (n + m) % m == n % m
  {
    var q, k := n / m, n % m;
    assert (q + 1) * m == q * m + m;
    ModIs(n + m, q + 1, m, k);
    if k + 1 == m {
      ModIs(n + 1, q + 1, m, 0);
    } else {
      ModIs(n + 1, q, m, k + 1);
    }
  }

  lemma ModIs(n: nat, q: nat, m: nat, k: nat)
    requires k < m && n == q * m + k
    ensures n % m == k
  {
    var d, r := n / m, n % m;
    assert (q - d) * m == r - k;
    Multiple(q - d, m);
  }

  lemma Multiple(a: int, m: int)
    requires m >= 0
    ensures a >= 1 ==> a * m >= m
    ensures a <= -1 ==> a * m <= -m
  {
    if a >= 1 {
      assert a * m == (a - 1) * m + m;
    } else if a <= -1 {
      assert a * m == -((-a - 1) * m) - m;
    }
  }

  lemma TurnedInjective(a: seq<Row>, b: seq<Row>)
    requires Turned(a) == Turned(b)
    ensures a == b
  {
    assert |a| == |Turned(a)| == |b|;
    forall i | 0 <= i < |a|
      ensures a[i] == b[i]
    {
      var j := if i == 0 then |a| - 1 else i - 1;
      assert Turned(a)[j] == a[i] && Turned(b)[j] == b[i];
    }
  }

  lemma TurnBack(rows: seq<Row>, a: seq<Row>, n: nat)
    requires Turned(a) == TurnedBy(rows, n)
    ensures |rows| == |a| && (rows != [] ==> a == TurnedBy(rows, n + |rows| - 1))
  {
    hide Turned;
    assert |a| == |Turned(a)| == |rows|;
    if rows != [] {
      TurnOnce(rows, n + |rows| - 1);
      StepMod(n, |rows|);
      TurnedInjective(a, TurnedBy(rows, n + |rows| - 1));
    }
  }

  ghost predicate AllDifferent(rows: seq<Row>) {
    forall i, j :: 0 <= i < j < |rows| ==> rows[i] != rows[j]
  }

  /** Rows that are all different are back in order only after full turns. */
  lemma TurnedSame(rows: seq<Row>, n: nat)
    requires rows != []
    ensures n % |rows| == 0 ==> TurnedBy(rows, n) == rows
    ensures AllDifferent(rows) && TurnedBy(rows, n) == rows ==> n % |rows| == 0
  {
    assert TurnedBy(rows, n)[0] == rows[n % |rows|];
  }

  /** And the last of them is last only then. */
  lemma TurnedLast(rows: seq<Row>, x: Row, a: seq<Row>, n: nat)
    requires AllDifferent(rows + [x]) && a + [x] == TurnedBy(rows + [x], n)
    ensures a == rows
  {
    var all := rows + [x];
    var m, k := |all|, n % |all|;
    assert all[m - 1] == x;
    var last := if k == 0 then m - 1 else k - 1;
    assert (a + [x])[m - 1] == x && TurnedBy(all, n)[m - 1] == all[last];
    assert TurnedBy(all, n) == all;
    assert (a + [x])[..m - 1] == a && all[..m - 1] == rows;
  }

  // ----- stability

  /** How many rows that go before key d have come since the last row of that key. */
  function Turns(s: Sorting, d: Datum, rows: seq<Row>): nat {
    if rows == [] then 0 else
      var x, before := rows[|rows| - 1], Turns(s, d, rows[..|rows| - 1]);
      if Key(s, x) == d then 0 else if Below(s, x, d) then before + 1 else before
  }

  /** They turn the rows of key d so far, if any, a whole number of times. */
  ghost predicate Whole(s: Sorting, d: Datum, rows: seq<Row>) {
    var so_far := |WithKey(s, d, rows)|;
    so_far == 0 || Turns(s, d, rows) % so_far == 0
  }

  /** So it is before every row of key d. */
  ghost predicate WholeUpTo(s: Sorting, d: Datum, rows: seq<Row>) {
    forall i :: 0 <= i < |rows| && Key(s, rows[i]) == d ==> Whole(s, d, rows[..i])
  }

  lemma WholeStep(s: Sorting, d: Datum, init: seq<Row>, x: Row)
    ensures WholeUpTo(s, d, init + [x]) <==> WholeUpTo(s, d, init) && (Key(s, x) == d ==> Whole(s, d, init))
    ensures WholeUpTo(s, d, [])
    ensures Turns(s, d, []) == 0
    ensures Turns(s, d, init + [x]) ==
            var before := Turns(s, d, init);
            if Key(s, x) == d then 0 else if Below(s, x, d) then before + 1 else before
  {
    hide Key, Below, Whole;
    var rows := init + [x];
    assert rows[..|rows| - 1] == init && rows[|init|] == x;
    assert forall i :: 0 <= i < |init| ==> rows[i] == init[i] && rows[..i] == init[..i];
  }

  /** Then the sort has them in order but for the turns since. */
  lemma {:induction false} WholeRun(s: Sorting, d: Datum, rows: seq<Row>)
    requires WholeUpTo(s, d, rows)
    ensures RunOf(s, d, rows) == TurnedBy(WithKey(s, d, rows), Turns(s, d, rows))
  {
    hide Key, Below, WithKey, WholeUpTo, TurnedBy, Turns, RunOf, Turned;
    if rows == [] {
      NoRun(s, d);
      WithFirst(s, d, [], []);
      WholeStep(s, d, [], []);
      assert TurnedBy([], 0) == [];
    } else {
      var init, x := rows[..|rows| - 1], rows[|rows| - 1];
      assert rows == init + [x];
      WholeStep(s, d, init, x);
      RunStep(s, d, init, x);
      WholeRun(s, d, init);
      var so_far := WithKey(s, d, init);
      if Key(s, x) == d {
        WholeTurned(so_far, Turns(s, d, init));
        WholeTurned(so_far + [x], 0);
      } else {
        TurnOnce(so_far, Turns(s, d, init));
        assert so_far + [] == so_far;
      }
    }
  }

  lemma WholeTurned(rows: seq<Row>, n: nat)
    ensures rows == [] || n % |rows| == 0 ==> TurnedBy(rows, n) == rows
    ensures AllDifferent(rows) ==> (TurnedBy(rows, n) == rows <==> rows == [] || n % |rows| == 0)
    ensures TurnedBy(rows, 0) == rows
  {
    if rows != [] {
      TurnedSame(rows, n);
      TurnedSame(rows, 0);
    }
  }

  /** Otherwise, if they are all different, no turning brings them back in order any more. */
  lemma {:induction false} BrokenRun(s: Sorting, d: Datum, rows: seq<Row>, n: nat)
    requires !WholeUpTo(s, d, rows) && AllDifferent(WithKey(s, d, rows))
    ensures RunOf(s, d, rows) != TurnedBy(WithKey(s, d, rows), n)
    decreases |rows|
  {
    hide Key, Below, WithKey, WholeUpTo, TurnedBy, Turns, RunOf, Turned;
    WholeStep(s, d, [], []);
    var init, x := rows[..|rows| - 1], rows[|rows| - 1];
    assert rows == init + [x];
    WholeStep(s, d, init, x);
    RunStep(s, d, init, x);
    var so_far, run := WithKey(s, d, init), RunOf(s, d, init);
    assert AllDifferent(so_far) by {
      assert forall i :: 0 <= i < |so_far| ==> so_far[i] == WithKey(s, d, rows)[i];
    }
    if RunOf(s, d, rows) == TurnedBy(WithKey(s, d, rows), n) {
      if Key(s, x) == d {
        TurnedLast(so_far, x, run, n);
        WholeTurned(so_far, Turns(s, d, init));
        if WholeUpTo(s, d, init) {
          WholeRun(s, d, init);
        } else {
          BrokenRun(s, d, init, 0);
        }
      } else {
        assert so_far + [] == so_far;
        if Below(s, x, d) {
          TurnBack(so_far, run, n);
          BrokenRun(s, d, init, if so_far == [] then n else n + |so_far| - 1);
        } else {
          BrokenRun(s, d, init, n);
        }
      }
    }
  }

  /** No two rows of the same key are the same row. */
  ghost predicate RowsApart(s: Sorting, rows: seq<Row>) {
    forall i, j :: 0 <= i < j < |rows| && Key(s, rows[i]) == Key(s, rows[j]) ==> rows[i] != rows[j]
  }

  lemma {:induction false} ApartWithKey(s: Sorting, d: Datum, rows: seq<Row>)
    requires RowsApart(s, rows)
    ensures AllDifferent(WithKey(s, d, rows))
    ensures forall r :: r in WithKey(s, d, rows) ==> r in rows && Key(s, r) == d
  {
    hide Key;
    if rows != [] {
      var rest := rows[1..];
      assert rows == [rows[0]] + rest && forall i :: 0 <= i < |rest| ==> rest[i] == rows[i + 1];
      ApartWithKey(s, d, rest);
      if Key(s, rows[0]) == d {
        forall r | r in WithKey(s, d, rest)
          ensures r != rows[0]
        {
          var i :| 0 <= i < |rest| && rest[i] == r;
        }
      }
    }
  }

  /** Between one row of key d and the next, and after the last, the rows that go before them turn those so far
      a whole number of times. */
  ghost predicate KeepsKey(s: Sorting, d: Datum, rows: seq<Row>) {
    WholeUpTo(s, d, rows) && Whole(s, d, rows)
  }

  lemma KeepsKeyExactly(s: Sorting, d: Datum, rows: seq<Row>)
    requires Keyed(s, rows)
    ensures KeepsKey(s, d, rows) ==> WithKey(s, d, SortRows(s, rows)) == WithKey(s, d, rows)
    ensures RowsApart(s, rows) && WithKey(s, d, SortRows(s, rows)) == WithKey(s, d, rows) ==> KeepsKey(s, d, rows)
  {
    hide Key, Below, WithKey, WholeUpTo, TurnedBy, Turns, RunOf, Turned, SortRows, RowsApart;
    SortRuns(s, d, rows);
    var all := WithKey(s, d, rows);
    WholeTurned(all, Turns(s, d, rows));
    if WholeUpTo(s, d, rows) {
      WholeRun(s, d, rows);
    }
    if RowsApart(s, rows) {
      ApartWithKey(s, d, rows);
      if !WholeUpTo(s, d, rows) {
        BrokenRun(s, d, rows, 0);
      }
    }
  }

  /** The sort keeps rows with equal keys in the order they came in if, and where such rows are never the same
      row only if, this holds of the key of every row. */
  lemma SortStableExactly(s: Sorting, rows: seq<Row>)
    requires Keyed(s, rows)
    ensures (forall i :: 0 <= i < |rows| ==> KeepsKey(s, Key(s, rows[i]), rows)) ==>
            SameOrder(s, SortRows(s, rows), rows)
    ensures RowsApart(s, rows) && SameOrder(s, SortRows(s, rows), rows) ==>
              forall i :: 0 <= i < |rows| ==> KeepsKey(s, Key(s, rows[i]), rows)
  {
    hide Key, WithKey, KeepsKey, SortRows, RowsApart;
    forall d
      ensures KeepsKey(s, d, rows) ==> WithKey(s, d, SortRows(s, rows)) == WithKey(s, d, rows)
      ensures RowsApart(s, rows) && WithKey(s, d, SortRows(s, rows)) == WithKey(s, d, rows) ==> KeepsKey(s, d, rows)
      ensures (forall i :: 0 <= i < |rows| ==> Key(s, rows[i]) != d) ==> KeepsKey(s, d, rows)
    {
      KeepsKeyExactly(s, d, rows);
      if forall i :: 0 <= i < |rows| ==> Key(s, rows[i]) != d {
        NoneToKeep(s, d, rows);
      }
    }
  }

  lemma NoneToKeep(s: Sorting, d: Datum, rows: seq<Row>)
    requires forall i :: 0 <= i < |rows| ==> Key(s, rows[i]) != d
    ensures KeepsKey(s, d, rows)
  {
    hide Key;
    WithNone(s, d, rows);
  }
}
