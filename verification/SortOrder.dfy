/** What the exchange sort does to rows with equal keys. */
module SortOrder {
  import opened Types
  import opened Schema
  import opened Codec
  import opened Relations

  function Key(s: Sorting, x: Row): Datum {
    GetName(x, s.cols, s.name)
  }

  /** The first row that x goes before; the end if there is none. */
  function Above(s: Sorting, x: Row, rows: seq<Row>): (k: nat)
    ensures k <= |rows|
  {
    if rows == [] || Before(s, x, rows[0]) then 0 else 1 + Above(s, x, rows[1..])
  }

  /** How many rows at the front share the first row's key. */
  function RunLength(s: Sorting, rows: seq<Row>): (m: nat)
    ensures m <= |rows| && (rows != [] ==> m >= 1)
  {
    if |rows| <= 1 then |rows|
    else if Key(s, rows[0]) != Key(s, rows[1]) then 1
    else 1 + RunLength(s, rows[1..])
  }

  /** Each run of equal keys with its first row moved to its end. */
  function Rotated1(s: Sorting, rows: seq<Row>): (r: seq<Row>)
    decreases |rows|
  {
    if rows == [] then [] else
      var m := RunLength(s, rows);
      rows[1..m] + [rows[0]] + Rotated1(s, rows[m..])
  }

  ghost predicate Ordered(s: Sorting, rows: seq<Row>) {
    InOrder(s, rows) && Keyed(s, rows)
  }

  lemma KeyFacts(s: Sorting, a: Row, b: Row)
    requires Typed(s, a) && Typed(s, b)
    ensures Key(s, a) == Key(s, b) <==> !Before(s, a, b) && !Before(s, b, a)
  {
    hide GetName, Gt;
    BeforeIs(s, a, b);
    BeforeIs(s, b, a);
    GtOrder();
    if !Before(s, a, b) && !Before(s, b, a) {
      GtAntisymmetric(Key(s, a), Key(s, b));
    }
  }

  lemma OrderedTail(s: Sorting, rows: seq<Row>)
    requires Ordered(s, rows) && rows != []
    ensures Ordered(s, rows[1..]) && Typed(s, rows[0])
    ensures forall i :: 1 <= i < |rows| ==> Typed(s, rows[i]) && !Before(s, rows[i], rows[0])
  {
    hide Before, Typed;
    assert rows[0] in rows && forall i :: 1 <= i < |rows| ==> rows[i] in rows && rows[1..][i - 1] == rows[i];
  }

  lemma RotateIs(s: Sorting, rows: seq<Row>)
    requires rows != []
    ensures var m := RunLength(s, rows); m >= 1 && Rotated1(s, rows) == rows[1..m] + [rows[0]] + Rotated1(s, rows[m..])
  {
    hide Key, RunLength;
  }

  lemma RotateSame(s: Sorting, y: Row, z: Row, rest: seq<Row>)
    requires Key(s, y) == Key(s, z)
    ensures Rotated1(s, [y] + ([z] + rest)) == [z] + Rotated1(s, [y] + rest)
  {
    hide Key, Rotated1, RunLength;
    var all, less := [y] + ([z] + rest), [y] + rest;
    RotateIs(s, all);
    RotateIs(s, less);
    RunSame(s, y, z, rest);
    var m := RunLength(s, less);
    SliceSame(y, z, rest, m);
    assert [z] + less[1..m] + [y] + Rotated1(s, less[m..]) == [z] + (less[1..m] + [y] + Rotated1(s, less[m..]));
  }

  lemma SliceSame(y: Row, z: Row, rest: seq<Row>, m: nat)
    requires 1 <= m <= |rest| + 1
    ensures var all, less := [y] + ([z] + rest), [y] + rest;
            all[1..m + 1] == [z] + less[1..m] && all[m + 1..] == less[m..] && all[0] == y == less[0]
  {
  }

  lemma RunSame(s: Sorting, y: Row, z: Row, rest: seq<Row>)
    requires Key(s, y) == Key(s, z)
    ensures RunLength(s, [y] + ([z] + rest)) == 1 + RunLength(s, [y] + rest)
  {
    hide Key;
    assert ([y] + ([z] + rest))[1..] == [z] + rest && ([y] + rest)[1..] == rest && ([z] + rest)[1..] == rest;
  }

  lemma RotateDifferent(s: Sorting, y: Row, rest: seq<Row>)
    requires rest != [] ==> Key(s, y) != Key(s, rest[0])
    ensures Rotated1(s, [y] + rest) == [y] + Rotated1(s, rest)
  {
    hide Key;
    var all := [y] + rest;
    assert all[1..] == rest && all[1..1] == [];
    assert rest != [] ==> all[1] == rest[0];
    assert RunLength(s, all) == 1;
    assert [] + [y] + Rotated1(s, rest) == [y] + Rotated1(s, rest);
  }

  /** Pushing a row through rows that are not below it rotates the runs of the whole. */
  lemma {:induction false} PushRotates(s: Sorting, y: Row, rest: seq<Row>)
    requires Ordered(s, [y] + rest)
    ensures Through(s, y, rest) == Rotated1(s, [y] + rest)
    decreases |rest|
  {
    hide Before, Key, Ordered, Rotated1, Typed;
    OrderedTail(s, [y] + rest);
    assert ([y] + rest)[1..] == rest;
    if rest == [] {
      RotateDifferent(s, y, rest);
      RotateNone(s);
      assert [y] + rest == [y];
    } else {
      var z, more := rest[0], rest[1..];
      assert rest == [z] + more && ([y] + rest)[1] == z;
      KeyFacts(s, y, z);
      if Before(s, y, z) {
        PushRotates(s, z, more);
        RotateDifferent(s, y, rest);
      } else {
        OrderedWithout(s, y, z, more);
        PushRotates(s, y, more);
        RotateSame(s, y, z, more);
      }
    }
  }

  lemma RotateNone(s: Sorting)
    ensures Rotated1(s, []) == []
  {
  }

  lemma OrderedWithout(s: Sorting, y: Row, z: Row, more: seq<Row>)
    requires Ordered(s, [y] + ([z] + more))
    ensures Ordered(s, [y] + more)
  {
    hide Before, Typed;
    var all, less := [y] + ([z] + more), [y] + more;
    assert forall i :: 1 <= i < |less| ==> less[i] == all[i + 1];
    assert less[0] == all[0];
    assert forall r :: r in less ==> r in all;
  }

  /** One outer round of the sort: the rows not above the new one stay, then comes the new one, then every
      run of equal keys with its first row moved to its end. */
  lemma {:induction false} ThroughMeaning(s: Sorting, x: Row, rows: seq<Row>)
    requires Ordered(s, rows) && Typed(s, x)
    ensures var k := Above(s, x, rows); Through(s, x, rows) == rows[..k] + [x] + Rotated1(s, rows[k..])
    decreases |rows|
  {
    hide Before, Ordered, Rotated1, Typed;
    if rows == [] {
      RotateNone(s);
    } else {
      OrderedTail(s, rows);
      assert rows == [rows[0]] + rows[1..];
      if Before(s, x, rows[0]) {
        PushRotates(s, rows[0], rows[1..]);
      } else {
        ThroughMeaning(s, x, rows[1..]);
        var k := Above(s, x, rows[1..]);
        assert rows[..k + 1] == [rows[0]] + rows[1..][..k] && rows[1..][k..] == rows[k + 1..];
      }
    }
  }

  // ----- stability

  /** The rows with this key, in order. */
  function WithKey(s: Sorting, d: Datum, rows: seq<Row>): seq<Row> {
    if rows == [] then [] else (if Key(s, rows[0]) == d then [rows[0]] else []) + WithKey(s, d, rows[1..])
  }

  /** For every key the same rows in the same order. */
  ghost predicate SameOrder(s: Sorting, a: seq<Row>, b: seq<Row>) {
    forall d :: WithKey(s, d, a) == WithKey(s, d, b)
  }

  /** Rows that share a key are one and the same row. */
  ghost predicate Distinguished(s: Sorting, rows: seq<Row>) {
    forall i, j :: 0 <= i < j < |rows| && Key(s, rows[i]) == Key(s, rows[j]) ==> rows[i] == rows[j]
  }

  lemma WithFirst(s: Sorting, d: Datum, x: Row, rows: seq<Row>)
    ensures WithKey(s, d, [x] + rows) == (if Key(s, x) == d then [x] else []) + WithKey(s, d, rows)
    ensures WithKey(s, d, []) == []
  {
    hide Key;
    assert ([x] + rows)[1..] == rows;
  }

  lemma {:induction false} WithConcat(s: Sorting, d: Datum, a: seq<Row>, b: seq<Row>)
    ensures WithKey(s, d, a + b) == WithKey(s, d, a) + WithKey(s, d, b)
  {
    hide Key, WithKey;
    if a == [] {
      WithFirst(s, d, [], a);
      assert a + b == b;
    } else {
      WithFirst(s, d, a[0], a[1..]);
      WithFirst(s, d, a[0], a[1..] + b);
      WithConcat(s, d, a[1..], b);
      assert a == [a[0]] + a[1..] && a + b == [a[0]] + (a[1..] + b);
    }
  }

  lemma {:induction false} WithNone(s: Sorting, d: Datum, rows: seq<Row>)
    requires forall i :: 0 <= i < |rows| ==> Key(s, rows[i]) != d
    ensures WithKey(s, d, rows) == []
  {
    hide Key;
    if rows != [] {
      WithNone(s, d, rows[1..]);
    }
  }

  lemma SameFirst(s: Sorting, x: Row, a: seq<Row>, b: seq<Row>)
    ensures SameOrder(s, [x] + a, [x] + b) <==> SameOrder(s, a, b)
  {
    hide Key, WithKey;
    forall d
      ensures WithKey(s, d, [x] + a) == WithKey(s, d, [x] + b) <==> WithKey(s, d, a) == WithKey(s, d, b)
    {
      WithFirst(s, d, x, a);
      WithFirst(s, d, x, b);
      var one := if Key(s, x) == d then [x] else [];
      assert (one + WithKey(s, d, a))[|one|..] == WithKey(s, d, a)
             && (one + WithKey(s, d, b))[|one|..] == WithKey(s, d, b);
    }
  }

  /** Two rows of one key in front, exchanged against what follows: the order survives only if they are the
      same row. */
  lemma SameSecond(s: Sorting, y: Row, z: Row, a: seq<Row>, b: seq<Row>)
    requires Key(s, y) == Key(s, z)
    ensures SameOrder(s, [z] + a, [y] + ([z] + b)) <==> y == z && SameOrder(s, a, [y] + b)
  {
    hide Key, WithKey;
    if y == z {
      SameFirst(s, z, a, [z] + b);
    } else {
      var d := Key(s, y);
      WithFirst(s, d, z, a);
      WithFirst(s, d, y, [z] + b);
      assert ([z] + WithKey(s, d, a))[0] == z && ([y] + WithKey(s, d, [z] + b))[0] == y;
    }
  }

  lemma DistinguishedApart(s: Sorting, y: Row, rest: seq<Row>)
    requires forall i :: 0 <= i < |rest| ==> Key(s, rest[i]) != Key(s, y)
    ensures Distinguished(s, [y] + rest) <==> Distinguished(s, rest)
  {
    hide Key;
    var all := [y] + rest;
    assert forall i :: 0 <= i < |rest| ==> all[i + 1] == rest[i];
  }

  lemma DistinguishedSame(s: Sorting, y: Row, z: Row, more: seq<Row>)
    requires Key(s, y) == Key(s, z)
    ensures Distinguished(s, [y] + ([z] + more)) <==> y == z && Distinguished(s, [y] + more)
  {
    hide Key;
    var all, less := [y] + ([z] + more), [y] + more;
    assert all[0] == y && all[1] == z;
    if Distinguished(s, all) {
      assert forall i :: 1 <= i < |less| ==> less[i] == all[i + 1];
      assert less[0] == all[0];
    }
    if y == z && Distinguished(s, less) {
      forall i, j | 0 <= i < j < |all| && Key(s, all[i]) == Key(s, all[j])
        ensures all[i] == all[j]
      {
        var i', j' := if i <= 1 then 0 else i - 1, if j <= 1 then 0 else j - 1;
        assert all[i] == less[i'] && all[j] == less[j'];
      }
    }
  }

  lemma KeysApart(s: Sorting, y: Row, rest: seq<Row>)
    requires Ordered(s, [y] + rest) && rest != [] && Before(s, y, rest[0])
    ensures forall i :: 0 <= i < |rest| ==> Key(s, rest[i]) != Key(s, y)
  {
    hide Before, Key, Typed;
    var all := [y] + rest;
    forall i | 0 <= i < |rest|
      ensures Key(s, rest[i]) != Key(s, y)
    {
      assert all[i + 1] == rest[i] && all[1] == rest[0] && all[0] == y;
      assert all[i + 1] in all && all[1] in all && all[0] in all;
      KeyFacts(s, rest[i], y);
      if i > 0 {
        BeforeChain(s, y, rest[0], rest[i]);
      }
    }
  }

  lemma BeforeChain(s: Sorting, a: Row, b: Row, c: Row)
    requires Typed(s, a) && Typed(s, b) && Typed(s, c) && Before(s, a, b) && !Before(s, c, b)
    ensures Before(s, a, c)
  {
    hide Before, Typed;
    BeforeOrder(s, c, b, a);
    BeforeOrder(s, b, c, a);
  }

  lemma {:induction false} RotationKeeps(s: Sorting, y: Row, rest: seq<Row>)
    requires Ordered(s, [y] + rest)
    ensures SameOrder(s, Through(s, y, rest), [y] + rest) <==> Distinguished(s, [y] + rest)
    decreases |rest|
  {
    hide Before, Key, Ordered, Typed, SameOrder, Distinguished;
    OrderedTail(s, [y] + rest);
    assert ([y] + rest)[1..] == rest;
    if rest == [] {
      OneRow(s, y);
      assert [y] + rest == [y];
    } else {
      var z, more := rest[0], rest[1..];
      assert rest == [z] + more && ([y] + rest)[1] == z;
      KeyFacts(s, y, z);
      if Before(s, y, z) {
        KeysApart(s, y, rest);
        DistinguishedApart(s, y, rest);
        RotationKeeps(s, z, more);
        SameFirst(s, y, Through(s, z, more), rest);
      } else {
        OrderedWithout(s, y, z, more);
        DistinguishedSame(s, y, z, more);
        RotationKeeps(s, y, more);
        SameSecond(s, y, z, Through(s, y, more), more);
      }
    }
  }

  lemma OneRow(s: Sorting, y: Row)
    ensures SameOrder(s, [y], [y]) && Distinguished(s, [y])
  {
  }

  /** A round keeps the order of rows with equal keys, the new one being the last, exactly if rows above it
      that share a key are one and the same row. */
  lemma {:induction false} RoundKeepsOrderExactly(s: Sorting, x: Row, rows: seq<Row>)
    requires Ordered(s, rows) && Typed(s, x)
    ensures SameOrder(s, Through(s, x, rows), rows + [x]) <==> Distinguished(s, rows[Above(s, x, rows)..])
    decreases |rows|
  {
    hide Before, Key, Ordered, Typed, SameOrder, Distinguished;
    if rows == [] {
      OneRow(s, x);
      NoRows(s);
      assert rows + [x] == [x];
    } else {
      OrderedTail(s, rows);
      var y, rest := rows[0], rows[1..];
      assert rows == [y] + rest;
      if Before(s, x, y) {
        RotationKeeps(s, y, rest);
        NewInFront(s, x, rows, Through(s, y, rest));
      } else {
        RoundKeepsOrderExactly(s, x, rest);
        SameFirst(s, y, Through(s, x, rest), rest + [x]);
        assert rows + [x] == [y] + (rest + [x]);
        assert rest[Above(s, x, rest)..] == rows[1 + Above(s, x, rest)..];
      }
    }
  }

  lemma NoRows(s: Sorting)
    ensures Distinguished(s, [])
  {
  }

  /** A row below all others may stand in front of them or behind. */
  lemma NewInFront(s: Sorting, x: Row, rows: seq<Row>, pushed: seq<Row>)
    requires Ordered(s, rows) && Typed(s, x) && rows != [] && Before(s, x, rows[0])
    ensures SameOrder(s, [x] + pushed, rows + [x]) <==> SameOrder(s, pushed, rows)
  {
    hide Before, Key, Typed, WithKey;
    OrderedWith(s, x, rows);
    KeysApart(s, x, rows);
    WithNone(s, Key(s, x), rows);
    SameFirst(s, x, pushed, rows);
    forall d
      ensures WithKey(s, d, rows + [x]) == WithKey(s, d, [x] + rows)
    {
      WithConcat(s, d, rows, [x]);
      WithConcat(s, d, [x], rows);
      WithFirst(s, d, x, []);
      assert [x] + [] == [x];
    }
  }

  lemma OrderedWith(s: Sorting, x: Row, rows: seq<Row>)
    requires Ordered(s, rows) && Typed(s, x) && rows != [] && Before(s, x, rows[0])
    ensures Ordered(s, [x] + rows)
  {
    hide Before, Typed;
    var all := [x] + rows;
    forall i, j | 0 <= i < j < |all|
      ensures !Before(s, all[j], all[i])
    {
      if i == 0 {
        assert all[j] == rows[j - 1] && rows[j - 1] in rows && rows[0] in rows;
        BeforeOrder(s, x, rows[0], rows[j - 1]);
        BeforeOrder(s, x, rows[0], x);
      } else {
        assert all[i] == rows[i - 1] && all[j] == rows[j - 1];
      }
    }
  }

  /** So the sort is not stable: pushing 1 through [2, 2] reverses the twos. */
  lemma SortNotStable()
    ensures var s := Sorting("k", T_INT, false, [ColDesc("k", T_INT), ColDesc("v", T_INT)]);
            var a, b, c := [IntD(2), IntD(0)], [IntD(2), IntD(1)], [IntD(1), IntD(2)];
            SortRows(s, [a, b, c]) == [c, b, a]
  {
    var s := Sorting("k", T_INT, false, [ColDesc("k", T_INT), ColDesc("v", T_INT)]);
    var a: Row, b: Row, c: Row := [IntD(2), IntD(0)], [IntD(2), IntD(1)], [IntD(1), IntD(2)];
    assert [a, b, c][..2] == [a, b] && [a, b][..1] == [a] && [a][..0] == [];
    assert [a, b][1..] == [b] && [a][1..] == [] && [b][1..] == [];
    assert SortRows(s, [a]) == [a];
    assert Before(s, c, a) && !Before(s, a, b) && !Before(s, b, a);
    assert Through(s, b, [a]) == [a, b];
    assert SortRows(s, [a, b]) == [a, b];
    assert Through(s, a, [b]) == [b, a];
    assert Through(s, c, [a, b]) == [c, b, a];
  }
}
