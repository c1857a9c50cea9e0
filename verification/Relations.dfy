/** What the plan nodes of SELECT mean: row streams, and what filtering, joining, sorting and projecting do
    to them. */
module Relations {
  import opened Types
  import opened Schema
  import opened Codec
  import opened Expr

  /** The rows a node has still to deliver, and whether it then ends or the program stops. */
  datatype Stream = Stream(rows: seq<Row>, ok: bool)

  const NOTHING: Stream := Stream([], true)
  const STOPPED: Stream := Stream([], false)

  function Emit(row: Row, s: Stream): Stream {
    Stream([row] + s.rows, s.ok)
  }

  function Then(a: Stream, b: Stream): Stream {
    if a.ok then Stream(a.rows + b.rows, b.ok) else a
  }

  function Rest(s: Stream): Stream
    requires s.rows != []
  {
    Stream(s.rows[1..], s.ok)
  }

  lemma ThenEmit(row: Row, a: Stream, b: Stream)
    ensures Then(Emit(row, a), b) == Emit(row, Then(a, b))
    ensures Then(NOTHING, b) == b && Then(Emit(row, NOTHING), b) == Emit(row, b)
    ensures Then(a, NOTHING) == a
  {
    assert a.ok ==> ([row] + a.rows) + b.rows == [row] + (a.rows + b.rows);
    assert [] + b.rows == b.rows && [row] + [] == [row] && a.rows + [] == a.rows;
  }

  lemma RestEmit(s: Stream, row: Row)
    ensures s.rows != [] ==> s == Emit(s.rows[0], Rest(s))
    ensures Rest(Emit(row, s)) == s
  {
  }

  // ----- filter and projection

  /** The rows a where clause passes, up to the first it cannot decide. */
  function Selected(w: Where, cols: seq<ColDesc>, s: Stream): Stream
    decreases |s.rows|
  {
    if s.rows == [] then s else
      match TestWhere(w, s.rows[0], cols)
      case Stops => STOPPED
      case Rejected => Selected(w, cols, Rest(s))
      case Passes => Emit(s.rows[0], Selected(w, cols, Rest(s)))
  }

  datatype Target = Target(expr: Expr, name: CString)

  datatype Projection = Projected(row: Row) | Failed

  /** GetResult's projection loop after n targets. */
  function ProjectRow(targets: seq<Target>, out: seq<ColDesc>, row: Row, cols: seq<ColDesc>, n: nat): (r: Projection)
    requires n <= |targets|
    ensures r.Projected? ==> |r.row| == |out|
  {
    if n == 0 then Projected(NullRow(|out|)) else
      match ProjectRow(targets, out, row, cols, n - 1)
      case Failed => Failed
      case Projected(before) =>
        match EvalExpr(targets[n - 1].expr, row, cols)
        case Val(d) => Projected(SetName(before, out, targets[n - 1].name, d))
        case _ => Failed
  }

  function ProjectAll(targets: seq<Target>, out: seq<ColDesc>, cols: seq<ColDesc>, s: Stream): Stream
    decreases |s.rows|
  {
    if s.rows == [] then s else
      match ProjectRow(targets, out, s.rows[0], cols, |targets|)
      case Failed => STOPPED
      case Projected(row) => Emit(row, ProjectAll(targets, out, cols, Rest(s)))
  }

  // ----- join

  /** A nested loop: the columns of its children and its own, its qualification, and whether left rows
      without a partner are kept. */
  datatype Joining = Joining(outer: bool, qual: Where, left: seq<ColDesc>, right: seq<ColDesc>, cols: seq<ColDesc>)

  /** The column loop: copy n columns, by name. */
  function Filled(base: Row, to: seq<ColDesc>, from: seq<ColDesc>, row: Row, n: nat): (r: Row)
    requires n <= |from|
    ensures |r| == |base|
  {
    if n == 0 then base else
      SetName(Filled(base, to, from, row, n - 1), to, from[n - 1].name, GetName(row, from, from[n - 1].name))
  }

  function PadRow(j: Joining, l: Row): (r: Row)
    ensures |r| == |j.cols|
  {
    Filled(NullRow(|j.cols|), j.cols, j.left, l, |j.left|)
  }

  function JoinRow(j: Joining, l: Row, r: Row): (x: Row)
    ensures |x| == |j.cols|
  {
    Filled(PadRow(j, l), j.cols, j.right, r, |j.right|)
  }

  function TestPair(j: Joining, l: Row, r: Row): Test {
    TestWhere(j.qual, JoinRow(j, l, r), j.cols)
  }

  /** What the loop delivers for one left row over what remains of the right side; hit says whether the
      left row has had a partner already. */
  function Matches(j: Joining, l: Row, rs: Stream, hit: bool): Stream
    decreases |rs.rows|
  {
    if rs.rows == [] then
      if rs.ok && j.outer && !hit then Emit(PadRow(j, l), NOTHING) else rs
    else
      match TestPair(j, l, rs.rows[0])
      case Stops => STOPPED
      case Rejected => Matches(j, l, Rest(rs), hit)
      case Passes => Emit(JoinRow(j, l, rs.rows[0]), Matches(j, l, Rest(rs), true))
  }

  /** The whole loop, given what the right side delivers to each left row in turn. */
  function LoopAll(j: Joining, ls: Stream, inner: seq<Stream>): Stream
    requires |inner| == |ls.rows|
    decreases |ls.rows|
  {
    if ls.rows == [] then ls
    else Then(Matches(j, ls.rows[0], inner[0], false), LoopAll(j, Rest(ls), inner[1..]))
  }

  // ----- what a join means

  /** The partners of one left row. */
  function Partners(j: Joining, l: Row, rs: seq<Row>): seq<Row> {
    if rs == [] then [] else
      (if TestPair(j, l, rs[0]) == Passes then [JoinRow(j, l, rs[0])] else []) + Partners(j, l, rs[1..])
  }

  /** The join, in left-major order. */
  function LoopRows(j: Joining, ls: seq<Row>, rs: seq<Row>): seq<Row> {
    if ls == [] then [] else
      var partners := Partners(j, ls[0], rs);
      (if partners == [] && j.outer then [PadRow(j, ls[0])] else partners) + LoopRows(j, ls[1..], rs)
  }

  ghost predicate NoPairStops(j: Joining, ls: seq<Row>, rs: seq<Row>) {
    forall l, r :: l in ls && r in rs ==> TestPair(j, l, r) != Stops
  }

  lemma {:induction false} MatchesMeaning(j: Joining, l: Row, rs: Stream, hit: bool)
    requires rs.ok
    ensures Matches(j, l, rs, hit).ok <==> NoPairStops(j, [l], rs.rows)
    ensures Matches(j, l, rs, hit).ok ==>
              Matches(j, l, rs, hit).rows ==
              if Partners(j, l, rs.rows) == [] && j.outer && !hit then [PadRow(j, l)] else Partners(j, l, rs.rows)
    decreases |rs.rows|
  {
    hide TestPair, JoinRow, PadRow;
    if rs.rows != [] {
      var r := rs.rows[0];
      assert r in rs.rows && rs.rows == [r] + rs.rows[1..];
      MatchesMeaning(j, l, Rest(rs), hit || TestPair(j, l, r) == Passes);
      assert NoPairStops(j, [l], rs.rows) <==> TestPair(j, l, r) != Stops && NoPairStops(j, [l], rs.rows[1..]);
    }
  }

  ghost predicate AllSame(inner: seq<Stream>, rs: Stream) {
    forall i :: 0 <= i < |inner| ==> inner[i] == rs
  }

  /** The loop over sides that end, the right one always with the same rows, delivers exactly the join, and
      stops exactly if the qualification cannot be decided on some pair. */
  lemma {:induction false} LoopMeaning(j: Joining, ls: Stream, rs: Stream, inner: seq<Stream>)
    requires ls.ok && rs.ok && |inner| == |ls.rows| && AllSame(inner, rs)
    ensures LoopAll(j, ls, inner).ok <==> NoPairStops(j, ls.rows, rs.rows)
    ensures LoopAll(j, ls, inner).ok ==> LoopAll(j, ls, inner).rows == LoopRows(j, ls.rows, rs.rows)
    decreases |ls.rows|
  {
    hide TestPair, JoinRow, PadRow, Matches, Partners;
    if ls.rows != [] {
      var l := ls.rows[0];
      assert ls.rows == [l] + ls.rows[1..];
      MatchesMeaning(j, l, rs, false);
      LoopMeaning(j, Rest(ls), rs, inner[1..]);
      assert NoPairStops(j, ls.rows, rs.rows)
             <==> NoPairStops(j, [l], rs.rows) && NoPairStops(j, ls.rows[1..], rs.rows);
    }
  }

  lemma {:induction false} MatchesBroken(j: Joining, l: Row, rs: Stream, hit: bool)
    requires !rs.ok
    ensures !Matches(j, l, rs, hit).ok
    decreases |rs.rows|
  {
    hide TestPair, JoinRow, PadRow;
    if rs.rows != [] {
      MatchesBroken(j, l, Rest(rs), hit || TestPair(j, l, rs.rows[0]) == Passes);
    }
  }

  /** The loop does not end if a side does not. */
  lemma {:induction false} LoopBroken(j: Joining, ls: Stream, inner: seq<Stream>)
    requires |inner| == |ls.rows| && (!ls.ok || exists i :: 0 <= i < |inner| && !inner[i].ok)
    ensures !LoopAll(j, ls, inner).ok
    decreases |ls.rows|
  {
    hide Matches;
    if ls.rows != [] {
      if !inner[0].ok {
        MatchesBroken(j, ls.rows[0], inner[0], false);
      } else {
        if ls.ok {
          var i :| 0 <= i < |inner| && !inner[i].ok;
          assert inner[1..][i - 1] == inner[i];
        }
        LoopBroken(j, Rest(ls), inner[1..]);
      }
    }
  }

  // ----- copying columns by name

  /** The columns of from, by name, are those of to from position off on. */
  ghost predicate Block(to: seq<ColDesc>, off: nat, from: seq<ColDesc>) {
    off + |from| <= |to| && to[off..off + |from|] == from
  }

  function Pasted(base: Row, off: nat, row: Row, n: nat, i: nat): Datum
    requires i < |base| && n <= |row|
  {
    if off <= i < off + n then row[i - off] else base[i]
  }

  lemma {:induction false} FilledMeaning(base: Row, to: seq<ColDesc>, from: seq<ColDesc>, row: Row, n: nat, off: nat)
    requires n <= |from| == |row| && |to| == |base| && Block(to, off, from) && UniqueNames(to) && UniqueNames(from)
    ensures forall i :: 0 <= i < |base| ==> Filled(base, to, from, row, n)[i] == Pasted(base, off, row, n, i)
  {
    hide ColIdx, UniqueNames;
    if n > 0 {
      FilledMeaning(base, to, from, row, n - 1, off);
      assert to[off..off + |from|][n - 1] == to[off + (n - 1)];
      ColIdxUnique(to, off + (n - 1));
      ColIdxUnique(from, n - 1);
    }
  }

  lemma UniqueParts(a: seq<ColDesc>, b: seq<ColDesc>)
    requires UniqueNames(a + b)
    ensures UniqueNames(a) && UniqueNames(b) && Block(a + b, 0, a) && Block(a + b, |a|, b)
  {
    var c := a + b;
    assert forall i :: 0 <= i < |a| ==> c[i] == a[i];
    assert forall i :: 0 <= i < |b| ==> c[|a| + i] == b[i];
  }

  lemma JoinAt(j: Joining, l: Row, r: Row, atLeft: nat, atRight: nat, i: nat)
    requires |l| == |j.left| && |r| == |j.right| && UniqueNames(j.cols) && UniqueNames(j.left) && UniqueNames(j.right)
    requires Block(j.cols, atLeft, j.left) && Block(j.cols, atRight, j.right) && i < |j.cols|
    ensures PadRow(j, l)[i] == if atLeft <= i < atLeft + |l| then l[i - atLeft] else NullD
    ensures JoinRow(j, l, r)[i] == if atRight <= i < atRight + |r| then r[i - atRight] else PadRow(j, l)[i]
  {
    hide ColIdx, UniqueNames, Filled, Block;
    FilledMeaning(NullRow(|j.cols|), j.cols, j.left, l, |l|, atLeft);
    FilledMeaning(PadRow(j, l), j.cols, j.right, r, |r|, atRight);
    assert PadRow(j, l)[i] == Pasted(NullRow(|j.cols|), atLeft, l, |l|, i);
    assert JoinRow(j, l, r)[i] == Pasted(PadRow(j, l), atRight, r, |r|, i);
  }

  /** With all column names different, a joined row is the left row followed by the right row; a padded
      row has nulls on the right. */
  lemma JoinRowConcat(j: Joining, l: Row, r: Row)
    requires UniqueNames(j.cols) && j.cols == j.left + j.right && |l| == |j.left| && |r| == |j.right|
    ensures JoinRow(j, l, r) == l + r && PadRow(j, l) == l + NullRow(|j.right|)
  {
    hide UniqueNames, Block, PadRow, JoinRow;
    UniqueParts(j.left, j.right);
    forall i: nat | i < |j.cols|
      ensures JoinRow(j, l, r)[i] == (l + r)[i] && PadRow(j, l)[i] == (l + NullRow(|j.right|))[i]
    {
      JoinAt(j, l, r, 0, |l|, i);
    }
  }

  /** The other way round where the plan has swapped the operands. */
  lemma JoinRowSwapped(j: Joining, l: Row, r: Row)
    requires UniqueNames(j.cols) && j.cols == j.right + j.left && |l| == |j.left| && |r| == |j.right|
    ensures JoinRow(j, l, r) == r + l && PadRow(j, l) == NullRow(|j.right|) + l
  {
    hide UniqueNames, Block, PadRow, JoinRow;
    UniqueParts(j.right, j.left);
    forall i: nat | i < |j.cols|
      ensures JoinRow(j, l, r)[i] == (r + l)[i] && PadRow(j, l)[i] == (NullRow(|j.right|) + l)[i]
    {
      JoinAt(j, l, r, |r|, 0, i);
    }
  }

  lemma {:induction false} FilledSkips(base: Row, to: seq<ColDesc>, from: seq<ColDesc>, row: Row, n: nat, a: nat,
                                       b: nat)
    requires n <= |from| && a < b < |to| == |base| && to[a].name == to[b].name
    ensures Filled(base, to, from, row, n)[b] == base[b]
  {
    if n > 0 {
      FilledSkips(base, to, from, row, n - 1, a, b);
    }
  }

  /** Different names are what it takes: the join of any two rows is their concatenation exactly if no two
      joined columns share a name. */
  lemma JoinRowConcatExactly(j: Joining)
    requires j.cols == j.left + j.right
    ensures (forall l, r :: |l| == |j.left| && |r| == |j.right| ==> JoinRow(j, l, r) == l + r) <==> UniqueNames(j.cols)
  {
    hide ColIdx, Filled, JoinRow;
    if UniqueNames(j.cols) {
      forall l, r | |l| == |j.left| && |r| == |j.right|
        ensures JoinRow(j, l, r) == l + r
      {
        JoinRowConcat(j, l, r);
      }
    } else {
      var a, b :| 0 <= a < b < |j.cols| && j.cols[a].name == j.cols[b].name;
      var l: Row, r: Row := seq(|j.left|, _ => BoolD(true)), seq(|j.right|, _ => BoolD(true));
      JoinRowSkips(j, l, r, a, b);
      assert (l + r)[b] == BoolD(true);
    }
  }

  lemma JoinRowSkips(j: Joining, l: Row, r: Row, a: nat, b: nat)
    requires a < b < |j.cols| && j.cols[a].name == j.cols[b].name
    ensures JoinRow(j, l, r)[b] == NullD
  {
    FilledSkips(NullRow(|j.cols|), j.cols, j.left, l, |j.left|, a, b);
    FilledSkips(PadRow(j, l), j.cols, j.right, r, |j.right|, a, b);
  }

  // ----- sort

  datatype Sorting = Sorting(name: CString, ty: BType, desc: bool, cols: seq<ColDesc>)

  /** The sort's comparison of two rows, by the function PlanQuery picked. */
  function CompareRows(s: Sorting, a: Row, b: Row): Value {
    Apply(Func(s.ty, if s.desc then GT else LT), GetName(a, s.cols, s.name), GetName(b, s.cols, s.name))
  }

  predicate Before(s: Sorting, a: Row, b: Row) {
    CompareRows(s, a, b) == Val(BoolD(true))
  }

  /** One outer round of the sort: push a row through the sorted prefix, exchanging it with every row it
      goes before. */
  function Through(s: Sorting, x: Row, rows: seq<Row>): (r: seq<Row>)
    ensures |r| == |rows| + 1
    decreases |rows|
  {
    hide Before;
    if rows == [] then [x]
    else if Before(s, x, rows[0]) then [x] + Through(s, rows[0], rows[1..])
    else [rows[0]] + Through(s, x, rows[1..])
  }

  function SortRows(s: Sorting, rows: seq<Row>): (r: seq<Row>)
    ensures |r| == |rows|
  {
    if rows == [] then [] else Through(s, rows[|rows| - 1], SortRows(s, rows[..|rows| - 1]))
  }

  predicate Typed(s: Sorting, x: Row) {
    TypeOf(GetName(x, s.cols, s.name)) == s.ty
  }

  /** Nothing to compare, or every key of the sort column's type. */
  predicate Sortable(s: Sorting, rows: seq<Row>) {
    |rows| <= 1 || forall i :: 0 <= i < |rows| ==> Typed(s, rows[i])
  }

  function Resorted(s: Sorting, st: Stream): Stream {
    if st.ok && Sortable(s, st.rows) then Stream(SortRows(s, st.rows), true) else STOPPED
  }

  ghost predicate InOrder(s: Sorting, rows: seq<Row>) {
    forall i, j :: 0 <= i < j < |rows| ==> !Before(s, rows[j], rows[i])
  }

  /** On any rows, strict comparison is asymmetric and its negation transitive where keys compare. */
  lemma BeforeOrder(s: Sorting, a: Row, b: Row, c: Row)
    requires Sortable(s, [a, b, c])
    ensures !(Before(s, a, b) && Before(s, b, a))
    ensures !Before(s, b, a) && !Before(s, c, b) ==> !Before(s, c, a)
  {
    hide StrLess, ColIdx, GetName;
    assert [a, b, c][0] == a && [a, b, c][1] == b && [a, b, c][2] == c;
    GtOrder();
    BeforeIs(s, a, b);
    BeforeIs(s, b, a);
    BeforeIs(s, c, b);
    BeforeIs(s, c, a);
  }

  lemma BeforeIs(s: Sorting, a: Row, b: Row)
    requires Typed(s, a) && Typed(s, b)
    ensures Before(s, a, b) <==> if s.desc then Gt(GetName(a, s.cols, s.name), GetName(b, s.cols, s.name))
                                 else Gt(GetName(b, s.cols, s.name), GetName(a, s.cols, s.name))
  {
    hide StrLess, ColIdx, GetName;
  }

  ghost predicate Keyed(s: Sorting, rows: seq<Row>) {
    forall x :: x in rows ==> Typed(s, x)
  }

  lemma {:induction false} ThroughPermutes(s: Sorting, x: Row, rows: seq<Row>)
    ensures multiset(Through(s, x, rows)) == multiset(rows) + multiset{x}
    decreases |rows|
  {
    hide Before;
    if rows != [] {
      assert rows == [rows[0]] + rows[1..];
      ThroughPermutes(s, if Before(s, x, rows[0]) then rows[0] else x, rows[1..]);
    }
  }

  lemma ThroughHas(s: Sorting, x: Row, rows: seq<Row>, y: Row)
    ensures y in Through(s, x, rows) <==> y == x || y in rows
  {
    hide Through;
    ThroughPermutes(s, x, rows);
    assert y in Through(s, x, rows) <==> y in multiset(Through(s, x, rows));
  }

  lemma {:induction false} ThroughInOrder(s: Sorting, x: Row, rows: seq<Row>)
    requires InOrder(s, rows) && Keyed(s, rows) && Keyed(s, [x])
    ensures InOrder(s, Through(s, x, rows))
    decreases |rows|
  {
    hide Before, GetName;
    assert x in [x];
    if rows != [] {
      var y := if Before(s, x, rows[0]) then rows[0] else x;
      var first, rest := if Before(s, x, rows[0]) then x else rows[0], Through(s, y, rows[1..]);
      ThroughInOrder(s, y, rows[1..]);
      forall i | 0 <= i < |rest|
        ensures !Before(s, rest[i], first)
      {
        ThroughHas(s, y, rows[1..], rest[i]);
        BeforeOrder(s, first, rows[0], rest[i]);
        if rest[i] in rows[1..] {
          var k :| 0 <= k < |rows| - 1 && rows[1..][k] == rest[i];
          assert rows[k + 1] == rest[i];
        }
      }
    }
  }

  lemma {:induction false} SortPermutes(s: Sorting, rows: seq<Row>)
    ensures multiset(SortRows(s, rows)) == multiset(rows)
  {
    hide Through;
    if rows != [] {
      SortPermutes(s, rows[..|rows| - 1]);
      ThroughPermutes(s, rows[|rows| - 1], SortRows(s, rows[..|rows| - 1]));
      assert rows == rows[..|rows| - 1] + [rows[|rows| - 1]];
    }
  }

  /** The exchange sort sorts: no row goes before an earlier one, and none is lost or made up. */
  lemma {:induction false} SortMeaning(s: Sorting, rows: seq<Row>)
    requires Sortable(s, rows)
    ensures InOrder(s, SortRows(s, rows)) && multiset(SortRows(s, rows)) == multiset(rows)
  {
    hide Through, Before, GetName;
    SortPermutes(s, rows);
    if |rows| > 1 {
      var init, last := rows[..|rows| - 1], rows[|rows| - 1];
      assert rows == init + [last];
      SortMeaning(s, init);
      assert Keyed(s, SortRows(s, init)) by {
        forall x | x in SortRows(s, init)
          ensures x in rows
        {
          assert x in multiset(init);
        }
      }
      ThroughInOrder(s, last, SortRows(s, init));
    }
  }

  // ----- what filter and projection mean

  /** The rows a where clause passes. */
  function Chosen(w: Where, cols: seq<ColDesc>, rows: seq<Row>): seq<Row> {
    if rows == [] then [] else
      (if TestWhere(w, rows[0], cols) == Passes then [rows[0]] else []) + Chosen(w, cols, rows[1..])
  }

  ghost predicate Decides(w: Where, cols: seq<ColDesc>, rows: seq<Row>) {
    forall x :: x in rows ==> TestWhere(w, x, cols) != Stops
  }

  lemma {:induction false} SelectedMeaning(w: Where, cols: seq<ColDesc>, s: Stream)
    requires s.ok
    ensures Selected(w, cols, s).ok <==> Decides(w, cols, s.rows)
    ensures Selected(w, cols, s).ok ==> Selected(w, cols, s).rows == Chosen(w, cols, s.rows)
    decreases |s.rows|
  {
    hide TestWhere;
    if s.rows != [] {
      assert s.rows == [s.rows[0]] + s.rows[1..];
      SelectedMeaning(w, cols, Rest(s));
    }
  }

  ghost predicate Computes(targets: seq<Target>, row: Row, cols: seq<ColDesc>) {
    forall i :: 0 <= i < |targets| ==> EvalExpr(targets[i].expr, row, cols).Val?
  }

  function Values(targets: seq<Target>, row: Row, cols: seq<ColDesc>): (r: Row)
    requires Computes(targets, row, cols)
    ensures |r| == |targets|
  {
    seq(|targets|, i requires 0 <= i < |targets| => EvalExpr(targets[i].expr, row, cols).d)
  }

  /** The output columns are named after the targets. */
  ghost predicate OutputOf(out: seq<ColDesc>, targets: seq<Target>) {
    |out| == |targets| && forall i :: 0 <= i < |out| ==> out[i].name == targets[i].name
  }

  lemma {:induction false} ProjectPrefix(targets: seq<Target>, out: seq<ColDesc>, row: Row, cols: seq<ColDesc>, n: nat)
    requires n <= |targets| && OutputOf(out, targets)
    ensures ProjectRow(targets, out, row, cols, n).Projected? <==> forall i :: 0 <= i < n ==>
            EvalExpr(targets[i].expr, row, cols).Val?
    ensures Computes(targets, row, cols) ==>
              ProjectRow(targets, out, row, cols, n).row == NamedRow(out, Values(targets, row, cols), n)
  {
    hide EvalExpr, ColIdx;
    if n > 0 {
      ProjectPrefix(targets, out, row, cols, n - 1);
    }
  }

  /** The projection loop fails exactly if some target does; otherwise it delivers the targets' values, each
      under its name, so in their order if the names differ. */
  lemma ProjectMeaning(targets: seq<Target>, out: seq<ColDesc>, row: Row, cols: seq<ColDesc>)
    requires OutputOf(out, targets)
    ensures ProjectRow(targets, out, row, cols, |targets|).Projected? <==> Computes(targets, row, cols)
    ensures Computes(targets, row, cols) ==>
              && |out| == |targets|
              && ProjectRow(targets, out, row, cols, |targets|) ==
                   Projected(NamedRow(out, Values(targets, row, cols), |out|))
              && (UniqueNames(out) ==> NamedRow(out, Values(targets, row, cols), |out|) == Values(targets, row, cols))
  {
    hide EvalExpr, UniqueNames, ProjectRow, NamedRow;
    ProjectPrefix(targets, out, row, cols, |targets|);
    UniqueExactly(out);
  }

  /** An output column that repeats an earlier name is never set: SELECT a, a delivers null second. */
  lemma {:induction false} RepeatedTargetNull(targets: seq<Target>, out: seq<ColDesc>, row: Row, cols: seq<ColDesc>,
                                              n: nat, a: nat, b: nat)
    requires n <= |targets| && a < b < |out| && out[a].name == out[b].name
    ensures ProjectRow(targets, out, row, cols, n).Projected? ==> ProjectRow(targets, out, row, cols, n).row[b] == NullD
  {
    hide EvalExpr;
    if n > 0 {
      RepeatedTargetNull(targets, out, row, cols, n - 1, a, b);
    }
  }

  // ----- swapped operands

  function Rotated(rows: seq<Row>, n: nat): (r: seq<Row>)
    ensures |r| == |rows|
  {
    seq(|rows|, i requires 0 <= i < |rows| => if n <= |rows[i]| then rows[i][n..] + rows[i][..n] else rows[i])
  }

  lemma {:induction false} ColIdxAppend(a: seq<ColDesc>, b: seq<ColDesc>, name: CString)
    ensures ColIdx(a + b, name) == if ColIdx(a, name) < |a| then ColIdx(a, name) else |a| + ColIdx(b, name)
  {
    if a == [] {
      assert a + b == b;
    } else {
      assert (a + b)[1..] == a[1..] + b;
      ColIdxAppend(a[1..], b, name);
    }
  }

  lemma NotInBoth(a: seq<ColDesc>, b: seq<ColDesc>, name: CString)
    requires UniqueNames(a + b)
    ensures ColIdx(a, name) == |a| || ColIdx(b, name) == |b|
  {
    hide ColIdx;
    var i, j := ColIdx(a, name), ColIdx(b, name);
    assert i < |a| ==> (a + b)[i] == a[i];
    assert j < |b| ==> (a + b)[|a| + j] == b[j];
  }

  /** With all names different, an expression does not see the order of the two halves of a row. */
  lemma {:induction false} EvalSwapped(e: Expr, l: Row, r: Row, a: seq<ColDesc>, b: seq<ColDesc>)
    requires UniqueNames(a + b) && |l| == |a| && |r| == |b|
    ensures EvalExpr(e, l + r, a + b) == EvalExpr(e, r + l, b + a)
  {
    hide ColIdx, UniqueNames, Apply;
    match e
    case Lit(_) =>
    case Ident(name) =>
      NotInBoth(a, b, name);
      ColIdxAppend(a, b, name);
      ColIdxAppend(b, a, name);
    case Bin(_, _, lhs, rhs) =>
      EvalSwapped(lhs, l, r, a, b);
      EvalSwapped(rhs, l, r, a, b);
  }

  lemma TestSwapped(w: Where, l: Row, r: Row, a: seq<ColDesc>, b: seq<ColDesc>)
    requires UniqueNames(a + b) && |l| == |a| && |r| == |b|
    ensures TestWhere(w, l + r, a + b) == TestWhere(w, r + l, b + a)
  {
    hide EvalExpr, UniqueNames;
    if w.Where? {
      EvalSwapped(w.cond, l, r, a, b);
    }
  }

  ghost predicate Wide(rows: seq<Row>, n: nat) {
    forall x :: x in rows ==> |x| == n
  }

  // ----- joins without names

  /** The partners of one left row, joined by concatenation. */
  function Concats(q: Where, cols: seq<ColDesc>, l: Row, rs: seq<Row>): seq<Row> {
    if rs == [] then [] else
      (if TestWhere(q, l + rs[0], cols) == Passes then [l + rs[0]] else []) + Concats(q, cols, l, rs[1..])
  }

  /** The inner join, or the left outer join with pad null columns for a missing partner, in left-major
      order. */
  function JoinOf(outer: bool, q: Where, cols: seq<ColDesc>, pad: nat, ls: seq<Row>, rs: seq<Row>): seq<Row> {
    if ls == [] then [] else
      var partners := Concats(q, cols, ls[0], rs);
      (if partners == [] && outer then [ls[0] + NullRow(pad)] else partners) + JoinOf(outer, q, cols, pad, ls[1..], rs)
  }

  ghost predicate PairsDecide(q: Where, cols: seq<ColDesc>, ls: seq<Row>, rs: seq<Row>) {
    forall l, r :: l in ls && r in rs ==> TestWhere(q, l + r, cols) != Stops
  }

  lemma {:induction false} ConcatsAre(q: Where, cols: seq<ColDesc>, l: Row, rs: seq<Row>, x: Row)
    ensures x in Concats(q, cols, l, rs) <==> exists r :: r in rs && TestWhere(q, l + r, cols) == Passes && x == l + r
    ensures Concats(q, cols, l, rs) == [] <==> forall r :: r in rs ==> TestWhere(q, l + r, cols) != Passes
  {
    hide TestWhere;
    if rs != [] {
      assert rs == [rs[0]] + rs[1..];
      ConcatsAre(q, cols, l, rs[1..], x);
    }
  }

  /** Row by row: the joined rows are the concatenations of the pairs the qualification passes and, in an
      outer join, the padded left rows that have no partner. */
  lemma {:induction false} JoinRowsAre(outer: bool, q: Where, cols: seq<ColDesc>, pad: nat, ls: seq<Row>, rs: seq<Row>,
                                       x: Row)
    ensures x in JoinOf(outer, q, cols, pad, ls, rs)
            <==> || (exists l, r :: l in ls && r in rs && TestWhere(q, l + r, cols) == Passes && x == l + r)
                 || (outer && exists l :: l in ls && x == l + NullRow(pad) && forall r :: r in rs ==>
                     TestWhere(q, l + r, cols) != Passes)
  {
    hide TestWhere, Concats, NullRow;
    if ls != [] {
      assert ls == [ls[0]] + ls[1..];
      ConcatsAre(q, cols, ls[0], rs, x);
      JoinRowsAre(outer, q, cols, pad, ls[1..], rs, x);
    }
  }

  lemma StraightPair(j: Joining, l: Row, r: Row)
    requires UniqueNames(j.cols) && j.cols == j.left + j.right && |l| == |j.left| && |r| == |j.right|
    ensures TestPair(j, l, r) == TestWhere(j.qual, l + r, j.cols)
    ensures JoinRow(j, l, r) == l + r && PadRow(j, l) == l + NullRow(|j.right|)
  {
    hide JoinRow, PadRow, TestWhere, UniqueNames;
    JoinRowConcat(j, l, r);
  }

  lemma {:induction false} StraightPartners(j: Joining, l: Row, rs: seq<Row>)
    requires UniqueNames(j.cols) && j.cols == j.left + j.right && |l| == |j.left| && Wide(rs, |j.right|)
    ensures Partners(j, l, rs) == Concats(j.qual, j.cols, l, rs)
  {
    hide JoinRow, PadRow, TestPair, TestWhere, UniqueNames;
    if rs != [] {
      assert rs[0] in rs;
      StraightPair(j, l, rs[0]);
      StraightPartners(j, l, rs[1..]);
    }
  }

  /** With different names, the loop's join is the join by concatenation. */
  lemma {:induction false} StraightJoined(j: Joining, ls: seq<Row>, rs: seq<Row>)
    requires UniqueNames(j.cols) && j.cols == j.left + j.right && Wide(ls, |j.left|) && Wide(rs, |j.right|)
    ensures LoopRows(j, ls, rs) == JoinOf(j.outer, j.qual, j.cols, |j.right|, ls, rs)
    ensures NoPairStops(j, ls, rs) <==> PairsDecide(j.qual, j.cols, ls, rs)
  {
    hide JoinRow, PadRow, TestPair, TestWhere, UniqueNames, Partners, Concats, NullRow;
    forall l, r | l in ls && r in rs
      ensures TestPair(j, l, r) == TestWhere(j.qual, l + r, j.cols)
    {
      StraightPair(j, l, r);
    }
    if ls != [] {
      assert ls[0] in ls;
      StraightPartners(j, ls[0], rs);
      StraightPair(j, ls[0], NullRow(|j.right|));
      StraightJoined(j, ls[1..], rs);
    }
  }

  lemma SwappedPair(j: Joining, l: Row, r: Row)
    requires UniqueNames(j.cols) && j.cols == j.right + j.left && |l| == |j.left| && |r| == |j.right|
    ensures TestPair(j, l, r) == TestWhere(j.qual, l + r, j.left + j.right)
    ensures JoinRow(j, l, r) == r + l && PadRow(j, l) == NullRow(|j.right|) + l
  {
    hide JoinRow, PadRow, TestWhere, UniqueNames;
    JoinRowSwapped(j, l, r);
    TestSwapped(j.qual, r, l, j.right, j.left);
  }

  lemma RotateConcat(x: seq<Row>, y: seq<Row>, n: nat)
    ensures Rotated(x + y, n) == Rotated(x, n) + Rotated(y, n)
  {
  }

  lemma RotateOne(l: Row, r: Row)
    ensures Rotated([l + r], |l|) == [r + l] && Rotated([], |l|) == []
  {
    assert (l + r)[|l|..] == r && (l + r)[..|l|] == l;
  }

  lemma {:induction false} SwappedPartners(j: Joining, l: Row, rs: seq<Row>)
    requires UniqueNames(j.cols) && j.cols == j.right + j.left && |l| == |j.left| && Wide(rs, |j.right|)
    ensures Partners(j, l, rs) == Rotated(Concats(j.qual, j.left + j.right, l, rs), |j.left|)
  {
    hide JoinRow, PadRow, TestPair, TestWhere, UniqueNames, Rotated;
    RotateOne(l, NullRow(|j.right|));
    if rs != [] {
      assert rs[0] in rs;
      SwappedPair(j, l, rs[0]);
      SwappedPartners(j, l, rs[1..]);
      RotateOne(l, rs[0]);
      var rest := Concats(j.qual, j.left + j.right, l, rs[1..]);
      RotateConcat([l + rs[0]], rest, |j.left|);
      assert [] + rest == rest;
    }
  }

  /** A nested loop with swapped operands under the unswapped column list delivers the left join of the
      swapped operands with its columns put back in order. */
  lemma {:induction false} SwappedJoined(j: Joining, ls: seq<Row>, rs: seq<Row>)
    requires UniqueNames(j.cols) && j.cols == j.right + j.left && Wide(ls, |j.left|) && Wide(rs, |j.right|)
    ensures LoopRows(j, ls, rs) == Rotated(JoinOf(j.outer, j.qual, j.left + j.right, |j.right|, ls, rs), |j.left|)
    ensures NoPairStops(j, ls, rs) <==> PairsDecide(j.qual, j.left + j.right, ls, rs)
  {
    hide JoinRow, PadRow, TestPair, TestWhere, UniqueNames, Rotated, Partners, Concats, NullRow;
    forall l, r | l in ls && r in rs
      ensures TestPair(j, l, r) == TestWhere(j.qual, l + r, j.left + j.right)
    {
      SwappedPair(j, l, r);
    }
    if ls == [] {
      assert |Rotated(JoinOf(j.outer, j.qual, j.left + j.right, |j.right|, ls, rs), |j.left|)| == 0;
    } else {
      var l := ls[0];
      assert l in ls;
      var nulls := NullRow(|j.right|);
      SwappedJoined(j, ls[1..], rs);
      SwappedPartners(j, l, rs);
      SwappedPair(j, l, nulls);
      RotateOne(l, nulls);
      var partners := Concats(j.qual, j.left + j.right, l, rs);
      assert |Rotated(partners, |j.left|)| == |partners|;
      var first := if partners == [] && j.outer then [l + nulls] else partners;
      RotateConcat(first, JoinOf(j.outer, j.qual, j.left + j.right, |j.right|, ls[1..], rs), |j.left|);
    }
  }
}
