/** Tuples as bytes: little-endian integers, datums, the tuple struct with its null bitmap and data
    locations, and the index tuple that wraps one. */
module Codec {
  import opened PageLayout
  import opened Types
  import opened Schema

  // ----- little-endian integers

  function Pow256(w: nat): nat {
    if w == 0 then 1 else 256 * Pow256(w - 1)
  }

  function LE(v: nat, w: nat): (r: Bytes)
    ensures |r| == w
  {
    if w == 0 then [] else [(v % 256) as byte] + LE(v / 256, w - 1)
  }

  function FromLE(b: Bytes): nat {
    if b == [] then 0 else b[0] as nat + 256 * FromLE(b[1..])
  }

  lemma {:induction false} LERoundTrip(v: nat, w: nat)
    requires v < Pow256(w)
    ensures FromLE(LE(v, w)) == v
  {
    if w > 0 {
      LERoundTrip(v / 256, w - 1);
      assert LE(v, w)[1..] == LE(v / 256, w - 1);
    }
  }

  lemma Pow256Values()
    ensures Pow256(2) == 0x1_0000 && Pow256(4) == 0x1_0000_0000 && Pow256(8) == SIZE_T_RANGE
  {
    assert Pow256(1) == 256 * Pow256(0);
    assert Pow256(2) == 256 * Pow256(1);
    assert Pow256(3) == 256 * Pow256(2);
    assert Pow256(4) == 256 * Pow256(3);
    assert Pow256(5) == 256 * Pow256(4);
    assert Pow256(6) == 256 * Pow256(5);
    assert Pow256(7) == 256 * Pow256(6);
    assert Pow256(8) == 256 * Pow256(7);
  }

  // ----- datums

  function CharBytes(s: CString): (r: Bytes)
    ensures |r| == |s|
  {
    seq(|s|, i requires 0 <= i < |s| => (s[i] as int) as byte)
  }

  function Truth(b: bool): byte {
    if b then 1 else 0
  }

  /** The bytes MakeDatum points at, with its length. */
  function DatumBytes(d: Datum): Bytes {
    match d
    case NullD => []
    case StrD(s) => CharBytes(s) + [0]
    case BoolD(b) => [Truth(b)]
    case IntD(i) => LE(if i < 0 then i + 0x1_0000_0000 else i, 4)
  }

  /** Bytes up to the first NUL. */
  function CharsOf(b: Bytes): CString {
    if b == [] || b[0] == 0 then "" else
      assert 0 < b[0] as int < 256;
      Joined((b[0] as int) as char, CharsOf(b[1..]))
  }

  function Joined(c: char, s: CString): CString
    requires 0 < c as int < 256
  {
    [c] + s
  }

  function DatumOf(ty: BType, b: Bytes): Datum {
    match ty
    case T_STRING => StrD(CharsOf(b))
    case T_BOOL => BoolD(b != [] && b[0] != 0)
    case T_INT =>
      var v := FromLE(b[..if |b| < 4 then |b| else 4]);
      if v < 0x8000_0000 then IntD(v) else if v < 0x1_0000_0000 then IntD(v - 0x1_0000_0000) else NullD
    case _ => NullD
  }

  lemma {:induction false} CharsRoundTrip(s: CString)
    ensures CharsOf(CharBytes(s) + [0]) == s
    decreases |s|
  {
    if s != "" {
      CharsRoundTrip(Tail(s));
      assert (CharBytes(s) + [0])[1..] == CharBytes(Tail(s)) + [0];
      assert s == [s[0]] + Tail(s);
    }
  }

  lemma DatumRoundTrip(d: Datum)
    requires d != NullD
    ensures DatumOf(TypeOf(d), DatumBytes(d)) == d
  {
    match d
    case StrD(s) => CharsRoundTrip(s);
    case BoolD(b) =>
    case IntD(i) =>
      Pow256Values();
      LERoundTrip(if i < 0 then i + 0x1_0000_0000 else i, 4);
      assert DatumBytes(d)[..4] == DatumBytes(d);
  }

  lemma FromLEStep(x: byte)
    ensures FromLE([x]) == x as int
  {
    assert [x][1..] == [] && FromLE([]) == 0;
  }

  /** The least significant byte comes first. */
  lemma LittleEndian(b: Bytes)
    ensures |b| == 2 ==> FromLE(b) == b[0] as int + 256 * b[1] as int
    ensures |b| == 4 ==>
              FromLE(b) == b[0] as int + 256 * b[1] as int + 0x1_0000 * b[2] as int + 0x100_0000 * b[3] as int
  {
    if |b| == 2 {
      FromLEStep(b[1]);
      assert b[1..] == [b[1]];
    } else if |b| == 4 {
      FromLEStep(b[3]);
      assert b[3..] == [b[3]];
      assert b[2..][0] == b[2] && b[2..][1..] == b[3..] && FromLE(b[2..]) == b[2] as int + 256 * FromLE(b[3..]);
      assert b[1..][0] == b[1] && b[1..][1..] == b[2..] && FromLE(b[1..]) == b[1] as int + 256 * FromLE(b[2..]);
      assert FromLE(b) == b[0] as int + 256 * FromLE(b[1..]);
    }
  }

  /** The bytes of a datum: none for null, one for a bool, four for an int in two's complement, a text's
      characters and a NUL. */
  lemma DatumLayout(d: Datum)
    ensures d == NullD ==> DatumBytes(d) == []
    ensures d == BoolD(true) ==> DatumBytes(d) == [1]
    ensures d == BoolD(false) ==> DatumBytes(d) == [0]
    ensures d.IntD? ==> FromLE(DatumBytes(d)) == (if d.i >= 0 then d.i else 0x1_0000_0000 + d.i) && |DatumBytes(d)| == 4
    ensures d.StrD? ==>
              && |DatumBytes(d)| == |d.s| + 1 && DatumBytes(d)[|d.s|] == 0
              && forall i :: 0 <= i < |d.s| ==> DatumBytes(d)[i] as int == d.s[i] as int
  {
    if d.IntD? {
      hide LE, FromLE, Pow256;
      Pow256Values();
      LERoundTrip(if d.i < 0 then d.i + 0x1_0000_0000 else d.i, 4);
    }
  }

  // ----- the tuple struct

  const TUPLE_HEADER: nat := 24
  const DATA_LOC_SIZE: nat := 16

  datatype TupleId = TupleId(page: nat, loc: nat)
  datatype DataLoc = DataLoc(offset: nat, length: nat)
  datatype Tuple = Tuple(length: nat, tid: TupleId, nulls: seq<bool>, locs: seq<DataLoc>, data: Bytes)

  function Joint(cells: seq<Bytes>): Bytes {
    if cells == [] then [] else Joint(cells[..|cells| - 1]) + cells[|cells| - 1]
  }

  function LocsOf(cells: seq<Bytes>): (r: seq<DataLoc>)
    ensures |r| == |cells|
  {
    if cells == [] then [] else
      var init := cells[..|cells| - 1];
      LocsOf(init) + [DataLoc(|Joint(init)|, |cells[|cells| - 1]|)]
  }

  /** The tuple with these cells laid end to end. */
  function Pack(tid: TupleId, nulls: seq<bool>, cells: seq<Bytes>): Tuple {
    Tuple(TUPLE_HEADER + |cells| + DATA_LOC_SIZE * |cells| + |Joint(cells)|, tid, nulls, LocsOf(cells), Joint(cells))
  }

  function Cell(t: Tuple, i: nat): Bytes
    requires i < |t.locs|
  {
    var loc := t.locs[i];
    if loc.offset + loc.length <= |t.data| then t.data[loc.offset..loc.offset + loc.length] else []
  }

  function Cells(t: Tuple): (r: seq<Bytes>)
    ensures |r| == |t.locs|
    ensures forall i :: 0 <= i < |r| ==> r[i] == Cell(t, i)
  {
    seq(|t.locs|, i requires 0 <= i < |t.locs| => Cell(t, i))
  }

  /** A well-formed tuple is one its own cells would be packed into. */
  ghost predicate WellFormed(t: Tuple) {
    |t.nulls| == |t.locs| && t == Pack(t.tid, t.nulls, Cells(t))
  }

  lemma {:induction false} PackedCell(tid: TupleId, nulls: seq<bool>, cells: seq<Bytes>, more: Bytes, i: nat)
    requires i < |cells|
    ensures LocsOf(cells)[i].length == |cells[i]| && LocsOf(cells)[i].offset + |cells[i]| <= |Joint(cells)|
    ensures (Joint(cells) + more)[LocsOf(cells)[i].offset..LocsOf(cells)[i].offset + |cells[i]|] == cells[i]
    decreases |cells|
  {
    var init, last := cells[..|cells| - 1], cells[|cells| - 1];
    if i < |init| {
      PackedCell(tid, nulls, init, last + more, i);
      assert Joint(cells) + more == Joint(init) + (last + more);
    }
  }

  lemma PackedCells(tid: TupleId, nulls: seq<bool>, cells: seq<Bytes>)
    ensures Cells(Pack(tid, nulls, cells)) == cells
  {
    var t := Pack(tid, nulls, cells);
    forall i | 0 <= i < |cells|
      ensures Cell(t, i) == cells[i]
    {
      PackedCell(tid, nulls, cells, [], i);
      assert Joint(cells) + [] == Joint(cells);
    }
  }

  // ----- GetCol, SetCol, MakeTuple

  /** GetColByIdx. */
  function GetCol(t: Tuple, i: nat, ty: BType): Datum
    requires i < |t.nulls| == |t.locs|
  {
    if t.nulls[i] then NullD else DatumOf(ty, Cell(t, i))
  }

  function WithCol(t: Tuple, i: nat, d: Datum): (r: Tuple)
    requires i < |t.nulls| == |t.locs|
    ensures |r.nulls| == |r.locs| == |t.locs| && r.tid == t.tid
  {
    Pack(t.tid, t.nulls[i := d == NullD], Cells(t)[i := DatumBytes(d)])
  }

  function EmptyTuple(n: nat): Tuple {
    Pack(TupleId(0, 0), seq(n, _ => true), seq(n, _ => [0]))
  }

  lemma {:induction false} JointUpdate(cells: seq<Bytes>, i: nat, cell: Bytes)
    requires i < |cells|
    ensures |Joint(cells[i := cell])| == |Joint(cells)| - |cells[i]| + |cell|
  {
    var init := cells[..|cells| - 1];
    if i < |init| {
      JointUpdate(init, i, cell);
      assert cells[i := cell][..|cells| - 1] == init[i := cell];
    } else {
      assert cells[i := cell][..|cells| - 1] == init;
    }
  }

  /** MakeTuple: every column null, with one zero byte of data each. */
  method MakeTuple(n: nat) returns (t: Tuple)
    ensures t == EmptyTuple(n) && WellFormed(t)
  {
    hide Joint, LocsOf, WellFormed;
    var nulls, locs, data, offset := [], [], [], 0;
    ghost var cells: seq<Bytes> := seq(n, _ => [0]);
    PackStart(cells);
    for i := 0 to n
      invariant nulls == seq(i, _ => true)
      invariant locs == LocsOf(cells[..i]) && data == Joint(cells[..i]) && |data| == offset == i
    {
      PackStep(cells, i);
      nulls := nulls + [true];
      locs := locs + [DataLoc(offset, 1)];
      data := data + [0];
      offset := offset + 1;
    }
    assert cells[..n] == cells;
    PackedWellFormed(TupleId(0, 0), nulls, cells);
    t := Tuple(TUPLE_HEADER + n + DATA_LOC_SIZE * n + n, TupleId(0, 0), nulls, locs, data);
  }

  /** SetCol: lay the tuple out again with one column replaced. */
  method SetCol(t: Tuple, change: nat, d: Datum) returns (r: Tuple)
    requires WellFormed(t) && change < |t.locs|
    ensures r == WithCol(t, change, d) && WellFormed(r)
  {
    hide Joint, LocsOf, WellFormed, Cell, DatumBytes;
    var bytes := DatumBytes(d);
    CellInPlace(t, change);
    JointUpdate(Cells(t), change, bytes);
    var length := t.length + |bytes| - t.locs[change].length;
    ghost var cells := Cells(t)[change := bytes];
    var locs, data, offset := [], [], 0;
    PackStart(cells);
    for i := 0 to |t.locs|
      invariant locs == LocsOf(cells[..i]) && data == Joint(cells[..i]) && offset == |data|
    {
      PackStep(cells, i);
      CellInPlace(t, i);
      var cell := if i == change then bytes else t.data[t.locs[i].offset..t.locs[i].offset + t.locs[i].length];
      locs := locs + [DataLoc(offset, |cell|)];
      data := data + cell;
      offset := offset + |cell|;
    }
    assert cells[..|t.locs|] == cells;
    PackedWellFormed(t.tid, t.nulls[change := d == NullD], cells);
    r := Tuple(length, t.tid, t.nulls[change := d == NullD], locs, data);
  }

  lemma CellInPlace(t: Tuple, i: nat)
    requires WellFormed(t) && i < |t.locs|
    ensures |t.nulls| == |t.locs| && t.locs[i].length == |Cell(t, i)|
    ensures t.length == TUPLE_HEADER + |t.locs| + DATA_LOC_SIZE * |t.locs| + |Joint(Cells(t))|
    ensures t.locs[i].offset + t.locs[i].length <= |t.data|
    ensures t.data[t.locs[i].offset..t.locs[i].offset + t.locs[i].length] == Cell(t, i)
  {
    PackedCell(t.tid, t.nulls, Cells(t), [], i);
    assert Joint(Cells(t)) + [] == t.data;
  }

  lemma PackStart(cells: seq<Bytes>)
    ensures LocsOf(cells[..0]) == [] && Joint(cells[..0]) == []
  {
  }

  lemma PackStep(cells: seq<Bytes>, i: nat)
    requires i < |cells|
    ensures LocsOf(cells[..i + 1]) == LocsOf(cells[..i]) + [DataLoc(|Joint(cells[..i])|, |cells[i]|)]
    ensures Joint(cells[..i + 1]) == Joint(cells[..i]) + cells[i]
  {
    assert cells[..i + 1][..i] == cells[..i];
  }

  lemma PackedWellFormed(tid: TupleId, nulls: seq<bool>, cells: seq<Bytes>)
    requires |nulls| == |cells|
    ensures WellFormed(Pack(tid, nulls, cells))
  {
    PackedCells(tid, nulls, cells);
  }

  /** Get after set, for every tuple layout. */
  lemma GetAfterSet(t: Tuple, i: nat, d: Datum, j: nat, ty: BType)
    requires WellFormed(t) && i < |t.locs| && j < |t.locs|
    requires i == j && d != NullD ==> ty == TypeOf(d)
    ensures GetCol(WithCol(t, i, d), j, ty) == if i == j then d else GetCol(t, j, ty)
  {
    PackedCells(t.tid, t.nulls[i := d == NullD], Cells(t)[i := DatumBytes(d)]);
    assert Cell(WithCol(t, i, d), j) == Cells(t)[i := DatumBytes(d)][j];
    if i == j && d != NullD {
      DatumRoundTrip(d);
    }
  }

  // ----- tuples as item bytes

  function NullBytes(nulls: seq<bool>): (r: Bytes)
    ensures |r| == |nulls|
    ensures forall i :: 0 <= i < |r| ==> r[i] == Truth(nulls[i])
  {
    seq(|nulls|, i requires 0 <= i < |nulls| => Truth(nulls[i]))
  }

  function LocsBytes(locs: seq<DataLoc>): (r: Bytes)
    ensures |r| == DATA_LOC_SIZE * |locs|
  {
    if locs == [] then [] else
      LocsBytes(locs[..|locs| - 1]) + LE(locs[|locs| - 1].offset, 8) + LE(locs[|locs| - 1].length, 8)
  }

  function Header(t: Tuple): (r: Bytes)
    ensures |r| == TUPLE_HEADER
  {
    LE(t.length, 8) + LE(t.tid.page, 2) + LE(t.tid.loc, 2) + [0, 0, 0, 0] + LE(|t.locs|, 8)
  }

  /** The struct Tuple in memory. */
  function TupleBytes(t: Tuple): (r: Bytes)
    requires |t.nulls| == |t.locs|
    ensures |r| == TUPLE_HEADER + |t.locs| + DATA_LOC_SIZE * |t.locs| + |t.data|
  {
    Header(t) + NullBytes(t.nulls) + LocsBytes(t.locs) + t.data
  }

  function LocAt(b: Bytes, at: nat): DataLoc
    requires at + DATA_LOC_SIZE <= |b|
  {
    DataLoc(FromLE(b[at..at + 8]), FromLE(b[at + 8..at + 16]))
  }

  /** What the accessor macros read back; a string too short for its own column count reads as a
      tuple with no columns. */
  function TupleOf(b: Bytes): (t: Tuple)
    ensures |t.nulls| == |t.locs|
  {
    var n := if |b| < TUPLE_HEADER then 0 else FromLE(b[16..24]);
    var start := TUPLE_HEADER + n + DATA_LOC_SIZE * n;
    if |b| < TUPLE_HEADER || |b| < start then EmptyTuple(0) else
      Tuple(FromLE(b[..8]),
            TupleId(FromLE(b[8..10]), FromLE(b[10..12])),
            seq(n, i requires 0 <= i < n => b[TUPLE_HEADER + i] != 0),
            seq(n, i requires 0 <= i < n => LocAt(b, TUPLE_HEADER + n + DATA_LOC_SIZE * i)),
            b[start..])
  }

  ghost predicate Storable(t: Tuple) {
    && |t.nulls| == |t.locs| < SIZE_T_RANGE
    && t.length < SIZE_T_RANGE && t.tid.page < 0x1_0000 && t.tid.loc < 0x1_0000
    && forall i :: 0 <= i < |t.locs| ==> t.locs[i].offset < SIZE_T_RANGE && t.locs[i].length < SIZE_T_RANGE
  }

  lemma {:induction false} LocsBytesAt(locs: seq<DataLoc>, front: Bytes, back: Bytes, i: nat)
    requires i < |locs|
    requires forall k :: 0 <= k < |locs| ==> locs[k].offset < SIZE_T_RANGE && locs[k].length < SIZE_T_RANGE
    ensures LocAt(front + LocsBytes(locs) + back, |front| + DATA_LOC_SIZE * i) == locs[i]
    decreases |locs|
  {
    hide LE, LocAt;
    var init, last := locs[..|locs| - 1], locs[|locs| - 1];
    if i < |init| {
      LocsBytesAt(init, front, LE(last.offset, 8) + LE(last.length, 8) + back, i);
      Regrouped(front, LocsBytes(init), LE(last.offset, 8), LE(last.length, 8), back);
    } else {
      LocAtEnd(front + LocsBytes(init), last, back);
      Regrouped(front, LocsBytes(init), LE(last.offset, 8), LE(last.length, 8), back);
    }
  }

  lemma Regrouped(a: Bytes, b: Bytes, c: Bytes, d: Bytes, e: Bytes)
    ensures a + (b + c + d) + e == a + b + (c + d + e)
    ensures a + (b + c + d) + e == (a + b) + c + d + e
  {
  }

  lemma LocAtEnd(front: Bytes, loc: DataLoc, back: Bytes)
    requires loc.offset < SIZE_T_RANGE && loc.length < SIZE_T_RANGE
    ensures LocAt(front + LE(loc.offset, 8) + LE(loc.length, 8) + back, |front|) == loc
  {
    hide LE, FromLE, Pow256;
    Pow256Values();
    LERoundTrip(loc.offset, 8);
    LERoundTrip(loc.length, 8);
    var b := front + LE(loc.offset, 8) + LE(loc.length, 8) + back;
    assert b[|front|..|front| + 8] == LE(loc.offset, 8);
    assert b[|front| + 8..|front| + 16] == LE(loc.length, 8);
  }

  lemma HeaderRoundTrip(t: Tuple, back: Bytes)
    requires Storable(t)
    ensures var b := Header(t) + back;
            && FromLE(b[..8]) == t.length
            && TupleId(FromLE(b[8..10]), FromLE(b[10..12])) == t.tid
            && FromLE(b[16..24]) == |t.locs|
  {
    hide LE, FromLE, Pow256;
    var b := Header(t) + back;
    Pow256Values();
    LERoundTrip(t.length, 8);
    LERoundTrip(t.tid.page, 2);
    LERoundTrip(t.tid.loc, 2);
    LERoundTrip(|t.locs|, 8);
    assert b[..8] == LE(t.length, 8);
    assert b[8..10] == LE(t.tid.page, 2);
    assert b[10..12] == LE(t.tid.loc, 2);
    assert b[16..24] == LE(|t.locs|, 8);
  }

  /** Where everything lies in a tuple: length, page and slot number, column count, one byte a column that says
      whether it is null, offset and length of each column's data, the data. */
  lemma TupleLayout(t: Tuple)
    requires Storable(t)
    ensures |t.nulls| == |t.locs|
    ensures var b, n := TupleBytes(t), |t.locs|;
            && |b| == 24 + 17 * n + |t.data| && b[24 + 17 * n..] == t.data
            && FromLE(b[0..8]) == t.length && FromLE(b[8..10]) == t.tid.page && FromLE(b[10..12]) == t.tid.loc
            && FromLE(b[16..24]) == n
    ensures var b, n := TupleBytes(t), |t.locs|;
            forall i :: 0 <= i < n ==>
              && b[24 + i] == (if t.nulls[i] then 1 else 0)
              && FromLE(b[24 + n + 16 * i..24 + n + 16 * i + 8]) == t.locs[i].offset
              && FromLE(b[24 + n + 16 * i + 8..24 + n + 16 * i + 16]) == t.locs[i].length
  {
    hide Header, LE, FromLE, LocsBytes, Storable, NullBytes, TupleBytes, LocAt;
    TupleParts(t);
    var b, n := TupleBytes(t), |t.locs|;
    HeaderRoundTrip(t, NullBytes(t.nulls) + LocsBytes(t.locs) + t.data);
    forall i | 0 <= i < n
      ensures b[24 + i] == (if t.nulls[i] then 1 else 0)
      ensures FromLE(b[24 + n + 16 * i..24 + n + 16 * i + 8]) == t.locs[i].offset
      ensures FromLE(b[24 + n + 16 * i + 8..24 + n + 16 * i + 16]) == t.locs[i].length
    {
      PartsAt(t, i);
      LocAtIs(b, 24 + n + 16 * i);
    }
  }

  lemma LocAtIs(b: Bytes, at: nat)
    requires at + DATA_LOC_SIZE <= |b|
    ensures LocAt(b, at) == DataLoc(FromLE(b[at..at + 8]), FromLE(b[at + 8..at + 16]))
  {
  }

  /** A tuple written to a page reads back as itself. */
  lemma TupleRoundTrip(t: Tuple)
    requires Storable(t)
    ensures TupleOf(TupleBytes(t)) == t
  {
    hide Header, LE, FromLE, LocsBytes, Storable, LocAt, NullBytes, TupleBytes;
    TupleParts(t);
    var b, n := TupleBytes(t), |t.locs|;
    HeaderRoundTrip(t, NullBytes(t.nulls) + LocsBytes(t.locs) + t.data);
    forall i | 0 <= i < n
      ensures b[TUPLE_HEADER + i] == Truth(t.nulls[i])
      ensures LocAt(b, TUPLE_HEADER + n + DATA_LOC_SIZE * i) == t.locs[i]
    {
      PartsAt(t, i);
    }
    var r := TupleOf(b);
    assert r.nulls == t.nulls;
    assert r.locs == t.locs;
  }

  lemma PartsAt(t: Tuple, i: nat)
    requires Storable(t) && i < |t.locs|
    ensures TupleBytes(t)[TUPLE_HEADER + i] == Truth(t.nulls[i])
    ensures LocAt(TupleBytes(t), TUPLE_HEADER + |t.locs| + DATA_LOC_SIZE * i) == t.locs[i]
  {
    hide Header, LE, FromLE, LocsBytes, Storable, LocAt, NullBytes;
    StorableLocs(t);
    LocsBytesAt(t.locs, Header(t) + NullBytes(t.nulls), t.data, i);
  }

  lemma StorableLocs(t: Tuple)
    requires Storable(t)
    ensures |t.nulls| == |t.locs|
    ensures forall i :: 0 <= i < |t.locs| ==> t.locs[i].offset < SIZE_T_RANGE && t.locs[i].length < SIZE_T_RANGE
  {
  }

  lemma TupleParts(t: Tuple)
    requires Storable(t)
    ensures |t.nulls| == |t.locs|
    ensures TupleBytes(t) == Header(t) + (NullBytes(t.nulls) + LocsBytes(t.locs) + t.data)
    ensures TupleBytes(t)[TUPLE_HEADER + |t.locs| + DATA_LOC_SIZE * |t.locs|..] == t.data
  {
    hide Header, NullBytes, LocsBytes;
  }

  // ----- rows: the tuples INSERT and UPDATE write

  type Row = seq<Datum>

  function Nulls(row: Row): (r: seq<bool>)
    ensures |r| == |row|
    ensures forall i :: 0 <= i < |r| ==> r[i] == (row[i] == NullD)
  {
    seq(|row|, i requires 0 <= i < |row| => row[i] == NullD)
  }

  function RowCells(row: Row): (r: seq<Bytes>)
    ensures |r| == |row|
    ensures forall i :: 0 <= i < |r| ==> r[i] == DatumBytes(row[i])
  {
    seq(|row|, i requires 0 <= i < |row| => DatumBytes(row[i]))
  }

  /** The tuple SetCol builds when every column has been set. */
  function RowTuple(tid: TupleId, row: Row): Tuple {
    Pack(tid, Nulls(row), RowCells(row))
  }

  function RowBytes(tid: TupleId, row: Row): (b: Bytes)
    ensures |b| == RowSize(row)
  {
    TupleBytes(RowTuple(tid, row))
  }

  /** Bytes a row takes, whatever its tuple id. */
  function RowSize(row: Row): nat {
    TUPLE_HEADER + |row| + DATA_LOC_SIZE * |row| + |Joint(RowCells(row))|
  }

  ghost predicate Conforms(row: Row, types: seq<BType>) {
    && |row| == |types|
    && forall i :: 0 <= i < |row| ==> row[i] == NullD || TypeOf(row[i]) == types[i]
  }

  function RowOf(t: Tuple, types: seq<BType>): (row: Row)
    requires |t.nulls| == |t.locs|
    ensures |row| == |t.locs| || |row| == |types|
  {
    seq(if |t.locs| < |types| then |t.locs| else |types|,
        i requires 0 <= i < |t.locs| && i < |types| => GetCol(t, i, types[i]))
  }

  ghost predicate IsTid(tid: TupleId) {
    tid.page < 0x1_0000 && tid.loc < 0x1_0000
  }

  lemma {:induction false} LocsWithin(cells: seq<Bytes>)
    ensures forall i :: 0 <= i < |cells| ==>
            LocsOf(cells)[i].offset <= |Joint(cells)| && LocsOf(cells)[i].length <= |Joint(cells)|
  {
    if cells != [] {
      LocsWithin(cells[..|cells| - 1]);
    }
  }

  lemma RowStorable(tid: TupleId, row: Row)
    requires IsTid(tid) && RowSize(row) < SIZE_T_RANGE
    ensures Storable(RowTuple(tid, row))
  {
    hide Joint, LocsOf;
    LocsWithin(RowCells(row));
  }

  lemma RowCol(tid: TupleId, row: Row, i: nat, ty: BType)
    requires i < |row| && (row[i] == NullD || TypeOf(row[i]) == ty)
    ensures |RowTuple(tid, row).nulls| == |RowTuple(tid, row).locs| == |row|
    ensures GetCol(RowTuple(tid, row), i, ty) == row[i]
  {
    hide Joint, LocsOf, Cell, DatumOf, DatumBytes;
    PackedCells(tid, Nulls(row), RowCells(row));
    assert Cells(RowTuple(tid, row))[i] == RowCells(row)[i];
    if row[i] != NullD {
      DatumRoundTrip(row[i]);
    }
  }

  /** A row written under any tuple id reads back with the same columns and the same id. */
  lemma RowRoundTrip(tid: TupleId, row: Row, types: seq<BType>)
    requires IsTid(tid) && RowSize(row) < SIZE_T_RANGE && Conforms(row, types)
    ensures TupleOf(RowBytes(tid, row)).tid == tid
    ensures RowOf(TupleOf(RowBytes(tid, row)), types) == row
  {
    hide TupleBytes, TupleOf, Joint, LocsOf, GetCol, Nulls, RowCells;
    RowStorable(tid, row);
    TupleRoundTrip(RowTuple(tid, row));
    var t := RowTuple(tid, row);
    forall i | 0 <= i < |row|
      ensures GetCol(t, i, types[i]) == row[i]
    {
      RowCol(tid, row, i, types[i]);
    }
    assert RowOf(t, types) == row;
  }

  lemma WellFormedIs(t: Tuple)
    requires WellFormed(t)
    ensures t == Pack(t.tid, t.nulls, Cells(t))
  {
  }

  // ----- columns set by name

  function NullRow(n: nat): (r: Row)
    ensures |r| == n && forall i :: 0 <= i < n ==> r[i] == NullD
  {
    seq(n, _ => NullD)
  }

  /** SetCol and GetCol by name; the callers use names their table definitions have. */
  function SetName(row: Row, cols: seq<ColDesc>, name: CString, d: Datum): (r: Row)
    ensures |r| == |row|
  {
    if ColIdx(cols, name) < |row| then row[ColIdx(cols, name) := d] else row
  }

  function GetName(row: Row, cols: seq<ColDesc>, name: CString): Datum {
    if ColIdx(cols, name) < |row| then row[ColIdx(cols, name)] else NullD
  }

  /** The columns after the first n values have been set, each under the name of its column. */
  function NamedRow(cols: seq<ColDesc>, row: Row, n: nat): (r: Row)
    requires n <= |row| == |cols|
    ensures |r| == |cols|
  {
    if n == 0 then NullRow(|cols|) else SetName(NamedRow(cols, row, n - 1), cols, cols[n - 1].name, row[n - 1])
  }

  /** The tuple at that point. */
  function NamedTuple(cols: seq<ColDesc>, row: Row, n: nat): (t: Tuple)
    requires n <= |row| == |cols|
    ensures |t.nulls| == |t.locs| == |cols| && t.tid == TupleId(0, 0)
  {
    if n == 0 then EmptyTuple(|cols|) else
      WithCol(NamedTuple(cols, row, n - 1), FirstOf(cols, n - 1), row[n - 1])
  }

  /** The first column of the name that column i has. */
  function FirstOf(cols: seq<ColDesc>, i: nat): (f: nat)
    requires i < |cols|
    ensures f <= i && cols[f].name == cols[i].name && forall j :: 0 <= j < f ==> cols[j].name != cols[i].name
  {
    ColIdx(cols, cols[i].name)
  }

  /** Columns that share a name share a type. */
  ghost predicate NamesTyped(cols: seq<ColDesc>) {
    forall i, j :: 0 <= i < j < |cols| && cols[i].name == cols[j].name ==> cols[i].ty == cols[j].ty
  }

  /** The column loop of InsertScan and MakeIndexTuple: starting from an all-null tuple, set every column
      by its name. */
  method BuildTuple(cols: seq<ColDesc>, row: Row) returns (t: Tuple)
    requires |row| == |cols|
    ensures t == NamedTuple(cols, row, |row|) && WellFormed(t)
    ensures UniqueNames(cols) ==> t == RowTuple(TupleId(0, 0), row)
  {
    hide WellFormed, WithCol, RowTuple, UniqueNames;
    t := MakeTuple(|cols|);
    for i := 0 to |row|
      invariant t == NamedTuple(cols, row, i) && WellFormed(t)
    {
      t := SetCol(t, FirstOf(cols, i), row[i]);
    }
    if UniqueNames(cols) {
      NamedUnique(cols, row);
    }
  }

  lemma NamedNone(cols: seq<ColDesc>, row: Row)
    requires |row| == |cols|
    ensures NamedTuple(cols, row, 0) == EmptyTuple(|cols|) && NamedRow(cols, row, 0) == NullRow(|cols|)
  {
  }

  lemma NamedStep(cols: seq<ColDesc>, row: Row, n: nat)
    requires 0 < n <= |row| == |cols|
    ensures NamedTuple(cols, row, n) == WithCol(NamedTuple(cols, row, n - 1), FirstOf(cols, n - 1), row[n - 1])
    ensures NamedRow(cols, row, n) == NamedRow(cols, row, n - 1)[FirstOf(cols, n - 1) := row[n - 1]]
    ensures FirstOf(cols, n - 1) == ColIdx(cols, cols[n - 1].name)
  {
    hide WithCol;
  }

  lemma EmptyCells(n: nat)
    ensures var t := EmptyTuple(n);
            WellFormed(t) && |t.nulls| == |t.locs| == |Cells(t)| == n && t.nulls == seq(n, _ => true)
  {
    hide Joint, LocsOf, WellFormed;
    PackedWellFormed(TupleId(0, 0), seq(n, _ => true), seq(n, _ => [0]));
  }

  /** The bytes of a fresh tuple: a header, and for each column a null mark, an entry for its data and one zero byte. */
  lemma EmptyLayout(n: nat)
    ensures EmptyTuple(n).length == 24 + 18 * n && EmptyTuple(n).nulls == seq(n, _ => true)
    ensures EmptyTuple(n).data == seq(n, _ => 0) && |EmptyTuple(n).locs| == n
    ensures forall i :: 0 <= i < n ==> EmptyTuple(n).locs[i] == DataLoc(i, 1)
  {
    hide Joint, LocsOf;
    ZeroCells(n);
  }

  lemma {:induction false} ZeroCells(n: nat)
    ensures var cells := seq(n, _ => [0]);
            && Joint(cells) == seq(n, _ => 0)
            && |LocsOf(cells)| == n && forall i :: 0 <= i < n ==> LocsOf(cells)[i] == DataLoc(i, 1)
  {
    if n > 0 {
      var cells: seq<Bytes> := seq(n, _ => [0]);
      ZeroCells(n - 1);
      assert cells[..n - 1] == seq(n - 1, _ => [0]);
    }
  }

  lemma WithColCells(t: Tuple, i: nat, d: Datum)
    requires WellFormed(t) && i < |t.locs|
    ensures |t.nulls| == |t.locs| == |Cells(t)|
    ensures var u := WithCol(t, i, d);
            && WellFormed(u) && u.nulls == t.nulls[i := d == NullD] && Cells(u) == Cells(t)[i := DatumBytes(d)]
  {
    hide Joint, LocsOf, DatumBytes, Cell;
    PackedWellFormed(t.tid, t.nulls[i := d == NullD], Cells(t)[i := DatumBytes(d)]);
    PackedCells(t.tid, t.nulls[i := d == NullD], Cells(t)[i := DatumBytes(d)]);
  }

  /** The last of the first n columns with the name of column i. */
  ghost function LastOf(cols: seq<ColDesc>, n: nat, i: nat): (j: nat)
    requires i < n <= |cols|
    ensures i <= j < n && FirstOf(cols, j) == FirstOf(cols, i)
    ensures forall k :: j < k < n ==> FirstOf(cols, k) != FirstOf(cols, i)
  {
    if n - 1 == i || FirstOf(cols, n - 1) == FirstOf(cols, i) then n - 1 else LastOf(cols, n - 1, i)
  }

  /** The cells after n values: the first column of a name holds the last one given under it. */
  lemma {:induction false} NamedCell(cols: seq<ColDesc>, row: Row, n: nat, k: nat)
    requires n <= |row| == |cols| && k < |cols|
    ensures WellFormed(NamedTuple(cols, row, n))
    ensures FirstOf(cols, k) != k || n <= k ==> NamedTuple(cols, row, n).nulls[k]
    ensures FirstOf(cols, k) == k < n ==>
              && Cells(NamedTuple(cols, row, n))[k] == DatumBytes(row[LastOf(cols, n, k)])
              && NamedTuple(cols, row, n).nulls[k] == (row[LastOf(cols, n, k)] == NullD)
  {
    hide Cells, DatumBytes, WellFormed, WithCol, EmptyTuple, NamedTuple, ColIdx;
    NamedNone(cols, row);
    if n == 0 {
      EmptyCells(|cols|);
    } else {
      NamedCell(cols, row, n - 1, k);
      NamedStep(cols, row, n);
      WithColCells(NamedTuple(cols, row, n - 1), FirstOf(cols, n - 1), row[n - 1]);
    }
  }

  /** With different names every value lands in its own column. */
  lemma NamedUnique(cols: seq<ColDesc>, row: Row)
    requires |row| == |cols| && UniqueNames(cols)
    ensures NamedTuple(cols, row, |row|) == RowTuple(TupleId(0, 0), row)
  {
    hide NamedTuple, Joint, LocsOf, Cell, DatumBytes, WellFormed, LastOf;
    var n, t := |row|, NamedTuple(cols, row, |row|);
    forall k: nat | k < n
      ensures Cells(t)[k] == RowCells(row)[k] && t.nulls[k] == Nulls(row)[k]
    {
      NamedCell(cols, row, n, k);
      ColIdxUnique(cols, k);
      ColIdxUnique(cols, LastOf(cols, n, k));
    }
    if n > 0 {
      NamedCell(cols, row, n, 0);
    } else {
      NamedNone(cols, row);
      EmptyCells(0);
    }
    assert Cells(t) == RowCells(row) && t.nulls == Nulls(row);
    WellFormedIs(t);
  }

  /** The first column of a name holds the last value given under it, every other one stays null. */
  lemma {:induction false} NamedAt(cols: seq<ColDesc>, row: Row, n: nat, i: nat)
    requires n <= |row| == |cols| && i < |cols|
    ensures FirstOf(cols, i) != i ==> NamedRow(cols, row, n)[i] == NullD
    ensures i < n && FirstOf(cols, i) == i ==> NamedRow(cols, row, n)[i] == row[LastOf(cols, n, i)]
  {
    if n > 0 {
      NamedAt(cols, row, n - 1, i);
    }
  }

  /** Every column that shares its name with another is given null. */
  ghost predicate SharedNull(cols: seq<ColDesc>, row: Row) {
    forall i, j :: 0 <= i < j < |cols| && i < |row| && j < |row| && cols[i].name == cols[j].name ==>
      row[i] == row[j] == NullD
  }

  /** Exactly then is the row that is stored the row of values. */
  lemma NamedExactly(cols: seq<ColDesc>, row: Row)
    requires |row| == |cols|
    ensures NamedRow(cols, row, |row|) == row <==> SharedNull(cols, row)
  {
    hide NamedRow, SharedNull;
    var n, r := |row|, NamedRow(cols, row, |row|);
    if r == row {
      NamedShared(cols, row);
    } else if SharedNull(cols, row) {
      var i :| 0 <= i < n && r[i] != row[i];
      SharedNamed(cols, row, i);
    }
  }

  lemma NamedShared(cols: seq<ColDesc>, row: Row)
    requires |row| == |cols| && NamedRow(cols, row, |row|) == row
    ensures SharedNull(cols, row)
  {
    hide FirstOf, NamedRow, LastOf;
    forall i: nat, j: nat | i < j < |row| && cols[i].name == cols[j].name
      ensures row[i] == row[j] == NullD
    {
      SameFirst(cols, i, j);
      NamedAt(cols, row, |row|, i);
      NamedAt(cols, row, |row|, j);
      NamedAt(cols, row, |row|, LastOf(cols, |row|, i));
    }
  }

  lemma SharedNamed(cols: seq<ColDesc>, row: Row, i: nat)
    requires i < |row| == |cols| && SharedNull(cols, row)
    ensures NamedRow(cols, row, |row|)[i] == row[i]
  {
    hide NamedRow, LastOf;
    NamedAt(cols, row, |row|, i);
    var f, l := FirstOf(cols, i), LastOf(cols, |row|, i);
    assert cols[l].name == cols[FirstOf(cols, l)].name;
  }

  lemma SameFirst(cols: seq<ColDesc>, i: nat, j: nat)
    requires i < j < |cols| && cols[i].name == cols[j].name
    ensures FirstOf(cols, i) == FirstOf(cols, j) <= i
    ensures LastOf(cols, |cols|, i) >= j
  {
    hide FirstOf;
  }

  lemma UniqueExactly(cols: seq<ColDesc>)
    ensures UniqueNames(cols) <==> forall row :: |row| == |cols| ==> NamedRow(cols, row, |row|) == row
  {
    hide NamedRow, SharedNull, UniqueNames;
    forall row: Row | |row| == |cols|
      ensures UniqueNames(cols) ==> NamedRow(cols, row, |row|) == row
    {
      NamedExactly(cols, row);
      UniqueShares(cols, row);
    }
    if !UniqueNames(cols) {
      var row: Row := seq(|cols|, _ => BoolD(true));
      NamedExactly(cols, row);
      RepeatedShares(cols, row);
    }
  }

  lemma UniqueShares(cols: seq<ColDesc>, row: Row)
    ensures UniqueNames(cols) ==> SharedNull(cols, row)
  {
  }

  lemma RepeatedShares(cols: seq<ColDesc>, row: Row)
    requires !UniqueNames(cols) && |row| == |cols| && forall i :: 0 <= i < |row| ==> row[i] != NullD
    ensures !SharedNull(cols, row)
  {
  }

  // ----- tuples a heap can hold

  /** The column is null, or holds exactly the bytes of a datum of its type. */
  ghost predicate ColFits(t: Tuple, i: nat, ty: BType)
    requires i < |t.nulls| == |t.locs|
  {
    t.nulls[i] || (GetCol(t, i, ty) != NullD && Cell(t, i) == DatumBytes(GetCol(t, i, ty)))
  }

  ghost predicate ColsFit(t: Tuple, types: seq<BType>) {
    |t.nulls| == |t.locs| == |types| && forall i :: 0 <= i < |types| ==> ColFits(t, i, types[i])
  }

  /** A tuple as MakeTuple and SetCol lay it out, with a column for each of these types. */
  ghost predicate Shaped(t: Tuple, types: seq<BType>) {
    WellFormed(t) && ColsFit(t, types)
  }

  /** Such a tuple that is shorter than a page. */
  ghost predicate Fits(t: Tuple, types: seq<BType>) {
    Shaped(t, types) && t.length < PAGE_SIZE
  }

  /** The same tuple under another id. */
  function Under(t: Tuple, tid: TupleId): Tuple {
    t.(tid := tid)
  }

  lemma ShapedWidth(t: Tuple, types: seq<BType>)
    requires Shaped(t, types)
    ensures WellFormed(t) && |t.nulls| == |t.locs| == |types| == |RowOf(t, types)|
    ensures Conforms(RowOf(t, types), types)
  {
    hide WellFormed, CharsOf, FromLE, Cell, ColFits;
  }

  lemma UnderFits(t: Tuple, tid: TupleId, types: seq<BType>)
    requires Fits(t, types)
    ensures Fits(Under(t, tid), types) && RowOf(Under(t, tid), types) == RowOf(t, types)
  {
    hide DatumOf, DatumBytes, Joint, LocsOf;
    var u := Under(t, tid);
    assert Cells(u) == Cells(t);
    forall i | 0 <= i < |types|
      ensures ColFits(u, i, types[i])
    {
      assert ColFits(t, i, types[i]);
    }
  }

  lemma FitsFacts(t: Tuple, types: seq<BType>)
    requires Fits(t, types)
    ensures WellFormed(t) && |t.nulls| == |t.locs| == |RowOf(t, types)| == |types|
    ensures |TupleBytes(t)| == t.length < PAGE_SIZE
    ensures Conforms(RowOf(t, types), types) && Shaped(t, types)
    ensures IsTid(t.tid) ==> TupleOf(TupleBytes(t)) == t
  {
    hide TupleBytes, TupleOf, Joint, LocsOf, CharsOf, FromLE, DatumBytes, Cell;
    if IsTid(t.tid) {
      WellFormedStorable(t);
      TupleRoundTrip(t);
    }
  }

  lemma WellFormedStorable(t: Tuple)
    requires WellFormed(t) && IsTid(t.tid) && t.length < SIZE_T_RANGE
    ensures Storable(t)
  {
    hide Cells, Joint, LocsOf;
    LocsWithin(Cells(t));
  }

  lemma RowFits(tid: TupleId, row: Row, types: seq<BType>)
    requires Conforms(row, types) && RowSize(row) < PAGE_SIZE
    ensures Fits(RowTuple(tid, row), types) && RowOf(RowTuple(tid, row), types) == row
    ensures RowTuple(tid, row).length == RowSize(row)
  {
    hide Joint, LocsOf, GetCol, DatumBytes, WellFormed, Cell;
    PackedWellFormed(tid, Nulls(row), RowCells(row));
    PackedCells(tid, Nulls(row), RowCells(row));
    var t := RowTuple(tid, row);
    forall i | 0 <= i < |row|
      ensures GetCol(t, i, types[i]) == row[i] && ColFits(t, i, types[i])
    {
      RowCol(tid, row, i, types[i]);
    }
  }

  /** SetCol with null or a datum of the column's type keeps a tuple in shape and replaces one column. */
  lemma SetFits(t: Tuple, i: nat, d: Datum, types: seq<BType>)
    requires Shaped(t, types) && i < |t.locs| == |types| && (d == NullD || TypeOf(d) == types[i])
    ensures |RowOf(t, types)| == |types|
    ensures var u := WithCol(t, i, d);
            Shaped(u, types) && RowOf(u, types) == RowOf(t, types)[i := d]
  {
    hide WithCol, DatumOf, DatumBytes, Cell, WellFormed;
    var u := WithCol(t, i, d);
    WithColCells(t, i, d);
    forall j | 0 <= j < |types|
      ensures ColFits(u, j, types[j]) && RowOf(u, types)[j] == RowOf(t, types)[i := d][j]
    {
      assert ColFits(t, j, types[j]);
      GetAfterSet(t, i, d, j, types[j]);
      assert Cells(u)[j] == Cells(t)[i := DatumBytes(d)][j];
    }
  }

  /** Every value that stays is null or of the type of the column it lands in. */
  ghost predicate Lands(cols: seq<ColDesc>, row: Row) {
    |row| == |cols| && forall i :: 0 <= i < |cols| && FirstOf(cols, i) == i ==> LandsIn(cols, row, i)
  }

  ghost predicate LandsIn(cols: seq<ColDesc>, row: Row, i: nat)
    requires i < |cols| == |row|
  {
    var d := row[LastOf(cols, |cols|, i)];
    d == NullD || TypeOf(d) == cols[i].ty
  }

  lemma ConformingLands(cols: seq<ColDesc>, row: Row)
    requires Conforms(row, ColTypes(cols)) && NamesTyped(cols)
    ensures Lands(cols, row)
  {
    hide FirstOf, LastOf;
    forall i | 0 <= i < |cols| && FirstOf(cols, i) == i
      ensures LandsIn(cols, row, i)
    {
      var l := LastOf(cols, |cols|, i);
      assert cols[FirstOf(cols, l)].name == cols[l].name;
    }
  }

  /** What the column loop stores: the values, each under its name. */
  lemma NamedMeaning(cols: seq<ColDesc>, row: Row)
    requires Lands(cols, row)
    ensures var t := NamedTuple(cols, row, |row|);
            Shaped(t, ColTypes(cols)) && RowOf(t, ColTypes(cols)) == NamedRow(cols, row, |row|)
  {
    hide WellFormed, NamedTuple, NamedRow, FirstOf, LastOf, DatumBytes, DatumOf;
    var t := NamedTuple(cols, row, |row|);
    forall i: nat | i < |cols|
      ensures ColFits(t, i, cols[i].ty) && GetCol(t, i, cols[i].ty) == NamedRow(cols, row, |row|)[i]
    {
      NamedCell(cols, row, |row|, i);
      NamedAt(cols, row, |row|, i);
      if FirstOf(cols, i) == i {
        assert LandsIn(cols, row, i);
        var d := row[LastOf(cols, |row|, i)];
        if d != NullD {
          DatumRoundTrip(d);
        }
      }
    }
    if |cols| > 0 {
      NamedCell(cols, row, |row|, 0);
    } else {
      NamedNone(cols, row);
      EmptyCells(0);
    }
  }

  // ----- index tuples

  const INDEX_TUPLE_HEADER: nat := 4

  function EntryBytes(pointer: TupleId, t: Tuple): (b: Bytes)
    requires |t.nulls| == |t.locs|
    ensures |b| == INDEX_TUPLE_HEADER + |TupleBytes(t)|
  {
    LE(pointer.page, 2) + LE(pointer.loc, 2) + TupleBytes(t)
  }

  /** The search key of an index tuple: its first column. */
  function KeyOf(kt: BType, b: Bytes): Datum {
    if |b| < INDEX_TUPLE_HEADER then NullD else
      var t := TupleOf(b[INDEX_TUPLE_HEADER..]);
      if t.locs == [] then NullD else GetCol(t, 0, kt)
  }

  function PointerOf(b: Bytes): TupleId {
    if |b| < INDEX_TUPLE_HEADER then TupleId(0, 0) else TupleId(FromLE(b[..2]), FromLE(b[2..4]))
  }

  lemma EntryRoundTrip(pointer: TupleId, t: Tuple, kt: BType)
    requires IsTid(pointer) && Storable(t)
    ensures KeyOf(kt, EntryBytes(pointer, t)) == if t.locs == [] then NullD else GetCol(t, 0, kt)
    ensures PointerOf(EntryBytes(pointer, t)) == pointer
  {
    hide LE, TupleBytes, TupleOf, GetCol, Storable;
    StorableLocs(t);
    EntryParts(pointer, t);
    TupleRoundTrip(t);
  }

  lemma EntryParts(pointer: TupleId, t: Tuple)
    requires IsTid(pointer) && |t.nulls| == |t.locs|
    ensures EntryBytes(pointer, t)[INDEX_TUPLE_HEADER..] == TupleBytes(t)
    ensures PointerOf(EntryBytes(pointer, t)) == pointer
  {
    hide LE, FromLE, Pow256, TupleBytes;
    var b := EntryBytes(pointer, t);
    Pow256Values();
    LERoundTrip(pointer.page, 2);
    LERoundTrip(pointer.loc, 2);
    assert b[..2] == LE(pointer.page, 2) && b[2..4] == LE(pointer.loc, 2);
  }

  /** A one-column index tuple over an int, a bool or a text column: its exact size. */
  lemma EntrySize(pointer: TupleId, d: Datum)
    ensures |EntryBytes(pointer, RowTuple(TupleId(0, 0), [d]))| ==
            45 + match d case NullD => 0 case IntD(_) => 4 case BoolD(_) => 1 case StrD(s) => |s| + 1
  {
    var cells := RowCells([d]);
    assert cells[..0] == [] && Joint(cells) == Joint(cells[..0]) + cells[0];
  }
}
