/** The table catalog: table definitions as text, and their recovery from the catalog heap on restart. */
module Catalog {
  import opened PageLayout
  import opened Types
  import opened Schema
  import opened Codec
  import opened Heap
  import HeapFile
  import HeapWrites
  import opened ModifyScan

  // ----- types as text

  predicate Printable(ty: BType) {
    ty == T_STRING || ty == T_BOOL || ty == T_INT
  }

  /** The three names that stand in the catalog and after a column in CREATE TABLE; any other text is no type. */
  lemma TypeNames(s: CString)
    ensures TypeToString(T_STRING) == "text" && TypeToString(T_BOOL) == "bool" && TypeToString(T_INT) == "int"
    ensures StringToType("text") == T_STRING && StringToType("bool") == T_BOOL && StringToType("int") == T_INT
    ensures s != "text" && s != "bool" && s != "int" ==> StringToType(s) == T_UNKNOWN
  {
    assert StringToType(TypeToString(T_STRING)) == T_STRING;
  }

  /** TypeToString; the caller keeps to types that have a name, where the program panics otherwise. */
  function TypeToString(ty: BType): (s: CString)
    ensures StringToType(s) == if Printable(ty) then ty else T_UNKNOWN
    ensures Clean(s) || !Printable(ty)
  {
    match ty
    case T_STRING => "text"
    case T_BOOL => "bool"
    case T_INT => "int"
    case _ => ""
  }

  function StringToType(s: CString): BType {
    if s == "text" then T_STRING else if s == "bool" then T_BOOL else if s == "int" then T_INT else T_UNKNOWN
  }

  // ----- strtok

  /** Neither empty nor containing a comma: what strtok can return. */
  ghost predicate Clean(s: CString) {
    s != "" && forall i :: 0 <= i < |s| ==> s[i] != ','
  }

  function Cut(s: CString, from: nat, to: nat): (r: CString)
    requires from <= to <= |s|
    ensures r == s[from..to]
  {
    assert forall i :: 0 <= i < to - from ==> s[from..to][i] == s[from + i];
    s[from..to]
  }

  /** The first comma from position i on; the end if there is none. */
  function TokenEnd(s: CString, i: nat): (n: nat)
    requires i <= |s|
    ensures i <= n <= |s| && (n < |s| ==> s[n] == ',')
    ensures forall j :: i <= j < n ==> s[j] != ','
    decreases |s| - i
  {
    if i == |s| || s[i] == ',' then i else TokenEnd(s, i + 1)
  }

  datatype Token = NoToken | Token(text: CString, rest: CString)

  /** strtok_r with separator ",": skip commas, cut at the next one, go on behind it. */
  function NextToken(s: CString): (t: Token)
    ensures t.Token? ==> Clean(t.text) && |t.rest| < |s|
    decreases |s|
  {
    if s == "" then NoToken
    else if s[0] == ',' then NextToken(Cut(s, 1, |s|))
    else
      var n := TokenEnd(s, 0);
      Token(Cut(s, 0, n), if n < |s| then Cut(s, n + 1, |s|) else "")
  }

  lemma {:induction false} EndAt(s: CString, i: nat, n: nat)
    requires i <= n <= |s| && (n < |s| ==> s[n] == ',') && forall j :: i <= j < n ==> s[j] != ','
    ensures TokenEnd(s, i) == n
    decreases n - i
  {
    if i < n {
      EndAt(s, i + 1, n);
    }
  }

  function Glue(a: CString, b: CString): (r: CString)
    ensures r == a + b
  {
    a + b
  }

  const COMMA: CString := ","

  /** A clean text before a comma, or at the end, is the next token. */
  lemma TokenOf(text: CString, rest: CString)
    requires Clean(text)
    ensures NextToken(Glue(text, Glue(COMMA, rest))) == Token(text, rest)
    ensures NextToken(text) == Token(text, "")
  {
    var s := Glue(text, Glue(COMMA, rest));
    assert s[0] == text[0] && s[|text|] == ',' && forall j :: 0 <= j < |text| ==> s[j] == text[j];
    EndAt(s, 0, |text|);
    EndAt(text, 0, |text|);
    assert Cut(s, 0, |text|) == text && Cut(s, |text| + 1, |s|) == rest;
  }

  // ----- columns as text

  /** The text of one column and what follows it. */
  function ColumnText(c: ColDesc, tail: CString): CString {
    Glue(TypeToString(c.ty), Glue(COMMA, Glue(c.name, tail)))
  }

  /** "type,name,...,type,name". */
  function ColumnsText(cols: seq<ColDesc>): CString {
    if cols == [] then "" else ColumnText(cols[0], if |cols| == 1 then "" else Glue(COMMA, ColumnsText(cols[1..])))
  }

  /** The text itself: type and name of each column, all separated by commas. */
  lemma {:induction false} ColumnsTextIs(cols: seq<ColDesc>, c: ColDesc)
    ensures ColumnsText([]) == "" && ColumnsText([c]) == Pair(c)
    ensures cols != [] ==> ColumnsText(cols + [c]) == Glue(ColumnsText(cols), Glue(COMMA, Pair(c)))
  {
    hide Glue, Pair, ColumnsText;
    ColumnsTextCases([]);
    ColumnsTextCases([c]);
    if cols != [] {
      var first, rest := cols[0], cols[1..];
      ColumnsTextIs(rest, c);
      assert (cols + [c])[1..] == rest + [c] && (cols + [c])[0] == first;
      ColumnsTextCases(cols);
      ColumnsTextCases(cols + [c]);
      if rest == [] {
        assert rest + [c] == [c];
      } else {
        var more, last := ColumnsText(rest), Glue(COMMA, Pair(c));
        GlueAssoc(COMMA, more, last);
        GlueAssoc(Pair(first), Glue(COMMA, more), last);
      }
    }
  }

  /** "type,name" */
  function Pair(c: ColDesc): (r: CString)
    ensures r == TypeToString(c.ty) + "," + c.name
  {
    Glue(TypeToString(c.ty), Glue(COMMA, c.name))
  }

  lemma ColumnsTextCases(cols: seq<ColDesc>)
    ensures cols == [] ==> ColumnsText(cols) == ""
    ensures cols != [] ==>
              ColumnsText(cols) ==
              if |cols| == 1 then Pair(cols[0]) else Glue(Pair(cols[0]), Glue(COMMA, ColumnsText(cols[1..])))
  {
    hide Glue, TypeToString;
    if cols != [] {
      var ty, tail := TypeToString(cols[0].ty), if |cols| == 1 then "" else Glue(COMMA, ColumnsText(cols[1..]));
      GlueAssoc(COMMA, cols[0].name, tail);
      GlueAssoc(ty, Glue(COMMA, cols[0].name), tail);
      GlueNothing(Pair(cols[0]));
    }
  }

  lemma GlueAssoc(a: CString, b: CString, c: CString)
    ensures Glue(Glue(a, b), c) == Glue(a, Glue(b, c))
  {
  }

  lemma GlueNothing(a: CString)
    ensures Glue(a, "") == a
  {
  }

  /** What the token loop makes of a text: the columns, or a null pointer where the text has no token or
      an odd number. */
  datatype Parsed = Parsed(cols: seq<ColDesc>) | NullToken

  function ParseFrom(s: CString, sofar: seq<ColDesc>): Parsed
    decreases |s|
  {
    match NextToken(s)
    case NoToken => Parsed(sofar)
    case Token(ty, rest) =>
      match NextToken(rest)
      case NoToken => NullToken
      case Token(name, more) => ParseFrom(more, sofar + [ColDesc(name, StringToType(ty))])
  }

  /** The loop asserts that there is a first token. */
  function Parse(s: CString): Parsed {
    if NextToken(s).NoToken? then NullToken else ParseFrom(s, [])
  }

  ghost predicate CleanNames(cols: seq<ColDesc>) {
    forall i :: 0 <= i < |cols| ==> Clean(cols[i].name)
  }

  ghost predicate AllPrintable(cols: seq<ColDesc>) {
    forall i :: 0 <= i < |cols| ==> Printable(cols[i].ty)
  }

  lemma ParseColumn(c: ColDesc, more: CString, sofar: seq<ColDesc>)
    requires Printable(c.ty) && Clean(c.name)
    ensures ParseFrom(ColumnText(c, Glue(COMMA, more)), sofar) == ParseFrom(more, sofar + [c])
    ensures ParseFrom(ColumnText(c, ""), sofar) == Parsed(sofar + [c])
  {
    hide NextToken, Clean, TypeToString, StringToType, Printable;
    TokenOf(TypeToString(c.ty), Glue(c.name, Glue(COMMA, more)));
    TokenOf(TypeToString(c.ty), Glue(c.name, ""));
    TokenOf(c.name, more);
    NoTokens();
    assert Glue(c.name, "") == c.name && ColDesc(c.name, c.ty) == c;
  }

  lemma {:induction false} ParseText(cols: seq<ColDesc>, sofar: seq<ColDesc>)
    requires cols != [] && AllPrintable(cols) && CleanNames(cols)
    ensures ParseFrom(ColumnsText(cols), sofar) == Parsed(sofar + cols)
  {
    hide ParseFrom, Clean, Glue, TypeToString, Printable;
    var c, rest := cols[0], cols[1..];
    assert sofar + [c] + rest == sofar + cols;
    ParseColumn(c, ColumnsText(rest), sofar);
    if rest != [] {
      ParseText(rest, sofar + [c]);
    }
  }

  lemma NoTokens()
    ensures NextToken("") == NoToken
  {
  }

  lemma {:induction false} ParsedClean(s: CString, sofar: seq<ColDesc>)
    requires CleanNames(sofar) && ParseFrom(s, sofar).Parsed?
    ensures CleanNames(ParseFrom(s, sofar).cols)
    decreases |s|
  {
    hide NextToken, Clean;
    if NextToken(s).Token? && NextToken(NextToken(s).rest).Token? {
      var name := NextToken(NextToken(s).rest);
      ParsedClean(name.rest, sofar + [ColDesc(name.text, StringToType(NextToken(s).text))]);
    }
  }

  /** The column list survives being written and read back exactly if it is not empty and no name is empty
      or contains a comma. */
  lemma ColumnsRoundTrip(cols: seq<ColDesc>)
    requires AllPrintable(cols)
    ensures Parse(ColumnsText(cols)) == Parsed(cols) <==> cols != [] && CleanNames(cols)
  {
    hide NextToken, Clean, ParseFrom;
    NoTokens();
    if Parse(ColumnsText(cols)) == Parsed(cols) {
      ParsedClean(ColumnsText(cols), []);
    }
    if cols != [] && CleanNames(cols) {
      ParseText(cols, []);
      TokenOf(TypeToString(cols[0].ty), Glue(cols[0].name, if |cols| == 1 then ""
                                             else Glue(COMMA, ColumnsText(cols[1..]))));
    }
  }

  /** The string building of SerializeTableDef. */
  method SerializeColumns(cols: seq<ColDesc>) returns (text: CString)
    ensures text == ColumnsText(cols)
  {
    text := "";
    for i := 0 to |cols|
      invariant Glue(text, ColumnsText(cols[i..])) == ColumnsText(cols)
    {
      TextStep(cols[i..]);
      assert cols[i..][1..] == cols[i + 1..];
      GlueSteps(text, TypeToString(cols[i].ty), cols[i].name, ColumnsText(cols[i + 1..]));
      text := Glue(text, TypeToString(cols[i].ty));
      text := Glue(text, COMMA);
      text := Glue(text, cols[i].name);
      if i < |cols| - 1 {
        text := Glue(text, COMMA);
      }
    }
    assert cols[|cols|..] == [];
  }

  lemma TextStep(cols: seq<ColDesc>)
    requires cols != []
    ensures ColumnsText(cols) == ColumnText(cols[0], if |cols| == 1 then "" else Glue(COMMA, ColumnsText(cols[1..])))
  {
    hide ColumnText;
  }

  lemma GlueSteps(text: CString, a: CString, b: CString, tail: CString)
    ensures Glue(text, Glue(a, Glue(COMMA, Glue(b, Glue(COMMA, tail))))) ==
            Glue(Glue(Glue(Glue(Glue(text, a), COMMA), b), COMMA), tail)
    ensures Glue(text, Glue(a, Glue(COMMA, Glue(b, "")))) == Glue(Glue(Glue(Glue(text, a), COMMA), b), "")
  {
    assert text + (a + ("," + (b + ("," + tail)))) == text + a + "," + b + "," + tail;
    assert text + (a + ("," + (b + ""))) == text + a + "," + b + "";
  }

  /** The token loop of DeserializeTableDef. */
  method ParseColumns(s: CString) returns (r: Parsed)
    ensures r == Parse(s)
  {
    hide NextToken, StringToType;
    ghost var left := s;
    var tok := NextToken(s);
    if tok.NoToken? {
      return NullToken;
    }
    var cols := [];
    while tok.Token?
      invariant tok == NextToken(left) && ParseFrom(left, cols) == ParseFrom(s, [])
      decreases |left|
    {
      var ty := tok.text;
      var name := NextToken(tok.rest);
      if name.NoToken? {
        return NullToken;
      }
      cols := cols + [ColDesc(name.text, StringToType(ty))];
      left := name.rest;
      tok := NextToken(name.rest);
    }
    return Parsed(cols);
  }

  // ----- table definitions as catalog rows

  const REL_COLS: seq<ColDesc> := [ColDesc("name", T_STRING), ColDesc("index", T_INT), ColDesc("columns", T_STRING)]

  /** (int32_t) of a size_t, and back. */
  function ToInt32(n: nat): Int32 {
    var low := n % 0x1_0000_0000;
    if low < 0x8000_0000 then low else low - 0x1_0000_0000
  }

  function ToSize(i: Int32): nat {
    if i >= 0 then i else i + SIZE_T_RANGE
  }

  function DefRow(def: TableDef): Row {
    [StrD(def.name), IntD(ToInt32(def.index)), StrD(ColumnsText(def.cols))]
  }

  /** The row of a definition: name, number and columns under their headings. */
  lemma DefRowIs(def: TableDef)
    ensures |DefRow(def)| == 3 && GetName(DefRow(def), REL_COLS, "name") == StrD(def.name)
    ensures GetName(DefRow(def), REL_COLS, "columns") == StrD(ColumnsText(def.cols))
    ensures def.index < 0x8000_0000 ==> GetName(DefRow(def), REL_COLS, "index") == IntD(def.index)
    ensures ColTypes(REL_COLS) == [T_STRING, T_INT, T_STRING]
  {
    hide ColumnsText;
    assert REL_COLS[1..][0] == ColDesc("index", T_INT) && REL_COLS[1..][1..][0] == ColDesc("columns", T_STRING);
    assert ColIdx(REL_COLS[1..][1..], "columns") == 0 && ColIdx(REL_COLS[1..], "index") == 0;
    assert ColIdx(REL_COLS[1..], "columns") == 1;
  }

  datatype Restored = Restored(def: TableDef) | NoDef

  /** DeserializeTableDef. */
  function RowDef(row: Row): Restored {
    if |row| == 3 && row[0].StrD? && row[1].IntD? && row[2].StrD? && Parse(row[2].s).Parsed?
    then Restored(TableDef(row[0].s, Parse(row[2].s).cols, ToSize(row[1].i)))
    else NoDef
  }

  /** What a definition must be like to come back from the catalog as it was. */
  ghost predicate Survives(def: TableDef) {
    && def.cols != [] && CleanNames(def.cols)
    && (def.index < 0x8000_0000 || SIZE_T_RANGE - 0x8000_0000 <= def.index < SIZE_T_RANGE)
  }

  /** Exactly the definitions with at least one column, clean column names and an index that fits 32 bits
      signed are restored as they were saved. */
  lemma DefRoundTrip(def: TableDef)
    requires AllPrintable(def.cols)
    ensures RowDef(DefRow(def)) == Restored(def) <==> Survives(def)
  {
    hide Parse, ColumnsText, CleanNames;
    ColumnsRoundTrip(def.cols);
    IndexRoundTrip(def.index);
  }

  lemma IndexRoundTrip(n: nat)
    ensures ToSize(ToInt32(n)) == n <==> n < 0x8000_0000 || SIZE_T_RANGE - 0x8000_0000 <= n < SIZE_T_RANGE
  {
  }

  function DefRows(defs: seq<TableDef>): (r: seq<Row>)
    ensures |r| == |defs| && forall i :: 0 <= i < |r| ==> r[i] == DefRow(defs[i])
  {
    seq(|defs|, i requires 0 <= i < |defs| => DefRow(defs[i]))
  }

  ghost predicate DefsPrintable(defs: seq<TableDef>) {
    forall i :: 0 <= i < |defs| ==> AllPrintable(defs[i].cols)
  }

  // ----- the pages of the catalog heap as shelves of definitions

  type Shelves = seq<seq<TableDef>>

  function DefSize(def: TableDef): nat {
    RowSize(DefRow(def))
  }

  /** The bytes of a page that a shelf of definitions leaves free. */
  function Room(shelf: seq<TableDef>): int {
    if shelf == [] then Capacity(PAGE_SIZE) else Room(shelf[..|shelf| - 1]) - DefSize(shelf[|shelf| - 1]) - LOC_SIZE
  }

  /** PageAddItem answers "full". */
  predicate IsFull(shelf: seq<TableDef>, size: nat) {
    AddOutcome(Room(shelf), size) == Full
  }

  /** The first shelf from i on that is not full for an item of this size. */
  function FirstShelf(shelves: Shelves, i: nat, size: nat): (q: nat)
    requires i <= |shelves|
    ensures i <= q <= |shelves|
    decreases |shelves| - i
  {
    hide IsFull;
    if i == |shelves| || !IsFull(shelves[i], size) then i else FirstShelf(shelves, i + 1, size)
  }

  /** First fit. */
  function Shelve(shelves: Shelves, def: TableDef): Shelves {
    var q := FirstShelf(shelves, 0, DefSize(def));
    if q < |shelves| then shelves[q := shelves[q] + [def]] else shelves + [[def]]
  }

  function Flat(shelves: Shelves): seq<TableDef> {
    if shelves == [] then [] else Flat(shelves[..|shelves| - 1]) + shelves[|shelves| - 1]
  }

  datatype Creation = Created | CannotPrint | NotWritten(why: HeapWrites.WriteResult)

  /** What CREATE TABLE comes to. */
  ghost function CreateOutcome(shelves: Shelves, def: TableDef): Creation {
    if !AllPrintable(def.cols) then CannotPrint
    else if DefSize(def) >= PAGE_SIZE then Creation.NotWritten(HeapWrites.TooLong)
    else
      var q := FirstShelf(shelves, 0, DefSize(def));
      match AddOutcome(if q < |shelves| then Room(shelves[q]) else Capacity(PAGE_SIZE), DefSize(def))
      case Added => Created
      case Overrun => Creation.NotWritten(HeapWrites.Overran)
      case Full => Creation.NotWritten(HeapWrites.TooLong)
  }

  /** In numbers: a shelf has 8183 bytes, each definition takes its row and six; one that can be printed is refused
      for a page of its own size, and else comes to the first shelf that is not passed over or to a new one. */
  lemma {:induction false} CreateExactly(shelves: Shelves, def: TableDef, p: nat, q: nat)
    requires p <= q <= |shelves| && forall i :: p <= i < q ==> 6 <= Room(shelves[i]) < DefSize(def) + 6
    requires q < |shelves| ==> !(6 <= Room(shelves[q]) < DefSize(def) + 6)
    ensures FirstShelf(shelves, p, DefSize(def)) == q
    ensures var room := if q < |shelves| then Room(shelves[q]) else 8183;
            p == 0 && AllPrintable(def.cols) ==>
              && (CreateOutcome(shelves, def) == Created <==> DefSize(def) < 8192 && room >= DefSize(def) + 6)
              && (CreateOutcome(shelves, def) == Creation.NotWritten(HeapWrites.Overran)
                  <==> DefSize(def) < 8192 && room < 6)
              && CreateOutcome(shelves, def) != Creation.NotWritten(HeapWrites.OutOfPages)
    ensures Room([]) == 8183
    decreases q - p
  {
    hide DefSize, AllPrintable;
    if p < q {
      CreateExactly(shelves, def, p + 1, q);
    }
  }

  /** The page holds exactly the rows of this shelf. */
  ghost predicate HoldsShelf(p: PageImage, shelf: seq<TableDef>) {
    Slack(p) == Room(shelf) && RowsOf(LiveOn(p), REL_COLS) == DefRows(shelf)
  }

  ghost predicate Holding(pages: Pages, shelves: Shelves) {
    |pages| == |shelves| && forall i :: 0 <= i < |pages| ==> HoldsShelf(pages[i], shelves[i])
  }

  lemma {:induction false} FlatRows(pages: Pages, shelves: Shelves)
    requires Holding(pages, shelves)
    ensures RowsOf(LiveOf(pages), REL_COLS) == DefRows(Flat(shelves))
  {
    hide RowsOf, LiveOn, DefRows, DefRow, Room;
    NoRows();
    if pages == [] {
      assert |DefRows([])| == 0;
    } else {
      var n := |pages| - 1;
      FlatRows(pages[..n], shelves[..n]);
      RowsConcat(LiveOf(pages[..n]), LiveOn(pages[n]), REL_COLS);
      DefRowsConcat(Flat(shelves[..n]), shelves[n]);
    }
  }

  lemma DefRowsConcat(a: seq<TableDef>, b: seq<TableDef>)
    ensures DefRows(a + b) == DefRows(a) + DefRows(b)
  {
    hide DefRow;
  }

  lemma {:induction false} SameShelf(pages: Pages, shelves: Shelves, i: nat, size: nat)
    requires Holding(pages, shelves) && i <= |pages|
    ensures FirstStop(pages, i, size) == FirstShelf(shelves, i, size)
    decreases |pages| - i
  {
    hide RowsOf, LiveOn, DefRows, DefRow, Room, AddOutcome;
    if i < |pages| {
      assert HoldsShelf(pages[i], shelves[i]);
      SameShelf(pages, shelves, i + 1, size);
    }
  }

  lemma RoomMore(shelf: seq<TableDef>, def: TableDef)
    ensures Room(shelf + [def]) == Room(shelf) - DefSize(def) - LOC_SIZE
  {
    hide DefSize;
    assert (shelf + [def])[..|shelf|] == shelf;
  }

  /** Putting a row on a page is putting its definition on the shelf. */
  lemma ShelfGrows(before: Pages, q: nat, def: TableDef, t: Tuple, tid: TupleId, after: Pages, shelf: seq<TableDef>)
    requires HeapOk(before, ColTypes(REL_COLS)) && PutTuple(before, q, t, tid, after) && q < 0x1_0000
    requires Fits(t, ColTypes(REL_COLS)) && RowOf(t, ColTypes(REL_COLS)) == DefRow(def) && t.length == DefSize(def)
    requires if q < |before| then HoldsShelf(before[q], shelf) else shelf == []
    ensures |after| > q && HoldsShelf(after[q], shelf + [def])
    ensures |after| == (if q < |before| then |before| else |before| + 1)
    ensures forall j :: 0 <= j < |before| && j != q ==> after[j] == before[j]
  {
    hide StoredRow, RowsOf, ValidImage, Slots, Dead, ItemOf, PutOn, Holds, StoredAt, TupleOf, RowOf, HeapOk, DefRows,
         DefRow, Fits, LiveOn, Room, DefSize;
    var types, b := ColTypes(REL_COLS), ItemOf(t, tid);
    if q < |before| {
      HeapPage(before, types, q);
    }
    SlotCountSmall(before, types, q);
    StoreTuple(t, types, q, SlotCount(before, q));
    PutPage(before, q, b);
    PutLiveOn(before, q, b);
    PutSlack(before, q, b, after);
    var live := if q < |before| then LiveOn(before[q]) else [];
    RowsConcat(live, [b], REL_COLS);
    RowsOne(b);
    NoRows();
    assert DefRows([]) == [];
    StoredRowIs(b, REL_COLS);
    DefsMore(shelf, def);
    RoomMore(shelf, def);
    NoRoomTaken();
  }

  lemma NoRoomTaken()
    ensures Room([]) == Capacity(PAGE_SIZE)
  {
  }

  lemma PutSlack(before: Pages, q: nat, b: Bytes, after: Pages)
    requires q <= |before| && (q < |before| ==> HeapImage(before[q]) && Holds(before[q], b))
    requires q == |before| ==> |b| + LOC_SIZE <= Capacity(PAGE_SIZE)
    requires after == PutOn(before, q, b)
    ensures |after| > q
    ensures Slack(after[q]) == (if q < |before| then Slack(before[q]) else Capacity(PAGE_SIZE)) - |b| - LOC_SIZE
  {
    hide ValidImage, Slots, Dead, PutOn, Cost, Slack, Holds;
    PutPage(before, q, b);
    SlackFromItems(after[q]);
    var was := if q < |before| then Slots(before[q]) else [];
    CostConcat(was, [b]);
    CostOne(b);
    CostEmpty();
    if q < |before| {
      SlackFromItems(before[q]);
    }
  }

  // ----- the catalog in memory and on its heap

  class TableDefs {
    const rel: HeapFile.Table
    var defs: seq<TableDef>
    ghost var shelves: Shelves

    ghost predicate Sound()
      reads this, rel
    {
      HeapOk(rel.pages, rel.types) && rel.types == ColTypes(REL_COLS) && DefsPrintable(defs)
        && Holding(rel.pages, shelves)
    }

    ghost predicate Valid()
      reads this, rel
    {
      Sound() && |rel.pages| < HeapFile.MAX_PAGES
    }

    /** The catalog rows in scan order. */
    ghost function Rows(): seq<Row>
      reads rel
    {
      RowsOf(LiveOf(rel.pages), REL_COLS)
    }

    constructor ()
      ensures Valid() && defs == [] && shelves == [[]] && fresh(rel)
    {
      rel := new HeapFile.Table(ColTypes(REL_COLS));
      defs := [];
      shelves := [[]];
      new;
      EmptyShelf(rel.pages);
    }

    /** CreateTable: the next index, a definition in memory, a row on the first catalog page with room.
        The pages are filled by first fit, and what it comes to is decided by the room on them. */
    method CreateTable(name: CString, cols: seq<ColDesc>) returns (r: Creation)
      requires Valid()
      modifies this, rel
      ensures r == CreateOutcome(old(shelves), TableDef(name, cols, |old(defs)|))
      ensures r == Created ==>
                && Sound() && defs == old(defs) + [TableDef(name, cols, |old(defs)|)]
                && shelves == Shelve(old(shelves), TableDef(name, cols, |old(defs)|))
                && Rows() == DefRows(Flat(shelves))
    {
      hide RowSize, HeapOk, Conforms, RowsOf, LiveOf, DefRow, DefRows, AllPrintable, DefsPrintable, Fits, PutTuple,
           FirstStop, FirstShelf, HoldsShelf, Shelve, Flat, Holding, PlaceOutcome, DefSize, NamedTuple;
      var printable := CanPrint(cols);
      var def := TableDef(name, cols, |defs|);
      defs := defs + [def];
      if !printable {
        return CannotPrint;
      }
      DefsMore(old(defs), def);
      DefTuple(def);
      var row := SerializeTableDef(def);
      var t := BuildTuple(REL_COLS, row);
      if t.length >= PAGE_SIZE {
        return Creation.NotWritten(HeapWrites.TooLong);
      }
      ghost var before := rel.pages;
      SameShelf(before, shelves, 0, t.length);
      ShelfOutcome(before, shelves, def);
      var cursor := new HeapFile.Cursor(rel);
      var placed := cursor.InsertTuple(t);
      if !placed.Placed? {
        return Creation.NotWritten(HeapWrites.WriteOf(placed));
      }
      ShelveStep(before, shelves, def, t, cursor.pageIndex, placed.tid, rel.pages);
      shelves := Shelve(shelves, def);
      FlatRows(rel.pages, shelves);
      return Created;
    }

    /** The restart branch of InitSystemTables: read the catalog heap back. It fails if there is no row
        or some row does not parse. */
    method Restart() returns (ok: bool)
      requires rel.Valid() && rel.types == ColTypes(REL_COLS)
      modifies this
      ensures ok <==> Rows() != [] && AllRestored(Rows())
      ensures ok ==> RestoredFrom(defs, Rows())
    {
      hide HeapOk, LiveFrom, LiveBefore, Lookup, LiveOf, StoredRow, RowDef, RowsOf, StoredAt, Conforms, AllRestored,
           RestoredFrom;
      var cursor := new HeapFile.Cursor(rel);
      ghost var all, taken: seq<Bytes> := LiveOf(rel.pages), [];
      PageStart(rel.pages, 0);
      assert rel.pages[0..] == rel.pages;
      defs := [];
      NoRows();
      RestoreEnd(defs, []);
      while true
        invariant cursor.pageIndex <= |rel.pages|
        invariant all == taken + LiveFrom(rel.pages, cursor.pageIndex, cursor.tupleIndex)
        invariant RestoredFrom(defs, RowsOf(taken, REL_COLS))
        decreases |all| - |taken|
      {
        var found, item := cursor.SeekNext();
        if !found {
          assert taken == all;
          RestoreEnd(defs, Rows());
          return defs != [];
        }
        LookupStored(rel.pages, rel.types, cursor.pageIndex, cursor.tupleIndex - 1, item);
        StoredConforms(item, REL_COLS, cursor.pageIndex, cursor.tupleIndex - 1);
        var restored := DeserializeTableDef(StoredRow(item, REL_COLS));
        RestoreStep(defs, taken, item, LiveFrom(rel.pages, cursor.pageIndex, cursor.tupleIndex));
        taken := taken + [item];
        if restored.NoDef? {
          return false;
        }
        defs := defs + [restored.def];
      }
    }
  }

  method SerializeTableDef(def: TableDef) returns (row: Row)
    ensures row == DefRow(def)
  {
    var columns := SerializeColumns(def.cols);
    row := [NullD, NullD, NullD];
    row := row[0 := StrD(def.name)];
    row := row[1 := IntD(ToInt32(def.index))];
    row := row[2 := StrD(columns)];
  }

  method DeserializeTableDef(row: Row) returns (r: Restored)
    requires Conforms(row, ColTypes(REL_COLS))
    ensures r == RowDef(row)
  {
    if !row[0].StrD? || !row[1].IntD? || !row[2].StrD? {
      return NoDef;
    }
    var columns := ParseColumns(row[2].s);
    if columns.NullToken? {
      return NoDef;
    }
    return Restored(TableDef(row[0].s, columns.cols, ToSize(row[1].i)));
  }

  /** Definitions numbered by position, as CreateTable numbers them. */
  ghost predicate Indexed(defs: seq<TableDef>) {
    |defs| <= 0x8000_0000 && forall i :: 0 <= i < |defs| ==> defs[i].index == i
  }

  lemma DefsMore(defs: seq<TableDef>, def: TableDef)
    ensures DefRows(defs + [def]) == DefRows(defs) + [DefRow(def)]
    ensures DefsPrintable(defs) && AllPrintable(def.cols) ==> DefsPrintable(defs + [def])
  {
    hide DefRow, AllPrintable;
  }

  method CanPrint(cols: seq<ColDesc>) returns (ok: bool)
    ensures ok <==> AllPrintable(cols)
  {
    for i := 0 to |cols|
      invariant AllPrintable(cols[..i])
    {
      if !Printable(cols[i].ty) {
        return false;
      }
    }
    assert cols[..|cols|] == cols;
    return true;
  }

  lemma StoredConforms(b: Bytes, cols: seq<ColDesc>, page: nat, slot: nat)
    requires StoredAt(b, ColTypes(cols), page, slot)
    ensures Conforms(StoredRow(b, cols), ColTypes(cols))
  {
    hide StoredAt, TupleOf, RowOf;
    StoredFacts(b, ColTypes(cols), page, slot);
  }

  lemma DefConforms(def: TableDef)
    ensures Conforms(DefRow(def), ColTypes(REL_COLS))
  {
    hide ColumnsText;
  }

  lemma EmptyShelf(pages: Pages)
    requires HeapOk(pages, ColTypes(REL_COLS)) && pages == [EmptyImage(0, NoInfo)]
    ensures Holding(pages, [[]])
  {
    hide HeapOk, DefRow, StoredRow, LiveIn;
    EmptyMeaning(0, NoInfo);
    NoneLive();
  }

  /** The tuple SerializeTableDef builds. */
  lemma DefTuple(def: TableDef)
    ensures var t := NamedTuple(REL_COLS, DefRow(def), 3);
            && |DefRow(def)| == 3 && t.length == DefSize(def)
            && (t.length < PAGE_SIZE ==> Fits(t, ColTypes(REL_COLS)) && RowOf(t, ColTypes(REL_COLS)) == DefRow(def))
  {
    hide NamedTuple, Fits, RowOf, RowSize, Conforms, ColumnsText, Joint;
    DefConforms(def);
    NamedUnique(REL_COLS, DefRow(def));
    TupleLength(TupleId(0, 0), DefRow(def));
    if DefSize(def) < PAGE_SIZE {
      RowFits(TupleId(0, 0), DefRow(def), ColTypes(REL_COLS));
    }
  }

  lemma TupleLength(tid: TupleId, row: Row)
    ensures RowTuple(tid, row).length == RowSize(row)
  {
    hide Joint;
  }

  lemma ShelfOutcome(pages: Pages, shelves: Shelves, def: TableDef)
    requires Holding(pages, shelves) && AllPrintable(def.cols) && DefSize(def) < PAGE_SIZE
    requires FirstStop(pages, 0, DefSize(def)) == FirstShelf(shelves, 0, DefSize(def))
    ensures CreateOutcome(shelves, def) == match PlaceOutcome(pages, 0, DefSize(def))
                                           case Placed(_) => Created
                                           case PageOverrun => Creation.NotWritten(HeapWrites.Overran)
                                           case TooBig => Creation.NotWritten(HeapWrites.TooLong)
  {
    hide FirstStop, FirstShelf, DefSize, AllPrintable, Room, RowsOf, LiveOn, DefRows;
    var q := FirstShelf(shelves, 0, DefSize(def));
    if q < |shelves| {
      assert HoldsShelf(pages[q], shelves[q]);
    }
  }

  lemma ShelveStep(before: Pages, shelves: Shelves, def: TableDef, t: Tuple, q: nat, tid: TupleId, after: Pages)
    requires HeapOk(before, ColTypes(REL_COLS)) && Holding(before, shelves) && PutTuple(before, q, t, tid, after)
    requires q == FirstShelf(shelves, 0, DefSize(def)) && |before| < 0x1_0000
    requires Fits(t, ColTypes(REL_COLS)) && RowOf(t, ColTypes(REL_COLS)) == DefRow(def) && t.length == DefSize(def)
    ensures Holding(after, Shelve(shelves, def))
  {
    hide HeapOk, Fits, RowOf, PutTuple, DefRow, DefSize, FirstShelf, HoldsShelf;
    ShelfGrows(before, q, def, t, tid, after, if q < |shelves| then shelves[q] else []);
    assert [] + [def] == [def];
  }

  lemma RowsOne(b: Bytes)
    ensures RowsOf([b], REL_COLS) == [StoredRow(b, REL_COLS)]
  {
    hide StoredRow;
  }

  lemma NoRows()
    ensures LiveOf([]) == [] && RowsOf([], REL_COLS) == []
  {
  }

  // ----- restart

  ghost predicate AllRestored(rows: seq<Row>) {
    forall i :: 0 <= i < |rows| ==> RowDef(rows[i]).Restored?
  }

  ghost predicate RestoredFrom(defs: seq<TableDef>, rows: seq<Row>) {
    |defs| == |rows| && forall i :: 0 <= i < |rows| ==> RowDef(rows[i]) == Restored(defs[i])
  }

  lemma RestoreEnd(defs: seq<TableDef>, rows: seq<Row>)
    ensures RestoredFrom(defs, rows) ==> AllRestored(rows) && (defs == [] <==> rows == [])
    ensures RestoredFrom([], [])
  {
    hide RowDef;
  }

  /** One row read: the definitions grow by it, or it is why the whole heap does not restore. */
  lemma RestoreStep(defs: seq<TableDef>, taken: seq<Bytes>, item: Bytes, rest: seq<Bytes>)
    requires RestoredFrom(defs, RowsOf(taken, REL_COLS))
    ensures var restored, all := RowDef(StoredRow(item, REL_COLS)), taken + ([item] + rest);
            && all == taken + [item] + rest
            && (restored.Restored? ==> RestoredFrom(defs + [restored.def], RowsOf(taken + [item], REL_COLS)))
            && (restored.NoDef? ==> !AllRestored(RowsOf(all, REL_COLS)))
  {
    hide RowDef, StoredRow;
    RowsMore(taken, item, rest);
    assert taken + ([item] + rest) == taken + [item] + rest;
    assert |taken| < |RowsOf(taken + ([item] + rest), REL_COLS)|;
  }

  lemma RowsMore(taken: seq<Bytes>, item: Bytes, rest: seq<Bytes>)
    ensures RowsOf(taken + [item], REL_COLS) == RowsOf(taken, REL_COLS) + [StoredRow(item, REL_COLS)]
    ensures RowsOf(taken + ([item] + rest), REL_COLS)[|taken|] == StoredRow(item, REL_COLS)
  {
    hide StoredRow;
  }

  ghost predicate AllSurvive(defs: seq<TableDef>) {
    forall i :: 0 <= i < |defs| ==> AllPrintable(defs[i].cols) && Survives(defs[i])
  }

  lemma FindRow(rows: seq<Row>, saved: seq<TableDef>, i: nat) returns (j: nat)
    requires i < |rows| && multiset(rows) == multiset(DefRows(saved))
    ensures j < |saved| && DefRow(saved[j]) == rows[i]
  {
    hide DefRow;
    var images := DefRows(saved);
    assert rows[i] in multiset(images);
    j :| 0 <= j < |images| && images[j] == rows[i];
  }

  lemma DropDef(saved: seq<TableDef>, j: nat)
    requires j < |saved|
    ensures DefRows(RemoveAt(saved, j)) == RemoveAt(DefRows(saved), j)
    ensures AllSurvive(saved) ==> AllSurvive(RemoveAt(saved, j))
  {
    hide DefRow, AllPrintable, Survives;
  }

  /** If the catalog heap holds saved definitions that survive, in any order, every row parses. */
  lemma RowsRestore(rows: seq<Row>, saved: seq<TableDef>)
    requires multiset(rows) == multiset(DefRows(saved)) && AllSurvive(saved)
    ensures AllRestored(rows)
  {
    hide DefRow, RowDef, AllPrintable, Survives, DefRows;
    forall i: nat | i < |rows|
      ensures RowDef(rows[i]).Restored?
    {
      var j := FindRow(rows, saved, i);
      DefRoundTrip(saved[j]);
    }
  }

  /** What a restart reads back is then a permutation of the saved definitions: the saved list itself if
      the heap has them in creation order. */
  lemma {:induction false} RestartRecovers(rows: seq<Row>, saved: seq<TableDef>, defs: seq<TableDef>)
    requires multiset(rows) == multiset(DefRows(saved)) && AllSurvive(saved) && RestoredFrom(defs, rows)
    ensures multiset(defs) == multiset(saved)
    ensures rows == DefRows(saved) ==> defs == saved
  {
    hide DefRow, RowDef, AllPrintable, Survives, DefRows, RemoveAt;
    assert |multiset(rows)| == |rows| && |multiset(DefRows(saved))| == |saved|;
    if rows != [] {
      var n := |rows| - 1;
      var j := FindRow(rows, saved, n);
      DropDef(saved, j);
      DefRoundTrip(saved[j]);
      RemoveMultiset(saved, j);
      RemoveMultiset(DefRows(saved), j);
      LastOut(rows);
      LastOut(defs);
      RestartRecovers(rows[..n], RemoveAt(saved, j), defs[..n]);
    }
    RestoredInOrder(rows, saved, defs);
  }

  lemma RestoredInOrder(rows: seq<Row>, saved: seq<TableDef>, defs: seq<TableDef>)
    requires AllSurvive(saved) && RestoredFrom(defs, rows)
    ensures rows == DefRows(saved) ==> defs == saved
  {
    hide DefRow, RowDef, AllPrintable, Survives;
    if rows == DefRows(saved) {
      forall i | 0 <= i < |saved|
        ensures RowDef(rows[i]) == Restored(saved[i])
      {
        DefRoundTrip(saved[i]);
      }
    }
  }

  // ----- any sequence of CREATE TABLEs, then a restart

  /** The definitions in the order given, numbered by position. */
  function Saved(wanted: seq<TableDef>): (r: seq<TableDef>)
    ensures |r| == |wanted|
    ensures forall i :: 0 <= i < |r| ==> r[i] == wanted[i].(index := i)
  {
    seq(|wanted|, i requires 0 <= i < |wanted| => wanted[i].(index := i))
  }

  ghost predicate Sane(wanted: seq<TableDef>) {
    0 < |wanted| <= 0x8000_0000 && forall i :: 0 <= i < |wanted| ==> wanted[i].cols != [] && CleanNames(wanted[i].cols)
  }

  /** The catalog after these definitions: one empty page, filled by first fit. */
  function Shelved(defs: seq<TableDef>): (r: Shelves)
    ensures |r| >= 1
  {
    if defs == [] then [[]] else Shelve(Shelved(defs[..|defs| - 1]), defs[|defs| - 1])
  }

  /** Each definition finds room when its turn comes, and page numbers suffice. */
  ghost predicate AllCreated(defs: seq<TableDef>) {
    forall i :: 0 <= i < |defs| ==> CreatedAt(defs, i)
  }

  ghost predicate CreatedAt(defs: seq<TableDef>, i: nat)
    requires i < |defs|
  {
    CreateOutcome(Shelved(defs[..i]), defs[i]) == Created && IsTid(TupleId(|Shelved(defs[..i])|, 0))
  }

  /** The definition goes on the last page or a new one. */
  predicate AtEnd(shelves: Shelves, def: TableDef) {
    FirstShelf(shelves, 0, DefSize(def)) + 1 >= |shelves|
  }

  ghost predicate AllAtEnd(defs: seq<TableDef>) {
    forall i :: 0 <= i < |defs| ==> AtEnd(Shelved(defs[..i]), defs[i])
  }

  lemma ShelvedNone()
    ensures Shelved([]) == [[]]
  {
  }

  lemma ShelvedStep(defs: seq<TableDef>, i: nat)
    requires i < |defs|
    ensures Shelved(defs[..i + 1]) == Shelve(Shelved(defs[..i]), defs[i])
  {
    hide Shelve;
    assert defs[..i + 1][..i] == defs[..i];
  }

  /** Create every table in turn, then restart: all are created exactly if each finds room when its turn
      comes. The definitions in memory before the restart are then the given ones, numbered in order; the
      restart succeeds and reads them back page by page. */
  method CreateAllAndRestart(wanted: seq<TableDef>)
    returns (created: bool, restarted: bool, catalog: TableDefs, ghost before: seq<TableDef>)
    requires Sane(wanted)
    ensures fresh(catalog) && fresh(catalog.rel)
    ensures created <==> AllCreated(Saved(wanted)) && IsTid(TupleId(|Shelved(Saved(wanted))|, 0))
    ensures created ==> before == Saved(wanted) && restarted && catalog.defs == Flat(Shelved(before))
  {
    hide AllPrintable, DefsPrintable, CleanNames, HeapOk, LiveOf, RowsOf, DefRows, AllRestored, RestoredFrom, Sane,
         AllSurvive, Holding, Flat, Shelve, CreateOutcome, Shelved, Saved, RowDef, DefRow;
    catalog := new TableDefs();
    before := [];
    restarted := false;
    ghost var saved := Saved(wanted);
    assert saved[..0] == [];
    ShelvedNone();
    for i := 0 to |wanted|
      invariant fresh(catalog) && fresh(catalog.rel) && catalog.Sound()
      invariant catalog.defs == saved[..i] && catalog.shelves == Shelved(saved[..i])
      invariant forall j :: 0 <= j < i ==> CreatedAt(saved, j)
    {
      HoldingSize(catalog.rel.pages, catalog.shelves);
      if |catalog.rel.pages| >= HeapFile.MAX_PAGES {
        assert !CreatedAt(saved, i);
        return false, false, catalog, before;
      }
      assert saved[i] == TableDef(wanted[i].name, wanted[i].cols, |catalog.defs|);
      var r := catalog.CreateTable(wanted[i].name, wanted[i].cols);
      if r != Created {
        assert !CreatedAt(saved, i);
        return false, false, catalog, before;
      }
      assert CreatedAt(saved, i);
      ShelvedStep(saved, i);
      PrefixGrows(saved, i);
    }
    assert saved[..|wanted|] == saved;
    HoldingSize(catalog.rel.pages, catalog.shelves);
    if |catalog.rel.pages| >= HeapFile.MAX_PAGES {
      return false, false, catalog, before;
    }
    before := catalog.defs;
    AllSaved(wanted);
    ghost var flat := Flat(catalog.shelves);
    FlatRows(catalog.rel.pages, catalog.shelves);
    FlatPermutes(before);
    SurvivePermuted(before, flat);
    RowsRestore(catalog.Rows(), flat);
    SameCount(catalog.Rows(), flat);
    restarted := catalog.Restart();
    RestoredInOrder(catalog.Rows(), flat, catalog.defs);
    return true, restarted, catalog, before;
  }

  lemma PrefixGrows(saved: seq<TableDef>, i: nat)
    requires i < |saved|
    ensures saved[..i + 1] == saved[..i] + [saved[i]]
  {
  }

  lemma HoldingSize(pages: Pages, shelves: Shelves)
    ensures Holding(pages, shelves) ==> |pages| == |shelves|
  {
  }

  lemma SurvivePermuted(defs: seq<TableDef>, others: seq<TableDef>)
    requires AllSurvive(defs) && multiset(defs) == multiset(others)
    ensures AllSurvive(others) && |others| == |defs|
  {
    hide AllPrintable, Survives;
    assert |multiset(defs)| == |defs| && |multiset(others)| == |others|;
    forall i | 0 <= i < |others|
      ensures AllPrintable(others[i].cols) && Survives(others[i])
    {
      assert others[i] in multiset(defs);
    }
  }

  lemma {:induction false} FlatAt(shelves: Shelves, q: nat)
    requires q < |shelves|
    ensures Flat(shelves) == Flat(shelves[..q]) + shelves[q] + Flat(shelves[q + 1..])
    decreases |shelves|
  {
    var n := |shelves| - 1;
    if q < n {
      FlatAt(shelves[..n], q);
      assert shelves[..n][..q] == shelves[..q] && shelves[q + 1..][..n - q - 1] == shelves[..n][q + 1..];
    } else {
      assert shelves[q + 1..] == [];
    }
  }

  /** Where first fit puts a definition among the others. */
  lemma ShelveFlat(shelves: Shelves, def: TableDef) returns (front: seq<TableDef>, back: seq<TableDef>)
    ensures Flat(shelves) == front + back && Flat(Shelve(shelves, def)) == front + [def] + back
    ensures var q := FirstShelf(shelves, 0, DefSize(def));
            back == if q < |shelves| then Flat(shelves[q + 1..]) else []
  {
    hide FirstShelf, DefSize, Flat;
    var q, after := FirstShelf(shelves, 0, DefSize(def)), Shelve(shelves, def);
    if q < |shelves| {
      FlatAt(shelves, q);
      FlatAt(after, q);
      assert after[..q] == shelves[..q] && after[q + 1..] == shelves[q + 1..];
      front, back := Flat(shelves[..q]) + shelves[q], Flat(shelves[q + 1..]);
    } else {
      FlatAt(after, q);
      assert after[..q] == shelves && after[q + 1..] == [];
      FlatNone();
      front, back := Flat(shelves), [];
    }
  }

  lemma FlatOne(shelf: seq<TableDef>)
    ensures Flat([shelf]) == shelf
  {
    var one := [shelf];
    assert one[..0] == [];
  }

  lemma FlatNone()
    ensures Flat([]) == []
  {
  }

  /** What a restart reads back is a permutation of what was created. */
  lemma {:induction false} FlatPermutes(defs: seq<TableDef>)
    ensures multiset(Flat(Shelved(defs))) == multiset(defs)
  {
    hide Shelve, Flat, FirstShelf, DefSize;
    if defs != [] {
      var init, last := defs[..|defs| - 1], defs[|defs| - 1];
      FlatPermutes(init);
      var front, back := ShelveFlat(Shelved(init), last);
      assert defs == init + [last];
    } else {
      FlatOne([]);
    }
  }

  lemma {:induction false} NoShelfEmpty(defs: seq<TableDef>)
    ensures forall i :: 1 <= i < |Shelved(defs)| ==> Shelved(defs)[i] != []
  {
    hide FirstShelf, DefSize;
    if defs != [] {
      NoShelfEmpty(defs[..|defs| - 1]);
    }
  }

  lemma FlatEmpty(shelves: Shelves)
    requires forall i :: 0 <= i < |shelves| ==> shelves[i] != []
    ensures Flat(shelves) == [] <==> shelves == []
  {
  }

  /** A restart keeps creation order exactly if every definition went on the last page or a new one: no
      earlier page had room for it. */
  lemma {:induction false} CreationOrderExactly(defs: seq<TableDef>)
    requires Indexed(defs)
    ensures Flat(Shelved(defs)) == defs <==> AllAtEnd(defs)
  {
    hide Shelve, Flat, AtEnd;
    if defs == [] {
      FlatOne([]);
    } else {
      var init, last := defs[..|defs| - 1], defs[|defs| - 1];
      assert defs == init + [last];
      CreationOrderExactly(init);
      FlatPermutes(init);
      OrderStep(Shelved(init), init, last);
      NoShelfEmpty(init);
      AtEndMeaning(Shelved(init), last);
      AllAtEndStep(init, last);
    }
  }

  lemma AllAtEndStep(init: seq<TableDef>, last: TableDef)
    ensures AllAtEnd(init + [last]) <==> AllAtEnd(init) && AtEnd(Shelved(init), last)
  {
    hide AtEnd, Shelved;
    var defs := init + [last];
    assert forall i :: 0 <= i < |init| ==> defs[..i] == init[..i] && defs[i] == init[i];
    assert defs[..|init|] == init && defs[|init|] == last;
  }

  lemma AtEndMeaning(shelves: Shelves, def: TableDef)
    requires forall i :: 1 <= i < |shelves| ==> shelves[i] != []
    ensures var q := FirstShelf(shelves, 0, DefSize(def));
            AtEnd(shelves, def) <==> q >= |shelves| || Flat(shelves[q + 1..]) == []
  {
    hide FirstShelf, DefSize, Flat;
    var q := FirstShelf(shelves, 0, DefSize(def));
    if q < |shelves| {
      FlatEmpty(shelves[q + 1..]);
    }
  }

  lemma OrderStep(shelves: Shelves, init: seq<TableDef>, last: TableDef)
    requires Indexed(init + [last]) && multiset(Flat(shelves)) == multiset(init)
    ensures var q := FirstShelf(shelves, 0, DefSize(last));
            Flat(Shelve(shelves, last)) == init + [last]
            <==> Flat(shelves) == init && (q >= |shelves| || Flat(shelves[q + 1..]) == [])
  {
    hide Shelve, Flat, FirstShelf, DefSize;
    var front, back := ShelveFlat(shelves, last);
    LastIsNew(init, last);
    assert forall d :: d in front + back ==> d in multiset(init);
    MiddleIsLast(front, last, back, init);
  }

  lemma MiddleIsLast<T>(front: seq<T>, x: T, back: seq<T>, init: seq<T>)
    requires x !in front + back
    ensures front + [x] + back == init + [x] <==> back == [] && front + back == init
  {
    var all := front + [x] + back;
    if back != [] {
      assert all[|all| - 1] == back[|back| - 1] && back[|back| - 1] in front + back;
    } else {
      assert all == front + [x] && all[..|front|] == front && (init + [x])[..|init|] == init && front + back == front;
    }
  }

  lemma LastIsNew(init: seq<TableDef>, last: TableDef)
    requires Indexed(init + [last])
    ensures last !in init
  {
    forall i | 0 <= i < |init|
      ensures init[i] != last
    {
      assert (init + [last])[i].index == i && (init + [last])[|init|].index == |init|;
    }
  }

  // ----- a catalog that comes back out of order

  function DefCost(def: TableDef): nat {
    DefSize(def) + LOC_SIZE
  }

  /** A definition that leaves too little room on the first page for the next one, and a third that still
      fits there: all are created, and a restart reads the third before the second. */
  lemma ThirdComesSecond(a: TableDef, b: TableDef, c: TableDef)
    requires AllPrintable(a.cols) && AllPrintable(b.cols) && AllPrintable(c.cols)
    requires DefCost(a) + DefCost(b) > Capacity(PAGE_SIZE) >= DefCost(b)
    requires DefCost(a) + DefCost(c) <= Capacity(PAGE_SIZE)
    ensures AllCreated([a, b, c]) && Flat(Shelved([a, b, c])) == [a, c, b] && |Shelved([a, b, c])| == 2
  {
    hide DefSize, AllPrintable, Shelve, Shelved, CreateOutcome, Flat, DefCost;
    var defs := [a, b, c];
    assert defs[..0] == [] && defs[..1] == [a] && defs[..2] == [a, b] && defs[..3] == defs;
    ShelvedNone();
    ShelvedStep(defs, 0);
    ShelvedStep(defs, 1);
    ShelvedStep(defs, 2);
    RoomOne(a);
    RoomAfter(a, c);
    var none: Shelves := [];
    OnFirst([], none, a);
    assert [] + [a] == [a] && [[]] + none == [[]] && [[a]] + none == [[a]];
    OnNew(a, b);
    OnFirst([a], [[b]], c);
    assert [a] + [c] == [a, c];
    assert [[a]] + [[b]] == [[a], [b]] && [[a, c]] + [[b]] == [[a, c], [b]];
    FlatAt([[a, c], [b]], 0);
    FlatOne([b]);
    FlatNone();
    assert [[a, c], [b]][..0] == [] && [[a, c], [b]][1..] == [[b]];
  }

  lemma OnFirst(first: seq<TableDef>, rest: Shelves, def: TableDef)
    requires AllPrintable(def.cols) && Room(first) >= DefCost(def)
    ensures CreateOutcome([first] + rest, def) == Created && Shelve([first] + rest, def) == [first + [def]] + rest
  {
    hide AllPrintable, Room, DefSize;
    RoomBounded(first);
    var shelves := [first] + rest;
    assert shelves[0] == first && AddOutcome(Room(first), DefSize(def)) == Added;
    assert FirstShelf(shelves, 0, DefSize(def)) == 0;
    assert shelves[0 := first + [def]] == [first + [def]] + rest;
  }

  lemma OnNew(a: TableDef, b: TableDef)
    requires AllPrintable(b.cols) && DefCost(a) + DefCost(b) > Capacity(PAGE_SIZE) >= DefCost(b)
    requires Room([a]) >= LOC_SIZE
    ensures CreateOutcome([[a]], b) == Created && Shelve([[a]], b) == [[a]] + [[b]]
  {
    hide AllPrintable;
    RoomOne(a);
    assert FirstShelf([[a]], 1, DefSize(b)) == 1;
    assert FirstShelf([[a]], 0, DefSize(b)) == 1;
  }

  lemma RoomAfter(a: TableDef, c: TableDef)
    requires DefCost(a) + DefCost(c) <= Capacity(PAGE_SIZE)
    ensures Room([]) >= DefCost(a) && Room([a]) >= DefCost(c) >= LOC_SIZE
  {
    hide DefSize;
    RoomOne(a);
  }

  lemma RoomOne(a: TableDef)
    ensures Room([]) == Capacity(PAGE_SIZE) && Room([a]) == Capacity(PAGE_SIZE) - DefCost(a)
  {
    hide DefSize;
    assert [a][..0] == [];
  }

  lemma {:induction false} RoomBounded(shelf: seq<TableDef>)
    ensures Room(shelf) <= Capacity(PAGE_SIZE)
  {
    hide DefSize;
    if shelf != [] {
      RoomBounded(shelf[..|shelf| - 1]);
    }
  }

  function LongName(n: nat): (s: CString)
    ensures |s| == n && forall i :: 0 <= i < n ==> s[i] == 'x'
  {
    seq(n, _ => 'x')
  }

  /** Tables a (a int), b (x...x int) and c (c int), with a column name of 8080 letters in the second. */
  function OutOfOrder(): seq<TableDef> {
    [TableDef("a", [ColDesc("a", T_INT)], 0), TableDef("b", [ColDesc(LongName(8080), T_INT)], 1),
     TableDef("c", [ColDesc("c", T_INT)], 2)]
  }

  lemma OutOfOrderComesBack()
    ensures var defs := OutOfOrder();
            && Sane(defs) && defs == Saved(defs) && AllCreated(defs) && IsTid(TupleId(|Shelved(defs)|, 0))
            && Flat(Shelved(defs)) == [defs[0], defs[2], defs[1]] != defs
  {
    hide DefSize, AllCreated, Shelve, Shelved, Flat, LongName, DefCost, AllPrintable, CleanNames;
    var defs, long := OutOfOrder(), LongName(8080);
    OneColumnCost("a", "a", 0);
    OneColumnCost("b", long, 1);
    OneColumnCost("c", "c", 2);
    OneColumnClean("a");
    OneColumnClean(long);
    OneColumnClean("c");
    ThirdComesSecond(defs[0], defs[1], defs[2]);
    assert defs == [defs[0], defs[1], defs[2]];
  }

  lemma OneColumnClean(col: CString)
    requires Clean(col)
    ensures CleanNames([ColDesc(col, T_INT)]) && AllPrintable([ColDesc(col, T_INT)])
  {
  }

  lemma OneColumnCost(name: CString, col: CString, index: nat)
    ensures DefCost(TableDef(name, [ColDesc(col, T_INT)], index)) == 91 + |name| + |col|
  {
    hide Joint;
    var def := TableDef(name, [ColDesc(col, T_INT)], index);
    var text := ColumnsText(def.cols);
    assert |text| == 4 + |col|;
    ThreeCells(DefRow(def));
  }

  lemma ThreeCells(row: Row)
    requires |row| == 3
    ensures |Joint(RowCells(row))| == |DatumBytes(row[0])| + |DatumBytes(row[1])| + |DatumBytes(row[2])|
  {
    hide DatumBytes;
    var cells := RowCells(row);
    var two := cells[..2];
    assert two[..1] == [cells[0]] && [cells[0]][..0] == [] && two[1] == cells[1];
    assert Joint([cells[0]]) == Joint([]) + cells[0] && Joint(two) == Joint([cells[0]]) + cells[1]
           && Joint(cells) == Joint(two) + cells[2];
  }

  lemma AllSaved(wanted: seq<TableDef>)
    requires Sane(wanted) && DefsPrintable(Saved(wanted))
    ensures AllSurvive(Saved(wanted)) && wanted != []
  {
    hide CleanNames, AllPrintable;
  }

  lemma SameCount(rows: seq<Row>, defs: seq<TableDef>)
    requires multiset(rows) == multiset(DefRows(defs))
    ensures |rows| == |defs|
  {
    assert |multiset(rows)| == |rows| && |multiset(DefRows(defs))| == |defs|;
  }
}
