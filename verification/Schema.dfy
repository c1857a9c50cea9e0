/** Table definitions and the lookups by name that everything above storage goes through. */
module Schema {
  import opened Types

  datatype ColDesc = ColDesc(name: CString, ty: BType)
  datatype TableDef = TableDef(name: CString, cols: seq<ColDesc>, index: nat)

  /** GetColIdx: the first column of that name; the number of columns if there is none. */
  function ColIdx(cols: seq<ColDesc>, name: CString): (i: nat)
    ensures i <= |cols|
    ensures i < |cols| ==> cols[i].name == name
    ensures forall j :: 0 <= j < i ==> cols[j].name != name
  {
    if cols == [] || cols[0].name == name then 0 else 1 + ColIdx(cols[1..], name)
  }

  function ColTypes(cols: seq<ColDesc>): (r: seq<BType>)
    ensures |r| == |cols|
    ensures forall i :: 0 <= i < |r| ==> r[i] == cols[i].ty
  {
    seq(|cols|, i requires 0 <= i < |cols| => cols[i].ty)
  }

  ghost predicate UniqueNames(cols: seq<ColDesc>) {
    forall i, j :: 0 <= i < j < |cols| ==> cols[i].name != cols[j].name
  }

  lemma {:induction false} ColIdxUnique(cols: seq<ColDesc>, i: nat)
    requires UniqueNames(cols) && i < |cols|
    ensures ColIdx(cols, cols[i].name) == i
  {
    if i > 0 {
      ColIdxUnique(cols[1..], i - 1);
    }
  }
}
