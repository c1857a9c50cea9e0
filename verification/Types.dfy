/** Values and their order: the datums of types.c and the comparison functions the index and the
    executor choose among. */
module Types {

  datatype BType = T_UNKNOWN | T_STRING | T_BOOL | T_INT | T_NULL

  /** A C string: no NUL inside, one byte a character. */
  type CString = s: string | forall i :: 0 <= i < |s| ==> 0 < s[i] as int < 256 witness ""

  const INT32_LIMIT: int := 0x8000_0000
  type Int32 = x: int | -0x8000_0000 <= x < 0x8000_0000

  datatype Datum = NullD | StrD(s: CString) | BoolD(b: bool) | IntD(i: Int32)

  function TypeOf(d: Datum): BType {
    match d
    case NullD => T_NULL
    case StrD(_) => T_STRING
    case BoolD(_) => T_BOOL
    case IntD(_) => T_INT
  }

  /** strcmp(a, b) < 0. */
  predicate StrLess(a: CString, b: CString)
    decreases |a|
  {
    if b == "" then false
    else if a == "" then true
    else a[0] < b[0] || (a[0] == b[0] && StrLess(Tail(a), Tail(b)))
  }

  function Tail(a: CString): (r: CString)
    requires a != ""
    ensures |r| == |a| - 1
  {
    assert forall i :: 0 <= i < |a| - 1 ==> a[1..][i] == a[i + 1];
    a[1..]
  }

  /** The "greater than" that TypeToCmpFunc selects by the type of the search value, totalised: on
      two datums of different types, where StrGT, IntGT and BoolGT stop at an assertion, it
      compares the types. */
  predicate Gt(a: Datum, b: Datum) {
    match (a, b)
    case (IntD(i), IntD(j)) => i > j
    case (BoolD(p), BoolD(q)) => p && !q
    case (StrD(s), StrD(t)) => StrLess(t, s)
    case _ => TypeRank(a) > TypeRank(b)
  }

  function TypeRank(d: Datum): nat {
    match d
    case NullD => 0
    case StrD(_) => 1
    case BoolD(_) => 2
    case IntD(_) => 3
  }

  lemma {:induction false} StrLessAsymmetric(a: CString, b: CString)
    ensures !(StrLess(a, b) && StrLess(b, a))
    decreases |a|
  {
    if a != "" && b != "" {
      StrLessAsymmetric(Tail(a), Tail(b));
    }
  }

  lemma {:induction false} StrLessNegTransitive(a: CString, b: CString, c: CString)
    requires !StrLess(b, a) && !StrLess(c, b)
    ensures !StrLess(c, a)
    decreases |a|
  {
    if a != "" && b != "" && c != "" && a[0] == b[0] && b[0] == c[0] {
      StrLessNegTransitive(Tail(a), Tail(b), Tail(c));
    }
  }

  lemma {:induction false} StrLessTotal(a: CString, b: CString)
    requires !StrLess(a, b) && !StrLess(b, a)
    ensures a == b
    decreases |a|
  {
    if a != "" && b != "" {
      StrLessTotal(Tail(a), Tail(b));
      assert a == [a[0]] + Tail(a) && b == [b[0]] + Tail(b);
    }
  }

  /** At position i the texts first differ, b having the greater character there or a having none. */
  predicate DiffersAt(a: CString, b: CString, i: nat) {
    i <= |a| && i < |b| && (forall j :: 0 <= j < i ==> a[j] == b[j]) && (i < |a| ==> a[i] < b[i])
  }

  /** strcmp goes by the first difference, the end of a text counting as less than any character. */
  lemma {:induction false} StrLessExactly(a: CString, b: CString)
    ensures StrLess(a, b) <==> exists i: nat :: DiffersAt(a, b, i)
    decreases |a|
  {
    if b != "" && a == "" {
      assert DiffersAt(a, b, 0);
    } else if b != "" {
      StrLessExactly(Tail(a), Tail(b));
      if a[0] < b[0] {
        assert DiffersAt(a, b, 0);
      } else if StrLess(a, b) {
        var i: nat :| DiffersAt(Tail(a), Tail(b), i);
        DiffersBehind(a, b, i + 1);
      } else if i: nat :| DiffersAt(a, b, i) {
        DiffersBehind(a, b, i);
      }
    }
  }

  lemma DiffersBehind(a: CString, b: CString, i: nat)
    requires a != "" && b != ""
    ensures i > 0 && a[0] == b[0] ==> (DiffersAt(a, b, i) <==> DiffersAt(Tail(a), Tail(b), i - 1))
    ensures i == 0 || a[0] != b[0] ==> (DiffersAt(a, b, i) <==> i == 0 && a[0] < b[0])
  {
    var x, y := Tail(a), Tail(b);
    assert forall j :: 0 <= j < |x| ==> x[j] == a[j + 1];
    assert forall j :: 0 <= j < |y| ==> y[j] == b[j + 1];
    if i > 0 && a[0] == b[0] && DiffersAt(x, y, i - 1) {
      forall j | 0 <= j < i
        ensures a[j] == b[j]
      {
        assert j > 0 ==> x[j - 1] == y[j - 1];
      }
    }
  }

  /** On datums of one type "greater" is that of numbers, of true over false, and of texts. */
  lemma GtMeaning(a: Datum, b: Datum)
    ensures a.IntD? && b.IntD? ==> (Gt(a, b) <==> a.i > b.i)
    ensures a.BoolD? && b.BoolD? ==> (Gt(a, b) <==> a == BoolD(true) && b == BoolD(false))
    ensures a.StrD? && b.StrD? ==> (Gt(a, b) <==> exists i: nat :: DiffersAt(b.s, a.s, i))
  {
    if a.StrD? && b.StrD? {
      StrLessExactly(b.s, a.s);
    }
  }

  /** "Not greater" is a total preorder, for every mix of datums. */
  lemma GtOrder()
    ensures forall a, b :: !(Gt(a, b) && Gt(b, a))
    ensures forall a, b, c {:trigger Gt(a, b), Gt(b, c)} :: !Gt(a, b) && !Gt(b, c) ==> !Gt(a, c)
  {
    forall a, b
      ensures !(Gt(a, b) && Gt(b, a))
    {
      if a.StrD? && b.StrD? {
        StrLessAsymmetric(a.s, b.s);
      }
    }
    forall a, b, c | !Gt(a, b) && !Gt(b, c)
      ensures !Gt(a, c)
    {
      if a.StrD? && b.StrD? && c.StrD? {
        StrLessNegTransitive(a.s, b.s, c.s);
      }
    }
  }

  /** Datums that neither exceed one another are equal, so a sort by Gt decides key equality. */
  lemma GtAntisymmetric(a: Datum, b: Datum)
    requires !Gt(a, b) && !Gt(b, a)
    ensures a == b
  {
    if a.StrD? && b.StrD? {
      StrLessTotal(a.s, b.s);
    }
  }
}
