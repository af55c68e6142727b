/** The column record of an archive table (UniColumn). */
module UniColumns {

  /** char.IsWhiteSpace: the Unicode White_Space characters. */
  predicate IsWhiteSpace(c: char) {
    ('\t' <= c <= '\r') || c == ' ' || c == '\U{85}' || c == '\U{A0}' || c == '\U{1680}'
    || ('\U{2000}' <= c <= '\U{200A}') || c == '\U{2028}' || c == '\U{2029}'
    || c == '\U{202F}' || c == '\U{205F}' || c == '\U{3000}'
  }

  /** string.IsNullOrWhiteSpace for a non-null string: empty or only white space. */
  predicate IsNullOrWhiteSpace(s: string) {
    forall i :: 0 <= i < |s| ==> IsWhiteSpace(s[i])
  }

  /** A record: two columns are equal exactly when index, name and unit are. */
  datatype UniColumn = UniColumn(index: int, name: string, unit: string)
  {
    /** The name, followed by the unit in brackets when there is a unit. */
    function DisplayName(): (d: string)
      ensures d == name <==> IsNullOrWhiteSpace(unit)
      ensures |name| <= |d| && d[..|name|] == name
      ensures !IsNullOrWhiteSpace(unit) ==>
                |d| == |name| + |unit| + 3 && d[|name|..|name| + 2] == " [" &&
                d[|name| + 2..|d| - 1] == unit && d[|d| - 1] == ']'
    {
      if IsNullOrWhiteSpace(unit) then name else name + " [" + unit + "]"
    }
  }

  /** The display name depends on the name and the unit only, never on the index. */
  lemma DisplayNameIgnoresIndex(a: UniColumn, b: UniColumn)
    requires a.name == b.name && a.unit == b.unit
    ensures a.DisplayName() == b.DisplayName()
  {
  }

  /** With a non-blank unit the unit can be read back from the display name. */
  lemma {:induction false} DisplayNameDeterminesUnit(a: UniColumn, b: UniColumn)
    requires a.name == b.name
    requires !IsNullOrWhiteSpace(a.unit) && !IsNullOrWhiteSpace(b.unit)
    requires a.DisplayName() == b.DisplayName()
    ensures a.unit == b.unit
  {
    var d := a.DisplayName();
    assert a.unit == d[|a.name| + 2..|d| - 1];
  }

  /** Record equality is field-wise equality. */
  lemma ColumnEquality(a: UniColumn, b: UniColumn)
    ensures a == b <==> a.index == b.index && a.name == b.name && a.unit == b.unit
  {
  }
}
