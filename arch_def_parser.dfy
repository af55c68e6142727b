/** ArchDefParser: the column list of an archive definition. The XML document
    is already reduced to its PropDesc elements, in document order, each with
    the text of its PropName and Unit children when they are present. */
module ArchDefParser {
  import opened Wrappers
  import opened UniColumns

  /** One PropDesc element; None stands for a missing child element. */
  datatype PropDesc = PropDesc(propName: Option<string>, unit: Option<string>)

  /** An entry becomes a column unless its name is missing, empty or blank. */
  predicate Keeps(p: PropDesc) {
    p.propName.Some? && !IsNullOrWhiteSpace(p.propName.value)
  }

  /** The unit of an entry, "" when it has none. */
  function UnitOrEmpty(p: PropDesc): (u: string)
    ensures p.unit.Some? ==> u == p.unit.value
    ensures p.unit.None? ==> u == ""
  {
    if p.unit.Some? then p.unit.value else ""
  }

  /** The entries that become columns, in input order. */
  function Kept(props: seq<PropDesc>): (kept: seq<PropDesc>)
    ensures |kept| <= |props|
    ensures forall k :: 0 <= k < |kept| ==> Keeps(kept[k])
    ensures forall p :: p in kept <==> p in props && Keeps(p)
  {
    if props == [] then []
    else if Keeps(props[0]) then [props[0]] + Kept(props[1..])
    else Kept(props[1..])
  }

  /** The columns made from props when the next free index is `index`. */
  function ColumnsFrom(props: seq<PropDesc>, index: int): (cols: seq<UniColumn>)
    ensures |cols| <= |props|
    ensures forall k :: 0 <= k < |cols| ==> cols[k].index == index + k
    ensures forall k :: 0 <= k < |cols| ==> !IsNullOrWhiteSpace(cols[k].name)
  {
    if props == [] then []
    else if Keeps(props[0]) then
      [UniColumn(index, props[0].propName.value, UnitOrEmpty(props[0]))] + ColumnsFrom(props[1..], index + 1)
    else ColumnsFrom(props[1..], index)
  }

  /** Filtering splits over concatenation, so the kept entries keep their
      relative order. */
  lemma {:induction false} KeptConcat(xs: seq<PropDesc>, ys: seq<PropDesc>)
    ensures Kept(xs + ys) == Kept(xs) + Kept(ys)
  {
    if xs == [] {
      assert xs + ys == ys;
    } else {
      assert (xs + ys)[0] == xs[0];
      assert (xs + ys)[1..] == xs[1..] + ys;
      KeptConcat(xs[1..], ys);
    }
  }

  /** Column k is the k-th kept entry, with index `index + k`, its name and
      its unit or "". */
  lemma {:induction false} ColumnsAreNumberedKeptEntries(props: seq<PropDesc>, index: int)
    ensures |ColumnsFrom(props, index)| == |Kept(props)|
    ensures forall k :: 0 <= k < |Kept(props)| ==>
              ColumnsFrom(props, index)[k] ==
              UniColumn(index + k, Kept(props)[k].propName.value, UnitOrEmpty(Kept(props)[k]))
  {
    if props != [] {
      ColumnsAreNumberedKeptEntries(props[1..], if Keeps(props[0]) then index + 1 else index);
    }
  }

  /** The columns depend only on the kept entries. */
  lemma ColumnsDependOnKeptOnly(xs: seq<PropDesc>, ys: seq<PropDesc>, index: int)
    requires Kept(xs) == Kept(ys)
    ensures ColumnsFrom(xs, index) == ColumnsFrom(ys, index)
  {
    ColumnsAreNumberedKeptEntries(xs, index);
    ColumnsAreNumberedKeptEntries(ys, index);
  }

  /** A skipped entry changes nothing and uses up no index. */
  lemma SkippedEntryIgnored(xs: seq<PropDesc>, p: PropDesc, ys: seq<PropDesc>, index: int)
    requires !Keeps(p)
    ensures ColumnsFrom(xs + [p] + ys, index) == ColumnsFrom(xs + ys, index)
  {
    KeptSkip(xs, p, ys);
    ColumnsDependOnKeptOnly(xs + [p] + ys, xs + ys, index);
  }

  lemma KeptSkip(xs: seq<PropDesc>, p: PropDesc, ys: seq<PropDesc>)
    requires !Keeps(p)
    ensures Kept(xs + [p] + ys) == Kept(xs + ys)
  {
    KeptConcat(xs + [p], ys);
    KeptConcat(xs, [p]);
    KeptConcat(xs, ys);
    KeptSingle(p);
  }

  lemma KeptSingle(p: PropDesc)
    ensures Kept([p]) == if Keeps(p) then [p] else []
  {
    assert [p][1..] == [];
  }

  /** ParseColumns: walk the entries, skip the blank-named ones and number the
      others consecutively from 0. */
  method ParseColumns(props: seq<PropDesc>) returns (cols: seq<UniColumn>)
    ensures cols == ColumnsFrom(props, 0)
  {
    cols := [];
    var index := 0;
    for i := 0 to |props|
      invariant index == |cols|
      invariant cols + ColumnsFrom(props[i..], index) == ColumnsFrom(props, 0)
    {
      assert props[i..][1..] == props[i + 1..];
      var prop := props[i];
      var name := prop.propName;
      var unit := if prop.unit.Some? then prop.unit.value else "";
      if name.None? || IsNullOrWhiteSpace(name.value) {
        continue;
      }
      cols := cols + [UniColumn(index, name.value, unit)];
      index := index + 1;
    }
    assert props[|props|..] == [];
  }
}
