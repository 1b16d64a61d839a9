/** `TupleDesc`: the schema of a tuple, an immutable list of (type, name)
    items. Names may be null (`None`). */
module TupleDescs {
  import opened Common
  import opened Types
  import Strings

  /** `TupleDesc.TDItem`. */
  datatype TDItem = TDItem(fieldType: FieldType, fieldName: Option<string>)

  datatype TupleDesc = TupleDesc(items: seq<TDItem>)

  /** What both constructors guarantee: at least one field. */
  predicate WellFormed(td: TupleDesc)
  {
    |td.items| >= 1
  }

  /** `TupleDesc(Type[] typeAr, String[] fieldAr)`: one item per type, named
      from `fieldAr`; rejects an empty type array and arrays of different lengths. */
  method NewTupleDesc(typeAr: seq<FieldType>, fieldAr: seq<Option<string>>) returns (r: Result<TupleDesc>)
    ensures r.Fail? <==> |typeAr| == 0 || |typeAr| != |fieldAr|
    ensures r.Fail? ==> r.error == Unsupported
    ensures r.Ok? ==> WellFormed(r.value) && |r.value.items| == |typeAr|
    ensures r.Ok? ==> forall i :: 0 <= i < |typeAr| ==> r.value.items[i] == TDItem(typeAr[i], fieldAr[i])
  {
    if |typeAr| < 1 {
      return Fail(Unsupported);
    }
    if |typeAr| != |fieldAr| {
      return Fail(Unsupported);
    }
    var itemList: seq<TDItem> := [];
    var i := 0;
    while i < |typeAr|
      invariant 0 <= i <= |typeAr|
      invariant |itemList| == i
      invariant forall j :: 0 <= j < i ==> itemList[j] == TDItem(typeAr[j], fieldAr[j])
    {
      itemList := itemList + [TDItem(typeAr[i], fieldAr[i])];
      i := i + 1;
    }
    return Ok(TupleDesc(itemList));
  }

  /** `TupleDesc(Type[] typeAr)`: every field is named by the empty string. */
  method NewUnnamedTupleDesc(typeAr: seq<FieldType>) returns (r: Result<TupleDesc>)
    ensures r.Fail? <==> |typeAr| == 0
    ensures r.Fail? ==> r.error == Unsupported
    ensures r.Ok? ==> WellFormed(r.value) && |r.value.items| == |typeAr|
    ensures r.Ok? ==> forall i :: 0 <= i < |typeAr| ==> r.value.items[i] == TDItem(typeAr[i], Some(""))
  {
    if |typeAr| < 1 {
      return Fail(Unsupported);
    }
    var itemList: seq<TDItem> := [];
    var i := 0;
    while i < |typeAr|
      invariant 0 <= i <= |typeAr|
      invariant |itemList| == i
      invariant forall j :: 0 <= j < i ==> itemList[j] == TDItem(typeAr[j], Some(""))
    {
      itemList := itemList + [TDItem(typeAr[i], Some(""))];
      i := i + 1;
    }
    return Ok(TupleDesc(itemList));
  }

  /** `numFields`. */
  function NumFields(td: TupleDesc): nat
  {
    |td.items|
  }

  /** The field types, in order. */
  function TypesOf(td: TupleDesc): (ts: seq<FieldType>)
    ensures |ts| == |td.items|
    ensures forall i :: 0 <= i < |ts| ==> ts[i] == td.items[i].fieldType
  {
    seq(|td.items|, i requires 0 <= i < |td.items| => td.items[i].fieldType)
  }

  /** `getFieldType(i)`: the i-th type; NoSuchElementException for i at or past
      the end (and the list's own IndexOutOfBoundsException for a negative i). */
  function GetFieldType(td: TupleDesc, i: int): (r: Result<FieldType>)
    ensures r.Ok? <==> 0 <= i < NumFields(td)
    ensures r.Ok? ==> r.value == td.items[i].fieldType
    ensures i >= NumFields(td) ==> r == Fail(NoSuchElement)
    ensures i < 0 ==> r == Fail(IndexOutOfBounds)
  {
    if |td.items| > i then
      if i < 0 then Fail(IndexOutOfBounds) else Ok(td.items[i].fieldType)
    else Fail(NoSuchElement)
  }

  /** `getFieldName(i)`: the i-th (possibly null) name, with the same errors as getFieldType. */
  function GetFieldName(td: TupleDesc, i: int): (r: Result<Option<string>>)
    ensures r.Ok? <==> 0 <= i < NumFields(td)
    ensures r.Ok? ==> r.value == td.items[i].fieldName
    ensures i >= NumFields(td) ==> r == Fail(NoSuchElement)
    ensures i < 0 ==> r == Fail(IndexOutOfBounds)
  {
    if |td.items| > i then
      if i < 0 then Fail(IndexOutOfBounds) else Ok(td.items[i].fieldName)
    else Fail(NoSuchElement)
  }

  /** A field answers to `name` when its name is non-null and equal to it;
      a null query matches nothing (`equals(null)` is false). */
  predicate NameMatches(item: TDItem, name: Option<string>)
  {
    item.fieldName.Some? && item.fieldName == name
  }

  /** First index at or after `from` whose name matches, if any. */
  function FindName(items: seq<TDItem>, name: Option<string>, from: nat): (r: Option<nat>)
    requires from <= |items|
    ensures r.Some? ==> from <= r.value < |items| && NameMatches(items[r.value], name)
    ensures r.Some? ==> forall j :: from <= j < r.value ==> !NameMatches(items[j], name)
    ensures r.None? ==> forall j :: from <= j < |items| ==> !NameMatches(items[j], name)
    decreases |items| - from
  {
    if from == |items| then None
    else if NameMatches(items[from], name) then Some(from)
    else FindName(items, name, from + 1)
  }

  /** `fieldNameToIndex(name)`: the smallest index whose name equals `name`;
      NoSuchElementException when none does, in particular for a null query. */
  function FieldNameToIndex(td: TupleDesc, name: Option<string>): (r: Result<nat>)
    ensures r.Ok? ==> r.value < NumFields(td) && td.items[r.value].fieldName == name && name.Some?
    ensures r.Ok? ==> forall j :: 0 <= j < r.value ==> td.items[j].fieldName != name
    ensures r.Fail? ==> r.error == NoSuchElement
    ensures r.Fail? <==> name.None? || forall j :: 0 <= j < NumFields(td) ==> td.items[j].fieldName != name
  {
    match FindName(td.items, name, 0)
    case Some(i) => Ok(i)
    case None => Fail(NoSuchElement)
  }

  /** Sum of `Type.getLen` over a list of types. */
  function SumLen(ts: seq<FieldType>): nat
  {
    if ts == [] then 0 else Len(ts[0]) + SumLen(ts[1..])
  }

  /** `getSize`: bytes in a tuple of this schema. */
  function Size(td: TupleDesc): nat
  {
    SumLen(TypesOf(td))
  }

  function CountType(ts: seq<FieldType>, t: FieldType): nat
  {
    if ts == [] then 0 else (if ts[0] == t then 1 else 0) + CountType(ts[1..], t)
  }

  lemma {:induction false} SumLenAppend(a: seq<FieldType>, b: seq<FieldType>)
    ensures SumLen(a + b) == SumLen(a) + SumLen(b)
  {
    if a != [] {
      assert (a + b)[0] == a[0];
      assert (a + b)[1..] == a[1..] + b;
      SumLenAppend(a[1..], b);
    } else {
      assert a + b == b;
    }
  }

  lemma {:induction false} SumLenByCount(ts: seq<FieldType>)
    ensures SumLen(ts) == 4 * CountType(ts, IntType) + (STRING_LEN + 4) * CountType(ts, StringType)
  {
    if ts != [] {
      SumLenByCount(ts[1..]);
    }
  }

  /** A tuple's size is 4 bytes per INT field and 132 bytes per STRING field. */
  lemma SizeByFieldKinds(td: TupleDesc)
    ensures Size(td) == 4 * CountType(TypesOf(td), IntType) + 132 * CountType(TypesOf(td), StringType)
  {
    SumLenByCount(TypesOf(td));
  }

  /** `equals`: the same number of fields and the same type at every position; names are ignored. */
  predicate TupleDescEquals(a: TupleDesc, b: TupleDesc)
  {
    |a.items| == |b.items| && forall i :: 0 <= i < |a.items| ==> a.items[i].fieldType == b.items[i].fieldType
  }

  /** Two schemas are equal exactly when their type lists are; so `equals` is
      reflexive, symmetric and transitive, and equal schemas have equal sizes. */
  lemma EqualsIsSameTypes(a: TupleDesc, b: TupleDesc)
    ensures TupleDescEquals(a, b) <==> TypesOf(a) == TypesOf(b)
    ensures TupleDescEquals(a, b) ==> Size(a) == Size(b)
  {
    if TypesOf(a) == TypesOf(b) {
      assert |a.items| == |TypesOf(a)|;
    }
  }

  lemma EqualsIsEquivalence(a: TupleDesc, b: TupleDesc, c: TupleDesc)
    ensures TupleDescEquals(a, a)
    ensures TupleDescEquals(a, b) ==> TupleDescEquals(b, a)
    ensures TupleDescEquals(a, b) && TupleDescEquals(b, c) ==> TupleDescEquals(a, c)
  {
  }

  /** Renaming fields never changes equality. */
  lemma EqualsIgnoresNames(a: TupleDesc, names: seq<Option<string>>)
    requires |names| == |a.items|
    ensures TupleDescEquals(a, TupleDesc(seq(|a.items|, i requires 0 <= i < |a.items| => TDItem(a.items[i].fieldType, names[i]))))
  {
  }

  /** How `toString` renders one item: "name(TYPE)", a null name as "null". */
  function ItemString(item: TDItem): string
  {
    (match item.fieldName case Some(n) => n case None => "null") + "(" + TypeName(item.fieldType) + ")"
  }

  function ItemStrings(td: TupleDesc): (ss: seq<string>)
    ensures |ss| == |td.items|
    ensures forall i :: 0 <= i < |ss| ==> ss[i] == ItemString(td.items[i])
  {
    seq(|td.items|, i requires 0 <= i < |td.items| => ItemString(td.items[i]))
  }

  /** `toString`: the items rendered as "name(TYPE)" and joined by ", ", with
      no separator after the last one. */
  method ToString(td: TupleDesc) returns (str: string)
    ensures str == Strings.Join(", ", ItemStrings(td))
  {
    var parts := ItemStrings(td);
    str := "";
    var i := 0;
    while i < |td.items|
      invariant 0 <= i <= |td.items|
      invariant Strings.JoinedSoFar(", ", parts, i, str)
    {
      var part := ItemString(td.items[i]);
      Strings.JoinedSoFarStep(", ", parts, i, str);
      if i == |td.items| - 1 {
        str := str + part;
      } else {
        str := str + part + ", ";
      }
      i := i + 1;
    }
    Strings.JoinedSoFarDone(", ", parts, str);
  }

  /** The rendering of a non-empty schema starts with its first item and ends
      with its last, so it has no leading or trailing separator. */
  lemma ToStringShape(td: TupleDesc)
    requires WellFormed(td)
    ensures var s := Strings.Join(", ", ItemStrings(td));
      var first := ItemString(td.items[0]);
      var last := ItemString(td.items[|td.items| - 1]);
      |s| >= |first| && s[..|first|] == first && |s| >= |last| && s[|s| - |last|..] == last
  {
    Strings.JoinStartsWithFirst(", ", ItemStrings(td));
    Strings.JoinEndsWithLast(", ", ItemStrings(td));
  }

  /** `merge` as the source writes it: its second loop reads `td1`'s items
      where the documentation says `td2`'s, so the list index fails when `td2`
      has more fields than `td1`, and otherwise the tail repeats `td1`. */
  function MergeAsWrittenResult(td1: TupleDesc, td2: TupleDesc): Result<TupleDesc>
  {
    if |td2.items| > |td1.items| then Fail(IndexOutOfBounds)
    else if |td1.items| + |td2.items| == 0 then Fail(Unsupported)
    else Ok(TupleDesc(td1.items + td1.items[..|td2.items|]))
  }

  /** The items `merge` is documented to produce: td1's, then td2's. */
  function MergeIntended(td1: TupleDesc, td2: TupleDesc): Result<TupleDesc>
  {
    if |td1.items| + |td2.items| == 0 then Fail(Unsupported)
    else Ok(TupleDesc(td1.items + td2.items))
  }

  /** `merge`, line for line as written. */
  method MergeAsWritten(td1: TupleDesc, td2: TupleDesc) returns (r: Result<TupleDesc>)
    ensures r == MergeAsWrittenResult(td1, td2)
  {
    var n1, n2 := |td1.items|, |td2.items|;
    var typeAr := new FieldType[n1 + n2];
    var fieldAr := new Option<string>[n1 + n2](_ => None);
    var i := 0;
    while i < n1
      invariant 0 <= i <= n1
      invariant forall j :: 0 <= j < i ==> typeAr[j] == td1.items[j].fieldType && fieldAr[j] == td1.items[j].fieldName
    {
      typeAr[i] := td1.items[i].fieldType;
      fieldAr[i] := td1.items[i].fieldName;
      i := i + 1;
    }
    var idx := 0;
    while idx < n2
      invariant 0 <= idx <= n2
      invariant forall j :: 0 <= j < n1 ==> typeAr[j] == td1.items[j].fieldType && fieldAr[j] == td1.items[j].fieldName
      invariant idx <= n1
      invariant forall j :: 0 <= j < idx ==> typeAr[n1 + j] == td1.items[j].fieldType && fieldAr[n1 + j] == td1.items[j].fieldName
    {
      if idx >= n1 {
        return Fail(IndexOutOfBounds);
      }
      typeAr[idx + n1] := td1.items[idx].fieldType;
      fieldAr[idx + n1] := td1.items[idx].fieldName;
      idx := idx + 1;
    }
    r := NewTupleDesc(typeAr[..], fieldAr[..]);
    if r.Ok? {
      assert r.value.items == td1.items + td1.items[..n2];
    }
  }

  /** `merge` as documented (line 261 reading `td2`): td1's fields first, then td2's. */
  method Merge(td1: TupleDesc, td2: TupleDesc) returns (r: Result<TupleDesc>)
    ensures r == MergeIntended(td1, td2)
  {
    var n1, n2 := |td1.items|, |td2.items|;
    var typeAr := new FieldType[n1 + n2];
    var fieldAr := new Option<string>[n1 + n2](_ => None);
    var i := 0;
    while i < n1
      invariant 0 <= i <= n1
      invariant forall j :: 0 <= j < i ==> typeAr[j] == td1.items[j].fieldType && fieldAr[j] == td1.items[j].fieldName
    {
      typeAr[i] := td1.items[i].fieldType;
      fieldAr[i] := td1.items[i].fieldName;
      i := i + 1;
    }
    var idx := 0;
    while idx < n2
      invariant 0 <= idx <= n2
      invariant forall j :: 0 <= j < n1 ==> typeAr[j] == td1.items[j].fieldType && fieldAr[j] == td1.items[j].fieldName
      invariant forall j :: 0 <= j < idx ==> typeAr[n1 + j] == td2.items[j].fieldType && fieldAr[n1 + j] == td2.items[j].fieldName
    {
      typeAr[idx + n1] := td2.items[idx].fieldType;
      fieldAr[idx + n1] := td2.items[idx].fieldName;
      idx := idx + 1;
    }
    r := NewTupleDesc(typeAr[..], fieldAr[..]);
    if r.Ok? {
      assert r.value.items == td1.items + td2.items;
    }
  }

  /** The documented promise of `merge`: td1.numFields + td2.numFields fields,
      the first td1.numFields from td1, the rest from td2, and the size is the sum. */
  lemma MergeIntendedMeetsDoc(td1: TupleDesc, td2: TupleDesc)
    requires WellFormed(td1) && WellFormed(td2)
    ensures MergeIntended(td1, td2).Ok?
    ensures var m := MergeIntended(td1, td2).value;
      && NumFields(m) == NumFields(td1) + NumFields(td2)
      && (forall i :: 0 <= i < NumFields(td1) ==> m.items[i] == td1.items[i])
      && (forall i :: 0 <= i < NumFields(td2) ==> m.items[NumFields(td1) + i] == td2.items[i])
      && Size(m) == Size(td1) + Size(td2)
  {
    var m := MergeIntended(td1, td2).value;
    assert TypesOf(m) == TypesOf(td1) + TypesOf(td2);
    SumLenAppend(TypesOf(td1), TypesOf(td2));
  }

  /** The as-written `merge` breaks that promise: merging (INT "a") with
      (STRING "b") yields two INT fields named "a", and merging a one-field
      schema with a two-field one throws. */
  lemma MergeAsWrittenBreaksDoc()
    ensures var td1 := TupleDesc([TDItem(IntType, Some("a"))]);
      var td2 := TupleDesc([TDItem(StringType, Some("b"))]);
      && MergeAsWrittenResult(td1, td2) == Ok(TupleDesc([TDItem(IntType, Some("a")), TDItem(IntType, Some("a"))]))
      && MergeAsWrittenResult(td1, td2) != MergeIntended(td1, td2)
    ensures var td1 := TupleDesc([TDItem(IntType, Some("a"))]);
      var td2 := TupleDesc([TDItem(IntType, None), TDItem(IntType, None)]);
      MergeAsWrittenResult(td1, td2) == Fail(IndexOutOfBounds) && MergeIntended(td1, td2).Ok?
  {
    var td1 := TupleDesc([TDItem(IntType, Some("a"))]);
    var td2 := TupleDesc([TDItem(StringType, Some("b"))]);
    assert td1.items + td1.items[..1] == [TDItem(IntType, Some("a")), TDItem(IntType, Some("a"))];
    assert MergeIntended(td1, td2).value.items[1] == TDItem(StringType, Some("b"));
  }
}
