/** `Tuple`: a row of field values under a schema, with an optional location
    on disk. Only `IntField` values are modelled; an unset field is `None`. */
module Tuples {
  import opened Common
  import opened Types
  import opened TupleDescs
  import opened IntFields
  import opened RecordIds
  import Strings

  /** How `toString` renders a field: its int value, or "null" when unset. */
  function FieldString(f: Option<IntField>): (s: string)
    ensures |s| >= 1
  {
    match f
    case None => "null"
    case Some(v) => Strings.IntToString(v.value as int)
  }

  /** A rendered field holds digits, a sign or the letters of "null", never a tab. */
  lemma FieldStringHasNoTab(f: Option<IntField>)
    ensures '\t' !in FieldString(f)
  {
    if f.Some? {
      Strings.IntToStringChars(f.value.value as int);
      var s := FieldString(f);
      assert forall i :: 0 <= i < |s| ==> s[i] != '\t';
    }
  }

  function FieldStrings(fs: seq<Option<IntField>>): (ss: seq<string>)
    ensures |ss| == |fs|
    ensures forall i :: 0 <= i < |fs| ==> ss[i] == FieldString(fs[i])
  {
    seq(|fs|, i requires 0 <= i < |fs| => FieldString(fs[i]))
  }

  class Tuple {
    const td: TupleDesc
    const data: array<Option<IntField>>
    var rid: Option<RecordId>

    /** One slot per schema field. */
    ghost predicate Valid()
    {
      data.Length == |td.items|
    }

    /** `Tuple(td)`: every field unset and no RecordId; the schema must have
        at least one field. */
    constructor (td: TupleDesc)
      requires WellFormed(td)
      ensures this.td == td && Valid() && fresh(data)
      ensures forall i :: 0 <= i < data.Length ==> data[i] == None
      ensures rid == None
    {
      this.td := td;
      this.data := new Option<IntField>[|td.items|](_ => None);
      this.rid := None;
    }

    /** `fields()`: the field values in index order, one per schema field. */
    function Fields(): (fs: seq<Option<IntField>>)
      requires Valid()
      reads data
      ensures |fs| == NumFields(td)
      ensures forall i :: 0 <= i < |fs| ==> fs[i] == data[i]
    {
      data[..]
    }

    /** `setField(i, f)`: NoSuchElementException for an index outside the
        schema, checked before the type; a RuntimeException when field i is
        not INT_TYPE; otherwise field i becomes `f` and nothing else changes. */
    method SetField(i: int, f: IntField) returns (s: Status)
      requires Valid()
      modifies data
      ensures (i < 0 || i >= data.Length) ==> s == Failed(NoSuchElement)
      ensures 0 <= i < data.Length && td.items[i].fieldType != GetType(f) ==> s == Failed(TypeMismatch)
      ensures s.Failed? ==> data[..] == old(data[..])
      ensures s.Done? <==> 0 <= i < data.Length && td.items[i].fieldType == GetType(f)
      ensures s.Done? ==> data[..] == old(data[..])[i := Some(f)]
    {
      if i >= data.Length || i < 0 {
        return Failed(NoSuchElement);
      }
      var ft := GetFieldType(td, i);
      if ft.value != GetType(f) {
        return Failed(TypeMismatch);
      }
      data[i] := Some(f);
      return Done;
    }

    /** `getField(i)`: the value of field i, `None` when unset;
        NoSuchElementException for an index outside the schema. */
    method GetField(i: int) returns (r: Result<Option<IntField>>)
      requires Valid()
      ensures r.Ok? <==> 0 <= i < NumFields(td)
      ensures r.Ok? ==> r.value == Fields()[i]
      ensures r.Fail? ==> r.error == NoSuchElement
    {
      if i >= data.Length || i < 0 {
        return Fail(NoSuchElement);
      }
      return Ok(data[i]);
    }

    /** `getRecordId`. */
    method GetRecordId() returns (r: Option<RecordId>)
      ensures r == rid
    {
      return rid;
    }

    /** `setRecordId`: only the RecordId changes. */
    method SetRecordId(r: Option<RecordId>)
      modifies this
      ensures rid == r
    {
      rid := r;
    }

    /** `toString`: the fields rendered and separated by tabs, with no tab
        after the last one. */
    method ToString() returns (str: string)
      requires Valid()
      ensures str == Strings.Join("\t", FieldStrings(Fields()))
    {
      var fs := data[..];
      var parts := FieldStrings(fs);
      str := "";
      var i := 0;
      while i < |fs|
        invariant 0 <= i <= |fs|
        invariant Strings.JoinedSoFar("\t", parts, i, str)
      {
        var part := FieldString(fs[i]);
        Strings.JoinedSoFarStep("\t", parts, i, str);
        if i == |fs| - 1 {
          str := str + part;
        } else {
          str := str + part + "\t";
        }
        i := i + 1;
      }
      Strings.JoinedSoFarDone("\t", parts, str);
      assert Fields() == fs;
    }
  }

  /** Setting a field and then reading it returns the value set, and a
      RecordId set is the one read back: the two pairs of accessors
      round-trip, shown here on a tuple fresh from the constructor. */
  method SetGetRoundTrip(td: TupleDesc, i: int, f: IntField, r: RecordId) returns (got: Result<Option<IntField>>, gotRid: Option<RecordId>)
    requires WellFormed(td) && 0 <= i < |td.items| && td.items[i].fieldType == IntType
    ensures got == Ok(Some(f))
    ensures gotRid == Some(r)
  {
    var t := new Tuple(td);
    var s := t.SetField(i, f);
    got := t.GetField(i);
    t.SetRecordId(Some(r));
    gotRid := t.GetRecordId();
  }

  /** The rendering of n >= 1 fields holds exactly n - 1 tabs, one between
      each two neighbours, so splitting it at tabs recovers every field. */
  lemma ToStringTabs(fs: seq<Option<IntField>>)
    requires |fs| >= 1
    ensures Strings.CountChar(Strings.Join("\t", FieldStrings(fs)), '\t') == |fs| - 1
    ensures var s := Strings.Join("\t", FieldStrings(fs)); s[|s| - 1] != '\t'
  {
    var parts := FieldStrings(fs);
    forall i | 0 <= i < |parts| ensures '\t' !in parts[i] {
      FieldStringHasNoTab(fs[i]);
    }
    Strings.JoinCountSeparators('\t', parts);
    Strings.JoinEndsWithLast("\t", parts);
    var s := Strings.Join("\t", parts);
    var last := parts[|parts| - 1];
    assert s[|s| - 1] == last[|last| - 1];
  }
}
