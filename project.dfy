/** `Project`: the relational projection. Its schema takes the listed
    fields' names from the child's schema and the given types; each output
    tuple copies the listed fields of the child's next tuple, in list order. */
module Projects {
  import opened Common
  import opened Types
  import opened TupleDescs
  import opened IntFields
  import opened Tuples
  import opened TupleStreams

  /** The names of the first `n` listed fields, looked up in the child's
      schema in list order; the first lookup that throws ends it. */
  function ProjectedNames(childTd: TupleDesc, fieldList: seq<int>, n: nat): (r: Result<seq<Option<string>>>)
    requires n <= |fieldList|
    ensures r.Ok? <==> forall i :: 0 <= i < n ==> 0 <= fieldList[i] < NumFields(childTd)
    ensures r.Ok? ==> |r.value| == n
    ensures r.Ok? ==> forall i :: 0 <= i < n ==> r.value[i] == childTd.items[fieldList[i]].fieldName
    ensures r.Fail? ==> exists k :: 0 <= k < n && GetFieldName(childTd, fieldList[k]) == Fail(r.error)
  {
    if n == 0 then Ok([])
    else match ProjectedNames(childTd, fieldList, n - 1)
      case Fail(e) => Fail(e)
      case Ok(names) =>
        match GetFieldName(childTd, fieldList[n - 1])
        case Fail(e) => Fail(e)
        case Ok(name) => Ok(names + [name])
  }

  /** Once a lookup has thrown, the longer runs throw the same exception. */
  lemma {:induction false} ProjectedNamesFailureSticks(childTd: TupleDesc, fieldList: seq<int>, n: nat, m: nat)
    requires n <= m <= |fieldList| && ProjectedNames(childTd, fieldList, n).Fail?
    decreases m
    ensures ProjectedNames(childTd, fieldList, m) == ProjectedNames(childTd, fieldList, n)
  {
    if m > n {
      ProjectedNamesFailureSticks(childTd, fieldList, n, m - 1);
    }
  }

  /** The schema-building part of the constructor: look up each listed
      field's name in the child's schema (a NoSuchElementException or an
      index exception for a field outside it), then build the schema from
      `types` and those names (UnsupportedOperationException when `types`
      is empty or its length differs from the list's). */
  method BuildSchema(childTd: TupleDesc, fieldList: seq<int>, types: seq<FieldType>) returns (r: Result<TupleDesc>)
    ensures ProjectedNames(childTd, fieldList, |fieldList|).Fail? ==>
      r == Fail(ProjectedNames(childTd, fieldList, |fieldList|).error)
    ensures ProjectedNames(childTd, fieldList, |fieldList|).Ok? ==>
      (r.Fail? <==> |types| == 0 || |types| != |fieldList|) && (r.Fail? ==> r.error == Unsupported)
    ensures r.Ok? ==> WellFormed(r.value) && |r.value.items| == |fieldList| == |types|
    ensures r.Ok? ==> forall i :: 0 <= i < |fieldList| ==>
      0 <= fieldList[i] < NumFields(childTd) &&
      r.value.items[i] == TDItem(types[i], childTd.items[fieldList[i]].fieldName)
  {
    var fieldAr: seq<Option<string>> := [];
    for i := 0 to |fieldList|
      invariant ProjectedNames(childTd, fieldList, i) == Ok(fieldAr)
    {
      var name := GetFieldName(childTd, fieldList[i]);
      if name.Fail? {
        ProjectedNamesFailureSticks(childTd, fieldList, i + 1, |fieldList|);
        return Fail(name.error);
      }
      fieldAr := fieldAr + [name.value];
    }
    r := NewTupleDesc(types, fieldAr);
  }

  /** Output field `i` taken from the child's field `id` (type `ft` in the
      output schema): `getField` throws NoSuchElementException for an index
      outside the child tuple, `setField` throws NullPointerException on an
      unset field and a RuntimeException when `ft` is not INT_TYPE. */
  function FieldFor(src: seq<Option<IntField>>, id: int, ft: FieldType): (r: Result<Option<IntField>>)
    ensures r.Ok? <==> 0 <= id < |src| && src[id].Some? && ft == IntType
    ensures r.Ok? ==> r.value == src[id]
    ensures !(0 <= id < |src|) ==> r == Fail(NoSuchElement)
    ensures 0 <= id < |src| && src[id].None? ==> r == Fail(NullPointer)
    ensures 0 <= id < |src| && src[id].Some? && ft != IntType ==> r == Fail(TypeMismatch)
  {
    if id < 0 || id >= |src| then Fail(NoSuchElement)
    else if src[id].None? then Fail(NullPointer)
    else if ft != GetType(src[id].value) then Fail(TypeMismatch)
    else Ok(src[id])
  }

  /** The first `n` output fields copied from a child tuple's fields `src`,
      in order; the first copy that throws ends it. */
  function ProjectFields(src: seq<Option<IntField>>, ids: seq<int>, types: seq<FieldType>, n: nat): (r: Result<seq<Option<IntField>>>)
    requires n <= |ids| && n <= |types|
    ensures r.Ok? <==> forall i :: 0 <= i < n ==> FieldFor(src, ids[i], types[i]).Ok?
    ensures r.Ok? ==> |r.value| == n
    ensures r.Ok? ==> forall i :: 0 <= i < n ==> 0 <= ids[i] < |src| && r.value[i] == src[ids[i]] && r.value[i].Some?
    ensures r.Fail? ==> exists k :: 0 <= k < n && FieldFor(src, ids[k], types[k]) == Fail(r.error)
  {
    if n == 0 then Ok([])
    else match ProjectFields(src, ids, types, n - 1)
      case Fail(e) => Fail(e)
      case Ok(prefix) =>
        match FieldFor(src, ids[n - 1], types[n - 1])
        case Fail(e) => Fail(e)
        case Ok(f) => Ok(prefix + [f])
  }

  /** Once a copy has thrown, the longer runs throw the same exception. */
  lemma {:induction false} ProjectFieldsFailureSticks(src: seq<Option<IntField>>, ids: seq<int>, types: seq<FieldType>, n: nat, m: nat)
    requires n <= m <= |ids| && m <= |types| && ProjectFields(src, ids, types, n).Fail?
    decreases m
    ensures ProjectFields(src, ids, types, m) == ProjectFields(src, ids, types, n)
  {
    if m > n {
      ProjectFieldsFailureSticks(src, ids, types, n, m - 1);
    }
  }

  /** Projecting every field of a fully set INT tuple onto itself, in order,
      gives back the same fields. */
  lemma {:induction false} ProjectAllIsIdentity(src: seq<Option<IntField>>, ids: seq<int>, types: seq<FieldType>, n: nat)
    requires |ids| == |types| == |src| && n <= |src|
    requires forall i :: 0 <= i < |src| ==> ids[i] == i && types[i] == IntType && src[i].Some?
    ensures ProjectFields(src, ids, types, n) == Ok(src[..n])
  {
    if n > 0 {
      ProjectAllIsIdentity(src, ids, types, n - 1);
      assert src[..n] == src[..n - 1] + [src[n - 1]];
    }
  }

  class Project {
    const td: TupleDesc
    const outFieldIds: seq<int>
    var child: TupleStream
    var open: bool

    /** The child is well formed, and the schema has one field per listed id. */
    ghost predicate Valid()
      reads this, child
    {
      child.Valid() && WellFormed(td) && |td.items| == |outFieldIds|
    }

    /** The fields, the list and the child of a projection whose schema has
        been built; it starts closed. */
    constructor (td: TupleDesc, outFieldIds: seq<int>, child: TupleStream)
      requires child.Valid() && WellFormed(td) && |td.items| == |outFieldIds|
      ensures this.td == td && this.outFieldIds == outFieldIds && this.child == child
      ensures !open && Valid()
    {
      this.td := td;
      this.outFieldIds := outFieldIds;
      this.child := child;
      open := false;
    }

    /** `open`: opens the child. */
    method Open()
      requires Valid()
      modifies this, child
      ensures Valid() && open && child == old(child)
      ensures child.isOpen && child.cursor == 0
    {
      child.Open();
      open := true;
    }

    /** `close`: closes the child. */
    method Close()
      requires Valid()
      modifies this, child
      ensures Valid() && !open && child == old(child)
      ensures !child.isOpen && child.cursor == old(child.cursor)
    {
      child.Close();
      open := false;
    }

    /** `rewind`: the child goes back to its first tuple. */
    method Rewind()
      requires Valid()
      modifies child
      ensures Valid() && child.cursor == 0 && child.isOpen == old(child.isOpen)
    {
      child.Rewind();
    }

    /** `hasNext`: open, and the child has a next tuple. */
    function HasNext(): (b: bool)
      requires Valid()
      reads this, child
      ensures b <==> open && child.isOpen && child.cursor < |child.items|
    {
      open && child.HasNext()
    }

    /** `next`: NoSuchElementException when there is no next tuple;
        otherwise a new tuple under the projection's schema, with the child
        tuple's RecordId and output field i copied from the child's field
        `outFieldIds[i]`, or the exception of the first copy that throws. */
    method Next() returns (r: Result<Tuple>)
      requires Valid()
      modifies child
      ensures Valid() && child.isOpen == old(child.isOpen)
      ensures !old(HasNext()) ==> r == Fail(NoSuchElement) && child.cursor == old(child.cursor)
      ensures old(HasNext()) ==> child.cursor == old(child.cursor) + 1
      ensures old(HasNext()) ==>
        var src := child.items[old(child.cursor)];
        var pf := ProjectFields(src.Fields(), outFieldIds, TypesOf(td), |outFieldIds|);
        && (r.Ok? <==> pf.Ok?)
        && (r.Fail? ==> r.error == pf.error)
        && (r.Ok? ==> fresh(r.value) && r.value.Valid() && r.value.td == td
                      && r.value.rid == src.rid && r.value.Fields() == pf.value)
    {
      if !HasNext() {
        return Fail(NoSuchElement);
      }
      var next := child.Next();
      var t := next.value;
      var newTuple := new Tuple(td);
      var rid := t.GetRecordId();
      newTuple.SetRecordId(rid);
      var s := CopyFields(t, outFieldIds, newTuple);
      if s.Failed? {
        return Fail(s.error);
      }
      return Ok(newTuple);
    }

    /** `setChildren`: exactly one child, or DbException. */
    method SetChildren(children: seq<TupleStream>) returns (s: Status)
      requires Valid() && forall i :: 0 <= i < |children| ==> children[i].Valid()
      modifies this
      ensures Valid() && open == old(open)
      ensures |children| != 1 ==> s == Failed(DbError) && child == old(child)
      ensures |children| == 1 ==> s == Done && child == children[0]
    {
      if |children| != 1 {
        return Failed(DbError);
      }
      child := children[0];
      return Done;
    }
  }

  /** The loop of `next`: output field i of `out` is set from field `ids[i]`
      of `t`, in order, until a copy throws. */
  method CopyFields(t: Tuple, ids: seq<int>, out: Tuple) returns (s: Status)
    requires t.Valid() && out.Valid() && |out.td.items| == |ids| && t.data != out.data
    modifies out.data
    ensures out.Valid()
    ensures s.Done? <==> ProjectFields(t.Fields(), ids, TypesOf(out.td), |ids|).Ok?
    ensures s.Failed? ==> s.error == ProjectFields(t.Fields(), ids, TypesOf(out.td), |ids|).error
    ensures s.Done? ==> out.Fields() == ProjectFields(t.Fields(), ids, TypesOf(out.td), |ids|).value
  {
    ghost var src := t.Fields();
    ghost var types := TypesOf(out.td);
    for i := 0 to |ids|
      invariant out.Valid() && t.Fields() == src
      invariant ProjectFields(src, ids, types, i) == Ok(out.Fields()[..i])
    {
      var f := t.GetField(ids[i]);
      var step: Status;
      if f.Fail? {
        step := Failed(f.error);
      } else if f.value.None? {
        step := Failed(NullPointer);
      } else {
        step := out.SetField(i, f.value.value);
      }
      if step.Failed? {
        ProjectFieldsFailureSticks(src, ids, types, i + 1, |ids|);
        return step;
      }
      assert out.Fields()[..i + 1] == out.Fields()[..i] + [f.value];
    }
    return Done;
  }

  /** `Project(fieldList, types, child)`: the schema is built first, so a
      failed lookup or a bad type list leaves no operator. */
  method NewProject(fieldList: seq<int>, types: seq<FieldType>, child: TupleStream) returns (r: Result<Project>)
    requires child.Valid()
    ensures r.Ok? ==> fresh(r.value) && r.value.Valid() && !r.value.open
    ensures r.Ok? ==> r.value.child == child && r.value.outFieldIds == fieldList && |types| == |fieldList|
    ensures r.Ok? ==> forall i :: 0 <= i < |fieldList| ==>
      0 <= fieldList[i] < NumFields(child.td) &&
      r.value.td.items[i] == TDItem(types[i], child.td.items[fieldList[i]].fieldName)
    ensures r.Fail? <==> ProjectedNames(child.td, fieldList, |fieldList|).Fail? || |types| == 0 || |types| != |fieldList|
  {
    var schema := BuildSchema(child.td, fieldList, types);
    if schema.Fail? {
      return Fail(schema.error);
    }
    var proj := new Project(schema.value, fieldList, child);
    return Ok(proj);
  }
}
