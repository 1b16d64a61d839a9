/** `Filter`: the relational select. It pulls tuples from its child until one
    passes the predicate, holds that tuple as pending (`found`, `t`) until
    `next` hands it out, and reports the predicate's exceptions. */
module Filters {
  import opened Common
  import opened TupleDescs
  import opened Tuples
  import opened Predicates
  import opened TupleStreams

  /** Every tuple of `ts` has its schema's width. */
  ghost predicate AllValid(ts: seq<Tuple>)
  {
    forall i :: 0 <= i < |ts| ==> ts[i].Valid()
  }

  /** The field arrays of the tuples in `ts`. */
  ghost function Arrays(ts: seq<Tuple>): set<array<Option<IntFields.IntField>>>
  {
    set i | 0 <= i < |ts| :: ts[i].data
  }

  /** What the predicate says of each tuple of `ts`, in order. */
  function Verdicts(p: Predicate, ts: seq<Tuple>): (vs: seq<Result<bool>>)
    requires AllValid(ts)
    reads Arrays(ts)
    ensures |vs| == |ts|
    ensures forall i :: 0 <= i < |ts| ==> vs[i] == Predicates.Filter(p, ts[i])
  {
    if ts == [] then []
    else
      assert Arrays(ts[..|ts| - 1]) <= Arrays(ts) by {
        forall i | 0 <= i < |ts| - 1 ensures ts[..|ts| - 1][i] == ts[i] { }
      }
      Verdicts(p, ts[..|ts| - 1]) + [Predicates.Filter(p, ts[|ts| - 1])]
  }

  /** Where a scan of the verdicts from index `from` stops: at the first
      tuple that passes, at the first whose test throws, or at the end. */
  datatype ScanOutcome = Hit(k: nat) | Exhausted | Error(k: nat, e: Error)

  /** The tuples from `from` on that `hasNext` pulls and tests, stopping at
      the first one that passes or throws. */
  function Scan(vs: seq<Result<bool>>, from: nat): (s: ScanOutcome)
    decreases |vs| - from
    ensures s.Hit? ==> from <= s.k < |vs| && vs[s.k] == Ok(true)
    ensures s.Error? ==> from <= s.k < |vs| && vs[s.k] == Fail(s.e)
    ensures s.Exhausted? ==> forall j :: from <= j < |vs| ==> vs[j] == Ok(false)
    ensures !s.Exhausted? ==> forall j :: from <= j < s.k ==> vs[j] == Ok(false)
  {
    if from >= |vs| then Exhausted
    else match vs[from]
      case Fail(e) => Error(from, e)
      case Ok(pass) => if pass then Hit(from) else Scan(vs, from + 1)
  }

  /** One step of a scan: a tuple that passes ends it, one that fails the
      test is skipped. */
  lemma ScanStep(vs: seq<Result<bool>>, k: nat)
    requires k < |vs| && vs[k].Ok?
    ensures vs[k].value ==> Scan(vs, k) == Hit(k)
    ensures !vs[k].value ==> Scan(vs, k) == Scan(vs, k + 1)
  {
  }

  /** The tuples of `ts` from index `from` on whose verdict is "passes", in order. */
  function Passing(ts: seq<Tuple>, vs: seq<Result<bool>>, from: nat): (m: seq<Tuple>)
    requires |vs| == |ts|
    decreases |ts| - from
    ensures from <= |ts| ==> |m| <= |ts| - from
  {
    if from >= |ts| then []
    else if vs[from] == Ok(true) then [ts[from]] + Passing(ts, vs, from + 1)
    else Passing(ts, vs, from + 1)
  }

  /** Every tuple the filter lets through is a tuple of `ts` whose verdict is
      "passes". */
  lemma {:induction false} PassingSelects(ts: seq<Tuple>, vs: seq<Result<bool>>, from: nat)
    requires |vs| == |ts|
    decreases |ts| - from
    ensures forall i :: 0 <= i < |Passing(ts, vs, from)| ==>
      exists j :: from <= j < |ts| && Passing(ts, vs, from)[i] == ts[j] && vs[j] == Ok(true)
  {
    if from < |ts| {
      PassingSelects(ts, vs, from + 1);
      var m := Passing(ts, vs, from);
      var rest := Passing(ts, vs, from + 1);
      assert m == if vs[from] == Ok(true) then [ts[from]] + rest else rest;
      forall i | 0 <= i < |m|
        ensures exists j :: from <= j < |ts| && m[i] == ts[j] && vs[j] == Ok(true)
      {
        if vs[from] == Ok(true) && i == 0 {
          assert m[0] == ts[from];
        } else {
          var i' := if vs[from] == Ok(true) then i - 1 else i;
          assert 0 <= i' < |rest| && m[i] == rest[i'];
          var j :| from + 1 <= j < |ts| && rest[i'] == ts[j] && vs[j] == Ok(true);
          assert from <= j;
        }
      }
    } else {
      assert Passing(ts, vs, from) == [];
    }
  }

  /** What a consumer collects by calling `hasNext` and `next` on a freshly
      opened filter until `hasNext` is false: each `hasNext` runs one scan,
      and the first exception ends the run. */
  function Outputs(ts: seq<Tuple>, vs: seq<Result<bool>>, from: nat): (r: Result<seq<Tuple>>)
    requires |vs| == |ts|
    decreases |ts| - from
    ensures r.Fail? ==> exists j :: from <= j < |vs| && vs[j] == Fail(r.error)
  {
    match Scan(vs, from)
    case Exhausted => Ok([])
    case Error(_, e) => Fail(e)
    case Hit(k) =>
      var rest := Outputs(ts, vs, k + 1);
      if rest.Ok? then Ok([ts[k]] + rest.value) else rest
  }

  /** A scan that stops at a passing tuple has skipped only failing ones, so
      the passing tuples from `from` on are that one and those after it; a
      scan that reaches the end has skipped every remaining tuple. */
  lemma {:induction false} ScanPassing(ts: seq<Tuple>, vs: seq<Result<bool>>, from: nat)
    requires |vs| == |ts|
    decreases |ts| - from
    ensures Scan(vs, from).Hit? ==>
      var k := Scan(vs, from).k; Passing(ts, vs, from) == [ts[k]] + Passing(ts, vs, k + 1)
    ensures Scan(vs, from).Exhausted? ==> Passing(ts, vs, from) == []
  {
    if from < |ts| && vs[from] == Ok(false) {
      ScanPassing(ts, vs, from + 1);
    }
  }

  /** The filter's output is exactly the tuples that pass, in the child's
      order, and it is an exception exactly when the predicate throws on
      some tuple. */
  lemma {:induction false} OutputsArePassing(ts: seq<Tuple>, vs: seq<Result<bool>>, from: nat)
    requires |vs| == |ts|
    decreases |ts| - from
    ensures Outputs(ts, vs, from).Ok? <==> forall j :: from <= j < |vs| ==> vs[j].Ok?
    ensures Outputs(ts, vs, from).Ok? ==> Outputs(ts, vs, from).value == Passing(ts, vs, from)
  {
    ScanPassing(ts, vs, from);
    var s := Scan(vs, from);
    if s.Hit? {
      OutputsArePassing(ts, vs, s.k + 1);
    }
  }

  class Filter {
    const p: Predicate
    const td: TupleDesc
    var child: TupleStream
    var open: bool
    var found: bool
    var t: Tuple?

    /** The child is well formed, and a pending tuple passes the predicate. */
    ghost predicate Valid()
      reads this, child, if t == null then {} else {t.data}
    {
      && child.Valid()
      && (found ==> t != null && t.Valid() && Passes(p, t))
    }

    /** `Filter(p, child)`: closed, nothing pending, and the output schema is
        the child's. */
    constructor (p: Predicate, child: TupleStream)
      requires child.Valid()
      ensures this.p == p && this.child == child && td == child.td
      ensures !open && !found && t == null && Valid()
    {
      this.p := p;
      this.child := child;
      this.td := child.td;
      open := false;
      found := false;
      t := null;
    }

    /** `open`: opens the child; a pending tuple stays pending. */
    method Open()
      requires Valid()
      modifies this, child
      ensures Valid() && open && child == old(child)
      ensures child.isOpen && child.cursor == 0
      ensures found == old(found) && t == old(t)
    {
      child.Open();
      open := true;
    }

    /** `close`: closes the child. */
    method Close()
      requires Valid()
      modifies this, child
      ensures Valid() && !open && child == old(child)
      ensures !child.isOpen && child.cursor == old(child.cursor)
      ensures found == old(found) && t == old(t)
    {
      child.Close();
      open := false;
    }

    /** `rewind` as written: only the child goes back to its start, so a
        tuple already pending is still handed out first. */
    method RewindAsWritten()
      requires Valid()
      modifies child
      ensures Valid() && child.cursor == 0 && child.isOpen == old(child.isOpen)
      ensures found == old(found) && t == old(t)
    {
      child.Rewind();
    }

    /** `rewind`, corrected: back to the start of the output, so nothing is
        pending and the child restarts. */
    method Rewind()
      requires Valid()
      modifies this, child
      ensures Valid() && child == old(child) && open == old(open)
      ensures child.cursor == 0 && child.isOpen == old(child.isOpen)
      ensures !found && t == old(t)
    {
      child.Rewind();
      found := false;
    }

    /** `hasNext`: true at once when a tuple is pending; otherwise the
        result of looking for the next one that passes. */
    method HasNext() returns (r: Result<bool>)
      requires Valid()
      modifies this, child
      ensures Valid() && child == old(child) && open == old(open) && child.isOpen == old(child.isOpen)
      ensures old(found) ==> r == Ok(true) && found && t == old(t) && child.cursor == old(child.cursor)
      ensures !old(found) && !(open && old(child.HasNext())) ==>
        r == Ok(false) && !found && child.cursor == old(child.cursor)
      ensures !old(found) && open && old(child.HasNext()) ==>
        var s := Scan(old(Verdicts(p, child.items)), old(child.cursor));
        && (s.Hit? ==> r == Ok(true) && found && t == child.items[s.k] && child.cursor == s.k + 1)
        && (s.Exhausted? ==> r == Ok(false) && !found && child.cursor == |child.items|)
        && (s.Error? ==> r == Fail(s.e) && !found && child.cursor == s.k + 1)
    {
      if found {
        return Ok(true);
      }
      r := Seek();
    }

    /** The loop of `hasNext`: while the filter is open and the child has
        tuples, pull one and test it; stop when one passes or the test
        throws. */
    method Seek() returns (r: Result<bool>)
      requires Valid() && !found
      modifies this, child
      ensures Valid() && child == old(child) && open == old(open) && child.isOpen == old(child.isOpen)
      ensures !(open && old(child.HasNext())) ==> r == Ok(false) && !found && child.cursor == old(child.cursor)
      ensures open && old(child.HasNext()) ==>
        var s := Scan(old(Verdicts(p, child.items)), old(child.cursor));
        && (s.Hit? ==> r == Ok(true) && found && t == child.items[s.k] && child.cursor == s.k + 1)
        && (s.Exhausted? ==> r == Ok(false) && !found && child.cursor == |child.items|)
        && (s.Error? ==> r == Fail(s.e) && !found && child.cursor == s.k + 1)
    {
      ghost var vs := Verdicts(p, child.items);
      ghost var start := child.cursor;
      if !(open && child.HasNext()) {
        return Ok(false);
      }
      while !found && open && child.HasNext()
        invariant Valid() && child == old(child) && open == old(open) && child.isOpen == old(child.isOpen)
        invariant start <= child.cursor <= |child.items|
        invariant !found ==> Scan(vs, start) == Scan(vs, child.cursor)
        invariant found ==>
          child.cursor > start && Scan(vs, start) == Hit(child.cursor - 1) && t == child.items[child.cursor - 1]
        decreases |child.items| - child.cursor
      {
        ghost var c := child.cursor;
        var pass := Pull();
        assert pass == vs[c];
        if pass.Fail? {
          return Fail(pass.error);
        }
        ScanStep(vs, c);
      }
      return Ok(found);
    }

    /** One step of that loop: pull the child's next tuple into `t` and test
        it; it becomes pending when it passes. */
    method Pull() returns (pass: Result<bool>)
      requires Valid() && !found && child.HasNext()
      modifies this, child
      ensures Valid() && child == old(child) && open == old(open) && child.isOpen == old(child.isOpen)
      ensures child.cursor == old(child.cursor) + 1 && t == child.items[old(child.cursor)]
      ensures pass == Predicates.Filter(p, t)
      ensures found <==> pass == Ok(true)
    {
      var next := child.Next();
      t := next.value;
      pass := Predicates.Filter(p, t);
      if pass == Ok(true) {
        found := true;
      }
    }

    /** `next`: the pending tuple, or the one `hasNext` finds, which stops
        being pending; NoSuchElementException when there is none. */
    method Next() returns (r: Result<Tuple>)
      requires Valid()
      modifies this, child
      ensures Valid() && child == old(child) && open == old(open) && child.isOpen == old(child.isOpen) && !found
      ensures r.Ok? ==> r.value.Valid() && Passes(p, r.value)
      ensures old(found) ==> r == Ok(old(t)) && child.cursor == old(child.cursor)
      ensures !old(found) && !(open && old(child.HasNext())) ==>
        r == Fail(NoSuchElement) && child.cursor == old(child.cursor)
      ensures !old(found) && open && old(child.HasNext()) ==>
        var s := Scan(old(Verdicts(p, child.items)), old(child.cursor));
        && (s.Hit? ==> r == Ok(child.items[s.k]) && child.cursor == s.k + 1)
        && (s.Exhausted? ==> r == Fail(NoSuchElement) && child.cursor == |child.items|)
        && (s.Error? ==> r == Fail(s.e) && child.cursor == s.k + 1)
    {
      var has := HasNext();
      if has.Fail? {
        return Fail(has.error);
      }
      if !has.value {
        return Fail(NoSuchElement);
      }
      found := false;
      return Ok(t);
    }

    /** `setChildren`: exactly one child, or DbException. */
    method SetChildren(children: seq<TupleStream>) returns (s: Status)
      requires Valid() && forall i :: 0 <= i < |children| ==> children[i].Valid()
      modifies this
      ensures Valid() && open == old(open) && found == old(found) && t == old(t)
      ensures |children| != 1 ==> s == Failed(DbError) && child == old(child)
      ensures |children| == 1 ==> s == Done && child == children[0]
    {
      if |children| != 1 {
        return Failed(DbError);
      }
      child := children[0];
      return Done;
    }
  }

  /** A run's result once `collected` has been handed out and `rest` is what
      the remaining calls produce. */
  function After(collected: seq<Tuple>, rest: Result<seq<Tuple>>): (r: Result<seq<Tuple>>)
    ensures rest.Fail? ==> r == rest
    ensures rest.Ok? ==> r.Ok? && |r.value| == |collected| + |rest.value|
    ensures rest.Ok? ==> r.value[..|collected|] == collected && r.value[|collected|..] == rest.value
  {
    if rest.Ok? then Ok(collected + rest.value) else rest
  }

  /** A consumer's loop over a filter with nothing pending: call `hasNext`,
      and `next` each time it says true, until it says false or throws. Over
      an open child the run collects `Outputs` of the child's verdicts from
      the child's cursor; over a closed one it collects nothing. */
  /** A scan that stops at a passing tuple hands that tuple out next, after
      what has been collected; one that reaches the end or throws ends the
      run there. */
  lemma AfterScan(ts: seq<Tuple>, vs: seq<Result<bool>>, c: nat, collected: seq<Tuple>)
    requires |vs| == |ts|
    ensures Scan(vs, c).Hit? ==> var k := Scan(vs, c).k;
      After(collected, Outputs(ts, vs, c)) == After(collected + [ts[k]], Outputs(ts, vs, k + 1))
    ensures Scan(vs, c).Exhausted? ==> After(collected, Outputs(ts, vs, c)) == Ok(collected)
    ensures Scan(vs, c).Error? ==> After(collected, Outputs(ts, vs, c)) == Fail(Scan(vs, c).e)
  {
    if Scan(vs, c).Hit? {
      var k := Scan(vs, c).k;
      var rest := Outputs(ts, vs, k + 1);
      if rest.Ok? {
        assert collected + ([ts[k]] + rest.value) == (collected + [ts[k]]) + rest.value;
      }
    } else if Scan(vs, c).Exhausted? {
      assert collected + [] == collected;
    }
  }

  /** A consumer's loop over a filter with nothing pending: call `hasNext`,
      and `next` each time it says true, until it says false or throws. Over
      an open child the run collects `Outputs` of the child's verdicts from
      the child's cursor; over a closed one it collects nothing. */
  method Drain(f: Filter) returns (r: Result<seq<Tuple>>)
    requires f.Valid() && f.open && !f.found
    modifies f, f.child
    ensures f.Valid() && f.child == old(f.child) && !f.found
    ensures old(f.child.isOpen) ==> r == old(Outputs(f.child.items, Verdicts(f.p, f.child.items), f.child.cursor))
    ensures !old(f.child.isOpen) ==> r == Ok([])
  {
    ghost var ts := f.child.items;
    ghost var vs := Verdicts(f.p, ts);
    ghost var goal := Outputs(ts, vs, f.child.cursor);
    var collected: seq<Tuple> := [];
    while true
      invariant f.Valid() && f.child == old(f.child) && f.open && !f.found
      invariant f.child.isOpen == old(f.child.isOpen) && f.child.items == ts
      invariant f.child.isOpen ==> goal == After(collected, Outputs(ts, vs, f.child.cursor))
      invariant !f.child.isOpen ==> collected == []
      decreases |ts| - f.child.cursor
    {
      ghost var c := f.child.cursor;
      assert Verdicts(f.p, ts) == vs;
      AfterScan(ts, vs, c, collected);
      var more := f.HasNext();
      if more.Fail? {
        return Fail(more.error);
      }
      if !more.value {
        return Ok(collected);
      }
      var next := f.Next();
      collected := collected + [next.value];
    }
  }

  /** Opening a filter over a fresh child holding `items` and running it to
      the end collects `Outputs` of the items' verdicts from the start. */
  method OpenAndDrain(p: Predicate, td: TupleDesc, items: seq<Tuple>) returns (r: Result<seq<Tuple>>)
    requires AllValid(items)
    ensures r == Outputs(items, Verdicts(p, items), 0)
  {
    ghost var vs := Verdicts(p, items);
    var child := new TupleStream(td, items);
    var f := new Filter(p, child);
    f.Open();
    assert Verdicts(f.p, f.child.items) == vs;
    r := Drain(f);
    assert Verdicts(p, items) == vs;
  }

  /** Opening a filter over `items` and running it to the end hands out
      exactly the tuples that pass, in the child's order, or the first
      exception the predicate throws. */
  method FilterRun(p: Predicate, td: TupleDesc, items: seq<Tuple>) returns (r: Result<seq<Tuple>>)
    requires AllValid(items)
    ensures r.Ok? <==> forall i :: 0 <= i < |items| ==> Predicates.Filter(p, items[i]).Ok?
    ensures r.Ok? ==> r.value == Passing(items, Verdicts(p, items), 0)
  {
    r := OpenAndDrain(p, td, items);
    OutputsArePassing(items, Verdicts(p, items), 0);
  }

  /** Before `open`, a new filter has no next tuple. */
  method HasNextBeforeOpen(p: Predicate, child: TupleStream) returns (r: Result<bool>)
    requires child.Valid()
    modifies child
    ensures r == Ok(false)
  {
    var f := new Filter(p, child);
    r := f.HasNext();
  }

  /** With two passing tuples a, b: after `next` has handed out a and
      `hasNext` has made b pending, `rewind` as written leaves b pending, so
      the first tuple after the rewind is b, not a. */
  method RewindAsWrittenReplays(p: Predicate, a: Tuple, b: Tuple) returns (first: Result<Tuple>, afterRewind: Result<Tuple>)
    requires a.Valid() && b.Valid() && Passes(p, a) && Passes(p, b) && a != b
    ensures first == Ok(a)
    ensures afterRewind == Ok(b) && afterRewind != Ok(a)
  {
    var child := new TupleStream(a.td, [a, b]);
    var f := new Filter(p, child);
    f.Open();
    first := f.Next();
    var more := f.HasNext();
    f.RewindAsWritten();
    afterRewind := f.Next();
  }

  /** The same sequence of calls with the corrected `rewind` starts the output
      again from a. */
  method RewindRestarts(p: Predicate, a: Tuple, b: Tuple) returns (first: Result<Tuple>, afterRewind: Result<Tuple>)
    requires a.Valid() && b.Valid() && Passes(p, a) && Passes(p, b)
    ensures first == Ok(a) && afterRewind == Ok(a)
  {
    var child := new TupleStream(a.td, [a, b]);
    var f := new Filter(p, child);
    f.Open();
    first := f.Next();
    var more := f.HasNext();
    f.Rewind();
    afterRewind := f.Next();
  }
}
