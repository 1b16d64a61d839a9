/** `SlottedPage`: a fixed number of slots, each empty or holding one tuple of
    the page's schema. The number of slots is a parameter here: the page would
    take it from the formatter's capacity computation. */
module SlottedPages {
  import opened Common
  import opened PageIds
  import opened RecordIds
  import opened TupleDescs
  import opened Tuples

  /** A Java array has fewer than 2^31 elements, so a slot number fits an `int`. */
  const MAX_SLOTS: int := 0x8000_0000

  /** The number of empty slots. */
  function CountEmpty(s: seq<Tuple?>): (n: nat)
    ensures n <= |s|
  {
    if s == [] then 0 else (if s[0] == null then 1 else 0) + CountEmpty(s[1..])
  }

  /** Storing `x` in slot `i` changes the empty count only by what slot `i`
      held and now holds. */
  lemma {:induction false} CountEmptyUpdate(s: seq<Tuple?>, i: nat, x: Tuple?)
    requires i < |s|
    ensures CountEmpty(s[i := x]) == CountEmpty(s) - (if s[i] == null then 1 else 0) + (if x == null then 1 else 0)
  {
    if i == 0 {
      assert s[i := x][1..] == s[1..];
    } else {
      CountEmptyUpdate(s[1..], i - 1, x);
      assert s[i := x][1..] == s[1..][i - 1 := x];
    }
  }

  /** The lowest empty slot at or after `from`, if any. */
  function FirstEmptyFrom(s: seq<Tuple?>, from: nat): (r: Option<nat>)
    requires from <= |s|
    ensures r.Some? ==> from <= r.value < |s| && s[r.value] == null
    ensures r.Some? ==> forall j :: from <= j < r.value ==> s[j] != null
    ensures r.None? ==> forall j :: from <= j < |s| ==> s[j] != null
    decreases |s| - from
  {
    if from == |s| then None
    else if s[from] == null then Some(from)
    else FirstEmptyFrom(s, from + 1)
  }

  /** A page has an empty slot at or after `from` exactly when the slots from
      there on are not all used. */
  lemma {:induction false} FirstEmptyIffCount(s: seq<Tuple?>, from: nat)
    requires from <= |s|
    ensures FirstEmptyFrom(s, from).None? <==> CountEmpty(s[from..]) == 0
    decreases |s| - from
  {
    if from < |s| {
      FirstEmptyIffCount(s, from + 1);
      assert s[from..][1..] == s[from + 1..];
    }
  }

  /** The occupied slot numbers at or after `from`, in ascending order: what the
      page iterator still has to yield. */
  function UsedFrom(s: seq<Tuple?>, from: nat): (r: seq<nat>)
    requires from <= |s|
    ensures forall k :: 0 <= k < |r| ==> from <= r[k] < |s| && s[r[k]] != null
    decreases |s| - from
  {
    if from == |s| then []
    else if s[from] != null then [from] + UsedFrom(s, from + 1)
    else UsedFrom(s, from + 1)
  }

  /** What remains to be yielded is every occupied slot from `from` on, each
      once, in strictly ascending order. */
  lemma {:induction false} UsedFromExact(s: seq<Tuple?>, from: nat)
    requires from <= |s|
    ensures var r := UsedFrom(s, from);
      && (forall k, l :: 0 <= k < l < |r| ==> r[k] < r[l])
      && (forall i :: from <= i < |s| && s[i] != null ==> i in r)
    decreases |s| - from
  {
    if from < |s| {
      UsedFromExact(s, from + 1);
    }
  }

  /** The iterator yields one tuple per occupied slot: as many as the slots
      that are not empty. */
  lemma {:induction false} UsedFromCount(s: seq<Tuple?>, from: nat)
    requires from <= |s|
    ensures |UsedFrom(s, from)| == |s| - from - CountEmpty(s[from..])
    decreases |s| - from
  {
    if from < |s| {
      UsedFromCount(s, from + 1);
      assert s[from..][1..] == s[from + 1..];
    }
  }

  class SlottedPage {
    const pid: SimplePageId
    const td: TupleDesc
    const pageSize: int
    const slots: array<Tuple?>

    /** Slot numbers fit an `int`, and every stored tuple has the page's schema. */
    ghost predicate Valid()
      reads slots
    {
      && slots.Length < MAX_SLOTS
      && forall i :: 0 <= i < slots.Length && slots[i] != null ==> TupleDescEquals(slots[i].td, td)
    }

    /** `SlottedPage(pid, td, pageSize)`: `numSlots` slots, all empty. */
    constructor (pid: SimplePageId, td: TupleDesc, pageSize: int, numSlots: nat)
      requires numSlots < MAX_SLOTS
      ensures this.pid == pid && this.td == td && this.pageSize == pageSize
      ensures fresh(slots) && slots.Length == numSlots
      ensures forall i :: 0 <= i < numSlots ==> slots[i] == null
      ensures Valid()
    {
      this.pid := pid;
      this.td := td;
      this.pageSize := pageSize;
      this.slots := new Tuple?[numSlots](_ => null);
    }

    /** `isSlotUsed`: whether the slot holds a tuple; the array's
        IndexOutOfBounds for a slot number outside the page. */
    method IsSlotUsed(slotno: int) returns (r: Result<bool>)
      ensures r.Ok? <==> 0 <= slotno < slots.Length
      ensures r.Ok? ==> (r.value <==> slots[slotno] != null)
      ensures r.Fail? ==> r.error == IndexOutOfBounds
    {
      if slotno < 0 || slotno >= slots.Length {
        return Fail(IndexOutOfBounds);
      }
      return Ok(slots[slotno] != null);
    }

    /** `isSlotEmpty`: whether the slot holds no tuple, the negation of
        `isSlotUsed` on every slot. */
    method IsSlotEmpty(slotno: int) returns (r: Result<bool>)
      ensures r.Ok? <==> 0 <= slotno < slots.Length
      ensures r.Ok? ==> (r.value <==> slots[slotno] == null)
      ensures r.Fail? ==> r.error == IndexOutOfBounds
    {
      if slotno < 0 || slotno >= slots.Length {
        return Fail(IndexOutOfBounds);
      }
      return Ok(slots[slotno] == null);
    }

    /** `getNumEmptySlots`: the number of empty slots, at most the number of slots. */
    method GetNumEmptySlots() returns (count: nat)
      ensures count == CountEmpty(slots[..]) && count <= slots.Length
    {
      count := 0;
      var i := 0;
      while i < slots.Length
        invariant 0 <= i <= slots.Length
        invariant count + CountEmpty(slots[i..]) == CountEmpty(slots[..])
      {
        assert slots[i..][1..] == slots[i + 1..];
        if slots[i] == null {
          count := count + 1;
        }
        i := i + 1;
      }
      assert slots[..] == slots[0..];
    }

    /** `getTuple`: the tuple in the slot; PageException for an empty slot, the
        array's IndexOutOfBounds outside the page. */
    method GetTuple(slotno: int) returns (r: Result<Tuple>)
      ensures 0 <= slotno < slots.Length && slots[slotno] != null ==> r == Ok(slots[slotno])
      ensures 0 <= slotno < slots.Length && slots[slotno] == null ==> r == Fail(PageError)
      ensures !(0 <= slotno < slots.Length) ==> r == Fail(IndexOutOfBounds)
    {
      if slotno < 0 || slotno >= slots.Length {
        return Fail(IndexOutOfBounds);
      }
      var t := slots[slotno];
      if t == null {
        return Fail(PageError);
      }
      return Ok(t);
    }

    /** `insertTuple(slotno, t)`: PageException when the slot is used (checked
        first) or the schemas differ; otherwise the slot holds `t`, `t`'s
        RecordId names this page and slot, and no other slot changes. */
    method InsertTupleAt(slotno: int, t: Tuple) returns (s: Status)
      requires Valid()
      modifies slots, t
      ensures Valid()
      ensures !(0 <= slotno < slots.Length) ==> s == Failed(IndexOutOfBounds)
      ensures 0 <= slotno < slots.Length && old(slots[slotno]) != null ==> s == Failed(PageError)
      ensures 0 <= slotno < slots.Length && old(slots[slotno]) == null && !TupleDescEquals(t.td, td) ==> s == Failed(PageError)
      ensures s.Failed? ==> slots[..] == old(slots[..]) && t.rid == old(t.rid)
      ensures s.Done? ==> 0 <= slotno < slots.Length && old(slots[slotno]) == null
      ensures s.Done? ==> slots[..] == old(slots[..])[slotno := t]
      ensures s.Done? ==> t.rid == Some(RecordId(pid, slotno as Int32))
      ensures s.Done? ==> CountEmpty(slots[..]) == CountEmpty(old(slots[..])) - 1
    {
      if slotno < 0 || slotno >= slots.Length {
        return Failed(IndexOutOfBounds);
      }
      if slots[slotno] != null {
        return Failed(PageError);
      }
      if !TupleDescEquals(t.td, td) {
        return Failed(PageError);
      }
      CountEmptyUpdate(slots[..], slotno, t);
      slots[slotno] := t;
      t.rid := Some(RecordId(pid, slotno as Int32));
      return Done;
    }

    /** `insertTuple(t)`: PageException when the schemas differ (checked first)
        or no slot is empty; otherwise the lowest-numbered empty slot holds `t`,
        `t`'s RecordId names it, and one slot fewer is empty. */
    method InsertTuple(t: Tuple) returns (s: Status)
      requires Valid()
      modifies slots, t
      ensures Valid()
      ensures !TupleDescEquals(t.td, td) ==> s == Failed(PageError)
      ensures CountEmpty(old(slots[..])) == 0 ==> s == Failed(PageError)
      ensures s.Failed? ==> slots[..] == old(slots[..]) && t.rid == old(t.rid)
      ensures s.Done? <==> TupleDescEquals(t.td, td) && FirstEmptyFrom(old(slots[..]), 0).Some?
      ensures s.Done? ==>
        var k := FirstEmptyFrom(old(slots[..]), 0).value;
        && slots[..] == old(slots[..])[k := t]
        && t.rid == Some(RecordId(pid, k as Int32))
      ensures s.Done? ==> CountEmpty(slots[..]) == CountEmpty(old(slots[..])) - 1
    {
      FirstEmptyIffCount(slots[..], 0);
      assert slots[..][0..] == slots[..];
      if !TupleDescEquals(t.td, td) {
        return Failed(PageError);
      }
      var i := 0;
      while i < slots.Length
        invariant 0 <= i <= slots.Length
        invariant FirstEmptyFrom(slots[..], i) == FirstEmptyFrom(slots[..], 0)
      {
        if slots[i] == null {
          CountEmptyUpdate(slots[..], i, t);
          slots[i] := t;
          t.rid := Some(RecordId(pid, i as Int32));
          return Done;
        }
        i := i + 1;
      }
      return Failed(PageError);
    }

    /** `deleteTuple(t)`: PageException when `t` has no RecordId, its RecordId
        names another page, or names an empty slot (the array's
        IndexOutOfBounds for a slot number outside the page); otherwise that
        slot is emptied, whatever tuple it held, and `t` loses its RecordId. */
    method DeleteTuple(t: Tuple) returns (s: Status)
      requires Valid()
      modifies slots, t
      ensures Valid()
      ensures old(t.rid).None? ==> s == Failed(PageError)
      ensures old(t.rid).Some? && old(t.rid).value.pid != pid ==> s == Failed(PageError)
      ensures old(t.rid).Some? && old(t.rid).value.pid == pid && !(0 <= old(t.rid).value.tupleno as int < slots.Length) ==>
        s == Failed(IndexOutOfBounds)
      ensures s.Failed? ==> slots[..] == old(slots[..]) && t.rid == old(t.rid)
      ensures s.Done? <==>
        && old(t.rid).Some? && old(t.rid).value.pid == pid
        && 0 <= old(t.rid).value.tupleno as int < slots.Length
        && old(slots[t.rid.value.tupleno as int]) != null
      ensures s.Done? ==>
        var k := old(t.rid).value.tupleno as int;
        && slots[..] == old(slots[..])[k := null]
        && t.rid == None
        && CountEmpty(slots[..]) == CountEmpty(old(slots[..])) + 1
    {
      if t.rid.None? {
        return Failed(PageError);
      }
      var slotNum := t.rid.value.tupleno as int;
      if !PageIdEquals(t.rid.value.pid, pid) {
        return Failed(PageError);
      }
      if slotNum < 0 || slotNum >= slots.Length {
        return Failed(IndexOutOfBounds);
      }
      if slots[slotNum] == null {
        return Failed(PageError);
      }
      CountEmptyUpdate(slots[..], slotNum, null);
      t.rid := None;
      slots[slotNum] := null;
      return Done;
    }

    /** `iterator()`: a fresh iterator positioned at the first slot. */
    method Iterator() returns (it: SlotIterator)
      ensures fresh(it) && it.page == this && it.Valid()
      ensures it.Remaining() == UsedFrom(slots[..], 0)
    {
      it := new SlotIterator(this);
    }
  }

  /** `SlottedPage.MyIterator`: a cursor over the slots that yields the tuple of
      each occupied slot, in ascending slot order. */
  class SlotIterator {
    const page: SlottedPage
    var currIdx: int

    ghost predicate Valid()
      reads this
    {
      0 <= currIdx <= page.slots.Length
    }

    /** The slot numbers still to be yielded. */
    ghost function Remaining(): seq<nat>
      requires Valid()
      reads this, page.slots
    {
      UsedFrom(page.slots[..], currIdx)
    }

    constructor (page: SlottedPage)
      ensures this.page == page && currIdx == 0 && Valid()
    {
      this.page := page;
      currIdx := 0;
    }

    /** `hasNext`: skips empty slots and reports whether an occupied one is
        left; what remains to be yielded does not change. */
    method HasNext() returns (b: bool)
      requires Valid()
      modifies this
      ensures Valid()
      ensures Remaining() == old(Remaining())
      ensures b <==> Remaining() != []
      ensures b ==> currIdx == Remaining()[0]
    {
      while currIdx < page.slots.Length && page.slots[currIdx] == null
        invariant Valid()
        invariant Remaining() == old(Remaining())
        decreases page.slots.Length - currIdx
      {
        currIdx := currIdx + 1;
      }
      return currIdx < page.slots.Length;
    }

    /** `next`: the tuple of the next occupied slot, after which that slot is no
        longer remaining; NoSuchElementException when none is left. */
    method Next() returns (r: Result<Tuple>)
      requires Valid()
      modifies this
      ensures Valid()
      ensures old(Remaining()) == [] ==> r == Fail(NoSuchElement) && Remaining() == []
      ensures old(Remaining()) != [] ==>
        && r == Ok(page.slots[old(Remaining())[0]])
        && Remaining() == old(Remaining())[1..]
    {
      var more := HasNext();
      if !more {
        return Fail(NoSuchElement);
      }
      var t: Tuple := page.slots[currIdx];
      currIdx := currIdx + 1;
      return Ok(t);
    }

    /** `remove`: UnsupportedOperationException, always. */
    method Remove() returns (s: Status)
      ensures s == Failed(Unsupported)
    {
      return Failed(Unsupported);
    }
  }

  lemma PrefixSnoc(a: seq<Tuple>, i: nat)
    requires i < |a|
    ensures a[..i + 1] == a[..i] + [a[i]]
  {
  }

  /** Draining a fresh iterator yields the tuple of every occupied slot, once
      each, in ascending slot order: as many tuples as the page holds. */
  method IterateAll(page: SlottedPage) returns (ts: seq<Tuple>)
    ensures |ts| == page.slots.Length - CountEmpty(page.slots[..])
    ensures |ts| == |UsedFrom(page.slots[..], 0)|
    ensures forall k :: 0 <= k < |ts| ==> ts[k] == page.slots[UsedFrom(page.slots[..], 0)[k]]
  {
    ghost var slots := page.slots[..];
    var it := page.Iterator();
    ghost var all := it.Remaining();
    ghost var expected: seq<Tuple> := seq(|all|, k requires 0 <= k < |all| => slots[all[k]]);
    ts := [];
    var more := it.HasNext();
    while more
      invariant it.Valid() && it.page == page && page.slots[..] == slots
      invariant |ts| <= |all| && it.Remaining() == all[|ts|..]
      invariant ts == expected[..|ts|]
      invariant more <==> it.Remaining() != []
      decreases |it.Remaining()|
    {
      var r := it.Next();
      assert r.value == expected[|ts|];
      PrefixSnoc(expected, |ts|);
      ts := ts + [r.value];
      more := it.HasNext();
    }
    UsedFromCount(slots, 0);
    assert slots[0..] == slots;
  }

  /** Inserting a tuple into a page and deleting it again leaves the same slots
      and the same number of empty slots. */
  method InsertThenDelete(page: SlottedPage, t: Tuple) returns (before: nat, after: nat)
    requires page.Valid()
    modifies page.slots, t
    ensures before == after
    ensures TupleDescEquals(t.td, page.td) && CountEmpty(old(page.slots[..])) > 0 ==> page.slots[..] == old(page.slots[..])
  {
    before := page.GetNumEmptySlots();
    var s := page.InsertTuple(t);
    if s.Done? {
      var d := page.DeleteTuple(t);
    }
    after := page.GetNumEmptySlots();
  }
}
