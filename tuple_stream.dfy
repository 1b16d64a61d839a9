/** The child of an operator, seen through the `DbIterator` contract: a fixed
    sequence of tuples read front to back by a cursor. It stands in for
    whatever operator feeds a `Filter` or a `Project`. */
module TupleStreams {
  import opened Common
  import opened TupleDescs
  import opened Tuples

  class TupleStream {
    const td: TupleDesc
    const items: seq<Tuple>
    var cursor: nat
    var isOpen: bool

    /** The cursor never passes the end, and every tuple has its schema's width. */
    ghost predicate Valid()
      reads this
    {
      cursor <= |items| && forall i :: 0 <= i < |items| ==> items[i].Valid()
    }

    /** A closed stream over `items`. */
    constructor (td: TupleDesc, items: seq<Tuple>)
      requires forall i :: 0 <= i < |items| ==> items[i].Valid()
      ensures this.td == td && this.items == items
      ensures cursor == 0 && !isOpen && Valid()
    {
      this.td := td;
      this.items := items;
      cursor := 0;
      isOpen := false;
    }

    /** `open`: start reading from the first tuple. */
    method Open()
      modifies this
      ensures isOpen && cursor == 0
    {
      isOpen := true;
      cursor := 0;
    }

    /** `close`. */
    method Close()
      modifies this
      ensures !isOpen && cursor == old(cursor)
    {
      isOpen := false;
    }

    /** `rewind`: back to the first tuple. */
    method Rewind()
      modifies this
      ensures cursor == 0 && isOpen == old(isOpen)
    {
      cursor := 0;
    }

    /** `hasNext`: false once exhausted or while closed. */
    function HasNext(): (b: bool)
      reads this
      ensures b <==> isOpen && cursor < |items|
    {
      isOpen && cursor < |items|
    }

    /** `next`: the tuple under the cursor, which moves one step;
        NoSuchElementException when exhausted or closed. */
    method Next() returns (r: Result<Tuple>)
      requires Valid()
      modifies this
      ensures Valid() && isOpen == old(isOpen)
      ensures r.Ok? <==> old(HasNext())
      ensures r.Ok? ==> r.value == items[old(cursor)] && cursor == old(cursor) + 1
      ensures r.Fail? ==> r.error == NoSuchElement && cursor == old(cursor)
    {
      if !HasNext() {
        return Fail(NoSuchElement);
      }
      r := Ok(items[cursor]);
      cursor := cursor + 1;
    }
  }
}
