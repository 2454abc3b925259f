/** The result-set iterator's hold on the driver cursor (`hasnext`, `close`
    and the iterator's `next` in both copies of `MongoDataSource`). The
    driver cursor is abstracted as the sequence of documents the query
    returns, a read position, and an optional point at which the driver's
    `hasNext` throws a `MongoException`. */
module ResultCursor {
  import opened Documents

  class Cursor {
    /** What the query returns, in cursor order. */
    var documents: seq<map<string, Value>>
    /** How many documents the driver has handed out. */
    var position: nat
    /** The driver's `hasNext` throws when asked at this position. */
    var failAt: Option<nat>
    var failMessage: string
    /** `mongoCursor != null`. */
    var open: bool
    /** How many times the driver cursor's `close` was called. */
    var closeCalls: nat

    predicate Valid()
      reads this
    {
      position <= |documents|
    }

    /** `getData` opens a cursor over the query's documents. */
    constructor (documents: seq<map<string, Value>>, failAt: Option<nat>, failMessage: string)
      ensures Valid() && open && position == 0 && closeCalls == 0
      ensures this.documents == documents && this.failAt == failAt && this.failMessage == failMessage
    {
      this.documents := documents;
      this.failAt := failAt;
      this.failMessage := failMessage;
      position := 0;
      open := true;
      closeCalls := 0;
    }

    /** The documents the cursor has still to hand out. */
    function Remaining(): seq<map<string, Value>>
      requires Valid()
      reads this
    {
      documents[position..]
    }

    /** Whether the driver's `hasNext` throws at the current position. */
    predicate FailsHere()
      reads this
    {
      failAt == Some(position)
    }

    /** The driver throws before the cursor is exhausted, counting from `from`. */
    predicate FailsFrom(from: nat)
      reads this
    {
      failAt.Some? && from <= failAt.value <= |documents|
    }

    /** `close`: close the driver cursor if there is one (an exception from
        it is only logged) and forget it. */
    method Close()
      requires Valid()
      modifies this
      ensures Valid() && !open
      ensures closeCalls == old(closeCalls) + (if old(open) then 1 else 0)
      ensures documents == old(documents) && position == old(position)
      ensures failAt == old(failAt) && failMessage == old(failMessage)
    {
      if open {
        closeCalls := closeCalls + 1;
      }
      open := false;
    }

    /** `hasnext`: false without a cursor; otherwise ask the driver, and
        close the cursor when it is exhausted or throws (the exception is
        then rethrown as SEVERE). */
    method HasNext() returns (r: Result<bool>)
      requires Valid()
      modifies this
      ensures Valid()
      ensures documents == old(documents) && position == old(position)
      ensures failAt == old(failAt) && failMessage == old(failMessage)
      ensures !old(open) ==> r == Ok(false) && !open && closeCalls == old(closeCalls)
      ensures old(open) && FailsHere() ==>
        r == Err(Severe(failMessage)) && !open && closeCalls == old(closeCalls) + 1
      ensures old(open) && !FailsHere() && Remaining() != [] ==>
        r == Ok(true) && open && closeCalls == old(closeCalls)
      ensures old(open) && !FailsHere() && Remaining() == [] ==>
        r == Ok(false) && !open && closeCalls == old(closeCalls) + 1
    {
      if !open {
        return Ok(false);
      }
      if FailsHere() {
        Close();
        return Err(Severe(failMessage));
      }
      if position < |documents| {
        return Ok(true);
      }
      Close();
      return Ok(false);
    }

    /** The iterator's `next` up to the row conversion: `hasNext` first,
        `NoSuchElementException` when it is false, and otherwise the driver
        hands out the next document. */
    method Next() returns (r: Result<map<string, Value>>)
      requires Valid()
      modifies this
      ensures Valid()
      ensures documents == old(documents) && failAt == old(failAt) && failMessage == old(failMessage)
      ensures r.Ok? <==> old(open) && !old(FailsHere()) && old(Remaining()) != []
      ensures r.Ok? ==>
        r.value == old(Remaining())[0] && Remaining() == old(Remaining())[1..] && open && closeCalls == old(closeCalls)
      ensures r.Err? ==> position == old(position) && !open
      ensures r.Err? && old(open) && old(FailsHere()) ==> r.error == Severe(failMessage)
      ensures r.Err? && !(old(open) && old(FailsHere())) ==> r.error == NoSuchElement
      ensures closeCalls == old(closeCalls) + (if r.Err? && old(open) then 1 else 0)
    {
      var more := HasNext();
      if more.Err? {
        return Err(more.error);
      }
      if !more.value {
        return Err(NoSuchElement);
      }
      r := Ok(documents[position]);
      position := position + 1;
    }
  }

  /** A consumer that keeps calling `hasNext` and `next` until the iterator
      is done: without a driver failure it receives exactly the documents
      the cursor had left, in order, and the cursor is closed once. */
  method Drain(cursor: Cursor) returns (r: Result<seq<map<string, Value>>>)
    requires cursor.Valid() && cursor.open
    modifies cursor
    ensures cursor.Valid() && !cursor.open && cursor.closeCalls == old(cursor.closeCalls) + 1
    ensures cursor.documents == old(cursor.documents) && cursor.failAt == old(cursor.failAt)
    ensures cursor.failMessage == old(cursor.failMessage)
    ensures r.Ok? ==> cursor.position == |cursor.documents|
    ensures !cursor.FailsFrom(old(cursor.position)) ==> r == Ok(old(cursor.Remaining()))
    ensures cursor.FailsFrom(old(cursor.position)) ==>
      r == Err(Severe(cursor.failMessage)) && cursor.position == cursor.failAt.value
  {
    var rows: seq<map<string, Value>> := [];
    ghost var start := cursor.position;
    var more := cursor.HasNext();
    while more == Ok(true)
      invariant cursor.Valid() && start <= cursor.position
      invariant cursor.documents == old(cursor.documents) && cursor.failAt == old(cursor.failAt)
      invariant cursor.failMessage == old(cursor.failMessage)
      invariant rows == cursor.documents[start..cursor.position]
      invariant cursor.failAt.Some? && start <= cursor.failAt.value ==> cursor.position <= cursor.failAt.value
      invariant more.Ok? && more.value ==>
        cursor.open && cursor.closeCalls == old(cursor.closeCalls) && cursor.position < |cursor.documents| && !cursor.FailsHere()
      invariant more.Ok? && !more.value ==>
        !cursor.open && cursor.closeCalls == old(cursor.closeCalls) + 1 && cursor.position == |cursor.documents| && !cursor.FailsHere()
      invariant more.Err? ==>
        !cursor.open && cursor.closeCalls == old(cursor.closeCalls) + 1 && cursor.FailsHere() && more.error == Severe(cursor.failMessage)
      decreases |cursor.documents| - cursor.position, if more == Ok(true) then 1 else 0
    {
      var document := cursor.Next();
      assert cursor.documents[start..cursor.position]
        == cursor.documents[start..cursor.position - 1] + [document.value];
      rows := rows + [document.value];
      more := cursor.HasNext();
    }
    if more.Err? {
      return Err(more.error);
    }
    assert cursor.position == |cursor.documents|;
    assert cursor.documents[start..cursor.position] == old(cursor.Remaining());
    return Ok(rows);
  }
}
