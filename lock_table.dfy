/** `LockTableEntry`: the lock state of one page — the granted mode, the
    transactions holding it, and the queue of outstanding requests. */
module LockTable {
  import opened Common

  /** `Permissions.READ_ONLY` and `Permissions.READ_WRITE`. */
  datatype Permissions = ReadOnly | ReadWrite

  /** A transaction is known by its id; equality is equality of ids. */
  datatype TransactionId = TransactionId(id: int)

  /** `LockTableEntry.LockRequest`. */
  datatype LockRequest = LockRequest(tid: TransactionId, perm: Permissions)

  /** `LockRequest.equals`: same transaction and same permission. */
  predicate RequestEquals(a: LockRequest, b: LockRequest)
  {
    a.tid == b.tid && a.perm == b.perm
  }

  /** Request equality is value equality, so `List.contains` and
      `List.remove(Object)` on the queue compare requests as values. */
  lemma RequestEqualsIsValueEquality(a: LockRequest, b: LockRequest)
    ensures RequestEquals(a, b) <==> a == b
  {
  }

  /** `List.remove(Object)`: drop the first request equal to `x`, if any. */
  function RemoveFirst(q: seq<LockRequest>, x: LockRequest): (r: seq<LockRequest>)
    ensures |r| <= |q|
  {
    if q == [] then []
    else if q[0] == x then q[1..]
    else [q[0]] + RemoveFirst(q[1..], x)
  }

  /** RemoveFirst takes away one copy of `x` when there is one, and nothing else. */
  lemma {:induction false} RemoveFirstMultiset(q: seq<LockRequest>, x: LockRequest)
    ensures |RemoveFirst(q, x)| == if x in q then |q| - 1 else |q|
    ensures multiset(RemoveFirst(q, x)) == multiset(q) - multiset{x}
  {
    if q != [] {
      assert q == [q[0]] + q[1..];
      if q[0] != x {
        RemoveFirstMultiset(q[1..], x);
      }
    }
  }

  /** Index of the first request equal to `x`. */
  function FirstIndex(q: seq<LockRequest>, x: LockRequest): (k: nat)
    requires x in q
    ensures k < |q| && q[k] == x
    ensures forall j :: 0 <= j < k ==> q[j] != x
  {
    if q[0] == x then 0 else 1 + FirstIndex(q[1..], x)
  }

  /** Without an equal request queued, RemoveFirst changes nothing. */
  lemma {:induction false} RemoveFirstAbsent(q: seq<LockRequest>, x: LockRequest)
    requires x !in q
    ensures RemoveFirst(q, x) == q
  {
    if q != [] {
      assert x !in q[1..] by {
        forall i | 0 <= i < |q| - 1 ensures q[1..][i] != x {
          assert q[1..][i] == q[i + 1];
        }
      }
      RemoveFirstAbsent(q[1..], x);
      assert q == [q[0]] + q[1..];
    }
  }

  /** Cutting index k + 1 out of q is keeping q's head and cutting index k
      out of its tail. */
  lemma CutOfTail(q: seq<LockRequest>, k: nat)
    requires k + 1 < |q|
    ensures q[..k + 1] + q[k + 2..] == [q[0]] + (q[1..][..k] + q[1..][k + 1..])
  {
    assert q[..k + 1] == [q[0]] + q[1..][..k];
    assert q[k + 2..] == q[1..][k + 1..];
  }

  /** RemoveFirst cuts out exactly the first occurrence and keeps every other
      request, in order. */
  lemma {:induction false} RemoveFirstCutsFirstOccurrence(q: seq<LockRequest>, x: LockRequest)
    requires x in q
    ensures var k := FirstIndex(q, x); RemoveFirst(q, x) == q[..k] + q[k + 1..]
  {
    if q[0] == x {
      assert q[..0] + q[1..] == q[1..];
    } else {
      var t := q[1..];
      assert x in t by {
        var i :| 0 <= i < |q| && q[i] == x;
        assert t[i - 1] == x;
      }
      RemoveFirstCutsFirstOccurrence(t, x);
      var k := FirstIndex(t, x);
      CutOfTail(q, k);
      assert FirstIndex(q, x) == k + 1;
      assert RemoveFirst(q, x) == [q[0]] + RemoveFirst(t, x);
    }
  }

  /** The queue after `addRequest`: an upgrade goes to the front (and the
      following contains-check then finds it, so it is not also appended); any
      other request is appended unless an equal one is already queued. */
  function Enqueue(q: seq<LockRequest>, req: LockRequest, upgrade: bool): (r: seq<LockRequest>)
    ensures req in r
    ensures upgrade ==> r[0] == req && |r| == |q| + 1
    ensures !upgrade && req in q ==> r == q
    ensures !upgrade && req !in q ==> r[|r| - 1] == req && r[..|r| - 1] == q
  {
    var q1 := if upgrade then [req] + q else q;
    if req !in q1 then q1 + [req] else q1
  }

  /** No request queued twice. */
  predicate NoDuplicates(q: seq<LockRequest>)
  {
    forall i, j :: 0 <= i < j < |q| ==> q[i] != q[j]
  }

  /** A plain request never duplicates one already queued. */
  lemma EnqueueKeepsNoDuplicates(q: seq<LockRequest>, req: LockRequest)
    requires NoDuplicates(q)
    ensures NoDuplicates(Enqueue(q, req, false))
    ensures multiset(Enqueue(q, req, false))[req] == 1
  {
    var r := Enqueue(q, req, false);
    if req !in q {
      assert r == q + [req];
      assert multiset(q)[req] == 0;
    } else {
      var k :| 0 <= k < |q| && q[k] == req;
      assert q == q[..k] + [req] + q[k + 1..];
      assert req !in q[..k] && req !in q[k + 1..];
      assert multiset(q) == multiset(q[..k]) + multiset{req} + multiset(q[k + 1..]);
    }
  }

  /** Cutting one element out of a queue without duplicates leaves a queue
      without duplicates in which that element no longer occurs. */
  lemma CutKeepsNoDuplicates(q: seq<LockRequest>, k: nat)
    requires NoDuplicates(q) && k < |q|
    ensures NoDuplicates(q[..k] + q[k + 1..])
    ensures q[k] !in q[..k] + q[k + 1..]
  {
    var r := q[..k] + q[k + 1..];
    assert forall i :: 0 <= i < |r| ==> r[i] == q[if i < k then i else i + 1];
  }

  /** Removing a request from a queue without duplicates leaves none of it behind. */
  lemma RemoveFirstFromNoDuplicates(q: seq<LockRequest>, x: LockRequest)
    requires NoDuplicates(q)
    ensures x !in RemoveFirst(q, x)
    ensures NoDuplicates(RemoveFirst(q, x))
  {
    if x in q {
      RemoveFirstCutsFirstOccurrence(q, x);
      CutKeepsNoDuplicates(q, FirstIndex(q, x));
    } else {
      RemoveFirstAbsent(q, x);
    }
  }

  class LockTableEntry {
    var lockType: Option<Permissions>
    var lockHolders: set<TransactionId>
    var requests: seq<LockRequest>

    /** Nobody holds the lock exactly when no mode is granted. */
    ghost predicate Valid()
      reads this
    {
      lockHolders == {} <==> lockType.None?
    }

    /** `LockTableEntry()`: no mode, no holders, no requests. */
    constructor ()
      ensures Valid()
      ensures lockType == None && lockHolders == {} && requests == []
    {
      lockType := None;
      lockHolders := {};
      requests := [];
    }

    /** `getNextTransaction`: the transaction at the head of the queue; the
        list's IndexOutOfBoundsException on an empty queue. */
    method GetNextTransaction() returns (r: Result<TransactionId>)
      ensures r.Ok? <==> |requests| > 0
      ensures r.Ok? ==> r.value == requests[0].tid
      ensures r.Fail? ==> r.error == IndexOutOfBounds
    {
      if |requests| == 0 {
        return Fail(IndexOutOfBounds);
      }
      var request := requests[0];
      return Ok(request.tid);
    }

    /** `releaseLock`: `tid` stops holding the lock, and the mode is cleared
        exactly when no holder is left. */
    method ReleaseLock(tid: TransactionId)
      requires Valid()
      modifies this
      ensures Valid()
      ensures lockHolders == old(lockHolders) - {tid}
      ensures lockHolders == {} ==> lockType == None
      ensures lockHolders != {} ==> lockType == old(lockType)
      ensures requests == old(requests)
    {
      lockHolders := lockHolders - {tid};
      if |lockHolders| == 0 {
        lockType := None;
      }
    }

    /** `setLock`: `tid` joins the holders, the mode becomes `perm`, and the
        first queued request equal to (tid, perm) leaves the queue. */
    method SetLock(tid: TransactionId, perm: Permissions)
      requires Valid()
      modifies this
      ensures Valid()
      ensures lockHolders == old(lockHolders) + {tid}
      ensures lockType == Some(perm)
      ensures requests == RemoveFirst(old(requests), LockRequest(tid, perm))
    {
      if tid in lockHolders {
        lockHolders := lockHolders - {tid};
      }
      var request := LockRequest(tid, perm);
      lockHolders := lockHolders + {tid};
      lockType := Some(perm);
      requests := RemoveFirst(requests, request);
    }

    /** `addRequest`: queue (tid, perm), at the front for an upgrade. */
    method AddRequest(tid: TransactionId, perm: Permissions, upgrade: bool)
      modifies this
      ensures requests == Enqueue(old(requests), LockRequest(tid, perm), upgrade)
      ensures lockHolders == old(lockHolders) && lockType == old(lockType)
    {
      var request := LockRequest(tid, perm);
      if upgrade {
        requests := [request] + requests;
      }
      if request !in requests {
        requests := requests + [request];
      }
    }

    /** `releaseRequest`: the first request equal to (tid, perm) leaves the queue. */
    method ReleaseRequest(tid: TransactionId, perm: Permissions)
      modifies this
      ensures requests == RemoveFirst(old(requests), LockRequest(tid, perm))
      ensures lockHolders == old(lockHolders) && lockType == old(lockType)
    {
      var request := LockRequest(tid, perm);
      requests := RemoveFirst(requests, request);
    }
  }
}
