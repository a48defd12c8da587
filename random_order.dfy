/**
 * random-order.py: shuffle the applications in place, then let each one, in
 * the new order, take the first of its requested slots that no application
 * before it has taken.
 */
module RandomOrder {
  import opened Wrappers
  import opened Applications

  /** The first request of `req` that is not among the `claimed` slots, if any. */
  function FirstFree<T(==)>(req: seq<T>, claimed: seq<T>): (r: Option<T>)
    ensures r.Some? ==> r.value in req && r.value !in claimed
    ensures r.None? <==> forall s :: s in req ==> s in claimed
  {
    if req == [] then None
    else if req[0] !in claimed then Some(req[0])
    else FirstFree(req[1..], claimed)
  }

  /** Every request before the one chosen was already claimed. */
  lemma {:induction false} FirstFreeIsFirst<T>(req: seq<T>, claimed: seq<T>)
    requires FirstFree(req, claimed).Some?
    ensures exists k :: 0 <= k < |req| && req[k] == FirstFree(req, claimed).value &&
                        forall p :: 0 <= p < k ==> req[p] in claimed
  {
    if req[0] in claimed {
      FirstFreeIsFirst(req[1..], claimed);
      var k :| 0 <= k < |req[1..]| && req[1..][k] == FirstFree(req[1..], claimed).value &&
               forall p :: 0 <= p < k ==> req[1..][p] in claimed;
      assert req[k + 1] == req[1..][k];
      forall p | 0 <= p < k + 1 ensures req[p] in claimed {
        if p > 0 {
          assert req[p] == req[1..][p - 1];
        }
      }
    }
  }

  /**
   * The reservations the loop of random_order hands out to the applications
   * in (shuffled) order: application i takes the first of its requests not
   * held by applications 0 .. i-1.
   */
  function Allocation<T(==)>(reqs: seq<seq<T>>): (r: seq<Option<T>>)
    ensures |r| == |reqs|
  {
    if reqs == [] then []
    else
      var n := |reqs| - 1;
      var prev := Allocation(reqs[..n]);
      prev + [FirstFree(reqs[n], Held(prev))]
  }

  /** The allocation of a prefix of the applications is the prefix of the allocation. */
  lemma {:induction false} AllocationPrefix<T>(reqs: seq<seq<T>>, i: nat)
    requires i <= |reqs|
    ensures Allocation(reqs[..i]) == Allocation(reqs)[..i]
  {
    if i < |reqs| {
      var n := |reqs| - 1;
      assert reqs[..n][..i] == reqs[..i];
      AllocationPrefix(reqs[..n], i);
    } else {
      assert reqs[..i] == reqs;
    }
  }

  /** Application i gets the first of its requests not held by the applications before it. */
  lemma AllocationAt<T>(reqs: seq<seq<T>>, i: nat)
    requires i < |reqs|
    ensures Allocation(reqs)[i] == FirstFree(reqs[i], Held(Allocation(reqs)[..i]))
  {
    AllocationPrefix(reqs, i);
    AllocationPrefix(reqs, i + 1);
    assert reqs[..i + 1][..i] == reqs[..i];
    assert Allocation(reqs)[..i + 1][i] == Allocation(reqs)[i];
  }

  /** Every reservation is one of the application's own requests. */
  lemma AllocationFromRequests<T>(reqs: seq<seq<T>>)
    ensures ReservedFromRequests(reqs, Allocation(reqs))
  {
    forall i | 0 <= i < |reqs| && Allocation(reqs)[i].Some?
      ensures Allocation(reqs)[i].value in reqs[i]
    {
      AllocationAt(reqs, i);
    }
  }

  /** The held slots, the `reserved` list of the loop, never repeat. */
  lemma {:induction false} AllocationHeldDistinct<T>(reqs: seq<seq<T>>)
    ensures Distinct(Held(Allocation(reqs)))
  {
    if reqs != [] {
      var n := |reqs| - 1;
      var prev := Allocation(reqs[..n]);
      var x := FirstFree(reqs[n], Held(prev));
      AllocationHeldDistinct(reqs[..n]);
      HeldAppend(prev, x);
    }
  }

  /** No slot is held by two applications. */
  lemma AllocationNoSlotHeldTwice<T>(reqs: seq<seq<T>>)
    ensures NoSlotHeldTwice(Allocation(reqs))
  {
    AllocationHeldDistinct(reqs);
    HeldDistinct(Allocation(reqs));
  }

  /**
   * An application left without a slot found every one of its requests held
   * by an application processed before it.
   */
  lemma AllocationBlockedByEarlier<T>(reqs: seq<seq<T>>, i: nat, s: T)
    requires i < |reqs| && Allocation(reqs)[i].None? && s in reqs[i]
    ensures exists j :: 0 <= j < i && Allocation(reqs)[j] == Some(s)
  {
    var res := Allocation(reqs);
    AllocationAt(reqs, i);
    HeldMembers(res[..i], s);
    var j :| 0 <= j < i && res[..i][j] == Some(s);
    assert res[j] == Some(s);
  }

  lemma AllocationUnresolvedOnlyIfBlocked<T>(reqs: seq<seq<T>>)
    ensures UnresolvedOnlyIfBlocked(reqs, Allocation(reqs))
  {
    var res := Allocation(reqs);
    forall i, s | 0 <= i < |res| && res[i].None? && s in reqs[i]
      ensures HeldByOther(res, i, s)
    {
      AllocationBlockedByEarlier(reqs, i, s);
    }
  }

  /**
   * The slot an application gets is, in its own request order, the first one
   * not held by an application processed before it.
   */
  lemma AllocationTakesFirstFree<T>(reqs: seq<seq<T>>, i: nat)
    requires i < |reqs| && Allocation(reqs)[i].Some?
    ensures exists k :: 0 <= k < |reqs[i]| && reqs[i][k] == Allocation(reqs)[i].value &&
                        forall p :: 0 <= p < k ==> exists j :: 0 <= j < i && Allocation(reqs)[j] == Some(reqs[i][p])
  {
    var res := Allocation(reqs);
    AllocationAt(reqs, i);
    FirstFreeIsFirst(reqs[i], Held(res[..i]));
    var k :| 0 <= k < |reqs[i]| && reqs[i][k] == res[i].value &&
             forall p :: 0 <= p < k ==> reqs[i][p] in Held(res[..i]);
    forall p | 0 <= p < k ensures exists j :: 0 <= j < i && res[j] == Some(reqs[i][p]) {
      HeldMembers(res[..i], reqs[i][p]);
      var j :| 0 <= j < i && res[..i][j] == Some(reqs[i][p]);
      assert res[j] == Some(reqs[i][p]);
    }
  }

  /** The returned count is the number of applications minus the length of `reserved`. */
  lemma AllocationCount<T>(reqs: seq<seq<T>>)
    ensures NoneCount(Allocation(reqs)) == |reqs| - |Held(Allocation(reqs))|
  {
    HeldNoneCount(Allocation(reqs));
  }

  /**
   * `random.shuffle`: CPython's Fisher-Yates pass, the random index drawn
   * from 0 .. i being an arbitrary choice.
   */
  method Shuffle<X(==)>(a: array<X>)
    modifies a
    ensures Permutation(old(a[..]), a[..])
  {
    var i := a.Length - 1;
    while i > 0
      invariant i < a.Length
      invariant multiset(a[..]) == multiset(old(a[..]))
    {
      var j :| 0 <= j <= i;
      a[i], a[j] := a[j], a[i];
      i := i - 1;
    }
  }

  /** A fresh reservation replaces the previous one; no reservation keeps it. */
  function Merge<T>(granted: Option<T>, prior: Option<T>): (r: Option<T>)
    ensures granted.Some? ==> r == granted
    ensures granted.None? ==> r == prior
  {
    if granted.Some? then granted else prior
  }

  /**
   * The reservation loop of random_order over the shuffled list: application
   * k gets `Allocation(...)[k]`; one that gets nothing keeps what it had.
   */
  method ReserveInOrder<T(==)>(appls: seq<Application<T>>)
    requires Distinct(appls)
    modifies appls
    ensures forall k :: 0 <= k < |appls| ==>
              appls[k].reserved == Merge(Allocation(Requests(appls))[k], old(appls[k].reserved))
  {
    ghost var reqs := Requests(appls);
    ghost var alloc := Allocation(reqs);
    ghost var init := Reservations(appls);
    var reserved: seq<T> := [];
    for k := 0 to |appls|
      invariant reserved == Held(alloc[..k])
      invariant forall p :: 0 <= p < k ==> appls[p].reserved == Merge(alloc[p], init[p])
      invariant forall p :: k <= p < |appls| ==> appls[p].reserved == init[p]
    {
      var appl := appls[k];
      var req := appl.requestedSlots;
      AllocationAt(reqs, k);
      assert alloc[..k + 1] == alloc[..k] + [alloc[k]];
      HeldAppend(alloc[..k], alloc[k]);
      var j := 0;
      while j < |req|
        invariant 0 <= j <= |req|
        invariant FirstFree(req[j..], reserved) == alloc[k]
        invariant appl.reserved == init[k]
      {
        var slot := req[j];
        if slot !in reserved {
          reserved := reserved + [slot];
          appl.Reserve(Some(slot));
          break;
        }
        assert req[j..][1..] == req[j + 1..];
        j := j + 1;
      }
    }
  }

  /**
   * `random_order(slotspace, appls)`: the applications are shuffled in place,
   * then reserved in the new order, and the result is the number of
   * applications left with no reservation; on an empty list the share
   * `none_amount / len(appls)` divides by zero. The slot space is only printed.
   */
  method RandomOrder<T(==)>(slotspace: SlotSpace, appls: array<Application<T>>) returns (r: Result<nat>)
    requires Distinct(appls[..])
    modifies appls, appls[..]
    ensures Permutation(old(appls[..]), appls[..])
    ensures forall k :: 0 <= k < appls.Length ==>
              appls[k] in old(appls[..]) &&
              var a := appls[k];
              a.reserved == Merge(Allocation(Requests(appls[..]))[k], old(a.reserved))
    ensures old(AllUnreserved(appls[..])) ==> Reservations(appls[..]) == Allocation(Requests(appls[..]))
    ensures appls.Length == 0 <==> r.Err?
    ensures r.Err? ==> r.error == ZeroDivisionError
    ensures r.Ok? ==> r.value == NoneCount(Reservations(appls[..]))
  {
    Shuffle(appls);
    DistinctPermutation(old(appls[..]), appls[..]);
    forall k | 0 <= k < appls.Length ensures appls[k] in old(appls[..]) {
      assert appls[k] in multiset(appls[..]);
    }
    ReserveInOrder(appls[..]);
    var unresolved := CountUnreserved(appls[..]);
    if appls.Length == 0 {
      return Err(ZeroDivisionError);
    }
    return Ok(unresolved);
  }

  /** A slot held after the first n applications is a request of one of them. */
  lemma HeldFromEarlier<T>(reqs: seq<seq<T>>, n: nat, s: T)
    requires n <= |reqs|
    ensures s in Held(Allocation(reqs[..n])) ==>
            exists j, q :: 0 <= j < n && 0 <= q < |reqs[j]| && reqs[j][q] == s
  {
    var prev := Allocation(reqs[..n]);
    if s in Held(prev) {
      HeldMembers(prev, s);
      var j :| 0 <= j < |prev| && prev[j] == Some(s);
      AllocationFromRequests(reqs[..n]);
      assert reqs[..n][j] == reqs[j];
      var q :| 0 <= q < |reqs[j]| && reqs[j][q] == s;
    }
  }

  /**
   * With requests that never share a slot (every pull is its own `Slot`
   * object, and objects are compared by identity), every application gets
   * its first request: contention never arises.
   */
  lemma {:induction false} DistinctRequestsNeverContend<T>(reqs: seq<seq<T>>)
    requires PairwiseDistinct(reqs)
    ensures forall i :: 0 <= i < |reqs| && |reqs[i]| > 0 ==> Allocation(reqs)[i] == Some(reqs[i][0])
  {
    if reqs != [] {
      var n := |reqs| - 1;
      var prev := Allocation(reqs[..n]);
      assert PairwiseDistinct(reqs[..n]) by {
        assert forall i :: 0 <= i < n ==> reqs[..n][i] == reqs[i];
      }
      DistinctRequestsNeverContend(reqs[..n]);
      assert Allocation(reqs) == prev + [FirstFree(reqs[n], Held(prev))];
      if |reqs[n]| > 0 {
        HeldFromEarlier(reqs, n, reqs[n][0]);
      }
      forall i | 0 <= i < n && |reqs[i]| > 0 ensures Allocation(reqs)[i] == Some(reqs[i][0]) {
        assert reqs[..n][i] == reqs[i];
      }
    }
  }

  /**
   * As written: two applications asking for two different `Slot` objects of
   * the same value both get "their" slot, so one slot value is handed out twice.
   */
  lemma SameValueHeldTwice(a: Slot, b: Slot)
    requires a != b && a.value == b.value
    ensures Allocation([[a], [b]]) == [Some(a), Some(b)]
    ensures var res := Allocation([[a], [b]]); res[0].value.value == res[1].value.value
  {
    assert [[a], [b]][..1] == [[a]];
    assert [[a]][..0] == [];
  }

  /**
   * Corrected: read as slot values, the allocation never hands one value to
   * two applications.
   */
  lemma ValuesHeldOnce(reqs: seq<seq<Slot>>)
    ensures NoSlotHeldTwice(Allocation(SlotValues(reqs)))
    ensures ReservedFromRequests(SlotValues(reqs), Allocation(SlotValues(reqs)))
  {
    AllocationNoSlotHeldTwice(SlotValues(reqs));
    AllocationFromRequests(SlotValues(reqs));
  }

  /**
   * Value semantics: three applications asking for the same slot value 5;
   * the first in order gets it and the other two are left without one.
   */
  lemma ValueContention()
    ensures Allocation([[5], [5], [5]]) == [Some(5), None, None]
  {
    assert [[5], [5], [5]][..2] == [[5], [5]];
    assert [[5], [5]][..1] == [[5]];
    assert [[5]][..0] == [];
  }
}
