/**
 * prefer_sparse.py: map every requested slot to its requesters, sort the
 * slots by how many requesters they have (fewest first, ties in order of
 * first appearance), then give each slot to the first requester on its list
 * that holds no reservation yet. Requesters are named by their position in
 * the application list; with distinct application objects this is the same
 * as the objects the Python lists hold.
 */
module PreferSparse {
  import opened Wrappers
  import opened Applications
  import opened RequestMap
  import opened StableSort

  /** `slot_counts.items()`: each slot with its requester list, in key order. */
  function ItemsOf<T>(keys: seq<T>, lists: map<T, seq<nat>>): (r: seq<(T, seq<nat>)>)
    ensures |r| == |keys|
    ensures forall i :: 0 <= i < |keys| ==> r[i] == (keys[i], Get(lists, keys[i]))
  {
    seq(|keys|, i requires 0 <= i < |keys| => (keys[i], Get(lists, keys[i])))
  }

  /** The requester map of the applications `reqs` as a list of pairs. */
  function Items<T(==)>(reqs: seq<seq<T>>): seq<(T, seq<nat>)> {
    var keys := Dedup(Flatten(reqs));
    seq(|keys|, i requires 0 <= i < |keys| => (keys[i], ByPosition(reqs, keys[i])))
  }

  /** The assignment loop's state: every application's reservation and the `reserved` set. */
  datatype State<T> = State(res: seq<Option<T>>, reserved: set<T>)

  /** One turn of the inner loop: requester `r` gets `slot` if it has nothing and `slot` is free. */
  function Grant<T(==)>(st: State<T>, slot: T, r: nat): State<T> {
    if r < |st.res| && st.res[r].None? && slot !in st.reserved
    then State(st.res[r := Some(slot)], st.reserved + {slot})
    else st
  }

  /** The inner loop over the requester list of `slot`. */
  function Scan<T(==)>(st: State<T>, slot: T, lst: seq<nat>): (r: State<T>)
    ensures |r.res| == |st.res|
  {
    if lst == [] then st
    else Grant(Scan(st, slot, lst[..|lst| - 1]), slot, lst[|lst| - 1])
  }

  /** The outer loop over the sorted pairs. */
  function Assign<T(==)>(st: State<T>, items: seq<(T, seq<nat>)>): (r: State<T>)
    ensures |r.res| == |st.res|
  {
    if items == [] then st
    else
      var n := |items| - 1;
      Scan(Assign(st, items[..n]), items[n].0, items[n].1)
  }

  /** The reservations prefer_sparse leaves, starting from the reservations `init`. */
  function SparseAllocation<T(==)>(reqs: seq<seq<T>>, init: seq<Option<T>>): seq<Option<T>> {
    Assign(State(init, {}), Sort(Items(reqs))).res
  }

  // ---------------------------------------------------------------------
  // The inner loop

  /** A reservation, once made, is never changed, and the `reserved` set only grows. */
  lemma {:induction false} ScanKeeps<T>(st: State<T>, slot: T, lst: seq<nat>)
    ensures forall i :: 0 <= i < |st.res| && st.res[i].Some? ==> Scan(st, slot, lst).res[i] == st.res[i]
    ensures st.reserved <= Scan(st, slot, lst).reserved
  {
    if lst != [] {
      ScanKeeps(st, slot, lst[..|lst| - 1]);
    }
  }

  /** A slot already reserved is given to nobody. */
  lemma {:induction false} ScanTaken<T>(st: State<T>, slot: T, lst: seq<nat>)
    requires slot in st.reserved
    ensures Scan(st, slot, lst) == st
  {
    if lst != [] {
      ScanTaken(st, slot, lst[..|lst| - 1]);
    }
  }

  /**
   * A free slot goes to the first requester on its list that has no
   * reservation, and to nobody when every requester has one.
   */
  lemma {:induction false} ScanGrantsFirst<T>(st: State<T>, slot: T, lst: seq<nat>)
    requires slot !in st.reserved
    requires forall m :: 0 <= m < |lst| ==> lst[m] < |st.res|
    ensures (forall m :: 0 <= m < |lst| ==> st.res[lst[m]].Some?) ==> Scan(st, slot, lst) == st
    ensures forall m :: 0 <= m < |lst| && st.res[lst[m]].None? && (forall p :: 0 <= p < m ==> st.res[lst[p]].Some?) ==>
              Scan(st, slot, lst) == State(st.res[lst[m] := Some(slot)], st.reserved + {slot})
  {
    if lst != [] {
      var n := |lst| - 1;
      var init := lst[..n];
      ScanGrantsFirst(st, slot, init);
      assert forall m :: 0 <= m < n ==> init[m] == lst[m];
      if exists m :: 0 <= m < n && st.res[lst[m]].None? {
        var m :| 0 <= m < n && st.res[lst[m]].None?;
        var first := FirstWithout(st.res, lst, m);
        assert Scan(st, slot, init) == State(st.res[lst[first] := Some(slot)], st.reserved + {slot});
      }
    }
  }

  /** Some position at or before `m` is the first one whose requester has no reservation. */
  lemma {:induction false} FirstWithout<T>(res: seq<Option<T>>, lst: seq<nat>, m: nat) returns (first: nat)
    requires m < |lst| && lst[m] < |res| && res[lst[m]].None?
    requires forall k :: 0 <= k < |lst| ==> lst[k] < |res|
    ensures first <= m && res[lst[first]].None?
    ensures forall p :: 0 <= p < first ==> res[lst[p]].Some?
  {
    if m == 0 || forall p :: 0 <= p < m ==> res[lst[p]].Some? {
      first := m;
    } else {
      var p :| 0 <= p < m && res[lst[p]].None?;
      first := FirstWithout(res, lst, p);
    }
  }

  /** After the inner loop, every requester on the list holds something or the slot is taken. */
  lemma {:induction false} ScanCovers<T>(st: State<T>, slot: T, lst: seq<nat>)
    ensures var r := Scan(st, slot, lst);
            forall m :: 0 <= m < |lst| && lst[m] < |st.res| ==> r.res[lst[m]].Some? || slot in r.reserved
  {
    if lst != [] {
      var n := |lst| - 1;
      ScanCovers(st, slot, lst[..n]);
      assert forall m :: 0 <= m < n ==> lst[..n][m] == lst[m];
    }
  }

  // ---------------------------------------------------------------------
  // The outer loop

  lemma {:induction false} AssignKeeps<T>(st: State<T>, items: seq<(T, seq<nat>)>)
    ensures forall i :: 0 <= i < |st.res| && st.res[i].Some? ==> Assign(st, items).res[i] == st.res[i]
    ensures st.reserved <= Assign(st, items).reserved
  {
    if items != [] {
      var n := |items| - 1;
      AssignKeeps(st, items[..n]);
      ScanKeeps(Assign(st, items[..n]), items[n].0, items[n].1);
    }
  }

  /** After the outer loop, every requester of every slot holds something or that slot is taken. */
  lemma {:induction false} AssignCovers<T>(st: State<T>, items: seq<(T, seq<nat>)>)
    ensures var r := Assign(st, items);
            forall k, m :: 0 <= k < |items| && 0 <= m < |items[k].1| && items[k].1[m] < |st.res| ==>
              r.res[items[k].1[m]].Some? || items[k].0 in r.reserved
  {
    if items != [] {
      var n := |items| - 1;
      var mid := Assign(st, items[..n]);
      AssignCovers(st, items[..n]);
      ScanKeeps(mid, items[n].0, items[n].1);
      ScanCovers(mid, items[n].0, items[n].1);
      assert forall k :: 0 <= k < n ==> items[..n][k] == items[k];
    }
  }

  /** The `reserved` set only ever holds slots of the pairs processed. */
  lemma {:induction false} AssignReservedFrom<T>(st: State<T>, items: seq<(T, seq<nat>)>)
    ensures forall s :: s in Assign(st, items).reserved ==>
              s in st.reserved || exists k :: 0 <= k < |items| && items[k].0 == s
  {
    if items != [] {
      var n := |items| - 1;
      var mid := Assign(st, items[..n]);
      AssignReservedFrom(st, items[..n]);
      ScanReservedFrom(mid, items[n].0, items[n].1);
      assert forall k :: 0 <= k < n ==> items[..n][k] == items[k];
    }
  }

  lemma {:induction false} ScanReservedFrom<T>(st: State<T>, slot: T, lst: seq<nat>)
    ensures Scan(st, slot, lst).reserved <= st.reserved + {slot}
  {
    if lst != [] {
      ScanReservedFrom(st, slot, lst[..|lst| - 1]);
    }
  }

  // ---------------------------------------------------------------------
  // What the loops keep true

  /**
   * Every reservation is one of its holder's requests, no slot is held twice,
   * and the `reserved` set is exactly the set of held slots.
   */
  predicate Consistent<T(==)>(reqs: seq<seq<T>>, st: State<T>) {
    && ReservedFromRequests(reqs, st.res)
    && NoSlotHeldTwice(st.res)
    && (forall i :: 0 <= i < |st.res| && st.res[i].Some? ==> st.res[i].value in st.reserved)
    && (forall s :: s in st.reserved ==> exists j :: 0 <= j < |st.res| && st.res[j] == Some(s))
  }

  /** The requester lists name applications that asked for the slot. */
  predicate Requested<T(==)>(reqs: seq<seq<T>>, slot: T, lst: seq<nat>) {
    forall m :: 0 <= m < |lst| ==> lst[m] < |reqs| && slot in reqs[lst[m]]
  }

  lemma GrantConsistent<T>(reqs: seq<seq<T>>, st: State<T>, slot: T, r: nat)
    requires Consistent(reqs, st)
    requires r < |reqs| ==> slot in reqs[r]
    ensures Consistent(reqs, Grant(st, slot, r))
  {
    if r < |st.res| && st.res[r].None? && slot !in st.reserved {
      var res := st.res[r := Some(slot)];
      forall s | s in st.reserved + {slot} ensures exists j :: 0 <= j < |res| && res[j] == Some(s) {
        if s != slot {
          var j :| 0 <= j < |st.res| && st.res[j] == Some(s);
          assert res[j] == Some(s);
        } else {
          assert res[r] == Some(s);
        }
      }
    }
  }

  lemma {:induction false} ScanConsistent<T>(reqs: seq<seq<T>>, st: State<T>, slot: T, lst: seq<nat>)
    requires Consistent(reqs, st) && Requested(reqs, slot, lst)
    ensures Consistent(reqs, Scan(st, slot, lst))
  {
    if lst != [] {
      var n := |lst| - 1;
      assert Requested(reqs, slot, lst[..n]) by {
        assert forall m :: 0 <= m < n ==> lst[..n][m] == lst[m];
      }
      ScanConsistent(reqs, st, slot, lst[..n]);
      GrantConsistent(reqs, Scan(st, slot, lst[..n]), slot, lst[n]);
    }
  }

  lemma {:induction false} AssignConsistent<T>(reqs: seq<seq<T>>, st: State<T>, items: seq<(T, seq<nat>)>)
    requires Consistent(reqs, st)
    requires forall k :: 0 <= k < |items| ==> Requested(reqs, items[k].0, items[k].1)
    ensures Consistent(reqs, Assign(st, items))
  {
    if items != [] {
      var n := |items| - 1;
      assert forall k :: 0 <= k < n ==> items[..n][k] == items[k];
      AssignConsistent(reqs, st, items[..n]);
      ScanConsistent(reqs, Assign(st, items[..n]), items[n].0, items[n].1);
    }
  }

  // ---------------------------------------------------------------------
  // The sorted requester map

  /** Each pair of the requester map is a slot with the positions of its requesters. */
  lemma ItemsRequested<T>(reqs: seq<seq<T>>, k: nat)
    requires k < |Items(reqs)|
    ensures Requested(reqs, Items(reqs)[k].0, Items(reqs)[k].1)
  {
    var s := Items(reqs)[k].0;
    var lst := ByPosition(reqs, s);
    RequestersOrdered(reqs, s);
    forall m | 0 <= m < |lst| ensures lst[m] < |reqs| && s in reqs[lst[m]] {
      RequestersMembers<T, nat>(reqs, Indices(|reqs|), s, lst[m]);
      var i :| 0 <= i < |reqs| && Indices(|reqs|)[i] == lst[m] && s in reqs[i];
    }
  }

  lemma SortedItemsRequested<T>(reqs: seq<seq<T>>)
    ensures forall k :: 0 <= k < |Sort(Items(reqs))| ==>
              Requested(reqs, Sort(Items(reqs))[k].0, Sort(Items(reqs))[k].1)
  {
    var items := Items(reqs);
    var sorted := Sort(items);
    SortPermutes(items);
    forall k | 0 <= k < |sorted| ensures Requested(reqs, sorted[k].0, sorted[k].1) {
      assert sorted[k] in multiset(items);
      var idx :| 0 <= idx < |items| && items[idx] == sorted[k];
      ItemsRequested(reqs, idx);
    }
  }

  /** Every request of application `i` for slot `s` appears in the sorted map: `i` is on the list of `s`. */
  lemma SortedItemsCover<T>(reqs: seq<seq<T>>, i: nat, s: T)
    requires i < |reqs| && s in reqs[i]
    ensures exists k, m :: 0 <= k < |Sort(Items(reqs))| && 0 <= m < |Sort(Items(reqs))[k].1| &&
                           Sort(Items(reqs))[k].0 == s && Sort(Items(reqs))[k].1[m] == i
  {
    var items := Items(reqs);
    var keys := Dedup(Flatten(reqs));
    FlattenMembers(reqs, s);
    DedupFacts(Flatten(reqs));
    var idx :| 0 <= idx < |keys| && keys[idx] == s;
    RequestersMembers(reqs, Indices(|reqs|), s, i);
    var lst := ByPosition(reqs, s);
    var m :| 0 <= m < |lst| && lst[m] == i;
    SortPermutes(items);
    assert items[idx] in multiset(Sort(items));
    var k :| 0 <= k < |Sort(items)| && Sort(items)[k] == items[idx];
  }

  /** Two pairs of the sorted map never share a slot. */
  lemma SortedItemsDistinctSlots<T>(reqs: seq<seq<T>>)
    ensures var sorted := Sort(Items(reqs));
            forall a, b :: 0 <= a < b < |sorted| ==> sorted[a].0 != sorted[b].0
  {
    var items := Items(reqs);
    var sorted := Sort(items);
    DedupFacts(Flatten(reqs));
    assert Distinct(items);
    SortPermutes(items);
    DistinctPermutation(items, sorted);
    forall a, b | 0 <= a < b < |sorted| ensures sorted[a].0 != sorted[b].0 {
      assert sorted[a] in multiset(items) && sorted[b] in multiset(items);
      var ia :| 0 <= ia < |items| && items[ia] == sorted[a];
      var ib :| 0 <= ib < |items| && items[ib] == sorted[b];
    }
  }

  // ---------------------------------------------------------------------
  // What prefer_sparse promises

  /** Slots are handled rarest first. */
  lemma SparseOrder<T>(reqs: seq<seq<T>>)
    ensures SortedBySize(Sort(Items(reqs)))
    ensures Permutation(Items(reqs), Sort(Items(reqs)))
    ensures forall c: nat :: WithSize(Sort(Items(reqs)), c) == WithSize(Items(reqs), c)
  {
    SortSorted(Items(reqs));
    SortPermutes(Items(reqs));
    forall c: nat ensures WithSize(Sort(Items(reqs)), c) == WithSize(Items(reqs), c) {
      SortStable(Items(reqs), c);
    }
  }

  /** Starting from no reservations: every reservation is requested and no slot is held twice. */
  lemma SparseConsistent<T>(reqs: seq<seq<T>>, init: seq<Option<T>>)
    requires |init| == |reqs| && NoneReserved(init)
    ensures ReservedFromRequests(reqs, SparseAllocation(reqs, init))
    ensures NoSlotHeldTwice(SparseAllocation(reqs, init))
  {
    SortedItemsRequested(reqs);
    AssignConsistent(reqs, State(init, {}), Sort(Items(reqs)));
  }

  /** Starting from no reservations, an application left without one asked only for slots others hold. */
  lemma SparseUnresolvedOnlyIfBlocked<T>(reqs: seq<seq<T>>, init: seq<Option<T>>)
    requires |init| == |reqs| && NoneReserved(init)
    ensures UnresolvedOnlyIfBlocked(reqs, SparseAllocation(reqs, init))
  {
    var items := Sort(Items(reqs));
    var st := State(init, {});
    var r := Assign(st, items);
    SortedItemsRequested(reqs);
    AssignConsistent(reqs, st, items);
    AssignCovers(st, items);
    forall i, s | 0 <= i < |r.res| && r.res[i].None? && s in reqs[i] ensures HeldByOther(r.res, i, s) {
      SortedItemsCover(reqs, i, s);
      var k, m :| 0 <= k < |items| && 0 <= m < |items[k].1| && items[k].0 == s && items[k].1[m] == i;
      assert s in r.reserved;
      var j :| 0 <= j < |r.res| && r.res[j] == Some(s);
    }
  }

  /** An application that already held a reservation keeps it. */
  lemma SparseKeepsPrior<T>(reqs: seq<seq<T>>, init: seq<Option<T>>)
    ensures |SparseAllocation(reqs, init)| == |init|
    ensures forall i :: 0 <= i < |init| && init[i].Some? ==> SparseAllocation(reqs, init)[i] == init[i]
  {
    AssignKeeps(State(init, {}), Sort(Items(reqs)));
  }

  /**
   * When the k-th slot of the sorted map comes up it is still free, so
   * it goes to the first requester on its list without a reservation.
   */
  lemma SparseSlotStillFree<T>(reqs: seq<seq<T>>, init: seq<Option<T>>, k: nat)
    requires k < |Sort(Items(reqs))|
    ensures var items := Sort(Items(reqs));
            var before := Assign(State(init, {}), items[..k]);
            && items[k].0 !in before.reserved
            && Assign(State(init, {}), items[..k + 1]) == Scan(before, items[k].0, items[k].1)
  {
    var items := Sort(Items(reqs));
    assert items[..k + 1][..k] == items[..k];
    SortedItemsDistinctSlots(reqs);
    AssignReservedFrom(State(init, {}), items[..k]);
    assert forall p :: 0 <= p < k ==> items[..k][p] == items[p];
  }

  // ---------------------------------------------------------------------
  // The Python function

  /** The inner loop of prefer_sparse over the requester list of `slot`. */
  method GrantSlot<T(==)>(appls: seq<Application<T>>, slot: T, lst: seq<nat>, reserved0: set<T>)
    returns (reserved: set<T>)
    requires Distinct(appls)
    requires forall m :: 0 <= m < |lst| ==> lst[m] < |appls|
    modifies appls
    ensures State(Reservations(appls), reserved) == Scan(State(old(Reservations(appls)), reserved0), slot, lst)
  {
    ghost var st0 := State(Reservations(appls), reserved0);
    reserved := reserved0;
    for m := 0 to |lst|
      invariant State(Reservations(appls), reserved) == Scan(st0, slot, lst[..m])
    {
      var r := lst[m];
      ghost var res0 := Reservations(appls);
      assert lst[..m + 1][..m] == lst[..m];
      if appls[r].reserved == None && slot !in reserved {
        appls[r].Reserve(Some(slot));
        reserved := reserved + {slot};
        assert Reservations(appls) == res0[r := Some(slot)];
      }
    }
    assert lst[..|lst|] == lst;
  }

  /**
   * `prefer_sparse(slotspace, appls)`: the reservations end as
   * `SparseAllocation` says, and the result counts the applications left
   * without one; on an empty list the share `none_amount / len(appls)`
   * divides by zero. The slot space is only printed.
   */
  method PreferSparse<T(==)>(slotspace: SlotSpace, appls: seq<Application<T>>) returns (r: Result<nat>)
    requires Distinct(appls)
    modifies appls
    ensures Reservations(appls) == SparseAllocation(Requests(appls), old(Reservations(appls)))
    ensures |appls| == 0 <==> r.Err?
    ensures r.Err? ==> r.error == ZeroDivisionError
    ensures r.Ok? ==> r.value == NoneCount(Reservations(appls))
  {
    ghost var reqs := Requests(appls);
    ghost var init := Reservations(appls);
    var keys, lists := BuildRequesters(Requests(appls), Indices(|appls|));
    assert ItemsOf(keys, lists) == Items(reqs) by {
      forall i | 0 <= i < |keys| ensures Get(lists, keys[i]) == ByPosition(reqs, keys[i]) {
        ListsMatchGet(lists, reqs, Indices(|appls|), keys[i]);
      }
    }
    var items := Sort(ItemsOf(keys, lists));
    SortedItemsRequested(reqs);
    var reserved: set<T> := {};
    for i := 0 to |items|
      invariant State(Reservations(appls), reserved) == Assign(State(init, {}), items[..i])
    {
      assert Requested(reqs, items[i].0, items[i].1);
      assert items[..i + 1][..i] == items[..i];
      reserved := GrantSlot(appls, items[i].0, items[i].1, reserved);
    }
    assert items[..|items|] == items;
    var unresolved := CountUnreserved(appls);
    if |appls| == 0 {
      return Err(ZeroDivisionError);
    }
    return Ok(unresolved);
  }
}
