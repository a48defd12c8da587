/**
 * The shared data model of applications.py: slots, the slot space they are
 * drawn from, applications with their requested slots and their one
 * reservation, and generation of a scenario.
 *
 * Python's `random.randint` and `uuid` are modelled as nondeterministic choice
 * (`:|`); the hue arithmetic of `SlotSpace.color` (floating point and string
 * formatting) is replaced by the offset of the slot inside the space, which
 * that arithmetic scales.
 */
module Applications {
  import opened Wrappers

  /** Application identifiers, the first six characters of a uuid. */
  type Id = string

  /** `generate_applications` gives every application this many requested slots. */
  const RequestsPerApplication := 3

  /** Length of the identifier `generate_id(6)` returns. */
  const IdLength := 6

  /**
   * A slot. The Python class defines neither `__eq__` nor `__hash__`, so two
   * slots are equal only when they are the same object: a class has exactly
   * that equality.
   */
  class Slot {
    const value: int

    constructor (value: int)
      ensures this.value == value
    {
      this.value := value;
    }
  }

  /** The interval of slot values [loBound, hiBound] that slots are drawn from. */
  class SlotSpace {
    const loBound: int
    const hiBound: int
    const range: int

    /** Python computes `360 / self.range` here, so a zero range raises. */
    constructor (loBound: int, hiBound: int)
      requires hiBound != loBound
      ensures this.loBound == loBound && this.hiBound == hiBound
      ensures range == hiBound - loBound
    {
      this.loBound := loBound;
      this.hiBound := hiBound;
      range := hiBound - loBound;
    }

    /** The value of `s` lies in the closed interval of this space. */
    predicate Contains(s: Slot) {
      loBound <= s.value <= hiBound
    }

    /**
     * A new slot with a value chosen from the closed interval. `randint`
     * includes both bounds and raises ValueError when the interval is empty.
     */
    method Pull() returns (r: Result<Slot>)
      ensures r.Ok? <==> loBound <= hiBound
      ensures r.Err? ==> r.error == ValueError
      ensures r.Ok? ==> fresh(r.value) && Contains(r.value)
    {
      if hiBound < loBound {
        return Err(ValueError);
      }
      var v :| loBound <= v <= hiBound;
      var slot := new Slot(v);
      return Ok(slot);
    }

    /**
     * The range check of `color`: the offset `value - loBound` that the hue is
     * scaled from when the slot lies in the space, ValueError otherwise.
     */
    function Color(s: Slot): (r: Result<int>)
      ensures r.Ok? <==> Contains(s)
      ensures r.Err? ==> r.error == ValueError
      ensures r.Ok? ==> 0 <= r.value <= hiBound - loBound && s.value == loBound + r.value
    {
      if s.value >= loBound && s.value <= hiBound then Ok(s.value - loBound)
      else Err(ValueError)
    }
  }

  /** `SlotSpace(lo, hi)` with its division by zero as an error result. */
  method NewSlotSpace(lo: int, hi: int) returns (r: Result<SlotSpace>)
    ensures r.Err? <==> hi == lo
    ensures r.Err? ==> r.error == ZeroDivisionError
    ensures r.Ok? ==> fresh(r.value) && r.value.loBound == lo && r.value.hiBound == hi
    ensures r.Ok? ==> r.value.range == hi - lo
  {
    if hi == lo {
      return Err(ZeroDivisionError);
    }
    var ss := new SlotSpace(lo, hi);
    return Ok(ss);
  }

  /**
   * An application: an identifier, the space its slots come from, the slots
   * it requested (generic here, so that the strategies can be read both with
   * object identity and with value equality of slots) and its reservation,
   * which starts out empty.
   */
  class Application<T> {
    const id: Id
    const slotspace: SlotSpace
    const requestedSlots: seq<T>
    var reserved: Option<T>

    constructor (id: Id, slotspace: SlotSpace, requestedSlots: seq<T>)
      ensures this.id == id && this.slotspace == slotspace
      ensures this.requestedSlots == requestedSlots
      ensures reserved == None
    {
      this.id := id;
      this.slotspace := slotspace;
      this.requestedSlots := requestedSlots;
      reserved := None;
    }

    /** `reserve(slot)`: overwrite the reservation (the graph strategy passes None too). */
    method Reserve(slot: Option<T>)
      modifies this
      ensures reserved == slot
    {
      reserved := slot;
    }
  }

  /** Python's `range(n)` has no elements when n is negative. */
  function Times(n: int): nat {
    if n < 0 then 0 else n
  }

  predicate Distinct<X(==)>(s: seq<X>) {
    forall i, j :: 0 <= i < j < |s| ==> s[i] != s[j]
  }

  /** No slot occurs at two positions of the requests, within one application or across two. */
  predicate PairwiseDistinct<T(==)>(reqs: seq<seq<T>>) {
    forall i, j, p, q ::
      0 <= i < |reqs| && 0 <= j < |reqs| && 0 <= p < |reqs[i]| && 0 <= q < |reqs[j]| && (i != j || p != q)
      ==> reqs[i][p] != reqs[j][q]
  }

  lemma PairwiseDistinctAppend<T>(reqs: seq<seq<T>>, r: seq<T>)
    requires PairwiseDistinct(reqs) && Distinct(r)
    requires forall i, p, q :: 0 <= i < |reqs| && 0 <= p < |reqs[i]| && 0 <= q < |r| ==> reqs[i][p] != r[q]
    ensures PairwiseDistinct(reqs + [r])
  {
  }

  /**
   * `get_slots(amount)`: `amount` slots pulled from the space, each a new
   * object; the first pull that raises ends the call.
   */
  method GetSlots(ss: SlotSpace, amount: int) returns (r: Result<seq<Slot>>)
    ensures r.Ok? <==> amount <= 0 || ss.loBound <= ss.hiBound
    ensures r.Err? ==> r.error == ValueError
    ensures r.Ok? ==> |r.value| == Times(amount) && Distinct(r.value)
    ensures r.Ok? ==> forall i :: 0 <= i < |r.value| ==> fresh(r.value[i]) && ss.Contains(r.value[i])
  {
    var slots: seq<Slot> := [];
    var k := 0;
    while k < amount
      invariant 0 <= k <= Times(amount) && |slots| == k
      invariant k > 0 ==> ss.loBound <= ss.hiBound
      invariant Distinct(slots)
      invariant forall i :: 0 <= i < k ==> fresh(slots[i]) && ss.Contains(slots[i])
    {
      var p := ss.Pull();
      if p.Err? {
        return Err(p.error);
      }
      slots := slots + [p.value];
      k := k + 1;
    }
    return Ok(slots);
  }

  /** `Application(amount, slotspace)`: a new identifier and `amount` new slots. */
  method NewApplication(amount: int, ss: SlotSpace) returns (r: Result<Application<Slot>>)
    ensures r.Ok? <==> amount <= 0 || ss.loBound <= ss.hiBound
    ensures r.Err? ==> r.error == ValueError
    ensures r.Ok? ==> fresh(r.value) && |r.value.id| == IdLength && r.value.slotspace == ss
    ensures r.Ok? ==> r.value.reserved == None
    ensures r.Ok? ==> |r.value.requestedSlots| == Times(amount) && Distinct(r.value.requestedSlots)
    ensures r.Ok? ==> forall i :: 0 <= i < |r.value.requestedSlots| ==>
                        fresh(r.value.requestedSlots[i]) && ss.Contains(r.value.requestedSlots[i])
  {
    assert |"000000"| == IdLength;
    var id: Id :| |id| == IdLength;
    var slots := GetSlots(ss, amount);
    if slots.Err? {
      return Err(slots.error);
    }
    var appl := new Application(id, ss, slots.value);
    return Ok(appl);
  }

  function Requests<T>(appls: seq<Application<T>>): seq<seq<T>> {
    seq(|appls|, k requires 0 <= k < |appls| => appls[k].requestedSlots)
  }

  function Ids<T>(appls: seq<Application<T>>): seq<Id> {
    seq(|appls|, k requires 0 <= k < |appls| => appls[k].id)
  }

  function Reservations<T>(appls: seq<Application<T>>): seq<Option<T>>
    reads appls
  {
    seq(|appls|, k requires 0 <= k < |appls| reads appls => appls[k].reserved)
  }

  predicate AllUnreserved<T>(appls: seq<Application<T>>)
    reads appls
  {
    forall k :: 0 <= k < |appls| ==> appls[k].reserved == None
  }

  /**
   * `generate_applications(amount, slotspace)`: `amount` new applications of
   * three new slots each. Since every slot is its own object, no slot is
   * requested twice anywhere in the scenario.
   */
  method GenerateApplications(amount: int, ss: SlotSpace) returns (r: Result<seq<Application<Slot>>>)
    ensures r.Ok? <==> amount <= 0 || ss.loBound <= ss.hiBound
    ensures r.Err? ==> r.error == ValueError
    ensures r.Ok? ==> |r.value| == Times(amount) && Distinct(r.value) && AllUnreserved(r.value)
    ensures r.Ok? ==> forall i :: 0 <= i < |r.value| ==>
                        fresh(r.value[i]) && r.value[i].slotspace == ss &&
                        |r.value[i].requestedSlots| == RequestsPerApplication
    ensures r.Ok? ==> forall i, p :: 0 <= i < |r.value| && 0 <= p < |r.value[i].requestedSlots| ==>
                        ss.Contains(r.value[i].requestedSlots[p])
    ensures r.Ok? ==> PairwiseDistinct(Requests(r.value))
  {
    var appls: seq<Application<Slot>> := [];
    var k := 0;
    while k < amount
      invariant 0 <= k <= Times(amount) && |appls| == k
      invariant k > 0 ==> ss.loBound <= ss.hiBound
      invariant Distinct(appls) && AllUnreserved(appls)
      invariant forall i :: 0 <= i < k ==>
                  fresh(appls[i]) && appls[i].slotspace == ss &&
                  |appls[i].requestedSlots| == RequestsPerApplication
      invariant forall i, p :: 0 <= i < k && 0 <= p < |appls[i].requestedSlots| ==>
                  fresh(appls[i].requestedSlots[p]) && ss.Contains(appls[i].requestedSlots[p])
      invariant PairwiseDistinct(Requests(appls))
    {
      var a := NewApplication(RequestsPerApplication, ss);
      if a.Err? {
        return Err(a.error);
      }
      forall i, p, q | 0 <= i < k && 0 <= p < |appls[i].requestedSlots| && 0 <= q < RequestsPerApplication
        ensures appls[i].requestedSlots[p] != a.value.requestedSlots[q]
      {
      }
      assert Requests(appls + [a.value]) == Requests(appls) + [a.value.requestedSlots];
      PairwiseDistinctAppend(Requests(appls), a.value.requestedSlots);
      appls := appls + [a.value];
      k := k + 1;
    }
    return Ok(appls);
  }

  /** The requests read as slot values instead of slot objects. */
  function SlotValues(reqs: seq<seq<Slot>>): (r: seq<seq<int>>)
    ensures |r| == |reqs|
    ensures forall i :: 0 <= i < |reqs| ==> |r[i]| == |reqs[i]|
    ensures forall i, p :: 0 <= i < |reqs| && 0 <= p < |reqs[i]| ==> r[i][p] == reqs[i][p].value
  {
    seq(|reqs|, i requires 0 <= i < |reqs| => seq(|reqs[i]|, p requires 0 <= p < |reqs[i]| => reqs[i][p].value))
  }

  /** The reserved slots of an allocation, in application order. */
  function Held<T>(res: seq<Option<T>>): seq<T> {
    if res == [] then []
    else
      var last := res[|res| - 1];
      Held(res[..|res| - 1]) + (if last.Some? then [last.value] else [])
  }

  /** The number of applications left without a reservation. */
  function NoneCount<T>(res: seq<Option<T>>): nat {
    if res == [] then 0
    else NoneCount(res[..|res| - 1]) + (if res[|res| - 1].None? then 1 else 0)
  }

  lemma HeldAppend<T>(res: seq<Option<T>>, x: Option<T>)
    ensures Held(res + [x]) == Held(res) + (if x.Some? then [x.value] else [])
    ensures NoneCount(res + [x]) == NoneCount(res) + (if x.None? then 1 else 0)
  {
    assert (res + [x])[..|res|] == res;
  }

  /** Every application is either unresolved or holds one of the held slots. */
  lemma {:induction false} HeldNoneCount<T>(res: seq<Option<T>>)
    ensures |Held(res)| + NoneCount(res) == |res|
  {
    if res != [] {
      HeldNoneCount(res[..|res| - 1]);
    }
  }

  /** A slot is held exactly when some application has it as its reservation. */
  lemma {:induction false} HeldMembers<T>(res: seq<Option<T>>, v: T)
    ensures v in Held(res) <==> exists i :: 0 <= i < |res| && res[i] == Some(v)
  {
    if res != [] {
      var init := res[..|res| - 1];
      HeldMembers(init, v);
      if v in Held(res) && v !in Held(init) {
        assert res[|res| - 1] == Some(v);
      }
      if exists i :: 0 <= i < |res| && res[i] == Some(v) {
        var i :| 0 <= i < |res| && res[i] == Some(v);
        if i < |res| - 1 {
          assert init[i] == Some(v);
        }
      }
    }
  }

  /** Holding distinct slots in order means no two applications hold the same slot. */
  lemma {:induction false} HeldDistinct<T>(res: seq<Option<T>>)
    requires Distinct(Held(res))
    ensures NoSlotHeldTwice(res)
  {
    if res != [] {
      var n := |res| - 1;
      var init := res[..n];
      assert Held(res) == Held(init) + (if res[n].Some? then [res[n].value] else []);
      assert Distinct(Held(init)) by {
        assert forall k :: 0 <= k < |Held(init)| ==> Held(init)[k] == Held(res)[k];
      }
      HeldDistinct(init);
      forall i, j | 0 <= i < j < |res| && res[i].Some? && res[j].Some?
        ensures res[i].value != res[j].value
      {
        if j == n {
          assert init[i] == res[i];
          HeldMembers(init, res[i].value);
          var h := Held(init);
          var k :| 0 <= k < |h| && h[k] == res[i].value;
          assert Held(res)[k] == h[k] && Held(res)[|h|] == res[n].value;
        } else {
          assert init[i] == res[i] && init[j] == res[j];
        }
      }
    }
  }

  /** `t` is a rearrangement of `s`. */
  predicate Permutation<X(==)>(s: seq<X>, t: seq<X>) {
    multiset(s) == multiset(t)
  }

  /** A distinct sequence has every element at most once. */
  lemma {:induction false} DistinctCount<X>(s: seq<X>, x: X)
    requires Distinct(s)
    ensures multiset(s)[x] <= 1
  {
    if s != [] {
      var n := |s| - 1;
      assert s == s[..n] + [s[n]];
      assert Distinct(s[..n]);
      DistinctCount(s[..n], x);
      if s[n] == x {
        assert x !in s[..n];
      }
    }
  }

  lemma EqualPairCount<X>(t: seq<X>, i: nat, j: nat)
    requires i < j < |t|
    ensures t[i] == t[j] ==> multiset(t)[t[i]] >= 2
  {
    assert t == t[..j] + [t[j]] + t[j + 1..];
    assert t[i] == t[..j][i];
  }

  /** A rearrangement of a distinct sequence is distinct. */
  lemma DistinctPermutation<X>(s: seq<X>, t: seq<X>)
    requires Permutation(s, t) && Distinct(s)
    ensures Distinct(t)
  {
    forall i, j | 0 <= i < j < |t| ensures t[i] != t[j] {
      EqualPairCount(t, i, j);
      DistinctCount(s, t[i]);
    }
  }

  /** Nobody holds a reservation yet. */
  predicate NoneReserved<T>(res: seq<Option<T>>) {
    forall i :: 0 <= i < |res| ==> res[i].None?
  }

  /** Each reservation is one of that application's own requests. */
  predicate ReservedFromRequests<T(==)>(reqs: seq<seq<T>>, res: seq<Option<T>>) {
    |res| == |reqs| &&
    forall i :: 0 <= i < |res| && res[i].Some? ==> res[i].value in reqs[i]
  }

  /** No two applications hold the same slot. */
  predicate NoSlotHeldTwice<T(==)>(res: seq<Option<T>>) {
    forall i, j :: 0 <= i < j < |res| && res[i].Some? && res[j].Some? ==> res[i].value != res[j].value
  }

  /** Slot `s` is the reservation of an application other than number `i`. */
  predicate HeldByOther<T(==)>(res: seq<Option<T>>, i: int, s: T) {
    exists j :: 0 <= j < |res| && j != i && res[j] == Some(s)
  }

  /** An application is left unresolved only when others hold all the slots it asked for. */
  predicate UnresolvedOnlyIfBlocked<T(==)>(reqs: seq<seq<T>>, res: seq<Option<T>>) {
    |res| == |reqs| &&
    forall i, s :: 0 <= i < |res| && res[i].None? && s in reqs[i] ==> HeldByOther(res, i, s)
  }

  /**
   * The count the strategies return: the number of applications whose
   * reservation is None (Python tabulates this with a pandas value count).
   */
  method CountUnreserved<T>(appls: seq<Application<T>>) returns (n: nat)
    ensures n == NoneCount(Reservations(appls))
  {
    ghost var res := Reservations(appls);
    n := 0;
    for i := 0 to |appls|
      invariant n == NoneCount(res[..i])
    {
      assert res[..i + 1] == res[..i] + [appls[i].reserved];
      HeldAppend(res[..i], appls[i].reserved);
      if appls[i].reserved == None {
        n := n + 1;
      }
    }
    assert res[..|appls|] == res;
  }
}
