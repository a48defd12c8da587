/**
 * The requester map both prefer_sparse.py (`slot_counts`, lines 17-23) and
 * graph_coloring.py (`requests`, lines 82-88) build: for every requested slot,
 * in order of first appearance (Python dicts keep insertion order), the list of
 * its requesters in application order, one entry per occurrence of the slot
 * in an application's requests. The two differ only in what they append for a
 * requester (the application itself or its id), so the entry is a tag.
 */
module RequestMap {
  import opened Wrappers
  import opened Applications

  /** All requested slots, application after application: the order the loops meet them in. */
  function Flatten<T>(reqs: seq<seq<T>>): seq<T> {
    if reqs == [] then [] else Flatten(reqs[..|reqs| - 1]) + reqs[|reqs| - 1]
  }

  /** The elements of `xs` in order of first appearance. */
  function Dedup<T(==)>(xs: seq<T>): seq<T> {
    if xs == [] then []
    else
      var d := Dedup(xs[..|xs| - 1]);
      var x := xs[|xs| - 1];
      if x in d then d else d + [x]
  }

  /** Deduplication keeps exactly the elements, each once. */
  lemma {:induction false} DedupFacts<T>(xs: seq<T>)
    ensures forall x :: x in Dedup(xs) <==> x in xs
    ensures Distinct(Dedup(xs))
  {
    if xs != [] {
      var init := xs[..|xs| - 1];
      DedupFacts(init);
      assert xs == init + [xs[|xs| - 1]];
    }
  }

  /** `tag` once for every occurrence of `s` in `req`. */
  function Occurrences<T(==), K>(tag: K, req: seq<T>, s: T): seq<K> {
    if req == [] then []
    else Occurrences(tag, req[..|req| - 1], s) + (if req[|req| - 1] == s then [tag] else [])
  }

  /** The list the loops build for slot `s`, when application `i` appends `labels[i]`. */
  function Requesters<T(==), K>(reqs: seq<seq<T>>, labels: seq<K>, s: T): seq<K>
    requires |labels| == |reqs|
  {
    if reqs == [] then []
    else
      var n := |reqs| - 1;
      Requesters(reqs[..n], labels[..n], s) + Occurrences(labels[n], reqs[n], s)
  }

  /** The labels of the applications 0, 1, ..., n-1: their positions in the list. */
  function Indices(n: nat): (r: seq<nat>)
    ensures |r| == n && forall i :: 0 <= i < n ==> r[i] == i
  {
    seq(n, i => i)
  }

  /** A missing key reads as the empty list (the loops create it on first sight). */
  function Get<T, K>(lists: map<T, seq<K>>, s: T): seq<K> {
    if s in lists then lists[s] else []
  }

  lemma {:induction false} FlattenMembers<T>(reqs: seq<seq<T>>, x: T)
    ensures x in Flatten(reqs) <==> exists i :: 0 <= i < |reqs| && x in reqs[i]
  {
    if reqs != [] {
      var n := |reqs| - 1;
      FlattenMembers(reqs[..n], x);
      assert forall i :: 0 <= i < n ==> reqs[..n][i] == reqs[i];
    }
  }

  lemma OccurrencesSnoc<T, K>(tag: K, req: seq<T>, x: T, s: T)
    ensures Occurrences(tag, req + [x], s) == Occurrences(tag, req, s) + (if x == s then [tag] else [])
  {
    assert (req + [x])[..|req|] == req;
  }

  lemma {:induction false} OccurrencesTags<T, K>(tag: K, req: seq<T>, s: T)
    ensures forall k :: 0 <= k < |Occurrences(tag, req, s)| ==> Occurrences(tag, req, s)[k] == tag
    ensures tag in Occurrences(tag, req, s) <==> s in req
  {
    if req != [] {
      var n := |req| - 1;
      OccurrencesTags(tag, req[..n], s);
      assert req == req[..n] + [req[n]];
    }
  }

  lemma {:induction false} OccurrencesCount<T, K>(tag: K, req: seq<T>, s: T)
    ensures multiset(Occurrences(tag, req, s))[tag] == multiset(req)[s]
  {
    if req != [] {
      var n := |req| - 1;
      var o := Occurrences(tag, req[..n], s);
      OccurrencesCount(tag, req[..n], s);
      assert req == req[..n] + [req[n]];
      assert multiset(req) == multiset(req[..n]) + multiset{req[n]};
      assert multiset(o + (if req[n] == s then [tag] else [])) ==
             multiset(o) + multiset(if req[n] == s then [tag] else []);
    }
  }

  lemma RequestersSnoc<T, K>(reqs: seq<seq<T>>, labels: seq<K>, s: T)
    requires |labels| == |reqs| > 0
    ensures var n := |reqs| - 1;
            Requesters(reqs, labels, s) == Requesters(reqs[..n], labels[..n], s) + Occurrences(labels[n], reqs[n], s)
  {
  }

  /**
   * A tag is on the list of slot `s` exactly when an application with that
   * tag requested `s`.
   */
  lemma {:induction false} RequestersMembers<T, K>(reqs: seq<seq<T>>, labels: seq<K>, s: T, x: K)
    requires |labels| == |reqs|
    ensures x in Requesters(reqs, labels, s) <==>
            exists i :: 0 <= i < |reqs| && labels[i] == x && s in reqs[i]
  {
    if reqs != [] {
      var n := |reqs| - 1;
      var prev := Requesters(reqs[..n], labels[..n], s);
      var occ := Occurrences(labels[n], reqs[n], s);
      RequestersSnoc(reqs, labels, s);
      RequestersMembers(reqs[..n], labels[..n], s, x);
      OccurrencesTags(labels[n], reqs[n], s);
      assert x in occ <==> x == labels[n] && s in reqs[n];
      if exists i :: 0 <= i < |reqs| && labels[i] == x && s in reqs[i] {
        var i :| 0 <= i < |reqs| && labels[i] == x && s in reqs[i];
        if i < n {
          assert labels[..n][i] == x && s in reqs[..n][i];
        }
      }
      if x in prev {
        var i :| 0 <= i < n && labels[..n][i] == x && s in reqs[..n][i];
        assert labels[i] == x && s in reqs[i];
      }
    }
  }

  /**
   * With distinct labels, the list of slot `s` names application `i` once per
   * occurrence of `s` in its requests.
   */
  lemma {:induction false} RequestersCount<T, K>(reqs: seq<seq<T>>, labels: seq<K>, s: T, i: nat)
    requires |labels| == |reqs| && Distinct(labels) && i < |reqs|
    ensures multiset(Requesters(reqs, labels, s))[labels[i]] == multiset(reqs[i])[s]
    decreases |reqs|, 1
  {
    var n := |reqs| - 1;
    var prev := Requesters(reqs[..n], labels[..n], s);
    var occ := Occurrences(labels[n], reqs[n], s);
    RequestersSnoc(reqs, labels, s);
    assert multiset(prev + occ) == multiset(prev) + multiset(occ);
    if i < n {
      RequestersCountEarlier(reqs, labels, s, i);
    } else {
      RequestersMembers(reqs[..n], labels[..n], s, labels[n]);
      assert multiset(prev)[labels[n]] == 0;
      OccurrencesCount(labels[n], reqs[n], s);
    }
  }

  lemma RequestersCountEarlier<T, K>(reqs: seq<seq<T>>, labels: seq<K>, s: T, i: nat)
    requires |labels| == |reqs| && Distinct(labels) && i < |reqs| - 1
    ensures var n := |reqs| - 1;
            multiset(Occurrences(labels[n], reqs[n], s))[labels[i]] == 0 &&
            multiset(Requesters(reqs[..n], labels[..n], s))[labels[i]] == multiset(reqs[i])[s]
    decreases |reqs|, 0
  {
    var n := |reqs| - 1;
    assert Distinct(labels[..n]);
    RequestersCount(reqs[..n], labels[..n], s, i);
    assert labels[..n][i] == labels[i] && reqs[..n][i] == reqs[i];
    OccurrencesTags(labels[n], reqs[n], s);
    assert labels[i] != labels[n];
    assert labels[i] !in Occurrences(labels[n], reqs[n], s);
  }

  /** The list of slot `s` when every application is labelled by its position. */
  function ByPosition<T(==)>(reqs: seq<seq<T>>, s: T): seq<nat> {
    Requesters(reqs, Indices(|reqs|), s)
  }

  /** Labelled by position, the list of a slot is in application order. */
  lemma {:induction false} RequestersOrdered<T>(reqs: seq<seq<T>>, s: T)
    ensures var l := ByPosition(reqs, s);
            forall a, b :: 0 <= a < b < |l| ==> l[a] <= l[b]
    ensures var l := ByPosition(reqs, s);
            forall a :: 0 <= a < |l| ==> l[a] < |reqs|
  {
    if reqs != [] {
      var n: nat := |reqs| - 1;
      var prev := ByPosition(reqs[..n], s);
      var occ := Occurrences<T, nat>(n, reqs[n], s);
      assert Indices(|reqs|)[..n] == Indices(n) && |reqs[..n]| == n && Indices(|reqs|)[n] == n;
      RequestersSnoc(reqs, Indices(|reqs|), s);
      assert ByPosition(reqs, s) == Requesters(reqs[..n], Indices(|reqs|)[..n], s) + occ;
      assert prev == Requesters(reqs[..n], Indices(n), s);
      RequestersOrdered(reqs[..n], s);
      OccurrencesTags<T, nat>(n, reqs[n], s);
    }
  }

  lemma DedupSnoc<T>(xs: seq<T>, x: T)
    ensures Dedup(xs + [x]) == if x in Dedup(xs) then Dedup(xs) else Dedup(xs) + [x]
  {
    assert (xs + [x])[..|xs|] == xs;
  }

  /** `keys` lists exactly the keys of `lists`. */
  ghost predicate KeysMatch<T, K>(lists: map<T, seq<K>>, keys: seq<T>) {
    (forall x :: x in lists ==> x in keys) && (forall x :: x in keys ==> x in lists)
  }

  /** `lists` is `lists0` with `tag` appended once per occurrence of each slot in `r`. */
  ghost predicate Extends<T, K>(lists: map<T, seq<K>>, lists0: map<T, seq<K>>, tag: K, r: seq<T>) {
    && (forall s :: s in lists0 ==> s in lists)
    && (forall s :: s in r ==> s in lists)
    && (forall s :: s in lists ==> lists[s] == Get(lists0, s) + Occurrences(tag, r, s))
  }

  /** `lists` holds, for every requested slot, its requesters among the applications `reqs`. */
  ghost predicate ListsMatch<T, K>(lists: map<T, seq<K>>, reqs: seq<seq<T>>, labels: seq<K>)
    requires |labels| == |reqs|
  {
    && (forall s :: s in Flatten(reqs) ==> s in lists)
    && (forall s :: s in lists ==> lists[s] == Requesters(reqs, labels, s))
  }

  lemma {:induction false} OccurrencesAbsent<T, K>(tag: K, req: seq<T>, s: T)
    requires s !in req
    ensures Occurrences(tag, req, s) == []
  {
    if req != [] {
      var n := |req| - 1;
      assert req == req[..n] + [req[n]];
      OccurrencesAbsent(tag, req[..n], s);
    }
  }

  /** A slot nobody requested has no requesters. */
  lemma {:induction false} RequestersAbsent<T, K>(reqs: seq<seq<T>>, labels: seq<K>, s: T)
    requires |labels| == |reqs| && s !in Flatten(reqs)
    ensures Requesters(reqs, labels, s) == []
  {
    if reqs != [] {
      var n := |reqs| - 1;
      RequestersAbsent(reqs[..n], labels[..n], s);
      OccurrencesAbsent(labels[n], reqs[n], s);
    }
  }

  /** Read through `Get`, a matching map gives every slot's requesters. */
  lemma ListsMatchGet<T, K>(lists: map<T, seq<K>>, reqs: seq<seq<T>>, labels: seq<K>, s: T)
    requires |labels| == |reqs| && ListsMatch(lists, reqs, labels)
    ensures Get(lists, s) == Requesters(reqs, labels, s)
  {
    if s !in lists {
      RequestersAbsent(reqs, labels, s);
    }
  }

  lemma ApplicationStep<T, K>(before: map<T, seq<K>>, lists: map<T, seq<K>>,
                              reqs: seq<seq<T>>, labels: seq<K>, i: nat)
    requires |labels| == |reqs| && i < |reqs|
    requires ListsMatch(before, reqs[..i], labels[..i])
    requires Extends(lists, before, labels[i], reqs[i])
    ensures ListsMatch(lists, reqs[..i + 1], labels[..i + 1])
  {
    assert reqs[..i + 1][..i] == reqs[..i] && labels[..i + 1][..i] == labels[..i];
    FlattenSnoc(reqs, i);
    forall s | s in lists ensures lists[s] == Requesters(reqs[..i + 1], labels[..i + 1], s) {
      RequestersSnoc(reqs[..i + 1], labels[..i + 1], s);
      ListsMatchGet(before, reqs[..i], labels[..i], s);
    }
  }

  lemma FlattenSnoc<T>(reqs: seq<seq<T>>, i: nat)
    requires i < |reqs|
    ensures Flatten(reqs[..i + 1]) == Flatten(reqs[..i]) + reqs[i]
  {
    assert reqs[..i + 1][..i] == reqs[..i];
  }

  /** The new entry of the inner loop: a `[]` list created on first sight, then `tag` appended. */
  function Appended<T, K>(lists: map<T, seq<K>>, slot: T, tag: K): (r: map<T, seq<K>>)
    ensures slot in r
  {
    var mid := if slot in lists then lists else lists[slot := []];
    mid[slot := mid[slot] + [tag]]
  }

  lemma KeysStep<T, K>(keys: seq<T>, lists: map<T, seq<K>>, slot: T, tag: K, xs: seq<T>)
    requires keys == Dedup(xs)
    requires KeysMatch(lists, keys)
    ensures var keys' := if slot in lists then keys else keys + [slot];
            keys' == Dedup(xs + [slot]) && KeysMatch(Appended(lists, slot, tag), keys')
  {
    DedupSnoc(xs, slot);
  }

  lemma ExtendsStep<T, K>(lists: map<T, seq<K>>, lists0: map<T, seq<K>>, tag: K, r: seq<T>, slot: T)
    requires Extends(lists, lists0, tag, r)
    ensures Extends(Appended(lists, slot, tag), lists0, tag, r + [slot])
  {
    var lists' := Appended(lists, slot, tag);
    if slot !in lists {
      OccurrencesAbsent(tag, r, slot);
    }
    forall s | s in lists' ensures lists'[s] == Get(lists0, s) + Occurrences(tag, r + [slot], s) {
      OccurrencesSnoc(tag, r, slot, s);
    }
  }

  /** One turn of the inner loop keeps its three invariants. */
  lemma InsertStep<T, K>(keys: seq<T>, lists: map<T, seq<K>>, lists0: map<T, seq<K>>,
                         req: seq<T>, tag: K, seen: seq<T>, j: nat)
    requires j < |req|
    requires keys == Dedup(seen + req[..j])
    requires KeysMatch(lists, keys)
    requires Extends(lists, lists0, tag, req[..j])
    ensures var keys' := if req[j] in lists then keys else keys + [req[j]];
            var lists' := Appended(lists, req[j], tag);
            && keys' == Dedup(seen + req[..j + 1])
            && KeysMatch(lists', keys')
            && Extends(lists', lists0, tag, req[..j + 1])
  {
    var slot := req[j];
    assert req[..j + 1] == req[..j] + [slot];
    assert seen + req[..j + 1] == (seen + req[..j]) + [slot];
    KeysStep(keys, lists, slot, tag, seen + req[..j]);
    ExtendsStep(lists, lists0, tag, req[..j], slot);
  }

  /**
   * The inner loop over one application's requests: each slot not seen before
   * becomes a new key, and `tag` is appended to the list of each occurrence.
   */
  method AddRequests<T(==), K>(keys0: seq<T>, lists0: map<T, seq<K>>, req: seq<T>, tag: K, ghost seen: seq<T>)
    returns (keys: seq<T>, lists: map<T, seq<K>>)
    requires keys0 == Dedup(seen)
    requires KeysMatch(lists0, keys0)
    ensures keys == Dedup(seen + req)
    ensures KeysMatch(lists, keys)
    ensures Extends(lists, lists0, tag, req)
  {
    keys, lists := keys0, lists0;
    assert req[..0] == [] && seen + req[..0] == seen;
    for j := 0 to |req|
      invariant keys == Dedup(seen + req[..j])
      invariant KeysMatch(lists, keys)
      invariant Extends(lists, lists0, tag, req[..j])
    {
      var slot := req[j];
      InsertStep(keys, lists, lists0, req, tag, seen, j);
      ghost var next := Appended(lists, slot, tag);
      if slot !in lists {
        lists := lists[slot := []];
        keys := keys + [slot];
      }
      lists := lists[slot := lists[slot] + [tag]];
      assert lists == next;
    }
    assert req[..|req|] == req;
  }

  /**
   * The requester map loop: every requested slot becomes a key, in order of
   * first appearance, and its list is the one `Requesters` describes.
   */
  method BuildRequesters<T(==), K>(reqs: seq<seq<T>>, labels: seq<K>)
    returns (keys: seq<T>, lists: map<T, seq<K>>)
    requires |labels| == |reqs|
    ensures keys == Dedup(Flatten(reqs))
    ensures KeysMatch(lists, keys)
    ensures ListsMatch(lists, reqs, labels)
  {
    keys, lists := [], map[];
    for i := 0 to |reqs|
      invariant keys == Dedup(Flatten(reqs[..i]))
      invariant KeysMatch(lists, keys)
      invariant ListsMatch(lists, reqs[..i], labels[..i])
    {
      ghost var before := lists;
      keys, lists := AddRequests(keys, lists, reqs[i], labels[i], Flatten(reqs[..i]));
      FlattenSnoc(reqs, i);
      ApplicationStep(before, lists, reqs, labels, i);
    }
    assert reqs[..|reqs|] == reqs && labels[..|reqs|] == labels;
  }
}
