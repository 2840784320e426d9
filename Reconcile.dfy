/**
  Pure, id-keyed collection helpers behind MainViewModel's refresh passes:
  the removed-id computation, `removeAll`, `first(where:)`, and the
  append-if-absent merge that the refresh loops perform, together with the
  facts about them that the refresh methods and their callers rely on.

  Keys are plain integers; every helper takes the key projection `key` of the
  element type, so the same definitions serve filaments, spools and their
  snapshot records.
 */
module Reconcile {

  datatype Option<T> = None | Some(value: T)

  /** The key of every element of `xs`, in order. */
  function Keys<T>(xs: seq<T>, key: T -> int): (ks: seq<int>)
    ensures |ks| == |xs|
    ensures forall i :: 0 <= i < |xs| ==> ks[i] == key(xs[i])
  {
    seq(|xs|, i requires 0 <= i < |xs| => key(xs[i]))
  }

  /** The identity key, for sequences that already are keys. */
  function Self(k: int): (r: int) { k }

  /** No key occurs twice. */
  predicate Unique(ks: seq<int>) {
    forall i, j :: 0 <= i < j < |ks| ==> ks[i] != ks[j]
  }

  /** `first(where: { key($0) == k })`: the index of the first element keyed `k`, if any. */
  function First<T>(xs: seq<T>, key: T -> int, k: int): (r: Option<nat>)
    ensures r.None? <==> k !in Keys(xs, key)
    ensures r.Some? ==> r.value < |xs| && key(xs[r.value]) == k
    ensures r.Some? ==> forall j :: 0 <= j < r.value ==> key(xs[j]) != k
  {
    FirstFrom(xs, key, k, 0)
  }

  /** The scan behind `First`, starting at index `from`. */
  function FirstFrom<T>(xs: seq<T>, key: T -> int, k: int, from: nat): (r: Option<nat>)
    requires from <= |xs|
    ensures r.None? ==> forall j :: from <= j < |xs| ==> key(xs[j]) != k
    ensures r.Some? ==> from <= r.value < |xs| && key(xs[r.value]) == k
    ensures r.Some? ==> forall j :: from <= j < r.value ==> key(xs[j]) != k
    decreases |xs| - from
  {
    if from == |xs| then None
    else if key(xs[from]) == k then Some(from)
    else FirstFrom(xs, key, k, from + 1)
  }

  /**
    The survivors of a refresh: the elements of `xs` whose key occurs in
    `wanted`, in their original order.
   */
  function Keep<T(==)>(xs: seq<T>, key: T -> int, wanted: seq<int>): (r: seq<T>)
    ensures |r| <= |xs|
    decreases |xs|
  {
    if xs == [] then []
    else
      var rest := Keep(xs[1..], key, wanted);
      (if key(xs[0]) in wanted then [xs[0]] else []) + rest
  }

  /**
    `removeAll { drop.contains(key($0)) }` and, with the snapshot's keys as
    `drop`, the filter of local elements missing from the snapshot: the
    elements of `xs` whose key does not occur in `drop`, in order.
   */
  function Without<T(==)>(xs: seq<T>, key: T -> int, drop: seq<int>): (r: seq<T>)
    ensures |r| <= |xs|
    decreases |xs|
  {
    if xs == [] then []
    else
      var rest := Without(xs[1..], key, drop);
      (if key(xs[0]) in drop then [] else [xs[0]]) + rest
  }

  /** The keys of the local elements that the snapshot no longer lists. */
  function Stale<T(==)>(xs: seq<T>, key: T -> int, snapshot: seq<int>): (r: seq<int>)
  {
    Keys(Without(xs, key, snapshot), key)
  }

  /**
    The refresh loop on keys: walk `incoming` in order and append each key
    that is not present yet. Keys already present are left where they are.
   */
  function Merge(local: seq<int>, incoming: seq<int>): (r: seq<int>)
    decreases |incoming|
  {
    if incoming == [] then local
    else Merge(if incoming[0] in local then local else local + [incoming[0]], incoming[1..])
  }

  /** The index of the last element keyed `k`: the snapshot entry whose update sticks. */
  function LastIndex<T>(xs: seq<T>, key: T -> int, k: int): (i: nat)
    requires k in Keys(xs, key)
    ensures i < |xs| && key(xs[i]) == k
    ensures forall j :: i < j < |xs| ==> key(xs[j]) != k
    decreases |xs|
  {
    var n := |xs| - 1;
    if key(xs[n]) == k then n
    else
      assert Keys(xs, key) == Keys(xs[..n], key) + [key(xs[n])];
      LastIndex(xs[..n], key, k)
  }

  /** The last element keyed `k`: the snapshot row a refresh leaves its entity reflecting. */
  function Latest<T>(xs: seq<T>, key: T -> int, k: int): (r: T)
    requires k in Keys(xs, key)
  {
    xs[LastIndex(xs, key, k)]
  }

  // ---------------------------------------------------------------------
  // Facts about the helpers
  // ---------------------------------------------------------------------

  /** `Keep` retains exactly the elements whose key is wanted. */
  lemma {:induction false} KeepMember<T>(xs: seq<T>, key: T -> int, wanted: seq<int>, x: T)
    ensures x in Keep(xs, key, wanted) <==> x in xs && key(x) in wanted
    decreases |xs|
  {
    if xs != [] {
      KeepMember(xs[1..], key, wanted, x);
      assert x in xs <==> x == xs[0] || x in xs[1..];
    }
  }

  /** `Without` retains exactly the elements whose key is not dropped. */
  lemma {:induction false} WithoutMember<T>(xs: seq<T>, key: T -> int, drop: seq<int>, x: T)
    ensures x in Without(xs, key, drop) <==> x in xs && key(x) !in drop
    decreases |xs|
  {
    if xs != [] {
      WithoutMember(xs[1..], key, drop, x);
      assert x in xs <==> x == xs[0] || x in xs[1..];
    }
  }

  /** Keys of a concatenation are the concatenation of the keys. */
  lemma KeysAppend<T>(a: seq<T>, b: seq<T>, key: T -> int)
    ensures Keys(a + b, key) == Keys(a, key) + Keys(b, key)
  {
  }

  /** A key is listed exactly when some element carries it. */
  lemma InKeys<T>(xs: seq<T>, key: T -> int, k: int)
    ensures k in Keys(xs, key) <==> exists x :: x in xs && key(x) == k
  {
    if k in Keys(xs, key) {
      var i :| 0 <= i < |xs| && Keys(xs, key)[i] == k;
      assert xs[i] in xs;
    }
    if exists x :: x in xs && key(x) == k {
      var x :| x in xs && key(x) == k;
      var i :| 0 <= i < |xs| && xs[i] == x;
      assert Keys(xs, key)[i] == k;
    }
  }

  /** Under unique keys, an element is determined by its key. */
  lemma UniqueKeyed<T>(xs: seq<T>, key: T -> int, i: nat, x: T)
    requires Unique(Keys(xs, key)) && i < |xs| && x in xs && key(x) == key(xs[i])
    ensures x == xs[i]
  {
    var j :| 0 <= j < |xs| && xs[j] == x;
    assert Keys(xs, key)[j] == Keys(xs, key)[i];
  }

  /** Filtering distributes over concatenation. */
  lemma {:induction false} KeepAppend<T>(a: seq<T>, b: seq<T>, key: T -> int, wanted: seq<int>)
    ensures Keep(a + b, key, wanted) == Keep(a, key, wanted) + Keep(b, key, wanted)
    decreases |a|
  {
    if a != [] {
      assert (a + b)[0] == a[0] && (a + b)[1..] == a[1..] + b;
      KeepAppend(a[1..], b, key, wanted);
    } else {
      assert a + b == b;
    }
  }

  /** Keeping every element whose key is wanted changes nothing when all are wanted. */
  lemma {:induction false} KeepAll<T>(xs: seq<T>, key: T -> int, wanted: seq<int>)
    requires forall x :: x in xs ==> key(x) in wanted
    ensures Keep(xs, key, wanted) == xs
    decreases |xs|
  {
    if xs != [] {
      assert xs[0] in xs;
      assert forall x :: x in xs[1..] ==> x in xs;
      KeepAll(xs[1..], key, wanted);
      assert [xs[0]] + xs[1..] == xs;
    }
  }

  /** Filtering objects and then taking keys is filtering their keys. */
  lemma {:induction false} KeysOfKeep<T>(xs: seq<T>, key: T -> int, wanted: seq<int>)
    ensures Keys(Keep(xs, key, wanted), key) == Keep(Keys(xs, key), Self, wanted)
    decreases |xs|
  {
    if xs != [] {
      KeysOfKeep(xs[1..], key, wanted);
      var head := if key(xs[0]) in wanted then [xs[0]] else [];
      KeysAppend(head, Keep(xs[1..], key, wanted), key);
      assert Keys(xs, key)[1..] == Keys(xs[1..], key);
    }
  }

  /** Filtering, on any key, keeps unique keys unique. */
  lemma {:induction false} KeepUnique<T>(xs: seq<T>, key: T -> int, filterKey: T -> int, wanted: seq<int>)
    requires Unique(Keys(xs, key))
    ensures Unique(Keys(Keep(xs, filterKey, wanted), key))
    decreases |xs|
  {
    if xs != [] {
      var tail := xs[1..];
      assert Keys(tail, key) == Keys(xs, key)[1..];
      KeepUnique(tail, key, filterKey, wanted);
      var rest := Keep(tail, filterKey, wanted);
      if filterKey(xs[0]) in wanted {
        assert Keep(xs, filterKey, wanted) == [xs[0]] + rest;
        forall j | 0 <= j < |rest| ensures key(rest[j]) != key(xs[0]) {
          KeepMember(tail, filterKey, wanted, rest[j]);
          var m :| 0 <= m < |tail| && tail[m] == rest[j];
          assert Keys(xs, key)[m + 1] == key(rest[j]);
        }
        var ks := Keys([xs[0]] + rest, key);
        assert forall i :: 1 <= i < |ks| ==> ks[i] == Keys(rest, key)[i - 1];
      } else {
        assert Keep(xs, filterKey, wanted) == rest;
      }
    }
  }

  /**
    The removed-id computation followed by `removeAll` (MainViewModel.swift
    lines 34-41 and 61-68) keeps exactly the local elements whose key the
    snapshot still lists, in their original order.
   */
  lemma RemoveStaleKeepsListed<T>(xs: seq<T>, key: T -> int, snapshot: seq<int>)
    ensures Without(xs, key, Stale(xs, key, snapshot)) == Keep(xs, key, snapshot)
  {
    forall x | x in xs ensures key(x) in Stale(xs, key, snapshot) <==> key(x) !in snapshot {
      StaleMember(xs, key, snapshot, key(x));
    }
    DropMatchesKeep(xs, key, Stale(xs, key, snapshot), snapshot);
  }

  /** A key is stale exactly when some local element carries it and the snapshot does not list it. */
  lemma StaleMember<T>(xs: seq<T>, key: T -> int, snapshot: seq<int>, k: int)
    ensures k in Stale(xs, key, snapshot) <==> (exists x :: x in xs && key(x) == k) && k !in snapshot
  {
    InKeys(Without(xs, key, snapshot), key, k);
    if k in Stale(xs, key, snapshot) {
      var y :| y in Without(xs, key, snapshot) && key(y) == k;
      WithoutMember(xs, key, snapshot, y);
    }
    if (exists x :: x in xs && key(x) == k) && k !in snapshot {
      var x :| x in xs && key(x) == k;
      WithoutMember(xs, key, snapshot, x);
    }
  }

  /** `Without(drop)` and `Keep(wanted)` agree when `drop` is the complement of `wanted` on `xs`. */
  lemma {:induction false} DropMatchesKeep<T>(xs: seq<T>, key: T -> int, drop: seq<int>, wanted: seq<int>)
    requires forall x :: x in xs ==> (key(x) in drop <==> key(x) !in wanted)
    ensures Without(xs, key, drop) == Keep(xs, key, wanted)
    decreases |xs|
  {
    if xs != [] {
      assert xs[0] in xs;
      assert forall x :: x in xs[1..] ==> x in xs;
      DropMatchesKeep(xs[1..], key, drop, wanted);
    }
  }

  /** Merging only appends: the local keys stay, in place, as a prefix. */
  lemma {:induction false} MergeExtends(local: seq<int>, incoming: seq<int>)
    ensures |local| <= |Merge(local, incoming)| && Merge(local, incoming)[..|local|] == local
    decreases |incoming|
  {
    if incoming != [] {
      var next := if incoming[0] in local then local else local + [incoming[0]];
      MergeExtends(next, incoming[1..]);
      assert next[..|local|] == local;
    }
  }

  /** One step of the merge walk, at position `i` of `incoming`. */
  lemma MergeStep(local: seq<int>, incoming: seq<int>, i: nat)
    requires i < |incoming|
    ensures Merge(local, incoming[i..]) ==
            Merge(if incoming[i] in local then local else local + [incoming[i]], incoming[i + 1..])
  {
    assert incoming[i..][0] == incoming[i] && incoming[i..][1..] == incoming[i + 1..];
  }

  /** Merging two batches one after the other is merging their concatenation. */
  lemma {:induction false} MergeConcat(local: seq<int>, a: seq<int>, b: seq<int>)
    ensures Merge(Merge(local, a), b) == Merge(local, a + b)
    decreases |a|
  {
    if a == [] {
      assert a + b == b;
    } else {
      assert (a + b)[0] == a[0] && (a + b)[1..] == a[1..] + b;
      MergeConcat(if a[0] in local then local else local + [a[0]], a[1..], b);
    }
  }

  /** The merge holds exactly the local keys and the incoming keys. */
  lemma {:induction false} MergeMember(local: seq<int>, incoming: seq<int>, k: int)
    ensures k in Merge(local, incoming) <==> k in local || k in incoming
    decreases |incoming|
  {
    if incoming != [] {
      var next := if incoming[0] in local then local else local + [incoming[0]];
      MergeMember(next, incoming[1..], k);
      assert k in incoming <==> k == incoming[0] || k in incoming[1..];
    }
  }

  /** Appending only absent keys keeps local keys unique. */
  lemma {:induction false} MergeUnique(local: seq<int>, incoming: seq<int>)
    requires Unique(local)
    ensures Unique(Merge(local, incoming))
    decreases |incoming|
  {
    if incoming != [] {
      var next := if incoming[0] in local then local else local + [incoming[0]];
      assert Unique(next);
      MergeUnique(next, incoming[1..]);
    }
  }

  /** When every incoming key is already present, merging changes nothing. */
  lemma {:induction false} MergeAbsorbs(local: seq<int>, incoming: seq<int>)
    requires forall k :: k in incoming ==> k in local
    ensures Merge(local, incoming) == local
    decreases |incoming|
  {
    if incoming != [] {
      var k0 := incoming[0];
      assert k0 in incoming;
      assert k0 in local;
      assert forall k :: k in incoming[1..] ==> k in incoming;
      MergeAbsorbs(local, incoming[1..]);
      assert Merge(local, incoming) == Merge(local, incoming[1..]);
    }
  }

  /** The last element keyed `k` after appending `y`. */
  lemma LatestAppend<T>(xs: seq<T>, y: T, key: T -> int, k: int)
    requires k in Keys(xs + [y], key)
    ensures key(y) == k ==> Latest(xs + [y], key, k) == y
    ensures key(y) != k ==> k in Keys(xs, key) && Latest(xs + [y], key, k) == Latest(xs, key, k)
  {
    var ys := xs + [y];
    assert ys[..|xs|] == xs;
    KeysAppend(xs, [y], key);
  }

  // ---------------------------------------------------------------------
  // The outcome of one refresh pass, on keys
  // ---------------------------------------------------------------------

  /**
    A filament refresh, on keys: the local keys still in the snapshot, then
    the snapshot's new keys in snapshot order.
   */
  function Reconciled(local: seq<int>, snapshot: seq<int>): (r: seq<int>)
  {
    Merge(Keep(local, Self, snapshot), snapshot)
  }

  /**
    After a refresh the local keys are exactly the snapshot's keys, each once:
    nothing stale survives and nothing listed is missing or duplicated.
   */
  lemma ReconciledMatchesSnapshot(local: seq<int>, snapshot: seq<int>)
    requires Unique(local)
    ensures Unique(Reconciled(local, snapshot))
    ensures forall k :: k in Reconciled(local, snapshot) <==> k in snapshot
  {
    KeepUnique(local, Self, Self, snapshot);
    forall k ensures k in Reconciled(local, snapshot) <==> k in snapshot {
      KeepMember(local, Self, snapshot, k);
      MergeMember(Keep(local, Self, snapshot), snapshot, k);
    }
    assert Keys(local, Self) == local;
    assert Keys(Keep(local, Self, snapshot), Self) == Keep(local, Self, snapshot);
    MergeUnique(Keep(local, Self, snapshot), snapshot);
  }

  /** Refreshing twice against the same snapshot gives the same keys as refreshing once. */
  lemma ReconciledIdempotent(local: seq<int>, snapshot: seq<int>)
    ensures Reconciled(Reconciled(local, snapshot), snapshot) == Reconciled(local, snapshot)
  {
    var once := Reconciled(local, snapshot);
    forall k ensures k in once <==> k in snapshot {
      KeepMember(local, Self, snapshot, k);
      MergeMember(Keep(local, Self, snapshot), snapshot, k);
    }
    KeepAll(once, Self, snapshot);
    MergeAbsorbs(once, snapshot);
  }

  /**
    A spool refresh, on keys: local keys the full snapshot still lists stay
    (whether or not their filament resolves), and only `accepted` keys (the
    resolvable ones, a subset of the snapshot) can be added.
   */
  lemma GatedReconcile(local: seq<int>, snapshot: seq<int>, accepted: seq<int>)
    requires Unique(local)
    requires forall k :: k in accepted ==> k in snapshot
    ensures Unique(Merge(Keep(local, Self, snapshot), accepted))
    ensures forall k :: k in Merge(Keep(local, Self, snapshot), accepted) <==>
                        (k in local && k in snapshot) || k in accepted
    ensures forall k :: k in Merge(Keep(local, Self, snapshot), accepted) ==> k in snapshot
  {
    KeepUnique(local, Self, Self, snapshot);
    forall k ensures k in Merge(Keep(local, Self, snapshot), accepted) <==>
                     (k in local && k in snapshot) || k in accepted {
      KeepMember(local, Self, snapshot, k);
      MergeMember(Keep(local, Self, snapshot), accepted, k);
    }
    assert Keys(local, Self) == local;
    assert Keys(Keep(local, Self, snapshot), Self) == Keep(local, Self, snapshot);
    MergeUnique(Keep(local, Self, snapshot), accepted);
  }
}
