/**
 * Sequence operations shared by the record merges and the de-duplication
 * passes: order-preserving de-duplication (Python's "if x not in seen:
 * append"), keeping only truthy strings, and keeping the first element per key.
 */
module Lists {

  /** Pairwise distinct elements. */
  predicate NoDup<T(==)>(xs: seq<T>) {
    forall i, j :: 0 <= i < j < |xs| ==> xs[i] != xs[j]
  }

  /** Concatenation of a sequence of sequences, in order. */
  function Flatten<T>(xss: seq<seq<T>>): seq<T>
    decreases |xss|
  {
    if xss == [] then [] else Flatten(xss[..|xss| - 1]) + xss[|xss| - 1]
  }

  lemma FlattenAppend<T>(xss: seq<seq<T>>, ys: seq<seq<T>>)
    ensures Flatten(xss + ys) == Flatten(xss) + Flatten(ys)
    decreases |ys|
  {
    if ys != [] {
      assert (xss + ys)[..|xss + ys| - 1] == xss + ys[..|ys| - 1];
      FlattenAppend(xss, ys[..|ys| - 1]);
    } else {
      assert xss + ys == xss;
    }
  }

  // ---------------------------------------------------------------------
  // Truthy strings
  // ---------------------------------------------------------------------

  /** The non-empty strings of `xs`, in order (the items for which Python's `if x` holds). */
  function NonEmpty(xs: seq<string>): (r: seq<string>)
    ensures |r| <= |xs|
    decreases |xs|
  {
    if xs == [] then []
    else NonEmpty(xs[..|xs| - 1]) + (if xs[|xs| - 1] != "" then [xs[|xs| - 1]] else [])
  }

  lemma {:induction false} NonEmptyMembers(xs: seq<string>)
    ensures forall x :: x in NonEmpty(xs) <==> x in xs && x != ""
    decreases |xs|
  {
    if xs != [] {
      NonEmptyMembers(xs[..|xs| - 1]);
      assert xs == xs[..|xs| - 1] + [xs[|xs| - 1]];
    }
  }

  lemma NonEmptyAppend(xs: seq<string>, ys: seq<string>)
    ensures NonEmpty(xs + ys) == NonEmpty(xs) + NonEmpty(ys)
    decreases |ys|
  {
    if ys == [] {
      assert xs + ys == xs;
    } else {
      assert (xs + ys)[..|xs + ys| - 1] == xs + ys[..|ys| - 1];
      NonEmptyAppend(xs, ys[..|ys| - 1]);
    }
  }

  // ---------------------------------------------------------------------
  // Order-preserving de-duplication
  // ---------------------------------------------------------------------

  /** The first occurrence of every value of `xs`, in the order of those occurrences. */
  function Dedup<T(==,!new)>(xs: seq<T>): (r: seq<T>)
    ensures NoDup(r)
    ensures forall x :: x in r <==> x in xs
    ensures |r| <= |xs|
    decreases |xs|
  {
    if xs == [] then []
    else
      var p := Dedup(xs[..|xs| - 1]);
      if xs[|xs| - 1] in p then p else p + [xs[|xs| - 1]]
  }

  lemma DedupSnoc<T(!new)>(xs: seq<T>, x: T)
    ensures Dedup(xs + [x]) == if x in xs then Dedup(xs) else Dedup(xs) + [x]
  {
    assert (xs + [x])[..|xs|] == xs;
  }

  /** De-duplicating a prefix gives a prefix of the de-duplicated whole. */
  lemma {:induction false} DedupPrefix<T(!new)>(xs: seq<T>, k: nat)
    requires k <= |xs|
    ensures |Dedup(xs[..k])| <= |Dedup(xs)|
    ensures Dedup(xs[..k]) == Dedup(xs)[..|Dedup(xs[..k])|]
    decreases |xs| - k
  {
    if k < |xs| {
      DedupPrefix(xs, k + 1);
      assert xs[..k + 1][..k] == xs[..k];
    } else {
      assert xs[..k] == xs;
    }
  }

  /**
   * The first occurrence of a value, at index k, lands in the de-duplicated
   * sequence right after the values first seen before k: the output keeps the
   * order of first occurrences.
   */
  lemma DedupFirstOccurrence<T(!new)>(xs: seq<T>, k: nat)
    requires k < |xs| && xs[k] !in xs[..k]
    ensures |Dedup(xs[..k])| < |Dedup(xs)|
    ensures Dedup(xs)[|Dedup(xs[..k])|] == xs[k]
  {
    DedupPrefix(xs, k + 1);
    assert xs[..k + 1][..k] == xs[..k];
  }

  /** A sequence without duplicates is its own de-duplication. */
  lemma {:induction false} DedupOfNoDup<T(!new)>(xs: seq<T>)
    requires NoDup(xs)
    ensures Dedup(xs) == xs
    decreases |xs|
  {
    if xs != [] {
      DedupOfNoDup(xs[..|xs| - 1]);
    }
  }

  // ---------------------------------------------------------------------
  // Appending the items that are not there yet
  // ---------------------------------------------------------------------

  /** The truthy items of `items` that do not occur in `excluded`, in order. */
  function Keep(items: seq<string>, excluded: seq<string>): seq<string>
    decreases |items|
  {
    if items == [] then []
    else
      var last := items[|items| - 1];
      Keep(items[..|items| - 1], excluded) + (if last != "" && last !in excluded then [last] else [])
  }

  lemma {:induction false} KeepMembers(items: seq<string>, excluded: seq<string>)
    ensures forall x :: x in Keep(items, excluded) <==> x in items && x != "" && x !in excluded
    decreases |items|
  {
    if items != [] {
      KeepMembers(items[..|items| - 1], excluded);
      assert items == items[..|items| - 1] + [items[|items| - 1]];
    }
  }

  lemma KeepSnoc(items: seq<string>, x: string, excluded: seq<string>)
    ensures Keep(items + [x], excluded) ==
            Keep(items, excluded) + (if x != "" && x !in excluded then [x] else [])
  {
    assert (items + [x])[..|items|] == items;
  }

  lemma NonEmptySnoc(xs: seq<string>, x: string)
    ensures NonEmpty(xs + [x]) == NonEmpty(xs) + (if x != "" then [x] else [])
  {
    assert (xs + [x])[..|xs|] == xs;
  }

  /**
   * `existing` followed by each truthy item of `items` that is not yet present,
   * in the order of `items`: the result of the loop
   * `for item in items: if item and item not in existing: existing.append(item)`.
   */
  function Extend(existing: seq<string>, items: seq<string>): seq<string> {
    existing + Dedup(Keep(items, existing))
  }

  /** What the append loop promises: the old list is a prefix, nothing truthy is lost, no new duplicate appears. */
  lemma ExtendProperties(existing: seq<string>, items: seq<string>)
    ensures var r := Extend(existing, items);
            |existing| <= |r| && r[..|existing|] == existing &&
            (forall x :: x in r <==> x in existing || (x in items && x != "")) &&
            (NoDup(existing) ==> NoDup(r))
  {
    var r := Extend(existing, items);
    var tail := Dedup(Keep(items, existing));
    KeepMembers(items, existing);
    assert r[..|existing|] == existing;
    if NoDup(existing) {
      forall i, j | 0 <= i < j < |r| ensures r[i] != r[j] {
        if j >= |existing| {
          assert r[j] == tail[j - |existing|];
          if i >= |existing| {
            assert r[i] == tail[i - |existing|];
          } else {
            assert r[i] in existing;
            assert r[j] in tail;
          }
        }
      }
    }
  }

  /** ["A", "B"] extended by ["B", "C"] is ["A", "B", "C"]: the repeated "B" is not appended again. */
  lemma ExtendExample()
    ensures Extend(["A", "B"], ["B", "C"]) == ["A", "B", "C"]
  {
    var e := ["A", "B"];
    assert ["B", "C"][..1] == ["B"];
    assert [["B", "C"][0]][..0] == [];
    assert Keep(["B"], e) == [];
    assert Keep(["B", "C"], e) == ["C"];
    assert Dedup(["C"]) == ["C"];
  }

  /** Extending by one more item appends it exactly when it is truthy and new. */
  lemma ExtendSnoc(existing: seq<string>, items: seq<string>, x: string)
    ensures var r := Extend(existing, items);
            Extend(existing, items + [x]) == if x != "" && x !in r then r + [x] else r
  {
    KeepSnoc(items, x, existing);
    if x != "" && x !in existing {
      ExtendSnocCandidate(existing, items, x);
    } else {
      assert Keep(items + [x], existing) == Keep(items, existing);
    }
  }

  lemma ExtendSnocCandidate(existing: seq<string>, items: seq<string>, x: string)
    requires x != "" && x !in existing
    ensures var r := Extend(existing, items);
            Extend(existing, items + [x]) == if x !in r then r + [x] else r
  {
    var k := Keep(items, existing);
    KeepSnoc(items, x, existing);
    assert Keep(items + [x], existing) == k + [x];
    DedupSnoc(k, x);
    if x !in k {
      assert existing + (Dedup(k) + [x]) == (existing + Dedup(k)) + [x];
    }
  }

  /** The truthy de-duplication grows the same way as `Extend`. */
  lemma DedupNonEmptySnoc(q: seq<string>, x: string)
    ensures var r := Dedup(NonEmpty(q));
            Dedup(NonEmpty(q + [x])) == if x != "" && x !in r then r + [x] else r
  {
    NonEmptySnoc(q, x);
    if x != "" {
      assert NonEmpty(q + [x]) == NonEmpty(q) + [x];
      DedupSnoc(NonEmpty(q), x);
    } else {
      assert NonEmpty(q + [x]) == NonEmpty(q);
    }
  }

  /**
   * Extending the de-duplication of the truthy items of `p` by more items is the
   * de-duplication of all truthy items: folding several lists into an initially
   * empty one keeps the first occurrence of every truthy item, in order.
   */
  lemma {:induction false} ExtendDedup(p: seq<string>, items: seq<string>)
    ensures Extend(Dedup(NonEmpty(p)), items) == Dedup(NonEmpty(p + items))
    decreases |items|
  {
    var e := Dedup(NonEmpty(p));
    if items == [] {
      assert p + items == p;
      assert Keep(items, e) == [];
      assert e + [] == e;
    } else {
      var init := items[..|items| - 1];
      var x := items[|items| - 1];
      assert items == init + [x];
      assert p + items == (p + init) + [x];
      ExtendDedup(p, init);
      ExtendSnoc(e, init, x);
      DedupNonEmptySnoc(p + init, x);
    }
  }

  /** Nothing is kept when every truthy item is excluded. */
  lemma {:induction false} KeepNothing(items: seq<string>, excluded: seq<string>)
    requires forall x :: x in items && x != "" ==> x in excluded
    ensures Keep(items, excluded) == []
    decreases |items|
  {
    if items != [] {
      assert items[|items| - 1] in items;
      assert forall x :: x in items[..|items| - 1] ==> x in items;
      KeepNothing(items[..|items| - 1], excluded);
    }
  }

  /** Extending twice by the same items is extending once. */
  lemma ExtendIdempotent(existing: seq<string>, items: seq<string>)
    ensures Extend(Extend(existing, items), items) == Extend(existing, items)
  {
    var r := Extend(existing, items);
    ExtendProperties(existing, items);
    KeepNothing(items, r);
    assert r + [] == r;
  }

  lemma ExtendFromEmpty(items: seq<string>)
    ensures Extend([], items) == Dedup(NonEmpty(items))
  {
    ExtendDedup([], items);
    assert [] + items == items;
  }

  /**
   * The loop `for item in items: if item and item not in existing: existing.append(item)`
   * (used by the fallback merge and by the chunk fusion).
   */
  method ExtendList(existing: seq<string>, items: seq<string>) returns (out: seq<string>)
    ensures out == Extend(existing, items)
  {
    out := existing;
    var i := 0;
    while i < |items|
      invariant 0 <= i <= |items|
      invariant out == Extend(existing, items[..i])
    {
      var item := items[i];
      assert items[..i + 1] == items[..i] + [item];
      ExtendSnoc(existing, items[..i], item);
      if item != "" && item !in out {
        out := out + [item];
      }
      i := i + 1;
    }
    assert items[..i] == items;
  }

  // ---------------------------------------------------------------------
  // First element per key
  // ---------------------------------------------------------------------

  /** The keys of the elements of `xs`, in order. */
  function KeysOf<T, K>(xs: seq<T>, key: T -> K): (ks: seq<K>)
    ensures |ks| == |xs|
    ensures forall i :: 0 <= i < |xs| ==> ks[i] == key(xs[i])
  {
    seq(|xs|, i requires 0 <= i < |xs| => key(xs[i]))
  }

  /** The elements of `xs` whose key has not occurred earlier in `xs`, in order. */
  function FirstByKey<T(!new), K(==)>(xs: seq<T>, key: T -> K): (r: seq<T>)
    ensures |r| <= |xs|
    ensures NoDup(KeysOf(r, key))
    ensures forall x :: x in r ==> x in xs
    ensures forall x :: x in xs ==> key(x) in KeysOf(r, key)
    decreases |xs|
  {
    if xs == [] then []
    else
      var p := FirstByKey(xs[..|xs| - 1], key);
      var last := xs[|xs| - 1];
      if key(last) in KeysOf(p, key) then p
      else
        assert KeysOf(p + [last], key) == KeysOf(p, key) + [key(last)];
        p + [last]
  }

  /**
   * The loop of a clean-up pass: a set of the keys seen so far, each element
   * kept when its key is new and counted as removed otherwise.
   */
  method KeepFirstPerKey<T(!new), K(==,!new)>(xs: seq<T>, key: T -> K) returns (kept: seq<T>, removed: nat)
    ensures kept == FirstByKey(xs, key)
    ensures removed == |xs| - |kept|
  {
    kept := [];
    removed := 0;
    var seen: set<K> := {};
    for i := 0 to |xs|
      invariant kept == FirstByKey(xs[..i], key)
      invariant removed + |kept| == i
      invariant forall k :: k in seen <==> k in KeysOf(kept, key)
    {
      var x := xs[i];
      if key(x) in seen {
        KeepSeen(xs, i, kept, seen, key);
        removed := removed + 1;
      } else {
        KeepNew(xs, i, kept, seen, key);
        seen := seen + {key(x)};
        kept := kept + [x];
      }
    }
    assert xs[..|xs|] == xs;
  }

  /** A step of the clean-up pass on an element whose key was seen keeps nothing new. */
  lemma KeepSeen<T(!new), K(!new)>(xs: seq<T>, i: nat, kept: seq<T>, seen: set<K>, key: T -> K)
    requires i < |xs| && kept == FirstByKey(xs[..i], key)
    requires forall k :: k in seen <==> k in KeysOf(kept, key)
    requires key(xs[i]) in seen
    ensures FirstByKey(xs[..i + 1], key) == kept
  {
    assert xs[..i + 1] == xs[..i] + [xs[i]];
    FirstByKeySnoc(xs[..i], xs[i], key);
  }

  /** A step of the clean-up pass on an element with a new key keeps it and records its key. */
  lemma KeepNew<T(!new), K(!new)>(xs: seq<T>, i: nat, kept: seq<T>, seen: set<K>, key: T -> K)
    requires i < |xs| && kept == FirstByKey(xs[..i], key)
    requires forall k :: k in seen <==> k in KeysOf(kept, key)
    requires key(xs[i]) !in seen
    ensures FirstByKey(xs[..i + 1], key) == kept + [xs[i]]
    ensures forall k :: k in seen + {key(xs[i])} <==> k in KeysOf(kept + [xs[i]], key)
  {
    var x := xs[i];
    assert xs[..i + 1] == xs[..i] + [x];
    FirstByKeySnoc(xs[..i], x, key);
    assert KeysOf(kept + [x], key) == KeysOf(kept, key) + [key(x)];
  }

  /** `xs[k]` is the first element of `xs` with its key. */
  predicate FirstWithKey<T, K(==)>(xs: seq<T>, key: T -> K, k: int) {
    0 <= k < |xs| && forall j :: 0 <= j < k ==> key(xs[j]) != key(xs[k])
  }

  /** Appending an element keeps it exactly when its key is new. */
  lemma FirstByKeySnoc<T(!new), K>(xs: seq<T>, x: T, key: T -> K)
    ensures var p := FirstByKey(xs, key);
            FirstByKey(xs + [x], key) == if key(x) in KeysOf(p, key) then p else p + [x]
  {
    assert (xs + [x])[..|xs|] == xs;
  }

  /** Of two elements, the second is kept only when its key differs from the first's. */
  lemma FirstByKeyOfPair<T(!new), K>(a: T, b: T, key: T -> K)
    ensures FirstByKey([a, b], key) == if key(a) == key(b) then [a] else [a, b]
  {
    assert [a, b][..1] == [a];
    assert FirstByKey([a], key) == [a] by {
      assert [a][..0] == [];
    }
  }

  /** Every kept element is the first element of `xs` with its key. */
  lemma {:induction false} FirstByKeyIsFirst<T(!new), K>(xs: seq<T>, key: T -> K, i: nat)
    requires i < |FirstByKey(xs, key)|
    ensures exists k :: FirstWithKey(xs, key, k) && xs[k] == FirstByKey(xs, key)[i]
    decreases |xs|
  {
    var init, last := xs[..|xs| - 1], xs[|xs| - 1];
    assert init + [last] == xs;
    FirstByKeySnoc(init, last, key);
    var p := FirstByKey(init, key);
    var r := FirstByKey(xs, key);
    if i < |p| {
      assert r[i] == p[i];
      FirstByKeyIsFirst(init, key, i);
      var k :| FirstWithKey(init, key, k) && init[k] == p[i];
      forall j | 0 <= j < k
        ensures key(xs[j]) != key(xs[k])
      {
        assert xs[j] == init[j] && xs[k] == init[k];
      }
      assert FirstWithKey(xs, key, k);
    } else {
      assert key(last) !in KeysOf(p, key) && r == p + [last];
      forall j | 0 <= j < |xs| - 1
        ensures key(xs[j]) != key(last)
      {
        assert xs[j] == init[j];
        assert init[j] in init;
      }
      assert FirstWithKey(xs, key, |xs| - 1);
    }
  }

  /** Once every key occurs once, keeping the first element per key keeps everything. */
  lemma {:induction false} FirstByKeyOfDistinct<T(!new), K>(xs: seq<T>, key: T -> K)
    requires NoDup(KeysOf(xs, key))
    ensures FirstByKey(xs, key) == xs
    decreases |xs|
  {
    if xs != [] {
      var init := xs[..|xs| - 1];
      assert KeysOf(init, key) == KeysOf(xs, key)[..|xs| - 1];
      FirstByKeyOfDistinct(init, key);
      assert init + [xs[|xs| - 1]] == xs;
    }
  }

  // ---------------------------------------------------------------------
  // A map over the truthy strings
  // ---------------------------------------------------------------------

  /** `f` applied to every truthy string of `xs`, in order. */
  function MapTruthy(xs: seq<string>, f: string -> string): seq<string>
    decreases |xs|
  {
    if xs == [] then []
    else MapTruthy(xs[..|xs| - 1], f) + (if xs[|xs| - 1] == "" then [] else [f(xs[|xs| - 1])])
  }

  /** The values of `MapTruthy` are exactly the images of the truthy strings. */
  lemma {:induction false} MapTruthyMembers(xs: seq<string>, f: string -> string, y: string)
    ensures y in MapTruthy(xs, f) <==> exists i :: 0 <= i < |xs| && xs[i] != "" && y == f(xs[i])
    decreases |xs|
  {
    if xs != [] {
      var init := xs[..|xs| - 1];
      MapTruthyMembers(init, f, y);
      assert forall i :: 0 <= i < |init| ==> init[i] == xs[i];
      if y in MapTruthy(init, f) {
        var i :| 0 <= i < |init| && init[i] != "" && y == f(init[i]);
        assert xs[i] != "" && y == f(xs[i]);
      }
    }
  }

  /** Strings that `f` fixes and that are all truthy are mapped to themselves. */
  lemma {:induction false} MapTruthyFixed(xs: seq<string>, f: string -> string)
    requires forall i :: 0 <= i < |xs| ==> xs[i] != "" && f(xs[i]) == xs[i]
    ensures MapTruthy(xs, f) == xs
    decreases |xs|
  {
    if xs != [] {
      var init := xs[..|xs| - 1];
      assert forall i :: 0 <= i < |init| ==> init[i] == xs[i];
      MapTruthyFixed(init, f);
      assert xs == init + [xs[|xs| - 1]];
    }
  }

  // ---------------------------------------------------------------------
  // Grouping values under keys
  // ---------------------------------------------------------------------

  /** `m0` with the value of each pair appended, in order, under its key (`m.setdefault(k, []).append(v)`). */
  function Group<K(==), V>(m0: map<K, seq<V>>, pairs: seq<(K, V)>): map<K, seq<V>>
    decreases |pairs|
  {
    if pairs == [] then m0
    else
      var m := Group(m0, pairs[..|pairs| - 1]);
      var p := pairs[|pairs| - 1];
      m[p.0 := (if p.0 in m then m[p.0] else []) + [p.1]]
  }

  /** The values paired with the key `k`, in order. */
  function ValuesWithKey<K(==), V>(pairs: seq<(K, V)>, k: K): seq<V>
    decreases |pairs|
  {
    if pairs == [] then []
    else ValuesWithKey(pairs[..|pairs| - 1], k) + (if pairs[|pairs| - 1].0 == k then [pairs[|pairs| - 1].1] else [])
  }

  /**
   * Grouping into a map of empty lists: the keys are those of the map and
   * those of the pairs, and under each key are exactly its values, in order.
   */
  lemma {:induction false} GroupIs<K, V>(m0: map<K, seq<V>>, pairs: seq<(K, V)>, k: K)
    requires forall j :: j in m0 ==> m0[j] == []
    ensures var m := Group(m0, pairs);
            (k in m <==> k in m0 || exists i :: 0 <= i < |pairs| && pairs[i].0 == k) &&
            (k in m ==> m[k] == ValuesWithKey(pairs, k)) &&
            (k !in m ==> ValuesWithKey(pairs, k) == [])
    decreases |pairs|
  {
    if pairs != [] {
      var init := pairs[..|pairs| - 1];
      GroupIs(m0, init, k);
      assert forall i :: 0 <= i < |init| ==> init[i] == pairs[i];
      var p := pairs[|pairs| - 1];
      if p.0 != k && exists i :: 0 <= i < |pairs| && pairs[i].0 == k {
        var i :| 0 <= i < |pairs| && pairs[i].0 == k;
        assert i < |init| && init[i].0 == k;
      }
    }
  }

  // ---------------------------------------------------------------------
  // Filtering and order
  // ---------------------------------------------------------------------

  /** The elements of `xs` satisfying `p`, in order. */
  function Filter<T(!new)>(xs: seq<T>, p: T -> bool): (r: seq<T>)
    ensures |r| <= |xs|
    ensures forall x :: x in r <==> x in xs && p(x)
    decreases |xs|
  {
    if xs == [] then []
    else
      var init := Filter(xs[..|xs| - 1], p);
      assert forall x :: x in xs <==> x in xs[..|xs| - 1] || x == xs[|xs| - 1];
      init + (if p(xs[|xs| - 1]) then [xs[|xs| - 1]] else [])
  }

  /** Filtering what already satisfies `p` keeps everything. */
  lemma FilterAll<T(!new)>(xs: seq<T>, p: T -> bool)
    requires forall x :: x in xs ==> p(x)
    ensures Filter(xs, p) == xs
  {
    forall i | 0 <= i < |xs|
      ensures p(xs[i])
    {
      assert xs[i] in xs;
    }
    FilterAllAt(xs, p);
  }

  lemma {:induction false} FilterAllAt<T(!new)>(xs: seq<T>, p: T -> bool)
    requires forall i :: 0 <= i < |xs| ==> p(xs[i])
    ensures Filter(xs, p) == xs
    decreases |xs|
  {
    if xs != [] {
      var init, last := xs[..|xs| - 1], xs[|xs| - 1];
      forall i | 0 <= i < |init|
        ensures p(init[i])
      {
        assert init[i] == xs[i];
      }
      FilterAllAt(init, p);
      assert init + [last] == xs;
    }
  }

  /** Every element of `xs` is related by `le` to every later one. */
  predicate Ordered<T>(xs: seq<T>, le: (T, T) -> bool) {
    forall i, j :: 0 <= i < j < |xs| ==> le(xs[i], xs[j])
  }

  /** Filtering keeps the order. */
  lemma {:induction false} FilterOrdered<T(!new)>(xs: seq<T>, p: T -> bool, le: (T, T) -> bool)
    requires Ordered(xs, le)
    ensures Ordered(Filter(xs, p), le)
    decreases |xs|
  {
    if xs != [] {
      var init := xs[..|xs| - 1];
      var last := xs[|xs| - 1];
      assert Ordered(init, le) by {
        forall i, j | 0 <= i < j < |init| ensures le(init[i], init[j]) {
          assert init[i] == xs[i] && init[j] == xs[j];
        }
      }
      FilterOrdered(init, p, le);
      var f := Filter(init, p);
      forall i | 0 <= i < |f| ensures le(f[i], last) {
        assert f[i] in init;
        var m :| 0 <= m < |init| && init[m] == f[i];
        assert xs[m] == f[i];
      }
    }
  }

  /**
   * In a sequence ordered by `le`, the element kept for a key is related by
   * `le` to every other element with that key.
   */
  lemma FirstByKeyOrdered<T(!new), K>(xs: seq<T>, key: T -> K, le: (T, T) -> bool, x: T, y: T)
    requires Ordered(xs, le)
    requires x in FirstByKey(xs, key) && y in xs && key(y) == key(x)
    ensures y == x || le(x, y)
  {
    var r := FirstByKey(xs, key);
    var i :| 0 <= i < |r| && r[i] == x;
    FirstByKeyIsFirst(xs, key, i);
    var k :| FirstWithKey(xs, key, k) && xs[k] == x;
    var j :| 0 <= j < |xs| && xs[j] == y;
    assert !(j < k);
  }
}
