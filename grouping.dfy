/** Keyed aggregation over a sequence of records: the key set, the keyed filter,
    `dict(Counter(key(x) for x in s))`, the `defaultdict(list)` grouping loop and
    the dict comprehension `{key(x): x for x in s}`.
    A Python dict keeps its keys in first-insertion order; a Dafny map has no
    order, so that order is given separately by KeyOrder. */
module Grouping {
  import opened Seqs

  /** The keys that occur in `s`. */
  function KeySet<T(==,!new), K(==,!new)>(s: seq<T>, key: T -> K): set<K> {
    set x | x in s :: key(x)
  }

  lemma KeySetSnoc<T(!new), K(!new)>(s: seq<T>, x: T, key: T -> K)
    ensures KeySet(s + [x], key) == KeySet(s, key) + {key(x)}
  {
    assert forall y :: y in s + [x] <==> y in s || y == x;
  }

  function KeyIs<T(==,!new), K(==,!new)>(key: T -> K, k: K): T -> bool {
    x => key(x) == k
  }

  /** The records of `s` whose key is `k`, in the order of `s`. */
  function WithKey<T(==,!new), K(==,!new)>(s: seq<T>, key: T -> K, k: K): (r: seq<T>)
    ensures IsSubsequence(r, s)
    ensures forall x :: x in r <==> x in s && key(x) == k
  {
    Filter(s, KeyIs(key, k))
  }

  lemma WithKeySnoc<T(!new), K(!new)>(s: seq<T>, x: T, key: T -> K, k: K)
    ensures WithKey(s + [x], key, k) == if key(x) == k then WithKey(s, key, k) + [x] else WithKey(s, key, k)
  {
    FilterSnoc(s, x, KeyIs(key, k));
  }

  lemma WithAbsentKey<T(!new), K(!new)>(s: seq<T>, key: T -> K, k: K)
    requires k !in KeySet(s, key)
    ensures WithKey(s, key, k) == []
  {
  }

  /** `dict(Counter(key(x) for x in s))`: counts one record at a time. */
  function CountBy<T(==,!new), K(==,!new)>(s: seq<T>, key: T -> K): (m: map<K, nat>)
    ensures m.Keys == KeySet(s, key)
    ensures forall k :: k in m ==> m[k] >= 1
  {
    if s == [] then map[]
    else
      var x := s[|s| - 1];
      var m := CountBy(s[..|s| - 1], key);
      KeySetSnoc(s[..|s| - 1], x, key);
      assert s == s[..|s| - 1] + [x];
      m[key(x) := if key(x) in m then m[key(x)] + 1 else 1]
  }

  /** The grouping of `s` by `key`, built one record at a time as the
      `defaultdict(list)` loop builds it: each key present maps to its records
      in load order. This is the specification of the GroupBy loop. */
  function Grouped<T(==,!new), K(==,!new)>(s: seq<T>, key: T -> K): (g: map<K, seq<T>>)
    ensures g.Keys == KeySet(s, key)
    ensures forall k :: k in g ==> g[k] == WithKey(s, key, k)
  {
    if s == [] then map[]
    else
      var s', x := s[..|s| - 1], s[|s| - 1];
      var g := Grouped(s', key);
      assert s == s' + [x];
      GroupStep(s', x, key, g);
      g[key(x) := (if key(x) in g then g[key(x)] else []) + [x]]
  }

  /** Appending a record to the group of its key (creating the group if
      needed) turns the grouping of `s` into the grouping of `s + [x]`. */
  lemma GroupStep<T(!new), K(!new)>(s: seq<T>, x: T, key: T -> K, g: map<K, seq<T>>)
    requires g.Keys == KeySet(s, key)
    requires forall k :: k in g ==> g[k] == WithKey(s, key, k)
    ensures var h := g[key(x) := (if key(x) in g then g[key(x)] else []) + [x]];
      h.Keys == KeySet(s + [x], key) && forall k :: k in h ==> h[k] == WithKey(s + [x], key, k)
  {
    var h := g[key(x) := (if key(x) in g then g[key(x)] else []) + [x]];
    KeySetSnoc(s, x, key);
    forall k | k in h
      ensures h[k] == WithKey(s + [x], key, k)
    {
      WithKeySnoc(s, x, key, k);
      if k == key(x) && k !in g {
        WithAbsentKey(s, key, k);
      }
    }
  }

  /** Every group is non-empty, is a load-order subsequence of `s`, and holds
      exactly the records of `s` with its key: the groups partition `s`. */
  lemma GroupsAreClasses<T(!new), K(!new)>(s: seq<T>, key: T -> K)
    ensures forall k :: k in Grouped(s, key) ==> Grouped(s, key)[k] != []
    ensures forall k :: k in Grouped(s, key) ==> IsSubsequence(Grouped(s, key)[k], s)
    ensures forall k, x :: k in Grouped(s, key) ==> (x in Grouped(s, key)[k] <==> x in s && key(x) == k)
    ensures forall x :: x in s ==> key(x) in Grouped(s, key) && x in Grouped(s, key)[key(x)]
  {
    var g := Grouped(s, key);
    forall k | k in g ensures g[k] != [] {
      var x :| x in s && key(x) == k;
      assert x in g[k];
    }
  }

  /** The `defaultdict(list)` loop: append every record to the list of its key. */
  method GroupBy<T(==,!new), K(==,!new)>(s: seq<T>, key: T -> K) returns (groups: map<K, seq<T>>)
    ensures groups == Grouped(s, key)
  {
    groups := map[];
    var i := 0;
    while i < |s|
      invariant 0 <= i <= |s|
      invariant groups == Grouped(s[..i], key)
    {
      var k := key(s[i]);
      GroupedPrefixStep(s, i, key);
      groups := groups[k := (if k in groups then groups[k] else []) + [s[i]]];
      i := i + 1;
    }
    assert s[..i] == s;
  }

  /** One step of the grouping: the next record joins the end of its key's group. */
  lemma GroupedPrefixStep<T(!new), K(!new)>(s: seq<T>, i: nat, key: T -> K)
    requires i < |s|
    ensures var g := Grouped(s[..i], key);
      Grouped(s[..i + 1], key) == g[key(s[i]) := (if key(s[i]) in g then g[key(s[i])] else []) + [s[i]]]
  {
    assert s[..i + 1][..i] == s[..i];
  }

  /** For every key, the Counter value is the length of that key's group. */
  lemma CountIsGroupSize<T(!new), K(!new)>(s: seq<T>, key: T -> K)
    ensures forall k :: k in CountBy(s, key) ==> CountBy(s, key)[k] == |Grouped(s, key)[k]|
  {
    CountIsFilterSize(s, key);
  }

  /** For every key, the Counter value is the number of records with that key. */
  lemma {:induction false} CountIsFilterSize<T(!new), K(!new)>(s: seq<T>, key: T -> K)
    ensures forall k :: k in CountBy(s, key) ==> CountBy(s, key)[k] == |WithKey(s, key, k)|
  {
    if s != [] {
      var s', x := s[..|s| - 1], s[|s| - 1];
      assert s == s' + [x];
      CountIsFilterSize(s', key);
      forall k | k in CountBy(s, key)
        ensures CountBy(s, key)[k] == |WithKey(s, key, k)|
      {
        CountStep(s', x, key, k);
      }
    }
  }

  /** One record more: its key's count and its key's filter both grow by one,
      every other key keeps its count and its filter. */
  lemma CountStep<T(!new), K(!new)>(s: seq<T>, x: T, key: T -> K, k: K)
    requires forall k :: k in CountBy(s, key) ==> CountBy(s, key)[k] == |WithKey(s, key, k)|
    requires k in CountBy(s + [x], key)
    ensures CountBy(s + [x], key)[k] == |WithKey(s + [x], key, k)|
  {
    assert (s + [x])[..|s|] == s;
    WithKeySnoc(s, x, key, k);
    if k == key(x) && k !in CountBy(s, key) {
      WithAbsentKey(s, key, k);
    }
  }

  /** `{key(x): x for x in s}`: a later record with the same key overwrites an
      earlier one, so every key maps to its LAST record in `s`. */
  function IndexBy<T(==,!new), K(==,!new)>(s: seq<T>, key: T -> K): (m: map<K, T>)
    ensures m.Keys == KeySet(s, key)
    ensures forall k :: k in m ==> exists i :: IsLastWithKey(s, key, k, i) && m[k] == s[i]
  {
    if s == [] then map[]
    else
      var s', x := s[..|s| - 1], s[|s| - 1];
      var m := IndexBy(s', key);
      KeySetSnoc(s', x, key);
      assert s == s' + [x];
      assert IsLastWithKey(s, key, key(x), |s| - 1);
      assert forall k, i :: k != key(x) && IsLastWithKey(s', key, k, i) ==> IsLastWithKey(s, key, k, i);
      m[key(x) := x]
  }

  /** `i` is the last position of `s` whose record has key `k`. */
  ghost predicate IsLastWithKey<T(!new), K(!new)>(s: seq<T>, key: T -> K, k: K, i: int) {
    0 <= i < |s| && key(s[i]) == k && forall j :: i < j < |s| ==> key(s[j]) != k
  }

  /** When no key repeats, the index holds every record under its own key. */
  lemma IndexByUnique<T(!new), K(!new)>(s: seq<T>, key: T -> K)
    requires forall i, j :: 0 <= i < j < |s| ==> key(s[i]) != key(s[j])
    ensures forall i :: 0 <= i < |s| ==> IndexBy(s, key)[key(s[i])] == s[i]
  {
    var m := IndexBy(s, key);
    forall i | 0 <= i < |s|
      ensures m[key(s[i])] == s[i]
    {
      assert s[i] in s;
      var j :| IsLastWithKey(s, key, key(s[i]), j) && m[key(s[i])] == s[j];
      assert i == j;
    }
  }

  ghost predicate Distinct<K(!new)>(ks: seq<K>) {
    forall i, j :: 0 <= i < j < |ks| ==> ks[i] != ks[j]
  }

  /** Key `k` occurs among the first `q` records of `s`. */
  ghost predicate SeenBefore<T(!new), K(!new)>(s: seq<T>, key: T -> K, k: K, q: int)
    requires 0 <= q <= |s|
  {
    k in KeySet(s[..q], key)
  }

  /** `ks` lists keys in order of first occurrence in `s`: wherever a record
      has key `ks[j]`, every earlier key `ks[i]` has already occurred. */
  ghost predicate InFirstOccurrenceOrder<T(!new), K(!new)>(s: seq<T>, key: T -> K, ks: seq<K>) {
    forall i, j, q :: 0 <= i < j < |ks| && 0 <= q < |s| && key(s[q]) == ks[j] ==>
      SeenBefore(s, key, ks[i], q)
  }

  /** The keys of `s` in order of first occurrence: the iteration order of the
      Python dicts built by the Counter and the grouping loop. */
  function KeyOrder<T(==,!new), K(==,!new)>(s: seq<T>, key: T -> K): (ks: seq<K>)
    ensures Distinct(ks)
    ensures forall k :: k in ks <==> k in KeySet(s, key)
    ensures InFirstOccurrenceOrder(s, key, ks)
  {
    if s == [] then []
    else
      var s', x := s[..|s| - 1], s[|s| - 1];
      KeySetSnoc(s', x, key);
      assert s == s' + [x];
      KeyOrderSnoc(s', x, key, KeyOrder(s', key));
      if key(x) in KeyOrder(s', key) then KeyOrder(s', key) else KeyOrder(s', key) + [key(x)]
  }

  /** One more record keeps the key list in first-occurrence order. */
  lemma KeyOrderSnoc<T(!new), K(!new)>(s: seq<T>, x: T, key: T -> K, ks: seq<K>)
    requires forall k :: k in ks <==> k in KeySet(s, key)
    requires InFirstOccurrenceOrder(s, key, ks)
    ensures InFirstOccurrenceOrder(s + [x], key, if key(x) in ks then ks else ks + [key(x)])
  {
    var s1 := s + [x];
    var ks1 := if key(x) in ks then ks else ks + [key(x)];
    forall i, j, q | 0 <= i < j < |ks1| && 0 <= q < |s1| && key(s1[q]) == ks1[j]
      ensures SeenBefore(s1, key, ks1[i], q)
    {
      assert ks1[i] == ks[i];
      if q < |s| {
        assert s1[..q] == s[..q];
        assert s1[q] == s[q];
        assert SeenBefore(s, key, ks[i], q);
      } else {
        assert s1[..q] == s;
        assert ks[i] in ks;
      }
    }
  }

  /** The sum of `m`'s values over the keys `ks`. */
  function SumOver<K(==,!new)>(m: map<K, nat>, ks: seq<K>): int
    requires forall k :: k in ks ==> k in m
  {
    if ks == [] then 0 else SumOver(m, ks[..|ks| - 1]) + m[ks[|ks| - 1]]
  }

  /** The total length of the groups of `g` listed in `ks`. */
  function TotalLength<K(==,!new), T(==,!new)>(g: map<K, seq<T>>, ks: seq<K>): int
    requires forall k :: k in ks ==> k in g
  {
    if ks == [] then 0 else TotalLength(g, ks[..|ks| - 1]) + |g[ks[|ks| - 1]]|
  }

  lemma {:induction false} SumOverAgree<K(!new)>(m: map<K, nat>, m': map<K, nat>, ks: seq<K>)
    requires forall k :: k in ks ==> k in m && k in m' && m[k] == m'[k]
    ensures SumOver(m, ks) == SumOver(m', ks)
  {
    if ks != [] {
      SumOverAgree(m, m', ks[..|ks| - 1]);
    }
  }

  lemma {:induction false} SumOverBump<K(!new)>(m: map<K, nat>, ks: seq<K>, k: K)
    requires Distinct(ks) && k in ks
    requires forall j :: j in ks ==> j in m
    ensures SumOver(m[k := m[k] + 1], ks) == SumOver(m, ks) + 1
  {
    var init, last := ks[..|ks| - 1], ks[|ks| - 1];
    assert ks == init + [last];
    if last == k {
      assert k !in init;
      SumOverAgree(m[k := m[k] + 1], m, init);
    } else {
      SumOverBump(m, init, k);
    }
  }

  /** The Counter values add up to the number of records. */
  lemma {:induction false} CountsSumToLength<T(!new), K(!new)>(s: seq<T>, key: T -> K)
    ensures SumOver(CountBy(s, key), KeyOrder(s, key)) == |s|
  {
    if s != [] {
      var s', x := s[..|s| - 1], s[|s| - 1];
      assert s == s' + [x];
      CountsSumToLength(s', key);
      var m', ks' := CountBy(s', key), KeyOrder(s', key);
      if key(x) in ks' {
        SumOverBump(m', ks', key(x));
      } else {
        var m := CountBy(s, key);
        assert KeyOrder(s, key)[..|ks'|] == ks';
        SumOverAgree(m, m', ks');
      }
    }
  }

  /** The group lengths add up to the number of records: no record is lost or
      counted twice by the grouping. */
  lemma GroupSizesSumToLength<T(!new), K(!new)>(s: seq<T>, key: T -> K)
    ensures TotalLength(Grouped(s, key), KeyOrder(s, key)) == |s|
  {
    CountIsGroupSize(s, key);
    TotalLengthIsSum(Grouped(s, key), CountBy(s, key), KeyOrder(s, key));
    CountsSumToLength(s, key);
  }

  lemma {:induction false} TotalLengthIsSum<K(!new), T(!new)>(g: map<K, seq<T>>, m: map<K, nat>, ks: seq<K>)
    requires forall k :: k in ks ==> k in g && k in m && m[k] == |g[k]|
    ensures TotalLength(g, ks) == SumOver(m, ks)
  {
    if ks != [] {
      TotalLengthIsSum(g, m, ks[..|ks| - 1]);
    }
  }
}
