/** The group-by reductions the components build with `reduce` into a plain
    object (`acc[key] = ...`) and then read back with `Object.entries`: keys
    come out in the order they were first inserted. An association list
    `seq<(K, V)>` in insertion order models such an object. */
module Grouping {
  import opened Base

  function KeysOf<K, V>(es: seq<(K, V)>): (r: seq<K>)
    ensures |r| == |es|
    ensures forall i :: 0 <= i < |es| ==> r[i] == es[i].0
  {
    seq(|es|, i requires 0 <= i < |es| => es[i].0)
  }

  function MapSeq<T, U>(xs: seq<T>, f: T -> U): (r: seq<U>)
    ensures |r| == |xs|
    ensures forall i :: 0 <= i < |xs| ==> r[i] == f(xs[i])
  {
    seq(|xs|, i requires 0 <= i < |xs| => f(xs[i]))
  }

  predicate NoDuplicates<K(==)>(ks: seq<K>)
  {
    forall i, j :: 0 <= i < j < |ks| ==> ks[i] != ks[j]
  }

  /** The predicate "has key `k`", named so that every use denotes the same function. */
  function KeyIs<T, K(==)>(key: T -> K, k: K): T -> bool
  {
    x => key(x) == k
  }

  /** The entry stored under `k`, if any (`acc[k]`). */
  function Lookup<K(==), V>(es: seq<(K, V)>, k: K): (r: Option<V>)
    ensures r.Some? <==> k in KeysOf(es)
    decreases |es|
  {
    if |es| == 0 then None
    else if es[0].0 == k then Some(es[0].1)
    else
      assert KeysOf(es) == [es[0].0] + KeysOf(es[1..]);
      Lookup(es[1..], k)
  }

  lemma {:induction false} LookupAt<K, V>(es: seq<(K, V)>, i: nat)
    requires i < |es| && NoDuplicates(KeysOf(es))
    ensures Lookup(es, es[i].0) == Some(es[i].1)
    decreases i
  {
    if i > 0 {
      assert KeysOf(es[1..]) == KeysOf(es)[1..];
      LookupAt(es[1..], i - 1);
    }
  }

  lemma {:induction false} IndexOfAppend<K>(ks: seq<K>, y: K, x: K)
    ensures IndexOf(ks + [y], x) == if x in ks then IndexOf(ks, x) else if x == y then |ks| else -1
    decreases |ks|
  {
    if |ks| > 0 && ks[0] != x {
      assert (ks + [y])[1..] == ks[1..] + [y];
      IndexOfAppend(ks[1..], y, x);
    }
  }

  /** `[...new Set(ks)]`: each distinct element once, in order of first occurrence. */
  function Distinct<K(==)>(ks: seq<K>): (r: seq<K>)
    ensures NoDuplicates(r)
    ensures forall i :: 0 <= i < |r| ==> r[i] in ks
    ensures forall i :: 0 <= i < |ks| ==> ks[i] in r
    decreases |ks|
  {
    if |ks| == 0 then []
    else
      var d := Distinct(ks[..|ks| - 1]);
      var k := ks[|ks| - 1];
      DistinctStep(ks, d);
      if k in d then d else d + [k]
  }

  lemma {:induction false} DistinctStep<K>(ks: seq<K>, d: seq<K>)
    requires |ks| > 0
    requires NoDuplicates(d)
    requires forall i :: 0 <= i < |d| ==> d[i] in ks[..|ks| - 1]
    requires forall i :: 0 <= i < |ks| - 1 ==> ks[i] in d
    ensures var r := if ks[|ks| - 1] in d then d else d + [ks[|ks| - 1]];
      && NoDuplicates(r)
      && (forall i :: 0 <= i < |r| ==> r[i] in ks)
      && (forall i :: 0 <= i < |ks| ==> ks[i] in r)
  {
    var init, k := ks[..|ks| - 1], ks[|ks| - 1];
    assert ks == init + [k];
    var r := if k in d then d else d + [k];
    forall i | 0 <= i < |r|
      ensures r[i] in ks
    {
      if i < |d| {
        assert d[i] in init;
      }
    }
  }

  /** The distinct elements come out in the order of their first occurrence. */
  lemma {:induction false} DistinctFirstOccurrenceOrder<K>(ks: seq<K>)
    ensures var r := Distinct(ks);
      forall i, j :: 0 <= i < j < |r| ==> IndexOf(ks, r[i]) < IndexOf(ks, r[j])
    decreases |ks|
  {
    if |ks| > 0 {
      var init, k := ks[..|ks| - 1], ks[|ks| - 1];
      DistinctFirstOccurrenceOrder(init);
      DistinctSnoc(ks);
      assert ks == init + [k];
      forall i, j | 0 <= i < j < |Distinct(ks)|
        ensures IndexOf(init + [k], Distinct(ks)[i]) < IndexOf(init + [k], Distinct(ks)[j])
      {
        DistinctOrderPair(init, k, Distinct(init), i, j);
      }
    }
  }

  lemma DistinctSnoc<K>(ks: seq<K>)
    requires |ks| > 0
    ensures var d := Distinct(ks[..|ks| - 1]);
      Distinct(ks) == if ks[|ks| - 1] in d then d else d + [ks[|ks| - 1]]
  {
  }

  lemma DistinctOrderPair<K>(init: seq<K>, k: K, d: seq<K>, i: nat, j: nat)
    requires d == Distinct(init)
    requires forall i, j :: 0 <= i < j < |d| ==> IndexOf(init, d[i]) < IndexOf(init, d[j])
    requires var r := if k in d then d else d + [k]; i < j < |r|
    ensures var r := if k in d then d else d + [k];
      IndexOf(init + [k], r[i]) < IndexOf(init + [k], r[j])
  {
    var r := if k in d then d else d + [k];
    IndexOfAppend(init, k, r[i]);
    IndexOfAppend(init, k, r[j]);
    assert r[i] in init;
  }

  // ---------------------------------------------------------------------------
  // Buckets: `acc[key(x)] ||= []; acc[key(x)].push(x)`

  /** Pushes `x` onto the bucket for `k`, creating the bucket at the end if it is new. */
  function AddTo<K(==), T>(g: seq<(K, seq<T>)>, k: K, x: T): seq<(K, seq<T>)>
    decreases |g|
  {
    if |g| == 0 then [(k, [x])]
    else if g[0].0 == k then [(k, g[0].1 + [x])] + g[1..]
    else [g[0]] + AddTo(g[1..], k, x)
  }

  /** Adding to an existing key keeps the key list; a new key goes at the end. */
  lemma {:induction false} AddToKeys<K, T>(g: seq<(K, seq<T>)>, k: K, x: T)
    ensures KeysOf(AddTo(g, k, x)) == if k in KeysOf(g) then KeysOf(g) else KeysOf(g) + [k]
    decreases |g|
  {
    if |g| > 0 {
      var rest := KeysOf(g[1..]);
      assert g == [g[0]] + g[1..];
      KeysOfCons(g[0], g[1..]);
      if g[0].0 != k {
        AddToKeys(g[1..], k, x);
        KeysOfCons(g[0], AddTo(g[1..], k, x));
        assert (k in KeysOf(g)) == (k in rest);
        if k !in rest {
          assert [g[0].0] + (rest + [k]) == ([g[0].0] + rest) + [k];
        }
      } else {
        KeysOfCons((k, g[0].1 + [x]), g[1..]);
      }
    }
  }

  lemma KeysOfCons<K, V>(e: (K, V), es: seq<(K, V)>)
    ensures KeysOf([e] + es) == [e.0] + KeysOf(es)
  {
  }

  /** A new key gets a fresh one-element bucket appended after the others. */
  lemma {:induction false} AddToNew<K, T>(g: seq<(K, seq<T>)>, k: K, x: T)
    requires k !in KeysOf(g)
    ensures AddTo(g, k, x) == g + [(k, [x])]
    decreases |g|
  {
    if |g| > 0 {
      assert KeysOf(g) == [g[0].0] + KeysOf(g[1..]);
      AddToNew(g[1..], k, x);
      assert g == [g[0]] + g[1..];
    }
  }

  /** With distinct keys, only the bucket for `k` grows, by `x` at its end. */
  lemma {:induction false} AddToBucket<K, T>(g: seq<(K, seq<T>)>, k: K, x: T, i: nat)
    requires NoDuplicates(KeysOf(g)) && i < |g|
    ensures i < |AddTo(g, k, x)|
    ensures AddTo(g, k, x)[i] == (g[i].0, if g[i].0 == k then g[i].1 + [x] else g[i].1)
    decreases i
  {
    if g[0].0 == k {
      if i > 0 {
        assert KeysOf(g)[0] != KeysOf(g)[i];
      }
    } else if i > 0 {
      assert KeysOf(g[1..]) == KeysOf(g)[1..];
      AddToBucket(g[1..], k, x, i - 1);
    }
  }

  /** `xs.reduce((acc, x) => { (acc[key(x)] ||= []).push(x); return acc }, {})`:
      one bucket per distinct key, in first-occurrence order, each holding the
      elements with that key in their original order. */
  function GroupBy<T, K(==)>(xs: seq<T>, key: T -> K): (g: seq<(K, seq<T>)>)
    ensures KeysOf(g) == Distinct(MapSeq(xs, key))
    ensures forall i :: 0 <= i < |g| ==> g[i].1 == Filter(xs, KeyIs(key, g[i].0))
    decreases |xs|
  {
    if |xs| == 0 then []
    else
      var prev := GroupBy(xs[..|xs| - 1], key);
      GroupByStep(xs, key, prev);
      AddTo(prev, key(xs[|xs| - 1]), xs[|xs| - 1])
  }

  lemma {:induction false} GroupByStep<T, K>(xs: seq<T>, key: T -> K, prev: seq<(K, seq<T>)>)
    requires |xs| > 0
    requires KeysOf(prev) == Distinct(MapSeq(xs[..|xs| - 1], key))
    requires forall i :: 0 <= i < |prev| ==> prev[i].1 == Filter(xs[..|xs| - 1], KeyIs(key, prev[i].0))
    ensures var g := AddTo(prev, key(xs[|xs| - 1]), xs[|xs| - 1]);
      && KeysOf(g) == Distinct(MapSeq(xs, key))
      && forall i :: 0 <= i < |g| ==> g[i].1 == Filter(xs, KeyIs(key, g[i].0))
  {
    var g := AddTo(prev, key(xs[|xs| - 1]), xs[|xs| - 1]);
    KeysStep(xs, key, prev);
    forall i | 0 <= i < |g|
      ensures g[i].1 == Filter(xs, KeyIs(key, g[i].0))
    {
      BucketStep(xs, key, prev, i);
    }
  }

  lemma {:induction false} KeysStep<T, K>(xs: seq<T>, key: T -> K, prev: seq<(K, seq<T>)>)
    requires |xs| > 0
    requires KeysOf(prev) == Distinct(MapSeq(xs[..|xs| - 1], key))
    ensures KeysOf(AddTo(prev, key(xs[|xs| - 1]), xs[|xs| - 1])) == Distinct(MapSeq(xs, key))
  {
    var ks := MapSeq(xs, key);
    assert ks[..|xs| - 1] == MapSeq(xs[..|xs| - 1], key);
    assert ks[|ks| - 1] == key(xs[|xs| - 1]);
    AddToKeys(prev, key(xs[|xs| - 1]), xs[|xs| - 1]);
  }

  lemma {:induction false} BucketStep<T, K>(xs: seq<T>, key: T -> K, prev: seq<(K, seq<T>)>, i: nat)
    requires |xs| > 0
    requires KeysOf(prev) == Distinct(MapSeq(xs[..|xs| - 1], key))
    requires forall i :: 0 <= i < |prev| ==> prev[i].1 == Filter(xs[..|xs| - 1], KeyIs(key, prev[i].0))
    requires i < |AddTo(prev, key(xs[|xs| - 1]), xs[|xs| - 1])|
    ensures var g := AddTo(prev, key(xs[|xs| - 1]), xs[|xs| - 1]);
      g[i].1 == Filter(xs, KeyIs(key, g[i].0))
  {
    var init, x := xs[..|xs| - 1], xs[|xs| - 1];
    var g := AddTo(prev, key(x), x);
    AddToKeys(prev, key(x), x);
    FilterSnoc(xs, KeyIs(key, g[i].0));
    if i < |prev| {
      AddToBucket(prev, key(x), x, i);
    } else {
      AddToNew(prev, key(x), x);
      assert g[i] == (key(x), [x]);
      FilterNoneMatch(init, key, key(x));
    }
  }

  lemma {:induction false} FilterSnoc<T>(xs: seq<T>, p: T -> bool)
    requires |xs| > 0
    ensures Filter(xs, p) == Filter(xs[..|xs| - 1], p) + if p(xs[|xs| - 1]) then [xs[|xs| - 1]] else []
  {
    assert xs == xs[..|xs| - 1] + [xs[|xs| - 1]];
    FilterAppend(xs[..|xs| - 1], [xs[|xs| - 1]], p);
  }

  lemma {:induction false} FilterNoneMatch<T, K>(xs: seq<T>, key: T -> K, k: K)
    requires k !in Distinct(MapSeq(xs, key))
    ensures Filter(xs, KeyIs(key, k)) == []
  {
  }

  /** The sum of the bucket sizes. */
  function TotalSize<K, T>(g: seq<(K, seq<T>)>): nat
    decreases |g|
  {
    if |g| == 0 then 0 else |g[0].1| + TotalSize(g[1..])
  }

  lemma {:induction false} TotalSizeAddTo<K, T>(g: seq<(K, seq<T>)>, k: K, x: T)
    requires NoDuplicates(KeysOf(g))
    ensures TotalSize(AddTo(g, k, x)) == TotalSize(g) + 1
    decreases |g|
  {
    if |g| > 0 && g[0].0 != k {
      assert KeysOf(g[1..]) == KeysOf(g)[1..];
      TotalSizeAddTo(g[1..], k, x);
      assert AddTo(g, k, x)[1..] == AddTo(g[1..], k, x);
    } else if |g| > 0 {
      assert AddTo(g, k, x)[1..] == g[1..];
    }
  }

  /** Every element lands in exactly one bucket: the bucket sizes add up to the input size. */
  lemma {:induction false} GroupByPartitions<T, K>(xs: seq<T>, key: T -> K)
    ensures TotalSize(GroupBy(xs, key)) == |xs|
    decreases |xs|
  {
    if |xs| > 0 {
      GroupByPartitions(xs[..|xs| - 1], key);
      TotalSizeAddTo(GroupBy(xs[..|xs| - 1], key), key(xs[|xs| - 1]), xs[|xs| - 1]);
    }
  }

  /** The bucket of an element's key holds it; each bucket is non-empty. */
  lemma {:induction false} GroupByBucketOf<T, K>(xs: seq<T>, key: T -> K, i: nat)
    requires i < |xs|
    ensures exists b :: (0 <= b < |GroupBy(xs, key)| && GroupBy(xs, key)[b].0 == key(xs[i])
      && xs[i] in GroupBy(xs, key)[b].1)
  {
    var g := GroupBy(xs, key);
    assert MapSeq(xs, key)[i] == key(xs[i]);
    var b :| 0 <= b < |g| && KeysOf(g)[b] == key(xs[i]);
    assert xs[i] in Filter(xs, KeyIs(key, g[b].0));
  }

  // ---------------------------------------------------------------------------
  // Sums: `acc[key(x)] = (acc[key(x)] || 0) + val(x)`

  /** Adds `v` to the running total for `k`, appending a new total if `k` is new. */
  function AddAmount<K(==)>(es: seq<(K, real)>, k: K, v: real): seq<(K, real)>
    decreases |es|
  {
    if |es| == 0 then [(k, v)]
    else if es[0].0 == k then [(k, es[0].1 + v)] + es[1..]
    else [es[0]] + AddAmount(es[1..], k, v)
  }

  /** The entries `es` are the bucket sums of `g`. */
  ghost predicate SumsOf<K, T>(es: seq<(K, real)>, g: seq<(K, seq<T>)>, val: T -> real)
  {
    |es| == |g| && forall i :: 0 <= i < |g| ==> es[i] == (g[i].0, SumOf(g[i].1, val))
  }

  lemma {:induction false} AddAmountMirrorsAddTo<K, T>(
    es: seq<(K, real)>, g: seq<(K, seq<T>)>, k: K, x: T, val: T -> real)
    requires SumsOf(es, g, val) && NoDuplicates(KeysOf(g))
    ensures SumsOf(AddAmount(es, k, val(x)), AddTo(g, k, x), val)
    decreases |g|
  {
    if |g| == 0 {
      assert SumOf([x], val) == val(x) + SumOf([x][1..], val);
    } else if g[0].0 == k {
      SumOfAppend(g[0].1, [x], val);
      assert SumOf([x], val) == val(x) + SumOf([x][1..], val);
    } else {
      assert SumsOf(es[1..], g[1..], val);
      assert KeysOf(g[1..]) == KeysOf(g)[1..];
      AddAmountMirrorsAddTo(es[1..], g[1..], k, x, val);
    }
  }

  /** `xs.reduce((acc, x) => { acc[key(x)] = (acc[key(x)] || 0) + val(x); ... }, {})`
      read back with `Object.entries`: the total of `val` per key, with the keys
      in first-occurrence order. */
  function SumBy<T, K(==)>(xs: seq<T>, key: T -> K, val: T -> real): (r: seq<(K, real)>)
    ensures SumsOf(r, GroupBy(xs, key), val)
    decreases |xs|
  {
    if |xs| == 0 then []
    else
      var init, x := xs[..|xs| - 1], xs[|xs| - 1];
      var prev := SumBy(init, key, val);
      AddAmountMirrorsAddTo(prev, GroupBy(init, key), key(x), x, val);
      AddAmount(prev, key(x), val(x))
  }

  /** Each distinct key gets one entry, first-occurrence order, holding that key's total. */
  lemma {:induction false} SumByEntries<T, K>(xs: seq<T>, key: T -> K, val: T -> real)
    ensures KeysOf(SumBy(xs, key, val)) == Distinct(MapSeq(xs, key))
    ensures forall i :: 0 <= i < |SumBy(xs, key, val)| ==>
      SumBy(xs, key, val)[i].1 == SumOf(Filter(xs, KeyIs(key, SumBy(xs, key, val)[i].0)), val)
  {
    var r, g := SumBy(xs, key, val), GroupBy(xs, key);
    assert KeysOf(r) == KeysOf(g);
  }

  /** The sum of an association list's values. */
  function TotalValue<K>(es: seq<(K, real)>): real
    decreases |es|
  {
    if |es| == 0 then 0.0 else es[0].1 + TotalValue(es[1..])
  }

  lemma {:induction false} TotalValueAddAmount<K>(es: seq<(K, real)>, k: K, v: real)
    ensures TotalValue(AddAmount(es, k, v)) == TotalValue(es) + v
    decreases |es|
  {
    if |es| > 0 && es[0].0 != k {
      TotalValueAddAmount(es[1..], k, v);
    }
  }

  /** The per-key totals add up to the grand total: no amount is lost or counted twice. */
  lemma {:induction false} SumByPreservesTotal<T, K>(xs: seq<T>, key: T -> K, val: T -> real)
    ensures TotalValue(SumBy(xs, key, val)) == SumOf(xs, val)
    decreases |xs|
  {
    if |xs| > 0 {
      var init, x := xs[..|xs| - 1], xs[|xs| - 1];
      SumByPreservesTotal(init, key, val);
      TotalValueAddAmount(SumBy(init, key, val), key(x), val(x));
      SumOfSnoc(xs, val);
    }
  }

  lemma {:induction false} SumOfSnoc<T>(xs: seq<T>, val: T -> real)
    requires |xs| > 0
    ensures SumOf(xs, val) == SumOf(xs[..|xs| - 1], val) + val(xs[|xs| - 1])
  {
    assert xs == xs[..|xs| - 1] + [xs[|xs| - 1]];
    SumOfAppend(xs[..|xs| - 1], [xs[|xs| - 1]], val);
    assert SumOf([xs[|xs| - 1]], val) == val(xs[|xs| - 1]) + SumOf([xs[|xs| - 1]][1..], val);
  }

  /** Counting per key, `acc[key(x)] = (acc[key(x)] || 0) + 1`: the bucket sizes. */
  function CountBy<T, K(==)>(xs: seq<T>, key: T -> K): (r: seq<(K, nat)>)
    ensures KeysOf(r) == Distinct(MapSeq(xs, key))
    ensures forall i :: 0 <= i < |r| ==> r[i].1 == |Filter(xs, KeyIs(key, r[i].0))|
  {
    var g := GroupBy(xs, key);
    var r := seq(|g|, i requires 0 <= i < |g| => (g[i].0, |g[i].1|));
    assert KeysOf(r) == KeysOf(g);
    r
  }

  /** The sum of the counts. */
  function TotalCount<K>(es: seq<(K, nat)>): nat
    decreases |es|
  {
    if |es| == 0 then 0 else es[0].1 + TotalCount(es[1..])
  }

  lemma {:induction false} TotalCountOfSizes<K, T>(es: seq<(K, nat)>, g: seq<(K, seq<T>)>)
    requires |es| == |g| && forall i :: 0 <= i < |g| ==> es[i].1 == |g[i].1|
    ensures TotalCount(es) == TotalSize(g)
    decreases |g|
  {
    if |g| > 0 {
      TotalCountOfSizes(es[1..], g[1..]);
    }
  }

  /** Every key that occurs is counted at least once, and the counts add up to the input size. */
  lemma CountByTotal<T, K>(xs: seq<T>, key: T -> K)
    ensures forall i :: 0 <= i < |CountBy(xs, key)| ==> CountBy(xs, key)[i].1 >= 1
    ensures TotalCount(CountBy(xs, key)) == |xs|
  {
    var r, g := CountBy(xs, key), GroupBy(xs, key);
    assert KeysOf(r) == KeysOf(g);
    forall i | 0 <= i < |r|
      ensures r[i].1 == |g[i].1| && r[i].1 >= 1
    {
      assert r[i].0 == KeysOf(r)[i] == KeysOf(g)[i] == g[i].0;
      var j :| 0 <= j < |xs| && MapSeq(xs, key)[j] == r[i].0;
      assert KeyIs(key, r[i].0)(xs[j]);
    }
    TotalCountOfSizes(r, g);
    GroupByPartitions(xs, key);
  }

  // ---------------------------------------------------------------------------
  // Best and worst entries

  /** `entries.reduce((best, e) => score(e) > score(best) ? e : best, sentinel)` where the
      sentinel scores -Infinity, so the first entry always replaces it: the index of
      the first entry with the largest score. */
  function ArgMaxFirst<T>(xs: seq<T>, score: T -> real): (i: nat)
    requires |xs| > 0
    ensures i < |xs|
    ensures forall j :: 0 <= j < |xs| ==> score(xs[j]) <= score(xs[i])
    ensures forall j :: 0 <= j < i ==> score(xs[j]) < score(xs[i])
    decreases |xs|
  {
    if |xs| == 1 then 0
    else
      var b := ArgMaxFirst(xs[..|xs| - 1], score);
      if score(xs[|xs| - 1]) > score(xs[b]) then |xs| - 1 else b
  }

  /** The mirror image with `<` and a +Infinity sentinel: the first entry with the smallest score. */
  function ArgMinFirst<T>(xs: seq<T>, score: T -> real): (i: nat)
    requires |xs| > 0
    ensures i < |xs|
    ensures forall j :: 0 <= j < |xs| ==> score(xs[i]) <= score(xs[j])
    ensures forall j :: 0 <= j < i ==> score(xs[i]) < score(xs[j])
    decreases |xs|
  {
    if |xs| == 1 then 0
    else
      var b := ArgMinFirst(xs[..|xs| - 1], score);
      if score(xs[|xs| - 1]) < score(xs[b]) then |xs| - 1 else b
  }

  /** The first-maximum index is the only index that scores at least as much as every
      entry and strictly more than every earlier one. */
  lemma ArgMaxFirstUnique<T>(xs: seq<T>, score: T -> real, i: nat)
    requires i < |xs|
    requires forall j :: 0 <= j < |xs| ==> score(xs[j]) <= score(xs[i])
    requires forall j :: 0 <= j < i ==> score(xs[j]) < score(xs[i])
    ensures ArgMaxFirst(xs, score) == i
  {
  }

  /** The mirror image for the first minimum. */
  lemma ArgMinFirstUnique<T>(xs: seq<T>, score: T -> real, i: nat)
    requires i < |xs|
    requires forall j :: 0 <= j < |xs| ==> score(xs[i]) <= score(xs[j])
    requires forall j :: 0 <= j < i ==> score(xs[i]) < score(xs[j])
    ensures ArgMinFirst(xs, score) == i
  {
  }

  /** The reduction as the source writes it, a left fold whose running best starts at a
      sentinel (`None`, scoring -Infinity) that any entry replaces; later entries replace
      the running best only when they score strictly more. */
  function MaxFold<T>(xs: seq<T>, score: T -> real, best: Option<T>): Option<T>
    decreases |xs|
  {
    if |xs| == 0 then best
    else MaxFold(xs[1..], score, if best.None? || score(xs[0]) > score(best.value) then Some(xs[0]) else best)
  }

  lemma {:induction false} MaxFoldSnoc<T>(xs: seq<T>, y: T, score: T -> real, best: Option<T>)
    ensures var m := MaxFold(xs, score, best);
      MaxFold(xs + [y], score, best) == if m.None? || score(y) > score(m.value) then Some(y) else m
    decreases |xs|
  {
    if |xs| > 0 {
      assert (xs + [y])[1..] == xs[1..] + [y];
      MaxFoldSnoc(xs[1..], y, score,
        if best.None? || score(xs[0]) > score(best.value) then Some(xs[0]) else best);
    }
  }

  /** The fold picks the entry at the first-maximum index. */
  lemma {:induction false} MaxFoldIsArgMaxFirst<T>(xs: seq<T>, score: T -> real)
    requires |xs| > 0
    ensures MaxFold(xs, score, None) == Some(xs[ArgMaxFirst(xs, score)])
    decreases |xs|
  {
    if |xs| > 1 {
      var init := xs[..|xs| - 1];
      MaxFoldIsArgMaxFirst(init, score);
      MaxFoldSnoc(init, xs[|xs| - 1], score, None);
      assert init + [xs[|xs| - 1]] == xs;
    }
  }

  /** The mirror image with `<` and a +Infinity sentinel. */
  function MinFold<T>(xs: seq<T>, score: T -> real, worst: Option<T>): Option<T>
    decreases |xs|
  {
    if |xs| == 0 then worst
    else MinFold(xs[1..], score, if worst.None? || score(xs[0]) < score(worst.value) then Some(xs[0]) else worst)
  }

  lemma {:induction false} MinFoldSnoc<T>(xs: seq<T>, y: T, score: T -> real, worst: Option<T>)
    ensures var m := MinFold(xs, score, worst);
      MinFold(xs + [y], score, worst) == if m.None? || score(y) < score(m.value) then Some(y) else m
    decreases |xs|
  {
    if |xs| > 0 {
      assert (xs + [y])[1..] == xs[1..] + [y];
      MinFoldSnoc(xs[1..], y, score,
        if worst.None? || score(xs[0]) < score(worst.value) then Some(xs[0]) else worst);
    }
  }

  lemma {:induction false} MinFoldIsArgMinFirst<T>(xs: seq<T>, score: T -> real)
    requires |xs| > 0
    ensures MinFold(xs, score, None) == Some(xs[ArgMinFirst(xs, score)])
    decreases |xs|
  {
    if |xs| > 1 {
      var init := xs[..|xs| - 1];
      MinFoldIsArgMinFirst(init, score);
      MinFoldSnoc(init, xs[|xs| - 1], score, None);
      assert init + [xs[|xs| - 1]] == xs;
    }
  }

  /** Two lists with the same scores position by position have the same first minimum. */
  lemma {:induction false} ArgMinFirstCongruent<T, U>(xs: seq<T>, f: T -> real, ys: seq<U>, g: U -> real)
    requires |xs| == |ys| > 0
    requires forall i :: 0 <= i < |xs| ==> f(xs[i]) == g(ys[i])
    ensures ArgMinFirst(xs, f) == ArgMinFirst(ys, g)
    decreases |xs|
  {
    if |xs| > 1 {
      ArgMinFirstCongruent(xs[..|xs| - 1], f, ys[..|ys| - 1], g);
    }
  }
}
