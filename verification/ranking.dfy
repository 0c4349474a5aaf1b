/** Picking the best and the worst group of a per-key total: the
    `Object.entries(totals).reduce(...)` idiom with a strict comparison and an
    infinite sentinel, shared by the psychology insight and the insights page. */
module Ranking {
  import opened Base
  import opened Grouping

  /** The total of `val` over the elements whose key is `k`. */
  function GroupTotal<T, K(==)>(xs: seq<T>, key: T -> K, val: T -> real, k: K): real
  {
    SumOf(Filter(xs, KeyIs(key, k)), val)
  }

  /** `acc[k] || 0` on a per-key total: the total of the elements with key `k`, which is
      0 for a key that never occurs. */
  lemma TotalLookup<T, K>(xs: seq<T>, key: T -> K, val: T -> real, k: K)
    ensures ValueOr(Lookup(SumBy(xs, key, val), k), 0.0) == GroupTotal(xs, key, val, k)
  {
    var sums := SumBy(xs, key, val);
    SumByEntries(xs, key, val);
    if k in KeysOf(sums) {
      var b :| 0 <= b < |sums| && KeysOf(sums)[b] == k;
      LookupAt(sums, b);
    } else {
      FilterNoneMatch(xs, key, k);
    }
  }

  /** Peeling the first element off changes only the total of its own key. */
  lemma GroupTotalCons<T, K>(xs: seq<T>, key: T -> K, val: T -> real, k: K)
    requires |xs| > 0
    ensures GroupTotal(xs, key, val, k)
      == (if key(xs[0]) == k then val(xs[0]) else 0.0) + GroupTotal(xs[1..], key, val, k)
  {
    var p := KeyIs(key, k);
    assert Filter(xs, p) == if p(xs[0]) then [xs[0]] + Filter(xs[1..], p) else Filter(xs[1..], p);
  }

  function Amount<K>(e: (K, real)): real { e.1 }

  /** The first index at which `x` occurs is at most any index holding `x`. */
  lemma IndexOfAtMost<T>(xs: seq<T>, i: nat)
    requires i < |xs|
    ensures 0 <= IndexOf(xs, xs[i]) <= i
  {
    var r := IndexOf(xs, xs[i]);
    assert r != -1;
    assert xs[i] !in xs[..r];
  }

  /** The per-key totals of a non-empty input are non-empty, and the entry for the
      key of `xs[i]` sits at some index `j`. */
  lemma EntryOfElement<T, K>(xs: seq<T>, key: T -> K, val: T -> real, i: nat) returns (j: nat)
    requires i < |xs|
    ensures j < |SumBy(xs, key, val)|
    ensures SumBy(xs, key, val)[j] == (key(xs[i]), GroupTotal(xs, key, val, key(xs[i])))
  {
    var sums := SumBy(xs, key, val);
    SumByEntries(xs, key, val);
    var ms := MapSeq(xs, key);
    assert ms[i] == key(xs[i]);
    assert key(xs[i]) in KeysOf(sums);
    j :| 0 <= j < |sums| && KeysOf(sums)[j] == key(xs[i]);
  }

  lemma TotalsNonEmpty<T, K>(xs: seq<T>, key: T -> K, val: T -> real)
    requires |xs| > 0
    ensures |SumBy(xs, key, val)| > 0
  {
    var _ := EntryOfElement(xs, key, val, 0);
  }

  /** The running-maximum reduction over the per-key totals: the group whose total
      is largest, the earliest-seen group on a tie. */
  function BestGroup<T, K(==)>(xs: seq<T>, key: T -> K, val: T -> real): (e: (K, real))
    requires |xs| > 0
    ensures e.0 in MapSeq(xs, key)
    ensures e.1 == GroupTotal(xs, key, val, e.0)
  {
    var sums := SumBy(xs, key, val);
    TotalsNonEmpty(xs, key, val);
    SumByEntries(xs, key, val);
    var b := ArgMaxFirst(sums, Amount);
    assert sums[b].0 == KeysOf(sums)[b];
    sums[b]
  }

  /** No group totals more than the best one, and a group that ties with it was first
      seen no earlier. */
  lemma BestGroupIsMaximal<T, K>(xs: seq<T>, key: T -> K, val: T -> real, i: nat)
    requires i < |xs|
    ensures GroupTotal(xs, key, val, key(xs[i])) <= BestGroup(xs, key, val).1
    ensures GroupTotal(xs, key, val, key(xs[i])) == BestGroup(xs, key, val).1 ==>
      IndexOf(MapSeq(xs, key), BestGroup(xs, key, val).0) <= i
  {
    var sums := SumBy(xs, key, val);
    var ms := MapSeq(xs, key);
    var j := EntryOfElement(xs, key, val, i);
    var b := ArgMaxFirst(sums, Amount);
    assert Amount(sums[j]) <= Amount(sums[b]);
    if sums[j].1 == sums[b].1 {
      SumByEntries(xs, key, val);
      DistinctFirstOccurrenceOrder(ms);
      assert ms[i] == key(xs[i]);
      IndexOfAtMost(ms, i);
      assert b <= j;
      if b < j {
        assert KeysOf(sums)[b] == sums[b].0 && KeysOf(sums)[j] == sums[j].0;
        assert IndexOf(ms, sums[b].0) < IndexOf(ms, sums[j].0);
      }
    }
  }

  /** The mirror image with `<`: the group whose total is smallest, the earliest-seen
      group on a tie. */
  function WorstGroup<T, K(==)>(xs: seq<T>, key: T -> K, val: T -> real): (e: (K, real))
    requires |xs| > 0
    ensures e.0 in MapSeq(xs, key)
    ensures e.1 == GroupTotal(xs, key, val, e.0)
  {
    var sums := SumBy(xs, key, val);
    TotalsNonEmpty(xs, key, val);
    SumByEntries(xs, key, val);
    var b := ArgMinFirst(sums, Amount);
    assert sums[b].0 == KeysOf(sums)[b];
    sums[b]
  }

  lemma WorstGroupIsMinimal<T, K>(xs: seq<T>, key: T -> K, val: T -> real, i: nat)
    requires i < |xs|
    ensures WorstGroup(xs, key, val).1 <= GroupTotal(xs, key, val, key(xs[i]))
    ensures GroupTotal(xs, key, val, key(xs[i])) == WorstGroup(xs, key, val).1 ==>
      IndexOf(MapSeq(xs, key), WorstGroup(xs, key, val).0) <= i
  {
    var sums := SumBy(xs, key, val);
    var ms := MapSeq(xs, key);
    var j := EntryOfElement(xs, key, val, i);
    var b := ArgMinFirst(sums, Amount);
    assert Amount(sums[b]) <= Amount(sums[j]);
    if sums[j].1 == sums[b].1 {
      SumByEntries(xs, key, val);
      DistinctFirstOccurrenceOrder(ms);
      assert ms[i] == key(xs[i]);
      IndexOfAtMost(ms, i);
      assert b <= j;
      if b < j {
        assert KeysOf(sums)[b] == sums[b].0 && KeysOf(sums)[j] == sums[j].0;
        assert IndexOf(ms, sums[b].0) < IndexOf(ms, sums[j].0);
      }
    }
  }

  /** The best group is what the source's left fold over the totals returns. */
  lemma BestGroupIsFold<T, K>(xs: seq<T>, key: T -> K, val: T -> real)
    requires |xs| > 0
    ensures MaxFold(SumBy(xs, key, val), Amount, None) == Some(BestGroup(xs, key, val))
  {
    TotalsNonEmpty(xs, key, val);
    MaxFoldIsArgMaxFirst(SumBy(xs, key, val), Amount);
  }

  lemma WorstGroupIsFold<T, K>(xs: seq<T>, key: T -> K, val: T -> real)
    requires |xs| > 0
    ensures MinFold(SumBy(xs, key, val), Amount, None) == Some(WorstGroup(xs, key, val))
  {
    TotalsNonEmpty(xs, key, val);
    MinFoldIsArgMinFirst(SumBy(xs, key, val), Amount);
  }

  /** The totals of the keys in `names`, added up. */
  function TotalOver<T, K(==)>(xs: seq<T>, key: T -> K, val: T -> real, names: seq<K>): real
    decreases |names|
  {
    if |names| == 0 then 0.0 else GroupTotal(xs, key, val, names[0]) + TotalOver(xs, key, val, names[1..])
  }

  lemma {:induction false} TotalOverEmpty<T, K>(key: T -> K, val: T -> real, names: seq<K>)
    ensures TotalOver([], key, val, names) == 0.0
    decreases |names|
  {
    if |names| > 0 {
      TotalOverEmpty(key, val, names[1..]);
    }
  }

  /** Peeling the first element off removes its value from the total over `names`
      exactly when its key is one of the (distinct) names. */
  lemma {:induction false} TotalOverCons<T, K>(xs: seq<T>, key: T -> K, val: T -> real, names: seq<K>)
    requires |xs| > 0 && NoDuplicates(names)
    ensures TotalOver(xs, key, val, names)
      == (if key(xs[0]) in names then val(xs[0]) else 0.0) + TotalOver(xs[1..], key, val, names)
    decreases |names|
  {
    if |names| > 0 {
      assert NoDuplicates(names[1..]);
      TotalOverCons(xs, key, val, names[1..]);
      GroupTotalCons(xs, key, val, names[0]);
      assert key(xs[0]) in names <==> key(xs[0]) == names[0] || key(xs[0]) in names[1..] by {
        assert names == [names[0]] + names[1..];
      }
      assert key(xs[0]) == names[0] ==> key(xs[0]) !in names[1..];
    }
  }

  /** Distinct names that cover every key split the grand total without loss. */
  lemma {:induction false} TotalOverCovers<T, K>(xs: seq<T>, key: T -> K, val: T -> real, names: seq<K>)
    requires NoDuplicates(names)
    requires forall i :: 0 <= i < |xs| ==> key(xs[i]) in names
    ensures TotalOver(xs, key, val, names) == SumOf(xs, val)
    decreases |xs|
  {
    if |xs| == 0 {
      TotalOverEmpty(key, val, names);
    } else {
      assert forall i :: 0 <= i < |xs[1..]| ==> xs[1..][i] == xs[i + 1];
      TotalOverCovers(xs[1..], key, val, names);
      TotalOverCons(xs, key, val, names);
    }
  }

  /** A list of bars, one per name and holding that name's total, adds up to the
      total over the names. */
  lemma {:induction false} BarsTotal<T, K>(bars: seq<(K, real)>, xs: seq<T>, key: T -> K, val: T -> real, names: seq<K>)
    requires |bars| == |names|
    requires forall k :: 0 <= k < |bars| ==> bars[k] == (names[k], GroupTotal(xs, key, val, names[k]))
    ensures TotalValue(bars) == TotalOver(xs, key, val, names)
    decreases |names|
  {
    if |names| > 0 {
      BarsTotal(bars[1..], xs, key, val, names[1..]);
    }
  }
}
