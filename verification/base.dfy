/** Shared vocabulary of the trading-journal model: optional values and the
    order-preserving sequence reductions (filter, sum, flatten, index search)
    that the dashboard components apply to their lists of trades. */
module Base {

  /** A value that may be absent, like an `undefined` property or a missing map entry. */
  datatype Option<+T> = None | Some(value: T)

  function ValueOr<T>(o: Option<T>, default: T): T
  {
    match o
    case Some(v) => v
    case None => default
  }

  /** `a` is a subsequence of `b`: `a` can be obtained from `b` by deleting elements. */
  ghost predicate IsSubseq<T>(a: seq<T>, b: seq<T>)
    decreases |b|
  {
    |a| == 0 || (|b| > 0 && ((a[0] == b[0] && IsSubseq(a[1..], b[1..])) || IsSubseq(a, b[1..])))
  }

  lemma {:induction false} SubseqRefl<T>(a: seq<T>)
    ensures IsSubseq(a, a)
    decreases |a|
  {
    if |a| > 0 {
      SubseqRefl(a[1..]);
    }
  }

  lemma {:induction false} SubseqTrans<T>(a: seq<T>, b: seq<T>, c: seq<T>)
    requires IsSubseq(a, b) && IsSubseq(b, c)
    ensures IsSubseq(a, c)
    decreases |c|
  {
    if |a| > 0 {
      assert |c| > 0;
      if b[0] == c[0] && IsSubseq(b[1..], c[1..]) {
        if a[0] == b[0] && IsSubseq(a[1..], b[1..]) {
          SubseqTrans(a[1..], b[1..], c[1..]);
        } else {
          SubseqTrans(a, b[1..], c[1..]);
        }
      } else {
        SubseqTrans(a, b, c[1..]);
      }
    }
  }

  /** The number of elements of `xs` satisfying `p`. */
  function Count<T>(xs: seq<T>, p: T -> bool): nat
    decreases |xs|
  {
    if |xs| == 0 then 0 else (if p(xs[0]) then 1 else 0) + Count(xs[1..], p)
  }

  /** `xs.filter(p)`: the elements satisfying `p`, in their original order. */
  function Filter<T>(xs: seq<T>, p: T -> bool): (r: seq<T>)
    ensures |r| <= |xs|
    ensures forall i :: 0 <= i < |r| ==> r[i] in xs && p(r[i])
    ensures forall i :: 0 <= i < |xs| && p(xs[i]) ==> xs[i] in r
    ensures |r| == Count(xs, p)
    ensures IsSubseq(r, xs)
    decreases |xs|
  {
    if |xs| == 0 then []
    else
      var rest := Filter(xs[1..], p);
      assert xs == [xs[0]] + xs[1..];
      if p(xs[0]) then [xs[0]] + rest else rest
  }

  lemma FilterSingle<T>(x: T, p: T -> bool)
    ensures Filter([x], p) == if p(x) then [x] else []
  {
    assert [x][1..] == [];
  }

  lemma FilterThree<T>(x: T, y: T, z: T, p: T -> bool)
    ensures Filter([x, y, z], p)
      == (if p(x) then [x] else []) + (if p(y) then [y] else []) + (if p(z) then [z] else [])
  {
    assert [x, y, z] == [x] + [y] + [z];
    FilterAppend([x] + [y], [z], p);
    FilterAppend([x], [y], p);
    FilterSingle(x, p);
    FilterSingle(y, p);
    FilterSingle(z, p);
  }

  lemma {:induction false} FilterAppend<T>(xs: seq<T>, ys: seq<T>, p: T -> bool)
    ensures Filter(xs + ys, p) == Filter(xs, p) + Filter(ys, p)
    decreases |xs|
  {
    if |xs| > 0 {
      assert (xs + ys)[1..] == xs[1..] + ys;
      FilterAppend(xs[1..], ys, p);
    } else {
      assert xs + ys == ys;
    }
  }

  /** Filtering a second time with the same predicate changes nothing. */
  lemma {:induction false} FilterIdempotent<T>(xs: seq<T>, p: T -> bool)
    ensures Filter(Filter(xs, p), p) == Filter(xs, p)
    decreases |xs|
  {
    if |xs| > 0 {
      FilterIdempotent(xs[1..], p);
    }
  }

  /** Everything `p` keeps is kept by `q`, so filtering by `q` can only add elements. */
  lemma {:induction false} FilterMonotone<T>(xs: seq<T>, p: T -> bool, q: T -> bool)
    requires forall x :: x in xs && p(x) ==> q(x)
    ensures IsSubseq(Filter(xs, p), Filter(xs, q))
    decreases |xs|
  {
    if |xs| > 0 {
      FilterMonotone(xs[1..], p, q);
      var fp, fq := Filter(xs[1..], p), Filter(xs[1..], q);
      if p(xs[0]) {
        assert Filter(xs, p) == [xs[0]] + fp;
        assert Filter(xs, q) == [xs[0]] + fq;
        assert ([xs[0]] + fp)[1..] == fp;
      } else if q(xs[0]) {
        assert Filter(xs, q) == [xs[0]] + fq;
        assert ([xs[0]] + fq)[1..] == fq;
        SubseqShiftRight(fp, fq, xs[0]);
      }
    } else {
      assert Filter(xs, p) == [];
    }
  }

  lemma {:induction false} SubseqShiftRight<T>(a: seq<T>, b: seq<T>, x: T)
    requires IsSubseq(a, b)
    ensures IsSubseq(a, [x] + b)
  {
    assert ([x] + b)[1..] == b;
  }

  /** When every element satisfies `p`, filtering is the identity. */
  lemma {:induction false} FilterAll<T>(xs: seq<T>, p: T -> bool)
    requires forall x :: x in xs ==> p(x)
    ensures Filter(xs, p) == xs
    decreases |xs|
  {
    if |xs| > 0 {
      FilterAll(xs[1..], p);
      assert xs == [xs[0]] + xs[1..];
    }
  }

  /** Two predicates that agree on the elements of `xs` filter it identically. */
  lemma {:induction false} FilterCongruent<T>(xs: seq<T>, p: T -> bool, q: T -> bool)
    requires forall x :: x in xs ==> (p(x) <==> q(x))
    ensures Filter(xs, p) == Filter(xs, q)
    decreases |xs|
  {
    if |xs| > 0 {
      FilterCongruent(xs[1..], p, q);
    }
  }

  /** Sum of `val` over `xs`, left to right (the `reduce((a, t) => a + val(t), 0)` pattern). */
  function SumOf<T>(xs: seq<T>, val: T -> real): real
    decreases |xs|
  {
    if |xs| == 0 then 0.0 else val(xs[0]) + SumOf(xs[1..], val)
  }

  lemma {:induction false} SumOfAppend<T>(xs: seq<T>, ys: seq<T>, val: T -> real)
    ensures SumOf(xs + ys, val) == SumOf(xs, val) + SumOf(ys, val)
    decreases |xs|
  {
    if |xs| > 0 {
      assert (xs + ys)[1..] == xs[1..] + ys;
      SumOfAppend(xs[1..], ys, val);
    } else {
      assert xs + ys == ys;
    }
  }

  /** Splitting a sum by a predicate: the kept part plus the dropped part is the whole. */
  lemma {:induction false} SumOfFilterSplit<T>(xs: seq<T>, p: T -> bool, notP: T -> bool, val: T -> real)
    requires forall x :: notP(x) == !p(x)
    ensures SumOf(xs, val) == SumOf(Filter(xs, p), val) + SumOf(Filter(xs, notP), val)
    decreases |xs|
  {
    if |xs| > 0 {
      SumOfFilterSplit(xs[1..], p, notP, val);
    }
  }

  /** `xss.flat()`: the concatenation of the inner sequences in order. */
  function Flatten<T>(xss: seq<seq<T>>): seq<T>
    decreases |xss|
  {
    if |xss| == 0 then [] else xss[0] + Flatten(xss[1..])
  }

  lemma {:induction false} FlattenAppend<T>(xss: seq<seq<T>>, yss: seq<seq<T>>)
    ensures Flatten(xss + yss) == Flatten(xss) + Flatten(yss)
    decreases |xss|
  {
    if |xss| > 0 {
      assert (xss + yss)[1..] == xss[1..] + yss;
      FlattenAppend(xss[1..], yss);
    } else {
      assert xss + yss == yss;
    }
  }

  /** `xs.indexOf(x)`: the first position holding `x`, or -1 when there is none. */
  function IndexOf<T(==)>(xs: seq<T>, x: T): (r: int)
    ensures -1 <= r < |xs|
    ensures r == -1 <==> x !in xs
    ensures r >= 0 ==> xs[r] == x && x !in xs[..r]
    decreases |xs|
  {
    if |xs| == 0 then -1
    else if xs[0] == x then 0
    else
      var k := IndexOf(xs[1..], x);
      assert xs[1..][..(if k < 0 then 0 else k)] == xs[1..(if k < 0 then 1 else k + 1)];
      if k == -1 then -1 else k + 1
  }
}
