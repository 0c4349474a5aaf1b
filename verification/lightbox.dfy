/** The screenshot lightbox of a calendar day: stepping forwards and backwards
    through the images, and the position in the day's image list that a click
    on one trade's screenshot opens at. */
module Lightbox {
  import opened Base
  import opened Grouping

  // ---------------------------------------------------------------------------
  // Stepping through the images

  /** `(prev + 1) % images.length`; the index is never negative, where the truncating
      and the Euclidean remainder agree. */
  function Next(i: nat, n: nat): (r: nat)
    requires n > 0
    ensures r < n
    ensures i < n - 1 ==> r == i + 1
    ensures i == n - 1 ==> r == 0
  {
    (i + 1) % n
  }

  /** `(prev - 1 + images.length) % images.length`. */
  function Prev(i: nat, n: nat): (r: nat)
    requires n > 0
    ensures i < n ==> r < n
    ensures 0 < i < n ==> r == i - 1
    ensures i == 0 ==> r == n - 1
  {
    (i - 1 + n) % n
  }

  /** Going forwards and back again returns to the same image. */
  lemma PrevOfNext(i: nat, n: nat)
    requires i < n
    ensures Prev(Next(i, n), n) == i
  {
  }

  lemma NextOfPrev(i: nat, n: nat)
    requires i < n
    ensures Next(Prev(i, n), n) == i
  {
  }

  /** `k` presses of the forward arrow. */
  function Forward(i: nat, n: nat, k: nat): (r: nat)
    requires n > 0
    decreases k
  {
    if k == 0 then i else Next(Forward(i, n, k - 1), n)
  }

  /** Up to `n` forward steps from a valid index land `k` places further on, wrapping
      past the last image to the first. */
  lemma {:induction false} ForwardIsShift(i: nat, n: nat, k: nat)
    requires i < n && k <= n
    ensures Forward(i, n, k) == if i + k < n then i + k else i + k - n
    decreases k
  {
    if k > 0 {
      ForwardIsShift(i, n, k - 1);
    }
  }

  /** Pressing forward once per image cycles back to the start. */
  lemma ForwardFullCycle(i: nat, n: nat)
    requires i < n
    ensures Forward(i, n, n) == i
  {
    ForwardIsShift(i, n, n);
  }

  // ---------------------------------------------------------------------------
  // The day's screenshots

  /** `day.trades.flatMap(t => t.screenshots)`. */
  function AllScreenshots<T>(trades: seq<T>, shots: T -> seq<string>): seq<string>
  {
    Flatten(MapSeq(trades, shots))
  }

  /** The number of screenshots of the first `k` trades. */
  function Offset<T>(trades: seq<T>, shots: T -> seq<string>, k: nat): nat
    requires k <= |trades|
  {
    |AllScreenshots(trades[..k], shots)|
  }

  lemma AllScreenshotsSnoc<T>(trades: seq<T>, shots: T -> seq<string>, k: nat)
    requires k < |trades|
    ensures AllScreenshots(trades[..k + 1], shots) == AllScreenshots(trades[..k], shots) + shots(trades[k])
  {
    assert MapSeq(trades[..k + 1], shots) == MapSeq(trades[..k], shots) + [shots(trades[k])];
    FlattenAppend(MapSeq(trades[..k], shots), [shots(trades[k])]);
    assert Flatten([shots(trades[k])]) == shots(trades[k]) + Flatten<string>([]);
  }

  /** The flattened list holds the `k`-th trade's screenshots right after those of the
      trades before it. */
  lemma ScreenshotsOfTrade<T>(trades: seq<T>, shots: T -> seq<string>, k: nat, local: nat)
    requires k < |trades| && local < |shots(trades[k])|
    ensures Offset(trades, shots, k) + local < |AllScreenshots(trades, shots)|
    ensures AllScreenshots(trades, shots)[Offset(trades, shots, k) + local] == shots(trades[k])[local]
  {
    AllScreenshotsSnoc(trades, shots, k);
    var front := MapSeq(trades[..k + 1], shots);
    var back := MapSeq(trades[k + 1..], shots);
    assert MapSeq(trades, shots) == front + back;
    FlattenAppend(front, back);
  }

  /** Which trade a position of the flattened list comes from, and where in that
      trade's screenshots: every image of the day belongs to exactly one click target. */
  lemma {:induction false} PositionOfScreenshot<T>(trades: seq<T>, shots: T -> seq<string>, o: nat) returns (k: nat, local: nat)
    requires o < |AllScreenshots(trades, shots)|
    ensures k < |trades| && local < |shots(trades[k])|
    ensures o == Offset(trades, shots, k) + local
    decreases |trades|
  {
    assert |trades| > 0;
    var n := |trades| - 1;
    AllScreenshotsSnoc(trades, shots, n);
    assert trades[..n + 1] == trades;
    if o < Offset(trades, shots, n) {
      assert trades[..n][..n] == trades[..n];
      k, local := PositionOfScreenshot(trades[..n], shots, o);
      assert trades[..n][..k] == trades[..k];
    } else {
      k, local := n, o - Offset(trades, shots, n);
    }
  }

  /** The reduction in `openLightbox`: the screenshots of the trades before the clicked
      trade's first occurrence, plus the position clicked within that trade. */
  method OverallIndex<T(==)>(trades: seq<T>, shots: T -> seq<string>, trade: T, local: nat) returns (overall: nat)
    ensures var p := IndexOf(trades, trade);
      overall == (if p >= 0 then Offset(trades, shots, p) else 0) + local
    ensures trade in trades && local < |shots(trade)| ==>
      && overall < |AllScreenshots(trades, shots)|
      && AllScreenshots(trades, shots)[overall] == shots(trade)[local]
  {
    var pos := IndexOf(trades, trade);
    var acc: nat := 0;
    var i := 0;
    while i < |trades|
      invariant 0 <= i <= |trades|
      invariant acc == if pos < 0 then 0 else Offset(trades, shots, if i <= pos then i else pos)
    {
      if i < pos {
        AllScreenshotsSnoc(trades, shots, i);
        acc := acc + |shots(trades[i])|;
      }
      i := i + 1;
    }
    overall := acc + local;
    if trade in trades && local < |shots(trade)| {
      ScreenshotsOfTrade(trades, shots, pos, local);
    }
  }
}
