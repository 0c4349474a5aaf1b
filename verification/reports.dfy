/** The four report charts: P&L per instrument, P&L per weekday, the win/loss
    split, and the running P&L over the trades sorted by date. */
module Reports {
  import opened Base
  import opened Strings
  import opened Gregorian
  import opened Grouping
  import opened Trades
  import opened Ranking

  function InstrumentOf(t: Trade): string { t.instrument }

  // ---------------------------------------------------------------------------
  // P&L by instrument

  /** `acc[instrument] = (acc[instrument] || 0) + pnl`, read back with `Object.entries`:
      one `(name, value)` slice per instrument, in order of first appearance. */
  function PnlByInstrument(data: seq<Trade>): (r: seq<(string, real)>)
    ensures KeysOf(r) == Distinct(MapSeq(data, InstrumentOf))
    ensures forall i :: 0 <= i < |r| ==> r[i].1 == SumOf(Filter(data, KeyIs(InstrumentOf, r[i].0)), PnlOf)
  {
    SumByEntries(data, InstrumentOf, PnlOf);
    SumBy(data, InstrumentOf, PnlOf)
  }

  /** The slices of the instrument pie add up to the total P&L. */
  lemma PnlByInstrumentTotal(data: seq<Trade>)
    ensures TotalValue(PnlByInstrument(data)) == SumOf(data, PnlOf)
  {
    SumByPreservesTotal(data, InstrumentOf, PnlOf);
  }

  // ---------------------------------------------------------------------------
  // P&L by weekday

  /** `new Date(date + 'T00:00:00').toLocaleString('en-us', {weekday: 'short'})`:
      "Sun".."Sat", or "Invalid Date" when the date cannot be read. */
  function ShortDayOf(t: Trade): string
  {
    WeekdayLabel(t.date, ShortWeekdayNames)
  }

  /** One bar per weekday, always Sun..Sat, each the P&L of the trades on that
      weekday and 0 for a weekday without trades. */
  function PnlByWeekday(data: seq<Trade>): (r: seq<(string, real)>)
    ensures |r| == 7
    ensures forall k :: 0 <= k < 7 ==> r[k].0 == ShortWeekdayNames[k]
    ensures forall k :: 0 <= k < 7 ==> r[k].1 == SumOf(Filter(data, KeyIs(ShortDayOf, ShortWeekdayNames[k])), PnlOf)
  {
    var sums := SumBy(data, ShortDayOf, PnlOf);
    var r := seq(7, k requires 0 <= k < 7 => (ShortWeekdayNames[k], ValueOr(Lookup(sums, ShortWeekdayNames[k]), 0.0)));
    forall k | 0 <= k < 7
      ensures r[k].1 == SumOf(Filter(data, KeyIs(ShortDayOf, ShortWeekdayNames[k])), PnlOf)
    {
      TotalLookup(data, ShortDayOf, PnlOf, ShortWeekdayNames[k]);
    }
    r
  }

  predicate DatesReadable(data: seq<Trade>)
  {
    forall i :: 0 <= i < |data| ==> ParseIsoDate(data[i].date).Some?
  }

  lemma ShortNamesDistinct()
    ensures NoDuplicates(ShortWeekdayNames)
  {
    var n := ShortWeekdayNames;
    assert forall i :: 0 <= i < 7 ==> |n[i]| == 3;
    assert n[0][..2] == "Su" && n[1][..2] == "Mo" && n[2][..2] == "Tu" && n[3][..2] == "We";
    assert n[4][..2] == "Th" && n[5][..2] == "Fr" && n[6][..2] == "Sa";
  }

  /** When every date is readable, no trade falls outside the seven bars: they add up to the total. */
  lemma PnlByWeekdayTotal(data: seq<Trade>)
    requires DatesReadable(data)
    ensures TotalValue(PnlByWeekday(data)) == SumOf(data, PnlOf)
  {
    ShortNamesDistinct();
    forall i | 0 <= i < |data|
      ensures ShortDayOf(data[i]) in ShortWeekdayNames
    {
      assert WeekdayOfDateString(data[i].date).Some?;
    }
    BarsTotal(PnlByWeekday(data), data, ShortDayOf, PnlOf, ShortWeekdayNames);
    TotalOverCovers(data, ShortDayOf, PnlOf, ShortWeekdayNames);
  }

  // ---------------------------------------------------------------------------
  // Wins and losses

  predicate IsWin(t: Trade) { t.pnl > 0.0 }
  predicate IsLoss(t: Trade) { t.pnl < 0.0 }
  predicate IsBreakeven(t: Trade) { t.pnl == 0.0 }

  /** Every trade is exactly one of a win, a loss or a breakeven. */
  lemma {:induction false} OutcomesPartition(data: seq<Trade>)
    ensures Count(data, IsWin) + Count(data, IsLoss) + Count(data, IsBreakeven) == |data|
    decreases |data|
  {
    if |data| > 0 {
      OutcomesPartition(data[1..]);
    }
  }

  /** The three slices Wins, Losses, Breakeven in that order, keeping only those with a positive count. */
  function WinLossChart(data: seq<Trade>): (r: seq<(string, nat)>)
    ensures forall i :: 0 <= i < |r| ==> r[i].1 > 0
    ensures ("Wins", Count(data, IsWin)) in r <==> Count(data, IsWin) > 0
    ensures ("Losses", Count(data, IsLoss)) in r <==> Count(data, IsLoss) > 0
    ensures ("Breakeven", Count(data, IsBreakeven)) in r <==> Count(data, IsBreakeven) > 0
    ensures IsSubseq(r, [("Wins", Count(data, IsWin)), ("Losses", Count(data, IsLoss)),
                         ("Breakeven", Count(data, IsBreakeven))])
  {
    var all := [("Wins", Count(data, IsWin)), ("Losses", Count(data, IsLoss)),
                ("Breakeven", Count(data, IsBreakeven))];
    var r := Filter(all, IsShown);
    ThreeSlices(all, r);
    r
  }

  /** `.filter(d => d.value > 0)`: a slice is drawn only when it counts something. */
  predicate IsShown(d: (string, nat))
  {
    d.1 > 0
  }

  lemma ThreeSlices(all: seq<(string, nat)>, r: seq<(string, nat)>)
    requires |all| == 3 && r == Filter(all, IsShown)
    ensures r == (if all[0].1 > 0 then [all[0]] else []) + (if all[1].1 > 0 then [all[1]] else [])
      + (if all[2].1 > 0 then [all[2]] else [])
  {
    assert all == [all[0], all[1], all[2]];
    FilterThree(all[0], all[1], all[2], IsShown);
  }

  function SliceValue(d: (string, nat)): real { d.1 as real }

  /** The visible slices still account for every trade. */
  lemma WinLossChartTotal(data: seq<Trade>)
    ensures SumOf(WinLossChart(data), SliceValue) == |data| as real
  {
    OutcomesPartition(data);
    var all := [("Wins", Count(data, IsWin)), ("Losses", Count(data, IsLoss)),
                ("Breakeven", Count(data, IsBreakeven))];
    ShownTotal(all);
  }

  /** Hiding the empty slices of three does not change their total. */
  lemma ShownTotal(all: seq<(string, nat)>)
    requires |all| == 3
    ensures SumOf(Filter(all, IsShown), SliceValue) == (all[0].1 + all[1].1 + all[2].1) as real
  {
    ThreeSlices(all, Filter(all, IsShown));
    var a, b, c := (if all[0].1 > 0 then [all[0]] else []), (if all[1].1 > 0 then [all[1]] else []),
      (if all[2].1 > 0 then [all[2]] else []);
    SumOfAppend(a + b, c, SliceValue);
    SumOfAppend(a, b, SliceValue);
  }

  // ---------------------------------------------------------------------------
  // Sorting by date

  /** `new Date(date).getTime()` in days: the day number of a `YYYY-MM-DD` date, none otherwise (NaN). */
  function DateTime(t: Trade): Option<int>
  {
    match ParseIsoDate(t.date)
    case Some(d) => Some(DayNumber(d))
    case None => None
  }

  /** The comparator `time(a) - time(b)` is positive: `a` comes strictly later. A NaN
      difference (an unreadable time on either side) reads as 0, i.e. "equal". */
  predicate Later<T>(time: T -> Option<int>, a: T, b: T)
  {
    time(a).Some? && time(b).Some? && time(a).value > time(b).value
  }

  /** Places `x` in front of the first element it does not come strictly later than. */
  function Insert<T>(time: T -> Option<int>, x: T, s: seq<T>): (r: seq<T>)
    ensures |r| == |s| + 1
    ensures multiset(r) == multiset([x]) + multiset(s)
    ensures forall i :: 0 <= i < |r| ==> r[i] == x || r[i] in s
    decreases |s|
  {
    if |s| == 0 || !Later(time, x, s[0]) then [x] + s
    else
      assert s == [s[0]] + s[1..];
      [s[0]] + Insert(time, x, s[1..])
  }

  /** A stable insertion sort by time. */
  function SortByTime<T>(xs: seq<T>, time: T -> Option<int>): (r: seq<T>)
    ensures |r| == |xs|
    ensures multiset(r) == multiset(xs)
    ensures forall i :: 0 <= i < |r| ==> r[i] in xs
    decreases |xs|
  {
    if |xs| == 0 then []
    else
      assert xs == [xs[0]] + xs[1..];
      Insert(time, xs[0], SortByTime(xs[1..], time))
  }

  ghost predicate SortedByTime<T>(s: seq<T>, time: T -> Option<int>)
  {
    forall i, j :: 0 <= i < j < |s| ==> !Later(time, s[i], s[j])
  }

  ghost predicate AllTimed<T>(s: seq<T>, time: T -> Option<int>)
  {
    forall i :: 0 <= i < |s| ==> time(s[i]).Some?
  }

  lemma {:induction false} InsertSorted<T>(time: T -> Option<int>, x: T, s: seq<T>)
    requires time(x).Some? && AllTimed(s, time) && SortedByTime(s, time)
    ensures SortedByTime(Insert(time, x, s), time)
    decreases |s|
  {
    if |s| > 0 && Later(time, x, s[0]) {
      InsertSorted(time, x, s[1..]);
      var r := Insert(time, x, s);
      var t := Insert(time, x, s[1..]);
      assert r == [s[0]] + t;
      forall j | 1 <= j < |r|
        ensures !Later(time, r[0], r[j])
      {
        assert r[j] == t[j - 1];
        if t[j - 1] != x {
          var m :| 0 <= m < |s[1..]| && s[1..][m] == t[j - 1];
          assert s[m + 1] == r[j];
        }
      }
    } else if |s| > 0 {
      var r := [x] + s;
      forall j | 1 <= j < |r|
        ensures !Later(time, r[0], r[j])
      {
        if j > 1 {
          assert !Later(time, s[0], s[j - 1]);
        }
      }
    }
  }

  /** With every time readable, the sorted copy is in ascending time order. */
  lemma {:induction false} SortByTimeSorted<T>(xs: seq<T>, time: T -> Option<int>)
    requires AllTimed(xs, time)
    ensures SortedByTime(SortByTime(xs, time), time)
    decreases |xs|
  {
    if |xs| > 0 {
      SortByTimeSorted(xs[1..], time);
      InsertSorted(time, xs[0], SortByTime(xs[1..], time));
    }
  }

  /** Elements already in time order come back unchanged. */
  lemma {:induction false} SortByTimeKeepsSorted<T>(xs: seq<T>, time: T -> Option<int>)
    requires SortedByTime(xs, time)
    ensures SortByTime(xs, time) == xs
    decreases |xs|
  {
    if |xs| > 0 {
      SortByTimeKeepsSorted(xs[1..], time);
      if |xs| > 1 {
        assert !Later(time, xs[0], xs[1]);
      }
    }
  }

  /** The test "has time `k`", for any reading of a time, unreadable included. */
  function TimeIs<T>(time: T -> Option<int>, k: Option<int>): T -> bool
  {
    x => time(x) == k
  }

  /** Inserting `x` puts it in front of every element with the same time. */
  lemma {:induction false} InsertStable<T>(time: T -> Option<int>, x: T, s: seq<T>, k: Option<int>)
    ensures Filter(Insert(time, x, s), TimeIs(time, k))
      == (if time(x) == k then [x] else []) + Filter(s, TimeIs(time, k))
    decreases |s|
  {
    var p := TimeIs(time, k);
    if |s| > 0 && Later(time, x, s[0]) {
      var t := Insert(time, x, s[1..]);
      InsertStable(time, x, s[1..], k);
      assert Insert(time, x, s) == [s[0]] + t;
      assert s == [s[0]] + s[1..];
      FilterPast(s[0], t, s[1..], if time(x) == k then [x] else [], p);
    } else {
      FilterCons(x, s, p);
    }
  }

  /** Putting an element that `p` rejects whenever `pre` is non-empty in front of both
      sides keeps `pre` at the front of the filtered list. */
  lemma FilterPast<T>(a: T, t: seq<T>, u: seq<T>, pre: seq<T>, p: T -> bool)
    requires Filter(t, p) == pre + Filter(u, p)
    requires pre != [] ==> !p(a)
    ensures Filter([a] + t, p) == pre + Filter([a] + u, p)
  {
    FilterCons(a, t, p);
    FilterCons(a, u, p);
    var ft, fu := Filter(t, p), Filter(u, p);
    if p(a) {
      assert pre == [] && ft == fu;
      assert Filter([a] + t, p) == [a] + ft;
      assert Filter([a] + u, p) == [a] + fu;
    } else {
      assert Filter([a] + t, p) == ft;
      assert Filter([a] + u, p) == fu;
    }
  }

  lemma FilterCons<T>(a: T, t: seq<T>, p: T -> bool)
    ensures Filter([a] + t, p) == if p(a) then [a] + Filter(t, p) else Filter(t, p)
  {
    assert ([a] + t)[1..] == t;
  }

  /** Stability: the elements sharing any one time keep their relative order. */
  lemma {:induction false} SortByTimeStable<T>(xs: seq<T>, time: T -> Option<int>, k: Option<int>)
    ensures Filter(SortByTime(xs, time), TimeIs(time, k)) == Filter(xs, TimeIs(time, k))
    decreases |xs|
  {
    if |xs| > 0 {
      SortByTimeStable(xs[1..], time, k);
      InsertStable(time, xs[0], SortByTime(xs[1..], time), k);
      FilterCons(xs[0], xs[1..], TimeIs(time, k));
      assert xs == [xs[0]] + xs[1..];
    }
  }

  lemma {:induction false} InsertSum<T>(time: T -> Option<int>, x: T, s: seq<T>, val: T -> real)
    ensures SumOf(Insert(time, x, s), val) == val(x) + SumOf(s, val)
    decreases |s|
  {
    if |s| > 0 && Later(time, x, s[0]) {
      InsertSum(time, x, s[1..], val);
    }
  }

  /** Sorting moves elements around but keeps their total. */
  lemma {:induction false} SortByTimeSum<T>(xs: seq<T>, time: T -> Option<int>, val: T -> real)
    ensures SumOf(SortByTime(xs, time), val) == SumOf(xs, val)
    decreases |xs|
  {
    if |xs| > 0 {
      SortByTimeSum(xs[1..], time, val);
      InsertSum(time, xs[0], SortByTime(xs[1..], time), val);
    }
  }

  /** `[...data].sort((a, b) => new Date(a.date).getTime() - new Date(b.date).getTime())`. */
  function SortByDate(data: seq<Trade>): (r: seq<Trade>)
    ensures multiset(r) == multiset(data)
    ensures DatesReadable(data) ==> SortedByTime(r, DateTime)
    ensures SortedByTime(data, DateTime) ==> r == data
    ensures forall k :: Filter(r, TimeIs(DateTime, k)) == Filter(data, TimeIs(DateTime, k))
  {
    SortByDateOrder(data);
    forall k
      ensures Filter(SortByTime(data, DateTime), TimeIs(DateTime, k)) == Filter(data, TimeIs(DateTime, k))
    {
      SortByTimeStable(data, DateTime, k);
    }
    SortByTime(data, DateTime)
  }

  lemma SortByDateOrder(data: seq<Trade>)
    ensures DatesReadable(data) ==> SortedByTime(SortByTime(data, DateTime), DateTime)
    ensures SortedByTime(data, DateTime) ==> SortByTime(data, DateTime) == data
  {
    if DatesReadable(data) {
      SortByTimeSorted(data, DateTime);
    }
    if SortedByTime(data, DateTime) {
      SortByTimeKeepsSorted(data, DateTime);
    }
  }

  // ---------------------------------------------------------------------------
  // Cumulative P&L

  /** A point of the area chart. */
  datatype Point = Point(name: string, pnl: real)

  /** The label of the `n`-th point, counted from 1. */
  function PointName(n: nat): string
  {
    "Trade " + NatToString(n)
  }

  /** The `map` with a running total over the date-sorted copy: point `i` is named
      "Trade i+1" and carries the P&L of the first `i + 1` sorted trades. The input
      sequence itself is a value and is left as it was. */
  method CumulativePnl(data: seq<Trade>) returns (points: seq<Point>)
    ensures |points| == |data|
    ensures forall i :: 0 <= i < |points| ==> points[i].name == PointName(i + 1)
    ensures forall i :: 0 <= i < |points| ==> points[i].pnl == SumOf(SortByTime(data, DateTime)[..i + 1], PnlOf)
    ensures |points| > 0 ==> points[|points| - 1].pnl == SumOf(data, PnlOf)
  {
    var sorted := SortByTime(data, DateTime);
    points := RunningPoints(sorted);
    if |sorted| > 0 {
      assert sorted[..|sorted|] == sorted;
      SortByTimeSum(data, DateTime, PnlOf);
    }
  }

  /** The running total over trades already in chart order. */
  method RunningPoints(sorted: seq<Trade>) returns (points: seq<Point>)
    ensures |points| == |sorted|
    ensures forall i :: 0 <= i < |points| ==> points[i] == Point(PointName(i + 1), SumOf(sorted[..i + 1], PnlOf))
  {
    var running := 0.0;
    points := [];
    var i := 0;
    while i < |sorted|
      invariant 0 <= i <= |sorted|
      invariant |points| == i
      invariant running == SumOf(sorted[..i], PnlOf)
      invariant forall j :: 0 <= j < i ==> points[j] == Point(PointName(j + 1), SumOf(sorted[..j + 1], PnlOf))
    {
      SumOfSnoc(sorted[..i + 1], PnlOf);
      assert sorted[..i + 1][..i] == sorted[..i];
      running := running + sorted[i].pnl;
      points := points + [Point(PointName(i + 1), running)];
      i := i + 1;
    }
  }

  // ---------------------------------------------------------------------------
  // The fixture trades

  lemma DateTimeOfFormatted(t: Trade, d: CivilDate)
    requires IsValid(d) && 0 <= d.year <= 9999 && t.date == FormatIsoDate(d)
    ensures DateTime(t) == Some(DayNumber(d))
  {
    ParseFormat(d);
  }

  lemma SampleDate(i: nat, d: CivilDate)
    requires i < 3 && IsValid(d) && 0 <= d.year <= 9999
    requires SampleTrades[i].date == FormatIsoDate(d)
    ensures DateTime(SampleTrades[i]) == Some(DayNumber(d))
  {
    DateTimeOfFormatted(SampleTrades[i], d);
  }

  /** Three elements whose times are known and ascending are already sorted. */
  lemma ThreeInOrder<T>(time: T -> Option<int>, a: T, b: T, c: T)
    requires time(a).Some? && time(b).Some? && time(c).Some?
    requires time(a).value <= time(b).value <= time(c).value
    ensures SortByTime([a, b, c], time) == [a, b, c]
  {
    var s := [a, b, c];
    assert SortedByTime(s, time);
    SortByTimeKeepsSorted(s, time);
  }

  /** The sample trades are already in date order, so sorting keeps them as they are. */
  lemma SampleTradesSorted()
    ensures SortByTime(SampleTrades, DateTime) == SampleTrades
  {
    var d0, d1, d2 := CivilDate(2024, 6, 5), CivilDate(2024, 6, 13), CivilDate(2024, 6, 20);
    assert FormatIsoDate(d0) == "2024-06-05";
    assert FormatIsoDate(d1) == "2024-06-13";
    assert FormatIsoDate(d2) == "2024-06-20";
    SampleDate(0, d0);
    SampleDate(1, d1);
    SampleDate(2, d2);
    assert DayNumber(d0) < DayNumber(d1) < DayNumber(d2);
    ThreeInOrder(DateTime, SampleTrades[0], SampleTrades[1], SampleTrades[2]);
  }

  /** On the three sample trades the running P&L is 1050, 412, 1592. */
  lemma SampleRunningPnl()
    ensures var s := SortByTime(SampleTrades, DateTime);
      SumOf(s[..1], PnlOf) == 1050.0 && SumOf(s[..2], PnlOf) == 412.0 && SumOf(s[..3], PnlOf) == 1592.0
  {
    SampleTradesSorted();
    SamplePnls();
    PrefixSumsOfThree(SampleTrades, PnlOf);
  }

  lemma SamplePnls()
    ensures |SampleTrades| == 3
    ensures PnlOf(SampleTrades[0]) == 1050.0 && PnlOf(SampleTrades[1]) == -638.0 && PnlOf(SampleTrades[2]) == 1180.0
  {
  }

  lemma PrefixSumsOfThree<T>(s: seq<T>, val: T -> real)
    requires |s| == 3
    ensures SumOf(s[..1], val) == val(s[0])
    ensures SumOf(s[..2], val) == val(s[0]) + val(s[1])
    ensures SumOf(s[..3], val) == val(s[0]) + val(s[1]) + val(s[2])
  {
    assert s[..1] == [s[0]];
    assert s[..2] == [s[0], s[1]];
    assert s[..3] == [s[0], s[1], s[2]];
    RunningSumsOfThree(s[0], s[1], s[2], val);
  }

  lemma RunningSumsOfThree<T>(a: T, b: T, c: T, val: T -> real)
    ensures SumOf([a], val) == val(a)
    ensures SumOf([a, b], val) == val(a) + val(b)
    ensures SumOf([a, b, c], val) == val(a) + val(b) + val(c)
  {
    assert [a, b, c][1..] == [b, c];
    assert [a, b][1..] == [b];
    assert [b, c][1..] == [c];
    assert SumOf([c], val) == val(c) + SumOf([], val);
    assert SumOf([b], val) == val(b) + SumOf([], val);
  }

  lemma CountThree<T>(a: T, b: T, c: T, p: T -> bool)
    ensures Count([a, b, c], p) == (if p(a) then 1 else 0) + (if p(b) then 1 else 0) + (if p(c) then 1 else 0)
  {
    assert [a, b, c][1..] == [b, c];
    assert [b, c][1..] == [c];
    assert [c][1..] == [];
    assert Count([c], p) == (if p(c) then 1 else 0) + Count([], p);
    assert Count([b, c], p) == (if p(b) then 1 else 0) + Count([c], p);
  }

  /** On the three sample trades the win/loss chart shows two wins and one loss, no breakeven slice. */
  lemma SampleWinLoss()
    ensures WinLossChart(SampleTrades) == [("Wins", 2), ("Losses", 1)]
  {
    var s := SampleTrades;
    assert s == [s[0], s[1], s[2]];
    assert s[0].pnl == 1050.0 && s[1].pnl == -638.0 && s[2].pnl == 1180.0;
    CountThree(s[0], s[1], s[2], IsWin);
    CountThree(s[0], s[1], s[2], IsLoss);
    CountThree(s[0], s[1], s[2], IsBreakeven);
    var all := [("Wins", Count(s, IsWin)), ("Losses", Count(s, IsLoss)), ("Breakeven", Count(s, IsBreakeven))];
    assert Count(s, IsWin) == 2;
    assert Count(s, IsLoss) == 1;
    assert Count(s, IsBreakeven) == 0;
    ThreeSlices(all, WinLossChart(s));
    assert WinLossChart(s) == [all[0]] + [all[1]] + [];
  }
}
