/** The insights page: the best trading session, the average risk-to-reward ratio
    of winning trades, and the weekday with the worst P&L. */
module InsightsPage {
  import opened Base
  import opened Strings
  import opened Gregorian
  import opened Grouping
  import opened Trades
  import opened Ranking

  function SessionOf(t: Trade): string { t.session }

  /** `new Date(date + 'T00:00:00').toLocaleString('en-us', {weekday: 'long'})`. */
  function LongDayOf(t: Trade): string
  {
    WeekdayLabel(t.date, LongWeekdayNames)
  }

  /** A weekday's record: its P&L and its number of trades. */
  datatype DayStat = DayStat(pnl: real, trades: nat)

  datatype Analysis = Analysis(bestSession: (string, real), averageRR: real, worstDay: (string, DayStat))

  /** What the page shows without trades. */
  const NoAnalysis: Analysis := Analysis(("N/A", 0.0), 0.0, ("N/A", DayStat(0.0, 0)))

  // ---------------------------------------------------------------------------
  // Risk to reward

  /** A winning trade with a non-empty `maxRR`. */
  predicate IsRatedWin(t: Trade) { t.pnl > 0.0 && t.maxRR != "" }

  /** `maxRR.split(':').length === 2`. */
  predicate HasTwoParts(t: Trade) { |Split(t.maxRR, ':')| == 2 }

  /** The ratio a trade adds to the total: `ratio(risk, reward)` of the two parts of
      `maxRR` (the source divides the parsed reward by the parsed risk), or nothing
      when `maxRR` does not have exactly two parts. */
  function RatioTerm(ratio: (string, string) -> real): Trade -> real
  {
    (t: Trade) => var parts := Split(t.maxRR, ':'); if |parts| == 2 then ratio(parts[0], parts[1]) else 0.0
  }

  /** A `maxRR` splits into exactly two parts when it holds exactly one colon. */
  lemma TwoPartsIffOneColon(t: Trade)
    ensures HasTwoParts(t) <==> multiset(t.maxRR)[':'] == 1
  {
    SplitLength(t.maxRR, ':');
  }

  function NotTwoParts(t: Trade): bool { !HasTwoParts(t) }

  lemma {:induction false} ZeroTerms<T>(xs: seq<T>, f: T -> real)
    requires forall i :: 0 <= i < |xs| ==> f(xs[i]) == 0.0
    ensures SumOf(xs, f) == 0.0
    decreases |xs|
  {
    if |xs| > 0 {
      ZeroTerms(xs[1..], f);
    }
  }

  /** When the dropped elements contribute 0, the total over the kept ones is the whole total. */
  lemma KeptTotal<T>(xs: seq<T>, keep: T -> bool, drop: T -> bool, f: T -> real)
    requires forall x :: drop(x) == !keep(x)
    requires forall i :: 0 <= i < |xs| && drop(xs[i]) ==> f(xs[i]) == 0.0
    ensures SumOf(xs, f) == SumOf(Filter(xs, keep), f)
  {
    SumOfFilterSplit(xs, keep, drop, f);
    var dropped := Filter(xs, drop);
    forall i | 0 <= i < |dropped|
      ensures f(dropped[i]) == 0.0
    {
      var j :| 0 <= j < |xs| && xs[j] == dropped[i];
    }
    ZeroTerms(dropped, f);
  }

  /** The mean ratio over the rated wins, where a `maxRR` without exactly two parts
      adds nothing but still counts; 0 when there is no rated win. */
  function AverageRR(trades: seq<Trade>, ratio: (string, string) -> real): (r: real)
    ensures Count(trades, IsRatedWin) == 0 ==> r == 0.0
    ensures var wins := Filter(trades, IsRatedWin);
      |wins| > 0 ==> r == SumOf(Filter(wins, HasTwoParts), RatioTerm(ratio)) / |wins| as real
  {
    var wins := Filter(trades, IsRatedWin);
    if |wins| > 0 then
      KeptTotal(wins, HasTwoParts, NotTwoParts, RatioTerm(ratio));
      SumOf(wins, RatioTerm(ratio)) / |wins| as real
    else 0.0
  }

  /** When no rated win has a two-part `maxRR`, the average is 0 although the wins
      are counted. */
  lemma NoWellFormedRatio(trades: seq<Trade>, ratio: (string, string) -> real)
    requires forall i :: 0 <= i < |trades| && IsRatedWin(trades[i]) ==> !HasTwoParts(trades[i])
    ensures AverageRR(trades, ratio) == 0.0
  {
    var wins := Filter(trades, IsRatedWin);
    var kept := Filter(wins, HasTwoParts);
    if |kept| > 0 {
      assert false;
    }
    assert kept == [];
  }

  // ---------------------------------------------------------------------------
  // P&L by weekday

  /** `pnlByDay`: one record per weekday seen, in first-occurrence order, with the
      P&L and the number of that weekday's trades. */
  function DayStats(trades: seq<Trade>): (r: seq<(string, DayStat)>)
    ensures KeysOf(r) == Distinct(MapSeq(trades, LongDayOf))
    ensures |r| == |SumBy(trades, LongDayOf, PnlOf)|
    ensures forall i :: 0 <= i < |r| ==>
      && r[i].1.pnl == GroupTotal(trades, LongDayOf, PnlOf, r[i].0)
      && r[i].1.trades == |Filter(trades, KeyIs(LongDayOf, r[i].0))|
      && r[i].1.pnl == SumBy(trades, LongDayOf, PnlOf)[i].1
  {
    var sums := SumBy(trades, LongDayOf, PnlOf);
    var counts := CountBy(trades, LongDayOf);
    SumsAlignWithCounts(trades);
    var r := ZipDayStats(sums, counts);
    assert KeysOf(r) == KeysOf(sums);
    r
  }

  function ZipDayStats(sums: seq<(string, real)>, counts: seq<(string, nat)>): (r: seq<(string, DayStat)>)
    requires |sums| == |counts|
    ensures |r| == |sums|
    ensures forall i :: 0 <= i < |r| ==> r[i] == (sums[i].0, DayStat(sums[i].1, counts[i].1))
  {
    seq(|sums|, i requires 0 <= i < |sums| => (sums[i].0, DayStat(sums[i].1, counts[i].1)))
  }

  /** The per-weekday totals and counts list the same weekdays in the same order. */
  lemma SumsAlignWithCounts(trades: seq<Trade>)
    ensures |SumBy(trades, LongDayOf, PnlOf)| == |CountBy(trades, LongDayOf)|
    ensures KeysOf(SumBy(trades, LongDayOf, PnlOf)) == Distinct(MapSeq(trades, LongDayOf))
    ensures forall i :: 0 <= i < |SumBy(trades, LongDayOf, PnlOf)| ==>
      && SumBy(trades, LongDayOf, PnlOf)[i].0 == CountBy(trades, LongDayOf)[i].0
      && CountBy(trades, LongDayOf)[i].1 == |Filter(trades, KeyIs(LongDayOf, SumBy(trades, LongDayOf, PnlOf)[i].0))|
      && SumBy(trades, LongDayOf, PnlOf)[i].1 == GroupTotal(trades, LongDayOf, PnlOf, SumBy(trades, LongDayOf, PnlOf)[i].0)
  {
    var sums := SumBy(trades, LongDayOf, PnlOf);
    var counts := CountBy(trades, LongDayOf);
    SumByEntries(trades, LongDayOf, PnlOf);
    assert KeysOf(sums) == KeysOf(counts);
    forall i | 0 <= i < |sums|
      ensures sums[i].0 == counts[i].0
    {
      assert sums[i].0 == KeysOf(sums)[i] == KeysOf(counts)[i] == counts[i].0;
    }
  }

  function TotalDayTrades(r: seq<(string, DayStat)>): nat
    decreases |r|
  {
    if |r| == 0 then 0 else r[0].1.trades + TotalDayTrades(r[1..])
  }

  lemma {:induction false} TotalDayTradesOfCounts(r: seq<(string, DayStat)>, counts: seq<(string, nat)>)
    requires |r| == |counts| && forall i :: 0 <= i < |r| ==> r[i].1.trades == counts[i].1
    ensures TotalDayTrades(r) == TotalCount(counts)
    decreases |r|
  {
    if |r| > 0 {
      TotalDayTradesOfCounts(r[1..], counts[1..]);
    }
  }

  /** Every trade is counted under exactly one weekday. */
  lemma DayStatsCountEveryTrade(trades: seq<Trade>)
    ensures TotalDayTrades(DayStats(trades)) == |trades|
  {
    var r, counts := DayStats(trades), CountBy(trades, LongDayOf);
    assert KeysOf(r) == KeysOf(counts);
    forall i | 0 <= i < |r|
      ensures r[i].1.trades == counts[i].1
    {
      assert r[i].0 == KeysOf(r)[i] == KeysOf(counts)[i] == counts[i].0;
    }
    TotalDayTradesOfCounts(r, counts);
    CountByTotal(trades, LongDayOf);
  }

  function DayPnl(e: (string, DayStat)): real { e.1.pnl }

  /** The reduction `current.pnl < worst.pnl ? current : worst` from a +Infinity sentinel. */
  function WorstDay(trades: seq<Trade>): (e: (string, DayStat))
    requires |trades| > 0
    ensures e.0 == WorstGroup(trades, LongDayOf, PnlOf).0
    ensures e.1 == DayStat(WorstGroup(trades, LongDayOf, PnlOf).1, |Filter(trades, KeyIs(LongDayOf, e.0))|)
  {
    WorstDayAt(trades);
    DayStats(trades)[ArgMinFirst(DayStats(trades), DayPnl)]
  }

  /** The weekday record with the first lowest P&L is the one for the worst weekday total. */
  lemma WorstDayAt(trades: seq<Trade>)
    requires |trades| > 0
    ensures |DayStats(trades)| > 0
    ensures var stats := DayStats(trades);
      var b := ArgMinFirst(stats, DayPnl);
      && stats[b].0 == WorstGroup(trades, LongDayOf, PnlOf).0
      && stats[b].1 == DayStat(WorstGroup(trades, LongDayOf, PnlOf).1, |Filter(trades, KeyIs(LongDayOf, stats[b].0))|)
  {
    var stats := DayStats(trades);
    var sums := SumBy(trades, LongDayOf, PnlOf);
    TotalsNonEmpty(trades, LongDayOf, PnlOf);
    assert forall i :: 0 <= i < |stats| ==> DayPnl(stats[i]) == Amount(sums[i]);
    ArgMinFirstCongruent(stats, DayPnl, sums, Amount);
    var b := ArgMinFirst(stats, DayPnl);
    assert WorstGroup(trades, LongDayOf, PnlOf) == sums[b];
    SumByEntries(trades, LongDayOf, PnlOf);
    assert stats[b].0 == KeysOf(stats)[b] == KeysOf(sums)[b] == sums[b].0;
  }

  // ---------------------------------------------------------------------------
  // The page

  /** The `analysis` memo: sentinels without trades, otherwise the best session by P&L,
      the average risk-to-reward and the weekday with the lowest P&L. */
  function Analyze(trades: seq<Trade>, ratio: (string, string) -> real): (a: Analysis)
    ensures |trades| == 0 ==> a == NoAnalysis
    ensures |trades| > 0 ==>
      && a.bestSession.0 in MapSeq(trades, SessionOf)
      && a.bestSession.1 == GroupTotal(trades, SessionOf, PnlOf, a.bestSession.0)
      && a.worstDay.0 in MapSeq(trades, LongDayOf)
      && a.worstDay.1.pnl == GroupTotal(trades, LongDayOf, PnlOf, a.worstDay.0)
      && a.worstDay.1.trades == |Filter(trades, KeyIs(LongDayOf, a.worstDay.0))|
      && a.averageRR == AverageRR(trades, ratio)
  {
    if |trades| == 0 then NoAnalysis
    else Analysis(BestGroup(trades, SessionOf, PnlOf), AverageRR(trades, ratio), WorstDay(trades))
  }

  /** The best session earns at least as much as every session, and a session with the
      same total was first traded no earlier. */
  lemma BestSessionIsFirstMaximum(trades: seq<Trade>, ratio: (string, string) -> real, i: nat)
    requires i < |trades|
    ensures var best := Analyze(trades, ratio).bestSession;
      && GroupTotal(trades, SessionOf, PnlOf, trades[i].session) <= best.1
      && (GroupTotal(trades, SessionOf, PnlOf, trades[i].session) == best.1 ==>
            IndexOf(MapSeq(trades, SessionOf), best.0) <= i)
  {
    BestGroupIsMaximal(trades, SessionOf, PnlOf, i);
  }

  /** No weekday does worse than the worst day, and a weekday with the same P&L was
      first traded no earlier. */
  lemma WorstDayIsFirstMinimum(trades: seq<Trade>, ratio: (string, string) -> real, i: nat)
    requires i < |trades|
    ensures var worst := Analyze(trades, ratio).worstDay;
      && worst.1.pnl <= GroupTotal(trades, LongDayOf, PnlOf, LongDayOf(trades[i]))
      && (GroupTotal(trades, LongDayOf, PnlOf, LongDayOf(trades[i])) == worst.1.pnl ==>
            IndexOf(MapSeq(trades, LongDayOf), worst.0) <= i)
  {
    WorstGroupIsMinimal(trades, LongDayOf, PnlOf, i);
  }
}
