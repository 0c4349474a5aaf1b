/** The psychology page: the session/instrument filter, the instrument options,
    the P&L-by-state bars, the state distribution and the written insight. */
module PsychologyPanel {
  import opened Base
  import opened Strings
  import opened Grouping
  import opened Trades
  import opened Ranking

  /** The filter value that matches everything. */
  const AllValue: string := "All"

  /** The psychology states the form offers, in the order the bar chart uses. */
  const PsychologyOptions: seq<string> := [
    "Focused", "Trusting", "Frustrated", "Anxious", "Nervous", "Tired",
    "Happy", "Sad", "Confident", "Patient", "Greedy", "Fearful"
  ]

  function StateOf(t: Trade): string { t.psychology }

  function InstrumentOf(t: Trade): string { t.instrument }

  // ---------------------------------------------------------------------------
  // Filtering

  datatype Filters = Filters(session: string, instrument: string)

  const NoFilters: Filters := Filters(AllValue, AllValue)

  /** A trade passes when each filter is "All" or equals the trade's own value. */
  predicate Matches(f: Filters, t: Trade)
  {
    (f.session == AllValue || t.session == f.session)
    && (f.instrument == AllValue || t.instrument == f.instrument)
  }

  function MatchesFilters(f: Filters): Trade -> bool
  {
    t => Matches(f, t)
  }

  /** The trades passing both filters, in their original order. */
  function FilteredTrades(trades: seq<Trade>, f: Filters): (r: seq<Trade>)
    ensures IsSubseq(r, trades)
    ensures forall i :: 0 <= i < |r| ==> r[i] in trades && Matches(f, r[i])
    ensures forall i :: 0 <= i < |trades| && Matches(f, trades[i]) ==> trades[i] in r
    ensures |r| == Count(trades, MatchesFilters(f))
  {
    Filter(trades, MatchesFilters(f))
  }

  /** With both filters on "All" nothing is filtered out. */
  lemma NoFiltersKeepAll(trades: seq<Trade>)
    ensures FilteredTrades(trades, NoFilters) == trades
  {
    FilterAll(trades, MatchesFilters(NoFilters));
  }

  /** Filtering the filtered list again with the same filters changes nothing. */
  lemma FilteredTradesIdempotent(trades: seq<Trade>, f: Filters)
    ensures FilteredTrades(FilteredTrades(trades, f), f) == FilteredTrades(trades, f)
  {
    FilterIdempotent(trades, MatchesFilters(f));
  }

  // ---------------------------------------------------------------------------
  // Instrument options

  /** `['All', ...new Set(trades.map(t => t.instrument))]`: "All" followed by each
      instrument once. */
  function InstrumentOptions(trades: seq<Trade>): (r: seq<string>)
    ensures |r| >= 1 && r[0] == AllValue
    ensures NoDuplicates(r[1..])
    ensures forall i :: 1 <= i < |r| ==> exists j :: 0 <= j < |trades| && trades[j].instrument == r[i]
    ensures forall j :: 0 <= j < |trades| ==> trades[j].instrument in r[1..]
  {
    var ms := MapSeq(trades, InstrumentOf);
    var d := Distinct(ms);
    var r := [AllValue] + d;
    assert r[1..] == d;
    forall i | 1 <= i < |r|
      ensures exists j :: 0 <= j < |trades| && trades[j].instrument == r[i]
    {
      assert r[i] in ms;
      var j :| 0 <= j < |ms| && ms[j] == r[i];
      assert trades[j].instrument == r[i];
    }
    forall j | 0 <= j < |trades|
      ensures trades[j].instrument in r[1..]
    {
      assert ms[j] == trades[j].instrument;
    }
    r
  }

  /** The instruments come in the order in which they first appear among the trades. */
  lemma InstrumentOptionsOrder(trades: seq<Trade>)
    ensures var r := InstrumentOptions(trades); var ms := MapSeq(trades, InstrumentOf);
      forall i, j :: 1 <= i < j < |r| ==> IndexOf(ms, r[i]) < IndexOf(ms, r[j])
  {
    var ms := MapSeq(trades, InstrumentOf);
    var r := InstrumentOptions(trades);
    assert r[1..] == Distinct(ms);
    DistinctFirstOccurrenceOrder(ms);
    forall i, j | 1 <= i < j < |r|
      ensures IndexOf(ms, r[i]) < IndexOf(ms, r[j])
    {
      assert r[i] == Distinct(ms)[i - 1] && r[j] == Distinct(ms)[j - 1];
    }
  }

  // ---------------------------------------------------------------------------
  // Performance by psychology

  /** One bar per psychology option, in option order, each the P&L of the trades in
      that state (`pnlByState[p] || 0`). */
  function StateBars(data: seq<Trade>): (r: seq<(string, real)>)
    ensures |r| == |PsychologyOptions|
    ensures forall k :: 0 <= k < |r| ==> r[k] == (PsychologyOptions[k], GroupTotal(data, StateOf, PnlOf, PsychologyOptions[k]))
  {
    var sums := SumBy(data, StateOf, PnlOf);
    var r := seq(|PsychologyOptions|, k requires 0 <= k < |PsychologyOptions| =>
      (PsychologyOptions[k], ValueOr(Lookup(sums, PsychologyOptions[k]), 0.0)));
    forall k | 0 <= k < |r|
      ensures r[k].1 == GroupTotal(data, StateOf, PnlOf, PsychologyOptions[k])
    {
      TotalLookup(data, StateOf, PnlOf, PsychologyOptions[k]);
    }
    r
  }

  predicate NonZeroBar(e: (string, real)) { e.1 != 0.0 }

  /** The bar chart: the option bars with a zero total dropped. */
  function PerformanceByState(data: seq<Trade>): (r: seq<(string, real)>)
    ensures IsSubseq(r, StateBars(data))
    ensures forall i :: 0 <= i < |r| ==>
      r[i].0 in PsychologyOptions && r[i].1 != 0.0 && r[i].1 == GroupTotal(data, StateOf, PnlOf, r[i].0)
    ensures forall k :: 0 <= k < |PsychologyOptions| && GroupTotal(data, StateOf, PnlOf, PsychologyOptions[k]) != 0.0 ==>
      (PsychologyOptions[k], GroupTotal(data, StateOf, PnlOf, PsychologyOptions[k])) in r
  {
    var bars := StateBars(data);
    var r := Filter(bars, NonZeroBar);
    forall i | 0 <= i < |r|
      ensures r[i].0 in PsychologyOptions && r[i].1 == GroupTotal(data, StateOf, PnlOf, r[i].0)
    {
      var k :| 0 <= k < |bars| && bars[k] == r[i];
    }
    forall k | 0 <= k < |PsychologyOptions| && GroupTotal(data, StateOf, PnlOf, PsychologyOptions[k]) != 0.0
      ensures bars[k] in r
    {
      assert NonZeroBar(bars[k]);
    }
    r
  }

  lemma PsychologyOptionsDistinct()
    ensures NoDuplicates(PsychologyOptions)
  {
    var o := PsychologyOptions;
    assert o[0][..2] == "Fo" && o[1][..2] == "Tr" && o[2][..2] == "Fr" && o[3][..2] == "An";
    assert o[4][..2] == "Ne" && o[5][..2] == "Ti" && o[6][..2] == "Ha" && o[7][..2] == "Sa";
    assert o[8][..2] == "Co" && o[9][..2] == "Pa" && o[10][..2] == "Gr" && o[11][..2] == "Fe";
  }

  /** Dropping bars whose total is zero does not change the sum of the bars. */
  lemma {:induction false} DropZeroBars(bars: seq<(string, real)>)
    ensures TotalValue(Filter(bars, NonZeroBar)) == TotalValue(bars)
    decreases |bars|
  {
    if |bars| > 0 {
      DropZeroBars(bars[1..]);
      var f := Filter(bars, NonZeroBar);
      if NonZeroBar(bars[0]) {
        assert f == [bars[0]] + Filter(bars[1..], NonZeroBar);
        assert f[1..] == Filter(bars[1..], NonZeroBar);
      } else {
        assert f == Filter(bars[1..], NonZeroBar);
      }
    }
  }

  /** When every trade is in one of the offered states, the bars add up to the total P&L. */
  lemma PerformanceByStateTotal(data: seq<Trade>)
    requires forall i :: 0 <= i < |data| ==> data[i].psychology in PsychologyOptions
    ensures TotalValue(PerformanceByState(data)) == SumOf(data, PnlOf)
  {
    PsychologyOptionsDistinct();
    DropZeroBars(StateBars(data));
    BarsTotal(StateBars(data), data, StateOf, PnlOf, PsychologyOptions);
    TotalOverCovers(data, StateOf, PnlOf, PsychologyOptions);
  }

  // ---------------------------------------------------------------------------
  // Distribution

  /** The pie: one slice per state seen, in first-occurrence order, with its trade count. */
  function StateDistribution(data: seq<Trade>): (r: seq<(string, nat)>)
    ensures KeysOf(r) == Distinct(MapSeq(data, StateOf))
    ensures forall i :: 0 <= i < |r| ==> r[i].1 >= 1
    ensures forall i :: 0 <= i < |r| ==> r[i].1 == |Filter(data, KeyIs(StateOf, r[i].0))|
    ensures TotalCount(r) == |data|
  {
    CountByTotal(data, StateOf);
    CountBy(data, StateOf)
  }

  // ---------------------------------------------------------------------------
  // Insight

  /* Each fixed text is written as its first four characters followed by the rest:
     the verifier reads characters off the front of a short literal, and those four
     characters are what tells the kinds of reply apart (ReplyKinds). */
  const NotEnoughData: string := "Not " + "enough data for an insight."
  const ConsistentMessage: string := "Your" + " performance is consistent across different psychological states."
  const BestOpening: string := "You " + "trade best when you're feeling <span class=\"font-bold text-success\">"
  const WorstOpening: string := "Be c" + "autious when feeling <span class=\"font-bold text-danger\">"

  /** The four fixed texts start with four different characters. */
  lemma Openings()
    ensures |NotEnoughData| > 4 && NotEnoughData[..4] == "Not "
    ensures |ConsistentMessage| > 4 && ConsistentMessage[..4] == "Your"
    ensures |BestOpening| > 4 && BestOpening[..4] == "You "
    ensures |WorstOpening| > 4 && WorstOpening[..4] == "Be c"
  {
    PrefixOfAppend("Not ", "enough data for an insight.", 4);
    PrefixOfAppend("Your", " performance is consistent across different psychological states.", 4);
    PrefixOfAppend("You ", "trade best when you're feeling <span class=\"font-bold text-success\">", 4);
    PrefixOfAppend("Be c", "autious when feeling <span class=\"font-bold text-danger\">", 4);
  }

  lemma PrefixOfAppend(a: string, b: string, n: nat)
    requires n <= |a|
    ensures (a + b)[..n] == a[..n]
  {
  }

  /** The sentence for the best state; `amount` is the total rendered with two decimals. */
  function BestSentence(state: string, amount: string): (r: string)
    ensures |r| > 4 && r[..4] == "You "
  {
    Openings();
    var tail := state + "</span>, with a total profit of $" + amount + ".";
    PrefixOfAppend(BestOpening, tail, 4);
    BestOpening + tail
  }

  function WorstSentence(state: string, amount: string): (r: string)
    ensures |r| > 4 && r[..4] == "Be c"
  {
    Openings();
    var tail := state + "</span>, as it's associated with a total loss of $" + amount + ".";
    PrefixOfAppend(WorstOpening, tail, 4);
    WorstOpening + tail
  }

  /** The sentences of the insight: the best state when its total is positive, then
      the worst state when its total is negative. `fixed2` renders a number the way
      `toFixed(2)` does. */
  function Mentions(best: (string, real), worst: (string, real), fixed2: real -> string): (m: seq<string>)
    ensures BestSentence(best.0, fixed2(best.1)) in m <==> best.1 > 0.0
    ensures WorstSentence(worst.0, fixed2(worst.1)) in m <==> worst.1 < 0.0
    ensures best.1 > 0.0 ==> m[0] == BestSentence(best.0, fixed2(best.1))
    ensures |m| == (if best.1 > 0.0 then 1 else 0) + (if worst.1 < 0.0 then 1 else 0)
    ensures forall i :: 0 <= i < |m| ==> |m[i]| > 4 && (m[i][..4] == "You " || m[i][..4] == "Be c")
  {
    var bs, ws := BestSentence(best.0, fixed2(best.1)), WorstSentence(worst.0, fixed2(worst.1));
    assert bs != ws by {
      assert bs[..4] != ws[..4];
    }
    (if best.1 > 0.0 then [bs] else []) + (if worst.1 < 0.0 then [ws] else [])
  }

  /** The reply: "not enough data" without trades, otherwise the sentences joined by a
      space, or the "consistent" message when there are none. */
  function Reply(hasData: bool, m: seq<string>): (r: string)
    ensures !hasData ==> r == NotEnoughData
    ensures hasData && |m| == 0 ==> r == ConsistentMessage
    ensures hasData && |m| > 0 ==> IsPrefix(m[0], r)
    ensures hasData && |m| == 1 ==> r == m[0]
    ensures hasData && |m| == 2 ==> r == m[0] + " " + m[1]
  {
    if !hasData then NotEnoughData
    else if |m| > 0 then
      JoinStartsWithFirst(m, " ");
      JoinTwo(m, " ");
      Join(m, " ")
    else ConsistentMessage
  }

  /** Two sentences are joined with one separator between them. */
  lemma JoinTwo(xs: seq<string>, sep: string)
    ensures |xs| == 2 ==> Join(xs, sep) == xs[0] + sep + xs[1]
  {
    if |xs| == 2 {
      assert xs[1..] == [xs[1]];
    }
  }

  /** The written insight over the filtered trades. */
  function Insight(data: seq<Trade>, fixed2: real -> string): (r: string)
  {
    if |data| == 0 then NotEnoughData
    else Reply(true, Mentions(BestGroup(data, StateOf, PnlOf), WorstGroup(data, StateOf, PnlOf), fixed2))
  }

  lemma JoinStartsWithFirst(xs: seq<string>, sep: string)
    requires |xs| > 0
    ensures IsPrefix(xs[0], Join(xs, sep))
  {
  }

  /** When some state made money and some state lost money, the insight is the praise
      for the best state, a space, then the warning about the worst state. */
  lemma InsightPraisesThenWarns(data: seq<Trade>, fixed2: real -> string)
    ensures |data| > 0 && BestGroup(data, StateOf, PnlOf).1 > 0.0 && WorstGroup(data, StateOf, PnlOf).1 < 0.0 ==>
      var best, worst := BestGroup(data, StateOf, PnlOf), WorstGroup(data, StateOf, PnlOf);
      Insight(data, fixed2)
        == BestSentence(best.0, fixed2(best.1)) + " " + WorstSentence(worst.0, fixed2(worst.1))
  {
    if |data| > 0 && BestGroup(data, StateOf, PnlOf).1 > 0.0 && WorstGroup(data, StateOf, PnlOf).1 < 0.0 {
      ReplyPraisesThenWarns(BestGroup(data, StateOf, PnlOf), WorstGroup(data, StateOf, PnlOf), fixed2);
    }
  }

  lemma ReplyPraisesThenWarns(best: (string, real), worst: (string, real), fixed2: real -> string)
    requires best.1 > 0.0 && worst.1 < 0.0
    ensures Reply(true, Mentions(best, worst, fixed2))
      == BestSentence(best.0, fixed2(best.1)) + " " + WorstSentence(worst.0, fixed2(worst.1))
  {
    var bs, ws := BestSentence(best.0, fixed2(best.1)), WorstSentence(worst.0, fixed2(worst.1));
    var m := Mentions(best, worst, fixed2);
    assert bs != ws by {
      assert bs[..4] != ws[..4];
    }
    assert m[1] == ws;
  }

  /** The three kinds of reply are told apart by their first four characters. */
  lemma ReplyKinds(hasData: bool, m: seq<string>)
    requires forall i :: 0 <= i < |m| ==> |m[i]| > 4 && (m[i][..4] == "You " || m[i][..4] == "Be c")
    ensures Reply(hasData, m) == NotEnoughData <==> !hasData
    ensures hasData ==> (Reply(hasData, m) == ConsistentMessage <==> |m| == 0)
  {
    Openings();
    if hasData && |m| > 0 {
      var r := Reply(hasData, m);
      assert r[..4] == m[0][..4];
    }
  }

  /** Only an empty list of trades gets the "not enough data" reply. */
  lemma NotEnoughDataIffEmpty(data: seq<Trade>, fixed2: real -> string)
    ensures Insight(data, fixed2) == NotEnoughData <==> |data| == 0
  {
    if |data| > 0 {
      ReplyKinds(true, Mentions(BestGroup(data, StateOf, PnlOf), WorstGroup(data, StateOf, PnlOf), fixed2));
    }
  }

  /** The best total is at least, and the worst at most, every state's total. */
  lemma TotalsBetween(data: seq<Trade>)
    requires |data| > 0
    ensures forall i :: 0 <= i < |data| ==>
      WorstGroup(data, StateOf, PnlOf).1 <= GroupTotal(data, StateOf, PnlOf, data[i].psychology) <= BestGroup(data, StateOf, PnlOf).1
  {
    forall i | 0 <= i < |data|
      ensures WorstGroup(data, StateOf, PnlOf).1 <= GroupTotal(data, StateOf, PnlOf, data[i].psychology) <= BestGroup(data, StateOf, PnlOf).1
    {
      BestGroupIsMaximal(data, StateOf, PnlOf, i);
      WorstGroupIsMinimal(data, StateOf, PnlOf, i);
    }
  }

  /** The "consistent" reply appears exactly when every state the trades are in
      totals zero. */
  lemma ConsistentIffAllZero(data: seq<Trade>, fixed2: real -> string)
    requires |data| > 0
    ensures Insight(data, fixed2) == ConsistentMessage
      <==> forall i :: 0 <= i < |data| ==> GroupTotal(data, StateOf, PnlOf, data[i].psychology) == 0.0
  {
    var b, w := BestGroup(data, StateOf, PnlOf), WorstGroup(data, StateOf, PnlOf);
    TotalsBetween(data);
    var m := Mentions(b, w, fixed2);
    ReplyKinds(true, m);
    if |m| > 0 {
      assert b.1 > 0.0 || w.1 < 0.0;
      var ib := BestAttained(data);
      var iw := WorstAttained(data);
    }
  }

  /** Some trade's state totals exactly the best total. */
  lemma BestAttained(data: seq<Trade>) returns (i: nat)
    requires |data| > 0
    ensures i < |data| && GroupTotal(data, StateOf, PnlOf, data[i].psychology) == BestGroup(data, StateOf, PnlOf).1
  {
    var b := BestGroup(data, StateOf, PnlOf);
    i :| 0 <= i < |data| && MapSeq(data, StateOf)[i] == b.0;
  }

  /** Some trade's state totals exactly the worst total. */
  lemma WorstAttained(data: seq<Trade>) returns (i: nat)
    requires |data| > 0
    ensures i < |data| && GroupTotal(data, StateOf, PnlOf, data[i].psychology) == WorstGroup(data, StateOf, PnlOf).1
  {
    var w := WorstGroup(data, StateOf, PnlOf);
    i :| 0 <= i < |data| && MapSeq(data, StateOf)[i] == w.0;
  }

  /** The best total is positive, and so (by `Mentions`) the best state is praised,
      exactly when some state made money. */
  lemma SomeStateGains(data: seq<Trade>)
    requires |data| > 0
    ensures BestGroup(data, StateOf, PnlOf).1 > 0.0
      <==> exists i :: 0 <= i < |data| && GroupTotal(data, StateOf, PnlOf, data[i].psychology) > 0.0
  {
    TotalsBetween(data);
    var ib := BestAttained(data);
  }

  /** The worst total is negative, and so the worst state is flagged, exactly when
      some state lost money. */
  lemma SomeStateLoses(data: seq<Trade>)
    requires |data| > 0
    ensures WorstGroup(data, StateOf, PnlOf).1 < 0.0
      <==> exists i :: 0 <= i < |data| && GroupTotal(data, StateOf, PnlOf, data[i].psychology) < 0.0
  {
    TotalsBetween(data);
    var iw := WorstAttained(data);
  }
}
