/** The trading calendar: a month laid out as a Sunday-first grid, chunked into
    weeks of seven cells, each day cell coloured by the P&L recorded for it and
    listing the trades dated that day, plus one weekly summary cell per row. */
module Calendar {
  import opened Base
  import opened Strings
  import opened Gregorian
  import opened Grouping
  import opened Trades

  // ---------------------------------------------------------------------------
  // Month grid

  /** A grid cell: a blank before the 1st of the month, or a day of the month. */
  datatype Cell = Blank | Day(date: CivilDate)

  /** The calendar shows June 2024 (month index 5 in JavaScript's zero-based months). */
  const ShownYear: int := 2024
  const ShownMonth: int := 6

  /** `new Date(Date.UTC(y, m - 1, 1)).getUTCDay()`: the weekday of the 1st, 0 = Sunday. */
  function FirstDayOffset(y: int, m: int): (r: int)
    requires 1 <= m <= 12
    ensures 0 <= r < 7
  {
    Weekday(CivilDate(y, m, 1))
  }

  /** `new Date(Date.UTC(y, m, 0)).getUTCDate()`: day 0 of the next month is the
      last day of this one, so the result is the month's length. */
  function LastDayOfMonth(y: int, m: int): (r: int)
    requires 1 <= m <= 12
    ensures 28 <= r <= 31
    ensures r == 29 <==> m == 2 && IsLeapYear(y)
  {
    DaysInMonth(y, m)
  }

  /** The last day of the month is the day right before the 1st of the next month. */
  lemma LastDayPrecedesNextMonth(y: int, m: int)
    requires 1 <= m <= 12
    ensures var last := CivilDate(y, m, LastDayOfMonth(y, m));
      && IsValid(last)
      && NextDay(last) == (if m < 12 then CivilDate(y, m + 1, 1) else CivilDate(y + 1, 1, 1))
  {
  }

  /** The two loops that fill `totalCells`: `offset` blanks, then days 1..N.
      Day `d` sits at index `offset + d - 1`, so each day lands in the column of its weekday. */
  method MonthCells(y: int, m: int) returns (cells: seq<Cell>)
    requires 1 <= m <= 12
    ensures |cells| == FirstDayOffset(y, m) + LastDayOfMonth(y, m)
    ensures forall i :: 0 <= i < FirstDayOffset(y, m) ==> cells[i] == Blank
    ensures forall i :: FirstDayOffset(y, m) <= i < |cells| ==>
      cells[i] == Day(CivilDate(y, m, i - FirstDayOffset(y, m) + 1))
    ensures forall i :: 0 <= i < |cells| && cells[i].Day? ==>
      IsValid(cells[i].date) && Weekday(cells[i].date) == i % 7
  {
    var offset := FirstDayOffset(y, m);
    var n := LastDayOfMonth(y, m);
    cells := [];
    var i := 0;
    while i < offset
      invariant 0 <= i <= offset
      invariant cells == seq(i, _ => Blank)
    {
      cells := cells + [Blank];
      i := i + 1;
    }
    i := 1;
    while i <= n
      invariant 1 <= i <= n + 1
      invariant |cells| == offset + i - 1
      invariant forall j :: 0 <= j < offset ==> cells[j] == Blank
      invariant forall j :: offset <= j < |cells| ==> cells[j] == Day(CivilDate(y, m, j - offset + 1))
      invariant forall j :: 0 <= j < |cells| && cells[j].Day? ==>
        IsValid(cells[j].date) && Weekday(cells[j].date) == j % 7
    {
      WeekdayWithinMonth(y, m, i);
      cells := cells + [Day(CivilDate(y, m, i))];
      i := i + 1;
    }
  }

  /** `for (i = 0; i < cells.length; i += 7) weeks.push(cells.slice(i, i + 7))`:
      consecutive seven-cell slices, the last one possibly shorter. */
  method Weeks<T>(cells: seq<T>) returns (weeks: seq<seq<T>>)
    ensures Flatten(weeks) == cells
    ensures |weeks| == (|cells| + 6) / 7
    ensures forall w :: 0 <= w < |weeks| ==> 1 <= |weeks[w]| <= 7
    ensures forall w :: 0 <= w < |weeks| - 1 ==> |weeks[w]| == 7
  {
    weeks := [];
    var i := 0;
    while i < |cells|
      invariant i == 7 * |weeks|
      invariant |weeks| == (if i <= |cells| then i else |cells| + 6) / 7
      invariant Flatten(weeks) == cells[..if i <= |cells| then i else |cells|]
      invariant forall w :: 0 <= w < |weeks| ==> 1 <= |weeks[w]| <= 7
      invariant forall w :: 0 <= w < |weeks| - 1 ==> |weeks[w]| == 7
      invariant i <= |cells| ==> forall w :: 0 <= w < |weeks| ==> |weeks[w]| == 7
      decreases |cells| - i
    {
      var end := if i + 7 <= |cells| then i + 7 else |cells|;
      FlattenAppend(weeks, [cells[i..end]]);
      assert Flatten([cells[i..end]]) == cells[i..end] + Flatten([cells[i..end]][1..]);
      assert cells[..i] + cells[i..end] == cells[..end];
      weeks := weeks + [cells[i..end]];
      i := i + 7;
    }
  }

  // ---------------------------------------------------------------------------
  // Rows

  /** A weekly summary as recorded in the fixture data. */
  datatype WeeklySummary = WeeklySummary(week: int, totalPnL: real, trades: int, winRate: real, tradingDays: int)

  /** The six literal weekly summaries shown beside the June 2024 grid. */
  const WeeklyFixture: seq<WeeklySummary> := [
    WeeklySummary(1, 0.0, 0, 0.0, 0),
    WeeklySummary(2, 1050.0, 1, 100.0, 1),
    WeeklySummary(3, 1608.0, 8, 43.0, 4),
    WeeklySummary(4, 1988.0, 14, 57.0, 5),
    WeeklySummary(5, 672.5, 10, 40.0, 4),
    WeeklySummary(6, 0.0, 0, 0.0, 0)
  ]

  /** A rendered row: seven day slots and the weekly summary cell. */
  datatype Row = Row(slots: seq<Cell>, weekly: Option<WeeklySummary>)

  /** `Array.from({length: 7}).map((_, k) => week[k])` with `!day` rendered blank,
      followed by `weeklySummary[weekIndex]` if that entry exists. */
  function RenderRow(week: seq<Cell>, weekIndex: nat, summaries: seq<WeeklySummary>): (r: Row)
    ensures |r.slots| == 7
    ensures forall k :: 0 <= k < 7 ==> r.slots[k] == (if k < |week| then week[k] else Blank)
    ensures r.weekly.Some? <==> weekIndex < |summaries|
    ensures r.weekly.Some? ==> r.weekly.value == summaries[weekIndex]
  {
    Row(seq(7, k requires 0 <= k < 7 => if k < |week| then week[k] else Blank),
        if weekIndex < |summaries| then Some(summaries[weekIndex]) else None)
  }

  function RenderRows(weeks: seq<seq<Cell>>, summaries: seq<WeeklySummary>, from: nat): seq<Row>
    decreases |weeks|
  {
    if |weeks| == 0 then [] else [RenderRow(weeks[0], from, summaries)] + RenderRows(weeks[1..], summaries, from + 1)
  }

  function AllSlots(rows: seq<Row>): seq<Cell>
    decreases |rows|
  {
    if |rows| == 0 then [] else rows[0].slots + AllSlots(rows[1..])
  }

  /** Reading the rendered rows slot by slot gives the cells in order, padded with
      blanks up to a whole number of weeks: no day is lost, moved or duplicated. */
  lemma {:induction false} RowsShowCells(weeks: seq<seq<Cell>>, summaries: seq<WeeklySummary>, from: nat)
    requires forall w :: 0 <= w < |weeks| ==> 1 <= |weeks[w]| <= 7
    requires forall w :: 0 <= w < |weeks| - 1 ==> |weeks[w]| == 7
    ensures |weeks| > 0 ==>
      AllSlots(RenderRows(weeks, summaries, from))
        == Flatten(weeks) + seq(7 - |weeks[|weeks| - 1]|, _ => Blank)
    ensures |AllSlots(RenderRows(weeks, summaries, from))| == 7 * |weeks|
    decreases |weeks|
  {
    if |weeks| > 0 {
      var row := RenderRow(weeks[0], from, summaries);
      RowsShowCells(weeks[1..], summaries, from + 1);
      if |weeks| == 1 {
        assert row.slots == weeks[0] + seq(7 - |weeks[0]|, _ => Blank);
        assert Flatten(weeks) == weeks[0] + Flatten(weeks[1..]);
      } else {
        assert row.slots == weeks[0];
        assert weeks[1..][|weeks[1..]| - 1] == weeks[|weeks| - 1];
      }
    }
  }

  /** Row `w` gets a weekly cell exactly when the summaries have an entry `w`. */
  lemma {:induction false} RowsWeeklyCells(weeks: seq<seq<Cell>>, summaries: seq<WeeklySummary>, from: nat, w: nat)
    requires w < |weeks|
    ensures |RenderRows(weeks, summaries, from)| == |weeks|
    ensures RenderRows(weeks, summaries, from)[w].weekly.Some? <==> from + w < |summaries|
    decreases |weeks|
  {
    if w > 0 {
      RowsWeeklyCells(weeks[1..], summaries, from + 1, w - 1);
    } else if |weeks| > 1 {
      RowsWeeklyCells(weeks[1..], summaries, from + 1, 0);
    }
  }

  /** June 2024 starts on a Saturday and has 30 days: 36 cells in 6 weeks, one per
      weekly summary of the fixture data. */
  method ShownMonthGrid() returns (cells: seq<Cell>, weeks: seq<seq<Cell>>)
    ensures FirstDayOffset(ShownYear, ShownMonth) == 6
    ensures |cells| == 36 && |weeks| == 6 && |weeks| == |WeeklyFixture|
    ensures cells[6] == Day(CivilDate(2024, 6, 1)) && cells[35] == Day(CivilDate(2024, 6, 30))
    ensures Flatten(weeks) == cells
  {
    assert DayFromYear(2024) == 19723;
    assert DayNumber(CivilDate(2024, 6, 1)) == 19875;
    cells := MonthCells(ShownYear, ShownMonth);
    weeks := Weeks(cells);
  }

  // ---------------------------------------------------------------------------
  // Bucketing trades and daily data by date

  /** A day's recorded statistics. */
  datatype DayData = DayData(date: string, pnl: real, trades: real, winRate: real)

  /** The key a trade is filed under, `new Date(trade.date).toISOString().split('T')[0]`
      (only meaningful when that key exists). */
  function TradeDayKey(t: Trade): string
  {
    ValueOr(IsoDayKey(t.date), t.date)
  }

  /** A well-formed date is its own key. */
  lemma TradeDayKeyIsDate(t: Trade)
    requires ParseIsoDate(t.date).Some?
    ensures TradeDayKey(t) == t.date
  {
    IsoDayKeyOfValid(t.date);
  }

  /** The `tradesByDate` reduce. `toISOString` throws on an invalid date, so one
      unreadable trade date makes the whole computation fail (`None`). */
  function TradesByDate(trades: seq<Trade>): (r: Option<seq<(string, seq<Trade>)>>)
    ensures r.Some? <==> forall i :: 0 <= i < |trades| ==> IsoDayKey(trades[i].date).Some?
    ensures r.Some? ==> KeysOf(r.value) == Distinct(MapSeq(trades, TradeDayKey))
    ensures r.Some? ==> forall b :: 0 <= b < |r.value| ==>
      r.value[b].1 == Filter(trades, KeyIs(TradeDayKey, r.value[b].0))
  {
    if forall i :: 0 <= i < |trades| ==> IsoDayKey(trades[i].date).Some?
    then Some(GroupBy(trades, TradeDayKey))
    else None
  }

  /** Every trade sits in exactly one bucket: the bucket sizes add up to the trade count,
      and each trade is found in the bucket of its own date. */
  lemma TradesByDatePartitions(trades: seq<Trade>, i: nat)
    requires TradesByDate(trades).Some? && i < |trades|
    ensures TotalSize(TradesByDate(trades).value) == |trades|
    ensures exists b :: (0 <= b < |TradesByDate(trades).value|
      && TradesByDate(trades).value[b].0 == trades[i].date
      && trades[i] in TradesByDate(trades).value[b].1)
  {
    GroupByPartitions(trades, TradeDayKey);
    IsoDayKeyOfValid(trades[i].date);
    GroupByBucketOf(trades, TradeDayKey, i);
  }

  /** `new Map(daily.map(d => [key(d.date), d]))`, or `None` when a date cannot be keyed. */
  function DailyDataMap(daily: seq<DayData>): (r: Option<seq<(string, DayData)>>)
    ensures r.Some? <==> forall i :: 0 <= i < |daily| ==> IsoDayKey(daily[i].date).Some?
    ensures r.Some? ==> |r.value| == |daily|
    ensures r.Some? ==> forall i :: 0 <= i < |daily| ==> r.value[i] == (daily[i].date, daily[i])
  {
    if forall i :: 0 <= i < |daily| ==> IsoDayKey(daily[i].date).Some? then
      var r := seq(|daily|, i requires 0 <= i < |daily| => (IsoDayKey(daily[i].date).value, daily[i]));
      assert forall i :: 0 <= i < |daily| ==> r[i].0 == daily[i].date by {
        forall i | 0 <= i < |daily| ensures r[i].0 == daily[i].date {
          IsoDayKeyOfValid(daily[i].date);
        }
      }
      Some(r)
    else None
  }

  /** `map.get(key)` on a map built from entries: a later entry with the same key
      overwrites an earlier one. */
  function MapGet<V(==)>(entries: seq<(string, V)>, key: string): (r: Option<V>)
    ensures r.None? <==> key !in KeysOf(entries)
    ensures r.Some? ==> exists i :: (0 <= i < |entries| && entries[i] == (key, r.value)
      && forall j :: i < j < |entries| ==> entries[j].0 != key)
    decreases |entries|
  {
    if |entries| == 0 then None
    else
      var last := entries[|entries| - 1];
      var init := entries[..|entries| - 1];
      assert KeysOf(entries) == KeysOf(init) + [last.0];
      if last.0 == key then Some(last.1)
      else
        var r := MapGet(init, key);
        if r.Some? then
          var i :| 0 <= i < |init| && init[i] == (key, r.value) && forall j :: i < j < |init| ==> init[j].0 != key;
          assert entries[i] == (key, r.value);
          r
        else r
  }

  // ---------------------------------------------------------------------------
  // Day cells

  /** The background of a day cell. */
  datatype Tone = Positive | Negative | Neutral | NoData

  /** Green for a positive day, red for a negative one, grey for a flat one, and the
      empty-day shade when nothing was recorded. */
  function DayTone(data: Option<DayData>): (t: Tone)
    ensures t == NoData <==> data.None?
    ensures t == Positive <==> data.Some? && data.value.pnl > 0.0
    ensures t == Negative <==> data.Some? && data.value.pnl < 0.0
    ensures t == Neutral <==> data.Some? && data.value.pnl == 0.0
  {
    match data
    case None => NoData
    case Some(d) => if d.pnl > 0.0 then Positive else if d.pnl < 0.0 then Negative else Neutral
  }

  /** `trade{count !== 1 ? 's' : ''}`. */
  function TradeNoun(count: real): (r: string)
    ensures r == "trade" <==> count == 1.0
    ensures r == "trades" <==> count != 1.0
  {
    "trade" + (if count != 1.0 then "s" else "")
  }

  /** What a grid slot renders. */
  datatype CellView =
    | BlankView
    | DayView(dayOfMonth: int, key: string, tone: Tone, data: Option<DayData>, trades: seq<Trade>)

  /** A slot: blank, or the day's number, tone, statistics and the trades filed under its key. */
  function RenderCell(c: Cell, daily: seq<(string, DayData)>, byDate: seq<(string, seq<Trade>)>): (v: CellView)
    requires c.Day? ==> IsValid(c.date) && 0 <= c.date.year <= 9999
    ensures c.Blank? <==> v.BlankView?
    ensures v.DayView? ==> v.dayOfMonth == c.date.day && v.key == FormatIsoDate(c.date)
    ensures v.DayView? ==> v.data == MapGet(daily, v.key) && v.tone == DayTone(v.data)
    ensures v.DayView? ==> v.trades == ValueOr(Lookup(byDate, v.key), [])
  {
    match c
    case Blank => BlankView
    case Day(d) =>
      var key := Split(IsoTimestamp(d), 'T')[0];
      DayKeyOfTimestamp(d);
      var data := MapGet(daily, key);
      DayView(d.day, key, DayTone(data), data, ValueOr(Lookup(byDate, key), []))
  }

  /** A day cell lists exactly the trades dated that day, in journal order. */
  lemma DayCellListsItsTrades(d: CivilDate, daily: seq<(string, DayData)>, trades: seq<Trade>)
    requires IsValid(d) && 0 <= d.year <= 9999
    requires TradesByDate(trades).Some?
    ensures var v := RenderCell(Day(d), daily, TradesByDate(trades).value);
      v.trades == Filter(trades, KeyIs(TradeDayKey, FormatIsoDate(d)))
  {
    var g := TradesByDate(trades).value;
    var key := FormatIsoDate(d);
    DayKeyOfTimestamp(d);
    assert RenderCell(Day(d), daily, g).trades == ValueOr(Lookup(g, key), []);
    var look := Lookup(g, key);
    if look.Some? {
      var b :| 0 <= b < |g| && g[b].0 == key by {
        assert key in KeysOf(g);
      }
      DistinctKeysLookup(g, b);
    } else {
      assert key !in KeysOf(g);
      FilterNoneMatch(trades, TradeDayKey, key);
    }
  }

  lemma DistinctKeysLookup<V>(g: seq<(string, V)>, b: nat)
    requires b < |g| && NoDuplicates(KeysOf(g))
    ensures Lookup(g, g[b].0) == Some(g[b].1)
  {
    LookupAt(g, b);
  }
}
