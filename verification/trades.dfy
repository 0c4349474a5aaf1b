/** The journal's trade record and uniform access to its fields by name. */
module Trades {
  import opened Base

  /** One journal entry. JavaScript numbers are modelled as exact reals (no
      rounding, no NaN); `id` is an integer; `images` is optional, every other
      field is always present. `direction` is a plain string, as the form
      stores whatever its select sends. */
  datatype Trade = Trade(
    id: int,
    date: string,
    instrument: string,
    symbol: string,
    direction: string,
    entry: real,
    exit: real,
    pnl: real,
    status: string,
    position: real,
    netPnL: real,
    slRisk: real,
    maxRR: string,
    model: string,
    newsImpact: string,
    session: string,
    timeframe: string,
    narrative: string,
    bias: string,
    tradeType: string,
    pdArray: string,
    orderType: string,
    mistake: string,
    psychology: string,
    confidenceLevel: real,
    stressLevel: real,
    notes: string,
    tags: seq<string>,
    profitOrLoss: string,
    risk: real,
    images: Option<seq<string>>)

  /** The fields of a trade, in the order the record type declares them. */
  datatype Field =
    | Id | Date | Instrument | Symbol | Direction | Entry | Exit | Pnl | Status
    | Position | NetPnL | SlRisk | MaxRR | Model | NewsImpact | Session | Timeframe
    | Narrative | Bias | TradeType | PdArray | OrderType | Mistake | Psychology
    | ConfidenceLevel | StressLevel | Notes | Tags | ProfitOrLoss | Risk | Images

  /** A field's value as a dynamically typed JavaScript value. */
  datatype Value = Num(n: real) | Text(s: string) | List(items: seq<string>) | Undefined

  /** The property name of a field. */
  function Name(f: Field): string
  {
    match f
    case Id => "id"
    case Date => "date"
    case Instrument => "instrument"
    case Symbol => "symbol"
    case Direction => "direction"
    case Entry => "entry"
    case Exit => "exit"
    case Pnl => "pnl"
    case Status => "status"
    case Position => "position"
    case NetPnL => "netPnL"
    case SlRisk => "slRisk"
    case MaxRR => "maxRR"
    case Model => "model"
    case NewsImpact => "newsImpact"
    case Session => "session"
    case Timeframe => "timeframe"
    case Narrative => "narrative"
    case Bias => "bias"
    case TradeType => "tradeType"
    case PdArray => "pdArray"
    case OrderType => "orderType"
    case Mistake => "mistake"
    case Psychology => "psychology"
    case ConfidenceLevel => "confidenceLevel"
    case StressLevel => "stressLevel"
    case Notes => "notes"
    case Tags => "tags"
    case ProfitOrLoss => "profitOrLoss"
    case Risk => "risk"
    case Images => "images"
  }

  /** `trade[name]`: the value stored under a field; a missing `images` reads as `undefined`. */
  function Get(t: Trade, f: Field): Value
  {
    match f
    case Id => Num(t.id as real)
    case Date => Text(t.date)
    case Instrument => Text(t.instrument)
    case Symbol => Text(t.symbol)
    case Direction => Text(t.direction)
    case Entry => Num(t.entry)
    case Exit => Num(t.exit)
    case Pnl => Num(t.pnl)
    case Status => Text(t.status)
    case Position => Num(t.position)
    case NetPnL => Num(t.netPnL)
    case SlRisk => Num(t.slRisk)
    case MaxRR => Text(t.maxRR)
    case Model => Text(t.model)
    case NewsImpact => Text(t.newsImpact)
    case Session => Text(t.session)
    case Timeframe => Text(t.timeframe)
    case Narrative => Text(t.narrative)
    case Bias => Text(t.bias)
    case TradeType => Text(t.tradeType)
    case PdArray => Text(t.pdArray)
    case OrderType => Text(t.orderType)
    case Mistake => Text(t.mistake)
    case Psychology => Text(t.psychology)
    case ConfidenceLevel => Num(t.confidenceLevel)
    case StressLevel => Num(t.stressLevel)
    case Notes => Text(t.notes)
    case Tags => List(t.tags)
    case ProfitOrLoss => Text(t.profitOrLoss)
    case Risk => Num(t.risk)
    case Images => if t.images.Some? then List(t.images.value) else Undefined
  }

  /** A trade that sets only the fields a literal fixture lists; every other field
      holds an empty text, a zero or no images. */
  function Fixture(id: int, date: string, instrument: string, direction: string,
                   entry: real, exit: real, pnl: real, tags: seq<string>): (t: Trade)
    ensures t.date == date && t.instrument == instrument && t.pnl == pnl && t.tags == tags
  {
    Trade(id, date, instrument, "", direction, entry, exit, pnl, "", 0.0, 0.0, 0.0, "", "",
          "", "", "", "", "", "", "", "", "", "", 0.0, 0.0, "", tags, "", 0.0, None)
  }

  /** The three sample trades of the journal's fixture data. */
  const SampleTrades: seq<Trade> := [
    Fixture(1, "2024-06-05", "NQ100", "Long", 18000.0, 18050.0, 1050.0, ["breakout"]),
    Fixture(2, "2024-06-13", "EUR/USD", "Short", 1.0750, 1.0780, -638.0, ["reversal", "news"]),
    Fixture(3, "2024-06-20", "BTC/USD", "Long", 65000.0, 66180.0, 1180.0, ["momentum"])
  ]

  function PnlOf(t: Trade): real { t.pnl }
}
