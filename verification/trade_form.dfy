/** The add/edit trade form: tag parsing and display, single-field edits, image
    removal and append, and the record the form starts from when it opens. */
module TradeForm {
  import opened Base
  import opened Strings
  import opened Grouping
  import opened Trades

  // ---------------------------------------------------------------------------
  // Tags

  /** `filter(Boolean)` on strings keeps the non-empty ones. */
  predicate NonEmpty(s: string) { s != "" }

  /** A tag the parser can produce: non-empty, trimmed, without a comma. */
  predicate ValidTag(t: string) { t != "" && IsTrimmed(t) && ',' !in t }

  /** `value.split(',').map(tag => tag.trim()).filter(Boolean)`. */
  function ParseTags(s: string): (r: seq<string>)
    ensures forall i :: 0 <= i < |r| ==> ValidTag(r[i])
  {
    var pieces := Split(s, ',');
    var trimmed := MapSeq(pieces, Trim);
    var r := Filter(trimmed, NonEmpty);
    forall i | 0 <= i < |r|
      ensures ValidTag(r[i])
    {
      var k :| 0 <= k < |trimmed| && trimmed[k] == r[i];
      var a, b := TrimSlice(pieces[k]);
      assert ',' !in pieces[k];
    }
    r
  }

  /** How the form shows the tags: `tags.join(', ')`. */
  function ShowTags(tags: seq<string>): string
  {
    Join(tags, ", ")
  }

  function SpaceBefore(s: string): string { " " + s }

  lemma JoinSpaceBefore(a: string, ys: seq<string>)
    ensures Join([" " + a] + ys, ",") == " " + Join([a] + ys, ",")
  {
    if |ys| > 0 {
      assert ([" " + a] + ys)[1..] == ys;
      assert ([a] + ys)[1..] == ys;
    }
  }

  /** Joining with ", " is joining with "," after putting a space before every piece
      but the first. */
  lemma {:induction false} JoinCommaSpace(xs: seq<string>)
    requires |xs| >= 1
    ensures Join(xs, ", ") == Join([xs[0]] + MapSeq(xs[1..], SpaceBefore), ",")
    decreases |xs|
  {
    if |xs| >= 2 {
      JoinCommaSpace(xs[1..]);
      var rest := MapSeq(xs[2..], SpaceBefore);
      assert xs[1..][1..] == xs[2..];
      assert MapSeq(xs[1..], SpaceBefore) == [" " + xs[1]] + rest;
      JoinSpaceBefore(xs[1], rest);
      assert ([xs[0]] + MapSeq(xs[1..], SpaceBefore))[1..] == MapSeq(xs[1..], SpaceBefore);
    }
  }

  /** Showing valid tags and parsing the text again gives back the same tags. */
  lemma ParseShowTags(tags: seq<string>)
    requires forall i :: 0 <= i < |tags| ==> ValidTag(tags[i])
    ensures ParseTags(ShowTags(tags)) == tags
  {
    if |tags| == 0 {
      assert Split("", ',') == [""];
      assert MapSeq([""], Trim) == [Trim("")];
      assert Trim("") == "";
      assert Filter([""], NonEmpty) == [];
    } else {
      var pieces := [tags[0]] + MapSeq(tags[1..], SpaceBefore);
      JoinCommaSpace(tags);
      forall i | 0 <= i < |pieces|
        ensures ',' !in pieces[i] && Trim(pieces[i]) == tags[i]
      {
        TrimOfTrimmed(tags[i]);
        if i > 0 {
          assert pieces[i] == " " + tags[i];
          assert AllWhite(" ");
          TrimAfterWhite(" ", tags[i]);
        }
      }
      SplitJoin(pieces, ',');
      assert MapSeq(pieces, Trim) == tags;
      FilterAll(tags, NonEmpty);
    }
  }

  /** Parsing, showing and parsing again changes nothing. */
  lemma ParseTagsIdempotent(s: string)
    ensures ParseTags(ShowTags(ParseTags(s))) == ParseTags(s)
  {
    ParseShowTags(ParseTags(s));
  }

  /** The tag input: the tags become whatever the typed text parses to. */
  function SetTags(t: Trade, typed: string): (r: Trade)
    ensures forall g: Field :: g != Tags ==> Get(r, g) == Get(t, g)
    ensures Get(r, Tags) == List(ParseTags(typed))
  {
    t.(tags := ParseTags(typed))
  }

  // ---------------------------------------------------------------------------
  // Field edits

  /** The inputs wired to the generic change handler, by their `name` attribute. */
  datatype FormField =
    | FDate | FInstrument | FSymbol | FDirection | FEntry | FExit | FPosition | FOrderType
    | FPnl | FNetPnL | FRisk | FSlRisk | FMaxRR | FStatus | FProfitOrLoss | FSession
    | FTimeframe | FNewsImpact | FBias | FNarrative | FModel | FTradeType | FPdArray
    | FMistake | FPsychology | FConfidenceLevel | FStressLevel | FNotes

  /** The record field an input writes. */
  function ToField(f: FormField): Field
  {
    match f
    case FDate => Date
    case FInstrument => Instrument
    case FSymbol => Symbol
    case FDirection => Direction
    case FEntry => Entry
    case FExit => Exit
    case FPosition => Position
    case FOrderType => OrderType
    case FPnl => Pnl
    case FNetPnL => NetPnL
    case FRisk => Risk
    case FSlRisk => SlRisk
    case FMaxRR => MaxRR
    case FStatus => Status
    case FProfitOrLoss => ProfitOrLoss
    case FSession => Session
    case FTimeframe => Timeframe
    case FNewsImpact => NewsImpact
    case FBias => Bias
    case FNarrative => Narrative
    case FModel => Model
    case FTradeType => TradeType
    case FPdArray => PdArray
    case FMistake => Mistake
    case FPsychology => Psychology
    case FConfidenceLevel => ConfidenceLevel
    case FStressLevel => StressLevel
    case FNotes => Notes
  }

  /** The names the change handler treats as numbers. */
  const NumericFieldNames: seq<string> :=
    ["entry", "exit", "position", "pnl", "netPnL", "risk", "slRisk", "confidenceLevel", "stressLevel"]

  predicate IsNumeric(f: FormField)
  {
    f in {FEntry, FExit, FPosition, FPnl, FNetPnL, FRisk, FSlRisk, FConfidenceLevel, FStressLevel}
  }

  /** The numeric inputs are exactly those whose field name is in the handler's list. */
  lemma NumericByName(f: FormField)
    ensures IsNumeric(f) <==> Name(ToField(f)) in NumericFieldNames
  {
    var n := Name(ToField(f));
    if !IsNumeric(f) {
      forall i | 0 <= i < |NumericFieldNames|
        ensures n != NumericFieldNames[i]
      {
        NameDiffers(f, i);
      }
    }
  }

  lemma NameDiffers(f: FormField, i: nat)
    requires !IsNumeric(f) && i < |NumericFieldNames|
    ensures Name(ToField(f)) != NumericFieldNames[i]
  {
  }

  /** The value a numeric input stores: `parseFloat(value) || 0`, where `parse`
      answers None for NaN. */
  function NumberOf(raw: string, parse: string -> Option<real>): real
  {
    ValueOr(parse(raw), 0.0)
  }

  /** `setFormData(prev => ({...prev, [name]: value}))`, with numeric fields parsed. */
  function Edit(t: Trade, f: FormField, raw: string, parse: string -> Option<real>): (r: Trade)
  {
    var n := NumberOf(raw, parse);
    match f
    case FDate => t.(date := raw)
    case FInstrument => t.(instrument := raw)
    case FSymbol => t.(symbol := raw)
    case FDirection => t.(direction := raw)
    case FEntry => t.(entry := n)
    case FExit => t.(exit := n)
    case FPosition => t.(position := n)
    case FOrderType => t.(orderType := raw)
    case FPnl => t.(pnl := n)
    case FNetPnL => t.(netPnL := n)
    case FRisk => t.(risk := n)
    case FSlRisk => t.(slRisk := n)
    case FMaxRR => t.(maxRR := raw)
    case FStatus => t.(status := raw)
    case FProfitOrLoss => t.(profitOrLoss := raw)
    case FSession => t.(session := raw)
    case FTimeframe => t.(timeframe := raw)
    case FNewsImpact => t.(newsImpact := raw)
    case FBias => t.(bias := raw)
    case FNarrative => t.(narrative := raw)
    case FModel => t.(model := raw)
    case FTradeType => t.(tradeType := raw)
    case FPdArray => t.(pdArray := raw)
    case FMistake => t.(mistake := raw)
    case FPsychology => t.(psychology := raw)
    case FConfidenceLevel => t.(confidenceLevel := n)
    case FStressLevel => t.(stressLevel := n)
    case FNotes => t.(notes := raw)
  }

  /** The edited field reads back the new value: the parsed number (0 when unreadable)
      for a numeric input, the raw text otherwise. */
  lemma EditSetsField(t: Trade, f: FormField, raw: string, parse: string -> Option<real>)
    ensures Get(Edit(t, f, raw, parse), ToField(f))
      == if IsNumeric(f) then Num(NumberOf(raw, parse)) else Text(raw)
  {
    var g := Group(f);
    if g == 0 {
      SetsFieldInGroup0(t, f, raw, parse);
    } else if g == 1 {
      SetsFieldInGroup1(t, f, raw, parse);
    } else if g == 2 {
      SetsFieldInGroup2(t, f, raw, parse);
    } else {
      SetsFieldInGroup3(t, f, raw, parse);
    }
  }

  /** Every other field keeps its value. */
  lemma EditKeepsOthers(t: Trade, f: FormField, raw: string, parse: string -> Option<real>, g: Field)
    requires g != ToField(f)
    ensures Get(Edit(t, f, raw, parse), g) == Get(t, g)
  {
    var k := Group(f);
    if k == 0 {
      KeepsOthersInGroup0(t, f, raw, parse, g);
    } else if k == 1 {
      KeepsOthersInGroup1(t, f, raw, parse, g);
    } else if k == 2 {
      KeepsOthersInGroup2(t, f, raw, parse, g);
    } else {
      KeepsOthersInGroup3(t, f, raw, parse, g);
    }
  }

  /** The inputs in four groups of seven, in form order, so that each proof below
      considers a quarter of them. */
  function Group(f: FormField): (k: nat)
    ensures k < 4
  {
    match f
    case FDate | FInstrument | FSymbol | FDirection | FEntry | FExit | FPosition => 0
    case FOrderType | FPnl | FNetPnL | FRisk | FSlRisk | FMaxRR | FStatus => 1
    case FProfitOrLoss | FSession | FTimeframe | FNewsImpact | FBias | FNarrative | FModel => 2
    case FTradeType | FPdArray | FMistake | FPsychology | FConfidenceLevel | FStressLevel | FNotes => 3
  }

  lemma SetsFieldInGroup0(t: Trade, f: FormField, raw: string, parse: string -> Option<real>)
    requires Group(f) == 0
    ensures Get(Edit(t, f, raw, parse), ToField(f))
      == if IsNumeric(f) then Num(NumberOf(raw, parse)) else Text(raw)
  {
    match f
    case FDate =>
    case FInstrument =>
    case FSymbol =>
    case FDirection =>
    case FEntry =>
    case FExit =>
    case FPosition =>
    case _ => assert false;
  }

  lemma KeepsOthersInGroup0(t: Trade, f: FormField, raw: string, parse: string -> Option<real>, g: Field)
    requires Group(f) == 0 && g != ToField(f)
    ensures Get(Edit(t, f, raw, parse), g) == Get(t, g)
  {
    match f
    case FDate =>
    case FInstrument =>
    case FSymbol =>
    case FDirection =>
    case FEntry =>
    case FExit =>
    case FPosition =>
    case _ => assert false;
  }

  lemma SetsFieldInGroup1(t: Trade, f: FormField, raw: string, parse: string -> Option<real>)
    requires Group(f) == 1
    ensures Get(Edit(t, f, raw, parse), ToField(f))
      == if IsNumeric(f) then Num(NumberOf(raw, parse)) else Text(raw)
  {
    match f
    case FOrderType =>
    case FPnl =>
    case FNetPnL =>
    case FRisk =>
    case FSlRisk =>
    case FMaxRR =>
    case FStatus =>
    case _ => assert false;
  }

  lemma KeepsOthersInGroup1(t: Trade, f: FormField, raw: string, parse: string -> Option<real>, g: Field)
    requires Group(f) == 1 && g != ToField(f)
    ensures Get(Edit(t, f, raw, parse), g) == Get(t, g)
  {
    match f
    case FOrderType =>
    case FPnl =>
    case FNetPnL =>
    case FRisk =>
    case FSlRisk =>
    case FMaxRR =>
    case FStatus =>
    case _ => assert false;
  }

  lemma SetsFieldInGroup2(t: Trade, f: FormField, raw: string, parse: string -> Option<real>)
    requires Group(f) == 2
    ensures Get(Edit(t, f, raw, parse), ToField(f))
      == if IsNumeric(f) then Num(NumberOf(raw, parse)) else Text(raw)
  {
    match f
    case FProfitOrLoss =>
    case FSession =>
    case FTimeframe =>
    case FNewsImpact =>
    case FBias =>
    case FNarrative =>
    case FModel =>
    case _ => assert false;
  }

  lemma KeepsOthersInGroup2(t: Trade, f: FormField, raw: string, parse: string -> Option<real>, g: Field)
    requires Group(f) == 2 && g != ToField(f)
    ensures Get(Edit(t, f, raw, parse), g) == Get(t, g)
  {
    match f
    case FProfitOrLoss =>
    case FSession =>
    case FTimeframe =>
    case FNewsImpact =>
    case FBias =>
    case FNarrative =>
    case FModel =>
    case _ => assert false;
  }

  lemma SetsFieldInGroup3(t: Trade, f: FormField, raw: string, parse: string -> Option<real>)
    requires Group(f) == 3
    ensures Get(Edit(t, f, raw, parse), ToField(f))
      == if IsNumeric(f) then Num(NumberOf(raw, parse)) else Text(raw)
  {
    match f
    case FTradeType =>
    case FPdArray =>
    case FMistake =>
    case FPsychology =>
    case FConfidenceLevel =>
    case FStressLevel =>
    case FNotes =>
    case _ => assert false;
  }

  lemma KeepsOthersInGroup3(t: Trade, f: FormField, raw: string, parse: string -> Option<real>, g: Field)
    requires Group(f) == 3 && g != ToField(f)
    ensures Get(Edit(t, f, raw, parse), g) == Get(t, g)
  {
    match f
    case FTradeType =>
    case FPdArray =>
    case FMistake =>
    case FPsychology =>
    case FConfidenceLevel =>
    case FStressLevel =>
    case FNotes =>
    case _ => assert false;
  }

  /** A second edit of the same input overrides the first. */
  lemma EditLastWins(t: Trade, f: FormField, a: string, b: string, parse: string -> Option<real>)
    ensures Edit(Edit(t, f, a, parse), f, b, parse) == Edit(t, f, b, parse)
  {
    var k := Group(f);
    if k == 0 {
      LastWinsInGroup0(t, f, a, b, parse);
    } else if k == 1 {
      LastWinsInGroup1(t, f, a, b, parse);
    } else if k == 2 {
      LastWinsInGroup2(t, f, a, b, parse);
    } else {
      LastWinsInGroup3(t, f, a, b, parse);
    }
  }

  lemma LastWinsInGroup0(t: Trade, f: FormField, a: string, b: string, parse: string -> Option<real>)
    requires Group(f) == 0
    ensures Edit(Edit(t, f, a, parse), f, b, parse) == Edit(t, f, b, parse)
  {
    match f
    case FDate =>
    case FInstrument =>
    case FSymbol =>
    case FDirection =>
    case FEntry =>
    case FExit =>
    case FPosition =>
    case _ => assert false;
  }

  lemma LastWinsInGroup1(t: Trade, f: FormField, a: string, b: string, parse: string -> Option<real>)
    requires Group(f) == 1
    ensures Edit(Edit(t, f, a, parse), f, b, parse) == Edit(t, f, b, parse)
  {
    match f
    case FOrderType =>
    case FPnl =>
    case FNetPnL =>
    case FRisk =>
    case FSlRisk =>
    case FMaxRR =>
    case FStatus =>
    case _ => assert false;
  }

  lemma LastWinsInGroup2(t: Trade, f: FormField, a: string, b: string, parse: string -> Option<real>)
    requires Group(f) == 2
    ensures Edit(Edit(t, f, a, parse), f, b, parse) == Edit(t, f, b, parse)
  {
    match f
    case FProfitOrLoss =>
    case FSession =>
    case FTimeframe =>
    case FNewsImpact =>
    case FBias =>
    case FNarrative =>
    case FModel =>
    case _ => assert false;
  }

  lemma LastWinsInGroup3(t: Trade, f: FormField, a: string, b: string, parse: string -> Option<real>)
    requires Group(f) == 3
    ensures Edit(Edit(t, f, a, parse), f, b, parse) == Edit(t, f, b, parse)
  {
    match f
    case FTradeType =>
    case FPdArray =>
    case FMistake =>
    case FPsychology =>
    case FConfidenceLevel =>
    case FStressLevel =>
    case FNotes =>
    case _ => assert false;
  }

  // ---------------------------------------------------------------------------
  // Images

  /** `xs.filter((_, i) => i !== index)`. */
  function DropPosition<T>(xs: seq<T>, index: int): (r: seq<T>)
    ensures r == if 0 <= index < |xs| then xs[..index] + xs[index + 1..] else xs
    decreases |xs|
  {
    if |xs| == 0 then []
    else
      var rest := DropPosition(xs[1..], index - 1);
      assert index > 0 && index - 1 < |xs[1..]| ==> xs[1..][..index - 1] == xs[1..index];
      (if index == 0 then [] else [xs[0]]) + rest
  }

  /** `images?.filter(...)`: a trade without images stays without. */
  function RemoveImage(t: Trade, index: int): (r: Trade)
    ensures forall g: Field :: g != Images ==> Get(r, g) == Get(t, g)
    ensures t.images.None? ==> r.images.None?
    ensures t.images.Some? ==> r.images == Some(DropPosition(t.images.value, index))
  {
    t.(images := if t.images.Some? then Some(DropPosition(t.images.value, index)) else None)
  }

  /** A loaded image goes at the end of the list (an absent list counts as empty). */
  function AppendImage(t: Trade, image: string): (r: Trade)
    ensures forall g: Field :: g != Images ==> Get(r, g) == Get(t, g)
    ensures r.images.Some? && |r.images.value| == |ValueOr(t.images, [])| + 1
    ensures r.images.value[..|r.images.value| - 1] == ValueOr(t.images, [])
    ensures r.images.value[|r.images.value| - 1] == image
  {
    var before := ValueOr(t.images, []);
    assert (before + [image])[..|before|] == before;
    t.(images := Some(before + [image]))
  }

  /** Removing the image just appended restores the list (made explicit if it was absent). */
  lemma RemoveAppended(t: Trade, image: string)
    ensures RemoveImage(AppendImage(t, image), |ValueOr(t.images, [])|).images == Some(ValueOr(t.images, []))
  {
    var before := ValueOr(t.images, []);
    var appended := AppendImage(t, image);
    assert appended.images == Some(before + [image]);
    assert (before + [image])[..|before|] == before;
    assert (before + [image])[|before| + 1..] == [];
    assert RemoveImage(appended, |before|).images == Some(DropPosition(before + [image], |before|));
    assert DropPosition(before + [image], |before|) == before + [];
    assert before + [] == before;
  }

  // ---------------------------------------------------------------------------
  // Opening the form

  /** The blank record; `today` is the current UTC date in `YYYY-MM-DD` form. */
  function InitialTrade(today: string): (t: Trade)
    ensures t.id == 0 && t.date == today && t.pnl == 0.0 && t.tags == [] && t.images == Some([])
    ensures t.entry == 0.0 && t.exit == 0.0 && t.position == 0.0 && t.risk == 0.0
    ensures t.netPnL == 0.0 && t.slRisk == 0.0
    ensures t.maxRR == "1:1" && t.confidenceLevel == 3.0 && t.stressLevel == 3.0
  {
    Trade(0, today, "", "MNQ1!", "Long", 0.0, 0.0, 0.0, "Open", 0.0, 0.0, 0.0, "1:1", "",
          "Low", "NY AM Session", "15m", "Neutral", "Neutral", "Day Trade", "", "Market Order",
          "None", "Focused", 3.0, 3.0, "", [], "Breakeven", 0.0, Some([]))
  }

  /** The open effect: a copy of the trade to edit with `images` defaulted to an empty
      list, or the blank record. */
  function OnOpen(toEdit: Option<Trade>, today: string): (r: Trade)
    ensures toEdit.None? ==> r == InitialTrade(today)
    ensures toEdit.Some? ==> forall g: Field :: g != Images ==> Get(r, g) == Get(toEdit.value, g)
    ensures toEdit.Some? ==> r.images == Some(ValueOr(toEdit.value.images, []))
  {
    match toEdit
    case None => InitialTrade(today)
    case Some(t) => t.(images := Some(ValueOr(t.images, [])))
  }

  /** Opening the form on a trade that already carries an image list changes nothing. */
  lemma OnOpenKeepsComplete(t: Trade, today: string)
    requires t.images.Some?
    ensures OnOpen(Some(t), today) == t
  {
  }
}
