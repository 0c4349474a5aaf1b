/** The settings page's CSV export: a header line of the first trade's property
    names, then one line per trade of its property values, and a reader in the
    style of RFC 4180 against which the encoding is judged. */
module CsvExport {
  import opened Base
  import opened Strings
  import opened Grouping
  import opened Trades

  /** A trade as its own enumerable properties, in the object's key order. */
  type Record = seq<(string, Value)>

  /** The record of a trade whose keys were created in the order `order`; an absent
      image list is a key holding `undefined`. */
  function RecordOf(t: Trade, order: seq<Field>): (r: Record)
    ensures KeysOf(r) == MapSeq(order, Name)
    ensures forall i :: 0 <= i < |r| ==> r[i].1 == Get(t, order[i])
  {
    seq(|order|, i requires 0 <= i < |order| => (Name(order[i]), Get(t, order[i])))
  }

  function Quoted(s: string): string { "\"" + s + "\"" }

  // ---------------------------------------------------------------------------
  // Reading CSV text back

  /** An unquoted field: everything up to the next comma, line break or the end. */
  function ReadPlain(s: string): (r: (string, string))
    ensures |r.1| <= |s|
    ensures r.1 == "" || r.1[0] == ',' || r.1[0] == '\n'
    decreases |s|
  {
    if |s| == 0 || s[0] == ',' || s[0] == '\n' then ("", s)
    else
      var (f, rest) := ReadPlain(s[1..]);
      ([s[0]] + f, rest)
  }

  /** The inside of a quoted field, after its opening quote: a doubled quote stands for
      one quote, a single quote closes the field, and anything between the closing quote
      and the next separator is kept as well. */
  function ReadQuoted(s: string): (r: (string, string))
    ensures |r.1| <= |s|
    ensures r.1 == "" || r.1[0] == ',' || r.1[0] == '\n'
    decreases |s|
  {
    if |s| == 0 then ("", "")
    else if s[0] == '"' && |s| > 1 && s[1] == '"' then
      var (f, rest) := ReadQuoted(s[2..]);
      ("\"" + f, rest)
    else if s[0] == '"' then ReadPlain(s[1..])
    else
      var (f, rest) := ReadQuoted(s[1..]);
      ([s[0]] + f, rest)
  }

  /** One field and what follows it, which starts at a separator or is empty. */
  function ReadField(s: string): (r: (string, string))
    ensures |r.1| <= |s|
    ensures r.1 == "" || r.1[0] == ',' || r.1[0] == '\n'
  {
    if |s| > 0 && s[0] == '"' then ReadQuoted(s[1..]) else ReadPlain(s)
  }

  /** The rows of a CSV text, each a list of fields; like `split`, the empty text is
      one row with one empty field. */
  function ReadRows(s: string): (rows: seq<seq<string>>)
    ensures |rows| >= 1
    ensures forall i :: 0 <= i < |rows| ==> |rows[i]| >= 1
    decreases |s|
  {
    var (f, rest) := ReadField(s);
    if rest == "" then [[f]]
    else if rest[0] == ',' then
      var more := ReadRows(rest[1..]);
      [[f] + more[0]] + more[1..]
    else [[f]] + ReadRows(rest[1..])
  }

  /** `e` is read back as the field `d` whatever separator or end follows it. */
  ghost predicate ReadsAs(e: string, d: string)
  {
    forall rest: string {:trigger ReadField(e + rest)} ::
      (rest == "" || rest[0] == ',' || rest[0] == '\n') ==> ReadField(e + rest) == (d, rest)
  }

  // ---------------------------------------------------------------------------
  // Encoding a field

  predicate Plain(s: string) { ',' !in s && '"' !in s && '\n' !in s }

  /** Doubling every quote, as section 2 of RFC 4180 asks inside a quoted field. */
  function Escape(s: string): (r: string)
    ensures |r| >= |s|
    decreases |s|
  {
    if |s| == 0 then ""
    else (if s[0] == '"' then "\"\"" else [s[0]]) + Escape(s[1..])
  }

  /** A field that holds a separator or a quote is quoted and escaped; any other is
      written as it is. */
  function EncodeText(s: string): string
  {
    if Plain(s) then s else Quoted(Escape(s))
  }

  predicate NoSeparator(s: string) { ',' !in s && '\n' !in s }

  lemma {:induction false} ReadPlainOf(s: string, rest: string)
    requires NoSeparator(s)
    requires rest == "" || rest[0] == ',' || rest[0] == '\n'
    ensures ReadPlain(s + rest) == (s, rest)
    decreases |s|
  {
    if |s| > 0 {
      assert (s + rest)[0] == s[0] && s[0] != ',' && s[0] != '\n';
      assert NoSeparator(s[1..]) by {
        assert forall c :: c in s[1..] ==> c in s;
      }
      assert (s + rest)[1..] == s[1..] + rest;
      ReadPlainOf(s[1..], rest);
      assert [s[0]] + s[1..] == s;
    } else {
      assert s + rest == rest;
    }
  }

  lemma {:induction false} ReadQuotedOf(s: string, rest: string)
    requires rest == "" || rest[0] == ',' || rest[0] == '\n'
    ensures ReadQuoted(Escape(s) + "\"" + rest) == (s, rest)
    decreases |s|
  {
    var t := Escape(s) + "\"" + rest;
    if |s| == 0 {
      assert t == "\"" + rest;
      DropPrefix("\"", rest);
      ReadPlainOf("", rest);
      assert "" + rest == rest;
    } else {
      var x := if s[0] == '"' then "\"\"" else [s[0]];
      var inner := Escape(s[1..]) + "\"" + rest;
      Regroup(x, Escape(s[1..]), "\"", rest);
      assert t == x + inner;
      DropPrefix(x, inner);
      ReadQuotedOf(s[1..], rest);
      if s[0] == '"' {
        assert t[0] == '"' && t[1] == '"';
        assert "\"" + s[1..] == s;
      } else {
        assert t[0] == s[0];
        assert [s[0]] + s[1..] == s;
      }
    }
  }

  lemma Regroup(a: string, b: string, c: string, d: string)
    ensures a + b + c + d == a + (b + c + d)
  {
  }

  lemma DropPrefix(a: string, b: string)
    ensures (a + b)[|a|..] == b
  {
  }

  /** A quoted and escaped field reads back as the text it encodes. */
  lemma QuotedReadsAs(s: string)
    ensures ReadsAs(Quoted(Escape(s)), s)
  {
    forall rest: string | rest == "" || rest[0] == ',' || rest[0] == '\n'
      ensures ReadField(Quoted(Escape(s)) + rest) == (s, rest)
    {
      var t := Quoted(Escape(s)) + rest;
      assert t[1..] == Escape(s) + "\"" + rest;
      ReadQuotedOf(s, rest);
    }
  }

  /** Every encoded text reads back as itself. */
  lemma EncodeTextReadsAs(s: string)
    ensures ReadsAs(EncodeText(s), s)
  {
    if Plain(s) {
      forall rest: string | rest == "" || rest[0] == ',' || rest[0] == '\n'
        ensures ReadField(s + rest) == (s, rest)
      {
        ReadPlainOf(s, rest);
        assert |s| > 0 ==> (s + rest)[0] == s[0];
      }
    } else {
      QuotedReadsAs(s);
    }
  }

  // ---------------------------------------------------------------------------
  // Reading joined fields and lines

  /** A line of fields that each read back, followed by a line break and more rows (or
      by nothing), reads back as that row followed by those rows. */
  lemma {:induction false} ReadRowsOfLine(cells: seq<string>, decoded: seq<string>, tail: string, after: seq<seq<string>>)
    requires |cells| >= 1 && |decoded| == |cells|
    requires forall k :: 0 <= k < |cells| ==> ReadsAs(cells[k], decoded[k])
    requires (tail == "" && after == []) || (|tail| > 0 && tail[0] == '\n' && ReadRows(tail[1..]) == after)
    ensures ReadRows(Join(cells, ",") + tail) == [decoded] + after
    decreases |cells|
  {
    if |cells| == 1 {
      assert ReadsAs(cells[0], decoded[0]);
      assert Join(cells, ",") == cells[0];
      assert ReadField(cells[0] + tail) == (decoded[0], tail);
      assert decoded == [decoded[0]];
    } else {
      var restLine := Join(cells[1..], ",") + tail;
      assert Join(cells, ",") + tail == cells[0] + ("," + restLine);
      assert ReadsAs(cells[0], decoded[0]);
      assert ReadField(cells[0] + ("," + restLine)) == (decoded[0], "," + restLine);
      assert ("," + restLine)[1..] == restLine;
      ReadRowsOfLine(cells[1..], decoded[1..], tail, after);
      assert [decoded[0]] + decoded[1..] == decoded;
    }
  }

  /** Lines joined with line breaks read back as the rows they encode. */
  lemma {:induction false} ReadRowsOfLines(lines: seq<seq<string>>, decoded: seq<seq<string>>)
    requires |lines| >= 1 && |decoded| == |lines|
    requires forall i :: 0 <= i < |lines| ==> |lines[i]| >= 1 && |decoded[i]| == |lines[i]|
    requires forall i, k :: 0 <= i < |lines| && 0 <= k < |lines[i]| ==> ReadsAs(lines[i][k], decoded[i][k])
    ensures ReadRows(Join(MapSeq(lines, JoinFields), "\n")) == decoded
    decreases |lines|
  {
    var texts := MapSeq(lines, JoinFields);
    if |lines| == 1 {
      assert Join(texts, "\n") == Join(lines[0], ",") + "";
      ReadRowsOfLine(lines[0], decoded[0], "", []);
    } else {
      ReadRowsOfLines(lines[1..], decoded[1..]);
      assert MapSeq(lines[1..], JoinFields) == texts[1..];
      var tail := "\n" + Join(texts[1..], "\n");
      assert Join(texts, "\n") == Join(lines[0], ",") + tail;
      assert tail[1..] == Join(texts[1..], "\n");
      ReadRowsOfLine(lines[0], decoded[0], tail, decoded[1..]);
      assert [decoded[0]] + decoded[1..] == decoded;
    }
  }

  function JoinFields(cells: seq<string>): string { Join(cells, ",") }

  // ---------------------------------------------------------------------------
  // The export as written

  /** What a value stands for in the file: a list's items joined with `;`, a number as
      `showNum` prints it, `undefined` as nothing. */
  function Display(v: Value, showNum: real -> string): string
  {
    match v
    case List(xs) => Join(xs, ";")
    case Text(s) => s
    case Num(n) => showNum(n)
    case Undefined => ""
  }

  /** The cell the source writes: a list is quoted, a text is quoted only when it holds
      a comma, and nothing is escaped. */
  function CellAsWritten(v: Value, showNum: real -> string): (c: string)
    ensures v.List? || (v.Text? && ',' in v.s) ==> c == Quoted(Display(v, showNum))
    ensures !v.List? && !(v.Text? && ',' in v.s) ==> c == Display(v, showNum)
  {
    match v
    case List(xs) => Quoted(Join(xs, ";"))
    case Text(s) => if ',' in s then Quoted(s) else s
    case Num(n) => showNum(n)
    case Undefined => ""
  }

  function CellsAsWritten(r: Record, showNum: real -> string): seq<string>
  {
    seq(|r|, i requires 0 <= i < |r| => CellAsWritten(r[i].1, showNum))
  }

  /** `[headers, ...rows].join('\n')`, or nothing to export without trades. */
  function ExportAsWritten(records: seq<Record>, showNum: real -> string): (r: Option<string>)
    ensures r.None? <==> |records| == 0
  {
    if |records| == 0 then None
    else
      var lines := [KeysOf(records[0])] + seq(|records|, i requires 0 <= i < |records| => CellsAsWritten(records[i], showNum));
      Some(Join(MapSeq(lines, JoinFields), "\n"))
  }

  /** A line holding one unquoted field, followed by a line break and more rows (or by
      nothing), reads back as that field's row followed by those rows. */
  lemma ReadRowsOfPlain(s: string, tail: string, after: seq<seq<string>>)
    requires NoSeparator(s) && (s == "" || s[0] != '"')
    requires (tail == "" && after == []) || (|tail| > 0 && tail[0] == '\n' && ReadRows(tail[1..]) == after)
    ensures ReadRows(s + tail) == [[s]] + after
  {
    ReadPlainOf(s, tail);
    assert |s| > 0 ==> (s + tail)[0] == s[0];
    assert ReadField(s + tail) == (s, tail);
  }

  /** A note holding a line break is written as it is. */
  lemma LineBreakWrittenBare(showNum: real -> string)
    ensures ExportAsWritten([[("notes", Text("a\nb"))]], showNum) == Some("notes\na\nb")
  {
    var rec: Record := [("notes", Text("a\nb"))];
    assert ',' !in "a\nb";
    assert CellsAsWritten(rec, showNum) == ["a\nb"];
    assert KeysOf(rec) == ["notes"];
    var lines := [["notes"], ["a\nb"]];
    assert MapSeq(lines, JoinFields) == ["notes", "a\nb"];
    assert JoinFields(["notes"]) == "notes" && JoinFields(["a\nb"]) == "a\nb";
    assert MapSeq(lines, JoinFields) == ["notes", "a\nb"];
    assert Join(["notes", "a\nb"], "\n") == "notes" + "\n" + "a\nb";
    var body := seq(1, i requires 0 <= i < 1 => CellsAsWritten([rec][i], showNum));
    assert body == [["a\nb"]];
    assert [KeysOf(rec)] + body == lines;
    assert ExportAsWritten([rec], showNum) == Some(Join(MapSeq(lines, JoinFields), "\n"));
    assert "notes" + "\n" + "a\nb" == "notes\na\nb";
  }

  /** ... and the text it is written as reads back as three rows, not two. */
  lemma LineBreakSplitsRecord()
    ensures ReadRows("notes\na\nb") == [["notes"], ["a"], ["b"]]
  {
    ReadRowsOfPlain("b", "", []);
    assert "b" + "" == "b";
    assert ("\nb")[1..] == "b";
    ReadRowsOfPlain("a", "\nb", [["b"]]);
    assert "a" + "\nb" == "a\nb";
    assert ("\na\nb")[1..] == "a\nb";
    ReadRowsOfPlain("notes", "\na\nb", [["a"], ["b"]]);
    assert "notes" + "\na\nb" == "notes\na\nb";
  }

  /** A text holding both a comma and a quote is quoted without escaping ... */
  lemma QuoteWrittenBare(showNum: real -> string)
    ensures CellAsWritten(Text("x\",y"), showNum) == "\"x\",y\""
  {
    assert "x\",y"[2] == ',';
  }

  /** ... and reads back as two fields. */
  lemma QuoteBreaksField()
    ensures ReadRows("\"x\",y\"") == [["x", "y\""]]
  {
    var s := "\"x\",y\"";
    ReadRowsOfPlain("y\"", "", []);
    assert "y\"" + "" == "y\"";
    var q := ",y\"";
    assert ReadPlain(q) == ("", q);
    assert "\",y\""[1..] == q;
    assert ReadQuoted("\",y\"") == ("", q);
    var t := "x\",y\"";
    assert t[0] == 'x' && t[1..] == "\",y\"";
    assert ReadQuoted(t) == ([t[0]] + ReadQuoted(t[1..]).0, ReadQuoted(t[1..]).1);
    assert [t[0]] + "" == "x";
    assert s[1..] == "x\",y\"";
    assert ReadField(s) == ("x", q);
    assert q[1..] == "y\"";
    assert ReadRows("y\"") == [["y\""]];
    assert ReadRows(s) == [["x"] + ["y\""]] + [];
    var row: seq<string> := ["x"] + ["y\""];
    assert row == ["x", "y\""] by {
      assert |row| == 2 && row[0] == "x" && row[1] == "y\"";
    }
    assert [row] + [] == [row];
  }

  // ---------------------------------------------------------------------------
  // The export with RFC 4180 quoting

  /** Every cell, header names included, goes through `EncodeText`; a list keeps the
      source's habit of always being quoted. */
  function Cell(v: Value, showNum: real -> string): (c: string)
    ensures ReadsAs(c, Display(v, showNum))
  {
    var d := Display(v, showNum);
    if v.List? then
      QuotedReadsAs(d);
      Quoted(Escape(d))
    else
      EncodeTextReadsAs(d);
      EncodeText(d)
  }

  function Cells(r: Record, showNum: real -> string): seq<string>
  {
    seq(|r|, i requires 0 <= i < |r| => Cell(r[i].1, showNum))
  }

  function Displays(r: Record, showNum: real -> string): seq<string>
  {
    seq(|r|, i requires 0 <= i < |r| => Display(r[i].1, showNum))
  }

  function Export(records: seq<Record>, showNum: real -> string): (r: Option<string>)
    ensures r.None? <==> |records| == 0
  {
    if |records| == 0 then None
    else
      var header := MapSeq(KeysOf(records[0]), EncodeText);
      var lines := [header] + seq(|records|, i requires 0 <= i < |records| => Cells(records[i], showNum));
      Some(Join(MapSeq(lines, JoinFields), "\n"))
  }

  /** Reading the export back gives the first record's names, then every record's
      values as text, one row each. */
  lemma ExportReadsBack(records: seq<Record>, showNum: real -> string)
    requires |records| > 0
    requires forall i :: 0 <= i < |records| ==> |records[i]| >= 1
    ensures ReadRows(Export(records, showNum).value)
      == [KeysOf(records[0])] + seq(|records|, i requires 0 <= i < |records| => Displays(records[i], showNum))
  {
    var header := MapSeq(KeysOf(records[0]), EncodeText);
    var lines := [header] + seq(|records|, i requires 0 <= i < |records| => Cells(records[i], showNum));
    var decoded := [KeysOf(records[0])] + seq(|records|, i requires 0 <= i < |records| => Displays(records[i], showNum));
    forall i, k | 0 <= i < |lines| && 0 <= k < |lines[i]|
      ensures ReadsAs(lines[i][k], decoded[i][k])
    {
      if i == 0 {
        EncodeTextReadsAs(KeysOf(records[0])[k]);
      } else {
        assert lines[i] == Cells(records[i - 1], showNum);
        assert decoded[i] == Displays(records[i - 1], showNum);
      }
    }
    ReadRowsOfLines(lines, decoded);
  }

  /** A list's items come back by splitting its field at `;` when no item holds one. */
  lemma ListItemsReadBack(xs: seq<string>)
    requires |xs| >= 1
    requires forall i :: 0 <= i < |xs| ==> ';' !in xs[i]
    ensures Split(Join(xs, ";"), ';') == xs
  {
    SplitJoin(xs, ';');
  }

  /** On ordinary data (no quote or line break in any text, name or printed number) the
      source's export is the RFC 4180 one. */
  lemma AsWrittenAgreesOnPlainData(records: seq<Record>, showNum: real -> string)
    requires forall i, k :: 0 <= i < |records| && 0 <= k < |records[i]| ==>
      '"' !in Display(records[i][k].1, showNum) && '\n' !in Display(records[i][k].1, showNum)
    requires forall i, k :: 0 <= i < |records| && 0 <= k < |records[i]| ==>
      records[i][k].1.Num? ==> ',' !in Display(records[i][k].1, showNum)
    requires |records| > 0 ==> forall k :: 0 <= k < |records[0]| ==> Plain(records[0][k].0)
    ensures ExportAsWritten(records, showNum) == Export(records, showNum)
  {
    if |records| > 0 {
      assert MapSeq(KeysOf(records[0]), EncodeText) == KeysOf(records[0]);
      forall i | 0 <= i < |records|
        ensures Cells(records[i], showNum) == CellsAsWritten(records[i], showNum)
      {
        forall k | 0 <= k < |records[i]|
          ensures Cell(records[i][k].1, showNum) == CellAsWritten(records[i][k].1, showNum)
        {
          var d := Display(records[i][k].1, showNum);
          EscapePlain(d);
        }
      }
      var a := seq(|records|, i requires 0 <= i < |records| => Cells(records[i], showNum));
      var b := seq(|records|, i requires 0 <= i < |records| => CellsAsWritten(records[i], showNum));
      assert a == b;
    }
  }

  lemma {:induction false} EscapePlain(s: string)
    requires '"' !in s
    ensures Escape(s) == s
    decreases |s|
  {
    if |s| > 0 {
      EscapePlain(s[1..]);
      assert [s[0]] + s[1..] == s;
    }
  }
}
