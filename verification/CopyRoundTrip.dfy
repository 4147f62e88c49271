/** Parsing an encoded COPY payload returns the rows that were encoded. */
module CopyRoundTrip {
  import opened Prelude
  import opened Values
  import opened CopyText
  import opened CopyValues
  import opened CopyCodec

  /** What the options must satisfy for a payload to be readable. */
  predicate GoodOptions(o: Options) {
    && !o.binary
    && PlainDelimiter(o.delimiter) && o.delimiter != '\n' && o.delimiter != '\r'
    && '\\' !in o.nullString && o.delimiter !in o.nullString && NoBreak(o.nullString)
  }

  /** NULL, or a value of the column's type whose text is not the null string. */
  predicate GoodValue(v: Value, ty: ColumnType, o: Options) {
    v.Null? || (HasType(v, ty) && Render(v) != o.nullString)
  }

  predicate GoodRow(row: RowData, cols: seq<Column>, o: Options) {
    RowEncodable(row, cols) && forall i :: 0 <= i < |cols| ==> GoodValue(ValueOf(row, cols[i]), cols[i].ty, o)
  }

  predicate GoodRows(rows: seq<RowData>, cols: seq<Column>, o: Options) {
    && (forall i :: 0 <= i < |rows| ==> RowEncodable(rows[i], cols))
    && (forall i :: 0 <= i < |rows| ==> GoodRow(rows[i], cols, o))
  }

  /** The row restricted to the copied columns, absent ones being NULL. */
  function Copied(row: RowData, cols: seq<Column>): RowData {
    map id | id in (set i | 0 <= i < |cols| :: cols[i].id) :: if id in row then row[id] else Null
  }

  function Shown(v: Value, o: Options): string
    requires Encodable(v)
  {
    if v.Null? then o.nullString else Render(v)
  }

  // ---- Line breaks --------------------------------------------------------------------------------

  lemma {:induction false} EscapeNoBreak(s: string, d: char)
    requires d != '\n' && d != '\r'
    ensures NoBreak(Escape(s, d))
    decreases |s|
  {
    if s != [] { EscapeNoBreak(s[1..], d); }
  }

  lemma {:induction false} JoinNoBreak(parts: seq<string>, d: char)
    requires parts != [] && d != '\n' && d != '\r'
    requires forall i :: 0 <= i < |parts| ==> NoBreak(parts[i])
    ensures NoBreak(Join(parts, d))
    decreases |parts|
  {
    if |parts| > 1 { JoinNoBreak(parts[1..], d); }
  }

  lemma PayloadNoBreak(rows: seq<RowData>, cols: seq<Column>, o: Options)
    requires GoodOptions(o) && forall i :: 0 <= i < |rows| ==> RowEncodable(rows[i], cols)
    ensures forall l :: l in PayloadLines(rows, cols, o) ==> NoBreak(l)
  {
    var names := seq(|cols|, i requires 0 <= i < |cols| => cols[i].name);
    assert NoBreak(HeaderLine(cols, o)) by {
      forall i | 0 <= i < |cols| ensures NoBreak(EscapeAll(names, o.delimiter)[i]) { EscapeNoBreak(names[i], o.delimiter); }
      if cols != [] { JoinNoBreak(EscapeAll(names, o.delimiter), o.delimiter); }
    }
    forall i | 0 <= i < |rows|
      ensures NoBreak(RowLines(rows, cols, o)[i])
    {
      var parts := Parts(rows[i], cols, o);
      forall j | 0 <= j < |parts| ensures NoBreak(parts[j]) {
        var v := ValueOf(rows[i], cols[j]);
        if !v.Null? { EscapeNoBreak(Render(v), o.delimiter); }
      }
      if cols != [] { JoinNoBreak(parts, o.delimiter); }
    }
  }

  // ---- One line -----------------------------------------------------------------------------------

  lemma LineSplits(row: RowData, cols: seq<Column>, o: Options)
    requires GoodOptions(o) && GoodRow(row, cols, o) && cols != []
    ensures Split(Join(Parts(row, cols, o), o.delimiter), o.delimiter, []) ==
      seq(|cols|, i requires 0 <= i < |cols| => Shown(ValueOf(row, cols[i]), o))
  {
    var parts := Parts(row, cols, o);
    var shown := seq(|cols|, i requires 0 <= i < |cols| => Shown(ValueOf(row, cols[i]), o));
    forall i | 0 <= i < |cols|
      ensures ReadsAs(parts[i], shown[i], o.delimiter)
    {
      var v := ValueOf(row, cols[i]);
      if v.Null? { RawReadsIff(o.nullString, o.delimiter); } else { EscapeReads(Render(v), o.delimiter); }
    }
    JoinReads(parts, shown, o.delimiter);
  }

  lemma {:induction false} FieldsParse(row: RowData, cols: seq<Column>, o: Options, fields: seq<string>)
    requires GoodRow(row, cols, o) && |fields| == |cols|
    requires forall i :: 0 <= i < |cols| ==> fields[i] == Shown(ValueOf(row, cols[i]), o)
    ensures ParseFields(fields, cols, o) == Ok(Copied(row, cols))
    decreases |cols|
  {
    if cols != [] {
      var n := |cols| - 1;
      FieldsParse(row, cols[..n], o, fields[..n]);
      var v := ValueOf(row, cols[n]);
      assert GoodValue(v, cols[n].ty, o);
      if !v.Null? { ValueRoundTripIff(v, cols[n].ty, o.nullString); }
      assert Copied(row, cols) == Copied(row, cols[..n])[cols[n].id := v];
    }
  }

  lemma LineParses(row: RowData, cols: seq<Column>, o: Options)
    requires GoodOptions(o) && GoodRow(row, cols, o) && cols != []
    ensures ParseLine(Join(Parts(row, cols, o), o.delimiter), cols, o) == Ok(Copied(row, cols))
  {
    LineSplits(row, cols, o);
    FieldsParse(row, cols, o, Split(Join(Parts(row, cols, o), o.delimiter), o.delimiter, []));
  }

  // ---- All lines ----------------------------------------------------------------------------------

  function CopiedRows(rows: seq<RowData>, cols: seq<Column>): seq<RowData> {
    seq(|rows|, i requires 0 <= i < |rows| => Copied(rows[i], cols))
  }

  /** A non-empty line parses to its row, before whatever the other lines parse to. */
  lemma ParseHead(line: string, rest: seq<string>, cols: seq<Column>, o: Options, row: RowData, rows: seq<RowData>)
    requires line != [] && ParseLine(line, cols, o) == Ok(row) && ParseLines(rest, cols, o, false) == Ok(rows)
    ensures ParseLines([line] + rest, cols, o, false) == Ok([row] + rows)
  {
    assert ([line] + rest)[1..] == rest;
  }

  lemma RowLinesHead(rows: seq<RowData>, cols: seq<Column>, o: Options)
    requires rows != [] && forall i :: 0 <= i < |rows| ==> RowEncodable(rows[i], cols)
    ensures RowLines(rows, cols, o) == [JoinOrEmpty(Parts(rows[0], cols, o), o.delimiter)] + RowLines(rows[1..], cols, o)
    ensures CopiedRows(rows, cols) == [Copied(rows[0], cols)] + CopiedRows(rows[1..], cols)
  {
  }

  lemma {:induction false} RowLinesParse(rows: seq<RowData>, cols: seq<Column>, o: Options)
    requires GoodOptions(o) && cols != []
    requires GoodRows(rows, cols, o)
    requires forall i :: 0 <= i < |rows| ==> JoinOrEmpty(Parts(rows[i], cols, o), o.delimiter) != []
    ensures ParseLines(RowLines(rows, cols, o), cols, o, false) == Ok(CopiedRows(rows, cols))
    decreases |rows|
  {
    if rows == [] {
      assert RowLines(rows, cols, o) == [] && CopiedRows(rows, cols) == [];
    } else {
      RowLinesParse(rows[1..], cols, o);
      RowLinesHead(rows, cols, o);
      LineParses(rows[0], cols, o);
      ParseHead(JoinOrEmpty(Parts(rows[0], cols, o), o.delimiter), RowLines(rows[1..], cols, o), cols, o,
                Copied(rows[0], cols), CopiedRows(rows[1..], cols));
    }
  }

  /** At most one row per line; fewer if a line is empty or the first one counts as a header. */
  lemma {:induction false} ParsedAtMostLines(lines: seq<string>, cols: seq<Column>, o: Options, skipHeader: bool)
    requires ParseLines(lines, cols, o, skipHeader).Ok?
    ensures |ParseLines(lines, cols, o, skipHeader).value| <= |lines|
    ensures [] in lines || (skipHeader && lines != []) ==> |ParseLines(lines, cols, o, skipHeader).value| < |lines|
    decreases |lines|
  {
    if lines != [] { ParsedAtMostLines(lines[1..], cols, o, skipHeader && lines[0] == []); }
  }

  // ---- The round trip -----------------------------------------------------------------------------

  /** A value that COPY writes as nothing at all. */
  predicate WritesNothing(v: Value, o: Options) {
    v == Text([]) || (v == Null && o.nullString == [])
  }

  lemma EscapeEmptyIff(s: string, d: char)
    ensures Escape(s, d) == [] <==> s == []
  {
  }

  /** A row is written as an empty line exactly if it has no column, or one that is written as nothing. */
  lemma EmptyLineIff(row: RowData, cols: seq<Column>, o: Options)
    requires RowEncodable(row, cols)
    ensures JoinOrEmpty(Parts(row, cols, o), o.delimiter) == [] <==>
      cols == [] || (|cols| == 1 && WritesNothing(ValueOf(row, cols[0]), o))
  {
    if |cols| == 1 {
      var v := ValueOf(row, cols[0]);
      if !v.Null? { EscapeEmptyIff(Render(v), o.delimiter); }
    }
  }

  lemma EmptyHeaderIff(cols: seq<Column>, o: Options)
    ensures HeaderLine(cols, o) == [] <==> cols == [] || (|cols| == 1 && cols[0].name == [])
  {
    if |cols| == 1 { EscapeEmptyIff(cols[0].name, o.delimiter); }
  }

  /** What survives: nothing, rows of two or more columns, or a single named column never written as nothing. */
  predicate Survives(rows: seq<RowData>, cols: seq<Column>, o: Options) {
    || rows == []
    || |cols| >= 2
    || (|cols| == 1 && (o.header ==> cols[0].name != []) && forall i :: 0 <= i < |rows| ==> !WritesNothing(ValueOf(rows[i], cols[0]), o))
  }

  /** The payload parses as its row lines, the first of which counts as a header if the header is an empty line. */
  lemma PayloadParses(rows: seq<RowData>, cols: seq<Column>, o: Options)
    requires GoodOptions(o) && GoodRows(rows, cols, o)
    ensures ParseText(Unlines(PayloadLines(rows, cols, o)), cols, o) ==
      ParseLines(RowLines(rows, cols, o), cols, o, o.header && HeaderLine(cols, o) == [])
  {
    var lines, body := PayloadLines(rows, cols, o), RowLines(rows, cols, o);
    PayloadNoBreak(rows, cols, o);
    LinesRoundTrip(lines);
    if o.header { assert lines[1..] == body; } else { assert lines == body; }
  }

  /**
   * With readable options and storable values, COPY brings back exactly the copied columns of
   * exactly the rows it wrote if and only if the rows survive.
   */
  lemma CopyRoundTripIff(rows: seq<RowData>, cols: seq<Column>, o: Options)
    requires GoodOptions(o) && GoodRows(rows, cols, o)
    ensures ParseText(Unlines(PayloadLines(rows, cols, o)), cols, o) == Ok(CopiedRows(rows, cols)) <==> Survives(rows, cols, o)
  {
    var body, skip := RowLines(rows, cols, o), o.header && HeaderLine(cols, o) == [];
    PayloadParses(rows, cols, o);
    EmptyHeaderIff(cols, o);
    forall i | 0 <= i < |rows|
      ensures body[i] == [] <==> cols == [] || (|cols| == 1 && WritesNothing(ValueOf(rows[i], cols[0]), o))
    {
      EmptyLineIff(rows[i], cols, o);
    }
    if rows == [] {
      assert body == [] && CopiedRows(rows, cols) == [];
    } else if Survives(rows, cols, o) {
      RowLinesParse(rows, cols, o);
    } else {
      assert skip || exists i :: 0 <= i < |rows| && body[i] == [] by { assert cols == [] ==> body[0] == []; }
      LessComesBack(rows, cols, o, skip);
    }
  }

  lemma LessComesBack(rows: seq<RowData>, cols: seq<Column>, o: Options, skip: bool)
    requires GoodRows(rows, cols, o) && rows != []
    requires skip || exists i :: 0 <= i < |rows| && RowLines(rows, cols, o)[i] == []
    ensures ParseLines(RowLines(rows, cols, o), cols, o, skip) != Ok(CopiedRows(rows, cols))
  {
    var body := RowLines(rows, cols, o);
    if i :| 0 <= i < |rows| && body[i] == [] { assert [] in body; }
    if ParseLines(body, cols, o, skip).Ok? { ParsedAtMostLines(body, cols, o, skip); }
  }

  /** With two or more columns the round trip always holds. */
  lemma CopyRoundTrip(rows: seq<RowData>, cols: seq<Column>, o: Options)
    requires GoodOptions(o) && |cols| >= 2 && GoodRows(rows, cols, o)
    ensures ParseText(Unlines(PayloadLines(rows, cols, o)), cols, o) == Ok(CopiedRows(rows, cols))
  {
    CopyRoundTripIff(rows, cols, o);
  }

  /** The default null string is not readable: NULL comes back as the text "N". */
  lemma DefaultNullIsMisread(c: Column)
    requires c.ty == TextType
    ensures var o := Options('\t', "\\N", false, false);
      ParseLine(FormatValue(Null, o), [c], o) == Ok(map[c.id := Text("N")])
  {
    var o := Options('\t', "\\N", false, false);
    var line := "\\N";
    assert line[1..] == "N" && line[2..] == [] && [] + "N" == "N";
    assert Unescape("N") == ("N", 1);
    assert Split(line, '\t', []) == ["N"];
    assert ["N"][..0] == [] && [c][..0] == [];
    assert ParseFields([], [], o) == Ok(map[]);
  }
}
