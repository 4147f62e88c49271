/** Whole COPY payloads: `encode_copy_payload` and `parse_copy_rows` undo each other. */
module CopyCodec {
  import opened Prelude
  import opened Values
  import opened CopyFormat
  import opened CopyText
  import opened CopyValues

  datatype Options = Options(delimiter: char, nullString: string, header: bool, binary: bool)

  datatype Column = Column(name: string, id: ColumnId, ty: ColumnType)

  // ---- Lines --------------------------------------------------------------------------------------

  function LineEnd(text: string): (k: nat)
    ensures k <= |text| && '\n' !in text[..k] && (k < |text| ==> text[k] == '\n')
  {
    if text == [] || text[0] == '\n' then 0
    else
      var k := 1 + LineEnd(text[1..]);
      assert text[..k] == [text[0]] + text[1..][..k - 1];
      k
  }

  function StripReturn(line: string): string {
    if line != [] && line[|line| - 1] == '\r' then line[..|line| - 1] else line
  }

  /** The lines of a text; a carriage return before the line feed is dropped. */
  function Lines(text: string): seq<string>
    decreases |text|
  {
    if text == [] then []
    else
      var k := LineEnd(text);
      if k == |text| then [text] else [StripReturn(text[..k])] + Lines(text[k + 1..])
  }

  function Unlines(lines: seq<string>): string {
    if lines == [] then [] else lines[0] + "\n" + Unlines(lines[1..])
  }

  predicate NoBreak(s: string) { '\n' !in s && '\r' !in s }

  lemma {:induction false} LineEndAt(line: string, rest: string)
    requires '\n' !in line
    ensures LineEnd(line + "\n" + rest) == |line|
    decreases |line|
  {
    var text := line + "\n" + rest;
    if line != [] {
      assert text[1..] == line[1..] + "\n" + rest;
      LineEndAt(line[1..], rest);
    }
  }

  lemma {:induction false} LinesRoundTrip(lines: seq<string>)
    requires forall i :: 0 <= i < |lines| ==> NoBreak(lines[i])
    ensures Lines(Unlines(lines)) == lines
    decreases |lines|
  {
    if lines != [] {
      var text := Unlines(lines);
      LineEndAt(lines[0], Unlines(lines[1..]));
      assert text[..|lines[0]|] == lines[0] && text[|lines[0]| + 1..] == Unlines(lines[1..]);
      LinesRoundTrip(lines[1..]);
    }
  }

  lemma LineEndsAt(line: string, rest: string)
    requires '\n' !in line
    ensures Lines(line + "\n" + rest) == [StripReturn(line)] + Lines(rest)
  {
    var text := line + "\n" + rest;
    LineEndAt(line, rest);
    assert text[..|line|] == line && text[|line| + 1..] == rest;
  }

  /** A line ends at a line feed, and a carriage return before it belongs to the break. */
  lemma LineBreaks(line: string, rest: string)
    requires '\n' !in line
    ensures (line == [] || line[|line| - 1] != '\r') ==> Lines(line + "\n" + rest) == [line] + Lines(rest)
    ensures Lines(line + "\r\n" + rest) == [line] + Lines(rest)
    ensures Lines(line) == if line == [] then [] else [line]
  {
    LineEndsAt(line, rest);
    ReturnEndsAt(line, rest);
  }

  lemma ReturnEndsAt(line: string, rest: string)
    requires '\n' !in line
    ensures Lines(line + "\r\n" + rest) == [line] + Lines(rest)
  {
    var returned := line + "\r";
    LineEndsAt(returned, rest);
    assert StripReturn(returned) == line;
    assert line + "\r\n" == returned + "\n";
  }

  // ---- Encoding -----------------------------------------------------------------------------------

  function ValueOf(row: RowData, c: Column): Value {
    if c.id in row then row[c.id] else Null
  }

  predicate Encodable(v: Value) { v.Null? || v.Bool? || v.Int? || v.Text? }

  function FormatValue(v: Value, o: Options): string
    requires Encodable(v)
  {
    if v.Null? then o.nullString else Escape(Render(v), o.delimiter)
  }

  predicate RowEncodable(row: RowData, cols: seq<Column>) {
    forall i :: 0 <= i < |cols| ==> Encodable(ValueOf(row, cols[i]))
  }

  function Parts(row: RowData, cols: seq<Column>, o: Options): seq<string>
    requires RowEncodable(row, cols)
  {
    seq(|cols|, i requires 0 <= i < |cols| => FormatValue(ValueOf(row, cols[i]), o))
  }

  function JoinOrEmpty(parts: seq<string>, d: char): string {
    if parts == [] then [] else Join(parts, d)
  }

  function HeaderLine(cols: seq<Column>, o: Options): string {
    JoinOrEmpty(EscapeAll(seq(|cols|, i requires 0 <= i < |cols| => cols[i].name), o.delimiter), o.delimiter)
  }

  function RowLines(rows: seq<RowData>, cols: seq<Column>, o: Options): seq<string>
    requires forall i :: 0 <= i < |rows| ==> RowEncodable(rows[i], cols)
  {
    seq(|rows|, i requires 0 <= i < |rows| => JoinOrEmpty(Parts(rows[i], cols, o), o.delimiter))
  }

  function PayloadLines(rows: seq<RowData>, cols: seq<Column>, o: Options): seq<string>
    requires forall i :: 0 <= i < |rows| ==> RowEncodable(rows[i], cols)
  {
    (if o.header then [HeaderLine(cols, o)] else []) + RowLines(rows, cols, o)
  }

  method EncodeCopyPayload(rows: seq<RowData>, cols: seq<Column>, o: Options)
    returns (payload: Result<string, CopyError>)
    requires forall i :: 0 <= i < |rows| ==> RowEncodable(rows[i], cols)
    ensures payload == if o.binary then Err(BinaryUnsupported) else Ok(Unlines(PayloadLines(rows, cols, o)))
  {
    if o.binary {
      return Err(BinaryUnsupported);
    }
    var text: string := [];
    ghost var done: seq<string> := [];
    if o.header {
      text := HeaderLine(cols, o) + "\n";
      done := [HeaderLine(cols, o)];
      assert done[1..] == [] && Unlines(done) == text;
    }
    ghost var head := done;
    var i := 0;
    while i < |rows|
      invariant 0 <= i <= |rows|
      invariant done == head + RowLines(rows, cols, o)[..i] && text == Unlines(done)
    {
      var line := JoinOrEmpty(Parts(rows[i], cols, o), o.delimiter);
      UnlinesAppend(done, line);
      NextLine(head, RowLines(rows, cols, o), i);
      text := text + line + "\n";
      done := done + [line];
      i := i + 1;
    }
    assert done == PayloadLines(rows, cols, o);
    return Ok(text);
  }

  lemma NextLine(head: seq<string>, lines: seq<string>, i: nat)
    requires i < |lines|
    ensures head + lines[..i + 1] == head + lines[..i] + [lines[i]]
  {
  }

  lemma {:induction false} UnlinesAppend(lines: seq<string>, line: string)
    ensures Unlines(lines + [line]) == Unlines(lines) + line + "\n"
    decreases |lines|
  {
    if lines == [] {
      assert (lines + [line])[1..] == [];
    } else {
      assert (lines + [line])[1..] == lines[1..] + [line];
      UnlinesAppend(lines[1..], line);
    }
  }

  // ---- Parsing ------------------------------------------------------------------------------------

  /** Column values of one line, left to right; the first bad field is reported. */
  function ParseFields(fields: seq<string>, cols: seq<Column>, o: Options): Result<RowData, CopyError>
    requires |fields| == |cols|
  {
    if fields == [] then Ok(map[])
    else
      var n := |fields| - 1;
      match ParseFields(fields[..n], cols[..n], o)
      case Err(e) => Err(e)
      case Ok(row) =>
        match ParseValue(fields[n], cols[n].ty, o.nullString)
        case Err(e) => Err(e)
        case Ok(v) => Ok(row[cols[n].id := v])
  }

  function ParseLine(line: string, cols: seq<Column>, o: Options): Result<RowData, CopyError> {
    var fields := Split(line, o.delimiter, []);
    if |fields| != |cols| then Err(FieldCount(|fields|, |cols|)) else ParseFields(fields, cols, o)
  }

  /** A line that stands for another number of fields than there are columns is refused, with both numbers. */
  lemma FieldsMustMatch(line: string, fields: seq<string>, cols: seq<Column>, o: Options)
    requires Denotes(line, o.delimiter, fields) && |fields| != |cols|
    ensures ParseLine(line, cols, o) == Err(FieldCount(|fields|, |cols|))
  {
    SplitIsDenoted(line, o.delimiter, fields);
  }

  /** Empty lines are skipped, then the header line, and the first error ends the parse. */
  function ParseLines(lines: seq<string>, cols: seq<Column>, o: Options, skipHeader: bool): Result<seq<RowData>, CopyError> {
    if lines == [] then Ok([])
    else if lines[0] == [] then ParseLines(lines[1..], cols, o, skipHeader)
    else if skipHeader then ParseLines(lines[1..], cols, o, false)
    else
      match ParseLine(lines[0], cols, o)
      case Err(e) => Err(e)
      case Ok(row) =>
        match ParseLines(lines[1..], cols, o, false)
        case Err(e) => Err(e)
        case Ok(rest) => Ok([row] + rest)
  }

  function ParseText(text: string, cols: seq<Column>, o: Options): Result<seq<RowData>, CopyError> {
    if o.binary then Err(BinaryUnsupported) else ParseLines(Lines(text), cols, o, o.header)
  }

  function After(rows: seq<RowData>, rest: Result<seq<RowData>, CopyError>): Result<seq<RowData>, CopyError> {
    match rest case Err(e) => Err(e) case Ok(more) => Ok(rows + more)
  }

  method ParseCopyRows(text: string, cols: seq<Column>, o: Options) returns (result: Result<seq<RowData>, CopyError>)
    ensures result == ParseText(text, cols, o)
  {
    if o.binary {
      return Err(BinaryUnsupported);
    }
    var lines := Lines(text);
    var rows: seq<RowData> := [];
    var skipHeader := o.header;
    var i := 0;
    assert lines[0..] == lines && forall more: seq<RowData> :: [] + more == more;
    while i < |lines|
      invariant 0 <= i <= |lines|
      invariant ParseText(text, cols, o) == After(rows, ParseLines(lines[i..], cols, o, skipHeader))
    {
      var line := lines[i];
      assert lines[i..][1..] == lines[i + 1..];
      i := i + 1;
      if line == [] {
        continue;
      }
      if skipHeader {
        skipHeader := false;
        continue;
      }
      var fields := SplitCopyFields(line, o.delimiter);
      if |fields| != |cols| {
        return Err(FieldCount(|fields|, |cols|));
      }
      var row := ParseRow(fields, cols, o);
      if row.Err? {
        return Err(row.error);
      }
      assert forall more: seq<RowData> :: rows + ([row.value] + more) == (rows + [row.value]) + more;
      rows := rows + [row.value];
    }
    assert lines[i..] == [] && rows + [] == rows;
    return Ok(rows);
  }

  method ParseRow(fields: seq<string>, cols: seq<Column>, o: Options) returns (result: Result<RowData, CopyError>)
    requires |fields| == |cols|
    ensures result == ParseFields(fields, cols, o)
  {
    var row: RowData := map[];
    var i := 0;
    while i < |fields|
      invariant 0 <= i <= |fields|
      invariant ParseFields(fields[..i], cols[..i], o) == Ok(row)
    {
      assert fields[..i + 1][..i] == fields[..i] && cols[..i + 1][..i] == cols[..i];
      var v := ParseValue(fields[i], cols[i].ty, o.nullString);
      if v.Err? {
        ErrorStays(fields, cols, o, i + 1);
        return Err(v.error);
      }
      row := row[cols[i].id := v.value];
      i := i + 1;
    }
    assert fields[..i] == fields && cols[..i] == cols;
    return Ok(row);
  }

  lemma {:induction false} ErrorStays(fields: seq<string>, cols: seq<Column>, o: Options, i: nat)
    requires i <= |fields| == |cols| && ParseFields(fields[..i], cols[..i], o).Err?
    ensures ParseFields(fields, cols, o) == ParseFields(fields[..i], cols[..i], o)
    decreases |fields|
  {
    if i == |fields| {
      assert fields[..i] == fields && cols[..i] == cols;
    } else {
      var n := |fields| - 1;
      assert fields[..n][..i] == fields[..i] && cols[..n][..i] == cols[..i];
      ErrorStays(fields[..n], cols[..n], o, i);
    }
  }
}
