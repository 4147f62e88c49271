/** The text format of COPY (`copy.rs`): escaping and splitting of fields, and splitting into lines. */
module CopyText {
  import opened Prelude
  import opened CopyFormat

  const BACKSPACE: char := '\U{8}'
  const VTAB: char := '\U{b}'
  const FORMFEED: char := '\U{c}'

  // ---- Escaping -----------------------------------------------------------------------------------

  function EscapeChar(c: char, delim: char): string {
    if c == '\\' then "\\\\"
    else if c == '\n' then "\\n"
    else if c == '\r' then "\\r"
    else if c == '\t' then "\\t"
    else if c == delim then ['\\', c]
    else [c]
  }

  function Escape(s: string, delim: char): string {
    if s == [] then [] else EscapeChar(s[0], delim) + Escape(s[1..], delim)
  }

  /** The escaped field is the value, character by character, as the format writes it. */
  lemma {:induction false} EscapeWrites(s: string, d: char)
    ensures Writes(s, d, Escape(s, d))
    decreases |s|
  {
    if s != [] {
      EscapeWrites(s[1..], d);
      var w, all := EscapeChar(s[0], d), Escape(s, d);
      assert all == w + Escape(s[1..], d);
      assert w <= all && all[|w|..] == Escape(s[1..], d);
      assert WrittenAs(s[0], d, w);
    }
  }

  lemma WrittenIff(c: char, d: char, w: string)
    ensures WrittenAs(c, d, w) <==> w == EscapeChar(c, d)
  {
  }

  /** The format leaves no choice. */
  lemma {:induction false} WritesOnly(s: string, d: char, written: string)
    requires Writes(s, d, written)
    ensures written == Escape(s, d)
    decreases |s|
  {
    if s != [] {
      var w: string :| WrittenAs(s[0], d, w) && w <= written && Writes(s[1..], d, written[|w|..]);
      WritesOnly(s[1..], d, written[|w|..]);
      WrittenIff(s[0], d, w);
      assert written == w + written[|w|..];
    }
  }

  method EscapeCopyField(value: string, delim: char) returns (escaped: string)
    ensures escaped == Escape(value, delim) && Writes(value, delim, escaped)
  {
    escaped := [];
    var i := 0;
    while i < |value|
      invariant 0 <= i <= |value|
      invariant escaped + Escape(value[i..], delim) == Escape(value, delim)
    {
      escaped := escaped + EscapeChar(value[i], delim);
      i := i + 1;
    }
    EscapeWrites(value, delim);
  }

  // ---- Splitting ----------------------------------------------------------------------------------

  predicate IsOctal(c: char) { OctalDigit(c) }

  /** The letters that stand for a control character after a backslash. */
  predicate IsEscapeLetter(c: char) { c in "bfnrtv" }

  function Control(c: char): char
    requires IsEscapeLetter(c)
  {
    if c == 'b' then BACKSPACE
    else if c == 'f' then FORMFEED
    else if c == 'n' then '\n'
    else if c == 'r' then '\r'
    else if c == 't' then '\t'
    else VTAB
  }

  /** How many octal digits, at most three, follow a backslash. */
  function OctalLength(s: string): (n: nat)
    ensures n <= 3 && n <= |s|
    ensures forall i :: 0 <= i < n ==> IsOctal(s[i])
    ensures s != [] && IsOctal(s[0]) ==> n >= 1
  {
    if s == [] || !IsOctal(s[0]) then 0
    else if |s| == 1 || !IsOctal(s[1]) then 1
    else if |s| == 2 || !IsOctal(s[2]) then 2
    else 3
  }

  function OctalValue(digits: string): nat
    requires forall i :: 0 <= i < |digits| ==> IsOctal(digits[i])
  {
    if digits == [] then 0
    else
      assert IsOctal(digits[|digits| - 1]);
      OctalValue(digits[..|digits| - 1]) * 8 + (digits[|digits| - 1] as int - '0' as int)
  }

  /** What an escape sequence (the text after its backslash) pushes, and how much of it is used. */
  function Unescape(s: string): (r: (string, nat))
    requires s != []
    ensures 1 <= r.1 <= |s| && |r.0| <= 1
  {
    if IsEscapeLetter(s[0]) then ([Control(s[0])], 1)
    else if IsOctal(s[0]) then
      var n := OctalLength(s);
      var byte := OctalValue(s[..n]);
      (if byte <= 255 then [byte as char] else [], n)
    else ([s[0]], 1)
  }

  /** The fields of `line`, the first of them continuing `current`. */
  function Split(line: string, delim: char, current: string): (fields: seq<string>)
    ensures |fields| >= 1
    decreases |line|
  {
    if line == [] then [current]
    else if line[0] == '\\' then
      if |line| == 1 then [current + "\\"]
      else
        var (pushed, used) := Unescape(line[1..]);
        Split(line[1 + used..], delim, current + pushed)
    else if line[0] == delim then [current] + Split(line[1..], delim, [])
    else Split(line[1..], delim, current + [line[0]])
  }

  /** What was read of the first field goes in front. */
  lemma {:induction false} SplitCarries(line: string, d: char, current: string)
    ensures Split(line, d, current) == [current + Split(line, d, [])[0]] + Split(line, d, [])[1..]
    decreases |line|
  {
    assert current + [] == current && [] + "\\" == "\\";
    if line != [] && line[0] == '\\' {
      if |line| > 1 {
        var (pushed, used) := Unescape(line[1..]);
        SplitCarries(line[1 + used..], d, current + pushed);
        SplitCarries(line[1 + used..], d, [] + pushed);
        assert (current + pushed) + Split(line[1 + used..], d, [])[0] == current + (pushed + Split(line[1 + used..], d, [])[0]);
        assert [] + pushed == pushed;
      }
    } else if line != [] && line[0] != d {
      SplitCarries(line[1..], d, current + [line[0]]);
      SplitCarries(line[1..], d, [] + [line[0]]);
      assert (current + [line[0]]) + Split(line[1..], d, [])[0] == current + ([line[0]] + Split(line[1..], d, [])[0]);
      assert [] + [line[0]] == [line[0]];
    }
  }

  /** `w` is what the line begins with, whatever follows it, and stands for `text`. */
  predicate FirstPiece(line: string, d: char, w: string, text: string) {
    0 < |w| <= |line| && w == line[..|w|] && Stands(w, line[|w|..], d, text)
  }

  /** The piece an escape sequence is, by its first character and its octal digits. */
  lemma EscapePiece(line: string, d: char, w: string, text: string)
    requires |line| >= 2 && line[0] == '\\'
    ensures FirstPiece(line, d, w, text) <==>
      var (pushed, used) := Unescape(line[1..]); |w| == 1 + used && w == line[..|w|] && text == pushed
  {
    if IsOctal(line[1]) && !IsEscapeLetter(line[1]) {
      OctalPiece(line, w, text);
      var n := OctalLength(line[1..]);
      assert line[1..][..n] == line[1..n + 1];
    }
  }

  lemma OctalPiece(line: string, w: string, text: string)
    requires |line| >= 2 && line[0] == '\\' && IsOctal(line[1])
    ensures 0 < |w| <= |line| && w == line[..|w|] && OctalCode(w, line[|w|..], text)
      <==> |w| == 1 + OctalLength(line[1..]) && w == line[..|w|] && text == ByteText(OctalValue(line[1..|w|]))
  {
    var n := OctalLength(line[1..]);
    OctalSum(line[1..n + 1]);
    if 0 < |w| <= |line| && w == line[..|w|] {
      assert forall i :: 0 <= i < |w| ==> w[i] == line[i];
    }
  }

  lemma OctalSum(s: string)
    requires 1 <= |s| <= 3 && forall i :: 0 <= i < |s| ==> IsOctal(s[i])
    ensures |s| == 1 ==> OctalValue(s) == DigitOf(s[0])
    ensures |s| == 2 ==> OctalValue(s) == 8 * DigitOf(s[0]) + DigitOf(s[1])
    ensures |s| == 3 ==> OctalValue(s) == 64 * DigitOf(s[0]) + 8 * DigitOf(s[1]) + DigitOf(s[2])
  {
    assert s[..1][..0] == [];
    if |s| >= 2 { assert s[..2][..1] == s[..1]; }
    assert s[..|s|] == s;
  }

  /** A line begins with only one piece. */
  lemma OnlyPiece(line: string, d: char, w: string, text: string)
    requires line != [] && (line[0] == d ==> d == '\\')
    ensures var (pushed, used) := if line[0] == '\\' && |line| > 1 then Unescape(line[1..]) else (line[..1], 0);
      FirstPiece(line, d, w, text) <==> w == line[..1 + used] && text == pushed
  {
    if line[0] == '\\' && |line| > 1 { EscapePiece(line, d, w, text); }
  }

  /** What the rest of a line stands for, behind its first piece, decides what the line stands for. */
  lemma PieceDenotes(line: string, d: char, fields: seq<string>, w: string, text: string)
    requires line != [] && (line[0] == d ==> d == '\\') && w <= line && w != []
    requires forall x: string, y: string :: FirstPiece(line, d, x, y) <==> x == w && y == text
    requires fields != [] && text <= fields[0] ==>
      (Denotes(line[|w|..], d, Behind(fields, text)) <==> Behind(fields, text) == Split(line[|w|..], d, []))
    requires Split(line, d, []) == Split(line[|w|..], d, text)
    ensures Denotes(line, d, fields) <==> fields == Split(line, d, [])
  {
    var rest := Split(line[|w|..], d, []);
    SplitCarries(line[|w|..], d, text);
    assert FirstPiece(line, d, w, text);
    BehindIff(fields, text, rest);
    PieceFirst(line, d, fields, w, text);
  }

  /** With one possible first piece, a line denotes what the rest denotes behind it. */
  lemma PieceFirst(line: string, d: char, fields: seq<string>, w: string, text: string)
    requires line != [] && (line[0] == d ==> d == '\\') && w <= line
    requires forall x: string, y: string :: FirstPiece(line, d, x, y) <==> x == w && y == text
    ensures Denotes(line, d, fields) <==> fields != [] && text <= fields[0] && Denotes(line[|w|..], d, Behind(fields, text))
  {
    assert FirstPiece(line, d, w, text);
    if fields != [] && text <= fields[0] && Denotes(line[|w|..], d, Behind(fields, text)) {
      assert BeginsWith(line, d, fields, w, text);
    }
    if Denotes(line, d, fields) {
      var x: string, y: string :| BeginsWith(line, d, fields, x, y) && Denotes(line[|x|..], d, Behind(fields, y));
      assert FirstPiece(line, d, x, y);
    }
  }

  lemma BehindIff(fields: seq<string>, text: string, rest: seq<string>)
    requires rest != []
    ensures fields != [] && text <= fields[0] && Behind(fields, text) == rest <==> fields == [text + rest[0]] + rest[1..]
  {
    if fields != [] && text <= fields[0] { assert fields[0] == text + fields[0][|text|..]; }
  }

  /** The splitter reads exactly what the format says: the fields the line stands for, and it stands for no others. */
  lemma {:induction false} SplitIsDenoted(line: string, d: char, fields: seq<string>)
    ensures Denotes(line, d, fields) <==> fields == Split(line, d, [])
    decreases |line|
  {
    if line != [] {
      if line[0] == d && d != '\\' {
        if fields != [] { SplitIsDenoted(line[1..], d, fields[1..]); }
      } else {
        var (text, used) := if line[0] == '\\' && |line| > 1 then Unescape(line[1..]) else (line[..1], 0);
        var w := line[..1 + used];
        forall x: string, y: string ensures FirstPiece(line, d, x, y) <==> x == w && y == text { OnlyPiece(line, d, x, y); }
        if fields != [] && text <= fields[0] { SplitIsDenoted(line[|w|..], d, Behind(fields, text)); }
        assert [] + text == text && line[..1] == [line[0]];
        PieceDenotes(line, d, fields, w, text);
      }
    }
  }

  method SplitCopyFields(line: string, delim: char) returns (fields: seq<string>)
    ensures fields == Split(line, delim, []) && Denotes(line, delim, fields)
  {
    fields := [];
    var current: string := [];
    var i := 0;
    while i < |line|
      invariant 0 <= i <= |line|
      invariant fields + Split(line[i..], delim, current) == Split(line, delim, [])
    {
      var ch := line[i];
      ghost var tail := line[i..];
      assert forall k :: 0 <= k <= |tail| ==> tail[k..] == line[i + k..];
      i := i + 1;
      if ch == '\\' {
        if i == |line| {
          current := current + "\\";
        } else if IsEscapeLetter(line[i]) {
          current := current + [Control(line[i])];
          i := i + 1;
        } else if IsOctal(line[i]) {
          var octal := [line[i]];
          i := i + 1;
          if i < |line| && IsOctal(line[i]) {
            octal := octal + [line[i]];
            i := i + 1;
            if i < |line| && IsOctal(line[i]) {
              octal := octal + [line[i]];
              i := i + 1;
            }
          }
          assert OctalLength(tail[1..]) == |octal| && tail[1..][..|octal|] == octal;
          var byte := OctalValue(octal);
          if byte <= 255 {
            current := current + [byte as char];
          } else {
            assert current + [] == current;
          }
        } else {
          current := current + [line[i]];
          i := i + 1;
        }
      } else if ch == delim {
        fields := fields + [current];
        current := [];
      } else {
        current := current + [ch];
      }
    }
    fields := fields + [current];
    SplitIsDenoted(line, delim, fields);
  }

  // ---- Fields round-trip --------------------------------------------------------------------------

  /** Delimiters whose escaped form means themselves and that do not start an escape. */
  predicate PlainDelimiter(d: char) {
    d != '\\' && !IsEscapeLetter(d) && !IsOctal(d)
  }

  lemma EscapeOneSplits(c: char, d: char, rest: string, current: string)
    requires PlainDelimiter(d)
    ensures Split(EscapeChar(c, d) + rest, d, current) == Split(rest, d, current + [c])
  {
    var e := EscapeChar(c, d);
    var line := e + rest;
    if e[0] == '\\' {
      assert |e| == 2 && line[1..] == [e[1]] + rest;
      assert Unescape(line[1..]) == ([c], 1);
      assert line[2..] == rest;
    } else {
      assert line[1..] == rest;
    }
  }

  /** An escaped value is read back as itself, whatever follows. */
  lemma {:induction false} EscapeSplits(s: string, d: char, rest: string, current: string)
    requires PlainDelimiter(d)
    ensures Split(Escape(s, d) + rest, d, current) == Split(rest, d, current + s)
    decreases |s|
  {
    if s == [] {
      assert Escape(s, d) + rest == rest && current + s == current;
    } else {
      assert Escape(s, d) + rest == EscapeChar(s[0], d) + (Escape(s[1..], d) + rest);
      EscapeOneSplits(s[0], d, Escape(s[1..], d) + rest, current);
      EscapeSplits(s[1..], d, rest, current + [s[0]]);
      assert current + [s[0]] + s[1..] == current + s;
    }
  }

  function Join(parts: seq<string>, d: char): string
    requires parts != []
  {
    if |parts| == 1 then parts[0] else parts[0] + [d] + Join(parts[1..], d)
  }

  function EscapeAll(fields: seq<string>, d: char): seq<string> {
    seq(|fields|, i requires 0 <= i < |fields| => Escape(fields[i], d))
  }

  /** Wherever the text `part` stands, the splitter reads it as `field`. */
  ghost predicate ReadsAs(part: string, field: string, d: char) {
    forall rest: string, current: string :: Split(part + rest, d, current) == Split(rest, d, current + field)
  }

  lemma {:induction false} JoinReads(parts: seq<string>, fields: seq<string>, d: char)
    requires |parts| == |fields| >= 1 && d != '\\'
    requires forall i :: 0 <= i < |parts| ==> ReadsAs(parts[i], fields[i], d)
    ensures Split(Join(parts, d), d, []) == fields
    decreases |parts|
  {
    assert ReadsAs(parts[0], fields[0], d);
    assert [] + fields[0] == fields[0];
    if |parts| == 1 {
      assert parts[0] + [] == parts[0];
    } else {
      var rest := Join(parts[1..], d);
      assert Join(parts, d) == parts[0] + ([d] + rest);
      assert ([d] + rest)[1..] == rest;
      JoinReads(parts[1..], fields[1..], d);
    }
  }

  lemma EscapeReads(s: string, d: char)
    requires PlainDelimiter(d)
    ensures ReadsAs(Escape(s, d), s, d)
  {
    forall rest: string, current: string ensures Split(Escape(s, d) + rest, d, current) == Split(rest, d, current + s) {
      EscapeSplits(s, d, rest, current);
    }
  }

  lemma {:induction false} PlainSplits(s: string, d: char, rest: string, current: string)
    requires '\\' !in s && d !in s
    ensures Split(s + rest, d, current) == Split(rest, d, current + s)
    decreases |s|
  {
    if s == [] {
      assert s + rest == rest && current + s == current;
    } else {
      assert (s + rest)[1..] == s[1..] + rest;
      PlainSplits(s[1..], d, rest, current + [s[0]]);
      assert current + [s[0]] + s[1..] == current + s;
    }
  }

  lemma FieldsRoundTrip(fields: seq<string>, d: char)
    requires fields != [] && PlainDelimiter(d)
    ensures Split(Join(EscapeAll(fields, d), d), d, []) == fields
  {
    forall i | 0 <= i < |fields| ensures ReadsAs(EscapeAll(fields, d)[i], fields[i], d) {
      EscapeReads(fields[i], d);
    }
    JoinReads(EscapeAll(fields, d), fields, d);
  }

  /** With a plain delimiter, fields written as the format says stand for themselves and for nothing else. */
  lemma WrittenFieldsDenote(fields: seq<string>, written: seq<string>, d: char, others: seq<string>)
    requires PlainDelimiter(d) && |written| == |fields| >= 1
    requires forall i :: 0 <= i < |fields| ==> Writes(fields[i], d, written[i])
    ensures Denotes(Join(written, d), d, others) <==> others == fields
  {
    forall i | 0 <= i < |fields| ensures written[i] == EscapeAll(fields, d)[i] { WritesOnly(fields[i], d, written[i]); }
    assert written == EscapeAll(fields, d);
    FieldsRoundTrip(fields, d);
    SplitIsDenoted(Join(written, d), d, others);
  }

  /** Exactly the plain delimiters bring every list of fields back. */
  lemma FieldsRoundTripIff(d: char)
    ensures PlainDelimiter(d) <==>
      forall fields: seq<string> :: fields != [] ==> Split(Join(EscapeAll(fields, d), d), d, []) == fields
  {
    if PlainDelimiter(d) {
      forall fields: seq<string> | fields != []
        ensures Split(Join(EscapeAll(fields, d), d), d, []) == fields
      {
        FieldsRoundTrip(fields, d);
      }
    } else if d == '\\' {
      var bad: seq<string> := ["", ""];
      var parts := EscapeAll(bad, d);
      assert Join(parts, d) == "\\" by { assert parts == ["", ""]; assert Join(parts[1..], d) == ""; }
      assert [] + "\\" == "\\";
      assert Split(Join(EscapeAll(bad, d), d), d, []) != bad;
    } else {
      var bad: seq<string> := [[d]];
      assert EscapeAll(bad, d) == [['\\', d]] by {
        assert [d][1..] == [];
        assert Escape([d], d) == ['\\', d];
      }
      var line := ['\\', d];
      assert line[1..] == [d];
      var (pushed, used) := Unescape(line[1..]);
      assert pushed != [d] by {
        if IsOctal(d) && !IsEscapeLetter(d) {
          assert [d][..1] == [d];
          assert OctalValue([d]) == OctalValue([d][..0]) * 8 + (d as int - '0' as int);
        }
      }
      assert [] + pushed == pushed && line[2..] == [];
      assert Split(line, d, []) == [pushed];
      assert Split(Join(EscapeAll(bad, d), d), d, []) != bad;
    }
  }

  // ---- Raw text -----------------------------------------------------------------------------------

  /** Characters of the fields plus the delimiters between them. */
  function Weight(fields: seq<string>): nat {
    if fields == [] then 0 else |fields[0]| + (if |fields| == 1 then 0 else 1 + Weight(fields[1..]))
  }

  /** Splitting never adds characters, and loses one at every backslash that has something after it. */
  lemma {:induction false} SplitWeight(line: string, d: char, current: string)
    requires line != [] ==> line[|line| - 1] != '\\'
    ensures Weight(Split(line, d, current)) <= |current| + |line|
    ensures '\\' in line ==> Weight(Split(line, d, current)) < |current| + |line|
    decreases |line|
  {
    if line != [] {
      var tail := line[1..];
      assert line == [line[0]] + tail;
      if line[0] == '\\' {
        var (pushed, used) := Unescape(tail);
        assert tail[used..] == line[1 + used..];
        SplitWeight(tail[used..], d, current + pushed);
      } else if line[0] == d {
        SplitWeight(tail, d, []);
        WeightCons(current, Split(tail, d, []));
      } else {
        SplitWeight(tail, d, current + [line[0]]);
      }
    }
  }

  lemma WeightCons(field: string, fields: seq<string>)
    requires fields != []
    ensures Weight([field] + fields) == |field| + 1 + Weight(fields)
  {
    assert ([field] + fields)[1..] == fields;
  }

  /** Unescaped text reads as itself exactly when it holds no backslash and no delimiter. */
  lemma RawReadsIff(s: string, d: char)
    requires d != '\\'
    ensures ReadsAs(s, s, d) <==> '\\' !in s && d !in s
  {
    if '\\' !in s && d !in s {
      forall rest: string, current: string ensures Split(s + rest, d, current) == Split(rest, d, current + s) {
        PlainSplits(s, d, rest, current);
      }
    } else if ReadsAs(s, s, d) {
      assert Split(s + [d], d, []) == Split([d], d, [] + s);
      assert [] + s == s && [d][1..] == [];
      assert Split([d], d, s) == [s, []];
      SplitWeight(s + [d], d, []);
      assert Weight([s, []]) == |s| + 1 by { assert [s, []][1..] == [[]]; }
      assert '\\' !in s;
      DelimiterSplits(s, d, []);
    }
  }

  /** A raw delimiter ends the field early. */
  lemma {:induction false} DelimiterSplits(s: string, d: char, current: string)
    requires '\\' !in s && d in s
    ensures |Split(s + [d], d, current)[0]| < |current| + |s|
    decreases |s|
  {
    assert (s + [d])[1..] == s[1..] + [d];
    if s[0] != d {
      DelimiterSplits(s[1..], d, current + [s[0]]);
    }
  }
}
