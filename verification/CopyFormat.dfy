/** The text format of COPY as a relation between what is written and what it stands for. */
module CopyFormat {

  predicate OctalDigit(c: char) { '0' <= c <= '7' }

  function DigitOf(c: char): nat
    requires OctalDigit(c)
  {
    c as int - '0' as int
  }

  // ---- Writing --------------------------------------------------------------------------------------

  /** The written form of one character; each control character has its own. */
  predicate WrittenAs(c: char, delim: char, w: string) {
    && (c == '\\' ==> w == "\\\\")
    && (c == '\n' ==> w == "\\n")
    && (c == '\r' ==> w == "\\r")
    && (c == '\t' ==> w == "\\t")
    && (c !in "\\\n\r\t" && c == delim ==> w == ['\\', c])
    && (c !in "\\\n\r\t" && c != delim ==> w == [c])
  }

  /** `written` is `value` character by character. */
  ghost predicate Writes(value: string, delim: char, written: string) {
    if value == [] then written == []
    else exists w: string :: WrittenAs(value[0], delim, w) && w <= written && Writes(value[1..], delim, written[|w|..])
  }

  // ---- Reading --------------------------------------------------------------------------------------

  /** A backslash and a letter that together stand for a control character. */
  predicate ControlPair(w: string, text: string) {
    || (w == "\\n" && text == "\n")
    || (w == "\\r" && text == "\r")
    || (w == "\\t" && text == "\t")
    || (w == "\\b" && text == "\U{8}")
    || (w == "\\v" && text == "\U{b}")
    || (w == "\\f" && text == "\U{c}")
  }

  /** The character with the given number, if it fits a byte. */
  function ByteText(n: nat): string { if n <= 255 then [n as char] else [] }

  /** A backslash and up to three octal digits, as many as there are. */
  predicate OctalCode(w: string, rest: string, text: string) {
    && 2 <= |w| <= 4 && w[0] == '\\' && (forall i :: 1 <= i < |w| ==> OctalDigit(w[i]))
    && (|w| < 4 && rest != [] ==> !OctalDigit(rest[0]))
    && (|w| == 2 ==> text == ByteText(DigitOf(w[1])))
    && (|w| == 3 ==> text == ByteText(8 * DigitOf(w[1]) + DigitOf(w[2])))
    && (|w| == 4 ==> text == ByteText(64 * DigitOf(w[1]) + 8 * DigitOf(w[2]) + DigitOf(w[3])))
  }

  /** The piece `w` of a line, with `rest` after it, stands for `text`. */
  predicate Stands(w: string, rest: string, delim: char, text: string) {
    || ControlPair(w, text)
    || OctalCode(w, rest, text)
    || (|w| == 2 && w[0] == '\\' && w[1] !in "nrtbvf" && !OctalDigit(w[1]) && text == [w[1]])
    || (w == "\\" && rest == [] && text == w)
    || (|w| == 1 && w[0] != '\\' && w[0] != delim && text == w)
  }

  /** The line consists of pieces and delimiters that stand for the fields. */
  ghost predicate Denotes(line: string, delim: char, fields: seq<string>)
    decreases |line|
  {
    if line == [] then fields == [[]]
    else if line[0] == delim && delim != '\\' then fields != [] && fields[0] == [] && Denotes(line[1..], delim, fields[1..])
    else exists w: string, text: string :: BeginsWith(line, delim, fields, w, text) && Denotes(line[|w|..], delim, Behind(fields, text))
  }

  /** The line begins with the piece `w`, and its first field with the text it stands for. */
  ghost predicate BeginsWith(line: string, delim: char, fields: seq<string>, w: string, text: string) {
    0 < |w| <= |line| && w == line[..|w|] && Stands(w, line[|w|..], delim, text) && fields != [] && text <= fields[0]
  }

  /** The fields without the first text of the first one. */
  function Behind(fields: seq<string>, text: string): seq<string>
    requires fields != [] && text <= fields[0]
  {
    [fields[0][|text|..]] + fields[1..]
  }
}
