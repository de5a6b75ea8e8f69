/** The lines of an abbreviated ASCII body, and that EncodeAsciiBody writes them. */
module AbbreviatedText {
  import opened BitLists
  import opened Hex
  import opened Writing
  import opened Fields
  import opened AsciiScript
  import opened AsciiMeaning
  import opened AsciiText

  /** A line: its depth, and its tokens. */
  datatype Line = Line(level: nat, tokens: seq<seq<byte>>)

  /** `<`, five spaces for each level, and the tokens with a space behind each. */
  function LineText(line: Line): seq<byte> {
    [60] + seq(5 * line.level, _ => 32) + Followed(line.tokens, 32)
  }

  /** The lines with CRLF between each two. */
  function LinesText(lines: seq<Line>): seq<byte> {
    if lines == [] then []
    else if |lines| == 1 then LineText(lines[0])
    else LinesText(lines[..|lines| - 1]) + [13, 10] + LineText(lines[|lines| - 1])
  }

  /** More tokens at the end of the last line. */
  function Continued(lines: seq<Line>, tokens: seq<seq<byte>>): (r: seq<Line>)
    requires lines != []
    ensures |r| == |lines|
  {
    var last := lines[|lines| - 1];
    lines[..|lines| - 1] + [Line(last.level, last.tokens + tokens)]
  }

  /** A field continues the line.  The rows of a FIELD_ARRAY follow its count on lines of their own, one
      level deeper, where an array without rows has an empty line. */
  ghost function WithField(f: Formats, b: Body, d: Def, level: nat, lines: seq<Line>): (r: seq<Line>)
    requires FieldConforms(b, d) && lines != []
    ensures r != []
    decreases d, 0
  {
    if d.fieldType != FIELD_ARRAY then Continued(lines, FieldTokens(f, b, d))
    else if d.index >= |b.vars| || d.info.None? then lines
    else
      var v := b.vars[d.index];
      Continued(lines, [f.decimal(RowCount(v))]) +
      (if RowCount(v) == 0 then [Line(level + 1, [])] else RowsLines(f, v, d.info.value.fields, level + 1, RowCount(v)))
  }

  ghost function RowsLines(f: Formats, v: Var, defs: seq<Def>, level: nat, n: nat): (r: seq<Line>)
    requires RowsConform(v, defs) && n <= RowCount(v)
    ensures n > 0 ==> r != []
    decreases defs, 2, n
  {
    if n == 0 then [] else RowsLines(f, v, defs, level, n - 1) + BodyLines(f, RowBody(v, n - 1), defs, level)
  }

  /** The lines of a body: a new one begins before the field that follows a FIELD_ARRAY. */
  ghost function BodyLines(f: Formats, b: Body, defs: seq<Def>, level: nat): (r: seq<Line>)
    requires Conforms(b, defs)
    ensures r != []
    decreases defs, 0, 0
  {
    if defs == [] then [Line(level, [])]
    else
      var n := |defs| - 1;
      var before := BodyLines(f, b, defs[..n], level);
      WithField(f, b, defs[n], level,
                if n > 0 && defs[n - 1].fieldType == FIELD_ARRAY then before + [Line(level, [])] else before)
  }

  // ---------------------------------------------------------------- texts of lines

  /** The script writes these lines. */
  ghost predicate Lines(s: Script, lines: seq<Line>) {
    OnlyPuts(s) && TextOf(s) == LinesText(lines)
  }

  lemma OneMoreLine(lines: seq<Line>, line: Line)
    requires lines != []
    ensures LinesText(lines + [line]) == LinesText(lines) + [13, 10] + LineText(line)
  {
    assert (lines + [line])[..|lines|] == lines;
  }

  lemma {:induction false} LinesConcat(a: seq<Line>, b: seq<Line>)
    requires a != [] && b != []
    ensures LinesText(a + b) == LinesText(a) + [13, 10] + LinesText(b)
    decreases |b|
  {
    hide LineText;
    var n := |b| - 1;
    if n == 0 {
      assert b == [b[0]];
      OneMoreLine(a, b[0]);
    } else {
      assert a + b == (a + b[..n]) + [b[n]] && b == b[..n] + [b[n]];
      LinesConcat(a, b[..n]);
      OneMoreLine(a + b[..n], b[n]);
      OneMoreLine(b[..n], b[n]);
    }
  }

  lemma LineContinued(line: Line, tokens: seq<seq<byte>>)
    ensures LineText(Line(line.level, line.tokens + tokens)) == LineText(line) + Followed(tokens, 32)
  {
    FollowedConcat(line.tokens, tokens, 32);
  }

  lemma ContinuedText(lines: seq<Line>, tokens: seq<seq<byte>>)
    requires lines != []
    ensures LinesText(Continued(lines, tokens)) == LinesText(lines) + Followed(tokens, 32)
  {
    hide LineText, Followed;
    var n := |lines| - 1;
    LineContinued(lines[n], tokens);
    if n > 0 {
      assert lines == lines[..n] + [lines[n]];
      OneMoreLine(lines[..n], lines[n]);
      OneMoreLine(lines[..n], Line(lines[n].level, lines[n].tokens + tokens));
    }
  }

  lemma LinesThen(s: Script, lines: seq<Line>, t: Script, tokens: seq<seq<byte>>)
    requires Lines(s, lines) && lines != [] && Tokens(t, tokens, true)
    ensures Lines(s + t, Continued(lines, tokens))
  {
    hide TextOf, OnlyPuts, LinesText, Followed, Continued;
    TextConcat(s, t);
    ContinuedText(lines, tokens);
  }

  /** The text of a CRLF and more lines behind lines. */
  lemma LinesBehind(s: Script, a: seq<Line>, t: Script, b: seq<Line>)
    requires Lines(s, a) && a != [] && b != [] && OnlyPuts(t) && TextOf(t) == [13, 10] + LinesText(b)
    ensures Lines(s + t, a + b)
  {
    hide TextOf, OnlyPuts, LinesText;
    TextConcat(s, t);
    LinesConcat(a, b);
  }

  lemma LineStart(level: nat)
    ensures LineText(Line(level, [])) == [60] + Indent(level)
    ensures Lines(Texts([[60], Indent(level)]), [Line(level, [])])
    ensures OnlyPuts(NewLine(level)) && TextOf(NewLine(level)) == [13, 10] + LinesText([Line(level, [])])
  {
    TwoTexts([60], Indent(level));
    TwoTexts(LINE_START, Indent(level));
    assert Followed([], 32) == [];
    assert [60] + Indent(level) + [] == [60] + Indent(level);
    assert LINE_START == [13, 10] + [60];
    assert Indent(level) == seq(5 * level, _ => 32);
  }

  lemma TwoTexts(x: seq<byte>, y: seq<byte>)
    ensures OnlyPuts(Texts([x, y])) && TextOf(Texts([x, y])) == x + y
  {
    assert Texts([x, y]) == Text(x) + Text(y);
    OneText(x);
    OneText(y);
    TextConcat(Text(x), Text(y));
  }

  // ---------------------------------------------------------------- what the script writes

  lemma {:induction false} FieldLines(f: Formats, b: Body, d: Def, level: nat, s: Script, lines: seq<Line>)
    requires ValidFormats(f) && FieldConforms(b, d) && CsvDef(d) && Lines(s, lines) && lines != []
    ensures Lines(s + FieldScript(f, b, d, true, level), WithField(f, b, d, level, lines))
    decreases d, 0
  {
    hide ValidFormats, FieldConforms, CsvDef, Lines, Tokens, Continued, FieldTokens, FieldScript, WithField, OnlyPuts, TextOf,
         LinesText, RowsScript, RowsLines, NewLine, Separator;
    if d.fieldType != FIELD_ARRAY {
      PlainFieldText(f, b, d, true, level);
      LinesThen(s, lines, FieldScript(f, b, d, true, level), FieldTokens(f, b, d));
      PlainWithField(f, b, d, level, lines);
    } else if d.index >= |b.vars| || d.info.None? {
      MissingArray(f, b, d, level, s, lines);
    } else {
      ArrayParts(f, b, d, level, lines);
      var v, defs := b.vars[d.index], d.info.value.fields;
      if RowCount(v) > 0 {
        RowsText(f, v, defs, level + 1, RowCount(v));
        ArrayLines(f.decimal(RowCount(v)), s, lines, RowsScript(f, v, defs, true, level + 1, RowCount(v)),
                   RowsLines(f, v, defs, level + 1, RowCount(v)));
      } else {
        LineStart(level + 1);
        ArrayLines(f.decimal(0), s, lines, NewLine(level + 1), [Line(level + 1, [])]);
      }
    }
  }

  /** The count, and what is written behind it on lines of its own. */
  lemma ArrayLines(count: seq<byte>, s: Script, lines: seq<Line>, rows: Script, more: seq<Line>)
    requires Lines(s, lines) && lines != [] && more != [] && OnlyPuts(rows) && TextOf(rows) == [13, 10] + LinesText(more)
    ensures Lines(s + (Texts([count, [Separator(true)]]) + rows), Continued(lines, [count]) + more)
  {
    hide Lines, Tokens, Continued, OnlyPuts, TextOf, LinesText, Separator;
    var head := Texts([count, [Separator(true)]]);
    TokenTexts(count, true);
    LinesThen(s, lines, head, [count]);
    LinesBehind(s + head, Continued(lines, [count]), rows, more);
    assert (s + head) + rows == s + (head + rows);
  }

  lemma PlainWithField(f: Formats, b: Body, d: Def, level: nat, lines: seq<Line>)
    requires FieldConforms(b, d) && lines != [] && d.fieldType != FIELD_ARRAY
    ensures WithField(f, b, d, level, lines) == Continued(lines, FieldTokens(f, b, d))
  {
    hide FieldConforms, Continued, FieldTokens;
  }

  lemma MissingArray(f: Formats, b: Body, d: Def, level: nat, s: Script, lines: seq<Line>)
    requires FieldConforms(b, d) && lines != [] && d.fieldType == FIELD_ARRAY && (d.index >= |b.vars| || d.info.None?)
    requires Lines(s, lines)
    ensures WithField(f, b, d, level, lines) == lines
    ensures Lines(s + FieldScript(f, b, d, true, level), lines)
  {
    hide TextOf, OnlyPuts, LinesText;
    AtomText(Refuse);
    TextConcat(s, [Refuse]);
  }

  /** A FIELD_ARRAY in its parts. */
  lemma ArrayParts(f: Formats, b: Body, d: Def, level: nat, lines: seq<Line>)
    requires FieldConforms(b, d) && CsvDef(d) && lines != []
    requires d.fieldType == FIELD_ARRAY && d.index < |b.vars| && d.info.Some?
    ensures var v, defs := b.vars[d.index], d.info.value.fields;
            && RowsConform(v, defs) && CsvDefs(defs)
            && var n := RowCount(v);
               var head, counted := Texts([f.decimal(n), [Separator(true)]]), Continued(lines, [f.decimal(n)]);
               && FieldScript(f, b, d, true, level)
                  == head + (if n == 0 then NewLine(level + 1) else RowsScript(f, v, defs, true, level + 1, n))
               && WithField(f, b, d, level, lines)
                  == counted + (if n == 0 then [Line(level + 1, [])] else RowsLines(f, v, defs, level + 1, n))
  {
    hide Conforms, CsvDefs, Continued, NewLine;
    var v, defs := b.vars[d.index], d.info.value.fields;
    var n := RowCount(v);
    var head := Texts([f.decimal(n), [Separator(true)]]);
    assert RowsScript(f, v, defs, true, level + 1, 0) == [];
    assert head + NewLine(level + 1) + [] == head + NewLine(level + 1);
    assert head + [] == head;
  }

  /** The rows, each behind a CRLF. */
  lemma {:induction false} RowsText(f: Formats, v: Var, defs: seq<Def>, level: nat, n: nat)
    requires ValidFormats(f) && RowsConform(v, defs) && CsvDefs(defs) && 0 < n <= RowCount(v)
    ensures var s := RowsScript(f, v, defs, true, level, n);
            OnlyPuts(s) && TextOf(s) == [13, 10] + LinesText(RowsLines(f, v, defs, level, n))
    decreases defs, 2, n
  {
    hide ValidFormats, Conforms, CsvDefs, BodyScript, BodyLines, OnlyPuts, TextOf, LinesText, RowsScript, RowsLines;
    var body, lines := BodyScript(f, RowBody(v, n - 1), defs, true, level), BodyLines(f, RowBody(v, n - 1), defs, level);
    BodyText(f, RowBody(v, n - 1), defs, level);
    LinesOf(body, lines);
    OneText([13, 10]);
    TextConcat(Text([13, 10]), body);
    LastRowLines(f, v, defs, level, n);
    if n > 1 {
      var before := RowsScript(f, v, defs, true, level, n - 1);
      RowsText(f, v, defs, level, n - 1);
      TextConcat(before, Text([13, 10]) + body);
      LinesConcat(RowsLines(f, v, defs, level, n - 1), lines);
      assert before + Text([13, 10]) + body == before + (Text([13, 10]) + body);
    }
  }

  lemma LinesOf(s: Script, lines: seq<Line>)
    requires Lines(s, lines)
    ensures OnlyPuts(s) && TextOf(s) == LinesText(lines)
  {
  }

  lemma LastRowLines(f: Formats, v: Var, defs: seq<Def>, level: nat, n: nat)
    requires RowsConform(v, defs) && 0 < n <= RowCount(v)
    ensures var body, lines := BodyScript(f, RowBody(v, n - 1), defs, true, level), BodyLines(f, RowBody(v, n - 1), defs, level);
            && RowsScript(f, v, defs, true, level, n) == RowsScript(f, v, defs, true, level, n - 1) + Text([13, 10]) + body
            && RowsLines(f, v, defs, level, n) == RowsLines(f, v, defs, level, n - 1) + lines
            && (n == 1 ==> RowsScript(f, v, defs, true, level, n) == Text([13, 10]) + body && RowsLines(f, v, defs, level, n) == lines)
            && (n > 1 ==> RowsLines(f, v, defs, level, n - 1) != [])
  {
    hide BodyScript, BodyLines, Conforms;
    if n == 1 {
      assert RowsScript(f, v, defs, true, level, 0) == [] && RowsLines(f, v, defs, level, 0) == [];
      assert [] + Text([13, 10]) == Text([13, 10]);
    }
  }

  lemma {:induction false} FieldsLines(f: Formats, b: Body, defs: seq<Def>, level: nat)
    requires ValidFormats(f) && Conforms(b, defs) && CsvDefs(defs)
    ensures Lines(Texts([[60], Indent(level)]) + FieldsScript(f, b, defs, true, level), BodyLines(f, b, defs, level))
    decreases defs, 0, 0
  {
    hide ValidFormats, FieldConforms, CsvDef, FieldScript, WithField, Lines, NewLine, Indent;
    var head := Texts([[60], Indent(level)]);
    LineStart(level);
    if defs == [] {
      assert head + [] == head;
    } else {
      var n := |defs| - 1;
      var before, line := FieldsScript(f, b, defs[..n], true, level), LineBreak(defs[..n], true, level);
      var lines := BodyLines(f, b, defs[..n], level);
      FieldsLines(f, b, defs[..n], level);
      var begun := if line == [] then lines else lines + [Line(level, [])];
      BreakMeans(defs, level);
      if n > 0 && defs[n - 1].fieldType == FIELD_ARRAY {
        LinesBehind(head + before, lines, NewLine(level), [Line(level, [])]);
        FieldLines(f, b, defs[n], level, head + before + NewLine(level), lines + [Line(level, [])]);
      } else {
        FieldLines(f, b, defs[n], level, head + before, lines);
      }
      var field := FieldScript(f, b, defs[n], true, level);
      assert head + (before + line + field) == head + before + line + field;
      assert line == [] ==> head + before + line == head + before;
    }
  }

  lemma BreakMeans(defs: seq<Def>, level: nat)
    requires defs != []
    ensures var n := |defs| - 1;
            LineBreak(defs[..n], true, level)
            == if n > 0 && defs[n - 1].fieldType == FIELD_ARRAY then NewLine(level) else []
  {
  }

  /** An abbreviated ASCII body is its lines, with CRLF between each two. */
  lemma {:induction false} BodyText(f: Formats, b: Body, defs: seq<Def>, level: nat)
    requires ValidFormats(f) && Conforms(b, defs) && CsvDefs(defs)
    ensures Lines(BodyScript(f, b, defs, true, level), BodyLines(f, b, defs, level))
    decreases defs, 1, 0
  {
    hide ValidFormats, Conforms, CsvDefs, FieldsScript, BodyLines, Lines;
    FieldsLines(f, b, defs, level);
  }
}
