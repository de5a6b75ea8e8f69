/** An ASCII body ends with a separator, which the encoder of the message then removes. */
module AsciiMeaning {
  import opened BitLists
  import opened Writing
  import opened Fields
  import opened AsciiScript

  /** The script only writes texts. */
  ghost predicate OnlyPuts(s: Script) {
    forall i | 0 <= i < |s| :: s[i].Put? || s[i].Refuse?
  }

  /** All that the script writes. */
  ghost function TextOf(s: Script): (t: seq<byte>)
    requires OnlyPuts(s)
    ensures |t| == Size(s)
  {
    if s == [] then []
    else TextOf(s[..|s| - 1]) + (if s[|s| - 1].Put? then s[|s| - 1].text else [])
  }

  lemma {:induction false} AppliesText(c: seq<Cell>, s: Script)
    requires OnlyPuts(s)
    ensures Apply(c, s) == c + Cells(TextOf(s))
  {
    if s != [] {
      var before, last := s[..|s| - 1], s[|s| - 1];
      AppliesText(c, before);
      var text := if last.Put? then last.text else [];
      assert Cells(TextOf(before) + text) == Cells(TextOf(before)) + Cells(text);
      assert Apply(c, s) == Apply(c, before) + Cells(text);
    }
  }

  /** The script writes nothing, or a text that ends with the separator. */
  ghost predicate Tidy(s: Script, separator: byte) {
    OnlyPuts(s) && (Size(s) == 0 || TextOf(s)[Size(s) - 1] == separator)
  }

  lemma {:induction false} TextConcat(s: Script, t: Script)
    requires OnlyPuts(s) && OnlyPuts(t)
    ensures OnlyPuts(s + t) && TextOf(s + t) == TextOf(s) + TextOf(t)
    decreases |t|
  {
    hide Size, TextOf, OnlyPuts;
    if t == [] {
      assert s + t == s;
      NoText();
    } else {
      var n := |t| - 1;
      assert s + t == (s + t[..n]) + [t[n]] && t == t[..n] + [t[n]];
      LastText(t[..n], t[n]);
      TextConcat(s, t[..n]);
      LastText(s + t[..n], t[n]);
    }
  }

  lemma NoText()
    ensures OnlyPuts([]) && TextOf([]) == []
  {
  }

  lemma LastText(s: Script, a: Atom)
    ensures OnlyPuts(s + [a]) <==> OnlyPuts(s) && (a.Put? || a.Refuse?)
    ensures OnlyPuts(s + [a]) ==> TextOf(s + [a]) == TextOf(s) + (if a.Put? then a.text else [])
  {
    var t := s + [a];
    assert t[..|s|] == s && t[|s|] == a;
    if OnlyPuts(t) {
      assert forall i | 0 <= i < |s| :: s[i] == t[i];
    }
  }

  lemma TidyThen(s: Script, t: Script, separator: byte)
    requires Tidy(s, separator) && Tidy(t, separator)
    ensures Tidy(s + t, separator)
  {
    TextConcat(s, t);
    SizeConcat(s, t);
  }

  /** Anything with text behind it that ends with the separator. */
  lemma Closed(s: Script, text: seq<byte>, separator: byte)
    requires OnlyPuts(s) && |text| > 0 && text[|text| - 1] == separator
    ensures Tidy(s + Text(text), separator)
  {
    hide OnlyPuts, TextOf, Size;
    OneText(text);
    TextConcat(s, Text(text));
    SizeConcat(s, Text(text));
  }

  lemma OneText(text: seq<byte>)
    ensures OnlyPuts(Text(text)) && TextOf(Text(text)) == text && Size(Text(text)) == |text|
  {
    assert Text(text)[..0] == [];
  }

  lemma ClosedTexts(texts: seq<seq<byte>>, separator: byte)
    requires |texts| > 0
    requires var last := texts[|texts| - 1]; |last| > 0 && last[|last| - 1] == separator
    ensures Tidy(Texts(texts), separator) && Size(Texts(texts)) > 0
  {
    var n := |texts| - 1;
    TextsSplit(texts, n);
    assert texts[..n + 1] == texts;
    Closed(Texts(texts[..n]), texts[n], separator);
    SizeConcat(Texts(texts[..n]), Text(texts[n]));
    OneSize(Put(texts[n], 0));
  }

  /** Indentation ends with a space, if there is any. */
  lemma IndentTidy(start: seq<byte>, levels: nat)
    requires levels > 0
    ensures Tidy(Texts([start, Indent(levels)]), SPACE) && Size(Texts([start, Indent(levels)])) > 0
  {
    assert |Indent(levels)| == levels * OEM4_ABBREV_ASCII_INDENTATION_LENGTH;
    ClosedTexts([start, Indent(levels)], SPACE);
  }

  lemma {:induction false} ElementsTidy(f: Formats, b: Body, d: Def, abbreviated: bool, n: nat)
    requires ValidFormats(f) && FieldConforms(b, d) && IsArray(d) && n <= ElementCount(b, d)
    ensures OnlyPuts(ElementsScript(f, b, d, abbreviated, n))
    ensures d.isCsv ==> Tidy(ElementsScript(f, b, d, abbreviated, n), Separator(abbreviated))
  {
    hide FieldConforms;
    if n > 0 {
      ElementsTidy(f, b, d, abbreviated, n - 1);
      var a := f.ascii(d, Element(b, d, n - 1));
      var before := ElementsScript(f, b, d, abbreviated, n - 1) + [a];
      if d.isCsv {
        Closed(before, [Separator(abbreviated)], Separator(abbreviated));
      } else {
        assert before + [] == before;
      }
    }
  }

  lemma ValueTidy(f: Formats, b: Body, d: Def, abbreviated: bool)
    requires ValidFormats(f) && FieldConforms(b, d) && (IsArray(d) || d.fieldType == SIMPLE || d.fieldType == ENUM)
    requires d.isCsv ==> !d.isString
    ensures Tidy(ValueScript(f, b, d, abbreviated), Separator(abbreviated))
  {
    hide FieldConforms, ElementsScript, Tidy, Shown;
    var separator := Separator(abbreviated);
    if d.fieldType == ENUM {
      ClosedTexts([f.enumerator(d, Scalar(b, d)), [separator]], separator);
    } else if d.fieldType == SIMPLE {
      Closed([f.ascii(d, Scalar(b, d))], [separator], separator);
    } else {
      var n := Shown(b, d, 0);
      var elements := ElementsScript(f, b, d, abbreviated, n);
      ElementsTidy(f, b, d, abbreviated, n);
      ArrayTidy(ArrayHead(f, d, abbreviated, ElementCount(b, d)), elements, d, abbreviated, f, ElementCount(b, d));
    }
  }

  lemma ArrayTidy(head: Script, elements: Script, d: Def, abbreviated: bool, f: Formats, count: nat)
    requires head == ArrayHead(f, d, abbreviated, count) && (d.isCsv ==> !d.isString)
    requires OnlyPuts(elements) && (d.isCsv ==> Tidy(elements, Separator(abbreviated)))
    ensures Tidy(head + elements + ArrayTail(d, abbreviated), Separator(abbreviated))
  {
    hide Tidy;
    var separator := Separator(abbreviated);
    if d.isCsv {
      HeadTidy(d, abbreviated, f, count);
      TidyThen(head, elements, separator);
      assert head + elements + ArrayTail(d, abbreviated) == head + elements;
    } else {
      var quote := if d.isString then Text([QUOTE]) else [];
      Closed(head + elements + quote, [separator], separator);
      assert head + elements + ArrayTail(d, abbreviated) == head + elements + quote + Text([separator]);
    }
  }

  lemma HeadTidy(d: Def, abbreviated: bool, f: Formats, count: nat)
    requires !d.isString
    ensures Tidy(ArrayHead(f, d, abbreviated, count), Separator(abbreviated))
  {
    if d.fieldType == VARIABLE_LENGTH_ARRAY {
      ClosedTexts([f.decimal(count), [Separator(abbreviated)]], Separator(abbreviated));
      assert ArrayHead(f, d, abbreviated, count) == Texts([f.decimal(count), [Separator(abbreviated)]]);
    }
  }

  /** Comma-separated arrays are not strings, at any depth. */
  ghost predicate CsvDefs(defs: seq<Def>)
    decreases defs
  {
    forall i | 0 <= i < |defs| :: CsvDef(defs[i])
  }

  ghost predicate CsvDef(d: Def)
    decreases d
  {
    (d.isCsv ==> !d.isString) && (d.info.Some? ==> CsvDefs(d.info.value.fields))
  }

  lemma {:induction false} FieldTidy(f: Formats, b: Body, d: Def, abbreviated: bool, indents: nat)
    requires ValidFormats(f) && FieldConforms(b, d) && CsvDef(d)
    ensures Tidy(FieldScript(f, b, d, abbreviated, indents), Separator(abbreviated))
    decreases d, 0
  {
    hide ValidFormats, ValueScript, RowsScript, Conforms, CsvDefs, Tidy, NewLine, Separator;
    var separator := Separator(abbreviated);
    if d.fieldType == FIELD_ARRAY {
      if d.info.Some? && d.index < |b.vars| {
        var v, defs := b.vars[d.index], d.info.value.fields;
        var head := Texts([f.decimal(RowCount(v)), [separator]]);
        var line := if abbreviated && RowCount(v) == 0 then NewLine(indents + 1) else [];
        ClosedTexts([f.decimal(RowCount(v)), [separator]], separator);
        LineTidy(abbreviated, indents + 1);
        RowsTidy(f, v, defs, abbreviated, indents + 1, RowCount(v));
        TidyThen(head, line, separator);
        TidyThen(head + line, RowsScript(f, v, defs, abbreviated, indents + 1, RowCount(v)), separator);
      } else {
        RefuseTidy(separator);
      }
    } else if d.fieldType == STRING {
      ClosedTexts([[QUOTE], b.vars[d.index].text, [QUOTE], [separator]], separator);
    } else if d.fieldType == RESPONSE_STR {
      ClosedTexts([b.vars[d.index].text, [separator]], separator);
    } else if d.fieldType == RESPONSE_ID {
      RefuseTidy(separator);
    } else {
      ValueTidy(f, b, d, abbreviated);
    }
  }

  lemma RefuseTidy(separator: byte)
    ensures Tidy([], separator) && Tidy([Refuse], separator)
  {
    OneSize(Refuse);
  }

  lemma LineTidy(abbreviated: bool, indents: nat)
    requires indents > 0
    ensures abbreviated ==> Tidy(NewLine(indents), Separator(abbreviated))
    ensures Tidy([], Separator(abbreviated))
  {
    IndentTidy(LINE_START, indents);
  }

  lemma Ended(s: Script, body: Script, separator: byte)
    requires OnlyPuts(s) && Tidy(body, separator) && Size(body) > 0
    ensures Tidy(s + body, separator)
  {
    hide OnlyPuts, TextOf;
    TextConcat(s, body);
    SizeConcat(s, body);
  }

  lemma RowTidy(before: Script, line: Script, body: Script, separator: byte)
    requires Tidy(before, separator) && OnlyPuts(line) && Tidy(body, separator) && (line == [] || Size(body) > 0)
    ensures Tidy(before + line + body, separator)
  {
    if line == [] {
      assert before + line == before;
      TidyThen(before, body, separator);
    } else {
      Ended(before + line, body, separator);
    }
  }

  lemma {:induction false} RowsTidy(f: Formats, v: Var, defs: seq<Def>, abbreviated: bool, indents: nat, n: nat)
    requires ValidFormats(f) && RowsConform(v, defs) && CsvDefs(defs) && n <= RowCount(v) && indents > 0
    ensures Tidy(RowsScript(f, v, defs, abbreviated, indents, n), Separator(abbreviated))
    decreases defs, 2, n
  {
    hide ValidFormats, Conforms, CsvDefs, BodyScript, Tidy, Separator;
    if n == 0 {
      RefuseTidy(Separator(abbreviated));
    } else {
      RowsTidy(f, v, defs, abbreviated, indents, n - 1);
      BodyTidy(f, RowBody(v, n - 1), defs, abbreviated, indents);
      RowTidy(RowsScript(f, v, defs, abbreviated, indents, n - 1), if abbreviated then Text([13, 10]) else [],
              BodyScript(f, RowBody(v, n - 1), defs, abbreviated, indents), Separator(abbreviated));
    }
  }

  lemma {:induction false} FieldsTidy(f: Formats, b: Body, defs: seq<Def>, abbreviated: bool, indents: nat)
    requires ValidFormats(f) && Conforms(b, defs) && CsvDefs(defs) && indents > 0
    ensures Tidy(FieldsScript(f, b, defs, abbreviated, indents), Separator(abbreviated))
    decreases defs, 0, 0
  {
    hide ValidFormats, FieldConforms, CsvDef, FieldScript, Tidy, Separator, NewLine;
    if defs == [] {
      RefuseTidy(Separator(abbreviated));
    } else {
      var n := |defs| - 1;
      var before, line := FieldsScript(f, b, defs[..n], abbreviated, indents), LineBreak(defs[..n], abbreviated, indents);
      FieldsTidy(f, b, defs[..n], abbreviated, indents);
      LineTidy(abbreviated, indents);
      FieldTidy(f, b, defs[n], abbreviated, indents);
      TidyThen(before, line, Separator(abbreviated));
      TidyThen(before + line, FieldScript(f, b, defs[n], abbreviated, indents), Separator(abbreviated));
    }
  }

  /** The body writes nothing, or ends with a separator; the abbreviated form is never empty. */
  lemma {:induction false} BodyTidy(f: Formats, b: Body, defs: seq<Def>, abbreviated: bool, indents: nat)
    requires ValidFormats(f) && Conforms(b, defs) && CsvDefs(defs) && indents > 0
    ensures Tidy(BodyScript(f, b, defs, abbreviated, indents), Separator(abbreviated))
    ensures abbreviated ==> Size(BodyScript(f, b, defs, abbreviated, indents)) > 0
    decreases defs, 1, 0
  {
    hide ValidFormats, Conforms, CsvDefs, FieldsScript, Tidy;
    var head := if abbreviated then Texts([[60], Indent(indents)]) else [];
    var fields := FieldsScript(f, b, defs, abbreviated, indents);
    IndentTidy([60], indents);
    RefuseTidy(Separator(abbreviated));
    FieldsTidy(f, b, defs, abbreviated, indents);
    TidyThen(head, fields, Separator(abbreviated));
    SizeConcat(head, fields);
  }

  /** What the message encoder relies on when it removes the last byte of an ASCII body: the body of
      a successful run is one text, and its last byte, if it has any, is a separator. */
  lemma BodyEndsWithSeparator(f: Formats, b: Body, defs: seq<Def>, abbreviated: bool, indents: nat, c: seq<Cell>)
    requires ValidFormats(f) && Conforms(b, defs) && CsvDefs(defs) && indents > 0
    ensures var s := BodyScript(f, b, defs, abbreviated, indents);
            && OnlyPuts(s) && Apply(c, s) == c + Cells(TextOf(s))
            && (TextOf(s) != [] ==> TextOf(s)[|TextOf(s)| - 1] == Separator(abbreviated))
            && (abbreviated ==> TextOf(s) != [])
  {
    hide BodyScript, Conforms, CsvDefs, ValidFormats;
    BodyTidy(f, b, defs, abbreviated, indents);
    AppliesText(c, BodyScript(f, b, defs, abbreviated, indents));
  }
}
