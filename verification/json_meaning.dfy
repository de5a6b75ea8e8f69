/** EncodeJsonBody writes the structural form exactly when no body has an empty field list. */
module JsonMeaning {
  import opened BitLists
  import opened Writing
  import opened Fields
  import opened JsonScript
  import opened Joining
  import opened JsonText

  /** One converted element, with a comma behind it or not. */
  lemma ElementStep(c: seq<Cell>, s: Script, x: seq<byte>, a: Atom, comma: bool)
    requires Wrote(c, s, x, 0) && (a.Put? || a.Refuse?)
    requires Accepted(s + [a] + (if comma then Text([COMMA]) else []))
    ensures Wrote(c, s + [a] + (if comma then Text([COMMA]) else []), x + Converted(a) + (if comma then [COMMA] else []), 0)
    ensures comma ==> EndsWith(Apply(c, s + [a] + (if comma then Text([COMMA]) else [])), COMMA)
  {
    hide Wrote, EndsWith;
    assert (s + [a] + (if comma then Text([COMMA]) else []))[|s|] == a;
    WroteText(Apply(c, s), a);
    WroteThen(c, s, x, 0, [a], Converted(a), 0);
    if comma {
      CommaThen(c, s + [a], x + Converted(a), 0);
    } else {
      assert s + [a] + [] == s + [a] && x + Converted(a) + [] == x + Converted(a);
    }
  }

  lemma {:induction false} ElementsWrote(f: Formats, b: Body, d: Def, n: nat, c: seq<Cell>)
    requires FieldConforms(b, d) && IsArray(d) && n <= ElementCount(b, d)
    requires ValidFormats(f) && Accepted(ElementsScript(f, b, d, n))
    ensures var texts := ElementTexts(f.json, b, d, n);
            Wrote(c, ElementsScript(f, b, d, n), if d.isString then Concat(texts) else Trailing(texts), 0)
    ensures n > 0 && !d.isString ==> EndsWith(Apply(c, ElementsScript(f, b, d, n)), COMMA)
  {
    hide FieldConforms, Wrote, EndsWith, Accepted, Concat, Trailing, ElementsScript;
    ElementsStep(f, b, d, n);
    if n == 0 {
      WroteNothing(c);
      NoParts();
    } else {
      var texts, s := ElementTexts(f.json, b, d, n - 1), ElementsScript(f, b, d, n - 1);
      var a := f.json(d, Element(b, d, n - 1));
      ConcatEnds(texts, Converted(a));
      TrailingEnds(texts, Converted(a));
      AcceptedParts(s + [a], if d.isString then [] else Text([COMMA]));
      AcceptedParts(s, [a]);
      ElementsWrote(f, b, d, n - 1, c);
      ElementStep(c, s, if d.isString then Concat(texts) else Trailing(texts), a, !d.isString);
      if d.isString {
        assert Concat(texts) + Converted(a) + [] == Concat(texts) + Converted(a);
      }
    }
  }

  lemma NoParts()
    ensures Concat([]) == [] && Trailing([]) == []
  {
  }

  lemma ElementsStep(f: Formats, b: Body, d: Def, n: nat)
    requires FieldConforms(b, d) && IsArray(d) && n <= ElementCount(b, d)
    ensures n == 0 ==> ElementsScript(f, b, d, n) == []
    ensures n > 0 ==> ElementsScript(f, b, d, n) ==
                      ElementsScript(f, b, d, n - 1) + [f.json(d, Element(b, d, n - 1))] + (if d.isString then [] else Text([COMMA]))
  {
    hide FieldConforms, Element;
  }

  lemma CommaThen(c: seq<Cell>, s: Script, x: seq<byte>, e: nat)
    requires Wrote(c, s, x, e)
    ensures Wrote(c, s + Text([COMMA]), x + [COMMA], e)
    ensures EndsWith(Apply(c, s + Text([COMMA])), COMMA)
  {
    WroteText(Apply(c, s), Put([COMMA], 0));
    WroteThen(c, s, x, e, Text([COMMA]), [COMMA], 0);
    EndsComma(c, s);
  }

  lemma RawItems(texts: seq<seq<byte>>)
    ensures RenderItems(seq(|texts|, i requires 0 <= i < |texts| => Raw(texts[i]))) == texts
  {
    if texts != [] {
      var n := |texts| - 1;
      var items := seq(|texts|, i requires 0 <= i < |texts| => Raw(texts[i]));
      assert items[..n] == seq(n, i requires 0 <= i < n => Raw(texts[..n][i]));
      RawItems(texts[..n]);
    }
  }

  /** An array of elements and the comma behind it. */
  lemma ArrayWrote(f: Formats, b: Body, d: Def, c: seq<Cell>)
    requires FieldConforms(b, d) && JsonDef(d) && IsArray(d)
    requires ValidFormats(f) && Accepted(ValueScript(f, b, d))
    ensures Wrote(c, ValueScript(f, b, d), Render(ValueOf(f, b, d)) + [COMMA], 0)
    ensures EndsWith(Apply(c, ValueScript(f, b, d)), COMMA)
  {
    hide FieldConforms, JsonDef, ValidFormats, Wrote, EndsWith, ElementsScript, ElementTexts, Shown, Accepted,
         Concat, Trailing, Join;
    var n := Shown(b, d, 0);
    var s, texts := ElementsScript(f, b, d, n), ElementTexts(f.json, b, d, n);
    var open: byte := if d.isString then QUOTE else LBRACKET;
    var close := if d.isString then Text([QUOTE]) else if n > 0 then [Patch(RBRACKET)] else Text([RBRACKET]);
    assert ValueScript(f, b, d) == Text([open]) + s + close + Text([COMMA]);
    AcceptedParts(Text([open]) + s + close, Text([COMMA]));
    AcceptedParts(Text([open]) + s, close);
    AcceptedParts(Text([open]), s);
    WroteText(c, Put([open], 0));
    ElementsWrote(f, b, d, n, Apply(c, Text([open])));
    ApplyConcat(c, Text([open]), s);
    ArrayText(f, b, d);
    if d.isString {
      WroteThen(c, Text([open]), [open], 0, s, Concat(texts), 0);
      WroteText(Apply(c, Text([open]) + s), Put([QUOTE], 0));
      WroteThen(c, Text([open]) + s, [open] + Concat(texts), 0, close, [QUOTE], 0);
      CommaThen(c, Text([open]) + s + close, [open] + Concat(texts) + [QUOTE], 0);
    } else {
      WroteThen(c, Text([open]), [open], 0, s, Trailing(texts), 0);
      CloseBracket(c, Text([open]) + s, [open], texts, 0);
      CommaThen(c, Text([open]) + s + close, [open] + Join(texts) + [RBRACKET], 0);
    }
  }

  lemma ArrayText(f: Formats, b: Body, d: Def)
    requires FieldConforms(b, d) && JsonDef(d) && IsArray(d)
    ensures var texts := ElementTexts(f.json, b, d, Shown(b, d, 0));
            Render(ValueOf(f, b, d)) ==
            if d.isString then [QUOTE] + Concat(texts) + [QUOTE] else [LBRACKET] + Join(texts) + [RBRACKET]
  {
    hide FieldConforms, JsonDef, ElementTexts, Shown, Concat, Join;
    RawItems(ElementTexts(f.json, b, d, Shown(b, d, 0)));
  }

  /** The bracket over the last comma, or after the opening bracket. */
  lemma CloseBracket(c: seq<Cell>, s: Script, open: seq<byte>, parts: seq<seq<byte>>, e: nat)
    requires Wrote(c, s, open + Trailing(parts), e)
    requires parts != [] ==> EndsWith(Apply(c, s), COMMA)
    ensures Wrote(c, s + (if parts != [] then [Patch(RBRACKET)] else Text([RBRACKET])), open + Join(parts) + [RBRACKET], e)
  {
    hide Wrote, EndsWith;
    if parts != [] {
      TrailingIsJoin(parts);
      assert open + Trailing(parts) == (open + Join(parts)) + [COMMA];
      WrotePatch(c, s, open + Join(parts), e, RBRACKET);
    } else {
      assert open + Trailing(parts) == open + Join(parts);
      WroteText(Apply(c, s), Put([RBRACKET], 0));
      WroteThen(c, s, open + Join(parts), e, Text([RBRACKET]), [RBRACKET], 0);
    }
  }

  /** A quoted text between a label and a comma. */
  lemma QuotedMember(name: seq<byte>, text: seq<byte>)
    ensures Concat([[QUOTE], name, [QUOTE, COLON, SPACE, QUOTE], text, [QUOTE, COMMA]]) ==
            RenderMember(Member(name, Raw(Quote(text)))) + [COMMA]
    ensures Concat([[QUOTE], text, [QUOTE, COMMA]]) == Quote(text) + [COMMA]
  {
    var opening := [[QUOTE], name, [QUOTE, COLON, SPACE, QUOTE]];
    Opening(name, [QUOTE, COLON, SPACE, QUOTE]);
    ConcatEnds(opening, text);
    ConcatEnds(opening + [text], [QUOTE, COMMA]);
    assert [[QUOTE], name, [QUOTE, COLON, SPACE, QUOTE], text, [QUOTE, COMMA]] == opening + [text] + [[QUOTE, COMMA]];
    assert [QUOTE] + name + [QUOTE, COLON, SPACE, QUOTE] + text + [QUOTE, COMMA] ==
           RenderMember(Member(name, Raw(Quote(text)))) + [COMMA];
    Opening(text, [QUOTE, COMMA]);
  }

  lemma Opening(name: seq<byte>, last: seq<byte>)
    ensures Concat([[QUOTE], name, last]) == [QUOTE] + name + last
  {
    ConcatEnds([], [QUOTE]);
    ConcatEnds([[QUOTE]], name);
    ConcatEnds([[QUOTE], name], last);
    assert [] + [[QUOTE]] == [[QUOTE]] && [[QUOTE]] + [name] == [[QUOTE], name];
    assert [[QUOTE], name] + [last] == [[QUOTE], name, last];
  }

  /** The texts of a member end with its comma. */
  lemma TextsWrote(c: seq<Cell>, texts: seq<seq<byte>>)
    requires texts != [] && texts[|texts| - 1] == [QUOTE, COMMA]
    ensures Wrote(c, Texts(texts), Concat(texts), 0) && EndsWith(Apply(c, Texts(texts)), COMMA)
  {
    WroteTexts(c, texts);
    var n := |texts| - 1;
    assert Texts(texts)[..n] == Texts(texts[..n]) && Texts(texts)[n] == Put([QUOTE, COMMA], 0);
  }

  /** EncodeJsonField after the label */
  lemma ValueWrote(f: Formats, b: Body, d: Def, c: seq<Cell>)
    requires FieldConforms(b, d) && JsonDef(d) && (IsArray(d) || d.fieldType == SIMPLE || d.fieldType == ENUM)
    requires ValidFormats(f) && Accepted(ValueScript(f, b, d))
    ensures Wrote(c, ValueScript(f, b, d), Render(ValueOf(f, b, d)) + [COMMA], 0)
    ensures EndsWith(Apply(c, ValueScript(f, b, d)), COMMA)
  {
    hide JsonDef, Wrote, EndsWith, ElementsScript, ElementTexts, Concat;
    if d.fieldType == ENUM {
      var text := f.enumerator(d, Scalar(b, d));
      TextsWrote(c, [[QUOTE], text, [QUOTE, COMMA]]);
      QuotedMember([], text);
    } else if d.fieldType == SIMPLE {
      WroteNothing(c);
      var a := f.json(d, Scalar(b, d));
      assert [] + [a] + Text([COMMA]) == ValueScript(f, b, d);
      ElementStep(c, [], [], a, true);
      assert [] + Converted(a) + [COMMA] == Render(ValueOf(f, b, d)) + [COMMA];
    } else {
      ArrayWrote(f, b, d, c);
    }
  }

  /** One turn of the field loop: a member and a comma. */
  lemma {:induction false} FieldWrote(f: Formats, b: Body, d: Def, c: seq<Cell>)
    requires FieldConforms(b, d) && JsonDef(d) && ValidFormats(f) && Accepted(FieldScript(f, b, d))
    ensures Wrote(c, FieldScript(f, b, d), RenderMember(Member(d.name, ValueOf(f, b, d))) + [COMMA], EmptyInField(b, d))
    ensures EndsWith(Apply(c, FieldScript(f, b, d)), COMMA)
    decreases d, 1
  {
    hide ValidFormats, Wrote, EndsWith, ValueScript, Concat, Render, ValueOf, EmptyInField, FieldConforms, JsonDef;
    if d.fieldType == FIELD_ARRAY {
      FieldArrayWrote(f, b, d, c);
    } else if d.fieldType == STRING || d.fieldType == RESPONSE_STR {
      HasText(b, d);
      var text := b.vars[d.index].text;
      TextsWrote(c, [[QUOTE], d.name, [QUOTE, COLON, SPACE, QUOTE], text, [QUOTE, COMMA]]);
      QuotedMember(d.name, text);
      StringValue(f, b, d);
    } else {
      HasValue(b, d);
      SimpleMemberWrote(f, b, d, c);
      NoBodies(b, d);
    }
  }

  lemma HasText(b: Body, d: Def)
    requires FieldConforms(b, d) && JsonDef(d) && (d.fieldType == STRING || d.fieldType == RESPONSE_STR)
    ensures d.index < |b.vars| && b.vars[d.index].Str?
  {
  }

  lemma HasValue(b: Body, d: Def)
    requires FieldConforms(b, d) && JsonDef(d)
    requires d.fieldType != FIELD_ARRAY && d.fieldType != STRING && d.fieldType != RESPONSE_STR
    ensures IsArray(d) || d.fieldType == SIMPLE || d.fieldType == ENUM
  {
  }

  /** A label, then a value with its comma. */
  lemma SimpleMemberWrote(f: Formats, b: Body, d: Def, c: seq<Cell>)
    requires FieldConforms(b, d) && JsonDef(d) && ValidFormats(f) && (IsArray(d) || d.fieldType == SIMPLE || d.fieldType == ENUM)
    requires Accepted(Texts(Label(d.name)) + ValueScript(f, b, d))
    ensures var s := Texts(Label(d.name)) + ValueScript(f, b, d);
            && Wrote(c, s, RenderMember(Member(d.name, ValueOf(f, b, d))) + [COMMA], 0)
            && EndsWith(Apply(c, s), COMMA)
  {
    hide ValidFormats, Wrote, EndsWith, ValueScript, Concat, Render, ValueOf, FieldConforms, JsonDef, Accepted, Texts;
    AcceptedParts(Texts(Label(d.name)), ValueScript(f, b, d));
    var head := Texts(Label(d.name));
    var value := Render(ValueOf(f, b, d));
    WroteTexts(c, Label(d.name));
    Opening(d.name, [QUOTE, COLON, SPACE]);
    ValueWrote(f, b, d, Apply(c, head));
    WroteThen(c, head, Concat(Label(d.name)), 0, ValueScript(f, b, d), value + [COMMA], 0);
    ApplyConcat(c, head, ValueScript(f, b, d));
    assert Concat(Label(d.name)) + (value + [COMMA]) == RenderMember(Member(d.name, ValueOf(f, b, d))) + [COMMA];
  }

  lemma StringValue(f: Formats, b: Body, d: Def)
    requires FieldConforms(b, d) && JsonDef(d) && (d.fieldType == STRING || d.fieldType == RESPONSE_STR)
    ensures ValueOf(f, b, d) == Raw(Quote(b.vars[d.index].text)) && EmptyInField(b, d) == 0
  {
  }

  lemma NoBodies(b: Body, d: Def)
    requires FieldConforms(b, d) && JsonDef(d) && d.fieldType != FIELD_ARRAY
    ensures EmptyInField(b, d) == 0
  {
  }

  /** A FIELD_ARRAY member */
  lemma {:induction false} FieldArrayWrote(f: Formats, b: Body, d: Def, c: seq<Cell>)
    requires FieldConforms(b, d) && JsonDef(d) && d.fieldType == FIELD_ARRAY
    requires ValidFormats(f) && Accepted(FieldScript(f, b, d))
    ensures Wrote(c, FieldScript(f, b, d), RenderMember(Member(d.name, ValueOf(f, b, d))) + [COMMA], EmptyInField(b, d))
    ensures EndsWith(Apply(c, FieldScript(f, b, d)), COMMA)
    decreases d, 0
  {
    hide ValidFormats, Wrote, EndsWith, RowsScript, Concat, Join, RowsOf, EmptyInRows, Conforms, JsonDefs, Trailing,
         FieldScript, ValueOf, EmptyInField, FieldConforms, JsonDef, RenderItems, RenderMember, Accepted, Texts;
    FieldArrayParts(f, b, d);
    var v, defs := b.vars[d.index], d.info.value.fields;
    var n := RowCount(v);
    var opening := [[QUOTE], d.name, [QUOTE, COLON, SPACE, LBRACKET]];
    var head, rows := Texts(opening), RowsScript(f, v, defs, n);
    var parts, empty := RenderItems(RowsOf(f, v, defs, n)), EmptyInRows(v, defs, n);
    var start := Quote(d.name) + [COLON, SPACE] + [LBRACKET];
    WroteTexts(c, opening);
    Opening(d.name, [QUOTE, COLON, SPACE, LBRACKET]);
    assert Concat(opening) == start;
    ArrayMember(d.name, RowsOf(f, v, defs, n));
    if n == 0 {
      EmptyArray(c, head, start);
      NoRowsYet(f, v, defs);
      assert start + Join(parts) == start;
    } else {
      var close := [Patch(RBRACKET)];
      assert head + (rows + close + Text([COMMA])) == head + rows + close + Text([COMMA]);
      AcceptedParts(head + rows + close, Text([COMMA]));
      AcceptedParts(head + rows, close);
      AcceptedParts(head, rows);
      RowsWrote(f, v, defs, n, Apply(c, head));
      WroteThen(c, head, start, 0, rows, Trailing(parts), empty);
      ApplyConcat(c, head, rows);
      CloseBracket(c, head + rows, start, parts, empty);
      CommaThen(c, head + rows + close, start + Join(parts) + [RBRACKET], empty);
    }
  }

  /** One array member in its parts: the script, and the structural form. */
  lemma FieldArrayParts(f: Formats, b: Body, d: Def)
    requires FieldConforms(b, d) && JsonDef(d) && d.fieldType == FIELD_ARRAY
    requires Accepted(FieldScript(f, b, d))
    ensures d.info.Some? && d.index < |b.vars| && JsonDefs(d.info.value.fields)
    ensures var v, defs := b.vars[d.index], d.info.value.fields;
            && RowsConform(v, defs)
            && ValueOf(f, b, d) == Array(RowsOf(f, v, defs, RowCount(v)))
            && EmptyInField(b, d) == EmptyInRows(v, defs, RowCount(v))
            && FieldScript(f, b, d) == Texts([[QUOTE], d.name, [QUOTE, COLON, SPACE, LBRACKET]]) +
               (if RowCount(v) == 0 then Text([RBRACKET, COMMA])
                else RowsScript(f, v, defs, RowCount(v)) + [Patch(RBRACKET)] + Text([COMMA]))
  {
    hide RowsScript, RowsOf, EmptyInRows, Conforms;
    RefuseNotAccepted();
  }

  lemma ArrayMember(name: seq<byte>, items: seq<Json>)
    ensures RenderMember(Member(name, Array(items))) + [COMMA] ==
            Quote(name) + [COLON, SPACE] + [LBRACKET] + Join(RenderItems(items)) + [RBRACKET] + [COMMA]
  {
    hide Join, RenderItems;
  }

  /** A field array with no rows: `],` in one text. */
  lemma EmptyArray(c: seq<Cell>, head: Script, start: seq<byte>)
    requires Wrote(c, head, start, 0)
    ensures var s := head + Text([RBRACKET, COMMA]); Wrote(c, s, start + [RBRACKET] + [COMMA], 0) && EndsWith(Apply(c, s), COMMA)
  {
    WroteText(Apply(c, head), Put([RBRACKET, COMMA], 0));
    WroteThen(c, head, start, 0, Text([RBRACKET, COMMA]), [RBRACKET, COMMA], 0);
    assert start + [RBRACKET, COMMA] == start + [RBRACKET] + [COMMA];
    var s := head + Text([RBRACKET, COMMA]);
    assert s[..|s| - 1] == head;
  }

  lemma NoRowsYet(f: Formats, v: Var, defs: seq<Def>)
    requires RowsConform(v, defs) && JsonDefs(defs)
    ensures RowsScript(f, v, defs, 0) == [] && EmptyInRows(v, defs, 0) == 0
    ensures Trailing(RenderItems(RowsOf(f, v, defs, 0))) == [] && Join(RenderItems(RowsOf(f, v, defs, 0))) == []
  {
  }

  lemma RenderEnds(items: seq<Json>, last: Json)
    ensures RenderItems(items + [last]) == RenderItems(items) + [Render(last)]
  {
    assert (items + [last])[..|items|] == items;
  }

  /** One more row and its comma. */
  lemma RowStep(c: seq<Cell>, s: Script, items: seq<Json>, e: nat, body: Script, json: Json, g: nat)
    requires Wrote(c, s, Trailing(RenderItems(items)), e) && Wrote(Apply(c, s), body, Render(json), g)
    ensures Wrote(c, s + body + Text([COMMA]), Trailing(RenderItems(items + [json])), e + g)
    ensures EndsWith(Apply(c, s + body + Text([COMMA])), COMMA)
  {
    hide Wrote, EndsWith, Render, Trailing, RenderItems;
    WroteThen(c, s, Trailing(RenderItems(items)), e, body, Render(json), g);
    CommaThen(c, s + body, Trailing(RenderItems(items)) + Render(json), e + g);
    RenderEnds(items, json);
    TrailingEnds(RenderItems(items), Render(json));
  }

  lemma LastRow(f: Formats, v: Var, defs: seq<Def>, n: nat)
    requires RowsConform(v, defs) && 0 < n <= RowCount(v) && JsonDefs(defs)
    ensures Conforms(RowBody(v, n - 1), defs)
    ensures RowsScript(f, v, defs, n) == RowsScript(f, v, defs, n - 1) + BodyScript(f, RowBody(v, n - 1), defs) + Text([COMMA])
    ensures RowsOf(f, v, defs, n) == RowsOf(f, v, defs, n - 1) + [JsonOf(f, RowBody(v, n - 1), defs)]
    ensures EmptyInRows(v, defs, n) == EmptyInRows(v, defs, n - 1) + EmptyBodies(RowBody(v, n - 1), defs)
  {
    hide Conforms, JsonDefs, BodyScript, JsonOf, EmptyBodies;
  }

  /** The first n rows, a comma behind each. */
  lemma {:induction false} RowsWrote(f: Formats, v: Var, defs: seq<Def>, n: nat, c: seq<Cell>)
    requires RowsConform(v, defs) && n <= RowCount(v) && JsonDefs(defs)
    requires ValidFormats(f) && Accepted(RowsScript(f, v, defs, n))
    ensures Wrote(c, RowsScript(f, v, defs, n), Trailing(RenderItems(RowsOf(f, v, defs, n))), EmptyInRows(v, defs, n))
    ensures n > 0 ==> EndsWith(Apply(c, RowsScript(f, v, defs, n)), COMMA)
    decreases defs, 2, n
  {
    hide ValidFormats, Wrote, EndsWith, Conforms, JsonDefs, BodyScript, JsonOf, Render, EmptyBodies, Accepted,
         RenderItems, Trailing,
         RowsScript, RowsOf, EmptyInRows, RowBody;
    if n == 0 {
      NoRowsYet(f, v, defs);
      WroteNothing(c);
    } else {
      LastRow(f, v, defs, n);
      var s, body := RowsScript(f, v, defs, n - 1), BodyScript(f, RowBody(v, n - 1), defs);
      var items, json := RowsOf(f, v, defs, n - 1), JsonOf(f, RowBody(v, n - 1), defs);
      var e, g := EmptyInRows(v, defs, n - 1), EmptyBodies(RowBody(v, n - 1), defs);
      AcceptedParts(s + body, Text([COMMA]));
      AcceptedParts(s, body);
      RowsWrote(f, v, defs, n - 1, c);
      BodyWrote(f, RowBody(v, n - 1), defs, Apply(c, s));
      RowStep(c, s, items, e, body, json, g);
    }
  }

  /** The members of a body, a comma behind each. */
  lemma {:induction false} FieldsWrote(f: Formats, b: Body, defs: seq<Def>, c: seq<Cell>)
    requires Encodable(b, defs) && ValidFormats(f) && Accepted(FieldsScript(f, b, defs))
    ensures Wrote(c, FieldsScript(f, b, defs), Trailing(RenderMembers(MembersOf(f, b, defs))), EmptyInFields(b, defs))
    ensures defs != [] ==> EndsWith(Apply(c, FieldsScript(f, b, defs)), COMMA)
    decreases defs, 0, 0
  {
    hide ValidFormats, Wrote, EndsWith, FieldConforms, JsonDef, FieldScript, ValueOf, RenderMember, EmptyInField, Accepted,
         FieldsScript, MembersOf, RenderMembers, Trailing, EmptyInFields;
    if defs == [] {
      NoMembers(f, b);
      WroteNothing(c);
    } else {
      var n := |defs| - 1;
      LastMember(f, b, defs);
      var s, one := FieldsScript(f, b, defs[..n]), FieldScript(f, b, defs[n]);
      var members, m := MembersOf(f, b, defs[..n]), Member(defs[n].name, ValueOf(f, b, defs[n]));
      var e, g := EmptyInFields(b, defs[..n]), EmptyInField(b, defs[n]);
      var x := Trailing(RenderMembers(members));
      AcceptedParts(s, one);
      FieldsWrote(f, b, defs[..n], c);
      FieldWrote(f, b, defs[n], Apply(c, s));
      WroteThen(c, s, x, e, one, RenderMember(m) + [COMMA], g);
      ApplyConcat(c, s, one);
    }
  }

  lemma NoMembers(f: Formats, b: Body)
    ensures Encodable(b, []) && FieldsScript(f, b, []) == [] && EmptyInFields(b, []) == 0
    ensures Trailing(RenderMembers(MembersOf(f, b, []))) == []
  {
  }

  /** The last turn of the field loop, in the script and in the structural form. */
  lemma LastMember(f: Formats, b: Body, defs: seq<Def>)
    requires Encodable(b, defs) && defs != []
    ensures var n := |defs| - 1;
            && Encodable(b, defs[..n]) && FieldConforms(b, defs[n]) && JsonDef(defs[n])
            && FieldsScript(f, b, defs) == FieldsScript(f, b, defs[..n]) + FieldScript(f, b, defs[n])
            && EmptyInFields(b, defs) == EmptyInFields(b, defs[..n]) + EmptyInField(b, defs[n])
            && Trailing(RenderMembers(MembersOf(f, b, defs))) ==
               Trailing(RenderMembers(MembersOf(f, b, defs[..n]))) +
               (RenderMember(Member(defs[n].name, ValueOf(f, b, defs[n]))) + [COMMA])
  {
    hide FieldConforms, JsonDef, FieldScript, ValueOf, RenderMember, EmptyInField;
    var n := |defs| - 1;
    var members, m := MembersOf(f, b, defs[..n]), Member(defs[n].name, ValueOf(f, b, defs[n]));
    assert (members + [m])[..n] == members;
    assert (RenderMembers(members) + [RenderMember(m)])[..n] == RenderMembers(members);
  }

  /** EncodeJsonBody: the structural form, short by one byte for each body with no field. */
  lemma {:induction false} BodyWrote(f: Formats, b: Body, defs: seq<Def>, c: seq<Cell>)
    requires Encodable(b, defs) && ValidFormats(f) && Accepted(BodyScript(f, b, defs))
    ensures Wrote(c, BodyScript(f, b, defs), Render(JsonOf(f, b, defs)), EmptyBodies(b, defs))
    decreases defs, 1, 0
  {
    hide ValidFormats, Wrote, EndsWith, FieldConforms, JsonDef, FieldsScript, MembersOf, RenderMembers, EmptyInFields,
         Accepted, Trailing, Join;
    var s, close := FieldsScript(f, b, defs), [Patch(RBRACE)];
    var parts, e := RenderMembers(MembersOf(f, b, defs)), EmptyInFields(b, defs);
    AcceptedParts(Text([LBRACE]) + s, close);
    AcceptedParts(Text([LBRACE]), s);
    if defs == [] {
      NoFields(f, b, c);
    } else {
      WroteText(c, Put([LBRACE], 0));
      FieldsWrote(f, b, defs, Apply(c, Text([LBRACE])));
      WroteThen(c, Text([LBRACE]), [LBRACE], 0, s, Trailing(parts), e);
      ApplyConcat(c, Text([LBRACE]), s);
      TrailingIsJoin(parts);
      assert [LBRACE] + Trailing(parts) == ([LBRACE] + Join(parts)) + [COMMA];
      WrotePatch(c, Text([LBRACE]) + s, [LBRACE] + Join(parts), e, RBRACE);
    }
  }

  /** With no field the opening brace is overwritten, and one byte is missing. */
  lemma NoFields(f: Formats, b: Body, c: seq<Cell>)
    requires Encodable(b, [])
    ensures Wrote(c, BodyScript(f, b, []), Render(JsonOf(f, b, [])), 1)
  {
    var s := Text([LBRACE]) + [] + [Patch(RBRACE)];
    assert BodyScript(f, b, []) == s;
    assert s[..1] == Text([LBRACE]);
    assert s[..1][..0] == [];
    assert Render(JsonOf(f, b, [])) == [LBRACE, RBRACE];
  }

  /** A run of EncodeJsonBody that succeeds writes the structural form of the body, and each of its
      overwrites replaces a comma, exactly when no body it meets has an empty field list. */
  lemma JsonIsStructural(f: Formats, b: Body, defs: seq<Def>, c: seq<Cell>, left: nat, d: seq<Cell>, m: nat)
    requires Encodable(b, defs) && ValidFormats(f)
    requires Ran(c, left, BodyScript(f, b, defs), true, d, m)
    ensures d == c + Cells(Render(JsonOf(f, b, defs))) <==> EmptyBodies(b, defs) == 0
    ensures CommaPatches(c, BodyScript(f, b, defs)) <==> EmptyBodies(b, defs) == 0
  {
    hide BodyScript, JsonOf, Render, EmptyBodies, Encodable, ValidFormats;
    FitsAccepted(BodyScript(f, b, defs), left);
    BodyWrote(f, b, defs, c);
  }

  /** Every field list of the definitions, at any depth, has a field. */
  ghost predicate AllListed(defs: seq<Def>)
    decreases defs
  {
    defs != [] && forall i | 0 <= i < |defs| :: FieldListed(defs[i])
  }

  ghost predicate FieldListed(d: Def)
    decreases d
  {
    d.info.Some? ==> AllListed(d.info.value.fields)
  }

  lemma {:induction false} ListedBodies(b: Body, defs: seq<Def>)
    requires Encodable(b, defs) && AllListed(defs)
    ensures EmptyBodies(b, defs) == 0
    decreases defs, 1, 0
  {
    ListedFields(b, defs);
  }

  lemma {:induction false} ListedFields(b: Body, defs: seq<Def>)
    requires Encodable(b, defs) && forall i | 0 <= i < |defs| :: FieldListed(defs[i])
    ensures EmptyInFields(b, defs) == 0
    decreases defs, 0, 0
  {
    hide FieldConforms, JsonDef, FieldListed, EmptyInField;
    if defs != [] {
      ListedFields(b, defs[..|defs| - 1]);
      ListedField(b, defs[|defs| - 1]);
    }
  }

  lemma {:induction false} ListedField(b: Body, d: Def)
    requires FieldConforms(b, d) && JsonDef(d) && FieldListed(d)
    ensures EmptyInField(b, d) == 0
    decreases d, 0
  {
    if d.fieldType == FIELD_ARRAY && d.info.Some? && d.index < |b.vars| {
      ListedRows(b.vars[d.index], d.info.value.fields, RowCount(b.vars[d.index]));
    }
  }

  lemma {:induction false} ListedRows(v: Var, defs: seq<Def>, n: nat)
    requires RowsConform(v, defs) && n <= RowCount(v) && JsonDefs(defs) && AllListed(defs)
    ensures EmptyInRows(v, defs, n) == 0
    decreases defs, 2, n
  {
    if n > 0 {
      ListedRows(v, defs, n - 1);
      ListedBodies(RowBody(v, n - 1), defs);
    }
  }
}
