/** The structural form of a JSON body, and that the trailing commas and overwrites produce it. */
module JsonText {
  import opened BitLists
  import opened Writing
  import opened Fields
  import opened JsonScript
  import opened Joining

  /** A JSON value; the text of a scalar or string is that of the converter. */
  datatype Json = Raw(text: seq<byte>) | Array(items: seq<Json>) | Object(members: seq<Member>)
  datatype Member = Member(name: seq<byte>, value: Json)

  /** The text of a JSON value (the shape of sections 4 and 5 of RFC 8259). */
  function Render(j: Json): seq<byte>
    decreases j, 0
  {
    match j
    case Raw(text) => text
    case Array(items) => [LBRACKET] + Join(RenderItems(items)) + [RBRACKET]
    case Object(members) => [LBRACE] + Join(RenderMembers(members)) + [RBRACE]
  }

  function RenderItems(items: seq<Json>): (r: seq<seq<byte>>)
    ensures |r| == |items|
    decreases items, 1
  {
    if items == [] then [] else RenderItems(items[..|items| - 1]) + [Render(items[|items| - 1])]
  }

  function RenderMembers(members: seq<Member>): (r: seq<seq<byte>>)
    ensures |r| == |members|
    decreases members, 1
  {
    if members == [] then []
    else RenderMembers(members[..|members| - 1]) + [RenderMember(members[|members| - 1])]
  }

  function RenderMember(m: Member): seq<byte>
    decreases m, 1
  {
    Quote(m.name) + [COLON, SPACE] + Render(m.value)
  }

  // ---------------------------------------------------------------- the value of a body

  ghost function ValueOf(f: Formats, b: Body, d: Def): Json
    requires FieldConforms(b, d) && JsonDef(d)
    decreases d, 0
  {
    if d.fieldType == FIELD_ARRAY then
      if d.info.None? || d.index >= |b.vars| then Raw([])
      else Array(RowsOf(f, b.vars[d.index], d.info.value.fields, RowCount(b.vars[d.index])))
    else if d.fieldType == STRING || d.fieldType == RESPONSE_STR then Raw(Quote(b.vars[d.index].text))
    else if d.fieldType == ENUM then Raw(Quote(f.enumerator(d, Scalar(b, d))))
    else if d.fieldType == SIMPLE then Raw(Converted(f.json(d, Scalar(b, d))))
    else
      var texts := ElementTexts(f.json, b, d, Shown(b, d, 0));
      if d.isString then Raw(Quote(Concat(texts))) else Array(seq(|texts|, i requires 0 <= i < |texts| => Raw(texts[i])))
  }

  ghost function RowsOf(f: Formats, v: Var, defs: seq<Def>, n: nat): (r: seq<Json>)
    requires RowsConform(v, defs) && n <= RowCount(v) && JsonDefs(defs)
    ensures |r| == n
    decreases defs, 2, n
  {
    if n == 0 then [] else RowsOf(f, v, defs, n - 1) + [JsonOf(f, RowBody(v, n - 1), defs)]
  }

  ghost function MembersOf(f: Formats, b: Body, defs: seq<Def>): (r: seq<Member>)
    requires Encodable(b, defs)
    ensures |r| == |defs|
    decreases defs, 0, 0
  {
    if defs == [] then []
    else
      var n := |defs| - 1;
      MembersOf(f, b, defs[..n]) + [Member(defs[n].name, ValueOf(f, b, defs[n]))]
  }

  /** The body as a JSON object: one member a field, in order. */
  ghost function JsonOf(f: Formats, b: Body, defs: seq<Def>): Json
    requires Encodable(b, defs)
    decreases defs, 1, 0
  {
    Object(MembersOf(f, b, defs))
  }

  // ---------------------------------------------------------------- bodies with no field

  /** The number of bodies with an empty field list that EncodeJsonBody meets. */
  ghost function EmptyBodies(b: Body, defs: seq<Def>): nat
    requires Encodable(b, defs)
    decreases defs, 1, 0
  {
    if defs == [] then 1 else EmptyInFields(b, defs)
  }

  ghost function EmptyInFields(b: Body, defs: seq<Def>): nat
    requires Encodable(b, defs)
    decreases defs, 0, 0
  {
    if defs == [] then 0
    else EmptyInFields(b, defs[..|defs| - 1]) + EmptyInField(b, defs[|defs| - 1])
  }

  ghost function EmptyInField(b: Body, d: Def): nat
    requires FieldConforms(b, d) && JsonDef(d)
    decreases d, 0
  {
    if d.fieldType == FIELD_ARRAY && d.info.Some? && d.index < |b.vars| then
      EmptyInRows(b.vars[d.index], d.info.value.fields, RowCount(b.vars[d.index]))
    else 0
  }

  ghost function EmptyInRows(v: Var, defs: seq<Def>, n: nat): nat
    requires RowsConform(v, defs) && n <= RowCount(v) && JsonDefs(defs)
    decreases defs, 2, n
  {
    if n == 0 then 0 else EmptyInRows(v, defs, n - 1) + EmptyBodies(RowBody(v, n - 1), defs)
  }

  // ---------------------------------------------------------------- what a script wrote

  /** Every overwrite of the script replaces a comma. */
  ghost predicate CommaPatches(c: seq<Cell>, s: Script) {
    s == [] || (CommaPatches(c, s[..|s| - 1]) && (s[|s| - 1].Patch? ==> EndsWith(Apply(c, s[..|s| - 1]), COMMA)))
  }

  lemma {:induction false} CommaPatchesConcat(c: seq<Cell>, s: Script, t: Script)
    ensures CommaPatches(c, s + t) <==> CommaPatches(c, s) && CommaPatches(Apply(c, s), t)
    decreases |t|
  {
    if t == [] {
      assert s + t == s;
    } else {
      var t' := t[..|t| - 1];
      assert (s + t)[..|s + t| - 1] == s + t';
      CommaPatchesConcat(c, s, t');
      ApplyConcat(c, s, t');
    }
  }

  /** The script wrote the text, unless it met empty bodies: each of those is one byte short and
      had its opening brace overwritten. */
  ghost predicate Wrote(c: seq<Cell>, s: Script, text: seq<byte>, empty: nat) {
    && (CommaPatches(c, s) <==> empty == 0)
    && (empty == 0 ==> Apply(c, s) == c + Cells(text))
    && Size(s) + empty == |text|
  }

  lemma CellsConcat(s: seq<byte>, t: seq<byte>)
    ensures Cells(s + t) == Cells(s) + Cells(t)
  {
  }

  lemma WroteNothing(c: seq<Cell>)
    ensures Wrote(c, [], [], 0)
  {
  }

  lemma WroteText(c: seq<Cell>, a: Atom)
    requires a.Put?
    ensures Wrote(c, [a], a.text, 0)
  {
    assert [a][..0] == [];
  }

  lemma WroteThen(c: seq<Cell>, s: Script, x: seq<byte>, e: nat, t: Script, y: seq<byte>, g: nat)
    requires Wrote(c, s, x, e) && Wrote(Apply(c, s), t, y, g)
    ensures Wrote(c, s + t, x + y, e + g)
  {
    CommaPatchesConcat(c, s, t);
    ApplyConcat(c, s, t);
    SizeConcat(s, t);
    CellsConcat(x, y);
  }

  /** A closing character over the last comma. */
  lemma WrotePatch(c: seq<Cell>, s: Script, x: seq<byte>, e: nat, ch: byte)
    requires Wrote(c, s, x + [COMMA], e) && EndsWith(Apply(c, s), COMMA)
    ensures Wrote(c, s + [Patch(ch)], x + [ch], e)
  {
    var t := s + [Patch(ch)];
    assert t[..|t| - 1] == s;
    CellsConcat(x, [COMMA]);
    CellsConcat(x, [ch]);
    if e == 0 {
      assert (c + (Cells(x) + Cells([COMMA])))[..|c| + |x|] == c + Cells(x);
      assert Apply(c, t) == c + (Cells(x) + Cells([ch]));
    }
  }

  lemma {:induction false} WroteTexts(c: seq<Cell>, texts: seq<seq<byte>>)
    ensures Wrote(c, Texts(texts), Concat(texts), 0)
  {
    if texts == [] {
      WroteNothing(c);
    } else {
      var n := |texts| - 1;
      WroteTexts(c, texts[..n]);
      TextsSplit(texts, n);
      assert texts[..n + 1] == texts;
      WroteText(Apply(c, Texts(texts[..n])), Put(texts[n], 0));
      WroteThen(c, Texts(texts[..n]), Concat(texts[..n]), 0, Text(texts[n]), texts[n], 0);
    }
  }

  lemma EndsComma(c: seq<Cell>, s: Script)
    ensures EndsWith(Apply(c, s + Text([COMMA])), COMMA)
  {
    var t := s + Text([COMMA]);
    assert t[..|t| - 1] == s;
  }
}
