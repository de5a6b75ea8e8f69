/** What EncodeJsonBody writes: members with trailing commas that are then overwritten. */
module JsonScript {
  import opened BitLists
  import opened Writing
  import opened Fields

  /** Field types that EncodeJsonBody supports, at every depth. */
  ghost predicate JsonDefs(defs: seq<Def>)
    decreases defs
  {
    forall i | 0 <= i < |defs| :: JsonDef(defs[i])
  }

  ghost predicate JsonDef(d: Def)
    decreases d
  {
    d.fieldType != RESPONSE_ID && (d.info.Some? ==> JsonDefs(d.info.value.fields))
  }

  ghost predicate Encodable(b: Body, defs: seq<Def>) {
    Conforms(b, defs) && JsonDefs(defs)
  }

  /** `"name": ` */
  function Label(name: seq<byte>): seq<seq<byte>> {
    [[QUOTE], name, [QUOTE, COLON, SPACE]]
  }

  /** The first n elements of an array; those of a string have no commas between them. */
  ghost function ElementsScript(f: Formats, b: Body, d: Def, n: nat): Script
    requires FieldConforms(b, d) && IsArray(d) && n <= ElementCount(b, d)
    decreases n
  {
    if n == 0 then []
    else
      ElementsScript(f, b, d, n - 1) + [f.json(d, Element(b, d, n - 1))] + (if d.isString then [] else Text([COMMA]))
  }

  /** EncodeJsonField after the label */
  ghost function ValueScript(f: Formats, b: Body, d: Def): Script
    requires FieldConforms(b, d) && (IsArray(d) || d.fieldType == SIMPLE || d.fieldType == ENUM)
  {
    if d.fieldType == ENUM then Texts([[QUOTE], f.enumerator(d, Scalar(b, d)), [QUOTE, COMMA]])
    else if d.fieldType == SIMPLE then [f.json(d, Scalar(b, d))] + Text([COMMA])
    else
      var n := Shown(b, d, 0);
      Text(if d.isString then [QUOTE] else [LBRACKET]) +
      ElementsScript(f, b, d, n) +
      (if d.isString then Text([QUOTE]) else if n > 0 then [Patch(RBRACKET)] else Text([RBRACKET])) +
      Text([COMMA])
  }

  /** One turn of the loop of EncodeJsonBody */
  ghost function FieldScript(f: Formats, b: Body, d: Def): Script
    requires FieldConforms(b, d) && JsonDef(d)
    decreases d, 0
  {
    if d.fieldType == FIELD_ARRAY then
      if d.info.None? || d.index >= |b.vars| then [Refuse]
      else
        var v := b.vars[d.index];
        Texts([[QUOTE], d.name, [QUOTE, COLON, SPACE, LBRACKET]]) +
        (if RowCount(v) == 0 then Text([RBRACKET, COMMA])
         else RowsScript(f, v, d.info.value.fields, RowCount(v)) + [Patch(RBRACKET)] + Text([COMMA]))
    else if d.fieldType == STRING || d.fieldType == RESPONSE_STR then
      Texts([[QUOTE], d.name, [QUOTE, COLON, SPACE, QUOTE], b.vars[d.index].text, [QUOTE, COMMA]])
    else
      Texts(Label(d.name)) + ValueScript(f, b, d)
  }

  /** The first n rows of a field array, a comma behind each. */
  ghost function RowsScript(f: Formats, v: Var, defs: seq<Def>, n: nat): Script
    requires RowsConform(v, defs) && n <= RowCount(v) && JsonDefs(defs)
    decreases defs, 2, n
  {
    if n == 0 then []
    else RowsScript(f, v, defs, n - 1) + BodyScript(f, RowBody(v, n - 1), defs) + Text([COMMA])
  }

  ghost function FieldsScript(f: Formats, b: Body, defs: seq<Def>): Script
    requires Encodable(b, defs)
    decreases defs, 0, 0
  {
    if defs == [] then []
    else
      var n := |defs| - 1;
      FieldsScript(f, b, defs[..n]) + FieldScript(f, b, defs[n])
  }

  /** EncodeJsonBody */
  ghost function BodyScript(f: Formats, b: Body, defs: seq<Def>): Script
    requires Encodable(b, defs)
    decreases defs, 1, 0
  {
    Text([LBRACE]) + FieldsScript(f, b, defs) + [Patch(RBRACE)]
  }
}
