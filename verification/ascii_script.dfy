/** What EncodeAsciiBody writes, in full or abbreviated form. */
module AsciiScript {
  import opened BitLists
  import Hex
  import opened Writing
  import opened Fields

  const OEM4_ABBREV_ASCII_INDENTATION_LENGTH: nat := 5
  const LINE_START: seq<byte> := [13, 10, 60]

  function Separator(abbreviated: bool): byte { if abbreviated then SPACE else COMMA }

  function Indent(levels: nat): seq<byte> { Hex.Repeat(SPACE, levels * OEM4_ABBREV_ASCII_INDENTATION_LENGTH) }

  /** "\r\n<" and the indentation. */
  function NewLine(levels: nat): Script { Texts([LINE_START, Indent(levels)]) }

  /** The first n elements of an array, with separators behind them if it is comma-separated. */
  ghost function ElementsScript(f: Formats, b: Body, d: Def, abbreviated: bool, n: nat): Script
    requires FieldConforms(b, d) && IsArray(d) && n <= ElementCount(b, d)
    decreases n
  {
    if n == 0 then []
    else
      ElementsScript(f, b, d, abbreviated, n - 1) + [f.ascii(d, Element(b, d, n - 1))] +
      (if d.isCsv then Text([Separator(abbreviated)]) else [])
  }

  /** The count, for variable arrays, and the opening quote. */
  function ArrayHead(f: Formats, d: Def, abbreviated: bool, count: nat): Script {
    (if d.fieldType == VARIABLE_LENGTH_ARRAY then Texts([f.decimal(count), [Separator(abbreviated)]]) else []) +
    (if d.isString then Text([QUOTE]) else [])
  }

  function ArrayTail(d: Def, abbreviated: bool): Script {
    (if d.isString then Text([QUOTE]) else []) + (if d.isCsv then [] else Text([Separator(abbreviated)]))
  }

  /** EncodeAsciiField */
  ghost function ValueScript(f: Formats, b: Body, d: Def, abbreviated: bool): Script
    requires FieldConforms(b, d) && (IsArray(d) || d.fieldType == SIMPLE || d.fieldType == ENUM)
  {
    if d.fieldType == ENUM then Texts([f.enumerator(d, Scalar(b, d)), [Separator(abbreviated)]])
    else if d.fieldType == SIMPLE then [f.ascii(d, Scalar(b, d))] + Text([Separator(abbreviated)])
    else
      ArrayHead(f, d, abbreviated, ElementCount(b, d)) + ElementsScript(f, b, d, abbreviated, Shown(b, d, 0)) +
      ArrayTail(d, abbreviated)
  }

  /** A field, once its line has begun. */
  ghost function FieldScript(f: Formats, b: Body, d: Def, abbreviated: bool, indents: nat): Script
    requires FieldConforms(b, d)
    decreases d, 0
  {
    if d.fieldType == FIELD_ARRAY then
      if d.index >= |b.vars| || d.info.None? then [Refuse]
      else
        var v := b.vars[d.index];
        Texts([f.decimal(RowCount(v)), [Separator(abbreviated)]]) +
        (if abbreviated && RowCount(v) == 0 then NewLine(indents + 1) else []) +
        RowsScript(f, v, d.info.value.fields, abbreviated, indents + 1, RowCount(v))
    else if d.fieldType == STRING then Texts([[QUOTE], b.vars[d.index].text, [QUOTE], [Separator(abbreviated)]])
    else if d.fieldType == RESPONSE_STR then Texts([b.vars[d.index].text, [Separator(abbreviated)]])
    else if d.fieldType == RESPONSE_ID then []
    else ValueScript(f, b, d, abbreviated)
  }

  ghost function RowsScript(f: Formats, v: Var, defs: seq<Def>, abbreviated: bool, indents: nat, n: nat): Script
    requires RowsConform(v, defs) && n <= RowCount(v)
    decreases defs, 2, n
  {
    if n == 0 then []
    else
      RowsScript(f, v, defs, abbreviated, indents, n - 1) + (if abbreviated then Text([13, 10]) else []) +
      BodyScript(f, RowBody(v, n - 1), defs, abbreviated, indents)
  }

  /** The field after a FIELD_ARRAY begins a new line. */
  function LineBreak(defs: seq<Def>, abbreviated: bool, indents: nat): Script {
    if abbreviated && defs != [] && defs[|defs| - 1].fieldType == FIELD_ARRAY then NewLine(indents) else []
  }

  ghost function FieldsScript(f: Formats, b: Body, defs: seq<Def>, abbreviated: bool, indents: nat): Script
    requires Conforms(b, defs)
    decreases defs, 0, 0
  {
    if defs == [] then []
    else
      var n := |defs| - 1;
      FieldsScript(f, b, defs[..n], abbreviated, indents) + LineBreak(defs[..n], abbreviated, indents) +
      FieldScript(f, b, defs[n], abbreviated, indents)
  }

  /** EncodeAsciiBody */
  ghost function BodyScript(f: Formats, b: Body, defs: seq<Def>, abbreviated: bool, indents: nat): Script
    requires Conforms(b, defs)
    decreases defs, 1, 0
  {
    (if abbreviated then Texts([[60], Indent(indents)]) else []) + FieldsScript(f, b, defs, abbreviated, indents)
  }
}
