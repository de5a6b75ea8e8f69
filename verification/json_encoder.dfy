/** EncodeJsonField and EncodeJsonBody over the output buffer. */
module JsonEncoder {
  import opened BitLists
  import opened Writing
  import opened Fields
  import opened JsonScript

  method EncodeJsonBody(f: Formats, b: Body, defs: seq<Def>, w: Writer) returns (ok: bool)
    requires w.Valid() && ValidFormats(f) && Encodable(b, defs)
    modifies w, w.buffer
    ensures w.Valid() && w.Outside()
    ensures Ran(old(w.cells), old(w.left), BodyScript(f, b, defs), ok, w.cells, w.left)
    decreases defs, 1, 0
  {
    hide Ran, FieldsScript, ValidFormats;
    ghost var c, l := w.cells, w.left;
    ghost var head, fields, last := Text([LBRACE]), FieldsScript(f, b, defs), [Patch(RBRACE)];
    ok := w.CopyToBuffer([LBRACE]);
    if !ok {
      RanFailed(c, l, head, fields + last, w.cells, w.left, w.cells, w.left);
      assert head + (fields + last) == head + fields + last;
      return;
    }
    ghost var c', l' := w.cells, w.left;
    ok := EncodeFields(f, b, defs, w);
    RanThen(c, l, head, c', l', fields, ok, w.cells, w.left);
    if !ok {
      RanFailed(c, l, head + fields, last, w.cells, w.left, w.cells, w.left);
      return;
    }
    RanGrew(c, l, head + fields, w.cells, w.left);
    SizeConcat(head, fields);
    OneSize(head[0]);
    c', l' := w.cells, w.left;
    w.Overwrite(RBRACE);
    RanThen(c, l, head + fields, c', l', last, true, w.cells, w.left);
  }

  lemma RanGrew(c: seq<Cell>, l: nat, s: Script, d: seq<Cell>, m: nat)
    requires Ran(c, l, s, true, d, m)
    ensures |d| == |c| + Size(s)
  {
  }

  /** The loop over the fields. */
  method EncodeFields(f: Formats, b: Body, defs: seq<Def>, w: Writer) returns (ok: bool)
    requires w.Valid() && ValidFormats(f) && Encodable(b, defs)
    modifies w, w.buffer
    ensures w.Valid() && w.Outside()
    ensures Ran(old(w.cells), old(w.left), FieldsScript(f, b, defs), ok, w.cells, w.left)
    decreases defs, 0, 0
  {
    hide Ran, FieldScript, ValidFormats, FieldConforms, JsonDef;
    ghost var c, l := w.cells, w.left;
    RanNothing(c, l);
    for i := 0 to |defs|
      invariant w.Valid() && w.Outside()
      invariant Encodable(b, defs[..i])
      invariant Ran(c, l, FieldsScript(f, b, defs[..i]), true, w.cells, w.left)
    {
      ghost var c', l' := w.cells, w.left;
      ok := EncodeField(f, b, defs[i], w);
      FieldsScriptNext(f, b, defs, i);
      RanThen(c, l, FieldsScript(f, b, defs[..i]), c', l', FieldScript(f, b, defs[i]), ok, w.cells, w.left);
      if !ok {
        ghost var rest := FieldsScriptRest(f, b, defs, i + 1);
        RanFailed(c, l, FieldsScript(f, b, defs[..i + 1]), rest, w.cells, w.left, w.cells, w.left);
        return;
      }
    }
    assert defs[..|defs|] == defs;
    return true;
  }

  lemma FieldsScriptNext(f: Formats, b: Body, defs: seq<Def>, i: nat)
    requires Encodable(b, defs) && i < |defs|
    ensures Encodable(b, defs[..i]) && Encodable(b, defs[..i + 1])
    ensures FieldConforms(b, defs[i]) && JsonDef(defs[i])
    ensures FieldsScript(f, b, defs[..i + 1]) == FieldsScript(f, b, defs[..i]) + FieldScript(f, b, defs[i])
  {
    hide FieldConforms, JsonDef, FieldScript;
    assert defs[..i + 1][..i] == defs[..i];
  }

  /** What is left to write after the first i fields. */
  lemma {:induction false} FieldsScriptRest(f: Formats, b: Body, defs: seq<Def>, i: nat) returns (rest: Script)
    requires Encodable(b, defs) && i <= |defs|
    ensures Encodable(b, defs[..i])
    ensures FieldsScript(f, b, defs) == FieldsScript(f, b, defs[..i]) + rest
    decreases |defs| - i
  {
    hide FieldConforms, JsonDef, FieldScript;
    if i == |defs| {
      assert defs[..i] == defs;
      rest := [];
    } else {
      FieldsScriptNext(f, b, defs, i);
      rest := FieldsScriptRest(f, b, defs, i + 1);
      rest := FieldScript(f, b, defs[i]) + rest;
    }
  }

  method EncodeField(f: Formats, b: Body, d: Def, w: Writer) returns (ok: bool)
    requires w.Valid() && ValidFormats(f) && FieldConforms(b, d) && JsonDef(d)
    modifies w, w.buffer
    ensures w.Valid() && w.Outside()
    ensures Ran(old(w.cells), old(w.left), FieldScript(f, b, d), ok, w.cells, w.left)
    decreases d, 1, 0
  {
    hide Ran, ValidFormats, ValueScript;
    if d.fieldType == FIELD_ARRAY {
      ok := EncodeFieldArray(f, b, d, w);
    } else if d.fieldType == STRING || d.fieldType == RESPONSE_STR {
      ok := w.CopyAllToBuffer([[QUOTE], d.name, [QUOTE, COLON, SPACE, QUOTE], b.vars[d.index].text, [QUOTE, COMMA]]);
    } else {
      ok := EncodeJsonField(f, b, d, w);
    }
  }

  /** A FIELD_ARRAY member: rows with a comma behind each, the last comma made a bracket. */
  method EncodeFieldArray(f: Formats, b: Body, d: Def, w: Writer) returns (ok: bool)
    requires w.Valid() && ValidFormats(f) && FieldConforms(b, d) && JsonDef(d) && d.fieldType == FIELD_ARRAY
    modifies w, w.buffer
    ensures w.Valid() && w.Outside()
    ensures Ran(old(w.cells), old(w.left), FieldScript(f, b, d), ok, w.cells, w.left)
    decreases d, 0, 0
  {
    hide Ran, ValidFormats, RowsScript, Conforms, JsonDefs;
    ghost var c, l := w.cells, w.left;
    if d.info.None? || d.index >= |b.vars| {
      RefuseFails(c, l);
      return false;
    }
    var v, defs := b.vars[d.index], d.info.value.fields;
    var count := RowCount(v);
    ok := w.CopyAllToBuffer([[QUOTE], d.name, [QUOTE, COLON, SPACE, LBRACKET]]);
    ghost var heading := Texts([[QUOTE], d.name, [QUOTE, COLON, SPACE, LBRACKET]]);
    ghost var c', l' := w.cells, w.left;
    if count == 0 {
      if !ok {
        RanFailed(c, l, heading, Text([RBRACKET, COMMA]), w.cells, w.left, w.cells, w.left);
        return;
      }
      ok := w.CopyToBuffer([RBRACKET, COMMA]);
      RanThen(c, l, heading, c', l', Text([RBRACKET, COMMA]), ok, w.cells, w.left);
      return;
    }
    ghost var rows := RowsScript(f, v, defs, count);
    if !ok {
      RanFailed(c, l, heading, rows + [Patch(RBRACKET)] + Text([COMMA]), w.cells, w.left, w.cells, w.left);
      return;
    }
    ok := EncodeRows(f, v, defs, w);
    if !ok {
      RanFailed(c', l', rows, [Patch(RBRACKET)] + Text([COMMA]), w.cells, w.left, w.cells, w.left);
      assert rows + ([Patch(RBRACKET)] + Text([COMMA])) == rows + [Patch(RBRACKET)] + Text([COMMA]);
      RanThen(c, l, heading, c', l', rows + [Patch(RBRACKET)] + Text([COMMA]), false, w.cells, w.left);
      return;
    }
    RanGrew(c', l', rows, w.cells, w.left);
    RowsNotEmpty(f, v, defs, count);
    ok := CloseWithComma(w, RBRACKET, c', l', rows);
    RanThen(c, l, heading, c', l', rows + [Patch(RBRACKET)] + Text([COMMA]), ok, w.cells, w.left);
  }

  lemma RefuseFails(c: seq<Cell>, l: nat)
    ensures forall d, m :: Ran(c, l, [Refuse], false, d, m)
  {
    OneAtom(c, l, Refuse);
  }

  lemma RowsNotEmpty(f: Formats, v: Var, defs: seq<Def>, n: nat)
    requires RowsConform(v, defs) && 0 < n <= RowCount(v) && JsonDefs(defs)
    ensures Size(RowsScript(f, v, defs, n)) > 0
  {
    hide BodyScript, Conforms, JsonDefs;
    var s := RowsScript(f, v, defs, n - 1) + BodyScript(f, RowBody(v, n - 1), defs);
    SizeConcat(s, Text([COMMA]));
    OneSize(Put([COMMA], 0));
  }

  /** The last byte overwritten by a closing character, and a comma after it. */
  method CloseWithComma(w: Writer, closing: byte, ghost c: seq<Cell>, ghost l: nat, ghost s: Script) returns (ok: bool)
    requires w.Valid() && |w.cells| > 0 && Ran(c, l, s, true, w.cells, w.left)
    modifies w, w.buffer
    ensures w.Valid() && w.Outside()
    ensures Ran(c, l, s + [Patch(closing)] + Text([COMMA]), ok, w.cells, w.left)
  {
    hide Ran;
    ghost var c', l' := w.cells, w.left;
    w.Overwrite(closing);
    RanThen(c, l, s, c', l', [Patch(closing)], true, w.cells, w.left);
    c', l' := w.cells, w.left;
    ok := w.CopyToBuffer([COMMA]);
    RanThen(c, l, s + [Patch(closing)], c', l', Text([COMMA]), ok, w.cells, w.left);
  }

  /** The loop over the rows of a field array. */
  method EncodeRows(f: Formats, v: Var, defs: seq<Def>, w: Writer) returns (ok: bool)
    requires w.Valid() && ValidFormats(f) && JsonDefs(defs) && RowsConform(v, defs)
    modifies w, w.buffer
    ensures w.Valid() && w.Outside()
    ensures Ran(old(w.cells), old(w.left), RowsScript(f, v, defs, RowCount(v)), ok, w.cells, w.left)
    decreases defs, 2, 0
  {
    hide Ran, ValidFormats, BodyScript, Conforms, JsonDefs;
    ghost var c, l := w.cells, w.left;
    RanNothing(c, l);
    for i := 0 to RowCount(v)
      invariant w.Valid() && w.Outside()
      invariant Ran(c, l, RowsScript(f, v, defs, i), true, w.cells, w.left)
    {
      ghost var rows, body := RowsScript(f, v, defs, i), BodyScript(f, RowBody(v, i), defs);
      ghost var c', l' := w.cells, w.left;
      ok := EncodeJsonBody(f, RowBody(v, i), defs, w);
      RanThen(c, l, rows, c', l', body, ok, w.cells, w.left);
      if ok {
        c', l' := w.cells, w.left;
        ok := w.CopyToBuffer([COMMA]);
        RanThen(c, l, rows + body, c', l', Text([COMMA]), ok, w.cells, w.left);
      } else {
        RanFailed(c, l, rows + body, Text([COMMA]), w.cells, w.left, w.cells, w.left);
      }
      if !ok {
        ghost var rest := RowsScriptRest(f, v, defs, i + 1);
        RanFailed(c, l, RowsScript(f, v, defs, i + 1), rest, w.cells, w.left, w.cells, w.left);
        return;
      }
    }
    return true;
  }

  lemma {:induction false} RowsScriptRest(f: Formats, v: Var, defs: seq<Def>, i: nat) returns (rest: Script)
    requires JsonDefs(defs) && RowsConform(v, defs) && i <= RowCount(v)
    ensures RowsScript(f, v, defs, RowCount(v)) == RowsScript(f, v, defs, i) + rest
    decreases RowCount(v) - i
  {
    hide BodyScript, Conforms, JsonDefs;
    if i == RowCount(v) {
      rest := [];
    } else {
      rest := RowsScriptRest(f, v, defs, i + 1);
      rest := (BodyScript(f, RowBody(v, i), defs) + Text([COMMA])) + rest;
    }
  }

  /** A member with a simple value or an array of these: its label, and then its value. */
  method EncodeJsonField(f: Formats, b: Body, d: Def, w: Writer) returns (ok: bool)
    requires w.Valid() && ValidFormats(f) && FieldConforms(b, d)
    requires IsArray(d) || d.fieldType == SIMPLE || d.fieldType == ENUM
    modifies w, w.buffer
    ensures w.Valid() && w.Outside()
    ensures Ran(old(w.cells), old(w.left), Texts(Label(d.name)) + ValueScript(f, b, d), ok, w.cells, w.left)
  {
    hide Ran, ValidFormats, ValueScript, FieldConforms;
    ghost var c, l := w.cells, w.left;
    ghost var heading, value := Texts(Label(d.name)), ValueScript(f, b, d);
    ok := w.CopyAllToBuffer([[QUOTE], d.name, [QUOTE, COLON, SPACE]]);
    if !ok {
      RanFailed(c, l, heading, value, w.cells, w.left, w.cells, w.left);
      return;
    }
    ghost var c', l' := w.cells, w.left;
    ok := EncodeJsonValue(f, b, d, w);
    RanThen(c, l, heading, c', l', value, ok, w.cells, w.left);
  }

  /** EncodeJsonField behind the label. */
  method EncodeJsonValue(f: Formats, b: Body, d: Def, w: Writer) returns (ok: bool)
    requires w.Valid() && ValidFormats(f) && FieldConforms(b, d)
    requires IsArray(d) || d.fieldType == SIMPLE || d.fieldType == ENUM
    modifies w, w.buffer
    ensures w.Valid() && w.Outside()
    ensures Ran(old(w.cells), old(w.left), ValueScript(f, b, d), ok, w.cells, w.left)
  {
    hide Ran, FieldConforms;
    if d.fieldType == ENUM {
      ok := w.CopyAllToBuffer([[QUOTE], f.enumerator(d, Scalar(b, d)), [QUOTE, COMMA]]);
    } else if d.fieldType == SIMPLE {
      ghost var c, l := w.cells, w.left;
      ghost var value := [f.json(d, Scalar(b, d))];
      ok := w.WriteFormatted(f.json(d, Scalar(b, d)));
      if !ok {
        RanFailed(c, l, value, Text([COMMA]), w.cells, w.left, w.cells, w.left);
        return;
      }
      ghost var c', l' := w.cells, w.left;
      ok := w.CopyToBuffer([COMMA]);
      RanThen(c, l, value, c', l', Text([COMMA]), ok, w.cells, w.left);
    } else {
      ok := EncodeJsonArray(f, b, d, w);
    }
  }

  /** The array branch of EncodeJsonField. */
  method EncodeJsonArray(f: Formats, b: Body, d: Def, w: Writer) returns (ok: bool)
    requires w.Valid() && ValidFormats(f) && FieldConforms(b, d) && IsArray(d)
    modifies w, w.buffer
    ensures w.Valid() && w.Outside()
    ensures Ran(old(w.cells), old(w.left), ValueScript(f, b, d), ok, w.cells, w.left)
  {
    hide Ran, FieldConforms, ElementsScript, Shown, Terminates, ValidFormats;
    ghost var c, l := w.cells, w.left;
    ghost var n := Shown(b, d, 0);
    ghost var open := Text(if d.isString then [QUOTE] else [LBRACKET]);
    ghost var elements, rest := ElementsScript(f, b, d, n), Closing(d.isString, n > 0) + Text([COMMA]);
    ArrayParts(f, b, d);
    ok := w.CopyToBuffer(if d.isString then [QUOTE] else [LBRACKET]);
    if !ok {
      RanFailed(c, l, open, elements + rest, w.cells, w.left, w.cells, w.left);
      return;
    }
    ghost var c', l' := w.cells, w.left;
    var wroteAny;
    ok, wroteAny := EncodeElements(f, b, d, w);
    RanThen(c, l, open, c', l', elements, ok, w.cells, w.left);
    if !ok {
      RanFailed(c, l, open + elements, rest, w.cells, w.left, w.cells, w.left);
      return;
    }
    RanGrew(c, l, open + elements, w.cells, w.left);
    SizeConcat(open, elements);
    OneSize(open[0]);
    c', l' := w.cells, w.left;
    ok := CloseArray(d.isString, wroteAny, w);
    RanThen(c, l, open + elements, c', l', rest, ok, w.cells, w.left);
  }

  /** What ends an array. */
  function Closing(isString: bool, wroteAny: bool): Script {
    if isString then Text([QUOTE]) else if wroteAny then [Patch(RBRACKET)] else Text([RBRACKET])
  }

  lemma ArrayParts(f: Formats, b: Body, d: Def)
    requires FieldConforms(b, d) && IsArray(d)
    ensures var open, n := Text(if d.isString then [QUOTE] else [LBRACKET]), Shown(b, d, 0);
            var elements, rest := ElementsScript(f, b, d, n), Closing(d.isString, n > 0) + Text([COMMA]);
            ValueScript(f, b, d) == (open + elements) + rest == open + (elements + rest)
  {
    hide FieldConforms, ElementsScript, Shown;
  }

  method CloseArray(isString: bool, wroteAny: bool, w: Writer) returns (ok: bool)
    requires w.Valid() && |w.cells| > 0
    modifies w, w.buffer
    ensures w.Valid() && w.Outside()
    ensures Ran(old(w.cells), old(w.left), Closing(isString, wroteAny) + Text([COMMA]), ok, w.cells, w.left)
  {
    hide Ran;
    ghost var c, l := w.cells, w.left;
    ok := true;
    if isString {
      ok := w.CopyToBuffer([QUOTE]);
    } else if wroteAny {
      w.Overwrite(RBRACKET);
    } else {
      ok := w.CopyToBuffer([RBRACKET]);
    }
    if !ok {
      RanFailed(c, l, Closing(isString, wroteAny), Text([COMMA]), w.cells, w.left, w.cells, w.left);
      return;
    }
    ghost var c', l' := w.cells, w.left;
    ok := w.CopyToBuffer([COMMA]);
    RanThen(c, l, Closing(isString, wroteAny), c', l', Text([COMMA]), ok, w.cells, w.left);
  }

  /** The element loop of EncodeJsonField. */
  method EncodeElements(f: Formats, b: Body, d: Def, w: Writer) returns (ok: bool, wroteAny: bool)
    requires w.Valid() && ValidFormats(f) && FieldConforms(b, d) && IsArray(d)
    modifies w, w.buffer
    ensures w.Valid() && w.Outside()
    ensures Ran(old(w.cells), old(w.left), ElementsScript(f, b, d, Shown(b, d, 0)), ok, w.cells, w.left)
    ensures ok ==> wroteAny == (Shown(b, d, 0) > 0)
  {
    hide Ran, FieldConforms, Terminates;
    ghost var c, l := w.cells, w.left;
    ghost var n := Shown(b, d, 0);
    RanNothing(c, l);
    ok, wroteAny := true, false;
    var i := 0;
    while i < ElementCount(b, d)
      invariant w.Valid() && w.Outside() && ok
      invariant 0 <= i <= n && Shown(b, d, i) == n && wroteAny == (i > 0)
      invariant Ran(c, l, ElementsScript(f, b, d, i), true, w.cells, w.left)
    {
      if Terminates(b, d, i) {
        break;
      }
      ghost var before, value := ElementsScript(f, b, d, i), [f.json(d, Element(b, d, i))];
      ghost var c', l' := w.cells, w.left;
      ok := w.WriteFormatted(f.json(d, Element(b, d, i)));
      RanThen(c, l, before, c', l', value, ok, w.cells, w.left);
      if !d.isString {
        if ok {
          c', l' := w.cells, w.left;
          ok := w.CopyToBuffer([COMMA]);
          RanThen(c, l, before + value, c', l', Text([COMMA]), ok, w.cells, w.left);
        } else {
          RanFailed(c, l, before + value, Text([COMMA]), w.cells, w.left, w.cells, w.left);
        }
      } else {
        assert (before + value) + [] == before + value;
      }
      if !ok {
        ghost var rest := ElementsRest(f, b, d, i + 1, n);
        RanFailed(c, l, ElementsScript(f, b, d, i + 1), rest, w.cells, w.left, w.cells, w.left);
        return;
      }
      wroteAny := true;
      i := i + 1;
    }
  }

  lemma {:induction false} ElementsRest(f: Formats, b: Body, d: Def, i: nat, n: nat) returns (rest: Script)
    requires FieldConforms(b, d) && IsArray(d) && i <= n <= ElementCount(b, d)
    ensures ElementsScript(f, b, d, n) == ElementsScript(f, b, d, i) + rest
    decreases n - i
  {
    hide FieldConforms;
    if i == n {
      rest := [];
    } else {
      rest := ElementsRest(f, b, d, i + 1, n);
      rest := ([f.json(d, Element(b, d, i))] + (if d.isString then [] else Text([COMMA]))) + rest;
    }
  }
}
