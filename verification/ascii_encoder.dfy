/** EncodeAsciiField and EncodeAsciiBody over the output buffer. */
module AsciiEncoder {
  import opened BitLists
  import opened Writing
  import opened Fields
  import opened AsciiScript

  /** A text that is only written in one of the cases. */
  method WriteIf(condition: bool, texts: seq<seq<byte>>, w: Writer) returns (ok: bool)
    requires w.Valid()
    modifies w, w.buffer
    ensures w.Valid() && w.Outside()
    ensures Ran(old(w.cells), old(w.left), if condition then Texts(texts) else [], ok, w.cells, w.left)
  {
    hide Ran;
    RanNothing(w.cells, w.left);
    ok := true;
    if condition {
      ok := w.CopyAllToBuffer(texts);
    }
  }

  method EncodeAsciiBody(f: Formats, b: Body, defs: seq<Def>, abbreviated: bool, indents: nat, w: Writer) returns (ok: bool)
    requires w.Valid() && ValidFormats(f) && Conforms(b, defs)
    modifies w, w.buffer
    ensures w.Valid() && w.Outside()
    ensures Ran(old(w.cells), old(w.left), BodyScript(f, b, defs, abbreviated, indents), ok, w.cells, w.left)
    decreases defs, 1, 0
  {
    hide Ran, ValidFormats, FieldsScript, FieldConforms;
    ghost var c, l := w.cells, w.left;
    ghost var head := if abbreviated then Texts([[60], Indent(indents)]) else [];
    ok := WriteIf(abbreviated, [[60], Indent(indents)], w);
    if !ok {
      RanFailed(c, l, head, FieldsScript(f, b, defs, abbreviated, indents), w.cells, w.left, w.cells, w.left);
      return;
    }
    ghost var c', l' := w.cells, w.left;
    ok := EncodeFields(f, b, defs, abbreviated, indents, w);
    RanThen(c, l, head, c', l', FieldsScript(f, b, defs, abbreviated, indents), ok, w.cells, w.left);
  }

  /** The loop over the fields. */
  method EncodeFields(f: Formats, b: Body, defs: seq<Def>, abbreviated: bool, indents: nat, w: Writer) returns (ok: bool)
    requires w.Valid() && ValidFormats(f) && Conforms(b, defs)
    modifies w, w.buffer
    ensures w.Valid() && w.Outside()
    ensures Ran(old(w.cells), old(w.left), FieldsScript(f, b, defs, abbreviated, indents), ok, w.cells, w.left)
    decreases defs, 0, 0
  {
    hide Ran, ValidFormats, FieldScript, FieldConforms, LineBreak, FieldsScript;
    ghost var c, l := w.cells, w.left;
    RanNothing(c, l);
    NoFields(f, b, defs, abbreviated, indents);
    var newIndentLine := false;
    for i := 0 to |defs|
      invariant w.Valid() && w.Outside()
      invariant Conforms(b, defs[..i])
      invariant newIndentLine == (abbreviated && i > 0 && defs[i - 1].fieldType == FIELD_ARRAY)
      invariant Ran(c, l, FieldsScript(f, b, defs[..i], abbreviated, indents), true, w.cells, w.left)
    {
      ghost var before := FieldsScript(f, b, defs[..i], abbreviated, indents);
      FieldsScriptNext(f, b, defs, abbreviated, indents, i);
      ok := EncodeLine(f, b, defs, i, newIndentLine, abbreviated, indents, w, c, l, before);
      if !ok {
        ghost var rest := FieldsScriptRest(f, b, defs, abbreviated, indents, i + 1);
        RanFailed(c, l, FieldsScript(f, b, defs[..i + 1], abbreviated, indents), rest, w.cells, w.left, w.cells, w.left);
        return;
      }
      newIndentLine := abbreviated && defs[i].fieldType == FIELD_ARRAY;
    }
    assert defs[..|defs|] == defs;
    return true;
  }

  lemma NoFields(f: Formats, b: Body, defs: seq<Def>, abbreviated: bool, indents: nat)
    ensures Conforms(b, defs[..0]) && FieldsScript(f, b, defs[..0], abbreviated, indents) == []
  {
  }

  lemma FieldsScriptNext(f: Formats, b: Body, defs: seq<Def>, abbreviated: bool, indents: nat, i: nat)
    requires Conforms(b, defs) && i < |defs|
    ensures Conforms(b, defs[..i]) && Conforms(b, defs[..i + 1]) && FieldConforms(b, defs[i])
    ensures FieldsScript(f, b, defs[..i + 1], abbreviated, indents) ==
            FieldsScript(f, b, defs[..i], abbreviated, indents) + LineBreak(defs[..i], abbreviated, indents) +
            FieldScript(f, b, defs[i], abbreviated, indents)
  {
    hide FieldConforms, FieldScript, LineBreak;
    assert defs[..i + 1][..i] == defs[..i];
  }

  /** What is left to write after the first i fields. */
  lemma {:induction false} FieldsScriptRest(f: Formats, b: Body, defs: seq<Def>, abbreviated: bool, indents: nat, i: nat)
    returns (rest: Script)
    requires Conforms(b, defs) && i <= |defs|
    ensures Conforms(b, defs[..i])
    ensures FieldsScript(f, b, defs, abbreviated, indents) == FieldsScript(f, b, defs[..i], abbreviated, indents) + rest
    decreases |defs| - i
  {
    hide FieldConforms, FieldScript, LineBreak, FieldsScript;
    if i == |defs| {
      assert defs[..i] == defs;
      rest := [];
    } else {
      FieldsScriptNext(f, b, defs, abbreviated, indents, i);
      rest := FieldsScriptRest(f, b, defs, abbreviated, indents, i + 1);
      rest := (LineBreak(defs[..i], abbreviated, indents) + FieldScript(f, b, defs[i], abbreviated, indents)) + rest;
    }
  }

  /** One turn of the loop: a new line if one is due, and the field. */
  method EncodeLine(f: Formats, b: Body, defs: seq<Def>, i: nat, newIndentLine: bool, abbreviated: bool, indents: nat, w: Writer,
                    ghost c: seq<Cell>, ghost l: nat, ghost before: Script)
    returns (ok: bool)
    requires w.Valid() && ValidFormats(f) && i < |defs| && FieldConforms(b, defs[i])
    requires newIndentLine == (abbreviated && i > 0 && defs[i - 1].fieldType == FIELD_ARRAY)
    requires Ran(c, l, before, true, w.cells, w.left)
    modifies w, w.buffer
    ensures w.Valid() && w.Outside()
    ensures Ran(c, l, before + LineBreak(defs[..i], abbreviated, indents) + FieldScript(f, b, defs[i], abbreviated, indents), ok,
                w.cells, w.left)
    decreases defs[i], 2, 0
  {
    hide Ran, ValidFormats, FieldScript, FieldConforms;
    ghost var line, field := LineBreak(defs[..i], abbreviated, indents), FieldScript(f, b, defs[i], abbreviated, indents);
    ghost var c', l' := w.cells, w.left;
    ok := WriteIf(newIndentLine, [LINE_START, Indent(indents)], w);
    RanThen(c, l, before, c', l', line, ok, w.cells, w.left);
    if !ok {
      RanFailed(c, l, before + line, field, w.cells, w.left, w.cells, w.left);
      return;
    }
    c', l' := w.cells, w.left;
    ok := EncodeField(f, b, defs[i], abbreviated, indents, w);
    RanThen(c, l, before + line, c', l', field, ok, w.cells, w.left);
  }

  method EncodeField(f: Formats, b: Body, d: Def, abbreviated: bool, indents: nat, w: Writer) returns (ok: bool)
    requires w.Valid() && ValidFormats(f) && FieldConforms(b, d)
    modifies w, w.buffer
    ensures w.Valid() && w.Outside()
    ensures Ran(old(w.cells), old(w.left), FieldScript(f, b, d, abbreviated, indents), ok, w.cells, w.left)
    decreases d, 1, 0
  {
    hide Ran, ValidFormats, ValueScript;
    if d.fieldType == FIELD_ARRAY {
      ok := EncodeFieldArray(f, b, d, abbreviated, indents, w);
    } else if d.fieldType == STRING {
      ok := w.CopyAllToBuffer([[QUOTE], b.vars[d.index].text, [QUOTE], [Separator(abbreviated)]]);
    } else if d.fieldType == RESPONSE_STR {
      ok := w.CopyAllToBuffer([b.vars[d.index].text, [Separator(abbreviated)]]);
    } else if d.fieldType == RESPONSE_ID {
      RanNothing(w.cells, w.left);
      return true;
    } else {
      ok := EncodeAsciiField(f, b, d, abbreviated, w);
    }
  }

  /** The count and the rows of a FIELD_ARRAY. */
  method EncodeFieldArray(f: Formats, b: Body, d: Def, abbreviated: bool, indents: nat, w: Writer) returns (ok: bool)
    requires w.Valid() && ValidFormats(f) && FieldConforms(b, d) && d.fieldType == FIELD_ARRAY
    modifies w, w.buffer
    ensures w.Valid() && w.Outside()
    ensures Ran(old(w.cells), old(w.left), FieldScript(f, b, d, abbreviated, indents), ok, w.cells, w.left)
    decreases d, 0, 0
  {
    hide Ran, ValidFormats, RowsScript, Conforms;
    ghost var c, l := w.cells, w.left;
    if d.index >= |b.vars| || d.info.None? {
      OneAtom(c, l, Refuse);
      return false;
    }
    var v, defs := b.vars[d.index], d.info.value.fields;
    var count := RowCount(v);
    ghost var head := Texts([f.decimal(count), [Separator(abbreviated)]]);
    ghost var blank := if abbreviated && count == 0 then NewLine(indents + 1) else [];
    ghost var rows := RowsScript(f, v, defs, abbreviated, indents + 1, count);
    ok := w.CopyAllToBuffer([f.decimal(count), [Separator(abbreviated)]]);
    if !ok {
      RanFailed(c, l, head, blank, w.cells, w.left, w.cells, w.left);
      RanFailed(c, l, head + blank, rows, w.cells, w.left, w.cells, w.left);
      return;
    }
    ghost var c', l' := w.cells, w.left;
    // A blank line for an array with no rows.
    ok := WriteIf(abbreviated && count == 0, [LINE_START, Indent(indents + 1)], w);
    RanThen(c, l, head, c', l', blank, ok, w.cells, w.left);
    if !ok {
      RanFailed(c, l, head + blank, rows, w.cells, w.left, w.cells, w.left);
      return;
    }
    c', l' := w.cells, w.left;
    ok := EncodeRows(f, v, defs, abbreviated, indents + 1, w);
    RanThen(c, l, head + blank, c', l', rows, ok, w.cells, w.left);
  }

  /** The loop over the rows. */
  method EncodeRows(f: Formats, v: Var, defs: seq<Def>, abbreviated: bool, indents: nat, w: Writer) returns (ok: bool)
    requires w.Valid() && ValidFormats(f) && RowsConform(v, defs)
    modifies w, w.buffer
    ensures w.Valid() && w.Outside()
    ensures Ran(old(w.cells), old(w.left), RowsScript(f, v, defs, abbreviated, indents, RowCount(v)), ok, w.cells, w.left)
    decreases defs, 2, 0
  {
    hide Ran, ValidFormats, BodyScript, Conforms;
    ghost var c, l := w.cells, w.left;
    RanNothing(c, l);
    for i := 0 to RowCount(v)
      invariant w.Valid() && w.Outside()
      invariant Ran(c, l, RowsScript(f, v, defs, abbreviated, indents, i), true, w.cells, w.left)
    {
      ghost var rows := RowsScript(f, v, defs, abbreviated, indents, i);
      ghost var body := BodyScript(f, RowBody(v, i), defs, abbreviated, indents);
      ghost var line := if abbreviated then Text([13, 10]) else [];
      ghost var c', l' := w.cells, w.left;
      ok := WriteIf(abbreviated, [[13, 10]], w);
      assert Texts([[13, 10]]) == Text([13, 10]);
      RanThen(c, l, rows, c', l', line, ok, w.cells, w.left);
      if ok {
        c', l' := w.cells, w.left;
        ok := EncodeAsciiBody(f, RowBody(v, i), defs, abbreviated, indents, w);
        RanThen(c, l, rows + line, c', l', body, ok, w.cells, w.left);
      } else {
        RanFailed(c, l, rows + line, body, w.cells, w.left, w.cells, w.left);
      }
      if !ok {
        ghost var rest := RowsScriptRest(f, v, defs, abbreviated, indents, i + 1);
        RanFailed(c, l, RowsScript(f, v, defs, abbreviated, indents, i + 1), rest, w.cells, w.left, w.cells, w.left);
        return;
      }
    }
    return true;
  }

  lemma {:induction false} RowsScriptRest(f: Formats, v: Var, defs: seq<Def>, abbreviated: bool, indents: nat, i: nat)
    returns (rest: Script)
    requires RowsConform(v, defs) && i <= RowCount(v)
    ensures RowsScript(f, v, defs, abbreviated, indents, RowCount(v)) == RowsScript(f, v, defs, abbreviated, indents, i) + rest
    decreases RowCount(v) - i
  {
    hide BodyScript, Conforms;
    if i == RowCount(v) {
      rest := [];
    } else {
      rest := RowsScriptRest(f, v, defs, abbreviated, indents, i + 1);
      rest := ((if abbreviated then Text([13, 10]) else []) + BodyScript(f, RowBody(v, i), defs, abbreviated, indents)) + rest;
    }
  }

  /** EncodeAsciiField */
  method EncodeAsciiField(f: Formats, b: Body, d: Def, abbreviated: bool, w: Writer) returns (ok: bool)
    requires w.Valid() && ValidFormats(f) && FieldConforms(b, d)
    requires IsArray(d) || d.fieldType == SIMPLE || d.fieldType == ENUM
    modifies w, w.buffer
    ensures w.Valid() && w.Outside()
    ensures Ran(old(w.cells), old(w.left), ValueScript(f, b, d, abbreviated), ok, w.cells, w.left)
  {
    hide Ran, FieldConforms, ElementsScript;
    ghost var c, l := w.cells, w.left;
    if d.fieldType == ENUM {
      ok := w.CopyAllToBuffer([f.enumerator(d, Scalar(b, d)), [Separator(abbreviated)]]);
    } else if d.fieldType == SIMPLE {
      RanNothing(c, l);
      ok := WriteElement(f.ascii(d, Scalar(b, d)), true, Separator(abbreviated), w, c, l, []);
      assert [] + [f.ascii(d, Scalar(b, d))] == [f.ascii(d, Scalar(b, d))];
    } else {
      ok := EncodeAsciiArray(f, b, d, abbreviated, w);
    }
  }

  /** WriteAsciiElement, and a separator behind it or not, in a run that began with c and l. */
  method WriteElement(value: Atom, separated: bool, separator: byte, w: Writer,
                      ghost c: seq<Cell>, ghost l: nat, ghost before: Script)
    returns (ok: bool)
    requires w.Valid() && (value.Put? || value.Refuse?)
    requires Ran(c, l, before, true, w.cells, w.left)
    modifies w, w.buffer
    ensures w.Valid() && w.Outside()
    ensures Ran(c, l, before + [value] + (if separated then Text([separator]) else []), ok, w.cells, w.left)
  {
    hide Ran;
    ghost var c', l' := w.cells, w.left;
    ok := w.WriteFormatted(value);
    RanThen(c, l, before, c', l', [value], ok, w.cells, w.left);
    if !separated {
      assert before + [value] + [] == before + [value];
    } else if ok {
      c', l' := w.cells, w.left;
      ok := w.CopyToBuffer([separator]);
      RanThen(c, l, before + [value], c', l', Text([separator]), ok, w.cells, w.left);
    } else {
      RanFailed(c, l, before + [value], Text([separator]), w.cells, w.left, w.cells, w.left);
    }
  }

  /** The array branch of EncodeAsciiField. */
  method EncodeAsciiArray(f: Formats, b: Body, d: Def, abbreviated: bool, w: Writer) returns (ok: bool)
    requires w.Valid() && ValidFormats(f) && FieldConforms(b, d) && IsArray(d)
    modifies w, w.buffer
    ensures w.Valid() && w.Outside()
    ensures Ran(old(w.cells), old(w.left), ValueScript(f, b, d, abbreviated), ok, w.cells, w.left)
  {
    hide Ran, FieldConforms, ElementsScript, ArrayHead, ArrayTail, Shown;
    ghost var c, l := w.cells, w.left;
    ghost var head, tail := ArrayHead(f, d, abbreviated, ElementCount(b, d)), ArrayTail(d, abbreviated);
    ghost var elements := ElementsScript(f, b, d, abbreviated, Shown(b, d, 0));
    ok := WriteHead(f, d, abbreviated, ElementCount(b, d), w);
    if !ok {
      RanFailed(c, l, head, elements, w.cells, w.left, w.cells, w.left);
      RanFailed(c, l, head + elements, tail, w.cells, w.left, w.cells, w.left);
      return;
    }
    ghost var c', l' := w.cells, w.left;
    ok := EncodeElements(f, b, d, abbreviated, w);
    RanThen(c, l, head, c', l', elements, ok, w.cells, w.left);
    if !ok {
      RanFailed(c, l, head + elements, tail, w.cells, w.left, w.cells, w.left);
      return;
    }
    c', l' := w.cells, w.left;
    ok := WriteTail(d, abbreviated, w);
    RanThen(c, l, head + elements, c', l', tail, ok, w.cells, w.left);
  }

  method WriteHead(f: Formats, d: Def, abbreviated: bool, count: nat, w: Writer) returns (ok: bool)
    requires w.Valid()
    modifies w, w.buffer
    ensures w.Valid() && w.Outside()
    ensures Ran(old(w.cells), old(w.left), ArrayHead(f, d, abbreviated, count), ok, w.cells, w.left)
  {
    hide Ran;
    ghost var c, l := w.cells, w.left;
    ghost var length := if d.fieldType == VARIABLE_LENGTH_ARRAY then Texts([f.decimal(count), [Separator(abbreviated)]]) else [];
    ghost var quote := if d.isString then Text([QUOTE]) else [];
    assert Texts([[QUOTE]]) == Text([QUOTE]);
    ok := WriteIf(d.fieldType == VARIABLE_LENGTH_ARRAY, [f.decimal(count), [Separator(abbreviated)]], w);
    if !ok {
      RanFailed(c, l, length, quote, w.cells, w.left, w.cells, w.left);
      return;
    }
    ghost var c', l' := w.cells, w.left;
    ok := WriteIf(d.isString, [[QUOTE]], w);
    RanThen(c, l, length, c', l', quote, ok, w.cells, w.left);
  }

  method WriteTail(d: Def, abbreviated: bool, w: Writer) returns (ok: bool)
    requires w.Valid()
    modifies w, w.buffer
    ensures w.Valid() && w.Outside()
    ensures Ran(old(w.cells), old(w.left), ArrayTail(d, abbreviated), ok, w.cells, w.left)
  {
    hide Ran;
    ghost var c, l := w.cells, w.left;
    ghost var quote := if d.isString then Text([QUOTE]) else [];
    ghost var end := if d.isCsv then [] else Text([Separator(abbreviated)]);
    assert Texts([[QUOTE]]) == Text([QUOTE]) && Texts([[Separator(abbreviated)]]) == Text([Separator(abbreviated)]);
    ok := WriteIf(d.isString, [[QUOTE]], w);
    if !ok {
      RanFailed(c, l, quote, end, w.cells, w.left, w.cells, w.left);
      return;
    }
    ghost var c', l' := w.cells, w.left;
    ok := WriteIf(!d.isCsv, [[Separator(abbreviated)]], w);
    RanThen(c, l, quote, c', l', end, ok, w.cells, w.left);
  }

  /** The element loop of EncodeAsciiField. */
  method EncodeElements(f: Formats, b: Body, d: Def, abbreviated: bool, w: Writer) returns (ok: bool)
    requires w.Valid() && ValidFormats(f) && FieldConforms(b, d) && IsArray(d)
    modifies w, w.buffer
    ensures w.Valid() && w.Outside()
    ensures Ran(old(w.cells), old(w.left), ElementsScript(f, b, d, abbreviated, Shown(b, d, 0)), ok, w.cells, w.left)
  {
    hide Ran, FieldConforms, Terminates;
    ghost var c, l := w.cells, w.left;
    ghost var n := Shown(b, d, 0);
    RanNothing(c, l);
    ok := true;
    var i := 0;
    while i < ElementCount(b, d)
      invariant w.Valid() && w.Outside() && ok
      invariant 0 <= i <= n && Shown(b, d, i) == n
      invariant Ran(c, l, ElementsScript(f, b, d, abbreviated, i), true, w.cells, w.left)
    {
      if Terminates(b, d, i) {
        break;
      }
      ghost var before := ElementsScript(f, b, d, abbreviated, i);
      ok := WriteElement(f.ascii(d, Element(b, d, i)), d.isCsv, Separator(abbreviated), w, c, l, before);
      if !ok {
        ghost var rest := ElementsRest(f, b, d, abbreviated, i + 1, n);
        RanFailed(c, l, ElementsScript(f, b, d, abbreviated, i + 1), rest, w.cells, w.left, w.cells, w.left);
        return;
      }
      i := i + 1;
    }
  }

  lemma {:induction false} ElementsRest(f: Formats, b: Body, d: Def, abbreviated: bool, i: nat, n: nat) returns (rest: Script)
    requires FieldConforms(b, d) && IsArray(d) && i <= n <= ElementCount(b, d)
    ensures ElementsScript(f, b, d, abbreviated, n) == ElementsScript(f, b, d, abbreviated, i) + rest
    decreases n - i
  {
    hide FieldConforms;
    if i == n {
      rest := [];
    } else {
      rest := ElementsRest(f, b, d, abbreviated, i + 1, n);
      rest := ([f.ascii(d, Element(b, d, i))] + (if d.isCsv then Text([Separator(abbreviated)]) else [])) + rest;
    }
  }
}
