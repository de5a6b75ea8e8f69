/** The ASCII encoder writes the same for either form of a FIELD_ARRAY. */
module RepresentationAscii {
  import opened Fields
  import opened AsciiScript
  import opened Representation

  lemma {:induction false} SameElements(f: Formats, a: Body, b: Body, d: Def, abbreviated: bool, n: nat)
    requires SameBody(a, b) && FieldConforms(a, d) && FieldConforms(b, d) && IsArray(d) && n <= ElementCount(a, d)
    ensures n <= ElementCount(b, d) && ElementsScript(f, a, d, abbreviated, n) == ElementsScript(f, b, d, abbreviated, n)
  {
    hide FieldConforms, Element, SameBody;
    SameArrays(a, b, d);
    if n > 0 {
      SameElements(f, a, b, d, abbreviated, n - 1);
    }
  }

  lemma SameValue(f: Formats, a: Body, b: Body, d: Def, abbreviated: bool)
    requires SameBody(a, b) && FieldConforms(a, d) && FieldConforms(b, d)
    requires IsArray(d) || d.fieldType == SIMPLE || d.fieldType == ENUM
    ensures ValueScript(f, a, d, abbreviated) == ValueScript(f, b, d, abbreviated)
  {
    hide ElementsScript, Shown, FieldConforms;
    if IsArray(d) {
      SameArrays(a, b, d);
      SameShown(a, b, d, 0);
      SameElements(f, a, b, d, abbreviated, Shown(a, d, 0));
    }
  }

  lemma {:induction false} SameField(f: Formats, a: Body, b: Body, d: Def, abbreviated: bool, indents: nat)
    requires SameBody(a, b) && FieldConforms(a, d) && FieldConforms(b, d)
    ensures FieldScript(f, a, d, abbreviated, indents) == FieldScript(f, b, d, abbreviated, indents)
    decreases d, 0
  {
    hide ValueScript, Conforms;
    if d.fieldType == FIELD_ARRAY {
      if d.info.Some? && d.index < |a.vars| {
        SameRows(f, a.vars[d.index], b.vars[d.index], d.info.value.fields, abbreviated, indents + 1, 0);
        SameRows(f, a.vars[d.index], b.vars[d.index], d.info.value.fields, abbreviated, indents + 1, RowCount(a.vars[d.index]));
      }
    } else if IsArray(d) || d.fieldType == SIMPLE || d.fieldType == ENUM {
      SameValue(f, a, b, d, abbreviated);
    }
  }

  lemma {:induction false} SameRows(f: Formats, v: Var, w: Var, defs: seq<Def>, abbreviated: bool, indents: nat, n: nat)
    requires SameVar(v, w) && RowsConform(v, defs) && RowsConform(w, defs) && n <= RowCount(v)
    ensures RowCount(v) == RowCount(w)
    ensures RowsScript(f, v, defs, abbreviated, indents, n) == RowsScript(f, w, defs, abbreviated, indents, n)
    decreases defs, 2, n
  {
    hide Conforms, BodyScript, SameVar, SameBody;
    RowsAgree(v, w, 0);
    if n > 0 {
      RowsAgree(v, w, n - 1);
      SameRows(f, v, w, defs, abbreviated, indents, n - 1);
      AsciiIgnoresRepresentation(f, RowBody(v, n - 1), RowBody(w, n - 1), defs, abbreviated, indents);
    }
  }

  lemma {:induction false} SameFields(f: Formats, a: Body, b: Body, defs: seq<Def>, abbreviated: bool, indents: nat)
    requires SameBody(a, b) && Conforms(a, defs) && Conforms(b, defs)
    ensures FieldsScript(f, a, defs, abbreviated, indents) == FieldsScript(f, b, defs, abbreviated, indents)
    decreases defs, 0, 0
  {
    hide FieldConforms, FieldScript, SameBody;
    if defs != [] {
      SameFields(f, a, b, defs[..|defs| - 1], abbreviated, indents);
      SameField(f, a, b, defs[|defs| - 1], abbreviated, indents);
    }
  }

  /** EncodeAsciiBody takes the same steps: so it succeeds in the same space, with the same bytes. */
  lemma {:induction false} AsciiIgnoresRepresentation(f: Formats, a: Body, b: Body, defs: seq<Def>, abbreviated: bool, indents: nat)
    requires SameBody(a, b) && Conforms(a, defs) && Conforms(b, defs)
    ensures BodyScript(f, a, defs, abbreviated, indents) == BodyScript(f, b, defs, abbreviated, indents)
    decreases defs, 1, 0
  {
    hide FieldsScript;
    SameFields(f, a, b, defs, abbreviated, indents);
  }
}
