/** The JSON encoder writes the same for either form of a FIELD_ARRAY. */
module RepresentationJson {
  import opened Fields
  import opened JsonScript
  import opened Representation

  lemma {:induction false} SameElements(f: Formats, a: Body, b: Body, d: Def, n: nat)
    requires SameBody(a, b) && FieldConforms(a, d) && FieldConforms(b, d) && IsArray(d) && n <= ElementCount(a, d)
    ensures n <= ElementCount(b, d) && ElementsScript(f, a, d, n) == ElementsScript(f, b, d, n)
  {
    hide FieldConforms, Element, SameBody;
    SameArrays(a, b, d);
    if n > 0 {
      SameElements(f, a, b, d, n - 1);
    }
  }

  lemma SameValue(f: Formats, a: Body, b: Body, d: Def)
    requires SameBody(a, b) && FieldConforms(a, d) && FieldConforms(b, d)
    requires IsArray(d) || d.fieldType == SIMPLE || d.fieldType == ENUM
    ensures ValueScript(f, a, d) == ValueScript(f, b, d)
  {
    hide ElementsScript, Shown, FieldConforms;
    if IsArray(d) {
      SameArrays(a, b, d);
      SameShown(a, b, d, 0);
      SameElements(f, a, b, d, Shown(a, d, 0));
    }
  }

  lemma {:induction false} SameField(f: Formats, a: Body, b: Body, d: Def)
    requires SameBody(a, b) && FieldConforms(a, d) && FieldConforms(b, d) && JsonDef(d)
    ensures FieldScript(f, a, d) == FieldScript(f, b, d)
    decreases d, 0
  {
    hide ValueScript, Conforms;
    if d.fieldType == FIELD_ARRAY {
      if d.info.Some? && d.index < |a.vars| {
        SameRows(f, a.vars[d.index], b.vars[d.index], d.info.value.fields, 0);
        SameRows(f, a.vars[d.index], b.vars[d.index], d.info.value.fields, RowCount(a.vars[d.index]));
      }
    } else if !(d.fieldType == STRING || d.fieldType == RESPONSE_STR) {
      SameValue(f, a, b, d);
    }
  }

  lemma {:induction false} SameRows(f: Formats, v: Var, w: Var, defs: seq<Def>, n: nat)
    requires SameVar(v, w) && RowsConform(v, defs) && RowsConform(w, defs) && JsonDefs(defs) && n <= RowCount(v)
    ensures RowCount(v) == RowCount(w)
    ensures RowsScript(f, v, defs, n) == RowsScript(f, w, defs, n)
    decreases defs, 2, n
  {
    hide Conforms, JsonDefs, BodyScript, SameVar, SameBody;
    RowsAgree(v, w, 0);
    if n > 0 {
      RowsAgree(v, w, n - 1);
      SameRows(f, v, w, defs, n - 1);
      JsonIgnoresRepresentation(f, RowBody(v, n - 1), RowBody(w, n - 1), defs);
    }
  }

  lemma {:induction false} SameFields(f: Formats, a: Body, b: Body, defs: seq<Def>)
    requires SameBody(a, b) && Encodable(a, defs) && Encodable(b, defs)
    ensures FieldsScript(f, a, defs) == FieldsScript(f, b, defs)
    decreases defs, 0, 0
  {
    hide FieldConforms, JsonDef, FieldScript, SameBody;
    if defs != [] {
      SameFields(f, a, b, defs[..|defs| - 1]);
      SameField(f, a, b, defs[|defs| - 1]);
    }
  }

  /** EncodeJsonBody takes the same steps: so it succeeds in the same space, with the same bytes. */
  lemma {:induction false} JsonIgnoresRepresentation(f: Formats, a: Body, b: Body, defs: seq<Def>)
    requires SameBody(a, b) && Encodable(a, defs) && Encodable(b, defs)
    ensures BodyScript(f, a, defs) == BodyScript(f, b, defs)
    decreases defs, 1, 0
  {
    hide FieldsScript;
    SameFields(f, a, b, defs);
  }
}
