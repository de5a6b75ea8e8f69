/** GetFieldByteSize, and that it is what WriteFieldToBuffer writes. */
module FieldSizes {
  import opened BitLists
  import opened Fields
  import opened Definitions
  import Joining
  import opened Layouts
  import BinaryScript
  import opened Representation

  /** The conditions under which GetFieldByteSize does not throw.  A flat array belongs to the
      definition of its field, which has no variable fields. */
  ghost predicate Sizable(b: Body, d: Def)
    decreases d, 1
  {
    IsFixed(d) || (d.index < |b.vars| && VarSizable(b.vars[d.index], d))
  }

  ghost predicate VarSizable(v: Var, d: Def)
    decreases d, 0
  {
    match v
    case Str(_) => true
    case Vec(n, elements) => forall i | 0 <= i < |elements| :: |elements[i]| == n
    case Flat(_, rowBytes) => d.info.Some? && d.info.value.varFieldCount == 0 && rowBytes == d.info.value.fixedFieldBytes
    case Rows(rows) => d.info.Some? && (d.info.value.varFieldCount == 0 || RowsSizable(rows, d.info.value.fields))
  }

  ghost predicate RowsSizable(rows: seq<Body>, defs: seq<Def>)
    decreases defs, 1
  {
    forall i | 0 <= i < |rows| :: BodySizable(rows[i], defs)
  }

  ghost predicate BodySizable(b: Body, defs: seq<Def>)
    decreases defs, 0
  {
    forall i | 0 <= i < |defs| :: Sizable(b, defs[i])
  }

  ghost function ByteSize(b: Body, d: Def): nat
    requires Sizable(b, d)
    decreases d, 1
  {
    if IsFixed(d) then FixedSize(d) else VarSize(b.vars[d.index], d)
  }

  ghost function VarSize(v: Var, d: Def): nat
    requires VarSizable(v, d)
    decreases d, 0
  {
    match v
    case Str(text) => |text|
    case Vec(n, elements) => |elements| * n
    case Flat(bytes, _) => |bytes|
    case Rows(rows) =>
      if d.info.value.varFieldCount == 0 then d.info.value.fixedFieldBytes * |rows|
      else RowsSize(rows, d.info.value.fields, |rows|)
  }

  ghost function RowsSize(rows: seq<Body>, defs: seq<Def>, n: nat): nat
    requires RowsSizable(rows, defs) && n <= |rows|
    decreases defs, 2, n
  {
    if n == 0 then 0 else RowsSize(rows, defs, n - 1) + BodySize(rows[n - 1], defs, |defs|)
  }

  ghost function BodySize(b: Body, defs: seq<Def>, n: nat): nat
    requires BodySizable(b, defs) && n <= |defs|
    decreases defs, 1, n
  {
    if n == 0 then 0 else BodySize(b, defs, n - 1) + ByteSize(b, defs[n - 1])
  }

  /** GetFieldByteSize, with its loops over rows and fields. */
  method GetFieldByteSize(b: Body, d: Def) returns (size: nat)
    requires Sizable(b, d)
    ensures size == ByteSize(b, d)
    decreases d
  {
    if IsFixed(d) {
      return FixedSize(d);
    }
    match b.vars[d.index] {
      case Str(text) => return |text|;
      case Vec(n, elements) => return |elements| * n;
      case Flat(bytes, _) => return |bytes|;
      case Rows(rows) => {
        var defs := d.info.value.fields;
        if d.info.value.varFieldCount == 0 {
          return d.info.value.fixedFieldBytes * |rows|;
        }
        assert RowsSizable(rows, defs);
        size := 0;
        for i := 0 to |rows|
          invariant size == RowsSize(rows, defs, i)
        {
          assert BodySizable(rows[i], defs);
          for j := 0 to |defs|
            invariant size == RowsSize(rows, defs, i) + BodySize(rows[i], defs, j)
          {
            var n := GetFieldByteSize(rows[i], defs[j]);
            size := size + n;
          }
        }
      }
    }
  }

  // ---------------------------------------------------------------- what the size of an array is

  lemma {:induction false} RowsSizeAdds(a: seq<Body>, b: seq<Body>, defs: seq<Def>, n: nat)
    requires RowsSizable(a, defs) && RowsSizable(b, defs) && n <= |b|
    ensures RowsSizable(a + b, defs)
    ensures RowsSize(a + b, defs, |a| + n) == RowsSize(a, defs, |a|) + RowsSize(b, defs, n)
    decreases n
  {
    hide BodySizable, BodySize;
    if n == 0 {
      FirstRowsSize(a, b, defs, |a|);
    } else {
      RowsSizeAdds(a, b, defs, n - 1);
    }
  }

  lemma {:induction false} FirstRowsSize(a: seq<Body>, b: seq<Body>, defs: seq<Def>, n: nat)
    requires RowsSizable(a, defs) && RowsSizable(a + b, defs) && n <= |a|
    ensures RowsSize(a + b, defs, n) == RowsSize(a, defs, n)
    decreases n
  {
    hide BodySizable, BodySize;
    if n > 0 {
      FirstRowsSize(a, b, defs, n - 1);
    }
  }

  /** Rows one behind the other take the sum of their sizes. */
  lemma ArraySizeAdds(a: seq<Body>, b: seq<Body>, d: Def)
    requires VarSizable(Rows(a), d) && VarSizable(Rows(b), d)
    ensures VarSizable(Rows(a + b), d) && VarSize(Rows(a + b), d) == VarSize(Rows(a), d) + VarSize(Rows(b), d)
    ensures VarSizable(Rows([]), d) && VarSize(Rows([]), d) == 0
  {
    hide BodySizable, BodySize;
    if d.info.value.varFieldCount != 0 {
      RowsSizeAdds(a, b, d.info.value.fields, |b|);
    } else {
      var n := d.info.value.fixedFieldBytes;
      assert n * (|a| + |b|) == n * |a| + n * |b|;
    }
  }

  /** One row takes the size of its fields, or of the fixed region if there are no others. */
  lemma OneRowSize(row: Body, d: Def)
    requires VarSizable(Rows([row]), d)
    ensures var info := d.info.value;
            if info.varFieldCount == 0 then VarSize(Rows([row]), d) == info.fixedFieldBytes
            else BodySizable(row, info.fields) && VarSize(Rows([row]), d) == BodySize(row, info.fields, |info.fields|)
  {
    hide BodySizable, BodySize;
    assert [row][0] == row;
    if d.info.value.varFieldCount != 0 {
      assert RowsSize([row], d.info.value.fields, 0) == 0;
    }
  }

  /** Fields one behind the other take the sum of their sizes, and one takes its own. */
  lemma {:induction false} BodySizeAdds(b: Body, before: seq<Def>, d: Def, n: nat)
    requires BodySizable(b, before) && Sizable(b, d) && n <= |before|
    ensures BodySizable(b, before + [d]) && BodySize(b, before + [d], n) == BodySize(b, before, n)
    ensures BodySize(b, before + [d], |before| + 1) == BodySize(b, before + [d], |before|) + ByteSize(b, d)
    ensures BodySize(b, [], 0) == 0
    decreases n
  {
    hide Sizable, ByteSize;
    var all := before + [d];
    assert all[|before|] == d && forall i | 0 <= i < |before| :: all[i] == before[i];
    if n > 0 {
      BodySizeAdds(b, before, d, n - 1);
    }
  }

  /** A row field of bytes in a vector, and an array of rows with that field. */
  function BytesField(): Def {
    Def([], VARIABLE_LENGTH_ARRAY, 1, 1, false, false, false, 0, 8, [], 4, 0, None)
  }

  function RowsOfBytes(): Def {
    Def([], FIELD_ARRAY, 4, 4, false, false, false, 0, 2, [], 4, 16, Some(Layout(0, 1, [BytesField()])))
  }

  /** Two rows with three and two of these bytes take five. */
  lemma TwoRowsTakeFive(a: byte, b: byte, c: byte, x: byte, y: byte)
    ensures var rows := [Body([], [Vec(1, [[a], [b], [c]])]), Body([], [Vec(1, [[x], [y]])])];
            VarSizable(Rows(rows), RowsOfBytes()) && VarSize(Rows(rows), RowsOfBytes()) == 5
  {
    var first, second := Body([], [Vec(1, [[a], [b], [c]])]), Body([], [Vec(1, [[x], [y]])]);
    assert Sizable(first, BytesField()) && Sizable(second, BytesField());
    assert BodySizable(first, [BytesField()]) && BodySizable(second, [BytesField()]);
    ArraySizeAdds([first], [second], RowsOfBytes());
    OneRowSize(first, RowsOfBytes());
    OneRowSize(second, RowsOfBytes());
    BodySizeAdds(first, [], BytesField(), 0);
    BodySizeAdds(second, [], BytesField(), 0);
    assert [] + [BytesField()] == [BytesField()] && [first] + [second] == [first, second];
  }

  /** A field takes exactly GetFieldByteSize bytes. */
  lemma WritesByteSize(b: Body, d: Def)
    requires BinaryScript.Writable(b, d) && Sizable(b, d)
    ensures |BinaryScript.FieldBytes(b, d)| == ByteSize(b, d)
  {
    if !IsFixed(d) && b.vars[d.index].Vec? {
      Joining.ConcatSize(b.vars[d.index].elements, b.vars[d.index].elementSize);
    }
  }

  /** Both forms of a FIELD_ARRAY have the same size, at any depth. */
  lemma {:induction false} SizeIgnoresRepresentation(a: Body, b: Body, d: Def)
    requires SameBody(a, b) && Sizable(a, d) && Sizable(b, d)
    ensures ByteSize(a, d) == ByteSize(b, d)
    decreases d, 1
  {
    hide VarSize, VarSizable;
    if !IsFixed(d) {
      VarSizeIgnoresRepresentation(a.vars[d.index], b.vars[d.index], d);
    }
  }

  lemma {:induction false} VarSizeIgnoresRepresentation(v: Var, w: Var, d: Def)
    requires SameVar(v, w) && VarSizable(v, d) && VarSizable(w, d)
    ensures VarSize(v, d) == VarSize(w, d)
    decreases d, 0
  {
    hide SameBody, RowsSizable;
    if v.Rows? && w.Rows? && v != w && d.info.value.varFieldCount != 0 {
      RowsSizeIgnoresRepresentation(v.rows, w.rows, d.info.value.fields, |v.rows|);
    }
  }

  lemma {:induction false} RowsSizeIgnoresRepresentation(v: seq<Body>, w: seq<Body>, defs: seq<Def>, n: nat)
    requires |v| == |w| && RowsSizable(v, defs) && RowsSizable(w, defs) && n <= |v|
    requires forall i | 0 <= i < |v| :: SameBody(v[i], w[i])
    ensures RowsSize(v, defs, n) == RowsSize(w, defs, n)
    decreases defs, 2, n
  {
    hide SameBody, BodySizable, BodySize;
    if n > 0 {
      RowsSizeIgnoresRepresentation(v, w, defs, n - 1);
      BodySizeIgnoresRepresentation(v[n - 1], w[n - 1], defs, |defs|);
    }
  }

  lemma {:induction false} BodySizeIgnoresRepresentation(a: Body, b: Body, defs: seq<Def>, n: nat)
    requires SameBody(a, b) && BodySizable(a, defs) && BodySizable(b, defs) && n <= |defs|
    ensures BodySize(a, defs, n) == BodySize(b, defs, n)
    decreases defs, 1, n
  {
    hide SameBody, Sizable, ByteSize;
    if n > 0 {
      BodySizeIgnoresRepresentation(a, b, defs, n - 1);
      SizeIgnoresRepresentation(a, b, defs[n - 1]);
    }
  }
}
