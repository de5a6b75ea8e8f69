/** A FIELD_ARRAY held flat or as composite rows: the two are indistinguishable. */
module Representation {
  import opened BitLists
  import opened Fields
  import Multiples

  /** The flat array holds exactly these rows, back to back. */
  ghost predicate FlatAsRows(flat: Var, rows: Var) {
    && flat.Flat? && rows.Rows? && flat.rowBytes > 0
    && |flat.bytes| == |rows.rows| * flat.rowBytes && |rows.rows| == |flat.bytes| / flat.rowBytes
    && forall i | 0 <= i < |rows.rows| :: rows.rows[i] == FlatRow(flat.bytes, flat.rowBytes, i)
  }

  /** The payloads are equal but for how field arrays are held, at any depth. */
  ghost predicate SameVar(v: Var, w: Var)
    decreases v, 0
  {
    || v == w
    || FlatAsRows(v, w)
    || FlatAsRows(w, v)
    || (v.Rows? && w.Rows? && |v.rows| == |w.rows| && forall i | 0 <= i < |v.rows| :: SameBody(v.rows[i], w.rows[i]))
  }

  ghost predicate SameBody(a: Body, b: Body)
    decreases a, 1
  {
    a.fixed == b.fixed && |a.vars| == |b.vars| && forall i | 0 <= i < |a.vars| :: SameVar(a.vars[i], b.vars[i])
  }

  /** Every set of fixed rows of one size has a flat form. */
  ghost function FlatForm(rows: seq<Body>, size: nat): Var
    requires forall i | 0 <= i < |rows| :: |rows[i].fixed| == size && rows[i].vars == []
  {
    Flat(FixedOf(rows), size)
  }

  ghost function FixedOf(rows: seq<Body>): seq<byte> {
    if rows == [] then [] else FixedOf(rows[..|rows| - 1]) + rows[|rows| - 1].fixed
  }

  ghost predicate RowsOfSize(rows: seq<Body>, size: nat) {
    forall i | 0 <= i < |rows| :: |rows[i].fixed| == size
  }

  lemma {:induction false} FixedOfSize(rows: seq<Body>, size: nat)
    requires RowsOfSize(rows, size)
    ensures |FixedOf(rows)| == |rows| * size
  {
    if rows != [] {
      FixedOfSize(rows[..|rows| - 1], size);
      assert |rows| * size == (|rows| - 1) * size + size;
    }
  }

  lemma {:induction false} FixedOfRow(rows: seq<Body>, size: nat, i: nat)
    requires RowsOfSize(rows, size) && i < |rows|
    ensures 0 <= i * size && i * size + size <= |FixedOf(rows)|
    ensures FixedOf(rows)[i * size..i * size + size] == rows[i].fixed
  {
    var n := |rows| - 1;
    FixedOfSize(rows[..n], size);
    if i < n {
      FixedOfRow(rows[..n], size, i);
      var x := i * size;
      assert FixedOf(rows)[x..x + size] == FixedOf(rows[..n])[x..x + size];
    }
  }

  lemma FlatFormHoldsRows(rows: seq<Body>, size: nat)
    requires size > 0 && forall i | 0 <= i < |rows| :: |rows[i].fixed| == size && rows[i].vars == []
    ensures FlatAsRows(FlatForm(rows, size), Rows(rows))
  {
    FixedOfSize(rows, size);
    Multiples.Quotient(|rows|, size);
    forall i | 0 <= i < |rows|
      ensures rows[i] == FlatRow(FixedOf(rows), size, i)
    {
      FixedOfRow(rows, size, i);
    }
  }

  /** Rows are seen alike through either form. */
  lemma RowsAgree(v: Var, w: Var, i: nat)
    requires SameVar(v, w) && (v.Rows? || (v.Flat? && v.rowBytes > 0)) && (w.Rows? || (w.Flat? && w.rowBytes > 0))
    ensures RowCount(v) == RowCount(w)
    ensures i < RowCount(v) ==> SameBody(RowBody(v, i), RowBody(w, i))
  {
    if i < RowCount(v) {
      SameRefl(RowBody(v, i));
    }
  }

  lemma {:induction false} SameRefl(b: Body)
    ensures SameBody(b, b)
  {
  }

  lemma SameArrays(a: Body, b: Body, d: Def)
    requires SameBody(a, b) && FieldConforms(a, d) && FieldConforms(b, d) && IsArray(d)
    ensures ElementCount(a, d) == ElementCount(b, d)
    ensures forall i | 0 <= i < ElementCount(a, d) :: Element(a, d, i) == Element(b, d, i)
  {
  }

  lemma {:induction false} SameShown(a: Body, b: Body, d: Def, i: nat)
    requires FieldConforms(a, d) && FieldConforms(b, d) && IsArray(d) && ElementCount(a, d) == ElementCount(b, d)
    requires forall i | 0 <= i < ElementCount(a, d) :: Element(a, d, i) == Element(b, d, i)
    requires i <= ElementCount(a, d)
    ensures Shown(a, d, i) == Shown(b, d, i)
    decreases ElementCount(a, d) - i
  {
    hide FieldConforms, Element;
    if i < ElementCount(a, d) && !Terminates(a, d, i) {
      SameShown(a, b, d, i + 1);
    }
  }
}
