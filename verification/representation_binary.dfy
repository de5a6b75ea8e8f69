/** The binary encoder writes the same for either form of a FIELD_ARRAY. */
module RepresentationBinary {
  import opened BitLists
  import opened Writing
  import opened Fields
  import Alignment
  import opened BinaryScript
  import BinaryEncoder
  import Multiples
  import opened Representation

  /** The scripts succeed in the same room and write the same. */
  ghost predicate Alike(s: Script, t: Script) {
    && Size(s) == Size(t)
    && (forall left: nat :: Fits(s, left) <==> Fits(t, left))
    && (forall c: seq<Cell> :: Apply(c, s) == Apply(c, t))
  }

  lemma AlikeThen(s: Script, t: Script, x: Script, y: Script)
    requires Alike(s, t) && Alike(x, y)
    ensures Alike(s + x, t + y)
  {
    SizeConcat(s, x);
    SizeConcat(t, y);
    forall left: nat
      ensures Fits(s + x, left) <==> Fits(t + y, left)
    {
      FitsConcat(s, x, left);
      FitsConcat(t, y, left);
    }
    forall c: seq<Cell>
      ensures Apply(c, s + x) == Apply(c, t + y)
    {
      ApplyConcat(c, s, x);
      ApplyConcat(c, t, y);
    }
  }

  lemma AlikeJoin(x: seq<byte>, y: seq<byte>)
    ensures Alike(Text(x + y), Text(x) + Text(y))
  {
    SizeConcat(Text(x), Text(y));
    OneSize(Put(x, 0));
    OneSize(Put(y, 0));
    OneSize(Put(x + y, 0));
    forall left: nat
      ensures Fits(Text(x + y), left) <==> Fits(Text(x) + Text(y), left)
    {
      PlainFits(Text(x + y), left);
      PlainFits(Text(x) + Text(y), left);
    }
    forall c: seq<Cell>
      ensures Apply(c, Text(x + y)) == Apply(c, Text(x) + Text(y))
    {
      ApplyConcat(c, Text(x), Text(y));
      OneApply(c, Put(x, 0));
      OneApply(Apply(c, Text(x)), Put(y, 0));
      OneApply(c, Put(x + y, 0));
      assert Cells(x + y) == Cells(x) + Cells(y);
    }
  }

  /** The first n rows of a flat array in one copy, and row by row. */
  lemma {:induction false} FlatRowsAlike(v: Var, w: Var, defs: seq<Def>, flatten: bool, at: nat, n: nat)
    requires FlatAsRows(v, w) && ArrayEncodable(w, defs) && 0 < n <= |w.rows|
    ensures 0 <= n * v.rowBytes <= |v.bytes|
    ensures Alike(Text(v.bytes[..n * v.rowBytes]), RowsScript(w, defs, flatten, at, n))
    decreases n
  {
    var size := v.rowBytes;
    Multiples.Ordered(n, |w.rows|, size);
    assert n * size == (n - 1) * size + size;
    var row := v.bytes[(n - 1) * size..(n - 1) * size + size];
    assert w.rows[n - 1] == FlatRow(v.bytes, size, n - 1);
    var before := v.bytes[..(n - 1) * size];
    assert v.bytes[..n * size] == before + row;
    LastRow(w, defs, flatten, at, n, row);
    if n == 1 {
      assert before + row == row;
    } else {
      FlatRowsAlike(v, w, defs, flatten, at, n - 1);
      AlikeJoin(before, row);
      AlikeThen(Text(before), RowsScript(w, defs, flatten, at, n - 1), Text(row), Text(row));
      AlikeTrans(Text(before + row), Text(before) + Text(row), RowsScript(w, defs, flatten, at, n));
    }
  }

  lemma LastRow(w: Var, defs: seq<Def>, flatten: bool, at: nat, n: nat, row: seq<byte>)
    requires w.Rows? && ArrayEncodable(w, defs) && 0 < n <= |w.rows| && w.rows[n - 1] == Body(row, [])
    ensures RowsScript(w, defs, flatten, at, n) == RowsScript(w, defs, flatten, at, n - 1) + Text(row)
    ensures n == 1 ==> RowsScript(w, defs, flatten, at, n) == Text(row)
  {
  }

  lemma AlikeTrans(s: Script, t: Script, x: Script)
    requires Alike(s, t) && Alike(t, x)
    ensures Alike(s, x)
  {
  }

  lemma AlikeSym(s: Script, t: Script)
    requires Alike(s, t)
    ensures Alike(t, s)
  {
  }

  lemma AlikeRefl(s: Script)
    ensures Alike(s, s)
  {
  }

  ghost predicate ContentReady(v: Var, d: Def) {
    && IsVar(d)
    && (v.Rows? ==> d.info.Some? && ArrayEncodable(v, d.info.value.fields))
    && (v.Flat? ==> v.rowBytes > 0)
  }

  lemma FlatContent(v: Var, w: Var, d: Def, flatten: bool, at: nat)
    requires FlatAsRows(v, w) && ContentReady(v, d) && ContentReady(w, d)
    ensures Count(v) == Count(w) && Alike(Content(v, d, flatten, at), Content(w, d, flatten, at))
  {
    hide Alike, ArrayEncodable;
    if |w.rows| == 0 {
      AlikeRefl([]);
    } else {
      FlatRowsAlike(v, w, d.info.value.fields, flatten, at, |w.rows|);
      assert v.bytes[..|v.bytes|] == v.bytes;
    }
  }

  lemma {:induction false} SameContent(v: Var, w: Var, d: Def, flatten: bool, at: nat)
    requires SameVar(v, w) && ContentReady(v, d) && ContentReady(w, d)
    ensures Count(v) == Count(w) && v.Str? == w.Str?
    ensures Alike(Content(v, d, flatten, at), Content(w, d, flatten, at))
    decreases d, 0
  {
    hide Alike, ArrayEncodable, SameBody;
    if v == w {
      AlikeRefl(Content(v, d, flatten, at));
    } else if v.Flat? {
      FlatContent(v, w, d, flatten, at);
    } else if w.Flat? {
      FlatContent(w, v, d, flatten, at);
      AlikeSym(Content(w, d, flatten, at), Content(v, d, flatten, at));
    } else {
      SameRowScripts(v, w, d.info.value.fields, flatten, at, |v.rows|);
    }
  }

  lemma {:induction false} SameRowScripts(v: Var, w: Var, defs: seq<Def>, flatten: bool, at: nat, n: nat)
    requires v.Rows? && w.Rows? && ArrayEncodable(v, defs) && ArrayEncodable(w, defs) && |v.rows| == |w.rows|
    requires forall i | 0 <= i < |v.rows| :: SameBody(v.rows[i], w.rows[i])
    requires n <= |v.rows|
    ensures Alike(RowsScript(v, defs, flatten, at, n), RowsScript(w, defs, flatten, at, n))
    decreases defs, 2, n
  {
    hide Encodable, BodyScript, SameBody, Alike, Size;
    if n == 0 {
      AlikeRefl([]);
    } else {
      SameRowScripts(v, w, defs, flatten, at, n - 1);
      var s, t := RowsScript(v, defs, flatten, at, n - 1), RowsScript(w, defs, flatten, at, n - 1);
      BinaryIgnoresRepresentation(v.rows[n - 1], w.rows[n - 1], defs, flatten, at + Size(s));
      AlikeSize(s, t);
      AlikeThen(s, t, BodyScript(v.rows[n - 1], defs, flatten, at + Size(s)), BodyScript(w.rows[n - 1], defs, flatten, at + Size(t)));
    }
  }

  lemma {:induction false} SameVarScript(a: Body, b: Body, d: Def, flatten: bool, start: nat, at: nat)
    requires SameBody(a, b) && FieldEncodable(a, d) && FieldEncodable(b, d) && IsVar(d) && start <= at
    ensures Alike(VarScript(a, d, flatten, start, at), VarScript(b, d, flatten, start, at))
    decreases d, 1
  {
    hide Content, Prefix, Tail, SameVar, Alike, FieldEncodable, SameBody, Size, VarScript, Count;
    SameSlots(a, b, d);
    VarParts(a, d, flatten, start, at);
    VarParts(b, d, flatten, start, at);
    var v, w := a.vars[d.index], b.vars[d.index];
    var prefix := if v.Str? then [] else Prefix(d, Count(v), at - start);
    SameContent(v, w, d, flatten, at + Size(prefix));
    var x, y := Content(v, d, flatten, at + Size(prefix)), Content(w, d, flatten, at + Size(prefix));
    SameTail(v, w, d, flatten, Size(x), at + Size(prefix) + Size(x));
    var tail := Tail(v, d, flatten, Size(x), at + Size(prefix) + Size(x));
    AlikeSize(x, y);
    AlikeRefl(prefix);
    AlikeRefl(tail);
    AlikeThen(prefix, prefix, x, y);
    AlikeThen(prefix + x, prefix + y, tail, tail);
  }

  lemma SameSlots(a: Body, b: Body, d: Def)
    requires SameBody(a, b) && FieldEncodable(a, d) && FieldEncodable(b, d) && IsVar(d)
    ensures d.index < |a.vars| && d.index < |b.vars| && SameVar(a.vars[d.index], b.vars[d.index])
    ensures ContentReady(a.vars[d.index], d) && ContentReady(b.vars[d.index], d)
    ensures d.fieldType != STRING && d.arrayLengthRef == [] ==> d.arrayLengthFieldSize > 0
    ensures a.vars[d.index].Str? <==> d.fieldType == STRING
  {
    hide SameVar, ArrayEncodable;
  }

  /** VarScript in its parts. */
  lemma VarParts(b: Body, d: Def, flatten: bool, start: nat, at: nat)
    requires FieldEncodable(b, d) && IsVar(d) && start <= at
    ensures d.index < |b.vars| && ContentReady(b.vars[d.index], d)
    ensures d.fieldType != STRING && d.arrayLengthRef == [] ==> d.arrayLengthFieldSize > 0
    ensures b.vars[d.index].Str? <==> d.fieldType == STRING
    ensures var v := b.vars[d.index];
            var prefix := if v.Str? then [] else Prefix(d, Count(v), at - start);
            var content := Content(v, d, flatten, at + Size(prefix));
            VarScript(b, d, flatten, start, at) ==
            prefix + content + Tail(v, d, flatten, Size(content), at + Size(prefix) + Size(content))
  {
    hide Content, Prefix, Tail, Size, Count, ArrayEncodable;
  }

  lemma AlikeSize(s: Script, t: Script)
    requires Alike(s, t)
    ensures Size(s) == Size(t)
  {
  }

  lemma SameTail(v: Var, w: Var, d: Def, flatten: bool, written: nat, at: nat)
    requires v.Str? == w.Str?
    ensures Tail(v, d, flatten, written, at) == Tail(w, d, flatten, written, at)
  {
  }

  lemma {:induction false} SameFieldScript(a: Body, b: Body, d: Def, flatten: bool, start: nat, at: nat)
    requires SameBody(a, b) && FieldEncodable(a, d) && FieldEncodable(b, d) && start <= at
    ensures Alike(FieldScript(a, d, flatten, start, at), FieldScript(b, d, flatten, start, at))
    decreases d, 2
  {
    hide Alike, VarScript, ArrayEncodable;
    if IsVar(d) {
      var gap, at' := Aligned(d.length, at - start), at + Alignment.OemAlignment(d.length, at - start);
      SameVarScript(a, b, d, flatten, start, at');
      AlikeRefl(gap);
      AlikeThen(gap, gap, VarScript(a, d, flatten, start, at'), VarScript(b, d, flatten, start, at'));
    } else {
      assert FieldBytes(a, d) == FieldBytes(b, d);
      AlikeRefl(FieldScript(a, d, flatten, start, at));
    }
  }

  lemma LastField(b: Body, defs: seq<Def>, flatten: bool, start: nat)
    requires AllEncodable(b, defs) && defs != []
    ensures var n := |defs| - 1;
            && AllEncodable(b, defs[..n]) && FieldEncodable(b, defs[n])
            && var before := FieldsScript(b, defs[..n], flatten, start);
               FieldsScript(b, defs, flatten, start) == before + FieldScript(b, defs[n], flatten, start, start + Size(before))
  {
    hide FieldEncodable, FieldScript, Size;
  }

  lemma {:induction false} SameFieldsScript(a: Body, b: Body, defs: seq<Def>, flatten: bool, start: nat)
    requires SameBody(a, b) && AllEncodable(a, defs) && AllEncodable(b, defs)
    ensures Alike(FieldsScript(a, defs, flatten, start), FieldsScript(b, defs, flatten, start))
    decreases defs, 0, 0
  {
    hide FieldEncodable, FieldScript, SameBody, Alike, FieldsScript, Size;
    if defs == [] {
      BinaryEncoder.NoFields(a, flatten, start);
      BinaryEncoder.NoFields(b, flatten, start);
      AlikeRefl([]);
    } else {
      var n := |defs| - 1;
      LastField(a, defs, flatten, start);
      LastField(b, defs, flatten, start);
      SameFieldsScript(a, b, defs[..n], flatten, start);
      var s, t := FieldsScript(a, defs[..n], flatten, start), FieldsScript(b, defs[..n], flatten, start);
      AlikeSize(s, t);
      SameFieldScript(a, b, defs[n], flatten, start, start + Size(s));
      AlikeThen(s, t, FieldScript(a, defs[n], flatten, start, start + Size(s)), FieldScript(b, defs[n], flatten, start, start + Size(t)));
    }
  }

  /** EncodeBinaryBody, flattened or not, succeeds in the same room with the same bytes. */
  lemma {:induction false} BinaryIgnoresRepresentation(a: Body, b: Body, defs: seq<Def>, flatten: bool, start: nat)
    requires SameBody(a, b) && Encodable(a, defs) && Encodable(b, defs)
    ensures Alike(BodyScript(a, defs, flatten, start), BodyScript(b, defs, flatten, start))
    decreases defs, 1, 0
  {
    hide FieldsScript, AllEncodable, Alike;
    if a.vars == [] {
      AlikeRefl(Text(a.fixed));
    } else {
      SameFieldsScript(a, b, defs, flatten, start);
    }
  }
}
