/** The layout of a plain binary log, which is not zero filled: where each field stands, and how the
    size follows from the counts. */
module PlainLayout {
  import opened BitLists
  import opened Hex
  import opened Writing
  import opened Fields
  import opened Definitions
  import Joining
  import opened Alignment
  import opened Layouts
  import opened BinaryScript
  import BinaryEncoder
  import opened FlatValues
  import opened FixedBuffers
  import MessageFrames
  import RepresentationBinary

  // ---------------------------------------------------------------- where fields end

  /** Where the elements of a variable field start, behind its alignment and its count. */
  function FirstElement(d: Def, start: nat, at: nat): (first: nat)
    requires d.length > 0 && start <= at
    requires d.arrayLengthRef == [] && d.fieldType != STRING ==> d.arrayLengthFieldSize > 0
    ensures at <= first
  {
    FirstFrom(d, start, at + OemAlignment(d.length, at - start))
  }

  /** The same, from behind the alignment gap. */
  function FirstFrom(d: Def, start: nat, here: nat): (first: nat)
    requires start <= here && (d.arrayLengthRef == [] && d.fieldType != STRING ==> d.arrayLengthFieldSize > 0)
    ensures here <= first
  {
    if d.fieldType == STRING || d.arrayLengthRef != [] then here
    else here + OemAlignment(d.arrayLengthFieldSize, here - start) + d.arrayLengthFieldSize
  }

  /** Where a field ends: right behind its bytes or its elements, a string at the next multiple of
      four, with at least one zero. */
  ghost function PlainFieldEnd(b: Body, d: Def, start: nat, at: nat): (end: nat)
    requires FieldEncodable(b, d) && start <= at
    ensures at <= end
    decreases d, 1
  {
    if IsFixed(d) then at + OemAlignment(d.length, at - start) + FixedSize(d)
    else
      var v := b.vars[d.index];
      if d.fieldType == RESPONSE_STR then at + OemAlignment(d.length, at - start) + |v.text|
      else
        var end := ElementsEnd(v, d, FirstElement(d, start, at));
        if d.fieldType == STRING then 4 * (end / 4) + 4 else end
  }

  /** Where elements end that start here. */
  ghost function ElementsEnd(v: Var, d: Def, first: nat): (end: nat)
    requires RepresentationBinary.ContentReady(v, d)
    ensures first <= end
    decreases d, 0
  {
    match v
    case Str(text) => first + |text|
    case Vec(_, elements) => first + |Joining.Concat(elements)|
    case Flat(bytes, rowBytes) => if |bytes| < rowBytes then first else first + |bytes|
    case Rows(rows) => PlainRowsEnd(v, d.info.value.fields, first, |rows|)
  }

  ghost function PlainRowsEnd(v: Var, defs: seq<Def>, first: nat, n: nat): (end: nat)
    requires v.Rows? && ArrayEncodable(v, defs) && n <= |v.rows|
    ensures first <= end
    decreases defs, 2, n
  {
    if n == 0 then first else PlainBodyEnd(v.rows[n - 1], defs, PlainRowsEnd(v, defs, first, n - 1))
  }

  ghost function PlainFieldsEnd(b: Body, defs: seq<Def>, start: nat): (end: nat)
    requires AllEncodable(b, defs)
    ensures start <= end
    decreases defs, 0, 0
  {
    if defs == [] then start
    else PlainFieldEnd(b, defs[|defs| - 1], start, PlainFieldsEnd(b, defs[..|defs| - 1], start))
  }

  ghost function PlainBodyEnd(b: Body, defs: seq<Def>, start: nat): (end: nat)
    requires Encodable(b, defs)
    ensures start <= end
    decreases defs, 1, 0
  {
    if b.vars == [] then start + |b.fixed| else PlainFieldsEnd(b, defs, start)
  }

  // ---------------------------------------------------------------- what a field writes

  lemma VarFacts(b: Body, d: Def)
    requires FieldEncodable(b, d) && IsVar(d)
    ensures d.length > 0 && d.index < |b.vars| && RepresentationBinary.ContentReady(b.vars[d.index], d)
    ensures d.arrayLengthRef == [] && d.fieldType != STRING ==> d.arrayLengthFieldSize > 0
    ensures b.vars[d.index].Str? <==> d.fieldType == STRING
  {
    hide ArrayEncodable;
  }

  /** The count before an array: it is aligned, has the width of its field, and reads back. */
  lemma PrefixOutput(d: Def, count: nat, offset: nat)
    requires d.arrayLengthRef == [] && d.arrayLengthFieldSize > 0 && Accepted(Prefix(d, count, offset))
    ensures d.arrayLengthFieldSize in {1, 2, 4}
    ensures var n := d.arrayLengthFieldSize; var bytes := LittleEndianBytes(count, n);
            && Apply([], Prefix(d, count, offset)) == Skips(OemAlignment(n, offset)) + Cells(bytes)
            && LittleEndianValue(bytes) == count % (if n == 1 then 0x100 else if n == 2 then 0x1_0000 else 0x1_0000_0000)
  {
    hide OemAlignment, LittleEndianBytes, LittleEndianValue, Apply, Pow2, Accepted;
    var n := d.arrayLengthFieldSize;
    var gap := Aligned(n, offset);
    var value := if n == 1 || n == 2 || n == 4 then Text(LittleEndianBytes(count, n)) else [Refuse];
    AcceptedParts(gap, value);
    RefuseNotAccepted();
    OneOutput(gap[0]);
    OneOutput(value[0]);
    TextAppends(value);
    OutputConcat(gap, value);
    MessageFrames.LengthReadsBack(count, n);
    Widths();
  }

  lemma Widths()
    ensures Pow2(8) == 0x100 && Pow2(16) == 0x1_0000 && Pow2(32) == 0x1_0000_0000
  {
    Pow2Of32();
    assert Pow2(8) == 0x100;
  }

  lemma TextAppends(s: Script)
    requires |s| == 1 && !s[0].Patch?
    ensures Appends(s)
  {
  }

  /** The cells of the count, if the field has one. */
  function PrefixCells(d: Def, count: nat, start: nat, here: nat): seq<Cell>
    requires start <= here && (d.arrayLengthRef == [] && d.fieldType != STRING ==> d.arrayLengthFieldSize > 0)
  {
    if d.fieldType == STRING || d.arrayLengthRef != [] then []
    else
      Skips(OemAlignment(d.arrayLengthFieldSize, here - start)) + Cells(LittleEndianBytes(count, d.arrayLengthFieldSize))
  }

  /** The zeros behind a string that ends here. */
  function PaddingCells(d: Def, end: nat): seq<Cell> {
    if d.fieldType == STRING then Cells(Repeat(0, 4 * (end / 4) + 4 - end)) else []
  }

  /** A variable field of a plain log: the alignment gap, the count, the elements, and nothing behind
      them but the padding of a string. */
  lemma PlainVarOutput(b: Body, d: Def, start: nat, at: nat)
    requires FieldEncodable(b, d) && IsVar(d) && start <= at && Accepted(FieldScript(b, d, false, start, at))
    ensures d.index < |b.vars| && RepresentationBinary.ContentReady(b.vars[d.index], d)
    ensures d.length > 0 && (d.arrayLengthRef == [] && d.fieldType != STRING ==> d.arrayLengthFieldSize > 0)
    ensures var v, here, first := b.vars[d.index], at + OemAlignment(d.length, at - start), FirstElement(d, start, at);
            var elements := Apply([], Content(v, d, false, first));
            Apply([], FieldScript(b, d, false, start, at))
            == Skips(OemAlignment(d.length, at - start))
               + (PrefixCells(d, Count(v), start, here) + elements + PaddingCells(d, first + |elements|))
  {
    hide FieldEncodable, OemAlignment, Apply, Content, Accepted, Appends, VarScript, Count, PrefixCells, PaddingCells,
         FirstFrom, Size, Skips;
    VarFacts(b, d);
    var v, here, first := b.vars[d.index], at + OemAlignment(d.length, at - start), FirstElement(d, start, at);
    var gap, script := Aligned(d.length, at - start), VarScript(b, d, false, start, here);
    AcceptedParts(gap, script);
    VarAppends(b, d, false, start, here);
    OutputConcat(gap, script);
    OneOutput(gap[0]);
    VarOutputHere(b, d, start, here);
  }

  lemma VarOutputHere(b: Body, d: Def, start: nat, here: nat)
    requires FieldEncodable(b, d) && IsVar(d) && start <= here && Accepted(VarScript(b, d, false, start, here))
    ensures d.index < |b.vars| && RepresentationBinary.ContentReady(b.vars[d.index], d)
    ensures d.length > 0 && (d.arrayLengthRef == [] && d.fieldType != STRING ==> d.arrayLengthFieldSize > 0)
    ensures var v, first := b.vars[d.index], FirstFrom(d, start, here);
            var elements := Apply([], Content(v, d, false, first));
            Apply([], VarScript(b, d, false, start, here))
            == PrefixCells(d, Count(v), start, here) + elements + PaddingCells(d, first + |elements|)
  {
    hide FieldEncodable, OemAlignment, Apply, Size, Content, Tail, Prefix, Accepted, Appends, VarScript, Count, PrefixCells, PaddingCells;
    VarFacts(b, d);
    var v := b.vars[d.index];
    var prefix := if v.Str? then [] else Prefix(d, Count(v), here - start);
    PlainParts(b, d, start, here);
    var content := Content(v, d, false, here + Size(prefix));
    var tail := Tail(v, d, false, Size(content), here + Size(prefix) + Size(content));
    AcceptedParts(prefix + content, tail);
    AcceptedParts(prefix, content);
    VarAppends(b, d, false, start, here);
    AppendsParts(prefix + content, tail);
    AppendsParts(prefix, content);
    OutputConcat(prefix + content, tail);
    OutputConcat(prefix, content);
    PlainPrefix(d, Count(v), start, here, prefix);
    PlainTail(v, d, Size(content), here + Size(prefix) + Size(content));
  }

  lemma PlainParts(b: Body, d: Def, start: nat, here: nat)
    requires FieldEncodable(b, d) && IsVar(d) && start <= here
    ensures d.index < |b.vars| && RepresentationBinary.ContentReady(b.vars[d.index], d)
    ensures d.fieldType != STRING && d.arrayLengthRef == [] ==> d.arrayLengthFieldSize > 0
    ensures b.vars[d.index].Str? <==> d.fieldType == STRING
    ensures var v := b.vars[d.index];
            var prefix := if v.Str? then [] else Prefix(d, Count(v), here - start);
            var content := Content(v, d, false, here + Size(prefix));
            VarScript(b, d, false, start, here)
            == prefix + content + Tail(v, d, false, Size(content), here + Size(prefix) + Size(content))
  {
    RepresentationBinary.VarParts(b, d, false, start, here);
  }

  lemma PlainPrefix(d: Def, count: nat, start: nat, here: nat, prefix: Script)
    requires start <= here && d.length > 0 && (d.arrayLengthRef == [] && d.fieldType != STRING ==> d.arrayLengthFieldSize > 0)
    requires prefix == (if d.fieldType == STRING then [] else Prefix(d, count, here - start)) && Accepted(prefix)
    ensures Apply([], prefix) == PrefixCells(d, count, start, here)
    ensures Size(prefix) == if d.fieldType == STRING || d.arrayLengthRef != [] then 0
                            else OemAlignment(d.arrayLengthFieldSize, here - start) + d.arrayLengthFieldSize
  {
    hide OemAlignment, LittleEndianBytes, Accepted;
    NoOutput();
    if d.fieldType != STRING && d.arrayLengthRef == [] {
      PrefixOutput(d, count, here - start);
      assert |Apply([], prefix)| == Size(prefix);
    }
  }

  lemma PlainTail(v: Var, d: Def, written: nat, end: nat)
    requires v.Str? <==> d.fieldType == STRING
    ensures Apply([], Tail(v, d, false, written, end)) == PaddingCells(d, end)
  {
    var fill := Fill(false, MaxBytes(d), written);
    assert fill == [];
    NoOutput();
    if v.Str? {
      OneOutput(Put(Padding(end), 0));
      assert [] + Text(Padding(end)) == Text(Padding(end));
    }
  }

  /** A field that is copied as it is stands behind its alignment gap. */
  lemma PlainFixedOutput(b: Body, d: Def, start: nat, at: nat)
    requires FieldEncodable(b, d) && !IsVar(d) && start <= at && Accepted(FieldScript(b, d, false, start, at))
    ensures d.length > 0 && Writable(b, d)
    ensures Apply([], FieldScript(b, d, false, start, at))
         == Skips(OemAlignment(d.length, at - start)) + Cells(FieldBytes(b, d))
  {
    hide OemAlignment, Apply, Accepted;
    var gap := Aligned(d.length, at - start);
    var value := if FieldBytes(b, d) == [] then [Refuse] else Text(FieldBytes(b, d));
    AcceptedParts(gap, value);
    RefuseNotAccepted();
    TextAppends(value);
    OutputConcat(gap, value);
    OneOutput(gap[0]);
    OneOutput(value[0]);
  }

  // ---------------------------------------------------------------- sizes

  lemma {:induction false} FieldEnds(b: Body, d: Def, start: nat, at: nat)
    requires FieldEncodable(b, d) && start <= at && Accepted(FieldScript(b, d, false, start, at))
    ensures at + Size(FieldScript(b, d, false, start, at)) == PlainFieldEnd(b, d, start, at)
    decreases d, 1
  {
    hide FieldEncodable, OemAlignment, Apply, Content, FieldScript, Count, ElementsEnd, LittleEndianBytes, FirstElement;
    if IsVar(d) {
      PlainVarOutput(b, d, start, at);
      var v, first := b.vars[d.index], FirstElement(d, start, at);
      FirstElementIs(d, start, at);
      ContentAccepted(b, d, start, at);
      ContentEnds(v, d, first);
      VarFieldEndIs(b, d, start, at);
    } else {
      PlainFixedOutput(b, d, start, at);
      FixedFieldEndIs(b, d, start, at);
    }
  }

  lemma FirstElementIs(d: Def, start: nat, at: nat)
    requires d.length > 0 && start <= at && (d.arrayLengthRef == [] && d.fieldType != STRING ==> d.arrayLengthFieldSize > 0)
    ensures FirstElement(d, start, at) == FirstFrom(d, start, at + OemAlignment(d.length, at - start))
  {
  }

  lemma VarFieldEndIs(b: Body, d: Def, start: nat, at: nat)
    requires FieldEncodable(b, d) && IsVar(d) && start <= at
    ensures d.index < |b.vars| && RepresentationBinary.ContentReady(b.vars[d.index], d) && d.length > 0
    ensures d.arrayLengthRef == [] && d.fieldType != STRING ==> d.arrayLengthFieldSize > 0
    ensures var end := ElementsEnd(b.vars[d.index], d, FirstElement(d, start, at));
            PlainFieldEnd(b, d, start, at) == if d.fieldType == STRING then 4 * (end / 4) + 4 else end
  {
    hide OemAlignment, ElementsEnd, ArrayEncodable;
  }

  lemma FixedFieldEndIs(b: Body, d: Def, start: nat, at: nat)
    requires FieldEncodable(b, d) && !IsVar(d) && start <= at && Writable(b, d)
    ensures d.length > 0
    ensures PlainFieldEnd(b, d, start, at) == at + OemAlignment(d.length, at - start) + |FieldBytes(b, d)|
  {
    hide OemAlignment;
  }

  lemma ContentAccepted(b: Body, d: Def, start: nat, at: nat)
    requires FieldEncodable(b, d) && IsVar(d) && start <= at && Accepted(FieldScript(b, d, false, start, at))
    ensures d.index < |b.vars| && RepresentationBinary.ContentReady(b.vars[d.index], d) && d.length > 0
    ensures d.arrayLengthRef == [] && d.fieldType != STRING ==> d.arrayLengthFieldSize > 0
    ensures Accepted(Content(b.vars[d.index], d, false, FirstElement(d, start, at)))
  {
    hide FieldEncodable, OemAlignment, Size, Content, Tail, Prefix, Accepted, VarScript, Count;
    VarFacts(b, d);
    var v, here := b.vars[d.index], at + OemAlignment(d.length, at - start);
    var prefix := if v.Str? then [] else Prefix(d, Count(v), here - start);
    PlainParts(b, d, start, here);
    var content := Content(v, d, false, here + Size(prefix));
    AcceptedParts(Aligned(d.length, at - start), VarScript(b, d, false, start, here));
    AcceptedParts(prefix + content, Tail(v, d, false, Size(content), here + Size(prefix) + Size(content)));
    AcceptedParts(prefix, content);
    PlainPrefix(d, Count(v), start, here, prefix);
  }

  lemma {:induction false} ContentEnds(v: Var, d: Def, first: nat)
    requires RepresentationBinary.ContentReady(v, d) && Accepted(Content(v, d, false, first))
    ensures first + Size(Content(v, d, false, first)) == ElementsEnd(v, d, first)
    decreases d, 0
  {
    hide ArrayEncodable, RowsScript, Joining.Concat;
    if v.Rows? {
      RowsEnd(v, d.info.value.fields, first, |v.rows|);
    } else {
      OneSize(Put(Payload(v), 0));
      NoElements(v);
    }
  }

  lemma NoElements(v: Var)
    requires !v.Rows? && (v.Flat? ==> v.rowBytes > 0)
    ensures Count(v) == 0 <==> if v.Flat? then |v.bytes| < v.rowBytes else if v.Vec? then v.elements == [] else v.text == []
    ensures Count(v) == 0 && !v.Flat? ==> Payload(v) == []
  {
    if v.Flat? && |v.bytes| >= v.rowBytes {
      assert |v.bytes| / v.rowBytes > 0;
    }
  }

  lemma {:induction false} RowsEnd(v: Var, defs: seq<Def>, first: nat, n: nat)
    requires v.Rows? && ArrayEncodable(v, defs) && n <= |v.rows| && Accepted(RowsScript(v, defs, false, first, n))
    ensures first + Size(RowsScript(v, defs, false, first, n)) == PlainRowsEnd(v, defs, first, n)
    decreases defs, 2, n
  {
    hide Encodable, BodyScript, PlainBodyEnd, Accepted, Size;
    NoSize();
    if n > 0 {
      var before := RowsScript(v, defs, false, first, n - 1);
      var row := BodyScript(v.rows[n - 1], defs, false, first + Size(before));
      AcceptedParts(before, row);
      RowsEnd(v, defs, first, n - 1);
      PlainBodyEnds(v.rows[n - 1], defs, first + Size(before));
      SizeConcat(before, row);
    }
  }

  lemma NoSize()
    ensures Size([]) == 0
  {
  }

  lemma {:induction false} FieldsEnd(b: Body, defs: seq<Def>, start: nat)
    requires AllEncodable(b, defs) && Accepted(FieldsScript(b, defs, false, start))
    ensures start + Size(FieldsScript(b, defs, false, start)) == PlainFieldsEnd(b, defs, start)
    decreases defs, 0, 0
  {
    hide FieldEncodable, FieldScript, PlainFieldEnd, Accepted, Size;
    NoSize();
    if defs != [] {
      var n := |defs| - 1;
      RepresentationBinary.LastField(b, defs, false, start);
      var before := FieldsScript(b, defs[..n], false, start);
      var field := FieldScript(b, defs[n], false, start, start + Size(before));
      AcceptedParts(before, field);
      FieldsEnd(b, defs[..n], start);
      FieldEnds(b, defs[n], start, start + Size(before));
      SizeConcat(before, field);
    }
  }

  /** A plain body ends where its fields, and the rows of its arrays, do. */
  lemma {:induction false} PlainBodyEnds(b: Body, defs: seq<Def>, start: nat)
    requires Encodable(b, defs) && Accepted(BodyScript(b, defs, false, start))
    ensures start + Size(BodyScript(b, defs, false, start)) == PlainBodyEnd(b, defs, start)
    decreases defs, 1, 0
  {
    hide AllEncodable, FieldsScript, PlainFieldsEnd;
    if b.vars == [] {
      OneSize(Put(b.fixed, 0));
    } else {
      FieldsEnd(b, defs, start);
    }
  }

  /** Each field of a plain log stands where those before it end. */
  lemma PlainFieldAt(b: Body, defs: seq<Def>, start: nat, i: nat)
    requires AllEncodable(b, defs) && i < |defs| && Accepted(FieldsScript(b, defs, false, start))
    ensures AllEncodable(b, defs[..i]) && FieldEncodable(b, defs[i])
    ensures var at := PlainFieldsEnd(b, defs[..i], start);
            && Accepted(FieldScript(b, defs[i], false, start, at))
            && HasAt(Apply([], FieldsScript(b, defs, false, start)), at - start, Apply([], FieldScript(b, defs[i], false, start, at)))
  {
    hide FieldEncodable, FieldsScript, FieldScript, PlainFieldsEnd, Accepted, Appends;
    BinaryEncoder.FieldsScriptNext(b, defs, false, start, i);
    var before := FieldsScript(b, defs[..i], false, start);
    var field := FieldScript(b, defs[i], false, start, start + Size(before));
    var rest := BinaryEncoder.FieldsScriptRest(b, defs, false, start, i + 1);
    FieldsAppend(b, defs, false, start);
    AppendsParts(before + field, rest);
    AppendsParts(before, field);
    AcceptedParts(before + field, rest);
    AcceptedParts(before, field);
    OutputConcat(before, field);
    OutputConcat(before + field, rest);
    FieldsEnd(b, defs[..i], start);
  }

  // ---------------------------------------------------------------- sizes from counts

  /** A vector takes its count times the size of an element. */
  lemma VectorEnd(v: Var, d: Def, first: nat)
    requires IsVar(d) && v.Vec? && VecConforms(v, d)
    ensures ElementsEnd(v, d, first) == first + |v.elements| * d.valueSize
  {
    Joining.ConcatSize(v.elements, d.valueSize);
  }

  /** The payloads have the same counts, at every depth, whatever the values. */
  ghost predicate SameShapes(a: Var, b: Var)
    decreases a, 0
  {
    match a
    case Str(text) => b.Str? && |b.text| == |text|
    case Vec(_, elements) => b.Vec? && |b.elements| == |elements|
    case Flat(bytes, rowBytes) => b.Flat? && |b.bytes| == |bytes| && b.rowBytes == rowBytes
    case Rows(rows) => b.Rows? && |b.rows| == |rows| && forall i | 0 <= i < |rows| :: SameShape(rows[i], b.rows[i])
  }

  ghost predicate SameShape(a: Body, b: Body)
    decreases a, 1
  {
    |a.fixed| == |b.fixed| && |a.vars| == |b.vars| && forall i | 0 <= i < |a.vars| :: SameShapes(a.vars[i], b.vars[i])
  }

  /** Moving a gap by a multiple of four. */
  lemma {:induction false} FieldsOfShape(a: Body, b: Body, defs: seq<Def>, x: nat, y: nat)
    requires SameShape(a, b) && AllEncodable(a, defs) && AllEncodable(b, defs) && x % 4 == y % 4
    ensures PlainFieldsEnd(a, defs, x) - x == PlainFieldsEnd(b, defs, y) - y
    decreases defs, 0, 0
  {
    hide FieldEncodable, PlainFieldEnd, SameShape;
    if defs != [] {
      var n := |defs| - 1;
      FieldsOfShape(a, b, defs[..n], x, y);
      FieldOfShape(a, b, defs[n], x, PlainFieldsEnd(a, defs[..n], x), y, PlainFieldsEnd(b, defs[..n], y));
    }
  }

  lemma {:induction false} FieldOfShape(a: Body, b: Body, d: Def, x: nat, p: nat, y: nat, q: nat)
    requires SameShape(a, b) && FieldEncodable(a, d) && FieldEncodable(b, d)
    requires x <= p && y <= q && p - x == q - y && x % 4 == y % 4
    ensures PlainFieldEnd(a, d, x, p) - x == PlainFieldEnd(b, d, y, q) - y
    decreases d, 1
  {
    hide OemAlignment, ElementsEnd, FieldEncodable, PlainFieldEnd;
    if IsVar(d) {
      VarFieldEndIs(a, d, x, p);
      VarFieldEndIs(b, d, y, q);
      VarFacts(a, d);
      VarFacts(b, d);
      var e, e' := FirstElement(d, x, p), FirstElement(d, y, q);
      SameRemainder(x, e, y, e');
      VectorsConform(a, d);
      VectorsConform(b, d);
      assert SameShapes(a.vars[d.index], b.vars[d.index]);
      ElementsOfShape(a.vars[d.index], b.vars[d.index], d, e, e');
      RoundedAlike(x, ElementsEnd(a.vars[d.index], d, e), y, ElementsEnd(b.vars[d.index], d, e'));
    } else {
      FixedOfShape(a, b, d, x, p, y, q);
    }
  }

  lemma VectorsConform(b: Body, d: Def)
    requires FieldEncodable(b, d) && IsVar(d)
    ensures d.index < |b.vars| && (b.vars[d.index].Vec? ==> VecConforms(b.vars[d.index], d))
  {
    hide VecConforms, ArrayEncodable;
  }

  lemma SameRemainder(x: nat, e: nat, y: nat, e': nat)
    requires x % 4 == y % 4 && e - x == e' - y
    ensures e % 4 == e' % 4
  {
    var q := x / 4 - y / 4;
    assert x - y == 4 * q;
  }

  lemma RoundedAlike(x: nat, e: nat, y: nat, e': nat)
    requires x % 4 == y % 4 && e - x == e' - y
    ensures 4 * (e / 4) + 4 - x == 4 * (e' / 4) + 4 - y
  {
    SameRemainder(x, e, y, e');
  }

  lemma FixedOfShape(a: Body, b: Body, d: Def, x: nat, p: nat, y: nat, q: nat)
    requires SameShape(a, b) && FieldEncodable(a, d) && FieldEncodable(b, d) && !IsVar(d)
    requires x <= p && y <= q && p - x == q - y
    ensures PlainFieldEnd(a, d, x, p) - x == PlainFieldEnd(b, d, y, q) - y
  {
    hide OemAlignment;
    if d.fieldType == RESPONSE_STR {
      assert SameShapes(a.vars[d.index], b.vars[d.index]);
    }
  }

  lemma {:induction false} ElementsOfShape(v: Var, w: Var, d: Def, e: nat, e': nat)
    requires SameShapes(v, w) && RepresentationBinary.ContentReady(v, d) && RepresentationBinary.ContentReady(w, d)
    requires (v.Vec? ==> VecConforms(v, d) && VecConforms(w, d)) && e % 4 == e' % 4
    ensures ElementsEnd(v, d, e) - e == ElementsEnd(w, d, e') - e'
    decreases d, 0
  {
    hide SameShape, ArrayEncodable, VecConforms, Joining.Concat;
    if v.Vec? {
      VectorEnd(v, d, e);
      VectorEnd(w, d, e');
    } else if v.Rows? {
      RowsOfShape(v, w, d.info.value.fields, e, e', |v.rows|);
    }
  }

  lemma {:induction false} RowsOfShape(v: Var, w: Var, defs: seq<Def>, e: nat, e': nat, n: nat)
    requires v.Rows? && w.Rows? && |v.rows| == |w.rows| && ArrayEncodable(v, defs) && ArrayEncodable(w, defs) && n <= |v.rows|
    requires (forall i | 0 <= i < |v.rows| :: SameShape(v.rows[i], w.rows[i])) && e % 4 == e' % 4
    ensures PlainRowsEnd(v, defs, e, n) - e == PlainRowsEnd(w, defs, e', n) - e'
    decreases defs, 2, n
  {
    hide SameShape, Encodable, PlainBodyEnd;
    if n > 0 {
      RowsOfShape(v, w, defs, e, e', n - 1);
      var p, q := PlainRowsEnd(v, defs, e, n - 1), PlainRowsEnd(w, defs, e', n - 1);
      SameRemainder(e, p, e', q);
      PlainSizeFollowsFromCounts(v.rows[n - 1], w.rows[n - 1], defs, p, q);
    }
  }

  /** The size of a plain log follows from its counts: two bodies with the same counts at every depth
      take the same number of bytes at addresses equal modulo four. */
  lemma {:induction false} PlainSizeFollowsFromCounts(a: Body, b: Body, defs: seq<Def>, x: nat, y: nat)
    requires SameShape(a, b) && Encodable(a, defs) && Encodable(b, defs) && x % 4 == y % 4
    ensures PlainBodyEnd(a, defs, x) - x == PlainBodyEnd(b, defs, y) - y
    decreases defs, 1, 0
  {
    hide AllEncodable, PlainFieldsEnd, SameShapes;
    if a.vars != [] {
      FieldsOfShape(a, b, defs, x, y);
    }
  }

  // ---------------------------------------------------------------- the elements themselves

  /** The elements of a variable field, plain or flattened, are the bytes stored. */
  lemma ElementsAreStored(v: Var, d: Def, flatten: bool, at: nat)
    requires IsVar(d) && !v.Rows? && (v.Flat? ==> v.rowBytes > 0)
    ensures Apply([], Content(v, d, flatten, at)) ==
            match v
            case Str(text) => Cells(text)
            case Vec(_, elements) => Cells(Joining.Concat(elements))
            case Flat(bytes, rowBytes) => if |bytes| < rowBytes then [] else Cells(bytes)
  {
    hide Joining.Concat, Apply;
    NoElements(v);
    NoOutput();
    if Count(v) > 0 {
      OneOutput(Put(Payload(v), 0));
    }
  }

  /** Element i of a vector is at its place behind the first. */
  lemma {:induction false} ElementInPayload(elements: seq<seq<byte>>, n: nat, i: nat)
    requires i < |elements| && forall j | 0 <= j < |elements| :: |elements[j]| == n
    ensures 0 <= i * n && i * n + n <= |Joining.Concat(elements)|
    ensures Joining.Concat(elements)[i * n..i * n + n] == elements[i]
    decreases |elements|
  {
    var last := |elements| - 1;
    Joining.ConcatSize(elements[..last], n);
    if i < last {
      ElementInPayload(elements[..last], n, i);
      var x := i * n;
      assert Joining.Concat(elements)[x..x + n] == Joining.Concat(elements[..last])[x..x + n];
    }
  }

  // ---------------------------------------------------------------- one message in both forms

  /** At most three 32-bit words, behind a 32-bit count. */
  function WordsDef(): Def {
    Def([], VARIABLE_LENGTH_ARRAY, 4, 4, false, false, false, 0, 3, [], 4, 0, None)
  }

  /** With one word, the plain log has 8 bytes: the count and the word. */
  lemma PlainWord(word: seq<byte>)
    requires |word| == 4
    ensures var b, defs := Body([], [Vec(4, [word])]), [WordsDef()];
            Encodable(b, defs) && Apply([], BodyScript(b, defs, false, 0)) == Cells([1, 0, 0, 0] + word)
  {
    hide Apply, BodyScript, FieldScript, FieldEncodable, Content, PrefixCells, FirstElement, OemAlignment, Accepted;
    var b, d := Body([], [Vec(4, [word])]), WordsDef();
    WordEncodable(word);
    RepresentationBinary.LastField(b, [d], false, 0);
    WordScript(word, false);
    WordAccepted(word);
    PlainVarOutput(b, d, 0, 0);
    WordContent(word, false);
    assert Skips(0) == [];
    assert Skips(0) + (Cells([1, 0, 0, 0]) + Cells(word) + []) == Cells([1, 0, 0, 0] + word);
  }

  lemma WordEncodable(word: seq<byte>)
    requires |word| == 4
    ensures FieldEncodable(Body([], [Vec(4, [word])]), WordsDef())
    ensures OemAlignment(4, 0) == 0 && FirstElement(WordsDef(), 0, 0) == 4
    ensures PrefixCells(WordsDef(), 1, 0, 0) == Cells([1, 0, 0, 0])
  {
    assert LittleEndianBytes(1, 4) == [1, 0, 0, 0] by {
      assert LittleEndianBytes(0, 3) == [0] + LittleEndianBytes(0, 2);
      assert LittleEndianBytes(0, 2) == [0] + LittleEndianBytes(0, 1);
      assert LittleEndianBytes(0, 1) == [0] + LittleEndianBytes(0, 0);
    }
    assert Skips(0) + Cells([1, 0, 0, 0]) == Cells([1, 0, 0, 0]);
  }

  lemma WordScript(word: seq<byte>, flatten: bool)
    requires |word| == 4
    ensures var b, d := Body([], [Vec(4, [word])]), WordsDef();
            && FieldEncodable(b, d) && Encodable(b, [d])
            && BodyScript(b, [d], flatten, 0) == FieldScript(b, d, flatten, 0, 0)
  {
    hide FieldScript, FieldEncodable;
    var b, d := Body([], [Vec(4, [word])]), WordsDef();
    WordEncodable(word);
    RepresentationBinary.LastField(b, [d], flatten, 0);
    assert [d][..0] == [];
    assert [] + FieldScript(b, d, flatten, 0, 0) == FieldScript(b, d, flatten, 0, 0);
  }

  lemma WordContent(word: seq<byte>, flatten: bool)
    requires |word| == 4
    ensures Apply([], Content(Vec(4, [word]), WordsDef(), flatten, 4)) == Cells(word)
    ensures Accepted(Content(Vec(4, [word]), WordsDef(), flatten, 4))
  {
    hide Apply;
    assert [word][..0] == [];
    assert Joining.Concat([word]) == [] + word == word;
    OneOutput(Put(word, 0));
  }

  lemma WordAccepted(word: seq<byte>)
    requires |word| == 4
    ensures var b, d := Body([], [Vec(4, [word])]), WordsDef();
            FieldEncodable(b, d) && Accepted(FieldScript(b, d, false, 0, 0))
  {
    hide Content, VarScript, Prefix, Tail, Size, FieldEncodable, FieldScript, OemAlignment, Accepted, Count;
    var b, d := Body([], [Vec(4, [word])]), WordsDef();
    WordEncodable(word);
    PlainParts(b, d, 0, 0);
    WordContent(word, false);
    WordPrefix();
    WordCount(word);
    var prefix, content := Prefix(d, 1, 0), Content(b.vars[0], d, false, 4);
    AcceptedBoth(prefix, content);
    AcceptedBoth(prefix + content, []);
    VarFieldScript(b, d);
    AcceptedBoth(Aligned(4, 0), VarScript(b, d, false, 0, 0));
  }

  lemma WordCount(word: seq<byte>)
    ensures Count(Vec(4, [word])) == 1
    ensures Accepted(Prefix(WordsDef(), 1, 0)) && Accepted(Aligned(4, 0)) && Accepted([])
  {
    WordPrefix();
  }

  lemma VarFieldScript(b: Body, d: Def)
    requires FieldEncodable(b, d) && IsVar(d) && d.length == 4
    ensures FieldScript(b, d, false, 0, 0) == Aligned(4, 0) + VarScript(b, d, false, 0, OemAlignment(4, 0))
  {
    hide FieldEncodable, VarScript, OemAlignment;
  }

  lemma AcceptedBoth(s: Script, t: Script)
    requires Accepted(s) && Accepted(t)
    ensures Accepted(s + t)
  {
  }

  lemma WordPrefix()
    ensures Prefix(WordsDef(), 1, 0) == [Gap(0), Put(LittleEndianBytes(1, 4), 0)]
    ensures Size(Prefix(WordsDef(), 1, 0)) == 4
    ensures forall v: Var, written: nat, at: nat :: !v.Str? ==> Tail(v, WordsDef(), false, written, at) == []
  {
    SizeConcat([Gap(0)], [Put(LittleEndianBytes(1, 4), 0)]);
    OneSize(Gap(0));
    OneSize(Put(LittleEndianBytes(1, 4), 0));
    assert [Gap(0)] + [Put(LittleEndianBytes(1, 4), 0)] == [Gap(0), Put(LittleEndianBytes(1, 4), 0)];
  }
}
