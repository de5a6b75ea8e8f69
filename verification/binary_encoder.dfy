/** EncodeBinaryBody over the output buffer, flattened or not. */
module BinaryEncoder {
  import opened Writing
  import opened Fields
  import Joining
  import Alignment
  import opened BinaryScript

  /** alignPtr */
  method AlignPtr(size: nat, start: nat, w: Writer, base: nat) returns (ok: bool)
    requires w.Valid() && size > 0 && start <= base + w.pos
    modifies w
    ensures w.Valid()
    ensures Ran(old(w.cells), old(w.left), Aligned(size, base + old(w.pos) - start), ok, w.cells, w.left)
  {
    ok := w.Skip(Alignment.OemAlignment(size, base + w.pos - start));
  }

  /** Where a successful run of a script leaves the write pointer. */
  lemma Advanced(c: seq<Cell>, l: nat, s: Script, w: Writer, pos: nat)
    requires w.Valid() && Ran(c, l, s, true, w.cells, w.left) && w.start + |c| == pos
    ensures w.pos == pos + Size(s)
  {
  }

  method EncodeBinaryBody(flatten: bool, b: Body, defs: seq<Def>, w: Writer, base: nat) returns (ok: bool)
    requires w.Valid() && Encodable(b, defs)
    modifies w, w.buffer
    ensures w.Valid() && w.Outside()
    ensures Ran(old(w.cells), old(w.left), BodyScript(b, defs, flatten, base + old(w.pos)), ok, w.cells, w.left)
    decreases defs, 1, 0
  {
    hide Ran, FieldsScript, FieldScript, FieldEncodable;
    // All fields are fixed: a single copy of their bytes.
    if b.vars == [] {
      ok := w.CopyToBuffer(b.fixed);
      return;
    }
    var startBuf := base + w.pos;
    ghost var c, l, pos := w.cells, w.left, w.pos;
    RanNothing(c, l);
    NoFields(b, flatten, startBuf);
    for i := 0 to |defs|
      invariant w.Valid() && w.Outside()
      invariant AllEncodable(b, defs[..i])
      invariant Ran(c, l, FieldsScript(b, defs[..i], flatten, startBuf), true, w.cells, w.left)
    {
      ghost var before := FieldsScript(b, defs[..i], flatten, startBuf);
      ghost var c', l' := w.cells, w.left;
      Advanced(c, l, before, w, pos);
      FieldsScriptNext(b, defs, flatten, startBuf, i);
      ok := EncodeField(flatten, b, defs[i], w, base, startBuf);
      RanThen(c, l, before, c', l', FieldScript(b, defs[i], flatten, startBuf, startBuf + Size(before)), ok, w.cells, w.left);
      if !ok {
        ghost var rest := FieldsScriptRest(b, defs, flatten, startBuf, i + 1);
        RanFailed(c, l, FieldsScript(b, defs[..i + 1], flatten, startBuf), rest, w.cells, w.left, w.cells, w.left);
        return;
      }
    }
    assert defs[..|defs|] == defs;
    return true;
  }

  lemma NoFields(b: Body, flatten: bool, start: nat)
    ensures FieldsScript(b, [], flatten, start) == []
  {
  }

  lemma FieldsScriptNext(b: Body, defs: seq<Def>, flatten: bool, start: nat, i: nat)
    requires AllEncodable(b, defs) && i < |defs|
    ensures AllEncodable(b, defs[..i]) && AllEncodable(b, defs[..i + 1]) && FieldEncodable(b, defs[i])
    ensures var before := FieldsScript(b, defs[..i], flatten, start);
            FieldsScript(b, defs[..i + 1], flatten, start) ==
            before + FieldScript(b, defs[i], flatten, start, start + Size(before))
  {
    hide FieldEncodable, FieldScript;
    assert defs[..i + 1][..i] == defs[..i];
  }

  /** What is left to write after the first i fields. */
  lemma {:induction false} FieldsScriptRest(b: Body, defs: seq<Def>, flatten: bool, start: nat, i: nat) returns (rest: Script)
    requires AllEncodable(b, defs) && i <= |defs|
    ensures AllEncodable(b, defs[..i])
    ensures FieldsScript(b, defs, flatten, start) == FieldsScript(b, defs[..i], flatten, start) + rest
    decreases |defs| - i
  {
    hide FieldEncodable, FieldScript;
    if i == |defs| {
      assert defs[..i] == defs;
      rest := [];
    } else {
      FieldsScriptNext(b, defs, flatten, start, i);
      rest := FieldsScriptRest(b, defs, flatten, start, i + 1);
      var before := FieldsScript(b, defs[..i], flatten, start);
      rest := FieldScript(b, defs[i], flatten, start, start + Size(before)) + rest;
    }
  }

  /** One turn of the field loop. */
  method EncodeField(flatten: bool, b: Body, d: Def, w: Writer, base: nat, startBuf: nat) returns (ok: bool)
    requires w.Valid() && FieldEncodable(b, d) && startBuf <= base + w.pos
    modifies w, w.buffer
    ensures w.Valid() && w.Outside()
    ensures Ran(old(w.cells), old(w.left), FieldScript(b, d, flatten, startBuf, base + old(w.pos)), ok, w.cells, w.left)
    decreases d, 2
  {
    hide Ran, VarScript;
    ghost var c, l, pos := w.cells, w.left, w.pos;
    ghost var n := Alignment.OemAlignment(d.length, base + pos - startBuf);
    ghost var gap := Aligned(d.length, base + pos - startBuf);
    ghost var body := if IsVar(d) then VarScript(b, d, flatten, startBuf, base + pos + n)
                      else if FieldBytes(b, d) == [] then [Refuse] else Text(FieldBytes(b, d));
    ok := AlignPtr(d.length, startBuf, w, base);
    if !ok {
      RanFailed(c, l, gap, body, w.cells, w.left, w.cells, w.left);
      return;
    }
    Advanced(c, l, gap, w, pos);
    assert gap[..0] == [];
    ghost var c', l' := w.cells, w.left;
    if IsVar(d) {
      ok := EncodeVar(flatten, b, d, w, base, startBuf);
    } else {
      ok := WriteFieldToBuffer(b, d, w);
    }
    RanThen(c, l, gap, c', l', body, ok, w.cells, w.left);
  }

  /** WriteFieldToBuffer of a field that is not variable: writing nothing counts as failure. */
  method WriteFieldToBuffer(b: Body, d: Def, w: Writer) returns (ok: bool)
    requires w.Valid() && FieldEncodable(b, d) && !IsVar(d)
    modifies w, w.buffer
    ensures w.Valid() && w.Outside()
    ensures Ran(old(w.cells), old(w.left), if FieldBytes(b, d) == [] then [Refuse] else Text(FieldBytes(b, d)), ok, w.cells, w.left)
  {
    var bytes := FieldBytes(b, d);
    if bytes == [] {
      OneAtom(w.cells, w.left, Refuse);
      return false;
    }
    ok := w.CopyToBuffer(bytes);
  }

  /** The visitor over the payload of a variable field. */
  method EncodeVar(flatten: bool, b: Body, d: Def, w: Writer, base: nat, startBuf: nat) returns (ok: bool)
    requires w.Valid() && FieldEncodable(b, d) && IsVar(d) && startBuf <= base + w.pos
    modifies w, w.buffer
    ensures w.Valid() && w.Outside()
    ensures Ran(old(w.cells), old(w.left), VarScript(b, d, flatten, startBuf, base + old(w.pos)), ok, w.cells, w.left)
    decreases d, 1
  {
    hide Ran, Content, Prefix, Tail, Size;
    var v := b.vars[d.index];
    ghost var c, l, pos := w.cells, w.left, w.pos;
    ghost var at := base + pos;
    ghost var prefix := if v.Str? then [] else Prefix(d, Count(v), at - startBuf);
    ghost var content := Content(v, d, flatten, at + Size(prefix));
    ghost var tail := Tail(v, d, flatten, Size(content), at + Size(prefix) + Size(content));
    if v.Str? {
      RanNothing(c, l);
      ok := true;
    } else {
      ok := WriteLength(d, Count(v), w, base, startBuf);
    }
    if !ok {
      RanFailed(c, l, prefix, content, w.cells, w.left, w.cells, w.left);
      RanFailed(c, l, prefix + content, tail, w.cells, w.left, w.cells, w.left);
      return;
    }
    Advanced(c, l, prefix, w, pos);
    ghost var c', l' := w.cells, w.left;
    var startPos := w.pos;
    ok := EncodeContent(flatten, v, d, w, base);
    RanThen(c, l, prefix, c', l', content, ok, w.cells, w.left);
    if !ok {
      RanFailed(c, l, prefix + content, tail, w.cells, w.left, w.cells, w.left);
      return;
    }
    Advanced(c', l', content, w, startPos);
    c', l' := w.cells, w.left;
    ok := EncodeTail(flatten, v, d, w.pos - startPos, w, base);
    RanThen(c, l, prefix + content, c', l', tail, ok, w.cells, w.left);
  }

  /** The zero fill of a flattened log, and the padding of a string. */
  method EncodeTail(flatten: bool, v: Var, d: Def, written: nat, w: Writer, base: nat) returns (ok: bool)
    requires w.Valid()
    modifies w, w.buffer
    ensures w.Valid() && w.Outside()
    ensures Ran(old(w.cells), old(w.left), Tail(v, d, flatten, written, base + old(w.pos)), ok, w.cells, w.left)
  {
    hide Ran, Fill, Size;
    ghost var c, l, pos := w.cells, w.left, w.pos;
    ghost var fill := Fill(flatten, MaxBytes(d), written);
    ghost var pad := if v.Str? then Text(Padding(base + pos + Size(fill))) else [];
    ok := FillZero(flatten, MaxBytes(d), written, w);
    if !ok {
      RanFailed(c, l, fill, pad, w.cells, w.left, w.cells, w.left);
    } else if v.Str? {
      Advanced(c, l, fill, w, pos);
      ghost var c', l' := w.cells, w.left;
      ok := AddStringFieldPadding(w, base);
      RanThen(c, l, fill, c', l', pad, ok, w.cells, w.left);
    } else {
      assert fill + [] == fill;
    }
  }

  /** The element count, unless another field holds it. */
  method WriteLength(d: Def, count: nat, w: Writer, base: nat, startBuf: nat) returns (ok: bool)
    requires w.Valid() && startBuf <= base + w.pos
    requires d.arrayLengthRef == [] ==> d.arrayLengthFieldSize > 0
    modifies w, w.buffer
    ensures w.Valid() && w.Outside()
    ensures Ran(old(w.cells), old(w.left), Prefix(d, count, base + old(w.pos) - startBuf), ok, w.cells, w.left)
  {
    hide Ran, LittleEndianBytes;
    ghost var c, l := w.cells, w.left;
    if d.arrayLengthRef != [] {
      RanNothing(c, l);
      return true;
    }
    var n := d.arrayLengthFieldSize;
    ghost var gap := Aligned(n, base + w.pos - startBuf);
    ghost var value := if n == 1 || n == 2 || n == 4 then Text(LittleEndianBytes(count, n)) else [Refuse];
    ok := AlignPtr(n, startBuf, w, base);
    if !ok {
      RanFailed(c, l, gap, value, w.cells, w.left, w.cells, w.left);
      return;
    }
    ghost var c', l' := w.cells, w.left;
    if n == 1 || n == 2 || n == 4 {
      ok := w.CopyToBuffer(LittleEndianBytes(count, n));
    } else {
      ok := false;
      OneAtom(c', l', Refuse);
      RefusedRan(c', l', w.cells, w.left);
    }
    RanThen(c, l, gap, c', l', value, ok, w.cells, w.left);
  }

  lemma RefusedRan(c: seq<Cell>, l: nat, d: seq<Cell>, m: nat)
    ensures Ran(c, l, [Refuse], false, d, m)
  {
    OneAtom(c, l, Refuse);
  }

  /** The elements: rows one after another, everything else in one copy. */
  method EncodeContent(flatten: bool, v: Var, d: Def, w: Writer, base: nat) returns (ok: bool)
    requires w.Valid() && IsVar(d)
    requires v.Rows? ==> d.info.Some? && ArrayEncodable(v, d.info.value.fields)
    requires v.Flat? ==> v.rowBytes > 0
    modifies w, w.buffer
    ensures w.Valid() && w.Outside()
    ensures Ran(old(w.cells), old(w.left), Content(v, d, flatten, base + old(w.pos)), ok, w.cells, w.left)
    decreases d, 0
  {
    hide Ran, RowsScript, Encodable, ArrayEncodable, Joining.Concat;
    if v.Rows? {
      ok := EncodeRows(flatten, v, d.info.value.fields, w, base);
    } else if Count(v) > 0 {
      ok := w.CopyToBuffer(Payload(v));
    } else {
      RanNothing(w.cells, w.left);
      return true;
    }
  }

  /** The loop over the rows of a CompositeFieldArray. */
  method EncodeRows(flatten: bool, v: Var, defs: seq<Def>, w: Writer, base: nat) returns (ok: bool)
    requires w.Valid() && v.Rows? && ArrayEncodable(v, defs)
    modifies w, w.buffer
    ensures w.Valid() && w.Outside()
    ensures Ran(old(w.cells), old(w.left), RowsScript(v, defs, flatten, base + old(w.pos), |v.rows|), ok, w.cells, w.left)
    decreases defs, 2, 0
  {
    hide Ran, Encodable, BodyScript;
    ghost var c, l, pos := w.cells, w.left, w.pos;
    ghost var at := base + pos;
    RanNothing(c, l);
    for i := 0 to |v.rows|
      invariant w.Valid() && w.Outside()
      invariant Ran(c, l, RowsScript(v, defs, flatten, at, i), true, w.cells, w.left)
    {
      ghost var before := RowsScript(v, defs, flatten, at, i);
      ghost var c', l' := w.cells, w.left;
      Advanced(c, l, before, w, pos);
      ok := EncodeBinaryBody(flatten, v.rows[i], defs, w, base);
      RanThen(c, l, before, c', l', BodyScript(v.rows[i], defs, flatten, at + Size(before)), ok, w.cells, w.left);
      if !ok {
        ghost var rest := RowsScriptRest(v, defs, flatten, at, i + 1);
        RanFailed(c, l, RowsScript(v, defs, flatten, at, i + 1), rest, w.cells, w.left, w.cells, w.left);
        return;
      }
    }
    return true;
  }

  lemma {:induction false} RowsScriptRest(v: Var, defs: seq<Def>, flatten: bool, at: nat, i: nat) returns (rest: Script)
    requires v.Rows? && ArrayEncodable(v, defs) && i <= |v.rows|
    ensures RowsScript(v, defs, flatten, at, |v.rows|) == RowsScript(v, defs, flatten, at, i) + rest
    decreases |v.rows| - i
  {
    hide Encodable, BodyScript;
    if i == |v.rows| {
      rest := [];
    } else {
      rest := RowsScriptRest(v, defs, flatten, at, i + 1);
      rest := BodyScript(v.rows[i], defs, flatten, at + Size(RowsScript(v, defs, flatten, at, i))) + rest;
    }
  }

  /** Zero bytes up to maxBytes, if the log is flattened. */
  method FillZero(flatten: bool, maxBytes: nat, written: nat, w: Writer) returns (ok: bool)
    requires w.Valid()
    modifies w, w.buffer
    ensures w.Valid() && w.Outside()
    ensures Ran(old(w.cells), old(w.left), Fill(flatten, maxBytes, written), ok, w.cells, w.left)
  {
    hide Ran;
    RanNothing(w.cells, w.left);
    var remaining := Remaining(maxBytes, written);
    if flatten && remaining > 0 {
      ok := w.SetInBuffer(0, remaining);
    } else {
      ok := true;
    }
  }

  /** AddStringFieldPadding of the OEM encoder */
  method AddStringFieldPadding(w: Writer, base: nat) returns (ok: bool)
    requires w.Valid()
    modifies w, w.buffer
    ensures w.Valid() && w.Outside()
    ensures Ran(old(w.cells), old(w.left), Text(Padding(base + old(w.pos))), ok, w.cells, w.left)
  {
    ok := w.SetInBuffer(0, 4 - (base + w.pos) % 4);
  }
}
