/** Where the values are in a flattened binary log: the view of a fixed record laid over it. */
module FlatValues {
  import opened BitLists
  import opened Hex
  import opened Writing
  import opened Fields
  import Joining
  import opened Alignment
  import opened BinaryScript
  import BinaryEncoder
  import opened FlatLayout
  import Representation
  import Memory

  /** The script never overwrites. */
  ghost predicate Appends(s: Script) {
    forall i | 0 <= i < |s| :: !s[i].Patch?
  }

  lemma {:induction false} AppliesBehind(c: seq<Cell>, s: Script)
    requires Appends(s)
    ensures Apply(c, s) == c + Apply([], s)
  {
    if s == [] {
      assert c + [] == c;
    } else {
      var before, last := s[..|s| - 1], s[|s| - 1];
      AppliesBehind(c, before);
      var added := if last.Put? then Cells(last.text) else if last.Gap? then Skips(last.n) else [];
      assert Apply(c, s) == Apply(c, before) + added;
      assert Apply([], s) == Apply([], before) + added;
      assert c + (Apply([], before) + added) == (c + Apply([], before)) + added;
    }
  }

  /** Two scripts that append write their outputs one behind the other. */
  lemma OutputConcat(s: Script, t: Script)
    requires Appends(t)
    ensures Apply([], s + t) == Apply([], s) + Apply([], t)
  {
    ApplyConcat([], s, t);
    AppliesBehind(Apply([], s), t);
  }

  lemma HasAll(out: seq<Cell>)
    ensures HasAt(out, 0, out)
  {
  }

  lemma HasBehind(head: seq<Cell>, out: seq<Cell>, x: nat, part: seq<Cell>)
    requires HasAt(out, x, part)
    ensures HasAt(head + out, |head| + x, part)
  {
    assert (head + out)[|head| + x..|head| + x + |part|] == out[x..x + |part|];
  }

  lemma {:induction false} RowsAppend(v: Var, defs: seq<Def>, flatten: bool, at: nat, n: nat)
    requires v.Rows? && ArrayEncodable(v, defs) && n <= |v.rows|
    ensures Appends(RowsScript(v, defs, flatten, at, n))
    decreases defs, 2, n
  {
    hide Encodable, BodyScript;
    if n > 0 {
      RowsAppend(v, defs, flatten, at, n - 1);
      BodyAppends(v.rows[n - 1], defs, flatten, at + Size(RowsScript(v, defs, flatten, at, n - 1)));
    }
  }

  lemma {:induction false} ContentAppends(v: Var, d: Def, flatten: bool, at: nat)
    requires IsVar(d)
    requires v.Rows? ==> d.info.Some? && ArrayEncodable(v, d.info.value.fields)
    requires v.Flat? ==> v.rowBytes > 0
    ensures Appends(Content(v, d, flatten, at))
    decreases d, 0
  {
    hide ArrayEncodable, RowsScript, Joining.Concat;
    if v.Rows? {
      RowsAppend(v, d.info.value.fields, flatten, at, |v.rows|);
    }
  }

  lemma {:induction false} FieldAppends(b: Body, d: Def, flatten: bool, start: nat, at: nat)
    requires FieldEncodable(b, d) && start <= at
    ensures Appends(FieldScript(b, d, flatten, start, at))
    decreases d, 2
  {
    hide VarScript, ArrayEncodable;
    if IsVar(d) {
      VarAppends(b, d, flatten, start, at + OemAlignment(d.length, at - start));
    }
  }

  lemma {:induction false} VarAppends(b: Body, d: Def, flatten: bool, start: nat, at: nat)
    requires FieldEncodable(b, d) && start <= at && IsVar(d)
    ensures Appends(VarScript(b, d, flatten, start, at))
    decreases d, 1
  {
    hide Content, ArrayEncodable, Size, Prefix, Tail, Appends;
    var v := b.vars[d.index];
    var prefix := if v.Str? then [] else Prefix(d, Count(v), at - start);
    var content := Content(v, d, flatten, at + Size(prefix));
    var tail := Tail(v, d, flatten, Size(content), at + Size(prefix) + Size(content));
    if !v.Str? {
      PrefixAppends(d, Count(v), at - start);
    }
    ContentAppends(v, d, flatten, at + Size(prefix));
    TailAppends(v, d, flatten, Size(content), at + Size(prefix) + Size(content));
    NothingAppends();
    AppendsBoth(prefix, content);
    AppendsBoth(prefix + content, tail);
  }

  lemma PrefixAppends(d: Def, count: nat, offset: nat)
    requires d.arrayLengthRef == [] ==> d.arrayLengthFieldSize > 0
    ensures Appends(Prefix(d, count, offset))
  {
  }

  lemma TailAppends(v: Var, d: Def, flatten: bool, written: nat, at: nat)
    ensures Appends(Tail(v, d, flatten, written, at))
  {
  }

  lemma NothingAppends()
    ensures Appends([])
  {
  }

  lemma AppendsBoth(s: Script, t: Script)
    requires Appends(s) && Appends(t)
    ensures Appends(s + t)
  {
  }

  lemma {:induction false} FieldsAppend(b: Body, defs: seq<Def>, flatten: bool, start: nat)
    requires AllEncodable(b, defs)
    ensures Appends(FieldsScript(b, defs, flatten, start))
    decreases defs, 0, 0
  {
    hide FieldEncodable, FieldScript;
    if defs != [] {
      var n := |defs| - 1;
      FieldsAppend(b, defs[..n], flatten, start);
      FieldAppends(b, defs[n], flatten, start, start + Size(FieldsScript(b, defs[..n], flatten, start)));
    }
  }

  lemma {:induction false} BodyAppends(b: Body, defs: seq<Def>, flatten: bool, start: nat)
    requires Encodable(b, defs)
    ensures Appends(BodyScript(b, defs, flatten, start))
    decreases defs, 1, 0
  {
    hide FieldsScript, AllEncodable;
    if b.vars != [] {
      FieldsAppend(b, defs, flatten, start);
    }
  }

  /** The output of the script has this segment at this place. */
  ghost predicate HasAt(out: seq<Cell>, at: nat, segment: seq<Cell>) {
    at + |segment| <= |out| && out[at..at + |segment|] == segment
  }

  /** The output of each field is where the definitions put it. */
  lemma FieldSegment(b: Body, defs: seq<Def>, start: nat, i: nat)
    requires AllEncodable(b, defs) && FlatDefs(defs) && Within(b, defs, start) && i < |defs|
    requires Accepted(FieldsScript(b, defs, true, start))
    ensures FlatDefs(defs[..i]) && FieldEncodable(b, defs[i])
    ensures var at := DefsEnd(defs[..i], TextLengths(b), start);
            && HasAt(Apply([], FieldsScript(b, defs, true, start)), at - start, Apply([], FieldScript(b, defs[i], true, start, at)))
            && Accepted(FieldScript(b, defs[i], true, start, at))
  {
    hide FieldEncodable, FlatDef, FieldsScript, FieldScript, DefsEnd, Within, Appends, Accepted;
    EndsOf(b, defs, start, i);
    BinaryEncoder.FieldsScriptNext(b, defs, true, start, i);
    var at := DefsEnd(defs[..i], TextLengths(b), start);
    var before, field := FieldsScript(b, defs[..i], true, start), FieldScript(b, defs[i], true, start, at);
    var rest := BinaryEncoder.FieldsScriptRest(b, defs, true, start, i + 1);
    FieldsAppend(b, defs, true, start);
    AppendsParts(before + field, rest);
    AppendsParts(before, field);
    AcceptedParts(before + field, rest);
    AcceptedParts(before, field);
    OutputConcat(before, field);
    OutputConcat(before + field, rest);
  }

  lemma AppendsParts(s: Script, t: Script)
    requires Appends(s + t)
    ensures Appends(s) && Appends(t)
  {
    forall i | 0 <= i < |s| ensures !s[i].Patch? { assert (s + t)[i] == s[i]; }
    forall i | 0 <= i < |t| ensures !t[i].Patch? { assert (s + t)[|s| + i] == t[i]; }
  }

  lemma HasPart(out: seq<Cell>, at: nat, segment: seq<Cell>, x: nat, part: seq<Cell>)
    requires HasAt(out, at, segment) && HasAt(segment, x, part)
    ensures HasAt(out, at + x, part)
  {
    Memory.SliceOfSlice(out, at, at + |segment|, x, x + |part|);
  }

  /** A fixed field, or a fixed-length array, is in the log at the place that its definition and those
      before it give it. */
  lemma FlattenedFixedFieldAt(b: Body, defs: seq<Def>, start: nat, i: nat)
    requires AllEncodable(b, defs) && FlatDefs(defs) && Within(b, defs, start) && i < |defs| && !IsVar(defs[i])
    requires Accepted(FieldsScript(b, defs, true, start))
    ensures FlatDefs(defs[..i]) && Writable(b, defs[i])
    ensures var offset := DefsEnd(defs[..i], TextLengths(b), start) - start;
            HasAt(Apply([], FieldsScript(b, defs, true, start)),
                  offset + OemAlignment(defs[i].length, offset), Cells(FieldBytes(b, defs[i])))
  {
    hide FlatDef, FieldsScript, FieldScript, DefsEnd, Within, OemAlignment, Apply, HasAt, FieldBytes;
    FieldSegment(b, defs, start, i);
    var d, offset := defs[i], DefsEnd(defs[..i], TextLengths(b), start) - start;
    FixedOutput(b, d, start, start + offset);
    HasPart(Apply([], FieldsScript(b, defs, true, start)), offset, Apply([], FieldScript(b, d, true, start, start + offset)),
            OemAlignment(d.length, offset), Cells(FieldBytes(b, d)));
  }

  lemma FixedOutput(b: Body, d: Def, start: nat, at: nat)
    requires FieldEncodable(b, d) && start <= at && !IsVar(d) && Accepted(FieldScript(b, d, true, start, at))
    ensures Writable(b, d)
    ensures HasAt(Apply([], FieldScript(b, d, true, start, at)), OemAlignment(d.length, at - start), Cells(FieldBytes(b, d)))
  {
    hide OemAlignment, Apply, HasAt, Accepted;
    var gap := Aligned(d.length, at - start);
    var value := if FieldBytes(b, d) == [] then [Refuse] else Text(FieldBytes(b, d));
    AcceptedParts(gap, value);
    RefuseNotAccepted();
    OutputConcat(gap, value);
    OneOutput(gap[0]);
    OneOutput(value[0]);
    HasAll(Apply([], value));
    HasBehind(Apply([], gap), Apply([], value), 0, Apply([], value));
  }

  lemma OneOutput(a: Atom)
    ensures Apply([], [a]) == AtomApply([], a)
    ensures a.Gap? ==> Apply([], [a]) == Skips(a.n)
    ensures a.Put? ==> Apply([], [a]) == Cells(a.text)
  {
    OneApply([], a);
  }

  /** The elements of an array that is written in one copy. */
  function Elements(v: Var): seq<byte>
    requires !v.Rows? && (v.Flat? ==> v.rowBytes > 0)
  {
    if Count(v) > 0 then Payload(v) else []
  }

  /** The output of the elements of an array at this address. */
  ghost function ElementCells(b: Body, d: Def, at: nat): seq<Cell>
    requires FieldEncodable(b, d) && IsVar(d)
  {
    Apply([], Content(b.vars[d.index], d, true, at))
  }

  /** The address of the elements of field i, from the definitions. */
  function ElementsAt(defs: seq<Def>, texts: seq<nat>, start: nat, i: nat): (at: nat)
    requires i < |defs| && FlatDefs(defs) && IsVar(defs[i])
    ensures start <= at
  {
    var d, at := defs[i], DefsEnd(defs[..i], texts, start);
    PrefixEnd(d, start, at + OemAlignment(d.length, at - start))
  }

  /** The elements of an array, in any form, start where the definitions say, and are zero filled
      to its maximum. */
  lemma FlattenedArrayAt(b: Body, defs: seq<Def>, start: nat, i: nat)
    requires AllEncodable(b, defs) && FlatDefs(defs) && Within(b, defs, start) && i < |defs| && IsVar(defs[i])
    requires Accepted(FieldsScript(b, defs, true, start))
    ensures FieldEncodable(b, defs[i])
    ensures var d, first := defs[i], ElementsAt(defs, TextLengths(b), start, i);
            var elements := ElementCells(b, d, first);
            && |elements| <= MaxBytes(d)
            && HasAt(Apply([], FieldsScript(b, defs, true, start)), first - start, elements + Cells(Repeat(0, MaxBytes(d) - |elements|)))
  {
    hide FieldsScript, DefsEnd, OemAlignment, Apply, MaxBytes, PrefixEnd, Size, FieldScript, ElementCells, HasAt;
    FieldSegment(b, defs, start, i);
    var d, at, first := defs[i], DefsEnd(defs[..i], TextLengths(b), start), ElementsAt(defs, TextLengths(b), start, i);
    ArrayOutput(b, d, start, at);
    var elements := ElementCells(b, d, first);
    HasPart(Apply([], FieldsScript(b, defs, true, start)), at - start, Apply([], FieldScript(b, d, true, start, at)),
            first - at, elements + Cells(Repeat(0, MaxBytes(d) - |elements|)));
  }

  lemma ArrayOutput(b: Body, d: Def, start: nat, at: nat)
    requires FieldEncodable(b, d) && FlatDef(d) && start <= at && IsVar(d)
    requires MaxBytes(d) < 0x8000_0000 && Emitted(b, d, start, at) <= MaxBytes(d)
    requires Accepted(FieldScript(b, d, true, start, at))
    ensures var first := PrefixEnd(d, start, at + OemAlignment(d.length, at - start));
            var elements := ElementCells(b, d, first);
            && |elements| <= MaxBytes(d) && at <= first
            && HasAt(Apply([], FieldScript(b, d, true, start, at)), first - at, elements + Cells(Repeat(0, MaxBytes(d) - |elements|)))
  {
    hide OemAlignment, Apply, MaxBytes, Size, PrefixEnd, VarScript, Content, ElementCells, HasAt, Accepted, Appends, ArrayEncodable;
    var gap, at' := Aligned(d.length, at - start), at + OemAlignment(d.length, at - start);
    var script := VarScript(b, d, true, start, at');
    AcceptedParts(gap, script);
    VarAppends(b, d, true, start, at');
    OutputConcat(gap, script);
    OneOutput(gap[0]);
    VarOutput(b, d, start, at');
    var elements := ElementCells(b, d, PrefixEnd(d, start, at'));
    var cells := elements + Cells(Repeat(0, MaxBytes(d) - |elements|));
    HasBehind(Apply([], gap), Apply([], script), PrefixEnd(d, start, at') - at', cells);
  }

  lemma VarOutput(b: Body, d: Def, start: nat, at: nat)
    requires FieldEncodable(b, d) && FlatDef(d) && start <= at && IsVar(d)
    requires MaxBytes(d) < 0x8000_0000 && Size(Content(b.vars[d.index], d, true, PrefixEnd(d, start, at))) <= MaxBytes(d)
    requires Accepted(VarScript(b, d, true, start, at))
    ensures var first := PrefixEnd(d, start, at);
            var elements := ElementCells(b, d, first);
            && |elements| <= MaxBytes(d) && at <= first
            && HasAt(Apply([], VarScript(b, d, true, start, at)), first - at, elements + Cells(Repeat(0, MaxBytes(d) - |elements|)))
  {
    hide Apply, MaxBytes, Size, PrefixEnd, Prefix, Tail, Appends, Content, HasAt, Accepted, ArrayEncodable;
    var v := b.vars[d.index];
    var prefix := if v.Str? then [] else Prefix(d, Count(v), at - start);
    var first := at + Size(prefix);
    var content := Content(v, d, true, first);
    var tail := Tail(v, d, true, Size(content), first + Size(content));
    AcceptedParts(prefix + content, tail);
    AcceptedParts(prefix, content);
    if v.Str? {
      NoPrefix(d, start, at);
    } else {
      PrefixSize(d, Count(v), start, at);
    }
    VarAppends(b, d, true, start, at);
    AppendsParts(prefix + content, tail);
    AppendsParts(prefix, content);
    OutputConcat(prefix + content, tail);
    OutputConcat(prefix, content);
    TailOutput(v, d, Size(content), first + Size(content));
    Joined(Apply([], prefix), Apply([], content), MaxBytes(d), Apply([], tail));
  }

  /** What the elements are: the bytes stored, or those of the rows one behind the other. */
  lemma ElementCellsAre(b: Body, d: Def, at: nat)
    requires FieldEncodable(b, d) && IsVar(d)
    ensures var v := b.vars[d.index];
            && (!v.Rows? ==> ElementCells(b, d, at) == Cells(Elements(v)))
            && (v.Rows? && (forall i | 0 <= i < |v.rows| :: v.rows[i].vars == []) ==>
                  ElementCells(b, d, at) == Cells(Representation.FixedOf(v.rows)))
  {
    hide Apply, RowsScript, ArrayEncodable, Representation.FixedOf;
    var v := b.vars[d.index];
    if !v.Rows? {
      ContentOutput(v, d, at);
    } else if forall i | 0 <= i < |v.rows| :: v.rows[i].vars == [] {
      FixedRowsOutput(v, d.info.value.fields, at, |v.rows|);
      assert v.rows[..|v.rows|] == v.rows;
    }
  }

  lemma {:induction false} FixedRowsOutput(v: Var, defs: seq<Def>, at: nat, n: nat)
    requires v.Rows? && ArrayEncodable(v, defs) && n <= |v.rows|
    requires forall i | 0 <= i < n :: v.rows[i].vars == []
    ensures Apply([], RowsScript(v, defs, true, at, n)) == Cells(Representation.FixedOf(v.rows[..n]))
    decreases n
  {
    hide Encodable, Apply;
    if n == 0 {
      NoOutput();
    } else {
      FixedRowsOutput(v, defs, at, n - 1);
      var before, row := RowsScript(v, defs, true, at, n - 1), Text(v.rows[n - 1].fixed);
      OutputConcat(before, row);
      OneOutput(row[0]);
      assert v.rows[..n][..n - 1] == v.rows[..n - 1];
      CellsConcat(Representation.FixedOf(v.rows[..n - 1]), v.rows[n - 1].fixed);
    }
  }

  lemma CellsConcat(x: seq<byte>, y: seq<byte>)
    ensures Cells(x + y) == Cells(x) + Cells(y)
  {
  }

  lemma ContentOutput(v: Var, d: Def, at: nat)
    requires IsVar(d) && !v.Rows? && (v.Flat? ==> v.rowBytes > 0)
    ensures Apply([], Content(v, d, true, at)) == Cells(Elements(v))
  {
    hide Joining.Concat;
    if Count(v) > 0 {
      OneOutput(Put(Payload(v), 0));
    }
  }

  lemma TailOutput(v: Var, d: Def, written: nat, at: nat)
    requires written <= MaxBytes(d) < 0x8000_0000
    ensures HasAt(Apply([], Tail(v, d, true, written, at)), 0, Cells(Repeat(0, MaxBytes(d) - written)))
  {
    hide Remaining, MaxBytes, Apply, Size;
    RemainingExact(MaxBytes(d), written);
    var n := MaxBytes(d) - written;
    var fill := Fill(true, MaxBytes(d), written);
    var pad := if v.Str? then Text(Padding(at + Size(fill))) else [];
    OutputConcat(fill, pad);
    if n > 0 {
      OneOutput(Put(Repeat(0, n), 0));
    } else {
      assert Repeat(0, 0) == [];
      NoOutput();
    }
  }

  lemma NoOutput()
    ensures Apply([], []) == []
  {
  }

  lemma Joined(head: seq<Cell>, elements: seq<Cell>, n: nat, tail: seq<Cell>)
    requires |elements| <= n && HasAt(tail, 0, Cells(Repeat(0, n - |elements|)))
    ensures HasAt(head + elements + tail, |head|, elements + Cells(Repeat(0, n - |elements|)))
  {
    var zeros := Cells(Repeat(0, n - |elements|));
    var out := head + elements + tail;
    assert out[|head|..|head| + n] == elements + tail[..n - |elements|];
  }
}
