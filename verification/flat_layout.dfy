/** The layout of a flattened binary log: when it does not depend on the values in it, and when it does. */
module FlatLayout {
  import opened BitLists
  import Hex
  import opened Writing
  import opened Fields
  import Joining
  import opened Definitions
  import opened Alignment
  import opened Layouts
  import opened BinaryScript
  import BinaryEncoder
  import Multiples

  ghost predicate FlatDef(d: Def) {
    && d.length > 0
    && (IsVar(d) && d.arrayLengthRef == [] && d.fieldType != STRING ==> d.arrayLengthFieldSize > 0)
  }

  ghost predicate FlatDefs(defs: seq<Def>) {
    forall i | 0 <= i < |defs| :: FlatDef(defs[i])
  }

  /** The lengths of the texts of a body, by slot: a response is copied as it is. */
  function TextLengths(b: Body): (texts: seq<nat>)
    ensures |texts| == |b.vars| && forall i | 0 <= i < |texts| && b.vars[i].Str? :: texts[i] == |b.vars[i].text|
  {
    seq(|b.vars|, i requires 0 <= i < |b.vars| => if b.vars[i].Str? then |b.vars[i].text| else 0)
  }

  function TextAt(texts: seq<nat>, i: nat): nat {
    if i < |texts| then texts[i] else 0
  }

  ghost predicate SameResponses(texts: seq<nat>, others: seq<nat>, defs: seq<Def>) {
    forall i | 0 <= i < |defs| && defs[i].fieldType == RESPONSE_STR ::
      TextAt(texts, defs[i].index) == TextAt(others, defs[i].index)
  }

  function PrefixEnd(d: Def, start: nat, at: nat): nat
    requires FlatDef(d) && IsVar(d) && start <= at
  {
    if d.fieldType == STRING || d.arrayLengthRef != [] then at
    else at + OemAlignment(d.arrayLengthFieldSize, at - start) + d.arrayLengthFieldSize
  }

  /** The end of a string is moved to the next multiple of four. */
  function Rounded(d: Def, end: nat): (r: nat)
    ensures end <= r
  {
    if d.fieldType == STRING then end + (4 - end % 4) else end
  }

  /** Where a field ends, from its definition and, for a response, the length of its text. */
  function DefEnd(d: Def, texts: seq<nat>, start: nat, at: nat): (end: nat)
    requires FlatDef(d) && start <= at
    ensures at <= end
  {
    var at := at + OemAlignment(d.length, at - start);
    if IsVar(d) then
      Rounded(d, PrefixEnd(d, start, at) + MaxBytes(d))
    else if d.fieldType == RESPONSE_STR then at + TextAt(texts, d.index)
    else at + FixedSize(d)
  }

  function DefsEnd(defs: seq<Def>, texts: seq<nat>, start: nat): (end: nat)
    requires FlatDefs(defs)
    ensures start <= end
  {
    if defs == [] then start else DefEnd(defs[|defs| - 1], texts, start, DefsEnd(defs[..|defs| - 1], texts, start))
  }

  /** The number of bytes that the elements of a variable field at this address take. */
  ghost function Emitted(b: Body, d: Def, start: nat, at: nat): nat
    requires FieldEncodable(b, d) && FlatDef(d) && IsVar(d) && start <= at
  {
    Size(Content(b.vars[d.index], d, true, PrefixEnd(d, start, at + OemAlignment(d.length, at - start))))
  }

  /** No array of the body emits more than its maximum, and maxima are positive 32-bit integers. */
  ghost predicate Within(b: Body, defs: seq<Def>, start: nat)
    requires AllEncodable(b, defs) && FlatDefs(defs)
  {
    forall i | 0 <= i < |defs| && IsVar(defs[i]) ::
      MaxBytes(defs[i]) < 0x8000_0000 && Emitted(b, defs[i], start, DefsEnd(defs[..i], TextLengths(b), start)) <= MaxBytes(defs[i])
  }

  lemma PrefixSize(d: Def, count: nat, start: nat, at: nat)
    requires FlatDef(d) && IsVar(d) && d.fieldType != STRING && start <= at
    requires Accepted(Prefix(d, count, at - start))
    ensures at + Size(Prefix(d, count, at - start)) == PrefixEnd(d, start, at)
  {
    if d.arrayLengthRef == [] {
      var n := d.arrayLengthFieldSize;
      var gap := Aligned(n, at - start);
      var value := if n == 1 || n == 2 || n == 4 then Text(LittleEndianBytes(count, n)) else [Refuse];
      AcceptedParts(gap, value);
      RefuseNotAccepted();
      SizeConcat(gap, value);
      OneSize(gap[0]);
      OneSize(value[0]);
    }
  }

  lemma RemainingExact(maxBytes: nat, written: nat)
    requires written <= maxBytes < 0x8000_0000
    ensures Remaining(maxBytes, written) == maxBytes - written
  {
  }

  lemma FillSize(maxBytes: nat, written: nat)
    ensures Size(Fill(true, maxBytes, written)) == Remaining(maxBytes, written)
  {
    hide Remaining;
    if Remaining(maxBytes, written) > 0 {
      OneSize(Put(Hex.Repeat(0, Remaining(maxBytes, written)), 0));
    }
  }

  lemma TailSize(v: Var, d: Def, written: nat, at: nat)
    requires v.Str? == (d.fieldType == STRING)
    ensures at + Size(Tail(v, d, true, written, at)) == Rounded(d, at + Remaining(MaxBytes(d), written))
  {
    hide Remaining, Fill, MaxBytes, Size;
    var fill := Fill(true, MaxBytes(d), written);
    FillSize(MaxBytes(d), written);
    if v.Str? {
      var pad := Text(Padding(at + Size(fill)));
      SizeConcat(fill, pad);
      OneSize(pad[0]);
    } else {
      assert fill + [] == fill;
    }
  }

  lemma VarEnd(b: Body, d: Def, start: nat, at: nat)
    requires FieldEncodable(b, d) && FlatDef(d) && IsVar(d) && start <= at
    requires Accepted(VarScript(b, d, true, start, at))
    ensures var emitted, end := Size(Content(b.vars[d.index], d, true, PrefixEnd(d, start, at))), PrefixEnd(d, start, at);
            at + Size(VarScript(b, d, true, start, at)) == Rounded(d, end + emitted + Remaining(MaxBytes(d), emitted))
  {
    hide Content, Tail, MaxBytes, Prefix, ArrayEncodable, VecConforms, Accepted, Size, Rounded, PrefixEnd, Remaining;
    var v := b.vars[d.index];
    assert v.Str? <==> d.fieldType == STRING;
    var prefix := if v.Str? then [] else Prefix(d, Count(v), at - start);
    var content := Content(v, d, true, at + Size(prefix));
    var tail := Tail(v, d, true, Size(content), at + Size(prefix) + Size(content));
    AcceptedParts(prefix + content, tail);
    AcceptedParts(prefix, content);
    if v.Str? {
      NoPrefix(d, start, at);
    } else {
      PrefixSize(d, Count(v), start, at);
    }
    SizeConcat(prefix + content, tail);
    SizeConcat(prefix, content);
    TailSize(v, d, Size(content), at + Size(prefix) + Size(content));
  }

  lemma NoPrefix(d: Def, start: nat, at: nat)
    requires FlatDef(d) && d.fieldType == STRING && start <= at
    ensures at + Size([]) == PrefixEnd(d, start, at)
  {
  }

  /** Where the elements of a variable field start. */
  function ElementsStart(d: Def, start: nat, at: nat): (first: nat)
    requires FlatDef(d) && IsVar(d) && start <= at
    ensures at <= first
  {
    PrefixEnd(d, start, at + OemAlignment(d.length, at - start))
  }

  /** A field ends where its definition says; a filled array if and only if it emits no more than
      its maximum.  A variable field always ends behind its elements and what the 32-bit arithmetic
      of the zero fill leaves for them. */
  lemma FieldEndsAt(b: Body, d: Def, start: nat, at: nat)
    requires FieldEncodable(b, d) && FlatDef(d) && start <= at && (IsVar(d) ==> MaxBytes(d) < 0x8000_0000)
    requires Accepted(FieldScript(b, d, true, start, at))
    ensures !IsVar(d) ==> at + Size(FieldScript(b, d, true, start, at)) == DefEnd(d, TextLengths(b), start, at)
    ensures IsVar(d) && Emitted(b, d, start, at) <= MaxBytes(d) ==>
              at + Size(FieldScript(b, d, true, start, at)) == DefEnd(d, TextLengths(b), start, at)
    ensures IsVar(d) && d.fieldType != STRING && Emitted(b, d, start, at) > MaxBytes(d) ==>
              at + Size(FieldScript(b, d, true, start, at)) > DefEnd(d, TextLengths(b), start, at)
    ensures IsVar(d) ==>
              var emitted := Emitted(b, d, start, at);
              at + Size(FieldScript(b, d, true, start, at))
              == Rounded(d, ElementsStart(d, start, at) + emitted + Remaining(MaxBytes(d), emitted))
  {
    hide FieldEncodable, FieldScript, DefEnd, Emitted, MaxBytes, Accepted, FlatDef, Size, Remaining, ElementsStart;
    if IsVar(d) {
      VarFieldEnds(b, d, start, at);
    } else {
      FixedFieldEnds(b, d, start, at);
    }
  }

  lemma FixedFieldEnds(b: Body, d: Def, start: nat, at: nat)
    requires FieldEncodable(b, d) && FlatDef(d) && start <= at && !IsVar(d)
    requires Accepted(FieldScript(b, d, true, start, at))
    ensures at + Size(FieldScript(b, d, true, start, at)) == DefEnd(d, TextLengths(b), start, at)
  {
    hide OemAlignment, Size, Accepted;
    var gap := Aligned(d.length, at - start);
    var value := if FieldBytes(b, d) == [] then [Refuse] else Text(FieldBytes(b, d));
    AcceptedParts(gap, value);
    RefuseNotAccepted();
    SizeConcat(gap, value);
    OneSize(gap[0]);
    OneSize(value[0]);
    assert IsFixed(d) ==> |FieldBytes(b, d)| == FixedSize(d);
  }

  lemma VarFieldEnds(b: Body, d: Def, start: nat, at: nat)
    requires FieldEncodable(b, d) && FlatDef(d) && start <= at && IsVar(d) && MaxBytes(d) < 0x8000_0000
    requires Accepted(FieldScript(b, d, true, start, at))
    ensures Emitted(b, d, start, at) <= MaxBytes(d) ==>
              at + Size(FieldScript(b, d, true, start, at)) == DefEnd(d, TextLengths(b), start, at)
    ensures d.fieldType != STRING && Emitted(b, d, start, at) > MaxBytes(d) ==>
              at + Size(FieldScript(b, d, true, start, at)) > DefEnd(d, TextLengths(b), start, at)
    ensures var emitted := Emitted(b, d, start, at);
            at + Size(FieldScript(b, d, true, start, at))
            == Rounded(d, ElementsStart(d, start, at) + emitted + Remaining(MaxBytes(d), emitted))
  {
    hide VarScript, MaxBytes, Content, PrefixEnd, Size, Accepted, OemAlignment, Remaining;
    var gap := Aligned(d.length, at - start);
    var at' := at + OemAlignment(d.length, at - start);
    OneSize(gap[0]);
    AcceptedParts(gap, VarScript(b, d, true, start, at'));
    SizeConcat(gap, VarScript(b, d, true, start, at'));
    VarEnd(b, d, start, at');
    var emitted := Emitted(b, d, start, at);
    if emitted <= MaxBytes(d) {
      RemainingExact(MaxBytes(d), emitted);
    }
  }

  lemma NothingRemains(maxBytes: nat, written: nat)
    requires maxBytes < written <= maxBytes + 0x8000_0000
    ensures Remaining(maxBytes, written) == 0
  {
    var over := written - maxBytes;
    assert (maxBytes - written) % 0x1_0000_0000 == 0x1_0000_0000 - over;
  }

  /** A field that emits more than its maximum is not filled; a string that does so ends where its
      definition says if and only if the next multiple of four is the same. */
  lemma OverfullEndsAt(b: Body, d: Def, start: nat, at: nat)
    requires FieldEncodable(b, d) && FlatDef(d) && IsVar(d) && start <= at && MaxBytes(d) < 0x8000_0000
    requires Accepted(FieldScript(b, d, true, start, at))
    requires MaxBytes(d) < Emitted(b, d, start, at) <= MaxBytes(d) + 0x8000_0000
    ensures var end, first := at + Size(FieldScript(b, d, true, start, at)), ElementsStart(d, start, at);
            && end == Rounded(d, first + Emitted(b, d, start, at))
            && (end == DefEnd(d, TextLengths(b), start, at) <==>
                  d.fieldType == STRING && (first + Emitted(b, d, start, at)) / 4 == (first + MaxBytes(d)) / 4)
  {
    hide FieldEncodable, FieldScript, Emitted, MaxBytes, Accepted, Size, Remaining, PrefixEnd, OemAlignment;
    FieldEndsAt(b, d, start, at);
    NothingRemains(MaxBytes(d), Emitted(b, d, start, at));
  }

  /** The address of every top-level field of a flattened log follows from the definitions. */
  lemma {:induction false} OffsetsAreFixed(b: Body, defs: seq<Def>, start: nat, i: nat)
    requires AllEncodable(b, defs) && FlatDefs(defs) && Within(b, defs, start) && i <= |defs|
    requires Accepted(FieldsScript(b, defs, true, start))
    ensures AllEncodable(b, defs[..i])
    ensures start + Size(FieldsScript(b, defs[..i], true, start)) == DefsEnd(defs[..i], TextLengths(b), start)
  {
    hide FieldEncodable, FlatDef, FieldScript, DefEnd, Emitted, MaxBytes, IsVar, Accepted, FieldsScript, DefsEnd, TextLengths;
    var rest := BinaryEncoder.FieldsScriptRest(b, defs, true, start, i);
    AcceptedParts(FieldsScript(b, defs[..i], true, start), rest);
    if i == 0 {
      NothingYet(b, defs, start);
    } else {
      var before := FieldsScript(b, defs[..i - 1], true, start);
      OffsetsAreFixed(b, defs, start, i - 1);
      NextEnd(defs, TextLengths(b), start, i - 1);
      BinaryEncoder.FieldsScriptNext(b, defs, true, start, i - 1);
      assert defs[..i][..i - 1] == defs[..i - 1];
      AcceptedParts(before, FieldScript(b, defs[i - 1], true, start, start + Size(before)));
      SizeConcat(before, FieldScript(b, defs[i - 1], true, start, start + Size(before)));
      FieldEndsAt(b, defs[i - 1], start, start + Size(before));
    }
  }

  lemma NothingYet(b: Body, defs: seq<Def>, start: nat)
    requires AllEncodable(b, defs) && FlatDefs(defs)
    ensures AllEncodable(b, defs[..0]) && FlatDefs(defs[..0])
    ensures Size(FieldsScript(b, defs[..0], true, start)) == 0
    ensures DefsEnd(defs[..0], TextLengths(b), start) == start
  {
    hide FieldEncodable, FlatDef;
    assert defs[..0] == [];
  }

  lemma NextEnd(defs: seq<Def>, texts: seq<nat>, start: nat, i: nat)
    requires FlatDefs(defs) && i < |defs|
    ensures FlatDefs(defs[..i]) && FlatDefs(defs[..i + 1]) && FlatDef(defs[i])
    ensures DefsEnd(defs[..i + 1], texts, start) == DefEnd(defs[i], texts, start, DefsEnd(defs[..i], texts, start))
  {
    hide FlatDef, DefEnd;
    assert defs[..i + 1][..i] == defs[..i];
  }

  /** Moving the start of the body by a multiple of four moves every field by as much. */
  lemma {:induction false} EndsModuloFour(defs: seq<Def>, texts: seq<nat>, x: nat, others: seq<nat>, y: nat)
    requires FlatDefs(defs) && SameResponses(texts, others, defs) && x % 4 == y % 4
    ensures DefsEnd(defs, texts, x) - x == DefsEnd(defs, others, y) - y
  {
    hide FlatDef, DefEnd, TextAt;
    if defs != [] {
      var n := |defs| - 1;
      EndsModuloFour(defs[..n], texts, x, others, y);
      EndModuloFour(defs[n], texts, x, DefsEnd(defs[..n], texts, x), others, y, DefsEnd(defs[..n], others, y));
    }
  }

  /** A field ends at the same offset, unless it is a response and the texts differ in length. */
  lemma EndModuloFour(d: Def, texts: seq<nat>, x: nat, at: nat, others: seq<nat>, y: nat, at': nat)
    requires FlatDef(d) && x % 4 == y % 4 && x <= at && y <= at' && at - x == at' - y
    ensures DefEnd(d, texts, x, at) - x == DefEnd(d, others, y, at') - y
       <==> (d.fieldType == RESPONSE_STR ==> TextAt(texts, d.index) == TextAt(others, d.index))
  {
    hide MaxBytes, FixedSize, OemAlignment, TextAt, Rounded, PrefixEnd;
    if IsVar(d) {
      var gap := OemAlignment(d.length, at - x);
      PrefixMoves(d, x, at + gap, y, at' + gap);
      var e, e' := PrefixEnd(d, x, at + gap) + MaxBytes(d), PrefixEnd(d, y, at' + gap) + MaxBytes(d);
      SameRemainder(x, e, y, e');
      RoundedMoves(d, e, e');
    }
  }

  lemma PrefixMoves(d: Def, x: nat, at: nat, y: nat, at': nat)
    requires FlatDef(d) && IsVar(d) && x <= at && y <= at' && at - x == at' - y
    ensures PrefixEnd(d, x, at) - x == PrefixEnd(d, y, at') - y
  {
    hide OemAlignment;
  }

  lemma SameRemainder(x: nat, e: nat, y: nat, e': nat)
    requires x % 4 == y % 4 && e - x == e' - y
    ensures e % 4 == e' % 4
  {
    var q := x / 4 - y / 4;
    assert x - y == 4 * q;
  }

  lemma RoundedMoves(d: Def, e: nat, e': nat)
    requires e % 4 == e' % 4
    ensures Rounded(d, e) - e == Rounded(d, e') - e'
  {
  }

  /** The body has the storage that the message definition gives it. */
  ghost predicate Stored(b: Body, info: Layout) {
    |b.fixed| == info.fixedFieldBytes && |b.vars| == info.varFieldCount
  }

  ghost predicate Flattenable(b: Body, info: Layout, start: nat) {
    && Stored(b, info) && FlatDefs(info.fields) && AllEncodable(b, info.fields)
    && Within(b, info.fields, start)
  }

  /** Two flattened logs of one message that start at the same address modulo four have the same
      length, and each field at the same offset, whatever the values. */
  lemma FlattenedIsDataIndependent(info: Layout, b: Body, x: nat, l: nat, b': Body, y: nat, m: nat, i: nat)
    requires Flattenable(b, info, x) && Flattenable(b', info, y) && x % 4 == y % 4 && i <= |info.fields|
    requires SameResponses(TextLengths(b), TextLengths(b'), info.fields)
    requires Fits(BodyScript(b, info.fields, true, x), l) && Fits(BodyScript(b', info.fields, true, y), m)
    ensures Size(BodyScript(b, info.fields, true, x)) == Size(BodyScript(b', info.fields, true, y))
    ensures AllEncodable(b, info.fields[..i]) && AllEncodable(b', info.fields[..i])
    ensures b.vars != [] ==>
              Size(FieldsScript(b, info.fields[..i], true, x)) == Size(FieldsScript(b', info.fields[..i], true, y))
  {
    hide FieldEncodable, FlatDefs, FieldsScript, Fits, DefsEnd, TextLengths, TextAt;
    var defs := info.fields;
    FitsAccepted(BodyScript(b, defs, true, x), l);
    FitsAccepted(BodyScript(b', defs, true, y), m);
    if b.vars == [] {
      OneSize(Put(b.fixed, 0));
      OneSize(Put(b'.fixed, 0));
    } else {
      EndsOf(b, defs, x, i);
      EndsOf(b', defs, y, i);
      EndsModuloFour(defs[..i], TextLengths(b), x, TextLengths(b'), y);
      EndsModuloFour(defs, TextLengths(b), x, TextLengths(b'), y);
    }
  }

  lemma EndsOf(b: Body, defs: seq<Def>, start: nat, i: nat)
    requires AllEncodable(b, defs) && FlatDefs(defs) && Within(b, defs, start) && i <= |defs|
    requires Accepted(FieldsScript(b, defs, true, start))
    ensures AllEncodable(b, defs[..i]) && FlatDefs(defs[..i])
    ensures start + Size(FieldsScript(b, defs[..i], true, start)) == DefsEnd(defs[..i], TextLengths(b), start)
    ensures start + Size(FieldsScript(b, defs, true, start)) == DefsEnd(defs, TextLengths(b), start)
  {
    hide FieldEncodable, FlatDef, FieldsScript, DefsEnd, Within;
    OffsetsAreFixed(b, defs, start, i);
    OffsetsAreFixed(b, defs, start, |defs|);
    assert defs[..|defs|] == defs;
  }

  // ---------------------------------------------------------------- where the data does matter

  /** With the responses before it alike, what follows a response moves if and only if its texts
      differ in length. */
  lemma ResponseMovesFields(defs: seq<Def>, b: Body, x: nat, b': Body, y: nat, i: nat)
    requires AllEncodable(b, defs) && AllEncodable(b', defs) && FlatDefs(defs) && x % 4 == y % 4
    requires Within(b, defs, x) && Within(b', defs, y)
    requires Accepted(FieldsScript(b, defs, true, x)) && Accepted(FieldsScript(b', defs, true, y))
    requires i < |defs| && defs[i].fieldType == RESPONSE_STR
    requires SameResponses(TextLengths(b), TextLengths(b'), defs[..i])
    ensures AllEncodable(b, defs[..i + 1]) && AllEncodable(b', defs[..i + 1])
    ensures FieldEncodable(b, defs[i]) && FieldEncodable(b', defs[i])
    ensures Size(FieldsScript(b, defs[..i + 1], true, x)) == Size(FieldsScript(b', defs[..i + 1], true, y))
       <==> |b.vars[defs[i].index].text| == |b'.vars[defs[i].index].text|
  {
    hide FlatDef, FieldsScript, DefEnd, Within, Size;
    EndsOf(b, defs, x, i + 1);
    EndsOf(b', defs, y, i + 1);
    var texts, others := TextLengths(b), TextLengths(b');
    EndsModuloFour(defs[..i], texts, x, others, y);
    EndModuloFour(defs[i], texts, x, DefsEnd(defs[..i], texts, x), others, y, DefsEnd(defs[..i], others, y));
    assert defs[..i + 1][..i] == defs[..i];
    assert FieldEncodable(b, defs[i]) && FieldEncodable(b', defs[i]);
  }

  /** A response, and a 32-bit word behind it. */
  function ResponseAndWord(): seq<Def> {
    [SampleDef(RESPONSE_STR, 1, 0), SampleDef(SIMPLE, 4, 0)]
  }

  /** Two such bodies: with a text of one character the word is at offset 4, and with one of five at
      offset 8. */
  lemma ResponseMovesWord(word: seq<byte>, one: seq<byte>, five: seq<byte>)
    requires |word| == 4 && |one| == 1 && |five| == 5
    ensures var b, b', defs := Body(word, [Str(one)]), Body(word, [Str(five)]), ResponseAndWord();
            && Encodable(b, defs) && Encodable(b', defs)
            && Size(BodyScript(b, defs, true, 0)) == 8 && Size(BodyScript(b', defs, true, 0)) == 12
  {
    ResponseLog(word, one);
    ResponseLog(word, five);
  }

  lemma ResponseLog(word: seq<byte>, text: seq<byte>)
    requires |word| == 4 && (|text| == 1 || |text| == 5)
    ensures var b, defs := Body(word, [Str(text)]), ResponseAndWord();
            Encodable(b, defs) && Size(BodyScript(b, defs, true, 0)) == |text| + 7
  {
    hide Size, FieldScript, FieldEncodable;
    var b, defs := Body(word, [Str(text)]), ResponseAndWord();
    ResponseSteps(word, text);
    assert AllEncodable(b, defs);
    assert defs[..1] == [defs[0]];
    LastFieldScript(b, defs, 0);
    OnlyField(b, defs[0]);
    var first, second := FieldScript(b, defs[0], true, 0, 0), FieldScript(b, defs[1], true, 0, |text|);
    TwoAtoms(first);
    TwoAtoms(second);
    SizeConcat(first, second);
  }

  lemma ResponseSteps(word: seq<byte>, text: seq<byte>)
    requires |word| == 4 && (|text| == 1 || |text| == 5)
    ensures var b, defs := Body(word, [Str(text)]), ResponseAndWord();
            && FieldEncodable(b, defs[0]) && FieldScript(b, defs[0], true, 0, 0) == [Gap(0), Put(text, 0)]
            && FieldEncodable(b, defs[1]) && FieldScript(b, defs[1], true, 0, |text|) == [Gap(3), Put(word, 0)]
  {
    hide FieldScript, FieldEncodable, FieldBytes, Writable, OemAlignment;
    var b, defs := Body(word, [Str(text)]), ResponseAndWord();
    ResponseBytes(word, text);
    WordBytes(word, text);
    CopiedScript(b, defs[0], 0, text);
    CopiedScript(b, defs[1], |text|, word);
  }

  lemma ResponseBytes(word: seq<byte>, text: seq<byte>)
    ensures var b, d := Body(word, [Str(text)]), ResponseAndWord()[0];
            Writable(b, d) && FieldBytes(b, d) == text && OemAlignment(d.length, 0) == 0
  {
  }

  lemma WordBytes(word: seq<byte>, text: seq<byte>)
    requires |word| == 4
    ensures var b, d := Body(word, [Str(text)]), ResponseAndWord()[1];
            Writable(b, d) && FieldBytes(b, d) == word && OemAlignment(d.length, 1) == OemAlignment(d.length, 5) == 3
  {
    assert word[0..4] == word;
  }

  /** A field that is copied as it is. */
  lemma CopiedScript(b: Body, d: Def, at: nat, bytes: seq<byte>)
    requires !IsVar(d) && d.length > 0 && Writable(b, d) && FieldBytes(b, d) == bytes != []
    requires d.fieldType == RESPONSE_STR ==> b.vars[d.index].Str?
    ensures FieldEncodable(b, d) && FieldScript(b, d, true, 0, at) == [Gap(OemAlignment(d.length, at)), Put(bytes, 0)]
  {
    hide OemAlignment;
  }

  lemma TwoAtoms(s: Script)
    requires |s| == 2
    ensures Size(s) == AtomSize(s[0]) + AtomSize(s[1])
  {
    assert s == [s[0]] + [s[1]];
    SizeConcat([s[0]], [s[1]]);
    OneSize(s[0]);
    OneSize(s[1]);
  }

  /** A log whose last array emits more than its maximum is longer than one that stays within. */
  lemma OverfullLogIsLonger(info: Layout, b: Body, x: nat, b': Body, y: nat)
    requires Stored(b, info) && b.vars != [] && info.fields != [] && AllEncodable(b, info.fields) && FlatDefs(info.fields)
    requires var n, d := |info.fields| - 1, info.fields[|info.fields| - 1];
             && Within(b, info.fields[..n], x) && IsVar(d) && d.fieldType != STRING && MaxBytes(d) < 0x8000_0000
             && Emitted(b, d, x, DefsEnd(info.fields[..n], TextLengths(b), x)) > MaxBytes(d)
    requires Flattenable(b', info, y) && x % 4 == y % 4 && SameResponses(TextLengths(b), TextLengths(b'), info.fields)
    requires Accepted(BodyScript(b, info.fields, true, x)) && Accepted(BodyScript(b', info.fields, true, y))
    ensures Size(BodyScript(b, info.fields, true, x)) > Size(BodyScript(b', info.fields, true, y))
  {
    hide FieldEncodable, FlatDefs, FieldsScript, FieldScript, DefsEnd, DefEnd, TextLengths, TextAt, Emitted, MaxBytes, Size,
         Accepted, IsVar;
    var defs, n := info.fields, |info.fields| - 1;
    var texts, others := TextLengths(b), TextLengths(b');
    EndsOf(b', defs, y, n);
    LastFieldScript(b, defs, x);
    var before, at := FieldsScript(b, defs[..n], true, x), DefsEnd(defs[..n], texts, x);
    AcceptedParts(before, FieldScript(b, defs[n], true, x, x + Size(before)));
    FirstDefs(defs, n);
    EndsOf(b, defs[..n], x, n);
    SizeConcat(before, FieldScript(b, defs[n], true, x, at));
    OneDef(defs, n);
    FieldEndsAt(b, defs[n], x, at);
    EndsModuloFour(defs, texts, x, others, y);
    LastEnd(defs, texts, x);
  }

  lemma FirstDefs(defs: seq<Def>, n: nat)
    requires FlatDefs(defs) && n <= |defs|
    ensures FlatDefs(defs[..n])
  {
  }

  lemma OneDef(defs: seq<Def>, i: nat)
    requires FlatDefs(defs) && i < |defs|
    ensures FlatDef(defs[i])
  {
  }

  lemma LastEnd(defs: seq<Def>, texts: seq<nat>, start: nat)
    requires FlatDefs(defs) && defs != []
    ensures var n := |defs| - 1;
            DefsEnd(defs, texts, start) == DefEnd(defs[n], texts, start, DefsEnd(defs[..n], texts, start))
  {
  }

  lemma LastFieldScript(b: Body, defs: seq<Def>, start: nat)
    requires AllEncodable(b, defs) && defs != []
    ensures var n := |defs| - 1;
            && AllEncodable(b, defs[..n]) && FieldEncodable(b, defs[n])
            && var before := FieldsScript(b, defs[..n], true, start);
               FieldsScript(b, defs, true, start) == before + FieldScript(b, defs[n], true, start, start + Size(before))
  {
    hide FieldEncodable, FieldScript, Size;
  }

  // ---------------------------------------------------------------- which arrays stay within

  lemma SimpleContentSize(b: Body, d: Def, flatten: bool, at: nat)
    requires FieldEncodable(b, d) && IsVar(d) && d.fieldType != FIELD_ARRAY
    ensures Size(Content(b.vars[d.index], d, flatten, at)) == Count(b.vars[d.index]) * (if d.fieldType == STRING then 1 else d.valueSize)
  {
    hide Joining.Concat;
    var v := b.vars[d.index];
    if Count(v) > 0 {
      OneSize(Put(Payload(v), 0));
    }
    if v.Vec? {
      Joining.ConcatSize(v.elements, d.valueSize);
    }
  }

  /** Strings and arrays of values with the size they have in the log stay within their maximum
      exactly when they have no more elements than the definition allows. */
  lemma SimpleArraysStayWithin(b: Body, d: Def, start: nat, at: nat)
    requires FieldEncodable(b, d) && FlatDef(d) && IsVar(d) && d.fieldType != FIELD_ARRAY && start <= at
    requires d.arrayLength * d.length < 0x1_0000_0000 && d.length == (if d.fieldType == STRING then 1 else d.valueSize)
    ensures Emitted(b, d, start, at) <= MaxBytes(d) <==> Count(b.vars[d.index]) <= d.arrayLength
  {
    hide FieldEncodable, Emitted;
    var count := EmittedSimple(b, d, start, at);
    Multiples.Scaled(count, d.arrayLength, d.length);
  }

  lemma EmittedSimple(b: Body, d: Def, start: nat, at: nat) returns (count: nat)
    requires FieldEncodable(b, d) && FlatDef(d) && IsVar(d) && d.fieldType != FIELD_ARRAY && start <= at
    ensures count == Count(b.vars[d.index])
    ensures Emitted(b, d, start, at) == count * (if d.fieldType == STRING then 1 else d.valueSize)
  {
    hide Content, PrefixEnd, OemAlignment;
    SimpleContentSize(b, d, true, PrefixEnd(d, start, at + OemAlignment(d.length, at - start)));
    count := Count(b.vars[d.index]);
  }

  /** A FIELD_ARRAY of fixed rows as the database reads it. */
  ghost predicate FixedRows(d: Def) {
    && d.fieldType == FIELD_ARRAY && d.info.Some?
    && Laid(d.info.value) && AllFixed(d.info.value.fields) && d.info.value.fixedFieldBytes > 0
    && d.fieldSize == d.arrayLength * PackedSize(d.info.value.fields)
  }

  /** The array holds n rows of this many bytes and without variable fields, in either form. */
  ghost predicate HoldsRows(v: Var, size: nat, n: nat) {
    if v.Flat? then v.rowBytes == size && |v.bytes| == n * size
    else v.Rows? && |v.rows| == n && forall i | 0 <= i < n :: |v.rows[i].fixed| == size && v.rows[i].vars == []
  }

  lemma {:induction false} RowsSize(v: Var, defs: seq<Def>, at: nat, n: nat, size: nat)
    requires v.Rows? && ArrayEncodable(v, defs) && n <= |v.rows|
    requires forall i | 0 <= i < n :: |v.rows[i].fixed| == size && v.rows[i].vars == []
    ensures Size(RowsScript(v, defs, true, at, n)) == n * size
    decreases n
  {
    hide ArrayEncodable, RowsScript, Size;
    NextRow(v, defs, at, n);
    if n > 0 {
      RowsSize(v, defs, at, n - 1, size);
      var before, row := RowsScript(v, defs, true, at, n - 1), Text(v.rows[n - 1].fixed);
      SizeConcat(before, row);
      OneSize(row[0]);
      Multiples.NextMultiple(n - 1, size);
    }
  }

  lemma NextRow(v: Var, defs: seq<Def>, at: nat, n: nat)
    requires v.Rows? && ArrayEncodable(v, defs) && n <= |v.rows|
    ensures n == 0 ==> Size(RowsScript(v, defs, true, at, n)) == 0
    ensures n > 0 && v.rows[n - 1].vars == [] ==>
              RowsScript(v, defs, true, at, n) == RowsScript(v, defs, true, at, n - 1) + Text(v.rows[n - 1].fixed)
  {
    hide FieldsScript;
  }

  lemma ContentOfRows(v: Var, d: Def, at: nat, size: nat, n: nat)
    requires d.fieldType == FIELD_ARRAY && d.info.Some? && ArrayEncodable(v, d.info.value.fields)
    requires HoldsRows(v, size, n) && size > 0
    ensures Size(Content(v, d, true, at)) == n * size && Count(v) == n
  {
    hide ArrayEncodable, RowsScript;
    Multiples.Quotient(n, size);
    if v.Rows? {
      RowsSize(v, d.info.value.fields, at, n, size);
    } else if n > 0 {
      OneSize(Put(v.bytes, 0));
    } else {
      assert |v.bytes| == 0;
    }
  }

  /** n rows with their gaps take no more than the maximum, which leaves gaps out. */
  ghost predicate RowsFit(d: Def, n: nat)
    requires FixedRows(d)
  {
    n * d.info.value.fixedFieldBytes <= MaxBytes(d)
  }

  /** A FIELD_ARRAY with n rows emits them all, and stays within its maximum when they fit. */
  lemma RowsStayWithin(b: Body, d: Def, start: nat, at: nat, n: nat)
    requires FieldEncodable(b, d) && FlatDef(d) && FixedRows(d) && start <= at
    requires HoldsRows(b.vars[d.index], d.info.value.fixedFieldBytes, n)
    ensures Emitted(b, d, start, at) == n * d.info.value.fixedFieldBytes && Count(b.vars[d.index]) == n
    ensures Emitted(b, d, start, at) <= MaxBytes(d) <==> RowsFit(d, n)
  {
    hide FlatDef, PrefixEnd, Laid, PackedSize, ArrayEncodable, HoldsRows, Content, OemAlignment, MaxBytes;
    var v := b.vars[d.index];
    ContentOfRows(v, d, PrefixEnd(d, start, at + OemAlignment(d.length, at - start)), d.info.value.fixedFieldBytes, n);
  }

  /** Which numbers of rows fit: without gaps those that the definition allows; and all that it
      allows if and only if the rows have no gap. */
  lemma RowCountsThatFit(d: Def)
    requires FixedRows(d)
    ensures GapBytes(d.info.value.fields) == 0 ==> forall n: nat :: RowsFit(d, n) <==> n <= d.arrayLength
    ensures (forall n: nat | n <= d.arrayLength :: RowsFit(d, n))
       <==> d.arrayLength == 0 || GapBytes(d.info.value.fields) == 0
  {
    hide FixedRows, RowsFit, GapBytes;
    var size, packed := RowBytes(d);
    if size == packed {
      forall n: nat
        ensures RowsFit(d, n) <==> n <= d.arrayLength
      {
        Multiples.Scaled(n, d.arrayLength, size);
      }
    } else if d.arrayLength > 0 {
      Multiples.Scaled(size, packed, d.arrayLength);
      assert !RowsFit(d, d.arrayLength);
    } else {
      assert RowsFit(d, 0);
    }
  }

  /** The bytes of a row, with and without its gaps. */
  lemma RowBytes(d: Def) returns (size: nat, packed: nat)
    requires FixedRows(d)
    ensures d.info.Some? && Sized(d.info.value.fields) && size == d.info.value.fixedFieldBytes
    ensures 0 < size == packed + GapBytes(d.info.value.fields)
    ensures forall n: nat :: RowsFit(d, n) <==> n * size <= d.arrayLength * packed
  {
    var info := d.info.value;
    PackedLacksGaps(info.fields);
    size, packed := info.fixedFieldBytes, PackedSize(info.fields);
  }

  /** A full array stays within its maximum if and only if its rows have no gap. */
  lemma FullArrayStaysWithin(b: Body, d: Def, start: nat, at: nat)
    requires FieldEncodable(b, d) && FlatDef(d) && FixedRows(d) && start <= at
    requires HoldsRows(b.vars[d.index], d.info.value.fixedFieldBytes, d.arrayLength) && d.arrayLength > 0
    ensures Emitted(b, d, start, at) <= MaxBytes(d) <==> GapBytes(d.info.value.fields) == 0
  {
    hide FieldEncodable, FlatDef, HoldsRows, FixedRows, RowsFit, Emitted, MaxBytes;
    var size, packed := RowBytes(d);
    RowsStayWithin(b, d, start, at, d.arrayLength);
    Multiples.Scaled(size, packed, d.arrayLength);
  }

  /** So with gaps, a log with the array full is longer than the definitions say. */
  lemma GapsMakeLogsLonger(b: Body, d: Def, start: nat, at: nat)
    requires FieldEncodable(b, d) && FlatDef(d) && FixedRows(d) && start <= at && MaxBytes(d) < 0x8000_0000
    requires HoldsRows(b.vars[d.index], d.info.value.fixedFieldBytes, d.arrayLength) && d.arrayLength > 0
    requires GapBytes(d.info.value.fields) > 0
    requires Accepted(FieldScript(b, d, true, start, at))
    ensures at + Size(FieldScript(b, d, true, start, at)) > DefEnd(d, TextLengths(b), start, at)
  {
    hide FieldScript, DefEnd, Emitted, MaxBytes, HoldsRows, FlatDef, FieldEncodable;
    FullArrayStaysWithin(b, d, start, at);
    FieldEndsAt(b, d, start, at);
  }

  /** The stored variable field is one whose length in the log its element count gives. */
  ghost predicate Countable(b: Body, d: Def)
    requires FieldEncodable(b, d) && IsVar(d)
  {
    var v := b.vars[d.index];
    MaxBytes(d) < 0x8000_0000 &&
    if d.fieldType == FIELD_ARRAY then FixedRows(d) && HoldsRows(v, d.info.value.fixedFieldBytes, Count(v))
    else d.length == (if v.Str? then 1 else d.valueSize) && d.arrayLength * d.length < 0x1_0000_0000
  }

  ghost predicate CountFits(b: Body, d: Def)
    requires FieldEncodable(b, d) && IsVar(d) && Countable(b, d)
  {
    if d.fieldType == FIELD_ARRAY then RowsFit(d, Count(b.vars[d.index])) else Count(b.vars[d.index]) <= d.arrayLength
  }

  /** So a flattened body has its defined layout just when the count of each variable field fits. */
  lemma WithinMeansCountsFit(b: Body, defs: seq<Def>, start: nat)
    requires AllEncodable(b, defs) && FlatDefs(defs)
    requires forall i | 0 <= i < |defs| && IsVar(defs[i]) :: FieldEncodable(b, defs[i]) && Countable(b, defs[i])
    ensures Within(b, defs, start) <==> forall i | 0 <= i < |defs| && IsVar(defs[i]) :: CountFits(b, defs[i])
  {
    hide FieldEncodable, FlatDef, Countable, CountFits, MaxBytes, Emitted, IsVar;
    forall i | 0 <= i < |defs| && IsVar(defs[i])
      ensures MaxBytes(defs[i]) < 0x8000_0000
      ensures Emitted(b, defs[i], start, DefsEnd(defs[..i], TextLengths(b), start)) <= MaxBytes(defs[i]) <==> CountFits(b, defs[i])
    {
      FieldWithinMeansCountFits(b, defs[i], start, DefsEnd(defs[..i], TextLengths(b), start));
    }
  }

  lemma FieldWithinMeansCountFits(b: Body, d: Def, start: nat, at: nat)
    requires FieldEncodable(b, d) && FlatDef(d) && IsVar(d) && Countable(b, d) && start <= at
    ensures MaxBytes(d) < 0x8000_0000 && (Emitted(b, d, start, at) <= MaxBytes(d) <==> CountFits(b, d))
  {
    hide FieldEncodable, FlatDef, MaxBytes, Emitted, HoldsRows, FixedRows, RowsFit;
    HasSlot(b, d);
    if d.fieldType == FIELD_ARRAY {
      RowsStayWithin(b, d, start, at, Count(b.vars[d.index]));
    } else {
      SimpleArraysStayWithin(b, d, start, at);
    }
  }

  lemma HasSlot(b: Body, d: Def)
    requires FieldEncodable(b, d) && IsVar(d)
    ensures d.index < |b.vars| && (b.vars[d.index].Flat? ==> b.vars[d.index].rowBytes > 0)
    ensures b.vars[d.index].Str? <==> d.fieldType == STRING
  {
  }

  // ---------------------------------------------------------------- two logs of one message

  /** A row of one byte and one 32-bit word: three bytes of gap, a packed size of five. */
  function SampleRow(): Layout {
    Layout(8, 0, [SampleDef(SIMPLE, 1, 0), SampleDef(SIMPLE, 4, 4)])
  }

  function SampleDef(fieldType: FieldType, length: nat, index: nat): Def {
    Def([], fieldType, length, length, false, false, false, index, 0, [], 0, 0, None)
  }

  /** An array of at most one such row, behind a 32-bit count. */
  function SampleArray(): Def {
    SampleDef(FIELD_ARRAY, 4, 0).(arrayLength := 1, arrayLengthFieldSize := 4, fieldSize := 5, info := Some(SampleRow()))
  }

  lemma SampleRowHasGap()
    ensures FixedRows(SampleArray()) && GapBytes(SampleRow().fields) == 3
  {
    var fields := SampleRow().fields;
    assert fields[..1] == [SampleDef(SIMPLE, 1, 0)] && fields[..0] == [];
    assert fields[..1][..0] == [];
    assert FixedEnd(fields[..1]) == 1 && FixedEnd(fields) == 8;
    assert IndexAt(fields, 0) && IndexAt(fields, 1);
    assert PackedSize(fields) == PackedSize(fields[..1]) + 4;
    assert PackedSize(fields[..1]) == 1;
  }

  /** A message of this array alone: its log has 12 bytes with the row, and 9 without. */
  lemma SampleLogsDiffer(row: seq<byte>)
    requires |row| == 8
    ensures var full, none, defs := Body([], [Flat(row, 8)]), Body([], [Flat([], 8)]), [SampleArray()];
            && Encodable(full, defs) && Encodable(none, defs)
            && Fits(BodyScript(full, defs, true, 0), 12) && Size(BodyScript(full, defs, true, 0)) == 12
            && Fits(BodyScript(none, defs, true, 0), 9) && Size(BodyScript(none, defs, true, 0)) == 9
  {
    SampleLog(row, 1);
    SampleLog([], 0);
  }

  lemma SampleLog(bytes: seq<byte>, n: nat)
    requires n <= 1 && |bytes| == n * 8
    ensures var b, defs, size := Body([], [Flat(bytes, 8)]), [SampleArray()], 9 + 3 * n;
            && Encodable(b, defs)
            && Fits(BodyScript(b, defs, true, 0), size) && Size(BodyScript(b, defs, true, 0)) == size
  {
    hide Size, Fits, LittleEndianBytes, Hex.Repeat, BodyScript, FieldEncodable, Prefix, Content, Tail;
    var b, d := Body([], [Flat(bytes, 8)]), SampleArray();
    SampleEncodable(bytes);
    OnlyField(b, d);
    SamplePrefix(n);
    var size := Put(LittleEndianBytes(n, 4), 0);
    var rest := if n == 0 then Put(Hex.Repeat(0, 5), 0) else Put(bytes, 0);
    SampleRest(bytes, n);
    var script := [Gap(0), Gap(0), size, rest];
    SampleSizes(n);
    var v, prefix, content := b.vars[0], Prefix(d, n, 0), Content(b.vars[0], d, true, 4);
    var tail := Tail(v, d, true, Size(content), 4 + Size(content));
    assert VarScript(b, d, true, 0, 0) == prefix + content + tail == prefix + (content + tail);
    assert FieldScript(b, d, true, 0, 0) == script;
    SampleSize(size, rest);
  }

  lemma SampleEncodable(bytes: seq<byte>)
    ensures FieldEncodable(Body([], [Flat(bytes, 8)]), SampleArray())
  {
  }

  lemma OnlyField(b: Body, d: Def)
    requires FieldEncodable(b, d) && b.vars != []
    ensures Encodable(b, [d]) && BodyScript(b, [d], true, 0) == FieldScript(b, d, true, 0, 0)
  {
    hide FieldEncodable, FieldScript;
    LastFieldScript(b, [d], 0);
    var before := FieldsScript(b, [d][..0], true, 0);
    assert [d][..0] == [] && before == [];
    assert [] + FieldScript(b, d, true, 0, 0) == FieldScript(b, d, true, 0, 0);
  }

  lemma SampleSizes(n: nat)
    ensures Size([]) == 0 && Size([Gap(0), Put(LittleEndianBytes(n, 4), 0)]) == 4
  {
    SizeConcat([Gap(0)], [Put(LittleEndianBytes(n, 4), 0)]);
    OneSize(Gap(0));
    OneSize(Put(LittleEndianBytes(n, 4), 0));
  }

  lemma SamplePrefix(n: nat)
    ensures Prefix(SampleArray(), n, 0) == [Gap(0), Put(LittleEndianBytes(n, 4), 0)]
  {
  }

  lemma SampleRest(bytes: seq<byte>, n: nat)
    requires n <= 1 && |bytes| == n * 8
    ensures var v, d := Flat(bytes, 8), SampleArray();
            && Count(v) == n
            && Content(v, d, true, 4) + Tail(v, d, true, Size(Content(v, d, true, 4)), 4 + Size(Content(v, d, true, 4)))
               == [if n == 0 then Put(Hex.Repeat(0, 5), 0) else Put(bytes, 0)]
  {
    OneSize(Put(bytes, 0));
    assert Remaining(5, 8) == 0 && Remaining(5, 0) == 5;
  }

  lemma SampleSize(count: Atom, rest: Atom)
    requires count.Put? && count.slack == 0 && |count.text| == 4 && rest.Put? && rest.slack == 0
    ensures var script := [Gap(0), Gap(0), count, rest];
            Size(script) == 4 + |rest.text| && Fits(script, 4 + |rest.text|)
  {
    hide Size, Fits;
    var gap := [Gap(0)];
    assert gap + gap + [count] + [rest] == [Gap(0), Gap(0), count, rest];
    SizeConcat(gap, gap);
    SizeConcat(gap + gap, [count]);
    SizeConcat(gap + gap + [count], [rest]);
    OneSize(Gap(0));
    OneSize(count);
    OneSize(rest);
    PlainFits([Gap(0), Gap(0), count, rest], 4 + |rest.text|);
  }
}
