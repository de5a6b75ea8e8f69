/** What the text encoders write of a value is the conversion of what a caller reads, and of what
    was set before. */
module EncodedValues {
  import opened BitLists
  import opened Writing
  import opened Fields
  import opened Definitions
  import opened Joining
  import opened FieldValues
  import opened CompositeFields
  import opened Layouts
  import BinaryScript
  import JsonScript
  import JsonText
  import AsciiText

  lemma {:induction false} ElementTextAt(convert: (Def, seq<byte>) -> Atom, b: Body, d: Def, n: nat, i: nat)
    requires FieldConforms(b, d) && IsArray(d) && i < n <= ElementCount(b, d)
    ensures Readable(b, d) && Inside(d, Plain(d.valueSize))
    ensures var read := GetFieldValue(b, d, i, Plain(d.valueSize));
            read.Loaded? && ElementTexts(convert, b, d, n)[i] == Converted(convert(d, read.bytes))
    decreases n
  {
    hide FieldConforms, Element, GetFieldValue, Converted;
    ElementIsRead(b, d, i);
    if i < n - 1 {
      ElementTextAt(convert, b, d, n - 1, i);
    }
  }

  /** The token of element i of a comma-separated array, behind the count of a variable one. */
  lemma ArrayTokenAt(f: Formats, b: Body, d: Def, i: nat)
    requires FieldConforms(b, d) && IsArray(d) && d.isCsv && i < Shown(b, d, 0)
    ensures Readable(b, d) && Inside(d, Plain(d.valueSize))
    ensures var read, at := GetFieldValue(b, d, i, Plain(d.valueSize)), if d.fieldType == VARIABLE_LENGTH_ARRAY then i + 1 else i;
            && read.Loaded? && at < |AsciiText.ArrayTokens(f, b, d)|
            && AsciiText.ArrayTokens(f, b, d)[at] == Converted(f.ascii(d, read.bytes))
            && (d.fieldType == VARIABLE_LENGTH_ARRAY ==>
                  AsciiText.ArrayTokens(f, b, d)[0] == f.decimal(|b.vars[d.index].elements|))
  {
    hide FieldConforms, Element, GetFieldValue, Converted, ElementTexts, Shown;
    ElementTextAt(f.ascii, b, d, Shown(b, d, 0), i);
  }

  /** Item i of an array in JSON. */
  lemma JsonItemAt(f: Formats, b: Body, d: Def, i: nat)
    requires FieldConforms(b, d) && JsonScript.JsonDef(d) && IsArray(d) && !d.isString && i < ElementCount(b, d)
    ensures Readable(b, d) && Inside(d, Plain(d.valueSize))
    ensures var read, value := GetFieldValue(b, d, i, Plain(d.valueSize)), JsonText.ValueOf(f, b, d);
            && read.Loaded? && value.Array? && |value.items| == ElementCount(b, d)
            && value.items[i] == JsonText.Raw(Converted(f.json(d, read.bytes)))
  {
    hide FieldConforms, Element, GetFieldValue, Converted, ElementTexts, Shown, JsonScript.JsonDef;
    ShownMeaning(b, d, 0);
    ElementTextAt(f.json, b, d, Shown(b, d, 0), i);
  }

  /** A scalar, in both encodings. */
  lemma ScalarText(f: Formats, b: Body, d: Def)
    requires FieldConforms(b, d) && JsonScript.JsonDef(d) && (d.fieldType == SIMPLE || d.fieldType == ENUM)
    ensures Readable(b, d) && Inside(d, Plain(d.valueSize))
    ensures var read := GetFieldValue(b, d, 0, Plain(d.valueSize));
            && read.Loaded?
            && AsciiText.FieldTokens(f, b, d)
               == [if d.fieldType == ENUM then f.enumerator(d, read.bytes) else Converted(f.ascii(d, read.bytes))]
            && JsonText.ValueOf(f, b, d)
               == JsonText.Raw(if d.fieldType == ENUM then Quote(f.enumerator(d, read.bytes)) else Converted(f.json(d, read.bytes)))
  {
    hide FieldConforms, GetFieldValue, Converted, JsonScript.JsonDef, Scalar;
    ScalarIsRead(b, d, 0);
  }

  /** What the binary encoder copies of a fixed field is what is read from the whole of it. */
  lemma BytesAreRead(b: Body, d: Def)
    requires IsFixed(d) && Readable(b, d)
    ensures BinaryScript.Writable(b, d)
    ensures GetFieldValue(b, d, 0, WholeRequest(d)) == Loaded(BinaryScript.FieldBytes(b, d))
  {
    hide GetFieldValue, WholeRequest;
    WholeReading(b, d);
  }

  /** After element k of a fixed array is set, its text is the conversion of what was set, and the
      others are as before. */
  lemma TextsAfterSet(convert: (Def, seq<byte>) -> Atom, b: Body, d: Def, k: nat, bytes: seq<byte>, i: nat)
    requires FieldConforms(b, d) && d.fieldType == FIXED_LENGTH_ARRAY && k < d.arrayLength && i < d.arrayLength
    requires |bytes| == d.valueSize
    ensures 0 <= k * |bytes| && d.index + k * |bytes| + |bytes| <= |b.fixed|
    ensures FieldConforms(StoreFixed(b, d.index + k * |bytes|, bytes), d)
    ensures ElementTexts(convert, StoreFixed(b, d.index + k * |bytes|, bytes), d, d.arrayLength)[i]
         == if i == k then Converted(convert(d, bytes)) else ElementTexts(convert, b, d, d.arrayLength)[i]
  {
    hide GetFieldValue, StoreFixed, ElementTexts, Converted;
    ConformingIsReadable(b, d);
    ElementReadsBack(b, d, k, bytes, i);
    ElementTextAt(convert, b, d, d.arrayLength, i);
    ElementTextAt(convert, StoreFixed(b, d.index + k * |bytes|, bytes), d, d.arrayLength, i);
  }

  /** The same for a vector. */
  lemma VectorTextsAfterSet(convert: (Def, seq<byte>) -> Atom, b: Body, d: Def, k: nat, bytes: seq<byte>, i: nat)
    requires FieldConforms(b, d) && d.fieldType == VARIABLE_LENGTH_ARRAY && |bytes| == d.valueSize
    requires k < ElementCount(b, d) && i < ElementCount(b, d)
    ensures HasElement(b, d, k, |bytes|) && FieldConforms(StoreElement(b, d, k, bytes), d)
    ensures var after, n := StoreElement(b, d, k, bytes), ElementCount(b, d);
            && ElementCount(after, d) == n
            && ElementTexts(convert, after, d, n)[i]
               == if i == k then Converted(convert(d, bytes)) else ElementTexts(convert, b, d, n)[i]
  {
    hide GetFieldValue, ElementTexts, Converted;
    ConformingIsReadable(b, d);
    VarElementReadsBack(b, d, k, bytes, i);
    ElementTextAt(convert, b, d, ElementCount(b, d), i);
    ElementTextAt(convert, StoreElement(b, d, k, bytes), d, ElementCount(b, d), i);
  }

  /** Of the bytes 1 and 2 in a fixed array, the first element is 1. */
  lemma FirstElementFirst(f: Formats)
    ensures var d := Def([], FIXED_LENGTH_ARRAY, 1, 1, false, false, true, 0, 2, [], 0, 0, None);
            var b := Body([1, 2], []);
            && FieldConforms(b, d)
            && AsciiText.ArrayTokens(f, b, d) == [Converted(f.ascii(d, [1])), Converted(f.ascii(d, [2]))]
  {
    var d := Def([], FIXED_LENGTH_ARRAY, 1, 1, false, false, true, 0, 2, [], 0, 0, None);
    var b := Body([1, 2], []);
    ShownMeaning(b, d, 0);
    ArrayTokenAt(f, b, d, 0);
    ArrayTokenAt(f, b, d, 1);
    assert b.fixed[0..1] == [1] && b.fixed[1..2] == [2];
  }
}
