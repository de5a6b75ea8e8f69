/** Field definitions and message bodies as the encoders and readers see them. */
module Fields {
  import opened BitLists
  import opened Writing
  import opened Definitions
  import Multiples

  datatype FieldType =
    | SIMPLE | ENUM | RESPONSE_ID | RESPONSE_STR | FIXED_LENGTH_ARRAY | VARIABLE_LENGTH_ARRAY | STRING | FIELD_ARRAY

  /** A field definition: `length` is the size of one element in a log, `valueSize` that of the C++
      type it is read and stored as (1 for a BOOL, whose length is 4, and `length` otherwise), and
      `index` its byte offset in the fixed region or its position among the variable fields. */
  datatype Def = Def(name: seq<byte>, fieldType: FieldType, length: nat, valueSize: nat,
                     isChar: bool, isString: bool, isCsv: bool, index: nat,
                     arrayLength: nat, arrayLengthRef: seq<byte>, arrayLengthFieldSize: nat,
                     fieldSize: nat, info: Option<Layout>)

  /** FieldInfo */
  datatype Layout = Layout(fixedFieldBytes: nat, varFieldCount: nat, fields: seq<Def>)

  /** CompositeField */
  datatype Body = Body(fixed: seq<byte>, vars: seq<Var>)

  /** The payloads of variable fields; a flat array carries the row size of its own FieldInfo. */
  datatype Var =
    | Str(text: seq<byte>)
    | Vec(elementSize: nat, elements: seq<seq<byte>>)
    | Flat(bytes: seq<byte>, rowBytes: nat)
    | Rows(rows: seq<Body>)

  function RowCount(v: Var): nat
    requires v.Rows? || (v.Flat? && v.rowBytes > 0)
  {
    if v.Rows? then |v.rows| else |v.bytes| / v.rowBytes
  }

  lemma RowInBounds(bytes: seq<byte>, size: nat, row: nat)
    requires size > 0 && row < |bytes| / size
    ensures (row + 1) * size <= |bytes| && row * size + size == (row + 1) * size
  {
    var count := |bytes| / size;
    assert |bytes| == count * size + |bytes| % size;
    Multiples.Ordered(row + 1, count, size);
    Multiples.NextMultiple(row, size);
  }

  /** ViewFixedFields over row i of a flat array: the row's bytes and no variable fields. */
  function FlatRow(bytes: seq<byte>, size: nat, row: nat): (b: Body)
    requires size > 0 && row < |bytes| / size
    ensures |b.fixed| == size && b.vars == []
  {
    RowInBounds(bytes, size, row);
    Body(bytes[row * size..row * size + size], [])
  }

  /** The body that the encoders see for row i of a field array. */
  function RowBody(v: Var, row: nat): Body
    requires v.Rows? || (v.Flat? && v.rowBytes > 0)
    requires row < RowCount(v)
  {
    if v.Rows? then v.rows[row] else FlatRow(v.bytes, v.rowBytes, row)
  }

  /** The body fits the definitions: the conditions under which the source does not throw or
      read outside its storage.  A missing variable field or missing field array metadata is
      not excluded, because the encoders return false for it. */
  ghost predicate Conforms(b: Body, defs: seq<Def>)
    decreases defs, 0
  {
    forall i | 0 <= i < |defs| :: FieldConforms(b, defs[i])
  }

  /** Every row of the field array fits the definitions. */
  ghost predicate RowsConform(v: Var, defs: seq<Def>)
    decreases defs, 1
  {
    (v.Rows? || (v.Flat? && v.rowBytes > 0)) && forall i | 0 <= i < RowCount(v) :: Conforms(RowBody(v, i), defs)
  }

  ghost predicate FieldConforms(b: Body, d: Def)
    decreases d, 0
  {
    d.valueSize <= d.length && match d.fieldType
    case SIMPLE => d.index + d.length <= |b.fixed|
    case ENUM => d.index + d.length <= |b.fixed|
    case RESPONSE_ID => d.index + d.length <= |b.fixed|
    case FIXED_LENGTH_ARRAY => d.index + d.arrayLength * d.length <= |b.fixed|
    case VARIABLE_LENGTH_ARRAY => d.index < |b.vars| && b.vars[d.index].Vec? && VecConforms(b.vars[d.index], d)
    case STRING => d.index < |b.vars| && b.vars[d.index].Str?
    case RESPONSE_STR => d.index < |b.vars| && b.vars[d.index].Str?
    case FIELD_ARRAY =>
      d.info.Some? && d.index < |b.vars| ==>
        var v := b.vars[d.index];
        (v.Rows? || (v.Flat? && v.rowBytes == d.info.value.fixedFieldBytes > 0)) && RowsConform(v, d.info.value.fields)
  }

  ghost predicate VecConforms(v: Var, d: Def)
    requires v.Vec?
  {
    v.elementSize == d.valueSize && forall i | 0 <= i < |v.elements| :: |v.elements[i]| == v.elementSize
  }

  /** Elements are stored back to back by the size of their C++ type. */
  lemma ElementInBounds(index: nat, i: nat, n: nat, stride: nat, length: nat, size: nat)
    requires i < n && stride <= length && index + n * length <= size
    ensures index + i * stride + stride <= size && 0 <= i * stride
  {
    assert (i + 1) * stride <= n * stride <= n * length;
  }

  predicate IsArray(d: Def) {
    d.fieldType == FIXED_LENGTH_ARRAY || d.fieldType == VARIABLE_LENGTH_ARRAY
  }

  /** The number of elements of an array field. */
  function ElementCount(b: Body, d: Def): nat
    requires FieldConforms(b, d) && IsArray(d)
  {
    if d.fieldType == FIXED_LENGTH_ARRAY then d.arrayLength else |b.vars[d.index].elements|
  }

  /** The bytes of element i: GetFieldValue(field, i) before interpretation as a type. */
  function Element(b: Body, d: Def, i: nat): seq<byte>
    requires FieldConforms(b, d) && IsArray(d)
    requires i < ElementCount(b, d)
  {
    if d.fieldType == FIXED_LENGTH_ARRAY then
      ElementInBounds(d.index, i, d.arrayLength, d.valueSize, d.length, |b.fixed|);
      b.fixed[d.index + i * d.valueSize..d.index + i * d.valueSize + d.valueSize]
    else b.vars[d.index].elements[i]
  }

  function Scalar(b: Body, d: Def): seq<byte>
    requires FieldConforms(b, d) && (d.fieldType == SIMPLE || d.fieldType == ENUM || d.fieldType == RESPONSE_ID)
  {
    b.fixed[d.index..d.index + d.valueSize]
  }

  /** The text conversions, as functions of the definition and the bytes of the value: the
      field maps and default writers for ASCII and JSON, and the names of enumerators. */
  datatype Formats = Formats(ascii: (Def, seq<byte>) -> Atom, json: (Def, seq<byte>) -> Atom,
                             enumerator: (Def, seq<byte>) -> seq<byte>, decimal: nat -> seq<byte>)

  /** Converters write a text or refuse. */
  ghost predicate IsConverter(f: (Def, seq<byte>) -> Atom) {
    forall d, bytes :: f(d, bytes).Put? || f(d, bytes).Refuse?
  }

  ghost predicate ValidFormats(f: Formats) {
    IsConverter(f.ascii) && IsConverter(f.json)
  }

  const QUOTE: byte := 34
  const COMMA: byte := 44
  const COLON: byte := 58
  const SPACE: byte := 32
  const LBRACE: byte := 123
  const RBRACE: byte := 125
  const LBRACKET: byte := 91
  const RBRACKET: byte := 93

  /** The character at which the text of a character array ends. */
  predicate Terminates(b: Body, d: Def, i: nat)
    requires FieldConforms(b, d) && IsArray(d)
    requires i < ElementCount(b, d)
  {
    d.isString && d.isChar && Element(b, d, i) == [0]
  }

  /** The number of elements from i on that are written. */
  function Shown(b: Body, d: Def, i: nat): (n: nat)
    requires FieldConforms(b, d) && IsArray(d)
    requires i <= ElementCount(b, d)
    ensures i <= n <= ElementCount(b, d)
    decreases ElementCount(b, d) - i
  {
    if i == ElementCount(b, d) || Terminates(b, d, i) then i else Shown(b, d, i + 1)
  }
}
