/** What EncodeBinaryBody writes, as a function of the body and the address of its first byte. */
module BinaryScript {
  import opened BitLists
  import Hex
  import opened Writing
  import opened Fields
  import Joining
  import Alignment
  import Layouts

  predicate IsVar(d: Def) {
    d.fieldType == FIELD_ARRAY || d.fieldType == VARIABLE_LENGTH_ARRAY || d.fieldType == STRING
  }

  /** The conditions under which EncodeBinaryBody does not throw or read outside its storage.  A
      body with no variable fields is copied as it is, whatever the definitions say. */
  ghost predicate Encodable(b: Body, defs: seq<Def>)
    decreases defs, 1
  {
    b.vars == [] || AllEncodable(b, defs)
  }

  ghost predicate AllEncodable(b: Body, defs: seq<Def>)
    decreases defs, 0
  {
    forall i | 0 <= i < |defs| :: FieldEncodable(b, defs[i])
  }

  ghost predicate FieldEncodable(b: Body, d: Def)
    decreases d, 0
  {
    && d.length > 0
    && (IsVar(d) && d.arrayLengthRef == [] && d.fieldType != STRING ==> d.arrayLengthFieldSize > 0)
    && match d.fieldType
       case FIXED_LENGTH_ARRAY => d.index + Layouts.FixedSize(d) <= |b.fixed|
       case VARIABLE_LENGTH_ARRAY => d.index < |b.vars| && b.vars[d.index].Vec? && VecConforms(b.vars[d.index], d)
       case STRING => d.index < |b.vars| && b.vars[d.index].Str?
       case RESPONSE_STR => d.index < |b.vars| && b.vars[d.index].Str?
       case FIELD_ARRAY =>
         && d.info.Some? && d.index < |b.vars|
         && (b.vars[d.index].Rows? || (b.vars[d.index].Flat? && b.vars[d.index].rowBytes > 0))
         && ArrayEncodable(b.vars[d.index], d.info.value.fields)
       case _ => d.index + d.length <= |b.fixed|
  }

  ghost predicate ArrayEncodable(v: Var, defs: seq<Def>)
    decreases defs, 2
  {
    (v.Flat? && v.rowBytes > 0) || (v.Rows? && forall i | 0 <= i < |v.rows| :: Encodable(v.rows[i], defs))
  }

  function LittleEndianBytes(n: nat, k: nat): (r: seq<byte>)
    ensures |r| == k
    decreases k
  {
    if k == 0 then [] else [n % 256] + LittleEndianBytes(n / 256, k - 1)
  }

  /** The stored bytes of a variable field that is not a list of rows. */
  function Payload(v: Var): seq<byte>
    requires !v.Rows?
  {
    match v
    case Str(text) => text
    case Vec(_, elements) => Joining.Concat(elements)
    case Flat(bytes, _) => bytes
  }

  function Count(v: Var): nat
    requires v.Flat? ==> v.rowBytes > 0
  {
    match v
    case Str(text) => |text|
    case Vec(_, elements) => |elements|
    case Flat(bytes, rowBytes) => |bytes| / rowBytes
    case Rows(rows) => |rows|
  }

  /** WriteFieldToBuffer is defined: not for composite rows, where it throws. */
  predicate Writable(b: Body, d: Def) {
    if Layouts.IsFixed(d) then d.index + Layouts.FixedSize(d) <= |b.fixed|
    else
      d.index < |b.vars| && !b.vars[d.index].Rows?
  }

  /** The bytes that WriteFieldToBuffer copies. */
  function FieldBytes(b: Body, d: Def): seq<byte>
    requires Writable(b, d)
  {
    if Layouts.IsFixed(d) then b.fixed[d.index..d.index + Layouts.FixedSize(d)] else Payload(b.vars[d.index])
  }

  /** The bytes that a flattened array is filled up to: 32-bit arithmetic for simple elements. */
  function MaxBytes(d: Def): nat {
    if d.fieldType == FIELD_ARRAY then d.fieldSize else (d.arrayLength * d.length) % 0x1_0000_0000
  }

  /** static_cast<int>(maxBytes - written), where it is positive */
  function Remaining(maxBytes: nat, written: nat): nat {
    var low := (maxBytes - written) % 0x1_0000_0000;
    if low < 0x8000_0000 then low else 0
  }

  function Aligned(size: nat, offset: nat): Script
    requires size > 0
  {
    [Gap(Alignment.OemAlignment(size, offset))]
  }

  /** The count before an array that has no length field of its own, at this offset. */
  function Prefix(d: Def, count: nat, offset: nat): Script
    requires d.arrayLengthRef == [] ==> d.arrayLengthFieldSize > 0
  {
    if d.arrayLengthRef != [] then []
    else
      var n := d.arrayLengthFieldSize;
      Aligned(n, offset) + (if n == 1 || n == 2 || n == 4 then Text(LittleEndianBytes(count, n)) else [Refuse])
  }

  function Fill(flatten: bool, maxBytes: nat, written: nat): Script {
    if flatten && Remaining(maxBytes, written) > 0 then Text(Hex.Repeat(0, Remaining(maxBytes, written))) else []
  }

  /** OEM strings end at a multiple of four, with at least one zero. */
  function Padding(at: nat): seq<byte> { Hex.Repeat(0, 4 - at % 4) }

  /** What follows the elements: zero fill, and the padding of a string. */
  function Tail(v: Var, d: Def, flatten: bool, written: nat, at: nat): Script {
    var fill := Fill(flatten, MaxBytes(d), written);
    fill + (if v.Str? then Text(Padding(at + Size(fill))) else [])
  }

  /** The elements of an array, at this address. */
  ghost function Content(v: Var, d: Def, flatten: bool, at: nat): Script
    requires IsVar(d)
    requires v.Rows? ==> d.info.Some? && ArrayEncodable(v, d.info.value.fields)
    requires v.Flat? ==> v.rowBytes > 0
    decreases d, 0
  {
    if v.Rows? then RowsScript(v, d.info.value.fields, flatten, at, |v.rows|)
    else if Count(v) > 0 then Text(Payload(v))
    else []
  }

  /** A variable field behind its alignment gap, at this address. */
  ghost function VarScript(b: Body, d: Def, flatten: bool, start: nat, at: nat): Script
    requires FieldEncodable(b, d) && IsVar(d) && start <= at
    decreases d, 1
  {
    var v := b.vars[d.index];
    var prefix := if v.Str? then [] else Prefix(d, Count(v), at - start);
    var content := Content(v, d, flatten, at + Size(prefix));
    prefix + content + Tail(v, d, flatten, Size(content), at + Size(prefix) + Size(content))
  }

  /** One turn of the loop of EncodeBinaryBody, at this address, in a body that began at start */
  ghost function FieldScript(b: Body, d: Def, flatten: bool, start: nat, at: nat): Script
    requires FieldEncodable(b, d) && start <= at
    decreases d, 2
  {
    Aligned(d.length, at - start) +
    (if IsVar(d) then VarScript(b, d, flatten, start, at + Alignment.OemAlignment(d.length, at - start))
     else if FieldBytes(b, d) == [] then [Refuse]
     else Text(FieldBytes(b, d)))
  }

  ghost function RowsScript(v: Var, defs: seq<Def>, flatten: bool, at: nat, n: nat): Script
    requires v.Rows? && ArrayEncodable(v, defs) && n <= |v.rows|
    decreases defs, 2, n
  {
    if n == 0 then []
    else
      var before := RowsScript(v, defs, flatten, at, n - 1);
      before + BodyScript(v.rows[n - 1], defs, flatten, at + Size(before))
  }

  ghost function FieldsScript(b: Body, defs: seq<Def>, flatten: bool, start: nat): Script
    requires AllEncodable(b, defs)
    decreases defs, 0, 0
  {
    if defs == [] then []
    else
      var n := |defs| - 1;
      var before := FieldsScript(b, defs[..n], flatten, start);
      before + FieldScript(b, defs[n], flatten, start, start + Size(before))
  }

  /** EncodeBinaryBody<Flatten> */
  ghost function BodyScript(b: Body, defs: seq<Def>, flatten: bool, start: nat): Script
    requires Encodable(b, defs)
    decreases defs, 1, 0
  {
    if b.vars == [] then Text(b.fixed) else FieldsScript(b, defs, flatten, start)
  }
}
