/** Reading the fields of a body, or of a row of a field array in either form. */
module FieldValues {
  import opened BitLists
  import opened Fields
  import opened Definitions
  import opened Layouts
  import opened Multiples
  import Representation
  import Memory

  /** The type a caller asks for: a trivially copyable one of this size, a TypedBuffer of elements
      of this size, or a container. */
  datatype Request = Plain(size: nat) | Buffer(size: nat) | Container

  /** What GetFieldValue returns, as bytes or as the payload itself, or that it throws. */
  datatype Reading = Loaded(bytes: seq<byte>) | Whole(payload: Var) | Throws

  /** The bytes a request reads from a field are within the field. */
  predicate Inside(d: Def, req: Request) {
    match req
    case Plain(n) => n <= d.length
    case Buffer(n) => n <= d.length
    case Container => true
  }

  /** LoadScalarField */
  function LoadScalar(region: seq<byte>, base: nat, d: Def, n: nat): seq<byte>
    requires base + d.index + n <= |region|
  {
    region[base + d.index..base + d.index + n]
  }

  lemma InArray(d: Def, i: nat, n: nat)
    requires n <= d.length && i < d.arrayLength && d.fieldType == FIXED_LENGTH_ARRAY
    ensures 0 <= i * n && i * n + n <= FixedSize(d)
  {
    Ordered(i + 1, d.arrayLength, n);
    assert (i + 1) * n == i * n + n;
    Ordered(n, d.length, d.arrayLength);
  }

  lemma WholeArray(d: Def, n: nat)
    requires n <= d.length && d.fieldType == FIXED_LENGTH_ARRAY
    ensures 0 <= d.arrayLength * n <= FixedSize(d)
  {
    Ordered(n, d.length, d.arrayLength);
  }

  /** LoadFixedField */
  function LoadFixedField(region: seq<byte>, base: nat, d: Def, req: Request): Reading
    requires Inside(d, req) && base + (d.index + if IsFixed(d) then FixedSize(d) else 0) <= |region|
  {
    if d.fieldType == FIXED_LENGTH_ARRAY then
      if req.Buffer? then
        WholeArray(d, req.size);
        Loaded(region[base + d.index..base + d.index + d.arrayLength * req.size])
      else Throws
    else if IsFixed(d) && req.Plain? then Loaded(LoadScalar(region, base, d, req.size))
    else Throws
  }

  /** LoadFixedFieldElement */
  function LoadFixedFieldElement(region: seq<byte>, base: nat, d: Def, i: nat, n: nat): Reading
    requires n <= d.length && base + (d.index + if IsFixed(d) then FixedSize(d) else 0) <= |region|
  {
    if d.fieldType == FIXED_LENGTH_ARRAY then
      if i >= d.arrayLength then Throws
      else
        InArray(d, i, n);
        Loaded(region[base + d.index + i * n..base + d.index + i * n + n])
    else if i == 0 then LoadFixedField(region, base, d, Plain(n))
    else Throws
  }

  predicate IsPayload(d: Def, v: Var) {
    if d.fieldType == VARIABLE_LENGTH_ARRAY then v.Vec?
    else if d.fieldType == FIELD_ARRAY then v.Flat? || v.Rows?
    else v.Str?
  }

  /** The conditions under which a read of the body is defined: the payload is what the field type
      says, and fixed fields are in the fixed region. */
  predicate Readable(b: Body, d: Def) {
    if IsFixed(d) then d.index + FixedSize(d) <= |b.fixed|
    else d.index < |b.vars| && IsPayload(d, b.vars[d.index])
  }

  /** CompositeField::GetFieldValue */
  function GetFieldValue(b: Body, d: Def, i: nat, req: Request): Reading
    requires Readable(b, d) && Inside(d, req)
  {
    match d.fieldType
    case FIXED_LENGTH_ARRAY =>
      if req.Buffer? then LoadFixedField(b.fixed, 0, d, req)
      else if req.Plain? then LoadFixedFieldElement(b.fixed, 0, d, i, req.size)
      else Throws
    case VARIABLE_LENGTH_ARRAY =>
      var v := b.vars[d.index];
      if req.Container? then Whole(v)
      else if req.Plain? && i < |v.elements| then Loaded(v.elements[i])
      else Throws
    case RESPONSE_STR => if req.Container? then Whole(b.vars[d.index]) else Throws
    case STRING => if req.Container? then Whole(b.vars[d.index]) else Throws
    case FIELD_ARRAY => if req.Container? then Whole(b.vars[d.index]) else Throws
    case _ => if req.Plain? then Loaded(LoadScalar(b.fixed, 0, d, req.size)) else Throws
  }

  /** FieldArrayRecordView: a composite row, or a row of a flat region at this offset. */
  datatype RecordView = OfRecord(record: Body) | OfRegion(region: seq<byte>, rowOffset: nat)

  predicate ViewReadable(view: RecordView, d: Def) {
    match view
    case OfRecord(record) => Readable(record, d)
    case OfRegion(region, rowOffset) => rowOffset + (d.index + if IsFixed(d) then FixedSize(d) else 0) <= |region|
  }

  /** FieldArrayRecordView::GetFieldValue */
  function ViewValue(view: RecordView, d: Def, i: nat, req: Request): Reading
    requires ViewReadable(view, d) && Inside(d, req)
  {
    match view
    case OfRecord(record) => GetFieldValue(record, d, i, req)
    case OfRegion(region, rowOffset) =>
      if req.Container? then Throws
      else if req.Buffer? then LoadFixedField(region, rowOffset, d, req)
      else if d.fieldType == FIXED_LENGTH_ARRAY then LoadFixedFieldElement(region, rowOffset, d, i, req.size)
      else LoadFixedField(region, rowOffset, d, req)
  }

  /** FieldArray::operator[] */
  function RowView(v: Var, row: nat): RecordView
    requires (v.Rows? && row < |v.rows|) || v.Flat?
  {
    if v.Rows? then OfRecord(v.rows[row]) else OfRegion(v.bytes, row * v.rowBytes)
  }

  /** A field of a row reads the same through FieldArray in either form, or throws in both. */
  lemma RowsReadAlike(v: Var, w: Var, d: Def, row: nat, i: nat, req: Request)
    requires Representation.FlatAsRows(v, w) && row < |w.rows|
    requires IsFixed(d) && d.index + FixedSize(d) <= v.rowBytes && Inside(d, req)
    ensures ViewReadable(RowView(v, row), d) && ViewReadable(RowView(w, row), d)
    ensures ViewValue(RowView(v, row), d, i, req) == ViewValue(RowView(w, row), d, i, req)
  {
    hide FixedSize;
    RowInBounds(v.bytes, v.rowBytes, row);
    var base := row * v.rowBytes;
    assert w.rows[row] == FlatRow(v.bytes, v.rowBytes, row);
    assert w.rows[row].fixed == v.bytes[base..base + v.rowBytes];
    RegionsReadAlike(v.bytes, base, v.rowBytes, d, i, req);
  }

  /** The rows that the encoders see are those of the array: as many, in order, and each reads as it does
      through FieldArray. */
  lemma RowIsViewed(v: Var, row: nat, d: Def, i: nat, req: Request)
    requires (v.Rows? || (v.Flat? && v.rowBytes > 0)) && row < RowCount(v)
    requires ViewReadable(RowView(v, row), d) && Inside(d, req)
    requires v.Flat? ==> IsFixed(d) && d.index + FixedSize(d) <= v.rowBytes
    ensures RowCount(v) == if v.Rows? then |v.rows| else |v.bytes| / v.rowBytes
    ensures Readable(RowBody(v, row), d)
    ensures GetFieldValue(RowBody(v, row), d, i, req) == ViewValue(RowView(v, row), d, i, req)
  {
    hide FixedSize;
    if v.Flat? {
      RowInBounds(v.bytes, v.rowBytes, row);
      RegionsReadAlike(v.bytes, row * v.rowBytes, v.rowBytes, d, i, req);
    }
  }

  /** The composite rows are the rows themselves. */
  lemma CompositeRowIsRow(v: Var, row: nat)
    requires v.Rows? && row < |v.rows|
    ensures row < RowCount(v) && RowBody(v, row) == v.rows[row] && RowView(v, row) == OfRecord(v.rows[row])
  {
  }

  /** Reading at a base offset of a region, and in the slice that begins there. */
  lemma RegionsReadAlike(region: seq<byte>, base: nat, size: nat, d: Def, i: nat, req: Request)
    requires base + size <= |region| && IsFixed(d) && d.index + FixedSize(d) <= size && Inside(d, req)
    ensures ViewValue(OfRegion(region, base), d, i, req) == GetFieldValue(Body(region[base..base + size], []), d, i, req)
  {
    hide FixedSize;
    LoadsAlike(region, base, size, d, req);
    if req.Plain? {
      ElementsReadAlike(region, base, size, d, i, req.size);
    }
  }

  lemma LoadsAlike(region: seq<byte>, base: nat, size: nat, d: Def, req: Request)
    requires base + size <= |region| && IsFixed(d) && d.index + FixedSize(d) <= size && Inside(d, req)
    ensures LoadFixedField(region, base, d, req) == LoadFixedField(region[base..base + size], 0, d, req)
  {
    hide FixedSize;
    if d.fieldType == FIXED_LENGTH_ARRAY && req.Buffer? {
      WholeArray(d, req.size);
      var n := d.arrayLength * req.size;
      Memory.SliceOfSlice(region, base, base + size, d.index, d.index + n);
    } else if d.fieldType != FIXED_LENGTH_ARRAY && req.Plain? {
      ScalarSize(d);
      Memory.SliceOfSlice(region, base, base + size, d.index, d.index + req.size);
    }
  }

  lemma ScalarSize(d: Def)
    requires d.fieldType != FIXED_LENGTH_ARRAY
    ensures FixedSize(d) == d.length
  {
  }

  lemma ElementsReadAlike(region: seq<byte>, base: nat, size: nat, d: Def, i: nat, n: nat)
    requires base + size <= |region| && IsFixed(d) && d.index + FixedSize(d) <= size && n <= d.length
    ensures LoadFixedFieldElement(region, base, d, i, n) == LoadFixedFieldElement(region[base..base + size], 0, d, i, n)
  {
    hide FixedSize;
    LoadsAlike(region, base, size, d, Plain(n));
    if d.fieldType == FIXED_LENGTH_ARRAY && i < d.arrayLength {
      InArray(d, i, n);
      var at := d.index + i * n;
      Memory.SliceOfSlice(region, base, base + size, at, at + n);
      assert base + d.index + i * n == base + at;
    }
  }

  // ---------------------------------------------------------------- what the encoders read

  lemma ConformingIsReadable(b: Body, d: Def)
    requires FieldConforms(b, d) && d.fieldType != FIELD_ARRAY
    ensures Readable(b, d) && Inside(d, Plain(d.valueSize))
  {
  }

  /** The encoders read an element as GetFieldValue does. */
  lemma ElementIsRead(b: Body, d: Def, i: nat)
    requires FieldConforms(b, d) && IsArray(d) && i < ElementCount(b, d)
    ensures Readable(b, d) && Inside(d, Plain(d.valueSize))
    ensures GetFieldValue(b, d, i, Plain(d.valueSize)) == Loaded(Element(b, d, i))
  {
    ConformingIsReadable(b, d);
  }

  /** And there is no element behind those that they read. */
  lemma NoElementBehind(b: Body, d: Def, i: nat)
    requires FieldConforms(b, d) && IsArray(d) && ElementCount(b, d) <= i
    ensures Readable(b, d) && Inside(d, Plain(d.valueSize))
    ensures GetFieldValue(b, d, i, Plain(d.valueSize)) == Throws
  {
    ConformingIsReadable(b, d);
  }

  /** The same for a scalar. */
  lemma ScalarIsRead(b: Body, d: Def, i: nat)
    requires FieldConforms(b, d) && (d.fieldType == SIMPLE || d.fieldType == ENUM || d.fieldType == RESPONSE_ID)
    ensures Readable(b, d) && Inside(d, Plain(d.valueSize))
    ensures GetFieldValue(b, d, i, Plain(d.valueSize)) == Loaded(Scalar(b, d))
  {
    ConformingIsReadable(b, d);
  }

  /** The elements of an array that are written: up to the first that reads as a zero byte, if it is
      the text of a character array, and all of them otherwise. */
  lemma {:induction false} ShownMeaning(b: Body, d: Def, i: nat)
    requires FieldConforms(b, d) && IsArray(d) && i <= ElementCount(b, d)
    ensures Readable(b, d) && Inside(d, Plain(d.valueSize))
    ensures var n := Shown(b, d, i);
            if d.isString && d.isChar then
              && (forall j | i <= j < n :: GetFieldValue(b, d, j, Plain(d.valueSize)) != Loaded([0]))
              && (n < ElementCount(b, d) ==> GetFieldValue(b, d, n, Plain(d.valueSize)) == Loaded([0]))
            else n == ElementCount(b, d)
    decreases ElementCount(b, d) - i
  {
    hide FieldConforms, Element, GetFieldValue;
    ConformingIsReadable(b, d);
    if i < ElementCount(b, d) {
      ElementIsRead(b, d, i);
      if !Terminates(b, d, i) {
        ShownMeaning(b, d, i + 1);
      }
    }
  }

  /** A read throws if and only if the field does not hold what is asked for: a container of a fixed field,
      anything else of a variable one, an element behind the last, or the wrong one of value and buffer. */
  lemma ThrowsIff(b: Body, d: Def, i: nat, req: Request)
    requires Readable(b, d) && Inside(d, req)
    ensures GetFieldValue(b, d, i, req) == Throws <==>
              if d.fieldType == FIXED_LENGTH_ARRAY then req == Container || (req.Plain? && d.arrayLength <= i)
              else if IsFixed(d) then !req.Plain?
              else if d.fieldType == VARIABLE_LENGTH_ARRAY then req.Buffer? || (req.Plain? && |b.vars[d.index].elements| <= i)
              else req != Container
  {
  }

  // ---------------------------------------------------------------- stores

  /** FixedFieldRegion::SetFieldValue of these bytes */
  function StoreFixed(b: Body, at: nat, bytes: seq<byte>): (r: Body)
    requires at + |bytes| <= |b.fixed|
    ensures |r.fixed| == |b.fixed| && r.vars == b.vars
  {
    Body(Memory.Stored(b.fixed, at, bytes), b.vars)
  }

  function StoreVar(b: Body, index: nat, v: Var): Body
    requires index < |b.vars|
  {
    Body(b.fixed, b.vars[index := v])
  }

  lemma SliceAfterStore(b: Body, at: nat, bytes: seq<byte>, lo: nat, hi: nat)
    requires at + |bytes| <= |b.fixed| && lo <= hi <= |b.fixed|
    requires hi <= at || at + |bytes| <= lo
    ensures StoreFixed(b, at, bytes).fixed[lo..hi] == b.fixed[lo..hi]
  {
    var r := StoreFixed(b, at, bytes).fixed;
    forall k | lo <= k < hi
      ensures r[k] == b.fixed[k]
    {
    }
    assert forall k | 0 <= k < hi - lo :: r[lo..hi][k] == r[lo + k] && b.fixed[lo..hi][k] == b.fixed[lo + k];
  }

  /** std::vector::resize */
  function ResizedTo<T>(s: seq<T>, n: nat, fill: T): (r: seq<T>)
    ensures |r| == n
  {
    if n <= |s| then s[..n] else s + seq(n - |s|, _ => fill)
  }

  function Resized(b: Body, fixedFieldSize: nat, varFieldCount: nat, unset: Var): Body {
    Body(ResizedTo(b.fixed, fixedFieldSize, 0), ResizedTo(b.vars, varFieldCount, unset))
  }

  /** Fields within the old and the new sizes keep their values. */
  lemma ResizeKeepsFields(b: Body, n: nat, m: nat, unset: Var, d: Def, i: nat, req: Request)
    requires Readable(b, d) && Inside(d, req)
    requires if IsFixed(d) then d.index + FixedSize(d) <= n else d.index < m
    ensures Readable(Resized(b, n, m, unset), d)
    ensures GetFieldValue(Resized(b, n, m, unset), d, i, req) == GetFieldValue(b, d, i, req)
  {
    hide FixedSize, ResizedTo;
    var fixed, r := b.fixed, ResizedTo(b.fixed, n, 0);
    if IsFixed(d) {
      var end := d.index + FixedSize(d);
      ResizeKeepsPrefix(fixed, n, 0, end);
      RegionPrefix(fixed, end);
      RegionPrefix(r, end);
      FixedReading(b, d, i, req);
      FixedReading(Resized(b, n, m, unset), d, i, req);
    } else {
      ResizeKeepsPrefix(b.vars, m, unset, d.index + 1);
    }
  }

  /** Bytes behind the old size read as zeros, and slots behind the old count hold what an unset one holds. */
  lemma ResizeFills(b: Body, n: nat, m: nat, unset: Var, d: Def, i: nat, size: nat)
    requires size <= d.length && (d.fieldType == FIXED_LENGTH_ARRAY ==> i < d.arrayLength)
    requires if IsFixed(d) then |b.fixed| <= d.index && d.index + FixedSize(d) <= n
             else |b.vars| <= d.index < m && IsPayload(d, unset)
    ensures var r := Resized(b, n, m, unset);
            Readable(r, d) && GetFieldValue(r, d, i, if IsFixed(d) then Plain(size) else Container)
                           == if IsFixed(d) then Loaded(seq(size, _ => 0)) else Whole(unset)
  {
    if d.fieldType == FIXED_LENGTH_ARRAY {
      InArray(d, i, size);
    }
  }

  lemma ResizeKeepsPrefix<T>(s: seq<T>, n: nat, fill: T, k: nat)
    requires k <= |s| && k <= n
    ensures ResizedTo(s, n, fill)[..k] == s[..k]
    ensures k > 0 ==> ResizedTo(s, n, fill)[k - 1] == s[k - 1]
  {
  }

  lemma RegionPrefix(region: seq<byte>, end: nat)
    requires end <= |region|
    ensures region[0..end] == region[..end]
  {
  }

  /** A fixed field is read from the region up to its end. */
  lemma FixedReading(b: Body, d: Def, i: nat, req: Request)
    requires IsFixed(d) && Readable(b, d) && Inside(d, req)
    ensures Readable(Body(b.fixed[..d.index + FixedSize(d)], []), d)
    ensures GetFieldValue(b, d, i, req) == GetFieldValue(Body(b.fixed[..d.index + FixedSize(d)], []), d, i, req)
  {
    hide FixedSize;
    var end := d.index + FixedSize(d);
    RegionPrefix(b.fixed, end);
    LoadsAlike(b.fixed, 0, end, d, req);
    if req.Plain? {
      ElementsReadAlike(b.fixed, 0, end, d, i, req.size);
      if d.fieldType != FIXED_LENGTH_ARRAY {
        ScalarSize(d);
      }
    }
  }

  lemma StoredReads(b: Body, at: nat, bytes: seq<byte>)
    requires at + |bytes| <= |b.fixed|
    ensures StoreFixed(b, at, bytes).fixed[at..at + |bytes|] == bytes
  {
  }

  /** A scalar that is set is what the matching get returns. */
  lemma ScalarReadsBack(b: Body, d: Def, i: nat, bytes: seq<byte>)
    requires IsFixed(d) && d.fieldType != FIXED_LENGTH_ARRAY && Readable(b, d) && |bytes| <= d.length
    ensures GetFieldValue(StoreFixed(b, d.index, bytes), d, i, Plain(|bytes|)) == Loaded(bytes)
  {
    hide StoreFixed;
    StoredReads(b, d.index, bytes);
  }

  /** An element that is set is what the matching get returns, and the others are as before. */
  lemma ElementReadsBack(b: Body, d: Def, k: nat, bytes: seq<byte>, i: nat)
    requires d.fieldType == FIXED_LENGTH_ARRAY && Readable(b, d) && |bytes| <= d.length && k < d.arrayLength
    ensures 0 <= k * |bytes| && d.index + k * |bytes| + |bytes| <= |b.fixed|
    ensures GetFieldValue(StoreFixed(b, d.index + k * |bytes|, bytes), d, i, Plain(|bytes|)) ==
            if i == k then Loaded(bytes) else GetFieldValue(b, d, i, Plain(|bytes|))
  {
    hide FixedSize, StoreFixed;
    var n := |bytes|;
    InArray(d, k, n);
    var at := d.index + k * n;
    StoredReads(b, at, bytes);
    if i != k && i < d.arrayLength {
      InArray(d, i, n);
      if i < k {
        Ordered(i + 1, k, n);
        assert (i + 1) * n == i * n + n;
      } else {
        Ordered(k + 1, i, n);
        assert (k + 1) * n == k * n + n;
      }
      SliceAfterStore(b, at, bytes, d.index + i * n, d.index + i * n + n);
    }
  }

  /** A payload that is set is what the matching get returns. */
  lemma VarReadsBack(b: Body, d: Def, i: nat, v: Var)
    requires !IsFixed(d) && d.index < |b.vars| && IsPayload(d, v)
    ensures Readable(StoreVar(b, d.index, v), d)
    ensures GetFieldValue(StoreVar(b, d.index, v), d, i, Container) == Whole(v)
  {
  }

  /** A store outside a field leaves every reading of it as it was. */
  lemma StoreElsewhere(b: Body, at: nat, bytes: seq<byte>, e: Def, i: nat, req: Request)
    requires at + |bytes| <= |b.fixed| && Readable(b, e) && Inside(e, req)
    requires IsFixed(e) ==> at + |bytes| <= e.index || e.index + FixedSize(e) <= at
    ensures GetFieldValue(StoreFixed(b, at, bytes), e, i, req) == GetFieldValue(b, e, i, req)
  {
    hide FixedSize, StoreFixed;
    if e.fieldType == FIXED_LENGTH_ARRAY {
      if req.Buffer? {
        WholeArray(e, req.size);
        var n := e.arrayLength * req.size;
        SliceAfterStore(b, at, bytes, e.index, e.index + n);
      } else if req.Plain? && i < e.arrayLength {
        InArray(e, i, req.size);
        var lo := e.index + i * req.size;
        SliceAfterStore(b, at, bytes, lo, lo + req.size);
      }
    } else if IsFixed(e) && req.Plain? {
      ScalarSize(e);
      SliceAfterStore(b, at, bytes, e.index, e.index + req.size);
    }
  }

  /** In storage laid out by BuildFieldInfo, a store within one fixed field leaves every other field
      of the message, fixed or variable, as it was. */
  lemma OtherFieldsUnchanged(info: Layout, b: Body, x: nat, at: nat, bytes: seq<byte>, y: nat, i: nat, req: Request)
    requires Laid(info) && |b.fixed| == info.fixedFieldBytes && x < |info.fields| && y < |info.fields| && x != y
    requires var d := info.fields[x]; IsFixed(d) && d.index <= at && at + |bytes| <= d.index + FixedSize(d)
    requires Readable(b, info.fields[y]) && Inside(info.fields[y], req)
    ensures at + |bytes| <= |b.fixed|
    ensures GetFieldValue(StoreFixed(b, at, bytes), info.fields[y], i, req) == GetFieldValue(b, info.fields[y], i, req)
  {
    hide Laid, FixedSize;
    LaidFieldsAreDisjoint(info, x, y);
    LaidFieldsAreDisjoint(info, y, x);
    StoreElsewhere(b, at, bytes, info.fields[y], i, req);
  }

  /** A variable field has a slot of its own. */
  lemma OtherSlotsUnchanged(info: Layout, b: Body, x: nat, v: Var, y: nat, i: nat, req: Request)
    requires Laid(info) && |b.vars| == info.varFieldCount && x < |info.fields| && y < |info.fields| && x != y
    requires !IsFixed(info.fields[x]) && Readable(b, info.fields[y]) && Inside(info.fields[y], req)
    ensures info.fields[x].index < |b.vars|
    ensures Readable(StoreVar(b, info.fields[x].index, v), info.fields[y])
    ensures GetFieldValue(StoreVar(b, info.fields[x].index, v), info.fields[y], i, req) == GetFieldValue(b, info.fields[y], i, req)
  {
    hide Laid, FixedSize;
    LaidFieldsAreDisjoint(info, x, y);
    LaidFieldsAreDisjoint(info, y, x);
  }

  /** SetArrayElement checks the region, not the array: the bytes of element k are within the field
      if and only if the field has that many elements of the stored size, which are more than the
      array has where a type is stored smaller than it is logged. */
  lemma ElementStaysInside(d: Def, k: nat, n: nat)
    requires d.fieldType == FIXED_LENGTH_ARRAY && n > 0
    ensures d.index + k * n + n <= d.index + FixedSize(d) <==> k < FixedSize(d) / n
    ensures n <= d.length ==> d.arrayLength <= FixedSize(d) / n
    ensures n == d.length ==> d.arrayLength == FixedSize(d) / n
  {
    var size := d.length * d.arrayLength;
    assert (k + 1) * n == k * n + n;
    WholeElements(size, n, k + 1);
    WholeElements(size, n, d.arrayLength);
    if n <= d.length {
      Ordered(n, d.length, d.arrayLength);
    }
    if n == d.length {
      Quotient(d.arrayLength, n);
    }
  }

  lemma WholeElements(size: nat, n: nat, count: nat)
    requires n > 0
    ensures count * n <= size <==> count <= size / n
  {
    var q := size / n;
    assert q * n <= size < q * n + n;
    if count <= q {
      Ordered(count, q, n);
    } else {
      Ordered(q + 1, count, n);
      assert (q + 1) * n == q * n + n;
    }
  }

  /** The request that reads a whole fixed field. */
  function WholeRequest(d: Def): Request {
    if d.fieldType == FIXED_LENGTH_ARRAY then Buffer(d.length) else Plain(d.length)
  }

  lemma WholeReading(b: Body, d: Def)
    requires IsFixed(d) && Readable(b, d)
    ensures GetFieldValue(b, d, 0, WholeRequest(d)) == Loaded(b.fixed[d.index..d.index + FixedSize(d)])
  {
  }

  /** A store that puts another byte at a position of a field changes what is read from it. */
  lemma OverlapIsSeen(b: Body, at: nat, bytes: seq<byte>, e: Def, p: nat)
    requires IsFixed(e) && Readable(b, e) && at + |bytes| <= |b.fixed|
    requires at <= p < at + |bytes| && e.index <= p < e.index + FixedSize(e) && bytes[p - at] != b.fixed[p]
    ensures GetFieldValue(StoreFixed(b, at, bytes), e, 0, WholeRequest(e)) != GetFieldValue(b, e, 0, WholeRequest(e))
  {
    hide FixedSize, GetFieldValue, WholeRequest;
    var r := StoreFixed(b, at, bytes);
    WholeReading(b, e);
    WholeReading(r, e);
    assert r.fixed[p] == bytes[p - at];
    var x, y := r.fixed[e.index..e.index + FixedSize(e)], b.fixed[e.index..e.index + FixedSize(e)];
    assert x[p - e.index] == r.fixed[p] && y[p - e.index] == b.fixed[p];
  }

  /** Two 32-bit BOOLs, stored as one byte each, and a word behind them. */
  function FlagsAndWord(): Layout {
    var flags := Def([], FIXED_LENGTH_ARRAY, 4, 1, false, false, false, 0, 2, [], 0, 0, None);
    Layout(12, 0, [flags, Def([], SIMPLE, 4, 4, false, false, false, 8, 0, [], 0, 0, None)])
  }

  lemma FlagsAndWordAreLaid()
    ensures Laid(FlagsAndWord())
  {
    var fields := FlagsAndWord().fields;
    assert fields[..1] == [fields[0]] && fields[..0] == [] && fields[..1][..0] == [];
    assert FixedEnd(fields[..1]) == 8 && FixedEnd(fields) == 12;
    assert IndexAt(fields, 0) && IndexAt(fields, 1);
  }

  /** Elements behind the array that the region check accepts: up to element 7 the word keeps its
      value, and element 8 is the first byte of it. */
  lemma BehindTheArray(b: Body, k: nat, bytes: seq<byte>)
    requires |b.fixed| == 12 && b.vars == [] && |bytes| == 1 && k <= 8
    ensures var word := FlagsAndWord().fields[1];
            && Readable(b, word)
            && (GetFieldValue(StoreFixed(b, k, bytes), word, 0, Plain(4)) == GetFieldValue(b, word, 0, Plain(4))
                <==> k < 8 || bytes[0] == b.fixed[8])
  {
    FlagsAndWordAreLaid();
    var info := FlagsAndWord();
    if k < 8 {
      OtherFieldsUnchanged(info, b, 0, k, bytes, 1, 0, Plain(4));
    } else if bytes[0] == b.fixed[8] {
      assert StoreFixed(b, 8, bytes).fixed == b.fixed;
    } else {
      OverlapIsSeen(b, 8, bytes, info.fields[1], 8);
    }
  }
}
