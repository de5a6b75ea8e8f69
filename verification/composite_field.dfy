/** FixedFieldRegion and CompositeField: the storage of a message body. */
module CompositeFields {
  import opened BitLists
  import opened Hex
  import opened Writing
  import opened Fields
  import Layouts
  import BinaryScript
  import opened FieldValues
  import FieldSizes
  import Memory

  /** A byte region of its own, or a read-only view of another one. */
  class FixedFieldRegion {
    var memory: array<byte>
    var offset: nat
    var sz: nat
    var isView: bool

    ghost predicate Valid()
      reads this
    {
      offset + sz <= memory.Length && (!isView ==> offset == 0 && sz == memory.Length)
    }

    ghost function Contents(): (s: seq<byte>)
      requires Valid()
      reads this, memory
      ensures |s| == sz
    {
      memory[offset..offset + sz]
    }

    constructor (size: nat)
      ensures Valid() && !isView && Contents() == Repeat(0, size) && fresh(memory)
    {
      memory := new byte[size](_ => 0);
      offset, sz, isView := 0, size, false;
    }

    /** The bytes are those of the borrowed memory, also after it has changed. */
    constructor View(data: array<byte>, offset: nat, size: nat)
      requires offset + size <= data.Length
      ensures Valid() && isView && memory == data && Contents() == data[offset..offset + size]
    {
      memory := data;
      this.offset, sz, isView := offset, size, true;
    }

    /** Load of n bytes */
    method Load(at: nat, n: nat) returns (bytes: seq<byte>)
      requires Valid() && at + n <= sz
      ensures bytes == Contents()[at..at + n]
    {
      Memory.SliceOfSlice(memory[..], offset, offset + sz, at, at + n);
      assert memory[offset..offset + sz] == memory[..][offset..offset + sz];
      bytes := memory[offset + at..offset + at + n];
    }

    /** SetFieldValue, or ok is false where it throws. */
    method SetFieldValue(at: nat, bytes: seq<byte>) returns (ok: bool)
      requires Valid() && !isView
      modifies memory
      ensures ok == (at + |bytes| <= sz)
      ensures Contents() == if ok then Memory.Stored(old(Contents()), at, bytes) else old(Contents())
    {
      if at + |bytes| > sz {
        return false;
      }
      Memory.Store(memory, at, bytes);
      return true;
    }

    /** Keeps the first bytes, and fills up with zero. */
    method Resize(size: nat)
      requires Valid() && !isView
      modifies this
      ensures Valid() && !isView && fresh(memory)
      ensures Contents() == ResizedTo(old(Contents()), size, 0)
    {
      var data := new byte[size](i requires 0 <= i reads this, memory => if i < memory.Length then memory[i] else 0);
      memory, sz := data, size;
    }
  }

  class CompositeField {
    const fixedFields: FixedFieldRegion
    var varFields: seq<Var>

    ghost predicate Valid()
      reads this, fixedFields
    {
      fixedFields.Valid()
    }

    /** The body that the encoders and readers see. */
    ghost function Value(): (b: Body)
      requires Valid()
      reads this, fixedFields, fixedFields.memory
      ensures |b.fixed| == fixedFields.sz && b.vars == varFields
    {
      Body(fixedFields.Contents(), varFields)
    }

    constructor (fixedFieldSize: nat, varFieldCount: nat, unset: Var)
      ensures Valid() && fresh(fixedFields) && fresh(fixedFields.memory) && !fixedFields.isView
      ensures Value() == Body(Repeat(0, fixedFieldSize), seq(varFieldCount, _ => unset))
    {
      fixedFields := new FixedFieldRegion(fixedFieldSize);
      varFields := seq(varFieldCount, _ => unset);
    }

    /** ViewFixedFields: a row of a flat array seen as a body, without a copy. */
    constructor ViewFixedFields(data: array<byte>, at: nat, size: nat)
      requires at + size <= data.Length
      ensures Valid() && fixedFields.isView && Value() == Body(data[at..at + size], [])
    {
      fixedFields := new FixedFieldRegion.View(data, at, size);
      varFields := [];
    }

    /** resize */
    method Resize(fixedFieldSize: nat, varFieldCount: nat, unset: Var)
      requires Valid() && !fixedFields.isView
      modifies this`varFields, fixedFields
      ensures Valid() && !fixedFields.isView && fresh(fixedFields.memory)
      ensures Value() == Resized(old(Value()), fixedFieldSize, varFieldCount, unset)
    {
      fixedFields.Resize(fixedFieldSize);
      varFields := ResizedTo(varFields, varFieldCount, unset);
    }

    /** SetFieldValue of a scalar field */
    method SetScalar(d: Def, bytes: seq<byte>) returns (ok: bool)
      requires Valid() && !fixedFields.isView && Layouts.IsFixed(d)
      modifies fixedFields.memory
      ensures Valid() && ok == (d.index + |bytes| <= |old(Value()).fixed|)
      ensures Value() == if ok then StoreFixed(old(Value()), d.index, bytes) else old(Value())
    {
      ok := fixedFields.SetFieldValue(d.index, bytes);
    }

    /** SetFieldValue of a variable field */
    method SetVar(d: Def, v: Var) returns (ok: bool)
      requires Valid() && !Layouts.IsFixed(d)
      modifies this`varFields
      ensures Valid() && ok == (d.index < |old(varFields)|)
      ensures Value() == if ok then StoreVar(old(Value()), d.index, v) else old(Value())
    {
      ok := d.index < |varFields|;
      if ok {
        varFields := varFields[d.index := v];
      }
    }

    /** SetArrayElement<true>: the region is checked, the array length is not. */
    method SetFixedElement(d: Def, k: nat, bytes: seq<byte>) returns (ok: bool)
      requires Valid() && !fixedFields.isView
      modifies fixedFields.memory
      ensures 0 <= k * |bytes|
      ensures Valid() && ok == (d.index + k * |bytes| + |bytes| <= |old(Value()).fixed|)
      ensures Value() == if ok then StoreFixed(old(Value()), d.index + k * |bytes|, bytes) else old(Value())
    {
      ok := fixedFields.SetFieldValue(d.index + k * |bytes|, bytes);
    }

    /** SetArrayElement<false> */
    method SetVarElement(d: Def, k: nat, bytes: seq<byte>) returns (ok: bool)
      requires Valid()
      modifies this`varFields
      ensures Valid() && ok == HasElement(old(Value()), d, k, |bytes|)
      ensures Value() == if ok then StoreElement(old(Value()), d, k, bytes) else old(Value())
    {
      ok := d.index < |varFields| && varFields[d.index].Vec? && varFields[d.index].elementSize == |bytes| &&
      k < |varFields[d.index].elements|;
      if ok {
        var v := varFields[d.index];
        varFields := varFields[d.index := v.(elements := v.elements[k := bytes])];
      }
    }

    /** WriteFieldToBuffer: the number of bytes written, 0 if they do not fit. */
    method WriteFieldToBuffer(d: Def, w: Writer) returns (written: nat)
      requires Valid() && w.Valid() && w.buffer != fixedFields.memory && BinaryScript.Writable(Value(), d) && FieldSizes.Sizable(Value(), d)
      modifies w, w.buffer
      ensures w.Valid() && w.Outside()
      ensures var size := FieldSizes.ByteSize(Value(), d);
              && written == (if size <= old(w.left) then size else 0)
              && w.left == old(w.left) - written
              && w.cells == old(w.cells) + (if size <= old(w.left) then Cells(BinaryScript.FieldBytes(old(Value()), d)) else [])
    {
      FieldSizes.WritesByteSize(Value(), d);
      ghost var b := Value();
      var bytes;
      if Layouts.IsFixed(d) {
        bytes := fixedFields.Load(d.index, Layouts.FixedSize(d));
      } else {
        bytes := BinaryScript.Payload(varFields[d.index]);
      }
      if |bytes| > w.left {
        return 0;
      }
      w.Emit(bytes);
      assert Value() == b;
      return |bytes|;
    }
  }

  predicate HasElement(b: Body, d: Def, k: nat, n: nat) {
    d.index < |b.vars| && b.vars[d.index].Vec? && b.vars[d.index].elementSize == n && k < |b.vars[d.index].elements|
  }

  function StoreElement(b: Body, d: Def, k: nat, bytes: seq<byte>): Body
    requires HasElement(b, d, k, |bytes|)
  {
    var v := b.vars[d.index];
    StoreVar(b, d.index, v.(elements := v.elements[k := bytes]))
  }

  lemma VarElementReadsBack(b: Body, d: Def, k: nat, bytes: seq<byte>, i: nat)
    requires d.fieldType == VARIABLE_LENGTH_ARRAY && HasElement(b, d, k, |bytes|) && |bytes| <= d.length
    ensures GetFieldValue(StoreElement(b, d, k, bytes), d, i, Plain(|bytes|)) ==
            if i == k then Loaded(bytes) else GetFieldValue(b, d, i, Plain(|bytes|))
  {
  }
}
