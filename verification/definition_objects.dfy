/** Field and message definitions as heap objects: clone, copy construction and operator==. */
module DefinitionObjects {
  import opened Definitions

  /** The slots of a field list as values.  R bounds the objects the fields are made of. */
  ghost function ListValue(fs: seq<Field?>, R: set<object>): (v: seq<Option<Tree>>)
    requires ValidList(fs, R)
    reads fs, R
    ensures |v| == |fs|
    ensures forall i | 0 <= i < |v| :: v[i].Some? ==> WellFormed(v[i].value)
    decreases R, |fs|
  {
    if fs == [] then []
    else
      var last := fs[|fs| - 1];
      ListValue(fs[..|fs| - 1], R) + [if last == null then None else Some(last.Value())]
  }

  ghost predicate ValidList(fs: seq<Field?>, R: set<object>)
    reads fs, R
    decreases R, |fs|
  {
    forall i | 0 <= i < |fs| && fs[i] != null :: fs[i] in R && fs[i].Repr <= R && fs[i].Valid()
  }

  /** The value of a list does not depend on the bound. */
  lemma {:induction false} ListBound(fs: seq<Field?>, R: set<object>, S: set<object>)
    requires ValidList(fs, R) && R <= S
    ensures ValidList(fs, S) && ListValue(fs, R) == ListValue(fs, S)
    decreases |fs|
  {
    if fs != [] {
      ListBound(fs[..|fs| - 1], R, S);
    }
  }

  lemma EmptyList(R: set<object>)
    ensures ValidList([], R) && ListValue([], R) == []
  {
  }

  lemma ListAppend(fs: seq<Field?>, f: Field?, R: set<object>)
    requires ValidList(fs, R) && (f != null ==> f in R && f.Repr <= R && f.Valid())
    ensures ValidList(fs + [f], R)
    ensures ListValue(fs + [f], R) == ListValue(fs, R) + [if f == null then None else Some(f.Value())]
  {
    assert (fs + [f])[..|fs|] == fs;
  }

  lemma {:induction false} ListSlot(fs: seq<Field?>, R: set<object>, i: nat)
    requires ValidList(fs, R) && i < |fs|
    ensures ListValue(fs, R)[i] == if fs[i] == null then None else Some(fs[i].Value())
    decreases |fs|
  {
    if i < |fs| - 1 {
      ListSlot(fs[..|fs| - 1], R, i);
    }
  }

  class FieldInfo {
    var fixedFieldBytes: nat
    var varFieldCount: nat
    var messageOrderedFields: seq<Field?>
    ghost var Repr: set<object>

    ghost predicate Valid()
      reads this, Repr
      decreases Repr, 0
      ensures Valid() ==> this in Repr
    {
      && this in Repr
      && (forall i | 0 <= i < |messageOrderedFields| && messageOrderedFields[i] != null ::
            messageOrderedFields[i] in Repr && this !in messageOrderedFields[i].Repr)
      && ValidList(messageOrderedFields, Repr - {this})
    }

    ghost function Value(): (v: Info)
      requires Valid()
      reads this, Repr
      decreases Repr, 0
      ensures InfoWellFormed(v)
    {
      Info(fixedFieldBytes, varFieldCount, ListValue(messageOrderedFields, Repr - {this}))
    }

    lemma SlotIsValid(i: nat)
      requires Valid() && i < |messageOrderedFields| && messageOrderedFields[i] != null
      ensures var f := messageOrderedFields[i];
              f in Repr && f.Repr <= Repr - {this} && this in Repr && f.Valid()
      ensures ValidList(messageOrderedFields, Repr - {this})
    {
    }

    lemma ListIsValid()
      requires Valid()
      ensures ValidList(messageOrderedFields, Repr - {this})
    {
    }

    /** FieldInfo::clone */
    method Clone() returns (copy: FieldInfo)
      requires Valid()
      ensures copy.Valid() && fresh(copy.Repr)
      ensures copy.Value() == Value()
      decreases Repr, 1
    {
      hide ListValue, ValidList, Field.Valid, Field.Value, Valid;
      ListIsValid();
      var copies;
      ghost var R;
      copies, R := CloneFields();
      copy := new FieldInfo.Filled(fixedFieldBytes, varFieldCount, copies, R);
    }

    constructor Filled(fixedFieldBytes: nat, varFieldCount: nat, fields: seq<Field?>, ghost R: set<object>)
      requires ValidList(fields, R)
      ensures Valid() && Repr == R + {this} && this !in R
      ensures Value() == Info(fixedFieldBytes, varFieldCount, ListValue(fields, R))
    {
      this.fixedFieldBytes := fixedFieldBytes;
      this.varFieldCount := varFieldCount;
      this.messageOrderedFields := fields;
      this.Repr := R + {this};
      new;
      Assembled(R);
    }

    /** A list of fields outside this object makes a valid FieldInfo. */
    lemma Assembled(R: set<object>)
      requires ValidList(messageOrderedFields, R) && this !in R && Repr == R + {this}
      ensures Valid() && Value() == Info(fixedFieldBytes, varFieldCount, ListValue(messageOrderedFields, R))
    {
      assert Repr - {this} == R;
    }

    /** The loop of FieldInfo::clone: the copies, null entries kept, and the objects they own. */
    method CloneFields() returns (copies: seq<Field?>, ghost R: set<object>)
      requires Valid()
      ensures ValidList(copies, R) && fresh(R)
      ensures ListValue(copies, R) == ListValue(messageOrderedFields, Repr - {this})
      decreases Repr, 0
    {
      hide ListValue, ValidList, Valid, Field.Valid, Field.Value;
      copies, R := [], {};
      ListIsValid();
      EmptyList({});
      ghost var values := ListValue(messageOrderedFields, Repr - {this});
      for i := 0 to |messageOrderedFields|
        invariant |copies| == i && fresh(R) && ValidList(copies, R)
        invariant ListValue(copies, R) == values[..i]
      {
        var f := messageOrderedFields[i];
        ListSlot(messageOrderedFields, Repr - {this}, i);
        if f == null {
          ListAppend(copies, null, R);
          copies := copies + [null];
        } else {
          SlotIsValid(i);
          var c := f.Clone();
          c.OwnsItself();
          ghost var S := R + c.Repr;
          ListBound(copies, R, S);
          ListAppend(copies, c, S);
          copies, R := copies + [c], S;
        }
      }
      assert values[..|values|] == values;
    }

    /** The comparison of two field lists, entry by entry. */
    method SlotsEqual(other: FieldInfo) returns (equal: bool)
      requires Valid() && other.Valid()
      ensures equal == ListsEqual(Value().fields, other.Value().fields)
      decreases Repr, 1
    {
      hide ListValue, ValidList, Valid, Field.Valid, Field.Value, FieldEqual;
      ListIsValid();
      other.ListIsValid();
      var fs, gs := messageOrderedFields, other.messageOrderedFields;
      ghost var vs, ws := ListValue(fs, Repr - {this}), ListValue(gs, other.Repr - {other});
      if |fs| != |gs| {
        return false;
      }
      for i := 0 to |fs|
        invariant forall k | 0 <= k < i :: SlotEqual(vs[k], ws[k])
      {
        ListSlot(fs, Repr - {this}, i);
        ListSlot(gs, other.Repr - {other}, i);
        if (fs[i] == null) != (gs[i] == null) {
          return false;
        }
        if fs[i] != null {
          SlotIsValid(i);
          other.SlotIsValid(i);
          var same := fs[i].Equals(gs[i]);
          if !same {
            return false;
          }
        }
      }
      return true;
    }
  }

  class Field {
    var tag: Class
    var common: Common
    var cached: Cached
    var enumId: string
    var enumDef: EnumDefinition?
    var arrayLength: nat
    var arrayLengthRef: string
    var arrayLengthFieldSize: nat
    var fieldSize: nat
    var fieldInfo: FieldInfo?
    ghost var Repr: set<object>

    ghost predicate Valid()
      reads this, Repr
      decreases Repr, 0
      ensures Valid() ==> this in Repr
    {
      && this in Repr
      && (tag == FieldArrayClass <==> fieldInfo != null)
      && (fieldInfo != null ==>
            fieldInfo in Repr && fieldInfo.Repr <= Repr && this !in fieldInfo.Repr && fieldInfo.Valid())
    }

    lemma OwnsItself()
      requires Valid()
      ensures this in Repr
    {
    }

    ghost function Value(): (t: Tree)
      requires Valid()
      reads this, Repr
      decreases Repr, 0
      ensures WellFormed(t)
    {
      Tree(tag, common, cached, enumId, enumDef, arrayLength, arrayLengthRef, arrayLengthFieldSize, fieldSize,
           if fieldInfo == null then None else Some(fieldInfo.Value()))
    }

    /** The implicit copy constructor: every member is copied, pointers included. */
    constructor Shallow(other: Field)
      ensures tag == other.tag && common == other.common && cached == other.cached
      ensures enumId == other.enumId && enumDef == other.enumDef
      ensures arrayLength == other.arrayLength && arrayLengthRef == other.arrayLengthRef
      ensures arrayLengthFieldSize == other.arrayLengthFieldSize && fieldSize == other.fieldSize
      ensures fieldInfo == other.fieldInfo && Repr == {this}
    {
      tag, common, cached := other.tag, other.common, other.cached;
      enumId, enumDef := other.enumId, other.enumDef;
      arrayLength, arrayLengthRef, arrayLengthFieldSize := other.arrayLength, other.arrayLengthRef, other.arrayLengthFieldSize;
      fieldSize, fieldInfo, Repr := other.fieldSize, other.fieldInfo, {this};
    }

    /** BaseField::clone and its overrides: only FieldArrayField copies what it points to. */
    method Clone() returns (copy: Field)
      requires Valid()
      ensures copy.Valid() && fresh(copy.Repr)
      ensures copy.Value() == Value()
      decreases Repr, 1
    {
      hide ListValue, ValidList, FieldInfo.Valid, FieldInfo.Value;
      copy := new Field.Shallow(this);
      if tag == FieldArrayClass {
        var info := fieldInfo.Clone();
        copy.fieldInfo := info;
        copy.Repr := {copy} + info.Repr;
      }
    }

    /** operator==: the runtime classes, then the virtual equalsImpl. */
    method Equals(other: Field) returns (equal: bool)
      requires Valid() && other.Valid()
      ensures equal == FieldEqual(Value(), other.Value())
      decreases Repr, 2
    {
      if tag != other.tag {
        return false;
      }
      equal := EqualsImpl(other);
    }

    method EqualsImpl(other: Field) returns (equal: bool)
      requires Valid() && other.Valid() && tag == other.tag
      ensures equal == FieldEqual(Value(), other.Value())
      decreases Repr, 1
    {
      hide ListValue, ValidList, FieldInfo.Valid, FieldInfo.Value;
      if common != other.common {
        return false;
      }
      if tag == EnumClass {
        return enumId == other.enumId;
      }
      if tag == ArrayClass || tag == FieldArrayClass {
        if arrayLength != other.arrayLength || arrayLengthRef != other.arrayLengthRef ||
           arrayLengthFieldSize != other.arrayLengthFieldSize {
          return false;
        }
      }
      if tag == FieldArrayClass {
        equal := fieldInfo.SlotsEqual(other.fieldInfo);
        return;
      }
      return true;
    }
  }

  class MessageDefinition {
    var header: Header
    var fieldInfo: map<nat, FieldInfo>
    ghost var Repr: set<object>

    ghost predicate Valid()
      reads this, Repr
      ensures Valid() ==> this in Repr
    {
      && this in Repr
      && (forall crc | crc in fieldInfo :: fieldInfo[crc] in Repr && this !in fieldInfo[crc].Repr)
      && ValidInfos(fieldInfo, Repr - {this})
    }

    ghost function Value(): (m: Message)
      requires Valid()
      reads this, Repr
      ensures MessageWellFormed(m)
    {
      Message(header, InfoValues(fieldInfo, Repr - {this}))
    }

    constructor (header: Header, fieldInfo: map<nat, FieldInfo>, ghost R: set<object>)
      requires ValidInfos(fieldInfo, R)
      ensures Valid() && Repr == R + {this} && Value() == Message(header, InfoValues(fieldInfo, R))
    {
      this.header, this.fieldInfo, this.Repr := header, fieldInfo, R + {this};
      new;
      Assembled(R);
    }

    /** The copy constructor: equal to its source, sharing no field object with anything. */
    constructor Copy(other: MessageDefinition)
      requires other.Valid()
      ensures Valid() && fresh(Repr) && Value() == other.Value()
      ensures MessageEqual(Value(), other.Value())
    {
      hide *;
      header, fieldInfo, Repr := other.header, map[], {this};
      new;
      Replace(other);
      MessageEqualIsEquivalence(Value(), Value(), Value());
    }

    /** operator= */
    method Assign(other: MessageDefinition)
      requires Valid() && other.Valid() && (this != other ==> this !in other.Repr)
      modifies this
      ensures Valid() && Value() == old(other.Value())
      ensures this != other ==> fresh(Repr - {this}) && other.Valid() && other.Value() == old(other.Value())
      ensures this == other ==> Repr == old(Repr)
    {
      hide *;
      if this == other {
        return;
      }
      Replace(other);
    }

    /** The part of operator= that replaces the members. */
    method Replace(other: MessageDefinition)
      requires other.Valid() && this !in other.Repr
      modifies this
      ensures Valid() && fresh(Repr - {this})
      ensures Value() == old(other.Value())
    {
      hide *;
      other.InfosAreValid();
      var copies;
      ghost var R;
      copies, R := CloneInfos(other.fieldInfo, other.Repr - {other});
      header := other.header;
      fieldInfo := copies;
      Repr := R + {this};
      Assembled(R);
    }

    lemma InfosAreValid()
      requires Valid()
      ensures ValidInfos(fieldInfo, Repr - {this})
      ensures Value() == Message(header, InfoValues(fieldInfo, Repr - {this}))
    {
    }

    /** A map of owned FieldInfo objects makes a valid definition. */
    lemma Assembled(R: set<object>)
      requires ValidInfos(fieldInfo, R) && this !in R && Repr == R + {this}
      ensures Valid() && Value() == Message(header, InfoValues(fieldInfo, R))
    {
      assert Repr - {this} == R;
    }

    /** operator== */
    method Equals(other: MessageDefinition) returns (equal: bool)
      requires Valid() && other.Valid()
      ensures equal == MessageEqual(Value(), other.Value())
    {
      hide FieldInfo.Valid, FieldInfo.Value, InfoEqual;
      if header != other.header || |fieldInfo| != |other.fieldInfo| {
        return false;
      }
      var keys := fieldInfo.Keys;
      while keys != {}
        invariant keys <= fieldInfo.Keys
        invariant forall crc | crc in fieldInfo.Keys - keys ::
          crc in other.fieldInfo && InfoEqual(fieldInfo[crc].Value(), other.fieldInfo[crc].Value())
      {
        var crc :| crc in keys;
        if crc !in other.fieldInfo {
          return false;
        }
        var info, otherInfo := fieldInfo[crc], other.fieldInfo[crc];
        var same := InfosEqual(info, otherInfo);
        if !same {
          return false;
        }
        keys := keys - {crc};
      }
      return true;
    }
  }

  ghost predicate ValidInfos(infos: map<nat, FieldInfo>, R: set<object>)
    reads infos.Values, R
  {
    forall crc | crc in infos :: infos[crc] in R && infos[crc].Repr <= R && infos[crc].Valid()
  }

  ghost function InfoValues(infos: map<nat, FieldInfo>, R: set<object>): (v: map<nat, Info>)
    requires ValidInfos(infos, R)
    reads infos.Values, R
    ensures v.Keys == infos.Keys
    ensures forall crc | crc in v :: InfoWellFormed(v[crc])
  {
    map crc | crc in infos :: infos[crc].Value()
  }

  /** The loop of the copy constructor. */
  method CloneInfos(infos: map<nat, FieldInfo>, ghost Q: set<object>) returns (copies: map<nat, FieldInfo>, ghost R: set<object>)
    requires ValidInfos(infos, Q)
    ensures ValidInfos(copies, R) && fresh(R) && InfoValues(copies, R) == InfoValues(infos, Q)
  {
    hide FieldInfo.Valid, FieldInfo.Value;
    copies, R := map[], {};
    var keys := infos.Keys;
    while keys != {}
      invariant keys <= infos.Keys && copies.Keys == infos.Keys - keys
      invariant fresh(R) && ValidInfos(copies, R)
      invariant forall crc | crc in copies :: copies[crc].Value() == infos[crc].Value()
    {
      var crc :| crc in keys;
      var c := infos[crc].Clone();
      copies, R := copies[crc := c], R + c.Repr;
      keys := keys - {crc};
    }
  }

  /** The comparison of two FieldInfo objects inside MessageDefinition::operator==. */
  method InfosEqual(a: FieldInfo, b: FieldInfo) returns (equal: bool)
    requires a.Valid() && b.Valid()
    ensures equal == InfoEqual(a.Value(), b.Value())
  {
    if a.fixedFieldBytes != b.fixedFieldBytes || a.varFieldCount != b.varFieldCount {
      return false;
    }
    equal := a.SlotsEqual(b);
  }
}
