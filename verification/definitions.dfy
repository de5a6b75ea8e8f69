/** Message definitions: deep copy and equality of heap trees of field definitions. */
module Definitions {
  datatype Option<+T> = None | Some(value: T)

  /** The runtime class of a field definition. */
  datatype Class = BaseClass | EnumClass | ArrayClass | FieldArrayClass

  datatype SimpleDataType = SimpleDataType(name: nat, length: nat, description: string)

  /** The fields of BaseField that equality compares. */
  datatype Common = Common(name: string, fieldType: nat, description: string, conversion: string, dataType: SimpleDataType)

  /** The fields of BaseField that are derived from the others or from a database. */
  datatype Cached = Cached(conversionHash: nat, width: Option<int>, precision: Option<int>, isString: bool, isCsv: bool, index: nat)

  class EnumDefinition {
    var name: string

    constructor (name: string)
      ensures this.name == name
    {
      this.name := name;
    }
  }

  // ---------------------------------------------------------------- values

  /** Everything a field definition holds, caches included; only enum definitions are references. */
  datatype Tree = Tree(tag: Class, common: Common, cached: Cached,
                       enumId: string, enumDef: EnumDefinition?,
                       arrayLength: nat, arrayLengthRef: string, arrayLengthFieldSize: nat,
                       fieldSize: nat, info: Option<Info>)

  datatype Info = Info(fixedFieldBytes: nat, varFieldCount: nat, fields: seq<Option<Tree>>)

  ghost predicate WellFormed(t: Tree) {
    && (t.tag == FieldArrayClass <==> t.info.Some?)
    && (t.info.Some? ==> forall i | 0 <= i < |t.info.value.fields| ::
          t.info.value.fields[i].Some? ==> WellFormed(t.info.value.fields[i].value))
  }

  /** BaseField::operator==: same runtime class, and the comparison of that class. */
  ghost predicate FieldEqual(a: Tree, b: Tree)
    requires WellFormed(a) && WellFormed(b)
    decreases a
  {
    && a.tag == b.tag
    && a.common == b.common
    && (a.tag == EnumClass ==> a.enumId == b.enumId)
    && (a.tag == ArrayClass || a.tag == FieldArrayClass ==>
          && a.arrayLength == b.arrayLength && a.arrayLengthRef == b.arrayLengthRef && a.arrayLengthFieldSize == b.arrayLengthFieldSize)
    && (a.tag == FieldArrayClass ==>
          && |a.info.value.fields| == |b.info.value.fields|
          && forall i | 0 <= i < |a.info.value.fields| ::
               SlotEqual(a.info.value.fields[i], b.info.value.fields[i]))
  }

  /** Two entries of a field list: both null, or both not null and equal. */
  ghost predicate SlotEqual(a: Option<Tree>, b: Option<Tree>)
    requires (a.Some? ==> WellFormed(a.value)) && (b.Some? ==> WellFormed(b.value))
    decreases a
  {
    (a.None? <==> b.None?) && (a.Some? ==> FieldEqual(a.value, b.value))
  }

  ghost predicate ListsEqual(a: seq<Option<Tree>>, b: seq<Option<Tree>>)
    requires forall i | 0 <= i < |a| :: a[i].Some? ==> WellFormed(a[i].value)
    requires forall i | 0 <= i < |b| :: b[i].Some? ==> WellFormed(b[i].value)
  {
    |a| == |b| && forall i | 0 <= i < |a| :: SlotEqual(a[i], b[i])
  }

  /** What equality looks at. */
  datatype Key = Key(tag: Class, common: Common, enumId: string,
                     arrayLength: nat, arrayLengthRef: string, arrayLengthFieldSize: nat, fields: seq<Option<Key>>)

  function KeyOf(t: Tree): (k: Key)
    requires WellFormed(t)
    decreases t, 0
  {
    var isArray := t.tag == ArrayClass || t.tag == FieldArrayClass;
    Key(t.tag, t.common,
        if t.tag == EnumClass then t.enumId else "",
        if isArray then t.arrayLength else 0,
        if isArray then t.arrayLengthRef else "",
        if isArray then t.arrayLengthFieldSize else 0,
        if t.tag == FieldArrayClass then
          var fs := t.info.value.fields;
          seq(|fs|, i requires 0 <= i < |fs| => if fs[i].None? then None else Some(KeyOf(fs[i].value)))
        else [])
  }

  /** Field equality is equality of keys; so it is an equivalence, and caches do not matter. */
  lemma {:induction false} FieldEqualIsKeyEqual(a: Tree, b: Tree)
    requires WellFormed(a) && WellFormed(b)
    ensures FieldEqual(a, b) <==> KeyOf(a) == KeyOf(b)
    decreases a
  {
    if a.tag == FieldArrayClass && b.tag == FieldArrayClass && |a.info.value.fields| == |b.info.value.fields| {
      var fs, gs := a.info.value.fields, b.info.value.fields;
      forall i | 0 <= i < |fs|
        ensures SlotEqual(fs[i], gs[i]) <==> KeyOf(a).fields[i] == KeyOf(b).fields[i]
      {
        if fs[i].Some? && gs[i].Some? {
          FieldEqualIsKeyEqual(fs[i].value, gs[i].value);
        }
      }
    }
  }

  // ---------------------------------------------------------------- message definitions as values

  datatype Header = Header(id: string, logId: nat, name: string, description: string, latestMessageCrc: nat)

  datatype Message = Message(header: Header, infos: map<nat, Info>)

  ghost predicate InfoWellFormed(i: Info) {
    forall k | 0 <= k < |i.fields| :: i.fields[k].Some? ==> WellFormed(i.fields[k].value)
  }

  ghost predicate MessageWellFormed(m: Message) {
    forall crc | crc in m.infos :: InfoWellFormed(m.infos[crc])
  }

  ghost predicate InfoEqual(a: Info, b: Info)
    requires InfoWellFormed(a) && InfoWellFormed(b)
  {
    && a.fixedFieldBytes == b.fixedFieldBytes && a.varFieldCount == b.varFieldCount
    && |a.fields| == |b.fields|
    && forall k | 0 <= k < |a.fields| :: SlotEqual(a.fields[k], b.fields[k])
  }

  /** The loop of operator== looks each key of the first map up in the second. */
  ghost predicate OneSided(a: map<nat, Info>, b: map<nat, Info>)
    requires forall crc | crc in a :: InfoWellFormed(a[crc])
    requires forall crc | crc in b :: InfoWellFormed(b[crc])
  {
    forall crc | crc in a :: crc in b && InfoEqual(a[crc], b[crc])
  }

  /** MessageDefinition::operator== */
  ghost predicate MessageEqual(a: Message, b: Message)
    requires MessageWellFormed(a) && MessageWellFormed(b)
  {
    a.header == b.header && |a.infos| == |b.infos| && OneSided(a.infos, b.infos)
  }

  datatype InfoKey = InfoKey(fixedFieldBytes: nat, varFieldCount: nat, fields: seq<Option<Key>>)

  function InfoKeyOf(i: Info): InfoKey
    requires InfoWellFormed(i)
  {
    InfoKey(i.fixedFieldBytes, i.varFieldCount,
            seq(|i.fields|, k requires 0 <= k < |i.fields| => if i.fields[k].None? then None else Some(KeyOf(i.fields[k].value))))
  }

  datatype MessageKey = MessageKey(header: Header, infos: map<nat, InfoKey>)

  function MessageKeyOf(m: Message): MessageKey
    requires MessageWellFormed(m)
  {
    MessageKey(m.header, map crc | crc in m.infos :: InfoKeyOf(m.infos[crc]))
  }

  lemma InfoEqualIsKeyEqual(a: Info, b: Info)
    requires InfoWellFormed(a) && InfoWellFormed(b)
    ensures InfoEqual(a, b) <==> InfoKeyOf(a) == InfoKeyOf(b)
  {
    hide WellFormed, FieldEqual, KeyOf;
    if |a.fields| == |b.fields| {
      forall k | 0 <= k < |a.fields|
        ensures SlotEqual(a.fields[k], b.fields[k]) <==> InfoKeyOf(a).fields[k] == InfoKeyOf(b).fields[k]
      {
        if a.fields[k].Some? && b.fields[k].Some? {
          FieldEqualIsKeyEqual(a.fields[k].value, b.fields[k].value);
        }
      }
    }
  }

  /** A subset of the same size is the whole set: what makes the one-sided check enough. */
  lemma SameSizeSubset(a: set<nat>, b: set<nat>)
    requires a <= b && |a| == |b|
    ensures a == b
  {
    assert |b - a| == |b| - |a|;
  }

  lemma MessageEqualIsKeyEqual(a: Message, b: Message)
    requires MessageWellFormed(a) && MessageWellFormed(b)
    ensures MessageEqual(a, b) <==> MessageKeyOf(a) == MessageKeyOf(b)
  {
    hide InfoWellFormed, InfoEqual, InfoKeyOf;
    var x, y := MessageKeyOf(a).infos, MessageKeyOf(b).infos;
    assert x.Keys == a.infos.Keys && y.Keys == b.infos.Keys;
    forall crc | crc in a.infos && crc in b.infos
      ensures InfoEqual(a.infos[crc], b.infos[crc]) <==> x[crc] == y[crc]
    {
      InfoEqualIsKeyEqual(a.infos[crc], b.infos[crc]);
    }
    if MessageEqual(a, b) {
      SameSizeSubset(a.infos.Keys, b.infos.Keys);
      assert x == y;
    }
    if MessageKeyOf(a) == MessageKeyOf(b) {
      assert a.infos.Keys == b.infos.Keys;
      forall crc | crc in a.infos
        ensures crc in b.infos && InfoEqual(a.infos[crc], b.infos[crc])
      {
        assert x[crc] == y[crc];
      }
    }
  }

  /** Definition equality is an equivalence relation. */
  lemma MessageEqualIsEquivalence(a: Message, b: Message, c: Message)
    requires MessageWellFormed(a) && MessageWellFormed(b) && MessageWellFormed(c)
    ensures MessageEqual(a, a)
    ensures MessageEqual(a, b) ==> MessageEqual(b, a)
    ensures MessageEqual(a, b) && MessageEqual(b, c) ==> MessageEqual(a, c)
  {
    hide MessageEqual, MessageKeyOf;
    MessageEqualIsKeyEqual(a, a);
    MessageEqualIsKeyEqual(a, b);
    MessageEqualIsKeyEqual(b, a);
    MessageEqualIsKeyEqual(b, c);
    MessageEqualIsKeyEqual(a, c);
  }

  /** Without the size comparison the check would not be symmetric. */
  lemma SizeComparisonIsNeeded()
    ensures var a: map<nat, Info>, b: map<nat, Info> := map[], map[0 := Info(0, 0, [])];
            OneSided(a, b) && !OneSided(b, a)
  {
    var b: map<nat, Info> := map[0 := Info(0, 0, [])];
    assert 0 in b;
  }

  /** What a field definition holds that equality does not compare. */
  datatype Caches = Caches(cached: Cached, enumDef: EnumDefinition?, fieldSize: nat, fixedFieldBytes: nat, varFieldCount: nat)

  /** The tree with other caches at every node, as another database would fill them. */
  ghost function Recached(t: Tree, caches: Tree -> Caches): (r: Tree)
    requires WellFormed(t)
    ensures WellFormed(r) && r.tag == t.tag
  {
    var c := caches(t);
    var other := t.(cached := c.cached, enumDef := c.enumDef, fieldSize := c.fieldSize);
    if t.info.None? then other
    else
      var fs := t.info.value.fields;
      var slots := seq(|fs|, i requires 0 <= i < |fs| => if fs[i].None? then None else Some(Recached(fs[i].value, caches)));
      other.(info := Some(Info(c.fixedFieldBytes, c.varFieldCount, slots)))
  }

  /** Equality ignores every cache, at any depth. */
  lemma {:induction false} CachesDoNotMatter(t: Tree, caches: Tree -> Caches)
    requires WellFormed(t)
    ensures FieldEqual(t, Recached(t, caches))
    decreases t
  {
    if t.tag == FieldArrayClass {
      var fs, gs := t.info.value.fields, Recached(t, caches).info.value.fields;
      forall i | 0 <= i < |fs|
        ensures SlotEqual(fs[i], gs[i])
      {
        if fs[i].Some? {
          CachesDoNotMatter(fs[i].value, caches);
        }
      }
    }
  }
}
