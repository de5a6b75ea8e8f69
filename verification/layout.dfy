/** BuildFieldInfo: where the fields of a message are stored. */
module Layouts {
  import opened Fields
  import opened Alignment

  predicate IsFixed(d: Def) {
    d.fieldType == SIMPLE || d.fieldType == ENUM || d.fieldType == RESPONSE_ID || d.fieldType == FIXED_LENGTH_ARRAY
  }

  function FixedSize(d: Def): nat {
    if d.fieldType == FIXED_LENGTH_ARRAY then d.length * d.arrayLength else d.length
  }

  ghost predicate Sized(fields: seq<Def>) {
    forall i | 0 <= i < |fields| :: IsFixed(fields[i]) ==> fields[i].length > 0
  }

  /** The offset behind the last fixed field. */
  ghost function FixedEnd(fields: seq<Def>): nat
    requires Sized(fields)
  {
    if fields == [] then 0
    else
      var d, n := fields[|fields| - 1], FixedEnd(fields[..|fields| - 1]);
      if IsFixed(d) then n + OemAlignment(d.length, n) + FixedSize(d) else n
  }

  ghost function VarCount(fields: seq<Def>): nat {
    if fields == [] then 0 else VarCount(fields[..|fields| - 1]) + (if IsFixed(fields[|fields| - 1]) then 0 else 1)
  }

  /** Each fixed field lies at the first aligned offset behind those before it, and each variable
      field has the next slot. */
  ghost predicate IndexAt(fields: seq<Def>, i: nat)
    requires i < |fields| && Sized(fields)
  {
    var n := FixedEnd(fields[..i]);
    fields[i].index == if IsFixed(fields[i]) then n + OemAlignment(fields[i].length, n) else VarCount(fields[..i])
  }

  ghost predicate Laid(info: Layout) {
    && Sized(info.fields)
    && info.fixedFieldBytes == FixedEnd(info.fields) && info.varFieldCount == VarCount(info.fields)
    && forall i | 0 <= i < |info.fields| :: IndexAt(info.fields, i)
  }

  /** The fields apart from their storage. */
  ghost predicate SameFields(fields: seq<Def>, before: seq<Def>) {
    |fields| == |before| && forall i | 0 <= i < |fields| :: fields[i] == before[i].(index := fields[i].index)
  }

  lemma {:induction false} SameEnds(fields: seq<Def>, before: seq<Def>)
    requires SameFields(fields, before) && Sized(before)
    ensures Sized(fields) && FixedEnd(fields) == FixedEnd(before) && VarCount(fields) == VarCount(before)
  {
    if fields != [] {
      SameEnds(fields[..|fields| - 1], before[..|before| - 1]);
    }
  }

  /** One more field, stored behind the others. */
  lemma FieldAdded(fields: seq<Def>, f: Def)
    requires Sized(fields) && (IsFixed(f) ==> f.length > 0)
    requires forall k | 0 <= k < |fields| :: IndexAt(fields, k)
    requires f.index == if IsFixed(f) then FixedEnd(fields) + OemAlignment(f.length, FixedEnd(fields)) else VarCount(fields)
    ensures var more := fields + [f];
            && Sized(more)
            && FixedEnd(more) == (if IsFixed(f) then f.index + FixedSize(f) else FixedEnd(fields))
            && VarCount(more) == VarCount(fields) + (if IsFixed(f) then 0 else 1)
            && forall k | 0 <= k < |more| :: IndexAt(more, k)
  {
    hide OemAlignment, FixedSize;
    var more := fields + [f];
    assert more[..|fields|] == fields;
    forall k | 0 <= k < |more|
      ensures IndexAt(more, k)
    {
      if k < |fields| {
        assert IndexAt(fields, k) && more[..k] == fields[..k];
      }
    }
  }

  /** BuildFieldInfo with the OEM alignment function. */
  method BuildFieldInfo(before: seq<Def>) returns (info: Layout)
    requires Sized(before)
    ensures Laid(info) && SameFields(info.fields, before)
  {
    hide OemAlignment, FixedSize, FixedEnd, VarCount, IndexAt;
    var fixedBytes, varFields := 0, 0;
    var fields: seq<Def> := [];
    NoEnds();
    for i := 0 to |before|
      invariant SameFields(fields, before[..i])
      invariant Sized(fields) && fixedBytes == FixedEnd(fields) && varFields == VarCount(fields)
      invariant forall k | 0 <= k < i :: IndexAt(fields, k)
    {
      var f := before[i];
      if IsFixed(f) {
        fixedBytes := fixedBytes + OemAlignment(f.length, fixedBytes);
        f := f.(index := fixedBytes);
        fixedBytes := fixedBytes + FixedSize(f);
      } else {
        f := f.(index := varFields);
        varFields := varFields + 1;
      }
      FieldAdded(fields, f);
      fields := fields + [f];
    }
    assert before[..|before|] == before;
    info := Layout(fixedBytes, varFields, fields);
  }

  lemma NoEnds()
    ensures Sized([]) && FixedEnd([]) == 0 && VarCount([]) == 0
  {
  }

  lemma {:induction false} EndsGrow(fields: seq<Def>, i: nat)
    requires Sized(fields) && i <= |fields|
    ensures FixedEnd(fields[..i]) <= FixedEnd(fields) && VarCount(fields[..i]) <= VarCount(fields)
    decreases |fields| - i
  {
    if i == |fields| {
      assert fields[..i] == fields;
    } else {
      assert fields[..i + 1][..i] == fields[..i];
      EndsGrow(fields, i + 1);
    }
  }

  /** Where field i is stored, and that the field ends before the end of those up to it. */
  lemma StoredAt(info: Layout, i: nat)
    requires Laid(info) && i < |info.fields|
    ensures var d, fields := info.fields[i], info.fields;
            && FixedEnd(fields[..i]) <= FixedEnd(fields[..i + 1]) <= info.fixedFieldBytes
            && VarCount(fields[..i]) <= VarCount(fields[..i + 1]) <= info.varFieldCount
            && if IsFixed(d) then
                 && FixedEnd(fields[..i]) <= d.index && d.index % (if d.length < 4 then d.length else 4) == 0
                 && d.index + FixedSize(d) == FixedEnd(fields[..i + 1])
               else d.index == VarCount(fields[..i]) < VarCount(fields[..i + 1])
  {
    hide OemAlignment, FixedSize;
    var fields := info.fields;
    assert IndexAt(fields, i);
    if IsFixed(fields[i]) {
      AlignmentIsLeast(fields[i].length, FixedEnd(fields[..i]), 0);
    }
    assert fields[..i + 1][..i] == fields[..i];
    EndsGrow(fields, i + 1);
  }

  /** Fixed fields are aligned, lie in the fixed region and do not overlap; variable fields have
      slots of their own. */
  lemma LaidFieldsAreDisjoint(info: Layout, i: nat, j: nat)
    requires Laid(info) && i < |info.fields| && j < |info.fields|
    ensures var d := info.fields[i];
            IsFixed(d) ==>
              && d.length > 0 && d.index % (if d.length < 4 then d.length else 4) == 0
              && d.index + FixedSize(d) <= info.fixedFieldBytes
    ensures var d, e := info.fields[i], info.fields[j];
            i < j && IsFixed(d) && IsFixed(e) ==> d.index + FixedSize(d) <= e.index
    ensures !IsFixed(info.fields[i]) ==> info.fields[i].index < info.varFieldCount
    ensures var d, e := info.fields[i], info.fields[j];
            i < j && !IsFixed(d) && !IsFixed(e) ==> d.index < e.index
  {
    var fields := info.fields;
    assert Sized(fields);
    StoredAt(info, i);
    StoredAt(info, j);
    hide OemAlignment, FixedSize, FixedEnd, VarCount, IndexAt;
    if i < j {
      EndsGrow(fields[..j], i + 1);
      assert fields[..j][..i + 1] == fields[..i + 1];
    }
  }

  /** A fixed field is at the least multiple of its size, or of four, behind the fixed field before it:
      nothing else lies between the two. */
  lemma LaidFieldsAreTight(info: Layout, i: nat, j: nat, offset: nat)
    requires Laid(info) && i < j < |info.fields| && IsFixed(info.fields[i]) && IsFixed(info.fields[j])
    requires forall k | i < k < j :: !IsFixed(info.fields[k])
    requires info.fields[i].index + FixedSize(info.fields[i]) <= offset
    requires info.fields[j].length > 0 && offset % (if info.fields[j].length < 4 then info.fields[j].length else 4) == 0
    ensures info.fields[j].index <= offset
  {
    hide OemAlignment, FixedSize, FixedEnd, VarCount;
    StoredAt(info, i);
    VarsTakeNoRoom(info.fields, i + 1, j);
    assert IndexAt(info.fields, j);
    var end := info.fields[i].index + FixedSize(info.fields[i]);
    AlignmentIsLeast(info.fields[j].length, end, offset - end);
  }

  /** The first fixed field is at offset 0. */
  lemma FirstFieldIsAtStart(info: Layout, j: nat)
    requires Laid(info) && j < |info.fields| && IsFixed(info.fields[j])
    requires forall k | 0 <= k < j :: !IsFixed(info.fields[k])
    ensures info.fields[j].index == 0
  {
    hide OemAlignment, FixedSize;
    VarsTakeNoRoom(info.fields, 0, j);
    assert info.fields[..0] == [];
    assert IndexAt(info.fields, j);
    AlignmentIsLeast(info.fields[j].length, 0, 0);
  }

  lemma {:induction false} VarsTakeNoRoom(fields: seq<Def>, i: nat, j: nat)
    requires Sized(fields) && i <= j <= |fields| && forall k | i <= k < j :: !IsFixed(fields[k])
    ensures FixedEnd(fields[..i]) == FixedEnd(fields[..j])
    decreases j - i
  {
    if i < j {
      VarsTakeNoRoom(fields, i, j - 1);
      assert fields[..j][..j - 1] == fields[..j - 1];
    }
  }

  /** Variable fields take the slots in order: the slot of a field is the number of those before it. */
  lemma {:induction false} SlotsInOrder(info: Layout, i: nat, j: nat)
    requires Laid(info) && i < j < |info.fields| && !IsFixed(info.fields[i]) && !IsFixed(info.fields[j])
    requires forall k | i < k < j :: IsFixed(info.fields[k])
    ensures info.fields[j].index == info.fields[i].index + 1
  {
    hide OemAlignment, FixedSize;
    StoredAt(info, i);
    assert IndexAt(info.fields, i) && IndexAt(info.fields, j);
    assert info.fields[..i + 1][..i] == info.fields[..i];
    FixedTakeNoSlot(info.fields, i + 1, j);
  }

  /** The first variable field has slot 0. */
  lemma FirstSlotIsZero(info: Layout, j: nat)
    requires Laid(info) && j < |info.fields| && !IsFixed(info.fields[j])
    requires forall k | 0 <= k < j :: IsFixed(info.fields[k])
    ensures info.fields[j].index == 0
  {
    FixedTakeNoSlot(info.fields, 0, j);
    assert info.fields[..0] == [];
    assert IndexAt(info.fields, j);
  }

  /** The region ends with the last fixed field, and there are no slots behind that of the last
      variable field. */
  lemma NothingBehindLast(info: Layout, i: nat)
    requires Laid(info) && i < |info.fields|
    ensures IsFixed(info.fields[i]) && (forall k | i < k < |info.fields| :: !IsFixed(info.fields[k])) ==>
              info.fixedFieldBytes == info.fields[i].index + FixedSize(info.fields[i])
    ensures !IsFixed(info.fields[i]) && (forall k | i < k < |info.fields| :: IsFixed(info.fields[k])) ==>
              info.varFieldCount == info.fields[i].index + 1
  {
    hide OemAlignment, FixedSize, FixedEnd, VarCount;
    var fields := info.fields;
    StoredAt(info, i);
    assert fields[..|fields|] == fields;
    if IsFixed(fields[i]) && (forall k | i < k < |fields| :: !IsFixed(fields[k])) {
      VarsTakeNoRoom(fields, i + 1, |fields|);
    } else if !IsFixed(fields[i]) && (forall k | i < k < |fields| :: IsFixed(fields[k])) {
      FixedTakeNoSlot(fields, i + 1, |fields|);
      OneSlot(fields, i);
    }
  }

  lemma OneSlot(fields: seq<Def>, i: nat)
    requires i < |fields| && !IsFixed(fields[i])
    ensures VarCount(fields[..i + 1]) == VarCount(fields[..i]) + 1
  {
    assert fields[..i + 1][..i] == fields[..i];
  }

  lemma {:induction false} FixedTakeNoSlot(fields: seq<Def>, i: nat, j: nat)
    requires i <= j <= |fields| && forall k | i <= k < j :: IsFixed(fields[k])
    ensures VarCount(fields[..i]) == VarCount(fields[..j])
    decreases j - i
  {
    if i < j {
      FixedTakeNoSlot(fields, i, j - 1);
      assert fields[..j][..j - 1] == fields[..j - 1];
    }
  }

  /** A byte and a 16-bit value: the second is at offset 2, and the two take 4 bytes. */
  lemma ByteAndShort(info: Layout)
    requires Laid(info) && |info.fields| == 2
    requires info.fields[0].fieldType == info.fields[1].fieldType == SIMPLE
    requires info.fields[0].length == 1 && info.fields[1].length == 2
    ensures info.fields[0].index == 0 && info.fields[1].index == 2 && info.fixedFieldBytes == 4
  {
    var fields := info.fields;
    assert IndexAt(fields, 0) && IndexAt(fields, 1);
    assert fields[..0] == [] && fields[..1][..0] == [] && fields[..2] == fields;
    StoredAt(info, 1);
  }

  /** The size that the database gives one row of a FIELD_ARRAY: the sum of the field sizes. */
  ghost function PackedSize(fields: seq<Def>): nat {
    if fields == [] then 0
    else PackedSize(fields[..|fields| - 1]) + RowShare(fields[|fields| - 1])
  }

  /** A nested FIELD_ARRAY or a response adds nothing to its row. */
  function RowShare(d: Def): nat {
    if d.fieldType == SIMPLE || d.fieldType == ENUM then d.length
    else if d.fieldType == STRING || d.fieldType == VARIABLE_LENGTH_ARRAY || d.fieldType == FIXED_LENGTH_ARRAY then
      d.length * d.arrayLength
    else 0
  }

  /** The bytes of the fixed region that alignment leaves between fields. */
  ghost function GapBytes(fields: seq<Def>): nat
    requires Sized(fields)
  {
    if fields == [] then 0
    else
      var d, n := fields[|fields| - 1], fields[..|fields| - 1];
      GapBytes(n) + (if IsFixed(d) then OemAlignment(d.length, FixedEnd(n)) else 0)
  }

  ghost predicate AllFixed(fields: seq<Def>) {
    forall i | 0 <= i < |fields| :: IsFixed(fields[i]) && fields[i].fieldType != RESPONSE_ID
  }

  /** The database size of a row leaves its alignment gaps out. */
  lemma {:induction false} PackedLacksGaps(fields: seq<Def>)
    requires Sized(fields) && AllFixed(fields)
    ensures FixedEnd(fields) == PackedSize(fields) + GapBytes(fields)
  {
    if fields != [] {
      PackedLacksGaps(fields[..|fields| - 1]);
    }
  }
}
