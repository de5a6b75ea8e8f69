/** The single copy of an all-fixed message writes what the loop over its fields would write. */
module FastPath {
  import opened BitLists
  import opened Writing
  import opened Fields
  import Alignment
  import opened Layouts
  import opened BinaryScript
  import BinaryEncoder

  /** y is x, but for the bytes that y skips. */
  ghost predicate Covers(x: seq<Cell>, y: seq<Cell>) {
    |x| == |y| && forall k | 0 <= k < |y| :: y[k].Out? ==> x[k] == y[k]
  }

  /** A message with fixed fields only, none of them empty, in the storage BuildFieldInfo gives it. */
  ghost predicate FixedMessage(b: Body, info: Layout) {
    && Laid(info) && |b.fixed| == info.fixedFieldBytes
    && forall i | 0 <= i < |info.fields| :: IsFixed(info.fields[i]) && FixedSize(info.fields[i]) > 0
  }

  lemma FixedIsEncodable(b: Body, info: Layout)
    requires FixedMessage(b, info)
    ensures AllEncodable(b, info.fields)
  {
    forall i | 0 <= i < |info.fields|
      ensures FieldEncodable(b, info.fields[i])
    {
      LaidFieldsAreDisjoint(info, i, i);
    }
  }

  lemma GapThenBytes(c: seq<Cell>, fixed: seq<byte>, end: nat, index: nat, size: nat, cells: seq<Cell>)
    requires end <= index && index + size <= |fixed| && Covers(c + Cells(fixed[..end]), cells)
    ensures var s := [Gap(index - end)] + Text(fixed[index..index + size]);
            && Size(s) == index + size - end && Plain(s)
            && Covers(c + Cells(fixed[..index + size]), Apply(cells, s))
  {
    var gap, value := [Gap(index - end)], Text(fixed[index..index + size]);
    var s := gap + value;
    SizeConcat(gap, value);
    OneSize(gap[0]);
    OneSize(value[0]);
    ApplyConcat(cells, gap, value);
    OneApply(cells, gap[0]);
    OneApply(Apply(cells, gap), value[0]);
    var x, y := c + Cells(fixed[..index + size]), cells + Skips(index - end) + Cells(fixed[index..index + size]);
    assert Apply(cells, s) == y;
    forall k | 0 <= k < |y| && y[k].Out?
      ensures x[k] == y[k]
    {
      if k < |cells| {
        assert (c + Cells(fixed[..end]))[k] == cells[k];
      }
    }
  }

  /** One field of the loop: its gap and its bytes. */
  lemma FieldCopies(b: Body, d: Def, flatten: bool, start: nat, end: nat, c: seq<Cell>, cells: seq<Cell>)
    requires FieldEncodable(b, d) && IsFixed(d) && FixedSize(d) > 0
    requires d.index == end + Alignment.OemAlignment(d.length, end) && d.index + FixedSize(d) <= |b.fixed|
    requires Covers(c + Cells(b.fixed[..end]), cells)
    ensures var s := FieldScript(b, d, flatten, start, start + end);
            && Size(s) == d.index + FixedSize(d) - end && Plain(s)
            && Covers(c + Cells(b.fixed[..d.index + FixedSize(d)]), Apply(cells, s))
  {
    hide Covers, Apply, Size, Plain, Alignment.OemAlignment;
    GapThenBytes(c, b.fixed, end, d.index, FixedSize(d), cells);
  }

  /** The script has copied the fixed region up to this offset. */
  ghost predicate Copies(c: seq<Cell>, fixed: seq<byte>, s: Script, end: nat) {
    Size(s) == end <= |fixed| && Plain(s) && Covers(c + Cells(fixed[..end]), Apply(c, s))
  }

  lemma CopiesThen(c: seq<Cell>, b: Body, d: Def, flatten: bool, start: nat, s: Script, end: nat)
    requires FieldEncodable(b, d) && IsFixed(d) && FixedSize(d) > 0
    requires d.index == end + Alignment.OemAlignment(d.length, end) && d.index + FixedSize(d) <= |b.fixed|
    requires Copies(c, b.fixed, s, end)
    ensures Copies(c, b.fixed, s + FieldScript(b, d, flatten, start, start + end), d.index + FixedSize(d))
  {
    hide FieldEncodable, FieldScript, Covers, Alignment.OemAlignment, Apply, Size;
    var t := FieldScript(b, d, flatten, start, start + end);
    FieldCopies(b, d, flatten, start, end, c, Apply(c, s));
    SizeConcat(s, t);
    ApplyConcat(c, s, t);
  }

  /** The loop over the first i fields. */
  lemma {:induction false} LoopCopies(b: Body, info: Layout, flatten: bool, start: nat, i: nat, c: seq<Cell>)
    requires FixedMessage(b, info) && AllEncodable(b, info.fields) && i <= |info.fields|
    ensures AllEncodable(b, info.fields[..i])
    ensures Copies(c, b.fixed, FieldsScript(b, info.fields[..i], flatten, start), FixedEnd(info.fields[..i]))
  {
    hide FieldEncodable, FieldScript, Copies, Alignment.OemAlignment, FixedEnd, FieldsScript, FixedMessage, FixedSize;
    var fields := info.fields;
    if i == 0 {
      Nothing(c, b, fields, flatten, start);
    } else {
      LoopCopies(b, info, flatten, start, i - 1, c);
      BinaryEncoder.FieldsScriptNext(b, fields, flatten, start, i - 1);
      FieldPlace(b, info, i - 1);
      var before, end := FieldsScript(b, fields[..i - 1], flatten, start), FixedEnd(fields[..i - 1]);
      CopiedSize(c, b.fixed, before, end);
      CopiesThen(c, b, fields[i - 1], flatten, start, before, end);
    }
  }

  lemma CopiedSize(c: seq<Cell>, fixed: seq<byte>, s: Script, end: nat)
    requires Copies(c, fixed, s, end)
    ensures Size(s) == end
  {
  }

  lemma Nothing(c: seq<Cell>, b: Body, fields: seq<Def>, flatten: bool, start: nat)
    ensures AllEncodable(b, fields[..0]) && Sized(fields[..0])
    ensures Copies(c, b.fixed, FieldsScript(b, fields[..0], flatten, start), FixedEnd(fields[..0]))
  {
    assert fields[..0] == [];
  }

  /** Field i of a fixed message begins at the first aligned offset behind those before it. */
  lemma FieldPlace(b: Body, info: Layout, i: nat)
    requires FixedMessage(b, info) && i < |info.fields|
    ensures Sized(info.fields) && Sized(info.fields[..i]) && Sized(info.fields[..i + 1])
    ensures var d, end := info.fields[i], FixedEnd(info.fields[..i]);
            && IsFixed(d) && FixedSize(d) > 0 && d.length > 0
            && d.index == end + Alignment.OemAlignment(d.length, end)
            && d.index + FixedSize(d) == FixedEnd(info.fields[..i + 1]) <= |b.fixed|
  {
    assert IndexAt(info.fields, i);
    StoredAt(info, i);
  }

  /** The fast path succeeds when the loop over the fields does, in the same space, and writes the
      same bytes; where the loop skips bytes to align, the fast path copies the stored ones. */
  lemma FastPathIsFieldLoop(b: Body, info: Layout, flatten: bool, start: nat, left: nat, c: seq<Cell>)
    requires FixedMessage(b, info) && b.vars == []
    ensures AllEncodable(b, info.fields)
    ensures var fast, loop := BodyScript(b, info.fields, flatten, start), FieldsScript(b, info.fields, flatten, start);
            && Size(fast) == Size(loop) && (Fits(fast, left) <==> Fits(loop, left))
            && Covers(Apply(c, fast), Apply(c, loop))
  {
    hide FieldsScript, FixedEnd, Covers, FieldEncodable, IndexAt;
    FixedIsEncodable(b, info);
    LoopCopies(b, info, flatten, start, |info.fields|, c);
    assert info.fields[..|info.fields|] == info.fields;
    assert b.fixed[..|b.fixed|] == b.fixed;
    PlainFits(FieldsScript(b, info.fields, flatten, start), left);
    PlainFits(Text(b.fixed), left);
    assert Text(b.fixed)[..0] == [];
  }
}
