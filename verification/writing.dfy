/** The output buffer of the encoders, and scripts: what an encoder writes, whatever the room. */
module Writing {
  import opened BitLists
  import opened Hex
  import opened Memory

  /** An output position: a byte, or one that alignment skipped without writing. */
  datatype Cell = Out(b: byte) | Skipped

  function Cells(text: seq<byte>): (c: seq<Cell>)
    ensures |c| == |text|
  {
    seq(|text|, i requires 0 <= i < |text| => Out(text[i]))
  }

  function Skips(n: nat): (c: seq<Cell>)
    ensures |c| == n
  {
    seq(n, _ => Skipped)
  }

  /** One step of an encoder: write a text, for which slack more bytes must be free; overwrite
      the last byte; skip bytes; or refuse. */
  datatype Atom =
    | Put(text: seq<byte>, slack: nat)
    | Patch(c: byte)
    | Gap(n: nat)
    | Refuse

  type Script = seq<Atom>

  function Text(text: seq<byte>): Script { [Put(text, 0)] }

  function AtomSize(a: Atom): nat {
    if a.Put? then |a.text| else if a.Gap? then a.n else 0
  }

  predicate AtomFits(a: Atom, left: nat) {
    match a
    case Put(text, slack) => |text| + slack <= left
    case Patch(_) => true
    case Gap(n) => n <= left
    case Refuse => false
  }

  function AtomApply(cells: seq<Cell>, a: Atom): (r: seq<Cell>)
    ensures |r| == |cells| + AtomSize(a)
  {
    match a
    case Put(text, _) => cells + Cells(text)
    case Patch(c) => if cells == [] then cells else cells[..|cells| - 1] + [Out(c)]
    case Gap(n) => cells + Skips(n)
    case Refuse => cells
  }

  /** The number of bytes a script advances. */
  function Size(s: Script): nat {
    if s == [] then 0 else Size(s[..|s| - 1]) + AtomSize(s[|s| - 1])
  }

  /** Does the script succeed with this much room? */
  predicate Fits(s: Script, left: nat) {
    s == [] ||
    (Fits(s[..|s| - 1], left) && Size(s[..|s| - 1]) <= left &&
     AtomFits(s[|s| - 1], left - Size(s[..|s| - 1])))
  }

  /** The output after the script, from the output before it. */
  function Apply(cells: seq<Cell>, s: Script): (r: seq<Cell>)
    ensures |r| == |cells| + Size(s)
  {
    if s == [] then cells else AtomApply(Apply(cells, s[..|s| - 1]), s[|s| - 1])
  }

  lemma {:induction false} SizeConcat(s: Script, t: Script)
    ensures Size(s + t) == Size(s) + Size(t)
    decreases |t|
  {
    if t == [] {
      assert s + t == s;
    } else {
      assert (s + t)[..|s + t| - 1] == s + t[..|t| - 1];
      SizeConcat(s, t[..|t| - 1]);
    }
  }

  lemma {:induction false} FitsSize(s: Script, left: nat)
    requires Fits(s, left)
    ensures Size(s) <= left
  {
  }

  lemma {:induction false} FitsConcat(s: Script, t: Script, left: nat)
    ensures Fits(s + t, left) <==> Fits(s, left) && Size(s) <= left && Fits(t, left - Size(s))
    decreases |t|
  {
    if t == [] {
      assert s + t == s;
      if Fits(s, left) {
        FitsSize(s, left);
      }
    } else {
      var t' := t[..|t| - 1];
      assert (s + t)[..|s + t| - 1] == s + t';
      FitsConcat(s, t', left);
      SizeConcat(s, t');
    }
  }

  lemma {:induction false} ApplyConcat(cells: seq<Cell>, s: Script, t: Script)
    ensures Apply(cells, s + t) == Apply(Apply(cells, s), t)
    decreases |t|
  {
    if t == [] {
      assert s + t == s;
    } else {
      assert (s + t)[..|s + t| - 1] == s + t[..|t| - 1];
      ApplyConcat(cells, s, t[..|t| - 1]);
    }
  }

  /** A script that succeeds in some room succeeds in any larger one; what it writes does not
      depend on the room at all. */
  lemma {:induction false} FitsMonotone(s: Script, left: nat, more: nat)
    requires Fits(s, left) && left <= more
    ensures Fits(s, more)
  {
    if s != [] {
      FitsMonotone(s[..|s| - 1], left, more);
    }
  }

  /** The script has no step that refuses. */
  ghost predicate Accepted(s: Script) {
    forall i | 0 <= i < |s| :: !s[i].Refuse?
  }

  lemma {:induction false} FitsAccepted(s: Script, left: nat)
    requires Fits(s, left)
    ensures Accepted(s)
  {
    if s != [] {
      FitsAccepted(s[..|s| - 1], left);
    }
  }

  lemma AcceptedParts(s: Script, t: Script)
    requires Accepted(s + t)
    ensures Accepted(s) && Accepted(t)
  {
    forall i | 0 <= i < |s| ensures !s[i].Refuse? { assert (s + t)[i] == s[i]; }
    forall i | 0 <= i < |t| ensures !t[i].Refuse? { assert (s + t)[|s| + i] == t[i]; }
  }

  lemma RefuseNotAccepted()
    ensures !Accepted([Refuse])
  {
    assert [Refuse][0].Refuse?;
  }

  lemma OneSize(a: Atom)
    ensures Size([a]) == AtomSize(a)
  {
    assert [a][..0] == [];
  }

  lemma OneApply(c: seq<Cell>, a: Atom)
    ensures Apply(c, [a]) == AtomApply(c, a)
  {
    assert [a][..0] == [];
  }

  ghost predicate EndsWith(c: seq<Cell>, ch: byte) {
    |c| > 0 && c[|c| - 1] == Out(ch)
  }

  /** The script only writes texts and skips bytes. */
  ghost predicate Plain(s: Script) {
    forall i | 0 <= i < |s| :: s[i].Gap? || (s[i].Put? && s[i].slack == 0)
  }

  /** Such a script succeeds exactly when there is room for all it advances. */
  lemma {:induction false} PlainFits(s: Script, left: nat)
    requires Plain(s)
    ensures Fits(s, left) <==> Size(s) <= left
  {
    if s != [] {
      PlainFits(s[..|s| - 1], left);
    }
  }

  // ---------------------------------------------------------------- one run of a script

  /** From output c and room l, the script s ended with ok, output d and room m. */
  ghost predicate Ran(c: seq<Cell>, l: nat, s: Script, ok: bool, d: seq<Cell>, m: nat) {
    ok == Fits(s, l) && (ok ==> d == Apply(c, s) && Size(s) <= l && m == l - Size(s))
  }

  lemma RanNothing(c: seq<Cell>, l: nat)
    ensures Ran(c, l, [], true, c, l)
  {
  }

  lemma RanThen(c: seq<Cell>, l: nat, s: Script, d: seq<Cell>, m: nat, t: Script, ok: bool, e: seq<Cell>, n: nat)
    requires Ran(c, l, s, true, d, m) && Ran(d, m, t, ok, e, n)
    ensures Ran(c, l, s + t, ok, e, n)
  {
    FitsConcat(s, t, l);
    ApplyConcat(c, s, t);
    SizeConcat(s, t);
  }

  lemma RanFailed(c: seq<Cell>, l: nat, s: Script, t: Script, d: seq<Cell>, m: nat, e: seq<Cell>, n: nat)
    requires Ran(c, l, s, false, d, m)
    ensures Ran(c, l, s + t, false, e, n)
  {
    FitsConcat(s, t, l);
  }

  /** Two runs of one script: what succeeds in some room succeeds in more, with the same output, and
      what is left differs by as much as the room did. */
  lemma MoreRoomSameOutput(c: seq<Cell>, l: nat, s: Script, d: seq<Cell>, m: nat, more: nat, ok: bool, e: seq<Cell>, n: nat)
    requires Ran(c, l, s, true, d, m) && Ran(c, more, s, ok, e, n) && l <= more
    ensures ok && e == d && n - m == more - l
  {
    FitsMonotone(s, l, more);
  }

  // ---------------------------------------------------------------- the buffer

  /** The buffer window, the write pointer and the bytes left, as every writer advances them. */
  class Writer {
    const buffer: array<byte>
    const start: nat
    const limit: nat
    var pos: nat
    var left: nat
    ghost var cells: seq<Cell>

    /** Bytes advanced plus bytes left is the capacity, and the output is in the buffer. */
    ghost predicate Valid()
      reads this, buffer
    {
      && start <= pos && pos + left == limit <= buffer.Length
      && |cells| == pos - start
      && forall i | 0 <= i < |cells| :: cells[i].Out? ==> buffer[start + i] == cells[i].b
    }

    constructor (buffer: array<byte>, start: nat, capacity: nat)
      requires start + capacity <= buffer.Length
      ensures Valid() && cells == [] && left == capacity
      ensures this.buffer == buffer && this.start == start && limit == start + capacity
    {
      this.buffer, this.start, this.limit := buffer, start, start + capacity;
      pos, left, cells := start, capacity, [];
    }

    /** Nothing outside the window changes. */
    twostate predicate Outside()
      requires buffer.Length >= limit >= start
      reads buffer
    {
      buffer[..start] == old(buffer[..start]) && buffer[limit..] == old(buffer[limit..])
    }

    /** std::memcpy of a text that fits, and the advance of the pointer and the counter. */
    method Emit(text: seq<byte>)
      requires Valid() && |text| <= left
      modifies this, buffer
      ensures Valid() && Outside()
      ensures cells == old(cells) + Cells(text) && left == old(left) - |text|
    {
      for i := 0 to |text|
        modifies buffer
        invariant buffer[..pos] == old(buffer[..pos])
        invariant forall k | 0 <= k < i :: buffer[pos + k] == text[k]
        invariant buffer[limit..] == old(buffer[limit..])
      {
        buffer[pos + i] := text[i];
      }
      Advance(text, old(buffer[..pos]));
    }

    /** The text has been stored at the write pointer. */
    method Advance(text: seq<byte>, ghost before: seq<byte>)
      requires start <= pos && pos + left == limit <= buffer.Length && |text| <= left
      requires |cells| == pos - start && |before| == pos && buffer[..pos] == before
      requires forall i | 0 <= i < |cells| :: cells[i].Out? ==> before[start + i] == cells[i].b
      requires buffer[pos..pos + |text|] == text
      modifies this
      ensures Valid() && cells == old(cells) + Cells(text) && left == old(left) - |text|
    {
      forall j | start <= j < pos
        ensures buffer[j] == before[j]
      {
        assert buffer[j] == buffer[..pos][j];
      }
      forall k | 0 <= k < |text|
        ensures buffer[pos + k] == text[k]
      {
        assert buffer[pos + k] == buffer[pos..pos + |text|][k];
      }
      cells := cells + Cells(text);
      pos := pos + |text|;
      left := left - |text|;
    }

    /** CopyToBuffer of a character, string or string_view, and SetInBuffer. */
    method CopyToBuffer(text: seq<byte>) returns (ok: bool)
      requires Valid()
      modifies this, buffer
      ensures Valid() && Outside()
      ensures Ran(old(cells), old(left), Text(text), ok, cells, left)
    {
      ok := WriteFormatted(Put(text, 0));
    }

    /** A writer whose text is a function of the value alone: to_chars and the field converters.
        A converter may refuse, and may ask for more room than it uses. */
    method WriteFormatted(f: Atom) returns (ok: bool)
      requires Valid() && (f.Put? || f.Refuse?)
      modifies this, buffer
      ensures Valid() && Outside()
      ensures Ran(old(cells), old(left), [f], ok, cells, left)
    {
      OneAtom(cells, left, f);
      if f.Refuse? || left < |f.text| + f.slack {
        return false;
      }
      Emit(f.text);
      return true;
    }

    method SetInBuffer(item: byte, n: nat) returns (ok: bool)
      requires Valid()
      modifies this, buffer
      ensures Valid() && Outside()
      ensures Ran(old(cells), old(left), Text(Repeat(item, n)), ok, cells, left)
    {
      ok := WriteFormatted(Put(Repeat(item, n), 0));
    }

    /** CopyAllToBuffer: each text in turn until one does not fit. */
    method CopyAllToBuffer(texts: seq<seq<byte>>) returns (ok: bool)
      requires Valid()
      modifies this, buffer
      ensures Valid() && Outside()
      ensures Ran(old(cells), old(left), Texts(texts), ok, cells, left)
    {
      hide Ran, Fits, Apply, Size;
      RanNothing(cells, left);
      assert Texts(texts[..0]) == [];
      for i := 0 to |texts|
        invariant Valid() && Outside()
        invariant Ran(old(cells), old(left), Texts(texts[..i]), true, cells, left)
      {
        ghost var c, l := cells, left;
        ok := CopyToBuffer(texts[i]);
        RanThen(old(cells), old(left), Texts(texts[..i]), c, l, Text(texts[i]), ok, cells, left);
        TextsSplit(texts, i);
        if !ok {
          RanFailed(old(cells), old(left), Texts(texts[..i]) + Text(texts[i]), Texts(texts[i + 1..]), cells, left, cells, left);
          return;
        }
      }
      assert texts[..|texts|] == texts;
      return true;
    }

    /** The pointer moved over n bytes that are not written. */
    method Skip(n: nat) returns (ok: bool)
      requires Valid()
      modifies this
      ensures Valid()
      ensures Ran(old(cells), old(left), [Gap(n)], ok, cells, left)
    {
      OneAtom(cells, left, Gap(n));
      if n > left {
        return false;
      }
      cells := cells + Skips(n);
      pos := pos + n;
      left := left - n;
      return true;
    }

    /** *(ptr - 1) = c */
    method Overwrite(c: byte)
      requires Valid() && |cells| > 0
      modifies this, buffer
      ensures Valid() && Outside()
      ensures Ran(old(cells), old(left), [Patch(c)], true, cells, left)
    {
      OneAtom(cells, left, Patch(c));
      buffer[pos - 1] := c;
      cells := cells[..|cells| - 1] + [Out(c)];
    }

    /** WriteHexToBuffer: digits, moved right and zero filled if there are fewer than width. */
    method WriteHexToBuffer(value: nat, maxDigits: nat, width: nat) returns (ok: bool)
      requires Valid() && |HexText(value)| <= maxDigits
      modifies this, buffer
      ensures Valid() && Outside()
      ensures Ran(old(cells), old(left), [HexAtom(value, maxDigits, width)], ok, cells, left)
    {
      hide Ran, HexText;
      OneAtom(cells, left, HexAtom(value, maxDigits, width));
      var required := if width >= maxDigits then width else maxDigits;
      if left < required {
        return false;
      }
      var digits := HexText(value);
      var pad := if |digits| < width then width - |digits| else 0;
      ghost var before := buffer[..pos];
      ZeroPad(digits, pad);
      StorePadded(digits, pad);
      Advance(PaddedHex(value, width), before);
      return true;
    }

    /** The digits stored, moved right by pad and the gap filled with '0'. */
    method StorePadded(digits: seq<byte>, pad: nat)
      requires start <= pos && pos + pad + |digits| <= limit <= buffer.Length
      modifies buffer
      ensures Outside() && buffer[..pos] == old(buffer[..pos])
      ensures buffer[pos..pos + pad + |digits|] == Repeat(ZERO, pad) + digits
    {
      hide Stored;
      Padded(buffer[..], pos, pad, digits);
      StoredParts(buffer[..], pos, Repeat(ZERO, pad) + digits, start, limit);
      Store(buffer, pos, digits);
      MemMove(buffer, pos + pad, pos, |digits|);
      Store(buffer, pos, Repeat(ZERO, pad));
    }
  }

  lemma Padded(s: seq<byte>, pos: nat, pad: nat, digits: seq<byte>)
    requires pos + pad + |digits| <= |s|
    ensures var stored := Stored(s, pos, digits);
            && stored[pos..pos + |digits|] == digits
            && Stored(Stored(stored, pos + pad, digits), pos, Repeat(ZERO, pad)) == Stored(s, pos, Repeat(ZERO, pad) + digits)
  {
    var stored, tail := Stored(s, pos, digits), s[pos + pad + |digits|..];
    assert stored[pos + pad + |digits|..] == tail;
    var moved := Stored(stored, pos + pad, digits);
    assert moved[pos + pad..] == digits + tail;
    assert moved[..pos] == s[..pos];
  }

  lemma ZeroPad(digits: seq<byte>, pad: nat)
    ensures pad == 0 ==> Repeat(ZERO, pad) + digits == digits
  {
  }

  function HexAtom(value: nat, maxDigits: nat, width: nat): Atom
    requires |HexText(value)| <= maxDigits
  {
    Put(PaddedHex(value, width), if maxDigits > |PaddedHex(value, width)| then maxDigits - |PaddedHex(value, width)| else 0)
  }

  function Texts(texts: seq<seq<byte>>): Script {
    seq(|texts|, i requires 0 <= i < |texts| => Put(texts[i], 0))
  }

  lemma TextsSplit(texts: seq<seq<byte>>, i: nat)
    requires i < |texts|
    ensures Texts(texts[..i + 1]) == Texts(texts[..i]) + Text(texts[i])
    ensures Texts(texts) == (Texts(texts[..i]) + Text(texts[i])) + Texts(texts[i + 1..])
  {
  }

  lemma OneAtom(c: seq<Cell>, l: nat, a: Atom)
    ensures AtomFits(a, l) ==> AtomSize(a) <= l && Ran(c, l, [a], true, AtomApply(c, a), l - AtomSize(a))
    ensures !AtomFits(a, l) ==> forall d, m :: Ran(c, l, [a], false, d, m)
  {
    assert [a][..0] == [];
  }

  /** What a run of a single text tells. */
  lemma PutRan(c: seq<Cell>, l: nat, text: seq<byte>, slack: nat, ok: bool, d: seq<Cell>, m: nat)
    requires Ran(c, l, [Put(text, slack)], ok, d, m)
    ensures ok <==> |text| + slack <= l
    ensures ok ==> d == c + Cells(text) && m == l - |text|
  {
    var s := [Put(text, slack)];
    assert s[..|s| - 1] == [];
    assert Fits(s, l) <==> AtomFits(s[0], l);
    OneSize(s[0]);
    OneApply(c, s[0]);
  }

  /** Written are the hex digits with zeros before them, in at least width places; there must be room for the
      width and for all digits that the type can have. */
  lemma HexIsWritten(c: seq<Cell>, l: nat, value: nat, maxDigits: nat, width: nat, ok: bool, d: seq<Cell>, m: nat)
    requires |HexText(value)| <= maxDigits && Ran(c, l, [HexAtom(value, maxDigits, width)], ok, d, m)
    ensures ok <==> width <= l && maxDigits <= l
    ensures ok ==> |c| <= |d| && d[..|c|] == c && l - m == |d| - |c|
    ensures ok ==> |d| - |c| == if |HexText(value)| < width then width else |HexText(value)|
    ensures ok ==> forall i | |c| <= i < |d| :: var k := |d| - |HexText(value)|;
                     d[i] == Out(if i < k then 48 else HexText(value)[i - k])
  {
    hide HexText, Ran;
    var t := HexAtom(value, maxDigits, width);
    PutRan(c, l, t.text, t.slack, ok, d, m);
  }
}
