/** Texts joined by commas, and the converted elements of an array. */
module Joining {
  import opened BitLists
  import opened Writing
  import opened Fields

  /** The parts with a comma between each two. */
  function Join(parts: seq<seq<byte>>): seq<byte> {
    if parts == [] then []
    else if |parts| == 1 then parts[0]
    else Join(parts[..|parts| - 1]) + [COMMA] + parts[|parts| - 1]
  }

  function Quote(text: seq<byte>): seq<byte> { [QUOTE] + text + [QUOTE] }

  /** The parts with a comma behind each. */
  function Trailing(parts: seq<seq<byte>>): seq<byte> {
    if parts == [] then [] else Trailing(parts[..|parts| - 1]) + parts[|parts| - 1] + [COMMA]
  }

  lemma {:induction false} TrailingIsJoin(parts: seq<seq<byte>>)
    requires parts != []
    ensures Trailing(parts) == Join(parts) + [COMMA]
  {
    var n := |parts| - 1;
    if n > 0 {
      TrailingIsJoin(parts[..n]);
    }
  }

  lemma TrailingEnds(parts: seq<seq<byte>>, last: seq<byte>)
    ensures Trailing(parts + [last]) == Trailing(parts) + last + [COMMA]
  {
    assert (parts + [last])[..|parts|] == parts;
  }

  function Converted(a: Atom): seq<byte> { if a.Put? then a.text else [] }

  /** The converted texts of the first n elements. */
  ghost function ElementTexts(convert: (Def, seq<byte>) -> Atom, b: Body, d: Def, n: nat): (r: seq<seq<byte>>)
    requires FieldConforms(b, d) && IsArray(d) && n <= ElementCount(b, d)
    ensures |r| == n
  {
    if n == 0 then [] else ElementTexts(convert, b, d, n - 1) + [Converted(convert(d, Element(b, d, n - 1)))]
  }

  function Concat(parts: seq<seq<byte>>): seq<byte> {
    if parts == [] then [] else Concat(parts[..|parts| - 1]) + parts[|parts| - 1]
  }

  lemma ConcatEnds(parts: seq<seq<byte>>, last: seq<byte>)
    ensures Concat(parts + [last]) == Concat(parts) + last
  {
    assert (parts + [last])[..|parts|] == parts;
  }

  lemma {:induction false} ConcatSize(elements: seq<seq<byte>>, n: nat)
    requires forall i | 0 <= i < |elements| :: |elements[i]| == n
    ensures |Concat(elements)| == |elements| * n
  {
    if elements != [] {
      var before := |elements| - 1;
      ConcatSize(elements[..before], n);
      assert |elements| * n == before * n + n;
    }
  }
}
