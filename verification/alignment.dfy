/** OemAlignmentFunction: fields start at multiples of their size, but at most of four. */
module Alignment {
  import Multiples

  function Unit(size: nat): (u: nat)
    requires size > 0
    ensures 1 <= u <= 4
  {
    if size < 4 then size else 4
  }

  /** The bytes to skip before a value of this size, `offset` bytes behind the start. */
  function OemAlignment(size: nat, offset: nat): (n: nat)
    requires size > 0
  {
    var past := offset % Unit(size);
    if past == 0 then 0 else Unit(size) - past
  }

  /** It is the least number of bytes that reaches a multiple of the size, or of four. */
  lemma AlignmentIsLeast(size: nat, offset: nat, n: nat)
    requires size > 0
    ensures (offset + OemAlignment(size, offset)) % (if size < 4 then size else 4) == 0
    ensures (offset + n) % (if size < 4 then size else 4) == 0 ==> OemAlignment(size, offset) <= n
  {
    var u, past := Unit(size), offset % Unit(size);
    var k := offset / u;
    assert offset == k * u + past;
    if past != 0 {
      assert offset + OemAlignment(size, offset) == (k + 1) * u;
      Multiples.UniqueDivision(offset + OemAlignment(size, offset), u, k + 1, 0);
      if n < u - past {
        Multiples.UniqueDivision(offset + n, u, k, past + n);
      }
    }
  }
}
