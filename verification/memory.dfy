/** Copies between regions of memory. */
module Memory {
  /** The sequence with a block stored over some of its elements. */
  function Stored<T>(s: seq<T>, at: nat, block: seq<T>): (r: seq<T>)
    requires at + |block| <= |s|
    ensures |r| == |s|
  {
    s[..at] + block + s[at + |block|..]
  }

  lemma StoredParts<T>(s: seq<T>, at: nat, block: seq<T>, lo: nat, hi: nat)
    requires lo <= at && at + |block| <= hi <= |s|
    ensures var r := Stored(s, at, block);
            r[..lo] == s[..lo] && r[..at] == s[..at] && r[at..at + |block|] == block && r[hi..] == s[hi..]
  {
  }

  lemma StoredFirst<T>(s: seq<T>, block: seq<T>)
    requires |block| <= |s|
    ensures Stored(s, 0, block) == block + s[|block|..]
  {
  }

  /** What a block makes of the region that ends with it. */
  lemma StoredBehind<T>(s: seq<T>, at: nat, block: seq<T>, lo: nat)
    requires lo <= at && at + |block| <= |s|
    ensures Stored(s, at, block)[lo..at + |block|] == s[lo..at] + block
  {
    var x, y := Stored(s, at, block)[lo..at + |block|], s[lo..at] + block;
    forall i | 0 <= i < |x|
      ensures x[i] == y[i]
    {
      assert x[i] == Stored(s, at, block)[lo + i];
    }
  }

  /** What a block makes of a region around it. */
  lemma StoredInside<T>(s: seq<T>, at: nat, block: seq<T>, lo: nat, hi: nat)
    requires lo <= at && at + |block| <= hi <= |s|
    ensures Stored(s, at, block)[lo..hi] == Stored(s[lo..hi], at - lo, block)
  {
    var x, y := Stored(s, at, block)[lo..hi], Stored(s[lo..hi], at - lo, block);
    forall i | 0 <= i < |x|
      ensures x[i] == y[i]
    {
      assert x[i] == Stored(s, at, block)[lo + i];
      if i < at - lo {
        assert y[i] == s[lo..hi][i];
      } else if i < at - lo + |block| {
        assert y[i] == block[i - (at - lo)];
      } else {
        assert y[i] == s[lo..hi][i];
      }
    }
  }

  lemma SliceOfSlice<T>(s: seq<T>, lo: nat, hi: nat, i: nat, j: nat)
    requires lo <= hi <= |s| && i <= j <= hi - lo
    ensures s[lo..hi][i..j] == s[lo + i..lo + j]
  {
    var a, b := s[lo..hi][i..j], s[lo + i..lo + j];
    forall k | 0 <= k < |a|
      ensures a[k] == b[k]
    {
      assert a[k] == s[lo..hi][i + k];
    }
  }

  /** A block stored in an array. */
  method Store<T>(a: array<T>, at: nat, block: seq<T>)
    requires at + |block| <= a.Length
    modifies a
    ensures a[..] == Stored(old(a[..]), at, block)
  {
    forall k | 0 <= k < |block| {
      a[at + k] := block[k];
    }
  }

  /** std::memcpy: the two regions must not overlap. */
  method MemCpy<T>(dst: array<T>, d: nat, src: array<T>, s: nat, n: nat)
    requires d + n <= dst.Length && s + n <= src.Length
    requires dst != src || d + n <= s || s + n <= d
    modifies dst
    ensures dst[..] == Stored(old(dst[..]), d, old(src[..])[s..s + n])
  {
    Store(dst, d, src[..][s..s + n]);
  }

  /** std::memmove */
  method MemMove<T>(a: array<T>, to: nat, from: nat, n: nat)
    requires to + n <= a.Length && from + n <= a.Length
    modifies a
    ensures a[..] == Stored(old(a[..]), to, old(a[..])[from..from + n])
  {
    Store(a, to, a[..][from..from + n]);
  }
}
