/** FixedBuffer: a bounded FIFO kept contiguous in an array of twice its capacity. */
module FixedBuffers {
  import opened BitLists
  import opened Memory

  class FixedBuffer<T(0)> {
    const N: nat
    const buffer: array<T>
    var head: nat
    var sz: nat

    // Totals over the life of the buffer, for the amortised bound.
    ghost var moved: nat
    ghost var erased: nat

    ghost predicate Valid()
      reads this
    {
      && buffer.Length == 2 * N
      && sz <= N
      && head + sz <= 2 * N
      && moved + head <= erased
    }

    /** The buffered elements, oldest first. */
    function Contents(): (c: seq<T>)
      requires Valid()
      reads this, buffer
      ensures |c| == sz
    {
      buffer[head..head + sz]
    }

    constructor (capacity: nat)
      ensures Valid() && fresh(buffer) && N == capacity
      ensures Contents() == [] && moved == 0 && erased == 0
    {
      N := capacity;
      buffer := new T[2 * capacity];
      head, sz := 0, 0;
      moved, erased := 0, 0;
    }

    /** operator[] */
    function At(i: nat): (x: T)
      requires Valid() && i < sz
      reads this, buffer
      ensures x == Contents()[i]
    {
      buffer[head + i]
    }

    /** Removes the oldest elements, all of them if fewer than count are buffered. */
    method EraseBegin(count: nat)
      requires Valid()
      modifies this
      ensures Valid()
      ensures var n := if count <= old(sz) then count else old(sz);
              Contents() == old(Contents())[n..] && erased == old(erased) + n && moved == old(moved)
    {
      var n := if count <= sz then count else sz;
      if n == 0 {
        return;
      }
      sz := sz - n;
      head := if sz == 0 then 0 else head + n;
      erased := erased + n;
    }

    /** Copies out the oldest elements without removing them. */
    method CopyOut(destination: array?<T>, count: nat)
      requires Valid()
      requires destination != null ==> destination != buffer && (if count <= sz then count else sz) <= destination.Length
      modifies if destination == null then {} else {destination}
      ensures Valid() && Contents() == old(Contents())
      ensures var n := if count <= sz then count else sz;
              destination != null ==> destination[..] == old(Contents()[..n] + destination[n..])
    {
      hide Stored;
      if destination == null || count == 0 || sz == 0 {
        if destination != null {
          assert destination[..] == Contents()[..0] + destination[0..];
        }
        return;
      }
      var n := if count <= sz then count else sz;
      StoredFirst(destination[..], buffer[..][head..head + n]);
      SliceOfSlice(buffer[..], head, head + sz, 0, n);
      MemCpy(destination, 0, buffer, head, n);
    }

    /** Appends a block, all of it or nothing.  A write past the end of the array first moves
        the contents to its front; the regions of that memcpy never overlap, which is its
        precondition, and the elements it moves are paid for by earlier erasures. */
    method Write(data: array?<T>, count: nat) returns (written: nat)
      requires Valid()
      requires data != null ==> data != buffer && count <= data.Length
      modifies this, buffer
      ensures Valid()
      ensures written == if data == null || count > N - old(sz) then 0 else count
      ensures Contents() == old(Contents()) + (if written == 0 then [] else old(data[..count]))
      ensures erased == old(erased) && old(moved) <= moved
    {
      if data == null || count > N - sz || count == 0 {
        return 0;
      }
      if head + sz + count > 2 * N {
        Compact();
      }
      Append(data, count);
      return count;
    }

    /** The block copied behind the contents, which leave room for it. */
    method Append(data: array<T>, count: nat)
      requires Valid() && data != buffer && count <= data.Length
      requires sz + count <= N && head + sz + count <= 2 * N
      modifies this, buffer
      ensures Valid() && sz == old(sz) + count
      ensures Contents() == old(Contents()) + old(data[..count])
      ensures erased == old(erased) && moved == old(moved)
    {
      hide Stored;
      StoredBehind(buffer[..], head + sz, data[..][0..count], head);
      MemCpy(buffer, head + sz, data, 0, count);
      sz := sz + count;
    }

    /** The contents moved to the front of the array. */
    method Compact()
      requires Valid() && sz <= head
      modifies this, buffer
      ensures Valid() && head == 0 && sz == old(sz) && Contents() == old(Contents())
      ensures erased == old(erased) && moved == old(moved) + sz
    {
      hide Stored;
      StoredParts(buffer[..], 0, buffer[..][head..head + sz], 0, sz);
      MemCpy(buffer, 0, buffer, head, sz);
      moved := moved + sz;
      head := 0;
    }
  }

  // ---------------------------------------------------------------- searching

  const NPOS: int := -1

  /** The sequence values matches at p as far as the window, which ends at end, shows it. */
  predicate MatchAt(data: seq<byte>, values: seq<byte>, p: nat, end: nat)
    requires p <= end <= |data|
  {
    var n := if |values| <= end - p then |values| else end - p;
    data[p..p + n] == values[..n]
  }

  /** The first position from pos at which the sequence, or a truncated prefix of it at the
      end of the window, matches. */
  function Search(data: seq<byte>, values: seq<byte>, pos: nat, end: nat): (r: int)
    requires end <= |data|
    ensures r == NPOS || pos <= r < end
    decreases end - pos
  {
    if pos >= end then NPOS
    else if MatchAt(data, values, pos, end) then pos
    else Search(data, values, pos + 1, end)
  }

  lemma {:induction false} SearchFirst(data: seq<byte>, values: seq<byte>, pos: nat, end: nat)
    requires pos <= end <= |data|
    ensures var r := Search(data, values, pos, end);
            && (r != NPOS ==> pos <= r < end && MatchAt(data, values, r, end))
            && forall p | pos <= p < (if r == NPOS then end else r) :: !MatchAt(data, values, p, end)
    decreases end - pos
  {
    if pos < end && !MatchAt(data, values, pos, end) {
      SearchFirst(data, values, pos + 1, end);
    }
  }

  lemma {:induction false} SearchFrom(data: seq<byte>, values: seq<byte>, pos: nat, next: nat, end: nat)
    requires pos <= next <= end <= |data|
    requires forall p | pos <= p < next :: !MatchAt(data, values, p, end)
    ensures Search(data, values, pos, end) == Search(data, values, next, end)
    decreases next - pos
  {
    if pos < next {
      assert !MatchAt(data, values, pos, end);
      SearchFrom(data, values, pos + 1, next, end);
    }
  }

  /** The end of a search window of count elements from start. */
  function WindowEnd(data: seq<byte>, start: nat, count: nat): (end: nat)
    requires start <= |data|
    ensures start <= end <= |data|
  {
    if count <= |data| - start then start + count else |data|
  }

  /** std::memchr */
  method MemChr(data: seq<byte>, first: byte, from: nat, end: nat) returns (p: int)
    requires from <= end <= |data|
    ensures p == NPOS || (from <= p < end && data[p] == first)
    ensures forall k | from <= k < (if p == NPOS then end else p) :: data[k] != first
  {
    var k := from;
    while k < end
      invariant from <= k <= end
      invariant forall j | from <= j < k :: data[j] != first
    {
      if data[k] == first {
        return k;
      }
      k := k + 1;
    }
    return NPOS;
  }

  /** search_chars; search_char is the case of one value. */
  method SearchChars(b: FixedBuffer<byte>, values: seq<byte>, start: nat, count: nat) returns (r: int)
    requires b.Valid() && |values| > 0
    ensures r == if start >= b.sz then NPOS
                 else Search(b.Contents(), values, start, WindowEnd(b.Contents(), start, count))
  {
    if start >= b.sz {
      return NPOS;
    }
    var n := if count <= b.sz - start then count else b.sz - start;
    r := SearchWindow(b.Contents(), values, start, start + n);
  }

  /** The loop of search_chars over the window from begin to end. */
  method SearchWindow(data: seq<byte>, values: seq<byte>, begin: nat, end: nat) returns (r: int)
    requires begin <= end <= |data| && |values| > 0
    ensures r == Search(data, values, begin, end)
  {
    hide Search, MatchAt;
    var pos := begin;
    while pos < end
      invariant begin <= pos <= end
      invariant Search(data, values, begin, end) == Search(data, values, pos, end)
    {
      var found := MemChr(data, values[0], pos, end);
      SkipToFirst(data, values, pos, if found == NPOS then end else found, end);
      if found == NPOS {
        break;
      }
      pos := found;
      if |values| == 1 {
        return pos;
      }
      SearchHere(data, values, pos, end);
      var equal := MemCmp(data, values, pos, end);
      if equal {
        return pos;
      }
      pos := pos + 1;
    }
    SearchNothing(data, values, end, end);
    return NPOS;
  }

  lemma SearchHere(data: seq<byte>, values: seq<byte>, pos: nat, end: nat)
    requires pos < end <= |data|
    ensures Search(data, values, pos, end)
         == if MatchAt(data, values, pos, end) then pos else Search(data, values, pos + 1, end)
  {
  }

  /** std::memcmp of the part of the values that the window shows */
  method MemCmp(data: seq<byte>, values: seq<byte>, pos: nat, end: nat) returns (equal: bool)
    requires pos < end <= |data|
    ensures equal == MatchAt(data, values, pos, end)
  {
    var m := if |values| <= end - pos then |values| else end - pos;
    equal := data[pos..pos + m] == values[..m];
  }

  lemma SearchNothing(data: seq<byte>, values: seq<byte>, pos: nat, end: nat)
    requires end <= pos && end <= |data|
    ensures Search(data, values, pos, end) == NPOS
  {
  }

  lemma SkipToFirst(data: seq<byte>, values: seq<byte>, pos: nat, next: nat, end: nat)
    requires pos <= next <= end <= |data| && |values| > 0
    requires forall k | pos <= k < next :: data[k] != values[0]
    ensures Search(data, values, pos, end) == Search(data, values, next, end)
    ensures next < end && data[next] == values[0] && |values| == 1 ==> Search(data, values, next, end) == next
  {
    forall p | pos <= p < next
      ensures !MatchAt(data, values, p, end)
    {
      NoMatch(data, values, p, end);
    }
    SearchFrom(data, values, pos, next, end);
    if next < end && data[next] == values[0] && |values| == 1 {
      assert data[next..next + 1] == values[..1];
    }
  }

  lemma NoMatch(data: seq<byte>, values: seq<byte>, p: nat, end: nat)
    requires p < end <= |data| && |values| > 0 && data[p] != values[0]
    ensures !MatchAt(data, values, p, end)
  {
    var n := if |values| <= end - p then |values| else end - p;
    assert data[p..p + n][0] != values[..n][0];
  }

  // ---------------------------------------------------------------- reading values

  /** The unsigned integer stored in memory lowest byte first. */
  function LittleEndianValue(b: seq<byte>): nat {
    if b == [] then 0 else b[0] + 256 * LittleEndianValue(b[1..])
  }

  /** read_value of an unsigned type of size bytes */
  method ReadValue(b: FixedBuffer<byte>, index: nat, size: nat) returns (v: nat)
    requires b.Valid() && index + size <= b.sz
    ensures v == LittleEndianValue(b.Contents()[index..index + size])
  {
    v := LittleEndianValue(b.buffer[b.head + index..b.head + index + size]);
    SliceOfSlice(b.buffer[..], b.head, b.head + b.sz, index, index + size);
  }
}
