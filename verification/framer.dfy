/** The framer object: FramerBase with the OEM ASCII and binary search and validation. */
module Framers {
  import opened BitLists
  import opened CrcBlock
  import OemCrc
  import CrcDetection
  import opened FixedBuffers
  import Memory
  import opened Hex
  import opened Framing
  import opened Streaming

  datatype STATUS = SUCCESS | UNKNOWN | INCOMPLETE | NULL_PROVIDED | BUFFER_FULL | BUFFER_EMPTY

  datatype MetaData = MetaData(format: Format, response: bool, length: nat)

  /** The relation between the buffer before and after a call of GetFrame and its results. */
  ghost predicate Outcome(kind: Kind, data: seq<byte>, resume: nat, size: nat, before: MetaData,
                          left: seq<byte>, byteCount: nat, status: STATUS, meta: MetaData)
    requires kind.Valid() && Resumable(kind, data, resume)
  {
    match Decide(kind, data, resume, size)
    case Empty => status == BUFFER_EMPTY && meta == before && left == data && byteCount == resume
    case Discard(n) =>
      && status == UNKNOWN && meta.format == Unknown && meta.length == n
      && meta.response == (if NoSyncYet(kind, data, resume) then before.response else false)
      && Dropped(data, n, left, byteCount)
    case Full(i) =>
      && status == BUFFER_FULL && meta == Found(kind, data, resume, i)
      && left == data && byteCount == resume
    case Wait(i) =>
      && status == INCOMPLETE && meta == Found(kind, data, resume, |data|)
      && left == data && byteCount == i
    case Take(n) =>
      && status == SUCCESS && meta == Found(kind, data, resume, n)
      && Dropped(data, n, left, byteCount)
  }

  lemma EmptyOutcome(kind: Kind, resume: nat, size: nat, before: MetaData)
    requires kind.Valid() && Resumable(kind, [], resume)
    ensures Outcome(kind, [], resume, size, before, [], resume, BUFFER_EMPTY, before)
  {
  }

  lemma SyncOutcome(kind: Kind, data: seq<byte>, size: nat, before: MetaData)
    requires kind.Valid() && NoSyncYet(kind, data, 0) && data != []
    ensures Resumable(kind, data, 0)
    ensures var n := FindSync(kind, data);
            Outcome(kind, data, 0, size, before, data[n..], 0, UNKNOWN, MetaData(Unknown, before.response, n))
  {
    hide FindSync;
  }

  lemma FullOutcome(kind: Kind, data: seq<byte>, resume: nat, size: nat, before: MetaData)
    requires kind.Valid() && Resumable(kind, data, resume) && !NoSyncYet(kind, data, resume) && data != []
    requires size < FrameEnd(kind, data, resume).index
    ensures var meta := Found(kind, data, resume, FrameEnd(kind, data, resume).index);
            Outcome(kind, data, resume, size, before, data, resume, BUFFER_FULL, meta)
  {
    hide FindSync, FrameEnd, Resumable;
  }

  /** The call ends after the sync search. */
  ghost predicate NoSyncYet(kind: Kind, data: seq<byte>, resume: nat)
    requires kind.Valid()
  {
    resume == 0 && FindSync(kind, data) != 0
  }

  /** The metadata of a candidate: its format from the search for its end, never a response. */
  ghost function Found(kind: Kind, data: seq<byte>, resume: nat, length: nat): MetaData
    requires kind.Valid()
  {
    MetaData(FrameEnd(kind, data, resume).format, false, length)
  }

  /** The first n bytes are gone and the search starts again. */
  ghost predicate Dropped(data: seq<byte>, n: nat, left: seq<byte>, byteCount: nat) {
    n <= |data| && left == data[n..] && byteCount == 0
  }

  /** The first n bytes were handed out, and nothing else in the caller's buffer has changed. */
  ghost predicate Received(dest: seq<byte>, before: seq<byte>, data: seq<byte>, n: nat) {
    n <= |before| && n <= |data| && dest == data[..n] + before[n..]
  }

  lemma ReceivedNothing(dest: seq<byte>, data: seq<byte>)
    ensures Received(dest, dest, data, 0)
  {
    assert data[..0] + dest[0..] == dest;
  }

  /** How many bytes a call hands out. */
  function HandedOut(status: STATUS, meta: MetaData, reportUnknownBytes: bool): nat {
    if status == SUCCESS || (status == UNKNOWN && reportUnknownBytes) then meta.length else 0
  }

  /** Exactly when a call removes more bytes than the caller's buffer is said to hold. */
  lemma DiscardExceedsSize(kind: Kind, data: seq<byte>, resume: nat, size: nat)
    requires kind.Valid() && Resumable(kind, data, resume)
    ensures var d := Decide(kind, data, resume, size);
            (d.Discard? && d.count > size) <==> (resume == 0 && FindSync(kind, data) > size)
    ensures FindSync(kind, data) <= MAX_LOOKAHEAD_BYTES
  {
    hide FindSync, FrameEnd, Validate, Resumable;
    if data != [] && !NoSyncYet(kind, data, resume) && FrameEnd(kind, data, resume).status in {Response, Complete} {
      CompleteBounds(kind, data, resume);
      ValidateCount(kind, data, FrameEnd(kind, data, resume).index);
    }
  }

  /** Two bytes that are no sync are handed out into a buffer that is said to hold one. */
  lemma TwoBytesForOne()
    ensures Decide(FRAMER_ASCII, [0, 0], 0, 1) == Discard(2)
  {
    var data, k: Kind := [0, 0], FRAMER_ASCII;
    var n := FindSync(k, data);
    FindSyncMeaning(k, data);
    assert k.Sync()[..1] == [35];
    assert data[0..1] == [0] && data[1..2] == [0];
    assert WindowEnd(data, 0, MAX_LOOKAHEAD_BYTES) == 2;
    assert !MatchAt(data, [35], 0, 2) && !MatchAt(data, [35], 1, 2);
    assert Search(data, [35], 2, 2) == NPOS;
    assert Search(data, [35], 1, 2) == NPOS;
  }

  class Framer {
    const kind: Kind
    const buffer: FixedBuffer<byte>
    const tables: array2<Bits>
    var byteCount: nat
    var calculatedCrc32: nat
    var expectedPayloadLength: nat
    var expectedMessageLength: nat
    var reportUnknownBytes: bool

    /** The invariant in the middle of a call, when the resume index is being replaced. */
    ghost predicate Ready()
      reads this, buffer, buffer.buffer, tables
    {
      && kind.Valid()
      && buffer.Valid() && buffer.N < 0x1_0000_0000
      && IsTable(OemCrc.Oem(), tables)
    }

    ghost predicate Valid()
      reads this, buffer, buffer.buffer, tables
    {
      Ready() && Resumable(kind, buffer.Contents(), byteCount)
    }

    constructor (kind: Kind, capacity: nat)
      requires kind.Valid() && capacity < 0x1_0000_0000
      ensures Valid() && fresh(buffer) && fresh(buffer.buffer) && fresh(tables)
      ensures this.kind == kind && buffer.Contents() == [] && byteCount == 0 && reportUnknownBytes
    {
      this.kind := kind;
      var b := new FixedBuffer<byte>(capacity);
      var t := MakeCrcTable(OemCrc.Oem());
      buffer, tables := b, t;
      byteCount, calculatedCrc32, expectedPayloadLength, expectedMessageLength := 0, 0, 0, 0;
      reportUnknownBytes := true;
    }

    method FindSyncIndex() returns (n: nat)
      requires Ready()
      ensures n == FindSync(kind, buffer.Contents())
    {
      var r := SearchChars(buffer, kind.Sync(), 0, MAX_LOOKAHEAD_BYTES);
      if r == NPOS {
        n := if buffer.sz <= MAX_LOOKAHEAD_BYTES then buffer.sz else MAX_LOOKAHEAD_BYTES;
      } else {
        n := r;
      }
    }

    method FindFrameEnd(start: nat) returns (v: Verdict)
      requires Ready()
      ensures v == FrameEnd(kind, buffer.Contents(), start)
    {
      if kind.Ascii? {
        v := FindAsciiFrameEnd(start);
      } else {
        v := FindBinaryFrameEnd(start);
      }
    }

    method SearchStar(start: nat) returns (d: int)
      requires Ready() && kind.Ascii?
      ensures d == NextStar(kind, buffer.Contents(), start)
    {
      d := SearchChars(buffer, [STAR], start, kind.maxLength);
    }

    /** The candidate loop of FramerAsciiBase::FindFrameEnd. */
    method FindAsciiFrameEnd(start: nat) returns (v: Verdict)
      requires Ready() && kind.Ascii?
      ensures v == AsciiFrameEnd(kind, buffer.Contents(), start)
    {
      hide NextStar;
      var data := buffer.Contents();
      var size := buffer.sz;
      var d := SearchStar(start);
      while d != NPOS && size - d >= TRAILER && !IsAsciiCrc(data, d + 1)
        invariant d == NPOS || 0 <= d < size
        invariant Delimiter(kind, data, d) == Delimiter(kind, data, NextStar(kind, data, start))
        decreases if d == NPOS then 0 else size - d
      {
        d := SearchStar(d + 1);
      }
      if d == NPOS {
        return if size >= kind.maxLength then Verdict(Invalid, Unknown, OEM4_ASCII_SYNC_LENGTH)
               else Verdict(Incomplete, kind.format, size);
      }
      if size - d < TRAILER {
        return Verdict(Incomplete, kind.format, d);
      }
      return Verdict(Complete, kind.format, d + TRAILER);
    }

    method FindBinaryFrameEnd(start: nat) returns (v: Verdict)
      requires Ready() && kind.Binary?
      ensures v == BinaryFrameEnd(kind, buffer.Contents(), start)
    {
      hide LittleEndianValue;
      var size := buffer.sz;
      if size < kind.headerLength {
        return if size < OEM4_BINARY_SYNC_LENGTH then Verdict(Incomplete, Unknown, start)
               else Verdict(Incomplete, kind.format, size);
      }
      var length := ReadValue(buffer, kind.lengthIndex, kind.lengthSize);
      var total := kind.headerLength + length + OEM4_BINARY_CRC_LENGTH;
      if total > kind.maxLength {
        return Verdict(Invalid, Unknown, OEM4_BINARY_SYNC_LENGTH);
      }
      return if total > size then Verdict(Incomplete, kind.format, size)
             else Verdict(Complete, kind.format, total);
    }

    method ValidateFrame(frameEnd: nat) returns (n: nat)
      requires Ready() && frameEnd <= buffer.sz
      requires (if kind.Ascii? then TRAILER + OEM4_ASCII_SYNC_LENGTH else 4) <= frameEnd
      ensures n == Validate(kind, buffer.Contents(), frameEnd)
    {
      hide ParseHex, ToNat, OemCrc.Crc32, CrcDetection.ReadUint32, IsTable, FindSync, SyncAt, Clean;
      var data := buffer.Contents();
      var at := buffer.head;
      if kind.Ascii? {
        var text := data[frameEnd - OEM4_ASCII_CRC_LENGTH - 2..frameEnd - 2];
        var message := ParseHex(text);
        var crc := OemCrc.CalculateBlockCrc32(tables, buffer.buffer, at + OEM4_ASCII_SYNC_LENGTH, frameEnd - TRAILER - 1, Zeros(32));
        Memory.SliceOfSlice(buffer.buffer[..], at, at + buffer.sz, OEM4_ASCII_SYNC_LENGTH, frameEnd - TRAILER);
        n := if message == Value(ToNat(crc)) then 0 else OEM4_ASCII_SYNC_LENGTH;
      } else {
        var message := CrcDetection.ReadUint32(data[frameEnd - 4..frameEnd]);
        var crc := OemCrc.CalculateBlockCrc32(tables, buffer.buffer, at, frameEnd - 4, Zeros(32));
        Memory.SliceOfSlice(buffer.buffer[..], at, at + buffer.sz, 0, frameEnd - 4);
        n := if crc == message then 0 else OEM4_BINARY_SYNC_LENGTH;
      }
    }

    method InitAttributes()
      modifies this
      ensures byteCount == 0 && reportUnknownBytes == old(reportUnknownBytes)
    {
      expectedMessageLength := 0;
      expectedPayloadLength := 0;
      byteCount := 0;
      calculatedCrc32 := 0;
    }

    /** Hands out, if asked to, and removes the oldest bytes. */
    method HandleUnknownBytes(dest: array?<byte>, count: nat)
      requires Ready() && (Valid() || (count > 0 && buffer.sz > 0))
      requires dest != null ==> dest != buffer.buffer
      requires dest != null && reportUnknownBytes ==> (if count <= buffer.sz then count else buffer.sz) <= dest.Length
      modifies this, buffer
      modifies if dest == null then {} else {dest}
      ensures Valid() && reportUnknownBytes == old(reportUnknownBytes)
      ensures var n := if count <= old(buffer.sz) then count else old(buffer.sz);
              && buffer.Contents() == old(buffer.Contents())[n..]
              && byteCount == (if n == 0 then old(byteCount) else 0)
              && (dest != null ==>
                    Received(dest[..], old(dest[..]), old(buffer.Contents()), if old(reportUnknownBytes) then n else 0))
    {
      hide IsTable, Resumable, Received;
      var n := if count <= buffer.sz then count else buffer.sz;
      if dest != null {
        ReceivedNothing(dest[..], buffer.Contents());
      }
      if n == 0 {
        return;
      }
      if reportUnknownBytes && dest != null {
        Deliver(dest, n);
      } else {
        Forget(n);
      }
    }

    /** The oldest bytes are removed, and the search starts again. */
    method Forget(n: nat)
      requires Ready() && 0 < n <= buffer.sz
      modifies this, buffer
      ensures Valid() && reportUnknownBytes == old(reportUnknownBytes)
      ensures Dropped(old(buffer.Contents()), n, buffer.Contents(), byteCount)
    {
      hide IsTable, Resumable;
      buffer.EraseBegin(n);
      InitAttributes();
      NotResumed(kind, buffer.Contents());
    }

    /** Appends bytes to the stream, all of them or none. */
    method Write(data: array?<byte>, count: nat) returns (written: nat)
      requires Valid()
      requires data != null ==> data != buffer.buffer && count <= data.Length
      modifies buffer, buffer.buffer
      ensures Valid()
      ensures written == if data == null || count > buffer.N - old(buffer.sz) then 0 else count
      ensures buffer.Contents() == old(buffer.Contents()) + (if written == 0 then [] else old(data[..count]))
    {
      hide IsTable, Resumable;
      ghost var before := buffer.Contents();
      written := buffer.Write(data, count);
      ResumableExtends(kind, before, if written == 0 then [] else old(data[..count]), byteCount);
    }

    method Flush(dest: array?<byte>, size: nat) returns (n: nat)
      requires Valid()
      requires dest != null ==> dest != buffer.buffer && size <= dest.Length
      modifies this, buffer
      modifies if dest == null then {} else {dest}
      ensures byteCount == (if n == 0 then old(byteCount) else 0) && reportUnknownBytes == old(reportUnknownBytes)
      ensures Valid() && n == (if old(buffer.sz) <= size then old(buffer.sz) else size)
      ensures buffer.Contents() == old(buffer.Contents())[n..]
      ensures dest != null ==>
                Received(dest[..], old(dest[..]), old(buffer.Contents()), if old(reportUnknownBytes) then n else 0)
    {
      n := if buffer.sz <= size then buffer.sz else size;
      HandleUnknownBytes(dest, n);
    }

    /** The public GetFrame of the OEM framers (not metadata only).  The bytes before a sync are
        handed out up to MAX_LOOKAHEAD_BYTES at a time whatever size says. */
    method GetFrame(dest: array?<byte>, size: nat, before: MetaData) returns (status: STATUS, meta: MetaData)
      requires Valid() && buffer.N < 0x1_0000_0000
      requires dest != null ==> dest != buffer.buffer && size <= dest.Length
      requires dest != null && reportUnknownBytes && byteCount == 0 ==> FindSync(kind, buffer.Contents()) <= dest.Length
      modifies this, buffer
      modifies if dest == null then {} else {dest}
      ensures Valid() && reportUnknownBytes == old(reportUnknownBytes)
      ensures dest == null ==> status == NULL_PROVIDED && meta == before
      ensures dest == null ==> buffer.Contents() == old(buffer.Contents()) && byteCount == old(byteCount)
      ensures dest != null ==>
                Outcome(kind, old(buffer.Contents()), old(byteCount), size, before, buffer.Contents(), byteCount, status, meta)
      ensures dest != null ==>
                Received(dest[..], old(dest[..]), old(buffer.Contents()), HandedOut(status, meta, old(reportUnknownBytes)))
    {
      hide IsTable, Resumable, FrameEnd, FindSync, Validate, Received, Outcome, Decide;
      if dest == null {
        return NULL_PROVIDED, before;
      }
      ReceivedNothing(dest[..], buffer.Contents());
      meta := before;
      ghost var data, resume := buffer.Contents(), byteCount;
      if buffer.sz == 0 {
        EmptyOutcome(kind, resume, size, before);
        return BUFFER_EMPTY, meta;
      }

      // Stage 1: find the sync bytes.
      if byteCount == 0 {
        var sync := FindSyncIndex();
        if sync != 0 {
          meta := meta.(format := Unknown, length := sync);
          SyncOutcome(kind, data, size, before);
          HandleUnknownBytes(dest, sync);
          return UNKNOWN, meta;
        }
      }

      // Stage 2: find the end of the candidate frame.
      NeverResponse(kind, data, byteCount);
      var v := FindFrameEnd(byteCount);
      meta := meta.(format := v.format, response := v.status == Response);
      if size < v.index {
        meta := meta.(length := v.index);
        FullOutcome(kind, data, resume, size, before);
        return BUFFER_FULL, meta;
      }

      // Stage 3: validate the candidate frame.
      byteCount := v.index;
      meta := meta.(length := byteCount);
      status, meta := ConcludeFrame(dest, v, meta, resume, size, before);
    }

    /** Stage 3 of GetFrame, for the verdict v of stage 2. */
    method ConcludeFrame(dest: array<byte>, v: Verdict, found: MetaData,
                         ghost resume: nat, ghost size: nat, ghost before: MetaData)
      returns (status: STATUS, meta: MetaData)
      requires Ready() && dest != buffer.buffer && size <= dest.Length
      requires buffer.sz > 0 && Resumable(kind, buffer.Contents(), resume)
      requires resume != 0 || FindSync(kind, buffer.Contents()) == 0
      requires v == FrameEnd(kind, buffer.Contents(), resume) && v.index <= size
      requires byteCount == v.index
      requires found == MetaData(v.format, v.status == Response, v.index)
      modifies this, buffer, dest
      ensures Valid() && reportUnknownBytes == old(reportUnknownBytes)
      ensures Outcome(kind, old(buffer.Contents()), resume, size, before, buffer.Contents(), byteCount, status, meta)
      ensures Received(dest[..], old(dest[..]), old(buffer.Contents()), HandedOut(status, meta, old(reportUnknownBytes)))
    {
      hide IsTable, Resumable, FrameEnd, FindSync, Validate, Received;
      ghost var data := buffer.Contents();
      ReceivedNothing(dest[..], data);
      DecisionBounds(kind, data, resume, size);
      NeverResponse(kind, data, resume);
      meta := found;
      var discard := 0;
      match v.status {
        case Response | Complete =>
          CompleteBounds(kind, data, resume);
          ValidateCount(kind, data, v.index);
          discard := ValidateFrame(v.index);
        case Incomplete =>
          meta := meta.(length := buffer.sz);
          return INCOMPLETE, meta;
        case Invalid =>
          discard := v.index;
      }
      if discard != 0 {
        meta := meta.(format := Unknown, length := discard);
        HandleUnknownBytes(dest, discard);
        return UNKNOWN, meta;
      }
      Deliver(dest, meta.length);
      return SUCCESS, meta;
    }

    /** The frame is handed out and the search starts again. */
    method Deliver(dest: array<byte>, n: nat)
      requires Ready() && dest != buffer.buffer && 0 < n <= buffer.sz && n <= dest.Length
      modifies this, buffer, dest
      ensures Valid() && reportUnknownBytes == old(reportUnknownBytes)
      ensures Dropped(old(buffer.Contents()), n, buffer.Contents(), byteCount)
      ensures Received(dest[..], old(dest[..]), old(buffer.Contents()), n)
    {
      hide IsTable, Resumable;
      buffer.CopyOut(dest, n);
      Forget(n);
    }
  }
}
