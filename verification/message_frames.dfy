/** Complete messages as the framers take them. */
module MessageFrames {
  import opened BitLists
  import Hex
  import opened OemCrc
  import opened CrcDetection
  import FixedBuffers
  import opened Framing
  import opened Streaming
  import opened Delivery
  import BinaryScript
  import Multiples

  /** The length field reads back as it was written, but for the bits that do not fit. */
  lemma {:induction false} LengthReadsBack(n: nat, size: nat)
    ensures Pow2(8 * size) > 0 && FixedBuffers.LittleEndianValue(BinaryScript.LittleEndianBytes(n, size)) == n % Pow2(8 * size)
  {
    if size > 0 {
      LengthReadsBack(n / 256, size - 1);
      var m := Pow2(8 * (size - 1));
      EightBits(8 * (size - 1));
      LowDigits(n, m);
    }
  }

  lemma EightBits(k: nat)
    ensures Pow2(k + 8) == 256 * Pow2(k)
  {
    assert Pow2(k + 8) == 2 * Pow2(k + 7) && Pow2(k + 7) == 2 * Pow2(k + 6) && Pow2(k + 6) == 2 * Pow2(k + 5);
    assert Pow2(k + 5) == 2 * Pow2(k + 4) && Pow2(k + 4) == 2 * Pow2(k + 3) && Pow2(k + 3) == 2 * Pow2(k + 2);
    assert Pow2(k + 2) == 2 * Pow2(k + 1) && Pow2(k + 1) == 2 * Pow2(k);
  }

  lemma LowDigits(n: nat, m: nat)
    requires m > 0
    ensures n % (256 * m) == n % 256 + 256 * ((n / 256) % m)
  {
    var q, r := (n / 256) / m, (n / 256) % m;
    assert n == 256 * (n / 256) + n % 256;
    assert n / 256 == m * q + r;
    var low := n % 256 + 256 * r;
    assert 256 * (m * q) == q * (256 * m);
    Multiples.UniqueDivision(n, 256 * m, q, low);
  }

  lemma SyncIsFound(k: Kind, data: seq<byte>)
    requires k.Valid() && SyncAt(k, data, 0)
    ensures FindSync(k, data) == 0
  {
    assert data + [] == data;
    if FindSync(k, data) > 0 {
      DiscardsHoldNoSync(k, data, [], 0);
    }
  }

  /** A framer that meets an ASCII message of the encoder takes exactly that message. */
  lemma AsciiMessageIsTaken(k: Kind, body: seq<byte>, more: seq<byte>, room: nat)
    requires k.Ascii? && k.Valid() && NoFalseTrailer(body)
    requires |AsciiFrame(k, body)| <= k.maxLength && |AsciiFrame(k, body)| <= room
    ensures Resumable(k, AsciiFrame(k, body) + more, 0)
    ensures Decide(k, AsciiFrame(k, body) + more, 0, room) == Take(|AsciiFrame(k, body)|)
  {
    hide NextStar, Delimiter, Validate, FindSync, Crc32, Hex.PaddedHex, NoFalseTrailer;
    var data := AsciiFrame(k, body) + more;
    assert data[0..1] == k.Sync();
    SyncIsFound(k, data);
    AsciiFrameIsFound(k, body, more);
    AsciiFrameIsValid(k, body, more);
  }

  /** An ASCII message of the encoder is not lost, whatever the stream holds before it. */
  lemma AsciiMessageIsNotLost(k: Kind, head: seq<byte>, body: seq<byte>, more: seq<byte>)
    requires k.Ascii? && k.Valid() && NoFalseTrailer(body) && |AsciiFrame(k, body)| <= k.maxLength
    ensures NotLost(k, Pump(k, head + AsciiFrame(k, body) + more, 0), |head|, AsciiFrame(k, body))
  {
    hide NoFalseTrailer, Decide, AsciiFrame, NotLost, Pump;
    var frame := AsciiFrame(k, body);
    AsciiMessageIsTaken(k, body, more, |frame + more|);
    StartsWithSync(k, body, more);
    FrameInStream(k, head, frame, more);
  }

  lemma StartsWithSync(k: Kind, body: seq<byte>, more: seq<byte>)
    requires k.Ascii? && k.Valid()
    ensures SyncAt(k, AsciiFrame(k, body) + more, 0) && SyncsApart(k)
  {
    assert (AsciiFrame(k, body) + more)[0..1] == k.Sync();
  }

  lemma SyncBehind(k: Kind, head: seq<byte>, tail: seq<byte>)
    requires k.Valid() && SyncAt(k, tail, 0)
    ensures SyncAt(k, head + tail, |head|)
  {
    var n := |k.Sync()|;
    assert (head + tail)[|head|..|head| + n] == tail[0..n];
  }

  lemma FrameInStream(k: Kind, head: seq<byte>, frame: seq<byte>, more: seq<byte>)
    requires k.Valid() && SyncsApart(k) && SyncAt(k, frame + more, 0)
    requires Decide(k, frame + more, 0, |frame + more|) == Take(|frame|)
    ensures NotLost(k, Pump(k, head + frame + more, 0), |head|, frame)
  {
    hide Decide, SyncsApart, NotLost, Pump, SyncAt;
    var stream := head + frame + more;
    assert stream == head + (frame + more);
    assert stream[|head|..] == frame + more && stream[|head|..|head| + |frame|] == frame;
    SyncBehind(k, head, frame + more);
    NoFrameIsLost(k, stream, |head|, |frame|);
  }

  /** A binary message before its CRC: sync, header with the length of what follows it, body. */
  ghost predicate BinaryMessage(k: Kind, message: seq<byte>)
    requires k.Binary? && k.Valid()
  {
    && k.headerLength <= |message| && message[..3] == k.syncBytes
    && FixedBuffers.LittleEndianValue(message[k.lengthIndex..k.lengthIndex + k.lengthSize]) == |message| - k.headerLength
  }

  /** A framer that meets a binary message of the encoder takes exactly that message. */
  lemma BinaryMessageIsTaken(k: Kind, message: seq<byte>, more: seq<byte>, room: nat)
    requires k.Binary? && k.Valid() && BinaryMessage(k, message)
    requires |message| + 4 <= k.maxLength && |message| + 4 <= room
    ensures var data := message + LittleEndian(Crc32(Zeros(32), message)) + more;
            Resumable(k, data, 0) && Decide(k, data, 0, room) == Take(|message| + 4)
  {
    hide Validate, FindSync, Crc32, LittleEndian, FixedBuffers.LittleEndianValue;
    var data := message + LittleEndian(Crc32(Zeros(32), message)) + more;
    assert data[0..3] == message[..3];
    SyncIsFound(k, data);
    assert data[k.lengthIndex..k.lengthIndex + k.lengthSize] == message[k.lengthIndex..k.lengthIndex + k.lengthSize];
    BinaryFrameIsValid(k, message, more);
  }

  /** A binary message of the encoder is not lost, whatever the stream holds before it. */
  lemma BinaryMessageIsNotLost(k: Kind, head: seq<byte>, message: seq<byte>, more: seq<byte>)
    requires k in {FRAMER_BINARY, FRAMER_BINARY_SHORT} && k.Valid()
    requires BinaryMessage(k, message) && |message| + 4 <= k.maxLength
    ensures var frame := message + LittleEndian(Crc32(Zeros(32), message));
            NotLost(k, Pump(k, head + frame + more, 0), |head|, frame)
  {
    hide Decide, NotLost, Pump, Crc32, LittleEndian, SyncsApart;
    var frame := message + LittleEndian(Crc32(Zeros(32), message));
    LittleEndianBits(Crc32(Zeros(32), message));
    BinaryMessageIsTaken(k, message, more, |frame + more|);
    FramersAreApart(k);
    assert (frame + more)[0..3] == message[..3];
    FrameInStream(k, head, frame, more);
  }
}
