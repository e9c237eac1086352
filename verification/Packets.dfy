/** Packet framing: payloads cut into frames of at most 2^24-1 bytes behind four-byte headers. */
module Packets {
  import opened Results
  import opened Bytes

  const MAX_PACKET_SIZE: nat := 0xff_ffff

  datatype Sent = Written | PacketTooLarge | WriteFailed

  datatype Outcome = Packet(data: bytes) | BadConn | PacketSync | PacketSyncMultiple

  /** What a read leaves behind: its outcome, the bytes not read, and the next sequence number. */
  datatype Read = Read(outcome: Outcome, rest: bytes, sequence: byte)

  function Next(sequence: byte): byte {
    (sequence + 1) % 256
  }

  function FrameHeader(size: nat, sequence: byte): (h: bytes)
    ensures |h| == 4
  {
    PutLE(size, 3) + [sequence]
  }

  /** The wire form of a payload; one whose size is a multiple of the maximum ends in an empty frame. */
  function Frames(payload: bytes, sequence: byte): bytes {
    if |payload| < MAX_PACKET_SIZE then FrameHeader(|payload|, sequence) + payload
    else
      FrameHeader(MAX_PACKET_SIZE, sequence) + payload[..MAX_PACKET_SIZE]
      + Frames(payload[MAX_PACKET_SIZE..], Next(sequence))
  }

  /** The sequence number after the frames of n bytes. */
  function SequenceAfter(n: nat, sequence: byte): byte {
    if n < MAX_PACKET_SIZE then Next(sequence) else SequenceAfter(n - MAX_PACKET_SIZE, Next(sequence))
  }

  /** The write buffer afterwards: each frame's header stands on four bytes that went out with the frame before. */
  function Overwritten(data: bytes, sequence: byte): (d: bytes)
    requires |data| >= 4
    ensures |d| == |data|
  {
    if |data| - 4 < MAX_PACKET_SIZE then FrameHeader(|data| - 4, sequence) + data[4..]
    else
      FrameHeader(MAX_PACKET_SIZE, sequence) + data[4..MAX_PACKET_SIZE]
      + Overwritten(data[MAX_PACKET_SIZE..], Next(sequence))
  }

  /** The reader: prev holds the payload of the full frames read so far. */
  function ReadFrames(input: bytes, sequence: byte, prev: Option<bytes>): Read
    decreases |input|
  {
    if |input| < 4 then Read(BadConn, [], sequence)
    else
      var size := LE(input[..3]);
      if input[3] != sequence then
        Read(if input[3] > sequence then PacketSyncMultiple else PacketSync, input[4..], sequence)
      else if size == 0 then
        Read(if prev.None? then BadConn else Packet(prev.value), input[4..], Next(sequence))
      else if |input| - 4 < size then Read(BadConn, [], Next(sequence))
      else
        var data := (if prev.None? then [] else prev.value) + input[4..4 + size];
        if size < MAX_PACKET_SIZE then Read(Packet(data), input[4 + size..], Next(sequence))
        else ReadFrames(input[4 + size..], Next(sequence), Some(data))
  }

  /** The bytes of frame and buffer for what is left from start on, when it fits one frame ... */
  lemma LastFrame(d: bytes, start: nat, sequence: byte)
    requires start + 4 <= |d| < start + 4 + MAX_PACKET_SIZE
    ensures var size := |d| - start - 4;
            && d[start + 4..start + 4 + size] == d[start + 4..]
            && Frames(d[start + 4..], sequence) == FrameHeader(size, sequence) + d[start + 4..]
            && Overwritten(d[start..], sequence) == FrameHeader(size, sequence) + d[start + 4..]
            && SequenceAfter(size, sequence) == Next(sequence)
  {
    hide FrameHeader;
    assert d[start..][4..] == d[start + 4..];
  }

  /** ... and when it does not. */
  lemma FullFrame(d: bytes, start: nat, sequence: byte)
    requires start + 4 + MAX_PACKET_SIZE <= |d|
    ensures var next := start + MAX_PACKET_SIZE;
            var header := FrameHeader(MAX_PACKET_SIZE, sequence);
            && Frames(d[start + 4..], sequence)
               == header + d[start + 4..next + 4] + Frames(d[next + 4..], Next(sequence))
            && Overwritten(d[start..], sequence) == header + d[start + 4..next] + Overwritten(d[next..], Next(sequence))
            && SequenceAfter(|d| - start - 4, sequence) == SequenceAfter(|d| - next - 4, Next(sequence))
  {
    hide FrameHeader;
    var next := start + MAX_PACKET_SIZE;
    assert d[start + 4..][..MAX_PACKET_SIZE] == d[start + 4..next + 4];
    assert d[start + 4..][MAX_PACKET_SIZE..] == d[next + 4..];
    assert d[start..][4..MAX_PACKET_SIZE] == d[start + 4..next];
    assert d[start..][MAX_PACKET_SIZE..] == d[next..];
  }

  lemma ThreeBytes(n: nat)
    ensures PutLE(n, 3) == [n % 256, n / 256 % 256, n / 256 / 256 % 256]
  {
    assert PutLE(n / 256 / 256, 1) == [n / 256 / 256 % 256];
    assert PutLE(n / 256, 2) == [n / 256 % 256] + PutLE(n / 256 / 256, 1);
  }

  /** What has gone out after trying the next frame. */
  lemma FrameOut(out0: bytes, sent: bytes, frame: bytes, more: bytes, frames: bytes, room0: nat)
    requires frames == sent + (frame + more) && |sent| <= room0
    ensures out0 + sent + frame == out0 + (sent + frame)
    ensures frames == sent + frame + more && (more == [] ==> frames == sent + frame)
    ensures var left := room0 - |sent|;
            left < |frame| ==> room0 < |frames| && out0 + sent + frame[..left] == out0 + frames[..room0]
  {
  }

  lemma SuffixOfSuffix(a: bytes, b: bytes, i: nat, j: nat)
    requires |a| == |b| && i <= j <= |a| && a[i..] == b[i..]
    ensures a[j..] == b[j..] && a[i..j] == b[i..j]
  {
    assert a[i..][j - i..] == a[j..] && b[i..][j - i..] == b[j..];
    assert a[i..][..j - i] == a[i..j] && b[i..][..j - i] == b[i..j];
  }

  /** The buffer after a frame that others follow: in front of the next one it is overwritten as it has to be,
      and behind that untouched. */
  lemma FullContents(d0: bytes, d: bytes, s0: byte, start: nat, sequence: byte, behind: bytes)
    requires start + 4 + MAX_PACKET_SIZE <= |d0| == |d| && |behind| == start
    requires Overwritten(d0, s0) == behind + Overwritten(d0[start..], sequence)
    requires d[..start + 4] == behind + FrameHeader(MAX_PACKET_SIZE, sequence) && d[start + 4..] == d0[start + 4..]
    ensures var next := start + MAX_PACKET_SIZE;
            d[next..] == d0[next..]
            && Overwritten(d0, s0) == d[..next] + Overwritten(d0[next..], Next(sequence))
  {
    hide Frames, Overwritten, FrameHeader, SequenceAfter, Next;
    var next := start + MAX_PACKET_SIZE;
    FullFrame(d0, start, sequence);
    SuffixOfSuffix(d, d0, start + 4, next);
    assert d[..next] == d[..start + 4] + d[start + 4..next];
    ThreeParts(behind, FrameHeader(MAX_PACKET_SIZE, sequence), d[start + 4..next],
               Overwritten(d0[next..], Next(sequence)));
  }

  lemma ThreeParts(a: bytes, b: bytes, c: bytes, d: bytes)
    ensures a + (b + c + d) == a + b + c + d
  {
  }

  /** The buffer after the last frame. */
  lemma LastContents(d0: bytes, d: bytes, s0: byte, start: nat, sequence: byte, behind: bytes)
    requires start + 4 <= |d0| == |d| && |d0| < start + 4 + MAX_PACKET_SIZE && |behind| == start
    requires Overwritten(d0, s0) == behind + Overwritten(d0[start..], sequence)
    requires d[..start + 4] == behind + FrameHeader(|d0| - start - 4, sequence) && d[start + 4..] == d0[start + 4..]
    ensures d == Overwritten(d0, s0)
  {
    hide Frames, Overwritten, FrameHeader, SequenceAfter, Next;
    LastFrame(d0, start, sequence);
    assert d == d[..start + 4] + d[start + 4..];
  }

  class MysqlConn {
    var sequence: byte
    var maxAllowedPacket: nat
    var input: bytes    // what the peer has sent and is not read yet
    var output: bytes   // what has been written
    var room: nat       // how many more bytes the connection takes before it breaks

    constructor (sequence: byte, maxAllowedPacket: nat, input: bytes, room: nat)
      ensures this.sequence == sequence && this.maxAllowedPacket == maxAllowedPacket
      ensures this.input == input && output == [] && this.room == room
    {
      this.sequence, this.maxAllowedPacket := sequence, maxAllowedPacket;
      this.input, output, this.room := input, [], room;
    }

    /** A write to the network: all of b, or what there is room for and a failure. */
    method Write(b: bytes) returns (ok: bool)
      modifies `output, `room
      ensures ok <==> |b| <= old(room)
      ensures output == old(output) + (if ok then b else b[..old(room)])
      ensures room == if ok then old(room) - |b| else 0
    {
      ok := |b| <= room;
      var n := if ok then |b| else room;
      output := output + b[..n];
      room := room - n;
      assert ok ==> b[..n] == b;
    }

    /** Sends data[4..] in frames, writing each header in place in front of its part of the payload. What goes
        out is the framing of the original payload, as far as the connection takes it. */
    method WritePacket(data: array<byte>) returns (r: Sent)
      requires data.Length >= 4
      modifies `sequence, `output, `room, data
      ensures r == PacketTooLarge <==> data.Length - 4 > maxAllowedPacket
      ensures r == PacketTooLarge ==>
                sequence == old(sequence) && output == old(output) && room == old(room) && data[..] == old(data[..])
      ensures r != PacketTooLarge ==>
                var frames := Frames(old(data[4..]), old(sequence));
                && (r == Written <==> |frames| <= old(room))
                && output == old(output) + (if r == Written then frames else frames[..old(room)])
                && room == if r == Written then old(room) - |frames| else 0
      ensures r == Written ==>
                sequence == SequenceAfter(data.Length - 4, old(sequence))
                && data[..] == Overwritten(old(data[..]), old(sequence))
    {
      if data.Length - 4 > maxAllowedPacket {
        return PacketTooLarge;
      }
      var ok := SendFrames(data);
      r := if ok then Written else WriteFailed;
    }

    /** The frames of data[4..], one after the other. */
    method SendFrames(data: array<byte>) returns (ok: bool)
      requires data.Length >= 4
      modifies `sequence, `output, `room, data
      ensures var frames := Frames(old(data[4..]), old(sequence));
              && (ok <==> |frames| <= old(room))
              && output == old(output) + (if ok then frames else frames[..old(room)])
              && room == if ok then old(room) - |frames| else 0
      ensures ok ==>
                sequence == SequenceAfter(data.Length - 4, old(sequence))
                && data[..] == Overwritten(old(data[..]), old(sequence))
    {
      hide Frames, Overwritten, FrameHeader, SequenceAfter, Next;
      ghost var d0, s0, out0, room0 := data[..], sequence, output, room;
      ghost var frames := Frames(d0[4..], s0);
      ghost var sent: bytes := [];
      var pktLen: nat := data.Length - 4;
      var start: nat := 0;
      assert d0[4..] == data[4..];
      while true
        invariant start + 4 + pktLen == data.Length
        invariant data[start..] == d0[start..]
        invariant frames == sent + Frames(d0[start + 4..], sequence)
        invariant output == out0 + sent && room == room0 - |sent|
        invariant Overwritten(d0, s0) == data[..start] + Overwritten(d0[start..], sequence)
        invariant SequenceAfter(|d0| - 4, s0) == SequenceAfter(pktLen, sequence)
        decreases pktLen
      {
        var size := if pktLen >= MAX_PACKET_SIZE then MAX_PACKET_SIZE else pktLen;
        ghost var more: bytes := [];
        if size < MAX_PACKET_SIZE {
          LastFrame(d0, start, sequence);
        } else {
          FullFrame(d0, start, sequence);
          more := Frames(d0[start + size + 4..], Next(sequence));
        }
        ghost var behind, number := data[..start], sequence;
        ghost var frame: bytes;
        ok, frame := SendFrame(data, start, size, d0);
        FrameOut(out0, sent, frame, more, frames, room0);
        if !ok {
          return;
        }
        if size != MAX_PACKET_SIZE {
          LastContents(d0, data[..], s0, start, number, behind);
          return;
        }
        FullContents(d0, data[..], s0, start, number, behind);
        sent := sent + frame;
        pktLen := pktLen - size;
        start := start + size;
      }
    }

    /** One frame: its header in place, then the write. */
    method SendFrame(data: array<byte>, start: nat, size: nat, ghost d0: bytes) returns (ok: bool, ghost frame: bytes)
      requires start + 4 + size <= data.Length && |d0| == data.Length && data[start..] == d0[start..]
      modifies `sequence, `output, `room, data
      ensures frame == FrameHeader(size, old(sequence)) + d0[start + 4..start + 4 + size]
      ensures ok <==> |frame| <= old(room)
      ensures output == old(output) + (if ok then frame else frame[..old(room)])
      ensures room == if ok then old(room) - |frame| else 0
      ensures sequence == if ok then Next(old(sequence)) else old(sequence)
      ensures data[..start + 4] == old(data[..start]) + FrameHeader(size, old(sequence))
      ensures data[start + 4..] == d0[start + 4..]
    {
      hide FrameHeader;
      var bytesOut := PutHeader(data, start, size, d0);
      assert data[..start + 4] == data[..start] + data[start..start + 4];
      frame := bytesOut;
      ok := Write(bytesOut);
      if ok {
        sequence := Next(sequence);
      }
    }

    /** Writes the header at start, over bytes no longer needed, and cuts out the frame. */
    method PutHeader(data: array<byte>, start: nat, size: nat, ghost d0: bytes) returns (frame: bytes)
      requires start + 4 + size <= data.Length && |d0| == data.Length && data[start..] == d0[start..]
      modifies data
      ensures frame == FrameHeader(size, sequence) + d0[start + 4..start + 4 + size]
      ensures data[..start] == old(data[..start])
      ensures data[start..start + 4] == FrameHeader(size, sequence)
      ensures data[start + 4..] == d0[start + 4..]
    {
      ghost var tail := data[start..];
      data[start] := size % 256;
      data[start + 1] := size / 256 % 256;
      data[start + 2] := size / 256 / 256 % 256;
      data[start + 3] := sequence;
      ThreeBytes(size);
      assert data[start..start + 4] == FrameHeader(size, sequence);
      assert data[start + 4..] == tail[4..] == d0[start + 4..];
      frame := data[start..start + 4 + size];
      assert frame == data[start..start + 4] + data[start + 4..start + 4 + size];
      assert data[start + 4..start + 4 + size] == data[start + 4..][..size] == d0[start + 4..][..size];
    }

    method ReadPacket() returns (r: Outcome)
      modifies `sequence, `input
      ensures Read(r, input, sequence) == ReadFrames(old(input), old(sequence), None)
    {
      var prevData := None;
      while true
        invariant ReadFrames(input, sequence, prevData) == ReadFrames(old(input), old(sequence), None)
        decreases |input|
      {
        if |input| < 4 {
          input := [];
          return BadConn;
        }
        var header := input[..4];
        var size := LE(header[..3]);
        assert header[..3] == input[..3];
        if header[3] != sequence {
          input := input[4..];
          return if header[3] > sequence then PacketSyncMultiple else PacketSync;
        }
        sequence := Next(sequence);
        if size == 0 {
          input := input[4..];
          return if prevData.None? then BadConn else Packet(prevData.value);
        }
        if |input| - 4 < size {
          input := [];
          return BadConn;
        }
        var data := (if prevData.None? then [] else prevData.value) + input[4..4 + size];
        input := input[4 + size..];
        if size < MAX_PACKET_SIZE {
          return Packet(data);
        }
        prevData := Some(data);
      }
    }
  }

  // ---------- the round trip ----------

  function OrEmpty(prev: Option<bytes>): bytes {
    if prev.None? then [] else prev.value
  }

  /** Reading one frame off the front. */
  lemma ReadOne(size: nat, body: bytes, sequence: byte, rest: bytes, prev: Option<bytes>)
    requires |body| == size <= MAX_PACKET_SIZE
    ensures var input := FrameHeader(size, sequence) + body + rest;
            ReadFrames(input, sequence, prev)
            == if size == 0 then Read(if prev.None? then BadConn else Packet(prev.value), rest, Next(sequence))
               else if size < MAX_PACKET_SIZE then Read(Packet(OrEmpty(prev) + body), rest, Next(sequence))
               else ReadFrames(rest, Next(sequence), Some(OrEmpty(prev) + body))
  {
    hide LE, PutLE;
    var input := FrameHeader(size, sequence) + body + rest;
    assert input[..3] == PutLE(size, 3);
    LEPut(size, 3);
    Pow256Values();
    assert input[3] == sequence;
    assert input[4..4 + size] == body;
    assert input[4 + size..] == rest;
  }

  /** A payload is read back from its frames, with what follows left unread and reader and writer at the
      same sequence number: for any number of frames, exact multiples of the frame size included. */
  lemma {:induction false} FramesReadBack(payload: bytes, sequence: byte, rest: bytes, prev: Option<bytes>)
    ensures ReadFrames(Frames(payload, sequence) + rest, sequence, prev)
            == if payload == [] && prev.None? then Read(BadConn, rest, Next(sequence))
               else Read(Packet(OrEmpty(prev) + payload), rest, SequenceAfter(|payload|, sequence))
    decreases |payload|
  {
    hide FrameHeader, ReadFrames, Next, Frames;
    if |payload| < MAX_PACKET_SIZE {
      OneFrame(payload, sequence);
      ReadOne(|payload|, payload, sequence, rest, prev);
      assert payload == [] ==> OrEmpty(prev) + payload == OrEmpty(prev);
    } else {
      var first, more := payload[..MAX_PACKET_SIZE], payload[MAX_PACKET_SIZE..];
      var tail := Frames(more, Next(sequence)) + rest;
      FullThenRest(payload, sequence, rest);
      assert SequenceAfter(|payload|, sequence) == SequenceAfter(|more|, Next(sequence));
      hide SequenceAfter;
      ReadOne(MAX_PACKET_SIZE, first, sequence, tail, prev);
      FramesReadBack(more, Next(sequence), rest, Some(OrEmpty(prev) + first));
      hide OrEmpty;
      TwoPieces(OrEmpty(prev), payload, MAX_PACKET_SIZE);
    }
  }

  lemma TwoPieces(before: bytes, b: bytes, n: nat)
    requires n <= |b|
    ensures before + b[..n] + b[n..] == before + b
  {
    assert b[..n] + b[n..] == b;
  }

  lemma OneFrame(payload: bytes, sequence: byte)
    requires |payload| < MAX_PACKET_SIZE
    ensures Frames(payload, sequence) == FrameHeader(|payload|, sequence) + payload
    ensures SequenceAfter(|payload|, sequence) == Next(sequence)
  {
  }

  lemma FullThenRest(payload: bytes, sequence: byte, rest: bytes)
    requires |payload| >= MAX_PACKET_SIZE
    ensures Frames(payload, sequence) + rest
            == FrameHeader(MAX_PACKET_SIZE, sequence) + payload[..MAX_PACKET_SIZE]
               + (Frames(payload[MAX_PACKET_SIZE..], Next(sequence)) + rest)
  {
    hide FrameHeader;
  }

  /** The framing round trip, exactly for the payloads that are not empty. */
  lemma PacketRoundTrip(payload: bytes, sequence: byte, rest: bytes)
    ensures ReadFrames(Frames(payload, sequence) + rest, sequence, None)
            == Read(Packet(payload), rest, SequenceAfter(|payload|, sequence))
            <==> payload != []
  {
    hide ReadFrames, Frames, SequenceAfter;
    FramesReadBack(payload, sequence, rest, None);
    assert [] + payload == payload;
  }

  /** Whatever the peer sends, a packet the reader returns is never empty. */
  lemma {:induction false} PacketsAreNotEmpty(input: bytes, sequence: byte, prev: Option<bytes>)
    requires prev.Some? ==> prev.value != []
    ensures var r := ReadFrames(input, sequence, prev); r.outcome.Packet? ==> r.outcome.data != []
    decreases |input|
  {
    hide LE;
    if |input| >= 4 {
      var size := LE(input[..3]);
      if input[3] == sequence && MAX_PACKET_SIZE <= size <= |input| - 4 {
        PacketsAreNotEmpty(input[4 + size..], Next(sequence), Some(OrEmpty(prev) + input[4..4 + size]));
      }
    }
  }

  /** A frame's size is the largest that its three length bytes can say. */
  lemma FrameSizeLimit(n: nat)
    ensures n <= MAX_PACKET_SIZE <==> LE(PutLE(n, 3)) == n
  {
    hide LE, PutLE;
    LEPut(n, 3);
    Pow256Values();
  }

  /** Frames are numbered from the first one on, modulo 256. */
  lemma {:induction false} SequenceCountsFrames(n: nat, sequence: byte)
    ensures SequenceAfter(n, sequence) == (sequence + n / MAX_PACKET_SIZE + 1) % 256
  {
    if n >= MAX_PACKET_SIZE {
      hide Next;
      SequenceCountsFrames(n - MAX_PACKET_SIZE, Next(sequence));
      assert (n - MAX_PACKET_SIZE) / MAX_PACKET_SIZE == n / MAX_PACKET_SIZE - 1;
      NextCounts(sequence, n / MAX_PACKET_SIZE);
    }
  }

  lemma NextCounts(sequence: byte, q: nat)
    ensures (Next(sequence) + q) % 256 == (sequence + q + 1) % 256
  {
  }
}
