/** Binlog events as raw packets: the v4 header, the format description event, checksums,
    and the encoder that puts a header around an event body. */
module Events {
  import opened Results
  import opened Bytes

  // Event type codes.
  const QUERY_EVENT := 2
  const ROTATE_EVENT := 4
  const INTVAR_EVENT := 5
  const RAND_EVENT := 13
  const FORMAT_DESCRIPTION_EVENT := 15
  const XID_EVENT := 16
  const TABLE_MAP_EVENT := 19
  const WRITE_ROWS_V1 := 23
  const UPDATE_ROWS_V1 := 24
  const DELETE_ROWS_V1 := 25
  const ROWS_QUERY_EVENT := 29
  const WRITE_ROWS_V2 := 30
  const UPDATE_ROWS_V2 := 31
  const DELETE_ROWS_V2 := 32

  // Checksum algorithms.
  const CHECKSUM_OFF := 0
  const CHECKSUM_CRC32 := 1
  const CHECKSUM_UNDEF := 255

  datatype BinlogFormat = BinlogFormat(
    formatVersion: nat,
    serverVersion: bytes,
    headerLength: byte,
    checksumAlgorithm: byte,
    headerSizes: bytes)

  const ZERO_FORMAT := BinlogFormat(0, [], 0, 0, [])

  predicate IsZeroFormat(f: BinlogFormat) {
    f.formatVersion == 0 && f.headerLength == 0
  }

  datatype Flavor = Mysql56 | MariaDB

  datatype Event = Event(flavor: Flavor, buf: bytes)

  /** The packet is long enough for a header, and the header is right about the packet's size. */
  predicate IsValid(buf: bytes) {
    |buf| >= 19 && LE(buf[9..13]) >= 19 && LE(buf[9..13]) == |buf|
  }

  function Type(buf: bytes): byte
    requires |buf| >= 5
  {
    buf[4]
  }

  function Timestamp(buf: bytes): Result<nat> {
    var b :- Take(buf, 0, 4);
    Ok(LE(b))
  }

  function NextPosition(buf: bytes): Result<nat> {
    var b :- Take(buf, 13, 4);
    Ok(LE(b))
  }

  /** ev.Bytes()[f.HeaderLength:] */
  function Body(buf: bytes, f: BinlogFormat): Result<bytes> {
    if f.headerLength <= |buf| then Ok(buf[f.headerLength..]) else Err(OutOfRange)
  }

  /** f.HeaderSizes[typ-1], the index being computed on a byte. */
  function HeaderSize(f: BinlogFormat, typ: byte): Result<byte> {
    At(f.headerSizes, if typ == 0 then 255 else typ - 1)
  }

  function TableID(buf: bytes, f: BinlogFormat): Result<nat>
    requires |buf| >= 5
  {
    var size :- HeaderSize(f, Type(buf));
    var b :- Take(buf, f.headerLength, if size == 6 then 4 else 6);
    Ok(LE(b))
  }

  function Rotate(buf: bytes, f: BinlogFormat): Result<(bytes, int)> {
    var data :- Body(buf, f);
    if |data| < 8 then Err(RotateOverflow)
    else
      PutLEOfLE(data[..8]);
      Ok((data[8..], Signed64(LE(data[..8]))))
  }

  function TrimRightZeros(b: bytes): (t: bytes)
    ensures t <= b && (t == [] || t[|t| - 1] != 0)
  {
    if b != [] && b[|b| - 1] == 0 then TrimRightZeros(b[..|b| - 1]) else b
  }

  function Format(buf: bytes): Result<BinlogFormat> {
    if |buf| < 19 then Err(OutOfRange)
    else
      var data := buf[19..];
      var version :- Take(data, 0, 2);
      if LE(version) != 4 then Err(BadFormatVersion)
      else
        var server :- Take(data, 2, 50);
        var headerLength :- At(data, 56);
        if headerLength < 19 then Err(BadHeaderLength)
        else if |data| < 62 then Err(OutOfRange)
        else Ok(BinlogFormat(4, TrimRightZeros(server), headerLength, data[|data| - 5], data[57..|data| - 5]))
  }

  function StripChecksum(ev: Event, f: BinlogFormat): Result<Event> {
    if f.checksumAlgorithm == CHECKSUM_OFF || f.checksumAlgorithm == CHECKSUM_UNDEF then Ok(ev)
    else if f.checksumAlgorithm == CHECKSUM_CRC32 || ev.flavor == MariaDB then
      if |ev.buf| < 4 then Err(OutOfRange) else Ok(ev.(buf := ev.buf[..|ev.buf| - 4]))
    else Err(UnsupportedChecksum)
  }

  // ---------- encoders ----------

  datatype FakeBinlogStream = FakeBinlogStream(serverID: nat, logPosition: nat, timestamp: nat)

  /** How many zero bytes stand where a checksum would be. */
  function ChecksumRoom(f: BinlogFormat, typ: byte): nat {
    if typ == FORMAT_DESCRIPTION_EVENT || f.checksumAlgorithm == CHECKSUM_CRC32 then 4 else 0
  }

  function HeaderBytes(f: BinlogFormat, s: FakeBinlogStream, typ: byte, flags: nat, length: nat): bytes {
    PutLE(s.timestamp, 4) + [typ] + PutLE(s.serverID, 4) + PutLE(length, 4)
    + if f.headerLength >= 19 then PutLE(s.logPosition, 4) + PutLE(flags, 2) else []
  }

  /** The header in a zeroed buffer, then the body copied over it at offset HeaderLength. */
  function Packetize(f: BinlogFormat, s: FakeBinlogStream, typ: byte, flags: nat, data: bytes): Result<bytes> {
    var length := f.headerLength + |data| + ChecksumRoom(f, typ);
    if length < 13 then Err(OutOfRange)
    else
      var header := HeaderBytes(f, s, typ, flags, length);
      var base := header + Zeros(length - |header|);
      Ok(base[..f.headerLength] + data + base[f.headerLength + |data|..])
  }

  /** A zeroed buffer whose first pos bytes have been written with `done`. */
  ghost predicate Filled(dst: array<byte>, pos: nat, done: bytes)
    reads dst
  {
    pos <= dst.Length && dst[..pos] == done && dst[pos..] == Zeros(dst.Length - pos)
  }

  lemma FilledEmpty(dst: array<byte>)
    requires dst[..] == Zeros(dst.Length)
    ensures Filled(dst, 0, [])
  {
  }

  lemma FilledContents(dst: array<byte>, pos: nat, done: bytes)
    requires Filled(dst, pos, done)
    ensures dst[..] == done + Zeros(dst.Length - pos) && |done| == pos
  {
    assert dst[..] == dst[..pos] + dst[pos..];
  }

  /** Go's copy(dst[pos:], src), where src fits: the next piece of a buffer filled from left to right. */
  method Append(dst: array<byte>, pos: nat, src: bytes, ghost done: bytes) returns (next: nat)
    requires Filled(dst, pos, done) && pos + |src| <= dst.Length
    modifies dst
    ensures next == pos + |src| && Filled(dst, next, done + src)
  {
    forall i | 0 <= i < |src| {
      dst[pos + i] := src[i];
    }
    next := pos + |src|;
    assert dst[..next] == dst[..pos] + src;
  }

  /** Go's copy(dst[pos:], src) over bytes already written. */
  method Overlay(dst: array<byte>, pos: nat, src: bytes)
    requires pos + |src| <= dst.Length
    modifies dst
    ensures dst[..] == old(dst[..pos]) + src + old(dst[pos + |src|..])
  {
    forall i | 0 <= i < |src| {
      dst[pos + i] := src[i];
    }
  }

  method PacketizeBuffer(f: BinlogFormat, s: FakeBinlogStream, typ: byte, flags: nat, data: bytes)
    returns (r: Result<bytes>)
    ensures r == Packetize(f, s, typ, flags, data)
  {
    hide PutLE, HeaderBytes, Filled;
    var length: nat := f.headerLength + |data|;
    if typ == FORMAT_DESCRIPTION_EVENT || f.checksumAlgorithm == CHECKSUM_CRC32 {
      length := length + 4;
    }
    if length < 13 {
      return Err(OutOfRange);
    }
    var result := new byte[length](i => 0);
    var pos := WriteHeader(result, f, s, typ, flags);
    FilledContents(result, pos, HeaderBytes(f, s, typ, flags, length));
    Overlay(result, f.headerLength, data);
    r := Ok(result[..]);
  }

  method WriteHeader(dst: array<byte>, f: BinlogFormat, s: FakeBinlogStream, typ: byte, flags: nat) returns (pos: nat)
    requires dst.Length >= if f.headerLength >= 19 then 19 else 13
    requires dst[..] == Zeros(dst.Length)
    modifies dst
    ensures Filled(dst, pos, HeaderBytes(f, s, typ, flags, dst.Length))
  {
    hide PutLE;
    FilledEmpty(dst);
    pos := Append(dst, 0, PutLE(s.timestamp, 4), []);
    assert [] + PutLE(s.timestamp, 4) == PutLE(s.timestamp, 4);
    ghost var done := PutLE(s.timestamp, 4);
    pos := Append(dst, 4, [typ], done);
    done := done + [typ];
    pos := Append(dst, 5, PutLE(s.serverID, 4), done);
    done := done + PutLE(s.serverID, 4);
    pos := Append(dst, 9, PutLE(dst.Length, 4), done);
    done := done + PutLE(dst.Length, 4);
    if f.headerLength >= 19 {
      pos := Append(dst, 13, PutLE(s.logPosition, 4), done);
      done := done + PutLE(s.logPosition, 4);
      pos := Append(dst, 17, PutLE(flags, 2), done);
      done := done + PutLE(flags, 2);
    } else {
      assert done + [] == done;
    }
    assert done == HeaderBytes(f, s, typ, flags, dst.Length);
    hide HeaderBytes, Filled;
  }

  lemma PacketizeLayout(f: BinlogFormat, s: FakeBinlogStream, typ: byte, flags: nat, data: bytes)
    requires f.headerLength >= 19
    ensures var p := Packetize(f, s, typ, flags, data);
            var length := f.headerLength + |data| + ChecksumRoom(f, typ);
            p.Ok? && |p.value| == length
            && p.value[..13] == PutLE(s.timestamp, 4) + [typ] + PutLE(s.serverID, 4) + PutLE(length, 4)
            && p.value[13..17] == PutLE(s.logPosition, 4)
            && p.value[f.headerLength..] == data + Zeros(ChecksumRoom(f, typ))
  {
    var length := f.headerLength + |data| + ChecksumRoom(f, typ);
    var header := HeaderBytes(f, s, typ, flags, length);
    var base := header + Zeros(length - |header|);
    assert Packetize(f, s, typ, flags, data).value[..19] == base[..19] == header;
    var first := PutLE(s.timestamp, 4) + [typ] + PutLE(s.serverID, 4) + PutLE(length, 4);
    assert header == first + PutLE(s.logPosition, 4) + PutLE(flags, 2);
  }

  /** A packet made by the encoder is valid exactly when its size fits the header's 32-bit field. */
  lemma PacketizeIsValid(f: BinlogFormat, s: FakeBinlogStream, typ: byte, flags: nat, data: bytes)
    requires f.headerLength >= 19
    ensures var p := Packetize(f, s, typ, flags, data);
            p.Ok? && (IsValid(p.value) <==> |p.value| < 0x1_0000_0000)
  {
    PacketizeLayout(f, s, typ, flags, data);
    var p := Packetize(f, s, typ, flags, data).value;
    assert p[9..13] == p[..13][9..] == PutLE(|p|, 4);
    LEPut(|p|, 4);
    Pow256Values();
  }

  /** Header and body come back after the checksum is stripped, exactly for the checksum settings
      whose trailer the encoder writes: with any other one the packet is refused (MySQL 5.6) or
      four bytes of the body are lost (MariaDB). */
  lemma PacketizeStrip(flavor: Flavor, f: BinlogFormat, s: FakeBinlogStream, typ: byte, flags: nat, data: bytes)
    requires f.headerLength >= 19 && typ != FORMAT_DESCRIPTION_EVENT
    ensures var p := Packetize(f, s, typ, flags, data);
            p.Ok?
            && var e := StripChecksum(Event(flavor, p.value), f);
            (e.Ok? && |e.value.buf| >= 5 && Type(e.value.buf) == typ && Body(e.value.buf, f) == Ok(data)
             <==> f.checksumAlgorithm in {CHECKSUM_OFF, CHECKSUM_CRC32, CHECKSUM_UNDEF})
  {
    PacketizeLayout(f, s, typ, flags, data);
    var p := Packetize(f, s, typ, flags, data).value;
    assert p[4] == p[..13][4] == typ;
    var e := StripChecksum(Event(flavor, p), f);
    if f.checksumAlgorithm in {CHECKSUM_OFF, CHECKSUM_CRC32, CHECKSUM_UNDEF} {
      assert e.value.buf[f.headerLength..] == data;
    }
  }

  /** The table id at the start of a body, for the six-byte encoding the encoders write. */
  lemma TableIDBack(buf: bytes, f: BinlogFormat, data: bytes, tableID: nat)
    requires |buf| >= 5 && Body(buf, f) == Ok(data)
    requires |data| >= 6 && data[..6] == PutLE(tableID, 6)
    requires var size := HeaderSize(f, Type(buf)); size.Ok? && size.value != 6
    ensures TableID(buf, f) == Ok(tableID % Pow256(6))
  {
    assert buf[f.headerLength..f.headerLength + 6] == data[..6];
    LEPut(tableID, 6);
  }

  // ---------- rotate events ----------

  function RotateBody(position: nat, filename: bytes): bytes {
    PutLE(position, 8) + filename
  }

  /** The packet of a fake rotate event: its timestamp is overwritten with zeros. */
  function EncodeRotate(f: BinlogFormat, s: FakeBinlogStream, position: nat, filename: bytes): Result<bytes> {
    var p :- Packetize(f, s, ROTATE_EVENT, 0, RotateBody(position, filename));
    if |p| < 4 then Err(OutOfRange) else Ok([0, 0, 0, 0] + p[4..])
  }

  method NewRotateEvent(f: BinlogFormat, s: FakeBinlogStream, position: nat, filename: bytes) returns (r: Result<bytes>)
    ensures r == EncodeRotate(f, s, position, filename)
  {
    hide PutLE, Filled, Packetize;
    var data := new byte[8 + |filename|](i => 0);
    FilledEmpty(data);
    var pos := Append(data, 0, PutLE(position, 8), []);
    assert [] + PutLE(position, 8) == PutLE(position, 8);
    pos := Append(data, 8, filename, PutLE(position, 8));
    FilledContents(data, pos, RotateBody(position, filename));
    assert RotateBody(position, filename) + Zeros(0) == RotateBody(position, filename);
    var p := PacketizeBuffer(f, s, ROTATE_EVENT, 0, data[..]);
    if p.Err? {
      return p;
    }
    if |p.value| < 4 {
      return Err(OutOfRange);
    }
    var ev := new byte[|p.value|](i requires 0 <= i < |p.value| => p.value[i]);
    assert ev[..] == p.value;
    Overlay(ev, 0, [0, 0, 0, 0]);
    assert ev[..] == [] + [0, 0, 0, 0] + p.value[4..] == [0, 0, 0, 0] + p.value[4..];
    r := Ok(ev[..]);
  }

  /** A fake rotate event is a packet of time zero. */
  lemma RotateHasNoTime(f: BinlogFormat, s: FakeBinlogStream, position: nat, filename: bytes)
    requires f.headerLength >= 19
    ensures EncodeRotate(f, s, position, filename)
            == Packetize(f, s.(timestamp := 0), ROTATE_EVENT, 0, RotateBody(position, filename))
  {
    var data := RotateBody(position, filename);
    var length := f.headerLength + |data| + ChecksumRoom(f, ROTATE_EVENT);
    TimeZero(f, s, length);
    hide HeaderBytes, RotateBody;
    var timed := HeaderBytes(f, s, ROTATE_EVENT, 0, length);
    var timeless := HeaderBytes(f, s.(timestamp := 0), ROTATE_EVENT, 0, length);
    var p := Packetize(f, s, ROTATE_EVENT, 0, data).value;
    var base := timed + Zeros(length - |timed|);
    assert p == base[..f.headerLength] + data + base[f.headerLength + |data|..];
    var q := timeless + Zeros(length - |timeless|);
    assert [0, 0, 0, 0] + base[4..] == q;
    assert [0, 0, 0, 0] + p[4..] == q[..f.headerLength] + data + q[f.headerLength + |data|..];
  }

  lemma TimeZero(f: BinlogFormat, s: FakeBinlogStream, length: nat)
    requires f.headerLength >= 19
    ensures var timed := HeaderBytes(f, s, ROTATE_EVENT, 0, length);
            var timeless := HeaderBytes(f, s.(timestamp := 0), ROTATE_EVENT, 0, length);
            |timed| == |timeless| == 19 && timeless == [0, 0, 0, 0] + timed[4..]
  {
    FourZeros();
    hide PutLE;
  }

  lemma FourZeros()
    ensures PutLE(0, 4) == [0, 0, 0, 0]
  {
    assert PutLE(0, 1) == [0] && PutLE(0, 2) == [0, 0] && PutLE(0, 3) == [0, 0, 0];
  }

  /** The rotate round trip: position, as a signed 64-bit number, and file name come back. */
  lemma RotateRoundTrip(flavor: Flavor, f: BinlogFormat, s: FakeBinlogStream, position: nat, filename: bytes)
    requires f.headerLength >= 19 && position < Pow256(8)
    requires f.checksumAlgorithm in {CHECKSUM_OFF, CHECKSUM_CRC32, CHECKSUM_UNDEF}
    ensures var p := EncodeRotate(f, s, position, filename);
            && p.Ok?
            && var e := StripChecksum(Event(flavor, p.value), f);
            && e.Ok? && |e.value.buf| >= 5 && Type(e.value.buf) == ROTATE_EVENT
            && var r := Rotate(e.value.buf, f);
            && r.Ok? && r.value.0 == filename
            && r.value.1 == if 2 * position < Pow256(8) then position else position - Pow256(8)
  {
    hide Packetize, EncodeRotate, PutLE, LE;
    RotateHasNoTime(f, s, position, filename);
    var data := RotateBody(position, filename);
    PacketizeStrip(flavor, f, s.(timestamp := 0), ROTATE_EVENT, 0, data);
    LEPut(position, 8);
    Pow256Values();
    assert data[..8] == PutLE(position, 8) && data[8..] == filename;
  }

  function VersionField(f: BinlogFormat): (v: bytes)
    ensures |v| == 50
  {
    if |f.serverVersion| <= 50 then f.serverVersion + Zeros(50 - |f.serverVersion|) else f.serverVersion[..50]
  }

  function FormatDescriptionBody(f: BinlogFormat, s: FakeBinlogStream): bytes {
    PutLE(f.formatVersion, 2) + VersionField(f) + PutLE(s.timestamp, 4) + [f.headerLength] + f.headerSizes
    + [f.checksumAlgorithm]
  }

  method NewFormatDescriptionEvent(f: BinlogFormat, s: FakeBinlogStream) returns (r: Result<bytes>)
    ensures r == Packetize(f, s, FORMAT_DESCRIPTION_EVENT, 0, FormatDescriptionBody(f, s))
  {
    hide PutLE, VersionField, Filled, Packetize;
    var length := 2 + 50 + 4 + 1 + |f.headerSizes| + 1;
    var data := new byte[length](i => 0);
    FilledEmpty(data);
    var pos := Append(data, 0, PutLE(f.formatVersion, 2), []);
    assert [] + PutLE(f.formatVersion, 2) == PutLE(f.formatVersion, 2);
    ghost var done := PutLE(f.formatVersion, 2);
    // the 50-byte window data[2:52] bounds how much of the version is copied
    pos := Append(data, 2, VersionField(f), done);
    done := done + VersionField(f);
    pos := Append(data, 52, PutLE(s.timestamp, 4), done);
    done := done + PutLE(s.timestamp, 4);
    pos := Append(data, 56, [f.headerLength], done);
    done := done + [f.headerLength];
    pos := Append(data, 57, f.headerSizes, done);
    done := done + f.headerSizes;
    pos := Append(data, 57 + |f.headerSizes|, [f.checksumAlgorithm], done);
    done := done + [f.checksumAlgorithm];
    FilledContents(data, pos, done);
    assert done + Zeros(0) == done == FormatDescriptionBody(f, s);
    hide FormatDescriptionBody;
    r := PacketizeBuffer(f, s, FORMAT_DESCRIPTION_EVENT, 0, data[..]);
  }

  lemma {:induction false} TrimPadded(v: bytes, n: nat)
    requires v == [] || v[|v| - 1] != 0
    ensures TrimRightZeros(v + Zeros(n)) == v
  {
    if n == 0 {
      assert v + Zeros(0) == v;
    } else {
      assert (v + Zeros(n))[..|v| + n - 1] == v + Zeros(n - 1);
      TrimPadded(v, n - 1);
    }
  }

  /** The formats a format description event can carry: version 4, a 19-byte header (the decoder
      reads this event with a fixed 19-byte header, the encoder writes HeaderLength bytes of it),
      and a server version that fits its field and does not end in a zero byte. */
  predicate Describable(f: BinlogFormat) {
    f.formatVersion == 4 && f.headerLength == 19 && |f.serverVersion| <= 50
    && (f.serverVersion == [] || f.serverVersion[|f.serverVersion| - 1] != 0)
  }

  /** The decoder gives back the encoded format exactly for the describable formats. */
  lemma FormatRoundTrip(f: BinlogFormat, s: FakeBinlogStream)
    requires f.formatVersion < 0x1_0000
    ensures var p := Packetize(f, s, FORMAT_DESCRIPTION_EVENT, 0, FormatDescriptionBody(f, s));
            p.Ok? && (Format(p.value) == Ok(f) <==> Describable(f))
  {
    var body := FormatDescriptionBody(f, s);
    var p := Packetize(f, s, FORMAT_DESCRIPTION_EVENT, 0, body).value;
    if f.headerLength >= 19 {
      PacketizeLayout(f, s, FORMAT_DESCRIPTION_EVENT, 0, body);
      if Describable(f) {
        FormatForward(f, s, p);
      } else if f.headerLength > 19 && Format(p) == Ok(f) {
        FormatShiftedHeader(f, s, p);
      }
    }
  }

  lemma FormatForward(f: BinlogFormat, s: FakeBinlogStream, p: bytes)
    requires Describable(f) && |p| >= 19
    requires p[19..] == FormatDescriptionBody(f, s) + Zeros(4)
    ensures Format(p) == Ok(f)
  {
    hide LE, PutLE, TrimRightZeros;
    var data := p[19..];
    var n := |f.headerSizes|;
    assert data[0..2] == PutLE(4, 2);
    LEPut(4, 2);
    Pow256Values();
    assert data[2..52] == f.serverVersion + Zeros(50 - |f.serverVersion|);
    TrimPadded(f.serverVersion, 50 - |f.serverVersion|);
    assert data[57..|data| - 5] == f.headerSizes;
  }

  lemma FormatShiftedHeader(f: BinlogFormat, s: FakeBinlogStream, p: bytes)
    requires f.headerLength > 19
    requires Packetize(f, s, FORMAT_DESCRIPTION_EVENT, 0, FormatDescriptionBody(f, s)) == Ok(p)
    requires f.formatVersion < 0x1_0000
    ensures Format(p) != Ok(f)
  {
    var body := FormatDescriptionBody(f, s);
    var version := p[19..][0..2];
    assert version == [p[19], p[20]];
    assert p[19] == 0;
    assert LE(version) == version[0] + 256 * LE(version[1..]);
    assert LE(version) % 256 == 0;
  }
}
