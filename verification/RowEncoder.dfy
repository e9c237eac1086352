/** The encoder of rows events, and its round trip through packet, checksum and decoder. */
module RowEncoder {
  import opened Results
  import opened Bytes
  import opened Bitmaps
  import opened Events
  import opened LenEnc
  import opened RowEvents
  import opened RowFacts

  function ShapeOf(typ: byte, r: RowsEvent): Shape {
    Shape(HasIdentify(typ), r.identifyColumns, HasData(typ), r.dataColumns)
  }

  function RowSize(row: Row): nat {
    |row.nullIdentifyColumns.data| + |row.nullColumns.data| + |row.identify| + |row.data|
  }

  function RowSizes(rows: seq<Row>): nat {
    if rows == [] then 0 else RowSizes(rows[..|rows| - 1]) + RowSize(rows[|rows| - 1])
  }

  /** The column count the encoder writes. */
  function ColumnCount(typ: byte, r: RowsEvent): nat {
    if HasIdentify(typ) then r.identifyColumns.count else r.dataColumns.count
  }

  /** Table id, flags, an empty extra-data block, and the column count in one byte. */
  function Preamble(tableID: nat, typ: byte, r: RowsEvent): bytes {
    PutLE(tableID, 6) + PutLE(r.flags, 2) + [2, 0]
    + PutLE(ColumnCount(typ, r), 1)
  }

  function ColumnBitmaps(typ: byte, r: RowsEvent): bytes {
    (if HasIdentify(typ) then r.identifyColumns.data else [])
    + if HasData(typ) then r.dataColumns.data else []
  }

  /** The buffer has room for every field, also for those the event type does not write. */
  function BodySize(r: RowsEvent): nat {
    11 + |r.identifyColumns.data| + |r.dataColumns.data| + RowSizes(r.rows)
  }

  function Written(tableID: nat, typ: byte, r: RowsEvent): bytes {
    Preamble(tableID, typ, r) + ColumnBitmaps(typ, r) + EncodeRows(r.rows, ShapeOf(typ, r))
  }

  function RowsBody(tableID: nat, typ: byte, r: RowsEvent): (b: bytes)
    ensures |b| == BodySize(r)
  {
    hide EncodeRow, RowSize;
    EncodedRowsFit(r.rows, |r.rows|, ShapeOf(typ, r));
    assert r.rows[..|r.rows|] == r.rows;
    Written(tableID, typ, r) + Zeros(BodySize(r) - |Written(tableID, typ, r)|)
  }

  function EncodeRowsEvent(f: BinlogFormat, s: FakeBinlogStream, typ: byte, tableID: nat, r: RowsEvent): Result<bytes> {
    var size :- HeaderSize(f, typ);
    if size == 6 then Err(NotImplemented) else Packetize(f, s, typ, 0, RowsBody(tableID, typ, r))
  }

  // ---------- sizes ----------

  lemma {:induction false} EncodeRowsAppend(rows: seq<Row>, row: Row, shape: Shape)
    ensures EncodeRows(rows + [row], shape) == EncodeRows(rows, shape) + EncodeRow(row, shape)
  {
    hide EncodeRow;
    if rows == [] {
      assert (rows + [row])[1..] == [];
      assert EncodeRows([row], shape) == EncodeRow(row, shape) + EncodeRows([], shape);
    } else {
      assert (rows + [row])[1..] == rows[1..] + [row];
      EncodeRowsAppend(rows[1..], row, shape);
    }
  }

  lemma RowFitsRoom(row: Row, shape: Shape)
    ensures |EncodeRow(row, shape)| <= RowSize(row)
  {
  }

  lemma {:induction false} EncodedRowsFit(rows: seq<Row>, i: nat, shape: Shape)
    requires i <= |rows|
    ensures |EncodeRows(rows[..i], shape)| <= RowSizes(rows[..i]) <= RowSizes(rows)
  {
    hide EncodeRow, RowSize;
    if i > 0 {
      EncodedRowsFit(rows, i - 1, shape);
      assert rows[..i][..i - 1] == rows[..i - 1] && rows[..i] == rows[..i - 1] + [rows[i - 1]];
      EncodeRowsAppend(rows[..i - 1], rows[i - 1], shape);
      RowFitsRoom(rows[i - 1], shape);
    }
    RowSizesPrefix(rows, i);
  }

  lemma {:induction false} RowSizesPrefix(rows: seq<Row>, i: nat)
    requires i <= |rows|
    ensures RowSizes(rows[..i]) <= RowSizes(rows)
    decreases |rows| - i
  {
    hide RowSize;
    if i < |rows| {
      RowSizesPrefix(rows, i + 1);
      assert rows[..i + 1][..i] == rows[..i];
    } else {
      assert rows[..i] == rows;
    }
  }

  // ---------- the encoder's loops ----------

  method BodyLength(r: RowsEvent) returns (length: nat)
    ensures length == BodySize(r)
  {
    hide RowSize;
    length := 11 + |r.identifyColumns.data| + |r.dataColumns.data|;
    ghost var base := length;
    for i := 0 to |r.rows|
      invariant length == base + RowSizes(r.rows[..i])
    {
      assert r.rows[..i + 1][..i] == r.rows[..i];
      length := length + RowSize(r.rows[i]);
    }
    assert r.rows[..|r.rows|] == r.rows;
  }

  /** Writes one row at pos. */
  method AppendRow(data: array<byte>, startPos: nat, row: Row, shape: Shape, ghost done: bytes) returns (pos: nat)
    requires Filled(data, startPos, done) && startPos + |EncodeRow(row, shape)| <= data.Length
    modifies data
    ensures pos == startPos + |EncodeRow(row, shape)| && Filled(data, pos, done + EncodeRow(row, shape))
  {
    hide Filled;
    pos := startPos;
    ghost var written := done;
    if shape.hasIdentify {
      pos := Append(data, pos, row.nullIdentifyColumns.data, written);
      written := written + row.nullIdentifyColumns.data;
      pos := Append(data, pos, row.identify, written);
      written := written + row.identify;
    }
    if shape.hasData {
      pos := Append(data, pos, row.nullColumns.data, written);
      written := written + row.nullColumns.data;
      pos := Append(data, pos, row.data, written);
      written := written + row.data;
    }
    assert written == done + EncodeRow(row, shape);
  }

  method AppendRows(data: array<byte>, startPos: nat, rows: seq<Row>, shape: Shape, ghost done: bytes)
    returns (pos: nat)
    requires Filled(data, startPos, done) && startPos + RowSizes(rows) <= data.Length
    modifies data
    ensures pos == startPos + |EncodeRows(rows, shape)| && Filled(data, pos, done + EncodeRows(rows, shape))
  {
    hide Filled, EncodeRow, RowSize, RowSizes, EncodeRows;
    pos := startPos;
    assert done + EncodeRows(rows[..0], shape) == done by { EncodeNothing(rows, shape); }
    for i := 0 to |rows|
      invariant pos == startPos + |EncodeRows(rows[..i], shape)|
      invariant Filled(data, pos, done + EncodeRows(rows[..i], shape))
    {
      ghost var before := EncodeRows(rows[..i], shape);
      assert rows[..i + 1] == rows[..i] + [rows[i]];
      EncodeRowsAppend(rows[..i], rows[i], shape);
      EncodedRowsFit(rows, i + 1, shape);
      pos := AppendRow(data, pos, rows[i], shape, done + before);
      assert done + before + EncodeRow(rows[i], shape) == done + (before + EncodeRow(rows[i], shape));
    }
    assert rows[..|rows|] == rows;
  }

  lemma EncodeNothing(rows: seq<Row>, shape: Shape)
    ensures EncodeRows(rows[..0], shape) == []
  {
  }

  method NewRowsEvent(f: BinlogFormat, s: FakeBinlogStream, typ: byte, tableID: nat, r: RowsEvent)
    returns (ev: Result<bytes>)
    ensures ev == EncodeRowsEvent(f, s, typ, tableID, r)
  {
    hide Filled, EncodeRows, Packetize, RowSizes;
    var size := HeaderSize(f, typ);
    if size.Err? {
      return Err(size.error);
    }
    if size.value == 6 {
      return Err(NotImplemented);
    }
    var length := BodyLength(r);
    var data := new byte[length](i => 0);
    FilledEmpty(data);
    ghost var done := [];
    var pos := Append(data, 0, Preamble(tableID, typ, r), done);
    done := Preamble(tableID, typ, r);
    assert [] + done == done;
    pos := Append(data, pos, ColumnBitmaps(typ, r), done);
    done := done + ColumnBitmaps(typ, r);
    pos := AppendRows(data, pos, r.rows, ShapeOf(typ, r), done);
    FilledContents(data, pos, Written(tableID, typ, r));
    ev := PacketizeBuffer(f, s, typ, 0, data[..]);
  }

  // ---------- the round trip ----------

  /** A rows value that the encoder's one-byte column count and its unused-field conventions can carry. Any
      number of rows; no rows need no present column. */
  predicate WellFormed(r: RowsEvent, typ: byte, tm: TableMap) {
    var shape := ShapeOf(typ, r);
    IsRowsType(typ) && r.flags < 0x1_0000 && shape.Valid()
    && (HasIdentify(typ) && HasData(typ) ==> r.identifyColumns.count == r.dataColumns.count)
    && OneByteCount(ColumnCount(typ, r))
    && RowsFit(r.rows, tm, shape) && (r.rows != [] ==> shape.AnyPresent())
  }

  lemma {:induction false} ExactSizes(rows: seq<Row>, tm: TableMap, shape: Shape)
    requires shape.Valid() && RowsFit(rows, tm, shape)
    ensures |EncodeRows(rows, shape)| == RowSizes(rows)
    decreases |rows|
  {
    hide EncodeRow, RowSize, RowFits;
    if rows != [] {
      var n := |rows| - 1;
      assert rows[..n] + [rows[n]] == rows;
      EncodeRowsAppend(rows[..n], rows[n], shape);
      ExactSizes(rows[..n], tm, shape);
      ExactSize(rows[n], tm, shape);
    }
  }

  lemma ExactSize(row: Row, tm: TableMap, shape: Shape)
    requires shape.Valid() && RowFits(row, tm, shape)
    ensures |EncodeRow(row, shape)| == RowSize(row)
  {
    hide ScanCells, BitCount;
  }

  /** For a well-formed value the body holds what was written and no padding. */
  lemma BodyIsWritten(tableID: nat, typ: byte, r: RowsEvent, tm: TableMap)
    requires WellFormed(r, typ, tm)
    ensures RowsBody(tableID, typ, r) == Written(tableID, typ, r)
  {
    hide EncodeRows, RowSizes, RowsFit, PutLE;
    ExactSizes(r.rows, tm, ShapeOf(typ, r));
    assert Written(tableID, typ, r) + Zeros(0) == Written(tableID, typ, r);
  }

  /** Everything before the rows is read back. */
  lemma HeadBack(tableID: nat, typ: byte, r: RowsEvent, rows: bytes, postHeader: byte)
    requires HasExtraData(typ) && postHeader != 6 && r.flags < 0x1_0000 && ShapeOf(typ, r).Valid()
    requires HasIdentify(typ) && HasData(typ) ==> r.identifyColumns.count == r.dataColumns.count
    requires OneByteCount(ColumnCount(typ, r))
    ensures var front := Preamble(tableID, typ, r) + ColumnBitmaps(typ, r);
            ReadHead(front + rows, typ, postHeader) == Ok(Head(r.flags, ShapeOf(typ, r), |front|))
  {
    hide LE, PutLE, ReadLenEncInt;
    var data := Preamble(tableID, typ, r) + ColumnBitmaps(typ, r) + rows;
    LEPut(r.flags, 2);
    Pow256Values();
    OneByte(ColumnCount(typ, r));
    assert data[6..8] == PutLE(r.flags, 2);
    TwoAndZero(data[8..10]);
    assert data[10] == ColumnCount(typ, r);
    OneByteRead(data, 10);
    hide Preamble, ColumnCount;
    var i := if HasIdentify(typ) then |r.identifyColumns.data| else 0;
    if HasIdentify(typ) { assert data[11..11 + i] == r.identifyColumns.data; }
    if HasData(typ) { assert data[11 + i..11 + i + |r.dataColumns.data|] == r.dataColumns.data; }
  }

  /** A well-formed value of a version 2 type is read back from its body. */
  lemma WellFormedComesBack(tableID: nat, typ: byte, r: RowsEvent, tm: TableMap, postHeader: byte)
    requires WellFormed(r, typ, tm) && HasExtraData(typ) && postHeader != 6
    ensures DecodeBody(RowsBody(tableID, typ, r), typ, postHeader, tm) == Ok(r)
  {
    hide EncodeRows, RowsFit, ReadHead, ReadRows, RowsBody;
    BodyIsWritten(tableID, typ, r, tm);
    var rows := EncodeRows(r.rows, ShapeOf(typ, r));
    var front := Preamble(tableID, typ, r) + ColumnBitmaps(typ, r);
    HeadBack(tableID, typ, r, rows, postHeader);
    RowsBack(front, r.rows, tm, ShapeOf(typ, r));
  }

  /** The fixed bytes of a body, whatever it holds. */
  lemma BodyStart(tableID: nat, typ: byte, r: RowsEvent)
    ensures var data := RowsBody(tableID, typ, r);
            |data| >= 11 && data[..6] == PutLE(tableID, 6) && data[8] == 2 && data[9] == 0
            && data[10] == ColumnCount(typ, r) % 256
  {
    hide EncodeRows, RowSizes, PutLE, ColumnBitmaps, RowsBody;
    var data := RowsBody(tableID, typ, r);
    BodyPrefix(tableID, typ, r);
    var p := Preamble(tableID, typ, r);
    assert data[..6] == p[..6] && data[8] == p[8] && data[9] == p[9] && data[10] == p[10];
    OneByte(ColumnCount(typ, r));
  }

  lemma BodyPrefix(tableID: nat, typ: byte, r: RowsEvent)
    ensures Preamble(tableID, typ, r) <= RowsBody(tableID, typ, r)
  {
    hide EncodeRows, RowSizes, Preamble, ColumnBitmaps;
  }

  lemma OneByte(n: nat)
    ensures PutLE(n, 1) == [n % 256]
  {
    assert PutLE(n / 256, 0) == [];
  }

  /** What the head says, and where it ends, in terms of the length-encoded count in it. */
  lemma HeadParts(data: bytes, typ: byte, postHeader: byte)
    requires postHeader != 6 && |data| >= 11 && data[8] == 2 && data[9] == 0
    ensures var h := ReadHead(data, typ, postHeader);
            var count := ReadLenEncInt(data, if HasExtraData(typ) then 10 else 8);
            h.Ok? ==>
              && count.Some? && h.value.flags < 0x1_0000
              && h.value.shape.hasIdentify == HasIdentify(typ) && h.value.shape.hasData == HasData(typ)
              && h.value.next == count.value.1 + |h.value.shape.identify.data| + |h.value.shape.data.data|
              && (HasIdentify(typ) ==> h.value.shape.identify.count == count.value.0)
              && (HasData(typ) ==> h.value.shape.data.count == count.value.0)
  {
    hide LE, ReadLenEncInt;
    PutLEOfLE(data[6..8]);
    Pow256Values();
    TwoAndZero(data[8..10]);
  }

  lemma TwoAndZero(b: bytes)
    requires b == [2, 0]
    ensures LE(b) == 2 && LE([]) == 0
  {
    assert b[1..] == [0] && LE([0]) == 0 by { assert [0][1..] == []; }
  }

  /** What comes back is well-formed and of a version 2 type. Under another type the byte 2 of the extra-data
      block is taken for the column count, and two bytes too many are left for the rows. */
  lemma DecodedIsWellFormed(tableID: nat, typ: byte, r: RowsEvent, tm: TableMap, postHeader: byte)
    requires postHeader != 6 && DecodeBody(RowsBody(tableID, typ, r), typ, postHeader, tm) == Ok(r)
    ensures WellFormed(r, typ, tm) && HasExtraData(typ)
  {
    hide EncodeRows, RowsFit, ReadHead, ReadRows, RowsBody, RowSizes, ReadLenEncInt, OneByteCount;
    var data := RowsBody(tableID, typ, r);
    var head := ReadHead(data, typ, postHeader).value;
    var shape := head.shape;
    BodyStart(tableID, typ, r);
    HeadParts(data, typ, postHeader);
    RowsTile(data, head.next, tm, shape);
    ExactSizes(r.rows, tm, shape);
    OneByteRead(data, if HasExtraData(typ) then 10 else 8);
    assert OneByteCount(2) by { SmallCount(); }
    assert shape == ShapeOf(typ, r);
    CountFits(typ, r, data);
  }

  lemma SmallCount()
    ensures OneByteCount(2)
  {
  }

  lemma CountFits(typ: byte, r: RowsEvent, data: bytes)
    requires |data| >= 11 && HasExtraData(typ) && ReadLenEncInt(data, 10) == Some((ColumnCount(typ, r), 11))
    ensures OneByteCount(ColumnCount(typ, r))
  {
    OneByteRead(data, 10);
    hide ReadLenEncInt;
  }

  /** Decoding the body gives the encoded value back exactly for the well-formed values of a version 2 type. */
  lemma BodyRoundTrip(tableID: nat, typ: byte, r: RowsEvent, tm: TableMap, postHeader: byte)
    requires postHeader != 6
    ensures DecodeBody(RowsBody(tableID, typ, r), typ, postHeader, tm) == Ok(r)
            <==> HasExtraData(typ) && WellFormed(r, typ, tm)
  {
    hide DecodeBody, RowsBody, WellFormed;
    if DecodeBody(RowsBody(tableID, typ, r), typ, postHeader, tm) == Ok(r) {
      DecodedIsWellFormed(tableID, typ, r, tm, postHeader);
    } else if HasExtraData(typ) && WellFormed(r, typ, tm) {
      WellFormedComesBack(tableID, typ, r, tm, postHeader);
    }
  }

  /** The rows round trip: encode, put in a packet with or without checksum, strip, decode. */
  lemma RowsRoundTrip(flavor: Flavor, f: BinlogFormat, s: FakeBinlogStream, typ: byte, tableID: nat, r: RowsEvent,
                      tm: TableMap)
    requires IsRowsType(typ) && f.headerLength >= 19
    requires HeaderSize(f, typ).Ok? && HeaderSize(f, typ).value != 6
    requires f.checksumAlgorithm in {CHECKSUM_OFF, CHECKSUM_CRC32, CHECKSUM_UNDEF}
    ensures var p := EncodeRowsEvent(f, s, typ, tableID, r);
            && p.Ok?
            && var e := StripChecksum(Event(flavor, p.value), f);
            && e.Ok? && |e.value.buf| >= 5 && Type(e.value.buf) == typ
            && (DecodeRows(e.value.buf, f, tm) == Ok(r) <==> HasExtraData(typ) && WellFormed(r, typ, tm))
            && TableID(e.value.buf, f) == Ok(tableID % Pow256(6))
  {
    hide DecodeBody, Packetize, Written, WellFormed, RowsBody;
    var data := RowsBody(tableID, typ, r);
    PacketizeStrip(flavor, f, s, typ, 0, data);
    BodyRoundTrip(tableID, typ, r, tm, HeaderSize(f, typ).value);
    var e := StripChecksum(Event(flavor, EncodeRowsEvent(f, s, typ, tableID, r).value), f).value;
    BodyStart(tableID, typ, r);
    TableIDBack(e.buf, f, data, tableID);
  }
}
