/** Rows events: cutting an undelimited body into rows. */
module RowEvents {
  import opened Results
  import opened Bytes
  import opened Bitmaps
  import opened Events
  import opened LenEnc
  import opened Cells

  datatype TableMap = TableMap(
    flags: nat,
    database: bytes,
    name: bytes,
    types: bytes,
    canBeNull: Bitmap,
    metadata: seq<nat>)

  datatype Row = Row(nullIdentifyColumns: Bitmap, nullColumns: Bitmap, identify: bytes, data: bytes)

  datatype RowsEvent = RowsEvent(flags: nat, identifyColumns: Bitmap, dataColumns: Bitmap, rows: seq<Row>)

  predicate HasIdentify(typ: byte) {
    typ == UPDATE_ROWS_V1 || typ == UPDATE_ROWS_V2 || typ == DELETE_ROWS_V1 || typ == DELETE_ROWS_V2
  }

  predicate HasData(typ: byte) {
    typ == WRITE_ROWS_V1 || typ == WRITE_ROWS_V2 || typ == UPDATE_ROWS_V1 || typ == UPDATE_ROWS_V2
  }

  /** Version 2 events have an extra-data block, whose length counts its own two bytes. */
  predicate HasExtraData(typ: byte) {
    typ == WRITE_ROWS_V2 || typ == UPDATE_ROWS_V2 || typ == DELETE_ROWS_V2
  }

  predicate IsRowsType(typ: byte) {
    HasIdentify(typ) || HasData(typ)
  }

  // ---------- one row ----------

  /** Where the cells end that start at pos with column c; vi counts the present columns before c. */
  function ScanCells(data: bytes, pos: nat, tm: TableMap, present: Bitmap, nulls: Bitmap, c: nat, vi: nat)
    : (r: Result<nat>)
    ensures r.Ok? ==> r.value >= pos
    decreases present.count - c
  {
    if c >= present.count then Ok(pos)
    else
      var here :- Bit(present, c);
      if !here then ScanCells(data, pos, tm, present, nulls, c + 1, vi)
      else
        var isNull :- Bit(nulls, vi);
        if isNull then ScanCells(data, pos, tm, present, nulls, c + 1, vi + 1)
        else
          var typ :- At(tm.types, c);
          var metadata :- At(tm.metadata, c);
          var l :- CellLength(data, pos, typ, metadata);
          ScanCells(data, pos + l, tm, present, nulls, c + 1, vi + 1)
  }

  /** One side of a row: its null bitmap, its cells, and the position after them. */
  datatype Image = Image(nulls: Bitmap, cells: bytes, next: nat)

  function ReadImage(data: bytes, pos: nat, tm: TableMap, present: Bitmap): Result<Image>
    requires Sized(present)
  {
    var b :- NewBitmap(data, pos, BitCount(present));
    var end :- ScanCells(data, b.1, tm, present, b.0, 0, 0);
    if end <= |data| then Ok(Image(b.0, data[b.1..end], end)) else Err(OutOfRange)
  }

  /** Which images the rows of an event have, and the columns present in them. */
  datatype Shape = Shape(hasIdentify: bool, identify: Bitmap, hasData: bool, data: Bitmap) {
    predicate Valid() {
      Sized(identify) && Sized(data)
      && (!hasIdentify ==> identify == NO_BITMAP) && (!hasData ==> data == NO_BITMAP)
    }

    predicate AnyPresent()
      requires Valid()
    {
      BitCount(identify) > 0 || BitCount(data) > 0
    }
  }

  function ReadSide(has: bool, data: bytes, pos: nat, tm: TableMap, present: Bitmap): Result<Image>
    requires Sized(present)
  {
    if has then ReadImage(data, pos, tm, present) else Ok(Image(NO_BITMAP, [], pos))
  }

  function ReadRow(data: bytes, pos: nat, tm: TableMap, shape: Shape): Result<(Row, nat)>
    requires shape.Valid()
  {
    var before :- ReadSide(shape.hasIdentify, data, pos, tm, shape.identify);
    var after :- ReadSide(shape.hasData, data, before.next, tm, shape.data);
    Ok((Row(before.nulls, after.nulls, before.cells, after.cells), after.next))
  }

  /** One row at a time to the end of the data. A row of no bytes would be read for ever. */
  function ReadRows(data: bytes, pos: nat, tm: TableMap, shape: Shape): Result<seq<Row>>
    requires shape.Valid()
    decreases |data| - pos
  {
    if pos >= |data| then Ok([])
    else
      var row :- ReadRow(data, pos, tm, shape);
      if row.1 <= pos then Err(Diverges)
      else
        var rest :- ReadRows(data, row.1, tm, shape);
        Ok([row.0] + rest)
  }

  // ---------- the event ----------

  datatype Head = Head(flags: nat, shape: Shape, next: nat)

  function ReadColumns(has: bool, data: bytes, pos: nat, count: nat): Result<(Bitmap, nat)> {
    if has then NewBitmap(data, pos, count) else Ok((NO_BITMAP, pos))
  }

  /** Everything before the first row. */
  function ReadHead(data: bytes, typ: byte, postHeader: byte): (r: Result<Head>)
    ensures r.Ok? ==> r.value.shape.Valid() && r.value.next <= |data|
  {
    var pos := if postHeader == 6 then 4 else 6;
    var flags :- Take(data, pos, 2);
    var extra :- if HasExtraData(typ) then Take(data, pos + 2, 2) else Ok([]);
    match ReadLenEncInt(data, pos + 2 + LE(extra))
    case None => Err(TooSmall)
    case Some((count, next)) =>
      if count > 0x7fff_ffff then Err(TooLarge)
      else
        var identify :- ReadColumns(HasIdentify(typ), data, next, count);
        var present :- ReadColumns(HasData(typ), data, identify.1, count);
        Ok(Head(LE(flags), Shape(HasIdentify(typ), identify.0, HasData(typ), present.0), present.1))
  }

  function DecodeBody(data: bytes, typ: byte, postHeader: byte, tm: TableMap): Result<RowsEvent> {
    var head :- ReadHead(data, typ, postHeader);
    var rows :- ReadRows(data, head.next, tm, head.shape);
    Ok(RowsEvent(head.flags, head.shape.identify, head.shape.data, rows))
  }

  function DecodeRows(buf: bytes, f: BinlogFormat, tm: TableMap): Result<RowsEvent>
    requires |buf| >= 5
  {
    var data :- Body(buf, f);
    var postHeader :- HeaderSize(f, Type(buf));
    DecodeBody(data, Type(buf), postHeader, tm)
  }

  // ---------- the decoder's loops ----------

  method ScanColumns(data: bytes, startPos: nat, tm: TableMap, present: Bitmap, nulls: Bitmap)
    returns (r: Result<nat>)
    ensures r == ScanCells(data, startPos, tm, present, nulls, 0, 0)
  {
    hide CellLength, Bit;
    var pos, valueIndex := startPos, 0;
    for c := 0 to present.count
      invariant ScanCells(data, pos, tm, present, nulls, c, valueIndex)
             == ScanCells(data, startPos, tm, present, nulls, 0, 0)
    {
      var here := Bit(present, c);
      if here.Err? {
        return Err(here.error);
      }
      if !here.value {
        continue;
      }
      var isNull := Bit(nulls, valueIndex);
      if isNull.Err? {
        return Err(isNull.error);
      }
      if isNull.value {
        valueIndex := valueIndex + 1;
        continue;
      }
      if c >= |tm.types| || c >= |tm.metadata| {
        return Err(OutOfRange);
      }
      var l := CellLength(data, pos, tm.types[c], tm.metadata[c]);
      if l.Err? {
        return Err(l.error);
      }
      pos := pos + l.value;
      valueIndex := valueIndex + 1;
    }
    r := Ok(pos);
  }

  method ParseImage(has: bool, data: bytes, pos: nat, tm: TableMap, present: Bitmap) returns (r: Result<Image>)
    requires Sized(present)
    ensures r == ReadSide(has, data, pos, tm, present)
  {
    hide ScanCells;
    if !has {
      return Ok(Image(NO_BITMAP, [], pos));
    }
    var num := CountBits(present);
    var nulls := NewBitmap(data, pos, num);
    if nulls.Err? {
      return Err(nulls.error);
    }
    var end := ScanColumns(data, nulls.value.1, tm, present, nulls.value.0);
    if end.Err? {
      return Err(end.error);
    }
    if end.value > |data| {
      return Err(OutOfRange);
    }
    r := Ok(Image(nulls.value.0, data[nulls.value.1..end.value], end.value));
  }

  function Prepend(rows: seq<Row>, r: Result<seq<Row>>): (all: Result<seq<Row>>)
    ensures rows == [] ==> all == r
    ensures r == Ok([]) ==> all == Ok(rows)
  {
    if r.Ok? then
      assert rows == [] ==> rows + r.value == r.value;
      assert r.value == [] ==> rows + r.value == rows;
      Ok(rows + r.value)
    else r
  }

  method ParseRows(buf: bytes, f: BinlogFormat, tm: TableMap) returns (r: Result<RowsEvent>)
    requires |buf| >= 5
    ensures r == DecodeRows(buf, f, tm)
  {
    hide ReadHead, ReadSide, BitCount;
    var body := Body(buf, f);
    if body.Err? {
      return Err(body.error);
    }
    var postHeader := HeaderSize(f, Type(buf));
    if postHeader.Err? {
      return Err(postHeader.error);
    }
    var data := body.value;
    var readHead := ReadHead(data, Type(buf), postHeader.value);
    if readHead.Err? {
      return Err(readHead.error);
    }
    var head := readHead.value;
    var shape := head.shape;
    var rows, pos := [], head.next;
    while pos < |data|
      invariant Prepend(rows, ReadRows(data, pos, tm, shape)) == ReadRows(data, head.next, tm, shape)
      decreases |data| - pos
    {
      var before := ParseImage(shape.hasIdentify, data, pos, tm, shape.identify);
      if before.Err? {
        return Err(before.error);
      }
      var after := ParseImage(shape.hasData, data, before.value.next, tm, shape.data);
      if after.Err? {
        return Err(after.error);
      }
      var row := Row(before.value.nulls, after.value.nulls, before.value.cells, after.value.cells);
      if after.value.next <= pos {
        return Err(Diverges);
      }
      assert forall rest :: rows + ([row] + rest) == (rows + [row]) + rest;
      rows := rows + [row];
      pos := after.value.next;
    }
    r := Ok(RowsEvent(head.flags, shape.identify, shape.data, rows));
  }
}
