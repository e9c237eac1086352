/** Bodies as a server writes them, beyond what the program's own encoders can: table ids of four or six bytes,
    counts of any size, extra data, version 1 rows events, and optional bytes behind a table map. */
module ServerFormats {
  import opened Results
  import opened Bytes
  import opened Bitmaps
  import opened Events
  import opened LenEnc
  import opened Cells
  import opened Queries
  import opened RowEvents
  import opened RowFacts
  import opened TableMaps

  /** The width of a table id goes with the size of the post header. */
  function IdWidth(postHeader: byte): nat {
    if postHeader == 6 then 4 else 6
  }

  lemma TableIdIsRead(buf: bytes, f: BinlogFormat, id: nat)
    requires |buf| >= 5 && HeaderSize(f, Type(buf)).Ok? && id < Pow256(IdWidth(HeaderSize(f, Type(buf)).value))
    requires var w := IdWidth(HeaderSize(f, Type(buf)).value);
             f.headerLength + w <= |buf| && buf[f.headerLength..f.headerLength + w] == PutLE(id, w)
    ensures TableID(buf, f) == Ok(id)
  {
    hide PutLE, LE, Pow256;
    LEPut(id, IdWidth(HeaderSize(f, Type(buf)).value));
  }

  // ---------- rows events ----------

  /** Where-images belong to updates and deletes, value-images to writes and updates, in either version. */
  function ServerShape(typ: byte, r: RowsEvent): Shape {
    Shape(typ in {24, 25, 31, 32}, r.identifyColumns, typ in {23, 24, 30, 31}, r.dataColumns)
  }

  function ServerCount(typ: byte, r: RowsEvent): nat {
    if ServerShape(typ, r).hasIdentify then r.identifyColumns.count else r.dataColumns.count
  }

  /** Version 2 has a block of extra data, whose length counts its own two bytes. */
  function ExtraBlock(typ: byte, extra: bytes): bytes {
    if typ in {30, 31, 32} then PutLE(|extra| + 2, 2) + extra else []
  }

  function ServerRowsStart(w: nat, id: nat, typ: byte, extra: bytes, r: RowsEvent): bytes {
    PutLE(id, w) + PutLE(r.flags, 2) + ExtraBlock(typ, extra)
  }

  function PresenceBits(shape: Shape): bytes {
    (if shape.hasIdentify then shape.identify.data else []) + if shape.hasData then shape.data.data else []
  }

  function ServerRowsBody(w: nat, id: nat, typ: byte, extra: bytes, r: RowsEvent): bytes {
    AppendLengthEncodedInteger(ServerRowsStart(w, id, typ, extra, r), ServerCount(typ, r))
    + (PresenceBits(ServerShape(typ, r)) + EncodeRows(r.rows, ServerShape(typ, r)))
  }

  predicate ServerRows(typ: byte, extra: bytes, r: RowsEvent, tm: TableMap) {
    var shape := ServerShape(typ, r);
    && 23 <= typ <= 32 && (shape.hasIdentify || shape.hasData) && shape.Valid()
    && r.flags < 0x1_0000 && |extra| < 0xfffe
    && (shape.hasIdentify && shape.hasData ==> r.identifyColumns.count == r.dataColumns.count)
    && ServerCount(typ, r) < 0x8000_0000 && RowsFit(r.rows, tm, shape) && (r.rows != [] ==> shape.AnyPresent())
  }

  lemma ShapeByType(typ: byte, r: RowsEvent)
    ensures var shape := ServerShape(typ, r);
            shape.hasIdentify == HasIdentify(typ) && shape.hasData == HasData(typ)
            && HasExtraData(typ) == (typ in {30, 31, 32})
  {
  }

  /** What stands in front of the count. */
  lemma StartIsRead(w: nat, id: nat, typ: byte, extra: bytes, r: RowsEvent, rest: bytes)
    requires r.flags < 0x1_0000 && |extra| < 0xfffe
    ensures var start := ServerRowsStart(w, id, typ, extra, r);
            var data := start + rest;
            && Take(data, w, 2) == Ok(PutLE(r.flags, 2)) && LE(PutLE(r.flags, 2)) == r.flags
            && |start| == w + 2 + |ExtraBlock(typ, extra)|
            && (typ in {30, 31, 32} ==>
                  Take(data, w + 2, 2) == Ok(PutLE(|extra| + 2, 2))
                  && LE(PutLE(|extra| + 2, 2)) == |ExtraBlock(typ, extra)|)
  {
    hide PutLE, LE;
    var data := ServerRowsStart(w, id, typ, extra, r) + rest;
    LEPut(r.flags, 2);
    LEPut(|extra| + 2, 2);
    Pow256Values();
    assert data[w..w + 2] == PutLE(r.flags, 2);
    if typ in {30, 31, 32} {
      assert data[w + 2..w + 4] == PutLE(|extra| + 2, 2);
    }
  }

  lemma ColumnsAreRead(pre: bytes, shape: Shape, count: nat, rest: bytes)
    requires shape.Valid()
    requires (shape.hasIdentify ==> shape.identify.count == count) && (shape.hasData ==> shape.data.count == count)
    ensures var data := pre + (PresenceBits(shape) + rest);
            var i := if shape.hasIdentify then |shape.identify.data| else 0;
            && ReadColumns(shape.hasIdentify, data, |pre|, count) == Ok((shape.identify, |pre| + i))
            && ReadColumns(shape.hasData, data, |pre| + i, count) == Ok((shape.data, |pre| + |PresenceBits(shape)|))
  {
    hide NewBitmap, Sized;
    var data := pre + (PresenceBits(shape) + rest);
    var a := if shape.hasIdentify then shape.identify.data else [];
    var b := if shape.hasData then shape.data.data else [];
    assert data == pre + a + (b + rest) && data == (pre + a) + b + rest;
    if shape.hasIdentify { BitmapIsRead(pre, shape.identify, b + rest); }
    if shape.hasData { BitmapIsRead(pre + a, shape.data, rest); }
  }

  lemma ServerHeadIsRead(id: nat, typ: byte, extra: bytes, r: RowsEvent, tm: TableMap, rows: bytes, postHeader: byte)
    requires ServerRows(typ, extra, r, tm)
    ensures var w := IdWidth(postHeader);
            var shape := ServerShape(typ, r);
            var counted := AppendLengthEncodedInteger(ServerRowsStart(w, id, typ, extra, r), ServerCount(typ, r));
            ReadHead(counted + (PresenceBits(shape) + rows), typ, postHeader)
            == Ok(Head(r.flags, shape, |counted| + |PresenceBits(shape)|))
  {
    hide PutLE, LE, AppendLengthEncodedInteger, ReadLenEncInt, RowsFit, ReadColumns, PresenceBits, ServerRowsStart,
         ExtraBlock;
    var w := IdWidth(postHeader);
    var shape, count := ServerShape(typ, r), ServerCount(typ, r);
    var start := ServerRowsStart(w, id, typ, extra, r);
    var counted := AppendLengthEncodedInteger(start, count);
    var rest := PresenceBits(shape) + rows;
    ShapeByType(typ, r);
    Pow256Values();
    LenEncRoundTrip(start, count, rest);
    CountIsAppended(start, count);
    var data := counted + rest;
    assert data == start + (counted[|start|..] + rest);
    StartIsRead(w, id, typ, extra, r, counted[|start|..] + rest);
    ColumnsAreRead(counted, shape, count, rows);
    EmptyIsZero(typ, extra);
    hide ServerCount, ServerShape;
  }

  lemma CountIsAppended(b: bytes, n: nat)
    ensures b <= AppendLengthEncodedInteger(b, n)
  {
  }

  lemma EmptyIsZero(typ: byte, extra: bytes)
    ensures LE([]) == 0 && (typ !in {30, 31, 32} ==> ExtraBlock(typ, extra) == [])
  {
  }

  /** Whatever rows event a server writes, in either version, with ids of either width, any column count and any
      extra data, is decoded to what it holds. */
  lemma ServerRowsComeBack(id: nat, typ: byte, extra: bytes, r: RowsEvent, tm: TableMap, postHeader: byte)
    requires ServerRows(typ, extra, r, tm)
    ensures DecodeBody(ServerRowsBody(IdWidth(postHeader), id, typ, extra, r), typ, postHeader, tm) == Ok(r)
  {
    hide AppendLengthEncodedInteger, ServerRowsStart, PresenceBits, EncodeRows, RowsFit, ReadHead, ReadRows, ServerCount;
    var shape := ServerShape(typ, r);
    var rows := EncodeRows(r.rows, shape);
    var start := ServerRowsStart(IdWidth(postHeader), id, typ, extra, r);
    var counted := AppendLengthEncodedInteger(start, ServerCount(typ, r));
    ServerHeadIsRead(id, typ, extra, r, tm, rows, postHeader);
    assert counted + (PresenceBits(shape) + rows) == counted + PresenceBits(shape) + rows;
    RowsBack(counted + PresenceBits(shape), r.rows, tm, shape);
  }

  // ---------- table maps ----------

  function ServerTableFront(w: nat, id: nat, tm: TableMap): bytes {
    PutLE(id, w) + PutLE(tm.flags, 2)
    + ([|tm.database| % 256] + tm.database + [0]) + ([|tm.name| % 256] + tm.name + [0])
  }

  function ServerTableBody(w: nat, id: nat, tm: TableMap, optional: bytes): bytes
    requires Known(tm.types) && |tm.types| <= |tm.metadata|
  {
    var metadata := MetadataFrom(tm.types, tm.metadata, 0);
    var typed := AppendLengthEncodedInteger(ServerTableFront(w, id, tm), |tm.types|) + tm.types;
    AppendLengthEncodedInteger(typed, |metadata|) + (metadata + tm.canBeNull.data + optional)
  }

  predicate ServerTable(tm: TableMap) {
    && tm.flags < 0x1_0000 && |tm.database| <= 255 && |tm.name| <= 255 && |tm.types| < 0x8000_0000
    && |tm.metadata| == |tm.types| && Known(tm.types) && MetadataFits(tm.types, tm.metadata)
    && |MetadataFrom(tm.types, tm.metadata, 0)| < 0x8000_0000
    && tm.canBeNull.count == |tm.types| && Sized(tm.canBeNull) && JSON !in tm.types
  }

  lemma NamesAreRead(w: nat, id: nat, tm: TableMap, rest: bytes)
    requires tm.flags < 0x1_0000 && |tm.database| <= 255 && |tm.name| <= 255
    ensures var front := ServerTableFront(w, id, tm);
            var data := front + rest;
            var database := ReadName(data, w + 2);
            && Take(data, w, 2) == Ok(PutLE(tm.flags, 2)) && LE(PutLE(tm.flags, 2)) == tm.flags
            && database.Ok? && database.value.0 == tm.database
            && ReadName(data, database.value.1) == Ok((tm.name, |front|))
  {
    hide PutLE, LE, ReadName;
    LEPut(tm.flags, 2);
    Pow256Values();
    var p := PutLE(id, w) + PutLE(tm.flags, 2);
    NamesBack(p, tm, rest);
    hide NameBytes;
    var data := ServerTableFront(w, id, tm) + rest;
    assert data[w..w + 2] == PutLE(tm.flags, 2);
    NamesSame(w, id, tm);
  }

  lemma NamesSame(w: nat, id: nat, tm: TableMap)
    ensures ServerTableFront(w, id, tm)
            == PutLE(id, w) + PutLE(tm.flags, 2) + NameBytes(tm.database) + NameBytes(tm.name)
  {
    hide PutLE;
  }

  lemma CountIsRead(pre: bytes, n: nat, post: bytes)
    requires n < 0x8000_0000
    ensures var counted := AppendLengthEncodedInteger(pre, n);
            ReadCount(counted + post, |pre|) == Ok((n, |counted|)) && pre <= counted
  {
    hide AppendLengthEncodedInteger, ReadLenEncInt, LE, PutLE;
    Pow256Values();
    LenEncRoundTrip(pre, n, post);
    CountIsAppended(pre, n);
  }

  /** Metadata, null bitmap, and whatever follows. */
  lemma ServerTailIsRead(pre: bytes, tm: TableMap, optional: bytes)
    requires ServerTable(tm)
    ensures var metadata := MetadataFrom(tm.types, tm.metadata, 0);
            var data := pre + (metadata + tm.canBeNull.data + optional);
            && ReadMetadata(data, |pre|, tm.types, 0) == Ok((tm.metadata, |pre| + |metadata|))
            && var canBeNull := NewBitmap(data, |pre| + |metadata|, |tm.types|);
            canBeNull.Ok? && canBeNull.value.0 == tm.canBeNull
  {
    hide ReadMetadata, MetadataFrom, Known, MetadataFits, NewBitmap, Sized;
    var metadata := MetadataFrom(tm.types, tm.metadata, 0);
    var data := pre + (metadata + tm.canBeNull.data + optional);
    assert data[|pre|..|pre| + |metadata|] == metadata;
    ReadMetadataBack(data, |pre|, tm.types, tm.metadata, 0);
    assert tm.types[0..] == tm.types && tm.metadata[0..] == tm.metadata;
    assert data == pre + metadata + tm.canBeNull.data + optional;
    BitmapIsRead(pre + metadata, tm.canBeNull, optional);
  }

  lemma BitmapIsRead(pre: bytes, b: Bitmap, post: bytes)
    requires Sized(b)
    ensures NewBitmap(pre + b.data + post, |pre|, b.count) == Ok((b, |pre| + |b.data|))
  {
    assert (pre + b.data + post)[|pre|..|pre| + |b.data|] == b.data;
  }

  /** Whatever table map a server writes, with ids of either width, any column count and any bytes behind it,
      is decoded to what it holds. */
  lemma ServerTableComesBack(id: nat, tm: TableMap, optional: bytes, postHeader: byte)
    requires ServerTable(tm)
    ensures DecodeTableMapBody(ServerTableBody(IdWidth(postHeader), id, tm, optional), postHeader) == Ok(tm)
  {
    hide PutLE, LE, AppendLengthEncodedInteger, ReadCount, ReadName, ReadMetadata, MetadataFrom, Known, MetadataFits,
         NewBitmap, ServerTableFront;
    var w := IdWidth(postHeader);
    var metadata := MetadataFrom(tm.types, tm.metadata, 0);
    var front := ServerTableFront(w, id, tm);
    var counted := AppendLengthEncodedInteger(front, |tm.types|);
    var typed := counted + tm.types;
    var measured := AppendLengthEncodedInteger(typed, |metadata|);
    var tail := metadata + tm.canBeNull.data + optional;
    var data := measured + tail;
    CountIsRead(typed, |metadata|, tail);
    var rest := measured[|typed|..] + tail;
    assert data == counted + (tm.types + rest);
    CountIsRead(front, |tm.types|, tm.types + rest);
    assert data[|counted|..|counted| + |tm.types|] == tm.types;
    assert data == front + (counted[|front|..] + (tm.types + rest));
    NamesAreRead(w, id, tm, counted[|front|..] + (tm.types + rest));
    ServerTailIsRead(measured, tm, optional);
  }

  // ---------- status variables ----------

  /** A block as servers write it, codes in literal numbers: flags2, sql mode, catalog, auto increment, charset. */
  function ServerVars(flags2: bytes, mode: bytes, catalog: bytes, terminated: bool, increment: bytes, ids: bytes)
    : bytes
  {
    [0] + flags2 + ([1] + mode)
    + (if terminated then [2, |catalog| % 256] + catalog + [0] else [6, |catalog| % 256] + catalog)
    + ([3] + increment) + ([4] + ids)
  }

  /** Client, connection and server charset are found in it, whatever unknown variable follows. */
  lemma ServerCharsetIsFound(flags2: bytes, mode: bytes, catalog: bytes, terminated: bool, increment: bytes,
                             client: nat, conn: nat, server: nat, rest: bytes)
    requires |flags2| == 4 && |mode| == 8 && |catalog| <= 255 && |increment| == 4
    requires client < 0x1_0000 && conn < 0x1_0000 && server < 0x1_0000
    requires rest == [] || rest[0] == 5 || rest[0] > 6
    ensures var ids := PutLE(client, 2) + PutLE(conn, 2) + PutLE(server, 2);
            WalkVars(ServerVars(flags2, mode, catalog, terminated, increment, ids) + rest, 0, None)
            == Ok(Some(Charset(client, conn, server)))
  {
    hide WalkVars, PutLE, EncodeVars, EncodeVar, LastCharset;
    var c := Charset(client, conn, server);
    var named := if terminated then Catalog(catalog) else CatalogNZ(catalog);
    var last := OneMore(CharsetVar(c), []);
    var v4 := OneMore(AutoIncrement(increment), last);
    var v3 := OneMore(named, v4);
    var v2 := OneMore(SqlMode(mode), v3);
    var vs := OneMore(Flags2(flags2), v2);
    CharsetFound(vs, rest);
    NoVars(None);
    var ids := PutLE(client, 2) + PutLE(conn, 2) + PutLE(server, 2);
    CodesAreLiteral(flags2, mode, catalog, terminated, increment, c);
    assert vs[4] == CharsetVar(c);
    LastIsCharset(vs, c);
    Joined([0] + flags2, [1] + mode, EncodeVar(named), [3] + increment, [4] + ids);
  }

  lemma LastIsCharset(vs: seq<StatusVar>, c: Charset)
    requires vs != [] && vs[|vs| - 1] == CharsetVar(c)
    ensures LastCharset(vs, None) == Some(c)
  {
  }

  lemma CodesAreLiteral(flags2: bytes, mode: bytes, catalog: bytes, terminated: bool, increment: bytes, c: Charset)
    requires |flags2| == 4 && |mode| == 8 && |catalog| <= 255 && |increment| == 4 && FitsCharset(c)
    ensures EncodeVar(Flags2(flags2)) == [0] + flags2 && EncodeVar(SqlMode(mode)) == [1] + mode
    ensures EncodeVar(Catalog(catalog)) == [2, |catalog|] + catalog + [0]
    ensures EncodeVar(CatalogNZ(catalog)) == [6, |catalog|] + catalog
    ensures EncodeVar(AutoIncrement(increment)) == [3] + increment
    ensures EncodeVar(CharsetVar(c)) == [4] + (PutLE(c.client, 2) + PutLE(c.conn, 2) + PutLE(c.server, 2))
  {
    hide PutLE;
  }

  lemma OneMore(v: StatusVar, more: seq<StatusVar>) returns (vs: seq<StatusVar>)
    requires FitsVar(v) && FitVars(more)
    ensures vs == [v] + more && FitVars(vs) && EncodeVars(vs) == EncodeVar(v) + EncodeVars(more)
  {
    hide FitsVar, EncodeVar;
    vs := [v] + more;
    assert forall i :: 0 < i < |vs| ==> vs[i] == more[i - 1];
    assert vs[1..] == more;
  }

  lemma Joined(a: bytes, b: bytes, c: bytes, d: bytes, e: bytes)
    ensures a + (b + (c + (d + (e + [])))) == a + b + c + d + e
  {
  }
}
