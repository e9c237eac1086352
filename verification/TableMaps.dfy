/** Table map events: per-column metadata, the decoder, the encoder, and their round trip. */
module TableMaps {
  import opened Results
  import opened Bytes
  import opened Bitmaps
  import opened Events
  import opened LenEnc
  import opened Cells
  import opened RowEvents

  // ---------- metadata of one column ----------

  datatype Layout = NoBytes | OneByte | BigEndian | LittleEndian

  /** How the encoder lays out a type's metadata; None is an unhandled type. */
  function LayoutOf(typ: byte): Option<Layout> {
    if typ in {DECIMAL, TINY, SHORT, LONG, NULL, TIMESTAMP, LONGLONG, INT24, DATE, TIME, DATETIME, YEAR, NEWDATE}
    then Some(NoBytes)
    else if typ in {FLOAT, DOUBLE, TIMESTAMP2, DATETIME2, TIME2, JSON, TINY_BLOB, MEDIUM_BLOB, LONG_BLOB, BLOB,
                    GEOMETRY}
    then Some(OneByte)
    else if typ in {NEWDECIMAL, ENUM, SET, STRING} then Some(BigEndian)
    else if typ in {VARCHAR, BIT, VAR_STRING} then Some(LittleEndian)
    else None
  }

  function Width(layout: Layout): nat {
    match layout
    case NoBytes => 0
    case OneByte => 1
    case BigEndian => 2
    case LittleEndian => 2
  }

  function MetadataLength(typ: byte): Result<nat> {
    if LayoutOf(typ).Some? then Ok(Width(LayoutOf(typ).value)) else Err(NotImplemented)
  }

  function MetadataTotalLength(types: bytes): Result<nat> {
    if types == [] then Ok(0)
    else
      var sum :- MetadataTotalLength(types[..|types| - 1]);
      var last :- MetadataLength(types[|types| - 1]);
      Ok(sum + last)
  }

  /** A column's metadata and the position after it. JSON, which the encoder knows, is not handled. */
  function MetadataRead(data: bytes, pos: nat, typ: byte): Result<(nat, nat)> {
    if LayoutOf(typ).None? || typ == JSON then Err(UnsupportedType)
    else
      match LayoutOf(typ).value
      case NoBytes => Ok((0, pos))
      case OneByte =>
        var b :- Take(data, pos, 1);
        Ok((b[0], pos + 1))
      case BigEndian =>
        var b :- Take(data, pos, 2);
        Ok(((b[0] as int) * 0x100 + b[1], pos + 2))
      case LittleEndian =>
        var b :- Take(data, pos, 2);
        Ok((b[0] + (b[1] as int) * 0x100, pos + 2))
  }

  function MetadataBytes(typ: byte, value: nat): (b: bytes)
    requires LayoutOf(typ).Some?
    ensures |b| == Width(LayoutOf(typ).value)
  {
    match LayoutOf(typ).value
    case NoBytes => []
    case OneByte => [value % 256]
    case BigEndian => [value / 256 % 256, value % 256]
    case LittleEndian => [value % 256, value / 256 % 256]
  }

  // ---------- the decoder ----------

  function ReadMetadata(data: bytes, pos: nat, types: bytes, c: nat): Result<(seq<nat>, nat)>
    requires c <= |types|
    decreases |types| - c
  {
    if c == |types| then Ok(([], pos))
    else
      var one :- MetadataRead(data, pos, types[c]);
      var rest :- ReadMetadata(data, one.1, types, c + 1);
      Ok(([one.0] + rest.0, rest.1))
  }

  /** A length-encoded count that must fit an int32. */
  function ReadCount(data: bytes, pos: nat): Result<(nat, nat)> {
    match ReadLenEncInt(data, pos)
    case None => Err(TooSmall)
    case Some((count, next)) => if count > 0x7fff_ffff then Err(TooLarge) else Ok((count, next))
  }

  /** A name behind a length byte and in front of a zero byte. */
  function ReadName(data: bytes, pos: nat): Result<(bytes, nat)> {
    var l :- At(data, pos);
    var name :- Take(data, pos + 1, l);
    Ok((name, pos + 1 + l + 1))
  }

  function DecodeTableMapBody(data: bytes, postHeader: byte): Result<TableMap> {
    var start := if postHeader == 6 then 4 else 6;
    var flags :- Take(data, start, 2);
    var database :- ReadName(data, start + 2);
    var name :- ReadName(data, database.1);
    var columns :- ReadCount(data, name.1);
    var types :- Take(data, columns.1, columns.0);
    var length :- ReadCount(data, columns.1 + columns.0);
    var metadata :- ReadMetadata(data, length.1, types, 0);
    if metadata.1 != length.1 + length.0 then Err(BadMetadataEnd)
    else
      var canBeNull :- NewBitmap(data, metadata.1, columns.0);
      Ok(TableMap(LE(flags), database.0, name.0, types, canBeNull.0, metadata.0))
  }

  function DecodeTableMap(buf: bytes, f: BinlogFormat): Result<TableMap> {
    var data :- Body(buf, f);
    var postHeader :- HeaderSize(f, TABLE_MAP_EVENT);
    DecodeTableMapBody(data, postHeader)
  }

  function JoinMetadata(done: seq<nat>, r: Result<(seq<nat>, nat)>): (all: Result<(seq<nat>, nat)>)
    ensures done == [] ==> all == r
  {
    if r.Ok? then
      assert done == [] ==> done + r.value.0 == r.value.0;
      Ok((done + r.value.0, r.value.1))
    else r
  }

  lemma JoinMetadataStep(done: seq<nat>, m: nat, r: Result<(seq<nat>, nat)>)
    ensures JoinMetadata(done + [m], r) == JoinMetadata(done, if r.Ok? then Ok(([m] + r.value.0, r.value.1)) else r)
  {
    if r.Ok? {
      assert done + [m] + r.value.0 == done + ([m] + r.value.0);
    }
  }

  method ParseMetadata(data: bytes, startPos: nat, types: bytes) returns (r: Result<(seq<nat>, nat)>)
    ensures r == ReadMetadata(data, startPos, types, 0)
  {
    hide MetadataRead;
    var metadata, pos := [], startPos;
    for c := 0 to |types|
      invariant JoinMetadata(metadata, ReadMetadata(data, pos, types, c)) == ReadMetadata(data, startPos, types, 0)
    {
      var one := MetadataRead(data, pos, types[c]);
      if one.Err? {
        return Err(one.error);
      }
      JoinMetadataStep(metadata, one.value.0, ReadMetadata(data, one.value.1, types, c + 1));
      metadata := metadata + [one.value.0];
      pos := one.value.1;
    }
    assert metadata + [] == metadata;
    r := Ok((metadata, pos));
  }

  method ParseTableMap(buf: bytes, f: BinlogFormat) returns (r: Result<TableMap>)
    ensures r == DecodeTableMap(buf, f)
  {
    hide ReadName, ReadCount;
    var body := Body(buf, f);
    if body.Err? { return Err(body.error); }
    var postHeader := HeaderSize(f, TABLE_MAP_EVENT);
    if postHeader.Err? { return Err(postHeader.error); }
    var data := body.value;
    var pos := if postHeader.value == 6 then 4 else 6;
    var flags := Take(data, pos, 2);
    if flags.Err? { return Err(flags.error); }
    pos := pos + 2;
    var database := ReadName(data, pos);
    if database.Err? { return Err(database.error); }
    var name := ReadName(data, database.value.1);
    if name.Err? { return Err(name.error); }
    var columns := ReadCount(data, name.value.1);
    if columns.Err? { return Err(columns.error); }
    var columnCount := columns.value.0;
    pos := columns.value.1;
    var types := Take(data, pos, columnCount);
    if types.Err? { return Err(types.error); }
    pos := pos + columnCount;
    var length := ReadCount(data, pos);
    if length.Err? { return Err(length.error); }
    var expectedEnd := length.value.1 + length.value.0;
    var metadata := ParseMetadata(data, length.value.1, types.value);
    if metadata.Err? { return Err(metadata.error); }
    if metadata.value.1 != expectedEnd { return Err(BadMetadataEnd); }
    var canBeNull := NewBitmap(data, metadata.value.1, columnCount);
    if canBeNull.Err? { return Err(canBeNull.error); }
    r := Ok(TableMap(LE(flags.value), database.value.0, name.value.0, types.value, canBeNull.value.0,
                     metadata.value.0));
  }

  // ---------- the encoder ----------

  predicate Known(types: bytes) {
    forall c :: 0 <= c < |types| ==> LayoutOf(types[c]).Some?
  }

  /** The metadata of the columns from c on. */
  function MetadataFrom(types: bytes, metadata: seq<nat>, c: nat): bytes
    requires Known(types) && |types| <= |metadata| && c <= |types|
    decreases |types| - c
  {
    if c == |types| then [] else MetadataBytes(types[c], metadata[c]) + MetadataFrom(types, metadata, c + 1)
  }

  function NameBytes(name: bytes): bytes {
    [|name| % 256] + name + [0]
  }

  /** Everything before the metadata. */
  function TableMapFront(tableID: nat, tm: TableMap): bytes {
    PutLE(tableID, 6) + PutLE(tm.flags, 2) + NameBytes(tm.database) + NameBytes(tm.name) + [|tm.types| % 256] + tm.types
  }

  function TableMapBody(tableID: nat, tm: TableMap): bytes
    requires Known(tm.types) && |tm.types| <= |tm.metadata|
  {
    var metadata := MetadataFrom(tm.types, tm.metadata, 0);
    TableMapFront(tableID, tm) + [|metadata| % 256] + metadata + tm.canBeNull.data
  }

  function EncodeTableMap(f: BinlogFormat, s: FakeBinlogStream, tableID: nat, tm: TableMap): Result<bytes> {
    var size :- HeaderSize(f, TABLE_MAP_EVENT);
    if size != 8 || !Known(tm.types) then Err(NotImplemented)
    else if |tm.types| > |tm.metadata| then Err(OutOfRange)
    else Packetize(f, s, TABLE_MAP_EVENT, 0, TableMapBody(tableID, tm))
  }

  lemma {:induction false} TotalLengthKnown(types: bytes)
    ensures MetadataTotalLength(types).Ok? <==> Known(types)
  {
    if types != [] {
      var n := |types| - 1;
      TotalLengthKnown(types[..n]);
      assert Known(types) <==> Known(types[..n]) && LayoutOf(types[n]).Some? by {
        hide LayoutOf;
        assert forall c :: 0 <= c < n ==> types[..n][c] == types[c];
      }
    }
  }

  /** The bytes written for the columns from c on are what is left of the total length. */
  lemma {:induction false} MetadataBytesTotal(types: bytes, metadata: seq<nat>, c: nat)
    requires Known(types) && |types| <= |metadata| && c <= |types|
    ensures var total, before := MetadataTotalLength(types), MetadataTotalLength(types[..c]);
            total.Ok? && before.Ok? && |MetadataFrom(types, metadata, c)| == total.value - before.value
    decreases |types| - c
  {
    hide LayoutOf, MetadataBytes;
    TotalLengthKnown(types);
    TotalLengthKnown(types[..c]);
    if c == |types| {
      assert types[..c] == types;
    } else {
      MetadataBytesTotal(types, metadata, c + 1);
      assert types[..c + 1][..c] == types[..c];
    }
  }

  /** The encoder writes exactly metadataTotalLength bytes of metadata. */
  lemma MetadataWrittenTotal(types: bytes, metadata: seq<nat>)
    requires Known(types) && |types| <= |metadata|
    ensures MetadataTotalLength(types) == Ok(|MetadataFrom(types, metadata, 0)|)
  {
    MetadataBytesTotal(types, metadata, 0);
    assert types[..0] == [];
  }

  method MetadataTotal(types: bytes) returns (sum: Result<nat>)
    ensures sum == MetadataTotalLength(types)
  {
    hide LayoutOf;
    var total := 0;
    for c := 0 to |types|
      invariant MetadataTotalLength(types[..c]) == Ok(total)
    {
      assert types[..c + 1][..c] == types[..c];
      var l := MetadataLength(types[c]);
      if l.Err? {
        TotalLengthKnown(types);
        assert MetadataTotalLength(types) == Err(NotImplemented) by { FirstUnknown(types); }
        return Err(NotImplemented);
      }
      total := total + l.value;
    }
    assert types[..|types|] == types;
    sum := Ok(total);
  }

  lemma {:induction false} FirstUnknown(types: bytes)
    ensures Known(types) || MetadataTotalLength(types) == Err(NotImplemented)
  {
    if types != [] {
      hide LayoutOf;
      FirstUnknown(types[..|types| - 1]);
      TotalLengthKnown(types[..|types| - 1]);
    }
  }

  method MetadataWrite(data: array<byte>, pos: nat, typ: byte, value: nat, ghost done: bytes) returns (next: nat)
    requires LayoutOf(typ).Some? && Filled(data, pos, done) && pos + Width(LayoutOf(typ).value) <= data.Length
    modifies data
    ensures next == pos + Width(LayoutOf(typ).value) && Filled(data, next, done + MetadataBytes(typ, value))
  {
    hide Filled;
    match LayoutOf(typ).value {
      case NoBytes =>
        next := pos;
        assert done + [] == done;
      case OneByte => next := Append(data, pos, [value % 256], done);
      case BigEndian => next := Append(data, pos, [value / 256 % 256, value % 256], done);
      case LittleEndian => next := Append(data, pos, [value % 256, value / 256 % 256], done);
    }
  }

  method WriteMetadata(data: array<byte>, startPos: nat, types: bytes, metadata: seq<nat>, ghost done: bytes)
    returns (pos: nat)
    requires Known(types) && |types| <= |metadata|
    requires Filled(data, startPos, done) && startPos + |MetadataFrom(types, metadata, 0)| <= data.Length
    modifies data
    ensures pos == startPos + |MetadataFrom(types, metadata, 0)|
    ensures Filled(data, pos, done + MetadataFrom(types, metadata, 0))
  {
    hide Filled, LayoutOf, MetadataBytes;
    pos := startPos;
    ghost var written := done;
    ghost var all := done + MetadataFrom(types, metadata, 0);
    for c := 0 to |types|
      invariant Filled(data, pos, written)
      invariant written + MetadataFrom(types, metadata, c) == all
      invariant pos + |MetadataFrom(types, metadata, c)| == startPos + |MetadataFrom(types, metadata, 0)|
    {
      ghost var one := MetadataBytes(types[c], metadata[c]);
      ghost var more := MetadataFrom(types, metadata, c + 1);
      assert written + (one + more) == written + one + more;
      pos := MetadataWrite(data, pos, types[c], metadata[c], written);
      written := written + one;
    }
    assert written + [] == written;
  }

  method NewTableMapEvent(f: BinlogFormat, s: FakeBinlogStream, tableID: nat, tm: TableMap) returns (ev: Result<bytes>)
    ensures ev == EncodeTableMap(f, s, tableID, tm)
  {
    hide Filled, LayoutOf, MetadataFrom, Packetize;
    var size := HeaderSize(f, TABLE_MAP_EVENT);
    if size.Err? { return Err(size.error); }
    if size.value != 8 { return Err(NotImplemented); }
    var metadataLength := MetadataTotal(tm.types);
    TotalLengthKnown(tm.types);
    FirstUnknown(tm.types);
    if metadataLength.Err? { return Err(metadataLength.error); }
    if |tm.types| > |tm.metadata| { return Err(OutOfRange); }
    MetadataWrittenTotal(tm.types, tm.metadata);
    var length := 6 + 2 + 1 + |tm.database| + 1 + 1 + |tm.name| + 1 + 1 + |tm.types| + 1 + metadataLength.value
                  + |tm.canBeNull.data|;
    var data := new byte[length](i => 0);
    FilledEmpty(data);
    ghost var done := [];
    var pos := Append(data, 0, TableMapFront(tableID, tm), done);
    done := TableMapFront(tableID, tm);
    assert [] + done == done;
    pos := Append(data, pos, [metadataLength.value % 256], done);
    done := done + [metadataLength.value % 256];
    pos := WriteMetadata(data, pos, tm.types, tm.metadata, done);
    done := done + MetadataFrom(tm.types, tm.metadata, 0);
    pos := Append(data, pos, tm.canBeNull.data, done);
    done := done + tm.canBeNull.data;
    FilledContents(data, pos, done);
    assert done + Zeros(0) == done;
    ev := PacketizeBuffer(f, s, TABLE_MAP_EVENT, 0, data[..]);
  }

  // ---------- the round trip ----------

  predicate MetadataFits(types: bytes, metadata: seq<nat>)
    requires Known(types)
  {
    |types| == |metadata| && forall c :: 0 <= c < |types| ==> metadata[c] < Pow256(Width(LayoutOf(types[c]).value))
  }

  lemma MetadataReadBack(data: bytes, pos: nat, typ: byte, value: nat)
    requires LayoutOf(typ).Some? && value < Pow256(Width(LayoutOf(typ).value))
    requires pos + |MetadataBytes(typ, value)| <= |data|
    requires data[pos..pos + |MetadataBytes(typ, value)|] == MetadataBytes(typ, value)
    ensures MetadataRead(data, pos, typ)
            == if typ == JSON then Err(UnsupportedType) else Ok((value, pos + |MetadataBytes(typ, value)|))
  {
    hide LayoutOf;
    Pow256Values();
    var b := data[pos..pos + |MetadataBytes(typ, value)|];
  }

  /** The metadata is read back up to the first JSON column, which stops the decoder. */
  lemma {:induction false} ReadMetadataBack(data: bytes, pos: nat, types: bytes, metadata: seq<nat>, c: nat)
    requires Known(types) && MetadataFits(types, metadata) && c <= |types|
    requires var m := MetadataFrom(types, metadata, c); pos + |m| <= |data| && data[pos..pos + |m|] == m
    ensures ReadMetadata(data, pos, types, c)
            == if JSON in types[c..] then Err(UnsupportedType)
               else Ok((metadata[c..], pos + |MetadataFrom(types, metadata, c)|))
    decreases |types| - c
  {
    hide LayoutOf, MetadataBytes, MetadataRead;
    if c < |types| {
      var one, rest := MetadataBytes(types[c], metadata[c]), MetadataFrom(types, metadata, c + 1);
      var all := data[pos..pos + |one| + |rest|];
      assert all == one + rest;
      assert data[pos..pos + |one|] == all[..|one|] == one;
      assert data[pos + |one|..pos + |one| + |rest|] == all[|one|..] == rest;
      MetadataReadBack(data, pos, types[c], metadata[c]);
      ReadMetadataBack(data, pos + |one|, types, metadata, c + 1);
      assert types[c..] == [types[c]] + types[c + 1..];
      assert metadata[c..] == [metadata[c]] + metadata[c + 1..];
    } else {
      assert types[c..] == [] && metadata[c..] == [];
    }
  }

  lemma ReadNameBack(pre: bytes, name: bytes, post: bytes)
    requires |name| <= 255
    ensures ReadName(pre + NameBytes(name) + post, |pre|) == Ok((name, |pre| + |NameBytes(name)|))
  {
    var data := pre + NameBytes(name) + post;
    assert data[|pre|] == |name|;
    assert data[|pre| + 1..|pre| + 1 + |name|] == name;
  }

  lemma ReadCountBack(pre: bytes, n: nat, post: bytes)
    requires OneByteCount(n)
    ensures ReadCount(pre + [n % 256] + post, |pre|) == Ok((n, |pre| + 1))
  {
    assert (pre + [n % 256] + post)[|pre|] == n;
  }

  /** A table map that fits the field widths the encoder uses, with counts that a single byte can stand for. */
  predicate Encodable(tm: TableMap) {
    && tm.flags < 0x1_0000 && |tm.database| <= 255 && |tm.name| <= 255
    && OneByteCount(|tm.types|) && |tm.metadata| == |tm.types| && Known(tm.types) && MetadataFits(tm.types, tm.metadata)
    && OneByteCount(|MetadataFrom(tm.types, tm.metadata, 0)|)
    && tm.canBeNull.count == |tm.types| && Sized(tm.canBeNull)
  }

  /** The parts in front of the metadata, and where they end. */
  lemma FrontBack(tableID: nat, tm: TableMap, tail: bytes)
    requires tm.flags < 0x1_0000 && |tm.database| <= 255 && |tm.name| <= 255 && OneByteCount(|tm.types|)
    ensures var front := TableMapFront(tableID, tm);
            var data := front + tail;
            var database := ReadName(data, 8);
            && Take(data, 6, 2) == Ok(PutLE(tm.flags, 2)) && LE(PutLE(tm.flags, 2)) == tm.flags
            && database.Ok? && database.value.0 == tm.database
            && var name := ReadName(data, database.value.1);
            && name.Ok? && name.value.0 == tm.name
            && ReadCount(data, name.value.1) == Ok((|tm.types|, |front| - |tm.types|))
            && Take(data, |front| - |tm.types|, |tm.types|) == Ok(tm.types)
  {
    hide ReadName, ReadCount, NameBytes, PutLE;
    LEPut(tm.flags, 2);
    Pow256Values();
    var front := TableMapFront(tableID, tm);
    var data := front + tail;
    assert data[6..8] == PutLE(tm.flags, 2);
    var p2 := PutLE(tableID, 6) + PutLE(tm.flags, 2);
    var rest := [|tm.types| % 256] + tm.types + tail;
    NamesBack(p2, tm, rest);
    var p4 := p2 + NameBytes(tm.database) + NameBytes(tm.name);
    assert data == p4 + rest;
    assert data == p4 + [|tm.types| % 256] + (tm.types + tail);
    ReadCountBack(p4, |tm.types|, tm.types + tail);
    assert data[|front| - |tm.types|..|front|] == tm.types;
  }

  lemma NamesBack(p: bytes, tm: TableMap, rest: bytes)
    requires |tm.database| <= 255 && |tm.name| <= 255
    ensures var data := p + NameBytes(tm.database) + NameBytes(tm.name) + rest;
            && ReadName(data, |p|) == Ok((tm.database, |p| + |NameBytes(tm.database)|))
            && ReadName(data, |p| + |NameBytes(tm.database)|)
               == Ok((tm.name, |p| + |NameBytes(tm.database)| + |NameBytes(tm.name)|))
  {
    hide ReadName, NameBytes;
    var data := p + NameBytes(tm.database) + NameBytes(tm.name) + rest;
    assert data == p + NameBytes(tm.database) + (NameBytes(tm.name) + rest);
    ReadNameBack(p, tm.database, NameBytes(tm.name) + rest);
    ReadNameBack(p + NameBytes(tm.database), tm.name, rest);
  }

  /** The metadata and the null bitmap behind the front. */
  lemma TailBack(front: bytes, tm: TableMap)
    requires Encodable(tm)
    ensures var metadata := MetadataFrom(tm.types, tm.metadata, 0);
            var data := front + [|metadata| % 256] + metadata + tm.canBeNull.data;
            var start := |front| + 1;
            && ReadCount(data, |front|) == Ok((|metadata|, start))
            && ReadMetadata(data, start, tm.types, 0)
               == (if JSON in tm.types then Err(UnsupportedType) else Ok((tm.metadata, start + |metadata|)))
            && NewBitmap(data, start + |metadata|, |tm.types|) == Ok((tm.canBeNull, |data|))
  {
    hide ReadCount, ReadMetadata, MetadataFrom, Known, MetadataFits;
    var metadata := MetadataFrom(tm.types, tm.metadata, 0);
    var data := front + [|metadata| % 256] + metadata + tm.canBeNull.data;
    var start := |front| + 1;
    assert data == front + [|metadata| % 256] + (metadata + tm.canBeNull.data);
    ReadCountBack(front, |metadata|, metadata + tm.canBeNull.data);
    assert data[start..start + |metadata|] == metadata;
    ReadMetadataBack(data, start, tm.types, tm.metadata, 0);
    assert tm.types[0..] == tm.types && tm.metadata[0..] == tm.metadata;
    assert |tm.canBeNull.data| == ByteSize(|tm.types|);
    assert data[start + |metadata|..start + |metadata| + ByteSize(|tm.types|)] == tm.canBeNull.data;
  }

  /** An encodable table map comes back whole exactly when no column is JSON. */
  lemma EncodableComesBack(tableID: nat, tm: TableMap, postHeader: byte)
    requires Encodable(tm) && postHeader != 6
    ensures DecodeTableMapBody(TableMapBody(tableID, tm), postHeader) == Ok(tm) <==> JSON !in tm.types
  {
    hide ReadName, ReadCount, ReadMetadata, MetadataFrom, Known, MetadataFits, NewBitmap, TableMapFront;
    var metadata := MetadataFrom(tm.types, tm.metadata, 0);
    var front := TableMapFront(tableID, tm);
    var tail := [|metadata| % 256] + metadata + tm.canBeNull.data;
    assert TableMapBody(tableID, tm) == front + tail;
    FrontBack(tableID, tm, tail);
    TailBack(front, tm);
  }

  // ---------- what comes back is encodable ----------

  lemma MetadataReadFits(data: bytes, pos: nat, typ: byte)
    ensures var r := MetadataRead(data, pos, typ);
            r.Ok? ==> typ != JSON && LayoutOf(typ).Some?
                      && var w := Width(LayoutOf(typ).value); r.value.0 < Pow256(w) && r.value.1 == pos + w
  {
    hide LayoutOf;
    Pow256Values();
  }

  /** Metadata that is read fits its types, and takes the bytes the encoder writes for it. */
  lemma {:induction false} ReadMetadataFits(data: bytes, pos: nat, types: bytes, metadata: seq<nat>, c: nat)
    requires Known(types) && c <= |types| <= |metadata|
    requires var r := ReadMetadata(data, pos, types, c); r.Ok? && r.value.0 == metadata[c..]
    ensures ReadMetadata(data, pos, types, c).value.1 == pos + |MetadataFrom(types, metadata, c)|
    ensures |metadata| == |types| && JSON !in types[c..]
    ensures forall i :: c <= i < |types| ==> metadata[i] < Pow256(Width(LayoutOf(types[i]).value))
    decreases |types| - c
  {
    hide LayoutOf, MetadataBytes, MetadataRead, Pow256;
    if c < |types| {
      MetadataReadFits(data, pos, types[c]);
      var one := MetadataRead(data, pos, types[c]).value;
      var rest := ReadMetadata(data, one.1, types, c + 1).value;
      assert metadata[c..][0] == metadata[c] && metadata[c..][1..] == metadata[c + 1..];
      assert ([one.0] + rest.0)[0] == one.0 && ([one.0] + rest.0)[1..] == rest.0;
      ReadMetadataFits(data, one.1, types, metadata, c + 1);
      assert types[c..] == [types[c]] + types[c + 1..];
    }
  }

  /** A name that comes back fits its length byte. */
  lemma NameFits(pre: bytes, name: bytes, post: bytes)
    ensures var r := ReadName(pre + NameBytes(name) + post, |pre|);
            r.Ok? && r.value.0 == name ==> |name| <= 255 && r.value.1 == |pre| + |NameBytes(name)|
  {
    assert (pre + NameBytes(name) + post)[|pre|] == |name| % 256;
  }

  /** Flags and names that come back fit. */
  lemma FrontFits(tableID: nat, tm: TableMap, rest: bytes, postHeader: byte)
    requires postHeader != 6
    requires var data := PutLE(tableID, 6) + PutLE(tm.flags, 2) + NameBytes(tm.database) + NameBytes(tm.name) + rest;
             DecodeTableMapBody(data, postHeader) == Ok(tm)
    ensures var front := PutLE(tableID, 6) + PutLE(tm.flags, 2) + NameBytes(tm.database) + NameBytes(tm.name);
            var data := front + rest;
            var database := ReadName(data, 8);
            && tm.flags < 0x1_0000 && |tm.database| <= 255 && |tm.name| <= 255
            && database.Ok? && var name := ReadName(data, database.value.1);
            name.Ok? && name.value.1 == |front|
  {
    hide ReadName, ReadCount, ReadMetadata, NewBitmap, NameBytes, LE, PutLE;
    var pre := PutLE(tableID, 6) + PutLE(tm.flags, 2);
    var data := pre + NameBytes(tm.database) + NameBytes(tm.name) + rest;
    PutLEOfLE(data[6..8]);
    Pow256Values();
    assert data == pre + NameBytes(tm.database) + (NameBytes(tm.name) + rest);
    NameFits(pre, tm.database, NameBytes(tm.name) + rest);
    NameFits(pre + NameBytes(tm.database), tm.name, rest);
  }

  lemma CountMoves(data: bytes, pos: nat)
    ensures var r := ReadCount(data, pos);
            r.Ok? ==> pos < r.value.1 <= |data|
                      && (r.value.1 == pos + 1 ==> r.value.0 == data[pos] && OneByteCount(r.value.0))
  {
    hide ReadLenEncInt;
    OneByteRead(data, pos);
  }

  /** Where the decoder stands after the column count, the types, the metadata length and the metadata. */
  lemma TailFits(data: bytes, p: nat, tm: TableMap)
    requires Known(tm.types) && |tm.types| <= |tm.metadata|
    requires var metadata := MetadataFrom(tm.types, tm.metadata, 0);
             |data| == p + 1 + |tm.types| + 1 + |metadata| + |tm.canBeNull.data|
    requires var columns := ReadCount(data, p);
             && columns.Ok? && Take(data, columns.value.1, columns.value.0) == Ok(tm.types)
             && var length := ReadCount(data, columns.value.1 + columns.value.0);
             && length.Ok?
             && var read := ReadMetadata(data, length.value.1, tm.types, 0);
             && read.Ok? && read.value.0 == tm.metadata && read.value.1 == length.value.1 + length.value.0
             && var canBeNull := NewBitmap(data, read.value.1, columns.value.0);
             canBeNull.Ok? && canBeNull.value.0 == tm.canBeNull
    ensures OneByteCount(|tm.types|) && OneByteCount(|MetadataFrom(tm.types, tm.metadata, 0)|)
    ensures |tm.metadata| == |tm.types| && MetadataFits(tm.types, tm.metadata) && JSON !in tm.types
    ensures tm.canBeNull.count == |tm.types| && Sized(tm.canBeNull)
  {
    hide ReadCount, ReadMetadata, MetadataFrom, Known, LayoutOf, Pow256, OneByteCount;
    var columns := ReadCount(data, p).value;
    CountMoves(data, p);
    CountMoves(data, columns.1 + columns.0);
    assert tm.types[0..] == tm.types && tm.metadata[0..] == tm.metadata;
    ReadMetadataFits(data, ReadCount(data, columns.1 + columns.0).value.1, tm.types, tm.metadata, 0);
  }

  lemma DecodedIsEncodable(tableID: nat, tm: TableMap, postHeader: byte)
    requires Known(tm.types) && |tm.types| <= |tm.metadata| && postHeader != 6
    requires DecodeTableMapBody(TableMapBody(tableID, tm), postHeader) == Ok(tm)
    ensures Encodable(tm) && JSON !in tm.types
  {
    hide ReadName, ReadCount, ReadMetadata, MetadataFrom, Known, MetadataFits, NewBitmap, NameBytes, PutLE, Sized,
         OneByteCount;
    var metadata := MetadataFrom(tm.types, tm.metadata, 0);
    var front := PutLE(tableID, 6) + PutLE(tm.flags, 2) + NameBytes(tm.database) + NameBytes(tm.name);
    var rest := [|tm.types| % 256] + tm.types + ([|metadata| % 256] + metadata + tm.canBeNull.data);
    var data := front + rest;
    assert TableMapBody(tableID, tm) == data;
    FrontFits(tableID, tm, rest, postHeader);
    TailFits(data, |front|, tm);
  }

  /** A table map comes back whole exactly when it is encodable and no column is JSON. */
  lemma TableMapBodyRoundTrip(tableID: nat, tm: TableMap, postHeader: byte)
    requires Known(tm.types) && |tm.types| <= |tm.metadata| && postHeader != 6
    ensures DecodeTableMapBody(TableMapBody(tableID, tm), postHeader) == Ok(tm)
            <==> Encodable(tm) && JSON !in tm.types
  {
    hide DecodeTableMapBody, TableMapBody, Encodable;
    if DecodeTableMapBody(TableMapBody(tableID, tm), postHeader) == Ok(tm) {
      DecodedIsEncodable(tableID, tm, postHeader);
    } else if Encodable(tm) {
      EncodableComesBack(tableID, tm, postHeader);
    }
  }

  /** The table map round trip: encode, put in a packet with or without checksum, strip, decode. The encoder
      panics on a type it does not know and on too little metadata. */
  lemma TableMapRoundTrip(flavor: Flavor, f: BinlogFormat, s: FakeBinlogStream, tableID: nat, tm: TableMap)
    requires f.headerLength >= 19 && HeaderSize(f, TABLE_MAP_EVENT) == Ok(8)
    requires f.checksumAlgorithm in {CHECKSUM_OFF, CHECKSUM_CRC32, CHECKSUM_UNDEF}
    ensures var p := EncodeTableMap(f, s, tableID, tm);
            && (p.Ok? <==> Known(tm.types) && |tm.types| <= |tm.metadata|)
            && (p.Ok? ==>
                  var e := StripChecksum(Event(flavor, p.value), f);
                  && e.Ok? && |e.value.buf| >= 5 && Type(e.value.buf) == TABLE_MAP_EVENT
                  && (DecodeTableMap(e.value.buf, f) == Ok(tm) <==> Encodable(tm) && JSON !in tm.types)
                  && TableID(e.value.buf, f) == Ok(tableID % Pow256(6)))
  {
    hide DecodeTableMapBody, Packetize, Known, MetadataFrom, NameBytes, Encodable;
    if Known(tm.types) && |tm.types| <= |tm.metadata| {
      var data := TableMapBody(tableID, tm);
      PacketizeStrip(flavor, f, s, TABLE_MAP_EVENT, 0, data);
      TableMapBodyRoundTrip(tableID, tm, 8);
      var e := StripChecksum(Event(flavor, EncodeTableMap(f, s, tableID, tm).value), f).value;
      assert data[..6] == PutLE(tableID, 6);
      TableIDBack(e.buf, f, data, tableID);
    }
  }
}
