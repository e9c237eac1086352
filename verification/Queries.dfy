/** Query events: the decoder's walk over the status variables, and the encoder it inverts. */
module Queries {
  import opened Results
  import opened Bytes
  import opened Events

  datatype Charset = Charset(client: int, conn: int, server: int)

  datatype Query = Query(database: bytes, charset: Option<Charset>, sql: bytes)

  // Status variable codes.
  const Q_FLAGS2 := 0
  const Q_SQL_MODE := 1
  const Q_CATALOG := 2
  const Q_AUTO_INCREMENT := 3
  const Q_CHARSET := 4
  const Q_CATALOG_NZ := 6

  const VARS_POS := 13

  function CharsetAt(vars: bytes, pos: nat): Result<Charset> {
    var client :- Take(vars, pos, 2);
    var conn :- Take(vars, pos + 2, 2);
    var server :- Take(vars, pos + 4, 2);
    Ok(Charset(LE(client), LE(conn), LE(server)))
  }

  /** The walk from pos, with the charset seen so far. An entry may point beyond the block: the walk ends there. */
  function WalkVars(vars: bytes, pos: nat, charset: Option<Charset>): Result<Option<Charset>>
    decreases |vars| - pos
  {
    if pos >= |vars| then Ok(charset)
    else
      var code :- At(vars, pos);
      var p := pos + 1;
      if code == Q_FLAGS2 || code == Q_AUTO_INCREMENT then WalkVars(vars, p + 4, charset)
      else if code == Q_SQL_MODE then WalkVars(vars, p + 8, charset)
      else if code == Q_CATALOG then
        if p + 1 > |vars| then Err(VarsOverflow)
        else
          var l :- At(vars, p);
          WalkVars(vars, p + 1 + l + 1, charset)
      else if code == Q_CATALOG_NZ then
        if p + 1 > |vars| then Err(VarsOverflow)
        else
          var l :- At(vars, p);
          WalkVars(vars, p + 1 + l, charset)
      else if code == Q_CHARSET then
        if p + 6 > |vars| then Err(VarsOverflow)
        else
          var found :- CharsetAt(vars, p);
          WalkVars(vars, p + 6, Some(found))
      else Ok(charset)
  }

  function DecodeQueryBody(data: bytes): Result<Query> {
    var dbLen :- At(data, 8);
    var length :- Take(data, 11, 2);
    var varsLen := LE(length);
    var dbPos := VARS_POS + varsLen;
    var sqlPos := dbPos + dbLen + 1;
    if sqlPos > |data| then Err(SqlOverflow)
    else
      var database :- Take(data, dbPos, dbLen);
      var vars :- Take(data, VARS_POS, varsLen);
      var charset :- WalkVars(vars, 0, None);
      Ok(Query(database, charset, data[sqlPos..]))
  }

  function DecodeQuery(buf: bytes, f: BinlogFormat): Result<Query> {
    var data :- Body(buf, f);
    DecodeQueryBody(data)
  }

  method ScanVars(vars: bytes) returns (r: Result<Option<Charset>>)
    ensures r == WalkVars(vars, 0, None)
  {
    hide CharsetAt;
    var pos := 0;
    var charset := None;
    while pos < |vars|
      invariant WalkVars(vars, pos, charset) == WalkVars(vars, 0, None)
      decreases |vars| - pos
    {
      var code := vars[pos];
      pos := pos + 1;
      if code == Q_FLAGS2 || code == Q_AUTO_INCREMENT {
        pos := pos + 4;
      } else if code == Q_SQL_MODE {
        pos := pos + 8;
      } else if code == Q_CATALOG {
        if pos + 1 > |vars| { return Err(VarsOverflow); }
        pos := pos + 1 + vars[pos] + 1;
      } else if code == Q_CATALOG_NZ {
        if pos + 1 > |vars| { return Err(VarsOverflow); }
        pos := pos + 1 + vars[pos];
      } else if code == Q_CHARSET {
        if pos + 6 > |vars| { return Err(VarsOverflow); }
        var found := CharsetAt(vars, pos);
        if found.Err? { return Err(found.error); }
        charset := Some(found.value);
        pos := pos + 6;
      } else {
        break;
      }
    }
    r := Ok(charset);
  }

  // ---------- the walk never leaves the block, and understands every well-formed one ----------

  /** The only failure of the walk is its own overflow error; no read of it is out of range. */
  lemma {:induction false} WalkStaysInside(vars: bytes, pos: nat, charset: Option<Charset>)
    ensures var r := WalkVars(vars, pos, charset); r.Err? ==> r.error == VarsOverflow
    decreases |vars| - pos
  {
    hide CharsetAt;
    if pos < |vars| {
      var code, p := vars[pos], pos + 1;
      WalkStaysInside(vars, p + 4, charset);
      WalkStaysInside(vars, p + 8, charset);
      if p < |vars| {
        WalkStaysInside(vars, p + 1 + vars[p] + 1, charset);
        WalkStaysInside(vars, p + 1 + vars[p], charset);
      }
      if p + 6 <= |vars| {
        CharsetInside(vars, p);
        WalkStaysInside(vars, p + 6, Some(CharsetAt(vars, p).value));
      }
    }
  }

  lemma CharsetInside(vars: bytes, pos: nat)
    requires pos + 6 <= |vars|
    ensures CharsetAt(vars, pos).Ok?
  {
  }

  /** The decoder panics exactly on a body too short for the fixed fields. */
  lemma QueryPanicsExactly(data: bytes)
    ensures DecodeQueryBody(data) == Err(OutOfRange) <==> |data| < VARS_POS
  {
    hide WalkVars;
    if |data| >= VARS_POS {
      var dbPos := VARS_POS + LE(data[11..13]);
      if dbPos <= |data| {
        WalkStaysInside(data[VARS_POS..dbPos], 0, None);
      }
    }
  }

  datatype StatusVar =
    | Flags2(flags: bytes)
    | SqlMode(mode: bytes)
    | Catalog(name: bytes)
    | AutoIncrement(counters: bytes)
    | CatalogNZ(name: bytes)
    | CharsetVar(charset: Charset)

  predicate FitsCharset(c: Charset) {
    0 <= c.client < 0x1_0000 && 0 <= c.conn < 0x1_0000 && 0 <= c.server < 0x1_0000
  }

  predicate FitsVar(v: StatusVar) {
    match v
    case Flags2(b) => |b| == 4
    case SqlMode(b) => |b| == 8
    case Catalog(b) => |b| <= 255
    case AutoIncrement(b) => |b| == 4
    case CatalogNZ(b) => |b| <= 255
    case CharsetVar(c) => FitsCharset(c)
  }

  /** The low 16 bits of each id, little endian. */
  function CharsetBytes(c: Charset): (b: bytes)
    ensures |b| == 6
  {
    PutLE(c.client % 0x1_0000, 2) + PutLE(c.conn % 0x1_0000, 2) + PutLE(c.server % 0x1_0000, 2)
  }

  function EncodeVar(v: StatusVar): bytes
    requires FitsVar(v)
  {
    match v
    case Flags2(b) => [Q_FLAGS2] + b
    case SqlMode(b) => [Q_SQL_MODE] + b
    case Catalog(b) => [Q_CATALOG, |b|] + b + [0]
    case AutoIncrement(b) => [Q_AUTO_INCREMENT] + b
    case CatalogNZ(b) => [Q_CATALOG_NZ, |b|] + b
    case CharsetVar(c) => [Q_CHARSET] + CharsetBytes(c)
  }

  predicate FitVars(vs: seq<StatusVar>) {
    forall i :: 0 <= i < |vs| ==> FitsVar(vs[i])
  }

  function EncodeVars(vs: seq<StatusVar>): bytes
    requires FitVars(vs)
  {
    if vs == [] then [] else EncodeVar(vs[0]) + EncodeVars(vs[1..])
  }

  /** The charset of the last charset entry, if there is one. */
  function LastCharset(vs: seq<StatusVar>, otherwise: Option<Charset>): Option<Charset> {
    if vs == [] then otherwise
    else if vs[|vs| - 1].CharsetVar? then Some(vs[|vs| - 1].charset)
    else LastCharset(vs[..|vs| - 1], otherwise)
  }

  lemma {:induction false} LastCharsetHead(v: StatusVar, vs: seq<StatusVar>, otherwise: Option<Charset>)
    ensures LastCharset([v] + vs, otherwise)
            == LastCharset(vs, if v.CharsetVar? then Some(v.charset) else otherwise)
  {
    var all := [v] + vs;
    if vs != [] {
      assert all[..|all| - 1] == [v] + vs[..|vs| - 1];
      if !all[|all| - 1].CharsetVar? {
        LastCharsetHead(v, vs[..|vs| - 1], otherwise);
      }
    } else {
      assert all[..0] == [];
    }
  }

  lemma CharsetBack(vars: bytes, pos: nat, c: Charset)
    requires pos + 6 <= |vars| && vars[pos..pos + 6] == CharsetBytes(c)
    ensures CharsetAt(vars, pos) == Ok(Charset(c.client % 0x1_0000, c.conn % 0x1_0000, c.server % 0x1_0000))
  {
    hide PutLE, LE;
    LEPut(c.client % 0x1_0000, 2);
    LEPut(c.conn % 0x1_0000, 2);
    LEPut(c.server % 0x1_0000, 2);
    Pow256Values();
    var b := vars[pos..pos + 6];
    SliceOfSlice(vars, pos, pos + 6, 0, 2);
    SliceOfSlice(vars, pos, pos + 6, 2, 4);
    SliceOfSlice(vars, pos, pos + 6, 4, 6);
    assert b[0..2] == PutLE(c.client % 0x1_0000, 2);
    assert b[2..4] == PutLE(c.conn % 0x1_0000, 2);
    assert b[4..6] == PutLE(c.server % 0x1_0000, 2);
  }

  lemma WalkOne(vars: bytes, pos: nat, v: StatusVar, charset: Option<Charset>)
    requires FitsVar(v) && pos + |EncodeVar(v)| <= |vars| && vars[pos..pos + |EncodeVar(v)|] == EncodeVar(v)
    ensures WalkVars(vars, pos, charset)
            == WalkVars(vars, pos + |EncodeVar(v)|, if v.CharsetVar? then Some(v.charset) else charset)
  {
    hide CharsetAt, CharsetBytes, FitsCharset;
    var one := vars[pos..pos + |EncodeVar(v)|];
    assert vars[pos] == one[0];
    if v.Catalog? || v.CatalogNZ? {
      assert vars[pos + 1] == one[1];
    } else if v.CharsetVar? {
      assert vars[pos + 1..pos + 7] == one[1..];
      CharsetBack(vars, pos + 1, v.charset);
      CharsetWhole(v.charset);
    }
  }

  lemma CharsetWhole(c: Charset)
    ensures FitsCharset(c) <==> c == Charset(c.client % 0x1_0000, c.conn % 0x1_0000, c.server % 0x1_0000)
  {
  }

  /** The walk passes over any well-formed sequence of entries and remembers the last charset in it. */
  lemma {:induction false} WalkUnderstands(vars: bytes, pos: nat, vs: seq<StatusVar>, charset: Option<Charset>)
    requires FitVars(vs)
    requires pos + |EncodeVars(vs)| <= |vars| && vars[pos..pos + |EncodeVars(vs)|] == EncodeVars(vs)
    ensures WalkVars(vars, pos, charset) == WalkVars(vars, pos + |EncodeVars(vs)|, LastCharset(vs, charset))
    decreases |vs|
  {
    hide WalkVars, LastCharset, FitVars, EncodeVar, EncodeVars, FitsVar;
    if vs == [] {
      NoVars(charset);
    } else {
      FirstVar(vs);
      var one, more := EncodeVar(vs[0]), EncodeVars(vs[1..]);
      SplitSlice(vars, pos, one, more);
      WalkOne(vars, pos, vs[0], charset);
      var seen := if vs[0].CharsetVar? then Some(vs[0].charset) else charset;
      WalkUnderstands(vars, pos + |one|, vs[1..], seen);
      LastCharsetHead(vs[0], vs[1..], charset);
      assert [vs[0]] + vs[1..] == vs;
      assert pos + |one| + |more| == pos + |EncodeVars(vs)|;
    }
  }

  lemma NoVars(charset: Option<Charset>)
    ensures EncodeVars([]) == [] && LastCharset([], charset) == charset
  {
  }

  lemma FirstVar(vs: seq<StatusVar>)
    requires FitVars(vs) && vs != []
    ensures FitsVar(vs[0]) && FitVars(vs[1..]) && EncodeVars(vs) == EncodeVar(vs[0]) + EncodeVars(vs[1..])
  {
    hide FitsVar, EncodeVar;
  }

  /** So a block of well-formed entries, ended by the block or by a code the walk does not know, yields
      the last charset: Q_CHARSET is found behind any entries that precede it. */
  lemma CharsetFound(vs: seq<StatusVar>, rest: bytes)
    requires FitVars(vs)
    requires rest == [] || rest[0] == 5 || rest[0] > 6
    ensures WalkVars(EncodeVars(vs) + rest, 0, None) == Ok(LastCharset(vs, None))
  {
    hide EncodeVars, LastCharset, FitVars;
    var vars := EncodeVars(vs) + rest;
    assert vars[0..|EncodeVars(vs)|] == EncodeVars(vs);
    WalkUnderstands(vars, 0, vs, None);
  }

  // ---------- the encoder ----------

  function VarsBytes(q: Query): bytes {
    if q.charset.Some? then [Q_CHARSET] + CharsetBytes(q.charset.value) else []
  }

  function QueryBody(q: Query): bytes {
    Zeros(8) + [|q.database| % 256] + Zeros(2) + PutLE(|VarsBytes(q)|, 2) + VarsBytes(q) + q.database + [0] + q.sql
  }

  method NewQueryEvent(f: BinlogFormat, s: FakeBinlogStream, q: Query) returns (ev: Result<bytes>)
    ensures ev == Packetize(f, s, QUERY_EVENT, 0, QueryBody(q))
  {
    hide Filled, Packetize;
    var statusVarLength := if q.charset.Some? then 1 + 2 + 2 + 2 else 0;
    var length := 4 + 4 + 1 + 2 + 2 + statusVarLength + |q.database| + 1 + |q.sql|;
    var data := new byte[length](i => 0);
    FilledEmpty(data);
    ghost var done := [];
    var pos := Append(data, 0, Zeros(8), done);
    done := Zeros(8);
    assert [] + done == done;
    pos := Append(data, pos, [|q.database| % 256], done);
    done := done + [|q.database| % 256];
    pos := Append(data, pos, Zeros(2), done);
    done := done + Zeros(2);
    pos := Append(data, pos, PutLE(statusVarLength, 2), done);
    done := done + PutLE(statusVarLength, 2);
    pos := Append(data, pos, VarsBytes(q), done);
    done := done + VarsBytes(q);
    pos := Append(data, pos, q.database, done);
    done := done + q.database;
    pos := Append(data, pos, [0], done);
    done := done + [0];
    pos := Append(data, pos, q.sql, done);
    done := done + q.sql;
    FilledContents(data, pos, done);
    assert done + Zeros(0) == done;
    ev := PacketizeBuffer(f, s, QUERY_EVENT, 0, data[..]);
  }

  /** A query the event can carry: a database name its length byte holds, and 16-bit charset ids. */
  predicate Carried(q: Query) {
    |q.database| <= 255 && (q.charset.Some? ==> FitsCharset(q.charset.value))
  }

  lemma QueryBodyParts(q: Query)
    ensures var data := QueryBody(q);
            var n := |VarsBytes(q)|;
            && |data| == 13 + n + |q.database| + 1 + |q.sql|
            && data[8] == |q.database| % 256 && data[11..13] == PutLE(n, 2) && LE(PutLE(n, 2)) == n
            && data[13..13 + n] == VarsBytes(q)
            && data[13 + n..13 + n + |q.database|] == q.database
            && data[13 + n + |q.database| + 1..] == q.sql
  {
    hide PutLE, VarsBytes;
    var n := |VarsBytes(q)|;
    assert n <= 7 by { VarsSize(q); }
    LEPut(n, 2);
    Pow256Values();
    var data := QueryBody(q);
    assert data[11..13] == PutLE(n, 2);
    assert data[13..13 + n] == VarsBytes(q);
    assert data[13 + n..13 + n + |q.database|] == q.database;
    assert data[13 + n + |q.database| + 1..] == q.sql;
  }

  lemma VarsSize(q: Query)
    ensures |VarsBytes(q)| <= 7
  {
  }

  /** The walk reads the encoder's block back with the ids reduced to 16 bits. */
  lemma VarsBack(q: Query)
    ensures WalkVars(VarsBytes(q), 0, None)
            == Ok(if q.charset.None? then None
                  else var c := q.charset.value;
                       Some(Charset(c.client % 0x1_0000, c.conn % 0x1_0000, c.server % 0x1_0000)))
  {
    hide CharsetAt, CharsetBytes;
    if q.charset.Some? {
      var vars := VarsBytes(q);
      assert vars[1..7] == CharsetBytes(q.charset.value);
      CharsetBack(vars, 1, q.charset.value);
      var found := CharsetAt(vars, 1).value;
      assert WalkVars(vars, 7, Some(found)) == Ok(Some(found));
    }
  }

  /** The decoder inverts the encoder exactly on the queries the event can carry. */
  lemma QueryBodyRoundTrip(q: Query)
    ensures DecodeQueryBody(QueryBody(q)) == Ok(q) <==> Carried(q)
  {
    hide WalkVars, VarsBytes, QueryBody, FitsCharset;
    QueryBodyParts(q);
    VarsBack(q);
    if q.charset.Some? { CharsetWhole(q.charset.value); }
  }

  /** The query round trip: encode, put in a packet with or without checksum, strip, decode. */
  lemma QueryRoundTrip(flavor: Flavor, f: BinlogFormat, s: FakeBinlogStream, q: Query)
    requires f.headerLength >= 19
    requires f.checksumAlgorithm in {CHECKSUM_OFF, CHECKSUM_CRC32, CHECKSUM_UNDEF}
    ensures var p := Packetize(f, s, QUERY_EVENT, 0, QueryBody(q));
            && p.Ok?
            && var e := StripChecksum(Event(flavor, p.value), f);
            e.Ok? && (DecodeQuery(e.value.buf, f) == Ok(q) <==> Carried(q))
  {
    hide DecodeQueryBody, QueryBody, Packetize;
    PacketizeStrip(flavor, f, s, QUERY_EVENT, 0, QueryBody(q));
    QueryBodyRoundTrip(q);
  }
}
