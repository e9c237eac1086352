/** From rows to bytes and back to rows: the streamer over what the encoders write. */
module EndToEnd {
  import opened Results
  import opened Bytes
  import Bitmaps
  import opened Events
  import opened Cells
  import opened Queries
  import opened RowEvents
  import opened RowEncoder
  import opened RowWalk
  import opened TableMaps
  import opened Statements
  import opened Streamer
  import opened StreamFacts

  /** One change to a table: the event type says which statement it is. */
  datatype Change = Change(typ: byte, rows: RowsEvent)

  /** How a transaction ends: with an XID event, or with a statement. */
  datatype Ending = Xid | Statement(query: Query)

  /** A transaction on one table. */
  datatype Script = Script(begin: Query, tableID: nat, tableMap: TableMap, changes: seq<Change>, ending: Ending)

  function StatementOf(typ: byte): StatementType {
    if IsWriteRows(typ) then StatementInsert else if IsUpdateRows(typ) then StatementUpdate else StatementDelete
  }

  function PacketOf(flavor: Flavor, p: Result<bytes>): Event {
    Event(flavor, if p.Ok? then p.value else [])
  }

  function FormatEvent(flavor: Flavor, f: BinlogFormat, s: FakeBinlogStream): Event {
    PacketOf(flavor, Packetize(f, s, FORMAT_DESCRIPTION_EVENT, 0, FormatDescriptionBody(f, s)))
  }

  function QueryEvent(flavor: Flavor, f: BinlogFormat, s: FakeBinlogStream, q: Query): Event {
    PacketOf(flavor, Packetize(f, s, QUERY_EVENT, 0, QueryBody(q)))
  }

  function TableEvent(flavor: Flavor, f: BinlogFormat, s: FakeBinlogStream, id: nat, tm: TableMap): Event {
    PacketOf(flavor, EncodeTableMap(f, s, id, tm))
  }

  function ChangeEvent(flavor: Flavor, f: BinlogFormat, s: FakeBinlogStream, id: nat, c: Change): Event {
    PacketOf(flavor, EncodeRowsEvent(f, s, c.typ, id, c.rows))
  }

  function EndEvent(flavor: Flavor, f: BinlogFormat, s: FakeBinlogStream, ending: Ending): Event {
    match ending
    case Xid => PacketOf(flavor, Packetize(f, s, XID_EVENT, 0, Zeros(8)))
    case Statement(q) => QueryEvent(flavor, f, s, q)
  }

  function RotateEvent(flavor: Flavor, f: BinlogFormat, s: FakeBinlogStream, position: nat, filename: bytes): Event {
    PacketOf(flavor, EncodeRotate(f, s, position, filename))
  }

  function ChangeEvents(flavor: Flavor, f: BinlogFormat, s: FakeBinlogStream, id: nat, changes: seq<Change>)
    : seq<Event>
  {
    if changes == [] then []
    else [ChangeEvent(flavor, f, s, id, changes[0])] + ChangeEvents(flavor, f, s, id, changes[1..])
  }

  /** The whole stream: the format, BEGIN, the table map, the changes, and the end of the transaction. */
  function StreamOf(flavor: Flavor, f: BinlogFormat, s: FakeBinlogStream, script: Script): seq<Event> {
    [FormatEvent(flavor, f, s), QueryEvent(flavor, f, s, script.begin),
     TableEvent(flavor, f, s, script.tableID, script.tableMap)]
    + (ChangeEvents(flavor, f, s, script.tableID, script.changes) + [EndEvent(flavor, f, s, script.ending)])
  }

  /** A format and stream settings the encoders work with. */
  predicate Encoder(f: BinlogFormat, s: FakeBinlogStream) {
    && Describable(f) && f.checksumAlgorithm in {CHECKSUM_OFF, CHECKSUM_CRC32, CHECKSUM_UNDEF}
    && HeaderSize(f, TABLE_MAP_EVENT) == Ok(8)
    && s.timestamp < 0x1_0000_0000 && s.logPosition < 0x1_0000_0000
  }

  predicate EncodableChange(f: BinlogFormat, tm: TableMap, c: Change) {
    HasExtraData(c.typ) && WellFormed(c.rows, c.typ, tm) && HeaderSize(f, c.typ).Ok? && HeaderSize(f, c.typ).value != 6
  }

  /** The change can be decoded with the table's columns. */
  predicate Decodable(lib: Library, tc: TableCache, c: Change, timestamp: nat) {
    EventFromRows(lib, tc, c.rows, StatementOf(c.typ), timestamp).Ok?
  }

  predicate GoodChanges(lib: Library, tc: TableCache, f: BinlogFormat, timestamp: nat, changes: seq<Change>) {
    forall i :: 0 <= i < |changes| ==>
      EncodableChange(f, tc.tableMap, changes[i]) && Decodable(lib, tc, changes[i], timestamp)
  }

  /** The stream events of the changes, in order. */
  function Decoded(lib: Library, tc: TableCache, f: BinlogFormat, timestamp: nat, changes: seq<Change>)
    : seq<StreamEvent>
    requires GoodChanges(lib, tc, f, timestamp, changes)
  {
    seq(|changes|, i requires 0 <= i < |changes| =>
      EventFromRows(lib, tc, changes[i].rows, StatementOf(changes[i].typ), timestamp).value)
  }

  predicate ShortEnough(evs: seq<Event>) {
    forall i :: 0 <= i < |evs| ==> |evs[i].buf| < 0x1_0000_0000
  }

  /** The formats the program ships for its encoders. */
  const MYSQL56_FORMAT := BinlogFormat(
    4, [53, 46, 54, 46, 51, 51, 45, 48, 117, 98, 117, 110, 116, 117, 48, 46, 49, 52, 46, 48, 52, 46, 49, 45, 108,
        111, 103],
    19, 1,
    [56, 13, 0, 8, 0, 18, 0, 4, 4, 4, 4, 18, 0, 0, 92, 0, 4, 26, 8, 0, 0, 0, 8, 8, 8, 2, 0, 0, 0, 10, 10, 10,
     25, 25, 0])

  const MARIADB_FORMAT := BinlogFormat(
    4, [49, 48, 46, 48, 46, 49, 51, 45, 77, 97, 114, 105, 97, 68, 66, 45, 49, 126, 112, 114, 101, 99, 105, 115, 101, 45,
        108, 111, 103],
    19, 0,
    [56, 13, 0, 8, 0, 18, 0, 4, 4, 4, 4, 18, 0, 0, 220, 0, 4, 26, 8, 0, 0, 0, 8, 8, 8, 2, 0, 0, 0, 10, 10, 10]
    + Zeros(128) + [4, 19, 4])

  /** Both work: ids take six bytes in table maps (type 19) and in all rows events. */
  lemma ShippedFormatsWork(s: FakeBinlogStream)
    requires s.timestamp < 0x1_0000_0000 && s.logPosition < 0x1_0000_0000
    ensures Encoder(MYSQL56_FORMAT, s) && Encoder(MARIADB_FORMAT, s)
    ensures forall typ: byte :: typ in {30, 31, 32} ==>
              HeaderSize(MYSQL56_FORMAT, typ) == Ok(10) && HeaderSize(MARIADB_FORMAT, typ) == Ok(10)
    ensures forall typ: byte :: typ in {19, 23, 24, 25} ==>
              HeaderSize(MYSQL56_FORMAT, typ) == Ok(8) && HeaderSize(MARIADB_FORMAT, typ) == Ok(8)
  {
    var head := [56, 13, 0, 8, 0, 18, 0, 4, 4, 4, 4, 18, 0, 0, 220, 0, 4, 26, 8, 0, 0, 0, 8, 8, 8, 2, 0, 0, 0, 10,
                 10, 10];
    assert MARIADB_FORMAT.headerSizes[..32] == head;
  }

  // ---------- the events one by one ----------

  /** An encoded packet is interpreted by its body; position and time stand in its header. */
  lemma PacketMeaning(env: Env, flavor: Flavor, f: BinlogFormat, s: FakeBinlogStream, typ: byte, data: bytes,
                      tables: map<nat, TableCache>)
    requires Encoder(f, s) && typ != FORMAT_DESCRIPTION_EVENT
    requires |PacketOf(flavor, Packetize(f, s, typ, 0, data)).buf| < 0x1_0000_0000
    ensures var ev := PacketOf(flavor, Packetize(f, s, typ, 0, data));
            var buf := Stripped(f, ev);
            && Packetize(f, s, typ, 0, data).Ok? && StripChecksum(ev, f).Ok? && StripChecksum(ev, f).value.buf == buf
            && |buf| >= 19 && Type(buf) == typ && Interpret(env, f, tables, ev) == BodyAction(env, f, tables, buf)
            && Timestamp(buf) == Ok(s.timestamp) && LE(buf[..4]) == s.timestamp
            && NextPosition(buf) == Ok(s.logPosition)
  {
    hide BodyAction, LE, PutLE, IsValid;
    PacketizeIsValid(f, s, typ, 0, data);
    PacketizeStrip(flavor, f, s, typ, 0, data);
    PacketizeLayout(f, s, typ, 0, data);
    var p := Packetize(f, s, typ, 0, data).value;
    hide Packetize;
    var buf := Stripped(f, Event(flavor, p));
    assert p[4] == p[..13][4] == typ;
    assert buf == p[..|buf|];
    assert buf[0..4] == p[..13][..4] == PutLE(s.timestamp, 4);
    assert buf[..4] == buf[0..4];
    assert buf[13..17] == p[13..17];
    LEPut(s.timestamp, 4);
    LEPut(s.logPosition, 4);
    Pow256Values();
  }

  lemma FormatMeaning(env: Env, flavor: Flavor, f: BinlogFormat, s: FakeBinlogStream, tables: map<nat, TableCache>)
    requires Encoder(f, s) && |FormatEvent(flavor, f, s).buf| < 0x1_0000_0000
    ensures Interpret(env, ZERO_FORMAT, tables, FormatEvent(flavor, f, s)) == SetFormat(f)
  {
    hide Format, LE, PutLE, IsValid, BodyAction;
    var body := FormatDescriptionBody(f, s);
    FormatRoundTrip(f, s);
    PacketizeIsValid(f, s, FORMAT_DESCRIPTION_EVENT, 0, body);
    PacketizeLayout(f, s, FORMAT_DESCRIPTION_EVENT, 0, body);
    var p := Packetize(f, s, FORMAT_DESCRIPTION_EVENT, 0, body).value;
    hide Packetize;
    assert p[4] == p[..13][4] == FORMAT_DESCRIPTION_EVENT;
    assert |p| >= 19 by { assert IsValid(p); ValidIsLong(p); }
  }

  lemma ValidIsLong(buf: bytes)
    requires IsValid(buf)
    ensures |buf| >= 19
  {
  }

  /** A query event means what its statement says. */
  lemma StatementMeaning(env: Env, flavor: Flavor, f: BinlogFormat, s: FakeBinlogStream, q: Query,
                         tables: map<nat, TableCache>)
    requires Encoder(f, s) && Carried(q) && |QueryEvent(flavor, f, s, q).buf| < 0x1_0000_0000
    ensures var action := Interpret(env, f, tables, QueryEvent(flavor, f, s, q));
            && (Says(q.sql, "begin") <==> action == BeginTran)
            && (Says(q.sql, "commit") <==> action == CommitTran)
            && (Says(q.sql, "rollback") <==> action == RollbackTran)
            && (!Says(q.sql, "begin") && !Says(q.sql, "commit") && !Says(q.sql, "rollback") <==> action == Quiet)
  {
    hide DecodeQuery, QueryBody, Packetize, StatementCategory, Interpret, Says;
    QueryRoundTrip(flavor, f, s, q);
    PacketMeaning(env, flavor, f, s, QUERY_EVENT, QueryBody(q), tables);
    CategoryByText(q.sql);
  }

  /** Every other statement passes without a trace. */
  lemma OtherStatementsPass(env: Env, flavor: Flavor, f: BinlogFormat, s: FakeBinlogStream, q: Query, st: State,
                            sent: seq<Transaction>)
    requires Encoder(f, s) && Carried(q) && |QueryEvent(flavor, f, s, q).buf| < 0x1_0000_0000 && st.format == f
    requires !Says(q.sql, "begin") && !Says(q.sql, "commit") && !Says(q.sql, "rollback")
    ensures Step(env, st, sent, QueryEvent(flavor, f, s, q)) == Next(st, None)
  {
    hide Interpret, Stripped, QueryEvent, Encoder, Carried, Says;
    StatementMeaning(env, flavor, f, s, q, st.tables);
  }

  /** A rotate event, as the encoder writes it, moves the reader to exactly the file and the offset it names. */
  lemma RotateMoves(env: Env, flavor: Flavor, f: BinlogFormat, s: FakeBinlogStream, position: nat, filename: bytes,
                    st: State, sent: seq<Transaction>)
    requires Encoder(f, s) && st.format == f && position < Pow256(8)
    requires |RotateEvent(flavor, f, s, position, filename).buf| < 0x1_0000_0000
    ensures var offset := if 2 * position < Pow256(8) then position else position - Pow256(8);
            Run(env, st, sent, [RotateEvent(flavor, f, s, position, filename)])
            == Running(st.(pos := Position(filename, offset)), sent)
  {
    hide Rotate, Packetize, EncodeRotate, RotateBody, Interpret, Stripped, Pow256;
    RotateRoundTrip(flavor, f, s, position, filename);
    RotateHasNoTime(f, s, position, filename);
    PacketMeaning(env, flavor, f, s.(timestamp := 0), ROTATE_EVENT, RotateBody(position, filename), st.tables);
    var evs := [RotateEvent(flavor, f, s, position, filename)];
    assert evs[1..] == [] && sent + [] == sent;
  }

  /** Types 5, 13 and 29 stop the loop. */
  lemma UnsupportedStops(env: Env, flavor: Flavor, f: BinlogFormat, s: FakeBinlogStream, typ: byte, data: bytes,
                         st: State, sent: seq<Transaction>)
    requires Encoder(f, s) && st.format == f && typ in {5, 13, 29}
    requires |PacketOf(flavor, Packetize(f, s, typ, 0, data)).buf| < 0x1_0000_0000
    ensures Step(env, st, sent, PacketOf(flavor, Packetize(f, s, typ, 0, data))) == Halt(st.pos, UnsupportedEvent)
  {
    hide Packetize, Interpret, Stripped, Encoder;
    PacketMeaning(env, flavor, f, s, typ, data, st.tables);
  }

  /** Every type that has no meaning here passes without a trace. */
  lemma OtherEventsPass(env: Env, flavor: Flavor, f: BinlogFormat, s: FakeBinlogStream, typ: byte, data: bytes,
                        st: State, sent: seq<Transaction>)
    requires Encoder(f, s) && st.format == f
    requires typ !in {2, 4, 5, 13, 15, 16, 19, 23, 24, 25, 29, 30, 31, 32}
    requires |PacketOf(flavor, Packetize(f, s, typ, 0, data)).buf| < 0x1_0000_0000
    ensures Step(env, st, sent, PacketOf(flavor, Packetize(f, s, typ, 0, data))) == Next(st, None)
  {
    hide Packetize, Interpret, Stripped, Encoder;
    PacketMeaning(env, flavor, f, s, typ, data, st.tables);
  }

  /** Rows events of either version are taken for the statement of their type, and that statement's stream event
      asks for exactly the images such a rows event has. */
  lemma RowsAreStatements(env: Env, f: BinlogFormat, tables: map<nat, TableCache>, buf: bytes)
    requires |buf| >= 5 && Type(buf) in {23, 24, 25, 30, 31, 32}
    ensures var typ := Type(buf);
            var statement := if typ in {23, 30} then StatementInsert else if typ in {24, 31} then StatementUpdate
                             else StatementDelete;
            && StatementOf(typ) == statement
            && BodyAction(env, f, tables, buf) == RowsAction(env, f, tables, buf, statement)
            && HasIdentify(typ) == HasIdentifies(statement) && HasData(typ) == HasValues(statement)
  {
    hide RowsAction;
  }

  lemma TableMeaning(env: Env, flavor: Flavor, f: BinlogFormat, s: FakeBinlogStream, id: nat, tm: TableMap,
                     table: MysqlTable)
    requires Encoder(f, s) && Encodable(tm) && JSON !in tm.types && id < Pow256(6)
    requires env.mapper(MysqlTableName(tm.database, tm.name)) == Some(table) && |table.columns| == |tm.types|
    requires |TableEvent(flavor, f, s, id, tm).buf| < 0x1_0000_0000
    ensures Interpret(env, f, map[], TableEvent(flavor, f, s, id, tm)) == CacheTable(id, TableCache(tm, table))
  {
    hide DecodeTableMap, TableMapBody, Packetize, Interpret, TableID, Stripped, Known, MetadataFits, MetadataFrom;
    TableMapRoundTrip(flavor, f, s, id, tm);
    PacketMeaning(env, flavor, f, s, TABLE_MAP_EVENT, TableMapBody(id, tm), map[]);
    RemainderUnique(id, Pow256(6), 0, id);
  }

  /** A table id that is mapped again keeps the table it was given first, and the mapper is not asked. */
  lemma TableIsKept(env: Env, flavor: Flavor, f: BinlogFormat, s: FakeBinlogStream, id: nat, tm: TableMap,
                    tables: map<nat, TableCache>)
    requires Encoder(f, s) && Encodable(tm) && JSON !in tm.types && id < Pow256(6) && id in tables
    requires |TableEvent(flavor, f, s, id, tm).buf| < 0x1_0000_0000
    ensures Interpret(env, f, tables, TableEvent(flavor, f, s, id, tm))
            == CacheTable(id, TableCache(tm, tables[id].table))
  {
    hide DecodeTableMap, TableMapBody, Packetize, Interpret, TableID, Stripped, Known, MetadataFits, MetadataFrom;
    TableMapRoundTrip(flavor, f, s, id, tm);
    PacketMeaning(env, flavor, f, s, TABLE_MAP_EVENT, TableMapBody(id, tm), tables);
    RemainderUnique(id, Pow256(6), 0, id);
  }

  lemma ChangeMeaning(env: Env, flavor: Flavor, f: BinlogFormat, s: FakeBinlogStream, id: nat, c: Change,
                      tables: map<nat, TableCache>)
    requires Encoder(f, s) && id < Pow256(6) && id in tables
    requires EncodableChange(f, tables[id].tableMap, c) && Decodable(env.lib, tables[id], c, s.timestamp)
    requires |ChangeEvent(flavor, f, s, id, c).buf| < 0x1_0000_0000
    ensures Interpret(env, f, tables, ChangeEvent(flavor, f, s, id, c))
            == AddRows(EventFromRows(env.lib, tables[id], c.rows, StatementOf(c.typ), s.timestamp).value)
  {
    hide DecodeRows, RowsBody, Packetize, Interpret, TableID, Stripped, WellFormed, EventFromRows, Timestamp;
    RowsRoundTrip(flavor, f, s, c.typ, id, c.rows, tables[id].tableMap);
    PacketMeaning(env, flavor, f, s, c.typ, RowsBody(id, c.typ, c.rows), tables);
    RemainderUnique(id, Pow256(6), 0, id);
  }

  // ---------- the events the loop refuses ----------

  /** A packet that is no event stops the loop, whatever its state. */
  lemma InvalidStops(env: Env, st: State, sent: seq<Transaction>, ev: Event)
    requires |ev.buf| < 19 || LE(ev.buf[9..13]) != |ev.buf|
    ensures Step(env, st, sent, ev) == Halt(st.pos, InvalidEvent)
  {
    hide LE, Stripped;
  }

  /** Before the format is known, rotate events pass and every other event but a format event stops the loop. */
  lemma FormatComesFirst(env: Env, flavor: Flavor, f: BinlogFormat, s: FakeBinlogStream, typ: byte, data: bytes,
                         st: State, sent: seq<Transaction>)
    requires Encoder(f, s) && st.format == ZERO_FORMAT && typ != 15
    requires |PacketOf(flavor, Packetize(f, s, typ, 0, data)).buf| < 0x1_0000_0000
    ensures Step(env, st, sent, PacketOf(flavor, Packetize(f, s, typ, 0, data)))
            == if typ == 4 then Next(st, None) else Halt(st.pos, EventBeforeFormat)
  {
    hide Stripped, LE, PutLE, IsValid, BodyAction;
    PacketizeIsValid(f, s, typ, 0, data);
    PacketizeLayout(f, s, typ, 0, data);
    var p := Packetize(f, s, typ, 0, data).value;
    hide Packetize;
    assert p[4] == p[..13][4] == typ;
    assert |p| >= 19 by { assert IsValid(p); ValidIsLong(p); }
  }

  /** A rows event for a table id that was not mapped stops the loop. */
  lemma UnmappedStops(env: Env, flavor: Flavor, f: BinlogFormat, s: FakeBinlogStream, id: nat, c: Change, st: State,
                      sent: seq<Transaction>)
    requires Encoder(f, s) && st.format == f && id < Pow256(6) && id !in st.tables
    requires c.typ in {30, 31, 32} && HeaderSize(f, c.typ).Ok? && HeaderSize(f, c.typ).value != 6
    requires |ChangeEvent(flavor, f, s, id, c).buf| < 0x1_0000_0000
    ensures Step(env, st, sent, ChangeEvent(flavor, f, s, id, c)) == Halt(st.pos, UnknownTableId)
  {
    hide DecodeRows, RowsBody, Packetize, Interpret, TableID, Stripped, WellFormed, EventFromRows, Timestamp;
    RowsRoundTrip(flavor, f, s, c.typ, id, c.rows, TableMap(0, [], [], [], Bitmaps.NO_BITMAP, []));
    PacketMeaning(env, flavor, f, s, c.typ, RowsBody(id, c.typ, c.rows), st.tables);
    RemainderUnique(id, Pow256(6), 0, id);
  }

  /** A new table the mapper does not know stops the loop at its position, one whose columns are not as many as
      the table map says stops it with the zero position. */
  lemma BadMappingStops(env: Env, flavor: Flavor, f: BinlogFormat, s: FakeBinlogStream, id: nat, tm: TableMap,
                        st: State, sent: seq<Transaction>)
    requires Encoder(f, s) && st.format == f && Encodable(tm) && JSON !in tm.types && id < Pow256(6) && id !in st.tables
    requires |TableEvent(flavor, f, s, id, tm).buf| < 0x1_0000_0000
    ensures var info := env.mapper(MysqlTableName(tm.database, tm.name));
            var step := Step(env, st, sent, TableEvent(flavor, f, s, id, tm));
            && (info == None ==> step == Halt(st.pos, MapperFailed))
            && (info.Some? && |info.value.columns| != |tm.types| ==> step == Halt(Position([], 0), ColumnCountMismatch))
  {
    hide DecodeTableMap, TableMapBody, Packetize, Interpret, TableID, Stripped, Known, MetadataFits, MetadataFrom;
    TableMapRoundTrip(flavor, f, s, id, tm);
    PacketMeaning(env, flavor, f, s, TABLE_MAP_EVENT, TableMapBody(id, tm), st.tables);
    RemainderUnique(id, Pow256(6), 0, id);
  }

  // ---------- the run ----------

  /** Inside a transaction the changes pile up in order. */
  lemma {:induction false} ChangesRun(env: Env, flavor: Flavor, f: BinlogFormat, s: FakeBinlogStream, id: nat,
                                      changes: seq<Change>, st: State, sent: seq<Transaction>)
    requires Encoder(f, s) && id < Pow256(6) && id in st.tables && st.format == f
    requires GoodChanges(env.lib, st.tables[id], f, s.timestamp, changes)
    requires ShortEnough(ChangeEvents(flavor, f, s, id, changes))
    requires st.pending.Some? && !st.autocommit
    ensures Run(env, st, sent, ChangeEvents(flavor, f, s, id, changes))
            == (var decoded := Decoded(env.lib, st.tables[id], f, s.timestamp, changes);
                Running(st.(pending := Some(st.pending.value + decoded)), sent))
    decreases |changes|
  {
    hide Interpret, Stripped, EventFromRows, Decodable, EncodableChange, ChangeEvent, Encoder, Pow256;
    var evs := ChangeEvents(flavor, f, s, id, changes);
    var all := Decoded(env.lib, st.tables[id], f, s.timestamp, changes);
    if changes == [] {
      assert st.pending.value + all == st.pending.value;
    } else {
      var more := ChangeEvents(flavor, f, s, id, changes[1..]);
      assert evs[0] == ChangeEvent(flavor, f, s, id, changes[0]) && evs[1..] == more;
      assert forall i :: 0 <= i < |more| ==> more[i] == evs[i + 1];
      ChangeMeaning(env, flavor, f, s, id, changes[0], st.tables);
      var event := FirstDecoded(env, st, f, s, id, changes);
      var st' := st.(pending := Some(st.pending.value + [event]));
      assert Step(env, st, sent, evs[0]) == Next(st', None);
      hide Step;
      assert sent + [] == sent;
      ChangesRun(env, flavor, f, s, id, changes[1..], st', sent);
      assert st.pending.value + [event] + all[1..] == st.pending.value + all;
    }
  }

  lemma FirstDecoded(env: Env, st: State, f: BinlogFormat, s: FakeBinlogStream, id: nat, changes: seq<Change>)
    returns (event: StreamEvent)
    requires id in st.tables && changes != [] && GoodChanges(env.lib, st.tables[id], f, s.timestamp, changes)
    ensures Decodable(env.lib, st.tables[id], changes[0], s.timestamp)
    ensures EncodableChange(f, st.tables[id].tableMap, changes[0])
    ensures EventFromRows(env.lib, st.tables[id], changes[0].rows, StatementOf(changes[0].typ), s.timestamp)
            == Ok(event)
    ensures GoodChanges(env.lib, st.tables[id], f, s.timestamp, changes[1..])
    ensures var all := Decoded(env.lib, st.tables[id], f, s.timestamp, changes);
            && all[0] == event
            && all[1..] == Decoded(env.lib, st.tables[id], f, s.timestamp, changes[1..])
  {
    hide EventFromRows, EncodableChange;
    event := EventFromRows(env.lib, st.tables[id], changes[0].rows, StatementOf(changes[0].typ), s.timestamp).value;
  }

  /** An XID event, or a statement that says COMMIT or ROLLBACK in any case. */
  predicate GoodEnding(ending: Ending) {
    ending.Statement? ==>
      Carried(ending.query) && (Says(ending.query.sql, "commit") || Says(ending.query.sql, "rollback"))
  }

  predicate RollsBack(ending: Ending) {
    ending.Statement? && Says(ending.query.sql, "rollback")
  }

  /** Rows in, rows out. A fresh reader that is given a format event, a BEGIN statement, a table map, any number of
      changes and an ending, as the encoders write them, delivers one transaction: from the start position to the
      position in the last event's header. If the ending is an XID event or a COMMIT statement, it has one stream
      event per change, in order, each of which is the decoding of the rows that were encoded
      (`Streamer.EventHoldsRows` says row by row what that is). After a ROLLBACK statement it has none. */
  lemma TransactionComesThrough(env: Env, flavor: Flavor, f: BinlogFormat, s: FakeBinlogStream, script: Script,
                                table: MysqlTable, at: Position)
    requires Encoder(f, s) && ShortEnough(StreamOf(flavor, f, s, script))
    requires Carried(script.begin) && Says(script.begin.sql, "begin")
    requires script.tableID < Pow256(6) && Encodable(script.tableMap) && JSON !in script.tableMap.types
    requires env.mapper(MysqlTableName(script.tableMap.database, script.tableMap.name)) == Some(table)
    requires |table.columns| == |script.tableMap.types|
    requires GoodChanges(env.lib, TableCache(script.tableMap, table), f, s.timestamp, script.changes)
    requires GoodEnding(script.ending)
    ensures var tc := TableCache(script.tableMap, table);
            var end := at.(offset := s.logPosition);
            var events := if RollsBack(script.ending) then [] else Decoded(env.lib, tc, f, s.timestamp, script.changes);
            var tran := Transaction(at, end, s.timestamp, events);
            Run(env, Initial(at), [], StreamOf(flavor, f, s, script))
            == if env.accepts([], tran) then
                 Running(State(f, end, map[script.tableID := tc], None, true), [tran])
               else Halted(end, SendFailed, [])
  {
    hide Interpret, Stripped, Encodable, Carried, Encoder, GoodChanges, Decoded, FormatEvent, QueryEvent, TableEvent,
         EndEvent, ChangeEvents, Pow256, Says, Run, Step;
    var tc := TableCache(script.tableMap, table);
    var changes := ChangeEvents(flavor, f, s, script.tableID, script.changes);
    Beginning(env, flavor, f, s, script, table, at);
    var front := [FormatEvent(flavor, f, s), QueryEvent(flavor, f, s, script.begin),
                  TableEvent(flavor, f, s, script.tableID, script.tableMap)];
    var last := [EndEvent(flavor, f, s, script.ending)];
    var all := StreamOf(flavor, f, s, script);
    assert all == front + (changes + last);
    ShortParts(front, changes, last);
    var st := State(f, at, map[script.tableID := tc], Some([]), false);
    RunConcat(env, Initial(at), [], front, changes + last);
    RunConcat(env, st, [], changes, last);
    ChangesRun(env, flavor, f, s, script.tableID, script.changes, st, []);
    var events := Decoded(env.lib, tc, f, s.timestamp, script.changes);
    assert [] + events == events;
    assert last[0] == EndEvent(flavor, f, s, script.ending);
    EndingRun(env, flavor, f, s, st.(pending := Some(events)), script.ending);
  }

  lemma ShortParts(front: seq<Event>, changes: seq<Event>, last: seq<Event>)
    requires ShortEnough(front + (changes + last))
    ensures ShortEnough(front) && ShortEnough(changes) && ShortEnough(last)
  {
    var all := front + (changes + last);
    assert forall i :: 0 <= i < |front| ==> front[i] == all[i];
    assert forall i :: 0 <= i < |changes| ==> changes[i] == all[|front| + i];
    assert forall i :: 0 <= i < |last| ==> last[i] == all[|front| + |changes| + i];
  }

  /** Format, BEGIN and table map. */
  lemma Beginning(env: Env, flavor: Flavor, f: BinlogFormat, s: FakeBinlogStream, script: Script, table: MysqlTable,
                  at: Position)
    requires Encoder(f, s) && ShortEnough(StreamOf(flavor, f, s, script))
    requires Carried(script.begin) && Says(script.begin.sql, "begin")
    requires script.tableID < Pow256(6) && Encodable(script.tableMap) && JSON !in script.tableMap.types
    requires env.mapper(MysqlTableName(script.tableMap.database, script.tableMap.name)) == Some(table)
    requires |table.columns| == |script.tableMap.types|
    ensures Run(env, Initial(at), [],
                [FormatEvent(flavor, f, s), QueryEvent(flavor, f, s, script.begin),
                 TableEvent(flavor, f, s, script.tableID, script.tableMap)])
            == Running(State(f, at, map[script.tableID := TableCache(script.tableMap, table)], Some([]), false), [])
  {
    hide Interpret, Stripped, Encodable, Carried, Encoder, FormatEvent, QueryEvent, TableEvent, EndEvent, ChangeEvents,
         Pow256, Says, Run;
    var e0, e1 := FormatEvent(flavor, f, s), QueryEvent(flavor, f, s, script.begin);
    var e2 := TableEvent(flavor, f, s, script.tableID, script.tableMap);
    var all := StreamOf(flavor, f, s, script);
    assert all[0] == e0 && all[1] == e1 && all[2] == e2;
    FormatMeaning(env, flavor, f, s, map[]);
    StatementMeaning(env, flavor, f, s, script.begin, map[]);
    TableMeaning(env, flavor, f, s, script.tableID, script.tableMap, table);
    var st0 := Initial(at);
    var st1 := st0.(format := f);
    var st2 := st1.(pending := Some([]), autocommit := false);
    var st3 := st2.(tables := map[script.tableID := TableCache(script.tableMap, table)]);
    assert Step(env, st0, [], e0) == Next(st1, None);
    assert Step(env, st1, [], e1) == Next(st2, None);
    assert Step(env, st2, [], e2) == Next(st3, None);
    ThreeSteps(env, st0, st1, st2, st3, e0, e1, e2);
  }

  lemma ThreeSteps(env: Env, st0: State, st1: State, st2: State, st3: State, e0: Event, e1: Event, e2: Event)
    requires Step(env, st0, [], e0) == Next(st1, None)
    requires Step(env, st1, [], e1) == Next(st2, None)
    requires Step(env, st2, [], e2) == Next(st3, None)
    ensures Run(env, st0, [], [e0, e1, e2]) == Running(st3, [])
  {
    hide Step;
    var none: seq<Transaction> := [];
    assert none + Delivered(None) == none;
    assert [e0, e1, e2][1..] == [e1, e2] && [e1, e2][1..] == [e2] && [e2][1..] == [];
    assert Run(env, st2, none, [e2]) == Running(st3, none);
    assert Run(env, st1, none, [e1, e2]) == Running(st3, none);
  }

  /** The last event closes the transaction. */
  lemma EndMeaning(env: Env, flavor: Flavor, f: BinlogFormat, s: FakeBinlogStream, ending: Ending,
                   tables: map<nat, TableCache>)
    requires Encoder(f, s) && GoodEnding(ending) && |EndEvent(flavor, f, s, ending).buf| < 0x1_0000_0000
    ensures var ev := EndEvent(flavor, f, s, ending);
            && Interpret(env, f, tables, ev) == (if RollsBack(ending) then RollbackTran else CommitTran)
            && NextPosition(Stripped(f, ev)) == Ok(s.logPosition)
            && |Stripped(f, ev)| >= 4 && LE(Stripped(f, ev)[..4]) == s.timestamp
  {
    hide Interpret, Stripped, Packetize, Encoder, NextPosition, LE, Says, QueryBody, Carried;
    if ending.Xid? {
      PacketMeaning(env, flavor, f, s, XID_EVENT, Zeros(8), tables);
    } else {
      PacketMeaning(env, flavor, f, s, QUERY_EVENT, QueryBody(ending.query), tables);
      StatementMeaning(env, flavor, f, s, ending.query, tables);
    }
  }

  lemma EndingRun(env: Env, flavor: Flavor, f: BinlogFormat, s: FakeBinlogStream, st: State, ending: Ending)
    requires Encoder(f, s) && st.format == f && st.pending.Some? && GoodEnding(ending)
    requires |EndEvent(flavor, f, s, ending).buf| < 0x1_0000_0000
    ensures var end := st.pos.(offset := s.logPosition);
            var tran := Transaction(st.pos, end, s.timestamp, if RollsBack(ending) then [] else st.pending.value);
            Run(env, st, [], [EndEvent(flavor, f, s, ending)])
            == if env.accepts([], tran) then Running(st.(pos := end, pending := None, autocommit := true), [tran])
               else Halted(end, SendFailed, [])
  {
    hide Interpret, Stripped, Encoder, NextPosition, LE, EndEvent, GoodEnding, RollsBack;
    EndMeaning(env, flavor, f, s, ending, st.tables);
    var evs := [EndEvent(flavor, f, s, ending)];
    assert evs[0] == EndEvent(flavor, f, s, ending) && evs[1..] == [];
    var none: seq<Transaction> := [];
    var end := st.pos.(offset := s.logPosition);
    var tran := Transaction(st.pos, end, s.timestamp, if RollsBack(ending) then [] else st.pending.value);
    assert none + [tran] == [tran];
  }
}
