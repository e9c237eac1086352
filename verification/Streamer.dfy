/** The streamer: grouping the events of a binlog stream into transactions. */
module Streamer {
  import opened Results
  import opened Bytes
  import opened Events
  import opened Queries
  import opened Cells
  import opened RowEvents
  import opened RowWalk
  import opened Statements
  import opened TableMaps

  datatype StatementType = StatementInsert | StatementUpdate | StatementDelete

  datatype StreamEvent = StreamEvent(
    typ: StatementType,
    timestamp: nat,
    table: MysqlTableName,
    rowValues: seq<RowData>,
    rowIdentifies: seq<RowData>)

  datatype Position = Position(filename: bytes, offset: int)

  const ZERO_POSITION := Position([], 0)

  datatype Transaction = Transaction(now: Position, next: Position, timestamp: nat, events: seq<StreamEvent>)

  /** What surrounds a run: library printing, the table mapper, and the callback that takes the transactions,
      which may look at what it was given before. */
  datatype Env = Env(
    lib: Library,
    mapper: MysqlTableName -> Option<MysqlTable>,
    accepts: (seq<Transaction>, Transaction) -> bool)

  // ---------- rows to stream events ----------

  /** The decoded images of the rows from i on: where-images if identify is set, then value-images if values is. */
  function DecodeImages(lib: Library, tc: TableCache, rs: RowsEvent, identify: bool, values: bool, i: nat)
    : Result<(seq<RowData>, seq<RowData>)>
    requires i <= |rs.rows|
    decreases |rs.rows| - i
  {
    if i == |rs.rows| then Ok(([], []))
    else
      var before :- if identify then GetIdentifiesFromRow(lib, tc, rs, i) else Ok(RowData([]));
      var after :- if values then GetValuesFromRow(lib, tc, rs, i) else Ok(RowData([]));
      var rest :- DecodeImages(lib, tc, rs, identify, values, i + 1);
      Ok(((if identify then [before] else []) + rest.0, (if values then [after] else []) + rest.1))
  }

  /** Updates and deletes have where-images, inserts and updates value-images. */
  predicate HasIdentifies(typ: StatementType) { typ != StatementInsert }
  predicate HasValues(typ: StatementType) { typ != StatementDelete }

  function EventFromRows(lib: Library, tc: TableCache, rs: RowsEvent, typ: StatementType, timestamp: nat)
    : Result<StreamEvent>
  {
    var images :- DecodeImages(lib, tc, rs, HasIdentifies(typ), HasValues(typ), 0);
    Ok(StreamEvent(typ, timestamp, tc.table.name, images.1, images.0))
  }

  function JoinImages(b: seq<RowData>, a: seq<RowData>, r: Result<(seq<RowData>, seq<RowData>)>)
    : (all: Result<(seq<RowData>, seq<RowData>)>)
    ensures b == [] && a == [] ==> all == r
    ensures r == Ok(([], [])) ==> all == Ok((b, a))
    ensures r.Err? ==> all == r
  {
    if r.Ok? then
      assert [] + r.value.0 == r.value.0 && [] + r.value.1 == r.value.1;
      assert b + [] == b && a + [] == a;
      Ok((b + r.value.0, a + r.value.1))
    else r
  }

  /** The append loops of the three kinds of rows event. */
  method AppendEventFromRows(lib: Library, tc: TableCache, rs: RowsEvent, typ: StatementType, timestamp: nat)
    returns (r: Result<StreamEvent>)
    ensures r == EventFromRows(lib, tc, rs, typ, timestamp)
  {
    hide WalkRow;
    var identify, values := HasIdentifies(typ), HasValues(typ);
    var identifies, rowValues := [], [];
    for i := 0 to |rs.rows|
      invariant JoinImages(identifies, rowValues, DecodeImages(lib, tc, rs, identify, values, i))
             == DecodeImages(lib, tc, rs, identify, values, 0)
    {
      ghost var rest := DecodeImages(lib, tc, rs, identify, values, i + 1);
      ghost var b0, a0 := identifies, rowValues;
      if identify {
        var row := DecodeRow(lib, tc, rs.rows[i].identify, rs.identifyColumns, rs.rows[i].nullIdentifyColumns);
        if row.Err? { return Err(row.error); }
        identifies := identifies + [RowData(row.value.0)];
      }
      if values {
        var row := DecodeRow(lib, tc, rs.rows[i].data, rs.dataColumns, rs.rows[i].nullColumns);
        if row.Err? { return Err(row.error); }
        rowValues := rowValues + [RowData(row.value.0)];
      }
      if rest.Ok? {
        JoinAssoc(b0, identifies[|b0|..], rest.value.0);
        JoinAssoc(a0, rowValues[|a0|..], rest.value.1);
        assert identifies == b0 + identifies[|b0|..] && rowValues == a0 + rowValues[|a0|..];
      }
    }
    r := Ok(StreamEvent(typ, timestamp, tc.table.name, rowValues, identifies));
  }

  lemma JoinAssoc<T>(a: seq<T>, b: seq<T>, c: seq<T>)
    ensures a + (b + c) == a + b + c
  {
  }

  // ---------- what a stream event holds ----------

  /** The images wanted of row i can be decoded. */
  predicate RowDecodes(lib: Library, tc: TableCache, rs: RowsEvent, typ: StatementType, i: nat)
    requires i < |rs.rows|
  {
    && (HasIdentifies(typ) ==> GetIdentifiesFromRow(lib, tc, rs, i).Ok?)
    && (HasValues(typ) ==> GetValuesFromRow(lib, tc, rs, i).Ok?)
  }

  /** Row k is the first from i on that cannot be decoded, and this is its error: the where-image is tried first. */
  predicate FailsFirst(lib: Library, tc: TableCache, rs: RowsEvent, typ: StatementType, i: nat, k: nat, error: Error)
    requires i <= k < |rs.rows|
  {
    && (forall j :: i <= j < k ==> RowDecodes(lib, tc, rs, typ, j))
    && !RowDecodes(lib, tc, rs, typ, k)
    && Err(error) == if HasIdentifies(typ) && GetIdentifiesFromRow(lib, tc, rs, k).Err?
                     then GetIdentifiesFromRow(lib, tc, rs, k) else GetValuesFromRow(lib, tc, rs, k)
  }

  /** Images of the rows from i on, one per row and in row order, where they are wanted. */
  predicate ImagesOf(lib: Library, tc: TableCache, rs: RowsEvent, typ: StatementType, i: nat,
                     before: seq<RowData>, after: seq<RowData>)
    requires i <= |rs.rows|
  {
    && |before| == (if HasIdentifies(typ) then |rs.rows| - i else 0)
    && |after| == (if HasValues(typ) then |rs.rows| - i else 0)
    && forall j :: i <= j < |rs.rows| ==>
         && (HasIdentifies(typ) ==> GetIdentifiesFromRow(lib, tc, rs, j) == Ok(before[j - i]))
         && (HasValues(typ) ==> GetValuesFromRow(lib, tc, rs, j) == Ok(after[j - i]))
  }

  lemma {:induction false} ImagesInOrder(lib: Library, tc: TableCache, rs: RowsEvent, typ: StatementType, i: nat)
    requires i <= |rs.rows|
    ensures var all := DecodeImages(lib, tc, rs, HasIdentifies(typ), HasValues(typ), i);
            if all.Ok? then ImagesOf(lib, tc, rs, typ, i, all.value.0, all.value.1)
            else exists k :: i <= k < |rs.rows| && FailsFirst(lib, tc, rs, typ, i, k, all.error)
    decreases |rs.rows| - i
  {
    hide GetIdentifiesFromRow, GetValuesFromRow, ImagesOf, FailsFirst, HasIdentifies, HasValues;
    if i == |rs.rows| {
      NoImages(lib, tc, rs, typ);
    } else {
      ImagesInOrder(lib, tc, rs, typ, i + 1);
      var all := DecodeImages(lib, tc, rs, HasIdentifies(typ), HasValues(typ), i);
      if !RowDecodes(lib, tc, rs, typ, i) {
        ThisFails(lib, tc, rs, typ, i);
      } else if all.Err? {
        var k :| i + 1 <= k < |rs.rows| && FailsFirst(lib, tc, rs, typ, i + 1, k, all.error);
        LaterFails(lib, tc, rs, typ, i, k, all.error);
      } else {
        var rest := DecodeImages(lib, tc, rs, HasIdentifies(typ), HasValues(typ), i + 1).value;
        ImagesCons(lib, tc, rs, typ, i, rest.0, rest.1);
      }
    }
  }

  lemma ThisFails(lib: Library, tc: TableCache, rs: RowsEvent, typ: StatementType, i: nat)
    requires i < |rs.rows| && !RowDecodes(lib, tc, rs, typ, i)
    ensures var all := DecodeImages(lib, tc, rs, HasIdentifies(typ), HasValues(typ), i);
            all.Err? && FailsFirst(lib, tc, rs, typ, i, i, all.error)
  {
    hide GetIdentifiesFromRow, GetValuesFromRow;
  }

  lemma LaterFails(lib: Library, tc: TableCache, rs: RowsEvent, typ: StatementType, i: nat, k: nat, error: Error)
    requires i + 1 <= k < |rs.rows| && RowDecodes(lib, tc, rs, typ, i)
    requires FailsFirst(lib, tc, rs, typ, i + 1, k, error)
    ensures FailsFirst(lib, tc, rs, typ, i, k, error)
  {
    hide GetIdentifiesFromRow, GetValuesFromRow;
  }

  lemma NoImages(lib: Library, tc: TableCache, rs: RowsEvent, typ: StatementType)
    ensures ImagesOf(lib, tc, rs, typ, |rs.rows|, [], [])
  {
  }

  lemma ImagesCons(lib: Library, tc: TableCache, rs: RowsEvent, typ: StatementType, i: nat,
                   before: seq<RowData>, after: seq<RowData>)
    requires i < |rs.rows| && ImagesOf(lib, tc, rs, typ, i + 1, before, after)
    requires RowDecodes(lib, tc, rs, typ, i)
    ensures ImagesOf(lib, tc, rs, typ, i,
                     (if HasIdentifies(typ) then [GetIdentifiesFromRow(lib, tc, rs, i).value] else []) + before,
                     (if HasValues(typ) then [GetValuesFromRow(lib, tc, rs, i).value] else []) + after)
  {
    hide GetIdentifiesFromRow, GetValuesFromRow;
  }

  /** A stream event has exactly the images of the rows of its rows event: where-images for updates and deletes,
      value-images for inserts and updates, one per row and in row order. There is none exactly if a row cannot
      be decoded, and then the first such row gives the error. */
  lemma EventHoldsRows(lib: Library, tc: TableCache, rs: RowsEvent, typ: StatementType, timestamp: nat)
    ensures match EventFromRows(lib, tc, rs, typ, timestamp)
            case Ok(ev) =>
              && ev.typ == typ && ev.timestamp == timestamp && ev.table == tc.table.name
              && ImagesOf(lib, tc, rs, typ, 0, ev.rowIdentifies, ev.rowValues)
            case Err(error) =>
              exists k :: 0 <= k < |rs.rows| && FailsFirst(lib, tc, rs, typ, 0, k, error)
  {
    hide DecodeImages, ImagesOf, FailsFirst;
    ImagesInOrder(lib, tc, rs, typ, 0);
    var images := DecodeImages(lib, tc, rs, HasIdentifies(typ), HasValues(typ), 0);
    if images.Err? {
      var k :| 0 <= k < |rs.rows| && FailsFirst(lib, tc, rs, typ, 0, k, images.error);
      assert EventFromRows(lib, tc, rs, typ, timestamp) == Err(images.error);
    }
  }

  // ---------- what an event means under a format and the table cache ----------

  /** Why the loop stops: an error of decoding, or one of its own. */
  datatype Stop =
    | Undecodable(error: Error)
    | InvalidEvent
    | EventBeforeFormat
    | UnknownTableId
    | MapperFailed
    | ColumnCountMismatch   // the mapper's table has not the columns of the table map
    | SendFailed
    | UnsupportedEvent
    | StreamEOF
    | ContextDone

  datatype Action =
    | Quiet
    | SetFormat(format: BinlogFormat)
    | Relocate(to: Position)
    | BeginTran
    | CommitTran
    | RollbackTran
    | CacheTable(id: nat, table: TableCache)
    | AddRows(event: StreamEvent)
    | Fail(atZero: bool, error: Stop)   // atZero: the zero position is returned with the error

  function TableMapAction(env: Env, f: BinlogFormat, tables: map<nat, TableCache>, buf: bytes): Action
    requires |buf| >= 5
  {
    var id := TableID(buf, f);
    var tm := DecodeTableMap(buf, f);
    if id.Err? then Fail(false, Undecodable(id.error))
    else if tm.Err? then Fail(false, Undecodable(tm.error))
    else if id.value in tables then CacheTable(id.value, tables[id.value].(tableMap := tm.value))
    else
      var info := env.mapper(MysqlTableName(tm.value.database, tm.value.name));
      if info.None? then Fail(false, MapperFailed)
      else if |info.value.columns| != tm.value.canBeNull.count then Fail(true, ColumnCountMismatch)
      else CacheTable(id.value, TableCache(tm.value, info.value))
  }

  function RowsAction(env: Env, f: BinlogFormat, tables: map<nat, TableCache>, buf: bytes, typ: StatementType): Action
    requires |buf| >= 5
  {
    var id := TableID(buf, f);
    if id.Err? then Fail(false, Undecodable(id.error))
    else if id.value !in tables then Fail(false, UnknownTableId)
    else
      var tc := tables[id.value];
      var rows := DecodeRows(buf, f, tc.tableMap);
      if rows.Err? then Fail(false, Undecodable(rows.error))
      else
        var timestamp := Timestamp(buf);
        var ev := EventFromRows(env.lib, tc, rows.value, typ, timestamp.value);
        if ev.Err? then Fail(false, Undecodable(ev.error)) else AddRows(ev.value)
  }

  function QueryAction(f: BinlogFormat, buf: bytes): Action {
    var q := DecodeQuery(buf, f);
    if q.Err? then Fail(false, Undecodable(q.error))
    else
      match StatementCategory(q.value.sql)
      case BeginStatement => BeginTran
      case CommitStatement => CommitTran
      case RollbackStatement => RollbackTran
      case OtherStatement => Quiet
  }

  function RotateAction(f: BinlogFormat, buf: bytes): Action {
    var r := Rotate(buf, f);
    if r.Err? then Fail(false, Undecodable(r.error)) else Relocate(Position(r.value.0, r.value.1))
  }

  function IsWriteRows(typ: byte): bool { typ == WRITE_ROWS_V1 || typ == WRITE_ROWS_V2 }
  function IsUpdateRows(typ: byte): bool { typ == UPDATE_ROWS_V1 || typ == UPDATE_ROWS_V2 }
  function IsDeleteRows(typ: byte): bool { typ == DELETE_ROWS_V1 || typ == DELETE_ROWS_V2 }

  function BodyAction(env: Env, f: BinlogFormat, tables: map<nat, TableCache>, buf: bytes): Action
    requires |buf| >= 5
  {
    var typ := Type(buf);
    if typ == XID_EVENT then CommitTran
    else if typ == ROTATE_EVENT then RotateAction(f, buf)
    else if typ == QUERY_EVENT then QueryAction(f, buf)
    else if typ == TABLE_MAP_EVENT then TableMapAction(env, f, tables, buf)
    else if IsWriteRows(typ) then RowsAction(env, f, tables, buf, StatementInsert)
    else if IsUpdateRows(typ) then RowsAction(env, f, tables, buf, StatementUpdate)
    else if IsDeleteRows(typ) then RowsAction(env, f, tables, buf, StatementDelete)
    else if typ == RAND_EVENT || typ == INTVAR_EVENT || typ == ROWS_QUERY_EVENT then Fail(false, UnsupportedEvent)
    else Quiet
  }

  /** The event as the cases of the loop see it: its packet without the checksum. */
  function Stripped(f: BinlogFormat, ev: Event): bytes {
    var e := StripChecksum(ev, f);
    if e.Ok? then e.value.buf else []
  }

  function Interpret(env: Env, f: BinlogFormat, tables: map<nat, TableCache>, ev: Event): Action {
    if !IsValid(ev.buf) then Fail(false, InvalidEvent)
    else if Type(ev.buf) == FORMAT_DESCRIPTION_EVENT then
      var format := Format(ev.buf);
      if format.Ok? then SetFormat(format.value) else Fail(false, Undecodable(format.error))
    else if IsZeroFormat(f) then
      if Type(ev.buf) == ROTATE_EVENT then Quiet else Fail(false, EventBeforeFormat)
    else
      var e := StripChecksum(ev, f);
      if e.Err? then Fail(false, Undecodable(e.error)) else BodyAction(env, f, tables, e.value.buf)
  }

  // ---------- the state machine ----------

  /** pending is Go's tranEvents: None is nil. */
  datatype State = State(
    format: BinlogFormat,
    pos: Position,
    tables: map<nat, TableCache>,
    pending: Option<seq<StreamEvent>>,
    autocommit: bool)

  function Initial(pos: Position): State {
    State(ZERO_FORMAT, pos, map[], None, true)
  }

  datatype StepResult =
    | Next(st: State, out: Option<Transaction>)
    | Halt(pos: Position, error: Stop)

  function OrNone(pending: Option<seq<StreamEvent>>): seq<StreamEvent> {
    if pending.None? then [] else pending.value
  }

  /** The commit closure: the position advances before the callback is asked. */
  function Commit(env: Env, st: State, sent: seq<Transaction>, buf: bytes): StepResult {
    var offset := NextPosition(buf);
    if offset.Err? then Halt(st.pos, Undecodable(offset.error))
    else
      var next := st.pos.(offset := offset.value);
      var tran := Transaction(st.pos, next, LE(buf[..4]), OrNone(st.pending));
      if env.accepts(sent, tran) then Next(st.(pos := next, pending := None, autocommit := true), Some(tran))
      else Halt(next, SendFailed)
  }

  function Apply(env: Env, st: State, sent: seq<Transaction>, buf: bytes, action: Action): StepResult {
    match action
    case Quiet => Next(st, None)
    case SetFormat(f) => Next(st.(format := f), None)
    case Relocate(to) => Next(st.(pos := to), None)
    case BeginTran => Next(st.(pending := Some([]), autocommit := false), None)
    case CommitTran => Commit(env, st, sent, buf)
    case RollbackTran => Commit(env, st.(pending := None), sent, buf)
    case CacheTable(id, tc) => Next(st.(tables := st.tables[id := tc]), None)
    case AddRows(event) =>
      var st' := st.(pending := Some(OrNone(st.pending) + [event]));
      if st.autocommit then Commit(env, st', sent, buf) else Next(st', None)
    case Fail(atZero, error) => Halt(if atZero then ZERO_POSITION else st.pos, error)
  }

  function Step(env: Env, st: State, sent: seq<Transaction>, ev: Event): StepResult {
    Apply(env, st, sent, Stripped(st.format, ev), Interpret(env, st.format, st.tables, ev))
  }

  datatype RunResult =
    | Running(st: State, sent: seq<Transaction>)
    | Halted(pos: Position, error: Stop, sent: seq<Transaction>)

  function Delivered(out: Option<Transaction>): seq<Transaction> {
    if out.None? then [] else [out.value]
  }

  /** The loop over a stream of events, from a state in which `sent` has been delivered. */
  function Run(env: Env, st: State, sent: seq<Transaction>, evs: seq<Event>): RunResult
    decreases |evs|
  {
    if evs == [] then Running(st, sent)
    else
      match Step(env, st, sent, evs[0])
      case Halt(pos, error) => Halted(pos, error, sent)
      case Next(st', out) => Run(env, st', sent + Delivered(out), evs[1..])
  }
}
