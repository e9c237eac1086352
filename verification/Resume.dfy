/** Stopping a run and resuming at the returned position delivers what one uninterrupted run delivers. */
module Resume {
  import opened Results
  import opened Bytes
  import opened Events
  import opened Queries
  import opened RowEvents
  import opened RowWalk
  import opened TableMaps
  import opened Statements
  import opened Streamer
  import opened StreamFacts

  // ---------- what a server sends ----------

  /** A binlog: its events, the position where each starts, and the position behind the last. */
  datatype Log = Log(starts: seq<Position>, events: seq<Event>)

  /** The target of a rotate event. */
  function RotateTarget(f: BinlogFormat, ev: Event): Position {
    var a := RotateAction(f, Stripped(f, ev));
    if a.Relocate? then a.to else ZERO_POSITION
  }

  /** Where the log continues behind an event that starts at `at`. */
  function Behind(f: BinlogFormat, at: Position, ev: Event): Position {
    if |ev.buf| >= 5 && Type(ev.buf) == ROTATE_EVENT then RotateTarget(f, ev)
    else
      var offset := NextPosition(ev.buf);
      Position(at.filename, if offset.Ok? then offset.value else 0)
  }

  function NextFormat(f: BinlogFormat, ev: Event): BinlogFormat {
    if |ev.buf| >= 5 && Type(ev.buf) == FORMAT_DESCRIPTION_EVENT && Format(ev.buf).Ok? then Format(ev.buf).value else f
  }

  /** Every event's next position (a rotate event's target) is where the following event starts. */
  predicate Linked(f: BinlogFormat, starts: seq<Position>, evs: seq<Event>)
    decreases |evs|
  {
    && |starts| == |evs| + 1
    && (evs != [] ==>
          && starts[1] == Behind(f, starts[0], evs[0])
          && Linked(NextFormat(f, evs[0]), starts[1..], evs[1..]))
  }

  /** The fake rotate event and the format event a server sends first, and then its log from index k on. */
  predicate Opening(rotate: Event, fde: Event, f: BinlogFormat) {
    && IsValid(rotate.buf) && Type(rotate.buf) == ROTATE_EVENT
    && IsValid(fde.buf) && Type(fde.buf) == FORMAT_DESCRIPTION_EVENT && Format(fde.buf) == Ok(f)
  }

  function Dump(rotate: Event, fde: Event, log: Log, k: nat): seq<Event>
    requires k <= |log.events|
  {
    [rotate, fde] + log.events[k..]
  }

  // ---------- the discipline of a stream ----------

  /** Which table, and how many columns, a table id stands for. */
  type Names = map<nat, (MysqlTableName, nat)>

  /** Type of the event as the loop's cases see it, and its table id. */
  predicate IsCase(f: BinlogFormat, ev: Event, typ: byte) {
    |Stripped(f, ev)| >= 5 && Type(Stripped(f, ev)) == typ
  }

  /** A table map event says of its table id what the assignment says. */
  predicate NamedRight(names: Names, f: BinlogFormat, ev: Event) {
    var buf := Stripped(f, ev);
    |buf| >= 5 && Type(buf) == TABLE_MAP_EVENT && TableID(buf, f).Ok? && DecodeTableMap(buf, f).Ok? ==>
      var id, tm := TableID(buf, f).value, DecodeTableMap(buf, f).value;
      id in names && names[id] == (MysqlTableName(tm.database, tm.name), tm.canBeNull.count)
  }

  /** A rows event uses a table id from `seen`. */
  predicate MappedBefore(seen: set<nat>, f: BinlogFormat, ev: Event) {
    var buf := Stripped(f, ev);
    |buf| >= 5 && (IsWriteRows(Type(buf)) || IsUpdateRows(Type(buf)) || IsDeleteRows(Type(buf)))
    && TableID(buf, f).Ok? ==>
      TableID(buf, f).value in seen
  }

  function Seen(seen: set<nat>, a: Action, out: Option<Transaction>): set<nat> {
    if out.Some? || a.Relocate? then {} else if a.CacheTable? then seen + {a.id} else seen
  }

  /** Table ids are stable, rows events follow a table map event since the position last moved, and rotate
      events stand outside transactions. */
  predicate Disciplined(env: Env, names: Names, st: State, sent: seq<Transaction>, seen: set<nat>, evs: seq<Event>)
    decreases |evs|
  {
    evs == []
    || (var a := Interpret(env, st.format, st.tables, evs[0]);
        && (a.Relocate? ==> st.pending == None)
        && NamedRight(names, st.format, evs[0])
        && MappedBefore(seen, st.format, evs[0])
        && match Step(env, st, sent, evs[0])
           case Halt(_, _) => true
           case Next(st', out) => Disciplined(env, names, st', sent + Delivered(out), Seen(seen, a, out), evs[1..]))
  }

  ghost predicate AcceptsAll(env: Env) {
    forall sent, tran :: env.accepts(sent, tran)
  }

  // ---------- the simulation ----------

  /** Every cached table is what the mapper says about the name its id stands for. */
  predicate CachedRight(env: Env, names: Names, tables: map<nat, TableCache>) {
    forall id :: id in tables ==>
      id in names && env.mapper(names[id].0) == Some(tables[id].table) && |tables[id].table.columns| == names[id].1
  }

  /** The resumed cache is a part of the uninterrupted one that has what the rows events need. */
  predicate CacheWithin(seen: set<nat>, resumed: map<nat, TableCache>, full: map<nat, TableCache>) {
    && (forall id :: id in seen ==> id in resumed)
    && (forall id :: id in resumed ==> id in full && resumed[id] == full[id])
  }

  lemma SameTableMap(env: Env, names: Names, f: BinlogFormat, full: map<nat, TableCache>, resumed: map<nat, TableCache>,
                     seen: set<nat>, ev: Event)
    requires CachedRight(env, names, full) && CacheWithin(seen, resumed, full) && NamedRight(names, f, ev)
    requires IsCase(f, ev, TABLE_MAP_EVENT)
    ensures var buf := Stripped(f, ev);
            TableMapAction(env, f, full, buf) == TableMapAction(env, f, resumed, buf)
    ensures var a := TableMapAction(env, f, full, Stripped(f, ev));
            a.CacheTable? ==> CachedRight(env, names, full[a.id := a.table])
  {
    hide TableID, DecodeTableMap, Stripped;
  }

  lemma SameRows(env: Env, f: BinlogFormat, full: map<nat, TableCache>, resumed: map<nat, TableCache>,
                 seen: set<nat>, ev: Event, typ: StatementType)
    requires CacheWithin(seen, resumed, full) && MappedBefore(seen, f, ev)
    requires |Stripped(f, ev)| >= 5
    requires var t := Type(Stripped(f, ev)); IsWriteRows(t) || IsUpdateRows(t) || IsDeleteRows(t)
    ensures var buf := Stripped(f, ev);
            RowsAction(env, f, full, buf, typ) == RowsAction(env, f, resumed, buf, typ)
            && !RowsAction(env, f, full, buf, typ).CacheTable?
  {
    hide TableID, DecodeRows, Stripped, EventFromRows;
  }

  lemma SameBody(env: Env, names: Names, f: BinlogFormat, full: map<nat, TableCache>, resumed: map<nat, TableCache>,
                 seen: set<nat>, ev: Event)
    requires CachedRight(env, names, full) && CacheWithin(seen, resumed, full)
    requires NamedRight(names, f, ev) && MappedBefore(seen, f, ev) && |Stripped(f, ev)| >= 5
    ensures var buf := Stripped(f, ev);
            && BodyAction(env, f, full, buf) == BodyAction(env, f, resumed, buf)
            && var a := BodyAction(env, f, full, buf);
            a.CacheTable? ==> CachedRight(env, names, full[a.id := a.table])
  {
    hide Stripped, TableMapAction, RowsAction, CachedRight, CacheWithin, NamedRight, MappedBefore;
    var typ := Type(Stripped(f, ev));
    if typ == TABLE_MAP_EVENT {
      SameTableMap(env, names, f, full, resumed, seen, ev);
    } else if IsWriteRows(typ) {
      SameRows(env, f, full, resumed, seen, ev, StatementInsert);
    } else if IsUpdateRows(typ) {
      SameRows(env, f, full, resumed, seen, ev, StatementUpdate);
    } else if IsDeleteRows(typ) {
      SameRows(env, f, full, resumed, seen, ev, StatementDelete);
    } else {
      OtherBody(f, Stripped(f, ev));
    }
  }

  lemma OtherBody(f: BinlogFormat, buf: bytes)
    ensures !QueryAction(f, buf).CacheTable? && !RotateAction(f, buf).CacheTable?
  {
    hide DecodeQuery, StatementCategory, Rotate;
  }

  /** In a disciplined stream an event means the same under the resumed cache. */
  lemma SameMeaning(env: Env, names: Names, f: BinlogFormat, full: map<nat, TableCache>, resumed: map<nat, TableCache>,
                    seen: set<nat>, ev: Event)
    requires CachedRight(env, names, full) && CacheWithin(seen, resumed, full)
    requires NamedRight(names, f, ev) && MappedBefore(seen, f, ev)
    ensures Interpret(env, f, full, ev) == Interpret(env, f, resumed, ev)
    ensures var a := Interpret(env, f, full, ev);
            a.CacheTable? ==> CachedRight(env, names, full[a.id := a.table])
  {
    hide BodyAction, CachedRight, CacheWithin, NamedRight, MappedBefore, Format;
    if IsValid(ev.buf) && StripChecksum(ev, f).Ok? {
      SameBody(env, names, f, full, resumed, seen, ev);
    }
  }

  /** The two states differ in their caches only. */
  predicate Alike(st: State, resumed: State, seen: set<nat>) {
    st == resumed.(tables := st.tables) && CacheWithin(seen, resumed.tables, st.tables)
  }

  lemma StepAlike(env: Env, names: Names, st: State, resumed: State, sent: seq<Transaction>,
                  resumedSent: seq<Transaction>, seen: set<nat>, ev: Event)
    requires AcceptsAll(env) && CachedRight(env, names, st.tables) && Alike(st, resumed, seen)
    requires NamedRight(names, st.format, ev) && MappedBefore(seen, st.format, ev)
    ensures var s, s' := Step(env, st, sent, ev), Step(env, resumed, resumedSent, ev);
            if s.Halt? then s' == s
            else
              s'.Next? && s'.out == s.out && CachedRight(env, names, s.st.tables)
              && Alike(s.st, s'.st, Seen(seen, Interpret(env, st.format, st.tables, ev), s.out))
  {
    hide Interpret, Stripped, NamedRight, MappedBefore, CachedRight;
    SameMeaning(env, names, st.format, st.tables, resumed.tables, seen, ev);
  }

  /** From alike states both runs deliver the same transactions and end alike. */
  lemma {:induction false} RunAlike(env: Env, names: Names, st: State, resumed: State, sent: seq<Transaction>,
                                    resumedSent: seq<Transaction>, seen: set<nat>, evs: seq<Event>)
    returns (more: seq<Transaction>)
    requires AcceptsAll(env) && CachedRight(env, names, st.tables) && Alike(st, resumed, seen)
    requires Disciplined(env, names, st, sent, seen, evs)
    ensures var r, r' := Run(env, st, sent, evs), Run(env, resumed, resumedSent, evs);
            && r.sent == sent + more && r'.sent == resumedSent + more
            && (if r.Running? then r'.Running? && r'.st == r.st.(tables := r'.st.tables)
                else r'.Halted? && r'.pos == r.pos && r'.error == r.error)
    decreases |evs|
  {
    hide Step, AcceptsAll, CachedRight, CacheWithin, NamedRight, MappedBefore, Interpret, Seen;
    more := [];
    assert sent + [] == sent && resumedSent + [] == resumedSent;
    if evs != [] {
      StepAlike(env, names, st, resumed, sent, resumedSent, seen, evs[0]);
      var s, s' := Step(env, st, sent, evs[0]), Step(env, resumed, resumedSent, evs[0]);
      if s.Next? {
        var a := Interpret(env, st.format, st.tables, evs[0]);
        var rest := RunAlike(env, names, s.st, s'.st, sent + Delivered(s.out), resumedSent + Delivered(s.out),
                             Seen(seen, a, s.out), evs[1..]);
        more := Delivered(s.out) + rest;
        assert sent + Delivered(s.out) + rest == sent + more;
        assert resumedSent + Delivered(s.out) + rest == resumedSent + more;
      }
    }
  }

  // ---------- where a run stands in the log ----------

  /** The state a run is in once the server's opening events are read. */
  function Opened(start: Position, f: BinlogFormat): State {
    Initial(start).(format := f)
  }

  function FormatAt(f: BinlogFormat, evs: seq<Event>, n: nat): BinlogFormat
    requires n <= |evs|
    decreases n
  {
    if n == 0 then f else FormatAt(NextFormat(f, evs[0]), evs[1..], n - 1)
  }

  lemma FormatIsNotZero(buf: bytes)
    ensures Format(buf).Ok? ==> !IsZeroFormat(Format(buf).value)
  {
    hide TrimRightZeros;
  }

  lemma StripKeepsType(f: BinlogFormat, ev: Event)
    requires |ev.buf| >= 19 && StripChecksum(ev, f).Ok?
    ensures |Stripped(f, ev)| >= 5 && Type(Stripped(f, ev)) == Type(ev.buf)
  {
  }

  /** Which actions come from which event types, under a known format. */
  lemma ActionTypes(env: Env, f: BinlogFormat, tables: map<nat, TableCache>, ev: Event)
    requires !IsZeroFormat(f)
    ensures var a := Interpret(env, f, tables, ev);
            !a.Fail? ==>
              && |ev.buf| >= 19
              && (a.SetFormat? <==> Type(ev.buf) == FORMAT_DESCRIPTION_EVENT)
              && (a.SetFormat? ==> Format(ev.buf) == Ok(a.format) && !IsZeroFormat(a.format))
              && (a.Relocate? <==> Type(ev.buf) == ROTATE_EVENT)
              && (a.Relocate? ==> a.to == RotateTarget(f, ev))
  {
    hide TableMapAction, RowsAction, QueryAction, Format, StripChecksum, RotateAction, IsZeroFormat;
    FormatIsNotZero(ev.buf);
    if IsValid(ev.buf) && StripChecksum(ev, f).Ok? {
      StripKeepsType(f, ev);
      BodyTypes(env, f, tables, Stripped(f, ev));
    }
  }

  lemma BodyTypes(env: Env, f: BinlogFormat, tables: map<nat, TableCache>, buf: bytes)
    requires |buf| >= 5
    ensures var a := BodyAction(env, f, tables, buf);
            && !a.SetFormat?
            && (!a.Fail? ==> (a.Relocate? <==> Type(buf) == ROTATE_EVENT))
            && (Type(buf) == ROTATE_EVENT ==> a == RotateAction(f, buf))
  {
    hide DecodeTableMap, DecodeRows, DecodeQuery, EventFromRows, StatementCategory, Rotate, TableID;
  }

  /** One event of a linked log: the file stays in step, and a move of the position leads to the next event. */
  lemma StepInLog(env: Env, st: State, sent: seq<Transaction>, at: Position, ev: Event)
    requires !IsZeroFormat(st.format) && st.pos.filename == at.filename
    ensures var s := Step(env, st, sent, ev);
            var a := Interpret(env, st.format, st.tables, ev);
            s.Next? ==>
              && s.st.format == NextFormat(st.format, ev) && !IsZeroFormat(s.st.format)
              && s.st.pos.filename == Behind(st.format, at, ev).filename
              && (s.out.Some? ==> s.st.pos == Behind(st.format, at, ev) && s.st.pending == None)
              && (a.Relocate? ==> s.st.pos == Behind(st.format, at, ev) && s.out == None && s.st.pending == st.pending)
              && (s.out.None? && !a.Relocate? ==> s.st.pos == st.pos)
  {
    hide Interpret, Stripped, Format, RotateTarget, NextPosition, IsZeroFormat;
    StepMoves(env, st, sent, ev);
    ActionTypes(env, st.format, st.tables, ev);
  }

  /** Where a position points: behind the k-th event the run is in this state, has delivered all it delivers
      up to i, holds no open transaction, and the rest of the log is disciplined from here on. */
  predicate IsPoint(env: Env, names: Names, st: State, sent: seq<Transaction>, starts: seq<Position>, evs: seq<Event>,
                    i: nat, k: nat)
    requires k <= i <= |evs| && |starts| == |evs| + 1
  {
    var r, p := Run(env, st, sent, evs[..i]), Run(env, st, sent, evs[..k]);
    && r.Running? && p.Running? && p.sent == r.sent
    && p.st.pos == r.st.pos == starts[k] && p.st.pending == None
    && Disciplined(env, names, p.st, p.sent, {}, evs[k..])
  }

  lemma PointShift(env: Env, names: Names, st: State, sent: seq<Transaction>, starts: seq<Position>, evs: seq<Event>,
                   i: nat, k: nat)
    requires k <= i < |evs| && |starts| == |evs| + 1
    requires Step(env, st, sent, evs[0]).Next?
    requires var s := Step(env, st, sent, evs[0]);
             IsPoint(env, names, s.st, sent + Delivered(s.out), starts[1..], evs[1..], i, k)
    ensures IsPoint(env, names, st, sent, starts, evs, i + 1, k + 1)
  {
    hide Step, Disciplined;
    assert evs[..i + 1][1..] == evs[1..][..i] && evs[..k + 1][1..] == evs[1..][..k];
    assert evs[1..][k..] == evs[k + 1..];
  }

  /** A run over the first i events of the log either has not moved its position or stands at a point. */
  lemma {:induction false} FindPoint(env: Env, names: Names, st: State, sent: seq<Transaction>, seen: set<nat>,
                                     starts: seq<Position>, evs: seq<Event>, i: nat)
    returns (k: Option<nat>)
    requires !IsZeroFormat(st.format) && i <= |evs|
    requires Linked(st.format, starts, evs) && st.pos.filename == starts[0].filename
    requires Disciplined(env, names, st, sent, seen, evs)
    requires Run(env, st, sent, evs[..i]).Running?
    ensures var r := Run(env, st, sent, evs[..i]);
            match k
            case None => r.st.pos == st.pos && r.sent == sent
            case Some(n) => n <= i && IsPoint(env, names, st, sent, starts, evs, i, n)
    decreases i
  {
    hide Step, IsPoint, IsZeroFormat, Behind, Interpret, NamedRight, MappedBefore;
    if i == 0 {
      k := None;
    } else {
      assert evs[..i][0] == evs[0] && evs[..i][1..] == evs[1..][..i - 1];
      StepInLog(env, st, sent, starts[0], evs[0]);
      var s := Step(env, st, sent, evs[0]);
      var a := Interpret(env, st.format, st.tables, evs[0]);
      var sent' := sent + Delivered(s.out);
      k := FindPoint(env, names, s.st, sent', Seen(seen, a, s.out), starts[1..], evs[1..], i - 1);
      if k.Some? {
        PointShift(env, names, st, sent, starts, evs, i - 1, k.value);
        k := Some(k.value + 1);
      } else if s.out.Some? || a.Relocate? {
        FirstIsPoint(env, names, s.st, sent', starts[1..], evs[1..], i - 1);
        PointShift(env, names, st, sent, starts, evs, i - 1, 0);
        k := Some(1);
      } else {
        assert sent + [] == sent;
      }
    }
  }

  lemma FirstIsPoint(env: Env, names: Names, st: State, sent: seq<Transaction>, starts: seq<Position>, evs: seq<Event>,
                     i: nat)
    requires i <= |evs| && |starts| == |evs| + 1 && st.pos == starts[0] && st.pending == None
    requires Disciplined(env, names, st, sent, {}, evs)
    requires var r := Run(env, st, sent, evs[..i]); r.Running? && r.st.pos == st.pos && r.sent == sent
    ensures IsPoint(env, names, st, sent, starts, evs, i, 0)
  {
    hide Disciplined;
    assert evs[..0] == [] && evs[0..] == evs;
  }

  // ---------- resuming ----------

  lemma FormatShift(f: BinlogFormat, evs: seq<Event>, n: nat)
    requires n < |evs|
    ensures FormatAt(f, evs, n + 1) == NextFormat(FormatAt(f, evs, n), evs[n])
    decreases n
  {
    hide NextFormat;
    if n > 0 { FormatShift(NextFormat(f, evs[0]), evs[1..], n - 1); }
  }

  /** What holds at every event of a disciplined run: the format is the last one announced, and the cache is right. */
  lemma {:induction false} PrefixKeeps(env: Env, names: Names, st: State, sent: seq<Transaction>, seen: set<nat>,
                                       evs: seq<Event>, n: nat)
    requires n <= |evs| && !IsZeroFormat(st.format) && CachedRight(env, names, st.tables)
    requires Disciplined(env, names, st, sent, seen, evs)
    ensures var r := Run(env, st, sent, evs[..n]);
            r.Running? ==>
              r.st.format == FormatAt(st.format, evs, n) && !IsZeroFormat(r.st.format)
              && CachedRight(env, names, r.st.tables)
    decreases n
  {
    hide Step, CachedRight, IsZeroFormat, NextFormat, NamedRight, MappedBefore, Interpret, Seen;
    if n > 0 {
      assert evs[..n][0] == evs[0] && evs[..n][1..] == evs[1..][..n - 1];
      var s := Step(env, st, sent, evs[0]);
      if s.Next? {
        StepInLog(env, st, sent, st.pos, evs[0]);
        StepKeepsCache(env, names, st, sent, evs[0]);
        PrefixKeeps(env, names, s.st, sent + Delivered(s.out),
                    Seen(seen, Interpret(env, st.format, st.tables, evs[0]), s.out), evs[1..], n - 1);
      }
    }
  }

  lemma StepKeepsCache(env: Env, names: Names, st: State, sent: seq<Transaction>, ev: Event)
    requires CachedRight(env, names, st.tables) && NamedRight(names, st.format, ev)
    ensures var s := Step(env, st, sent, ev); s.Next? ==> CachedRight(env, names, s.st.tables)
  {
    hide Interpret, Stripped, NamedRight, CachedRight;
    CacheStaysRight(env, names, st.format, st.tables, ev);
  }

  lemma CacheStaysRight(env: Env, names: Names, f: BinlogFormat, tables: map<nat, TableCache>, ev: Event)
    requires CachedRight(env, names, tables) && NamedRight(names, f, ev)
    ensures var a := Interpret(env, f, tables, ev);
            a.CacheTable? ==> CachedRight(env, names, tables[a.id := a.table])
  {
  }

  /** An event that leaves a reader standing at `at` where it is: a rotate event back to it, a heartbeat. */
  ghost predicate Idle(env: Env, f: BinlogFormat, at: Position, ev: Event) {
    forall tables :: Interpret(env, f, tables, ev) == Quiet || Interpret(env, f, tables, ev) == Relocate(at)
  }

  /** Where a position stands for several events, all but the last of them are idle. */
  ghost predicate Unambiguous(env: Env, f: BinlogFormat, log: Log)
    requires |log.starts| == |log.events| + 1
  {
    forall i, j, m :: 0 <= i <= m < j <= |log.events| && log.starts[i] == log.starts[j] ==>
      Idle(env, FormatAt(f, log.events, i), log.starts[i], log.events[m])
  }

  lemma IdleStep(env: Env, st: State, sent: seq<Transaction>, ev: Event)
    requires Idle(env, st.format, st.pos, ev)
    ensures Step(env, st, sent, ev) == Next(st, None)
    ensures !IsZeroFormat(st.format) ==> NextFormat(st.format, ev) == st.format
    ensures !Interpret(env, st.format, st.tables, ev).CacheTable?
  {
    var a := Interpret(env, st.format, st.tables, ev);
    assert a == Quiet || a == Relocate(st.pos);
    hide Interpret, Stripped, IsZeroFormat, Format;
    if !IsZeroFormat(st.format) { ActionTypes(env, st.format, st.tables, ev); }
  }

  /** Idle events change nothing: a run may as well begin behind them. */
  lemma {:induction false} IdleRun(env: Env, names: Names, st: State, sent: seq<Transaction>, evs: seq<Event>, n: nat)
    requires n <= |evs| && !IsZeroFormat(st.format)
    requires forall m :: 0 <= m < n ==> Idle(env, st.format, st.pos, evs[m])
    ensures Run(env, st, sent, evs) == Run(env, st, sent, evs[n..])
    ensures FormatAt(st.format, evs, n) == st.format
    ensures Disciplined(env, names, st, sent, {}, evs) ==> Disciplined(env, names, st, sent, {}, evs[n..])
    decreases n
  {
    hide Step, Idle, IsZeroFormat, NextFormat, NamedRight, MappedBefore, Interpret;
    if n > 0 {
      IdleStep(env, st, sent, evs[0]);
      assert sent + [] == sent;
      IdleRun(env, names, st, sent, evs[1..], n - 1);
      assert evs[1..][n - 1..] == evs[n..];
    } else {
      assert evs[0..] == evs;
    }
  }

  /** The format a server announces when it resumes at the k-th event: the one in force there, or any if that
      event announces its own. */
  predicate Announces(f: BinlogFormat, f0: BinlogFormat, evs: seq<Event>, k: nat)
    requires k <= |evs|
  {
    f == FormatAt(f0, evs, k) || (k < |evs| && |evs[k].buf| >= 5 && Type(evs[k].buf) == FORMAT_DESCRIPTION_EVENT)
  }

  lemma FormatReplaced(env: Env, at: Position, f: BinlogFormat, f': BinlogFormat, sent: seq<Transaction>,
                       evs: seq<Event>)
    requires evs != [] && |evs[0].buf| >= 5 && Type(evs[0].buf) == FORMAT_DESCRIPTION_EVENT
    ensures Run(env, Opened(at, f), sent, evs) == Run(env, Opened(at, f'), sent, evs)
  {
    hide Stripped, Format, IsValid;
  }

  /** The events a server sends first bring a fresh reader into the announced format, and do nothing else. */
  lemma OpeningRun(env: Env, at: Position, rotate: Event, fde: Event, f: BinlogFormat, evs: seq<Event>)
    requires Opening(rotate, fde, f)
    ensures !IsZeroFormat(f)
    ensures Run(env, Initial(at), [], [rotate, fde] + evs) == Run(env, Opened(at, f), [], evs)
    ensures Run(env, Initial(at), [], [rotate]) == Running(Initial(at), [])
  {
    hide Step, Opening;
    OpeningSteps(env, at, rotate, fde, f);
    var all := [rotate, fde] + evs;
    assert all[0] == rotate && all[1..] == [fde] + evs;
    var after := [fde] + evs;
    assert after[0] == fde && after[1..] == evs;
    var none: seq<Transaction> := [];
    assert none + Delivered(None) == none;
    assert [rotate][1..] == [];
  }

  lemma OpeningSteps(env: Env, at: Position, rotate: Event, fde: Event, f: BinlogFormat)
    requires Opening(rotate, fde, f)
    ensures !IsZeroFormat(f)
    ensures Step(env, Initial(at), [], rotate) == Next(Initial(at), None)
    ensures Step(env, Initial(at), [], fde) == Next(Opened(at, f), None)
  {
    hide IsValid, Format, Stripped;
    FormatIsNotZero(fde.buf);
  }

  /** The run over the log stands at the n-th event, by its position and by what it has delivered. */
  lemma PointExists(env: Env, names: Names, st: State, starts: seq<Position>, evs: seq<Event>, i: nat)
    returns (n: nat)
    requires !IsZeroFormat(st.format) && i <= |evs| && st.pending == None
    requires Linked(st.format, starts, evs) && st.pos == starts[0]
    requires Disciplined(env, names, st, [], {}, evs)
    requires Run(env, st, [], evs[..i]).Running?
    ensures n <= i && IsPoint(env, names, st, [], starts, evs, i, n)
  {
    hide Disciplined, Linked, IsPoint, IsZeroFormat, Run;
    LinkedLength(st.format, starts, evs);
    var k := FindPoint(env, names, st, [], {}, starts, evs, i);
    if k.Some? {
      n := k.value;
    } else {
      n := 0;
      FirstIsPoint(env, names, st, [], starts, evs, i);
    }
  }

  lemma LinkedLength(f: BinlogFormat, starts: seq<Position>, evs: seq<Event>)
    requires Linked(f, starts, evs)
    ensures |starts| == |evs| + 1
  {
  }

  /** Both runs do the same from here on. */
  predicate SameEnding(r: RunResult, r': RunResult) {
    if r.Running? then r'.Running? && r'.st == r.st.(tables := r'.st.tables)
    else r'.Halted? && r'.pos == r.pos && r'.error == r.error
  }

  /** Resuming behind the opening events, with the n-th event the stopped run's point and k where the server
      resumes. */
  lemma ResumeAt(env: Env, names: Names, log: Log, f0: BinlogFormat, n: nat, k: nat)
    requires AcceptsAll(env) && !IsZeroFormat(f0) && |log.starts| == |log.events| + 1
    requires Unambiguous(env, f0, log)
    requires Disciplined(env, names, Opened(log.starts[0], f0), [], {}, log.events)
    requires n <= |log.events| && k <= |log.events| && log.starts[n] == log.starts[k]
    requires var p := Run(env, Opened(log.starts[0], f0), [], log.events[..n]);
             p.Running? && p.st.pos == log.starts[n] && p.st.pending == None
             && Disciplined(env, names, p.st, p.sent, {}, log.events[n..])
    ensures var p := Run(env, Opened(log.starts[0], f0), [], log.events[..n]);
            var whole := Run(env, p.st, p.sent, log.events[n..]);
            var resumed := Run(env, Opened(log.starts[k], FormatAt(f0, log.events, k)), [], log.events[k..]);
            whole.sent == p.sent + resumed.sent && SameEnding(whole, resumed)
  {
    hide AcceptsAll, IsZeroFormat, Unambiguous, Disciplined, Run, FormatAt, Idle;
    var st := Opened(log.starts[0], f0);
    var p := Run(env, st, [], log.events[..n]);
    NothingCached(env, names);
    PrefixKeeps(env, names, st, [], {}, log.events, n);
    RunKeepsFlag(env, st, [], log.events[..n]);
    var m := if n <= k then k else n;
    SkipIdle(env, names, log, f0, n, m, p.st, p.sent);
    var newcomer := Opened(log.starts[k], FormatAt(f0, log.events, k));
    FormatNear(env, names, log, f0, n, k);
    SkipIdle(env, names, log, f0, k, m, newcomer, []);
    assert CacheWithin({}, newcomer.tables, p.st.tables);
    var more := RunAlike(env, names, p.st, newcomer, p.sent, [], {}, log.events[m..]);
    assert [] + more == more;
  }

  lemma NothingCached(env: Env, names: Names)
    ensures CachedRight(env, names, map[])
  {
  }

  /** Between two indices a position stands for, a reader in that position passes over idle events. */
  lemma SkipIdle(env: Env, names: Names, log: Log, f0: BinlogFormat, a: nat, b: nat, st: State, sent: seq<Transaction>)
    requires |log.starts| == |log.events| + 1 && Unambiguous(env, f0, log)
    requires a <= b <= |log.events| && log.starts[a] == log.starts[b]
    requires st.pos == log.starts[a] && st.format == FormatAt(f0, log.events, a) && !IsZeroFormat(st.format)
    ensures Run(env, st, sent, log.events[a..]) == Run(env, st, sent, log.events[b..])
    ensures Disciplined(env, names, st, sent, {}, log.events[a..])
            ==> Disciplined(env, names, st, sent, {}, log.events[b..])
  {
    hide Idle, Run, Disciplined, FormatAt, IsZeroFormat;
    var evs := log.events[a..];
    forall m | 0 <= m < b - a ensures Idle(env, st.format, st.pos, evs[m]) {
      assert evs[m] == log.events[a + m];
    }
    IdleRun(env, names, st, sent, evs, b - a);
    assert evs[b - a..] == log.events[b..];
  }

  /** The formats at two indices a position stands for are the same. */
  lemma FormatNear(env: Env, names: Names, log: Log, f0: BinlogFormat, n: nat, k: nat)
    requires |log.starts| == |log.events| + 1 && Unambiguous(env, f0, log) && !IsZeroFormat(f0)
    requires n <= |log.events| && k <= |log.events| && log.starts[n] == log.starts[k]
    ensures FormatAt(f0, log.events, n) == FormatAt(f0, log.events, k)
    ensures !IsZeroFormat(FormatAt(f0, log.events, k))
  {
    hide Idle, IsZeroFormat;
    FormatStaysKnown(f0, log.events, k);
    FormatStaysKnown(f0, log.events, n);
    if n < k { FormatAcross(env, log, f0, n, k); }
    if k < n { FormatAcross(env, log, f0, k, n); }
  }

  lemma {:induction false} FormatStaysKnown(f: BinlogFormat, evs: seq<Event>, n: nat)
    requires n <= |evs| && !IsZeroFormat(f)
    ensures !IsZeroFormat(FormatAt(f, evs, n))
    decreases n
  {
    hide Format, IsZeroFormat;
    if n > 0 {
      FormatIsNotZero(evs[0].buf);
      FormatStaysKnown(NextFormat(f, evs[0]), evs[1..], n - 1);
    }
  }

  lemma {:induction false} FormatAcross(env: Env, log: Log, f0: BinlogFormat, a: nat, b: nat)
    requires |log.starts| == |log.events| + 1 && Unambiguous(env, f0, log) && !IsZeroFormat(f0)
    requires a <= b <= |log.events| && log.starts[a] == log.starts[b]
    ensures FormatAt(f0, log.events, a) == FormatAt(f0, log.events, b)
  {
    hide Idle, IsZeroFormat, NextFormat, FormatAt;
    var f := FormatAt(f0, log.events, a);
    FormatStaysKnown(f0, log.events, a);
    for m := a to b
      invariant FormatAt(f0, log.events, m) == f
    {
      FormatShift(f0, log.events, m);
      assert Idle(env, f, log.starts[a], log.events[m]);
      IdleStep(env, Opened(log.starts[a], f), [], log.events[m]);
    }
  }

  /** Resuming loses nothing and doubles nothing. A run over what the server sends is stopped after any i events.
      A fresh run starts at the position the first one returned, and is sent a fake rotate event, a format event,
      and the log from an event that starts at that position. What both deliver, one after the other, is what
      one uninterrupted run delivers, and the end is the same. */
  lemma ResumeEquivalence(env: Env, names: Names, log: Log, rotate: Event, fde: Event, f0: BinlogFormat, i: nat,
                          rotate': Event, fde': Event, f': BinlogFormat, k: nat)
    requires AcceptsAll(env)
    requires Opening(rotate, fde, f0) && Linked(f0, log.starts, log.events) && Unambiguous(env, f0, log)
    requires Disciplined(env, names, Opened(log.starts[0], f0), [], {}, log.events)
    requires i <= |log.events| + 2
    requires var stopped := Run(env, Initial(log.starts[0]), [], Dump(rotate, fde, log, 0)[..i]);
             stopped.Running? && k <= |log.events| && log.starts[k] == stopped.st.pos
    requires Opening(rotate', fde', f') && Announces(f', f0, log.events, k)
    ensures var stopped := Run(env, Initial(log.starts[0]), [], Dump(rotate, fde, log, 0)[..i]);
            var resumed := Run(env, Initial(stopped.st.pos), [], Dump(rotate', fde', log, k));
            var whole := Run(env, Initial(log.starts[0]), [], Dump(rotate, fde, log, 0));
            && whole.sent == stopped.sent + resumed.sent
            && SameEnding(whole, resumed)
  {
    hide AcceptsAll, Opening, Linked, Unambiguous, Disciplined, Run, FormatAt, SameEnding, IsZeroFormat;
    LinkedLength(f0, log.starts, log.events);
    var start, evs := log.starts[0], log.events;
    var j := StoppedInLog(env, start, log, rotate, fde, f0, i);
    assert evs[0..] == evs;
    OpeningRun(env, start, rotate, fde, f0, evs);
    OpeningRun(env, log.starts[k], rotate', fde', f', evs[k..]);
    var n := PointExists(env, names, Opened(start, f0), log.starts, evs, j);
    ResumeAt(env, names, log, f0, n, k);
    assert evs == evs[..n] + evs[n..];
    RunConcat(env, Opened(start, f0), [], evs[..n], evs[n..]);
    if f' != FormatAt(f0, evs, k) {
      FormatReplaced(env, log.starts[k], f', FormatAt(f0, evs, k), [], evs[k..]);
    }
  }

  /** A run stopped among the opening events is where the run over no log event is. */
  lemma StoppedInLog(env: Env, start: Position, log: Log, rotate: Event, fde: Event, f0: BinlogFormat, i: nat)
    returns (j: nat)
    requires Opening(rotate, fde, f0) && i <= |log.events| + 2
    ensures j == (if i < 2 then 0 else i - 2)
    ensures var r := Run(env, Initial(start), [], Dump(rotate, fde, log, 0)[..i]);
            var r' := Run(env, Opened(start, f0), [], log.events[..j]);
            (r.Running? <==> r'.Running?) && r'.sent == r.sent && (r.Running? ==> r'.st.pos == r.st.pos)
  {
    hide Opening, IsZeroFormat;
    j := if i < 2 then 0 else i - 2;
    var all := Dump(rotate, fde, log, 0);
    assert log.events[..0] == [];
    OpeningRun(env, start, rotate, fde, f0, log.events[..j]);
    if i == 0 {
      assert all[..i] == [];
    } else if i == 1 {
      assert all[..i] == [rotate];
    } else {
      assert all[..i] == [rotate, fde] + log.events[..j];
    }
    hide Run;
  }

  /** There is always an event, or the end of the log, at which the server can resume: the position returned is
      where some event starts that was not skipped. */
  lemma ResumePointExists(env: Env, names: Names, log: Log, rotate: Event, fde: Event, f0: BinlogFormat, i: nat)
    returns (k: nat)
    requires Opening(rotate, fde, f0) && Linked(f0, log.starts, log.events)
    requires Disciplined(env, names, Opened(log.starts[0], f0), [], {}, log.events)
    requires i <= |log.events| + 2
    requires Run(env, Initial(log.starts[0]), [], Dump(rotate, fde, log, 0)[..i]).Running?
    ensures k <= |log.events| && |log.starts| == |log.events| + 1
    ensures log.starts[k] == Run(env, Initial(log.starts[0]), [], Dump(rotate, fde, log, 0)[..i]).st.pos
    ensures k + 2 <= i || k == 0
  {
    hide Opening, Linked, Disciplined, Run, IsZeroFormat;
    LinkedLength(f0, log.starts, log.events);
    var j := StoppedInLog(env, log.starts[0], log, rotate, fde, f0, i);
    OpeningRun(env, log.starts[0], rotate, fde, f0, log.events);
    k := PointExists(env, names, Opened(log.starts[0], f0), log.starts, log.events, j);
  }

  /** One step behind a run. */
  lemma RunOneMore(env: Env, st: State, evs: seq<Event>, n: nat)
    requires n < |evs| && Run(env, st, [], evs[..n]).Running?
    ensures var r := Run(env, st, [], evs[..n]);
            var s := Step(env, r.st, r.sent, evs[n]);
            s.Next? ==> Run(env, st, [], evs[..n + 1]) == Running(s.st, r.sent + Delivered(s.out))
  {
    hide Step;
    assert evs[..n + 1] == evs[..n] + [evs[n]];
    RunConcat(env, st, [], evs[..n], [evs[n]]);
  }

  /** Up to and with the refused transaction, the run that is refused one is the run that is not. */
  lemma RefusedAt(env: Env, st: State, evs: seq<Event>) returns (n: nat, refused: Transaction)
    requires var r := Run(env, st, [], evs); r.Halted? && r.error == SendFailed
    ensures n < |evs|
    ensures var r, w := Run(env, st, [], evs), Run(Willing(env), st, [], evs[..n + 1]);
            && !env.accepts(r.sent, refused)
            && w.Running? && w.sent == r.sent + [refused] && w.st.pos == r.pos == refused.next
  {
    hide Step, Run, Willing;
    n := HaltedAfterRunning(env, st, [], evs);
    RefusedIsPassed(env, st, [], evs[..n]);
    var r := Run(env, st, [], evs[..n]);
    WillingStep(env, r.st, r.sent, evs[n]);
    StepMoves(Willing(env), r.st, r.sent, evs[n]);
    refused := Step(Willing(env), r.st, r.sent, evs[n]).out.value;
    RunOneMore(Willing(env), st, evs, n);
  }

  /** What a refusal loses. A run over what the server sends is stopped because the callback refuses a
      transaction. A run that starts at the position returned, and is refused nothing, delivers all that is
      missing but the refused transaction. */
  lemma RefusalLosesOne(env: Env, names: Names, log: Log, rotate: Event, fde: Event, f0: BinlogFormat,
                        rotate': Event, fde': Event, f': BinlogFormat, k: nat)
    returns (refused: Transaction)
    requires Opening(rotate, fde, f0) && Linked(f0, log.starts, log.events) && Unambiguous(Willing(env), f0, log)
    requires Disciplined(Willing(env), names, Opened(log.starts[0], f0), [], {}, log.events)
    requires var stopped := Run(env, Initial(log.starts[0]), [], Dump(rotate, fde, log, 0));
             stopped.Halted? && stopped.error == SendFailed && k <= |log.events| && log.starts[k] == stopped.pos
    requires Opening(rotate', fde', f') && Announces(f', f0, log.events, k)
    ensures var stopped := Run(env, Initial(log.starts[0]), [], Dump(rotate, fde, log, 0));
            var resumed := Run(Willing(env), Initial(stopped.pos), [], Dump(rotate', fde', log, k));
            var whole := Run(Willing(env), Initial(log.starts[0]), [], Dump(rotate, fde, log, 0));
            && !env.accepts(stopped.sent, refused)
            && whole.sent == stopped.sent + [refused] + resumed.sent
            && SameEnding(whole, resumed)
  {
    hide Opening, Linked, Unambiguous, Disciplined, Run, FormatAt, SameEnding, IsZeroFormat, Willing, Announces;
    LinkedLength(f0, log.starts, log.events);
    var n;
    n, refused := RefusedAt(env, Initial(log.starts[0]), Dump(rotate, fde, log, 0));
    WillingAcceptsAll(env);
    ResumeEquivalence(Willing(env), names, log, rotate, fde, f0, n + 1, rotate', fde', f', k);
  }

  /** The server can resume at the position a refusal returns, too. */
  lemma RefusalPointExists(env: Env, names: Names, log: Log, rotate: Event, fde: Event, f0: BinlogFormat)
    returns (k: nat)
    requires Opening(rotate, fde, f0) && Linked(f0, log.starts, log.events)
    requires Disciplined(Willing(env), names, Opened(log.starts[0], f0), [], {}, log.events)
    requires var stopped := Run(env, Initial(log.starts[0]), [], Dump(rotate, fde, log, 0));
             stopped.Halted? && stopped.error == SendFailed
    ensures k <= |log.events| && |log.starts| == |log.events| + 1
    ensures log.starts[k] == Run(env, Initial(log.starts[0]), [], Dump(rotate, fde, log, 0)).pos
  {
    hide Opening, Linked, Disciplined, Run, Willing;
    LinkedLength(f0, log.starts, log.events);
    var n, refused := RefusedAt(env, Initial(log.starts[0]), Dump(rotate, fde, log, 0));
    k := ResumePointExists(Willing(env), names, log, rotate, fde, f0, n + 1);
  }

  lemma WillingAcceptsAll(env: Env)
    ensures AcceptsAll(Willing(env))
  {
  }
}
