/** The streamer's loop over shared, growing event lists, proved against the state machine. */
module StreamLoop {
  import opened Results
  import opened Bytes
  import opened Events
  import opened RowWalk
  import opened Streamer

  /** A slice of stream events, as transactions share it with the loop. */
  class EventList {
    var items: seq<StreamEvent>

    constructor ()
      ensures items == []
    {
      items := [];
    }

    method Append(event: StreamEvent)
      modifies this
      ensures items == old(items) + [event]
    {
      items := items + [event];
    }
  }

  /** A transaction as it is handed to the callback: it holds the loop's list, not a copy; null is Go's nil. */
  datatype Delivery = Delivery(now: Position, next: Position, timestamp: nat, events: EventList?)

  /** The delivery is, now, what the callback was given. */
  ghost predicate StillIs(d: Delivery, tran: Transaction)
    reads if d.events == null then {} else {d.events}
  {
    && d.now == tran.now && d.next == tran.next && d.timestamp == tran.timestamp
    && tran.events == if d.events == null then [] else d.events.items
  }

  /** The variables of parseEvents that its closures and its loop share. */
  class EventParser {
    var tranEvents: EventList?
    var format: BinlogFormat
    var pos: Position
    var tables: map<nat, TableCache>
    var autocommit: bool
    var deliveries: seq<Delivery>
    var sent: seq<Transaction>      // what the callback was given, as it was then

    ghost function Lists(): set<object>
      reads this
    {
      set i | 0 <= i < |deliveries| && deliveries[i].events != null :: deliveries[i].events
    }

    ghost function Repr(): set<object>
      reads this
    {
      {this} + (if tranEvents == null then {} else {tranEvents})
    }

    /** No delivered list is the open one, and none has changed since it was delivered. */
    ghost predicate Valid()
      reads this, Lists()
    {
      && tranEvents !in Lists() && |deliveries| == |sent|
      && forall i :: 0 <= i < |deliveries| ==> StillIs(deliveries[i], sent[i])
    }

    ghost function Current(): State
      reads this, Repr()
    {
      State(format, pos, tables, if tranEvents == null then None else Some(tranEvents.items), autocommit)
    }

    constructor (start: Position)
      ensures Valid() && Current() == Initial(start) && sent == [] && deliveries == [] && tranEvents == null
    {
      tranEvents := null;
      format := ZERO_FORMAT;
      pos := start;
      tables := map[];
      autocommit := true;
      deliveries := [];
      sent := [];
    }

    /** The begin closure. */
    method Begin()
      requires Valid()
      modifies this
      ensures Valid() && sent == old(sent) && deliveries == old(deliveries) && fresh(tranEvents)
      ensures Current() == old(Current()).(pending := Some([]), autocommit := false)
    {
      tranEvents := new EventList();
      autocommit := false;
    }

    /** The commit closure: delivers the open list itself. */
    method CommitTransaction(env: Env, buf: bytes) returns (error: Option<Stop>)
      requires Valid()
      modifies this
      ensures Valid()
      ensures match Commit(env, old(Current()), old(sent), buf)
              case Halt(p, e) => error == Some(e) && pos == p && sent == old(sent) && deliveries == old(deliveries)
              case Next(st, out) =>
                error == None && Current() == st && sent == old(sent) + Delivered(out)
                && |deliveries| == |old(deliveries)| + 1 && deliveries[..|old(deliveries)|] == old(deliveries)
                && deliveries[|old(deliveries)|].events == old(tranEvents) && tranEvents == null
      ensures tranEvents == null || tranEvents == old(tranEvents)
    {
      var offset := NextPosition(buf);
      if offset.Err? {
        return Some(Undecodable(offset.error));
      }
      var now := pos;
      pos := pos.(offset := offset.value);
      var tran := Transaction(now, pos, LE(buf[..4]), if tranEvents == null then [] else tranEvents.items);
      if !env.accepts(sent, tran) {
        return Some(SendFailed);
      }
      ghost var before := deliveries;
      deliveries := deliveries + [Delivery(now, pos, LE(buf[..4]), tranEvents)];
      assert forall i :: 0 <= i < |before| ==> deliveries[i] == before[i];
      sent := sent + [tran];
      tranEvents := null;
      autocommit := true;
      error := None;
    }

    /** The loop's switch on one event. */
    method Handle(env: Env, ev: Event) returns (error: Option<(Position, Stop)>)
      requires Valid()
      modifies this, Repr()
      ensures Valid() && fresh(Repr() - old(Repr()))
      ensures match Step(env, old(Current()), old(sent), ev)
              case Halt(p, e) => error == Some((p, e)) && sent == old(sent)
              case Next(st, out) => error == None && Current() == st && sent == old(sent) + Delivered(out)
    {
      hide Interpret, Stripped, Commit;
      var action := Interpret(env, format, tables, ev);
      var buf := Stripped(format, ev);
      error := None;
      assert sent + [] == sent;
      match action {
        case Quiet =>
        case SetFormat(f) => format := f;
        case Relocate(to) => pos := to;
        case BeginTran => Begin();
        case CommitTran =>
          var e := CommitTransaction(env, buf);
          if e.Some? { error := Some((pos, e.value)); }
        case RollbackTran =>
          tranEvents := null;
          var e := CommitTransaction(env, buf);
          if e.Some? { error := Some((pos, e.value)); }
        case CacheTable(id, tc) => tables := tables[id := tc];
        case AddRows(event) =>
          AddEvent(event);
          if autocommit {
            var e := CommitTransaction(env, buf);
            if e.Some? { error := Some((pos, e.value)); }
          }
        case Fail(atZero, e) => error := Some((if atZero then ZERO_POSITION else pos, e));
      }
    }

    /** tranEvents = append(tranEvents, event) */
    method AddEvent(event: StreamEvent)
      requires Valid()
      modifies this, Repr()
      ensures Valid() && fresh(Repr() - old(Repr())) && sent == old(sent) && deliveries == old(deliveries)
      ensures Current() == old(Current()).(pending := Some(OrNone(old(Current()).pending) + [event]))
    {
      if tranEvents == null {
        tranEvents := new EventList();
      }
      tranEvents.Append(event);
    }
  }

  class RowStreamer {
    var startPos: Position

    constructor (startPos: Position)
      ensures this.startPos == startPos
    {
      this.startPos := startPos;
    }

    /** parseEvents over the events that are received before the stream ends or the context is done. It returns
        the position and an error, which is never nil; every delivered list is at the end what it was when it
        was delivered. */
    method ParseEvents(env: Env, events: seq<Event>, ending: Stop)
      returns (pos: Position, err: Option<Stop>, deliveries: seq<Delivery>)
      ensures var r := Run(env, Initial(startPos), [], events);
              && |deliveries| == |r.sent|
              && (forall i :: 0 <= i < |deliveries| ==> StillIs(deliveries[i], r.sent[i]))
              && (pos, err) == (if r.Running? then (r.st.pos, Some(ending)) else (r.pos, Some(r.error)))
    {
      hide Step;
      var p := new EventParser(startPos);
      assert events[0..] == events;
      for k := 0 to |events|
        invariant p.Valid() && fresh(p.Repr())
        invariant Run(env, p.Current(), p.sent, events[k..]) == Run(env, Initial(startPos), [], events)
      {
        assert events[k..][0] == events[k] && events[k..][1..] == events[k + 1..];
        var error := p.Handle(env, events[k]);
        if error.Some? {
          return error.value.0, Some(error.value.1), p.deliveries;
        }
      }
      pos, err, deliveries := p.pos, Some(ending), p.deliveries;
    }

    /** Stream stores the returned position only if parseEvents returns no error: it never does, and the
        streamer starts where it started before. */
    method Stream(env: Env, events: seq<Event>, ending: Stop) returns (err: Option<Stop>, deliveries: seq<Delivery>)
      modifies this
      ensures startPos == old(startPos) && err.Some?
      ensures var r := Run(env, Initial(old(startPos)), [], events);
              |deliveries| == |r.sent| && forall i :: 0 <= i < |deliveries| ==> StillIs(deliveries[i], r.sent[i])
    {
      var pos;
      pos, err, deliveries := ParseEvents(env, events, ending);
      StoreUnlessError(pos, err);
    }

    method StoreUnlessError(pos: Position, err: Option<Stop>)
      modifies this
      ensures startPos == if err.Some? then old(startPos) else pos
    {
      if err.None? {
        startPos := pos;
      }
    }
  }
}
