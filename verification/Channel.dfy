/** The dump goroutine and the parsing loop, joined by an unbuffered channel and one context. */
module Channel {
  import opened Results
  import opened Bytes
  import opened Events
  import opened Streamer
  import opened StreamFacts

  const PACKET_EOF: byte := 0xfe
  const PACKET_ERR: byte := 0xff

  /** Why the goroutine ended and closed the channel. */
  datatype Cause = Terminator | Cancelled | ReadFailed

  /** The goroutine: it looks at a packet, offers its event to the channel, or reads the next packet. */
  datatype Producer = Looking(buf: bytes) | Offering(event: Event) | Reading | Closed(cause: Cause)

  /** parseEvents: it waits in its select, handles an event, or has returned. */
  datatype Consumer =
    | Selecting(st: State, sent: seq<Transaction>)
    | Handling(st: State, sent: seq<Transaction>, event: Event)
    | Returned(pos: Position, error: Stop, sent: seq<Transaction>)

  datatype System = System(
    unread: seq<bytes>,        // the packets the connection still has
    producer: Producer,
    consumer: Consumer,
    cancelled: bool,
    consumed: seq<Event>)      // the events that went through the channel

  datatype Label = Look | Transfer | Read | FailRead | StopProducer | Handle | SeeClosed | StopConsumer | Cancel

  predicate IsTerminator(packet: bytes)
    requires packet != []
  {
    packet[0] == PACKET_EOF || packet[0] == PACKET_ERR
  }

  /** A packet without its first byte, as an event. */
  function EventOf(packet: bytes): Event
    requires packet != []
  {
    Event(Mysql56, packet[1..])
  }

  /** The system right after the first packet was read. */
  function Start(at: Position, packets: seq<bytes>): System
    requires packets != []
  {
    System(packets[1..], Looking(packets[0]), Selecting(Initial(at), []), false, [])
  }

  predicate Enabled(s: System, l: Label) {
    match l
    case Look => s.producer.Looking? && s.producer.buf != []
    case Transfer => s.producer.Offering? && s.consumer.Selecting?
    case Read => s.producer.Reading? && s.unread != []
    case FailRead => s.producer.Reading?
    case StopProducer => s.producer.Offering? && s.cancelled
    case Handle => s.consumer.Handling?
    case SeeClosed => s.producer.Closed? && s.consumer.Selecting?
    case StopConsumer => s.consumer.Selecting? && s.cancelled
    case Cancel => !s.cancelled
  }

  function After(env: Env, s: System, l: Label): System
    requires Enabled(s, l)
  {
    match l
    case Look =>
      s.(producer := if IsTerminator(s.producer.buf) then Closed(Terminator) else Offering(EventOf(s.producer.buf)))
    case Transfer =>
      s.(producer := Reading, consumed := s.consumed + [s.producer.event],
         consumer := Handling(s.consumer.st, s.consumer.sent, s.producer.event))
    case Read => s.(producer := Looking(s.unread[0]), unread := s.unread[1..])
    case FailRead => s.(producer := Closed(ReadFailed))
    case StopProducer => s.(producer := Closed(Cancelled))
    case Handle => s.(consumer := Handled(env, s.consumer.st, s.consumer.sent, s.consumer.event))
    case SeeClosed => s.(consumer := Returned(s.consumer.st.pos, StreamEOF, s.consumer.sent))
    case StopConsumer => s.(consumer := Returned(s.consumer.st.pos, ContextDone, s.consumer.sent))
    case Cancel => s.(cancelled := true)
  }

  function Handled(env: Env, st: State, sent: seq<Transaction>, ev: Event): Consumer {
    match Step(env, st, sent, ev)
    case Halt(pos, error) => Returned(pos, error, sent)
    case Next(st', out) => Selecting(st', sent + Delivered(out))
  }

  /** The system after a schedule, if every step of it can be taken. */
  function Execute(env: Env, s: System, schedule: seq<Label>): Option<System>
    decreases |schedule|
  {
    if schedule == [] then Some(s)
    else if !Enabled(s, schedule[0]) then None
    else Execute(env, After(env, s, schedule[0]), schedule[1..])
  }

  // ---------- safety ----------

  /** The events of the packets before the first EOF or ERR packet. */
  function EventsBefore(packets: seq<bytes>): seq<Event>
    requires NoneEmpty(packets)
  {
    if packets == [] || IsTerminator(packets[0]) then [] else [EventOf(packets[0])] + EventsBefore(packets[1..])
  }

  predicate NoneEmpty(packets: seq<bytes>) {
    forall i :: 0 <= i < |packets| ==> packets[i] != []
  }

  /** The events the producer still has to offer, if nothing stops it. */
  function Ahead(s: System): seq<Event>
    requires NoneEmpty(s.unread) && (s.producer.Looking? ==> s.producer.buf != [])
  {
    match s.producer
    case Looking(buf) => EventsBefore([buf] + s.unread)
    case Offering(event) => [event] + EventsBefore(s.unread)
    case Reading => EventsBefore(s.unread)
    case Closed(_) => []
  }

  /** The consumer has done what the sequential run does with the events consumed. */
  predicate InStep(env: Env, at: Position, s: System) {
    match s.consumer
    case Selecting(st, sent) => Run(env, Initial(at), [], s.consumed) == Running(st, sent)
    case Handling(st, sent, event) =>
      s.consumed != [] && s.consumed[|s.consumed| - 1] == event
      && Run(env, Initial(at), [], s.consumed[..|s.consumed| - 1]) == Running(st, sent)
    case Returned(pos, error, sent) =>
      var r := Run(env, Initial(at), [], s.consumed);
      r == Halted(pos, error, sent)
      || (r.Running? && r.st.pos == pos && r.sent == sent
          && ((error == StreamEOF && s.producer.Closed?) || (error == ContextDone && s.cancelled)))
  }

  /** The events consumed, and those the producer still has to offer, make up the stream. */
  predicate OnTrack(all: seq<Event>, s: System) {
    && NoneEmpty(s.unread) && (s.producer.Looking? ==> s.producer.buf != [])
    && (if s.producer.Closed? then s.consumed <= all else s.consumed + Ahead(s) == all)
    && (s.producer == Closed(Terminator) ==> s.consumed == all)
    && (s.producer == Closed(Cancelled) ==> s.cancelled)
  }

  predicate Inv(env: Env, at: Position, all: seq<Event>, s: System) {
    OnTrack(all, s) && InStep(env, at, s)
  }

  lemma StartInv(env: Env, at: Position, packets: seq<bytes>)
    requires packets != [] && NoneEmpty(packets)
    ensures Inv(env, at, EventsBefore(packets), Start(at, packets))
  {
    hide EventsBefore;
    assert [packets[0]] + packets[1..] == packets;
    assert [] + EventsBefore(packets) == EventsBefore(packets);
  }

  lemma RunSnoc(env: Env, st: State, sent: seq<Transaction>, evs: seq<Event>, ev: Event)
    ensures var r := Run(env, st, sent, evs);
            Run(env, st, sent, evs + [ev]) ==
            if r.Running? then
              match Step(env, r.st, r.sent, ev)
              case Halt(pos, error) => Halted(pos, error, r.sent)
              case Next(st', out) => Running(st', r.sent + Delivered(out))
            else r
  {
    hide Step;
    RunConcat(env, st, sent, evs, [ev]);
  }

  lemma ConsumerStep(env: Env, at: Position, s: System, l: Label)
    requires Enabled(s, l) && InStep(env, at, s)
    ensures InStep(env, at, After(env, s, l))
  {
    hide Run, Step;
    var t := After(env, s, l);
    if l.Handle? {
      var n := |s.consumed| - 1;
      assert s.consumed == s.consumed[..n] + [s.consumed[n]];
      RunSnoc(env, Initial(at), [], s.consumed[..n], s.consumed[n]);
    } else if l.Transfer? {
      assert t.consumed[..|t.consumed| - 1] == s.consumed;
    }
  }

  lemma EventsFrom(packet: bytes, more: seq<bytes>)
    requires packet != [] && NoneEmpty(more)
    ensures EventsBefore([packet] + more) == if IsTerminator(packet) then [] else [EventOf(packet)] + EventsBefore(more)
  {
    hide IsTerminator, EventOf;
    assert ([packet] + more)[1..] == more;
  }

  lemma ProducerStep(env: Env, all: seq<Event>, s: System, l: Label)
    requires Enabled(s, l) && OnTrack(all, s)
    ensures OnTrack(all, After(env, s, l))
  {
    hide Handled, IsTerminator, EventOf, EventsBefore;
    if l.Look? {
      EventsFrom(s.producer.buf, s.unread);
      assert s.consumed + [] == s.consumed;
    } else if l.Transfer? {
      MoveOver(s.consumed, s.producer.event, EventsBefore(s.unread));
    } else if l.Read? {
      assert [s.unread[0]] + s.unread[1..] == s.unread;
    }
  }

  lemma MoveOver(before: seq<Event>, ev: Event, more: seq<Event>)
    ensures before + ([ev] + more) == before + [ev] + more
  {
  }

  lemma StepInv(env: Env, at: Position, all: seq<Event>, s: System, l: Label)
    requires Enabled(s, l) && Inv(env, at, all, s)
    ensures Inv(env, at, all, After(env, s, l))
  {
    hide InStep, OnTrack, After;
    ConsumerStep(env, at, s, l);
    ProducerStep(env, all, s, l);
  }

  lemma {:induction false} ExecuteInv(env: Env, at: Position, all: seq<Event>, s: System, schedule: seq<Label>)
    requires Inv(env, at, all, s)
    ensures var end := Execute(env, s, schedule); end.Some? ==> Inv(env, at, all, end.value)
    decreases |schedule|
  {
    hide Inv, Enabled, After;
    if schedule != [] && Enabled(s, schedule[0]) {
      StepInv(env, at, all, s, schedule[0]);
      ExecuteInv(env, at, all, After(env, s, schedule[0]), schedule[1..]);
    }
  }

  /** The stream, packet by packet: the packets up to the first whose first byte is 0xfe or 0xff, each as a MySQL 5.6
      event without its first byte. */
  lemma {:induction false} EventsBeforeIs(packets: seq<bytes>)
    requires NoneEmpty(packets)
    ensures var evs := EventsBefore(packets);
            && |evs| <= |packets|
            && (forall i :: 0 <= i < |evs| ==>
                  packets[i][0] != 0xfe && packets[i][0] != 0xff && evs[i] == Event(Mysql56, packets[i][1..]))
            && (|evs| < |packets| ==> packets[|evs|][0] == 0xfe || packets[|evs|][0] == 0xff)
    decreases |packets|
  {
    if packets != [] && !IsTerminator(packets[0]) {
      EventsBeforeIs(packets[1..]);
      var evs := EventsBefore(packets);
      var rest := packets[1..];
      assert forall i :: 0 < i < |evs| ==> evs[i] == EventsBefore(rest)[i - 1] && packets[i] == rest[i - 1];
    }
  }

  /** Whatever the schedule: the events consumed are the packets in order, each once, without their first byte,
      none from the first EOF or ERR packet on; the consumer stands where the sequential run over the events
      consumed stands; and the transactions sent are a prefix of those the sequential run over the whole
      stream sends. */
  lemma EverySchedule(env: Env, at: Position, packets: seq<bytes>, schedule: seq<Label>)
    requires packets != [] && NoneEmpty(packets)
    requires Execute(env, Start(at, packets), schedule).Some?
    ensures var s := Execute(env, Start(at, packets), schedule).value;
            && s.consumed <= EventsBefore(packets)
            && |s.consumed| <= |packets|
            && (forall i :: 0 <= i < |s.consumed| ==>
                  packets[i][0] != 0xfe && packets[i][0] != 0xff && s.consumed[i] == Event(Mysql56, packets[i][1..]))
            && InStep(env, at, s)
            && s.consumer.sent <= Run(env, Initial(at), [], EventsBefore(packets)).sent
  {
    hide Run, Execute, After, Step;
    var all := EventsBefore(packets);
    StartInv(env, at, packets);
    ExecuteInv(env, at, all, Start(at, packets), schedule);
    var s := Execute(env, Start(at, packets), schedule).value;
    EventsBeforeIs(packets);
    hide EventsBefore, InStep;
    SentIsPrefix(env, at, s, all);
  }

  lemma SentIsPrefix(env: Env, at: Position, s: System, all: seq<Event>)
    requires s.consumed <= all && InStep(env, at, s)
    ensures s.consumer.sent <= Run(env, Initial(at), [], all).sent
  {
    hide Run, Step;
    var n := if s.consumer.Handling? then |s.consumed| - 1 else |s.consumed|;
    assert s.consumed == s.consumed[..|s.consumed|];
    assert all == s.consumed[..n] + all[n..];
    PrefixSends(env, Initial(at), s.consumed[..n], all[n..]);
  }

  lemma PrefixSends(env: Env, st: State, a: seq<Event>, b: seq<Event>)
    ensures Run(env, st, [], a).sent <= Run(env, st, [], a + b).sent
  {
    hide Run;
    RunConcat(env, st, [], a, b);
    var r := Run(env, st, [], a);
    if r.Running? { SentGrows(env, r.st, r.sent, b); }
  }

  /** A consumer that reaches the end of the stream, when nothing was cancelled and no read failed, has done all
      the sequential run does. */
  lemma QuietEndIsComplete(env: Env, at: Position, packets: seq<bytes>, schedule: seq<Label>)
    requires packets != [] && NoneEmpty(packets)
    requires var end := Execute(env, Start(at, packets), schedule);
             end.Some? && !end.value.cancelled && end.value.producer != Closed(ReadFailed)
             && end.value.consumer.Returned?
    ensures var c := Execute(env, Start(at, packets), schedule).value.consumer;
            var whole := Run(env, Initial(at), [], EventsBefore(packets));
            if whole.Running? then c == Returned(whole.st.pos, StreamEOF, whole.sent)
            else c == Returned(whole.pos, whole.error, whole.sent)
  {
    hide Run, Execute, After, Step, Inv;
    var all := EventsBefore(packets);
    StartInv(env, at, packets);
    ExecuteInv(env, at, all, Start(at, packets), schedule);
    Complete(env, at, all, Execute(env, Start(at, packets), schedule).value);
  }

  lemma Complete(env: Env, at: Position, all: seq<Event>, s: System)
    requires Inv(env, at, all, s) && !s.cancelled && s.producer != Closed(ReadFailed) && s.consumer.Returned?
    ensures var whole := Run(env, Initial(at), [], all);
            if whole.Running? then s.consumer == Returned(whole.st.pos, StreamEOF, whole.sent)
            else s.consumer == Returned(whole.pos, whole.error, whole.sent)
  {
    hide Run, EventsBefore;
    assert all == s.consumed + all[|s.consumed|..];
    var r := Run(env, Initial(at), [], s.consumed);
    if r.Running? {
      assert s.producer.Closed? && s.producer.cause == Terminator;
      assert s.consumed == all;
    } else {
      RunConcat(env, Initial(at), [], s.consumed, all[|s.consumed|..]);
    }
  }

  // ---------- liveness ----------

  /** Nothing can happen any more unless somebody cancels the context. */
  ghost predicate Stuck(s: System) {
    forall l: Label :: l != Cancel ==> !Enabled(s, l)
  }

  /** While the loop runs the system is never stuck. It is stuck exactly when both sides are done, or when the
      loop has returned and the goroutine still offers an event that nobody will take: Stream returns without
      cancelling the context the goroutine listens to. */
  lemma StuckExactly(env: Env, at: Position, packets: seq<bytes>, schedule: seq<Label>)
    requires packets != [] && NoneEmpty(packets)
    requires Execute(env, Start(at, packets), schedule).Some?
    ensures var s := Execute(env, Start(at, packets), schedule).value;
            Stuck(s) <==> s.consumer.Returned? && (s.producer.Closed? || (s.producer.Offering? && !s.cancelled))
  {
    hide Execute, After, InStep, EventsBefore, Ahead;
    StartInv(env, at, packets);
    ExecuteInv(env, at, EventsBefore(packets), Start(at, packets), schedule);
    var s := Execute(env, Start(at, packets), schedule).value;
    assert s.producer.Looking? ==> s.producer.buf != [];
    hide OnTrack;
    assert Enabled(s, Look) <==> s.producer.Looking?;
    assert Enabled(s, Transfer) <==> s.producer.Offering? && s.consumer.Selecting?;
    assert Enabled(s, FailRead) <==> s.producer.Reading?;
    assert Enabled(s, StopProducer) <==> s.producer.Offering? && s.cancelled;
    assert Enabled(s, Handle) <==> s.consumer.Handling?;
    assert Enabled(s, SeeClosed) <==> s.producer.Closed? && s.consumer.Selecting?;
  }

  lemma {:induction false} ExecuteConcat(env: Env, s: System, a: seq<Label>, b: seq<Label>)
    ensures var mid := Execute(env, s, a);
            Execute(env, s, a + b) == if mid.None? then None else Execute(env, mid.value, b)
    decreases |a|
  {
    hide Enabled, After;
    if a == [] {
      assert a + b == b;
    } else {
      assert (a + b)[0] == a[0] && (a + b)[1..] == a[1..] + b;
      if Enabled(s, a[0]) { ExecuteConcat(env, After(env, s, a[0]), a[1..], b); }
    }
  }

  /** One packet through the channel, and the next one read and offered. */
  const TURN: seq<Label> := [Transfer, Handle, Read, Look]

  lemma OneTurn(env: Env, s: System, packets: seq<bytes>)
    requires NoneEmpty(packets) && |packets| >= 2 && !IsTerminator(packets[0]) && !IsTerminator(packets[1])
    requires s.unread == packets[1..] && s.producer == Offering(EventOf(packets[0])) && s.consumer.Selecting?
    ensures Execute(env, s, TURN) ==
            Some(System(packets[2..], Offering(EventOf(packets[1])),
                        Handled(env, s.consumer.st, s.consumer.sent, EventOf(packets[0])),
                        s.cancelled, s.consumed + [EventOf(packets[0])]))
  {
    hide Step, Handled, IsTerminator, EventOf;
    assert TURN[1..] == [Handle, Read, Look] && [Handle, Read, Look][1..] == [Read, Look];
    assert [Read, Look][1..] == [Look] && [Look][1..] == [];
    var s1 := After(env, s, Transfer);
    var s2 := After(env, s1, Handle);
    var s3 := After(env, s2, Read);
    var s4 := After(env, s3, Look);
    assert packets[1..][1..] == packets[2..];
    assert Execute(env, s3, [Look]) == Some(s4);
    assert Execute(env, s2, [Read, Look]) == Some(s4);
    assert Execute(env, s1, [Handle, Read, Look]) == Some(s4);
  }

  /** A run that stops with an error while the server still sends events leaves the goroutine stuck for ever. */
  lemma {:induction false} ErrorLeaks(env: Env, s: System, packets: seq<bytes>) returns (schedule: seq<Label>)
    requires NoneEmpty(packets) && packets != [] && !IsTerminator(packets[0])
    requires s.unread == packets[1..] && s.producer == Offering(EventOf(packets[0]))
    requires s.consumer.Selecting? && !s.cancelled
    requires Run(env, s.consumer.st, s.consumer.sent, EventsBefore(packets)).Halted?
    requires var evs := EventsBefore(packets);
             Run(env, s.consumer.st, s.consumer.sent, evs[..|evs| - 1]).Halted?
    ensures var end := Execute(env, s, schedule);
            end.Some? && !end.value.cancelled && end.value.consumer.Returned? && end.value.producer.Offering?
    decreases |packets|
  {
    hide Step, IsTerminator, EventOf, Execute;
    var evs := EventsBefore(packets);
    var rest := EventsBefore(packets[1..]);
    assert evs == [EventOf(packets[0])] + rest;
    assert |evs| >= 2;
    OneTurn(env, s, packets);
    assert packets[1..][1..] == packets[2..];
    var next := Execute(env, s, TURN).value;
    schedule := TURN;
    if next.consumer.Selecting? {
      assert evs[1..] == rest && evs[..|evs| - 1][1..] == rest[..|rest| - 1];
      var more := ErrorLeaks(env, next, packets[1..]);
      schedule := TURN + more;
      ExecuteConcat(env, s, TURN, more);
    }
  }

  /** The run over all events but the last stops with an error. */
  predicate HaltsEarly(env: Env, at: Position, packets: seq<bytes>)
    requires NoneEmpty(packets)
  {
    var evs := EventsBefore(packets);
    evs != [] && Run(env, Initial(at), [], evs[..|evs| - 1]).Halted?
  }

  /** The schedule ends with the goroutine offering an event that nobody will take. */
  ghost predicate Leaks(env: Env, at: Position, packets: seq<bytes>, schedule: seq<Label>)
    requires packets != []
  {
    var end := Execute(env, Start(at, packets), schedule);
    end.Some? && Stuck(end.value) && end.value.producer.Offering?
  }

  lemma LeakReachable(env: Env, at: Position, packets: seq<bytes>) returns (schedule: seq<Label>)
    requires packets != [] && NoneEmpty(packets) && HaltsEarly(env, at, packets)
    ensures Leaks(env, at, packets, schedule)
  {
    hide Run, IsTerminator, Step;
    var evs := EventsBefore(packets);
    var n := |evs| - 1;
    assert evs == evs[..n] + evs[n..];
    RunConcat(env, Initial(at), [], evs[..n], evs[n..]);
    var s := Start(at, packets);
    var offering := After(env, s, Look);
    assert Execute(env, s, [Look]) == Some(offering) by { assert [Look][1..] == []; }
    hide Execute;
    var more := ErrorLeaks(env, offering, packets);
    schedule := [Look] + more;
    ExecuteConcat(env, s, [Look], more);
    StuckExactly(env, at, packets, schedule);
  }

  lemma LeakNeedsError(env: Env, at: Position, packets: seq<bytes>, schedule: seq<Label>)
    requires packets != [] && NoneEmpty(packets) && Leaks(env, at, packets, schedule)
    ensures HaltsEarly(env, at, packets)
  {
    hide Run, Execute, After, EventsBefore, Inv, Stuck;
    StartInv(env, at, packets);
    ExecuteInv(env, at, EventsBefore(packets), Start(at, packets), schedule);
    StuckExactly(env, at, packets, schedule);
    OfferedTooLate(env, at, EventsBefore(packets), Execute(env, Start(at, packets), schedule).value);
  }

  /** If the loop has returned and an event is still offered, the events before the last one stop the run. */
  lemma OfferedTooLate(env: Env, at: Position, all: seq<Event>, s: System)
    requires Inv(env, at, all, s) && s.consumer.Returned? && s.producer.Offering? && !s.cancelled
    ensures all != [] && Run(env, Initial(at), [], all[..|all| - 1]).Halted?
  {
    hide Run, EventsBefore;
    var n := |s.consumed|;
    assert all[..n] == s.consumed && n < |all|;
    var before := all[..|all| - 1];
    assert before == s.consumed + before[n..];
    RunConcat(env, Initial(at), [], s.consumed, before[n..]);
  }

  /** Some schedule leaves the goroutine stuck exactly when the events before the last one stop the loop with an
      error. */
  lemma LeakExactly(env: Env, at: Position, packets: seq<bytes>)
    requires packets != [] && NoneEmpty(packets)
    ensures (exists schedule :: Leaks(env, at, packets, schedule)) <==> HaltsEarly(env, at, packets)
  {
    hide Leaks, HaltsEarly;
    if HaltsEarly(env, at, packets) {
      var schedule := LeakReachable(env, at, packets);
    }
    forall schedule | Leaks(env, at, packets, schedule)
      ensures HaltsEarly(env, at, packets)
    {
      LeakNeedsError(env, at, packets, schedule);
    }
  }

  // ---------- every schedule ends ----------

  /** At most how many steps are left. */
  function Remaining(s: System): nat {
    4 * |s.unread|
    + (match s.producer case Looking(_) => 4 case Offering(_) => 3 case Reading => 1 case Closed(_) => 0)
    + (match s.consumer case Selecting(_, _) => 1 case Handling(_, _, _) => 2 case Returned(_, _, _) => 0)
    + if s.cancelled then 0 else 1
  }

  lemma StepUses(env: Env, s: System, l: Label)
    requires Enabled(s, l)
    ensures Remaining(After(env, s, l)) < Remaining(s)
  {
    hide Step, IsTerminator, EventOf;
  }

  lemma {:induction false} ScheduleUses(env: Env, s: System, schedule: seq<Label>)
    ensures var end := Execute(env, s, schedule); end.Some? ==> |schedule| + Remaining(end.value) <= Remaining(s)
    decreases |schedule|
  {
    hide Enabled, After, Remaining;
    if schedule != [] && Enabled(s, schedule[0]) {
      StepUses(env, s, schedule[0]);
      ScheduleUses(env, After(env, s, schedule[0]), schedule[1..]);
    }
  }

  /** No schedule is longer than four steps a packet and two more; and one that cannot go on, but by a
      cancellation, has the loop returned. */
  lemma SchedulesEnd(env: Env, at: Position, packets: seq<bytes>, schedule: seq<Label>)
    requires packets != [] && NoneEmpty(packets)
    requires Execute(env, Start(at, packets), schedule).Some?
    ensures |schedule| <= 4 * |packets| + 2
    ensures var s := Execute(env, Start(at, packets), schedule).value; Stuck(s) ==> s.consumer.Returned?
  {
    hide Execute, Stuck;
    ScheduleUses(env, Start(at, packets), schedule);
    StuckExactly(env, at, packets, schedule);
  }

  /** Every schedule can be continued to one after which nothing happens any more, without a cancellation. */
  lemma {:induction false} CanFinish(env: Env, s: System) returns (more: seq<Label>, end: System)
    ensures Execute(env, s, more) == Some(end) && Stuck(end) && end.cancelled == s.cancelled
    decreases Remaining(s)
  {
    hide After, Enabled, Remaining;
    if Stuck(s) {
      more, end := [], s;
    } else {
      var l: Label :| l != Cancel && Enabled(s, l);
      StepUses(env, s, l);
      var rest;
      rest, end := CanFinish(env, After(env, s, l));
      OnlyCancelCancels(env, s, l);
      more := [l] + rest;
      assert more[1..] == rest;
    }
  }

  lemma OnlyCancelCancels(env: Env, s: System, l: Label)
    requires l != Cancel && Enabled(s, l)
    ensures After(env, s, l).cancelled == s.cancelled
  {
  }
}
