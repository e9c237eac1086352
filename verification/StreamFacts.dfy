/** Properties of whole runs: the autocommit flag, prefixes, the chain of positions, and conservation of rows. */
module StreamFacts {
  import opened Results
  import opened Events
  import opened Queries
  import opened RowEvents
  import opened TableMaps
  import opened Statements
  import opened Streamer

  // ---------- runs ----------

  /** A run over two streams, one after the other. */
  lemma {:induction false} RunConcat(env: Env, st: State, sent: seq<Transaction>, a: seq<Event>, b: seq<Event>)
    ensures var r := Run(env, st, sent, a);
            Run(env, st, sent, a + b) == if r.Running? then Run(env, r.st, r.sent, b) else r
    decreases |a|
  {
    hide Step;
    if a == [] {
      assert a + b == b;
    } else {
      assert (a + b)[0] == a[0] && (a + b)[1..] == a[1..] + b;
      var s := Step(env, st, sent, a[0]);
      if s.Next? {
        RunConcat(env, s.st, sent + Delivered(s.out), a[1..], b);
      }
    }
  }

  /** Deliveries are only ever added. */
  lemma {:induction false} SentGrows(env: Env, st: State, sent: seq<Transaction>, evs: seq<Event>)
    ensures sent <= Run(env, st, sent, evs).sent
    decreases |evs|
  {
    hide Step;
    if evs != [] {
      var s := Step(env, st, sent, evs[0]);
      if s.Next? {
        SentGrows(env, s.st, sent + Delivered(s.out), evs[1..]);
      }
    }
  }

  /** A run that stops with an error has delivered what the run up to that event delivered. */
  lemma {:induction false} HaltedAfterRunning(env: Env, st: State, sent: seq<Transaction>, evs: seq<Event>)
    returns (n: nat)
    requires Run(env, st, sent, evs).Halted?
    ensures n < |evs|
    ensures var r := Run(env, st, sent, evs[..n]);
            r.Running? && r.sent == Run(env, st, sent, evs).sent
            && Step(env, r.st, r.sent, evs[n]) == Halt(Run(env, st, sent, evs).pos, Run(env, st, sent, evs).error)
    decreases |evs|
  {
    hide Step;
    var s := Step(env, st, sent, evs[0]);
    if s.Next? {
      n := HaltedAfterRunning(env, s.st, sent + Delivered(s.out), evs[1..]);
      assert evs[..n + 1][1..] == evs[1..][..n];
      n := n + 1;
    } else {
      n := 0;
    }
  }

  // ---------- the autocommit flag ----------

  /** autocommit says exactly that no transaction is open. */
  predicate FlagRight(st: State) {
    st.autocommit <==> st.pending == None
  }

  lemma StepKeepsFlag(env: Env, st: State, sent: seq<Transaction>, ev: Event)
    requires FlagRight(st)
    ensures var s := Step(env, st, sent, ev); s.Next? ==> FlagRight(s.st)
  {
    hide Interpret, Stripped;
  }

  lemma {:induction false} RunKeepsFlag(env: Env, st: State, sent: seq<Transaction>, evs: seq<Event>)
    requires FlagRight(st)
    ensures var r := Run(env, st, sent, evs); r.Running? ==> FlagRight(r.st)
    decreases |evs|
  {
    hide Step;
    if evs != [] {
      StepKeepsFlag(env, st, sent, evs[0]);
      var s := Step(env, st, sent, evs[0]);
      if s.Next? {
        RunKeepsFlag(env, s.st, sent + Delivered(s.out), evs[1..]);
      }
    }
  }

  // ---------- a refused transaction ----------

  /** The same surroundings with a callback that takes everything. */
  function Willing(env: Env): Env {
    Env(env.lib, env.mapper, (sent: seq<Transaction>, tran: Transaction) => true)
  }

  lemma WillingMeaning(env: Env, f: BinlogFormat, tables: map<nat, RowWalk.TableCache>, ev: Event)
    ensures Interpret(Willing(env), f, tables, ev) == Interpret(env, f, tables, ev)
  {
    hide StripChecksum, IsValid, Format, DecodeRows, EventFromRows, QueryAction, RotateAction, TableID, DecodeTableMap;
  }

  /** What a failing event stops the loop with: the zero position goes with one error only, and a refusal, the
      end of the stream and a cancelled context are none of the event's. */
  lemma FailureErrors(env: Env, f: BinlogFormat, tables: map<nat, RowWalk.TableCache>, ev: Event)
    ensures var a := Interpret(env, f, tables, ev);
            a.Fail? ==> (a.atZero <==> a.error == ColumnCountMismatch)
                        && a.error !in {SendFailed, StreamEOF, ContextDone}
  {
    hide StripChecksum, IsValid, Format, DecodeRows, EventFromRows, DecodeQuery, StatementCategory, Rotate, TableID,
         DecodeTableMap;
  }

  /** The refusal is the only difference a callback makes. */
  lemma WillingStep(env: Env, st: State, sent: seq<Transaction>, ev: Event)
    ensures var s, w := Step(env, st, sent, ev), Step(Willing(env), st, sent, ev);
            if s.Halt? && s.error == SendFailed then
              w.Next? && w.out.Some? && !env.accepts(sent, w.out.value) && s.pos == w.out.value.next
            else s == w
  {
    hide Interpret, Stripped;
    WillingMeaning(env, st.format, st.tables, ev);
    FailureErrors(env, st.format, st.tables, ev);
  }

  /** A callback that refuses stops the run at the first transaction refused. All before it have been sent, and
      the position returned is its end, not its beginning. */
  lemma {:induction false} RefusedIsPassed(env: Env, st: State, sent: seq<Transaction>, evs: seq<Event>)
    ensures var r, w := Run(env, st, sent, evs), Run(Willing(env), st, sent, evs);
            if r.Halted? && r.error == SendFailed then
              r.sent < w.sent && !env.accepts(r.sent, w.sent[|r.sent|]) && r.pos == w.sent[|r.sent|].next
            else r == w
    decreases |evs|
  {
    hide Step, Willing;
    if evs != [] {
      WillingStep(env, st, sent, evs[0]);
      var s, w := Step(env, st, sent, evs[0]), Step(Willing(env), st, sent, evs[0]);
      if s.Next? {
        RefusedIsPassed(env, s.st, sent + Delivered(s.out), evs[1..]);
      } else if w.Next? {
        SentGrows(Willing(env), w.st, sent + Delivered(w.out), evs[1..]);
        assert (sent + Delivered(w.out))[|sent|] == w.out.value;
      }
    }
  }

  // ---------- the chain of positions ----------

  /** What moves the position: a delivery, with the event that caused it, or a rotate event. */
  datatype Move = Sent(tran: Transaction, cause: Event) | Relocated(to: Position)

  /** The moves of a run, up to its end or to the event that stops it. */
  function Moves(env: Env, st: State, sent: seq<Transaction>, evs: seq<Event>): seq<Move>
    decreases |evs|
  {
    if evs == [] then []
    else
      match Step(env, st, sent, evs[0])
      case Halt(_, _) => []
      case Next(st', out) =>
        var action := Interpret(env, st.format, st.tables, evs[0]);
        (if out.Some? then [Sent(out.value, evs[0])]
         else if action.Relocate? then [Relocated(action.to)]
         else [])
        + Moves(env, st', sent + Delivered(out), evs[1..])
  }

  function MovedTo(move: Move): Position {
    match move
    case Sent(tran, _) => tran.next
    case Relocated(to) => to
  }

  function ChainEnd(start: Position, moves: seq<Move>): Position {
    if moves == [] then start else MovedTo(moves[|moves| - 1])
  }

  /** Every delivery begins where the last delivery ended or the last rotate since then pointed, and ends, in
      the same file, at the next position in the header of the event that caused it. */
  predicate Chained(start: Position, moves: seq<Move>) {
    forall i :: 0 <= i < |moves| && moves[i].Sent? ==>
      moves[i].tran.now == ChainEnd(start, moves[..i])
      && moves[i].tran.next.filename == moves[i].tran.now.filename
      && Ok(moves[i].tran.next.offset) == NextPosition(moves[i].cause.buf)
  }

  function Transactions(moves: seq<Move>): seq<Transaction> {
    if moves == [] then []
    else (if moves[0].Sent? then [moves[0].tran] else []) + Transactions(moves[1..])
  }

  lemma StripKeepsHeader(f: BinlogFormat, ev: Event)
    ensures NextPosition(Stripped(f, ev)).Ok? ==> NextPosition(Stripped(f, ev)) == NextPosition(ev.buf)
  {
    var b := Stripped(f, ev);
    if |b| >= 17 {
      assert b == ev.buf[..|b|];
      assert b[13..17] == ev.buf[13..17];
    }
  }

  /** One step of the chain. */
  lemma StepMoves(env: Env, st: State, sent: seq<Transaction>, ev: Event)
    ensures var s := Step(env, st, sent, ev);
            s.Next? ==>
              if s.out.Some? then
                s.out.value.now == st.pos && s.out.value.next == s.st.pos
                && s.st.pos.filename == st.pos.filename && Ok(s.st.pos.offset) == NextPosition(ev.buf)
              else
                var action := Interpret(env, st.format, st.tables, ev);
                s.st.pos == if action.Relocate? then action.to else st.pos
  {
    hide Interpret, Stripped;
    StripKeepsHeader(st.format, ev);
  }

  lemma ChainedCons(start: Position, move: Move, moves: seq<Move>)
    requires move.Sent? ==>
               move.tran.now == start && move.tran.next.filename == start.filename
               && Ok(move.tran.next.offset) == NextPosition(move.cause.buf)
    requires Chained(MovedTo(move), moves)
    ensures Chained(start, [move] + moves)
    ensures ChainEnd(start, [move] + moves) == ChainEnd(MovedTo(move), moves)
  {
    hide NextPosition;
    var all := [move] + moves;
    forall i | 0 <= i < |all| && all[i].Sent?
      ensures all[i].tran.now == ChainEnd(start, all[..i])
              && all[i].tran.next.filename == all[i].tran.now.filename
              && Ok(all[i].tran.next.offset) == NextPosition(all[i].cause.buf)
    {
      if i > 0 {
        assert all[i] == moves[i - 1];
        assert all[..i] == [move] + moves[..i - 1];
      }
    }
  }

  /** How a run with these moves ends, w being the run in which nothing is refused: at the end of the chain,
      whether it is still running or stopped with an error; except that a table the mapper gives with the wrong
      columns returns the zero position, and a refused transaction, which begins at the end of the chain,
      returns its own end. */
  predicate EndsRight(start: Position, moves: seq<Move>, r: RunResult, w: RunResult) {
    match r
    case Running(st, _) => st.pos == ChainEnd(start, moves)
    case Halted(pos, error, sent) =>
      match error
      case ColumnCountMismatch => pos == ZERO_POSITION
      case SendFailed =>
        sent < w.sent && w.sent[|sent|].now == ChainEnd(start, moves) && pos == w.sent[|sent|].next
      case _ => pos == ChainEnd(start, moves)
  }

  /** The chain holds over every run, and every run ends at its end but for the two exceptions. */
  lemma {:induction false} PositionChain(env: Env, st: State, sent: seq<Transaction>, evs: seq<Event>)
    ensures var r := Run(env, st, sent, evs);
            var moves := Moves(env, st, sent, evs);
            && Chained(st.pos, moves)
            && r.sent == sent + Transactions(moves)
            && EndsRight(st.pos, moves, r, Run(Willing(env), st, sent, evs))
    decreases |evs|
  {
    hide Step, Chained, NextPosition, Interpret, Willing;
    if evs == [] {
      assert sent + [] == sent;
      ChainedNothing(st.pos);
    } else {
      StepMoves(env, st, sent, evs[0]);
      WillingStep(env, st, sent, evs[0]);
      var s := Step(env, st, sent, evs[0]);
      if s.Next? {
        PositionChain(env, s.st, sent + Delivered(s.out), evs[1..]);
        var rest := Moves(env, s.st, sent + Delivered(s.out), evs[1..]);
        var action := Interpret(env, st.format, st.tables, evs[0]);
        hide ChainEnd;
        if s.out.Some? {
          ChainedCons(st.pos, Sent(s.out.value, evs[0]), rest);
          TransactionsCons(Sent(s.out.value, evs[0]), rest, sent);
        } else if action.Relocate? {
          ChainedCons(st.pos, Relocated(action.to), rest);
          TransactionsCons(Relocated(action.to), rest, sent);
        } else {
          assert [] + rest == rest && sent + [] == sent;
        }
      } else {
        ChainedNothing(st.pos);
        HaltPosition(env, st, sent, evs);
        assert sent + [] == sent;
      }
    }
  }

  lemma ChainedNothing(start: Position)
    ensures Chained(start, [])
  {
  }

  lemma TransactionsCons(move: Move, moves: seq<Move>, sent: seq<Transaction>)
    ensures sent + Transactions([move] + moves)
            == sent + (if move.Sent? then [move.tran] else []) + Transactions(moves)
  {
    assert ([move] + moves)[1..] == moves;
  }

  lemma HaltPosition(env: Env, st: State, sent: seq<Transaction>, evs: seq<Event>)
    requires evs != [] && Step(env, st, sent, evs[0]).Halt?
    ensures EndsRight(st.pos, [], Run(env, st, sent, evs), Run(Willing(env), st, sent, evs))
  {
    hide Step, Willing;
    StopPosition(env, st, sent, evs[0]);
    WillingStep(env, st, sent, evs[0]);
    StepMoves(Willing(env), st, sent, evs[0]);
    var w := Step(Willing(env), st, sent, evs[0]);
    if w.Next? {
      SentGrows(Willing(env), w.st, sent + Delivered(w.out), evs[1..]);
      assert w.out.Some? ==> (sent + Delivered(w.out))[|sent|] == w.out.value;
    }
  }

  lemma StopPosition(env: Env, st: State, sent: seq<Transaction>, ev: Event)
    ensures var s := Step(env, st, sent, ev);
            s.Halt? && s.error != SendFailed ==>
              s.pos == if s.error == ColumnCountMismatch then ZERO_POSITION else st.pos
  {
    hide Interpret, Stripped;
    FailureErrors(env, st.format, st.tables, ev);
  }

  // ---------- conservation ----------

  /** The actions a run takes, up to its end or to the event that stops it. */
  function Trace(env: Env, st: State, sent: seq<Transaction>, evs: seq<Event>): seq<Action>
    decreases |evs|
  {
    if evs == [] then []
    else
      match Step(env, st, sent, evs[0])
      case Halt(_, _) => []
      case Next(st', out) =>
        [Interpret(env, st.format, st.tables, evs[0])] + Trace(env, st', sent + Delivered(out), evs[1..])
  }

  predicate IsBoundary(a: Action) {
    a.BeginTran? || a.CommitTran? || a.RollbackTran?
  }

  /** Whether the first n actions leave a transaction open: the last boundary is a BEGIN. */
  predicate OpenAt(t: seq<Action>, n: nat)
    requires n <= |t|
  {
    n > 0 && if IsBoundary(t[n - 1]) then t[n - 1].BeginTran? else OpenAt(t, n - 1)
  }

  /** The first boundary at or after i. */
  function NextBoundary(t: seq<Action>, i: nat): Option<Action>
    requires i <= |t|
    decreases |t| - i
  {
    if i == |t| then None else if IsBoundary(t[i]) then Some(t[i]) else NextBoundary(t, i + 1)
  }

  datatype Fate = Sending | Dropping | Waiting

  /** What becomes of the rows event at i: outside a transaction it is sent by itself; inside, a COMMIT sends
      it, a ROLLBACK or a BEGIN discards it, and until one of them it waits. */
  function FateOf(t: seq<Action>, i: nat): Fate
    requires i < |t|
  {
    if !OpenAt(t, i) then Sending
    else
      match NextBoundary(t, i + 1)
      case None => Waiting
      case Some(b) => if b.CommitTran? then Sending else Dropping
  }

  /** Among the first n actions, the decoded rows events of one fate, in stream order. */
  function Select(t: seq<Action>, fate: Fate, n: nat): seq<StreamEvent>
    requires n <= |t|
  {
    if n == 0 then []
    else
      Select(t, fate, n - 1)
      + if t[n - 1].AddRows? && FateOf(t, n - 1) == fate then [t[n - 1].event] else []
  }

  /** The events of each transaction the stream calls for: the waiting rows at a COMMIT, nothing at a ROLLBACK,
      and a rows event by itself outside a transaction. */
  function Groups(t: seq<Action>): seq<seq<StreamEvent>> {
    if t == [] then []
    else
      var n := |t| - 1;
      var before := t[..n];
      Groups(before)
      + (match t[n]
         case CommitTran => [Select(before, Waiting, n)]
         case RollbackTran => [[]]
         case AddRows(event) => if OpenAt(before, n) then [] else [[event]]
         case _ => [])
  }

  function EventLists(sent: seq<Transaction>): seq<seq<StreamEvent>> {
    seq(|sent|, i requires 0 <= i < |sent| => sent[i].events)
  }

  function Flatten(groups: seq<seq<StreamEvent>>): seq<StreamEvent> {
    if groups == [] then [] else Flatten(groups[..|groups| - 1]) + groups[|groups| - 1]
  }

  // one more action at the end of a trace

  lemma {:induction false} OpenPrefix(t: seq<Action>, a: Action, n: nat)
    requires n <= |t|
    ensures OpenAt(t + [a], n) == OpenAt(t, n)
  {
    if n > 0 { OpenPrefix(t, a, n - 1); }
  }

  lemma {:induction false} BoundaryExtended(t: seq<Action>, a: Action, i: nat)
    requires i <= |t|
    ensures NextBoundary(t + [a], i)
            == if NextBoundary(t, i).Some? then NextBoundary(t, i) else if IsBoundary(a) then Some(a) else None
    decreases |t| - i
  {
    if i < |t| && !IsBoundary(t[i]) { BoundaryExtended(t, a, i + 1); }
  }

  lemma FateExtended(t: seq<Action>, a: Action, i: nat)
    requires i < |t|
    ensures FateOf(t + [a], i)
            == if FateOf(t, i) == Waiting && IsBoundary(a) then (if a.CommitTran? then Sending else Dropping)
               else FateOf(t, i)
  {
    OpenPrefix(t, a, i);
    BoundaryExtended(t, a, i + 1);
  }

  /** Without a boundary nothing changes. */
  lemma {:induction false} SelectUnchanged(t: seq<Action>, a: Action, fate: Fate, n: nat)
    requires n <= |t| && !IsBoundary(a)
    ensures Select(t + [a], fate, n) == Select(t, fate, n)
  {
    hide FateOf;
    if n > 0 {
      SelectUnchanged(t, a, fate, n - 1);
      FateExtended(t, a, n - 1);
    }
  }

  /** After a boundary nothing waits. */
  lemma {:induction false} NothingWaits(t: seq<Action>, a: Action, n: nat)
    requires n <= |t| && IsBoundary(a)
    ensures Select(t + [a], Waiting, n) == []
  {
    hide FateOf;
    if n > 0 {
      NothingWaits(t, a, n - 1);
      FateExtended(t, a, n - 1);
    }
  }

  /** Rows after a waiting one wait too. */
  lemma {:induction false} WaitingTogether(t: seq<Action>, i: nat, j: nat)
    requires i < j < |t| && !IsBoundary(t[i]) && FateOf(t, i) == Waiting
    ensures FateOf(t, j) == Waiting
    decreases j - i
  {
    NoBoundaryAfter(t, i + 1, j);
    OpenStays(t, i, j);
  }

  lemma {:induction false} NoBoundaryAfter(t: seq<Action>, i: nat, j: nat)
    requires i <= j < |t| && NextBoundary(t, i) == None
    ensures NextBoundary(t, j + 1) == None && !IsBoundary(t[j])
    decreases j - i
  {
    if i < j { NoBoundaryAfter(t, i + 1, j); }
  }

  lemma {:induction false} OpenStays(t: seq<Action>, i: nat, j: nat)
    requires i < j < |t| && OpenAt(t, i) && !IsBoundary(t[i]) && NextBoundary(t, i + 1) == None
    ensures OpenAt(t, j)
    decreases j
  {
    if i + 1 < j {
      OpenStays(t, i, j - 1);
      NoBoundaryAfter(t, i + 1, j - 1);
    }
  }

  /** Among the first n, the last selected waiting row is followed by waiting rows only. */
  lemma {:induction false} WaitingLast(t: seq<Action>, n: nat) returns (i: nat)
    requires n <= |t| && Select(t, Waiting, n) != []
    ensures i < n && t[i].AddRows? && FateOf(t, i) == Waiting
  {
    hide FateOf;
    if t[n - 1].AddRows? && FateOf(t, n - 1) == Waiting {
      i := n - 1;
    } else {
      i := WaitingLast(t, n - 1);
    }
  }

  /** A COMMIT sends what waited, behind what was sent before. */
  lemma {:induction false} CommitSends(t: seq<Action>, a: Action, n: nat)
    requires n <= |t| && a.CommitTran?
    ensures Select(t + [a], Sending, n) == Select(t, Sending, n) + Select(t, Waiting, n)
  {
    hide FateOf;
    if n > 0 {
      CommitSends(t, a, n - 1);
      FateExtended(t, a, n - 1);
      if t[n - 1].AddRows? && FateOf(t, n - 1) == Sending && Select(t, Waiting, n - 1) != [] {
        var i := WaitingLast(t, n - 1);
        WaitingTogether(t, i, n - 1);
        assert false;
      }
    }
  }

  /** A ROLLBACK or a BEGIN sends nothing of the rows before it. */
  lemma {:induction false} DropSendsNothing(t: seq<Action>, a: Action, n: nat)
    requires n <= |t| && IsBoundary(a) && !a.CommitTran?
    ensures Select(t + [a], Sending, n) == Select(t, Sending, n)
  {
    hide FateOf;
    if n > 0 {
      DropSendsNothing(t, a, n - 1);
      FateExtended(t, a, n - 1);
    }
  }

  /** The fates of the rows of a trace that is one action longer. */
  lemma SelectGrows(t: seq<Action>, a: Action)
    ensures var n := |t|;
            var t' := t + [a];
            && OpenAt(t', n + 1) == (if IsBoundary(a) then a.BeginTran? else OpenAt(t, n))
            && Select(t', Sending, n + 1)
               == Select(t, Sending, n)
                  + (if a.CommitTran? then Select(t, Waiting, n)
                     else if a.AddRows? && !OpenAt(t, n) then [a.event] else [])
            && Select(t', Waiting, n + 1)
               == (if IsBoundary(a) then [] else Select(t, Waiting, n))
                  + (if a.AddRows? && OpenAt(t, n) then [a.event] else [])
  {
    var n := |t|;
    var t' := t + [a];
    OpenPrefix(t, a, n);
    assert NextBoundary(t', n + 1) == None;
    if a.CommitTran? {
      CommitSends(t, a, n);
      NothingWaits(t, a, n);
    } else if IsBoundary(a) {
      DropSendsNothing(t, a, n);
      NothingWaits(t, a, n);
    } else {
      SelectUnchanged(t, a, Sending, n);
      SelectUnchanged(t, a, Waiting, n);
    }
  }

  /** The groups hold exactly the rows that are sent, in stream order: none lost, none doubled. */
  lemma {:induction false} GroupsConserve(t: seq<Action>)
    ensures Flatten(Groups(t)) == Select(t, Sending, |t|)
    decreases |t|
  {
    hide Select, OpenAt, IsBoundary;
    if t == [] {
      SelectNothing();
    } else {
      var n := |t| - 1;
      var before := t[..n];
      assert t == before + [t[n]];
      GroupsConserve(before);
      SelectGrows(before, t[n]);
      BoundaryKinds(t[n]);
      FlattenMore(Groups(before), Select(before, Waiting, n));
      FlattenMore(Groups(before), []);
      if t[n].AddRows? { FlattenMore(Groups(before), [t[n].event]); }
      assert Groups(before) + [] == Groups(before);
    }
  }

  lemma SelectNothing()
    ensures Select([], Sending, 0) == [] && Select([], Waiting, 0) == []
  {
  }

  lemma BoundaryKinds(a: Action)
    ensures IsBoundary(a) <==> a.BeginTran? || a.CommitTran? || a.RollbackTran?
  {
  }

  lemma FlattenMore(groups: seq<seq<StreamEvent>>, group: seq<StreamEvent>)
    ensures Flatten(groups + [group]) == Flatten(groups) + group
  {
    assert (groups + [group])[..|groups|] == groups;
  }

  // the machine against the reference

  /** After the actions t the machine has delivered exactly the groups t calls for, and holds exactly the
      rows that still wait. */
  predicate Matches(t: seq<Action>, st: State, sent: seq<Transaction>) {
    && EventLists(sent) == Groups(t)
    && OrNone(st.pending) == Select(t, Waiting, |t|)
    && (st.pending.Some? <==> OpenAt(t, |t|))
    && FlagRight(st)
  }

  lemma EventListsMore(sent: seq<Transaction>, out: Option<Transaction>)
    ensures EventLists(sent + Delivered(out)) == EventLists(sent) + if out.None? then [] else [out.value.events]
  {
  }

  lemma StepMatches(env: Env, st: State, sent: seq<Transaction>, ev: Event, t: seq<Action>)
    requires Matches(t, st, sent)
    ensures var s := Step(env, st, sent, ev);
            s.Next? ==> Matches(t + [Interpret(env, st.format, st.tables, ev)], s.st, sent + Delivered(s.out))
  {
    hide Interpret, Stripped, Select, OpenAt, EventLists;
    var s := Step(env, st, sent, ev);
    if s.Next? {
      var a := Interpret(env, st.format, st.tables, ev);
      SelectGrows(t, a);
      EventListsMore(sent, s.out);
      assert (t + [a])[..|t|] == t;
      assert Select(t, Waiting, |t|) + [] == Select(t, Waiting, |t|);
      var none: seq<StreamEvent> := [];
      assert none + none == none && (a.AddRows? ==> none + [a.event] == [a.event]);
      assert Groups(t) + [] == Groups(t) && EventLists(sent) + [] == EventLists(sent);
    }
  }

  lemma {:induction false} RunMatches(env: Env, st: State, sent: seq<Transaction>, evs: seq<Event>, t: seq<Action>)
    requires Matches(t, st, sent)
    ensures var r := Run(env, st, sent, evs);
            r.Running? ==> Matches(t + Trace(env, st, sent, evs), r.st, r.sent)
    ensures var r := Run(env, st, sent, evs);
            r.Halted? ==> EventLists(r.sent) == Groups(t + Trace(env, st, sent, evs))
    decreases |evs|
  {
    hide Step, Matches, Interpret, Groups;
    if evs == [] {
      assert t + [] == t;
    } else {
      StepMatches(env, st, sent, evs[0], t);
      var s := Step(env, st, sent, evs[0]);
      if s.Next? {
        var a := Interpret(env, st.format, st.tables, evs[0]);
        RunMatches(env, s.st, sent + Delivered(s.out), evs[1..], t + [a]);
        var rest := Trace(env, s.st, sent + Delivered(s.out), evs[1..]);
        assert t + [a] + rest == t + ([a] + rest);
      } else {
        assert t + [] == t;
        MatchesGroups(t, st, sent);
      }
    }
  }

  lemma MatchesGroups(t: seq<Action>, st: State, sent: seq<Transaction>)
    requires Matches(t, st, sent)
    ensures EventLists(sent) == Groups(t)
  {
  }

  lemma InitialMatches(start: Position)
    ensures Matches([], Initial(start), [])
  {
    assert EventLists([]) == [];
  }

  /** Conservation and refinement, for every run from the beginning. The delivered transactions are the groups
      the stream calls for. Their events, one after the other, are the decoded rows events in stream order
      without those a ROLLBACK, or a BEGIN inside a transaction, discards and without those still pending; the
      pending ones are exactly the rows of the transaction that is open at the end. */
  lemma Conservation(env: Env, start: Position, evs: seq<Event>)
    ensures var r := Run(env, Initial(start), [], evs);
            var t := Trace(env, Initial(start), [], evs);
            && EventLists(r.sent) == Groups(t)
            && Flatten(EventLists(r.sent)) == Select(t, Sending, |t|)
            && (r.Running? ==>
                  && OrNone(r.st.pending) == Select(t, Waiting, |t|)
                  && (r.st.pending.Some? <==> OpenAt(t, |t|))
                  && (r.st.autocommit <==> r.st.pending.None?))
  {
    hide Run, Trace, Groups, Select, OpenAt;
    InitialMatches(start);
    RunMatches(env, Initial(start), [], evs, []);
    var t := Trace(env, Initial(start), [], evs);
    assert [] + t == t;
    GroupsConserve(t);
  }
}
