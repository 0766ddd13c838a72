/**
 A connection and its transaction block, as a table: what each statement does to the session, with
 every point that may fail as a parameter. An auto-commit transaction is opened and closed inside a
 statement, unless an interruption leaves it open; the table also says what later calls then do with it.
 */
module SessionSpec {

  datatype Active = NoTx | ReadTx | WriteTx

  /** `manual` is the transaction mode, `failed` the mark of a block in which a statement failed. */
  datatype Session = Session(manual: bool, active: Active, failed: bool)

  const IDLE := Session(false, NoTx, false)

  datatype Action = BeginRead | BeginWrite | Commit | Rollback | Checkpoint

  datatype Kind = Body | Tx(action: Action)

  datatype Statement = Statement(kind: Kind, readOnly: bool, needsTx: bool)

  /** How a commit ends; a failed one may leave the transaction with the manager or not. */
  datatype CommitFault = Committed | CommitError(stillActive: bool) | CommitCheckpointError(stillActive: bool)

  datatype BodyFault = Done | BodyError | BodyCheckpointError

  /** Which of the calls made while a statement is prepared and executed raise. */
  datatype Faults = Faults(analysisBegin: bool, analysis: bool, analysisCommit: CommitFault, readOnlyDatabase: bool,
                           bindBegin: bool, bind: bool, bindCommit: CommitFault, wait: bool, interrupted: bool, plan: bool,
                           body: BodyFault, commit: CommitFault, begin: bool, checkpoint: bool, rollback: bool, cleanup: bool)

  /** At a statement boundary there is a transaction exactly in a manual block, and only a write block is failed. */
  predicate Boundary(s: Session) {
    (s.manual <==> s.active != NoTx) && (s.failed ==> s.manual && s.active == WriteTx)
  }

  /** An auto-commit transaction that a statement left behind. */
  predicate Open(s: Session) {
    !s.manual && s.active != NoTx && !s.failed
  }

  /** The states a connection can be in between statements. */
  predicate Sound(s: Session) {
    Boundary(s) || Open(s)
  }

  /** Inside BEGIN ... COMMIT, nothing failed so far. */
  predicate Healthy(s: Session) {
    Boundary(s) && s.manual && !s.failed
  }

  predicate IsBegin(k: Kind) {
    k == Tx(BeginRead) || k == Tx(BeginWrite)
  }

  predicate Closes(k: Kind) {
    k == Tx(Commit) || k == Tx(Rollback)
  }

  // ---------- Preparing ----------

  /** What a failing statement does: a write block is marked, a read block goes on, auto-commit is rolled back. */
  function Marked(s: Session): Session {
    if !s.manual then IDLE else if s.active == WriteTx then s.(failed := true) else s
  }

  predicate AnalysisFails(s: Session, f: Faults) {
    f.analysis || (s.active == NoTx && (f.analysisBegin || !f.analysisCommit.Committed?))
  }

  predicate Refused(s: Session, st: Statement, f: Faults) {
    !st.readOnly && (f.readOnlyDatabase || (st.needsTx && s.active == ReadTx))
  }

  predicate BindFails(s: Session, st: Statement, f: Faults) {
    f.bind || (st.kind.Body? && s.active == NoTx && f.bindBegin)
  }

  predicate Prepares(s: Session, st: Statement, f: Faults) {
    !(st.kind.Body? && s.failed) && !AnalysisFails(s, f) && !Refused(s, st, f) && !BindFails(s, st, f)
  }

  function Opened(readOnly: bool): Session {
    Session(false, if readOnly then ReadTx else WriteTx, false)
  }

  /** The session after a statement is prepared, or refused. */
  function Prepared(s: Session, st: Statement, f: Faults, commitNew: bool): Session {
    if st.kind.Body? && s.failed then s
    else if AnalysisFails(s, f) then Marked(s)
    else if Refused(s, st, f) then s
    else if BindFails(s, st, f) then if st.kind.Body? then Marked(s) else Unblocked(s)
    else if s.active != NoTx || st.kind.Tx? then s
    else if commitNew then IDLE
    else Opened(st.readOnly)
  }

  /** A transaction statement that raises ends the block, unless the block has failed. */
  function Unblocked(s: Session): Session {
    if s.failed then s else IDLE
  }

  // ---------- Executing ----------

  datatype Outcome = Outcome(session: Session, ok: bool, ran: bool)

  function Operated(s: Session, action: Action, f: Faults): Outcome {
    match action
    case Rollback => Outcome(IDLE, s.active != NoTx && !f.rollback, false)
    case Commit => Outcome(IDLE, s.active != NoTx && !s.failed && f.commit.Committed?, false)
    case Checkpoint => Outcome(Unblocked(s), s.active == NoTx && !f.checkpoint, false)
    case BeginRead => Begun(s, ReadTx, f)
    case BeginWrite => Begun(s, WriteTx, f)
  }

  function Begun(s: Session, active: Active, f: Faults): Outcome {
    if s.active == NoTx && !f.begin then Outcome(Session(true, active, false), true, false) else Outcome(Unblocked(s), false, false)
  }

  /** The session after a prepared statement is executed. */
  function Executed(s: Session, st: Statement, f: Faults): Outcome {
    match st.kind
    case Tx(action) =>
      if IsBegin(st.kind) && f.wait then Outcome(s, false, false)
      else if f.plan then Outcome(Unblocked(s), false, false)
      else Operated(s, action, f)
    case Body =>
      if s.failed || f.interrupted then Outcome(s, false, false)
      else if f.plan then Outcome(if s.manual then Marked(s) else IDLE, false, false)
      else if f.body.BodyError? then Outcome(if s.manual then Marked(s) else IDLE, false, true)
      else if f.body.BodyCheckpointError? then Outcome(IDLE, false, true)
      else if s.manual then Outcome(s, true, true)
      else Outcome(IDLE, f.commit.Committed?, true)
  }

  /** One statement of a query: prepared, then executed. */
  function OneStatement(s: Session, st: Statement, f: Faults): Outcome {
    var p := Prepared(s, st, f, false);
    if Prepares(s, st, f) then Executed(p, st, f) else Outcome(p, false, false)
  }

  // ---------- One statement ----------

  /** An interruption seen between preparing and executing leaves the auto-commit transaction open. */
  predicate Leaks(s: Session, st: Statement, f: Faults) {
    !s.manual && st.kind.Body? && Prepares(s, st, f) && f.interrupted
  }

  /** What leaves an auto-commit transaction open that was open before. */
  predicate Lingers(s: Session, st: Statement, f: Faults) {
    Open(s) && !AnalysisFails(s, f) && (Refused(s, st, f) || (!BindFails(s, st, f) && IsBegin(st.kind) && f.wait))
  }

  /** A statement ends at a boundary exactly when it does not leak, and does not let an open transaction linger. */
  lemma {:induction false} BoundaryExactlyWhenNoLeak(s: Session, st: Statement, f: Faults)
    requires Sound(s)
    ensures Sound(OneStatement(s, st, f).session)
    ensures Boundary(OneStatement(s, st, f).session) <==> !Leaks(s, st, f) && !Lingers(s, st, f)
    ensures Leaks(s, st, f) || Lingers(s, st, f) ==> !OneStatement(s, st, f).ok
  {
    var p := Prepared(s, st, f, false);
    assert Prepares(s, st, f) ==> p == if s.active != NoTx || st.kind.Tx? then s else Opened(st.readOnly);
    assert !Prepares(s, st, f) && !s.manual ==> p == IDLE || p == s;
  }

  /** A statement on a transaction left open keeps it as it is, or ends it: the body that runs runs inside it, and
      of the transaction statements only COMMIT and ROLLBACK succeed. */
  lemma {:induction false} OpenTransactionEnds(s: Session, st: Statement, f: Faults)
    requires Open(s)
    ensures var o := OneStatement(s, st, f);
            && o.session == (if Leaks(s, st, f) || Lingers(s, st, f) then s else IDLE)
            && (o.ran <==> st.kind.Body? && Prepares(s, st, f) && !f.interrupted && !f.plan)
            && (o.ok ==> o.ran || Closes(st.kind))
            && (o.ok && s.active == ReadTx && st.needsTx ==> st.readOnly)
  {
  }

  /** In a failed block no body runs and nothing changes, except that COMMIT or ROLLBACK may close it; only ROLLBACK succeeds. */
  lemma {:induction false} FailedBlockWaits(s: Session, st: Statement, f: Faults)
    requires Boundary(s) && s.failed
    ensures !OneStatement(s, st, f).ran
    ensures !Closes(st.kind) ==> OneStatement(s, st, f) == Outcome(s, false, false)
    ensures Closes(st.kind) ==> OneStatement(s, st, f).session == if Prepares(s, st, f) && !f.plan then IDLE else s
    ensures OneStatement(s, st, f).ok <==> st.kind == Tx(Rollback) && Prepares(s, st, f) && !f.plan && !f.rollback
  {
  }

  // ---------- What a failure does to its block ----------

  datatype Fate = Succeeds | Marks | Keeps | Closed

  /** An error while the statement is analysed, bound or run: a write block is marked, a read block goes on. */
  function ErrorFate(s: Session): Fate {
    if s.active == WriteTx then Marks else Keeps
  }

  /** What a statement will do to a healthy block, from the kind of the statement and the call that raises first. */
  function StatementFate(s: Session, st: Statement, f: Faults): Fate {
    if f.analysis then ErrorFate(s)
    else if Refused(s, st, f) then Keeps
    else match st.kind
      case Body =>
        if f.bind then ErrorFate(s)
        else if f.interrupted then Keeps
        else if f.plan || f.body.BodyError? then ErrorFate(s)
        else if f.body.BodyCheckpointError? then Closed
        else Succeeds
      case Tx(action) =>
        if f.bind then Closed
        else if IsBegin(st.kind) && f.wait then Keeps
        else if !f.plan && ((action == Commit && f.commit.Committed?) || (action == Rollback && !f.rollback)) then Succeeds
        else Closed
  }

  /** What is seen afterwards. */
  function Observed(ok: bool, s: Session): Fate {
    if ok then Succeeds else if s.failed then Marks else if s.manual then Keeps else Closed
  }

  /** Every statement in a healthy block, with every fault: the block is marked, kept as it is or closed exactly as foretold. */
  lemma {:induction false} FateOfAStatement(s: Session, st: Statement, f: Faults)
    requires Healthy(s)
    ensures var o := OneStatement(s, st, f); var fate := StatementFate(s, st, f);
            && Observed(o.ok, o.session) == fate
            && (fate == Marks ==> s.active == WriteTx && o.session == s.(failed := true))
            && (fate == Keeps ==> o.session == s)
            && (fate == Closed ==> o.session == IDLE)
            && (o.ok ==> o.session == if Closes(st.kind) then IDLE else s)
  {
  }

  // ---------- Calls ----------

  datatype Item = Item(statement: Statement, faults: Faults)

  datatype Call =
    | Query(parses: bool, cleanup: bool, items: seq<Item>)
    | PrepareOnly(parses: bool, single: bool, item: Item)
    | ExecutePrepared(usable: bool, bound: bool, item: Item)

  /** The session after a call or a run of calls, and how many statement bodies ran. */
  datatype Trace = Trace(session: Session, ok: bool, bodies: nat)

  function Counted(o: Outcome, before: nat): Trace {
    Trace(o.session, o.ok, before + if o.ran then 1 else 0)
  }

  /** The statements of a query, up to the first that fails. */
  function Queried(s: Session, items: seq<Item>, bodies: nat): Trace
    decreases |items|
  {
    if items == [] then Trace(s, true, bodies)
    else
      var t := Counted(OneStatement(s, items[0].statement, items[0].faults), bodies);
      if t.ok then Queried(t.session, items[1..], t.bodies) else t
  }

  function Called(s: Session, call: Call): Trace {
    match call
    case Query(parses, _, items) => if parses then Queried(s, items, 0) else Trace(Marked(s), false, 0)
    case PrepareOnly(parses, single, item) =>
      if !parses then Trace(Marked(s), false, 0)
      else if !single then Trace(s, false, 0)
      else
        var commits := s.active == NoTx && item.statement.kind.Body?;
        Trace(Prepared(s, item.statement, item.faults, true),
              Prepares(s, item.statement, item.faults) && (commits ==> item.faults.bindCommit.Committed?), 0)
    case ExecutePrepared(usable, bound, item) =>
      if !usable then Trace(s, false, 0)
      else if !bound then Trace(Marked(s), false, 0)
      else Queried(s, [item], 0)
  }

  function Run(s: Session, calls: seq<Call>): Trace
    decreases |calls|
  {
    if calls == [] then Trace(s, true, 0)
    else
      var t, rest := Called(s, calls[0]), Run(Called(s, calls[0]).session, calls[1..]);
      Trace(rest.session, rest.ok, t.bodies + rest.bodies)
  }

  // ---------- Whole runs ----------

  function Items(call: Call): seq<Item> {
    if call.Query? then call.items else [call.item]
  }

  /** No statement that the query reaches leaks. */
  predicate QueryNeverLeaks(s: Session, items: seq<Item>)
    decreases |items|
  {
    items == [] ||
    (&& !Leaks(s, items[0].statement, items[0].faults)
     && var o := OneStatement(s, items[0].statement, items[0].faults);
        o.ok ==> QueryNeverLeaks(o.session, items[1..]))
  }

  predicate CallNeverLeaks(s: Session, call: Call) {
    match call
    case Query(parses, _, items) => parses ==> QueryNeverLeaks(s, items)
    case PrepareOnly(_, _, _) => true
    case ExecutePrepared(usable, bound, item) => usable && bound ==> QueryNeverLeaks(s, [item])
  }

  /** No statement that the run reaches leaks. */
  predicate RunNeverLeaks(s: Session, calls: seq<Call>)
    decreases |calls|
  {
    calls == [] || (CallNeverLeaks(s, calls[0]) && RunNeverLeaks(Called(s, calls[0]).session, calls[1..]))
  }

  lemma {:induction false} QueryBoundary(s: Session, items: seq<Item>, bodies: nat)
    requires Sound(s)
    ensures Sound(Queried(s, items, bodies).session)
    ensures Boundary(s) ==> (Boundary(Queried(s, items, bodies).session) <==> QueryNeverLeaks(s, items))
    decreases |items|
  {
    if items != [] {
      BoundaryExactlyWhenNoLeak(s, items[0].statement, items[0].faults);
      var t := Counted(OneStatement(s, items[0].statement, items[0].faults), bodies);
      if t.ok { QueryBoundary(t.session, items[1..], t.bodies); }
    }
  }

  lemma {:induction false} PrepareKeepsBoundary(s: Session, st: Statement, f: Faults)
    requires Sound(s)
    ensures Sound(Prepared(s, st, f, true)) && (Boundary(s) ==> Boundary(Prepared(s, st, f, true)))
  {
  }

  lemma {:induction false} CallBoundary(s: Session, call: Call)
    requires Sound(s)
    ensures Sound(Called(s, call).session)
    ensures Boundary(s) ==> (Boundary(Called(s, call).session) <==> CallNeverLeaks(s, call))
  {
    match call
    case Query(parses, _, items) => if parses { QueryBoundary(s, items, 0); }
    case PrepareOnly(_, _, item) => PrepareKeepsBoundary(s, item.statement, item.faults);
    case ExecutePrepared(_, bound, item) => QueryBoundary(s, [item], 0);
  }

  ghost predicate AlwaysAtBoundary(s: Session, calls: seq<Call>) {
    forall k :: 0 <= k <= |calls| ==> Boundary(Run(s, calls[..k]).session)
  }

  lemma {:induction false} AlwaysFromSecond(s: Session, calls: seq<Call>)
    requires calls != [] && Boundary(s)
    ensures AlwaysAtBoundary(s, calls) <==> AlwaysAtBoundary(Called(s, calls[0]).session, calls[1..])
  {
    var next, rest := Called(s, calls[0]).session, calls[1..];
    forall k | 0 < k <= |calls| ensures Run(s, calls[..k]).session == Run(next, rest[..k - 1]).session {
      assert calls[..k][0] == calls[0] && calls[..k][1..] == rest[..k - 1];
    }
    if AlwaysAtBoundary(s, calls) {
      forall k | 0 <= k <= |rest| ensures Boundary(Run(next, rest[..k]).session) {
        assert Boundary(Run(s, calls[..k + 1]).session);
      }
    }
    if AlwaysAtBoundary(next, rest) {
      forall k | 0 <= k <= |calls| ensures Boundary(Run(s, calls[..k]).session) {
        if k > 0 { assert Boundary(Run(next, rest[..k - 1]).session); }
      }
    }
  }

  /** After every call of a run, auto-commit means no transaction, exactly when no statement that the run reaches leaks. */
  lemma {:induction false} BoundaryOverRuns(s: Session, calls: seq<Call>)
    requires Boundary(s)
    ensures AlwaysAtBoundary(s, calls) <==> RunNeverLeaks(s, calls)
    decreases |calls|
  {
    if calls == [] {
      assert calls[..0] == [];
    } else {
      var next := Called(s, calls[0]).session;
      CallBoundary(s, calls[0]);
      AlwaysFromSecond(s, calls);
      if Boundary(next) {
        BoundaryOverRuns(next, calls[1..]);
      } else {
        assert calls[1..][..0] == [] && Run(next, []).session == next;
      }
    }
  }

  // ---------- What a failing call does to its block ----------

  function FirstFailure(s: Session, items: seq<Item>): (k: nat)
    ensures k <= |items|
    decreases |items|
  {
    if items == [] then 0
    else
      var o := OneStatement(s, items[0].statement, items[0].faults);
      if o.ok then 1 + FirstFailure(o.session, items[1..]) else 0
  }

  /** The session in which the first failing statement of a query starts. */
  function AtFailure(s: Session, items: seq<Item>): Session
    decreases |items|
  {
    if items == [] then s
    else
      var o := OneStatement(s, items[0].statement, items[0].faults);
      if o.ok then AtFailure(o.session, items[1..]) else s
  }

  function QueryFate(s: Session, items: seq<Item>): Fate {
    var k, at := FirstFailure(s, items), AtFailure(s, items);
    if k == |items| then Succeeds
    else if at.manual then StatementFate(at, items[k].statement, items[k].faults)
    else Closed
  }

  function PrepareFate(s: Session, st: Statement, f: Faults): Fate {
    if f.analysis then ErrorFate(s)
    else if Refused(s, st, f) then Keeps
    else if !f.bind then Succeeds
    else if st.kind.Body? then ErrorFate(s) else Closed
  }

  /** What a call will do to a healthy block: a query has the fate of its first failing statement, in the block
      that statement finds; an earlier COMMIT may have closed the block. */
  function CallFate(s: Session, call: Call): Fate {
    match call
    case Query(parses, _, items) => if parses then QueryFate(s, items) else ErrorFate(s)
    case PrepareOnly(parses, single, item) =>
      if !parses then ErrorFate(s) else if !single then Keeps else PrepareFate(s, item.statement, item.faults)
    case ExecutePrepared(usable, bound, item) =>
      if !usable then Keeps else if !bound then ErrorFate(s) else StatementFate(s, item.statement, item.faults)
  }

  lemma {:induction false} FateFromIdle(st: Statement, f: Faults)
    ensures var o := OneStatement(IDLE, st, f);
            if o.ok then o.session == IDLE || Healthy(o.session) else Observed(o.ok, o.session) == Closed
  {
  }

  lemma {:induction false} FateOfAQuery(s: Session, items: seq<Item>, bodies: nat)
    requires s == IDLE || Healthy(s)
    ensures var t := Queried(s, items, bodies); Observed(t.ok, t.session) == QueryFate(s, items)
    decreases |items|
  {
    if items != [] {
      var st, f := items[0].statement, items[0].faults;
      if s.manual { FateOfAStatement(s, st, f); } else { FateFromIdle(st, f); }
      var t := Counted(OneStatement(s, st, f), bodies);
      if t.ok {
        FateOfAQuery(t.session, items[1..], t.bodies);
        var k := FirstFailure(t.session, items[1..]);
        assert k < |items[1..]| ==> items[1..][k] == items[k + 1];
      }
    }
  }

  /** Every call in a healthy block: the block is marked, kept or closed exactly as foretold. */
  lemma {:induction false} FateOfACall(s: Session, call: Call)
    requires Healthy(s)
    ensures var t := Called(s, call); Observed(t.ok, t.session) == CallFate(s, call)
  {
    match call
    case Query(parses, _, items) => if parses { FateOfAQuery(s, items, 0); }
    case PrepareOnly(_, _, item) =>
      assert Prepared(s, item.statement, item.faults, true) == Prepared(s, item.statement, item.faults, false);
      FateOfAStatement(s, item.statement, item.faults);
    case ExecutePrepared(_, _, item) =>
      FateOfAQuery(s, [item], 0);
      FateOfAStatement(s, item.statement, item.faults);
      assert [item][1..] == [];
  }

  // ---------- Failed blocks ----------

  predicate NeverCloses(items: seq<Item>) {
    forall k :: 0 <= k < |items| ==> !Closes(items[k].statement.kind)
  }

  lemma {:induction false} FailedCallWaits(s: Session, call: Call)
    requires Boundary(s) && s.failed && NeverCloses(Items(call))
    ensures Called(s, call).session == s && Called(s, call).bodies == 0
  {
    assert Marked(s) == s;
    match call
    case Query(parses, _, items) => if items != [] { FailedBlockWaits(s, items[0].statement, items[0].faults); }
    case PrepareOnly(_, _, item) => FailedPrepareWaits(s, item.statement, item.faults);
    case ExecutePrepared(_, _, item) => FailedBlockWaits(s, item.statement, item.faults);
  }

  lemma {:induction false} FailedPrepareWaits(s: Session, st: Statement, f: Faults)
    requires Boundary(s) && s.failed
    ensures Prepared(s, st, f, true) == s
  {
  }

  /** A failed block stays as it is, and no statement body runs, over every run without COMMIT or ROLLBACK. */
  lemma {:induction false} FailedOverRuns(s: Session, calls: seq<Call>)
    requires Boundary(s) && s.failed && forall k :: 0 <= k < |calls| ==> NeverCloses(Items(calls[k]))
    ensures Run(s, calls).session == s && Run(s, calls).bodies == 0
    decreases |calls|
  {
    if calls != [] {
      FailedCallWaits(s, calls[0]);
      forall k | 0 <= k < |calls[1..]| ensures NeverCloses(Items(calls[1..][k])) { assert calls[1..][k] == calls[k + 1]; }
      FailedOverRuns(s, calls[1..]);
    }
  }
}
