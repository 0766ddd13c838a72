/**
 The client context as it runs statements: transactions begun, committed and rolled back around each
 piece of work, exceptions caught and raised again. Every call leaves the session that the table of
 `SessionSpec` gives, and runs as many statement bodies.
 */
module SessionContext {

  import opened SessionSpec

  datatype Raised = Nothing | Error | CheckpointError

  /** What `runFuncInTransaction` is given to run. */
  datatype Work = Analyse | Bind | Execute(kind: Kind)

  class ClientContext {
    var manual: bool
    var active: Active
    var failed: bool
    ghost var bodies: nat

    ghost function View(): Session
      reads this
    {
      Session(manual, active, failed)
    }

    constructor ()
      ensures View() == IDLE && bodies == 0
    {
      manual, active, failed, bodies := false, NoTx, false, 0;
    }

    // ---------- The transaction context ----------

    method ClearTransaction()
      modifies this
      ensures View() == IDLE && bodies == old(bodies)
    {
      active, manual, failed := NoTx, false, false;
    }

    /** `rollback`: the transaction is forgotten whether or not the manager raises. */
    method RollbackTransaction(raises: bool) returns (raised: Raised)
      modifies this
      ensures View() == (if old(active) == NoTx then old(View()) else IDLE) && bodies == old(bodies)
      ensures raised == if old(active) != NoTx && raises then Error else Nothing
    {
      if active == NoTx { return Nothing; }
      ClearTransaction();
      raised := if raises then Error else Nothing;
    }

    /** `commit`: a failed block is rolled back instead, and says so. */
    method CommitTransaction(fault: CommitFault, rollback: bool) returns (raised: Raised)
      modifies this
      ensures bodies == old(bodies)
      ensures old(active) == NoTx ==> raised == Nothing && View() == old(View())
      ensures old(active) != NoTx && old(failed) ==> raised == Error && View() == IDLE
      ensures old(active) != NoTx && !old(failed) ==>
                && (raised == if fault.Committed? then Nothing else if fault.CommitError? then Error else CheckpointError)
                && (View() == IDLE || (View() == old(View()) && raised != Nothing))
    {
      if active == NoTx { return Nothing; }
      if failed {
        var ignored := RollbackTransaction(rollback);
        return Error;
      }
      match fault
      case Committed =>
        ClearTransaction();
        raised := Nothing;
      case CommitError(stillActive) =>
        if !stillActive { ClearTransaction(); }
        raised := Error;
      case CommitCheckpointError(stillActive) =>
        if !stillActive { ClearTransaction(); }
        raised := CheckpointError;
    }

    /** `rollbackAfterStatementFailure` */
    method RollbackAfterStatementFailure(rollback: bool, cleanup: bool) returns (raised: Raised)
      modifies this
      ensures bodies == old(bodies)
      ensures View() == if old(active) == NoTx then old(View()) else Marked(old(View()))
      ensures raised == if old(active) != NoTx && (if old(manual) then cleanup else rollback) then Error else Nothing
    {
      if active == NoTx { return Nothing; }
      if !manual {
        raised := RollbackTransaction(rollback);
        return;
      }
      raised := if cleanup then Error else Nothing;
      if active == ReadTx { return; }
      failed := true;
    }

    method BeginTransaction(kind: Active, raises: bool) returns (raised: Raised)
      requires active == NoTx && kind != NoTx
      modifies `active
      ensures raised == if raises then Error else Nothing
      ensures active == if raises then NoTx else kind
    {
      if raises { return Error; }
      active := kind;
      raised := Nothing;
    }

    // ---------- The transaction operator ----------

    predicate ActiveAllows(action: Action)
      reads this
    {
      match action
      case BeginRead => active == NoTx
      case BeginWrite => active == NoTx
      case Checkpoint => active == NoTx
      case Commit => active != NoTx
      case Rollback => active != NoTx
    }

    method Operate(action: Action, f: Faults) returns (raised: Raised)
      requires Sound(View())
      modifies this
      ensures bodies == old(bodies)
      ensures raised == Nothing <==> Operated(old(View()), action, f).ok
      ensures raised == Nothing ==> View() == Operated(old(View()), action, f).session
      ensures raised != Nothing ==> View() == IDLE || View() == old(View())
      ensures raised != Nothing && old(failed) ==> View() == Operated(old(View()), action, f).session && raised == Error
    {
      if failed {
        match action
        case Rollback => raised := RollbackTransaction(f.rollback); return;
        case Commit => raised := CommitTransaction(f.commit, f.rollback); return;
        case _ => return Error;
      }
      if !ActiveAllows(action) { return Error; }
      match action
      case BeginRead =>
        raised := BeginTransaction(ReadTx, f.begin);
        if raised == Nothing { manual := true; }
      case BeginWrite =>
        raised := BeginTransaction(WriteTx, f.begin);
        if raised == Nothing { manual := true; }
      case Commit => raised := CommitTransaction(f.commit, f.rollback);
      case Rollback => raised := RollbackTransaction(f.rollback);
      case Checkpoint => raised := if f.checkpoint then CheckpointError else Nothing;
    }

    // ---------- Running work in a transaction ----------

    method DoWork(work: Work, f: Faults) returns (raised: Raised)
      requires Operates(work) ==> Sound(View())
      modifies this
      ensures bodies == old(bodies) + if RunsBody(work, f) then 1 else 0
      ensures !Operates(work) ==> View() == old(View()) && raised == WorkRaises(work, f)
      ensures Operates(work) ==> (raised == Nothing <==> !f.plan && Operated(old(View()), work.kind.action, f).ok)
      ensures Operates(work) && raised == Nothing ==> View() == Operated(old(View()), work.kind.action, f).session
      ensures Operates(work) && raised != Nothing ==> View() == IDLE || View() == old(View())
      ensures Operates(work) && raised != Nothing && old(failed) ==>
                View() == (if f.plan then old(View()) else Operated(old(View()), work.kind.action, f).session) && raised == Error
    {
      match work
      case Analyse => raised := if f.analysis then Error else Nothing;
      case Bind => raised := if f.bind then Error else Nothing;
      case Execute(kind) =>
        if f.plan { return Error; }
        match kind
        case Body =>
          bodies := bodies + 1;
          raised := if f.body == BodyError then Error else if f.body == Done then Nothing else CheckpointError;
        case Tx(action) => raised := Operate(action, f);
    }

    /** The handlers of `runFuncInTransaction`. */
    method Recover(raised: Raised, isTx: bool, f: Faults)
      requires raised != Nothing
      modifies this
      ensures bodies == old(bodies)
      ensures View() ==
                if raised == CheckpointError then IDLE
                else if old(active) == NoTx then old(View())
                else if isTx then Unblocked(old(View()))
                else if old(manual) then Marked(old(View())) else IDLE
    {
      var ignored;
      if raised == CheckpointError {
        ClearTransaction();
      } else if isTx {
        if !failed { ignored := RollbackTransaction(f.rollback); }
      } else {
        ignored := RollbackAfterStatementFailure(f.rollback, f.cleanup);
      }
    }

    /** `runFuncInTransaction` */
    method RunInTransaction(work: Work, readOnly: bool, isTx: bool, commitNew: bool, commitAuto: bool, begin: bool, commit: CommitFault, f: Faults)
      returns (raised: Raised)
      requires (manual ==> active != NoTx) && (failed ==> manual)
      requires isTx ==> Sound(View()) && !commitAuto && work != Analyse && work != Execute(Body)
      requires !isTx ==> !Operates(work)
      modifies this
      ensures bodies == old(bodies) + if RunsBody(work, f) && !(!isTx && !old(manual) && old(active) == NoTx && begin) then 1 else 0
      ensures !isTx && old(manual) ==> raised == WorkRaises(work, f) && View() == AfterRaise(old(View()), raised)
      ensures !isTx && !old(manual) ==>
                var commits := commitAuto || (old(active) == NoTx && commitNew);
                && (raised == Nothing <==> !(old(active) == NoTx && begin) && WorkRaises(work, f) == Nothing && (commits ==> commit.Committed?))
                && (View() == if raised != Nothing || commits then IDLE else if old(active) == NoTx then Opened(readOnly) else old(View()))
      ensures isTx && work == Bind ==> raised == WorkRaises(work, f) && View() == if f.bind then Unblocked(old(View())) else old(View())
      ensures isTx && Operates(work) ==>
                && (raised == Nothing <==> !f.plan && Operated(old(View()), work.kind.action, f).ok)
                && View() == if f.plan then Unblocked(old(View())) else Operated(old(View()), work.kind.action, f).session
    {
      var opens := !manual && active == NoTx && !isTx;
      if opens {
        raised := BeginTransaction(if readOnly then ReadTx else WriteTx, begin);
        if raised != Nothing { return; }
      }
      raised := DoWork(work, f);
      if raised == Nothing {
        if (opens && commitNew) || (!manual && commitAuto) { raised := CommitTransaction(commit, f.rollback); }
      }
      if raised != Nothing { Recover(raised, isTx, f); }
    }

    // ---------- Statements ----------

    /** `prepareNoLock`; whether the statement was prepared. */
    method Prepare(st: Statement, f: Faults, commitNew: bool) returns (ok: bool)
      requires Sound(View())
      modifies this
      ensures bodies == old(bodies)
      ensures View() == Prepared(old(View()), st, f, commitNew)
      ensures ok <==> Prepares(old(View()), st, f) && (commitNew && old(active) == NoTx && st.kind.Body? ==> f.bindCommit.Committed?)
    {
      if st.kind.Body? && failed { return false; }
      var raised := RunInTransaction(Analyse, true, false, true, false, f.analysisBegin, f.analysisCommit, f);
      if raised != Nothing { return false; }
      if !st.readOnly && f.readOnlyDatabase { return false; }
      if st.needsTx && active != NoTx && active == ReadTx && !st.readOnly { return false; }
      raised := RunInTransaction(Bind, st.readOnly, st.kind.Tx?, commitNew, false, f.bindBegin, f.bindCommit, f);
      ok := raised == Nothing;
    }

    /** `executeNoLock` of a statement that was prepared. */
    method ExecuteStatement(st: Statement, f: Faults) returns (ok: bool)
      requires Sound(View())
      requires st.kind.Body? ==> active != NoTx
      modifies this
      ensures View() == Executed(old(View()), st, f).session && ok == Executed(old(View()), st, f).ok
      ensures bodies == old(bodies) + if Executed(old(View()), st, f).ran then 1 else 0
    {
      var isTx := st.kind.Tx?;
      if isTx && IsBegin(st.kind) && f.wait { return false; }
      if !isTx && failed { return false; }
      if f.interrupted && !isTx { return false; }
      var raised := RunInTransaction(Execute(st.kind), st.readOnly, isTx, true, !isTx, false, f.commit, f);
      ok := raised == Nothing;
    }

    method PrepareAndExecute(st: Statement, f: Faults) returns (ok: bool)
      requires Sound(View())
      modifies this
      ensures View() == OneStatement(old(View()), st, f).session && ok == OneStatement(old(View()), st, f).ok
      ensures bodies == old(bodies) + if OneStatement(old(View()), st, f).ran then 1 else 0
    {
      ok := Prepare(st, f, false);
      if ok { ok := ExecuteStatement(st, f); }
    }

    // ---------- Calls ----------

    /** `queryNoLock` after parsing: statement by statement, up to the first that fails. */
    method RunQuery(items: seq<Item>) returns (ok: bool)
      requires Sound(View())
      modifies this
      ensures Trace(View(), ok, bodies) == Queried(old(View()), items, old(bodies))
      ensures Sound(View())
    {
      var k := 0;
      while k < |items|
        invariant k <= |items| && Sound(View())
        invariant Queried(View(), items[k..], bodies) == Queried(old(View()), items, old(bodies))
      {
        BoundaryExactlyWhenNoLeak(View(), items[k].statement, items[k].faults);
        assert items[k..][0] == items[k] && items[k..][1..] == items[k + 1..];
        ok := PrepareAndExecute(items[k].statement, items[k].faults);
        if !ok { return; }
        k := k + 1;
      }
      ok := true;
    }

    /** `query`, `prepareWithParams` and `executeWithParams`. */
    method Serve(call: Call) returns (ok: bool)
      requires Sound(View())
      modifies this
      ensures var t := Called(old(View()), call); View() == t.session && ok == t.ok && bodies == old(bodies) + t.bodies
      ensures Sound(View())
    {
      var ignored;
      CallBoundary(View(), call);
      match call
      case Query(parses, cleanup, items) =>
        if !parses {
          ignored := RollbackAfterStatementFailure(cleanup, cleanup);
          return false;
        }
        QueriedCounts(View(), items, bodies);
        ok := RunQuery(items);
      case PrepareOnly(parses, single, item) =>
        if !parses {
          ignored := RollbackAfterStatementFailure(item.faults.rollback, item.faults.cleanup);
          return false;
        }
        if !single { return false; }
        ok := Prepare(item.statement, item.faults, true);
      case ExecutePrepared(usable, bound, item) =>
        if !usable { return false; }
        if !bound {
          ignored := RollbackAfterStatementFailure(item.faults.rollback, item.faults.cleanup);
          return false;
        }
        QueriedOne(View(), item);
        ok := PrepareAndExecute(item.statement, item.faults);
    }

    /** A connection serving calls one after another. */
    method ServeAll(calls: seq<Call>)
      requires Sound(View())
      modifies this
      ensures View() == Run(old(View()), calls).session && bodies == old(bodies) + Run(old(View()), calls).bodies
      ensures Sound(View())
    {
      var k := 0;
      while k < |calls|
        invariant k <= |calls| && Sound(View())
        invariant Run(View(), calls[k..]).session == Run(old(View()), calls).session
        invariant bodies + Run(View(), calls[k..]).bodies == old(bodies) + Run(old(View()), calls).bodies
      {
        assert calls[k..][0] == calls[k] && calls[k..][1..] == calls[k + 1..];
        var ok := Serve(calls[k]);
        k := k + 1;
      }
    }
  }

  lemma {:induction false} QueriedOne(s: Session, item: Item)
    ensures Queried(s, [item], 0) == Counted(OneStatement(s, item.statement, item.faults), 0)
  {
    var t := Counted(OneStatement(s, item.statement, item.faults), 0);
    assert [item][1..] == [] && Queried(t.session, [], t.bodies) == Trace(t.session, true, t.bodies);
  }

  lemma {:induction false} QueriedCounts(s: Session, items: seq<Item>, bodies: nat)
    ensures var t := Queried(s, items, 0); Queried(s, items, bodies) == t.(bodies := bodies + t.bodies)
    decreases |items|
  {
    if items != [] {
      var t := Counted(OneStatement(s, items[0].statement, items[0].faults), 0);
      if t.ok {
        QueriedCounts(t.session, items[1..], t.bodies);
        QueriedCounts(t.session, items[1..], bodies + t.bodies);
      }
    }
  }

  predicate Operates(work: Work) {
    work.Execute? && work.kind.Tx?
  }

  predicate RunsBody(work: Work, f: Faults) {
    work == Execute(Body) && !f.plan
  }

  function WorkRaises(work: Work, f: Faults): Raised
    requires !Operates(work)
  {
    match work
    case Analyse => if f.analysis then Error else Nothing
    case Bind => if f.bind then Error else Nothing
    case Execute(_) => if f.plan || f.body == BodyError then Error else if f.body == Done then Nothing else CheckpointError
  }

  function AfterRaise(s: Session, raised: Raised): Session {
    match raised
    case Nothing => s
    case Error => Marked(s)
    case CheckpointError => IDLE
  }
}
