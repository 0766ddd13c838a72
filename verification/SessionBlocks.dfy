/**
 What a block lets run: the bodies that ran over a run of calls, one by one, after BEGIN READ and after BEGIN WRITE,
 and what each statement needs to succeed outside a block.
 */
module SessionBlocks {

  import opened SessionSpec

  // ---------- The bodies that ran ----------

  function QueryLog(s: Session, items: seq<Item>): seq<Statement>
    decreases |items|
  {
    if items == [] then []
    else
      var o := OneStatement(s, items[0].statement, items[0].faults);
      (if o.ran then [items[0].statement] else []) + if o.ok then QueryLog(o.session, items[1..]) else []
  }

  function CallLog(s: Session, call: Call): seq<Statement> {
    match call
    case Query(parses, _, items) => if parses then QueryLog(s, items) else []
    case PrepareOnly(_, _, _) => []
    case ExecutePrepared(usable, bound, item) => if usable && bound then QueryLog(s, [item]) else []
  }

  function RunLog(s: Session, calls: seq<Call>): seq<Statement>
    decreases |calls|
  {
    if calls == [] then [] else CallLog(s, calls[0]) + RunLog(Called(s, calls[0]).session, calls[1..])
  }

  lemma {:induction false} QueryLogCounts(s: Session, items: seq<Item>, bodies: nat)
    ensures Queried(s, items, bodies).bodies == bodies + |QueryLog(s, items)|
    decreases |items|
  {
    if items != [] {
      var t := Counted(OneStatement(s, items[0].statement, items[0].faults), bodies);
      if t.ok { QueryLogCounts(t.session, items[1..], t.bodies); }
    }
  }

  /** The log lists as many bodies as are counted. */
  lemma {:induction false} LogCounts(s: Session, calls: seq<Call>)
    ensures Run(s, calls).bodies == |RunLog(s, calls)|
    decreases |calls|
  {
    if calls != [] {
      LogCounts(Called(s, calls[0]).session, calls[1..]);
      match calls[0]
      case Query(parses, _, items) => QueryLogCounts(s, items, 0);
      case PrepareOnly(_, _, _) =>
      case ExecutePrepared(_, _, item) => QueryLogCounts(s, [item], 0);
    }
  }

  // ---------- When a block ends ----------

  /** A statement that ends the block: a transaction statement that gets past analysis and validation, unless it is a
      BEGIN that cannot wait, or a body that raises a checkpoint error. */
  predicate Ends(s: Session, st: Statement, f: Faults) {
    && !f.analysis && !Refused(s, st, f)
    && match st.kind
       case Tx(_) => f.bind || !(IsBegin(st.kind) && f.wait)
       case Body => !f.bind && !f.interrupted && !f.plan && f.body.BodyCheckpointError?
  }

  lemma {:induction false} EndsExactly(s: Session, st: Statement, f: Faults)
    requires Healthy(s)
    ensures OneStatement(s, st, f).session == IDLE <==> Ends(s, st, f)
    ensures !Ends(s, st, f) ==> OneStatement(s, st, f).session in {s, s.(failed := true)}
  {
    FateOfAStatement(s, st, f);
  }

  /** No statement of the query that is reached ends the block. */
  predicate QueryStays(s: Session, items: seq<Item>)
    decreases |items|
  {
    items == [] ||
    (&& !Ends(s, items[0].statement, items[0].faults)
     && var o := OneStatement(s, items[0].statement, items[0].faults);
        o.ok ==> QueryStays(o.session, items[1..]))
  }

  predicate CallStays(s: Session, call: Call) {
    match call
    case Query(parses, _, items) => parses ==> QueryStays(s, items)
    case PrepareOnly(parses, single, item) =>
      parses && single && item.statement.kind.Tx? && item.faults.bind ==>
        item.faults.analysis || Refused(s, item.statement, item.faults)
    case ExecutePrepared(usable, bound, item) => usable && bound ==> QueryStays(s, [item])
  }

  predicate RunStays(s: Session, calls: seq<Call>)
    decreases |calls|
  {
    calls == [] || (CallStays(s, calls[0]) && RunStays(Called(s, calls[0]).session, calls[1..]))
  }

  // ---------- A read block ----------

  predicate NeedsWrite(st: Statement) {
    !st.readOnly && st.needsTx
  }

  ghost predicate NoWriter(log: seq<Statement>) {
    forall k :: 0 <= k < |log| ==> !NeedsWrite(log[k])
  }

  const READING := Session(true, ReadTx, false)

  lemma {:induction false} ReadStatement(st: Statement, f: Faults)
    requires !Ends(READING, st, f)
    ensures OneStatement(READING, st, f).session == READING && (OneStatement(READING, st, f).ran ==> !NeedsWrite(st))
  {
    EndsExactly(READING, st, f);
    FateOfAStatement(READING, st, f);
  }

  lemma {:induction false} ReadQuery(items: seq<Item>, bodies: nat)
    requires QueryStays(READING, items)
    ensures Queried(READING, items, bodies).session == READING && NoWriter(QueryLog(READING, items))
    decreases |items|
  {
    if items != [] {
      ReadStatement(items[0].statement, items[0].faults);
      var t := Counted(OneStatement(READING, items[0].statement, items[0].faults), bodies);
      if t.ok { ReadQuery(items[1..], t.bodies); }
    }
  }

  lemma {:induction false} ReadCall(call: Call)
    requires CallStays(READING, call)
    ensures Called(READING, call).session == READING && NoWriter(CallLog(READING, call))
  {
    match call
    case Query(parses, _, items) => if parses { ReadQuery(items, 0); }
    case PrepareOnly(_, _, item) =>
      assert Prepared(READING, item.statement, item.faults, true) in {READING, IDLE};
    case ExecutePrepared(usable, bound, item) => if usable && bound { ReadQuery([item], 0); }
  }

  lemma {:induction false} ReadRun(calls: seq<Call>)
    requires RunStays(READING, calls)
    ensures Run(READING, calls).session == READING && NoWriter(RunLog(READING, calls))
    decreases |calls|
  {
    if calls != [] {
      ReadCall(calls[0]);
      ReadRun(calls[1..]);
    }
  }

  /** After a BEGIN READ that succeeds, and until something ends the block, the block stays as it is, and no body that
      writes and needs a transaction runs, whatever the calls are and whatever raises. */
  lemma {:induction false} ReadBlockNeverWrites(s: Session, st: Statement, f: Faults, calls: seq<Call>)
    requires Sound(s) && st.kind == Tx(BeginRead) && OneStatement(s, st, f).ok
    requires RunStays(OneStatement(s, st, f).session, calls)
    ensures var block := OneStatement(s, st, f).session;
            Run(block, calls).session == block && NoWriter(RunLog(block, calls))
  {
    BeginOpens(s, st, f);
    ReadRun(calls);
  }

  lemma {:induction false} BeginOpens(s: Session, st: Statement, f: Faults)
    requires Sound(s) && IsBegin(st.kind) && OneStatement(s, st, f).ok
    ensures s == IDLE && OneStatement(s, st, f).session == Session(true, if st.kind == Tx(BeginRead) then ReadTx else WriteTx, false)
  {
  }

  // ---------- Calls in which nothing raises ----------

  predicate NoFault(f: Faults) {
    && !f.analysisBegin && !f.analysis && f.analysisCommit.Committed? && !f.readOnlyDatabase && !f.bindBegin && !f.bind
    && f.bindCommit.Committed? && !f.wait && !f.interrupted && !f.plan && f.body.Done? && f.commit.Committed? && !f.begin
    && !f.checkpoint && !f.rollback && !f.cleanup
  }

  /** A call that executes bodies only, and in which nothing raises. */
  predicate Clean(call: Call) {
    && !call.PrepareOnly? && (call.Query? ==> call.parses) && (call.ExecutePrepared? ==> call.usable && call.bound)
    && forall k :: 0 <= k < |Items(call)| ==> Items(call)[k].statement.kind.Body? && NoFault(Items(call)[k].faults)
  }

  function Statements(items: seq<Item>): (r: seq<Statement>)
    ensures |r| == |items|
  {
    seq(|items|, k requires 0 <= k < |items| => items[k].statement)
  }

  function AllStatements(calls: seq<Call>): seq<Statement> {
    if calls == [] then [] else Statements(Items(calls[0])) + AllStatements(calls[1..])
  }

  lemma {:induction false} CleanQuery(s: Session, items: seq<Item>, bodies: nat)
    requires Healthy(s)
    requires forall k :: 0 <= k < |items| ==> items[k].statement.kind.Body? && NoFault(items[k].faults)
    requires s.active == ReadTx ==> NoWriter(Statements(items))
    ensures QueryLog(s, items) == Statements(items) && Queried(s, items, bodies) == Trace(s, true, bodies + |items|)
    decreases |items|
  {
    if items != [] {
      var st, f, rest := items[0].statement, items[0].faults, items[1..];
      assert s.active == ReadTx ==> !NeedsWrite(Statements(items)[0]);
      FateOfAStatement(s, st, f);
      assert OneStatement(s, st, f) == Outcome(s, true, true);
      assert Statements(items) == [st] + Statements(rest);
      forall k | 0 <= k < |rest| ensures s.active == ReadTx ==> !NeedsWrite(Statements(rest)[k]) {
        assert Statements(rest)[k] == Statements(items)[k + 1];
      }
      CleanQuery(s, rest, bodies + 1);
    }
  }

  lemma {:induction false} CleanRun(s: Session, calls: seq<Call>)
    requires Healthy(s) && forall k :: 0 <= k < |calls| ==> Clean(calls[k])
    requires s.active == ReadTx ==> NoWriter(AllStatements(calls))
    ensures RunLog(s, calls) == AllStatements(calls) && Run(s, calls).session == s && Run(s, calls).ok
    decreases |calls|
  {
    if calls != [] {
      var first, rest := Statements(Items(calls[0])), AllStatements(calls[1..]);
      assert Clean(calls[0]);
      forall k | 0 <= k < |first| ensures s.active == ReadTx ==> !NeedsWrite(first[k]) { assert AllStatements(calls)[k] == first[k]; }
      forall k | 0 <= k < |rest| ensures s.active == ReadTx ==> !NeedsWrite(rest[k]) {
        assert AllStatements(calls)[|first| + k] == rest[k];
      }
      forall k | 0 <= k < |calls[1..]| ensures Clean(calls[1..][k]) { assert calls[1..][k] == calls[k + 1]; }
      CleanQuery(s, Items(calls[0]), 0);
      CleanRun(s, calls[1..]);
    }
  }

  /** A second BEGIN is refused and ends a read block; a body that writes then runs, with neither COMMIT nor ROLLBACK. */
  lemma {:induction false} SecondBeginEndsTheBlock(first: Statement, second: Statement, body: Statement, f: Faults)
    requires first.kind == Tx(BeginRead) && IsBegin(second.kind) && body.kind.Body? && NoFault(f)
    requires second.readOnly || !second.needsTx
    ensures var begun := OneStatement(IDLE, first, f); var refused := OneStatement(begun.session, second, f);
            begun.ok && !refused.ok && refused.session == IDLE && OneStatement(refused.session, body, f).ran
  {
  }

  /** After a BEGIN that succeeds, over every run of calls in which nothing raises, every body runs, in order, and the
      block stays open: after BEGIN WRITE whatever the bodies are, after BEGIN READ if none of them has to write. */
  lemma {:induction false} BlockRunsEveryBody(s: Session, st: Statement, f: Faults, calls: seq<Call>)
    requires Sound(s) && IsBegin(st.kind) && OneStatement(s, st, f).ok
    requires forall k :: 0 <= k < |calls| ==> Clean(calls[k])
    requires st.kind == Tx(BeginRead) ==> NoWriter(AllStatements(calls))
    ensures var block := OneStatement(s, st, f).session;
            RunLog(block, calls) == AllStatements(calls) && Run(block, calls).session == block && Run(block, calls).ok
  {
    BeginOpens(s, st, f);
    CleanRun(OneStatement(s, st, f).session, calls);
  }

  // ---------- Outside a block ----------

  /** Nothing raises while the statement is analysed, validated and bound on its own. */
  predicate Passes(st: Statement, f: Faults) {
    && !f.analysisBegin && !f.analysis && f.analysisCommit.Committed?
    && (st.readOnly || !f.readOnlyDatabase) && !f.bind && (st.kind.Body? ==> !f.bindBegin)
  }

  /** Nor while it is executed on its own. */
  predicate Completes(kind: Kind, f: Faults) {
    !f.plan &&
    match kind
    case Body => !f.interrupted && f.body.Done? && f.commit.Committed?
    case Tx(Checkpoint) => !f.checkpoint
    case Tx(_) => IsBegin(kind) && !f.wait && !f.begin
  }

  /** Outside a block a statement succeeds exactly when nothing raises that is called for it, the commit included; COMMIT and
      ROLLBACK never do. A body that succeeds has run. */
  lemma {:induction false} IdleSucceedsExactly(st: Statement, f: Faults)
    ensures var o := OneStatement(IDLE, st, f);
            && (o.ok <==> Passes(st, f) && Completes(st.kind, f))
            && (o.ran <==> Passes(st, f) && st.kind.Body? && !f.interrupted && !f.plan)
            && (o.session != IDLE ==> (o.ok && IsBegin(st.kind)) || Leaks(IDLE, st, f))
  {
  }

  /** Preparing on its own leaves nothing open and runs nothing; it succeeds exactly when the query is one statement and nothing
      raises that is called for it, the commit of the binding's own transaction included. */
  lemma {:induction false} IdlePrepares(parses: bool, single: bool, item: Item)
    ensures var t := Called(IDLE, PrepareOnly(parses, single, item));
            && t.session == IDLE && t.bodies == 0
            && (t.ok <==> parses && single && Passes(item.statement, item.faults) &&
                          (item.statement.kind.Body? ==> item.faults.bindCommit.Committed?))
  {
  }

  /** A transaction left open by an interruption lets later writes through exactly when the statement interrupted was to
      write: then a body in which nothing raises runs in it, otherwise a writing one is refused. */
  lemma {:induction false} LeftOpenAsAsked(st: Statement, f: Faults, next: Statement, g: Faults)
    requires Leaks(IDLE, st, f) && next.kind.Body? && NoFault(g)
    ensures var o := OneStatement(OneStatement(IDLE, st, f).session, next, g);
            (o.ran <==> !(st.readOnly && NeedsWrite(next))) && (o.ok <==> o.ran)
  {
  }
}
