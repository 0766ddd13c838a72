/**
 Exactly when a drop or a rename breaks the single-writer rule, and what then happens to the name.
 */
module CatalogFaults {
  import opened Basics
  import opened CatalogModel
  import opened CatalogSnapshots
  import opened CatalogWriters
  import opened CatalogRuns
  import opened CatalogResults

  // ---------- A drop without the guard ----------

  /** A drop keeps the single-writer invariant exactly when the name is free: the check that create
      and alter make, and drop does not. */
  lemma {:induction false} DropKeepsExactlyWhenFree(s: State, a: Step)
    requires Inv(s) && a.DropStep? && Enabled(s, a) && Live(s.cs.entries, s.active[a.id], a.n).Some?
    ensures Inv(Apply(s, a)) <==> Free(s.cs.entries, s.active[a.id], a.n)
  {
    if Free(s.cs.entries, s.active[a.id], a.n) {
      WriteKeeps(s, a);
    } else {
      var s' := Apply(s, a);
      assert SoundAt(s.cs.entries, a.n, s.lastTS, s.lastTxnID);
      var c := s.cs.entries[a.n];
      var tombstone := Dummy(s.cs.nextUid, a.id, a.oid);
      assert s'.cs.entries[a.n] == [tombstone] + c;
      assert HistoryAt(s, a.id);
      assert !Follows(s'.cs.entries[a.n][0], s'.cs.entries[a.n][1], s'.active, s'.commits);
      assert !GoodAt(s', a.n);
    }
  }

  // ---------- An alter in recovery, which makes no check ----------

  /** The version an alter sees has nothing of the same identity above it in its chain. */
  lemma {:induction false} AlteredAt(s: State, a: Step) returns (i: nat)
    requires Inv(s) && a.AlterStep? && Enabled(s, a) && AlterOutcome(s.cs.entries, s.active[a.id], a.n) == Done
    ensures var c, v := s.cs.entries[a.n], Live(s.cs.entries, s.active[a.id], a.n).value;
            && i < |c| && c[i] == v && (i == 0 <==> Free(s.cs.entries, s.active[a.id], a.n))
            && IndexOf(Apply(s, a).cs.entries[a.n], v.uid) == i + 1
            && Apply(s, a).cs.entries[a.n] == [v.(uid := s.cs.nextUid, ts := a.id, body := a.body)] + c
  {
    var c, t := s.cs.entries[a.n], s.active[a.id];
    i := VisibleIsFirst(c, t);
    SupersedesWhatItSees(s, a.id, a.n);
    assert GoodAt(s, a.n);
    var c' := Apply(s, a).cs.entries[a.n];
    assert c'[i + 1] == c[i];
    var k := IndexOf(c', c[i].uid);
    assert k > 0 && (k < |c'| ==> c'[k] == c[k - 1]);
  }

  /** An alter that goes through records the version it saw. Its commit dates the new version, and its rollback
      restores the chain, exactly when the name was free, which recovery does not check. */
  lemma {:induction false} AlterEndsExactlyWhenFree(s: State, a: Step, cts: nat)
    requires Inv(s) && a.AlterStep? && Enabled(s, a) && AlterOutcome(s.cs.entries, s.active[a.id], a.n) == Done
    requires cts != a.id
    ensures var c, c' := s.cs.entries[a.n], Apply(s, a).cs.entries[a.n];
            var undo := Apply(s, a).active[a.id].undo;
            && undo != [] && undo[|undo| - 1].name == a.n
            && var older := undo[|undo| - 1].older;
               && (CommitAt(c', older, cts)[0].ts == cts <==> Free(s.cs.entries, s.active[a.id], a.n))
               && (RollbackAt(c', older) == c <==> Free(s.cs.entries, s.active[a.id], a.n))
  {
    var c, c' := s.cs.entries[a.n], Apply(s, a).cs.entries[a.n];
    var v := Live(s.cs.entries, s.active[a.id], a.n).value;
    var i := AlteredAt(s, a);
    assert GoodAt(s, a.n);
    if i == 0 {
      assert c'[..0] + c'[1..] == c;
    } else {
      assert (c'[..i] + c'[i + 1..])[0] == c'[0];
      assert c'[0].uid == s.cs.nextUid > c[0].uid;
    }
  }

  // ---------- Rolling back below a version that is not the writer's ----------

  lemma {:induction false} DistinctBelow(x: Version, c: Chain, nextUid: nat)
    requires DistinctUids([x] + c, nextUid)
    ensures DistinctUids(c, nextUid) && forall i :: 0 <= i < |c| ==> c[i].uid != x.uid
    ensures c != [] ==> DistinctUids([x] + c[1..], nextUid)
  {
    var all := [x] + c;
    forall i | 0 <= i < |c| ensures c[i].uid < nextUid && c[i].uid != x.uid { assert all[i + 1] == c[i] && all[0] == x; }
    forall i, j | 0 <= i < j < |c| ensures c[i].uid != c[j].uid { assert all[i + 1] == c[i] && all[j + 1] == c[j]; }
    if c != [] {
      var fewer := [x] + c[1..];
      assert fewer[0] == all[0] && forall i :: 0 < i < |fewer| ==> fewer[i] == all[i + 1];
      forall i | 0 <= i < |fewer| ensures fewer[i].uid < nextUid { assert i > 0 ==> all[i + 1].uid < nextUid; }
      forall i, j | 0 <= i < j < |fewer| ensures fewer[i].uid != fewer[j].uid {
        assert all[if i == 0 then 0 else i + 1].uid != all[j + 1].uid;
      }
    }
  }

  lemma {:induction false} RollbackUnderTop(x: Version, c: Chain, id: nat, recorded: seq<nat>, nextUid: nat)
    requires Traced(c, id, recorded) && DistinctUids([x] + c, nextUid)
    ensures RollbackChain([x] + c, recorded) == [x] + c[Block(c, id)..]
    decreases |recorded|
  {
    var b, all := Block(c, id), [x] + c;
    if b == 0 {
      assert c[0..] == c;
    } else {
      TracedBelow(c, id, recorded);
      assert recorded[b - 1] == all[2].uid;
      IndexOfAt(all, nextUid, 2);
      assert all[..1] + all[2..] == [x] + c[1..];
      DistinctBelow(x, c, nextUid);
      RollbackUnderTop(x, c[1..], id, recorded[..b - 1], nextUid);
    }
  }

  lemma {:induction false} RollbackLeavesTop(s: State, id: nat, n: Name, top: Version, c: Chain)
    requires Enabled(s, RollbackStep(id)) && s.active[id].kind != ReadOnly
    requires n in s.cs.entries && s.cs.entries[n] == [top] + c
    requires Traced(c, id, Recorded(s.active[id].undo, n)) && DistinctUids([top] + c, s.cs.nextUid)
    ensures var s' := Apply(s, RollbackStep(id));
            s'.active == s.active - {id} && n in s'.cs.entries && s'.cs.entries[n] == [top] + c[Block(c, id)..]
  {
    RollbackByName(s.cs.entries, s.active[id].undo, n);
    RollbackUnderTop(top, c, id, Recorded(s.active[id].undo, n), s.cs.nextUid);
  }

  /** What an unguarded drop leaves: a tombstone over another open writer's block, recorded by the
      address of that writer's head. */
  lemma {:induction false} DropOverAnother(s: State, a: Step, writer: nat)
    requires Inv(s) && a.DropStep? && Enabled(s, a) && Live(s.cs.entries, s.active[a.id], a.n).Some?
    requires writer in s.active && writer != a.id && Block(s.cs.entries[a.n], writer) > 0
    ensures var s', c, t := Apply(s, a), s.cs.entries[a.n], s.active[a.id];
            var tombstone := Dummy(s.cs.nextUid, a.id, a.oid);
            && s'.cs.entries == s.cs.entries[a.n := [tombstone] + c]
            && s'.active == s.active[a.id := t.(undo := t.undo + [UndoRecord(a.n, c[0].uid)])]
            && Recorded(s'.active[a.id].undo, a.n) == [c[0].uid]
            && Traced(c, writer, Recorded(s'.active[writer].undo, a.n))
            && DistinctUids([tombstone] + c, s'.cs.nextUid)
            && s'.lastTS == s.lastTS
  {
    assert TracedAt(s, writer, a.n) && TracedAt(s, a.id, a.n) && GoodAt(s, a.n);
    assert Block(s.cs.entries[a.n], a.id) == 0;
    RecordedPush(s.active[a.id].undo, UndoRecord(a.n, s.cs.entries[a.n][0].uid), a.n);
  }

  /** If that writer then rolls back, the entry the drop's record points to is no longer in the chain. */
  lemma {:induction false} UnguardedDropLosesItsTarget(s: State, a: Step, writer: nat)
    requires Inv(s) && a.DropStep? && Enabled(s, a) && Live(s.cs.entries, s.active[a.id], a.n).Some?
    requires writer in s.active && writer != a.id && Block(s.cs.entries[a.n], writer) > 0
    ensures var s', target := Apply(Apply(s, a), RollbackStep(writer)), s.cs.entries[a.n][0].uid;
            && a.id in s'.active && UndoRecord(a.n, target) in s'.active[a.id].undo
            && a.n in s'.cs.entries && IndexOf(s'.cs.entries[a.n], target) == |s'.cs.entries[a.n]|
  {
    DropOverAnother(s, a, writer);
    WriterIsNoReader(s, writer, a.n);
    var s1, c := Apply(s, a), s.cs.entries[a.n];
    var tombstone := Dummy(s.cs.nextUid, a.id, a.oid);
    RollbackLeavesTop(s1, writer, a.n, tombstone, c);
    var all, b := [tombstone] + c, Block(c, writer);
    var rest := [tombstone] + c[b..];
    forall i | 0 <= i < |rest| ensures rest[i].uid != c[0].uid {
      assert rest[i] == all[if i == 0 then 0 else i + b] && all[1] == c[0];
    }
  }

  lemma {:induction false} WriterIsNoReader(s: State, writer: nat, n: Name)
    requires Inv(s) && writer in s.active && n in s.cs.entries && Block(s.cs.entries[n], writer) > 0
    ensures s.active[writer].kind != ReadOnly
  {
    assert TracedAt(s, writer, n);
  }

  lemma {:induction false} CommitUnderTop(x: Version, c: Chain, recorded: seq<nat>, cts: nat)
    requires c != [] && forall q :: 0 <= q < |recorded| ==> recorded[q] != x.uid && recorded[q] != c[0].uid
    ensures CommitChain([x] + c, recorded, cts) == [x] + CommitChain(c, recorded, cts)
    ensures CommitChain(c, recorded, cts)[0].uid == c[0].uid
  {
    if recorded != [] {
      var fewer, older := recorded[..|recorded| - 1], recorded[|recorded| - 1];
      CommitUnderTop(x, c, fewer, cts);
      var below := CommitChain(c, fewer, cts);
      assert ([x] + below)[1..] == below;
      var i := IndexOf(below, older);
      assert IndexOf([x] + below, older) == i + 1;
      assert i > 0;
      assert i < |below| ==> ([x] + below)[i := ([x] + below)[i].(ts := cts)] == [x] + below[i - 1 := below[i - 1].(ts := cts)];
    }
  }

  lemma {:induction false} DropCommitted(s: State, id: nat, n: Name, top: Version, c: Chain)
    requires Enabled(s, CommitStep(id)) && s.active[id].kind != ReadOnly && c != []
    requires n in s.cs.entries && s.cs.entries[n] == [top] + c && top.uid != c[0].uid
    requires Recorded(s.active[id].undo, n) == [c[0].uid]
    ensures var s' := Apply(s, CommitStep(id));
            && s'.active == s.active - {id} && s'.lastTS == s.lastTS + 1
            && n in s'.cs.entries && s'.cs.entries[n] == [top.(ts := s.lastTS + 1)] + c
  {
    var all, cts := [top] + c, s.lastTS + 1;
    CommitByName(s.cs.entries, s.active[id].undo, cts, n);
    assert [c[0].uid][..0] == [];
    assert all[1..] == c && IndexOf(all, c[0].uid) == 1;
    assert all[0 := top.(ts := cts)] == [top.(ts := cts)] + c;
  }

  lemma {:induction false} DatedUnderTop(x: Version, c: Chain, id: nat, recorded: seq<nat>, nextUid: nat, cts: nat)
    requires Traced(c, id, recorded) && DistinctUids([x] + c, nextUid)
    ensures CommitChain([x] + c, recorded, cts) == [x] + Dated(c, Block(c, id), Block(c, id), cts)
  {
    var b := Block(c, id);
    DistinctBelow(x, c, nextUid);
    forall q | 0 <= q < b ensures recorded[q] != x.uid && recorded[q] != c[0].uid { }
    CommitUnderTop(x, c, recorded, cts);
    CommitChainDates(c, id, recorded, b, nextUid, cts);
    assert recorded[..b] == recorded;
  }

  lemma {:induction false} WriterCommitted(s: State, id: nat, n: Name, top: Version, c: Chain, recorded: seq<nat>, nextUid: nat)
    requires Enabled(s, CommitStep(id)) && s.active[id].kind != ReadOnly
    requires n in s.cs.entries && s.cs.entries[n] == [top] + c && DistinctUids([top] + c, nextUid)
    requires recorded == Recorded(s.active[id].undo, n) && Traced(c, id, recorded)
    ensures var s' := Apply(s, CommitStep(id)); var b := Block(c, id);
            && s'.lastTS == s.lastTS + 1 && n in s'.cs.entries && s'.cs.entries[n] == [top] + Dated(c, b, b, s.lastTS + 1)
  {
    CommitByName(s.cs.entries, s.active[id].undo, s.lastTS + 1, n);
    DatedUnderTop(top, c, id, recorded, nextUid, s.lastTS + 1);
  }

  lemma {:induction false} BothCommitted(s: State, id: nat, writer: nat, n: Name, top: Version, c: Chain)
    requires Enabled(s, CommitStep(id)) && s.active[id].kind != ReadOnly && s.lastTS + 2 < START_TRANSACTION_ID
    requires writer in s.active && writer != id && s.active[writer].kind != ReadOnly
    requires n in s.cs.entries && s.cs.entries[n] == [top] + c && DistinctUids([top] + c, s.cs.nextUid)
    requires c != [] && Recorded(s.active[id].undo, n) == [c[0].uid]
    requires Traced(c, writer, Recorded(s.active[writer].undo, n))
    ensures var s' := Apply(Apply(s, CommitStep(id)), CommitStep(writer)); var b := Block(c, writer);
            && s'.lastTS == s.lastTS + 2 && n in s'.cs.entries
            && s'.cs.entries[n] == [top.(ts := s.lastTS + 1)] + Dated(c, b, b, s.lastTS + 2)
  {
    var all, dated := [top] + c, top.(ts := s.lastTS + 1);
    assert all[0].uid != all[1].uid;
    DropCommitted(s, id, n, top, c);
    var all' := [dated] + c;
    forall i | 0 <= i < |all'| ensures all'[i].uid == all[i].uid { }
    WriterCommitted(Apply(s, CommitStep(id)), writer, n, dated, c, Recorded(s.active[writer].undo, n), s.cs.nextUid);
  }

  /** If instead both commit, the drop first, the drop's tombstone hides the writer's later commit: timestamps
      increase down the chain, and every transaction that begins later finds nothing under the name. */
  lemma {:induction false} UnguardedDropHidesALaterCommit(s: State, a: Step, writer: nat, t: Txn)
    requires Inv(s) && a.DropStep? && Enabled(s, a) && Live(s.cs.entries, s.active[a.id], a.n).Some?
    requires writer in s.active && writer != a.id && Block(s.cs.entries[a.n], writer) > 0
    requires s.lastTS + 2 < START_TRANSACTION_ID
    ensures var c, b := s.cs.entries[a.n], Block(s.cs.entries[a.n], writer);
            var s' := Apply(Apply(Apply(s, a), CommitStep(a.id)), CommitStep(writer));
            && s'.lastTS == s.lastTS + 2 && a.n in s'.cs.entries
            && s'.cs.entries[a.n] == [Dummy(s.cs.nextUid, s.lastTS + 1, a.oid)] + Dated(c, b, b, s.lastTS + 2)
            && s'.cs.entries[a.n][0].ts == s.lastTS + 1 && s'.cs.entries[a.n][1] == c[0].(ts := s.lastTS + 2)
            && (t.startTS >= s'.lastTS ==> Live(s'.cs.entries, t, a.n) == None)
  {
    DropOverAnother(s, a, writer);
    WriterIsNoReader(s, writer, a.n);
    BothCommitted(Apply(s, a), a.id, writer, a.n, Dummy(s.cs.nextUid, a.id, a.oid), s.cs.entries[a.n]);
  }

  /** A committed tombstone at the head, and no open transaction with a record there. */
  ghost predicate Hidden(s: State, n: Name, c: Chain) {
    && c != [] && c[0].deleted && c[0].ts <= s.lastTS
    && n in s.cs.entries && s.cs.entries[n] == c
    && forall id :: id in s.active ==> Recorded(s.active[id].undo, n) == []
  }

  predicate WritesName(a: Step, n: Name) {
    IsWrite(a) && (a.n == n || (a.RenameStep? && a.newName == n))
  }

  lemma {:induction false} WriteElsewhere(s: State, a: Step, n: Name, c: Chain)
    requires n in s.cs.entries && s.cs.entries[n] == c && IsWrite(a) && Enabled(s, a) && !WritesName(a, n)
    ensures var w := WriteEffect(s.cs, s.active[a.id], a);
            n in w.cs.entries && w.cs.entries[n] == c && forall r :: r in w.records ==> r.name != n
  {
  }

  lemma {:induction false} HiddenStep(s: State, a: Step, n: Name, c: Chain)
    requires Hidden(s, n, c) && !WritesName(a, n)
    ensures Hidden(Apply(s, a), n, c)
  {
    if Enabled(s, a) {
      if IsWrite(a) {
        WriteElsewhere(s, a, n, c);
        RecordedElsewhere(s.active[a.id].undo, WriteEffect(s.cs, s.active[a.id], a).records, n);
      } else if !a.Begin? {
        CommitByName(s.cs.entries, s.active[a.id].undo, s.lastTS + 1, n);
        RollbackByName(s.cs.entries, s.active[a.id].undo, n);
      }
    }
  }

  lemma {:induction false} HiddenRun(s: State, steps: seq<Step>, n: Name, c: Chain)
    requires Hidden(s, n, c) && forall a :: a in steps ==> !WritesName(a, n)
    ensures Hidden(Run(s, steps), n, c)
  {
    if steps != [] {
      HiddenRun(s, steps[..|steps| - 1], n, c);
      HiddenStep(Run(s, steps[..|steps| - 1]), steps[|steps| - 1], n, c);
    }
  }

  lemma {:induction false} OthersUntraced(s: State, writer: nat, n: Name)
    requires Inv(s) && n in s.cs.entries && Block(s.cs.entries[n], writer) > 0
    ensures forall id :: id in s.active && id != writer ==> Recorded(s.active[id].undo, n) == []
  {
    forall id | id in s.active && id != writer ensures Recorded(s.active[id].undo, n) == [] {
      assert TracedAt(s, id, n) && Block(s.cs.entries[n], id) == 0;
    }
  }

  lemma {:induction false} HiddenAfter(s: State, a: Step, writer: nat) returns (c: Chain)
    requires Inv(s) && a.DropStep? && Enabled(s, a) && Live(s.cs.entries, s.active[a.id], a.n).Some?
    requires writer in s.active && writer != a.id && Block(s.cs.entries[a.n], writer) > 0
    requires s.lastTS + 2 < START_TRANSACTION_ID
    ensures Hidden(Apply(Apply(Apply(s, a), CommitStep(a.id)), CommitStep(writer)), a.n, c)
    ensures c[0].ts == s.lastTS + 1 && |c| > 1 && c[1] == s.cs.entries[a.n][0].(ts := s.lastTS + 2)
  {
    UnguardedDropHidesALaterCommit(s, a, writer, s.active[writer]);
    DropOverAnother(s, a, writer);
    OthersUntraced(s, writer, a.n);
    c := Apply(Apply(Apply(s, a), CommitStep(a.id)), CommitStep(writer)).cs.entries[a.n];
  }

  /** It stays hidden in every later run that does not write the name, whoever begins then. */
  lemma {:induction false} TheCommitStaysHidden(s: State, a: Step, writer: nat, steps: seq<Step>)
    requires Inv(s) && a.DropStep? && Enabled(s, a) && Live(s.cs.entries, s.active[a.id], a.n).Some?
    requires writer in s.active && writer != a.id && Block(s.cs.entries[a.n], writer) > 0
    requires s.lastTS + 2 < START_TRANSACTION_ID && forall step :: step in steps ==> !WritesName(step, a.n)
    ensures var s' := Run(Apply(Apply(Apply(s, a), CommitStep(a.id)), CommitStep(writer)), steps);
            && a.n in s'.cs.entries && |s'.cs.entries[a.n]| > 1
            && s'.cs.entries[a.n][1] == s.cs.entries[a.n][0].(ts := s.lastTS + 2)
            && Live(s'.cs.entries, FreshReader(s'), a.n) == None
  {
    var c := HiddenAfter(s, a, writer);
    HiddenRun(Apply(Apply(Apply(s, a), CommitStep(a.id)), CommitStep(writer)), steps, a.n, c);
  }

  const FIRST: nat := START_TRANSACTION_ID + 1
  const SECOND: nat := START_TRANSACTION_ID + 2

  /** One table, and two transactions that have written nothing yet. */
  lemma {:induction false} TwoBegun(n: Name, b: Body) returns (s: State, v: Version)
    ensures Inv(s) && s.cs == CatSet(map[n := [v]], 8, 1) && s.lastTS + 2 < START_TRANSACTION_ID && v.body == b && !v.deleted
    ensures FIRST in s.active && s.active[FIRST] == Txn(FIRST, s.lastTS, Write, [])
    ensures SECOND in s.active && s.active[SECOND] == Txn(SECOND, s.lastTS, Write, [])
    ensures Live(s.cs.entries, s.active[FIRST], n) == Live(s.cs.entries, s.active[SECOND], n) == Some(v)
  {
    v := Version(0, 0, false, 7, false, b);
    var cs := CatSet(map[n := [v]], 8, 1);
    forall m ensures LoadedAt(cs, m) { }
    OpenedHolds(cs);
    var s1 := Apply(Opened(cs), Begin(Write));
    StepRefines(Opened(cs), Begin(Write));
    StepRefines(s1, Begin(Write));
    s := Apply(s1, Begin(Write));
  }

  /** Such a state, two transactions and one table: the first has altered it, the second may drop it. */
  lemma {:induction false} SuchAStateIsReached(n: Name, b: Body) returns (s: State)
    ensures Inv(s) && Enabled(s, DropStep(SECOND, n, 7)) && Live(s.cs.entries, s.active[SECOND], n).Some?
    ensures FIRST in s.active && s.active[FIRST].kind == Write && Block(s.cs.entries[n], FIRST) > 0
    ensures s.lastTS + 2 < START_TRANSACTION_ID
  {
    var s2, v := TwoBegun(n, b);
    var alter := AlterStep(FIRST, n, b, false);
    StepRefines(s2, alter);
    s := Apply(s2, alter);
    StepUnseen(s2, alter, SECOND, n);
  }

  // ---------- A rename whose second half throws ----------

  /** Whether the creation half throws shows before the rename: by the new name as it then is. */
  lemma {:induction false} RenameSucceedsExactly(s: State, a: Step)
    requires Inv(s) && a.RenameStep? && Enabled(s, a)
    requires AlterOutcome(s.cs.entries, s.active[a.id], a.n) == Done && Free(s.cs.entries, s.active[a.id], a.n)
    ensures Rename(s.cs, s.active[a.id], a.n, a.newName).outcome == Done <==>
              a.newName == a.n || CreateOutcome(s.cs.entries, s.active[a.id], a.newName) == Done
  {
  }

  /** A rename of a free name keeps the invariant exactly when its new name is the old one or can be created. */
  lemma {:induction false} RenameKeepsExactlyWhenItSucceeds(s: State, a: Step)
    requires Inv(s) && a.RenameStep? && Enabled(s, a)
    requires AlterOutcome(s.cs.entries, s.active[a.id], a.n) == Done && Free(s.cs.entries, s.active[a.id], a.n)
    ensures Inv(Apply(s, a)) <==> a.newName == a.n || CreateOutcome(s.cs.entries, s.active[a.id], a.newName) == Done
  {
    var t := s.active[a.id];
    RenameSucceedsExactly(s, a);
    if Rename(s.cs, t, a.n, a.newName).outcome == Done {
      WriteKeeps(s, a);
    } else {
      var s' := Apply(s, a);
      var c := s.cs.entries[a.n];
      var tombstone := Dummy(s.cs.nextUid, a.id, Live(s.cs.entries, t, a.n).value.oid);
      assert s'.cs.entries[a.n] == [tombstone] + c;
      assert ([tombstone] + c)[1..] == c;
      assert s'.active[a.id].undo == t.undo;
      assert TracedAt(s, a.id, a.n);
      assert Block([tombstone] + c, a.id) == Block(c, a.id) + 1;
      assert !TracedAt(s', a.id, a.n);
    }
  }

  /** Such a state, two transactions and one table: the first has created the name to which the second may rename it. */
  lemma {:induction false} SuchARenameIsReached(n: Name, m: Name, b: Body) returns (s: State)
    requires m != n
    ensures Inv(s) && Enabled(s, RenameStep(SECOND, n, m))
    ensures AlterOutcome(s.cs.entries, s.active[SECOND], n) == Done && Free(s.cs.entries, s.active[SECOND], n)
    ensures Rename(s.cs, s.active[SECOND], n, m).outcome != Done
  {
    var s2, v := TwoBegun(n, b);
    var create := CreateStep(FIRST, m, false, b);
    StepRefines(s2, create);
    s := Apply(s2, create);
    StepUnseen(s2, create, SECOND, n);
    assert s.cs.entries[n] == [v];
    RenameSucceedsExactly(s, RenameStep(SECOND, n, m));
  }

  lemma {:induction false} ThrownRename(s: State, a: Step)
    requires Inv(s) && a.RenameStep? && Enabled(s, a)
    requires AlterOutcome(s.cs.entries, s.active[a.id], a.n) == Done
    requires Rename(s.cs, s.active[a.id], a.n, a.newName).outcome != Done
    ensures var tombstone := Dummy(s.cs.nextUid, a.id, Live(s.cs.entries, s.active[a.id], a.n).value.oid);
            Apply(s, a) == s.(cs := CatSet(s.cs.entries[a.n := [tombstone] + s.cs.entries[a.n]], s.cs.nextOID, s.cs.nextUid + 1))
  {
    var t := s.active[a.id];
    assert t.undo + [] == t.undo;
    assert s.active[a.id := t] == s.active;
  }

  // ---------- A name that stays blocked ----------

  /** The head of the name's chain belongs to a transaction that is gone, and no open transaction has a record there. */
  ghost predicate Blocked(s: State, n: Name, c: Chain) {
    && c != [] && n in s.cs.entries && s.cs.entries[n] == c
    && START_TRANSACTION_ID < c[0].ts <= s.lastTxnID && c[0].ts !in s.active
    && forall id :: id in s.active ==> s.active[id].id == id && Recorded(s.active[id].undo, n) == []
  }

  /** The writes that do not look for a conflict: a drop, and what a recovery transaction alters. */
  predicate Unchecked(s: State, a: Step, n: Name) {
    && Enabled(s, a) && (a.DropStep? || a.AlterStep? || a.RenameStep?) && a.n == n
    && (a.DropStep? || s.active[a.id].kind == Recovery)
    && Live(s.cs.entries, s.active[a.id], n).Some?
  }

  lemma {:induction false} RecordedElsewhere(undo: seq<UndoRecord>, more: seq<UndoRecord>, n: Name)
    requires forall r :: r in more ==> r.name != n
    ensures Recorded(undo + more, n) == Recorded(undo, n)
    decreases |more|
  {
    if more == [] {
      assert undo + more == undo;
    } else {
      var last := more[|more| - 1];
      RecordedElsewhere(undo, more[..|more| - 1], n);
      assert last in more && undo + more == (undo + more[..|more| - 1]) + [last];
      RecordedPush(undo + more[..|more| - 1], last, n);
    }
  }

  lemma {:induction false} BlockedWrite(s: State, a: Step, n: Name, c: Chain)
    requires Blocked(s, n, c) && IsWrite(a) && Enabled(s, a)
    ensures var w := WriteEffect(s.cs, s.active[a.id], a);
            && n in w.cs.entries
            && (w.cs.entries[n] == c <==> !Unchecked(s, a, n))
            && (!Unchecked(s, a, n) ==> forall r :: r in w.records ==> r.name != n)
  {
    var t, w := s.active[a.id], WriteEffect(s.cs, s.active[a.id], a);
    assert WWConflict(t, c[0]);
    if w.cs.entries[n] != c { assert |w.cs.entries[n]| > |c|; }
  }

  /** No step changes the chain of a blocked name, or lets it go, except exactly the unchecked writes. */
  lemma {:induction false} BlockedStep(s: State, a: Step, n: Name, c: Chain)
    requires Blocked(s, n, c)
    ensures Blocked(Apply(s, a), n, c) <==> !Unchecked(s, a, n)
  {
    if Enabled(s, a) {
      var s' := Apply(s, a);
      if IsWrite(a) {
        BlockedWrite(s, a, n, c);
        if !Unchecked(s, a, n) {
          RecordedElsewhere(s.active[a.id].undo, WriteEffect(s.cs, s.active[a.id], a).records, n);
        }
      } else if !a.Begin? {
        CommitByName(s.cs.entries, s.active[a.id].undo, s.lastTS + 1, n);
        RollbackByName(s.cs.entries, s.active[a.id].undo, n);
      }
    }
  }

  ghost predicate CheckedRun(s: State, steps: seq<Step>, n: Name) {
    steps != [] ==>
      && CheckedRun(s, steps[..|steps| - 1], n)
      && !Unchecked(Run(s, steps[..|steps| - 1]), steps[|steps| - 1], n)
  }

  lemma {:induction false} BlockedRun(s: State, steps: seq<Step>, n: Name, c: Chain)
    requires Blocked(s, n, c) && CheckedRun(s, steps, n)
    ensures Blocked(Run(s, steps), n, c)
  {
    if steps != [] {
      BlockedRun(s, steps[..|steps| - 1], n, c);
      BlockedStep(Run(s, steps[..|steps| - 1]), steps[|steps| - 1], n, c);
    }
  }

  lemma {:induction false} OthersRecordNothing(s: State, id: nat, n: Name)
    requires Inv(s) && id in s.active && n in s.cs.entries && Free(s.cs.entries, s.active[id], n)
    ensures forall other :: other in s.active && other != id ==> Recorded(s.active[other].undo, n) == []
  {
    forall other | other in s.active && other != id ensures Recorded(s.active[other].undo, n) == [] {
      assert TracedAt(s, other, n) && SoundAt(s.cs.entries, n, s.lastTS, s.lastTxnID);
      assert Block(s.cs.entries[n], other) == 0;
    }
  }

  lemma {:induction false} ThrownRenameRolledBack(s: State, a: Step)
    requires Inv(s) && a.RenameStep? && Enabled(s, a)
    requires AlterOutcome(s.cs.entries, s.active[a.id], a.n) == Done && Free(s.cs.entries, s.active[a.id], a.n)
    requires Rename(s.cs, s.active[a.id], a.n, a.newName).outcome != Done
    ensures var c, oid := s.cs.entries[a.n], Live(s.cs.entries, s.active[a.id], a.n).value.oid;
            Blocked(Apply(Apply(s, a), RollbackStep(a.id)), a.n, [Dummy(s.cs.nextUid, a.id, oid)] + c[Block(c, a.id)..])
  {
    ThrownRename(s, a);
    var c := s.cs.entries[a.n];
    var tombstone := Dummy(s.cs.nextUid, a.id, Live(s.cs.entries, s.active[a.id], a.n).value.oid);
    assert TracedAt(s, a.id, a.n) && GoodAt(s, a.n);
    RollbackLeavesTop(Apply(s, a), a.id, a.n, tombstone, c);
    OthersRecordNothing(s, a.id, a.n);
  }

  /** When the creation half of a rename throws and the transaction is rolled back, its tombstone stays at the head of
      the old name, and in every later run without an unchecked write there, no transaction whatever can create the
      name, alter it or rename it. */
  lemma {:induction false} ThrowingRenameBlocksTheName(s: State, a: Step, steps: seq<Step>)
    requires Inv(s) && a.RenameStep? && Enabled(s, a)
    requires AlterOutcome(s.cs.entries, s.active[a.id], a.n) == Done && Free(s.cs.entries, s.active[a.id], a.n)
    requires Rename(s.cs, s.active[a.id], a.n, a.newName).outcome != Done
    requires CheckedRun(Apply(Apply(s, a), RollbackStep(a.id)), steps, a.n)
    ensures var s' := Run(Apply(Apply(s, a), RollbackStep(a.id)), steps);
            && a.n in s'.cs.entries && s'.cs.entries[a.n] != [] && s'.cs.entries[a.n][0].ts == a.id && a.id !in s'.active
            && forall id :: id in s'.active ==>
                 && CreateOutcome(s'.cs.entries, s'.active[id], a.n) != Done
                 && (s'.active[id].kind != Recovery ==> AlterOutcome(s'.cs.entries, s'.active[id], a.n) != Done)
  {
    ThrownRenameRolledBack(s, a);
    var c, oid := s.cs.entries[a.n], Live(s.cs.entries, s.active[a.id], a.n).value.oid;
    BlockedRun(Apply(Apply(s, a), RollbackStep(a.id)), steps, a.n, [Dummy(s.cs.nextUid, a.id, oid)] + c[Block(c, a.id)..]);
  }
}
