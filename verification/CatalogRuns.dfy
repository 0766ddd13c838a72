/**
 Whole runs of the catalog as the source takes its steps, undo records and all.
 */
module CatalogRuns {
  import opened Basics
  import opened CatalogModel
  import opened CatalogSnapshots
  import opened CatalogWriters

  /** What create and a non-recovery alter check for themselves, asked of every write; and a rename that goes through. */
  ghost predicate Guarded(s: State, a: Step) {
    Enabled(s, a) && IsWrite(a) ==>
      var t := s.active[a.id];
      && (a.DropStep? && Live(s.cs.entries, t, a.n).Some? ==> Free(s.cs.entries, t, a.n))
      && (a.AlterStep? && AlterOutcome(s.cs.entries, t, a.n) == Done ==> Free(s.cs.entries, t, a.n))
      && (a.RenameStep? && AlterOutcome(s.cs.entries, t, a.n) == Done ==>
            Free(s.cs.entries, t, a.n) && Rename(s.cs, t, a.n, a.newName).outcome == Done)
  }

  // ---------- Writes ----------

  lemma {:induction false} RefusedKeeps(s: State, id: nat, w: WriteResult)
    requires SingleWriter(s) && id in s.active
    requires w.cs.entries == s.cs.entries && w.records == [] && w.cs.nextUid == s.cs.nextUid
    ensures SingleWriter(Written(s, id, w))
  {
    var s' := Written(s, id, w);
    assert s.active[id].undo + [] == s.active[id].undo;
    assert s'.active == s.active;
    forall n ensures GoodAt(s', n) { assert GoodAt(s, n); if n in s.cs.entries { GoodFrame(s.cs.entries[n], s, s'); } }
    forall other, n ensures TracedAt(s', other, n) { assert TracedAt(s, other, n); }
    forall cts ensures HistoryAt(s', cts) { assert HistoryAt(s, cts); }
  }

  /** A name without a conflict holds, at its head, exactly what the transaction sees. */
  lemma {:induction false} SupersedesWhatItSees(s: State, id: nat, n: Name)
    requires Shape(s) && id in s.active && n in s.cs.entries
    ensures s.cs.entries[n] != []
    ensures Free(s.cs.entries, s.active[id], n) <==> Visible(s.cs.entries[n], s.active[id]) == Some(s.cs.entries[n][0])
  {
    assert SoundAt(s.cs.entries, n, s.lastTS, s.lastTxnID);
    var c, t := s.cs.entries[n], s.active[id];
    if WWConflict(t, c[0]) {
      assert !Sees(t, c[0]);
    }
  }

  lemma {:induction false} CreateKeeps(s: State, a: Step)
    requires SingleWriter(s) && a.CreateStep? && Enabled(s, a)
    ensures SingleWriter(Apply(s, a))
  {
    var t, cs := s.active[a.id], s.cs;
    var w := Create(cs, t, a.n, a.isFunction, a.body);
    if w.outcome == Done {
      var ground := Dummy(cs.nextUid, 0, cs.nextOID);
      var added := Version(cs.nextUid + 1, t.id, false, cs.nextOID, a.isFunction, a.body);
      GrownKeeps(s, a.id, a.n, ground, added, cs.nextOID + 1, cs.nextUid + 2);
      assert Apply(s, a) == Grown(s, a.id, a.n, ground, added, cs.nextOID + 1, cs.nextUid + 2);
    } else {
      RefusedKeeps(s, a.id, w);
    }
  }

  lemma {:induction false} DropKeeps(s: State, a: Step)
    requires SingleWriter(s) && a.DropStep? && Enabled(s, a) && Guarded(s, a)
    ensures SingleWriter(Apply(s, a))
  {
    var t, cs := s.active[a.id], s.cs;
    var w := Drop(cs, t, a.n, a.oid);
    if w.outcome == Done {
      var tombstone := Dummy(cs.nextUid, t.id, a.oid);
      GrownKeeps(s, a.id, a.n, tombstone, tombstone, cs.nextOID, cs.nextUid + 1);
      assert Apply(s, a) == Grown(s, a.id, a.n, tombstone, tombstone, cs.nextOID, cs.nextUid + 1);
    } else {
      RefusedKeeps(s, a.id, w);
    }
  }

  lemma {:induction false} AlterKeeps(s: State, a: Step)
    requires SingleWriter(s) && a.AlterStep? && Enabled(s, a) && Guarded(s, a)
    ensures SingleWriter(Apply(s, a))
  {
    var t, cs := s.active[a.id], s.cs;
    var w := Alter(cs, t, a.n, a.body, a.takesOID);
    if w.outcome == Done {
      SupersedesWhatItSees(s, a.id, a.n);
      var added := Live(cs.entries, t, a.n).value.(uid := cs.nextUid, ts := t.id, body := a.body);
      GrownKeeps(s, a.id, a.n, added, added, w.cs.nextOID, cs.nextUid + 1);
      assert Apply(s, a) == Grown(s, a.id, a.n, added, added, w.cs.nextOID, cs.nextUid + 1);
    } else {
      RefusedKeeps(s, a.id, w);
    }
  }

  /** The drop half of a rename, as a state of its own. */
  ghost function Dropped(s: State, id: nat, n: Name): State
    requires id in s.active && Live(s.cs.entries, s.active[id], n).Some?
  {
    var tombstone := Dummy(s.cs.nextUid, id, Live(s.cs.entries, s.active[id], n).value.oid);
    Grown(s, id, n, tombstone, tombstone, s.cs.nextOID, s.cs.nextUid + 1)
  }

  lemma {:induction false} RenameInTwo(s: State, a: Step)
    requires Shape(s) && a.RenameStep? && Enabled(s, a)
    requires AlterOutcome(s.cs.entries, s.active[a.id], a.n) == Done && Free(s.cs.entries, s.active[a.id], a.n)
    requires Rename(s.cs, s.active[a.id], a.n, a.newName).outcome == Done
    ensures var s1 := Dropped(s, a.id, a.n);
            var v := Live(s.cs.entries, s.active[a.id], a.n).value;
            && Free(s1.cs.entries, s1.active[a.id], a.newName)
            && Apply(s, a) == Grown(s1, a.id, a.newName, Dummy(s1.cs.nextUid, 0, v.oid),
                                    Version(s1.cs.nextUid + 1, a.id, false, v.oid, v.isFunction, v.body),
                                    s1.cs.nextOID, s1.cs.nextUid + 2)
  {
    var t := s.active[a.id];
    var v := Live(s.cs.entries, t, a.n).value;
    SupersedesWhatItSees(s, a.id, a.n);
    var s1 := Dropped(s, a.id, a.n);
    assert Drop(s.cs, t, a.n, v.oid).cs == s1.cs;
    var created := CreateNoLock(s1.cs, t, a.newName, v.oid, v.isFunction, v.body);
    var first := UndoRecord(a.n, v.uid);
    assert t.undo + ([first] + created.records) == (t.undo + [first]) + created.records;
  }

  lemma {:induction false} RenameKeeps(s: State, a: Step)
    requires SingleWriter(s) && a.RenameStep? && Enabled(s, a) && Guarded(s, a)
    ensures SingleWriter(Apply(s, a))
  {
    var t := s.active[a.id];
    if AlterOutcome(s.cs.entries, t, a.n) == Done {
      RenameInTwo(s, a);
      var v := Live(s.cs.entries, t, a.n).value;
      var tombstone := Dummy(s.cs.nextUid, a.id, v.oid);
      GrownKeeps(s, a.id, a.n, tombstone, tombstone, s.cs.nextOID, s.cs.nextUid + 1);
      var s1 := Dropped(s, a.id, a.n);
      GrownKeeps(s1, a.id, a.newName, Dummy(s1.cs.nextUid, 0, v.oid),
                 Version(s1.cs.nextUid + 1, a.id, false, v.oid, v.isFunction, v.body), s1.cs.nextOID, s1.cs.nextUid + 2);
    } else {
      RefusedKeeps(s, a.id, Rename(s.cs, t, a.n, a.newName));
    }
  }

  // ---------- Commit, rollback, begin ----------

  lemma {:induction false} RestampGood(c: Chain, s: State, id: nat, s': State)
    requires SingleWriter(s) && id in s.active && GoodChain(c, s)
    requires s'.lastTS == s.lastTS + 1 && s'.active == s.active - {id} && s'.cs.nextUid == s.cs.nextUid
    requires s'.commits == s.commits[s.lastTS + 1 := s.active[id].startTS]
    ensures GoodChain(RestampChain(c, id, s.lastTS + 1), s')
  {
    var c' := RestampChain(c, id, s.lastTS + 1);
    forall i, j | 0 <= i < j < |c'| ensures Follows(c'[i], c'[j], s'.active, s'.commits) {
      assert Follows(c[i], c[j], s.active, s.commits);
      assert HistoryAt(s, c[i].ts) && HistoryAt(s, s.lastTS + 1);
    }
  }

  lemma {:induction false} RestampTraced(c: Chain, id: nat, cts: nat, other: nat, recorded: seq<nat>)
    requires Traced(c, other, recorded) && other != id && other != cts
    ensures Traced(RestampChain(c, id, cts), other, recorded)
  {
    var c' := RestampChain(c, id, cts);
    var b := Block(c, other);
    BlockIs(c', other, b);
  }

  lemma {:induction false} BlockIs(c: Chain, id: nat, b: nat)
    requires b < |c| && c[b].ts != id && forall i :: 0 <= i < b ==> c[i].ts == id
    ensures Block(c, id) == b
  {
  }

  lemma {:induction false} CommitKeeps(s: State, a: Step)
    requires SingleWriter(s) && a.CommitStep? && Enabled(s, a) && s.active[a.id].kind != ReadOnly
    ensures SingleWriter(ApplyByOwner(s, a))
  {
    var s', cts := ApplyByOwner(s, a), s.lastTS + 1;
    StepKeepsShape(s, a);
    forall n ensures GoodAt(s', n) {
      assert GoodAt(s, n);
      if n in s.cs.entries { RestampGood(s.cs.entries[n], s, a.id, s'); }
    }
    forall other, n ensures TracedAt(s', other, n) {
      assert TracedAt(s, other, n);
      if other in s'.active && n in s.cs.entries {
        RestampTraced(s.cs.entries[n], a.id, cts, other, Recorded(s.active[other].undo, n));
      }
    }
    forall c ensures HistoryAt(s', c) { assert HistoryAt(s, c); }
  }

  /** The chain without the writer's versions is the chain below them. */
  lemma {:induction false} WithoutGood(c: Chain, s: State, id: nat, s': State)
    requires SingleWriter(s) && id in s.active && GoodChain(c, s)
    requires s'.lastTS == s.lastTS && s'.commits == s.commits && s'.cs.nextUid == s.cs.nextUid
    requires forall k :: k in s.active && k != id ==> k in s'.active && s'.active[k].startTS == s.active[k].startTS
    ensures WithoutChain(c, id) == c[Block(c, id)..]
    ensures GoodChain(WithoutChain(c, id), s')
  {
    var b := Block(c, id);
    forall i | b <= i < |c| ensures c[i].ts != id { CommittedBelow(c, s, id, i); }
    WithoutIsDrop(c, id);
    var c' := c[b..];
    forall i, j | 0 <= i < j < |c'| ensures Follows(c'[i], c'[j], s'.active, s'.commits) {
      assert Follows(c[b + i], c[b + j], s.active, s.commits);
    }
  }

  lemma {:induction false} WithoutTraced(c: Chain, s: State, id: nat, other: nat, recorded: seq<nat>)
    requires SingleWriter(s) && id in s.active && other in s.active && GoodChain(c, s) && Block(c, id) < |c|
    requires Traced(c, other, recorded)
    ensures Traced(c[Block(c, id)..], other, if other == id then [] else recorded)
  {
    var b := Block(c, id);
    if b > 0 {
      CommittedBelow(c, s, id, b);
      BlockIs(c[b..], other, 0);
    } else {
      assert c[b..] == c;
    }
  }

  lemma {:induction false} RollbackKeeps(s: State, a: Step)
    requires SingleWriter(s) && (a.RollbackStep? || a.FailStep?) && Enabled(s, a) && s.active[a.id].kind != ReadOnly
    ensures SingleWriter(ApplyByOwner(s, a))
  {
    var s' := ApplyByOwner(s, a);
    StepKeepsShape(s, a);
    forall n ensures GoodAt(s', n) {
      assert GoodAt(s, n);
      if n in s.cs.entries { WithoutGood(s.cs.entries[n], s, a.id, s'); }
    }
    forall other, n ensures TracedAt(s', other, n) {
      assert TracedAt(s, other, n) && TracedAt(s, a.id, n) && GoodAt(s, n);
      if other in s'.active && n in s.cs.entries {
        WithoutGood(s.cs.entries[n], s, a.id, s');
        WithoutTraced(s.cs.entries[n], s, a.id, other, Recorded(s.active[other].undo, n));
      }
    }
    forall cts ensures HistoryAt(s', cts) { assert HistoryAt(s, cts); }
  }

  /** A read-only transaction that ends wrote nothing. */
  ghost predicate ReadersWriteNothing(s: State) {
    forall id :: id in s.active && s.active[id].kind == ReadOnly ==> s.active[id].undo == []
  }

  lemma {:induction false} LeaveKeeps(s: State, id: nat)
    requires SingleWriter(s) && id in s.active && s.active[id].undo == []
    ensures SingleWriter(s.(active := s.active - {id}))
  {
    var s' := s.(active := s.active - {id});
    forall n ensures GoodAt(s', n) {
      assert GoodAt(s, n) && TracedAt(s, id, n);
      if n in s.cs.entries {
        var c := s.cs.entries[n];
        WithoutGood(c, s, id, s');
        assert c[0..] == c;
      }
    }
    forall other, n ensures TracedAt(s', other, n) { assert TracedAt(s, other, n); }
    forall cts ensures HistoryAt(s', cts) { assert HistoryAt(s, cts); }
  }

  lemma {:induction false} BeginKeeps(s: State, a: Step)
    requires SingleWriter(s) && a.Begin?
    ensures SingleWriter(ApplyByOwner(s, a))
  {
    var s', id := ApplyByOwner(s, a), s.lastTxnID + 1;
    StepKeepsShape(s, a);
    forall n ensures GoodAt(s', n) {
      assert GoodAt(s, n);
      if n in s.cs.entries {
        var c := s.cs.entries[n];
        forall i, j | 0 <= i < j < |c| ensures Follows(c[i], c[j], s'.active, s'.commits) {
          assert Follows(c[i], c[j], s.active, s.commits);
        }
      }
    }
    forall other, n ensures TracedAt(s', other, n) {
      assert TracedAt(s, other, n) && GoodAt(s, n);
      assert SoundAt(s.cs.entries, n, s.lastTS, s.lastTxnID);
      if other == id && n in s.cs.entries {
        BlockIs(s.cs.entries[n], id, 0);
      }
    }
    forall cts ensures HistoryAt(s', cts) { assert HistoryAt(s, cts); }
  }

  lemma {:induction false} RefreshKeeps(s: State, a: Step)
    requires SingleWriter(s) && a.RefreshStep? && Enabled(s, a)
    ensures SingleWriter(ApplyByOwner(s, a))
  {
    var s' := ApplyByOwner(s, a);
    StepKeepsShape(s, a);
    forall n ensures GoodAt(s', n) {
      assert GoodAt(s, n);
      if n in s.cs.entries {
        var c := s.cs.entries[n];
        forall i, j | 0 <= i < j < |c| ensures Follows(c[i], c[j], s'.active, s'.commits) {
          assert Follows(c[i], c[j], s.active, s.commits);
        }
      }
    }
    forall other, n ensures TracedAt(s', other, n) { assert TracedAt(s, other, n); }
    forall cts ensures HistoryAt(s', cts) { assert HistoryAt(s, cts); }
  }

  // ---------- Every step, every run ----------

  ghost predicate Inv(s: State) {
    SingleWriter(s) && ReadersWriteNothing(s)
  }

  lemma {:induction false} WriteKeeps(s: State, a: Step)
    requires Inv(s) && IsWrite(a) && Enabled(s, a) && Guarded(s, a)
    ensures Inv(Apply(s, a))
  {
    match a
    case CreateStep(_, _, _, _) => CreateKeeps(s, a);
    case DropStep(_, _, _) => DropKeeps(s, a);
    case AlterStep(_, _, _, _) => AlterKeeps(s, a);
    case RenameStep(_, _, _) => RenameKeeps(s, a);
  }

  lemma {:induction false} ControlKeeps(s: State, a: Step)
    requires Inv(s) && !IsWrite(a) && Enabled(s, a)
    ensures Inv(ApplyByOwner(s, a))
  {
    match a
    case Begin(_) => BeginKeeps(s, a);
    case RefreshStep(_) => RefreshKeeps(s, a);
    case CommitStep(id) => if s.active[id].kind == ReadOnly { LeaveKeeps(s, id); } else { CommitKeeps(s, a); }
    case RollbackStep(id) => if s.active[id].kind == ReadOnly { LeaveKeeps(s, id); } else { RollbackKeeps(s, a); }
    case FailStep(_) => RollbackKeeps(s, a);
  }

  /** A guarded step of the source is the step as it is meant, and keeps the invariant. */
  lemma {:induction false} StepRefines(s: State, a: Step)
    requires Inv(s) && Guarded(s, a)
    ensures Apply(s, a) == ApplyByOwner(s, a)
    ensures Inv(Apply(s, a))
  {
    if Enabled(s, a) {
      if IsWrite(a) {
        WriteKeeps(s, a);
      } else {
        if a.CommitStep? {
          CommitByUndo(s, a.id, s.lastTS + 1);
        } else if a.RollbackStep? || a.FailStep? {
          RollbackByUndo(s, a.id);
        }
        assert EndedByUndo(s, a) == EndedByOwner(s, a);
        ControlKeeps(s, a);
      }
    }
  }

  ghost predicate GuardedRun(s: State, steps: seq<Step>) {
    steps != [] ==>
      && GuardedRun(s, steps[..|steps| - 1])
      && Guarded(Run(s, steps[..|steps| - 1]), steps[|steps| - 1])
  }

  /** Over a whole guarded run, the undo records do exactly what commit and rollback mean. */
  lemma {:induction false} RunRefines(s: State, steps: seq<Step>)
    requires Inv(s) && GuardedRun(s, steps)
    ensures Run(s, steps) == RunByOwner(s, steps)
    ensures Inv(Run(s, steps))
  {
    if steps != [] {
      RunRefines(s, steps[..|steps| - 1]);
      StepRefines(Run(s, steps[..|steps| - 1]), steps[|steps| - 1]);
    }
  }

  /** Snapshot stability of the catalog as written: commits and rollbacks through undo records. */
  lemma {:induction false} SnapshotStabilityThroughUndo(s: State, steps: seq<Step>, id: nat, n: Name)
    requires Inv(s) && GuardedRun(s, steps) && id in s.active
    requires forall a :: a in steps ==> !TakenBy(a, id)
    ensures id in Run(s, steps).active && Run(s, steps).active[id] == s.active[id]
    ensures Live(Run(s, steps).cs.entries, s.active[id], n) == Live(s.cs.entries, s.active[id], n)
  {
    RunRefines(s, steps);
    SnapshotStability(s, steps, id, n);
  }

  /** In every chain of every guarded run: one writer's block on top, then committed versions with
      non-increasing timestamps; of two different writers the lower one committed before the upper
      one's snapshot was taken, so their lifetimes do not overlap and no update is lost. */
  lemma {:induction false} WritersNeverOverlap(s0: State, steps: seq<Step>, n: Name, i: nat, j: nat)
    requires Inv(s0) && GuardedRun(s0, steps)
    requires n in Run(s0, steps).cs.entries && i < j < |Run(s0, steps).cs.entries[n]|
    ensures var s := Run(s0, steps);
            var upper, lower := s.cs.entries[n][i].ts, s.cs.entries[n][j].ts;
            && (lower > START_TRANSACTION_ID ==> upper == lower)
            && (upper > START_TRANSACTION_ID && lower != upper ==> upper in s.active && lower <= s.active[upper].startTS)
            && (upper <= START_TRANSACTION_ID && lower != upper ==>
                  upper in s.commits && lower <= s.commits[upper] < upper)
  {
    RunRefines(s0, steps);
    var s := Run(s0, steps);
    assert GoodAt(s, n) && SoundAt(s.cs.entries, n, s.lastTS, s.lastTxnID);
    var c := s.cs.entries[n];
    assert Follows(c[i], c[j], s.active, s.commits);
    assert HistoryAt(s, c[i].ts);
  }
}
