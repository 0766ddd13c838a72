/**
 Snapshot stability: over every interleaving of the other transactions' steps, what an open
 transaction finds under a name does not change, and its search never runs off a chain.
 */
module CatalogSnapshots {
  import opened Basics
  import opened CatalogModel

  /** Holds in every run, whatever the writers do. */
  ghost predicate Shape(s: State) {
    && s.lastTS < START_TRANSACTION_ID <= s.lastTxnID
    && (forall id :: id in s.active ==> OpenTxn(s.active[id], id, s.lastTS, s.lastTxnID))
    && Sound(s.cs.entries, s.lastTS, s.lastTxnID)
  }

  ghost predicate OpenTxn(t: Txn, id: nat, lastTS: nat, lastTxnID: nat) {
    t.id == id && START_TRANSACTION_ID < id <= lastTxnID && t.startTS <= lastTS
  }

  ghost predicate Sound(entries: map<Name, Chain>, lastTS: nat, lastTxnID: nat) {
    forall n :: SoundAt(entries, n, lastTS, lastTxnID)
  }

  ghost predicate SoundAt(entries: map<Name, Chain>, n: Name, lastTS: nat, lastTxnID: nat) {
    n in entries ==> Grounded(entries[n]) && Stamped(entries[n], lastTS, lastTxnID)
  }

  /** A chain ends on a version that every snapshot contains. */
  ghost predicate Grounded(c: Chain) {
    c != [] && c[|c| - 1].ts == 0
  }

  ghost predicate Stamped(c: Chain, lastTS: nat, lastTxnID: nat) {
    forall i :: 0 <= i < |c| ==> c[i].ts <= lastTS || START_TRANSACTION_ID < c[i].ts <= lastTxnID
  }

  /** The transaction a step belongs to. */
  ghost predicate TakenBy(a: Step, id: nat) {
    !a.Begin? && a.id == id
  }

  // ---------- One chain ----------

  lemma {:induction false} VisibleRestamped(c: Chain, t: Txn, id: nat, cts: nat)
    requires id != t.id && id > t.startTS && cts != t.id && cts > t.startTS
    ensures Visible(RestampChain(c, id, cts), t) == Visible(c, t)
  {
    if c != [] && !Sees(t, c[0]) {
      VisibleRestamped(c[1..], t, id, cts);
      assert RestampChain(c, id, cts)[1..] == RestampChain(c[1..], id, cts);
    }
  }

  lemma {:induction false} VisibleWithout(c: Chain, t: Txn, id: nat)
    requires id != t.id && id > t.startTS
    ensures Visible(WithoutChain(c, id), t) == Visible(c, t)
  {
    if c != [] && !Sees(t, c[0]) {
      VisibleWithout(c[1..], t, id);
      assert c[0].ts != id ==> WithoutChain(c, id)[1..] == WithoutChain(c[1..], id);
    }
  }

  lemma {:induction false} WithoutGrounded(c: Chain, id: nat)
    requires Grounded(c) && id != 0
    ensures Grounded(WithoutChain(c, id))
  {
    if |c| > 1 {
      WithoutGrounded(c[1..], id);
    }
  }

  lemma {:induction false} WithoutStamped(c: Chain, id: nat, lastTS: nat, lastTxnID: nat)
    requires Stamped(c, lastTS, lastTxnID)
    ensures Stamped(WithoutChain(c, id), lastTS, lastTxnID)
  {
    if c != [] {
      WithoutStamped(c[1..], id, lastTS, lastTxnID);
    }
  }

  /** A grounded chain always answers. */
  lemma {:induction false} VisibleExists(c: Chain, t: Txn)
    requires Grounded(c)
    ensures Visible(c, t).Some?
  {
    assert c[|c| - 1] in c;
  }

  // ---------- One write ----------

  ghost predicate Ground(v: Version) {
    v.ts == 0 && v.deleted
  }

  lemma {:induction false} EmplacedSound(entries: map<Name, Chain>, n: Name, ground: Version, added: Version, lastTS: nat, lastTxnID: nat)
    requires Sound(entries, lastTS, lastTxnID)
    requires START_TRANSACTION_ID < added.ts <= lastTxnID
    requires n in entries || Ground(ground)
    ensures Sound(Emplaced(entries, n, ground, added), lastTS, lastTxnID)
  {
    assert SoundAt(entries, n, lastTS, lastTxnID);
    var c := Under(entries, n, ground);
    assert Grounded(c) && Stamped(c, lastTS, lastTxnID);
    assert ([added] + c)[|c|] == c[|c| - 1];
    forall m ensures SoundAt(Emplaced(entries, n, ground, added), m, lastTS, lastTxnID) {
      assert SoundAt(entries, m, lastTS, lastTxnID);
    }
  }

  lemma {:induction false} EmplacedUnseen(entries: map<Name, Chain>, n: Name, ground: Version, added: Version, t: Txn, m: Name)
    requires n in entries ==> entries[n] != []
    requires n in entries || Ground(ground)
    requires !Sees(t, added)
    ensures Live(Emplaced(entries, n, ground, added), t, m) == Live(entries, t, m)
  {
    assert ([added] + Under(entries, n, ground))[1..] == Under(entries, n, ground);
  }

  /** What the writes of a transaction do, whichever operation made them. */
  ghost predicate Writes(entries: map<Name, Chain>, entries': map<Name, Chain>, id: nat) {
    || entries' == entries
    || WritesOnce(entries, entries', id)
    || exists between :: WritesOnce(entries, between, id) && WritesOnce(between, entries', id)
  }

  ghost predicate WritesOnce(entries: map<Name, Chain>, entries': map<Name, Chain>, id: nat) {
    exists n, ground, added ::
      entries' == Emplaced(entries, n, ground, added) && added.ts == id && (n in entries || Ground(ground))
  }

  lemma {:induction false} RenameWrites(cs: CatSet, t: Txn, n: Name, newName: Name)
    ensures Writes(cs.entries, Rename(cs, t, n, newName).cs.entries, t.id)
  {
    if AlterOutcome(cs.entries, t, n) == Done {
      var v := Live(cs.entries, t, n).value;
      var tombstone := Dummy(cs.nextUid, t.id, v.oid);
      var dropped := Drop(cs, t, n, v.oid).cs;
      assert dropped.entries == Emplaced(cs.entries, n, tombstone, tombstone);
      assert WritesOnce(cs.entries, dropped.entries, t.id);
      if CreateOutcome(dropped.entries, t, newName) == Done {
        var ground := Dummy(dropped.nextUid, 0, v.oid);
        var added := Version(dropped.nextUid + 1, t.id, false, v.oid, v.isFunction, v.body);
        assert Rename(cs, t, n, newName).cs.entries == Emplaced(dropped.entries, newName, ground, added);
        assert WritesOnce(dropped.entries, Rename(cs, t, n, newName).cs.entries, t.id);
      }
    }
  }

  lemma {:induction false} EffectWrites(cs: CatSet, t: Txn, a: Step)
    requires IsWrite(a)
    ensures Writes(cs.entries, WriteEffect(cs, t, a).cs.entries, t.id)
  {
    var entries' := WriteEffect(cs, t, a).cs.entries;
    match a
    case CreateStep(_, n, isFunction, body) =>
      if entries' != cs.entries {
        assert entries' == Emplaced(cs.entries, n, Dummy(cs.nextUid, 0, cs.nextOID),
                                    Version(cs.nextUid + 1, t.id, false, cs.nextOID, isFunction, body));
        assert WritesOnce(cs.entries, entries', t.id);
      }
    case DropStep(_, n, oid) =>
      if entries' != cs.entries {
        assert entries' == Emplaced(cs.entries, n, Dummy(cs.nextUid, t.id, oid), Dummy(cs.nextUid, t.id, oid));
        assert WritesOnce(cs.entries, entries', t.id);
      }
    case AlterStep(_, n, body, _) =>
      if entries' != cs.entries {
        var added := Live(cs.entries, t, n).value.(uid := cs.nextUid, ts := t.id, body := body);
        assert entries' == Emplaced(cs.entries, n, added, added);
        assert WritesOnce(cs.entries, entries', t.id);
      }
    case RenameStep(_, n, newName) => RenameWrites(cs, t, n, newName);
  }

  lemma {:induction false} WritesOnceUnseen(entries: map<Name, Chain>, entries': map<Name, Chain>, id: nat,
                         t: Txn, m: Name, lastTS: nat, lastTxnID: nat)
    requires Sound(entries, lastTS, lastTxnID) && WritesOnce(entries, entries', id)
    requires START_TRANSACTION_ID < id <= lastTxnID
    ensures Sound(entries', lastTS, lastTxnID)
    ensures t.id != id && t.startTS < id ==> Live(entries', t, m) == Live(entries, t, m)
  {
    var n, ground, added :|
      entries' == Emplaced(entries, n, ground, added) && added.ts == id && (n in entries || Ground(ground));
    EmplacedSound(entries, n, ground, added, lastTS, lastTxnID);
    assert SoundAt(entries, n, lastTS, lastTxnID);
    if t.id != id && t.startTS < id {
      EmplacedUnseen(entries, n, ground, added, t, m);
    }
  }

  /** Another transaction's create, drop, alter or rename is invisible to an open transaction. */
  lemma {:induction false} WritesUnseen(entries: map<Name, Chain>, entries': map<Name, Chain>, id: nat,
                     t: Txn, m: Name, lastTS: nat, lastTxnID: nat)
    requires Sound(entries, lastTS, lastTxnID) && Writes(entries, entries', id)
    requires START_TRANSACTION_ID < id <= lastTxnID
    ensures Sound(entries', lastTS, lastTxnID)
    ensures t.id != id && t.startTS < id ==> Live(entries', t, m) == Live(entries, t, m)
  {
    if entries' != entries {
      if WritesOnce(entries, entries', id) {
        WritesOnceUnseen(entries, entries', id, t, m, lastTS, lastTxnID);
      } else {
        var between :| WritesOnce(entries, between, id) && WritesOnce(between, entries', id);
        WritesOnceUnseen(entries, between, id, t, m, lastTS, lastTxnID);
        WritesOnceUnseen(between, entries', id, t, m, lastTS, lastTxnID);
      }
    }
  }

  // ---------- One step ----------

  lemma {:induction false} RestampSound(entries: map<Name, Chain>, id: nat, lastTS: nat, lastTxnID: nat)
    requires Sound(entries, lastTS, lastTxnID) && id != 0
    ensures Sound(Restamp(entries, id, lastTS + 1), lastTS + 1, lastTxnID)
  {
    var entries', cts := Restamp(entries, id, lastTS + 1), lastTS + 1;
    forall n ensures SoundAt(entries', n, cts, lastTxnID) {
      assert SoundAt(entries, n, lastTS, lastTxnID);
    }
  }

  lemma {:induction false} WithoutSound(entries: map<Name, Chain>, id: nat, lastTS: nat, lastTxnID: nat)
    requires Sound(entries, lastTS, lastTxnID) && id != 0
    ensures Sound(Without(entries, id), lastTS, lastTxnID)
  {
    forall n ensures SoundAt(Without(entries, id), n, lastTS, lastTxnID) {
      assert SoundAt(entries, n, lastTS, lastTxnID);
      if n in entries {
        WithoutGrounded(entries[n], id);
        WithoutStamped(entries[n], id, lastTS, lastTxnID);
      }
    }
  }

  lemma {:induction false} LiveRestamped(entries: map<Name, Chain>, t: Txn, id: nat, cts: nat, n: Name)
    requires id != t.id && id > t.startTS && cts != t.id && cts > t.startTS
    ensures Live(Restamp(entries, id, cts), t, n) == Live(entries, t, n)
  {
    if n in entries { VisibleRestamped(entries[n], t, id, cts); }
  }

  lemma {:induction false} LiveWithout(entries: map<Name, Chain>, t: Txn, id: nat, n: Name)
    requires id != t.id && id > t.startTS
    ensures Live(Without(entries, id), t, n) == Live(entries, t, n)
  {
    if n in entries { VisibleWithout(entries[n], t, id); }
  }

  lemma {:induction false} LiveEnded(s: State, a: Step, t: Txn, n: Name)
    requires !a.Begin? ==> a.id != t.id && a.id > t.startTS
    requires s.lastTS + 1 != t.id && s.lastTS >= t.startTS
    ensures Live(EndedByOwner(s, a), t, n) == Live(s.cs.entries, t, n)
  {
    if a.CommitStep? {
      LiveRestamped(s.cs.entries, t, a.id, s.lastTS + 1, n);
    } else if a.RollbackStep? || a.FailStep? {
      LiveWithout(s.cs.entries, t, a.id, n);
    }
  }

  lemma {:induction false} SoundLater(entries: map<Name, Chain>, lastTS: nat, lastTxnID: nat, later: nat)
    requires Sound(entries, lastTS, lastTxnID) && lastTxnID <= later
    ensures Sound(entries, lastTS, later)
  {
    forall n ensures SoundAt(entries, n, lastTS, later) {
      assert SoundAt(entries, n, lastTS, lastTxnID);
    }
  }

  lemma {:induction false} ControlKeepsShape(s: State, a: Step)
    requires Shape(s) && !IsWrite(a) && Enabled(s, a)
    ensures Shape(Control(s, a, EndedByOwner(s, a)))
  {
    if a.CommitStep? {
      RestampSound(s.cs.entries, a.id, s.lastTS, s.lastTxnID);
    } else if a.RollbackStep? || a.FailStep? {
      WithoutSound(s.cs.entries, a.id, s.lastTS, s.lastTxnID);
    } else if a.Begin? {
      SoundLater(s.cs.entries, s.lastTS, s.lastTxnID, s.lastTxnID + 1);
    }
  }

  lemma {:induction false} StepKeepsShape(s: State, a: Step)
    requires Shape(s)
    ensures Shape(ApplyByOwner(s, a))
  {
    if Enabled(s, a) {
      if IsWrite(a) {
        var t := s.active[a.id];
        EffectWrites(s.cs, t, a);
        WritesUnseen(s.cs.entries, WriteEffect(s.cs, t, a).cs.entries, a.id, t, a.n, s.lastTS, s.lastTxnID);
      } else {
        ControlKeepsShape(s, a);
      }
    }
  }

  /** Another transaction's step leaves an open transaction and what it finds as they were. */
  lemma {:induction false} StepUnseen(s: State, a: Step, id: nat, n: Name)
    requires Shape(s) && id in s.active && !TakenBy(a, id)
    ensures id in ApplyByOwner(s, a).active && ApplyByOwner(s, a).active[id] == s.active[id]
    ensures Live(ApplyByOwner(s, a).cs.entries, s.active[id], n) == Live(s.cs.entries, s.active[id], n)
  {
    if Enabled(s, a) {
      var t := s.active[id];
      if IsWrite(a) {
        EffectWrites(s.cs, s.active[a.id], a);
        WritesUnseen(s.cs.entries, WriteEffect(s.cs, s.active[a.id], a).cs.entries, a.id, t, n, s.lastTS, s.lastTxnID);
      } else {
        LiveEnded(s, a, t, n);
      }
    }
  }

  // ---------- Whole runs ----------

  lemma {:induction false} RunKeepsShape(s: State, steps: seq<Step>)
    requires Shape(s)
    ensures Shape(RunByOwner(s, steps))
  {
    if steps != [] {
      RunKeepsShape(s, steps[..|steps| - 1]);
      StepKeepsShape(RunByOwner(s, steps[..|steps| - 1]), steps[|steps| - 1]);
    }
  }

  /** What an open transaction finds under any name is the same before and after any run of the others. */
  lemma {:induction false} SnapshotStability(s: State, steps: seq<Step>, id: nat, n: Name)
    requires Shape(s) && id in s.active
    requires forall a :: a in steps ==> !TakenBy(a, id)
    ensures id in RunByOwner(s, steps).active && RunByOwner(s, steps).active[id] == s.active[id]
    ensures Live(RunByOwner(s, steps).cs.entries, s.active[id], n) == Live(s.cs.entries, s.active[id], n)
  {
    if steps != [] {
      var before := steps[..|steps| - 1];
      SnapshotStability(s, before, id, n);
      RunKeepsShape(s, before);
      StepUnseen(RunByOwner(s, before), steps[|steps| - 1], id, n);
    }
  }

  /** The traversal ends on a version, for every open transaction and every name of every run. */
  lemma {:induction false} TraversalNeverFallsOff(s: State, steps: seq<Step>, id: nat, n: Name)
    requires Shape(s) && id in RunByOwner(s, steps).active && n in RunByOwner(s, steps).cs.entries
    ensures Visible(RunByOwner(s, steps).cs.entries[n], RunByOwner(s, steps).active[id]).Some?
  {
    RunKeepsShape(s, steps);
    assert SoundAt(RunByOwner(s, steps).cs.entries, n, RunByOwner(s, steps).lastTS, RunByOwner(s, steps).lastTxnID);
    VisibleExists(RunByOwner(s, steps).cs.entries[n], RunByOwner(s, steps).active[id]);
  }
}
