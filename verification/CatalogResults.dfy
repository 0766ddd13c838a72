/**
 What follows for users of the catalog: where runs start, what a commit publishes, what a
 transaction's own writes show it.
 */
module CatalogResults {
  import opened Basics
  import opened CatalogModel
  import opened CatalogSnapshots
  import opened CatalogWriters
  import opened CatalogRuns

  /** A catalog just loaded or just created: every version carries timestamp 0. */
  ghost predicate Loaded(cs: CatSet) {
    forall n :: LoadedAt(cs, n)
  }

  ghost predicate LoadedAt(cs: CatSet, n: Name) {
    n in cs.entries ==>
      cs.entries[n] != [] && DistinctUids(cs.entries[n], cs.nextUid) && forall i :: 0 <= i < |cs.entries[n]| ==> cs.entries[n][i].ts == 0
  }

  function Opened(cs: CatSet): State {
    State(cs, 1, START_TRANSACTION_ID, map[], map[])
  }

  /** Every run starts in the invariant. */
  lemma {:induction false} OpenedHolds(cs: CatSet)
    requires Loaded(cs)
    ensures Inv(Opened(cs))
  {
    var s := Opened(cs);
    forall n ensures SoundAt(s.cs.entries, n, s.lastTS, s.lastTxnID) { assert LoadedAt(cs, n); }
    forall n ensures GoodAt(s, n) { assert LoadedAt(cs, n); }
    forall id, n ensures TracedAt(s, id, n) { }
    forall cts ensures HistoryAt(s, cts) { }
  }

  // ---------- What a commit publishes ----------

  /** A transaction that would begin now. */
  function FreshReader(s: State): Txn {
    Txn(s.lastTxnID + 1, s.lastTS, ReadOnly, [])
  }

  lemma {:induction false} UnwrittenSame(c: Chain, s: State, id: nat, cts: nat)
    requires Stamped(c, s.lastTS, s.lastTxnID) && cts == s.lastTS + 1 < START_TRANSACTION_ID
    requires forall i :: 0 <= i < |c| ==> c[i].ts != id
    ensures RestampChain(c, id, cts) == c
    ensures Visible(c, FreshReader(s).(startTS := cts)) == Visible(c, FreshReader(s))
  {
    if c != [] {
      UnwrittenSame(c[1..], s, id, cts);
    }
  }

  lemma {:induction false} WrittenShown(c: Chain, t: Txn, reader: Txn, cts: nat)
    requires Block(c, t.id) > 0 && cts == reader.startTS
    ensures Visible(c, t) == Some(c[0])
    ensures Visible(RestampChain(c, t.id, cts), reader) == Some(c[0].(ts := cts))
  {
  }

  lemma {:induction false} AfterCommit(s: State, id: nat)
    requires Inv(s) && Enabled(s, CommitStep(id)) && s.active[id].kind != ReadOnly
    ensures var s' := Apply(s, CommitStep(id));
            s'.cs.entries == Restamp(s.cs.entries, id, s.lastTS + 1) && s'.lastTS == s.lastTS + 1 && s'.lastTxnID == s.lastTxnID
  {
    CommitByUndo(s, id, s.lastTS + 1);
  }

  /** Later transactions find, under each name the writer wrote, what the writer last saw there, now
      dated; under every other name, what they would have found before. All at once, by one step. */
  lemma {:induction false} CommitPublishes(s: State, id: nat, n: Name)
    requires Inv(s) && Enabled(s, CommitStep(id)) && s.active[id].kind != ReadOnly
    ensures var s', t := Apply(s, CommitStep(id)), s.active[id];
            var seen := Live(s.cs.entries, t, n);
            Live(s'.cs.entries, FreshReader(s'), n) ==
              if n in s.cs.entries && Block(s.cs.entries[n], id) > 0
              then (if seen.Some? then Some(seen.value.(ts := s.lastTS + 1)) else None)
              else Live(s.cs.entries, FreshReader(s), n)
  {
    AfterCommit(s, id);
    var reader, cts := FreshReader(Apply(s, CommitStep(id))), s.lastTS + 1;
    assert reader == FreshReader(s).(startTS := cts);
    if n in s.cs.entries {
      var c := s.cs.entries[n];
      assert GoodAt(s, n) && SoundAt(s.cs.entries, n, s.lastTS, s.lastTxnID);
      if Block(c, id) == 0 {
        forall i | 0 <= i < |c| ensures c[i].ts != id { CommittedBelow(c, s, id, i); }
        UnwrittenSame(c, s, id, cts);
      } else {
        WrittenShown(c, s.active[id], reader, cts);
      }
    }
  }

  // ---------- What a transaction's own writes show it ----------

  lemma {:induction false} OwnEmplaced(entries: map<Name, Chain>, n: Name, ground: Version, added: Version, t: Txn, m: Name)
    requires added.ts == t.id
    ensures Live(Emplaced(entries, n, ground, added), t, m) ==
            if m == n then (if added.deleted then None else Some(added)) else Live(entries, t, m)
  {
  }

  /** A write that goes through changes its author's view of the names it is about, and of no other. */
  lemma {:induction false} OwnWritesSeen(cs: CatSet, t: Txn, a: Step, m: Name)
    requires IsWrite(a) && WriteEffect(cs, t, a).outcome == Done
    ensures var before, after := Live(cs.entries, t, m), Live(WriteEffect(cs, t, a).cs.entries, t, m);
            match a
            case CreateStep(_, n, f, b) =>
              if m == n then before.None? && after.Some? && after.value.body == b && after.value.oid == cs.nextOID && after.value.isFunction == f
              else after == before
            case DropStep(_, n, _) => if m == n then before.Some? && after.None? else after == before
            case AlterStep(_, n, b, _) =>
              if m == n then before.Some? && after.Some? && after.value.body == b && after.value.oid == before.value.oid &&
                             after.value.isFunction == before.value.isFunction
              else after == before
            case RenameStep(_, n, n') =>
              var renamed := Live(cs.entries, t, n);
              if m == n' then renamed.Some? && after.Some? && after.value.body == renamed.value.body && after.value.oid == renamed.value.oid &&
                              after.value.isFunction == renamed.value.isFunction
              else if m == n then before.Some? && after.None? else after == before
  {
    match a
    case CreateStep(_, n, f, b) =>
      OwnEmplaced(cs.entries, n, Dummy(cs.nextUid, 0, cs.nextOID), Version(cs.nextUid + 1, t.id, false, cs.nextOID, f, b), t, m);
    case DropStep(_, n, oid) =>
      OwnEmplaced(cs.entries, n, Dummy(cs.nextUid, t.id, oid), Dummy(cs.nextUid, t.id, oid), t, m);
    case AlterStep(_, n, b, _) =>
      var added := Live(cs.entries, t, n).value.(uid := cs.nextUid, ts := t.id, body := b);
      OwnEmplaced(cs.entries, n, added, added, t, m);
    case RenameStep(_, n, n') =>
      var v := Live(cs.entries, t, n).value;
      var tombstone := Dummy(cs.nextUid, t.id, v.oid);
      var dropped := Drop(cs, t, n, v.oid).cs;
      OwnEmplaced(cs.entries, n, tombstone, tombstone, t, m);
      OwnEmplaced(dropped.entries, n', Dummy(dropped.nextUid, 0, v.oid),
                  Version(dropped.nextUid + 1, t.id, false, v.oid, v.isFunction, v.body), t, m);
  }

  lemma {:induction false} SameSnapshot(c: Chain, t: Txn, t': Txn)
    requires t'.id == t.id && t'.startTS == t.startTS
    ensures Visible(c, t') == Visible(c, t)
  {
    if c != [] { SameSnapshot(c[1..], t, t'); }
  }

  /** A step of the transaction itself that writes, and under other names. */
  predicate WritesElsewhere(a: Step, n: Name) {
    IsWrite(a) && a.n != n && (a.RenameStep? ==> a.newName != n)
  }

  lemma {:induction false} OwnStepElsewhere(s: State, a: Step, n: Name)
    requires Inv(s) && Guarded(s, a) && Enabled(s, a) && WritesElsewhere(a, n)
    ensures var s' := Apply(s, a);
            && a.id in s'.active && s'.active[a.id].startTS == s.active[a.id].startTS
            && Live(s'.cs.entries, s'.active[a.id], n) == Live(s.cs.entries, s.active[a.id], n)
  {
    var s', t := Apply(s, a), s.active[a.id];
    if WriteEffect(s.cs, t, a).outcome == Done {
      OwnWritesSeen(s.cs, t, a, n);
    }
    if n in s'.cs.entries { SameSnapshot(s'.cs.entries[n], t, s'.active[a.id]); }
  }

  /** Over every guarded run, until it writes under the name, ends or moves its snapshot, a transaction finds the
      same thing there, whatever it writes elsewhere and whatever the others do. */
  lemma {:induction false} ViewChangesOnlyByOwnWrites(s: State, steps: seq<Step>, id: nat, n: Name)
    requires Inv(s) && GuardedRun(s, steps) && id in s.active
    requires forall a :: a in steps && TakenBy(a, id) ==> WritesElsewhere(a, n)
    ensures var s' := Run(s, steps);
            id in s'.active && Live(s'.cs.entries, s'.active[id], n) == Live(s.cs.entries, s.active[id], n)
  {
    if steps != [] {
      var before, a := steps[..|steps| - 1], steps[|steps| - 1];
      ViewChangesOnlyByOwnWrites(s, before, id, n);
      RunRefines(s, before);
      var last := Run(s, before);
      if TakenBy(a, id) {
        if Enabled(last, a) { OwnStepElsewhere(last, a, n); }
      } else {
        StepRefines(last, a);
        StepUnseen(last, a, id, n);
      }
    }
  }
}
