/**
 What a transaction finds from the moment it begins or moves its snapshot, and which identifiers the
 entries it creates get.
 */
module CatalogViews {
  import opened Basics
  import opened CatalogModel
  import opened CatalogSnapshots
  import opened CatalogWriters
  import opened CatalogRuns
  import opened CatalogResults

  // ---------- Beginning and refreshing ----------

  /** The transaction has written nothing and sees exactly the versions committed so far, under every name. */
  ghost predicate SeesAllCommitted(s: State, t: Txn) {
    && t.undo == []
    && forall n, i :: n in s.cs.entries && 0 <= i < |s.cs.entries[n]| ==>
         (Sees(t, s.cs.entries[n][i]) <==> s.cs.entries[n][i].ts <= s.lastTS)
  }

  lemma {:induction false} SnapshotSees(s: State, t: Txn)
    requires Inv(s) && t.undo == [] && t.startTS == s.lastTS
    requires t.id > s.lastTxnID || (t.id in s.active && s.active[t.id].undo == [])
    ensures SeesAllCommitted(s, t)
  {
    forall n, i | n in s.cs.entries && 0 <= i < |s.cs.entries[n]|
      ensures Sees(t, s.cs.entries[n][i]) <==> s.cs.entries[n][i].ts <= s.lastTS
    {
      assert GoodAt(s, n) && SoundAt(s.cs.entries, n, s.lastTS, s.lastTxnID);
      if t.id in s.active {
        assert TracedAt(s, t.id, n);
        CommittedBelow(s.cs.entries[n], s, t.id, i);
      }
    }
  }

  /** One transaction is open after a begin that was not before; it is of the kind asked for and sees exactly what is
      committed. Nothing else changes. */
  lemma {:induction false} BegunSeesCommitted(s: State, kind: TxnKind) returns (id: nat)
    requires Inv(s)
    ensures var s' := Apply(s, Begin(kind));
            && s'.active.Keys - s.active.Keys == {id} && s.active.Keys < s'.active.Keys
            && s'.active[id].id == id && s'.active[id].kind == kind && SeesAllCommitted(s', s'.active[id])
            && s'.active - {id} == s.active && s'.cs == s.cs && s'.lastTS == s.lastTS
  {
    id := s.lastTxnID + 1;
    assert id !in s.active;
    SnapshotSees(s, Txn(id, s.lastTS, kind, []));
  }

  /** After a refresh the transaction sees exactly what is committed. Nothing else changes. */
  lemma {:induction false} RefreshedSeesCommitted(s: State, id: nat)
    requires Inv(s) && Enabled(s, RefreshStep(id))
    ensures var s' := Apply(s, RefreshStep(id));
            && id in s'.active && s'.active[id].id == id && s'.active[id].kind == s.active[id].kind
            && SeesAllCommitted(s', s'.active[id])
            && s'.active - {id} == s.active - {id} && s'.cs == s.cs && s'.lastTS == s.lastTS
  {
    SnapshotSees(s, s.active[id].(startTS := s.lastTS));
  }

  lemma {:induction false} SameSightChain(c: Chain, t: Txn, t': Txn)
    requires forall i :: 0 <= i < |c| ==> (Sees(t, c[i]) <==> Sees(t', c[i]))
    ensures Visible(c, t) == Visible(c, t')
  {
    if c != [] {
      forall i | 0 <= i < |c[1..]| ensures Sees(t, c[1..][i]) <==> Sees(t', c[1..][i]) { assert c[1..][i] == c[i + 1]; }
      SameSightChain(c[1..], t, t');
      assert Sees(t, c[0]) <==> Sees(t', c[0]);
    }
  }

  /** Two transactions that see all that is committed find the same everywhere. */
  lemma {:induction false} SameSight(s: State, t: Txn, t': Txn, n: Name)
    requires SeesAllCommitted(s, t) && SeesAllCommitted(s, t')
    ensures Live(s.cs.entries, t, n) == Live(s.cs.entries, t', n)
  {
    if n in s.cs.entries { SameSightChain(s.cs.entries[n], t, t'); }
  }

  /** What a transaction that begins now finds, of whatever kind. */
  ghost function FoundAtBegin(s: State, kind: TxnKind, n: Name): Option<Version>
    requires Inv(s)
  {
    var s' := Apply(s, Begin(kind));
    Live(s'.cs.entries, s'.active[s'.lastTxnID], n)
  }

  lemma {:induction false} FreshSees(s: State)
    requires Inv(s)
    ensures SeesAllCommitted(s, FreshReader(s))
  {
    SnapshotSees(s, FreshReader(s));
  }

  lemma {:induction false} FoundIsFresh(s: State, kind: TxnKind, n: Name)
    requires Inv(s)
    ensures FoundAtBegin(s, kind, n) == Live(s.cs.entries, FreshReader(s), n)
  {
    var id := BegunSeesCommitted(s, kind);
    var s' := Apply(s, Begin(kind));
    assert s'.lastTxnID in s'.active.Keys - s.active.Keys;
    FreshSees(s);
    SameSight(s, s'.active[id], FreshReader(s), n);
  }

  /** A commit, then a begin of any kind: the new transaction finds, under each name the writer wrote, what the writer
      last found there, dated, and under the others what it would have found by beginning before the commit. */
  lemma {:induction false} CommitThenBegin(s: State, writer: nat, before: TxnKind, after: TxnKind, n: Name)
    requires Inv(s) && Enabled(s, CommitStep(writer)) && s.active[writer].kind != ReadOnly
    ensures Inv(Apply(s, CommitStep(writer)))
    ensures var s', seen := Apply(s, CommitStep(writer)), Live(s.cs.entries, s.active[writer], n);
            FoundAtBegin(s', after, n) ==
              if n in s.cs.entries && Block(s.cs.entries[n], writer) > 0
              then (if seen.Some? then Some(seen.value.(ts := s'.lastTS)) else None)
              else FoundAtBegin(s, before, n)
  {
    StepRefines(s, CommitStep(writer));
    AfterCommit(s, writer);
    CommitPublishes(s, writer, n);
    FoundIsFresh(Apply(s, CommitStep(writer)), after, n);
    FoundIsFresh(s, before, n);
  }

  /** A transaction that refreshes finds what one that begins at that moment would find. */
  lemma {:induction false} RefreshFindsTheSame(s: State, id: nat, kind: TxnKind, n: Name)
    requires Inv(s) && Enabled(s, RefreshStep(id))
    ensures var s' := Apply(s, RefreshStep(id)); Live(s'.cs.entries, s'.active[id], n) == FoundAtBegin(s, kind, n)
  {
    RefreshedSeesCommitted(s, id);
    FoundIsFresh(s, kind, n);
    FreshSees(s);
    var s' := Apply(s, RefreshStep(id));
    SameSight(s, s'.active[id], FreshReader(s), n);
  }

  // ---------- Object identifiers ----------

  /** Every version that is not a tombstone carries an identifier that has been given out. */
  ghost predicate OidsGiven(entries: map<Name, Chain>, nextOID: nat) {
    forall n :: n in entries ==> ChainGiven(entries[n], nextOID)
  }

  ghost predicate ChainGiven(c: Chain, nextOID: nat) {
    forall i :: 0 <= i < |c| ==> c[i].deleted || c[i].oid < nextOID
  }

  lemma {:induction false} CommitKeepsOids(entries: map<Name, Chain>, undo: seq<UndoRecord>, cts: nat, nextOID: nat)
    requires OidsGiven(entries, nextOID)
    ensures OidsGiven(CommitUndo(entries, undo, cts), nextOID)
  {
    if undo != [] {
      CommitKeepsOids(entries, undo[..|undo| - 1], cts, nextOID);
      var before, r := CommitUndo(entries, undo[..|undo| - 1], cts), undo[|undo| - 1];
      forall n | n in CommitRecord(before, r, cts) ensures ChainGiven(CommitRecord(before, r, cts)[n], nextOID) {
        assert ChainGiven(before[n], nextOID);
      }
    }
  }

  lemma {:induction false} RollbackAtKeepsOids(c: Chain, older: nat, nextOID: nat)
    requires ChainGiven(c, nextOID)
    ensures ChainGiven(RollbackAt(c, older), nextOID)
  {
  }

  lemma {:induction false} RollbackKeepsOids(entries: map<Name, Chain>, undo: seq<UndoRecord>, nextOID: nat)
    requires OidsGiven(entries, nextOID)
    ensures OidsGiven(RollbackUndo(entries, undo), nextOID)
  {
    if undo != [] {
      var r := undo[|undo| - 1];
      var after := RollbackRecord(entries, r);
      forall n | n in after ensures ChainGiven(after[n], nextOID) {
        assert ChainGiven(entries[n], nextOID);
        if n == r.name { RollbackAtKeepsOids(entries[n], r.older, nextOID); }
      }
      RollbackKeepsOids(after, undo[..|undo| - 1], nextOID);
    }
  }

  lemma {:induction false} EmplacedKeepsOids(entries: map<Name, Chain>, n: Name, ground: Version, added: Version, nextOID: nat, more: nat)
    requires OidsGiven(entries, nextOID) && nextOID <= more && (added.deleted || added.oid < more) && (ground.deleted || ground.oid < more)
    ensures OidsGiven(Emplaced(entries, n, ground, added), more)
  {
    var after := Emplaced(entries, n, ground, added);
    forall m | m in after ensures ChainGiven(after[m], more) {
      assert m in entries ==> ChainGiven(entries[m], nextOID);
    }
  }

  lemma {:induction false} LiveGiven(entries: map<Name, Chain>, t: Txn, n: Name, nextOID: nat)
    requires OidsGiven(entries, nextOID) && Live(entries, t, n).Some?
    ensures Live(entries, t, n).value.oid < nextOID
  {
    assert ChainGiven(entries[n], nextOID);
    var i := VisibleIsFirst(entries[n], t);
  }

  lemma {:induction false} WriteKeepsOids(cs: CatSet, t: Txn, a: Step)
    requires IsWrite(a) && OidsGiven(cs.entries, cs.nextOID)
    ensures var w := WriteEffect(cs, t, a); OidsGiven(w.cs.entries, w.cs.nextOID) && cs.nextOID <= w.cs.nextOID
    ensures a.CreateStep? || (a.AlterStep? && a.takesOID && WriteEffect(cs, t, a).outcome == Done) ==>
              WriteEffect(cs, t, a).cs.nextOID > cs.nextOID
  {
    var w := WriteEffect(cs, t, a);
    match a
    case CreateStep(_, n, f, b) =>
      EmplacedKeepsOids(cs.entries, n, Dummy(cs.nextUid, 0, cs.nextOID), Version(cs.nextUid + 1, t.id, false, cs.nextOID, f, b),
                        cs.nextOID, cs.nextOID + 1);
      forall m | m in cs.entries ensures ChainGiven(cs.entries[m], cs.nextOID + 1) { assert ChainGiven(cs.entries[m], cs.nextOID); }
    case DropStep(_, n, oid) =>
      EmplacedKeepsOids(cs.entries, n, Dummy(cs.nextUid, t.id, oid), Dummy(cs.nextUid, t.id, oid), cs.nextOID, cs.nextOID);
    case AlterStep(_, n, b, _) =>
      if w.outcome == Done {
        LiveGiven(cs.entries, t, n, cs.nextOID);
        var added := Live(cs.entries, t, n).value.(uid := cs.nextUid, ts := t.id, body := b);
        EmplacedKeepsOids(cs.entries, n, added, added, cs.nextOID, w.cs.nextOID);
      }
    case RenameStep(_, n, n') =>
      if AlterOutcome(cs.entries, t, n) == Done {
        LiveGiven(cs.entries, t, n, cs.nextOID);
        var v := Live(cs.entries, t, n).value;
        var tombstone, dropped := Dummy(cs.nextUid, t.id, v.oid), Drop(cs, t, n, v.oid).cs;
        EmplacedKeepsOids(cs.entries, n, tombstone, tombstone, cs.nextOID, cs.nextOID);
        EmplacedKeepsOids(dropped.entries, n', Dummy(dropped.nextUid, 0, v.oid),
                          Version(dropped.nextUid + 1, t.id, false, v.oid, v.isFunction, v.body), cs.nextOID, cs.nextOID);
      }
  }

  /** The step takes a number: a create, refused or not, or an alter that goes through and needs one for its table. */
  predicate Numbers(s: State, a: Step) {
    && Enabled(s, a)
    && (a.CreateStep? || (a.AlterStep? && a.takesOID && WriteEffect(s.cs, s.active[a.id], a).outcome == Done))
  }

  lemma {:induction false} StepKeepsOids(s: State, a: Step)
    requires OidsGiven(s.cs.entries, s.cs.nextOID)
    ensures var s' := Apply(s, a); OidsGiven(s'.cs.entries, s'.cs.nextOID) && s.cs.nextOID <= s'.cs.nextOID
    ensures Numbers(s, a) ==> Apply(s, a).cs.nextOID > s.cs.nextOID
  {
    if Enabled(s, a) {
      if IsWrite(a) {
        WriteKeepsOids(s.cs, s.active[a.id], a);
      } else if !a.Begin? {
        CommitKeepsOids(s.cs.entries, s.active[a.id].undo, s.lastTS + 1, s.cs.nextOID);
        RollbackKeepsOids(s.cs.entries, s.active[a.id].undo, s.cs.nextOID);
      }
    }
  }

  lemma {:induction false} RunKeepsOids(s: State, steps: seq<Step>)
    requires OidsGiven(s.cs.entries, s.cs.nextOID)
    ensures var s' := Run(s, steps); OidsGiven(s'.cs.entries, s'.cs.nextOID) && s.cs.nextOID <= s'.cs.nextOID
  {
    if steps != [] {
      RunKeepsOids(s, steps[..|steps| - 1]);
      StepKeepsOids(Run(s, steps[..|steps| - 1]), steps[|steps| - 1]);
    }
  }

  lemma {:induction false} RunGoesOn(s: State, steps: seq<Step>, i: nat, j: nat)
    requires i <= j <= |steps|
    ensures Run(s, steps[..j]) == Run(Run(s, steps[..i]), steps[i..j])
    decreases j - i
  {
    if i == j {
      assert steps[i..j] == [];
    } else {
      RunGoesOn(s, steps, i, j - 1);
      assert steps[..j][..j - 1] == steps[..j - 1] && steps[i..j][..j - 1 - i] == steps[i..j - 1];
    }
  }

  /** Step `i` of the run is a create that goes through. */
  ghost predicate Creates(s: State, steps: seq<Step>, i: nat)
    requires i < |steps|
  {
    var before, a := Run(s, steps[..i]), steps[i];
    a.CreateStep? && Enabled(before, a) && WriteEffect(before.cs, before.active[a.id], a).outcome == Done
  }

  /** What its author then finds under the name. */
  ghost function Created(s: State, steps: seq<Step>, i: nat): Option<Version>
    requires i < |steps| && Creates(s, steps, i)
  {
    var before, a := Run(s, steps[..i]), steps[i];
    Live(Run(s, steps[..i + 1]).cs.entries, before.active[a.id], a.n)
  }

  lemma {:induction false} CreatedOid(s: State, steps: seq<Step>, i: nat)
    requires i < |steps| && Creates(s, steps, i)
    ensures Created(s, steps, i).Some? && Created(s, steps, i).value.oid == Run(s, steps[..i]).cs.nextOID
  {
    var before, a := Run(s, steps[..i]), steps[i];
    assert steps[..i + 1][..i] == steps[..i];
    OwnWritesSeen(before.cs, before.active[a.id], a, a.n);
  }

  /** A created entry has an identifier that no version in the set has, tombstones aside. */
  lemma {:induction false} CreatedIsNew(s: State, steps: seq<Step>, i: nat, n: Name, k: nat)
    requires OidsGiven(s.cs.entries, s.cs.nextOID) && i < |steps| && Creates(s, steps, i)
    requires n in Run(s, steps[..i]).cs.entries && k < |Run(s, steps[..i]).cs.entries[n]|
    ensures var v := Run(s, steps[..i]).cs.entries[n][k];
            Created(s, steps, i).Some? && (v.deleted || v.oid != Created(s, steps, i).value.oid)
  {
    CreatedOid(s, steps, i);
    RunKeepsOids(s, steps[..i]);
    var before := Run(s, steps[..i]);
    assert ChainGiven(before.cs.entries[n], before.cs.nextOID);
  }

  /** Over every run, the counter gives no number twice, to creates or to alters, rolled back or not. */
  lemma {:induction false} NumbersNeverRepeat(s: State, steps: seq<Step>, i: nat, j: nat)
    requires OidsGiven(s.cs.entries, s.cs.nextOID) && i < j < |steps| && Numbers(Run(s, steps[..i]), steps[i])
    ensures Run(s, steps[..i]).cs.nextOID < Run(s, steps[..j]).cs.nextOID
  {
    RunKeepsOids(s, steps[..i]);
    StepKeepsOids(Run(s, steps[..i]), steps[i]);
    assert steps[..i + 1][..i] == steps[..i];
    RunGoesOn(s, steps, i + 1, j);
    RunKeepsOids(Run(s, steps[..i + 1]), steps[i + 1..j]);
  }

  /** Hence no two creates that go through get the same identifier. */
  lemma {:induction false} OidsNeverRepeat(s: State, steps: seq<Step>, i: nat, j: nat)
    requires OidsGiven(s.cs.entries, s.cs.nextOID) && i < j < |steps| && Creates(s, steps, i) && Creates(s, steps, j)
    ensures Created(s, steps, i).Some? && Created(s, steps, j).Some?
    ensures Created(s, steps, i).value.oid < Created(s, steps, j).value.oid
  {
    CreatedOid(s, steps, i);
    CreatedOid(s, steps, j);
    NumbersNeverRepeat(s, steps, i, j);
  }
}
