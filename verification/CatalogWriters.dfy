/**
 One writer at a time: the undo records always lead back to their own versions, no committed
 write is lost, and two committed writers of one name never overlap.
 */
module CatalogWriters {
  import opened CatalogModel
  import opened CatalogSnapshots

  // ---------- The invariant ----------

  /** A version and one under it: the same writer's, or the upper writer started after the lower one committed. */
  ghost predicate Follows(newer: Version, older: Version, active: map<nat, Txn>, commits: map<nat, nat>) {
    || older.ts == newer.ts
    || (newer.ts in active && older.ts <= active[newer.ts].startTS)
    || (newer.ts in commits && older.ts <= commits[newer.ts])
  }

  ghost predicate Ordered(c: Chain, active: map<nat, Txn>, commits: map<nat, nat>) {
    forall i, j :: 0 <= i < j < |c| ==> Follows(c[i], c[j], active, commits)
  }

  /** Every version is committed or belongs to an open transaction. */
  ghost predicate Owned(c: Chain, lastTS: nat, active: map<nat, Txn>) {
    forall i :: 0 <= i < |c| ==> c[i].ts <= lastTS || c[i].ts in active
  }

  ghost predicate DistinctUids(c: Chain, nextUid: nat) {
    && (forall i :: 0 <= i < |c| ==> c[i].uid < nextUid)
    && (forall i, j :: 0 <= i < j < |c| ==> c[i].uid != c[j].uid)
  }

  /** How many versions at the top of the chain belong to the writer. */
  function Block(c: Chain, id: nat): (b: nat)
    ensures b <= |c|
    ensures forall i :: 0 <= i < b ==> c[i].ts == id
    ensures b < |c| ==> c[b].ts != id
  {
    if c == [] || c[0].ts != id then 0 else 1 + Block(c[1..], id)
  }

  /** The entries a transaction recorded under one name, oldest record first. */
  function Recorded(undo: seq<UndoRecord>, n: Name): (r: seq<nat>)
    ensures |r| <= |undo|
  {
    if undo == [] then []
    else if undo[|undo| - 1].name == n then Recorded(undo[..|undo| - 1], n) + [undo[|undo| - 1].older]
    else Recorded(undo[..|undo| - 1], n)
  }

  /** The k-th record points to the entry just under the k-th version the writer put there. */
  ghost predicate Traced(c: Chain, id: nat, recorded: seq<nat>) {
    var b := Block(c, id);
    b < |c| && |recorded| == b && forall q :: 0 <= q < b ==> recorded[q] == c[b - q].uid
  }

  ghost predicate GoodChain(c: Chain, s: State) {
    Ordered(c, s.active, s.commits) && Owned(c, s.lastTS, s.active) && DistinctUids(c, s.cs.nextUid)
  }

  ghost predicate GoodAt(s: State, n: Name) {
    n in s.cs.entries ==> GoodChain(s.cs.entries[n], s)
  }

  ghost predicate TracedAt(s: State, id: nat, n: Name) {
    id in s.active ==>
      if n in s.cs.entries then Traced(s.cs.entries[n], id, Recorded(s.active[id].undo, n))
      else Recorded(s.active[id].undo, n) == []
  }

  ghost predicate HistoryAt(s: State, cts: nat) {
    cts in s.commits ==> s.commits[cts] < cts <= s.lastTS
  }

  ghost predicate SingleWriter(s: State) {
    && Shape(s)
    && (forall n :: GoodAt(s, n))
    && (forall id, n :: TracedAt(s, id, n))
    && (forall cts :: HistoryAt(s, cts))
  }

  // ---------- What it says about a chain ----------

  /** Below the top block nothing is uncommitted. */
  lemma {:induction false} CommittedBelow(c: Chain, s: State, id: nat, i: nat)
    requires Shape(s) && (forall cts :: HistoryAt(s, cts))
    requires GoodChain(c, s) && Block(c, id) <= i < |c| && id in s.active
    ensures c[i].ts != id
    ensures Block(c, id) > 0 ==> c[i].ts <= s.active[id].startTS
  {
    var b := Block(c, id);
    assert b < i ==> Follows(c[b], c[i], s.active, s.commits);
    assert HistoryAt(s, c[b].ts);
    if b > 0 {
      assert HistoryAt(s, id);
      assert Follows(c[0], c[i], s.active, s.commits);
    }
  }

  // ---------- The undo buffer, one chain at a time ----------

  lemma {:induction false} IndexOfAt(c: Chain, nextUid: nat, i: nat)
    requires DistinctUids(c, nextUid) && i < |c|
    ensures IndexOf(c, c[i].uid) == i
  {
  }

  /** The records of one name, applied to its chain in order. */
  function CommitChain(c: Chain, recorded: seq<nat>, cts: nat): (r: Chain)
    ensures |r| == |c|
  {
    if recorded == [] then c
    else CommitAt(CommitChain(c, recorded[..|recorded| - 1], cts), recorded[|recorded| - 1], cts)
  }

  /** The records of one name, undone in reverse order. */
  function RollbackChain(c: Chain, recorded: seq<nat>): Chain {
    if recorded == [] then c
    else RollbackChain(RollbackAt(c, recorded[|recorded| - 1]), recorded[..|recorded| - 1])
  }

  lemma {:induction false} CommitByName(entries: map<Name, Chain>, undo: seq<UndoRecord>, cts: nat, n: Name)
    ensures n in CommitUndo(entries, undo, cts) <==> n in entries
    ensures n in entries ==> CommitUndo(entries, undo, cts)[n] == CommitChain(entries[n], Recorded(undo, n), cts)
  {
    if undo != [] {
      var init, r := undo[..|undo| - 1], undo[|undo| - 1];
      CommitByName(entries, init, cts, n);
      if r.name == n {
        assert Recorded(undo, n)[..|Recorded(init, n)|] == Recorded(init, n);
      }
    }
  }

  lemma {:induction false} RollbackByName(entries: map<Name, Chain>, undo: seq<UndoRecord>, n: Name)
    ensures n in RollbackUndo(entries, undo) <==> n in entries
    ensures n in entries ==> RollbackUndo(entries, undo)[n] == RollbackChain(entries[n], Recorded(undo, n))
  {
    if undo != [] {
      var init, r := undo[..|undo| - 1], undo[|undo| - 1];
      RollbackByName(RollbackRecord(entries, r), init, n);
      if r.name == n {
        assert Recorded(undo, n)[..|Recorded(init, n)|] == Recorded(init, n);
      }
    }
  }

  /** The chain after `p` of its `b` uncommitted versions, the oldest ones, have been dated. */
  ghost function Dated(c: Chain, b: nat, p: nat, cts: nat): (r: Chain)
    requires p <= b <= |c|
    ensures |r| == |c|
    ensures forall i :: 0 <= i < |c| ==> r[i] == if b - p <= i < b then c[i].(ts := cts) else c[i]
  {
    seq(|c|, i requires 0 <= i < |c| => if b - p <= i < b then c[i].(ts := cts) else c[i])
  }

  lemma {:induction false} CommitChainDates(c: Chain, id: nat, recorded: seq<nat>, k: nat, nextUid: nat, cts: nat)
    requires Traced(c, id, recorded) && DistinctUids(c, nextUid) && k <= |recorded|
    ensures CommitChain(c, recorded[..k], cts) == Dated(c, Block(c, id), k, cts)
  {
    var b := Block(c, id);
    if k == 0 {
      assert Dated(c, b, 0, cts) == c;
    } else {
      CommitChainDates(c, id, recorded, k - 1, nextUid, cts);
      var sofar := recorded[..k];
      assert sofar[..k - 1] == recorded[..k - 1] && sofar[k - 1] == recorded[k - 1] == c[b - (k - 1)].uid;
      DateNext(c, b, k - 1, recorded[k - 1], nextUid, cts);
      calc {
        CommitChain(c, sofar, cts);
        CommitAt(CommitChain(c, sofar[..k - 1], cts), sofar[k - 1], cts);
        Dated(c, b, k, cts);
      }
    }
  }

  lemma {:induction false} DateNext(c: Chain, b: nat, p: nat, older: nat, nextUid: nat, cts: nat)
    requires DistinctUids(c, nextUid) && p < b < |c| && older == c[b - p].uid
    ensures CommitAt(Dated(c, b, p, cts), older, cts) == Dated(c, b, p + 1, cts)
  {
    var before := Dated(c, b, p, cts);
    assert before[b - p].uid == older;
    IndexOfAt(before, nextUid, b - p);
    assert before[b - p - 1 := before[b - p - 1].(ts := cts)] == Dated(c, b, p + 1, cts);
  }

  /** Undoing the newest record takes the top version off. */
  lemma {:induction false} RollbackTop(c: Chain, nextUid: nat)
    requires DistinctUids(c, nextUid) && |c| > 1
    ensures RollbackAt(c, c[1].uid) == c[1..] && DistinctUids(c[1..], nextUid)
  {
    IndexOfAt(c, nextUid, 1);
    assert c[..0] + c[1..] == c[1..];
  }

  lemma {:induction false} TracedBelow(c: Chain, id: nat, recorded: seq<nat>)
    requires Traced(c, id, recorded) && Block(c, id) > 0
    ensures Traced(c[1..], id, recorded[..|recorded| - 1]) && Block(c[1..], id) == Block(c, id) - 1
    ensures recorded[|recorded| - 1] == c[1].uid
  {
    var b, below := Block(c, id), c[1..];
    assert Block(below, id) == b - 1;
    forall q | 0 <= q < b - 1 ensures recorded[q] == below[b - 1 - q].uid {}
  }

  lemma {:induction false} RollbackChainDrops(c: Chain, id: nat, recorded: seq<nat>, nextUid: nat)
    requires Traced(c, id, recorded) && DistinctUids(c, nextUid)
    ensures RollbackChain(c, recorded) == c[Block(c, id)..]
    decreases |recorded|
  {
    if recorded != [] {
      TracedBelow(c, id, recorded);
      RollbackTop(c, nextUid);
      RollbackChainDrops(c[1..], id, recorded[..|recorded| - 1], nextUid);
      assert c[1..][Block(c[1..], id)..] == c[Block(c, id)..];
    }
  }

  lemma {:induction false} WithoutIsDrop(c: Chain, id: nat)
    requires forall i :: Block(c, id) <= i < |c| ==> c[i].ts != id
    ensures WithoutChain(c, id) == c[Block(c, id)..]
  {
    if c != [] {
      if c[0].ts == id {
        forall i | Block(c[1..], id) <= i < |c[1..]| ensures c[1..][i].ts != id {
          assert c[1..][i] == c[i + 1];
        }
      } else {
        assert Block(c[1..], id) == 0 by { if |c| > 1 { assert c[1].ts != id; } }
      }
      WithoutIsDrop(c[1..], id);
    }
  }

  // ---------- The undo buffer does what commit and rollback mean ----------

  lemma {:induction false} CommitChainRestamps(c: Chain, s: State, id: nat, recorded: seq<nat>, cts: nat)
    requires SingleWriter(s) && id in s.active
    requires GoodChain(c, s) && Traced(c, id, recorded)
    ensures CommitChain(c, recorded, cts) == RestampChain(c, id, cts)
  {
    CommitChainDates(c, id, recorded, |recorded|, s.cs.nextUid, cts);
    assert recorded[..|recorded|] == recorded;
    forall i | Block(c, id) <= i < |c| ensures c[i].ts != id {
      CommittedBelow(c, s, id, i);
    }
  }

  lemma {:induction false} RollbackChainRemoves(c: Chain, s: State, id: nat, recorded: seq<nat>)
    requires SingleWriter(s) && id in s.active
    requires GoodChain(c, s) && Traced(c, id, recorded)
    ensures RollbackChain(c, recorded) == WithoutChain(c, id)
  {
    RollbackChainDrops(c, id, recorded, s.cs.nextUid);
    forall i | Block(c, id) <= i < |c| ensures c[i].ts != id {
      CommittedBelow(c, s, id, i);
    }
    WithoutIsDrop(c, id);
  }

  lemma {:induction false} EndByName(s: State, id: nat, cts: nat, n: Name)
    requires SingleWriter(s) && id in s.active
    ensures n in CommitUndo(s.cs.entries, s.active[id].undo, cts) <==> n in s.cs.entries
    ensures n in RollbackUndo(s.cs.entries, s.active[id].undo) <==> n in s.cs.entries
    ensures n in s.cs.entries ==>
      && CommitUndo(s.cs.entries, s.active[id].undo, cts)[n] == RestampChain(s.cs.entries[n], id, cts)
      && RollbackUndo(s.cs.entries, s.active[id].undo)[n] == WithoutChain(s.cs.entries[n], id)
  {
    var t := s.active[id];
    CommitByName(s.cs.entries, t.undo, cts, n);
    RollbackByName(s.cs.entries, t.undo, n);
    if n in s.cs.entries {
      assert TracedAt(s, id, n) && GoodAt(s, n);
      CommitChainRestamps(s.cs.entries[n], s, id, Recorded(t.undo, n), cts);
      RollbackChainRemoves(s.cs.entries[n], s, id, Recorded(t.undo, n));
    }
  }

  /** Committing along the undo records dates exactly the writer's versions. */
  lemma {:induction false} CommitByUndo(s: State, id: nat, cts: nat)
    requires SingleWriter(s) && id in s.active
    ensures CommitUndo(s.cs.entries, s.active[id].undo, cts) == Restamp(s.cs.entries, id, cts)
  {
    forall n
      ensures n in CommitUndo(s.cs.entries, s.active[id].undo, cts) <==> n in s.cs.entries
      ensures n in s.cs.entries ==>
        CommitUndo(s.cs.entries, s.active[id].undo, cts)[n] == RestampChain(s.cs.entries[n], id, cts)
    {
      EndByName(s, id, cts, n);
    }
  }

  /** Rolling back along the undo records, last first, removes exactly the writer's versions. */
  lemma {:induction false} RollbackByUndo(s: State, id: nat)
    requires SingleWriter(s) && id in s.active
    ensures RollbackUndo(s.cs.entries, s.active[id].undo) == Without(s.cs.entries, id)
  {
    forall n
      ensures n in RollbackUndo(s.cs.entries, s.active[id].undo) <==> n in s.cs.entries
      ensures n in s.cs.entries ==>
        RollbackUndo(s.cs.entries, s.active[id].undo)[n] == WithoutChain(s.cs.entries[n], id)
    {
      EndByName(s, id, 0, n);
    }
  }

  // ---------- Writes keep the invariant ----------

  /** The guard of create and alter. */
  ghost predicate Free(entries: map<Name, Chain>, t: Txn, n: Name) {
    n in entries && entries[n] != [] ==> !WWConflict(t, entries[n][0])
  }

  /** Same open transactions with the same snapshots, same history. */
  ghost predicate SameTxns(s: State, s': State) {
    && s'.lastTS == s.lastTS && s'.commits == s.commits && s'.active.Keys == s.active.Keys
    && (forall id :: id in s.active ==> s'.active[id].startTS == s.active[id].startTS)
  }

  lemma {:induction false} GoodFrame(c: Chain, s: State, s': State)
    requires GoodChain(c, s) && SameTxns(s, s') && s.cs.nextUid <= s'.cs.nextUid
    ensures GoodChain(c, s')
  {
    forall i, j | 0 <= i < j < |c| ensures Follows(c[i], c[j], s'.active, s'.commits) {
      assert Follows(c[i], c[j], s.active, s.commits);
    }
  }

  lemma {:induction false} FollowsAll(c: Chain, s: State, id: nat, i: nat)
    requires SingleWriter(s) && id in s.active && GoodChain(c, s) && i < |c|
    requires c != [] && !WWConflict(s.active[id], c[0])
    ensures c[i].ts == id || c[i].ts <= s.active[id].startTS
  {
    assert HistoryAt(s, c[0].ts);
    assert 0 < i ==> Follows(c[0], c[i], s.active, s.commits);
  }

  lemma {:induction false} PushGood(c: Chain, s: State, id: nat, added: Version, s': State)
    requires SingleWriter(s) && id in s.active && GoodChain(c, s)
    requires c != [] && !WWConflict(s.active[id], c[0])
    requires added.ts == id && s.cs.nextUid <= added.uid < s'.cs.nextUid
    requires SameTxns(s, s')
    ensures GoodChain([added] + c, s')
  {
    GoodFrame(c, s, s');
    var c' := [added] + c;
    forall i, j | 0 <= i < j < |c'| ensures Follows(c'[i], c'[j], s'.active, s'.commits) {
      if i == 0 {
        FollowsAll(c, s, id, j - 1);
      } else {
        assert Follows(c[i - 1], c[j - 1], s'.active, s'.commits);
      }
    }
  }

  lemma {:induction false} PushTraced(c: Chain, id: nat, recorded: seq<nat>, added: Version)
    requires Traced(c, id, recorded) && added.ts == id
    ensures Traced([added] + c, id, recorded + [c[0].uid])
  {
    var c', b := [added] + c, Block(c, id);
    assert c'[1..] == c;
    assert Block(c', id) == b + 1;
    forall q | 0 <= q < b + 1 ensures (recorded + [c[0].uid])[q] == c'[b + 1 - q].uid {
    }
  }

  lemma {:induction false} PushTracedOther(c: Chain, s: State, id: nat, other: nat, recorded: seq<nat>, added: Version)
    requires Shape(s) && id in s.active && other in s.active && id != other
    requires c != [] && !WWConflict(s.active[id], c[0])
    requires Traced(c, other, recorded) && added.ts == id
    ensures Traced([added] + c, other, recorded)
  {
    assert Block(c, other) == 0;
  }

  lemma {:induction false} RecordedPush(undo: seq<UndoRecord>, r: UndoRecord, n: Name)
    ensures Recorded(undo + [r], n) == if r.name == n then Recorded(undo, n) + [r.older] else Recorded(undo, n)
  {
    assert (undo + [r])[..|undo|] == undo;
  }

  ghost function Grown(s: State, id: nat, n: Name, ground: Version, added: Version, nextOID: nat, nextUid: nat): State
    requires id in s.active
  {
    Written(s, id, WriteResult(CatSet(Emplaced(s.cs.entries, n, ground, added), nextOID, nextUid), Done,
                               [UndoRecord(n, Under(s.cs.entries, n, ground)[0].uid)]))
  }

  ghost predicate FreshPair(s: State, id: nat, n: Name, ground: Version, added: Version, nextUid: nat) {
    && added.ts == id && s.cs.nextUid <= added.uid < nextUid
    && (n !in s.cs.entries ==> Ground(ground) && s.cs.nextUid <= ground.uid < added.uid)
  }

  lemma {:induction false} GrownShape(s: State, id: nat, n: Name, ground: Version, added: Version, nextOID: nat, nextUid: nat)
    requires Shape(s) && id in s.active && FreshPair(s, id, n, ground, added, nextUid)
    ensures Shape(Grown(s, id, n, ground, added, nextOID, nextUid))
  {
    EmplacedSound(s.cs.entries, n, ground, added, s.lastTS, s.lastTxnID);
  }

  lemma {:induction false} GrownGoodAt(s: State, id: nat, n: Name, ground: Version, added: Version, nextOID: nat, nextUid: nat, m: Name)
    requires SingleWriter(s) && id in s.active && Free(s.cs.entries, s.active[id], n)
    requires FreshPair(s, id, n, ground, added, nextUid)
    ensures GoodAt(Grown(s, id, n, ground, added, nextOID, nextUid), m)
  {
    var s' := Grown(s, id, n, ground, added, nextOID, nextUid);
    assert GoodAt(s, m);
    assert SoundAt(s.cs.entries, m, s.lastTS, s.lastTxnID);
    if m == n && n in s.cs.entries {
      PushGood(s.cs.entries[n], s, id, added, s');
    } else if m == n {
      assert s'.cs.entries[n] == [added, ground];
    } else if m in s.cs.entries {
      GoodFrame(s.cs.entries[m], s, s');
    }
  }

  lemma {:induction false} GrownTracedAt(s: State, id: nat, n: Name, ground: Version, added: Version, nextOID: nat, nextUid: nat,
                                         other: nat, m: Name)
    requires SingleWriter(s) && id in s.active && Free(s.cs.entries, s.active[id], n)
    requires FreshPair(s, id, n, ground, added, nextUid)
    ensures TracedAt(Grown(s, id, n, ground, added, nextOID, nextUid), other, m)
  {
    var s' := Grown(s, id, n, ground, added, nextOID, nextUid);
    if other in s.active {
      assert TracedAt(s, other, m);
      assert SoundAt(s.cs.entries, m, s.lastTS, s.lastTxnID);
      var c := Under(s.cs.entries, n, ground);
      if other == id {
        RecordedPush(s.active[id].undo, UndoRecord(n, c[0].uid), m);
        if m == n {
          assert n !in s.cs.entries ==> Traced(c, id, []);
          PushTraced(c, id, Recorded(s.active[id].undo, n), added);
        }
      } else if m == n {
        assert n !in s.cs.entries ==> Traced(c, other, []);
        PushTracedOther(c, s, id, other, Recorded(s.active[other].undo, n), added);
      }
    }
  }

  /** A write on a free name keeps the invariant. */
  lemma {:induction false} GrownKeeps(s: State, id: nat, n: Name, ground: Version, added: Version, nextOID: nat, nextUid: nat)
    requires SingleWriter(s) && id in s.active && Free(s.cs.entries, s.active[id], n)
    requires FreshPair(s, id, n, ground, added, nextUid)
    ensures SingleWriter(Grown(s, id, n, ground, added, nextOID, nextUid))
  {
    var s' := Grown(s, id, n, ground, added, nextOID, nextUid);
    GrownShape(s, id, n, ground, added, nextOID, nextUid);
    forall m ensures GoodAt(s', m) {
      GrownGoodAt(s, id, n, ground, added, nextOID, nextUid, m);
    }
    forall other, m ensures TracedAt(s', other, m) {
      GrownTracedAt(s, id, n, ground, added, nextOID, nextUid, other, m);
    }
    forall cts ensures HistoryAt(s', cts) {
      assert HistoryAt(s, cts);
    }
  }
}
