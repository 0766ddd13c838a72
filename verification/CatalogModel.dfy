/**
 The versioned catalog: a map from a name to its version chain, newest first.

 A version carries either the identifier of the transaction that wrote it, while that
 transaction is open, or the timestamp of its commit. Identifiers start above
 `START_TRANSACTION_ID`, commit timestamps stay below it.

 `uid` stands for the address of the entry object: undo records point to an entry, and the
 version they are about is the one found, at commit or rollback, just above that entry.
 */
module CatalogModel {

  import opened Basics

  const START_TRANSACTION_ID: nat := 0x8000_0000_0000_0000

  /** A name, as the case-insensitive map compares it. */
  datatype Name = Name(text: string)

  /** The definition an entry holds. */
  datatype Body = Body(text: string)

  datatype Version = Version(uid: nat, ts: nat, deleted: bool, oid: nat, isFunction: bool, body: Body)

  type Chain = seq<Version>

  datatype TxnKind = ReadOnly | Write | Recovery

  datatype UndoRecord = UndoRecord(name: Name, older: nat)

  datatype Txn = Txn(id: nat, startTS: nat, kind: TxnKind, undo: seq<UndoRecord>)

  /** The fields of a catalog set. */
  datatype CatSet = CatSet(entries: map<Name, Chain>, nextOID: nat, nextUid: nat)

  datatype Outcome = Done | AlreadyExists | DoesNotExist | WriteConflict

  // ---------- Reading ----------

  predicate Sees(t: Txn, v: Version) {
    v.ts == t.id || v.ts <= t.startTS
  }

  /** The first version of the chain that belongs to the transaction or to its snapshot. */
  function Visible(c: Chain, t: Txn): (r: Option<Version>)
    ensures r.Some? ==> r.value in c && Sees(t, r.value)
    ensures r.None? ==> forall v :: v in c ==> !Sees(t, v)
  {
    if c == [] then None
    else if Sees(t, c[0]) then Some(c[0])
    else Visible(c[1..], t)
  }

  /** The visible version stands at an index above which nothing is seen. */
  lemma {:induction false} VisibleIsFirst(c: Chain, t: Txn) returns (i: nat)
    ensures i <= |c| && forall j :: 0 <= j < i ==> !Sees(t, c[j])
    ensures i < |c| ==> Sees(t, c[i])
    ensures Visible(c, t) == if i < |c| then Some(c[i]) else None
  {
    if c == [] || Sees(t, c[0]) {
      i := 0;
    } else {
      var below := VisibleIsFirst(c[1..], t);
      i := below + 1;
      forall j | 0 <= j < i ensures !Sees(t, c[j]) { assert j > 0 ==> c[j] == c[1..][j - 1]; }
    }
  }

  /** What a lookup by name returns: the visible version, unless it is a tombstone. */
  function Live(entries: map<Name, Chain>, t: Txn, n: Name): Option<Version> {
    if n !in entries then None
    else
      var v := Visible(entries[n], t);
      if v.Some? && !v.value.deleted then v else None
  }

  predicate WWConflict(t: Txn, v: Version) {
    || (v.ts >= START_TRANSACTION_ID && v.ts != t.id)
    || (v.ts < START_TRANSACTION_ID && v.ts > t.startTS)
  }

  // ---------- Writing ----------

  function Dummy(uid: nat, ts: nat, oid: nat): Version {
    Version(uid, ts, true, oid, false, Body(""))
  }

  /** The chain a new version goes on: the name's chain, or the dummy that grounds a new one. */
  function Under(entries: map<Name, Chain>, n: Name, ground: Version): (c: Chain)
    ensures c != []
  {
    if n in entries && entries[n] != [] then entries[n] else [ground]
  }

  /** `emplaceNoLock` */
  function Emplaced(entries: map<Name, Chain>, n: Name, ground: Version, added: Version): map<Name, Chain> {
    entries[n := [added] + Under(entries, n, ground)]
  }

  /** Whether `createEntryNoLock` throws, and what. */
  function CreateOutcome(entries: map<Name, Chain>, t: Txn, n: Name): Outcome {
    if Live(entries, t, n).Some? then AlreadyExists
    else if n in entries && entries[n] != [] && WWConflict(t, entries[n][0]) then WriteConflict
    else if n in entries && entries[n] != [] && !entries[n][0].deleted then AlreadyExists
    else Done
  }

  /** What a write leaves: the set, its outcome, and the undo records it pushes. */
  datatype WriteResult = WriteResult(cs: CatSet, outcome: Outcome, records: seq<UndoRecord>)

  /** `createEntryNoLock`; its undo record names the entry just under the new one. */
  function CreateNoLock(cs: CatSet, t: Txn, n: Name, oid: nat, isFunction: bool, body: Body): WriteResult {
    var outcome := CreateOutcome(cs.entries, t, n);
    if outcome != Done then WriteResult(cs, outcome, [])
    else
      var ground := Dummy(cs.nextUid, 0, oid);
      var added := Version(cs.nextUid + 1, t.id, false, oid, isFunction, body);
      WriteResult(CatSet(Emplaced(cs.entries, n, ground, added), cs.nextOID, cs.nextUid + 2), Done,
                  [UndoRecord(n, Under(cs.entries, n, ground)[0].uid)])
  }

  /** `createEntry`: the OID is taken even when the creation is refused. */
  function Create(cs: CatSet, t: Txn, n: Name, isFunction: bool, body: Body): WriteResult {
    CreateNoLock(cs.(nextOID := cs.nextOID + 1), t, n, cs.nextOID, isFunction, body)
  }

  /** `dropEntryNoLock`: a tombstone on top of the chain, whoever wrote the version under it. */
  function Drop(cs: CatSet, t: Txn, n: Name, oid: nat): WriteResult {
    if Live(cs.entries, t, n).None? then WriteResult(cs, DoesNotExist, [])
    else
      var tombstone := Dummy(cs.nextUid, t.id, oid);
      WriteResult(CatSet(Emplaced(cs.entries, n, tombstone, tombstone), cs.nextOID, cs.nextUid + 1), Done,
                  [UndoRecord(n, cs.entries[n][0].uid)])
  }

  /** Whether `alterTableEntry` throws before it changes anything. */
  function AlterOutcome(entries: map<Name, Chain>, t: Txn, n: Name): Outcome {
    if Live(entries, t, n).None? then DoesNotExist
    else if t.kind != Recovery && WWConflict(t, entries[n][0]) then WriteConflict
    else Done
  }

  /** `alterTableEntry` for every change but a rename; the undo record names the visible version. */
  function Alter(cs: CatSet, t: Txn, n: Name, body: Body, takesOID: bool): WriteResult {
    var outcome := AlterOutcome(cs.entries, t, n);
    if outcome != Done then WriteResult(cs, outcome, [])
    else
      var v := Live(cs.entries, t, n).value;
      var added := v.(uid := cs.nextUid, ts := t.id, body := body);
      WriteResult(
        CatSet(Emplaced(cs.entries, n, added, added), if takesOID then cs.nextOID + 1 else cs.nextOID, cs.nextUid + 1),
        Done, [UndoRecord(n, v.uid)])
  }

  /** `alterTableEntry` for a rename: a drop, then a creation under the new name, which may throw
      and then leaves the tombstone without an undo record. */
  function Rename(cs: CatSet, t: Txn, n: Name, newName: Name): WriteResult {
    var outcome := AlterOutcome(cs.entries, t, n);
    if outcome != Done then WriteResult(cs, outcome, [])
    else
      var v := Live(cs.entries, t, n).value;
      var created := CreateNoLock(Drop(cs, t, n, v.oid).cs, t, newName, v.oid, v.isFunction, v.body);
      created.(records := if created.outcome == Done then [UndoRecord(n, v.uid)] + created.records else [])
  }

  // ---------- The undo buffer ----------

  /** Index of an entry in its chain; the length of the chain when it is not there. */
  function IndexOf(c: Chain, uid: nat): (i: nat)
    ensures i <= |c|
    ensures i < |c| ==> c[i].uid == uid
    ensures forall j :: 0 <= j < i ==> c[j].uid != uid
  {
    if c == [] || c[0].uid == uid then 0 else 1 + IndexOf(c[1..], uid)
  }

  /** The version just above the entry an undo record points to gets the commit timestamp. */
  function CommitAt(c: Chain, older: nat, cts: nat): (r: Chain)
    ensures |r| == |c|
  {
    var i := IndexOf(c, older);
    if 0 < i < |c| then c[i - 1 := c[i - 1].(ts := cts)] else c
  }

  /** The version just above the entry an undo record points to leaves the chain. */
  function RollbackAt(c: Chain, older: nat): Chain {
    var i := IndexOf(c, older);
    if 0 < i < |c| then c[..i - 1] + c[i..] else c
  }

  /** `commitCatalogEntryRecord` */
  function CommitRecord(entries: map<Name, Chain>, r: UndoRecord, cts: nat): map<Name, Chain> {
    if r.name in entries then entries[r.name := CommitAt(entries[r.name], r.older, cts)] else entries
  }

  /** `rollbackCatalogEntryRecord` */
  function RollbackRecord(entries: map<Name, Chain>, r: UndoRecord): map<Name, Chain> {
    if r.name in entries then entries[r.name := RollbackAt(entries[r.name], r.older)] else entries
  }

  /** `UndoBuffer::commit`: the records in the order they were pushed. */
  function CommitUndo(entries: map<Name, Chain>, undo: seq<UndoRecord>, cts: nat): map<Name, Chain> {
    if undo == [] then entries
    else CommitRecord(CommitUndo(entries, undo[..|undo| - 1], cts), undo[|undo| - 1], cts)
  }

  /** `UndoBuffer::rollback`: the records in reverse order. */
  function RollbackUndo(entries: map<Name, Chain>, undo: seq<UndoRecord>): map<Name, Chain> {
    if undo == [] then entries
    else RollbackUndo(RollbackRecord(entries, undo[|undo| - 1]), undo[..|undo| - 1])
  }

  // ---------- What commit and rollback are for: all the versions of one writer ----------

  function RestampChain(c: Chain, id: nat, cts: nat): (r: Chain)
    ensures |r| == |c|
    ensures forall i :: 0 <= i < |c| ==> r[i] == if c[i].ts == id then c[i].(ts := cts) else c[i]
  {
    seq(|c|, i requires 0 <= i < |c| => if c[i].ts == id then c[i].(ts := cts) else c[i])
  }

  function Restamp(entries: map<Name, Chain>, id: nat, cts: nat): map<Name, Chain> {
    map n | n in entries :: RestampChain(entries[n], id, cts)
  }

  function WithoutChain(c: Chain, id: nat): Chain {
    if c == [] then []
    else if c[0].ts == id then WithoutChain(c[1..], id)
    else [c[0]] + WithoutChain(c[1..], id)
  }

  function Without(entries: map<Name, Chain>, id: nat): map<Name, Chain> {
    map n | n in entries :: WithoutChain(entries[n], id)
  }

  // ---------- The whole system ----------

  /** `commits` is a history variable: the snapshot each committed writer worked on, by commit timestamp. */
  datatype State = State(cs: CatSet, lastTS: nat, lastTxnID: nat, active: map<nat, Txn>, commits: map<nat, nat>)

  datatype Step =
    | Begin(kind: TxnKind)
    | CreateStep(id: nat, n: Name, isFunction: bool, body: Body)
    | DropStep(id: nat, n: Name, oid: nat)
    | AlterStep(id: nat, n: Name, body: Body, takesOID: bool)
    | RenameStep(id: nat, n: Name, newName: Name)
    | CommitStep(id: nat)
    | RollbackStep(id: nat)
    | FailStep(id: nat)      // a statement failed in an open block: its writes go, the transaction stays
    | RefreshStep(id: nat)   // a transaction that has written nothing moves its snapshot forward

  predicate Enabled(s: State, a: Step) {
    && (!a.Begin? ==> a.id in s.active)
    && (a.CreateStep? || a.DropStep? || a.AlterStep? || a.RenameStep? || a.FailStep? ==> s.active[a.id].kind != ReadOnly)
    && (a.CommitStep? ==> s.lastTS + 1 < START_TRANSACTION_ID)
    && (a.RefreshStep? ==> s.active[a.id].undo == [])
  }

  predicate IsWrite(a: Step) {
    a.CreateStep? || a.DropStep? || a.AlterStep? || a.RenameStep?
  }

  function WriteEffect(cs: CatSet, t: Txn, a: Step): WriteResult
    requires IsWrite(a)
  {
    match a
    case CreateStep(_, n, isFunction, body) => Create(cs, t, n, isFunction, body)
    case DropStep(_, n, oid) => Drop(cs, t, n, oid)
    case AlterStep(_, n, body, takesOID) => Alter(cs, t, n, body, takesOID)
    case RenameStep(_, n, newName) => Rename(cs, t, n, newName)
  }

  /** A write: its effect on the set, and its records at the end of the transaction's undo buffer. */
  function Written(s: State, id: nat, w: WriteResult): State
    requires id in s.active
  {
    s.(cs := w.cs, active := s.active[id := s.active[id].(undo := s.active[id].undo + w.records)])
  }

  /** A step that is not a write, given the chains that a commit or a rollback leaves. */
  function Control(s: State, a: Step, ended: map<Name, Chain>): State
    requires !IsWrite(a) && Enabled(s, a)
  {
    match a
    case Begin(kind) =>
      s.(lastTxnID := s.lastTxnID + 1,
         active := s.active[s.lastTxnID + 1 := Txn(s.lastTxnID + 1, s.lastTS, kind, [])])
    case CommitStep(id) =>
      if s.active[id].kind == ReadOnly then s.(active := s.active - {id})
      else
        State(s.cs.(entries := ended), s.lastTS + 1, s.lastTxnID, s.active - {id},
              s.commits[s.lastTS + 1 := s.active[id].startTS])
    case RollbackStep(id) =>
      if s.active[id].kind == ReadOnly then s.(active := s.active - {id})
      else s.(cs := s.cs.(entries := ended), active := s.active - {id})
    case FailStep(id) =>
      s.(cs := s.cs.(entries := ended), active := s.active[id := s.active[id].(undo := [])])
    case RefreshStep(id) =>
      s.(active := s.active[id := s.active[id].(startTS := s.lastTS)])
  }

  /** What the undo records make of the chains at a commit or a rollback. */
  function EndedByUndo(s: State, a: Step): map<Name, Chain>
    requires a.Begin? || a.id in s.active
  {
    if a.CommitStep? then CommitUndo(s.cs.entries, s.active[a.id].undo, s.lastTS + 1)
    else if a.RollbackStep? || a.FailStep? then RollbackUndo(s.cs.entries, s.active[a.id].undo)
    else s.cs.entries
  }

  /** What a commit and a rollback mean: to date, and to remove, exactly the writer's versions. */
  function EndedByOwner(s: State, a: Step): map<Name, Chain> {
    if a.CommitStep? then Restamp(s.cs.entries, a.id, s.lastTS + 1)
    else if a.RollbackStep? || a.FailStep? then Without(s.cs.entries, a.id)
    else s.cs.entries
  }

  /** A step as the source takes it. */
  function Apply(s: State, a: Step): State {
    if !Enabled(s, a) then s
    else if IsWrite(a) then Written(s, a.id, WriteEffect(s.cs, s.active[a.id], a))
    else Control(s, a, EndedByUndo(s, a))
  }

  /** A step as it is meant. */
  function ApplyByOwner(s: State, a: Step): State {
    if !Enabled(s, a) then s
    else if IsWrite(a) then Written(s, a.id, WriteEffect(s.cs, s.active[a.id], a))
    else Control(s, a, EndedByOwner(s, a))
  }

  function Run(s: State, steps: seq<Step>): State {
    if steps == [] then s else Apply(Run(s, steps[..|steps| - 1]), steps[|steps| - 1])
  }

  function RunByOwner(s: State, steps: seq<Step>): State {
    if steps == [] then s else ApplyByOwner(RunByOwner(s, steps[..|steps| - 1]), steps[|steps| - 1])
  }
}
