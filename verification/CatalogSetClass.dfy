/**
 The catalog set as an object: its fields change in place, its loops walk the chains, the map and
 the undo buffer. Every method is tied to the function of `CatalogModel` that says what it does.
 */
module CatalogSetClass {
  import opened Basics
  import opened CatalogModel
  import opened CatalogSnapshots
  import opened CatalogWriters
  import opened CatalogRuns
  import opened CatalogResults

  // ---------- Walking a chain ----------

  /** `traverseVersionChainsForTransactionNoLock`: the position reached, past the end for null. */
  method Traverse(c: Chain, t: Txn) returns (i: nat)
    ensures i <= |c|
    ensures Visible(c, t) == if i < |c| then Some(c[i]) else None
  {
    i := 0;
    while i < |c|
      invariant i <= |c|
      invariant Visible(c, t) == Visible(c[i..], t)
    {
      if c[i].ts == t.id { break; }
      if c[i].ts <= t.startTS { break; }
      assert c[i..][1..] == c[i + 1..];
      i := i + 1;
    }
  }

  /** The newest committed version of a chain. */
  function Committed(c: Chain): (r: Option<Version>)
    ensures r.Some? ==> r.value in c && r.value.ts < START_TRANSACTION_ID
  {
    if c == [] then None else if c[0].ts < START_TRANSACTION_ID then Some(c[0]) else Committed(c[1..])
  }

  /** `getCommittedEntryNoLock` */
  method FindCommitted(c: Chain) returns (i: nat)
    ensures i <= |c|
    ensures Committed(c) == if i < |c| then Some(c[i]) else None
  {
    i := 0;
    while i < |c| && c[i].ts >= START_TRANSACTION_ID
      invariant i <= |c|
      invariant Committed(c) == Committed(c[i..])
    {
      assert c[i..][1..] == c[i + 1..];
      i := i + 1;
    }
  }

  // ---------- The checkpoint image ----------

  datatype Item = Item(name: Name, oid: nat, body: Body)

  datatype Image = Image(nextOID: nat, items: seq<Item>)

  /** The items a checkpoint writes, by name: newest committed and live, unless the head is a function. */
  ghost function Persistent(entries: map<Name, Chain>, n: Name): Option<Item> {
    if n !in entries || entries[n] == [] || entries[n][0].isFunction then None
    else
      var v := Committed(entries[n]);
      if v.Some? && !v.value.deleted then Some(Item(n, v.value.oid, v.value.body)) else None
  }

  ghost predicate DistinctNames(items: seq<Item>) {
    forall i, j :: 0 <= i < j < |items| ==> items[i].name != items[j].name
  }

  /** The image holds the persistent items of the set, each once. */
  ghost predicate ImageOf(image: Image, cs: CatSet) {
    && image.nextOID == cs.nextOID
    && DistinctNames(image.items)
    && forall n, oid, body :: Item(n, oid, body) in image.items <==> Persistent(cs.entries, n) == Some(Item(n, oid, body))
  }

  class CatalogSet {
    var entries: map<Name, Chain>
    var nextOID: nat
    var nextUid: nat

    ghost predicate Valid()
      reads this
    {
      forall n :: n in entries ==> Grounded(entries[n])
    }

    function Value(): CatSet
      reads this
    {
      CatSet(entries, nextOID, nextUid)
    }

    constructor ()
      ensures Valid() && Value() == CatSet(map[], 0, 0)
    {
      entries, nextOID, nextUid := map[], 0, 0;
    }

    /** `containsEntryNoLock` */
    method ContainsEntry(t: Txn, n: Name) returns (found: bool)
      requires Valid()
      ensures found <==> Live(entries, t, n).Some?
    {
      if n !in entries { return false; }
      var i := Traverse(entries[n], t);
      VisibleExists(entries[n], t);
      found := !entries[n][i].deleted;
    }

    /** `getEntryNoLock`: nothing when the name does not exist for the transaction. */
    method GetEntry(t: Txn, n: Name) returns (v: Option<Version>)
      requires Valid()
      ensures v == Live(entries, t, n)
    {
      var found := ContainsEntry(t, n);
      if !found { return None; }
      var i := Traverse(entries[n], t);
      v := Some(entries[n][i]);
    }

    /** `emplaceNoLock`, the dummy that grounds a new chain included. */
    method Emplace(n: Name, ground: Version, added: Version)
      requires n in entries ==> entries[n] != []
      modifies this`entries
      ensures entries == Emplaced(old(entries), n, ground, added)
    {
      if n !in entries {
        entries := entries[n := [ground]];
      }
      var prev := entries[n];
      entries := entries[n := [added] + prev];
    }

    method CreateUnlocked(t: Txn, n: Name, oid: nat, isFunction: bool, body: Body)
      returns (outcome: Outcome, records: seq<UndoRecord>)
      requires Valid()
      modifies this
      ensures Valid()
      ensures WriteResult(Value(), outcome, records) == CreateNoLock(old(Value()), t, n, oid, isFunction, body)
    {
      records := [];
      var exists_ := ContainsEntry(t, n);
      if exists_ { return AlreadyExists, []; }
      if n in entries {
        var existing := entries[n][0];
        if WWConflict(t, existing) { return WriteConflict, []; }
        if !existing.deleted { return AlreadyExists, []; }
      }
      var ground := Dummy(nextUid, 0, oid);
      var added := Version(nextUid + 1, t.id, false, oid, isFunction, body);
      outcome, records := Done, [UndoRecord(n, Under(entries, n, ground)[0].uid)];
      Emplace(n, ground, added);
      nextUid := nextUid + 2;
    }

    method CreateEntry(t: Txn, n: Name, isFunction: bool, body: Body) returns (outcome: Outcome, records: seq<UndoRecord>)
      requires Valid()
      modifies this
      ensures Valid()
      ensures WriteResult(Value(), outcome, records) == Create(old(Value()), t, n, isFunction, body)
    {
      var oid := nextOID;
      nextOID := nextOID + 1;
      outcome, records := CreateUnlocked(t, n, oid, isFunction, body);
    }

    method DropEntry(t: Txn, n: Name, oid: nat) returns (outcome: Outcome, records: seq<UndoRecord>)
      requires Valid()
      modifies this
      ensures Valid()
      ensures WriteResult(Value(), outcome, records) == Drop(old(Value()), t, n, oid)
    {
      var found := ContainsEntry(t, n);
      if !found { return DoesNotExist, []; }
      var tombstone := Dummy(nextUid, t.id, oid);
      outcome, records := Done, [UndoRecord(n, entries[n][0].uid)];
      Emplace(n, tombstone, tombstone);
      nextUid := nextUid + 1;
    }

    /** `alterTableEntry` when the change is not a rename. */
    method AlterEntry(t: Txn, n: Name, body: Body, takesOID: bool) returns (outcome: Outcome, records: seq<UndoRecord>)
      requires Valid()
      modifies this
      ensures Valid()
      ensures WriteResult(Value(), outcome, records) == Alter(old(Value()), t, n, body, takesOID)
    {
      var entry := GetEntry(t, n);
      if entry.None? { return DoesNotExist, []; }
      if t.kind != Recovery && WWConflict(t, entries[n][0]) { return WriteConflict, []; }
      if takesOID { nextOID := nextOID + 1; }
      var added := entry.value.(uid := nextUid, ts := t.id, body := body);
      outcome, records := Done, [UndoRecord(n, entry.value.uid)];
      Emplace(n, added, added);
      nextUid := nextUid + 1;
    }

    /** `alterTableEntry` for a rename. */
    method RenameEntry(t: Txn, n: Name, newName: Name) returns (outcome: Outcome, records: seq<UndoRecord>)
      requires Valid()
      modifies this
      ensures Valid()
      ensures WriteResult(Value(), outcome, records) == Rename(old(Value()), t, n, newName)
    {
      var entry := GetEntry(t, n);
      if entry.None? { return DoesNotExist, []; }
      if t.kind != Recovery && WWConflict(t, entries[n][0]) { return WriteConflict, []; }
      var v := entry.value;
      var _, _ := DropEntry(t, n, v.oid);
      outcome, records := CreateUnlocked(t, newName, v.oid, v.isFunction, v.body);
      if outcome == Done {
        records := [UndoRecord(n, v.uid)] + records;
      }
    }

    /** `UndoBuffer::commit` over this set. */
    method CommitRecords(undo: seq<UndoRecord>, cts: nat)
      modifies this`entries
      ensures entries == CommitUndo(old(entries), undo, cts)
    {
      var k := 0;
      while k < |undo|
        invariant k <= |undo|
        invariant entries == CommitUndo(old(entries), undo[..k], cts)
      {
        assert undo[..k + 1][..k] == undo[..k];
        entries := CommitRecord(entries, undo[k], cts);
        k := k + 1;
      }
      assert undo[..k] == undo;
    }

    /** `UndoBuffer::rollback` over this set: last record first. */
    method RollbackRecords(undo: seq<UndoRecord>)
      modifies this`entries
      ensures entries == RollbackUndo(old(entries), undo)
    {
      var k := |undo|;
      assert undo[..k] == undo;
      while k > 0
        invariant k <= |undo|
        invariant RollbackUndo(entries, undo[..k]) == RollbackUndo(old(entries), undo)
      {
        assert undo[..k][..k - 1] == undo[..k - 1];
        entries := RollbackRecord(entries, undo[k - 1]);
        k := k - 1;
      }
    }

    /** `getEntries`: the live version of every name, and only those. */
    method GetEntries(t: Txn) returns (result: map<Name, Version>)
      requires Valid()
      ensures forall n :: n in result <==> Live(entries, t, n).Some?
      ensures forall n :: n in result ==> result[n] == Live(entries, t, n).value
    {
      result := map[];
      var rest := entries.Keys;
      while rest != {}
        invariant rest <= entries.Keys
        invariant forall n :: n in result <==> n !in rest && Live(entries, t, n).Some?
        invariant forall n :: n in result ==> result[n] == Live(entries, t, n).value
        decreases |rest|
      {
        var n :| n in rest;
        rest := rest - {n};
        var i := Traverse(entries[n], t);
        VisibleExists(entries[n], t);
        if !entries[n][i].deleted {
          result := result[n := entries[n][i]];
        }
      }
    }

    /** `serialize`, in whatever order the map yields its names. */
    method Serialize() returns (image: Image)
      requires Valid()
      ensures ImageOf(image, Value())
    {
      var items: seq<Item> := [];
      var rest := entries.Keys;
      while rest != {}
        invariant rest <= entries.Keys
        invariant DistinctNames(items)
        invariant forall x :: x in items ==> x.name !in rest
        invariant forall n, oid, body :: Item(n, oid, body) in items <==>
                    n !in rest && Persistent(entries, n) == Some(Item(n, oid, body))
        decreases |rest|
      {
        var n :| n in rest;
        rest := rest - {n};
        var c := entries[n];
        if !c[0].isFunction {
          var i := FindCommitted(c);
          if i < |c| && !c[i].deleted {
            items := items + [Item(n, c[i].oid, c[i].body)];
          }
        }
      }
      image := Image(nextOID, items);
    }

    /** `deserialize` */
    constructor FromImage(image: Image)
      ensures Valid() && Value() == Load(image)
    {
      entries, nextOID, nextUid := map[], image.nextOID, 0;
      new;
      var k := 0;
      while k < |image.items|
        invariant k <= |image.items| && Value() == LoadItems(image.nextOID, image.items[..k])
      {
        var x := image.items[k];
        var added := Version(nextUid, 0, false, x.oid, false, x.body);
        entries := entries[x.name := [added] + if x.name in entries then entries[x.name] else []];
        nextUid := nextUid + 1;
        assert image.items[..k + 1][..k] == image.items[..k];
        k := k + 1;
      }
      assert image.items[..k] == image.items;
      LoadIsLoaded(image.nextOID, image.items);
      forall n ensures n in entries ==> Grounded(entries[n]) { assert LoadedAt(Value(), n); }
    }
  }

  /** Each item becomes a version at timestamp 0, on top of its name's chain if it has one. */
  function LoadItems(nextOID: nat, items: seq<Item>): CatSet {
    if items == [] then CatSet(map[], nextOID, 0)
    else
      var cs, x := LoadItems(nextOID, items[..|items| - 1]), items[|items| - 1];
      var added := Version(cs.nextUid, 0, false, x.oid, false, x.body);
      CatSet(cs.entries[x.name := [added] + if x.name in cs.entries then cs.entries[x.name] else []], nextOID, cs.nextUid + 1)
  }

  function Load(image: Image): CatSet {
    LoadItems(image.nextOID, image.items)
  }

  /** Whatever the file holds, the loaded set is one a run can start from. */
  lemma {:induction false} LoadIsLoaded(nextOID: nat, items: seq<Item>)
    ensures Loaded(LoadItems(nextOID, items)) && LoadItems(nextOID, items).nextOID == nextOID
  {
    if items != [] {
      LoadIsLoaded(nextOID, items[..|items| - 1]);
      var cs, cs' := LoadItems(nextOID, items[..|items| - 1]), LoadItems(nextOID, items);
      forall n ensures LoadedAt(cs', n) { assert LoadedAt(cs, n); }
    }
  }

  lemma {:induction false} LoadHoldsItems(nextOID: nat, items: seq<Item>)
    requires DistinctNames(items)
    ensures forall i :: 0 <= i < |items| ==> HoldsItem(LoadItems(nextOID, items).entries, items[i])
    ensures forall n :: n in LoadItems(nextOID, items).entries ==> exists i :: 0 <= i < |items| && items[i].name == n
  {
    if items != [] {
      var init := items[..|items| - 1];
      LoadHoldsItems(nextOID, init);
      var before, after := LoadItems(nextOID, init).entries, LoadItems(nextOID, items).entries;
      assert items[|items| - 1].name !in before;
      forall i | 0 <= i < |items| ensures HoldsItem(after, items[i]) {
        assert i < |init| ==> HoldsItem(before, init[i]);
      }
      forall n | n in after ensures exists i :: 0 <= i < |items| && items[i].name == n {
        if n in before {
          var i :| 0 <= i < |init| && init[i].name == n;
          assert items[i].name == n;
        }
      }
    }
  }

  ghost predicate HoldsItem(entries: map<Name, Chain>, x: Item) {
    x.name in entries && |entries[x.name]| == 1 &&
    entries[x.name][0] == Version(entries[x.name][0].uid, 0, false, x.oid, false, x.body)
  }

  // ---------- A checkpoint writes the fresh reader's view ----------

  lemma {:induction false} CommittedIsFresh(c: Chain, s: State)
    requires Shape(s) && Stamped(c, s.lastTS, s.lastTxnID)
    ensures Committed(c) == Visible(c, FreshReader(s))
  {
    if c != [] {
      CommittedIsFresh(c[1..], s);
    }
  }

  /** What a transaction starting now finds under a name, as an item; functions are not items. */
  ghost function FreshItem(s: State, n: Name): Option<Item> {
    var v := Live(s.cs.entries, FreshReader(s), n);
    if v.Some? && !v.value.isFunction then Some(Item(n, v.value.oid, v.value.body)) else None
  }

  /** The head of the chain is a function exactly if the entry found now is one. */
  ghost predicate HeadTells(s: State, n: Name) {
    var v := Live(s.cs.entries, FreshReader(s), n);
    v.Some? ==> s.cs.entries[n] != [] && s.cs.entries[n][0].isFunction == v.value.isFunction
  }

  /** A checkpoint writes what a transaction starting now finds and is no function, exactly under the names whose head
      tells: it looks at the head for the type and at the newest committed version for the rest. */
  lemma {:induction false} PersistentIsFreshView(s: State, n: Name)
    requires Shape(s)
    ensures Persistent(s.cs.entries, n) == FreshItem(s, n) <==> HeadTells(s, n)
  {
    if n in s.cs.entries {
      assert SoundAt(s.cs.entries, n, s.lastTS, s.lastTxnID);
      CommittedIsFresh(s.cs.entries[n], s);
    }
  }

  /** No open transaction has written anything. */
  ghost predicate Quiet(s: State) {
    forall id :: id in s.active ==> s.active[id].undo == []
  }

  /** Between writers every head tells. */
  lemma {:induction false} QuietTells(s: State, n: Name)
    requires Inv(s) && Quiet(s)
    ensures HeadTells(s, n)
  {
    if n in s.cs.entries {
      var c := s.cs.entries[n];
      assert GoodAt(s, n) && SoundAt(s.cs.entries, n, s.lastTS, s.lastTxnID);
      assert TracedAt(s, c[0].ts, n) && Block(c, c[0].ts) > 0;
      assert Visible(c, FreshReader(s)) == Some(c[0]);
    }
  }

  /** While a drop of a function is open, its head is a tombstone, and the function is written: such a state is reached
      by one transaction. */
  lemma {:induction false} OpenDropShowsFunction(n: Name, b: Body) returns (s: State)
    ensures Inv(s) && Live(s.cs.entries, FreshReader(s), n).Some? && Live(s.cs.entries, FreshReader(s), n).value.isFunction
    ensures Persistent(s.cs.entries, n).Some? && FreshItem(s, n).None?
  {
    var id, v := START_TRANSACTION_ID + 1, Version(0, 0, false, 7, true, b);
    var cs := CatSet(map[n := [v]], 8, 1);
    forall m ensures LoadedAt(cs, m) { }
    OpenedHolds(cs);
    var s1, drop := Apply(Opened(cs), Begin(Write)), DropStep(id, n, 7);
    StepRefines(Opened(cs), Begin(Write));
    assert Live(cs.entries, s1.active[id], n) == Some(v);
    StepRefines(s1, drop);
    s := Apply(s1, drop);
    var c := [Dummy(1, id, 7), v];
    assert s.cs.entries[n] == c && c[1..] == [v];
    assert Visible(c, FreshReader(s)) == Visible(c[1..], FreshReader(s)) == Some(v);
    assert Committed(c) == Committed(c[1..]) == Some(v);
  }

  /** A create that is committed: the checkpoint writes the entry, unless it was created as a function. */
  lemma {:induction false} CreatedIsPersistent(s: State, a: Step)
    requires Inv(s) && a.CreateStep? && Enabled(s, a) && WriteEffect(s.cs, s.active[a.id], a).outcome == Done
    requires s.lastTS + 1 < START_TRANSACTION_ID
    ensures var s' := Apply(Apply(s, a), CommitStep(a.id));
            Persistent(s'.cs.entries, a.n) == if a.isFunction then None else Some(Item(a.n, s.cs.nextOID, a.body))
  {
    var s1 := Apply(s, a);
    CreateKeeps(s, a);
    AfterCommit(s1, a.id);
    var c := s1.cs.entries[a.n];
    assert c[0] == Version(s.cs.nextUid + 1, a.id, false, s.cs.nextOID, a.isFunction, a.body);
    assert RestampChain(c, a.id, s1.lastTS + 1)[0] == c[0].(ts := s1.lastTS + 1);
  }

  /** A loaded item is what every transaction finds under its name. */
  lemma {:induction false} LoadedItemFound(image: Image, t: Txn, i: nat)
    requires DistinctNames(image.items) && i < |image.items|
    ensures var x := image.items[i];
            var v := Live(Load(image).entries, t, x.name);
            v.Some? && v.value.oid == x.oid && v.value.body == x.body
  {
    LoadHoldsItems(image.nextOID, image.items);
    assert HoldsItem(Load(image).entries, image.items[i]);
  }

  lemma {:induction false} OnlyLoadedItemsFound(image: Image, t: Txn, n: Name) returns (i: nat)
    requires DistinctNames(image.items) && Live(Load(image).entries, t, n).Some?
    ensures i < |image.items| && image.items[i].name == n
  {
    LoadHoldsItems(image.nextOID, image.items);
    i :| 0 <= i < |image.items| && image.items[i].name == n;
  }

  /** Checkpoint, then reload: every later transaction first finds exactly what a transaction starting at the checkpoint
      would have found, functions aside, and the next OID is the same. */
  lemma {:induction false} CheckpointRoundTrip(s: State, image: Image, t: Txn, n: Name)
    requires Shape(s) && HeadTells(s, n) && ImageOf(image, s.cs)
    ensures Load(image).nextOID == s.cs.nextOID
    ensures var after := Live(Load(image).entries, t, n);
            FreshItem(s, n) == if after.Some? then Some(Item(n, after.value.oid, after.value.body)) else None
  {
    PersistentIsFreshView(s, n);
    LoadIsLoaded(image.nextOID, image.items);
    var before := FreshItem(s, n);
    if before.Some? {
      var x := before.value;
      assert Item(n, x.oid, x.body) in image.items;
      var i :| 0 <= i < |image.items| && image.items[i] == x;
      LoadedItemFound(image, t, i);
    }
    if Live(Load(image).entries, t, n).Some? {
      var i := OnlyLoadedItemsFound(image, t, n);
      var x := image.items[i];
      assert Item(n, x.oid, x.body) in image.items;
    }
  }
}
