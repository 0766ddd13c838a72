/**
 What the hash of a nested value tells: the values of a type that every hashing takes for the same are
 those that are the same once a null list is read as an empty one, a null struct as a struct of nulls,
 and a node or relationship as its identifier.
 */
module HashCollisions {

  import opened Basics
  import opened NestedValues
  import opened NestedHash

  /** Whether the hash of a struct with `n` fields reads field `i`. */
  predicate Read(kind: Kind, n: nat, i: nat) {
    KeyField(kind).Some? && KeyField(kind).value < n ==> i == KeyField(kind).value
  }

  /** What is left of a value of the type. */
  function Erased(t: Ty, a: Value): Value
    decreases t
  {
    match t
    case ScalarTy(_) => if a.Prim? then a else Null
    case ListTy(child) =>
      if a.ListV? then ListV(seq(|a.items|, i requires 0 <= i < |a.items| => Erased(child, a.items[i]))) else ListV([])
    case StructTy(kind, _, fields) =>
      StructV([], seq(|fields|, i requires 0 <= i < |fields| =>
        if Read(kind, |fields|, i) then Erased(fields[i], Item(a, i)) else Null))
  }

  // ---------- The hash sees no more ----------

  lemma {:induction false} HashOfErased<H>(h: Hashing<H>, t: Ty, a: Value)
    ensures HashOf(h, t, Erased(t, a)) == HashOf(h, t, a)
    decreases t, 1, 0
  {
    match t
    case ScalarTy(_) =>
    case ListTy(_) => if a.ListV? { ItemsErased(h, t, a, |a.items|); }
    case StructTy(kind, _, fields) =>
      if KeyField(kind).Some? && KeyField(kind).value < |fields| {
        HashOfErased(h, fields[KeyField(kind).value], Item(a, KeyField(kind).value));
      } else if fields != [] {
        FieldsErased(h, t, a, |fields|);
      }
  }

  lemma {:induction false} ItemsErased<H>(h: Hashing<H>, t: Ty, a: Value, n: nat)
    requires t.ListTy? && a.ListV? && n <= |a.items|
    ensures HashOfItems(h, t, Erased(t, a), n) == HashOfItems(h, t, a, n)
    decreases t, 0, n
  {
    if n > 0 { ItemsErased(h, t, a, n - 1); HashOfErased(h, t.child, a.items[n - 1]); }
  }

  lemma {:induction false} FieldsErased<H>(h: Hashing<H>, t: Ty, a: Value, n: nat)
    requires t.StructTy? && 0 < n <= |t.fields| && forall i: nat :: Read(t.kind, |t.fields|, i)
    ensures HashOfFields(h, t, Erased(t, a), n) == HashOfFields(h, t, a, n)
    decreases t, 0, n
  {
    assert Read(t.kind, |t.fields|, n - 1);
    HashOfErased(h, t.fields[n - 1], Item(a, n - 1));
    if n > 1 { FieldsErased(h, t, a, n - 1); }
  }

  // ---------- And no less ----------

  lemma {:induction false} FreeTells(t: Ty, a: Value, b: Value)
    requires HashOf(FREE, t, a) == HashOf(FREE, t, b)
    ensures Erased(t, a) == Erased(t, b)
    decreases t, 1, 0
  {
    match t
    case ScalarTy(_) =>
    case ListTy(_) => FreeTellsList(t, a, b);
    case StructTy(kind, _, fields) =>
      if KeyField(kind).Some? && KeyField(kind).value < |fields| {
        FreeTells(fields[KeyField(kind).value], Item(a, KeyField(kind).value), Item(b, KeyField(kind).value));
      } else if fields != [] {
        FreeTellsFields(t, a, b, |fields|);
      }
      assert Erased(t, a).items == Erased(t, b).items;
  }

  lemma {:induction false} FreeTellsList(t: Ty, a: Value, b: Value)
    requires t.ListTy? && HashOf(FREE, t, a) == HashOf(FREE, t, b)
    ensures Erased(t, a) == Erased(t, b)
    decreases t, 0, 1, 0
  {
    if a.ListV? && b.ListV? {
      FreeTellsItems(t, a, b, |a.items|, |b.items|);
    }
    assert Erased(t, a).items == Erased(t, b).items;
  }

  lemma {:induction false} FreeTellsItems(t: Ty, a: Value, b: Value, n: nat, m: nat)
    requires t.ListTy? && a.ListV? && b.ListV? && n <= |a.items| && m <= |b.items|
    requires HashOfItems(FREE, t, a, n) == HashOfItems(FREE, t, b, m)
    ensures n == m && forall i :: 0 <= i < n ==> Erased(t.child, a.items[i]) == Erased(t.child, b.items[i])
    decreases t, 0, 0, n
  {
    if n > 0 && m > 0 {
      FreeTellsItems(t, a, b, n - 1, m - 1);
      FreeTells(t.child, a.items[n - 1], b.items[n - 1]);
    }
  }

  lemma {:induction false} FreeTellsFields(t: Ty, a: Value, b: Value, n: nat)
    requires t.StructTy? && 0 < n <= |t.fields| && HashOfFields(FREE, t, a, n) == HashOfFields(FREE, t, b, n)
    ensures forall i :: 0 <= i < n ==> Erased(t.fields[i], Item(a, i)) == Erased(t.fields[i], Item(b, i))
    decreases t, 0, 0, n
  {
    FreeTells(t.fields[n - 1], Item(a, n - 1), Item(b, n - 1));
    if n > 1 { FreeTellsFields(t, a, b, n - 1); }
  }

  // ---------- Together ----------

  ghost predicate HashAlike(h: Hashing<Term>, t: Ty, a: Value, b: Value) {
    HashOf(h, t, a) == HashOf(h, t, b)
  }

  /** Two values hash alike under every hashing exactly when they are the same once erased. */
  lemma {:induction false} CollideExactly(t: Ty, a: Value, b: Value)
    ensures (forall h :: HashAlike(h, t, a, b)) <==> Erased(t, a) == Erased(t, b)
  {
    if Erased(t, a) == Erased(t, b) {
      forall h ensures HashAlike(h, t, a, b) { HashOfErased(h, t, a); HashOfErased(h, t, b); }
    }
    if forall h :: HashAlike(h, t, a, b) {
      assert HashAlike(FREE, t, a, b);
      FreeTells(t, a, b);
    }
  }

  ghost predicate PositionsAlike(h: Hashing<Term>, l: Vec, lp: nat, r: Vec, rp: nat)
    requires WellFormed(l) && lp < |l.nulls| && WellFormed(r) && rp < |r.nulls|
  {
    HashAt(h, l, lp) == HashAt(h, r, rp)
  }

  /** The same of clean positions of vectors of one type. */
  lemma {:induction false} PositionsCollideExactly(l: Vec, lp: nat, r: Vec, rp: nat)
    requires WellFormed(l) && lp < |l.nulls| && WellFormed(r) && rp < |r.nulls| && SameType(TypeOf(l), TypeOf(r))
    requires Clean(l, lp) && Clean(r, rp)
    ensures (forall h :: PositionsAlike(h, l, lp, r, rp)) <==> Erased(TypeOf(l), At(l, lp)) == Erased(TypeOf(l), At(r, rp))
  {
    var t, a, b := TypeOf(l), At(l, lp), At(r, rp);
    forall h ensures PositionsAlike(h, l, lp, r, rp) <==> HashAlike(h, t, a, b) {
      CleanHashesByValue(h, l, lp);
      CleanHashesByValue(h, r, rp);
      HashIgnoresNames(h, t, TypeOf(r), b);
    }
    CollideExactly(t, a, b);
  }
}
