/**
 Hashing of nested values, over any leaf hash, any combination and any hash of null: the vectorised
 pass computes the scalar hash of every selected position, and equal values hash equally exactly where
 nothing is left in the hashed fields of null structs, whose own null bit the hash does not read.
 */
module NestedHash {

  import opened Basics
  import opened NestedValues

  datatype Hashing<!H> = Hashing(leaf: (nat, Scalar) -> H, combine: (H, H) -> H, none: H)

  /** The fields of a struct that its hash reads: the identifier of a node or relationship, else all. */
  predicate Hashed(kind: Kind, i: nat) {
    KeyField(kind) == None || KeyField(kind) == Some(i)
  }

  // ---------- One position ----------

  ghost function HashAt<H>(h: Hashing<H>, v: Vec, p: nat): H
    requires WellFormed(v) && p < |v.nulls|
    decreases v, 1, 0
  {
    match v
    case Leaf(nulls, id, values) => if nulls[p] then h.none else h.leaf(id, values[p])
    case List(nulls, ranges, _) => if nulls[p] then h.none else HashItems(h, v, p, ranges[p].size)
    case Struct(_, kind, _, fields) =>
      if KeyField(kind).Some? then HashAt(h, fields[KeyField(kind).value], p) else HashFields(h, v, p, |fields|)
  }

  ghost function HashItems<H>(h: Hashing<H>, v: Vec, p: nat, n: nat): H
    requires WellFormed(v) && p < |v.nulls| && v.List? && !v.nulls[p] && n <= v.ranges[p].size
    decreases v, 0, n
  {
    assert RangeFits(v.ranges[p], v.data);
    if n == 0 then h.none
    else h.combine(HashItems(h, v, p, n - 1), HashAt(h, v.data, v.ranges[p].offset + n - 1))
  }

  ghost function HashFields<H>(h: Hashing<H>, v: Vec, p: nat, n: nat): H
    requires WellFormed(v) && p < |v.nulls| && v.Struct? && 0 < n <= |v.fields|
    decreases v, 0, n
  {
    var last := HashAt(h, v.fields[n - 1], p);
    if n == 1 then last else h.combine(last, HashFields(h, v, p, n - 1))
  }

  // ---------- One value ----------

  function Item(a: Value, i: nat): Value {
    if a.StructV? && i < |a.items| then a.items[i] else Null
  }

  function HashOf<H>(h: Hashing<H>, t: Ty, a: Value): H
    decreases t, 1, 0
  {
    match t
    case ScalarTy(id) => if a.Prim? then h.leaf(id, a.x) else h.none
    case ListTy(_) => if a.ListV? then HashOfItems(h, t, a, |a.items|) else h.none
    case StructTy(kind, _, fields) =>
      if KeyField(kind).Some? && KeyField(kind).value < |fields| then
        HashOf(h, fields[KeyField(kind).value], Item(a, KeyField(kind).value))
      else if fields == [] then h.none
      else HashOfFields(h, t, a, |fields|)
  }

  function HashOfItems<H>(h: Hashing<H>, t: Ty, a: Value, n: nat): H
    requires t.ListTy? && a.ListV? && n <= |a.items|
    decreases t, 0, n
  {
    if n == 0 then h.none else h.combine(HashOfItems(h, t, a, n - 1), HashOf(h, t.child, a.items[n - 1]))
  }

  function HashOfFields<H>(h: Hashing<H>, t: Ty, a: Value, n: nat): H
    requires t.StructTy? && 0 < n <= |t.fields|
    decreases t, 0, n
  {
    var last := HashOf(h, t.fields[n - 1], Item(a, n - 1));
    if n == 1 then last else h.combine(last, HashOfFields(h, t, a, n - 1))
  }

  /** Field names do not enter the hash. */
  lemma {:induction false} HashIgnoresNames<H>(h: Hashing<H>, t: Ty, u: Ty, a: Value)
    requires SameType(t, u)
    ensures HashOf(h, t, a) == HashOf(h, u, a)
    decreases t, 1, 0
  {
    match t
    case ScalarTy(_) =>
    case ListTy(_) => if a.ListV? { ItemsIgnoreNames(h, t, u, a, |a.items|); }
    case StructTy(kind, _, fields) =>
      if KeyField(kind).Some? && KeyField(kind).value < |fields| {
        var k := KeyField(kind).value;
        HashIgnoresNames(h, fields[k], u.fields[k], Item(a, k));
      } else if fields != [] {
        FieldsIgnoreNames(h, t, u, a, |fields|);
      }
  }

  lemma {:induction false} ItemsIgnoreNames<H>(h: Hashing<H>, t: Ty, u: Ty, a: Value, n: nat)
    requires t.ListTy? && SameType(t, u) && a.ListV? && n <= |a.items|
    ensures HashOfItems(h, t, a, n) == HashOfItems(h, u, a, n)
    decreases t, 0, n
  {
    if n > 0 { ItemsIgnoreNames(h, t, u, a, n - 1); HashIgnoresNames(h, t.child, u.child, a.items[n - 1]); }
  }

  lemma {:induction false} FieldsIgnoreNames<H>(h: Hashing<H>, t: Ty, u: Ty, a: Value, n: nat)
    requires t.StructTy? && SameType(t, u) && 0 < n <= |t.fields|
    ensures HashOfFields(h, t, a, n) == HashOfFields(h, u, a, n)
    decreases t, 0, n
  {
    HashIgnoresNames(h, t.fields[n - 1], u.fields[n - 1], Item(a, n - 1));
    if n > 1 { FieldsIgnoreNames(h, t, u, a, n - 1); }
  }

  // ---------- When the hash is that of the value ----------

  /** Nothing that a hash could see: null leaves, and lists that are null or empty. */
  ghost predicate Blank(v: Vec, p: nat)
    requires WellFormed(v) && p < |v.nulls|
    decreases v
  {
    match v
    case Leaf(nulls, _, _) => nulls[p]
    case List(nulls, ranges, _) => nulls[p] || ranges[p].size == 0
    case Struct(_, kind, _, fields) => forall i :: 0 <= i < |fields| && Hashed(kind, i) ==> Blank(fields[i], p)
  }

  /** The hashed fields of null structs are blank. */
  ghost predicate Clean(v: Vec, p: nat)
    requires WellFormed(v) && p < |v.nulls|
    decreases v
  {
    match v
    case Leaf(_, _, _) => true
    case List(nulls, ranges, data) =>
      nulls[p] || (assert RangeFits(ranges[p], data); forall q :: ranges[p].offset <= q < ranges[p].offset + ranges[p].size ==> Clean(data, q))
    case Struct(nulls, kind, _, fields) =>
      if nulls[p] then Blank(v, p) else forall i :: 0 <= i < |fields| && Hashed(kind, i) ==> Clean(fields[i], p)
  }

  lemma {:induction false} BlankHashesAsNull<H>(h: Hashing<H>, v: Vec, p: nat)
    requires WellFormed(v) && p < |v.nulls| && Blank(v, p)
    ensures HashAt(h, v, p) == HashOf(h, TypeOf(v), Null)
    decreases v, 1, 0
  {
    match v
    case Leaf(_, _, _) =>
    case List(_, _, _) =>
    case Struct(_, kind, _, fields) =>
      if KeyField(kind).Some? {
        BlankHashesAsNull(h, fields[KeyField(kind).value], p);
      } else {
        BlankFields(h, v, p, |fields|);
      }
  }

  lemma {:induction false} BlankFields<H>(h: Hashing<H>, v: Vec, p: nat, n: nat)
    requires WellFormed(v) && p < |v.nulls| && Blank(v, p) && v.Struct? && KeyField(v.kind).None? && 0 < n <= |v.fields|
    ensures HashFields(h, v, p, n) == HashOfFields(h, TypeOf(v), Null, n)
    decreases v, 0, n
  {
    assert Hashed(v.kind, n - 1);
    BlankHashesAsNull(h, v.fields[n - 1], p);
    if n > 1 { BlankFields(h, v, p, n - 1); }
  }

  /** The hash of a clean position is the hash of its value. */
  lemma {:induction false} CleanHashesByValue<H>(h: Hashing<H>, v: Vec, p: nat)
    requires WellFormed(v) && p < |v.nulls| && Clean(v, p)
    ensures HashAt(h, v, p) == HashOf(h, TypeOf(v), At(v, p))
    decreases v, 1, 0
  {
    match v
    case Leaf(_, _, _) =>
    case List(nulls, ranges, data) => if !nulls[p] { CleanItems(h, v, p, ranges[p].size); }
    case Struct(nulls, kind, _, fields) =>
      if nulls[p] {
        BlankHashesAsNull(h, v, p);
      } else if KeyField(kind).Some? {
        CleanHashesByValue(h, fields[KeyField(kind).value], p);
      } else {
        CleanFields(h, v, p, |fields|);
      }
  }

  lemma {:induction false} CleanItems<H>(h: Hashing<H>, v: Vec, p: nat, n: nat)
    requires WellFormed(v) && p < |v.nulls| && Clean(v, p) && v.List? && !v.nulls[p] && n <= v.ranges[p].size
    ensures |At(v, p).items| == v.ranges[p].size
    ensures HashItems(h, v, p, n) == HashOfItems(h, TypeOf(v), At(v, p), n)
    decreases v, 0, n
  {
    assert RangeFits(v.ranges[p], v.data);
    if n > 0 {
      CleanItems(h, v, p, n - 1);
      CleanHashesByValue(h, v.data, v.ranges[p].offset + n - 1);
      assert At(v, p).items[n - 1] == At(v.data, v.ranges[p].offset + n - 1);
    }
  }

  lemma {:induction false} CleanFields<H>(h: Hashing<H>, v: Vec, p: nat, n: nat)
    requires WellFormed(v) && p < |v.nulls| && Clean(v, p) && v.Struct? && !v.nulls[p] && KeyField(v.kind).None? && 0 < n <= |v.fields|
    ensures HashFields(h, v, p, n) == HashOfFields(h, TypeOf(v), At(v, p), n)
    decreases v, 0, n
  {
    assert Hashed(v.kind, n - 1);
    CleanHashesByValue(h, v.fields[n - 1], p);
    assert At(v, p).items[n - 1] == At(v.fields[n - 1], p);
    if n > 1 { CleanFields(h, v, p, n - 1); }
  }

  /** Equal values hash equally, wherever they stand. */
  lemma {:induction false} EqualHashEqually<H>(h: Hashing<H>, l: Vec, lp: nat, r: Vec, rp: nat)
    requires WellFormed(l) && lp < |l.nulls| && WellFormed(r) && rp < |r.nulls| && SameType(TypeOf(l), TypeOf(r))
    requires Clean(l, lp) && Clean(r, rp) && At(l, lp) == At(r, rp)
    ensures HashAt(h, l, lp) == HashAt(h, r, rp)
  {
    CleanHashesByValue(h, l, lp);
    CleanHashesByValue(h, r, rp);
    HashIgnoresNames(h, TypeOf(l), TypeOf(r), At(l, lp));
  }

  // ---------- And only then ----------

  /** The hashing that forgets nothing. */
  datatype Term = NoHash | LeafTerm(id: nat, x: Scalar) | Pair(left: Term, right: Term)

  const FREE: Hashing<Term> := Hashing((id, x) => LeafTerm(id, x), (a, b) => Pair(a, b), NoHash)

  lemma {:induction false} OnlyBlankHashesAsNull(v: Vec, p: nat)
    requires WellFormed(v) && p < |v.nulls| && HashAt(FREE, v, p) == HashOf(FREE, TypeOf(v), Null)
    ensures Blank(v, p)
    decreases v, 1, 0
  {
    match v
    case Leaf(_, _, _) =>
    case List(_, _, _) =>
    case Struct(_, kind, _, fields) =>
      if KeyField(kind).Some? {
        OnlyBlankHashesAsNull(fields[KeyField(kind).value], p);
      } else {
        OnlyBlankFields(v, p, |fields|);
      }
  }

  lemma {:induction false} OnlyBlankFields(v: Vec, p: nat, n: nat)
    requires WellFormed(v) && p < |v.nulls| && v.Struct? && KeyField(v.kind).None? && 0 < n <= |v.fields|
    requires HashFields(FREE, v, p, n) == HashOfFields(FREE, TypeOf(v), Null, n)
    ensures forall i :: 0 <= i < n ==> Blank(v.fields[i], p)
    decreases v, 0, n
  {
    OnlyBlankHashesAsNull(v.fields[n - 1], p);
    if n > 1 { OnlyBlankFields(v, p, n - 1); }
  }

  lemma {:induction false} OnlyCleanHashesByValue(v: Vec, p: nat)
    requires WellFormed(v) && p < |v.nulls| && HashAt(FREE, v, p) == HashOf(FREE, TypeOf(v), At(v, p))
    ensures Clean(v, p)
    decreases v, 1, 0
  {
    match v
    case Leaf(_, _, _) =>
    case List(nulls, ranges, data) =>
      if !nulls[p] {
        assert |At(v, p).items| == ranges[p].size;
        OnlyCleanItems(v, p, ranges[p].size);
      }
    case Struct(nulls, kind, _, fields) =>
      if nulls[p] {
        OnlyBlankHashesAsNull(v, p);
      } else if KeyField(kind).Some? {
        OnlyCleanHashesByValue(fields[KeyField(kind).value], p);
      } else {
        OnlyCleanFields(v, p, |fields|);
      }
  }

  lemma {:induction false} OnlyCleanItems(v: Vec, p: nat, n: nat)
    requires WellFormed(v) && p < |v.nulls| && v.List? && !v.nulls[p] && n <= v.ranges[p].size == |At(v, p).items|
    requires HashItems(FREE, v, p, n) == HashOfItems(FREE, TypeOf(v), At(v, p), n)
    ensures RangeFits(v.ranges[p], v.data)
    ensures forall q :: v.ranges[p].offset <= q < v.ranges[p].offset + n ==> Clean(v.data, q)
    decreases v, 0, n
  {
    assert RangeFits(v.ranges[p], v.data);
    if n > 0 {
      var last := v.ranges[p].offset + n - 1;
      assert At(v, p).items[n - 1] == At(v.data, last);
      OnlyCleanHashesByValue(v.data, last);
      OnlyCleanItems(v, p, n - 1);
    }
  }

  lemma {:induction false} OnlyCleanFields(v: Vec, p: nat, n: nat)
    requires WellFormed(v) && p < |v.nulls| && v.Struct? && !v.nulls[p] && KeyField(v.kind).None? && 0 < n <= |v.fields|
    requires HashFields(FREE, v, p, n) == HashOfFields(FREE, TypeOf(v), At(v, p), n)
    ensures forall i :: 0 <= i < n ==> Clean(v.fields[i], p)
    decreases v, 0, n
  {
    assert At(v, p).items[n - 1] == At(v.fields[n - 1], p);
    OnlyCleanHashesByValue(v.fields[n - 1], p);
    if n > 1 { OnlyCleanFields(v, p, n - 1); }
  }

  ghost predicate ByValue(h: Hashing<Term>, v: Vec, p: nat)
    requires WellFormed(v) && p < |v.nulls|
  {
    HashAt(h, v, p) == HashOf(h, TypeOf(v), At(v, p))
  }

  /** Under every hashing the hash is that of the value, exactly when the position is clean. */
  lemma {:induction false} HashByValueExactlyWhenClean(v: Vec, p: nat)
    requires WellFormed(v) && p < |v.nulls|
    ensures (forall h :: ByValue(h, v, p)) <==> Clean(v, p)
  {
    if Clean(v, p) {
      forall h ensures ByValue(h, v, p) { CleanHashesByValue(h, v, p); }
    }
    if forall h :: ByValue(h, v, p) {
      assert ByValue(FREE, v, p);
      OnlyCleanHashesByValue(v, p);
    }
  }

  /** Two null structs, one with a value left in its field: equal, and hashed differently. */
  lemma {:induction false} NullStructsHashApart<H>(h: Hashing<H>, name: Name, id: nat, x: Scalar)
    requires h.leaf(id, x) != h.none
    ensures var l, r := Struct([true], Plain, [name], [Leaf([false], id, [x])]), Struct([true], Plain, [name], [Leaf([true], id, [x])]);
            && WellFormed(l) && WellFormed(r) && TypeOf(l) == TypeOf(r)
            && At(l, 0) == At(r, 0) && HashAt(h, l, 0) != HashAt(h, r, 0)
  {
    var l, r := Struct([true], Plain, [name], [Leaf([false], id, [x])]), Struct([true], Plain, [name], [Leaf([true], id, [x])]);
    assert l.fields[0] == Leaf([false], id, [x]) && r.fields[0] == Leaf([true], id, [x]);
    assert TypeOf(l).fields == TypeOf(r).fields;
    assert HashFields(h, l, 0, 1) == HashAt(h, l.fields[0], 0) && HashFields(h, r, 0, 1) == HashAt(h, r.fields[0], 0);
  }
}
