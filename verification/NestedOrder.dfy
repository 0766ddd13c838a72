/**
 `Equals` and `GreaterThan` on nested values: equality is equality of values, and greater-than is a
 strict total order on the values of a type, NULL greatest. Type equality ignores field names while
 equality of structs does not, so the order is total between two types exactly when the names agree.
 */
module NestedOrder {

  import opened NestedValues

  type Order = (Scalar, Scalar) -> bool

  ghost predicate StrictTotal(gt: Order) {
    && (forall x, y :: gt(x, y) ==> !gt(y, x))
    && (forall x, y :: x != y ==> gt(x, y) || gt(y, x))
    && (forall x, y, z :: gt(x, y) && gt(y, z) ==> gt(x, z))
  }

  predicate Greater(gt: Order, a: Value, b: Value)
    decreases a, 1, 0
  {
    if a.Null? || b.Null? then !b.Null?
    else if a.Prim? && b.Prim? then gt(a.x, b.x)
    else IsNested(a) && IsNested(b) && GreaterFrom(gt, a, b, 0)
  }

  /** The first differing items decide; among lists, failing that, the lengths. */
  predicate GreaterFrom(gt: Order, a: Value, b: Value, i: nat)
    requires IsNested(a) && IsNested(b) && i <= |a.items|
    decreases a, 0, |a.items| - i
  {
    if i < |a.items| && i < |b.items| then
      Greater(gt, a.items[i], b.items[i]) || (a.items[i] == b.items[i] && GreaterFrom(gt, a, b, i + 1))
    else
      a.ListV? && |a.items| > |b.items|
  }

  // ---------- The order is lexicographic ----------

  /** The values agree below item `k`, and there the first is greater or, of two lists, goes on alone. */
  ghost predicate DecidedAt(gt: Order, a: Value, b: Value, k: nat)
    requires IsNested(a) && IsNested(b)
  {
    && k <= |a.items| && k <= |b.items| && (forall j :: 0 <= j < k ==> a.items[j] == b.items[j])
    && (|| (k < |a.items| && k < |b.items| && Greater(gt, a.items[k], b.items[k]))
        || (a.ListV? && k == |b.items| < |a.items|))
  }

  lemma {:induction false} DecidedFrom(gt: Order, a: Value, b: Value, i: nat)
    requires IsNested(a) && IsNested(b) && i <= |a.items| && i <= |b.items| && forall j :: 0 <= j < i ==> a.items[j] == b.items[j]
    requires StrictOn(gt, a, b)
    ensures GreaterFrom(gt, a, b, i) <==> exists k :: i <= k && DecidedAt(gt, a, b, k)
    decreases |a.items| - i
  {
    if i < |a.items| && i < |b.items| {
      if a.items[i] == b.items[i] {
        DecidedFrom(gt, a, b, i + 1);
        if k :| i <= k && DecidedAt(gt, a, b, k) { assert k != i by { assert !Greater(gt, a.items[i], b.items[i]); } }
      } else {
        if GreaterFrom(gt, a, b, i) { assert DecidedAt(gt, a, b, i); }
        if k :| i <= k && DecidedAt(gt, a, b, k) { assert k == i; }
      }
    } else {
      if GreaterFrom(gt, a, b, i) { assert DecidedAt(gt, a, b, i); }
    }
  }

  /** No item is greater than itself. */
  ghost predicate StrictOn(gt: Order, a: Value, b: Value)
    requires IsNested(a) && IsNested(b)
  {
    forall j :: 0 <= j < |a.items| && j < |b.items| && a.items[j] == b.items[j] ==> !Greater(gt, a.items[j], b.items[j])
  }

  lemma {:induction false} NeverAboveItself(gt: Order, a: Value)
    requires StrictTotal(gt)
    ensures !Greater(gt, a, a)
    decreases a, 1, 0
  {
    if IsNested(a) { NeverAboveItselfFrom(gt, a, 0); }
  }

  lemma {:induction false} NeverAboveItselfFrom(gt: Order, a: Value, i: nat)
    requires StrictTotal(gt) && IsNested(a) && i <= |a.items|
    ensures !GreaterFrom(gt, a, a, i)
    decreases a, 0, |a.items| - i
  {
    if i < |a.items| {
      NeverAboveItself(gt, a.items[i]);
      NeverAboveItselfFrom(gt, a, i + 1);
    }
  }

  /** A leaf is greater as its order says. A nested value is greater if and only if there is a first item in which the two
      differ, and it is greater there, or it is a list that goes on where the other list ends. */
  lemma {:induction false} Lexicographic(gt: Order, a: Value, b: Value)
    requires StrictTotal(gt)
    ensures a.Prim? && b.Prim? ==> (Greater(gt, a, b) <==> gt(a.x, b.x))
    ensures IsNested(a) && IsNested(b) ==> (Greater(gt, a, b) <==> exists k :: DecidedAt(gt, a, b, k))
  {
    if IsNested(a) && IsNested(b) {
      forall j | 0 <= j < |a.items| && j < |b.items| && a.items[j] == b.items[j] ensures !Greater(gt, a.items[j], b.items[j]) {
        NeverAboveItself(gt, a.items[j]);
      }
      DecidedFrom(gt, a, b, 0);
    }
  }

  // ---------- Exactly one of three ----------

  ghost predicate ExactlyOne(p: bool, q: bool, r: bool) {
    (p || q || r) && !(p && q) && !(p && r) && !(q && r)
  }

  ghost predicate SameFrom(a: Value, b: Value, i: nat)
    requires IsNested(a) && IsNested(b) && i <= |a.items|
  {
    |a.items| == |b.items| && forall j :: i <= j < |a.items| ==> a.items[j] == b.items[j]
  }

  /** Exactly one of a > b, a = b, b > a. */
  lemma {:induction false} Trichotomy(gt: Order, t: Ty, a: Value, b: Value)
    requires StrictTotal(gt) && HasType(a, t) && HasType(b, t)
    ensures ExactlyOne(Greater(gt, a, b), a == b, Greater(gt, b, a))
    decreases t, 1, 0
  {
    if IsNested(a) && IsNested(b) {
      TrichotomyFrom(gt, t, a, b, 0);
      assert SameFrom(a, b, 0) <==> a.items == b.items;
    }
  }

  ghost function ItemType(t: Ty, i: nat): Ty
    requires t.ListTy? || (t.StructTy? && i < |t.fields|)
  {
    if t.ListTy? then t.child else t.fields[i]
  }

  lemma {:induction false} TrichotomyFrom(gt: Order, t: Ty, a: Value, b: Value, i: nat)
    requires StrictTotal(gt) && IsNested(a) && IsNested(b) && HasType(a, t) && HasType(b, t)
    requires i <= |a.items| && i <= |b.items|
    ensures ExactlyOne(GreaterFrom(gt, a, b, i), SameFrom(a, b, i), GreaterFrom(gt, b, a, i))
    decreases t, 0, |a.items| - i
  {
    if i < |a.items| && i < |b.items| {
      Trichotomy(gt, ItemType(t, i), a.items[i], b.items[i]);
      if a.items[i] == b.items[i] {
        TrichotomyFrom(gt, t, a, b, i + 1);
        assert SameFrom(a, b, i) <==> SameFrom(a, b, i + 1);
      }
    }
  }

  // ---------- Transitivity ----------

  lemma {:induction false} Transitive(gt: Order, t: Ty, a: Value, b: Value, c: Value)
    requires StrictTotal(gt) && HasType(a, t) && HasType(b, t) && HasType(c, t)
    requires Greater(gt, a, b) && Greater(gt, b, c)
    ensures Greater(gt, a, c)
    decreases t, 1, 0
  {
    if IsNested(a) && IsNested(b) && IsNested(c) { TransitiveFrom(gt, t, a, b, c, 0); }
  }

  lemma {:induction false} TransitiveFrom(gt: Order, t: Ty, a: Value, b: Value, c: Value, i: nat)
    requires StrictTotal(gt) && IsNested(a) && IsNested(b) && IsNested(c)
    requires HasType(a, t) && HasType(b, t) && HasType(c, t)
    requires i <= |a.items| && i <= |b.items| && GreaterFrom(gt, a, b, i) && GreaterFrom(gt, b, c, i)
    ensures GreaterFrom(gt, a, c, i)
    decreases t, 0, |a.items| - i
  {
    if i < |a.items| && i < |b.items| && i < |c.items| {
      if Greater(gt, a.items[i], b.items[i]) && Greater(gt, b.items[i], c.items[i]) {
        Transitive(gt, ItemType(t, i), a.items[i], b.items[i], c.items[i]);
      } else if a.items[i] == b.items[i] && b.items[i] == c.items[i] {
        TransitiveOrBoth(gt, t, a, b, c, i);
      }
    }
  }

  lemma {:induction false} TransitiveOrBoth(gt: Order, t: Ty, a: Value, b: Value, c: Value, i: nat)
    requires StrictTotal(gt) && IsNested(a) && IsNested(b) && IsNested(c)
    requires HasType(a, t) && HasType(b, t) && HasType(c, t)
    requires i < |a.items| && i < |b.items| && i < |c.items| && a.items[i] == b.items[i] == c.items[i]
    requires GreaterFrom(gt, a, b, i) && GreaterFrom(gt, b, c, i)
    ensures GreaterFrom(gt, a, c, i)
    decreases t, 0, |a.items| - i, 0
  {
    Trichotomy(gt, ItemType(t, i), a.items[i], b.items[i]);
    TransitiveFrom(gt, t, a, b, c, i + 1);
  }

  lemma {:induction false} NullIsGreatest(gt: Order, v: Value)
    ensures !v.Null? ==> Greater(gt, Null, v)
    ensures !Greater(gt, v, Null)
  {
  }

  // ---------- Field names ----------

  ghost function Sample(t: Ty): Value
    decreases t
  {
    match t
    case ScalarTy(_) => Prim(Scalar(0))
    case ListTy(child) => ListV([Sample(child)])
    case StructTy(_, names, fields) => StructV(names, seq(|fields|, i requires 0 <= i < |fields| => Sample(fields[i])))
  }

  lemma {:induction false} SampleHasType(t: Ty)
    ensures HasType(Sample(t), t)
    decreases t
  {
    match t
    case ScalarTy(_) =>
    case ListTy(child) => SampleHasType(child);
    case StructTy(_, _, fields) =>
      var items := Sample(t).items;
      forall i | 0 <= i < |items| ensures HasType(items[i], fields[i]) { SampleHasType(fields[i]); }
  }

  lemma {:induction false} SampleNotGreater(gt: Order, t: Ty, u: Ty)
    requires StrictTotal(gt) && SameType(t, u)
    ensures !Greater(gt, Sample(t), Sample(u))
    decreases t, |TypeFields(t)| + 1
  {
    match t
    case ScalarTy(_) => assert !gt(Scalar(0), Scalar(0));
    case ListTy(child) =>
      SampleNotGreater(gt, child, u.child);
      assert !GreaterFrom(gt, Sample(t), Sample(u), 1);
    case StructTy(_, _, _) => SampleNotGreaterFrom(gt, t, u, 0);
  }

  ghost function TypeFields(t: Ty): seq<Ty> {
    if t.StructTy? then t.fields else []
  }

  lemma {:induction false} SampleNotGreaterFrom(gt: Order, t: Ty, u: Ty, i: nat)
    requires StrictTotal(gt) && t.StructTy? && SameType(t, u) && i <= |t.fields|
    ensures !GreaterFrom(gt, Sample(t), Sample(u), i)
    decreases t, |t.fields| - i
  {
    if i < |t.fields| {
      SampleNotGreater(gt, t.fields[i], u.fields[i]);
      SampleNotGreaterFrom(gt, t, u, i + 1);
    }
  }

  lemma {:induction false} SampleTellsTypes(t: Ty, u: Ty)
    requires SameType(t, u) && Sample(t) == Sample(u)
    ensures t == u
    decreases t
  {
    match t
    case ScalarTy(_) =>
    case ListTy(child) =>
      assert Sample(t).items[0] == Sample(u).items[0];
      SampleTellsTypes(child, u.child);
    case StructTy(_, _, fields) =>
      forall i | 0 <= i < |fields| ensures fields[i] == u.fields[i] {
        assert Sample(t).items[i] == Sample(u).items[i];
        SampleTellsTypes(fields[i], u.fields[i]);
      }
      assert fields == u.fields;
  }

  ghost predicate TotalBetween(gt: Order, t: Ty, u: Ty) {
    forall a, b :: HasType(a, t) && HasType(b, u) ==> ExactlyOne(Greater(gt, a, b), a == b, Greater(gt, b, a))
  }

  lemma {:induction false} SameTypeBack(t: Ty, u: Ty)
    requires SameType(t, u)
    ensures SameType(u, t)
    decreases t
  {
    match t
    case ScalarTy(_) =>
    case ListTy(child) => SameTypeBack(child, u.child);
    case StructTy(_, _, fields) =>
      forall i | 0 <= i < |fields| ensures SameType(u.fields[i], fields[i]) { SameTypeBack(fields[i], u.fields[i]); }
  }

  /** Between types that the comparison takes for equal, the order is total exactly when the field names agree. */
  lemma {:induction false} TotalExactlyWhenNamesAgree(gt: Order, t: Ty, u: Ty)
    requires StrictTotal(gt) && SameType(t, u)
    ensures TotalBetween(gt, t, u) <==> t == u
  {
    if t == u {
      forall a, b | HasType(a, t) && HasType(b, u) ensures ExactlyOne(Greater(gt, a, b), a == b, Greater(gt, b, a)) {
        Trichotomy(gt, t, a, b);
      }
    }
    if TotalBetween(gt, t, u) {
      SampleHasType(t);
      SampleHasType(u);
      SameTypeBack(t, u);
      SampleNotGreater(gt, t, u);
      SampleNotGreater(gt, u, t);
      SampleTellsTypes(t, u);
    }
  }
}
