/**
 The comparisons as they run, over vectors: the loops of `Equals` and `GreaterThan` on lists and
 structs, with their null tests, compute equality and order of the values at two positions.
 */
module NestedCompare {

  import opened NestedValues
  import opened NestedOrder

  ghost predicate Holds(v: Vec, p: nat) {
    WellFormed(v) && p < |v.nulls|
  }

  /** The two positions are read with the same physical type. */
  predicate SameKind(l: Vec, r: Vec) {
    (l.Leaf? && r.Leaf? && l.id == r.id) || (l.List? && r.List?) || (l.Struct? && r.Struct?)
  }

  lemma {:induction false} SameTypeSameKind(l: Vec, r: Vec)
    requires SameType(TypeOf(l), TypeOf(r))
    ensures SameKind(l, r)
  {
  }

  lemma {:induction false} RangeHolds(v: Vec, p: nat, i: nat)
    requires v.List? && Holds(v, p) && !v.nulls[p] && i < v.ranges[p].size
    ensures Holds(v.data, v.ranges[p].offset + i)
    ensures At(v, p).ListV? && |At(v, p).items| == v.ranges[p].size && At(v, p).items[i] == At(v.data, v.ranges[p].offset + i)
  {
    assert RangeFits(v.ranges[p], v.data);
  }

  lemma {:induction false} FieldHolds(v: Vec, p: nat, i: nat)
    requires v.Struct? && Holds(v, p) && i < |v.fields|
    ensures Holds(v.fields[i], p)
    ensures !v.nulls[p] ==> At(v, p).StructV? && |At(v, p).items| == |v.fields| && At(v, p).items[i] == At(v.fields[i], p)
  {
  }

  lemma {:induction false} FieldTypes(l: Vec, r: Vec, i: nat)
    requires l.Struct? && r.Struct? && SameType(TypeOf(l), TypeOf(r)) && i < |l.fields|
    ensures |l.fields| == |r.fields| && SameType(TypeOf(l.fields[i]), TypeOf(r.fields[i]))
  {
    assert SameType(TypeOf(l).fields[i], TypeOf(r).fields[i]);
  }

  // ---------- Equality ----------

  /** `executeNestedEqual` */
  method NestedEqual(l: Vec, lp: nat, r: Vec, rp: nat) returns (result: bool)
    requires Holds(l, lp) && Holds(r, rp) && SameType(TypeOf(l), TypeOf(r))
    ensures result <==> At(l, lp) == At(r, rp)
    decreases l, 2
  {
    if l.nulls[lp] && r.nulls[rp] {
      result := true;
    } else if l.nulls[lp] != r.nulls[rp] {
      result := false;
    } else {
      SameTypeSameKind(l, r);
      result := EqualsOperation(l, lp, r, rp);
    }
  }

  /** `Equals::operation` on two values that are not null. */
  method EqualsOperation(l: Vec, lp: nat, r: Vec, rp: nat) returns (result: bool)
    requires Holds(l, lp) && Holds(r, rp) && !l.nulls[lp] && !r.nulls[rp] && SameKind(l, r)
    ensures result <==> SameType(TypeOf(l), TypeOf(r)) && At(l, lp) == At(r, rp)
    decreases l, 1
  {
    match l
    case Leaf(_, _, values) => result := values[lp] == r.values[rp];
    case List(_, ranges, _) =>
      assert |At(l, lp).items| == ranges[lp].size && |At(r, rp).items| == r.ranges[rp].size;
      if !SameType(TypeOf(l), TypeOf(r)) || ranges[lp].size != r.ranges[rp].size { return false; }
      result := EqualLists(l, lp, r, rp);
    case Struct(_, _, _, _) =>
      if !SameType(TypeOf(l), TypeOf(r)) { return false; }
      result := EqualStructs(l, lp, r, rp);
  }

  method EqualLists(l: Vec, lp: nat, r: Vec, rp: nat) returns (result: bool)
    requires Holds(l, lp) && Holds(r, rp) && !l.nulls[lp] && !r.nulls[rp] && l.List? && r.List?
    requires SameType(TypeOf(l), TypeOf(r)) && l.ranges[lp].size == r.ranges[rp].size
    ensures result <==> At(l, lp) == At(r, rp)
    decreases l, 0
  {
    ghost var a, b := At(l, lp), At(r, rp);
    for i := 0 to l.ranges[lp].size
      invariant forall j :: 0 <= j < i ==> a.items[j] == b.items[j]
    {
      RangeHolds(l, lp, i);
      RangeHolds(r, rp, i);
      result := NestedEqual(l.data, l.ranges[lp].offset + i, r.data, r.ranges[rp].offset + i);
      if !result { return; }
    }
    assert a.items == b.items;
    result := true;
  }

  method EqualStructs(l: Vec, lp: nat, r: Vec, rp: nat) returns (result: bool)
    requires Holds(l, lp) && Holds(r, rp) && !l.nulls[lp] && !r.nulls[rp] && l.Struct? && r.Struct?
    requires SameType(TypeOf(l), TypeOf(r))
    ensures result <==> At(l, lp) == At(r, rp)
    decreases l, 0
  {
    ghost var a, b := At(l, lp), At(r, rp);
    FieldTypes(l, r, 0);
    for i := 0 to |l.fields|
      invariant forall j :: 0 <= j < i ==> a.items[j] == b.items[j]
    {
      FieldHolds(l, lp, i);
      FieldHolds(r, rp, i);
      FieldTypes(l, r, i);
      result := NestedEqual(l.fields[i], lp, r.fields[i], rp);
      if !result { return; }
    }
    assert a.items == b.items;
    result := true;
    for i := 0 to |l.names|
      invariant result <==> l.names[..i] == r.names[..i]
    {
      if l.names[i] != r.names[i] { result := false; }
      assert l.names[..i + 1] == l.names[..i] + [l.names[i]] && r.names[..i + 1] == r.names[..i] + [r.names[i]];
    }
    assert l.names[..|l.names|] == l.names && r.names[..|l.names|] == r.names;
  }

  // ---------- Order ----------

  /** `executeNestedGreaterThan` */
  method NestedGreater(gt: Order, l: Vec, lp: nat, r: Vec, rp: nat) returns (greater: bool, equal: bool)
    requires Holds(l, lp) && Holds(r, rp) && SameType(TypeOf(l), TypeOf(r))
    ensures greater <==> Greater(gt, At(l, lp), At(r, rp))
    ensures equal <==> !greater && At(l, lp) == At(r, rp)
    decreases l, 2
  {
    if l.nulls[lp] || r.nulls[rp] {
      greater := !r.nulls[rp];
      equal := l.nulls[lp] == r.nulls[rp];
    } else {
      greater := GreaterOperation(gt, l, lp, r, rp);
      if !greater {
        SameTypeSameKind(l, r);
        equal := EqualsOperation(l, lp, r, rp);
      } else {
        equal := false;
      }
    }
  }

  /** `GreaterThan::operation` on two values that are not null. */
  method GreaterOperation(gt: Order, l: Vec, lp: nat, r: Vec, rp: nat) returns (result: bool)
    requires Holds(l, lp) && Holds(r, rp) && !l.nulls[lp] && !r.nulls[rp] && SameType(TypeOf(l), TypeOf(r))
    ensures result <==> Greater(gt, At(l, lp), At(r, rp))
    decreases l, 1
  {
    SameTypeSameKind(l, r);
    match l
    case Leaf(_, _, values) => result := gt(values[lp], r.values[rp]);
    case List(_, _, _) => result := GreaterLists(gt, l, lp, r, rp);
    case Struct(_, _, _, _) => result := GreaterStructs(gt, l, lp, r, rp);
  }

  method GreaterLists(gt: Order, l: Vec, lp: nat, r: Vec, rp: nat) returns (result: bool)
    requires Holds(l, lp) && Holds(r, rp) && !l.nulls[lp] && !r.nulls[rp] && l.List? && r.List?
    requires SameType(TypeOf(l), TypeOf(r))
    ensures result <==> Greater(gt, At(l, lp), At(r, rp))
    decreases l, 0
  {
    ghost var a, b := At(l, lp), At(r, rp);
    var left, right := l.ranges[lp], r.ranges[rp];
    for i := 0 to if left.size < right.size then left.size else right.size
      invariant Greater(gt, a, b) == GreaterFrom(gt, a, b, i)
    {
      RangeHolds(l, lp, i);
      RangeHolds(r, rp, i);
      var equal;
      result, equal := NestedGreater(gt, l.data, left.offset + i, r.data, right.offset + i);
      if result || !equal { return; }
    }
    result := left.size > right.size;
  }

  method GreaterStructs(gt: Order, l: Vec, lp: nat, r: Vec, rp: nat) returns (result: bool)
    requires Holds(l, lp) && Holds(r, rp) && !l.nulls[lp] && !r.nulls[rp] && l.Struct? && r.Struct?
    requires SameType(TypeOf(l), TypeOf(r))
    ensures result <==> Greater(gt, At(l, lp), At(r, rp))
    decreases l, 0
  {
    ghost var a, b := At(l, lp), At(r, rp);
    FieldTypes(l, r, 0);
    for i := 0 to |l.fields|
      invariant Greater(gt, a, b) == GreaterFrom(gt, a, b, i)
    {
      FieldHolds(l, lp, i);
      FieldHolds(r, rp, i);
      FieldTypes(l, r, i);
      var equal;
      result, equal := NestedGreater(gt, l.fields[i], lp, r.fields[i], rp);
      if result || !equal { return; }
    }
    result := false;
  }

  // ---------- The order on the positions of vectors ----------

  /** What `executeNestedGreaterThan` finds between two positions. */
  ghost predicate GreaterAt(gt: Order, l: Vec, lp: nat, r: Vec, rp: nat)
    requires Holds(l, lp) && Holds(r, rp)
  {
    Greater(gt, At(l, lp), At(r, rp))
  }

  /** Between positions of vectors of one type, exactly one of greater, equal, less; and NULL is greatest. */
  lemma {:induction false} PositionsOrdered(gt: Order, l: Vec, lp: nat, r: Vec, rp: nat)
    requires StrictTotal(gt) && Holds(l, lp) && Holds(r, rp) && TypeOf(l) == TypeOf(r)
    ensures ExactlyOne(GreaterAt(gt, l, lp, r, rp), At(l, lp) == At(r, rp), GreaterAt(gt, r, rp, l, lp))
    ensures l.nulls[lp] ==> (GreaterAt(gt, l, lp, r, rp) <==> !r.nulls[rp])
  {
    AtHasType(l, lp);
    AtHasType(r, rp);
    Trichotomy(gt, TypeOf(l), At(l, lp), At(r, rp));
    NullIsGreatest(gt, At(r, rp));
  }

  /** Element `j` of the list at a position. */
  ghost function Element(v: Vec, p: nat, j: nat): Value
    requires v.List? && Holds(v, p) && !v.nulls[p] && j < v.ranges[p].size
  {
    assert RangeFits(v.ranges[p], v.data);
    At(v.data, v.ranges[p].offset + j)
  }

  /** Two list positions: equal elements up to `k`, where the left one is greater, or goes on alone. */
  ghost predicate ListsDecidedAt(gt: Order, l: Vec, lp: nat, r: Vec, rp: nat, k: nat)
    requires Holds(l, lp) && Holds(r, rp) && l.List? && r.List? && !l.nulls[lp] && !r.nulls[rp]
  {
    var left, right := l.ranges[lp], r.ranges[rp];
    assert RangeFits(left, l.data) && RangeFits(right, r.data);
    && k <= left.size && k <= right.size
    && (forall j :: 0 <= j < k ==> Element(l, lp, j) == Element(r, rp, j))
    && (|| (k < left.size && k < right.size && GreaterAt(gt, l.data, left.offset + k, r.data, right.offset + k))
        || k == right.size < left.size)
  }

  /** Two struct positions: equal fields up to `k`, where the left one is greater. */
  ghost predicate StructsDecidedAt(gt: Order, l: Vec, lp: nat, r: Vec, rp: nat, k: nat)
    requires Holds(l, lp) && Holds(r, rp) && l.Struct? && r.Struct?
  {
    && k < |l.fields| && k < |r.fields|
    && (forall j :: 0 <= j < k ==> At(l.fields[j], lp) == At(r.fields[j], rp)) && GreaterAt(gt, l.fields[k], lp, r.fields[k], rp)
  }

  lemma {:induction false} ListsDecided(gt: Order, l: Vec, lp: nat, r: Vec, rp: nat, k: nat)
    requires Holds(l, lp) && Holds(r, rp) && l.List? && r.List? && !l.nulls[lp] && !r.nulls[rp]
    ensures DecidedAt(gt, At(l, lp), At(r, rp), k) <==> ListsDecidedAt(gt, l, lp, r, rp, k)
  {
    assert RangeFits(l.ranges[lp], l.data) && RangeFits(r.ranges[rp], r.data);
    var a, b := At(l, lp), At(r, rp);
    forall j | 0 <= j < |a.items| ensures a.items[j] == Element(l, lp, j) { RangeHolds(l, lp, j); }
    forall j | 0 <= j < |b.items| ensures b.items[j] == Element(r, rp, j) { RangeHolds(r, rp, j); }
    if k <= |a.items| && k <= |b.items| && DecidedAt(gt, a, b, k) {
      forall j | 0 <= j < k ensures Element(l, lp, j) == Element(r, rp, j) { assert a.items[j] == b.items[j]; }
    }
  }

  lemma {:induction false} StructsDecided(gt: Order, l: Vec, lp: nat, r: Vec, rp: nat, k: nat)
    requires Holds(l, lp) && Holds(r, rp) && l.Struct? && r.Struct? && !l.nulls[lp] && !r.nulls[rp]
    ensures DecidedAt(gt, At(l, lp), At(r, rp), k) <==> StructsDecidedAt(gt, l, lp, r, rp, k)
  {
    var a, b := At(l, lp), At(r, rp);
    forall j | 0 <= j < |a.items| ensures a.items[j] == At(l.fields[j], lp) { FieldHolds(l, lp, j); }
    forall j | 0 <= j < |b.items| ensures b.items[j] == At(r.fields[j], rp) { FieldHolds(r, rp, j); }
  }

  /** Between positions that are not null: leaves by their order, lists and structs by the first items that differ, lists
      failing that by their lengths. */
  lemma {:induction false} PositionsLexicographic(gt: Order, l: Vec, lp: nat, r: Vec, rp: nat)
    requires StrictTotal(gt) && Holds(l, lp) && Holds(r, rp) && SameKind(l, r) && !l.nulls[lp] && !r.nulls[rp]
    ensures GreaterAt(gt, l, lp, r, rp) <==>
              match l
              case Leaf(_, _, values) => gt(values[lp], r.values[rp])
              case List(_, _, _) => exists k :: ListsDecidedAt(gt, l, lp, r, rp, k)
              case Struct(_, _, _, _) => exists k :: StructsDecidedAt(gt, l, lp, r, rp, k)
  {
    Lexicographic(gt, At(l, lp), At(r, rp));
    if l.List? {
      forall k: nat ensures DecidedAt(gt, At(l, lp), At(r, rp), k) <==> ListsDecidedAt(gt, l, lp, r, rp, k) {
        ListsDecided(gt, l, lp, r, rp, k);
      }
    } else if l.Struct? {
      forall k: nat ensures DecidedAt(gt, At(l, lp), At(r, rp), k) <==> StructsDecidedAt(gt, l, lp, r, rp, k) {
        StructsDecided(gt, l, lp, r, rp, k);
      }
    }
  }

  lemma {:induction false} PositionsTransitive(gt: Order, l: Vec, lp: nat, m: Vec, mp: nat, r: Vec, rp: nat)
    requires StrictTotal(gt) && Holds(l, lp) && Holds(m, mp) && Holds(r, rp) && TypeOf(l) == TypeOf(m) == TypeOf(r)
    requires GreaterAt(gt, l, lp, m, mp) && GreaterAt(gt, m, mp, r, rp)
    ensures GreaterAt(gt, l, lp, r, rp)
  {
    AtHasType(l, lp);
    AtHasType(m, mp);
    AtHasType(r, rp);
    Transitive(gt, TypeOf(l), At(l, lp), At(m, mp), At(r, rp));
  }
}
