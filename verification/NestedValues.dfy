/**
 Nested values and the vectors that hold them. A vector keeps a null bit and a payload for every
 position; a list position is a range of a data vector, a struct position is the same position of every
 field vector. `At` reads a position as a value, and sees nothing under a null.
 */
module NestedValues {

  import opened Basics

  /** A leaf: an integer, a boolean, a string, an identifier. */
  datatype Scalar = Scalar(code: int)

  datatype Name = Name(text: string)

  datatype Kind = Plain | Node | Rel

  datatype Ty = ScalarTy(id: nat) | ListTy(child: Ty) | StructTy(kind: Kind, names: seq<Name>, fields: seq<Ty>)

  datatype Value = Null | Prim(x: Scalar) | ListV(items: seq<Value>) | StructV(names: seq<Name>, items: seq<Value>)

  datatype Range = Range(offset: nat, size: nat)

  datatype Vec =
    | Leaf(nulls: seq<bool>, id: nat, values: seq<Scalar>)
    | List(nulls: seq<bool>, ranges: seq<Range>, data: Vec)
    | Struct(nulls: seq<bool>, kind: Kind, names: seq<Name>, fields: seq<Vec>)

  predicate IsNested(v: Value) {
    v.ListV? || v.StructV?
  }

  // ---------- Types ----------

  ghost predicate HasType(v: Value, t: Ty)
    decreases t
  {
    match v
    case Null => true
    case Prim(_) => t.ScalarTy?
    case ListV(items) => t.ListTy? && forall i :: 0 <= i < |items| ==> HasType(items[i], t.child)
    case StructV(names, items) =>
      t.StructTy? && names == t.names && |items| == |t.fields| && forall i :: 0 <= i < |items| ==> HasType(items[i], t.fields[i])
  }

  /** Type equality as the comparisons test it: field names are not looked at. */
  predicate SameType(t: Ty, u: Ty)
    decreases t
  {
    match t
    case ScalarTy(id) => u == t
    case ListTy(child) => u.ListTy? && SameType(child, u.child)
    case StructTy(kind, names, fields) =>
      u.StructTy? && kind == u.kind && |fields| == |u.fields| && forall i :: 0 <= i < |fields| ==> SameType(fields[i], u.fields[i])
  }

  // ---------- Vectors ----------

  function KeyField(kind: Kind): Option<nat> {
    match kind case Plain => None case Node => Some(0) case Rel => Some(3)
  }

  ghost predicate WellFormed(v: Vec)
    decreases v
  {
    match v
    case Leaf(nulls, _, values) => |values| == |nulls|
    case List(nulls, ranges, data) =>
      && |ranges| == |nulls| && WellFormed(data)
      && forall p :: 0 <= p < |nulls| && !nulls[p] ==> RangeFits(ranges[p], data)
    case Struct(nulls, kind, names, fields) =>
      && |names| == |fields| > 0
      && (KeyField(kind).Some? ==> KeyField(kind).value < |fields| && fields[KeyField(kind).value].Leaf?)
      && forall i :: 0 <= i < |fields| ==> WellFormed(fields[i]) && |fields[i].nulls| == |nulls|
  }

  ghost predicate RangeFits(r: Range, data: Vec) {
    r.offset + r.size <= |data.nulls|
  }

  function TypeOf(v: Vec): Ty
    decreases v
  {
    match v
    case Leaf(_, id, _) => ScalarTy(id)
    case List(_, _, data) => ListTy(TypeOf(data))
    case Struct(_, kind, names, fields) =>
      StructTy(kind, names, seq(|fields|, i requires 0 <= i < |fields| => TypeOf(fields[i])))
  }

  ghost function At(v: Vec, p: nat): Value
    requires WellFormed(v) && p < |v.nulls|
    decreases v
  {
    if v.nulls[p] then Null
    else match v
      case Leaf(_, _, values) => Prim(values[p])
      case List(_, ranges, data) =>
        assert RangeFits(ranges[p], data);
        ListV(seq(ranges[p].size, i requires 0 <= i < ranges[p].size => At(data, ranges[p].offset + i)))
      case Struct(_, _, names, fields) =>
        StructV(names, seq(|fields|, i requires 0 <= i < |fields| => At(fields[i], p)))
  }

  lemma {:induction false} AtHasType(v: Vec, p: nat)
    requires WellFormed(v) && p < |v.nulls|
    ensures HasType(At(v, p), TypeOf(v))
    decreases v
  {
    if !v.nulls[p] {
      match v
      case Leaf(_, _, _) =>
      case List(_, ranges, data) =>
        assert RangeFits(ranges[p], data);
        var items := At(v, p).items;
        forall i | 0 <= i < |items| ensures HasType(items[i], TypeOf(data)) { AtHasType(data, ranges[p].offset + i); }
      case Struct(_, _, _, fields) =>
        var items := At(v, p).items;
        forall i | 0 <= i < |items| ensures HasType(items[i], TypeOf(fields[i])) { AtHasType(fields[i], p); }
    }
  }
}
