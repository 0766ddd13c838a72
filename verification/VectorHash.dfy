/**
 The vectorised hash: one call fills the result slots of all selected positions, hashing list data in
 chunks of the vector capacity and struct fields one vector after another.
 */
module VectorHash {

  import opened Basics
  import opened NestedValues
  import opened NestedHash

  /** Slot `i` of the selection holds the hash of its position. */
  ghost predicate Filled<H>(h: Hashing<H>, v: Vec, sel: seq<nat>, result: seq<H>, resultSel: seq<nat>)
    requires WellFormed(v) && Within(sel, |v.nulls|) && Within(resultSel, |result|) && |sel| == |resultSel|
  {
    forall i :: 0 <= i < |sel| ==> result[resultSel[i]] == HashAt(h, v, sel[i])
  }

  ghost predicate Untouched<H>(before: seq<H>, after: seq<H>, sel: seq<nat>) {
    |before| == |after| && forall p :: 0 <= p < |before| && p !in sel ==> after[p] == before[p]
  }

  /** `UnaryHashFunctionExecutor::execute` */
  method HashLeaves<H>(h: Hashing<H>, v: Vec, sel: seq<nat>, result: array<H>, resultSel: seq<nat>)
    requires v.Leaf? && WellFormed(v) && Within(sel, |v.nulls|)
    requires |sel| == |resultSel| && Within(resultSel, result.Length) && Distinct(resultSel)
    modifies result
    ensures Filled(h, v, sel, result[..], resultSel) && Untouched(old(result[..]), result[..], resultSel)
  {
    for i := 0 to |sel|
      invariant forall j :: 0 <= j < i ==> result[resultSel[j]] == HashAt(h, v, sel[j])
      invariant forall p :: 0 <= p < result.Length && p !in resultSel ==> result[p] == old(result[p])
    {
      if !v.nulls[sel[i]] {
        result[resultSel[i]] := h.leaf(v.id, v.values[sel[i]]);
      } else {
        result[resultSel[i]] := h.none;
      }
    }
  }

  /** `computeDataVecHash`: every element of the data vector is hashed once, a chunk at a time. */
  method HashData<H>(h: Hashing<H>, data: Vec, capacity: nat) returns (hashes: array<H>)
    requires WellFormed(data) && capacity > 0
    ensures fresh(hashes) && hashes.Length == |data.nulls|
    ensures forall q :: 0 <= q < hashes.Length ==> hashes[q] == HashAt(h, data, q)
    decreases data, 3
  {
    hashes := new H[|data.nulls|](_ => h.none);
    var computed := 0;
    while computed < |data.nulls|
      invariant computed <= |data.nulls| && fresh(hashes) && hashes.Length == |data.nulls|
      invariant forall q :: 0 <= q < computed ==> hashes[q] == HashAt(h, data, q)
    {
      var count := if capacity < |data.nulls| - computed then capacity else |data.nulls| - computed;
      var selection: seq<nat> := [];
      ghost var start := computed;
      for i := 0 to count
        invariant |selection| == i && computed == start + i
        invariant forall j :: 0 <= j < i ==> selection[j] == start + j
      {
        selection := selection + [computed];
        computed := computed + 1;
      }
      ghost var before := hashes[..];
      ComputeHash(h, data, selection, hashes, selection, capacity);
      forall q | 0 <= q < computed ensures hashes[q] == HashAt(h, data, q) {
        if q < start {
          assert q !in selection && hashes[..][q] == before[q];
        } else {
          assert selection[q - start] == q && hashes[..][selection[q - start]] == hashes[q];
        }
      }
    }
  }

  /** `finalizeDataVecHash` */
  method FinishLists<H>(h: Hashing<H>, v: Vec, sel: seq<nat>, result: array<H>, resultSel: seq<nat>, hashes: array<H>)
    requires v.List? && WellFormed(v) && Within(sel, |v.nulls|) && hashes != result
    requires |sel| == |resultSel| && Within(resultSel, result.Length) && Distinct(resultSel)
    requires hashes.Length == |v.data.nulls| && forall q :: 0 <= q < hashes.Length ==> hashes[q] == HashAt(h, v.data, q)
    modifies result
    ensures Filled(h, v, sel, result[..], resultSel) && Untouched(old(result[..]), result[..], resultSel)
  {
    for i := 0 to |sel|
      invariant forall j :: 0 <= j < i ==> result[resultSel[j]] == HashAt(h, v, sel[j])
      invariant forall p :: 0 <= p < result.Length && p !in resultSel ==> result[p] == old(result[p])
    {
      var p := sel[i];
      if v.nulls[p] {
        result[resultSel[i]] := h.none;
      } else {
        var range := v.ranges[p];
        assert RangeFits(range, v.data);
        var hash := h.none;
        for j := 0 to range.size
          invariant hash == HashItems(h, v, p, j)
        {
          hash := h.combine(hash, hashes[range.offset + j]);
        }
        result[resultSel[i]] := hash;
      }
    }
  }

  /** `combineHash` of a field's hashes into the result. */
  method CombineInto<H>(h: Hashing<H>, field: array<H>, result: array<H>, resultSel: seq<nat>)
    requires field != result && field.Length == |resultSel| && Within(resultSel, result.Length) && Distinct(resultSel)
    modifies result
    ensures forall i :: 0 <= i < |resultSel| ==> result[resultSel[i]] == h.combine(field[i], old(result[resultSel[i]]))
    ensures Untouched(old(result[..]), result[..], resultSel)
  {
    for i := 0 to |resultSel|
      invariant forall j :: 0 <= j < i ==> result[resultSel[j]] == h.combine(field[j], old(result[resultSel[j]]))
      invariant forall j :: i <= j < |resultSel| ==> result[resultSel[j]] == old(result[resultSel[j]])
      invariant forall p :: 0 <= p < result.Length && p !in resultSel ==> result[p] == old(result[p])
    {
      result[resultSel[i]] := h.combine(field[i], result[resultSel[i]]);
    }
  }

  /** `computeStructVecHash` of plain structs. */
  method HashStructs<H>(h: Hashing<H>, v: Vec, sel: seq<nat>, result: array<H>, resultSel: seq<nat>, capacity: nat)
    requires v.Struct? && KeyField(v.kind).None? && WellFormed(v) && Within(sel, |v.nulls|) && capacity > 0
    requires |sel| == |resultSel| && Within(resultSel, result.Length) && Distinct(resultSel)
    modifies result
    ensures Filled(h, v, sel, result[..], resultSel) && Untouched(old(result[..]), result[..], resultSel)
    decreases v, 1
  {
    ComputeHash(h, v.fields[0], sel, result, resultSel, capacity);
    var field := new H[|resultSel|](_ => h.none);
    var fieldSel := seq(|resultSel|, i => i);
    for n := 1 to |v.fields|
      invariant forall i :: 0 <= i < |sel| ==> result[resultSel[i]] == HashFields(h, v, sel[i], n)
      invariant Untouched(old(result[..]), result[..], resultSel)
    {
      ComputeHash(h, v.fields[n], sel, field, fieldSel, capacity);
      CombineInto(h, field, result, resultSel);
    }
  }

  /** `VectorHashFunction::computeHash` */
  method ComputeHash<H>(h: Hashing<H>, v: Vec, sel: seq<nat>, result: array<H>, resultSel: seq<nat>, capacity: nat)
    requires WellFormed(v) && Within(sel, |v.nulls|) && capacity > 0
    requires |sel| == |resultSel| && Within(resultSel, result.Length) && Distinct(resultSel)
    modifies result
    ensures Filled(h, v, sel, result[..], resultSel) && Untouched(old(result[..]), result[..], resultSel)
    decreases v, 2
  {
    match v
    case Leaf(_, _, _) => HashLeaves(h, v, sel, result, resultSel);
    case List(_, _, data) =>
      var hashes := HashData(h, data, capacity);
      FinishLists(h, v, sel, result, resultSel, hashes);
    case Struct(_, kind, _, fields) =>
      if KeyField(kind).Some? {
        HashLeaves(h, fields[KeyField(kind).value], sel, result, resultSel);
        assert forall i :: 0 <= i < |sel| ==> HashAt(h, v, sel[i]) == HashAt(h, fields[KeyField(kind).value], sel[i]);
      } else {
        HashStructs(h, v, sel, result, resultSel, capacity);
      }
  }
}
