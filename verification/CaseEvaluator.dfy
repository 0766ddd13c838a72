/**
 Vectorised CASE: alternatives fill the positions their WHEN selects and that are still empty, ELSE
 fills the rest. A child is flat, one value for the whole vector, or has a value at every position.
 */
module CaseEvaluator {

  import opened Basics

  /** A child that is read for its values. */
  datatype Source<V> = Flat(value: V) | Unflat(values: nat -> V)

  /** A WHEN child that is selected: its truth, null being no truth, once or at every position. */
  datatype When = FlatWhen(holds: bool) | UnflatWhen(holdsAt: nat -> bool)

  datatype Alternative<V> = Alternative(when: When, gives: Source<V>)

  function Read<V>(s: Source<V>, p: nat): V {
    match s case Flat(value) => value case Unflat(values) => values(p)
  }

  predicate Holds(w: When, p: nat) {
    match w case FlatWhen(holds) => holds case UnflatWhen(holdsAt) => holdsAt(p)
  }

  /** CASE at one position: the first alternative whose WHEN holds there. */
  function Pointwise<V>(alternatives: seq<Alternative<V>>, otherwise: Source<V>, p: nat): V {
    if alternatives == [] then Read(otherwise, p)
    else if Holds(alternatives[0].when, p) then Read(alternatives[0].gives, p)
    else Pointwise(alternatives[1..], otherwise, p)
  }

  function Filter(sel: seq<nat>, keeps: nat -> bool): (r: seq<nat>)
    ensures |r| <= |sel|
  {
    if sel == [] then [] else
    var n := |sel| - 1;
    if keeps(sel[n]) then Filter(sel[..n], keeps) + [sel[n]] else Filter(sel[..n], keeps)
  }

  lemma {:induction false} InFilter(sel: seq<nat>, keeps: nat -> bool, p: nat)
    ensures p in Filter(sel, keeps) <==> p in sel && keeps(p)
    decreases |sel|
  {
    if sel != [] {
      var n := |sel| - 1;
      InFilter(sel[..n], keeps, p);
      assert sel == sel[..n] + [sel[n]];
    }
  }

  function Positions(sel: seq<nat>): set<nat> {
    set p | p in sel
  }

  lemma {:induction false} PositionsCount(sel: seq<nat>)
    requires Distinct(sel)
    ensures |Positions(sel)| == |sel|
    decreases |sel|
  {
    if sel != [] {
      var n := |sel| - 1;
      PositionsCount(sel[..n]);
      assert sel == sel[..n] + [sel[n]] && sel[n] !in sel[..n];
      assert Positions(sel) == Positions(sel[..n]) + {sel[n]};
    }
  }

  // ---------- Where a position's value comes from ----------

  datatype Origin = Untouched | From(k: nat) | Else

  function ReadOrigin<V>(alternatives: seq<Alternative<V>>, otherwise: Source<V>, o: Origin, p: nat, before: V): V {
    match o
    case Untouched => before
    case From(k) => if k < |alternatives| then Read(alternatives[k].gives, p) else before
    case Else => Read(otherwise, p)
  }

  /** CASE at one position, from alternative `k` on. */
  function PointOrigin(whens: seq<When>, k: nat, p: nat): Origin
    requires k <= |whens|
    decreases |whens| - k
  {
    if k == |whens| then Else else if Holds(whens[k], p) then From(k) else PointOrigin(whens, k + 1, p)
  }

  function Whens<V>(alternatives: seq<Alternative<V>>): (r: seq<When>)
    ensures |r| == |alternatives|
  {
    seq(|alternatives|, k requires 0 <= k < |alternatives| => alternatives[k].when)
  }

  lemma {:induction false} PointOriginIsPointwise<V>(alternatives: seq<Alternative<V>>, otherwise: Source<V>, k: nat, p: nat, before: V)
    requires k <= |alternatives|
    ensures ReadOrigin(alternatives, otherwise, PointOrigin(Whens(alternatives), k, p), p, before) == Pointwise(alternatives[k..], otherwise, p)
    decreases |alternatives| - k
  {
    if k < |alternatives| {
      PointOriginIsPointwise(alternatives, otherwise, k + 1, p, before);
      assert alternatives[k..][1..] == alternatives[k + 1..];
    }
  }

  // ---------- What the WHEN children hand over ----------

  /** What `select` returned, the positions then in the selection vector of the alternative, and the selection of
      the result once the alternative is evaluated: a child may rewrite it. */
  datatype Selection = Selection(any: bool, chosen: seq<nat>, left: seq<nat>)

  /** The positions an alternative goes over. */
  function Targets(w: When, s: Selection): seq<nat> {
    if w.FlatWhen? then s.left else s.chosen
  }

  /** Where a position that is not filled yet gets its value, from alternative `k` on: the first alternative that
      goes over it, or ELSE if it is in the selection ELSE finds, unless the number of filled positions, whichever
      they are, ends the evaluation before. */
  function OriginFrom(whens: seq<When>, selections: seq<Selection>, last: seq<nat>, k: nat, filled: set<nat>, p: nat): Origin
    requires k <= |whens| == |selections|
    decreases |whens| - k
  {
    if k == |whens| then (if p in last then Else else Untouched)
    else if !selections[k].any then OriginFrom(whens, selections, last, k + 1, filled, p)
    else
      var targets := Targets(whens[k], selections[k]);
      var more := filled + Positions(targets);
      if p in targets then From(k)
      else if |more| == |selections[k].left| then Untouched
      else OriginFrom(whens, selections, last, k + 1, more, p)
  }

  function OriginOf(whens: seq<When>, selections: seq<Selection>, last: seq<nat>, p: nat): Origin
    requires |whens| == |selections|
  {
    OriginFrom(whens, selections, last, 0, {}, p)
  }

  lemma {:induction false} OriginLater(whens: seq<When>, selections: seq<Selection>, last: seq<nat>, k: nat, filled: set<nat>, p: nat)
    requires k <= |whens| == |selections|
    ensures OriginFrom(whens, selections, last, k, filled, p).From? ==> OriginFrom(whens, selections, last, k, filled, p).k >= k
    decreases |whens| - k
  {
    if k < |whens| {
      var more := filled + Positions(Targets(whens[k], selections[k]));
      OriginLater(whens, selections, last, k + 1, filled, p);
      OriginLater(whens, selections, last, k + 1, more, p);
    }
  }

  lemma {:induction false} PointLater(whens: seq<When>, k: nat, p: nat)
    requires k <= |whens|
    ensures PointOrigin(whens, k, p) != Untouched
    ensures PointOrigin(whens, k, p).From? ==> PointOrigin(whens, k, p).k >= k
    decreases |whens| - k
  {
    if k < |whens| { PointLater(whens, k + 1, p); }
  }

  // ---------- When CASE is pointwise, whatever the children do ----------

  /** Those of the given positions for which the WHEN holds. */
  function Here(w: When, open: set<nat>): set<nat> {
    set p | p in open && Holds(w, p)
  }

  ghost predicate Agree(whens: seq<When>, selections: seq<Selection>, last: seq<nat>, k: nat, open: set<nat>, filled: set<nat>)
    requires k <= |whens| == |selections|
  {
    forall p :: p in open ==> OriginFrom(whens, selections, last, k, filled, p) == PointOrigin(whens, k, p)
  }

  /** Every alternative that is reached goes over exactly the open positions for which it holds, the evaluation ends
      early only with nothing open, and ELSE goes over all that is open. `open` are the positions no earlier
      alternative holds for. */
  predicate Fits(whens: seq<When>, selections: seq<Selection>, last: seq<nat>, k: nat, open: set<nat>, filled: set<nat>)
    requires k <= |whens| == |selections|
    decreases |whens| - k
  {
    if k == |whens| then open <= Positions(last)
    else
      var here, more := Here(whens[k], open), filled + Positions(Targets(whens[k], selections[k]));
      if !selections[k].any then here == {} && Fits(whens, selections, last, k + 1, open, filled)
      else
        && Positions(Targets(whens[k], selections[k])) * open == here
        && if |more| == |selections[k].left| then here == open
           else Fits(whens, selections, last, k + 1, open - here, more)
  }

  lemma {:induction false} SkippedAgree(whens: seq<When>, selections: seq<Selection>, last: seq<nat>, k: nat, open: set<nat>, filled: set<nat>)
    requires k < |whens| == |selections| && !selections[k].any
    ensures Agree(whens, selections, last, k, open, filled) <==>
              Here(whens[k], open) == {} && Agree(whens, selections, last, k + 1, open, filled)
  {
    if p :| p in open && Holds(whens[k], p) {
      OriginLater(whens, selections, last, k + 1, filled, p);
      assert p in Here(whens[k], open);
    } else {
      forall p | p in open ensures PointOrigin(whens, k, p) == PointOrigin(whens, k + 1, p) { }
    }
  }

  /** One position, over an alternative that selected something. */
  lemma {:induction false} TakenAgree(whens: seq<When>, selections: seq<Selection>, last: seq<nat>, k: nat, filled: set<nat>, p: nat)
    requires k < |whens| == |selections| && selections[k].any
    ensures var targets := Targets(whens[k], selections[k]);
            var more := filled + Positions(targets);
            OriginFrom(whens, selections, last, k, filled, p) == PointOrigin(whens, k, p) <==>
              && (p in targets <==> Holds(whens[k], p))
              && (|| p in targets
                  || (|more| != |selections[k].left| && OriginFrom(whens, selections, last, k + 1, more, p) == PointOrigin(whens, k + 1, p)))
  {
    var more := filled + Positions(Targets(whens[k], selections[k]));
    OriginLater(whens, selections, last, k + 1, more, p);
    PointLater(whens, k + 1, p);
  }

  lemma {:induction false} TakenAllAgree(whens: seq<When>, selections: seq<Selection>, last: seq<nat>, k: nat, open: set<nat>, filled: set<nat>)
    requires k < |whens| == |selections| && selections[k].any
    ensures var targets := Targets(whens[k], selections[k]);
            var here, more := Here(whens[k], open), filled + Positions(targets);
            Agree(whens, selections, last, k, open, filled) <==>
              && Positions(targets) * open == here
              && if |more| == |selections[k].left| then here == open else Agree(whens, selections, last, k + 1, open - here, more)
  {
    var targets := Targets(whens[k], selections[k]);
    var here, more := Here(whens[k], open), filled + Positions(targets);
    forall p | p in open
      ensures OriginFrom(whens, selections, last, k, filled, p) == PointOrigin(whens, k, p) <==>
                && (p in targets <==> p in here)
                && (|| p in targets
                    || (|more| != |selections[k].left| && OriginFrom(whens, selections, last, k + 1, more, p) == PointOrigin(whens, k + 1, p)))
    {
      TakenAgree(whens, selections, last, k, filled, p);
    }
    if Agree(whens, selections, last, k, open, filled) {
      assert forall p :: p in open ==> (p in Positions(targets) * open <==> p in here);
    }
  }

  /** Each of the open positions gets its value from where pointwise CASE takes it exactly when the alternatives fit. */
  lemma {:induction false} FitsExactly(whens: seq<When>, selections: seq<Selection>, last: seq<nat>, k: nat, open: set<nat>, filled: set<nat>)
    requires k <= |whens| == |selections|
    ensures Agree(whens, selections, last, k, open, filled) <==> Fits(whens, selections, last, k, open, filled)
    decreases |whens| - k
  {
    if k < |whens| {
      var here, more := Here(whens[k], open), filled + Positions(Targets(whens[k], selections[k]));
      if !selections[k].any {
        SkippedAgree(whens, selections, last, k, open, filled);
        FitsExactly(whens, selections, last, k + 1, open, filled);
      } else {
        TakenAllAgree(whens, selections, last, k, open, filled);
        FitsExactly(whens, selections, last, k + 1, open - here, more);
      }
    }
  }

  // ---------- Filling ----------

  /** A row of the result before alternative `k`: filled from where it takes its value, or still as it was. */
  ghost predicate RowAt<V>(alternatives: seq<Alternative<V>>, otherwise: Source<V>, selections: seq<Selection>, last: seq<nat>,
                           k: nat, filled: set<nat>, q: nat, now: V, before: V)
    requires k <= |alternatives| == |selections|
  {
    var whens := Whens(alternatives);
    if q in filled then RowDone(alternatives, otherwise, selections, last, q, now, before)
    else now == before && OriginOf(whens, selections, last, q) == OriginFrom(whens, selections, last, k, filled, q)
  }

  ghost predicate RowDone<V>(alternatives: seq<Alternative<V>>, otherwise: Source<V>, selections: seq<Selection>, last: seq<nat>,
                             q: nat, now: V, before: V)
    requires |alternatives| == |selections|
  {
    now == ReadOrigin(alternatives, otherwise, OriginOf(Whens(alternatives), selections, last, q), q, before)
  }

  lemma {:induction false} RowTurn<V>(alternatives: seq<Alternative<V>>, otherwise: Source<V>, selections: seq<Selection>, last: seq<nat>,
                                      k: nat, filled: set<nat>, q: nat, now: V, before: V, after: V)
    requires k < |alternatives| == |selections| && selections[k].any
    requires RowAt(alternatives, otherwise, selections, last, k, filled, q, now, before)
    requires after == if q in Targets(alternatives[k].when, selections[k]) && q !in filled then Read(alternatives[k].gives, q) else now
    ensures var more := filled + Positions(Targets(alternatives[k].when, selections[k]));
            if |more| == |selections[k].left| then RowDone(alternatives, otherwise, selections, last, q, after, before)
            else RowAt(alternatives, otherwise, selections, last, k + 1, more, q, after, before)
  {
  }

  class CaseExpression<V(0)> {
    const result: array<V>
    var filled: set<nat>

    constructor (size: nat, blank: V)
      ensures fresh(result) && result.Length == size && filled == {}
    {
      result := new V[size](_ => blank);
      filled := {};
    }

    /** `fillEntry` */
    method FillEntry(p: nat, source: Source<V>)
      requires p < result.Length
      modifies this, result
      ensures filled == old(filled) + {p}
      ensures forall q :: 0 <= q < result.Length ==> result[q] == if q == p && p !in old(filled) then Read(source, p) else old(result[q])
    {
      if p in filled { return; }
      filled := filled + {p};
      result[p] := Read(source, p);
    }

    /** `fillSelected` and `fillAll`: the positions that are still empty. */
    method Fill(positions: seq<nat>, source: Source<V>)
      requires Within(positions, result.Length)
      modifies this, result
      ensures filled == old(filled) + Positions(positions)
      ensures forall q :: 0 <= q < result.Length ==>
                result[q] == if q in positions && q !in old(filled) then Read(source, q) else old(result[q])
    {
      for i := 0 to |positions|
        invariant filled == old(filled) + Positions(positions[..i])
        invariant forall q :: 0 <= q < result.Length ==>
                    result[q] == if q in positions[..i] && q !in old(filled) then Read(source, q) else old(result[q])
      {
        assert positions[..i + 1] == positions[..i] + [positions[i]];
        assert Positions(positions[..i + 1]) == Positions(positions[..i]) + {positions[i]};
        FillEntry(positions[i], source);
      }
      assert positions[..|positions|] == positions;
    }

    /** `evaluate` */
    method Evaluate(alternatives: seq<Alternative<V>>, selections: seq<Selection>, otherwise: Source<V>, last: seq<nat>)
      requires |selections| == |alternatives| && Within(last, result.Length)
      requires forall k :: 0 <= k < |selections| ==> Within(selections[k].chosen, result.Length) && Within(selections[k].left, result.Length)
      modifies this, result
      ensures forall q :: 0 <= q < result.Length ==>
                RowDone(alternatives, otherwise, selections, last, q, result[q], old(result[q]))
    {
      filled := {};
      for k := 0 to |alternatives|
        invariant forall q :: 0 <= q < result.Length ==>
                    RowAt(alternatives, otherwise, selections, last, k, filled, q, result[q], old(result[q]))
      {
        if !selections[k].any { continue; }
        ghost var rows, was := result[..], filled;
        Fill(Targets(alternatives[k].when, selections[k]), alternatives[k].gives);
        forall q | 0 <= q < result.Length
          ensures if |filled| == |selections[k].left| then RowDone(alternatives, otherwise, selections, last, q, result[q], old(result[q]))
                  else RowAt(alternatives, otherwise, selections, last, k + 1, filled, q, result[q], old(result[q]))
        {
          RowTurn(alternatives, otherwise, selections, last, k, was, q, rows[q], old(result[q]), result[q]);
        }
        if |filled| == |selections[k].left| { return; }
      }
      Fill(last, otherwise);
    }
  }

  // ---------- Selecting ----------

  /** The positions whose row is true, in order. */
  function Kept(positions: seq<nat>, truth: seq<bool>): seq<nat>
    requires |positions| == |truth|
  {
    if positions == [] then [] else
    var n := |positions| - 1;
    if truth[n] then Kept(positions[..n], truth[..n]) + [positions[n]] else Kept(positions[..n], truth[..n])
  }

  /** The compaction of `selectInternal`, in the buffer that holds the positions. */
  method Compact(buffer: array<nat>, truth: seq<bool>) returns (count: nat)
    requires |truth| <= buffer.Length
    modifies buffer
    ensures count <= |truth| && buffer[..count] == Kept(old(buffer[..|truth|]), truth)
  {
    count := 0;
    ghost var before := buffer[..];
    for i := 0 to |truth|
      invariant count <= i && buffer[..count] == Kept(before[..i], truth[..i])
      invariant forall j :: i <= j < buffer.Length ==> buffer[j] == before[j]
    {
      assert before[..i + 1][..i] == before[..i] && truth[..i + 1][..i] == truth[..i];
      buffer[count] := buffer[i];
      if truth[i] { count := count + 1; }
    }
    assert truth[..|truth|] == truth;
  }

  /** A boolean value or null. */
  datatype Truth = NoTruth | Truth(value: bool)

  predicate IsTrue(t: Truth) {
    t.Truth? && t.value
  }

  /** `selectInternal`: of the positions in the buffer, as many as its size says, those whose row CASE makes true.
      `rows` are the positions of the result's selection after the evaluation, read as far as that size. */
  method Select(expression: CaseExpression<Truth>, alternatives: seq<Alternative<Truth>>, selections: seq<Selection>,
                otherwise: Source<Truth>, last: seq<nat>, rows: seq<nat>, buffer: array<nat>, size: nat) returns (count: nat)
    requires |selections| == |alternatives| && last <= rows && Within(rows, expression.result.Length)
    requires forall k :: 0 <= k < |selections| ==>
               Within(selections[k].chosen, expression.result.Length) && Within(selections[k].left, expression.result.Length)
    requires size <= buffer.Length && size <= |rows|
    modifies expression, expression.result, buffer
    ensures count <= size
    ensures buffer[..count] ==
              Kept(old(buffer[..size]), TruthAt(alternatives, selections, otherwise, last, rows[..size], old(expression.result[..])))
  {
    ghost var before := expression.result[..];
    forall i | 0 <= i < |last| ensures last[i] < expression.result.Length { assert last[i] == rows[i]; }
    expression.Evaluate(alternatives, selections, otherwise, last);
    var truth := seq(size, i requires 0 <= i < size && rows[i] < expression.result.Length
                             reads expression, expression.result => IsTrue(expression.result[rows[i]]));
    assert truth == TruthAt(alternatives, selections, otherwise, last, rows[..size], before);
    count := Compact(buffer, truth);
  }

  /** Whether what CASE leaves in each of the rows is true. */
  function TruthAt(alternatives: seq<Alternative<Truth>>, selections: seq<Selection>, otherwise: Source<Truth>, last: seq<nat>,
                   rows: seq<nat>, before: seq<Truth>): seq<bool>
    requires |selections| == |alternatives| && Within(rows, |before|)
  {
    seq(|rows|, i requires 0 <= i < |rows| =>
      IsTrue(ReadOrigin(alternatives, otherwise, OriginOf(Whens(alternatives), selections, last, rows[i]), rows[i], before[rows[i]])))
  }

  lemma {:induction false} AllFilled(a: set<nat>, b: set<nat>)
    requires a <= b && |a| == |b|
    ensures a == b
  {
    if x :| x in b && x !in a {
      assert a <= b - {x};
      Smaller(a, b - {x});
    }
  }

  lemma {:induction false} Smaller(a: set<nat>, b: set<nat>)
    requires a <= b
    ensures |a| <= |b|
  {
    if a != {} {
      var x :| x in a;
      Smaller(a - {x}, b - {x});
    }
  }
}
