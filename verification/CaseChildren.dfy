/**
 The WHEN children of CASE, by how they select: a function with a select of its own, a function that goes through
 `updateSelectedPos`, a boolean column, and another CASE. Each leaves something else in the selection vector it is
 given, and a column may rewrite the selection of the rows itself.
 */
module CaseChildren {

  import opened Basics
  import opened CaseEvaluator

  // ---------- Functions ----------

  /** `updateSelectedPos`: with one row selected the selection vector keeps what an earlier batch left in it. */
  method UpdateSelectedPos(sel: seq<nat>, holds: nat -> bool, stale: seq<nat>) returns (any: bool, chosen: seq<nat>)
    requires sel != []
    ensures any == if |sel| > 1 then Filter(sel, holds) != [] else holds(sel[0])
    ensures chosen == if |sel| > 1 then Filter(sel, holds) else stale
  {
    if |sel| > 1 {
      chosen := [];
      for i := 0 to |sel|
        invariant chosen == Filter(sel[..i], holds)
      {
        assert sel[..i + 1][..i] == sel[..i];
        if holds(sel[i]) { chosen := chosen + [sel[i]]; }
      }
      assert sel[..|sel|] == sel;
      any := chosen != [];
    } else {
      any, chosen := holds(sel[0]), stale;
    }
  }

  lemma {:induction false} FilterSome(sel: seq<nat>, holds: nat -> bool)
    ensures Filter(sel, holds) != [] <==> exists p :: p in sel && holds(p)
  {
    if Filter(sel, holds) != [] { InFilter(sel, holds, Filter(sel, holds)[0]); }
    if p :| p in sel && holds(p) { InFilter(sel, holds, p); }
  }

  // ---------- A boolean column ----------

  /** A buffer after the loop that writes each position of the selection where the next true one is to go. */
  function Overwritten(base: seq<nat>, sel: seq<nat>, holds: nat -> bool): (r: seq<nat>)
    requires |sel| <= |base|
    ensures |r| == |base|
    decreases |sel|
  {
    if sel == [] then base
    else
      var n := |sel| - 1;
      Overwritten(base, sel[..n], holds)[|Filter(sel[..n], holds)| := sel[n]]
  }

  /** The true positions, then the last position if it is not true, then what was there. */
  lemma {:induction false} OverwrittenAt(base: seq<nat>, sel: seq<nat>, holds: nat -> bool, j: nat)
    requires |sel| <= |base| && j < |base|
    ensures var f := Filter(sel, holds);
            Overwritten(base, sel, holds)[j] ==
              if j < |f| then f[j] else if j == |f| && sel != [] && !holds(sel[|sel| - 1]) then sel[|sel| - 1] else base[j]
    decreases |sel|
  {
    if sel != [] { OverwrittenAt(base, sel[..|sel| - 1], holds, j); }
  }

  lemma {:induction false} OverwrittenNext(base: seq<nat>, sel: seq<nat>, holds: nat -> bool, i: nat)
    requires i < |sel| <= |base|
    ensures Overwritten(base, sel[..i + 1], holds) == Overwritten(base, sel[..i], holds)[|Filter(sel[..i], holds)| := sel[i]]
    ensures |Filter(sel[..i + 1], holds)| == |Filter(sel[..i], holds)| + if holds(sel[i]) then 1 else 0
    ensures base[..|sel|] == sel ==> Overwritten(base, sel[..i], holds)[i] == sel[i]
  {
    var part := sel[..i + 1];
    assert part[..i] == sel[..i] && part[i] == sel[i];
    OverwrittenAt(base, sel[..i], holds, i);
    assert base[..|sel|] == sel ==> base[i] == sel[i];
  }

  /** What the loop makes of the selection that it reads. */
  function Compacted(sel: seq<nat>, holds: nat -> bool): (r: seq<nat>)
    ensures |r| == |sel|
  {
    Overwritten(sel, sel, holds)
  }

  lemma {:induction false} CompactedPrefix(base: seq<nat>, n: nat, holds: nat -> bool)
    requires n <= |base|
    ensures Overwritten(base, base[..n], holds)[..n] == Compacted(base[..n], holds)
  {
    forall j | 0 <= j < n ensures Overwritten(base, base[..n], holds)[j] == Compacted(base[..n], holds)[j] {
      OverwrittenAt(base, base[..n], holds, j);
      OverwrittenAt(base[..n], base[..n], holds, j);
    }
  }

  function Range(n: nat): (r: seq<nat>)
    ensures |r| == n && forall i :: 0 <= i < n ==> r[i] == i
  {
    seq(n, i requires 0 <= i < n => i)
  }

  /** `selectInternal` of a column over an unfiltered selection: it counts into the vector it is given, and writes the
      positions into the buffer of its own selection, which is not in use. */
  method SelectUnfiltered(buffer: array<nat>, n: nat, holds: nat -> bool) returns (count: nat)
    requires n <= buffer.Length
    modifies buffer
    ensures count == |Filter(Range(n), holds)| && buffer[..] == Overwritten(old(buffer[..]), Range(n), holds)
  {
    ghost var before, sel := buffer[..], Range(n);
    count := 0;
    for i := 0 to n
      invariant count == |Filter(sel[..i], holds)| && buffer[..] == Overwritten(before, sel[..i], holds)
    {
      OverwrittenNext(before, sel, holds, i);
      buffer[count] := i;
      if holds(i) { count := count + 1; }
    }
    assert sel[..n] == sel;
  }

  /** The same over a filtered selection, whose positions are in that buffer. */
  method SelectFiltered(buffer: array<nat>, n: nat, holds: nat -> bool) returns (count: nat)
    requires n <= buffer.Length
    modifies buffer
    ensures count == |Filter(old(buffer[..n]), holds)| && buffer[..n] == Compacted(old(buffer[..n]), holds)
  {
    ghost var before, sel := buffer[..], buffer[..n];
    count := 0;
    for i := 0 to n
      invariant count == |Filter(sel[..i], holds)| && buffer[..] == Overwritten(before, sel[..i], holds)
    {
      OverwrittenNext(before, sel, holds, i);
      var pos := buffer[i];
      buffer[count] := pos;
      if holds(pos) { count := count + 1; }
    }
    assert sel[..n] == sel && before[..n] == sel;
    CompactedPrefix(before, n, holds);
    assert buffer[..n] == buffer[..][..n];
  }

  // ---------- What each kind hands over ----------

  /** How a WHEN child selects, with what its selection vector holds: a function by itself; through
      `updateSelectedPos`; a column, which reads the whole buffer; a CASE, which goes over as many rows as the vector
      holds positions, `beyond` being the truth of the rows read past the selection. */
  datatype Child =
    | Selecting
    | Updating(stale: seq<nat>)
    | Column(buffer: seq<nat>)
    | Nested(stale: seq<nat>, beyond: nat -> bool)

  /** The truth of the rows that a nested CASE reads. */
  function Rows(w: When, cur: seq<nat>, c: Child): (r: seq<bool>)
    requires c.Nested?
    ensures |r| == |c.stale|
  {
    seq(|c.stale|, i requires 0 <= i < |c.stale| => if i < |cur| then Holds(w, cur[i]) else c.beyond(i))
  }

  /** `inPlace`: the selection is filtered, so that its positions are in its own buffer. */
  function Hand(w: When, cur: seq<nat>, inPlace: bool, c: Child): (s: Selection)
    requires cur != [] && (c.Column? ==> |cur| <= |c.buffer|)
    ensures |s.left| == |cur|
  {
    if c.Nested? then
      var kept := Kept(c.stale, Rows(w, cur, c));
      Selection(kept != [], kept, cur)
    else if w.FlatWhen? then
      Selection(w.holds, [], cur)
    else
      var chosen := Filter(cur, w.holdsAt);
      if c.Column? then Selection(chosen != [], c.buffer[..|chosen|], if inPlace then Compacted(cur, w.holdsAt) else cur)
      else if c.Selecting? || |cur| > 1 then Selection(chosen != [], chosen, cur)
      else Selection(w.holdsAt(cur[0]), c.stale, cur)
  }

  predicate Roomy(children: seq<Child>, n: nat) {
    forall k :: 0 <= k < |children| ==> children[k].Column? ==> n <= |children[k].buffer|
  }

  /** The selection before alternative `k`, as the children before it left it. */
  function Current(whens: seq<When>, children: seq<Child>, inPlace: bool, sel: seq<nat>, k: nat): (r: seq<nat>)
    requires k <= |whens| == |children| && sel != [] && Roomy(children, |sel|)
    ensures |r| == |sel|
  {
    if k == 0 then sel else Hand(whens[k - 1], Current(whens, children, inPlace, sel, k - 1), inPlace, children[k - 1]).left
  }

  function HandAll(whens: seq<When>, children: seq<Child>, inPlace: bool, sel: seq<nat>): (r: seq<Selection>)
    requires |whens| == |children| && sel != [] && Roomy(children, |sel|)
    ensures |r| == |whens|
  {
    seq(|whens|, k requires 0 <= k < |whens| => Hand(whens[k], Current(whens, children, inPlace, sel, k), inPlace, children[k]))
  }

  // ---------- When CASE is pointwise, by the kinds of its children ----------

  /** Every selected position takes its value from where pointwise CASE takes it. */
  ghost predicate IsPointwise(whens: seq<When>, children: seq<Child>, inPlace: bool, sel: seq<nat>)
    requires |whens| == |children| && sel != [] && Roomy(children, |sel|)
  {
    forall p :: p in sel ==>
      OriginOf(whens, HandAll(whens, children, inPlace, sel), Current(whens, children, inPlace, sel, |whens|), p) == PointOrigin(whens, 0, p)
  }

  /** A child goes over those of the open positions for which it holds, and over no other open one. */
  predicate Right(w: When, cur: seq<nat>, c: Child, open: set<nat>)
    requires cur != [] && (c.Column? ==> |cur| <= |c.buffer|)
  {
    if c.Nested? && Kept(c.stale, Rows(w, cur, c)) == [] then
      forall p :: p in open ==> !Holds(w, p)
    else if w.FlatWhen? then
      if w.holds then open <= Positions(cur) else c.Nested? ==> open !! Positions(cur)
    else match c
      case Nested(stale, _) => forall p :: p in open ==> (p in Kept(stale, Rows(w, cur, c)) <==> Holds(w, p))
      case Selecting => forall p :: p in open && Holds(w, p) ==> p in cur
      case Updating(stale) =>
        if |cur| > 1 then forall p :: p in open && Holds(w, p) ==> p in cur
        else if Holds(w, cur[0]) then forall p :: p in open ==> (p in stale <==> Holds(w, p))
        else forall p :: p in open ==> !Holds(w, p)
      case Column(buffer) =>
        var count := |Filter(cur, w.holdsAt)|;
        if count == 0 then forall p :: p in open ==> !Holds(w, p)
        else forall p :: p in open ==> (p in buffer[..count] <==> Holds(w, p))
  }

  lemma {:induction false} TakesExactly(w: When, s: Selection, open: set<nat>)
    ensures Here(w, open) == {} <==> forall p :: p in open ==> !Holds(w, p)
    ensures Positions(Targets(w, s)) * open == Here(w, open) <==> forall p :: p in open ==> (p in Targets(w, s) <==> Holds(w, p))
  {
    if p :| p in open && Holds(w, p) { assert p in Here(w, open); }
    assert forall p :: p in Positions(Targets(w, s)) * open <==> p in open && p in Targets(w, s);
    assert forall p :: p in Here(w, open) <==> p in open && Holds(w, p);
  }

  lemma {:induction false} RightExactly(w: When, cur: seq<nat>, inPlace: bool, c: Child, open: set<nat>)
    requires cur != [] && (c.Column? ==> |cur| <= |c.buffer|)
    ensures var s := Hand(w, cur, inPlace, c);
            Right(w, cur, c, open) <==> if s.any then Positions(Targets(w, s)) * open == Here(w, open) else Here(w, open) == {}
  {
    TakesExactly(w, Hand(w, cur, inPlace, c), open);
    if w.UnflatWhen? {
      forall p ensures p in Filter(cur, w.holdsAt) <==> p in cur && Holds(w, p) { InFilter(cur, w.holdsAt, p); }
    }
  }

  /** Each child reached goes over the right ones of the positions still open, the evaluation ends early only with
      nothing open, and in the end nothing open has left the selection. */
  predicate ChildrenFit(whens: seq<When>, children: seq<Child>, inPlace: bool, cur: seq<nat>, k: nat, open: set<nat>, filled: set<nat>)
    requires k <= |whens| == |children| && cur != [] && Roomy(children, |cur|)
    decreases |whens| - k
  {
    if k == |whens| then open <= Positions(cur)
    else
      var s, rest := Hand(whens[k], cur, inPlace, children[k]), open - Here(whens[k], open);
      var more := if s.any then filled + Positions(Targets(whens[k], s)) else filled;
      && Right(whens[k], cur, children[k], open)
      && if s.any && |more| == |cur| then rest == {} else ChildrenFit(whens, children, inPlace, s.left, k + 1, rest, more)
  }

  /** The selections handed over, and what the rows' selection is before each alternative and at the end. */
  ghost predicate Linked(whens: seq<When>, children: seq<Child>, inPlace: bool, selections: seq<Selection>, curs: seq<seq<nat>>, k: nat)
    requires k < |whens| == |children| == |selections| && |curs| == |whens| + 1
  {
    && curs[k] != [] && (children[k].Column? ==> |curs[k]| <= |children[k].buffer|)
    && selections[k] == Hand(whens[k], curs[k], inPlace, children[k]) && curs[k + 1] == selections[k].left
  }

  lemma {:induction false} RestEmpty(w: When, open: set<nat>)
    ensures open - Here(w, open) == {} <==> Here(w, open) == open
  {
    if open - Here(w, open) == {} {
      forall p | p in open ensures p in Here(w, open) { assert p !in open - Here(w, open); }
    }
  }

  lemma {:induction false} ChildrenFitFrom(whens: seq<When>, children: seq<Child>, inPlace: bool, selections: seq<Selection>,
                                           curs: seq<seq<nat>>, k: nat, open: set<nat>, filled: set<nat>)
    requires k <= |whens| == |children| == |selections| && |curs| == |whens| + 1 && curs[k] != [] && Roomy(children, |curs[k]|)
    requires forall j :: k <= j < |whens| ==> Linked(whens, children, inPlace, selections, curs, j)
    ensures ChildrenFit(whens, children, inPlace, curs[k], k, open, filled) <==>
              Fits(whens, selections, curs[|whens|], k, open, filled)
    decreases |whens| - k
  {
    if k < |whens| {
      assert Linked(whens, children, inPlace, selections, curs, k);
      var s, here := selections[k], Here(whens[k], open);
      RightExactly(whens[k], curs[k], inPlace, children[k], open);
      var more := if s.any then filled + Positions(Targets(whens[k], s)) else filled;
      RestEmpty(whens[k], open);
      if !s.any && here == {} {
        assert open - here == open;
      }
      ChildrenFitFrom(whens, children, inPlace, selections, curs, k + 1, open - here, more);
    }
  }

  ghost function Currents(whens: seq<When>, children: seq<Child>, inPlace: bool, sel: seq<nat>): (r: seq<seq<nat>>)
    requires |whens| == |children| && sel != [] && Roomy(children, |sel|)
    ensures |r| == |whens| + 1 && r[0] == sel && forall k :: 0 <= k <= |whens| ==> r[k] == Current(whens, children, inPlace, sel, k)
  {
    seq(|whens| + 1, k requires 0 <= k <= |whens| => Current(whens, children, inPlace, sel, k))
  }

  lemma {:induction false} CurrentLinked(whens: seq<When>, children: seq<Child>, inPlace: bool, sel: seq<nat>, k: nat)
    requires k < |whens| == |children| && sel != [] && Roomy(children, |sel|)
    ensures Linked(whens, children, inPlace, HandAll(whens, children, inPlace, sel), Currents(whens, children, inPlace, sel), k)
  {
  }

  /** CASE is pointwise exactly when its children fit: for children of all four kinds, whatever their selection vectors
      hold, any number of rows, filtered or not. */
  lemma {:induction false} PointwiseExactly(whens: seq<When>, children: seq<Child>, inPlace: bool, sel: seq<nat>)
    requires |whens| == |children| && sel != [] && Roomy(children, |sel|)
    ensures IsPointwise(whens, children, inPlace, sel) <==> ChildrenFit(whens, children, inPlace, sel, 0, Positions(sel), {})
  {
    var selections := HandAll(whens, children, inPlace, sel);
    var curs := Currents(whens, children, inPlace, sel);
    forall j | 0 <= j < |whens| ensures Linked(whens, children, inPlace, selections, curs, j) {
      CurrentLinked(whens, children, inPlace, sel, j);
    }
    FitsExactly(whens, selections, curs[|whens|], 0, Positions(sel), {});
    ChildrenFitFrom(whens, children, inPlace, selections, curs, 0, Positions(sel), {});
  }

  // ---------- Children as they are from the first batch on ----------

  /** What a child finds in its selection vector the next time. */
  function Next(w: When, cur: seq<nat>, c: Child): Child
    requires cur != [] && (c.Column? ==> |cur| <= |c.buffer|)
  {
    match c
    case Selecting => c
    case Updating(stale) => if w.FlatWhen? || |cur| == 1 then c else Updating(Filter(cur, w.holdsAt))
    case Column(_) => c
    case Nested(stale, beyond) => Nested(Kept(stale, Rows(w, cur, c)), beyond)
  }

  /** The vector of a column holds zeros, that of a nested CASE nothing. */
  ghost predicate Fresh(c: Child) {
    match c
    case Selecting => true
    case Updating(_) => true
    case Column(buffer) => forall i :: 0 <= i < |buffer| ==> buffer[i] == 0
    case Nested(stale, _) => stale == []
  }

  datatype Batch = Batch(when: When, cur: seq<nat>)

  ghost predicate Served(batches: seq<Batch>, c: Child) {
    forall i :: 0 <= i < |batches| ==> batches[i].cur != [] && (c.Column? ==> |batches[i].cur| <= |c.buffer|)
  }

  ghost function After(batches: seq<Batch>, c: Child): Child
    requires Served(batches, c)
    decreases |batches|
  {
    if batches == [] then c
    else
      var n := Next(batches[0].when, batches[0].cur, c);
      assert forall i :: 0 <= i < |batches[1..]| ==> batches[1..][i] == batches[i + 1];
      After(batches[1..], n)
  }

  /** No batch ever changes that. */
  lemma {:induction false} FreshForEver(batches: seq<Batch>, c: Child)
    requires Served(batches, c) && Fresh(c)
    ensures Fresh(After(batches, c))
    decreases |batches|
  {
    if batches != [] {
      var n := Next(batches[0].when, batches[0].cur, c);
      assert forall i :: 0 <= i < |batches[1..]| ==> batches[1..][i] == batches[i + 1];
      FreshForEver(batches[1..], n);
    }
  }

  // ---------- Rows whose selection nobody rewrites ----------

  /** What one row needs of one alternative that is still open for it. */
  ghost predicate Guard(w: When, c: Child, sel: seq<nat>, p: nat) {
    match c
    case Selecting => true
    case Updating(stale) => w.FlatWhen? || |sel| > 1 || !Holds(w, p) || p in stale
    case Column(_) => w.UnflatWhen? && (exists q :: q in sel && Holds(w, q)) ==> (Holds(w, p) <==> p == 0)
    case Nested(_, _) => !Holds(w, p)
  }

  /** The alternatives up to the row's first that holds. */
  ghost predicate RowFits(whens: seq<When>, children: seq<Child>, sel: seq<nat>, k: nat, p: nat)
    requires k <= |whens| == |children|
    decreases |whens| - k
  {
    k < |whens| ==> Guard(whens[k], children[k], sel, p) && (Holds(whens[k], p) || RowFits(whens, children, sel, k + 1, p))
  }

  ghost predicate RowsFit(whens: seq<When>, children: seq<Child>, sel: seq<nat>, k: nat, open: set<nat>)
    requires k <= |whens| == |children|
  {
    forall p :: p in open ==> RowFits(whens, children, sel, k, p)
  }

  /** No column that is not flat, or an unfiltered selection, which starts with position 0. */
  ghost predicate Steady(whens: seq<When>, children: seq<Child>, inPlace: bool, sel: seq<nat>)
    requires |whens| == |children|
  {
    forall k :: 0 <= k < |whens| && children[k].Column? && whens[k].UnflatWhen? ==> !inPlace && 0 in sel
  }

  lemma {:induction false} GuardsAreRight(w: When, c: Child, inPlace: bool, sel: seq<nat>, open: set<nat>)
    requires sel != [] && (c.Column? ==> |sel| <= |c.buffer|) && Fresh(c) && open <= Positions(sel)
    ensures Right(w, sel, c, open) <==> forall p :: p in open ==> Guard(w, c, sel, p)
  {
    if w.UnflatWhen? {
      FilterSome(sel, w.holdsAt);
      assert (exists q :: q in sel && Holds(w, q)) <==> (exists q :: q in sel && w.holdsAt(q));
      if c.Column? && Filter(sel, w.holdsAt) != [] {
        var zeros := c.buffer[..|Filter(sel, w.holdsAt)|];
        assert zeros[0] == 0;
        assert forall p :: p in zeros <==> p == 0;
      }
      if |sel| == 1 { assert forall p :: p in open ==> p == sel[0]; }
    }
  }

  lemma {:induction false} TargetsWithin(w: When, c: Child, inPlace: bool, sel: seq<nat>)
    requires sel != [] && (c.Column? ==> |sel| <= |c.buffer|) && Fresh(c)
    requires c.Column? && w.UnflatWhen? ==> !inPlace && 0 in sel
    requires c.Updating? && w.UnflatWhen? ==> |sel| > 1
    ensures var s := Hand(w, sel, inPlace, c); s.left == sel && (s.any ==> Positions(Targets(w, s)) <= Positions(sel))
  {
    var s := Hand(w, sel, inPlace, c);
    forall p | s.any && p in Targets(w, s) ensures p in sel {
      if w.UnflatWhen? && !c.Column? { InFilter(sel, w.holdsAt, p); }
    }
  }

  lemma {:induction false} FillsTheRest(all: set<nat>, open: set<nat>, here: set<nat>, targets: set<nat>)
    requires open <= all && targets <= all && targets * open == here
    ensures (all - open) + targets == all - (open - here)
  {
    forall p | p in targets && p in open ensures p in here { assert p in targets * open; }
    forall p | p in here ensures p in targets && p in open { assert p in targets * open; }
  }

  lemma {:induction false} CountsOut(sel: seq<nat>, rest: set<nat>)
    requires Distinct(sel) && rest <= Positions(sel)
    ensures |Positions(sel) - rest| == |sel| <==> rest == {}
  {
    PositionsCount(sel);
    if |Positions(sel) - rest| == |sel| { AllFilled(Positions(sel) - rest, Positions(sel)); }
    if rest == {} { assert Positions(sel) - rest == Positions(sel); }
  }

  /** An alternative that is right fills the selection but for what stays open. */
  lemma {:induction false} SteadyTurn(w: When, c: Child, inPlace: bool, sel: seq<nat>, open: set<nat>)
    requires |sel| > 1 && (c.Column? ==> |sel| <= |c.buffer|) && Fresh(c) && Distinct(sel) && open <= Positions(sel)
    requires c.Column? && w.UnflatWhen? ==> !inPlace && 0 in sel
    requires Right(w, sel, c, open)
    ensures var s := Hand(w, sel, inPlace, c); var rest := open - Here(w, open);
            && s.left == sel
            && (s.any ==> (Positions(sel) - open) + Positions(Targets(w, s)) == Positions(sel) - rest)
            && (!s.any ==> rest == open)
            && (|Positions(sel) - rest| == |sel| <==> rest == {})
  {
    var s, here := Hand(w, sel, inPlace, c), Here(w, open);
    RightExactly(w, sel, inPlace, c, open);
    TargetsWithin(w, c, inPlace, sel);
    if s.any { FillsTheRest(Positions(sel), open, here, Positions(Targets(w, s))); } else { assert open - here == open; }
    CountsOut(sel, open - here);
  }

  lemma {:induction false} NothingOpen(whens: seq<When>, children: seq<Child>, inPlace: bool, cur: seq<nat>, k: nat, filled: set<nat>)
    requires k <= |whens| == |children| && cur != [] && Roomy(children, |cur|)
    ensures ChildrenFit(whens, children, inPlace, cur, k, {}, filled)
    decreases |whens| - k
  {
    if k < |whens| {
      var s := Hand(whens[k], cur, inPlace, children[k]);
      assert {} - Here(whens[k], {}) == {};
      var more := if s.any then filled + Positions(Targets(whens[k], s)) else filled;
      NothingOpen(whens, children, inPlace, s.left, k + 1, more);
    }
  }

  lemma {:induction false} RowsFitNext(whens: seq<When>, children: seq<Child>, sel: seq<nat>, k: nat, open: set<nat>)
    requires k < |whens| == |children|
    ensures RowsFit(whens, children, sel, k, open) <==>
              (forall p :: p in open ==> Guard(whens[k], children[k], sel, p)) &&
              RowsFit(whens, children, sel, k + 1, open - Here(whens[k], open))
  {
    var rest := open - Here(whens[k], open);
    assert forall p :: p in rest <==> p in open && !Holds(whens[k], p);
    if RowsFit(whens, children, sel, k, open) {
      forall p | p in rest ensures RowFits(whens, children, sel, k + 1, p) { assert RowFits(whens, children, sel, k, p); }
      forall p | p in open ensures Guard(whens[k], children[k], sel, p) { assert RowFits(whens, children, sel, k, p); }
    }
  }

  lemma {:induction false} SeveralSteady(whens: seq<When>, children: seq<Child>, inPlace: bool, sel: seq<nat>, k: nat, open: set<nat>)
    requires k <= |whens| == |children| && |sel| > 1 && Distinct(sel) && Roomy(children, |sel|)
    requires Steady(whens, children, inPlace, sel) && forall j :: 0 <= j < |children| ==> Fresh(children[j])
    requires open <= Positions(sel)
    ensures ChildrenFit(whens, children, inPlace, sel, k, open, Positions(sel) - open) <==> RowsFit(whens, children, sel, k, open)
    decreases |whens| - k
  {
    if k < |whens| {
      var w, c := whens[k], children[k];
      var s, here := Hand(w, sel, inPlace, c), Here(w, open);
      RowsFitNext(whens, children, sel, k, open);
      GuardsAreRight(w, c, inPlace, sel, open);
      if Right(w, sel, c, open) {
        SteadyTurn(w, c, inPlace, sel, open);
        SeveralSteady(whens, children, inPlace, sel, k + 1, open - here);
      }
    }
  }

  lemma {:induction false} LoneSteady(whens: seq<When>, children: seq<Child>, inPlace: bool, p: nat, k: nat)
    requires k <= |whens| == |children| && Roomy(children, 1)
    requires Steady(whens, children, inPlace, [p]) && forall j :: 0 <= j < |children| ==> Fresh(children[j])
    ensures ChildrenFit(whens, children, inPlace, [p], k, {p}, {}) <==> RowFits(whens, children, [p], k, p)
    decreases |whens| - k
  {
    if k < |whens| {
      var w, c := whens[k], children[k];
      var s, here := Hand(w, [p], inPlace, c), Here(w, {p});
      GuardsAreRight(w, c, inPlace, [p], {p});
      RightExactly(w, [p], inPlace, c, {p});
      assert p in {p} && [p][0] == p;
      if Right(w, [p], c, {p}) {
        if Holds(w, p) {
          assert {p} - here == {};
          var more := if s.any then {} + Positions(Targets(w, s)) else {};
          NothingOpen(whens, children, inPlace, s.left, k + 1, more);
        } else {
          assert here == {};
          LoneSkipped(w, c, inPlace, p);
          LoneSteady(whens, children, inPlace, p, k + 1);
        }
      }
    }
  }

  /** A child that does not hold for the lone row selects nothing. */
  lemma {:induction false} LoneSkipped(w: When, c: Child, inPlace: bool, p: nat)
    requires (c.Column? ==> 1 <= |c.buffer|) && Fresh(c) && !Holds(w, p)
    requires c.Column? && w.UnflatWhen? ==> !inPlace
    ensures Hand(w, [p], inPlace, c) == Selection(false, Hand(w, [p], inPlace, c).chosen, [p])
    ensures {p} - Here(w, {p}) == {p}
  {
    if w.UnflatWhen? { FilterSome([p], w.holdsAt); }
    assert [p][0] == p;
  }

  /** When nobody rewrites the selection and the vectors are as from the first batch on, CASE is pointwise exactly when
      every row gets past its alternatives: no nested CASE holds for it, a column holds for it exactly if it is row 0,
      or for no row at all, and a lone row is in the old vector of the function that holds for it. */
  lemma {:induction false} SteadyExactly(whens: seq<When>, children: seq<Child>, inPlace: bool, sel: seq<nat>)
    requires |whens| == |children| && sel != [] && Distinct(sel) && Roomy(children, |sel|)
    requires Steady(whens, children, inPlace, sel) && forall j :: 0 <= j < |children| ==> Fresh(children[j])
    ensures IsPointwise(whens, children, inPlace, sel) <==> forall p :: p in sel ==> RowFits(whens, children, sel, 0, p)
  {
    PointwiseExactly(whens, children, inPlace, sel);
    if |sel| > 1 {
      assert Positions(sel) - Positions(sel) == {};
      SeveralSteady(whens, children, inPlace, sel, 0, Positions(sel));
    } else {
      var p := sel[0];
      assert sel == [p] && Positions(sel) == {p};
      LoneSteady(whens, children, inPlace, p, 0);
    }
  }

  // ---------- One column, one CASE ----------

  /** CASE WHEN column THEN ... ELSE ... over unfiltered rows is pointwise exactly when the column is true at no row but row 0. */
  lemma {:induction false} ColumnExactly(holds: nat -> bool, buffer: seq<nat>, sel: seq<nat>)
    requires Distinct(sel) && 0 in sel && |sel| <= |buffer| && Fresh(Column(buffer))
    ensures IsPointwise([UnflatWhen(holds)], [Column(buffer)], false, sel) <==> forall p :: p in sel && holds(p) ==> p == 0
  {
    var whens, children := [UnflatWhen(holds)], [Column(buffer)];
    SteadyExactly(whens, children, false, sel);
    forall p | p in sel ensures RowFits(whens, children, sel, 0, p) <==> Guard(whens[0], children[0], sel, p) { }
    assert forall p :: Holds(whens[0], p) == holds(p);
  }

  /** CASE WHEN (CASE ...) is pointwise exactly when the inner CASE is true nowhere. */
  lemma {:induction false} NestedExactly(w: When, beyond: nat -> bool, inPlace: bool, sel: seq<nat>)
    requires Distinct(sel) && sel != []
    ensures IsPointwise([w], [Nested([], beyond)], inPlace, sel) <==> forall p :: p in sel ==> !Holds(w, p)
  {
    var whens, children := [w], [Nested([], beyond)];
    SteadyExactly(whens, children, inPlace, sel);
    forall p | p in sel ensures RowFits(whens, children, sel, 0, p) <==> !Holds(w, p) { }
  }

  lemma {:induction false} FilterOne(sel: seq<nat>, holds: nat -> bool, t: nat)
    requires t < |sel| && forall i :: 0 <= i < |sel| ==> (holds(sel[i]) <==> i == t)
    ensures Filter(sel, holds) == [sel[t]]
    decreases |sel|
  {
    var n := |sel| - 1;
    if t < n { FilterOne(sel[..n], holds, t); } else { FilterNone(sel[..n], holds); }
  }

  lemma {:induction false} FilterNone(sel: seq<nat>, holds: nat -> bool)
    requires forall i :: 0 <= i < |sel| ==> !holds(sel[i])
    ensures Filter(sel, holds) == []
    decreases |sel|
  {
    if sel != [] { FilterNone(sel[..|sel| - 1], holds); }
  }

  /** With no true row, the last one takes the place of the first. */
  lemma {:induction false} CompactedNone(sel: seq<nat>, holds: nat -> bool)
    requires sel != [] && Distinct(sel) && forall i :: 0 <= i < |sel| ==> !holds(sel[i])
    ensures Positions(sel) <= Positions(Compacted(sel, holds)) <==> |sel| == 1
  {
    FilterNone(sel, holds);
    forall j | 0 <= j < |sel| ensures Compacted(sel, holds)[j] == if j == 0 then sel[|sel| - 1] else sel[j] {
      OverwrittenAt(sel, sel, holds, j);
    }
    if |sel| > 1 { assert sel[0] in Positions(sel) && sel[0] !in Compacted(sel, holds); } else { assert Compacted(sel, holds) == sel; }
  }

  /** With one true row, no other row is lost exactly when it is the first of at most two. */
  lemma {:induction false} CompactedOne(sel: seq<nat>, holds: nat -> bool, t: nat)
    requires t < |sel| && Distinct(sel) && forall i :: 0 <= i < |sel| ==> (holds(sel[i]) <==> i == t)
    ensures Positions(sel) - {sel[t]} <= Positions(Compacted(sel, holds)) <==> t == 0 && |sel| <= 2
  {
    var n, after := |sel|, Compacted(sel, holds);
    FilterOne(sel, holds, t);
    forall j | 0 <= j < n ensures after[j] == if j == 0 then sel[t] else if j == 1 && t < n - 1 then sel[n - 1] else sel[j] {
      OverwrittenAt(sel, sel, holds, j);
    }
    if t > 0 {
      assert sel[0] in Positions(sel) - {sel[t]} && sel[0] !in after;
    } else if n > 2 {
      assert sel[1] in Positions(sel) - {sel[t]} && sel[1] !in after;
    } else {
      assert after == sel;
    }
  }

  lemma {:induction false} OneFits(w: When, c: Child, inPlace: bool, sel: seq<nat>)
    requires sel != [] && (c.Column? ==> |sel| <= |c.buffer|)
    ensures var s, rest := Hand(w, sel, inPlace, c), Positions(sel) - Here(w, Positions(sel));
            IsPointwise([w], [c], inPlace, sel) <==>
              && Right(w, sel, c, Positions(sel))
              && if s.any && |Positions(Targets(w, s))| == |sel| then rest == {} else rest <= Positions(s.left)
  {
    var s := Hand(w, sel, inPlace, c);
    PointwiseExactly([w], [c], inPlace, sel);
    assert {} + Positions(Targets(w, s)) == Positions(Targets(w, s));
  }

  lemma {:induction false} ColumnNowhere(holds: nat -> bool, buffer: seq<nat>, sel: seq<nat>)
    requires sel != [] && Distinct(sel) && |sel| <= |buffer| && forall i :: 0 <= i < |sel| ==> !holds(sel[i])
    ensures IsPointwise([UnflatWhen(holds)], [Column(buffer)], true, sel) <==> |sel| == 1
  {
    var w, all := UnflatWhen(holds), Positions(sel);
    OneFits(w, Column(buffer), true, sel);
    FilterNone(sel, holds);
    assert Here(w, all) == {} && all - {} == all;
    CompactedNone(sel, holds);
  }

  lemma {:induction false} ColumnOnce(holds: nat -> bool, buffer: seq<nat>, sel: seq<nat>, t: nat)
    requires Distinct(sel) && |sel| <= |buffer| && Fresh(Column(buffer))
    requires t < |sel| && sel[t] == 0 && forall i :: 0 <= i < |sel| ==> (holds(sel[i]) <==> i == t)
    ensures IsPointwise([UnflatWhen(holds)], [Column(buffer)], true, sel) <==> t == 0 && |sel| <= 2
  {
    var w, all, c := UnflatWhen(holds), Positions(sel), Column(buffer);
    OneFits(w, c, true, sel);
    FilterOne(sel, holds, t);
    assert buffer[..1] == [0];
    assert Right(w, sel, c, all);
    assert Here(w, all) == {0} by { assert sel[t] in sel; }
    assert Positions([0]) == {0};
    CompactedOne(sel, holds, t);
    if |sel| == 1 { assert all == {0}; }
  }

  lemma {:induction false} ColumnElsewhere(holds: nat -> bool, buffer: seq<nat>, inPlace: bool, sel: seq<nat>, p: nat)
    requires |sel| <= |buffer| && Fresh(Column(buffer)) && p in sel && holds(p) && p != 0
    ensures !IsPointwise([UnflatWhen(holds)], [Column(buffer)], inPlace, sel)
  {
    OneFits(UnflatWhen(holds), Column(buffer), inPlace, sel);
    InFilter(sel, holds, p);
    assert p in Positions(sel) && Holds(UnflatWhen(holds), p);
  }

  /** Over filtered rows the column rewrites the selection as well: CASE is pointwise exactly for a lone row, not true
      unless it is row 0, and for two rows of which the first is row 0 and alone is true. */
  lemma {:induction false} FilteredColumnExactly(holds: nat -> bool, buffer: seq<nat>, sel: seq<nat>)
    requires sel != [] && Distinct(sel) && |sel| <= |buffer| && Fresh(Column(buffer))
    ensures IsPointwise([UnflatWhen(holds)], [Column(buffer)], true, sel) <==>
              || (|sel| == 1 && (holds(sel[0]) ==> sel[0] == 0))
              || (|sel| == 2 && sel[0] == 0 && holds(0) && !holds(sel[1]))
  {
    if t :| 0 <= t < |sel| && holds(sel[t]) && sel[t] != 0 {
      ColumnElsewhere(holds, buffer, true, sel, sel[t]);
    } else if t :| 0 <= t < |sel| && holds(sel[t]) {
      forall i | 0 <= i < |sel| ensures holds(sel[i]) <==> i == t { }
      ColumnOnce(holds, buffer, sel, t);
    } else {
      ColumnNowhere(holds, buffer, sel);
    }
  }

  // ---------- Inputs for which CASE is not pointwise ----------

  /** One row of several is true in the column: row 0 gets THEN, and that row gets ELSE. */
  lemma {:induction false} ColumnTakesRowZero(n: nat, p: nat, holds: nat -> bool, buffer: seq<nat>)
    requires 0 < p < n <= |buffer| && Fresh(Column(buffer)) && forall q :: 0 <= q < n ==> (holds(q) <==> q == p)
    ensures var whens, children, sel := [UnflatWhen(holds)], [Column(buffer)], Range(n);
            var selections, last := HandAll(whens, children, false, sel), Current(whens, children, false, sel, 1);
            && OriginOf(whens, selections, last, 0) == From(0) && PointOrigin(whens, 0, 0) == Else
            && OriginOf(whens, selections, last, p) == Else && PointOrigin(whens, 0, p) == From(0)
  {
    var whens, children, sel := [UnflatWhen(holds)], [Column(buffer)], Range(n);
    var selections, last := HandAll(whens, children, false, sel), Current(whens, children, false, sel, 1);
    FilterOne(sel, holds, p);
    assert buffer[..1] == [0] && Current(whens, children, false, sel, 0) == sel;
    assert selections[0] == Selection(true, [0], sel) && last == sel;
    assert {} + Positions([0]) == {0};
    assert sel[p] == p && OriginFrom(whens, selections, last, 1, {0}, p) == Else;
  }

  /** The second of two filtered rows is true: the selection becomes that row twice, and the first row gets no value. */
  lemma {:induction false} FilteredColumnLosesARow(p: nat, q: nat, holds: nat -> bool, buffer: seq<nat>)
    requires p > 0 && q > 0 && p != q && !holds(p) && holds(q) && 2 <= |buffer| && Fresh(Column(buffer))
    ensures Compacted([p, q], holds) == [q, q]
    ensures var whens, children := [UnflatWhen(holds)], [Column(buffer)];
            var selections, last := HandAll(whens, children, true, [p, q]), Current(whens, children, true, [p, q], 1);
            && OriginOf(whens, selections, last, p) == Untouched && PointOrigin(whens, 0, p) == Else
            && OriginOf(whens, selections, last, q) == Else && PointOrigin(whens, 0, q) == From(0)
  {
    var whens, children, sel := [UnflatWhen(holds)], [Column(buffer)], [p, q];
    var selections, last := HandAll(whens, children, true, sel), Current(whens, children, true, sel, 1);
    FilterOne(sel, holds, 1);
    OverwrittenAt(sel, sel, holds, 0);
    OverwrittenAt(sel, sel, holds, 1);
    assert Compacted(sel, holds) == [q, q];
    assert buffer[..1] == [0] && Current(whens, children, true, sel, 0) == sel;
    assert selections[0] == Selection(true, [0], [q, q]) && last == [q, q];
    assert {} + Positions([0]) == {0};
    assert OriginFrom(whens, selections, last, 1, {0}, p) == Untouched && OriginFrom(whens, selections, last, 1, {0}, q) == Else;
  }

  /** A lone row after a batch without hits gets ELSE although its WHEN holds. */
  lemma {:induction false} LoneRowFallsThrough(p: nat, holds: nat -> bool)
    requires holds(p)
    ensures var whens, children := [UnflatWhen(holds)], [Updating([])];
            && OriginOf(whens, HandAll(whens, children, false, [p]), Current(whens, children, false, [p], 1), p) == Else
            && PointOrigin(whens, 0, p) == From(0)
  {
    var whens, children := [UnflatWhen(holds)], [Updating([])];
    var selections, last := HandAll(whens, children, false, [p]), Current(whens, children, false, [p], 1);
    assert Current(whens, children, false, [p], 0) == [p];
    assert selections[0] == Selection(true, [], [p]) && last == [p];
    assert OriginFrom(whens, selections, last, 1, {} + Positions([]), p) == Else;
  }

  /** A lone row after a batch with one hit elsewhere keeps its old value, and the other row is written. */
  lemma {:induction false} LoneRowWritesElsewhere(p: nat, q: nat, holds: nat -> bool)
    requires holds(p) && p != q
    ensures var whens, children := [UnflatWhen(holds)], [Updating([q])];
            var selections, last := HandAll(whens, children, false, [p]), Current(whens, children, false, [p], 1);
            && OriginOf(whens, selections, last, p) == Untouched && PointOrigin(whens, 0, p) == From(0)
            && OriginOf(whens, selections, last, q) == From(0)
  {
    var whens, children := [UnflatWhen(holds)], [Updating([q])];
    var selections := HandAll(whens, children, false, [p]);
    assert Current(whens, children, false, [p], 0) == [p];
    assert selections[0] == Selection(true, [q], [p]);
    assert {} + Positions([q]) == {q};
  }
}
