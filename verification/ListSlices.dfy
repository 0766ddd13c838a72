/**
 Slicing list data for lambda evaluation: a tracker walks the elements of the selected lists in the
 order of their offsets, and the evaluator takes them in slices of the vector capacity.
 */
module ListSlices {

  import opened Basics

  datatype Entry = Entry(isNull: bool, offset: nat, size: nat)

  /** An element: the position of its list and its place in the data vector. */
  datatype Element = Element(list: nat, data: nat)

  // ---------- What there is to enumerate ----------

  function Shown(e: Entry): nat {
    if e.isNull then 0 else e.size
  }

  /** The elements of one list from a place on. */
  function Elements(e: Entry, pos: nat, from: nat): seq<Element>
    requires from <= Shown(e)
    decreases Shown(e) - from
  {
    if from == Shown(e) then [] else [Element(pos, e.offset + from)] + Elements(e, pos, from + 1)
  }

  /** The elements of the lists of a selection, list by list. */
  function Enumerated(lists: seq<Entry>, order: seq<nat>): seq<Element>
    requires Within(order, |lists|)
  {
    if order == [] then [] else Elements(lists[order[0]], order[0], 0) + Enumerated(lists, order[1..])
  }

  ghost predicate Belongs(lists: seq<Entry>, x: Element) {
    x.list < |lists| && !lists[x.list].isNull && lists[x.list].offset <= x.data < lists[x.list].offset + lists[x.list].size
  }

  lemma {:induction false} InElements(e: Entry, pos: nat, from: nat, x: Element)
    requires from <= Shown(e)
    ensures x in Elements(e, pos, from) <==> x.list == pos && e.offset + from <= x.data < e.offset + Shown(e)
    decreases Shown(e) - from
  {
    if from < Shown(e) { InElements(e, pos, from + 1, x); }
  }

  lemma {:induction false} ElementsDistinct(e: Entry, pos: nat, from: nat)
    requires from <= Shown(e)
    ensures Distinct(Elements(e, pos, from))
    decreases Shown(e) - from
  {
    if from < Shown(e) {
      ElementsDistinct(e, pos, from + 1);
      InElements(e, pos, from + 1, Element(pos, e.offset + from));
    }
  }

  /** Every element of every selected list that is not null is enumerated, and nothing else is. */
  lemma {:induction false} InEnumerated(lists: seq<Entry>, order: seq<nat>, x: Element)
    requires Within(order, |lists|)
    ensures x in Enumerated(lists, order) <==> x.list in order && Belongs(lists, x)
    decreases |order|
  {
    if order != [] {
      InElements(lists[order[0]], order[0], 0, x);
      InEnumerated(lists, order[1..], x);
      assert x.list in order <==> x.list == order[0] || x.list in order[1..];
    }
  }

  lemma {:induction false} DistinctParts(a: seq<Element>, b: seq<Element>)
    requires Distinct(a) && Distinct(b) && forall x :: x in a ==> x !in b
    ensures Distinct(a + b)
  {
    var s := a + b;
    forall i, j | 0 <= i < j < |s| ensures s[i] != s[j] {
      if i < |a| <= j { assert s[i] in a && s[j] in b; }
    }
  }

  /** And only once, when no list is selected twice. */
  lemma {:induction false} EnumeratedOnce(lists: seq<Entry>, order: seq<nat>)
    requires Within(order, |lists|) && Distinct(order)
    ensures Distinct(Enumerated(lists, order))
    decreases |order|
  {
    if order != [] {
      var first := Elements(lists[order[0]], order[0], 0);
      ElementsDistinct(lists[order[0]], order[0], 0);
      EnumeratedOnce(lists, order[1..]);
      forall x | x in first ensures x !in Enumerated(lists, order[1..]) {
        InElements(lists[order[0]], order[0], 0, x);
        InEnumerated(lists, order[1..], x);
      }
      DistinctParts(first, Enumerated(lists, order[1..]));
    }
  }

  // ---------- The order of the lists ----------

  ghost predicate ByOffset(lists: seq<Entry>, order: seq<nat>) {
    Within(order, |lists|) && forall i, j :: 0 <= i < j < |order| ==> lists[order[i]].offset <= lists[order[j]].offset
  }

  /** Puts one position into its place. */
  method Insert(lists: seq<Entry>, order: seq<nat>, p: nat) returns (r: seq<nat>)
    requires ByOffset(lists, order) && p < |lists|
    ensures ByOffset(lists, r) && multiset(r) == multiset(order) + multiset{p}
  {
    var k: nat := |order|;
    while k > 0 && lists[p].offset < lists[order[k - 1]].offset
      invariant k <= |order| && forall j :: k <= j < |order| ==> lists[p].offset < lists[order[j]].offset
    {
      k := k - 1;
    }
    r := order[..k] + [p] + order[k..];
    InsertedSorted(lists, order, k, p);
    assert order == order[..k] + order[k..];
  }

  lemma {:induction false} InsertedSorted(lists: seq<Entry>, order: seq<nat>, k: nat, p: nat)
    requires ByOffset(lists, order) && p < |lists| && k <= |order|
    requires k > 0 ==> lists[order[k - 1]].offset <= lists[p].offset
    requires forall j :: k <= j < |order| ==> lists[p].offset < lists[order[j]].offset
    ensures ByOffset(lists, order[..k] + [p] + order[k..])
  {
    var r := order[..k] + [p] + order[k..];
    forall j | 0 <= j < k ensures lists[order[j]].offset <= lists[p].offset {
      assert j == k - 1 || lists[order[j]].offset <= lists[order[k - 1]].offset;
    }
    forall i, j | 0 <= i < j < |r| ensures lists[r[i]].offset <= lists[r[j]].offset {
      assert r[j] == if j < k then order[j] else if j == k then p else order[j - 1];
      assert r[i] == if i < k then order[i] else if i == k then p else order[i - 1];
    }
  }

  /** The selected positions sorted by the offset of their lists. */
  method SortByOffset(lists: seq<Entry>, sel: seq<nat>) returns (order: seq<nat>)
    requires Within(sel, |lists|)
    ensures ByOffset(lists, order) && multiset(order) == multiset(sel)
  {
    order := [];
    for k := 0 to |sel|
      invariant ByOffset(lists, order) && multiset(order) == multiset(sel[..k])
    {
      order := Insert(lists, order, sel[k]);
      assert sel[..k + 1] == sel[..k] + [sel[k]];
    }
    assert sel[..|sel|] == sel;
  }

  lemma {:induction false} OnceEach(s: seq<nat>, x: nat)
    requires Distinct(s)
    ensures multiset(s)[x] <= 1
    decreases |s|
  {
    if s != [] {
      var n := |s| - 1;
      OnceEach(s[..n], x);
      assert s == s[..n] + [s[n]];
      assert s[n] !in s[..n];
    }
  }

  lemma {:induction false} TwiceSome(s: seq<nat>, i: nat, j: nat)
    requires i < j < |s| && s[i] == s[j]
    ensures multiset(s)[s[i]] >= 2
  {
    assert s == s[..j] + [s[j]] + s[j + 1..];
    assert s[i] in s[..j];
  }

  lemma {:induction false} SortedDistinct(sel: seq<nat>, order: seq<nat>)
    requires Distinct(sel) && multiset(order) == multiset(sel)
    ensures Distinct(order) && forall x :: x in order <==> x in sel
  {
    forall i, j | 0 <= i < j < |order| ensures order[i] != order[j] {
      if order[i] == order[j] { TwiceSome(order, i, j); OnceEach(sel, order[i]); }
    }
    forall x ensures x in order <==> x in sel { assert x in multiset(order) <==> x in multiset(sel); }
  }

  /** Sorted or not, the enumeration has every element of every selected list exactly once. */
  lemma {:induction false} ExactEnumeration(lists: seq<Entry>, sel: seq<nat>, order: seq<nat>)
    requires Within(order, |lists|) && Distinct(sel) && multiset(order) == multiset(sel)
    ensures Distinct(Enumerated(lists, order))
    ensures forall x :: x in Enumerated(lists, order) <==> x.list in sel && Belongs(lists, x)
  {
    SortedDistinct(sel, order);
    EnumeratedOnce(lists, order);
    forall x ensures x in Enumerated(lists, order) <==> x.list in sel && Belongs(lists, x) { InEnumerated(lists, order, x); }
  }

  // ---------- The tracker ----------

  /** What a tracker that stands at an element has still to show. */
  function Remaining(lists: seq<Entry>, order: seq<nat>, index: nat, offset: nat): seq<Element>
    requires Within(order, |lists|) && (index < |order| ==> offset <= Shown(lists[order[index]]))
  {
    if index >= |order| then []
    else Elements(lists[order[index]], order[index], offset) + Enumerated(lists, order[index + 1..])
  }

  lemma {:induction false} RemainingFromList(lists: seq<Entry>, order: seq<nat>, index: nat)
    requires Within(order, |lists|) && index <= |order|
    ensures Remaining(lists, order, index, 0) == Enumerated(lists, order[index..])
  {
    if index < |order| { assert order[index..][1..] == order[index + 1..]; }
  }

  class ListEntryTracker {
    const lists: seq<Entry>
    const order: seq<nat>
    var index: nat
    var offset: nat

    /** The tracker stands at an element or is done. */
    ghost predicate Valid()
      reads this
    {
      Within(order, |lists|) && index <= |order| && (index < |order| ==> offset < Shown(lists[order[index]]))
    }

    ghost function Rest(): seq<Element>
      requires Valid()
      reads this
    {
      Remaining(lists, order, index, offset)
    }

    constructor (lists: seq<Entry>, sel: seq<nat>)
      requires Within(sel, |lists|)
      ensures Valid() && this.lists == lists && ByOffset(lists, order) && multiset(order) == multiset(sel)
      ensures Rest() == Enumerated(lists, order)
    {
      var sorted := SortByOffset(lists, sel);
      this.lists, order, index, offset := lists, sorted, 0, 0;
      new;
      SkipEmpty();
      assert sorted[0..] == sorted;
    }

    predicate Done()
      reads this
    {
      index >= |order|
    }

    /** `updateListEntry`: past the null and the empty lists. */
    method SkipEmpty()
      requires Within(order, |lists|) && index <= |order| && offset == 0
      modifies `index
      ensures Valid() && Rest() == Enumerated(lists, order[old(index)..])
    {
      while index < |order| && !(!lists[order[index]].isNull && lists[order[index]].size > 0)
        invariant index <= |order|
        invariant Enumerated(lists, order[index..]) == Enumerated(lists, order[old(index)..])
      {
        assert order[index..][1..] == order[index + 1..];
        index := index + 1;
      }
      RemainingFromList(lists, order, index);
    }

    /** `getNextDataOffset` */
    method Next()
      requires Valid() && !Done()
      modifies this
      ensures Valid() && old(Rest()) == [Element(order[old(index)], lists[order[old(index)]].offset + old(offset))] + Rest()
    {
      ghost var e := lists[order[index]];
      assert Elements(e, order[index], offset) == [Element(order[index], e.offset + offset)] + Elements(e, order[index], offset + 1);
      offset := offset + 1;
      if offset >= lists[order[index]].size {
        index := index + 1;
        offset := 0;
        SkipEmpty();
      }
    }
  }

  // ---------- Slices ----------

  ghost predicate Splits(whole: seq<Element>, taken: seq<Element>, rest: seq<Element>) {
    whole == taken + rest
  }

  lemma {:induction false} TakeNext(whole: seq<Element>, taken: seq<Element>, rest: seq<Element>, x: Element, left: seq<Element>)
    requires Splits(whole, taken, rest) && rest == [x] + left
    ensures Splits(whole, taken + [x], left)
  {
  }

  lemma {:induction false} TakeAll(whole: seq<Element>, taken: seq<Element>, rest: seq<Element>, slice: seq<Element>, left: seq<Element>)
    requires Splits(whole, taken, rest) && Splits(rest, slice, left)
    ensures Splits(whole, taken + slice, left)
  {
  }

  /** One element into a slice. */
  method TakeElement(tracker: ListEntryTracker, ghost whole: seq<Element>, slice: seq<Element>) returns (longer: seq<Element>)
    requires tracker.Valid() && !tracker.Done() && Splits(whole, slice, tracker.Rest())
    modifies tracker
    ensures tracker.Valid() && Splits(whole, longer, tracker.Rest()) && |longer| == |slice| + 1
  {
    var pos := tracker.order[tracker.index];
    var x := Element(pos, tracker.lists[pos].offset + tracker.offset);
    ghost var rest := tracker.Rest();
    tracker.Next();
    TakeNext(whole, slice, rest, x, tracker.Rest());
    longer := slice + [x];
  }

  /** `updateSelVector`: the next elements, as many as a vector holds. */
  method NextSlice(tracker: ListEntryTracker, capacity: nat) returns (slice: seq<Element>)
    requires tracker.Valid()
    modifies tracker
    ensures tracker.Valid() && Splits(old(tracker.Rest()), slice, tracker.Rest())
    ensures |slice| <= capacity && (|slice| < capacity ==> tracker.Done())
  {
    slice := [];
    ghost var whole := tracker.Rest();
    while !tracker.Done() && |slice| < capacity
      invariant tracker.Valid() && |slice| <= capacity && Splits(whole, slice, tracker.Rest())
      decreases capacity - |slice|
    {
      slice := TakeElement(tracker, whole, slice);
    }
  }

  function Concat(slices: seq<seq<Element>>): seq<Element> {
    if slices == [] then [] else Concat(slices[..|slices| - 1]) + slices[|slices| - 1]
  }

  /** Every slice but the last is full, and only a lone slice is empty. */
  ghost predicate Cut(slices: seq<seq<Element>>, capacity: nat) {
    && |slices| > 0 && |slices[|slices| - 1]| <= capacity
    && (forall k :: 0 <= k < |slices| - 1 ==> |slices[k]| == capacity)
    && (|slices| > 1 ==> slices[|slices| - 1] != [])
  }

  lemma {:induction false} CutThen(slices: seq<seq<Element>>, slice: seq<Element>, capacity: nat)
    requires Cut(slices, capacity) && |slices[|slices| - 1]| == capacity && 0 < |slice| <= capacity
    ensures Cut(slices + [slice], capacity)
  {
  }

  /** `evaluateInternal`: the slices of one evaluation, in order, make up the enumeration. */
  method Evaluate(lists: seq<Entry>, sel: seq<nat>, capacity: nat) returns (slices: seq<seq<Element>>, order: seq<nat>)
    requires Within(sel, |lists|) && capacity > 0
    ensures ByOffset(lists, order) && multiset(order) == multiset(sel)
    ensures Concat(slices) == Enumerated(lists, order) && Cut(slices, capacity)
  {
    var tracker := new ListEntryTracker(lists, sel);
    order := tracker.order;
    ghost var whole := tracker.Rest();
    var slice := NextSlice(tracker, capacity);
    slices := [slice];
    ConcatThen([], slice);
    while !tracker.Done()
      invariant tracker.Valid() && fresh(tracker) && tracker.lists == lists && tracker.order == order
      invariant Splits(whole, Concat(slices), tracker.Rest()) && Cut(slices, capacity)
      invariant !tracker.Done() ==> |slices[|slices| - 1]| == capacity
      decreases |tracker.Rest()|
    {
      slices := TakeSlice(tracker, capacity, whole, slices);
    }
  }

  /** One more slice. */
  method TakeSlice(tracker: ListEntryTracker, capacity: nat, ghost whole: seq<Element>, slices: seq<seq<Element>>)
    returns (more: seq<seq<Element>>)
    requires tracker.Valid() && !tracker.Done() && capacity > 0 && Splits(whole, Concat(slices), tracker.Rest())
    requires Cut(slices, capacity) && |slices[|slices| - 1]| == capacity
    modifies tracker
    ensures tracker.Valid() && Splits(whole, Concat(more), tracker.Rest()) && Cut(more, capacity)
    ensures |tracker.Rest()| < |old(tracker.Rest())| && (!tracker.Done() ==> |more[|more| - 1]| == capacity)
  {
    ghost var rest := tracker.Rest();
    RestNotEmpty(tracker.lists, tracker.order, tracker.index, tracker.offset);
    var slice := NextSlice(tracker, capacity);
    TakeAll(whole, Concat(slices), rest, slice, tracker.Rest());
    ConcatThen(slices, slice);
    NotEmpty(rest, slice, tracker.Rest(), capacity, tracker.Done());
    CutThen(slices, slice, capacity);
    more := slices + [slice];
  }

  lemma {:induction false} ConcatThen(slices: seq<seq<Element>>, slice: seq<Element>)
    ensures Concat(slices + [slice]) == Concat(slices) + slice
  {
    assert (slices + [slice])[..|slices|] == slices;
  }

  lemma {:induction false} NotEmpty(rest: seq<Element>, slice: seq<Element>, left: seq<Element>, capacity: nat, done: bool)
    requires rest != [] && capacity > 0 && Splits(rest, slice, left) && (|slice| < capacity ==> done) && (done ==> left == [])
    ensures slice != [] && |left| < |rest|
  {
  }

  lemma {:induction false} RestNotEmpty(lists: seq<Entry>, order: seq<nat>, index: nat, offset: nat)
    requires Within(order, |lists|) && index < |order| && offset < Shown(lists[order[index]])
    ensures Remaining(lists, order, index, offset) != []
  {
  }
}
