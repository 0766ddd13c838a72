/**
 Ownership of cards: faces, rebalanced versions and versions of one exact printing form a family, a
 family is owned as often as its most owned member, and a name as often as its families together.
 */
module Ownership {

  import opened Basics
  import opened UnionFind

  datatype Text = Text(chars: string)

  /** `edition` and `number` are None where the row lacks them or holds an empty value. */
  datatype Card = Card(id: nat, faces: seq<nat>, rebalancedId: Option<nat>, name: Text, edition: Option<Text>,
                       number: Option<Text>, primary: bool, rebalanced: bool, token: bool, owned: int)

  datatype Key = Key(name: Text, edition: Text, number: Text)

  /** Unicode normalisation of names and case folding of edition codes. */
  datatype Norms = Norms(name: Text -> Text, edition: Text -> Text)

  datatype Info = Info(family: nat, canonical: Text, normalized: Text, quantity: int, total: int)

  // ---------- The edges ----------

  function Ids(cards: seq<Card>): set<nat> {
    set k | 0 <= k < |cards| :: cards[k].id
  }

  /** The identifiers a card names: its linked faces, then its rebalanced version. */
  function Links(c: Card): seq<nat> {
    c.faces + if c.rebalancedId.Some? then [c.rebalancedId.value] else []
  }

  ghost predicate FaceEdge(cards: seq<Card>, n: nat, e: Edge)
    requires n <= |cards|
  {
    e.to in Ids(cards) && exists k :: 0 <= k < n && cards[k].id == e.from && e.to in Links(cards[k])
  }

  function PrintingKey(norms: Norms, c: Card): Option<Key> {
    if c.edition.None? || c.number.None? then None
    else Some(Key(norms.name(c.name), norms.edition(c.edition.value), c.number.value))
  }

  predicate Original(norms: Norms, c: Card, key: Key) {
    c.primary && !c.rebalanced && !c.token && PrintingKey(norms, c) == Some(key)
  }

  /** The row at `k` is the only original front of the printing. */
  ghost predicate Sole(norms: Norms, cards: seq<Card>, k: nat, key: Key)
    requires k < |cards|
  {
    Original(norms, cards[k], key) && forall j :: 0 <= j < |cards| && Original(norms, cards[j], key) ==> j == k
  }

  ghost predicate PrintEdgeAt(norms: Norms, cards: seq<Card>, c: Card, e: Edge) {
    && c.rebalanced && !c.token && c.id == e.from && PrintingKey(norms, c).Some?
    && exists k :: 0 <= k < |cards| && cards[k].id == e.to && Sole(norms, cards, k, PrintingKey(norms, c).value)
  }

  ghost predicate PrintEdge(norms: Norms, cards: seq<Card>, n: nat, e: Edge)
    requires n <= |cards|
  {
    exists k :: 0 <= k < n && PrintEdgeAt(norms, cards, cards[k], e)
  }

  /** An edge joins linked faces and rebalances, or versions of an unambiguous printing. */
  ghost predicate IsEdge(norms: Norms, cards: seq<Card>, e: Edge) {
    FaceEdge(cards, |cards|, e) || PrintEdge(norms, cards, |cards|, e)
  }

  ghost predicate EdgesOf(norms: Norms, cards: seq<Card>, edges: set<Edge>) {
    forall e :: e in edges <==> IsEdge(norms, cards, e)
  }

  /** Both rows name a printing, and it is the same: name, edition and number, never the name alone. */
  ghost predicate SamePrinting(norms: Norms, c: Card, d: Card) {
    && c.edition.Some? && d.edition.Some? && norms.edition(c.edition.value) == norms.edition(d.edition.value)
    && c.number.Some? && d.number == c.number && norms.name(c.name) == norms.name(d.name)
  }

  ghost predicate OriginalFront(c: Card) {
    c.primary && !c.rebalanced && !c.token
  }

  ghost predicate LinksTo(c: Card, e: Edge) {
    c.id == e.from && (e.to in c.faces || c.rebalancedId == Some(e.to))
  }

  /** A rebalanced card, and the one row that is an original front of its printing. */
  ghost predicate RebalanceOf(norms: Norms, cards: seq<Card>, i: nat, k: nat)
    requires i < |cards| && k < |cards|
  {
    && cards[i].rebalanced && !cards[i].token && OriginalFront(cards[k]) && SamePrinting(norms, cards[i], cards[k])
    && forall j :: 0 <= j < |cards| && OriginalFront(cards[j]) && SamePrinting(norms, cards[i], cards[j]) ==> j == k
  }

  /** Two identifiers are joined exactly when a row of the one names the other, a known card, as a face or as its rebalanced
      version, or is rebalanced and the other's row is the only original front of the same printing. */
  lemma {:induction false} EdgeExactly(norms: Norms, cards: seq<Card>, e: Edge)
    ensures IsEdge(norms, cards, e) <==>
              || (e.to in Ids(cards) && exists k :: 0 <= k < |cards| && LinksTo(cards[k], e))
              || (exists i, k :: 0 <= i < |cards| && 0 <= k < |cards| && cards[i].id == e.from && cards[k].id == e.to &&
                                 RebalanceOf(norms, cards, i, k))
  {
    forall k | 0 <= k < |cards| ensures LinksTo(cards[k], e) <==> cards[k].id == e.from && e.to in Links(cards[k]) { }
    forall i, k | 0 <= i < |cards| && 0 <= k < |cards|
      ensures RebalanceOf(norms, cards, i, k) <==>
                && cards[i].rebalanced && !cards[i].token && PrintingKey(norms, cards[i]).Some?
                && Sole(norms, cards, k, PrintingKey(norms, cards[i]).value)
    {
      SoleIsRebalance(norms, cards, i, k);
    }
  }

  lemma {:induction false} SoleIsRebalance(norms: Norms, cards: seq<Card>, i: nat, k: nat)
    requires i < |cards| && k < |cards|
    ensures RebalanceOf(norms, cards, i, k) <==>
              && cards[i].rebalanced && !cards[i].token && PrintingKey(norms, cards[i]).Some?
              && Sole(norms, cards, k, PrintingKey(norms, cards[i]).value)
  {
    var key := PrintingKey(norms, cards[i]);
    if key.Some? {
      forall j | 0 <= j < |cards|
        ensures Original(norms, cards[j], key.value) <==> OriginalFront(cards[j]) && SamePrinting(norms, cards[i], cards[j]) { }
    }
  }

  /** The edges of a catalog. */
  ghost function AllEdges(norms: Norms, cards: seq<Card>): set<Edge> {
    set x, y | x in Ids(cards) && y in Ids(cards) && IsEdge(norms, cards, Edge(x, y)) :: Edge(x, y)
  }

  lemma {:induction false} EdgesAreAll(norms: Norms, cards: seq<Card>, edges: set<Edge>)
    requires EdgesOf(norms, cards, edges)
    ensures edges == AllEdges(norms, cards)
  {
    forall e ensures e in edges <==> e in AllEdges(norms, cards) {
      if e in edges { assert e == Edge(e.from, e.to) && IsEdge(norms, cards, e); }
    }
  }

  // ---------- First pass ----------

  ghost predicate FaceEdges(cards: seq<Card>, n: nat, edges: set<Edge>)
    requires n <= |cards|
  {
    forall e :: e in edges <==> FaceEdge(cards, n, e)
  }

  lemma {:induction false} IdIn(cards: seq<Card>, k: nat)
    requires k < |cards|
    ensures cards[k].id in Ids(cards)
  {
  }

  /** The links of one card. */
  method LinkFaces(cards: seq<Card>, n: nat, parent: Parents, ghost edges: set<Edge>)
    returns (after: Parents, ghost more: set<Edge>)
    requires n < |cards| && Partition(parent, edges) && parent.Keys == Ids(cards)
    ensures Partition(after, more) && after.Keys == Ids(cards)
    ensures forall e :: e in more <==> e in edges || (e.from == cards[n].id && e.to in Links(cards[n]) && e.to in Ids(cards))
  {
    after, more := parent, edges;
    var c := cards[n];
    IdIn(cards, n);
    for m := 0 to |Links(c)|
      invariant Partition(after, more) && after.Keys == Ids(cards)
      invariant forall e :: e in more <==> e in edges || (e.from == c.id && e.to in Links(c)[..m] && e.to in Ids(cards))
    {
      var linked := Links(c)[m];
      assert Links(c)[..m + 1] == Links(c)[..m] + [linked];
      if linked in after {
        after := Link(after, c.id, linked, more);
        more := more + {Edge(c.id, linked)};
      }
    }
    assert Links(c)[..|Links(c)|] == Links(c);
  }

  lemma {:induction false} FaceEdgesThen(cards: seq<Card>, n: nat, edges: set<Edge>, more: set<Edge>)
    requires n < |cards| && FaceEdges(cards, n, edges)
    requires forall e :: e in more <==> e in edges || (e.from == cards[n].id && e.to in Links(cards[n]) && e.to in Ids(cards))
    ensures FaceEdges(cards, n + 1, more)
  {
    forall e ensures e in more <==> FaceEdge(cards, n + 1, e) {
      assert e in edges <==> FaceEdge(cards, n, e);
    }
  }

  method LinkAllFaces(cards: seq<Card>) returns (parent: Parents, ghost edges: set<Edge>)
    ensures Partition(parent, edges) && parent.Keys == Ids(cards) && FaceEdges(cards, |cards|, edges)
  {
    parent := map i | i in Ids(cards) :: i;
    edges := {};
    forall i ensures ParentAt(parent, i) {}
    forall i ensures RootReached(parent, edges, i) { ConnectedSelf(edges, i); }
    for n := 0 to |cards|
      invariant Partition(parent, edges) && parent.Keys == Ids(cards) && FaceEdges(cards, n, edges)
    {
      ghost var before := edges;
      parent, edges := LinkFaces(cards, n, parent, edges);
      FaceEdgesThen(cards, n, before, edges);
    }
  }

  // ---------- Second pass ----------

  /** The identifiers of the original fronts of a printing, in row order. */
  function Matches(norms: Norms, cards: seq<Card>, n: nat, key: Key): seq<nat>
    requires n <= |cards|
  {
    if n == 0 then []
    else Matches(norms, cards, n - 1, key) + if Original(norms, cards[n - 1], key) then [cards[n - 1].id] else []
  }

  lemma {:induction false} MatchesNone(norms: Norms, cards: seq<Card>, n: nat, key: Key)
    requires n <= |cards|
    ensures Matches(norms, cards, n, key) == [] <==> forall j :: 0 <= j < n ==> !Original(norms, cards[j], key)
  {
    if n > 0 { MatchesNone(norms, cards, n - 1, key); }
  }

  lemma {:induction false} MatchesOne(norms: Norms, cards: seq<Card>, n: nat, key: Key) returns (k: nat)
    requires n <= |cards| && |Matches(norms, cards, n, key)| == 1
    ensures k < n && Matches(norms, cards, n, key) == [cards[k].id] && Original(norms, cards[k], key)
    ensures forall j :: 0 <= j < n && Original(norms, cards[j], key) ==> j == k
  {
    if Original(norms, cards[n - 1], key) {
      MatchesNone(norms, cards, n - 1, key);
      k := n - 1;
    } else {
      k := MatchesOne(norms, cards, n - 1, key);
    }
  }

  lemma {:induction false} SoleMatches(norms: Norms, cards: seq<Card>, n: nat, k: nat, key: Key)
    requires k < n <= |cards| && Sole(norms, cards, k, key)
    ensures Matches(norms, cards, n, key) == [cards[k].id]
  {
    if k == n - 1 { MatchesNone(norms, cards, n - 1, key); } else { SoleMatches(norms, cards, n - 1, k, key); }
  }

  ghost predicate Groups(norms: Norms, cards: seq<Card>, n: nat, originals: map<Key, seq<nat>>)
    requires n <= |cards|
  {
    forall key :: GroupAt(norms, cards, n, originals, key)
  }

  ghost predicate GroupAt(norms: Norms, cards: seq<Card>, n: nat, originals: map<Key, seq<nat>>, key: Key)
    requires n <= |cards|
  {
    Matches(norms, cards, n, key) == if key in originals then originals[key] else []
  }

  method GroupOriginals(norms: Norms, cards: seq<Card>) returns (originals: map<Key, seq<nat>>)
    ensures Groups(norms, cards, |cards|, originals)
  {
    originals := map[];
    for n := 0 to |cards|
      invariant Groups(norms, cards, n, originals)
    {
      ghost var before := originals;
      var c := cards[n];
      if c.primary && !c.rebalanced && !c.token {
        var key := PrintingKey(norms, c);
        if key.Some? {
          originals := originals[key.value := (if key.value in originals then originals[key.value] else []) + [c.id]];
        }
      }
      ghost var m := n + 1;
      forall key ensures GroupAt(norms, cards, m, originals, key) { assert GroupAt(norms, cards, n, before, key); }
    }
  }

  lemma {:induction false} PrintEdgeByMatches(norms: Norms, cards: seq<Card>, c: Card, e: Edge)
    ensures PrintEdgeAt(norms, cards, c, e) <==>
              c.rebalanced && !c.token && c.id == e.from && PrintingKey(norms, c).Some? &&
              Matches(norms, cards, |cards|, PrintingKey(norms, c).value) == [e.to]
  {
    if c.rebalanced && !c.token && c.id == e.from && PrintingKey(norms, c).Some? {
      var key := PrintingKey(norms, c).value;
      if PrintEdgeAt(norms, cards, c, e) {
        var k :| 0 <= k < |cards| && cards[k].id == e.to && Sole(norms, cards, k, key);
        SoleMatches(norms, cards, |cards|, k, key);
      }
      if Matches(norms, cards, |cards|, key) == [e.to] {
        var k := MatchesOne(norms, cards, |cards|, key);
        assert Sole(norms, cards, k, key);
      }
    }
  }

  ghost predicate BothEdges(norms: Norms, cards: seq<Card>, n: nat, edges: set<Edge>)
    requires n <= |cards|
  {
    forall e :: e in edges <==> FaceEdge(cards, |cards|, e) || PrintEdge(norms, cards, n, e)
  }

  lemma {:induction false} BothEdgesThen(norms: Norms, cards: seq<Card>, n: nat, edges: set<Edge>, more: set<Edge>)
    requires n < |cards| && BothEdges(norms, cards, n, edges)
    requires forall e :: e in more <==> e in edges || PrintEdgeAt(norms, cards, cards[n], e)
    ensures BothEdges(norms, cards, n + 1, more)
  {
    forall e ensures e in more <==> FaceEdge(cards, |cards|, e) || PrintEdge(norms, cards, n + 1, e) {
      assert e in edges <==> FaceEdge(cards, |cards|, e) || PrintEdge(norms, cards, n, e);
    }
  }

  lemma {:induction false} PrintEdgesOfCard(norms: Norms, cards: seq<Card>, c: Card, matches: seq<nat>, edges: set<Edge>, more: set<Edge>)
    requires matches == if PrintingKey(norms, c).Some? then Matches(norms, cards, |cards|, PrintingKey(norms, c).value) else []
    requires more == edges + if c.rebalanced && !c.token && |matches| == 1 then {Edge(c.id, matches[0])} else {}
    ensures forall e :: e in more <==> e in edges || PrintEdgeAt(norms, cards, c, e)
  {
    forall e ensures e in more <==> e in edges || PrintEdgeAt(norms, cards, c, e) {
      PrintEdgeByMatches(norms, cards, c, e);
    }
  }

  method LinkPrinting(norms: Norms, cards: seq<Card>, n: nat, originals: map<Key, seq<nat>>, parent: Parents, ghost edges: set<Edge>)
    returns (after: Parents, ghost more: set<Edge>)
    requires n < |cards| && Groups(norms, cards, |cards|, originals)
    requires Partition(parent, edges) && parent.Keys == Ids(cards)
    ensures Partition(after, more) && after.Keys == Ids(cards)
    ensures forall e :: e in more <==> e in edges || PrintEdgeAt(norms, cards, cards[n], e)
  {
    var c := cards[n];
    after, more := parent, edges;
    var key := PrintingKey(norms, c);
    var matches := if key.Some? && key.value in originals then originals[key.value] else [];
    assert key.Some? ==> GroupAt(norms, cards, |cards|, originals, key.value);
    IdIn(cards, n);
    if c.rebalanced && !c.token && |matches| == 1 {
      ghost var k := MatchesOne(norms, cards, |cards|, key.value);
      IdIn(cards, k);
      after := Link(parent, c.id, matches[0], edges);
      more := edges + {Edge(c.id, matches[0])};
    }
    PrintEdgesOfCard(norms, cards, c, matches, edges, more);
  }

  /** Both passes: the trees are the components of face, rebalance and unambiguous printing edges. */
  method LinkAll(norms: Norms, cards: seq<Card>) returns (parent: Parents, ghost edges: set<Edge>)
    ensures EdgesOf(norms, cards, edges)
    ensures Partition(parent, edges) && parent.Keys == Ids(cards)
  {
    parent, edges := LinkAllFaces(cards);
    var originals := GroupOriginals(norms, cards);
    for n := 0 to |cards|
      invariant Partition(parent, edges) && parent.Keys == Ids(cards) && BothEdges(norms, cards, n, edges)
    {
      ghost var before := edges;
      parent, edges := LinkPrinting(norms, cards, n, originals, parent, edges);
      BothEdgesThen(norms, cards, n, before, edges);
    }
  }

  // ---------- Families ----------

  /** The front comes first: primary before others, originals before rebalanced ones, then by identifier. */
  predicate Before(c: Card, d: Card) {
    if c.primary != d.primary then c.primary
    else if c.rebalanced != d.rebalanced then d.rebalanced
    else c.id < d.id
  }

  /** The first of the least members. */
  function FrontAt(members: seq<Card>): (k: nat)
    requires members != []
    ensures k < |members|
    ensures forall j :: 0 <= j < |members| ==> !Before(members[j], members[k])
    ensures forall j :: 0 <= j < k ==> Before(members[k], members[j])
  {
    var n := |members| - 1;
    if n == 0 then 0 else
    var k := FrontAt(members[..n]);
    if Before(members[n], members[k]) then n else k
  }

  /** The front is primary if a member is, not rebalanced if a member as primary as it is not, and has the least identifier of
      the members like it. */
  lemma {:induction false} FrontIsLeast(members: seq<Card>, j: nat)
    requires j < |members|
    ensures var front, other := members[FrontAt(members)], members[j];
            && (other.primary ==> front.primary)
            && (other.primary == front.primary && !other.rebalanced ==> !front.rebalanced)
            && (other.primary == front.primary && other.rebalanced == front.rebalanced ==> front.id <= other.id)
  {
    assert !Before(members[j], members[FrontAt(members)]);
  }

  function MaxOwned(members: seq<Card>): (q: int)
    requires members != []
    ensures forall j :: 0 <= j < |members| ==> members[j].owned <= q
    ensures exists j :: 0 <= j < |members| && members[j].owned == q
  {
    var n := |members| - 1;
    if n == 0 then members[0].owned else
    var q := MaxOwned(members[..n]);
    if members[n].owned > q then members[n].owned else q
  }

  /** The rows of the family of `x`, in row order. */
  ghost function Family(edges: set<Edge>, cards: seq<Card>, n: nat, x: nat): seq<Card>
    requires n <= |cards|
  {
    if n == 0 then []
    else if Connected(edges, cards[n - 1].id, x) then Family(edges, cards, n - 1, x) + [cards[n - 1]]
    else Family(edges, cards, n - 1, x)
  }

  /** What a family adds to the total of a name. */
  function Adds(norms: Norms, members: seq<Card>, name: Text): int {
    if members == [] then 0
    else
      var front := members[FrontAt(members)];
      if !front.token && norms.name(front.name) == name then MaxOwned(members) else 0
  }

  /** No earlier row belongs to the same family. */
  ghost predicate FirstOfFamily(edges: set<Edge>, cards: seq<Card>, k: nat)
    requires k < |cards|
  {
    forall j :: 0 <= j < k ==> !Connected(edges, cards[j].id, cards[k].id)
  }

  /** The sum, over the families met in the first n rows, each taken once, of what they add to the name. */
  ghost function Total(norms: Norms, edges: set<Edge>, cards: seq<Card>, n: nat, name: Text): int
    requires n <= |cards|
  {
    if n == 0 then 0
    else Total(norms, edges, cards, n - 1, name) + AddsAt(norms, edges, cards, n - 1, name)
  }

  ghost function AddsAt(norms: Norms, edges: set<Edge>, cards: seq<Card>, k: nat, name: Text): int
    requires k < |cards|
  {
    if FirstOfFamily(edges, cards, k) then Adds(norms, Family(edges, cards, |cards|, cards[k].id), name) else 0
  }

  // ---------- Families by root ----------

  ghost function Members(p: Parents, cards: seq<Card>, n: nat, r: nat): seq<Card>
    requires n <= |cards| && Forest(p) && p.Keys == Ids(cards)
  {
    if n == 0 then []
    else
      IdIn(cards, n - 1);
      if Root(p, cards[n - 1].id) == r then Members(p, cards, n - 1, r) + [cards[n - 1]] else Members(p, cards, n - 1, r)
  }

  lemma {:induction false} MembersAreFamily(p: Parents, edges: set<Edge>, cards: seq<Card>, n: nat, x: nat)
    requires n <= |cards| && Partition(p, edges) && p.Keys == Ids(cards) && x in p
    ensures Members(p, cards, n, Root(p, x)) == Family(edges, cards, n, x)
  {
    if n > 0 {
      MembersAreFamily(p, edges, cards, n - 1, x);
      IdIn(cards, n - 1);
      SameRootExactlyWhenConnected(p, edges, cards[n - 1].id, x);
    }
  }

  /** The roots in the order in which the rows first reach them. */
  ghost function Order(p: Parents, cards: seq<Card>, n: nat): seq<nat>
    requires n <= |cards| && Forest(p) && p.Keys == Ids(cards)
  {
    if n == 0 then []
    else
      IdIn(cards, n - 1);
      Met(Order(p, cards, n - 1), Root(p, cards[n - 1].id))
  }

  function Met(order: seq<nat>, r: nat): seq<nat> {
    if r in order then order else order + [r]
  }

  lemma {:induction false} InMet(order: seq<nat>, r: nat, s: nat)
    ensures s in Met(order, r) <==> s in order || s == r
  {
  }

  lemma {:induction false} InOrder(p: Parents, cards: seq<Card>, n: nat, r: nat)
    requires n <= |cards| && Forest(p) && p.Keys == Ids(cards)
    ensures r in Order(p, cards, n) <==> Members(p, cards, n, r) != []
  {
    if n > 0 {
      InOrder(p, cards, n - 1, r);
      IdIn(cards, n - 1);
      InMet(Order(p, cards, n - 1), Root(p, cards[n - 1].id), r);
    }
  }

  lemma {:induction false} NotFirst(p: Parents, edges: set<Edge>, cards: seq<Card>, n: nat, k: nat)
    requires n <= k < |cards| && Partition(p, edges) && p.Keys == Ids(cards) && cards[k].id in p
    ensures Members(p, cards, n, Root(p, cards[k].id)) == [] <==>
              forall j :: 0 <= j < n ==> !Connected(edges, cards[j].id, cards[k].id)
  {
    if n > 0 {
      NotFirst(p, edges, cards, n - 1, k);
      IdIn(cards, n - 1);
      SameRootExactlyWhenConnected(p, edges, cards[n - 1].id, cards[k].id);
    }
  }

  /** The same sum, over roots in order. */
  ghost function TotalInOrder(norms: Norms, p: Parents, cards: seq<Card>, order: seq<nat>, name: Text): int
    requires Forest(p) && p.Keys == Ids(cards)
  {
    if order == [] then 0
    else TotalInOrder(norms, p, cards, order[..|order| - 1], name) +
         Adds(norms, Members(p, cards, |cards|, order[|order| - 1]), name)
  }

  lemma {:induction false} TotalMet(norms: Norms, p: Parents, cards: seq<Card>, order: seq<nat>, r: nat, name: Text)
    requires Forest(p) && p.Keys == Ids(cards)
    ensures TotalInOrder(norms, p, cards, Met(order, r), name) ==
              TotalInOrder(norms, p, cards, order, name) +
              if r in order then 0 else Adds(norms, Members(p, cards, |cards|, r), name)
  {
    if r !in order { assert (order + [r])[..|order|] == order; }
  }

  lemma {:induction false} FirstByRoot(p: Parents, edges: set<Edge>, cards: seq<Card>, k: nat)
    requires k < |cards| && Partition(p, edges) && p.Keys == Ids(cards) && cards[k].id in p
    ensures FirstOfFamily(edges, cards, k) <==> Root(p, cards[k].id) !in Order(p, cards, k)
  {
    NotFirst(p, edges, cards, k, k);
    InOrder(p, cards, k, Root(p, cards[k].id));
  }

  lemma {:induction false} TotalsAgree(norms: Norms, p: Parents, edges: set<Edge>, cards: seq<Card>, n: nat, order: seq<nat>, name: Text)
    requires n <= |cards| && Partition(p, edges) && p.Keys == Ids(cards) && order == Order(p, cards, n)
    ensures TotalInOrder(norms, p, cards, order, name) == Total(norms, edges, cards, n, name)
  {
    if n > 0 {
      var met := Order(p, cards, n - 1);
      TotalsAgree(norms, p, edges, cards, n - 1, met, name);
      IdIn(cards, n - 1);
      TotalThen(norms, p, edges, cards, n - 1, met, order, name);
    }
  }

  lemma {:induction false} TotalThen(norms: Norms, p: Parents, edges: set<Edge>, cards: seq<Card>, k: nat, order: seq<nat>, longer: seq<nat>, name: Text)
    requires k < |cards| && Partition(p, edges) && p.Keys == Ids(cards) && cards[k].id in p && order == Order(p, cards, k)
    requires longer == Met(order, Root(p, cards[k].id))
    ensures TotalInOrder(norms, p, cards, longer, name) ==
              TotalInOrder(norms, p, cards, order, name) + AddsAt(norms, edges, cards, k, name)
  {
    FirstByRoot(p, edges, cards, k);
    MembersAreFamily(p, edges, cards, |cards|, cards[k].id);
    TotalMet(norms, p, cards, order, Root(p, cards[k].id), name);
  }

  // ---------- Grouping ----------

  ghost predicate GroupedAt(p: Parents, cards: seq<Card>, n: nat, families: map<nat, seq<Card>>, r: nat)
    requires n <= |cards| && Forest(p) && p.Keys == Ids(cards)
  {
    Members(p, cards, n, r) == if r in families then families[r] else []
  }

  ghost predicate Grouped(p: Parents, cards: seq<Card>, n: nat, families: map<nat, seq<Card>>, order: seq<nat>)
    requires n <= |cards| && Forest(p) && p.Keys == Ids(cards)
  {
    && (forall r :: GroupedAt(p, cards, n, families, r))
    && order == Order(p, cards, n) && forall r :: r in order <==> r in families
  }

  lemma {:induction false} GroupedThen(p: Parents, cards: seq<Card>, n: nat, was: map<nat, seq<Card>>, met: seq<nat>,
                                       families: map<nat, seq<Card>>, order: seq<nat>)
    requires n < |cards| && Forest(p) && p.Keys == Ids(cards) && Grouped(p, cards, n, was, met) && cards[n].id in p
    requires order == Met(met, Root(p, cards[n].id))
    requires var r := Root(p, cards[n].id); families == was[r := (if r in was then was[r] else []) + [cards[n]]]
    ensures Grouped(p, cards, n + 1, families, order)
  {
    var m, r := n + 1, Root(p, cards[n].id);
    forall s ensures GroupedAt(p, cards, m, families, s) { assert GroupedAt(p, cards, n, was, s); }
    forall s ensures s in order <==> s in families { InMet(met, r, s); }
  }

  /** The rows of each family, and the families in the order in which they are first met. */
  method GroupFamilies(cards: seq<Card>, parent: Parents) returns (families: map<nat, seq<Card>>, order: seq<nat>)
    requires Forest(parent) && parent.Keys == Ids(cards)
    ensures Grouped(parent, cards, |cards|, families, order)
  {
    families, order := map[], [];
    var halved := parent;
    for n := 0 to |cards|
      invariant SameRoots(parent, halved) && Grouped(parent, cards, n, families, order)
    {
      IdIn(cards, n);
      ghost var seen, was := halved, families;
      var r;
      halved, r := Find(halved, cards[n].id);
      forall j ensures SameRootAt(parent, halved, j) { assert SameRootAt(parent, seen, j) && SameRootAt(seen, halved, j); }
      assert SameRootAt(parent, seen, cards[n].id);
      ghost var met := order;
      if r !in families { order := order + [r]; }
      families := families[r := (if r in families then families[r] else []) + [cards[n]]];
      GroupedThen(parent, cards, n, was, met, families, order);
    }
  }

  // ---------- Totals and rows ----------

  ghost predicate Has(members: seq<Card>, x: nat) {
    exists k :: 0 <= k < |members| && members[k].id == x
  }

  lemma {:induction false} HasThen(members: seq<Card>, c: Card, x: nat)
    ensures Has(members + [c], x) <==> Has(members, x) || c.id == x
  {
    var more := members + [c];
    assert more[|members|] == c;
    if Has(members, x) {
      var k :| 0 <= k < |members| && members[k].id == x;
      assert more[k].id == x;
    }
  }

  lemma {:induction false} MemberIds(p: Parents, cards: seq<Card>, n: nat, r: nat, x: nat)
    requires n <= |cards| && Forest(p) && p.Keys == Ids(cards)
    ensures Has(Members(p, cards, n, r), x) <==> (x in p && Root(p, x) == r && Has(cards[..n], x))
  {
    if n > 0 {
      MemberIds(p, cards, n - 1, r, x);
      IdIn(cards, n - 1);
      HasThen(cards[..n - 1], cards[n - 1], x);
      HasThen(Members(p, cards, n - 1, r), cards[n - 1], x);
      assert cards[..n] == cards[..n - 1] + [cards[n - 1]];
    }
  }

  lemma {:induction false} AllMemberIds(p: Parents, cards: seq<Card>, r: nat, x: nat)
    requires Forest(p) && p.Keys == Ids(cards)
    ensures Has(Members(p, cards, |cards|, r), x) <==> (x in p && Root(p, x) == r)
  {
    MemberIds(p, cards, |cards|, r, x);
    assert cards[..|cards|] == cards;
  }

  function Row(norms: Norms, family: nat, members: seq<Card>): Info
    requires members != []
  {
    var front := members[FrontAt(members)];
    Info(family, front.name, norms.name(front.name), MaxOwned(members), 0)
  }

  method FillRows(members: seq<Card>, row: Info, info: map<nat, Info>) returns (after: map<nat, Info>)
    ensures forall x :: x in after <==> x in info || Has(members, x)
    ensures forall x :: x in after ==> after[x] == if Has(members, x) then row else info[x]
  {
    after := info;
    for k := 0 to |members|
      invariant forall x :: x in after <==> x in info || Has(members[..k], x)
      invariant forall x :: x in after ==> after[x] == if Has(members[..k], x) then row else info[x]
    {
      ghost var before, done := after, members[..k];
      after := after[members[k].id := row];
      assert members[..k + 1] == done + [members[k]];
      forall x ensures Has(done + [members[k]], x) <==> Has(done, x) || members[k].id == x { HasThen(done, members[k], x); }
    }
    assert members[..|members|] == members;
  }

  function Lookup(totals: map<Text, int>, name: Text): int {
    if name in totals then totals[name] else 0
  }

  ghost predicate TotalAt(norms: Norms, p: Parents, cards: seq<Card>, done: seq<nat>, totals: map<Text, int>, name: Text)
    requires Forest(p) && p.Keys == Ids(cards)
  {
    Lookup(totals, name) == TotalInOrder(norms, p, cards, done, name)
  }

  ghost predicate RowAt(norms: Norms, p: Parents, cards: seq<Card>, done: seq<nat>, info: map<nat, Info>, x: nat)
    requires Forest(p) && p.Keys == Ids(cards)
  {
    && (x in info <==> x in p && Root(p, x) in done)
    && (x in info ==> Members(p, cards, |cards|, Root(p, x)) != [] &&
                      info[x] == Row(norms, Root(p, x), Members(p, cards, |cards|, Root(p, x))))
  }

  ghost predicate Tallied(norms: Norms, p: Parents, cards: seq<Card>, done: seq<nat>, totals: map<Text, int>, info: map<nat, Info>)
    requires Forest(p) && p.Keys == Ids(cards)
  {
    (forall name :: TotalAt(norms, p, cards, done, totals, name)) && forall x :: RowAt(norms, p, cards, done, info, x)
  }

  lemma {:induction false} TallyThen(norms: Norms, p: Parents, cards: seq<Card>, done: seq<nat>, r: nat, members: seq<Card>,
                                     totals: map<Text, int>, info: map<nat, Info>, more: map<Text, int>, after: map<nat, Info>)
    requires Forest(p) && p.Keys == Ids(cards) && Tallied(norms, p, cards, done, totals, info)
    requires r !in done && members == Members(p, cards, |cards|, r) && members != []
    requires forall name :: Lookup(more, name) == Lookup(totals, name) + Adds(norms, members, name)
    requires forall x :: x in after <==> x in info || Has(members, x)
    requires forall x :: x in after ==> after[x] == if Has(members, x) then Row(norms, r, members) else info[x]
    ensures Tallied(norms, p, cards, done + [r], more, after)
  {
    var longer := done + [r];
    forall name ensures TotalAt(norms, p, cards, longer, more, name) {
      assert TotalAt(norms, p, cards, done, totals, name);
      TotalMet(norms, p, cards, done, r, name);
    }
    forall x ensures RowAt(norms, p, cards, longer, after, x) {
      assert RowAt(norms, p, cards, done, info, x);
      AllMemberIds(p, cards, r, x);
    }
  }

  method TallyFamily(norms: Norms, family: nat, members: seq<Card>, totals: map<Text, int>, info: map<nat, Info>)
    returns (more: map<Text, int>, after: map<nat, Info>)
    requires members != []
    ensures forall name :: Lookup(more, name) == Lookup(totals, name) + Adds(norms, members, name)
    ensures forall x :: x in after <==> x in info || Has(members, x)
    ensures forall x :: x in after ==> after[x] == if Has(members, x) then Row(norms, family, members) else info[x]
  {
    var front := members[FrontAt(members)];
    var name := norms.name(front.name);
    var quantity := MaxOwned(members);
    more := if front.token then totals else totals[name := Lookup(totals, name) + quantity];
    after := FillRows(members, Info(family, front.name, name, quantity, 0), info);
  }

  /** One pass over the families, in order. */
  method Tally(norms: Norms, cards: seq<Card>, families: map<nat, seq<Card>>, order: seq<nat>, ghost p: Parents)
    returns (totals: map<Text, int>, info: map<nat, Info>)
    requires Forest(p) && p.Keys == Ids(cards) && Grouped(p, cards, |cards|, families, order)
    requires Distinct(order)
    ensures Tallied(norms, p, cards, order, totals, info)
  {
    totals, info := map[], map[];
    for m := 0 to |order|
      invariant Tallied(norms, p, cards, order[..m], totals, info)
    {
      var family := order[m];
      assert family in order;
      var members := families[family];
      assert GroupedAt(p, cards, |cards|, families, family);
      InOrder(p, cards, |cards|, family);
      ghost var sums, rows := totals, info;
      totals, info := TallyFamily(norms, family, members, totals, info);
      TallyThen(norms, p, cards, order[..m], family, members, sums, rows, totals, info);
      assert order[..m + 1] == order[..m] + [family];
    }
    assert order[..|order|] == order;
  }

  lemma {:induction false} MetDistinct(order: seq<nat>, r: nat)
    requires Distinct(order)
    ensures Distinct(Met(order, r))
  {
  }

  lemma {:induction false} OrderDistinct(p: Parents, cards: seq<Card>, n: nat)
    requires n <= |cards| && Forest(p) && p.Keys == Ids(cards)
    ensures Distinct(Order(p, cards, n))
  {
    if n > 0 {
      OrderDistinct(p, cards, n - 1);
      IdIn(cards, n - 1);
      MetDistinct(Order(p, cards, n - 1), Root(p, cards[n - 1].id));
    }
  }

  /** What the model says of one card. */
  ghost predicate Correct(norms: Norms, edges: set<Edge>, cards: seq<Card>, x: nat, row: Info) {
    var members := Family(edges, cards, |cards|, x);
    && row.family in Ids(cards) && Connected(edges, x, row.family)
    && (forall y :: Connected(edges, x, y) ==> row.family <= y)
    && members != []
    && row.canonical == members[FrontAt(members)].name && row.normalized == norms.name(row.canonical)
    && row.quantity == MaxOwned(members)
    && row.total == Total(norms, edges, cards, |cards|, row.normalized)
  }

  lemma {:induction false} RowCorrect(norms: Norms, p: Parents, edges: set<Edge>, cards: seq<Card>, x: nat, row: Info, total: int)
    requires Partition(p, edges) && p.Keys == Ids(cards) && x in p
    requires Members(p, cards, |cards|, Root(p, x)) != [] && row == Row(norms, Root(p, x), Members(p, cards, |cards|, Root(p, x)))
    requires total == Total(norms, edges, cards, |cards|, row.normalized)
    ensures Correct(norms, edges, cards, x, row.(total := total))
  {
    ConnectedSelf(edges, x);
    RootIsLeast(p, edges, x, x);
    forall y | Connected(edges, x, y) ensures Root(p, x) <= y { RootIsLeast(p, edges, x, y); }
    MembersAreFamily(p, edges, cards, |cards|, x);
  }

  lemma {:induction false} SameFamily(edges: set<Edge>, cards: seq<Card>, n: nat, x: nat, y: nat)
    requires n <= |cards| && Connected(edges, x, y)
    ensures Family(edges, cards, n, x) == Family(edges, cards, n, y)
  {
    if n > 0 {
      SameFamily(edges, cards, n - 1, x, y);
      ConnectedBack(edges, x, y);
      if Connected(edges, cards[n - 1].id, x) { ConnectedThrough(edges, cards[n - 1].id, x, y); }
      if Connected(edges, cards[n - 1].id, y) { ConnectedThrough(edges, cards[n - 1].id, y, x); }
    }
  }

  /** Cards share a family exactly when edges connect them, and then the whole row. */
  lemma {:induction false} FamiliesExactlyComponents(norms: Norms, edges: set<Edge>, cards: seq<Card>, x: nat, y: nat, r: Info, s: Info)
    requires Correct(norms, edges, cards, x, r) && Correct(norms, edges, cards, y, s)
    ensures r.family == s.family <==> Connected(edges, x, y)
    ensures Connected(edges, x, y) ==> r == s
  {
    if Connected(edges, x, y) {
      ConnectedBack(edges, x, y);
      ConnectedThrough(edges, x, y, s.family);
      ConnectedThrough(edges, y, x, r.family);
      SameFamily(edges, cards, |cards|, x, y);
    }
    if r.family == s.family {
      ConnectedBack(edges, y, s.family);
      ConnectedThrough(edges, x, r.family, y);
    }
  }

  function Totalled(rows: map<nat, Info>, totals: map<Text, int>): map<nat, Info> {
    map x | x in rows :: rows[x].(total := Lookup(totals, rows[x].normalized))
  }

  lemma {:induction false} TotalledRow(norms: Norms, p: Parents, edges: set<Edge>, cards: seq<Card>, order: seq<nat>,
                                       totals: map<Text, int>, rows: map<nat, Info>, x: nat)
    requires Partition(p, edges) && p.Keys == Ids(cards) && order == Order(p, cards, |cards|)
    requires Tallied(norms, p, cards, order, totals, rows)
    ensures x in Totalled(rows, totals) <==> x in Ids(cards)
    ensures x in Ids(cards) ==> Correct(norms, edges, cards, x, Totalled(rows, totals)[x])
  {
    assert RowAt(norms, p, cards, order, rows, x);
    if x in p {
      AllMemberIds(p, cards, Root(p, x), x);
      InOrder(p, cards, |cards|, Root(p, x));
      var name := rows[x].normalized;
      assert TotalAt(norms, p, cards, order, totals, name);
      TotalsAgree(norms, p, edges, cards, |cards|, order, name);
      RowCorrect(norms, p, edges, cards, x, rows[x], Lookup(totals, name));
    }
  }

  /** There is a row for every card, and it is correct. */
  ghost predicate Answers(norms: Norms, edges: set<Edge>, cards: seq<Card>, info: map<nat, Info>) {
    info.Keys == Ids(cards) && forall x :: AnswersAt(norms, edges, cards, info, x)
  }

  ghost predicate AnswersAt(norms: Norms, edges: set<Edge>, cards: seq<Card>, info: map<nat, Info>, x: nat) {
    x in info ==> Correct(norms, edges, cards, x, info[x])
  }

  lemma {:induction false} TotalledAnswers(norms: Norms, p: Parents, edges: set<Edge>, cards: seq<Card>, order: seq<nat>,
                                           totals: map<Text, int>, rows: map<nat, Info>)
    requires Partition(p, edges) && p.Keys == Ids(cards) && order == Order(p, cards, |cards|)
    requires Tallied(norms, p, cards, order, totals, rows)
    ensures Answers(norms, edges, cards, Totalled(rows, totals))
  {
    var info := Totalled(rows, totals);
    forall x ensures x in info.Keys <==> x in Ids(cards) {
      TotalledRow(norms, p, edges, cards, order, totals, rows, x);
    }
    forall x ensures AnswersAt(norms, edges, cards, info, x) {
      TotalledRow(norms, p, edges, cards, order, totals, rows, x);
    }
  }

  /** The passes after linking. */
  method Summarise(norms: Norms, cards: seq<Card>, parent: Parents, ghost edges: set<Edge>) returns (info: map<nat, Info>)
    requires Partition(parent, edges) && parent.Keys == Ids(cards)
    ensures Answers(norms, edges, cards, info)
  {
    var families, order := GroupFamilies(cards, parent);
    OrderDistinct(parent, cards, |cards|);
    var totals, rows := Tally(norms, cards, families, order, parent);
    TotalledAnswers(norms, parent, edges, cards, order, totals, rows);
    info := Totalled(rows, totals);
  }

  /** `ownership_model`. */
  method OwnershipModel(norms: Norms, cards: seq<Card>) returns (info: map<nat, Info>)
    ensures Answers(norms, AllEdges(norms, cards), cards, info)
  {
    var parent;
    ghost var edges;
    parent, edges := LinkAll(norms, cards);
    EdgesAreAll(norms, cards, edges);
    info := Summarise(norms, cards, parent, edges);
  }
}
