/**
 The map splitter accepts exactly the texts of a grammar, and hands over exactly their keys and values: braces around pairs
 separated by commas, a key and a value separated by `=`, white space before each.
 */
module MapGrammar {
  import opened Basics
  import opened TextScan
  import opened ListText
  import opened ListRoundTrip
  import opened TextDocs
  import opened TextGrammar
  import opened ListGrammar
  import opened MapText

  /** A token of a key or value: quotes of either kind are closed wherever they stand. */
  predicate Kept(t: Token, isKey: bool) {
    match t
    case Ch(c) => !IsQuote(c) && c != '[' && c != '{' && (if isKey then c != '=' else c != ',' && c != '}')
    case Str(quote, body) => IsQuote(quote) && quote !in body
    case Group(square, inside) => Inners(inside, Closing(square))
  }

  predicate AllKept(ts: seq<Token>, isKey: bool) {
    forall k :: 0 <= k < |ts| ==> Kept(ts[k], isKey)
  }

  /** The text of the piece is a key or value, and what ends one follows. */
  ghost predicate IsField(p: Piece, s: string, isKey: bool) {
    && p.start <= p.end < |s| && (if isKey then s[p.end] == '=' else s[p.end] == ',' || s[p.end] == '}')
    && exists ts :: AllKept(ts, isKey) && Spans(ts, s, p.start, p.end)
  }

  // ---------- One field ----------

  lemma {:induction false} KeptOver(t: Token, s: string, i: nat, j: nat, isKey: bool)
    requires Kept(t, isKey) && Span(t, s, i, j)
    ensures j <= |s| && FieldEnd(s, i, isKey) == FieldEnd(s, j, isKey)
  {
    match t
    case Ch(c) => AtFirst(s, i, [c]);
    case Str(quote, body) =>
      BetweenAt(s, i, quote, body, quote, j - 1);
      QuoteFound(s, i + 1, body, quote);
    case Group(_, _) => GroupClosed(t, s, i, j);
  }

  lemma {:induction false} AllKeptOver(ts: seq<Token>, s: string, i: nat, j: nat, isKey: bool)
    requires AllKept(ts, isKey) && Spans(ts, s, i, j)
    ensures j <= |s| && FieldEnd(s, i, isKey) == FieldEnd(s, j, isKey)
    decreases |ts|
  {
    if ts != [] {
      var m := SpansFirst(ts, s, i, j);
      KeptOver(ts[0], s, i, m, isKey);
      AllKeptOver(ts[1..], s, m, j, isKey);
    }
  }

  lemma {:induction false} KeptFound(s: string, i: nat, isKey: bool) returns (t: Token, m: nat)
    requires i < |s| && FieldEnd(s, i, isKey).Some? && !Ends(s[i], isKey)
    ensures i < m <= |s| && Kept(t, isKey) && Span(t, s, i, m) && FieldEnd(s, m, isKey) == FieldEnd(s, i, isKey)
  {
    if IsQuote(s[i]) {
      t := QuotedToken(s, i);
      m := FindChar(s, i + 1, s[i]).value + 1;
    } else if s[i] == '{' || s[i] == '[' {
      t := ClosedGroup(s, i, s[i] == '[', Closing(s[i] == '['));
      m := CloseAt(s, i + 1, Closing(s[i] == '[')).value + 1;
    } else {
      t, m := Ch(s[i]), i + 1;
      ChSpan(s, i);
    }
  }

  lemma {:induction false} AllKeptFound(s: string, i: nat, isKey: bool) returns (ts: seq<Token>)
    requires i <= |s| && FieldEnd(s, i, isKey).Some?
    ensures AllKept(ts, isKey) && Spans(ts, s, i, FieldEnd(s, i, isKey).value)
    decreases |s| - i
  {
    if Ends(s[i], isKey) {
      ts := [];
      SpansNone(s, i);
    } else {
      var t, m := KeptFound(s, i, isKey);
      var rest := AllKeptFound(s, m, isKey);
      ts := [t] + rest;
      SpansMore(t, rest, s, i, m, FieldEnd(s, i, isKey).value);
    }
  }

  /** For every text: a key or value ends at `j` if and only if the grammar makes it one. */
  lemma {:induction false} FieldExactly(s: string, i: nat, j: nat, isKey: bool)
    requires i <= |s|
    ensures FieldEnd(s, i, isKey) == Some(j) <==> IsField(Piece(i, j), s, isKey)
  {
    if FieldEnd(s, i, isKey) == Some(j) {
      var ts := AllKeptFound(s, i, isKey);
    }
    if IsField(Piece(i, j), s, isKey) {
      var ts :| AllKept(ts, isKey) && Spans(ts, s, i, j);
      AllKeptOver(ts, s, i, j, isKey);
    }
  }

  // ---------- Maps ----------

  /** A field, with the white space before it. */
  ghost predicate Led(p: Piece, s: string, i: nat, isKey: bool) {
    i <= p.start < |s| && Blank(s[i..p.start]) && !IsSpace(s[p.start]) && IsField(p, s, isKey)
  }

  ghost predicate IsPair(key: Piece, value: Piece, s: string, i: nat) {
    Led(key, s, i, true) && Led(value, s, key.end + 1, false)
  }

  /** The pair `k` of those from `i` to `close`: it follows a comma, the first one excepted, and the last one ends at `close`. */
  ghost predicate PairAt(keys: seq<Piece>, values: seq<Piece>, s: string, i: nat, close: nat, k: nat)
    requires k < |keys| == |values|
  {
    && IsPair(keys[k], values[k], s, if k == 0 then i else values[k - 1].end + 1)
    && (k == |keys| - 1 ==> values[k].end == close && s[close] == '}')
    && (k < |keys| - 1 ==> s[values[k].end] == ',')
  }

  /** From `i` to `close`: keys and values in turn. */
  ghost predicate Pairs(keys: seq<Piece>, values: seq<Piece>, s: string, i: nat, close: nat) {
    |keys| == |values| > 0 && forall k :: 0 <= k < |keys| ==> PairAt(keys, values, s, i, close, k)
  }

  /** The text is a map with these keys and values; the first key does not begin with the brace that would end the map. */
  ghost predicate IsMap(s: string, open: nat, close: nat, keys: seq<Piece>, values: seq<Piece>) {
    && open < close < |s| && Blank(s[..open]) && s[open] == '{' && s[close] == '}' && Blank(s[close + 1..])
    && if keys == [] then values == [] && Blank(s[open + 1..close])
       else Pairs(keys, values, s, open + 1, close) && keys[0].start < |s| && s[keys[0].start] != '}'
  }

  /** White space, and no more of it at `j`. */
  ghost predicate Gap(s: string, i: nat, j: nat) {
    i <= j <= |s| && Blank(s[i..j]) && (j < |s| ==> !IsSpace(s[j]))
  }

  lemma {:induction false} GapExactly(s: string, i: nat, j: nat)
    requires i <= |s|
    ensures SkipSpace(s, i) == j <==> Gap(s, i, j)
  {
    SpaceSkipped(s, i);
    SpaceIsBlank(s, i, SkipSpace(s, i));
    if Gap(s, i, j) { SpaceUpTo(s, i, j); }
  }

  lemma {:induction false} LedExactly(p: Piece, s: string, i: nat, start: nat, isKey: bool)
    requires Gap(s, i, start)
    ensures Led(p, s, i, isKey) <==> p.start == start < |s| && FieldEnd(s, start, isKey) == Some(p.end)
  {
    GapExactly(s, i, start);
    GapExactly(s, i, p.start);
    FieldExactly(s, start, p.end, isKey);
  }

  lemma {:induction false} PairParts(s: string, start: nat, key: Piece, value: Piece, next: nat)
    requires start < |s|
    ensures NextPair(s, start) == KeyValue(key, value, next) <==>
              && key.start == start && FieldEnd(s, start, true) == Some(key.end)
              && value.start == SkipSpace(s, key.end + 1) && FieldEnd(s, value.start, false) == Some(value.end)
              && next == SkipSpace(s, value.end + 1)
  {
  }

  lemma {:induction false} ValueExactly(s: string, i: nat, value: Piece)
    requires i <= |s|
    ensures Led(value, s, i, false) <==> value.start == SkipSpace(s, i) && FieldEnd(s, value.start, false) == Some(value.end)
  {
    var v := SkipSpace(s, i);
    GapExactly(s, i, v);
    LedExactly(value, s, i, v, false);
  }

  /** The pair at the cursor is a key and a value. */
  lemma {:induction false} PairExactly(s: string, i: nat, start: nat, key: Piece, value: Piece, next: nat)
    requires Gap(s, i, start) && start < |s|
    ensures NextPair(s, start) == KeyValue(key, value, next) <==>
              key.start == start && IsPair(key, value, s, i) && Gap(s, value.end + 1, next)
  {
    PairParts(s, start, key, value, next);
    LedExactly(key, s, i, start, true);
    if key.end < |s| { ValueExactly(s, key.end + 1, value); }
    if value.end < |s| { GapExactly(s, value.end + 1, next); }
  }

  lemma {:induction false} EndsHere(s: string, start: nat, key: Piece, value: Piece, next: nat, keys: seq<Piece>, values: seq<Piece>)
    requires start < |s| && NextPair(s, start) == KeyValue(key, value, next) && s[value.end] == '}'
    ensures PairsFrom(s, start) == MapSplit(true, keys, values) <==> next == |s| && keys == [key] && values == [value]
  {
  }

  lemma {:induction false} GoesOn(s: string, start: nat, key: Piece, value: Piece, next: nat, keys: seq<Piece>, values: seq<Piece>)
    requires start < |s| && NextPair(s, start) == KeyValue(key, value, next) && s[value.end] == ','
    ensures PairsFrom(s, start) == MapSplit(true, [key] + keys, [value] + values) <==> PairsFrom(s, next) == MapSplit(true, keys, values)
    ensures PairsFrom(s, start).ok ==> PairsFrom(s, start).keys != [] && PairsFrom(s, start).values != []
    ensures PairsFrom(s, start).ok ==> PairsFrom(s, start).keys[0] == key && PairsFrom(s, start).values[0] == value
  {
    var all, rest := PairsFrom(s, start), PairsFrom(s, next);
    assert all.keys == [key] + rest.keys && all.values == [value] + rest.values;
    assert all.keys[1..] == rest.keys && all.values[1..] == rest.values;
    assert ([key] + keys)[1..] == keys && ([value] + values)[1..] == values;
  }

  lemma {:induction false} PairsFirst(keys: seq<Piece>, values: seq<Piece>, s: string, i: nat, close: nat) returns (next: nat)
    requires i <= |s| && Pairs(keys, values, s, i, close)
    ensures IsPair(keys[0], values[0], s, i) && Gap(s, i, keys[0].start) && keys[0].start < |s|
    ensures Gap(s, values[0].end + 1, next) && NextPair(s, keys[0].start) == KeyValue(keys[0], values[0], next)
    ensures |keys| == 1 ==> values[0].end == close && s[close] == '}'
    ensures |keys| > 1 ==> s[values[0].end] == ',' && Pairs(keys[1..], values[1..], s, values[0].end + 1, close)
  {
    assert PairAt(keys, values, s, i, close, 0);
    next := SkipSpace(s, values[0].end + 1);
    GapExactly(s, values[0].end + 1, next);
    PairExactly(s, i, keys[0].start, keys[0], values[0], next);
    if |keys| > 1 { PairsRest(keys, values, s, i, close); }
  }

  lemma {:induction false} PairsRest(keys: seq<Piece>, values: seq<Piece>, s: string, i: nat, close: nat)
    requires Pairs(keys, values, s, i, close) && |keys| > 1
    ensures Pairs(keys[1..], values[1..], s, values[0].end + 1, close)
  {
    var ks, vs, from := keys[1..], values[1..], values[0].end + 1;
    forall k | 0 <= k < |ks| ensures PairAt(ks, vs, s, from, close, k) {
      assert PairAt(keys, values, s, i, close, k + 1);
    }
  }

  lemma {:induction false} OneGap(s: string, i: nat, j: nat, k: nat)
    requires Gap(s, i, j) && Gap(s, i, k)
    ensures j == k
  {
    GapExactly(s, i, j);
    GapExactly(s, i, k);
  }

  lemma {:induction false} PairsSplit(keys: seq<Piece>, values: seq<Piece>, s: string, i: nat, close: nat, start: nat)
    requires i <= |s| && Pairs(keys, values, s, i, close) && close < |s| && Gap(s, close + 1, |s|) && start == keys[0].start
    ensures Gap(s, i, start) && start < |s| && PairsFrom(s, start) == MapSplit(true, keys, values)
    decreases |keys|
  {
    var key, value := keys[0], values[0];
    var next := PairsFirst(keys, values, s, i, close);
    if |keys| == 1 {
      OneGap(s, close + 1, next, |s|);
      EndsHere(s, start, key, value, next, keys, values);
    } else {
      var ks, vs := keys[1..], values[1..];
      PairsSplit(ks, vs, s, value.end + 1, close, ks[0].start);
      OneGap(s, value.end + 1, next, ks[0].start);
      GoesOn(s, start, key, value, next, ks, vs);
      assert keys == [key] + ks && values == [value] + vs;
    }
  }

  /** Where the loop looks for pair `k`. */
  function CursorAt(values: seq<Piece>, s: string, start: nat, k: nat): nat
    requires k <= |values|
  {
    if k == 0 then start else if values[k - 1].end < |s| then SkipSpace(s, values[k - 1].end + 1) else |s|
  }

  /** Pair `k` of those that the loop finds from `start` on. */
  ghost predicate ScannedAt(keys: seq<Piece>, values: seq<Piece>, s: string, start: nat, k: nat)
    requires k < |keys| == |values|
  {
    && CursorAt(values, s, start, k) < |s| && values[k].end < |s|
    && NextPair(s, CursorAt(values, s, start, k)) == KeyValue(keys[k], values[k], CursorAt(values, s, start, k + 1))
    && (k == |keys| - 1 ==> s[values[k].end] == '}' && CursorAt(values, s, start, k + 1) == |s|)
    && (k < |keys| - 1 ==> s[values[k].end] == ',')
  }

  lemma {:induction false} ScannedShift(key: Piece, value: Piece, ks: seq<Piece>, vs: seq<Piece>, s: string, start: nat, next: nat, k: nat)
    requires k < |ks| == |vs| && value.end < |s| && next == SkipSpace(s, value.end + 1) && ScannedAt(ks, vs, s, next, k)
    ensures ScannedAt([key] + ks, [value] + vs, s, start, k + 1)
  {
    var keys, values := [key] + ks, [value] + vs;
    assert keys[k + 1] == ks[k] && values[k + 1] == vs[k] && (k > 0 ==> values[k] == vs[k - 1]);
    assert CursorAt(values, s, start, k + 1) == CursorAt(vs, s, next, k);
  }

  lemma {:induction false} ScanFirst(s: string, start: nat)
    requires start <= |s| && PairsFrom(s, start).ok
    ensures var whole := PairsFrom(s, start); |whole.keys| == |whole.values| > 0 && ScannedAt(whole.keys, whole.values, s, start, 0)
  {
    PairsCounted(s, start);
    var p := NextPair(s, start);
    if s[p.value.end] == ',' { PairsCounted(s, p.next); }
  }

  /** After the first pair the loop finds what it would find from there. */
  lemma {:induction false} ScanRest(s: string, start: nat) returns (key: Piece, value: Piece, next: nat)
    requires start <= |s| && PairsFrom(s, start).ok && |PairsFrom(s, start).keys| > 1
    ensures value.end < |s| && next == SkipSpace(s, value.end + 1) && PairsFrom(s, next).ok
    ensures PairsFrom(s, start).keys == [key] + PairsFrom(s, next).keys && PairsFrom(s, start).values == [value] + PairsFrom(s, next).values
  {
    var p := NextPair(s, start);
    key, value, next := p.key, p.value, p.next;
  }

  lemma {:induction false} ScanFound(s: string, start: nat, k: nat)
    requires start <= |s|
    ensures var whole := PairsFrom(s, start);
            whole.ok && k < |whole.keys| ==> |whole.keys| == |whole.values| && ScannedAt(whole.keys, whole.values, s, start, k)
    decreases k
  {
    var whole := PairsFrom(s, start);
    if whole.ok && k < |whole.keys| {
      if k == 0 {
        ScanFirst(s, start);
      } else {
        var key, value, next := ScanRest(s, start);
        ScanFound(s, next, k - 1);
        ScannedShift(key, value, PairsFrom(s, next).keys, PairsFrom(s, next).values, s, start, next, k - 1);
      }
    }
  }

  lemma {:induction false} ScannedIsPair(keys: seq<Piece>, values: seq<Piece>, s: string, i: nat, start: nat, k: nat)
    requires k < |keys| == |values| && Gap(s, i, start) && (k > 0 ==> values[k - 1].end < |s|) && ScannedAt(keys, values, s, start, k)
    ensures PairAt(keys, values, s, i, values[|values| - 1].end, k)
  {
    var from, at, next := if k == 0 then i else values[k - 1].end + 1, CursorAt(values, s, start, k), CursorAt(values, s, start, k + 1);
    if k > 0 { GapExactly(s, from, at); }
    PairExactly(s, from, at, keys[k], values[k], next);
  }

  lemma {:induction false} PairsFound(s: string, i: nat, start: nat, keys: seq<Piece>, values: seq<Piece>) returns (close: nat)
    requires Gap(s, i, start) && PairsFrom(s, start) == MapSplit(true, keys, values)
    ensures i <= close < |s| && s[close] == '}' && Gap(s, close + 1, |s|)
    ensures Pairs(keys, values, s, i, close) && keys[0].start == start < |s|
  {
    PairsCounted(s, start);
    close := values[|values| - 1].end;
    forall k | 0 <= k < |keys| ensures ScannedAt(keys, values, s, start, k) { ScanFound(s, start, k); }
    ScannedArePairs(keys, values, s, i, start);
    PairsReach(keys, values, s, i, close, |keys| - 1);
  }

  lemma {:induction false} ScannedArePairs(keys: seq<Piece>, values: seq<Piece>, s: string, i: nat, start: nat)
    requires |keys| == |values| > 0 && Gap(s, i, start) && forall k :: 0 <= k < |keys| ==> ScannedAt(keys, values, s, start, k)
    ensures var close := values[|values| - 1].end;
            && close < |s| && s[close] == '}' && Gap(s, close + 1, |s|)
            && Pairs(keys, values, s, i, close) && keys[0].start == start < |s|
  {
    var close := values[|values| - 1].end;
    ScannedEnds(keys, values, s, start);
    forall k | 0 <= k < |keys| ensures PairAt(keys, values, s, i, close, k) {
      assert k > 0 ==> ScannedAt(keys, values, s, start, k - 1);
      ScannedIsPair(keys, values, s, i, start, k);
    }
  }

  lemma {:induction false} ScannedEnds(keys: seq<Piece>, values: seq<Piece>, s: string, start: nat)
    requires |keys| == |values| > 0 && forall k :: 0 <= k < |keys| ==> ScannedAt(keys, values, s, start, k)
    ensures var close := values[|values| - 1].end;
            close < |s| && s[close] == '}' && Gap(s, close + 1, |s|) && keys[0].start == start < |s|
  {
    assert ScannedAt(keys, values, s, start, 0) && ScannedAt(keys, values, s, start, |keys| - 1);
    GapExactly(s, values[|values| - 1].end + 1, |s|);
  }

  lemma {:induction false} PairsReach(keys: seq<Piece>, values: seq<Piece>, s: string, i: nat, close: nat, k: nat)
    requires Pairs(keys, values, s, i, close) && k < |keys|
    ensures i < values[k].end
    decreases k
  {
    assert PairAt(keys, values, s, i, close, k);
    if k > 0 { PairsReach(keys, values, s, i, close, k - 1); }
  }

  /** For every text: it is taken for a map with these keys and values if and only if the grammar makes it one. */
  lemma {:induction false} MapExactly(s: string, keys: seq<Piece>, values: seq<Piece>)
    ensures SplitMap(s) == MapSplit(true, keys, values) <==> exists open, close :: IsMap(s, open, close, keys, values)
  {
    if SplitMap(s) == MapSplit(true, keys, values) {
      var open, close := MapFound(s, keys, values);
    }
    if open, close :| IsMap(s, open, close, keys, values) {
      MapSplits(s, open, close, keys, values);
    }
  }

  lemma {:induction false} Bracketed(s: string, open: nat, close: nat)
    requires open <= |s| && close < |s|
    ensures Gap(s, 0, open) && Gap(s, close + 1, |s|) <==> Blank(s[..open]) && (open < |s| ==> !IsSpace(s[open])) && Blank(s[close + 1..])
  {
    assert s[0..open] == s[..open] && s[close + 1..|s|] == s[close + 1..];
  }

  lemma {:induction false} MapFound(s: string, keys: seq<Piece>, values: seq<Piece>) returns (open: nat, close: nat)
    requires SplitMap(s) == MapSplit(true, keys, values)
    ensures IsMap(s, open, close, keys, values)
  {
    open := SkipSpace(s, 0);
    GapExactly(s, 0, open);
    var j := SkipSpace(s, open + 1);
    GapExactly(s, open + 1, j);
    if s[j] == '}' {
      close := j;
      GapExactly(s, close + 1, |s|);
    } else {
      close := PairsFound(s, open + 1, j, keys, values);
    }
    Bracketed(s, open, close);
  }

  lemma {:induction false} MapSplits(s: string, open: nat, close: nat, keys: seq<Piece>, values: seq<Piece>)
    requires IsMap(s, open, close, keys, values)
    ensures SplitMap(s) == MapSplit(true, keys, values)
  {
    Bracketed(s, open, close);
    GapExactly(s, 0, open);
    if keys == [] {
      GapExactly(s, open + 1, close);
      GapExactly(s, close + 1, |s|);
    } else {
      PairsSplit(keys, values, s, open + 1, close, keys[0].start);
      GapExactly(s, open + 1, keys[0].start);
    }
  }
}
