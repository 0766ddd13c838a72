/**
 The list splitter accepts exactly the texts of a grammar, and hands over exactly their parts: white space, a bracket, parts
 separated by commas with white space before each, a bracket, white space.
 */
module ListGrammar {
  import opened Basics
  import opened TextScan
  import opened ListText
  import opened ListRoundTrip
  import opened TextDocs
  import opened TextGrammar

  /** A token of a part, other than its first: a quote is a character here. */
  predicate Outer(t: Token) {
    match t
    case Ch(c) => c != ',' && c != ']' && c != '[' && c != '{'
    case Str(_, _) => false
    case Group(square, inside) => Inners(inside, Closing(square))
  }

  predicate Outers(ts: seq<Token>) {
    forall k :: 0 <= k < |ts| ==> Outer(ts[k])
  }

  /** The first token of a part: a quote that comes again anywhere in the text opens a string, one that does not is a character. */
  predicate Starts(t: Token, after: string) {
    match t
    case Ch(c) => Outer(t) && !IsSpace(c) && (IsQuote(c) ==> c !in after)
    case Str(quote, body) => IsQuote(quote) && quote !in body
    case Group(_, _) => Outer(t)
  }

  /** The text from `i` to `j` is a part. */
  ghost predicate PartOf(ts: seq<Token>, s: string, i: nat, j: nat) {
    Spans(ts, s, i, j) && (ts != [] ==> i < |s| && Starts(ts[0], s[i + 1..]) && Outers(ts[1..]))
  }

  // ---------- A part is passed over ----------

  lemma {:induction false} GroupClosed(t: Token, s: string, i: nat, j: nat)
    requires t.Group? && Inners(t.inside, Closing(t.square)) && Span(t, s, i, j)
    ensures i < j - 1 < |s| && s[i] == Opening(t.square) && CloseAt(s, i + 1, Closing(t.square)) == Some(j - 1)
  {
    BetweenAt(s, i, Opening(t.square), Spelling(t.inside), Closing(t.square), j - 1);
    InnersClose(t.inside, s, i + 1, j - 1, Closing(t.square));
  }

  lemma {:induction false} OverOuter(t: Token, s: string, i: nat, j: nat, just: bool)
    requires Outer(t) && Span(t, s, i, j) && (just && t.Ch? && IsQuote(t.c) ==> i < |s| && t.c !in s[i + 1..])
    ensures i < |s| && s[i] != ',' && s[i] != ']' && ScanPart(s, i, just) == Some(j)
  {
    if t.Group? {
      GroupClosed(t, s, i, j);
    } else {
      AtFirst(s, i, [t.c]);
    }
  }

  lemma {:induction false} OverString(t: Token, s: string, i: nat, j: nat)
    requires t.Str? && IsQuote(t.quote) && t.quote !in t.body && Span(t, s, i, j)
    ensures i < |s| && s[i] != ',' && s[i] != ']' && ScanPart(s, i, true) == Some(j)
  {
    BetweenAt(s, i, t.quote, t.body, t.quote, j - 1);
    QuoteFound(s, i + 1, t.body, t.quote);
  }

  lemma {:induction false} OverOuters(ts: seq<Token>, s: string, i: nat, j: nat, start: nat, seen: bool)
    requires Outers(ts) && Spans(ts, s, i, j) && start <= i
    ensures SplitFrom(s, i, start, false, seen) == SplitFrom(s, j, start, false, seen)
    decreases |ts|
  {
    if ts != [] {
      var m := SpansFirst(ts, s, i, j);
      OverOuter(ts[0], s, i, m, false);
      OverOuters(ts[1..], s, m, j, start, seen);
    }
  }

  lemma {:induction false} OverPart(ts: seq<Token>, s: string, i: nat, j: nat, seen: bool)
    requires PartOf(ts, s, i, j) && j < |s| && (s[j] == ',' || s[j] == ']')
    ensures i <= j && SplitFrom(s, i, i, true, seen) == SplitFrom(s, j, i, false, seen)
  {
    if ts != [] {
      var m := SpansFirst(ts, s, i, j);
      if ts[0].Str? { OverString(ts[0], s, i, m); } else { OverOuter(ts[0], s, i, m, true); }
      OverOuters(ts[1..], s, m, j, i, seen);
    }
  }

  // ---------- What is passed over is a part ----------

  /** One turn of the loop that does not end a part, in a list that is accepted. */
  lemma {:induction false} TurnToken(s: string, i: nat, just: bool) returns (t: Token, m: nat)
    requires i < |s| && s[i] != ',' && s[i] != ']' && ScanPart(s, i, just).Some? && ScanPart(s, i, just).value <= |s|
    ensures m == ScanPart(s, i, just).value && i < m <= |s| && Span(t, s, i, m)
    ensures if just && IsQuote(s[i]) && FindChar(s, i + 1, s[i]).Some? then t.Str? && t.quote == s[i] && s[i] !in t.body
            else Outer(t) && (t.Ch? ==> t.c == s[i])
  {
    m := ScanPart(s, i, just).value;
    if s[i] == '[' || s[i] == '{' {
      t := ClosedGroup(s, i, s[i] == '[', Closing(s[i] == '['));
    } else if IsQuote(s[i]) && just && FindChar(s, i + 1, s[i]).Some? {
      t := QuotedToken(s, i);
    } else {
      t := Ch(s[i]);
      ChSpan(s, i);
    }
  }

  lemma {:induction false} OutersFound(s: string, i: nat, start: nat, seen: bool) returns (ts: seq<Token>, j: nat)
    requires start <= i && i <= |s| && SplitFrom(s, i, start, false, seen).ok
    ensures i <= j < |s| && (s[j] == ',' || s[j] == ']') && Outers(ts) && Spans(ts, s, i, j)
    ensures SplitFrom(s, i, start, false, seen) == SplitFrom(s, j, start, false, seen)
    decreases |s| - i
  {
    if s[i] == ',' || s[i] == ']' {
      ts, j := [], i;
      SpansNone(s, i);
    } else {
      var t, m := TurnToken(s, i, false);
      var rest;
      rest, j := OutersFound(s, m, start, seen);
      ts := [t] + rest;
      SpansMore(t, rest, s, i, m, j);
    }
  }

  lemma {:induction false} NotFoundAfter(s: string, i: nat)
    requires i < |s| && FindChar(s, i + 1, s[i]).None?
    ensures s[i] !in s[i + 1..]
  {
    FoundFirst(s, i + 1, s[i]);
  }

  lemma {:induction false} PartFound(s: string, i: nat, seen: bool) returns (ts: seq<Token>, j: nat)
    requires i < |s| && !IsSpace(s[i]) && SplitFrom(s, i, i, true, seen).ok
    ensures i <= j < |s| && (s[j] == ',' || s[j] == ']') && PartOf(ts, s, i, j)
    ensures SplitFrom(s, i, i, true, seen) == SplitFrom(s, j, i, false, seen)
  {
    if s[i] == ',' || s[i] == ']' {
      ts, j := [], i;
      SpansNone(s, i);
    } else {
      var t, m := TurnToken(s, i, true);
      var rest;
      rest, j := OutersFound(s, m, i, seen);
      ts := [t] + rest;
      SpansMore(t, rest, s, i, m, j);
      assert ts[1..] == rest;
      if IsQuote(s[i]) && !t.Str? { NotFoundAfter(s, i); }
    }
  }

  /** The text from `i` to the comma or bracket at `j` is a part. */
  ghost predicate IsPart(s: string, i: nat, j: nat) {
    i <= j < |s| && (s[j] == ',' || s[j] == ']') && exists ts :: PartOf(ts, s, i, j)
  }

  lemma {:induction false} PartStart(ts: seq<Token>, s: string, i: nat, j: nat)
    requires PartOf(ts, s, i, j) && j < |s| && (s[j] == ',' || s[j] == ']')
    ensures i <= j && !IsSpace(s[i])
  {
    if ts != [] {
      var m := SpansFirst(ts, s, i, j);
      match ts[0]
      case Ch(c) => AtFirst(s, i, [c]);
      case Str(quote, body) => BetweenAt(s, i, quote, body, quote, m - 1);
      case Group(square, inside) => BetweenAt(s, i, Opening(square), Spelling(inside), Closing(square), m - 1);
    }
  }

  lemma {:induction false} PartSplits(s: string, i: nat, j: nat, seen: bool)
    requires IsPart(s, i, j)
    ensures !IsSpace(s[i]) && SplitFrom(s, i, i, true, seen) == SplitFrom(s, j, i, false, seen)
  {
    var ts :| PartOf(ts, s, i, j);
    PartStart(ts, s, i, j);
    OverPart(ts, s, i, j, seen);
  }

  // ---------- Lists ----------

  /** From `i` to `close`: parts separated by commas, white space before each. */
  ghost predicate Row(pieces: seq<Piece>, s: string, i: nat, close: nat)
    decreases |pieces|
  {
    && pieces != [] && i <= pieces[0].start <= pieces[0].end <= close < |s|
    && Blank(s[i..pieces[0].start]) && IsPart(s, pieces[0].start, pieces[0].end)
    && if |pieces| == 1 then pieces[0].end == close
       else s[pieces[0].end] == ',' && Row(pieces[1..], s, pieces[0].end + 1, close)
  }

  /** The text is a list with these parts; one part that is nothing is no part. */
  ghost predicate IsList(s: string, open: nat, close: nat, pieces: seq<Piece>) {
    && open < close < |s| && Blank(s[..open]) && s[open] == '[' && s[close] == ']' && Blank(s[close + 1..])
    && if pieces == [] then Blank(s[open + 1..close])
       else Row(pieces, s, open + 1, close) && (|pieces| == 1 ==> pieces[0].start < pieces[0].end)
  }

  lemma {:induction false} SpaceUpTo(s: string, i: nat, j: nat)
    requires i <= j <= |s| && Blank(s[i..j]) && (j < |s| ==> !IsSpace(s[j]))
    ensures SkipSpace(s, i) == j
  {
    SpaceOver(s, i, s[i..j]);
  }

  lemma {:induction false} CloseSplits(s: string, start: nat, close: nat, seen: bool)
    requires start <= close < |s| && s[close] == ']' && SkipSpace(s, close + 1) == |s| && (seen || start < close)
    ensures SplitFrom(s, close, start, false, seen) == Split(true, [Piece(start, close)])
  {
  }

  lemma {:induction false} CommaSplits(s: string, start: nat, comma: nat, seen: bool, next: nat, rest: seq<Piece>, pieces: seq<Piece>)
    requires start <= comma < |s| && s[comma] == ',' && SkipSpace(s, comma + 1) == next
    requires SplitFrom(s, next, next, true, true) == Split(true, rest) && pieces == [Piece(start, comma)] + rest
    ensures SplitFrom(s, comma, start, false, seen) == Split(true, pieces)
  {
  }

  lemma {:induction false} RowSplits(pieces: seq<Piece>, s: string, i: nat, close: nat, seen: bool, start: nat)
    requires Row(pieces, s, i, close) && s[close] == ']' && SkipSpace(s, close + 1) == |s|
    requires start == pieces[0].start && (seen || |pieces| > 1 || start < pieces[0].end)
    ensures i <= start <= |s| && SkipSpace(s, i) == start && SplitFrom(s, start, start, true, seen) == Split(true, pieces)
    decreases |pieces|
  {
    var p := pieces[0];
    PartSplits(s, p.start, p.end, seen);
    SpaceUpTo(s, i, p.start);
    if |pieces| == 1 {
      CloseSplits(s, start, close, seen);
      assert pieces == [p];
    } else {
      var rest := pieces[1..];
      RowSplits(rest, s, p.end + 1, close, true, rest[0].start);
      CommaSplits(s, start, p.end, seen, rest[0].start, rest, pieces);
    }
  }

  lemma {:induction false} AtClose(s: string, start: nat, close: nat, seen: bool, pieces: seq<Piece>)
    requires start <= close < |s| && s[close] == ']' && SplitFrom(s, close, start, false, seen) == Split(true, pieces)
    ensures SkipSpace(s, close + 1) == |s| && pieces == if start < close || seen then [Piece(start, close)] else []
  {
  }

  lemma {:induction false} AtComma(s: string, start: nat, comma: nat, seen: bool, pieces: seq<Piece>) returns (next: nat, more: seq<Piece>)
    requires start <= comma < |s| && s[comma] == ',' && SplitFrom(s, comma, start, false, seen) == Split(true, pieces)
    ensures next == SkipSpace(s, comma + 1) && SplitFrom(s, next, next, true, true) == Split(true, more) && pieces == [Piece(start, comma)] + more
  {
    next := SkipSpace(s, comma + 1);
    more := SplitFrom(s, next, next, true, true).pieces;
  }

  /** The next part, and what is left after the comma that ends it. */
  lemma {:induction false} NextFound(s: string, i: nat, start: nat, seen: bool, pieces: seq<Piece>) returns (j: nat, next: nat, more: seq<Piece>)
    requires i <= |s| && start == SkipSpace(s, i) && SplitFrom(s, start, start, true, seen) == Split(true, pieces)
    ensures Blank(s[i..start]) && IsPart(s, start, j)
    ensures s[j] == ']' ==> SkipSpace(s, j + 1) == |s| && pieces == if start < j || seen then [Piece(start, j)] else []
    ensures s[j] == ',' ==> next == SkipSpace(s, j + 1) && SplitFrom(s, next, next, true, true) == Split(true, more) &&
                            pieces == [Piece(start, j)] + more
  {
    SpaceSkipped(s, i);
    SpaceIsBlank(s, i, start);
    var ts;
    ts, j := PartFound(s, start, seen);
    if s[j] == ']' {
      AtClose(s, start, j, seen, pieces);
      next, more := |s|, [];
    } else {
      next, more := AtComma(s, start, j, seen, pieces);
    }
  }

  lemma {:induction false} RowMore(p: Piece, more: seq<Piece>, s: string, i: nat, close: nat)
    requires i <= p.start && IsPart(s, p.start, p.end) && Blank(s[i..p.start]) && s[p.end] == ',' && Row(more, s, p.end + 1, close)
    ensures Row([p] + more, s, i, close)
  {
    assert ([p] + more)[1..] == more;
  }

  /** What the splitter finds from `i` on, up to the bracket that ends the list. */
  lemma {:induction false} RowFound(s: string, i: nat, start: nat, seen: bool, pieces: seq<Piece>) returns (close: nat)
    requires i <= |s| && start == SkipSpace(s, i) && SplitFrom(s, start, start, true, seen) == Split(true, pieces)
    ensures i <= close < |s| && s[close] == ']' && SkipSpace(s, close + 1) == |s|
    ensures pieces == [] ==> !seen && Blank(s[i..close])
    ensures pieces != [] ==> Row(pieces, s, i, close) && (seen || |pieces| > 1 || pieces[0].start < pieces[0].end)
    decreases |s| - i
  {
    var j, next, more := NextFound(s, i, start, seen, pieces);
    if s[j] == ']' {
      close := j;
    } else {
      close := RowFound(s, j + 1, next, true, more);
      RowMore(Piece(start, j), more, s, i, close);
    }
  }

  /** For every text: it is taken for a list with these parts if and only if the grammar makes it one. */
  lemma {:induction false} SplitExactly(s: string, pieces: seq<Piece>)
    ensures SplitList(s) == Split(true, pieces) <==> exists open, close :: IsList(s, open, close, pieces)
  {
    if SplitList(s) == Split(true, pieces) {
      var open := SkipSpace(s, 0);
      SpaceIsBlank(s, 0, open);
      assert s[0..open] == s[..open];
      var close := RowFound(s, open + 1, SkipSpace(s, open + 1), false, pieces);
      SpaceIsBlank(s, close + 1, |s|);
      assert s[close + 1..|s|] == s[close + 1..];
      assert IsList(s, open, close, pieces);
    }
    if open, close :| IsList(s, open, close, pieces) {
      ListSplits(s, open, close, pieces);
    }
  }

  lemma {:induction false} ListSplits(s: string, open: nat, close: nat, pieces: seq<Piece>)
    requires IsList(s, open, close, pieces)
    ensures SplitList(s) == Split(true, pieces)
  {
    assert s[0..open] == s[..open];
    SpaceUpTo(s, 0, open);
    assert s[close + 1..|s|] == s[close + 1..];
    SpaceUpTo(s, close + 1, |s|);
    if pieces == [] {
      SpaceUpTo(s, open + 1, close);
      SplitEmpty(s, close);
    } else {
      RowSplits(pieces, s, open + 1, close, false, pieces[0].start);
    }
  }
}
