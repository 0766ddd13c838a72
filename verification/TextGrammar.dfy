/**
 Which texts the scanners accept, as a grammar. A token is a character, a quoted string or a group in brackets; the skip to a
 closing bracket stops at a bracket exactly when what lies before it is a sequence of tokens, whatever the text.
 */
module TextGrammar {
  import opened Basics
  import opened TextScan
  import opened ListText
  import opened ListRoundTrip
  import opened TextDocs

  datatype Token = Ch(c: char) | Str(quote: char, body: string) | Group(square: bool, inside: seq<Token>)

  function Spelled(t: Token): string
    decreases t, 0
  {
    match t
    case Ch(c) => [c]
    case Str(quote, body) => [quote] + body + [quote]
    case Group(square, inside) => [Opening(square)] + Spelling(inside) + [Closing(square)]
  }

  function Spelling(ts: seq<Token>): string
    decreases ts, 1
  {
    if ts == [] then "" else Spelled(ts[0]) + Spelling(ts[1..])
  }

  /** A token inside brackets that end with `target`: the other closing bracket and double quotes are characters. */
  predicate Inner(t: Token, target: char)
    decreases t
  {
    match t
    case Ch(c) => c != '\'' && c != '[' && c != '{' && c != target
    case Str(quote, body) => quote == '\'' && quote !in body
    case Group(square, inside) => forall k :: 0 <= k < |inside| ==> Inner(inside[k], Closing(square))
  }

  predicate Inners(ts: seq<Token>, target: char) {
    forall k :: 0 <= k < |ts| ==> Inner(ts[k], target)
  }

  // ---------- Tokens in their place ----------

  /** The text from `i` to `j` spells the tokens. */
  ghost predicate Spans(ts: seq<Token>, s: string, i: nat, j: nat) {
    At(s, i, Spelling(ts)) && j == i + |Spelling(ts)|
  }

  ghost predicate Span(t: Token, s: string, i: nat, j: nat) {
    At(s, i, Spelled(t)) && j == i + |Spelled(t)|
  }

  lemma {:induction false} SpansFirst(ts: seq<Token>, s: string, i: nat, j: nat) returns (m: nat)
    requires ts != [] && Spans(ts, s, i, j)
    ensures i <= m <= j <= |s| && Span(ts[0], s, i, m) && Spans(ts[1..], s, m, j)
  {
    m := i + |Spelled(ts[0])|;
    AtParts(s, i, Spelled(ts[0]), Spelling(ts[1..]));
  }

  lemma {:induction false} SpansMore(t: Token, ts: seq<Token>, s: string, i: nat, m: nat, j: nat)
    requires Span(t, s, i, m) && Spans(ts, s, m, j)
    ensures Spans([t] + ts, s, i, j)
  {
    assert ([t] + ts)[1..] == ts;
    assert s[i..j] == s[i..m] + s[m..j];
  }

  lemma {:induction false} SpansNone(s: string, i: nat)
    requires i <= |s|
    ensures Spans([], s, i, i)
  {
    assert s[i..i] == "";
  }

  lemma {:induction false} ChSpan(s: string, i: nat)
    requires i < |s|
    ensures Span(Ch(s[i]), s, i, i + 1)
  {
    assert s[i..i + 1] == [s[i]];
  }

  lemma {:induction false} BracketSpan(s: string, i: nat, body: string, j: nat)
    requires At(s, i + 1, body) && i + 1 + |body| == j < |s|
    ensures At(s, i, [s[i]] + body + [s[j]])
  {
    assert s[i..j + 1] == [s[i]] + s[i + 1..j] + [s[j]];
  }

  // ---------- The skip to a closing bracket ----------

  lemma {:induction false} InnerCloses(t: Token, s: string, i: nat, j: nat, target: char)
    requires Inner(t, target) && Span(t, s, i, j) && (target == ']' || target == '}')
    ensures CloseAt(s, i, target) == CloseAt(s, j, target)
    decreases t, 0
  {
    match t
    case Ch(c) => AtFirst(s, i, [c]);
    case Str(quote, body) =>
      BetweenAt(s, i, quote, body, quote, j - 1);
      QuoteFound(s, i + 1, body, quote);
      CloseQuoted(s, i, j - 1, target);
    case Group(square, inside) =>
      BetweenAt(s, i, Opening(square), Spelling(inside), Closing(square), j - 1);
      InnersClose(inside, s, i + 1, j - 1, Closing(square));
      CloseNested(s, i, j - 1, square, target);
  }

  lemma {:induction false} InnersClose(ts: seq<Token>, s: string, i: nat, j: nat, target: char)
    requires Inners(ts, target) && Spans(ts, s, i, j) && (target == ']' || target == '}')
    ensures CloseAt(s, i, target) == CloseAt(s, j, target)
    decreases ts, 1
  {
    if ts != [] {
      var m := SpansFirst(ts, s, i, j);
      InnerCloses(ts[0], s, i, m, target);
      InnersClose(ts[1..], s, m, j, target);
    }
  }

  /** A quoted string that is closed is a token. */
  lemma {:induction false} QuotedToken(s: string, i: nat) returns (t: Token)
    requires i < |s| && FindChar(s, i + 1, s[i]).Some?
    ensures var q := FindChar(s, i + 1, s[i]).value;
            t == Str(s[i], s[i + 1..q]) && s[i] !in t.body && Span(t, s, i, q + 1)
  {
    var q := FindChar(s, i + 1, s[i]).value;
    t := Str(s[i], s[i + 1..q]);
    FoundFirst(s, i + 1, s[i]);
    BracketSpan(s, i, s[i + 1..q], q);
  }

  /** So is a group that is closed. */
  lemma {:induction false} GroupToken(s: string, i: nat, square: bool, inside: seq<Token>, end: nat)
    requires i < |s| && s[i] == Opening(square) && Spans(inside, s, i + 1, end) && end < |s| && s[end] == Closing(square)
    ensures Span(Group(square, inside), s, i, end + 1)
  {
    BracketSpan(s, i, Spelling(inside), end);
  }

  lemma {:induction false} ClosePasses(s: string, i: nat, target: char)
    requires i < |s| && s[i] != target && (target == ']' || target == '}') && CloseAt(s, i, target).Some?
    ensures s[i] == '\'' ==> FindChar(s, i + 1, '\'').Some? && CloseAt(s, FindChar(s, i + 1, '\'').value + 1, target) == CloseAt(s, i, target)
    ensures forall square :: s[i] == Opening(square) ==>
              CloseAt(s, i + 1, Closing(square)).Some? && CloseAt(s, CloseAt(s, i + 1, Closing(square)).value + 1, target) == CloseAt(s, i, target)
    ensures s[i] != '\'' && s[i] != '[' && s[i] != '{' ==> CloseAt(s, i + 1, target) == CloseAt(s, i, target)
  {
  }

  lemma {:induction false} ClosedGroup(s: string, i: nat, square: bool, target: char) returns (t: Token)
    requires i < |s| && s[i] == Opening(square) && CloseAt(s, i + 1, Closing(square)).Some?
    ensures Inner(t, target) && t.Group? && t.square == square && Span(t, s, i, CloseAt(s, i + 1, Closing(square)).value + 1)
    decreases |s| - i, 0
  {
    var inside := ClosedTokens(s, i + 1, Closing(square));
    t := Group(square, inside);
    GroupToken(s, i, square, inside, CloseAt(s, i + 1, Closing(square)).value);
  }

  /** The token the scan for `target` steps over. */
  lemma {:induction false} ClosedToken(s: string, i: nat, target: char) returns (t: Token, m: nat)
    requires i < |s| && s[i] != target && (target == ']' || target == '}') && CloseAt(s, i, target).Some?
    ensures i < m <= |s| && Inner(t, target) && Span(t, s, i, m) && CloseAt(s, m, target) == CloseAt(s, i, target)
    decreases |s| - i, 1
  {
    ClosePasses(s, i, target);
    if s[i] == '\'' {
      t := QuotedToken(s, i);
      m := FindChar(s, i + 1, '\'').value + 1;
    } else if s[i] == '{' || s[i] == '[' {
      t := ClosedGroup(s, i, s[i] == '[', target);
      m := CloseAt(s, i + 1, Closing(s[i] == '[')).value + 1;
    } else {
      t, m := Ch(s[i]), i + 1;
      ChSpan(s, i);
    }
  }

  lemma {:induction false} ClosedTokens(s: string, i: nat, target: char) returns (ts: seq<Token>)
    requires i <= |s| && (target == ']' || target == '}') && CloseAt(s, i, target).Some?
    ensures Inners(ts, target) && Spans(ts, s, i, CloseAt(s, i, target).value)
    decreases |s| - i, 2
  {
    if s[i] == target {
      ts := [];
      SpansNone(s, i);
    } else {
      var t, m := ClosedToken(s, i, target);
      var rest := ClosedTokens(s, m, target);
      ts := [t] + rest;
      SpansMore(t, rest, s, i, m, CloseAt(s, i, target).value);
    }
  }

  /** The skip stops at `j` if and only if the bracket is there and the text before it is tokens. */
  lemma {:induction false} CloseExactly(s: string, i: nat, j: nat, target: char)
    requires i <= |s| && (target == ']' || target == '}')
    ensures CloseAt(s, i, target) == Some(j) <==>
              j < |s| && s[j] == target && exists ts :: Inners(ts, target) && Spans(ts, s, i, j)
  {
    if CloseAt(s, i, target) == Some(j) {
      var ts := ClosedTokens(s, i, target);
    }
    if j < |s| && s[j] == target {
      if ts :| Inners(ts, target) && Spans(ts, s, i, j) {
        InnersClose(ts, s, i, j, target);
      }
    }
  }
}
