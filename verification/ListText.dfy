/**
 Nested lists of integers as text: the printer, the list splitter, and the cast that splits and
 recurses. Casting a printed value gives it back, except that a list holding a single NULL prints
 like an empty list; the exact statement covers every value.
 */
module ListText {
  import opened Basics
  import opened TextScan
  import opened IntText

  datatype Ty = IntTy | ListTy(elem: Ty)

  datatype V = Null | Int(n: int) | List(elems: seq<V>)

  /** A value of the type: leaves are 64-bit, every list is as deep as its type, NULL may stand anywhere. */
  ghost predicate Typed(v: V, ty: Ty)
    decreases v
  {
    match v
    case Null => true
    case Int(n) => ty.IntTy? && MIN <= n <= MAX
    case List(elems) => ty.ListTy? && forall i :: 0 <= i < |elems| ==> Typed(elems[i], ty.elem)
  }

  // ---------- The printer ----------

  /** The elements' texts, separated by commas. */
  function Joined(elems: seq<V>): string
    decreases elems, 0
  {
    if elems == [] then ""
    else if |elems| == 1 then Entry(elems[0])
    else Entry(elems[0]) + "," + Joined(elems[1..])
  }

  /** `entryToStringWithPos`: NULL prints as nothing. */
  function Entry(v: V): string
    decreases v, 1
  {
    match v
    case Null => ""
    case Int(n) => ShowInt(n)
    case List(elems) => "[" + Joined(elems) + "]"
  }

  /** `TypeUtils::toString` of a list entry. */
  method PrintList(elems: seq<V>) returns (text: string)
    ensures text == Entry(List(elems))
  {
    if |elems| == 0 { return "[]"; }
    text := "[";
    var i := 0;
    while i < |elems| - 1
      invariant i <= |elems| - 1
      invariant text + Joined(elems[i..]) == "[" + Joined(elems)
    {
      assert elems[i..][1..] == elems[i + 1..];
      text := text + Entry(elems[i]);
      text := text + ",";
      i := i + 1;
    }
    assert elems[i..] == [elems[i]];
    text := text + Entry(elems[i]);
    text := text + "]";
  }

  // ---------- The splitter ----------

  /** A part of the text handed to `handleValue`. */
  datatype Piece = Piece(start: nat, end: nat)

  datatype Split = Split(ok: bool, pieces: seq<Piece>)

  predicate IsQuote(c: char) { c == '\'' || c == '"' }

  /** One turn of the loop on a character that does not end a part: the next position, or nothing when
      a `[` is never closed. An unclosed `{` moves past the end; an unclosed quote is an ordinary character. */
  function ScanPart(s: string, i: nat, just: bool): (r: Option<nat>)
    requires i < |s|
    ensures r.Some? ==> i < r.value <= |s| + 1
  {
    if s[i] == '[' then
      var close := CloseAt(s, i + 1, ']');
      if close.None? then None else Some(close.value + 1)
    else if IsQuote(s[i]) && just then
      var q := FindChar(s, i + 1, s[i]);
      Some(if q.Some? then q.value + 1 else i + 1)
    else if s[i] == '{' then
      var close := CloseAt(s, i + 1, '}');
      Some(if close.None? then |s| + 1 else close.value + 1)
    else Some(i + 1)
  }

  /** The loop of `splitCStringList` from a position on. */
  function SplitFrom(s: string, i: nat, start: nat, just: bool, seen: bool): Split
    requires start <= |s| && (i < |s| ==> start <= i)
    decreases |s| - i
  {
    if i >= |s| then Split(false, [])
    else if s[i] == ',' then
      var j := SkipSpace(s, i + 1);
      var rest := SplitFrom(s, j, j, true, true);
      Split(rest.ok, [Piece(start, i)] + rest.pieces)
    else if s[i] == ']' then
      Split(SkipSpace(s, i + 1) == |s|, if start < i || seen then [Piece(start, i)] else [])
    else
      var j := ScanPart(s, i, just);
      if j.None? then Split(false, []) else SplitFrom(s, j.value, start, false, seen)
  }

  /** `splitCStringList`: whether the text is a list, and the parts it is made of. */
  function SplitList(s: string): Split {
    var i := SkipSpace(s, 0);
    if i == |s| || s[i] != '[' then Split(false, [])
    else
      var j := SkipSpace(s, i + 1);
      SplitFrom(s, j, j, true, false)
  }

  method SkipInPart(s: string, i: nat, just: bool, level: nat) returns (ok: bool, pos: nat, lvl: nat)
    requires i < |s| && level == 1
    ensures lvl < LEVELS && i <= pos <= |s|
    ensures if ok then lvl == 1 && ScanPart(s, i, just) == Some(pos + 1) else ScanPart(s, i, just).None?
  {
    ok, pos, lvl := true, i, level;
    if s[i] == '[' {
      lvl := Up(lvl);
      ok, pos, lvl := SkipToClose(s, i, lvl, ']');
    } else if IsQuote(s[i]) && just {
      var closed, q := SkipToCloseQuotes(s, i);
      if closed { pos := q; }
    } else if s[i] == '{' {
      var structLvl := 0;
      var _, q, _ := SkipToClose(s, i, structLvl, '}');
      pos := q;
    }
  }

  /** The splitter as the source runs it: cursor, level and flags advanced in place, the parts handed
      over in order. The text is arbitrary; no read is at or past its end. */
  method SplitCStringList(s: string) returns (ok: bool, pieces: seq<Piece>)
    ensures Split(ok, pieces) == SplitList(s)
  {
    var pos := SkipWhitespace(s, 0);
    if pos == |s| || s[pos] != '[' { return false, []; }
    pos := SkipWhitespace(s, pos + 1);
    var lvl: nat;
    pos, lvl, pieces := SplitParts(s, pos);
    // Without a closing bracket the cursor is already at the end or past it, and nothing more is read.
    pos := pos + 1;
    if pos <= |s| {
      pos := SkipWhitespace(s, pos);
    }
    ok := pos == |s| && lvl == 0;
  }

  /** The loop: it leaves the cursor on the closing bracket with level 0, or anywhere with another level. */
  method SplitParts(s: string, first: nat) returns (pos: nat, lvl: nat, pieces: seq<Piece>)
    requires first <= |s|
    ensures SplitFrom(s, first, first, true, false).pieces == pieces
    ensures if lvl == 0 then pos < |s| && (SplitFrom(s, first, first, true, false).ok <==> SkipSpace(s, pos + 1) == |s|)
            else !SplitFrom(s, first, first, true, false).ok
  {
    lvl, pos, pieces := 1, first, [];
    var just, seen := true, false;
    var start: nat := first;
    ghost var whole := SplitFrom(s, first, first, true, false);
    while pos < |s|
      invariant start <= |s| && (pos < |s| ==> start <= pos) && lvl == 1
      invariant Remaining(whole, pieces, SplitFrom(s, pos, start, just, seen))
      decreases |s| - pos
    {
      if s[pos] == ',' {
        var next := SkipWhitespace(s, pos + 1);
        TakePiece(whole, pieces, Piece(start, pos), SplitFrom(s, next, next, true, true));
        pieces := pieces + [Piece(start, pos)];
        seen, just, pos, start := true, true, next, next;
      } else if s[pos] == ']' {
        if start < pos || seen {
          pieces := pieces + [Piece(start, pos)];
        }
        lvl := Down(lvl);
        return;
      } else {
        var ok;
        ok, pos, lvl := SkipInPart(s, pos, just, lvl);
        if !ok { return pos, 2, pieces; }
        just := false;
        pos := pos + 1;
      }
    }
  }

  ghost predicate Remaining(whole: Split, pieces: seq<Piece>, rest: Split) {
    whole == Split(rest.ok, pieces + rest.pieces)
  }

  lemma {:induction false} TakePiece(whole: Split, pieces: seq<Piece>, p: Piece, rest: Split)
    requires Remaining(whole, pieces, Split(rest.ok, [p] + rest.pieces))
    ensures Remaining(whole, pieces + [p], rest)
  {
    assert pieces + ([p] + rest.pieces) == (pieces + [p]) + rest.pieces;
  }
}
