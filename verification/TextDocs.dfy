/**
 Lists as people write them: NULL as a word in any case or as nothing, white space around every part, quoted strings, lists
 and structs inside lists. A document is one way of writing, `Written` its text. The splitter cuts it at its own commas.
 */
module TextDocs {
  import opened Basics
  import opened TextScan
  import opened IntText
  import opened ListText
  import opened ListRoundTrip

  /** A part of a list or struct, with the white space around it. */
  datatype Part = Part(before: string, doc: Doc, after: string)

  /** Plain text, a quoted string, or parts between square brackets or braces; `blank` stands between brackets without parts. */
  datatype Doc = Raw(text: string) | Quoted(quote: char, body: string) | Nest(square: bool, parts: seq<Part>, blank: string)

  function Opening(square: bool): char { if square then '[' else '{' }

  function Closing(square: bool): char { if square then ']' else '}' }

  function Written(d: Doc): string
    decreases d
  {
    match d
    case Raw(text) => text
    case Quoted(quote, body) => [quote] + body + [quote]
    case Nest(square, parts, blank) => [Opening(square)] + (if parts == [] then blank else Joined(parts)) + [Closing(square)]
  }

  function PartWritten(p: Part): string
    decreases p
  {
    p.before + Written(p.doc) + p.after
  }

  function Joined(parts: seq<Part>): string
    decreases parts
  {
    if parts == [] then ""
    else if |parts| == 1 then PartWritten(parts[0])
    else PartWritten(parts[0]) + "," + Joined(parts[1..])
  }

  // ---------- Which documents ----------

  predicate Blank(t: string) {
    forall k :: 0 <= k < |t| ==> IsSpace(t[k])
  }

  /** Not a bracket, nor a single quote: what the skip to a closing bracket passes over. */
  predicate Passable(c: char) {
    c != '\'' && c != '[' && c != ']' && c != '{' && c != '}'
  }

  predicate Plain(c: char) {
    Passable(c) && c != '"' && c != ','
  }

  predicate Edged(t: string) {
    t != "" ==> !IsSpace(t[0]) && !IsSpace(t[|t| - 1])
  }

  /** Text without brackets, quotes and commas; quoted strings without their own quote, which inside brackets keep to single
      quotes if they hold brackets; parts that are well written, white space around them. */
  predicate Well(d: Doc, inside: bool)
    decreases d
  {
    match d
    case Raw(text) => Edged(text) && forall k :: 0 <= k < |text| ==> Plain(text[k])
    case Quoted(quote, body) =>
      IsQuote(quote) && quote !in body && (inside && quote == '"' ==> forall k :: 0 <= k < |body| ==> Passable(body[k]))
    case Nest(_, parts, blank) =>
      Blank(blank) && (parts != [] ==> blank == "") && forall k :: 0 <= k < |parts| ==> WellPart(parts[k], true)
  }

  predicate WellPart(p: Part, inside: bool)
    decreases p
  {
    Blank(p.before) && Blank(p.after) && Well(p.doc, inside) && (p.doc == Raw("") ==> p.after == "")
  }

  predicate WellParts(parts: seq<Part>, inside: bool) {
    forall k :: 0 <= k < |parts| ==> WellPart(parts[k], inside)
  }

  lemma {:induction false} WrittenEdged(d: Doc, inside: bool)
    requires Well(d, inside)
    ensures Edged(Written(d)) && (Written(d) == "" <==> d == Raw(""))
  {
    match d
    case Raw(_) =>
    case Quoted(quote, body) => assert Written(d)[|Written(d)| - 1] == quote;
    case Nest(square, _, _) => assert Written(d)[|Written(d)| - 1] == Closing(square);
  }

  // ---------- Texts in their place ----------

  lemma {:induction false} PartAt(p: Part, s: string, i: nat, start: nat, end: nat)
    requires At(s, i, PartWritten(p)) && start == i + |p.before| && end == start + |Written(p.doc)|
    ensures At(s, i, p.before) && At(s, start, Written(p.doc)) && At(s, end, p.after) && end + |p.after| == i + |PartWritten(p)|
  {
    AtParts(s, i, p.before + Written(p.doc), p.after);
    AtParts(s, i, p.before, Written(p.doc));
  }

  /** The parts lie in the text from `i` to `end`. */
  ghost predicate Lie(parts: seq<Part>, s: string, i: nat, end: nat) {
    At(s, i, Joined(parts)) && end == i + |Joined(parts)|
  }

  ghost predicate Lies(p: Part, s: string, i: nat, end: nat) {
    At(s, i, PartWritten(p)) && end == i + |PartWritten(p)|
  }

  lemma {:induction false} LieFirst(parts: seq<Part>, s: string, i: nat, end: nat) returns (comma: nat)
    requires |parts| > 1 && Lie(parts, s, i, end)
    ensures Lies(parts[0], s, i, comma) && i <= comma < |s| && s[comma] == ',' && Lie(parts[1..], s, comma + 1, end)
    ensures comma == i + |PartWritten(parts[0])|
  {
    comma := i + |PartWritten(parts[0])|;
    AtComma(s, i, PartWritten(parts[0]), Joined(parts[1..]));
  }

  lemma {:induction false} LieOne(parts: seq<Part>, s: string, i: nat, end: nat)
    requires |parts| == 1 && Lie(parts, s, i, end)
    ensures Lies(parts[0], s, i, end) && i <= end <= |s|
  {
  }

  lemma {:induction false} BetweenAt(s: string, i: nat, open: char, body: string, close: char, end: nat)
    requires At(s, i, [open] + body + [close]) && end == i + 1 + |body|
    ensures end < |s| && s[i] == open && At(s, i + 1, body) && s[end] == close
  {
    assert [open] + body + [close] == [open] + (body + [close]);
    AtParts(s, i, [open], body + [close]);
    AtParts(s, i + 1, body, [close]);
    AtFirst(s, i, [open]);
    AtFirst(s, end, [close]);
  }

  lemma {:induction false} QuoteFound(s: string, i: nat, body: string, quote: char)
    requires At(s, i, body) && quote !in body && i + |body| < |s| && s[i + |body|] == quote
    ensures FindChar(s, i, quote) == Some(i + |body|)
    decreases |body|
  {
    if body != "" {
      AtFirst(s, i, body);
      QuoteFound(s, i + 1, body[1..], quote);
    }
  }

  lemma {:induction false} SpaceOver(s: string, i: nat, t: string)
    requires At(s, i, t) && Blank(t)
    ensures SkipSpace(s, i) == SkipSpace(s, i + |t|)
    decreases |t|
  {
    if t != "" {
      AtFirst(s, i, t);
      SpaceOver(s, i + 1, t[1..]);
    }
  }

  // ---------- The skip to a closing bracket ----------

  lemma {:induction false} CloseOver(s: string, i: nat, t: string, target: char)
    requires At(s, i, t) && (target == ']' || target == '}') && forall k :: 0 <= k < |t| ==> Passable(t[k])
    ensures CloseAt(s, i, target) == CloseAt(s, i + |t|, target)
    decreases |t|
  {
    if t != "" {
      AtFirst(s, i, t);
      CloseOver(s, i + 1, t[1..], target);
    }
  }

  lemma {:induction false} BlankPasses(t: string)
    requires Blank(t)
    ensures forall k :: 0 <= k < |t| ==> Plain(t[k])
  {
    forall k | 0 <= k < |t| ensures Plain(t[k]) { assert IsSpace(t[k]); }
  }

  lemma {:induction false} CloseQuoted(s: string, i: nat, q: nat, target: char)
    requires i < q < |s| && s[i] == '\'' && FindChar(s, i + 1, '\'') == Some(q) && (target == ']' || target == '}')
    ensures CloseAt(s, i, target) == CloseAt(s, q + 1, target)
  {
  }

  lemma {:induction false} CloseNested(s: string, i: nat, end: nat, square: bool, target: char)
    requires i < end < |s| && s[i] == Opening(square) && s[end] == Closing(square) && (target == ']' || target == '}')
    requires CloseAt(s, i + 1, Closing(square)) == CloseAt(s, end, Closing(square))
    ensures CloseAt(s, i + 1, Closing(square)) == Some(end)
    ensures CloseAt(s, i, target) == CloseAt(s, end + 1, target)
  {
  }

  /** A document inside brackets is balanced: the skip passes over it. */
  lemma {:induction false} CloseDoc(d: Doc, s: string, i: nat, target: char)
    requires Well(d, true) && At(s, i, Written(d)) && (target == ']' || target == '}')
    ensures CloseAt(s, i, target) == CloseAt(s, i + |Written(d)|, target)
    decreases d, 1
  {
    match d
    case Raw(text) => CloseOver(s, i, text, target);
    case Quoted(quote, body) => CloseString(quote, body, s, i, target);
    case Nest(square, _, _) => CloseNest(d, s, i, i + |Written(d)| - 1, target);
  }

  lemma {:induction false} CloseString(quote: char, body: string, s: string, i: nat, target: char)
    requires Well(Quoted(quote, body), true) && At(s, i, Written(Quoted(quote, body))) && (target == ']' || target == '}')
    ensures CloseAt(s, i, target) == CloseAt(s, i + |body| + 2, target)
  {
    var t := [quote] + body + [quote];
    BetweenAt(s, i, quote, body, quote, i + 1 + |body|);
    if quote == '"' {
      CloseOver(s, i, t, target);
    } else {
      QuoteFound(s, i + 1, body, quote);
      CloseQuoted(s, i, i + 1 + |body|, target);
    }
  }

  lemma {:induction false} NestAt(d: Doc, s: string, i: nat, end: nat)
    requires d.Nest? && At(s, i, Written(d)) && end == i + |Written(d)| - 1
    ensures i < end < |s| && s[i] == Opening(d.square) && s[end] == Closing(d.square)
    ensures d.parts != [] ==> Lie(d.parts, s, i + 1, end)
    ensures d.parts == [] ==> At(s, i + 1, d.blank) && end == i + 1 + |d.blank|
  {
    BetweenAt(s, i, Opening(d.square), if d.parts == [] then d.blank else Joined(d.parts), Closing(d.square), end);
  }

  lemma {:induction false} CloseBlank(s: string, i: nat, t: string, target: char)
    requires At(s, i, t) && Blank(t) && (target == ']' || target == '}')
    ensures CloseAt(s, i, target) == CloseAt(s, i + |t|, target)
  {
    BlankPasses(t);
    CloseOver(s, i, t, target);
  }

  /** From the opening bracket of a document the skip stops on its own closing one. */
  lemma {:induction false} CloseNest(d: Doc, s: string, i: nat, end: nat, target: char)
    requires d.Nest? && Well(d, true) && At(s, i, Written(d)) && end == i + |Written(d)| - 1 && (target == ']' || target == '}')
    ensures i < end < |s| && s[i] == Opening(d.square)
    ensures CloseAt(s, i + 1, Closing(d.square)) == Some(end) && CloseAt(s, i, target) == CloseAt(s, end + 1, target)
    decreases d, 0
  {
    NestAt(d, s, i, end);
    if d.parts == [] { CloseBlank(s, i + 1, d.blank, Closing(d.square)); } else { CloseJoined(d.parts, s, i + 1, end, Closing(d.square)); }
    CloseNested(s, i, end, d.square, target);
  }

  lemma {:induction false} CloseAround(s: string, i: nat, before: string, start: nat, end: nat, after: string, stop: nat, target: char)
    requires At(s, i, before) && Blank(before) && start == i + |before| <= end && At(s, end, after) && Blank(after) && stop == end + |after|
    requires (target == ']' || target == '}') && CloseAt(s, start, target) == CloseAt(s, end, target)
    ensures CloseAt(s, i, target) == CloseAt(s, stop, target)
  {
    CloseBlank(s, i, before, target);
    CloseBlank(s, end, after, target);
  }

  lemma {:induction false} ClosePart(p: Part, s: string, i: nat, stop: nat, target: char)
    requires WellPart(p, true) && Lies(p, s, i, stop) && (target == ']' || target == '}')
    ensures i <= stop <= |s| && CloseAt(s, i, target) == CloseAt(s, stop, target)
    decreases p, 0
  {
    var start := i + |p.before|;
    var end := start + |Written(p.doc)|;
    PartAt(p, s, i, start, end);
    CloseDoc(p.doc, s, start, target);
    CloseAround(s, i, p.before, start, end, p.after, stop, target);
  }

  lemma {:induction false} CloseThen(s: string, i: nat, comma: nat, end: nat, target: char)
    requires i <= comma < end <= |s| && s[comma] == ',' && (target == ']' || target == '}')
    requires CloseAt(s, i, target) == CloseAt(s, comma, target) && CloseAt(s, comma + 1, target) == CloseAt(s, end, target)
    ensures CloseAt(s, i, target) == CloseAt(s, end, target)
  {
  }

  lemma {:induction false} CloseJoined(parts: seq<Part>, s: string, i: nat, end: nat, target: char)
    requires parts != [] && WellParts(parts, true) && Lie(parts, s, i, end) && (target == ']' || target == '}')
    ensures i <= end <= |s| && CloseAt(s, i, target) == CloseAt(s, end, target)
    decreases parts, 0
  {
    if |parts| == 1 {
      LieOne(parts, s, i, end);
      ClosePart(parts[0], s, i, end, target);
    } else {
      var comma := LieFirst(parts, s, i, end);
      ClosePart(parts[0], s, i, comma, target);
      CloseJoined(parts[1..], s, comma + 1, end, target);
      CloseThen(s, i, comma, end, target);
    }
  }

  // ---------- The splitter ----------

  lemma {:induction false} SplitOver(s: string, i: nat, t: string, start: nat, just: bool, seen: bool)
    requires At(s, i, t) && start <= i && forall k :: 0 <= k < |t| ==> Plain(t[k])
    ensures SplitFrom(s, i, start, just, seen) == SplitFrom(s, i + |t|, start, just && t == "", seen)
    decreases |t|
  {
    if t != "" {
      AtFirst(s, i, t);
      SplitOver(s, i + 1, t[1..], start, false, seen);
    }
  }

  lemma {:induction false} SplitJump(s: string, i: nat, start: nat, just: bool, seen: bool, j: nat)
    requires start <= i < |s| && s[i] != ',' && s[i] != ']' && ScanPart(s, i, just) == Some(j)
    ensures SplitFrom(s, i, start, just, seen) == SplitFrom(s, j, start, false, seen)
  {
  }

  lemma {:induction false} SplitString(quote: char, body: string, s: string, i: nat, seen: bool)
    requires IsQuote(quote) && quote !in body && At(s, i, [quote] + body + [quote])
    ensures SplitFrom(s, i, i, true, seen) == SplitFrom(s, i + |body| + 2, i, false, seen)
  {
    BetweenAt(s, i, quote, body, quote, i + 1 + |body|);
    QuoteFound(s, i + 1, body, quote);
    SplitJump(s, i, i, true, seen, i + |body| + 2);
  }

  lemma {:induction false} SplitNest(d: Doc, s: string, i: nat, end: nat, seen: bool)
    requires d.Nest? && Well(d, true) && At(s, i, Written(d)) && end == i + |Written(d)| - 1
    ensures SplitFrom(s, i, i, true, seen) == SplitFrom(s, end + 1, i, false, seen)
  {
    CloseNest(d, s, i, end, ']');
    SplitJump(s, i, i, true, seen, end + 1);
  }

  /** The splitter passes over a document: brackets inside brackets, commas and brackets inside quotes. */
  lemma {:induction false} SplitDoc(d: Doc, s: string, i: nat, end: nat, seen: bool)
    requires Well(d, false) && At(s, i, Written(d)) && end == i + |Written(d)|
    ensures SplitFrom(s, i, i, true, seen) == SplitFrom(s, end, i, d == Raw(""), seen)
  {
    match d
    case Raw(text) => SplitOver(s, i, text, i, true, seen);
    case Quoted(quote, body) => SplitString(quote, body, s, i, seen);
    case Nest(_, _, _) => SplitNest(d, s, i, end - 1, seen);
  }

  /** Whatever was just read, a comma or a closing bracket ends the part. */
  lemma {:induction false} EndsAnyway(s: string, i: nat, start: nat, just: bool, seen: bool)
    requires start <= i < |s| && (s[i] == ',' || s[i] == ']')
    ensures SplitFrom(s, i, start, just, seen) == SplitFrom(s, i, start, false, seen)
  {
  }

  lemma {:induction false} DocStarts(t: string, s: string, start: nat)
    requires Edged(t) && At(s, start, t) && start < |s| && (t == "" ==> !IsSpace(s[start]))
    ensures SkipSpace(s, start) == start
  {
    if t != "" { AtFirst(s, start, t); }
  }

  lemma {:induction false} PartStarts(p: Part, s: string, i: nat, start: nat, stop: nat)
    requires WellPart(p, false) && Lies(p, s, i, stop) && start == i + |p.before| && stop < |s| && !IsSpace(s[stop])
    ensures SkipSpace(s, i) == start <= stop && (p.doc != Raw("") ==> start < stop)
  {
    PartAt(p, s, i, start, start + |Written(p.doc)|);
    SpaceOver(s, i, p.before);
    WrittenEdged(p.doc, false);
    DocStarts(Written(p.doc), s, start);
  }

  lemma {:induction false} SplitAfter(s: string, end: nat, after: string, start: nat, just: bool, seen: bool, stop: nat)
    requires At(s, end, after) && Blank(after) && start <= end && stop == end + |after| < |s| && (s[stop] == ',' || s[stop] == ']')
    ensures SplitFrom(s, end, start, just, seen) == SplitFrom(s, stop, start, false, seen)
  {
    BlankPasses(after);
    SplitOver(s, end, after, start, just, seen);
    EndsAnyway(s, stop, start, just && after == "", seen);
  }

  lemma {:induction false} SplitPart(p: Part, s: string, i: nat, start: nat, stop: nat, seen: bool)
    requires WellPart(p, false) && Lies(p, s, i, stop) && start == i + |p.before|
    requires stop < |s| && (s[stop] == ',' || s[stop] == ']')
    ensures SkipSpace(s, i) == start <= stop && (p.doc != Raw("") ==> start < stop)
    ensures SplitFrom(s, start, start, true, seen) == SplitFrom(s, stop, start, false, seen)
  {
    var end := start + |Written(p.doc)|;
    PartStarts(p, s, i, start, stop);
    PartAt(p, s, i, start, end);
    SplitDoc(p.doc, s, start, end, seen);
    SplitAfter(s, end, p.after, start, p.doc == Raw(""), seen, stop);
  }

  /** Where the parts lie, without the white space before them. */
  ghost function Places(parts: seq<Part>, i: nat): (r: seq<Piece>)
    ensures |r| == |parts|
  {
    if parts == [] then []
    else
      var stop := i + |PartWritten(parts[0])|;
      [Piece(i + |parts[0].before|, stop)] + Places(parts[1..], stop + 1)
  }

  lemma {:induction false} CutHere(s: string, start: nat, stop: nat, next: nat, seen: bool, rest: seq<Piece>)
    requires start <= stop < |s| && s[stop] == ',' && SkipSpace(s, stop + 1) == next
    requires SplitFrom(s, next, next, true, true) == Split(true, rest)
    ensures SplitFrom(s, stop, start, false, seen) == Split(true, [Piece(start, stop)] + rest)
  {
  }

  lemma {:induction false} EndsHere(s: string, start: nat, stop: nat, seen: bool)
    requires start <= stop < |s| && s[stop] == ']' && SkipSpace(s, stop + 1) == |s| && (start < stop || seen)
    ensures SplitFrom(s, stop, start, false, seen) == Split(true, [Piece(start, stop)])
  {
  }

  /** From `i` on, white space skipped, the text ends a list of these pieces. */
  ghost predicate Cuts(s: string, i: nat, seen: bool, pieces: seq<Piece>) {
    i <= |s| && SplitFrom(s, SkipSpace(s, i), SkipSpace(s, i), true, seen) == Split(true, pieces)
  }

  lemma {:induction false} CutsLast(p: Part, s: string, i: nat, end: nat, seen: bool)
    requires WellPart(p, false) && Lies(p, s, i, end)
    requires end < |s| && s[end] == ']' && SkipSpace(s, end + 1) == |s| && (seen || p.doc != Raw(""))
    ensures Cuts(s, i, seen, [Piece(i + |p.before|, end)])
  {
    SplitPart(p, s, i, i + |p.before|, end, seen);
    EndsHere(s, i + |p.before|, end, seen);
  }

  lemma {:induction false} CutsFirst(p: Part, s: string, i: nat, comma: nat, seen: bool, rest: seq<Piece>)
    requires WellPart(p, false) && Lies(p, s, i, comma) && comma < |s| && s[comma] == ',' && Cuts(s, comma + 1, true, rest)
    ensures Cuts(s, i, seen, [Piece(i + |p.before|, comma)] + rest)
  {
    SplitPart(p, s, i, i + |p.before|, comma, seen);
    CutHere(s, i + |p.before|, comma, SkipSpace(s, comma + 1), seen, rest);
  }

  lemma {:induction false} PlacesFirst(parts: seq<Part>, i: nat, stop: nat)
    requires parts != [] && stop == i + |PartWritten(parts[0])|
    ensures Places(parts, i) == [Piece(i + |parts[0].before|, stop)] + Places(parts[1..], stop + 1)
    ensures |parts| == 1 ==> Places(parts, i) == [Piece(i + |parts[0].before|, stop)]
  {
  }

  /** The list ends at `end`, and has a part by then. */
  ghost predicate EndsAt(s: string, end: nat) {
    end < |s| && s[end] == ']' && SkipSpace(s, end + 1) == |s|
  }

  lemma {:induction false} CutsOne(parts: seq<Part>, s: string, i: nat, end: nat, seen: bool)
    requires |parts| == 1 && WellPart(parts[0], false) && Lie(parts, s, i, end) && EndsAt(s, end) && (seen || parts[0].doc != Raw(""))
    ensures Cuts(s, i, seen, Places(parts, i))
  {
    LieOne(parts, s, i, end);
    PlacesFirst(parts, i, end);
    CutsLast(parts[0], s, i, end, seen);
  }

  lemma {:induction false} CutsMore(parts: seq<Part>, s: string, i: nat, comma: nat, seen: bool)
    requires |parts| > 1 && WellPart(parts[0], false) && Lies(parts[0], s, i, comma) && comma < |s| && s[comma] == ','
    requires Cuts(s, comma + 1, true, Places(parts[1..], comma + 1))
    ensures Cuts(s, i, seen, Places(parts, i))
  {
    PlacesFirst(parts, i, comma);
    CutsFirst(parts[0], s, i, comma, seen, Places(parts[1..], comma + 1));
  }

  /** The parts, one after the other, up to the bracket that ends the list. */
  lemma {:induction false} CutsJoined(parts: seq<Part>, s: string, i: nat, end: nat, seen: bool)
    requires parts != [] && WellParts(parts, false) && Lie(parts, s, i, end) && EndsAt(s, end)
    requires seen || |parts| > 1 || parts[0].doc != Raw("")
    ensures Cuts(s, i, seen, Places(parts, i))
    decreases |parts|
  {
    if |parts| == 1 {
      CutsOne(parts, s, i, end, seen);
    } else {
      var comma := LieFirst(parts, s, i, end);
      CutsJoined(parts[1..], s, comma + 1, end, true);
      CutsMore(parts, s, i, comma, seen);
    }
  }

  /** A list with white space around it. */
  function Around(lead: string, d: Doc, trail: string): string {
    lead + Written(d) + trail
  }

  /** A list of parts of whatever kind. */
  predicate WellList(d: Doc) {
    && d.Nest? && d.square && Blank(d.blank) && (d.parts != [] ==> d.blank == "")
    && WellParts(d.parts, false)
  }

  /** A single part that is nothing at all cannot be told from no part. */
  predicate LoneBlank(parts: seq<Part>) {
    |parts| == 1 && parts[0].doc == Raw("")
  }

  lemma {:induction false} BlankToEnd(s: string, i: nat, t: string)
    requires At(s, i, t) && i + |t| == |s| && Blank(t)
    ensures SkipSpace(s, i) == |s|
  {
    SpaceOver(s, i, t);
  }

  lemma {:induction false} SplitEmpty(s: string, i: nat)
    requires i < |s| && s[i] == ']' && SkipSpace(s, i + 1) == |s|
    ensures SplitFrom(s, i, i, true, false) == Split(true, [])
  {
  }

  lemma {:induction false} AroundAt(lead: string, t: string, trail: string, s: string)
    requires s == lead + t + trail
    ensures At(s, 0, lead) && At(s, |lead|, t) && At(s, |lead| + |t|, trail) && |lead| + |t| + |trail| == |s|
  {
    assert s[0..|s|] == s;
    AtParts(s, 0, lead + t, trail);
    AtParts(s, 0, lead, t);
  }

  lemma {:induction false} SpaceAround(lead: string, t: string, trail: string, s: string, end: nat)
    requires s == lead + t + trail && Blank(lead) && Blank(trail) && t != "" && !IsSpace(t[0]) && end == |lead| + |t| - 1
    ensures SkipSpace(s, 0) == |lead| && end < |s| && SkipSpace(s, end + 1) == |s|
  {
    AroundAt(lead, t, trail, s);
    AtFirst(s, |lead|, t);
    SpaceOver(s, 0, lead);
    BlankToEnd(s, end + 1, trail);
  }

  lemma {:induction false} Opens(d: Doc)
    requires d.Nest?
    ensures Written(d) != "" && Written(d)[0] == Opening(d.square)
  {
  }

  lemma {:induction false} ListAt(lead: string, d: Doc, trail: string, s: string, end: nat)
    requires d.Nest? && d.square && s == Around(lead, d, trail) && Blank(lead) && Blank(trail) && end == |lead| + |Written(d)| - 1
    ensures |lead| < end < |s| && SkipSpace(s, 0) == |lead| && s[|lead|] == '[' && s[end] == ']' && SkipSpace(s, end + 1) == |s|
    ensures d.parts != [] ==> Lie(d.parts, s, |lead| + 1, end)
    ensures d.parts == [] ==> At(s, |lead| + 1, d.blank) && end == |lead| + 1 + |d.blank|
  {
    var t := Written(d);
    Opens(d);
    AroundAt(lead, t, trail, s);
    SpaceAround(lead, t, trail, s, end);
    NestAt(d, s, |lead|, end);
  }

  lemma {:induction false} SplitNothing(s: string, i: nat, t: string, end: nat)
    requires At(s, i, t) && Blank(t) && end == i + |t| < |s| && s[end] == ']' && SkipSpace(s, end + 1) == |s|
    ensures SkipSpace(s, i) == end && SplitFrom(s, end, end, true, false) == Split(true, [])
  {
    SpaceOver(s, i, t);
    SplitEmpty(s, end);
  }

  lemma {:induction false} OpensList(s: string, i: nat)
    requires i < |s| && SkipSpace(s, 0) == i && s[i] == '['
    ensures var next := SkipSpace(s, i + 1); SplitList(s) == SplitFrom(s, next, next, true, false)
  {
  }

  /** The splitter cuts a list, however it is written, into exactly its parts. */
  lemma {:induction false} SplitWritten(lead: string, d: Doc, trail: string)
    requires WellList(d) && Blank(lead) && Blank(trail)
    ensures SplitList(Around(lead, d, trail)) ==
              Split(true, if LoneBlank(d.parts) then [] else Places(d.parts, |lead| + 1))
  {
    var s, end := Around(lead, d, trail), |lead| + |Written(d)| - 1;
    ListAt(lead, d, trail, s, end);
    OpensList(s, |lead|);
    if d.parts == [] {
      SplitNothing(s, |lead| + 1, d.blank, end);
    } else if LoneBlank(d.parts) {
      LieOne(d.parts, s, |lead| + 1, end);
      assert PartWritten(d.parts[0]) == d.parts[0].before;
      SplitNothing(s, |lead| + 1, d.parts[0].before, end);
    } else {
      CutsJoined(d.parts, s, |lead| + 1, end, false);
    }
  }

  lemma {:induction false} OkCloses(s: string, i: nat, start: nat, just: bool, seen: bool) returns (end: nat)
    requires start <= |s| && (i < |s| ==> start <= i) && SplitFrom(s, i, start, just, seen).ok
    ensures i <= end < |s| && s[end] == ']' && SkipSpace(s, end + 1) == |s|
    decreases |s| - i
  {
    if s[i] == ',' {
      var j := SkipSpace(s, i + 1);
      end := OkCloses(s, j, j, true, true);
    } else if s[i] == ']' {
      end := i;
    } else {
      end := OkCloses(s, ScanPart(s, i, just).value, start, false, seen);
    }
  }

  lemma {:induction false} SpaceIsBlank(s: string, i: nat, j: nat)
    requires i <= |s| && SkipSpace(s, i) == j
    ensures Blank(s[i..j])
  {
    SpaceSkipped(s, i);
  }

  /** Whatever the text, what is taken for a list begins with a bracket and ends with one, white space aside. */
  lemma {:induction false} ListsAreBracketed(s: string) returns (open: nat, close: nat)
    requires SplitList(s).ok
    ensures open < close < |s| && Blank(s[..open]) && s[open] == '[' && s[close] == ']' && Blank(s[close + 1..])
  {
    open := SkipSpace(s, 0);
    SpaceIsBlank(s, 0, open);
    assert s[0..open] == s[..open];
    var j := SkipSpace(s, open + 1);
    close := OkCloses(s, j, j, true, false);
    SpaceIsBlank(s, close + 1, |s|);
    assert s[close + 1..|s|] == s[close + 1..];
  }

  lemma {:induction false} PlaceAt(parts: seq<Part>, s: string, i: nat, end: nat, k: nat) returns (at: nat)
    requires Lie(parts, s, i, end) && k < |parts|
    ensures Lies(parts[k], s, at, Places(parts, i)[k].end) && Places(parts, i)[k].start == at + |parts[k].before|
    decreases |parts|
  {
    if |parts| == 1 {
      LieOne(parts, s, i, end);
      at := i;
    } else {
      var comma := LieFirst(parts, s, i, end);
      if k == 0 { at := i; } else { at := PlaceAt(parts[1..], s, comma + 1, end, k - 1); }
    }
  }

  lemma {:induction false} TrimBlank(t: string, after: string)
    requires Edged(t) && Blank(after)
    ensures SkipSpace(t + after, 0) == 0 || (t == "" && after != "")
    ensures t != "" || after == "" ==> TrimEnd(t + after, 0, |t + after|) == |t|
    decreases |after|
  {
    var s := t + after;
    if after != "" {
      var fewer := after[..|after| - 1];
      TrimBlank(t, fewer);
      assert s[|s| - 1] == after[|after| - 1] && s[..|s| - 1] == t + fewer;
      if t != "" { TrimShorter(s, |s| - 1); assert s[0] == t[0]; }
    } else {
      assert s == t;
    }
  }

  lemma {:induction false} TrimShorter(s: string, j: nat)
    requires j <= |s|
    ensures TrimEnd(s, 0, j) == TrimEnd(s[..j], 0, j)
    decreases j
  {
    if j > 0 && IsSpace(s[j - 1]) {
      TrimShorter(s, j - 1);
      TrimShorter(s[..j], j - 1);
      assert s[..j][..j - 1] == s[..j - 1];
    }
  }

  /** What `handleValue` passes on of a part is the document. */
  lemma {:induction false} PartReads(p: Part, s: string, place: Piece)
    requires WellPart(p, false) && place.start <= place.end <= |s| && place.end == place.start + |Written(p.doc)| + |p.after|
    requires At(s, place.start, Written(p.doc)) && At(s, place.start + |Written(p.doc)|, p.after)
    ensures PartText(s, place) == Written(p.doc)
  {
    var t, part := Written(p.doc), s[place.start..place.end];
    assert part == t + p.after;
    WrittenEdged(p.doc, false);
    TrimBlank(t, p.after);
    assert part[0..|t|] == t;
  }

  ghost function Texts(parts: seq<Part>): (r: seq<string>)
    ensures |r| == |parts|
  {
    seq(|parts|, k requires 0 <= k < |parts| => Written(parts[k].doc))
  }

  lemma {:induction false} PlacesRead(parts: seq<Part>, s: string, i: nat, end: nat)
    requires WellParts(parts, false) && Lie(parts, s, i, end)
    ensures Inside(s, Places(parts, i)) && PartTexts(s, Places(parts, i)) == Texts(parts)
  {
    var places := Places(parts, i);
    forall k | 0 <= k < |parts|
      ensures places[k].start <= places[k].end <= |s| && PartText(s, places[k]) == Written(parts[k].doc)
    {
      var p := parts[k];
      var at := PlaceAt(parts, s, i, end, k);
      PartAt(p, s, at, places[k].start, places[k].start + |Written(p.doc)|);
      PartReads(p, s, places[k]);
    }
  }

  /** The parts handed over are the documents, in order, commas, brackets and quotes inside them untouched. */
  lemma {:induction false} PartsWritten(lead: string, d: Doc, trail: string)
    requires WellList(d) && Blank(lead) && Blank(trail)
    ensures var s := Around(lead, d, trail); var split := SplitList(s);
            split.ok && Inside(s, split.pieces) && PartTexts(s, split.pieces) == if LoneBlank(d.parts) then [] else Texts(d.parts)
  {
    var s, end := Around(lead, d, trail), |lead| + |Written(d)| - 1;
    ListAt(lead, d, trail, s, end);
    SplitWritten(lead, d, trail);
    if d.parts != [] && !LoneBlank(d.parts) {
      PlacesRead(d.parts, s, |lead| + 1, end);
    } else {
      assert PartTexts(s, []) == [];
      assert d.parts == [] ==> Texts(d.parts) == [] && Places(d.parts, |lead| + 1) == [];
    }
  }
}
