/**
 Casting lists and maps as people write them gives exactly the values meant, lone NULLs included.
 */
module DocCast {
  import opened Basics
  import opened TextScan
  import opened IntText
  import opened ListText
  import opened ListRoundTrip
  import opened MapText
  import opened MapCast
  import opened MapRoundTrip
  import opened TextDocs

  // ---------- Which texts are NULL ----------

  /** The word NULL, each letter in either case. */
  predicate NullWord(t: string) {
    |t| == 4 && forall k :: 0 <= k < 4 ==> t[k] == "NULL"[k] || t[k] == "null"[k]
  }

  lemma {:induction false} BlankBefore(t: string, i: nat)
    requires i <= |t| && SkipSpace(t, 0) == i
    ensures Blank(t[..i])
  {
    SpaceSkipped(t, 0);
  }

  lemma {:induction false} BlankRest(t: string, i: nat)
    requires i <= |t|
    ensures SkipSpace(t, i) == |t| <==> Blank(t[i..])
  {
    SpaceSkipped(t, i);
    if Blank(t[i..]) {
      SpaceOver(t, i, t[i..]);
    } else {
      var k :| 0 <= k < |t[i..]| && !IsSpace(t[i..][k]);
      assert t[i..][k] == t[i + k];
    }
  }

  /** The word NULL at a place, and white space around it. */
  ghost predicate WordAt(t: string, i: nat) {
    i + 4 <= |t| && Blank(t[..i]) && NullWord(t[i..i + 4]) && Blank(t[i + 4..])
  }

  lemma {:induction false} LettersAt(t: string, i: nat)
    requires i + 4 <= |t|
    ensures NullWord(t[i..i + 4]) <==>
              && (t[i] == 'N' || t[i] == 'n') && (t[i + 1] == 'U' || t[i + 1] == 'u')
              && (t[i + 2] == 'L' || t[i + 2] == 'l') && (t[i + 3] == 'L' || t[i + 3] == 'l')
  {
    var w := t[i..i + 4];
    assert w[0] == t[i] && w[1] == t[i + 1] && w[2] == t[i + 2] && w[3] == t[i + 3];
  }

  lemma {:induction false} WordFound(t: string, i: nat)
    requires WordAt(t, i)
    ensures SkipSpace(t, 0) == i && IsNull(t)
  {
    assert At(t, 0, t[..i]);
    SpaceOver(t, 0, t[..i]);
    LettersAt(t, i);
    BlankRest(t, i + 4);
  }

  /** A text is NULL exactly when it is blank, or the word with white space around it. */
  lemma {:induction false} IsNullExactly(t: string)
    ensures IsNull(t) <==> Blank(t) || exists i :: WordAt(t, i)
  {
    var j := SkipSpace(t, 0);
    BlankRest(t, 0);
    assert t[0..] == t;
    if i :| WordAt(t, i) { WordFound(t, i); }
    if IsNull(t) && j < |t| {
      BlankBefore(t, j);
      LettersAt(t, j);
      BlankRest(t, j + 4);
      assert WordAt(t, j);
    }
  }

  // ---------- What a document means ----------

  /** Nothing and the word are NULL, a number is its digits, a list its parts; one part that is nothing is no way to write
      a list of one NULL. */
  ghost predicate Means(d: Doc, v: V)
    decreases d
  {
    match d
    case Raw(text) => (v == Null && (text == "" || NullWord(text))) || (v.Int? && text == ShowInt(v.n))
    case Quoted(_, _) => false
    case Nest(square, parts, _) =>
      square && v.List? && !LoneBlank(parts) && |parts| == |v.elems| && forall k :: 0 <= k < |parts| ==> Means(parts[k].doc, v.elems[k])
  }

  /** Every list can be written so. */
  function Spelled(v: V): Doc
    decreases v
  {
    match v
    case Null => Raw("NULL")
    case Int(n) => Raw(ShowInt(n))
    case List(elems) => Nest(true, seq(|elems|, k requires 0 <= k < |elems| => Part("", Spelled(elems[k]), "")), "")
  }

  lemma {:induction false} EveryValueWritten(v: V)
    ensures Means(Spelled(v), v) && Well(Spelled(v), true)
    decreases v
  {
    match v
    case Null =>
    case Int(n) => assert forall k :: 0 <= k < |ShowInt(n)| ==> TextDocs.Plain(ShowInt(n)[k]);
    case List(elems) =>
      var parts := Spelled(v).parts;
      forall k | 0 <= k < |elems| ensures Means(parts[k].doc, elems[k]) && WellPart(parts[k], true) { EveryValueWritten(elems[k]); }
      if |elems| == 1 && elems[0].Int? { assert ShowInt(elems[0].n) != ""; }
  }

  // ---------- Casting a list ----------

  lemma {:induction false} Loosened(d: Doc)
    requires Well(d, true)
    ensures Well(d, false)
  {
  }

  lemma {:induction false} ListLoosened(d: Doc)
    requires Well(d, true) && d.Nest? && d.square
    ensures WellList(d)
  {
    forall k | 0 <= k < |d.parts| ensures WellPart(d.parts[k], false) { Loosened(d.parts[k].doc); }
  }

  lemma {:induction false} WordIsNull(t: string)
    requires t == "" || NullWord(t)
    ensures IsNull(t)
  {
    if t != "" { assert SkipSpace(t, 0) == 0 && SkipSpace(t, 4) == 4; }
  }

  lemma {:induction false} NotNull(t: string)
    requires t != "" && !IsSpace(t[0]) && t[0] != 'N' && t[0] != 'n'
    ensures !IsNull(t)
  {
  }

  lemma {:induction false} CopyRaw(t: string, v: V, ty: Ty)
    requires Means(Raw(t), v) && Typed(v, ty)
    ensures CopyString(ty, t) == Some(v)
  {
    if v == Null {
      WordIsNull(t);
    } else {
      assert ListRoundTrip.Plain(t[0]);
      NotNull(t);
      ReadUndoesShow(v.n);
    }
  }

  lemma {:induction false} AroundNothing(d: Doc)
    ensures Around("", d, "") == Written(d) && (d.Nest? ==> Written(d) != "" && Written(d)[0] == Opening(d.square))
  {
  }

  /** Each part, read in its place, is the value meant. */
  lemma {:induction false} CopyDoc(d: Doc, v: V, ty: Ty)
    requires Well(d, true) && Means(d, v) && Typed(v, ty)
    ensures CopyString(ty, Written(d)) == Some(v)
    decreases d, 2
  {
    match d
    case Raw(text) => CopyRaw(text, v, ty);
    case Nest(_, _, _) =>
      AroundNothing(d);
      CastDoc("", d, "", v, ty);
      NotNull(Written(d));
  }

  lemma {:induction false} GatherFirst(cast: string -> Option<V>, texts: seq<string>, vs: seq<V>)
    requires texts != [] && vs != [] && cast(texts[0]) == Some(vs[0]) && Gather(cast, texts[1..]) == Some(vs[1..])
    ensures Gather(cast, texts) == Some(vs)
  {
    assert [vs[0]] + vs[1..] == vs;
  }

  lemma {:induction false} GatherDocs(parts: seq<Part>, vs: seq<V>, ty: Ty)
    requires |parts| == |vs| && forall k :: 0 <= k < |parts| ==> Well(parts[k].doc, true) && Means(parts[k].doc, vs[k]) && Typed(vs[k], ty)
    ensures Gather(Copier(ty), Texts(parts)) == Some(vs)
    decreases parts, 0
  {
    if parts != [] {
      CopyDoc(parts[0].doc, vs[0], ty);
      GatherDocs(parts[1..], vs[1..], ty);
      assert Texts(parts)[1..] == Texts(parts[1..]);
      GatherFirst(Copier(ty), Texts(parts), vs);
    }
  }

  lemma {:induction false} CastOfParts(ty: Ty, s: string, texts: seq<string>, vs: seq<V>)
    requires ty.ListTy? && SplitList(s).ok && Inside(s, SplitList(s).pieces) && PartTexts(s, SplitList(s).pieces) == texts
    requires Gather(Copier(ty.elem), texts) == Some(vs)
    ensures Cast(ty, s) == Some(List(vs))
  {
  }

  /** However a list is written, NULL as the word or as nothing, white space wherever a part begins or ends, casting its text
      gives exactly the list meant. */
  lemma {:induction false} CastDoc(lead: string, d: Doc, trail: string, v: V, ty: Ty)
    requires Well(d, true) && d.Nest? && Means(d, v) && Typed(v, ty) && Blank(lead) && Blank(trail)
    ensures Cast(ty, Around(lead, d, trail)) == Some(v)
    decreases d, 1
  {
    ListLoosened(d);
    PartsWritten(lead, d, trail);
    GatherDocs(d.parts, v.elems, ty.elem);
    CastOfParts(ty, Around(lead, d, trail), Texts(d.parts), v.elems);
  }

  /** So every typed list can be written in a way that is cast back to it. */
  lemma {:induction false} EveryListReturns(v: V, ty: Ty)
    requires v.List? && Typed(v, ty)
    ensures Cast(ty, Written(Spelled(v))) == Some(v)
  {
    var d := Spelled(v);
    EveryValueWritten(v);
    AroundNothing(d);
    CastDoc("", d, "", v, ty);
  }

  // ---------- Maps ----------

  datatype PairDoc = PairDoc(key: Part, value: Part)

  function PairWritten(p: PairDoc): string {
    PartWritten(p.key) + "=" + PartWritten(p.value)
  }

  function PairsJoined(ps: seq<PairDoc>): string {
    if ps == [] then ""
    else if |ps| == 1 then PairWritten(ps[0])
    else PairWritten(ps[0]) + "," + PairsJoined(ps[1..])
  }

  function MapWritten(lead: string, ps: seq<PairDoc>, blank: string, trail: string): string {
    lead + (['{'] + (if ps == [] then blank else PairsJoined(ps)) + ['}']) + trail
  }

  /** A key is something, and its plain text holds no equals sign. */
  predicate WellPair(p: PairDoc) {
    && WellPart(p.key, false) && WellPart(p.value, false) && p.key.doc != Raw("")
    && (p.key.doc.Raw? ==> '=' !in p.key.doc.text)
  }

  predicate WellPairs(ps: seq<PairDoc>) {
    forall k :: 0 <= k < |ps| ==> WellPair(ps[k])
  }

  lemma {:induction false} FieldOver(s: string, i: nat, t: string, isKey: bool)
    requires At(s, i, t) && (forall k :: 0 <= k < |t| ==> TextDocs.Plain(t[k])) && (isKey ==> '=' !in t)
    ensures FieldEnd(s, i, isKey) == FieldEnd(s, i + |t|, isKey)
    decreases |t|
  {
    if t != "" {
      AtFirst(s, i, t);
      FieldOver(s, i + 1, t[1..], isKey);
    }
  }

  lemma {:induction false} FieldQuoted(s: string, i: nat, q: nat, isKey: bool)
    requires i < q < |s| && IsQuote(s[i]) && FindChar(s, i + 1, s[i]) == Some(q)
    ensures FieldEnd(s, i, isKey) == FieldEnd(s, q + 1, isKey)
  {
  }

  lemma {:induction false} FieldNested(s: string, i: nat, end: nat, square: bool, isKey: bool)
    requires i < end < |s| && s[i] == Opening(square) && CloseAt(s, i + 1, Closing(square)) == Some(end)
    ensures FieldEnd(s, i, isKey) == FieldEnd(s, end + 1, isKey)
  {
  }

  /** The scan for the end of a key or value passes over a document. */
  lemma {:induction false} FieldDoc(d: Doc, s: string, i: nat, end: nat, isKey: bool)
    requires Well(d, false) && At(s, i, Written(d)) && end == i + |Written(d)| && (isKey && d.Raw? ==> '=' !in d.text)
    ensures FieldEnd(s, i, isKey) == FieldEnd(s, end, isKey)
  {
    match d
    case Raw(text) => FieldOver(s, i, text, isKey);
    case Quoted(quote, body) =>
      BetweenAt(s, i, quote, body, quote, end - 1);
      QuoteFound(s, i + 1, body, quote);
      FieldQuoted(s, i, end - 1, isKey);
    case Nest(square, _, _) =>
      CloseNest(d, s, i, end - 1, ']');
      FieldNested(s, i, end - 1, square, isKey);
  }

  lemma {:induction false} FieldStops(s: string, i: nat, isKey: bool)
    requires i < |s| && (if isKey then s[i] == '=' else s[i] == ',' || s[i] == '}')
    ensures FieldEnd(s, i, isKey) == Some(i)
  {
  }

  lemma {:induction false} FieldAfter(s: string, end: nat, after: string, stop: nat, isKey: bool)
    requires At(s, end, after) && Blank(after) && stop == end + |after| < |s| && (if isKey then s[stop] == '=' else s[stop] == ',' || s[stop] == '}')
    ensures FieldEnd(s, end, isKey) == Some(stop)
  {
    BlankPasses(after);
    forall k | 0 <= k < |after| ensures after[k] != '=' { assert IsSpace(after[k]); }
    FieldOver(s, end, after, isKey);
    FieldStops(s, stop, isKey);
  }

  /** A key or value that starts, once white space is skipped, at `start`, stops at `stop` and reads as a text. */
  ghost predicate Field(s: string, i: nat, start: nat, stop: nat, isKey: bool, text: string) {
    && i <= |s| && SkipSpace(s, i) == start <= stop < |s| && FieldEnd(s, start, isKey) == Some(stop)
    && FieldText(s, Piece(start, stop)) == text
  }

  lemma {:induction false} FieldPart(p: Part, s: string, i: nat, start: nat, stop: nat, isKey: bool)
    requires WellPart(p, false) && Lies(p, s, i, stop) && start == i + |p.before| && (isKey && p.doc.Raw? ==> '=' !in p.doc.text)
    requires stop < |s| && (if isKey then s[stop] == '=' else s[stop] == ',' || s[stop] == '}')
    ensures Field(s, i, start, stop, isKey, Written(p.doc))
  {
    var end := start + |Written(p.doc)|;
    PartStarts(p, s, i, start, stop);
    PartAt(p, s, i, start, end);
    FieldDoc(p.doc, s, start, end, isKey);
    FieldAfter(s, end, p.after, stop, isKey);
    WrittenEdged(p.doc, false);
    FieldTrims(s, start, end, p.after, stop);
  }

  lemma {:induction false} FieldTrims(s: string, start: nat, end: nat, after: string, stop: nat)
    requires start <= end <= stop <= |s| && At(s, end, after) && Blank(after) && stop == end + |after| && Edged(s[start..end])
    ensures FieldText(s, Piece(start, stop)) == s[start..end] || (start == end && after != "")
    ensures start < end ==> TrimEnd(s, start, stop) == end
    decreases |after|
  {
    if after != "" {
      var fewer := after[..|after| - 1];
      assert s[end..stop] == after && s[stop - 1] == s[end..stop][|after| - 1];
      assert s[end..stop - 1] == fewer by { assert s[end..stop][..|after| - 1] == s[end..stop - 1]; }
      FieldTrims(s, start, end, fewer, stop - 1);
    } else if start < end {
      assert s[start..end][end - start - 1] == s[end - 1];
    }
  }

  lemma {:induction false} PairLies(p: PairDoc, s: string, i: nat, end: nat) returns (eq: nat)
    requires At(s, i, PairWritten(p)) && end == i + |PairWritten(p)|
    ensures Lies(p.key, s, i, eq) && i <= eq < |s| && s[eq] == '=' && Lies(p.value, s, eq + 1, end)
  {
    eq := i + |PartWritten(p.key)|;
    assert PairWritten(p) == PartWritten(p.key) + ("=" + PartWritten(p.value));
    AtParts(s, i, PartWritten(p.key), "=" + PartWritten(p.value));
    AtParts(s, eq, "=", PartWritten(p.value));
    AtFirst(s, eq, "=");
  }

  /** The pair that starts at `i` is found, and reads as its documents. */
  lemma {:induction false} PairFields(p: PairDoc, s: string, i: nat, stop: nat) returns (start: nat, eq: nat, from: nat)
    requires WellPair(p) && At(s, i, PairWritten(p)) && stop == i + |PairWritten(p)| < |s| && (s[stop] == ',' || s[stop] == '}')
    ensures Field(s, i, start, eq, true, Written(p.key.doc)) && Field(s, eq + 1, from, stop, false, Written(p.value.doc))
  {
    eq := PairLies(p, s, i, stop);
    start, from := i + |p.key.before|, eq + 1 + |p.value.before|;
    FieldPart(p.key, s, i, start, eq, true);
    FieldPart(p.value, s, eq + 1, from, stop, false);
  }

  lemma {:induction false} FoundPair(s: string, i: nat, start: nat, eq: nat, from: nat, stop: nat, key: string, value: string)
    requires Field(s, i, start, eq, true, key) && Field(s, eq + 1, from, stop, false, value)
    ensures NextPair(s, start) == KeyValue(Piece(start, eq), Piece(from, stop), SkipSpace(s, stop + 1))
  {
  }

  /** From `i` on, white space skipped, the text ends a map of pairs that read as these keys and values. */
  ghost predicate MapReads(s: string, i: nat, keys: seq<string>, values: seq<string>) {
    && i <= |s| && SkipSpace(s, i) < |s|
    && var r := PairsFrom(s, SkipSpace(s, i));
       r.ok && ReadAs(s, r.keys, keys) && ReadAs(s, r.values, values)
  }

  ghost predicate ReadAs(s: string, pieces: seq<Piece>, texts: seq<string>) {
    Inside(s, pieces) && FieldTexts(s, pieces) == texts
  }

  lemma {:induction false} ReadsFirst(s: string, piece: Piece, text: string, pieces: seq<Piece>, texts: seq<string>)
    requires piece.start <= piece.end <= |s| && FieldText(s, piece) == text && ReadAs(s, pieces, texts)
    ensures ReadAs(s, [piece] + pieces, [text] + texts)
  {
    var all := [piece] + pieces;
    forall k | 0 <= k < |all| ensures all[k].start <= all[k].end <= |s| && FieldText(s, all[k]) == ([text] + texts)[k] {
      if k > 0 { assert all[k] == pieces[k - 1] && FieldTexts(s, pieces)[k - 1] == texts[k - 1]; }
    }
    assert FieldTexts(s, all) == [text] + texts;
  }

  lemma {:induction false} PairEnds(s: string, start: nat, key: Piece, value: Piece)
    requires start < |s| && NextPair(s, start) == KeyValue(key, value, |s|) && s[value.end] == '}'
    ensures PairsFrom(s, start) == MapSplit(true, [key], [value])
  {
  }

  lemma {:induction false} PairGoesOn(s: string, start: nat, key: Piece, value: Piece, next: nat)
    requires start < |s| && NextPair(s, start) == KeyValue(key, value, next) && s[value.end] == ','
    ensures var rest := PairsFrom(s, next); PairsFrom(s, start) == MapSplit(rest.ok, [key] + rest.keys, [value] + rest.values)
  {
  }

  lemma {:induction false} LastPairReads(p: PairDoc, s: string, i: nat, end: nat)
    requires WellPair(p) && At(s, i, PairWritten(p)) && end == i + |PairWritten(p)| < |s| && s[end] == '}' && SkipSpace(s, end + 1) == |s|
    ensures MapReads(s, i, [Written(p.key.doc)], [Written(p.value.doc)])
  {
    var start, eq, from := PairFields(p, s, i, end);
    var k, v := Written(p.key.doc), Written(p.value.doc);
    FoundPair(s, i, start, eq, from, end, k, v);
    PairEnds(s, start, Piece(start, eq), Piece(from, end));
    ReadsOne(s, Piece(start, eq), k);
    ReadsOne(s, Piece(from, end), v);
  }

  lemma {:induction false} ReadsOne(s: string, piece: Piece, text: string)
    requires piece.start <= piece.end <= |s| && FieldText(s, piece) == text
    ensures ReadAs(s, [piece], [text])
  {
    assert FieldTexts(s, [piece]) == [text];
  }

  lemma {:induction false} FirstPairReads(p: PairDoc, s: string, i: nat, comma: nat, keys: seq<string>, values: seq<string>)
    requires WellPair(p) && At(s, i, PairWritten(p)) && comma == i + |PairWritten(p)| < |s| && s[comma] == ','
    requires MapReads(s, comma + 1, keys, values)
    ensures MapReads(s, i, [Written(p.key.doc)] + keys, [Written(p.value.doc)] + values)
  {
    var start, eq, from := PairFields(p, s, i, comma);
    var k, v := Written(p.key.doc), Written(p.value.doc);
    FoundPair(s, i, start, eq, from, comma, k, v);
    var next := SkipSpace(s, comma + 1);
    PairGoesOn(s, start, Piece(start, eq), Piece(from, comma), next);
    ReadsFirst(s, Piece(start, eq), k, PairsFrom(s, next).keys, keys);
    ReadsFirst(s, Piece(from, comma), v, PairsFrom(s, next).values, values);
  }

  ghost function KeyTextsOf(ps: seq<PairDoc>): (r: seq<string>)
    ensures |r| == |ps|
  {
    seq(|ps|, k requires 0 <= k < |ps| => Written(ps[k].key.doc))
  }

  ghost function ValueTextsOf(ps: seq<PairDoc>): (r: seq<string>)
    ensures |r| == |ps|
  {
    seq(|ps|, k requires 0 <= k < |ps| => Written(ps[k].value.doc))
  }

  lemma {:induction false} PairsLie(ps: seq<PairDoc>, s: string, i: nat, end: nat) returns (stop: nat)
    requires ps != [] && At(s, i, PairsJoined(ps)) && end == i + |PairsJoined(ps)|
    ensures At(s, i, PairWritten(ps[0])) && stop == i + |PairWritten(ps[0])|
    ensures |ps| == 1 ==> stop == end
    ensures |ps| > 1 ==> stop < |s| && s[stop] == ',' && At(s, stop + 1, PairsJoined(ps[1..])) && end == stop + 1 + |PairsJoined(ps[1..])|
  {
    stop := i + |PairWritten(ps[0])|;
    if |ps| > 1 { AtComma(s, i, PairWritten(ps[0]), PairsJoined(ps[1..])); }
  }

  lemma {:induction false} TextsFirst(ps: seq<PairDoc>)
    requires ps != []
    ensures KeyTextsOf(ps) == [Written(ps[0].key.doc)] + KeyTextsOf(ps[1..])
    ensures ValueTextsOf(ps) == [Written(ps[0].value.doc)] + ValueTextsOf(ps[1..])
  {
  }

  lemma {:induction false} PairsRead(ps: seq<PairDoc>, s: string, i: nat, end: nat)
    requires ps != [] && WellPairs(ps) && At(s, i, PairsJoined(ps)) && end == i + |PairsJoined(ps)|
    requires end < |s| && s[end] == '}' && SkipSpace(s, end + 1) == |s|
    ensures MapReads(s, i, KeyTextsOf(ps), ValueTextsOf(ps))
    decreases |ps|
  {
    var stop := PairsLie(ps, s, i, end);
    TextsFirst(ps);
    if |ps| == 1 {
      LastPairReads(ps[0], s, i, end);
      assert KeyTextsOf(ps) == [Written(ps[0].key.doc)] && ValueTextsOf(ps) == [Written(ps[0].value.doc)];
    } else {
      PairsRead(ps[1..], s, stop + 1, end);
      FirstPairReads(ps[0], s, i, stop, KeyTextsOf(ps[1..]), ValueTextsOf(ps[1..]));
    }
  }

  lemma {:induction false} MapAt(lead: string, inner: string, trail: string, s: string, end: nat)
    requires s == lead + (['{'] + inner + ['}']) + trail && Blank(lead) && Blank(trail) && end == |lead| + 1 + |inner|
    ensures |lead| < end < |s| && SkipSpace(s, 0) == |lead| && s[|lead|] == '{' && s[end] == '}' && SkipSpace(s, end + 1) == |s|
    ensures At(s, |lead| + 1, inner)
  {
    AroundAt(lead, ['{'] + inner + ['}'], trail, s);
    BetweenAt(s, |lead|, '{', inner, '}', end);
    SpaceOver(s, 0, lead);
    BlankToEnd(s, end + 1, trail);
  }

  lemma {:induction false} KeyStarts(p: PairDoc, s: string, i: nat, stop: nat)
    requires WellPair(p) && At(s, i, PairWritten(p)) && stop == i + |PairWritten(p)| < |s|
    ensures SkipSpace(s, i) < |s| && s[SkipSpace(s, i)] != '}'
  {
    var eq := PairLies(p, s, i, stop);
    var start := i + |p.key.before|;
    PartStarts(p.key, s, i, start, eq);
    PartAt(p.key, s, i, start, start + |Written(p.key.doc)|);
    NotClosing(p.key.doc);
    AtFirst(s, start, Written(p.key.doc));
  }

  lemma {:induction false} NotClosing(d: Doc)
    requires Well(d, false) && d != Raw("")
    ensures Written(d) != "" && Written(d)[0] != '}'
  {
    WrittenEdged(d, false);
  }

  lemma {:induction false} OpensMap(s: string, i: nat)
    requires i < |s| && SkipSpace(s, 0) == i && s[i] == '{' && SkipSpace(s, i + 1) < |s| && s[SkipSpace(s, i + 1)] != '}'
    ensures SplitMap(s) == PairsFrom(s, SkipSpace(s, i + 1))
  {
  }

  lemma {:induction false} EmptyMap(s: string, i: nat, end: nat)
    requires i < end < |s| && SkipSpace(s, 0) == i && s[i] == '{' && SkipSpace(s, i + 1) == end && s[end] == '}' && SkipSpace(s, end + 1) == |s|
    ensures SplitMap(s) == MapSplit(true, [], [])
  {
  }

  /** The splitter hands over exactly the keys and values of a map, however it is written. */
  lemma {:induction false} SplitWrittenMap(lead: string, ps: seq<PairDoc>, blank: string, trail: string)
    requires WellPairs(ps) && Blank(lead) && Blank(blank) && Blank(trail)
    ensures var s := MapWritten(lead, ps, blank, trail); var r := SplitMap(s);
            r.ok && ReadAs(s, r.keys, KeyTextsOf(ps)) && ReadAs(s, r.values, ValueTextsOf(ps))
  {
    var s := MapWritten(lead, ps, blank, trail);
    if ps == [] { NoPairsRead(lead, blank, trail, s); } else { SomePairsRead(lead, ps, trail, s); }
  }

  lemma {:induction false} NoPairsRead(lead: string, blank: string, trail: string, s: string)
    requires s == lead + (['{'] + blank + ['}']) + trail && Blank(lead) && Blank(blank) && Blank(trail)
    ensures SplitMap(s) == MapSplit(true, [], []) && ReadAs(s, [], [])
  {
    var end := |lead| + 1 + |blank|;
    MapAt(lead, blank, trail, s, end);
    SpaceOver(s, |lead| + 1, blank);
    EmptyMap(s, |lead|, end);
    assert FieldTexts(s, []) == [];
  }

  lemma {:induction false} SomePairsRead(lead: string, ps: seq<PairDoc>, trail: string, s: string)
    requires ps != [] && WellPairs(ps) && s == lead + (['{'] + PairsJoined(ps) + ['}']) + trail && Blank(lead) && Blank(trail)
    ensures var r := SplitMap(s); r.ok && ReadAs(s, r.keys, KeyTextsOf(ps)) && ReadAs(s, r.values, ValueTextsOf(ps))
  {
    var end := |lead| + 1 + |PairsJoined(ps)|;
    MapAt(lead, PairsJoined(ps), trail, s, end);
    var stop := PairsLie(ps, s, |lead| + 1, end);
    KeyStarts(ps[0], s, |lead| + 1, stop);
    PairsRead(ps, s, |lead| + 1, end);
    OpensMap(s, |lead|);
  }

  lemma {:induction false} OkMapCloses(s: string, i: nat) returns (end: nat)
    requires i <= |s| && PairsFrom(s, i).ok
    ensures i <= end < |s| && s[end] == '}' && SkipSpace(s, end + 1) == |s|
    decreases |s| - i
  {
    var p := NextPair(s, i);
    if s[p.value.end] == '}' { end := p.value.end; } else { end := OkMapCloses(s, p.next); }
  }

  /** Whatever the text, what is taken for a map begins with a brace and ends with one, white space aside. */
  lemma {:induction false} MapsAreBraced(s: string) returns (open: nat, close: nat)
    requires SplitMap(s).ok
    ensures open < close < |s| && Blank(s[..open]) && s[open] == '{' && s[close] == '}' && Blank(s[close + 1..])
  {
    open := SkipSpace(s, 0);
    SpaceIsBlank(s, 0, open);
    assert s[0..open] == s[..open];
    var j := SkipSpace(s, open + 1);
    if s[j] == '}' { close := j; } else { close := OkMapCloses(s, j); }
    SpaceIsBlank(s, close + 1, |s|);
    assert s[close + 1..|s|] == s[close + 1..];
  }

  // ---------- Casting a map ----------

  ghost predicate MeansPair(p: PairDoc, e: MapEntry, key: Ty, value: Ty) {
    && Well(p.key.doc, true) && Well(p.value.doc, true) && Means(p.key.doc, e.key) && Means(p.value.doc, e.value)
    && e.key != Null && Typed(e.key, key) && Typed(e.value, value)
  }

  lemma {:induction false} TextsAccepted(copyKey: Copy, copyValue: Copy, keys: seq<string>, values: seq<string>, es: seq<MapEntry>)
    requires |keys| == |values| == |es|
    requires forall k :: 0 <= k < |es| ==> copyKey(keys[k]) == Some(es[k].key) && copyValue(values[k]) == Some(es[k].value) && es[k].key != Null
    ensures !Writes(copyKey, copyValue, keys, values, 0, {}).raised <==> DistinctKeys(es)
  {
    CastSucceedsExactly(copyKey, copyValue, keys, values, 0, {});
  }

  lemma {:induction false} TextsPaired(copyKey: Copy, copyValue: Copy, keys: seq<string>, values: seq<string>, es: seq<MapEntry>, log: Log)
    requires |keys| == |values| == |es| && log == Writes(copyKey, copyValue, keys, values, 0, {}) && !log.raised
    requires forall k :: 0 <= k < |es| ==> copyKey(keys[k]) == Some(es[k].key) && copyValue(values[k]) == Some(es[k].value)
    ensures Paired(log.writes) == es
  {
    WritesAll(copyKey, copyValue, keys, values, 0, {});
    forall k | 0 <= k < |es| ensures es[k] == MapEntry(log.writes[2 * k].content, log.writes[2 * k + 1].content) {
      WriteContents(copyKey, copyValue, keys, values, log.writes, k);
    }
    PairedAre(log.writes, es);
  }

  /** However a map is written, casting its text gives exactly the entries meant, in order, unless two keys are equal. */
  lemma {:induction false} CastDocMap(lead: string, ps: seq<PairDoc>, blank: string, trail: string, es: seq<MapEntry>, key: Ty, value: Ty)
    requires WellPairs(ps) && Blank(lead) && Blank(blank) && Blank(trail)
    requires |ps| == |es| && forall k :: 0 <= k < |ps| ==> MeansPair(ps[k], es[k], key, value)
    ensures CastOf(Copier(key), Copier(value), MapWritten(lead, ps, blank, trail)) == if DistinctKeys(es) then Some(es) else None
  {
    var s, keys, values := MapWritten(lead, ps, blank, trail), KeyTextsOf(ps), ValueTextsOf(ps);
    SplitWrittenMap(lead, ps, blank, trail);
    forall k | 0 <= k < |es|
      ensures Copier(key)(keys[k]) == Some(es[k].key) && Copier(value)(values[k]) == Some(es[k].value) && es[k].key != Null
    {
      assert MeansPair(ps[k], es[k], key, value);
      CopyDoc(ps[k].key.doc, es[k].key, key);
      CopyDoc(ps[k].value.doc, es[k].value, value);
    }
    TextsAccepted(Copier(key), Copier(value), keys, values, es);
    if DistinctKeys(es) { TextsPaired(Copier(key), Copier(value), keys, values, es, MapLog(Copier(key), Copier(value), s)); }
  }
}
