/**
 Casting the text of a printed map gives the map back, lone NULLs collapsed, unless that makes two keys
 equal.
 */
module MapRoundTrip {
  import opened Basics
  import opened TextScan
  import opened IntText
  import opened ListText
  import opened ListRoundTrip
  import opened MapText
  import opened MapCast

  // ---------- The printer ----------

  /** `getMapEntryStr` */
  function PairText(e: MapEntry): string {
    Entry(e.key) + "=" + Entry(e.value)
  }

  function JoinedPairs(es: seq<MapEntry>): string {
    if es == [] then ""
    else if |es| == 1 then PairText(es[0])
    else PairText(es[0]) + ", " + JoinedPairs(es[1..])
  }

  function MapString(es: seq<MapEntry>): string {
    "{" + JoinedPairs(es) + "}"
  }

  /** `TypeUtils::toString` of a map entry. */
  method PrintMap(es: seq<MapEntry>) returns (text: string)
    ensures text == MapString(es)
  {
    if |es| == 0 { return "{}"; }
    text := "{";
    var i := 0;
    while i < |es| - 1
      invariant i <= |es| - 1
      invariant text + JoinedPairs(es[i..]) == "{" + JoinedPairs(es)
    {
      assert es[i..][1..] == es[i + 1..];
      text := text + PairText(es[i]);
      text := text + ", ";
      i := i + 1;
    }
    assert es[i..] == [es[i]];
    text := text + PairText(es[i]);
    text := text + "}";
  }

  // ---------- Where the texts lie ----------

  ghost predicate PairLaid(e: MapEntry, s: string, i: nat) {
    && At(s, i, Entry(e.key))
    && (var eq := i + |Entry(e.key)|; eq < |s| && s[eq] == '=' && At(s, eq + 1, Entry(e.value)))
  }

  function PairLength(e: MapEntry): nat {
    |Entry(e.key)| + 1 + |Entry(e.value)|
  }

  /** The entries' texts lie one after the other, up to the closing brace that ends the text. */
  ghost predicate MapLaid(es: seq<MapEntry>, s: string, i: nat)
    requires es != []
  {
    && PairLaid(es[0], s, i)
    && (var end := i + PairLength(es[0]);
        end < |s| &&
        if |es| == 1 then s[end] == '}' && end + 1 == |s|
        else s[end] == ',' && end + 1 < |s| && s[end + 1] == ' ' && MapLaid(es[1..], s, end + 2))
  }

  lemma {:induction false} PairIsLaid(e: MapEntry, s: string, i: nat, rest: string)
    requires At(s, i, PairText(e) + rest)
    ensures PairLaid(e, s, i) && At(s, i + PairLength(e), rest)
  {
    AtParts(s, i, PairText(e), rest);
    assert PairText(e) == Entry(e.key) + ("=" + Entry(e.value));
    AtParts(s, i, Entry(e.key), "=" + Entry(e.value));
    AtParts(s, i + |Entry(e.key)|, "=", Entry(e.value));
    AtFirst(s, i + |Entry(e.key)|, "=");
  }

  /** The text of the pairs and the brace that closes them. */
  ghost predicate Closed(es: seq<MapEntry>, t: string) {
    t == JoinedPairs(es) + "}"
  }

  lemma {:induction false} ClosedOne(es: seq<MapEntry>, t: string)
    requires |es| == 1 && Closed(es, t)
    ensures t == PairText(es[0]) + "}"
  {
  }

  lemma {:induction false} ClosedMore(es: seq<MapEntry>, t: string) returns (rest: string)
    requires |es| > 1 && Closed(es, t)
    ensures Closed(es[1..], rest) && t == PairText(es[0]) + (", " + rest) && |t| == PairLength(es[0]) + 2 + |rest|
  {
    rest := JoinedPairs(es[1..]) + "}";
  }

  lemma {:induction false} PairThenRest(e: MapEntry, s: string, i: nat, rest: string, end: nat)
    requires At(s, i, PairText(e) + (", " + rest)) && end == i + PairLength(e)
    ensures PairLaid(e, s, i) && end + 1 < |s| && s[end] == ',' && s[end + 1] == ' ' && At(s, end + 2, rest)
  {
    PairIsLaid(e, s, i, ", " + rest);
    AtSeparator(s, end, rest);
  }

  lemma {:induction false} PairThenBrace(e: MapEntry, s: string, i: nat, end: nat)
    requires At(s, i, PairText(e) + "}") && end == i + PairLength(e) && end + 1 == |s|
    ensures PairLaid(e, s, i) && s[end] == '}'
  {
    PairIsLaid(e, s, i, "}");
    AtFirst(s, end, "}");
  }

  ghost predicate LaidThen(e: MapEntry, s: string, i: nat, next: nat) {
    PairLaid(e, s, i) && next == i + PairLength(e) + 2 <= |s| && s[next - 2] == ',' && s[next - 1] == ' '
  }

  lemma {:induction false} FirstLaid(es: seq<MapEntry>, s: string, i: nat, t: string) returns (rest: string, next: nat)
    requires |es| > 1 && Closed(es, t) && At(s, i, t) && i + |t| == |s|
    ensures LaidThen(es[0], s, i, next) && Closed(es[1..], rest) && At(s, next, rest) && next + |rest| == |s|
  {
    rest := ClosedMore(es, t);
    next := i + PairLength(es[0]) + 2;
    PairThenRest(es[0], s, i, rest, next - 2);
  }

  lemma {:induction false} LastLaid(es: seq<MapEntry>, s: string, i: nat, t: string)
    requires |es| == 1 && Closed(es, t) && At(s, i, t) && i + |t| == |s|
    ensures MapLaid(es, s, i)
  {
    ClosedOne(es, t);
    PairThenBrace(es[0], s, i, i + PairLength(es[0]));
  }

  lemma {:induction false} LaidMore(es: seq<MapEntry>, s: string, i: nat, next: nat)
    requires |es| > 1 && LaidThen(es[0], s, i, next) && MapLaid(es[1..], s, next)
    ensures MapLaid(es, s, i)
  {
  }

  lemma {:induction false} PairsAreLaid(es: seq<MapEntry>, s: string, i: nat, t: string)
    requires es != [] && Closed(es, t) && At(s, i, t) && i + |t| == |s|
    ensures MapLaid(es, s, i)
    decreases |es|
  {
    if |es| == 1 {
      LastLaid(es, s, i, t);
    } else {
      var rest, next := FirstLaid(es, s, i, t);
      PairsAreLaid(es[1..], s, next, rest);
      LaidMore(es, s, i, next);
    }
  }

  lemma {:induction false} AtSeparator(s: string, i: nat, rest: string)
    requires At(s, i, ", " + rest)
    ensures i + 1 < |s| && s[i] == ',' && s[i + 1] == ' ' && At(s, i + 2, rest)
  {
    AtParts(s, i, ", ", rest);
    AtFirst(s, i, ", ");
    assert ", "[1..] == " ";
    AtFirst(s, i + 1, " ");
  }

  // ---------- The scan of a field ----------

  lemma {:induction false} FieldPlain(s: string, i: nat, t: string, isKey: bool)
    requires At(s, i, t) && forall k :: 0 <= k < |t| ==> Plain(t[k])
    ensures FieldEnd(s, i, isKey) == FieldEnd(s, i + |t|, isKey)
    decreases |t|
  {
    if t != "" {
      AtFirst(s, i, t);
      FieldPlain(s, i + 1, t[1..], isKey);
    }
  }

  lemma {:induction false} FieldOver(s: string, i: nat, j: nat, isKey: bool)
    requires i < |s| && s[i] == '[' && CloseAt(s, i + 1, ']') == Some(j)
    ensures FieldEnd(s, i, isKey) == FieldEnd(s, j + 1, isKey)
  {
  }

  /** The scan passes over an entry. */
  lemma {:induction false} FieldEntry(v: V, s: string, i: nat, isKey: bool)
    requires At(s, i, Entry(v))
    ensures FieldEnd(s, i, isKey) == FieldEnd(s, i + |Entry(v)|, isKey)
  {
    match v
    case Null =>
    case Int(n) => FieldPlain(s, i, Entry(v), isKey);
    case List(elems) =>
      AtBracketed(s, i, Joined(elems));
      SkipList(elems, s, i);
      FieldOver(s, i, i + |Entry(v)| - 1, isKey);
  }

  lemma {:induction false} StartsHere(v: V, s: string, i: nat)
    requires At(s, i, Entry(v)) && i < |s| && (Entry(v) == "" ==> !IsSpace(s[i]))
    ensures SkipSpace(s, i) == i
  {
    EntryEdges(v);
    if Entry(v) != "" { AtFirst(s, i, Entry(v)); }
  }

  lemma {:induction false} EndsHere(s: string, i: nat, isKey: bool)
    requires i < |s| && Ends(s[i], isKey) && !IsQuote(s[i]) && s[i] != '{' && s[i] != '['
    ensures FieldEnd(s, i, isKey) == Some(i)
  {
  }

  lemma {:induction false} FieldFound(v: V, s: string, i: nat, isKey: bool)
    requires At(s, i, Entry(v)) && i + |Entry(v)| < |s|
    requires var c := s[i + |Entry(v)|]; Ends(c, isKey) && !IsQuote(c) && c != '{' && c != '['
    ensures FieldEnd(s, i, isKey) == Some(i + |Entry(v)|)
  {
    FieldEntry(v, s, i, isKey);
    EndsHere(s, i + |Entry(v)|, isKey);
  }

  // ---------- The pairs by their lengths ----------

  datatype Lengths = Lengths(key: nat, value: nat)

  function End(l: Lengths, i: nat): nat {
    i + l.key + 1 + l.value
  }

  function KeyPlace(l: Lengths, i: nat): Piece {
    Piece(i, i + l.key)
  }

  function ValuePlace(l: Lengths, i: nat): Piece {
    Piece(i + l.key + 1, End(l, i))
  }

  function KeyPlaces(ls: seq<Lengths>, i: nat): (r: seq<Piece>)
    ensures |r| == |ls|
  {
    if ls == [] then [] else [KeyPlace(ls[0], i)] + KeyPlaces(ls[1..], End(ls[0], i) + 2)
  }

  function ValuePlaces(ls: seq<Lengths>, i: nat): (r: seq<Piece>)
    ensures |r| == |ls|
  {
    if ls == [] then [] else [ValuePlace(ls[0], i)] + ValuePlaces(ls[1..], End(ls[0], i) + 2)
  }

  ghost predicate KeyScanned(l: Lengths, s: string, i: nat) {
    End(l, i) < |s| && FieldEnd(s, i, true) == Some(i + l.key)
  }

  ghost predicate ValueScanned(l: Lengths, s: string, i: nat) {
    End(l, i) < |s| && SkipSpace(s, i + l.key + 1) == i + l.key + 1 && FieldEnd(s, i + l.key + 1, false) == Some(End(l, i))
  }

  /** A key of this length is scanned from `i`, a value of that length after it, and the scan goes on at `next`. */
  ghost predicate Scanned(l: Lengths, s: string, i: nat, next: nat) {
    KeyScanned(l, s, i) && ValueScanned(l, s, i) && SkipSpace(s, End(l, i) + 1) == next
  }

  lemma {:induction false} ScannedPair(l: Lengths, s: string, i: nat, next: nat)
    requires Scanned(l, s, i, next)
    ensures NextPair(s, i) == KeyValue(KeyPlace(l, i), ValuePlace(l, i), next)
  {
  }

  ghost predicate MapScanned(ls: seq<Lengths>, s: string, i: nat)
    requires ls != []
  {
    if |ls| == 1 then Scanned(ls[0], s, i, |s|) && s[End(ls[0], i)] == '}'
    else Scanned(ls[0], s, i, End(ls[0], i) + 2) && s[End(ls[0], i)] == ',' && MapScanned(ls[1..], s, End(ls[0], i) + 2)
  }

  lemma {:induction false} LastPair(s: string, i: nat, key: Piece, value: Piece)
    requires i < |s| && NextPair(s, i) == KeyValue(key, value, |s|) && s[value.end] == '}'
    ensures PairsFrom(s, i) == MapSplit(true, [key], [value])
  {
  }

  lemma {:induction false} FirstPair(s: string, i: nat, key: Piece, value: Piece, next: nat, keys: seq<Piece>, values: seq<Piece>)
    requires i < |s| && next <= |s| && NextPair(s, i) == KeyValue(key, value, next) && s[value.end] == ','
    requires PairsFrom(s, next) == MapSplit(true, keys, values)
    ensures PairsFrom(s, i) == MapSplit(true, [key] + keys, [value] + values)
  {
  }

  lemma {:induction false} ScannedPairs(ls: seq<Lengths>, s: string, i: nat)
    requires ls != [] && MapScanned(ls, s, i)
    ensures i < |s| && PairsFrom(s, i) == MapSplit(true, KeyPlaces(ls, i), ValuePlaces(ls, i))
    decreases |ls|
  {
    var l, rest, next := ls[0], ls[1..], End(ls[0], i) + 2;
    if |ls| == 1 {
      ScannedPair(l, s, i, |s|);
      LastPair(s, i, KeyPlace(l, i), ValuePlace(l, i));
      assert KeyPlaces(rest, next) == [] && ValuePlaces(rest, next) == [];
    } else {
      ScannedPair(l, s, i, next);
      ScannedPairs(rest, s, next);
      FirstPair(s, i, KeyPlace(l, i), ValuePlace(l, i), next, KeyPlaces(rest, next), ValuePlaces(rest, next));
    }
  }

  // ---------- A printed map is scanned entry by entry ----------

  function LengthsOf(e: MapEntry): Lengths {
    Lengths(|Entry(e.key)|, |Entry(e.value)|)
  }

  function EachLengths(es: seq<MapEntry>): (r: seq<Lengths>)
    ensures |r| == |es|
  {
    seq(|es|, k requires 0 <= k < |es| => LengthsOf(es[k]))
  }

  ghost predicate NoNullKey(es: seq<MapEntry>) {
    forall k :: 0 <= k < |es| ==> es[k].key != Null
  }

  lemma {:induction false} KeyFound(e: MapEntry, s: string, i: nat)
    requires PairLaid(e, s, i) && i + PairLength(e) < |s|
    ensures KeyScanned(LengthsOf(e), s, i)
  {
    FieldFound(e.key, s, i, true);
  }

  lemma {:induction false} ValueFound(e: MapEntry, s: string, i: nat)
    requires PairLaid(e, s, i) && i + PairLength(e) < |s| && (s[i + PairLength(e)] == ',' || s[i + PairLength(e)] == '}')
    ensures ValueScanned(LengthsOf(e), s, i)
  {
    ValueFoundAt(e.value, s, i + |Entry(e.key)| + 1);
  }

  lemma {:induction false} ValueFoundAt(v: V, s: string, from: nat)
    requires At(s, from, Entry(v)) && from + |Entry(v)| < |s| && (s[from + |Entry(v)|] == ',' || s[from + |Entry(v)|] == '}')
    ensures SkipSpace(s, from) == from && FieldEnd(s, from, false) == Some(from + |Entry(v)|)
  {
    FieldFound(v, s, from, false);
    StartsHere(v, s, from);
  }

  lemma {:induction false} PairScanned(e: MapEntry, s: string, i: nat, next: nat)
    requires PairLaid(e, s, i) && i + PairLength(e) < |s| && (s[i + PairLength(e)] == ',' || s[i + PairLength(e)] == '}')
    requires SkipSpace(s, i + PairLength(e) + 1) == next
    ensures Scanned(LengthsOf(e), s, i, next)
  {
    KeyFound(e, s, i);
    ValueFound(e, s, i);
  }

  lemma {:induction false} FirstNotBrace(v: V)
    requires v != Null
    ensures Entry(v) != "" && Entry(v)[0] != '}'
  {
    EmptyIsNull(v);
  }

  lemma {:induction false} NextKey(e: MapEntry, s: string, i: nat)
    requires PairLaid(e, s, i) && e.key != Null
    ensures i < |s| && SkipSpace(s, i) == i && s[i] != '}'
  {
    FirstNotBrace(e.key);
    StartsHere(e.key, s, i);
    AtFirst(s, i, Entry(e.key));
  }

  lemma {:induction false} SpaceThenKey(s: string, i: nat)
    requires i + 1 < |s| && s[i] == ' ' && SkipSpace(s, i + 1) == i + 1
    ensures SkipSpace(s, i) == i + 1
  {
  }

  lemma {:induction false} LaidFirst(es: seq<MapEntry>, s: string, i: nat)
    requires es != [] && MapLaid(es, s, i)
    ensures PairLaid(es[0], s, i) && i + PairLength(es[0]) < |s|
    ensures |es| == 1 ==> s[i + PairLength(es[0])] == '}' && i + PairLength(es[0]) + 1 == |s|
    ensures |es| > 1 ==> var end := i + PairLength(es[0]);
                         s[end] == ',' && end + 1 < |s| && s[end + 1] == ' ' && MapLaid(es[1..], s, end + 2)
  {
  }

  lemma {:induction false} NextStarts(es: seq<MapEntry>, s: string, i: nat)
    requires es != [] && MapLaid(es, s, i + 1) && es[0].key != Null && i < |s| && s[i] == ' '
    ensures SkipSpace(s, i) == i + 1
  {
    LaidFirst(es, s, i + 1);
    NextKey(es[0], s, i + 1);
    SpaceThenKey(s, i);
  }

  lemma {:induction false} ScannedLast(l: Lengths, s: string, i: nat)
    requires Scanned(l, s, i, |s|) && s[End(l, i)] == '}'
    ensures MapScanned([l], s, i)
  {
  }

  lemma {:induction false} ScannedThen(l: Lengths, rest: seq<Lengths>, s: string, i: nat, next: nat)
    requires rest != [] && Scanned(l, s, i, next) && next == End(l, i) + 2 && s[End(l, i)] == ',' && MapScanned(rest, s, next)
    ensures MapScanned([l] + rest, s, i)
  {
    assert ([l] + rest)[1..] == rest;
  }

  lemma {:induction false} LengthsThen(es: seq<MapEntry>)
    requires es != []
    ensures EachLengths(es) == [LengthsOf(es[0])] + EachLengths(es[1..])
  {
  }

  lemma {:induction false} LastScanned(e: MapEntry, s: string, i: nat)
    requires PairLaid(e, s, i) && i + PairLength(e) + 1 == |s| && s[i + PairLength(e)] == '}'
    ensures MapScanned([LengthsOf(e)], s, i)
  {
    assert SkipSpace(s, |s|) == |s|;
    PairScanned(e, s, i, |s|);
    ScannedLast(LengthsOf(e), s, i);
  }

  lemma {:induction false} SeparatorAfter(e: MapEntry, s: string, i: nat, next: nat)
    requires next == i + PairLength(e) + 2 <= |s| && s[next - 2] == ','
    ensures next == End(LengthsOf(e), i) + 2 && s[End(LengthsOf(e), i)] == ','
  {
  }

  lemma {:induction false} FirstScanned(e: MapEntry, rest: seq<Lengths>, s: string, i: nat, next: nat)
    requires PairLaid(e, s, i) && next == i + PairLength(e) + 2 <= |s| && s[next - 2] == ',' && SkipSpace(s, next - 1) == next
    requires rest != [] && MapScanned(rest, s, next)
    ensures MapScanned([LengthsOf(e)] + rest, s, i)
  {
    SeparatorAfter(e, s, i, next);
    PairScanned(e, s, i, next);
    ScannedThen(LengthsOf(e), rest, s, i, next);
  }

  lemma {:induction false} LaidRest(es: seq<MapEntry>, s: string, i: nat, next: nat)
    requires |es| > 1 && MapLaid(es, s, i) && next == i + PairLength(es[0]) + 2
    ensures next <= |s| && s[next - 2] == ',' && s[next - 1] == ' ' && PairLaid(es[0], s, i) && MapLaid(es[1..], s, next)
  {
    LaidFirst(es, s, i);
  }

  lemma {:induction false} NextAt(es: seq<MapEntry>, s: string, i: nat) returns (next: nat)
    requires |es| > 1 && MapLaid(es, s, i) && NoNullKey(es)
    ensures next == i + PairLength(es[0]) + 2 <= |s| && s[next - 2] == ',' && SkipSpace(s, next - 1) == next
    ensures PairLaid(es[0], s, i) && MapLaid(es[1..], s, next)
  {
    next := i + PairLength(es[0]) + 2;
    LaidRest(es, s, i, next);
    NextStarts(es[1..], s, next - 1);
  }

  lemma {:induction false} LaidScanned(es: seq<MapEntry>, s: string, i: nat)
    requires es != [] && MapLaid(es, s, i) && NoNullKey(es)
    ensures MapScanned(EachLengths(es), s, i)
    decreases |es|
  {
    LengthsThen(es);
    if |es| == 1 {
      LaidFirst(es, s, i);
      LastScanned(es[0], s, i);
      assert EachLengths(es) == [LengthsOf(es[0])];
    } else {
      var next := NextAt(es, s, i);
      LaidScanned(es[1..], s, next);
      FirstScanned(es[0], EachLengths(es[1..]), s, i, next);
    }
  }

  /** Splitting a printed map: a key and a value for each entry. */
  lemma {:induction false} SplitPrintedMap(es: seq<MapEntry>)
    requires NoNullKey(es)
    ensures SplitMap(MapString(es)) == MapSplit(true, KeyPlaces(EachLengths(es), 1), ValuePlaces(EachLengths(es), 1))
    ensures es != [] ==> MapLaid(es, MapString(es), 1)
  {
    var s := MapString(es);
    if es == [] {
      assert s == "{}" && SkipSpace(s, 0) == 0 && SkipSpace(s, 1) == 1 && SkipSpace(s, 2) == 2;
    } else {
      MapStringLaid(es);
      LaidFirst(es, s, 1);
      NextKey(es[0], s, 1);
      LaidScanned(es, s, 1);
      ScannedPairs(EachLengths(es), s, 1);
      OpensWithKey(s);
    }
  }

  lemma {:induction false} MapStringLaid(es: seq<MapEntry>)
    requires es != []
    ensures MapLaid(es, MapString(es), 1) && MapString(es)[0] == '{'
  {
    var s := MapString(es);
    var t := JoinedPairs(es) + "}";
    assert s == "{" + t && s[1..|s|] == t;
    PairsAreLaid(es, s, 1, t);
  }

  lemma {:induction false} OpensWithKey(s: string)
    requires |s| > 1 && s[0] == '{' && SkipSpace(s, 1) == 1 && s[1] != '}'
    ensures SplitMap(s) == PairsFrom(s, 1)
  {
    assert SkipSpace(s, 0) == 0;
  }

  // ---------- The texts read ----------

  function KeyTexts(es: seq<MapEntry>): (r: seq<string>)
    ensures |r| == |es|
  {
    seq(|es|, k requires 0 <= k < |es| => Entry(es[k].key))
  }

  function ValueTexts(es: seq<MapEntry>): (r: seq<string>)
    ensures |r| == |es|
  {
    seq(|es|, k requires 0 <= k < |es| => Entry(es[k].value))
  }

  lemma {:induction false} FieldIsEntry(v: V, s: string, i: nat)
    requires At(s, i, Entry(v))
    ensures FieldText(s, Piece(i, i + |Entry(v)|)) == Entry(v)
  {
    EntryEdges(v);
    if Entry(v) != "" { assert s[i + |Entry(v)| - 1] == Entry(v)[|Entry(v)| - 1]; }
  }

  ghost predicate HoldsPair(e: MapEntry, s: string, key: Piece, value: Piece) {
    && key.start <= key.end <= |s| && value.start <= value.end <= |s|
    && FieldText(s, key) == Entry(e.key) && FieldText(s, value) == Entry(e.value)
  }

  lemma {:induction false} PairTexts(e: MapEntry, s: string, i: nat)
    requires PairLaid(e, s, i)
    ensures HoldsPair(e, s, KeyPlace(LengthsOf(e), i), ValuePlace(LengthsOf(e), i))
  {
    FieldIsEntry(e.key, s, i);
    FieldIsEntry(e.value, s, i + |Entry(e.key)| + 1);
  }

  /** Where pair `k` starts. */
  function Offset(ls: seq<Lengths>, i: nat, k: nat): nat
    requires k <= |ls|
  {
    if k == 0 then i else Offset(ls[1..], End(ls[0], i) + 2, k - 1)
  }

  lemma {:induction false} PlacesAt(ls: seq<Lengths>, i: nat, k: nat)
    requires k < |ls|
    ensures KeyPlaces(ls, i)[k] == KeyPlace(ls[k], Offset(ls, i, k)) && ValuePlaces(ls, i)[k] == ValuePlace(ls[k], Offset(ls, i, k))
    decreases k
  {
    if k > 0 { PlacesAt(ls[1..], End(ls[0], i) + 2, k - 1); }
  }

  /** Where the pair of an entry starts. */
  function StartOf(es: seq<MapEntry>, i: nat, k: nat): nat
    requires k <= |es|
  {
    if k == 0 then i else StartOf(es, i, k - 1) + PairLength(es[k - 1]) + 2
  }

  lemma {:induction false} StartFromSecond(es: seq<MapEntry>, i: nat, k: nat)
    requires 0 < k <= |es|
    ensures StartOf(es, i, k) == StartOf(es[1..], i + PairLength(es[0]) + 2, k - 1)
    decreases k
  {
    if k > 1 { StartFromSecond(es, i, k - 1); }
  }

  lemma {:induction false} OffsetIsStart(es: seq<MapEntry>, i: nat, k: nat)
    requires k <= |es|
    ensures Offset(EachLengths(es), i, k) == StartOf(es, i, k)
    decreases k
  {
    if k > 0 {
      var ls := EachLengths(es);
      assert ls[0] == LengthsOf(es[0]);
      assert ls[1..] == EachLengths(es[1..]);
      OffsetIsStart(es[1..], End(ls[0], i) + 2, k - 1);
      StartFromSecond(es, i, k);
    }
  }

  lemma {:induction false} LaidNext(es: seq<MapEntry>, rest: seq<MapEntry>, s: string, i: nat)
    requires |es| > 1 && MapLaid(es, s, i) && rest == es[1..]
    ensures MapLaid(rest, s, i + PairLength(es[0]) + 2)
  {
  }

  lemma {:induction false} LaidFrom(es: seq<MapEntry>, s: string, i: nat, k: nat)
    requires es != [] && MapLaid(es, s, i) && k < |es|
    ensures MapLaid(es[k..], s, StartOf(es, i, k))
    decreases k
  {
    if k > 0 {
      LaidFrom(es, s, i, k - 1);
      LaidNext(es[k - 1..], es[k..], s, StartOf(es, i, k - 1));
    } else {
      assert es[0..] == es;
    }
  }

  lemma {:induction false} LaidAt(es: seq<MapEntry>, s: string, i: nat, k: nat)
    requires es != [] && MapLaid(es, s, i) && k < |es|
    ensures PairLaid(es[k], s, StartOf(es, i, k))
  {
    LaidFrom(es, s, i, k);
  }

  lemma {:induction false} PlacesHoldPair(es: seq<MapEntry>, s: string, i: nat, k: nat)
    requires es != [] && MapLaid(es, s, i) && k < |es|
    ensures HoldsPair(es[k], s, KeyPlaces(EachLengths(es), i)[k], ValuePlaces(EachLengths(es), i)[k])
  {
    var ls := EachLengths(es);
    LaidAt(es, s, i, k);
    OffsetIsStart(es, i, k);
    PlacesAt(ls, i, k);
    PairTexts(es[k], s, Offset(ls, i, k));
  }

  lemma {:induction false} TextsOfPrinted(es: seq<MapEntry>, s: string)
    requires es != [] ==> MapLaid(es, s, 1)
    ensures var keys, values := KeyPlaces(EachLengths(es), 1), ValuePlaces(EachLengths(es), 1);
            Inside(s, keys) && Inside(s, values) && FieldTexts(s, keys) == KeyTexts(es) && FieldTexts(s, values) == ValueTexts(es)
  {
    var keys, values := KeyPlaces(EachLengths(es), 1), ValuePlaces(EachLengths(es), 1);
    forall k | 0 <= k < |es| ensures HoldsPair(es[k], s, keys[k], values[k]) { PlacesHoldPair(es, s, 1, k); }
  }

  // ---------- The cast of a printed map ----------

  ghost predicate TypedMap(es: seq<MapEntry>, key: Ty, value: Ty) {
    forall k :: 0 <= k < |es| ==> es[k].key != Null && Typed(es[k].key, key) && Typed(es[k].value, value)
  }

  function CollapseEntries(es: seq<MapEntry>): (r: seq<MapEntry>)
    ensures |r| == |es|
  {
    seq(|es|, k requires 0 <= k < |es| => MapEntry(Collapse(es[k].key), Collapse(es[k].value)))
  }

  ghost predicate DistinctKeys(es: seq<MapEntry>) {
    forall i, j :: 0 <= i < j < |es| ==> es[i].key != es[j].key
  }

  lemma {:induction false} PrintedKeyCopies(v: V, ty: Ty)
    requires v != Null && Typed(v, ty)
    ensures Copier(ty)(Entry(v)) == Some(Collapse(v)) && Collapse(v) != Null
  {
    CopyEntry(v, ty);
  }

  /** The log of a printed map raises exactly on a key that collapses to an earlier one. */
  lemma {:induction false} PrintedAccepted(es: seq<MapEntry>, key: Ty, value: Ty)
    requires TypedMap(es, key, value)
    ensures !Writes(Copier(key), Copier(value), KeyTexts(es), ValueTexts(es), 0, {}).raised <==> DistinctKeys(CollapseEntries(es))
  {
    var keys, values, copyKey, copyValue := KeyTexts(es), ValueTexts(es), Copier(key), Copier(value);
    CastSucceedsExactly(copyKey, copyValue, keys, values, 0, {});
    forall k | 0 <= k < |es|
      ensures copyKey(keys[k]) == Some(CollapseEntries(es)[k].key) && CollapseEntries(es)[k].key != Null && copyValue(values[k]).Some?
    {
      PrintedKeyCopies(es[k].key, key);
      CopyEntry(es[k].value, value);
    }
  }

  lemma {:induction false} PairedContent(writes: seq<Write>, k: nat)
    requires 2 * k + 1 < |writes|
    ensures k < |Paired(writes)| && Paired(writes)[k] == MapEntry(writes[2 * k].content, writes[2 * k + 1].content)
    decreases k
  {
    if k > 0 { PairedContent(writes[2..], k - 1); }
  }

  lemma {:induction false} PairedLength(writes: seq<Write>)
    ensures |Paired(writes)| == |writes| / 2
    decreases |writes|
  {
    if |writes| >= 2 { PairedLength(writes[2..]); }
  }

  lemma {:induction false} WriteContents(copyKey: Copy, copyValue: Copy, keys: seq<string>, values: seq<string>, writes: seq<Write>, k: nat)
    requires writes == Writes(copyKey, copyValue, keys, values, 0, {}).writes && 2 * k + 1 < |writes|
    ensures k < |keys| && k < |values| && copyKey(keys[k]) == Some(writes[2 * k].content) && copyValue(values[k]) == Some(writes[2 * k + 1].content)
  {
    WritesInOrder(copyKey, copyValue, keys, values, 0, {}, 2 * k);
    WritesInOrder(copyKey, copyValue, keys, values, 0, {}, 2 * k + 1);
  }

  lemma {:induction false} PrintedEntry(es: seq<MapEntry>, key: Ty, value: Ty, writes: seq<Write>, k: nat)
    requires TypedMap(es, key, value) && k < |es| && 2 * k + 1 < |writes|
    requires writes == Writes(Copier(key), Copier(value), KeyTexts(es), ValueTexts(es), 0, {}).writes
    ensures writes[2 * k].content == Collapse(es[k].key) && writes[2 * k + 1].content == Collapse(es[k].value)
  {
    WriteContents(Copier(key), Copier(value), KeyTexts(es), ValueTexts(es), writes, k);
    PrintedKeyCopies(es[k].key, key);
    CopyEntry(es[k].value, value);
  }

  lemma {:induction false} PairedAre(writes: seq<Write>, entries: seq<MapEntry>)
    requires |writes| == 2 * |entries|
    requires forall k :: 0 <= k < |entries| ==> entries[k] == MapEntry(writes[2 * k].content, writes[2 * k + 1].content)
    ensures Paired(writes) == entries
  {
    PairedLength(writes);
    forall k | 0 <= k < |entries| ensures Paired(writes)[k] == entries[k] { PairedContent(writes, k); }
  }

  lemma {:induction false} PrintedEntries(es: seq<MapEntry>, key: Ty, value: Ty, log: Log)
    requires TypedMap(es, key, value) && log == Writes(Copier(key), Copier(value), KeyTexts(es), ValueTexts(es), 0, {}) && !log.raised
    ensures Paired(log.writes) == CollapseEntries(es)
  {
    WritesAll(Copier(key), Copier(value), KeyTexts(es), ValueTexts(es), 0, {});
    var c := CollapseEntries(es);
    forall k | 0 <= k < |c| ensures c[k] == MapEntry(log.writes[2 * k].content, log.writes[2 * k + 1].content) {
      PrintedEntry(es, key, value, log.writes, k);
    }
    PairedAre(log.writes, c);
  }

  /** Casting the text of any map: its entries, lone NULLs collapsed, or a refusal when two keys become equal. */
  lemma {:induction false} CastPrintedMap(es: seq<MapEntry>, key: Ty, value: Ty)
    requires TypedMap(es, key, value)
    ensures CastOf(Copier(key), Copier(value), MapString(es)) ==
              if DistinctKeys(CollapseEntries(es)) then Some(CollapseEntries(es)) else None
  {
    var s := MapString(es);
    SplitPrintedMap(es);
    TextsOfPrinted(es, s);
    PrintedAccepted(es, key, value);
    if DistinctKeys(CollapseEntries(es)) { PrintedEntries(es, key, value, MapLog(Copier(key), Copier(value), s)); }
  }

  /** The cast undoes the printer exactly for the maps that hold no lone NULL list, given distinct keys. */
  lemma {:induction false} CastUndoesMapPrintExactly(es: seq<MapEntry>, key: Ty, value: Ty)
    requires TypedMap(es, key, value) && DistinctKeys(es)
    ensures CastOf(Copier(key), Copier(value), MapString(es)) == Some(es) <==>
              forall k :: 0 <= k < |es| ==> NoLoneNull(es[k].key) && NoLoneNull(es[k].value)
  {
    CastPrintedMap(es, key, value);
    var c := CollapseEntries(es);
    forall k | 0 <= k < |es| ensures c[k] == es[k] <==> NoLoneNull(es[k].key) && NoLoneNull(es[k].value) {
      CollapseExactly(es[k].key);
      CollapseExactly(es[k].value);
    }
    if forall k :: 0 <= k < |es| ==> NoLoneNull(es[k].key) && NoLoneNull(es[k].value) { assert c == es; }
    if c == es { assert forall k :: 0 <= k < |es| ==> c[k] == es[k]; }
  }
}
