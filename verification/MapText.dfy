/**
 Splitting the text of a map, `{k=v, k=v}`, into keys and values. On arbitrary text every read is before
 the end.
 */
module MapText {
  import opened Basics
  import opened TextScan
  import opened ListText

  predicate Ends(c: char, isKey: bool) {
    if isKey then c == '=' else c == ',' || c == '}'
  }

  /** Where the key or value starting here ends. */
  function FieldEnd(s: string, i: nat, isKey: bool): (r: Option<nat>)
    requires i <= |s|
    ensures r.Some? ==> i <= r.value < |s| && Ends(s[r.value], isKey)
    decreases |s| - i
  {
    if i == |s| then None
    else if IsQuote(s[i]) then
      var q := FindChar(s, i + 1, s[i]);
      if q.None? then None else FieldEnd(s, q.value + 1, isKey)
    else if s[i] == '{' || s[i] == '[' then
      var close := CloseAt(s, i + 1, if s[i] == '{' then '}' else ']');
      if close.None? then None else FieldEnd(s, close.value + 1, isKey)
    else if Ends(s[i], isKey) then Some(i)
    else FieldEnd(s, i + 1, isKey)
  }

  /** `parseKeyOrValue`, the cursor and its level advanced in place. */
  method ParseKeyOrValue(s: string, start: nat, isKey: bool) returns (ok: bool, pos: nat)
    requires start <= |s|
    ensures pos <= |s|
    ensures if ok then FieldEnd(s, start, isKey) == Some(pos) else FieldEnd(s, start, isKey).None?
  {
    pos := start;
    var lvl: nat := 0;
    while pos < |s|
      invariant start <= pos <= |s| && lvl < LEVELS
      invariant FieldEnd(s, pos, isKey) == FieldEnd(s, start, isKey)
    {
      if IsQuote(s[pos]) {
        ok, pos := SkipToCloseQuotes(s, pos);
        if !ok { return; }
      } else if s[pos] == '{' || s[pos] == '[' {
        var target := if s[pos] == '{' then '}' else ']';
        ok, pos, lvl := SkipToClose(s, pos, lvl, target);
        if !ok { return; }
      } else if Ends(s[pos], isKey) {
        return true, pos;
      }
      pos := pos + 1;
    }
    ok := false;
  }

  // ---------- The whole map ----------

  datatype MapSplit = MapSplit(ok: bool, keys: seq<Piece>, values: seq<Piece>)

  /** The next pair: where its key, its value and what follows lie; `value` is missing when it does not end. */
  datatype Pair = NoKey | KeyOnly(key: Piece) | KeyValue(key: Piece, value: Piece, next: nat)

  function NextPair(s: string, i: nat): (r: Pair)
    requires i < |s|
    ensures !r.NoKey? ==> r.key.start == i <= r.key.end < |s|
    ensures r.KeyValue? ==> i <= r.key.end < r.value.start <= r.value.end < r.next <= |s|
  {
    var k := FieldEnd(s, i, true);
    if k.None? then NoKey
    else
      var v := SkipSpace(s, k.value + 1);
      var e := FieldEnd(s, v, false);
      if e.None? then KeyOnly(Piece(i, k.value))
      else KeyValue(Piece(i, k.value), Piece(v, e.value), SkipSpace(s, e.value + 1))
  }

  /** The pairs from a key on. */
  function PairsFrom(s: string, i: nat): MapSplit
    requires i <= |s|
    decreases |s| - i
  {
    if i == |s| then MapSplit(false, [], [])
    else
      match NextPair(s, i)
      case NoKey => MapSplit(false, [], [])
      case KeyOnly(key) => MapSplit(false, [key], [])
      case KeyValue(key, value, next) =>
        var rest := if s[value.end] == '}' then MapSplit(next == |s|, [], []) else PairsFrom(s, next);
        MapSplit(rest.ok, [key] + rest.keys, [value] + rest.values)
  }

  function SplitMap(s: string): MapSplit {
    var i := SkipSpace(s, 0);
    if i == |s| || s[i] != '{' then MapSplit(false, [], [])
    else
      var j := SkipSpace(s, i + 1);
      if j == |s| then MapSplit(false, [], [])
      else if s[j] == '}' then MapSplit(SkipSpace(s, j + 1) == |s|, [], [])
      else PairsFrom(s, j)
  }

  ghost predicate Remaining(whole: MapSplit, keys: seq<Piece>, values: seq<Piece>, rest: MapSplit) {
    whole == MapSplit(rest.ok, keys + rest.keys, values + rest.values)
  }

  lemma {:induction false} TakePair(whole: MapSplit, keys: seq<Piece>, values: seq<Piece>, k: Piece, v: Piece, rest: MapSplit)
    requires Remaining(whole, keys, values, MapSplit(rest.ok, [k] + rest.keys, [v] + rest.values))
    ensures Remaining(whole, keys + [k], values + [v], rest)
  {
    assert keys + ([k] + rest.keys) == (keys + [k]) + rest.keys;
    assert values + ([v] + rest.values) == (values + [v]) + rest.values;
  }

  method ParsePair(s: string, pos: nat) returns (r: Pair)
    requires pos < |s|
    ensures r == NextPair(s, pos)
  {
    var ok, k := ParseKeyOrValue(s, pos, true);
    if !ok { return NoKey; }
    var v := SkipWhitespace(s, k + 1);
    var ended, e := ParseKeyOrValue(s, v, false);
    if !ended { return KeyOnly(Piece(pos, k)); }
    var next := SkipWhitespace(s, e + 1);
    r := KeyValue(Piece(pos, k), Piece(v, e), next);
  }

  /** The loop of `splitCStringMap`: a key, a value, and so on until the closing brace. */
  method SplitPairs(s: string, first: nat) returns (ok: bool, keys: seq<Piece>, values: seq<Piece>)
    requires first < |s|
    ensures MapSplit(ok, keys, values) == PairsFrom(s, first)
  {
    keys, values := [], [];
    var pos: nat := first;
    ghost var whole := PairsFrom(s, first);
    while pos < |s|
      invariant pos <= |s|
      invariant Remaining(whole, keys, values, PairsFrom(s, pos))
    {
      var pair := ParsePair(s, pos);
      match pair {
        case NoKey => return false, keys, values;
        case KeyOnly(key) => return false, keys + [key], values;
        case KeyValue(key, value, next) =>
          if s[value.end] == '}' { return next == |s|, keys + [key], values + [value]; }
          TakePair(whole, keys, values, key, value, PairsFrom(s, next));
          keys, values, pos := keys + [key], values + [value], next;
      }
    }
    ok := false;
  }

  /** `splitCStringMap` on arbitrary text. */
  method SplitCStringMap(s: string) returns (ok: bool, keys: seq<Piece>, values: seq<Piece>)
    ensures MapSplit(ok, keys, values) == SplitMap(s)
  {
    keys, values := [], [];
    var pos := SkipWhitespace(s, 0);
    if pos == |s| || s[pos] != '{' { return false, [], []; }
    pos := SkipWhitespace(s, pos + 1);
    if pos == |s| { return false, [], []; }
    if s[pos] == '}' {
      pos := SkipWhitespace(s, pos + 1);
      return pos == |s|, [], [];
    }
    ok, keys, values := SplitPairs(s, pos);
  }

  // ---------- Count and fill ----------

  lemma {:induction false} PairsCounted(s: string, i: nat)
    requires i <= |s|
    ensures |PairsFrom(s, i).values| <= |PairsFrom(s, i).keys| <= |PairsFrom(s, i).values| + 1
    ensures PairsFrom(s, i).ok ==> |PairsFrom(s, i).keys| == |PairsFrom(s, i).values|
    decreases |s| - i
  {
    if i < |s| {
      var p := NextPair(s, i);
      if p.KeyValue? && s[p.value.end] != '}' {
        PairsCounted(s, p.next);
      }
    }
  }

  /** The pass that counts, counts values; the pass that fills has as many keys, or one more when the last
      key has no value that ends, and then the text is no map. */
  lemma {:induction false} FillMatchesCount(s: string)
    ensures |SplitMap(s).values| <= |SplitMap(s).keys| <= |SplitMap(s).values| + 1
    ensures SplitMap(s).ok ==> |SplitMap(s).keys| == |SplitMap(s).values|
  {
    var i := SkipSpace(s, 0);
    if i < |s| && s[i] == '{' {
      var j := SkipSpace(s, i + 1);
      if j < |s| && s[j] != '}' {
        PairsCounted(s, j);
      }
    }
  }

  /** Keys and values alternate in the text: each value lies after its key and before the next key. */
  lemma {:induction false} PairsAlternate(s: string, i: nat, k: nat)
    requires i <= |s| && k < |PairsFrom(s, i).keys|
    ensures var r := PairsFrom(s, i);
            && i <= r.keys[k].start <= r.keys[k].end < |s|
            && (k < |r.values| ==> r.keys[k].end < r.values[k].start <= r.values[k].end < |s|)
            && (k + 1 < |r.keys| ==> k < |r.values| && r.values[k].end < r.keys[k + 1].start)
    decreases |s| - i
  {
    PairsCounted(s, i);
    var p := NextPair(s, i);
    if p.KeyValue? && s[p.value.end] != '}' {
      var rest := PairsFrom(s, p.next);
      PairsCounted(s, p.next);
      if k > 0 {
        PairsAlternate(s, p.next, k - 1);
      } else if |rest.keys| > 0 {
        PairsAlternate(s, p.next, 0);
      }
    }
  }
}
