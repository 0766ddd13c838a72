/**
 Casting the text of a printed list gives the list back.
 */
module ListRoundTrip {
  import opened Basics
  import opened TextScan
  import opened IntText
  import opened ListText

  // ---------- The cast ----------

  /** `isNull`: blank, or the word NULL in any case, with white space around. */
  function IsNull(t: string): bool {
    var i := SkipSpace(t, 0);
    || i == |t|
    || (i + 4 <= |t| && (t[i] == 'N' || t[i] == 'n') && (t[i + 1] == 'U' || t[i + 1] == 'u')
        && (t[i + 2] == 'L' || t[i + 2] == 'l') && (t[i + 3] == 'L' || t[i + 3] == 'l')
        && SkipSpace(t, i + 4) == |t|)
  }

  /** A part of the text without the white space around it, as `handleValue` passes it on. */
  function PartText(s: string, p: Piece): string
    requires p.start <= p.end <= |s|
  {
    var part := s[p.start..p.end];
    var i := SkipSpace(part, 0);
    part[i..TrimEnd(part, i, |part|)]
  }

  predicate Inside(s: string, pieces: seq<Piece>) {
    forall k :: 0 <= k < |pieces| ==> pieces[k].start <= pieces[k].end <= |s|
  }

  lemma {:induction false} PartsInside(s: string, i: nat, start: nat, just: bool, seen: bool)
    requires start <= |s| && (i < |s| ==> start <= i)
    ensures Inside(s, SplitFrom(s, i, start, just, seen).pieces)
    decreases |s| - i
  {
    if i < |s| && s[i] == ',' {
      var j := SkipSpace(s, i + 1);
      PartsInside(s, j, j, true, true);
    } else if i < |s| && s[i] != ']' && ScanPart(s, i, just).Some? {
      PartsInside(s, ScanPart(s, i, just).value, start, false, seen);
    }
  }

  /** The texts of the parts. */
  function PartTexts(s: string, pieces: seq<Piece>): (r: seq<string>)
    requires Inside(s, pieces)
    ensures |r| == |pieces|
  {
    seq(|pieces|, k requires 0 <= k < |pieces| => PartText(s, pieces[k]))
  }

  /** Every text cast by the same function, or nothing when one of them does not cast. */
  function Gather(cast: string -> Option<V>, texts: seq<string>): (r: Option<seq<V>>)
    ensures r.Some? ==> |r.value| == |texts|
  {
    if texts == [] then Some([])
    else
      var first, rest := cast(texts[0]), Gather(cast, texts[1..]);
      if first.None? || rest.None? then None else Some([first.value] + rest.value)
  }

  /** `copyStringToVector`: NULL for a null text, otherwise the cast; nothing when the cast throws. */
  function CopyString(ty: Ty, t: string): Option<V>
    decreases ty, 1
  {
    if IsNull(t) then Some(Null) else Cast(ty, t)
  }

  function Copier(ty: Ty): string -> Option<V>
    decreases ty, 2
  {
    t => CopyString(ty, t)
  }

  /** The integer cast and the list cast. */
  function Cast(ty: Ty, t: string): Option<V>
    decreases ty, 0
  {
    match ty
    case IntTy => (var n := ReadInt(t); if n.None? then None else Some(Int(n.value)))
    case ListTy(elem) =>
      var split := SplitList(t);
      if !split.ok then None
      else
        SplitInside(t);
        var vs := Gather(Copier(elem), PartTexts(t, split.pieces));
        if vs.None? then None else Some(List(vs.value))
  }

  lemma {:induction false} SplitInside(s: string)
    ensures Inside(s, SplitList(s).pieces)
  {
    var i := SkipSpace(s, 0);
    if i < |s| && s[i] == '[' {
      var j := SkipSpace(s, i + 1);
      PartsInside(s, j, j, true, false);
    }
  }

  // ---------- Texts inside a text ----------

  ghost predicate At(s: string, i: nat, t: string) {
    i + |t| <= |s| && s[i..i + |t|] == t
  }

  lemma {:induction false} AtParts(s: string, i: nat, a: string, b: string)
    requires At(s, i, a + b)
    ensures At(s, i, a) && At(s, i + |a|, b)
  {
    var t := a + b;
    assert s[i..i + |a|] == s[i..i + |t|][..|a|] == a;
    assert s[i + |a|..i + |a| + |b|] == s[i..i + |t|][|a|..] == b;
  }

  lemma {:induction false} AtFirst(s: string, i: nat, t: string)
    requires At(s, i, t) && t != ""
    ensures i < |s| && s[i] == t[0] && At(s, i + 1, t[1..])
  {
    assert s[i] == s[i..i + |t|][0];
    assert t == [t[0]] + t[1..];
    AtParts(s, i, [t[0]], t[1..]);
  }

  lemma {:induction false} AtBracketed(s: string, i: nat, body: string)
    requires At(s, i, "[" + body + "]")
    ensures i < i + 1 + |body| < |s| && s[i] == '[' && At(s, i + 1, body) && s[i + 1 + |body|] == ']'
  {
    assert "[" + body + "]" == "[" + (body + "]");
    AtParts(s, i, "[", body + "]");
    AtParts(s, i + 1, body, "]");
    AtFirst(s, i, "[");
    AtFirst(s, i + 1 + |body|, "]");
  }

  lemma {:induction false} AtComma(s: string, i: nat, a: string, b: string)
    requires At(s, i, a + "," + b)
    ensures At(s, i, a) && i + |a| < |s| && s[i + |a|] == ',' && At(s, i + |a| + 1, b)
  {
    assert a + "," + b == a + ("," + b);
    AtParts(s, i, a, "," + b);
    AtParts(s, i + |a|, ",", b);
    AtFirst(s, i + |a|, ",");
  }

  ghost predicate Plain(c: char) {
    IsDigit(c) || c == '-'
  }

  // ---------- The skip passes over printed entries ----------

  lemma {:induction false} SkipPlain(s: string, i: nat, t: string)
    requires At(s, i, t) && forall k :: 0 <= k < |t| ==> Plain(t[k])
    ensures CloseAt(s, i, ']') == CloseAt(s, i + |t|, ']')
    decreases |t|
  {
    if t != "" {
      AtFirst(s, i, t);
      SkipPlain(s, i + 1, t[1..]);
    }
  }

  /** An entry is balanced: skipping it brings the scan to its end. */
  lemma {:induction false} SkipEntry(v: V, s: string, i: nat)
    requires At(s, i, Entry(v))
    ensures CloseAt(s, i, ']') == CloseAt(s, i + |Entry(v)|, ']')
    decreases v, 1
  {
    match v
    case Null =>
    case Int(n) => SkipPlain(s, i, Entry(v));
    case List(elems) => SkipList(elems, s, i);
  }

  /** From an opening bracket the skip stops on the matching one. */
  lemma {:induction false} SkipList(elems: seq<V>, s: string, i: nat)
    requires At(s, i, Entry(List(elems)))
    ensures CloseAt(s, i + 1, ']') == Some(i + |Entry(List(elems))| - 1)
    ensures CloseAt(s, i, ']') == CloseAt(s, i + |Entry(List(elems))|, ']')
    decreases elems, 1
  {
    ListLaid(elems, s, i);
    SkipJoined(elems, s, i + 1, i + |Entry(List(elems))| - 1);
    SkipBracketed(s, i, i + |Entry(List(elems))| - 1);
  }

  lemma {:induction false} ListLaid(elems: seq<V>, s: string, i: nat)
    requires At(s, i, Entry(List(elems)))
    ensures var end := i + |Entry(List(elems))| - 1;
            i < end < |s| && s[i] == '[' && Laid(elems, s, i + 1, end) && s[end] == ']'
  {
    AtBracketed(s, i, Joined(elems));
    JoinedLaid(elems, s, i + 1);
  }

  lemma {:induction false} SkipBracketed(s: string, i: nat, j: nat)
    requires i < j < |s| && s[i] == '[' && s[j] == ']'
    requires CloseAt(s, i + 1, ']') == CloseAt(s, j, ']')
    ensures CloseAt(s, i + 1, ']') == Some(j)
    ensures CloseAt(s, i, ']') == CloseAt(s, j + 1, ']')
  {
  }

  lemma {:induction false} SkipComma(s: string, i: nat)
    requires i < |s| && s[i] == ','
    ensures CloseAt(s, i, ']') == CloseAt(s, i + 1, ']')
  {
  }

  lemma {:induction false} JoinedSplits(elems: seq<V>)
    requires |elems| > 1
    ensures Joined(elems) == Entry(elems[0]) + "," + Joined(elems[1..])
    ensures |Joined(elems)| == |Entry(elems[0])| + 1 + |Joined(elems[1..])|
  {
  }

  /** The elements' texts lie in the text from `i` to `end`, with commas between them. */
  ghost predicate Laid(elems: seq<V>, s: string, i: nat, end: nat) {
    if elems == [] then i == end <= |s|
    else
      && At(s, i, Entry(elems[0]))
      && (var comma := i + |Entry(elems[0])|;
          if |elems| == 1 then comma == end
          else comma < |s| && s[comma] == ',' && Laid(elems[1..], s, comma + 1, end))
  }

  lemma {:induction false} JoinedLaid(elems: seq<V>, s: string, i: nat)
    requires At(s, i, Joined(elems))
    ensures Laid(elems, s, i, i + |Joined(elems)|)
    decreases |elems|
  {
    if |elems| > 1 {
      JoinedSplits(elems);
      AtComma(s, i, Entry(elems[0]), Joined(elems[1..]));
      JoinedLaid(elems[1..], s, i + |Entry(elems[0])| + 1);
    }
  }

  lemma {:induction false} SkipNext(s: string, i: nat, comma: nat, end: nat)
    requires i <= comma < |s| && s[comma] == ',' && comma < end <= |s|
    requires CloseAt(s, i, ']') == CloseAt(s, comma, ']') && CloseAt(s, comma + 1, ']') == CloseAt(s, end, ']')
    ensures CloseAt(s, i, ']') == CloseAt(s, end, ']')
  {
    SkipComma(s, comma);
  }

  lemma {:induction false} SkipJoined(elems: seq<V>, s: string, i: nat, end: nat)
    requires Laid(elems, s, i, end)
    ensures i <= end <= |s| && CloseAt(s, i, ']') == CloseAt(s, end, ']')
    decreases elems, 0
  {
    if elems != [] {
      SkipEntry(elems[0], s, i);
      if |elems| > 1 {
        var comma := i + |Entry(elems[0])|;
        SkipJoined(elems[1..], s, comma + 1, end);
        SkipNext(s, i, comma, end);
      }
    }
  }

  // ---------- The splitter cuts a printed list at its own commas ----------

  lemma {:induction false} PartPlain(s: string, i: nat, t: string, start: nat, just: bool, seen: bool)
    requires At(s, i, t) && start <= i && forall k :: 0 <= k < |t| ==> Plain(t[k])
    ensures SplitFrom(s, i, start, just, seen) == SplitFrom(s, i + |t|, start, just && t == "", seen)
    decreases |t|
  {
    if t != "" {
      AtFirst(s, i, t);
      PartPlain(s, i + 1, t[1..], start, false, seen);
    }
  }

  lemma {:induction false} PartEntry(v: V, s: string, i: nat, start: nat, just: bool, seen: bool)
    requires At(s, i, Entry(v)) && start <= i
    ensures SplitFrom(s, i, start, just, seen) == SplitFrom(s, i + |Entry(v)|, start, just && Entry(v) == "", seen)
  {
    match v
    case Null =>
    case Int(n) => PartPlain(s, i, Entry(v), start, just, seen);
    case List(elems) => PartList(elems, s, i, start, just, seen);
  }

  lemma {:induction false} PartList(elems: seq<V>, s: string, i: nat, start: nat, just: bool, seen: bool)
    requires At(s, i, Entry(List(elems))) && start <= i
    ensures SplitFrom(s, i, start, just, seen) == SplitFrom(s, i + |Entry(List(elems))|, start, false, seen)
  {
    AtBracketed(s, i, Joined(elems));
    SkipList(elems, s, i);
    PartOver(s, i, start, just, seen, i + |Entry(List(elems))|);
  }

  lemma {:induction false} PartOver(s: string, i: nat, start: nat, just: bool, seen: bool, j: nat)
    requires start <= i < |s| && s[i] == '[' && ScanPart(s, i, just) == Some(j)
    ensures SplitFrom(s, i, start, just, seen) == SplitFrom(s, j, start, false, seen)
  {
  }

  /** Where each element's text lies, when the first one starts at `i`. */
  ghost function Places(elems: seq<V>, i: nat): (r: seq<Piece>)
    ensures |r| == |elems|
  {
    if elems == [] then []
    else [Piece(i, i + |Entry(elems[0])|)] + Places(elems[1..], i + |Entry(elems[0])| + 1)
  }

  lemma {:induction false} EntryEdges(v: V)
    ensures Entry(v) != "" ==>
      !IsSpace(Entry(v)[0]) && !IsSpace(Entry(v)[|Entry(v)| - 1]) && Entry(v)[0] != 'N' && Entry(v)[0] != 'n'
  {
    match v
    case Null =>
    case Int(n) =>
      var t := ShowInt(n);
      assert Plain(t[0]) && Plain(t[|t| - 1]);
    case List(elems) =>
      var t := "[" + Joined(elems) + "]";
      assert t[0] == '[' && t[|t| - 1] == ']';
  }

  lemma {:induction false} PartAtComma(s: string, i: nat, start: nat, just: bool, seen: bool, rest: seq<Piece>)
    requires start <= i < |s| && s[i] == ',' && SkipSpace(s, i + 1) == i + 1
    requires SplitFrom(s, i + 1, i + 1, true, true) == Split(true, rest)
    ensures SplitFrom(s, i, start, just, seen) == Split(true, [Piece(start, i)] + rest)
  {
  }

  lemma {:induction false} PartAtEnd(s: string, i: nat, start: nat, just: bool, seen: bool)
    requires start <= i == |s| - 1 && s[i] == ']' && (start < i || seen)
    ensures SplitFrom(s, i, start, just, seen) == Split(true, [Piece(start, i)])
  {
    assert SkipSpace(s, |s|) == |s|;
  }

  /** The parts of a printed list are its entries, in order. */
  lemma {:induction false} SplitJoined(elems: seq<V>, s: string, i: nat, seen: bool)
    requires elems != [] && s != "" && Laid(elems, s, i, |s| - 1) && s[|s| - 1] == ']'
    requires seen || |elems| > 1 || Entry(elems[0]) != ""
    ensures i < |s| && SplitFrom(s, i, i, true, seen) == Split(true, Places(elems, i))
    decreases |elems|
  {
    if |elems| == 1 {
      SplitLast(elems, s, i, seen);
    } else {
      var next := i + |Entry(elems[0])| + 1;
      NextNotSpace(elems[1..], s, next);
      SplitJoined(elems[1..], s, next, true);
      SplitFirst(elems, s, i, seen);
    }
  }

  lemma {:induction false} SplitLast(elems: seq<V>, s: string, i: nat, seen: bool)
    requires |elems| == 1 && At(s, i, Entry(elems[0])) && i + |Entry(elems[0])| + 1 == |s| && s[|s| - 1] == ']'
    requires seen || Entry(elems[0]) != ""
    ensures SplitFrom(s, i, i, true, seen) == Split(true, Places(elems, i))
  {
    var end := i + |Entry(elems[0])|;
    PartEntry(elems[0], s, i, i, true, seen);
    PartAtEnd(s, end, i, Entry(elems[0]) == "", seen);
    assert elems[1..] == [] && Places(elems[1..], end + 1) == [];
  }

  lemma {:induction false} SplitFirst(elems: seq<V>, s: string, i: nat, seen: bool)
    requires |elems| > 1 && At(s, i, Entry(elems[0]))
    requires i + |Entry(elems[0])| < |s| && s[i + |Entry(elems[0])|] == ','
    requires SkipSpace(s, i + |Entry(elems[0])| + 1) == i + |Entry(elems[0])| + 1
    requires SplitFrom(s, i + |Entry(elems[0])| + 1, i + |Entry(elems[0])| + 1, true, true)
          == Split(true, Places(elems[1..], i + |Entry(elems[0])| + 1))
    ensures SplitFrom(s, i, i, true, seen) == Split(true, Places(elems, i))
  {
    var comma := i + |Entry(elems[0])|;
    PartEntry(elems[0], s, i, i, true, seen);
    PartAtComma(s, comma, i, Entry(elems[0]) == "", seen, Places(elems[1..], comma + 1));
  }

  /** What follows an opening bracket or a comma in a printed list is not white space. */
  lemma {:induction false} NextNotSpace(elems: seq<V>, s: string, i: nat)
    requires s != "" && Laid(elems, s, i, |s| - 1) && s[|s| - 1] == ']'
    ensures i < |s| && SkipSpace(s, i) == i
  {
    if elems != [] {
      var first := Entry(elems[0]);
      EntryEdges(elems[0]);
      if first != "" {
        AtFirst(s, i, first);
      }
    }
  }

  /** Splitting a printed list: a part per element, except that `[NULL]` reads as no element at all. */
  lemma {:induction false} SplitPrinted(elems: seq<V>)
    ensures SplitList(Entry(List(elems))) ==
            Split(true, if |elems| == 1 && Entry(elems[0]) == "" then [] else Places(elems, 1))
  {
    var s, body := Entry(List(elems)), Joined(elems);
    assert s[0..|s|] == s;
    AtBracketed(s, 0, body);
    assert SkipSpace(s, 0) == 0;
    JoinedLaid(elems, s, 1);
    NextNotSpace(elems, s, 1);
    if elems == [] || (|elems| == 1 && Entry(elems[0]) == "") {
      assert SkipSpace(s, 2) == 2;
    } else {
      SplitJoined(elems, s, 1, false);
    }
  }

  // ---------- Casting what was printed ----------

  /** The value that text can tell apart: a list holding one NULL is the empty list, at every level. */
  function Collapse(v: V): V
    decreases v, 1
  {
    match v
    case Null => Null
    case Int(n) => Int(n)
    case List(elems) => if elems == [Null] then List([]) else List(CollapseEach(elems))
  }

  function CollapseEach(elems: seq<V>): (r: seq<V>)
    ensures |r| == |elems|
    decreases elems, 0
  {
    if elems == [] then [] else [Collapse(elems[0])] + CollapseEach(elems[1..])
  }

  ghost predicate NoLoneNull(v: V)
    decreases v
  {
    v.List? ==> v.elems != [Null] && forall i :: 0 <= i < |v.elems| ==> NoLoneNull(v.elems[i])
  }

  lemma {:induction false} TrimNothing(t: string)
    requires t != "" ==> !IsSpace(t[0]) && !IsSpace(t[|t| - 1])
    ensures SkipSpace(t, 0) == 0 && TrimEnd(t, 0, |t|) == |t| && t[0..|t|] == t
  {
  }

  /** Reading an entry's text in its place gives the entry without its lone NULLs. */
  lemma {:induction false} CopyEntry(v: V, ty: Ty)
    requires Typed(v, ty)
    ensures CopyString(ty, Entry(v)) == Some(Collapse(v))
    decreases v, 2
  {
    EntryEdges(v);
    TrimNothing(Entry(v));
    match v
    case Null =>
    case Int(n) => ReadUndoesShow(n);
    case List(elems) => CastPrinted(elems, ty);
  }

  /** Casting the text of any list of any type: the value back, lone NULLs collapsed. */
  lemma {:induction false} CastPrinted(elems: seq<V>, ty: Ty)
    requires Typed(List(elems), ty)
    ensures Cast(ty, Entry(List(elems))) == Some(Collapse(List(elems)))
    decreases elems, 1
  {
    var s := Entry(List(elems));
    SplitPrinted(elems);
    SplitInside(s);
    if |elems| == 1 && Entry(elems[0]) == "" {
      assert elems[0] == Null by { EmptyIsNull(elems[0]); }
      assert elems == [Null];
      assert PartTexts(s, []) == [];
    } else {
      assert elems != [Null];
      EntriesOf(elems, s);
      GatherEntries(elems, ty.elem);
    }
  }

  lemma {:induction false} EmptyIsNull(v: V)
    ensures Entry(v) == "" <==> v == Null
  {
  }

  ghost function Entries(elems: seq<V>): (r: seq<string>)
    ensures |r| == |elems|
  {
    seq(|elems|, k requires 0 <= k < |elems| => Entry(elems[k]))
  }

  lemma {:induction false} PartIsEntry(v: V, s: string, i: nat)
    requires At(s, i, Entry(v))
    ensures PartText(s, Piece(i, i + |Entry(v)|)) == Entry(v)
  {
    EntryEdges(v);
    TrimNothing(Entry(v));
  }

  lemma {:induction false} PlaceHoldsEntry(elems: seq<V>, s: string, i: nat, end: nat, k: nat)
    requires Laid(elems, s, i, end) && k < |elems|
    ensures var p := Places(elems, i)[k];
            p.start <= p.end <= |s| && At(s, p.start, Entry(elems[k])) && p.end == p.start + |Entry(elems[k])|
    decreases |elems|
  {
    if k > 0 {
      PlaceHoldsEntry(elems[1..], s, i + |Entry(elems[0])| + 1, end, k - 1);
    }
  }

  lemma {:induction false} PlacesHoldEntries(elems: seq<V>, s: string, i: nat, end: nat)
    requires Laid(elems, s, i, end)
    ensures Inside(s, Places(elems, i)) && PartTexts(s, Places(elems, i)) == Entries(elems)
  {
    var places := Places(elems, i);
    forall k | 0 <= k < |places|
      ensures places[k].start <= places[k].end <= |s|
      ensures PartText(s, places[k]) == Entry(elems[k])
    {
      PlaceHoldsEntry(elems, s, i, end, k);
      PartIsEntry(elems[k], s, places[k].start);
    }
  }

  lemma {:induction false} EntriesOf(elems: seq<V>, s: string)
    requires s == Entry(List(elems))
    ensures Inside(s, Places(elems, 1)) && PartTexts(s, Places(elems, 1)) == Entries(elems)
  {
    assert s[0..|s|] == s;
    AtBracketed(s, 0, Joined(elems));
    JoinedLaid(elems, s, 1);
    PlacesHoldEntries(elems, s, 1, 1 + |Joined(elems)|);
  }

  lemma {:induction false} GatherEntries(elems: seq<V>, ty: Ty)
    requires forall k :: 0 <= k < |elems| ==> Typed(elems[k], ty)
    ensures Gather(Copier(ty), Entries(elems)) == Some(CollapseEach(elems))
    decreases elems, 0
  {
    if elems != [] {
      CopyEntry(elems[0], ty);
      GatherEntries(elems[1..], ty);
      assert Entries(elems)[1..] == Entries(elems[1..]);
    }
  }

  lemma {:induction false} CollapseExactly(v: V)
    ensures Collapse(v) == v <==> NoLoneNull(v)
    decreases v, 1
  {
    if v.List? && v.elems != [Null] {
      CollapseEachExactly(v.elems);
    }
  }

  lemma {:induction false} CollapseEachExactly(elems: seq<V>)
    ensures CollapseEach(elems) == elems <==> forall i :: 0 <= i < |elems| ==> NoLoneNull(elems[i])
    decreases elems, 0
  {
    if elems != [] {
      var rest := elems[1..];
      CollapseExactly(elems[0]);
      CollapseEachExactly(rest);
      assert elems == [elems[0]] + rest;
      assert CollapseEach(elems)[0] == Collapse(elems[0]) && CollapseEach(elems)[1..] == CollapseEach(rest);
      assert (forall i :: 0 <= i < |elems| ==> NoLoneNull(elems[i])) <==>
             NoLoneNull(elems[0]) && forall i :: 0 <= i < |rest| ==> NoLoneNull(rest[i]) by {
        if NoLoneNull(elems[0]) && forall i :: 0 <= i < |rest| ==> NoLoneNull(rest[i]) {
          forall i | 0 <= i < |elems| ensures NoLoneNull(elems[i]) { assert i > 0 ==> elems[i] == rest[i - 1]; }
        }
        if forall i :: 0 <= i < |elems| ==> NoLoneNull(elems[i]) {
          forall i | 0 <= i < |rest| ensures NoLoneNull(rest[i]) { assert rest[i] == elems[i + 1]; }
        }
      }
    }
  }

  /** The cast undoes the printer exactly for the lists that hold no lone NULL at any level. */
  lemma {:induction false} CastUndoesPrintExactly(elems: seq<V>, ty: Ty)
    requires Typed(List(elems), ty)
    ensures Cast(ty, Entry(List(elems))) == Some(List(elems)) <==> NoLoneNull(List(elems))
  {
    CastPrinted(elems, ty);
    CollapseExactly(List(elems));
  }

  // ---------- Count, reserve, fill ----------

  /** What is written so far, followed by what the remaining parts cast to. */
  ghost predicate Filling(whole: Option<seq<V>>, sofar: seq<V>, rest: Option<seq<V>>) {
    whole == if rest.None? then None else Some(sofar + rest.value)
  }

  lemma {:induction false} FillNext(cast: string -> Option<V>, texts: seq<string>, k: nat, sofar: seq<V>, whole: Option<seq<V>>)
    requires k < |texts| && Filling(whole, sofar, Gather(cast, texts[k..]))
    ensures var v := cast(texts[k]);
            if v.None? then whole.None? else Filling(whole, sofar + [v.value], Gather(cast, texts[k + 1..]))
  {
    assert texts[k..][1..] == texts[k + 1..];
    var v, rest := cast(texts[k]), Gather(cast, texts[k + 1..]);
    if v.Some? && rest.Some? {
      assert sofar + ([v.value] + rest.value) == (sofar + [v.value]) + rest.value;
    }
  }

  /** The second pass: `handleValue` on each part, the offset one further each time. */
  method Fill(cast: string -> Option<V>, texts: seq<string>, slots: array<V>) returns (ok: bool, written: nat)
    requires slots.Length == |texts|
    modifies slots
    ensures written <= |texts|
    ensures if ok then written == |texts| && Gather(cast, texts) == Some(slots[..]) else Gather(cast, texts).None?
  {
    written := 0;
    ghost var whole := Gather(cast, texts);
    assert texts[0..] == texts;
    assert whole.Some? ==> [] + whole.value == whole.value;
    while written < |texts|
      invariant written <= |texts|
      invariant Filling(whole, slots[..written], Gather(cast, texts[written..]))
    {
      var v := cast(texts[written]);
      ghost var sofar := slots[..written];
      FillNext(cast, texts, written, sofar, whole);
      if v.None? { return false, written; }
      slots[written] := v.value;
      written := written + 1;
      assert slots[..written] == sofar + [v.value];
    }
    assert slots[..written] + [] == slots[..];
    ok := true;
  }

  /** The list cast as the source runs it: a first pass counts the parts, the slots are reserved, and a
      second pass fills them one after the other. Nothing is returned when a part or the list does not cast. */
  method CastList(elem: Ty, text: string) returns (r: Option<seq<V>>, reserved: nat, written: nat)
    ensures r == (var v := Cast(ListTy(elem), text); if v.None? then None else Some(v.value.elems))
    ensures reserved == |SplitList(text).pieces| && written <= reserved
    ensures r.Some? ==> written == reserved == |r.value|
  {
    SplitInside(text);
    var _, counted := SplitCStringList(text);
    reserved := |counted|;
    var slots := new V[reserved](_ => Null);
    var ok, pieces := SplitCStringList(text);
    var filled;
    filled, written := Fill(Copier(elem), PartTexts(text, pieces), slots);
    if !filled || !ok { return None, reserved, written; }
    r := Some(slots[..]);
  }
}
