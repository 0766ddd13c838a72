/**
 The map cast: a first pass counts values and reserves as many slots, a second pass writes a key and a
 value into each. The writes are listed with their slots; the keys of a map are not null and distinct.
 */
module MapCast {
  import opened Basics
  import opened TextScan
  import opened ListText
  import opened ListRoundTrip
  import opened MapText

  type Copy = string -> Option<V>

  datatype MapEntry = MapEntry(key: V, value: V)

  datatype Write = KeyWrite(slot: nat, content: V) | ValueWrite(slot: nat, content: V)

  /** What the second pass wrote, and whether a key or a value made it raise. */
  datatype Log = Log(writes: seq<Write>, raised: bool)

  /** A key or value as `handleKey` and `handleValue` pass it on. */
  function FieldText(s: string, p: Piece): string
    requires p.start <= p.end <= |s|
  {
    s[p.start..TrimEnd(s, p.start, p.end)]
  }

  function FieldTexts(s: string, pieces: seq<Piece>): (r: seq<string>)
    requires Inside(s, pieces)
    ensures |r| == |pieces|
  {
    seq(|pieces|, k requires 0 <= k < |pieces| => FieldText(s, pieces[k]))
  }

  lemma {:induction false} PairsInside(s: string, i: nat)
    requires i <= |s|
    ensures Inside(s, PairsFrom(s, i).keys) && Inside(s, PairsFrom(s, i).values)
  {
    var r := PairsFrom(s, i);
    PairsCounted(s, i);
    forall k | 0 <= k < |r.keys| ensures r.keys[k].start <= r.keys[k].end <= |s| { PairsAlternate(s, i, k); }
    forall k | 0 <= k < |r.values| ensures r.values[k].start <= r.values[k].end <= |s| { PairsAlternate(s, i, k); }
  }

  lemma {:induction false} MapInside(s: string)
    ensures Inside(s, SplitMap(s).keys) && Inside(s, SplitMap(s).values)
  {
    var i := SkipSpace(s, 0);
    if i < |s| && s[i] == '{' { PairsInside(s, SkipSpace(s, i + 1)); }
  }

  // ---------- The writes of the second pass ----------

  /** From pair `k` on: the key, refused when it is null or there already, then the value, if there is one. */
  function Writes(copyKey: Copy, copyValue: Copy, keys: seq<string>, values: seq<string>, k: nat, seen: set<V>): Log
    requires k <= |keys|
    decreases |keys| - k
  {
    if k == |keys| then Log([], false)
    else
      var key := copyKey(keys[k]);
      if key.None? then Log([], true)
      else if key.value == Null || key.value in seen then Log([KeyWrite(k, key.value)], true)
      else if k >= |values| then Log([KeyWrite(k, key.value)], false)
      else
        var value := copyValue(values[k]);
        if value.None? then Log([KeyWrite(k, key.value)], true)
        else
          var rest := Writes(copyKey, copyValue, keys, values, k + 1, seen + {key.value});
          Log([KeyWrite(k, key.value), ValueWrite(k, value.value)] + rest.writes, rest.raised)
  }

  /** Keys and values in turn, the slot one further after each value. */
  lemma {:induction false} WritesInOrder(copyKey: Copy, copyValue: Copy, keys: seq<string>, values: seq<string>, k: nat, seen: set<V>, i: nat)
    requires k <= |keys| && i < |Writes(copyKey, copyValue, keys, values, k, seen).writes|
    ensures var w := Writes(copyKey, copyValue, keys, values, k, seen).writes[i];
            w.slot == k + i / 2 < |keys| && (w.KeyWrite? <==> i % 2 == 0) &&
            (w.KeyWrite? ==> copyKey(keys[w.slot]) == Some(w.content)) &&
            (w.ValueWrite? ==> w.slot < |values| && copyValue(values[w.slot]) == Some(w.content))
    decreases |keys| - k
  {
    var key := copyKey(keys[k]);
    if i >= 2 { WritesInOrder(copyKey, copyValue, keys, values, k + 1, seen + {key.value}, i - 2); }
  }

  /** Without a refusal there is a write for every key and every value that follows a key. */
  lemma {:induction false} WritesAll(copyKey: Copy, copyValue: Copy, keys: seq<string>, values: seq<string>, k: nat, seen: set<V>)
    requires k <= |values| <= |keys| <= |values| + 1 && !Writes(copyKey, copyValue, keys, values, k, seen).raised
    ensures |Writes(copyKey, copyValue, keys, values, k, seen).writes| == (|keys| - k) + (|values| - k)
    decreases |keys| - k
  {
    if k < |values| { WritesAll(copyKey, copyValue, keys, values, k + 1, seen + {copyKey(keys[k]).value}); }
  }

  /** Some write is outside the slots reserved. */
  ghost predicate WritesPast(writes: seq<Write>, reserved: nat) {
    exists i :: 0 <= i < |writes| && writes[i].slot >= reserved
  }

  /** No pair with a value is refused, and the key after them can be copied. */
  predicate ReachesLastKey(copyKey: Copy, copyValue: Copy, keys: seq<string>, values: seq<string>, k: nat, seen: set<V>)
    requires k <= |values| < |keys|
    decreases |values| - k
  {
    var key := copyKey(keys[k]);
    if k == |values| then key.Some?
    else key.Some? && key.value != Null && key.value !in seen && copyValue(values[k]).Some? &&
         ReachesLastKey(copyKey, copyValue, keys, values, k + 1, seen + {key.value})
  }

  lemma {:induction false} PastWhenReached(copyKey: Copy, copyValue: Copy, keys: seq<string>, values: seq<string>, k: nat, seen: set<V>)
    requires k <= |values| <= |keys| <= |values| + 1
    ensures WritesPast(Writes(copyKey, copyValue, keys, values, k, seen).writes, |values|) <==>
              |keys| > |values| && ReachesLastKey(copyKey, copyValue, keys, values, k, seen)
    decreases |keys| - k
  {
    var log := Writes(copyKey, copyValue, keys, values, k, seen);
    if k < |values| {
      var key, value := copyKey(keys[k]), copyValue(values[k]);
      if key.Some? && key.value != Null && key.value !in seen && value.Some? {
        var rest := Writes(copyKey, copyValue, keys, values, k + 1, seen + {key.value}).writes;
        PastWhenReached(copyKey, copyValue, keys, values, k + 1, seen + {key.value});
        assert log.writes[2..] == rest;
        if WritesPast(rest, |values|) {
          var i :| 0 <= i < |rest| && rest[i].slot >= |values|;
          assert log.writes[i + 2] == rest[i];
        }
        if WritesPast(log.writes, |values|) {
          var i :| 0 <= i < |log.writes| && log.writes[i].slot >= |values|;
          assert log.writes[i] == rest[i - 2];
        }
      }
    } else if k < |keys| && copyKey(keys[k]).Some? {
      assert log.writes[0].slot >= |values|;
    }
  }

  // ---------- The scan that leaves a key without a value ----------

  /** The scan from a key on comes to a key whose value does not end. */
  ghost predicate EndsOpen(s: string, i: nat)
    requires i <= |s|
    decreases |s| - i
  {
    i < |s| &&
    match NextPair(s, i)
    case NoKey => false
    case KeyOnly(_) => true
    case KeyValue(_, value, next) => s[value.end] != '}' && EndsOpen(s, next)
  }

  lemma {:induction false} OpenExactly(s: string, i: nat)
    requires i <= |s|
    ensures |PairsFrom(s, i).keys| == |PairsFrom(s, i).values| + (if EndsOpen(s, i) then 1 else 0)
    decreases |s| - i
  {
    if i < |s| {
      var p := NextPair(s, i);
      if p.KeyValue? && s[p.value.end] != '}' { OpenExactly(s, p.next); }
    }
  }

  ghost predicate MapEndsOpen(s: string) {
    var i := SkipSpace(s, 0);
    i < |s| && s[i] == '{' && (var j := SkipSpace(s, i + 1); j < |s| && s[j] != '}' && EndsOpen(s, j))
  }

  lemma {:induction false} MapOpenExactly(s: string)
    ensures |SplitMap(s).keys| == |SplitMap(s).values| + (if MapEndsOpen(s) then 1 else 0)
    ensures MapEndsOpen(s) ==> !SplitMap(s).ok
  {
    FillMatchesCount(s);
    var i := SkipSpace(s, 0);
    if i < |s| && s[i] == '{' {
      var j := SkipSpace(s, i + 1);
      if j < |s| && s[j] != '}' { OpenExactly(s, j); }
    }
  }

  ghost function MapLog(copyKey: Copy, copyValue: Copy, s: string): Log {
    MapInside(s);
    Writes(copyKey, copyValue, FieldTexts(s, SplitMap(s).keys), FieldTexts(s, SplitMap(s).values), 0, {})
  }

  /** A key is written into a slot that was not reserved exactly when the scan comes to a key whose value
      does not end, the pairs before it are accepted and the key can be copied; the cast then fails. */
  lemma {:induction false} PastReservationExactly(copyKey: Copy, copyValue: Copy, s: string)
    ensures WritesPast(MapLog(copyKey, copyValue, s).writes, |SplitMap(s).values|) <==>
              MapEndsOpen(s) &&
              (MapOpenExactly(s); MapInside(s);
               ReachesLastKey(copyKey, copyValue, FieldTexts(s, SplitMap(s).keys), FieldTexts(s, SplitMap(s).values), 0, {}))
    ensures WritesPast(MapLog(copyKey, copyValue, s).writes, |SplitMap(s).values|) ==> !SplitMap(s).ok
  {
    MapInside(s);
    MapOpenExactly(s);
    PastWhenReached(copyKey, copyValue, FieldTexts(s, SplitMap(s).keys), FieldTexts(s, SplitMap(s).values), 0, {});
  }

  lemma {:induction false} UnclosedSplit()
    ensures SplitMap("{1=2,3=4") == MapSplit(false, [Piece(1, 2), Piece(5, 6)], [Piece(3, 4)])
  {
    var s := "{1=2,3=4";
    assert FieldEnd(s, 5, true) == Some(6) by { assert FieldEnd(s, 6, true) == Some(6); }
    assert FieldEnd(s, 7, false) == None by { assert FieldEnd(s, 8, false) == None; }
    assert NextPair(s, 5) == KeyOnly(Piece(5, 6));
    assert FieldEnd(s, 1, true) == Some(2) by { assert FieldEnd(s, 2, true) == Some(2); }
    assert FieldEnd(s, 3, false) == Some(4) by { assert FieldEnd(s, 4, false) == Some(4); }
    assert NextPair(s, 1) == KeyValue(Piece(1, 2), Piece(3, 4), 5);
    assert PairsFrom(s, 5) == MapSplit(false, [Piece(5, 6)], []);
    assert SplitMap(s) == PairsFrom(s, 1);
  }

  /** Such a text: one slot is reserved, and the second key goes to the slot after it. */
  lemma {:induction false} UnclosedMap(copyKey: Copy, copyValue: Copy)
    requires copyKey("1").Some? && copyKey("1").value != Null && copyValue("2").Some? && copyKey("3").Some?
    ensures |SplitMap("{1=2,3=4").values| == 1 && WritesPast(MapLog(copyKey, copyValue, "{1=2,3=4").writes, 1)
  {
    var s := "{1=2,3=4";
    UnclosedSplit();
    MapInside(s);
    var keys, values := FieldTexts(s, SplitMap(s).keys), FieldTexts(s, SplitMap(s).values);
    assert keys[0] == "1" && keys[1] == "3" && values[0] == "2";
    PastWhenReached(copyKey, copyValue, keys, values, 0, {});
  }

  // ---------- The cast ----------

  /** The entries that alternating writes make up. */
  function Paired(writes: seq<Write>): seq<MapEntry> {
    if |writes| < 2 then [] else [MapEntry(writes[0].content, writes[1].content)] + Paired(writes[2..])
  }

  /** The map a text stands for, or nothing where the cast raises. */
  ghost function CastOf(copyKey: Copy, copyValue: Copy, s: string): Option<seq<MapEntry>> {
    var log := MapLog(copyKey, copyValue, s);
    if SplitMap(s).ok && !log.raised then Some(Paired(log.writes)) else None
  }

  ghost predicate Sofar(whole: Log, sofar: seq<Write>, rest: Log) {
    whole == Log(sofar + rest.writes, rest.raised)
  }

  lemma {:induction false} TakeWrites(whole: Log, sofar: seq<Write>, some: seq<Write>, rest: Log)
    requires Sofar(whole, sofar, Log(some + rest.writes, rest.raised))
    ensures Sofar(whole, sofar + some, rest)
  {
    assert sofar + (some + rest.writes) == (sofar + some) + rest.writes;
  }

  /** The slots hold what was written into them. */
  ghost predicate Holds(sofar: seq<Write>, keys: seq<V>, values: seq<V>, k: nat)
    requires k <= |keys| && k <= |values|
  {
    |sofar| == 2 * k && forall j :: 0 <= j < k ==> sofar[2 * j] == KeyWrite(j, keys[j]) && sofar[2 * j + 1] == ValueWrite(j, values[j])
  }

  lemma {:induction false} HoldsNext(sofar: seq<Write>, keys: seq<V>, values: seq<V>, k: nat, keys': seq<V>, values': seq<V>, some: seq<Write>)
    requires k < |keys| == |keys'| && k < |values| == |values'| && Holds(sofar, keys, values, k)
    requires keys'[..k] == keys[..k] && values'[..k] == values[..k] && some == [KeyWrite(k, keys'[k]), ValueWrite(k, values'[k])]
    ensures Holds(sofar + some, keys', values', k + 1)
  {
    forall j | 0 <= j < k + 1
      ensures (sofar + some)[2 * j] == KeyWrite(j, keys'[j]) && (sofar + some)[2 * j + 1] == ValueWrite(j, values'[j])
    {
      if j < k { assert keys'[j] == keys[..k][j] && values'[j] == values[..k][j]; }
    }
  }

  lemma {:induction false} HoldsPaired(writes: seq<Write>, keys: seq<V>, values: seq<V>, k: nat, from: nat)
    requires k <= |keys| && k <= |values| && Holds(writes, keys, values, k) && from <= k
    ensures Paired(writes[2 * from..]) == seq(k - from, j requires 0 <= j < k - from => MapEntry(keys[from + j], values[from + j]))
    decreases k - from
  {
    if from < k {
      HoldsPaired(writes, keys, values, k, from + 1);
      assert writes[2 * from..][2..] == writes[2 * (from + 1)..];
      assert writes[2 * from..][0] == writes[2 * from] && writes[2 * from..][1] == writes[2 * from + 1];
    }
  }

  /** The second pass over the pairs: `handleKey` at the current slot, `handleValue` there and on to the next. */
  method FillMap(copyKey: Copy, copyValue: Copy, keyTexts: seq<string>, valueTexts: seq<string>, keys: array<V>, values: array<V>)
    returns (raised: bool, ghost writes: seq<Write>)
    requires |valueTexts| <= |keyTexts| <= |valueTexts| + 1 && keys != values
    requires keys.Length == |valueTexts| + 1 && values.Length == |valueTexts| + 1
    modifies keys, values
    ensures Log(writes, raised) == Writes(copyKey, copyValue, keyTexts, valueTexts, 0, {})
    ensures !raised && |keyTexts| == |valueTexts| ==> Holds(writes, keys[..], values[..], |valueTexts|)
  {
    var offset: nat := 0;
    var unique: set<V> := {};
    ghost var whole := Writes(copyKey, copyValue, keyTexts, valueTexts, 0, {});
    writes := [];
    assert Sofar(whole, [], whole);
    while offset < |keyTexts|
      invariant offset <= |valueTexts| && offset <= |keyTexts|
      invariant Sofar(whole, writes, Writes(copyKey, copyValue, keyTexts, valueTexts, offset, unique))
      invariant Holds(writes, keys[..], values[..], offset)
      decreases |keyTexts| - offset
    {
      ghost var keysWere, valuesWere := keys[..], values[..];
      var key := copyKey(keyTexts[offset]);
      if key.None? { return true, writes; }
      keys[offset] := key.value;
      if key.value == Null || key.value in unique { return true, writes + [KeyWrite(offset, key.value)]; }
      if offset == |valueTexts| { return false, writes + [KeyWrite(offset, key.value)]; }
      var value := copyValue(valueTexts[offset]);
      if value.None? { return true, writes + [KeyWrite(offset, key.value)]; }
      values[offset] := value.value;
      unique := unique + {key.value};
      ghost var some := [KeyWrite(offset, key.value), ValueWrite(offset, value.value)];
      TakeWrites(whole, writes, some, Writes(copyKey, copyValue, keyTexts, valueTexts, offset + 1, unique));
      HoldsNext(writes, keysWere, valuesWere, offset, keys[..], values[..], some);
      writes := writes + some;
      offset := offset + 1;
    }
    raised := false;
  }

  /** The slots, reserved and filled. One more than is reserved is kept, so that a write there shows. */
  method FillSlots(copyKey: Copy, copyValue: Copy, keyTexts: seq<string>, valueTexts: seq<string>, reserved: nat)
    returns (raised: bool, entries: seq<MapEntry>, ghost writes: seq<Write>)
    requires reserved == |valueTexts| <= |keyTexts| <= |valueTexts| + 1
    ensures Log(writes, raised) == Writes(copyKey, copyValue, keyTexts, valueTexts, 0, {})
    ensures !raised && |keyTexts| == reserved ==> entries == Paired(writes) && |entries| == reserved && |writes| == 2 * reserved
  {
    var keys, values := new V[reserved + 1](_ => Null), new V[reserved + 1](_ => Null);
    raised, writes := FillMap(copyKey, copyValue, keyTexts, valueTexts, keys, values);
    var slots, contents := keys[..], values[..];
    entries := seq(reserved, j requires 0 <= j < reserved => MapEntry(slots[j], contents[j]));
    if !raised && |keyTexts| == reserved {
      HoldsPaired(writes, slots, contents, reserved, 0);
      assert writes[0..] == writes;
    }
  }

  /** The map cast as the source runs it: count, reserve, fill. */
  method CastMap(copyKey: Copy, copyValue: Copy, text: string) returns (r: Option<seq<MapEntry>>, reserved: nat, ghost writes: seq<Write>)
    ensures reserved == |SplitMap(text).values| && writes == MapLog(copyKey, copyValue, text).writes
    ensures r == CastOf(copyKey, copyValue, text)
    ensures r.Some? ==> |r.value| == reserved && |writes| == 2 * reserved && !WritesPast(writes, reserved)
  {
    MapInside(text);
    FillMatchesCount(text);
    PastReservationExactly(copyKey, copyValue, text);
    var _, _, counted := SplitCStringMap(text);
    reserved := |counted|;
    var ok, keyPieces, valuePieces := SplitCStringMap(text);
    var raised, entries;
    raised, entries, writes := FillSlots(copyKey, copyValue, FieldTexts(text, keyPieces), FieldTexts(text, valuePieces), reserved);
    r := if raised || !ok then None else Some(entries);
  }

  /** On success every key copies, none is null, no two are equal, and every value copies, slot by slot. */
  lemma {:induction false} CastSucceedsExactly(copyKey: Copy, copyValue: Copy, keys: seq<string>, values: seq<string>, k: nat, seen: set<V>)
    requires k <= |keys| == |values|
    ensures !Writes(copyKey, copyValue, keys, values, k, seen).raised <==>
              && (forall i :: k <= i < |keys| ==> copyKey(keys[i]).Some? && copyKey(keys[i]).value != Null && copyValue(values[i]).Some?)
              && (forall i :: k <= i < |keys| ==> copyKey(keys[i]).value !in seen)
              && (forall i, j :: k <= i < j < |keys| ==> copyKey(keys[i]) != copyKey(keys[j]))
    decreases |keys| - k
  {
    if k < |keys| && copyKey(keys[k]).Some? {
      CastSucceedsExactly(copyKey, copyValue, keys, values, k + 1, seen + {copyKey(keys[k]).value});
    }
  }
}
