/**
 Substring search: a needle of one byte is looked up, one of up to eight bytes is compared as a machine
 word or as a window shifted through one, and a longer one is filtered by a rolling sum. A word of k
 bytes is written here as its bytes, highest first.
 */
module Find {

  import opened Basics

  const WRAP: nat := 0x1_0000_0000

  ghost predicate OccursAt(hay: seq<Byte>, needle: seq<Byte>, i: int) {
    0 <= i && i + |needle| <= |hay| && hay[i..i + |needle|] == needle
  }

  /** The least occurrence, or -1 where there is none. */
  ghost predicate IsFirst(hay: seq<Byte>, needle: seq<Byte>, r: int) {
    (r == -1 || OccursAt(hay, needle, r)) && forall i :: OccursAt(hay, needle, i) ==> 0 <= r <= i
  }

  // ---------- Windows in a word ----------

  /** Bytes at the high end of a word of `size` bytes. */
  function High(bytes: seq<Byte>, size: nat): seq<Byte>
    requires |bytes| <= size
  {
    bytes + Zeros(size - |bytes|)
  }

  lemma {:induction false} HighTells(a: seq<Byte>, b: seq<Byte>, size: nat)
    requires |a| == |b| <= size
    ensures High(a, size) == High(b, size) <==> a == b
  {
    if High(a, size) == High(b, size) { assert a == High(a, size)[..|a|] && b == High(b, size)[..|b|]; }
  }

  /** A byte shifted to the place `i`, counted from the high end. */
  function Placed(b: Byte, i: nat, size: nat): seq<Byte>
    requires i < size
  {
    Zeros(i) + [b] + Zeros(size - 1 - i)
  }

  function ShiftLeft8(word: seq<Byte>): seq<Byte>
    requires |word| > 0
  {
    word[1..] + [0]
  }

  /** No place holds something in both words: bitwise or is addition there. */
  ghost predicate Disjoint(a: seq<Byte>, b: seq<Byte>) {
    |a| == |b| && forall i :: 0 <= i < |a| ==> a[i] == 0 || b[i] == 0
  }

  function Or(a: seq<Byte>, b: seq<Byte>): seq<Byte>
    requires Disjoint(a, b)
  {
    seq(|a|, i requires 0 <= i < |a| => a[i] + b[i])
  }

  lemma {:induction false} OrPlaces(bytes: seq<Byte>, b: Byte, size: nat)
    requires |bytes| < size
    ensures Disjoint(High(bytes, size), Placed(b, |bytes|, size))
    ensures Or(High(bytes, size), Placed(b, |bytes|, size)) == High(bytes + [b], size)
  {
  }

  lemma {:induction false} ShiftDrops(bytes: seq<Byte>, size: nat)
    requires 0 < |bytes| <= size
    ensures ShiftLeft8(High(bytes, size)) == High(bytes[1..], size)
  {
  }

  method Gather(bytes: seq<Byte>, count: nat, size: nat) returns (entry: seq<Byte>)
    requires count <= |bytes| && count <= size
    ensures entry == High(bytes[..count], size)
  {
    entry := Zeros(size);
    for i := 0 to count
      invariant entry == High(bytes[..i], size)
    {
      OrPlaces(bytes[..i], bytes[i], size);
      assert bytes[..i + 1] == bytes[..i] + [bytes[i]];
      entry := Or(entry, Placed(bytes[i], i, size));
    }
  }

  /** The next window, with its first byte shifted out and its last one put in. */
  lemma {:induction false} WindowMoves(hay: seq<Byte>, offset: nat, n: nat, size: nat)
    requires 0 < n <= size && n <= offset < |hay|
    ensures var shifted := ShiftLeft8(High(hay[offset - n..offset], size));
            && Disjoint(shifted, Placed(hay[offset], n - 1, size))
            && Or(shifted, Placed(hay[offset], n - 1, size)) == High(hay[offset + 1 - n..offset + 1], size)
  {
    var window := hay[offset - n..offset];
    ShiftDrops(window, size);
    OrPlaces(window[1..], hay[offset], size);
    assert hay[offset + 1 - n..offset + 1] == window[1..] + [hay[offset]];
  }

  lemma {:induction false} WindowTells(hay: seq<Byte>, needle: seq<Byte>, at: nat, size: nat)
    requires |needle| <= size && at + |needle| <= |hay|
    ensures High(hay[at..at + |needle|], size) == High(needle, size) <==> OccursAt(hay, needle, at)
  {
    HighTells(hay[at..at + |needle|], needle, size);
  }

  /** `unalignedNeedleSizeFind` */
  method UnalignedFind(hay: seq<Byte>, needle: seq<Byte>, size: nat) returns (r: int)
    requires 0 < |needle| <= size
    ensures IsFirst(hay, needle, r)
  {
    var n := |needle|;
    if n > |hay| { return -1; }
    var needleEntry := Gather(needle, n, size);
    assert needle[..n] == needle;
    var entry := Gather(hay, n, size);
    assert hay[..n] == hay[0..n];
    for offset := n to |hay|
      invariant entry == High(hay[offset - n..offset], size)
      invariant forall i :: OccursAt(hay, needle, i) ==> i >= offset - n
    {
      WindowTells(hay, needle, offset - n, size);
      if entry == needleEntry { return offset - n; }
      WindowMoves(hay, offset, n, size);
      entry := Or(ShiftLeft8(entry), Placed(hay[offset], n - 1, size));
    }
    WindowTells(hay, needle, |hay| - n, size);
    if entry == needleEntry { return |hay| - n; }
    r := -1;
  }

  // ---------- Whole words ----------

  /** A little-endian load: the first byte is the lowest. */
  function Load(bytes: seq<Byte>): (w: seq<Byte>)
    ensures |w| == |bytes| && forall i :: 0 <= i < |w| ==> w[i] == bytes[|bytes| - 1 - i]
  {
    if bytes == [] then [] else Load(bytes[1..]) + [bytes[0]]
  }

  lemma {:induction false} LoadTells(a: seq<Byte>, b: seq<Byte>)
    requires |a| == |b|
    ensures Load(a) == Load(b) <==> a == b
  {
    if Load(a) == Load(b) {
      forall i | 0 <= i < |a| ensures a[i] == b[i] { assert a[i] == Load(a)[|a| - 1 - i] && b[i] == Load(b)[|a| - 1 - i]; }
    }
  }

  /** `alignedNeedleSizeFind` */
  method AlignedFind(hay: seq<Byte>, needle: seq<Byte>) returns (r: int)
    requires |needle| > 0
    ensures IsFirst(hay, needle, r)
  {
    var n := |needle|;
    if n > |hay| { return -1; }
    var needleWord := Load(needle);
    for offset := 0 to |hay| - n + 1
      invariant forall i :: OccursAt(hay, needle, i) ==> i >= offset
    {
      LoadTells(needle, hay[offset..offset + n]);
      if needleWord == Load(hay[offset..offset + n]) { return offset; }
      assert !OccursAt(hay, needle, offset);
    }
    r := -1;
  }

  // ---------- Rolling sums ----------

  ghost function Sum(bytes: seq<Byte>): nat {
    if bytes == [] then 0 else Sum(bytes[..|bytes| - 1]) + bytes[|bytes| - 1]
  }

  lemma {:induction false} SumFromFirst(bytes: seq<Byte>)
    requires bytes != []
    ensures Sum(bytes) == bytes[0] + Sum(bytes[1..])
    decreases |bytes|
  {
    if |bytes| > 1 {
      SumFromFirst(bytes[..|bytes| - 1]);
      assert bytes[..|bytes| - 1][1..] == bytes[1..][..|bytes| - 2];
    }
  }

  lemma {:induction false} SumRolls(hay: seq<Byte>, at: nat, n: nat)
    requires 0 < n && at + n < |hay|
    ensures Sum(hay[at + 1..at + n + 1]) == Sum(hay[at..at + n]) - hay[at] + hay[at + n]
  {
    SumFromFirst(hay[at..at + n]);
    assert hay[at..at + n][1..] == hay[at + 1..at + n + 1][..n - 1];
  }

  /** The difference of two sums as a 32-bit unsigned number. */
  ghost predicate Differs(diff: nat, a: nat, b: nat) {
    diff == (a - b) % WRAP
  }

  lemma {:induction false} DifferMoves(diff: nat, a: nat, b: nat, up: nat, down: nat)
    requires Differs(diff, a, b)
    ensures (diff + up - down) % WRAP == (a + up - (b + down)) % WRAP
  {
    var q := (a - b) / WRAP;
    assert a - b == q * WRAP + diff;
    Congruent(diff + up - down, a + up - (b + down), q);
  }

  lemma {:induction false} Congruent(x: int, y: int, q: int)
    requires y == x + q * 0x1_0000_0000
    ensures x % 0x1_0000_0000 == y % 0x1_0000_0000
  {
  }

  /** Adding and then subtracting, each wrapped, is one wrapped sum. */
  lemma {:induction false} WrapTwice(x: int, y: int)
    ensures (x % WRAP + y) % WRAP == (x + y) % WRAP
  {
    Congruent(x % WRAP + y, x + y, x / WRAP);
  }

  method SumDifference(hay: seq<Byte>, needle: seq<Byte>) returns (diff: nat)
    requires |needle| <= |hay|
    ensures Differs(diff, Sum(hay[..|needle|]), Sum(needle))
  {
    diff := 0;
    for i := 0 to |needle|
      invariant Differs(diff, Sum(hay[..i]), Sum(needle[..i]))
    {
      assert hay[..i + 1][..i] == hay[..i] && needle[..i + 1][..i] == needle[..i];
      DifferMoves(diff, Sum(hay[..i]), Sum(needle[..i]), hay[i], needle[i]);
      ghost var down: int := needle[i];
      WrapTwice(diff + hay[i], -down);
      diff := (diff + hay[i]) % WRAP;
      diff := (diff - needle[i]) % WRAP;
    }
    assert needle[..|needle|] == needle;
  }

  lemma {:induction false} Rolls(diff: nat, a: nat, b: nat, out: nat, next: nat)
    requires Differs(diff, a, b) && out <= a
    ensures Differs(((diff - out) % WRAP + next) % WRAP, a - out + next, b)
  {
    WrapTwice(diff - out, next);
    DifferMoves(diff, a, b, next, out);
  }

  /** The filter lets every occurrence through. */
  lemma {:induction false} SumPasses(hay: seq<Byte>, needle: seq<Byte>, at: nat, diff: nat)
    requires needle != [] && at + |needle| <= |hay| && Differs(diff, Sum(hay[at..at + |needle|]), Sum(needle))
    ensures OccursAt(hay, needle, at) ==> diff == 0 && hay[at] == needle[0]
  {
    if OccursAt(hay, needle, at) { FirstByte(hay, needle, at); }
  }

  lemma {:induction false} FirstByte(hay: seq<Byte>, needle: seq<Byte>, i: int)
    requires needle != [] && OccursAt(hay, needle, i)
    ensures hay[i] == needle[0]
  {
    assert hay[i..i + |needle|][0] == hay[i];
  }

  lemma {:induction false} NowhereFirst(hay: seq<Byte>, needle: seq<Byte>, at: nat)
    requires needle != [] && at <= |hay| && forall i :: 0 <= i < at ==> hay[i] != needle[0]
    ensures forall i :: OccursAt(hay, needle, i) ==> at <= i
  {
    forall i | OccursAt(hay, needle, i) ensures at <= i { FirstByte(hay, needle, i); }
  }

  /** The sum difference of the next window. */
  method NextDifference(hay: seq<Byte>, offset: nat, n: nat, diff: nat, ghost total: nat) returns (next: nat)
    requires 0 < n && offset + n < |hay| && Differs(diff, Sum(hay[offset..offset + n]), total)
    ensures Differs(next, Sum(hay[offset + 1..offset + 1 + n]), total)
  {
    SumFromFirst(hay[offset..offset + n]);
    SumRolls(hay, offset, n);
    Rolls(diff, Sum(hay[offset..offset + n]), total, hay[offset], hay[offset + n]);
    next := (diff - hay[offset]) % WRAP;
    next := (next + hay[offset + n]) % WRAP;
  }

  /** `genericFind` */
  method GenericFind(hay: seq<Byte>, needle: seq<Byte>) returns (r: int)
    requires |needle| > 0
    ensures IsFirst(hay, needle, r)
  {
    var n := |needle|;
    if n > |hay| { return -1; }
    var diff: nat := SumDifference(hay, needle);
    var offset: nat := 0;
    assert hay[..n] == hay[0..n];
    while true
      invariant offset + n <= |hay| && Differs(diff, Sum(hay[offset..offset + n]), Sum(needle))
      invariant forall i :: OccursAt(hay, needle, i) ==> i >= offset
      decreases |hay| - offset
    {
      if diff == 0 && hay[offset] == needle[0] {
        if hay[offset..offset + n] == needle { return offset; }
      }
      SumPasses(hay, needle, offset, diff);
      if offset >= |hay| - n { return -1; }
      diff := NextDifference(hay, offset, n, diff, Sum(needle));
      offset := offset + 1;
    }
  }

  // ---------- All sizes ----------

  /** `memchr` */
  method FindByte(hay: seq<Byte>, b: Byte) returns (at: nat)
    ensures at <= |hay| && (at < |hay| ==> hay[at] == b) && forall i :: 0 <= i < at ==> hay[i] != b
  {
    at := 0;
    while at < |hay| && hay[at] != b
      invariant at <= |hay| && forall i :: 0 <= i < at ==> hay[i] != b
    {
      at := at + 1;
    }
  }

  lemma {:induction false} OccursAfter(hay: seq<Byte>, needle: seq<Byte>, at: nat, i: int)
    requires at <= |hay|
    ensures OccursAt(hay[at..], needle, i) <==> i >= 0 && OccursAt(hay, needle, at + i)
  {
    if i >= 0 && at + i + |needle| <= |hay| {
      assert hay[at..][i..i + |needle|] == hay[at + i..at + i + |needle|];
    }
  }

  lemma {:induction false} FirstAfter(hay: seq<Byte>, needle: seq<Byte>, at: nat, r: int)
    requires needle != [] && at <= |hay| && IsFirst(hay[at..], needle, r)
    requires forall i :: 0 <= i < at ==> hay[i] != needle[0]
    ensures IsFirst(hay, needle, if r == -1 then -1 else at + r)
  {
    OccursAfter(hay, needle, at, r);
    NowhereFirst(hay, needle, at);
    forall i | OccursAt(hay, needle, i) ensures r != -1 && at + r <= i { OccursAfter(hay, needle, at, i - at); }
  }

  /** `find`: the least index of a needle that is not empty, or -1. */
  method Find(hay: seq<Byte>, needle: seq<Byte>) returns (r: int)
    requires needle != []
    ensures IsFirst(hay, needle, r)
  {
    var at := FindByte(hay, needle[0]);
    NowhereFirst(hay, needle, at);
    if at == |hay| { return -1; }
    var rest := hay[at..];
    if |needle| == 1 {
      assert hay[at..at + 1] == needle;
      return at;
    } else if |needle| == 2 || |needle| == 4 || |needle| == 8 {
      r := AlignedFind(rest, needle);
    } else if |needle| == 3 {
      r := UnalignedFind(rest, needle, 4);
    } else if |needle| == 5 || |needle| == 6 || |needle| == 7 {
      r := UnalignedFind(rest, needle, 8);
    } else {
      r := GenericFind(rest, needle);
    }
    FirstAfter(hay, needle, at, r);
    if r != -1 { r := at + r; }
  }
}
