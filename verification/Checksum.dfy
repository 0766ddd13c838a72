/**
 The checksum of a buffer: aligned 64-bit words are mixed by an odd multiplication and folded by
 exclusive or, the last one to seven bytes by a string hash, which itself takes bytes of any number. Every
 step can be undone, so damage to one word, or to the tail, always changes the result. Bytes and words are
 their bits, lowest first.
 */
module Checksum {

  import NullMask

  type Word = NullMask.Word

  type Byte = b: seq<bool> | |b| == 8 witness seq(8, _ => false)

  const SIZE: nat := 0x1_0000_0000_0000_0000

  // ---------- Numbers ----------

  function Pow2(n: nat): nat {
    if n == 0 then 1 else 2 * Pow2(n - 1)
  }

  function Number(bits: seq<bool>): nat {
    if bits == [] then 0 else (if bits[0] then 1 else 0) + 2 * Number(bits[1..])
  }

  function Bits(x: nat, n: nat): (r: seq<bool>)
    ensures |r| == n
    decreases n
  {
    if n == 0 then [] else [x % 2 == 1] + Bits(x / 2, n - 1)
  }

  lemma {:induction false} NumberOfBits(x: nat, n: nat)
    requires x < Pow2(n)
    ensures Number(Bits(x, n)) == x
    decreases n
  {
    if n > 0 {
      NumberOfBits(x / 2, n - 1);
      assert Bits(x, n)[1..] == Bits(x / 2, n - 1);
    }
  }

  lemma {:induction false} BitsOfNumber(bits: seq<bool>)
    ensures Bits(Number(bits), |bits|) == bits && Number(bits) < Pow2(|bits|)
    decreases |bits|
  {
    if bits != [] {
      BitsOfNumber(bits[1..]);
      var low := if bits[0] then 1 else 0;
      assert (low + 2 * Number(bits[1..])) / 2 == Number(bits[1..]);
      assert bits == [bits[0]] + bits[1..];
    }
  }

  lemma {:induction false} PowAdds(a: nat, b: nat)
    ensures Pow2(a + b) == Pow2(a) * Pow2(b)
    decreases a
  {
    if a > 0 { PowAdds(a - 1, b); }
  }

  lemma {:induction false} Pow64()
    ensures Pow2(64) == SIZE
  {
    assert Pow2(4) == 16;
    PowAdds(4, 4);
    PowAdds(8, 8);
    PowAdds(16, 16);
    PowAdds(32, 32);
  }

  function ToWord(x: nat): Word {
    Bits(x, 64)
  }

  lemma {:induction false} ToWordTells(x: nat, y: nat)
    requires x < SIZE && y < SIZE && ToWord(x) == ToWord(y)
    ensures x == y
  {
    Pow64();
    NumberOfBits(x, 64);
    NumberOfBits(y, 64);
  }

  // ---------- Steps that can be undone ----------

  /** `checksum` of one word. */
  function Mix(w: Word): Word {
    ToWord(Number(w) * 0xbf58476d1ce4e5b9 % SIZE)
  }

  /** Multiplication by the constant of the string hash. */
  function Scale(w: Word): Word {
    ToWord(Number(w) * 0xc6a4a7935bd1e995 % SIZE)
  }

  /** A factor with an inverse modulo m can be cancelled. */
  lemma {:induction false} Cancels(x: nat, y: nat, c: nat, inverse: nat, k: nat, m: nat)
    requires x < m && y < m && c * inverse == 1 + k * m && x * c % m == y * c % m
    ensures x == y
  {
    var d, q := x - y, x * c / m - y * c / m;
    assert d * c == q * m by {
      assert x * c == x * c / m * m + x * c % m && y * c == y * c / m * m + y * c % m;
      assert d * c == x * c - y * c && q * m == x * c / m * m - y * c / m * m;
    }
    Multiple(d, c, inverse, k, q, m);
    Small(d, q * inverse - k * d, m);
  }

  lemma {:induction false} Multiple(d: int, c: int, inverse: int, k: int, q: int, m: int)
    requires d * c == q * m && c * inverse == 1 + k * m
    ensures d == (q * inverse - k * d) * m
  {
    calc {
      d + k * d * m;
      d * (1 + k * m);
      d * (c * inverse);
      (d * c) * inverse;
      (q * m) * inverse;
      q * inverse * m;
    }
    assert (q * inverse - k * d) * m == q * inverse * m - k * d * m;
  }

  lemma {:induction false} Small(d: int, n: int, m: int)
    requires m > 0 && d == n * m && -m < d < m
    ensures d == 0
  {
    assert n >= 1 ==> n * m >= m;
    assert n <= -1 ==> n * m <= -m;
  }

  lemma {:induction false} MixTells(a: Word, b: Word)
    ensures Mix(a) == Mix(b) <==> a == b
  {
    if Mix(a) == Mix(b) {
      BitsOfNumber(a);
      BitsOfNumber(b);
      Pow64();
      ToWordTells(Number(a) * 0xbf58476d1ce4e5b9 % SIZE, Number(b) * 0xbf58476d1ce4e5b9 % SIZE);
      Cancels(Number(a), Number(b), 0xbf58476d1ce4e5b9, 0x96de1b173f119089, 0x70c3bca78f27f46c, SIZE);
    }
  }

  lemma {:induction false} ScaleTells(a: Word, b: Word)
    ensures Scale(a) == Scale(b) <==> a == b
  {
    if Scale(a) == Scale(b) {
      BitsOfNumber(a);
      BitsOfNumber(b);
      Pow64();
      ToWordTells(Number(a) * 0xc6a4a7935bd1e995 % SIZE, Number(b) * 0xc6a4a7935bd1e995 % SIZE);
      Cancels(Number(a), Number(b), 0xc6a4a7935bd1e995, 0x5f7a0ea7e59b19bd, 0x4a15d006d409ab6f, SIZE);
    }
  }

  function Xor(a: Word, b: Word): (r: Word)
    ensures forall k :: 0 <= k < 64 ==> r[k] == (a[k] != b[k])
  {
    seq(64, k requires 0 <= k < 64 => a[k] != b[k])
  }

  lemma {:induction false} XorTells(a: Word, b: Word, c: Word)
    ensures Xor(a, b) == Xor(a, c) <==> b == c
    ensures Xor(b, a) == Xor(c, a) <==> b == c
  {
    if Xor(a, b) == Xor(a, c) {
      forall k | 0 <= k < 64 ensures b[k] == c[k] { assert Xor(a, b)[k] == Xor(a, c)[k]; }
    }
    if Xor(b, a) == Xor(c, a) {
      forall k | 0 <= k < 64 ensures b[k] == c[k] { assert Xor(b, a)[k] == Xor(c, a)[k]; }
    }
  }

  /** A word and itself shifted right by 47. */
  function XorShift(w: Word): (r: Word)
    ensures forall k :: 0 <= k < 64 ==> r[k] == (w[k] != (k + 47 < 64 && w[k + 47]))
  {
    Xor(w, NullMask.ShiftRight(w, 47))
  }

  lemma {:induction false} XorShiftTells(a: Word, b: Word)
    ensures XorShift(a) == XorShift(b) <==> a == b
  {
    if XorShift(a) == XorShift(b) {
      forall k | 17 <= k < 64 ensures a[k] == b[k] { assert XorShift(a)[k] == XorShift(b)[k]; }
      forall k | 0 <= k < 17 ensures a[k] == b[k] { assert XorShift(a)[k] == XorShift(b)[k] && a[k + 47] == b[k + 47]; }
    }
  }

  // ---------- Words, then a tail ----------

  type Tail = t: seq<Byte> | |t| <= 7

  /** The 64 bits at an aligned place: eight bytes, the first one lowest. */
  function WordAt(buffer: seq<Byte>, i: nat): (w: Word)
    requires 8 * i + 8 <= |buffer|
    ensures forall k :: 0 <= k < 64 ==> w[k] == buffer[8 * i + k / 8][k % 8]
  {
    seq(64, k requires 0 <= k < 64 => buffer[8 * i + k / 8][k % 8])
  }

  lemma {:induction false} WordAtTells(a: seq<Byte>, b: seq<Byte>, i: nat)
    requires |a| == |b| && 8 * i + 8 <= |a|
    ensures WordAt(a, i) == WordAt(b, i) <==> a[8 * i..8 * i + 8] == b[8 * i..8 * i + 8]
  {
    var x, y := a[8 * i..8 * i + 8], b[8 * i..8 * i + 8];
    if WordAt(a, i) == WordAt(b, i) {
      forall j | 0 <= j < 8 ensures x[j] == y[j] {
        forall k | 0 <= k < 8 ensures x[j][k] == y[j][k] {
          assert (8 * j + k) / 8 == j && (8 * j + k) % 8 == k;
          assert WordAt(a, i)[8 * j + k] == WordAt(b, i)[8 * j + k];
        }
      }
    }
    if x == y {
      forall k | 0 <= k < 64 ensures WordAt(a, i)[k] == WordAt(b, i)[k] { assert x[k / 8] == y[k / 8]; }
    }
  }

  /** How a word joins what came before it, and how the bytes after the last word end it. */
  datatype Scheme = Scheme(step: (Word, Word) -> Word, close: (Word, Tail) -> Word)

  ghost predicate Tells(s: Scheme) {
    && (forall f, g, x, y :: (f == g || x == y) && s.step(f, x) == s.step(g, y) ==> f == g && x == y)
    && (forall f, g, x, y :: |x| == |y| && (f == g || x == y) && s.close(f, x) == s.close(g, y) ==> f == g && x == y)
  }

  /** The words before `n`. */
  function Folded(s: Scheme, start: Word, bytes: seq<Byte>, n: nat): Word
    requires 8 * n <= |bytes|
  {
    if n == 0 then start else s.step(Folded(s, start, bytes, n - 1), WordAt(bytes, n - 1))
  }

  function Rest(bytes: seq<Byte>): Tail {
    bytes[8 * (|bytes| / 8)..]
  }

  function TotalBy(s: Scheme, start: Word, bytes: seq<Byte>): Word {
    s.close(Folded(s, start, bytes, |bytes| / 8), Rest(bytes))
  }

  /** The byte strings differ in the bytes of one aligned word at most. */
  ghost predicate SameButWord(a: seq<Byte>, b: seq<Byte>, i: nat) {
    |a| == |b| && 8 * i + 8 <= |a| && forall p :: 0 <= p < |a| && (p < 8 * i || 8 * i + 8 <= p) ==> a[p] == b[p]
  }

  /** The byte strings differ in the bytes after the last whole word at most. */
  ghost predicate SameButTail(a: seq<Byte>, b: seq<Byte>) {
    |a| == |b| && forall p :: 0 <= p < 8 * (|a| / 8) ==> a[p] == b[p]
  }

  lemma {:induction false} WordSame(a: seq<Byte>, b: seq<Byte>, i: nat)
    requires |a| == |b| && 8 * i + 8 <= |a| && forall p :: 8 * i <= p < 8 * i + 8 ==> a[p] == b[p]
    ensures WordAt(a, i) == WordAt(b, i)
  {
  }

  lemma {:induction false} FoldedNext(s: Scheme, start: Word, bytes: seq<Byte>, n: nat, word: Word)
    requires 8 * n + 8 <= |bytes| && word == WordAt(bytes, n)
    ensures Folded(s, start, bytes, n + 1) == s.step(Folded(s, start, bytes, n), word)
  {
  }

  lemma {:induction false} FoldedSame(s: Scheme, start: Word, a: seq<Byte>, b: seq<Byte>, n: nat)
    requires |a| == |b| && 8 * n <= |a| && forall p :: 0 <= p < 8 * n ==> a[p] == b[p]
    ensures Folded(s, start, a, n) == Folded(s, start, b, n)
  {
    if n > 0 { FoldedSame(s, start, a, b, n - 1); WordSame(a, b, n - 1); }
  }

  lemma {:induction false} StepTells(s: Scheme, f: Word, g: Word, x: Word, y: Word)
    requires Tells(s) && (f == g || x == y)
    ensures s.step(f, x) == s.step(g, y) <==> f == g && x == y
  {
  }

  ghost predicate SameFold(s: Scheme, start: Word, a: seq<Byte>, b: seq<Byte>, m: nat) {
    8 * m <= |a| == |b| && Folded(s, start, a, m) == Folded(s, start, b, m)
  }

  ghost predicate SameWord(a: seq<Byte>, b: seq<Byte>, m: nat) {
    8 * m + 8 <= |a| == |b| && WordAt(a, m) == WordAt(b, m)
  }

  /** After one more word, the folds are equal exactly when they were and the words are. */
  ghost predicate NextTells(s: Scheme, start: Word, a: seq<Byte>, b: seq<Byte>, m: nat) {
    SameFold(s, start, a, b, m) || SameWord(a, b, m) ==>
      (SameFold(s, start, a, b, m + 1) <==> SameFold(s, start, a, b, m) && SameWord(a, b, m))
  }

  lemma {:induction false} StepsTell(s: Scheme, start: Word, a: seq<Byte>, b: seq<Byte>, m: nat)
    requires Tells(s) && |a| == |b| && 8 * m + 8 <= |a|
    ensures NextTells(s, start, a, b, m)
  {
    var x, y := WordAt(a, m), WordAt(b, m);
    if SameFold(s, start, a, b, m) || x == y {
      FoldedNext(s, start, a, m, x);
      FoldedNext(s, start, b, m, y);
      StepTells(s, Folded(s, start, a, m), Folded(s, start, b, m), x, y);
    }
  }

  lemma {:induction false} FoldedTells(s: Scheme, start: Word, a: seq<Byte>, b: seq<Byte>, i: nat, n: nat)
    requires |a| == |b| && i < n && 8 * n <= |a|
    requires forall m :: i <= m < n ==> NextTells(s, start, a, b, m)
    requires SameFold(s, start, a, b, i) && forall m :: i < m < n ==> SameWord(a, b, m)
    ensures SameFold(s, start, a, b, n) <==> SameWord(a, b, i)
    decreases n
  {
    assert NextTells(s, start, a, b, n - 1);
    if i < n - 1 {
      FoldedTells(s, start, a, b, i, n - 1);
      assert SameWord(a, b, n - 1);
    }
  }

  lemma {:induction false} WordsTell(s: Scheme, start: Word, a: seq<Byte>, b: seq<Byte>, i: nat)
    requires Tells(s) && SameButWord(a, b, i)
    ensures SameFold(s, start, a, b, |a| / 8) <==> SameWord(a, b, i)
  {
    var n := |a| / 8;
    forall m | i <= m < n ensures NextTells(s, start, a, b, m) { StepsTell(s, start, a, b, m); }
    forall m | i < m < n ensures SameWord(a, b, m) { WordSame(a, b, m); }
    FoldedSame(s, start, a, b, i);
    FoldedTells(s, start, a, b, i, n);
  }

  /** Damage confined to one aligned word shows. */
  lemma {:induction false} WordDamageShowsBy(s: Scheme, start: Word, a: seq<Byte>, b: seq<Byte>, i: nat)
    requires Tells(s) && SameButWord(a, b, i)
    ensures TotalBy(s, start, a) == TotalBy(s, start, b) <==> a == b
  {
    var n := |a| / 8;
    assert Rest(a) == Rest(b);
    WordsTell(s, start, a, b, i);
    WordAtTells(a, b, i);
    if a[8 * i..8 * i + 8] == b[8 * i..8 * i + 8] {
      forall p | 0 <= p < |a| ensures a[p] == b[p] {
        if 8 * i <= p < 8 * i + 8 { assert a[8 * i..8 * i + 8][p - 8 * i] == b[8 * i..8 * i + 8][p - 8 * i]; }
      }
    }
  }

  lemma {:induction false} SameByParts(a: seq<Byte>, b: seq<Byte>, n: nat)
    requires |a| == |b| && n <= |a| && forall p :: 0 <= p < n ==> a[p] == b[p]
    ensures a == b <==> a[n..] == b[n..]
  {
    assert a[..n] == b[..n];
    assert a == a[..n] + a[n..] && b == b[..n] + b[n..];
  }

  /** Damage confined to the bytes after the last whole word shows. */
  lemma {:induction false} TailDamageShowsBy(s: Scheme, start: Word, a: seq<Byte>, b: seq<Byte>)
    requires Tells(s) && SameButTail(a, b)
    ensures TotalBy(s, start, a) == TotalBy(s, start, b) <==> a == b
  {
    FoldedSame(s, start, a, b, |a| / 8);
    SameByParts(a, b, 8 * (|a| / 8));
  }

  // ---------- The string hash ----------

  /** A byte shifted left by 8 * i. */
  function Placed(b: Byte, i: nat): (r: Word)
    requires i < 8
    ensures forall k :: 0 <= k < 64 ==> r[k] == (8 * i <= k < 8 * i + 8 && b[k - 8 * i])
  {
    seq(64, k requires 0 <= k < 64 => 8 * i <= k < 8 * i + 8 && b[k - 8 * i])
  }

  /** The bytes from `i` on, each at its place. */
  function Scatter(tail: Tail, i: nat, h: Word): Word
    requires i <= |tail|
    decreases |tail| - i
  {
    if i == |tail| then h else Xor(Scatter(tail, i + 1, h), Placed(tail[i], i))
  }

  function Stir(w: Word): Word {
    Scale(XorShift(Scale(w)))
  }

  function Absorb(h: Word, w: Word): Word {
    Scale(Xor(h, Stir(w)))
  }

  function Settle(h: Word): Word {
    XorShift(Scale(XorShift(h)))
  }

  function CloseHash(h: Word, tail: Tail): Word {
    Settle(if tail == [] then h else Scale(Scatter(tail, 0, h)))
  }

  /** The string hash: how it takes a word, and how it ends. */
  function HashScheme(): Scheme {
    Scheme((h, w) => Absorb(h, w), (h, tail) => CloseHash(h, tail))
  }

  /** What the string hash starts from, given its seed. */
  function Start(seed: Word, length: nat): Word {
    Xor(seed, ToWord(length * 0xc6a4a7935bd1e995 % SIZE))
  }

  function RemainderFrom(seed: Word, bytes: seq<Byte>): Word {
    TotalBy(HashScheme(), Start(seed, |bytes|), bytes)
  }

  lemma {:induction false} AbsorbTells(f: Word, g: Word, x: Word, y: Word)
    requires f == g || x == y
    ensures Absorb(f, x) == Absorb(g, y) <==> f == g && x == y
  {
    ScaleTells(Xor(f, Stir(x)), Xor(g, Stir(y)));
    ScaleTells(x, y);
    XorShiftTells(Scale(x), Scale(y));
    ScaleTells(XorShift(Scale(x)), XorShift(Scale(y)));
    if f == g { XorTells(f, Stir(x), Stir(y)); } else { XorTells(Stir(x), f, g); }
  }

  lemma {:induction false} SettleTells(a: Word, b: Word)
    ensures Settle(a) == Settle(b) <==> a == b
  {
    XorShiftTells(a, b);
    ScaleTells(XorShift(a), XorShift(b));
    XorShiftTells(Scale(XorShift(a)), Scale(XorShift(b)));
  }

  /** The bits of the bytes below stay those of the start. */
  lemma {:induction false} ScatterBelow(tail: Tail, i: nat, h: Word, k: nat)
    requires i <= |tail| && k < 8 * i && k < 64
    ensures Scatter(tail, i, h)[k] == h[k]
    decreases |tail| - i
  {
    if i < |tail| { ScatterBelow(tail, i + 1, h, k); }
  }

  lemma {:induction false} ScatterHolds(tail: Tail, i: nat, h: Word, j: nat, k: nat)
    requires i <= j < |tail| && k < 8
    ensures Scatter(tail, i, h)[8 * j + k] == (h[8 * j + k] != tail[j][k])
    decreases |tail| - i
  {
    if i < j { ScatterHolds(tail, i + 1, h, j, k); } else { ScatterBelow(tail, i + 1, h, 8 * j + k); }
  }

  lemma {:induction false} ScatterTells(a: Tail, b: Tail, h: Word)
    requires |a| == |b|
    ensures Scatter(a, 0, h) == Scatter(b, 0, h) <==> a == b
  {
    if Scatter(a, 0, h) == Scatter(b, 0, h) {
      forall j | 0 <= j < |a| ensures a[j] == b[j] {
        forall k | 0 <= k < 8 ensures a[j][k] == b[j][k] {
          ScatterHolds(a, 0, h, j, k);
          ScatterHolds(b, 0, h, j, k);
        }
      }
    }
  }

  lemma {:induction false} ScatterStartTells(tail: Tail, i: nat, f: Word, g: Word)
    requires i <= |tail|
    ensures Scatter(tail, i, f) == Scatter(tail, i, g) <==> f == g
    decreases |tail| - i
  {
    if i < |tail| {
      ScatterStartTells(tail, i + 1, f, g);
      XorTells(Placed(tail[i], i), Scatter(tail, i + 1, f), Scatter(tail, i + 1, g));
    }
  }

  lemma {:induction false} CloseTells(f: Word, g: Word, x: Tail, y: Tail)
    requires |x| == |y| && (f == g || x == y)
    ensures CloseHash(f, x) == CloseHash(g, y) <==> f == g && x == y
  {
    if x == [] {
      SettleTells(f, g);
    } else {
      SettleTells(Scale(Scatter(x, 0, f)), Scale(Scatter(y, 0, g)));
      ScaleTells(Scatter(x, 0, f), Scatter(y, 0, g));
      if f == g { ScatterTells(x, y, f); } else { ScatterStartTells(x, 0, f, g); }
    }
  }

  lemma {:induction false} HashTells()
    ensures Tells(HashScheme())
  {
    var s := HashScheme();
    forall f, g, x, y | (f == g || x == y) && s.step(f, x) == s.step(g, y) ensures f == g && x == y { AbsorbTells(f, g, x, y); }
    forall f, g, x, y | |x| == |y| && (f == g || x == y) && s.close(f, x) == s.close(g, y) ensures f == g && x == y {
      CloseTells(f, g, x, y);
    }
  }

  /** The string hash, at every length, tells apart what differs after the last whole word only. */
  lemma {:induction false} RemainderTells(seed: Word, a: seq<Byte>, b: seq<Byte>)
    requires SameButTail(a, b)
    ensures RemainderFrom(seed, a) == RemainderFrom(seed, b) <==> a == b
  {
    HashTells();
    TailDamageShowsBy(HashScheme(), Start(seed, |a|), a, b);
  }

  /** And what differs in one aligned word only. */
  lemma {:induction false} RemainderTellsWords(seed: Word, a: seq<Byte>, b: seq<Byte>, i: nat)
    requires SameButWord(a, b, i)
    ensures RemainderFrom(seed, a) == RemainderFrom(seed, b) <==> a == b
  {
    HashTells();
    WordDamageShowsBy(HashScheme(), Start(seed, |a|), a, b, i);
  }

  method ScatterTail(tail: Tail, start: Word) returns (h: Word)
    ensures h == Scatter(tail, 0, start)
  {
    h := start;
    var i: nat := |tail|;
    while i > 0
      invariant i <= |tail| && h == Scatter(tail, i, start)
    {
      i := i - 1;
      h := Xor(h, Placed(tail[i], i));
    }
  }

  method AbsorbWord(h: Word, word: Word) returns (r: Word)
    ensures r == Absorb(h, word)
  {
    var k := Scale(word);
    k := XorShift(k);
    k := Scale(k);
    r := Xor(h, k);
    r := Scale(r);
  }

  method AbsorbWords(start: Word, bytes: seq<Byte>, ghost s: Scheme) returns (h: Word)
    requires forall h, w :: s.step(h, w) == Absorb(h, w)
    ensures h == Folded(s, start, bytes, |bytes| / 8)
  {
    h := start;
    for i := 0 to |bytes| / 8
      invariant h == Folded(s, start, bytes, i)
    {
      var word := WordAt(bytes, i);
      FoldedNext(s, start, bytes, i, word);
      h := AbsorbWord(h, word);
    }
  }

  /** `checksumRemainder`: the words, the fall-through over the bytes after them, and the rounds at the end. */
  method ChecksumRemainder(seed: Word, bytes: seq<Byte>) returns (h: Word)
    ensures h == RemainderFrom(seed, bytes)
  {
    h := AbsorbWords(Start(seed, |bytes|), bytes, HashScheme());
    var tail := Rest(bytes);
    ghost var folded := h;
    if tail != [] {
      h := ScatterTail(tail, h);
      h := Scale(h);
    }
    var shifted := XorShift(h);
    h := XorShift(Scale(shifted));
    assert h == CloseHash(folded, tail);
  }

  // ---------- The buffer ----------

  function CloseBuffer(seed: Word, result: Word, tail: Tail): Word {
    if tail == [] then result else Xor(result, RemainderFrom(seed, tail))
  }

  function BufferScheme(seed: Word): Scheme {
    Scheme((result, w) => Xor(result, Mix(w)), (result, tail) => CloseBuffer(seed, result, tail))
  }

  /** The checksum, with the constants of the source. */
  function Total(buffer: seq<Byte>): Word {
    TotalBy(BufferScheme(ToWord(0xe17a1465)), ToWord(5381), buffer)
  }

  method FoldWords(seed: Word, start: Word, buffer: seq<Byte>) returns (result: Word)
    ensures result == Folded(BufferScheme(seed), start, buffer, |buffer| / 8)
  {
    result := start;
    for i := 0 to |buffer| / 8
      invariant result == Folded(BufferScheme(seed), start, buffer, i)
    {
      var word := WordAt(buffer, i);
      FoldedNext(BufferScheme(seed), start, buffer, i, word);
      result := Xor(result, Mix(word));
    }
  }

  method ChecksumFrom(seed: Word, start: Word, buffer: seq<Byte>) returns (result: Word)
    ensures result == TotalBy(BufferScheme(seed), start, buffer)
  {
    result := FoldWords(seed, start, buffer);
    var i := |buffer| / 8;
    if |buffer| - i * 8 > 0 {
      var rest := ChecksumRemainder(seed, Rest(buffer));
      result := Xor(result, rest);
    }
  }

  /** `checksum` of a buffer. */
  method ChecksumBuffer(buffer: seq<Byte>) returns (result: Word)
    ensures result == Total(buffer)
  {
    result := ChecksumFrom(ToWord(0xe17a1465), ToWord(5381), buffer);
  }

  // ---------- Damage ----------

  lemma {:induction false} MixStepTells(f: Word, g: Word, x: Word, y: Word)
    requires f == g || x == y
    ensures Xor(f, Mix(x)) == Xor(g, Mix(y)) <==> f == g && x == y
  {
    MixTells(x, y);
    if f == g { XorTells(f, Mix(x), Mix(y)); } else { XorTells(Mix(x), f, g); }
  }

  lemma {:induction false} CloseBufferTells(seed: Word, f: Word, g: Word, x: Tail, y: Tail)
    requires |x| == |y| && (f == g || x == y)
    ensures CloseBuffer(seed, f, x) == CloseBuffer(seed, g, y) <==> f == g && x == y
  {
    if x != [] {
      RemainderTells(seed, x, y);
      if f == g { XorTells(f, RemainderFrom(seed, x), RemainderFrom(seed, y)); } else { XorTells(RemainderFrom(seed, x), f, g); }
    }
  }

  lemma {:induction false} BufferTells(seed: Word)
    ensures Tells(BufferScheme(seed))
  {
    var s := BufferScheme(seed);
    forall f, g, x, y | (f == g || x == y) && s.step(f, x) == s.step(g, y) ensures f == g && x == y { MixStepTells(f, g, x, y); }
    forall f, g, x, y | |x| == |y| && (f == g || x == y) && s.close(f, x) == s.close(g, y) ensures f == g && x == y {
      CloseBufferTells(seed, f, g, x, y);
    }
  }

  /** Damage confined to one aligned word always changes the checksum. */
  lemma {:induction false} WordDamageShows(a: seq<Byte>, b: seq<Byte>, i: nat)
    requires SameButWord(a, b, i)
    ensures Total(a) == Total(b) <==> a == b
  {
    var seed := ToWord(0xe17a1465);
    BufferTells(seed);
    WordDamageShowsBy(BufferScheme(seed), ToWord(5381), a, b, i);
  }

  /** Damage confined to the bytes after the last whole word always changes the checksum. */
  lemma {:induction false} TailDamageShows(a: seq<Byte>, b: seq<Byte>)
    requires SameButTail(a, b)
    ensures Total(a) == Total(b) <==> a == b
  {
    var seed := ToWord(0xe17a1465);
    BufferTells(seed);
    TailDamageShowsBy(BufferScheme(seed), ToWord(5381), a, b);
  }

  // ---------- What it does not tell ----------

  /** The whole words of a buffer. */
  function WordsIn(bytes: seq<Byte>): (r: seq<Word>)
    ensures |r| == |bytes| / 8
  {
    seq(|bytes| / 8, i requires 0 <= i < |bytes| / 8 => WordAt(bytes, i))
  }

  /** Words, mixed and taken together. */
  function Mixed(words: seq<Word>): Word {
    if words == [] then ToWord(0) else Xor(Mixed(words[..|words| - 1]), Mix(words[|words| - 1]))
  }

  lemma {:induction false} XorLaws(a: Word, b: Word, c: Word)
    ensures Xor(a, b) == Xor(b, a) && Xor(Xor(a, b), c) == Xor(a, Xor(b, c)) && Xor(a, ToWord(0)) == a
  {
    assert Xor(Xor(a, b), c) == Xor(a, Xor(b, c));
    ZeroBits(64);
  }

  lemma {:induction false} ZeroBits(n: nat)
    ensures forall k :: 0 <= k < n ==> !Bits(0, n)[k]
  {
    if n > 0 { ZeroBits(n - 1); }
  }

  lemma {:induction false} FoldedIsMixed(seed: Word, start: Word, bytes: seq<Byte>, n: nat)
    requires n <= |bytes| / 8
    ensures Folded(BufferScheme(seed), start, bytes, n) == Xor(start, Mixed(WordsIn(bytes)[..n]))
  {
    var words := WordsIn(bytes);
    if n == 0 {
      XorLaws(start, start, start);
    } else {
      FoldedIsMixed(seed, start, bytes, n - 1);
      assert words[..n][..n - 1] == words[..n - 1];
      XorLaws(start, Mixed(words[..n - 1]), Mix(words[n - 1]));
    }
  }

  lemma {:induction false} TotalIsMixed(bytes: seq<Byte>)
    ensures Total(bytes) == CloseBuffer(ToWord(0xe17a1465), Xor(ToWord(5381), Mixed(WordsIn(bytes))), Rest(bytes))
  {
    FoldedIsMixed(ToWord(0xe17a1465), ToWord(5381), bytes, |bytes| / 8);
    assert WordsIn(bytes)[..|bytes| / 8] == WordsIn(bytes);
  }

  /** Buffers with the same tail have the same checksum exactly when their mixed words are the same taken together. */
  lemma {:induction false} SameChecksumExactly(a: seq<Byte>, b: seq<Byte>)
    requires Rest(a) == Rest(b)
    ensures Total(a) == Total(b) <==> Mixed(WordsIn(a)) == Mixed(WordsIn(b))
  {
    var start, x, y := ToWord(5381), Mixed(WordsIn(a)), Mixed(WordsIn(b));
    TotalIsMixed(a);
    TotalIsMixed(b);
    XorTells(start, x, y);
    CloseBufferTells(ToWord(0xe17a1465), Xor(start, x), Xor(start, y), Rest(a), Rest(b));
  }

  lemma {:induction false} MixedLast(words: seq<Word>, w: Word, all: seq<Word>)
    requires all == words + [w]
    ensures Mixed(all) == Xor(Mixed(words), Mix(w))
  {
    assert all[..|all| - 1] == words;
  }

  lemma {:induction false} Regroup(x: Word, y: Word, z: Word, all: Word, rest: Word)
    requires all == Xor(Xor(x, y), z) && rest == Xor(y, z)
    ensures all == Xor(x, rest)
  {
    XorLaws(x, y, z);
  }

  ghost predicate Joins(a: seq<Word>, b: seq<Word>) {
    Mixed(a + b) == Xor(Mixed(a), Mixed(b))
  }

  lemma {:induction false} MixedStep(a: seq<Word>, b: seq<Word>, fewer: seq<Word>, last: Word)
    requires b == fewer + [last]
    ensures Joins(a, fewer) ==> Joins(a, b)
  {
    var all := a + b;
    assert all == (a + fewer) + [last];
    MixedLast(a + fewer, last, all);
    MixedLast(fewer, last, b);
    if Joins(a, fewer) { Regroup(Mixed(a), Mixed(fewer), Mix(last), Mixed(all), Mixed(b)); }
  }

  lemma {:induction false} MixedNone(a: seq<Word>, b: seq<Word>)
    requires b == []
    ensures Joins(a, b)
  {
    var x := Mixed(a);
    assert a + b == a;
    XorLaws(x, x, x);
  }

  lemma {:induction false} MixedParts(a: seq<Word>, b: seq<Word>)
    ensures Joins(a, b)
    decreases |b|
  {
    if b == [] {
      MixedNone(a, b);
    } else {
      MixedParts(a, b[..|b| - 1]);
      MixedStep(a, b, b[..|b| - 1], b[|b| - 1]);
    }
  }

  lemma {:induction false} WordKept(a: seq<Byte>, b: seq<Byte>, i: nat)
    requires 8 * i + 8 <= |a|
    ensures WordAt(a + b, i) == WordAt(a, i)
  {
  }

  lemma {:induction false} WordMoved(a: seq<Byte>, b: seq<Byte>, n: nat, i: nat)
    requires |a| == 8 * n && 8 * i + 8 <= |b|
    ensures WordAt(a + b, n + i) == WordAt(b, i)
  {
    var w, v := WordAt(a + b, n + i), WordAt(b, i);
    forall k | 0 <= k < 64 ensures w[k] == v[k] { assert (a + b)[8 * n + (8 * i + k / 8)] == b[8 * i + k / 8]; }
  }

  lemma {:induction false} WordsParts(a: seq<Byte>, b: seq<Byte>, n: nat)
    requires |a| == 8 * n
    ensures WordsIn(a + b) == WordsIn(a) + WordsIn(b) && Rest(a + b) == Rest(b)
  {
    var m := |b| / 8;
    assert |a + b| / 8 == n + m;
    forall i | 0 <= i < n + m ensures WordsIn(a + b)[i] == (WordsIn(a) + WordsIn(b))[i] {
      if i < n { WordKept(a, b, i); } else { WordMoved(a, b, n, i - n); }
    }
    assert (a + b)[8 * (n + m)..] == b[8 * m..];
  }

  lemma {:induction false} MixedBlocks(a: seq<Byte>, b: seq<Byte>, tail: seq<Byte>, n: nat, m: nat)
    requires |a| == 8 * n && |b| == 8 * m
    ensures Rest(a + (b + tail)) == Rest(tail) && Mixed(WordsIn(a + (b + tail))) == Xor(Mixed(WordsIn(a)), Xor(Mixed(WordsIn(b)), Mixed(WordsIn(tail))))
  {
    WordsParts(a, b + tail, n);
    WordsParts(b, tail, m);
    MixedParts(WordsIn(a), WordsIn(b + tail));
    MixedParts(WordsIn(b), WordsIn(tail));
  }

  /** Two runs of whole words that change places go unseen, whatever follows them. */
  lemma {:induction false} ExchangeUnseen(a: seq<Byte>, b: seq<Byte>, tail: seq<Byte>)
    requires |a| % 8 == 0 && |b| % 8 == 0
    ensures Total(a + (b + tail)) == Total(b + (a + tail))
  {
    var x, y, z := Mixed(WordsIn(a)), Mixed(WordsIn(b)), Mixed(WordsIn(tail));
    MixedBlocks(a, b, tail, |a| / 8, |b| / 8);
    MixedBlocks(b, a, tail, |b| / 8, |a| / 8);
    XorLaws(x, y, z);
    XorLaws(y, x, z);
    SameChecksumExactly(a + (b + tail), b + (a + tail));
  }
}
