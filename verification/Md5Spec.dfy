/**
 The MD5 message digest of sections 3.1 to 3.5 of RFC 1321, over any compression function: padding, the
 64-bit length, the words of a block and the fold over the blocks.
 */
module Md5Spec {

  import opened Basics

  type Word = w: nat | w < 0x1_0000_0000

  datatype State = State(a: Word, b: Word, c: Word, d: Word)

  /** What `MD5Transform` does to the state with the sixteen words of a block. */
  type Compress = (State, seq<Word>) -> State

  const INITIAL := State(0x67452301, 0xefcdab89, 0x98badcfe, 0x10325476)

  const BLOCK: nat := 64

  // ---------- Words and bytes, low byte first ----------

  function WordOf(b0: Byte, b1: Byte, b2: Byte, b3: Byte): Word {
    b0 + 0x100 * b1 + 0x1_0000 * b2 + 0x100_0000 * b3
  }

  function BytesOf(w: Word): (s: seq<Byte>)
    ensures |s| == 4
  {
    var w1 := w / 0x100;
    var w2 := w1 / 0x100;
    [w % 0x100, w1 % 0x100, w2 % 0x100, w2 / 0x100]
  }

  lemma {:induction false} WordOfBytes(w: Word)
    ensures var s := BytesOf(w); WordOf(s[0], s[1], s[2], s[3]) == w
  {
    var w1 := w / 0x100;
    var w2 := w1 / 0x100;
    assert w == w % 0x100 + 0x100 * w1 && w1 == w1 % 0x100 + 0x100 * w2 && w2 == w2 % 0x100 + 0x100 * (w2 / 0x100);
  }

  function Words(bytes: seq<Byte>): (r: seq<Word>)
    requires |bytes| % 4 == 0
    ensures |r| == |bytes| / 4
  {
    seq(|bytes| / 4, k requires 0 <= k < |bytes| / 4 => WordAt(bytes, k))
  }

  function WordAt(bytes: seq<Byte>, k: nat): Word
    requires 4 * k + 4 <= |bytes|
  {
    WordOf(bytes[4 * k], bytes[4 * k + 1], bytes[4 * k + 2], bytes[4 * k + 3])
  }

  lemma {:induction false} WordsOfParts(a: seq<Byte>, b: seq<Byte>)
    requires |a| % 4 == 0 && |b| % 4 == 0
    ensures Words(a + b) == Words(a) + Words(b)
  {
    var n := |a| / 4;
    assert 4 * n == |a|;
    forall k | 0 <= k < (|a| + |b|) / 4 ensures Words(a + b)[k] == (Words(a) + Words(b))[k] {
      assert k < n || WordAt(a + b, k) == WordAt(b, k - n);
    }
  }

  lemma {:induction false} WordsOfBytesOf(w: Word)
    ensures Words(BytesOf(w)) == [w]
  {
    WordOfBytes(w);
    assert WordAt(BytesOf(w), 0) == w;
  }

  // ---------- Padding ----------

  /** Section 3.2: the length in bits modulo 2^64, low-order word first. */
  function LengthBytes(bits: nat): (s: seq<Byte>)
    ensures |s| == 8
  {
    BytesOf(bits % 0x1_0000_0000) + BytesOf(bits / 0x1_0000_0000 % 0x1_0000_0000)
  }

  /** Section 3.1: how many zero bytes follow the one bit's byte, up to 56 bytes modulo 64. */
  function Fill(n: nat): nat {
    (119 - n % 64) % 64
  }

  function Padding(n: nat): seq<Byte> {
    [0x80] + Zeros(Fill(n))
  }

  function Padded(message: seq<Byte>): seq<Byte> {
    message + Padding(|message|) + LengthBytes(8 * |message|)
  }

  /** The padded message is whole blocks: the message, a one bit, zeros, and the length in bits in the last eight bytes,
      low byte first, with the least padding that does it. */
  lemma {:induction false} PaddedIsWhole(message: seq<Byte>)
    ensures var p, n := Padded(message), |message|;
            && |p| % 64 == 0 && 9 <= |p| - n <= 72 && p[..n] == message && p[n] == 0x80
            && (forall i :: n < i < |p| - 8 ==> p[i] == 0)
            && Weight(p[|p| - 8..]) == 8 * n % 0x1_0000_0000_0000_0000
  {
    LengthWeighs(8 * |message|);
    assert Padded(message)[|Padded(message)| - 8..] == LengthBytes(8 * |message|);
    FillEnds(|message|, |message| / 64, |message| % 64);
    assert |Padded(message)| == |message| + 1 + Fill(|message|) + 8;
  }

  lemma {:induction false} FillEnds(n: nat, q: nat, r: nat)
    requires n == 64 * q + r && r < 64 && n % 64 == r
    ensures (n + 9 + Fill(n)) % 64 == 0 && Fill(n) < 64
  {
    if r < 56 {
      assert Fill(n) == 55 - r && n + 9 + Fill(n) == 64 * (q + 1);
    } else {
      assert Fill(n) == 119 - r && n + 9 + Fill(n) == 64 * (q + 2);
    }
  }

  // ---------- Blocks ----------

  /** The state after the whole blocks of a string of bytes. */
  function Fold(compress: Compress, state: State, bytes: seq<Byte>): State
    decreases |bytes|
  {
    if |bytes| < BLOCK then state else Fold(compress, compress(state, Words(bytes[..64])), bytes[64..])
  }

  lemma {:induction false} FoldParts(compress: Compress, state: State, a: seq<Byte>, b: seq<Byte>)
    requires |a| % BLOCK == 0
    ensures Fold(compress, state, a + b) == Fold(compress, Fold(compress, state, a), b)
    decreases |a|
  {
    if a == [] {
      assert a + b == b;
    } else {
      FoldParts(compress, compress(state, Words(a[..64])), a[64..], b);
      assert (a + b)[..64] == a[..64] && (a + b)[64..] == a[64..] + b;
    }
  }

  lemma {:induction false} FoldBlock(compress: Compress, state: State, block: seq<Byte>)
    requires |block| == BLOCK
    ensures Fold(compress, state, block) == compress(state, Words(block))
  {
    assert block[..64] == block && block[64..] == [];
  }

  function StateBytes(s: State): (r: seq<Byte>)
    ensures |r| == 16
  {
    BytesOf(s.a) + BytesOf(s.b) + BytesOf(s.c) + BytesOf(s.d)
  }

  function Digest(compress: Compress, message: seq<Byte>): (r: seq<Byte>)
    ensures |r| == 16
  {
    StateBytes(Fold(compress, INITIAL, Padded(message)))
  }

  const DIGITS: string := "0123456789abcdef"

  function Hex(d: nat): char
    requires d < 16
  {
    DIGITS[d]
  }

  /** The two hexadecimal digits of a byte, high digit first. */
  function HexByte(b: Byte): string {
    [Hex(b / 16), Hex(b % 16)]
  }

  function Base16(bytes: seq<Byte>): string {
    if bytes == [] then "" else HexByte(bytes[0]) + Base16(bytes[1..])
  }

  /** Two digits stand for a byte: sixteen times the place of the first and the place of the second. */
  ghost predicate SpellsByte(high: char, low: char, b: Byte) {
    exists h, l :: 0 <= h < 16 && 0 <= l < 16 && DIGITS[h] == high && DIGITS[l] == low && 16 * h + l == b
  }

  /** The text spells the bytes, two digits for each, in order. */
  ghost predicate Spells(text: string, bytes: seq<Byte>) {
    |text| == 2 * |bytes| && forall i :: 0 <= i < |bytes| ==> SpellsByte(text[2 * i], text[2 * i + 1], bytes[i])
  }

  lemma {:induction false} HexByteSpells(b: Byte)
    ensures |HexByte(b)| == 2 && SpellsByte(HexByte(b)[0], HexByte(b)[1], b)
  {
    var h, l := b / 16, b % 16;
    assert DIGITS[h] == HexByte(b)[0] && DIGITS[l] == HexByte(b)[1] && 16 * h + l == b;
  }

  lemma {:induction false} Base16Spells(bytes: seq<Byte>)
    ensures Spells(Base16(bytes), bytes)
    decreases |bytes|
  {
    if bytes != [] {
      Base16Spells(bytes[1..]);
      HexByteSpells(bytes[0]);
      var text, rest := Base16(bytes), Base16(bytes[1..]);
      forall i | 0 <= i < |bytes| ensures SpellsByte(text[2 * i], text[2 * i + 1], bytes[i]) {
        assert i > 0 ==> text[2 * i] == rest[2 * (i - 1)] && text[2 * i + 1] == rest[2 * (i - 1) + 1] && bytes[i] == bytes[1..][i - 1];
      }
    }
  }

  // ---------- The order of the bytes ----------

  /** The number whose digits to the base 256 are the bytes, the first one weighing least. */
  function Weight(bytes: seq<Byte>): nat {
    if bytes == [] then 0 else bytes[0] + 0x100 * Weight(bytes[1..])
  }

  lemma {:induction false} WeightOfFour(bytes: seq<Byte>)
    requires |bytes| == 4
    ensures Weight(bytes) == WordOf(bytes[0], bytes[1], bytes[2], bytes[3])
  {
    assert Weight(bytes[1..]) == bytes[1] + 0x100 * Weight(bytes[2..]) by { assert bytes[1..][1..] == bytes[2..]; }
    assert Weight(bytes[2..]) == bytes[2] + 0x100 * Weight(bytes[3..]) by { assert bytes[2..][1..] == bytes[3..]; }
    assert Weight(bytes[3..]) == bytes[3] + 0x100 * Weight(bytes[4..]) by { assert bytes[3..][1..] == bytes[4..]; }
  }

  /** Each word of a block weighs its four bytes, low byte first. */
  lemma {:induction false} WordsWeigh(bytes: seq<Byte>, k: nat)
    requires |bytes| % 4 == 0 && k < |bytes| / 4
    ensures Words(bytes)[k] == Weight(bytes[4 * k..4 * k + 4])
  {
    WeightOfFour(bytes[4 * k..4 * k + 4]);
  }

  lemma {:induction false} BytesWeigh(w: Word)
    ensures Weight(BytesOf(w)) == w
  {
    WordOfBytes(w);
    WeightOfFour(BytesOf(w));
  }

  /** The digest is the four words of the state, in order, low byte first. */
  lemma {:induction false} StateWeighs(s: State)
    ensures var r := StateBytes(s);
            Weight(r[..4]) == s.a && Weight(r[4..8]) == s.b && Weight(r[8..12]) == s.c && Weight(r[12..]) == s.d
  {
    var r := StateBytes(s);
    assert r[..4] == BytesOf(s.a) && r[4..8] == BytesOf(s.b) && r[8..12] == BytesOf(s.c) && r[12..] == BytesOf(s.d);
    BytesWeigh(s.a);
    BytesWeigh(s.b);
    BytesWeigh(s.c);
    BytesWeigh(s.d);
  }

  /** Section 3.3: the bytes the digest starts from, as the text lists them. */
  lemma {:induction false} StartsAsListed()
    ensures StateBytes(INITIAL) ==
              [0x01, 0x23, 0x45, 0x67, 0x89, 0xab, 0xcd, 0xef, 0xfe, 0xdc, 0xba, 0x98, 0x76, 0x54, 0x32, 0x10]
  {
    assert BytesOf(0x67452301) == [0x01, 0x23, 0x45, 0x67] && BytesOf(0xefcdab89) == [0x89, 0xab, 0xcd, 0xef];
    assert BytesOf(0x98badcfe) == [0xfe, 0xdc, 0xba, 0x98] && BytesOf(0x10325476) == [0x76, 0x54, 0x32, 0x10];
  }

  lemma {:induction false} WeightOfTwo(a: seq<Byte>, b: seq<Byte>)
    requires |a| == 4
    ensures Weight(a + b) == Weight(a) + 0x1_0000_0000 * Weight(b)
  {
    var s := a + b;
    assert s[1..][1..] == s[2..] && s[2..][1..] == s[3..] && s[3..][1..] == s[4..] == b;
    assert Weight(s) == s[0] + 0x100 * Weight(s[1..]) && Weight(s[1..]) == s[1] + 0x100 * Weight(s[2..]);
    assert Weight(s[2..]) == s[2] + 0x100 * Weight(s[3..]) && Weight(s[3..]) == s[3] + 0x100 * Weight(b);
    WeightOfFour(a);
  }

  lemma {:induction false} LengthWeighs(bits: nat)
    ensures Weight(LengthBytes(bits)) == bits % 0x1_0000_0000_0000_0000
  {
    var low, high := bits % 0x1_0000_0000, bits / 0x1_0000_0000 % 0x1_0000_0000;
    WeightOfTwo(BytesOf(low), BytesOf(high));
    BytesWeigh(low);
    BytesWeigh(high);
    var q := bits / 0x1_0000_0000 / 0x1_0000_0000;
    assert bits == low + 0x1_0000_0000 * (high + 0x1_0000_0000 * q);
    Remainder(bits, q, low + 0x1_0000_0000 * high);
  }

  // ---------- The counter ----------

  /** The bit counter as the two words keep it. */
  ghost predicate Counts(low: Word, high: Word, n: nat) {
    low + 0x1_0000_0000 * high == 8 * n % 0x1_0000_0000_0000_0000
  }

  lemma {:induction false} Carries(low: Word, x: Word, newLow: Word)
    requires newLow == (low + x) % 0x1_0000_0000
    ensures low + x == newLow + if newLow < low then 0x1_0000_0000 else 0
  {
  }

  lemma {:induction false} TimesEight(len: nat)
    ensures 8 * len == 8 * len % 0x1_0000_0000 + 0x1_0000_0000 * (len / 0x2000_0000)
  {
  }

  lemma {:induction false} HighWraps(high: Word, carry: nat, x: nat, newHigh: Word) returns (j: int)
    requires newHigh == ((high + carry) % 0x1_0000_0000 + x) % 0x1_0000_0000
    ensures high + carry + x == newHigh + 0x1_0000_0000 * j
  {
    var h := (high + carry) % 0x1_0000_0000;
    j := (high + carry) / 0x1_0000_0000 + (h + x) / 0x1_0000_0000;
  }

  lemma {:induction false} Remainder(x: nat, q: int, r: nat)
    requires x == r + 0x1_0000_0000_0000_0000 * q && r < 0x1_0000_0000_0000_0000
    ensures x % 0x1_0000_0000_0000_0000 == r
  {
  }

  /** `MD5Update`'s carry arithmetic adds eight times the length. */
  lemma {:induction false} CounterAdds(low: Word, high: Word, n: nat, len: nat, newLow: Word, newHigh: Word)
    requires Counts(low, high, n) && len < 0x1_0000_0000
    requires newLow == (low + 8 * len % 0x1_0000_0000) % 0x1_0000_0000
    requires newHigh == ((high + if newLow < low then 1 else 0) % 0x1_0000_0000 + len / 0x2000_0000) % 0x1_0000_0000
    ensures Counts(newLow, newHigh, n + len)
  {
    var k, x := len / 0x2000_0000, 8 * len % 0x1_0000_0000;
    TimesEight(len);
    Carries(low, x, newLow);
    var carry := if newLow < low then 1 else 0;
    var j := HighWraps(high, carry, k, newHigh);
    var q, total := 8 * n / 0x1_0000_0000_0000_0000, 8 * (n + len);
    Sum(low, high, 8 * n, q, x, k, carry, newLow, newHigh, j, total);
    Remainder(total, q + j, newLow + 0x1_0000_0000 * newHigh);
  }

  lemma {:induction false} Sum(low: nat, high: nat, bits: int, q: int, x: nat, k: nat, carry: nat, newLow: nat, newHigh: nat, j: int, total: int)
    requires low + 0x1_0000_0000 * high == bits - 0x1_0000_0000_0000_0000 * q
    requires low + x == newLow + 0x1_0000_0000 * carry
    requires high + carry + k == newHigh + 0x1_0000_0000 * j
    requires total == bits + x + 0x1_0000_0000 * k
    ensures total == newLow + 0x1_0000_0000 * newHigh + 0x1_0000_0000_0000_0000 * (q + j)
  {
  }

  /** The bytes waiting in the buffer are the length modulo 64. */
  lemma {:induction false} Waiting(low: Word, high: Word, n: nat)
    requires Counts(low, high, n)
    ensures low / 8 % 64 == n % 64
  {
    var h := high + 0x1_0000_0000 * (8 * n / 0x1_0000_0000_0000_0000);
    assert low == 8 * (n - 0x2000_0000 * h);
    SameModulo64(low / 8, n, 0x80_0000 * h);
  }

  lemma {:induction false} SameModulo64(x: int, y: int, k: int)
    requires x == y - 64 * k
    ensures x % 64 == y % 64
  {
  }
}
