/**
 Null masks: bits packed in 64-bit words, copied, set and summarised by word-wide kernels. A word is
 its 64 bits, lowest first; the mask tables are given by which bits they set.
 */
module NullMask {

  import opened Basics

  type Word = w: seq<bool> | |w| == 64 witness seq(64, _ => false)

  // ---------- Operations on words ----------

  function And(a: Word, b: Word): (r: Word)
    ensures forall k :: 0 <= k < 64 ==> r[k] == (a[k] && b[k])
  {
    seq(64, k requires 0 <= k < 64 => a[k] && b[k])
  }

  function Or(a: Word, b: Word): (r: Word)
    ensures forall k :: 0 <= k < 64 ==> r[k] == (a[k] || b[k])
  {
    seq(64, k requires 0 <= k < 64 => a[k] || b[k])
  }

  function Not(a: Word): (r: Word)
    ensures forall k :: 0 <= k < 64 ==> r[k] == !a[k]
  {
    seq(64, k requires 0 <= k < 64 => !a[k])
  }

  function ShiftLeft(a: Word, s: nat): (r: Word)
    ensures forall k :: 0 <= k < 64 ==> r[k] == (s <= k && a[k - s])
  {
    seq(64, k requires 0 <= k < 64 => s <= k && a[k - s])
  }

  function ShiftRight(a: Word, s: nat): (r: Word)
    ensures forall k :: 0 <= k < 64 ==> r[k] == (k + s < 64 && a[k + s])
  {
    seq(64, k requires 0 <= k < 64 => k + s < 64 && a[k + s])
  }

  /** `NULL_LOWER_MASKS[n]` */
  function Lower(n: nat): (r: Word)
    requires n <= 64
    ensures forall k :: 0 <= k < 64 ==> r[k] == (k < n)
  {
    seq(64, k requires 0 <= k < 64 => k < n)
  }

  /** `NULL_HIGH_MASKS[n]` */
  function High(n: nat): (r: Word)
    requires n <= 64
    ensures forall k :: 0 <= k < 64 ==> r[k] == (64 - n <= k)
  {
    seq(64, k requires 0 <= k < 64 => 64 - n <= k)
  }

  /** `NULL_BITMASKS_WITH_SINGLE_ONE[k]` */
  function Single(j: nat): (r: Word)
    requires j < 64
    ensures forall k :: 0 <= k < 64 ==> r[k] == (k == j)
  {
    seq(64, k requires 0 <= k < 64 => k == j)
  }

  predicate IsZero(a: Word) {
    forall k :: 0 <= k < 64 ==> !a[k]
  }

  // ---------- The bits of a buffer ----------

  predicate BitAt(s: seq<Word>, p: nat)
    requires p < 64 * |s|
  {
    s[p / 64][p % 64]
  }

  /** The copy, bit by bit: what `after` must hold where the range is copied, and elsewhere. */
  ghost predicate CopiesBits(before: seq<Word>, after: seq<Word>, dstOffset: nat, src: seq<Word>, srcOffset: nat, n: nat, invert: bool) {
    && |after| == |before|
    && srcOffset + n <= 64 * |src| && dstOffset + n <= 64 * |before|
    && forall p :: 0 <= p < 64 * |after| ==>
         BitAt(after, p) == if dstOffset <= p < dstOffset + n then BitAt(src, p - dstOffset + srcOffset) != invert
                            else BitAt(before, p)
  }

  /** Some bit of the range, inverted or not, is set. */
  ghost predicate SomeSet(s: seq<Word>, offset: nat, n: nat, invert: bool)
    requires offset + n <= 64 * |s|
  {
    exists p :: offset <= p < offset + n && BitAt(s, p) != invert
  }

  // ---------- One word of an unaligned copy ----------

  /** The source bits of this turn, moved to their place in the destination word, all others zero. */
  function Aligned(w: Word, srcBit: nat, dstBit: nat, count: nat): Word
    requires srcBit < 64 && dstBit < 64 && count <= 64 - srcBit && count <= 64 - dstBit
  {
    if dstBit < srcBit then And(ShiftRight(And(w, Not(High(64 - (srcBit + count)))), srcBit - dstBit), Not(Lower(dstBit)))
    else if dstBit > srcBit then And(ShiftLeft(And(w, Not(Lower(srcBit))), dstBit - srcBit), Not(High(64 - (dstBit + count))))
    else And(And(w, Not(Lower(srcBit))), Not(High(64 - (dstBit + count))))
  }

  lemma {:induction false} AlignedBits(w: Word, srcBit: nat, dstBit: nat, count: nat)
    requires srcBit < 64 && dstBit < 64 && count <= 64 - srcBit && count <= 64 - dstBit
    ensures forall k :: 0 <= k < 64 ==>
      Aligned(w, srcBit, dstBit, count)[k] == (dstBit <= k < dstBit + count && w[k - dstBit + srcBit])
  {
  }

  /** The destination word after this turn. */
  function Merged(d: Word, aligned: Word, dstBit: nat, count: nat): Word
    requires count <= 64
  {
    var cleared := And(d, Not(ShiftLeft(Lower(count), dstBit)));
    if IsZero(aligned) then cleared else Or(cleared, aligned)
  }

  lemma {:induction false} MergedBits(d: Word, w: Word, srcBit: nat, dstBit: nat, count: nat)
    requires srcBit < 64 && dstBit < 64 && count <= 64 - srcBit && count <= 64 - dstBit
    ensures forall k :: 0 <= k < 64 ==>
      Merged(d, Aligned(w, srcBit, dstBit, count), dstBit, count)[k] ==
        if dstBit <= k < dstBit + count then w[k - dstBit + srcBit] else d[k]
    ensures !IsZero(Aligned(w, srcBit, dstBit, count)) <==> exists k :: srcBit <= k < srcBit + count && w[k]
  {
    AlignedBits(w, srcBit, dstBit, count);
    var a := Aligned(w, srcBit, dstBit, count);
    if !IsZero(a) {
      var k :| 0 <= k < 64 && a[k];
      assert srcBit <= k - dstBit + srcBit < srcBit + count && w[k - dstBit + srcBit];
    }
    if k :| srcBit <= k < srcBit + count && w[k] {
      assert a[k - srcBit + dstBit];
    }
  }

  /** Where a position lies: its word and its bit. */
  lemma {:induction false} PositionIs(p: nat, e: nat, k: nat)
    requires k < 64
    ensures p == 64 * e + k <==> p / 64 == e && p % 64 == k
  {
  }

  /** The bits of a source word have replaced as many bits of a destination word. */
  ghost predicate Replaced(word: Word, d: Word, w: Word, db: nat, sb: nat, count: nat)
    requires count <= 64 - db && count <= 64 - sb && db < 64 && sb < 64
  {
    forall k :: 0 <= k < 64 ==> word[k] == if db <= k < db + count then w[k - db + sb] else d[k]
  }

  /** A word with some bits replaced, seen as a copy of bits. */
  lemma {:induction false} WordReplaced(mid: seq<Word>, e: nat, word: Word, db: nat, src: seq<Word>, f: nat, sb: nat, count: nat, w: Word, invert: bool)
    requires e < |mid| && f < |src| && db < 64 && sb < 64 && count <= 64 - db && count <= 64 - sb
    requires w == if invert then Not(src[f]) else src[f]
    requires Replaced(word, mid[e], w, db, sb, count)
    ensures CopiesBits(mid, mid[e := word], 64 * e + db, src, 64 * f + sb, count, invert)
  {
    var after, to, from := mid[e := word], 64 * e + db, 64 * f + sb;
    forall p | 0 <= p < 64 * |after|
      ensures BitAt(after, p) == if to <= p < to + count then BitAt(src, p - to + from) != invert else BitAt(mid, p)
    {
      TurnBit(mid, after, e, db, src, f, sb, count, w, invert, p);
    }
  }

  lemma {:induction false} TurnBit(mid: seq<Word>, after: seq<Word>, e: nat, db: nat, src: seq<Word>, f: nat, sb: nat,
                                   count: nat, w: Word, invert: bool, p: nat)
    requires e < |mid| && f < |src| && db < 64 && sb < 64 && count <= 64 - db && count <= 64 - sb && p < 64 * |mid|
    requires w == if invert then Not(src[f]) else src[f]
    requires |after| == |mid| && forall i :: 0 <= i < |mid| && i != e ==> after[i] == mid[i]
    requires forall k :: 0 <= k < 64 ==> after[e][k] == if db <= k < db + count then w[k - db + sb] else mid[e][k]
    ensures BitAt(after, p) == if 64 * e + db <= p < 64 * e + db + count then BitAt(src, p - (64 * e + db) + 64 * f + sb) != invert
                               else BitAt(mid, p)
  {
    var k := p % 64;
    if p / 64 == e {
      if db <= k < db + count {
        PositionIs(p - (64 * e + db) + 64 * f + sb, f, k - db + sb);
      }
    }
  }

  lemma {:induction false} TurnSome(src: seq<Word>, invert: bool, f: nat, sb: nat, count: nat, w: Word)
    requires f < |src| && sb < 64 && count <= 64 - sb && w == if invert then Not(src[f]) else src[f]
    ensures SomeSet(src, 64 * f + sb, count, invert) <==> exists k :: sb <= k < sb + count && w[k]
  {
    if SomeSet(src, 64 * f + sb, count, invert) {
      var p :| 64 * f + sb <= p < 64 * f + sb + count && BitAt(src, p) != invert;
      PositionIs(p, f, p - 64 * f);
      assert w[p - 64 * f];
    }
    if k :| sb <= k < sb + count && w[k] {
      PositionIs(64 * f + k, f, k);
      assert BitAt(src, 64 * f + k) != invert;
    }
  }

  /** The end of a turn: clear the range in the destination word, then put the bits that are set. */
  method PutWord(dst: array<Word>, e: nat, db: nat, count: nat, aligned: Word) returns (some: bool)
    requires e < dst.Length && count <= 64
    modifies dst
    ensures dst[..] == old(dst[..])[e := Merged(old(dst[e]), aligned, db, count)]
    ensures some <==> !IsZero(aligned)
  {
    dst[e] := And(dst[e], Not(ShiftLeft(Lower(count), db)));
    some := !IsZero(aligned);
    if some {
      dst[e] := Or(dst[e], aligned);
    }
  }

  /** A position that the next turn reads or writes. */
  ghost predicate Cursor(offset: nat, done: nat, n: nat, e: nat, k: nat) {
    done < n ==> k < 64 && 64 * e + k == offset + done
  }

  method PutAligned(dst: array<Word>, e: nat, db: nat, sb: nat, count: nat, w: Word) returns (some: bool)
    requires e < dst.Length && db < 64 && sb < 64 && count <= 64 - db && count <= 64 - sb
    modifies dst
    ensures dst[..] == old(dst[..])[e := dst[e]] && Replaced(dst[e], old(dst[e]), w, db, sb, count)
    ensures some <==> exists k :: sb <= k < sb + count && w[k]
  {
    MergedBits(dst[e], w, sb, db, count);
    some := PutWord(dst, e, db, count, Aligned(w, sb, db, count));
  }

  /** The bits of one source word, aligned, into one destination word. */
  method CopyWord(src: array<Word>, f: nat, sb: nat, dst: array<Word>, e: nat, db: nat, count: nat, invert: bool) returns (wrote: bool)
    requires src != dst && e < dst.Length && f < src.Length && db < 64 && sb < 64 && count <= 64 - db && count <= 64 - sb
    modifies dst
    ensures CopiesBits(old(dst[..]), dst[..], 64 * e + db, src[..], 64 * f + sb, count, invert)
    ensures wrote <==> SomeSet(src[..], 64 * f + sb, count, invert)
  {
    var w: Word := if invert then Not(src[f]) else src[f];
    wrote := PutAligned(dst, e, db, sb, count, w);
    WordReplaced(old(dst[..]), e, dst[e], db, src[..], f, sb, count, w, invert);
    TurnSome(src[..], invert, f, sb, count, w);
  }

  /** One turn carries on where the bits done so far end. */
  method Turn(src: array<Word>, f: nat, sb: nat, dst: array<Word>, e: nat, db: nat, count: nat, invert: bool,
              ghost before: seq<Word>, ghost dstOffset: nat, ghost srcOffset: nat, ghost done: nat) returns (wrote: bool)
    requires src != dst && e < dst.Length && f < src.Length && db < 64 && sb < 64 && count <= 64 - db && count <= 64 - sb
    requires CopiesBits(before, dst[..], dstOffset, src[..], srcOffset, done, invert)
    requires 64 * e + db == dstOffset + done && 64 * f + sb == srcOffset + done
    modifies dst
    ensures CopiesBits(before, dst[..], dstOffset, src[..], srcOffset, done + count, invert)
    ensures SomeSet(src[..], srcOffset, done + count, invert) <==> SomeSet(src[..], srcOffset, done, invert) || wrote
  {
    ghost var mid := dst[..];
    wrote := CopyWord(src, f, sb, dst, e, db, count, invert);
    Carries(before, mid, dst[..], dstOffset, src[..], srcOffset, done, count, invert, 64 * e + db, 64 * f + sb);
  }

  /** `copyUnaligned`: at most a word per turn, on whichever side ends first. */
  method CopyUnaligned(src: array<Word>, srcOffset: nat, dst: array<Word>, dstOffset: nat, n: nat, invert: bool)
    returns (some: bool)
    requires src != dst && srcOffset + n <= 64 * src.Length && dstOffset + n <= 64 * dst.Length
    modifies dst
    ensures CopiesBits(old(dst[..]), dst[..], dstOffset, src[..], srcOffset, n, invert)
    ensures some <==> SomeSet(src[..], srcOffset, n, invert)
  {
    var bitPos: nat := 0;
    some := false;
    var f: nat, sb: nat := srcOffset / 64, srcOffset % 64;
    var e: nat, db: nat := dstOffset / 64, dstOffset % 64;
    ghost var before, source := dst[..], src[..];
    while bitPos < n
      invariant bitPos <= n && src[..] == source && dst.Length == |before|
      invariant Cursor(srcOffset, bitPos, n, f, sb) && Cursor(dstOffset, bitPos, n, e, db)
      invariant CopiesBits(before, dst[..], dstOffset, source, srcOffset, bitPos, invert)
      invariant some <==> SomeSet(source, srcOffset, bitPos, invert)
    {
      var count := Min(64 - (if db < sb then sb else db), n - bitPos);
      var wrote := Turn(src, f, sb, dst, e, db, count, invert, before, dstOffset, srcOffset, bitPos);
      some := some || wrote;
      if db < sb {
        f, sb, db := f + 1, 0, db + count;
      } else if db > sb {
        e, db, sb := e + 1, 0, sb + count;
      } else {
        f, e, sb, db := f + 1, e + 1, 0, 0;
      }
      bitPos := bitPos + count;
    }
  }

  // ---------- Copies one after the other ----------

  lemma {:induction false} CopiesThen(a: seq<Word>, b: seq<Word>, c: seq<Word>, dstOffset: nat, src: seq<Word>, srcOffset: nat,
                                      n: nat, m: nat, invert: bool)
    requires CopiesBits(a, b, dstOffset, src, srcOffset, n, invert)
    requires CopiesBits(b, c, dstOffset + n, src, srcOffset + n, m, invert)
    ensures CopiesBits(a, c, dstOffset, src, srcOffset, n + m, invert)
  {
    forall p | 0 <= p < 64 * |c|
      ensures BitAt(c, p) == if dstOffset <= p < dstOffset + n + m then BitAt(src, p - dstOffset + srcOffset) != invert else BitAt(a, p)
    {
      assert BitAt(b, p) == if dstOffset <= p < dstOffset + n then BitAt(src, p - dstOffset + srcOffset) != invert else BitAt(a, p);
    }
  }

  lemma {:induction false} SomeThen(src: seq<Word>, offset: nat, n: nat, m: nat, invert: bool)
    requires offset + n + m <= 64 * |src|
    ensures SomeSet(src, offset, n + m, invert) <==> SomeSet(src, offset, n, invert) || SomeSet(src, offset + n, m, invert)
  {
    if SomeSet(src, offset, n + m, invert) {
      var p :| offset <= p < offset + n + m && BitAt(src, p) != invert;
      assert p < offset + n || offset + n <= p;
    }
  }

  /** One turn carries on where the bits done so far end. */
  lemma {:induction false} Carries(a: seq<Word>, b: seq<Word>, c: seq<Word>, dstOffset: nat, src: seq<Word>, srcOffset: nat,
                                   n: nat, m: nat, invert: bool, to: nat, from: nat)
    requires CopiesBits(a, b, dstOffset, src, srcOffset, n, invert) && to == dstOffset + n && from == srcOffset + n
    requires CopiesBits(b, c, to, src, from, m, invert)
    ensures CopiesBits(a, c, dstOffset, src, srcOffset, n + m, invert)
    ensures SomeSet(src, srcOffset, n + m, invert) <==> SomeSet(src, srcOffset, n, invert) || SomeSet(src, from, m, invert)
  {
    CopiesThen(a, b, c, dstOffset, src, srcOffset, n, m, invert);
    SomeThen(src, srcOffset, n, m, invert);
  }

  // ---------- One bit at a time ----------

  /** A position passed as a 32-bit parameter. */
  function Truncated(pos: nat): nat { pos % 0x1_0000_0000 }

  /** `isNull` */
  method IsNull(a: array<Word>, pos: nat) returns (set_: bool)
    requires pos < 64 * a.Length
    ensures set_ == BitAt(a[..], pos)
  {
    var e := pos / 64;
    set_ := !IsZero(And(a[e], Single(pos - 64 * e)));
    assert And(a[e], Single(pos - 64 * e))[pos % 64] == a[e][pos % 64];
  }

  /** `setNull` */
  method SetNull(a: array<Word>, pos: nat, isNull: bool)
    requires pos < 64 * a.Length
    modifies a
    ensures forall p :: 0 <= p < 64 * a.Length ==> BitAt(a[..], p) == if p == pos then isNull else BitAt(old(a[..]), p)
  {
    var e := pos / 64;
    var k := pos - 64 * e;
    if isNull {
      a[e] := Or(a[e], Single(k));
    } else {
      a[e] := And(a[e], Not(Single(k)));
    }
    forall p | 0 <= p < 64 * a.Length ensures BitAt(a[..], p) == if p == pos then isNull else BitAt(old(a[..]), p) {
      PositionIs(p, e, k);
      assert p / 64 != e ==> a[..][p / 64] == old(a[..])[p / 64];
    }
  }

  method CopyOne(src: array<Word>, srcPos: nat, dst: array<Word>, dstPos: nat, invert: bool) returns (isNull: bool)
    requires src != dst && srcPos < 64 * src.Length && dstPos < 64 * dst.Length
    requires srcPos < 0x1_0000_0000 && dstPos < 0x1_0000_0000
    modifies dst
    ensures CopiesBits(old(dst[..]), dst[..], dstPos, src[..], srcPos, 1, invert)
    ensures isNull <==> SomeSet(src[..], srcPos, 1, false)
  {
    isNull := IsNull(src, Truncated(srcPos));
    SetNull(dst, Truncated(dstPos), isNull != invert);
    assert isNull == BitAt(src[..], srcPos);
  }

  /** The path for at most three bits; its flag is about the source bits before inversion. */
  method CopyFew(src: array<Word>, srcOffset: nat, dst: array<Word>, dstOffset: nat, n: nat, invert: bool) returns (some: bool)
    requires src != dst && srcOffset + n <= 64 * src.Length && dstOffset + n <= 64 * dst.Length
    requires srcOffset + n <= 0x1_0000_0000 && dstOffset + n <= 0x1_0000_0000
    modifies dst
    ensures CopiesBits(old(dst[..]), dst[..], dstOffset, src[..], srcOffset, n, invert)
    ensures some <==> SomeSet(src[..], srcOffset, n, false)
  {
    some := false;
    ghost var before, source := dst[..], src[..];
    for i := 0 to n
      invariant src[..] == source && dst.Length == |before|
      invariant CopiesBits(before, dst[..], dstOffset, source, srcOffset, i, invert)
      invariant some <==> SomeSet(source, srcOffset, i, false)
    {
      ghost var mid := dst[..];
      var isNull := CopyOne(src, srcOffset + i, dst, dstOffset + i, invert);
      CopiesThen(before, mid, dst[..], dstOffset, source, srcOffset, i, 1, invert);
      SomeThen(source, srcOffset, i, 1, false);
      some := some || isNull;
    }
  }

  // ---------- Whole bytes ----------

  /** Byte j of a buffer, bytes in increasing order of their bits. */
  function ByteAt(s: seq<Word>, j: nat): (b: seq<bool>)
    requires j < 8 * |s|
    ensures |b| == 8
    ensures forall k :: 0 <= k < 8 ==> b[k] == BitAt(s, 8 * j + k)
  {
    var w, r := s[j / 8], 8 * (j % 8);
    var b := w[r..r + 8];
    assert forall k :: 0 <= k < 8 ==> b[k] == BitAt(s, 8 * j + k) by {
      forall k | 0 <= k < 8 ensures b[k] == BitAt(s, 8 * j + k) { PositionIs(8 * j + k, j / 8, r + k); }
    }
    b
  }

  /** The word with byte r replaced. */
  function WithByte(w: Word, r: nat, b: seq<bool>): (v: Word)
    requires r < 8 && |b| == 8
    ensures forall k :: 0 <= k < 64 ==> v[k] == if 8 * r <= k < 8 * r + 8 then b[k - 8 * r] else w[k]
  {
    w[..8 * r] + b + w[8 * r + 8..]
  }

  method PutByte(dst: array<Word>, j: nat, b: seq<bool>)
    requires j < 8 * dst.Length && |b| == 8
    modifies dst
    ensures forall p :: 0 <= p < 64 * dst.Length ==>
      BitAt(dst[..], p) == if 8 * j <= p < 8 * j + 8 then b[p - 8 * j] else BitAt(old(dst[..]), p)
  {
    ghost var before := dst[..];
    dst[j / 8] := WithByte(dst[j / 8], j % 8, b);
    forall p | 0 <= p < 64 * dst.Length
      ensures BitAt(dst[..], p) == if 8 * j <= p < 8 * j + 8 then b[p - 8 * j] else BitAt(before, p)
    {
      assert p / 64 != j / 8 ==> dst[..][p / 64] == before[p / 64];
    }
  }

  method CopyByte(src: array<Word>, from: nat, dst: array<Word>, to: nat) returns (some: bool)
    requires src != dst && from < 8 * src.Length && to < 8 * dst.Length
    modifies dst
    ensures CopiesBits(old(dst[..]), dst[..], 8 * to, src[..], 8 * from, 8, false)
    ensures some <==> SomeSet(src[..], 8 * from, 8, false)
  {
    var b := ByteAt(src[..], from);
    ghost var before := dst[..];
    PutByte(dst, to, b);
    ByteCopied(before, dst[..], to, src[..], from, b);
    some := exists k :: 0 <= k < 8 && b[k];
  }

  /** `memcpy` of whole bytes, and whether one of them is not zero. */
  method CopyBytes(src: array<Word>, from: nat, dst: array<Word>, to: nat, count: nat) returns (some: bool)
    requires src != dst && from + count <= 8 * src.Length && to + count <= 8 * dst.Length
    modifies dst
    ensures CopiesBits(old(dst[..]), dst[..], 8 * to, src[..], 8 * from, 8 * count, false)
    ensures some <==> SomeSet(src[..], 8 * from, 8 * count, false)
  {
    some := false;
    ghost var before, source := dst[..], src[..];
    for i := 0 to count
      invariant src[..] == source && dst.Length == |before|
      invariant CopiesBits(before, dst[..], 8 * to, source, 8 * from, 8 * i, false)
      invariant some <==> SomeSet(source, 8 * from, 8 * i, false)
    {
      ghost var mid := dst[..];
      var here := CopyByte(src, from + i, dst, to + i);
      CopiesThen(before, mid, dst[..], 8 * to, source, 8 * from, 8 * i, 8, false);
      SomeThen(source, 8 * from, 8 * i, 8, false);
      some := some || here;
    }
  }

  lemma {:induction false} ByteCopied(mid: seq<Word>, after: seq<Word>, to: nat, src: seq<Word>, from: nat, b: seq<bool>)
    requires |after| == |mid| && to < 8 * |mid| && from < 8 * |src| && b == ByteAt(src, from)
    requires forall p :: 0 <= p < 64 * |mid| ==> BitAt(after, p) == if 8 * to <= p < 8 * to + 8 then b[p - 8 * to] else BitAt(mid, p)
    ensures CopiesBits(mid, after, 8 * to, src, 8 * from, 8, false)
    ensures SomeSet(src, 8 * from, 8, false) <==> exists k :: 0 <= k < 8 && b[k]
  {
    if SomeSet(src, 8 * from, 8, false) {
      var p :| 8 * from <= p < 8 * from + 8 && BitAt(src, p) != false;
      assert b[p - 8 * from];
    }
    if k :| 0 <= k < 8 && b[k] {
      assert BitAt(src, 8 * from + k) != false;
    }
  }

  // ---------- The whole copy ----------

  /** To the next byte boundary; a whole byte when already on one, unless at the very start. */
  method CopyFirstByte(src: array<Word>, srcOffset: nat, dst: array<Word>, dstOffset: nat, n: nat) returns (some: bool, first: nat)
    requires src != dst && srcOffset + n <= 64 * src.Length && dstOffset + n <= 64 * dst.Length
    requires srcOffset % 8 == dstOffset % 8 && n >= 8
    modifies dst
    ensures first <= 8 && (srcOffset + first) % 8 == 0 && (dstOffset + first) % 8 == 0
    ensures CopiesBits(old(dst[..]), dst[..], dstOffset, src[..], srcOffset, first, false)
    ensures some <==> SomeSet(src[..], srcOffset, first, false)
  {
    first, some := 0, false;
    if srcOffset != 0 {
      first := 8 - srcOffset % 8;
      some := CopyUnaligned(src, srcOffset, dst, dstOffset, first, false);
    }
  }

  /** To the next byte boundary, then whole bytes. */
  method CopyUpToLastByte(src: array<Word>, srcOffset: nat, dst: array<Word>, dstOffset: nat, n: nat) returns (some: bool, done: nat)
    requires src != dst && srcOffset + n <= 64 * src.Length && dstOffset + n <= 64 * dst.Length
    requires srcOffset % 8 == dstOffset % 8 && n >= 8
    modifies dst
    ensures done <= n
    ensures CopiesBits(old(dst[..]), dst[..], dstOffset, src[..], srcOffset, done, false)
    ensures some <==> SomeSet(src[..], srcOffset, done, false)
  {
    ghost var before := dst[..];
    var first;
    some, first := CopyFirstByte(src, srcOffset, dst, dstOffset, n);
    ghost var mid := dst[..];
    var bytes := (n - first) / 8;
    var from, to := (srcOffset + first) / 8, (dstOffset + first) / 8;
    assert 8 * from == srcOffset + first && 8 * to == dstOffset + first && 8 * bytes <= n - first;
    var someByte := CopyBytes(src, from, dst, to, bytes);
    done := first + 8 * bytes;
    CopiesThen(before, mid, dst[..], dstOffset, src[..], srcOffset, first, 8 * bytes, false);
    SomeThen(src[..], srcOffset, first, 8 * bytes, false);
    some := some || someByte;
  }

  /** The middle path: to the next byte boundary, whole bytes, then the rest. */
  method CopyByBytes(src: array<Word>, srcOffset: nat, dst: array<Word>, dstOffset: nat, n: nat) returns (some: bool)
    requires src != dst && srcOffset + n <= 64 * src.Length && dstOffset + n <= 64 * dst.Length
    requires srcOffset % 8 == dstOffset % 8 && n >= 8
    modifies dst
    ensures CopiesBits(old(dst[..]), dst[..], dstOffset, src[..], srcOffset, n, false)
    ensures some <==> SomeSet(src[..], srcOffset, n, false)
  {
    ghost var before := dst[..];
    var done;
    some, done := CopyUpToLastByte(src, srcOffset, dst, dstOffset, n);
    ghost var mid := dst[..];
    if n - done > 0 {
      var someLast := CopyUnaligned(src, srcOffset + done, dst, dstOffset + done, n - done, false);
      CopiesThen(before, mid, dst[..], dstOffset, src[..], srcOffset, done, n - done, false);
      SomeThen(src[..], srcOffset, done, n - done, false);
      some := someLast || some;
    }
  }

  /** `copyNullMask`: bit by bit, the range is copied or inverted and every other bit is left alone. The flag
      says whether a bit is set in the copy, except that for at most three bits it is about the bits before
      inversion. */
  method CopyNullMask(src: array<Word>, srcOffset: nat, dst: array<Word>, dstOffset: nat, n: nat, invert: bool)
    returns (some: bool)
    requires src != dst && srcOffset + n <= 64 * src.Length && dstOffset + n <= 64 * dst.Length
    requires n <= 3 ==> srcOffset + n <= 0x1_0000_0000 && dstOffset + n <= 0x1_0000_0000
    modifies dst
    ensures CopiesBits(old(dst[..]), dst[..], dstOffset, src[..], srcOffset, n, invert)
    ensures some <==> SomeSet(src[..], srcOffset, n, invert && n > 3)
  {
    if n <= 3 {
      some := CopyFew(src, srcOffset, dst, dstOffset, n, invert);
    } else if !invert && srcOffset % 8 == dstOffset % 8 && n >= 8 && n - srcOffset % 8 >= 8 {
      some := CopyByBytes(src, srcOffset, dst, dstOffset, n);
    } else {
      some := CopyUnaligned(src, srcOffset, dst, dstOffset, n, invert);
    }
  }

  /** The documented flag, "a bit with value 1 was copied", is what the call returns exactly when it does not
      invert at most three bits that are all alike. */
  lemma {:induction false} FlagIsAsDocumentedExactly(src: seq<Word>, offset: nat, n: nat, invert: bool)
    requires offset + n <= 64 * |src|
    ensures (SomeSet(src, offset, n, invert && n > 3) <==> SomeSet(src, offset, n, invert)) <==>
            !(invert && 0 < n <= 3 && forall p, q :: offset <= p < offset + n && offset <= q < offset + n ==> BitAt(src, p) == BitAt(src, q))
  {
    if invert && 0 < n <= 3 {
      if forall p, q :: offset <= p < offset + n && offset <= q < offset + n ==> BitAt(src, p) == BitAt(src, q) {
        assert offset <= offset < offset + n;
        if BitAt(src, offset) {
          assert SomeSet(src, offset, n, false);
        } else {
          assert SomeSet(src, offset, n, true);
        }
      } else {
        var p, q :| offset <= p < offset + n && offset <= q < offset + n && BitAt(src, p) != BitAt(src, q);
        assert SomeSet(src, offset, n, false) && SomeSet(src, offset, n, true);
      }
    }
  }

  // ---------- Setting a range ----------

  ghost predicate SetsRange(before: seq<Word>, after: seq<Word>, offset: nat, n: nat, isNull: bool) {
    && |after| == |before|
    && forall p :: 0 <= p < 64 * |after| ==>
         BitAt(after, p) == if offset <= p < offset + n then isNull else BitAt(before, p)
  }

  /** The bits from `lo` up to `hi` of a word set or cleared. */
  function RangeInWord(w: Word, lo: nat, hi: nat, isNull: bool): (r: Word)
    requires lo <= 64 && hi <= 64
    ensures forall k :: 0 <= k < 64 ==> r[k] == if lo <= k < hi then isNull else w[k]
  {
    if isNull then Or(w, And(Not(Lower(lo)), Not(High(64 - hi))))
    else And(w, Or(Lower(lo), High(64 - hi)))
  }

  ghost predicate WordSet(before: Word, after: Word, e: nat, offset: nat, n: nat, isNull: bool) {
    forall k :: 0 <= k < 64 ==> after[k] == if offset <= 64 * e + k < offset + n then isNull else before[k]
  }

  lemma {:induction false} RangeByWords(before: seq<Word>, after: seq<Word>, offset: nat, n: nat, isNull: bool)
    requires |after| == |before| && forall e :: 0 <= e < |before| ==> WordSet(before[e], after[e], e, offset, n, isNull)
    ensures SetsRange(before, after, offset, n, isNull)
  {
    forall p | 0 <= p < 64 * |after|
      ensures BitAt(after, p) == if offset <= p < offset + n then isNull else BitAt(before, p)
    {
      PositionIs(p, p / 64, p % 64);
      assert WordSet(before[p / 64], after[p / 64], p / 64, offset, n, isNull);
    }
  }

  /** The words strictly between the first and the last one. */
  method FillMiddle(a: array<Word>, first: nat, last: nat, isNull: bool)
    requires last <= a.Length
    modifies a
    ensures forall e :: 0 <= e < a.Length ==> a[e] == if first < e < last then (if isNull then Lower(64) else Lower(0)) else old(a[e])
  {
    for i := first + 1 to (if first + 1 <= last then last else first + 1)
      invariant forall e :: 0 <= e < a.Length ==> a[e] == if first < e < i then (if isNull then Lower(64) else Lower(0)) else old(a[e])
    {
      a[i] := if isNull then Lower(64) else Lower(0);
    }
  }

  /** `setNullRange`: the first word, the words in between and the last word, each in one operation. */
  method SetNullRange(a: array<Word>, offset: nat, n: nat, isNull: bool)
    requires offset + n <= 64 * a.Length
    modifies a
    ensures SetsRange(old(a[..]), a[..], offset, n, isNull)
  {
    if n == 0 { return; }
    ghost var before := a[..];
    var first, firstBit := offset / 64, offset % 64;
    var last, lastBit := (offset + n) / 64, (offset + n) % 64;
    FillMiddle(a, first, last, isNull);
    if first == last {
      a[first] := RangeInWord(a[first], firstBit, lastBit, isNull);
    } else {
      a[first] := if isNull then Or(a[first], Not(Lower(firstBit))) else And(a[first], Lower(firstBit));
      if lastBit > 0 {
        a[last] := if isNull then Or(a[last], Lower(lastBit)) else And(a[last], Not(Lower(lastBit)));
      }
    }
    forall e | 0 <= e < a.Length ensures WordSet(before[e], a[..][e], e, offset, n, isNull) {
      assert a[..][e] == a[e];
    }
    RangeByWords(before, a[..], offset, n, isNull);
  }

  // ---------- All, none or some ----------

  ghost predicate AllSet(s: seq<Word>, offset: nat, n: nat)
    requires offset + n <= 64 * |s|
  {
    forall p :: offset <= p < offset + n ==> BitAt(s, p)
  }

  /** The bits under a mask: none set, all set, or some. */
  lemma {:induction false} UnderMask(w: Word, mask: Word)
    ensures IsZero(And(w, mask)) <==> forall k :: 0 <= k < 64 && mask[k] ==> !w[k]
    ensures And(w, mask) == mask <==> forall k :: 0 <= k < 64 && mask[k] ==> w[k]
  {
    if IsZero(And(w, mask)) {
      forall k | 0 <= k < 64 && mask[k] ensures !w[k] { assert !And(w, mask)[k]; }
    }
    if And(w, mask) == mask {
      forall k | 0 <= k < 64 && mask[k] ensures w[k] { assert And(w, mask)[k]; }
    }
  }

  ghost predicate NoneSet(s: seq<Word>, offset: nat, n: nat)
    requires offset + n <= 64 * |s|
  {
    forall p :: offset <= p < offset + n ==> !BitAt(s, p)
  }

  /** What `getMinMax` promises of a range that is not empty; of an empty one it reports no null. */
  ghost predicate MinMax(min: bool, max: bool, s: seq<Word>, offset: nat, n: nat)
    requires offset + n <= 64 * |s|
  {
    if n == 0 then !min && !max else (min <==> AllSet(s, offset, n)) && (max <==> !NoneSet(s, offset, n))
  }

  lemma {:induction false} WordRange(s: seq<Word>, e: nat, lo: nat, hi: nat)
    requires e < |s| && lo <= hi <= 64
    ensures NoneSet(s, 64 * e + lo, hi - lo) <==> forall k :: lo <= k < hi ==> !s[e][k]
    ensures AllSet(s, 64 * e + lo, hi - lo) <==> forall k :: lo <= k < hi ==> s[e][k]
  {
    if NoneSet(s, 64 * e + lo, hi - lo) {
      forall k | lo <= k < hi ensures !s[e][k] { PositionIs(64 * e + k, e, k); assert !BitAt(s, 64 * e + k); }
    }
    if AllSet(s, 64 * e + lo, hi - lo) {
      forall k | lo <= k < hi ensures s[e][k] { PositionIs(64 * e + k, e, k); assert BitAt(s, 64 * e + k); }
    }
    forall p | 64 * e + lo <= p < 64 * e + hi ensures BitAt(s, p) == s[e][p - 64 * e] { PositionIs(p, e, p - 64 * e); }
  }

  /** The bits of one word under a mask, compared with nothing and with the mask itself. */
  method Compare(s: seq<Word>, e: nat, lo: nat, hi: nat, mask: Word) returns (none: bool, all: bool)
    requires e < |s| && lo <= hi <= 64 && forall k :: 0 <= k < 64 ==> mask[k] == (lo <= k < hi)
    ensures none <==> NoneSet(s, 64 * e + lo, hi - lo)
    ensures all <==> AllSet(s, 64 * e + lo, hi - lo)
  {
    var masked := And(s[e], mask);
    UnderMask(s[e], mask);
    WordRange(s, e, lo, hi);
    none, all := IsZero(masked), masked == mask;
  }

  /** Two bits of the range that differ. */
  lemma {:induction false} TwoBits(s: seq<Word>, offset: nat, n: nat, from: nat, m: nat, value: bool)
    requires offset <= from && from + m <= offset + n <= 64 * |s| && n > 0 && BitAt(s, offset) == value
    requires if value then !AllSet(s, from, m) else !NoneSet(s, from, m)
    ensures MinMax(false, true, s, offset, n)
  {
    var p :| from <= p < from + m && BitAt(s, p) != value;
  }

  /** All the bits before `done` have the value of the first one. */
  ghost predicate Uniform(s: seq<Word>, offset: nat, done: nat, value: bool)
    requires offset + done <= 64 * |s|
  {
    if value then AllSet(s, offset, done) else NoneSet(s, offset, done)
  }

  lemma {:induction false} UniformThen(s: seq<Word>, offset: nat, done: nat, m: nat, value: bool)
    requires offset + done + m <= 64 * |s|
    ensures Uniform(s, offset, done + m, value) <==> Uniform(s, offset, done, value) && Uniform(s, offset + done, m, value)
  {
    if Uniform(s, offset, done, value) && Uniform(s, offset + done, m, value) {
      forall p | offset <= p < offset + done + m ensures BitAt(s, p) == value {
        assert p < offset + done || offset + done <= p;
      }
    }
  }

  lemma {:induction false} WholeWord(s: seq<Word>, e: nat, from: nat, value: bool, baseline: Word)
    requires e < |s| && from == 64 * e && baseline == if value then Lower(64) else Lower(0)
    ensures s[e] == baseline <==> Uniform(s, from, 64, value)
  {
    WordRange(s, e, 0, 64);
  }

  /** The words compared whole with the value of the first bit. */
  method CompareWords(s: seq<Word>, offset: nat, n: nat, start: nat, value: bool) returns (same: bool, done: nat)
    requires offset + n <= 64 * |s| && n > 0 && start <= n && (offset + start) % 64 == 0
    requires BitAt(s, offset) == value && Uniform(s, offset, start, value)
    ensures if same then start <= done <= n && n - done < 64 && (offset + done) % 64 == 0 && Uniform(s, offset, done, value)
            else MinMax(false, true, s, offset, n)
  {
    var baseline: Word := if value then Lower(64) else Lower(0);
    var e := (offset + start) / 64;
    done := start;
    for i := 0 to (n - start) / 64
      invariant done == start + 64 * i && 64 * (e + i) == offset + done
      invariant Uniform(s, offset, done, value)
    {
      WholeWord(s, e + i, offset + done, value, baseline);
      if s[e + i] != baseline {
        TwoBits(s, offset, n, offset + done, 64, value);
        return false, done;
      }
      UniformThen(s, offset, done, 64, value);
      done := done + 64;
    }
    same := true;
  }

  /** `getMinMax`: whether all the bits, and whether any bit, of the range are set. */
  method GetMinMax(s: seq<Word>, offset: nat, n: nat) returns (min: bool, max: bool)
    requires offset + n <= 64 * |s| && offset < 64 * |s|
    ensures MinMax(min, max, s, offset, n)
  {
    var e, off := offset / 64, offset % 64;
    if off + n <= 64 {
      var none, all := Compare(s, e, off, off + n, And(High(64 - off), Lower(off + n)));
      assert n > 0 && none ==> !BitAt(s, offset);
      return !none && all, !none;
    }
    var value, start := BitAt(s, offset), 0;
    if off > 0 {
      var none, all := Compare(s, e, off, 64, High(64 - off));
      start := 64 - off;
      if !none && !all {
        TwoBits(s, offset, n, offset, start, value);
        return false, true;
      }
      assert value <==> all by { assert BitAt(s, 64 * e + off) == value; }
    }
    var same, done := CompareWords(s, offset, n, start, value);
    if !same { return false, true; }
    min, max := FinishMinMax(s, offset, n, done, value);
  }

  /** The last word, of which only the low bits count. */
  method FinishMinMax(s: seq<Word>, offset: nat, n: nat, done: nat, value: bool) returns (min: bool, max: bool)
    requires offset + n <= 64 * |s| && 0 < done <= n && n - done < 64 && (offset + done) % 64 == 0
    requires BitAt(s, offset) == value && Uniform(s, offset, done, value)
    ensures MinMax(min, max, s, offset, n)
  {
    var rest := n - done;
    if rest > 0 {
      var e := (offset + done) / 64;
      var none, all := Compare(s, e, 0, rest, Lower(rest));
      UniformThen(s, offset, done, rest, value);
      if none {
        assert !BitAt(s, offset + done);
        if value { TwoBits(s, offset, n, offset + done, rest, value); }
        return false, value;
      } else if all {
        assert BitAt(s, offset + done);
        if !value { TwoBits(s, offset, n, offset + done, rest, value); }
        return value, true;
      } else {
        TwoBits(s, offset, n, offset + done, rest, value);
        return false, true;
      }
    }
    return value, value;
  }
}
