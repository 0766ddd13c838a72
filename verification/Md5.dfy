/**
 Streaming MD5: the context that `MD5Update` fills chunk by chunk and `MD5Final` pads and closes. The
 object's ghost message is what has been added since the last start; the digest depends on nothing else.
 */
module Md5 {

  import opened Basics
  import opened Md5Spec

  // ---------- What the context holds ----------

  /** The counter, the state and the buffer after a message cut into whole blocks and a tail. */
  ghost predicate Holds(compress: Compress, whole: seq<Byte>, tail: seq<Byte>, low: Word, high: Word, state: State, buffer: seq<Byte>) {
    && |whole| % BLOCK == 0 && |tail| < BLOCK
    && Counts(low, high, |whole| + |tail|)
    && state == Fold(compress, INITIAL, whole)
    && tail <= buffer
  }

  lemma {:induction false} SumOfWhole(w: nat, r: nat)
    requires w % 64 == 0
    ensures (w + r) % 64 == r % 64
  {
  }

  lemma {:induction false} HoldsWaiting(compress: Compress, whole: seq<Byte>, tail: seq<Byte>, low: Word, high: Word, state: State, buffer: seq<Byte>)
    requires Holds(compress, whole, tail, low, high, state, buffer)
    ensures low / 8 % 64 == |tail|
  {
    Waiting(low, high, |whole| + |tail|);
    SumOfWhole(|whole|, |tail|);
  }

  /** Whole blocks more, and another tail. */
  lemma {:induction false} HoldsThen(compress: Compress, whole: seq<Byte>, blocks: seq<Byte>, tail: seq<Byte>,
                                     low: Word, high: Word, before: State, state: State, buffer: seq<Byte>)
    requires |whole| % BLOCK == 0 && |blocks| % BLOCK == 0 && |tail| < BLOCK && tail <= buffer
    requires Counts(low, high, |whole| + |blocks| + |tail|)
    requires before == Fold(compress, INITIAL, whole) && state == Fold(compress, before, blocks)
    ensures Holds(compress, whole + blocks, tail, low, high, state, buffer)
  {
    SumOfWhole(|whole|, |blocks|);
    FoldParts(compress, INITIAL, whole, blocks);
  }

  lemma {:induction false} FoldThenBlock(compress: Compress, state: State, blocks: seq<Byte>, block: seq<Byte>)
    requires |blocks| % BLOCK == 0 && |block| == BLOCK
    ensures Fold(compress, state, blocks + block) == compress(Fold(compress, state, blocks), Words(block))
    ensures |blocks + block| % BLOCK == 0
  {
    FoldParts(compress, state, blocks, block);
    FoldBlock(compress, Fold(compress, state, blocks), block);
  }

  lemma {:induction false} FoldBlockThen(compress: Compress, state: State, block: seq<Byte>, blocks: seq<Byte>)
    requires |blocks| % BLOCK == 0 && |block| == BLOCK
    ensures Fold(compress, state, block + blocks) == Fold(compress, compress(state, Words(block)), blocks)
    ensures |block + blocks| % BLOCK == 0
  {
    FoldParts(compress, state, block, blocks);
    FoldBlock(compress, state, block);
  }

  // ---------- The last blocks ----------

  lemma {:induction false} FillShort(n: nat)
    requires n % 64 < 56
    ensures Fill(n) == 55 - n % 64
  {
  }

  lemma {:induction false} FillLong(n: nat)
    requires n % 64 >= 56
    ensures Fill(n) == (63 - n % 64) + 56
  {
  }

  lemma {:induction false} LengthWords(low: Word, high: Word, n: nat)
    requires Counts(low, high, n)
    ensures Words(LengthBytes(8 * n)) == [low, high]
  {
    TwoWords(low, high, 8 * n);
    WordsOfBytesOf(low);
    WordsOfBytesOf(high);
    WordsOfParts(BytesOf(low), BytesOf(high));
  }

  lemma {:induction false} TwoWords(low: Word, high: Word, bits: nat)
    requires low + 0x1_0000_0000 * high == bits % 0x1_0000_0000_0000_0000
    ensures bits % 0x1_0000_0000 == low && bits / 0x1_0000_0000 % 0x1_0000_0000 == high
  {
    var q := bits / 0x1_0000_0000_0000_0000;
    assert bits == low + 0x1_0000_0000 * (high + 0x1_0000_0000 * q);
  }

  /** The block that ends the message, as words. */
  lemma {:induction false} LastBlock(front: seq<Byte>, low: Word, high: Word, n: nat)
    requires |front| == 56 && Counts(low, high, n)
    ensures Words(front + LengthBytes(8 * n)) == Words(front) + [low, high]
  {
    WordsOfParts(front, LengthBytes(8 * n));
    LengthWords(low, high, n);
  }

  /** The digest is what the blocks from the tail on make of the state before it. */
  lemma {:induction false} FinalBlocks(compress: Compress, whole: seq<Byte>, tail: seq<Byte>, n: nat, ends: seq<Byte>)
    requires |whole| % BLOCK == 0 && n == |whole| + |tail|
    requires ends == tail + Padding(n) + LengthBytes(8 * n)
    ensures Digest(compress, whole + tail) == StateBytes(Fold(compress, Fold(compress, INITIAL, whole), ends))
  {
    FoldParts(compress, INITIAL, whole, ends);
    assert Padded(whole + tail) == whole + ends;
  }

  lemma {:induction false} PaddingShort(n: nat, w: nat, r: nat)
    requires w % 64 == 0 && n == w + r && r < 56
    ensures Padding(n) == [0x80] + Zeros(55 - r)
  {
    SumOfWhole(w, r);
    FillShort(n);
  }

  lemma {:induction false} PaddingLong(n: nat, w: nat, r: nat)
    requires w % 64 == 0 && n == w + r && 56 <= r < 64
    ensures Padding(n) == [0x80] + Zeros(63 - r) + Zeros(56)
  {
    SumOfWhole(w, r);
    FillLong(n);
    assert Zeros(Fill(n)) == Zeros(63 - r) + Zeros(56);
  }

  lemma {:induction false} EndsInOne(compress: Compress, whole: seq<Byte>, tail: seq<Byte>, n: nat, block: seq<Byte>)
    requires |block| == 64 && |whole| % BLOCK == 0 && n == |whole| + |tail|
    requires block == tail + Padding(n) + LengthBytes(8 * n)
    ensures Digest(compress, whole + tail) == StateBytes(compress(Fold(compress, INITIAL, whole), Words(block)))
  {
    FinalBlocks(compress, whole, tail, n, block);
    FoldBlock(compress, Fold(compress, INITIAL, whole), block);
  }

  /** One more block when the length fits behind the tail. */
  lemma {:induction false} OneBlock(compress: Compress, whole: seq<Byte>, tail: seq<Byte>, n: nat, state: State, front: seq<Byte>, low: Word, high: Word)
    requires |whole| % BLOCK == 0 && |tail| < 56 && state == Fold(compress, INITIAL, whole)
    requires n == |whole| + |tail| && Counts(low, high, n) && front == tail + ([0x80] + Zeros(55 - |tail|))
    ensures Digest(compress, whole + tail) == StateBytes(compress(state, Words(front) + [low, high]))
  {
    PaddingShort(n, |whole|, |tail|);
    EndsInOne(compress, whole, tail, n, front + LengthBytes(8 * n));
    LastBlock(front, low, high, n);
  }

  lemma {:induction false} EndsInTwo(compress: Compress, whole: seq<Byte>, tail: seq<Byte>, n: nat, first: seq<Byte>, last: seq<Byte>)
    requires |whole| % BLOCK == 0 && n == |whole| + |tail| && |first| == 64 && |last| == 64
    requires first + last == tail + Padding(n) + LengthBytes(8 * n)
    ensures Digest(compress, whole + tail) ==
              StateBytes(compress(compress(Fold(compress, INITIAL, whole), Words(first)), Words(last)))
  {
    var state := Fold(compress, INITIAL, whole);
    FinalBlocks(compress, whole, tail, n, first + last);
    FoldBlockThen(compress, state, first, last);
    FoldBlock(compress, compress(state, Words(first)), last);
  }

  lemma {:induction false} Regroup(tail: seq<Byte>, mark: seq<Byte>, zeros: seq<Byte>, length: seq<Byte>, padding: seq<Byte>)
    requires padding == mark + zeros
    ensures (tail + mark) + (zeros + length) == tail + padding + length
  {
  }

  /** Two more blocks when it does not. */
  lemma {:induction false} TwoBlocks(compress: Compress, whole: seq<Byte>, tail: seq<Byte>, n: nat, state: State, first: seq<Byte>, low: Word, high: Word)
    requires |whole| % BLOCK == 0 && 56 <= |tail| < 64 && state == Fold(compress, INITIAL, whole)
    requires n == |whole| + |tail| && Counts(low, high, n) && first == tail + ([0x80] + Zeros(63 - |tail|))
    ensures Digest(compress, whole + tail) ==
              StateBytes(compress(compress(state, Words(first)), Words(Zeros(56)) + [low, high]))
  {
    PaddingLong(n, |whole|, |tail|);
    Regroup(tail, [0x80] + Zeros(63 - |tail|), Zeros(56), LengthBytes(8 * n), Padding(n));
    EndsInTwo(compress, whole, tail, n, first, Zeros(56) + LengthBytes(8 * n));
    LastBlock(Zeros(56), low, high, n);
  }

  /** What padding leaves of the state and of the buffer. */
  ghost predicate PaddedTo(compress: Compress, tail: seq<Byte>, before: State, after: State, front: seq<Byte>)
    requires |tail| < 64
  {
    if |tail| < 56 then after == before && front == tail + ([0x80] + Zeros(55 - |tail|))
    else after == compress(before, Words(tail + ([0x80] + Zeros(63 - |tail|)))) && front == Zeros(56)
  }

  lemma {:induction false} Closes(compress: Compress, whole: seq<Byte>, tail: seq<Byte>, low: Word, high: Word,
                                  before: State, after: State, front: seq<Byte>, buffer: seq<Byte>)
    requires Holds(compress, whole, tail, low, high, before, buffer) && |front| == 56
    requires PaddedTo(compress, tail, before, after, front)
    ensures Digest(compress, whole + tail) == StateBytes(compress(after, Words(front) + [low, high]))
  {
    var n := |whole| + |tail|;
    if |tail| < 56 {
      OneBlock(compress, whole, tail, n, before, front, low, high);
    } else {
      TwoBlocks(compress, whole, tail, n, before, tail + ([0x80] + Zeros(63 - |tail|)), low, high);
    }
  }

  // ---------- The context ----------

  function Concat(chunks: seq<seq<Byte>>): seq<Byte> {
    if chunks == [] then [] else Concat(chunks[..|chunks| - 1]) + chunks[|chunks| - 1]
  }

  method DigestToBase16(digest: seq<Byte>) returns (text: string)
    ensures text == Base16(digest) && Spells(text, digest)
  {
    Base16Spells(digest);
    text := "";
    for i := 0 to |digest|
      invariant Remains(Base16(digest), text, digest[i..])
    {
      NextByte(Base16(digest), text, digest[i..]);
      assert digest[i..][1..] == digest[i + 1..];
      text := text + HexByte(digest[i]);
    }
  }

  ghost predicate Remains(whole: string, text: string, bytes: seq<Byte>) {
    whole == text + Base16(bytes)
  }

  lemma {:induction false} NextByte(whole: string, text: string, bytes: seq<Byte>)
    requires bytes != [] && Remains(whole, text, bytes)
    ensures Remains(whole, text + HexByte(bytes[0]), bytes[1..])
  {
    assert text + (HexByte(bytes[0]) + Base16(bytes[1..])) == (text + HexByte(bytes[0])) + Base16(bytes[1..]);
  }

  class Md5Context {
    const compress: Compress
    const input: array<Byte>
    var initialized: bool
    var state: State
    var low: Word
    var high: Word
    var result: string
    ghost var whole: seq<Byte>
    ghost var tail: seq<Byte>

    /** What has been added since the start. */
    ghost function Message(): seq<Byte>
      reads this
    {
      whole + tail
    }

    /** After a start, the context is a function of the message alone. */
    ghost predicate Valid()
      reads this, input
    {
      && input.Length == 64
      && (initialized ==> Holds(compress, whole, tail, low, high, state, input[..]))
    }

    constructor (compress: Compress)
      ensures Valid() && fresh(input) && !initialized && result == "" && this.compress == compress
    {
      this.compress := compress;
      input := new Byte[64](_ => 0);
      initialized, state, low, high, result := false, State(0, 0, 0, 0), 0, 0, "";
      whole, tail := [], [];
    }

    /** `memcpy` into the input buffer. */
    method Put(at: nat, bytes: seq<Byte>)
      requires at + |bytes| <= input.Length
      modifies input
      ensures input[..] == old(input[..at]) + bytes + old(input[at + |bytes|..])
    {
      forall k | 0 <= k < |bytes| { input[at + k] := bytes[k]; }
    }

    method Init()
      requires Valid()
      modifies this
      ensures Valid() && initialized && Message() == [] && result == old(result)
    {
      state, low, high := INITIAL, 0, 0;
      initialized := true;
      whole, tail := [], [];
    }

    method Count(len: nat, ghost n: nat)
      requires len < 0x1_0000_0000 && Counts(low, high, n)
      modifies `low, `high
      ensures Counts(low, high, n + len)
    {
      var t, h := low, high;
      low := (t + 8 * len % 0x1_0000_0000) % 0x1_0000_0000;
      if low < t { high := (high + 1) % 0x1_0000_0000; }
      high := (high + len / 0x2000_0000) % 0x1_0000_0000;
      CounterAdds(t, h, n, len, low, high);
    }

    /** The blocks of a chunk, from an empty buffer; what is left stays in the buffer. */
    method Absorb(chunk: seq<Byte>) returns (ghost blocks: seq<Byte>, ghost rest: seq<Byte>)
      requires input.Length == 64
      modifies `state, input
      ensures chunk == blocks + rest && |blocks| % BLOCK == 0 && |rest| < BLOCK
      ensures state == Fold(compress, old(state), blocks) && rest <= input[..]
    {
      blocks := [];
      var left := chunk;
      while |left| >= 64
        invariant chunk == blocks + left && |blocks| % BLOCK == 0
        invariant state == Fold(compress, old(state), blocks)
        decreases |left|
      {
        var block := left[..64];
        Put(0, block);
        assert input[..] == block;
        FoldThenBlock(compress, old(state), blocks, block);
        state := compress(state, Words(input[..]));
        blocks, left := blocks + block, left[64..];
      }
      Put(0, left);
      rest := left;
    }

    /** A block completed from the tail and the first bytes of a chunk, then the rest of the chunk. */
    method Complete(t: nat, chunk: seq<Byte>, ghost tail: seq<Byte>) returns (ghost blocks: seq<Byte>, ghost rest: seq<Byte>)
      requires input.Length == 64 && t == |tail| <= 64 && tail <= input[..] && |chunk| >= 64 - t
      modifies `state, input
      ensures tail + chunk == blocks + rest && |blocks| % BLOCK == 0 && |rest| < BLOCK
      ensures state == Fold(compress, old(state), blocks) && rest <= input[..]
    {
      var space := 64 - t;
      Put(t, chunk[..space]);
      ghost var block := input[..];
      assert block == tail + chunk[..space];
      state := compress(state, Words(input[..]));
      blocks, rest := Absorb(chunk[space..]);
      FoldBlockThen(compress, old(state), block, blocks);
      blocks := block + blocks;
    }

    /** The bytes of a chunk after the tail. */
    method Take(t: nat, chunk: seq<Byte>, ghost tail: seq<Byte>) returns (ghost blocks: seq<Byte>, ghost rest: seq<Byte>)
      requires input.Length == 64 && t == |tail| < 64 && tail <= input[..]
      modifies `state, input
      ensures tail + chunk == blocks + rest && |blocks| % BLOCK == 0 && |rest| < BLOCK
      ensures state == Fold(compress, old(state), blocks) && rest <= input[..]
    {
      if t == 0 {
        blocks, rest := Absorb(chunk);
      } else if |chunk| < 64 - t {
        Put(t, chunk);
        blocks, rest := [], tail + chunk;
      } else {
        blocks, rest := Complete(t, chunk, tail);
      }
    }

    /** `MD5Update` */
    method Update(chunk: seq<Byte>)
      requires Valid() && initialized && |chunk| < 0x1_0000_0000
      modifies this, input
      ensures Valid() && initialized && Message() == old(Message()) + chunk && result == old(result)
    {
      HoldsWaiting(compress, whole, tail, low, high, state, input[..]);
      var t: nat := low / 8 % 64;
      ghost var start := state;
      Count(|chunk|, |whole| + |tail|);
      ghost var blocks, rest := Take(t, chunk, tail);
      HoldsThen(compress, whole, blocks, rest, low, high, start, state, input[..]);
      assert whole + tail + chunk == whole + (tail + chunk) && whole + blocks + rest == whole + (blocks + rest);
      whole, tail := whole + blocks, rest;
    }

    /** The end mark and the padding; what remains is the front of the last block. */
    method Pad(count: nat, ghost tail: seq<Byte>)
      requires input.Length == 64 && count == |tail| < 64 && tail <= input[..]
      modifies `state, input
      ensures PaddedTo(compress, tail, old(state), state, input[..56])
    {
      Put(count, [0x80]);
      assert input[..count + 1] == tail + [0x80];
      if 63 - count < 8 {
        Put(count + 1, Zeros(63 - count));
        assert input[..] == tail + ([0x80] + Zeros(63 - count));
        state := compress(state, Words(input[..]));
        Put(0, Zeros(56));
      } else {
        Put(count + 1, Zeros(63 - count - 8));
      }
    }

    /** `MD5Final` */
    method Final() returns (digest: seq<Byte>)
      requires Valid() && initialized
      modifies this, input
      ensures digest == Digest(compress, old(Message()))
      ensures input.Length == 64 && !initialized && result == old(result)
      ensures low == 0 && high == 0 && state == State(0, 0, 0, 0) && input[..] == Zeros(64)
    {
      HoldsWaiting(compress, whole, tail, low, high, state, input[..]);
      var count: nat := low / 8 % 64;
      Pad(count, tail);
      Closes(compress, whole, tail, low, high, old(state), state, input[..56], old(input[..]));
      state := compress(state, Words(input[..56]) + [low, high]);
      digest := StateBytes(state);
      Put(0, Zeros(64));
      state, low, high, initialized := State(0, 0, 0, 0), 0, 0, false;
    }

    /** `addToMD5` */
    method Add(chunk: seq<Byte>)
      requires Valid() && |chunk| < 0x1_0000_0000
      modifies this, input
      ensures Valid() && initialized && result == old(result)
      ensures Message() == (if old(initialized) then old(Message()) else []) + chunk
    {
      if !initialized { Init(); }
      Update(chunk);
    }

    /** `finishMD5`: without a start since the last finish, the previous text again. */
    method Finish() returns (text: string)
      requires Valid()
      modifies this, input
      ensures Valid() && !initialized && text == result
      ensures text == if old(initialized) then Base16(Digest(compress, old(Message()))) else old(result)
      ensures old(initialized) ==> Spells(text, Digest(compress, old(Message())))
    {
      if initialized {
        var digest := Final();
        result := DigestToBase16(digest);
      }
      text := result;
    }
  }

  /** However a message is cut into chunks, the text is that of the message digested at once. */
  method DigestOfChunks(compress: Compress, chunks: seq<seq<Byte>>) returns (text: string)
    requires forall k :: 0 <= k < |chunks| ==> |chunks[k]| < 0x1_0000_0000
    ensures chunks == [] ==> text == ""
    ensures chunks != [] ==> text == Base16(Digest(compress, Concat(chunks))) && Spells(text, Digest(compress, Concat(chunks)))
  {
    var context := new Md5Context(compress);
    for k := 0 to |chunks|
      invariant context.Valid() && context.compress == compress && fresh(context) && fresh(context.input)
      invariant context.initialized == (k > 0) && context.result == ""
      invariant k > 0 ==> context.Message() == Concat(chunks[..k])
    {
      context.Add(chunks[k]);
      assert chunks[..k + 1][..k] == chunks[..k];
    }
    assert chunks[..|chunks|] == chunks;
    text := context.Finish();
  }
}
