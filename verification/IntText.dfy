/**
 A 64-bit integer as text, and back: the cast checks for overflow before every digit.
 */
module IntText {
  import opened Basics
  import opened TextScan

  const MIN: int := -0x8000_0000_0000_0000
  const MAX: int := 0x7fff_ffff_ffff_ffff

  predicate IsDigit(c: char) { '0' <= c <= '9' }

  // ---------- Writing ----------

  function DigitChar(d: nat): (c: char)
    requires d < 10
    ensures IsDigit(c) && c as int - '0' as int == d
  {
    '0' + d as char
  }

  function Digits(n: nat): (t: string)
    ensures t != [] && forall i :: 0 <= i < |t| ==> IsDigit(t[i])
    ensures n > 0 ==> t[0] != '0'
    ensures n < 10 ==> |t| == 1
  {
    if n < 10 then [DigitChar(n)] else Digits(n / 10) + [DigitChar(n % 10)]
  }

  function ShowInt(n: int): (t: string)
    ensures t != [] && forall i :: 0 <= i < |t| ==> IsDigit(t[i]) || t[i] == '-'
  {
    if n < 0 then "-" + Digits(-n) else Digits(n)
  }

  // ---------- Reading ----------

  /** `handleDigit`: nothing when the next digit would leave the 64-bit range. */
  function AddDigit(r: int, d: nat, negative: bool): Option<int>
    requires d < 10
  {
    if negative then (if r < Quotient(MIN + d, 10) then None else Some(r * 10 - d))
    else (if r > Quotient(MAX - d, 10) then None else Some(r * 10 + d))
  }

  /** The loop of `integerCastLoop`, from the digits already read. */
  function ReadDigits(t: string, r: int, negative: bool): Option<int> {
    if t == [] then Some(r)
    else if !IsDigit(t[0]) then None
    else
      var next := AddDigit(r, t[0] as int - '0' as int, negative);
      if next.None? then None else ReadDigits(t[1..], next.value, negative)
  }

  /** `tryIntegerCast` for a signed 64-bit target. */
  function ReadInt(text: string): Option<int> {
    var i := SkipSpace(text, 0);
    var t := text[i..TrimEnd(text, i, |text|)];
    if t == [] then None
    else if t[0] == '-' then (if |t| == 1 then None else ReadDigits(t[1..], 0, true))
    else if |t| > 1 && t[0] == '0' then None
    else ReadDigits(t, 0, false)
  }

  // ---------- What is read ----------

  predicate AllDigits(t: string) {
    forall i :: 0 <= i < |t| ==> IsDigit(t[i])
  }

  /** The number a string of digits stands for. */
  function Value(t: string): nat
    requires AllDigits(t)
  {
    if t == [] then 0 else 10 * Value(t[..|t| - 1]) + (t[|t| - 1] as int - '0' as int)
  }

  /** Digits, read with their sign, as far as they stay in the 64-bit range. */
  function InRange(t: string, negative: bool): Option<int> {
    if !AllDigits(t) then None
    else
      var n := if negative then 0 - Value(t) else Value(t);
      if MIN <= n <= MAX then Some(n) else None
  }

  /** The text without the white space around it. */
  function Trimmed(text: string): string {
    var i := SkipSpace(text, 0);
    text[i..TrimEnd(text, i, |text|)]
  }

  lemma {:induction false} ReadNoDigit(t: string, c: char, r: int, negative: bool)
    requires !IsDigit(c)
    ensures ReadDigits(t + [c], r, negative) == None
    decreases |t|
  {
    if t != [] {
      assert (t + [c])[1..] == t[1..] + [c];
      if IsDigit(t[0]) {
        var next := AddDigit(r, t[0] as int - '0' as int, negative);
        if next.Some? { ReadNoDigit(t[1..], c, next.value, negative); }
      }
    }
  }

  /** The check before a digit refuses exactly what would leave the range. */
  lemma {:induction false} AddDigitExactly(r: int, d: nat, negative: bool)
    requires d < 10 && (if negative then MIN <= r <= 0 else 0 <= r <= MAX)
    ensures var n := if negative then 10 * r - d else 10 * r + d; AddDigit(r, d, negative) == if MIN <= n <= MAX then Some(n) else None
  {
  }

  /** The loop reads exactly the strings of digits whose number is in the range, whatever their length. */
  lemma {:induction false} ReadDigitsExactly(t: string, negative: bool)
    ensures ReadDigits(t, 0, negative) == InRange(t, negative)
    decreases |t|
  {
    if t != [] {
      var init, c := t[..|t| - 1], t[|t| - 1];
      assert t == init + [c];
      ReadDigitsExactly(init, negative);
      if !IsDigit(c) {
        ReadNoDigit(init, c, 0, negative);
      } else {
        ReadAppended(init, c, 0, negative);
        assert AllDigits(t) <==> AllDigits(init) by { assert AllDigits(t) ==> forall i :: 0 <= i < |init| ==> init[i] == t[i]; }
        if ReadDigits(init, 0, negative).Some? {
          AddDigitExactly(ReadDigits(init, 0, negative).value, c as int - '0' as int, negative);
        }
      }
    }
  }

  /** The cast accepts exactly an optional minus sign and digits, without a leading zero unless there is a sign or nothing
      else, that stand for a 64-bit integer, with white space around; and gives that integer. */
  lemma {:induction false} ReadIntExactly(text: string)
    ensures var t := Trimmed(text);
            ReadInt(text) ==
              if t == "" then None
              else if t[0] == '-' then (if |t| == 1 then None else InRange(t[1..], true))
              else if |t| > 1 && t[0] == '0' then None
              else InRange(t, false)
  {
    var t := Trimmed(text);
    if t != "" {
      ReadDigitsExactly(t[1..], true);
      ReadDigitsExactly(t, false);
    }
  }

  // ---------- Reading undoes writing ----------

  lemma {:induction false} ReadAppended(t: string, c: char, r: int, negative: bool)
    requires IsDigit(c)
    ensures var first := ReadDigits(t, r, negative);
            ReadDigits(t + [c], r, negative) ==
              if first.None? then None else AddDigit(first.value, c as int - '0' as int, negative)
  {
    if t == [] {
      assert [c][1..] == [];
    } else {
      assert (t + [c])[1..] == t[1..] + [c];
      if IsDigit(t[0]) {
        var next := AddDigit(r, t[0] as int - '0' as int, negative);
        if next.Some? {
          ReadAppended(t[1..], c, next.value, negative);
        }
      }
    }
  }

  lemma {:induction false} ReadDigitsOf(n: nat, negative: bool)
    requires if negative then n <= 0 - MIN else n <= MAX
    ensures ReadDigits(Digits(n), 0, negative) == Some(if negative then 0 - n else n)
  {
    if n < 10 {
      assert [DigitChar(n)][1..] == [];
    } else {
      ReadDigitsOf(n / 10, negative);
      ReadAppended(Digits(n / 10), DigitChar(n % 10), 0, negative);
    }
  }

  /** Every 64-bit integer is read back from its own text. */
  lemma {:induction false} ReadUndoesShow(n: int)
    requires MIN <= n <= MAX
    ensures ReadInt(ShowInt(n)) == Some(n)
  {
    var t := ShowInt(n);
    assert SkipSpace(t, 0) == 0;
    assert TrimEnd(t, 0, |t|) == |t|;
    assert t[0..|t|] == t;
    if n < 0 {
      assert t[1..] == Digits(-n);
      ReadDigitsOf(-n, true);
    } else {
      ReadDigitsOf(n, false);
    }
  }
}
