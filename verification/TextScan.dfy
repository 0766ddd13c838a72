/**
 Scanning nested literals: white space, quotes, and the recursive skip from an opening bracket to
 its closing one. A position never passes the end of the text, whatever the text is.
 */
module TextScan {

  import opened Basics

  predicate IsSpace(c: char) {
    c == ' ' || '\t' <= c <= '\r'
  }

  /** The nesting counter is a 64-bit unsigned integer. */
  const LEVELS: nat := 0x1_0000_0000_0000_0000

  function Up(lvl: nat): nat { if lvl + 1 == LEVELS then 0 else lvl + 1 }

  function Down(lvl: nat): nat { if lvl == 0 then LEVELS - 1 else lvl - 1 }

  // ---------- White space ----------

  function SkipSpace(s: string, i: nat): (j: nat)
    requires i <= |s|
    ensures i <= j <= |s|
    decreases |s| - i
  {
    if i < |s| && IsSpace(s[i]) then SkipSpace(s, i + 1) else i
  }

  function TrimEnd(s: string, i: nat, j: nat): (k: nat)
    requires i <= j <= |s|
    ensures i <= k <= j
    decreases j
  {
    if i < j && IsSpace(s[j - 1]) then TrimEnd(s, i, j - 1) else j
  }

  /** `skipWhitespace` */
  method SkipWhitespace(s: string, i: nat) returns (j: nat)
    requires i <= |s|
    ensures j == SkipSpace(s, i)
    ensures (forall k :: i <= k < j ==> IsSpace(s[k])) && (j < |s| ==> !IsSpace(s[j]))
  {
    SpaceSkipped(s, i);
    j := i;
    while j < |s| && IsSpace(s[j])
      invariant i <= j <= |s| && SkipSpace(s, j) == SkipSpace(s, i)
    {
      j := j + 1;
    }
  }

  /** `trimRightWhitespace` */
  method TrimRightWhitespace(s: string, i: nat, j: nat) returns (k: nat)
    requires i <= j <= |s|
    ensures k == TrimEnd(s, i, j)
    ensures (forall n :: k <= n < j ==> IsSpace(s[n])) && (i < k ==> !IsSpace(s[k - 1]))
  {
    SpaceTrimmed(s, i, j);
    k := j;
    while i < k && IsSpace(s[k - 1])
      invariant i <= k <= j && TrimEnd(s, i, k) == TrimEnd(s, i, j)
    {
      k := k - 1;
    }
  }

  /** What is skipped is exactly the white space there. */
  lemma {:induction false} SpaceSkipped(s: string, i: nat)
    requires i <= |s|
    ensures forall k :: i <= k < SkipSpace(s, i) ==> IsSpace(s[k])
    ensures SkipSpace(s, i) < |s| ==> !IsSpace(s[SkipSpace(s, i)])
    decreases |s| - i
  {
    if i < |s| && IsSpace(s[i]) {
      SpaceSkipped(s, i + 1);
    }
  }

  lemma {:induction false} SpaceTrimmed(s: string, i: nat, j: nat)
    requires i <= j <= |s|
    ensures forall k :: TrimEnd(s, i, j) <= k < j ==> IsSpace(s[k])
    ensures i < TrimEnd(s, i, j) ==> !IsSpace(s[TrimEnd(s, i, j) - 1])
    decreases j
  {
    if i < j && IsSpace(s[j - 1]) {
      SpaceTrimmed(s, i, j - 1);
    }
  }

  // ---------- Quotes ----------

  /** The first occurrence of a character from a position on. */
  function FindChar(s: string, i: nat, c: char): (r: Option<nat>)
    requires i <= |s|
    ensures r.Some? ==> i <= r.value < |s| && s[r.value] == c
    decreases |s| - i
  {
    if i == |s| then None else if s[i] == c then Some(i) else FindChar(s, i + 1, c)
  }

  lemma {:induction false} FoundFirst(s: string, i: nat, c: char)
    requires i <= |s|
    ensures forall k :: i <= k < (if FindChar(s, i, c).Some? then FindChar(s, i, c).value else |s|) ==> s[k] != c
    decreases |s| - i
  {
    if i < |s| && s[i] != c {
      FoundFirst(s, i + 1, c);
    }
  }

  /** `skipToCloseQuotes`: from an opening quote to the same quote again; the end when there is none. */
  method SkipToCloseQuotes(s: string, i: nat) returns (ok: bool, j: nat)
    requires i < |s|
    ensures i < j <= |s|
    ensures if ok then FindChar(s, i + 1, s[i]) == Some(j) else FindChar(s, i + 1, s[i]).None? && j == |s|
    ensures (forall k :: i < k < j ==> s[k] != s[i]) && (ok ==> j < |s| && s[j] == s[i])
  {
    FoundFirst(s, i + 1, s[i]);
    var ch := s[i];
    j := i + 1;
    while j != |s|
      invariant i < j <= |s| && FindChar(s, j, ch) == FindChar(s, i + 1, ch)
      decreases |s| - j
    {
      if s[j] == ch { return true, j; }
      j := j + 1;
    }
    ok := false;
  }

  // ---------- Brackets ----------

  /** Where the scan for `target` stops, quotes and nested brackets skipped. */
  function CloseAt(s: string, i: nat, target: char): (r: Option<nat>)
    requires i <= |s| && (target == ']' || target == '}')
    ensures r.Some? ==> i <= r.value < |s| && s[r.value] == target
    decreases |s| - i
  {
    if i == |s| then None
    else if s[i] == '\'' then
      var q := FindChar(s, i + 1, '\'');
      if q.None? then None else CloseAt(s, q.value + 1, target)
    else if s[i] == '{' then
      var inner := CloseAt(s, i + 1, '}');
      if inner.None? then None else CloseAt(s, inner.value + 1, target)
    else if s[i] == '[' then
      var inner := CloseAt(s, i + 1, ']');
      if inner.None? then None else CloseAt(s, inner.value + 1, target)
    else if s[i] == target then Some(i)
    else CloseAt(s, i + 1, target)
  }

  /** `skipToClose`: the position and the level are advanced. Nested lists leave the level balanced, so
      that reaching `]` lowers it by one in all and reaching `}` leaves it as it was; without a closing
      bracket the position is the end. */
  method SkipToClose(s: string, start: nat, level: nat, target: char) returns (ok: bool, pos: nat, lvl: nat)
    requires start < |s| && level < LEVELS && (target == ']' || target == '}')
    ensures lvl < LEVELS && start < pos <= |s|
    ensures if ok then CloseAt(s, start + 1, target) == Some(pos) && lvl == (if target == ']' then Down(level) else level)
            else CloseAt(s, start + 1, target).None? && pos == |s|
    decreases |s| - start
  {
    pos, lvl := start + 1, level;
    while pos != |s|
      invariant start < pos <= |s| && lvl == level
      invariant CloseAt(s, pos, target) == CloseAt(s, start + 1, target)
      decreases |s| - pos
    {
      if s[pos] == '\'' {
        ok, pos := SkipToCloseQuotes(s, pos);
        if !ok { return; }
      } else if s[pos] == '{' {
        ok, pos, lvl := SkipToClose(s, pos, lvl, '}');
        if !ok { return; }
      } else if s[pos] == '[' {
        ok, pos, lvl := SkipToClose(s, pos, lvl, ']');
        if !ok { return; }
        lvl := Up(lvl);
      } else if s[pos] == target {
        if target == ']' {
          lvl := Down(lvl);
        }
        ok := true;
        return;
      }
      pos := pos + 1;
    }
    ok := false;
  }
}
