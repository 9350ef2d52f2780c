/** Position-by-position scanning of a text, the building blocks both
    patterns of the parameter engine are matched with. `\s` is
    `IsWhitespace`, and `^` in multi-line mode holds at `IsLineStart`. */
module Scan {
  import opened Wrappers
  import opened Text

  function SkipWhitespace(text: string, i: nat): (j: nat)
    requires i <= |text|
    ensures i <= j <= |text|
    ensures forall k :: i <= k < j ==> IsWhitespace(text[k])
    ensures j == |text| || !IsWhitespace(text[j])
    decreases |text| - i
  {
    if i < |text| && IsWhitespace(text[i]) then SkipWhitespace(text, i + 1) else i
  }

  /** The first index at or after `i` holding `c`. */
  function IndexOf(text: string, i: nat, c: char): (r: Option<nat>)
    requires i <= |text|
    ensures r.Some? ==> i <= r.value < |text| && text[r.value] == c
    ensures forall k :: i <= k < |text| && (r.None? || k < r.value) ==> text[k] != c
    decreases |text| - i
  {
    if i == |text| then None
    else if text[i] == c then Some(i)
    else IndexOf(text, i + 1, c)
  }

  /** Where `.*` starting at `i` stops: the next newline, or the end. */
  function LineEnd(text: string, i: nat): (j: nat)
    requires i <= |text|
    ensures i <= j <= |text|
    ensures forall k :: i <= k < j ==> text[k] != '\n'
    ensures j == |text| || text[j] == '\n'
    decreases |text| - i
  {
    if i < |text| && text[i] != '\n' then LineEnd(text, i + 1) else i
  }

  /** The last newline in `text[lo..hi]`. */
  function LastNewline(text: string, lo: nat, hi: nat): (r: Option<nat>)
    requires lo <= hi <= |text|
    ensures r.Some? ==> lo <= r.value < hi && text[r.value] == '\n'
    ensures forall k :: lo <= k < hi && (r.None? || r.value < k) ==> text[k] != '\n'
    decreases hi - lo
  {
    if hi == lo then None
    else if text[hi - 1] == '\n' then Some(hi - 1)
    else LastNewline(text, lo, hi - 1)
  }

  /** `^` in multi-line mode. */
  predicate IsLineStart(text: string, p: nat)
    requires p <= |text|
  {
    p == 0 || text[p - 1] == '\n'
  }

  lemma SliceAvoids(text: string, i: nat, j: nat, c: char)
    requires i <= j <= |text|
    requires forall k :: i <= k < j ==> text[k] != c
    ensures c !in text[i..j]
  {
    assert forall k :: 0 <= k < j - i ==> text[i..j][k] == text[i + k];
  }
}
