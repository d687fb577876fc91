/** The JavaScript string operations the preview code relies on, with their
    out-of-range behaviour written out: indexing past the end yields
    `undefined`, `indexOf` clamps its start, `substring` clamps and swaps its
    arguments, `substr` counts a negative start from the end. */
module JsString {
  import opened Wrappers

  function Min(a: int, b: int): int { if a <= b then a else b }

  function Max(a: int, b: int): int { if a <= b then b else a }

  /** `x` forced into `[lo, hi]`. */
  function Clamp(x: int, lo: int, hi: int): int
    requires lo <= hi
  {
    if x < lo then lo else if x > hi then hi else x
  }

  /** `s[i]`: the character at `i`, or `undefined` (`None`) outside the string.
      `undefined` differs from every character. */
  function CharAt(s: string, i: int): Option<char>
  {
    if 0 <= i < |s| then Some(s[i]) else None
  }

  /** `pat` occurs in `s` starting at index `k`. */
  predicate OccursAt(s: string, pat: string, k: int)
  {
    0 <= k && k + |pat| <= |s| && s[k..k + |pat|] == pat
  }

  /** `s.indexOf(pat, from)`: the least index at or after the clamped start
      where `pat` occurs, or -1 when there is none. */
  function IndexOf(s: string, pat: string, from: int): (r: int)
    ensures r == -1 || (Clamp(from, 0, |s|) <= r && OccursAt(s, pat, r))
    ensures forall k :: Clamp(from, 0, |s|) <= k && (r == -1 || k < r) ==> !OccursAt(s, pat, k)
    decreases |s| - Clamp(from, 0, |s|)
  {
    var k := Clamp(from, 0, |s|);
    if k + |pat| > |s| then -1
    else if s[k..k + |pat|] == pat then k
    else IndexOf(s, pat, k + 1)
  }

  /** `indexOf` finds `k` when `pat` occurs there and nowhere between the
      start and `k`. */
  lemma IndexOfAt(s: string, pat: string, from: int, k: int)
    requires 0 <= from <= k && OccursAt(s, pat, k)
    requires forall j :: from <= j < k ==> !OccursAt(s, pat, j)
    ensures IndexOf(s, pat, from) == k
  {
  }

  /** `s.substring(a, b)`: both ends clamped into `[0, |s|]`, then swapped if
      they are out of order. */
  function Substring(s: string, a: int, b: int): string
  {
    var x, y := Clamp(a, 0, |s|), Clamp(b, 0, |s|);
    if x <= y then s[x..y] else s[y..x]
  }

  /** `s.substr(start)` with no length: the rest of `s` from `start`, a
      negative `start` counting back from the end. */
  function Substr(s: string, start: int): string
  {
    var x := if start < 0 then Max(|s| + start, 0) else Min(start, |s|);
    s[x..]
  }
}
