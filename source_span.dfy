/** `findSpan`: converts a 1-based line/column range of a text into
    character offsets and the text between them. */
module SourceSpan {
  import opened JsString

  /** What `findSpan` returns. */
  datatype TextSpan = TextSpan(pos0: int, pos1: int, text: string)

  /** The number of newlines among the first `k` characters of `s`. */
  function NewlinesBefore(s: string, k: nat): nat
    requires k <= |s|
    decreases k
  {
    if k == 0 then 0 else NewlinesBefore(s, k - 1) + (if s[k - 1] == '\n' then 1 else 0)
  }

  /** One step to the next line: just past the next newline at or after `p`,
      or `p` itself when there is none. */
  function NextLine(text: string, p: int): int
  {
    var i := IndexOf(text, "\n", p);
    if i >= 0 then i + 1 else p
  }

  /** `n` steps to the next line from `p`. */
  function Advance(text: string, p: int, n: nat): int
    decreases n
  {
    if n == 0 then p else Advance(text, NextLine(text, p), n - 1)
  }

  /** Where the 1-based line `line` starts: `line - 1` steps from 0, no step
      for lines below 2. */
  function LineStart(text: string, line: int): int
  {
    Advance(text, 0, Max(line - 1, 0))
  }

  /** A position at the start of the text or just after a newline. */
  predicate AtLineStart(text: string, p: int)
  {
    p == 0 || (0 < p <= |text| && text[p - 1] == '\n')
  }

  lemma NewlineOccurs(s: string, k: int)
    ensures OccursAt(s, "\n", k) <==> 0 <= k < |s| && s[k] == '\n'
  {
    if 0 <= k < |s| {
      assert s[k..k + 1][0] == s[k];
    }
  }

  /** Characters other than newlines between `p` and `q` add no newline. */
  lemma {:induction false} NoNewlineBetween(s: string, p: nat, q: nat)
    requires p <= q <= |s|
    requires forall k :: p <= k < q ==> s[k] != '\n'
    ensures NewlinesBefore(s, q) == NewlinesBefore(s, p)
    decreases q - p
  {
    if p < q {
      NoNewlineBetween(s, p, q - 1);
    }
  }

  /** The first newline at or after `p` is at `i`: nothing between them. */
  lemma NoNewlineBefore(text: string, p: int, i: int)
    requires 0 <= p <= i <= |text|
    requires forall j :: p <= j < i ==> !OccursAt(text, "\n", j)
    ensures NewlinesBefore(text, i) == NewlinesBefore(text, p)
  {
    forall k | p <= k < i ensures text[k] != '\n' {
      NewlineOccurs(text, k);
    }
    NoNewlineBetween(text, p, i);
  }

  /** A prefix holds no more newlines than the whole text. */
  lemma {:induction false} NewlinesBound(s: string, q: nat)
    requires q <= |s|
    ensures NewlinesBefore(s, q) <= NewlinesBefore(s, |s|)
    decreases |s| - q
  {
    if q < |s| {
      NewlinesBound(s, q + 1);
    }
  }

  /** One step from a line start counts one more newline, unless there is
      no newline left, in which case every newline is already counted. */
  lemma NextLineCounts(text: string, p: int)
    requires AtLineStart(text, p)
    ensures AtLineStart(text, NextLine(text, p)) && p <= NextLine(text, p)
    ensures NewlinesBefore(text, NextLine(text, p)) == Min(NewlinesBefore(text, p) + 1, NewlinesBefore(text, |text|))
  {
    var i := IndexOf(text, "\n", p);
    if i >= 0 {
      NewlineOccurs(text, i);
      NoNewlineBefore(text, p, i);
      NewlinesBound(text, i + 1);
    } else {
      NoNewlineBefore(text, p, |text|);
    }
  }

  /** `n` steps from a line start count `n` more newlines, as far as the
      text has them. */
  lemma {:induction false} AdvanceCounts(text: string, p: int, n: nat)
    requires AtLineStart(text, p)
    ensures AtLineStart(text, Advance(text, p, n)) && p <= Advance(text, p, n)
    ensures NewlinesBefore(text, Advance(text, p, n)) == Min(NewlinesBefore(text, p) + n, NewlinesBefore(text, |text|))
    decreases n
  {
    NewlinesBound(text, p);
    if n > 0 {
      var q := NextLine(text, p);
      NextLineCounts(text, p);
      AdvanceCounts(text, q, n - 1);
      assert Advance(text, p, n) == Advance(text, q, n - 1);
      CappedStep(NewlinesBefore(text, p), NewlinesBefore(text, |text|), n);
    }
  }

  /** Counting one step and then `n - 1` more, each capped at `t`, is
      counting `n` steps capped at `t`. */
  lemma CappedStep(a: nat, t: nat, n: nat)
    requires a <= t && n >= 1
    ensures Min(Min(a + 1, t) + (n - 1), t) == Min(a + n, t)
  {
  }

  /** Line `line` starts at the start of the text or just after a newline,
      with `line - 1` newlines before it, or all of them when the text has
      fewer lines. */
  lemma LineStartCounts(text: string, line: int)
    ensures AtLineStart(text, LineStart(text, line))
    ensures NewlinesBefore(text, LineStart(text, line)) == Min(Max(line - 1, 0), NewlinesBefore(text, |text|))
  {
    AdvanceCounts(text, 0, Max(line - 1, 0));
  }

  /** Steps add up. */
  lemma {:induction false} AdvanceAdd(text: string, p: int, a: nat, b: nat)
    ensures Advance(text, Advance(text, p, a), b) == Advance(text, p, a + b)
    decreases a
  {
    if a > 0 {
      AdvanceAdd(text, NextLine(text, p), a - 1, b);
    }
  }

  /** `findSpan(text, line0, col0, line1, col1)`: the offset of column
      `col0` on line `line0`, the offset of column `col1` on line `line1` (on
      line `line0` when `line1` comes before it), and the text between. */
  method FindSpan(text: string, line0: int, col0: int, line1: int, col1: int) returns (r: TextSpan)
    ensures r.pos0 == LineStart(text, line0) + col0 - 1
    ensures r.pos1 == LineStart(text, Max(line0, line1)) + col1 - 1
    ensures r.text == Substring(text, r.pos0, r.pos1)
  {
    var pos0 := 0;
    var line := 1;
    while line < line0
      invariant line == 1 || line <= line0
      invariant pos0 == Advance(text, 0, line - 1)
      decreases line0 - line
    {
      var i := IndexOf(text, "\n", pos0);
      if i >= 0 {
        pos0 := i + 1;
      }
      AdvanceAdd(text, 0, line - 1, 1);
      line := line + 1;
    }
    assert line == Max(line0, 1);
    var pos1 := pos0;
    while line < line1
      invariant Max(line0, 1) <= line && (line == Max(line0, 1) || line <= line1)
      invariant pos1 == Advance(text, 0, line - 1)
      decreases line1 - line
    {
      var i := IndexOf(text, "\n", pos1);
      if i >= 0 {
        pos1 := i + 1;
      }
      AdvanceAdd(text, 0, line - 1, 1);
      line := line + 1;
    }
    assert line == Max(Max(line0, line1), 1);
    pos0 := pos0 + (col0 - 1);
    pos1 := pos1 + (col1 - 1);
    return TextSpan(pos0, pos1, Substring(text, pos0, pos1));
  }
}
