/** The string side of the incremental preview update: `simpleDiff` finds the
    changed character span between the previously rendered HTML and the new
    one, `expandSpan` widens a span to the enclosing `>`...`<` text run and
    decodes the decimal character references `&#N;` in it. */
module PreviewDiff {
  import opened Wrappers
  import opened JsString
  import opened JsNumber

  /** What `simpleDiff` returns: the first differing index, the last indices
      of the backward walk in the old and the new text, and the two
      `substring`s the source derives from them. */
  datatype DiffSpan = DiffSpan(start: nat, end0: int, end1: int, text0: string, text1: string)

  /** How far past the first difference the new text's suffix is probed. */
  const ProbeLength: nat := 100

  /** The first index at or after `i` where `text0` and `text1` disagree, or
      `|text0|` when `text1` continues `text0` from `i` on. */
  function FirstDiffFrom(text0: string, text1: string, i: nat): (r: nat)
    requires i <= |text0|
    ensures i <= r <= |text0|
    ensures forall k :: i <= k < r ==> CharAt(text1, k) == Some(text0[k])
    ensures r < |text0| ==> CharAt(text1, r) != Some(text0[r])
    decreases |text0| - i
  {
    if i == |text0| || CharAt(text1, i) != Some(text0[i]) then i
    else FirstDiffFrom(text0, text1, i + 1)
  }

  function FirstDiff(text0: string, text1: string): nat
  {
    FirstDiffFrom(text0, text1, 0)
  }

  /** Where the backward walk starts: both last indices when the texts end
      within `ProbeLength` of the difference, otherwise the probe position in
      the new text and the first place at or after `i` where the new text's
      suffix from there occurs in the old text (`None` when it does not). */
  function ProbeEnds(text0: string, text1: string, i: nat): Option<(int, int)>
    requires i < |text0| <= |text1|
  {
    if i + ProbeLength >= |text1| then Some((|text0| - 1, |text1| - 1))
    else
      var e0 := IndexOf(text0, Substr(text1, i + ProbeLength), i);
      if e0 < 0 then None else Some((e0, i + ProbeLength))
  }

  /** The backward walk: step both ends back together while the characters
      under them agree and the old end is past `i`. */
  function WalkBack(text0: string, text1: string, i: int, e0: int, e1: int): (r: (int, int))
    ensures r.1 - r.0 == e1 - e0
    ensures r.0 <= e0 && (i <= e0 ==> i <= r.0)
    ensures r.0 <= i || CharAt(text0, r.0) != CharAt(text1, r.1)
    ensures forall k :: r.0 < k <= e0 ==> CharAt(text0, k) == CharAt(text1, k + (e1 - e0))
    decreases e0 - i
  {
    if e0 > i && CharAt(text0, e0) == CharAt(text1, e1) then WalkBack(text0, text1, i, e0 - 1, e1 - 1)
    else (e0, e1)
  }

  /** `simpleDiff(text0, text1)` as a value; `None` is `null`. */
  function Diff(text0: string, text1: string): Option<DiffSpan>
  {
    if text0 == [] || text1 == [] then None
    else
      var i := FirstDiff(text0, text1);
      if i >= |text0| then None
      else if |text1| < |text0| then None
      else match ProbeEnds(text0, text1, i)
        case None => None
        case Some((e0, e1)) =>
          var (end0, end1) := WalkBack(text0, text1, i, e0, e1);
          Some(DiffSpan(i, end0, end1, Substring(text0, i, end0), Substring(text1, i, end1)))
  }

  /** The first difference is the index `i` where the texts first disagree. */
  lemma FirstDiffAt(text0: string, text1: string, i: nat)
    requires i < |text0| && i <= |text1| && text0[..i] == text1[..i]
    requires i == |text1| || text0[i] != text1[i]
    ensures FirstDiff(text0, text1) == i
  {
    forall k | 0 <= k < i ensures CharAt(text1, k) == Some(text0[k]) {
      assert text0[..i][k] == text1[..i][k];
    }
    assert CharAt(text1, i) != Some(text0[i]);
  }

  /** The first difference is `|text0|` exactly when `text0` is a prefix of
      `text1`. */
  lemma FirstDiffPrefix(text0: string, text1: string)
    ensures FirstDiff(text0, text1) == |text0| <==> text0 <= text1
  {
    var r := FirstDiff(text0, text1);
    if r == |text0| {
      assert |text0| <= |text1| by {
        if |text0| > 0 { assert CharAt(text1, |text0| - 1).Some?; }
      }
      assert text0 == text1[..|text0|];
    }
  }

  /** The cases in which `simpleDiff` gives `null`: an empty text, a new text
      shorter than the old one, an old text that is a prefix of the new one
      (equal texts included), or a probe suffix that is not found. */
  lemma DiffIsNull(text0: string, text1: string)
    ensures Diff(text0, text1).None? <==>
      (text0 == [] || text1 == [] || |text1| < |text0| || text0 <= text1
       || (var i := FirstDiff(text0, text1);
           i + ProbeLength < |text1| && IndexOf(text0, text1[i + ProbeLength..], i) < 0))
  {
    FirstDiffPrefix(text0, text1);
  }

  /** Where the backward walk starts lies at or after the first
      difference and inside both texts. */
  lemma ProbeEndsBounds(text0: string, text1: string, i: nat)
    requires i < |text0| <= |text1| && ProbeEnds(text0, text1, i).Some?
    ensures var p := ProbeEnds(text0, text1, i).value;
      i <= p.0 < |text0| && i <= p.1 < |text1| && p.0 <= p.1
  {
    if i + ProbeLength < |text1| {
      var e0 := IndexOf(text0, Substr(text1, i + ProbeLength), i);
      assert OccursAt(text0, Substr(text1, i + ProbeLength), e0);
    }
  }

  /** The backward walk from ends inside both texts, the old one at or
      before the new one, stays inside both texts with the same order. */
  lemma WalkBackEnds(text0: string, text1: string, i: nat, e0: int, e1: int)
    requires i <= e0 < |text0| && e1 < |text1| && e0 <= e1
    ensures var w := WalkBack(text0, text1, i, e0, e1);
      && i <= w.0 <= e0 && w.1 < |text1| && w.0 <= w.1
      && (w.0 == i || Some(text0[w.0]) != CharAt(text1, w.1))
      && forall k :: w.0 < k <= e0 ==> CharAt(text1, k + (e1 - e0)) == Some(text0[k])
  {
    var w := WalkBack(text0, text1, i, e0, e1);
    forall k | w.0 < k <= e0 ensures CharAt(text1, k + (e1 - e0)) == Some(text0[k]) {
      assert CharAt(text0, k) == CharAt(text1, k + (e1 - e0));
    }
  }

  /** A non-null `simpleDiff` result unfolded: the first difference lies
      inside the old text, the new text is no shorter, the probe succeeds,
      and the ends are where the backward walk stops. */
  lemma DiffUnfold(text0: string, text1: string)
    requires Diff(text0, text1).Some?
    ensures var i := FirstDiff(text0, text1);
      && i < |text0| <= |text1| && ProbeEnds(text0, text1, i).Some?
      && (var (e0, e1) := ProbeEnds(text0, text1, i).value;
          var w := WalkBack(text0, text1, i, e0, e1);
          Diff(text0, text1).value == DiffSpan(i, w.0, w.1, Substring(text0, i, w.0), Substring(text1, i, w.1)))
  {
  }

  /** A non-null `simpleDiff` result starts at the first difference: the
      texts agree before `start` and differ at it. */
  lemma DiffStart(text0: string, text1: string)
    requires Diff(text0, text1).Some?
    ensures var d := Diff(text0, text1).value;
      && d.start == FirstDiff(text0, text1) && d.start < |text0| <= |text1|
      && (forall k :: 0 <= k < d.start ==> text0[k] == text1[k])
      && text0[d.start] != text1[d.start]
  {
    var i := FirstDiff(text0, text1);
    forall k | 0 <= k < i ensures text0[k] == text1[k] {
      assert CharAt(text1, k) == Some(text0[k]);
    }
  }

  /** The ends of a non-null `simpleDiff` result: `start <= end0 < |text0|`;
      the backward walk kept `end1 - end0` at its offset from the probe,
      agreed on everything it passed, and stopped at `start` or at a
      disagreement. */
  lemma DiffEnds(text0: string, text1: string)
    requires Diff(text0, text1).Some?
    ensures var d := Diff(text0, text1).value;
      && d.start <= d.end0 < |text0| && d.end1 < |text1| && d.end0 <= d.end1
      && ProbeEnds(text0, text1, d.start).Some?
      && (var p := ProbeEnds(text0, text1, d.start).value;
          && d.end1 - d.end0 == p.1 - p.0
          && d.end0 <= p.0
          && forall k :: d.end0 < k <= p.0 ==> CharAt(text1, k + (p.1 - p.0)) == Some(text0[k]))
      && (d.end0 == d.start || Some(text0[d.end0]) != CharAt(text1, d.end1))
  {
    DiffUnfold(text0, text1);
    var i := FirstDiff(text0, text1);
    ProbeEndsBounds(text0, text1, i);
    var (e0, e1) := ProbeEnds(text0, text1, i).value;
    WalkBackEnds(text0, text1, i, e0, e1);
  }

  /** When both texts end within the probe, everything after the ends
      agrees. */
  lemma DiffTailsAgree(text0: string, text1: string)
    requires Diff(text0, text1).Some?
    requires Diff(text0, text1).value.start + ProbeLength >= |text1|
    ensures var d := Diff(text0, text1).value;
      text0[d.end0 + 1..] == text1[d.end1 + 1..]
  {
    var d := Diff(text0, text1).value;
    DiffEnds(text0, text1);
    var (e0, e1) := (|text0| - 1, |text1| - 1);
    assert ProbeEnds(text0, text1, d.start) == Some((e0, e1));
    var a, b := text0[d.end0 + 1..], text1[d.end1 + 1..];
    assert |a| == |b|;
    forall k | 0 <= k < |a| ensures a[k] == b[k] {
      assert CharAt(text1, d.end0 + 1 + k + (e1 - e0)) == Some(text0[d.end0 + 1 + k]);
    }
  }

  /** The texts of a non-null `simpleDiff` result are the `substring`s from
      `start` to the ends. */
  lemma DiffTexts(text0: string, text1: string)
    requires Diff(text0, text1).Some?
    ensures var d := Diff(text0, text1).value;
      && d.text0 == text0[d.start..d.end0] && d.text1 == Substring(text1, d.start, d.end1)
      && d.text1 == text1[d.start..d.end1]
  {
    DiffEnds(text0, text1);
  }

  /** When the probe is used, the change `simpleDiff` reports can leave
      part of the old text out. From `p + s + t` to `p + d + s`, with `d` of
      `ProbeLength` characters starting differently from `s` and a tail `t`
      of 1 to `ProbeLength` characters, the probe finds `s` at the first
      difference, so the backward walk does not move. The result reports
      the insertion of `d` alone. The tails after the ends then differ:
      `t` is never reported as removed. */
  lemma ProbeLeavesOldTail(p: string, s: string, t: string, d: string)
    requires |d| == ProbeLength && s != [] && d[0] != s[0] && 1 <= |t| <= ProbeLength
    ensures Diff(p + s + t, p + d + s) == Some(DiffSpan(|p|, |p|, |p| + ProbeLength, "", d))
    ensures (p + s + t)[|p| + 1..] != (p + d + s)[|p| + ProbeLength + 1..]
  {
    var text0, text1 := p + s + t, p + d + s;
    var i := |p|;
    assert text0[..i] == p == text1[..i];
    assert text0[i] == s[0] && text1[i] == d[0];
    FirstDiffAt(text0, text1, i);
    assert Substr(text1, i + ProbeLength) == s by {
      assert text1[i + ProbeLength..] == s;
    }
    assert OccursAt(text0, s, i) by {
      assert text0[i..i + |s|] == s;
    }
    IndexOfAt(text0, s, i, i);
    assert ProbeEnds(text0, text1, i) == Some((i, i + ProbeLength));
    assert WalkBack(text0, text1, i, i, i + ProbeLength) == (i, i + ProbeLength);
    assert Substring(text0, i, i) == "";
    assert Substring(text1, i, i + ProbeLength) == d by {
      assert text1[i..i + ProbeLength] == d;
    }
    assert |text0[i + 1..]| != |text1[i + ProbeLength + 1..]|;
  }

  /** `simpleDiff`, with its two loops: the forward scan for the first
      difference and, in `WalkBackLoop`, the backward walk from the probe. */
  method SimpleDiff(text0: string, text1: string) returns (r: Option<DiffSpan>)
    ensures r == Diff(text0, text1)
  {
    if text0 == [] || text1 == [] { return None; }
    var i := 0;
    while i < |text0|
      invariant 0 <= i <= |text0|
      invariant FirstDiffFrom(text0, text1, i) == FirstDiff(text0, text1)
    {
      if CharAt(text1, i) != Some(text0[i]) { break; }
      i := i + 1;
    }
    assert i == FirstDiff(text0, text1);
    if i >= |text0| { return None; }
    if |text1| < |text0| { return None; }
    var end0, end1;
    end1 := i + ProbeLength;
    if end1 >= |text1| {
      end1 := |text1| - 1;
      end0 := |text0| - 1;
    } else {
      var s := Substr(text1, end1);
      end0 := IndexOf(text0, s, i);
      if end0 < 0 { return None; }
    }
    assert ProbeEnds(text0, text1, i) == Some((end0, end1));
    end0, end1 := WalkBackLoop(text0, text1, i, end0, end1);
    return Some(DiffSpan(i, end0, end1, Substring(text0, i, end0), Substring(text1, i, end1)));
  }

  /** The backward walk of `simpleDiff`: step both ends back while the
      characters agree and the old end is past `i`. */
  method WalkBackLoop(text0: string, text1: string, i: int, e0: int, e1: int) returns (end0: int, end1: int)
    ensures (end0, end1) == WalkBack(text0, text1, i, e0, e1)
  {
    end0, end1 := e0, e1;
    while end0 > i
      invariant WalkBack(text0, text1, i, end0, end1) == WalkBack(text0, text1, i, e0, e1)
      decreases end0 - i
    {
      if CharAt(text0, end0) != CharAt(text1, end1) { break; }
      end0 := end0 - 1;
      end1 := end1 - 1;
    }
  }

  /** The markup delimiters that end a text run. */
  predicate IsDelim(c: Option<char>)
  {
    c == Some('<') || c == Some('>')
  }

  /** Where the backward walk of `expandSpan` stops from `p`: the greatest
      `q <= p` that is at most 0 or just after a delimiter, with no delimiter
      in `[q, p)`. */
  function BackStop(text: string, p: int): (q: int)
    ensures q <= p && (p >= 0 ==> q >= 0)
    ensures forall k :: q <= k < p ==> !IsDelim(CharAt(text, k))
    ensures q <= 0 || IsDelim(CharAt(text, q - 1))
    decreases p
  {
    if p > 0 && !IsDelim(CharAt(text, p - 1)) then BackStop(text, p - 1) else p
  }

  /** Where the forward walk of `expandSpan` stops from `p`: the least
      `q > p` that is the end of the text or a delimiter, with no delimiter
      in `(p, q)`; `p` itself once `p` is at or past the end. */
  function FwdStop(text: string, p: int): (q: int)
    ensures p < |text| ==> p < q <= |text|
    ensures p >= |text| ==> q == p
    ensures forall k :: p < k < q ==> !IsDelim(CharAt(text, k))
    ensures q >= |text| || IsDelim(CharAt(text, q))
    decreases |text| - p
  {
    if p >= |text| then p
    else if IsDelim(CharAt(text, p + 1)) then p + 1
    else FwdStop(text, p + 1)
  }

  /** The backward walk succeeds: it did not stop just after a `<`. */
  predicate BackOk(text: string, p: int)
  {
    var q := BackStop(text, p);
    !(q > 0 && CharAt(text, q - 1) == Some('<'))
  }

  /** The forward walk succeeds: it did not stop on a `>`. */
  predicate FwdOk(text: string, p: int)
  {
    CharAt(text, FwdStop(text, p)) != Some('>')
  }

  /** The expanded span `(pos0, pos1)` of `expandSpan`, or `None` when it
      returns false. */
  function Expand(text: string, pos0: int, pos1: int): Option<(int, int)>
  {
    if BackOk(text, pos0) && FwdOk(text, pos1) then Some((BackStop(text, pos0), FwdStop(text, pos1)))
    else None
  }

  /** Walking back from `p` meets a `<` before any `>`. */
  ghost predicate MeetsOpenBefore(text: string, p: int)
  {
    exists k :: 0 <= k < p && CharAt(text, k) == Some('<') && NoDelimBetween(text, k, p)
  }

  /** Walking forward from `p` meets a `>` before any `<`. */
  ghost predicate MeetsCloseAfter(text: string, p: int)
  {
    exists k :: p < k && CharAt(text, k) == Some('>') && NoDelimBetween(text, p, k)
  }

  /** No delimiter strictly between `a` and `b`. */
  ghost predicate NoDelimBetween(text: string, a: int, b: int)
  {
    forall j :: a < j < b ==> !IsDelim(CharAt(text, j))
  }

  /** `expandSpan` fails exactly when walking back meets `<` before `>`, or
      walking forward meets `>` before `<`. */
  lemma ExpandFails(text: string, pos0: int, pos1: int)
    ensures Expand(text, pos0, pos1).None? <==> (MeetsOpenBefore(text, pos0) || MeetsCloseAfter(text, pos1))
  {
    var q0 := BackStop(text, pos0);
    var q1 := FwdStop(text, pos1);
    if !BackOk(text, pos0) {
      assert NoDelimBetween(text, q0 - 1, pos0);
      assert MeetsOpenBefore(text, pos0);
    }
    if !FwdOk(text, pos1) {
      assert NoDelimBetween(text, pos1, q1);
      assert MeetsCloseAfter(text, pos1);
    }
    if MeetsOpenBefore(text, pos0) {
      var k :| 0 <= k < pos0 && CharAt(text, k) == Some('<') && NoDelimBetween(text, k, pos0);
      assert q0 - 1 == k;
    }
    if MeetsCloseAfter(text, pos1) {
      var k :| pos1 < k && CharAt(text, k) == Some('>') && NoDelimBetween(text, pos1, k);
      assert q1 == k;
    }
  }

  /** A successful expansion: `pos0` has not increased and stops at 0 or just
      after a `>`; `pos1` has not decreased, moved when it was inside the
      text, and stops on a `<` or at the end; the text between the walks'
      starting points and their stops holds no delimiter. */
  lemma ExpandBounds(text: string, pos0: int, pos1: int)
    requires Expand(text, pos0, pos1).Some?
    ensures var (q0, q1) := Expand(text, pos0, pos1).value;
      && q0 <= pos0 && (pos0 >= 0 ==> q0 >= 0)
      && (q0 <= 0 || text[q0 - 1] == '>')
      && pos1 <= q1 && (pos1 < |text| ==> pos1 < q1 <= |text|)
      && (q1 >= |text| || text[q1] == '<')
      && (forall k :: q0 <= k < pos0 ==> !IsDelim(CharAt(text, k)))
      && (forall k :: pos1 < k < q1 ==> !IsDelim(CharAt(text, k)))
  {
  }

  /** The span object `expandSpan` updates in place; `textContent` is
      `undefined` (`None`) until a successful expansion sets it. */
  class Span {
    var pos0: int
    var pos1: int
    var text: string
    var textContent: Option<string>

    constructor (pos0: int, pos1: int, text: string)
      ensures this.pos0 == pos0 && this.pos1 == pos1 && this.text == text
      ensures textContent == None
    {
      this.pos0 := pos0;
      this.pos1 := pos1;
      this.text := text;
      textContent := None;
    }
  }

  /** `expandSpan(text, span)`: the two walks update `span.pos0` and
      `span.pos1` in place; on success the span's text and decoded text are
      set, on failure the walk that failed leaves its position where it
      stopped. */
  method ExpandSpan(text: string, span: Span, fromCharCode: nat -> char) returns (ok: bool)
    modifies span
    ensures span.pos0 == BackStop(text, old(span.pos0))
    ensures span.pos1 == if BackOk(text, old(span.pos0)) then FwdStop(text, old(span.pos1)) else old(span.pos1)
    ensures ok == Expand(text, old(span.pos0), old(span.pos1)).Some?
    ensures ok ==> span.text == Substring(text, span.pos0, span.pos1)
    ensures ok ==> span.textContent == Some(DecodeCharRefs(span.text, fromCharCode))
    ensures !ok ==> span.text == old(span.text) && span.textContent == old(span.textContent)
  {
    while span.pos0 > 0
      invariant BackStop(text, span.pos0) == BackStop(text, old(span.pos0))
      invariant span.pos1 == old(span.pos1) && span.text == old(span.text)
      invariant span.textContent == old(span.textContent)
      decreases span.pos0
    {
      var c := CharAt(text, span.pos0 - 1);
      if c == Some('>') { break; }
      if c == Some('<') { return false; }
      span.pos0 := span.pos0 - 1;
    }
    ghost var p1 := span.pos1;
    while span.pos1 < |text|
      invariant FwdStop(text, span.pos1) == FwdStop(text, p1)
      invariant span.pos0 == BackStop(text, old(span.pos0)) && BackOk(text, old(span.pos0))
      invariant span.text == old(span.text) && span.textContent == old(span.textContent)
      decreases |text| - span.pos1
    {
      span.pos1 := span.pos1 + 1;
      var c := CharAt(text, span.pos1);
      if c == Some('<') { break; }
      if c == Some('>') { return false; }
    }
    span.text := Substring(text, span.pos0, span.pos1);
    span.textContent := Some(DecodeCharRefs(span.text, fromCharCode));
    return true;
  }

  /** `s.replace(/&#(\d+);/g, ...)`: every decimal character reference
      `&#N;`, found left to right without overlap, becomes the character
      `fromCharCode(N)`; everything else is copied. */
  function DecodeCharRefs(s: string, fromCharCode: nat -> char): string
    decreases |s|
  {
    if s == [] then []
    else if |s| >= 2 && s[0] == '&' && s[1] == '#' && RefLength(s) > 0 then
      var n := RefLength(s);
      [fromCharCode(RadixValue(s[2..2 + n], 10))] + DecodeCharRefs(s[3 + n..], fromCharCode)
    else [s[0]] + DecodeCharRefs(s[1..], fromCharCode)
  }

  /** For `s` starting with `&#`: the number of digits of the reference when
      the maximal digit run is non-empty and followed by `;`, else 0. */
  function RefLength(s: string): (n: nat)
    requires |s| >= 2
    ensures n > 0 ==> 3 + n <= |s| && AllDigitsIn(s[2..2 + n], 10) && s[2 + n] == ';'
  {
    var n := DigitRun(s[2..], 10);
    assert s[2..][..n] == s[2..2 + n];
    if n >= 1 && 2 + n < |s| && s[2 + n] == ';' then n else 0
  }

  /** Text without `&` is left alone. */
  lemma {:induction false} DecodeWithoutAmpersand(s: string, fromCharCode: nat -> char)
    requires forall k :: 0 <= k < |s| ==> s[k] != '&'
    ensures DecodeCharRefs(s, fromCharCode) == s
  {
    if s != [] { DecodeWithoutAmpersand(s[1..], fromCharCode); }
  }

  /** Decoding never lengthens the text. */
  lemma {:induction false} DecodeShrinks(s: string, fromCharCode: nat -> char)
    ensures |DecodeCharRefs(s, fromCharCode)| <= |s|
    decreases |s|
  {
    if s == [] {
    } else if |s| >= 2 && s[0] == '&' && s[1] == '#' && RefLength(s) > 0 {
      DecodeShrinks(s[3 + RefLength(s)..], fromCharCode);
    } else {
      DecodeShrinks(s[1..], fromCharCode);
    }
  }

  /** Any non-empty digit run `d`, leading zeros included, between `&#` and
      `;` decodes to `fromCharCode` of its decimal value, and decoding goes
      on after the `;`. */
  lemma DecodeDigits(d: string, rest: string, fromCharCode: nat -> char)
    requires |d| >= 1 && AllDigitsIn(d, 10)
    ensures DecodeCharRefs("&#" + d + ";" + rest, fromCharCode)
         == [fromCharCode(RadixValue(d, 10))] + DecodeCharRefs(rest, fromCharCode)
  {
    var s := "&#" + d + ";" + rest;
    assert s[2..] == d + (";" + rest);
    DigitRunPrefix(d, ";" + rest, 10);
    assert s[2..2 + |d|] == d;
    assert s[2 + |d|] == ';';
    assert RefLength(s) == |d|;
    assert s[3 + |d|..] == rest;
  }

  /** The reference `&#N;` written with the numeral of `n` decodes to
      `fromCharCode(n)`, and decoding goes on after it. */
  lemma DecodeCharRef(n: nat, rest: string, fromCharCode: nat -> char)
    ensures DecodeCharRefs("&#" + NatToDecimal(n) + ";" + rest, fromCharCode)
         == [fromCharCode(n)] + DecodeCharRefs(rest, fromCharCode)
  {
    var d := NatToDecimal(n);
    DecimalRoundTrip(n);
    RadixValueOfDecimal(d);
    DecodeDigits(d, rest, fromCharCode);
  }

  /** Text in which no `&#` is followed by a decimal digit is copied
      unchanged: hexadecimal references `&#x41;` and named references
      `&amp;` are not decoded. */
  lemma {:induction false} DecodeWithoutHashDigit(s: string, fromCharCode: nat -> char)
    requires forall k :: 0 <= k && k + 2 < |s| && s[k] == '&' && s[k + 1] == '#'
               ==> DigitOf(s[k + 2], 10).None?
    ensures DecodeCharRefs(s, fromCharCode) == s
  {
    if s != [] {
      if |s| >= 2 && s[0] == '&' && s[1] == '#' {
        assert RefLength(s) == 0 by {
          if |s| > 2 { assert DigitOf(s[2], 10).None?; }
        }
      }
      DecodeWithoutHashDigit(s[1..], fromCharCode);
    }
  }

  /** `&#065;` has a leading zero and still decodes to character 65. */
  lemma DecodeLeadingZero(fromCharCode: nat -> char)
    ensures DecodeCharRefs("&#065;", fromCharCode) == [fromCharCode(65)]
  {
    assert "&#065;" == "&#" + "065" + ";" + "";
    assert AllDigitsIn("065", 10);
    assert "065"[..2] == "06" && "06"[..1] == "0" && "0"[..0] == "";
    assert RadixValue("065", 10) == 65;
    DecodeDigits("065", "", fromCharCode);
  }

  /** A hexadecimal and a named reference are left as written. */
  lemma DecodeHexAndNamed(fromCharCode: nat -> char)
    ensures DecodeCharRefs("&#x41;&amp;", fromCharCode) == "&#x41;&amp;"
  {
    var h := "&#x41;&amp;";
    assert h[2] == 'x';
    DecodeWithoutHashDigit(h, fromCharCode);
  }
}
