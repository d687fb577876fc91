# Madoko web client: preview update and source/preview sync

This project models the core of the Madoko web editor's UI script
(`web/client/scripts/ui.js`). It covers two things the editor does with the
rendered preview.

- The incremental preview update. After a re-render, `viewHTML` compares the
  new HTML with the previous one using `simpleDiff`. It widens the changed
  range to a whole text run using `expandSpan`, finds the one text node of
  the live preview that holds the old run using `findTextNode`, and rewrites
  only that node. If any step fails it re-renders the whole preview.
- The scroll and double-click sync.
  - `findElemAtLine` searches the preview's element tree for the elements
    whose `data-line` attributes bracket an editor line.
  - `findLocation` climbs from a clicked element towards the root and reads
    a source location from the first usable `data-line` it meets.

Alongside these come `findSpan` (line and column to offsets), the spinner
counter `showSpinner`, the staleness test the render scheduler polls, and
`getModeFromExt`.

## Files and modules

- `wrappers.dfy` (`Wrappers`): `Option`. `None` stands for `null`,
  `undefined` or NaN, as the context says.
- `js_string.dfy` (`JsString`): the JavaScript string operations the code
  uses, with their clamping rules.
  - `s[i]` (`CharAt`) gives `undefined` outside the string.
  - `indexOf` clamps its start.
  - `substring` clamps and swaps its ends.
  - `substr(start)` counts a negative start from the end.
- `js_number.dfy` (`JsNumber`): `parseInt(s)` without a radix.
  - It skips JavaScript white space, reads an optional sign, and switches to
    base 16 on a `0x`/`0X` prefix.
  - It reads the longest run of digits, and gives NaN (`None`) when that run
    is empty.
  - Decimal numerals are defined here too, with their round trip.
- `preview_diff.dfy` (`PreviewDiff`):
  - `simpleDiff`, as the function `Diff` and the method `SimpleDiff` with its
    loops;
  - `expandSpan`, as the function `Expand` and the method `ExpandSpan`, which
    updates a `Span` object in place;
  - the `&#N;` character-reference decoding `expandSpan` applies.
- `dom.dfy` (`Dom`): the live preview as a tree of text and element nodes
  addressed by child-index paths; `findTextNode`; setting one text node's
  content.
- `preview.dfy` (`Preview`):
  - `QuickTexts`, `QuickPatch` and `ViewOutcome`: the guards of `viewHTML`'s
    quick path, its patch, and the outcome of a call (full, quick, or the
    throw on a `null` preview body), as values;
  - the `UI` class with `viewHTML`, the full update and the staleness
    predicate;
  - the `Spinner` class with `showSpinner` and its timer;
  - `getModeFromExt`.
- `preview_examples.dfy` (`PreviewExamples`): worked cases of the quick path,
  proved on concrete texts.
- `source_span.dfy` (`SourceSpan`): `findSpan`.
- `line_anchor.dfy` (`LineAnchor`): `findElemAtLine`.
- `location.dfy` (`Location`): `findLocation`, with a literal model of its
  regular expression `/(?:^|;)(?:([^:;]+):)?(\d+)$/`.

## How the model reads the code

- `viewHTML`'s quick path tests `/[<>"]/.test(dif.text)`. `simpleDiff`'s
  result never has a `text` field, so the test sees the string `"undefined"`
  and never fires.
  - The model keeps the test as written (`Preview.HasMarkup(UndefinedText)`).
  - It proves that the test never rejects.
  - It proves that an edit inserting markup inside a text run is applied as
    literal text: `PreviewExamples.SplitPatchedAsText` shows `<p>ab</p>`
    becoming `<p>a</p><p>b</p>` by writing `a</p><p>b` into the text node.
  - The test at ui.js:591 is evidently meant to send changes that touch
    markup to the full update. Because `dif.text` is `undefined`, it never
    does.
- The uniqueness check of the quick path compares only the FIRST occurrence
  of the old text with where the span starts. `findTextNode` returns the
  first matching text node in document order. The model does the same, and
  proves that the node patched is that first one.
- An edit with no shared prefix (`"A"` to `"B"`) can still take the quick
  path (`PreviewExamples.NoSharedPrefixPatched`). `simpleDiff` only
  rejects empty texts, a shorter new text, an old text that is a prefix of
  the new one, and a probe suffix (the new text from 100 characters past
  the first difference) that does not occur in the old text at or after the
  first difference (ui.js:503-504). `PreviewDiff.DiffIsNull` states all
  these cases.
- When the probe is used, the reported change can leave part of the old
  text out. The probe suffix is looked up in the old text from the first
  difference on (ui.js:502-503). If it also occurs there in the old text,
  the backward walk cannot move. Take `p+s+t` to `p+d+s`, with a
  100-character `d` that starts differently from `s` and a tail `t` of 1
  to 100 characters. The result is then the insertion of `d` at `|p|`, and
  `t` is never reported as removed (`PreviewDiff.ProbeLeavesOldTail`). So
  `PreviewDiff.DiffTailsAgree`, which says the texts agree after the ends,
  holds only when the probe is not used.
- `viewHTML`'s last branch, taken when there is no previous HTML, calls
  `updateFull()` but returns `undefined`. Callers only test the result for
  truth, so the model reports `Full` (false) for the slow update throughout.
- `viewBody` is `null` from the UI's construction (ui.js:195) until the
  first preview frame has loaded, 50 ms after its `DOMContentLoaded`
  (ui.js:570-573). An edit that passes every guard before `findTextNode`
  in that window makes `findTextNode(null, ...)` read `null.nodeType`
  (ui.js:545, 599), which throws a `TypeError`. The model has this outcome
  as `Preview.NullBody`. The call then records nothing, so `html0` keeps
  its old value (`PreviewExamples.EditAroundLoad`).
- An empty `html0` stands for both `undefined` and `""`, which the code
  treats alike. An empty `fname` stands for a missing file name for the same
  reason.
- `parseInt` is modelled with the hexadecimal prefix that JavaScript's
  `parseInt` honours: a `data-line` of `0x1f` anchors line 31.
- `findElemAtLine` is proved for any anchor test `anchorOf` from elements to
  lines. `LineAnchor.FindElemAtLine` instantiates it with the code's test,
  `LineAnchor.AnchorTest(fname)`. That test reads the `data-line` text after
  the first `fname:`, then `parseInt`. The lemmas about `AnchorLine` state
  what that test gives.
- `findLocation`'s test `line && line !== NaN` is true exactly when `line` is
  a non-zero number, so a `data-line` reading as 0 lets the walk go on
  upwards.
- `findSpan` runs its second loop on from the line where the first one
  stopped. When `line1 < line0`, `pos1` is the start of line `line0`, not of
  line `line1`. `SourceSpan.FindSpan` states this as
  `LineStart(text, Max(line0, line1))`.

## Model

| member | source | states |
|---|---|---|
| JsString.CharAt | web/client/scripts/ui.js:490 | defines `s[i]`: the character, or `undefined` outside the string; used by `FirstDiffFrom`, `WalkBack` and the expansion walks |
| JsString.Substring | web/client/scripts/ui.js:519-520 | defines `substring`, clamping both ends and swapping them when out of order; `PreviewDiff.DiffTexts` shows no clamp or swap is needed in `simpleDiff` |
| JsString.Substr | web/client/scripts/ui.js:502 | defines `substr(start)`, counting a negative start from the end; see `PreviewDiff.ProbeEndsBounds` and `LineAnchor.LineTextAfterFileName` |
| JsString.IndexOf | web/client/scripts/ui.js:469 | `indexOf` gives -1 or an index at or after the clamped start where the pattern occurs, with no occurrence between the start and the result |
| JsString.IndexOfAt | web/client/scripts/ui.js:596 | a pattern occurring at `k` and nowhere between the start and `k` is found at `k` |
| JsNumber.ParseInt | web/client/scripts/ui.js:967 | defines `parseInt` without a radix: white space skipped, a sign, a `0x` prefix, the longest digit run, NaN when it is empty; see `ParseIntOfNumeral`, `ParseIntOfDigits`, `ParseIntSkipsSpace`, `ParseIntEmptyIsNaN`, `ParseIntMinus` |
| JsNumber.DigitRun | web/client/scripts/ui.js:967 | the digit run `parseInt` reads is the longest prefix of digits of the radix |
| JsNumber.TrimStart | web/client/scripts/ui.js:967 | what `parseInt` skips is a prefix of the text made only of white space, and what remains does not start with white space |
| JsNumber.DecimalRoundTrip | web/client/scripts/ui.js:967 | the decimal numeral of `n` is a non-empty digit string whose value is `n` |
| JsNumber.UnsignedDigitPrefix | web/client/scripts/ui.js:967 | digits followed by a non-digit, and not a `0x` prefix, read as their decimal value |
| JsNumber.ParseIntDigitPrefix | web/client/scripts/ui.js:967 | `parseInt` of decimal digits followed by a non-digit, and not a `0x` prefix, is the digits' value |
| JsNumber.DigitRunPrefix | web/client/scripts/ui.js:967 | the digit run of `d + rest` is all of `d` when `rest` does not continue it |
| JsNumber.ParseIntNegated | web/client/scripts/ui.js:967 | a leading `-` negates the digits' value |
| JsNumber.ParseIntOfNumeral | web/client/scripts/ui.js:967 | `parseInt` reads back the numeral of `n` |
| JsNumber.ParseIntOfNegatedNumeral | web/client/scripts/ui.js:967 | `parseInt` reads the numeral of `n` with a `-` in front as `-n` |
| JsNumber.ParseIntMinus | web/client/scripts/ui.js:967 | after a `-`, `parseInt` negates what it reads from the rest, and a lone `-` is NaN |
| JsNumber.ParseIntOfDigits | web/client/scripts/ui.js:1105 | `parseInt` of a non-empty decimal digit string is its value |
| JsNumber.ParseIntSkipsSpace | web/client/scripts/ui.js:967 | a leading white-space character does not change `parseInt`'s result |
| JsNumber.ParseIntEmptyIsNaN | web/client/scripts/ui.js:962-967 | `parseInt("")`, the `dataline = ""` case, is NaN |
| PreviewDiff.Diff | web/client/scripts/ui.js:486-522 | defines `simpleDiff`'s result (`None` for `null`); see `DiffIsNull`, `DiffStart`, `DiffEnds`, `DiffTexts`, `DiffTailsAgree`, `ProbeLeavesOldTail`, and `SimpleDiff` for the loops |
| PreviewDiff.ProbeEnds | web/client/scripts/ui.js:495-504 | defines where the backward walk starts (the 100-character probe); see `ProbeEndsBounds` |
| PreviewDiff.FirstDiffFrom | web/client/scripts/ui.js:489-491 | the forward scan stops at the first index where the texts disagree, `undefined` past the end of the new text counting as a disagreement, or at the old text's length |
| PreviewDiff.WalkBack | web/client/scripts/ui.js:505-509 | the backward walk keeps the two ends at a constant offset, agrees on every character it passes, and stops at the start or at a disagreement |
| PreviewDiff.FirstDiffAt | web/client/scripts/ui.js:489-491 | the first difference is the index where the texts first disagree |
| PreviewDiff.FirstDiffPrefix | web/client/scripts/ui.js:492 | the scan runs off the end exactly when the old text is a prefix of the new one |
| PreviewDiff.DiffIsNull | web/client/scripts/ui.js:486-513 | `simpleDiff` is null exactly for an empty text, a shorter new text, an old text that is a prefix of the new one, or a probe suffix not found in the old text |
| PreviewDiff.ProbeEndsBounds | web/client/scripts/ui.js:495-504 | the backward walk starts at or after the first difference and inside both texts, with the old end at or before the new one |
| PreviewDiff.DiffStart | web/client/scripts/ui.js:486-492 | a non-null result starts at the first difference: the texts agree before `start` and differ at it |
| PreviewDiff.WalkBackEnds | web/client/scripts/ui.js:506-510 | from ends inside both texts with the old at or before the new, the walk stays inside both, keeps that order, stops at the first difference or a disagreement, and agrees on what it passed |
| PreviewDiff.DiffUnfold | web/client/scripts/ui.js:486-522 | unfolding step of `Diff`: a non-null result has its first difference inside the old text, a new text no shorter, a successful probe, and the walk's ends |
| PreviewDiff.DiffEnds | web/client/scripts/ui.js:494-510 | `start <= end0 <= end1`, `end0 < |text0|`, `end1 < |text1|`, the ends keep the probe's offset, everything walked over agrees, and the walk stopped at `start` or at a disagreement |
| PreviewDiff.ProbeLeavesOldTail | web/client/scripts/ui.js:500-510 | with the probe in use, from `p+s+t` to `p+d+s` (`d` of 100 characters, `t` of 1 to 100) the result is the insertion of `d` alone, and the tails after the ends differ |
| PreviewDiff.DiffTailsAgree | web/client/scripts/ui.js:497-499 | when the probe reaches past the new text's end, the texts agree after the ends |
| PreviewDiff.DiffTexts | web/client/scripts/ui.js:514-521 | the result's texts are the substrings from `start` to the ends; `substring` needs no swap or clamp there |
| PreviewDiff.SimpleDiff | web/client/scripts/ui.js:486-522 | the method with the forward scan and backward walk loops computes `Diff` |
| PreviewDiff.WalkBackLoop | web/client/scripts/ui.js:505-509 | the backward walk loop computes `WalkBack` |
| PreviewDiff.Expand | web/client/scripts/ui.js:524-537 | defines `expandSpan`'s outcome on the positions (`None` for `false`); see `ExpandFails`, `ExpandBounds`, and `ExpandSpan` for the loops |
| PreviewDiff.BackStop | web/client/scripts/ui.js:525-530 | the backward walk stops at the greatest position at or before the start that is 0 or just after a `<` or `>`, with no delimiter passed |
| PreviewDiff.FwdStop | web/client/scripts/ui.js:531-536 | the forward walk moves at least once inside the text and stops at the first `<`, `>` or the end after the start |
| PreviewDiff.ExpandFails | web/client/scripts/ui.js:524-536 | `expandSpan` fails exactly when walking back meets `<` before `>` or walking forward meets `>` before `<` |
| PreviewDiff.ExpandBounds | web/client/scripts/ui.js:524-536 | a successful expansion widens the span to just after a `>` (or 0) and onto a `<` (or the end), passing no delimiter |
| PreviewDiff.Span.constructor | web/client/scripts/ui.js:591-592 | a new span holds the positions and text given, with no `textContent` yet |
| PreviewDiff.ExpandSpan | web/client/scripts/ui.js:524-542 | the loops move `pos0` to `BackStop` and `pos1` to `FwdStop` (unless the first walk failed); the result says whether `Expand` succeeds; on success `text` is the substring and `textContent` its decoding; on failure neither changes |
| PreviewDiff.DecodeCharRefs | web/client/scripts/ui.js:538-540 | defines the `&#N;` replacement; see `DecodeDigits`, `DecodeWithoutHashDigit`, `DecodeWithoutAmpersand`, `DecodeShrinks`, `DecodeCharRef` |
| PreviewDiff.RefLength | web/client/scripts/ui.js:538 | a recognised reference `&#digits;` has at least one digit and ends in `;` |
| PreviewDiff.DecodeWithoutAmpersand | web/client/scripts/ui.js:538-540 | text without `&` decodes to itself |
| PreviewDiff.DecodeShrinks | web/client/scripts/ui.js:538-540 | decoding never lengthens the text |
| PreviewDiff.DecodeCharRef | web/client/scripts/ui.js:538-540 | `&#N;` written with the shortest numeral of `N` decodes to `fromCharCode(N)` and decoding continues after it |
| PreviewDiff.DecodeDigits | web/client/scripts/ui.js:538-540 | `&#d;` for any non-empty digit run `d`, leading zeros included, decodes to `fromCharCode` of the decimal value of `d`, and decoding continues after the `;` |
| PreviewDiff.DecodeWithoutHashDigit | web/client/scripts/ui.js:538-540 | text in which no `&#` is followed by a decimal digit decodes to itself, so hexadecimal (`&#x41;`) and named (`&amp;`) references are copied unchanged |
| PreviewDiff.DecodeLeadingZero | web/client/scripts/ui.js:538-540 | `&#065;` decodes to `fromCharCode(65)` |
| PreviewDiff.DecodeHexAndNamed | web/client/scripts/ui.js:538-540 | `&#x41;&amp;` decodes to itself |
| Dom.FindTextNode | web/client/scripts/ui.js:544-555 | defines `findTextNode` as a path (`None` for `null`); see `FindTextNodeSpec` |
| Dom.FindTextNodeSound | web/client/scripts/ui.js:544-555 | a path `findTextNode` returns leads to a text node with the content sought |
| Dom.FindInChildrenSound | web/client/scripts/ui.js:549-552 | the child loop's result is a path into one of the children at or after the loop's index, to a text node with the content sought |
| Dom.FindTextNodeFirst | web/client/scripts/ui.js:544-555 | every text node with the content sought is found, or one before it in document order |
| Dom.FindInChildrenFirst | web/client/scripts/ui.js:549-552 | the child loop finds a match in child `j` or one before it |
| Dom.FindTextNodeSpec | web/client/scripts/ui.js:544-555 | `findTextNode` is null exactly when no text node has the content, and otherwise returns the first one in document order |
| Dom.ReplaceText | web/client/scripts/ui.js:603 | defines `elem.textContent = …` on the node at a path; see `ReplaceTextFrame` |
| Dom.ReplaceTextFrame | web/client/scripts/ui.js:603 | setting one text node's content changes that node only: other paths see what they saw, and the tree's shape is kept |
| Preview.HasMarkup | web/client/scripts/ui.js:591 | defines `/[<>"]/.test`; see `MarkupTestNeverRejects` |
| Preview.QuickTexts | web/client/scripts/ui.js:589-597 | defines the guards of the quick path before the tree search; see `QuickTextsConditions` |
| Preview.QuickPatch | web/client/scripts/ui.js:589-606 | defines the quick path's patch; see `QuickPatchConditions` |
| Preview.ViewOutcome | web/client/scripts/ui.js:557-611 | defines the outcome of `viewHTML`: full, quick, or the throw on a `null` body; see `NullBodyThrows`, `QuickPatchNeedsGrowingChange`, and `UI.ViewHTML` for the method |
| Preview.MarkupTestNeverRejects | web/client/scripts/ui.js:591 | the markup test, run on `undefined`, never fires |
| Preview.NullBodyThrows | web/client/scripts/ui.js:544-545 | with a `null` preview body, `viewHTML` throws exactly when some loaded preview would have been patched, and otherwise does a full update |
| Preview.QuickPatchNeedsGrowingChange | web/client/scripts/ui.js:589-591 | with or without a preview body: no quick update and no throw without a previous HTML, for an empty or shorter new HTML, or when the new HTML extends the old one |
| Preview.QuickTextsConditions | web/client/scripts/ui.js:589-597 | the guards before the tree search pass exactly when the diff is non-null, both expansions succeed and the old run's first occurrence is where it starts; they give the decoded old and new runs |
| Preview.QuickTextsFromSteps | web/client/scripts/ui.js:589-597 | unfolding step of `QuickTexts`: the guards' outcome assembled from the results of their steps |
| Preview.QuickPatchConditions | web/client/scripts/ui.js:589-606 | the quick path is taken exactly when the diff is non-null, both expansions succeed, the old run's first occurrence is where it starts, and a text node holds its decoding; the node patched is the first such, and it gets the decoded new run |
| Preview.QuickPatchFromSteps | web/client/scripts/ui.js:589-606 | unfolding step of `QuickPatch`: the quick path's outcome assembled from the results of its steps |
| Preview.UI.constructor | web/client/scripts/ui.js:119-241 | a new UI has no previous HTML, a `null` preview body, no pending change, and is stale with continuous refresh |
| Preview.UI.UpdateFull | web/client/scripts/ui.js:560-587 | the full update records the HTML and reports a slow update |
| Preview.UI.FrameLoaded | web/client/scripts/ui.js:568-573 | once the new preview frame has loaded, its body is the preview body |
| Preview.UI.ViewHTML | web/client/scripts/ui.js:557-611 | `viewHTML`'s outcome is `ViewOutcome` of the old state; it records the HTML unless it throws; a quick update sets that one text node of the preview body, and the body is otherwise unchanged |
| Preview.UI.StalePredicate | web/client/scripts/ui.js:643-648 | the poll clears `changed`, folds it into `stale`, and asks for a render when stale, except just after a change with continuous refresh off |
| Preview.Spinner.constructor | web/client/scripts/ui.js:188-191 | a new spinner element has no outstanding requests, is not spinning, and has the delay preset on it, if any |
| Preview.Spinner.ShowSpinner | web/client/scripts/ui.js:613-633 | an element without a preset delay gets twice the refresh rate; the first request arms the timer; disabling the last request removes the class; the count goes up, or down when positive; it never goes negative, and the class only stays on while requests are outstanding |
| Preview.Spinner.SpinTimerFires | web/client/scripts/ui.js:620-622 | the timer adds the class if a request is still outstanding, keeping the invariant |
| Preview.GetModeFromExt | web/client/scripts/ui.js:77-84 | each of the five known extensions gets its own mode, and it is the only extension with that mode; every other extension gets `text/plain` |
| PreviewExamples.ParagraphDiff | web/client/scripts/ui.js:486-522 | `<p>A</p><p>B</p>` to `<p>A</p><p>C</p>` differs at 11 with empty texts after the backward walk |
| PreviewExamples.ParagraphSpans | web/client/scripts/ui.js:524-542 | both spans expand to (11, 12), the runs `B` and `C` |
| PreviewExamples.ParagraphOldTextFirst | web/client/scripts/ui.js:596-597 | the first `B` of the old HTML is at 11 |
| PreviewExamples.ParagraphNode | web/client/scripts/ui.js:544-555 | the text node `B` is at path [1, 0] |
| PreviewExamples.ParagraphEdit | web/client/scripts/ui.js:589-606 | the edit patches the text node at [1, 0] from `B` to `C` |
| PreviewExamples.NoSharedPrefixDiff | web/client/scripts/ui.js:486-522 | `A` to `B` differs at 0 |
| PreviewExamples.NoSharedPrefixPatched | web/client/scripts/ui.js:589-606 | `A` to `B` is quick-patched despite sharing no prefix |
| PreviewExamples.SplitDiff | web/client/scripts/ui.js:486-522 | `<p>ab</p>` to `<p>a</p><p>b</p>` differs at 4, with `end0` 4, `end1` 11 and the insertion `</p><p>` |
| PreviewExamples.SplitSpans | web/client/scripts/ui.js:524-542 | the spans expand to (3, 12) and (3, 5), the runs `a</p><p>b` and `ab` |
| PreviewExamples.SplitOldTextFirst | web/client/scripts/ui.js:596-597 | the first `ab` of the old HTML is at 3 |
| PreviewExamples.SplitNode | web/client/scripts/ui.js:544-555 | the text node `ab` is at path [0, 0] |
| PreviewExamples.SplitDecoded | web/client/scripts/ui.js:538-540 | neither run holds a reference, so both decode to themselves |
| PreviewExamples.SplitPatchedAsText | web/client/scripts/ui.js:589-606 | the edit that inserts markup is quick-patched as the literal text `a</p><p>b` |
| PreviewExamples.ParagraphEditBeforeLoad | web/client/scripts/ui.js:599 | with no preview body, the paragraph edit throws in `findTextNode` |
| PreviewExamples.EditAroundLoad | web/client/scripts/ui.js:557-611 | on a new UI the first `viewHTML` is full, the edit before the frame loads throws, and the same edit after it loads is patched quickly |
| PreviewExamples.FirstSpinTimers | web/client/scripts/ui.js:188-191 | the first request arms the view spinner's timer at 750 ms, the sync spinner's at 1 ms, and another element's at twice the refresh rate |
| SourceSpan.NextLine | web/client/scripts/ui.js:468-470 | defines one loop step: just past the next newline, or no move; see `NextLineCounts` |
| SourceSpan.Advance | web/client/scripts/ui.js:466-476 | defines `n` loop steps; see `AdvanceCounts`, `AdvanceAdd` |
| SourceSpan.LineStart | web/client/scripts/ui.js:466-471 | defines where line `line` starts; see `LineStartCounts` |
| SourceSpan.NextLineCounts | web/client/scripts/ui.js:468-471 | one loop step from a line start reaches the next line start and counts one more newline, unless none is left |
| SourceSpan.AdvanceCounts | web/client/scripts/ui.js:468-476 | `n` steps count `n` more newlines, as far as the text has them |
| SourceSpan.LineStartCounts | web/client/scripts/ui.js:466-471 | line `line` starts at 0 or just after a newline, with `line - 1` newlines before it, or all of them |
| SourceSpan.AdvanceAdd | web/client/scripts/ui.js:472-476 | the second loop goes on from where the first stopped: steps add up |
| SourceSpan.FindSpan | web/client/scripts/ui.js:466-484 | `pos0` is column `col0` of line `line0`, `pos1` is column `col1` of line `max(line0, line1)`, and the text is the substring between them |
| LineAnchor.LineText | web/client/scripts/ui.js:958-965 | defines the file filter of a `data-line`; see `LineTextAfterFileName`, `AnchorNeedsFileName` |
| LineAnchor.AnchorLine | web/client/scripts/ui.js:956-968 | defines the line an element anchors, or NaN (`None`); see `OnlyBlockElementsAnchor`, `AnchorOfNumeral`, `AnchorOfFileLine`, `AnchorOfTwoFiles` |
| LineAnchor.AnchorTest | web/client/scripts/ui.js:956-968 | the code's anchor test, `AnchorLine` for a file name, which `FindElemAtLine` passes to the search |
| LineAnchor.OnlyBlockElementsAnchor | web/client/scripts/ui.js:956 | inline elements and elements without a non-empty `data-line` are never anchors |
| LineAnchor.AnchorNeedsFileName | web/client/scripts/ui.js:957-964 | with a file name, an attribute not mentioning `fname:` gives NaN |
| LineAnchor.AnchorOfNumeral | web/client/scripts/ui.js:956-968 | without a file name, the numeral of `n` anchors line `n` |
| LineAnchor.LineTextAfterFileName | web/client/scripts/ui.js:958-962 | wherever the first `fname:` occurs, the text parsed is what follows it |
| LineAnchor.LineTextOfEntry | web/client/scripts/ui.js:958-962 | the text parsed is the rest of the `data-line` after an entry `fname:` that is the first one, whatever comes before it |
| LineAnchor.AnchorOfFileLine | web/client/scripts/ui.js:956-968 | `fname:` followed by the numeral of `n`, then nothing or `;`, anchors line `n` when it is the first `fname:`, after any other entries |
| LineAnchor.TwoFilesShape | web/client/scripts/ui.js:958-962 | unfolding step: `a.mdk:3;b.mdk:5` is the `a.mdk` entry before the `b.mdk` entry |
| LineAnchor.TwoFilesEntries | web/client/scripts/ui.js:959 | the first `a.mdk:` is at 0 and the first `b.mdk:` at 8 |
| LineAnchor.AnchorOfTwoFiles | web/client/scripts/ui.js:956-968 | the multi-file `data-line` `a.mdk:3;b.mdk:5` anchors line 3 for `a.mdk` and line 5 for `b.mdk` |
| LineAnchor.AnchorOfDataLine | web/client/scripts/ui.js:956-968 | unfolding step of `AnchorLine`: a block element with a non-empty `data-line` anchors what `parseInt` reads from its filtered text |
| LineAnchor.FirstAbove | web/client/scripts/ui.js:969-981 | the scan's break index is the first anchor past `line`, with every earlier anchor at or below it |
| LineAnchor.LastAtOrBelow | web/client/scripts/ui.js:969-975 | the last anchor at or below `line` before the break, with none after it |
| LineAnchor.ScanChildren | web/client/scripts/ui.js:948-982 | the bracket has `current <= next`, `currentLine <= line <= nextLine`, and each non-default line is an anchor of its child |
| LineAnchor.ScanIsBracket | web/client/scripts/ui.js:948-982 | the scan's result is a bracket of the children |
| LineAnchor.ScanWithoutAnchors | web/client/scripts/ui.js:948-953 | with no anchor among the children the bracket is all of them, from line 0 to `line` |
| LineAnchor.BracketPlaced | web/client/scripts/ui.js:984-1004 | without a deeper anchor in the bracket, the result is the bracket itself and keeps the result invariants |
| LineAnchor.DeeperPlaced | web/client/scripts/ui.js:988-998 | the result taken from the first child with a deeper anchor keeps the result invariants, and takes that child's `next` only when it is past `line` |
| LineAnchor.ScanLoop | web/client/scripts/ui.js:954-982 | the scan loop computes `ScanChildren` and sets `found` exactly when some child is an anchor |
| LineAnchor.ElemAtLine | web/client/scripts/ui.js:941-1005 | the search succeeds exactly for `line >= 1` and an anchor below the element, and the result is well placed and built from the scan's bracket |
| LineAnchor.DescendLoop | web/client/scripts/ui.js:984-1000 | the descent either keeps the bracket, when no child in it has an anchor below, or takes the first child's result |
| LineAnchor.DescendChild | web/client/scripts/ui.js:986-998 | one round of the descent: a hit gives a well-placed result, a miss means no anchor below children up to `j` |
| LineAnchor.FindElemAtLine | web/client/scripts/ui.js:941-1005 | null for a missing element, otherwise the search with the code's `data-line` test |
| Location.Exec | web/client/scripts/ui.js:1103 | defines `exec` of `/(?:^|;)(?:([^:;]+):)?(\d+)$/` as the leftmost successful attempt; see `ExecIsLastSegment` |
| Location.LastSegment | web/client/scripts/ui.js:1103 | defines the text after the last `;`; see `LastSegmentStart`, `TailSegment`, `NoSemicolonIsLastSegment` |
| Location.PathRun | web/client/scripts/ui.js:1103 | the greedy `[^:;]+` run contains no `:` or `;` and stops at one |
| Location.MatchTail | web/client/scripts/ui.js:1103 | a tail match captures a non-empty digit string |
| Location.LastSegmentStart | web/client/scripts/ui.js:1103 | the last segment starts at 0 or after a `;`, and holds no `;` |
| Location.LocationOf | web/client/scripts/ui.js:1101-1109 | one attribute yields a location only with a line of at least 1 |
| Location.LocationStep | web/client/scripts/ui.js:1101-1109 | an attribute yields a location exactly when it is present and non-empty, `exec` matches, and `parseInt` of the digits is non-zero; the location is the captured path with that number |
| Location.MatchTailShape | web/client/scripts/ui.js:1103 | a tail match is the digits alone, or a non-empty path without `:` or `;`, a `:`, and the digits |
| Location.DigitsParse | web/client/scripts/ui.js:1105 | the captured digits read as their decimal value |
| Location.MatchTailHasNoSemicolon | web/client/scripts/ui.js:1103 | a text the tail matches holds no `;` |
| Location.NoMatchBeforeSemicolon | web/client/scripts/ui.js:1103 | the tail does not match a text with a `;` still to come |
| Location.NoAttemptAfterLastSemicolon | web/client/scripts/ui.js:1103 | no match attempt after position 0 succeeds once no `;` remains |
| Location.NoAttemptBeforeSemicolon | web/client/scripts/ui.js:1103 | a match attempt before a `;` fails |
| Location.SkipFailedAttempts | web/client/scripts/ui.js:1103 | failed attempts from `p` up to `q` move the leftmost search on to `q` |
| Location.ExecIsLastSegment | web/client/scripts/ui.js:1103 | the regular expression's match and captures are the tail match of the last `;`-segment |
| Location.FindLocation | web/client/scripts/ui.js:1099-1114 | null exactly when no element on the way yields a location, otherwise the location of the nearest one that does |
| Location.MatchTailOfPathLine | web/client/scripts/ui.js:1103 | `path:digits` is matched with both captures |
| Location.LocationOfPathLine | web/client/scripts/ui.js:1101-1109 | a last segment `path:N` with `N >= 1` yields that path and line, whatever precedes it |
| Location.LocationOfLine | web/client/scripts/ui.js:1101-1109 | the numeral of `N >= 1` yields line `N` without a path |
| Location.LocationOfDigits | web/client/scripts/ui.js:1101-1109 | a digit string of non-zero value yields that line without a path |
| Location.LocationOfSegment | web/client/scripts/ui.js:1101-1109 | a non-empty attribute whose last segment matches with non-zero digits yields the captured path and digit value |
| Location.MatchTailOfDigits | web/client/scripts/ui.js:1103 | a digit string matches with no path |
| Location.LocationOfZeroLine | web/client/scripts/ui.js:1105-1106 | any attribute whose last segment matches with digits reading as 0 (`0`, `00`, `path:0`, after any segments) yields nothing, so the walk goes on upwards |
| Location.LocationOfZeroAfterSemicolon | web/client/scripts/ui.js:1103-1106 | the attribute `prefix;0` yields nothing |
| Location.TailSegment | web/client/scripts/ui.js:1103 | after a `;`, a text without `;` is the last segment |
| Location.NoSemicolonIsLastSegment | web/client/scripts/ui.js:1103 | a text without `;` is its own last segment |

## Left out

- The render scheduler (`util.AsyncRunner`), the runner callbacks and the Madoko renderer are left out. The staleness predicate and `showSpinner` are modelled as the methods the scheduler calls.
- `Preview.UI.UpdateFull` does not model remounting the preview frame. Writing the HTML into the hidden frame, restoring the scroll position and swapping frames happen later, from browser events, and need a DOM and a timer. Only the new body's arrival is modelled, as `Preview.UI.FrameLoaded`, which a caller may invoke at any point after a full update.
- `Preview.UI.ViewHTML`: `viewHTML` ignores its `time0` argument (web/client/scripts/ui.js:557), so the model drops it.
- `Preview.Spinner.ShowSpinner` models the `elem` argument defaulting to the main spinner by having a `Spinner` object per element. The CSS class is a boolean, and the armed timer is the returned delay, which `SpinTimerFires` later acts on. The IE re-layout hack (toggling `visibility`) is left out because it has no effect on the state.
- `String.fromCharCode` is a parameter `fromCharCode: nat -> char`. Its UTF-16 conversion is outside the model.
- Characters are Dafny `char`s standing for UTF-16 code units. There is no surrogate-pair or normalisation behaviour. A Dafny `char` is a Unicode scalar value, so `fromCharCode` cannot return a lone surrogate: the model does not cover `&#55296;` to `&#57343;`, for which `String.fromCharCode` gives one (ui.js:538-539).
- JsNumber.ParseInt: numbers are unbounded integers. Loss of precision above 2^53, and `Infinity` for very long digit strings, are not modelled.
- LineAnchor.FindElemAtLine: `line` is an integer. The code also accepts fractional lines, which are not modelled.
- LineAnchor.Elem: `!util.contains(child.style.display, "inline")` is a boolean field `inline`, not a parsed style string.
- `syncView`, `offsetOuterTop`, the scroll animation and the message passing between the preview frame and the editor use layout, timers and `postMessage`. They are left out.
- The copy of `findLocation` embedded in the preview frame's script (ui.js:88-114) is the same code as ui.js:1099-1114. It is modelled once.
- The Monaco diff helper `diff`, local-storage saving and loading, storage, sync and export handlers, `displayFile` and the editor-selection handlers are outside the core. They talk to the editor, the browser's storage and the network.
