/** The UI object's preview logic: the quick path of `viewHTML`, which
    rewrites a single text node of the live preview when the new HTML differs
    from the previous one inside one text run, the staleness test the render
    scheduler polls, the spinner counter, and the editor mode per file
    extension. */
module Preview {
  import opened Wrappers
  import opened JsString
  import opened PreviewDiff
  import opened Dom

  /** A quick update: the text node at `path`, holding `oldText`, is to hold
      `newText`. */
  datatype Patch = Patch(path: Path, oldText: string, newText: string)

  /** The string a regular expression sees when it tests `undefined`. */
  const UndefinedText: string := "undefined"

  /** `/[<>"]/.test(s)`. */
  predicate HasMarkup(s: string)
  {
    exists k :: 0 <= k < |s| && (s[k] == '<' || s[k] == '>' || s[k] == '"')
  }

  /** The guards of the quick path of `viewHTML(html)` with previous HTML
      `html0` that come before the tree is searched: the decoded old and new
      texts of the expanded spans, or `None` when a guard falls back to a
      full update. The markup test runs on `dif.text`, which `simpleDiff`
      never sets, so it tests `undefined`. */
  function QuickTexts(html0: string, html: string, fromCharCode: nat -> char): Option<(string, string)>
  {
    if html0 == [] then None
    else match Diff(html0, html)
      case None => None
      case Some(d) =>
        if HasMarkup(UndefinedText) then None
        else match Expand(html, d.start, d.end1)
          case None => None
          case Some((n0, n1)) =>
            match Expand(html0, d.start, d.end0)
            case None => None
            case Some((o0, o1)) =>
              var oldText := Substring(html0, o0, o1);
              if IndexOf(html0, oldText, 0) != o0 then None
              else Some((DecodeCharRefs(oldText, fromCharCode), DecodeCharRefs(Substring(html, n0, n1), fromCharCode)))
  }

  /** The outcome of the quick path with live tree `body`: the patch it
      applies, or `None` when it falls back to a full update. */
  function QuickPatch(html0: string, html: string, body: Node, fromCharCode: nat -> char): Option<Patch>
  {
    match QuickTexts(html0, html, fromCharCode)
    case None => None
    case Some((oldContent, newContent)) =>
      match FindTextNode(body, oldContent)
      case None => None
      case Some(p) => Some(Patch(p, oldContent, newContent))
  }

  /** What a call of `viewHTML` does: a full update, a quick patch, or the
      `TypeError` that `findTextNode` raises when the preview body is still
      `null`. */
  datatype ViewResult = Full | Quick(patch: Patch) | NullBody

  /** The outcome of `viewHTML(html)` when the preview body is `body`
      (`None` is `null`, the value before the first preview frame has
      loaded). */
  function ViewOutcome(html0: string, html: string, body: Option<Node>, fromCharCode: nat -> char): ViewResult
  {
    if QuickTexts(html0, html, fromCharCode).None? then Full
    else match body
      case None => NullBody
      case Some(b) =>
        match QuickPatch(html0, html, b, fromCharCode)
        case None => Full
        case Some(p) => Quick(p)
  }

  /** With no preview body, `viewHTML` throws exactly when some loaded
      preview would have taken the quick path: the one holding just the old
      text is such a preview. */
  lemma NullBodyThrows(html0: string, html: string, fromCharCode: nat -> char)
    ensures ViewOutcome(html0, html, None, fromCharCode) == NullBody <==>
      exists b :: QuickPatch(html0, html, b, fromCharCode).Some?
    ensures ViewOutcome(html0, html, None, fromCharCode) != NullBody ==>
      ViewOutcome(html0, html, None, fromCharCode) == Full
  {
    if ViewOutcome(html0, html, None, fromCharCode) == NullBody {
      var (oldContent, _) := QuickTexts(html0, html, fromCharCode).value;
      assert FindTextNode(Text(oldContent), oldContent) == Some([]);
      assert QuickPatch(html0, html, Text(oldContent), fromCharCode).Some?;
    }
  }

  /** The markup test of the quick path never rejects. */
  lemma MarkupTestNeverRejects()
    ensures !HasMarkup(UndefinedText)
  {
    forall k | 0 <= k < |UndefinedText| ensures UndefinedText[k] in "undefined" {
    }
  }

  /** No quick update, and no throw, without a previous HTML text, nor when
      the new HTML is empty, shorter than the previous one, or extends it
      (equal texts included). */
  lemma QuickPatchNeedsGrowingChange(html0: string, html: string, body: Option<Node>, fromCharCode: nat -> char)
    requires html0 == [] || html == [] || |html| < |html0| || html0 <= html
    ensures ViewOutcome(html0, html, body, fromCharCode) == Full
    ensures forall b :: QuickPatch(html0, html, b, fromCharCode) == None
  {
    DiffIsNull(html0, html);
  }

  /** The guards of the quick path pass exactly when `simpleDiff` is
      non-null, both expansions succeed, and the first occurrence of the
      expanded old text is at its start; they then give the decoded
      expanded old and new texts. */
  lemma QuickTextsConditions(html0: string, html: string, fromCharCode: nat -> char)
    ensures QuickTexts(html0, html, fromCharCode).Some? <==>
      html0 != [] && Diff(html0, html).Some?
      && (var d := Diff(html0, html).value;
          && Expand(html, d.start, d.end1).Some?
          && Expand(html0, d.start, d.end0).Some?
          && (var (o0, o1) := Expand(html0, d.start, d.end0).value;
              IndexOf(html0, Substring(html0, o0, o1), 0) == o0))
    ensures QuickTexts(html0, html, fromCharCode).Some? ==>
      var d := Diff(html0, html).value;
      var (n0, n1) := Expand(html, d.start, d.end1).value;
      var (o0, o1) := Expand(html0, d.start, d.end0).value;
      QuickTexts(html0, html, fromCharCode).value
        == (DecodeCharRefs(Substring(html0, o0, o1), fromCharCode), DecodeCharRefs(Substring(html, n0, n1), fromCharCode))
  {
    MarkupTestNeverRejects();
  }

  /** The quick path is taken exactly when the guards pass and a text node
      with the decoded old text exists; the node patched is the first such
      text node in document order, and it gets the decoded expanded new
      text. */
  lemma QuickPatchConditions(html0: string, html: string, body: Node, fromCharCode: nat -> char)
    ensures QuickPatch(html0, html, body, fromCharCode).Some? <==>
      html0 != [] && Diff(html0, html).Some?
      && (var d := Diff(html0, html).value;
          && Expand(html, d.start, d.end1).Some?
          && Expand(html0, d.start, d.end0).Some?
          && (var (o0, o1) := Expand(html0, d.start, d.end0).value;
              && IndexOf(html0, Substring(html0, o0, o1), 0) == o0
              && FindTextNode(body, DecodeCharRefs(Substring(html0, o0, o1), fromCharCode)).Some?))
    ensures QuickPatch(html0, html, body, fromCharCode).Some? ==>
      var p := QuickPatch(html0, html, body, fromCharCode).value;
      var d := Diff(html0, html).value;
      var (n0, n1) := Expand(html, d.start, d.end1).value;
      var (o0, o1) := Expand(html0, d.start, d.end0).value;
      && p.oldText == DecodeCharRefs(Substring(html0, o0, o1), fromCharCode)
      && p.newText == DecodeCharRefs(Substring(html, n0, n1), fromCharCode)
      && TextAt(body, p.path, p.oldText)
      && (forall q :: TextAt(body, q, p.oldText) ==> PathBefore(p.path, q))
  {
    QuickTextsConditions(html0, html, fromCharCode);
    if QuickTexts(html0, html, fromCharCode).Some? {
      FindTextNodeSpec(body, QuickTexts(html0, html, fromCharCode).value.0);
    }
  }

  /** The guards of the quick path assembled from its steps' results. */
  lemma QuickTextsFromSteps(html0: string, html: string, fromCharCode: nat -> char,
                            d: DiffSpan, n0: int, n1: int, o0: int, o1: int)
    requires html0 != [] && Diff(html0, html) == Some(d)
    requires Expand(html, d.start, d.end1) == Some((n0, n1))
    requires Expand(html0, d.start, d.end0) == Some((o0, o1))
    requires IndexOf(html0, Substring(html0, o0, o1), 0) == o0
    ensures QuickTexts(html0, html, fromCharCode)
         == Some((DecodeCharRefs(Substring(html0, o0, o1), fromCharCode),
                  DecodeCharRefs(Substring(html, n0, n1), fromCharCode)))
  {
    MarkupTestNeverRejects();
  }

  /** The quick path assembled from its steps' results. */
  lemma QuickPatchFromSteps(html0: string, html: string, body: Node, fromCharCode: nat -> char,
                            d: DiffSpan, n0: int, n1: int, o0: int, o1: int, p: Path)
    requires html0 != [] && Diff(html0, html) == Some(d)
    requires Expand(html, d.start, d.end1) == Some((n0, n1))
    requires Expand(html0, d.start, d.end0) == Some((o0, o1))
    requires IndexOf(html0, Substring(html0, o0, o1), 0) == o0
    requires FindTextNode(body, DecodeCharRefs(Substring(html0, o0, o1), fromCharCode)) == Some(p)
    ensures QuickPatch(html0, html, body, fromCharCode)
         == Some(Patch(p, DecodeCharRefs(Substring(html0, o0, o1), fromCharCode),
                       DecodeCharRefs(Substring(html, n0, n1), fromCharCode)))
  {
    QuickTextsFromSteps(html0, html, fromCharCode, d, n0, n1, o0, o1);
  }

  /** The UI object's fields that the modelled operations read and write.
      `html0` is the HTML the preview was last built from; the empty string
      stands for both `undefined` and `""`, which the code treats alike.
      `viewBody` is the body of the preview frame on show, `None` (`null`)
      until the first frame has loaded. */
  class UI {
    var html0: string
    var viewBody: Option<Node>
    var changed: bool
    var stale: bool
    var refreshContinuous: bool

    constructor ()
      ensures html0 == [] && viewBody == None
      ensures !changed && stale && refreshContinuous
    {
      html0 := [];
      viewBody := None;
      changed := false;
      stale := true;
      refreshContinuous := true;
    }

    /** The full update: records the HTML and reports a slow update. Writing
        the HTML into the other preview frame is not part of the model; the
        frame's body arrives later through `FrameLoaded`. */
    method UpdateFull(html: string) returns (r: ViewResult)
      modifies this`html0
      ensures html0 == html && r == Full
    {
      html0 := html;
      r := Full;
    }

    /** A preview frame written by a full update has loaded, and 50 ms after
        its `DOMContentLoaded` its body becomes the preview body. */
    method FrameLoaded(body: Node)
      modifies this`viewBody
      ensures viewBody == Some(body)
    {
      viewBody := Some(body);
    }

    /** `viewHTML(html)`: one text node of the preview gets the decoded new
        text and the method reports a quick update; or it falls back to the
        full update; or, with no preview body yet, `findTextNode` throws and
        nothing is recorded. The first two record `html` as the previous
        HTML. */
    method ViewHTML(html: string, fromCharCode: nat -> char) returns (r: ViewResult)
      modifies this`html0, this`viewBody
      ensures r == ViewOutcome(old(html0), html, old(viewBody), fromCharCode)
      ensures html0 == if r == NullBody then old(html0) else html
      ensures r.Quick? ==>
        old(viewBody).Some? && viewBody == Some(ReplaceText(old(viewBody).value, r.patch.path, r.patch.newText))
      ensures !r.Quick? ==> viewBody == old(viewBody)
    {
      if html0 != [] {
        var dif := SimpleDiff(html0, html);
        if dif.None? || HasMarkup(UndefinedText) {
          r := UpdateFull(html);
          return;
        }
        var d := dif.value;
        var newSpan := new Span(d.start, d.end1, d.text1);
        var oldSpan := new Span(d.start, d.end0, d.text0);
        var ok := ExpandSpan(html, newSpan, fromCharCode);
        if !ok {
          r := UpdateFull(html);
          return;
        }
        ok := ExpandSpan(html0, oldSpan, fromCharCode);
        if !ok {
          r := UpdateFull(html);
          return;
        }
        var i := IndexOf(html0, oldSpan.text, 0);
        if i != oldSpan.pos0 {
          r := UpdateFull(html);
          return;
        }
        QuickTextsFromSteps(html0, html, fromCharCode, d, newSpan.pos0, newSpan.pos1, oldSpan.pos0, oldSpan.pos1);
        if viewBody.None? {
          return NullBody;
        }
        var elem := FindTextNode(viewBody.value, oldSpan.textContent.value);
        if elem.None? {
          r := UpdateFull(html);
          return;
        }
        r := Quick(Patch(elem.value, oldSpan.textContent.value, newSpan.textContent.value));
        viewBody := Some(ReplaceText(viewBody.value, elem.value, newSpan.textContent.value));
        html0 := html;
      } else {
        r := UpdateFull(html);
      }
    }

    /** The staleness predicate the local render scheduler polls: it clears
        `changed`, folds it into `stale`, and asks for a render when stale,
        except right after a change while continuous refresh is off. */
    method StalePredicate() returns (run: bool)
      modifies this`changed, this`stale
      ensures !changed
      ensures stale == (old(stale) || old(changed))
      ensures run <==> stale && !(old(changed) && !refreshContinuous)
    {
      var wasChanged := changed;
      changed := false;
      stale := stale || wasChanged;
      if wasChanged && !refreshContinuous {
        return false;
      }
      return stale;
    }
  }

  /** The busy indicator: `spinners` counts the outstanding requests to show
      it, `spinning` is whether it carries the `spin` class, `spinDelay` is
      how long a request waits before the class is added. */
  class Spinner {
    var spinners: int
    var spinDelay: Option<int>
    var spinning: bool

    /** The count never goes negative, and the class is only on while some
        request is outstanding. */
    ghost predicate Valid()
      reads this
    {
      spinners >= 0 && (spinning ==> spinners >= 1)
    }

    /** A spinner element, with the delay preset on it (`None` when the
        element has none). */
    constructor (delay: Option<int>)
      ensures Valid() && spinners == 0 && spinDelay == delay && !spinning
    {
      spinners := 0;
      spinDelay := delay;
      spinning := false;
    }

    /** `showSpinner(enable)`: the first request arms a timer (returned as
        its delay), disabling the last outstanding request removes the
        class, and the count goes up or, if positive, down. */
    method ShowSpinner(enable: bool, refreshRate: int) returns (timer: Option<int>)
      requires Valid()
      modifies this
      ensures Valid()
      ensures spinDelay == if old(spinDelay).None? then Some(refreshRate * 2) else old(spinDelay)
      ensures timer == if enable && old(spinners) == 0 then spinDelay else None
      ensures spinning == if !enable && old(spinners) == 1 then false else old(spinning)
      ensures spinners == if enable then old(spinners) + 1 else if old(spinners) > 0 then old(spinners) - 1 else 0
    {
      if spinDelay.None? { spinDelay := Some(refreshRate * 2); }
      timer := None;
      if enable && spinners == 0 {
        timer := spinDelay;
      } else if !enable && spinners == 1 {
        spinning := false;
      }
      if enable {
        spinners := spinners + 1;
      } else if spinners > 0 {
        spinners := spinners - 1;
      }
    }

    /** The armed timer fires: the class is added if a request is still
        outstanding. */
    method SpinTimerFires()
      requires Valid()
      modifies this`spinning
      ensures Valid()
      ensures spinning == (old(spinning) || spinners >= 1)
    {
      if spinners >= 1 { spinning := true; }
    }
  }

  /** `getModeFromExt(ext)`: the editor mode for a file extension. */
  function GetModeFromExt(ext: string): (mode: string)
    ensures mode == "text/plain" <==> ext !in {".mdk", ".md", ".js", ".css", ".html"}
    ensures ext == ".mdk" <==> mode == "mdk"
    ensures ext == ".md" <==> mode == "text/x-web-markdown"
    ensures ext == ".js" <==> mode == "text/javascript"
    ensures ext == ".css" <==> mode == "text/css"
    ensures ext == ".html" <==> mode == "text/html"
  {
    if ext == ".mdk" then "mdk"
    else if ext == ".md" then "text/x-web-markdown"
    else if ext == ".js" then "text/javascript"
    else if ext == ".css" then "text/css"
    else if ext == ".html" then "text/html"
    else "text/plain"
  }
}
