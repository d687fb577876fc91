/** Worked cases of the quick path of `viewHTML`: an ordinary one-character
    edit inside a paragraph, an edit with no shared prefix, and an edit that
    inserts markup, which the quick path still applies as literal text; and
    the edit that throws because no preview frame has loaded yet. */
module PreviewExamples {
  import opened Wrappers
  import opened JsString
  import opened PreviewDiff
  import opened Dom
  import opened Preview

  const OldParagraphs: string := "<p>A</p><p>B</p>"
  const NewParagraphs: string := "<p>A</p><p>C</p>"
  const ParagraphTree: Node := Element([Element([Text("A")]), Element([Text("B")])])

  lemma ParagraphDiff()
    ensures Diff(OldParagraphs, NewParagraphs) == Some(DiffSpan(11, 11, 11, "", ""))
  {
    var t0, t1 := OldParagraphs, NewParagraphs;
    FirstDiffAt(t0, t1, 11);
    assert ProbeEnds(t0, t1, 11) == Some((15, 15));
    assert WalkBack(t0, t1, 11, 15, 15) == (11, 11);
    assert Substring(t0, 11, 11) == "" && Substring(t1, 11, 11) == "";
  }

  lemma ParagraphSpans()
    ensures Expand(NewParagraphs, 11, 11) == Some((11, 12))
    ensures Expand(OldParagraphs, 11, 11) == Some((11, 12))
    ensures Substring(OldParagraphs, 11, 12) == "B" && Substring(NewParagraphs, 11, 12) == "C"
  {
    assert BackStop(NewParagraphs, 11) == 11 && FwdStop(NewParagraphs, 11) == 12;
    assert BackStop(OldParagraphs, 11) == 11 && FwdStop(OldParagraphs, 11) == 12;
    assert OldParagraphs[11..12] == [OldParagraphs[11]] == "B";
    assert NewParagraphs[11..12] == [NewParagraphs[11]] == "C";
  }

  lemma ParagraphOldTextFirst()
    ensures IndexOf(OldParagraphs, "B", 0) == 11
  {
    forall j | 0 <= j < 11 ensures !OccursAt(OldParagraphs, "B", j) {
      assert OldParagraphs[j] != 'B';
      assert OldParagraphs[j..j + 1][0] == OldParagraphs[j];
    }
    IndexOfAt(OldParagraphs, "B", 0, 11);
  }

  lemma ParagraphNode()
    ensures FindTextNode(ParagraphTree, "B") == Some([1, 0])
  {
    var cs := ParagraphTree.childNodes;
    assert FindTextNode(cs[0], "B") == None by {
      assert FindInChildren([Text("A")], 1, "B") == None;
    }
    assert FindTextNode(cs[1], "B") == Some([0]) by {
      assert FindTextNode(Text("B"), "B") == Some([]);
      assert [0] + [] == [0];
    }
    assert [1] + [0] == [1, 0];
    assert FindInChildren(cs, 1, "B") == Some([1, 0]);
  }

  lemma ParagraphEdit(f: nat -> char)
    ensures QuickPatch(OldParagraphs, NewParagraphs, ParagraphTree, f) == Some(Patch([1, 0], "B", "C"))
  {
    ParagraphDiff();
    ParagraphSpans();
    ParagraphOldTextFirst();
    ParagraphNode();
    assert DecodeCharRefs("B", f) == "B" && DecodeCharRefs("C", f) == "C";
    QuickPatchFromSteps(OldParagraphs, NewParagraphs, ParagraphTree, f, DiffSpan(11, 11, 11, "", ""), 11, 12, 11, 12, [1, 0]);
  }

  /** Before the first preview frame has loaded, the same edit makes
      `findTextNode` throw. */
  lemma ParagraphEditBeforeLoad(f: nat -> char)
    ensures ViewOutcome(OldParagraphs, NewParagraphs, None, f) == NullBody
  {
    ParagraphEdit(f);
  }

  /** A fresh UI object: the first `viewHTML` is a full update; the edit
      arriving before its frame has loaded throws and records nothing, so
      once the frame has loaded the same edit is still patched quickly. */
  method EditAroundLoad(f: nat -> char) returns (first: ViewResult, second: ViewResult, third: ViewResult)
    ensures first == Full && second == NullBody
    ensures third == Quick(Patch([1, 0], "B", "C"))
  {
    var ui := new UI();
    first := ui.ViewHTML(OldParagraphs, f);
    ParagraphEdit(f);
    second := ui.ViewHTML(NewParagraphs, f);
    ui.FrameLoaded(ParagraphTree);
    third := ui.ViewHTML(NewParagraphs, f);
  }

  /** The first request on each spinner arms its timer with the preset
      delay: 750 ms for the view spinner, 1 ms for the sync spinner, and
      twice the refresh rate for an element with no preset. */
  method FirstSpinTimers(refreshRate: int) returns (view: Option<int>, sync: Option<int>, other: Option<int>)
    ensures view == Some(750) && sync == Some(1) && other == Some(refreshRate * 2)
  {
    var viewSpinner := new Spinner(Some(750));
    var syncSpinner := new Spinner(Some(1));
    var element := new Spinner(None);
    view := viewSpinner.ShowSpinner(true, refreshRate);
    sync := syncSpinner.ShowSpinner(true, refreshRate);
    other := element.ShowSpinner(true, refreshRate);
  }

  /** Replacing the whole one-character text: the texts share no prefix, and
      the quick path still patches the only text node. */
  lemma NoSharedPrefixDiff()
    ensures Diff("A", "B") == Some(DiffSpan(0, 0, 0, "", ""))
  {
    FirstDiffAt("A", "B", 0);
    assert ProbeEnds("A", "B", 0) == Some((0, 0));
    assert WalkBack("A", "B", 0, 0, 0) == (0, 0);
  }

  lemma NoSharedPrefixPatched(f: nat -> char)
    ensures QuickPatch("A", "B", Element([Text("A")]), f) == Some(Patch([0], "A", "B"))
  {
    NoSharedPrefixDiff();
    assert Expand("B", 0, 0) == Some((0, 1));
    assert Expand("A", 0, 0) == Some((0, 1));
    assert Substring("A", 0, 1) == "A" && Substring("B", 0, 1) == "B";
    assert IndexOf("A", "A", 0) == 0 by {
      assert OccursAt("A", "A", 0);
    }
    assert DecodeCharRefs("A", f) == "A" && DecodeCharRefs("B", f) == "B";
    assert FindTextNode(Element([Text("A")]), "A") == Some([0]) by {
      assert FindTextNode(Text("A"), "A") == Some([]);
      assert [0] + [] == [0];
    }
    QuickPatchFromSteps("A", "B", Element([Text("A")]), f, DiffSpan(0, 0, 0, "", ""), 0, 1, 0, 1, [0]);
  }

  const OneParagraph: string := "<p>ab</p>"
  const TwoParagraphs: string := "<p>a</p><p>b</p>"
  const OneParagraphTree: Node := Element([Element([Text("ab")])])

  /** Splitting a paragraph: the change inserts `</p><p>`. */
  lemma SplitDiff()
    ensures Diff(OneParagraph, TwoParagraphs) == Some(DiffSpan(4, 4, 11, "", "</p><p>"))
  {
    var t0, t1 := OneParagraph, TwoParagraphs;
    FirstDiffAt(t0, t1, 4);
    assert ProbeEnds(t0, t1, 4) == Some((8, 15));
    assert WalkBack(t0, t1, 4, 5, 12) == (4, 11);
    assert WalkBack(t0, t1, 4, 8, 15) == (4, 11);
    assert Substring(t0, 4, 4) == "" && Substring(t1, 4, 11) == "</p><p>";
  }

  lemma SplitSpans()
    ensures Expand(TwoParagraphs, 4, 11) == Some((3, 12))
    ensures Expand(OneParagraph, 4, 4) == Some((3, 5))
    ensures Substring(OneParagraph, 3, 5) == "ab" && Substring(TwoParagraphs, 3, 12) == "a</p><p>b"
  {
    assert BackStop(TwoParagraphs, 4) == 3 && FwdStop(TwoParagraphs, 11) == 12;
    assert BackStop(OneParagraph, 4) == 3 && FwdStop(OneParagraph, 4) == 5;
  }

  lemma SplitOldTextFirst()
    ensures IndexOf(OneParagraph, "ab", 0) == 3
  {
    forall j | 0 <= j < 3 ensures !OccursAt(OneParagraph, "ab", j) {
      assert OneParagraph[j] != 'a';
      assert OneParagraph[j..j + 2][0] == OneParagraph[j];
    }
    assert OneParagraph[3..5] == "ab";
    IndexOfAt(OneParagraph, "ab", 0, 3);
  }

  lemma SplitNode()
    ensures FindTextNode(OneParagraphTree, "ab") == Some([0, 0])
  {
    assert FindTextNode(Text("ab"), "ab") == Some([]);
    assert [0] + [] == [0];
    assert FindTextNode(Element([Text("ab")]), "ab") == Some([0]);
    assert [0] + [0] == [0, 0];
  }

  lemma SplitDecoded(f: nat -> char)
    ensures DecodeCharRefs(Substring(OneParagraph, 3, 5), f) == "ab"
    ensures DecodeCharRefs(Substring(TwoParagraphs, 3, 12), f) == "a</p><p>b"
  {
    SplitSpans();
    DecodeWithoutAmpersand("ab", f);
    DecodeWithoutAmpersand("a</p><p>b", f);
  }

  /** The quick path rewrites the text node `ab` to the literal text
      `a</p><p>b` instead of falling back to a full update. */
  lemma SplitPatchedAsText(f: nat -> char)
    ensures QuickPatch(OneParagraph, TwoParagraphs, OneParagraphTree, f) == Some(Patch([0, 0], "ab", "a</p><p>b"))
  {
    SplitDiff();
    SplitSpans();
    SplitOldTextFirst();
    SplitNode();
    SplitDecoded(f);
    QuickPatchFromSteps(OneParagraph, TwoParagraphs, OneParagraphTree, f, DiffSpan(4, 4, 11, "", "</p><p>"), 3, 12, 3, 5, [0, 0]);
  }
}
