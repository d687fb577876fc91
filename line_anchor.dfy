/** The source-line anchor search behind the editor-to-preview scroll sync:
    `findElemAtLine` looks, in a tree of preview elements some of which carry
    a `data-line` attribute, for the anchor with the greatest line at most
    the target line and the next anchor past it. Lines are integers here. */
module LineAnchor {
  import opened Wrappers
  import opened JsString
  import opened JsNumber
  import opened Dom

  /** A preview element: its `data-line` attribute if it has one, whether
      its style's `display` contains `inline`, and its element children. */
  datatype Elem = Elem(dataLine: Option<string>, inline: bool, children: seq<Elem>)

  /** The part of a `data-line` value that is parsed: all of it when no file
      name is given; otherwise what follows the first `fname:`, or nothing
      when `fname:` does not occur. The empty `fname` stands for `null`. */
  function LineText(dl: string, fname: string): string
  {
    if fname == [] then dl
    else
      var idx := IndexOf(dl, fname + ":", 0);
      if idx >= 0 then Substr(dl, idx + |fname| + 1) else []
  }

  /** The line an element anchors: the `parseInt` of its (file-filtered)
      `data-line` when it has a non-empty one and is not inline, else
      `None`. */
  function AnchorLine(c: Elem, fname: string): Option<int>
  {
    if c.inline then None
    else match c.dataLine
      case None => None
      case Some(dl) => if dl == [] then None else ParseInt(LineText(dl, fname))
  }

  /** Inline elements and elements without a non-empty `data-line` are
      never anchors. */
  lemma OnlyBlockElementsAnchor(c: Elem, fname: string)
    requires c.inline || c.dataLine.None? || c.dataLine == Some([])
    ensures AnchorLine(c, fname) == None
  {
  }

  /** With a file name, a `data-line` that does not mention `fname:` is not
      an anchor. */
  lemma AnchorNeedsFileName(c: Elem, fname: string)
    requires fname != [] && c.dataLine.Some?
    requires IndexOf(c.dataLine.value, fname + ":", 0) < 0
    ensures AnchorLine(c, fname) == None
  {
    ParseIntEmptyIsNaN();
  }

  /** A block element whose `data-line` is the numeral of `n` anchors line
      `n` when no file name is given. */
  lemma AnchorOfNumeral(n: nat, cs: seq<Elem>)
    ensures AnchorLine(Elem(Some(NatToDecimal(n)), false, cs), []) == Some(n)
  {
    DecimalRoundTrip(n);
    ParseIntOfNumeral(n);
  }

  /** With a file name, the text parsed is what follows the first
      `fname:`, wherever it occurs (other files' entries may come first). */
  lemma LineTextAfterFileName(dl: string, fname: string, idx: int)
    requires fname != [] && idx >= 0 && IndexOf(dl, fname + ":", 0) == idx
    ensures idx + |fname| + 1 <= |dl|
    ensures LineText(dl, fname) == dl[idx + |fname| + 1..]
  {
    assert OccursAt(dl, fname + ":", idx);
  }

  /** The entry of `fname` read off a `data-line` in which its first
      `fname:` follows `before`. */
  lemma LineTextOfEntry(before: string, fname: string, t: string)
    requires fname != [] && IndexOf(before + fname + ":" + t, fname + ":", 0) == |before|
    ensures LineText(before + fname + ":" + t, fname) == t
  {
    var dl := before + fname + ":" + t;
    LineTextAfterFileName(dl, fname, |before|);
    assert dl == (before + fname + ":") + t;
  }

  /** A block element whose `data-line` holds `fname:` followed by the
      numeral of `n`, then nothing or further `;`-separated entries, anchors
      line `n` for the file name `fname` when that is the first `fname:` in
      it, whatever entries come before. */
  lemma AnchorOfFileLine(dl: string, fname: string, n: nat, before: string, rest: string, cs: seq<Elem>)
    requires fname != []
    requires rest == [] || rest[0] == ';'
    requires dl == before + fname + ":" + NatToDecimal(n) + rest
    requires IndexOf(dl, fname + ":", 0) == |before|
    ensures AnchorLine(Elem(Some(dl), false, cs), fname) == Some(n)
  {
    var d := NatToDecimal(n);
    assert dl == before + fname + ":" + (d + rest);
    LineTextOfEntry(before, fname, d + rest);
    DecimalRoundTrip(n);
    ParseIntDigitPrefix(d, rest);
    AnchorOfDataLine(Elem(Some(dl), false, cs), fname, dl, Some(n));
  }

  /** The two entries of the `data-line` `a.mdk:3;b.mdk:5`. */
  lemma TwoFilesShape()
    ensures "a.mdk:3;b.mdk:5" == [] + "a.mdk" + ":" + NatToDecimal(3) + ";b.mdk:5"
    ensures "a.mdk:3;b.mdk:5" == "a.mdk:3;" + "b.mdk" + ":" + NatToDecimal(5) + []
  {
    assert NatToDecimal(3) == "3" && NatToDecimal(5) == "5";
  }

  /** Where each file's first entry starts in `a.mdk:3;b.mdk:5`. */
  lemma TwoFilesEntries()
    ensures IndexOf("a.mdk:3;b.mdk:5", "a.mdk" + ":", 0) == 0
    ensures IndexOf("a.mdk:3;b.mdk:5", "b.mdk" + ":", 0) == |"a.mdk:3;"|
  {
    var dl := "a.mdk:3;b.mdk:5";
    assert "a.mdk" + ":" == "a.mdk:" && "b.mdk" + ":" == "b.mdk:";
    assert dl[0..6] == "a.mdk:";
    IndexOfAt(dl, "a.mdk:", 0, 0);
    forall j | 0 <= j < 8 ensures !OccursAt(dl, "b.mdk:", j) {
      assert dl[j] != 'b';
      assert dl[j..j + 6][0] == dl[j];
    }
    assert dl[8..14] == "b.mdk:";
    IndexOfAt(dl, "b.mdk:", 0, 8);
  }

  /** A `data-line` listing two files, `a.mdk:3;b.mdk:5`, anchors line 3
      for `a.mdk` and line 5 for `b.mdk`. */
  lemma AnchorOfTwoFiles(cs: seq<Elem>)
    ensures AnchorLine(Elem(Some("a.mdk:3;b.mdk:5"), false, cs), "a.mdk") == Some(3)
    ensures AnchorLine(Elem(Some("a.mdk:3;b.mdk:5"), false, cs), "b.mdk") == Some(5)
  {
    TwoFilesShape();
    TwoFilesEntries();
    AnchorOfFileLine("a.mdk:3;b.mdk:5", "a.mdk", 3, [], ";b.mdk:5", cs);
    AnchorOfFileLine("a.mdk:3;b.mdk:5", "b.mdk", 5, "a.mdk:3;", [], cs);
  }

  /** A block element with a non-empty `data-line` anchors what `parseInt`
      reads from its file-filtered text. */
  lemma AnchorOfDataLine(c: Elem, fname: string, dl: string, v: Option<int>)
    requires !c.inline && c.dataLine == Some(dl) && dl != []
    requires ParseInt(LineText(dl, fname)) == v
    ensures AnchorLine(c, fname) == v
  {
  }

  /** The anchor test of `findElemAtLine` for the file name `fname`. The
      search below is stated for any anchor test `anchorOf`; this is the one
      the source uses. */
  function AnchorTest(fname: string): Elem -> Option<int>
  {
    c => AnchorLine(c, fname)
  }

  /** Some element strictly below `e` is an anchor. */
  ghost predicate HasAnchor(e: Elem, anchorOf: Elem -> Option<int>)
    decreases e
  {
    exists k :: 0 <= k < |e.children| && (anchorOf(e.children[k]).Some? || HasAnchor(e.children[k], anchorOf))
  }

  /** The element at `p` below `e`. */
  function ElemAt(e: Elem, p: Path): Option<Elem>
    decreases |p|
  {
    if p == [] then Some(e)
    else if p[0] < |e.children| then ElemAt(e.children[p[0]], p[1..])
    else None
  }

  /** The anchor line of the element at `p`, `None` when there is no element
      there or it is not an anchor. */
  function AnchorAt(e: Elem, p: Path, anchorOf: Elem -> Option<int>): Option<int>
  {
    match ElemAt(e, p)
    case None => None
    case Some(c) => anchorOf(c)
  }

  /** The anchor lines of the children, in order. */
  function ChildLines(cs: seq<Elem>, anchorOf: Elem -> Option<int>): (ls: seq<Option<int>>)
    ensures |ls| == |cs|
    ensures forall k :: 0 <= k < |cs| ==> ls[k] == anchorOf(cs[k])
  {
    seq(|cs|, k requires 0 <= k < |cs| => anchorOf(cs[k]))
  }

  /** The first index at or after `i` of a line past `line`, or `|ls|` when
      there is none. */
  function FirstAbove(ls: seq<Option<int>>, line: int, i: nat): (n: nat)
    requires i <= |ls|
    ensures i <= n <= |ls|
    ensures n < |ls| ==> ls[n].Some? && ls[n].value > line
    ensures forall k :: i <= k < n ==> ls[k].None? || ls[k].value <= line
    decreases |ls| - i
  {
    if i == |ls| then i
    else if ls[i].Some? && ls[i].value > line then i
    else FirstAbove(ls, line, i + 1)
  }

  /** The last index below `n` of a line at most `line`. */
  function LastAtOrBelow(ls: seq<Option<int>>, line: int, n: nat): (r: Option<nat>)
    requires n <= |ls|
    ensures r.Some? ==> r.value < n && ls[r.value].Some? && ls[r.value].value <= line
    ensures forall k :: (if r.Some? then r.value + 1 else 0) <= k < n ==> ls[k].None? || ls[k].value > line
  {
    if n == 0 then None
    else if ls[n - 1].Some? && ls[n - 1].value <= line then Some(n - 1)
    else LastAtOrBelow(ls, line, n - 1)
  }

  /** What the scan over the children's anchor lines `ls` leaves behind:
      the child to start descending at and its line (0 when no anchor at
      most `line` precedes the first anchor past it), and the child to stop
      at with its line (the last child and `line` itself when no anchor is
      past `line`). */
  datatype Bracket = Bracket(current: nat, currentLine: int, next: nat, nextLine: int)

  function ScanChildren(ls: seq<Option<int>>, line: int): (b: Bracket)
    requires ls != []
    ensures b.current <= b.next < |ls|
    ensures b.currentLine <= line || b.currentLine == 0
    ensures b.currentLine == 0 || ls[b.current] == Some(b.currentLine)
    ensures line <= b.nextLine
    ensures b.nextLine == line || ls[b.next] == Some(b.nextLine)
  {
    var fa := FirstAbove(ls, line, 0);
    var next := if fa < |ls| then fa else |ls| - 1;
    var nextLine := if fa < |ls| then ls[fa].value else line;
    match LastAtOrBelow(ls, line, fa)
    case None => Bracket(0, 0, next, nextLine)
    case Some(c) => Bracket(c, ls[c].value, next, nextLine)
  }

  /** What `findElemAtLine` returns: the element found with its line, and
      the next element with its line. */
  datatype Anchor = Anchor(elem: Path, elemLine: int, next: Path, nextLine: int)

  /** The facts every result keeps: both paths lead to elements strictly
      below `e`, `elemLine <= line <= nextLine`, a non-zero `elemLine` is
      the anchor line of `elem`, and a `nextLine` past `line` is the anchor
      line of `next`. */
  ghost predicate WellPlaced(e: Elem, line: int, anchorOf: Elem -> Option<int>, a: Anchor)
  {
    && |a.elem| >= 1 && ElemAt(e, a.elem).Some?
    && |a.next| >= 1 && ElemAt(e, a.next).Some?
    && a.elemLine <= line <= a.nextLine
    && (a.elemLine == 0 || AnchorAt(e, a.elem, anchorOf) == Some(a.elemLine))
    && (a.nextLine == line || AnchorAt(e, a.next, anchorOf) == Some(a.nextLine))
  }

  /** How the result is put together from the scan `b` of the children:
      without a deeper result it is the bracket itself and no child in the
      bracket has an anchor below it; otherwise the search went into the
      first child in the bracket that has one, and took its `next` only when
      that one is past `line`. */
  ghost predicate FromBracket(e: Elem, line: int, anchorOf: Elem -> Option<int>, b: Bracket, a: Anchor)
    requires b.next < |e.children| && |a.elem| >= 1 && |a.next| >= 1
  {
    var cs := e.children;
    && b.current <= a.elem[0] <= b.next
    && b.current <= a.next[0] <= b.next
    && (|a.elem| == 1 ==>
          && a == Anchor([b.current], b.currentLine, [b.next], b.nextLine)
          && forall k :: b.current <= k <= b.next ==> !HasAnchor(cs[k], anchorOf))
    && (|a.elem| > 1 ==>
          && a.elem[0] < |cs| && HasAnchor(cs[a.elem[0]], anchorOf)
          && (forall k :: b.current <= k < a.elem[0] ==> !HasAnchor(cs[k], anchorOf))
          && (if |a.next| == 1 then a.next == [b.next] && a.nextLine == b.nextLine
              else a.next[0] == a.elem[0] && a.nextLine > line))
  }

  lemma ElemAtChild(e: Elem, j: nat, p: Path)
    requires j < |e.children|
    ensures ElemAt(e, [j] + p) == ElemAt(e.children[j], p)
  {
    assert ([j] + p)[1..] == p;
  }

  /** What the descent needs of a bracket `b` of `e`'s children: it lies
      within the children, and its lines are anchors of its children or the
      defaults. */
  ghost predicate BracketOf(e: Elem, line: int, anchorOf: Elem -> Option<int>, b: Bracket)
  {
    && b.current <= b.next < |e.children|
    && (b.currentLine <= line || b.currentLine == 0)
    && (b.currentLine == 0 || anchorOf(e.children[b.current]) == Some(b.currentLine))
    && line <= b.nextLine
    && (b.nextLine == line || anchorOf(e.children[b.next]) == Some(b.nextLine))
  }

  lemma ScanIsBracket(e: Elem, line: int, anchorOf: Elem -> Option<int>)
    requires e.children != []
    ensures BracketOf(e, line, anchorOf, ScanChildren(ChildLines(e.children, anchorOf), line))
  {
  }

  /** Without anchor children the scan covers all children. */
  lemma ScanWithoutAnchors(ls: seq<Option<int>>, line: int)
    requires ls != []
    requires forall k :: 0 <= k < |ls| ==> ls[k].None?
    ensures ScanChildren(ls, line) == Bracket(0, 0, |ls| - 1, line)
  {
  }

  /** The result when no child in the bracket has an anchor below it. */
  lemma BracketPlaced(e: Elem, line: int, anchorOf: Elem -> Option<int>, b: Bracket)
    requires line >= 1 && BracketOf(e, line, anchorOf, b)
    requires forall k :: b.current <= k <= b.next ==> !HasAnchor(e.children[k], anchorOf)
    ensures WellPlaced(e, line, anchorOf, Anchor([b.current], b.currentLine, [b.next], b.nextLine))
    ensures FromBracket(e, line, anchorOf, b, Anchor([b.current], b.currentLine, [b.next], b.nextLine))
  {
    ElemAtChild(e, b.current, []);
    ElemAtChild(e, b.next, []);
  }

  /** The result taken from the first child `j` in the bracket that has an
      anchor below it, whose own result is `c`. */
  lemma DeeperPlaced(e: Elem, line: int, anchorOf: Elem -> Option<int>, b: Bracket, j: nat, c: Anchor)
    requires BracketOf(e, line, anchorOf, b) && b.current <= j <= b.next
    requires HasAnchor(e.children[j], anchorOf) && WellPlaced(e.children[j], line, anchorOf, c)
    requires forall k :: b.current <= k < j ==> !HasAnchor(e.children[k], anchorOf)
    ensures var a := Anchor([j] + c.elem, c.elemLine,
                            if c.nextLine > line then [j] + c.next else [b.next],
                            if c.nextLine > line then c.nextLine else b.nextLine);
            WellPlaced(e, line, anchorOf, a) && FromBracket(e, line, anchorOf, b, a)
  {
    ElemAtChild(e, j, c.elem);
    ElemAtChild(e, j, c.next);
    ElemAtChild(e, b.next, []);
  }

  /** The first loop of `findElemAtLine`: the scan over the children, ending
      at the first anchor past `line`, and whether any anchor was seen. */
  method ScanLoop(cs: seq<Elem>, line: int, anchorOf: Elem -> Option<int>) returns (b: Bracket, found: bool)
    requires cs != []
    ensures b == ScanChildren(ChildLines(cs, anchorOf), line)
    ensures found <==> exists k :: 0 <= k < |cs| && ChildLines(cs, anchorOf)[k].Some?
  {
    ghost var ls := ChildLines(cs, anchorOf);
    var current, currentLine, next, nextLine := 0, 0, |cs| - 1, line;
    found := false;
    var i := 0;
    ghost var fa := FirstAbove(ls, line, 0);
    while i < |cs|
      invariant 0 <= i <= fa
      invariant FirstAbove(ls, line, i) == fa
      invariant next == |cs| - 1 && nextLine == line
      invariant LastAtOrBelow(ls, line, i).None? ==> current == 0 && currentLine == 0
      invariant LastAtOrBelow(ls, line, i).Some? ==>
                  current == LastAtOrBelow(ls, line, i).value && currentLine == ls[current].value
      invariant found <==> exists k :: 0 <= k < i && ls[k].Some?
    {
      var cline := anchorOf(cs[i]);
      assert cline == ls[i];
      assert LastAtOrBelow(ls, line, i + 1)
          == if cline.Some? && cline.value <= line then Some(i) else LastAtOrBelow(ls, line, i);
      if cline.Some? {
        if cline.value <= line {
          found := true;
          currentLine := cline.value;
          current := i;
        }
        if cline.value > line {
          found := true;
          nextLine := cline.value;
          next := i;
          break;
        }
      }
      i := i + 1;
    }
    assert i == fa || i == |cs| == fa;
    b := Bracket(current, currentLine, next, nextLine);
  }

  /** The search of `findElemAtLine(elem, line, fname)` in a present `elem`
      with the anchor test `anchorOf`: `None` when `line` is not positive or
      no element below `e` is an anchor, otherwise a well-placed result
      built from the scan of `e`'s children. */
  method ElemAtLine(e: Elem, line: int, anchorOf: Elem -> Option<int>) returns (r: Option<Anchor>)
    ensures r.Some? <==> line >= 1 && HasAnchor(e, anchorOf)
    ensures r.Some? ==> WellPlaced(e, line, anchorOf, r.value)
    ensures r.Some? ==> FromBracket(e, line, anchorOf, ScanChildren(ChildLines(e.children, anchorOf), line), r.value)
    decreases e, 1
  {
    if line < 1 || |e.children| <= 0 {
      return None;
    }
    var b, found := ScanLoop(e.children, line, anchorOf);
    ScanIsBracket(e, line, anchorOf);
    var res, deeper := DescendLoop(e, line, anchorOf, b);
    if !deeper {
      BracketPlaced(e, line, anchorOf, b);
      if !found {
        ScanWithoutAnchors(ChildLines(e.children, anchorOf), line);
        return None;
      }
    }
    r := Some(res);
  }

  /** The second loop of `findElemAtLine`: the search goes into the
      children in the bracket `b`, in order, and stops at the first one with
      a result. */
  method DescendLoop(e: Elem, line: int, anchorOf: Elem -> Option<int>, b: Bracket) returns (res: Anchor, deeper: bool)
    requires line >= 1 && BracketOf(e, line, anchorOf, b)
    ensures !deeper ==> res == Anchor([b.current], b.currentLine, [b.next], b.nextLine)
                        && forall k :: b.current <= k <= b.next ==> !HasAnchor(e.children[k], anchorOf)
    ensures deeper ==> HasAnchor(e, anchorOf) && WellPlaced(e, line, anchorOf, res) && FromBracket(e, line, anchorOf, b, res)
    decreases e, 0
  {
    res := Anchor([b.current], b.currentLine, [b.next], b.nextLine);
    deeper := false;
    var j := b.current;
    while j <= b.next
      invariant b.current <= j <= b.next + 1
      invariant forall k :: b.current <= k < j ==> !HasAnchor(e.children[k], anchorOf)
      invariant res == Anchor([b.current], b.currentLine, [b.next], b.nextLine)
    {
      var r, hit := DescendChild(e, line, anchorOf, b, j, res);
      if hit {
        res, deeper := r, true;
        return;
      }
      j := j + 1;
    }
  }

  /** One round of the second loop: the search in child `j`, and the result
      updated from it when there is one. */
  method DescendChild(e: Elem, line: int, anchorOf: Elem -> Option<int>, b: Bracket, j: nat, res: Anchor)
      returns (r: Anchor, hit: bool)
    requires line >= 1 && BracketOf(e, line, anchorOf, b) && b.current <= j <= b.next
    requires forall k :: b.current <= k < j ==> !HasAnchor(e.children[k], anchorOf)
    requires res == Anchor([b.current], b.currentLine, [b.next], b.nextLine)
    ensures !hit ==> forall k :: b.current <= k <= j ==> !HasAnchor(e.children[k], anchorOf)
    ensures hit ==> HasAnchor(e, anchorOf) && WellPlaced(e, line, anchorOf, r) && FromBracket(e, line, anchorOf, b, r)
    decreases e, 0, 0
  {
    var child := e.children[j];
    r, hit := res, false;
    if |child.children| > 0 {
      var cres := ElemAtLine(child, line, anchorOf);
      if cres.Some? {
        var c := cres.value;
        DeeperPlaced(e, line, anchorOf, b, j, c);
        r := Anchor([j] + c.elem, c.elemLine,
                    if c.nextLine > line then [j] + c.next else res.next,
                    if c.nextLine > line then c.nextLine else res.nextLine);
        hit := true;
      }
    }
  }

  /** `findElemAtLine(elem, line, fname)`: `null` for a missing element,
      otherwise the search with the `data-line` test for `fname`. */
  method FindElemAtLine(root: Option<Elem>, line: int, fname: string) returns (r: Option<Anchor>)
    ensures root.None? ==> r.None?
    ensures root.Some? ==> (r.Some? <==> line >= 1 && HasAnchor(root.value, AnchorTest(fname)))
    ensures r.Some? ==> WellPlaced(root.value, line, AnchorTest(fname), r.value)
    ensures r.Some? ==> FromBracket(root.value, line, AnchorTest(fname),
                                    ScanChildren(ChildLines(root.value.children, AnchorTest(fname)), line), r.value)
  {
    if root.None? {
      return None;
    }
    r := ElemAtLine(root.value, line, AnchorTest(fname));
  }
}
