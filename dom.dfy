/** The rendered preview as a tree of nodes addressed by child-index paths,
    the `findTextNode` search over it, and the one mutation the quick preview
    update performs: replacing the content of one text node. */
module Dom {
  import opened Wrappers

  /** A DOM node: a text node (node type 3) with its content, or any other
      node with its child nodes. */
  datatype Node = Text(content: string) | Element(childNodes: seq<Node>)

  /** A node's address below a root: the child index taken at each level. */
  type Path = seq<nat>

  /** The node at path `p` below `n`, if there is one. */
  function Lookup(n: Node, p: Path): Option<Node>
    decreases p
  {
    if p == [] then Some(n)
    else match n
      case Text(_) => None
      case Element(cs) => if p[0] < |cs| then Lookup(cs[p[0]], p[1..]) else None
  }

  /** There is a text node with content `t` at path `p` below `n`. */
  ghost predicate TextAt(n: Node, p: Path, t: string)
  {
    Lookup(n, p) == Some(Text(t))
  }

  /** Document order on paths: `p` is visited no later than `q` in a
      depth-first pre-order walk (lexicographic order, a prefix first). */
  predicate PathBefore(p: Path, q: Path)
    decreases |p|
  {
    p == [] || (q != [] && (p[0] < q[0] || (p[0] == q[0] && PathBefore(p[1..], q[1..]))))
  }

  /** `findTextNode(elem, text)`: the first text node in depth-first
      pre-order whose content is `text`, as a path; `None` is `null`. */
  function FindTextNode(n: Node, text: string): Option<Path>
    decreases n
  {
    match n
    case Text(c) => if c == text then Some([]) else None
    case Element(cs) => FindInChildren(cs, 0, text)
  }

  /** The loop of `findTextNode` over the children from index `i` on. */
  function FindInChildren(cs: seq<Node>, i: nat, text: string): Option<Path>
    decreases cs, |cs| - i
  {
    if i >= |cs| then None
    else match FindTextNode(cs[i], text)
      case Some(p) => Some([i] + p)
      case None => FindInChildren(cs, i + 1, text)
  }

  lemma {:induction false} FindTextNodeSound(n: Node, text: string)
    ensures FindTextNode(n, text).Some? ==> TextAt(n, FindTextNode(n, text).value, text)
    decreases n, 1
  {
    match n
    case Text(c) =>
    case Element(cs) => FindInChildrenSound(cs, 0, text);
  }

  lemma {:induction false} FindInChildrenSound(cs: seq<Node>, i: nat, text: string)
    ensures var r := FindInChildren(cs, i, text);
      r.Some? ==> |r.value| >= 1 && i <= r.value[0] < |cs| && TextAt(cs[r.value[0]], r.value[1..], text)
    decreases cs, |cs| - i
  {
    if i < |cs| {
      FindTextNodeSound(cs[i], text);
      match FindTextNode(cs[i], text)
      case Some(p) =>
        assert ([i] + p)[1..] == p;
      case None =>
        FindInChildrenSound(cs, i + 1, text);
    }
  }

  /** Every text node with content `text` is found, or one before it in
      document order is. */
  lemma {:induction false} FindTextNodeFirst(n: Node, text: string, q: Path)
    requires TextAt(n, q, text)
    ensures FindTextNode(n, text).Some? && PathBefore(FindTextNode(n, text).value, q)
    decreases n, 1
  {
    match n
    case Text(c) =>
    case Element(cs) =>
      assert q != [] && q[0] < |cs|;
      FindInChildrenFirst(cs, 0, text, q[0], q[1..]);
  }

  lemma {:induction false} FindInChildrenFirst(cs: seq<Node>, i: nat, text: string, j: nat, q: Path)
    requires i <= j < |cs| && TextAt(cs[j], q, text)
    ensures FindInChildren(cs, i, text).Some? && PathBefore(FindInChildren(cs, i, text).value, [j] + q)
    decreases cs, |cs| - i
  {
    assert ([j] + q)[1..] == q;
    match FindTextNode(cs[i], text)
    case Some(p) =>
      assert ([i] + p)[1..] == p;
      if i == j { FindTextNodeFirst(cs[i], text, q); }
    case None =>
      if i == j {
        FindTextNodeFirst(cs[i], text, q);
      } else {
        FindInChildrenFirst(cs, i + 1, text, j, q);
      }
  }

  /** `findTextNode` returns the first text node in document order whose
      content equals `text`, and `null` exactly when there is none. */
  lemma FindTextNodeSpec(n: Node, text: string)
    ensures FindTextNode(n, text).None? <==> forall q :: !TextAt(n, q, text)
    ensures FindTextNode(n, text).Some? ==>
      TextAt(n, FindTextNode(n, text).value, text)
      && forall q :: TextAt(n, q, text) ==> PathBefore(FindTextNode(n, text).value, q)
  {
    FindTextNodeSound(n, text);
    forall q | TextAt(n, q, text)
      ensures FindTextNode(n, text).Some? && PathBefore(FindTextNode(n, text).value, q)
    {
      FindTextNodeFirst(n, text, q);
    }
  }

  /** `n` with the content of the text node at `p` set to `t`; `n` itself when
      there is no text node at `p`. */
  function ReplaceText(n: Node, p: Path, t: string): Node
    decreases p
  {
    if p == [] then (if n.Text? then Text(t) else n)
    else match n
      case Text(_) => n
      case Element(cs) =>
        if p[0] < |cs| then Element(cs[p[0] := ReplaceText(cs[p[0]], p[1..], t)]) else n
  }

  /** Setting `textContent` of one text node: that node now holds `t`, every
      node whose path is not a prefix of `p` is untouched, and no node
      appears or disappears. */
  lemma {:induction false} ReplaceTextFrame(n: Node, p: Path, t: string, q: Path)
    requires Lookup(n, p).Some? && Lookup(n, p).value.Text?
    ensures Lookup(ReplaceText(n, p, t), p) == Some(Text(t))
    ensures !(q <= p) ==> Lookup(ReplaceText(n, p, t), q) == Lookup(n, q)
    ensures Lookup(ReplaceText(n, p, t), q).Some? <==> Lookup(n, q).Some?
    decreases p
  {
    if p != [] {
      var cs := n.childNodes;
      var cs' := cs[p[0] := ReplaceText(cs[p[0]], p[1..], t)];
      if q != [] && q[0] == p[0] {
        ReplaceTextFrame(cs[p[0]], p[1..], t, q[1..]);
      } else {
        ReplaceTextFrame(cs[p[0]], p[1..], t, []);
      }
    }
  }
}
