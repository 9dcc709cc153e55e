/** `getTextNodes`: the text nodes of the scan root in document order, minus
    those whose parent is a `script`, `style` or `noscript` element or has an
    ancestor-or-self carrying the highlight class. */
module Walker {
  import opened Wrappers
  import opened Dom

  /** A node reference: the child indices leading to it from the scan root. */
  type Path = seq<nat>

  /** A text node met by the tree walker, with what `acceptNode` looks at:
      its parent's tag and whether `parent.closest('.highlight')` finds an
      element. */
  datatype Occurrence = Occurrence(path: Path, data: string, parentTag: string, underHighlight: bool)

  /** The text nodes below `n` in document order (`NodeFilter.SHOW_TEXT`);
      `hl` says whether an ancestor of `n` carries the highlight class. */
  function Occurrences(n: Node, hl: bool): seq<Occurrence>
    decreases n, 1
  {
    match n
    case Text(_) => []
    case Element(tag, cls, ch) => OccurrencesFrom(ch, tag, hl || HighlightClass in cls, 0)
  }

  /** The text nodes of children `ch[i..]` of an element with tag `tag`. */
  function OccurrencesFrom(ch: seq<Node>, tag: string, hl: bool, i: nat): seq<Occurrence>
    requires i <= |ch|
    decreases ch, 0, |ch| - i
  {
    if i == |ch| then [] else ChildOccurrences(ch[i], i, tag, hl) + OccurrencesFrom(ch, tag, hl, i + 1)
  }

  /** The text nodes of child `c`, at index `i` of a `tag` element. */
  function ChildOccurrences(c: Node, i: nat, tag: string, hl: bool): seq<Occurrence>
    decreases c, 2
  {
    match c
    case Text(d) => [Occurrence([i], d, tag, hl)]
    case Element(_, _, _) => Under(i, Occurrences(c, hl))
  }

  /** Occurrences of child `i`, re-rooted at its parent. */
  function Under(i: nat, os: seq<Occurrence>): (r: seq<Occurrence>)
    ensures |r| == |os|
    ensures forall j :: 0 <= j < |os| ==> r[j] == os[j].(path := [i] + os[j].path)
  {
    seq(|os|, j requires 0 <= j < |os| => os[j].(path := [i] + os[j].path))
  }

  /** `acceptNode` returns `FILTER_ACCEPT`. */
  predicate Accept(o: Occurrence) {
    !ExcludedTag(o.parentTag) && !o.underHighlight
  }

  /** The accepted occurrences' paths, in order. */
  function Accepted(os: seq<Occurrence>): seq<Path> {
    if os == [] then []
    else Accepted(os[..|os| - 1]) + (if Accept(os[|os| - 1]) then [os[|os| - 1].path] else [])
  }

  /** The walk loop of `getTextNodes`: `nextNode()` yields the text nodes in
      document order and accepted ones are pushed. */
  method GetTextNodes(root: Node) returns (nodes: seq<Path>)
    ensures nodes == Accepted(Occurrences(root, false))
  {
    var all := Occurrences(root, false);
    nodes := [];
    var i := 0;
    while i < |all|
      invariant i <= |all|
      invariant nodes == Accepted(all[..i])
    {
      assert all[..i + 1][..i] == all[..i];
      if Accept(all[i]) {
        nodes := nodes + [all[i].path];
      }
      i := i + 1;
    }
    assert all[..i] == all;
  }

  // Reference definitions, by walking down a path.

  /** The node at path `p` below `n`. */
  function NodeAt(n: Node, p: Path): Option<Node> {
    if p == [] then Some(n)
    else if n.Element? && p[0] < |n.children| then NodeAt(n.children[p[0]], p[1..])
    else None
  }

  /** `p` leads from `n` to a text node whose parent element is not a
      `script`, `style` or `noscript` element and which has no highlight
      element among the parent and its ancestors (`hl` covers those above
      `n`). */
  predicate Eligible(n: Node, p: Path, hl: bool) {
    n.Element? && |p| >= 1 && p[0] < |n.children| &&
    var hl' := hl || HighlightClass in n.classes;
    var c := n.children[p[0]];
    if |p| == 1 then c.Text? && !ExcludedTag(n.tag) && !hl'
    else Eligible(c, p[1..], hl')
  }

  lemma {:induction false} AcceptedAppend(a: seq<Occurrence>, b: seq<Occurrence>)
    ensures Accepted(a + b) == Accepted(a) + Accepted(b)
    decreases |b|
  {
    if b == [] {
      assert a + b == a;
    } else {
      var c := b[..|b| - 1];
      assert (a + b)[..|a + b| - 1] == a + c;
      AcceptedAppend(a, c);
    }
  }

  /** Every occurrence is a text node of the tree, and it is accepted
      exactly when its path is eligible. */
  lemma {:induction false} OccurrencesSound(n: Node, hl: bool, o: Occurrence)
    requires o in Occurrences(n, hl)
    ensures |o.path| >= 1 && NodeAt(n, o.path) == Some(Text(o.data))
    ensures Accept(o) <==> Eligible(n, o.path, hl)
    decreases n, 1
  {
    OccurrencesFromSound(n.children, n.tag, hl || HighlightClass in n.classes, 0, o, n.classes, hl);
  }

  lemma {:induction false} OccurrencesFromSound(ch: seq<Node>, tag: string, hl': bool, i: nat, o: Occurrence,
                                                cls: set<string>, hl: bool)
    requires i <= |ch| && hl' == (hl || HighlightClass in cls)
    requires o in OccurrencesFrom(ch, tag, hl', i)
    ensures |o.path| >= 1 && i <= o.path[0] < |ch|
    ensures NodeAt(Element(tag, cls, ch), o.path) == Some(Text(o.data))
    ensures Accept(o) <==> Eligible(Element(tag, cls, ch), o.path, hl)
    decreases ch, 0, |ch| - i
  {
    var n := Element(tag, cls, ch);
    var here := ChildOccurrences(ch[i], i, tag, hl');
    assert OccurrencesFrom(ch, tag, hl', i) == here + OccurrencesFrom(ch, tag, hl', i + 1);
    if o in here {
      if ch[i].Text? {
        assert o == Occurrence([i], ch[i].data, tag, hl');
        assert NodeAt(ch[i], []) == Some(ch[i]);
      } else {
        var j :| 0 <= j < |here| && here[j] == o;
        var inner := Occurrences(ch[i], hl')[j];
        assert o == inner.(path := [i] + inner.path);
        OccurrencesSound(ch[i], hl', inner);
        assert o.path[1..] == inner.path;
      }
    } else {
      OccurrencesFromSound(ch, tag, hl', i + 1, o, cls, hl);
    }
  }

  /** Every text node below an element is met by the walk. */
  lemma {:induction false} OccurrencesComplete(n: Node, hl: bool, p: Path, d: string)
    requires |p| >= 1 && NodeAt(n, p) == Some(Text(d))
    ensures exists o :: o in Occurrences(n, hl) && o.path == p
    decreases n, 1
  {
    var hl' := hl || HighlightClass in n.classes;
    OccurrencesFromComplete(n.children, n.tag, hl', 0, p, d);
  }

  lemma {:induction false} OccurrencesFromComplete(ch: seq<Node>, tag: string, hl: bool, i: nat, p: Path, d: string)
    requires i <= |ch| && |p| >= 1 && i <= p[0] < |ch| && NodeAt(ch[p[0]], p[1..]) == Some(Text(d))
    ensures exists o :: o in OccurrencesFrom(ch, tag, hl, i) && o.path == p
    decreases ch, 0, |ch| - i
  {
    var here := ChildOccurrences(ch[i], i, tag, hl);
    var all := OccurrencesFrom(ch, tag, hl, i);
    assert all == here + OccurrencesFrom(ch, tag, hl, i + 1);
    if p[0] == i {
      if ch[i].Text? {
        assert p == [i];
        assert here[0] in all;
      } else {
        OccurrencesComplete(ch[i], hl, p[1..], d);
        var inner :| inner in Occurrences(ch[i], hl) && inner.path == p[1..];
        var j :| 0 <= j < |Occurrences(ch[i], hl)| && Occurrences(ch[i], hl)[j] == inner;
        assert here[j].path == [i] + p[1..] == p;
        assert here[j] in all;
      }
    } else {
      OccurrencesFromComplete(ch, tag, hl, i + 1, p, d);
      var o :| o in OccurrencesFrom(ch, tag, hl, i + 1) && o.path == p;
      assert o in all;
    }
  }

  lemma {:induction false} AcceptedMember(os: seq<Occurrence>, p: Path)
    ensures p in Accepted(os) <==> exists o :: o in os && o.path == p && Accept(o)
    decreases |os|
  {
    if os != [] {
      var init := os[..|os| - 1];
      AcceptedMember(init, p);
      assert os == init + [os[|os| - 1]];
      if exists o :: o in os && o.path == p && Accept(o) {
        var o :| o in os && o.path == p && Accept(o);
        if o != os[|os| - 1] {
          assert o in init;
        }
      }
    }
  }

  /** The walker returns exactly the eligible text nodes: a path is in the
      result if and only if it leads to a text node whose parent is neither
      a script-like element nor inside a highlight. */
  lemma TextNodesExactlyEligible(root: Node, p: Path)
    ensures p in Accepted(Occurrences(root, false)) <==> Eligible(root, p, false)
  {
    var os := Occurrences(root, false);
    AcceptedMember(os, p);
    if p in Accepted(os) {
      var o :| o in os && o.path == p && Accept(o);
      OccurrencesSound(root, false, o);
    }
    if Eligible(root, p, false) {
      EligibleIsText(root, p, false);
      var d := NodeAt(root, p).value.data;
      OccurrencesComplete(root, false, p, d);
      var o :| o in os && o.path == p;
      OccurrencesSound(root, false, o);
    }
  }

  lemma {:induction false} EligibleIsText(n: Node, p: Path, hl: bool)
    requires Eligible(n, p, hl)
    ensures NodeAt(n, p).Some? && NodeAt(n, p).value.Text?
    decreases p
  {
    if |p| > 1 {
      var hl' := hl || HighlightClass in n.classes;
      EligibleIsText(n.children[p[0]], p[1..], hl');
    }
  }
}
