/** Applying the matches: `highlightInTextNode` replaces one text node by
    its pieces, and `highlightAllKeywords` does so for every node the walker
    returned. */
module Highlight {
  import opened Wrappers
  import opened KeywordMatch
  import opened Dom
  import opened Walker

  /** The nodes `wrapper.innerHTML = highlightedContent` produces from the
      pieces: a text node per unmatched piece, a highlight span per match. */
  function PieceNodes(ps: seq<Piece>): (r: seq<Node>)
    ensures |r| == |ps|
  {
    seq(|ps|, j requires 0 <= j < |ps| => if ps[j].Plain? then Text(ps[j].text) else Span(ps[j].text))
  }

  lemma {:induction false} PieceNodesContent(ps: seq<Piece>)
    ensures ContentList(PieceNodes(ps)) == TextOf(ps)
  {
    if ps != [] {
      PieceNodesContent(ps[1..]);
      assert PieceNodes(ps)[1..] == PieceNodes(ps[1..]);
      var n := PieceNodes(ps)[0];
      assert n.Element? ==> ContentList(n.children) == ps[0].text + ContentList([]);
    }
  }

  /** What a text node holding `d` turns into: its pieces when some keyword
      matches, else the node itself. */
  function Expand(d: string, ks: seq<string>): seq<Node>
    requires NonEmptyKeywords(ks)
  {
    var ps := Scan(d, ks);
    if HasMark(ps) then PieceNodes(ps) else [Text(d)]
  }

  /** Expanding a text node keeps its text. */
  lemma ExpandContent(d: string, ks: seq<string>)
    requires NonEmptyKeywords(ks)
    ensures ContentList(Expand(d, ks)) == d
  {
    var ps := Scan(d, ks);
    ScanText(d, ks);
    PieceNodesContent(ps);
    assert ContentList([Text(d)]) == d + ContentList([]);
  }

  /** The node at path `p` replaced, in its parent's child list, by `news`;
      every other node stays where it was. */
  function Splice(n: Node, p: Path, news: seq<Node>): (r: Node)
    ensures r.Element? == n.Element?
    ensures r.Element? ==> r.tag == n.tag && r.classes == n.classes
    decreases p
  {
    if p == [] || !n.Element? || p[0] >= |n.children| then n
    else
      var ch, k := n.children, p[0];
      if |p| == 1 then Element(n.tag, n.classes, ch[..k] + news + ch[k + 1..])
      else Element(n.tag, n.classes, ch[k := Splice(ch[k], p[1..], news)])
  }

  /** The element at path `q` with its child list replaced by `kids`. */
  function SetChildren(n: Node, q: Path, kids: seq<Node>): (r: Node)
    ensures r.Element? == n.Element?
    decreases q
  {
    if !n.Element? then n
    else if q == [] then Element(n.tag, n.classes, kids)
    else if q[0] < |n.children| then
      Element(n.tag, n.classes, n.children[q[0] := SetChildren(n.children[q[0]], q[1..], kids)])
    else n
  }

  /** Splicing at `p` is rewriting the child list of its parent, the node
      at `p` without its last index. */
  lemma {:induction false} SpliceIsSetChildren(n: Node, p: Path, news: seq<Node>)
    requires |p| >= 1 && NodeAt(n, p).Some?
    ensures var q, k := p[..|p| - 1], p[|p| - 1];
      NodeAt(n, q).Some? && NodeAt(n, q).value.Element? && k < |NodeAt(n, q).value.children| &&
      var ch := NodeAt(n, q).value.children;
      Splice(n, p, news) == SetChildren(n, q, ch[..k] + news + ch[k + 1..])
    decreases p
  {
    var ch := n.children;
    if |p| > 1 {
      var c := ch[p[0]];
      var p' := p[1..];
      SpliceIsSetChildren(c, p', news);
      var q := p[..|p| - 1];
      assert q[0] == p[0] && q[1..] == p'[..|p'| - 1];
      assert p'[|p'| - 1] == p[|p| - 1];
    }
  }

  /** A splice keeps the text content when the new nodes hold the text of
      the node they replace. */
  lemma {:induction false} SpliceContent(n: Node, p: Path, news: seq<Node>)
    requires |p| >= 1 && NodeAt(n, p).Some? && ContentList(news) == Content(NodeAt(n, p).value)
    ensures Content(Splice(n, p, news)) == Content(n)
    decreases p
  {
    var ch, k := n.children, p[0];
    if |p| == 1 {
      ContentListReplace(ch, k, news);
    } else {
      SpliceContent(ch[k], p[1..], news);
      var c' := Splice(ch[k], p[1..], news);
      assert ch[k := c'] == ch[..k] + [c'] + ch[k + 1..];
      assert ContentList([c']) == Content(c') + ContentList([]);
      ContentListReplace(ch, k, [c']);
    }
  }

  /** `highlightInTextNode` keeps the document's text content. */
  lemma SpliceOneContent(n: Node, p: Path, ks: seq<string>)
    requires NonEmptyKeywords(ks)
    ensures Content(SpliceOne(n, p, ks)) == Content(n)
  {
    match NodeAt(n, p)
    case Some(Text(d)) =>
      var ps := Scan(d, ks);
      if HasMark(ps) && p != [] {
        ScanText(d, ks);
        PieceNodesContent(ps);
        SpliceContent(n, p, PieceNodes(ps));
      }
    case _ =>
  }

  /** `highlightInTextNode` on the node at `p`: when it is a text node in
      which some keyword matches, it is replaced by its pieces; otherwise
      nothing changes. */
  function SpliceOne(n: Node, p: Path, ks: seq<string>): Node
    requires NonEmptyKeywords(ks)
  {
    match NodeAt(n, p)
    case Some(Text(d)) =>
      var ps := Scan(d, ks);
      if HasMark(ps) then Splice(n, p, PieceNodes(ps)) else n
    case _ => n
  }

  /** The splices of `highlightAllKeywords`, applied to the paths `ps`
      from the last to the first. */
  function ApplyAll(n: Node, ps: seq<Path>, ks: seq<string>): Node
    requires NonEmptyKeywords(ks)
  {
    if ps == [] then n else SpliceOne(ApplyAll(n, ps[1..], ks), ps[0], ks)
  }

  /** Reference definition of a whole scan, node by node: every eligible
      text node (parent not script-like, no highlight above) is replaced by
      its expansion, everything else is kept. */
  function Highlighted(n: Node, hl: bool, ks: seq<string>): Node
    requires NonEmptyKeywords(ks)
    decreases n, 1
  {
    match n
    case Text(_) => n
    case Element(tag, cls, ch) => Element(tag, cls, HighlightedFrom(ch, tag, hl || HighlightClass in cls, ks, 0))
  }

  function HighlightedFrom(ch: seq<Node>, tag: string, hl: bool, ks: seq<string>, i: nat): seq<Node>
    requires NonEmptyKeywords(ks) && i <= |ch|
    decreases ch, 0, |ch| - i
  {
    if i == |ch| then [] else HighlightedChild(ch[i], tag, hl, ks) + HighlightedFrom(ch, tag, hl, ks, i + 1)
  }

  /** What child `c` of a `tag` element becomes. */
  function HighlightedChild(c: Node, tag: string, hl: bool, ks: seq<string>): seq<Node>
    requires NonEmptyKeywords(ks)
    decreases c, 2
  {
    match c
    case Text(d) => if !ExcludedTag(tag) && !hl then Expand(d, ks) else [c]
    case Element(_, _, _) => [Highlighted(c, hl, ks)]
  }

  /** The `while (wrapper.firstChild) parent.insertBefore(wrapper.firstChild,
      textNode)` loop followed by `parent.removeChild(textNode)`, on the
      parent's child list `kids` with the text node at index `k`: the new
      nodes end up, in order, exactly where the text node was, and every
      other child keeps its place and order. */
  method InsertBeforeAndRemove(kids: seq<Node>, k: nat, wrapper: seq<Node>) returns (result: seq<Node>)
    requires k < |kids|
    ensures result == kids[..k] + wrapper + kids[k + 1..]
  {
    result := kids;
    var rest := wrapper;
    var at := k;
    while rest != []
      invariant |rest| <= |wrapper| && rest == wrapper[|wrapper| - |rest|..]
      invariant at == k + (|wrapper| - |rest|)
      invariant result == kids[..k] + wrapper[..|wrapper| - |rest|] + kids[k..]
    {
      var moved := |wrapper| - |rest|;
      assert wrapper[..moved + 1] == wrapper[..moved] + [rest[0]];
      assert result[..at] == kids[..k] + wrapper[..moved];
      assert result[at..] == kids[k..];
      result := result[..at] + [rest[0]] + result[at..];
      at := at + 1;
      rest := rest[1..];
    }
    assert wrapper[..|wrapper|] == wrapper;
    assert result[..at] == kids[..k] + wrapper;
    assert result[at + 1..] == kids[k + 1..];
    result := result[..at] + result[at + 1..];
  }

  /** `Splice` at a child of the root, written through the parent. */
  lemma SpliceAtChild(tag: string, cls: set<string>, ch: seq<Node>, k: nat, rest: Path, news: seq<Node>)
    requires k < |ch|
    ensures rest == [] ==>
      Splice(Element(tag, cls, ch), [k], news) == Element(tag, cls, ch[..k] + news + ch[k + 1..])
    ensures rest != [] ==>
      Splice(Element(tag, cls, ch), [k] + rest, news) == Element(tag, cls, ch[k := Splice(ch[k], rest, news)])
  {
    assert ([k] + rest)[1..] == rest;
  }

  lemma {:induction false} ApplyAllAppend(n: Node, a: seq<Path>, b: seq<Path>, ks: seq<string>)
    requires NonEmptyKeywords(ks)
    ensures ApplyAll(n, a + b, ks) == ApplyAll(ApplyAll(n, b, ks), a, ks)
  {
    if a == [] {
      assert a + b == b;
    } else {
      assert (a + b)[1..] == a[1..] + b;
      ApplyAllAppend(n, a[1..], b, ks);
    }
  }

  /** The paths `ps` re-rooted at child `i`. */
  function PathsUnder(i: nat, ps: seq<Path>): (r: seq<Path>)
    ensures |r| == |ps|
    ensures forall j :: 0 <= j < |ps| ==> r[j] == [i] + ps[j]
  {
    seq(|ps|, j requires 0 <= j < |ps| => [i] + ps[j])
  }

  lemma {:induction false} AcceptedUnder(i: nat, os: seq<Occurrence>)
    ensures Accepted(Under(i, os)) == PathsUnder(i, Accepted(os))
    decreases |os|
  {
    if os != [] {
      var init := os[..|os| - 1];
      assert Under(i, os)[..|os| - 1] == Under(i, init);
      AcceptedUnder(i, init);
    }
  }

  /** One splice below child `i` only rewrites child `i`. */
  lemma SpliceOneInChild(tag: string, cls: set<string>, x: seq<Node>, c: Node, y: seq<Node>, p: Path, ks: seq<string>)
    requires NonEmptyKeywords(ks) && c.Element?
    ensures SpliceOne(Element(tag, cls, x + [c] + y), [|x|] + p, ks) ==
      Element(tag, cls, x + [SpliceOne(c, p, ks)] + y)
  {
    var ch := x + [c] + y;
    var i := |x|;
    assert ch[i] == c;
    assert ([i] + p)[1..] == p;
    assert NodeAt(Element(tag, cls, ch), [i] + p) == NodeAt(c, p);
    if p != [] {
      match NodeAt(c, p)
      case Some(Text(d)) =>
        var ps := Scan(d, ks);
        if HasMark(ps) {
          SpliceAtChild(tag, cls, ch, i, p, PieceNodes(ps));
          assert ch[i := Splice(c, p, PieceNodes(ps))] == x + [Splice(c, p, PieceNodes(ps))] + y;
        } else {
          assert ch == x + [SpliceOne(c, p, ks)] + y;
        }
      case _ =>
        assert ch == x + [SpliceOne(c, p, ks)] + y;
    } else {
      assert ch == x + [SpliceOne(c, p, ks)] + y;
    }
  }

  lemma {:induction false} ApplyAllInChild(tag: string, cls: set<string>, x: seq<Node>, c: Node, y: seq<Node>,
                                           ps: seq<Path>, ks: seq<string>)
    requires NonEmptyKeywords(ks) && c.Element?
    ensures ApplyAll(Element(tag, cls, x + [c] + y), PathsUnder(|x|, ps), ks) ==
      Element(tag, cls, x + [ApplyAll(c, ps, ks)] + y)
    ensures ApplyAll(c, ps, ks).Element?
  {
    if ps != [] {
      assert PathsUnder(|x|, ps)[1..] == PathsUnder(|x|, ps[1..]);
      ApplyAllInChild(tag, cls, x, c, y, ps[1..], ks);
      var c' := ApplyAll(c, ps[1..], ks);
      SpliceOneInChild(tag, cls, x, c', y, ps[0], ks);
      SpliceOneKeepsElement(c', ps[0], ks);
    }
  }

  lemma SpliceOneKeepsElement(n: Node, p: Path, ks: seq<string>)
    requires NonEmptyKeywords(ks) && n.Element?
    ensures SpliceOne(n, p, ks).Element?
  {
  }

  /** Splicing the walker's nodes from the last to the first gives the
      node-by-node reference result: every eligible text node is expanded
      and nothing else changes. */
  lemma {:induction false} ApplyAllIsHighlighted(n: Node, hl: bool, ks: seq<string>)
    requires NonEmptyKeywords(ks) && n.Element?
    ensures ApplyAll(n, Accepted(Occurrences(n, hl)), ks) == Highlighted(n, hl, ks)
    decreases n, 1
  {
    var hl' := hl || HighlightClass in n.classes;
    ApplyAllFrom(n.tag, n.classes, n.children, hl', ks, 0);
    assert n.children[..0] == [];
  }

  lemma {:induction false} ApplyAllFrom(tag: string, cls: set<string>, ch: seq<Node>, hl: bool, ks: seq<string>, i: nat)
    requires NonEmptyKeywords(ks) && i <= |ch|
    ensures ApplyAll(Element(tag, cls, ch), Accepted(OccurrencesFrom(ch, tag, hl, i)), ks) ==
      Element(tag, cls, ch[..i] + HighlightedFrom(ch, tag, hl, ks, i))
    decreases ch, 0, |ch| - i
  {
    if i == |ch| {
      assert ch[..i] + [] == ch;
    } else {
      var n := Element(tag, cls, ch);
      var here := ChildOccurrences(ch[i], i, tag, hl);
      var later := OccurrencesFrom(ch, tag, hl, i + 1);
      var rest := HighlightedFrom(ch, tag, hl, ks, i + 1);
      ApplyAllFrom(tag, cls, ch, hl, ks, i + 1);
      assert ch[..i + 1] + rest == ch[..i] + [ch[i]] + rest;
      AcceptedAppend(here, later);
      ApplyAllAppend(n, Accepted(here), Accepted(later), ks);
      ApplyAllChild(tag, cls, ch[..i], ch[i], rest, hl, ks);
      assert ch[..i] + HighlightedChild(ch[i], tag, hl, ks) + rest ==
        ch[..i] + (HighlightedChild(ch[i], tag, hl, ks) + rest);
    }
  }

  /** The walker's entries for child `c`, applied, turn it into what the
      reference definition says. */
  lemma ApplyAllChild(tag: string, cls: set<string>, x: seq<Node>, c: Node, y: seq<Node>, hl: bool, ks: seq<string>)
    requires NonEmptyKeywords(ks)
    ensures ApplyAll(Element(tag, cls, x + [c] + y), Accepted(ChildOccurrences(c, |x|, tag, hl)), ks) ==
      Element(tag, cls, x + HighlightedChild(c, tag, hl, ks) + y)
    decreases c, 2
  {
    if c.Text? {
      ApplyAllTextChild(tag, cls, x, c.data, y, hl, ks);
    } else {
      var inner := Occurrences(c, hl);
      AcceptedUnder(|x|, inner);
      ApplyAllInChild(tag, cls, x, c, y, Accepted(inner), ks);
      ApplyAllIsHighlighted(c, hl, ks);
    }
  }

  /** The walker's entry for a text child, applied: the child is expanded
      when it is accepted. */
  lemma ApplyAllTextChild(tag: string, cls: set<string>, x: seq<Node>, d: string, y: seq<Node>, hl: bool,
                          ks: seq<string>)
    requires NonEmptyKeywords(ks)
    ensures ApplyAll(Element(tag, cls, x + [Text(d)] + y), Accepted([Occurrence([|x|], d, tag, hl)]), ks) ==
      Element(tag, cls, x + (if !ExcludedTag(tag) && !hl then Expand(d, ks) else [Text(d)]) + y)
  {
    var i := |x|;
    var ch := x + [Text(d)] + y;
    var o := Occurrence([i], d, tag, hl);
    assert Accepted([o]) == Accepted([]) + (if Accept(o) then [[i]] else []);
    if Accept(o) {
      assert ch[i] == Text(d);
      assert NodeAt(Element(tag, cls, ch), [i]) == Some(Text(d));
      var ps := Scan(d, ks);
      if HasMark(ps) {
        SpliceAtChild(tag, cls, ch, i, [], PieceNodes(ps));
        assert ch[..i] == x && ch[i + 1..] == y;
      }
    }
  }

  /** A scan keeps the document's text content (the pieces are kept as
      text, not re-parsed as markup). */
  lemma {:induction false} HighlightedContent(n: Node, hl: bool, ks: seq<string>)
    requires NonEmptyKeywords(ks)
    ensures Content(Highlighted(n, hl, ks)) == Content(n)
    decreases n, 1
  {
    if n.Element? {
      HighlightedFromContent(n.children, n.tag, hl || HighlightClass in n.classes, ks, 0);
      assert n.children[0..] == n.children;
    }
  }

  lemma {:induction false} HighlightedFromContent(ch: seq<Node>, tag: string, hl: bool, ks: seq<string>, i: nat)
    requires NonEmptyKeywords(ks) && i <= |ch|
    ensures ContentList(HighlightedFrom(ch, tag, hl, ks, i)) == ContentList(ch[i..])
    decreases ch, 0, |ch| - i
  {
    if i < |ch| {
      var here := HighlightedChild(ch[i], tag, hl, ks);
      HighlightedFromContent(ch, tag, hl, ks, i + 1);
      ContentListAppend(here, HighlightedFrom(ch, tag, hl, ks, i + 1));
      assert ch[i..] == [ch[i]] + ch[i + 1..];
      ContentListAppend([ch[i]], ch[i + 1..]);
      assert ContentList([ch[i]]) == Content(ch[i]) + ContentList([]);
      match ch[i]
      case Text(d) =>
        if !ExcludedTag(tag) && !hl {
          ExpandContent(d, ks);
        }
      case Element(_, _, _) =>
        HighlightedContent(ch[i], hl, ks);
        assert ContentList(here) == Content(here[0]) + ContentList([]);
    }
  }

  /** A scan never puts a highlight inside another one. */
  lemma {:induction false} HighlightedNoNesting(n: Node, hl: bool, ks: seq<string>)
    requires NonEmptyKeywords(ks) && NoNestedHighlight(n, hl)
    ensures NoNestedHighlight(Highlighted(n, hl, ks), hl)
    decreases n, 1
  {
    if n.Element? {
      var hl' := hl || HighlightClass in n.classes;
      HighlightedFromNoNesting(n.children, n.tag, hl', ks, 0);
    }
  }

  lemma {:induction false} HighlightedFromNoNesting(ch: seq<Node>, tag: string, hl: bool, ks: seq<string>, i: nat)
    requires NonEmptyKeywords(ks) && i <= |ch|
    requires forall j :: i <= j < |ch| ==> NoNestedHighlight(ch[j], hl)
    ensures forall x :: x in HighlightedFrom(ch, tag, hl, ks, i) ==> NoNestedHighlight(x, hl)
    decreases ch, 0, |ch| - i
  {
    if i < |ch| {
      HighlightedFromNoNesting(ch, tag, hl, ks, i + 1);
      match ch[i]
      case Text(d) =>
        if !ExcludedTag(tag) && !hl {
          var ps := Scan(d, ks);
          if HasMark(ps) {
            PieceNodesNotNested(ps);
          }
        }
      case Element(_, _, _) =>
        HighlightedNoNesting(ch[i], hl, ks);
    }
  }

  lemma {:induction false} PieceNodesNotNested(ps: seq<Piece>)
    ensures forall x :: x in PieceNodes(ps) ==> NoNestedHighlight(x, false)
  {
    if ps != [] {
      PieceNodesNotNested(ps[1..]);
      assert PieceNodes(ps) == [PieceNodes(ps)[0]] + PieceNodes(ps[1..]);
      var x := PieceNodes(ps)[0];
      assert x.Element? ==> NoNestedHighlight(x.children[0], true);
    }
  }

  /** `HighlightedFrom` only looks at the children from `i` on. */
  lemma {:induction false} HighlightedFromShift(a: seq<Node>, b: seq<Node>, tag: string, hl: bool, ks: seq<string>, j: nat)
    requires NonEmptyKeywords(ks) && j <= |b|
    ensures HighlightedFrom(a + b, tag, hl, ks, |a| + j) == HighlightedFrom(b, tag, hl, ks, j)
    decreases |b| - j
  {
    if j < |b| {
      var ab := a + b;
      assert ab[|a| + j] == b[j];
      HighlightedFromShift(a, b, tag, hl, ks, j + 1);
      calc {
        HighlightedFrom(ab, tag, hl, ks, |a| + j);
        HighlightedChild(b[j], tag, hl, ks) + HighlightedFrom(ab, tag, hl, ks, |a| + j + 1);
        HighlightedChild(b[j], tag, hl, ks) + HighlightedFrom(b, tag, hl, ks, j + 1);
      }
    }
  }

  lemma {:induction false} HighlightedFromAppend(a: seq<Node>, b: seq<Node>, tag: string, hl: bool, ks: seq<string>, i: nat)
    requires NonEmptyKeywords(ks) && i <= |a|
    ensures HighlightedFrom(a + b, tag, hl, ks, i) == HighlightedFrom(a, tag, hl, ks, i) + HighlightedFrom(b, tag, hl, ks, 0)
    decreases |a| - i
  {
    if i == |a| {
      HighlightedFromShift(a, b, tag, hl, ks, 0);
    } else {
      assert (a + b)[i] == a[i];
      HighlightedFromAppend(a, b, tag, hl, ks, i + 1);
    }
  }

  /** The nodes a splice inserted are left alone by the next scan:
      unmatched text holds no match on its own, and matched text sits
      inside a highlight. */
  lemma {:induction false} PieceNodesFixed(ps: seq<Piece>, tag: string, ks: seq<string>, i: nat)
    requires NonEmptyKeywords(ks) && i <= |ps|
    requires forall j :: 0 <= j < |ps| && ps[j].Plain? ==> !HasMark(Scan(ps[j].text, ks))
    ensures HighlightedFrom(PieceNodes(ps), tag, false, ks, i) == PieceNodes(ps)[i..]
    decreases |ps| - i
  {
    var nodes := PieceNodes(ps);
    if i < |ps| {
      PieceNodesFixed(ps, tag, ks, i + 1);
      assert nodes[i..] == [nodes[i]] + nodes[i + 1..];
      if ps[i].Mark? {
        var t := [Text(ps[i].text)];
        assert HighlightedFrom(t, "span", true, ks, 1) == [];
        assert HighlightedFrom(t, "span", true, ks, 0) == t;
        assert nodes[i] == Span(ps[i].text);
        assert Highlighted(nodes[i], false, ks) == nodes[i];
      } else {
        assert nodes[i] == Text(ps[i].text);
      }
      assert HighlightedChild(nodes[i], tag, false, ks) == [nodes[i]];
    }
  }

  /** A second scan over the result of a scan changes nothing: the scan the
      observer triggers on the highlighter's own insertions is a no-op. */
  lemma {:induction false} HighlightedIdempotent(n: Node, hl: bool, ks: seq<string>)
    requires NonEmptyKeywords(ks)
    ensures Highlighted(Highlighted(n, hl, ks), hl, ks) == Highlighted(n, hl, ks)
    decreases n, 1
  {
    if n.Element? {
      HighlightedFromIdempotent(n.children, n.tag, hl || HighlightClass in n.classes, ks, 0);
    }
  }

  lemma {:induction false} HighlightedFromIdempotent(ch: seq<Node>, tag: string, hl: bool, ks: seq<string>, i: nat)
    requires NonEmptyKeywords(ks) && i <= |ch|
    ensures var h := HighlightedFrom(ch, tag, hl, ks, i); HighlightedFrom(h, tag, hl, ks, 0) == h
    decreases ch, 0, |ch| - i
  {
    if i < |ch| {
      var r := HighlightedFrom(ch, tag, hl, ks, i + 1);
      HighlightedFromIdempotent(ch, tag, hl, ks, i + 1);
      var here := HighlightedChild(ch[i], tag, hl, ks);
      if ch[i].Text? {
        var d := ch[i].data;
        if !ExcludedTag(tag) && !hl && HasMark(Scan(d, ks)) {
          ScanPlainNoMatch(d, ks);
          PieceNodesFixed(Scan(d, ks), tag, ks, 0);
        }
      } else {
        HighlightedIdempotent(ch[i], hl, ks);
      }
      assert here[0..] == here;
      HighlightedFromAppend(here, r, tag, hl, ks, 0);
    }
  }
}
