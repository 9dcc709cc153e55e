/** `clearHighlights`: every highlight element is replaced by a text node
    holding its text content, and its parent is normalized. The loop over
    `querySelectorAll` renumbers siblings as it goes (each `normalize()`
    merges text nodes), so it is modelled by its overall effect on the tree:
    `Cleared`. */
module Clear {
  import opened KeywordMatch
  import opened Dom
  import opened Highlight

  predicate HasHighlightChild(ch: seq<Node>) {
    exists i :: 0 <= i < |ch| && IsHighlight(ch[i])
  }

  /** The tree after `clearHighlights`: a highlight child becomes a text
      node with its `textContent`, and an element that had such a child is
      normalized (`parent.normalize()` is deep). */
  function Cleared(n: Node): Node
    decreases n, 1
  {
    match n
    case Text(_) => n
    case Element(tag, cls, ch) =>
      var ch' := ClearedList(ch);
      if HasHighlightChild(ch) then Normalize(Element(tag, cls, ch')) else Element(tag, cls, ch')
  }

  function ClearedList(ch: seq<Node>): (r: seq<Node>)
    ensures |r| == |ch|
    decreases ch, 0
  {
    if ch == [] then []
    else [if IsHighlight(ch[0]) then Text(Content(ch[0])) else Cleared(ch[0])] + ClearedList(ch[1..])
  }

  /** A parent that held a highlight is left with no empty and no adjacent
      text nodes, all the way down. */
  lemma ClearedParentNormal(tag: string, cls: set<string>, ch: seq<Node>)
    requires HasHighlightChild(ch)
    ensures Normal(Cleared(Element(tag, cls, ch)))
  {
    NormalizeIsNormal(Element(tag, cls, ClearedList(ch)));
  }

  lemma {:induction false} ClearedListAppend(a: seq<Node>, b: seq<Node>)
    ensures ClearedList(a + b) == ClearedList(a) + ClearedList(b)
  {
    if a == [] {
      assert a + b == b;
    } else {
      assert (a + b)[0] == a[0];
      assert (a + b)[1..] == a[1..] + b;
      ClearedListAppend(a[1..], b);
    }
  }

  /** Whether some child of `here + r` is a highlight, from the parts. */
  lemma HasHighlightChildAppend(a: seq<Node>, b: seq<Node>)
    ensures HasHighlightChild(a + b) <==> HasHighlightChild(a) || HasHighlightChild(b)
  {
    if HasHighlightChild(b) {
      var j :| 0 <= j < |b| && IsHighlight(b[j]);
      assert (a + b)[|a| + j] == b[j];
    }
    if HasHighlightChild(a) {
      var j :| 0 <= j < |a| && IsHighlight(a[j]);
      assert (a + b)[j] == a[j];
    }
  }

  /** Clearing keeps the text content. */
  lemma {:induction false} ClearedContent(n: Node)
    ensures Content(Cleared(n)) == Content(n)
    decreases n, 1
  {
    if n.Element? {
      ClearedListContent(n.children);
      if HasHighlightChild(n.children) {
        NormalizeContent(Element(n.tag, n.classes, ClearedList(n.children)));
      }
    }
  }

  lemma {:induction false} ClearedListContent(ch: seq<Node>)
    ensures ContentList(ClearedList(ch)) == ContentList(ch)
    decreases ch, 0
  {
    if ch != [] {
      if !IsHighlight(ch[0]) {
        ClearedContent(ch[0]);
      }
      ClearedListContent(ch[1..]);
      assert ClearedList(ch)[1..] == ClearedList(ch[1..]);
    }
  }

  /** After clearing, no highlight element is left below the scan root. */
  lemma {:induction false} ClearedNoHighlight(n: Node)
    requires !IsHighlight(n)
    ensures NoHighlight(Cleared(n))
    decreases n, 1
  {
    if n.Element? {
      var ch' := ClearedList(n.children);
      ClearedListNoHighlight(n.children);
      if HasHighlightChild(n.children) {
        NormalizeListNoHighlight(ch');
        MergeNormal(NormalizeList(ch'));
      }
    }
  }

  lemma {:induction false} ClearedListNoHighlight(ch: seq<Node>)
    ensures forall i :: 0 <= i < |ch| ==> NoHighlight(ClearedList(ch)[i])
    decreases ch, 0
  {
    if ch != [] {
      if !IsHighlight(ch[0]) {
        ClearedNoHighlight(ch[0]);
      }
      ClearedListNoHighlight(ch[1..]);
      assert forall i :: 1 <= i < |ch| ==> ClearedList(ch)[i] == ClearedList(ch[1..])[i - 1];
    }
  }

  /** `normalize()` creates no elements, so it adds no highlight. */
  lemma {:induction false} NormalizeNoHighlight(n: Node)
    requires NoHighlight(n)
    ensures NoHighlight(Normalize(n))
    decreases n, 1
  {
    if n.Element? {
      NormalizeListNoHighlight(n.children);
      MergeNormal(NormalizeList(n.children));
    }
  }

  lemma {:induction false} NormalizeListNoHighlight(ch: seq<Node>)
    requires forall i :: 0 <= i < |ch| ==> NoHighlight(ch[i])
    ensures forall x :: x in NormalizeList(ch) ==> NoHighlight(x)
    decreases ch, 0
  {
    if ch != [] {
      NormalizeNoHighlight(ch[0]);
      NormalizeListNoHighlight(ch[1..]);
      assert NormalizeList(ch) == [Normalize(ch[0])] + NormalizeList(ch[1..]);
    }
  }

  /** With no highlight on the page, clearing changes nothing. */
  lemma {:induction false} ClearedNothing(n: Node)
    requires NoHighlight(n)
    ensures Cleared(n) == n
    decreases n, 1
  {
    if n.Element? {
      ClearedListNothing(n.children);
    }
  }

  lemma {:induction false} ClearedListNothing(ch: seq<Node>)
    requires forall i :: 0 <= i < |ch| ==> NoHighlight(ch[i])
    ensures ClearedList(ch) == ch && !HasHighlightChild(ch)
    decreases ch, 0
  {
    if ch != [] {
      ClearedNothing(ch[0]);
      ClearedListNothing(ch[1..]);
      assert ch == [ch[0]] + ch[1..];
    }
  }

  /** The text nodes of the pieces, once the spans are turned back into text. */
  function PieceTexts(ps: seq<Piece>): (r: seq<Node>)
    ensures |r| == |ps|
  {
    seq(|ps|, j requires 0 <= j < |ps| => Text(ps[j].text))
  }

  lemma {:induction false} ClearedPieceNodes(ps: seq<Piece>)
    ensures ClearedList(PieceNodes(ps)) == PieceTexts(ps)
  {
    if ps != [] {
      ClearedPieceNodes(ps[1..]);
      var nodes := PieceNodes(ps);
      assert nodes[1..] == PieceNodes(ps[1..]);
      assert PieceTexts(ps) == [Text(ps[0].text)] + PieceTexts(ps[1..]);
      if ps[0].Mark? {
        assert nodes[0] == Span(ps[0].text);
        assert ContentList([Text(ps[0].text)]) == Content(Text(ps[0].text)) + ContentList([Text(ps[0].text)][1..]);
        assert [Text(ps[0].text)][1..] == [];
        assert Content(nodes[0]) == ps[0].text;
      }
      assert ClearedList(nodes) == [Text(ps[0].text)] + ClearedList(nodes[1..]);
    }
  }

  /** A run of non-empty text nodes merges into one text node holding their
      concatenation. */
  lemma {:induction false} MergePieceTexts(ps: seq<Piece>, rest: seq<Node>)
    requires ps != [] && forall j :: 0 <= j < |ps| ==> ps[j].text != []
    requires Merge(rest) == [] || !Merge(rest)[0].Text?
    ensures Merge(PieceTexts(ps) + rest) == [Text(TextOf(ps))] + Merge(rest)
  {
    var x := PieceTexts(ps) + rest;
    assert x[0] == Text(ps[0].text);
    assert x[1..] == PieceTexts(ps[1..]) + rest;
    if |ps| == 1 {
      assert x[1..] == rest;
      assert ps[1..] == [];
      assert TextOf(ps) == ps[0].text;
    } else {
      MergePieceTexts(ps[1..], rest);
      var m := Merge(x[1..]);
      assert m == [Text(TextOf(ps[1..]))] + Merge(rest);
      assert m[1..] == Merge(rest);
      assert Merge(x) == [Text(ps[0].text + TextOf(ps[1..]))] + m[1..];
    }
  }

  /** One step of `RoundTripFrom` for a text child holding `d`. */
  lemma RoundTripText(d: string, tag: string, ks: seq<string>, r: seq<Node>, rest: seq<Node>)
    requires NonEmptyKeywords(ks) && d != []
    requires rest == [] || !rest[0].Text?
    requires Merge(ClearedList(r)) == rest && forall j :: 0 <= j < |r| ==> Normal(ClearedList(r)[j])
    requires !HasHighlightChild(r) ==> ClearedList(r) == rest
    ensures var h := (if !ExcludedTag(tag) then Expand(d, ks) else [Text(d)]) + r;
      var l := ClearedList(h);
      Merge(l) == [Text(d)] + rest && (forall j :: 0 <= j < |l| ==> Normal(l[j])) &&
      (!HasHighlightChild(h) ==> l == [Text(d)] + rest)
  {
    var here := if !ExcludedTag(tag) then Expand(d, ks) else [Text(d)];
    var ps := Scan(d, ks);
    if !ExcludedTag(tag) && HasMark(ps) {
      assert here == PieceNodes(ps);
      RoundTripMarked(d, ks, r, rest);
    } else {
      assert here == [Text(d)];
      RoundTripUnmarked(d, r, rest);
    }
  }

  /** `RoundTripText` when the text holds a match: the spans are turned
      back into text and merged with their neighbours. */
  lemma RoundTripMarked(d: string, ks: seq<string>, r: seq<Node>, rest: seq<Node>)
    requires NonEmptyKeywords(ks) && d != [] && HasMark(Scan(d, ks))
    requires rest == [] || !rest[0].Text?
    requires Merge(ClearedList(r)) == rest && forall j :: 0 <= j < |r| ==> Normal(ClearedList(r)[j])
    ensures var h := PieceNodes(Scan(d, ks)) + r;
      var l := ClearedList(h);
      Merge(l) == [Text(d)] + rest && (forall j :: 0 <= j < |l| ==> Normal(l[j])) && HasHighlightChild(h)
  {
    var lr := ClearedList(r);
    var ps := Scan(d, ks);
    var here := PieceNodes(ps);
    ClearedListAppend(here, r);
    HasHighlightChildAppend(here, r);
    ClearedPieceNodes(ps);
    ScanPiecesNonEmpty(d, ks);
    ScanText(d, ks);
    MergePieceTexts(ps, lr);
    var n :| 0 <= n < |ps| && ps[n].Mark?;
    assert IsHighlight(here[n]);
    assert ClearedList(here + r) == PieceTexts(ps) + lr;
    TextsThenNormal(ps, lr);
  }

  /** Text nodes followed by normal nodes are all normal. */
  lemma TextsThenNormal(ps: seq<Piece>, lr: seq<Node>)
    requires forall j :: 0 <= j < |lr| ==> Normal(lr[j])
    ensures var x := PieceTexts(ps) + lr; forall j :: 0 <= j < |x| ==> Normal(x[j])
  {
    var x := PieceTexts(ps) + lr;
    forall j | 0 <= j < |x|
      ensures Normal(x[j])
    {
      if j < |ps| {
        assert x[j] == Text(ps[j].text);
      } else {
        assert x[j] == lr[j - |ps|];
      }
    }
  }

  /** `RoundTripText` when the text node is kept as it is. */
  lemma RoundTripUnmarked(d: string, r: seq<Node>, rest: seq<Node>)
    requires d != []
    requires rest == [] || !rest[0].Text?
    requires Merge(ClearedList(r)) == rest && forall j :: 0 <= j < |r| ==> Normal(ClearedList(r)[j])
    requires !HasHighlightChild(r) ==> ClearedList(r) == rest
    ensures var h := [Text(d)] + r;
      var l := ClearedList(h);
      Merge(l) == [Text(d)] + rest && (forall j :: 0 <= j < |l| ==> Normal(l[j])) &&
      (!HasHighlightChild(h) ==> l == [Text(d)] + rest)
  {
    var lr := ClearedList(r);
    var here := [Text(d)];
    ClearedListAppend(here, r);
    HasHighlightChildAppend(here, r);
    assert ClearedList(here) == [Text(d)];
    assert !IsHighlight(here[0]);
    var l := ClearedList(here + r);
    assert forall j :: 1 <= j < |l| ==> l[j] == lr[j - 1];
  }

  /** One step of `RoundTripFrom` for an element child `c`. */
  lemma RoundTripElement(c: Node, ks: seq<string>, r: seq<Node>, rest: seq<Node>)
    requires NonEmptyKeywords(ks) && c.Element? && NoHighlight(c) && Normal(c)
    requires Merge(ClearedList(r)) == rest && forall j :: 0 <= j < |r| ==> Normal(ClearedList(r)[j])
    requires !HasHighlightChild(r) ==> ClearedList(r) == rest
    ensures var h := [Highlighted(c, false, ks)] + r;
      var l := ClearedList(h);
      Merge(l) == [c] + rest && (forall j :: 0 <= j < |l| ==> Normal(l[j])) &&
      (!HasHighlightChild(h) ==> l == [c] + rest)
    decreases c, 2
  {
    var here := [Highlighted(c, false, ks)];
    ClearedListAppend(here, r);
    HasHighlightChildAppend(here, r);
    RoundTrip(c, ks);
    assert !IsHighlight(here[0]);
    assert ClearedList(here) == [c];
    var l := ClearedList(here + r);
    assert l == [c] + ClearedList(r);
    assert Merge(l) == [c] + Merge(ClearedList(r));
  }

  /** Per child list: clearing what a scan produced gives back the
      original children once normalized, and exactly them when the scan
      added no highlight. */
  lemma {:induction false} RoundTripFrom(ch: seq<Node>, tag: string, ks: seq<string>, i: nat)
    requires NonEmptyKeywords(ks) && i <= |ch| && NormalChildren(ch)
    requires forall j :: 0 <= j < |ch| ==> NoHighlight(ch[j]) && Normal(ch[j])
    ensures var l := ClearedList(HighlightedFrom(ch, tag, false, ks, i));
      Merge(l) == ch[i..] &&
      (forall j :: 0 <= j < |l| ==> Normal(l[j])) &&
      (!HasHighlightChild(HighlightedFrom(ch, tag, false, ks, i)) ==> l == ch[i..])
    decreases ch, 0, |ch| - i
  {
    if i == |ch| {
      return;
    }
    RoundTripFrom(ch, tag, ks, i + 1);
    var r := HighlightedFrom(ch, tag, false, ks, i + 1);
    assert ch[i..] == [ch[i]] + ch[i + 1..];
    if ch[i].Text? {
      assert i + 1 < |ch| ==> !ch[i + 1].Text?;
      RoundTripText(ch[i].data, tag, ks, r, ch[i + 1..]);
    } else {
      RoundTripElement(ch[i], ks, r, ch[i + 1..]);
    }
  }

  /** Clearing undoes a scan: on a normal page with no highlight,
      `clearHighlights` after `highlightAllKeywords` restores the page. */
  lemma {:induction false} RoundTrip(n: Node, ks: seq<string>)
    requires NonEmptyKeywords(ks) && NoHighlight(n) && Normal(n)
    ensures Cleared(Highlighted(n, false, ks)) == n
    decreases n, 1
  {
    if n.Element? {
      var ch := n.children;
      RoundTripFrom(ch, n.tag, ks, 0);
      var l := ClearedList(HighlightedFrom(ch, n.tag, false, ks, 0));
      assert ch[0..] == ch;
      NormalListFixed(l);
    }
  }
}
