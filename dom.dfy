/** The part of the document tree the highlighter sees: elements with a tag,
    a class set and children, and text nodes. Node identity is not modelled:
    a node is addressed by its path of child indices from the scan root. */
module Dom {
  import opened Ascii

  /** `highlightClassName`. */
  const HighlightClass: string := "linkedin-finder-highlight"

  datatype Node =
    | Text(data: string)
    | Element(tag: string, classes: set<string>, children: seq<Node>)

  /** An element carrying the highlight class. */
  predicate IsHighlight(n: Node) {
    n.Element? && HighlightClass in n.classes
  }

  /** `['script', 'style', 'noscript'].includes(tagName.toLowerCase())`. */
  predicate ExcludedTag(tag: string) {
    var t := Lower(tag);
    t == "script" || t == "style" || t == "noscript"
  }

  /** The marker the highlighter inserts: `<span class="...">match</span>`. */
  function Span(s: string): (r: Node)
    ensures IsHighlight(r) && r.children == [Text(s)]
  {
    Element("span", {HighlightClass}, [Text(s)])
  }

  /** `textContent`. */
  function Content(n: Node): string {
    match n
    case Text(d) => d
    case Element(_, _, ch) => ContentList(ch)
  }

  function ContentList(ch: seq<Node>): string {
    if ch == [] then [] else Content(ch[0]) + ContentList(ch[1..])
  }

  lemma {:induction false} ContentListAppend(a: seq<Node>, b: seq<Node>)
    ensures ContentList(a + b) == ContentList(a) + ContentList(b)
  {
    if a == [] {
      assert a + b == b;
    } else {
      assert (a + b)[1..] == a[1..] + b;
      ContentListAppend(a[1..], b);
    }
  }

  /** The text content of a child list is unchanged when one child is
      replaced by nodes with the same text content. */
  lemma ContentListReplace(ch: seq<Node>, k: nat, news: seq<Node>)
    requires k < |ch| && ContentList(news) == Content(ch[k])
    ensures ContentList(ch[..k] + news + ch[k + 1..]) == ContentList(ch)
  {
    assert ch == ch[..k] + [ch[k]] + ch[k + 1..];
    ContentListAppend(ch[..k] + news, ch[k + 1..]);
    ContentListAppend(ch[..k], news);
    ContentListAppend(ch[..k] + [ch[k]], ch[k + 1..]);
    ContentListAppend(ch[..k], [ch[k]]);
    assert ContentList([ch[k]]) == Content(ch[k]) + ContentList([]);
  }

  /** No element anywhere in the tree carries the highlight class. */
  predicate NoHighlight(n: Node) {
    match n
    case Text(_) => true
    case Element(_, cls, ch) => HighlightClass !in cls && forall i :: 0 <= i < |ch| ==> NoHighlight(ch[i])
  }

  /** No highlight element lies inside another one; `hl` says whether an
      ancestor carries the class. */
  predicate NoNestedHighlight(n: Node, hl: bool) {
    match n
    case Text(_) => true
    case Element(_, cls, ch) =>
      !(hl && HighlightClass in cls) &&
      forall i :: 0 <= i < |ch| ==> NoNestedHighlight(ch[i], hl || HighlightClass in cls)
  }

  /** Adjacent text nodes merged and empty text nodes dropped, in one child
      list whose element children are already normal. */
  function Merge(ch: seq<Node>): (r: seq<Node>)
    ensures |r| <= |ch|
  {
    if ch == [] then []
    else
      var rest := Merge(ch[1..]);
      match ch[0]
      case Text(d) =>
        if d == [] then rest
        else if rest != [] && rest[0].Text? then [Text(d + rest[0].data)] + rest[1..]
        else [Text(d)] + rest
      case Element(_, _, _) => [ch[0]] + rest
  }

  /** `Node.normalize()`: the node and its whole subtree put in normal form. */
  function Normalize(n: Node): Node {
    match n
    case Text(_) => n
    case Element(tag, cls, ch) => Element(tag, cls, Merge(NormalizeList(ch)))
  }

  function NormalizeList(ch: seq<Node>): (r: seq<Node>)
    ensures |r| == |ch|
  {
    if ch == [] then [] else [Normalize(ch[0])] + NormalizeList(ch[1..])
  }

  /** No empty text node and no two adjacent text nodes in a child list. */
  predicate NormalChildren(ch: seq<Node>) {
    (forall i :: 0 <= i < |ch| && ch[i].Text? ==> ch[i].data != []) &&
    (forall i :: 0 <= i < |ch| - 1 && ch[i].Text? ==> !ch[i + 1].Text?)
  }

  /** Every element of the subtree has normal children. */
  predicate Normal(n: Node) {
    match n
    case Text(_) => true
    case Element(_, _, ch) => NormalChildren(ch) && forall i :: 0 <= i < |ch| ==> Normal(ch[i])
  }

  lemma {:induction false} MergeNormal(ch: seq<Node>)
    ensures NormalChildren(Merge(ch))
    ensures forall x :: x in Merge(ch) && x.Element? ==> x in ch
  {
    if ch != [] {
      MergeNormal(ch[1..]);
      var rest := Merge(ch[1..]);
      var r := Merge(ch);
      if ch[0].Text? && ch[0].data != [] && rest != [] && rest[0].Text? {
        assert r[1..] == rest[1..];
        forall i | 0 <= i < |r| - 1 && r[i].Text?
          ensures !r[i + 1].Text?
        {
          if i == 0 {
            assert r[1] == rest[1];
          } else {
            assert r[i] == rest[i] && r[i + 1] == rest[i + 1];
          }
        }
        forall x | x in r && x.Element?
          ensures x in ch
        {
          assert x in rest[1..];
        }
      } else if ch[0].Text? && ch[0].data == [] {
      } else {
        assert r == [ch[0]] + rest;
        forall i | 0 <= i < |r| - 1 && r[i].Text?
          ensures !r[i + 1].Text?
        {
          if i > 0 {
            assert r[i] == rest[i - 1] && r[i + 1] == rest[i];
          }
        }
      }
    }
  }

  /** Merging keeps the text content. */
  lemma {:induction false} MergeContent(ch: seq<Node>)
    ensures ContentList(Merge(ch)) == ContentList(ch)
  {
    if ch != [] {
      MergeContent(ch[1..]);
      var rest := Merge(ch[1..]);
      if ch[0].Text? && ch[0].data != [] && rest != [] && rest[0].Text? {
        var r := Merge(ch);
        assert r[1..] == rest[1..];
        assert ContentList(rest) == rest[0].data + ContentList(rest[1..]);
      }
    }
  }

  /** A child list that is already normal is left as it is. */
  lemma {:induction false} MergeNormalFixed(ch: seq<Node>)
    requires NormalChildren(ch)
    ensures Merge(ch) == ch
  {
    if ch != [] {
      assert NormalChildren(ch[1..]) by {
        forall i | 0 <= i < |ch[1..]| - 1 && ch[1..][i].Text?
          ensures !ch[1..][i + 1].Text?
        {
          assert ch[1..][i] == ch[i + 1] && ch[1..][i + 1] == ch[i + 2];
        }
      }
      MergeNormalFixed(ch[1..]);
      assert ch[1..] != [] && ch[0].Text? ==> !ch[1].Text?;
      assert ch == [ch[0]] + ch[1..];
    }
  }

  /** Normalizing keeps the text content. */
  lemma {:induction false} NormalizeContent(n: Node)
    ensures Content(Normalize(n)) == Content(n)
    decreases n, 1
  {
    if n.Element? {
      NormalizeListContent(n.children);
      MergeContent(NormalizeList(n.children));
    }
  }

  lemma {:induction false} NormalizeListContent(ch: seq<Node>)
    ensures ContentList(NormalizeList(ch)) == ContentList(ch)
    decreases ch, 0
  {
    if ch != [] {
      NormalizeContent(ch[0]);
      NormalizeListContent(ch[1..]);
      assert NormalizeList(ch)[1..] == NormalizeList(ch[1..]);
    }
  }

  /** After `normalize()` the whole subtree is normal. */
  lemma {:induction false} NormalizeIsNormal(n: Node)
    ensures Normal(Normalize(n))
    decreases n, 1
  {
    if n.Element? {
      var ch := NormalizeList(n.children);
      NormalizeListIsNormal(n.children);
      MergeNormal(ch);
      forall x | x in Merge(ch)
        ensures Normal(x)
      {
        if x.Element? {
          assert x in ch;
        }
      }
    }
  }

  lemma {:induction false} NormalizeListIsNormal(ch: seq<Node>)
    ensures forall x :: x in NormalizeList(ch) ==> Normal(x)
    decreases ch, 0
  {
    if ch != [] {
      NormalizeIsNormal(ch[0]);
      NormalizeListIsNormal(ch[1..]);
      assert NormalizeList(ch) == [Normalize(ch[0])] + NormalizeList(ch[1..]);
    }
  }

  /** A normal tree is its own normal form. */
  lemma {:induction false} NormalFixed(n: Node)
    requires Normal(n)
    ensures Normalize(n) == n
    decreases n, 1
  {
    if n.Element? {
      NormalListFixed(n.children);
      MergeNormalFixed(n.children);
    }
  }

  lemma {:induction false} NormalListFixed(ch: seq<Node>)
    requires forall i :: 0 <= i < |ch| ==> Normal(ch[i])
    ensures NormalizeList(ch) == ch
    decreases ch, 0
  {
    if ch != [] {
      NormalFixed(ch[0]);
      NormalListFixed(ch[1..]);
      assert ch == [ch[0]] + ch[1..];
    }
  }
}
