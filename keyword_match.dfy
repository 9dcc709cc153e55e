/** The matcher behind `content.replace(new RegExp('\\b(' + pattern + ')\\b',
    'gi'), ...)` in `highlightInTextNode`, written out as an explicit scanner
    over the text: word boundaries are ASCII `\b`, case is ignored by ASCII
    folding, the alternation is ordered (the first keyword in list order that
    fits wins, not the longest), and a global replace resumes scanning at the
    end of the previous match. */
module KeywordMatch {
  import opened Wrappers
  import opened Ascii

  /** Every keyword is non-empty, as the keyword editor guarantees. */
  predicate NonEmptyKeywords(ks: seq<string>) {
    forall j :: 0 <= j < |ks| ==> ks[j] != []
  }

  /** A word character at position `i` (positions outside the text are not). */
  predicate WordAt(t: string, i: int) {
    0 <= i < |t| && IsWordChar(t[i])
  }

  /** `\b` between `t[i-1]` and `t[i]`. */
  predicate BoundaryAt(t: string, i: int) {
    WordAt(t, i - 1) != WordAt(t, i)
  }

  /** `\b` + keyword (ignoring case) + `\b` matches at position `i`. */
  predicate MatchesAt(t: string, i: nat, k: string) {
    i + |k| <= |t| && EqualsIgnoreCase(t[i..i + |k|], k) &&
    BoundaryAt(t, i) && BoundaryAt(t, i + |k|)
  }

  /** The alternation tried from keyword `j` on. */
  function FirstMatchFrom(t: string, i: nat, ks: seq<string>, j: nat): (r: Option<nat>)
    requires j <= |ks|
    ensures r.Some? ==> j <= r.value < |ks| && i + |ks[r.value]| <= |t|
    decreases |ks| - j
  {
    if j == |ks| then None
    else if MatchesAt(t, i, ks[j]) then Some(j)
    else FirstMatchFrom(t, i, ks, j + 1)
  }

  /** Tried from keyword `j` on, the alternation takes the first keyword that
      matches, and finds none only when none matches. */
  lemma {:induction false} FirstMatchFromIs(t: string, i: nat, ks: seq<string>, j: nat)
    requires j <= |ks|
    ensures var r := FirstMatchFrom(t, i, ks, j);
      (r.Some? ==> MatchesAt(t, i, ks[r.value]) && forall m :: j <= m < r.value ==> !MatchesAt(t, i, ks[m])) &&
      (r.None? ==> forall m :: j <= m < |ks| ==> !MatchesAt(t, i, ks[m]))
    decreases |ks| - j
  {
    if j < |ks| && !MatchesAt(t, i, ks[j]) {
      FirstMatchFromIs(t, i, ks, j + 1);
    }
  }

  /** The alternative the regular-expression engine takes at position `i`:
      the index of the first keyword, in list order, that matches there. */
  function FirstMatch(t: string, i: nat, ks: seq<string>): (r: Option<nat>)
    ensures r.Some? ==> r.value < |ks| && i + |ks[r.value]| <= |t|
  {
    FirstMatchFrom(t, i, ks, 0)
  }

  /** At position `i` the engine takes the first keyword in list order that
      matches with a word boundary on both sides; when it finds none, no
      keyword matches there. */
  lemma FirstMatchIs(t: string, i: nat, ks: seq<string>)
    ensures var r := FirstMatch(t, i, ks);
      (r.Some? ==> MatchesAt(t, i, ks[r.value]) && forall m :: 0 <= m < r.value ==> !MatchesAt(t, i, ks[m])) &&
      (r.None? ==> forall m :: 0 <= m < |ks| ==> !MatchesAt(t, i, ks[m]))
  {
    FirstMatchFromIs(t, i, ks, 0);
  }

  /** The replace result as a list of pieces: unmatched text, and matched
      text that becomes a highlight span (holding the text as found, not the
      keyword). */
  datatype Piece = Plain(text: string) | Mark(text: string)

  function TextOf(ps: seq<Piece>): string {
    if ps == [] then [] else ps[0].text + TextOf(ps[1..])
  }

  predicate HasMark(ps: seq<Piece>) {
    exists n :: 0 <= n < |ps| && ps[n].Mark?
  }

  /** The global replace: `t[start..i]` is unmatched text not yet emitted,
      and scanning continues at `i`. */
  function ScanFrom(t: string, ks: seq<string>, start: nat, i: nat): seq<Piece>
    requires NonEmptyKeywords(ks) && start <= i <= |t|
    decreases |t| - i
  {
    var pending := if start < i then [Plain(t[start..i])] else [];
    if i == |t| then pending
    else match FirstMatch(t, i, ks)
      case None => ScanFrom(t, ks, start, i + 1)
      case Some(j) =>
        var e := i + |ks[j]|;
        pending + [Mark(t[i..e])] + ScanFrom(t, ks, e, e)
  }

  /** The pieces of text `t` under keyword list `ks`. */
  function Scan(t: string, ks: seq<string>): seq<Piece>
    requires NonEmptyKeywords(ks)
  {
    ScanFrom(t, ks, 0, 0)
  }

  /** The conditions on one piece `p` at position `pos`, followed by `next`. */
  predicate PieceOk(t: string, ks: seq<string>, pos: nat, p: Piece, next: seq<Piece>) {
    var s := p.text;
    pos + |s| <= |t| && t[pos..pos + |s|] == s &&
    if p.Plain? then
      s != [] && (next == [] || next[0].Mark?) &&
      forall q :: pos <= q < pos + |s| ==> FirstMatch(t, q, ks).None?
    else
      var m := FirstMatch(t, pos, ks);
      m.Some? && |s| == |ks[m.value]|
  }

  /** Reference definition of a correct scan of `t[pos..]`, piece by piece:
      the text is covered exactly; unmatched pieces are non-empty, are never
      adjacent, and no keyword matches at any position inside them (matches
      are leftmost); each highlighted piece is the text of the first keyword
      in list order that matches at its position, and the next piece starts
      where it ends (matches do not overlap). */
  predicate Sound(t: string, ks: seq<string>, pos: nat, ps: seq<Piece>)
    decreases ps
  {
    if ps == [] then pos == |t|
    else PieceOk(t, ks, pos, ps[0], ps[1..]) && Sound(t, ks, pos + |ps[0].text|, ps[1..])
  }

  /** A sound piece list grows by one piece at the front. */
  lemma SoundCons(t: string, ks: seq<string>, pos: nat, p: Piece, rest: seq<Piece>)
    requires PieceOk(t, ks, pos, p, rest) && Sound(t, ks, pos + |p.text|, rest)
    ensures Sound(t, ks, pos, [p] + rest)
  {
    assert ([p] + rest)[0] == p && ([p] + rest)[1..] == rest;
  }

  /** A match followed by a sound rest is sound. */
  lemma SoundMark(t: string, ks: seq<string>, i: nat, tail: seq<Piece>)
    requires i < |t| && FirstMatch(t, i, ks).Some?
    requires Sound(t, ks, i + |ks[FirstMatch(t, i, ks).value]|, tail)
    ensures Sound(t, ks, i, [Mark(t[i..i + |ks[FirstMatch(t, i, ks).value]|])] + tail)
  {
    var e := i + |ks[FirstMatch(t, i, ks).value]|;
    assert PieceOk(t, ks, i, Mark(t[i..e]), tail);
    SoundCons(t, ks, i, Mark(t[i..e]), tail);
  }

  /** Unmatched text in which no keyword matches, followed by a sound rest
      that starts with a match, is sound. */
  lemma SoundPlainBefore(t: string, ks: seq<string>, start: nat, i: nat, rest: seq<Piece>)
    requires start < i <= |t|
    requires forall q :: start <= q < i ==> FirstMatch(t, q, ks).None?
    requires rest == [] || rest[0].Mark?
    requires Sound(t, ks, i, rest)
    ensures Sound(t, ks, start, [Plain(t[start..i])] + rest)
  {
    assert PieceOk(t, ks, start, Plain(t[start..i]), rest);
    SoundCons(t, ks, start, Plain(t[start..i]), rest);
  }

  /** Pending unmatched text followed by a match is sound when what follows
      the match is. */
  lemma SoundMarkStep(t: string, ks: seq<string>, start: nat, i: nat, tail: seq<Piece>)
    requires NonEmptyKeywords(ks) && start <= i < |t|
    requires forall q :: start <= q < i ==> FirstMatch(t, q, ks).None?
    requires FirstMatch(t, i, ks).Some?
    requires Sound(t, ks, i + |ks[FirstMatch(t, i, ks).value]|, tail)
    ensures var e := i + |ks[FirstMatch(t, i, ks).value]|;
      var pending := if start < i then [Plain(t[start..i])] else [];
      Sound(t, ks, start, pending + [Mark(t[i..e])] + tail)
  {
    var e := i + |ks[FirstMatch(t, i, ks).value]|;
    var marked := [Mark(t[i..e])] + tail;
    SoundMark(t, ks, i, tail);
    if start < i {
      SoundPlainBefore(t, ks, start, i, marked);
      assert [Plain(t[start..i])] + [Mark(t[i..e])] + tail == [Plain(t[start..i])] + marked;
    } else {
      assert [] + [Mark(t[i..e])] + tail == marked;
    }
  }

  lemma {:induction false} ScanFromSound(t: string, ks: seq<string>, start: nat, i: nat)
    requires NonEmptyKeywords(ks) && start <= i <= |t|
    requires forall q :: start <= q < i ==> FirstMatch(t, q, ks).None?
    ensures Sound(t, ks, start, ScanFrom(t, ks, start, i))
    decreases |t| - i
  {
    if i == |t| {
      if start < i {
        SoundCons(t, ks, start, Plain(t[start..i]), []);
        assert [Plain(t[start..i])] + [] == [Plain(t[start..i])];
      }
    } else if FirstMatch(t, i, ks).None? {
      ScanFromSound(t, ks, start, i + 1);
    } else {
      var e := i + |ks[FirstMatch(t, i, ks).value]|;
      ScanFromSound(t, ks, e, e);
      SoundMarkStep(t, ks, start, i, ScanFrom(t, ks, e, e));
    }
  }

  /** The scan meets the reference definition. */
  lemma ScanSound(t: string, ks: seq<string>)
    requires NonEmptyKeywords(ks)
    ensures Sound(t, ks, 0, Scan(t, ks))
  {
    ScanFromSound(t, ks, 0, 0);
  }

  /** The first position at or after `pos` where some keyword matches, or
      the end of the text. */
  function NextMatch(t: string, ks: seq<string>, pos: nat): nat
    decreases |t| - pos
  {
    if pos >= |t| then |t|
    else if FirstMatch(t, pos, ks).Some? then pos
    else NextMatch(t, ks, pos + 1)
  }

  lemma {:induction false} NextMatchIs(t: string, ks: seq<string>, pos: nat, e: nat)
    requires pos <= e <= |t|
    requires forall q :: pos <= q < e ==> FirstMatch(t, q, ks).None?
    requires e == |t| || FirstMatch(t, e, ks).Some?
    ensures NextMatch(t, ks, pos) == e
    decreases e - pos
  {
    if pos < e {
      NextMatchIs(t, ks, pos + 1, e);
    }
  }

  lemma SoundAtEnd(t: string, ks: seq<string>, pos: nat, ps: seq<Piece>)
    requires NonEmptyKeywords(ks) && Sound(t, ks, pos, ps)
    ensures ps == [] <==> pos == |t|
  {
    if ps != [] {
      assert ps[0].Mark? ==> |ps[0].text| > 0;
    }
  }

  /** A piece is unmatched text exactly when no keyword matches where it
      starts, and then it runs up to the next match or the end. */
  lemma SoundHeadKind(t: string, ks: seq<string>, pos: nat, ps: seq<Piece>)
    requires Sound(t, ks, pos, ps) && ps != []
    ensures ps[0].Plain? <==> FirstMatch(t, pos, ks).None?
    ensures ps[0].Mark? ==> |ps[0].text| == |ks[FirstMatch(t, pos, ks).value]|
  {
    assert PieceOk(t, ks, pos, ps[0], ps[1..]);
  }

  lemma SoundHead(t: string, ks: seq<string>, pos: nat, ps: seq<Piece>)
    requires NonEmptyKeywords(ks) && Sound(t, ks, pos, ps) && ps != []
    ensures ps[0].Plain? <==> FirstMatch(t, pos, ks).None?
    ensures ps[0].Plain? ==> pos + |ps[0].text| == NextMatch(t, ks, pos)
    ensures ps[0].Mark? ==> |ps[0].text| == |ks[FirstMatch(t, pos, ks).value]|
  {
    SoundHeadKind(t, ks, pos, ps);
    var e := pos + |ps[0].text|;
    if ps[0].Plain? {
      assert PieceOk(t, ks, pos, ps[0], ps[1..]);
      assert Sound(t, ks, e, ps[1..]);
      if ps[1..] != [] {
        SoundHeadKind(t, ks, e, ps[1..]);
      } else {
        SoundAtEnd(t, ks, e, ps[1..]);
      }
      NextMatchIs(t, ks, pos, e);
    }
  }

  lemma SoundHeadsEqual(t: string, ks: seq<string>, pos: nat, a: seq<Piece>, b: seq<Piece>)
    requires NonEmptyKeywords(ks)
    requires Sound(t, ks, pos, a) && Sound(t, ks, pos, b) && a != [] && b != []
    ensures a[0] == b[0]
    ensures Sound(t, ks, pos + |a[0].text|, a[1..]) && Sound(t, ks, pos + |a[0].text|, b[1..])
  {
    SoundHead(t, ks, pos, a);
    SoundHead(t, ks, pos, b);
    var n := |a[0].text|;
    assert n == |b[0].text|;
    assert PieceOk(t, ks, pos, a[0], a[1..]) && PieceOk(t, ks, pos, b[0], b[1..]);
    if a[0].Plain? {
      assert a[0] == Plain(t[pos..pos + n]) == b[0];
    } else {
      assert a[0] == Mark(t[pos..pos + n]) == b[0];
    }
  }

  /** The reference definition allows only one piece list, so it pins the
      scan down completely. */
  lemma {:induction false} SoundUnique(t: string, ks: seq<string>, pos: nat, a: seq<Piece>, b: seq<Piece>)
    requires NonEmptyKeywords(ks)
    requires Sound(t, ks, pos, a) && Sound(t, ks, pos, b)
    ensures a == b
    decreases a
  {
    SoundAtEnd(t, ks, pos, a);
    SoundAtEnd(t, ks, pos, b);
    if a != [] {
      SoundHeadsEqual(t, ks, pos, a, b);
      SoundUnique(t, ks, pos + |a[0].text|, a[1..], b[1..]);
      assert a == [a[0]] + a[1..] && b == [b[0]] + b[1..];
    }
  }

  /** The pieces spell out the text they were cut from. */
  lemma {:induction false} SoundText(t: string, ks: seq<string>, pos: nat, ps: seq<Piece>)
    requires Sound(t, ks, pos, ps)
    ensures pos <= |t| && TextOf(ps) == t[pos..]
    decreases ps
  {
    if ps != [] {
      var s := ps[0].text;
      SoundText(t, ks, pos + |s|, ps[1..]);
      assert t[pos..] == t[pos..pos + |s|] + t[pos + |s|..];
    }
  }

  /** Concatenating the replace result gives back the original content. */
  lemma ScanText(t: string, ks: seq<string>)
    requires NonEmptyKeywords(ks)
    ensures TextOf(Scan(t, ks)) == t
  {
    ScanSound(t, ks);
    SoundText(t, ks, 0, Scan(t, ks));
  }

  lemma {:induction false} SoundPiecesNonEmpty(t: string, ks: seq<string>, pos: nat, ps: seq<Piece>)
    requires NonEmptyKeywords(ks) && Sound(t, ks, pos, ps)
    ensures forall j :: 0 <= j < |ps| ==> ps[j].text != []
    decreases ps
  {
    if ps != [] {
      SoundPiecesNonEmpty(t, ks, pos + |ps[0].text|, ps[1..]);
      assert forall j :: 1 <= j < |ps| ==> ps[j] == ps[1..][j - 1];
    }
  }

  /** No piece of the replace result is empty: keywords are non-empty, and
      unmatched text is only emitted when there is some. */
  lemma ScanPiecesNonEmpty(t: string, ks: seq<string>)
    requires NonEmptyKeywords(ks)
    ensures forall j :: 0 <= j < |Scan(t, ks)| ==> Scan(t, ks)[j].text != []
  {
    ScanSound(t, ks);
    SoundPiecesNonEmpty(t, ks, 0, Scan(t, ks));
  }

  lemma {:induction false} SoundMarkIff(t: string, ks: seq<string>, pos: nat, ps: seq<Piece>)
    requires NonEmptyKeywords(ks)
    requires Sound(t, ks, pos, ps)
    ensures HasMark(ps) <==> exists q :: pos <= q < |t| && FirstMatch(t, q, ks).Some?
    decreases ps
  {
    if ps != [] {
      var s := ps[0].text;
      SoundMarkIff(t, ks, pos + |s|, ps[1..]);
      if ps[0].Mark? {
        assert pos < |t| && FirstMatch(t, pos, ks).Some?;
        assert HasMark(ps) by {
          assert ps[0].Mark?;
        }
      } else {
        if HasMark(ps[1..]) {
          var n :| 0 <= n < |ps[1..]| && ps[1..][n].Mark?;
          assert ps[n + 1].Mark?;
        }
        if HasMark(ps) {
          var n :| 0 <= n < |ps| && ps[n].Mark?;
          assert ps[1..][n - 1].Mark?;
        }
        if exists q :: pos <= q < |t| && FirstMatch(t, q, ks).Some? {
          var q :| pos <= q < |t| && FirstMatch(t, q, ks).Some?;
          assert pos + |s| <= q;
        }
      }
    }
  }

  /** `hasMatch` is set exactly when some keyword matches somewhere in the
      text; otherwise the replace leaves the content as it was. */
  lemma ScanHasMarkIff(t: string, ks: seq<string>)
    requires NonEmptyKeywords(ks)
    ensures HasMark(Scan(t, ks)) <==> exists q :: 0 <= q < |t| && FirstMatch(t, q, ks).Some?
  {
    ScanSound(t, ks);
    SoundMarkIff(t, ks, 0, Scan(t, ks));
  }

  /** A boundary inside the slice `t[a..b]` is a boundary of `t`, when the
      slice's own ends are boundaries of `t` (or ends of `t`). */
  lemma BoundaryInSlice(t: string, a: nat, b: nat, q: nat)
    requires a <= b <= |t| && q <= b - a
    requires a == 0 || BoundaryAt(t, a)
    requires b == |t| || BoundaryAt(t, b)
    requires BoundaryAt(t[a..b], q)
    ensures BoundaryAt(t, a + q)
  {
    var s := t[a..b];
    if 0 < q < |s| {
      assert s[q - 1] == t[a + q - 1] && s[q] == t[a + q];
    } else if q == 0 && a == 0 && |s| > 0 {
      assert s[0] == t[0];
    } else if q == |s| && b == |t| && |s| > 0 {
      assert s[q - 1] == t[a + q - 1];
    }
  }

  /** A match inside such a slice is a match in `t` at the same place. */
  lemma MatchInSlice(t: string, a: nat, b: nat, q: nat, k: string)
    requires a <= b <= |t|
    requires a == 0 || BoundaryAt(t, a)
    requires b == |t| || BoundaryAt(t, b)
    ensures MatchesAt(t[a..b], q, k) ==> MatchesAt(t, a + q, k)
  {
    if MatchesAt(t[a..b], q, k) {
      BoundaryInSlice(t, a, b, q);
      BoundaryInSlice(t, a, b, q + |k|);
      var s := t[a..b];
      var u, v := s[q..q + |k|], t[a + q..a + q + |k|];
      forall x | 0 <= x < |k|
        ensures u[x] == v[x]
      {
        assert s[q + x] == t[a + q + x];
      }
      assert u == v;
    }
  }

  /** A highlighted piece starts and ends at word boundaries. */
  lemma MarkBoundaries(t: string, ks: seq<string>, pos: nat, p: Piece, next: seq<Piece>)
    requires PieceOk(t, ks, pos, p, next) && p.Mark?
    ensures BoundaryAt(t, pos) && BoundaryAt(t, pos + |p.text|)
  {
    FirstMatchIs(t, pos, ks);
  }

  /** Text between two word boundaries (or ends of `t`) in which no keyword
      matches holds no match once cut out on its own. */
  lemma PlainSliceNoMatch(t: string, ks: seq<string>, a: nat, b: nat)
    requires NonEmptyKeywords(ks) && a <= b <= |t|
    requires a == 0 || BoundaryAt(t, a)
    requires b == |t| || BoundaryAt(t, b)
    requires forall q :: a <= q < b ==> FirstMatch(t, q, ks).None?
    ensures !HasMark(Scan(t[a..b], ks))
  {
    var s := t[a..b];
    forall q, m | 0 <= q < |s| && 0 <= m < |ks|
      ensures !MatchesAt(s, q, ks[m])
    {
      MatchInSlice(t, a, b, q, ks[m]);
      FirstMatchIs(t, a + q, ks);
    }
    forall q | 0 <= q < |s|
      ensures FirstMatch(s, q, ks).None?
    {
      FirstMatchIs(s, q, ks);
    }
    ScanHasMarkIff(s, ks);
  }

  /** Unmatched text, scanned again on its own, still holds no match: its
      ends are word boundaries or ends of the text, so cutting it out adds
      no boundary. */
  lemma {:induction false} SoundPlainNoMatch(t: string, ks: seq<string>, pos: nat, ps: seq<Piece>)
    requires NonEmptyKeywords(ks) && Sound(t, ks, pos, ps)
    requires ps == [] || ps[0].Mark? || pos == 0 || BoundaryAt(t, pos)
    ensures forall j :: 0 <= j < |ps| && ps[j].Plain? ==> !HasMark(Scan(ps[j].text, ks))
    decreases ps
  {
    if ps != [] {
      var e := pos + |ps[0].text|;
      assert PieceOk(t, ks, pos, ps[0], ps[1..]);
      if ps[0].Plain? {
        if ps[1..] == [] {
          SoundAtEnd(t, ks, e, ps[1..]);
        } else {
          assert PieceOk(t, ks, e, ps[1..][0], ps[1..][1..]);
          MarkBoundaries(t, ks, e, ps[1..][0], ps[1..][1..]);
        }
        PlainSliceNoMatch(t, ks, pos, e);
      } else {
        MarkBoundaries(t, ks, pos, ps[0], ps[1..]);
      }
      SoundPlainNoMatch(t, ks, e, ps[1..]);
      assert forall j :: 1 <= j < |ps| ==> ps[j] == ps[1..][j - 1];
    }
  }

  /** Every unmatched piece of a scan is left alone when scanned again. */
  lemma ScanPlainNoMatch(t: string, ks: seq<string>)
    requires NonEmptyKeywords(ks)
    ensures forall j :: 0 <= j < |Scan(t, ks)| && Scan(t, ks)[j].Plain? ==> !HasMark(Scan(Scan(t, ks)[j].text, ks))
  {
    ScanSound(t, ks);
    SoundPlainNoMatch(t, ks, 0, Scan(t, ks));
  }

  /** With no keywords nothing is ever highlighted. */
  lemma {:induction false} ScanNoKeywords(t: string, start: nat, i: nat)
    requires start <= i <= |t|
    ensures !HasMark(ScanFrom(t, [], start, i))
    decreases |t| - i
  {
    if i < |t| {
      ScanNoKeywords(t, start, i + 1);
    }
  }

  /** "cat" is not found inside "category", but is found in "Cat," and in
      "CAT", whatever the case. */
  lemma WordBoundaryExamples()
    ensures !MatchesAt("category", 0, "cat")
    ensures MatchesAt("Cat,", 0, "cat")
    ensures MatchesAt("CAT", 0, "cat")
  {
    assert !WordAt("category", -1) && WordAt("category", 3);
    assert Lower("Cat") == "cat";
    assert Lower("CAT") == "cat";
    assert !WordAt("Cat,", 3) && WordAt("Cat,", 2);
  }

  /** A keyword cannot match where the text is too short, where there is no
      word boundary, or where the first letters differ. */
  lemma NoMatchAt(t: string, q: nat, k: string)
    requires k != []
    requires q + |k| > |t| || !BoundaryAt(t, q) || LowerChar(t[q]) != LowerChar(k[0])
    ensures !MatchesAt(t, q, k)
  {
    if q + |k| <= |t| {
      assert Lower(t[q..q + |k|])[0] == LowerChar(t[q]);
    }
  }
  /** In "Senior Engineer at Acme", keyword "Engineer" matches at position
      7 and nowhere else. */
  lemma EngineerMatches(t: string, ks: seq<string>)
    requires t == "Senior Engineer at Acme" && ks == ["Engineer"]
    ensures forall q :: 0 <= q < |t| && q != 7 ==> FirstMatch(t, q, ks).None?
    ensures FirstMatch(t, 7, ks) == Some(0)
  {
    assert Lower(ks[0])[0] == 'e';
    forall q | 0 <= q < |t| && q != 7
      ensures FirstMatch(t, q, ks).None?
    {
      assert q + 8 > |t| || !BoundaryAt(t, q) || LowerChar(t[q]) != 'e';
      NoMatchAt(t, q, ks[0]);
      FirstMatchIs(t, q, ks);
    }
    assert t[7..15] == "Engineer";
    assert MatchesAt(t, 7, ks[0]);
  }

  /** The expected last piece meets the reference definition. */
  lemma EngineerSoundEnd(t: string, ks: seq<string>)
    requires t == "Senior Engineer at Acme" && ks == ["Engineer"]
    ensures Sound(t, ks, 15, [Plain(" at Acme")])
  {
    EngineerMatches(t, ks);
    assert t[15..23] == " at Acme";
    assert Sound(t, ks, 23, []);
    SoundPlainBefore(t, ks, 15, 23, []);
    assert [Plain(" at Acme")] + [] == [Plain(" at Acme")];
  }

  /** The expected pieces from the match on meet the reference definition. */
  lemma EngineerSoundFromMatch(t: string, ks: seq<string>)
    requires t == "Senior Engineer at Acme" && ks == ["Engineer"]
    ensures Sound(t, ks, 7, [Mark("Engineer"), Plain(" at Acme")])
  {
    EngineerSoundEnd(t, ks);
    EngineerMatches(t, ks);
    assert t[7..15] == "Engineer";
    SoundMark(t, ks, 7, [Plain(" at Acme")]);
  }

  /** The expected pieces meet the reference definition. */
  lemma EngineerSound(t: string, ks: seq<string>)
    requires t == "Senior Engineer at Acme" && ks == ["Engineer"]
    ensures Sound(t, ks, 0, [Plain("Senior "), Mark("Engineer"), Plain(" at Acme")])
  {
    var rest := [Mark("Engineer"), Plain(" at Acme")];
    EngineerSoundFromMatch(t, ks);
    EngineerMatches(t, ks);
    assert t[0..7] == "Senior ";
    SoundPlainBefore(t, ks, 0, 7, rest);
    assert [Plain("Senior ")] + rest == [Plain("Senior "), Mark("Engineer"), Plain(" at Acme")];
  }

  /** Keyword "Engineer" in "Senior Engineer at Acme" gives exactly one
      highlight, around "Engineer". */
  lemma EngineerScenario(t: string, ks: seq<string>)
    requires t == "Senior Engineer at Acme" && ks == ["Engineer"]
    ensures Scan(t, ks) == [Plain("Senior "), Mark("Engineer"), Plain(" at Acme")]
  {
    EngineerSound(t, ks);
    ScanSound(t, ks);
    SoundUnique(t, ks, 0, Scan(t, ks), [Plain("Senior "), Mark("Engineer"), Plain(" at Acme")]);
  }


}
