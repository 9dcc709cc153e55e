/** Keyword escaping and the alternation pattern built from the keyword list
    (src/services/highlightService.ts, `escapeRegex` and the pattern built in
    `highlightInTextNode`). */
module RegexEscape {

  /** The class `[.*+?^${}()|[\]\\]` of `escapeRegex`. */
  predicate IsSpecial(c: char) {
    c == '.' || c == '*' || c == '+' || c == '?' || c == '^' || c == '$' ||
    c == '{' || c == '}' || c == '(' || c == ')' || c == '|' ||
    c == '[' || c == ']' || c == '\\'
  }

  function CountSpecial(s: string): nat {
    if s == [] then 0 else (if IsSpecial(s[0]) then 1 else 0) + CountSpecial(s[1..])
  }

  /** `escapeRegex`: a backslash before every special character. */
  function Escape(s: string): (r: string)
    ensures |r| >= |s|
  {
    if s == [] then []
    else (if IsSpecial(s[0]) then ['\\', s[0]] else [s[0]]) + Escape(s[1..])
  }

  /** Removes the backslash of every escape pair. */
  function Unescape(e: string): string {
    if e == [] then []
    else if e[0] == '\\' && |e| >= 2 then [e[1]] + Unescape(e[2..])
    else [e[0]] + Unescape(e[1..])
  }

  /** A pattern text in which every special character is escaped, so that
      the regular-expression engine reads all of it literally. */
  predicate Literal(e: string) {
    if e == [] then true
    else if e[0] == '\\' then |e| >= 2 && IsSpecial(e[1]) && Literal(e[2..])
    else !IsSpecial(e[0]) && Literal(e[1..])
  }

  /** Removing the inserted backslashes gives back the keyword. */
  lemma {:induction false} UnescapeEscape(s: string)
    ensures Unescape(Escape(s)) == s
  {
    if s != [] {
      UnescapeEscape(s[1..]);
      var piece := if IsSpecial(s[0]) then ['\\', s[0]] else [s[0]];
      assert Escape(s) == piece + Escape(s[1..]);
      if IsSpecial(s[0]) {
        assert (piece + Escape(s[1..]))[2..] == Escape(s[1..]);
      } else {
        assert (piece + Escape(s[1..]))[1..] == Escape(s[1..]);
      }
    }
  }

  /** Escaping never maps two keywords to the same pattern text. */
  lemma EscapeInjective(a: string, b: string)
    requires Escape(a) == Escape(b)
    ensures a == b
  {
    UnescapeEscape(a);
    UnescapeEscape(b);
  }

  /** One backslash is added per special character and nothing else. */
  lemma {:induction false} EscapeLength(s: string)
    ensures |Escape(s)| == |s| + CountSpecial(s)
  {
    if s != [] {
      EscapeLength(s[1..]);
    }
  }

  /** The escaped keyword is read literally. */
  lemma {:induction false} EscapeIsLiteral(s: string)
    ensures Literal(Escape(s))
  {
    if s != [] {
      EscapeIsLiteral(s[1..]);
      var e := Escape(s);
      if IsSpecial(s[0]) {
        assert e[2..] == Escape(s[1..]);
      } else {
        assert e[1..] == Escape(s[1..]);
      }
    }
  }

  /** `keywords.map(escapeRegex)`. */
  function EscapeAll(ks: seq<string>): (r: seq<string>)
    ensures |r| == |ks|
    ensures forall i :: 0 <= i < |ks| ==> r[i] == Escape(ks[i])
  {
    if ks == [] then [] else [Escape(ks[0])] + EscapeAll(ks[1..])
  }

  /** `Array.prototype.join('|')`. */
  function Join(ps: seq<string>): string {
    if ps == [] then []
    else if |ps| == 1 then ps[0]
    else ps[0] + "|" + Join(ps[1..])
  }

  /** The alternation inside `\b(...)\b`. */
  function Pattern(ks: seq<string>): string {
    Join(EscapeAll(ks))
  }

  /** The pattern is empty (the `if (!keywordPattern) return` case) exactly
      when there is no keyword or the only keyword is empty. */
  lemma PatternEmptyIff(ks: seq<string>)
    ensures Pattern(ks) == [] <==> (ks == [] || ks == [""])
  {
    if |ks| == 1 {
      assert Pattern(ks) == Escape(ks[0]);
      if ks[0] != [] {
        assert Escape(ks[0]) == Escape([ks[0][0]] + ks[0][1..]);
      }
    }
  }

  /** Splits a pattern at the `|` that are not escaped; `cur` is the
      alternative read so far. */
  function SplitAlternatives(p: string, cur: string): (r: seq<string>)
    ensures |r| >= 1
  {
    if p == [] then [cur]
    else if p[0] == '\\' && |p| >= 2 then SplitAlternatives(p[2..], cur + p[..2])
    else if p[0] == '|' then [cur] + SplitAlternatives(p[1..], [])
    else SplitAlternatives(p[1..], cur + [p[0]])
  }

  function UnescapeAll(es: seq<string>): (r: seq<string>)
    ensures |r| == |es|
    ensures forall i :: 0 <= i < |es| ==> r[i] == Unescape(es[i])
  {
    if es == [] then [] else [Unescape(es[0])] + UnescapeAll(es[1..])
  }

  /** The keyword list read back from a pattern. */
  function Alternatives(p: string): seq<string> {
    UnescapeAll(SplitAlternatives(p, []))
  }

  /** Reading through an escaped keyword adds it to the current alternative
      and never splits it. */
  lemma {:induction false} SplitThroughEscaped(k: string, tail: string, cur: string)
    ensures SplitAlternatives(Escape(k) + tail, cur) == SplitAlternatives(tail, cur + Escape(k))
  {
    if k == [] {
      assert Escape(k) + tail == tail;
      assert cur + Escape(k) == cur;
    } else {
      var e := Escape(k);
      var rest := Escape(k[1..]);
      if IsSpecial(k[0]) {
        var piece := ['\\', k[0]];
        assert e + tail == piece + (rest + tail);
        assert (e + tail)[2..] == rest + tail;
        assert (e + tail)[..2] == piece;
        SplitThroughEscaped(k[1..], tail, cur + piece);
        assert cur + piece + rest == cur + e;
      } else {
        var piece := [k[0]];
        assert e + tail == piece + (rest + tail);
        assert (e + tail)[1..] == rest + tail;
        SplitThroughEscaped(k[1..], tail, cur + piece);
        assert cur + piece + rest == cur + e;
      }
    }
  }

  lemma {:induction false} SplitPattern(ks: seq<string>)
    requires ks != []
    ensures SplitAlternatives(Pattern(ks), []) == EscapeAll(ks)
  {
    if |ks| == 1 {
      SplitThroughEscaped(ks[0], [], []);
      assert Escape(ks[0]) + [] == Escape(ks[0]);
      assert [] + Escape(ks[0]) == Escape(ks[0]);
    } else {
      var e := Escape(ks[0]);
      var rest := Pattern(ks[1..]);
      assert EscapeAll(ks)[1..] == EscapeAll(ks[1..]);
      assert Pattern(ks) == e + ("|" + rest);
      SplitThroughEscaped(ks[0], "|" + rest, []);
      assert ("|" + rest)[1..] == rest;
      SplitPattern(ks[1..]);
      assert [] + e == e;
    }
  }

  /** The pattern determines the keyword list: joining the escaped keywords
      with `|` loses nothing. */
  lemma PatternRoundTrip(ks: seq<string>)
    requires ks != []
    ensures Alternatives(Pattern(ks)) == ks
  {
    SplitPattern(ks);
    forall i | 0 <= i < |ks|
      ensures Alternatives(Pattern(ks))[i] == ks[i]
    {
      UnescapeEscape(ks[i]);
    }
  }
}
