/** Lists of prefixes as they are typed: with any separators between them and blanks inside their groups. */
module PrefixTexts {
  import opened Text
  import opened CleanPrefixes

  predicate IsBlank(c: char) {
    c == ' ' || c == '\t'
  }

  /** A comma or the end of a line separates two prefixes. */
  predicate IsBreak(c: char) {
    c == ',' || c == '\n' || c == '\r'
  }

  predicate AllBlank(s: string) {
    forall c :: c in s ==> IsBlank(c)
  }

  predicate AllGap(s: string) {
    forall c :: c in s ==> IsBlank(c) || IsBreak(c)
  }

  predicate HasBreak(s: string) {
    exists c :: c in s && IsBreak(c)
  }

  // ----- Trimming a token -----

  lemma {:induction false} TrimStartBlanks(blanks: string, s: string)
    requires AllBlank(blanks) && (s == "" || !IsSpace(s[0]))
    ensures TrimStart(blanks + s) == s
  {
    if blanks == "" {
      assert blanks + s == s;
    } else {
      assert blanks[0] in blanks && (blanks + s)[1..] == blanks[1..] + s;
      TrimStartBlanks(blanks[1..], s);
    }
  }

  lemma {:induction false} TrimEndBlanks(s: string, blanks: string)
    requires AllBlank(blanks) && (s == "" || !IsSpace(s[|s| - 1]))
    ensures TrimEnd(s + blanks) == s
  {
    if blanks == "" {
      assert s + blanks == s;
    } else {
      assert blanks[|blanks| - 1] in blanks && (s + blanks)[..|s + blanks| - 1] == s + blanks[..|blanks| - 1];
      assert (s + blanks)[|s + blanks| - 1] == blanks[|blanks| - 1];
      TrimEndBlanks(s, blanks[..|blanks| - 1]);
    }
  }

  /** The token is the prefix with blanks around it. */
  predicate IsToken(token: string, before: string, p: string, after: string) {
    token == before + p + after && AllBlank(before) && AllBlank(after)
  }

  lemma TokenFinishes(token: string, before: string, p: string, after: string)
    requires IsToken(token, before, p, after) && p != "" && NoSpace(p)
    ensures Finished(token) == [p]
  {
    assert p[0] in p && p[|p| - 1] in p;
    assert token == before + (p + after);
    TrimStartBlanks(before, p + after);
    TrimEndBlanks(p, after);
  }

  lemma BlankFinishes(token: string)
    requires AllBlank(token)
    ensures Finished(token) == []
  {
    TrimStartBlanks(token, "");
    assert token + "" == token;
  }

  // ----- Gaps between prefixes -----

  lemma {:induction false} GapAfterBlank(gap: string, rest: string, token: string) returns (lead: string)
    requires AllGap(gap) && AllBlank(token)
    ensures AllBlank(lead) && Tokenize(gap + rest, token, false) == Tokenize(rest, lead, false)
  {
    if gap == "" {
      lead := token;
      assert gap + rest == rest;
    } else {
      var c := gap[0];
      assert c in gap && (gap + rest)[0] == c && (gap + rest)[1..] == gap[1..] + rest;
      if IsBlank(c) {
        lead := GapAfterBlank(gap[1..], rest, token + [c]);
      } else {
        BlankFinishes(token);
        lead := GapAfterBlank(gap[1..], rest, "");
        assert [] + Tokenize(gap[1..] + rest, "", false) == Tokenize(gap[1..] + rest, "", false);
      }
    }
  }

  /** A gap with a break ends the prefix before it; the next one starts after it. */
  lemma {:induction false} GapEnds(gap: string, rest: string, token: string, before: string, p: string, after: string)
    returns (lead: string)
    requires AllGap(gap) && HasBreak(gap) && IsToken(token, before, p, after) && p != "" && NoSpace(p)
    ensures AllBlank(lead) && Tokenize(gap + rest, token, false) == [p] + Tokenize(rest, lead, false)
  {
    var c := gap[0];
    assert c in gap && (gap + rest)[0] == c && (gap + rest)[1..] == gap[1..] + rest;
    if IsBlank(c) {
      assert before + p + after + [c] == before + p + (after + [c]);
      assert HasBreak(gap[1..]) by {
        var b :| b in gap && IsBreak(b);
        assert gap == [c] + gap[1..] && b in gap[1..];
      }
      lead := GapEnds(gap[1..], rest, token + [c], before, p, after + [c]);
    } else {
      TokenFinishes(token, before, p, after);
      lead := GapAfterBlank(gap[1..], rest, "");
    }
  }

  lemma {:induction false} LastGap(gap: string, token: string, before: string, p: string, after: string)
    requires AllGap(gap) && IsToken(token, before, p, after) && p != "" && NoSpace(p)
    ensures Tokenize(gap, token, false) == [p]
  {
    if gap == "" {
      TokenFinishes(token, before, p, after);
    } else {
      var c := gap[0];
      assert c in gap;
      if IsBlank(c) {
        assert before + p + after + [c] == before + p + (after + [c]);
        LastGap(gap[1..], token + [c], before, p, after + [c]);
      } else {
        TokenFinishes(token, before, p, after);
        var lead := GapAfterBlank(gap[1..], "", "");
        assert gap[1..] + "" == gap[1..];
        BlankFinishes(lead);
        assert Tokenize("", lead, false) == [];
      }
    }
  }

  // ----- A list as it is typed -----

  /** The prefixes with a gap behind each of them. */
  function Typed(ps: seq<string>, gaps: seq<string>): string
    requires |gaps| == |ps|
  {
    if ps == [] then "" else ps[0] + (gaps[0] + Typed(ps[1..], gaps[1..]))
  }

  lemma PlainAfter(p: string, rest: string, lead: string)
    requires Canonical(p)
    ensures Tokenize(p + rest, lead, false) == Tokenize(rest, lead + p, false)
    ensures p != "" && NoSpace(p)
  {
    hide Tokenize;
    if Plain(p) {
      TokenizePlain(p, rest, lead, false);
    } else {
      var a, g, b :| Grouped(p, a, g, b);
      GroupedAfter(p, a, g, b, rest, lead);
      GroupedClean(p, a, g, b);
    }
  }

  lemma GroupedAfter(p: string, a: string, g: string, b: string, rest: string, lead: string)
    requires Grouped(p, a, g, b)
    ensures Tokenize(p + rest, lead, false) == Tokenize(rest, lead + p, false)
  {
    hide GroupText, Tokenize;
    var afterA, afterG := "{" + g + "}" + b + rest, "}" + b + rest;
    assert p + rest == a + afterA;
    GroupIsClean(g);
    TokenizePlain(a, afterA, lead, false);
    OpenBrace(g + afterG, lead + a, afterA);
    TokenizePlain(g, afterG, lead + a + "{", true);
    CloseBrace(b + rest, lead + a + "{" + g, afterG);
    TokenizePlain(b, rest, lead + a + "{" + g + "}", false);
    assert lead + a + "{" + g + "}" + b == lead + p;
  }

  /** However the prefixes are separated, the list is read as these prefixes. */
  lemma {:induction false} TypedIsRead(ps: seq<string>, gaps: seq<string>, lead: string)
    requires |gaps| == |ps| && AllBlank(lead) && forall p :: p in ps ==> Canonical(p)
    requires forall i :: 0 <= i < |gaps| ==> AllGap(gaps[i]) && (i + 1 < |gaps| ==> HasBreak(gaps[i]))
    ensures Tokenize(Typed(ps, gaps), lead, false) == ps
  {
    hide Canonical, AllGap, HasBreak;
    if ps == [] {
      BlankFinishes(lead);
    } else {
      var p, rest := ps[0], Typed(ps[1..], gaps[1..]);
      assert p in ps && ps == [p] + ps[1..];
      PlainAfter(p, gaps[0] + rest, lead);
      assert lead + p == lead + p + "" && AllBlank("");
      hide Tokenize;
      if |ps| == 1 {
        assert gaps[0] + rest == gaps[0];
        LastGap(gaps[0], lead + p, lead, p, "");
      } else {
        var next := GapEnds(gaps[0], rest, lead + p, lead, p, "");
        TypedIsRead(ps[1..], gaps[1..], next);
      }
    }
  }

  // ----- Blanks inside a group -----

  function Squeezed(s: string): string {
    if s == "" then "" else (if IsBlank(s[0]) then "" else [s[0]]) + Squeezed(s[1..])
  }

  lemma {:induction false} GroupSqueezes(g: string, rest: string, token: string)
    requires '{' !in g && '}' !in g
    ensures Tokenize(g + rest, token, true) == Tokenize(rest, token + Squeezed(g), true)
  {
    if g == "" {
      assert g + rest == rest && token + "" == token;
    } else {
      var c := g[0];
      assert c in g && (g + rest)[0] == c && (g + rest)[1..] == g[1..] + rest;
      if IsBlank(c) {
        assert "" + Squeezed(g[1..]) == Squeezed(g[1..]);
        GroupSqueezes(g[1..], rest, token);
      } else {
        GroupSqueezes(g[1..], rest, token + [c]);
        assert token + [c] + Squeezed(g[1..]) == token + Squeezed(g);
      }
    }
  }

  /** Blanks inside the braces of a group do not count; commas and line ends there separate nothing. */
  lemma GroupBlanks(a: string, g: string, b: string)
    requires Plain(a) && Plain(b) && '{' !in g && '}' !in g && NoSpace(Squeezed(g))
    ensures Tokenize(a + "{" + g + "}" + b, "", false) == [a + "{" + Squeezed(g) + "}" + b]
  {
    var end, head := "}" + b, a + "{" + Squeezed(g);
    assert a + "{" + g + "}" + b == a + ("{" + (g + end));
    UpToGroup(a, g + end);
    GroupSqueezes(g, end, a + "{");
    BehindGroup(head, b);
    GroupIsWhole(head + "}" + b, a, Squeezed(g), b);
    hide *;
  }

  lemma UpToGroup(a: string, rest: string)
    requires Plain(a)
    ensures Tokenize(a + ("{" + rest), "", false) == Tokenize(rest, a + "{", true)
  {
    TokenizePlain(a, "{" + rest, "", false);
    hide Tokenize;
    assert "" + a == a;
    OpenBrace(rest, a, "{" + rest);
  }

  lemma BehindGroup(head: string, b: string)
    requires Plain(b)
    ensures Tokenize("}" + b, head, true) == Finished(head + "}" + b)
  {
    CloseBrace(b, head, "}" + b);
    TokenizePlain(b, "", head + "}", false);
    assert b + "" == b;
    AtEnd(head + "}" + b);
    hide Tokenize;
  }

  lemma GroupIsWhole(p: string, a: string, g: string, b: string)
    requires p == a + "{" + g + "}" + b && Plain(a) && Plain(b) && NoSpace(g)
    ensures Finished(p) == [p]
  {
    assert !IsSpace('{') && !IsSpace('}');
    assert "" + p + "" == p;
    hide IsSpace, Finished;
    TokenFinishes(p, "", p, "");
  }

  lemma AtEnd(token: string)
    ensures Tokenize("", token, false) == Finished(token)
  {
  }
}
