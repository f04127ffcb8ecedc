/** Repairing prefix lists that were split at the commas inside brace groups. */
module CleanPrefixes {
  import opened Text

  // ----- Joining fragments -----

  /** Fragments after an unclosed brace belong to one item, up to a fragment with a closing brace. */
  function Repair(items: seq<string>, current: string, inBrace: bool): seq<string> {
    if items == [] then
      if current != "" then [current] else []
    else
      var trimmed := Trim(items[0]);
      if trimmed == "" then Repair(items[1..], current, inBrace)
      else if inBrace then
        var longer := current + "," + trimmed;
        if '}' in trimmed then [longer] + Repair(items[1..], "", false) else Repair(items[1..], longer, true)
      else if '{' in trimmed && '}' !in trimmed then Repair(items[1..], current + trimmed, true)
      else [trimmed] + Repair(items[1..], current, false)
  }

  method RepairFragments(prefixes: seq<string>) returns (repaired: seq<string>)
    ensures repaired == Repair(prefixes, "", false)
  {
    hide Repair, Trim;
    repaired := [];
    var current, inBrace := "", false;
    var i := 0;
    assert prefixes[0..] == prefixes;
    while i < |prefixes|
      invariant 0 <= i <= |prefixes|
      invariant repaired + Repair(prefixes[i..], current, inBrace) == Repair(prefixes, "", false)
    {
      RepairStep(prefixes[i..], current, inBrace);
      assert prefixes[i..][0] == prefixes[i] && prefixes[i..][1..] == prefixes[i + 1..];
      var trimmed := Trim(prefixes[i]);
      i := i + 1;
      if trimmed == "" {
        continue;
      }
      if inBrace {
        current := current + "," + trimmed;
        if '}' in trimmed {
          inBrace := false;
          repaired := repaired + [current];
          current := "";
        }
      } else {
        var hasOpen, hasClose := '{' in trimmed, '}' in trimmed;
        if hasOpen && !hasClose {
          inBrace := true;
          current := current + trimmed;
        } else {
          repaired := repaired + [trimmed];
        }
      }
    }
    assert prefixes[i..] == [];
    RepairEnd(current, inBrace);
    if |current| > 0 {
      repaired := repaired + [current];
    }
  }

  lemma RepairStep(items: seq<string>, current: string, inBrace: bool)
    requires items != []
    ensures var trimmed, rest := Trim(items[0]), items[1..];
            Repair(items, current, inBrace) ==
            if trimmed == "" then Repair(rest, current, inBrace)
            else if inBrace && '}' in trimmed then [current + "," + trimmed] + Repair(rest, "", false)
            else if inBrace then Repair(rest, current + "," + trimmed, true)
            else if '{' in trimmed && '}' !in trimmed then Repair(rest, current + trimmed, true)
            else [trimmed] + Repair(rest, current, false)
  {
    hide Trim;
  }

  lemma RepairEnd(current: string, inBrace: bool)
    ensures Repair([], current, inBrace) == if current != "" then [current] else []
  {
  }

  // ----- Splitting items -----

  function Finished(token: string): seq<string> {
    var tok := Trim(token);
    if tok != "" then [tok] else []
  }

  /** The tokens of an item, split at commas and line ends outside braces. */
  function Tokenize(item: string, token: string, inBrace: bool): seq<string> {
    if item == "" then Finished(token)
    else
      var c, rest := item[0], item[1..];
      if c == '{' then Tokenize(rest, token + [c], true)
      else if c == '}' then Tokenize(rest, token + [c], false)
      else if c == ' ' || c == '\t' then Tokenize(rest, if inBrace then token else token + [c], inBrace)
      else if c == ',' || c == '\n' || c == '\r' then
        if inBrace then Tokenize(rest, token + [c], true) else Finished(token) + Tokenize(rest, "", false)
      else Tokenize(rest, token + [c], inBrace)
  }

  method SplitItem(item: string, before: seq<string>) returns (result: seq<string>)
    ensures result == before + Tokenize(item, "", false)
  {
    result := before;
    var token, tokenInBrace := "", false;
    var i := 0;
    while i < |item|
      invariant 0 <= i <= |item|
      invariant result + Tokenize(item[i..], token, tokenInBrace) == before + Tokenize(item, "", false)
    {
      var c := item[i];
      assert item[i..][0] == c && item[i..][1..] == item[i + 1..];
      i := i + 1;
      if c == '{' {
        tokenInBrace := true;
        token := token + [c];
      } else if c == '}' {
        tokenInBrace := false;
        token := token + [c];
      } else if c == ' ' || c == '\t' {
        if !tokenInBrace {
          token := token + [c];
        }
      } else if c == ',' || c == '\n' || c == '\r' {
        if !tokenInBrace {
          var tok := Trim(token);
          if tok != "" {
            result := result + [tok];
          }
          token := "";
        } else {
          token := token + [c];
        }
      } else {
        token := token + [c];
      }
    }
    var tok := Trim(token);
    if tok != "" {
      result := result + [tok];
    }
  }

  function TokensOf(items: seq<string>): seq<string> {
    if items == [] then [] else Tokenize(items[0], "", false) + TokensOf(items[1..])
  }

  function Cleaned(prefixes: seq<string>): seq<string> {
    TokensOf(Repair(prefixes, "", false))
  }

  method Clean(prefixes: seq<string>) returns (result: seq<string>)
    ensures result == Cleaned(prefixes)
  {
    hide Tokenize;
    if |prefixes| == 0 {
      return [];
    }
    var repaired := RepairFragments(prefixes);
    result := [];
    var i := 0;
    while i < |repaired|
      invariant 0 <= i <= |repaired|
      invariant result + TokensOf(repaired[i..]) == TokensOf(repaired)
    {
      assert repaired[i..][0] == repaired[i] && repaired[i..][1..] == repaired[i + 1..];
      result := SplitItem(repaired[i], result);
      i := i + 1;
    }
  }

  // ----- Canonical prefixes -----

  /** Text without white space, commas and braces. */
  predicate Plain(s: string) {
    NoSpace(s) && ',' !in s && '{' !in s && '}' !in s
  }

  /** The inside of a brace group: no element is empty, unless the group is. */
  predicate GroupText(g: string) {
    && NoSpace(g) && '{' !in g && '}' !in g
    && (g == "" || forall p :: p in Split(g, ',') ==> p != "")
  }

  /** At most one balanced brace group, and commas only inside it. */
  ghost predicate Canonical(p: string) {
    p != "" && (Plain(p) || exists a, g, b :: Grouped(p, a, g, b))
  }

  predicate Grouped(p: string, a: string, g: string, b: string) {
    p == a + "{" + g + "}" + b && Plain(a) && Plain(b) && GroupText(g)
  }

  function Join(items: seq<string>): string {
    if items == [] then "" else if |items| == 1 then items[0] else items[0] + "," + Join(items[1..])
  }

  // ----- Passing the join as one item -----

  lemma {:induction false} TokenizePlain(s: string, rest: string, token: string, inBrace: bool)
    requires NoSpace(s) && '{' !in s && '}' !in s && (inBrace || ',' !in s)
    ensures Tokenize(s + rest, token, inBrace) == Tokenize(rest, token + s, inBrace)
  {
    if s == "" {
      assert s + rest == rest && token + s == token;
    } else {
      assert s[0] in s && (s + rest)[0] == s[0] && (s + rest)[1..] == s[1..] + rest;
      TokenizePlain(s[1..], rest, token + [s[0]], inBrace);
      assert token + [s[0]] + s[1..] == token + s;
    }
  }

  lemma TokenizeGrouped(p: string, a: string, g: string, b: string, rest: string)
    requires Grouped(p, a, g, b)
    ensures Tokenize(p + rest, "", false) == Tokenize(rest, p, false)
  {
    hide GroupText, Tokenize;
    var afterA := "{" + g + "}" + b + rest;
    var afterG := "}" + b + rest;
    assert p + rest == a + afterA;
    GroupIsClean(g);
    TokenizePlain(a, afterA, "", false);
    assert "" + a == a;
    OpenBrace(g + afterG, a, afterA);
    TokenizePlain(g, afterG, a + "{", true);
    CloseBrace(b + rest, a + "{" + g, afterG);
    TokenizePlain(b, rest, a + "{" + g + "}", false);
    assert a + "{" + g + "}" + b == p;
  }

  lemma GroupIsClean(g: string)
    requires GroupText(g)
    ensures NoSpace(g) && '{' !in g && '}' !in g
  {
  }

  lemma OpenBrace(rest: string, token: string, s: string)
    requires s == "{" + rest
    ensures Tokenize(s, token, false) == Tokenize(rest, token + "{", true)
  {
    assert s[1..] == rest;
  }

  lemma CloseBrace(rest: string, token: string, s: string)
    requires s == "}" + rest
    ensures Tokenize(s, token, true) == Tokenize(rest, token + "}", false)
  {
    assert s[1..] == rest;
  }

  lemma GroupedClean(p: string, a: string, g: string, b: string)
    requires Grouped(p, a, g, b)
    ensures NoSpace(p)
  {
  }

  /** A canonical prefix passes through the tokenizer unchanged. */
  lemma TokenizeCanonical(p: string, rest: string)
    requires Canonical(p)
    ensures Tokenize(p + rest, "", false) == Tokenize(rest, p, false) && Finished(p) == [p]
  {
    hide Tokenize, Grouped;
    if Plain(p) {
      TokenizePlain(p, rest, "", false);
      assert "" + p == p;
    } else {
      var a, g, b :| Grouped(p, a, g, b);
      TokenizeGrouped(p, a, g, b, rest);
      GroupedClean(p, a, g, b);
    }
  }

  /** A comma-separated list passed as one item. */
  lemma {:induction false} TokenizeJoin(ps: seq<string>)
    requires forall p :: p in ps ==> Canonical(p)
    ensures Tokenize(Join(ps), "", false) == ps
  {
    hide Canonical;
    if ps != [] {
      assert ps[0] in ps;
      if |ps| == 1 {
        TokenizeCanonical(ps[0], "");
        assert ps[0] + "" == ps[0];
      } else {
        var rest := "," + Join(ps[1..]);
        TokenizeCanonical(ps[0], rest);
        assert Join(ps) == ps[0] + rest && rest[1..] == Join(ps[1..]);
        TokenizeJoin(ps[1..]);
      }
    }
  }

  // ----- Splitting the join at every comma -----

  function Prepend(c: char, pieces: seq<string>): seq<string>
    requires pieces != []
  {
    if c == ',' then [""] + pieces else [[c] + pieces[0]] + pieces[1..]
  }

  lemma SplitCons(s: string, t: string)
    requires s != ""
    ensures Split(s + t, ',') == Prepend(s[0], Split(s[1..] + t, ','))
  {
    assert (s + t)[0] == s[0] && (s + t)[1..] == s[1..] + t;
  }

  lemma {:induction false} SplitPrefix(x: string, s: string)
    requires ',' !in x
    ensures Split(x + s, ',') == [x + Split(s, ',')[0]] + Split(s, ',')[1..]
  {
    hide Split;
    if x == "" {
      var r := Split(s, ',');
      assert x + s == s && x + r[0] == r[0] && [r[0]] + r[1..] == r;
    } else {
      assert x[0] in x;
      SplitCons(x, s);
      SplitPrefix(x[1..], s);
      assert [x[0]] + (x[1..] + Split(s, ',')[0]) == x + Split(s, ',')[0];
    }
  }

  lemma SplitNone(s: string)
    ensures Split("", ',') == [""] && Split("," + s, ',') == [""] + Split(s, ',')
  {
    assert ("," + s)[1..] == s;
  }

  lemma {:induction false} SplitAppend(s: string, t: string)
    ensures Split(s + "," + t, ',') == Split(s, ',') + Split(t, ',')
  {
    hide Split;
    SplitNone(t);
    assert s + "," + t == s + ("," + t);
    if s == "" {
      assert s + "," + t == "," + t;
    } else {
      SplitCons(s, "," + t);
      SplitCons(s, "");
      assert s + "" == s && s[1..] + "" == s[1..] && s[1..] + ("," + t) == s[1..] + "," + t;
      SplitAppend(s[1..], t);
    }
  }

  lemma {:induction false} SplitSuffix(s: string, y: string)
    requires ',' !in y
    ensures var r := Split(s, ','); Split(s + y, ',') == r[..|r| - 1] + [r[|r| - 1] + y]
  {
    hide Split, Prepend;
    if s == "" {
      SplitNone("");
      assert s + y == y && [""][..0] + ["" + y] == [y];
      SplitPrefix(y, "");
      assert y + "" == y && [y] + [""][1..] == [y];
    } else {
      SplitCons(s, y);
      SplitCons(s, "");
      assert s + "" == s && s[1..] + "" == s[1..];
      SplitSuffix(s[1..], y);
      PrependSuffix(s[0], Split(s[1..], ','), y);
    }
  }

  lemma PrependSuffix(c: char, pieces: seq<string>, y: string)
    requires pieces != []
    ensures var r := Prepend(c, pieces);
            Prepend(c, pieces[..|pieces| - 1] + [pieces[|pieces| - 1] + y]) == r[..|r| - 1] + [r[|r| - 1] + y]
  {
    if c != ',' && |pieces| == 1 {
      assert [c] + (pieces[0] + y) == [c] + pieces[0] + y;
    }
  }

  lemma {:induction false} JoinSplit(s: string)
    ensures Join(Split(s, ',')) == s
  {
    if s != "" {
      JoinSplit(s[1..]);
      var rest := Split(s[1..], ',');
      if s[0] == ',' {
        assert ([""] + rest)[1..] == rest;
      } else {
        assert ([[s[0]] + rest[0]] + rest[1..])[1..] == rest[1..];
      }
    }
  }

  // ----- Rejoining a split group -----

  /** Fragments that continue a group: none is empty, has white space or closes the group. */
  predicate Middle(pieces: seq<string>) {
    forall p :: p in pieces ==> p != "" && NoSpace(p) && '}' !in p
  }

  lemma {:induction false} RepairMiddle(pieces: seq<string>, rest: seq<string>, current: string)
    requires Middle(pieces)
    ensures Repair(pieces + rest, current, true) == Repair(rest, Join([current] + pieces), true)
  {
    if pieces == [] {
      assert pieces + rest == rest;
    } else {
      var p := pieces[0];
      assert p in pieces;
      assert (pieces + rest)[1..] == pieces[1..] + rest;
      RepairMiddle(pieces[1..], rest, current + "," + p);
      JoinTwo(current, p, pieces[1..]);
      assert [p] + pieces[1..] == pieces;
    }
  }

  lemma JoinTwo(a: string, b: string, rest: seq<string>)
    ensures Join([a] + ([b] + rest)) == Join([a + "," + b] + rest)
  {
    var two := [a] + ([b] + rest);
    assert two[1..] == [b] + rest && ([b] + rest)[1..] == rest;
    assert ([a + "," + b] + rest)[1..] == rest;
    if rest == [] {
      assert Join([b] + rest) == b;
    } else {
      assert Join(two) == a + "," + (b + "," + Join(rest));
      assert a + "," + (b + "," + Join(rest)) == a + "," + b + "," + Join(rest);
    }
  }

  lemma {:induction false} JoinLast(pieces: seq<string>, last: string)
    requires pieces != []
    ensures Join(pieces + [last]) == Join(pieces) + "," + last
  {
    if |pieces| > 1 {
      JoinLast(pieces[1..], last);
      assert (pieces + [last])[1..] == pieces[1..] + [last];
    } else {
      assert (pieces + [last])[1..] == [last];
    }
  }

  /** The first fragment opens the group, the last one closes it. */
  lemma RepairGroup(first: string, middle: seq<string>, last: string, rest: seq<string>)
    requires first != "" && NoSpace(first) && '{' in first && '}' !in first
    requires Middle(middle) && last != "" && NoSpace(last) && '}' in last
    ensures Repair([first] + middle + [last] + rest, "", false)
            == [Join([first] + middle + [last])] + Repair(rest, "", false)
  {
    var tail := [last] + rest;
    var all := [first] + middle + [last] + rest;
    assert all[0] == first && all[1..] == middle + tail && "" + first == first;
    assert Repair(all, "", false) == Repair(middle + tail, first, true);
    RepairMiddle(middle, tail, first);
    var current := Join([first] + middle);
    JoinLast([first] + middle, last);
    assert tail[0] == last && tail[1..] == rest;
    assert Repair(tail, current, true) == [current + "," + last] + Repair(rest, "", false);
  }

  lemma PieceOfGroup(g: string, piece: string)
    requires GroupText(g) && piece in Split(g, ',')
    ensures NoSpace(piece) && '{' !in piece && '}' !in piece && (g != "" ==> piece != "")
  {
    SplitPieces(g, ',');
    hide Split;
  }

  /** The fragments of a grouped prefix with commas. */
  lemma SplitGrouped(p: string, a: string, g: string, b: string)
    requires Grouped(p, a, g, b)
    ensures var r := Split(g, ',');
            && (|r| == 1 ==> Split(p, ',') == [p])
            && (|r| > 1 ==> Split(p, ',') == [a + "{" + r[0]] + r[1..|r| - 1] + [r[|r| - 1] + "}" + b])
  {
    var r := Split(g, ',');
    var close := "}" + b;
    SplitPrefix(a + "{", g + close);
    SplitSuffix(g, close);
    assert p == (a + "{") + (g + close);
    hide Split;
    if |r| == 1 {
      SplitOne(g);
      assert r[..0] + [r[0] + close] == [r[0] + close];
      assert a + "{" + (g + close) == p;
    } else {
      assert (r[..|r| - 1] + [r[|r| - 1] + close])[0] == r[0];
      assert (r[..|r| - 1] + [r[|r| - 1] + close])[1..] == r[1..|r| - 1] + [r[|r| - 1] + close];
      assert r[|r| - 1] + close == r[|r| - 1] + "}" + b;
    }
  }

  lemma SplitOne(g: string)
    requires |Split(g, ',')| == 1
    ensures Split(g, ',')[0] == g
  {
  }

  lemma RepairGrouped(p: string, a: string, g: string, b: string, rest: seq<string>)
    requires Grouped(p, a, g, b)
    ensures Repair(Split(p, ',') + rest, "", false) == [p] + Repair(rest, "", false)
  {
    var r := Split(g, ',');
    SplitGrouped(p, a, g, b);
    if |r| == 1 {
      GroupedClean(p, a, g, b);
      RepairWhole(p, rest);
    } else {
      forall piece | piece in r ensures piece != "" && NoSpace(piece) && '}' !in piece && '{' !in piece {
        PieceOfGroup(g, piece);
      }
      JoinSplit(p);
      var first, middle, last := a + "{" + r[0], r[1..|r| - 1], r[|r| - 1] + "}" + b;
      assert r[0] in r && r[|r| - 1] in r;
      hide Split, Repair, Join, GroupText;
      RepairGroup(first, middle, last, rest);
    }
  }

  lemma RepairWhole(p: string, rest: seq<string>)
    requires p != "" && NoSpace(p) && ('{' in p ==> '}' in p)
    ensures Repair([p] + rest, "", false) == [p] + Repair(rest, "", false)
  {
    assert ([p] + rest)[1..] == rest;
  }

  /** The fragments of a canonical prefix are put together again. */
  lemma RepairCanonical(p: string, rest: seq<string>)
    requires Canonical(p)
    ensures Repair(Split(p, ',') + rest, "", false) == [p] + Repair(rest, "", false)
  {
    hide Grouped, Repair;
    if Plain(p) {
      RepairWhole(p, rest);
    } else {
      var a, g, b :| Grouped(p, a, g, b);
      RepairGrouped(p, a, g, b, rest);
    }
  }

  lemma {:induction false} RepairJoin(ps: seq<string>)
    requires forall p :: p in ps ==> Canonical(p)
    ensures Repair(Split(Join(ps), ','), "", false) == ps
  {
    hide Canonical;
    if ps == [] {
      assert [""][1..] == [];
    } else {
      assert ps[0] in ps;
      if |ps| == 1 {
        RepairCanonical(ps[0], []);
        assert Split(ps[0], ',') + [] == Split(ps[0], ',');
      } else {
        SplitAppend(ps[0], Join(ps[1..]));
        RepairCanonical(ps[0], Split(Join(ps[1..]), ','));
        RepairJoin(ps[1..]);
      }
    }
  }

  lemma {:induction false} TokensOfCanonical(ps: seq<string>)
    requires forall p :: p in ps ==> Canonical(p)
    ensures TokensOf(ps) == ps
  {
    hide Canonical, Finished;
    if ps != [] {
      assert ps[0] in ps;
      TokenizeCanonical(ps[0], "");
      assert ps[0] + "" == ps[0];
      TokensOfCanonical(ps[1..]);
    }
  }

  /** Joining canonical prefixes with commas is undone, whether the join is split at every comma,
      also inside the groups, or passed as one item. */
  lemma CleaningUndoesJoin(ps: seq<string>)
    requires forall p :: p in ps ==> Canonical(p)
    ensures Cleaned(Split(Join(ps), ',')) == ps
    ensures Cleaned([Join(ps)]) == ps
    ensures Cleaned(ps) == ps
  {
    RepairJoin(ps);
    TokensOfCanonical(ps);
    RepairTogether(ps);
    RepairApart(ps);
    if ps == [] {
    } else {
      TokenizeJoin(ps);
      assert [Join(ps)][1..] == [];
      assert TokensOf([Join(ps)]) == ps + [];
    }
  }

  lemma {:induction false} JoinIsClean(ps: seq<string>)
    requires forall p :: p in ps ==> Canonical(p)
    ensures NoSpace(Join(ps)) && ('{' in Join(ps) ==> '}' in Join(ps)) && (ps != [] ==> Join(ps) != "")
  {
    hide Canonical;
    if ps != [] {
      assert ps[0] in ps;
      CanonicalIsClean(ps[0]);
      JoinIsClean(ps[1..]);
    }
  }

  lemma CanonicalIsClean(p: string)
    requires Canonical(p)
    ensures p != "" && NoSpace(p) && ('{' in p ==> '}' in p)
  {
    if !Plain(p) {
      var a, g, b :| Grouped(p, a, g, b);
      GroupedClean(p, a, g, b);
    }
  }

  lemma RepairTogether(ps: seq<string>)
    requires forall p :: p in ps ==> Canonical(p)
    ensures Repair([Join(ps)], "", false) == if ps == [] then [] else [Join(ps)]
  {
    JoinIsClean(ps);
    hide Canonical, Join;
    if ps == [] {
      assert Join(ps) == "" by { JoinNone(); }
      assert [""][1..] == [];
    } else {
      RepairWhole(Join(ps), []);
      assert [Join(ps)] + [] == [Join(ps)];
    }
  }

  lemma JoinNone()
    ensures Join([]) == ""
  {
  }

  lemma {:induction false} RepairApart(ps: seq<string>)
    requires forall p :: p in ps ==> Canonical(p)
    ensures Repair(ps, "", false) == ps
  {
    hide Canonical;
    if ps != [] {
      assert ps[0] in ps;
      CanonicalIsClean(ps[0]);
      RepairApart(ps[1..]);
      RepairWhole(ps[0], ps[1..]);
      assert [ps[0]] + ps[1..] == ps;
    }
  }
}
