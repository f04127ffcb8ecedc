/** Strings as both programs use them: trimming, splitting, searching and decimal numerals. */
module Text {
  import opened Wrappers

  // ----- White space -----

  predicate IsSpace(c: char) {
    || c == ' ' || '\U{9}' <= c <= '\U{D}' || c == '\U{85}' || c == '\U{A0}' || c == '\U{1680}'
    || '\U{2000}' <= c <= '\U{200A}' || c == '\U{2028}' || c == '\U{2029}' || c == '\U{202F}'
    || c == '\U{205F}' || c == '\U{3000}'
  }

  function TrimStart(s: string): string {
    if s != "" && IsSpace(s[0]) then TrimStart(s[1..]) else s
  }

  function TrimEnd(s: string): string {
    if s != "" && IsSpace(s[|s| - 1]) then TrimEnd(s[..|s| - 1]) else s
  }

  function Trim(s: string): string {
    TrimEnd(TrimStart(s))
  }

  lemma {:induction false} TrimEndTwice(s: string)
    ensures TrimEnd(TrimEnd(s)) == TrimEnd(s)
    ensures s != "" && !IsSpace(s[0]) ==> TrimEnd(s) != "" && TrimEnd(s)[0] == s[0]
  {
    hide IsSpace;
    if s != "" && IsSpace(s[|s| - 1]) {
      TrimEndTwice(s[..|s| - 1]);
    }
  }

  lemma {:induction false} TrimStartShape(s: string)
    ensures var t := TrimStart(s); t == "" || !IsSpace(t[0])
  {
    hide IsSpace;
    if s != "" && IsSpace(s[0]) {
      TrimStartShape(s[1..]);
    }
  }

  /** Trimming twice is trimming once. */
  lemma TrimTwice(s: string)
    ensures Trim(Trim(s)) == Trim(s)
  {
    hide IsSpace;
    var t := TrimStart(s);
    TrimStartShape(s);
    TrimEndTwice(t);
    var e := TrimEnd(t);
    if t != "" {
      assert TrimStart(e) == e;
    }
  }

  predicate NoSpace(s: string) {
    forall c :: c in s ==> !IsSpace(c)
  }

  /** The longest prefix without white space. */
  function Word(s: string): (r: string)
    ensures |r| <= |s| && (s != "" && !IsSpace(s[0]) ==> r != "")
  {
    if s == "" || IsSpace(s[0]) then "" else [s[0]] + Word(s[1..])
  }

  /** The words between runs of white space. */
  function Fields(s: string): seq<string>
    decreases |s|
  {
    if s == "" then []
    else if IsSpace(s[0]) then Fields(s[1..])
    else [Word(s)] + Fields(s[|Word(s)|..])
  }

  lemma {:induction false} FieldsIgnoreTrailing(s: string)
    ensures Fields(TrimEnd(s)) == Fields(s)
    decreases |s|
  {
    if s == TrimEnd(s) {
    } else {
      FieldsIgnoreTrailing(s[..|s| - 1]);
      FieldsDropLast(s);
    }
  }

  lemma {:induction false} WordDropLast(s: string)
    requires s != "" && IsSpace(s[|s| - 1])
    ensures Word(s[..|s| - 1]) == Word(s) && |Word(s)| < |s|
  {
    if !IsSpace(s[0]) {
      WordDropLast(s[1..]);
      assert s[..|s| - 1][1..] == s[1..][..|s[1..]| - 1];
    }
  }

  lemma {:induction false} FieldsDropLast(s: string)
    requires s != "" && IsSpace(s[|s| - 1])
    ensures Fields(s[..|s| - 1]) == Fields(s)
    decreases |s|
  {
    var t := s[..|s| - 1];
    if IsSpace(s[0]) {
      if |s| > 1 {
        FieldsDropLast(s[1..]);
        assert t[1..] == s[1..][..|s[1..]| - 1];
      }
    } else {
      WordDropLast(s);
      var w := |Word(s)|;
      FieldsDropLast(s[w..]);
      assert t[w..] == s[w..][..|s[w..]| - 1];
    }
  }

  lemma {:induction false} FieldsIgnoreLeading(s: string)
    ensures Fields(TrimStart(s)) == Fields(s)
  {
    if s != "" && IsSpace(s[0]) {
      FieldsIgnoreLeading(s[1..]);
    }
  }

  /** Trimming does not change the words. */
  lemma FieldsOfTrim(s: string)
    ensures Fields(Trim(s)) == Fields(s)
  {
    FieldsIgnoreLeading(s);
    FieldsIgnoreTrailing(TrimStart(s));
  }

  // ----- Letter case -----

  /** Lower case of the ASCII letters. */
  function LowerChar(c: char): char {
    if 'A' <= c <= 'Z' then (c as int + 32) as char else c
  }

  function ToLower(s: string): (r: string)
    ensures |r| == |s|
  {
    seq(|s|, i requires 0 <= i < |s| => LowerChar(s[i]))
  }

  // ----- Splitting at a character -----

  /** The pieces between the occurrences of sep: always at least one. */
  function Split(s: string, sep: char): (r: seq<string>)
    ensures |r| >= 1
    ensures sep in s <==> |r| >= 2
    ensures sep !in s ==> r == [s]
  {
    if s == "" then [""]
    else
      var rest := Split(s[1..], sep);
      assert s == [s[0]] + s[1..];
      if s[0] == sep then [""] + rest else [[s[0]] + rest[0]] + rest[1..]
  }

  /** The text before and after the first occurrence of sep. */
  function SplitOnce(s: string, sep: char): Option<(string, string)> {
    if s == "" then None
    else if s[0] == sep then Some(("", s[1..]))
    else match SplitOnce(s[1..], sep)
      case None => None
      case Some((a, b)) => Some(([s[0]] + a, b))
  }

  /** Splitting once is splitting, when there is one separator. */
  lemma {:induction false} SplitOnceIsSplit(s: string, sep: char)
    ensures SplitOnce(s, sep).None? <==> sep !in s
    ensures |Split(s, sep)| == 2 ==> SplitOnce(s, sep) == Some((Split(s, sep)[0], Split(s, sep)[1]))
  {
    if s != "" {
      SplitOnceIsSplit(s[1..], sep);
    }
  }

  lemma {:induction false} SplitOnceBefore(head: string, rest: string, sep: char)
    requires sep !in head && rest != "" && rest[0] == sep
    ensures SplitOnce(head + rest, sep) == Some((head, rest[1..]))
  {
    if head == "" {
      assert head + rest == rest;
    } else {
      assert head[0] in head && (head + rest)[1..] == head[1..] + rest;
      SplitOnceBefore(head[1..], rest, sep);
      assert head == [head[0]] + head[1..];
    }
  }

  /** A text is cut at its first slash. */
  lemma SplitAtSlash(a: string, b: string)
    requires '/' !in a
    ensures SplitOnce(a + "/" + b, '/') == Some((a, b)) && SplitOnce(a + ("/" + b), '/') == Some((a, b))
  {
    SplitOnceBefore(a, "/" + b, '/');
    assert a + "/" + b == a + ("/" + b) && ("/" + b)[1..] == b;
  }

  lemma {:induction false} SplitPieces(s: string, sep: char)
    ensures forall p :: p in Split(s, sep) ==> sep !in p
    ensures forall p, c :: p in Split(s, sep) && c in p ==> c in s
  {
    if s != "" {
      SplitPieces(s[1..], sep);
    }
  }

  lemma SplitUnfolds(s: string, sep: char)
    requires s != ""
    ensures var rest := Split(s[1..], sep);
            Split(s, sep) == if s[0] == sep then [""] + rest else [[s[0]] + rest[0]] + rest[1..]
  {
  }

  lemma SplitNothing(sep: char)
    ensures Split("", sep) == [""]
  {
  }

  /** The pieces of a joined text are those of its parts. */
  lemma {:induction false} SplitAround(a: string, b: string, sep: char)
    ensures Split(a + [sep] + b, sep) == Split(a, sep) + Split(b, sep)
  {
    hide Split;
    var s := a + [sep] + b;
    SplitUnfolds(s, sep);
    if a == "" {
      SplitNothing(sep);
      assert s[1..] == b;
    } else {
      assert s[0] == a[0] && s[1..] == a[1..] + [sep] + b;
      SplitUnfolds(a, sep);
      SplitAround(a[1..], b, sep);
      FirstOfBoth(Split(a[1..], sep), Split(b, sep), a[0]);
    }
  }

  lemma FirstOfBoth(x: seq<string>, y: seq<string>, c: char)
    requires x != []
    ensures [""] + (x + y) == [""] + x + y
    ensures [[c] + (x + y)[0]] + (x + y)[1..] == [[c] + x[0]] + x[1..] + y
  {
  }

  /** What is added without a separator extends the last piece. */
  lemma {:induction false} SplitAppended(s: string, t: string, sep: char)
    requires sep !in t
    ensures var r := Split(s, sep); Split(s + t, sep) == r[..|r| - 1] + [r[|r| - 1] + t]
  {
    hide Split;
    if s == "" {
      SplitNothing(sep);
      assert s + t == t && [] + ["" + t] == [t];
    } else {
      SplitUnfolds(s, sep);
      SplitUnfolds(s + t, sep);
      assert (s + t)[1..] == s[1..] + t;
      SplitAppended(s[1..], t, sep);
      AppendedFirst(Split(s[1..], sep), t, s[0]);
    }
  }

  lemma AppendedFirst(r: seq<string>, t: string, c: char)
    requires r != []
    ensures var a, b := [""] + r, [[c] + r[0]] + r[1..];
            var x := r[..|r| - 1] + [r[|r| - 1] + t];
            && [""] + x == a[..|a| - 1] + [a[|a| - 1] + t]
            && [[c] + x[0]] + x[1..] == b[..|b| - 1] + [b[|b| - 1] + t]
  {
    if |r| == 1 {
      assert [c] + (r[0] + t) == [c] + r[0] + t;
    }
  }

  // ----- Decimal numerals -----

  predicate IsDigit(c: char) {
    '0' <= c <= '9'
  }

  predicate AllDigits(s: string) {
    forall c :: c in s ==> IsDigit(c)
  }

  function DigitsValue(s: string): nat
    requires AllDigits(s)
  {
    if s == "" then 0
    else
      assert s[|s| - 1] in s;
      10 * DigitsValue(s[..|s| - 1]) + (s[|s| - 1] as int - '0' as int)
  }

  lemma DigitsClean(s: string)
    requires AllDigits(s)
    ensures '/' !in s && ',' !in s && '-' !in s && '+' !in s && '*' !in s && '?' !in s && NoSpace(s)
  {
  }

  lemma TrimClean(s: string)
    requires NoSpace(s)
    ensures Trim(s) == s
  {
    if s != "" {
      assert s[0] in s && s[|s| - 1] in s;
    }
  }

  function Digit(d: nat): (c: char)
    requires d < 10
    ensures IsDigit(c) && c as int - '0' as int == d
  {
    ('0' as int + d) as char
  }

  /** The shortest decimal numeral of a number. */
  function Numeral(n: nat): (r: string)
    ensures r != "" && AllDigits(r)
  {
    if n < 10 then [Digit(n)] else Numeral(n / 10) + [Digit(n % 10)]
  }

  lemma {:induction false} NumeralValue(n: nat)
    ensures DigitsValue(Numeral(n)) == n
  {
    if n >= 10 {
      NumeralValue(n / 10);
      var r := Numeral(n);
      assert r[..|r| - 1] == Numeral(n / 10);
    }
  }

  lemma {:induction false} SplitTwo(a: string, b: string, sep: char)
    requires sep !in a && sep !in b
    ensures Split(a + [sep] + b, sep) == [a, b]
  {
    if a == "" {
      assert (a + [sep] + b)[1..] == b;
    } else {
      assert (a + [sep] + b)[1..] == a[1..] + [sep] + b;
      SplitTwo(a[1..], b, sep);
      assert a == [a[0]] + a[1..];
    }
  }
}
