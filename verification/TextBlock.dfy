/** A block of lines between two markers inside a text that belongs to someone else. */
module TextBlock {
  import opened Wrappers
  import opened Text

  function StartMarker(): (r: string)
    ensures |r| == 16
  {
    "### EASY42_START"
  }

  function EndMarker(): (r: string)
    ensures |r| == 14
  {
    "### EASY42_END"
  }

  // ----- Searching -----

  predicate OccursAt(s: string, p: string, i: nat) {
    i + |p| <= |s| && s[i..i + |p|] == p
  }

  predicate Contains(s: string, p: string) {
    exists i: nat :: i <= |s| && OccursAt(s, p, i)
  }

  /** The first occurrence. */
  function Find(s: string, p: string): (r: Option<nat>)
    ensures r.Some? ==> r.value + |p| <= |s|
  {
    if |s| < |p| then None
    else if s[..|p|] == p then Some(0)
    else
      match Find(s[1..], p)
      case None => None
      case Some(i) => Some(i + 1)
  }

  ghost predicate IsFirst(s: string, p: string, r: Option<nat>) {
    match r
    case Some(i) => OccursAt(s, p, i) && forall j: nat :: j < i ==> !OccursAt(s, p, j)
    case None => forall j: nat :: !OccursAt(s, p, j)
  }

  lemma {:induction false} FindIsFirst(s: string, p: string)
    ensures IsFirst(s, p, Find(s, p))
  {
    if |s| >= |p| && s[..|p|] != p {
      FindIsFirst(s[1..], p);
      forall j: nat | j > 0 ensures OccursAt(s, p, j) <==> OccursAt(s[1..], p, j - 1) { }
    }
  }

  lemma FoundIsContained(s: string, p: string)
    ensures Find(s, p).Some? ==> Contains(s, p)
  {
    FindIsFirst(s, p);
    if Find(s, p).Some? {
      assert OccursAt(s, p, Find(s, p).value);
    }
    hide Find;
  }

  lemma FindIs(s: string, p: string, k: nat)
    requires OccursAt(s, p, k) && forall j: nat :: j < k ==> !OccursAt(s, p, j)
    ensures Find(s, p) == Some(k)
  {
    FindIsFirst(s, p);
    hide Find;
  }

  lemma OccursInPrefix(a: string, b: string, p: string, i: nat)
    requires i + |p| <= |a|
    ensures OccursAt(a + b, p, i) <==> OccursAt(a, p, i)
  {
    assert (a + b)[i..i + |p|] == a[i..i + |p|];
  }

  lemma OccursInSuffix(a: string, b: string, p: string, i: nat)
    ensures OccursAt(a + b, p, |a| + i) <==> OccursAt(b, p, i)
  {
    if i + |p| <= |b| {
      assert (a + b)[|a| + i..|a| + i + |p|] == b[i..i + |p|];
    }
  }

  lemma OccursChar(s: string, p: string, i: nat, k: nat)
    requires k < |p|
    ensures OccursAt(s, p, i) ==> i + k < |s| && s[i + k] == p[k]
  {
    if OccursAt(s, p, i) {
      assert s[i..i + |p|][k] == s[i + k];
    }
  }

  /** Without one of its characters, the text cannot occur. */
  lemma CharMissing(s: string, p: string, k: nat)
    requires k < |p| && p[k] !in s
    ensures !Contains(s, p)
  {
    forall i: nat | i <= |s| ensures !OccursAt(s, p, i) {
      OccursChar(s, p, i, k);
    }
  }

  // ----- Line ends -----

  /** Windows line ends become single newlines. */
  function Norm(s: string): (r: string)
    ensures |r| <= |s|
  {
    if |s| >= 2 && s[0] == '\r' && s[1] == '\n' then "\n" + Norm(s[2..])
    else if s == "" then ""
    else [s[0]] + Norm(s[1..])
  }

  predicate CrLfFirst(s: string) {
    |s| >= 2 && s[0] == '\r' && s[1] == '\n'
  }

  lemma NormFirst(s: string)
    requires s != ""
    ensures Norm(s) == if CrLfFirst(s) then "\n" + Norm(s[2..]) else [s[0]] + Norm(s[1..])
  {
  }

  lemma {:induction false} NormJoin(a: string, b: string)
    requires a == "" || b == "" || a[|a| - 1] != '\r' || b[0] != '\n'
    ensures Norm(a + b) == Norm(a) + Norm(b)
  {
    if a == "" {
      assert a + b == b;
    } else if b == "" {
      assert a + b == a;
    } else {
      NormFirst(a);
      NormFirst(a + b);
      hide Norm;
      assert (a + b)[0] == a[0] && (if |a| == 1 then (a + b)[1] == b[0] else (a + b)[1] == a[1]);
      var k := if CrLfFirst(a) then 2 else 1;
      TailOfJoin(a, b, k);
      NormJoin(a[k..], b);
    }
  }

  lemma TailOfJoin(a: string, b: string, k: nat)
    requires k <= |a|
    ensures (a + b)[k..] == a[k..] + b
  {
  }

  predicate OneLine(p: string) {
    p != "" && '\r' !in p && '\n' !in p
  }

  lemma MarkersAreLines()
    ensures OneLine(StartMarker()) && OneLine(EndMarker())
  {
  }

  lemma {:induction false} NormPrefix(s: string, p: string)
    requires '\r' !in p && '\n' !in p && OccursAt(Norm(s), p, 0)
    ensures OccursAt(s, p, 0)
  {
    if p != "" {
      var n := Norm(s);
      assert n[..|p|] == p && n[0] == p[0] && p[0] in p;
      assert n[0] == s[0] && n[1..] == Norm(s[1..]);
      assert n[1..][..|p| - 1] == p[1..];
      NormPrefix(s[1..], p[1..]);
      assert s[..|p|] == [s[0]] + s[1..][..|p| - 1];
    }
  }

  lemma NormStep(s: string) returns (k: nat)
    requires s != ""
    ensures 1 <= k <= |s| && Norm(s)[1..] == Norm(s[k..]) && Norm(s) != ""
  {
    k := if |s| >= 2 && s[0] == '\r' && s[1] == '\n' then 2 else 1;
  }

  lemma OccursBehind(s: string, p: string, k: nat, j: nat)
    requires k <= |s| && OccursAt(s[k..], p, j)
    ensures OccursAt(s, p, k + j)
  {
    assert s[k..][j..j + |p|] == s[k + j..k + j + |p|];
  }

  /** Normalizing line ends does not create an occurrence inside a line. */
  lemma {:induction false} NormOccurs(s: string, p: string, i: nat)
    requires OneLine(p) && OccursAt(Norm(s), p, i)
    ensures Contains(s, p)
    decreases |s|
  {
    if i == 0 {
      NormPrefix(s, p);
    } else {
      var k := NormStep(s);
      hide Norm, OccursAt;
      NormOccurs(s[k..], p, i - 1);
      var j: nat :| j <= |s[k..]| && OccursAt(s[k..], p, j);
      OccursBehind(s, p, k, j);
    }
  }

  lemma NormKeepsOut(s: string, p: string)
    requires OneLine(p) && !Contains(s, p)
    ensures !Contains(Norm(s), p)
  {
    if Contains(Norm(s), p) {
      var i: nat :| i <= |Norm(s)| && OccursAt(Norm(s), p, i);
      NormOccurs(s, p, i);
    }
  }

  // ----- The block -----

  /** The text before the block and after it, without the newline that ends the block. */
  function Around(content: string): (string, string) {
    match Find(content, StartMarker())
    case None => (content, "")
    case Some(start) =>
      (content[..start],
       match Find(content[start..], EndMarker())
       case None => ""
       case Some(rel) => SkipNewline(content[start + rel + |EndMarker()|..]))
  }

  function SkipNewline(s: string): string {
    if s != "" && s[0] == '\n' then s[1..] else s
  }

  /** The block, from the start marker to the end of the end marker. */
  function BlockOf(norm: string): Option<string> {
    match Find(norm, StartMarker())
    case None => None
    case Some(start) =>
      match Find(norm[start..], EndMarker())
      case None => None
      case Some(rel) => Some(norm[start..start + rel + |EndMarker()|])
  }

  function Extract(content: string): Option<string> {
    BlockOf(Norm(content))
  }

  /** Text that a marker after it cannot reach into. */
  predicate Apart(a: string) {
    a == "" || a[|a| - 1] == '\n' || '#' !in a
  }

  lemma Straddles(a: string, rest: string, j: nat)
    requires j < |a| < j + |StartMarker()|
    ensures OccursAt(a + rest, StartMarker(), j) ==> '#' in a && a[|a| - 1] != '\n'
  {
    var s := a + rest;
    if OccursAt(s, StartMarker(), j) {
      assert s[j..j + |StartMarker()|][0] == a[j];
      assert s[j..j + |StartMarker()|][|a| - 1 - j] == a[|a| - 1];
    }
  }

  lemma StartIsFirst(a: string, rest: string)
    requires !Contains(a, StartMarker()) && Apart(a) && OccursAt(rest, StartMarker(), 0)
    ensures Find(a + rest, StartMarker()) == Some(|a|)
  {
    OccursInSuffix(a, rest, StartMarker(), 0);
    forall j: nat | j < |a| ensures !OccursAt(a + rest, StartMarker(), j) {
      if j + |StartMarker()| <= |a| {
        OccursInPrefix(a, rest, StartMarker(), j);
      } else {
        Straddles(a, rest, j);
      }
    }
    FindIs(a + rest, StartMarker(), |a|);
  }

  lemma EndIsFirst(t: string, z: string, e: nat)
    requires Find(t, EndMarker()) == Some(e)
    ensures e + |EndMarker()| <= |t| && Find(t + z, EndMarker()) == Some(e)
  {
    FindIsFirst(t, EndMarker());
    OccursInPrefix(t, z, EndMarker(), e);
    forall j: nat | j < e ensures !OccursAt(t + z, EndMarker(), j) {
      OccursInPrefix(t, z, EndMarker(), j);
    }
    FindIs(t + z, EndMarker(), e);
  }

  predicate Joined(s: string, a: string, b: string) {
    s == a + b
  }

  lemma JoinedOnce(s: string, r: string, a: string, b: string)
    requires Joined(s, a, b) && Joined(r, a, b)
    ensures s == r
  {
  }

  lemma Slices(s: string, a: string, rest: string, t: string, z: string, e: nat, n: nat)
    requires Joined(s, a, rest) && Joined(rest, t, z) && e + n <= |t|
    ensures |a| + e + n <= |s| && s[..|a|] == a && s[|a|..] == rest
    ensures Joined(s[|a| + e + n..], t[e + n..], z) && s[|a|..|a| + e + n] == t[..e + n]
  {
    assert s[|a| + e + n..] == rest[e + n..] && rest[e + n..] == t[e + n..] + z;
    assert s[|a|..|a| + e + n] == rest[..e + n];
  }

  lemma AroundIs(s: string, start: nat, rel: nat, a: string, block: string, after: string)
    requires Find(s, StartMarker()) == Some(start) && Find(s[start..], EndMarker()) == Some(rel)
    requires s[..start] == a && s[start..start + rel + |EndMarker()|] == block && s[start + rel + |EndMarker()|..] == after
    ensures Around(s) == (a, SkipNewline(after))
    ensures BlockOf(s) == Some(block)
  {
    hide Find, SkipNewline;
  }

  lemma MarkersIn(s: string, a: string, rest: string, t: string, z: string, e: nat)
    requires Joined(s, a, rest) && Joined(rest, t, z)
    requires !Contains(a, StartMarker()) && Apart(a) && OccursAt(t, StartMarker(), 0) && Find(t, EndMarker()) == Some(e)
    ensures e + |EndMarker()| <= |t| && Find(s, StartMarker()) == Some(|a|) && Find(rest, EndMarker()) == Some(e)
  {
    OccursInPrefix(t, z, StartMarker(), 0);
    StartIsFirst(a, rest);
    EndIsFirst(t, z, e);
    hide *;
  }

  /** A text with a block in it: what comes before the first start marker, the block, the rest. */
  lemma BlockIn(s: string, a: string, rest: string, t: string, z: string, e: nat, after: string)
    requires Joined(s, a, rest) && Joined(rest, t, z)
    requires !Contains(a, StartMarker()) && Apart(a) && OccursAt(t, StartMarker(), 0) && Find(t, EndMarker()) == Some(e)
    requires e + |EndMarker()| <= |t| && Joined(after, t[e + |EndMarker()|..], z)
    ensures Around(s) == (a, SkipNewline(after))
    ensures BlockOf(s) == Some(t[..e + |EndMarker()|])
  {
    hide *;
    MarkersIn(s, a, rest, t, z, e);
    Slices(s, a, rest, t, z, e, |EndMarker()|);
    JoinedOnce(s[|a| + e + |EndMarker()|..], after, t[e + |EndMarker()|..], z);
    AroundIs(s, |a|, e, a, t[..e + |EndMarker()|], after);
  }

  /** Nothing before the first start marker contains one. */
  lemma PrefixIsFree(content: string)
    ensures !Contains(Around(content).0, StartMarker())
  {
    FindIsFirst(content, StartMarker());
    hide Find;
    var (a, z) := Around(content);
    if Contains(a, StartMarker()) {
      var i: nat :| i <= |a| && OccursAt(a, StartMarker(), i);
      assert content == a + content[|a|..];
      OccursInPrefix(a, content[|a|..], StartMarker(), i);
    }
  }

  // ----- More about line ends -----

  lemma {:induction false} NormSameLength(s: string)
    requires |Norm(s)| == |s|
    ensures Norm(s) == s
  {
    if s != "" {
      NormFirst(s);
      hide Norm;
      if !CrLfFirst(s) {
        NormSameLength(s[1..]);
      }
    }
  }

  lemma {:induction false} NormLine(p: string)
    requires '\r' !in p
    ensures Norm(p) == p
  {
    if p != "" {
      NormLine(p[1..]);
    }
  }

  /** Only carriage returns disappear. */
  lemma {:induction false} NormChars(s: string, c: char)
    requires c != '\r'
    ensures c in Norm(s) <==> c in s
  {
    if s != "" {
      NormFirst(s);
      hide Norm;
      if CrLfFirst(s) {
        NormChars(s[2..], c);
        assert s == [s[0], s[1]] + s[2..];
      } else {
        NormChars(s[1..], c);
        assert s == [s[0]] + s[1..];
      }
    }
  }

  /** A newline at the end, or at the start, stays there. */
  lemma NormNewlines(s: string)
    ensures Norm(s + "\n") == Norm(s) + "\n" || (s != "" && s[|s| - 1] == '\r' && Norm(s + "\n") == Norm(s[..|s| - 1]) + "\n")
    ensures Norm("\n" + s) == "\n" + Norm(s)
  {
    NormLine("\n");
    NormJoin("\n", s);
    if s != "" && s[|s| - 1] == '\r' {
      var x := s[..|s| - 1];
      assert s + "\n" == x + "\r\n";
      NormJoin(x, "\r\n");
    } else {
      NormJoin(s, "\n");
    }
  }

  predicate Blank(s: string) {
    forall c :: c in s ==> IsSpace(c)
  }

  lemma {:induction false} TrimStartBlank(s: string)
    ensures TrimStart(s) == "" <==> Blank(s)
  {
    if s != "" {
      assert s == [s[0]] + s[1..];
      TrimStartBlank(s[1..]);
    }
  }

  lemma {:induction false} TrimEndKeepsFirst(s: string)
    ensures s != "" && !IsSpace(s[0]) ==> TrimEnd(s) != ""
  {
    if s != "" && IsSpace(s[|s| - 1]) {
      TrimEndKeepsFirst(s[..|s| - 1]);
    }
  }

  /** A text trims to nothing exactly when it is blank. */
  lemma TrimBlank(s: string)
    ensures Trim(s) == "" <==> Blank(s)
  {
    TrimStartBlank(s);
    TrimStartShape(s);
    TrimEndKeepsFirst(TrimStart(s));
  }

  predicate EndsWith(s: string, p: string) {
    |p| <= |s| && s[|s| - |p|..] == p
  }

  lemma {:induction false} LastNewline(s: string)
    ensures s != "" && s[|s| - 1] == '\n' ==> Norm(s) != "" && Norm(s)[|Norm(s)| - 1] == '\n'
    ensures EndsWith(s, "\n\n") ==> EndsWith(Norm(s), "\n\n")
  {
    if s != "" && s[|s| - 1] == '\n' {
      var x := s[..|s| - 1];
      assert s == x + "\n";
      NormNewlines(x);
      if EndsWith(s, "\n\n") {
        assert x[|x| - 1] == '\n';
        LastNewline(x);
      }
    }
  }

  /** Newlines after a text without start marker do not make one. */
  lemma NewlinesAdd(a: string, n: string)
    requires !Contains(a, StartMarker()) && (n == "\n" || n == "\n\n")
    ensures !Contains(a + n, StartMarker())
  {
    var s := a + n;
    assert StartMarker()[15] == 'T';
    forall i: nat | i <= |s| ensures !OccursAt(s, StartMarker(), i) {
      OccursChar(s, StartMarker(), i, 15);
      if i + 16 <= |a| {
        OccursInPrefix(a, n, StartMarker(), i);
      }
    }
  }

  lemma NormKeepsShape(p: string)
    requires !Contains(p, StartMarker()) && Apart(p)
    ensures !Contains(Norm(p), StartMarker()) && Apart(Norm(p))
  {
    MarkersAreLines();
    NormKeepsOut(p, StartMarker());
    if p != "" && p[|p| - 1] == '\n' {
      LastNewline(p);
    } else {
      NormChars(p, '#');
    }
  }

  lemma {:induction false} TrimEndDrops(a: string, w: string)
    requires Blank(w)
    ensures TrimEnd(a + w) == TrimEnd(a)
  {
    if w == "" {
      assert a + w == a;
    } else {
      var rest, last := w[..|w| - 1], w[|w| - 1];
      assert last in w && (a + w)[..|a + w| - 1] == a + rest;
      TrimEndDrops(a, rest);
    }
  }

  // ----- The text of a block -----

  function BlockOfLines(lines: string): string {
    StartMarker() + "\n" + lines + EndMarker() + "\n"
  }

  /** The block's first end marker is its last line, and its line ends are plain. */
  predicate IsClean(block: string) {
    Norm(block) == block && |block| > |EndMarker()| && Find(block, EndMarker()) == Some(|block| - 1 - |EndMarker()|)
  }

  lemma BlockStarts(block: string, lines: string)
    requires block == BlockOfLines(lines)
    ensures OccursAt(block, StartMarker(), 0) && block != ""
    ensures |block| >= 32 && block[0] == '#' && block[|block| - 1] == '\n'
    ensures OccursAt(block, EndMarker(), |block| - 1 - |EndMarker()|)
  {
    assert block[..16] == StartMarker();
    assert block[|block| - 15..|block| - 1] == EndMarker();
  }

  lemma NormOfThree(a: string, b: string, c: string)
    requires a != "" && a[|a| - 1] != '\r' && c != "" && c[0] != '\n' && (b == "" || b[0] != '\n' || a[|a| - 1] != '\r')
    ensures Norm(a + b + c) == Norm(a) + Norm(b) + Norm(c)
  {
    NormJoin(a + b, c);
    NormJoin(a, b);
  }

  lemma EndsOfThree(n: string, a: string, b: string, c: string)
    requires n == a + b + c && |a| == 16 && |c| == 15
    ensures |n| >= 31 && OccursAt(n, a, 0) && n[0] == a[0]
    ensures n[|n| - 1] == c[14] && OccursAt(n, c[..14], |n| - 15)
  {
    assert n[..16] == a;
    assert n[|n| - 15..|n| - 1] == c[..14];
  }

  lemma MarkerChars()
    ensures StartMarker()[0] == '#' && StartMarker()[15] == 'T' && EndMarker()[0] == '#'
    ensures Norm(StartMarker()) == StartMarker()
    ensures var y := EndMarker() + "\n"; |y| == 15 && y[0] == '#' && y[14] == '\n' && y[..14] == EndMarker() && Norm(y) == y
  {
    MarkersAreLines();
    NormLine(StartMarker());
    NormLine(EndMarker() + "\n");
    hide Norm;
  }

  lemma PiecesOfBlock(block: string, lines: string, s: string, x: string, y: string)
    requires block == BlockOfLines(lines) && s == StartMarker() && x == "\n" + lines && y == EndMarker() + "\n"
    ensures block == s + x + y
  {
    hide StartMarker, EndMarker;
  }

  lemma NormOfBlock(block: string, lines: string)
    requires block == BlockOfLines(lines)
    ensures var n := Norm(block);
            && OccursAt(n, StartMarker(), 0) && |n| >= 31 && n[0] == '#' && n[|n| - 1] == '\n'
            && OccursAt(n, EndMarker(), |n| - 1 - |EndMarker()|)
  {
    hide *;
    var s, x, y := StartMarker(), "\n" + lines, EndMarker() + "\n";
    PiecesOfBlock(block, lines, s, x, y);
    MarkerChars();
    NormOfThree(s, x, y);
    EndsOfThree(Norm(block), s, Norm(x), y);
  }

  lemma EndOfBlock(block: string, lines: string) returns (e: nat)
    requires block == BlockOfLines(lines)
    ensures Find(Norm(block), EndMarker()) == Some(e) && e <= |Norm(block)| - 15
    ensures IsClean(block) <==> |Norm(block)| == |block| && e == |block| - 15
  {
    NormOfBlock(block, lines);
    BlockStarts(block, lines);
    FindIsFirst(Norm(block), EndMarker());
    e := Find(Norm(block), EndMarker()).value;
    if |Norm(block)| == |block| {
      NormSameLength(block);
    }
  }

  // ----- A block, line by line -----

  /** A line added to lines that end with a line end. */
  lemma LineSplits(lines: string, line: string, texts: seq<string>)
    requires Split(lines, '\n') == texts + [""] && '\n' !in line
    ensures Split(lines + (line + "\n"), '\n') == texts + [line] + [""]
  {
    LastPiece(lines, line, texts);
    SplitAround(lines + line, "", '\n');
    SplitNothing('\n');
    assert lines + line + ['\n'] + "" == lines + (line + "\n");
  }

  lemma LastPiece(lines: string, line: string, texts: seq<string>)
    requires Split(lines, '\n') == texts + [""] && '\n' !in line
    ensures Split(lines + line, '\n') == texts + [line]
  {
    SplitAppended(lines, line, '\n');
    assert (texts + [""])[..|texts|] == texts && "" + line == line;
  }

  lemma FramedSplits(first: string, lines: string, last: string, texts: seq<string>)
    requires Split(lines, '\n') == texts + [""] && '\n' !in first && '\n' !in last
    ensures Split(first + "\n" + lines + last + "\n", '\n') == [first] + texts + [last, ""]
  {
    hide Split;
    LineSplits(lines, last, texts);
    OnePiece(first, '\n');
    SplitAround(first, lines + (last + "\n"), '\n');
    FramedText(first, lines, last);
    FramedPieces(first, texts, last);
  }

  lemma FramedText(first: string, lines: string, last: string)
    ensures first + "\n" + lines + last + "\n" == first + ['\n'] + (lines + (last + "\n"))
  {
  }

  lemma FramedPieces(first: string, texts: seq<string>, last: string)
    ensures [first] + (texts + [last] + [""]) == [first] + texts + [last, ""]
  {
  }

  lemma BlockSplits(lines: string, texts: seq<string>)
    requires Split(lines, '\n') == texts + [""]
    ensures Split(BlockOfLines(lines), '\n') == ["### EASY42_START"] + texts + ["### EASY42_END", ""]
  {
    assert '\n' !in StartMarker() && '\n' !in EndMarker();
    assert StartMarker() == "### EASY42_START" && EndMarker() == "### EASY42_END";
    hide StartMarker, EndMarker, Split;
    FramedSplits(StartMarker(), lines, EndMarker(), texts);
  }

  lemma OnePiece(s: string, sep: char)
    requires sep !in s
    ensures Split(s, sep) == [s]
  {
  }
}
