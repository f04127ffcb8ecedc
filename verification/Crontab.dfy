/** The block of cron jobs that the agent keeps inside the system crontab. */
module Crontab {
  import opened Wrappers
  import opened Text
  import opened Sorting
  import opened TextBlock

  datatype App = App(mainContent: string, enabled: bool)

  // ----- Building the block -----

  function TrimHashes(s: string): string {
    if s != "" && s[0] == '#' then TrimHashes(s[1..]) else s
  }

  /** One cron line: without comment signs when enabled, behind one when disabled. */
  function FormatCronLine(content: string, enabled: bool): Option<string> {
    var trimmed := Trim(content);
    if trimmed == "" then None
    else if enabled then
      var clean := Trim(TrimHashes(trimmed));
      if clean == "" then None else Some(clean)
    else if trimmed[0] == '#' then Some("#" + Trim(TrimHashes(trimmed)))
    else Some("#" + trimmed)
  }

  function FormattedLine(content: string, enabled: bool): seq<string> {
    match FormatCronLine(content, enabled)
    case None => []
    case Some(line) => [line]
  }

  function FormattedLines(contents: seq<string>, enabled: bool): seq<string> {
    if contents == [] then []
    else FormattedLines(contents[..|contents| - 1], enabled) + FormattedLine(contents[|contents| - 1], enabled)
  }

  function AppLines(apps: seq<App>): seq<string> {
    if apps == [] then []
    else
      var app := apps[|apps| - 1];
      AppLines(apps[..|apps| - 1]) + FormattedLines(Split(app.mainContent, '\n'), app.enabled)
  }

  function LinesText(lines: seq<string>): string {
    if lines == [] then "" else LinesText(lines[..|lines| - 1]) + lines[|lines| - 1] + "\n"
  }

  /** The lines of all apps between the markers, in order; nothing without lines. */
  function BlockFor(apps: seq<App>): string {
    var lines := Sort(AppLines(apps), Before);
    if lines == [] then "" else BlockOfLines(LinesText(lines))
  }

  method CollectLines(apps: seq<App>) returns (lines: seq<string>)
    ensures lines == AppLines(apps)
  {
    hide FormattedLine, Split;
    lines := [];
    var i := 0;
    while i < |apps|
      invariant 0 <= i <= |apps| && lines == AppLines(apps[..i])
    {
      var app := apps[i];
      assert apps[..i + 1][..i] == apps[..i];
      var contents := Split(app.mainContent, '\n');
      var before := lines;
      var j := 0;
      assert contents[..0] == [];
      while j < |contents|
        invariant 0 <= j <= |contents| && lines == before + FormattedLines(contents[..j], app.enabled)
      {
        assert contents[..j + 1][..j] == contents[..j];
        lines := lines + FormattedLine(contents[j], app.enabled);
        j := j + 1;
      }
      assert contents[..j] == contents;
      i := i + 1;
    }
    assert apps[..i] == apps;
  }

  method BuildCronBlock(apps: seq<App>) returns (out: string)
    ensures out == BlockFor(apps)
  {
    hide AppLines, Sort, StartMarker, EndMarker;
    var lines := CollectLines(apps);
    SortMembers(lines, Before);
    if lines == [] {
      return "";
    }
    lines := Sort(lines, Before);
    out := StartMarker();
    out := out + "\n";
    var i := 0;
    assert lines[..0] == [];
    while i < |lines|
      invariant 0 <= i <= |lines| && out == StartMarker() + "\n" + LinesText(lines[..i])
    {
      assert lines[..i + 1][..i] == lines[..i];
      out := out + lines[i];
      out := out + "\n";
      i := i + 1;
    }
    assert lines[..i] == lines;
    out := out + EndMarker();
    out := out + "\n";
  }

  // ----- Every line is one line -----

  /** A line with text at both ends. */
  predicate IsCronLine(s: string) {
    s != "" && '\n' !in s && !IsSpace(s[0]) && !IsSpace(s[|s| - 1])
  }

  lemma {:induction false} TrimEndLine(s: string)
    requires '\n' !in s
    ensures var e := TrimEnd(s); '\n' !in e && (e == "" || !IsSpace(e[|e| - 1])) && |e| <= |s|
  {
    if s != "" && IsSpace(s[|s| - 1]) {
      TrimEndLine(s[..|s| - 1]);
    }
  }

  lemma {:induction false} TrimStartLine(s: string)
    requires '\n' !in s
    ensures '\n' !in TrimStart(s)
  {
    if s != "" && IsSpace(s[0]) {
      TrimStartLine(s[1..]);
    }
  }

  lemma TrimmedLine(s: string)
    requires '\n' !in s
    ensures Trim(s) == "" || IsCronLine(Trim(s))
  {
    TrimStartLine(s);
    TrimStartShape(s);
    TrimEndLine(TrimStart(s));
    TrimEndTwice(TrimStart(s));
    hide IsSpace;
  }

  lemma {:induction false} HashesLine(s: string)
    requires '\n' !in s
    ensures '\n' !in TrimHashes(s)
  {
    if s != "" && s[0] == '#' {
      HashesLine(s[1..]);
    }
  }

  lemma FormatIsLine(content: string, enabled: bool)
    requires '\n' !in content
    ensures FormatCronLine(content, enabled).Some? ==> IsCronLine(FormatCronLine(content, enabled).value)
  {
    var trimmed := Trim(content);
    TrimmedLine(content);
    if trimmed != "" {
      HashesLine(trimmed);
      TrimmedLine(TrimHashes(trimmed));
      assert !IsSpace('#');
    }
    hide Trim, IsSpace, TrimHashes;
  }

  ghost predicate AllCronLines(lines: seq<string>) {
    forall s :: s in lines ==> IsCronLine(s)
  }

  lemma {:induction false} FormattedAreLines(contents: seq<string>, enabled: bool)
    requires forall s :: s in contents ==> '\n' !in s
    ensures AllCronLines(FormattedLines(contents, enabled))
  {
    hide FormatCronLine, IsCronLine;
    if contents != [] {
      assert contents[|contents| - 1] in contents;
      FormattedAreLines(contents[..|contents| - 1], enabled);
      FormatIsLine(contents[|contents| - 1], enabled);
    }
  }

  lemma {:induction false} AppLinesAreLines(apps: seq<App>)
    ensures AllCronLines(AppLines(apps))
  {
    hide IsCronLine, FormattedLines, Split;
    if apps != [] {
      var app := apps[|apps| - 1];
      AppLinesAreLines(apps[..|apps| - 1]);
      SplitPieces(app.mainContent, '\n');
      FormattedAreLines(Split(app.mainContent, '\n'), app.enabled);
    }
  }

  lemma {:induction false} NormNoNewline(s: string)
    requires '\n' !in s
    ensures Norm(s) == s
  {
    if s != "" {
      NormNoNewline(s[1..]);
      assert |s| >= 2 ==> s[1] in s;
    }
  }

  lemma {:induction false} LinesAreNormal(lines: seq<string>)
    requires AllCronLines(lines)
    ensures Norm(LinesText(lines)) == LinesText(lines)
  {
    if lines != [] {
      var rest, last := lines[..|lines| - 1], lines[|lines| - 1];
      assert last in lines && IsCronLine(last);
      LinesAreNormal(rest);
      NormNoNewline(last);
      assert IsSpace('\r');
      NormJoin(last, "\n");
      NormLine("\n");
      var text := LinesText(rest);
      assert text != "" ==> text[|text| - 1] == '\n';
      hide Norm, LinesText, IsSpace;
      NormJoin(text, last + "\n");
      assert text + last + "\n" == text + (last + "\n");
    }
  }

  /** A built block has plain line ends only. */
  lemma BuiltIsNormal(apps: seq<App>) returns (lines: string)
    requires BlockFor(apps) != ""
    ensures BlockFor(apps) == BlockOfLines(lines) && Norm(BlockFor(apps)) == BlockFor(apps)
  {
    AppLinesAreLines(apps);
    SortMembers(AppLines(apps), Before);
    var sorted := Sort(AppLines(apps), Before);
    hide Sort, AppLines, IsCronLine;
    assert AllCronLines(sorted);
    lines := LinesText(sorted);
    LinesAreNormal(sorted);
    NormalBlock(lines);
    hide *;
  }

  lemma NormalBlock(lines: string)
    requires Norm(lines) == lines
    ensures Norm(BlockOfLines(lines)) == BlockOfLines(lines)
  {
    hide *;
    var s, x, y := StartMarker(), "\n" + lines, EndMarker() + "\n";
    PiecesOfBlock(BlockOfLines(lines), lines, s, x, y);
    MarkerChars();
    NormNewlines(lines);
    NormOfThree(s, x, y);
  }

  // ----- Updating the crontab -----

  function WithNewline(s: string): string {
    if s == "" || s[|s| - 1] != '\n' then s + "\n" else s
  }

  /** The crontab without its block. */
  function Removed(norm: string): string {
    var (prefix, suffix) := Around(norm);
    var p, s := TrimEnd(prefix), TrimStart(suffix);
    var r := if p != "" && s != "" then p + "\n" + s else p + s;
    if r == "" then "" else WithNewline(r)
  }

  function LeadText(prefix: string): string {
    if TrimEnd(prefix) == "" then "" else TrimEnd(prefix) + "\n" + "\n"
  }

  function TailText(suffix: string): string {
    if TrimStart(suffix) == "" then "" else "\n" + TrimStart(suffix)
  }

  /** The crontab with the block put in place of the old one, or at the end. */
  function Replaced(norm: string, block: string): string {
    var (prefix, suffix) := Around(norm);
    WithNewline(LeadText(prefix) + Trim(block) + "\n" + TailText(suffix))
  }

  function Updated(existing: string, desired: string): (bool, string) {
    var norm := Norm(existing);
    var found := Extract(norm);
    if Trim(desired) == "" then
      if found.None? then (false, norm) else (true, Removed(norm))
    else if found.Some? && Trim(found.value) == Trim(desired) then (false, norm)
    else (true, Replaced(norm, desired))
  }

  method UpdateCrontabContent(existing: string, desired: string) returns (changed: bool, content: string)
    ensures (changed, content) == Updated(existing, desired)
  {
    hide Norm, Extract, Around, Trim, TrimEnd, TrimStart;
    var norm := Norm(existing);
    var found := Extract(norm);
    if Trim(desired) == "" {
      if found.None? {
        return false, norm;
      }
      var (prefix, suffix) := Around(norm);
      var trimmedPrefix, trimmedSuffix := TrimEnd(prefix), TrimStart(suffix);
      assert trimmedPrefix + "" == trimmedPrefix == "" + trimmedPrefix && "" + trimmedSuffix == trimmedSuffix;
      content := "";
      if trimmedPrefix != "" {
        content := content + trimmedPrefix;
      }
      if trimmedSuffix != "" {
        if content != "" {
          content := content + "\n";
        }
        content := content + trimmedSuffix;
      }
      if content != "" && content[|content| - 1] != '\n' {
        content := content + "\n";
      }
      return true, content;
    }
    if found.Some? && Trim(found.value) == Trim(desired) {
      return false, norm;
    }
    changed := true;
    content := Replace(norm, desired);
  }

  method Replace(norm: string, desired: string) returns (content: string)
    ensures content == Replaced(norm, desired)
  {
    hide *;
    var (prefix, suffix) := Around(norm);
    ReplacedIs(norm, desired);
    LeadTextIs(prefix);
    TailTextIs(suffix);
    var trimmedPrefix, trimmedSuffix := TrimEnd(prefix), TrimStart(suffix);
    content := "";
    if trimmedPrefix != "" {
      content := content + trimmedPrefix;
      content := content + "\n";
      content := content + "\n";
    }
    assert content == LeadText(prefix);
    content := content + Trim(desired);
    content := content + "\n";
    var head := content;
    if trimmedSuffix != "" {
      content := content + "\n";
      content := content + trimmedSuffix;
      JoinThree(head, "\n", trimmedSuffix);
    } else {
      JoinNothing(head);
    }
    assert content == head + TailText(suffix);
    WithNewlineIs(content);
    if content[|content| - 1] != '\n' {
      content := content + "\n";
    }
  }

  lemma ReplacedIs(norm: string, block: string)
    ensures var (prefix, suffix) := Around(norm);
            Replaced(norm, block) == WithNewline(LeadText(prefix) + Trim(block) + "\n" + TailText(suffix))
  {
    hide Around, LeadText, TailText, WithNewline, Trim;
  }

  lemma LeadTextIs(prefix: string)
    ensures LeadText(prefix) == if TrimEnd(prefix) == "" then "" else TrimEnd(prefix) + "\n" + "\n"
    ensures "" + TrimEnd(prefix) == TrimEnd(prefix)
  {
    hide TrimEnd;
  }

  lemma TailTextIs(suffix: string)
    ensures TailText(suffix) == if TrimStart(suffix) == "" then "" else "\n" + TrimStart(suffix)
  {
    hide TrimStart;
  }

  lemma WithNewlineIs(s: string)
    ensures WithNewline(s) == if s != "" && s[|s| - 1] == '\n' then s else s + "\n"
  {
  }

  lemma JoinThree(a: string, b: string, c: string)
    ensures a + b + c == a + (b + c)
  {
  }

  lemma JoinNothing(a: string)
    ensures a + "" == a
  {
  }

  // ----- Adding again, and removing -----

  lemma {:induction false} TrimEndIsPrefix(s: string)
    ensures |TrimEnd(s)| <= |s| && s[..|TrimEnd(s)|] == TrimEnd(s)
  {
    if s != "" && IsSpace(s[|s| - 1]) {
      TrimEndIsPrefix(s[..|s| - 1]);
    }
  }

  lemma TrimmedBlock(block: string, lines: string)
    requires block == BlockOfLines(lines)
    ensures Trim(block) == block[..|block| - 1] && Trim(block) + "\n" == block && Trim(block) != ""
  {
    BlockStarts(block, lines);
    var t := block[..|block| - 1];
    assert block == t + "\n";
    assert t[|t| - 1] == 'D' by { assert t[|t| - 14..|t|] == EndMarker(); }
    assert IsSpace('\n') && !IsSpace('#') && !IsSpace('D');
    TrimEndDrops(t, "\n");
    assert TrimStart(block) == block;
  }

  lemma LeadIsApart(prefix: string)
    requires !Contains(prefix, StartMarker())
    ensures var a := LeadText(prefix); !Contains(a, StartMarker()) && Apart(a) && TrimEnd(a) == TrimEnd(prefix)
  {
    var p := TrimEnd(prefix);
    TrimEndIsPrefix(prefix);
    TrimEndTwice(prefix);
    if p == "" {
      CharMissing("", StartMarker(), 0);
    } else {
      assert prefix == p + prefix[|p|..];
      if Contains(p, StartMarker()) {
        var i: nat :| i <= |p| && OccursAt(p, StartMarker(), i);
        OccursInPrefix(p, prefix[|p|..], StartMarker(), i);
      }
      NewlinesAdd(p, "\n\n");
      assert p + "\n" + "\n" == p + "\n\n";
      assert IsSpace('\n');
      TrimEndDrops(p, "\n\n");
    }
  }

  lemma ReplacedShape(norm: string, block: string, lines: string)
    requires block == BlockOfLines(lines)
    ensures var (prefix, suffix) := Around(norm);
            exists w :: Replaced(norm, block) == LeadText(prefix) + block + w && (TrimStart(suffix) == "" ==> w == "")
  {
    var (prefix, suffix) := Around(norm);
    TrimmedBlock(block, lines);
    BlockStarts(block, lines);
    hide Around, Trim, BlockOfLines, OccursAt;
    var a, z := LeadText(prefix), TailText(suffix);
    assert a + Trim(block) + "\n" + z == a + block + z by {
      assert a + Trim(block) + "\n" == a + (Trim(block) + "\n");
    }
    var w := if Replaced(norm, block) == a + block + z then z else z + "\n";
    assert a + block + z + "\n" == a + block + (z + "\n");
    assert z == "" ==> (a + block + z)[|a + block + z| - 1] == '\n';
    assert Replaced(norm, block) == a + block + w;
  }

  /** The block in a crontab with one, read with plain line ends. */
  lemma BlockAgain(a: string, block: string, w: string, lines: string, e: nat)
    requires block == BlockOfLines(lines) && Norm(block) == block && Find(block, EndMarker()) == Some(e)
    requires !Contains(a, StartMarker()) && Apart(a)
    ensures e + 14 <= |block| && Extract(Norm(a + block + w)) == Some(block[..e + 14])
  {
    BlockStarts(block, lines);
    var b, v := Norm(a), Norm(w);
    NormKeepsShape(a);
    NormKeepsShape(b);
    NormTwice(a, block, w);
    hide Norm, Contains, Apart, OccursAt, BlockOfLines, BlockOf, Around, SkipNewline, Find;
    var c, u := Norm(b), Norm(v);
    var s, rest := c + (block + u), block + u;
    var after := block[e + 14..] + u;
    assert Joined(s, c, rest) && Joined(rest, block, u);
    assert Joined(after, block[e + |EndMarker()|..], u);
    hide Joined;
    BlockIn(s, c, rest, block, u, e, after);
  }

  lemma NormTwice(a: string, block: string, w: string)
    requires Norm(block) == block && block != "" && block[0] == '#' && block[|block| - 1] == '\n'
    ensures Norm(Norm(a + block + w)) == Norm(Norm(a)) + (block + Norm(Norm(w)))
  {
    var b, v := Norm(a), Norm(w);
    assert a + block + w == a + (block + w);
    NormJoin(a, block + w);
    NormJoin(block, w);
    NormJoin(b, block + v);
    NormJoin(block, v);
    hide Norm;
  }

  lemma FoundTrims(block: string, lines: string, e: nat)
    requires block == BlockOfLines(lines) && Find(block, EndMarker()) == Some(e) && e <= |block| - 15
    ensures e + 14 <= |block| - 1 && Trim(block[..e + 14]) == block[..e + 14]
  {
    BlockStarts(block, lines);
    FindIsFirst(block, EndMarker());
    var f := block[..e + 14];
    assert f[e..e + 14] == block[e..e + 14] == EndMarker();
    assert f[|f| - 1] == EndMarker()[13] == 'D';
    assert !IsSpace('#') && !IsSpace('D');
    hide BlockOfLines, Find, IsSpace;
  }

  /** After an update that changed the crontab, the next one with the same apps reports no change
      exactly when the block's first end marker is its last line. */
  lemma AddingAgainRests(existing: string, apps: seq<App>)
    requires BlockFor(apps) != "" && Updated(existing, BlockFor(apps)).0
    ensures var block := BlockFor(apps);
            var (_, content) := Updated(existing, block);
            !Updated(content, block).0 <==> IsClean(block)
  {
    var block := BlockFor(apps);
    var lines := BuiltIsNormal(apps);
    var norm := Norm(existing);
    TrimmedBlock(block, lines);
    var e := EndOfBlock(block, lines);
    var (prefix, suffix) := Around(norm);
    PrefixIsFree(norm);
    LeadIsApart(prefix);
    ReplacedShape(norm, block, lines);
    hide Around, LeadText, Norm, Trim, BlockFor, BlockOfLines, Replaced, Removed;
    var w :| Replaced(norm, block) == LeadText(prefix) + block + w;
    BlockAgain(LeadText(prefix), block, w, lines, e);
    FoundTrims(block, lines, e);
    hide Extract, IsClean, Find;
    assert |block[..e + 14]| == e + 14 && |block[..|block| - 1]| == |block| - 1;
    assert e + 14 == |block| - 1 ==> block[..e + 14] == block[..|block| - 1];
  }

  /** What is left of a crontab without a block: trailing white space becomes one newline. */
  function Restored(existing: string): string {
    if TrimEnd(existing) == "" then "" else TrimEnd(existing) + "\n"
  }

  lemma NoBlock(content: string)
    requires !Contains(content, StartMarker())
    ensures Find(content, StartMarker()) == None && Around(content) == (content, "")
    ensures BlockOf(content) == None
  {
    FoundIsContained(content, StartMarker());
    hide Find;
  }

  lemma NoReturnsInLead(existing: string)
    requires '\r' !in existing
    ensures '\r' !in LeadText(existing)
  {
    TrimEndIsPrefix(existing);
    var p := TrimEnd(existing);
    assert forall c :: c in p ==> c in existing;
    hide TrimEnd;
  }

  /** What an update writes into a crontab without a block. */
  lemma AddedShape(existing: string, apps: seq<App>)
    requires '\r' !in existing && !Contains(existing, StartMarker()) && BlockFor(apps) != ""
    ensures Updated(existing, BlockFor(apps)) == (true, LeadText(existing) + BlockFor(apps))
    ensures Norm(LeadText(existing) + BlockFor(apps)) == LeadText(existing) + BlockFor(apps)
  {
    var block := BlockFor(apps);
    var lines := BuiltIsNormal(apps);
    NormLine(existing);
    NoBlock(existing);
    TrimmedBlock(block, lines);
    BlockStarts(block, lines);
    NoReturnsInLead(existing);
    NormLine(LeadText(existing));
    ReplacedShape(existing, block, lines);
    hide BlockFor, BlockOfLines, Norm, LeadText, Trim, BlockOf, Around, Replaced, Find, Contains, OccursAt;
    assert TrimStart("") == "";
    var w :| Replaced(existing, block) == LeadText(existing) + block + w && w == "";
    assert LeadText(existing) + block + "" == LeadText(existing) + block;
    NormJoin(LeadText(existing), block);
  }

  lemma LeftoverShows(block: string, lines: string, e: nat)
    requires block == BlockOfLines(lines) && Find(block, EndMarker()) == Some(e) && e <= |block| - 15
    ensures var z := SkipNewline(block[e + 14..]);
            if e == |block| - 15 then z == "" else |TrimStart(z)| > 1
  {
    BlockStarts(block, lines);
    var rest := block[e + 14..];
    var z := SkipNewline(rest);
    assert block[|block| - 15..|block| - 1] == EndMarker() && block[|block| - 2] == EndMarker()[13] == 'D';
    hide BlockOfLines, Find, EndMarker, OccursAt;
    if e == |block| - 15 {
      assert rest == "\n";
    } else {
      assert rest[|rest| - 2] == 'D' && rest[|rest| - 1] == '\n';
      assert z[|z| - 2] == 'D' && !IsSpace('D');
      StopsAtText(z, |z| - 2);
    }
  }

  /** Trimming the start stops at the first text. */
  lemma {:induction false} StopsAtText(s: string, k: nat)
    requires k < |s| && !IsSpace(s[k])
    ensures |TrimStart(s)| >= |s| - k
  {
    if IsSpace(s[0]) {
      StopsAtText(s[1..], k - 1);
    }
  }

  lemma BlockRemains(existing: string, block: string, lines: string, e: nat)
    requires block == BlockOfLines(lines) && Find(block, EndMarker()) == Some(e) && e <= |block| - 15
    requires !Contains(existing, StartMarker())
    ensures var content := LeadText(existing) + block;
            Around(content) == (LeadText(existing), SkipNewline(block[e + 14..])) && BlockOf(content).Some?
  {
    BlockStarts(block, lines);
    LeadIsApart(existing);
    var a := LeadText(existing);
    assert block + "" == block && block[e + 14..] + "" == block[e + 14..];
    assert Joined(a + block, a, block) && Joined(block, block, "");
    assert Joined(block[e + 14..], block[e + |EndMarker()|..], "");
    hide Joined, LeadText, Contains, Apart, OccursAt, BlockOfLines, BlockOf, Around, SkipNewline, Find;
    BlockIn(a + block, a, block, block, "", e, block[e + 14..]);
  }

  lemma RemovedShape(existing: string, content: string, z: string)
    requires Around(content) == (LeadText(existing), z) && TrimEnd(LeadText(existing)) == TrimEnd(existing)
    ensures TrimStart(z) == "" ==> Removed(content) == Restored(existing)
    ensures |TrimStart(z)| > 1 ==> Removed(content) != Restored(existing)
  {
    hide Around, LeadText, TrimStart;
    var p, s := TrimEnd(existing), TrimStart(z);
    TrimEndStops(existing);
    hide TrimEnd;
    assert IsSpace('\n');
    assert p + "" == p && "" + s == s;
    if |s| > 1 {
      assert |Removed(content)| >= |p| + |s|;
    }
  }

  lemma {:induction false} TrimEndStops(s: string)
    ensures TrimEnd(s) == "" || !IsSpace(TrimEnd(s)[|TrimEnd(s)| - 1])
  {
    if s != "" && IsSpace(s[|s| - 1]) {
      TrimEndStops(s[..|s| - 1]);
    }
  }

  /** Adding the block to a crontab without one and removing it again restores the crontab exactly
      when the block's first end marker is its last line. */
  lemma AddThenRemove(existing: string, apps: seq<App>)
    requires '\r' !in existing && !Contains(existing, StartMarker()) && BlockFor(apps) != ""
    ensures var block := BlockFor(apps);
            var (added, content) := Updated(existing, block);
            added && (Updated(content, "") == (true, Restored(existing)) <==> IsClean(block))
  {
    var block := BlockFor(apps);
    var lines := BuiltIsNormal(apps);
    var e := EndOfBlock(block, lines);
    AddedShape(existing, apps);
    BlockRemains(existing, block, lines, e);
    LeftoverShows(block, lines, e);
    LeadIsApart(existing);
    var content := LeadText(existing) + block;
    var z := SkipNewline(block[e + 14..]);
    RemovedShape(existing, content, z);
    hide *;
    assert z == "" ==> TrimStart(z) == "";
  }

  // ----- Lines that make a clean block -----

  lemma {:induction false} LinesWithoutMarker(lines: seq<string>)
    requires AllCronLines(lines) && forall s :: s in lines ==> !Contains(s, EndMarker())
    ensures !Contains(LinesText(lines), EndMarker())
  {
    if lines == [] {
      CharMissing("", EndMarker(), 0);
    } else {
      var rest, last := lines[..|lines| - 1], lines[|lines| - 1];
      LinesWithoutMarker(rest);
      assert last in lines;
      var a, b := LinesText(rest), last + "\n";
      assert a + last + "\n" == a + b;
      MarkerInLine(last);
      hide LinesText, IsCronLine;
      NoStraddle(a, b);
    }
  }

  lemma MarkerInLine(line: string)
    requires !Contains(line, EndMarker())
    ensures !Contains(line + "\n", EndMarker())
  {
    assert EndMarker()[13] == 'D';
    forall i: nat | i <= |line| + 1 ensures !OccursAt(line + "\n", EndMarker(), i) {
      OccursChar(line + "\n", EndMarker(), i, 13);
      if i + 14 <= |line| {
        OccursInPrefix(line, "\n", EndMarker(), i);
      }
    }
  }

  /** A marker does not reach over a newline. */
  lemma NoStraddle(a: string, b: string)
    requires !Contains(a, EndMarker()) && !Contains(b, EndMarker()) && (a == "" || a[|a| - 1] == '\n')
    ensures !Contains(a + b, EndMarker())
  {
    MarkersAreLines();
    forall i: nat | i <= |a + b| ensures !OccursAt(a + b, EndMarker(), i) {
      if i + 14 <= |a| {
        OccursInPrefix(a, b, EndMarker(), i);
      } else if i >= |a| {
        OccursInSuffix(a, b, EndMarker(), i - |a|);
      } else {
        OccursChar(a + b, EndMarker(), i, |a| - 1 - i);
        assert EndMarker()[|a| - 1 - i] in EndMarker();
      }
    }
  }

  lemma TextIsClean(text: string)
    requires !Contains(text, EndMarker()) && (text == "" || text[|text| - 1] == '\n')
    requires Norm(BlockOfLines(text)) == BlockOfLines(text)
    ensures IsClean(BlockOfLines(text))
  {
    var block := BlockOfLines(text);
    var head := StartMarker() + "\n";
    HeadWithoutEnd();
    BlockStarts(block, text);
    assert block == head + text + (EndMarker() + "\n") by {
      hide StartMarker, EndMarker;
    }
    hide StartMarker, EndMarker, BlockOfLines, IsClean, OccursAt, Contains, Norm;
    NoStraddle(head, text);
    FirstEndIs(block, head + text);
  }

  /** A block whose lines hold no end marker is clean. */
  lemma MarkerFreeIsClean(apps: seq<App>)
    requires BlockFor(apps) != "" && forall s :: s in AppLines(apps) ==> !Contains(s, EndMarker())
    ensures IsClean(BlockFor(apps))
  {
    AppLinesAreLines(apps);
    SortMembers(AppLines(apps), Before);
    var sorted := Sort(AppLines(apps), Before);
    var lines := BuiltIsNormal(apps);
    assert BlockFor(apps) == BlockOfLines(LinesText(sorted));
    hide *;
    LinesWithoutMarker(sorted);
    TextIsClean(LinesText(sorted));
  }

  lemma HeadWithoutEnd()
    ensures var h := StartMarker() + "\n"; !Contains(h, EndMarker()) && h[|h| - 1] == '\n'
  {
    CharMissing(StartMarker() + "\n", EndMarker(), 12);
  }

  lemma FirstEndIs(block: string, body: string)
    requires block == body + (EndMarker() + "\n") && !Contains(body, EndMarker())
    requires body != "" && body[|body| - 1] == '\n'
    requires Norm(block) == block && OccursAt(block, EndMarker(), |block| - 15)
    ensures IsClean(block)
  {
    MarkersAreLines();
    forall j: nat | j < |block| - 15 ensures !OccursAt(block, EndMarker(), j) {
      if j + 14 <= |body| {
        OccursInPrefix(body, EndMarker() + "\n", EndMarker(), j);
      } else {
        OccursChar(block, EndMarker(), j, |body| - 1 - j);
        assert EndMarker()[|body| - 1 - j] in EndMarker();
      }
    }
    FindIs(block, EndMarker(), |block| - 15);
  }

  // ----- A start marker without an end -----

  /** What stands behind the block that starts a text; nothing if the block is never closed. */
  function Behind(rest: string): string {
    match Find(rest, EndMarker())
    case None => ""
    case Some(e) => SkipNewline(rest[e + |EndMarker()|..])
  }

  /** What follows a start marker is lost exactly when nothing but white space stands behind its
      block: in particular whenever the block is never closed. */
  lemma DroppedExactly(a: string, x: string, block: string)
    requires !Contains(a, StartMarker()) && Apart(a)
    ensures var rest := StartMarker() + x;
            && (Replaced(a + rest, block) == Replaced(a, block) <==> TrimStart(Behind(rest)) == "")
            && (!Contains(rest, EndMarker()) ==> Behind(rest) == "")
  {
    var rest := StartMarker() + x;
    AroundBlock(a, x);
    FoundIsContained(rest, EndMarker());
    NoBlock(a);
    assert TrimStart("") == "";
    ReplacedIs(a + rest, block);
    ReplacedIs(a, block);
    TailTextIs(Behind(rest));
    TailTextIs("");
    hide *;
    var head := LeadText(a) + Trim(block) + "\n";
    JoinNothing(head);
    WithNewlineIs(head);
    WithNewlineIs(head + TailText(Behind(rest)));
  }

  lemma AroundBlock(a: string, x: string)
    requires !Contains(a, StartMarker()) && Apart(a)
    ensures Around(a + (StartMarker() + x)) == (a, Behind(StartMarker() + x))
  {
    var rest := StartMarker() + x;
    assert rest[..16] == StartMarker();
    StartIsFirst(a, rest);
    assert (a + rest)[|a|..] == rest && (a + rest)[..|a|] == a;
    if Find(rest, EndMarker()).Some? {
      var e := Find(rest, EndMarker()).value;
      assert (a + rest)[|a| + e + |EndMarker()|..] == rest[e + |EndMarker()|..];
    }
    hide Find, OccursAt, StartMarker, EndMarker, SkipNewline;
  }

  /** Without an end marker, everything after the start marker is dropped. */
  lemma UnclosedBlockIsDropped(a: string, x: string, block: string)
    requires !Contains(a, StartMarker()) && Apart(a) && !Contains(StartMarker() + x, EndMarker())
    ensures Replaced(a + (StartMarker() + x), block) == Replaced(a, block)
  {
    DroppedExactly(a, x, block);
    assert TrimStart("") == "";
    hide Behind, Replaced, Contains;
  }
}
