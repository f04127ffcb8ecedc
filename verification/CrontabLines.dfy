/** The lines of the cron block: which commands run, and which are only kept behind a comment sign. */
module CrontabLines {
  import opened Wrappers
  import opened Text
  import opened Sorting
  import opened TextBlock
  import opened Crontab

  // ----- One line -----

  lemma {:induction false} TrimHashesOf(hashes: string, s: string)
    requires (forall c :: c in hashes ==> c == '#') && (s == "" || s[0] != '#')
    ensures TrimHashes(hashes + s) == s
  {
    if hashes == "" {
      assert hashes + s == s;
    } else {
      assert hashes[0] in hashes && (hashes + s)[1..] == hashes[1..] + s;
      forall c | c in hashes[1..] ensures c in hashes { }
      TrimHashesOf(hashes[1..], s);
    }
  }

  lemma {:induction false} TrimStartOf(gap: string, s: string)
    requires (forall c :: c in gap ==> IsSpace(c)) && (s == "" || !IsSpace(s[0]))
    ensures TrimStart(gap + s) == s
  {
    hide IsSpace;
    if gap == "" {
      assert gap + s == s;
    } else {
      assert gap[0] in gap && (gap + s)[1..] == gap[1..] + s;
      TrimStartOf(gap[1..], s);
    }
  }

  /** A command, possibly behind comment signs: when its app is enabled, the line is the command itself, and
      when it is disabled, the command behind one comment sign. */
  lemma CommandIs(content: string, hashes: string, gap: string, command: string)
    requires Trim(content) == hashes + (gap + command)
    requires forall c :: c in hashes ==> c == '#'
    requires forall c :: c in gap ==> IsSpace(c)
    requires command != "" && !IsSpace(command[0]) && !IsSpace(command[|command| - 1])
    requires hashes == "" ==> gap == ""
    requires gap == "" ==> command[0] != '#'
    ensures FormatCronLine(content, true) == Some(command)
    ensures FormatCronLine(content, false) == Some("#" + command)
  {
    var tail := gap + command;
    assert tail[0] != '#' by {
      assert gap != "" ==> gap[0] in gap && !IsSpace('#');
    }
    TrimHashesOf(hashes, tail);
    TrimStartOf(gap, command);
    assert TrimEnd(command) == command;
    if hashes == "" {
      assert tail == command && hashes + tail == command;
      assert TrimStart(command) == command;
    } else {
      assert hashes[0] in hashes;
    }
    hide IsSpace, TrimStart, TrimEnd, TrimHashes;
  }

  /** Blank lines are dropped; of comment signs alone, a disabled app keeps one. */
  lemma NoCommandIs(content: string)
    requires forall c :: c in Trim(content) ==> c == '#'
    ensures FormatCronLine(content, true) == None
    ensures FormatCronLine(content, false) == if Trim(content) == "" then None else Some("#")
  {
    var t := Trim(content);
    TrimHashesOf(t, "");
    assert t + "" == t;
    assert t != "" ==> t[0] in t;
    assert Trim("") == "";
    assert "#" + "" == "#";
    hide IsSpace, TrimStart, TrimEnd, TrimHashes;
  }

  /** Disabling and enabling again gives the command back. */
  lemma EnabledAgain(content: string)
    requires FormatCronLine(content, true).Some? && FormatCronLine(content, true).value[0] != '#'
    requires '\n' !in content
    ensures FormatCronLine(content, false).Some?
    ensures FormatCronLine(FormatCronLine(content, false).value, true) == FormatCronLine(content, true)
  {
    var t, v := Trim(content), FormatCronLine(content, true).value;
    FormatIsLine(content, true);
    TrimTwice(content);
    assert FormatCronLine(content, false) == Some("#" + v) by {
      if t[0] != '#' {
        assert TrimHashes(t) == t;
      }
    }
    var off := "#" + v;
    assert off == "#" + ("" + v) && off[0] == '#' && !IsSpace('#') && off[|off| - 1] == v[|v| - 1];
    assert Trim(off) == off;
    hide Trim, TrimHashes, FormatCronLine;
    CommandIs(off, "#", "", v);
  }

  // ----- The lines of all apps -----

  lemma {:induction false} FormattedLinesAre(contents: seq<string>, enabled: bool, line: string)
    ensures line in FormattedLines(contents, enabled) <==>
            exists c :: c in contents && FormatCronLine(c, enabled) == Some(line)
  {
    hide FormatCronLine;
    if contents != [] {
      var earlier, last := contents[..|contents| - 1], contents[|contents| - 1];
      FormattedLinesAre(earlier, enabled, line);
      assert contents == earlier + [last];
    }
  }

  /** A line of an app is what becomes of one of the lines of its text. */
  ghost predicate IsLineOf(app: App, line: string) {
    exists c :: c in Split(app.mainContent, '\n') && FormatCronLine(c, app.enabled) == Some(line)
  }

  lemma {:induction false} AppLinesAre(apps: seq<App>, line: string)
    ensures line in AppLines(apps) <==> exists app :: app in apps && IsLineOf(app, line)
  {
    hide IsLineOf, Split, FormattedLines;
    if apps != [] {
      var earlier, last := apps[..|apps| - 1], apps[|apps| - 1];
      AppLinesAre(earlier, line);
      FormattedLinesAre(Split(last.mainContent, '\n'), last.enabled, line);
      assert IsLineOf(last, line) <==> line in FormattedLines(Split(last.mainContent, '\n'), last.enabled) by {
        LineOfApp(last, line);
      }
      assert apps == earlier + [last];
    }
  }

  lemma LineOfApp(app: App, line: string)
    ensures IsLineOf(app, line) <==>
            exists c :: c in Split(app.mainContent, '\n') && FormatCronLine(c, app.enabled) == Some(line)
  {
    hide Split, FormatCronLine;
  }

  lemma {:induction false} SplitText(lines: seq<string>)
    requires forall s :: s in lines ==> '\n' !in s
    ensures Split(LinesText(lines), '\n') == lines + [""]
  {
    hide Split;
    if lines == [] {
      SplitNothing('\n');
    } else {
      var earlier, last := lines[..|lines| - 1], lines[|lines| - 1];
      SplitText(earlier);
      assert last in lines;
      LineSplits(LinesText(earlier), last, earlier);
      assert LinesText(earlier) + last + "\n" == LinesText(earlier) + (last + "\n");
      assert lines == earlier + [last];
    }
  }

  /** The block holds, between the markers and in the order of a dictionary, the lines of all apps; without
      any, there is no block. */
  lemma BlockLinesAre(apps: seq<App>) returns (lines: seq<string>)
    ensures forall line :: line in lines <==> exists app :: app in apps && IsLineOf(app, line)
    ensures multiset(lines) == multiset(AppLines(apps))
    ensures forall i, j :: 0 <= i < j < |lines| ==> !Before(lines[j], lines[i])
    ensures if lines == [] then BlockFor(apps) == ""
            else Split(BlockFor(apps), '\n') == ["### EASY42_START"] + lines + ["### EASY42_END", ""]
  {
    hide IsLineOf, Before, Split;
    BeforeIsWeakOrder();
    SortSorts(AppLines(apps), Before);
    SortPermutes(AppLines(apps), Before);
    SortMembers(AppLines(apps), Before);
    AppLinesAreLines(apps);
    forall line ensures line in AppLines(apps) <==> exists app :: app in apps && IsLineOf(app, line) {
      AppLinesAre(apps, line);
    }
    lines := Sort(AppLines(apps), Before);
    hide Sort, AppLines, BlockOfLines;
    if lines != [] {
      SplitText(lines);
      BlockSplits(LinesText(lines), lines);
    }
  }

  /** The block stands between the text before and the text behind it, with one blank line to each of them that is
      not blank; the last line is ended. */
  lemma LayoutIs(norm: string, block: string)
    ensures var (prefix, suffix) := Around(norm);
            var head := if TrimEnd(prefix) == "" then Trim(block) + "\n" else TrimEnd(prefix) + "\n\n" + Trim(block) + "\n";
            var whole := if TrimStart(suffix) == "" then head else head + ("\n" + TrimStart(suffix));
            Replaced(norm, block) == if whole[|whole| - 1] == '\n' then whole else whole + "\n"
  {
    var (prefix, suffix) := Around(norm);
    var b := Trim(block);
    hide Around, Trim, TrimEnd, TrimStart;
    assert LeadText(prefix) + b == if TrimEnd(prefix) == "" then b else TrimEnd(prefix) + "\n\n" + b by {
      assert TrimEnd(prefix) + "\n" + "\n" == TrimEnd(prefix) + "\n\n";
    }
  }

  /** Without a block, the text before and the text behind it are put together with a line end. */
  lemma RemovedIs(norm: string)
    ensures var (prefix, suffix) := Around(norm);
            var p, s := TrimEnd(prefix), TrimStart(suffix);
            var whole := if p == "" then s else if s == "" then p else p + "\n" + s;
            Removed(norm) == if whole == "" || whole[|whole| - 1] == '\n' then whole else whole + "\n"
  {
    hide Around, TrimEnd, TrimStart;
  }
}
