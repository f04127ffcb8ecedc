/** The block of host records that the agent keeps inside the hosts file. */
module HostsBlock {
  import opened Wrappers
  import opened Text
  import opened Sorting
  import opened TextBlock

  datatype Record = Record(name: string, ip: string)

  // ----- Building the block -----

  predicate NameChar(c: char) {
    'a' <= c <= 'z' || 'A' <= c <= 'Z' || '0' <= c <= '9' || c == '_' || c == '-'
  }

  predicate IsValidNodeName(name: string) {
    var s := Trim(name);
    s != "" && |s| <= 64 && forall i :: 0 <= i < |s| ==> NameChar(s[i])
  }

  /** Only the text before a slash has to be an address. */
  predicate IsValidIP(ip: string, parses: string -> bool) {
    parses(match SplitOnce(Trim(ip), '/') { case Some((a, _)) => a case None => Trim(ip) })
  }

  /** The record names both an address and a node. */
  predicate IsFull(r: Record) {
    Trim(r.ip) != "" && Trim(r.name) != ""
  }

  predicate IsValid(r: Record, parses: string -> bool) {
    IsFull(r) && IsValidIP(Trim(r.ip), parses) && IsValidNodeName(Trim(r.name))
  }

  function Line(r: Record): string {
    Trim(r.ip) + " " + Trim(r.name) + " " + Trim(r.name) + ".internal\n"
  }

  function Lines(records: seq<Record>, keep: Record -> bool): string {
    if records == [] then ""
    else Lines(records[..|records| - 1], keep) + if keep(records[|records| - 1]) then Line(records[|records| - 1]) else ""
  }

  predicate ByName(a: Record, b: Record) {
    Before(a.name, b.name)
  }

  /** The agent keeps the valid records, in a stable order of their names. */
  function AgentBlock(records: seq<Record>, parses: string -> bool): string {
    BlockOfLines(Lines(Sort(records, ByName), r => IsValid(r, parses)))
  }

  /** The controller keeps the full records of its sorted copy. */
  function ControllerBlock(sorted: seq<Record>): string {
    BlockOfLines(Lines(sorted, IsFull))
  }

  method BuildHostsBlock(records: seq<Record>, parses: string -> bool) returns (out: string)
    ensures out == AgentBlock(records, parses)
  {
    hide IsValid, Line, StartMarker, EndMarker, Sort;
    var sorted := Sort(records, ByName);
    out := StartMarker();
    out := out + "\n";
    var keep := (r: Record) => IsValid(r, parses);
    var i := 0;
    assert sorted[..0] == [];
    while i < |sorted|
      invariant 0 <= i <= |sorted| && out == StartMarker() + "\n" + Lines(sorted[..i], keep)
    {
      var r := sorted[i];
      assert sorted[..i + 1][..i] == sorted[..i];
      if IsValid(r, parses) {
        out := out + Line(r);
      }
      i := i + 1;
    }
    assert sorted[..i] == sorted;
    out := out + EndMarker();
    out := out + "\n";
  }

  method BuildControllerBlock(sorted: seq<Record>) returns (out: string)
    ensures out == ControllerBlock(sorted)
  {
    hide Trim, StartMarker, EndMarker;
    out := StartMarker();
    out := out + "\n";
    var i := 0;
    assert sorted[..0] == [];
    while i < |sorted|
      invariant 0 <= i <= |sorted| && out == StartMarker() + "\n" + Lines(sorted[..i], IsFull)
    {
      var r := sorted[i];
      assert sorted[..i + 1][..i] == sorted[..i];
      var ip, name := Trim(r.ip), Trim(r.name);
      if ip != "" && name != "" {
        var line := ip + " " + name + " " + name + ".internal\n";
        assert line == Line(r);
        out := out + line;
      }
      hide Line;
      i := i + 1;
    }
    assert sorted[..i] == sorted;
    out := out + EndMarker();
    out := out + "\n";
  }

  // ----- The two programs agree -----

  lemma ByNameIsWeakOrder()
    ensures WeakOrder(ByName)
  {
    BeforeIsWeakOrder();
    hide Before;
  }

  lemma DistinctNamesNoTies(records: seq<Record>)
    requires forall a, b :: a in records && b in records && a != b ==> a.name != b.name
    ensures NoTies(records, ByName)
  {
    forall a, b | a in records && b in records && a != b ensures ByName(a, b) || ByName(b, a) {
      BeforeIsTotal(a.name, b.name);
    }
  }

  /** With different names there is one sorted arrangement, so an unstable sort finds it too. */
  lemma SameOrder(records: seq<Record>, sorted: seq<Record>)
    requires multiset(sorted) == multiset(records) && Sorted(sorted, ByName)
    requires forall a, b :: a in records && b in records && a != b ==> a.name != b.name
    ensures Sort(records, ByName) == sorted
  {
    ByNameIsWeakOrder();
    SortSorts(records, ByName);
    SortPermutes(records, ByName);
    assert forall r :: r in sorted <==> r in multiset(sorted);
    DistinctNamesNoTies(records);
    hide ByName;
    SortMembers(records, ByName);
    SortedIsUnique(Sort(records, ByName), sorted, ByName);
  }

  lemma {:induction false} LinesCompare(sorted: seq<Record>, parses: string -> bool)
    ensures |Lines(sorted, r => IsValid(r, parses))| <= |Lines(sorted, IsFull)|
    ensures (forall r :: r in sorted && IsFull(r) ==> IsValid(r, parses))
            <==> |Lines(sorted, r => IsValid(r, parses))| == |Lines(sorted, IsFull)|
    ensures (forall r :: r in sorted && IsFull(r) ==> IsValid(r, parses))
            ==> Lines(sorted, r => IsValid(r, parses)) == Lines(sorted, IsFull)
  {
    if sorted != [] {
      var rest, last := sorted[..|sorted| - 1], sorted[|sorted| - 1];
      LinesCompare(rest, parses);
      assert IsValid(last, parses) ==> IsFull(last);
      hide IsValid, IsFull, Line;
      assert forall r :: r in sorted <==> r in rest || r == last;
    }
  }

  /** The controller computes the agent's block exactly when every full record is valid. */
  lemma SameBlock(records: seq<Record>, sorted: seq<Record>, parses: string -> bool)
    requires multiset(sorted) == multiset(records) && Sorted(sorted, ByName)
    requires forall a, b :: a in records && b in records && a != b ==> a.name != b.name
    ensures AgentBlock(records, parses) == ControllerBlock(sorted)
            <==> forall r :: r in records && IsFull(r) ==> IsValid(r, parses)
  {
    SameOrder(records, sorted);
    LinesCompare(sorted, parses);
    SortMembers(records, ByName);
    hide IsValid, IsFull, Lines, Sort;
    var a, c := Lines(sorted, r => IsValid(r, parses)), Lines(sorted, IsFull);
    assert |BlockOfLines(a)| - |a| == |BlockOfLines(c)| - |c|;
  }

  // ----- Placing the block in the file -----

  /** The text before the block, ending in an empty line. */
  function PrefixText(prefix: string): string {
    if prefix == "" then "\n"
    else if Trim(prefix) == "" then if '\n' in prefix then prefix else "\n"
    else if EndsWith(prefix, "\n\n") then prefix
    else if EndsWith(prefix, "\n") then prefix + "\n"
    else prefix + "\n\n"
  }

  /** The text after the block, starting with an empty line. */
  function SuffixText(suffix: string): string {
    if suffix == "" then "\n"
    else if suffix[0] == '\n' then suffix
    else "\n" + suffix
  }

  /** The file with the block put in place of the old one, or at the end. */
  function Placed(norm: string, block: string): string {
    var (prefix, suffix) := Around(norm);
    PrefixText(prefix) + block + SuffixText(suffix)
  }

  /** The hash of a block, by an arbitrary hash function. */
  function HashBlock(block: string, sha: string -> string): string {
    var t := Trim(Norm(block));
    if t == "" then "" else sha(t)
  }

  class HostsFile {
    var content: string

    /** Rewrites the file only when the block or the empty lines around it differ. */
    method Update(records: seq<Record>, parses: string -> bool, sha: string -> string)
      returns (updated: bool, hash: string)
      modifies this
      ensures var block := AgentBlock(records, parses);
              && (updated <==> Placed(Norm(old(content)), block) != Norm(old(content)))
              && content == (if updated then Placed(Norm(old(content)), block) else old(content))
              && hash == HashBlock(block, sha)
    {
      hide AgentBlock, HashBlock, PrefixText, SuffixText, Around, Norm;
      var block := BuildHostsBlock(records, parses);
      hash := HashBlock(block, sha);
      var norm := Norm(content);
      var (prefix, suffix) := Around(norm);
      var placed := PrefixText(prefix) + block + SuffixText(suffix);
      if placed == norm {
        return false, hash;
      }
      content := placed;
      updated := true;
    }
  }

  // ----- Updating twice -----

  lemma PrefixShape(a: string)
    requires !Contains(a, StartMarker())
    ensures var p := PrefixText(a); p != "" && !Contains(p, StartMarker()) && Apart(p)
  {
    var p := PrefixText(a);
    if Trim(a) == "" {
      TrimBlank(a);
      assert forall c :: c in p ==> IsSpace(c) by { assert IsSpace('\n'); }
      assert '#' !in p;
      CharMissing(p, StartMarker(), 0);
    } else {
      assert p[|p| - 1] == '\n';
      NewlinesAdd(a, "\n");
      NewlinesAdd(a, "\n\n");
    }
  }

  lemma NormBlank(s: string)
    ensures Blank(Norm(s)) <==> Blank(s)
  {
    assert IsSpace('\r');
    forall c | c != '\r' ensures c in Norm(s) <==> c in s {
      NormChars(s, c);
    }
  }

  /** The text before the block is placed the same way again. */
  lemma PrefixAgain(a: string)
    ensures var p := PrefixText(a); PrefixText(Norm(p)) == Norm(p)
  {
    var p := PrefixText(a);
    TrimBlank(a);
    TrimBlank(p);
    TrimBlank(Norm(p));
    NormBlank(p);
    NormChars(p, '\n');
    LastNewline(p);
    if Trim(a) == "" {
      assert IsSpace('\n');
      assert '\n' in p;
    } else {
      assert forall c :: c in a ==> c in p;
      assert EndsWith(p, "\n\n");
    }
    hide Norm, Trim, Blank;
  }

  lemma SuffixAgain(z: string)
    ensures var s := SuffixText(z);
            SuffixText(Norm(s)) == Norm(s) && s != "" && s[0] == '\n' && Norm(s) == "\n" + Norm(s[1..])
  {
    var s := SuffixText(z);
    assert s == "\n" + s[1..];
    NormNewlines(s[1..]);
  }

  /** The file after an update, read with plain line ends: text before, block, text after. */
  lemma NormOfPlaced(p: string, block: string, s: string)
    requires block != "" && block[0] == '#' && block[|block| - 1] == '\n'
    ensures Norm(p + block + s) == Norm(p) + (Norm(block) + Norm(s))
  {
    assert p + block + s == p + (block + s);
    NormJoin(p, block + s);
    NormJoin(block, s);
  }

  /** What an update finds in the file it wrote. */
  lemma FoundAgain(norm: string, block: string, lines: string, e: nat)
    requires block == BlockOfLines(lines) && Find(Norm(block), EndMarker()) == Some(e)
    ensures var (prefix, suffix) := Around(norm);
            var p, s := PrefixText(prefix), SuffixText(suffix);
            var n := Norm(Placed(norm, block));
            && e + |EndMarker()| <= |Norm(block)|
            && Joined(n, Norm(p), Norm(block) + Norm(s))
            && Around(n) == (Norm(p), SkipNewline(Norm(block)[e + |EndMarker()|..] + Norm(s)))
            && BlockOf(n) == Some(Norm(block)[..e + |EndMarker()|])
  {
    var (prefix, suffix) := Around(norm);
    var p, s := PrefixText(prefix), SuffixText(suffix);
    PrefixIsFree(norm);
    PrefixShape(prefix);
    NormKeepsShape(p);
    BlockStarts(block, lines);
    NormOfBlock(block, lines);
    NormOfPlaced(p, block, s);
    hide Norm, PrefixText, SuffixText, Around, Find, Contains, OccursAt, BlockOf, SkipNewline, BlockOfLines, Apart;
    var rest := Norm(block) + Norm(s);
    var after := Norm(block)[e + |EndMarker()|..] + Norm(s);
    BlockIn(Norm(p) + rest, Norm(p), rest, Norm(block), Norm(s), e, after);
  }

  /** After an update that changed the file, the next one with the same records reports no change
      exactly when the block is clean. */
  lemma SecondUpdateRests(content: string, block: string, lines: string)
    requires block == BlockOfLines(lines)
    ensures var placed := Placed(Norm(content), block);
            Placed(Norm(placed), block) == Norm(placed) <==> IsClean(block)
  {
    hide *;
    var norm := Norm(content);
    var e := EndOfBlock(block, lines);
    var (prefix, suffix) := Around(norm);
    var p, s := PrefixText(prefix), SuffixText(suffix);
    var n := Norm(Placed(norm, block));
    EndLength();
    FoundAgain(norm, block, lines, e);
    PrefixAgain(prefix);
    SuffixAgain(suffix);
    if |Norm(block)| == |block| {
      NormSameLength(block);
    }
    NormOfBlock(block, lines);
    CompareLengths(n, Norm(p), block, Norm(block), Norm(s), e);
  }

  lemma CompareLengths(n: string, p: string, block: string, norm: string, s: string, e: nat)
    requires Joined(n, p, norm + s) && PrefixText(p) == p && s != "" && s[0] == '\n' && |norm| <= |block|
    requires e + 15 <= |norm| && norm[|norm| - 1] == '\n'
    requires Around(n) == (p, SkipNewline(norm[e + |EndMarker()|..] + s))
    requires |norm| == |block| ==> norm == block
    ensures Placed(n, block) == n <==> |norm| == |block| && e == |block| - 15
  {
    EndLength();
    var after := norm[e + |EndMarker()|..] + s;
    PlacedIs(n, block);
    JoinedLength(n, p, norm, s);
    SuffixLength(after);
    if |norm| == |block| && e == |block| - 15 {
      LastOf(norm);
      SuffixSkips(s);
      Regrouped(p, block, s);
      Joins(n, p, norm + s);
    }
    hide *;
  }

  lemma EndLength()
    ensures |EndMarker()| == 14
  {
  }

  lemma Joins(n: string, p: string, t: string)
    requires Joined(n, p, t)
    ensures n == p + t
  {
  }

  lemma JoinedLength(n: string, p: string, a: string, b: string)
    requires Joined(n, p, a + b)
    ensures |n| == |p| + |a| + |b|
  {
  }

  lemma LastOf(s: string)
    requires s != ""
    ensures s[|s| - 1..] == [s[|s| - 1]]
  {
  }

  lemma Regrouped(a: string, b: string, c: string)
    ensures a + b + c == a + (b + c)
  {
  }

  lemma SuffixLength(after: string)
    ensures |SuffixText(SkipNewline(after))| >= |after| - 1
  {
  }

  lemma SuffixSkips(s: string)
    requires s != "" && s[0] == '\n'
    ensures SuffixText(SkipNewline("\n" + s)) == s
  {
    assert ("\n" + s)[1..] == s;
  }

  /** Extracting the block from an updated file gives the block, without its last newline. */
  lemma UpdateIsExtracted(content: string, block: string, lines: string)
    requires block == BlockOfLines(lines) && IsClean(block)
    ensures var norm := Norm(content);
            var placed := Placed(norm, block);
            Extract(placed) == Some(block[..|block| - 1])
            && (placed == norm ==> Extract(content) == Some(block[..|block| - 1]))
  {
    var norm := Norm(content);
    var e := EndOfBlock(block, lines);
    FoundAgain(norm, block, lines, e);
    var placed := Placed(norm, block);
    if placed == norm {
      FoundAtRest(norm, block, lines);
    }
    hide Norm, Placed, BlockOf, Find;
  }

  /** A file at rest already holds the block. */
  lemma FoundAtRest(norm: string, block: string, lines: string)
    requires block == BlockOfLines(lines) && IsClean(block) && Placed(norm, block) == norm
    ensures BlockOf(norm) == Some(block[..|block| - 1])
  {
    var (prefix, suffix) := Around(norm);
    var p, s := PrefixText(prefix), SuffixText(suffix);
    PrefixIsFree(norm);
    PrefixShape(prefix);
    BlockStarts(block, lines);
    hide *;
    PlacedIs(norm, block);
    RestOfPlaced(norm, p, block, s);
    BlockIn(norm, p, block + s, block, s, |block| - 15, "\n" + s);
  }

  lemma PlacedIs(norm: string, block: string)
    ensures Placed(norm, block) == PrefixText(Around(norm).0) + block + SuffixText(Around(norm).1)
  {
    hide Around, PrefixText, SuffixText;
  }

  lemma RestOfPlaced(norm: string, p: string, block: string, s: string)
    requires norm == p + block + s && |block| >= 15 && block[|block| - 1] == '\n'
    ensures Joined(norm, p, block + s) && Joined(block + s, block, s)
    ensures Joined("\n" + s, block[|block| - 1..], s)
    ensures |block| - 15 + |EndMarker()| == |block| - 1
  {
    assert p + block + s == p + (block + s);
    assert block[|block| - 1..] == "\n";
  }

  lemma NewlinesAreBlank()
    ensures Blank("\n") && Blank("\n\n")
  {
  }

  // ----- What stays around the block -----

  lemma PrefixKept(prefix: string)
    ensures TrimEnd(PrefixText(prefix)) == TrimEnd(prefix)
  {
    TrimBlank(prefix);
    NewlinesAreBlank();
    var p := PrefixText(prefix);
    assert p == prefix || p == "\n" || p == prefix + "\n" || p == prefix + "\n\n";
    assert p == "\n" ==> prefix == "" || Blank(prefix);
    assert "" + prefix == prefix && "" + "\n" == "\n";
    hide *;
    if Blank(prefix) {
      TrimEndDrops("", prefix);
    }
    TrimEndDrops("", "\n");
    TrimEndDrops(prefix, "\n");
    TrimEndDrops(prefix, "\n\n");
  }

  lemma SuffixKept(suffix: string)
    ensures TrimStart(SuffixText(suffix)) == TrimStart(suffix)
  {
    assert IsSpace('\n');
    assert ("\n" + suffix)[1..] == suffix;
  }

  /** Text around the old block is kept, up to white space next to the new one. */
  lemma SurroundingsKept(norm: string, block: string)
    ensures var (prefix, suffix) := Around(norm);
            && Placed(norm, block) == PrefixText(prefix) + block + SuffixText(suffix)
            && TrimEnd(PrefixText(prefix)) == TrimEnd(prefix)
            && TrimStart(SuffixText(suffix)) == TrimStart(suffix)
  {
    var (prefix, suffix) := Around(norm);
    PrefixKept(prefix);
    SuffixKept(suffix);
    hide Around, TrimStart, TrimEnd, PrefixText, SuffixText;
  }

  // ----- Hashes -----

  /** The agent's hash of the extracted block is the hash of the block that was built. */
  lemma SameHash(block: string, lines: string, sha: string -> string)
    requires block == BlockOfLines(lines) && IsClean(block)
    ensures HashBlock(block[..|block| - 1], sha) == HashBlock(block, sha)
  {
    BlockStarts(block, lines);
    var t := block[..|block| - 1];
    assert block == t + "\n";
    NormJoin(t, "\n");
    NormOfBlock(block, lines);
    assert t[|t| - 1] == 'D' by { assert t[|t| - 14..|t|] == EndMarker(); }
    NormLine("\n");
    hide Norm;
    assert Norm(t) == t;
    assert IsSpace('\n') && !IsSpace('#');
    TrimEndDrops(t, "\n");
    assert TrimStart(block) == block && TrimStart(t) == t;
  }

  // ----- Records that make a clean block -----

  /** Addresses without marker characters and carriage returns. */
  predicate HarmlessText(s: string) {
    '#' !in s && '\r' !in s
  }

  lemma TrimmedHarmless(s: string)
    requires HarmlessText(s)
    ensures HarmlessText(Trim(s))
  {
    TrimStartPart(s);
    TrimEndPart(TrimStart(s));
  }

  lemma {:induction false} TrimStartPart(s: string)
    ensures forall c :: c in TrimStart(s) ==> c in s
  {
    if s != "" && IsSpace(s[0]) {
      TrimStartPart(s[1..]);
    }
  }

  lemma {:induction false} TrimEndPart(s: string)
    ensures forall c :: c in TrimEnd(s) ==> c in s
  {
    if s != "" && IsSpace(s[|s| - 1]) {
      TrimEndPart(s[..|s| - 1]);
    }
  }

  lemma LineHarmless(r: Record, parses: string -> bool)
    requires IsValid(r, parses) && HarmlessText(r.ip)
    ensures HarmlessText(Line(r))
  {
    TrimmedHarmless(r.ip);
    TrimTwice(r.name);
    var name := Trim(r.name);
    assert HarmlessText(name) by {
      forall c | c in name ensures c != '#' && c != '\r' {
        var i :| 0 <= i < |name| && name[i] == c;
        assert NameChar(name[i]);
      }
    }
    hide Trim;
    assert HarmlessText(" ") && HarmlessText(".internal\n");
  }

  lemma {:induction false} LinesHarmless(sorted: seq<Record>, parses: string -> bool)
    requires forall r :: r in sorted && IsValid(r, parses) ==> HarmlessText(r.ip)
    ensures HarmlessText(Lines(sorted, r => IsValid(r, parses)))
  {
    if sorted != [] {
      var last := sorted[|sorted| - 1];
      LinesHarmless(sorted[..|sorted| - 1], parses);
      if IsValid(last, parses) {
        assert last in sorted;
        LineHarmless(last, parses);
      }
      hide IsValid, Line;
    }
  }

  lemma NoReturns(lines: string)
    requires HarmlessText(lines)
    ensures Norm(BlockOfLines(lines)) == BlockOfLines(lines)
  {
    var block := BlockOfLines(lines);
    MarkersAreLines();
    assert '\r' !in "\n";
    hide StartMarker, EndMarker;
    assert '\r' !in block;
    NormLine(block);
  }

  lemma EndComesLast(block: string, lines: string, j: nat)
    requires block == BlockOfLines(lines) && HarmlessText(lines) && j < |block| - 15
    ensures !OccursAt(block, EndMarker(), j)
  {
    CharsOfBlock(lines, j);
    hide StartMarker, EndMarker, OccursAt, BlockOfLines;
    OccursChar(block, EndMarker(), j, 0);
    OccursChar(block, EndMarker(), j, 1);
    OccursChar(block, EndMarker(), j, 2);
    OccursChar(block, EndMarker(), j, 11);
  }

  lemma HarmlessIsClean(lines: string)
    requires HarmlessText(lines)
    ensures IsClean(BlockOfLines(lines))
  {
    var block := BlockOfLines(lines);
    BlockStarts(block, lines);
    NoReturns(lines);
    hide StartMarker, EndMarker, OccursAt, BlockOfLines, Norm, HarmlessText;
    forall j: nat | j < |block| - 15 ensures !OccursAt(block, EndMarker(), j) {
      EndComesLast(block, lines, j);
    }
    FindIs(block, EndMarker(), |block| - 15);
  }

  lemma CharsOfBlock(lines: string, j: nat)
    requires HarmlessText(lines) && j < |BlockOfLines(lines)| - 15
    ensures var block := BlockOfLines(lines);
            if j >= 3 then block[j] != '#' else if j >= 1 then block[3] == ' ' else block[11] == 'S'
  {
    var block := BlockOfLines(lines);
    if j < 16 {
      assert block[..16] == StartMarker() && block[..16][j] == block[j];
      assert block[..16][3] == ' ' && block[..16][11] == 'S';
    } else if j > 16 {
      assert block[j] == lines[j - 17] && lines[j - 17] in lines;
    }
  }

  /** With harmless addresses, updating again changes nothing, what is extracted is the block, and
      the agent's hash is the one the controller computes. */
  lemma HarmlessRecordsSettle(content: string, records: seq<Record>, sorted: seq<Record>,
                              parses: string -> bool, sha: string -> string)
    requires forall r :: r in records && IsValid(r, parses) ==> HarmlessText(r.ip)
    requires multiset(sorted) == multiset(records) && Sorted(sorted, ByName)
    requires forall a, b :: a in records && b in records && a != b ==> a.name != b.name
    requires forall r :: r in records && IsFull(r) ==> IsValid(r, parses)
    ensures var block := AgentBlock(records, parses);
            var placed := Placed(Norm(content), block);
            && Placed(Norm(placed), block) == Norm(placed)
            && Extract(placed) == Some(block[..|block| - 1])
            && HashBlock(block[..|block| - 1], sha) == HashBlock(ControllerBlock(sorted), sha)
  {
    SortMembers(records, ByName);
    LinesHarmless(Sort(records, ByName), parses);
    var lines := Lines(Sort(records, ByName), r => IsValid(r, parses));
    var block := AgentBlock(records, parses);
    HarmlessIsClean(lines);
    SecondUpdateRests(content, block, lines);
    UpdateIsExtracted(content, block, lines);
    SameBlock(records, sorted, parses);
    SameHash(block, lines, sha);
    hide *;
  }

  // ----- An address with marker text -----

  lemma SolidTrim(s: string)
    requires s != "" && !IsSpace(s[0]) && !IsSpace(s[|s| - 1])
    ensures Trim(s) == s
  {
  }

  /** Only the text before the slash of an address is looked at. */
  function MarkedAddress(): string {
    "10.0.0.1/" + EndMarker()
  }

  lemma MarkedAddressIs(parses: string -> bool)
    requires parses("10.0.0.1")
    ensures Trim(MarkedAddress()) == MarkedAddress() != "" && IsValidIP(MarkedAddress(), parses)
    ensures Trim("a") == "a" && IsValidNodeName("a")
  {
    var s := MarkedAddress();
    assert s[0] == '1' && s[|s| - 1] == 'D';
    SolidTrim(s);
    SolidTrim("a");
    assert SplitOnce(s, '/') == Some(("10.0.0.1", EndMarker())) by {
      SplitAtSlash("10.0.0.1", EndMarker());
      assert s == "10.0.0.1" + ("/" + EndMarker());
    }
  }

  lemma MarkedLine() returns (rest: string)
    ensures Line(Record("a", MarkedAddress())) == "10.0.0.1/" + (EndMarker() + rest)
  {
    MarkedAddressIs(s => true);
    var ip, name := Trim(MarkedAddress()), Trim("a");
    assert Line(Record("a", MarkedAddress())) == ip + " " + name + " " + name + ".internal\n";
    hide *;
    rest := " " + name + " " + name + ".internal\n";
    MarkedAddressParts();
    RegroupLine("10.0.0.1/", EndMarker(), name);
  }

  lemma MarkedAddressParts()
    ensures MarkedAddress() == "10.0.0.1/" + EndMarker()
  {
  }

  lemma RegroupLine(head: string, mark: string, name: string)
    ensures head + mark + " " + name + " " + name + ".internal\n"
         == head + (mark + (" " + name + " " + name + ".internal\n"))
  {
  }

  /** A valid record with such an address makes a block that the next update does not recognise. */
  lemma MarkedAddressUnclean(parses: string -> bool)
    requires parses("10.0.0.1")
    ensures var r := Record("a", MarkedAddress()); IsValid(r, parses) && !IsClean(AgentBlock([r], parses))
  {
    var r := Record("a", MarkedAddress());
    MarkedAddressIs(parses);
    var rest := MarkedLine();
    var line := Line(r);
    assert IsValid(r, parses);
    var block := AgentBlock([r], parses);
    assert block == BlockOfLines(line) by {
      OneRecordBlock(r, parses);
    }
    hide IsValid, Line, Trim, IsValidIP, IsValidNodeName;
    EarlyMarker(block, "10.0.0.1/", rest);
  }

  lemma OneRecordBlock(r: Record, parses: string -> bool)
    requires IsValid(r, parses)
    ensures AgentBlock([r], parses) == BlockOfLines(Line(r))
  {
    assert Sort([r], ByName) == [r];
    var keep := (r: Record) => IsValid(r, parses);
    assert Lines([r], keep) == "" + Line(r);
    hide IsValid, Line, BlockOfLines, Sort;
  }

  lemma EarlyMarker(block: string, head: string, rest: string)
    requires block == BlockOfLines(head + (EndMarker() + rest)) && rest != ""
    ensures !IsClean(block)
  {
    var k := |StartMarker()| + 1 + |head|;
    var before, after := StartMarker() + "\n" + head, rest + EndMarker() + "\n";
    assert block == before + (EndMarker() + after);
    OccursInSuffix(before, EndMarker() + after, EndMarker(), 0);
    assert OccursAt(EndMarker() + after, EndMarker(), 0);
    FindIsFirst(block, EndMarker());
    hide Find, StartMarker, EndMarker, Norm;
  }
}
