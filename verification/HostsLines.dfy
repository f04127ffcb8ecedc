/** The lines of the hosts block: which records stand in it, in which order, and as what. */
module HostsLines {
  import opened Wrappers
  import opened Text
  import opened Sorting
  import opened TextBlock
  import opened HostsBlock

  // ----- Valid records -----

  /** Letters, digits, underscore and hyphen. */
  predicate PlainChar(c: char) {
    || ('0' <= c <= '9') || ('A' <= c <= 'Z') || c == '_' || ('a' <= c <= 'z') || c == '-'
  }

  /** A record is valid when its name has 1 to 64 such characters and its address, up to a slash, is one. */
  lemma ValidIs(r: Record, parses: string -> bool, address: string, tail: string)
    requires '/' !in address && (Trim(r.ip) == address || Trim(r.ip) == address + "/" + tail)
    ensures IsValid(r, parses) <==>
            && Trim(r.ip) != "" && parses(address) && 1 <= |Trim(r.name)| <= 64
            && forall c :: c in Trim(r.name) ==> PlainChar(c)
  {
    TrimTwice(r.ip);
    TrimTwice(r.name);
    SplitOnceIsSplit(address, '/');
    SplitAtSlash(address, tail);
    var name := Trim(r.name);
    SameChars(name);
    hide Trim, SplitOnce, NameChar, PlainChar, Split;
  }

  lemma SameChars(name: string)
    ensures (forall i :: 0 <= i < |name| ==> NameChar(name[i])) <==> forall c :: c in name ==> PlainChar(c)
  {
    forall c ensures NameChar(c) <==> PlainChar(c) { }
    hide NameChar, PlainChar;
    if forall i :: 0 <= i < |name| ==> NameChar(name[i]) {
      forall c | c in name ensures PlainChar(c) {
        var i :| 0 <= i < |name| && name[i] == c;
      }
    }
  }

  // ----- The lines of a block -----

  /** The address, the name, and the name again as a host of the internal domain. */
  function TextOf(r: Record): string {
    Trim(r.ip) + " " + Trim(r.name) + " " + Trim(r.name) + ".internal"
  }

  function Texts(records: seq<Record>): (t: seq<string>)
    ensures |t| == |records| && forall i :: 0 <= i < |t| ==> t[i] == TextOf(records[i])
  {
    seq(|records|, i requires 0 <= i < |records| => TextOf(records[i]))
  }

  function Kept(records: seq<Record>, keep: Record -> bool): seq<Record> {
    if records == [] then []
    else Kept(records[..|records| - 1], keep) + if keep(records[|records| - 1]) then [records[|records| - 1]] else []
  }

  lemma {:induction false} KeptCounts(records: seq<Record>, keep: Record -> bool)
    ensures forall r :: multiset(Kept(records, keep))[r] == if keep(r) then multiset(records)[r] else 0
  {
    if records != [] {
      var earlier, last := records[..|records| - 1], records[|records| - 1];
      KeptCounts(earlier, keep);
      assert records == earlier + [last];
    }
  }

  lemma KeptMembers(records: seq<Record>, keep: Record -> bool)
    ensures forall r :: r in Kept(records, keep) <==> r in records && keep(r)
  {
    KeptCounts(records, keep);
    forall r ensures r in Kept(records, keep) <==> r in records && keep(r) {
      assert r in Kept(records, keep) <==> multiset(Kept(records, keep))[r] > 0;
      assert r in records <==> multiset(records)[r] > 0;
    }
  }

  /** The kept records stand in their order. */
  lemma {:induction false} KeptIs(records: seq<Record>, keep: Record -> bool, less: (Record, Record) -> bool)
    requires Sorted(records, less)
    ensures Sorted(Kept(records, keep), less)
  {
    if records != [] {
      var earlier, last := records[..|records| - 1], records[|records| - 1];
      KeptIs(earlier, keep, less);
      KeptMembers(earlier, keep);
      var k := Kept(earlier, keep);
      forall i | 0 <= i < |k| ensures !less(last, k[i]) {
        assert k[i] in k && k[i] in earlier;
        var j :| 0 <= j < |earlier| && earlier[j] == k[i];
        assert records[j] == k[i] && records[|records| - 1] == last;
      }
    }
  }

  lemma LineIs(r: Record)
    ensures Line(r) == TextOf(r) + "\n"
  {
    hide Trim;
  }

  lemma TextIsOneLine(r: Record)
    requires '\n' !in r.ip && '\n' !in r.name
    ensures '\n' !in TextOf(r)
  {
    TrimHasOnly(r.ip, '\n');
    TrimHasOnly(r.name, '\n');
    hide Trim;
  }

  lemma {:induction false} TrimStartHasOnly(s: string, c: char)
    requires c !in s
    ensures c !in TrimStart(s)
  {
    hide IsSpace;
    if s != "" && IsSpace(s[0]) {
      TrimStartHasOnly(s[1..], c);
    }
  }

  lemma {:induction false} TrimEndHasOnly(s: string, c: char)
    requires c !in s
    ensures c !in TrimEnd(s)
  {
    hide IsSpace;
    if s != "" && IsSpace(s[|s| - 1]) {
      TrimEndHasOnly(s[..|s| - 1], c);
    }
  }

  lemma TrimHasOnly(s: string, c: char)
    requires c !in s
    ensures c !in Trim(s)
  {
    TrimStartHasOnly(s, c);
    TrimEndHasOnly(TrimStart(s), c);
  }

  lemma {:induction false} SplitLines(records: seq<Record>, keep: Record -> bool)
    requires forall r :: r in records && keep(r) ==> '\n' !in r.ip && '\n' !in r.name
    ensures Split(Lines(records, keep), '\n') == Texts(Kept(records, keep)) + [""]
  {
    hide Split, TextOf, Line;
    if records == [] {
      SplitNothing('\n');
      assert Texts([]) + [""] == [""];
    } else {
      var earlier, last := records[..|records| - 1], records[|records| - 1];
      assert records == earlier + [last];
      SplitLines(earlier, keep);
      if keep(last) {
        LineIs(last);
        TextIsOneLine(last);
        LineSplits(Lines(earlier, keep), TextOf(last), Texts(Kept(earlier, keep)));
        assert Texts(Kept(records, keep)) == Texts(Kept(earlier, keep)) + [TextOf(last)];
      } else {
        assert Lines(earlier, keep) + "" == Lines(earlier, keep);
        assert Kept(earlier, keep) + [] == Kept(earlier, keep);
      }
    }
  }

  // ----- The blocks of both programs -----

  predicate OneLiners(records: seq<Record>) {
    forall r :: r in records ==> '\n' !in r.ip && '\n' !in r.name
  }

  /** The agent's block: between the markers one line for every valid record, sorted by name. */
  lemma AgentLines(records: seq<Record>, parses: string -> bool) returns (kept: seq<Record>)
    requires OneLiners(records)
    ensures forall r :: multiset(kept)[r] == if IsValid(r, parses) then multiset(records)[r] else 0
    ensures forall i, j :: 0 <= i < j < |kept| ==> !Before(kept[j].name, kept[i].name)
    ensures Split(AgentBlock(records, parses), '\n') ==
            ["### EASY42_START"] + Texts(kept) + ["### EASY42_END", ""]
  {
    hide IsValid, Before;
    ByNameIsWeakOrder();
    SortSorts(records, ByName);
    SortPermutes(records, ByName);
    SortMembers(records, ByName);
    var sorted, keep := Sort(records, ByName), (r: Record) => IsValid(r, parses);
    kept := Kept(sorted, keep);
    KeptCounts(sorted, keep);
    KeptIs(sorted, keep, ByName);
    SplitLines(sorted, keep);
    hide Split, BlockOfLines, Sort;
    BlockSplits(Lines(sorted, keep), Texts(kept));
  }

  /** The controller's block: one line for every record with an address and a name, in the order given. */
  lemma ControllerLines(sorted: seq<Record>) returns (kept: seq<Record>)
    requires OneLiners(sorted)
    ensures forall r :: multiset(kept)[r] == if Trim(r.ip) != "" && Trim(r.name) != "" then multiset(sorted)[r] else 0
    ensures forall i, j :: 0 <= i < j < |kept| ==> Sorted(sorted, ByName) ==> !Before(kept[j].name, kept[i].name)
    ensures Split(ControllerBlock(sorted), '\n') == ["### EASY42_START"] + Texts(kept) + ["### EASY42_END", ""]
  {
    hide Before, Trim;
    kept := Kept(sorted, IsFull);
    KeptCounts(sorted, IsFull);
    if Sorted(sorted, ByName) {
      KeptIs(sorted, IsFull, ByName);
    }
    SplitLines(sorted, IsFull);
    hide Split, BlockOfLines;
    BlockSplits(Lines(sorted, IsFull), Texts(kept));
  }

  // ----- The hash of a block -----

  lemma {:induction false} NormPlain(s: string)
    requires '\r' !in s
    ensures Norm(s) == s
  {
    if s != "" {
      assert s[0] in s;
      NormPlain(s[1..]);
      assert s == [s[0]] + s[1..];
    }
  }

  /** The hash is that of the text without outer white space, whatever the line ends; blank text has none. */
  lemma HashIs(t: string, sha: string -> string)
    requires t != "" && '\r' !in t && !IsSpace(t[0]) && !IsSpace(t[|t| - 1])
    ensures HashBlock(t, sha) == sha(t) && HashBlock(t + "\n", sha) == sha(t) && HashBlock(t + "\r\n", sha) == sha(t)
    ensures HashBlock("", sha) == HashBlock("\n", sha) == ""
  {
    NormPlain(t);
    NormPlain(t + "\n");
    NormJoin(t, "\r\n");
    assert Norm("\r\n") == "\n" by { assert "\r\n"[2..] == ""; }
    assert Trim(t) == t;
    assert Trim(t + "\n") == t by {
      assert IsSpace('\n') && (t + "\n")[..|t|] == t && (t + "\n")[0] == t[0];
      assert TrimStart(t + "\n") == t + "\n";
      assert TrimEnd(t + "\n") == TrimEnd(t);
    }
    assert Norm("\n") == "\n" && Trim("\n") == "" by {
      NormPlain("\n");
      assert IsSpace('\n') && "\n"[1..] == "";
    }
    hide Trim, Norm;
  }
}
