/** What the reports of a configuration patch show, and when names, tags and addresses count as the same. */
module ConfigReports {
  import opened Wrappers
  import opened Text
  import opened ApplyConfig

  // ----- Reports -----

  /** The entry for a field: its values, or stars for both when it is a secret. */
  ghost predicate Tells(d: Diff, f: Field, prefix: string, before: Fields, after: Fields) {
    && d.prefix == prefix && d.field == f.name && !f.kind.Silent?
    && (f.kind.Shown? ==> d.oldValue == Get(before, f.name) && d.newValue == Get(after, f.name))
    && (f.kind.Masked? ==> d.oldValue == d.newValue == Plain("***"))
  }

  /** The field differs and its entry is in the report. */
  ghost predicate IsTold(report: seq<Diff>, f: Field, prefix: string, before: Fields, after: Fields) {
    Get(before, f.name) != Get(after, f.name) && exists d :: d in report && Tells(d, f, prefix, before, after)
  }

  /** The entry is for one of the fields, and that differs. */
  ghost predicate IsFrom(d: Diff, fields: seq<Field>, prefix: string, before: Fields, after: Fields) {
    exists f :: f in fields && Get(before, f.name) != Get(after, f.name) && Tells(d, f, prefix, before, after)
  }

  /** The report has an entry for exactly the fields that differ and are not silent. */
  lemma {:induction false} DifferencesTell(before: Fields, after: Fields, fields: seq<Field>, prefix: string)
    ensures forall d :: d in Differences(before, after, fields, prefix) ==> IsFrom(d, fields, prefix, before, after)
    ensures forall f :: f in fields && Get(before, f.name) != Get(after, f.name) && !f.kind.Silent? ==>
      IsTold(Differences(before, after, fields, prefix), f, prefix, before, after)
  {
    if fields != [] {
      var earlier, last := fields[..|fields| - 1], fields[|fields| - 1];
      DifferencesTell(before, after, earlier, prefix);
      assert fields == earlier + [last];
      var report := if Get(before, last.name) == Get(after, last.name) then []
                    else ReportOf(last, prefix, Get(before, last.name), Get(after, last.name));
      OneTold(before, after, last, prefix);
      var told := Differences(before, after, earlier, prefix);
      assert Differences(before, after, fields, prefix) == told + report;
      hide Get, ReportOf, Tells, Differences;
    }
  }

  lemma OneTold(before: Fields, after: Fields, f: Field, prefix: string)
    ensures var report := ReportOf(f, prefix, Get(before, f.name), Get(after, f.name));
            && (forall d :: d in report ==> Tells(d, f, prefix, before, after))
            && (!f.kind.Silent? ==> exists d :: d in report && Tells(d, f, prefix, before, after))
  {
    var report := ReportOf(f, prefix, Get(before, f.name), Get(after, f.name));
    hide Get;
    assert !f.kind.Silent? ==> |report| == 1 && report[0] in report && Tells(report[0], f, prefix, before, after);
  }

  /** A changed list is reported with its items before and after. */
  lemma ListsTell(name: string, before: seq<string>, after: seq<string>)
    ensures before == after ==> ListReport(name, before, after) == []
    ensures before != after ==>
      var r := ListReport(name, before, after);
      |r| == 1 && r[0].prefix == "" && r[0].field == name && r[0].oldValue == Items(before) && r[0].newValue == Items(after)
  {
  }

  /** The changes of a group of settings. */
  function GroupChanges(before: Settings, after: Settings, i: nat): seq<Diff>
    requires i < 4
  {
    Differences(before[i], after[i], SettingsFields()[i].1, "")
  }

  /** Settings are reported by group, under its name, and only groups with changes are. */
  lemma GroupsAre(before: Settings, after: Settings)
    ensures var names := ["network_settings", "database", "dns", "integrations"];
            forall r :: r in ChangedGroups(before, after, 4) <==>
              exists i: nat :: i < 4 && GroupChanges(before, after, i) != []
                            && r == Report([names[i]], false, GroupChanges(before, after, i))
  {
    var names := ["network_settings", "database", "dns", "integrations"];
    assert forall i :: 0 <= i < 4 ==> SettingsFields()[i].0 == names[i];
    hide SettingsFields;
    var n := 0;
    assert ChangedGroups(before, after, 0) == [];
    while n < 4
      invariant 0 <= n <= 4
      invariant forall r :: r in ChangedGroups(before, after, n) <==>
                  exists i: nat :: i < n && GroupChanges(before, after, i) != []
                                && r == Report([names[i]], false, GroupChanges(before, after, i))
    {
      n := n + 1;
      OneGroup(before, after, n, names[n - 1]);
    }
  }

  lemma OneGroup(before: Settings, after: Settings, n: nat, name: string)
    requires 0 < n <= 4 && SettingsFields()[n - 1].0 == name
    ensures forall r :: r in ChangedGroups(before, after, n) <==>
              r in ChangedGroups(before, after, n - 1)
              || (GroupChanges(before, after, n - 1) != [] && r == Report([name], false, GroupChanges(before, after, n - 1)))
  {
    hide SettingsFields, Differences;
  }

  // ----- Secrets -----

  const SECRETS := {"api_token", "prometheus_auth_token", "telegram_bot_token", "telegram_secret_token"}

  /** An entry that does not give a secret away. */
  predicate Discreet(d: Diff) {
    d.field != "psk" && (d.field in SECRETS ==> d.oldValue == d.newValue == Plain("***"))
  }

  predicate NamedDiscreetly(f: Field) {
    && (f.name == "psk" ==> f.kind == Silent)
    && (f.name in SECRETS ==> f.kind == Masked)
  }

  lemma ToldDiscreetly(d: Diff, f: Field, prefix: string, before: Fields, after: Fields)
    requires Tells(d, f, prefix, before, after) && NamedDiscreetly(f)
    ensures Discreet(d)
  {
    hide Get;
  }

  lemma DifferencesAreDiscreet(before: Fields, after: Fields, fields: seq<Field>, prefix: string)
    requires forall f :: f in fields ==> NamedDiscreetly(f)
    ensures forall d :: d in Differences(before, after, fields, prefix) ==> Discreet(d)
  {
    DifferencesTell(before, after, fields, prefix);
    hide Get, Differences, Tells, NamedDiscreetly, Discreet;
    forall d | d in Differences(before, after, fields, prefix) ensures Discreet(d) {
      assert IsFrom(d, fields, prefix, before, after);
      var f :| f in fields && Get(before, f.name) != Get(after, f.name) && Tells(d, f, prefix, before, after);
      ToldDiscreetly(d, f, prefix, before, after);
    }
  }

  lemma GroupFieldsDiscreet(i: nat)
    requires i < 4
    ensures forall f :: f in SettingsFields()[i].1 ==> NamedDiscreetly(f)
  {
  }

  /** No change of settings gives a secret away. */
  lemma {:induction false} SettingsAreDiscreet(before: Settings, after: Settings, n: nat)
    requires n <= 4
    ensures forall r, d :: r in ChangedGroups(before, after, n) && d in r.changes ==> Discreet(d)
  {
    hide SettingsFields, Differences, Discreet, NamedDiscreetly;
    if n > 0 {
      SettingsAreDiscreet(before, after, n - 1);
      GroupFieldsDiscreet(n - 1);
      DifferencesAreDiscreet(before[n - 1], after[n - 1], SettingsFields()[n - 1].1, "");
    }
  }

  lemma NodeFieldsDiscreet()
    ensures forall f :: f in NodeHead() ==> NamedDiscreetly(f)
    ensures forall f :: f in NodeMiddle() ==> NamedDiscreetly(f)
    ensures forall f :: f in NodeTail() ==> NamedDiscreetly(f)
  {
    NoneSecret(["host", "is_external", "caption", "description", "note", "ip", "ip6", "external_ip", "external_ip6",
                "interface", "asn", "entrypoints"]);
    NoneSecret(["table", "external_table", "internet_table", "metric"]);
    NoneSecret(["routes", "config_hooks", "wg_template", "bird_template", "nft_template", "x", "y", "mode",
                "enable_fa", "update_hosts", "custom_network_script", "route_reflector"]);
  }

  lemma NoneSecret(names: seq<string>)
    ensures (forall i :: 0 <= i < |names| ==> names[i] != "psk" && names[i] !in SECRETS) ==>
      forall f :: f in ShownFields(names) ==> NamedDiscreetly(f)
  {
  }

  lemma EndFieldsDiscreet()
    ensures forall f :: f in EndFields() ==> NamedDiscreetly(f)
  {
    NoneSecret(EndNames());
  }

  lemma LinkFieldsDiscreet()
    ensures forall f :: f in LinkHead() ==> NamedDiscreetly(f)
    ensures forall f :: f in LinkTail() ==> NamedDiscreetly(f)
  {
    NoneSecret(["type"]);
  }

  lemma ListIsDiscreet(name: string, before: seq<string>, after: seq<string>)
    requires name == "tags" || name == "static_routes"
    ensures forall d :: d in ListReport(name, before, after) ==> Discreet(d)
  {
  }

  /** No change of a node, and none of a link, gives a secret away; the pre-shared key is never reported. */
  lemma NodesAndLinksAreDiscreet(n: Node, m: Node, l: Link, k: Link)
    ensures forall d :: d in NodeChanges(n, m) ==> Discreet(d)
    ensures forall d :: d in LinkChanges(l, k) ==> Discreet(d)
  {
    NodeFieldsDiscreet();
    EndFieldsDiscreet();
    LinkFieldsDiscreet();
    hide NamedDiscreetly, NodeHead, NodeMiddle, NodeTail, EndFields, LinkHead, LinkTail, Differences, ListReport, Discreet;
    DifferencesAreDiscreet(n.fields, m.fields, NodeHead(), "");
    DifferencesAreDiscreet(n.fields, m.fields, NodeMiddle(), "");
    DifferencesAreDiscreet(n.fields, m.fields, NodeTail(), "");
    DifferencesAreDiscreet(l.fields, k.fields, LinkHead(), "");
    DifferencesAreDiscreet(l.fields, k.fields, LinkTail(), "");
    DifferencesAreDiscreet(l.from.fields, k.from.fields, EndFields(), "from.");
    DifferencesAreDiscreet(l.to.fields, k.to.fields, EndFields(), "to.");
    ListIsDiscreet("tags", n.tags, m.tags);
    ListIsDiscreet("static_routes", n.routes, m.routes);
    ListIsDiscreet("tags", l.tags, k.tags);
  }

  // ----- What counts as the same -----

  /** The same character, or the same ASCII letter in the other case. */
  predicate SameLetter(c: char, d: char) {
    || c == d
    || ('A' <= c <= 'Z' && d as int == c as int + 32)
    || ('a' <= c <= 'z' && d as int == c as int - 32)
  }

  predicate SameUpToCase(a: string, b: string) {
    |a| == |b| && forall i :: 0 <= i < |a| ==> SameLetter(a[i], b[i])
  }

  lemma LowerSame(a: string, b: string)
    ensures ToLower(a) == ToLower(b) <==> SameUpToCase(a, b)
  {
    if |a| == |b| {
      forall i | 0 <= i < |a| ensures LowerChar(a[i]) == LowerChar(b[i]) <==> SameLetter(a[i], b[i]) {
        LowerLetters(a[i], b[i]);
      }
      hide LowerChar, SameLetter;
      if ToLower(a) == ToLower(b) {
        forall i | 0 <= i < |a| ensures SameLetter(a[i], b[i]) {
          assert ToLower(a)[i] == ToLower(b)[i];
        }
      }
    }
  }

  lemma LowerLetters(c: char, d: char)
    ensures LowerChar(c) == LowerChar(d) <==> SameLetter(c, d)
  {
  }

  /** Node names are compared up to case, and tags also without outer white space. */
  lemma NamesAndTags(a: string, b: string)
    ensures SameName(a, b) <==> SameUpToCase(a, b)
    ensures TagEqual(a, b) <==> SameUpToCase(Trim(a), Trim(b))
  {
    LowerSame(a, b);
    LowerSame(Trim(a), Trim(b));
    hide Trim, ToLower, SameUpToCase;
  }

  /** IPv6 addresses are compared in lower case, without outer white space and prefix length. */
  lemma AddressIs(ip6: string, a: string, b: string)
    requires '/' !in a && (ToLower(Trim(ip6)) == a || ToLower(Trim(ip6)) == a + "/" + b)
    ensures CleanIp6(ip6) == a
  {
    SplitAtSlash(a, b);
    SplitOnceIsSplit(a, '/');
    hide Trim, ToLower, SplitOnce;
  }

  /** The address has to be unique among the nodes that have one and are not marked as external. */
  lemma HasAddressIs(n: Node)
    ensures HasIp6(n) <==>
            && "ip6" in n.fields && n.fields["ip6"].Plain? && n.fields["ip6"].text != ""
            && !("is_external" in n.fields && n.fields["is_external"] == Flag(true))
    ensures HasIp6(n) ==> Ip6Of(n) == n.fields["ip6"].text
  {
  }

  // ----- Nodes, links and the mesh -----

  /** The node is the first of its name. */
  predicate FirstNamed(nodes: seq<Node>, name: string, k: nat)
    requires k < |nodes|
  {
    SameUpToCase(nodes[k].name, name) && forall j :: 0 <= j < k ==> !SameUpToCase(nodes[j].name, name)
  }

  predicate HasNode(nodes: seq<Node>, name: string) {
    exists k :: 0 <= k < |nodes| && SameUpToCase(nodes[k].name, name)
  }

  /** The link joins the two nodes, in either direction. */
  predicate Joins(l: Link, a: string, b: string) {
    || (SameUpToCase(l.from.name, a) && SameUpToCase(l.to.name, b))
    || (SameUpToCase(l.from.name, b) && SameUpToCase(l.to.name, a))
  }

  lemma {:induction false} FirstNodeIs(nodes: seq<Node>, name: string)
    ensures var k := FirstNode(nodes, name);
            if k < 0 then !HasNode(nodes, name) else FirstNamed(nodes, name, k)
  {
    hide SameName, SameUpToCase;
    if nodes != [] {
      var n := |nodes| - 1;
      FirstNodeIs(nodes[..n], name);
      NamesAndTags(nodes[n].name, name);
      if FirstNode(nodes, name) < 0 {
        forall k | 0 <= k < |nodes| ensures !SameUpToCase(nodes[k].name, name) {
          assert k < n ==> nodes[..n][k] == nodes[k];
        }
      } else {
        assert forall j :: 0 <= j < n ==> nodes[..n][j] == nodes[j];
      }
    }
  }

  lemma {:induction false} FirstLinkIs(links: seq<Link>, p: LinkPatch)
    ensures var k := FirstLink(links, p);
            if k < 0 then forall j :: 0 <= j < |links| ==> !Joins(links[j], p.from.name, p.to.name)
            else Joins(links[k], p.from.name, p.to.name)
                 && forall j :: 0 <= j < k ==> !Joins(links[j], p.from.name, p.to.name)
  {
    hide SameName, SameUpToCase, Joins;
    if links != [] {
      var n := |links| - 1;
      FirstLinkIs(links[..n], p);
      JoinsMatches(links[n], p);
      assert forall j :: 0 <= j < n ==> links[..n][j] == links[j];
    }
  }

  lemma JoinsMatches(l: Link, p: LinkPatch)
    ensures Joins(l, p.from.name, p.to.name) <==> LinkMatches(l, p)
  {
    NamesAndTags(l.from.name, p.from.name);
    NamesAndTags(l.to.name, p.to.name);
    NamesAndTags(l.from.name, p.to.name);
    NamesAndTags(l.to.name, p.from.name);
    hide SameName, SameUpToCase;
  }

  /** A node patch is for the first node of its name, and for a new node at the end when there is none. */
  lemma NodePatchIsFor(nodes: seq<Node>, p: NodePatch, now: int, routeEqual: (string, string) -> bool)
    ensures var after := AfterNodePatch(nodes, p, now, routeEqual);
            && (!HasNode(nodes, p.name) ==> after == nodes + [CreatedNode(p, now, routeEqual)])
            && forall k :: 0 <= k < |nodes| && FirstNamed(nodes, p.name, k) ==>
                 after == nodes[k := MergedNode(nodes[k], p, now, routeEqual).0]
  {
    FirstNodeIs(nodes, p.name);
    hide SameUpToCase, FirstNode, MergedNode, CreatedNode;
  }

  /** A link patch is for the first link between its two nodes. Without one it makes a new link, and is refused
      exactly when one of the two nodes is unknown. */
  lemma LinkPatchIsFor(links: seq<Link>, nodes: seq<Node>, p: LinkPatch, now: int)
    ensures var after := AfterLinkPatch(links, nodes, p, now);
            if forall j :: 0 <= j < |links| ==> !Joins(links[j], p.from.name, p.to.name) then
              after == if HasNode(nodes, p.from.name) && HasNode(nodes, p.to.name) then Some(links + [CreatedLink(p, now)])
                       else None
            else exists k :: 0 <= k < |links| && Joins(links[k], p.from.name, p.to.name)
                   && (forall j :: 0 <= j < k ==> !Joins(links[j], p.from.name, p.to.name))
                   && after == Some(links[k := MergedLink(links[k], p, now).0])
  {
    FirstLinkIs(links, p);
    FirstNodeIs(nodes, p.from.name);
    FirstNodeIs(nodes, p.to.name);
    hide Joins, SameUpToCase, FirstLink, FirstNode, MergedLink, CreatedLink;
  }

  /** A mesh is sound exactly when no two nodes share a name up to case, no two that have to have an address of
      their own share it, and both ends of every link are nodes. */
  lemma MeshIs(nodes: seq<Node>, links: seq<Link>)
    ensures UniqueNames(nodes) <==>
            forall i, j :: 0 <= i < |nodes| && 0 <= j < |nodes| && SameUpToCase(nodes[i].name, nodes[j].name) ==> i == j
    ensures UniqueIp6(nodes) <==>
            forall i, j :: 0 <= i < |nodes| && 0 <= j < |nodes| && HasIp6(nodes[i]) && HasIp6(nodes[j]) ==>
              (CleanIp6(Ip6Of(nodes[i])) == CleanIp6(Ip6Of(nodes[j])) ==> i == j)
    ensures EndsExist(nodes, links) <==> forall l :: l in links ==> HasNode(nodes, l.from.name) && HasNode(nodes, l.to.name)
  {
    forall a, b ensures SameName(a, b) <==> SameUpToCase(a, b) {
      NamesAndTags(a, b);
    }
    SameIsSymmetric();
    forall name ensures IsNode(nodes, name) <==> HasNode(nodes, name) {
      hide SameName, SameUpToCase;
    }
    hide SameName, SameUpToCase, HasNode, IsNode, HasIp6, CleanIp6, Ip6Of;
  }

  lemma SameIsSymmetric()
    ensures forall a, b :: SameUpToCase(a, b) ==> SameUpToCase(b, a)
  {
  }
}
