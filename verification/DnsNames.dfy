/** Which records a network publishes, which ones a sync removes, and how names are normalized. */
module DnsNames {
  import opened Wrappers
  import opened Text
  import opened DnsSync

  // ----- Names -----

  predicate SpaceFree(s: string) {
    s == "" || (!IsSpace(s[0]) && !IsSpace(s[|s| - 1]))
  }

  lemma TrimOfSpaceFree(s: string)
    requires SpaceFree(s)
    ensures Trim(s) == s
  {
  }

  lemma {:induction false} TrimEndFree(s: string)
    ensures var t := TrimEnd(s); t == "" || !IsSpace(t[|t| - 1])
  {
    hide IsSpace;
    if s != "" && IsSpace(s[|s| - 1]) {
      TrimEndFree(s[..|s| - 1]);
    }
  }

  lemma TrimIsFree(s: string)
    ensures SpaceFree(Trim(s))
  {
    TrimStartShape(s);
    TrimEndTwice(TrimStart(s));
    TrimEndFree(TrimStart(s));
    hide IsSpace;
  }

  lemma LowerOfFree(s: string)
    requires SpaceFree(s)
    ensures SpaceFree(ToLower(s))
  {
    if s != "" {
      LowerSpace(s[0]);
      LowerSpace(s[|s| - 1]);
    }
  }

  lemma LowerSpace(c: char)
    ensures IsSpace(LowerChar(c)) <==> IsSpace(c)
  {
  }

  /** A node's name is in lower case and without outer white space; such a name is taken as it is. */
  lemma NodeNameIs(n: Node)
    ensures SpaceFree(NodeName(n)) && NoUpper(NodeName(n))
    ensures SpaceFree(n.name) && NoUpper(n.name) ==> NodeName(n) == n.name
  {
    TrimIsFree(n.name);
    LowerOfFree(Trim(n.name));
    NoUpperIsLower(n.name);
    if SpaceFree(n.name) {
      TrimOfSpaceFree(n.name);
    }
  }

  /** A domain name as the records use it. */
  predicate PlainDomain(d: string) {
    d != "" && NoUpper(d) && '/' !in d && ':' !in d && SpaceFree(d) && d[0] != '.' && d[|d| - 1] != '.'
  }

  lemma DiffersFrom(s: string, p: string, k: nat)
    requires k < |p| && k < |s| && s[k] != p[k]
    ensures !HasPrefix(s, p)
  {
    if |p| <= |s| {
      assert s[..|p|][k] != p[k];
    }
  }

  lemma NoScheme(d: string, tail: string)
    requires PlainDomain(d) && (tail == "" || tail[0] == '/')
    ensures !HasPrefix(d + tail, "http://") && !HasPrefix(d + tail, "https://")
  {
    var s := d + tail;
    if |s| > 5 {
      if |d| <= 4 {
        assert s[|d|] == '/';
        DiffersFrom(s, "http://", |d|);
        DiffersFrom(s, "https://", |d|);
      } else {
        assert d[4] in d && s[4] == d[4];
        DiffersFrom(s, "http://", 4);
        if |d| > 5 {
          assert d[5] in d && s[5] == d[5];
        } else {
          assert s[5] == tail[0];
        }
        DiffersFrom(s, "https://", 5);
      }
    }
  }

  lemma Schemes(d: string)
    requires !HasPrefix(d, "http://") && !HasPrefix(d, "https://")
    ensures TrimPrefix(TrimPrefix("http://" + d, "https://"), "http://") == d
    ensures TrimPrefix(TrimPrefix("https://" + d, "https://"), "http://") == d
    ensures TrimPrefix(TrimPrefix(d, "https://"), "http://") == d
  {
    DiffersFrom("http://" + d, "https://", 4);
    assert ("http://" + d)[7..] == d && ("https://" + d)[8..] == d;
  }

  lemma LowerPrefix(scheme: string, d: string)
    requires scheme == "" || scheme == "http://" || scheme == "https://"
    requires NoUpper(d)
    ensures ToLower(scheme + d) == scheme + d
  {
    NoUpperIsLower(scheme + d);
  }

  lemma SchemeIsCut(scheme: string, s: string)
    requires scheme == "" || scheme == "http://" || scheme == "https://"
    requires s != "" && NoUpper(s) && SpaceFree(s) && !HasPrefix(s, "http://") && !HasPrefix(s, "https://")
    ensures TrimPrefix(TrimPrefix(Trim(ToLower(scheme + s)), "https://"), "http://") == s
  {
    LowerPrefix(scheme, s);
    assert scheme != "" ==> scheme[0] == 'h' && !IsSpace('h');
    assert "" + s == s && (scheme + s)[|scheme + s| - 1] == s[|s| - 1];
    TrimOfSpaceFree(scheme + s);
    Schemes(s);
    hide Trim, TrimPrefix, ToLower, HasPrefix;
  }

  /** Scheme and path of an address are no part of the domain. */
  lemma NormalizeForms(scheme: string, d: string, path: string)
    requires scheme == "" || scheme == "http://" || scheme == "https://"
    requires PlainDomain(d) && NoUpper(path) && SpaceFree(path)
    ensures NormalizeDomain(scheme + d) == d && NormalizeDomain(scheme + (d + "/" + path)) == d
  {
    SplitOnceIsSplit(d, '/');
    SplitAtSlash(d, path);
    assert d + "" == d && d + ("/" + path) == d + "/" + path;
    assert ("/" + path)[|path|] == (if path == "" then '/' else path[|path| - 1]) && !IsSpace('/');
    assert NoUpper("/" + path) && SpaceFree("/" + path);
    hide PlainDomain, NoUpper, SpaceFree, IsSpace, NormalizeDomain, SplitOnce;
    OneForm(scheme, d, "");
    OneForm(scheme, d, "/" + path);
  }

  lemma OneForm(scheme: string, d: string, tail: string)
    requires scheme == "" || scheme == "http://" || scheme == "https://"
    requires PlainDomain(d) && NoUpper(tail) && (tail == "" || (tail[0] == '/' && SpaceFree(tail)))
    requires match SplitOnce(d + tail, '/') case Some((a, _)) => a == d case None => d + tail == d
    ensures NormalizeDomain(scheme + (d + tail)) == d
  {
    TrimDotsOf(d);
    NoScheme(d, tail);
    var s := d + tail;
    assert NoUpper(s) && SpaceFree(s) by {
      assert s[0] == d[0] && s[|s| - 1] == if tail == "" then d[|d| - 1] else tail[|tail| - 1];
    }
    hide IsSpace, Trim, TrimPrefix, HasPrefix, ToLower, TrimDots, SplitOnce, NoUpper;
    SchemeIsCut(scheme, s);
  }

  lemma TrimDotsOf(d: string)
    requires d != "" && d[0] != '.' && d[|d| - 1] != '.'
    ensures TrimDots(d) == d && TrimDots("." + d) == d && TrimDots(d + ".") == d
  {
    assert ("." + d)[1..] == d && (d + ".")[..|d|] == d;
  }

  /** An address is cut before its prefix length. */
  lemma CleanIPIs(ip: string, a: string, b: string)
    requires '/' !in a
    ensures Trim(ip) == a ==> CleanIP(ip) == a
    ensures Trim(ip) == a + "/" + b ==> CleanIP(ip) == Trim(a)
  {
    hide Trim;
    SplitOnceIsSplit(a, '/');
    SplitAtSlash(a, b);
    hide SplitOnce;
  }

  /** Records are found under their kind and name, whatever the case and the outer dots. */
  lemma KeyIs(r: Record, name: string)
    requires name != "" && name[0] != '.' && name[|name| - 1] != '.'
    requires r.name == name || r.name == "." + name || r.name == name + "."
    ensures KeyOf(r) == Key(ToUpper(r.kind), ToLower(name))
    ensures ToUpper("a") == ToUpper("A") == "A" && ToUpper("aaaa") == ToUpper("AAAA") == "AAAA"
    ensures ToUpper("cname") == ToUpper("CNAME") == "CNAME"
  {
    TrimDotsOf(name);
  }

  // ----- The records of the nodes -----

  /** The address of a family that a text names. */
  function AddressOf(text: string, v4: bool, addrs: Addresses): Option<IP> {
    var ip := CleanIP(text);
    if ip == "" then None
    else match addrs.parse(ip)
      case Some(p) => if p.v4 == v4 then Some(p) else None
      case None => None
  }

  /** The address a node publishes under a key: its IPv4 address under its name and the names below it, its
      IPv6 address under the same names, or only under its name with a 6. */
  function Publishes(n: Node, base: string, ownName: bool, addrs: Addresses, k: Key): Option<IP> {
    var name, domain := NodeName(n), NormalizeDomain(base);
    if name == "" || domain == "" then None
    else if k.kind == "A" && (k.name == name + "." + domain || k.name == "*." + name + "." + domain) then
      AddressOf(n.ip, true, addrs)
    else if k.kind == "AAAA" && ownName && k.name == name + "6." + domain then
      AddressOf(n.ip6, false, addrs)
    else if k.kind == "AAAA" && !ownName && (k.name == name + "." + domain || k.name == "*." + name + "." + domain) then
      AddressOf(n.ip6, false, addrs)
    else None
  }

  lemma PublishedIs(text: string, v4: bool, addrs: Addresses)
    ensures Published(text, v4, addrs) == match AddressOf(text, v4, addrs)
                                          case Some(p) => Some(addrs.show(p))
                                          case None => None
  {
  }

  ghost predicate IsRecordAt(k: Key, r: Record, p: IP, addrs: Addresses) {
    r == Record(k.kind, k.name, addrs.show(p), false)
  }

  /** A list of records holds one for the key exactly when there is an address to publish under it. */
  ghost predicate HoldFor(rs: seq<Record>, k: Key, p: Option<IP>, addrs: Addresses) {
    && (forall r :: r in rs && MapKey(r) == k ==> p.Some? && IsRecordAt(k, r, p.value, addrs))
    && (p.Some? ==> exists r :: r in rs && MapKey(r) == k)
  }

  lemma HoldJoined(a: seq<Record>, b: seq<Record>, k: Key, p: Option<IP>, q: Option<IP>, addrs: Addresses)
    requires HoldFor(a, k, p, addrs) && HoldFor(b, k, q, addrs) && (p.None? || q.None?)
    ensures HoldFor(a + b, k, if p.Some? then p else q, addrs)
  {
    hide MapKey, IsRecordAt;
    var rs := a + b;
    forall r | r in rs ensures r in a || r in b { }
    if p.Some? {
      var r :| r in a && MapKey(r) == k;
      assert r in rs;
    }
    if q.Some? {
      var r :| r in b && MapKey(r) == k;
      assert r in rs;
    }
  }

  lemma OneHolds(r: Record, kind: string, name: string, p: IP, addrs: Addresses, k: Key)
    requires r == Record(kind, name, addrs.show(p), false) && ToLower(name) == name
    ensures HoldFor([r], k, if k == Key(kind, name) then Some(p) else None, addrs)
  {
    hide ToLower;
    assert r in [r];
  }

  lemma NoneHold(k: Key, addrs: Addresses)
    ensures HoldFor([], k, None, addrs)
  {
  }

  lemma BothHold(kind: string, name: string, domain: string, p: IP, addrs: Addresses, k: Key)
    requires ToLower(name) == name && ToLower(domain) == domain
    ensures var plain, wild := name + "." + domain, "*." + name + "." + domain;
            HoldFor(Both(kind, name, domain, addrs.show(p)), k,
                    if k.kind == kind && (k.name == plain || k.name == wild) then Some(p) else None, addrs)
  {
    LowerTails(name, domain);
    var plain, wild := name + "." + domain, "*." + name + "." + domain;
    var r1, r2 := Record(kind, plain, addrs.show(p), false), Record(kind, wild, addrs.show(p), false);
    assert |plain| < |wild|;
    OneHolds(r1, kind, plain, p, addrs, k);
    OneHolds(r2, kind, wild, p, addrs, k);
    hide ToLower, HoldFor;
    HoldJoined([r1], [r2], k, if k == Key(kind, plain) then Some(p) else None,
               if k == Key(kind, wild) then Some(p) else None, addrs);
    assert [r1] + [r2] == [r1, r2];
  }

  lemma FamilyHolds(n: Node, name: string, domain: string, v4: bool, ownName: bool, addrs: Addresses, k: Key)
    requires ToLower(name) == name && ToLower(domain) == domain
    ensures var p := AddressOf(if v4 then n.ip else n.ip6, v4, addrs);
            var text := Published(if v4 then n.ip else n.ip6, v4, addrs);
            var rs := match text
                      case Some(a) =>
                        if v4 then Both("A", name, domain, a)
                        else if ownName then [Record("AAAA", name + "6." + domain, a, false)]
                        else Both("AAAA", name, domain, a)
                      case None => [];
            HoldFor(rs, k,
              if k.kind == (if v4 then "A" else "AAAA") &&
                 (if !v4 && ownName then k.name == name + "6." + domain
                  else k.name == name + "." + domain || k.name == "*." + name + "." + domain)
              then p else None, addrs)
  {
    PublishedIs(if v4 then n.ip else n.ip6, v4, addrs);
    var p := AddressOf(if v4 then n.ip else n.ip6, v4, addrs);
    hide AddressOf, Published, ToLower, HoldFor, Both;
    NoneHold(k, addrs);
    if p.Some? {
      if v4 {
        BothHold("A", name, domain, p.value, addrs, k);
      } else if ownName {
        LowerTails(name, domain);
        OneHolds(Record("AAAA", name + "6." + domain, addrs.show(p.value), false), "AAAA", name + "6." + domain, p.value,
                 addrs, k);
      } else {
        BothHold("AAAA", name, domain, p.value, addrs, k);
      }
    }
  }

  /** A node's records are, key by key, those for the addresses it publishes. */
  lemma RecordsOfNode(n: Node, base: string, ownName: bool, addrs: Addresses, k: Key)
    ensures HoldFor(ExpectedRecordsForNode(n, base, ownName, addrs), k, Publishes(n, base, ownName, addrs, k), addrs)
  {
    NormalizedDomain(base);
    NodeNameIs(n);
    NoUpperIsLower(NodeName(n));
    var name, domain := NodeName(n), NormalizeDomain(base);
    NoneHold(k, addrs);
    if name != "" && domain != "" {
      FamilyHolds(n, name, domain, true, ownName, addrs, k);
      FamilyHolds(n, name, domain, false, ownName, addrs, k);
      hide NodeName, NormalizeDomain, HoldFor, AddressOf, Published, ToLower, Both;
      var a, b := if k.kind == "A" then Publishes(n, base, ownName, addrs, k) else None,
                  if k.kind == "AAAA" then Publishes(n, base, ownName, addrs, k) else None;
      var first := match Published(n.ip, true, addrs) case Some(t) => Both("A", name, domain, t) case None => [];
      var second := match Published(n.ip6, false, addrs)
                    case Some(t) =>
                      if ownName then [Record("AAAA", name + "6." + domain, t, false)] else Both("AAAA", name, domain, t)
                    case None => [];
      HoldJoined(first, second, k, a, b, addrs);
    }
  }

  // ----- The expected records of a network -----

  /** What a table holds under a key: nothing, or the record for the address. */
  ghost predicate TableHolds(m: map<Key, Record>, k: Key, p: Option<IP>, addrs: Addresses) {
    (k in m <==> p.Some?) && (p.Some? ==> IsRecordAt(k, m[k], p.value, addrs))
  }

  lemma {:induction false} AddedHolds(m: map<Key, Record>, rs: seq<Record>, k: Key, p: Option<IP>, q: Option<IP>,
                                      addrs: Addresses)
    requires TableHolds(m, k, p, addrs) && HoldFor(rs, k, q, addrs)
    ensures TableHolds(AddExpected(m, rs), k, if q.Some? then q else p, addrs)
    decreases |rs|
  {
    hide MapKey, IsRecordAt;
    if rs != [] {
      var first, rest := rs[0], rs[1..];
      assert rs == [first] + rest && first in rs;
      var now := if MapKey(first) == k then q else p;
      if exists r :: r in rest && MapKey(r) == k {
        AddedHolds(m[MapKey(first) := first], rest, k, now, q, addrs);
      } else {
        AddedHolds(m[MapKey(first) := first], rest, k, now, None, addrs);
      }
    }
  }

  /** The address the last node with one publishes under the key. */
  function LastPublished(nodes: seq<Node>, base: string, ownName: bool, addrs: Addresses, k: Key): Option<IP> {
    if nodes == [] then None
    else
      var last := Publishes(nodes[|nodes| - 1], base, ownName, addrs, k);
      if last.Some? then last else LastPublished(nodes[..|nodes| - 1], base, ownName, addrs, k)
  }

  /** A network expects a record under a key exactly when some node publishes an address under it; it is a
      record for the address of the last such node, and not proxied. */
  lemma {:induction false} ExpectedIs(nodes: seq<Node>, base: string, ownName: bool, addrs: Addresses, k: Key)
    ensures TableHolds(Expected(nodes, base, ownName, addrs), k, LastPublished(nodes, base, ownName, addrs, k), addrs)
    ensures LastPublished(nodes, base, ownName, addrs, k).Some?
            <==> exists i :: 0 <= i < |nodes| && Publishes(nodes[i], base, ownName, addrs, k).Some?
  {
    hide IsRecordAt, Publishes, ExpectedRecordsForNode, NodeName;
    if nodes != [] {
      var earlier, n := nodes[..|nodes| - 1], nodes[|nodes| - 1];
      ExpectedIs(earlier, base, ownName, addrs, k);
      assert forall i :: 0 <= i < |earlier| ==> earlier[i] == nodes[i];
      UnnamedPublishNothing(n, base, ownName, addrs, k);
      RecordsOfNode(n, base, ownName, addrs, k);
      AddedHolds(Expected(earlier, base, ownName, addrs), ExpectedRecordsForNode(n, base, ownName, addrs), k,
                 LastPublished(earlier, base, ownName, addrs, k), Publishes(n, base, ownName, addrs, k), addrs);
    }
  }

  lemma UnnamedPublishNothing(n: Node, base: string, ownName: bool, addrs: Addresses, k: Key)
    ensures NodeName(n) == "" ==> Publishes(n, base, ownName, addrs, k) == None
  {
  }

  // ----- The records a sync removes -----

  /** Names that belong to a node: its own and those below it, or its own with a 6. */
  predicate BelongsTo(n: string, ownName: bool, kind: string, sub: string) {
    || (sub == n && !HasPrefix(n, "*.") && (kind == "A" || (kind == "AAAA" && !ownName)))
    || (sub == "*." + n && (kind == "A" || (kind == "AAAA" && !ownName)))
    || (sub == n + "6" && kind == "AAAA" && ownName && !HasPrefix(sub, "*."))
  }

  lemma StarPrefix(sub: string)
    ensures HasPrefix(sub, "*.") ==> sub == "*." + TrimPrefix(sub, "*.")
    ensures HasPrefix("*." + sub, "*.") && TrimPrefix("*." + sub, "*.") == sub
  {
  }

  lemma SixSuffix(sub: string)
    ensures HasSuffix(sub, "6") ==> sub == TrimSuffix(sub, "6") + "6"
    ensures HasSuffix(sub + "6", "6") && TrimSuffix(sub + "6", "6") == sub
  {
  }

  /** A name corresponds to a node when it belongs to one, except that a name with a 6 is first taken as a
      node's own name. */
  lemma CorrespondsIs(valid: set<string>, ownName: bool, kind: string, sub: string)
    ensures Corresponds(valid, ownName, kind, sub) <==>
            && (exists n :: n in valid && BelongsTo(n, ownName, kind, sub))
            && !(sub in valid && kind == "AAAA" && ownName)
  {
    StarPrefix(sub);
    SixSuffix(sub);
    forall n ensures HasPrefix("*." + n, "*.") && TrimPrefix("*." + n, "*.") == n { StarPrefix(n); }
    forall n ensures HasSuffix(n + "6", "6") && TrimSuffix(n + "6", "6") == n { SixSuffix(n); }
  }

  /** A forced sync removes exactly the addresses and aliases below the domain that correspond to no node. */
  lemma OrphanIs(valid: set<string>, base: string, ownName: bool, k: Key)
    ensures Removes(valid, base, ownName, true, k) <==>
            && (k.kind == "A" || k.kind == "AAAA" || k.kind == "CNAME")
            && exists sub: string :: sub != "" && k.name == sub + ("." + base) && !Corresponds(valid, ownName, k.kind, sub)
  {
    hide Corresponds;
    var tail := "." + base;
    if IsOrphan(valid, base, ownName, k) {
      var sub := TrimSuffix(k.name, tail);
      assert k.name == sub + tail;
    }
    forall sub: string | sub != "" && k.name == sub + tail
      ensures HasSuffix(k.name, tail) && TrimSuffix(k.name, tail) == sub && k.name != base
    {
      assert (sub + tail)[|sub|..] == tail && (sub + tail)[..|sub|] == sub;
      assert |k.name| > |base|;
    }
  }

  /** Any other sync removes exactly the IPv6 records of the nodes that the other naming would give them. */
  lemma StaleIs(valid: set<string>, base: string, ownName: bool, k: Key)
    ensures Removes(valid, base, ownName, false, k) <==>
            && k.kind == "AAAA"
            && exists n :: n in valid &&
                 (if ownName then k.name == n + "." + base || k.name == "*." + n + "." + base
                  else k.name == n + "6." + base)
  {
  }

  /** The nodes whose names count are those with one. */
  lemma ValidNamesAre(nodes: seq<Node>, name: string)
    ensures name in ValidNames(nodes) <==> name != "" && exists i :: 0 <= i < |nodes| && NodeName(nodes[i]) == name
  {
    hide NodeName;
    if i :| 0 <= i < |nodes| && NodeName(nodes[i]) == name {
      assert nodes[i] in nodes;
    }
  }
}
