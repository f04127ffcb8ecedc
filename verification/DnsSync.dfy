/** Reconciling the records of a DNS zone with the nodes of the network. */
module DnsSync {
  import opened Wrappers
  import opened Text

  // ----- Records and names -----

  datatype Record = Record(kind: string, name: string, content: string, proxied: bool)

  datatype Key = Key(kind: string, name: string)

  datatype Node = Node(name: string, ip: string, ip6: string)

  datatype Settings = Settings(baseDomain: string, ownName: bool)

  /** A parsed address; equal addresses are the same value. */
  datatype IP = IP(v4: bool, value: nat)

  /** Parsing and printing of addresses. */
  datatype Addresses = Addresses(parse: string -> Option<IP>, show: IP -> string)

  function UpperChar(c: char): char {
    if 'a' <= c <= 'z' then (c as int - 32) as char else c
  }

  function ToUpper(s: string): (r: string)
    ensures |r| == |s|
  {
    seq(|s|, i requires 0 <= i < |s| => UpperChar(s[i]))
  }

  function TrimDots(s: string): string
    decreases |s|
  {
    if s != "" && s[0] == '.' then TrimDots(s[1..])
    else if s != "" && s[|s| - 1] == '.' then TrimDots(s[..|s| - 1])
    else s
  }

  predicate HasPrefix(s: string, p: string) {
    |p| <= |s| && s[..|p|] == p
  }

  predicate HasSuffix(s: string, p: string) {
    |p| <= |s| && s[|s| - |p|..] == p
  }

  function TrimPrefix(s: string, p: string): string {
    if HasPrefix(s, p) then s[|p|..] else s
  }

  function TrimSuffix(s: string, p: string): string {
    if HasSuffix(s, p) then s[..|s| - |p|] else s
  }

  function NormalizeDomain(domain: string): string {
    var d := TrimPrefix(TrimPrefix(Trim(ToLower(domain)), "https://"), "http://");
    TrimDots(match SplitOnce(d, '/') { case Some((a, _)) => a case None => d })
  }

  function CleanIP(ip: string): string {
    match SplitOnce(Trim(ip), '/')
    case Some((a, _)) => Trim(a)
    case None => Trim(ip)
  }

  predicate IPMatches(a: string, b: string, addrs: Addresses) {
    var p, q := addrs.parse(CleanIP(a)), addrs.parse(CleanIP(b));
    if p.Some? && q.Some? then p == q else ToLower(Trim(a)) == ToLower(Trim(b))
  }

  function KeyOf(r: Record): Key {
    Key(ToUpper(r.kind), ToLower(TrimDots(r.name)))
  }

  predicate Matches(r: Record, expected: Record, addrs: Addresses) {
    IPMatches(r.content, expected.content, addrs) && r.proxied == expected.proxied
  }

  // ----- Expected records -----

  function NodeName(n: Node): string {
    ToLower(Trim(n.name))
  }

  function Both(kind: string, name: string, domain: string, content: string): seq<Record> {
    [Record(kind, name + "." + domain, content, false), Record(kind, "*." + name + "." + domain, content, false)]
  }

  /** The address of one family, as it is published. */
  function Published(text: string, v4: bool, addrs: Addresses): Option<string> {
    var ip := CleanIP(text);
    if ip == "" then None
    else match addrs.parse(ip)
      case None => None
      case Some(p) => if p.v4 == v4 then Some(addrs.show(p)) else None
  }

  function ExpectedRecordsForNode(n: Node, domain: string, ownName: bool, addrs: Addresses): seq<Record> {
    var name, base := NodeName(n), NormalizeDomain(domain);
    if name == "" || base == "" then []
    else
      (match Published(n.ip, true, addrs)
       case Some(a) => Both("A", name, base, a)
       case None => [])
      + match Published(n.ip6, false, addrs)
        case Some(a) => if ownName then [Record("AAAA", name + "6." + base, a, false)] else Both("AAAA", name, base, a)
        case None => []
  }

  function MapKey(r: Record): Key {
    Key(r.kind, ToLower(r.name))
  }

  function AddExpected(m: map<Key, Record>, rs: seq<Record>): map<Key, Record>
    decreases |rs|
  {
    if rs == [] then m else AddExpected(m[MapKey(rs[0]) := rs[0]], rs[1..])
  }

  /** The expected records of all nodes; a later record of the same key replaces an earlier one. */
  function Expected(nodes: seq<Node>, base: string, ownName: bool, addrs: Addresses): map<Key, Record> {
    if nodes == [] then map[]
    else
      var n := nodes[|nodes| - 1];
      var earlier := Expected(nodes[..|nodes| - 1], base, ownName, addrs);
      if NodeName(n) == "" then earlier
      else AddExpected(earlier, ExpectedRecordsForNode(n, base, ownName, addrs))
  }

  function ValidNames(nodes: seq<Node>): set<string> {
    set n | n in nodes && NodeName(n) != "" :: NodeName(n)
  }

  method BuildExpected(nodes: seq<Node>, base: string, ownName: bool, addrs: Addresses)
    returns (expected: map<Key, Record>, valid: set<string>)
    ensures expected == Expected(nodes, base, ownName, addrs) && valid == ValidNames(nodes)
  {
    hide NodeName, ExpectedRecordsForNode, MapKey;
    expected, valid := map[], {};
    var i := 0;
    while i < |nodes|
      invariant 0 <= i <= |nodes|
      invariant expected == Expected(nodes[..i], base, ownName, addrs) && valid == ValidNames(nodes[..i])
    {
      var node := nodes[i];
      assert nodes[..i + 1][..i] == nodes[..i] && nodes[..i + 1] == nodes[..i] + [node];
      i := i + 1;
      var cleanName := NodeName(node);
      if cleanName == "" {
        continue;
      }
      valid := valid + {cleanName};
      expected := PutExpected(expected, ExpectedRecordsForNode(node, base, ownName, addrs));
    }
    assert nodes[..i] == nodes;
  }

  method PutExpected(m: map<Key, Record>, rs: seq<Record>) returns (r: map<Key, Record>)
    ensures r == AddExpected(m, rs)
  {
    hide MapKey;
    r := m;
    var j := 0;
    while j < |rs|
      invariant 0 <= j <= |rs| && AddExpected(r, rs[j..]) == AddExpected(m, rs)
    {
      assert rs[j..][0] == rs[j] && rs[j..][1..] == rs[j + 1..];
      r := r[MapKey(rs[j]) := rs[j]];
      j := j + 1;
    }
  }

  // ----- Records to remove -----

  /** The IPv6 records of a node under the other setting. */
  function StaleKeys(name: string, base: string, ownName: bool): set<Key> {
    if ownName then {Key("AAAA", name + "." + base), Key("AAAA", "*." + name + "." + base)}
    else {Key("AAAA", name + "6." + base)}
  }

  predicate Corresponds(valid: set<string>, ownName: bool, kind: string, sub: string) {
    var wild := HasPrefix(sub, "*.");
    var name := TrimPrefix(sub, "*.");
    if name in valid then kind == "A" || (kind == "AAAA" && !ownName)
    else if !wild && ownName && HasSuffix(sub, "6") then TrimSuffix(sub, "6") in valid && kind == "AAAA"
    else false
  }

  predicate IsOrphan(valid: set<string>, base: string, ownName: bool, k: Key) {
    && HasSuffix(k.name, "." + base) && k.name != base
    && (k.kind == "A" || k.kind == "AAAA" || k.kind == "CNAME")
    && TrimSuffix(k.name, "." + base) != ""
    && !Corresponds(valid, ownName, k.kind, TrimSuffix(k.name, "." + base))
  }

  /** A sync removes the records it found under this key. */
  predicate Removes(valid: set<string>, base: string, ownName: bool, force: bool, k: Key) {
    if force then IsOrphan(valid, base, ownName, k) else exists n :: n in valid && k in StaleKeys(n, base, ownName)
  }

  /** No expected key is removed, and every expected record is found again under its key. */
  ghost predicate NoConflict(expected: map<Key, Record>, valid: set<string>, base: string, ownName: bool, force: bool) {
    forall k :: k in expected ==> KeyOf(expected[k]) == k && !Removes(valid, base, ownName, force, k)
  }

  // ----- One pass over the zone -----

  type Zone = map<nat, Record>

  /** The records of the list under a key, in the order of the list. */
  function Under(zone: Zone, ids: seq<nat>, k: Key): (r: seq<nat>)
    requires forall id :: id in ids ==> id in zone
    ensures forall id :: id in r <==> id in ids && KeyOf(zone[id]) == k
  {
    if ids == [] then []
    else
      assert ids == ids[..|ids| - 1] + [ids[|ids| - 1]];
      Under(zone, ids[..|ids| - 1], k) + if KeyOf(zone[ids[|ids| - 1]]) == k then [ids[|ids| - 1]] else []
  }

  predicate Distinct(ids: seq<nat>) {
    forall i, j :: 0 <= i < j < |ids| ==> ids[i] != ids[j]
  }

  lemma {:induction false} UnderDistinct(zone: Zone, ids: seq<nat>, k: Key)
    requires forall id :: id in ids ==> id in zone
    requires Distinct(ids)
    ensures Distinct(Under(zone, ids, k))
  {
    hide KeyOf;
    if ids != [] {
      var rest, last := ids[..|ids| - 1], ids[|ids| - 1];
      UnderDistinct(zone, rest, k);
      var u := Under(zone, rest, k);
      assert forall i :: 0 <= i < |u| ==> u[i] in u && u[i] in rest;
      assert last !in rest;
      assert Under(zone, ids, k) == u || Under(zone, ids, k) == u + [last];
    }
  }

  /** The list enumerates the zone. */
  ghost predicate Lists(zone: Zone, ids: seq<nat>) {
    (forall id :: id in ids <==> id in zone) && Distinct(ids)
  }

  /** The list holds the zone's records under the key. */
  ghost predicate IsUnder(zone: Zone, list: seq<nat>, k: Key) {
    (forall id :: id in list <==> id in zone && KeyOf(zone[id]) == k) && Distinct(list)
  }

  lemma UnderIs(zone: Zone, ids: seq<nat>, k: Key)
    requires Lists(zone, ids)
    ensures IsUnder(zone, Under(zone, ids, k), k)
  {
    UnderDistinct(zone, ids, k);
  }

  /** Exactly one record has the key, and it matches the expected one. */
  ghost predicate Settled(zone: Zone, k: Key, expected: Record, addrs: Addresses) {
    exists id :: id in zone && OnlyMatch(zone, k, expected, addrs, id)
  }

  ghost predicate OnlyMatch(zone: Zone, k: Key, expected: Record, addrs: Addresses, id: nat)
    requires id in zone
  {
    && KeyOf(zone[id]) == k && Matches(zone[id], expected, addrs)
    && forall other :: other in zone && KeyOf(zone[other]) == k ==> other == id
  }

  /** Two contents name the same address: as addresses when both are, otherwise up to case and outer space. */
  predicate SameAddress(a: string, b: string, addrs: Addresses) {
    match (addrs.parse(CleanIP(a)), addrs.parse(CleanIP(b)))
    case (Some(p), Some(q)) => p.v4 == q.v4 && p.value == q.value
    case _ => ToLower(Trim(a)) == ToLower(Trim(b))
  }

  lemma MatchesIs(r: Record, expected: Record, addrs: Addresses)
    ensures Matches(r, expected, addrs) <==>
            r.proxied == expected.proxied && SameAddress(r.content, expected.content, addrs)
  {
    hide CleanIP, Trim, ToLower;
  }

  /** The zone has exactly one record under the key, for the expected address and as visible as expected. */
  ghost predicate PointsTo(zone: Zone, k: Key, expected: Record, addrs: Addresses) {
    exists id :: id in zone && IsOnly(zone, k, id)
      && zone[id].proxied == expected.proxied && SameAddress(zone[id].content, expected.content, addrs)
  }

  ghost predicate IsOnly(zone: Zone, k: Key, id: nat)
    requires id in zone
  {
    KeyOf(zone[id]) == k && forall other :: other in zone && KeyOf(zone[other]) == k ==> other == id
  }

  lemma SettledPoints(zone: Zone, k: Key, expected: Record, addrs: Addresses)
    ensures Settled(zone, k, expected, addrs) <==> PointsTo(zone, k, expected, addrs)
  {
    hide KeyOf, Matches, SameAddress;
    if id :| id in zone && OnlyMatch(zone, k, expected, addrs, id) {
      MatchesIs(zone[id], expected, addrs);
      assert IsOnly(zone, k, id);
    }
    if id :| id in zone && IsOnly(zone, k, id) && zone[id].proxied == expected.proxied
             && SameAddress(zone[id].content, expected.content, addrs) {
      MatchesIs(zone[id], expected, addrs);
      assert OnlyMatch(zone, k, expected, addrs, id);
    }
  }

  /** The zone has records under the key, but none for the expected address and as visible as expected. */
  ghost predicate PointsElsewhere(zone: Zone, k: Key, expected: Record, addrs: Addresses) {
    HasKey(zone, k) && forall id :: id in zone && KeyOf(zone[id]) == k ==>
      zone[id].proxied != expected.proxied || !SameAddress(zone[id].content, expected.content, addrs)
  }

  ghost predicate AllPoint(zone: Zone, expected: map<Key, Record>, addrs: Addresses) {
    forall k :: k in expected ==> PointsTo(zone, k, expected[k], addrs)
  }

  lemma AllSettledPoint(zone: Zone, expected: map<Key, Record>, addrs: Addresses)
    ensures AllSettled(zone, expected, addrs) <==> AllPoint(zone, expected, addrs)
  {
    hide Settled, PointsTo;
    forall k | k in expected
      ensures Settled(zone, k, expected[k], addrs) <==> PointsTo(zone, k, expected[k], addrs)
    {
      SettledPoints(zone, k, expected[k], addrs);
    }
  }

  ghost predicate HasKey(zone: Zone, k: Key) {
    exists id :: id in zone && KeyOf(zone[id]) == k
  }

  datatype Counts = Counts(created: nat, updated: nat, deleted: nat, ignored: nat) {
    predicate Idle() {
      created == 0 && updated == 0 && deleted == 0
    }
  }

  /** The record that stands for key k after it was synced: one of the start with that key, or a
      new one when there was none. */
  ghost predicate Keeps(start: Zone, zone: Zone, k: Key, expected: Record, addrs: Addresses, id: nat) {
    && id in zone && Matches(zone[id], expected, addrs)
    && if HasKey(start, k)
       then id in start && KeyOf(start[id]) == k && (zone[id] == start[id] || zone[id] == expected)
       else id !in start && zone[id] == expected
  }

  ghost predicate KeepersKeep(start: Zone, zone: Zone, expected: map<Key, Record>, keeper: map<Key, nat>,
                              addrs: Addresses)
  {
    forall k :: k in keeper ==> k in expected && Keeps(start, zone, k, expected[k], addrs, keeper[k])
  }

  /** Records under other keys are as they were. */
  ghost predicate OthersStay(start: Zone, zone: Zone, keeper: map<Key, nat>) {
    forall id :: id in start && KeyOf(start[id]) !in keeper ==> id in zone && zone[id] == start[id]
  }

  predicate IsKeeper(keeper: map<Key, nat>, id: nat) {
    exists k :: k in keeper && keeper[k] == id
  }

  /** Every record is a kept one or one under another key. */
  ghost predicate NothingElse(start: Zone, zone: Zone, keeper: map<Key, nat>) {
    forall id :: id in zone ==> IsKeeper(keeper, id) || (id in start && KeyOf(start[id]) !in keeper)
  }

  /** What syncing the keys of `keeper` made of the zone found at the start. */
  ghost predicate Synced(start: Zone, zone: Zone, expected: map<Key, Record>, keeper: map<Key, nat>, addrs: Addresses) {
    KeepersKeep(start, zone, expected, keeper, addrs) && OthersStay(start, zone, keeper)
    && NothingElse(start, zone, keeper)
  }

  /** What the counters say about the keys synced so far. */
  ghost predicate Counted(start: Zone, zone: Zone, expected: map<Key, Record>, done: set<Key>, addrs: Addresses,
                          c: Counts)
  {
    && (c.Idle() ==> zone == start)
    && (forall k :: k in done && !HasKey(start, k) ==> c.created > 0)
    && (forall k :: k in done && k in expected && PointsElsewhere(start, k, expected[k], addrs) ==> c.updated > 0)
    && ((forall k :: k in done ==> k in expected && Settled(start, k, expected[k], addrs)) ==> c.Idle())
  }

  /** The zone after one expected key was synced. */
  ghost function AfterKey(zone: Zone, next: nat, expected: Record, list: seq<nat>, addrs: Addresses): Zone
    requires forall id :: id in list ==> id in zone
  {
    if list == [] then zone[next := expected]
    else
      var primary := list[0];
      (if Matches(zone[primary], expected, addrs) then zone else zone[primary := expected])
      - (set id | id in list[1..])
  }

  lemma MatchesItself(r: Record, addrs: Addresses)
    ensures Matches(r, r, addrs)
  {
  }

  lemma AfterKeyShape(zone: Zone, next: nat, expected: Record, list: seq<nat>, addrs: Addresses) returns (id: nat)
    requires Distinct(list) && next !in zone
    requires forall i :: i in list ==> i in zone
    ensures id == if list == [] then next else list[0]
    ensures var after := AfterKey(zone, next, expected, list, addrs);
            && id in after && Matches(after[id], expected, addrs)
            && (after[id] == expected || (list != [] && after[id] == zone[id]))
            && (forall i :: i in after && i != id ==> i in zone && i !in list && after[i] == zone[i])
            && (forall i :: i in zone && i !in list ==> i in after)
  {
    MatchesItself(expected, addrs);
    hide Matches;
    if list == [] {
      id := next;
    } else {
      id := list[0];
      assert list == [id] + list[1..] && id !in list[1..];
    }
  }

  lemma KeepersAreNotListed(start: Zone, zone: Zone, expected: map<Key, Record>, keeper: map<Key, nat>,
                            addrs: Addresses, k: Key, list: seq<nat>, q: Key)
    requires KeepersKeep(start, zone, expected, keeper, addrs) && IsUnder(start, list, k) && q in keeper && q != k
    ensures keeper[q] !in list && keeper[q] in zone
  {
    hide KeyOf, Matches;
    assert Keeps(start, zone, q, expected[q], addrs, keeper[q]);
  }

  lemma KeysStillKept(start: Zone, zone: Zone, after: Zone, expected: map<Key, Record>, keeper: map<Key, nat>,
                      addrs: Addresses, q: Key)
    requires KeepersKeep(start, zone, expected, keeper, addrs) && q in keeper
    requires keeper[q] in after && keeper[q] in zone && after[keeper[q]] == zone[keeper[q]]
    ensures q in expected && Keeps(start, after, q, expected[q], addrs, keeper[q])
  {
    hide KeyOf, Matches;
    assert Keeps(start, zone, q, expected[q], addrs, keeper[q]);
  }

  lemma NewKeyIsKept(start: Zone, after: Zone, expected: Record, list: seq<nat>, addrs: Addresses, k: Key, id: nat)
    requires IsUnder(start, list, k) && id in after && Matches(after[id], expected, addrs)
    requires if list == [] then id !in start && after[id] == expected
             else id == list[0] && (after[id] == start[id] || after[id] == expected)
    ensures Keeps(start, after, k, expected, addrs, id)
  {
    hide KeyOf, Matches;
    if list != [] {
      assert id in list;
    }
  }

  lemma AfterKeySyncs(start: Zone, zone: Zone, next: nat, expected: map<Key, Record>, keeper: map<Key, nat>,
                      k: Key, list: seq<nat>, addrs: Addresses)
    returns (id: nat)
    requires IsUnder(start, list, k) && Synced(start, zone, expected, keeper, addrs) && k in expected && k !in keeper
    requires next !in start && next !in zone
    ensures forall i :: i in list ==> i in zone
    ensures Synced(start, AfterKey(zone, next, expected[k], list, addrs), expected, keeper[k := id], addrs)
  {
    hide KeyOf, Matches, AfterKey, Keeps;
    assert forall i :: i in list ==> i in zone && zone[i] == start[i];
    id := AfterKeyShape(zone, next, expected[k], list, addrs);
    var after := AfterKey(zone, next, expected[k], list, addrs);
    var more := keeper[k := id];
    assert list != [] ==> list[0] in list;
    NewKeyIsKept(start, after, expected[k], list, addrs, k, id);
    forall q | q in keeper ensures Keeps(start, after, q, expected[q], addrs, keeper[q]) {
      KeepersAreNotListed(start, zone, expected, keeper, addrs, k, list, q);
      KeysStillKept(start, zone, after, expected, keeper, addrs, q);
    }
    assert OthersStay(start, after, more) by {
      hide Distinct, KeepersKeep;
    }
    forall i | i in after ensures IsKeeper(more, i) || (i in start && KeyOf(start[i]) !in more) {
      if i == id {
        assert more[k] == i;
      } else if IsKeeper(keeper, i) {
        var q :| q in keeper && keeper[q] == i;
        assert more[q] == i;
      }
    }
  }

  // ----- The zone after a sync -----

  /** The records found at the start under removed keys. */
  function RemovedIds(start: Zone, valid: set<string>, base: string, ownName: bool, force: bool): set<nat> {
    set id | id in start && Removes(valid, base, ownName, force, KeyOf(start[id]))
  }

  ghost predicate AllSettled(zone: Zone, expected: map<Key, Record>, addrs: Addresses) {
    forall k :: k in expected ==> Settled(zone, k, expected[k], addrs)
  }

  ghost predicate NoneToRemove(zone: Zone, valid: set<string>, base: string, ownName: bool, force: bool) {
    forall id :: id in zone ==> !Removes(valid, base, ownName, force, KeyOf(zone[id]))
  }

  /** Records under other keys stay, and every other record is an expected one. */
  ghost predicate OnlyExpectedChange(start: Zone, zone: Zone, expected: map<Key, Record>, removed: set<nat>) {
    && (forall id :: id in start && KeyOf(start[id]) !in expected && id !in removed ==>
          id in zone && zone[id] == start[id])
    && (forall id :: id in zone ==>
          (id in start && zone[id] == start[id]) || exists k :: k in expected && zone[id] == expected[k])
  }

  lemma KeeperKey(start: Zone, mid: Zone, expected: map<Key, Record>, keeper: map<Key, nat>, addrs: Addresses, k: Key)
    requires KeepersKeep(start, mid, expected, keeper, addrs) && k in keeper && KeyOf(expected[k]) == k
    ensures keeper[k] in mid && KeyOf(mid[keeper[k]]) == k && Matches(mid[keeper[k]], expected[k], addrs)
    ensures keeper[k] in start ==> KeyOf(start[keeper[k]]) == k
  {
    hide KeyOf, Matches;
    assert Keeps(start, mid, k, expected[k], addrs, keeper[k]);
  }

  /** In the synced zone, a record's key is that of the record found at the start, if any. */
  lemma KeysOfRecords(start: Zone, mid: Zone, expected: map<Key, Record>, keeper: map<Key, nat>, addrs: Addresses,
                      id: nat)
    requires Synced(start, mid, expected, keeper, addrs) && id in mid
    requires forall k :: k in expected ==> KeyOf(expected[k]) == k
    ensures id in start ==> KeyOf(mid[id]) == KeyOf(start[id])
    ensures id !in start ==> KeyOf(mid[id]) in expected
    ensures forall k :: k in keeper && KeyOf(mid[id]) == k ==> keeper[k] == id
  {
    hide KeyOf, Matches, Keeps;
    if IsKeeper(keeper, id) {
      var q :| q in keeper && keeper[q] == id;
      KeeperKey(start, mid, expected, keeper, addrs, q);
    }
  }

  lemma FinalSettles(start: Zone, mid: Zone, expected: map<Key, Record>, keeper: map<Key, nat>, addrs: Addresses,
                     valid: set<string>, base: string, ownName: bool, force: bool)
    requires Synced(start, mid, expected, keeper, addrs) && keeper.Keys == expected.Keys
    requires NoConflict(expected, valid, base, ownName, force)
    ensures var final := mid - RemovedIds(start, valid, base, ownName, force);
            AllSettled(final, expected, addrs) && NoneToRemove(final, valid, base, ownName, force)
  {
    hide KeyOf, Matches, Removes, Synced;
    var final := mid - RemovedIds(start, valid, base, ownName, force);
    forall k | k in expected ensures Settled(final, k, expected[k], addrs) {
      assert KeyOf(expected[k]) == k;
      assert KeepersKeep(start, mid, expected, keeper, addrs) by { SyncedParts(start, mid, expected, keeper, addrs); }
      KeeperKey(start, mid, expected, keeper, addrs, k);
      var id := keeper[k];
      forall other | other in final && KeyOf(final[other]) == k ensures other == id {
        KeysOfRecords(start, mid, expected, keeper, addrs, other);
      }
      assert id in final && OnlyMatch(final, k, expected[k], addrs, id);
    }
    forall id | id in final ensures !Removes(valid, base, ownName, force, KeyOf(final[id])) {
      KeysOfRecords(start, mid, expected, keeper, addrs, id);
    }
  }

  lemma SyncedParts(start: Zone, mid: Zone, expected: map<Key, Record>, keeper: map<Key, nat>, addrs: Addresses)
    requires Synced(start, mid, expected, keeper, addrs)
    ensures KeepersKeep(start, mid, expected, keeper, addrs) && OthersStay(start, mid, keeper)
    ensures NothingElse(start, mid, keeper)
  {
  }

  lemma FinalFrame(start: Zone, mid: Zone, expected: map<Key, Record>, keeper: map<Key, nat>, addrs: Addresses,
                   removed: set<nat>)
    requires Synced(start, mid, expected, keeper, addrs) && keeper.Keys == expected.Keys
    ensures OnlyExpectedChange(start, mid - removed, expected, removed)
  {
    hide KeyOf, Matches;
    forall id | id in mid
      ensures (id in start && mid[id] == start[id]) || exists k :: k in expected && mid[id] == expected[k]
    {
      if IsKeeper(keeper, id) {
        var q :| q in keeper && keeper[q] == id;
        assert Keeps(start, mid, q, expected[q], addrs, id);
      }
    }
  }

  // ----- When a sync can never rest -----

  lemma {:induction false} TrimDotsClean(s: string)
    ensures var t := TrimDots(s); TrimDots(t) == t && |t| <= |s|
    decreases |s|
  {
    if s != "" && s[0] == '.' {
      TrimDotsClean(s[1..]);
    } else if s != "" && s[|s| - 1] == '.' {
      TrimDotsClean(s[..|s| - 1]);
    }
  }

  lemma LowerClean(s: string)
    requires TrimDots(s) == s
    ensures ToLower(ToLower(s)) == ToLower(s) && TrimDots(ToLower(s)) == ToLower(s)
  {
    var t := ToLower(s);
    assert ToLower(t) == t;
    if s != "" {
      assert s[0] != '.' by { if s[0] == '.' { TrimDotsClean(s[1..]); } }
      assert t[0] != '.' && (t[|t| - 1] == '.' <==> s[|s| - 1] == '.');
      assert s[|s| - 1] != '.' by { if s[|s| - 1] == '.' { TrimDotsClean(s[..|s| - 1]); } }
    }
  }

  /** Only an expected record that is found again under its key can already be in the zone. */
  lemma OddKeyIsNew(zone: Zone, k: Key, expected: Record)
    requires MapKey(expected) == k && KeyOf(expected) != k && ToUpper(expected.kind) == expected.kind
    ensures !HasKey(zone, k)
  {
    if HasKey(zone, k) {
      var id :| id in zone && KeyOf(zone[id]) == k;
      var name := TrimDots(zone[id].name);
      TrimDotsClean(zone[id].name);
      LowerClean(name);
      assert k.name == ToLower(name);
      LowerOfTrimmed(expected.name);
    }
  }

  /** Trimming dots and lowering commute. */
  lemma {:induction false} LowerOfTrimmed(s: string)
    ensures ToLower(TrimDots(s)) == TrimDots(ToLower(s))
    decreases |s|
  {
    var t := ToLower(s);
    if s != "" && s[0] == '.' {
      LowerOfTrimmed(s[1..]);
      assert t[0] == '.' && t[1..] == ToLower(s[1..]);
    } else if s != "" && s[|s| - 1] == '.' {
      LowerOfTrimmed(s[..|s| - 1]);
      assert t[0] != '.' && t[|t| - 1] == '.' && t[..|t| - 1] == ToLower(s[..|s| - 1]);
    } else if s != "" {
      assert t[0] != '.' && t[|t| - 1] != '.';
    }
  }

  /** With a conflict, a record is created, or one that was just synced is removed. */
  lemma ConflictStirs(start: Zone, mid: Zone, expected: map<Key, Record>, keeper: map<Key, nat>, addrs: Addresses,
                      valid: set<string>, base: string, ownName: bool, force: bool, c: Counts)
    requires Synced(start, mid, expected, keeper, addrs) && keeper.Keys == expected.Keys
    requires Counted(start, mid, expected, keeper.Keys, addrs, c)
    requires AllFiled(expected)
    requires !NoConflict(expected, valid, base, ownName, force)
    ensures c.created > 0 || mid - RemovedIds(start, valid, base, ownName, force) != mid
  {
    hide KeyOf, Matches, Removes, MapKey;
    var k :| k in expected && (KeyOf(expected[k]) != k || Removes(valid, base, ownName, force, k));
    if KeyOf(expected[k]) != k {
      OddKeyIsNew(start, k, expected[k]);
    } else if HasKey(start, k) {
      KeeperKey(start, mid, expected, keeper, addrs, k);
      assert Keeps(start, mid, k, expected[k], addrs, keeper[k]);
      assert keeper[k] in RemovedIds(start, valid, base, ownName, force) && keeper[k] in mid;
    }
  }

  // ----- Syncing through the API -----

  /** The zone behind the API. */
  class Api {
    var zone: Zone
    var next: nat

    ghost predicate Valid()
      reads this
    {
      forall id :: id in zone ==> id < next
    }

    /** A new record gets an identifier that was never used. */
    method CreateRecord(r: Record)
      requires Valid()
      modifies this
      ensures Valid() && zone == old(zone)[old(next) := r] && next == old(next) + 1
    {
      zone := zone[next := r];
      next := next + 1;
    }

    method UpdateRecord(id: nat, r: Record)
      requires Valid() && id in zone
      modifies this`zone
      ensures Valid() && zone == old(zone)[id := r]
    {
      zone := zone[id := r];
    }

    method DeleteRecord(id: nat) returns (ok: bool)
      requires Valid()
      modifies this`zone
      ensures Valid() && ok == (id in old(zone)) && zone == old(zone) - {id}
    {
      ok := id in zone;
      zone := zone - {id};
    }

    /** All records, in any order. */
    method ListRecords() returns (ids: seq<nat>)
      ensures Lists(zone, ids)
    {
      ids := [];
      var rest := zone.Keys;
      while rest != {}
        invariant rest <= zone.Keys && Distinct(ids)
        invariant forall id :: id in ids <==> id in zone && id !in rest
        decreases |rest|
      {
        var id :| id in rest;
        rest := rest - {id};
        ids := ids + [id];
      }
    }

    /** Delete the listed records that still exist. */
    method DeleteAll(list: seq<nat>, before: nat) returns (deleted: nat)
      requires Valid()
      modifies this`zone
      ensures Valid() && zone == old(zone) - (set id | id in list)
      ensures deleted >= before && (deleted == before <==> zone == old(zone))
    {
      deleted := before;
      var i := 0;
      while i < |list|
        invariant 0 <= i <= |list| && Valid()
        invariant zone == old(zone) - (set id | id in list[..i])
        invariant deleted >= before
        invariant deleted == before <==> zone == old(zone)
      {
        assert list[..i + 1] == list[..i] + [list[i]];
        var ok := DeleteRecord(list[i]);
        if ok {
          deleted := deleted + 1;
        }
        i := i + 1;
      }
      assert list[..i] == list;
    }

    /** Create or update one expected record; delete its duplicates. */
    method SyncKey(expected: Record, list: seq<nat>, found: Zone, addrs: Addresses, c: Counts) returns (r: Counts)
      requires Valid() && Distinct(list)
      requires forall id :: id in list ==> id in zone && id in found && zone[id] == found[id]
      modifies this
      ensures Valid() && next >= old(next)
      ensures forall id :: id in list ==> id in old(zone)
      ensures zone == AfterKey(old(zone), old(next), expected, list, addrs)
      ensures r.created == c.created + (if list == [] then 1 else 0)
      ensures r.updated == c.updated + (if list != [] && !Matches(found[list[0]], expected, addrs) then 1 else 0)
      ensures r.ignored == c.ignored + (if list != [] && Matches(found[list[0]], expected, addrs) then 1 else 0)
      ensures r.deleted >= c.deleted
      ensures r.Idle() <==> c.Idle() && |list| == 1 && Matches(found[list[0]], expected, addrs)
    {
      hide Matches;
      r := c;
      if |list| == 0 {
        CreateRecord(expected);
        r := r.(created := r.created + 1);
      } else {
        var primary := list[0];
        if Matches(found[primary], expected, addrs) {
          r := r.(ignored := r.ignored + 1);
        } else {
          UpdateRecord(primary, expected);
          r := r.(updated := r.updated + 1);
        }
        assert |list| > 1 ==> list[1] in list[1..] && list[1] in zone;
        var deleted := DeleteAll(list[1..], r.deleted);
        r := r.(deleted := deleted);
      }
    }
  }

  lemma CountedStep(start: Zone, zone: Zone, after: Zone, expected: map<Key, Record>, keeper: map<Key, nat>, k: Key,
                    list: seq<nat>, addrs: Addresses, next: nat, c: Counts, r: Counts)
    requires Counted(start, zone, expected, keeper.Keys, addrs, c) && IsUnder(start, list, k) && k in expected
    requires forall id :: id in list ==> id in zone && zone[id] == start[id]
    requires after == AfterKey(zone, next, expected[k], list, addrs)
    requires r.created == c.created + (if list == [] then 1 else 0)
    requires r.updated >= c.updated
    requires list != [] && list[0] in start && !Matches(start[list[0]], expected[k], addrs) ==> r.updated > 0
    requires list != [] ==> list[0] in start
    requires r.Idle() <==> c.Idle() && |list| == 1 && Matches(start[list[0]], expected[k], addrs)
    ensures Counted(start, after, expected, keeper.Keys + {k}, addrs, r)
  {
    if PointsElsewhere(start, k, expected[k], addrs) {
      FirstListed(start, k, expected[k], list, addrs);
    }
    hide KeyOf, Matches, PointsElsewhere;
    var done := keeper.Keys + {k};
    if r.Idle() {
      assert list[1..] == [] && after == zone;
    }
    if HasKey(start, k) {
      var id :| id in start && KeyOf(start[id]) == k;
      assert id in list;
    }
    if forall q :: q in done ==> q in expected && Settled(start, q, expected[q], addrs) {
      assert Settled(start, k, expected[k], addrs);
      OneListed(start, k, expected[k], list, addrs);
    }
  }

  lemma FirstListed(start: Zone, k: Key, expected: Record, list: seq<nat>, addrs: Addresses)
    requires IsUnder(start, list, k) && PointsElsewhere(start, k, expected, addrs)
    ensures list != [] && list[0] in start && !Matches(start[list[0]], expected, addrs)
  {
    hide KeyOf, Matches, SameAddress;
    var id :| id in start && KeyOf(start[id]) == k;
    assert id in list && list[0] in list;
    MatchesIs(start[list[0]], expected, addrs);
  }

  lemma OneListed(start: Zone, k: Key, expected: Record, list: seq<nat>, addrs: Addresses)
    requires Settled(start, k, expected, addrs) && IsUnder(start, list, k)
    ensures |list| == 1 && list[0] in start && Matches(start[list[0]], expected, addrs)
  {
    hide KeyOf, Matches;
    var id :| id in start && OnlyMatch(start, k, expected, addrs, id);
    assert id in list;
    forall i | 0 <= i < |list| ensures list[i] == id {
      assert list[i] in list;
    }
    NoRepeats(list, id);
  }

  lemma NoRepeats(list: seq<nat>, id: nat)
    requires Distinct(list) && id in list && forall i :: 0 <= i < |list| ==> list[i] == id
    ensures |list| == 1
  {
    FirstTwoDiffer(list);
  }

  lemma FirstTwoDiffer(list: seq<nat>)
    requires Distinct(list)
    ensures |list| >= 2 ==> list[0] != list[1]
  {
  }

  function Lookup(existing: map<Key, seq<nat>>, k: Key): seq<nat> {
    if k in existing then existing[k] else []
  }

  ghost predicate IndexedBy(existing: map<Key, seq<nat>>, zone: Zone, ids: seq<nat>)
    requires forall id :: id in ids ==> id in zone
  {
    forall k :: Lookup(existing, k) == Under(zone, ids, k)
  }

  lemma NothingIndexed(zone: Zone, ids: seq<nat>)
    requires ids == []
    ensures IndexedBy(map[], zone, ids)
  {
  }

  lemma IndexStep(existing: map<Key, seq<nat>>, zone: Zone, ids: seq<nat>, i: nat)
    requires (forall id :: id in ids ==> id in zone) && i < |ids| && IndexedBy(existing, zone, ids[..i])
    ensures var key := KeyOf(zone[ids[i]]);
            IndexedBy(existing[key := Lookup(existing, key) + [ids[i]]], zone, ids[..i + 1])
  {
    hide KeyOf;
    assert ids[..i + 1][..i] == ids[..i];
    var key := KeyOf(zone[ids[i]]);
    var more := existing[key := Lookup(existing, key) + [ids[i]]];
    forall k ensures Lookup(more, k) == Under(zone, ids[..i + 1], k) {
      assert Lookup(existing, k) == Under(zone, ids[..i], k);
    }
  }

  /** The records by key, in the order of the list. */
  method IndexByKey(zone: Zone, ids: seq<nat>) returns (existing: map<Key, seq<nat>>)
    requires forall id :: id in ids ==> id in zone
    ensures IndexedBy(existing, zone, ids)
  {
    hide KeyOf, IndexedBy;
    existing := map[];
    NothingIndexed(zone, ids[..0]);
    var i := 0;
    while i < |ids|
      invariant 0 <= i <= |ids|
      invariant IndexedBy(existing, zone, ids[..i])
    {
      assert ids[..i + 1][..i] == ids[..i] && ids[i] in ids;
      var key := KeyOf(zone[ids[i]]);
      var list := Lookup(existing, key);
      IndexStep(existing, zone, ids, i);
      existing := existing[key := list + [ids[i]]];
      i := i + 1;
    }
    assert ids[..i] == ids;
  }

  /** One expected key, with the records found under it. */
  method SyncNext(api: Api, start: Zone, ids: seq<nat>, expected: map<Key, Record>, ghost keeper: map<Key, nat>,
                  key: Key, list: seq<nat>, addrs: Addresses, c: Counts)
    returns (r: Counts, ghost id: nat)
    requires api.Valid() && Lists(start, ids) && OlderThan(start, api.next)
    requires key in expected && key !in keeper && list == Under(start, ids, key)
    requires Synced(start, api.zone, expected, keeper, addrs)
    requires Counted(start, api.zone, expected, keeper.Keys, addrs, c)
    modifies api
    ensures api.Valid() && api.next >= old(api.next)
    ensures Synced(start, api.zone, expected, keeper[key := id], addrs)
    ensures Counted(start, api.zone, expected, keeper.Keys + {key}, addrs, r)
  {
    hide KeyOf, Matches, AfterKey, Under, Lists;
    ghost var zone, next := api.zone, api.next;
    UnderIs(start, ids, key);
    id := AfterKeySyncs(start, zone, next, expected, keeper, key, list, addrs);
    ListedStay(start, zone, expected, keeper, addrs, key, list);
    hide Synced, Counted, IsUnder, Distinct;
    r := api.SyncKey(expected[key], list, start, addrs, c);
    CountedStep(start, zone, api.zone, expected, keeper, key, list, addrs, next, c, r);
  }

  /** Stage one: every expected key, in any order. */
  method SyncExpected(api: Api, expected: map<Key, Record>, ids: seq<nat>, addrs: Addresses)
    returns (c: Counts, ghost keeper: map<Key, nat>)
    requires api.Valid() && Lists(api.zone, ids)
    modifies api
    ensures api.Valid() && keeper.Keys == expected.Keys
    ensures Synced(old(api.zone), api.zone, expected, keeper, addrs)
    ensures Counted(old(api.zone), api.zone, expected, keeper.Keys, addrs, c)
  {
    var start := api.zone;
    var existing := IndexByKey(start, ids);
    c, keeper := SyncKeys(api, start, expected, ids, existing, addrs);
  }

  method SyncKeys(api: Api, start: Zone, expected: map<Key, Record>, ids: seq<nat>, existing: map<Key, seq<nat>>,
                  addrs: Addresses)
    returns (c: Counts, ghost keeper: map<Key, nat>)
    requires api.Valid() && start == api.zone && Lists(start, ids) && IndexedBy(existing, start, ids)
    modifies api
    ensures api.Valid() && keeper.Keys == expected.Keys
    ensures Synced(start, api.zone, expected, keeper, addrs)
    ensures Counted(start, api.zone, expected, keeper.Keys, addrs, c)
  {
    c, keeper := Counts(0, 0, 0, 0), map[];
    var rest := expected.Keys;
    assert keeper.Keys == {} && api.Valid();
    hide Synced, Counted, Lists, IndexedBy;
    assert Progress(start, api.zone, api.next, expected, keeper, rest, addrs, c);
    while rest != {}
      invariant Progress(start, api.zone, api.next, expected, keeper, rest, addrs, c)
      decreases |rest|
    {
      var key :| key in rest;
      c, keeper := SyncStep(api, start, expected, ids, existing, addrs, keeper, rest, key, c);
      rest := rest - {key};
      hide Progress;
    }
  }

  /** The keys of `rest` are still to be synced. */
  ghost predicate Progress(start: Zone, zone: Zone, next: nat, expected: map<Key, Record>, keeper: map<Key, nat>,
                           rest: set<Key>, addrs: Addresses, c: Counts)
  {
    && OlderThan(start, next) && OlderThan(zone, next)
    && rest <= expected.Keys && keeper.Keys == expected.Keys - rest
    && Synced(start, zone, expected, keeper, addrs)
    && Counted(start, zone, expected, keeper.Keys, addrs, c)
  }

  method SyncStep(api: Api, start: Zone, expected: map<Key, Record>, ids: seq<nat>, existing: map<Key, seq<nat>>,
                  addrs: Addresses, ghost keeper: map<Key, nat>, rest: set<Key>, key: Key, c: Counts)
    returns (r: Counts, ghost keeper': map<Key, nat>)
    requires Lists(start, ids) && IndexedBy(existing, start, ids) && key in rest
    requires Progress(start, api.zone, api.next, expected, keeper, rest, addrs, c)
    modifies api
    ensures Progress(start, api.zone, api.next, expected, keeper', rest - {key}, addrs, r)
  {
    hide Synced, Counted, Lists, IndexedBy;
    var list := Lookup(existing, key);
    IndexFinds(existing, start, ids, key);
    ghost var id;
    assert api.Valid() && key !in keeper;
    r, id := SyncNext(api, start, ids, expected, keeper, key, list, addrs, c);
    GrowKeys(keeper, key, id);
    keeper' := keeper[key := id];
  }

  predicate OlderThan(zone: Zone, next: nat) {
    forall id :: id in zone ==> id < next
  }

  lemma GrowKeys(keeper: map<Key, nat>, key: Key, id: nat)
    ensures keeper[key := id].Keys == keeper.Keys + {key}
  {
  }

  lemma IndexFinds(existing: map<Key, seq<nat>>, zone: Zone, ids: seq<nat>, k: Key)
    requires Lists(zone, ids) && IndexedBy(existing, zone, ids)
    ensures forall id :: id in ids ==> id in zone
    ensures Lookup(existing, k) == Under(zone, ids, k)
  { }

  lemma ListedStay(start: Zone, zone: Zone, expected: map<Key, Record>, keeper: map<Key, nat>, addrs: Addresses,
                   k: Key, list: seq<nat>)
    requires Synced(start, zone, expected, keeper, addrs) && IsUnder(start, list, k) && k !in keeper
    ensures forall id :: id in list ==> id in zone && id in start && zone[id] == start[id]
  {
    hide KeyOf, KeepersKeep, NothingElse;
  }

  /** The records found at the start under stale keys of the given nodes. */
  function StaleIds(start: Zone, names: set<string>, base: string, ownName: bool): set<nat> {
    set id | id in start && exists n :: n in names && KeyOf(start[id]) in StaleKeys(n, base, ownName)
  }

  /** Stage two, unless forced: IPv6 records of the other setting, node by node. */
  method RemoveStale(api: Api, start: Zone, ids: seq<nat>, valid: set<string>, base: string, ownName: bool, before: nat)
    returns (deleted: nat)
    requires api.Valid() && Lists(start, ids)
    modifies api`zone
    ensures api.Valid() && api.zone == old(api.zone) - RemovedIds(start, valid, base, ownName, false)
    ensures deleted >= before && (deleted == before <==> api.zone == old(api.zone))
  {
    StaleBounds(start, valid, base, ownName);
    hide StaleIds, RemovedIds, Lists;
    deleted := before;
    var rest := valid;
    assert valid - rest == {};
    while rest != {}
      invariant rest <= valid && api.Valid()
      invariant api.zone == old(api.zone) - StaleIds(start, valid - rest, base, ownName)
      invariant deleted >= before && (deleted == before <==> api.zone == old(api.zone))
      decreases |rest|
    {
      var name :| name in rest;
      StaleGrow(start, valid, rest, name, base, ownName);
      rest := rest - {name};
      var stale := FindStale(start, ids, name, base, ownName);
      deleted := api.DeleteAll(stale, deleted);
    }
    assert valid - rest == valid;
  }

  lemma StaleBounds(start: Zone, valid: set<string>, base: string, ownName: bool)
    ensures StaleIds(start, {}, base, ownName) == {}
    ensures StaleIds(start, valid, base, ownName) == RemovedIds(start, valid, base, ownName, false)
  {
    hide KeyOf, StaleKeys;
  }

  lemma StaleGrow(start: Zone, valid: set<string>, rest: set<string>, name: string, base: string, ownName: bool)
    requires name in rest && rest <= valid
    ensures StaleIds(start, valid - (rest - {name}), base, ownName)
            == StaleIds(start, valid - rest, base, ownName) + StaleIds(start, {name}, base, ownName)
  {
    hide KeyOf, StaleKeys;
    assert valid - (rest - {name}) == valid - rest + {name};
  }

  /** The records found at the start under a node's stale keys. */
  method FindStale(start: Zone, ids: seq<nat>, name: string, base: string, ownName: bool) returns (stale: seq<nat>)
    requires Lists(start, ids)
    ensures (set id | id in stale) == StaleIds(start, {name}, base, ownName)
  {
    hide KeyOf;
    if ownName {
      var plain := Under(start, ids, Key("AAAA", name + "." + base));
      var wild := Under(start, ids, Key("AAAA", "*." + name + "." + base));
      stale := plain + wild;
    } else {
      stale := Under(start, ids, Key("AAAA", name + "6." + base));
    }
    hide Under;
    forall id ensures id in stale <==> id in StaleIds(start, {name}, base, ownName) {
      assert name in {name};
    }
  }

  /** Stage two of a forced sync: records of no node. */
  method RemoveOrphans(api: Api, start: Zone, ids: seq<nat>, valid: set<string>, base: string, ownName: bool,
                       before: nat)
    returns (deleted: nat)
    requires api.Valid() && Lists(start, ids)
    modifies api`zone
    ensures api.Valid() && api.zone == old(api.zone) - RemovedIds(start, valid, base, ownName, true)
    ensures deleted >= before && (deleted == before <==> api.zone == old(api.zone))
  {
    hide KeyOf, IsOrphan;
    var orphans := FindOrphans(start, ids, valid, base, ownName);
    deleted := api.DeleteAll(orphans, before);
  }

  method FindOrphans(start: Zone, ids: seq<nat>, valid: set<string>, base: string, ownName: bool)
    returns (orphans: seq<nat>)
    requires Lists(start, ids)
    ensures (set id | id in orphans) == RemovedIds(start, valid, base, ownName, true)
  {
    hide KeyOf, IsOrphan;
    orphans := [];
    var i := 0;
    while i < |ids|
      invariant 0 <= i <= |ids|
      invariant forall id :: id in orphans <==> id in ids[..i] && IsOrphan(valid, base, ownName, KeyOf(start[id]))
    {
      var id := ids[i];
      assert ids[..i + 1] == ids[..i] + [id] && id in ids;
      i := i + 1;
      var orphan := CheckOrphan(valid, base, ownName, KeyOf(start[id]));
      if orphan {
        orphans := orphans + [id];
      }
    }
    assert ids[..i] == ids;
  }

  method CheckOrphan(valid: set<string>, base: string, ownName: bool, k: Key) returns (orphan: bool)
    ensures orphan == IsOrphan(valid, base, ownName, k)
  {
    var suffix := "." + base;
    if !HasSuffix(k.name, suffix) || k.name == base {
      return false;
    }
    if k.kind != "A" && k.kind != "AAAA" && k.kind != "CNAME" {
      return false;
    }
    var sub := TrimSuffix(k.name, suffix);
    if sub == "" {
      return false;
    }
    var corresponds, checkSub, isWildcard := false, sub, false;
    if HasPrefix(checkSub, "*.") {
      isWildcard := true;
      checkSub := TrimPrefix(checkSub, "*.");
    }
    if checkSub in valid {
      if k.kind == "A" {
        corresponds := true;
      } else if k.kind == "AAAA" && !ownName {
        corresponds := true;
      }
    } else if !isWildcard && ownName && HasSuffix(sub, "6") {
      var baseNode := TrimSuffix(sub, "6");
      if baseNode in valid && k.kind == "AAAA" {
        corresponds := true;
      }
    }
    orphan := !corresponds;
  }

  /** The record is filed under its own kind and lower-case name. */
  predicate Filed(k: Key, r: Record) {
    MapKey(r) == k && ToUpper(r.kind) == r.kind
  }

  ghost predicate AllFiled(m: map<Key, Record>) {
    forall k :: k in m ==> Filed(k, m[k])
  }

  lemma {:induction false} ExpectedFiled(nodes: seq<Node>, base: string, ownName: bool, addrs: Addresses)
    ensures AllFiled(Expected(nodes, base, ownName, addrs))
  {
    hide Filed, ExpectedRecordsForNode, NodeName;
    if nodes != [] {
      var n, earlier := nodes[|nodes| - 1], Expected(nodes[..|nodes| - 1], base, ownName, addrs);
      ExpectedFiled(nodes[..|nodes| - 1], base, ownName, addrs);
      KindsAreUpper(n, base, ownName, addrs);
      AddedFiled(earlier, ExpectedRecordsForNode(n, base, ownName, addrs));
    }
  }

  lemma KindsAreUpper(n: Node, base: string, ownName: bool, addrs: Addresses)
    ensures forall r :: r in ExpectedRecordsForNode(n, base, ownName, addrs) ==> Filed(MapKey(r), r)
  {
    hide NormalizeDomain, NodeName, Published;
    assert ToUpper("A") == "A" && ToUpper("AAAA") == "AAAA";
    hide ToUpper, MapKey;
  }

  lemma {:induction false} AddedFiled(m: map<Key, Record>, rs: seq<Record>)
    requires AllFiled(m) && forall r :: r in rs ==> Filed(MapKey(r), r)
    ensures AllFiled(AddExpected(m, rs))
    decreases |rs|
  {
    hide MapKey, Filed;
    if rs != [] {
      assert rs[0] in rs;
      AddedFiled(m[MapKey(rs[0]) := rs[0]], rs[1..]);
    }
  }

  /** Synchronize the zone with the nodes; without a base domain nothing happens. */
  method Sync(api: Api, nodes: seq<Node>, settings: Settings, addrs: Addresses, force: bool)
    returns (ok: bool, c: Counts)
    requires api.Valid()
    modifies api
    ensures api.Valid() && (ok <==> NormalizeDomain(settings.baseDomain) != "")
    ensures c.Idle() ==> api.zone == old(api.zone)
    ensures ok ==>
      var base, ownName := NormalizeDomain(settings.baseDomain), settings.ownName;
      var expected, valid := Expected(nodes, base, ownName, addrs), ValidNames(nodes);
      && OnlyExpectedChange(old(api.zone), api.zone, expected, RemovedIds(old(api.zone), valid, base, ownName, force))
      && if NoConflict(expected, valid, base, ownName, force) then
           && AllPoint(api.zone, expected, addrs) && NoneToRemove(api.zone, valid, base, ownName, force)
           && (AllPoint(old(api.zone), expected, addrs) && NoneToRemove(old(api.zone), valid, base, ownName, force)
               ==> c.Idle())
         else !c.Idle()
    ensures ok ==>
      Reported(old(api.zone), Expected(nodes, NormalizeDomain(settings.baseDomain), settings.ownName, addrs), addrs, c)
  {
    hide NormalizeDomain, Expected, ValidNames, NoConflict, RemovedIds, AllPoint, NoneToRemove, OnlyExpectedChange,
      Reported;
    var base := NormalizeDomain(settings.baseDomain);
    c := Counts(0, 0, 0, 0);
    if base == "" {
      return false, c;
    }
    ok := true;
    var ids := api.ListRecords();
    var start := api.zone;
    var expected, valid := BuildExpected(nodes, base, settings.ownName, addrs);
    ExpectedFiled(nodes, base, settings.ownName, addrs);
    hide Lists, AllFiled;
    c := Reconcile(api, start, ids, expected, valid, base, settings.ownName, addrs, force);
  }

  method Reconcile(api: Api, start: Zone, ids: seq<nat>, expected: map<Key, Record>, valid: set<string>, base: string,
                   ownName: bool, addrs: Addresses, force: bool)
    returns (c: Counts)
    requires api.Valid() && start == api.zone && Lists(start, ids)
    requires AllFiled(expected)
    modifies api
    ensures api.Valid() && (c.Idle() ==> api.zone == start)
    ensures OnlyExpectedChange(start, api.zone, expected, RemovedIds(start, valid, base, ownName, force))
    ensures if NoConflict(expected, valid, base, ownName, force) then
              && AllPoint(api.zone, expected, addrs) && NoneToRemove(api.zone, valid, base, ownName, force)
              && (AllPoint(start, expected, addrs) && NoneToRemove(start, valid, base, ownName, force) ==> c.Idle())
            else !c.Idle()
    ensures Reported(start, expected, addrs, c)
  {
    hide KeyOf, AllFiled;
    ghost var keeper;
    c, keeper := SyncExpected(api, expected, ids, addrs);
    ghost var mid := api.zone;
    ReconciledIs(start, mid, expected, keeper, addrs, valid, base, ownName, force, c);
    NothingRemoved(start, valid, base, ownName, force);
    hide Reported, Synced, Counted, NoConflict, AllPoint, NoneToRemove, OnlyExpectedChange, RemovedIds, Lists;
    var deleted;
    if !force {
      deleted := RemoveStale(api, start, ids, valid, base, ownName, c.deleted);
    } else {
      deleted := RemoveOrphans(api, start, ids, valid, base, ownName, c.deleted);
    }
    ReportedStays(start, expected, addrs, c, c.(deleted := deleted));
    c := c.(deleted := deleted);
  }

  lemma ReportedStays(start: Zone, expected: map<Key, Record>, addrs: Addresses, c: Counts, r: Counts)
    requires Reported(start, expected, addrs, c) && r.created == c.created && r.updated == c.updated
    ensures Reported(start, expected, addrs, r)
  {
    hide HasKey, PointsElsewhere;
  }

  /** Both stages together, with the records still to remove in the second one. */
  lemma ReconciledIs(start: Zone, mid: Zone, expected: map<Key, Record>, keeper: map<Key, nat>, addrs: Addresses,
                     valid: set<string>, base: string, ownName: bool, force: bool, c: Counts)
    requires Synced(start, mid, expected, keeper, addrs) && keeper.Keys == expected.Keys
    requires Counted(start, mid, expected, keeper.Keys, addrs, c)
    requires AllFiled(expected)
    ensures c.Idle() ==> mid == start
    ensures Reported(start, expected, addrs, c)
    ensures var final := mid - RemovedIds(start, valid, base, ownName, force);
            && OnlyExpectedChange(start, final, expected, RemovedIds(start, valid, base, ownName, force))
            && if NoConflict(expected, valid, base, ownName, force) then
                 && AllPoint(final, expected, addrs) && NoneToRemove(final, valid, base, ownName, force)
                 && (AllPoint(start, expected, addrs) ==> c.Idle())
               else c.created > 0 || final != mid
  {
    hide KeyOf, AllFiled;
    var removed := RemovedIds(start, valid, base, ownName, force);
    FinalFrame(start, mid, expected, keeper, addrs, removed);
    CountedIs(start, mid, expected, keeper.Keys, addrs, c);
    hide Counted;
    if NoConflict(expected, valid, base, ownName, force) {
      FinalSettles(start, mid, expected, keeper, addrs, valid, base, ownName, force);
      AllSettledPoint(mid - removed, expected, addrs);
    } else {
      ConflictStirs(start, mid, expected, keeper, addrs, valid, base, ownName, force, c);
    }
    hide *;
  }

  /** Missing records are counted as created, and records for another address as updated. */
  ghost predicate Reported(start: Zone, expected: map<Key, Record>, addrs: Addresses, c: Counts) {
    && (forall k :: k in expected && !HasKey(start, k) ==> c.created > 0)
    && (forall k :: k in expected && PointsElsewhere(start, k, expected[k], addrs) ==> c.updated > 0)
  }

  lemma CountedIs(start: Zone, mid: Zone, expected: map<Key, Record>, done: set<Key>, addrs: Addresses, c: Counts)
    requires Counted(start, mid, expected, done, addrs, c) && done == expected.Keys
    ensures (c.Idle() ==> mid == start) && Reported(start, expected, addrs, c)
    ensures AllPoint(start, expected, addrs) ==> c.Idle()
  {
    AllSettledPoint(start, expected, addrs);
    hide Settled, PointsElsewhere, HasKey, AllPoint;
  }

  lemma NothingRemoved(start: Zone, valid: set<string>, base: string, ownName: bool, force: bool)
    ensures NoneToRemove(start, valid, base, ownName, force) <==> RemovedIds(start, valid, base, ownName, force) == {}
  {
    hide KeyOf, Removes;
    if RemovedIds(start, valid, base, ownName, force) == {} {
      forall id | id in start ensures !Removes(valid, base, ownName, force, KeyOf(start[id])) {
        assert id !in RemovedIds(start, valid, base, ownName, force);
      }
    }
  }

  // ----- Names that cannot conflict -----

  predicate PlainName(s: string) {
    s != "" && '.' !in s && '*' !in s && ToLower(s) == s
  }

  /** No name is another one followed by a 6. */
  predicate NoSixes(valid: set<string>) {
    forall a, b :: a in valid && b in valid ==> a != b + "6"
  }

  /** The keys of a node's records. */
  predicate KeyShape(k: Key, n: string, base: string, ownName: bool) {
    || (k.kind == "A" && (k.name == n + "." + base || k.name == "*." + n + "." + base))
    || (k.kind == "AAAA" &&
        if ownName then k.name == n + "6." + base else k.name == n + "." + base || k.name == "*." + n + "." + base)
  }

  predicate NoUpper(s: string) {
    forall i :: 0 <= i < |s| ==> !('A' <= s[i] <= 'Z')
  }

  lemma {:induction false} TrimDotsChars(s: string)
    requires NoUpper(s)
    ensures NoUpper(TrimDots(s))
    decreases |s|
  {
    if s != "" && s[0] == '.' {
      TrimDotsChars(s[1..]);
    } else if s != "" && s[|s| - 1] == '.' {
      TrimDotsChars(s[..|s| - 1]);
    }
  }

  lemma {:induction false} TrimStartChars(s: string)
    requires NoUpper(s)
    ensures NoUpper(TrimStart(s))
  {
    hide IsSpace;
    if s != "" && IsSpace(s[0]) {
      TrimStartChars(s[1..]);
    }
  }

  lemma {:induction false} TrimEndChars(s: string)
    requires NoUpper(s)
    ensures NoUpper(TrimEnd(s))
  {
    hide IsSpace;
    if s != "" && IsSpace(s[|s| - 1]) {
      TrimEndChars(s[..|s| - 1]);
    }
  }

  lemma {:induction false} SplitOnceChars(s: string, sep: char)
    requires NoUpper(s)
    ensures SplitOnce(s, sep).Some? ==> NoUpper(SplitOnce(s, sep).value.0)
  {
    if s != "" {
      assert s[0] in s;
      SplitOnceChars(s[1..], sep);
    }
  }

  lemma NoUpperIsLower(s: string)
    ensures NoUpper(s) <==> ToLower(s) == s
  {
    if ToLower(s) == s {
      assert forall i :: 0 <= i < |s| ==> ToLower(s)[i] == LowerChar(s[i]);
    }
  }

  /** A normalized domain is in lower case and neither starts nor ends with a dot. */
  lemma NormalizedDomain(domain: string)
    ensures var d := NormalizeDomain(domain); ToLower(d) == d && TrimDots(d) == d
  {
    NoUpperIsLower(ToLower(domain));
    assert ToLower(ToLower(domain)) == ToLower(domain);
    TrimStartChars(ToLower(domain));
    TrimEndChars(TrimStart(ToLower(domain)));
    hide Trim, TrimDots, ToLower;
    var t := TrimPrefix(TrimPrefix(Trim(ToLower(domain)), "https://"), "http://");
    assert NoUpper(Trim(ToLower(domain))) by { TrimmedChars(ToLower(domain)); }
    assert NoUpper(t);
    SplitOnceChars(t, '/');
    var cut := match SplitOnce(t, '/') { case Some((a, _)) => a case None => t };
    TrimDotsChars(cut);
    TrimDotsClean(cut);
    NoUpperIsLower(TrimDots(cut));
  }

  lemma TrimmedChars(s: string)
    requires NoUpper(s)
    ensures NoUpper(Trim(s))
  {
    TrimStartChars(s);
    TrimEndChars(TrimStart(s));
    hide TrimStart, TrimEnd;
  }

  lemma ShapeOfRecord(n: Node, base: string, ownName: bool, addrs: Addresses, r: Record)
    requires NormalizeDomain(base) == base && r in ExpectedRecordsForNode(n, base, ownName, addrs)
    ensures NodeName(n) != "" && KeyShape(MapKey(r), NodeName(n), base, ownName) && MapKey(r).name == r.name
  {
    NormalizedDomain(base);
    var name := NodeName(n);
    assert ToLower(name) == name;
    hide NormalizeDomain, NodeName, Published;
    LowerTails(name, base);
    hide ToLower;
  }

  lemma LowerTails(name: string, base: string)
    requires ToLower(name) == name && ToLower(base) == base
    ensures ToLower(name + "." + base) == name + "." + base
    ensures ToLower("*." + name + "." + base) == "*." + name + "." + base
    ensures ToLower(name + "6." + base) == name + "6." + base
  {
    assert ToLower("*.") == "*." && ToLower(".") == "." && ToLower("6.") == "6.";
    LowerJoin(name, ".");
    LowerJoin(name + ".", base);
    LowerJoin("*.", name);
    LowerJoin("*." + name, ".");
    LowerJoin("*." + name + ".", base);
    LowerJoin(name, "6.");
    LowerJoin(name + "6.", base);
    hide ToLower;
  }

  lemma LowerJoin(a: string, b: string)
    requires ToLower(a) == a && ToLower(b) == b
    ensures ToLower(a + b) == a + b
  {
    NoUpperIsLower(a);
    NoUpperIsLower(b);
    NoUpperIsLower(a + b);
  }

  ghost predicate Shaped(m: map<Key, Record>, names: set<string>, base: string, ownName: bool) {
    forall k :: k in m ==> m[k].name == k.name && m[k].kind == k.kind && exists n :: n in names && KeyShape(k, n, base, ownName)
  }

  lemma {:induction false} AddedShape(m: map<Key, Record>, rs: seq<Record>, names: set<string>, name: string,
                                      base: string, ownName: bool)
    requires Shaped(m, names, base, ownName) && name in names
    requires forall r :: r in rs ==> KeyShape(MapKey(r), name, base, ownName) && MapKey(r).name == r.name
    ensures Shaped(AddExpected(m, rs), names, base, ownName)
    decreases |rs|
  {
    hide KeyShape;
    if rs != [] {
      assert rs[0] in rs;
      AddedShape(m[MapKey(rs[0]) := rs[0]], rs[1..], names, name, base, ownName);
    }
  }

  lemma {:induction false} ExpectedShape(nodes: seq<Node>, base: string, ownName: bool, addrs: Addresses)
    requires NormalizeDomain(base) == base
    ensures Shaped(Expected(nodes, base, ownName, addrs), ValidNames(nodes), base, ownName)
  {
    hide KeyShape, NormalizeDomain, ExpectedRecordsForNode, NodeName, MapKey;
    if nodes != [] {
      var n, rest := nodes[|nodes| - 1], nodes[..|nodes| - 1];
      ExpectedShape(rest, base, ownName, addrs);
      assert n in nodes && ValidNames(rest) <= ValidNames(nodes);
      if NodeName(n) != "" {
        forall r | r in ExpectedRecordsForNode(n, base, ownName, addrs)
          ensures KeyShape(MapKey(r), NodeName(n), base, ownName) && MapKey(r).name == r.name
        {
          ShapeOfRecord(n, base, ownName, addrs, r);
        }
        AddedShape(Expected(rest, base, ownName, addrs), ExpectedRecordsForNode(n, base, ownName, addrs),
                   ValidNames(nodes), NodeName(n), base, ownName);
      }
    }
  }

  lemma SameStem(a: string, b: string, tail: string)
    requires a + tail == b + tail
    ensures a == b
  {
    assert (a + tail)[..|a|] == a && (b + tail)[..|b|] == b && |a| == |b|;
  }

  /** The shapes of names, as a stem before the dot and the domain. */
  lemma Stems(n: string, base: string)
    ensures n + "." + base == n + ("." + base)
    ensures "*." + n + "." + base == ("*." + n) + ("." + base)
    ensures n + "6." + base == (n + "6") + ("." + base)
  {
    assert n + "6." + base == n + ("6" + ("." + base));
  }

  /** The part of a record's name before the domain. */
  function Stem(k: Key, n: string, ownName: bool, base: string): string {
    if k.kind == "AAAA" && ownName then n + "6"
    else if k.name == n + "." + base then n
    else "*." + n
  }

  lemma StarIsNotPlain(n: string, m: string)
    requires PlainName(n)
    ensures n + "6" != "*." + m
  {
    assert n[0] in n;
    assert (n + "6")[0] != ("*." + m)[0];
  }

  lemma NotStale(k: Key, n: string, m: string, valid: set<string>, base: string, ownName: bool)
    requires KeyShape(k, n, base, ownName) && n in valid && m in valid && NoSixes(valid)
    requires PlainName(n) && PlainName(m)
    ensures k !in StaleKeys(m, base, ownName)
  {
    Stems(n, base);
    Stems(m, base);
    StarIsNotPlain(n, m);
    StarIsNotPlain(m, n);
    var tail := "." + base;
    if k in StaleKeys(m, base, ownName) && k.kind == "AAAA" {
      if ownName {
        if k.name == m + "." + base {
          SameStem(n + "6", m, tail);
        } else {
          SameStem(n + "6", "*." + m, tail);
        }
      } else {
        if k.name == n + "." + base {
          SameStem(n, m + "6", tail);
        } else {
          SameStem("*." + n, m + "6", tail);
        }
      }
    }
  }

  lemma NotOrphan(k: Key, n: string, valid: set<string>, base: string, ownName: bool)
    requires KeyShape(k, n, base, ownName) && n in valid && NoSixes(valid) && PlainName(n)
    ensures !IsOrphan(valid, base, ownName, k)
  {
    Stems(n, base);
    var stem := Stem(k, n, ownName, base);
    assert k.name == stem + ("." + base);
    assert Corresponds(valid, ownName, k.kind, stem) by {
      assert n[0] in n && n[0] != '*';
      if stem == "*." + n {
        assert stem[..2] == "*." && stem[2..] == n;
      } else if stem == n + "6" {
        assert stem[0] == n[0];
        assert stem[|stem| - 1..] == "6" && stem[..|stem| - 1] == n;
      }
    }
  }

  lemma FoundAgain(k: Key, n: string, base: string, ownName: bool, r: Record)
    requires KeyShape(k, n, base, ownName) && PlainName(n) && base != "" && TrimDots(base) == base && ToLower(base) == base
    requires r.name == k.name && r.kind == k.kind
    ensures KeyOf(r) == k
  {
    Stems(n, base);
    LowerTails(n, base);
    assert ToUpper("A") == "A" && ToUpper("AAAA") == "AAAA";
    var s := r.name;
    assert n[0] in n && s[0] != '.';
    assert s[|s| - 1] == base[|base| - 1];
    assert base[|base| - 1] != '.' by {
      if base[|base| - 1] == '.' {
        TrimDotsClean(base[..|base| - 1]);
        if base[0] == '.' {
          TrimDotsClean(base[1..]);
        }
      }
    }
    assert TrimDots(s) == s;
  }

  /** Plain names, none of which is another followed by a 6, never conflict: one sync settles the
      zone and the next one changes nothing. */
  lemma PlainNamesDoNotConflict(nodes: seq<Node>, base: string, ownName: bool, addrs: Addresses, force: bool)
    requires base != "" && NormalizeDomain(base) == base
    requires forall n :: n in ValidNames(nodes) ==> PlainName(n)
    requires NoSixes(ValidNames(nodes))
    ensures NoConflict(Expected(nodes, base, ownName, addrs), ValidNames(nodes), base, ownName, force)
  {
    ExpectedShape(nodes, base, ownName, addrs);
    NormalizedDomain(base);
    hide NormalizeDomain, KeyOf, KeyShape, Expected, ValidNames, StaleKeys, IsOrphan;
    var expected, valid := Expected(nodes, base, ownName, addrs), ValidNames(nodes);
    forall k | k in expected ensures KeyOf(expected[k]) == k && !Removes(valid, base, ownName, force, k) {
      var n :| n in valid && KeyShape(k, n, base, ownName);
      FoundAgain(k, n, base, ownName, expected[k]);
      NotOrphan(k, n, valid, base, ownName);
      forall m | m in valid ensures k !in StaleKeys(m, base, ownName) {
        NotStale(k, n, m, valid, base, ownName);
      }
    }
  }

  lemma AddOne(m: map<Key, Record>, r: Record)
    ensures AddExpected(m, [r]) == m[MapKey(r) := r]
  {
    hide MapKey;
    assert [r][1..] == [];
    assert AddExpected(m[MapKey(r) := r], []) == m[MapKey(r) := r];
  }

  lemma OneRecord(n: Node, name: string, a: string, addrs: Addresses)
    requires NodeName(n) == name && name != "" && Published(n.ip, true, addrs) == None
    requires Published(n.ip6, false, addrs) == Some(a)
    ensures ExpectedRecordsForNode(n, "d", true, addrs) == [Record("AAAA", name + "6." + "d", a, false)]
  {
    SixDomain();
    hide Published, NormalizeDomain, NodeName;
  }

  lemma SixDomain()
    ensures NormalizeDomain("d") == "d"
  {
    assert ToLower("d") == "d";
    assert SplitOnce("d", '/') == None;
  }

  lemma SixExpected(foo: Node, foo6: Node, r1: Record, r2: Record, addrs: Addresses)
    requires NodeName(foo) != "" && NodeName(foo6) != "" && MapKey(r1) != MapKey(r2)
    requires ExpectedRecordsForNode(foo, "d", true, addrs) == [r1]
    requires ExpectedRecordsForNode(foo6, "d", true, addrs) == [r2]
    ensures MapKey(r1) in Expected([foo, foo6], "d", true, addrs)
  {
    hide NodeName, ExpectedRecordsForNode, MapKey;
    assert [foo, foo6][..1] == [foo] && [foo][..0] == [];
    assert Expected([], "d", true, addrs) == map[];
    AddOne(map[], r1);
    assert Expected([foo], "d", true, addrs) == AddExpected(map[], [r1]);
    AddOne(map[MapKey(r1) := r1], r2);
  }

  lemma SixNames()
    ensures NodeName(Node("foo", "", "a")) == "foo" && NodeName(Node("foo6", "", "a")) == "foo6"
  {
    assert ToLower("foo") == "foo" && ToLower("foo6") == "foo6";
  }

  lemma SixKey(a: string)
    ensures MapKey(Record("AAAA", "foo" + "6." + "d", a, false)) == Key("AAAA", "foo6" + "." + "d")
    ensures MapKey(Record("AAAA", "foo6" + "6." + "d", a, false)) != Key("AAAA", "foo6" + "." + "d")
  {
    assert ToLower("foo6.d") == "foo6.d" && ToLower("foo66.d") == "foo66.d";
    assert "foo" + "6." + "d" == "foo6" + "." + "d" == "foo6.d";
    assert "foo6" + "6." + "d" == "foo66.d";
    assert |"foo66.d"| != |"foo6.d"|;
  }

  /** Nodes foo and foo6 with addresses of their own: the record of the one is stale for the other. */
  lemma SixConflicts(addrs: Addresses, a: string)
    requires Published("a", false, addrs) == Some(a)
    ensures var nodes := [Node("foo", "", "a"), Node("foo6", "", "a")];
            !NoConflict(Expected(nodes, "d", true, addrs), ValidNames(nodes), "d", true, false)
  {
    var foo, foo6 := Node("foo", "", "a"), Node("foo6", "", "a");
    var nodes := [foo, foo6];
    SixNames();
    assert Published("", true, addrs) == None;
    OneRecord(foo, "foo", a, addrs);
    OneRecord(foo6, "foo6", a, addrs);
    SixKey(a);
    hide Published, NodeName, ExpectedRecordsForNode, KeyOf;
    var r1, r2 := Record("AAAA", "foo" + "6." + "d", a, false), Record("AAAA", "foo6" + "6." + "d", a, false);
    SixExpected(foo, foo6, r1, r2, addrs);
    hide Expected, MapKey;
    assert foo6 in nodes && "foo6" in ValidNames(nodes);
    assert MapKey(r1) in StaleKeys("foo6", "d", true);
  }
}
