/** Applying a configuration patch: merging fields and lists, creating nodes and links, and the
    integrity of the resulting mesh. */
module ApplyConfig {
  import opened Wrappers
  import opened Text

  // ----- Fields -----

  /** The value of a scalar field; a field that was never set has none. */
  datatype Value = Unset | Plain(text: string) | Flag(on: bool) | Number(n: int) | Items(items: seq<string>)

  /** Scalar fields by name. */
  type Fields = map<string, Value>

  function Get(fields: Fields, name: string): Value {
    if name in fields then fields[name] else Unset
  }

  /** How a change is reported: with its values, with masked values, or not at all. */
  datatype Kind = Shown | Masked | Silent

  datatype Field = Field(name: string, kind: Kind)

  datatype Diff = Diff(prefix: string, field: string, oldValue: Value, newValue: Value)

  const MASK := Plain("***")

  function ShownFields(names: seq<string>): (r: seq<Field>)
    ensures |r| == |names| && forall i :: 0 <= i < |r| ==> r[i] == Field(names[i], Shown)
  {
    seq(|names|, i requires 0 <= i < |names| => Field(names[i], Shown))
  }

  predicate DistinctNames(fields: seq<Field>) {
    forall i, j :: 0 <= i < j < |fields| ==> fields[i].name != fields[j].name
  }

  predicate Patches(target: Fields, patch: Fields, name: string) {
    name in patch && patch[name] != Get(target, name)
  }

  function ReportOf(f: Field, prefix: string, before: Value, after: Value): seq<Diff> {
    match f.kind
    case Shown => [Diff(prefix, f.name, before, after)]
    case Masked => [Diff(prefix, f.name, MASK, MASK)]
    case Silent => []
  }

  /** The fields after a merge, and the reported changes in order. */
  function Merged(target: Fields, patch: Fields, fields: seq<Field>, prefix: string): (Fields, seq<Diff>) {
    if fields == [] then (target, [])
    else
      var f := fields[|fields| - 1];
      var (t, diffs) := Merged(target, patch, fields[..|fields| - 1], prefix);
      if Patches(t, patch, f.name)
      then (t[f.name := patch[f.name]], diffs + ReportOf(f, prefix, Get(t, f.name), patch[f.name]))
      else (t, diffs)
  }

  method MergeFields(target: Fields, patch: Fields, fields: seq<Field>, prefix: string, before: seq<Diff>)
    returns (merged: Fields, diffs: seq<Diff>)
    ensures merged == Merged(target, patch, fields, prefix).0
    ensures diffs == before + Merged(target, patch, fields, prefix).1
  {
    merged, diffs := target, before;
    var i := 0;
    assert fields[..0] == [];
    while i < |fields|
      invariant 0 <= i <= |fields|
      invariant merged == Merged(target, patch, fields[..i], prefix).0
      invariant diffs == before + Merged(target, patch, fields[..i], prefix).1
    {
      assert fields[..i + 1][..i] == fields[..i];
      var f := fields[i];
      if f.name in patch && patch[f.name] != Get(merged, f.name) {
        match f.kind {
          case Shown => diffs := diffs + [Diff(prefix, f.name, Get(merged, f.name), patch[f.name])];
          case Masked => diffs := diffs + [Diff(prefix, f.name, MASK, MASK)];
          case Silent =>
        }
        merged := merged[f.name := patch[f.name]];
      }
      i := i + 1;
    }
    assert fields[..i] == fields;
  }

  predicate Names(fields: seq<Field>, name: string) {
    exists i :: 0 <= i < |fields| && fields[i].name == name
  }

  /** A merged field has the patch's value if the patch sets it, and its own otherwise; fields
      that are not listed stay. */
  lemma {:induction false} MergedValue(target: Fields, patch: Fields, fields: seq<Field>, prefix: string, name: string)
    ensures Get(Merged(target, patch, fields, prefix).0, name)
            == if Names(fields, name) && name in patch then patch[name] else Get(target, name)
    ensures !Names(fields, name) || name !in patch ==>
              (name in Merged(target, patch, fields, prefix).0 <==> name in target)
  {
    if fields != [] {
      var rest, last := fields[..|fields| - 1], fields[|fields| - 1];
      MergedValue(target, patch, rest, prefix, name);
      assert Names(fields, name) <==> Names(rest, name) || last.name == name by {
        if Names(rest, name) {
          var i :| 0 <= i < |rest| && rest[i].name == name;
          assert fields[i].name == name;
        }
      }
    }
  }

  /** The reports between two states of the fields. */
  function Differences(before: Fields, after: Fields, fields: seq<Field>, prefix: string): seq<Diff> {
    if fields == [] then []
    else
      var f := fields[|fields| - 1];
      Differences(before, after, fields[..|fields| - 1], prefix)
      + if Get(before, f.name) != Get(after, f.name)
        then ReportOf(f, prefix, Get(before, f.name), Get(after, f.name)) else []
  }

  lemma {:induction false} DifferencesIgnore(before: Fields, after: Fields, later: Fields, fields: seq<Field>, prefix: string)
    requires forall i :: 0 <= i < |fields| ==> Get(after, fields[i].name) == Get(later, fields[i].name)
    ensures Differences(before, after, fields, prefix) == Differences(before, later, fields, prefix)
  {
    if fields != [] {
      var rest := fields[..|fields| - 1];
      assert forall i :: 0 <= i < |rest| ==> rest[i] == fields[i];
      DifferencesIgnore(before, after, later, rest, prefix);
    }
  }

  /** A merge reports exactly the fields whose value changed, with the old and the new value. */
  lemma {:induction false} MergeReports(target: Fields, patch: Fields, fields: seq<Field>, prefix: string)
    requires DistinctNames(fields)
    ensures var (merged, diffs) := Merged(target, patch, fields, prefix);
            diffs == Differences(target, merged, fields, prefix)
  {
    if fields != [] {
      var rest, last := fields[..|fields| - 1], fields[|fields| - 1];
      MergeReports(target, patch, rest, prefix);
      var before, merged := Merged(target, patch, rest, prefix).0, Merged(target, patch, fields, prefix).0;
      assert !Names(rest, last.name);
      MergedValue(target, patch, rest, prefix, last.name);
      forall i | 0 <= i < |rest| ensures Get(before, rest[i].name) == Get(merged, rest[i].name) {
        assert rest[i] == fields[i];
      }
      DifferencesIgnore(target, before, merged, rest, prefix);
    }
  }

  /** Merging the same patch again changes nothing and reports nothing. */
  lemma {:induction false} MergeAgain(target: Fields, patch: Fields, fields: seq<Field>, prefix: string, all: seq<Field>)
    requires forall i :: 0 <= i < |fields| ==> Names(all, fields[i].name)
    ensures var merged := Merged(target, patch, all, prefix).0;
            Merged(merged, patch, fields, prefix) == (merged, [])
  {
    if fields != [] {
      var rest, last := fields[..|fields| - 1], fields[|fields| - 1];
      assert forall i :: 0 <= i < |rest| ==> rest[i] == fields[i];
      MergeAgain(target, patch, rest, prefix, all);
      assert fields[|fields| - 1] == last;
      MergedValue(target, patch, all, prefix, last.name);
    }
  }

  /** Nothing is reported exactly when only silent fields changed. */
  lemma {:induction false} NothingReported(before: Fields, after: Fields, fields: seq<Field>, prefix: string)
    ensures Differences(before, after, fields, prefix) == [] <==>
            forall i :: 0 <= i < |fields| && fields[i].kind != Silent ==>
              Get(before, fields[i].name) == Get(after, fields[i].name)
  {
    if fields != [] {
      var rest := fields[..|fields| - 1];
      NothingReported(before, after, rest, prefix);
      assert forall i :: 0 <= i < |rest| ==> rest[i] == fields[i];
    }
  }

  /** Merging two lists of fields one after the other is merging the joined list. */
  lemma {:induction false} MergedJoin(target: Fields, patch: Fields, a: seq<Field>, b: seq<Field>, prefix: string)
    ensures var (t, first) := Merged(target, patch, a, prefix);
            var (u, second) := Merged(t, patch, b, prefix);
            Merged(target, patch, a + b, prefix) == (u, first + second)
  {
    var (t, first) := Merged(target, patch, a, prefix);
    if b == [] {
      assert a + b == a && first + [] == first;
    } else {
      var rest := b[..|b| - 1];
      assert (a + b)[..|a + b| - 1] == a + rest && (a + b)[|a + b| - 1] == b[|b| - 1];
      MergedJoin(target, patch, a, rest, prefix);
      var (u, second) := Merged(t, patch, rest, prefix);
      var report := ReportOf(b[|b| - 1], prefix, Get(u, b[|b| - 1].name), Get(patch, b[|b| - 1].name));
      assert first + (second + report) == first + second + report;
    }
  }

  /** Without silent fields, nothing is reported exactly when nothing changed. */
  lemma {:induction false} UnreportedStays(target: Fields, patch: Fields, fields: seq<Field>, prefix: string)
    requires forall i :: 0 <= i < |fields| ==> fields[i].kind != Silent
    ensures Merged(target, patch, fields, prefix).1 == [] ==> Merged(target, patch, fields, prefix).0 == target
  {
    if fields != [] {
      var rest := fields[..|fields| - 1];
      assert forall i :: 0 <= i < |rest| ==> rest[i] == fields[i];
      UnreportedStays(target, patch, rest, prefix);
      assert fields[|fields| - 1].kind != Silent;
    }
  }

  /** Two pairs of states that agree on the fields have the same reports. */
  lemma {:induction false} DifferencesAgree(before: Fields, after: Fields, before2: Fields, after2: Fields,
                                            fields: seq<Field>, prefix: string)
    requires forall i :: 0 <= i < |fields| ==>
      Get(before, fields[i].name) == Get(before2, fields[i].name) && Get(after, fields[i].name) == Get(after2, fields[i].name)
    ensures Differences(before, after, fields, prefix) == Differences(before2, after2, fields, prefix)
  {
    if fields != [] {
      var rest := fields[..|fields| - 1];
      assert forall i :: 0 <= i < |rest| ==> rest[i] == fields[i];
      DifferencesAgree(before, after, before2, after2, rest, prefix);
      assert Get(before, fields[|fields| - 1].name) == Get(before2, fields[|fields| - 1].name);
    }
  }

  /** In a stage of a longer merge, the reports are those between the first and the last state. */
  lemma StageReports(target: Fields, patch: Fields, a: seq<Field>, b: seq<Field>, c: seq<Field>, prefix: string)
    requires DistinctNames(a + b + c)
    ensures var t := Merged(target, patch, a, prefix).0;
            var (u, diffs) := Merged(t, patch, b, prefix);
            diffs == Differences(target, Merged(u, patch, c, prefix).0, b, prefix)
  {
    hide *;
    var t := Merged(target, patch, a, prefix).0;
    var u := Merged(t, patch, b, prefix).0;
    var w := Merged(u, patch, c, prefix).0;
    StageNames(a, b, c);
    forall i | 0 <= i < |b|
      ensures Get(target, b[i].name) == Get(t, b[i].name) && Get(u, b[i].name) == Get(w, b[i].name)
    {
      MergedValue(target, patch, a, prefix, b[i].name);
      MergedValue(u, patch, c, prefix, b[i].name);
    }
    MergeReports(t, patch, b, prefix);
    DifferencesAgree(t, u, target, w, b, prefix);
  }

  lemma StageNames(a: seq<Field>, b: seq<Field>, c: seq<Field>)
    requires DistinctNames(a + b + c)
    ensures DistinctNames(b) && forall i :: 0 <= i < |b| ==> !Names(a, b[i].name) && !Names(c, b[i].name)
  {
    var all := a + b + c;
    assert forall k :: 0 <= k < |a| ==> all[k] == a[k];
    assert forall k :: 0 <= k < |b| ==> all[|a| + k] == b[k];
    assert forall k :: 0 <= k < |c| ==> all[|a| + |b| + k] == c[k];
    forall i | 0 <= i < |b| ensures !Names(a, b[i].name) && !Names(c, b[i].name) {
      assert all[|a| + i] == b[i];
    }
  }

  // ----- Lists -----

  function DropEqual(items: seq<string>, d: string, eq: (string, string) -> bool): seq<string> {
    if items == [] then []
    else DropEqual(items[..|items| - 1], d, eq) + if eq(items[|items| - 1], d) then [] else [items[|items| - 1]]
  }

  function Deleted(items: seq<string>, dels: seq<string>, eq: (string, string) -> bool): seq<string> {
    if dels == [] then items
    else
      var d, r := Trim(dels[|dels| - 1]), Deleted(items, dels[..|dels| - 1], eq);
      if d == "" then r else DropEqual(r, d, eq)
  }

  predicate HasEqual(items: seq<string>, a: string, eq: (string, string) -> bool) {
    exists x :: x in items && eq(x, a)
  }

  function Added(items: seq<string>, adds: seq<string>, eq: (string, string) -> bool): seq<string> {
    if adds == [] then items
    else
      var a, r := Trim(adds[|adds| - 1]), Added(items, adds[..|adds| - 1], eq);
      if a == "" || HasEqual(r, a, eq) then r else r + [a]
  }

  function Listed(o: Option<seq<string>>): seq<string> {
    match o case None => [] case Some(s) => s
  }

  function Delta(base: seq<string>, toDel: Option<seq<string>>, toAdd: Option<seq<string>>,
                 eq: (string, string) -> bool): seq<string>
  {
    Added(Deleted(base, Listed(toDel), eq), Listed(toAdd), eq)
  }

  method DropOne(items: seq<string>, d: string, eq: (string, string) -> bool) returns (filtered: seq<string>)
    ensures filtered == DropEqual(items, d, eq)
  {
    filtered := [];
    var i := 0;
    assert items[..0] == [];
    while i < |items|
      invariant 0 <= i <= |items| && filtered == DropEqual(items[..i], d, eq)
    {
      assert items[..i + 1][..i] == items[..i];
      if !eq(items[i], d) {
        filtered := filtered + [items[i]];
      }
      i := i + 1;
    }
    assert items[..i] == items;
  }

  method FindEqual(items: seq<string>, a: string, eq: (string, string) -> bool) returns (found: bool)
    ensures found == HasEqual(items, a, eq)
  {
    var i := 0;
    while i < |items|
      invariant 0 <= i <= |items| && forall k :: 0 <= k < i ==> !eq(items[k], a)
    {
      if eq(items[i], a) {
        assert items[i] in items;
        return true;
      }
      i := i + 1;
    }
    found := false;
  }

  method ApplyStringSliceDelta(base: seq<string>, toDel: Option<seq<string>>, toAdd: Option<seq<string>>,
                               eq: (string, string) -> bool)
    returns (res: seq<string>)
    ensures res == Delta(base, toDel, toAdd, eq)
  {
    hide DropEqual, HasEqual, Trim;
    res := base;
    var dels := Listed(toDel);
    var i := 0;
    assert dels[..0] == [];
    while i < |dels|
      invariant 0 <= i <= |dels| && res == Deleted(base, dels[..i], eq)
    {
      assert dels[..i + 1][..i] == dels[..i];
      var trimmed := Trim(dels[i]);
      i := i + 1;
      if trimmed == "" {
        continue;
      }
      res := DropOne(res, trimmed, eq);
    }
    assert dels[..i] == dels;
    var kept := res;
    var adds := Listed(toAdd);
    var j := 0;
    assert adds[..0] == [];
    while j < |adds|
      invariant 0 <= j <= |adds| && res == Added(kept, adds[..j], eq)
    {
      assert adds[..j + 1][..j] == adds[..j];
      var trimmed := Trim(adds[j]);
      j := j + 1;
      if trimmed == "" {
        continue;
      }
      var alreadyExists := FindEqual(res, trimmed, eq);
      if !alreadyExists {
        res := res + [trimmed];
      }
    }
    assert adds[..j] == adds;
  }

  /** The deletion's text is not empty and equals the item. */
  predicate Hits(dels: seq<string>, x: string, eq: (string, string) -> bool) {
    exists i :: 0 <= i < |dels| && Trim(dels[i]) != "" && eq(x, Trim(dels[i]))
  }

  lemma {:induction false} DropKeeps(items: seq<string>, d: string, eq: (string, string) -> bool, x: string)
    ensures x in DropEqual(items, d, eq) <==> x in items && !eq(x, d)
  {
    if items != [] {
      DropKeeps(items[..|items| - 1], d, eq, x);
      assert items == items[..|items| - 1] + [items[|items| - 1]];
    }
  }

  lemma {:induction false} DeletedKeeps(items: seq<string>, dels: seq<string>, eq: (string, string) -> bool, x: string)
    ensures x in Deleted(items, dels, eq) <==> x in items && !Hits(dels, x, eq)
  {
    hide Trim;
    if dels != [] {
      var rest := dels[..|dels| - 1];
      DeletedKeeps(items, rest, eq, x);
      DropKeeps(Deleted(items, rest, eq), Trim(dels[|dels| - 1]), eq, x);
      var last := Trim(dels[|dels| - 1]);
      assert Hits(dels, x, eq) <==> (Hits(rest, x, eq) || (last != "" && eq(x, last))) by {
        if Hits(rest, x, eq) {
          var i :| 0 <= i < |rest| && Trim(rest[i]) != "" && eq(x, Trim(rest[i]));
          assert dels[i] == rest[i];
        }
      }
    }
  }

  lemma {:induction false} AddedKeeps(items: seq<string>, adds: seq<string>, eq: (string, string) -> bool)
    ensures var r := Added(items, adds, eq);
            && items <= r
            && (forall x :: x in r ==> x in items || exists i :: 0 <= i < |adds| && x == Trim(adds[i]))
            && (forall i :: 0 <= i < |adds| && Trim(adds[i]) != "" && eq(Trim(adds[i]), Trim(adds[i])) ==>
                  HasEqual(r, Trim(adds[i]), eq))
  {
    hide Trim;
    if adds != [] {
      var rest, a := adds[..|adds| - 1], Trim(adds[|adds| - 1]);
      AddedKeeps(items, rest, eq);
      var before, r := Added(items, rest, eq), Added(items, adds, eq);
      assert before <= r;
      assert forall i :: 0 <= i < |rest| ==> rest[i] == adds[i];
      forall i | 0 <= i < |adds| && Trim(adds[i]) != "" && eq(Trim(adds[i]), Trim(adds[i]))
        ensures HasEqual(r, Trim(adds[i]), eq)
      {
        if i < |rest| {
          var x :| x in before && eq(x, Trim(adds[i]));
          assert x in r;
        } else if r != before {
          assert a in r;
        }
      }
    }
  }

  /** A list change keeps the items that equal no deletion, in order and first, and every added
      text is there, once up to equality; nothing else is. */
  lemma DeltaContents(base: seq<string>, toDel: Option<seq<string>>, toAdd: Option<seq<string>>,
                      eq: (string, string) -> bool)
    requires forall x :: eq(x, x)
    ensures var r := Delta(base, toDel, toAdd, eq);
            && Deleted(base, Listed(toDel), eq) <= r
            && (forall x :: x in base && !Hits(Listed(toDel), x, eq) ==> x in r)
            && (forall x :: x in r ==> (x in base && !Hits(Listed(toDel), x, eq))
                                       || exists i :: 0 <= i < |Listed(toAdd)| && x == Trim(Listed(toAdd)[i]))
            && (forall i :: 0 <= i < |Listed(toAdd)| && Trim(Listed(toAdd)[i]) != "" ==>
                  HasEqual(r, Trim(Listed(toAdd)[i]), eq))
  {
    hide Trim;
    var dels, adds := Listed(toDel), Listed(toAdd);
    var kept := Deleted(base, dels, eq);
    forall x ensures x in kept <==> x in base && !Hits(dels, x, eq) {
      DeletedKeeps(base, dels, eq, x);
    }
    AddedKeeps(kept, adds, eq);
    hide Hits, Deleted, Added, HasEqual;
    var r := Delta(base, toDel, toAdd, eq);
    assert forall x :: x in kept ==> x in r;
  }

  // ----- Nodes, links and their patches -----

  datatype Node = Node(name: string, fields: Fields, tags: seq<string>, routes: seq<string>, modifiedAt: int)

  datatype End = End(name: string, fields: Fields)

  datatype Link = Link(from: End, to: End, fields: Fields, tags: seq<string>, modifiedAt: int)

  /** A new list, and texts to add and to delete. */
  datatype ListPatch = ListPatch(items: Option<seq<string>>, add: Option<seq<string>>, del: Option<seq<string>>)

  datatype NodePatch = NodePatch(name: string, fields: Fields, tags: ListPatch, routes: ListPatch)

  datatype EndPatch = EndPatch(name: string, fields: Fields)

  datatype LinkPatch = LinkPatch(from: EndPatch, to: EndPatch, fields: Fields, tags: ListPatch)

  function NodeHead(): seq<Field> {
    ShownFields(["host", "is_external", "caption", "description", "note", "ip", "ip6", "external_ip", "external_ip6",
                 "interface", "asn", "entrypoints"])
  }

  function NodeMiddle(): seq<Field> {
    ShownFields(["table", "external_table", "internet_table", "metric"])
  }

  function NodeTail(): seq<Field> {
    ShownFields(["routes", "config_hooks", "wg_template", "bird_template", "nft_template", "x", "y", "mode",
                 "enable_fa", "update_hosts", "custom_network_script", "route_reflector"])
  }

  function LinkHead(): seq<Field> {
    ShownFields(["type"])
  }

  /** A changed pre-shared key is compared only after masking, so it is never reported. */
  function LinkTail(): seq<Field> {
    [Field("assign_ipv4", Shown), Field("disable_bfd", Shown), Field("psk", Silent), Field("note", Shown)]
  }

  function EndNames(): seq<string> {
    ["type", "interface", "address", "address4", "neighbor_address", "listen_port", "endpoint",
     "persistent_keepalive", "mtu", "use_ip", "policy", "cost", "fwmark", "preference", "mark",
     "routing_policy", "add_paths", "note"]
  }

  function EndFields(): seq<Field> {
    ShownFields(EndNames())
  }

  function NodeFields(): seq<Field> {
    NodeHead() + NodeMiddle() + NodeTail()
  }

  function LinkFields(): seq<Field> {
    LinkHead() + LinkTail()
  }

  /** The length, the first and the last letter of a name. */
  function Code(s: string): int {
    if s == "" then 0 else |s| * 1000000 + s[0] as int * 1000 + s[|s| - 1] as int
  }

  function FieldCodes(fields: seq<Field>): seq<int> {
    seq(|fields|, i requires 0 <= i < |fields| => Code(fields[i].name))
  }

  predicate AllDiffer(codes: seq<int>) {
    forall i, j :: 0 <= i < j < |codes| ==> codes[i] != codes[j]
  }

  /** The codes in ascending order, the rank of each code, and the place of each rank. */
  predicate RankedBy(codes: seq<int>, sorted: seq<int>, ranks: seq<nat>, places: seq<nat>) {
    && |ranks| == |codes| && |sorted| == |places|
    && (forall k :: 0 <= k < |sorted| - 1 ==> sorted[k] < sorted[k + 1])
    && (forall i :: 0 <= i < |codes| ==>
          ranks[i] < |places| && places[ranks[i]] == i && codes[i] == sorted[ranks[i]])
  }

  lemma {:induction false} CodesAscend(codes: seq<int>, i: nat, j: nat)
    requires forall k :: 0 <= k < |codes| - 1 ==> codes[k] < codes[k + 1]
    requires i < j < |codes|
    ensures codes[i] < codes[j]
  {
    if i + 1 < j {
      CodesAscend(codes, i, j - 1);
    }
    assert codes[j - 1] < codes[j - 1 + 1];
  }

  lemma DifferByRank(codes: seq<int>, sorted: seq<int>, ranks: seq<nat>, places: seq<nat>)
    requires RankedBy(codes, sorted, ranks, places)
    ensures AllDiffer(codes)
  {
    forall i, j | 0 <= i < j < |codes| ensures codes[i] != codes[j] {
      if ranks[i] < ranks[j] {
        CodesAscend(sorted, ranks[i], ranks[j]);
      } else if ranks[j] < ranks[i] {
        CodesAscend(sorted, ranks[j], ranks[i]);
      }
    }
  }

  lemma DistinctByCode(fields: seq<Field>)
    requires AllDiffer(FieldCodes(fields))
    ensures DistinctNames(fields)
  {
    hide Code;
    var codes := FieldCodes(fields);
    forall i, j | 0 <= i < j < |fields| ensures fields[i].name != fields[j].name {
      assert codes[i] != codes[j];
    }
  }

  lemma EndFieldsCodes() returns (codes: seq<int>)
    ensures codes == FieldCodes(EndFields())
    ensures codes == [4116101, 9105101, 7097115, 8097052, 16110115, 11108116, 8101116, 20112101, 3109117, 6117112, 6112121,
       4099116, 6102107, 10112101, 4109107, 14114121, 9097115, 4110101]
  {
    codes := FieldCodes(EndFields());
  }

  lemma RankedEnds(codes: seq<int>)
    requires codes == [4116101, 9105101, 7097115, 8097052, 16110115, 11108116, 8101116, 20112101, 3109117, 6117112, 6112121,
       4099116, 6102107, 10112101, 4109107, 14114121, 9097115, 4110101]
    ensures AllDiffer(codes)
  {
    var sorted := [3109117, 4099116, 4109107, 4110101, 4116101, 6102107, 6112121, 6117112, 7097115, 8097052, 8101116,
       9097115, 9105101, 10112101, 11108116, 14114121, 16110115, 20112101];
    var ranks := [4, 12, 8, 9, 16, 14, 10, 17, 0, 7, 6, 1, 5, 13, 2, 15, 11, 3];
    var places := [8, 11, 14, 17, 0, 12, 10, 9, 2, 3, 6, 16, 1, 13, 5, 15, 4, 7];
    DifferByRank(codes, sorted, ranks, places);
  }

  lemma EndFieldsDistinct()
    ensures DistinctNames(EndFields())
  {
    var codes := EndFieldsCodes();
    RankedEnds(codes);
    hide *;
    DistinctByCode(EndFields());
  }

  lemma NodeHeadCodes() returns (codes: seq<int>)
    ensures codes == FieldCodes(NodeHead())
    ensures codes == [4104116, 11105108, 7099110, 11100110, 4110101, 2105112, 3105054, 11101112, 12101054, 9105101, 3097110,
       11101115]
  {
    codes := FieldCodes(NodeHead());
  }

  lemma NodeMiddleCodes() returns (codes: seq<int>)
    ensures codes == FieldCodes(NodeMiddle())
    ensures codes == [5116101, 14101101, 14105101, 6109099]
  {
    codes := FieldCodes(NodeMiddle());
  }

  lemma NodeTailCodes() returns (codes: seq<int>)
    ensures codes == FieldCodes(NodeTail())
    ensures codes == [6114115, 12099115, 11119101, 13098101, 12110101, 1120120, 1121121, 4109101, 9101097, 12117115, 21099116,
       15114114]
  {
    codes := FieldCodes(NodeTail());
  }

  function NodeCodes(): seq<int> {
    [4104116, 11105108, 7099110, 11100110, 4110101, 2105112, 3105054, 11101112, 12101054, 9105101, 3097110,
     11101115, 5116101, 14101101, 14105101, 6109099, 6114115, 12099115, 11119101, 13098101, 12110101,
     1120120, 1121121, 4109101, 9101097, 12117115, 21099116, 15114114]
  }

  function SortedNodeCodes(): seq<int> {
    [1120120, 1121121, 2105112, 3097110, 3105054, 4104116, 4109101, 4110101, 5116101, 6109099, 6114115,
     7099110, 9101097, 9105101, 11100110, 11101112, 11101115, 11105108, 11119101, 12099115, 12101054,
     12110101, 12117115, 13098101, 14101101, 14105101, 15114114, 21099116]
  }

  function NodeRanks(): seq<nat> {
    [5, 17, 11, 14, 7, 2, 4, 15, 20, 13, 3, 16, 8, 24, 25, 9, 10, 19, 18, 23, 21, 0, 1, 6, 12, 22, 27, 26]
  }

  function NodePlaces(): seq<nat> {
    [21, 22, 5, 10, 6, 0, 23, 4, 12, 15, 16, 2, 24, 9, 3, 7, 11, 1, 18, 17, 8, 20, 25, 19, 13, 14, 27, 26]
  }

  lemma NodeCodesAscend()
    ensures |SortedNodeCodes()| == 28
    ensures forall k :: 0 <= k < 27 ==> SortedNodeCodes()[k] < SortedNodeCodes()[k + 1]
  {
  }

  lemma NodeRanksFit()
    ensures |NodeRanks()| == |NodePlaces()| == 28
    ensures forall i :: 0 <= i < 28 ==> NodeRanks()[i] < 28 && NodePlaces()[NodeRanks()[i]] == i
  {
  }

  lemma NodeCodesFit()
    ensures |NodeCodes()| == |SortedNodeCodes()| == |NodeRanks()| == 28
    ensures forall i :: 0 <= i < 28 ==>
      NodeRanks()[i] < 28 && NodeCodes()[i] == SortedNodeCodes()[NodeRanks()[i]]
  {
  }

  lemma RankedNodes()
    ensures AllDiffer(NodeCodes())
  {
    NodeCodesAscend();
    NodeRanksFit();
    NodeCodesFit();
    hide NodeCodes, SortedNodeCodes, NodeRanks, NodePlaces;
    DifferByRank(NodeCodes(), SortedNodeCodes(), NodeRanks(), NodePlaces());
  }

  lemma NodeFieldsDistinct()
    ensures DistinctNames(NodeFields())
  {
    var head := NodeHeadCodes();
    var middle := NodeMiddleCodes();
    var tail := NodeTailCodes();
    CodesOfNode();
    assert head + middle + tail == NodeCodes();
    hide *;
    RankedNodes();
    DistinctByCode(NodeFields());
  }

  lemma CodesOfNode()
    ensures FieldCodes(NodeFields()) == FieldCodes(NodeHead()) + FieldCodes(NodeMiddle()) + FieldCodes(NodeTail())
  {
    hide NodeHead, NodeMiddle, NodeTail, Code;
  }

  lemma LinkFieldsCodes() returns (codes: seq<int>)
    ensures codes == FieldCodes(LinkFields())
    ensures codes == [4116101, 11097052, 11100100, 3112107, 4110101]
  {
    codes := FieldCodes(LinkFields());
  }

  lemma LinkFieldsDistinct()
    ensures DistinctNames(LinkFields())
  {
    var codes := LinkFieldsCodes();
    assert AllDiffer(codes);
    hide *;
    DistinctByCode(LinkFields());
  }

  predicate SameName(a: string, b: string) {
    ToLower(a) == ToLower(b)
  }

  function TagEqual(a: string, b: string): bool {
    ToLower(Trim(a)) == ToLower(Trim(b))
  }

  predicate IsPatched(p: ListPatch) {
    p.items.Some? || p.add.Some? || p.del.Some?
  }

  /** The list after its patch. */
  function MergedList(items: seq<string>, p: ListPatch, eq: (string, string) -> bool): seq<string> {
    if !IsPatched(p) then items
    else Delta(if p.items.Some? then p.items.value else items, p.del, p.add, eq)
  }

  function ListReport(name: string, before: seq<string>, after: seq<string>): seq<Diff> {
    if before == after then [] else [Diff("", name, Items(before), Items(after))]
  }

  // ----- Nodes -----

  function MergedNode(n: Node, p: NodePatch, now: int, routeEqual: (string, string) -> bool): (Node, seq<Diff>) {
    var (f1, d1) := Merged(n.fields, p.fields, NodeHead(), "");
    var tags := MergedList(n.tags, p.tags, TagEqual);
    var (f2, d2) := Merged(f1, p.fields, NodeMiddle(), "");
    var routes := MergedList(n.routes, p.routes, routeEqual);
    var (f3, d3) := Merged(f2, p.fields, NodeTail(), "");
    var diffs := d1 + ListReport("tags", n.tags, tags) + d2 + ListReport("static_routes", n.routes, routes) + d3;
    (Node(n.name, f3, tags, routes, if diffs != [] then now else n.modifiedAt), diffs)
  }

  /** What is reported between two states of a node. */
  function NodeChanges(n: Node, m: Node): seq<Diff> {
    Differences(n.fields, m.fields, NodeHead(), "") + ListReport("tags", n.tags, m.tags)
    + Differences(n.fields, m.fields, NodeMiddle(), "") + ListReport("static_routes", n.routes, m.routes)
    + Differences(n.fields, m.fields, NodeTail(), "")
  }

  /** The listed fields have the patch's values where it sets them, and all others their own. */
  ghost predicate TakesPatch(before: Fields, patch: Fields, fields: seq<Field>, after: Fields) {
    forall name :: Get(after, name) == if Names(fields, name) && name in patch then patch[name] else Get(before, name)
  }

  lemma MergedTakesPatch(target: Fields, patch: Fields, fields: seq<Field>, prefix: string)
    ensures TakesPatch(target, patch, fields, Merged(target, patch, fields, prefix).0)
  {
    hide Names, Merged;
    forall name ensures Get(Merged(target, patch, fields, prefix).0, name)
                        == if Names(fields, name) && name in patch then patch[name] else Get(target, name) {
      MergedValue(target, patch, fields, prefix, name);
    }
  }

  /** The three stages of a node's fields. */
  lemma NodeStages(fields: Fields, patch: Fields)
    ensures var (f1, d1) := Merged(fields, patch, NodeHead(), "");
            var (f2, d2) := Merged(f1, patch, NodeMiddle(), "");
            var (f3, d3) := Merged(f2, patch, NodeTail(), "");
            && f3 == Merged(fields, patch, NodeFields(), "").0 && TakesPatch(fields, patch, NodeFields(), f3)
            && d1 == Differences(fields, f3, NodeHead(), "") && d2 == Differences(fields, f3, NodeMiddle(), "")
            && d3 == Differences(fields, f3, NodeTail(), "")
            && (d1 == d2 == d3 == [] ==> f3 == fields)
  {
    var a, b, c := NodeHead(), NodeMiddle(), NodeTail();
    NodeFieldsDistinct();
    MergedTakesPatch(fields, patch, NodeFields(), "");
    hide *;
    JoinedStages(fields, patch, a, b, c);
    ShownAreNotSilent();
    UnreportedStays(fields, patch, a, "");
    UnreportedStays(Merged(fields, patch, a, "").0, patch, b, "");
    UnreportedStays(Merged(Merged(fields, patch, a, "").0, patch, b, "").0, patch, c, "");
  }

  lemma ShownAreNotSilent()
    ensures NodeFields() == NodeHead() + NodeMiddle() + NodeTail()
    ensures forall i :: 0 <= i < |NodeHead()| ==> NodeHead()[i].kind != Silent
    ensures forall i :: 0 <= i < |NodeMiddle()| ==> NodeMiddle()[i].kind != Silent
    ensures forall i :: 0 <= i < |NodeTail()| ==> NodeTail()[i].kind != Silent
  {
  }

  lemma JoinedStages(fields: Fields, patch: Fields, a: seq<Field>, b: seq<Field>, c: seq<Field>)
    ensures var (f1, d1) := Merged(fields, patch, a, "");
            var (f2, d2) := Merged(f1, patch, b, "");
            var (f3, d3) := Merged(f2, patch, c, "");
            && f3 == Merged(fields, patch, a + b + c, "").0
            && (DistinctNames(a + b + c) ==>
                && d1 == Differences(fields, f3, a, "") && d2 == Differences(fields, f3, b, "")
                && d3 == Differences(fields, f3, c, ""))
  {
    hide *;
    var (f1, d1) := Merged(fields, patch, a, "");
    var (f2, d2) := Merged(f1, patch, b, "");
    var (f3, d3) := Merged(f2, patch, c, "");
    MergedJoin(fields, patch, a, b, "");
    MergedJoin(fields, patch, a + b, c, "");
    if DistinctNames(a + b + c) {
      assert [] + a + (b + c) == a + b + c && a + b + c + [] == a + b + c && (a + b) + c + [] == a + b + c;
      MergedNothing(fields, patch);
      MergedNothing(f3, patch);
      MergedJoin(f1, patch, b, c, "");
      StageReports(fields, patch, [], a, b + c, "");
      StageReports(fields, patch, a, b, c, "");
      StageReports(fields, patch, a + b, c, [], "");
    }
  }

  lemma MergedNothing(fields: Fields, patch: Fields)
    ensures Merged(fields, patch, [], "") == (fields, [])
  {
  }

  lemma {:induction false} NoDifferences(fields: Fields, listed: seq<Field>, prefix: string)
    ensures Differences(fields, fields, listed, prefix) == []
  {
    if listed != [] {
      NoDifferences(fields, listed[..|listed| - 1], prefix);
    }
  }

  /** A merged node holds the patch's fields and lists, the report lists exactly its changes, and it
      is marked as modified exactly when something changed. */
  ghost predicate IsMergedNode(n: Node, p: NodePatch, now: int, routeEqual: (string, string) -> bool, m: Node,
                               diffs: seq<Diff>)
  {
    && m.name == n.name && TakesPatch(n.fields, p.fields, NodeFields(), m.fields)
    && m.tags == MergedList(n.tags, p.tags, TagEqual) && m.routes == MergedList(n.routes, p.routes, routeEqual)
    && diffs == NodeChanges(n, m)
    && (diffs == [] <==> m == n)
    && m.modifiedAt == if diffs == [] then n.modifiedAt else now
  }

  lemma NodeIsMerged(n: Node, p: NodePatch, now: int, routeEqual: (string, string) -> bool)
    ensures var (m, diffs) := MergedNode(n, p, now, routeEqual); IsMergedNode(n, p, now, routeEqual, m, diffs)
  {
    NodeStages(n.fields, p.fields);
    NoDifferences(n.fields, NodeHead(), "");
    NoDifferences(n.fields, NodeMiddle(), "");
    NoDifferences(n.fields, NodeTail(), "");
    hide Merged, MergedList, NodeHead, NodeMiddle, NodeTail, NodeFields, Differences, TakesPatch;
  }

  method MergeList(items: seq<string>, p: ListPatch, name: string, eq: (string, string) -> bool, before: seq<Diff>)
    returns (merged: seq<string>, diffs: seq<Diff>)
    ensures merged == MergedList(items, p, eq) && diffs == before + ListReport(name, items, merged)
  {
    hide Delta;
    merged, diffs := items, before;
    if p.items.Some? || p.add.Some? || p.del.Some? {
      var base := items;
      if p.items.Some? {
        base := p.items.value;
      }
      var changed := ApplyStringSliceDelta(base, p.del, p.add, eq);
      if items != changed {
        diffs := diffs + [Diff("", name, Items(items), Items(changed))];
        merged := changed;
      }
    }
  }

  method MergeNode(target: Node, p: NodePatch, now: int, routeEqual: (string, string) -> bool)
    returns (node: Node, diffs: seq<Diff>)
    ensures (node, diffs) == MergedNode(target, p, now, routeEqual)
    ensures IsMergedNode(target, p, now, routeEqual, node, diffs)
  {
    NodeIsMerged(target, p, now, routeEqual);
    hide Merged, MergedList, NodeHead, NodeMiddle, NodeTail, ListReport, IsMergedNode;
    var fields, tags, routes;
    fields, diffs := MergeFields(target.fields, p.fields, NodeHead(), "", []);
    assert diffs == Merged(target.fields, p.fields, NodeHead(), "").1;
    tags, diffs := MergeList(target.tags, p.tags, "tags", TagEqual, diffs);
    fields, diffs := MergeFields(fields, p.fields, NodeMiddle(), "", diffs);
    routes, diffs := MergeList(target.routes, p.routes, "static_routes", routeEqual, diffs);
    fields, diffs := MergeFields(fields, p.fields, NodeTail(), "", diffs);
    node := Node(target.name, fields, tags, routes, target.modifiedAt);
    if |diffs| > 0 {
      node := node.(modifiedAt := now);
    }
  }

  function NewNodeFields(): Fields {
    map["table" := Number(254), "interface" := Plain("lo"), "entrypoints" := Items([])]
  }

  function CreatedNode(p: NodePatch, now: int, routeEqual: (string, string) -> bool): Node {
    var fields := Merged(NewNodeFields(), p.fields, NodeHead() + NodeMiddle() + NodeTail(), "").0;
    Node(p.name, fields, MergedList([], p.tags, TagEqual), MergedList([], p.routes, routeEqual), now)
  }

  /** A new node has the patch's name, fields and lists, and besides table 254 and interface lo. */
  ghost predicate IsCreatedNode(p: NodePatch, now: int, routeEqual: (string, string) -> bool, m: Node) {
    && m.name == p.name && m.modifiedAt == now
    && m.tags == MergedList([], p.tags, TagEqual) && m.routes == MergedList([], p.routes, routeEqual)
    && forall name :: Get(m.fields, name) ==
         if Names(NodeFields(), name) && name in p.fields then p.fields[name]
         else if name == "table" then Number(254) else if name == "interface" then Plain("lo")
         else if name == "entrypoints" then Items([]) else Unset
  }

  lemma NodeIsCreated(p: NodePatch, now: int, routeEqual: (string, string) -> bool)
    ensures IsCreatedNode(p, now, routeEqual, CreatedNode(p, now, routeEqual))
  {
    MergedTakesPatch(NewNodeFields(), p.fields, NodeFields(), "");
    hide Merged, MergedList, NodeHead, NodeMiddle, NodeTail, Names;
  }

  method CreateNodeFromPatch(p: NodePatch, now: int, routeEqual: (string, string) -> bool)
    returns (node: Node, diffs: seq<Diff>)
    ensures node == CreatedNode(p, now, routeEqual) && IsCreatedNode(p, now, routeEqual, node)
    ensures diffs == [Diff("", "node", Unset, Plain(p.name))]
  {
    NodeIsCreated(p, now, routeEqual);
    hide IsCreatedNode, Merged, MergedList, NodeHead, NodeMiddle, NodeTail;
    var fields, tags, routes;
    var dummy := [];
    fields, dummy := MergeFields(NewNodeFields(), p.fields, NodeHead() + NodeMiddle() + NodeTail(), "", []);
    tags, dummy := MergeList([], p.tags, "tags", TagEqual, []);
    routes, dummy := MergeList([], p.routes, "static_routes", routeEqual, []);
    node := Node(p.name, fields, tags, routes, now);
    diffs := [Diff("", "node", Unset, Plain(p.name))];
  }

  // ----- Links -----

  function MergedEnd(e: End, p: EndPatch, prefix: string): (End, seq<Diff>) {
    var (fields, diffs) := Merged(e.fields, p.fields, EndFields(), prefix);
    (e.(fields := fields), diffs)
  }

  /** The patch names the link's ends the other way round. */
  predicate IsReversed(l: Link, p: LinkPatch) {
    SameName(l.from.name, p.to.name) && SameName(l.to.name, p.from.name)
  }

  predicate LinkMatches(l: Link, p: LinkPatch) {
    (SameName(l.from.name, p.from.name) && SameName(l.to.name, p.to.name)) || IsReversed(l, p)
  }

  function MergedLink(l: Link, p: LinkPatch, now: int): (Link, seq<Diff>) {
    var patchFrom, patchTo := if IsReversed(l, p) then p.to else p.from, if IsReversed(l, p) then p.from else p.to;
    var (f1, d1) := Merged(l.fields, p.fields, LinkHead(), "");
    var tags := MergedList(l.tags, p.tags, TagEqual);
    var (f2, d2) := Merged(f1, p.fields, LinkTail(), "");
    var (from, d3) := MergedEnd(l.from, patchFrom, "from.");
    var (to, d4) := MergedEnd(l.to, patchTo, "to.");
    var diffs := d1 + ListReport("tags", l.tags, tags) + d2 + d3 + d4;
    (Link(from, to, f2, tags, if diffs != [] then now else l.modifiedAt), diffs)
  }

  /** The patch's end for each end of the link. */
  function PatchEnds(l: Link, p: LinkPatch): (EndPatch, EndPatch) {
    if IsReversed(l, p) then (p.to, p.from) else (p.from, p.to)
  }

  /** What is reported between two states of a link. */
  function LinkChanges(l: Link, m: Link): seq<Diff> {
    Differences(l.fields, m.fields, LinkHead(), "") + ListReport("tags", l.tags, m.tags)
    + Differences(l.fields, m.fields, LinkTail(), "")
    + Differences(l.from.fields, m.from.fields, EndFields(), "from.")
    + Differences(l.to.fields, m.to.fields, EndFields(), "to.")
  }

  ghost predicate IsMergedEnd(e: End, p: EndPatch, m: End) {
    m.name == e.name && TakesPatch(e.fields, p.fields, EndFields(), m.fields)
  }

  /** Nothing but the pre-shared key changed. */
  ghost predicate OnlyKeyDiffers(l: Link, m: Link) {
    m.from == l.from && m.to == l.to && m.tags == l.tags
    && forall name :: name != "psk" ==> Get(m.fields, name) == Get(l.fields, name)
  }

  /** A merged link holds the patch's fields and tags, each end those of the patch's end of its own node;
      the report lists exactly its changes but that of the key, and it is marked as modified exactly when
      something is reported. */
  ghost predicate IsMergedLink(l: Link, p: LinkPatch, now: int, m: Link, diffs: seq<Diff>) {
    && TakesPatch(l.fields, p.fields, LinkFields(), m.fields) && m.tags == MergedList(l.tags, p.tags, TagEqual)
    && IsMergedEnd(l.from, PatchEnds(l, p).0, m.from) && IsMergedEnd(l.to, PatchEnds(l, p).1, m.to)
    && diffs == LinkChanges(l, m)
    && (diffs == [] <==> OnlyKeyDiffers(l, m))
    && m.modifiedAt == if diffs == [] then l.modifiedAt else now
  }

  lemma LinkStages(fields: Fields, patch: Fields)
    ensures var (f1, d1) := Merged(fields, patch, LinkHead(), "");
            var (f2, d2) := Merged(f1, patch, LinkTail(), "");
            && f2 == Merged(fields, patch, LinkFields(), "").0 && TakesPatch(fields, patch, LinkFields(), f2)
            && d1 == Differences(fields, f2, LinkHead(), "") && d2 == Differences(fields, f2, LinkTail(), "")
            && (d1 == d2 == [] <==> forall name :: name != "psk" ==> Get(f2, name) == Get(fields, name))
  {
    LinkFieldsDistinct();
    MergedTakesPatch(fields, patch, LinkFields(), "");
    LinkSilence();
    hide *;
    var (f1, d1) := Merged(fields, patch, LinkHead(), "");
    var (f2, d2) := Merged(f1, patch, LinkTail(), "");
    JoinedStages(fields, patch, [], LinkHead(), LinkTail());
    MergedNothing(fields, patch);
    assert [] + LinkHead() + LinkTail() == LinkHead() + LinkTail();
    NothingReported(fields, f2, LinkHead(), "");
    NothingReported(fields, f2, LinkTail(), "");
    UnlistedStay(fields, patch, f2);
  }

  /** The key is the only silent field of a link. */
  lemma LinkSilence()
    ensures LinkFields() == LinkHead() + LinkTail()
    ensures forall i :: 0 <= i < |LinkFields()| ==> (LinkFields()[i].kind == Silent <==> LinkFields()[i].name == "psk")
  {
  }

  lemma UnlistedStay(fields: Fields, patch: Fields, after: Fields)
    requires TakesPatch(fields, patch, LinkFields(), after)
    ensures (forall name :: name != "psk" ==> Get(after, name) == Get(fields, name)) <==>
            (&& (forall i :: 0 <= i < |LinkHead()| && LinkHead()[i].kind != Silent ==>
                   Get(fields, LinkHead()[i].name) == Get(after, LinkHead()[i].name))
             && (forall i :: 0 <= i < |LinkTail()| && LinkTail()[i].kind != Silent ==>
                   Get(fields, LinkTail()[i].name) == Get(after, LinkTail()[i].name)))
  {
    LinkSilence();
    var a, b := LinkHead(), LinkTail();
    hide LinkHead, LinkTail, LinkFields;
    var all := LinkFields();
    assert forall i :: 0 <= i < |a| ==> all[i] == a[i];
    assert forall i :: 0 <= i < |b| ==> all[|a| + i] == b[i];
    forall name | !Names(all, name) ensures Get(after, name) == Get(fields, name) { }
  }

  lemma EndIsMerged(e: End, p: EndPatch, prefix: string)
    ensures var (m, diffs) := MergedEnd(e, p, prefix);
            && IsMergedEnd(e, p, m) && diffs == Differences(e.fields, m.fields, EndFields(), prefix)
            && (diffs == [] <==> m == e)
  {
    EndReports(e, p, prefix);
    MergedTakesPatch(e.fields, p.fields, EndFields(), prefix);
    assert forall i :: 0 <= i < |EndFields()| ==> EndFields()[i].kind != Silent;
    UnreportedStays(e.fields, p.fields, EndFields(), prefix);
    NoDifferences(e.fields, EndFields(), prefix);
    hide Merged, EndFields, Differences, TakesPatch;
  }

  lemma LinkIsMerged(l: Link, p: LinkPatch, now: int)
    ensures var (m, diffs) := MergedLink(l, p, now); IsMergedLink(l, p, now, m, diffs)
  {
    LinkStages(l.fields, p.fields);
    EndIsMerged(l.from, PatchEnds(l, p).0, "from.");
    EndIsMerged(l.to, PatchEnds(l, p).1, "to.");
    hide Merged, MergedList, MergedEnd, LinkHead, LinkTail, LinkFields, EndFields, Differences, TakesPatch, IsReversed,
      IsMergedEnd;
  }

  method MergeLinkEnd(target: End, p: EndPatch, prefix: string, before: seq<Diff>) returns (e: End, diffs: seq<Diff>)
    ensures e == MergedEnd(target, p, prefix).0 && diffs == before + MergedEnd(target, p, prefix).1
  {
    hide Merged, EndFields;
    var fields;
    fields, diffs := MergeFields(target.fields, p.fields, EndFields(), prefix, before);
    e := target.(fields := fields);
  }

  method MergeLink(target: Link, p: LinkPatch, now: int) returns (link: Link, diffs: seq<Diff>)
    ensures (link, diffs) == MergedLink(target, p, now)
    ensures IsMergedLink(target, p, now, link, diffs)
  {
    LinkIsMerged(target, p, now);
    hide IsMergedLink, Merged, MergedList, MergedEnd, LinkHead, LinkTail, ListReport, SameName;
    var isReversed := SameName(target.from.name, p.to.name) && SameName(target.to.name, p.from.name);
    var patchFrom, patchTo := p.from, p.to;
    if isReversed {
      patchFrom, patchTo := patchTo, patchFrom;
    }
    var fields, tags, from, to;
    fields, diffs := MergeFields(target.fields, p.fields, LinkHead(), "", []);
    assert diffs == Merged(target.fields, p.fields, LinkHead(), "").1;
    tags, diffs := MergeList(target.tags, p.tags, "tags", TagEqual, diffs);
    fields, diffs := MergeFields(fields, p.fields, LinkTail(), "", diffs);
    from, diffs := MergeLinkEnd(target.from, patchFrom, "from.", diffs);
    to, diffs := MergeLinkEnd(target.to, patchTo, "to.", diffs);
    link := Link(from, to, fields, tags, target.modifiedAt);
    if |diffs| > 0 {
      link := link.(modifiedAt := now);
    }
  }

  function Swapped(p: LinkPatch): LinkPatch {
    p.(from := p.to, to := p.from)
  }

  predicate IsLoop(l: Link) {
    SameName(l.from.name, l.to.name)
  }

  lemma EndReports(e: End, p: EndPatch, prefix: string)
    ensures var (r, diffs) := MergedEnd(e, p, prefix);
            diffs == Differences(e.fields, r.fields, EndFields(), prefix)
  {
    EndFieldsDistinct();
    MergeReports(e.fields, p.fields, EndFields(), prefix);
    hide EndFields, Merged, Differences;
  }

  /** A patch with its ends swapped gives the same link and reports the same changes, exactly when
      the link is no loop, or both end patches do the same to each end. */
  lemma SwappedPatchMergesAlike(l: Link, p: LinkPatch, now: int)
    requires LinkMatches(l, p)
    ensures LinkMatches(l, Swapped(p))
    ensures MergedLink(l, p, now) == MergedLink(l, Swapped(p), now) <==>
            (!IsLoop(l)
             || (MergedEnd(l.from, p.from, "from.").0 == MergedEnd(l.from, p.to, "from.").0
                 && MergedEnd(l.to, p.from, "to.").0 == MergedEnd(l.to, p.to, "to.").0))
  {
    EndReports(l.from, p.from, "from.");
    EndReports(l.from, p.to, "from.");
    EndReports(l.to, p.from, "to.");
    EndReports(l.to, p.to, "to.");
    hide Merged, MergedList, MergedEnd, LinkHead, LinkTail, EndFields, Differences, ListReport, ToLower;
    assert IsLoop(l) ==> IsReversed(l, p) && IsReversed(l, Swapped(p));
    assert !IsLoop(l) ==> (IsReversed(l, p) <==> !IsReversed(l, Swapped(p)));
  }

  /** On a link from node a to itself, a note for one end of the patch goes to the other end when the
      patch is swapped. */
  lemma LoopPatchDiffers(now: int)
    ensures var l := Link(End("a", map[]), End("a", map[]), map[], [], 0);
            var nothing := ListPatch(None, None, None);
            var p := LinkPatch(EndPatch("a", map["note" := Plain("x")]), EndPatch("a", map[]), map[], nothing);
            LinkMatches(l, p) && MergedLink(l, p, now) != MergedLink(l, Swapped(p), now)
  {
    var l := Link(End("a", map[]), End("a", map[]), map[], [], 0);
    var p := LinkPatch(EndPatch("a", map["note" := Plain("x")]), EndPatch("a", map[]), map[],
                       ListPatch(None, None, None));
    SwappedPatchMergesAlike(l, p, now);
    EndIsMerged(l.from, p.from, "from.");
    EndIsMerged(l.from, p.to, "from.");
    assert Names(EndFields(), "note") by { assert EndFields()[17].name == "note"; }
    hide MergedLink, MergedEnd, EndFields, Differences;
    assert Get(MergedEnd(l.from, p.from, "from.").0.fields, "note") == Plain("x");
    assert Get(MergedEnd(l.from, p.to, "from.").0.fields, "note") == Unset;
  }

  /** A patch that only changes the pre-shared key changes the link, but reports nothing and does
      not mark the link as modified. */
  lemma KeyChangeIsSilent(l: Link, p: LinkPatch, now: int, key: Value)
    requires p.fields == map["psk" := key] && key != Get(l.fields, "psk")
    requires !IsPatched(p.tags) && p.from.fields == map[] && p.to.fields == map[]
    ensures MergedLink(l, p, now) == (l.(fields := l.fields["psk" := key]), [])
  {
    NothingPatched(l.fields, p.fields, LinkHead(), "");
    NothingPatched(l.from.fields, map[], EndFields(), "from.");
    NothingPatched(l.to.fields, map[], EndFields(), "to.");
    OnlyKey(l.fields, key);
    hide Merged, EndFields, LinkHead, LinkTail;
  }

  lemma {:induction false} NothingPatched(target: Fields, patch: Fields, fields: seq<Field>, prefix: string)
    requires forall i :: 0 <= i < |fields| ==> fields[i].name !in patch
    ensures Merged(target, patch, fields, prefix) == (target, [])
  {
    if fields != [] {
      assert fields[|fields| - 1].name !in patch;
      NothingPatched(target, patch, fields[..|fields| - 1], prefix);
    }
  }

  lemma OnlyKey(target: Fields, key: Value)
    requires key != Get(target, "psk")
    ensures Merged(target, map["psk" := key], LinkTail(), "") == (target["psk" := key], [])
  {
    var patch: Fields := map["psk" := key];
    var two := [Field("assign_ipv4", Shown), Field("disable_bfd", Shown)];
    var secret, note := Field("psk", Silent), Field("note", Shown);
    assert "assign_ipv4" !in patch && "disable_bfd" !in patch && "note" !in patch;
    NothingPatched(target, patch, two, "");
    assert LinkTail() == two + [secret] + [note];
    hide Merged;
    var none: seq<Diff> := [];
    assert none + ReportOf(secret, "", Get(target, "psk"), key) == none;
    assert Patches(target, patch, "psk");
  }

  // ----- Applying a whole patch -----

  /** A reported node or link: its names, whether it is new, and its changes. */
  datatype Report = Report(names: seq<string>, isNew: bool, changes: seq<Diff>)

  datatype Summary = Summary(added: nat, modified: nat, total: nat)

  function TotalOf(reports: seq<Report>): nat {
    if reports == [] then 0 else TotalOf(reports[..|reports| - 1]) + |reports[|reports| - 1].changes|
  }

  function CountOf(reports: seq<Report>, isNew: bool): nat {
    if reports == [] then 0
    else CountOf(reports[..|reports| - 1], isNew) + if reports[|reports| - 1].isNew == isNew then 1 else 0
  }

  /** The summary counts the reports and their changes. */
  predicate Sums(s: Summary, reports: seq<Report>) {
    s.added == CountOf(reports, true) && s.modified == CountOf(reports, false) && s.total == TotalOf(reports)
  }

  predicate Distinct(names: seq<string>) {
    forall i, j :: 0 <= i < j < |names| ==> names[i] != names[j]
  }

  predicate Reported(reports: seq<Report>, name: string) {
    exists r :: r in reports && name in r.names
  }

  /** Every reported name once. */
  ghost predicate Affects(affected: seq<string>, reports: seq<Report>) {
    Distinct(affected) && forall name :: name in affected <==> Reported(reports, name)
  }

  method AddAffected(affected: seq<string>, name: string) returns (r: seq<string>)
    requires Distinct(affected)
    ensures Distinct(r) && forall x :: x in r <==> x in affected || x == name
  {
    r := if name in affected then affected else affected + [name];
  }

  lemma SumsGrow(s: Summary, reports: seq<Report>, r: Report)
    requires Sums(s, reports)
    ensures Sums(Summary(s.added + (if r.isNew then 1 else 0), s.modified + (if r.isNew then 0 else 1),
                         s.total + |r.changes|), reports + [r])
  {
    assert (reports + [r])[..|reports|] == reports;
  }

  lemma AffectsGrow(affected: seq<string>, more: seq<string>, reports: seq<Report>, r: Report)
    requires Affects(affected, reports) && Distinct(more)
    requires forall x :: x in more <==> x in affected || x in r.names
    ensures Affects(more, reports + [r])
  {
    forall name ensures Reported(reports + [r], name) <==> Reported(reports, name) || name in r.names {
      if Reported(reports, name) {
        var q :| q in reports && name in q.names;
        assert q in reports + [r];
      }
      assert r in reports + [r];
    }
  }

  /** The first node of a name up to case, or -1. */
  function FirstNode(nodes: seq<Node>, name: string): (r: int)
    ensures -1 <= r < |nodes| && (r >= 0 ==> SameName(nodes[r].name, name))
  {
    if nodes == [] then -1
    else
      var i := FirstNode(nodes[..|nodes| - 1], name);
      if i >= 0 then i else if SameName(nodes[|nodes| - 1].name, name) then |nodes| - 1 else -1
  }

  method FindNode(nodes: seq<Node>, name: string) returns (i: int)
    ensures i == FirstNode(nodes, name)
  {
    hide ToLower, SameName;
    i := 0;
    assert nodes[..0] == [];
    while i < |nodes|
      invariant 0 <= i <= |nodes| && FirstNode(nodes[..i], name) == -1
    {
      assert nodes[..i + 1][..i] == nodes[..i];
      if SameName(nodes[i].name, name) {
        FirstInPrefix(nodes, name, i + 1);
        return;
      }
      i := i + 1;
    }
    assert nodes[..i] == nodes;
    i := -1;
  }

  lemma {:induction false} FirstInPrefix(nodes: seq<Node>, name: string, n: nat)
    requires n <= |nodes| && FirstNode(nodes[..n], name) >= 0
    ensures FirstNode(nodes, name) == FirstNode(nodes[..n], name)
  {
    hide SameName;
    if n == |nodes| {
      assert nodes[..n] == nodes;
    } else {
      var rest := nodes[..|nodes| - 1];
      assert rest[..n] == nodes[..n];
      FirstInPrefix(rest, name, n);
    }
  }

  /** The link a patch means: the first with its two ends, in either order; or -1. */
  function FirstLink(links: seq<Link>, p: LinkPatch): (r: int)
    ensures -1 <= r < |links| && (r >= 0 ==> LinkMatches(links[r], p))
  {
    if links == [] then -1
    else
      var i := FirstLink(links[..|links| - 1], p);
      if i >= 0 then i else if LinkMatches(links[|links| - 1], p) then |links| - 1 else -1
  }

  method FindLink(links: seq<Link>, p: LinkPatch) returns (i: int)
    ensures i == FirstLink(links, p)
  {
    hide LinkMatches;
    i := 0;
    assert links[..0] == [];
    while i < |links|
      invariant 0 <= i <= |links| && FirstLink(links[..i], p) == -1
    {
      assert links[..i + 1][..i] == links[..i];
      if LinkMatches(links[i], p) {
        FirstLinkInPrefix(links, p, i + 1);
        return;
      }
      i := i + 1;
    }
    assert links[..i] == links;
    i := -1;
  }

  lemma {:induction false} FirstLinkInPrefix(links: seq<Link>, p: LinkPatch, n: nat)
    requires n <= |links| && FirstLink(links[..n], p) >= 0
    ensures FirstLink(links, p) == FirstLink(links[..n], p)
  {
    hide LinkMatches;
    if n == |links| {
      assert links[..n] == links;
    } else {
      var rest := links[..|links| - 1];
      assert rest[..n] == links[..n];
      FirstLinkInPrefix(rest, p, n);
    }
  }

  /** A swapped patch means the same link. */
  lemma {:induction false} SwappedMeansSame(links: seq<Link>, p: LinkPatch)
    ensures FirstLink(links, Swapped(p)) == FirstLink(links, p)
  {
    hide ToLower;
    if links != [] {
      SwappedMeansSame(links[..|links| - 1], p);
    }
  }

  /** The first node of the patch's name is merged; without one, a node is appended. */
  function AfterNodePatch(nodes: seq<Node>, p: NodePatch, now: int, routeEqual: (string, string) -> bool): seq<Node> {
    var i := FirstNode(nodes, p.name);
    if i < 0 then nodes + [CreatedNode(p, now, routeEqual)]
    else nodes[i := MergedNode(nodes[i], p, now, routeEqual).0]
  }

  function AfterNodePatches(nodes: seq<Node>, patches: seq<NodePatch>, now: int,
                            routeEqual: (string, string) -> bool): seq<Node>
  {
    if patches == [] then nodes
    else AfterNodePatch(AfterNodePatches(nodes, patches[..|patches| - 1], now, routeEqual), patches[|patches| - 1],
                        now, routeEqual)
  }

  /** Nodes are only added at the end and keep their names. */
  ghost predicate NodesGrow(before: seq<Node>, after: seq<Node>, added: nat) {
    |after| == |before| + added && forall i :: 0 <= i < |before| ==> after[i].name == before[i].name
  }

  method ApplyNodes(nodes: seq<Node>, patches: seq<NodePatch>, now: int, routeEqual: (string, string) -> bool)
    returns (after: seq<Node>, reports: seq<Report>, s: Summary, affected: seq<string>)
    ensures after == AfterNodePatches(nodes, patches, now, routeEqual) && NodesGrow(nodes, after, s.added)
    ensures Sums(s, reports) && Affects(affected, reports)
  {
    hide AfterNodePatch, Affects, Sums;
    after, reports, s, affected := nodes, [], Summary(0, 0, 0), [];
    NothingReportedYet();
    assert patches[..0] == [];
    var i := 0;
    while i < |patches|
      invariant 0 <= i <= |patches|
      invariant after == AfterNodePatches(nodes, patches[..i], now, routeEqual) && NodesGrow(nodes, after, s.added)
      invariant Sums(s, reports) && Affects(affected, reports)
    {
      assert patches[..i + 1][..i] == patches[..i];
      after, reports, s, affected := ApplyNode(after, patches[i], now, routeEqual, reports, s, affected);
      i := i + 1;
    }
    assert patches[..i] == patches;
  }

  lemma NothingReportedYet()
    ensures Sums(Summary(0, 0, 0), []) && Affects([], [])
  {
  }

  /** A summary with one more report, and its names among the affected ones. */
  method AddReport(r: Report, reports0: seq<Report>, s0: Summary, affected0: seq<string>)
    returns (reports: seq<Report>, s: Summary, affected: seq<string>)
    requires Sums(s0, reports0) && Affects(affected0, reports0) && 1 <= |r.names| <= 2
    ensures Sums(s, reports) && Affects(affected, reports)
    ensures reports == reports0 + [r] && s.added == s0.added + if r.isNew then 1 else 0
  {
    reports := reports0 + [r];
    s := Summary(s0.added + (if r.isNew then 1 else 0), s0.modified + (if r.isNew then 0 else 1), s0.total + |r.changes|);
    SumsGrow(s0, reports0, r);
    hide Sums;
    affected := AddAffected(affected0, r.names[0]);
    if |r.names| == 2 {
      affected := AddAffected(affected, r.names[1]);
    }
    forall x ensures x in r.names <==> x == r.names[0] || (|r.names| == 2 && x == r.names[1]) {
      assert r.names[0] in r.names;
    }
    AffectsGrow(affected0, affected, reports0, r);
  }

  method ApplyNode(nodes: seq<Node>, p: NodePatch, now: int, routeEqual: (string, string) -> bool,
                   reports0: seq<Report>, s0: Summary, affected0: seq<string>)
    returns (after: seq<Node>, reports: seq<Report>, s: Summary, affected: seq<string>)
    requires Sums(s0, reports0) && Affects(affected0, reports0)
    ensures after == AfterNodePatch(nodes, p, now, routeEqual)
    ensures s.added >= s0.added && NodesGrow(nodes, after, s.added - s0.added)
    ensures Sums(s, reports) && Affects(affected, reports)
  {
    hide MergedNode, CreatedNode, Sums, Affects, SameName, FirstNode;
    reports, s, affected := reports0, s0, affected0;
    var existingIdx := FindNode(nodes, p.name);
    if existingIdx >= 0 {
      var node, diffs := MergeNode(nodes[existingIdx], p, now, routeEqual);
      after := nodes[existingIdx := node];
      MergedKeepsName(nodes[existingIdx], p, now, routeEqual);
      if |diffs| > 0 {
        reports, s, affected := AddReport(Report([p.name], false, diffs), reports, s, affected);
      }
    } else {
      var node, diffs := CreateNodeFromPatch(p, now, routeEqual);
      after := nodes + [node];
      reports, s, affected := AddReport(Report([p.name], true, diffs), reports, s, affected);
    }
  }

  lemma MergedKeepsName(n: Node, p: NodePatch, now: int, routeEqual: (string, string) -> bool)
    ensures MergedNode(n, p, now, routeEqual).0.name == n.name
  {
    hide Merged, MergedList;
  }

  function CreatedLink(p: LinkPatch, now: int): Link {
    Link(MergedEnd(End(p.from.name, map[]), p.from, "from.").0, MergedEnd(End(p.to.name, map[]), p.to, "to.").0,
         Merged(map[], p.fields, LinkHead() + LinkTail(), "").0, MergedList([], p.tags, TagEqual), now)
  }

  /** A new link has the patch's ends, fields and tags, and nothing else. */
  ghost predicate IsCreatedLink(p: LinkPatch, now: int, m: Link) {
    && m.from.name == p.from.name && TakesPatch(map[], p.from.fields, EndFields(), m.from.fields)
    && m.to.name == p.to.name && TakesPatch(map[], p.to.fields, EndFields(), m.to.fields)
    && TakesPatch(map[], p.fields, LinkFields(), m.fields)
    && m.tags == MergedList([], p.tags, TagEqual) && m.modifiedAt == now
  }

  lemma LinkIsCreated(p: LinkPatch, now: int)
    ensures IsCreatedLink(p, now, CreatedLink(p, now))
  {
    MergedTakesPatch(map[], p.from.fields, EndFields(), "from.");
    MergedTakesPatch(map[], p.to.fields, EndFields(), "to.");
    MergedTakesPatch(map[], p.fields, LinkFields(), "");
    hide Merged, MergedList, LinkHead, LinkTail, EndFields, TakesPatch;
  }

  method CreateLinkFromPatch(p: LinkPatch, now: int) returns (link: Link, diffs: seq<Diff>)
    ensures link == CreatedLink(p, now) && IsCreatedLink(p, now, link)
    ensures diffs == [Diff("", "link", Unset, Plain(p.from.name + " <-> " + p.to.name))]
  {
    LinkIsCreated(p, now);
    hide IsCreatedLink, Merged, MergedList, MergedEnd, LinkHead, LinkTail;
    var fields, tags, from, to;
    var dummy := [];
    fields, dummy := MergeFields(map[], p.fields, LinkHead() + LinkTail(), "", []);
    tags, dummy := MergeList([], p.tags, "tags", TagEqual, []);
    from, dummy := MergeLinkEnd(End(p.from.name, map[]), p.from, "from.", []);
    to, dummy := MergeLinkEnd(End(p.to.name, map[]), p.to, "to.", []);
    link := Link(from, to, fields, tags, now);
    diffs := [Diff("", "link", Unset, Plain(p.from.name + " <-> " + p.to.name))];
  }

  /** The links after a patch; a new link needs both its nodes. */
  function AfterLinkPatch(links: seq<Link>, nodes: seq<Node>, p: LinkPatch, now: int): Option<seq<Link>> {
    var i := FirstLink(links, p);
    if i >= 0 then Some(links[i := MergedLink(links[i], p, now).0])
    else if FirstNode(nodes, p.from.name) < 0 || FirstNode(nodes, p.to.name) < 0 then None
    else Some(links + [CreatedLink(p, now)])
  }

  function AfterLinkPatches(links: seq<Link>, nodes: seq<Node>, patches: seq<LinkPatch>, now: int): Option<seq<Link>> {
    if patches == [] then Some(links)
    else match AfterLinkPatches(links, nodes, patches[..|patches| - 1], now)
      case None => None
      case Some(before) => AfterLinkPatch(before, nodes, patches[|patches| - 1], now)
  }

  lemma {:induction false} FailedPrefix(links: seq<Link>, nodes: seq<Node>, patches: seq<LinkPatch>, now: int, n: nat)
    requires n <= |patches| && AfterLinkPatches(links, nodes, patches[..n], now) == None
    ensures AfterLinkPatches(links, nodes, patches, now) == None
  {
    hide AfterLinkPatch;
    if n == |patches| {
      assert patches[..n] == patches;
    } else {
      var rest := patches[..|patches| - 1];
      assert rest[..n] == patches[..n];
      FailedPrefix(links, nodes, rest, now, n);
    }
  }

  method ApplyLinks(links: seq<Link>, nodes: seq<Node>, patches: seq<LinkPatch>, now: int, affected0: seq<string>,
                    nodeReports: seq<Report>)
    returns (after: Option<seq<Link>>, reports: seq<Report>, s: Summary, affected: seq<string>)
    requires Affects(affected0, nodeReports)
    ensures after == AfterLinkPatches(links, nodes, patches, now)
    ensures after.Some? ==> |after.value| == |links| + s.added
    ensures Sums(s, reports) && (after.Some? ==> Affects(affected, nodeReports + reports))
  {
    hide AfterLinkPatch, Affects, Sums;
    var current := links;
    reports, s, affected := [], Summary(0, 0, 0), affected0;
    NothingReportedYet();
    assert patches[..0] == [] && nodeReports + [] == nodeReports;
    var i := 0;
    while i < |patches|
      invariant 0 <= i <= |patches|
      invariant AfterLinkPatches(links, nodes, patches[..i], now) == Some(current)
      invariant |current| == |links| + s.added
      invariant Sums(s, reports) && Affects(affected, nodeReports + reports)
    {
      assert patches[..i + 1][..i] == patches[..i];
      var next;
      next, reports, s, affected := ApplyLink(current, nodes, patches[i], now, reports, s, affected, nodeReports);
      if next.None? {
        FailedPrefix(links, nodes, patches, now, i + 1);
        return None, reports, s, affected;
      }
      current := next.value;
      i := i + 1;
    }
    assert patches[..i] == patches;
    after := Some(current);
  }

  method ApplyLink(links: seq<Link>, nodes: seq<Node>, p: LinkPatch, now: int, reports0: seq<Report>, s0: Summary,
                   affected0: seq<string>, nodeReports: seq<Report>)
    returns (after: Option<seq<Link>>, reports: seq<Report>, s: Summary, affected: seq<string>)
    requires Sums(s0, reports0) && Affects(affected0, nodeReports + reports0)
    ensures after == AfterLinkPatch(links, nodes, p, now)
    ensures s.added >= s0.added && (after.Some? ==> |after.value| == |links| + s.added - s0.added)
    ensures Sums(s, reports) && Affects(affected, nodeReports + reports)
  {
    hide MergedLink, CreatedLink, Sums, Affects, LinkMatches, FirstLink, FirstNode, SameName;
    reports, s, affected := reports0, s0, affected0;
    var existingIdx := FindLink(links, p);
    if existingIdx >= 0 {
      var link, diffs := MergeLink(links[existingIdx], p, now);
      after := Some(links[existingIdx := link]);
      if |diffs| > 0 {
        reports, s, affected :=
          AddLinkReport(Report([p.from.name, p.to.name], false, diffs), reports, s, affected, nodeReports);
      }
    } else {
      var fromIdx := FindNode(nodes, p.from.name);
      if fromIdx < 0 {
        return None, reports, s, affected;
      }
      var toIdx := FindNode(nodes, p.to.name);
      if toIdx < 0 {
        return None, reports, s, affected;
      }
      var link, diffs := CreateLinkFromPatch(p, now);
      after := Some(links + [link]);
      reports, s, affected :=
        AddLinkReport(Report([p.from.name, p.to.name], true, diffs), reports, s, affected, nodeReports);
    }
  }

  method AddLinkReport(r: Report, reports0: seq<Report>, s0: Summary, affected0: seq<string>, nodeReports: seq<Report>)
    returns (reports: seq<Report>, s: Summary, affected: seq<string>)
    requires Sums(s0, reports0) && Affects(affected0, nodeReports + reports0) && |r.names| == 2
    ensures Sums(s, reports) && Affects(affected, nodeReports + reports)
    ensures s.added == s0.added + if r.isNew then 1 else 0
  {
    reports := reports0 + [r];
    s := Summary(s0.added + (if r.isNew then 1 else 0), s0.modified + (if r.isNew then 0 else 1), s0.total + |r.changes|);
    SumsGrow(s0, reports0, r);
    hide Sums;
    affected := AddAffected(affected0, r.names[0]);
    affected := AddAffected(affected, r.names[1]);
    forall x ensures x in r.names <==> x == r.names[0] || x == r.names[1] {
      assert r.names[0] in r.names;
    }
    AffectsGrow(affected0, affected, nodeReports + reports0, r);
    assert nodeReports + reports0 + [r] == nodeReports + (reports0 + [r]);
  }

  // ----- Settings -----

  /** The four groups of settings, in the order they are applied. */
  function SettingsFields(): (r: seq<(string, seq<Field>)>)
    ensures |r| == 4
  {
    [("network_settings", ShownFields(["name", "public_asn", "prefixes", "disallowed_dn42_networks",
                                       "disallowed_dn42_cidrs", "flapalerted_address", "flapalerted_port",
                                       "flapalerted_asn", "flapalerted_url"])),
     ("database", ShownFields(["retention_days", "raw_retention_days"])),
     ("dns", [Field("zone_id", Shown), Field("api_token", Masked), Field("base_domain", Shown),
              Field("publish_ipv6_own_name", Shown)]),
     ("integrations", [Field("prometheus_enabled", Shown), Field("prometheus_auth_token", Masked),
                       Field("telegram_enabled", Shown), Field("telegram_bot_token", Masked),
                       Field("telegram_admin_id", Shown), Field("telegram_secret_token", Masked),
                       Field("server_url", Shown)])]
  }

  type Settings = s: seq<Fields> | |s| == 4 witness [map[], map[], map[], map[]]

  type SettingsPatch = s: seq<Option<Fields>> | |s| == 4 witness [None, None, None, None]

  function MergedGroup(fields: Fields, p: Option<Fields>, i: nat): (Fields, seq<Diff>)
    requires i < 4
  {
    match p
    case None => (fields, [])
    case Some(patch) => Merged(fields, patch, SettingsFields()[i].1, "")
  }

  /** The groups with changes, and how many changes there are. */
  function SettingsReports(settings: Settings, p: SettingsPatch, n: nat): (seq<Report>, nat)
    requires n <= 4
  {
    if n == 0 then ([], 0)
    else
      var (reports, total) := SettingsReports(settings, p, n - 1);
      var diffs := MergedGroup(settings[n - 1], p[n - 1], n - 1).1;
      if diffs == [] then (reports, total)
      else (reports + [Report([SettingsFields()[n - 1].0], false, diffs)], total + |diffs|)
  }

  lemma {:induction false} SettingsTotal(settings: Settings, p: SettingsPatch, n: nat)
    requires n <= 4
    ensures var (reports, total) := SettingsReports(settings, p, n); total == TotalOf(reports)
  {
    hide MergedGroup, SettingsFields;
    if n > 0 {
      SettingsTotal(settings, p, n - 1);
      var (reports, total) := SettingsReports(settings, p, n - 1);
      var r := Report([SettingsFields()[n - 1].0], false, MergedGroup(settings[n - 1], p[n - 1], n - 1).1);
      assert (reports + [r])[..|reports|] == reports;
    }
  }

  function AfterSettings(settings: Settings, p: SettingsPatch): (r: Settings)
    ensures |r| == 4 && forall i :: 0 <= i < 4 ==> r[i] == MergedGroup(settings[i], p[i], i).0
  {
    seq(4, i requires 0 <= i < 4 => MergedGroup(settings[i], p[i], i).0)
  }

  lemma Group0Distinct()
    ensures DistinctNames(SettingsFields()[0].1)
  {
    var codes := FieldCodes(SettingsFields()[0].1);
    assert codes == [4110101, 10112110, 8112115, 24100115, 21100115, 19102115, 16102116, 15102110, 15102108];
    hide Code, SettingsFields, FieldCodes;
    DistinctByCode(SettingsFields()[0].1);
  }

  lemma Group1Distinct()
    ensures DistinctNames(SettingsFields()[1].1)
  {
    var codes := FieldCodes(SettingsFields()[1].1);
    assert codes == [14114115, 18114115];
    hide Code, SettingsFields, FieldCodes;
    DistinctByCode(SettingsFields()[1].1);
  }

  lemma Group2Distinct()
    ensures DistinctNames(SettingsFields()[2].1)
  {
    var codes := FieldCodes(SettingsFields()[2].1);
    assert codes == [7122100, 9097110, 11098110, 21112101];
    hide Code, SettingsFields, FieldCodes;
    DistinctByCode(SettingsFields()[2].1);
  }

  lemma Group3Distinct()
    ensures DistinctNames(SettingsFields()[3].1)
  {
    var codes := FieldCodes(SettingsFields()[3].1);
    assert codes == [18112100, 21112110, 16116100, 18116110, 17116100, 21116110, 10115108];
    hide Code, SettingsFields, FieldCodes;
    DistinctByCode(SettingsFields()[3].1);
  }

  lemma SettingsAreDistinct(i: nat)
    requires i < 4
    ensures DistinctNames(SettingsFields()[i].1)
  {
    Group0Distinct();
    Group1Distinct();
    Group2Distinct();
    Group3Distinct();
    hide SettingsFields;
  }

  /** The groups in which something changed, with all their changes; secrets are masked. */
  function ChangedGroups(before: Settings, after: Settings, n: nat): seq<Report>
    requires n <= 4
  {
    if n == 0 then []
    else
      var diffs := Differences(before[n - 1], after[n - 1], SettingsFields()[n - 1].1, "");
      ChangedGroups(before, after, n - 1)
      + if diffs == [] then [] else [Report([SettingsFields()[n - 1].0], false, diffs)]
  }

  lemma GroupIsMerged(fields: Fields, p: Option<Fields>, i: nat)
    requires i < 4
    ensures var (after, diffs) := MergedGroup(fields, p, i);
            && TakesPatch(fields, if p.Some? then p.value else map[], SettingsFields()[i].1, after)
            && diffs == Differences(fields, after, SettingsFields()[i].1, "")
  {
    SettingsAreDistinct(i);
    NoDifferences(fields, SettingsFields()[i].1, "");
    match p
    case None =>
    case Some(patch) =>
      MergedTakesPatch(fields, patch, SettingsFields()[i].1, "");
      MergeReports(fields, patch, SettingsFields()[i].1, "");
    hide SettingsFields, Merged, Differences, Names;
  }

  /** Every group holds its patch's values, and the report lists exactly the groups that changed. */
  lemma {:induction false} SettingsAreMerged(settings: Settings, p: SettingsPatch, n: nat)
    requires n <= 4
    ensures var after := AfterSettings(settings, p);
            && (forall i :: 0 <= i < n ==>
                  TakesPatch(settings[i], if p[i].Some? then p[i].value else map[], SettingsFields()[i].1, after[i]))
            && SettingsReports(settings, p, n).0 == ChangedGroups(settings, after, n)
  {
    hide SettingsFields, MergedGroup, Differences, TakesPatch;
    if n > 0 {
      SettingsAreMerged(settings, p, n - 1);
      GroupIsMerged(settings[n - 1], p[n - 1], n - 1);
      var reports := ChangedGroups(settings, AfterSettings(settings, p), n - 1);
      assert reports + [] == reports;
    }
  }

  /** One group of settings, if the patch has it. */
  method MergeGroup(fields: Fields, p: Option<Fields>, i: nat) returns (after: Fields, diffs: seq<Diff>)
    requires i < 4
    ensures (after, diffs) == MergedGroup(fields, p, i)
  {
    hide Merged, SettingsFields;
    match p {
      case None =>
        after, diffs := fields, [];
      case Some(patch) =>
        after, diffs := MergeFields(fields, patch, SettingsFields()[i].1, "", []);
        assert diffs == Merged(fields, patch, SettingsFields()[i].1, "").1;
    }
  }

  method ApplySettings(settings: Settings, p: SettingsPatch)
    returns (after: Settings, reports: seq<Report>, total: nat)
    ensures after == AfterSettings(settings, p) && total == TotalOf(reports)
    ensures reports == SettingsReports(settings, p, 4).0 == ChangedGroups(settings, after, 4)
    ensures forall i :: 0 <= i < 4 ==>
      TakesPatch(settings[i], if p[i].Some? then p[i].value else map[], SettingsFields()[i].1, after[i])
  {
    hide MergedGroup, SettingsFields, ChangedGroups, TakesPatch, TotalOf;
    var current: seq<Fields> := [];
    reports, total := [], 0;
    var i := 0;
    while i < 4
      invariant 0 <= i <= 4 && |current| == i
      invariant forall k :: 0 <= k < i ==> current[k] == MergedGroup(settings[k], p[k], k).0
      invariant (reports, total) == SettingsReports(settings, p, i)
    {
      var fields, diffs := MergeGroup(settings[i], p[i], i);
      current := current + [fields];
      if |diffs| > 0 {
        reports := reports + [Report([SettingsFields()[i].0], false, diffs)];
        total := total + |diffs|;
      }
      i := i + 1;
    }
    assert current == AfterSettings(settings, p);
    SettingsTotal(settings, p, 4);
    SettingsAreMerged(settings, p, 4);
    hide SettingsReports, AfterSettings;
    after := current;
  }

  // ----- Integrity of the mesh -----

  function Ip6Of(n: Node): string {
    match Get(n.fields, "ip6") case Plain(text) => text case _ => ""
  }

  predicate IsExternal(n: Node) {
    Get(n.fields, "is_external") == Flag(true)
  }

  function CleanIp6(ip6: string): string {
    var s := ToLower(Trim(ip6));
    match SplitOnce(s, '/') case Some((a, _)) => a case None => s
  }

  /** The node has an IPv6 address of its own in the mesh. */
  predicate HasIp6(n: Node) {
    Ip6Of(n) != "" && !IsExternal(n)
  }

  ghost predicate UniqueNames(nodes: seq<Node>) {
    forall i, j :: 0 <= i < j < |nodes| ==> !SameName(nodes[i].name, nodes[j].name)
  }

  ghost predicate UniqueIp6(nodes: seq<Node>) {
    forall i, j :: 0 <= i < j < |nodes| && HasIp6(nodes[i]) && HasIp6(nodes[j]) ==>
      CleanIp6(Ip6Of(nodes[i])) != CleanIp6(Ip6Of(nodes[j]))
  }

  predicate IsNode(nodes: seq<Node>, name: string) {
    exists i :: 0 <= i < |nodes| && SameName(nodes[i].name, name)
  }

  ghost predicate EndsExist(nodes: seq<Node>, links: seq<Link>) {
    forall l :: l in links ==> IsNode(nodes, l.from.name) && IsNode(nodes, l.to.name)
  }

  /** The check accepts a mesh exactly when names and internal IPv6 addresses are unique and every
      link joins two nodes. */
  method ValidateMeshIntegrity(nodes: seq<Node>, links: seq<Link>) returns (ok: bool)
    ensures ok <==> UniqueNames(nodes) && UniqueIp6(nodes) && EndsExist(nodes, links)
  {
    hide ToLower, CleanIp6, HasIp6, Ip6Of;
    var seenNames: set<string> := {};
    var seenIp6: set<string> := {};
    var i := 0;
    while i < |nodes|
      invariant 0 <= i <= |nodes|
      invariant seenNames == set k | 0 <= k < i :: ToLower(nodes[k].name)
      invariant seenIp6 == set k | 0 <= k < i && HasIp6(nodes[k]) :: CleanIp6(Ip6Of(nodes[k]))
      invariant UniqueNames(nodes[..i]) && UniqueIp6(nodes[..i])
    {
      var n := nodes[i];
      var lowerName := ToLower(n.name);
      if lowerName in seenNames {
        var k :| 0 <= k < i && ToLower(nodes[k].name) == lowerName;
        assert SameName(nodes[k].name, nodes[i].name);
        return false;
      }
      seenNames := seenNames + {lowerName};
      if HasIp6(n) {
        var cleanIp6 := CleanIp6(Ip6Of(n));
        if cleanIp6 in seenIp6 {
          var k :| 0 <= k < i && HasIp6(nodes[k]) && CleanIp6(Ip6Of(nodes[k])) == cleanIp6;
          return false;
        }
        seenIp6 := seenIp6 + {cleanIp6};
      }
      i := i + 1;
    }
    assert nodes[..i] == nodes;
    ok := CheckEnds(nodes, links, seenNames);
  }

  method CheckEnds(nodes: seq<Node>, links: seq<Link>, seenNames: set<string>) returns (ok: bool)
    requires seenNames == set k | 0 <= k < |nodes| :: ToLower(nodes[k].name)
    ensures ok <==> EndsExist(nodes, links)
  {
    hide ToLower;
    forall name ensures IsNode(nodes, name) <==> ToLower(name) in seenNames {
      if IsNode(nodes, name) {
        var i :| 0 <= i < |nodes| && SameName(nodes[i].name, name);
        assert ToLower(nodes[i].name) in seenNames;
      }
      if ToLower(name) in seenNames {
        var k :| 0 <= k < |nodes| && ToLower(nodes[k].name) == ToLower(name);
        assert SameName(nodes[k].name, name);
      }
    }
    hide SameName, IsNode;
    var i := 0;
    while i < |links|
      invariant 0 <= i <= |links|
      invariant forall l :: l in links[..i] ==> IsNode(nodes, l.from.name) && IsNode(nodes, l.to.name)
    {
      var l := links[i];
      assert links[..i + 1] == links[..i] + [l] && l in links;
      if ToLower(l.from.name) !in seenNames {
        return false;
      }
      if ToLower(l.to.name) !in seenNames {
        return false;
      }
      i := i + 1;
    }
    assert links[..i] == links;
    ok := true;
  }

  // ----- The simulation -----

  datatype Patch = Patch(nodes: seq<NodePatch>, links: seq<LinkPatch>, settings: SettingsPatch)

  datatype Plan = Plan(nodes: seq<Report>, links: seq<Report>, settings: seq<Report>,
                       addedNodes: nat, modifiedNodes: nat, addedLinks: nat, modifiedLinks: nat, totalChanges: nat)

  /** The plan's counters count its reports. */
  ghost predicate Adds(plan: Plan) {
    && plan.addedNodes == CountOf(plan.nodes, true) && plan.modifiedNodes == CountOf(plan.nodes, false)
    && plan.addedLinks == CountOf(plan.links, true) && plan.modifiedLinks == CountOf(plan.links, false)
    && plan.totalChanges == TotalOf(plan.nodes) + TotalOf(plan.links) + TotalOf(plan.settings)
  }

  class Config {
    var nodes: seq<Node>
    var links: seq<Link>
    var settings: Settings

    /** Applies a patch to a clone of the configuration; a plan is only returned for a sound mesh. */
    method SimulateApply(patch: Patch, now: int, routeEqual: (string, string) -> bool)
      returns (plan: Option<Plan>, affected: seq<string>)
      modifies this
      ensures nodes == AfterNodePatches(old(nodes), patch.nodes, now, routeEqual)
      ensures var after := AfterLinkPatches(old(links), nodes, patch.links, now);
              && (plan.Some? <==> after.Some? && UniqueNames(nodes) && UniqueIp6(nodes) && EndsExist(nodes, after.value))
              && (plan.Some? ==> links == after.value && settings == AfterSettings(old(settings), patch.settings))
      ensures plan.Some? ==>
        && NodesGrow(old(nodes), nodes, plan.value.addedNodes)
        && |links| == |old(links)| + plan.value.addedLinks
        && Adds(plan.value) && Affects(affected, plan.value.nodes + plan.value.links)
        && plan.value.settings == ChangedGroups(old(settings), settings, 4)
    {
      hide AfterNodePatches, AfterLinkPatches, AfterSettings, SettingsReports, ChangedGroups, Affects, Merged;
      var nodeReports, nodeSummary;
      nodes, nodeReports, nodeSummary, affected := ApplyNodes(nodes, patch.nodes, now, routeEqual);
      var after, linkReports, linkSummary;
      after, linkReports, linkSummary, affected := ApplyLinks(links, nodes, patch.links, now, affected, nodeReports);
      if after.None? {
        return None, [];
      }
      links := after.value;
      var settingsReports, settingsTotal;
      settings, settingsReports, settingsTotal := ApplySettings(settings, patch.settings);
      var ok := ValidateMeshIntegrity(nodes, links);
      if !ok {
        return None, [];
      }
      plan := Some(Plan(nodeReports, linkReports, settingsReports,
                        nodeSummary.added, nodeSummary.modified, linkSummary.added, linkSummary.modified,
                        nodeSummary.total + linkSummary.total + settingsTotal));
    }
  }
}
