/** BGP templates: links grouped into policy variants, the definitions emitted for the variants,
    and the references from links to definitions. */
module BirdTemplates {
  import opened Wrappers
  import opened Text
  import opened Sorting

  const POLICY_DEFAULT := "default"
  const POLICY_DN42 := "dn42"
  const POLICY_NONE := "none"
  const FULL := "full"
  const STUB := "stub"
  const RECEIVE_ONLY := "receive_only"
  const ADVERTISE_ONLY := "advertise_only"
  const DEFAULT_COST := 100

  datatype Policy = Policy(id: string, cost: int, routingPolicy: string)

  datatype LinkEnd = LinkEnd(name: string, policy: string, cost: int, routingPolicy: string)

  datatype Link = Link(from: LinkEnd, to: LinkEnd)

  datatype Node = Node(name: string, isExternal: bool)

  // ----- Effective values -----

  predicate IsRoutingPolicy(p: string) {
    p == FULL || p == STUB || p == RECEIVE_ONLY || p == ADVERTISE_ONLY
  }

  predicate MeansStub(s: string) {
    || s == "stub" || s == "originate_only" || s == "originate-only" || s == "local_only" || s == "local-only"
    || s == "transit_client" || s == "transit-client"
  }

  predicate MeansReceiveOnly(s: string) {
    s == "receive_only" || s == "receive-only" || s == "import_only" || s == "import-only"
  }

  predicate MeansAdvertiseOnly(s: string) {
    s == "advertise_only" || s == "advertise-only" || s == "export_only" || s == "export-only"
  }

  function NormalizeRoutingPolicy(p: string): (r: string)
    ensures IsRoutingPolicy(r)
  {
    var s := ToLower(Trim(p));
    if MeansStub(s) then STUB
    else if MeansReceiveOnly(s) then RECEIVE_ONLY
    else if MeansAdvertiseOnly(s) then ADVERTISE_ONLY
    else FULL
  }

  function PolicyCost(p: Policy): (r: int)
    ensures r != 0
  {
    if p.cost != 0 then p.cost else DEFAULT_COST
  }

  function PolicyRouting(p: Policy): (r: string)
    ensures IsRoutingPolicy(r)
  {
    if Trim(p.routingPolicy) != "" then NormalizeRoutingPolicy(p.routingPolicy) else FULL
  }

  function EndPolicy(e: LinkEnd, remoteExternal: bool): string {
    if Trim(e.policy) != "" then Trim(e.policy)
    else if remoteExternal then POLICY_DN42
    else POLICY_DEFAULT
  }

  function EndCost(e: LinkEnd, p: Policy): (r: int)
    ensures r != 0
  {
    if e.cost != 0 then e.cost else PolicyCost(p)
  }

  function EndRouting(e: LinkEnd, p: Policy): (r: string)
    ensures IsRoutingPolicy(r)
  {
    if Trim(e.routingPolicy) != "" then NormalizeRoutingPolicy(e.routingPolicy) else PolicyRouting(p)
  }

  // ----- Policies by identifier -----

  function Builtins(): seq<Policy> {
    [Policy(POLICY_DEFAULT, 100, FULL), Policy(POLICY_DN42, 100, FULL), Policy(POLICY_NONE, 100, FULL)]
  }

  function AllPolicies(custom: seq<Policy>): seq<Policy> {
    Builtins() + custom
  }

  /** The last policy with the identifier. */
  function LastPolicy(policies: seq<Policy>, id: string): Option<Policy> {
    if policies == [] then None
    else if policies[|policies| - 1].id == id then Some(policies[|policies| - 1])
    else LastPolicy(policies[..|policies| - 1], id)
  }

  ghost predicate IsPolicyMap(m: map<string, Policy>, policies: seq<Policy>) {
    forall id :: LastPolicy(policies, id) == if id in m then Some(m[id]) else None
  }

  method BuildPolicyMap(custom: seq<Policy>) returns (m: map<string, Policy>)
    ensures IsPolicyMap(m, AllPolicies(custom))
  {
    var all := AllPolicies(custom);
    m := map[];
    var i := 0;
    while i < |all|
      invariant 0 <= i <= |all| && IsPolicyMap(m, all[..i])
    {
      assert all[..i + 1][..i] == all[..i];
      m := m[all[i].id := all[i]];
      i := i + 1;
    }
    assert all[..i] == all;
  }

  /** The lookup from the end finds the policy the map holds: custom policies take precedence. */
  method FindPolicy(custom: seq<Policy>, id: string) returns (r: Option<Policy>)
    ensures r == LastPolicy(AllPolicies(custom), id)
  {
    hide Builtins;
    var all := AllPolicies(custom);
    assert all[..|all|] == all;
    var i := |all| - 1;
    while i >= 0
      invariant -1 <= i < |all|
      invariant LastPolicy(all[..i + 1], id) == LastPolicy(all, id)
    {
      assert all[..i + 1][..i] == all[..i];
      if all[i].id == id {
        return Some(all[i]);
      }
      i := i - 1;
    }
    r := None;
  }

  lemma {:induction false} LastPolicyHas(policies: seq<Policy>, k: nat)
    requires k < |policies|
    ensures LastPolicy(policies, policies[k].id).Some?
  {
    if policies[|policies| - 1].id != policies[k].id {
      LastPolicyHas(policies[..|policies| - 1], k);
    }
  }

  /** The built-in identifiers always resolve. */
  lemma BuiltinsResolve(custom: seq<Policy>, m: map<string, Policy>)
    requires IsPolicyMap(m, AllPolicies(custom))
    ensures POLICY_DEFAULT in m && POLICY_DN42 in m && POLICY_NONE in m
  {
    var all := AllPolicies(custom);
    LastPolicyHas(all, 0);
    LastPolicyHas(all, 1);
    LastPolicyHas(all, 2);
  }

  // ----- Template names -----

  /** A variant of a template: its cost and routing policy. */
  datatype Variant = Variant(cost: int, routing: string)

  function CostSuffix(cost: int): string {
    if cost < 0 then "_cost_" + "n" + Numeral(-cost) else "_cost_" + Numeral(cost)
  }

  function RoutingPart(v: Variant, base: Variant): string {
    if v.routing != base.routing then "_" + v.routing else ""
  }

  function CostPart(v: Variant, base: Variant): string {
    if v.cost != base.cost then CostSuffix(v.cost) else ""
  }

  function VariantName(name: string, v: Variant, base: Variant): string {
    name + RoutingPart(v, base) + CostPart(v, base)
  }

  method FormatVariantTemplateName(base: string, routing: string, baseRouting: string, cost: int, baseCost: int)
    returns (name: string)
    ensures name == VariantName(base, Variant(cost, routing), Variant(baseCost, baseRouting))
  {
    if routing == baseRouting && cost == baseCost {
      return base;
    }
    name := base;
    if routing != baseRouting {
      name := name + ("_" + routing);
    }
    if cost != baseCost {
      if cost < 0 {
        name := name + ("_cost_" + "n" + Numeral(-cost));
      } else {
        name := name + ("_cost_" + Numeral(cost));
      }
    }
  }

  lemma NumeralsDiffer(a: nat, b: nat)
    requires Numeral(a) == Numeral(b)
    ensures a == b
  {
    NumeralValue(a);
    NumeralValue(b);
  }

  lemma CostSuffixShape(a: int)
    ensures var s := CostSuffix(a);
            && |s| > 6 && s[0] == '_' && s[1] == 'c' && (s[6] == 'n' <==> a < 0)
            && (a < 0 ==> s[7..] == Numeral(-a)) && (a >= 0 ==> s[6..] == Numeral(a))
  {
    if a >= 0 {
      assert Numeral(a)[0] in Numeral(a);
      assert CostSuffix(a)[6] == Numeral(a)[0];
    }
    hide Numeral;
  }

  lemma CostSuffixInjective(a: int, b: int)
    requires CostSuffix(a) == CostSuffix(b)
    ensures a == b
  {
    CostSuffixShape(a);
    CostSuffixShape(b);
    hide CostSuffix;
    if a < 0 {
      NumeralsDiffer(-a, -b);
    } else {
      NumeralsDiffer(a, b);
    }
  }

  /** The routing policy a suffix starts with, read off its second character. */
  function RoutingOf(suffix: string, base: Variant): string {
    if |suffix| < 2 then base.routing
    else if suffix[1] == 'f' then FULL
    else if suffix[1] == 's' then STUB
    else if suffix[1] == 'r' then RECEIVE_ONLY
    else if suffix[1] == 'a' then ADVERTISE_ONLY
    else base.routing
  }

  lemma RoutingIsReadable(v: Variant, base: Variant)
    requires IsRoutingPolicy(v.routing) && IsRoutingPolicy(base.routing)
    ensures RoutingOf(RoutingPart(v, base) + CostPart(v, base), base) == v.routing
  {
    var s := RoutingPart(v, base) + CostPart(v, base);
    if v.routing != base.routing {
      assert s[1] == v.routing[0];
    } else if v.cost != base.cost {
      CostSuffixShape(v.cost);
      assert s == CostSuffix(v.cost);
    }
    hide CostSuffix;
  }

  lemma SameTail(a: string, b: string, c: string)
    requires a + b == a + c
    ensures b == c
  {
    assert (a + b)[|a|..] == b && (a + c)[|a|..] == c;
  }

  lemma CostPartInjective(v: Variant, w: Variant, base: Variant)
    requires CostPart(v, base) == CostPart(w, base)
    ensures v.cost == w.cost
  {
    CostSuffixShape(v.cost);
    CostSuffixShape(w.cost);
    hide CostSuffix;
    if v.cost != base.cost && w.cost != base.cost {
      CostSuffixInjective(v.cost, w.cost);
    }
  }

  lemma TailsOfNames(name: string, v: Variant, w: Variant, base: Variant)
    requires VariantName(name, v, base) == VariantName(name, w, base)
    ensures RoutingPart(v, base) + CostPart(v, base) == RoutingPart(w, base) + CostPart(w, base)
  {
    hide RoutingPart, CostPart;
    assert VariantName(name, v, base) == name + (RoutingPart(v, base) + CostPart(v, base));
    assert VariantName(name, w, base) == name + (RoutingPart(w, base) + CostPart(w, base));
    SameTail(name, RoutingPart(v, base) + CostPart(v, base), RoutingPart(w, base) + CostPart(w, base));
  }

  /** Within a family, different variants get different names. */
  lemma NamesAreDistinct(name: string, v: Variant, w: Variant, base: Variant)
    requires IsRoutingPolicy(v.routing) && IsRoutingPolicy(w.routing) && IsRoutingPolicy(base.routing)
    ensures VariantName(name, v, base) == VariantName(name, w, base) <==> v == w
  {
    if VariantName(name, v, base) == VariantName(name, w, base) {
      TailsOfNames(name, v, w, base);
      RoutingIsReadable(v, base);
      RoutingIsReadable(w, base);
      hide RoutingOf, CostPart, IsRoutingPolicy, VariantName;
      assert v.routing == w.routing;
      assert RoutingPart(v, base) == RoutingPart(w, base);
      SameTail(RoutingPart(v, base), CostPart(v, base), CostPart(w, base));
      CostPartInjective(v, w, base);
    }
  }

  // ----- Links and their families -----

  /** The links that share one base template. */
  datatype Family = Default | External | Unrestricted | Custom(id: string)

  /** A link of the node with its resolved policy. */
  datatype Raw = Raw(end: LinkEnd, remote: string, policyID: string, pol: Policy,
                     remoteExternal: bool, external: bool, variant: Variant)

  function FamilyOfPolicy(id: string): Family {
    if id == POLICY_DEFAULT then Default else if id == POLICY_NONE then Unrestricted else Custom(id)
  }

  function FamilyOf(r: Raw): Family {
    if r.remoteExternal && r.policyID == POLICY_DN42 then External else FamilyOfPolicy(r.policyID)
  }

  lemma FamiliesDiffer(a: string, b: string)
    ensures FamilyOfPolicy(a) == FamilyOfPolicy(b) <==> a == b
    ensures FamilyOfPolicy(a) != External
  {
  }

  /** The last node of the name counts; an unknown name is internal. */
  function IsExternalName(nodes: seq<Node>, name: string): bool {
    if nodes == [] then false
    else if nodes[|nodes| - 1].name == name then nodes[|nodes| - 1].isExternal
    else IsExternalName(nodes[..|nodes| - 1], name)
  }

  predicate HasBuiltins(m: map<string, Policy>) {
    POLICY_DEFAULT in m && POLICY_DN42 in m && POLICY_NONE in m
  }

  /** An unknown policy falls back to the built-in one of the link's kind. */
  function PolicyOf(m: map<string, Policy>, e: LinkEnd, remoteExternal: bool): (id: string)
    requires HasBuiltins(m)
    ensures id in m
  {
    var id := EndPolicy(e, remoteExternal);
    if id in m then id else if remoteExternal then POLICY_DN42 else POLICY_DEFAULT
  }

  function RawOf(node: Node, remoteExternal: bool, m: map<string, Policy>, e: LinkEnd, remote: string): Raw
    requires HasBuiltins(m)
  {
    var id := PolicyOf(m, e, remoteExternal);
    Raw(e, remote, id, m[id], remoteExternal, remoteExternal || node.isExternal,
        Variant(EndCost(e, m[id]), EndRouting(e, m[id])))
  }

  function RawsOf(node: Node, nodes: seq<Node>, m: map<string, Policy>, l: Link): seq<Raw>
    requires HasBuiltins(m)
  {
    if l.from.name == node.name then [RawOf(node, IsExternalName(nodes, l.to.name), m, l.from, l.to.name)]
    else if l.to.name == node.name then [RawOf(node, IsExternalName(nodes, l.from.name), m, l.to, l.from.name)]
    else []
  }

  function Raws(node: Node, nodes: seq<Node>, m: map<string, Policy>, links: seq<Link>): seq<Raw>
    requires HasBuiltins(m)
  {
    if links == [] then []
    else Raws(node, nodes, m, links[..|links| - 1]) + RawsOf(node, nodes, m, links[|links| - 1])
  }

  ghost predicate Resolved(m: map<string, Policy>, r: Raw) {
    && r.policyID in m && r.pol == m[r.policyID]
    && r.variant == Variant(EndCost(r.end, r.pol), EndRouting(r.end, r.pol))
    && (r.remoteExternal ==> r.external)
  }

  lemma {:induction false} RawsResolved(node: Node, nodes: seq<Node>, m: map<string, Policy>, links: seq<Link>)
    requires HasBuiltins(m)
    ensures forall r :: r in Raws(node, nodes, m, links) ==> Resolved(m, r)
  {
    hide EndCost, EndRouting, EndPolicy;
    if links != [] {
      RawsResolved(node, nodes, m, links[..|links| - 1]);
    }
  }

  /** The variants of a family's links. */
  function Variants(raws: seq<Raw>, f: Family): set<Variant> {
    set r | r in raws && FamilyOf(r) == f :: r.variant
  }

  lemma VariantsGrow(raws: seq<Raw>, r: Raw, f: Family)
    ensures Variants(raws + [r], f) == Variants(raws, f) + if FamilyOf(r) == f then {r.variant} else {}
  {
    hide FamilyOf;
    assert forall x :: x in raws + [r] <==> x in raws || x == r;
  }

  function PolicyOfFamily(f: Family): string {
    match f
    case Default => POLICY_DEFAULT
    case External => POLICY_DN42
    case Unrestricted => POLICY_NONE
    case Custom(id) => id
  }

  function PolicyVariant(m: map<string, Policy>, id: string): (r: Variant)
    ensures IsRoutingPolicy(r.routing)
  {
    if id in m then Variant(PolicyCost(m[id]), PolicyRouting(m[id])) else Variant(DEFAULT_COST, FULL)
  }

  /** A family's only variant becomes its base; otherwise the policy's own values are. */
  ghost function Base(raws: seq<Raw>, m: map<string, Policy>, f: Family): Variant {
    var vs := Variants(raws, f);
    if exists v :: vs == {v} then var v :| vs == {v}; v else PolicyVariant(m, PolicyOfFamily(f))
  }

  function SanitizeChars(s: string): (r: string)
    ensures |r| == |s|
  {
    seq(|s|, i requires 0 <= i < |s| =>
      if 'a' <= s[i] <= 'z' || 'A' <= s[i] <= 'Z' || '0' <= s[i] <= '9' || s[i] == '_' then s[i] else '_')
  }

  function TrimUnderscores(s: string): string
    decreases |s|
  {
    if s != "" && s[0] == '_' then TrimUnderscores(s[1..])
    else if s != "" && s[|s| - 1] == '_' then TrimUnderscores(s[..|s| - 1])
    else s
  }

  function SanitizeIdentifier(s: string): (r: string)
    ensures r != ""
  {
    var r := TrimUnderscores(SanitizeChars(s));
    if r == "" then "item" else r
  }

  function BaseName(f: Family): string {
    match f
    case Default => "easy42_peer"
    case External => "external_peer"
    case Unrestricted => "none_peer"
    case Custom(id) => "pol_peer_" + SanitizeIdentifier(id)
  }

  datatype Definition = Definition(family: Family, name: string, cost: int, routing: string)

  function DefinitionOf(f: Family, v: Variant, base: Variant): Definition {
    Definition(f, VariantName(BaseName(f), v, base), v.cost, v.routing)
  }

  /** The configuration holds the family's base definition. */
  ghost predicate HasBase(raws: seq<Raw>, f: Family) {
    match f
    case Default => true
    case External => exists r :: r in raws && r.external
    case Unrestricted => exists r :: r in raws && r.policyID == POLICY_NONE
    case Custom(id) => exists r :: r in raws && FamilyOf(r) == f
  }

  ghost predicate Emits(raws: seq<Raw>, m: map<string, Policy>, d: Definition) {
    var base, v := Base(raws, m, d.family), Variant(d.cost, d.routing);
    && d == DefinitionOf(d.family, v, base)
    && if v == base then HasBase(raws, d.family) else v in Variants(raws, d.family)
  }

  /** The definition a link refers to, as its family, cost and routing policy demand it. */
  ghost function ReferenceOf(raws: seq<Raw>, m: map<string, Policy>, r: Raw): Definition {
    DefinitionOf(FamilyOf(r), r.variant, Base(raws, m, FamilyOf(r)))
  }

  /** Every link's template is defined, with exactly the link's effective cost and routing policy. */
  lemma ReferencesAreDefined(raws: seq<Raw>, m: map<string, Policy>, r: Raw)
    requires r in raws && Resolved(m, r)
    ensures var d := ReferenceOf(raws, m, r);
            && Emits(raws, m, d) && d.family == FamilyOf(r)
            && d.cost == EndCost(r.end, r.pol) && d.routing == EndRouting(r.end, r.pol)
  {
    hide VariantName, BaseName, Base, EndCost, EndRouting;
  }

  lemma BaseIsRouting(raws: seq<Raw>, m: map<string, Policy>, f: Family)
    requires forall r :: r in raws ==> Resolved(m, r)
    ensures IsRoutingPolicy(Base(raws, m, f).routing)
    ensures forall v :: v in Variants(raws, f) ==> IsRoutingPolicy(v.routing)
  {
    hide IsRoutingPolicy, FamilyOf;
    forall v | v in Variants(raws, f) ensures IsRoutingPolicy(v.routing) {
      var r :| r in raws && r.variant == v;
      assert Resolved(m, r);
    }
    var vs := Variants(raws, f);
    if exists v :: vs == {v} {
      var v :| vs == {v};
      assert v in vs;
    }
  }

  /** Within a family a name stands for one definition only. */
  lemma NamesIdentify(raws: seq<Raw>, m: map<string, Policy>, d: Definition, e: Definition)
    requires forall r :: r in raws ==> Resolved(m, r)
    requires Emits(raws, m, d) && Emits(raws, m, e) && d.family == e.family && d.name == e.name
    ensures d == e
  {
    BaseIsRouting(raws, m, d.family);
    var base := Base(raws, m, d.family);
    hide VariantName, BaseName, Base, IsRoutingPolicy, Variants, HasBase;
    NamesAreDistinct(BaseName(d.family), Variant(d.cost, d.routing), Variant(e.cost, e.routing), base);
  }

  /** Definitions of different families can only share a name between two custom policies. */
  lemma OnlyCustomNamesClash(raws: seq<Raw>, m: map<string, Policy>, d: Definition, e: Definition)
    requires Emits(raws, m, d) && Emits(raws, m, e) && d.family != e.family && d.name == e.name
    ensures d.family.Custom? && e.family.Custom?
  {
    hide Base, HasBase, Variants, SanitizeIdentifier, RoutingPart, CostPart;
    NameStart(d, Base(raws, m, d.family));
    NameStart(e, Base(raws, m, e.family));
    hide VariantName, BaseName;
  }

  function FamilyLetters(f: Family): string {
    match f
    case Default => "ea"
    case External => "ex"
    case Unrestricted => "no"
    case Custom(_) => "po"
  }

  lemma NameStart(d: Definition, base: Variant)
    requires d == DefinitionOf(d.family, Variant(d.cost, d.routing), base)
    ensures |d.name| >= 2 && d.name[..2] == FamilyLetters(d.family)
  {
    hide RoutingPart, CostPart, SanitizeIdentifier;
    assert |BaseName(d.family)| >= 2;
    assert d.name[0] == BaseName(d.family)[0] && d.name[1] == BaseName(d.family)[1];
  }

  // ----- Building the node's context -----

  method BuildNodeIndex(nodes: seq<Node>) returns (index: map<string, Node>)
    ensures forall name :: IsExternalName(nodes, name) <==> name in index && index[name].isExternal
  {
    index := map[];
    var i := 0;
    while i < |nodes|
      invariant 0 <= i <= |nodes|
      invariant forall name :: IsExternalName(nodes[..i], name) <==> name in index && index[name].isExternal
    {
      assert nodes[..i + 1][..i] == nodes[..i];
      index := index[nodes[i].name := nodes[i]];
      i := i + 1;
    }
    assert nodes[..i] == nodes;
  }

  /** What the first pass over the links collects. */
  datatype Groups = Groups(
    used: map<string, Policy>, policyVariants: map<string, set<Variant>>, extVariants: set<Variant>,
    hasExternal: bool, hasNone: bool)

  function AddVariant(g: Groups, r: Raw): Groups {
    if r.remoteExternal && r.policyID == POLICY_DN42 then g.(extVariants := g.extVariants + {r.variant})
    else
      var known := if r.policyID in g.policyVariants then g.policyVariants[r.policyID] else {};
      g.(policyVariants := g.policyVariants[r.policyID := known + {r.variant}])
  }

  function AddRaw(g: Groups, r: Raw): Groups {
    AddVariant(g.(used := g.used[r.policyID := r.pol],
                  hasExternal := g.hasExternal || r.external,
                  hasNone := g.hasNone || r.policyID == POLICY_NONE), r)
  }

  ghost predicate CollectsUse(g: Groups, raws: seq<Raw>, m: map<string, Policy>) {
    && (forall id :: id in g.used <==> exists r :: r in raws && r.policyID == id)
    && (forall id :: id in g.used ==> id in m && g.used[id] == m[id])
    && (g.hasExternal <==> exists r :: r in raws && r.external)
    && (g.hasNone <==> exists r :: r in raws && r.policyID == POLICY_NONE)
  }

  lemma UseGrows(g: Groups, raws: seq<Raw>, m: map<string, Policy>, r: Raw)
    requires CollectsUse(g, raws, m) && Resolved(m, r)
    ensures CollectsUse(AddRaw(g, r), raws + [r], m)
  {
    var all := raws + [r];
    assert forall x :: x in all <==> x in raws || x == r;
    assert r in all;
    forall id ensures (exists x :: x in all && x.policyID == id) <==> id in g.used || id == r.policyID {
      if id in g.used {
        var x :| x in raws && x.policyID == id;
        assert x in all;
      }
    }
    if g.hasExternal {
      var x :| x in raws && x.external;
      assert x in all;
    }
    if g.hasNone {
      var x :| x in raws && x.policyID == POLICY_NONE;
      assert x in all;
    }
  }

  ghost predicate CollectsVariants(g: Groups, raws: seq<Raw>) {
    && (forall id :: id in g.policyVariants ==> g.policyVariants[id] == Variants(raws, FamilyOfPolicy(id)))
    && (forall id :: id !in g.policyVariants ==> Variants(raws, FamilyOfPolicy(id)) == {})
    && g.extVariants == Variants(raws, External)
  }

  lemma VariantsCollected(g: Groups, raws: seq<Raw>, r: Raw)
    requires CollectsVariants(g, raws)
    ensures CollectsVariants(AddRaw(g, r), raws + [r])
  {
    hide Variants, FamilyOfPolicy;
    VariantsGrow(raws, r, External);
    FamiliesDiffer(r.policyID, r.policyID);
    var more := AddRaw(g, r);
    forall id ensures Variants(raws + [r], FamilyOfPolicy(id))
                      == if id in more.policyVariants then more.policyVariants[id] else {}
    {
      VariantsGrow(raws, r, FamilyOfPolicy(id));
      FamiliesDiffer(id, r.policyID);
      assert Variants(raws, FamilyOfPolicy(id)) == if id in g.policyVariants then g.policyVariants[id] else {};
    }
  }

  /** The first pass: resolve every link of the node and group the variants. */
  method GroupLinks(node: Node, nodes: seq<Node>, m: map<string, Policy>, links: seq<Link>)
    returns (rawLinks: seq<Raw>, g: Groups)
    requires HasBuiltins(m)
    ensures rawLinks == Raws(node, nodes, m, links)
    ensures CollectsUse(g, rawLinks, m) && CollectsVariants(g, rawLinks)
  {
    hide FamilyOf, AddRaw, EndPolicy, EndCost, EndRouting;
    var index := BuildNodeIndex(nodes);
    rawLinks := [];
    g := Groups(map[], map[], {}, false, false);
    var i := 0;
    while i < |links|
      invariant 0 <= i <= |links| && rawLinks == Raws(node, nodes, m, links[..i])
      invariant CollectsUse(g, rawLinks, m) && CollectsVariants(g, rawLinks)
    {
      var l := links[i];
      assert links[..i + 1][..i] == links[..i];
      i := i + 1;
      var localEnd, remote;
      if l.from.name == node.name {
        localEnd, remote := l.from, l.to.name;
      } else if l.to.name == node.name {
        localEnd, remote := l.to, l.from.name;
      } else {
        assert RawsOf(node, nodes, m, l) == [];
        continue;
      }
      var isRemoteExternal := remote in index && index[remote].isExternal;
      var raw := Resolve(node, m, localEnd, remote, isRemoteExternal);
      assert RawsOf(node, nodes, m, l) == [raw];
      UseGrows(g, rawLinks, m, raw);
      VariantsCollected(g, rawLinks, raw);
      g := AddRaw(g, raw);
      rawLinks := rawLinks + [raw];
    }
    assert links[..i] == links;
  }

  method Resolve(node: Node, m: map<string, Policy>, localEnd: LinkEnd, remote: string, isRemoteExternal: bool)
    returns (raw: Raw)
    requires HasBuiltins(m)
    ensures raw == RawOf(node, isRemoteExternal, m, localEnd, remote) && Resolved(m, raw)
  {
    hide EndPolicy, EndCost, EndRouting;
    var policyID := EndPolicy(localEnd, isRemoteExternal);
    if policyID !in m {
      if isRemoteExternal {
        policyID := POLICY_DN42;
      } else {
        policyID := POLICY_DEFAULT;
      }
    }
    var pol := m[policyID];
    raw := Raw(localEnd, remote, policyID, pol, isRemoteExternal, isRemoteExternal || node.isExternal,
               Variant(EndCost(localEnd, pol), EndRouting(localEnd, pol)));
  }

  lemma OneElement(vs: set<Variant>, v: Variant)
    requires v in vs
    ensures |vs| == 1 <==> vs == {v}
  {
    if |vs| == 1 {
      assert |vs - {v}| == 0;
      assert vs == vs - {v} + {v};
    }
  }

  /** A single variant overrides the policy's own values. */
  method PickBase(vs: set<Variant>, own: Variant) returns (base: Variant)
    ensures base == if exists v :: vs == {v} then (var v :| vs == {v}; v) else own
  {
    base := own;
    if |vs| == 1 {
      var v :| v in vs;
      OneElement(vs, v);
      base := v;
    } else if exists v :: v in vs {
      ghost var v :| v in vs;
      OneElement(vs, v);
    }
  }

  // ----- Definitions -----

  function VariantOf(d: Definition): Variant {
    Variant(d.cost, d.routing)
  }

  predicate VariantBefore(v: Variant, w: Variant) {
    if v.routing != w.routing then Before(v.routing, w.routing) else v.cost < w.cost
  }

  predicate Distinct<T(==)>(s: seq<T>) {
    forall i, j :: 0 <= i < j < |s| ==> s[i] != s[j]
  }

  lemma {:induction false} DistinctCount<T>(s: seq<T>)
    ensures Distinct(s) <==> forall x :: multiset(s)[x] <= 1
  {
    if s != [] {
      var rest, last := s[..|s| - 1], s[|s| - 1];
      DistinctCount(rest);
      assert s == rest + [last];
      assert last in rest <==> multiset(rest)[last] > 0;
      if Distinct(rest) && last !in rest {
        forall i, j | 0 <= i < j < |s| ensures s[i] != s[j] {
          assert rest[i] in rest;
        }
      } else if last in rest {
        var i :| 0 <= i < |rest| && rest[i] == last;
        assert s[i] == s[|s| - 1];
        assert multiset(s)[last] == multiset(rest)[last] + 1;
      } else {
        var i, j :| 0 <= i < j < |rest| && rest[i] == rest[j];
        assert s[i] == s[j];
        var x :| multiset(rest)[x] > 1;
        assert multiset(s)[x] > 1;
      }
    }
  }

  lemma SortKeepsDistinct(s: seq<Variant>)
    requires Distinct(s)
    ensures Distinct(Sort(s, VariantBefore))
  {
    DistinctCount(s);
    SortPermutes(s, VariantBefore);
    DistinctCount(Sort(s, VariantBefore));
  }

  lemma VariantBeforeIsWeakOrder()
    ensures WeakOrder(VariantBefore)
  {
    BeforeIsWeakOrder();
    forall v: Variant, w: Variant ensures v.routing != w.routing ==> Before(v.routing, w.routing) || Before(w.routing, v.routing) {
      BeforeIsTotal(v.routing, w.routing);
    }
    hide Before;
  }

  /** By routing policy, in the order of a dictionary, and then by cost. */
  ghost predicate InOrder(extra: seq<Variant>) {
    forall i, j :: 0 <= i < j < |extra| ==>
      || (extra[i].routing == extra[j].routing && extra[i].cost < extra[j].cost)
      || (extra[i].routing != extra[j].routing && Before(extra[i].routing, extra[j].routing))
  }

  lemma SortedInOrder(s: seq<Variant>)
    requires Sorted(s, VariantBefore) && Distinct(s)
    ensures InOrder(s)
  {
    forall i, j | 0 <= i < j < |s|
      ensures s[i].routing == s[j].routing ==> s[i].cost < s[j].cost
      ensures s[i].routing != s[j].routing ==> Before(s[i].routing, s[j].routing)
    {
      BeforeIsTotal(s[i].routing, s[j].routing);
      assert s[i] != s[j] && !VariantBefore(s[j], s[i]);
    }
    hide Before;
  }

  /** The variants besides the base, in the order of the emitted definitions. */
  method ExtraVariants(vs: set<Variant>, base: Variant) returns (extra: seq<Variant>)
    ensures forall v :: v in extra <==> v in vs && v != base
    ensures Distinct(extra) && InOrder(extra)
  {
    extra := [];
    var rest := vs;
    while rest != {}
      invariant rest <= vs && Distinct(extra)
      invariant forall v :: v in extra <==> v in vs && v !in rest && v != base
      decreases |rest|
    {
      var v :| v in rest;
      rest := rest - {v};
      if v != base {
        extra := extra + [v];
      }
    }
    SortMembers(extra, VariantBefore);
    SortKeepsDistinct(extra);
    VariantBeforeIsWeakOrder();
    SortSorts(extra, VariantBefore);
    extra := Sort(extra, VariantBefore);
    SortedInOrder(extra);
  }

  /** d belongs to the family, whose links have the given variants. */
  predicate InFamily(d: Definition, f: Family, vs: set<Variant>, base: Variant, withBase: bool) {
    d == DefinitionOf(f, VariantOf(d), base) && if VariantOf(d) == base then withBase else VariantOf(d) in vs
  }

  /** The definitions so far are those of the base and the given variants. */
  ghost predicate HoldsFamily(defs: seq<Definition>, done: seq<Variant>, f: Family, vs: set<Variant>, base: Variant,
                              withBase: bool)
  {
    forall d :: d in defs <==> InFamily(d, f, vs, base, withBase) && (VariantOf(d) == base || VariantOf(d) in done)
  }

  lemma FamilyGrows(defs: seq<Definition>, done: seq<Variant>, f: Family, vs: set<Variant>, base: Variant,
                    withBase: bool, v: Variant)
    requires HoldsFamily(defs, done, f, vs, base, withBase) && v in vs && v != base && v !in done
    ensures var d := DefinitionOf(f, v, base);
            d == Definition(f, VariantName(BaseName(f), v, base), v.cost, v.routing) && d !in defs
            && VariantsOf(defs + [d]) == VariantsOf(defs) + [v]
    ensures HoldsFamily(defs + [DefinitionOf(f, v, base)], done + [v], f, vs, base, withBase)
  {
    hide VariantName, BaseName;
    var e := DefinitionOf(f, v, base);
    assert VariantOf(e) == v;
    forall d ensures d in defs + [e] <==>
      InFamily(d, f, vs, base, withBase) && (VariantOf(d) == base || VariantOf(d) in done + [v])
    {
    }
  }

  method FamilyDefinitions(f: Family, vs: set<Variant>, base: Variant, withBase: bool) returns (defs: seq<Definition>)
    ensures forall d :: d in defs <==> InFamily(d, f, vs, base, withBase)
    ensures Distinct(defs) && BaseThenExtra(defs, base, withBase)
  {
    hide VariantName, BaseName;
    var first := if withBase then [DefinitionOf(f, base, base)] else [];
    defs := first;
    var extra := ExtraVariants(vs, base);
    assert HoldsFamily(defs, [], f, vs, base, withBase);
    hide DefinitionOf, InFamily, VariantsOf, HoldsFamily, InOrder;
    var i := 0;
    while i < |extra|
      invariant 0 <= i <= |extra| && Distinct(defs)
      invariant VariantsOf(defs) == VariantsOf(first) + extra[..i]
      invariant HoldsFamily(defs, extra[..i], f, vs, base, withBase)
    {
      var v := extra[i];
      assert extra[..i + 1] == extra[..i] + [v] && v !in extra[..i] && v in extra;
      var name := FormatVariantTemplateName(BaseName(f), v.routing, base.routing, v.cost, base.cost);
      FamilyGrows(defs, extra[..i], f, vs, base, withBase, v);
      defs := defs + [Definition(f, name, v.cost, v.routing)];
      i := i + 1;
    }
    assert extra[..i] == extra;
    FamilyIsWhole(first, defs, extra, f, vs, base, withBase);
  }

  lemma FamilyIsWhole(first: seq<Definition>, defs: seq<Definition>, extra: seq<Variant>, f: Family, vs: set<Variant>,
                      base: Variant, withBase: bool)
    requires first == if withBase then [DefinitionOf(f, base, base)] else []
    requires VariantsOf(defs) == VariantsOf(first) + extra && InOrder(extra)
    requires HoldsFamily(defs, extra, f, vs, base, withBase) && forall v :: v in extra <==> v in vs && v != base
    ensures forall d :: d in defs <==> InFamily(d, f, vs, base, withBase)
    ensures BaseThenExtra(defs, base, withBase)
  {
    hide VariantName, BaseName, InOrder;
    assert VariantsOf(defs)[|first|..] == extra;
  }

  function VariantsOf(defs: seq<Definition>): (r: seq<Variant>)
    ensures |r| == |defs| && forall i :: 0 <= i < |r| ==> r[i] == VariantOf(defs[i])
  {
    seq(|defs|, i requires 0 <= i < |defs| => VariantOf(defs[i]))
  }

  /** First the base, if there is one, and then the other variants in order. */
  ghost predicate BaseThenExtra(defs: seq<Definition>, base: Variant, withBase: bool) {
    if withBase then defs != [] && VariantOf(defs[0]) == base && InOrder(VariantsOf(defs)[1..])
    else InOrder(VariantsOf(defs))
  }

  lemma FamilyIsEmitted(raws: seq<Raw>, m: map<string, Policy>, f: Family, d: Definition, withBase: bool)
    requires withBase <==> HasBase(raws, f)
    ensures InFamily(d, f, Variants(raws, f), Base(raws, m, f), withBase) <==> Emits(raws, m, d) && d.family == f
  {
    hide Base, Variants, HasBase, VariantName, BaseName;
  }

  /** The definitions of one family, as they are emitted. */
  method EmitFamily(ghost raws: seq<Raw>, ghost m: map<string, Policy>, f: Family, vs: set<Variant>, base: Variant,
                    withBase: bool)
    returns (defs: seq<Definition>)
    requires vs == Variants(raws, f) && base == Base(raws, m, f) && (withBase <==> HasBase(raws, f))
    ensures forall d :: d in defs <==> Emits(raws, m, d) && d.family == f
    ensures Distinct(defs) && BaseThenExtra(defs, base, withBase)
  {
    defs := FamilyDefinitions(f, vs, base, withBase);
    hide BaseThenExtra;
    hide Emits, InFamily, Base, Variants, HasBase;
    forall d ensures d in defs <==> Emits(raws, m, d) && d.family == f {
      FamilyIsEmitted(raws, m, f, d, withBase);
    }
  }

  function VariantsById(g: Groups, id: string): set<Variant> {
    if id in g.policyVariants then g.policyVariants[id] else {}
  }

  /** The base of every used policy's own family. */
  method BasesOf(ghost raws: seq<Raw>, m: map<string, Policy>, g: Groups) returns (bases: map<string, Variant>)
    requires CollectsUse(g, raws, m) && CollectsVariants(g, raws)
    ensures bases.Keys == g.used.Keys
    ensures forall id :: id in bases ==> bases[id] == Base(raws, m, FamilyOfPolicy(id))
  {
    hide Base, CollectsVariants, FamilyOfPolicy;
    bases := map[];
    var rest := g.used.Keys;
    while rest != {}
      invariant rest <= g.used.Keys && bases.Keys == g.used.Keys - rest
      invariant forall id :: id in bases ==> bases[id] == Base(raws, m, FamilyOfPolicy(id))
      decreases |rest|
    {
      var id :| id in rest;
      rest := rest - {id};
      var base := BaseOfPolicy(raws, m, g, FamilyOfPolicy(id), id);
      bases := bases[id := base];
    }
  }

  method BaseOfPolicy(ghost raws: seq<Raw>, m: map<string, Policy>, g: Groups, f: Family, id: string)
    returns (base: Variant)
    requires CollectsVariants(g, raws) && f == FamilyOfPolicy(id)
    ensures base == Base(raws, m, f)
  {
    hide PolicyVariant, Variants;
    base := PickBase(VariantsById(g, id), PolicyVariant(m, id));
    assert PolicyOfFamily(f) == id;
  }

  /** The policies with definitions of their own, in the order of their identifiers. */
  method CustomPolicies(ghost raws: seq<Raw>, ghost m: map<string, Policy>, g: Groups, rawLinks: seq<Raw>)
    returns (ids: seq<string>)
    requires rawLinks == raws && CollectsUse(g, raws, m)
    ensures forall id :: id in ids <==>
      FamilyOfPolicy(id).Custom? && HasBase(raws, FamilyOfPolicy(id))
    ensures Distinct(ids) && forall i, j :: 0 <= i < j < |ids| ==> !Before(ids[j], ids[i])
  {
    var hasInternalDN42 := FindInternalDN42(rawLinks);
    var found: seq<string> := [];
    var rest := g.used.Keys;
    while rest != {}
      invariant rest <= g.used.Keys && Distinct(found)
      invariant forall id :: id in found <==>
        id in g.used && id !in rest && id != POLICY_DEFAULT && id != POLICY_NONE && (id == POLICY_DN42 ==> hasInternalDN42)
      decreases |rest|
    {
      var id :| id in rest;
      rest := rest - {id};
      if id == POLICY_DEFAULT || id == POLICY_NONE {
        continue;
      }
      if id == POLICY_DN42 && !hasInternalDN42 {
        continue;
      }
      found := found + [id];
    }
    forall id ensures id in found <==> FamilyOfPolicy(id).Custom? && HasBase(raws, FamilyOfPolicy(id)) {
      CustomHasBase(raws, g, m, id, hasInternalDN42);
    }
    hide *;
    ids := SortIds(found);
  }

  method SortIds(found: seq<string>) returns (ids: seq<string>)
    requires Distinct(found)
    ensures Distinct(ids) && forall id :: id in ids <==> id in found
    ensures forall i, j :: 0 <= i < j < |ids| ==> !Before(ids[j], ids[i])
  {
    BeforeIsWeakOrder();
    SortSorts(found, Before);
    SortMembers(found, Before);
    SortPermutes(found, Before);
    DistinctCountOf(found);
    ids := Sort(found, Before);
    DistinctCountOf(ids);
    hide Distinct, Sort;
  }

  method FindInternalDN42(rawLinks: seq<Raw>) returns (found: bool)
    ensures found <==> exists r :: r in rawLinks && !r.remoteExternal && r.policyID == POLICY_DN42
  {
    found := false;
    var i := 0;
    while i < |rawLinks|
      invariant 0 <= i <= |rawLinks|
      invariant forall k :: 0 <= k < i ==> rawLinks[k].remoteExternal || rawLinks[k].policyID != POLICY_DN42
    {
      var rl := rawLinks[i];
      if !rl.remoteExternal && rl.policyID == POLICY_DN42 {
        assert rl in rawLinks;
        return true;
      }
      i := i + 1;
    }
  }

  lemma {:induction false} DistinctCountOf(s: seq<string>)
    ensures Distinct(s) <==> forall x :: multiset(s)[x] <= 1
  {
    DistinctCount(s);
  }

  lemma CustomHasBase(raws: seq<Raw>, g: Groups, m: map<string, Policy>, id: string, hasInternalDN42: bool)
    requires CollectsUse(g, raws, m)
    requires hasInternalDN42 <==> exists r :: r in raws && !r.remoteExternal && r.policyID == POLICY_DN42
    ensures id in g.used && id != POLICY_DEFAULT && id != POLICY_NONE && (id == POLICY_DN42 ==> hasInternalDN42) <==>
            FamilyOfPolicy(id).Custom? && HasBase(raws, FamilyOfPolicy(id))
  {
    if id in g.used && id != POLICY_DEFAULT && id != POLICY_NONE && (id == POLICY_DN42 ==> hasInternalDN42) {
      var r :| r in raws && r.policyID == id && (id == POLICY_DN42 ==> !r.remoteExternal);
      assert FamilyOf(r) == FamilyOfPolicy(id);
    }
  }

  /** The template every link refers to. */
  method LinkTemplates(rawLinks: seq<Raw>, ghost m: map<string, Policy>, defaultBase: Variant, noneBase: Variant,
                       extBase: Variant, bases: map<string, Variant>)
    returns (templates: seq<string>)
    requires forall r :: r in rawLinks ==> r.policyID in bases
    requires defaultBase == Base(rawLinks, m, Default) && noneBase == Base(rawLinks, m, Unrestricted)
    requires extBase == Base(rawLinks, m, External)
    requires forall id :: id in bases ==> bases[id] == Base(rawLinks, m, FamilyOfPolicy(id))
    ensures |templates| == |rawLinks|
    ensures forall i :: 0 <= i < |rawLinks| ==> templates[i] == ReferenceOf(rawLinks, m, rawLinks[i]).name
  {
    hide Base, VariantName;
    templates := [];
    var i := 0;
    while i < |rawLinks|
      invariant 0 <= i <= |rawLinks| && |templates| == i
      invariant forall k :: 0 <= k < i ==> templates[k] == ReferenceOf(rawLinks, m, rawLinks[k]).name
    {
      var rl := rawLinks[i];
      var v := rl.variant;
      var bgpTemplate;
      if rl.policyID == POLICY_DEFAULT {
        bgpTemplate := FormatVariantTemplateName("easy42_peer", v.routing, defaultBase.routing, v.cost, defaultBase.cost);
      } else if rl.policyID == POLICY_DN42 && rl.remoteExternal {
        bgpTemplate := FormatVariantTemplateName("external_peer", v.routing, extBase.routing, v.cost, extBase.cost);
      } else if rl.policyID == POLICY_NONE {
        bgpTemplate := FormatVariantTemplateName("none_peer", v.routing, noneBase.routing, v.cost, noneBase.cost);
      } else {
        var base := bases[rl.policyID];
        bgpTemplate := FormatVariantTemplateName("pol_peer_" + SanitizeIdentifier(rl.policyID),
                                                 v.routing, base.routing, v.cost, base.cost);
      }
      templates := templates + [bgpTemplate];
      i := i + 1;
    }
  }

  ghost predicate Emitted(raws: seq<Raw>, m: map<string, Policy>, d: Definition, customs: set<string>) {
    Emits(raws, m, d) && (d.family.Custom? ==> d.family.id in customs)
  }

  lemma EmittedCustomsAreUsed(raws: seq<Raw>, m: map<string, Policy>, d: Definition, ids: seq<string>)
    requires forall id :: id in ids <==> FamilyOfPolicy(id).Custom? && HasBase(raws, FamilyOfPolicy(id))
    ensures Emits(raws, m, d) && d.family.Custom? ==> d.family.id in ids
  {
    hide Base;
    if Emits(raws, m, d) && d.family.Custom? {
      assert HasBase(raws, d.family);
      var r :| r in raws && FamilyOf(r) == d.family;
      assert FamilyOfPolicy(d.family.id) == d.family;
    }
  }

  method BuiltinDefinitions(ghost raws: seq<Raw>, ghost m: map<string, Policy>, g: Groups, defaultBase: Variant,
                            noneBase: Variant, extBase: Variant)
    returns (defs: seq<Definition>)
    requires CollectsUse(g, raws, m) && CollectsVariants(g, raws)
    requires defaultBase == Base(raws, m, Default) && noneBase == Base(raws, m, Unrestricted)
    requires extBase == Base(raws, m, External)
    ensures forall d :: d in defs <==> Emitted(raws, m, d, {})
    ensures Distinct(defs)
  {
    hide Base, Variants, Emits;
    var first := EmitFamily(raws, m, Default, VariantsById(g, POLICY_DEFAULT), defaultBase, true);
    var second := EmitFamily(raws, m, Unrestricted, VariantsById(g, POLICY_NONE), noneBase, g.hasNone);
    var third := EmitFamily(raws, m, External, g.extVariants, extBase, g.hasExternal);
    JoinDistinct(first, second);
    JoinDistinct(first + second, third);
    defs := first + second + third;
  }

  lemma JoinDistinct(a: seq<Definition>, b: seq<Definition>)
    requires Distinct(a) && Distinct(b) && forall x, y :: x in a && y in b ==> x.family != y.family
    ensures Distinct(a + b) && forall x :: x in a + b <==> x in a || x in b
  {
    assert forall i :: 0 <= i < |a| ==> a[i] in a;
    assert forall i :: 0 <= i < |b| ==> b[i] in b;
  }

  method CustomDefinitions(ghost raws: seq<Raw>, ghost m: map<string, Policy>, g: Groups, bases: map<string, Variant>,
                           ids: seq<string>, builtin: seq<Definition>)
    returns (defs: seq<Definition>)
    requires CollectsVariants(g, raws) && Distinct(ids) && Distinct(builtin)
    requires forall d :: d in builtin <==> Emitted(raws, m, d, {})
    requires forall id :: id in ids ==> id in bases && FamilyOfPolicy(id).Custom? && HasBase(raws, FamilyOfPolicy(id))
    requires forall id :: id in bases ==> bases[id] == Base(raws, m, FamilyOfPolicy(id))
    ensures forall d :: d in defs <==> Emitted(raws, m, d, set id | id in ids)
    ensures Distinct(defs)
  {
    hide Base, Variants, Emits, HasBase;
    defs := builtin;
    var i := 0;
    assert (set id | id in ids[..0]) == {};
    while i < |ids|
      invariant 0 <= i <= |ids| && Distinct(defs)
      invariant forall d :: d in defs <==> Emitted(raws, m, d, set id | id in ids[..i])
    {
      var id := ids[i];
      assert ids[..i + 1] == ids[..i] + [id] && id !in ids[..i] && id in ids;
      assert FamilyOfPolicy(id) == Custom(id);
      var more := EmitFamily(raws, m, Custom(id), VariantsById(g, id), bases[id], true);
      JoinDistinct(defs, more);
      defs := defs + more;
      i := i + 1;
    }
    assert ids[..i] == ids;
  }

  method AllDefinitions(ghost m: map<string, Policy>, rawLinks: seq<Raw>, g: Groups, defaultBase: Variant,
                        noneBase: Variant, extBase: Variant, bases: map<string, Variant>)
    returns (defs: seq<Definition>)
    requires CollectsUse(g, rawLinks, m) && CollectsVariants(g, rawLinks)
    requires defaultBase == Base(rawLinks, m, Default) && noneBase == Base(rawLinks, m, Unrestricted)
    requires extBase == Base(rawLinks, m, External)
    requires bases.Keys == g.used.Keys
    requires forall id :: id in bases ==> bases[id] == Base(rawLinks, m, FamilyOfPolicy(id))
    ensures forall d :: d in defs <==> Emits(rawLinks, m, d)
    ensures Distinct(defs)
  {
    defs := BuiltinDefinitions(rawLinks, m, g, defaultBase, noneBase, extBase);
    var ids := CustomPolicies(rawLinks, m, g, rawLinks);
    UsedIds(rawLinks, m, g, ids);
    hide CollectsUse, CollectsVariants, Base, HasBase, Emits, FamilyOfPolicy, Distinct;
    defs := CustomDefinitions(rawLinks, m, g, bases, ids, defs);
    forall d ensures Emitted(rawLinks, m, d, set id | id in ids) <==> Emits(rawLinks, m, d) {
      EmittedCustomsAreUsed(rawLinks, m, d, ids);
    }
  }

  lemma UsedIds(raws: seq<Raw>, m: map<string, Policy>, g: Groups, ids: seq<string>)
    requires CollectsUse(g, raws, m)
    requires forall id :: id in ids ==> FamilyOfPolicy(id).Custom? && HasBase(raws, FamilyOfPolicy(id))
    ensures forall id :: id in ids ==> id in g.used
  {
    forall id | id in ids ensures id in g.used {
      var r :| r in raws && FamilyOf(r) == FamilyOfPolicy(id);
    }
  }

  lemma UsedPolicies(raws: seq<Raw>, m: map<string, Policy>, g: Groups)
    requires CollectsUse(g, raws, m)
    ensures forall r :: r in raws ==> r.policyID in g.used
  {
  }

  /** The links' template references and the definitions of a node. */
  method BuildTemplates(node: Node, nodes: seq<Node>, custom: seq<Policy>, links: seq<Link>)
    returns (m: map<string, Policy>, rawLinks: seq<Raw>, templates: seq<string>, defs: seq<Definition>)
    ensures IsPolicyMap(m, AllPolicies(custom)) && HasBuiltins(m)
    ensures rawLinks == Raws(node, nodes, m, links) && |templates| == |rawLinks|
    ensures forall i :: 0 <= i < |rawLinks| ==> templates[i] == ReferenceOf(rawLinks, m, rawLinks[i]).name
    ensures forall d :: d in defs <==> Emits(rawLinks, m, d)
    ensures Distinct(defs)
  {
    m := BuildPolicyMap(custom);
    BuiltinsResolve(custom, m);
    var g;
    rawLinks, g := GroupLinks(node, nodes, m, links);
    UsedPolicies(rawLinks, m, g);
    var defaultBase := BaseOfPolicy(rawLinks, m, g, Default, POLICY_DEFAULT);
    var noneBase := BaseOfPolicy(rawLinks, m, g, Unrestricted, POLICY_NONE);
    var extBase := PickBase(g.extVariants, PolicyVariant(m, POLICY_DN42));
    hide CollectsUse, FamilyOfPolicy, Emits, Distinct, IsPolicyMap, ReferenceOf, Raws;
    assert extBase == Base(rawLinks, m, External);
    hide CollectsVariants, Base, PolicyVariant;
    var bases := BasesOf(rawLinks, m, g);
    templates := LinkTemplates(rawLinks, m, defaultBase, noneBase, extBase, bases);
    defs := AllDefinitions(m, rawLinks, g, defaultBase, noneBase, extBase, bases);
  }

  /** Every link of the node refers by name to one definition, and that definition carries the
      link's family, effective cost and effective routing policy. */
  lemma ReferenceClosure(node: Node, nodes: seq<Node>, m: map<string, Policy>, links: seq<Link>, r: Raw)
    requires HasBuiltins(m) && r in Raws(node, nodes, m, links)
    ensures r.policyID in m && r.pol == m[r.policyID]
    ensures var raws := Raws(node, nodes, m, links);
            var d := ReferenceOf(raws, m, r);
            && Emits(raws, m, d) && d.family == FamilyOf(r)
            && d.cost == EndCost(r.end, r.pol) && d.routing == EndRouting(r.end, r.pol)
            && forall e :: Emits(raws, m, e) && e.family == d.family && e.name == d.name ==> e == d
  {
    RawsResolved(node, nodes, m, links);
    hide EndCost, EndRouting, Emits, FamilyOf, ReferenceOf;
    var raws := Raws(node, nodes, m, links);
    assert Resolved(m, r);
    ReferencesAreDefined(raws, m, r);
    var d := ReferenceOf(raws, m, r);
    forall e | Emits(raws, m, e) && e.family == d.family && e.name == d.name ensures e == d {
      NamesIdentify(raws, m, e, d);
    }
  }
}
