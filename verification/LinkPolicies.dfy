/** What the ends of a link ask for: their policy, cost and routing policy, and what their template is called. */
module LinkPolicies {
  import opened Wrappers
  import opened Text
  import opened BirdTemplates

  // ----- Routing policies -----

  const STUB_TEXTS := {"stub", "originate_only", "originate-only", "local_only", "local-only", "transit_client",
                       "transit-client"}
  const RECEIVE_TEXTS := {"receive_only", "receive-only", "import_only", "import-only"}
  const ADVERTISE_TEXTS := {"advertise_only", "advertise-only", "export_only", "export-only"}

  /** Every spelling of a routing policy, in any case and with any outer white space. */
  lemma RoutingIs(p: string)
    ensures var s, r := ToLower(Trim(p)), NormalizeRoutingPolicy(p);
            && (s in STUB_TEXTS ==> r == "stub")
            && (s in RECEIVE_TEXTS ==> r == "receive_only")
            && (s in ADVERTISE_TEXTS ==> r == "advertise_only")
            && (s !in STUB_TEXTS + RECEIVE_TEXTS + ADVERTISE_TEXTS ==> r == "full")
  {
    hide Trim, ToLower;
  }

  // ----- Effective values -----

  /** The cost is the first one set of the link end and its policy, and otherwise 100. */
  lemma CostIs(e: LinkEnd, p: Policy)
    ensures e.cost != 0 ==> EndCost(e, p) == e.cost
    ensures e.cost == 0 && p.cost != 0 ==> EndCost(e, p) == p.cost
    ensures e.cost == 0 && p.cost == 0 ==> EndCost(e, p) == 100
  {
  }

  /** The routing policy is the first one given of the link end and its policy, and otherwise full. */
  lemma RoutingOfEnd(e: LinkEnd, p: Policy)
    ensures Trim(e.routingPolicy) != "" ==> EndRouting(e, p) == NormalizeRoutingPolicy(e.routingPolicy)
    ensures Trim(e.routingPolicy) == "" && Trim(p.routingPolicy) != "" ==>
      EndRouting(e, p) == NormalizeRoutingPolicy(p.routingPolicy)
    ensures Trim(e.routingPolicy) == "" && Trim(p.routingPolicy) == "" ==> EndRouting(e, p) == "full"
  {
    hide Trim, NormalizeRoutingPolicy;
  }

  /** The last of the policies with an identifier. */
  lemma {:induction false} LastPolicyIs(policies: seq<Policy>, id: string)
    ensures match LastPolicy(policies, id)
            case Some(p) => exists k :: 0 <= k < |policies| && policies[k] == p && p.id == id
                                        && forall j :: k < j < |policies| ==> policies[j].id != id
            case None => forall k :: 0 <= k < |policies| ==> policies[k].id != id
  {
    if policies != [] {
      LastPolicyIs(policies[..|policies| - 1], id);
    }
  }

  /** The table of policies: of the custom ones with an identifier the last, and otherwise, for the three built-in
      identifiers, a policy of cost 100 with full routing. */
  lemma PolicyTable(custom: seq<Policy>, m: map<string, Policy>, id: string)
    requires IsPolicyMap(m, AllPolicies(custom))
    ensures match LastPolicy(custom, id)
            case Some(p) => id in m && m[id] == p
            case None =>
              && (id in m <==> id == "default" || id == "dn42" || id == "none")
              && (id in m ==> m[id] == Policy(id, 100, "full"))
  {
    LastOfJoined(Builtins(), custom, id);
    LastBuiltin(id);
    hide LastPolicy, Builtins;
    assert LastPolicy(AllPolicies(custom), id) == if id in m then Some(m[id]) else None;
  }

  lemma {:induction false} LastOfJoined(a: seq<Policy>, b: seq<Policy>, id: string)
    ensures LastPolicy(a + b, id) == if LastPolicy(b, id).Some? then LastPolicy(b, id) else LastPolicy(a, id)
  {
    if b == [] {
      assert a + b == a;
    } else {
      assert (a + b)[..|a + b| - 1] == a + b[..|b| - 1];
      LastOfJoined(a, b[..|b| - 1], id);
    }
  }

  lemma LastBuiltin(id: string)
    ensures LastPolicy(Builtins(), id) ==
            if id == "default" || id == "dn42" || id == "none" then Some(Policy(id, 100, "full")) else None
  {
    var all := Builtins();
    assert all[..2] == [all[0], all[1]] && all[..2][..1] == [all[0]] && all[..2][..1][..0] == [];
    assert LastPolicy(all[..2][..1], id) == if id == "default" then Some(all[0]) else None;
    assert LastPolicy(all[..2], id) == if id == "dn42" then Some(all[1]) else LastPolicy(all[..2][..1], id);
  }

  /** A link end uses the policy it names, and without a name dn42 towards an external node and default towards
      any other; so it does when there is no policy of the name. */
  lemma PolicyIs(m: map<string, Policy>, e: LinkEnd, remoteExternal: bool)
    requires HasBuiltins(m)
    ensures var fallback := if remoteExternal then "dn42" else "default";
            PolicyOf(m, e, remoteExternal) ==
            if Trim(e.policy) != "" && Trim(e.policy) in m then Trim(e.policy) else fallback
  {
    hide Trim;
  }

  // ----- The ends of a node's links -----

  predicate LastNamed(nodes: seq<Node>, name: string, k: nat)
    requires k < |nodes|
  {
    nodes[k].name == name && forall j :: k < j < |nodes| ==> nodes[j].name != name
  }

  /** The last node of a name decides whether the name is that of an external node. */
  lemma {:induction false} ExternalIs(nodes: seq<Node>, name: string)
    ensures IsExternalName(nodes, name) <==>
            exists k :: 0 <= k < |nodes| && nodes[k].isExternal && LastNamed(nodes, name, k)
  {
    if nodes != [] {
      var n := |nodes| - 1;
      ExternalIs(nodes[..n], name);
      if nodes[n].name == name {
        assert nodes[n].isExternal ==> LastNamed(nodes, name, n);
      } else {
        forall k | 0 <= k < n ensures LastNamed(nodes, name, k) <==> LastNamed(nodes[..n], name, k) { }
        assert !LastNamed(nodes, name, n);
      }
    }
  }

  /** The end of a link at the node, and the name at its other end; on a link from a node to itself, the first. */
  function EndsAt(node: Node, l: Link): Option<(LinkEnd, string)> {
    if l.from.name == node.name then Some((l.from, l.to.name))
    else if l.to.name == node.name then Some((l.to, l.from.name))
    else None
  }

  /** What is known of a link's end before its template is chosen. */
  ghost predicate Describes(r: Raw, node: Node, nodes: seq<Node>, m: map<string, Policy>, end: LinkEnd, remote: string)
    requires HasBuiltins(m)
  {
    && r.end == end && r.remote == remote
    && (r.remoteExternal <==> IsExternalName(nodes, remote))
    && (r.external <==> IsExternalName(nodes, remote) || node.isExternal)
    && r.policyID == PolicyOf(m, end, IsExternalName(nodes, remote)) && r.pol == m[r.policyID]
    && r.variant == Variant(EndCost(end, r.pol), EndRouting(end, r.pol))
  }

  /** The k-th of the raw links describes the own[k]-th link. */
  ghost predicate DescribesAll(raws: seq<Raw>, own: seq<nat>, node: Node, nodes: seq<Node>, m: map<string, Policy>,
                               links: seq<Link>)
    requires HasBuiltins(m)
  {
    |raws| == |own| && forall i :: 0 <= i < |own| ==>
      own[i] < |links| && EndsAt(node, links[own[i]]).Some? &&
      var (end, remote) := EndsAt(node, links[own[i]]).value;
      Describes(raws[i], node, nodes, m, end, remote)
  }

  /** The places of a node's links, in order. */
  ghost predicate IsOwn(own: seq<nat>, node: Node, links: seq<Link>) {
    && (forall k: nat :: k in own <==> k < |links| && EndsAt(node, links[k]).Some?)
    && forall i, j :: 0 <= i < j < |own| ==> own[i] < own[j]
  }

  lemma OwnGrows(own: seq<nat>, node: Node, links: seq<Link>)
    requires links != [] && IsOwn(own, node, links[..|links| - 1])
    ensures IsOwn(if EndsAt(node, links[|links| - 1]).Some? then own + [|links| - 1] else own, node, links)
  {
    hide EndsAt;
    var n := |links| - 1;
    forall k: nat | k in own ensures k < n { }
    assert forall i :: 0 <= i < |own| ==> own[i] in own;
    forall k: nat ensures k in own <==> k < n && EndsAt(node, links[k]).Some? {
      assert k < n ==> links[..n][k] == links[k];
    }
  }

  /** The links of a node, in their order, each described from the node's end. */
  lemma {:induction false} RawsAre(node: Node, nodes: seq<Node>, m: map<string, Policy>, links: seq<Link>)
    returns (own: seq<nat>)
    requires HasBuiltins(m)
    ensures IsOwn(own, node, links) && DescribesAll(Raws(node, nodes, m, links), own, node, nodes, m, links)
  {
    if links == [] {
      own := [];
    } else {
      hide DescribesAll, IsOwn, EndsAt, RawsOf;
      var n := |links| - 1;
      var before := RawsAre(node, nodes, m, links[..n]);
      own := if EndsAt(node, links[n]).Some? then before + [n] else before;
      OneMore(Raws(node, nodes, m, links[..n]), before, node, nodes, m, links);
      OwnGrows(before, node, links);
    }
  }

  lemma OneMore(raws: seq<Raw>, own: seq<nat>, node: Node, nodes: seq<Node>, m: map<string, Policy>, links: seq<Link>)
    requires HasBuiltins(m) && links != []
    requires DescribesAll(raws, own, node, nodes, m, links[..|links| - 1])
    ensures var n := |links| - 1;
            DescribesAll(raws + RawsOf(node, nodes, m, links[n]),
                         if EndsAt(node, links[n]).Some? then own + [n] else own, node, nodes, m, links)
  {
    OneRaw(node, nodes, m, links[|links| - 1]);
    hide Describes, EndsAt, RawsOf;
  }

  lemma OneRaw(node: Node, nodes: seq<Node>, m: map<string, Policy>, l: Link)
    requires HasBuiltins(m)
    ensures match EndsAt(node, l)
            case None => RawsOf(node, nodes, m, l) == []
            case Some((end, remote)) =>
              |RawsOf(node, nodes, m, l)| == 1 && Describes(RawsOf(node, nodes, m, l)[0], node, nodes, m, end, remote)
  {
    hide IsExternalName, EndCost, EndRouting, PolicyOf;
  }

  /** Without a policy of one's own, a family is that of all links with the policy; dn42 towards external nodes is a
      family apart. */
  lemma FamilyIs(r: Raw)
    ensures FamilyOf(r) ==
            if r.policyID == "dn42" && r.remoteExternal then External
            else if r.policyID == "default" then Default
            else if r.policyID == "none" then Unrestricted
            else Custom(r.policyID)
  {
  }

  // ----- Definitions -----

  /** The variant all links of a family share. */
  ghost predicate OnlyVariant(raws: seq<Raw>, f: Family, v: Variant) {
    && (exists r :: r in raws && FamilyOf(r) == f && r.variant == v)
    && forall r :: r in raws && FamilyOf(r) == f ==> r.variant == v
  }

  /** The base of a family is the variant its links share, and when they differ or there are none, what its own
      policy says. */
  lemma BaseIs(raws: seq<Raw>, m: map<string, Policy>, f: Family, v: Variant, p: Policy)
    requires var id := match f
                       case Default => "default"
                       case External => "dn42"
                       case Unrestricted => "none"
                       case Custom(id) => id;
             id in m && m[id] == p
    ensures OnlyVariant(raws, f, v) ==> Base(raws, m, f) == v
    ensures (forall w :: !OnlyVariant(raws, f, w)) ==>
      var own := Base(raws, m, f);
      && own.cost == (if p.cost == 0 then 100 else p.cost)
      && own.routing == if Trim(p.routingPolicy) == "" then "full" else NormalizeRoutingPolicy(p.routingPolicy)
  {
    hide FamilyOf, Trim, NormalizeRoutingPolicy;
    forall w ensures OnlyVariant(raws, f, w) <==> Variants(raws, f) == {w} {
      var vs := Variants(raws, f);
      if OnlyVariant(raws, f, w) {
        assert forall x :: x in vs <==> x in {w};
      }
      if vs == {w} {
        assert w in vs;
        assert forall r :: r in raws && FamilyOf(r) == f ==> r.variant in vs;
      }
    }
    hide Variants, OnlyVariant;
  }

  /** Besides the variants of its links, a family has its base defined: the default one always, that of external
      nodes at a link with one, that of none for a link with it, and a custom one for its links. */
  lemma EmittedAre(raws: seq<Raw>, m: map<string, Policy>, f: Family, v: Variant)
    ensures var base := Base(raws, m, f);
            Emits(raws, m, DefinitionOf(f, v, base)) <==>
            if v != base then exists r :: r in raws && FamilyOf(r) == f && r.variant == v
            else match f
              case Default => true
              case External => exists r :: r in raws && r.external
              case Unrestricted => exists r :: r in raws && r.policyID == "none"
              case Custom(id) => exists r :: r in raws && FamilyOf(r) == f
  {
    hide FamilyOf, Base, VariantName;
  }

  // ----- Names -----

  /** A template is called after its family, then after its routing policy and its cost where these differ from
      the base. */
  lemma NameIs(f: Family, v: Variant, base: Variant)
    ensures DefinitionOf(f, v, base).name ==
            (match f
             case Default => "easy42_peer"
             case External => "external_peer"
             case Unrestricted => "none_peer"
             case Custom(id) => "pol_peer_" + SanitizeIdentifier(id))
            + (if v.routing == base.routing then "" else "_" + v.routing)
            + (if v.cost == base.cost then "" else if v.cost < 0 then "_cost_n" + Numeral(-v.cost) else "_cost_" + Numeral(v.cost))
  {
    hide Numeral, SanitizeIdentifier;
    assert v.cost < 0 ==> "_cost_" + "n" + Numeral(-v.cost) == "_cost_n" + Numeral(-v.cost);
  }

  predicate WordChar(c: char) {
    'a' <= c <= 'z' || 'A' <= c <= 'Z' || '0' <= c <= '9' || c == '_'
  }

  /** The text with every other character turned into an underscore. */
  predicate Underscored(s: string, r: string) {
    |r| == |s| && forall i :: 0 <= i < |s| ==> r[i] == if WordChar(s[i]) then s[i] else '_'
  }

  /** A sanitized identifier is the underscored text without its outer underscores, or "item" without any other
      character. */
  lemma SanitizedIs(s: string) returns (u: string, i: nat, j: nat)
    ensures Underscored(s, u) && i <= j <= |u|
    ensures forall k :: 0 <= k < i || j <= k < |u| ==> u[k] == '_'
    ensures i < j ==> u[i] != '_' && u[j - 1] != '_' && SanitizeIdentifier(s) == u[i..j]
    ensures i == j ==> SanitizeIdentifier(s) == "item"
  {
    u := SanitizeChars(s);
    i, j := OuterUnderscores(u);
  }

  lemma {:induction false} OuterUnderscores(u: string) returns (i: nat, j: nat)
    ensures i <= j <= |u| && TrimUnderscores(u) == u[i..j]
    ensures forall k :: 0 <= k < i || j <= k < |u| ==> u[k] == '_'
    ensures i < j ==> u[i] != '_' && u[j - 1] != '_'
    decreases |u|
  {
    if u != "" && u[0] == '_' {
      var a, b := OuterUnderscores(u[1..]);
      i, j := a + 1, b + 1;
      assert u[1..][a..b] == u[i..j];
    } else if u != "" && u[|u| - 1] == '_' {
      i, j := OuterUnderscores(u[..|u| - 1]);
      assert u[..|u| - 1][i..j] == u[i..j];
    } else {
      i, j := 0, |u|;
      assert u[0..|u|] == u;
    }
  }
}
