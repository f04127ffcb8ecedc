/** When definitions of different policies share a template name. */
module TemplateNames {
  import opened Wrappers
  import opened Text
  import opened BirdTemplates

  // ----- What a name appends to its base name -----

  function Suffix(v: Variant, base: Variant): string {
    RoutingPart(v, base) + CostPart(v, base)
  }

  predicate NumberChar(c: char) {
    c == 'n' || IsDigit(c)
  }

  /** A cost suffix: its only later underscore stands before the number. */
  lemma CostSuffixChars(cost: int)
    ensures var s := CostSuffix(cost);
            && |s| > 6 && s[0] == '_' && s[1] == 'c' && s[5] == '_'
            && (forall i :: 1 <= i < 5 ==> s[i] != '_')
            && (forall i :: 6 <= i < |s| ==> NumberChar(s[i]))
  {
    var number := if cost < 0 then "n" + Numeral(-cost) else Numeral(cost);
    assert CostSuffix(cost) == "_cost_" + number;
    assert forall c :: c in number ==> NumberChar(c);
    forall i | 6 <= i < |CostSuffix(cost)| ensures NumberChar(CostSuffix(cost)[i]) {
      assert CostSuffix(cost)[i] == number[i - 6];
    }
    hide Numeral;
  }

  /** Inside a routing part, an underscore only stands before "only". */
  lemma RoutingPartChars(v: Variant, base: Variant, i: nat)
    requires IsRoutingPolicy(v.routing)
    ensures var s := RoutingPart(v, base);
            && (s != "" ==> |s| >= 2 && s[0] == '_' && s[1] in "fsra" && s[|s| - 1] != '_')
            && (0 < i < |s| && s[i] == '_' ==> i + 1 < |s| && s[i + 1] == 'o')
  {
  }

  lemma SuffixStart(v: Variant, base: Variant)
    requires IsRoutingPolicy(v.routing)
    ensures var s := Suffix(v, base);
            && (s == "" <==> v == base)
            && (s != "" ==> |s| >= 2 && s[0] == '_')
            && (s != "" && v.routing != base.routing ==> s[1] in "fsra")
            && (s != "" && v.routing == base.routing ==> s[1] == 'c')
  {
    RoutingPartChars(v, base, 0);
    CostSuffixChars(v.cost);
    hide CostSuffix;
  }

  lemma SuffixChar(v: Variant, base: Variant, k: nat)
    requires k < |Suffix(v, base)|
    ensures var r, c := RoutingPart(v, base), CostPart(v, base);
            |Suffix(v, base)| == |r| + |c| && Suffix(v, base)[k] == if k < |r| then r[k] else c[k - |r|]
  {
    hide RoutingPart, CostPart;
  }

  /** Behind its first character, an underscore and a letter that starts a suffix only stand where
      the cost starts. */
  lemma SuffixInside(v: Variant, base: Variant, k: nat)
    requires IsRoutingPolicy(v.routing) && 0 < k && k + 1 < |Suffix(v, base)|
    requires Suffix(v, base)[k] == '_' && Suffix(v, base)[k + 1] in "fsrac"
    ensures v.routing != base.routing && v.cost != base.cost && k == |RoutingPart(v, base)|
  {
    SuffixChar(v, base, k);
    SuffixChar(v, base, k + 1);
    RoutingPartChars(v, base, k);
    CostSuffixChars(v.cost);
    hide CostSuffix, RoutingPart, IsRoutingPolicy, Suffix;
  }

  /** One suffix ends with another: they are equal, the other is empty, or a routing policy and a
      cost go on where only the same cost does. */
  lemma SuffixesOverlap(v: Variant, base: Variant, w: Variant, other: Variant, p: string)
    requires IsRoutingPolicy(v.routing) && IsRoutingPolicy(w.routing)
    requires Suffix(v, base) == p + Suffix(w, other) && p != "" && w != other
    ensures v.routing != base.routing && v.cost != base.cost && p == "_" + v.routing
    ensures w.routing == other.routing && w.cost != other.cost && w.cost == v.cost
  {
    var s, t := Suffix(w, other), Suffix(v, base);
    SuffixStart(w, other);
    assert t[|p|] == s[0] && t[|p| + 1] == s[1];
    SuffixInside(v, base, |p|);
    assert p == t[..|p|] == RoutingPart(v, base);
    assert s == t[|p|..] == CostPart(v, base);
    CostSuffixChars(v.cost);
    hide Suffix, IsRoutingPolicy;
    assert s[1] == 'c' && w.routing == other.routing;
    assert s == "" + CostPart(w, other) by {
      CostOnly(w, other);
    }
    CostSuffixInjective(v.cost, w.cost);
  }

  lemma CostOnly(w: Variant, other: Variant)
    requires w.routing == other.routing
    ensures Suffix(w, other) == CostPart(w, other)
  {
  }

  // ----- Policies with the same template name -----

  /** Names of two policies coincide. */
  ghost predicate Clash(raws: seq<Raw>, m: map<string, Policy>, a: string, b: string) {
    exists d, e :: Emits(raws, m, d) && Emits(raws, m, e) && d.family == Custom(a) && e.family == Custom(b)
                   && d.name == e.name
  }

  ghost predicate Used(raws: seq<Raw>, id: string) {
    HasBase(raws, Custom(id))
  }

  /** A variant of b besides its base. */
  ghost predicate Extra(raws: seq<Raw>, m: map<string, Policy>, b: string, v: Variant) {
    v in Variants(raws, Custom(b)) && v != Base(raws, m, Custom(b))
  }

  /** The identifier of a is the one of b with what a variant of b appends; or only with the routing
      policy the variant appends, while a also has the cost the variant appends. */
  ghost predicate Continues(raws: seq<Raw>, m: map<string, Policy>, a: string, b: string) {
    var baseA, baseB := Base(raws, m, Custom(a)), Base(raws, m, Custom(b));
    exists v ::
      && Extra(raws, m, b, v)
      && (|| SanitizeIdentifier(a) == SanitizeIdentifier(b) + Suffix(v, baseB)
          || (&& v.routing != baseB.routing && v.cost != baseB.cost
              && SanitizeIdentifier(a) == SanitizeIdentifier(b) + ("_" + v.routing)
              && Extra(raws, m, a, Variant(v.cost, baseA.routing))))
  }

  ghost predicate Confusable(raws: seq<Raw>, m: map<string, Policy>, a: string, b: string) {
    && a != b && Used(raws, a) && Used(raws, b)
    && (|| SanitizeIdentifier(a) == SanitizeIdentifier(b)
        || Continues(raws, m, a, b) || Continues(raws, m, b, a))
  }

  lemma CustomName(id: string, v: Variant, base: Variant)
    ensures DefinitionOf(Custom(id), v, base).name == "pol_peer_" + (SanitizeIdentifier(id) + Suffix(v, base))
  {
    hide RoutingPart, CostPart, SanitizeIdentifier;
    var head, r, c := SanitizeIdentifier(id), RoutingPart(v, base), CostPart(v, base);
    assert "pol_peer_" + head + r + c == "pol_peer_" + (head + (r + c));
  }

  lemma EmittedVariant(raws: seq<Raw>, m: map<string, Policy>, d: Definition, id: string)
    requires d.family == Custom(id)
    ensures var base, v := Base(raws, m, Custom(id)), Variant(d.cost, d.routing);
            Emits(raws, m, d) <==>
            d == DefinitionOf(Custom(id), v, base) && Used(raws, id) && (v == base || Extra(raws, m, id, v))
  {
    hide Base, VariantName, BaseName;
    var v := Variant(d.cost, d.routing);
    if v in Variants(raws, Custom(id)) {
      var r :| r in raws && FamilyOf(r) == Custom(id) && r.variant == v;
    }
  }

  lemma SplitNames(x: string, s: string, y: string, t: string) returns (p: string)
    requires x + s == y + t && |x| >= |y|
    ensures x == y + p && t == p + s
  {
    p := x[|y|..];
    assert (x + s)[..|y|] == y;
    assert (x + s)[|y|..] == p + s && (y + t)[|y|..] == t;
  }

  lemma SameBehind(head: string, x: string, y: string)
    requires head + x == head + y
    ensures x == y
  {
    assert (head + x)[|head|..] == x && (head + y)[|head|..] == y;
  }

  /** Definitions of a and b with one name, that of a with the longer identifier. */
  lemma ClashContinues(raws: seq<Raw>, m: map<string, Policy>, a: string, b: string, d: Definition, e: Definition)
    requires forall r :: r in raws ==> Resolved(m, r)
    requires Emits(raws, m, d) && Emits(raws, m, e) && d.family == Custom(a) && e.family == Custom(b)
    requires d.name == e.name && |SanitizeIdentifier(a)| >= |SanitizeIdentifier(b)|
    ensures SanitizeIdentifier(a) == SanitizeIdentifier(b) || Continues(raws, m, a, b)
  {
    var baseA, baseB := Base(raws, m, Custom(a)), Base(raws, m, Custom(b));
    var w, v := Variant(d.cost, d.routing), Variant(e.cost, e.routing);
    BaseIsRouting(raws, m, Custom(a));
    BaseIsRouting(raws, m, Custom(b));
    EmittedVariant(raws, m, d, a);
    EmittedVariant(raws, m, e, b);
    CustomName(a, w, baseA);
    CustomName(b, v, baseB);
    hide Base, Emits, DefinitionOf, SanitizeIdentifier, IsRoutingPolicy, Resolved, Variants;
    SameBehind("pol_peer_", SanitizeIdentifier(a) + Suffix(w, baseA), SanitizeIdentifier(b) + Suffix(v, baseB));
    var p := SplitNames(SanitizeIdentifier(a), Suffix(w, baseA), SanitizeIdentifier(b), Suffix(v, baseB));
    if p == "" {
      assert SanitizeIdentifier(b) + p == SanitizeIdentifier(b);
    } else {
      assert IsRoutingPolicy(w.routing) && IsRoutingPolicy(v.routing);
      SuffixStart(v, baseB);
      assert Suffix(v, baseB) != "" && Extra(raws, m, b, v);
      if w == baseA {
        SuffixStart(w, baseA);
        assert p + Suffix(w, baseA) == p;
      } else {
        SuffixesOverlap(v, baseB, w, baseA, p);
        assert w == Variant(v.cost, baseA.routing);
      }
    }
  }

  lemma EmitVariant(raws: seq<Raw>, m: map<string, Policy>, id: string, v: Variant) returns (d: Definition)
    requires Used(raws, id) && (v == Base(raws, m, Custom(id)) || Extra(raws, m, id, v))
    ensures Emits(raws, m, d) && d.family == Custom(id)
    ensures d.name == "pol_peer_" + (SanitizeIdentifier(id) + Suffix(v, Base(raws, m, Custom(id))))
    ensures d.cost == v.cost && d.routing == v.routing
  {
    var base := Base(raws, m, Custom(id));
    d := DefinitionOf(Custom(id), v, base);
    CustomName(id, v, base);
    EmittedVariant(raws, m, d, id);
    hide Base, Variants, SanitizeIdentifier, Suffix, VariantName;
  }

  lemma BaseSuffix(base: Variant)
    ensures Suffix(base, base) == ""
  {
  }

  lemma ContinuesClash(raws: seq<Raw>, m: map<string, Policy>, a: string, b: string)
    requires Used(raws, a) && Used(raws, b) && Continues(raws, m, a, b)
    ensures Clash(raws, m, a, b)
  {
    var baseA, baseB := Base(raws, m, Custom(a)), Base(raws, m, Custom(b));
    hide Base, Variants, Extra, Used, Emits, SanitizeIdentifier;
    var x, y := SanitizeIdentifier(a), SanitizeIdentifier(b);
    var v :| Extra(raws, m, b, v)
      && (x == y + Suffix(v, baseB)
          || (v.routing != baseB.routing && v.cost != baseB.cost && x == y + ("_" + v.routing)
              && Extra(raws, m, a, Variant(v.cost, baseA.routing))));
    var e := EmitVariant(raws, m, b, v);
    BaseSuffix(baseA);
    if x == y + Suffix(v, baseB) {
      var d := EmitVariant(raws, m, a, baseA);
      assert x + "" == x;
    } else {
      var w := Variant(v.cost, baseA.routing);
      var d := EmitVariant(raws, m, a, w);
      assert w.cost != baseA.cost by { ExtraDiffers(raws, m, a, w); }
      assert Suffix(w, baseA) == "" + CostSuffix(v.cost) == CostSuffix(v.cost);
      assert Suffix(v, baseB) == "_" + v.routing + CostSuffix(v.cost);
      hide Suffix, CostSuffix;
      Regroup(y, "_" + v.routing, CostSuffix(v.cost));
    }
  }

  lemma ExtraDiffers(raws: seq<Raw>, m: map<string, Policy>, a: string, w: Variant)
    requires Extra(raws, m, a, w)
    ensures w != Base(raws, m, Custom(a))
  {
  }

  lemma Regroup(x: string, y: string, z: string)
    ensures x + (y + z) == (x + y) + z
  {
  }

  lemma SameIdentifierClash(raws: seq<Raw>, m: map<string, Policy>, a: string, b: string)
    requires Used(raws, a) && Used(raws, b) && SanitizeIdentifier(a) == SanitizeIdentifier(b)
    ensures Clash(raws, m, a, b)
  {
    hide Base, Variants, Extra, Used, Emits, SanitizeIdentifier;
    BaseSuffix(Base(raws, m, Custom(a)));
    BaseSuffix(Base(raws, m, Custom(b)));
    var d := EmitVariant(raws, m, a, Base(raws, m, Custom(a)));
    var e := EmitVariant(raws, m, b, Base(raws, m, Custom(b)));
  }

  /** Two custom policies share a template name exactly when both are used and their sanitized
      identifiers are equal, or one continues the other as a variant of the other does. */
  lemma ClashesExactly(raws: seq<Raw>, m: map<string, Policy>, a: string, b: string)
    requires a != b && forall r :: r in raws ==> Resolved(m, r)
    ensures Clash(raws, m, a, b) <==> Confusable(raws, m, a, b)
  {
    if Clash(raws, m, a, b) {
      var d, e :| Emits(raws, m, d) && Emits(raws, m, e) && d.family == Custom(a) && e.family == Custom(b)
                  && d.name == e.name;
      EmittedVariant(raws, m, d, a);
      EmittedVariant(raws, m, e, b);
      hide Emits, Continues, Used, SanitizeIdentifier, Resolved;
      if |SanitizeIdentifier(a)| >= |SanitizeIdentifier(b)| {
        ClashContinues(raws, m, a, b, d, e);
      } else {
        ClashContinues(raws, m, b, a, e, d);
      }
    }
    if Confusable(raws, m, a, b) {
      hide Emits, Continues, Used, SanitizeIdentifier, Resolved;
      if SanitizeIdentifier(a) == SanitizeIdentifier(b) {
        SameIdentifierClash(raws, m, a, b);
      } else if Continues(raws, m, a, b) {
        ContinuesClash(raws, m, a, b);
      } else {
        ContinuesClash(raws, m, b, a);
      }
    }
  }

  /** The template names of a node are unique exactly when no two custom policies in use are confusable. */
  lemma NamesAreUniqueUnless(raws: seq<Raw>, m: map<string, Policy>)
    requires forall r :: r in raws ==> Resolved(m, r)
    ensures (forall d, e :: Emits(raws, m, d) && Emits(raws, m, e) && d.name == e.name ==> d == e)
            <==> forall a, b :: !Confusable(raws, m, a, b)
  {
    hide Emits, Confusable, Resolved;
    if forall a, b :: !Confusable(raws, m, a, b) {
      forall d, e | Emits(raws, m, d) && Emits(raws, m, e) && d.name == e.name ensures d == e {
        if d.family == e.family {
          NamesIdentify(raws, m, d, e);
        } else {
          OnlyCustomNamesClash(raws, m, d, e);
          assert Clash(raws, m, d.family.id, e.family.id);
          ClashesExactly(raws, m, d.family.id, e.family.id);
        }
      }
    }
    if a, b :| Confusable(raws, m, a, b) {
      ConfusableDiffer(raws, m, a, b);
      ClashesExactly(raws, m, a, b);
    }
  }

  lemma ConfusableDiffer(raws: seq<Raw>, m: map<string, Policy>, a: string, b: string)
    requires Confusable(raws, m, a, b)
    ensures a != b
  {
  }

  // ----- Clashes at a node -----

  /** Identifiers that differ only in characters that are replaced. */
  lemma AlikeIdentifiersClash(raws: seq<Raw>, m: map<string, Policy>, r: Raw, s: Raw)
    requires r in raws && s in raws && FamilyOf(r) == Custom("a-b") && FamilyOf(s) == Custom("a_b")
    ensures Clash(raws, m, "a-b", "a_b")
  {
    assert SanitizeChars("a-b") == "a_b" && SanitizeChars("a_b") == "a_b";
    assert Used(raws, "a-b") && Used(raws, "a_b");
    hide Used, Clash;
    SameIdentifierClash(raws, m, "a-b", "a_b");
  }

  /** Policy x has links of cost 100 and 200; a policy named like the second of them has one link. */
  function ContinuedPolicies(): seq<Policy> {
    [Policy("x", 100, ""), Policy("x_cost_200", 100, "")]
  }

  function ContinuedLinks(): seq<Link> {
    [Link(LinkEnd("n", "x", 100, ""), LinkEnd("p", "", 0, "")),
     Link(LinkEnd("n", "x", 200, ""), LinkEnd("q", "", 0, "")),
     Link(LinkEnd("n", "x_cost_200", 100, ""), LinkEnd("r", "", 0, ""))]
  }

  lemma ContinuedRaws(m: map<string, Policy>) returns (r0: Raw, r1: Raw, r2: Raw)
    requires IsPolicyMap(m, AllPolicies(ContinuedPolicies())) && HasBuiltins(m)
    ensures Raws(Node("n", false), [], m, ContinuedLinks()) == [r0, r1, r2]
    ensures r0.variant == r2.variant == Variant(100, FULL) && r1.variant == Variant(200, FULL)
    ensures FamilyOf(r0) == FamilyOf(r1) == Custom("x") && FamilyOf(r2) == Custom("x_cost_200")
    ensures PolicyVariant(m, "x") == Variant(100, FULL)
  {
    ContinuedMap(m);
    var node, links := Node("n", false), ContinuedLinks();
    r0 := RawOf(node, false, m, links[0].from, "p");
    r1 := RawOf(node, false, m, links[1].from, "q");
    r2 := RawOf(node, false, m, links[2].from, "r");
    hide IsPolicyMap;
    assert links[..2][..1] == links[..1] && links[..1][..0] == [] && links[..2][1] == links[1];
    assert Raws(node, [], m, links[..1]) == [] + [r0];
    assert Raws(node, [], m, links[..2]) == [r0] + [r1];
    assert Raws(node, [], m, links) == [r0, r1] + [r2];
  }

  lemma ContinuedMap(m: map<string, Policy>)
    requires IsPolicyMap(m, AllPolicies(ContinuedPolicies()))
    ensures "x" in m && m["x"] == Policy("x", 100, "")
    ensures "x_cost_200" in m && m["x_cost_200"] == Policy("x_cost_200", 100, "")
  {
    var all := AllPolicies(ContinuedPolicies());
    assert all[|all| - 1] == Policy("x_cost_200", 100, "");
    assert all[..|all| - 1][|all| - 2] == Policy("x", 100, "");
    assert LastPolicy(all, "x_cost_200") == Some(all[|all| - 1]);
    assert LastPolicy(all, "x") == Some(all[|all| - 2]);
  }

  lemma ContinuedBases(raws: seq<Raw>, m: map<string, Policy>, r0: Raw, r1: Raw, r2: Raw)
    requires raws == [r0, r1, r2]
    requires r0.variant == r2.variant == Variant(100, FULL) && r1.variant == Variant(200, FULL)
    requires FamilyOf(r0) == FamilyOf(r1) == Custom("x") && FamilyOf(r2) == Custom("x_cost_200")
    requires PolicyVariant(m, "x") == Variant(100, FULL)
    ensures Base(raws, m, Custom("x")) == Base(raws, m, Custom("x_cost_200")) == Variant(100, FULL)
    ensures Used(raws, "x") && Used(raws, "x_cost_200") && Extra(raws, m, "x", Variant(200, FULL))
  {
    hide FamilyOf, PolicyVariant;
    assert r0 in raws && r1 in raws && r2 in raws;
    var low, high := Variant(100, FULL), Variant(200, FULL);
    assert Variants(raws, Custom("x")) == {low, high};
    assert forall v :: Variants(raws, Custom("x")) != {v};
    assert Variants(raws, Custom("x_cost_200")) == {low};
  }

  lemma ContinuedTexts()
    ensures SanitizeIdentifier("x") == "x" && SanitizeIdentifier("x_cost_200") == "x_cost_200"
    ensures Suffix(Variant(200, FULL), Variant(100, FULL)) == "_cost_200"
  {
    assert SanitizeChars("x") == "x" && SanitizeChars("x_cost_200") == "x_cost_200";
    assert Numeral(2) == "2" && Numeral(20) == "20" && Numeral(200) == "200";
  }

  lemma ContinuedText() returns (low: string, high: string)
    ensures low == "pol_peer_" + (SanitizeIdentifier("x_cost_200") + Suffix(Variant(100, FULL), Variant(100, FULL)))
    ensures high == "pol_peer_" + (SanitizeIdentifier("x") + Suffix(Variant(200, FULL), Variant(100, FULL)))
    ensures low == high == "pol_peer_x_cost_200"
  {
    ContinuedTexts();
    BaseSuffix(Variant(100, FULL));
    hide SanitizeIdentifier, Suffix;
    low := "pol_peer_" + ("x_cost_200" + "");
    high := "pol_peer_" + ("x" + "_cost_200");
  }

  /** Sanitized identifiers that differ may clash too: one name, and costs 100 and 200. */
  lemma ContinuedNamesClash(m: map<string, Policy>) returns (d: Definition, e: Definition)
    requires IsPolicyMap(m, AllPolicies(ContinuedPolicies())) && HasBuiltins(m)
    ensures var raws := Raws(Node("n", false), [], m, ContinuedLinks());
            && Emits(raws, m, d) && Emits(raws, m, e) && d.name == e.name == "pol_peer_x_cost_200"
            && d.family == Custom("x_cost_200") && d.cost == 100 && e.family == Custom("x") && e.cost == 200
  {
    hide *;
    var r0, r1, r2 := ContinuedRaws(m);
    var raws := [r0, r1, r2];
    ContinuedBases(raws, m, r0, r1, r2);
    var low, high := ContinuedText();
    d := EmitVariant(raws, m, "x_cost_200", Variant(100, FULL));
    e := EmitVariant(raws, m, "x", Variant(200, FULL));
  }
}
