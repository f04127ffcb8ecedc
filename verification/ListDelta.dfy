/** Applying a list change twice. */
module ListDelta {
  import opened Wrappers
  import opened Text
  import opened ApplyConfig

  ghost predicate Equivalence(eq: (string, string) -> bool) {
    && (forall x :: eq(x, x))
    && (forall x, y :: eq(x, y) ==> eq(y, x))
    && (forall x, y, z :: eq(x, y) && eq(y, z) ==> eq(x, z))
  }

  lemma TagsAreEquivalence()
    ensures Equivalence(TagEqual)
  {
    hide ToLower, Trim;
  }

  // ----- Items a deletion hits -----

  /** The items that no deletion hits, or those that one hits, in order. */
  function HitItems(items: seq<string>, dels: seq<string>, eq: (string, string) -> bool, hit: bool): seq<string> {
    if items == [] then []
    else HitItems(items[..|items| - 1], dels, eq, hit)
         + if Hits(dels, items[|items| - 1], eq) == hit then [items[|items| - 1]] else []
  }

  lemma {:induction false} HitItemsAre(items: seq<string>, dels: seq<string>, eq: (string, string) -> bool, hit: bool,
                                       x: string)
    ensures x in HitItems(items, dels, eq, hit) <==> x in items && Hits(dels, x, eq) == hit
  {
    hide Hits;
    if items != [] {
      HitItemsAre(items[..|items| - 1], dels, eq, hit, x);
      assert items == items[..|items| - 1] + [items[|items| - 1]];
    }
  }

  lemma {:induction false} HitItemsJoin(a: seq<string>, b: seq<string>, dels: seq<string>,
                                        eq: (string, string) -> bool, hit: bool)
    ensures HitItems(a + b, dels, eq, hit) == HitItems(a, dels, eq, hit) + HitItems(b, dels, eq, hit)
  {
    hide Hits;
    if b == [] {
      assert a + b == a;
    } else {
      var rest, last := b[..|b| - 1], b[|b| - 1];
      assert (a + b)[..|a + b| - 1] == a + rest && (a + b)[|a + b| - 1] == last;
      HitItemsJoin(a, rest, dels, eq, hit);
    }
  }

  lemma {:induction false} AllUnhit(items: seq<string>, dels: seq<string>, eq: (string, string) -> bool)
    requires forall x :: x in items ==> !Hits(dels, x, eq)
    ensures HitItems(items, dels, eq, false) == items
  {
    hide Hits;
    if items != [] {
      var rest, last := items[..|items| - 1], items[|items| - 1];
      assert items == rest + [last] && forall x :: x in rest ==> x in items;
      AllUnhit(rest, dels, eq);
    }
  }

  lemma HitsMore(dels: seq<string>, x: string, eq: (string, string) -> bool)
    requires dels != []
    ensures var last := Trim(dels[|dels| - 1]);
            Hits(dels, x, eq) <==> Hits(dels[..|dels| - 1], x, eq) || (last != "" && eq(x, last))
  {
    hide Trim;
    var rest := dels[..|dels| - 1];
    if Hits(rest, x, eq) {
      var i :| 0 <= i < |rest| && Trim(rest[i]) != "" && eq(x, Trim(rest[i]));
      assert dels[i] == rest[i];
    }
    if Hits(dels, x, eq) {
      var i :| 0 <= i < |dels| && Trim(dels[i]) != "" && eq(x, Trim(dels[i]));
      assert i < |rest| ==> rest[i] == dels[i];
    }
  }

  lemma {:induction false} DropUnhit(items: seq<string>, dels: seq<string>, eq: (string, string) -> bool)
    requires dels != [] && Trim(dels[|dels| - 1]) != ""
    ensures DropEqual(HitItems(items, dels[..|dels| - 1], eq, false), Trim(dels[|dels| - 1]), eq)
         == HitItems(items, dels, eq, false)
  {
    hide Trim, Hits;
    if items != [] {
      var rest, last := items[..|items| - 1], items[|items| - 1];
      var fewer, d := dels[..|dels| - 1], Trim(dels[|dels| - 1]);
      var before := HitItems(rest, fewer, eq, false);
      DropUnhit(rest, dels, eq);
      HitsMore(dels, last, eq);
      DropLast(before, last, d, eq);
      assert before + [] == before && DropEqual(before, d, eq) + [] == DropEqual(before, d, eq);
      hide DropEqual;
    }
  }

  lemma DropLast(items: seq<string>, last: string, d: string, eq: (string, string) -> bool)
    ensures DropEqual(items + [last], d, eq) == DropEqual(items, d, eq) + if eq(last, d) then [] else [last]
  {
    assert (items + [last])[..|items|] == items;
  }

  lemma {:induction false} NoHits(items: seq<string>, eq: (string, string) -> bool)
    ensures HitItems(items, [], eq, false) == items
  {
    if items != [] {
      NoHits(items[..|items| - 1], eq);
      assert !Hits([], items[|items| - 1], eq);
    }
  }

  lemma {:induction false} SameHits(items: seq<string>, dels: seq<string>, eq: (string, string) -> bool)
    requires dels != [] && Trim(dels[|dels| - 1]) == ""
    ensures HitItems(items, dels, eq, false) == HitItems(items, dels[..|dels| - 1], eq, false)
  {
    hide Trim, Hits;
    if items != [] {
      SameHits(items[..|items| - 1], dels, eq);
      HitsMore(dels, items[|items| - 1], eq);
    }
  }

  /** The deletions, one after the other, keep the items that none of them hits, in order. */
  lemma {:induction false} DeletedIsUnhit(items: seq<string>, dels: seq<string>, eq: (string, string) -> bool)
    ensures Deleted(items, dels, eq) == HitItems(items, dels, eq, false)
  {
    hide Trim, Hits;
    if dels == [] {
      NoHits(items, eq);
    } else {
      DeletedIsUnhit(items, dels[..|dels| - 1], eq);
      if Trim(dels[|dels| - 1]) == "" {
        SameHits(items, dels, eq);
      } else {
        DropUnhit(items, dels, eq);
      }
    }
  }

  // ----- Additions -----

  /** What the additions append. */
  function NewItems(kept: seq<string>, adds: seq<string>, eq: (string, string) -> bool): seq<string> {
    if adds == [] then []
    else
      var a, r := Trim(adds[|adds| - 1]), NewItems(kept, adds[..|adds| - 1], eq);
      if a == "" || HasEqual(kept + r, a, eq) then r else r + [a]
  }

  lemma {:induction false} AddedIsNew(kept: seq<string>, adds: seq<string>, eq: (string, string) -> bool)
    ensures Added(kept, adds, eq) == kept + NewItems(kept, adds, eq)
  {
    hide Trim, HasEqual;
    if adds != [] {
      var rest := adds[..|adds| - 1];
      AddedIsNew(kept, rest, eq);
      assert kept + NewItems(kept, rest, eq) + [Trim(adds[|adds| - 1])]
          == kept + (NewItems(kept, rest, eq) + [Trim(adds[|adds| - 1])]);
    }
  }

  lemma {:induction false} NewItemsPrefix(kept: seq<string>, adds: seq<string>, eq: (string, string) -> bool, n: nat)
    requires n <= |adds|
    ensures NewItems(kept, adds[..n], eq) <= NewItems(kept, adds, eq)
  {
    hide Trim, HasEqual;
    if n == |adds| {
      assert adds[..n] == adds;
    } else {
      var rest := adds[..|adds| - 1];
      assert rest[..n] == adds[..n];
      NewItemsPrefix(kept, rest, eq, n);
    }
  }

  lemma HitsAlike(dels: seq<string>, x: string, y: string, eq: (string, string) -> bool)
    requires Equivalence(eq) && eq(x, y)
    ensures Hits(dels, x, eq) <==> Hits(dels, y, eq)
  {
    hide Trim;
  }

  /** One addition of the second round, after the new items that no deletion hits were kept. */
  lemma ReaddOne(kept: seq<string>, all: seq<string>, before: seq<string>, a: string, dels: seq<string>,
                 eq: (string, string) -> bool)
    requires Equivalence(eq) && before <= all
    requires !HasEqual(kept + before, a, eq) ==> before + [a] <= all
    ensures var again := kept + HitItems(all, dels, eq, false) + HitItems(before, dels, eq, true);
            HasEqual(again, a, eq) <==> HasEqual(kept + before, a, eq) || !Hits(dels, a, eq)
  {
    var unhit, hit := HitItems(all, dels, eq, false), HitItems(before, dels, eq, true);
    forall x ensures x in unhit <==> x in all && !Hits(dels, x, eq) {
      HitItemsAre(all, dels, eq, false, x);
    }
    forall x ensures x in hit <==> x in before && Hits(dels, x, eq) {
      HitItemsAre(before, dels, eq, true, x);
    }
    forall x | eq(x, a) ensures Hits(dels, x, eq) <==> Hits(dels, a, eq) {
      HitsAlike(dels, x, a, eq);
    }
    assert forall x :: x in before ==> x in all;
    hide Hits, HitItems;
    if HasEqual(kept + before, a, eq) {
      var x :| x in kept + before && eq(x, a);
      assert x in kept + unhit + hit;
    } else if !Hits(dels, a, eq) {
      assert a in before + [a] && a in all;
      assert a in kept + unhit + hit;
    }
    if HasEqual(kept + unhit + hit, a, eq) && Hits(dels, a, eq) {
      var x :| x in kept + unhit + hit && eq(x, a);
      assert x in kept + before;
    }
  }

  /** The second round puts the hit new items back behind the others. */
  lemma {:induction false} ReaddAll(kept: seq<string>, all: seq<string>, adds: seq<string>, dels: seq<string>,
                                    eq: (string, string) -> bool)
    requires Equivalence(eq) && NewItems(kept, adds, eq) <= all
    ensures Added(kept + HitItems(all, dels, eq, false), adds, eq)
         == kept + HitItems(all, dels, eq, false) + HitItems(NewItems(kept, adds, eq), dels, eq, true)
  {
    hide Trim, HasEqual, Hits, Equivalence;
    var start := kept + HitItems(all, dels, eq, false);
    if adds == [] {
      assert start + [] == start;
    } else {
      var rest, a := adds[..|adds| - 1], Trim(adds[|adds| - 1]);
      var before := NewItems(kept, rest, eq);
      ReaddAll(kept, all, rest, dels, eq);
      if a != "" {
        ReaddOne(kept, all, before, a, dels, eq);
        if !HasEqual(kept + before, a, eq) {
          HitsLast(before, a, dels, eq);
          hide HitItems;
          assert start + HitItems(before, dels, eq, true) + [a] == start + (HitItems(before, dels, eq, true) + [a]);
        }
      }
    }
  }

  lemma HitsLast(before: seq<string>, a: string, dels: seq<string>, eq: (string, string) -> bool)
    ensures HitItems(before + [a], dels, eq, true)
         == HitItems(before, dels, eq, true) + if Hits(dels, a, eq) then [a] else []
  {
    assert (before + [a])[..|before|] == before;
    hide Hits;
  }

  // ----- Twice -----

  /** No item that a deletion hits stands before one that none hits. */
  ghost predicate HitItemsLast(items: seq<string>, dels: seq<string>, eq: (string, string) -> bool) {
    forall i, j :: 0 <= i < j < |items| && Hits(dels, items[i], eq) ==> Hits(dels, items[j], eq)
  }

  lemma {:induction false} HitCount(items: seq<string>, dels: seq<string>, eq: (string, string) -> bool)
    ensures |HitItems(items, dels, eq, false)| + |HitItems(items, dels, eq, true)| == |items|
    ensures forall i :: 0 <= i < |HitItems(items, dels, eq, false)| ==>
              !Hits(dels, HitItems(items, dels, eq, false)[i], eq)
    ensures forall i :: 0 <= i < |HitItems(items, dels, eq, true)| ==>
              Hits(dels, HitItems(items, dels, eq, true)[i], eq)
  {
    hide Hits;
    if items != [] {
      HitCount(items[..|items| - 1], dels, eq);
    }
  }

  lemma {:induction false} NoneHit(items: seq<string>, dels: seq<string>, eq: (string, string) -> bool)
    requires forall x :: x in items ==> !Hits(dels, x, eq)
    ensures HitItems(items, dels, eq, true) == []
  {
    hide Hits;
    if items != [] {
      var rest, last := items[..|items| - 1], items[|items| - 1];
      assert items == rest + [last] && forall x :: x in rest ==> x in items;
      NoneHit(rest, dels, eq);
    }
  }

  lemma {:induction false} SplitIsSame(items: seq<string>, dels: seq<string>, eq: (string, string) -> bool)
    requires HitItemsLast(items, dels, eq)
    ensures HitItems(items, dels, eq, false) + HitItems(items, dels, eq, true) == items
  {
    hide Hits;
    if items != [] {
      var rest, last := items[..|items| - 1], items[|items| - 1];
      SplitIsSame(rest, dels, eq);
      assert items == rest + [last];
      if !Hits(dels, last, eq) {
        forall x | x in rest ensures !Hits(dels, x, eq) {
          var i :| 0 <= i < |rest| && rest[i] == x;
          assert items[i] == x && items[|rest|] == last;
        }
        NoneHit(rest, dels, eq);
      }
    }
  }

  /** Putting the hit items last changes nothing exactly when they are last already. */
  lemma SplitExactly(items: seq<string>, dels: seq<string>, eq: (string, string) -> bool)
    ensures HitItems(items, dels, eq, false) + HitItems(items, dels, eq, true) == items
            <==> HitItemsLast(items, dels, eq)
  {
    var unhit, hit := HitItems(items, dels, eq, false), HitItems(items, dels, eq, true);
    if unhit + hit == items {
      HitCount(items, dels, eq);
      forall i | 0 <= i < |items| ensures Hits(dels, items[i], eq) <==> i >= |unhit| {
        assert items[i] == if i < |unhit| then unhit[i] else hit[i - |unhit|];
      }
    }
    if HitItemsLast(items, dels, eq) {
      SplitIsSame(items, dels, eq);
    }
  }

  lemma DeltaIs(items: seq<string>, toDel: Option<seq<string>>, toAdd: Option<seq<string>>,
                eq: (string, string) -> bool)
    ensures Delta(items, toDel, toAdd, eq) == Added(Deleted(items, Listed(toDel), eq), Listed(toAdd), eq)
  {
    hide Added, Deleted, Listed;
  }

  /** A second application of a change moves the new items that a deletion hits behind the others. */
  lemma DeltaTwice(items: seq<string>, toDel: Option<seq<string>>, toAdd: Option<seq<string>>,
                   eq: (string, string) -> bool)
    requires Equivalence(eq)
    ensures var dels, adds := Listed(toDel), Listed(toAdd);
            var kept := HitItems(items, dels, eq, false);
            var added := NewItems(kept, adds, eq);
            && Delta(items, toDel, toAdd, eq) == kept + added
            && Delta(kept + added, toDel, toAdd, eq)
               == kept + (HitItems(added, dels, eq, false) + HitItems(added, dels, eq, true))
  {
    hide *;
    var dels, adds := Listed(toDel), Listed(toAdd);
    var kept := HitItems(items, dels, eq, false);
    var added := NewItems(kept, adds, eq);
    DeltaIs(items, toDel, toAdd, eq);
    DeltaIs(kept + added, toDel, toAdd, eq);
    DeletedIsUnhit(items, dels, eq);
    AddedIsNew(kept, adds, eq);
    DeletedIsUnhit(kept + added, dels, eq);
    KeptStays(items, added, dels, eq);
    ReaddAll(kept, added, adds, dels, eq);
    assert kept + HitItems(added, dels, eq, false) + HitItems(added, dels, eq, true)
        == kept + (HitItems(added, dels, eq, false) + HitItems(added, dels, eq, true));
  }

  lemma KeptStays(items: seq<string>, added: seq<string>, dels: seq<string>, eq: (string, string) -> bool)
    ensures var kept := HitItems(items, dels, eq, false);
            HitItems(kept + added, dels, eq, false) == kept + HitItems(added, dels, eq, false)
  {
    var kept := HitItems(items, dels, eq, false);
    HitItemsJoin(kept, added, dels, eq, false);
    forall x | x in kept ensures !Hits(dels, x, eq) {
      HitItemsAre(items, dels, eq, false, x);
    }
    AllUnhit(kept, dels, eq);
  }

  /** Of the items the change appends, those that a deletion of the same change hits are the last. */
  ghost predicate Settles(items: seq<string>, p: ListPatch, eq: (string, string) -> bool) {
    HitItemsLast(NewItems(HitItems(items, Listed(p.del), eq, false), Listed(p.add), eq), Listed(p.del), eq)
  }

  lemma JoinedTails(a: seq<string>, b: seq<string>, c: seq<string>)
    ensures a + b == a + c <==> b == c
  {
    assert (a + b)[|a|..] == b && (a + c)[|a|..] == c;
  }

  /** Merging a list patch again changes nothing exactly when the patch gives a new list, or the
      appended items that its deletions hit come last. */
  lemma MergedListAgain(items: seq<string>, p: ListPatch, eq: (string, string) -> bool)
    requires Equivalence(eq)
    ensures MergedList(MergedList(items, p, eq), p, eq) == MergedList(items, p, eq)
            <==> p.items.Some? || Settles(items, p, eq)
  {
    hide Delta, Equivalence;
    if p.items.None? {
      var dels := Listed(p.del);
      var kept := HitItems(items, dels, eq, false);
      var added := NewItems(kept, Listed(p.add), eq);
      DeltaTwice(items, p.del, p.add, eq);
      SplitExactly(added, dels, eq);
      JoinedTails(kept, HitItems(added, dels, eq, false) + HitItems(added, dels, eq, true), added);
      if !IsPatched(p) {
        assert added == [];
      }
    }
  }

  // ----- Nodes and links twice -----

  lemma FieldsAgain(fields: Fields, patch: Fields, all: seq<Field>, some: seq<Field>, prefix: string)
    requires forall i :: 0 <= i < |some| ==> Names(all, some[i].name)
    ensures var merged := Merged(fields, patch, all, prefix).0;
            Merged(merged, patch, some, prefix) == (merged, [])
  {
    MergeAgain(fields, patch, some, prefix, all);
  }

  lemma NamesOfJoin(a: seq<Field>, b: seq<Field>)
    ensures forall i :: 0 <= i < |a| ==> Names(a + b, a[i].name)
    ensures forall i :: 0 <= i < |b| ==> Names(a + b, b[i].name)
  {
    forall i | 0 <= i < |a| ensures Names(a + b, a[i].name) {
      assert (a + b)[i] == a[i];
    }
    forall i | 0 <= i < |b| ensures Names(a + b, b[i].name) {
      assert (a + b)[|a| + i] == b[i];
    }
  }

  lemma NodeFieldsAgain(fields: Fields, patch: Fields)
    ensures var after := Merged(fields, patch, NodeFields(), "").0;
            && Merged(after, patch, NodeHead(), "") == (after, [])
            && Merged(after, patch, NodeMiddle(), "") == (after, [])
            && Merged(after, patch, NodeTail(), "") == (after, [])
  {
    var a, b, c := NodeHead(), NodeMiddle(), NodeTail();
    assert NodeFields() == a + b + c == a + (b + c);
    hide *;
    NamesOfJoin(a, b + c);
    NamesOfJoin(a + b, c);
    forall i | 0 <= i < |b| ensures Names(a + b + c, b[i].name) {
      MiddleIsNamed(a, b, c, i);
    }
    FieldsAgain(fields, patch, NodeFields(), a, "");
    FieldsAgain(fields, patch, NodeFields(), b, "");
    FieldsAgain(fields, patch, NodeFields(), c, "");
  }

  lemma MiddleIsNamed(a: seq<Field>, b: seq<Field>, c: seq<Field>, i: nat)
    requires i < |b|
    ensures Names(a + b + c, b[i].name)
  {
    assert (a + b + c)[|a| + i] == b[i];
  }

  /** The patch settles a list at once. */
  ghost predicate SettlesList(items: seq<string>, p: ListPatch, eq: (string, string) -> bool) {
    p.items.Some? || Settles(items, p, eq)
  }

  /** Merging a node patch again changes and reports nothing, exactly when it settles both lists. */
  lemma NodeMergedAgain(n: Node, p: NodePatch, now: int, later: int, routeEqual: (string, string) -> bool)
    requires Equivalence(routeEqual)
    ensures var m := MergedNode(n, p, now, routeEqual).0;
            MergedNode(m, p, later, routeEqual) == (m, [])
            <==> SettlesList(n.tags, p.tags, TagEqual) && SettlesList(n.routes, p.routes, routeEqual)
  {
    TagsAreEquivalence();
    MergedListAgain(n.tags, p.tags, TagEqual);
    MergedListAgain(n.routes, p.routes, routeEqual);
    NodeStages(n.fields, p.fields);
    NodeFieldsAgain(n.fields, p.fields);
    hide Merged, MergedList, NodeHead, NodeMiddle, NodeTail, NodeFields, Settles, TakesPatch, Equivalence, Differences;
  }

  lemma LinkFieldsAgain(fields: Fields, patch: Fields)
    ensures var after := Merged(fields, patch, LinkFields(), "").0;
            Merged(after, patch, LinkHead(), "") == (after, []) && Merged(after, patch, LinkTail(), "") == (after, [])
  {
    assert LinkFields() == LinkHead() + LinkTail();
    hide *;
    NamesOfJoin(LinkHead(), LinkTail());
    FieldsAgain(fields, patch, LinkFields(), LinkHead(), "");
    FieldsAgain(fields, patch, LinkFields(), LinkTail(), "");
  }

  lemma EndAgain(e: End, p: EndPatch, prefix: string)
    ensures var m := MergedEnd(e, p, prefix).0; MergedEnd(m, p, prefix) == (m, [])
  {
    forall i | 0 <= i < |EndFields()| ensures Names(EndFields(), EndFields()[i].name) { }
    FieldsAgain(e.fields, p.fields, EndFields(), EndFields(), prefix);
    hide Merged, EndFields;
  }

  /** Merging a link patch again changes and reports nothing, exactly when it settles the tags. */
  lemma LinkMergedAgain(l: Link, p: LinkPatch, now: int, later: int)
    ensures var m := MergedLink(l, p, now).0;
            MergedLink(m, p, later) == (m, []) <==> SettlesList(l.tags, p.tags, TagEqual)
  {
    TagsAreEquivalence();
    MergedListAgain(l.tags, p.tags, TagEqual);
    LinkStages(l.fields, p.fields);
    LinkFieldsAgain(l.fields, p.fields);
    EndAgain(l.from, PatchEnds(l, p).0, "from.");
    EndAgain(l.to, PatchEnds(l, p).1, "to.");
    hide Merged, MergedList, MergedEnd, LinkHead, LinkTail, LinkFields, Settles, TakesPatch, Equivalence, Differences,
      SameName;
    var m := MergedLink(l, p, now).0;
    EndKeepsName(l.from, PatchEnds(l, p).0, "from.");
    EndKeepsName(l.to, PatchEnds(l, p).1, "to.");
    assert IsReversed(m, p) == IsReversed(l, p);
  }

  lemma EndKeepsName(e: End, p: EndPatch, prefix: string)
    ensures MergedEnd(e, p, prefix).0.name == e.name
  {
    hide Merged;
  }

  lemma AlternatingTags()
    ensures Trim("x") == "x" && Trim("y") == "y"
    ensures TagEqual("x", "x") && TagEqual("y", "y") && !TagEqual("x", "y") && !TagEqual("y", "x")
    ensures Hits(["x"], "x", TagEqual) && !Hits(["x"], "y", TagEqual)
  {
    assert Trim("x") == "x" && Trim("y") == "y" && ToLower("x") == "x" && ToLower("y") == "y";
    hide Trim, ToLower;
    assert ["x"][0] == "x";
  }

  lemma AlternatingNew()
    ensures NewItems([], ["x", "y"], TagEqual) == ["x", "y"]
  {
    AlternatingTags();
    hide Trim, TagEqual;
    var adds := ["x", "y"];
    assert adds[..1] == ["x"] && ["x"][..0] == [];
    assert NewItems([], [], TagEqual) == [] && !HasEqual([] + [], "x", TagEqual);
    assert NewItems([], ["x"], TagEqual) == [] + ["x"] == ["x"];
    assert !HasEqual([] + ["x"], "y", TagEqual);
    assert NewItems([], adds, TagEqual) == ["x"] + ["y"] == ["x", "y"];
  }

  lemma AlternatingHits()
    ensures HitItems(["x", "y"], ["x"], TagEqual, false) == ["y"]
    ensures HitItems(["x", "y"], ["x"], TagEqual, true) == ["x"]
    ensures HitItems([], ["x"], TagEqual, false) == []
  {
    AlternatingTags();
    HitsLast([], "x", ["x"], TagEqual);
    HitsLast(["x"], "y", ["x"], TagEqual);
    UnhitLast([], "x", ["x"], TagEqual);
    UnhitLast(["x"], "y", ["x"], TagEqual);
    hide Hits, TagEqual;
    assert ["x"] + ["y"] == ["x", "y"] && [] + ["x"] == ["x"];
  }

  /** Deleting x and adding x and y: applied to nothing it gives x, y, and applied again y, x. */
  lemma DeltaAlternates()
    ensures var once := Delta([], Some(["x"]), Some(["x", "y"]), TagEqual);
            once == ["x", "y"] && Delta(once, Some(["x"]), Some(["x", "y"]), TagEqual) == ["y", "x"]
  {
    TagsAreEquivalence();
    DeltaTwice([], Some(["x"]), Some(["x", "y"]), TagEqual);
    assert Listed(Some(["x"])) == ["x"] && Listed(Some(["x", "y"])) == ["x", "y"];
    hide *;
    AlternatingNew();
    AlternatingHits();
    assert [] + ["x", "y"] == ["x", "y"] && [] + (["y"] + ["x"]) == ["y", "x"];
  }

  lemma UnhitLast(before: seq<string>, a: string, dels: seq<string>, eq: (string, string) -> bool)
    ensures HitItems(before + [a], dels, eq, false)
         == HitItems(before, dels, eq, false) + if Hits(dels, a, eq) then [] else [a]
  {
    assert (before + [a])[..|before|] == before;
    hide Hits;
  }
}
