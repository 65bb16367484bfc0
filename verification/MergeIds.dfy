/** When the merge keeps ids unique across groups (tools/project_merge.py, id collisions). */
module MergeIds {
  import opened Options
  import opened MergeFields
  import opened Merge
  import opened MergeDocs
  import opened MergeLaws
  import opened Renumbering
  import Ids
  import Decimal

  // No id is in two groups.
  predicate UniqueIds(d: Groups) {
    forall g, h, k :: g in d && h in d && k in d[g] && k in d[h] ==> g == h
  }

  function GroupKeys(b: Groups, o: Groups, t: Groups, g: string): set<string> {
    Keys(OrEmpty(Get(b, g)), OrEmpty(Get(o, g)), OrEmpty(Get(t, g)))
  }

  // Both sides added k to g, with different content.
  predicate Collides(b: Groups, o: Groups, t: Groups, g: string, k: string) {
    && g in o && g in t && k in o[g] && k in t[g] && o[g][k] != t[g][k]
    && k !in OrEmpty(Get(b, g))
  }

  // An item of the three versions is in group g afterwards, under its own key.
  predicate Kept(b: Groups, o: Groups, t: Groups, g: string, x: string) {
    var (B, O, T) := (Get(b, g), Get(o, g), Get(t, g));
    if O.None? then T.Some? && T != B && x in T.value
    else if T.None? then O != B && x in O.value
    else At(OrEmpty(B), O.value, T.value, x).item.Some?
  }

  // ----- What a merged group holds -----

  lemma RenamedIff(b: Groups, o: Groups, t: Groups, m: Groups, rens: Renamings, attr: string, g: string, k: string)
    requires GroupsMerged(b, o, t, m, rens, attr)
    ensures k in RenOf(rens, g) <==> Collides(b, o, t, g, k)
  {
    assert GroupMerged(Get(b, g), Get(o, g), Get(t, g), Get(m, g), RenOf(rens, g), attr);
    hide GroupsMerged, RenOf, Settled, Copied, FirstFree, FieldMerged, Resolved;
    if g in o && g in t {
      ClashIff(OrEmpty(Get(b, g)), o[g], t[g], k);
      assert k in RenOf(rens, g) ==> k in t[g];
    }
  }

  lemma ClashIff(b: Items, o: Items, t: Items, k: string)
    ensures At(b, o, t, k).verdict == IdClash <==> k in o && k in t && o[k] != t[k] && k !in b
  {
    hide FieldMerged, Resolved;
  }

  lemma HoldsIff(b: Groups, o: Groups, t: Groups, m: Groups, rens: Renamings, attr: string, g: string, x: string)
    requires GroupsMerged(b, o, t, m, rens, attr)
    ensures g in m && x in m[g] <==> Kept(b, o, t, g, x) || x in RenOf(rens, g).Values
  {
    assert GroupMerged(Get(b, g), Get(o, g), Get(t, g), Get(m, g), RenOf(rens, g), attr);
    hide GroupsMerged, RenOf;
    if g in o && g in t {
      ContainerHoldsIff(OrEmpty(Get(b, g)), o[g], t[g], m[g], RenOf(rens, g), attr, x);
    } else {
      hide ContainerMerged;
    }
  }

  lemma ContainerHoldsIff(b: Items, o: Items, t: Items, m: Items, ren: map<string, string>, attr: string, x: string)
    requires ContainerMerged(b, o, t, m, ren, attr)
    ensures x in m <==> At(b, o, t, x).item.Some? || x in ren.Values
  {
    hide Collided, Merged, FirstFree, Rekeyed;
    if x in Keys(b, o, t) {
      assert Get(m, x) == At(b, o, t, x).item;
    } else {
      NothingThere(b, o, t, x);
      if x in ren.Values {
        var k :| k in ren && ren[k] == x;
        assert Get(m, ren[k]).Some?;
      }
    }
  }

  lemma NothingThere(b: Items, o: Items, t: Items, x: string)
    requires x !in Keys(b, o, t)
    ensures At(b, o, t, x).item.None?
  {
  }

  // A renamed copy is the first free continuation of its id.
  lemma CopyOf(b: Groups, o: Groups, t: Groups, m: Groups, rens: Renamings, attr: string, g: string, x: string)
      returns (k: string)
    requires GroupsMerged(b, o, t, m, rens, attr) && x in RenOf(rens, g).Values
    ensures Collides(b, o, t, g, k) && k in RenOf(rens, g) && RenOf(rens, g)[k] == x
    ensures x !in GroupKeys(b, o, t, g) && FirstFree(k, x, GroupKeys(b, o, t, g) + RenOf(rens, g).Values)
  {
    k :| k in RenOf(rens, g) && RenOf(rens, g)[k] == x;
    RenamedIff(b, o, t, m, rens, attr, g, k);
    assert GroupMerged(Get(b, g), Get(o, g), Get(t, g), Get(m, g), RenOf(rens, g), attr);
    hide GroupsMerged, RenOf, Settled, Copied, Collided, FirstFree;
  }

  // ----- Ids kept in two groups -----

  // No id is kept in two groups.
  ghost predicate KeptOnce(b: Groups, o: Groups, t: Groups) {
    forall g, h, x :: Kept(b, o, t, g, x) && Kept(b, o, t, h, x) ==> g == h
  }

  predicate Files(d: Groups, g: string, x: string) { g in d && x in d[g] }

  lemma KeptIsFiled(b: Groups, o: Groups, t: Groups, g: string, x: string)
    requires Kept(b, o, t, g, x)
    ensures Files(o, g, x) || Files(t, g, x)
  {
    hide FieldMerged, Resolved;
  }

  // Between documents with unique ids, an id kept twice is one that ours and theirs file in different groups.
  lemma KeptOnceIff(b: Groups, o: Groups, t: Groups)
    requires UniqueIds(o) && UniqueIds(t)
    ensures KeptOnce(b, o, t) <==>
            forall g, h, x :: Files(o, g, x) && Files(t, h, x) && g != h ==>
                                !(Kept(b, o, t, g, x) && Kept(b, o, t, h, x))
  {
    hide Kept;
    forall g, h, x | Kept(b, o, t, g, x) && Kept(b, o, t, h, x)
      ensures (Files(o, g, x) || Files(t, g, x)) && (Files(o, h, x) || Files(t, h, x))
    {
      KeptIsFiled(b, o, t, g, x);
      KeptIsFiled(b, o, t, h, x);
    }
  }

  // In a group of both sides, an item that only one of them has is kept exactly unless it is the base's.
  lemma KeptAloneIff(b: Groups, o: Groups, t: Groups, g: string, x: string)
    requires g in o && g in t
    ensures x in o[g] && x !in t[g] ==> (Kept(b, o, t, g, x) <==> Get(OrEmpty(Get(b, g)), x) != Some(o[g][x]))
    ensures x !in o[g] && x in t[g] ==> (Kept(b, o, t, g, x) <==> Get(OrEmpty(Get(b, g)), x) != Some(t[g][x]))
  {
    hide FieldMerged, Resolved;
  }

  // For example HLR-001 moved from section 1 to section 2 on our side and edited in section 1 on theirs:
  // it is in both sections afterwards, and nothing is reported.
  lemma MovedAndEditedExample(p: Item, q: Item, m: Groups, rens: Renamings)
    requires p != q
    requires GroupsMerged(TwoSections(Single("HLR-001", p), map[]), TwoSections(map[], Single("HLR-001", p)),
                          TwoSections(Single("HLR-001", q), map[]), m, rens, "id")
    ensures !UniqueIds(m)
    ensures forall c, w, g ::
              !GroupDue(c, w, g, Get(TwoSections(Single("HLR-001", p), map[]), g),
                        Get(TwoSections(map[], Single("HLR-001", p)), g),
                        Get(TwoSections(Single("HLR-001", q), map[]), g), RenOf(rens, g))
  {
    hide TwoSections, GroupMerged, GroupDue;
    var id := "HLR-001";
    var b, o := TwoSections(Single(id, p), map[]), TwoSections(map[], Single(id, p));
    var t := TwoSections(Single(id, q), map[]);
    forall g
      ensures forall c, w :: !GroupDue(c, w, g, Get(b, g), Get(o, g), Get(t, g), RenOf(rens, g))
      ensures g == "1" || g == "2" ==> Get(m, g).Some? && id in Get(m, g).value
    {
      assert GroupMerged(Get(b, g), Get(o, g), Get(t, g), Get(m, g), RenOf(rens, g), "id");
      if g == "1" {
        LeftAndEdited(id, p, q, Get(m, g), RenOf(rens, g));
      } else if g == "2" {
        Arrived(id, p, Get(m, g), RenOf(rens, g));
      } else {
        OtherSection(b, o, t, Get(m, g), RenOf(rens, g), g);
      }
    }
    assert "1" != "2" && Get(m, "1").Some? && Get(m, "2").Some?;
  }

  lemma LeftAndEdited(id: string, p: Item, q: Item, m: Option<Items>, ren: map<string, string>)
    requires p != q && GroupMerged(Some(Single(id, p)), Some(map[]), Some(Single(id, q)), m, ren, "id")
    ensures m.Some? && id in m.value
    ensures forall c, w, g :: !GroupDue(c, w, g, Some(Single(id, p)), Some(map[]), Some(Single(id, q)), ren)
  {
    hide Renames, Copied, Collided, FieldMerged, Resolved;
    assert At(Single(id, p), map[], Single(id, q), id) == Outcome(Some(q), Clean);
    assert Get(m.value, id).Some?;
  }

  lemma Arrived(id: string, p: Item, m: Option<Items>, ren: map<string, string>)
    requires GroupMerged(Some(map[]), Some(Single(id, p)), Some(map[]), m, ren, "id")
    ensures m.Some? && id in m.value
    ensures forall c, w, g :: !GroupDue(c, w, g, Some(map[]), Some(Single(id, p)), Some(map[]), ren)
  {
    GroupOneSided(Some(map[]), Some(Single(id, p)), Some(map[]), m, ren, "id");
  }

  lemma OtherSection(b: Groups, o: Groups, t: Groups, m: Option<Items>, ren: map<string, string>, g: string)
    requires Get(o, g).None?
    ensures forall c, w :: !GroupDue(c, w, g, Get(b, g), Get(o, g), Get(t, g), ren)
  {
  }

  // ----- The exact condition -----

  function Colliding(b: Groups, o: Groups, t: Groups, g: string): set<string> {
    set k | k in GroupKeys(b, o, t, g) && Collides(b, o, t, g, k)
  }

  // A way to renumber the colliding items of a group beside the ids of its three versions.
  ghost predicate GroupRenumbers(b: Groups, o: Groups, t: Groups, g: string, r: map<string, string>) {
    Renumbers(r, Colliding(b, o, t, g), GroupKeys(b, o, t, g))
  }

  // x is the new id of a colliding item of g.
  ghost predicate IsNew(b: Groups, o: Groups, t: Groups, g: string, x: string) {
    exists r :: GroupRenumbers(b, o, t, g, r) && x in r.Values
  }

  // No new id of one group is kept in another or is a new id there.
  ghost predicate CopiesApart(b: Groups, o: Groups, t: Groups) {
    forall g, h, x :: IsNew(b, o, t, g, x) && g != h ==> !Kept(b, o, t, h, x) && !IsNew(b, o, t, h, x)
  }

  lemma MergeRenumbers(b: Groups, o: Groups, t: Groups, m: Groups, rens: Renamings, attr: string, g: string)
    requires GroupsMerged(b, o, t, m, rens, attr)
    ensures GroupRenumbers(b, o, t, g, RenOf(rens, g))
  {
    hide Collides, Renumbers, RenOf;
    forall k
      ensures k in RenOf(rens, g) <==> k in Colliding(b, o, t, g)
    {
      RenamedIff(b, o, t, m, rens, attr, g, k);
      if Collides(b, o, t, g, k) {
        CollidesInKeys(b, o, t, g, k);
      }
    }
    assert RenOf(rens, g).Keys == Colliding(b, o, t, g);
    assert GroupMerged(Get(b, g), Get(o, g), Get(t, g), Get(m, g), RenOf(rens, g), attr);
    hide GroupsMerged, Colliding;
    SectionRenumbers(Get(b, g), Get(o, g), Get(t, g), Get(m, g), RenOf(rens, g), attr);
  }

  lemma CollidesInKeys(b: Groups, o: Groups, t: Groups, g: string, k: string)
    requires Collides(b, o, t, g, k)
    ensures k in GroupKeys(b, o, t, g)
  {
  }

  lemma SectionRenumbers(b: Option<Items>, o: Option<Items>, t: Option<Items>, m: Option<Items>,
                         ren: map<string, string>, attr: string)
    requires GroupMerged(b, o, t, m, ren, attr)
    ensures Renumbers(ren, ren.Keys, Keys(OrEmpty(b), OrEmpty(o), OrEmpty(t)))
  {
    hide Settled, Copied, Collided, FirstFree;
  }

  // The merge renumbers in such a way, and in whatever order it does, the new ids are the same.
  lemma NewIff(b: Groups, o: Groups, t: Groups, m: Groups, rens: Renamings, attr: string, g: string, x: string)
    requires GroupsMerged(b, o, t, m, rens, attr)
    ensures x in RenOf(rens, g).Values <==> IsNew(b, o, t, g, x)
  {
    MergeRenumbers(b, o, t, m, rens, attr, g);
    hide GroupsMerged, RenOf, Colliding, GroupKeys, Renumbers;
    if r :| GroupRenumbers(b, o, t, g, r) && x in r.Values {
      OrderDoesNotMatter(r, RenOf(rens, g), Colliding(b, o, t, g), GroupKeys(b, o, t, g));
    }
  }

  // Ids stay unique exactly when no id is kept twice and the new ids are apart.
  lemma UniqueIff(b: Groups, o: Groups, t: Groups, m: Groups, rens: Renamings, attr: string)
    requires GroupsMerged(b, o, t, m, rens, attr)
    ensures UniqueIds(m) <==> KeptOnce(b, o, t) && CopiesApart(b, o, t)
  {
    hide GroupsMerged, RenOf, Kept, IsNew;
    forall g, x
      ensures g in m && x in m[g] <==> Kept(b, o, t, g, x) || IsNew(b, o, t, g, x)
    {
      HoldsIff(b, o, t, m, rens, attr, g, x);
      NewIff(b, o, t, m, rens, attr, g, x);
    }
  }

  // ----- A condition that is easy to check -----

  // No id kept in another group continues a colliding one.
  ghost predicate Apart(b: Groups, o: Groups, t: Groups) {
    forall g, k, h, y :: Collides(b, o, t, g, k) && h != g && Kept(b, o, t, h, y) ==> !Continues(y, k)
  }

  lemma CollidingIsKept(b: Groups, o: Groups, t: Groups, g: string, k: string)
    requires Collides(b, o, t, g, k)
    ensures Kept(b, o, t, g, k)
  {
    hide FieldMerged, Resolved;
  }

  // Ids stay unique if none is kept twice and none kept in another group continues a colliding one,
  lemma UniqueWhenApart(b: Groups, o: Groups, t: Groups, m: Groups, rens: Renamings, attr: string)
    requires GroupsMerged(b, o, t, m, rens, attr) && KeptOnce(b, o, t) && Apart(b, o, t)
    ensures UniqueIds(m)
  {
    hide GroupsMerged, Collides, Kept, RenOf, Continues;
    forall g, h, x | g in m && h in m && x in m[g] && x in m[h]
      ensures g == h
    {
      HoldsIff(b, o, t, m, rens, attr, g, x);
      HoldsIff(b, o, t, m, rens, attr, h, x);
      if g != h && x in RenOf(rens, g).Values {
        CopyAlone(b, o, t, m, rens, attr, g, h, x);
      } else if g != h && x in RenOf(rens, h).Values {
        CopyAlone(b, o, t, m, rens, attr, h, g, x);
      }
    }
  }

  // and so if nothing collides.
  lemma UniqueWithoutCollisions(b: Groups, o: Groups, t: Groups, m: Groups, rens: Renamings, attr: string)
    requires GroupsMerged(b, o, t, m, rens, attr) && KeptOnce(b, o, t)
    requires forall g, k :: !Collides(b, o, t, g, k)
    ensures UniqueIds(m)
  {
    hide GroupsMerged, Collides, KeptOnce;
    UniqueWhenApart(b, o, t, m, rens, attr);
  }

  // A new id of g is neither kept nor new in h.
  lemma CopyAlone(b: Groups, o: Groups, t: Groups, m: Groups, rens: Renamings, attr: string,
                  g: string, h: string, x: string)
    requires GroupsMerged(b, o, t, m, rens, attr) && KeptOnce(b, o, t) && Apart(b, o, t) && g != h
    requires x in RenOf(rens, g).Values
    ensures !Kept(b, o, t, h, x) && x !in RenOf(rens, h).Values
  {
    hide GroupsMerged, Collides, Kept, GroupKeys, RenOf, Continues, FirstFree;
    var k := CopyOf(b, o, t, m, rens, attr, g, x);
    CopyContinues(k, x, GroupKeys(b, o, t, g) + RenOf(rens, g).Values);
    CollidingIsKept(b, o, t, g, k);
    if x in RenOf(rens, h).Values {
      var j := CopyOf(b, o, t, m, rens, attr, h, x);
      CollidingIsKept(b, o, t, h, j);
      OneContinues(k, j, x, GroupKeys(b, o, t, g) + RenOf(rens, g).Values,
                   GroupKeys(b, o, t, h) + RenOf(rens, h).Values);
    }
  }

  // ----- A collision that breaks uniqueness -----

  function TwoSections(first: Items, second: Items): (d: Groups)
    ensures Get(d, "1") == Some(first) && Get(d, "2") == Some(second)
    ensures forall g :: g != "1" && g != "2" ==> Get(d, g) == None
  {
    map["1" := first, "2" := second]
  }

  function Single(id: string, e: Item): Items { map[id := e] }

  // With a collision they need not: the renamed copy is fresh in its own group only.
  lemma RenameClashExample(p: Item, q: Item, y: Item, m: Groups, rens: Renamings)
    requires p != q
    requires GroupsMerged(TwoSections(map[], Single("HLR-002", y)),
                          TwoSections(Single("HLR-001", p), Single("HLR-002", y)),
                          TwoSections(Single("HLR-001", q), Single("HLR-002", y)), m, rens, "id")
    ensures !UniqueIds(m)
  {
    hide TwoSections, GroupMerged;
    var other := Single("HLR-002", y);
    var b, o := TwoSections(map[], other), TwoSections(Single("HLR-001", p), other);
    var t := TwoSections(Single("HLR-001", q), other);
    assert GroupMerged(Get(b, "1"), Get(o, "1"), Get(t, "1"), Get(m, "1"), RenOf(rens, "1"), "id");
    assert GroupMerged(Get(b, "2"), Get(o, "2"), Get(t, "2"), Get(m, "2"), RenOf(rens, "2"), "id");
    GroupOneSided(Get(b, "2"), Get(o, "2"), Get(t, "2"), Get(m, "2"), RenOf(rens, "2"), "id");
    SectionMerged(p, q, Get(m, "1"), RenOf(rens, "1"));
    assert "HLR-002" in m["1"] && "HLR-002" in m["2"] && "1" != "2";
  }

  lemma SectionMerged(p: Item, q: Item, m: Option<Items>, ren: map<string, string>)
    requires p != q
    requires GroupMerged(Some(map[]), Some(Single("HLR-001", p)), Some(Single("HLR-001", q)), m, ren, "id")
    ensures m.Some? && "HLR-002" in m.value
  {
    hide ContainerMerged;
    OnlyCollision("HLR-001", p, q, m.value, ren);
  }

  lemma OnlyCollision(id: string, p: Item, q: Item, m: Items, ren: map<string, string>)
    requires id == "HLR-001" && p != q
    requires ContainerMerged(map[], map[id := p], map[id := q], m, ren, "id")
    ensures "HLR-002" in m
  {
    hide Rekeyed, FirstFree;
    var b: Items, o: Items, t: Items := map[], map[id := p], map[id := q];
    assert Keys(b, o, t) == {id};
    assert At(b, o, t, id).verdict == IdClash;
    assert ren.Keys == {id};
    assert ren.Values == {ren[id]};
    assert FirstFree(id, ren[id], {id} + {ren[id]});
    FirstFreeIsNext(ren[id]);
    assert Get(m, ren[id]).Some?;
  }

  lemma FirstFreeIsNext(x: string)
    requires FirstFree("HLR-001", x, {"HLR-001"} + {x}) && x != "HLR-001"
    ensures x == "HLR-002"
  {
    var s := Ids.Shape("HLR-", 1, 3);
    ShapeOfFirst();
    var n: nat :| FirstFreeAt("HLR-001", x, {"HLR-001"} + {x}, n);
    if n > 2 {
      assert Ids.Candidate(s, 2) in {"HLR-001"} + {x};
      SecondCandidate();
      Ids.CandidateInjective(s, 2, n);
    }
    SecondCandidate();
  }

  lemma SecondCandidate()
    ensures Ids.Candidate(Ids.Shape("HLR-", 1, 3), 2) == "HLR-002"
  {
  }

  lemma ShapeOfFirst()
    ensures Ids.ShapeOf("HLR-001") == Ids.Shape("HLR-", 1, 3)
  {
    var s := "HLR-001";
    assert s[..4] == "HLR-" && s[4..] == "001";
    assert Decimal.Value("0") == 0 by { assert "0"[..0] == ""; }
    assert Decimal.Value("00") == 0 by { assert "00"[..1] == "0"; }
    assert Decimal.Value("001") == 1 by { assert "001"[..2] == "00"; }
  }
}
