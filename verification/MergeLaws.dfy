/** Whole-document merge (tools/project_merge.py, merge_three_way) and what it promises. */
module MergeLaws {
  import opened Options
  import opened MergeFields
  import opened Merge
  import opened MergeDocs

  const WRAPPERS: seq<string> := ["hlrs", "llrs", "tests"]

  datatype Result = Refused | Done(doc: Doc, conflicts: seq<Conflict>)

  function RensOf(rens: map<string, Renamings>, w: string): Renamings { if w in rens then rens[w] else map[] }

  // The three wrappers are merged, whatever else the document holds is ours.
  ghost predicate DocMerged(b: Doc, o: Doc, t: Doc, m: Doc, rens: map<string, Renamings>) {
    forall w ::
      if w in WRAPPERS then WrapperMerged(Get(b, w), Get(o, w), Get(t, w), Get(m, w), RensOf(rens, w), KeyAttr(w))
      else Get(m, w) == Get(o, w)
  }

  ghost predicate DocLogged(log: seq<Conflict>, b: Doc, o: Doc, t: Doc, rens: map<string, Renamings>) {
    forall c: Conflict :: c in log <==> c.wrapper in WRAPPERS && WrapperDue(c, b, o, t, rens)
  }

  ghost predicate WrapperDue(c: Conflict, b: Doc, o: Doc, t: Doc, rens: map<string, Renamings>) {
    var w, g := c.wrapper, c.group;
    && w in o && w in t
    && GroupDue(c, w, g, Get(OrEmpty(Get(b, w)), g), Get(o[w], g), Get(t[w], g), RenOf(RensOf(rens, w), g))
  }

  // Requirements of both levels and tests are merged, each under its key attribute; all else is ours.
  lemma EachWrapperMerged(b: Doc, o: Doc, t: Doc, m: Doc, rens: map<string, Renamings>)
    requires DocMerged(b, o, t, m, rens)
    ensures forall w :: w == "hlrs" || w == "llrs" ==>
                WrapperMerged(Get(b, w), Get(o, w), Get(t, w), Get(m, w), RensOf(rens, w), "id")
    ensures forall w :: w == "tests" ==>
                WrapperMerged(Get(b, w), Get(o, w), Get(t, w), Get(m, w), RensOf(rens, w), "name")
    ensures forall w :: w !in {"hlrs", "llrs", "tests"} ==> Get(m, w) == Get(o, w)
  {
    hide WrapperMerged, Get;
    assert "hlrs" != "tests" by { assert "hlrs"[0] != "tests"[0]; }
    assert "llrs" != "tests" by { assert "llrs"[0] != "tests"[0]; }
    assert WRAPPERS[0] == "hlrs" && WRAPPERS[1] == "llrs" && WRAPPERS[2] == "tests";
  }

  // So is what is reported.
  lemma OnlyWrappersLogged(log: seq<Conflict>, b: Doc, o: Doc, t: Doc, rens: map<string, Renamings>)
    requires DocLogged(log, b, o, t, rens)
    ensures forall c: Conflict :: c in log <==> c.wrapper in {"hlrs", "llrs", "tests"} && WrapperDue(c, b, o, t, rens)
  {
    hide WrapperDue;
    WrapperNames();
  }

  lemma WrapperNames()
    ensures forall w :: w in WRAPPERS <==> w in {"hlrs", "llrs", "tests"}
  {
    assert WRAPPERS[0] == "hlrs" && WRAPPERS[1] == "llrs" && WRAPPERS[2] == "tests";
  }

  method MergeThreeWay(base: Option<Doc>, ours: Doc, theirs: Doc)
      returns (r: Result, ghost rens: map<string, Renamings>)
    ensures r.Refused? <==> base.None?
    ensures r.Done? ==> DocMerged(base.value, ours, theirs, r.doc, rens)
    ensures r.Done? ==> DocLogged(r.conflicts, base.value, ours, theirs, rens)
  {
    hide WrapperMerged, WrapperLogged, GroupDue, KeyAttr, Get;
    rens := map[];
    if base.None? {
      return Refused, rens;
    }
    var b := base.value;
    var doc, conflicts := ours, [];
    for i := 0 to |WRAPPERS|
      invariant forall w ::
        if w in WRAPPERS[..i] then
          WrapperMerged(Get(b, w), Get(ours, w), Get(theirs, w), Get(doc, w), RensOf(rens, w), KeyAttr(w))
        else Get(doc, w) == Get(ours, w)
      invariant forall c: Conflict ::
        c in conflicts <==> c.wrapper in WRAPPERS[..i] && WrapperDue(c, b, ours, theirs, rens)
    {
      var w := WRAPPERS[i];
      Unseen(i);
      var merger := new Merger(w, Get(ours, w));
      ghost var ren := merger.MergeGroup(Get(b, w), Get(theirs, w));
      DueOfWrapper(merger.conflicts, w, b, ours, theirs, ren, rens);
      conflicts := conflicts + merger.conflicts;
      WithWrapperGets(doc, w, merger.groups);
      doc := WithWrapper(doc, w, merger.groups);
      rens := rens[w := ren];
    }
    assert WRAPPERS[..|WRAPPERS|] == WRAPPERS;
    r := Done(doc, conflicts);
  }

  function WithWrapper(doc: Doc, w: string, groups: Option<Groups>): Doc {
    if groups.Some? then doc[w := groups.value] else doc - {w}
  }

  lemma WithWrapperGets(doc: Doc, w: string, groups: Option<Groups>)
    ensures Get(WithWrapper(doc, w, groups), w) == groups
    ensures forall x :: x != w ==> Get(WithWrapper(doc, w, groups), x) == Get(doc, x)
  {
  }

  lemma Unseen(i: nat)
    requires i < |WRAPPERS|
    ensures WRAPPERS[i] !in WRAPPERS[..i] && WRAPPERS[..i + 1] == WRAPPERS[..i] + [WRAPPERS[i]]
  {
  }

  lemma DueOfWrapper(log: seq<Conflict>, w: string, b: Doc, o: Doc, t: Doc, ren: Renamings,
                     rens: map<string, Renamings>)
    requires WrapperLogged(log, w, Get(b, w), Get(o, w), Get(t, w), ren)
    ensures forall c: Conflict :: c in log <==> c.wrapper == w && WrapperDue(c, b, o, t, rens[w := ren])
    ensures forall c: Conflict ::
              c.wrapper != w ==> (WrapperDue(c, b, o, t, rens[w := ren]) <==> WrapperDue(c, b, o, t, rens))
  {
  }

  // ----- Laws -----

  // What one side left alone follows the other side, key by key,
  lemma OneSided(b: Items, o: Items, t: Items, m: Items, ren: map<string, string>, attr: string)
    requires ContainerMerged(b, o, t, m, ren, attr) && (t == b || o == b)
    ensures m == (if t == b then o else t) && ren == map[]
    ensures forall c, wrapper, g :: !Due(c, wrapper, g, b, o, t, ren, {})
  {
    hide FirstFree, Rekeyed, Merged;
    var x := if t == b then o else t;
    forall k
      ensures At(b, o, t, k) == Outcome(Get(x, k), Clean)
    {
      OneSidedItem(Get(b, k), Get(o, k), Get(t, k));
    }
    assert forall k :: k in ren ==> k in Keys(b, o, t);
    assert ren == map[];
    hide At;
    SameItems(m, x, Keys(b, o, t));
  }

  lemma OneSidedItem(b: Option<Item>, o: Option<Item>, t: Option<Item>)
    requires t == b || o == b
    ensures Merged(b, o, t) == Outcome(if t == b then o else t, Clean)
  {
  }

  // and group by group.
  lemma GroupOneSided(b: Option<Items>, o: Option<Items>, t: Option<Items>, m: Option<Items>,
                      ren: map<string, string>, attr: string)
    requires GroupMerged(b, o, t, m, ren, attr) && (t == b || o == b)
    ensures m == (if t == b then o else t)
    ensures forall c, w, g :: !GroupDue(c, w, g, b, o, t, ren)
  {
    hide ContainerMerged, Due;
    if o.Some? && t.Some? {
      OneSided(OrEmpty(b), o.value, t.value, m.value, ren, attr);
    }
  }

  lemma SameGroups(x: Groups, y: Groups)
    requires forall g :: Get(x, g) == Get(y, g)
    ensures x == y
  {
    forall g | g in x.Keys + y.Keys
      ensures g in x && g in y && x[g] == y[g]
    {
      assert Get(x, g) == Get(y, g);
    }
  }

  // A wrapper both sides have follows the side that changed it.
  lemma WrapperOneSided(b: Groups, o: Groups, t: Groups, m: Groups, rens: Renamings, attr: string)
    requires GroupsMerged(b, o, t, m, rens, attr) && (t == b || o == b)
    ensures m == if t == b then o else t
    ensures forall c, w, g :: !GroupDue(c, w, g, Get(b, g), Get(o, g), Get(t, g), RenOf(rens, g))
  {
    hide GroupMerged, GroupDue, Get;
    forall g
      ensures Get(m, g) == Get(if t == b then o else t, g)
      ensures forall c, w :: !GroupDue(c, w, g, Get(b, g), Get(o, g), Get(t, g), RenOf(rens, g))
    {
      GroupOneSided(Get(b, g), Get(o, g), Get(t, g), Get(m, g), RenOf(rens, g), attr);
    }
    SameGroups(m, if t == b then o else t);
  }

  // Without a base version of the wrapper, identical sides are kept.
  lemma WrapperSame(b: Groups, x: Groups, m: Groups, rens: Renamings, attr: string)
    requires GroupsMerged(b, x, x, m, rens, attr)
    ensures m == x
    ensures forall c, w, g :: !GroupDue(c, w, g, Get(b, g), Get(x, g), Get(x, g), RenOf(rens, g))
  {
    hide ContainerMerged, Due;
    forall g
      ensures Get(m, g) == Get(x, g)
      ensures forall c, w :: !GroupDue(c, w, g, Get(b, g), Get(x, g), Get(x, g), RenOf(rens, g))
    {
      if g in x {
        SameContainer(OrEmpty(Get(b, g)), x[g], m[g], RenOf(rens, g), attr);
      }
    }
    SameGroups(m, x);
  }

  lemma SameDocs(x: Doc, y: Doc)
    requires forall w :: Get(x, w) == Get(y, w)
    ensures x == y
  {
    forall w | w in x.Keys + y.Keys
      ensures w in x && w in y && x[w] == y[w]
    {
      assert Get(x, w) == Get(y, w);
    }
  }

  lemma NoMember(log: seq<Conflict>)
    requires forall c :: c !in log
    ensures log == []
  {
    if log != [] {
      FirstMember(log);
    }
  }

  lemma FirstMember(log: seq<Conflict>)
    requires log != []
    ensures exists c :: c in log
  {
    assert log[0] in log;
  }

  // Theirs unchanged: the merge is ours, except that a wrapper deleted on our side comes back.
  lemma MergeTheirsUnchanged(b: Doc, o: Doc, m: Doc, rens: map<string, Renamings>, log: seq<Conflict>)
    requires DocMerged(b, o, b, m, rens) && DocLogged(log, b, o, b, rens)
    ensures m == o <==> b.Keys * {"hlrs", "llrs", "tests"} <= o.Keys
    ensures log == []
  {
    hide GroupsMerged, GroupDue, KeyAttr, WRAPPERS;
    WrapperNames();
    forall w
      ensures Get(m, w) == if w in WRAPPERS && w !in o then Get(b, w) else Get(o, w)
      ensures forall c: Conflict :: c.wrapper == w && w in WRAPPERS ==> !WrapperDue(c, b, o, b, rens)
    {
      if w in WRAPPERS && w in o && w in b {
        WrapperOneSided(b[w], o[w], b[w], m[w], RensOf(rens, w), KeyAttr(w));
      }
    }
    assert forall c :: c !in log;
    NoMember(log);
    if forall w :: w in WRAPPERS && w in b ==> w in o {
      SameDocs(m, o);
    }
    if w :| w in WRAPPERS && w in b && w !in o {
      assert Get(m, w) != Get(o, w);
    }
  }

  // Ours unchanged: the merge is theirs on the three wrappers, except that one deleted on their side stays.
  lemma MergeOursUnchanged(b: Doc, t: Doc, m: Doc, rens: map<string, Renamings>, log: seq<Conflict>)
    requires DocMerged(b, b, t, m, rens) && DocLogged(log, b, b, t, rens)
    requires forall w :: w !in {"hlrs", "llrs", "tests"} ==> Get(b, w) == Get(t, w)
    ensures m == t <==> b.Keys * {"hlrs", "llrs", "tests"} <= t.Keys
    ensures log == []
  {
    hide GroupsMerged, GroupDue, KeyAttr, WRAPPERS;
    WrapperNames();
    forall w
      ensures Get(m, w) == if w in WRAPPERS && w !in t then Get(b, w) else Get(t, w)
      ensures forall c: Conflict :: c.wrapper == w && w in WRAPPERS ==> !WrapperDue(c, b, b, t, rens)
    {
      if w in WRAPPERS && w in t && w in b {
        WrapperOneSided(b[w], b[w], t[w], m[w], RensOf(rens, w), KeyAttr(w));
      }
    }
    assert forall c :: c !in log;
    NoMember(log);
    if forall w :: w in WRAPPERS && w in b ==> w in t {
      SameDocs(m, t);
    }
    if w :| w in WRAPPERS && w in b && w !in t {
      assert Get(m, w) != Get(t, w);
    }
  }

  // Both sides alike: the merge is either of them, whatever the base.
  lemma MergeSame(b: Doc, x: Doc, m: Doc, rens: map<string, Renamings>, log: seq<Conflict>)
    requires DocMerged(b, x, x, m, rens) && DocLogged(log, b, x, x, rens)
    ensures m == x && log == []
  {
    hide GroupsMerged, GroupDue, KeyAttr, WRAPPERS;
    WrapperNames();
    forall w
      ensures Get(m, w) == Get(x, w)
      ensures forall c: Conflict :: c.wrapper == w && w in WRAPPERS ==> !WrapperDue(c, b, x, x, rens)
    {
      if w in WRAPPERS && w in x {
        WrapperSame(OrEmpty(Get(b, w)), x[w], m[w], RensOf(rens, w), KeyAttr(w));
      }
    }
    assert forall c :: c !in log;
    NoMember(log);
    SameDocs(m, x);
  }

  // ----- Nothing disappears unreported -----

  function Lookup(d: Doc, w: string, g: string, k: string): Option<Item> {
    Get(OrEmpty(Get(OrEmpty(Get(d, w)), g)), k)
  }

  ghost predicate Reported(log: seq<Conflict>, w: string, g: string, k: string) {
    exists c :: c in log && c.wrapper == w && c.group == g && !c.GroupModifyDelete? && c.key == k
  }

  // An addition or modification on either side is in the result, went through a field merge, or is reported.
  lemma NoChangeLost(b: Doc, o: Doc, t: Doc, m: Doc, rens: map<string, Renamings>, log: seq<Conflict>,
                     w: string, g: string, k: string)
    requires DocMerged(b, o, t, m, rens) && DocLogged(log, b, o, t, rens) && w in {"hlrs", "llrs", "tests"}
    ensures var (B, O, T, M) := (Lookup(b, w, g, k), Lookup(o, w, g, k), Lookup(t, w, g, k), Lookup(m, w, g, k));
            && (O.Some? && O != B ==> M == O || FieldsMerged(B, O, T, M) || Reported(log, w, g, k))
            && (T.Some? && T != B ==> M == T || FieldsMerged(B, O, T, M) || Reported(log, w, g, k))
  {
    hide GroupMerged, GroupDue, FieldsMerged, WRAPPERS, KeyAttr;
    WrapperNames();
    assert WrapperMerged(Get(b, w), Get(o, w), Get(t, w), Get(m, w), RensOf(rens, w), KeyAttr(w));
    if w in o && w in t {
      var B, O, T, M := Get(OrEmpty(Get(b, w)), g), Get(o[w], g), Get(t[w], g), Get(m[w], g);
      var ren := RenOf(RensOf(rens, w), g);
      assert GroupMerged(B, O, T, M, ren, KeyAttr(w));
      GroupKeeps(B, O, T, M, ren, KeyAttr(w), k);
      if O.Some? && T.Some? && At(OrEmpty(B), O.value, T.value, k).verdict != Clean {
        var c := ReportFor(w, g, k, B, O.value, T.value, M, ren);
        assert WrapperDue(c, b, o, t, rens);
      }
    }
  }

  lemma GroupKeeps(b: Option<Items>, o: Option<Items>, t: Option<Items>, m: Option<Items>,
                   ren: map<string, string>, attr: string, k: string)
    requires GroupMerged(b, o, t, m, ren, attr)
    ensures var (B, O, T, M) := (Get(OrEmpty(b), k), Get(OrEmpty(o), k), Get(OrEmpty(t), k), Get(OrEmpty(m), k));
            var unclean := o.Some? && t.Some? && At(OrEmpty(b), o.value, t.value, k).verdict != Clean;
            && (O.Some? && O != B ==> M == O || FieldsMerged(B, O, T, M) || unclean)
            && (T.Some? && T != B ==> M == T || FieldsMerged(B, O, T, M) || unclean)
  {
  }

  lemma ReportFor(w: string, g: string, k: string, b: Option<Items>, o: Items, t: Items, m: Option<Items>,
                  ren: map<string, string>) returns (c: Conflict)
    requires GroupMerged(b, Some(o), Some(t), m, ren, KeyAttr(w))
    requires At(OrEmpty(b), o, t, k).verdict != Clean
    ensures c.wrapper == w && c.group == g && !c.GroupModifyDelete? && c.key == k
    ensures GroupDue(c, w, g, b, Some(o), Some(t), ren)
  {
    hide FieldMerged, Resolved, FirstFree, Settled, Copied, Renames;
    match At(OrEmpty(b), o, t, k).verdict
    case BodyClash => c := Body(w, g, k);
    case GoneClash => c := ModifyDelete(w, g, k);
    case IdClash => c := IdCollision(w, g, k, ren[k]);
    case Clean =>
  }

  // ----- Keys -----

  // Every item still carries the key it is filed under, renamed ones their new key.
  predicate Keyed(items: Items, attr: string) {
    forall k :: k in items ==> Get(items[k].attrs, attr) == Some(k)
  }

  lemma KeysKept(b: Items, o: Items, t: Items, m: Items, ren: map<string, string>, attr: string)
    requires ContainerMerged(b, o, t, m, ren, attr)
    requires Keyed(b, attr) && Keyed(o, attr) && Keyed(t, attr)
    ensures Keyed(m, attr)
  {
    hide Collided, At, FirstFree;
    RenamedKeyed(t, m, ren, attr, Keys(b, o, t));
    hide Copied, Renames;
    forall k | k in m && k in Keys(b, o, t)
      ensures Get(m[k].attrs, attr) == Some(k)
    {
      assert Get(m, k) == At(b, o, t, k).item;
      KeyKept(b, o, t, k, attr);
    }
  }

  // The copy of a colliding item differs from theirs in its key only.
  lemma CopyIsTheirs(b: Items, o: Items, t: Items, m: Items, ren: map<string, string>, attr: string, k: string)
    requires ContainerMerged(b, o, t, m, ren, attr) && k in ren
    ensures k in t && ren[k] in m && ren[k] !in t
    ensures var copy := m[ren[k]];
            && copy.kids == t[k].kids && Get(copy.attrs, attr) == Some(ren[k])
            && forall a :: a != attr ==> Get(copy.attrs, a) == Get(t[k].attrs, a)
  {
    hide FirstFree, Settled, Collided;
    assert Get(m, ren[k]) == Some(Rekeyed(t[k], attr, ren[k]));
  }

  // Requirements carry their key under id, tests carry it under name.
  ghost predicate DocKeyed(d: Doc) {
    && (forall w, g :: (w == "hlrs" || w == "llrs") && w in d && g in d[w] ==> Keyed(d[w][g], "id"))
    && (forall w, g :: w == "tests" && w in d && g in d[w] ==> Keyed(d[w][g], "name"))
  }

  // If all three versions do, so does the merged document.
  lemma DocKeysKept(b: Doc, o: Doc, t: Doc, m: Doc, rens: map<string, Renamings>)
    requires DocMerged(b, o, t, m, rens) && DocKeyed(b) && DocKeyed(o) && DocKeyed(t)
    ensures DocKeyed(m)
  {
    EachWrapperMerged(b, o, t, m, rens);
    hide DocMerged, WrapperMerged, Keyed;
    forall w, g | (w == "hlrs" || w == "llrs") && w in m && g in m[w]
      ensures Keyed(m[w][g], "id")
    {
      WrapperKeysKept(Get(b, w), Get(o, w), Get(t, w), Get(m, w), RensOf(rens, w), "id", g);
    }
    forall w, g | w == "tests" && w in m && g in m[w]
      ensures Keyed(m[w][g], "name")
    {
      WrapperKeysKept(Get(b, w), Get(o, w), Get(t, w), Get(m, w), RensOf(rens, w), "name", g);
    }
  }

  ghost predicate WrapperKeyed(d: Option<Groups>, attr: string) {
    d.Some? ==> forall g :: g in d.value ==> Keyed(d.value[g], attr)
  }

  lemma WrapperKeysKept(b: Option<Groups>, o: Option<Groups>, t: Option<Groups>, m: Option<Groups>,
                        rens: Renamings, attr: string, g: string)
    requires WrapperMerged(b, o, t, m, rens, attr) && m.Some? && g in m.value
    requires WrapperKeyed(b, attr) && WrapperKeyed(o, attr) && WrapperKeyed(t, attr)
    ensures Keyed(m.value[g], attr)
  {
    hide Keyed, GroupMerged;
    if o.Some? && t.Some? {
      var (B, O, T) := (Get(OrEmpty(b), g), Get(o.value, g), Get(t.value, g));
      assert GroupMerged(B, O, T, Get(m.value, g), RenOf(rens, g), attr);
      GroupKeysKept(B, O, T, Get(m.value, g), RenOf(rens, g), attr);
    }
  }

  lemma GroupKeysKept(b: Option<Items>, o: Option<Items>, t: Option<Items>, m: Option<Items>,
                      ren: map<string, string>, attr: string)
    requires GroupMerged(b, o, t, m, ren, attr) && m.Some?
    requires b.Some? ==> Keyed(b.value, attr)
    requires o.Some? ==> Keyed(o.value, attr)
    requires t.Some? ==> Keyed(t.value, attr)
    ensures Keyed(m.value, attr)
  {
    hide ContainerMerged;
    if o.Some? && t.Some? {
      KeysKept(OrEmpty(b), o.value, t.value, m.value, ren, attr);
    }
  }

  lemma RenamedKeyed(t: Items, m: Items, ren: map<string, string>, attr: string, u: set<string>)
    requires ren.Keys <= t.Keys && Copied(t, m, ren, attr, u)
    ensures forall k :: k in m && k !in u ==> Get(m[k].attrs, attr) == Some(k)
  {
  }

  ghost predicate HasKeyAttr(i: Option<Item>, k: string, attr: string) {
    i.Some? ==> Get(i.value.attrs, attr) == Some(k)
  }

  // What is left of a key is one of its versions or a field merge of them.
  lemma MergedFrom(b: Option<Item>, o: Option<Item>, t: Option<Item>)
    ensures var m := Merged(b, o, t).item;
            m == None || m == o || m == t ||
            (b.Some? && o.Some? && t.Some? && m == Some(FieldMerged(b.value, o.value, t.value)))
  {
    hide FieldMerged, Resolved;
  }

  lemma KeyKept(b: Items, o: Items, t: Items, k: string, attr: string)
    requires Keyed(b, attr) && Keyed(o, attr) && Keyed(t, attr)
    ensures HasKeyAttr(At(b, o, t, k).item, k, attr)
  {
    MergedFrom(Get(b, k), Get(o, k), Get(t, k));
    hide Merged, FieldMerged;
    if k in b && k in o && k in t {
      FieldMergedKeeps(b[k], o[k], t[k], k, attr);
    }
  }

  lemma FieldMergedKeeps(b: Item, o: Item, t: Item, k: string, attr: string)
    requires Get(b.attrs, attr) == Get(o.attrs, attr) == Get(t.attrs, attr) == Some(k)
    ensures Get(FieldMerged(b, o, t).attrs, attr) == Some(k)
  {
  }
}
