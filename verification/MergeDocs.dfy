/** Merging the groups of one wrapper (tools/project_merge.py, _merge_group). */
module MergeDocs {
  import opened Options
  import opened MergeFields
  import opened Merge

  type Groups = map<string, Items>
  type Doc = map<string, Groups>
  type Renamings = map<string, map<string, string>>

  function OrEmpty<V>(m: Option<map<string, V>>): map<string, V> { if m.Some? then m.value else map[] }

  // ----- One group -----

  ghost predicate GroupMerged(b: Option<Items>, o: Option<Items>, t: Option<Items>, m: Option<Items>,
                              ren: map<string, string>, attr: string)
  {
    if o.None? then m == (if t == b then None else t) && ren == map[]
    else if t.None? then m == (if b == o then None else o) && ren == map[]
    else m.Some? && ContainerMerged(OrEmpty(b), o.value, t.value, m.value, ren, attr)
  }

  ghost predicate GroupDue(c: Conflict, wrapper: string, g: string,
                           b: Option<Items>, o: Option<Items>, t: Option<Items>, ren: map<string, string>)
  {
    if o.None? then false
    else if t.None? then c == GroupModifyDelete(wrapper, g) && b.Some? && b != o
    else Due(c, wrapper, g, OrEmpty(b), o.value, t.value, ren, {})
  }

  // A group deleted on their side goes if ours left it alone, and else it stays and is reported;
  lemma TheirGroupDeletion(b: Items, o: Items, m: Option<Items>, ren: map<string, string>, attr: string,
                           w: string, g: string)
    requires GroupMerged(Some(b), Some(o), None, m, ren, attr)
    ensures m == (if o == b then None else Some(o)) && ren == map[]
    ensures forall c :: GroupDue(c, w, g, Some(b), Some(o), None, ren) <==> c == GroupModifyDelete(w, g) && o != b
  {
  }

  // one deleted on ours comes back as theirs if they changed it, and is never reported.
  lemma OurGroupDeletion(b: Option<Items>, t: Option<Items>, m: Option<Items>, ren: map<string, string>, attr: string,
                         w: string, g: string)
    requires b.Some? && GroupMerged(b, None, t, m, ren, attr)
    ensures (m == None <==> t == None || t == b) && (m.Some? ==> m == t)
    ensures forall c :: !GroupDue(c, w, g, b, None, t, ren)
  {
  }

  // The second pass over one group that is in ours.
  method VisitGroup(wrapper: string, g: string, b: Option<Items>, o: Items, t: Option<Items>)
      returns (m: Option<Items>, log: seq<Conflict>, ghost ren: map<string, string>)
    ensures m.Some? <==> t.Some? || b != Some(o)
    ensures GroupMerged(b, Some(o), t, m, ren, KeyAttr(wrapper))
    ensures forall c :: c in log <==> GroupDue(c, wrapper, g, b, Some(o), t, ren)
  {
    hide ContainerMerged, Due;
    ren := map[];
    if t.None? {
      if b == Some(o) {
        return None, [], ren;
      }
      return Some(o), if b.Some? then [GroupModifyDelete(wrapper, g)] else [], ren;
    }
    var items;
    items, log, ren := MergeItems(wrapper, g, OrEmpty(b), o, t.value);
    m := Some(items);
  }

  // Merging a container with itself changes nothing, whatever the base.
  lemma SameContainer(b: Items, x: Items, m: Items, ren: map<string, string>, attr: string)
    requires ContainerMerged(b, x, x, m, ren, attr)
    ensures m == x && ren == map[]
    ensures forall c, wrapper, g :: !Due(c, wrapper, g, b, x, x, ren, {})
  {
    hide FieldMerged, Resolved, FirstFree, Rekeyed;
    forall k | k in Keys(b, x, x)
      ensures At(b, x, x, k) == Outcome(Get(x, k), Clean) && k !in ren
    {
    }
    assert forall k :: k in ren ==> k in Keys(b, x, x);
    assert ren == map[];
    SameItems(m, x, Keys(b, x, x));
  }

  lemma SameItems(m: Items, x: Items, u: set<string>)
    requires x.Keys <= u && m.Keys <= u
    requires forall k :: k in u ==> Get(m, k) == Get(x, k)
    ensures m == x
  {
  }

  // ----- All groups of a wrapper -----

  function RenOf(rens: Renamings, g: string): map<string, string> { if g in rens then rens[g] else map[] }

  ghost predicate GroupsProgress(b: Groups, o: Groups, t: Groups, m: Groups, rens: Renamings, attr: string,
                                 todo: set<string>)
  {
    forall g ::
      if g in todo then Get(m, g) == Started(b, o, t, g) && Started(b, o, t, g).Some?
      else GroupMerged(Get(b, g), Get(o, g), Get(t, g), Get(m, g), RenOf(rens, g), attr)
  }

  ghost predicate GroupsMerged(b: Groups, o: Groups, t: Groups, m: Groups, rens: Renamings, attr: string) {
    GroupsProgress(b, o, t, m, rens, attr, {})
  }

  ghost predicate GroupsLogged(log: seq<Conflict>, wrapper: string, b: Groups, o: Groups, t: Groups, rens: Renamings,
                               todo: set<string>)
  {
    forall c :: c in log <==>
                  var g := c.group;
                  g !in todo && GroupDue(c, wrapper, g, Get(b, g), Get(o, g), Get(t, g), RenOf(rens, g))
  }

  // Visiting a group of ours after the first pass settles it as its three versions demand.
  lemma VisitSettles(wrapper: string, g: string, b: Groups, o: Groups, t: Groups, m: Option<Items>,
                     log: seq<Conflict>, ren: map<string, string>)
    requires var s := Started(b, o, t, g);
             && s.Some? && GroupMerged(Get(b, g), s, Get(t, g), m, ren, KeyAttr(wrapper))
             && forall c :: c in log <==> GroupDue(c, wrapper, g, Get(b, g), s, Get(t, g), ren)
    ensures GroupMerged(Get(b, g), Get(o, g), Get(t, g), m, ren, KeyAttr(wrapper))
    ensures forall c :: c in log <==> GroupDue(c, wrapper, g, Get(b, g), Get(o, g), Get(t, g), ren)
  {
    hide ContainerMerged, Due, KeyAttr;
    if g !in o {
      SameContainer(OrEmpty(Get(b, g)), t[g], m.value, ren, KeyAttr(wrapper));
    }
  }

  lemma VisitedGroup(b: Groups, o: Groups, t: Groups, m: Groups, rens: Renamings, attr: string, todo: set<string>,
                     g: string, item: Option<Items>, ren: map<string, string>, m2: Groups)
    requires GroupsProgress(b, o, t, m, rens, attr, todo) && g in todo
    requires GroupMerged(Get(b, g), Get(o, g), Get(t, g), item, ren, attr)
    requires Get(m2, g) == item && forall x :: x != g ==> Get(m2, x) == Get(m, x)
    ensures GroupsProgress(b, o, t, m2, rens[g := ren], attr, todo - {g})
  {
  }

  lemma VisitLogged(log: seq<Conflict>, more: seq<Conflict>, wrapper: string, b: Groups, o: Groups, t: Groups,
                    rens: Renamings, todo: set<string>, g: string, ren: map<string, string>)
    requires GroupsLogged(log, wrapper, b, o, t, rens, todo) && g in todo
    requires forall c :: c in more <==> GroupDue(c, wrapper, g, Get(b, g), Get(o, g), Get(t, g), ren)
    ensures GroupsLogged(log + more, wrapper, b, o, t, rens[g := ren], todo - {g})
  {
  }

  lemma BeginGroups(b: Groups, o: Groups, t: Groups, m: Groups, attr: string, wrapper: string)
    requires forall g :: Get(m, g) == Started(b, o, t, g)
    ensures GroupsProgress(b, o, t, m, map[], attr, m.Keys)
    ensures GroupsLogged([], wrapper, b, o, t, map[], m.Keys)
  {
  }

  // ----- The merger of one wrapper -----

  ghost predicate WrapperMerged(b: Option<Groups>, o: Option<Groups>, t: Option<Groups>, m: Option<Groups>,
                                rens: Renamings, attr: string)
  {
    if o.None? then m == t && rens == map[]
    else if t.None? then m == o && rens == map[]
    else m.Some? && GroupsMerged(OrEmpty(b), o.value, t.value, m.value, rens, attr)
  }

  ghost predicate WrapperLogged(log: seq<Conflict>, wrapper: string, b: Option<Groups>, o: Option<Groups>,
                                t: Option<Groups>, rens: Renamings)
  {
    if o.None? || t.None? then log == []
    else GroupsLogged(log, wrapper, OrEmpty(b), o.value, t.value, rens, {})
  }

  // Ours is edited in place.
  class Merger {
    const wrapper: string
    var groups: Option<Groups>
    var conflicts: seq<Conflict>

    constructor (wrapper: string, ours: Option<Groups>)
      ensures this.wrapper == wrapper && groups == ours && conflicts == []
    {
      this.wrapper, groups, conflicts := wrapper, ours, [];
    }

    // _merge_group
    method MergeGroup(base: Option<Groups>, theirs: Option<Groups>) returns (ghost rens: Renamings)
      requires conflicts == []
      modifies this
      ensures WrapperMerged(base, old(groups), theirs, groups, rens, KeyAttr(wrapper))
      ensures WrapperLogged(conflicts, wrapper, base, old(groups), theirs, rens)
    {
      rens := map[];
      if groups.None? {
        groups := theirs;
        return;
      }
      if theirs.None? {
        return;
      }
      rens := MergeGroups(OrEmpty(base), theirs.value);
    }

    method MergeGroups(b: Groups, t: Groups) returns (ghost rens: Renamings)
      requires conflicts == [] && groups.Some?
      modifies this
      ensures groups.Some? && GroupsMerged(b, old(groups).value, t, groups.value, rens, KeyAttr(wrapper))
      ensures GroupsLogged(conflicts, wrapper, b, old(groups).value, t, rens, {})
    {
      hide Started, KeyAttr, GroupMerged, GroupDue, GroupsProgress, GroupsLogged, Get;
      ghost var o := groups.value;
      var m := AppendNew(b, groups.value, t);
      BeginGroups(b, o, t, m, KeyAttr(wrapper), wrapper);
      rens := map[];
      groups := Some(m);
      var todo := m.Keys;
      while todo != {}
        invariant groups.Some? && GroupsProgress(b, o, t, groups.value, rens, KeyAttr(wrapper), todo)
        invariant GroupsLogged(conflicts, wrapper, b, o, t, rens, todo)
      {
        var g :| g in todo;
        ToVisit(b, o, t, groups.value, rens, KeyAttr(wrapper), todo, g);
        var item, log;
        ghost var ren;
        item, log, ren := VisitGroup(wrapper, g, Get(b, g), groups.value[g], Get(t, g));
        VisitSettles(wrapper, g, b, o, t, item, log, ren);
        var was := groups.value;
        groups := Some(if item.Some? then was[g := item.value] else was - {g});
        GroupChanged(was, g, item);
        VisitedGroup(b, o, t, was, rens, KeyAttr(wrapper), todo, g, item, ren, groups.value);
        VisitLogged(conflicts, log, wrapper, b, o, t, rens, todo, g, ren);
        conflicts := conflicts + log;
        rens := rens[g := ren];
        todo := todo - {g};
      }
    }
  }

  lemma ToVisit(b: Groups, o: Groups, t: Groups, m: Groups, rens: Renamings, attr: string,
                todo: set<string>, g: string)
    requires GroupsProgress(b, o, t, m, rens, attr, todo) && g in todo
    ensures g in m && Some(m[g]) == Started(b, o, t, g)
  {
  }

  lemma GroupChanged(m: Groups, g: string, i: Option<Items>)
    ensures var r := if i.Some? then m[g := i.value] else m - {g};
            Get(r, g) == i && forall x :: x != g ==> Get(r, x) == Get(m, x)
  {
  }
}
