/** The three-way structural merge of project documents (tools/project_merge.py): hlrs, llrs and tests. */
module Merge {
  import opened Options
  import opened MergeFields
  import Ids

  type Items = map<string, Item>

  datatype Verdict = Clean | BodyClash | GoneClash | IdClash

  datatype Outcome = Outcome(item: Option<Item>, verdict: Verdict)

  datatype Conflict =
    | Body(wrapper: string, group: string, key: string)
    | ModifyDelete(wrapper: string, group: string, key: string)
    | IdCollision(wrapper: string, group: string, key: string, renameTo: string)
    | GroupModifyDelete(wrapper: string, group: string)

  // The attribute that holds an item's key.
  function KeyAttr(wrapper: string): string { if wrapper == "tests" then "name" else "id" }

  // ----- One key -----

  // What becomes of the item with a given key, from its three versions.
  function Merged(b: Option<Item>, o: Option<Item>, t: Option<Item>): Outcome {
    if o.None? then Outcome(if t == b then None else t, Clean)
    else if t.None? then
      if b == o then Outcome(None, Clean) else Outcome(o, if b.Some? then GoneClash else Clean)
    else if o == t then Outcome(o, Clean)
    else if b.None? then Outcome(o, IdClash)
    else if o == b then Outcome(t, Clean)
    else if t == b then Outcome(o, Clean)
    else Outcome(Some(FieldMerged(b.value, o.value, t.value)),
                 if Resolved(b.value, o.value, t.value) then Clean else BodyClash)
  }

  // A field merge of three different versions went through.
  predicate FieldsMerged(b: Option<Item>, o: Option<Item>, t: Option<Item>, m: Option<Item>) {
    && b.Some? && o.Some? && t.Some? && Resolved(b.value, o.value, t.value)
    && m == Some(FieldMerged(b.value, o.value, t.value))
  }

  // An addition or modification on our side is there afterwards, was merged, or is reported;
  lemma OursSurvives(b: Option<Item>, o: Option<Item>, t: Option<Item>)
    requires o.Some? && o != b
    ensures var m := Merged(b, o, t); m.item == o || m.verdict != Clean || FieldsMerged(b, o, t, m.item)
  {
    hide FieldMerged, Resolved;
  }

  // and so is one on theirs.
  lemma TheirsSurvives(b: Option<Item>, o: Option<Item>, t: Option<Item>)
    requires t.Some? && t != b
    ensures var m := Merged(b, o, t); m.item == t || m.verdict != Clean || FieldsMerged(b, o, t, m.item)
  {
    hide FieldMerged, Resolved;
  }

  // What is reported, and what stands in the document then.
  lemma ReportedIff(b: Option<Item>, o: Option<Item>, t: Option<Item>)
    ensures var m := Merged(b, o, t);
            && (m.verdict == BodyClash <==>
                b.Some? && o.Some? && t.Some? && o != b && t != b && o != t && !Resolved(b.value, o.value, t.value))
            && (m.verdict == GoneClash <==> b.Some? && o.Some? && t.None? && o != b)
            && (m.verdict == IdClash <==> b.None? && o.Some? && t.Some? && o != t)
            && (m.verdict == GoneClash || m.verdict == IdClash ==> m.item == o)
  {
    hide FieldMerged, Resolved;
  }

  // Deletions are treated unevenly. Theirs wins over an unchanged item and is reported otherwise;
  lemma TheirDeletion(b: Option<Item>, o: Option<Item>)
    requires b.Some? && o.Some?
    ensures var m := Merged(b, o, None);
            (m == if o == b then Outcome(None, Clean) else Outcome(o, GoneClash))
  {
  }

  // ours is undone without a report when theirs modified the item.
  lemma OurDeletion(b: Option<Item>, t: Option<Item>)
    requires b.Some?
    ensures var m := Merged(b, None, t);
            (m.item == None <==> t == None || t == b) && (m.item.Some? ==> m.item == t) && m.verdict == Clean
  {
  }

  lemma DeletionUndoneExample()
    ensures var b := Some(Element(map["id" := "HLR-001"], map[]));
            var t := Some(Element(map["id" := "HLR-001", "name" := "x"], map[]));
            Merged(b, None, t) == Outcome(t, Clean)
  {
    assert map["id" := "HLR-001", "name" := "x"]["name"] == "x";
    assert "name" !in map["id" := "HLR-001"];
  }

  // ----- One container -----

  function Keys(b: Items, o: Items, t: Items): set<string> { b.Keys + o.Keys + t.Keys }

  function At(b: Items, o: Items, t: Items, k: string): Outcome { Merged(Get(b, k), Get(o, k), Get(t, k)) }

  function Rekeyed(e: Item, attr: string, k: string): Item { e.(attrs := e.attrs[attr := k]) }

  // x is the first free continuation of the id k.
  ghost predicate FirstFree(k: string, x: string, used: set<string>) {
    exists n: nat :: FirstFreeAt(k, x, used, n)
  }

  ghost predicate FirstFreeAt(k: string, x: string, used: set<string>, n: nat) {
    var s := Ids.ShapeOf(k);
    n > s.n && x == Ids.Candidate(s, n) && forall m: nat :: s.n < m < n ==> Ids.Candidate(s, m) in used
  }

  // The renamings of colliding items, new key by old key.
  ghost predicate Renames(ren: map<string, string>, b: Items, o: Items, t: Items) {
    var u := Keys(b, o, t);
    && (forall k :: k in ren ==> k in t && ren[k] !in u && FirstFree(k, ren[k], u + ren.Values))
    && (forall j, k :: j in ren && k in ren && ren[j] == ren[k] ==> j == k)
  }

  predicate Settled(b: Items, o: Items, t: Items, m: Items, todo: set<string>) {
    forall k :: k in Keys(b, o, t) ==>
                  Get(m, k) == if k in todo then Started(b, o, t, k) else At(b, o, t, k).item
  }

  predicate Collided(b: Items, o: Items, t: Items, ren: map<string, string>, todo: set<string>) {
    forall k :: k in Keys(b, o, t) ==> (k in ren <==> k !in todo && At(b, o, t, k).verdict == IdClash)
  }

  // The renamed copies of theirs are in m, and m has no other new keys.
  predicate Copied(t: Items, m: Items, ren: map<string, string>, attr: string, u: set<string>)
    requires ren.Keys <= t.Keys
  {
    && (forall k :: k in ren ==> Get(m, ren[k]) == Some(Rekeyed(t[k], attr, ren[k])))
    && (forall x :: x in m ==> x in u || x in ren.Values)
  }

  // The merge of a container, keys in todo still to be visited.
  ghost predicate Progress(b: Items, o: Items, t: Items, m: Items, ren: map<string, string>, attr: string,
                           todo: set<string>)
  {
    && Renames(ren, b, o, t)
    && Settled(b, o, t, m, todo)
    && Collided(b, o, t, ren, todo)
    && Copied(t, m, ren, attr, Keys(b, o, t))
  }

  ghost predicate ContainerMerged(b: Items, o: Items, t: Items, m: Items, ren: map<string, string>, attr: string) {
    Progress(b, o, t, m, ren, attr, {})
  }

  // Ours once what theirs added is appended, be it items or whole groups.
  function Started<V(==)>(b: map<string, V>, o: map<string, V>, t: map<string, V>, k: string): Option<V> {
    if k in o then Some(o[k]) else if k in b && k in t && t[k] == b[k] then None else Get(t, k)
  }

  method AppendNew<V(==)>(b: map<string, V>, o: map<string, V>, t: map<string, V>) returns (m: map<string, V>)
    ensures forall k :: Get(m, k) == Started(b, o, t, k)
  {
    m := o;
    var todo := t.Keys;
    while todo != {}
      invariant todo <= t.Keys
      invariant forall k :: Get(m, k) == if k in todo then Get(o, k) else Started(b, o, t, k)
    {
      var k :| k in todo;
      if k !in o && !(k in b && t[k] == b[k]) {
        m := m[k := t[k]];
      }
      todo := todo - {k};
    }
  }

  // The second pass over one key that is in ours; a collision is left to the caller.
  method MergeItem(b: Option<Item>, o: Item, t: Option<Item>) returns (r: Outcome)
    ensures r == Merged(b, Some(o), t)
  {
    hide FieldMerged, Resolved;
    if t.None? {
      if b == Some(o) {
        return Outcome(None, Clean);
      }
      return Outcome(Some(o), if b.Some? then GoneClash else Clean);
    }
    if o == t.value {
      return Outcome(Some(o), Clean);
    }
    if b.None? {
      return Outcome(Some(o), IdClash);
    }
    if o == b.value {
      return Outcome(t, Clean);
    }
    if t.value == b.value {
      return Outcome(Some(o), Clean);
    }
    var m, ok := TryFieldLevelMerge(b.value, o, t.value);
    return Outcome(Some(m), if ok then Clean else BodyClash);
  }

  // A key that theirs added is settled: the second pass finds the same item on both sides.
  lemma StartedSettled(b: Items, o: Items, t: Items, k: string)
    ensures Started(b, o, t, k).None? ==> At(b, o, t, k) == Outcome(None, Clean)
    ensures Started(b, o, t, k).Some? ==> Merged(Get(b, k), Started(b, o, t, k), Get(t, k)) == At(b, o, t, k)
  {
    hide FieldMerged, Resolved;
  }

  lemma SettledMore(b: Items, o: Items, t: Items, m: Items, todo: set<string>, k: string, r: Items)
    requires Settled(b, o, t, m, todo)
    requires Get(r, k) == At(b, o, t, k).item
    requires forall x :: x in Keys(b, o, t) && x != k ==> Get(r, x) == Get(m, x)
    ensures Settled(b, o, t, r, todo - {k})
  {
    hide At, Started, Get, Keys;
  }

  lemma CopiedStill(t: Items, m: Items, ren: map<string, string>, attr: string, u: set<string>, k: string, r: Items)
    requires ren.Keys <= t.Keys && Copied(t, m, ren, attr, u)
    requires k in u && k !in ren.Values
    requires forall x :: x != k ==> Get(r, x) == Get(m, x)
    ensures Copied(t, r, ren, attr, u)
  {
    hide Rekeyed;
    forall x | x in r
      ensures x in u || x in ren.Values
    {
      assert Get(r, x).Some?;
    }
  }

  lemma CopiedMore(t: Items, m: Items, ren: map<string, string>, attr: string, u: set<string>, k: string, x: string)
    requires ren.Keys <= t.Keys && Copied(t, m, ren, attr, u)
    requires k in t && k !in ren && x !in ren.Values
    ensures Copied(t, m[x := Rekeyed(t[k], attr, x)], ren[k := x], attr, u)
  {
    hide Rekeyed;
    var ren2, r := ren[k := x], m[x := Rekeyed(t[k], attr, x)];
    forall j | j in ren2
      ensures Get(r, ren2[j]) == Some(Rekeyed(t[j], attr, ren2[j]))
    {
      if j != k {
        assert ren[j] in ren.Values;
      }
    }
    ValuesAdded(ren, k, x);
  }

  lemma ValuesAdded(ren: map<string, string>, k: string, x: string)
    requires k !in ren
    ensures ren[k := x].Values == ren.Values + {x}
  {
    forall y | y in ren.Values + {x}
      ensures y in ren[k := x].Values
    {
      if y in ren.Values {
        var j :| j in ren && ren[j] == y;
        assert ren[k := x][j] == y;
      } else {
        assert ren[k := x][k] == x;
      }
    }
  }

  lemma VisitedKept(b: Items, o: Items, t: Items, m: Items, ren: map<string, string>, attr: string,
                    todo: set<string>, k: string, r: Items)
    requires Progress(b, o, t, m, ren, attr, todo)
    requires k in todo && k in Keys(b, o, t) && At(b, o, t, k).verdict != IdClash
    requires Get(r, k) == At(b, o, t, k).item
    requires forall x :: x != k ==> Get(r, x) == Get(m, x)
    ensures Progress(b, o, t, r, ren, attr, todo - {k})
  {
    NotRenamed(b, o, t, ren, k);
    SettledMore(b, o, t, m, todo, k, r);
    hide Started, At, Get, Settled, Keys, Renames;
    CopiedStill(t, m, ren, attr, Keys(b, o, t), k, r) by {
      hide Copied;
    }
  }

  lemma NotRenamed(b: Items, o: Items, t: Items, ren: map<string, string>, k: string)
    requires Renames(ren, b, o, t) && k in Keys(b, o, t)
    ensures k !in ren.Values && ren.Keys <= t.Keys
  {
    hide FirstFree;
  }

  lemma RenamesMore(b: Items, o: Items, t: Items, ren: map<string, string>, k: string, x: string)
    requires Renames(ren, b, o, t) && k in t && k !in ren
    requires x !in Keys(b, o, t) + ren.Values && FirstFree(k, x, Keys(b, o, t) + ren.Values)
    ensures Renames(ren[k := x], b, o, t)
  {
    hide FirstFree, Keys;
    var u, ren2 := Keys(b, o, t), ren[k := x];
    ValuesAdded(ren, k, x);
    forall j | j in ren2
      ensures j in t && ren2[j] !in u && FirstFree(j, ren2[j], u + ren2.Values)
    {
      FirstFreeMono(j, ren2[j], u + ren.Values, u + ren2.Values);
    }
    StillDistinct(ren, k, x);
  }

  lemma StillDistinct(ren: map<string, string>, k: string, x: string)
    requires k !in ren && x !in ren.Values
    requires forall i, j :: i in ren && j in ren && ren[i] == ren[j] ==> i == j
    ensures var r := ren[k := x]; forall i, j :: i in r && j in r && r[i] == r[j] ==> i == j
  {
  }

  lemma VisitedRenamed(b: Items, o: Items, t: Items, m: Items, ren: map<string, string>, attr: string,
                       todo: set<string>, k: string, x: string)
    requires Progress(b, o, t, m, ren, attr, todo)
    requires k in todo && k in t && k in o && At(b, o, t, k) == Outcome(Some(o[k]), IdClash)
    requires x !in Keys(b, o, t) + ren.Values && FirstFree(k, x, Keys(b, o, t) + ren.Values)
    ensures Progress(b, o, t, m[x := Rekeyed(t[k], attr, x)], ren[k := x], attr, todo - {k})
  {
    var r := m[x := Rekeyed(t[k], attr, x)];
    NotRenamed(b, o, t, ren, k);
    assert Started(b, o, t, k) == Some(o[k]);
    hide Rekeyed, FirstFree, Renames, Copied, At, Settled;
    CollidedMore(b, o, t, ren, todo, k, x);
    hide Collided;
    RenamesMore(b, o, t, ren, k, x);
    CopiedMore(t, m, ren, attr, Keys(b, o, t), k, x);
    StillAt(b, o, t, m, todo, k);
    hide Keys, Started;
    SettledMore(b, o, t, m, todo, k, r);
  }

  lemma CollidedMore(b: Items, o: Items, t: Items, ren: map<string, string>, todo: set<string>, k: string, x: string)
    requires Collided(b, o, t, ren, todo) && k in todo && k in Keys(b, o, t) && At(b, o, t, k).verdict == IdClash
    ensures k !in ren && Collided(b, o, t, ren[k := x], todo - {k})
  {
    hide At, Keys;
  }

  lemma StillAt(b: Items, o: Items, t: Items, m: Items, todo: set<string>, k: string)
    requires Settled(b, o, t, m, todo) && k in todo && k in Keys(b, o, t)
    ensures Get(m, k) == Started(b, o, t, k)
  {
    hide At, Started, Keys, Get;
  }

  lemma FirstFreeMono(k: string, x: string, used: set<string>, more: set<string>)
    requires FirstFree(k, x, used) && used <= more
    ensures FirstFree(k, x, more)
  {
    var n: nat :| FirstFreeAt(k, x, used, n);
    assert FirstFreeAt(k, x, more, n);
  }

  // ----- Reports -----

  // The reports a container owes for the keys visited.
  predicate Due(c: Conflict, wrapper: string, group: string, b: Items, o: Items, t: Items,
                ren: map<string, string>, todo: set<string>)
  {
    && !c.GroupModifyDelete? && c.wrapper == wrapper && c.group == group
    && c.key in Keys(b, o, t) && c.key !in todo
    && match c
       case Body(_, _, k) => At(b, o, t, k).verdict == BodyClash
       case ModifyDelete(_, _, k) => At(b, o, t, k).verdict == GoneClash
       case IdCollision(_, _, k, x) => At(b, o, t, k).verdict == IdClash && k in ren && ren[k] == x
  }

  // Which report a key gets: a body conflict for an item both sides changed, a deletion conflict for one only
  // theirs deleted, and a collision, with the id the copy got, for one both added.
  lemma DueIff(w: string, g: string, b: Items, o: Items, t: Items, ren: map<string, string>, k: string, x: string)
    ensures Due(Body(w, g, k), w, g, b, o, t, ren, {}) <==>
              && k in b && k in o && k in t && o[k] != b[k] && t[k] != b[k] && o[k] != t[k]
              && !Resolved(b[k], o[k], t[k])
    ensures Due(ModifyDelete(w, g, k), w, g, b, o, t, ren, {}) <==> k in b && k in o && k !in t && o[k] != b[k]
    ensures Due(IdCollision(w, g, k, x), w, g, b, o, t, ren, {}) <==>
              k !in b && k in o && k in t && o[k] != t[k] && k in ren && ren[k] == x
  {
    ReportedIff(Get(b, k), Get(o, k), Get(t, k));
    hide Merged, Resolved;
  }

  function Report(v: Verdict, wrapper: string, group: string, k: string, x: string): seq<Conflict> {
    match v
    case Clean => []
    case BodyClash => [Body(wrapper, group, k)]
    case GoneClash => [ModifyDelete(wrapper, group, k)]
    case IdClash => [IdCollision(wrapper, group, k, x)]
  }

  ghost predicate Logged(log: seq<Conflict>, wrapper: string, group: string, b: Items, o: Items, t: Items,
                         ren: map<string, string>, todo: set<string>)
  {
    forall c :: c in log <==> Due(c, wrapper, group, b, o, t, ren, todo)
  }

  lemma LoggedMore(log: seq<Conflict>, wrapper: string, group: string, b: Items, o: Items, t: Items,
                   ren: map<string, string>, todo: set<string>, k: string, x: string)
    requires Logged(log, wrapper, group, b, o, t, ren, todo) && k in todo && k in Keys(b, o, t)
    requires Collided(b, o, t, ren, todo)
    ensures var v := At(b, o, t, k).verdict;
            Logged(log + Report(v, wrapper, group, k, x), wrapper, group, b, o, t,
                   if v == IdClash then ren[k := x] else ren, todo - {k})
  {
    hide Collided, Report;
    Unrenamed(b, o, t, ren, todo, k);
    var v := At(b, o, t, k).verdict;
    var ren2 := if v == IdClash then ren[k := x] else ren;
    var r := Report(v, wrapper, group, k, x);
    forall c
      ensures c in log + r <==> Due(c, wrapper, group, b, o, t, ren2, todo - {k})
    {
      DueMore(c, wrapper, group, b, o, t, ren, todo, k, x);
      hide Due;
      assert c in log + r <==> c in log || c in r;
    }
  }

  lemma DueMore(c: Conflict, wrapper: string, group: string, b: Items, o: Items, t: Items,
                ren: map<string, string>, todo: set<string>, k: string, x: string)
    requires k in todo && k in Keys(b, o, t) && k !in ren
    ensures var v := At(b, o, t, k).verdict;
            Due(c, wrapper, group, b, o, t, if v == IdClash then ren[k := x] else ren, todo - {k})
            <==> Due(c, wrapper, group, b, o, t, ren, todo) || c in Report(v, wrapper, group, k, x)
  {
    hide At, Keys;
  }

  // ----- The container merge -----

  ghost predicate Pending(b: Items, o: Items, t: Items, todo: set<string>) {
    todo <= Keys(b, o, t) && forall k :: k in todo ==> Started(b, o, t, k).Some?
  }

  method MergeItems(wrapper: string, group: string, b: Items, o: Items, t: Items)
      returns (m: Items, log: seq<Conflict>, ghost ren: map<string, string>)
    ensures forall k :: k in Keys(b, o, t) ==> Get(m, k) == At(b, o, t, k).item
    ensures ContainerMerged(b, o, t, m, ren, KeyAttr(wrapper))
    ensures Logged(log, wrapper, group, b, o, t, ren, {})
  {
    hide Get, Started, Progress, Pending, Logged, KeyAttr;
    m := AppendNew(b, o, t);
    var todo := m.Keys;
    var inUse := Keys(b, o, t);
    log, ren := [], map[];
    Begin(b, o, t, m, KeyAttr(wrapper));
    BeginLog(b, o, t, m, wrapper, group);
    while todo != {}
      invariant Pending(b, o, t, todo) && inUse == Keys(b, o, t) + ren.Values
      invariant Progress(b, o, t, m, ren, KeyAttr(wrapper), todo)
      invariant Logged(log, wrapper, group, b, o, t, ren, todo)
    {
      var k :| k in todo;
      m, log, inUse, ren := VisitKey(wrapper, group, b, o, t, k, todo, m, log, inUse, ren);
      todo := todo - {k};
    }
    AllSettled(b, o, t, m, ren, KeyAttr(wrapper));
  }

  lemma AllSettled(b: Items, o: Items, t: Items, m: Items, ren: map<string, string>, attr: string)
    requires ContainerMerged(b, o, t, m, ren, attr)
    ensures forall k :: k in Keys(b, o, t) ==> Get(m, k) == At(b, o, t, k).item
  {
    hide At, Get, Keys, Renames, Copied, Collided;
  }

  // One round of the second pass.
  method VisitKey(wrapper: string, group: string, b: Items, o: Items, t: Items, k: string, ghost todo: set<string>,
                  m: Items, log: seq<Conflict>, inUse: set<string>, ghost ren: map<string, string>)
      returns (m2: Items, log2: seq<Conflict>, inUse2: set<string>, ghost ren2: map<string, string>)
    requires k in todo && Pending(b, o, t, todo) && inUse == Keys(b, o, t) + ren.Values
    requires Progress(b, o, t, m, ren, KeyAttr(wrapper), todo)
    requires Logged(log, wrapper, group, b, o, t, ren, todo)
    ensures Pending(b, o, t, todo - {k}) && inUse2 == Keys(b, o, t) + ren2.Values
    ensures Progress(b, o, t, m2, ren2, KeyAttr(wrapper), todo - {k})
    ensures Get(m2, k) == At(b, o, t, k).item
    ensures Logged(log2, wrapper, group, b, o, t, ren2, todo - {k})
  {
    hide Started, At, Renames, Settled, Copied, Due, Logged, FirstFree, FirstFreeAt, Rekeyed, KeyAttr, Collided, Keys,
      Get, Report;
    Visiting(b, o, t, m, ren, KeyAttr(wrapper), todo, k);
    var r := MergeItem(Get(b, k), m[k], Get(t, k));
    if r.verdict == IdClash {
      ghost var n;
      var x;
      x, n := Ids.AllocateFreeId(k, inUse);
      IsFirstFree(k, x, inUse, n);
      LoggedMore(log, wrapper, group, b, o, t, ren, todo, k, x);
      VisitedRenamed(b, o, t, m, ren, KeyAttr(wrapper), todo, k, x);
      Unrenamed(b, o, t, ren, todo, k);
      ValuesAdded(ren, k, x);
      m2, ren2 := m[x := Rekeyed(t[k], KeyAttr(wrapper), x)], ren[k := x];
      log2, inUse2 := log + Report(r.verdict, wrapper, group, k, x), inUse + {x};
    } else {
      LoggedMore(log, wrapper, group, b, o, t, ren, todo, k, "");
      m2, ren2 := if r.item.Some? then m[k := r.item.value] else m - {k}, ren;
      Changed(m, k, r.item);
      VisitedKept(b, o, t, m, ren, KeyAttr(wrapper), todo, k, m2);
      log2, inUse2 := log + Report(r.verdict, wrapper, group, k, ""), inUse;
    }
    VisitedAt(b, o, t, m2, todo, k);
  }

  lemma VisitedAt(b: Items, o: Items, t: Items, m: Items, todo: set<string>, k: string)
    requires Pending(b, o, t, todo) && Settled(b, o, t, m, todo - {k}) && k in todo
    ensures Get(m, k) == At(b, o, t, k).item
  {
    hide At, Get, Started, Keys;
  }

  lemma Unrenamed(b: Items, o: Items, t: Items, ren: map<string, string>, todo: set<string>, k: string)
    requires Collided(b, o, t, ren, todo) && k in todo && k in Keys(b, o, t)
    ensures k !in ren
  {
  }

  lemma Changed(m: Items, k: string, i: Option<Item>)
    ensures var r := if i.Some? then m[k := i.value] else m - {k};
            Get(r, k) == i && forall x :: x != k ==> Get(r, x) == Get(m, x)
  {
  }

  lemma IsFirstFree(k: string, x: string, used: set<string>, n: nat)
    requires var s := Ids.ShapeOf(k);
             n > s.n && x == Ids.Candidate(s, n) && forall m :: s.n < m < n ==> Ids.Candidate(s, m) in used
    ensures FirstFree(k, x, used)
  {
    assert FirstFreeAt(k, x, used, n);
  }

  lemma BeginPending(b: Items, o: Items, t: Items, m: Items)
    requires forall k :: Get(m, k) == Started(b, o, t, k)
    ensures Pending(b, o, t, m.Keys)
  {
    forall k | k in m
      ensures k in Keys(b, o, t) && Started(b, o, t, k).Some?
    {
      assert Get(m, k).Some?;
    }
  }

  lemma Begin(b: Items, o: Items, t: Items, m: Items, attr: string)
    requires forall k :: Get(m, k) == Started(b, o, t, k)
    ensures Pending(b, o, t, m.Keys) && Progress(b, o, t, m, map[], attr, m.Keys)
  {
    BeginPending(b, o, t, m);
    BeginQuiet(b, o, t, m);
    BeginSettled(b, o, t, m);
    BeginCollided(b, o, t, m);
    hide Get, At, Started, Settled, Collided, FirstFree, Keys;
    BeginCopied(t, m, attr, Keys(b, o, t));
  }

  lemma BeginCollided(b: Items, o: Items, t: Items, m: Items)
    requires forall k :: k !in m ==> At(b, o, t, k) == Outcome(None, Clean)
    ensures Collided(b, o, t, map[], m.Keys)
  {
    hide At, Keys;
  }

  lemma BeginSettled(b: Items, o: Items, t: Items, m: Items)
    requires forall k :: Get(m, k) == Started(b, o, t, k)
    requires forall k :: k !in m ==> At(b, o, t, k) == Outcome(None, Clean)
    ensures Settled(b, o, t, m, m.Keys)
  {
    hide At, Started, Keys;
  }

  lemma BeginCopied(t: Items, m: Items, attr: string, u: set<string>)
    requires m.Keys <= u
    ensures Copied(t, m, map[], attr, u)
  {
    hide Rekeyed;
  }

  // Keys that are not appended to ours owe nothing.
  lemma BeginQuiet(b: Items, o: Items, t: Items, m: Items)
    requires forall k :: Get(m, k) == Started(b, o, t, k)
    ensures forall k :: k !in m ==> At(b, o, t, k) == Outcome(None, Clean)
  {
    hide At, Started;
    forall k | k !in m
      ensures At(b, o, t, k) == Outcome(None, Clean)
    {
      assert Get(m, k) == Started(b, o, t, k);
      StartedSettled(b, o, t, k);
    }
  }

  lemma BeginLog(b: Items, o: Items, t: Items, m: Items, wrapper: string, group: string)
    requires forall k :: Get(m, k) == Started(b, o, t, k)
    ensures Logged([], wrapper, group, b, o, t, map[], m.Keys)
  {
    BeginQuiet(b, o, t, m);
    hide At, Started;
  }

  // Only keys of both sides collide.
  lemma CollidesInBoth(b: Items, o: Items, t: Items, k: string)
    requires At(b, o, t, k).verdict == IdClash
    ensures k in t && k in o && At(b, o, t, k).item == Some(o[k])
  {
    hide FieldMerged, Resolved;
  }

  // The item found for a key to be visited.
  lemma Visiting(b: Items, o: Items, t: Items, m: Items, ren: map<string, string>, attr: string,
                 todo: set<string>, k: string)
    requires Progress(b, o, t, m, ren, attr, todo) && k in todo && Pending(b, o, t, todo)
    ensures k in Keys(b, o, t) && Pending(b, o, t, todo - {k})
    ensures k in m && Merged(Get(b, k), Some(m[k]), Get(t, k)) == At(b, o, t, k)
    ensures At(b, o, t, k).verdict == IdClash ==> k in t && k in o && At(b, o, t, k).item == Some(o[k])
  {
    hide Merged, Renames, Copied, Collided, Keys;
    StartedSettled(b, o, t, k);
    if At(b, o, t, k).verdict == IdClash {
      CollidesInBoth(b, o, t, k);
    }
    assert Get(m, k) == Started(b, o, t, k);
  }
}
