/** Merging two edits of one item child by child (tools/project_merge.py, _try_field_level_merge, _union_traces). */
module MergeFields {
  import opened Options

  datatype Row = Row(target: string, ref: string, name: string)

  // A child element: its trace rows, and everything else it holds.
  datatype Child = Child(body: string, rows: seq<Row>)

  // Children grouped by tag; a tag without children is absent.
  datatype Element = Element(attrs: map<string, string>, kids: map<string, seq<Child>>)

  type Item = e: Element | forall tag :: tag in e.kids ==> e.kids[tag] != [] witness Element(map[], map[])

  const TRACES: string := "traces"

  function Kids(e: Item, tag: string): seq<Child> { if tag in e.kids then e.kids[tag] else [] }

  function Get<V>(m: map<string, V>, k: string): (r: Option<V>) { if k in m then Some(m[k]) else None }

  // ----- Trace rows -----

  function Key(r: Row): (string, string) { (r.target, r.ref) }

  predicate HasKey(rows: seq<Row>, k: (string, string)) {
    exists i :: 0 <= i < |rows| && Key(rows[i]) == k
  }

  // The first row with key k.
  function First(rows: seq<Row>, k: (string, string)): (r: Row)
    requires HasKey(rows, k)
    ensures r in rows && Key(r) == k
    decreases |rows|
  {
    if Key(rows[0]) == k then rows[0]
    else
      assert HasKey(rows[1..], k) by {
        var i :| 0 <= i < |rows| && Key(rows[i]) == k;
        assert rows[1..][i - 1] == rows[i];
      }
      First(rows[1..], k)
  }

  predicate DistinctKeys(rows: seq<Row>) {
    forall i, j :: 0 <= i < j < |rows| ==> Key(rows[i]) != Key(rows[j])
  }

  // Rows are the first of each key of source, in that order.
  predicate FirstsOf(rows: seq<Row>, source: seq<Row>) {
    && DistinctKeys(rows)
    && (forall r :: r in rows ==> HasKey(source, Key(r)) && r == First(source, Key(r)))
    && (forall r :: r in source ==> HasKey(rows, Key(r)))
  }

  lemma {:induction false} FirstAppend(a: seq<Row>, b: seq<Row>, k: (string, string))
    requires HasKey(a, k)
    ensures HasKey(a + b, k) && First(a + b, k) == First(a, k)
    decreases |a|
  {
    var i :| 0 <= i < |a| && Key(a[i]) == k;
    assert (a + b)[i] == a[i];
    if Key(a[0]) != k {
      assert (a + b)[1..] == a[1..] + b;
      assert a[1..][i - 1] == a[i];
      FirstAppend(a[1..], b, k);
    }
  }

  lemma {:induction false} FirstNew(a: seq<Row>, r: Row)
    requires !HasKey(a, Key(r))
    ensures HasKey(a + [r], Key(r)) && First(a + [r], Key(r)) == r
    decreases |a|
  {
    assert (a + [r])[|a|] == r;
    if a != [] {
      assert (a + [r])[1..] == a[1..] + [r];
      assert forall i :: 0 <= i < |a| - 1 ==> a[1..][i] == a[i + 1];
      assert Key(a[0]) != Key(r);
      FirstNew(a[1..], r);
    }
  }

  lemma FirstsLast(rows: seq<Row>, source: seq<Row>, r: Row)
    requires FirstsOf(rows, source)
    ensures forall x :: x in rows ==> HasKey(source + [r], Key(x)) && x == First(source + [r], Key(x))
  {
    forall x | x in rows
      ensures HasKey(source + [r], Key(x)) && x == First(source + [r], Key(x))
    {
      FirstAppend(source, [r], Key(x));
    }
  }

  // One more source row: left out if its key is known,
  lemma FirstsKnown(rows: seq<Row>, source: seq<Row>, r: Row)
    requires FirstsOf(rows, source) && HasKey(rows, Key(r))
    ensures FirstsOf(rows, source + [r])
  {
    FirstsLast(rows, source, r);
  }

  // kept if it is new.
  lemma FirstsNew(rows: seq<Row>, source: seq<Row>, r: Row)
    requires FirstsOf(rows, source) && !HasKey(rows, Key(r))
    ensures FirstsOf(rows + [r], source + [r])
  {
    hide First;
    FirstsLast(rows, source, r);
    forall i | 0 <= i < |source|
      ensures Key(source[i]) != Key(r)
    {
      assert source[i] in source;
    }
    FirstNew(source, r);
    forall x | x in source + [r]
      ensures HasKey(rows + [r], Key(x))
    {
      if x in source {
        var i :| 0 <= i < |rows| && Key(rows[i]) == Key(x);
        assert (rows + [r])[i] == rows[i];
      } else {
        assert (rows + [r])[|rows|] == r;
      }
    }
  }

  function AddRows(seen: seq<Row>, rows: seq<Row>): seq<Row>
    decreases |rows|
  {
    if rows == [] then seen
    else AddRows(if HasKey(seen, Key(rows[0])) then seen else seen + [rows[0]], rows[1..])
  }

  // A traces element keeps its rows and nothing else.
  function Union(o: Child, t: Child): Child { Child("", AddRows(AddRows([], o.rows), t.rows)) }

  lemma {:induction false} AddRowsFirsts(seen: seq<Row>, source: seq<Row>, rows: seq<Row>)
    requires FirstsOf(seen, source)
    ensures FirstsOf(AddRows(seen, rows), source + rows)
    decreases |rows|
  {
    hide FirstsOf, HasKey;
    if rows == [] {
      assert source + rows == source;
    } else {
      if HasKey(seen, Key(rows[0])) {
        FirstsKnown(seen, source, rows[0]);
      } else {
        FirstsNew(seen, source, rows[0]);
      }
      assert source + [rows[0]] + rows[1..] == source + rows;
      AddRowsFirsts(if HasKey(seen, Key(rows[0])) then seen else seen + [rows[0]], source + [rows[0]], rows[1..]);
    }
  }

  // The union holds exactly one row for every (target, ref) of either side, ours where both have it.
  lemma UnionKeepsBoth(o: Child, t: Child)
    ensures DistinctKeys(Union(o, t).rows)
    ensures forall k :: HasKey(Union(o, t).rows, k) <==> HasKey(o.rows, k) || HasKey(t.rows, k)
    ensures forall r :: r in Union(o, t).rows ==>
                          if HasKey(o.rows, Key(r)) then r == First(o.rows, Key(r))
                          else HasKey(t.rows, Key(r)) && r == First(t.rows, Key(r))
  {
    var u, both := Union(o, t).rows, o.rows + t.rows;
    AddRowsFirsts([], [], o.rows);
    assert [] + o.rows == o.rows;
    AddRowsFirsts(AddRows([], o.rows), o.rows, t.rows);
    forall k
      ensures HasKey(u, k) <==> HasKey(both, k)
    {
      if HasKey(u, k) {
        var i :| 0 <= i < |u| && Key(u[i]) == k;
        assert u[i] in u;
      }
      if HasKey(both, k) {
        assert First(both, k) in both;
      }
    }
    forall k
      ensures HasKey(both, k) <==> HasKey(o.rows, k) || HasKey(t.rows, k)
    {
      KeysOfBoth(o.rows, t.rows, k);
    }
    forall r | r in u
      ensures if HasKey(o.rows, Key(r)) then r == First(o.rows, Key(r))
              else HasKey(t.rows, Key(r)) && r == First(t.rows, Key(r))
    {
      if HasKey(o.rows, Key(r)) {
        FirstAppend(o.rows, t.rows, Key(r));
      } else {
        FirstBehind(o.rows, t.rows, Key(r));
      }
    }
  }

  lemma KeysOfBoth(a: seq<Row>, b: seq<Row>, k: (string, string))
    ensures HasKey(a + b, k) <==> HasKey(a, k) || HasKey(b, k)
  {
    if HasKey(a, k) {
      FirstAppend(a, b, k);
    }
    if HasKey(b, k) {
      var i :| 0 <= i < |b| && Key(b[i]) == k;
      assert (a + b)[|a| + i] == b[i];
    }
    if HasKey(a + b, k) {
      var i :| 0 <= i < |a + b| && Key((a + b)[i]) == k;
      if i < |a| {
        assert a[i] == (a + b)[i];
      } else {
        assert b[i - |a|] == (a + b)[i];
      }
    }
  }

  lemma {:induction false} FirstBehind(a: seq<Row>, b: seq<Row>, k: (string, string))
    requires !HasKey(a, k) && HasKey(a + b, k)
    ensures HasKey(b, k) && First(a + b, k) == First(b, k)
    decreases |a|
  {
    KeysOfBoth(a, b, k);
    if a == [] {
      assert a + b == b;
    } else {
      assert (a + b)[1..] == a[1..] + b;
      assert forall i :: 0 <= i < |a| - 1 ==> a[1..][i] == a[i + 1];
      assert Key(a[0]) != k;
      KeysOfBoth(a[1..], b, k);
      FirstBehind(a[1..], b, k);
    }
  }

  // Our rows come first, as they are unless a key is repeated, and nothing but rows is kept.
  lemma UnionOrder(o: Child, t: Child)
    ensures Union(o, t).body == ""
    ensures DistinctKeys(o.rows) ==> o.rows <= Union(o, t).rows
    ensures DistinctKeys(o.rows + t.rows) ==> Union(o, t).rows == o.rows + t.rows
  {
    AddRowsKeeps(AddRows([], o.rows), t.rows);
    if DistinctKeys(o.rows) {
      AddDistinct([], o.rows);
      assert [] + o.rows == o.rows;
      if DistinctKeys(o.rows + t.rows) {
        AddDistinct(o.rows, t.rows);
      }
    } else {
      var i, j :| 0 <= i < j < |o.rows| && Key(o.rows[i]) == Key(o.rows[j]);
      assert (o.rows + t.rows)[i] == o.rows[i] && (o.rows + t.rows)[j] == o.rows[j];
    }
  }

  lemma {:induction false} AddRowsKeeps(seen: seq<Row>, rows: seq<Row>)
    ensures seen <= AddRows(seen, rows)
    decreases |rows|
  {
    hide HasKey;
    if rows != [] {
      AddRowsKeeps(if HasKey(seen, Key(rows[0])) then seen else seen + [rows[0]], rows[1..]);
    }
  }

  lemma {:induction false} AddDistinct(seen: seq<Row>, rows: seq<Row>)
    requires DistinctKeys(seen + rows)
    ensures AddRows(seen, rows) == seen + rows
    decreases |rows|
  {
    if rows == [] {
      assert seen + rows == seen;
    } else {
      forall i | 0 <= i < |seen|
        ensures Key(seen[i]) != Key(rows[0])
      {
        assert (seen + rows)[i] == seen[i] && (seen + rows)[|seen|] == rows[0];
      }
      assert seen + [rows[0]] + rows[1..] == seen + rows;
      AddDistinct(seen + [rows[0]], rows[1..]);
    }
  }

  method UnionTraces(o: Child, t: Child) returns (c: Child)
    ensures c == Union(o, t)
  {
    var seen := AddAll([], o.rows);
    seen := AddAll(seen, t.rows);
    return Child("", seen);
  }

  method AddAll(before: seq<Row>, rows: seq<Row>) returns (seen: seq<Row>)
    ensures seen == AddRows(before, rows)
  {
    hide HasKey;
    seen := before;
    for i := 0 to |rows|
      invariant AddRows(before, rows) == AddRows(seen, rows[i..])
    {
      assert rows[i..][1..] == rows[i + 1..];
      if !HasKey(seen, Key(rows[i])) {
        seen := seen + [rows[i]];
      }
    }
  }

  // ----- Items -----

  // One tag, or one attribute: equal edits agree, a side that kept the base yields.
  function Pick<V(==)>(b: V, o: V, t: V): V { if o != t && o == b then t else o }

  predicate Clash<V(==)>(b: V, o: V, t: V) { o != t && o != b && t != b }

  function MergedKids(b: Item, o: Item, t: Item, tag: string): seq<Child> {
    var (x, y, z) := (Kids(b, tag), Kids(o, tag), Kids(t, tag));
    if Clash(x, y, z) && Unites(y, z, tag) then y[1..] + [Union(y[0], z[0])] else Pick(x, y, z)
  }

  predicate Unites(o: seq<Child>, t: seq<Child>, tag: string) { tag == TRACES && o != [] && t != [] }

  function MergedAttr(b: Item, o: Item, t: Item, a: string): Option<string> {
    Pick(Get(b.attrs, a), Get(o.attrs, a), Get(t.attrs, a))
  }

  function Tags(b: Item, o: Item, t: Item): set<string> { b.kids.Keys + o.kids.Keys + t.kids.Keys }

  function Attrs(b: Item, o: Item, t: Item): set<string> { b.attrs.Keys + o.attrs.Keys + t.attrs.Keys }

  function MergedKidMap(b: Item, o: Item, t: Item): (m: map<string, seq<Child>>)
    ensures forall tag :: tag in m ==> m[tag] != []
    ensures forall tag :: (if tag in m then m[tag] else []) == MergedKids(b, o, t, tag)
  {
    NoKids(b, o, t);
    hide MergedKids;
    map tag | tag in Tags(b, o, t) && MergedKids(b, o, t, tag) != [] :: MergedKids(b, o, t, tag)
  }

  lemma NoKids(b: Item, o: Item, t: Item)
    ensures forall tag :: tag !in Tags(b, o, t) ==> MergedKids(b, o, t, tag) == []
  {
  }

  function MergedAttrMap(b: Item, o: Item, t: Item): (m: map<string, string>)
    ensures forall a :: Get(m, a) == MergedAttr(b, o, t, a)
  {
    map a | a in Attrs(b, o, t) && MergedAttr(b, o, t, a).Some? :: MergedAttr(b, o, t, a).value
  }

  function FieldMerged(b: Item, o: Item, t: Item): (m: Item)
    ensures forall tag :: Kids(m, tag) == MergedKids(b, o, t, tag)
    ensures forall a :: Get(m.attrs, a) == MergedAttr(b, o, t, a)
  {
    hide MergedKids, MergedAttr;
    Element(MergedAttrMap(b, o, t), MergedKidMap(b, o, t))
  }

  predicate KidsClash(b: Item, o: Item, t: Item, tag: string) {
    Clash(Kids(b, tag), Kids(o, tag), Kids(t, tag)) && !Unites(Kids(o, tag), Kids(t, tag), tag)
  }

  predicate AttrClash(b: Item, o: Item, t: Item, a: string) {
    Clash(Get(b.attrs, a), Get(o.attrs, a), Get(t.attrs, a))
  }

  // No child and no attribute was edited differently on both sides, traces apart.
  predicate Resolved(b: Item, o: Item, t: Item) {
    && (forall tag :: tag in Tags(b, o, t) ==> !KidsClash(b, o, t, tag))
    && (forall a :: a in Attrs(b, o, t) ==> !AttrClash(b, o, t, a))
  }

  // Tag by tag: the side that changed the base wins, equal changes agree, and of two different changes ours
  // stands, except that the first traces elements of both sides are united.
  lemma KidsMergedAs(b: Item, o: Item, t: Item, tag: string)
    ensures var (x, y, z) := (Kids(b, tag), Kids(o, tag), Kids(t, tag));
            Kids(FieldMerged(b, o, t), tag) ==
            if y == x then z
            else if z == x || z == y then y
            else if tag == "traces" && y != [] && z != [] then y[1..] + [Union(y[0], z[0])]
            else y
  {
    hide Union, Kids, FieldMerged;
  }

  lemma AttrMergedAs(b: Item, o: Item, t: Item, a: string)
    ensures var (x, y, z) := (Get(b.attrs, a), Get(o.attrs, a), Get(t.attrs, a));
            Get(FieldMerged(b, o, t).attrs, a) == if y == x then z else y
  {
    hide Get, FieldMerged;
  }

  predicate KidsApart(b: Item, o: Item, t: Item, tag: string) {
    var (x, y, z) := (Kids(b, tag), Kids(o, tag), Kids(t, tag));
    x != y && x != z && y != z && (tag != "traces" || y == [] || z == [])
  }

  predicate AttrApart(b: Item, o: Item, t: Item, a: string) {
    var (x, y, z) := (Get(b.attrs, a), Get(o.attrs, a), Get(t.attrs, a));
    x != y && x != z && y != z
  }

  // The merge goes through unless some tag other than traces, or some attribute, was changed in two ways.
  lemma ResolvedIff(b: Item, o: Item, t: Item)
    ensures Resolved(b, o, t) <==>
            (forall tag :: !KidsApart(b, o, t, tag)) && (forall a :: !AttrApart(b, o, t, a))
  {
    forall tag
      ensures KidsApart(b, o, t, tag) <==> tag in Tags(b, o, t) && KidsClash(b, o, t, tag)
    {
      KidsApartIff(b, o, t, tag);
    }
    forall a
      ensures AttrApart(b, o, t, a) <==> a in Attrs(b, o, t) && AttrClash(b, o, t, a)
    {
      AttrApartIff(b, o, t, a);
    }
    hide Tags, Attrs, KidsClash, AttrClash, KidsApart, AttrApart;
  }

  lemma KidsApartIff(b: Item, o: Item, t: Item, tag: string)
    ensures KidsApart(b, o, t, tag) <==> tag in Tags(b, o, t) && KidsClash(b, o, t, tag)
  {
    if tag !in Tags(b, o, t) {
      assert Kids(b, tag) == Kids(o, tag) == [];
    }
    hide Kids, Tags;
  }

  lemma AttrApartIff(b: Item, o: Item, t: Item, a: string)
    ensures AttrApart(b, o, t, a) <==> a in Attrs(b, o, t) && AttrClash(b, o, t, a)
  {
    if a !in Attrs(b, o, t) {
      assert Get(b.attrs, a) == Get(o.attrs, a) == None;
    }
    hide Get, Attrs;
  }

  // Merging in place: the item changes even where the merge is refused.
  method TryFieldLevelMerge(b: Item, o: Item, t: Item) returns (m: Item, ok: bool)
    ensures m == FieldMerged(b, o, t)
    ensures ok <==> Resolved(b, o, t)
  {
    hide Kids, Get, KidsClash, AttrClash, MergedKids, MergedAttr, MergedKidMap, MergedAttrMap;
    hide Tags, Attrs, FieldMerged;
    var m1, ok1 := MergeKids(b, o, t);
    var attrs, ok2 := MergeAttrs(b, o, t);
    m, ok := m1.(attrs := attrs), ok1 && ok2;
    Assembled(b, o, t, m);
  }

  lemma Assembled(b: Item, o: Item, t: Item, m: Item)
    requires m.kids == MergedKidMap(b, o, t) && m.attrs == MergedAttrMap(b, o, t)
    ensures m == FieldMerged(b, o, t)
  {
    hide MergedKidMap, MergedAttrMap, Kids, Get, MergedKids, MergedAttr;
  }

  // The branches of the loop over tags.
  lemma KidsCases(b: Item, o: Item, t: Item, tag: string)
    ensures var (x, y, z) := (Kids(b, tag), Kids(o, tag), Kids(t, tag));
            && (y != z && y == x ==> MergedKids(b, o, t, tag) == z)
            && (y == z || (y != x && (z == x || !Unites(y, z, tag))) ==> MergedKids(b, o, t, tag) == y)
            && (y != z && y != x && z != x && Unites(y, z, tag) ==>
                  MergedKids(b, o, t, tag) == y[1..] + [Union(y[0], z[0])])
            && (KidsClash(b, o, t, tag) <==> y != z && y != x && z != x && !Unites(y, z, tag))
    ensures tag !in Tags(b, o, t) ==> MergedKids(b, o, t, tag) == Kids(o, tag)
  {
  }

  method MergeKids(b: Item, o: Item, t: Item) returns (m: Item, ok: bool)
    ensures m.attrs == o.attrs && m.kids == MergedKidMap(b, o, t)
    ensures ok <==> forall tag :: tag in Tags(b, o, t) ==> !KidsClash(b, o, t, tag)
  {
    hide Union, MergedKids, KidsClash, Kids, WithKids, Tags, MergedKidMap;
    m, ok := o, true;
    var todo := Tags(b, o, t);
    while todo != {}
      invariant todo <= Tags(b, o, t) && m.attrs == o.attrs
      invariant forall tag :: tag in Tags(b, o, t) ==>
                                Kids(m, tag) == if tag in todo then Kids(o, tag) else MergedKids(b, o, t, tag)
      invariant forall tag :: tag !in Tags(b, o, t) ==> Kids(m, tag) == Kids(o, tag)
      invariant ok <==> forall tag :: tag in Tags(b, o, t) && tag !in todo ==> !KidsClash(b, o, t, tag)
    {
      var tag :| tag in todo;
      KidsCases(b, o, t, tag);
      var clash: bool;
      m, clash := MergeTag(b, o, t, m, tag);
      ok := ok && !clash;
      todo := todo - {tag};
    }
    forall tag
      ensures Kids(m, tag) == MergedKids(b, o, t, tag)
    {
      KidsCases(b, o, t, tag);
    }
    SameKids(m, FieldMerged(b, o, t));
  }

  // One tag: kept, taken over from theirs, united, or refused.
  method MergeTag(b: Item, o: Item, t: Item, now: Item, tag: string) returns (m: Item, clash: bool)
    requires Kids(now, tag) == Kids(o, tag)
    ensures m.attrs == now.attrs && Kids(m, tag) == MergedKids(b, o, t, tag)
    ensures forall x :: x != tag ==> Kids(m, x) == Kids(now, x)
    ensures clash <==> KidsClash(b, o, t, tag)
  {
    hide Union, MergedKids, KidsClash, WithKids;
    KidsCases(b, o, t, tag);
    var x, y, z := Kids(b, tag), Kids(o, tag), Kids(t, tag);
    if y == z {
      return now, false;
    }
    if y == x {
      return WithKids(now, tag, z), false;
    }
    if z == x {
      return now, false;
    }
    if tag == TRACES && y != [] && z != [] {
      var u := UnionTraces(y[0], z[0]);
      return WithKids(now, tag, y[1..] + [u]), false;
    }
    return now, true;
  }

  lemma SameKids(x: Item, y: Item)
    requires forall tag :: Kids(x, tag) == Kids(y, tag)
    ensures x.kids == y.kids
  {
    forall tag | tag in x.kids.Keys + y.kids.Keys
      ensures tag in x.kids && tag in y.kids && x.kids[tag] == y.kids[tag]
    {
      assert Kids(x, tag) == Kids(y, tag);
    }
  }

  function WithKids(e: Item, tag: string, kids: seq<Child>): (r: Item)
    ensures r.attrs == e.attrs && Kids(r, tag) == kids
    ensures forall x :: x != tag ==> Kids(r, x) == Kids(e, x)
  {
    e.(kids := if kids == [] then e.kids - {tag} else e.kids[tag := kids])
  }

  // The loop over attributes.
  method MergeAttrs(b: Item, o: Item, t: Item) returns (m: map<string, string>, ok: bool)
    ensures m == MergedAttrMap(b, o, t)
    ensures ok <==> forall a :: a in Attrs(b, o, t) ==> !AttrClash(b, o, t, a)
  {
    hide AttrClash, MergedAttr, MergedAttrMap, Get;
    m, ok := o.attrs, true;
    var todo := Attrs(b, o, t);
    while todo != {}
      invariant todo <= Attrs(b, o, t)
      invariant forall a :: a in Attrs(b, o, t) ==>
                              Get(m, a) == if a in todo then Get(o.attrs, a) else MergedAttr(b, o, t, a)
      invariant forall a :: a !in Attrs(b, o, t) ==> Get(m, a) == Get(o.attrs, a)
      invariant ok <==> forall a :: a in Attrs(b, o, t) && a !in todo ==> !AttrClash(b, o, t, a)
    {
      var a :| a in todo;
      AttrCases(b, o, t, a);
      var clash: bool;
      m, clash := MergeAttr(Get(b.attrs, a), Get(o.attrs, a), Get(t.attrs, a), m, a);
      ok := ok && !clash;
      todo := todo - {a};
    }
    forall a
      ensures Get(m, a) == MergedAttr(b, o, t, a)
    {
      AttrCases(b, o, t, a);
    }
    SameAttrs(m, MergedAttrMap(b, o, t));
  }

  // One attribute: kept, taken over from theirs or removed as there, or refused.
  method MergeAttr(x: Option<string>, y: Option<string>, z: Option<string>, now: map<string, string>, a: string)
      returns (m: map<string, string>, clash: bool)
    requires Get(now, a) == y
    ensures Get(m, a) == if y != z && y == x then z else y
    ensures forall k :: k != a ==> Get(m, k) == Get(now, k)
    ensures clash <==> y != z && y != x && z != x
  {
    m, clash := now, false;
    if y == z {
    } else if y == x {
      m := if z.None? then now - {a} else now[a := z.value];
    } else if z == x {
    } else {
      clash := true;
    }
  }

  lemma AttrCases(b: Item, o: Item, t: Item, a: string)
    ensures var (x, y, z) := (Get(b.attrs, a), Get(o.attrs, a), Get(t.attrs, a));
            && MergedAttr(b, o, t, a) == (if y != z && y == x then z else y)
            && (AttrClash(b, o, t, a) <==> y != z && y != x && z != x)
    ensures a !in Attrs(b, o, t) ==> MergedAttr(b, o, t, a) == Get(o.attrs, a)
  {
  }

  lemma SameAttrs(x: map<string, string>, y: map<string, string>)
    requires forall a :: Get(x, a) == Get(y, a)
    ensures x == y
  {
    forall a | a in x.Keys + y.Keys
      ensures a in x && a in y && x[a] == y[a]
    {
      assert Get(x, a) == Get(y, a);
    }
  }

  // A merge without a clash keeps every edited child of either side, trace rows apart, which are united,
  lemma ResolvedKeepsKids(b: Item, o: Item, t: Item, tag: string)
    requires Resolved(b, o, t) && !Unites(Kids(o, tag), Kids(t, tag), tag)
    ensures var m := FieldMerged(b, o, t);
            && (Kids(o, tag) != Kids(b, tag) ==> Kids(m, tag) == Kids(o, tag))
            && (Kids(t, tag) != Kids(b, tag) ==> Kids(m, tag) == Kids(t, tag))
  {
  }

  // and every edited attribute.
  lemma ResolvedKeepsAttrs(b: Item, o: Item, t: Item, a: string)
    requires Resolved(b, o, t)
    ensures var m := FieldMerged(b, o, t);
            && (Get(o.attrs, a) != Get(b.attrs, a) ==> Get(m.attrs, a) == Get(o.attrs, a))
            && (Get(t.attrs, a) != Get(b.attrs, a) ==> Get(m.attrs, a) == Get(t.attrs, a))
  {
  }
}
