/** Selecting the child an edit path names (tools/project_edit.py, _select_child). */
module Selectors {
  import opened Options
  import opened MergeFields
  import opened Rename

  // What stands in brackets behind a tag: nothing, a position, or attribute values.
  datatype Selector = Only | Nth(n: nat) | WithAttrs(values: map<string, string>)

  datatype Selected = Found(i: nat) | Missing | Ambiguous

  predicate HasAttrs(e: Node, values: map<string, string>) {
    forall a :: a in values ==> Get(e.attrs, a) == Some(values[a])
  }

  function CountTag(kids: seq<Node>, tag: string): nat
    decreases |kids|
  {
    if kids == [] then 0 else CountTag(kids[..|kids| - 1], tag) + if kids[|kids| - 1].tag == tag then 1 else 0
  }

  // The only child of the tag, the n-th, or the first with the given attributes.
  predicate Selects(kids: seq<Node>, tag: string, sel: Selector, r: Selected) {
    match sel
    case Only =>
      (match r
       case Found(i) => i < |kids| && kids[i].tag == tag && CountTag(kids, tag) == 1
       case Missing => CountTag(kids, tag) == 0
       case Ambiguous => CountTag(kids, tag) > 1)
    case Nth(n) =>
      (match r
       case Found(i) => i < |kids| && kids[i].tag == tag && CountTag(kids[..i], tag) == n
       case Missing => CountTag(kids, tag) <= n
       case Ambiguous => false)
    case WithAttrs(values) =>
      (match r
       case Found(i) =>
         && i < |kids| && kids[i].tag == tag && HasAttrs(kids[i], values)
         && forall j :: 0 <= j < i ==> !(kids[j].tag == tag && HasAttrs(kids[j], values))
       case Missing => forall j :: 0 <= j < |kids| ==> !(kids[j].tag == tag && HasAttrs(kids[j], values))
       case Ambiguous => false)
  }

  // The positions of the first n children with the tag, in order.
  predicate Lists(children: seq<nat>, kids: seq<Node>, tag: string, n: nat)
    requires n <= |kids|
  {
    && |children| == CountTag(kids[..n], tag)
    && (forall c :: 0 <= c < |children| ==>
          children[c] < n && kids[children[c]].tag == tag && CountTag(kids[..children[c]], tag) == c)
    && (forall c, d :: 0 <= c < d < |children| ==> children[c] < children[d])
    && (forall j :: 0 <= j < n && kids[j].tag == tag ==> j in children)
  }

  lemma CountNext(kids: seq<Node>, tag: string, i: nat)
    requires i < |kids|
    ensures CountTag(kids[..i + 1], tag) == CountTag(kids[..i], tag) + if kids[i].tag == tag then 1 else 0
  {
    assert kids[..i + 1][..i] == kids[..i];
  }

  method ChildrenOf(kids: seq<Node>, tag: string) returns (children: seq<nat>)
    ensures Lists(children, kids, tag, |kids|)
  {
    children := [];
    for i := 0 to |kids|
      invariant Lists(children, kids, tag, i)
    {
      CountNext(kids, tag, i);
      hide CountTag;
      if kids[i].tag == tag {
        children := children + [i];
      }
    }
  }

  // _select_child
  method SelectChild(kids: seq<Node>, tag: string, sel: Selector) returns (r: Selected)
    ensures Selects(kids, tag, sel, r)
  {
    hide CountTag, HasAttrs;
    assert kids[..|kids|] == kids;
    var children := ChildrenOf(kids, tag);
    match sel
    case Only =>
      r := if |children| == 1 then Found(children[0]) else if |children| == 0 then Missing else Ambiguous;
    case Nth(n) =>
      r := if n < |children| then Found(children[n]) else Missing;
    case WithAttrs(values) =>
      r := FirstWith(kids, tag, values, children);
  }

  method FirstWith(kids: seq<Node>, tag: string, values: map<string, string>, children: seq<nat>)
      returns (r: Selected)
    requires Lists(children, kids, tag, |kids|)
    ensures Selects(kids, tag, WithAttrs(values), r)
  {
    hide CountTag, HasAttrs;
    for c := 0 to |children|
      invariant forall d :: 0 <= d < c ==> !HasAttrs(kids[children[d]], values)
    {
      if HasAttrs(kids[children[c]], values) {
        return Found(children[c]);
      }
    }
    return Missing;
  }

  lemma {:induction false} CountGrows(kids: seq<Node>, tag: string, i: nat, j: nat)
    requires i <= j <= |kids|
    ensures CountTag(kids[..i], tag) <= CountTag(kids[..j], tag)
    ensures forall k :: i <= k < j && kids[k].tag == tag ==> CountTag(kids[..i], tag) < CountTag(kids[..j], tag)
    decreases j
  {
    if i < j {
      assert kids[..j][..j - 1] == kids[..j - 1];
      CountGrows(kids, tag, i, j - 1);
    }
  }

  // Two children of the tag have different counts before them, and no more than the total after.
  lemma CountsApart(kids: seq<Node>, tag: string, i: nat, j: nat)
    requires i < j < |kids| && kids[i].tag == kids[j].tag == tag
    ensures CountTag(kids[..i], tag) < CountTag(kids[..j], tag) < CountTag(kids, tag)
    ensures CountTag(kids, tag) > 1
  {
    CountGrows(kids, tag, i, j);
    CountGrows(kids, tag, j, |kids|);
    assert kids[..|kids|] == kids;
  }

  lemma CountBelow(kids: seq<Node>, tag: string, i: nat)
    requires i < |kids| && kids[i].tag == tag
    ensures CountTag(kids[..i], tag) < CountTag(kids, tag)
  {
    CountGrows(kids, tag, i, |kids|);
    assert kids[..|kids|] == kids;
  }

  // A selector addresses at most one child.
  lemma SelectsOne(kids: seq<Node>, tag: string, sel: Selector, r: Selected, s: Selected)
    requires Selects(kids, tag, sel, r) && Selects(kids, tag, sel, s)
    ensures r == s
  {
    hide CountTag, HasAttrs;
    if r.Found? {
      CountBelow(kids, tag, r.i);
    }
    if s.Found? {
      CountBelow(kids, tag, s.i);
    }
    if r.Found? && s.Found? && !sel.WithAttrs? && r.i < s.i {
      CountsApart(kids, tag, r.i, s.i);
    }
    if r.Found? && s.Found? && !sel.WithAttrs? && s.i < r.i {
      CountsApart(kids, tag, s.i, r.i);
    }
  }

  // A renamed element is addressed by its new id exactly when no sibling before it has that id already.
  lemma RenamedIsFoundIff(kids: seq<Node>, at: nat, old_id: string, new_id: string)
    requires Renaming(kids, at, old_id, new_id)
    ensures Selects(AttrSet(kids, at, "id", new_id), kids[at].tag, WithAttrs(map["id" := new_id]), Found(at))
      <==> forall j :: 0 <= j < at ==> !IsItem(kids[j], kids[at].tag, new_id)
  {
    hide AttrSet;
    var now := AttrSet(kids, at, "id", new_id);
    var values := map["id" := new_id];
    forall j | 0 <= j < |kids|
      ensures (now[j].tag == kids[at].tag && HasAttrs(now[j], values)) <==>
              j == at || IsItem(kids[j], kids[at].tag, new_id)
    {
      RenamedNode(kids, at, old_id, new_id, j);
      assert HasAttrs(now[j], values) <==> Get(now[j].attrs, "id") == Some(values["id"]);
    }
  }
}
