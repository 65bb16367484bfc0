/** Editing ids in a project document (tools/project_edit.py): the cascade to trace rows, and edit paths. */
module Rename {
  import opened Options
  import opened MergeFields

  // The elements of a document in document order; the tree above them does not change here.
  datatype Node = Node(tag: string, attrs: map<string, string>)

  // The value of trace/@target that names elements of a tag.
  function TargetOf(tag: string): Option<string> {
    if tag == "hlr" then Some("HLR") else if tag == "llr" then Some("LLR") else None
  }

  predicate IsTrace(e: Node, target: string, ref: string) {
    e.tag == "trace" && Get(e.attrs, "target") == Some(target) && Get(e.attrs, "ref") == Some(ref)
  }

  predicate IsItem(e: Node, tag: string, id: string) { e.tag == tag && Get(e.attrs, "id") == Some(id) }

  function With(e: Node, attr: string, v: string): Node { e.(attrs := e.attrs[attr := v]) }

  function Redirected(e: Node, target: string, old_id: string, new_id: string): Node {
    if IsTrace(e, target, old_id) then With(e, "ref", new_id) else e
  }

  function Cascaded(d: seq<Node>, tag: string, old_id: string, new_id: string): (r: seq<Node>)
    ensures |r| == |d|
  {
    if TargetOf(tag).None? then d
    else seq(|d|, i requires 0 <= i < |d| => Redirected(d[i], TargetOf(tag).value, old_id, new_id))
  }

  method CascadeIdRename(doc: array<Node>, tag: string, old_id: string, new_id: string)
    modifies doc
    ensures doc[..] == Cascaded(old(doc[..]), tag, old_id, new_id)
  {
    if TargetOf(tag).None? {
      return;
    }
    var target := TargetOf(tag).value;
    for i := 0 to doc.Length
      invariant forall k :: 0 <= k < i ==> doc[k] == Redirected(old(doc[k]), target, old_id, new_id)
      invariant forall k :: i <= k < doc.Length ==> doc[k] == old(doc[k])
    {
      if IsTrace(doc[i], target, old_id) {
        doc[i] := With(doc[i], "ref", new_id);
      }
    }
  }

  // A value set for an attribute. Only a change of a non-empty id cascades.
  function AttrSet(d: seq<Node>, at: nat, attr: string, v: string): (r: seq<Node>)
    requires at < |d|
    ensures |r| == |d|
  {
    var was := Get(d[at].attrs, attr);
    var set1 := d[at := With(d[at], attr, v)];
    if attr == "id" && was.Some? && was.value != "" && was.value != v then Cascaded(set1, d[at].tag, was.value, v)
    else set1
  }

  method SetAttr(doc: array<Node>, at: nat, attr: string, v: string)
    requires at < doc.Length
    modifies doc
    ensures doc[..] == AttrSet(old(doc[..]), at, attr, v)
  {
    var was := Get(doc[at].attrs, attr);
    doc[at] := With(doc[at], attr, v);
    assert doc[..] == old(doc[..])[at := With(old(doc[at]), attr, v)];
    if attr == "id" && was.Some? && was.value != "" && was.value != v {
      CascadeIdRename(doc, doc[at].tag, was.value, v);
    }
  }

  predicate Names(e: Node, target: string, ref: string) {
    && e.tag == "trace" && "target" in e.attrs && "ref" in e.attrs
    && e.attrs["target"] == target && e.attrs["ref"] == ref
  }

  // A trace with another ref and nothing else changed.
  predicate Repointed(e: Node, r: Node, ref: string) {
    && r.tag == e.tag && r.attrs.Keys == e.attrs.Keys + {"ref"} && r.attrs["ref"] == ref
    && forall a :: a in e.attrs && a != "ref" ==> r.attrs[a] == e.attrs[a]
  }

  // A changed, non-empty id of an hlr takes the traces to it along, which have the target HLR; one of an llr those
  // with the target LLR; any other edit changes its own element only.
  lemma EditReaches(d: seq<Node>, at: nat, attr: string, v: string, i: nat)
    requires at < |d| && i < |d| && i != at
    ensures var e, r := d[i], AttrSet(d, at, attr, v)[i];
            var was := if "id" in d[at].attrs then d[at].attrs["id"] else "";
            var renames := attr == "id" && was != "" && was != v;
            if renames && d[at].tag == "hlr" && Names(e, "HLR", was) then Repointed(e, r, v)
            else if renames && d[at].tag == "llr" && Names(e, "LLR", was) then Repointed(e, r, v)
            else r == e
  {
    assert "hlr"[0] != "llr"[0];
  }

  // The element itself gets the value, and keeps the rest.
  lemma EditSets(d: seq<Node>, at: nat, attr: string, v: string)
    requires at < |d|
    ensures var e, r := d[at], AttrSet(d, at, attr, v)[at];
            && r.tag == e.tag && r.attrs.Keys == e.attrs.Keys + {attr} && r.attrs[attr] == v
            && forall a :: a in e.attrs && a != attr ==> r.attrs[a] == e.attrs[a]
  {
  }

  // ----- The trace graph -----

  // Trace p resolves to element q.
  predicate Refers(d: seq<Node>, p: nat, q: nat) {
    && p < |d| && q < |d| && d[p].tag == "trace"
    && TargetOf(d[q].tag).Some? && Get(d[p].attrs, "target") == TargetOf(d[q].tag)
    && Get(d[p].attrs, "ref").Some? && Get(d[p].attrs, "ref") == Get(d[q].attrs, "id")
  }

  predicate SameGraph(d: seq<Node>, e: seq<Node>) {
    |d| == |e| && forall p, q :: 0 <= p < |d| && 0 <= q < |d| ==> (Refers(d, p, q) <==> Refers(e, p, q))
  }

  // An hlr or llr with an id is renamed to another one.
  predicate Renaming(d: seq<Node>, at: nat, old_id: string, new_id: string) {
    at < |d| && TargetOf(d[at].tag).Some? && IsItem(d[at], d[at].tag, old_id) && old_id != "" && old_id != new_id
  }

  // No trace names the new id yet, and if any names the old one, no other element of the kind has either id.
  predicate Safe(d: seq<Node>, at: nat, old_id: string, new_id: string)
    requires Renaming(d, at, old_id, new_id)
  {
    var tag := d[at].tag;
    var target := TargetOf(tag).value;
    && (forall p :: 0 <= p < |d| ==> !IsTrace(d[p], target, new_id))
    && ((exists p :: 0 <= p < |d| && IsTrace(d[p], target, old_id)) ==>
          forall q :: 0 <= q < |d| && q != at ==> !IsItem(d[q], tag, old_id) && !IsItem(d[q], tag, new_id))
  }

  // A requirement and a trace to it, for example.
  lemma RenameExample()
    ensures var item := Node("hlr", map["id" := "HLR-001"]);
            var trace := Node("trace", map["target" := "HLR", "ref" := "HLR-001"]);
            var d := [item, trace];
            && Renaming(d, 0, "HLR-001", "HLR-002") && Safe(d, 0, "HLR-001", "HLR-002") && Refers(d, 1, 0)
            && AttrSet(d, 0, "id", "HLR-002") == [item.(attrs := map["id" := "HLR-002"]),
                                                  trace.(attrs := map["target" := "HLR", "ref" := "HLR-002"])]
  {
    var item := Node("hlr", map["id" := "HLR-001"]);
    var trace := Node("trace", map["target" := "HLR", "ref" := "HLR-001"]);
    assert "HLR-001"[6] == '1' && "HLR-002"[6] == '2' && "hlr"[0] == 'h' && "trace"[0] == 't';
    assert "target"[0] == 't' && "ref"[0] == 'r';
    assert With(item, "id", "HLR-002").attrs == map["id" := "HLR-002"];
    assert With(trace, "ref", "HLR-002").attrs == map["target" := "HLR", "ref" := "HLR-002"];
  }

  lemma RenamedNode(d: seq<Node>, at: nat, old_id: string, new_id: string, i: nat)
    requires Renaming(d, at, old_id, new_id) && i < |d|
    ensures AttrSet(d, at, "id", new_id)[i] ==
            if i == at then With(d[i], "id", new_id) else Redirected(d[i], TargetOf(d[at].tag).value, old_id, new_id)
  {
  }

  // Refers after the renaming, in terms of the document before it.
  lemma RefersRenamed(d: seq<Node>, at: nat, old_id: string, new_id: string, p: nat, q: nat)
    requires Renaming(d, at, old_id, new_id) && p < |d| && q < |d|
    ensures var tag, target := d[at].tag, TargetOf(d[at].tag).value;
            Refers(AttrSet(d, at, "id", new_id), p, q) <==>
            if IsTrace(d[p], target, old_id) || IsTrace(d[p], target, new_id) then q == at || IsItem(d[q], tag, new_id)
            else q != at && Refers(d, p, q)
  {
  }

  // And before it.
  lemma RefersBefore(d: seq<Node>, at: nat, old_id: string, new_id: string, p: nat, q: nat)
    requires Renaming(d, at, old_id, new_id) && p < |d| && q < |d|
    ensures var tag, target := d[at].tag, TargetOf(d[at].tag).value;
            && (IsTrace(d[p], target, old_id) ==> (Refers(d, p, q) <==> IsItem(d[q], tag, old_id)))
            && (IsTrace(d[p], target, new_id) ==> (Refers(d, p, q) <==> IsItem(d[q], tag, new_id)))
            && (!IsTrace(d[p], target, old_id) ==> !Refers(d, p, at))
  {
  }

  // Every trace resolves to the same elements as before exactly when the renaming is safe. With unique ids
  // and an unused new id that is: unless some trace, then a dangling one, already names the new id.
  lemma RenameKeepsGraphIff(d: seq<Node>, at: nat, old_id: string, new_id: string)
    requires Renaming(d, at, old_id, new_id)
    ensures SameGraph(d, AttrSet(d, at, "id", new_id)) <==> Safe(d, at, old_id, new_id)
  {
    hide AttrSet, Refers, IsTrace, IsItem;
    var tag, target, e := d[at].tag, TargetOf(d[at].tag).value, AttrSet(d, at, "id", new_id);
    forall p, q | 0 <= p < |d| && 0 <= q < |d|
      ensures Safe(d, at, old_id, new_id) ==> (Refers(d, p, q) <==> Refers(e, p, q))
    {
      RefersRenamed(d, at, old_id, new_id, p, q);
      RefersBefore(d, at, old_id, new_id, p, q);
    }
    if SameGraph(d, e) {
      forall p | 0 <= p < |d|
        ensures !IsTrace(d[p], target, new_id)
        ensures IsTrace(d[p], target, old_id) ==>
                  forall q :: 0 <= q < |d| && q != at ==> !IsItem(d[q], tag, old_id) && !IsItem(d[q], tag, new_id)
      {
        SameGraphSafe(d, at, old_id, new_id, p);
      }
    }
  }

  lemma SameGraphSafe(d: seq<Node>, at: nat, old_id: string, new_id: string, p: nat)
    requires Renaming(d, at, old_id, new_id) && p < |d|
    requires SameGraph(d, AttrSet(d, at, "id", new_id))
    ensures var tag, target := d[at].tag, TargetOf(d[at].tag).value;
            && !IsTrace(d[p], target, new_id)
            && (IsTrace(d[p], target, old_id) ==>
                  forall q :: 0 <= q < |d| && q != at ==> !IsItem(d[q], tag, old_id) && !IsItem(d[q], tag, new_id))
  {
    hide AttrSet, Refers;
    var tag, target, e := d[at].tag, TargetOf(d[at].tag).value, AttrSet(d, at, "id", new_id);
    RefersRenamed(d, at, old_id, new_id, p, at);
    RefersBefore(d, at, old_id, new_id, p, at);
    assert Refers(d, p, at) <==> Refers(e, p, at);
    if IsTrace(d[p], target, old_id) {
      forall q | 0 <= q < |d| && q != at
        ensures !IsItem(d[q], tag, old_id) && !IsItem(d[q], tag, new_id)
      {
        RefersRenamed(d, at, old_id, new_id, p, q);
        RefersBefore(d, at, old_id, new_id, p, q);
        assert Refers(d, p, q) <==> Refers(e, p, q);
      }
    }
  }

  // Every trace that resolved still resolves to the same element, whatever dangling traces there are,
  // exactly when no trace names the old id or no other element of the kind has it.
  predicate StillResolves(d: seq<Node>, e: seq<Node>) {
    |d| == |e| && forall p, q :: 0 <= p < |d| && 0 <= q < |d| && Refers(d, p, q) ==> Refers(e, p, q)
  }

  lemma ResolvedStaysIff(d: seq<Node>, at: nat, old_id: string, new_id: string)
    requires Renaming(d, at, old_id, new_id)
    ensures StillResolves(d, AttrSet(d, at, "id", new_id)) <==>
            forall p, q :: 0 <= p < |d| && 0 <= q < |d| && IsTrace(d[p], TargetOf(d[at].tag).value, old_id) ==>
                             q == at || !IsItem(d[q], d[at].tag, old_id)
  {
    hide AttrSet, Refers;
    var tag, target, e := d[at].tag, TargetOf(d[at].tag).value, AttrSet(d, at, "id", new_id);
    forall p, q | 0 <= p < |d| && 0 <= q < |d|
      ensures (Refers(d, p, q) ==> Refers(e, p, q)) <==>
              !(q != at && IsTrace(d[p], target, old_id) && IsItem(d[q], tag, old_id))
    {
      RefersRenamed(d, at, old_id, new_id, p, q);
      RefersBefore(d, at, old_id, new_id, p, q);
    }
  }

  // Renaming back restores the document exactly when no trace named the new id before.
  lemma RenameBackIff(d: seq<Node>, at: nat, old_id: string, new_id: string)
    requires Renaming(d, at, old_id, new_id) && new_id != ""
    ensures AttrSet(AttrSet(d, at, "id", new_id), at, "id", old_id) == d
      <==> forall p :: 0 <= p < |d| ==> !IsTrace(d[p], TargetOf(d[at].tag).value, new_id)
  {
    var target, e := TargetOf(d[at].tag).value, AttrSet(d, at, "id", new_id);
    RenamedNode(d, at, old_id, new_id, at);
    var back := AttrSet(e, at, "id", old_id);
    forall i | 0 <= i < |d|
      ensures back[i] == d[i] <==> !IsTrace(d[i], target, new_id)
    {
      RenamedNode(d, at, old_id, new_id, i);
      RenamedNode(e, at, new_id, old_id, i);
      BackAndForth(d[i], target, old_id, new_id);
      if i == at {
        assert With(With(d[i], "id", new_id), "id", old_id) == d[i];
      }
    }
  }

  lemma BackAndForth(e: Node, target: string, old_id: string, new_id: string)
    requires old_id != new_id
    ensures Redirected(Redirected(e, target, old_id, new_id), target, new_id, old_id) == e
      <==> !IsTrace(e, target, new_id)
  {
  }

  // Ids of other elements carry no references: setting one leaves the graph alone.
  lemma OtherIdsKeepGraph(d: seq<Node>, at: nat, v: string)
    requires at < |d| && TargetOf(d[at].tag).None?
    ensures SameGraph(d, AttrSet(d, at, "id", v))
  {
  }
}
