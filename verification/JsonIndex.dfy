/** The skip links, the spans and the accessors of the JSON token array (src/dap.c). */
module JsonIndex {
  import opened Options
  import opened JsonTokens

  // Objects have key and value entries, leaves are scalars.
  predicate Proper(t: Tree) {
    if t.Leaf? then t.kind != DjObject && t.kind != DjArray
    else ((t.kind == DjObject && Len(t.kids) % 2 == 0) || t.kind == DjArray) && ProperF(t.kids)
  }

  predicate ProperF(f: Forest) {
    f.Nil? || (Proper(f.head) && ProperF(f.tail))
  }

  // The tokens of a tree, or of a list of trees, stand at index p.
  predicate Holds(toks: seq<Tok>, t: Tree, p: nat) {
    p + Count(t) <= |toks| && toks[p..p + Count(t)] == Flatten(t, p)
  }

  predicate HoldsF(toks: seq<Tok>, f: Forest, p: nat) {
    p + CountF(f) <= |toks| && toks[p..p + CountF(f)] == FlattenF(f, p)
  }

  lemma HoldsParts(toks: seq<Tok>, t: Tree, p: nat)
    requires Holds(toks, t, p)
    ensures toks[p] == Tok(t.kind, t.start, t.end, Size(t), p + Count(t))
    ensures t.Node? ==> HoldsF(toks, t.kids, p + 1)
  {
    var s := toks[p..p + Count(t)];
    assert s[0] == toks[p];
    if t.Node? {
      assert s[1..] == toks[p + 1..p + Count(t)];
    }
  }

  lemma HoldsFParts(toks: seq<Tok>, f: Forest, p: nat)
    requires HoldsF(toks, f, p) && f.Cons?
    ensures Holds(toks, f.head, p) && HoldsF(toks, f.tail, p + Count(f.head))
  {
    hide Flatten;
    var s, c := toks[p..p + CountF(f)], Count(f.head);
    assert s[..c] == toks[p..p + c];
    assert s[c..] == toks[p + c..p + CountF(f)];
  }

  // Follow the next link k times.
  function Hop(toks: seq<Tok>, i: nat, k: nat): nat
    decreases k
  {
    if k == 0 || i >= |toks| then i else Hop(toks, toks[i].next, k - 1)
  }

  // How many entries lie directly inside a token.
  function Entries(tok: Tok): nat {
    if tok.kind == DjObject then 2 * tok.size else tok.size
  }

  lemma {:induction false} HopOver(toks: seq<Tok>, f: Forest, p: nat)
    requires HoldsF(toks, f, p)
    ensures Hop(toks, p, Len(f)) == p + CountF(f)
  {
    if f.Cons? {
      HoldsFParts(toks, f, p);
      HoldsParts(toks, f.head, p);
      HopOver(toks, f.tail, p + Count(f.head));
    }
  }

  predicate Linked(toks: seq<Tok>, i: nat)
    requires i < |toks|
  {
    i < toks[i].next <= |toks| && Hop(toks, i + 1, Entries(toks[i])) == toks[i].next
  }

  // From every token, hopping over its entries lands on its next link.
  lemma {:induction false} TreeLinked(toks: seq<Tok>, t: Tree, p: nat, i: nat)
    requires Holds(toks, t, p) && Proper(t) && p <= i < p + Count(t)
    ensures Linked(toks, i)
    decreases t
  {
    HoldsParts(toks, t, p);
    if t.Leaf? {
    } else if i == p {
      HopOver(toks, t.kids, p + 1);
    } else {
      ForestLinked(toks, t.kids, p + 1, i);
    }
  }

  lemma {:induction false} ForestLinked(toks: seq<Tok>, f: Forest, p: nat, i: nat)
    requires HoldsF(toks, f, p) && ProperF(f) && p <= i < p + CountF(f)
    ensures Linked(toks, i)
    decreases f
  {
    HoldsFParts(toks, f, p);
    if i < p + Count(f.head) {
      TreeLinked(toks, f.head, p, i);
    } else {
      ForestLinked(toks, f.tail, p + Count(f.head), i);
    }
  }

  // ----- Spans -----

  // Every span lies in [lo, hi), and so do the spans inside it.
  predicate Spans(t: Tree, lo: nat, hi: nat) {
    lo <= t.start <= t.end <= hi && (t.Node? ==> SpansF(t.kids, t.start, t.end))
  }

  predicate SpansF(f: Forest, lo: nat, hi: nat) {
    f.Nil? || (Spans(f.head, lo, hi) && SpansF(f.tail, f.head.end, hi))
  }

  lemma {:induction false} SpansWiden(f: Forest, lo: nat, lo': nat, hi: nat, hi': nat)
    requires SpansF(f, lo, hi) && lo' <= lo && hi <= hi'
    ensures SpansF(f, lo', hi')
    decreases f
  {
    if f.Cons? {
      SpansWiden(f.tail, f.head.end, f.head.end, hi, hi');
    }
  }

  // What the tokenizer returns is proper and nested.
  lemma {:induction false} ValueNests(js: string, pos: nat)
    requires pos <= |js|
    ensures var r := ValueAt(js, pos);
      r.Some? ==> Proper(r.value.it) && Spans(r.value.it, pos, r.value.end)
    decreases |js| - pos, 1
  {
    var p := SkipWs(js, pos);
    if p < |js| && (js[p] == '{' || js[p] == '[') {
      NestedNests(js, p, if js[p] == '{' then DjObject else DjArray);
    }
  }

  lemma {:induction false} NestedNests(js: string, p: nat, kind: Kind)
    requires p < |js| && (kind == DjObject || kind == DjArray)
    ensures var r := NestedAt(js, p, kind);
      r.Some? ==> Proper(r.value.it) && Spans(r.value.it, p, r.value.end)
    decreases |js| - p, 0
  {
    var q := SkipWs(js, p + 1);
    if kind == DjObject {
      MembersNest(js, q);
    } else {
      ItemsNest(js, q);
    }
    var r := ListAt(js, kind, q);
    if r.Some? {
      SpansWiden(r.value.it, q, p, r.value.end, r.value.end);
    }
  }

  lemma {:induction false} ItemsNest(js: string, pos: nat)
    requires pos <= |js|
    ensures var r := ItemsAt(js, pos);
      r.Some? ==> ProperF(r.value.it) && SpansF(r.value.it, pos, r.value.end)
    decreases |js| - pos, 2
  {
    ValueNests(js, pos);
    var v, r := ValueAt(js, pos), ItemsAt(js, pos);
    if r.Some? {
      var p := SkipWs(js, v.value.end);
      if js[p] == ',' {
        ItemsNest(js, p + 1);
        var rest := ItemsAt(js, p + 1).value.it;
        SpansWiden(rest, p + 1, v.value.it.end, r.value.end, r.value.end);
        OneNests(v.value.it, rest, pos, v.value.end, r.value.end);
      } else {
        OneNests(v.value.it, Nil, pos, v.value.end, r.value.end);
      }
      hide ValueAt, SkipWs, Proper, ProperF, Spans, SpansF;
    }
  }

  lemma OneNests(v: Tree, rest: Forest, lo: nat, mid: nat, hi: nat)
    requires Proper(v) && Spans(v, lo, mid) && mid <= hi && ProperF(rest) && SpansF(rest, v.end, hi)
    ensures ProperF(Cons(v, rest)) && SpansF(Cons(v, rest), lo, hi)
  {
  }

  lemma {:induction false} MembersNest(js: string, pos: nat)
    requires pos <= |js|
    ensures var r := MembersAt(js, pos);
      r.Some? ==> ProperF(r.value.it) && Len(r.value.it) % 2 == 0 && SpansF(r.value.it, pos, r.value.end)
    decreases |js| - pos, 2
  {
    var k := KeyAt(js, pos);
    if k.Some? {
      BehindNests(js, k.value, pos);
    }
  }

  lemma PairNests(k: Tree, v: Tree, rest: Forest, lo: nat, mid: nat, hi: nat)
    requires Proper(k) && Spans(k, lo, mid) && Proper(v) && Spans(v, mid, hi)
    requires ProperF(rest) && Len(rest) % 2 == 0 && SpansF(rest, v.end, hi)
    ensures var f := Cons(k, Cons(v, rest)); ProperF(f) && Len(f) % 2 == 0 && SpansF(f, lo, hi)
  {
  }

  lemma {:induction false} BehindNests(js: string, k: Parsed<Tree>, lo: nat)
    requires k.end <= |js| && Proper(k.it) && Spans(k.it, lo, k.end)
    ensures var r := MembersBehind(js, k);
      r.Some? ==> ProperF(r.value.it) && Len(r.value.it) % 2 == 0 && SpansF(r.value.it, lo, r.value.end)
    decreases |js| - k.end, 3
  {
    ValueNests(js, k.end);
    var v, r := ValueAt(js, k.end), MembersBehind(js, k);
    if r.Some? {
      BehindParts(js, k);
      hide ValueAt, SkipWs, Proper, ProperF, Spans, SpansF, Len, MembersBehind, MembersAt;
      var p := SkipWs(js, v.value.end);
      SpansUp(v.value.it, k.end, v.value.end, r.value.end);
      if js[p] == ',' {
        MembersNest(js, p + 1);
        var rest := MembersAt(js, p + 1).value.it;
        SpansWiden(rest, p + 1, v.value.it.end, r.value.end, r.value.end);
        PairNests(k.it, v.value.it, rest, lo, k.end, r.value.end);
      } else {
        NoneNest(r.value.end);
        PairNests(k.it, v.value.it, Nil, lo, k.end, r.value.end);
      }
    }
  }

  lemma SpansUp(t: Tree, lo: nat, hi: nat, hi': nat)
    requires Spans(t, lo, hi) && hi <= hi'
    ensures Spans(t, lo, hi')
  {
  }

  lemma NoneNest(hi: nat)
    ensures ProperF(Nil) && Len(Nil) == 0 && forall lo: nat :: SpansF(Nil, lo, hi)
  {
  }

  // What was read behind a key.
  lemma BehindParts(js: string, k: Parsed<Tree>)
    requires k.end <= |js| && MembersBehind(js, k).Some?
    ensures var v, r := ValueAt(js, k.end), MembersBehind(js, k).value;
      v.Some? &&
      var p := SkipWs(js, v.value.end);
      p < |js| && v.value.end <= r.end &&
      if js[p] == ',' then
        MembersAt(js, p + 1).Some? && p + 1 <= r.end &&
        r == Parsed(Cons(k.it, Cons(v.value.it, MembersAt(js, p + 1).value.it)), MembersAt(js, p + 1).value.end)
      else r.it == Cons(k.it, Cons(v.value.it, Nil))
  {
    hide ValueAt, SkipWs, MembersAt;
  }

  // Every token below the root lies inside the root's span.
  lemma {:induction false} TokensInside(toks: seq<Tok>, t: Tree, p: nat, lo: nat, hi: nat, i: nat)
    requires Holds(toks, t, p) && Spans(t, lo, hi) && p <= i < p + Count(t)
    ensures lo <= toks[i].start <= toks[i].end <= hi
    decreases t
  {
    HoldsParts(toks, t, p);
    if i > p {
      ForestInside(toks, t.kids, p + 1, t.start, t.end, i);
    }
  }

  lemma {:induction false} ForestInside(toks: seq<Tok>, f: Forest, p: nat, lo: nat, hi: nat, i: nat)
    requires HoldsF(toks, f, p) && SpansF(f, lo, hi) && p <= i < p + CountF(f)
    ensures lo <= toks[i].start <= toks[i].end <= hi
    decreases f
  {
    HoldsFParts(toks, f, p);
    if i < p + Count(f.head) {
      TokensInside(toks, f.head, p, lo, hi, i);
    } else {
      ForestInside(toks, f.tail, p + Count(f.head), f.head.end, hi, i);
    }
  }

  // Token j behind token i lies inside its span if it belongs to its value, and behind its span if not.
  predicate Nests(toks: seq<Tok>, i: nat, j: nat)
    requires i < j < |toks|
  {
    if j < toks[i].next then toks[i].start <= toks[j].start <= toks[j].end <= toks[i].end
    else toks[i].end <= toks[j].start
  }

  lemma {:induction false} NextInside(toks: seq<Tok>, t: Tree, p: nat, i: nat)
    requires Holds(toks, t, p) && p <= i < p + Count(t)
    ensures toks[i].next <= p + Count(t)
    decreases t
  {
    HoldsParts(toks, t, p);
    if i > p {
      ForestNextInside(toks, t.kids, p + 1, i);
    }
  }

  lemma {:induction false} ForestNextInside(toks: seq<Tok>, f: Forest, p: nat, i: nat)
    requires HoldsF(toks, f, p) && p <= i < p + CountF(f)
    ensures toks[i].next <= p + CountF(f)
    decreases f
  {
    HoldsFParts(toks, f, p);
    if i < p + Count(f.head) {
      NextInside(toks, f.head, p, i);
    } else {
      ForestNextInside(toks, f.tail, p + Count(f.head), i);
    }
  }

  lemma {:induction false} TreeNests(toks: seq<Tok>, t: Tree, p: nat, lo: nat, hi: nat, i: nat, j: nat)
    requires Holds(toks, t, p) && Spans(t, lo, hi) && p <= i < j < p + Count(t)
    ensures Nests(toks, i, j)
    decreases t
  {
    HoldsParts(toks, t, p);
    if i == p {
      ForestInside(toks, t.kids, p + 1, t.start, t.end, j);
    } else {
      ForestNests(toks, t.kids, p + 1, t.start, t.end, i, j);
    }
  }

  lemma {:induction false} ForestNests(toks: seq<Tok>, f: Forest, p: nat, lo: nat, hi: nat, i: nat, j: nat)
    requires HoldsF(toks, f, p) && SpansF(f, lo, hi) && p <= i < j < p + CountF(f)
    ensures Nests(toks, i, j)
    decreases f
  {
    HoldsFParts(toks, f, p);
    var next := p + Count(f.head);
    if j < next {
      TreeNests(toks, f.head, p, lo, hi, i, j);
    } else if i >= next {
      ForestNests(toks, f.tail, next, f.head.end, hi, i, j);
    } else {
      NextInside(toks, f.head, p, i);
      TokensInside(toks, f.head, p, lo, f.head.end, i);
      ForestInside(toks, f.tail, next, f.head.end, hi, j);
    }
  }

  // A successful parse leaves an index: the root spans all tokens, every token's entries are found by
  // hopping, and of any two tokens the spans are nested if one belongs to the other's value, else apart.
  lemma ParsedIndex(js: string, toks: seq<Tok>)
    requires var v := ValueAt(js, 0); v.Some? && toks == Flatten(v.value.it, 0)
    ensures |toks| > 0 && toks[0].next == |toks|
    ensures forall i :: 0 <= i < |toks| ==> Linked(toks, i)
    ensures forall i :: 0 <= i < |toks| ==> toks[0].start <= toks[i].start <= toks[i].end <= toks[0].end
    ensures forall i, j :: 0 <= i < j < |toks| ==> Nests(toks, i, j)
  {
    var v := ValueAt(js, 0).value;
    assert toks[0..0 + Count(v.it)] == toks;
    HoldsParts(toks, v.it, 0);
    ValueNests(js, 0);
    forall i | 0 <= i < |toks|
      ensures Linked(toks, i) && toks[0].start <= toks[i].start <= toks[i].end <= toks[0].end
    {
      TreeLinked(toks, v.it, 0, i);
      TokensInside(toks, v.it, 0, v.it.start, v.it.end, i);
    }
    forall i, j | 0 <= i < j < |toks|
      ensures Nests(toks, i, j)
    {
      TreeNests(toks, v.it, 0, v.it.start, v.it.end, i, j);
    }
  }

  // ----- Accessors -----

  // The raw text of a string token is s.
  predicate TextIs(js: string, t: Tree, s: string) {
    t.kind == DjString && t.start <= t.end <= |js| && js[t.start..t.end] == s
  }

  // strncmp over the span, then the terminator of s: for text without NUL, equality.
  method StrEq(js: string, tok: Tok, s: string) returns (eq: bool)
    requires tok.start <= tok.end <= |js| && '\0' !in js && '\0' !in s
    ensures eq <==> tok.kind == DjString && js[tok.start..tok.end] == s
  {
    if tok.kind != DjString {
      return false;
    }
    var n := tok.end - tok.start;
    ghost var text := js[tok.start..tok.end];
    var i := 0;
    while i < n
      invariant 0 <= i <= n && i <= |s| && forall k :: 0 <= k < i ==> text[k] == s[k]
    {
      var c := if i < |s| then s[i] else '\0';
      if js[tok.start + i] != c {
        assert i < |s| ==> text[i] != s[i];
        return false;
      }
      assert c in js;
      i := i + 1;
    }
    eq := n == |s|;
    if eq {
      assert text == s;
    }
  }

  // The value index of the first entry pair whose key is `key`, in a list standing at index at.
  function Lookup(js: string, f: Forest, at: nat, key: string): int
    requires Len(f) % 2 == 0
  {
    if f.Nil? then -1
    else if TextIs(js, f.head, key) then at + Count(f.head)
    else
      assert Len(f.tail) > 0;
      Lookup(js, f.tail.tail, at + Count(f.head) + Count(f.tail.head), key)
  }

  // The value found is again a proper tree with nested spans, so that a lookup can go on inside it.
  lemma {:induction false} LookupFinds(js: string, toks: seq<Tok>, f: Forest, at: nat, key: string, lo: nat)
      returns (v: Tree)
    requires Len(f) % 2 == 0 && HoldsF(toks, f, at) && Lookup(js, f, at, key) >= 0
    requires ProperF(f) && SpansF(f, lo, |js|)
    ensures Holds(toks, v, Lookup(js, f, at, key)) && Proper(v) && Spans(v, 0, |js|)
    decreases f
  {
    hide Holds, HoldsF, TextIs, Spans, Proper;
    HoldsFParts(toks, f, at);
    HoldsFParts(toks, f.tail, at + Count(f.head));
    if TextIs(js, f.head, key) {
      v := f.tail.head;
      SpansFrom(v, f.head.end, |js|);
    } else {
      v := LookupFinds(js, toks, f.tail.tail, at + Count(f.head) + Count(f.tail.head), key, f.tail.head.end);
    }
  }

  lemma SpansFrom(t: Tree, lo: nat, hi: nat)
    requires Spans(t, lo, hi)
    ensures Spans(t, 0, hi)
  {
  }

  lemma PairSpans(f: Forest, lo: nat, hi: nat)
    requires SpansF(f, lo, hi) && Len(f) % 2 == 0 && f.Cons?
    ensures f.tail.Cons? && Len(f.tail.tail) == Len(f) - 2
    ensures f.head.start <= f.head.end <= hi && SpansF(f.tail.tail, f.tail.head.end, hi)
  {
  }

  // The entry pair at the head of a list, as the tokens show it.
  lemma PairAt(toks: seq<Tok>, f: Forest, at: nat)
    requires HoldsF(toks, f, at) && f.Cons? && f.tail.Cons?
    ensures var v := at + Count(f.head);
      at < v < |toks| && toks[at].next == v &&
      toks[at].kind == f.head.kind && toks[at].start == f.head.start && toks[at].end == f.head.end &&
      toks[v].next == v + Count(f.tail.head) && HoldsF(toks, f.tail.tail, toks[v].next)
  {
    hide HoldsF, Holds, Size, Count;
    var v := at + Count(f.head);
    HoldsFParts(toks, f, at);
    HoldsFParts(toks, f.tail, v);
    HoldsInside(toks, f.head, at);
    HoldsInside(toks, f.tail.head, v);
    HoldsParts(toks, f.head, at);
    HoldsParts(toks, f.tail.head, v);
  }

  lemma HoldsInside(toks: seq<Tok>, t: Tree, p: nat)
    requires Holds(toks, t, p)
    ensures p < p + Count(t) <= |toks|
  {
    hide Flatten;
  }

  // One entry pair of the walk: where its value and the next pair stand, and what is left to look up.
  lemma WalkStep(js: string, toks: seq<Tok>, f: Forest, lo: nat, cur: nat, key: string)
    requires HoldsF(toks, f, cur) && SpansF(f, lo, |js|) && Len(f) % 2 == 0 && f.Cons?
    ensures f.tail.Cons? && Len(f.tail.tail) == Len(f) - 2
    ensures cur < |toks| && toks[cur].start <= toks[cur].end <= |js|
    ensures var v, next := toks[cur].next, f.tail.tail;
      v < |toks| && HoldsF(toks, next, toks[v].next) && SpansF(next, f.tail.head.end, |js|) &&
      Lookup(js, f, cur, key) ==
        if toks[cur].kind == DjString && js[toks[cur].start..toks[cur].end] == key then v
        else Lookup(js, next, toks[v].next, key)
  {
    hide HoldsF, SpansF, Count;
    PairSpans(f, lo, |js|);
    PairAt(toks, f, cur);
  }

  // dj_member on the object o that stands at index obj: the first entry pair with the key, or -1.
  method Member(js: string, t: array<Tok>, obj: nat, key: string, ghost o: Tree) returns (v: int)
    requires Holds(t[..], o, obj) && Proper(o) && Spans(o, 0, |js|) && '\0' !in js && '\0' !in key
    ensures v == if o.kind == DjObject then Lookup(js, o.kids, obj + 1, key) else -1
  {
    HoldsParts(t[..], o, obj);
    if t[obj].kind != DjObject {
      return -1;
    }
    ghost var f, lo := o.kids, o.start;
    SpansWiden(f, lo, lo, o.end, |js|);
    var cur: nat := obj + 1;
    hide HoldsF, Holds, SpansF, Count, Lookup;
    for i := 0 to t[obj].size
      invariant HoldsF(t[..], f, cur) && SpansF(f, lo, |js|) && Len(f) == 2 * (t[obj].size - i)
      invariant Lookup(js, o.kids, obj + 1, key) == Lookup(js, f, cur, key)
    {
      WalkStep(js, t[..], f, lo, cur, key);
      var k := cur;
      v := t[k].next;
      var eq := StrEq(js, t[k], key);
      if eq {
        return;
      }
      lo := f.tail.head.end;
      f := f.tail.tail;
      cur := t[v].next;
    }
    NothingLeft(js, f, cur, key);
    return -1;
  }

  lemma NothingLeft(js: string, f: Forest, at: nat, key: string)
    requires Len(f) == 0
    ensures Lookup(js, f, at, key) == -1
  {
  }
}
