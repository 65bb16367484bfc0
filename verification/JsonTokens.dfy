/** The JSON tokenizer of the DAP front end (src/dap.c): recursive descent into a flat pre-order token array. */
module JsonTokens {
  import opened Options

  datatype Kind = DjObject | DjArray | DjString | DjNumber | DjTrue | DjFalse | DjNull

  datatype Tok = Tok(kind: Kind, start: nat, end: nat, size: nat, next: nat)

  // ----- Value trees and their pre-order -----

  // An object's forest holds its keys and values in turn.
  datatype Tree = Leaf(kind: Kind, start: nat, end: nat) | Node(kind: Kind, start: nat, end: nat, kids: Forest)
  datatype Forest = Nil | Cons(head: Tree, tail: Forest)

  function Count(t: Tree): (n: nat)
    ensures n >= 1
  {
    if t.Leaf? then 1 else 1 + CountF(t.kids)
  }

  function CountF(f: Forest): nat {
    if f.Nil? then 0 else Count(f.head) + CountF(f.tail)
  }

  function Len(f: Forest): nat {
    if f.Nil? then 0 else 1 + Len(f.tail)
  }

  function Size(t: Tree): nat {
    if t.Leaf? then 0 else if t.kind == DjObject then Len(t.kids) / 2 else Len(t.kids)
  }

  // The tokens of a tree whose root gets index base.
  function Flatten(t: Tree, base: nat): (s: seq<Tok>)
    ensures |s| == Count(t)
  {
    [Tok(t.kind, t.start, t.end, Size(t), base + Count(t))] + if t.Leaf? then [] else FlattenF(t.kids, base + 1)
  }

  function FlattenF(f: Forest, base: nat): (s: seq<Tok>)
    ensures |s| == CountF(f)
  {
    if f.Nil? then [] else Flatten(f.head, base) + FlattenF(f.tail, base + Count(f.head))
  }

  function Snoc(f: Forest, t: Tree): Forest {
    if f.Nil? then Cons(t, Nil) else Cons(f.head, Snoc(f.tail, t))
  }

  function Append(f: Forest, g: Forest): Forest {
    if f.Nil? then g else Cons(f.head, Append(f.tail, g))
  }

  lemma {:induction false} SnocAppend(f: Forest, t: Tree, g: Forest)
    ensures Append(Snoc(f, t), g) == Append(f, Cons(t, g))
  {
    if f.Cons? {
      SnocAppend(f.tail, t, g);
    }
  }

  lemma {:induction false} SnocCounts(f: Forest, t: Tree)
    ensures Len(Snoc(f, t)) == Len(f) + 1 && CountF(Snoc(f, t)) == CountF(f) + Count(t)
  {
    if f.Cons? {
      SnocCounts(f.tail, t);
    }
  }

  lemma {:induction false} SnocFlattens(f: Forest, t: Tree, base: nat)
    ensures FlattenF(Snoc(f, t), base) == FlattenF(f, base) + Flatten(t, base + CountF(f))
  {
    hide Flatten, Count;
    if f.Cons? {
      SnocFlattens(f.tail, t, base + Count(f.head));
      var x, y, z := Flatten(f.head, base), FlattenF(f.tail, base + Count(f.head)), Flatten(t, base + CountF(f));
      assert x + (y + z) == x + y + z;
    } else {
      assert FlattenF(Cons(t, Nil), base) == Flatten(t, base) + [];
    }
  }

  lemma {:induction false} AppendNil(f: Forest)
    ensures Append(f, Nil) == f
  {
    if f.Cons? {
      AppendNil(f.tail);
    }
  }

  lemma {:induction false} AppendCount(f: Forest, g: Forest)
    ensures CountF(Append(f, g)) == CountF(f) + CountF(g)
  {
    if f.Cons? {
      AppendCount(f.tail, g);
    }
  }

  // ----- What the scanner accepts, as functions of the text -----

  predicate IsWs(c: char) { c == ' ' || c == '\t' || c == '\n' || c == '\r' }

  predicate IsNum(c: char) {
    '0' <= c <= '9' || c == '-' || c == '+' || c == '.' || c == 'e' || c == 'E'
  }

  function SkipWs(js: string, p: nat): (q: nat)
    requires p <= |js|
    ensures p <= q <= |js|
    decreases |js| - p
  {
    if p < |js| && IsWs(js[p]) then SkipWs(js, p + 1) else p
  }

  // The closing quote, looking from p on; a backslash hides the character behind it.
  function StringEnd(js: string, p: nat): (q: Option<nat>)
    ensures q.Some? ==> p <= q.value < |js|
    decreases |js| - p
  {
    if p >= |js| then None
    else if js[p] == '\\' then StringEnd(js, p + 2)
    else if js[p] == '"' then Some(p)
    else StringEnd(js, p + 1)
  }

  function NumEnd(js: string, p: nat): (q: nat)
    requires p <= |js|
    ensures p <= q <= |js|
    decreases |js| - p
  {
    if p < |js| && IsNum(js[p]) then NumEnd(js, p + 1) else p
  }

  predicate At(js: string, p: nat, s: string) {
    p + |s| <= |js| && js[p..p + |s|] == s
  }

  datatype Parsed<T> = Parsed(it: T, end: nat)

  function StringAt(js: string, p: nat): (r: Option<Parsed<Tree>>)
    requires p < |js|
    ensures r.Some? ==> p < r.value.end <= |js|
  {
    var q := StringEnd(js, p + 1);
    if q.None? then None else Some(Parsed(Leaf(DjString, p + 1, q.value), q.value + 1))
  }

  function WordAt(js: string, p: nat, word: string, kind: Kind): (r: Option<Parsed<Tree>>)
    requires |word| > 0
    ensures r.Some? ==> p < r.value.end <= |js|
  {
    if At(js, p, word) then Some(Parsed(Leaf(kind, p, p + |word|), p + |word|)) else None
  }

  function PrimAt(js: string, p: nat): (r: Option<Parsed<Tree>>)
    requires p < |js|
    ensures r.Some? ==> p < r.value.end <= |js|
  {
    if js[p] == 't' then WordAt(js, p, "true", DjTrue)
    else if js[p] == 'f' then WordAt(js, p, "false", DjFalse)
    else if js[p] == 'n' then WordAt(js, p, "null", DjNull)
    else
      var q := NumEnd(js, p);
      if q == p then None else Some(Parsed(Leaf(DjNumber, p, q), q))
  }

  function ValueAt(js: string, pos: nat): (r: Option<Parsed<Tree>>)
    requires pos <= |js|
    ensures r.Some? ==> pos < r.value.end <= |js|
    decreases |js| - pos, 1
  {
    var p := SkipWs(js, pos);
    if p >= |js| then None
    else if js[p] == '{' then NestedAt(js, p, DjObject)
    else if js[p] == '[' then NestedAt(js, p, DjArray)
    else if js[p] == '"' then StringAt(js, p)
    else PrimAt(js, p)
  }

  function Closer(kind: Kind): char { if kind == DjObject then '}' else ']' }

  // An array or object opened at p.
  function NestedAt(js: string, p: nat, kind: Kind): (r: Option<Parsed<Tree>>)
    requires p < |js|
    ensures r.Some? ==> p < r.value.end <= |js|
    decreases |js| - p, 0
  {
    var q := SkipWs(js, p + 1);
    if q < |js| && js[q] == Closer(kind) then Some(Parsed(Node(kind, p, q + 1, Nil), q + 1))
    else
      var r := ListAt(js, kind, q);
      if r.None? then None else Some(Parsed(Node(kind, p, r.value.end, r.value.it), r.value.end))
  }

  function ListAt(js: string, kind: Kind, pos: nat): (r: Option<Parsed<Forest>>)
    requires pos <= |js|
    ensures r.Some? ==> pos < r.value.end <= |js|
    decreases |js| - pos, 3
  {
    if kind == DjObject then MembersAt(js, pos) else ItemsAt(js, pos)
  }

  // What follows an element: the rest of the list, its end, or nothing legal.
  function ItemsAt(js: string, pos: nat): (r: Option<Parsed<Forest>>)
    requires pos <= |js|
    ensures r.Some? ==> pos < r.value.end <= |js|
    decreases |js| - pos, 2
  {
    var v := ValueAt(js, pos);
    if v.None? then None
    else
      var p := SkipWs(js, v.value.end);
      if p >= |js| then None
      else if js[p] == ',' then
        var r := ItemsAt(js, p + 1);
        if r.None? then None else Some(Parsed(Cons(v.value.it, r.value.it), r.value.end))
      else if js[p] == ']' then Some(Parsed(Cons(v.value.it, Nil), p + 1))
      else None
  }

  // A key and the colon behind it.
  function KeyAt(js: string, pos: nat): (r: Option<Parsed<Tree>>)
    requires pos <= |js|
    ensures r.Some? ==> pos < r.value.end <= |js|
  {
    var p := SkipWs(js, pos);
    if p >= |js| || js[p] != '"' then None
    else
      var k := StringAt(js, p);
      if k.None? then None
      else
        var q := SkipWs(js, k.value.end);
        if q >= |js| || js[q] != ':' then None else Some(Parsed(k.value.it, q + 1))
  }

  function MembersAt(js: string, pos: nat): (r: Option<Parsed<Forest>>)
    requires pos <= |js|
    ensures r.Some? ==> pos < r.value.end <= |js|
    decreases |js| - pos, 2
  {
    var k := KeyAt(js, pos);
    if k.None? then None else MembersBehind(js, k.value)
  }

  // The value behind a key, and what follows it.
  function MembersBehind(js: string, k: Parsed<Tree>): (r: Option<Parsed<Forest>>)
    requires k.end <= |js|
    ensures r.Some? ==> k.end < r.value.end <= |js|
    decreases |js| - k.end, 3
  {
    var v := ValueAt(js, k.end);
    if v.None? then None
    else
      var p := SkipWs(js, v.value.end);
      if p >= |js| then None
      else if js[p] == ',' then
        var r := MembersAt(js, p + 1);
        if r.None? then None else Some(Parsed(Cons(k.it, Cons(v.value.it, r.value.it)), r.value.end))
      else if js[p] == '}' then Some(Parsed(Cons(k.it, Cons(v.value.it, Nil)), p + 1))
      else None
  }

  // ----- The parser -----

  function Prefixed(done: Forest, r: Option<Parsed<Forest>>): Option<Parsed<Forest>> {
    if r.None? then None else Some(Parsed(Append(done, r.value.it), r.value.end))
  }

  // A list is there and fits the given number of tokens.
  predicate FitsF(r: Option<Parsed<Forest>>, limit: int) {
    r.Some? && CountF(r.value.it) <= limit
  }

  lemma {:induction false} SkipWsTwice(js: string, p: nat)
    requires p <= |js|
    ensures SkipWs(js, SkipWs(js, p)) == SkipWs(js, p)
    decreases |js| - p
  {
    if p < |js| && IsWs(js[p]) {
      SkipWsTwice(js, p + 1);
    }
  }

  lemma ValueAfterWs(js: string, p: nat)
    requires p <= |js|
    ensures ValueAt(js, SkipWs(js, p)) == ValueAt(js, p) && KeyAt(js, SkipWs(js, p)) == KeyAt(js, p)
  {
    SkipWsTwice(js, p);
    hide SkipWs, NestedAt, StringAt, PrimAt;
  }

  // Blanks in front of a list do not matter.
  lemma ItemsAfterWs(js: string, p: nat)
    requires p <= |js|
    ensures ItemsAt(js, SkipWs(js, p)) == ItemsAt(js, p)
  {
    ValueAfterWs(js, p);
    hide SkipWs, ValueAt, KeyAt;
  }

  lemma MembersAfterWs(js: string, p: nat)
    requires p <= |js|
    ensures MembersAt(js, SkipWs(js, p)) == MembersAt(js, p)
  {
    ValueAfterWs(js, p);
    hide SkipWs, ValueAt, KeyAt, MembersBehind;
  }

  lemma ListAfterWs(js: string, kind: Kind, p: nat)
    requires p <= |js|
    ensures ListAt(js, kind, SkipWs(js, p)) == ListAt(js, kind, p)
  {
    ItemsAfterWs(js, p);
    MembersAfterWs(js, p);
  }

  lemma ItemsStep(js: string, pos: nat, done: Forest)
    requires pos <= |js| && ValueAt(js, pos).Some?
    ensures var v := ValueAt(js, pos).value;
      var p := SkipWs(js, v.end);
      Prefixed(done, ItemsAt(js, pos)) ==
        if p < |js| && js[p] == ',' then Prefixed(Snoc(done, v.it), ItemsAt(js, p + 1))
        else if p < |js| && js[p] == ']' then Some(Parsed(Snoc(done, v.it), p + 1))
        else None
  {
    var v := ValueAt(js, pos).value;
    var p := SkipWs(js, v.end);
    SnocAppend(done, v.it, Nil);
    AppendNil(Snoc(done, v.it));
    if p < |js| && js[p] == ',' && ItemsAt(js, p + 1).Some? {
      SnocAppend(done, v.it, ItemsAt(js, p + 1).value.it);
    }
    hide ValueAt, SkipWs, Append, Snoc;
  }

  // A list cannot fit once its next element is missing or too big.
  lemma ItemsStuck(js: string, pos: nat, done: Forest, limit: int)
    requires pos <= |js|
    ensures var v := ValueAt(js, pos);
      v.None? || CountF(done) + Count(v.value.it) > limit ==> !FitsF(Prefixed(done, ItemsAt(js, pos)), limit)
  {
    var r := ItemsAt(js, pos);
    if r.Some? {
      AppendCount(done, r.value.it);
    }
  }

  lemma MembersStep(js: string, pos: nat, done: Forest)
    requires pos <= |js| && KeyAt(js, pos).Some? && ValueAt(js, KeyAt(js, pos).value.end).Some?
    ensures var k := KeyAt(js, pos).value;
      var v := ValueAt(js, k.end).value;
      var p := SkipWs(js, v.end);
      var grown := Snoc(Snoc(done, k.it), v.it);
      Prefixed(done, MembersAt(js, pos)) ==
        if p < |js| && js[p] == ',' then Prefixed(grown, MembersAt(js, p + 1))
        else if p < |js| && js[p] == '}' then Some(Parsed(grown, p + 1))
        else None
  {
    hide ValueAt, KeyAt, SkipWs, Append, Snoc, MembersAt, MembersBehind;
    var k := KeyAt(js, pos).value;
    var v := ValueAt(js, k.end).value;
    var p := SkipWs(js, v.end);
    TwoSnocs(done, k.it, v.it, Nil);
    AppendNil(Snoc(Snoc(done, k.it), v.it));
    if p < |js| && js[p] == ',' && MembersAt(js, p + 1).Some? {
      TwoSnocs(done, k.it, v.it, MembersAt(js, p + 1).value.it);
    }
    MembersCases(js, pos);
  }

  // The members from pos on, by what stands behind the first value.
  lemma MembersCases(js: string, pos: nat)
    requires pos <= |js| && KeyAt(js, pos).Some? && ValueAt(js, KeyAt(js, pos).value.end).Some?
    ensures var k := KeyAt(js, pos).value;
      var v := ValueAt(js, k.end).value;
      var p := SkipWs(js, v.end);
      MembersAt(js, pos) ==
        if p < |js| && js[p] == ',' then
          var rest := MembersAt(js, p + 1);
          if rest.Some? then Some(Parsed(Cons(k.it, Cons(v.it, rest.value.it)), rest.value.end)) else None
        else if p < |js| && js[p] == '}' then Some(Parsed(Cons(k.it, Cons(v.it, Nil)), p + 1))
        else None
  {
    hide ValueAt, KeyAt, SkipWs;
  }

  lemma TwoSnocs(f: Forest, a: Tree, b: Tree, g: Forest)
    ensures Append(f, Cons(a, Cons(b, g))) == Append(Snoc(Snoc(f, a), b), g)
  {
    SnocAppend(f, a, Cons(b, g));
    SnocAppend(Snoc(f, a), b, g);
  }

  lemma MembersStuck(js: string, pos: nat, done: Forest, limit: int)
    requires pos <= |js|
    ensures var k := KeyAt(js, pos);
      k.None? || CountF(done) + Count(k.value.it) > limit ==> !FitsF(Prefixed(done, MembersAt(js, pos)), limit)
    ensures var k := KeyAt(js, pos);
      k.Some? ==>
        var v := ValueAt(js, k.value.end);
        v.None? || CountF(done) + Count(k.value.it) + Count(v.value.it) > limit ==>
          !FitsF(Prefixed(done, MembersAt(js, pos)), limit)
  {
    var r := MembersAt(js, pos);
    if r.Some? {
      AppendCount(done, r.value.it);
    }
  }

  // Tokens written behind the rows of the open token ti leave it alone and add a row.
  lemma RowsGrow(was: seq<Tok>, now: seq<Tok>, ti: nat, m: nat, n: nat, done: Forest, v: Option<Tree>)
    requires ti < m <= n <= |was| == |now| && was[..m] == now[..m]
    requires m == ti + 1 + CountF(done) && was[ti + 1..m] == FlattenF(done, ti + 1)
    requires v.Some? ==> n == m + Count(v.value) && now[m..n] == Flatten(v.value, m)
    ensures now[..ti] == was[..ti] && now[ti] == was[ti]
    ensures v.Some? ==> now[ti + 1..n] == FlattenF(Snoc(done, v.value), ti + 1)
    ensures v.Some? ==> n == ti + 1 + CountF(Snoc(done, v.value))
  {
    hide Flatten, FlattenF, Count, CountF, Snoc;
    SamePrefix(was, now, 0, ti, m);
    SamePrefix(was, now, ti, ti + 1, m);
    if v.Some? {
      AddRow(was, now, ti, m, n, done, v.value);
    }
  }

  lemma AddRow(was: seq<Tok>, now: seq<Tok>, ti: nat, m: nat, n: nat, done: Forest, v: Tree)
    requires ti < m <= n <= |was| == |now| && was[..m] == now[..m]
    requires m == ti + 1 + CountF(done) && was[ti + 1..m] == FlattenF(done, ti + 1)
    requires n == m + Count(v) && now[m..n] == Flatten(v, m)
    ensures now[ti + 1..n] == FlattenF(Snoc(done, v), ti + 1) && n == ti + 1 + CountF(Snoc(done, v))
  {
    hide Flatten, FlattenF, Count, CountF, Snoc;
    SamePrefix(was, now, ti + 1, m, m);
    SnocFlattens(done, v, ti + 1);
    SnocCounts(done, v);
    assert now[ti + 1..n] == now[ti + 1..m] + now[m..n];
  }

  lemma SamePrefix(s: seq<Tok>, t: seq<Tok>, a: nat, b: nat, m: nat)
    requires a <= b <= m <= |s| == |t| && s[..m] == t[..m]
    ensures s[a..b] == t[a..b] && (b == a + 1 ==> s[a] == t[a])
  {
  }

  class Parser {
    const js: string
    const t: array<Tok>
    var pos: nat
    var n: nat

    constructor (js: string, t: array<Tok>)
      ensures this.js == js && this.t == t && pos == 0 && n == 0
    {
      this.js, this.t, pos, n := js, t, 0, 0;
    }

    ghost predicate Valid()
      reads this
    {
      n <= t.Length
    }

    // A reader succeeds exactly when the text is there and its tokens fit, and then writes them behind
    // the tokens already present.
    twostate predicate Read(r: Option<Parsed<Tree>>, ok: bool)
      reads this, t
    {
      Valid() && old(n) <= n && old(n) <= t.Length && t[..old(n)] == old(t[..n]) &&
      (ok <==> r.Some? && old(n) + Count(r.value.it) <= t.Length) &&
      (ok ==> pos == r.value.end && n == old(n) + Count(r.value.it) && t[old(n)..n] == Flatten(r.value.it, old(n)))
    }

    method SkipSpace()
      requires pos <= |js|
      modifies this`pos
      ensures pos == SkipWs(js, old(pos))
    {
      while pos < |js|
        invariant pos <= |js| && SkipWs(js, pos) == SkipWs(js, old(pos))
      {
        if !IsWs(js[pos]) {
          break;
        }
        pos := pos + 1;
      }
    }

    method Alloc() returns (i: int)
      requires Valid()
      modifies this`n
      ensures if old(n) < t.Length then i == old(n) && n == old(n) + 1 else i == -1 && n == old(n)
    {
      if n >= t.Length {
        return -1;
      }
      i := n;
      n := n + 1;
    }

    method StringTok() returns (ok: bool)
      requires Valid() && pos < |js|
      modifies this, t
      ensures Read(StringAt(js, old(pos)), ok)
    {
      var ti := Alloc();
      if ti < 0 {
        return false;
      }
      pos := pos + 1;
      var s := pos;
      while pos < |js|
        invariant s <= pos && StringEnd(js, pos) == StringEnd(js, s) && t[..] == old(t[..]) && n == old(n) + 1
        decreases |js| - pos
      {
        var c := js[pos];
        if c == '\\' {
          pos := pos + 2;
        } else if c == '"' {
          t[ti] := Tok(DjString, s, pos, 0, n);
          pos := pos + 1;
          return true;
        } else {
          pos := pos + 1;
        }
      }
      return false;
    }

    method PrimTok() returns (ok: bool)
      requires Valid() && pos < |js|
      modifies this, t
      ensures Read(PrimAt(js, old(pos)), ok)
    {
      var ti := Alloc();
      if ti < 0 {
        return false;
      }
      var s := pos;
      var kind := DjNumber;
      if js[pos] == 't' {
        if !At(js, pos, "true") {
          return false;
        }
        pos, kind := pos + 4, DjTrue;
      } else if js[pos] == 'f' {
        if !At(js, pos, "false") {
          return false;
        }
        pos, kind := pos + 5, DjFalse;
      } else if js[pos] == 'n' {
        if !At(js, pos, "null") {
          return false;
        }
        pos, kind := pos + 4, DjNull;
      } else {
        while pos < |js|
          modifies this`pos
          invariant s <= pos <= |js| && NumEnd(js, pos) == NumEnd(js, s)
        {
          if !IsNum(js[pos]) {
            break;
          }
          pos := pos + 1;
        }
        if pos == s {
          return false;
        }
      }
      t[ti] := Tok(kind, s, pos, 0, n);
      return true;
    }

    // Token ti is an open array or object whose elements read so far are the forest done.
    ghost predicate Rows(ti: nat, done: Forest, before: seq<Tok>)
      reads this, t
    {
      n == ti + 1 + CountF(done) && n <= t.Length && t[..ti] == before && t[ti + 1..n] == FlattenF(done, ti + 1)
    }

    twostate predicate Child(r: Option<Parsed<Tree>>, ok: bool, ti: nat, done: Forest, before: seq<Tok>)
      reads this, t
    {
      (ok <==> r.Some? && ti + 1 + CountF(done) + Count(r.value.it) <= t.Length) &&
      ti < n <= t.Length && t[..ti] == before && t[ti] == old(t[ti]) &&
      (ok ==> pos == r.value.end && Rows(ti, Snoc(done, r.value.it), before))
    }

    method ChildValue(ti: nat, ghost done: Forest, ghost before: seq<Tok>) returns (ok: bool)
      requires Rows(ti, done, before) && pos <= |js|
      modifies this, t
      ensures Child(ValueAt(js, old(pos)), ok, ti, done, before)
      decreases |js| - pos, 2
    {
      ghost var was, m, r := t[..], n, ValueAt(js, pos);
      ok := Value();
      RowsGrow(was, t[..], ti, m, n, done, if ok then Some(r.value.it) else None);
    }

    // A key string and the colon behind it.
    method ChildKey(ti: nat, ghost done: Forest, ghost before: seq<Tok>) returns (ok: bool)
      requires Rows(ti, done, before) && pos <= |js|
      modifies this, t
      ensures Child(KeyAt(js, old(pos)), ok, ti, done, before)
    {
      SkipSpace();
      if pos >= |js| || js[pos] != '"' {
        return false;
      }
      ghost var was, m, r := t[..], n, StringAt(js, pos);
      ok := StringTok();
      RowsGrow(was, t[..], ti, m, n, done, if ok then Some(r.value.it) else None);
      if !ok {
        return;
      }
      SkipSpace();
      if pos >= |js| || js[pos] != ':' {
        return false;
      }
      pos := pos + 1;
    }

    // The list of an open array or object, read up to here, with what must still follow.
    ghost predicate Open(ti: nat, kind: Kind, start: nat, done: Forest, before: seq<Tok>)
      reads this, t
    {
      Rows(ti, done, before) && t[ti].kind == kind && t[ti].start == start &&
      t[ti].size == (if kind == DjObject then Len(done) / 2 else Len(done)) &&
      (kind == DjObject ==> Len(done) % 2 == 0)
    }

    method OpenTok(kind: Kind) returns (ti: int)
      requires Valid() && pos < |js| && (kind == DjObject || kind == DjArray)
      modifies this, t
      ensures Valid() && old(n) <= n && t[..old(n)] == old(t[..n])
      ensures if old(n) < t.Length then
          ti == old(n) && Open(ti, kind, old(pos), Nil, old(t[..n])) && pos == SkipWs(js, old(pos) + 1)
        else ti == -1
    {
      ti := Alloc();
      if ti < 0 {
        return;
      }
      t[ti] := t[ti].(kind := kind, start := pos, size := 0);
      pos := pos + 1;
      SkipSpace();
    }

    method CloseTok(ti: nat, ghost kind: Kind, ghost start: nat, ghost done: Forest, ghost before: seq<Tok>)
      requires Open(ti, kind, start, done, before) && pos < |js|
      modifies this, t
      ensures Valid() && pos == old(pos) + 1 && n == old(n) && t[..ti] == before
      ensures t[ti..n] == Flatten(Node(kind, start, pos, done), ti)
    {
      pos := pos + 1;
      t[ti] := t[ti].(end := pos, next := n);
      assert t[ti..n] == [t[ti]] + t[ti + 1..n];
    }

    // One list entry has been read, up to the character behind it.
    static predicate Stepped(js: string, pos: nat, kind: Kind, goal: Option<Parsed<Forest>>, grown: Forest) {
      goal == if pos < |js| && js[pos] == ',' then Prefixed(grown, ListAt(js, kind, pos + 1))
              else if pos < |js| && js[pos] == Closer(kind) then Some(Parsed(grown, pos + 1))
              else None
    }

    // An array element, or the key and value of an object member.
    method Entry(ti: nat, kind: Kind, ghost start: nat, ghost done: Forest, ghost before: seq<Tok>)
      returns (ok: bool, ghost grown: Forest)
      requires Open(ti, kind, start, done, before) && pos <= |js| && (kind == DjObject || kind == DjArray)
      modifies this, t
      ensures ti < n <= t.Length && t[..ti] == before
      ensures ok ==> Open(ti, kind, start, grown, before) && old(pos) <= pos <= |js|
      ensures var goal := Prefixed(done, ListAt(js, kind, old(pos)));
        if ok then Stepped(js, pos, kind, goal, grown) else !FitsF(goal, t.Length - ti - 1)
      decreases |js| - pos, 4
    {
      if kind == DjObject {
        ok, grown := Member(ti, start, done, before);
      } else {
        ok, grown := Element(ti, kind, start, done, before);
      }
    }

    method Element(ti: nat, kind: Kind, ghost start: nat, ghost done: Forest, ghost before: seq<Tok>)
      returns (ok: bool, ghost grown: Forest)
      requires Open(ti, kind, start, done, before) && pos <= |js| && kind == DjArray
      modifies this, t
      ensures ti < n <= t.Length && t[..ti] == before
      ensures ok ==> Open(ti, kind, start, grown, before) && old(pos) <= pos <= |js|
      ensures var goal := Prefixed(done, ItemsAt(js, old(pos)));
        if ok then Stepped(js, pos, kind, goal, grown) else !FitsF(goal, t.Length - ti - 1)
      decreases |js| - pos, 3
    {
      hide FlattenF, Flatten, Count, CountF, StringAt, ValueAt, SkipWs;
      ItemsStuck(js, pos, done, t.Length - ti - 1);
      ghost var at, v := pos, ValueAt(js, pos);
      ok := ChildValue(ti, done, before);
      grown := done;
      if !ok {
        return;
      }
      grown := Snoc(done, v.value.it);
      SnocCounts(done, v.value.it);
      ItemsStep(js, at, done);
      t[ti] := t[ti].(size := t[ti].size + 1);
      SkipSpace();
    }

    // The value behind a key, up to the character behind it.
    method MemberValue(ti: nat, ghost start: nat, ghost one: Forest, ghost before: seq<Tok>)
      returns (ok: bool, ghost grown: Forest)
      requires Rows(ti, one, before) && pos <= |js| && Len(one) % 2 == 1
      requires t[ti].kind == DjObject && t[ti].start == start && t[ti].size == Len(one) / 2
      modifies this, t
      ensures ti < n <= t.Length && t[..ti] == before
      ensures var v := ValueAt(js, old(pos));
        (ok <==> v.Some? && ti + 1 + CountF(one) + Count(v.value.it) <= t.Length) &&
        (ok ==> grown == Snoc(one, v.value.it) && Open(ti, DjObject, start, grown, before) &&
                pos == SkipWs(js, v.value.end))
      decreases |js| - pos, 3
    {
      hide FlattenF, Flatten, Count, CountF, StringAt, KeyAt;
      ghost var v := ValueAt(js, pos);
      ValueAfterWs(js, pos);
      grown := one;
      SkipSpace();
      ok := ChildValue(ti, one, before);
      if !ok {
        return;
      }
      SnocCounts(one, v.value.it);
      grown := Snoc(one, v.value.it);
      t[ti] := t[ti].(size := t[ti].size + 1);
      SkipSpace();
    }

    method Member(ti: nat, ghost start: nat, ghost done: Forest, ghost before: seq<Tok>)
      returns (ok: bool, ghost grown: Forest)
      requires Open(ti, DjObject, start, done, before) && pos <= |js|
      modifies this, t
      ensures ti < n <= t.Length && t[..ti] == before
      ensures ok ==> Open(ti, DjObject, start, grown, before) && old(pos) <= pos <= |js|
      ensures var goal := Prefixed(done, MembersAt(js, old(pos)));
        if ok then Stepped(js, pos, DjObject, goal, grown) else !FitsF(goal, t.Length - ti - 1)
      decreases |js| - pos, 3
    {
      hide FlattenF, Flatten, Count, CountF, StringAt, KeyAt, ValueAt, SkipWs;
      MembersStuck(js, pos, done, t.Length - ti - 1);
      ghost var at, k := pos, KeyAt(js, pos);
      grown := done;
      ok := ChildKey(ti, done, before);
      if !ok {
        return;
      }
      SnocCounts(done, k.value.it);
      ok, grown := MemberValue(ti, start, Snoc(done, k.value.it), before);
      if !ok {
        return;
      }
      MembersStep(js, at, done);
    }

    // An array or object, by its kind: the two readers of the source differ only in their entries.
    method NestedTok(kind: Kind) returns (ok: bool)
      requires Valid() && pos < |js| && (kind == DjObject || kind == DjArray)
      modifies this, t
      ensures Read(NestedAt(js, old(pos), kind), ok)
      decreases |js| - pos, 0
    {
      ghost var before, start := t[..n], pos;
      var ti := OpenTok(kind);
      if ti < 0 {
        return false;
      }
      if pos < |js| && js[pos] == Closer(kind) {
        CloseTok(ti, kind, start, Nil, before);
        return true;
      }
      ok := Entries(ti, kind, start, before);
    }

    method Entries(ti: nat, kind: Kind, ghost start: nat, ghost before: seq<Tok>) returns (ok: bool)
      requires Open(ti, kind, start, Nil, before) && start < pos <= |js| && (kind == DjObject || kind == DjArray)
      modifies this, t
      ensures var r := ListAt(js, kind, old(pos));
        (ok <==> FitsF(r, t.Length - ti - 1)) &&
        (ok ==> pos == r.value.end && n == ti + 1 + CountF(r.value.it) &&
                t[ti..n] == Flatten(Node(kind, start, pos, r.value.it), ti))
      ensures ti < n <= t.Length && t[..ti] == before
      decreases |js| - pos, 5
    {
      ghost var goal, done := ListAt(js, kind, pos), Nil;
      hide FlattenF, Flatten, ListAt, SkipWs, CountF, Count;
      while true
        invariant old(pos) <= pos <= |js|
        invariant Open(ti, kind, start, done, before)
        invariant goal == Prefixed(done, ListAt(js, kind, pos))
        decreases |js| - pos
      {
        ListAfterWs(js, kind, pos);
        SkipSpace();
        ok, done := Entry(ti, kind, start, done, before);
        if !ok {
          return;
        }
        if pos >= |js| {
          return false;
        }
        if js[pos] == Closer(kind) {
          CloseTok(ti, kind, start, done, before);
          return true;
        }
        if js[pos] != ',' {
          return false;
        }
        pos := pos + 1;
      }
    }

    method Value() returns (ok: bool)
      requires Valid() && pos <= |js|
      modifies this, t
      ensures Read(ValueAt(js, old(pos)), ok)
      decreases |js| - pos, 1
    {
      SkipSpace();
      if pos >= |js| {
        return false;
      }
      match js[pos]
      case '{' => ok := NestedTok(DjObject);
      case '[' => ok := NestedTok(DjArray);
      case '"' => ok := StringTok();
      case _ => ok := PrimTok();
    }
  }

  // dj_parse: the token count, or -1 when the text is malformed or does not fit.
  method Parse(js: string, t: array<Tok>) returns (n: int)
    modifies t
    ensures var v := ValueAt(js, 0);
      if |js| <= 0x7FFF_FFFF && v.Some? && Count(v.value.it) <= t.Length
      then n == Count(v.value.it) && t[..n] == Flatten(v.value.it, 0)
      else n == -1
  {
    if t.Length <= 0 || |js| > INT_MAX {
      return -1;
    }
    var p := new Parser(js, t);
    var ok := p.Value();
    if !ok {
      return -1;
    }
    assert t[0..p.n] == t[..p.n];
    return p.n;
  }

  const INT_MAX: nat := 0x7FFF_FFFF
}
