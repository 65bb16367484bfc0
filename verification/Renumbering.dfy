/** The ids that colliding items are renumbered to (tools/project_merge.py, _allocate_free_id in a merge). */
module Renumbering {
  import opened Merge
  import Ids
  import Decimal

  // y could be a continuation of k: it has the prefix of k and a number at least as large.
  predicate Continues(y: string, k: string) {
    var s := Ids.ShapeOf(k);
    Ids.Matches(y, s.prefix) && Ids.NumberOf(y, s.prefix) >= s.n
  }

  // ----- Continuations of an id -----

  lemma CandidateMatches(s: Ids.Shape, n: nat)
    ensures Ids.Matches(Ids.Candidate(s, n), s.prefix) && Ids.NumberOf(Ids.Candidate(s, n), s.prefix) == n
  {
    assert Ids.Candidate(s, n)[|s.prefix|..] == Decimal.Padded(n, s.width);
    Decimal.PaddedDenotes(n, s.width);
  }

  lemma CopyContinues(k: string, x: string, used: set<string>)
    requires FirstFree(k, x, used)
    ensures Continues(x, k)
  {
    var s := Ids.ShapeOf(k);
    var n: nat :| FirstFreeAt(k, x, used, n);
    CandidateMatches(s, n);
  }

  // An id is its prefix and number, or is the prefix but for a dash.
  lemma ShapeParts(k: string)
    ensures var s := Ids.ShapeOf(k);
            && s.prefix != "" && s.prefix[|s.prefix| - 1] == '-'
            && ((Ids.Matches(k, s.prefix) && Ids.NumberOf(k, s.prefix) == s.n) || (s.prefix == k + "-" && s.n == 0))
  {
    hide Decimal.Value;
    var rest := if |k| >= 4 then k[4..] else "";
    var d := Ids.Dash(rest);
    if d < |rest| {
      assert k[..4 + d + 1][4 + d] == rest[d];
      assert k[4 + d + 1..] == rest[d + 1..];
    }
  }

  lemma NoDashBehind(x: string, p: string)
    requires Ids.Matches(x, p)
    ensures forall i :: |p| <= i < |x| ==> x[i] != '-'
  {
    assert forall i :: |p| <= i < |x| ==> x[i] == x[|p|..][i - |p|];
  }

  // A text of digits behind a dash has one prefix.
  lemma PrefixUnique(x: string, p: string, q: string)
    requires Ids.Matches(x, p) && Ids.Matches(x, q) && p != "" && q != ""
    requires p[|p| - 1] == '-' && q[|q| - 1] == '-'
    ensures p == q
  {
    NoDashBehind(x, p);
    NoDashBehind(x, q);
    assert x[|p| - 1] == '-' && x[|q| - 1] == '-';
  }

  lemma OneContinues(k: string, j: string, x: string, used: set<string>, used': set<string>)
    requires FirstFree(k, x, used) && FirstFree(j, x, used')
    ensures k == j || Continues(j, k) || Continues(k, j)
  {
    hide FirstFree, Ids.ShapeOf;
    CopyContinues(k, x, used);
    CopyContinues(j, x, used');
    ShapeParts(k);
    ShapeParts(j);
    PrefixUnique(x, Ids.ShapeOf(k).prefix, Ids.ShapeOf(j).prefix);
    if Ids.ShapeOf(k).prefix == k + "-" && Ids.ShapeOf(j).prefix == j + "-" {
      assert (k + "-")[..|k|] == k && (j + "-")[..|j|] == j;
    }
  }

  // ----- The order does not matter -----

  // The colliding ids c are renumbered beside the ids u: each to its first free continuation.
  ghost predicate Renumbers(r: map<string, string>, c: set<string>, u: set<string>) {
    && r.Keys == c
    && (forall k :: k in r ==> r[k] !in u && FirstFree(k, r[k], u + r.Values))
    && (forall j, k :: j in r && k in r && r[j] == r[k] ==> j == k)
  }

  // The n-th continuation of k.
  function Cell(k: string, n: nat): string { Ids.Candidate(Ids.ShapeOf(k), n) }

  function Start(k: string): nat { Ids.ShapeOf(k).n }

  // Where the continuations of two ids meet they have the same number, and run on together.
  lemma Meet(k: string, m: nat, j: string, l: nat)
    requires Cell(k, m) == Cell(j, l)
    ensures m == l && forall n :: n >= m ==> Cell(k, n) == Cell(j, n)
  {
    hide Ids.ShapeOf, Decimal.Padded;
    var s, t := Ids.ShapeOf(k), Ids.ShapeOf(j);
    ShapeParts(k);
    ShapeParts(j);
    CandidateMatches(s, m);
    CandidateMatches(t, l);
    PrefixUnique(Cell(k, m), s.prefix, t.prefix);
    assert Cell(k, m)[|s.prefix|..] == Decimal.Padded(m, s.width);
    assert Cell(j, l)[|t.prefix|..] == Decimal.Padded(l, t.width);
    forall n | n >= m
      ensures Cell(k, n) == Cell(j, n)
    {
      Decimal.PaddedMerges(m, n, s.width, t.width);
    }
  }

  ghost predicate IsCell(x: string, n: nat) { exists k :: x == Cell(k, n) }

  ghost function Rank(x: string): nat {
    if exists n: nat :: IsCell(x, n) then (var n: nat :| IsCell(x, n); n) else 0
  }

  lemma RankIs(k: string, n: nat)
    ensures Rank(Cell(k, n)) == n
  {
    hide Cell;
    var x := Cell(k, n);
    assert IsCell(x, n);
    var j :| x == Cell(j, Rank(x));
    Meet(k, n, j, Rank(x));
  }

  lemma {:induction false} Lowest(d: set<string>) returns (x: string)
    requires d != {}
    ensures x in d && forall y :: y in d ==> Rank(x) <= Rank(y)
  {
    hide Rank;
    x :| x in d;
    if d != {x} {
      var y := Lowest(d - {x});
      if Rank(y) < Rank(x) {
        x := y;
      }
    }
  }

  // What a renumbering says of one id: its cell, and all cells before it taken.
  lemma CellOf(r: map<string, string>, c: set<string>, u: set<string>, k: string) returns (n: nat)
    requires Renumbers(r, c, u) && k in c
    ensures n > Start(k) && r[k] == Cell(k, n) && r[k] !in u
    ensures forall l: nat :: Start(k) < l < n ==> Cell(k, l) in u + r.Values
  {
    hide Ids.ShapeOf;
    n :| FirstFreeAt(k, r[k], u + r.Values, n);
  }

  // The ids of c whose continuations lead to x.
  ghost function Leading(c: set<string>, x: string): set<string> {
    set k | k in c && Start(k) < Rank(x) && x == Cell(k, Rank(x))
  }

  // The cells before x on their way.
  ghost function Before(c: set<string>, x: string): set<string> {
    set k, n: nat | k in Leading(c, x) && Start(k) < n < Rank(x) :: Cell(k, n)
  }

  // An id whose cell lies before x leads to x.
  lemma BeforeLeads(r: map<string, string>, c: set<string>, u: set<string>, x: string, k: string)
    requires Renumbers(r, c, u) && k in c && r[k] in Before(c, x)
    ensures k in Leading(c, x)
  {
    hide Cell, Renumbers, Rank, FirstFree;
    SameKeys(r, c, u);
    var n := CellOf(r, c, u, k);
    var j, l: nat :| j in Leading(c, x) && Start(j) < l < Rank(x) && r[k] == Cell(j, l);
    Meet(k, n, j, l);
  }

  lemma NotBeforeItself(c: set<string>, x: string)
    ensures x !in Before(c, x)
  {
    hide Cell, Rank;
    if x in Before(c, x) {
      var j, l: nat :| j in Leading(c, x) && Start(j) < l < Rank(x) && x == Cell(j, l);
      RankIs(j, l);
    }
  }

  // Where x is free, every id that leads to x stays before it.
  lemma StaysBefore(r: map<string, string>, c: set<string>, u: set<string>, x: string, k: string)
    requires Renumbers(r, c, u) && k in Leading(c, x) && x !in u && x !in r.Values
    ensures r[k] in Before(c, x)
  {
    hide Cell, Renumbers, Rank, FirstFree;
    SameKeys(r, c, u);
    var n := CellOf(r, c, u, k);
    assert r[k] in r.Values;
  }

  // The ids a renumbering sends into w.
  ghost function Into(r: map<string, string>, w: set<string>): set<string> { set k | k in r && r[k] in w }

  lemma {:induction false} IntoSize(r: map<string, string>, a: set<string>)
    requires a <= r.Keys && forall j, k :: j in a && k in a && r[j] == r[k] ==> j == k
    ensures |set k | k in a :: r[k]| == |a|
  {
    if a == {} {
      assert (set k | k in a :: r[k]) == {};
    } else {
      var x :| x in a;
      IntoSize(r, a - {x});
      assert (set k | k in a :: r[k]) == (set k | k in a - {x} :: r[k]) + {r[x]};
    }
  }

  // As many ids go into w as cells of w are taken.
  lemma TakenInto(r: map<string, string>, c: set<string>, u: set<string>, w: set<string>)
    requires Renumbers(r, c, u)
    ensures |Into(r, w)| == |r.Values * w|
  {
    hide FirstFree;
    IntoSize(r, Into(r, w));
    assert (set k | k in Into(r, w) :: r[k]) == r.Values * w;
  }

  lemma {:induction false} SubsetSmaller(a: set<string>, b: set<string>, x: string)
    requires a <= b && x in b && x !in a
    ensures |a| < |b|
  {
    Ids.SubsetSize(a, b - {x});
  }

  // The lowest cell two renumberings could differ in is taken by neither alone.
  lemma NoLowestDifference(r: map<string, string>, s: map<string, string>, c: set<string>, u: set<string>, x: string)
    requires Renumbers(r, c, u) && Renumbers(s, c, u)
    requires x in r.Values
    requires forall y :: (y in r.Values) != (y in s.Values) ==> Rank(x) <= Rank(y)
    ensures x in s.Values
  {
    hide Cell, Rank, FirstFree, Leading, Before, Into;
    if x !in s.Values {
      var w := Before(c, x);
      SameBefore(r, s, c, x);
      TakenInto(r, c, u, w);
      TakenInto(s, c, u, w);
      var k :| k in r && r[k] == x;
      AllInto(s, c, u, x);
      SomeInto(r, c, u, x, k);
    }
  }

  lemma SameBefore(r: map<string, string>, s: map<string, string>, c: set<string>, x: string)
    requires forall y :: (y in r.Values) != (y in s.Values) ==> Rank(x) <= Rank(y)
    ensures r.Values * Before(c, x) == s.Values * Before(c, x)
  {
    hide Cell, Rank;
    forall y | y in Before(c, x)
      ensures y in r.Values <==> y in s.Values
    {
      var j, l: nat :| j in Leading(c, x) && Start(j) < l < Rank(x) && y == Cell(j, l);
      RankIs(j, l);
    }
  }

  lemma AllInto(s: map<string, string>, c: set<string>, u: set<string>, x: string)
    requires Renumbers(s, c, u) && x !in u && x !in s.Values
    ensures Into(s, Before(c, x)) == Leading(c, x)
  {
    hide Cell, Rank, FirstFree, Before, Renumbers;
    forall k | k in c
      ensures s.Keys == c && (s[k] in Before(c, x) <==> k in Leading(c, x))
    {
      assert s.Keys == c by { SameKeys(s, c, u); }
      if s[k] in Before(c, x) {
        BeforeLeads(s, c, u, x, k);
      }
      if k in Leading(c, x) {
        StaysBefore(s, c, u, x, k);
      }
    }
    SameKeys(s, c, u);
  }

  lemma SameKeys(s: map<string, string>, c: set<string>, u: set<string>)
    requires Renumbers(s, c, u)
    ensures s.Keys == c
  {
  }

  lemma SomeInto(r: map<string, string>, c: set<string>, u: set<string>, x: string, k: string)
    requires Renumbers(r, c, u) && k in r && r[k] == x
    ensures |Into(r, Before(c, x))| < |Leading(c, x)|
  {
    hide Rank, FirstFree, Before, Renumbers, Cell;
    SameKeys(r, c, u);
    forall j | j in Into(r, Before(c, x))
      ensures j in Leading(c, x)
    {
      BeforeLeads(r, c, u, x, j);
    }
    var n := CellOf(r, c, u, k);
    RankIs(k, n);
    NotBeforeItself(c, x);
    SubsetSmaller(Into(r, Before(c, x)), Leading(c, x), k);
  }

  // In whatever order colliding ids are renumbered, the new ids are the same.
  lemma OrderDoesNotMatter(r: map<string, string>, s: map<string, string>, c: set<string>, u: set<string>)
    requires Renumbers(r, c, u) && Renumbers(s, c, u)
    ensures r.Values == s.Values
  {
    hide Rank, Renumbers;
    var d := (r.Values - s.Values) + (s.Values - r.Values);
    if d != {} {
      var x := Lowest(d);
      if x in r.Values {
        NoLowestDifference(r, s, c, u, x);
      } else {
        NoLowestDifference(s, r, c, u, x);
      }
    }
  }
}
