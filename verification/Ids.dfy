/** Fresh identifiers (tools/project_merge.py, _allocate_free_id; tools/project_edit.py, _next_id_for_pattern). */
module Ids {
  import opened Decimal

  predicate StartsWith(s: string, prefix: string) {
    |prefix| <= |s| && s[..|prefix|] == prefix
  }

  // How an id is continued: a prefix, the number it has and the digits it is printed with.
  datatype Shape = Shape(prefix: string, n: nat, width: nat)

  // Length of the first part of s before a '-', or |s|.
  function Dash(s: string): (k: nat)
    ensures k <= |s|
    ensures forall i :: 0 <= i < k ==> s[i] != '-'
    ensures k < |s| ==> s[k] == '-'
  {
    if s == "" || s[0] == '-' then 0 else 1 + Dash(s[1..])
  }

  // HLR-<digits>, LLR-<group>-<digits>, or anything else.
  function ShapeOf(id: string): Shape {
    var rest := if |id| >= 4 then id[4..] else "";
    var k := Dash(rest);
    if StartsWith(id, "HLR-") && Numeral(rest) then Shape("HLR-", Value(rest), 3)
    else if StartsWith(id, "LLR-") && 0 < k < |rest| && Numeral(rest[k + 1..]) then
      Shape(id[..4 + k + 1], Value(rest[k + 1..]), 2)
    else Shape(id + "-", 0, 0)
  }

  // Ids of requirements go on counting with their own prefix, three digits wide in the upper level
  lemma HlrShape(d: string)
    requires Numeral(d)
    ensures ShapeOf("HLR-" + d) == Shape("HLR-", Value(d), 3)
  {
    hide Value, Numeral, Dash;
    assert ("HLR-" + d)[4..] == d && ("HLR-" + d)[..4] == "HLR-";
  }

  // and two in the lower one.
  lemma LlrShape(group: string, d: string)
    requires Numeral(d) && group != "" && '-' !in group
    ensures ShapeOf("LLR-" + group + "-" + d) == Shape("LLR-" + group + "-", Value(d), 2)
  {
    hide Value, Numeral, Dash;
    var id, rest := "LLR-" + group + "-" + d, group + "-" + d;
    LlrParts(group, d);
    assert "LLR-"[0] != "HLR-"[0];
    DashAfter(group, "-" + d);
    assert group + ("-" + d) == rest;
  }

  lemma LlrParts(group: string, d: string)
    ensures var id, rest := "LLR-" + group + "-" + d, group + "-" + d;
            && id[4..] == rest && id[..4] == "LLR-"
            && rest[|group| + 1..] == d && id[..4 + |group| + 1] == "LLR-" + group + "-"
  {
  }

  lemma {:induction false} DashAfter(group: string, rest: string)
    requires '-' !in group && rest != "" && rest[0] == '-'
    ensures Dash(group + rest) == |group|
    decreases |group|
  {
    if group == "" {
      assert group + rest == rest;
    } else {
      assert (group + rest)[1..] == group[1..] + rest;
      DashAfter(group[1..], rest);
    }
  }

  predicate IsHlr(id: string, d: string) { Numeral(d) && id == "HLR-" + d }

  predicate IsLlr(id: string, group: string, d: string) {
    Numeral(d) && group != "" && '-' !in group && id == "LLR-" + group + "-" + d
  }

  // All others get a suffix, from 1 on.
  lemma OtherShape(id: string)
    ensures || (exists d :: IsHlr(id, d)) || (exists group, d :: IsLlr(id, group, d))
            || ShapeOf(id) == Shape(id + "-", 0, 0)
  {
    hide Value, Digits, Numeral, Dash;
    if StartsWith(id, "HLR-") && Numeral(id[4..]) {
      assert IsHlr(id, id[4..]);
    } else if StartsWith(id, "LLR-") {
      var rest := id[4..];
      var k := Dash(rest);
      DashParts(rest);
      if 0 < k < |rest| && Numeral(rest[k + 1..]) {
        Reassembled(id, rest[..k], rest[k + 1..]);
        assert IsLlr(id, rest[..k], rest[k + 1..]);
      }
    }
  }

  lemma DashParts(rest: string)
    ensures var k := Dash(rest); '-' !in rest[..k] && (k < |rest| ==> rest == rest[..k] + "-" + rest[k + 1..])
  {
    hide Dash;
    var k := Dash(rest);
    forall i | 0 <= i < k
      ensures rest[..k][i] != '-'
    {
    }
    if k < |rest| {
      assert rest == rest[..k] + [rest[k]] + rest[k + 1..];
    }
  }

  lemma Reassembled(id: string, group: string, d: string)
    requires StartsWith(id, "LLR-") && id[4..] == group + "-" + d
    ensures id == "LLR-" + group + "-" + d
  {
    assert id == id[..4] + id[4..];
  }

  function Candidate(s: Shape, n: nat): string { s.prefix + Padded(n, s.width) }

  lemma CandidateInjective(s: Shape, m: nat, n: nat)
    requires Candidate(s, m) == Candidate(s, n)
    ensures m == n
  {
    assert Candidate(s, m)[|s.prefix|..] == Padded(m, s.width);
    assert Candidate(s, n)[|s.prefix|..] == Padded(n, s.width);
    PaddedInjective(m, n, s.width, s.width);
  }

  lemma {:induction false} SubsetSize<T>(a: set<T>, b: set<T>)
    requires a <= b
    ensures |a| <= |b|
  {
    if a != {} {
      var x :| x in a;
      SubsetSize(a - {x}, b - {x});
    }
  }

  // The search ends for every finite set, at the first number after the id's own that is free.
  method AllocateFreeId(existing: string, inUse: set<string>) returns (id: string, ghost n: nat)
    ensures id !in inUse
    ensures var s := ShapeOf(existing);
            && n > s.n && id == Candidate(s, n)
            && forall m :: s.n < m < n ==> Candidate(s, m) in inUse
  {
    hide ShapeOf, Padded;
    var s := ShapeOf(existing);
    var k := s.n + 1;
    ghost var tried: set<string> := {};
    while Candidate(s, k) in inUse
      invariant k > s.n && tried <= inUse && |tried| == k - s.n - 1
      invariant forall m :: s.n < m < k ==> Candidate(s, m) in inUse
      invariant forall c :: c in tried ==> exists m :: s.n < m < k && c == Candidate(s, m)
      decreases |inUse| - |tried|
    {
      if Candidate(s, k) in tried {
        var m :| s.n < m < k && Candidate(s, k) == Candidate(s, m);
        CandidateInjective(s, k, m);
      }
      SubsetSize(tried + {Candidate(s, k)}, inUse);
      tried := tried + {Candidate(s, k)};
      k := k + 1;
    }
    return Candidate(s, k), k;
  }

  // The number of an id that matches the pattern prefix<digits>.
  predicate Matches(id: string, prefix: string) {
    StartsWith(id, prefix) && Numeral(id[|prefix|..])
  }

  function NumberOf(id: string, prefix: string): nat
    requires Matches(id, prefix)
  {
    Value(id[|prefix|..])
  }

  // As wide as asked for, or as the widest number in use.
  predicate Widest(w: nat, existing: seq<string>, prefix: string, width: nat) {
    && w >= width && (forall e :: e in existing && Matches(e, prefix) ==> |e| - |prefix| <= w)
    && (w == width || exists e :: e in existing && Matches(e, prefix) && |e| - |prefix| == w)
  }

  // One more than the largest number in use, at least as wide as any of them.
  method NextIdForPattern(existing: seq<string>, prefix: string, width: nat)
      returns (id: string, ghost w: nat)
    ensures id !in existing
    ensures Matches(id, prefix)
    ensures forall e :: e in existing && Matches(e, prefix) ==> NumberOf(e, prefix) < NumberOf(id, prefix)
    ensures forall e :: e in existing && Matches(e, prefix) ==> |e| <= |id|
    ensures id == prefix + Padded(NumberOf(id, prefix), w) && Widest(w, existing, prefix, width)
    ensures NumberOf(id, prefix) == 1 ||
            exists e :: e in existing && Matches(e, prefix) && NumberOf(id, prefix) == NumberOf(e, prefix) + 1
  {
    hide Value, Digits, Padded;
    var maxN: nat, most := 0, width;
    for i := 0 to |existing|
      invariant most >= width
      invariant forall e :: e in existing[..i] && Matches(e, prefix) ==>
                              NumberOf(e, prefix) <= maxN && |e| <= |prefix| + most
      invariant most == width || exists e :: e in existing && Matches(e, prefix) && |e| - |prefix| == most
      invariant maxN == 0 || exists e :: e in existing && Matches(e, prefix) && maxN == NumberOf(e, prefix)
    {
      var value := existing[i];
      if StartsWith(value, prefix) {
        var suffix := value[|prefix|..];
        if Numeral(suffix) {
          var n := Value(suffix);
          if n > maxN {
            maxN := n;
          }
          if |suffix| > most {
            most := |suffix|;
          }
        }
      }
    }
    id, w := prefix + Padded(maxN + 1, most), most;
    assert id[|prefix|..] == Padded(maxN + 1, most);
    PaddedDenotes(maxN + 1, most);
    PaddedLength(maxN + 1, most);
    assert existing[..|existing|] == existing;
  }
}
