/** Edit paths of the project editor (tools/project_edit.py, _split_path). */
module EditPaths {
  import opened Options

  // How a character changes the bracket depth, which may go below zero.
  function Turn(c: char): int { if c == '[' then 1 else if c == ']' then -1 else 0 }

  function Depth(s: string): int
    decreases |s|
  {
    if s == "" then 0 else Depth(s[..|s| - 1]) + Turn(s[|s| - 1])
  }

  function Count(s: string, c: char): nat {
    if s == "" then 0 else Count(s[..|s| - 1], c) + if s[|s| - 1] == c then 1 else 0
  }

  // The depth is the number of brackets opened less the number closed.
  lemma {:induction false} DepthIs(s: string)
    ensures Depth(s) == Count(s, '[') - Count(s, ']')
    decreases |s|
  {
    if s != "" {
      DepthIs(s[..|s| - 1]);
    }
  }

  lemma DepthMore(s: string, c: char)
    ensures Depth(s + [c]) == Depth(s) + Turn(c)
  {
  }

  function Flushed(cur: string): seq<string> { if cur == "" then [] else [cur] }

  // The steps of what is left, a step begun as cur.
  function Steps(s: string, cur: string): seq<string>
    decreases |s|
  {
    if s == "" then Flushed(cur)
    else if s[0] == '/' && Depth(cur) == 0 then Flushed(cur) + Steps(s[1..], "")
    else Steps(s[1..], cur + [s[0]])
  }

  function Split(path: string): Option<seq<string>> {
    if path == "" || path[0] != '/' then None else Some(Steps(path[1..], ""))
  }

  method SplitPath(path: string) returns (r: Option<seq<string>>)
    ensures r == Split(path)
  {
    if path == "" || path[0] != '/' {
      return None;
    }
    var steps: seq<string>, depth, current := [], 0, "";
    for i := 1 to |path|
      invariant depth == Depth(current)
      invariant Steps(path[1..], "") == steps + Steps(path[i..], current)
    {
      var c := path[i];
      assert path[i..][1..] == path[i + 1..];
      ghost var rest := path[i + 1..];
      hide Depth;
      DepthMore(current, c);
      if c == '/' && depth == 0 {
        assert steps + (Flushed(current) + Steps(rest, "")) == steps + Flushed(current) + Steps(rest, "");
        if current != "" {
          steps := steps + [current];
        }
        current := "";
      } else {
        depth := depth + Turn(c);
        current := current + [c];
      }
    }
    assert path[|path|..] == "" && steps + [] == steps;
    return Some(if current != "" then steps + [current] else steps);
  }

  // Every slash of a step is inside brackets.
  predicate Inside(s: string) { forall i :: 0 <= i < |s| && s[i] == '/' ==> Depth(s[..i]) != 0 }

  // What can be told apart again: no empty step, no slash outside brackets, and balanced brackets
  // in all steps but the last.
  predicate Separable(steps: seq<string>) {
    && (forall k :: 0 <= k < |steps| ==> steps[k] != "" && Inside(steps[k]))
    && (forall k :: 0 <= k < |steps| - 1 ==> Depth(steps[k]) == 0)
  }

  function Joined(steps: seq<string>): string {
    if steps == [] then "" else if |steps| == 1 then steps[0] else steps[0] + "/" + Joined(steps[1..])
  }

  lemma {:induction false} StepsSeparable(s: string, cur: string)
    requires Inside(cur)
    ensures Separable(Steps(s, cur))
    decreases |s|
  {
    if s != "" {
      if s[0] == '/' && Depth(cur) == 0 {
        StepsSeparable(s[1..], "");
      } else {
        var next := cur + [s[0]];
        forall i | 0 <= i < |next| && next[i] == '/'
          ensures Depth(next[..i]) != 0
        {
          assert next[..i] == cur[..i];
          assert i == |cur| ==> cur[..i] == cur;
        }
        StepsSeparable(s[1..], next);
      }
    }
  }

  // A step is read to its end before anything is cut off.
  lemma {:induction false} StepRead(step: string, k: nat, rest: string)
    requires k <= |step| && Inside(step)
    ensures Steps(step[k..] + rest, step[..k]) == Steps(rest, step)
    decreases |step| - k
  {
    if k == |step| {
      assert step[k..] + rest == rest && step[..k] == step;
    } else {
      var s := step[k..] + rest;
      assert s[1..] == step[k + 1..] + rest;
      assert step[..k] + [step[k]] == step[..k + 1];
      StepRead(step, k + 1, rest);
    }
  }

  lemma {:induction false} SplitJoinedIf(steps: seq<string>)
    requires Separable(steps)
    ensures Steps(Joined(steps), "") == steps
    decreases |steps|
  {
    if |steps| == 1 {
      WholeStep(steps[0], "");
      assert steps[0] + "" == steps[0];
    } else if steps != [] {
      var tail := Joined(steps[1..]);
      assert Joined(steps) == steps[0] + ("/" + tail);
      WholeStep(steps[0], "/" + tail);
      SplitJoinedIf(steps[1..]);
      hide Inside, Depth, Joined;
      CutOff(steps[0], tail);
      assert steps == [steps[0]] + steps[1..];
    }
  }

  lemma WholeStep(step: string, rest: string)
    requires Inside(step)
    ensures Steps(step + rest, "") == Steps(rest, step)
  {
    StepRead(step, 0, rest);
    assert step[0..] == step && step[..0] == "";
  }

  lemma CutOff(step: string, tail: string)
    requires step != "" && Depth(step) == 0
    ensures Steps("/" + tail, step) == [step] + Steps(tail, "")
  {
    assert ("/" + tail)[1..] == tail;
  }

  // Steps joined by slashes are split into themselves exactly when they are separable.
  lemma SplitJoinedIff(steps: seq<string>)
    ensures Split("/" + Joined(steps)) == Some(steps) <==> Separable(steps)
  {
    assert ("/" + Joined(steps))[1..] == Joined(steps);
    StepsSeparable(Joined(steps), "");
    if Separable(steps) {
      SplitJoinedIf(steps);
    }
  }

  // Any path and the joined form of its steps address the same thing.
  lemma SplitNormalizes(path: string)
    requires Split(path).Some?
    ensures Split("/" + Joined(Split(path).value)) == Split(path)
  {
    StepsSeparable(path[1..], "");
    SplitJoinedIff(Split(path).value);
  }
}
