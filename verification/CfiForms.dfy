/** What each call frame instruction does to the state, with its operands written as numbers. */
module CfiForms {
  import opened Bytes
  import opened Cfi

  predicate IsInt32(v: int) { -0x8000_0000 <= v < 0x8000_0000 }

  // An int keeps its value, and anything else is taken modulo 2 to the 32.
  lemma Int32Wraps(v: int)
    ensures IsInt32(Int32(v)) && (Int32(v) - v) % 0x1_0000_0000 == 0
    ensures IsInt32(v) ==> Int32(v) == v
  {
  }

  lemma {:induction false} LebCons(x: Leb, rest: seq<Byte>)
    ensures Sleb(x + rest) == Sleb(x)
  {
    hide Uleb;
    UlebReads(x, rest);
    assert (x + rest)[|x| - 1] == x[|x| - 1];
  }

  // An opcode without a block: its operands are read, whatever follows them.
  lemma DecodeOne(op: Byte, x: Leb, rest: seq<Byte>, addrSize: nat)
    requires op in {0x0D, 0x0E, 0x13}
    ensures Decode([op] + x + rest, addrSize) == (Meaning(op, Uleb(x).0, 0, Sleb(x).0, 0), 1 + |x|)
  {
    hide Uleb, Sleb, Operands, IsLeb, Meaning;
    OneOperand(op, x, rest);
    LebCons(x, rest);
  }

  lemma DecodeTwo(op: Byte, x: Leb, y: Leb, rest: seq<Byte>, addrSize: nat)
    requires op in {0x0C, 0x12}
    ensures Decode([op] + x + y + rest, addrSize)
            == (Meaning(op, Uleb(x).0, Uleb(y).0, Sleb(x).0, Sleb(y).0), 1 + |x| + |y|)
  {
    hide Decode, Uleb, Sleb, Operands, IsLeb, Meaning;
    TwoOperands(op, x, y, rest);
    SignedOperands(op, x, y, rest);
    DecodeNoBlock([op] + x + y + rest, addrSize);
  }

  lemma SignedOperands(op: Byte, x: Leb, y: Leb, rest: seq<Byte>)
    ensures var s := [op] + x + y + rest; Sleb(s[1..]) == Sleb(x) && Sleb(s[1 + |x|..]) == Sleb(y)
  {
    hide Uleb, Sleb, IsLeb;
    var s := [op] + x + y + rest;
    assert s[1..] == x + (y + rest) && s[1 + |x|..] == y + rest;
    LebCons(x, y + rest);
    LebCons(y, rest);
  }

  lemma DecodeNoBlock(s: seq<Byte>, addrSize: nat)
    requires s != [] && s[0] in {0x0C, 0x12}
    ensures var n := Operands(s, 1);
            Decode(s, addrSize)
            == (Meaning(s[0], Uleb(s[1..]).0, Uleb(s[n..]).0, Sleb(s[1..]).0, Sleb(s[n..]).0), Operands(s, 2))
  {
    hide Uleb, Sleb, Operands, Meaning;
  }

  lemma RunsOn(s: seq<Byte>, rest: seq<Byte>, act: Act, st: State, env: Env)
    requires s != [] && Decode(s + rest, env.addrSize) == (act, |s|)
    ensures Exec(s + rest, st, env) == Then(Apply(act, st, env), rest, env)
  {
    hide Decode, Apply;
    assert (s + rest)[|s|..] == rest;
    assert Exec([], st, env) == Goes(st);
  }

  // DW_CFA_def_cfa, with an unsigned offset, and its signed form, whose offset is not scaled.
  lemma DefineRuns(r: nat, o: int, rest: seq<Byte>, st: State, env: Env)
    requires IsInt32(r) && IsInt32(o)
    ensures var after := State(st.loc, r, o, true);
            && (o >= 0 ==> Exec([0x0C] + UlebOf(r) + UlebOf(o) + rest, st, env) == Exec(rest, after, env))
            && Exec([0x12] + UlebOf(r) + SlebOf(o) + rest, st, env) == Exec(rest, after, env)
  {
    hide Uleb, Sleb, IsLeb, Decode, Exec, UlebOf, SlebOf, Int32;
    UlebOfReads(r);
    SlebOfReads(o);
    Int32Wraps(r);
    Int32Wraps(o);
    if o >= 0 {
      UlebOfReads(o);
      DecodeTwo(0x0C, UlebOf(r), UlebOf(o), rest, env.addrSize);
      RunsOn([0x0C] + UlebOf(r) + UlebOf(o), rest, SetCfa(r, o), st, env);
    }
    DecodeTwo(0x12, UlebOf(r), SlebOf(o), rest, env.addrSize);
    RunsOn([0x12] + UlebOf(r) + SlebOf(o), rest, SetCfa(r, o), st, env);
  }

  // A definition at the end is the answer, unless its register number is negative as an int.
  lemma DefinitionAnswers(r: nat, o: nat, st: State, env: Env)
    requires r < 0x1_0000_0000 && o < 0x8000_0000
    ensures AnswerOf(Exec([0x0C] + UlebOf(r) + UlebOf(o), st, env))
            == if r < 0x8000_0000 then Rule(r, o) else NoRule
  {
    hide Uleb, IsLeb, Decode, Exec, UlebOf, Int32;
    var s := [0x0C] + UlebOf(r) + UlebOf(o);
    UlebOfReads(r);
    UlebOfReads(o);
    Int32Wraps(r);
    Int32Wraps(o);
    DecodeTwo(0x0C, UlebOf(r), UlebOf(o), [], env.addrSize);
    assert s + [] == s;
    RunsOn(s, [], SetCfa(Int32(r), Int32(o)), st, env);
    ExecNothing(State(st.loc, Int32(r), Int32(o), true), env);
  }

  // DW_CFA_def_cfa_register establishes a rule even if there was none.
  lemma RegisterRuns(r: nat, rest: seq<Byte>, st: State, env: Env)
    requires IsInt32(r)
    ensures Exec([0x0D] + UlebOf(r) + rest, st, env) == Exec(rest, State(st.loc, r, st.off, true), env)
  {
    hide Uleb, Sleb, IsLeb, Decode, Exec, UlebOf, Int32;
    UlebOfReads(r);
    Int32Wraps(r);
    DecodeOne(0x0D, UlebOf(r), rest, env.addrSize);
    RunsOn([0x0D] + UlebOf(r), rest, SetReg(r), st, env);
  }

  // DW_CFA_def_cfa_offset and its signed form do not.
  lemma OffsetRuns(o: int, rest: seq<Byte>, st: State, env: Env)
    requires IsInt32(o)
    ensures var after := State(st.loc, st.reg, o, st.have);
            && (o >= 0 ==> Exec([0x0E] + UlebOf(o) + rest, st, env) == Exec(rest, after, env))
            && Exec([0x13] + SlebOf(o) + rest, st, env) == Exec(rest, after, env)
  {
    hide Uleb, Sleb, IsLeb, Decode, Exec, UlebOf, SlebOf, Int32;
    SlebOfReads(o);
    Int32Wraps(o);
    if o >= 0 {
      UlebOfReads(o);
      DecodeOne(0x0E, UlebOf(o), rest, env.addrSize);
      RunsOn([0x0E] + UlebOf(o), rest, SetOff(o), st, env);
    }
    DecodeOne(0x13, SlebOf(o), rest, env.addrSize);
    RunsOn([0x13] + SlebOf(o), rest, SetOff(o), st, env);
  }

  // DW_CFA_def_cfa_expression leaves no rule, and its block is skipped.
  lemma ExpressionRuns(block: seq<Byte>, rest: seq<Byte>, st: State, env: Env)
    ensures var s := [0x0F] + UlebOf(|block|) + block;
            && Exec(s + rest, st, env) == Exec(rest, State(st.loc, -1, st.off, false), env)
            && AnswerOf(Exec(s, st, env)) == NoRule
  {
    hide Uleb, IsLeb, UlebOf, Decode, Exec;
    var s := [0x0F] + UlebOf(|block|) + block;
    SkipsBlock(block, rest, st, env);
    SkipsBlock(block, [], st, env);
    assert s + [] == s;
    ExecNothing(State(st.loc, -1, st.off, false), env);
  }

  lemma ExecNothing(st: State, env: Env)
    ensures Exec([], st, env) == Goes(st)
  {
  }

  lemma SkipsBlock(block: seq<Byte>, rest: seq<Byte>, st: State, env: Env)
    ensures var s := [0x0F] + UlebOf(|block|) + block;
            Exec(s + rest, st, env) == Exec(rest, State(st.loc, -1, st.off, false), env)
  {
    hide Uleb, IsLeb, UlebOf, Decode, Exec;
    var n := UlebOf(|block|);
    UlebOfReads(|block|);
    DecodeExpression(n, block + rest, env.addrSize);
    Regroup([0x0F], n, block, rest);
    RunsOn([0x0F] + n + block, rest, DropCfa, st, env);
  }

  lemma DecodeExpression(n: Leb, rest: seq<Byte>, addrSize: nat)
    ensures Decode([0x0F] + n + rest, addrSize) == (DropCfa, 1 + |n| + Uleb(n).0)
  {
    hide Uleb, Sleb, Operands, IsLeb;
    OneOperand(0x0F, n, rest);
  }

  // The short advance, modulo 2 to the 32: it stops the program if it would pass pc.
  lemma AdvanceRuns(d: nat, rest: seq<Byte>, st: State, env: Env)
    requires d < 0x40
    ensures var to := (st.loc + d * env.align) % 0x1_0000_0000;
            Exec([0x40 + d] + rest, st, env)
            == if to > env.pc then Halts(st) else Exec(rest, State(to, st.reg, st.off, st.have), env)
  {
    hide Operands, Uleb, Sleb, Exec;
    assert Decode([0x40 + d] + rest, env.addrSize) == (Move(d), 1);
    hide Decode;
    RunsOn([0x40 + d], rest, Move(d), st, env);
  }

  // The wide forms hold the same number in one, two or four bytes, lowest first.
  lemma WideRuns(d: seq<Byte>, rest: seq<Byte>, st: State, env: Env)
    requires |d| in {1, 2, 4}
    ensures var op: Byte := if |d| == 1 then 0x02 else if |d| == 2 then 0x03 else 0x04;
            var to := (st.loc + Little(d) * env.align) % 0x1_0000_0000;
            Exec([op] + d + rest, st, env)
            == if to > env.pc then Halts(st) else Exec(rest, State(to, st.reg, st.off, st.have), env)
  {
    hide Decode, Exec, Little;
    var op: Byte := if |d| == 1 then 0x02 else if |d| == 2 then 0x03 else 0x04;
    DecodeMove(AdvanceWide(d), rest, env);
    RunsOn([op] + d, rest, Move(Little(d)), st, env);
  }

  // An advance whose bytes are not all there reads outside the program.
  lemma ShortAdvanceOverruns(op: Byte, d: seq<Byte>, st: State, env: Env)
    requires (op == 0x02 && |d| < 1) || (op == 0x03 && |d| < 2) || (op == 0x04 && |d| < 4)
             || (op == 0x01 && |d| < env.addrSize)
    ensures AnswerOf(Exec([op] + d, st, env)) == OutsideRead
  {
    hide Operands, Uleb, Sleb;
    assert Decode([op] + d, env.addrSize).0 == PastEnd;
  }

  // Rules for other registers are skipped, each with its operands.
  lemma RulesSkipped(op: Byte, x: Leb, y: Leb, rest: seq<Byte>, st: State, env: Env)
    ensures op == 0x00 ==> Exec([op] + rest, st, env) == Exec(rest, st, env)
    ensures op in {0x06, 0x07, 0x08} ==> Exec([op] + x + rest, st, env) == Exec(rest, st, env)
    ensures op in {0x05, 0x09, 0x11, 0x14, 0x15} ==> Exec([op] + x + y + rest, st, env) == Exec(rest, st, env)
    ensures 0x80 <= op < 0xC0 ==> Exec([op] + x + rest, st, env) == Exec(rest, st, env)
    ensures 0xC0 <= op ==> Exec([op] + rest, st, env) == Exec(rest, st, env)
  {
    hide Decode, Exec, IsLeb;
    if op == 0x00 {
      Skips(SaveRule(op, [], []), rest, st, env);
      assert [op] + [] + [] == [op];
    } else if op in {0x06, 0x07, 0x08} {
      Skips(SaveRule(op, x, []), rest, st, env);
      assert [op] + x + [] == [op] + x;
    } else if op in {0x05, 0x09, 0x11, 0x14, 0x15} {
      Skips(SaveRule(op, x, y), rest, st, env);
    } else if 0x80 <= op < 0xC0 {
      Skips(SaveAt(op - 0x80, x), rest, st, env);
    } else if 0xC0 <= op {
      Skips(Restore(op - 0xC0), rest, st, env);
    }
  }

  // The two with an expression, which is a block, too.
  lemma ExpressionsSkipped(op: Byte, x: Leb, block: seq<Byte>, rest: seq<Byte>, st: State, env: Env)
    requires op == 0x10 || op == 0x16
    ensures Exec([op] + x + UlebOf(|block|) + block + rest, st, env) == Exec(rest, st, env)
  {
    hide Decode, Exec, IsLeb, UlebOf, Uleb;
    UlebOfReads(|block|);
    Skips(SaveExpr(op, x, UlebOf(|block|), block), rest, st, env);
  }

  lemma Skips(i: Instr, rest: seq<Byte>, st: State, env: Env)
    requires Fits(i, env) && (i.SaveAt? || i.Restore? || i.SaveRule? || i.SaveExpr?)
    ensures Exec(Enc(i, env) + rest, st, env) == Exec(rest, st, env)
  {
    hide Fits, Enc, Exec;
    ExecEnc(i, rest, st, env);
  }

  // Remembering and restoring a state does nothing.
  lemma RememberRuns(rest: seq<Byte>, st: State, env: Env)
    ensures Exec([0x0A] + rest, st, env) == Exec([0x0B] + rest, st, env) == Exec(rest, st, env)
  {
    hide Decode, Exec;
    DecodeKeep(0x0A, rest, env.addrSize);
    DecodeKeep(0x0B, rest, env.addrSize);
    RunsOn([0x0A], rest, Keep, st, env);
    RunsOn([0x0B], rest, Keep, st, env);
  }

  lemma DecodeKeep(op: Byte, rest: seq<Byte>, addrSize: nat)
    requires op in {0x0A, 0x0B}
    ensures Decode([op] + rest, addrSize) == (Keep, 1)
  {
    hide Uleb, Sleb;
  }

  // An opcode that is not known stops the program, and the state so far is the answer.
  lemma UnknownStops(op: Byte, rest: seq<Byte>, st: State, env: Env)
    requires 0x17 <= op < 0x40
    ensures Exec([op] + rest, st, env) == Halts(st)
  {
    hide Operands, Uleb, Sleb;
    assert Decode([op] + rest, env.addrSize).0 == Stop;
  }
}
