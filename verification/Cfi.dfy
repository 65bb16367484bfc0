/** The call frame instruction interpreter (src/elf_parser.c, cfi_run) against the row table of DWARF 4. */
module Cfi {
  import opened Bytes

  // ----- LEB128 -----

  // The value of an unsigned LEB128 number at the front of s, and the bytes it takes.
  function Uleb(s: seq<Byte>): (r: (nat, nat))
    ensures r.1 <= |s|
    decreases |s|
  {
    if s == [] then (0, 0)
    else if s[0] < 0x80 then (s[0], 1)
    else
      var (v, n) := Uleb(s[1..]);
      (s[0] - 0x80 + 0x80 * v, n + 1)
  }

  function Pow128(n: nat): nat { if n == 0 then 1 else 0x80 * Pow128(n - 1) }

  // The signed reading of the same bytes: bit 6 of the last byte is the sign.
  function Sleb(s: seq<Byte>): (r: (int, nat))
    ensures r.1 == Uleb(s).1 <= |s|
  {
    var (v, n) := Uleb(s);
    if n > 0 && s[n - 1] / 0x40 % 2 == 1 then (v - Pow128(n), n) else (v, n)
  }

  // The number read so far, and more of it at its weight.
  function Total(v: nat, weight: nat, rest: nat): nat { v + weight * rest }

  // One more byte of a number: what is left of the value weighs 128 times as much.
  lemma UlebStep(s: seq<Byte>, p: nat, v: nat, weight: nat)
    requires p < |s|
    ensures s[p] < 0x80 ==> Uleb(s[p..]).1 == 1 && Total(v, weight, Uleb(s[p..]).0) == Total(v, weight, s[p])
    ensures s[p] >= 0x80 ==>
              && Uleb(s[p..]).1 == 1 + Uleb(s[p + 1..]).1
              && Total(v, weight, Uleb(s[p..]).0)
                 == Total(Total(v, weight, s[p] - 0x80), 0x80 * weight, Uleb(s[p + 1..]).0)
  {
    assert s[p..][1..] == s[p + 1..];
    if s[p] >= 0x80 {
      Distribute(weight, s[p] - 0x80, Uleb(s[p + 1..]).0);
    }
  }

  lemma Distribute(w: nat, a: nat, b: nat)
    ensures w * (a + 0x80 * b) == w * a + 0x80 * w * b
  {
  }

  method ReadUleb(s: seq<Byte>, at: nat) returns (v: nat, p: nat)
    requires at <= |s|
    ensures at <= p <= |s| && (v, p - at) == Uleb(s[at..])
  {
    v, p := 0, at;
    var weight: nat := 1;
    while p < |s|
      invariant at <= p <= |s|
      invariant Uleb(s[at..]).0 == Total(v, weight, Uleb(s[p..]).0)
      invariant Uleb(s[at..]).1 == p - at + Uleb(s[p..]).1
    {
      hide Uleb, Total;
      UlebStep(s, p, v, weight);
      var b := s[p];
      p := p + 1;
      if b < 0x80 {
        v := Total(v, weight, b);
        return;
      }
      v := Total(v, weight, b - 0x80);
      weight := 0x80 * weight;
    }
  }

  method ReadSleb(s: seq<Byte>, at: nat) returns (v: int, p: nat)
    requires at <= |s|
    ensures at <= p <= |s| && (v, p - at) == Sleb(s[at..])
  {
    v, p := ReadUleb(s, at);
    if p > at && s[p - 1] / 0x40 % 2 == 1 {
      v := v - Pow128(p - at);
    }
  }

  // A complete number: continuation bits on all bytes but the last.
  predicate IsLeb(x: seq<Byte>) {
    x != [] && x[|x| - 1] < 0x80 && forall i :: 0 <= i < |x| - 1 ==> x[i] >= 0x80
  }

  lemma {:induction false} UlebReads(x: seq<Byte>, rest: seq<Byte>)
    requires IsLeb(x)
    ensures Uleb(x + rest) == Uleb(x) && Uleb(x).1 == |x|
    decreases |x|
  {
    assert (x + rest)[1..] == x[1..] + rest;
    if |x| > 1 {
      UlebReads(x[1..], rest);
    }
  }

  // ----- What a LEB128 number denotes, section 7.6 of DWARF 4 -----

  // The i-th digit of v to the base 128.
  function Digit(v: nat, i: nat): nat { if i == 0 then v % 128 else Digit(v / 128, i - 1) }

  // The low seven bits of the bytes of a complete number are its digits, and it has no others.
  lemma {:induction false} UlebDigits(x: seq<Byte>, i: nat)
    requires IsLeb(x)
    ensures Digit(Uleb(x).0, i) == if i < |x| then x[i] % 128 else 0
    decreases |x|, i
  {
    if |x| > 1 {
      var v := Uleb(x[1..]).0;
      assert Uleb(x).0 == x[0] - 128 + 128 * v;
      assert Uleb(x).0 / 128 == v && Uleb(x).0 % 128 == x[0] - 128;
      if i > 0 {
        UlebDigits(x[1..], i - 1);
      }
    } else if i > 0 {
      NoDigits(i - 1);
    }
  }

  lemma {:induction false} NoDigits(i: nat)
    ensures Digit(0, i) == 0
  {
    if i > 0 {
      NoDigits(i - 1);
    }
  }

  // So a number is below 2 to the 7n.
  lemma {:induction false} UlebBound(x: seq<Byte>)
    requires IsLeb(x)
    ensures Uleb(x).0 < Pow2(7 * |x|)
    decreases |x|
  {
    assert Pow2(7) == 128 by { assert Pow2(3) == 8 && Pow2(5) == 32; }
    if |x| > 1 {
      UlebBound(x[1..]);
      Pow2By7(7 * |x| - 7);
    }
  }

  lemma Pow2By7(n: nat)
    ensures Pow2(n + 7) == 128 * Pow2(n)
  {
    assert Pow2(n + 4) == 2 * Pow2(n + 3) == 4 * Pow2(n + 2) == 8 * Pow2(n + 1);
    assert Pow2(n + 7) == 2 * Pow2(n + 6) == 4 * Pow2(n + 5);
  }

  lemma {:induction false} PowersAgree(n: nat)
    ensures Pow128(n) == Pow2(7 * n)
  {
    if n > 0 {
      PowersAgree(n - 1);
      Pow2By7(7 * n - 7);
    }
  }

  // The signed reading is the unsigned one modulo 2 to the 7n, taken between minus and plus half of that.
  lemma SlebIsSigned(x: seq<Byte>)
    requires IsLeb(x)
    ensures var n, u, s := |x|, Uleb(x).0, Sleb(x).0;
            && (s == u || s == u - Pow2(7 * n))
            && 0 <= s + Pow2(7 * n - 1) && s < Pow2(7 * n - 1)
  {
    UlebReads(x, []);
    assert x + [] == x;
    PowersAgree(|x|);
    UlebBound(x);
    TopBit(x);
    assert Pow2(7 * |x|) == 2 * Pow2(7 * |x| - 1);
  }

  // Bit 6 of the last byte is the top bit.
  lemma {:induction false} TopBit(x: seq<Byte>)
    requires IsLeb(x)
    ensures Uleb(x).0 >= Pow2(7 * |x| - 1) <==> x[|x| - 1] / 0x40 % 2 == 1
    decreases |x|
  {
    if |x| > 1 {
      TopBit(x[1..]);
      Pow2By7(7 * |x| - 8);
    } else {
      assert Pow2(6) == 64 by { assert Pow2(3) == 8 && Pow2(5) == 32; }
    }
  }

  // The shortest encodings, by division by 128.
  function UlebOf(v: nat): (x: seq<Byte>) {
    if v < 128 then [v] else [128 + v % 128] + UlebOf(v / 128)
  }

  function SlebOf(v: int): (x: seq<Byte>)
    decreases if v < 0 then -v else v
  {
    if -64 <= v < 64 then [v % 128] else [128 + v % 128] + SlebOf(v / 128)
  }

  lemma {:induction false} UlebOfReads(v: nat)
    ensures IsLeb(UlebOf(v)) && Uleb(UlebOf(v)).0 == v
  {
    if v >= 128 {
      UlebOfReads(v / 128);
      assert UlebOf(v)[1..] == UlebOf(v / 128);
    }
  }

  lemma {:induction false} SlebOfReads(v: int)
    ensures IsLeb(SlebOf(v)) && Sleb(SlebOf(v)).0 == v
    decreases if v < 0 then -v else v
  {
    hide Sleb, IsLeb;
    if -64 <= v < 64 {
      SlebOne(v);
    } else {
      SlebOfReads(v / 128);
      SlebCons(128 + v % 128, SlebOf(v / 128));
    }
  }

  lemma SlebOne(v: int)
    requires -64 <= v < 64
    ensures IsLeb([v % 128]) && Sleb([v % 128]).0 == v
  {
    assert Pow128(1) == 128;
    assert Uleb([v % 128]) == (v % 128, 1);
  }

  lemma SlebCons(b: Byte, rest: seq<Byte>)
    requires b >= 128 && IsLeb(rest)
    ensures IsLeb([b] + rest) && Sleb([b] + rest).0 == b - 128 + 128 * Sleb(rest).0
  {
    var x := [b] + rest;
    assert x[1..] == rest;
    UlebReads(rest, []);
    assert rest + [] == rest;
    assert Uleb(x) == (b - 128 + 128 * Uleb(rest).0, |rest| + 1);
    assert x[|x| - 1] == rest[|rest| - 1];
  }

  // ----- One instruction, from its bytes -----

  datatype Act =
    | Move(delta: nat)                // advance the location, in code alignment units
    | Jump(addr: nat)                 // set the location
    | SetCfa(reg: int, off: int)
    | SetReg(reg: int)
    | SetOff(off: int)
    | Keep                            // nothing about the CFA
    | DropCfa                         // the CFA becomes an expression
    | Stop                            // unknown opcode
    | PastEnd                         // operand bytes outside the program

  // C conversions to 32-bit int.
  function Int32(v: int): int {
    var w := v % WORD32;
    if w >= WORD32 / 2 then w - WORD32 else w
  }

  // Skip k LEB128 operands behind the opcode.
  function Operands(s: seq<Byte>, k: nat): (n: nat)
    requires s != []
    ensures 1 <= n <= |s|
  {
    if k == 0 then 1
    else
      var n := Operands(s, k - 1);
      n + Uleb(s[n..]).1
  }

  // The bytes of the fixed-size operand of the location opcodes.
  function Width(op: Byte, addrSize: nat): nat {
    match op
    case 0x01 => addrSize
    case 0x02 => 1
    case 0x03 => 2
    case 0x04 => 4
    case _ => 0
  }

  // How many LEB128 operands an opcode of the extended kind takes.
  function Arity(op: Byte): (k: nat)
    ensures k <= 2
  {
    match op
    case 0x05 => 2 case 0x06 => 1 case 0x07 => 1 case 0x08 => 1 case 0x09 => 2
    case 0x0C => 2 case 0x0D => 1 case 0x0E => 1 case 0x0F => 1
    case 0x10 => 2 case 0x11 => 2 case 0x12 => 2 case 0x13 => 1
    case 0x14 => 2 case 0x15 => 2 case 0x16 => 2
    case _ => 0
  }

  predicate Known(op: Byte) { op <= 0x16 }

  // A block of bytes follows the last operand, which is its length.
  predicate HasBlock(op: Byte) { op == 0x0F || op == 0x10 || op == 0x16 }

  // What an extended opcode asks for, from its raw operands.
  function Meaning(op: Byte, u1: nat, u2: nat, s1: int, s2: int): Act {
    match op
    case 0x0C => SetCfa(Int32(u1), Int32(u2))
    case 0x0D => SetReg(Int32(u1))
    case 0x0E => SetOff(Int32(u1))
    case 0x0F => DropCfa
    case 0x12 => SetCfa(Int32(u1), Int32(s2))
    case 0x13 => SetOff(Int32(s1))
    case _ => if Known(op) then Keep else Stop
  }

  // What the opcode at the front of s asks for, and where the next one starts.
  function Decode(s: seq<Byte>, addrSize: nat): (r: (Act, nat))
    requires s != []
    ensures r.1 >= 1
  {
    var op := s[0];
    if op / 0x40 == 1 then (Move(op % 0x40), 1)
    else if op / 0x40 == 2 then (Keep, Operands(s, 1))
    else if op / 0x40 == 3 then (Keep, 1)
    else if 1 <= op <= 4 then
      var w := Width(op, addrSize);
      if |s| < 1 + w then (PastEnd, 1 + w)
      else if op == 1 then (Jump(Little(s[1..1 + w])), 1 + w)
      else (Move(Little(s[1..1 + w])), 1 + w)
    else
      var k := Arity(op);
      var n1 := if k > 0 then Operands(s, 1) else 1;
      var u1 := if k > 0 then Uleb(s[1..]).0 else 0;
      var s1 := if k > 0 then Sleb(s[1..]).0 else 0;
      var u2 := if k > 1 then Uleb(s[n1..]).0 else 0;
      var s2 := if k > 1 then Sleb(s[n1..]).0 else 0;
      var block := if !HasBlock(op) then 0 else if k == 1 then u1 else u2;
      (Meaning(op, u1, u2, s1, s2), Operands(s, k) + block)
  }

  lemma Drop(s: seq<Byte>, p: nat, n: nat)
    requires p + n <= |s|
    ensures s[p..][n..] == s[p + n..]
  {
  }

  lemma OperandsAt(s: seq<Byte>)
    requires s != []
    ensures Operands(s, 0) == 1
    ensures Operands(s, 1) == 1 + Uleb(s[1..]).1
    ensures Operands(s, 2) == Operands(s, 1) + Uleb(s[Operands(s, 1)..]).1
  {
  }

  method ReadFixed(s: seq<Byte>, at: nat, n: nat) returns (v: nat)
    requires at + n <= |s|
    ensures v == Little(s[at..at + n])
  {
    v := 0;
    var i: nat := n;
    while i > 0
      invariant i <= n && v == Little(s[at + i..at + n])
    {
      i := i - 1;
      assert s[at + i..at + n][1..] == s[at + i + 1..at + n];
      v := s[at + i] + 0x100 * v;
    }
  }

  // The operands of the extended opcode at p.
  method ReadOperands(s: seq<Byte>, p: nat, k: nat) returns (u1: nat, s1: int, u2: nat, s2: int, q: nat)
    requires p < |s| && k <= 2
    ensures q == p + Operands(s[p..], k) && q <= |s|
    ensures if k == 0 then u1 == 0 && s1 == 0 else u1 == Uleb(s[p..][1..]).0 && s1 == Sleb(s[p..][1..]).0
    ensures k < 2 ==> u2 == 0 && s2 == 0
    ensures k == 2 ==> var n := Operands(s[p..], 1);
                       u2 == Uleb(s[p..][n..]).0 && s2 == Sleb(s[p..][n..]).0
  {
    hide Uleb, Sleb, Operands;
    OperandsAt(s[p..]);
    u1, s1, u2, s2, q := 0, 0, 0, 0, p + 1;
    Drop(s, p, 1);
    if k > 0 {
      u1, q := ReadUleb(s, p + 1);
      s1, q := ReadSleb(s, p + 1);
      Drop(s, p, q - p);
    }
    if k > 1 {
      var at := q;
      u2, q := ReadUleb(s, at);
      s2, q := ReadSleb(s, at);
    }
  }

  method Next(s: seq<Byte>, p: nat, addrSize: nat) returns (act: Act, q: nat)
    requires p < |s|
    ensures q > p && (act, q - p) == Decode(s[p..], addrSize)
  {
    hide Uleb, Sleb, Operands, Meaning, Little;
    var op := s[p];
    OperandsAt(s[p..]);
    if op / 0x40 == 1 {
      return Move(op % 0x40), p + 1;
    }
    if op / 0x40 == 2 {
      var _, _, _, _, after := ReadOperands(s, p, 1);
      return Keep, after;
    }
    if op / 0x40 == 3 {
      return Keep, p + 1;
    }
    if 1 <= op <= 4 {
      var w := Width(op, addrSize);
      q := p + 1 + w;
      if q > |s| {
        return PastEnd, q;
      }
      var v := ReadFixed(s, p + 1, w);
      assert s[p..][1..1 + w] == s[p + 1..p + 1 + w];
      return if op == 1 then Jump(v) else Move(v), q;
    }
    var k := Arity(op);
    var u1, s1, u2, s2, after := ReadOperands(s, p, k);
    act := Meaning(op, u1, u2, s1, s2);
    q := after + if !HasBlock(op) then 0 else if k == 1 then u1 else u2;
  }

  // ----- The interpreter -----

  datatype Env = Env(align: nat, addrSize: nat, pc: nat)

  datatype State = State(loc: nat, reg: int, off: int, have: bool)

  datatype Progress =
    | Goes(st: State)      // the program ended before an advance past pc
    | Halts(st: State)     // an advance would have passed pc, or an opcode was unknown
    | Overruns             // operand bytes outside the program were read

  function Apply(act: Act, st: State, env: Env): Progress {
    match act
    case Move(d) =>
      var l := (st.loc + d * env.align) % WORD32;
      if l > env.pc then Halts(st) else Goes(st.(loc := l))
    case Jump(a) => if a > env.pc then Halts(st) else Goes(st.(loc := a))
    case SetCfa(r, o) => Goes(st.(reg := r, off := o, have := true))
    case SetReg(r) => Goes(st.(reg := r, have := true))
    case SetOff(o) => Goes(st.(off := o))
    case Keep => Goes(st)
    case DropCfa => Goes(st.(reg := -1, have := false))
    case Stop => Halts(st)
    case PastEnd => Overruns
  }

  function Exec(s: seq<Byte>, st: State, env: Env): Progress
    decreases |s|
  {
    if s == [] then Goes(st)
    else
      var (act, n) := Decode(s, env.addrSize);
      var r := Apply(act, st, env);
      if r.Goes? && n < |s| then Exec(s[n..], r.st, env) else r
  }

  function Then(r: Progress, s: seq<Byte>, env: Env): Progress {
    if r.Goes? then Exec(s, r.st, env) else r
  }

  method RunPass(s: seq<Byte>, st: State, env: Env) returns (r: Progress)
    ensures r == Exec(s, st, env)
  {
    hide Decode, Apply;
    r := Goes(st);
    var p := 0;
    while p < |s| && r.Goes?
      invariant Exec(s, st, env) == if p < |s| && r.Goes? then Exec(s[p..], r.st, env) else r
    {
      var act, q := Next(s, p, env.addrSize);
      r := Apply(act, r.st, env);
      if q < |s| {
        Drop(s, p, q - p);
      }
      p := q;
    }
  }

  datatype Answer = Rule(reg: int, off: int) | NoRule | OutsideRead

  function AnswerOf(r: Progress): Answer {
    if r.Overruns? then OutsideRead
    else if !r.st.have || r.st.reg < 0 then NoRule
    else Rule(r.st.reg, r.st.off)
  }

  method CfiRun(cie: seq<Byte>, fde: seq<Byte>, initLoc: nat, env: Env) returns (a: Answer)
    ensures a == AnswerOf(Then(Exec(cie, State(initLoc, -1, 0, false), env), fde, env))
  {
    var r := RunPass(cie, State(initLoc, -1, 0, false), env);
    if r.Goes? {
      r := RunPass(fde, r.st, env);
    }
    if r.Overruns? {
      return OutsideRead;
    }
    if !r.st.have || r.st.reg < 0 {
      return NoRule;
    }
    return Rule(r.st.reg, r.st.off);
  }

  // ----- Call frame instructions, DWARF 4 sections 6.4.2 and 7.23 -----

  type Leb = x: seq<Byte> | IsLeb(x) witness [0]

  datatype Instr =
    | Advance(delta: nat)                     // DW_CFA_advance_loc
    | AdvanceWide(wide: seq<Byte>)            // DW_CFA_advance_loc1, loc2 and loc4
    | SetLoc(addr: seq<Byte>)
    | DefCfa(reg: Leb, off: Leb)
    | DefCfaRegister(reg: Leb)
    | DefCfaOffset(off: Leb)
    | SaveAt(low: nat, off: Leb)              // DW_CFA_offset
    | Restore(low: nat)
    | SaveRule(op: Byte, first: seq<Byte>, second: seq<Byte>)
    | SaveExpr(op: Byte, reg: Leb, length: Leb, block: seq<Byte>)

  // The register rules whose operands are skipped: the nop and everything from offset_extended to
  // val_offset_sf but the CFA forms and the saved-state stack.
  predicate SkippedRule(op: Byte) {
    op in {0x00, 0x05, 0x06, 0x07, 0x08, 0x09, 0x11, 0x14, 0x15}
  }

  predicate Fits(i: Instr, env: Env) {
    match i
    case Advance(d) => d < 0x40
    case AdvanceWide(d) => |d| in {1, 2, 4}
    case SetLoc(a) => |a| == env.addrSize
    case SaveAt(low, _) => low < 0x40
    case Restore(low) => low < 0x40
    case SaveRule(op, x, y) =>
      && SkippedRule(op)
      && (if op in {0x05, 0x06, 0x07, 0x08, 0x09, 0x11, 0x14, 0x15} then IsLeb(x) else x == [])
      && (if op in {0x05, 0x09, 0x11, 0x14, 0x15} then IsLeb(y) else y == [])
    case SaveExpr(op, _, n, b) => op in {0x10, 0x16} && Uleb(n).0 == |b|
    case _ => true
  }

  function Enc(i: Instr, env: Env): (s: seq<Byte>)
    requires Fits(i, env)
    ensures s != []
  {
    match i
    case Advance(d) => [0x40 + d]
    case AdvanceWide(d) => [if |d| == 1 then 2 else if |d| == 2 then 3 else 4] + d
    case SetLoc(a) => [0x01] + a
    case DefCfa(r, o) => [0x0C] + r + o
    case DefCfaRegister(r) => [0x0D] + r
    case DefCfaOffset(o) => [0x0E] + o
    case SaveAt(low, o) => [0x80 + low] + o
    case Restore(low) => [0xC0 + low]
    case SaveRule(op, x, y) => [op] + x + y
    case SaveExpr(op, r, n, b) => [op] + r + n + b
  }

  predicate AllFit(prog: seq<Instr>, env: Env) { forall k :: 0 <= k < |prog| ==> Fits(prog[k], env) }

  function EncAll(prog: seq<Instr>, env: Env): seq<Byte>
    requires AllFit(prog, env)
  {
    if prog == [] then [] else Enc(prog[0], env) + EncAll(prog[1..], env)
  }

  function ActOf(i: Instr): Act {
    match i
    case Advance(d) => Move(d)
    case AdvanceWide(d) => Move(Little(d))
    case SetLoc(a) => Jump(Little(a))
    case DefCfa(r, o) => SetCfa(Int32(Uleb(r).0), Int32(Uleb(o).0))
    case DefCfaRegister(r) => SetReg(Int32(Uleb(r).0))
    case DefCfaOffset(o) => SetOff(Int32(Uleb(o).0))
    case _ => Keep
  }

  // Where the operands of an opcode lie.
  lemma OneOperand(op: Byte, x: Leb, rest: seq<Byte>)
    ensures var s := [op] + x + rest;
            s[1..] == x + rest && Uleb(s[1..]) == Uleb(x) && Operands(s, 1) == 1 + |x| && s[1 + |x|..] == rest
  {
    hide Uleb, Operands, IsLeb;
    var s := [op] + x + rest;
    assert s[1..] == x + rest;
    UlebReads(x, rest);
    OperandsAt(s);
  }

  lemma Regroup(a: seq<Byte>, b: seq<Byte>, c: seq<Byte>, d: seq<Byte>)
    ensures a + b + c + d == a + b + (c + d)
  {
  }

  lemma TwoOperands(op: Byte, x: Leb, y: Leb, rest: seq<Byte>)
    ensures var s := [op] + x + y + rest;
            && |s| >= 1 + |x| && Uleb(s[1..]) == Uleb(x) && Operands(s, 1) == 1 + |x|
            && Uleb(s[1 + |x|..]) == Uleb(y) && Operands(s, 2) == 1 + |x| + |y|
  {
    hide Uleb, Operands, IsLeb;
    var s := [op] + x + (y + rest);
    Regroup([op], x, y, rest);
    OneOperand(op, x, y + rest);
    UlebReads(y, rest);
    OperandsAt(s);
  }

  lemma DecodeSkipped(op: Byte, x: seq<Byte>, y: seq<Byte>, rest: seq<Byte>, env: Env)
    requires Fits(SaveRule(op, x, y), env)
    ensures Decode([op] + x + y + rest, env.addrSize) == (Keep, 1 + |x| + |y|)
  {
    hide Uleb, Sleb, Operands;
    var s := [op] + x + y + rest;
    if Arity(op) == 0 {
      OperandsAt(s);
    } else if Arity(op) == 1 {
      assert s == [op] + x + rest;
      OneOperand(op, x, rest);
    } else {
      TwoOperands(op, x, y, rest);
    }
  }

  // An encoded instruction is decoded as itself, whatever follows it.
  lemma DecodeEnc(i: Instr, rest: seq<Byte>, env: Env)
    requires Fits(i, env)
    ensures Decode(Enc(i, env) + rest, env.addrSize) == (ActOf(i), |Enc(i, env)|)
  {
    if Moves(i) {
      DecodeMove(i, rest, env);
    } else if i.DefCfa? || i.DefCfaRegister? || i.DefCfaOffset? {
      DecodeDefine(i, rest, env);
    } else {
      DecodeRule(i, rest, env);
    }
  }

  lemma DecodeMove(i: Instr, rest: seq<Byte>, env: Env)
    requires Fits(i, env) && Moves(i)
    ensures Decode(Enc(i, env) + rest, env.addrSize) == (ActOf(i), |Enc(i, env)|)
  {
    hide Uleb, Sleb, Operands, Little;
    var s := Enc(i, env) + rest;
    if i.AdvanceWide? {
      assert s[1..1 + |i.wide|] == i.wide;
    } else if i.SetLoc? {
      assert s[1..1 + |i.addr|] == i.addr;
    }
  }

  lemma DecodeDefine(i: Instr, rest: seq<Byte>, env: Env)
    requires i.DefCfa? || i.DefCfaRegister? || i.DefCfaOffset?
    ensures Decode(Enc(i, env) + rest, env.addrSize) == (ActOf(i), |Enc(i, env)|)
  {
    hide Uleb, Sleb, Operands, Int32;
    if i.DefCfa? {
      TwoOperands(0x0C, i.reg, i.off, rest);
    } else if i.DefCfaRegister? {
      OneOperand(0x0D, i.reg, rest);
    } else {
      OneOperand(0x0E, i.off, rest);
    }
  }

  lemma DecodeRule(i: Instr, rest: seq<Byte>, env: Env)
    requires Fits(i, env) && (i.SaveAt? || i.Restore? || i.SaveRule? || i.SaveExpr?)
    ensures Decode(Enc(i, env) + rest, env.addrSize) == (ActOf(i), |Enc(i, env)|)
  {
    hide Decode, Uleb, IsLeb;
    if i.SaveRule? {
      DecodeSkipped(i.op, i.first, i.second, rest, env);
    } else if i.SaveAt? {
      DecodeSaveAt(i.low, i.off, rest, env);
    } else if i.Restore? {
      DecodeRestore(i.low, rest, env);
    } else {
      DecodeExpr(i.op, i.reg, i.length, i.block, rest, env);
    }
  }

  lemma DecodeSaveAt(low: nat, off: Leb, rest: seq<Byte>, env: Env)
    requires low < 0x40
    ensures Decode([0x80 + low] + off + rest, env.addrSize) == (Keep, 1 + |off|)
  {
    hide Uleb, Sleb, Operands, IsLeb;
    OneOperand(0x80 + low, off, rest);
  }

  lemma DecodeRestore(low: nat, rest: seq<Byte>, env: Env)
    requires low < 0x40
    ensures Decode([0xC0 + low] + rest, env.addrSize) == (Keep, 1)
  {
    hide Uleb, Sleb, Operands;
  }

  lemma DecodeExpr(op: Byte, reg: Leb, length: Leb, block: seq<Byte>, rest: seq<Byte>, env: Env)
    requires op in {0x10, 0x16} && Uleb(length).0 == |block|
    ensures Decode([op] + reg + length + block + rest, env.addrSize) == (Keep, 1 + |reg| + |length| + |block|)
  {
    hide Decode, Uleb, IsLeb;
    Regroup([op] + reg, length, block, rest);
    DecodeBlock(op, reg, length, block + rest, env);
  }

  lemma DecodeBlock(op: Byte, reg: Leb, length: Leb, rest: seq<Byte>, env: Env)
    requires op in {0x10, 0x16}
    ensures Decode([op] + reg + length + rest, env.addrSize) == (Keep, 1 + |reg| + |length| + Uleb(length).0)
  {
    hide Decode, Uleb, Sleb, Operands, IsLeb;
    TwoOperands(op, reg, length, rest);
    DecodeWithBlock([op] + reg + length + rest, env.addrSize);
  }

  lemma DecodeWithBlock(s: seq<Byte>, addrSize: nat)
    requires s != [] && s[0] in {0x10, 0x16}
    ensures var n := Operands(s, 1);
            Decode(s, addrSize) == (Keep, Operands(s, 2) + Uleb(s[n..]).0)
  {
    hide Uleb, Sleb, Operands, Meaning, Arity;
    var n := Operands(s, 1);
    BlockMeaning(s[0], Uleb(s[1..]).0, Uleb(s[n..]).0, Sleb(s[1..]).0, Sleb(s[n..]).0);
  }

  lemma BlockMeaning(op: Byte, u1: nat, u2: nat, s1: int, s2: int)
    requires op in {0x10, 0x16}
    ensures Arity(op) == 2 && Meaning(op, u1, u2, s1, s2) == Keep
  {
  }

  // ----- Programs run instruction by instruction -----

  lemma ExecEnc(i: Instr, rest: seq<Byte>, st: State, env: Env)
    requires Fits(i, env)
    ensures Exec(Enc(i, env) + rest, st, env) == Then(Apply(ActOf(i), st, env), rest, env)
  {
    hide Decode, Apply, ActOf, Enc;
    var s := Enc(i, env) + rest;
    DecodeEnc(i, rest, env);
    assert s[|Enc(i, env)|..] == rest;
    assert Exec([], st, env) == Goes(st);
  }

  // The bytes behind a program run on from the state it leaves, and not at all once it has halted.
  lemma {:induction false} ExecSplit(prog: seq<Instr>, rest: seq<Byte>, st: State, env: Env)
    requires AllFit(prog, env)
    ensures Exec(EncAll(prog, env) + rest, st, env) == Then(Exec(EncAll(prog, env), st, env), rest, env)
    decreases |prog|
  {
    hide Decode, Apply, ActOf, Enc;
    if prog == [] {
      assert EncAll(prog, env) + rest == rest;
    } else {
      var tail := EncAll(prog[1..], env);
      assert EncAll(prog, env) + rest == Enc(prog[0], env) + (tail + rest);
      ExecEnc(prog[0], tail + rest, st, env);
      ExecEnc(prog[0], tail, st, env);
      var r := Apply(ActOf(prog[0]), st, env);
      if r.Goes? {
        ExecSplit(prog[1..], rest, r.st, env);
      }
    }
  }

  lemma {:induction false} EncAllAppend(a: seq<Instr>, b: seq<Instr>, env: Env)
    requires AllFit(a, env) && AllFit(b, env)
    ensures EncAll(a + b, env) == EncAll(a, env) + EncAll(b, env)
    decreases |a|
  {
    hide Fits, Enc;
    if a == [] {
      assert a + b == b;
    } else {
      assert (a + b)[1..] == a[1..] + b;
      EncAllAppend(a[1..], b, env);
    }
  }

  // ----- The table -----

  datatype Cfa = Unset | Cfa(reg: nat, off: nat)

  datatype Row = Row(loc: nat, cfa: Cfa)

  predicate Moves(i: Instr) { i.Advance? || i.AdvanceWide? || i.SetLoc? }

  function Target(i: Instr, loc: nat, env: Env): nat {
    match i
    case Advance(d) => loc + d * env.align
    case AdvanceWide(d) => loc + Little(d) * env.align
    case SetLoc(a) => Little(a)
    case _ => loc
  }

  function Defined(i: Instr, cfa: Cfa): Cfa {
    match i
    case DefCfa(r, o) => Cfa(Uleb(r).0, Uleb(o).0)
    case DefCfaRegister(r) => if cfa.Cfa? then cfa.(reg := Uleb(r).0) else cfa
    case DefCfaOffset(o) => if cfa.Cfa? then cfa.(off := Uleb(o).0) else cfa
    case _ => cfa
  }

  // Locations only go up and stay 32 bits wide, the partial CFA forms come after a full one, and
  // register and offset are int values.
  predicate Sound(i: Instr, loc: nat, cfa: Cfa, env: Env) {
    && Fits(i, env)
    && loc <= Target(i, loc, env) < WORD32
    && (i.DefCfaRegister? || i.DefCfaOffset? ==> cfa.Cfa?)
    && (Defined(i, cfa).Cfa? ==> Defined(i, cfa).reg < WORD32 / 2 && Defined(i, cfa).off < WORD32 / 2)
  }

  predicate WellFormed(prog: seq<Instr>, loc: nat, cfa: Cfa, env: Env) {
    prog != [] ==>
      && Sound(prog[0], loc, cfa, env)
      && WellFormed(prog[1..], Target(prog[0], loc, env), Defined(prog[0], cfa), env)
  }

  // The fully expanded table: every move of the location closes a row and opens the next one.
  function Rows(prog: seq<Instr>, loc: nat, cfa: Cfa, env: Env): (rows: seq<Row>)
    ensures rows != [] && rows[0].loc == loc
  {
    if prog == [] then [Row(loc, cfa)]
    else if Moves(prog[0]) then [Row(loc, cfa)] + Rows(prog[1..], Target(prog[0], loc, env), cfa, env)
    else Rows(prog[1..], loc, Defined(prog[0], cfa), env)
  }

  // Row k is the last one whose location is at most pc.
  predicate Covers(rows: seq<Row>, k: nat, pc: nat) {
    k < |rows| && rows[k].loc <= pc && forall j :: k < j < |rows| ==> rows[j].loc > pc
  }

  lemma {:induction false} SomeRowCovers(rows: seq<Row>, pc: nat) returns (k: nat)
    requires rows != [] && rows[0].loc <= pc
    ensures Covers(rows, k, pc)
  {
    var last := |rows| - 1;
    if rows[last].loc <= pc {
      k := last;
    } else {
      k := SomeRowCovers(rows[..last], pc);
    }
  }

  lemma {:induction false} RowsAscend(prog: seq<Instr>, loc: nat, cfa: Cfa, env: Env)
    requires WellFormed(prog, loc, cfa, env)
    ensures forall j :: 0 <= j < |Rows(prog, loc, cfa, env)| ==> Rows(prog, loc, cfa, env)[j].loc >= loc
    decreases |prog|
  {
    hide Fits, Target, Defined;
    if prog != [] {
      var l := Target(prog[0], loc, env);
      RowsAscend(prog[1..], l, Defined(prog[0], cfa), env);
      KeptWhenMoving(prog[0], loc, cfa, env);
    }
  }

  lemma KeptWhenMoving(i: Instr, loc: nat, cfa: Cfa, env: Env)
    ensures if Moves(i) then Defined(i, cfa) == cfa else Target(i, loc, env) == loc
  {
  }

  predicate Matches(st: State, loc: nat, cfa: Cfa) {
    && st.loc == loc && st.have == cfa.Cfa?
    && (cfa.Cfa? ==> st.reg == cfa.reg && st.off == cfa.off)
  }

  // One well-formed instruction: the interpreter follows it unless it moves past pc.
  lemma ApplyFollows(i: Instr, st: State, loc: nat, cfa: Cfa, env: Env)
    requires Matches(st, loc, cfa) && loc <= env.pc && Sound(i, loc, cfa, env)
    ensures var r := Apply(ActOf(i), st, env);
            if Target(i, loc, env) > env.pc then r == Halts(st)
            else r.Goes? && Matches(r.st, Target(i, loc, env), Defined(i, cfa))
  {
    hide Uleb, Little;
  }

  // The state left by a well-formed program holds the rule of the row that covers pc, and the
  // program was left early exactly when that row is not the last one.
  lemma {:induction false} ExecCovers(prog: seq<Instr>, st: State, loc: nat, cfa: Cfa, env: Env, k: nat)
    requires AllFit(prog, env) && WellFormed(prog, loc, cfa, env)
    requires Matches(st, loc, cfa) && loc <= env.pc
    requires Covers(Rows(prog, loc, cfa, env), k, env.pc)
    ensures var rows := Rows(prog, loc, cfa, env);
            var r := Exec(EncAll(prog, env), st, env);
            && (if k < |rows| - 1 then r.Halts? else r.Goes?)
            && Matches(r.st, rows[k].loc, rows[k].cfa)
    decreases |prog|
  {
    hide Sound, Fits, Target, Defined, Apply, ActOf, Enc, Decode, Moves, Covers;
    if prog != [] {
      var i := prog[0];
      var l, c := Target(i, loc, env), Defined(i, cfa);
      var tail := Rows(prog[1..], l, c, env);
      ApplyFollows(i, st, loc, cfa, env);
      ExecEnc(i, EncAll(prog[1..], env), st, env);
      KeptWhenMoving(i, loc, cfa, env);
      var r := Apply(ActOf(i), st, env);
      RowsAscend(prog[1..], l, c, env);
      if Moves(i) {
        CoversShift(Row(loc, cfa), tail, k, env.pc);
        if l <= env.pc {
          ExecCovers(prog[1..], r.st, l, c, env, k - 1);
        }
      } else {
        ExecCovers(prog[1..], r.st, l, c, env, k);
      }
    } else {
      hide Matches;
      OnlyRow(loc, cfa, env, k);
    }
  }

  lemma OnlyRow(loc: nat, cfa: Cfa, env: Env, k: nat)
    requires Covers([Row(loc, cfa)], k, env.pc)
    ensures k == 0
  {
  }

  // The covering row of a table, by whether the second row is already past pc.
  lemma CoversShift(first: Row, tail: seq<Row>, k: nat, pc: nat)
    requires tail != [] && Covers([first] + tail, k, pc)
    requires forall j :: 0 <= j < |tail| ==> tail[j].loc >= tail[0].loc
    ensures if tail[0].loc > pc then k == 0 else k > 0 && Covers(tail, k - 1, pc)
  {
    var rows := [first] + tail;
    assert rows[1] == tail[0];
    assert forall j :: 0 <= j < |tail| ==> tail[j] == rows[j + 1];
  }

  function AnswerFor(cfa: Cfa): Answer { if cfa.Cfa? then Rule(cfa.reg, cfa.off) else NoRule }

  // cfi_run answers with the rule of the last row whose location is at most pc.
  lemma CfiRunIsTable(cie: seq<Instr>, fde: seq<Instr>, initLoc: nat, env: Env, k: nat)
    requires AllFit(cie, env) && AllFit(fde, env) && WellFormed(cie + fde, initLoc, Unset, env)
    requires initLoc <= env.pc
    requires Covers(Rows(cie + fde, initLoc, Unset, env), k, env.pc)
    ensures var start := State(initLoc, -1, 0, false);
            AnswerOf(Then(Exec(EncAll(cie, env), start, env), EncAll(fde, env), env))
            == AnswerFor(Rows(cie + fde, initLoc, Unset, env)[k].cfa)
  {
    hide Fits, WellFormed, Rows;
    var start := State(initLoc, -1, 0, false);
    EncAllAppend(cie, fde, env);
    ExecSplit(cie, EncAll(fde, env), start, env);
    ExecCovers(cie + fde, start, initLoc, Unset, env, k);
  }

  // Whatever bytes follow the move past pc, the answer is the same.
  lemma LaterBytesIgnored(prog: seq<Instr>, loc: nat, rest: seq<Byte>, env: Env, k: nat)
    requires AllFit(prog, env) && WellFormed(prog, loc, Unset, env) && loc <= env.pc
    requires var rows := Rows(prog, loc, Unset, env); Covers(rows, k, env.pc) && k < |rows| - 1
    ensures var start := State(loc, -1, 0, false);
            AnswerOf(Exec(EncAll(prog, env) + rest, start, env)) == AnswerFor(Rows(prog, loc, Unset, env)[k].cfa)
  {
    hide Fits, WellFormed, Rows;
    var start := State(loc, -1, 0, false);
    ExecSplit(prog, rest, start, env);
    ExecCovers(prog, start, loc, Unset, env, k);
  }
}
