/** The multi-frame stack unwinder of the DAP front end (src/dap.c, dap_unwind). */
module Unwind {
  import opened Options
  import opened Bytes
  import opened Updi
  import StepOver

  const MAX_FRAMES: nat := 32
  const SP_REGISTER: nat := 32

  // The canonical frame address is a register (SP, or else the Y pair) plus an offset.
  datatype CfaRule = CfaRule(reg: int, off: int)

  datatype Frame = Frame(pc: nat, cfa: nat, y: nat, sp: nat)

  // What the unwinder can ask: the CFA rule at a code address, and the byte at a data address.
  datatype Target = Target(cfi: nat -> Option<CfaRule>, mem: nat -> Byte, flashSize: nat)

  function Cfa(r: CfaRule, sp: nat, y: nat): nat {
    ((if r.reg == SP_REGISTER then sp else y) + r.off) % 0x1_0000
  }

  // Two bytes, the high one first, from an address that wraps at 16 bits.
  function WordAt(t: Target, at: int): nat {
    var a := at % 0x1_0000;
    var hi: nat, lo: nat := t.mem(a), t.mem(a + 1);
    0x100 * hi + lo
  }

  predicate BadReturn(t: Target, ra: nat) {
    ra == 0 || (t.flashSize != 0 && 2 * ra >= t.flashSize)
  }

  // The frames found from the given registers, at most n of them.
  function Frames(t: Target, pc: nat, sp: nat, y: nat, prev: nat, n: nat): (fs: seq<Frame>)
    ensures |fs| <= n && (n > 0 ==> |fs| > 0)
    decreases n
  {
    if n == 0 then []
    else if t.cfi(pc).None? then [Frame(pc, 0, y, sp)]
    else
      var cfa := Cfa(t.cfi(pc).value, sp, y);
      var ra := WordAt(t, cfa - 1);
      if BadReturn(t, ra) || cfa == prev then [Frame(pc, cfa, y, sp)]
      else [Frame(pc, cfa, y, sp)] + Frames(t, 2 * ra, cfa, WordAt(t, cfa - 3), cfa, n - 1)
  }

  // One turn of the unwinder: the frame it records, and whether it goes on.
  lemma FramesStep(t: Target, pc: nat, sp: nat, y: nat, prev: nat, n: nat, done: seq<Frame>)
    requires n > 0
    ensures var rule := t.cfi(pc);
      var cfa := if rule.Some? then Cfa(rule.value, sp, y) else 0;
      var ra := WordAt(t, cfa - 1);
      done + Frames(t, pc, sp, y, prev, n) ==
        if rule.None? || BadReturn(t, ra) || cfa == prev then done + [Frame(pc, cfa, y, sp)]
        else (done + [Frame(pc, cfa, y, sp)]) + Frames(t, 2 * ra, cfa, WordAt(t, cfa - 3), cfa, n - 1)
  {
    hide Cfa, WordAt, BadReturn;
  }

  class Session {
    const frames: array<Frame>
    var nframes: nat

    constructor ()
      ensures frames.Length == MAX_FRAMES
    {
      frames := new Frame[MAX_FRAMES](_ => Frame(0, 0, 0, 0));
      nframes := 0;
    }

    method Record(n: nat, f: Frame)
      requires n < frames.Length
      modifies frames
      ensures frames[..n + 1] == old(frames[..n]) + [f]
    {
      frames[n] := f;
    }

    method Unwind(t: Target, livePc: nat, liveSp: nat, r28: Byte, r29: Byte) returns (n: nat)
      requires frames.Length == MAX_FRAMES
      modifies this, frames
      ensures n == nframes && 0 < n <= MAX_FRAMES
      ensures var lo: nat, hi: nat := r28, r29;
        frames[..n] == Frames(t, livePc, liveSp, lo + 0x100 * hi, 0, 32)
    {
      hide Cfa, WordAt, BadReturn, Frames;
      var lo: nat, hi: nat := r28, r29;
      var pc: nat, sp: nat, y: nat := livePc, liveSp, lo + 0x100 * hi;
      ghost var all := Frames(t, pc, sp, y, 0, MAX_FRAMES);
      n := 0;
      var prev: nat := 0;
      nframes := 0;
      var more := true;
      while more && n < MAX_FRAMES
        invariant 0 <= n <= MAX_FRAMES
        invariant all == frames[..n] + if more then Frames(t, pc, sp, y, prev, MAX_FRAMES - n) else []
      {
        FramesStep(t, pc, sp, y, prev, MAX_FRAMES - n, frames[..n]);
        var rule := t.cfi(pc);
        var cfa: nat := if rule.Some? then Cfa(rule.value, sp, y) else 0;
        Record(n, Frame(pc, cfa, y, sp));
        n := n + 1;
        var ra := WordAt(t, cfa - 1);
        var callerY := WordAt(t, cfa - 3);
        if rule.None? || BadReturn(t, ra) || cfa == prev {
          more := false;
        } else {
          prev, pc, sp, y := cfa, 2 * ra, cfa, callerY;
        }
      }
      NoMoreFrames(t, pc, sp, y, prev);
      nframes := n;
    }
  }

  lemma NoMoreFrames(t: Target, pc: nat, sp: nat, y: nat, prev: nat)
    ensures Frames(t, pc, sp, y, prev, 0) == []
  {
  }

  // ----- Call stacks in memory -----

  // The caller of f, as the calling convention leaves it in memory: the return word at CFA - 1 (high
  // byte) and CFA, the saved Y at CFA - 3 (high byte) and CFA - 2, and the caller's SP is the CFA.
  predicate Calls(t: Target, f: Frame, caller: Frame) {
    t.cfi(f.pc).Some? && f.cfa == Cfa(t.cfi(f.pc).value, f.sp, f.y) && 0 < f.cfa &&
    caller.pc % 2 == 0 && !BadReturn(t, caller.pc / 2) && caller.sp == f.cfa &&
    Holds(t, f.cfa - 1, caller.pc / 2) && Holds(t, (f.cfa - 3) % 0x1_0000, caller.y)
  }

  predicate Holds(t: Target, a: nat, word: nat) {
    word < 0x1_0000 && t.mem(a) == word / 0x100 && t.mem(a + 1) == word % 0x100
  }

  // Nothing calls the outermost frame: no CFI covers it, or its return word is no code address.
  predicate Outermost(t: Target, f: Frame) {
    if t.cfi(f.pc).None? then f.cfa == 0
    else f.cfa == Cfa(t.cfi(f.pc).value, f.sp, f.y) && BadReturn(t, WordAt(t, f.cfa - 1))
  }

  predicate CallStack(t: Target, fs: seq<Frame>) {
    fs != [] && Outermost(t, fs[|fs| - 1]) &&
    (forall i :: 0 <= i < |fs| - 1 ==> Calls(t, fs[i], fs[i + 1])) &&
    (forall i :: 0 <= i < |fs| - 2 ==> fs[i].cfa < fs[i + 1].cfa)
  }

  lemma HeldWord(t: Target, a: nat, word: nat)
    requires Holds(t, a, word) && a < 0x1_0000
    ensures WordAt(t, a) == word
  {
  }

  lemma TailStack(t: Target, fs: seq<Frame>)
    requires CallStack(t, fs) && |fs| > 1
    ensures CallStack(t, fs[1..]) && (|fs| > 2 ==> fs[0].cfa < fs[1].cfa)
  {
  }

  // What the unwinder reads in a called frame.
  lemma CalledFrom(t: Target, f: Frame, caller: Frame, prev: nat)
    requires Calls(t, f, caller) && prev < f.cfa
    ensures t.cfi(f.pc).Some? && f.cfa == Cfa(t.cfi(f.pc).value, f.sp, f.y) != prev
    ensures var ra := WordAt(t, f.cfa - 1); !BadReturn(t, ra) && caller.pc == 2 * ra
    ensures caller.sp == f.cfa && caller.y == WordAt(t, f.cfa - 3)
  {
    HeldWord(t, f.cfa - 1, caller.pc / 2);
    HeldWord(t, (f.cfa - 3) % 0x1_0000, caller.y);
    hide Cfa, BadReturn;
  }

  // The unwinder inverts the calling convention: of a stack of d frames it returns the innermost
  // min(d, n), each with its own registers.
  lemma {:induction false} UnwindsStack(t: Target, fs: seq<Frame>, prev: nat, n: nat)
    requires CallStack(t, fs) && (|fs| > 1 ==> prev < fs[0].cfa)
    ensures Frames(t, fs[0].pc, fs[0].sp, fs[0].y, prev, n) == fs[..if |fs| < n then |fs| else n]
    decreases n
  {
    hide Cfa, WordAt, BadReturn, Calls, Frames;
    if n > 0 && |fs| > 1 {
      var rest := fs[1..];
      UnwindsOne(t, fs[0], fs[1], prev, n);
      TailStack(t, fs);
      hide CallStack;
      UnwindsStack(t, rest, fs[0].cfa, n - 1);
      var m := if |fs| < n then |fs| else n;
      assert fs[..m] == [fs[0]] + rest[..m - 1];
    } else if n > 0 {
      UnwindsOuter(t, fs[0], prev, n);
    } else {
      NoMoreFrames(t, fs[0].pc, fs[0].sp, fs[0].y, prev);
    }
  }

  lemma UnwindsOne(t: Target, f: Frame, caller: Frame, prev: nat, n: nat)
    requires n > 0 && Calls(t, f, caller) && prev < f.cfa
    ensures Frames(t, f.pc, f.sp, f.y, prev, n) == [f] + Frames(t, caller.pc, caller.sp, caller.y, f.cfa, n - 1)
  {
    CalledFrom(t, f, caller, prev);
    hide Cfa, WordAt, BadReturn, Calls;
  }

  lemma UnwindsOuter(t: Target, f: Frame, prev: nat, n: nat)
    requires n > 0 && Outermost(t, f)
    ensures Frames(t, f.pc, f.sp, f.y, prev, n) == [f]
  {
    hide Cfa, WordAt, BadReturn;
  }

  // The first frame is the one of the given registers. Its CFA is SP or Y plus the offset of the rule. There is
  // a second one exactly if n allows it, a rule was found, the return word is the word of a code address, and
  // the CFA has moved.
  lemma FirstFrame(t: Target, pc: nat, sp: nat, y: nat, prev: nat, n: nat)
    requires n > 0
    ensures var fs := Frames(t, pc, sp, y, prev, n);
      && fs[0].pc == pc && fs[0].sp == sp && fs[0].y == y
      && FrameOf(t, fs[0]) && (|fs| > 1 <==> n > 1 && Caller(t, fs[0], prev).Some?)
      && (|fs| > 1 ==> Some(fs[1].pc) == Caller(t, fs[0], prev) && CallerRegisters(t, fs[0], fs[1]))
  {
    hide Cfa, WordAt, BadReturn, FrameOf, Caller, CallerRegisters;
    var cfa: nat := if t.cfi(pc).Some? then Cfa(t.cfi(pc).value, sp, y) else 0;
    var f := Frame(pc, cfa, y, sp);
    CfaIs(t, f);
    CallerIs(t, f, prev);
    var fs := Frames(t, pc, sp, y, prev, n);
    if |fs| > 1 {
      StartsWith(t, 2 * WordAt(t, cfa - 1), cfa, WordAt(t, cfa - 3), cfa, n - 1);
      CallerHas(t, f, fs[1]);
    }
  }

  lemma StartsWith(t: Target, pc: nat, sp: nat, y: nat, prev: nat, n: nat)
    ensures n > 0 ==> var f := Frames(t, pc, sp, y, prev, n)[0]; f.pc == pc && f.sp == sp && f.y == y
  {
    hide Cfa, WordAt, BadReturn;
  }

  // The frames behind the first are the ones of the caller's registers.
  lemma FramesBehind(t: Target, pc: nat, sp: nat, y: nat, prev: nat, n: nat)
    requires |Frames(t, pc, sp, y, prev, n)| > 1
    ensures var fs := Frames(t, pc, sp, y, prev, n);
      n > 0 && fs[1..] == Frames(t, fs[1].pc, fs[1].sp, fs[1].y, fs[0].cfa, n - 1)
  {
    hide Cfa, WordAt, BadReturn;
    var cfa: nat := Cfa(t.cfi(pc).value, sp, y);
    StartsWith(t, 2 * WordAt(t, cfa - 1), cfa, WordAt(t, cfa - 3), cfa, n - 1);
  }

  lemma CfaIs(t: Target, f: Frame)
    requires f.cfa == if t.cfi(f.pc).Some? then Cfa(t.cfi(f.pc).value, f.sp, f.y) else 0
    ensures FrameOf(t, f)
  {
  }

  lemma CallerIs(t: Target, f: Frame, prev: nat)
    ensures var ra := WordAt(t, f.cfa - 1);
      Caller(t, f, prev) == if t.cfi(f.pc).None? || BadReturn(t, ra) || f.cfa == prev then None else Some(2 * ra)
  {
  }

  lemma CallerHas(t: Target, f: Frame, caller: Frame)
    requires caller.sp == f.cfa && caller.y == WordAt(t, f.cfa - 3)
    ensures CallerRegisters(t, f, caller)
  {
  }

  // The CFA of a frame: SP plus the offset for register 32, whatever Y is, and Y plus the offset otherwise.
  predicate FrameOf(t: Target, f: Frame) {
    match t.cfi(f.pc)
    case None => f.cfa == 0
    case Some(rule) =>
      && (rule.reg == 32 ==> f.cfa == (f.sp + rule.off) % 0x1_0000)
      && (rule.reg != 32 ==> f.cfa == (f.y + rule.off) % 0x1_0000)
  }

  // The return address below the CFA, if the frame has a caller.
  function Caller(t: Target, f: Frame, prev: nat): Option<nat> {
    var a: nat := (f.cfa - 1) % 0x1_0000;
    var hi: nat, lo: nat := t.mem(a), t.mem(a + 1);
    var bytePc := 0x200 * hi + 2 * lo;
    if t.cfi(f.pc).Some? && bytePc != 0 && (t.flashSize != 0 ==> bytePc < t.flashSize) && f.cfa != prev
    then Some(bytePc)
    else None
  }

  // SP and Y of the caller.
  predicate CallerRegisters(t: Target, f: Frame, caller: Frame) {
    var b: nat := (f.cfa - 3) % 0x1_0000;
    var hi: nat, lo: nat := t.mem(b), t.mem(b + 1);
    caller.sp == f.cfa && caller.y == 0x100 * hi + lo
  }

  // Every frame has the CFA its rule gives, is linked to the next one by the words in memory, and is the last
  // one exactly if it has no caller or there is no room for more.
  lemma {:induction false} FramesLinked(t: Target, pc: nat, sp: nat, y: nat, prev: nat, n: nat, i: nat)
    requires i < |Frames(t, pc, sp, y, prev, n)|
    ensures var fs := Frames(t, pc, sp, y, prev, n);
      var before := if i == 0 then prev else fs[i - 1].cfa;
      && FrameOf(t, fs[i]) && (i + 1 < |fs| <==> i + 1 < n && Caller(t, fs[i], before).Some?)
      && (i + 1 < |fs| ==> Some(fs[i + 1].pc) == Caller(t, fs[i], before) && CallerRegisters(t, fs[i], fs[i + 1]))
    decreases n
  {
    hide Frames, FrameOf, Caller, CallerRegisters;
    FirstFrame(t, pc, sp, y, prev, n);
    if i > 0 {
      var fs := Frames(t, pc, sp, y, prev, n);
      FramesBehind(t, pc, sp, y, prev, n);
      FramesLinked(t, fs[1].pc, fs[1].sp, fs[1].y, fs[0].cfa, n - 1, i - 1);
    }
  }

  // The return address the emulated CALL pushes is the one the unwinder recovers at the callee's entry,
  // where the CFA is SP + 2.
  lemma CallIsRecovered(t: Target, c: Cpu, target: nat, y: nat, n: nat)
    requires c.Valid() && c.sp >= 0x40 && n > 1
    requires var e := StepOver.CallTo(c, target);
      t.cfi(2 * e.pc) == Some(CfaRule(32, 2)) && forall a :: 0 <= a < 0x1_0000 ==> t.mem(a) == e.sram[a]
    requires var ret := (c.pc + 2) % 0x1_0000; ret != 0 && (t.flashSize != 0 ==> 2 * ret < t.flashSize)
    ensures var e := StepOver.CallTo(c, target);
      var fs := Frames(t, 2 * e.pc, e.sp, y, 0, n);
      |fs| > 1 && fs[0].cfa == c.sp && fs[1].pc == 2 * ((c.pc + 2) % 0x1_0000) && fs[1].sp == c.sp
  {
    hide Frames, FrameOf, Caller;
    var e := StepOver.CallTo(c, target);
    FirstFrame(t, 2 * e.pc, e.sp, y, 0, n);
    CfaFrom(t, Frames(t, 2 * e.pc, e.sp, y, 0, n)[0], c.sp);
    ReturnAt(t, Frames(t, 2 * e.pc, e.sp, y, 0, n)[0], c.sp, (c.pc + 2) % 0x1_0000);
    assert CallerRegisters(t, Frames(t, 2 * e.pc, e.sp, y, 0, n)[0], Frames(t, 2 * e.pc, e.sp, y, 0, n)[1]);
  }

  lemma CfaFrom(t: Target, f: Frame, cfa: nat)
    requires FrameOf(t, f) && t.cfi(f.pc).Some? && 0 < cfa < 0x1_0000
    requires t.cfi(f.pc).value in {CfaRule(32, cfa - f.sp), CfaRule(28, cfa - f.y)}
    ensures f.cfa == cfa
  {
  }

  lemma ReturnAt(t: Target, f: Frame, sp: nat, ret: nat)
    requires t.cfi(f.pc).Some? && f.cfa == sp && 0 < sp < 0x1_0000
    requires 0 < ret < 0x1_0000 && (t.flashSize != 0 ==> 2 * ret < t.flashSize)
    requires t.mem(sp) == ret % 0x100 && t.mem(sp - 1) == ret / 0x100
    ensures Caller(t, f, 0) == Some(2 * ret)
  {
  }

  function Push(c: Cpu, b: Byte): Cpu
    requires c.Valid() && c.sp > 0
  {
    c.(sram := c.sram[c.sp := b], sp := c.sp - 1)
  }

  // A callee that saves Y and makes it the frame pointer: the CFA is Y + 4 from then on. Wherever pc is in
  // its body, and wherever SP has gone below Y, the return address and the caller's Y are the ones recovered.
  lemma FramePointerIsRecovered(t: Target, c: Cpu, target: nat, pc: nat, sp: nat, n: nat)
    requires c.Valid() && c.sp >= 0x44 && n > 1
    requires t.cfi(pc) == Some(CfaRule(28, 4))
    requires var e := Push(Push(StepOver.CallTo(c, target), c.gpr[28]), c.gpr[29]);
      forall a :: e.sp < a < 0x1_0000 ==> t.mem(a) == e.sram[a]
    requires var ret := (c.pc + 2) % 0x1_0000; ret != 0 && (t.flashSize != 0 ==> 2 * ret < t.flashSize)
    ensures var e := Push(Push(StepOver.CallTo(c, target), c.gpr[28]), c.gpr[29]);
      var lo: nat, hi: nat := c.gpr[28], c.gpr[29];
      var fs := Frames(t, pc, sp, e.sp, 0, n);
      && |fs| > 1 && fs[0].cfa == c.sp && fs[1].pc == 2 * ((c.pc + 2) % 0x1_0000) && fs[1].sp == c.sp
      && fs[1].y == lo + 0x100 * hi
  {
    hide Frames, FrameOf, Caller, CallerRegisters;
    var e := Push(Push(StepOver.CallTo(c, target), c.gpr[28]), c.gpr[29]);
    var fs := Frames(t, pc, sp, e.sp, 0, n);
    FirstFrame(t, pc, sp, e.sp, 0, n);
    CfaFrom(t, fs[0], c.sp);
    ReturnAt(t, fs[0], c.sp, (c.pc + 2) % 0x1_0000);
    YAt(t, fs[0], fs[1], c.gpr[28], c.gpr[29]);
  }

  lemma YAt(t: Target, f: Frame, caller: Frame, low: Byte, high: Byte)
    requires CallerRegisters(t, f, caller) && 3 < f.cfa < 0x1_0000
    requires t.mem(f.cfa - 2) == low && t.mem(f.cfa - 3) == high
    ensures var lo: nat, hi: nat := low, high; caller.y == lo + 0x100 * hi && caller.sp == f.cfa
  {
  }
}
