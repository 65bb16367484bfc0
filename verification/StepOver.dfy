/** Stepping over one instruction of a patched program (src/debug_bp.c, src/updi.c, src/dap.c). */
module StepOver {
  import opened Bytes
  import opened Policy
  import opened Updi
  import opened Breakpoints

  // ----- Opcodes -----

  predicate IsCall(w0: nat) { w0 / 0x200 == 0x4A && w0 % 0x10 / 2 == 7 }

  predicate IsJmp(w0: nat) { w0 / 0x200 == 0x4A && w0 % 0x10 / 2 == 6 }

  predicate IsLdsSts(w0: nat) { (w0 / 0x200 == 0x48 || w0 / 0x200 == 0x49) && w0 % 0x10 == 0 }

  // The 22-bit word address spread over both words.
  function TargetWord(w0: nat, w1: nat): nat {
    w1 + 0x1_0000 * (w0 % 2) + 0x2_0000 * (w0 / 0x10 % 0x20)
  }

  // CALL k is 1001 010k kkkk 111k and the low sixteen bits of k behind it, JMP k has 110 instead: these two words
  // mean a CALL or JMP to k, and no others do.
  lemma CallIff(w0: nat, w1: nat, k: nat)
    requires w0 < 0x1_0000 && w1 < 0x1_0000 && k < 0x40_0000
    ensures var spread := 0x10 * (k / 0x2_0000) + k / 0x1_0000 % 2;
            && (IsCall(w0) && TargetWord(w0, w1) == k <==> w0 == 0x940E + spread && w1 == k % 0x1_0000)
            && (IsJmp(w0) && TargetWord(w0, w1) == k <==> w0 == 0x940C + spread && w1 == k % 0x1_0000)
  {
    var five, one, low := k / 0x2_0000, k / 0x1_0000 % 2, k % 0x1_0000;
    assert k == low + 0x1_0000 * one + 0x2_0000 * five;
    WordIff(w0, 7, five, one);
    WordIff(w0, 6, five, one);
    TargetIff(w0 / 0x10 % 0x20, w0 % 2, w1, five, one, low);
  }

  lemma WordIff(w0: nat, mid: nat, five: nat, one: nat)
    requires mid < 8 && five < 0x20 && one < 2
    ensures w0 / 0x200 == 0x4A && w0 % 0x10 / 2 == mid && w0 / 0x10 % 0x20 == five && w0 % 2 == one
      <==> w0 == 0x9400 + 0x10 * five + 2 * mid + one
  {
    var high, low := w0 / 0x10, w0 % 0x10;
    Nibbles(high, low);
    FiveBits(high, five);
    if w0 == 0x9400 + 0x10 * five + 2 * mid + one {
      Nibbles(0x940 + five, 2 * mid + one);
    }
  }

  lemma Nibbles(high: nat, low: nat)
    requires low < 0x10
    ensures var w := 0x10 * high + low;
            w / 0x10 == high && w % 0x10 == low && w / 0x200 == high / 0x20 && w % 2 == low % 2
  {
  }

  lemma FiveBits(high: nat, five: nat)
    requires five < 0x20
    ensures high / 0x20 == 0x4A && high % 0x20 == five <==> high == 0x940 + five
  {
  }

  lemma TargetIff(five: nat, one: nat, low: nat, five2: nat, one2: nat, low2: nat)
    requires one < 2 && one2 < 2 && low < 0x1_0000 && low2 < 0x1_0000
    ensures low + 0x1_0000 * one + 0x2_0000 * five == low2 + 0x1_0000 * one2 + 0x2_0000 * five2
      <==> low == low2 && one == one2 && five == five2
  {
  }

  // LDS d is 1001 000d dddd 0000, STS d has 001 instead.
  lemma LdsStsIff(w0: nat)
    ensures IsLdsSts(w0) <==>
              (0x9000 <= w0 < 0x9200 && w0 % 0x10 == 0) || (0x9200 <= w0 < 0x9400 && w0 % 0x10 == 0)
  {
  }

  const BREAK_WORD: nat := 0x9598

  // ----- The instruction set -----

  // CALL on a part with a 16-bit PC: low byte of the return address at SP, high byte below it.
  function CallTo(c: Cpu, target: nat): Cpu
    requires c.Valid() && c.sp >= 0x40
  {
    var ret := (c.pc + 2) % 0x1_0000;
    c.(sram := c.sram[c.sp := ret % 0x100][c.sp - 1 := ret / 0x100], sp := c.sp - 2, pc := target % 0x1_0000)
  }

  ghost predicate IsaCase(isa: Isa, w0: nat, w1: nat, f: seq<Byte>, c: Cpu)
    requires c.Valid()
  {
    (IsCall(w0) && c.sp >= 0x40 ==> isa(w0, w1, f, c) == CallTo(c, TargetWord(w0, w1))) &&
    (IsJmp(w0) ==> isa(w0, w1, f, c) == c.(pc := TargetWord(w0, w1) % 0x1_0000)) &&
    (IsLdsSts(w0) ==> isa(w0, w1, f, c).pc == (c.pc + 2) % 0x1_0000)
  }

  // What the manual says about the two-word instructions; all others are left open.
  ghost predicate AvrIsa(isa: Isa) {
    forall w0: nat, w1: nat, f: seq<Byte>, c: Cpu :: c.Valid() ==> IsaCase(isa, w0, w1, f, c)
  }

  // Instruction sets of this kind exist, with instructions that mind their own business.
  lemma SomeAvrIsa() returns (isa: Isa)
    ensures AvrIsa(isa) && KeepsCpus(isa)
    ensures forall w0: nat :: !IsCall(w0) && !IsJmp(w0) ==> IgnoresNext(isa, w0) && ReadsNoFlash(isa, w0)
  {
    isa := (w0: nat, w1: nat, f: seq<Byte>, c: Cpu) =>
      if !c.Valid() then c
      else if IsCall(w0) && c.sp >= 0x40 then CallTo(c, TargetWord(w0, w1))
      else if IsJmp(w0) then c.(pc := TargetWord(w0, w1) % 0x1_0000)
      else c.(pc := (c.pc + 2) % 0x1_0000);
  }

  // The instruction does the same whatever follows it in flash,
  ghost predicate IgnoresNext(isa: Isa, w0: nat) {
    forall a: nat, b: nat, f: seq<Byte>, c: Cpu :: c.Valid() ==> isa(w0, a, f, c) == isa(w0, b, f, c)
  }

  // and whatever flash holds elsewhere.
  ghost predicate ReadsNoFlash(isa: Isa, w0: nat) {
    forall a: nat, f: seq<Byte>, g: seq<Byte>, c: Cpu :: c.Valid() ==> isa(w0, a, f, c) == isa(w0, a, g, c)
  }

  lemma PatchedFetch(p: seq<Byte>, at: set<nat>, pc: nat)
    requires |p| == FLASH_SIZE
    ensures Fetch(Patched(p, at), pc) == if 2 * (pc % 0x1_0000) in at then 0x9598 else Fetch(p, pc)
  {
  }

  // ----- Resuming and stepping -----

  // The state in which a step is well defined: the mark tells the truth and the instruction is not
  // hidden under a BREAK unless the mark is set.
  ghost predicate Ready(core: Core)
    reads core, core.dev, core.swBp, core.dev.flash
  {
    core.Valid() && core.MarkAgrees() && AvrIsa(core.dev.isa) && core.dev.cpu.pc != 0xFFFF &&
    (!core.pcDirty ==> 2 * core.dev.cpu.pc !in core.View().sw) &&
    (IsCall(Fetch(core.program, core.dev.cpu.pc)) ==> core.dev.cpu.sp >= 0x40)
  }

  // The program's opcode at PC with BREAKs planted at sw: it sees the word behind it, and all of flash, as patched.
  function Seen(isa: Isa, p: seq<Byte>, sw: set<nat>, c: Cpu): Cpu
    requires |p| == FLASH_SIZE
  {
    isa(Fetch(p, c.pc), Fetch(Patched(p, sw), c.pc + 1), Patched(p, sw), c)
  }

  // No BREAK is planted behind the instruction, or the program has one there itself.
  predicate NextWordIntact(p: seq<Byte>, sw: set<nat>, pc: nat)
    requires |p| == FLASH_SIZE
  {
    2 * ((pc + 1) % 0x1_0000) in sw ==> Fetch(p, pc + 1) == BREAK_WORD
  }

  // No BREAK gets in the way of the instruction: not behind it, and none at all if it reads flash as data.
  ghost predicate Undisturbed(isa: Isa, p: seq<Byte>, sw: set<nat>, c: Cpu)
    requires |p| == FLASH_SIZE
  {
    (NextWordIntact(p, sw, c.pc) || IgnoresNext(isa, Fetch(p, c.pc))) &&
    (sw == {} || ReadsNoFlash(isa, Fetch(p, c.pc)))
  }

  // A CALL or JMP does with one second word what it does with another exactly when they are the same.
  lemma CofNeedsNext(isa: Isa, w0: nat, a: nat, b: nat, f: seq<Byte>, g: seq<Byte>, c: Cpu)
    requires AvrIsa(isa) && c.Valid() && a < 0x1_0000 && b < 0x1_0000
    requires IsJmp(w0) || (IsCall(w0) && c.sp >= 0x40)
    ensures isa(w0, a, f, c) == isa(w0, b, g, c) <==> a == b
  {
    assert IsaCase(isa, w0, a, f, c) && IsaCase(isa, w0, b, g, c);
  }

  lemma FetchedWord(f: seq<Byte>, pc: nat)
    requires |f| == FLASH_SIZE
    ensures Fetch(f, pc) < 0x1_0000
  {
  }

  lemma PatchedNowhere(p: seq<Byte>)
    ensures Patched(p, {}) == p
  {
  }

  // What is seen is the program's own instruction: always if no BREAK gets in the way, and for CALL and JMP
  // exactly if the next word is intact. For other instructions that look at the next word or at flash
  // nothing more is known than what they see.
  lemma SeenIsProgramsIff(isa: Isa, p: seq<Byte>, sw: set<nat>, c: Cpu)
    requires AvrIsa(isa) && |p| == FLASH_SIZE && c.Valid() && (IsCall(Fetch(p, c.pc)) ==> c.sp >= 0x40)
    ensures var w0, exact := Fetch(p, c.pc), Seen(isa, p, sw, c) == Execute(isa, p, c);
      var intact := 2 * ((c.pc + 1) % 0x1_0000) !in sw || Fetch(p, c.pc + 1) == 0x9598;
      && ((intact || IgnoresNext(isa, w0)) && (sw == {} || ReadsNoFlash(isa, w0)) ==> exact)
      && (Undisturbed(isa, p, sw, c) ==> exact)
      && (IsCall(w0) || IsJmp(w0) ==> (exact <==> intact))
  {
    hide Patched, Fetch, AvrIsa, IsCall, IsJmp;
    var w0 := Fetch(p, c.pc);
    PatchedFetch(p, sw, c.pc + 1);
    FetchedWord(p, c.pc + 1);
    PatchedNowhere(p);
    var a, b, f := Fetch(Patched(p, sw), c.pc + 1), Fetch(p, c.pc + 1), Patched(p, sw);
    assert IgnoresNext(isa, w0) ==> isa(w0, a, f, c) == isa(w0, b, f, c);
    assert ReadsNoFlash(isa, w0) ==> isa(w0, b, f, c) == isa(w0, b, p, c);
    if IsCall(w0) || IsJmp(w0) {
      CofNeedsNext(isa, w0, a, b, f, p, c);
    }
  }

  // For example JMP 0x0200 at address 0 with a BREAK planted on its second word: it goes to byte address
  // 0x12B30 instead.
  lemma PlantedTargetExample(isa: Isa, p: seq<Byte>, c: Cpu)
    requires AvrIsa(isa) && |p| == FLASH_SIZE && c.Valid() && c.pc == 0
    requires Fetch(p, 0) == 0x940C && Fetch(p, 1) == 0x0100
    ensures Execute(isa, p, c).pc == 0x0100 && Seen(isa, p, {2}, c).pc == 0x9598
  {
    hide Fetch, Patched;
    PatchedFetch(p, {2}, 1);
    assert IsaCase(isa, 0x940C, 0x0100, p, c) && IsaCase(isa, 0x940C, 0x9598, Patched(p, {2}), c);
  }

  // And LPM, which loads the flash byte Z points at into r0: at a planted address it loads half a BREAK.
  lemma LoadSeesBreakExample(isa: Isa, p: seq<Byte>, c: Cpu, z: nat)
    requires |p| == FLASH_SIZE && c.Valid() && z % 2 == 0 && z < FLASH_SIZE
    requires var lo: nat, hi: nat := c.gpr[30], c.gpr[31]; z == lo + 0x100 * hi
    requires Fetch(p, c.pc) == 0x95C8 && z != 2 * ((c.pc + 1) % 0x1_0000)
    requires forall w1: nat, f: seq<Byte> ::
      |f| == FLASH_SIZE ==> isa(0x95C8, w1, f, c).gpr == c.gpr[0 := f[z]]
    ensures Seen(isa, p, {z}, c).gpr[0] == 0x98 && Execute(isa, p, c).gpr[0] == p[z]
  {
    hide Fetch;
    assert Patched(p, {z})[z] == 0x98;
  }

  lemma WordAt(core: Core, byteAddr: nat)
    requires core.Valid() && byteAddr % 2 == 0 && byteAddr < FLASH_SIZE
    ensures Fetch(core.dev.flash[..], byteAddr / 2) ==
      if byteAddr in core.View().sw then BREAK_WORD else Fetch(core.program, byteAddr / 2)
  {
    hide Patched, SwSet, Distinct, Saves;
    assert 2 * (byteAddr / 2 % 0x1_0000) == byteAddr;
    PatchedFetch(core.program, core.View().sw, byteAddr / 2);
  }

  method FlashWord(core: Core, byteAddr: nat) returns (w: nat)
    requires core.Valid() && byteAddr % 2 == 0 && byteAddr < FLASH_SIZE
    ensures w == Fetch(core.dev.flash[..], byteAddr / 2)
    ensures w == if byteAddr in core.View().sw then BREAK_WORD else Fetch(core.program, byteAddr / 2)
  {
    hide Patched, SwSet, Distinct, Saves, Fetch;
    WordAt(core, byteAddr);
    w := Fetch(core.dev.flash[..], byteAddr / 2);
  }

  lemma SavedWord(t: seq<SwBp>, p: seq<Byte>, i: nat)
    requires Saves(t, p) && i < |t| && t[i].inUse && |p| == FLASH_SIZE
    ensures t[i].addr % 2 == 0 && t[i].addr < FLASH_SIZE && |t[i].orig| == 2
    ensures var lo: nat, hi: nat := t[i].orig[0], t[i].orig[1];
      lo + 0x100 * hi == Fetch(p, t[i].addr / 2)
  {
  }

  // The first word of the program's own instruction at pc, whether or not a BREAK covers it.
  method ProgramWord(core: Core, pc: nat) returns (w: nat)
    requires core.Valid() && pc % 2 == 0 && pc < FLASH_SIZE
    ensures w == Fetch(core.program, pc / 2)
  {
    hide Patched, Distinct, SwSet, Saves, Fetch;
    w := FlashWord(core, pc);
    if w == BREAK_WORD {
      var i := core.FindSw(pc);
      if i >= 0 {
        SavedWord(core.swBp[..], core.program, i);
        var lo: nat, hi: nat := core.swBp[i].orig[0], core.swBp[i].orig[1];
        w := lo + 0x100 * hi;
      }
    }
  }

  // Execute the instruction a fresh PC write would skip.  A direct CALL or JMP is left to the caller.
  method ConsumePcSkip(core: Core) returns (injected: bool)
    requires Ready(core)
    modifies core`pcDirty, core.dev`cpu, core.dev`skipNext
    ensures core.Valid() && !core.pcDirty
    ensures injected ==>
      !core.dev.skipNext && core.dev.cpu == Seen(core.dev.isa, core.program, core.View().sw, old(core.dev.cpu))
    ensures !injected ==> core.dev.cpu == old(core.dev.cpu) && core.dev.skipNext == old(core.dev.skipNext)
    ensures !injected ==> 2 * core.dev.cpu.pc !in core.View().sw
    ensures var w0 := Fetch(core.program, old(core.dev.cpu).pc);
      injected <==> old(core.pcDirty) && (2 * old(core.dev.cpu).pc in core.View().sw || !(IsCall(w0) || IsJmp(w0)))
  {
    hide Patched, SwSet, Distinct, Saves, Fetch;
    if !core.pcDirty {
      return false;
    }
    core.pcDirty := false;
    var pc := core.dev.ReadPc();
    assert pc == 2 * core.dev.cpu.pc;
    var w0 := FlashWord(core, pc);
    if IsCall(w0) || IsJmp(w0) {
      return false;
    }
    var exec := ProgramWord(core, pc);
    core.dev.StepInjected(exec);
    return true;
  }

  // The stack pointer through its two bytes in data space.
  method WriteSp(dev: Device, sp: nat)
    requires dev.Valid() && sp < 0x1_0000
    modifies dev`cpu
    ensures dev.Valid() && dev.cpu == old(dev.cpu).(sp := sp)
  {
    dev.WriteData(0x3D, sp % 0x100);
    assert dev.cpu.sp % 0x100 == sp % 0x100;
    dev.WriteData(0x3E, sp / 0x100);
  }

  // Emulate a direct 32-bit CALL (with a return address to push) or JMP (without).
  method EmulateCof(dev: Device, pushReturn: nat, target: nat)
    requires dev.Valid() && (pushReturn != 0 ==> dev.cpu.sp >= 0x40)
    modifies dev`cpu, dev`skipNext
    ensures dev.Valid() && dev.skipNext
    ensures pushReturn == 0 ==> dev.cpu == old(dev.cpu).(pc := WrittenPc(target))
    ensures pushReturn != 0 ==>
      var c, ret := old(dev.cpu), pushReturn / 2;
      dev.cpu == c.(sram := c.sram[c.sp := ret % 0x100][c.sp - 1 := ret / 0x100 % 0x100],
                    sp := c.sp - 2, pc := WrittenPc(target))
  {
    hide WrittenPc;
    if pushReturn == 0 {
      dev.WritePc(target);
      return;
    }
    var sp := dev.cpu.sp;
    var ret := pushReturn / 2;
    dev.WriteData(sp - 1, ret / 0x100 % 0x100);
    dev.WriteData(sp, ret % 0x100);
    WriteSp(dev, sp - 2);
    dev.WritePc(target);
    // The silicon may resync the stack pointer while the PC settles: write it again.
    WriteSp(dev, sp - 2);
    ghost var c := old(dev.cpu);
    assert c.sram[sp - 1 := ret / 0x100 % 0x100][sp := ret % 0x100]
      == c.sram[sp := ret % 0x100][sp - 1 := ret / 0x100 % 0x100];
  }

  lemma TargetReached(k: nat)
    ensures WrittenPc(2 * k) == k % 0x1_0000
  {
  }

  lemma ReturnBytes(pc: nat)
    requires pc < 0xFFFF
    ensures var ret, r := (2 * pc + 4) / 2, (pc + 2) % 0x1_0000;
      ret % 0x100 == r % 0x100 && ret / 0x100 % 0x100 == r / 0x100
  {
  }

  // The emulated change of flow is the instruction's own.
  method StepCof(core: Core, w0: nat, w1: nat)
    requires core.Valid() && AvrIsa(core.dev.isa) && core.dev.cpu.pc < 0xFFFF
    requires (IsCall(w0) || IsJmp(w0)) && (IsCall(w0) ==> core.dev.cpu.sp >= 0x40)
    modifies core`pcDirty, core.dev`cpu, core.dev`skipNext
    ensures core.Valid() && core.pcDirty && core.dev.skipNext
    ensures core.dev.cpu == core.dev.isa(w0, w1, core.dev.flash[..], old(core.dev.cpu))
  {
    hide Patched, SwSet, Distinct, Saves, TargetWord, WrittenPc, IsCall, IsJmp;
    var pc := 2 * core.dev.cpu.pc;
    var k := TargetWord(w0, w1);
    TargetReached(k);
    ReturnBytes(core.dev.cpu.pc);
    assert IsaCase(core.dev.isa, w0, w1, core.dev.flash[..], core.dev.cpu);
    EmulateCof(core.dev, if IsCall(w0) then pc + 4 else 0, 2 * k);
    core.pcDirty := true;
  }

  lemma ExecuteUncovered(core: Core)
    requires core.Valid() && core.dev.cpu.pc < 0xFFFF && 2 * core.dev.cpu.pc !in core.View().sw
    ensures Execute(core.dev.isa, core.dev.flash[..], core.dev.cpu)
         == Seen(core.dev.isa, core.program, core.View().sw, core.dev.cpu)
  {
    hide Patched, SwSet, Distinct, Saves, Fetch;
    WordAt(core, 2 * core.dev.cpu.pc);
  }

  // Everything but CALL and JMP: the silicon steps it, a 32-bit load or store with the help of a comparator.
  method StepPlain(core: Core, w0: nat, budget: nat)
    requires core.Valid() && AvrIsa(core.dev.isa) && core.dev.cpu.pc < 0xFFFF && !core.dev.skipNext && budget > 0
    requires w0 == Fetch(core.dev.flash[..], core.dev.cpu.pc)
    modifies core.dev`cpu, core.dev`skipNext, core.dev`bpAddr, core.dev`bpOn, core.dev`bpGate
    ensures core.Valid() && !core.dev.skipNext
    ensures core.dev.cpu == Execute(core.dev.isa, core.dev.flash[..], old(core.dev.cpu))
  {
    hide Patched, SwSet, Distinct, Saves, Fetch, IsLdsSts;
    var c := core.dev.cpu;
    if IsLdsSts(w0) {
      assert IsaCase(core.dev.isa, w0, Fetch(core.dev.flash[..], c.pc + 1), core.dev.flash[..], c);
      var ok := core.dev.Step32(1, 2 * c.pc + 4, budget);
    } else {
      core.dev.Step();
    }
  }

  // One instruction of the unpatched program, whatever BREAK covers it and whatever was written to PC; what it
  // reads of flash beyond its opcode, it sees as patched.
  method StepOver(core: Core, budget: nat)
    requires Ready(core) && budget > 0
    modifies core`pcDirty, core.dev`cpu, core.dev`skipNext, core.dev`bpAddr, core.dev`bpOn, core.dev`bpGate
    ensures core.Valid() && core.MarkAgrees() && core.View() == old(core.View())
    ensures var c, sw := old(core.dev.cpu), core.View().sw;
      var w0, one := Fetch(core.program, c.pc), Execute(core.dev.isa, core.program, c);
      && core.dev.cpu == Seen(core.dev.isa, core.program, sw, c)
      && (Undisturbed(core.dev.isa, core.program, sw, c) ==> core.dev.cpu == one)
      && (IsCall(w0) || IsJmp(w0) ==> (core.dev.cpu == one <==> NextWordIntact(core.program, sw, c.pc)))
      && (core.pcDirty <==> (IsCall(w0) || IsJmp(w0)) && 2 * c.pc !in sw)
  {
    hide Patched, SwSet, Distinct, Saves, Fetch, IsLdsSts, IsCall, IsJmp, TargetWord, IgnoresNext, AvrIsa, Seen,
      Undisturbed;
    SeenIsProgramsIff(core.dev.isa, core.program, core.View().sw, core.dev.cpu);
    StepOnFlash(core, budget);
  }

  method StepOnFlash(core: Core, budget: nat)
    requires Ready(core) && budget > 0
    modifies core`pcDirty, core.dev`cpu, core.dev`skipNext, core.dev`bpAddr, core.dev`bpOn, core.dev`bpGate
    ensures core.Valid() && core.MarkAgrees() && core.View() == old(core.View())
    ensures core.dev.cpu == Seen(core.dev.isa, core.program, core.View().sw, old(core.dev.cpu))
    ensures var w0 := Fetch(core.program, old(core.dev.cpu).pc);
      core.pcDirty <==> (IsCall(w0) || IsJmp(w0)) && 2 * old(core.dev.cpu).pc !in core.View().sw
  {
    hide Patched, SwSet, Distinct, Saves, Fetch, IsLdsSts, IsCall, IsJmp, TargetWord, AvrIsa;
    var done := ConsumePcSkip(core);
    if done {
      return;
    }
    var pc := core.dev.ReadPc();
    assert pc == 2 * core.dev.cpu.pc;
    var w0 := FlashWord(core, pc);
    var w1 := FlashWord(core, pc + 2);
    if IsCall(w0) || IsJmp(w0) {
      StepCof(core, w0, w1);
    } else {
      ExecuteUncovered(core);
      StepPlain(core, w0, budget);
    }
  }

  // ----- Resuming from a breakpoint (src/dap.c) -----

  datatype DapBp = DapBp(addr: nat, verified: bool, inUse: bool)

  predicate HasEntry(bps: seq<DapBp>, pc: nat) {
    exists i :: 0 <= i < |bps| && bps[i] == DapBp(pc, true, true)
  }

  function LiftedAt(a: Arbiter, bps: seq<DapBp>, pc: nat): Arbiter {
    if HasEntry(bps, pc) then Policy.Remove(a, Z0, AutoMode, pc) else a
  }

  function PlantedAt(a: Arbiter, bps: seq<DapBp>, pc: nat): Arbiter {
    if HasEntry(bps, pc) then Policy.Insert(a, Z0, AutoMode, pc).0 else a
  }

  lemma HasEntryNext(bps: seq<DapBp>, k: nat, pc: nat)
    requires k < |bps|
    ensures HasEntry(bps[..k + 1], pc) <==> HasEntry(bps[..k], pc) || bps[k] == DapBp(pc, true, true)
  {
  }

  // A second request at the same address finds nothing left to do.
  lemma Idempotent(a: Arbiter, pc: nat)
    requires Disjoint(a) && !InDataSpace(pc)
    ensures var b := Policy.Remove(a, Z0, AutoMode, pc); Policy.Remove(b, Z0, AutoMode, pc) == b
    ensures var b := Policy.Insert(a, Z0, AutoMode, pc).0; Policy.Insert(b, Z0, AutoMode, pc).0 == b
  {
  }

  method LiftEntries(core: Core, bps: seq<DapBp>, pc: nat)
    requires core.Valid() && Disjoint(core.View()) && Target(pc) && !InDataSpace(pc)
    modifies core, core.swBp, core.dev, core.dev.flash
    ensures core.Valid() && core.View() == LiftedAt(old(core.View()), bps, pc)
    ensures SameCpu(old(core.dev.cpu), core.dev.cpu)
    ensures old(core.MarkAgrees()) ==> core.MarkAgrees()
    ensures !HasEntry(bps, pc) ==> core.pcDirty == old(core.pcDirty)
  {
    hide Patched, Distinct, SwSet, Saves;
    ghost var a := core.View();
    Idempotent(a, pc);
    SameCpuReflexive(core.dev.cpu);
    assert bps[..0] == [];
    for k := 0 to |bps|
      invariant core.Valid() && core.View() == LiftedAt(a, bps[..k], pc)
      invariant SameCpu(old(core.dev.cpu), core.dev.cpu)
      invariant old(core.MarkAgrees()) ==> core.MarkAgrees()
      invariant !HasEntry(bps[..k], pc) ==> core.pcDirty == old(core.pcDirty)
    {
      HasEntryNext(bps, k, pc);
      if bps[k].inUse && bps[k].verified && bps[k].addr == pc {
        core.Remove(Z0, AutoMode, pc);
      }
    }
    assert bps[..|bps|] == bps;
  }

  method PlantEntries(core: Core, bps: seq<DapBp>, pc: nat)
    requires core.Valid() && Disjoint(core.View()) && Target(pc) && !InDataSpace(pc)
    modifies core, core.swBp, core.dev, core.dev.flash
    ensures core.Valid() && core.View() == PlantedAt(old(core.View()), bps, pc)
    ensures SameCpu(old(core.dev.cpu), core.dev.cpu)
    ensures old(core.MarkAgrees()) ==> core.MarkAgrees()
    ensures core.pcDirty <==> old(core.pcDirty) || core.View().sw != old(core.View()).sw
  {
    hide Patched, Distinct, SwSet, Saves;
    ghost var a := core.View();
    Idempotent(a, pc);
    SameCpuReflexive(core.dev.cpu);
    assert bps[..0] == [];
    for k := 0 to |bps|
      invariant core.Valid() && core.View() == PlantedAt(a, bps[..k], pc)
      invariant SameCpu(old(core.dev.cpu), core.dev.cpu)
      invariant old(core.MarkAgrees()) ==> core.MarkAgrees()
      invariant core.pcDirty <==> old(core.pcDirty) || core.View().sw != a.sw
    {
      HasEntryNext(bps, k, pc);
      if bps[k].inUse && bps[k].verified && bps[k].addr == pc {
        var _ := core.Insert(Z0, AutoMode, pc);
      }
    }
    assert bps[..|bps|] == bps;
  }

  // What a resume from the current pc needs: a step is well defined once the breakpoint there is lifted.
  ghost predicate CanResume(core: Core, bps: seq<DapBp>)
    reads core, core.dev, core.swBp, core.dev.flash
  {
    core.Valid() && core.MarkAgrees() && Disjoint(core.View()) && core.View().Fits() &&
    AvrIsa(core.dev.isa) && core.dev.cpu.pc != 0xFFFF &&
    (IsCall(Fetch(core.program, core.dev.cpu.pc)) ==> core.dev.cpu.sp >= 0x40) &&
    (!HasEntry(bps, 2 * core.dev.cpu.pc) && !core.pcDirty ==> 2 * core.dev.cpu.pc !in core.View().sw)
  }

  // The CPU when the free run starts: one instruction on, seen with the breakpoint at pc lifted.
  ghost predicate OneOn(isa: Isa, p: seq<Byte>, a: Arbiter, bps: seq<DapBp>, c: Cpu, start: Cpu)
    requires |p| == FLASH_SIZE && c.Valid() && start.Valid() && KeepsCpus(isa)
  {
    var sw := LiftedAt(a, bps, 2 * c.pc).sw;
    var one := Seen(isa, p, sw, c);
    one.Valid() && SameCpu(one, start) && (Undisturbed(isa, p, sw, c) ==> one == Execute(isa, p, c))
  }

  // The run that ends the dance, followed for its first instruction. It finds what an insertion at pc makes of the
  // breakpoints (the same ones if each was armed) and the CPU one instruction on (start), but a mark set by
  // an emulated CALL or JMP, or by planting a BREAK again, is not consumed: the silicon skips the first
  // instruction, and the mark outlives the flag.
  method ResumeOverCurrent(core: Core, bps: seq<DapBp>, budget: nat) returns (ghost start: Cpu)
    requires CanResume(core, bps) && budget > 0
    modifies core, core.swBp, core.dev, core.dev.flash
    ensures core.Valid() && Redone(old(core.View()), bps, 2 * old(core.dev.cpu).pc, core.View())
    ensures start.Valid() && OneOn(core.dev.isa, core.program, old(core.View()), bps, old(core.dev.cpu), start)
    ensures core.dev.cpu == if core.pcDirty then start.(pc := (start.pc + 1) % 0x1_0000)
                            else Execute(core.dev.isa, core.dev.flash[..], start)
    ensures core.pcDirty <==> ResumeMarks(core.program, core.View().sw, bps, old(core.dev.cpu).pc)
    ensures core.MarkAgrees() <==> !core.pcDirty
  {
    hide Patched, SwSet, Distinct, Saves, Fetch, AvrIsa, HasEntry, Disjoint, Arbiter.Fits, ResumeMarks, Redone, OneOn;
    start := StepAndReplant(core, bps, budget);
    RunFirst(core);
  }

  // The breakpoints after lifting and planting at pc: all that were armed, if the one at pc was.
  predicate Redone(a: Arbiter, bps: seq<DapBp>, pc: nat, b: Arbiter) {
    b == PlantedAt(LiftedAt(a, bps, pc), bps, pc) &&
    ((HasEntry(bps, pc) ==> pc in a.Armed()) ==> b.Armed() == a.Armed())
  }

  // The first instruction of a free run.
  method RunFirst(core: Core)
    requires core.Valid()
    modifies core.dev`cpu, core.dev`skipNext
    ensures core.Valid() && !core.dev.skipNext && core.View() == old(core.View())
    ensures core.dev.cpu == if old(core.dev.skipNext)
                            then old(core.dev.cpu).(pc := (old(core.dev.cpu).pc + 1) % 0x1_0000)
                            else Execute(core.dev.isa, core.dev.flash[..], old(core.dev.cpu))
  {
    hide Patched, SwSet, Distinct, Saves, Fetch;
    core.dev.Step();
  }

  // Whether the dance at pc leaves the mark set: the instruction was a CALL or JMP in the open, or its BREAK
  // went back into flash (sw are the patched addresses afterwards).
  predicate ResumeMarks(program: seq<Byte>, sw: set<nat>, bps: seq<DapBp>, pc: nat)
    requires |program| == FLASH_SIZE
  {
    var w0 := Fetch(program, pc);
    ((IsCall(w0) || IsJmp(w0)) && (HasEntry(bps, 2 * pc) || 2 * pc !in sw)) ||
    (HasEntry(bps, 2 * pc) && 2 * pc in sw)
  }

  // Remove, step, insert again.
  method StepAndReplant(core: Core, bps: seq<DapBp>, budget: nat) returns (ghost start: Cpu)
    requires CanResume(core, bps) && budget > 0
    modifies core, core.swBp, core.dev, core.dev.flash
    ensures core.Valid() && core.MarkAgrees() && Redone(old(core.View()), bps, 2 * old(core.dev.cpu).pc, core.View())
    ensures start == core.dev.cpu
    ensures OneOn(core.dev.isa, core.program, old(core.View()), bps, old(core.dev.cpu), start)
    ensures core.pcDirty <==> ResumeMarks(core.program, core.View().sw, bps, old(core.dev.cpu).pc)
  {
    hide Patched, SwSet, Distinct, Saves, Fetch, IsLdsSts, IsCall, IsJmp, IgnoresNext, AvrIsa, HasEntry,
      LiftedAt, PlantedAt, Disjoint, Arbiter.Fits, Arbiter.Armed, Undisturbed, Seen;
    var pc := core.dev.ReadPc();
    assert pc == 2 * core.dev.cpu.pc;
    FlashIsNotData(pc);
    LiftThenPlantAt(core.View(), bps, pc);
    LiftForStep(core, bps, pc);
    StepOver(core, budget);
    LiftPlantAlone(core.View(), bps, pc);
    PlantEntries(core, bps, pc);
    start := core.dev.cpu;
  }

  // After lifting, the instruction is in the open.
  method LiftForStep(core: Core, bps: seq<DapBp>, pc: nat)
    requires CanResume(core, bps) && pc == 2 * core.dev.cpu.pc
    modifies core, core.swBp, core.dev, core.dev.flash
    ensures Ready(core) && core.View() == LiftedAt(old(core.View()), bps, pc) && core.dev.cpu == old(core.dev.cpu)
  {
    hide Patched, SwSet, Distinct, Saves, Fetch, IsLdsSts, IsCall, IsJmp, IgnoresNext, AvrIsa, HasEntry,
      LiftedAt, PlantedAt, Disjoint, Arbiter.Fits, Arbiter.Armed;
    FlashIsNotData(pc);
    LiftThenPlantAt(core.View(), bps, pc);
    LiftEntries(core, bps, pc);
  }

  lemma FlashIsNotData(pc: nat)
    requires pc < FLASH_SIZE
    ensures !InDataSpace(pc)
  {
  }

  // Both only touch their own address.
  lemma RemoveAlone(a: Arbiter, pc: nat, x: nat)
    requires x != pc
    ensures x in Policy.Remove(a, Z0, AutoMode, pc).sw <==> x in a.sw
  {
  }

  lemma InsertAlone(a: Arbiter, pc: nat)
    ensures var b := Policy.Insert(a, Z0, AutoMode, pc).0; b.sw == if pc in b.sw then a.sw + {pc} else a.sw
  {
    var b := Policy.Insert(a, Z0, AutoMode, pc).0;
    assert b.sw == a.sw || b.sw == a.sw + {pc};
  }

  lemma LiftPlantAlone(a: Arbiter, bps: seq<DapBp>, pc: nat)
    ensures var b := LiftedAt(a, bps, pc); forall x :: x != pc ==> (x in b.sw <==> x in a.sw)
    ensures var b := PlantedAt(a, bps, pc); b.sw == if HasEntry(bps, pc) && pc in b.sw then a.sw + {pc} else a.sw
  {
    hide HasEntry, Policy.Remove, Policy.Insert;
    forall x | x != pc { RemoveAlone(a, pc, x); }
    InsertAlone(a, pc);
  }

  lemma LiftThenPlantAt(a: Arbiter, bps: seq<DapBp>, pc: nat)
    requires a.Fits() && Disjoint(a) && !InDataSpace(pc)
    ensures var b := LiftedAt(a, bps, pc);
      Disjoint(b) && (HasEntry(bps, pc) ==> pc !in b.sw) && (!HasEntry(bps, pc) ==> b == a) &&
      Redone(a, bps, pc, PlantedAt(b, bps, pc))
  {
    if HasEntry(bps, pc) {
      if pc in a.Armed() {
        LiftThenPlant(a, pc);
      }
      RemoveDisarmsIff(a, Z0, AutoMode, pc);
      hide Insert, Arbiter.Fits;
    }
  }
}
