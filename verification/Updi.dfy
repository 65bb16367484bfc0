/** The chip behind the UPDI link (src/updi.c): flash programming, comparators, OCD registers, stepping. */
module Updi {
  import opened Bytes

  const PAGE: nat := 512
  const FLASH_BASE: nat := 0x80_0000
  const FLASH_SIZE: nat := 0x2_0000
  const PERIPH_LEN: nat := 0xBC0
  const ERASED: Byte := 0xFF

  // ----- Flash cells -----

  // Bitwise and: all that programming can do to a cell.
  function And(a: nat, b: nat): nat {
    if a == 0 || b == 0 then 0 else (a % 2) * (b % 2) + 2 * And(a / 2, b / 2)
  }

  lemma {:induction false} AndBounded(a: nat, b: nat)
    ensures And(a, b) <= b
  {
    if a != 0 && b != 0 {
      AndBounded(a / 2, b / 2);
    }
  }

  // Bit by bit.
  lemma {:induction false} AndBits(a: nat, b: nat, k: nat)
    ensures Bit(And(a, b), k) <==> Bit(a, k) && Bit(b, k)
    decreases k
  {
    if a == 0 || b == 0 {
      NoBits(k);
    } else if k > 0 {
      AndBits(a / 2, b / 2, k - 1);
      assert And(a, b) / 2 == And(a / 2, b / 2);
    }
  }

  function Cell(cell: Byte, v: Byte): Byte {
    AndBounded(cell, v);
    And(cell, v)
  }

  lemma ErasedCellTakes(v: Byte)
    ensures Cell(ERASED, v) == v
  {
    AndOnes(ERASED, v, 8);
  }

  lemma {:induction false} AndOnes(m: nat, v: nat, n: nat)
    requires m + 1 == Pow2(n) && v < Pow2(n)
    ensures And(m, v) == v
  {
    if n > 0 && v != 0 {
      AndOnes(m / 2, v / 2, n - 1);
    }
  }

  // ----- Flash images -----

  // The bytes from `at` on replaced by data, everything else kept.
  function Overlay(f: seq<Byte>, at: nat, data: seq<Byte>): (r: seq<Byte>)
    requires at + |data| <= |f|
    ensures |r| == |f|
    ensures forall i :: 0 <= i < |f| ==> r[i] == if at <= i < at + |data| then data[i - at] else f[i]
  {
    f[..at] + data + f[at + |data|..]
  }

  // What programming leaves when the cells were not erased first.
  function Program(f: seq<Byte>, at: nat, data: seq<Byte>): (r: seq<Byte>)
    requires at + |data| <= |f|
    ensures |r| == |f|
  {
    Overlay(f, at, seq(|data|, i requires 0 <= i < |data| => Cell(f[at + i], data[i])))
  }

  function Blank(n: nat): (r: seq<Byte>)
    ensures |r| == n && forall i :: 0 <= i < n ==> r[i] == ERASED
  {
    seq(n, _ => ERASED)
  }

  // Bit k of a number.
  predicate Bit(n: nat, k: nat) {
    if k == 0 then n % 2 == 1 else Bit(n / 2, k - 1)
  }

  lemma {:induction false} NoBits(k: nat)
    ensures !Bit(0, k)
  {
    if k > 0 {
      NoBits(k - 1);
    }
  }

  // Every bit of b is one of a.
  ghost predicate Within(b: nat, a: nat) { forall k: nat :: Bit(b, k) ==> Bit(a, k) }

  lemma WithinStep(b: nat, a: nat)
    ensures Within(b, a) <==> (b % 2 == 1 ==> a % 2 == 1) && Within(b / 2, a / 2)
  {
    if Within(b, a) {
      assert Bit(b, 0) ==> Bit(a, 0);
      forall k: nat
        ensures Bit(b / 2, k) ==> Bit(a / 2, k)
      {
        assert Bit(b, k + 1) ==> Bit(a, k + 1);
      }
    }
    if (b % 2 == 1 ==> a % 2 == 1) && Within(b / 2, a / 2) {
      forall k: nat
        ensures Bit(b, k) ==> Bit(a, k)
      {
        assert k > 0 ==> (Bit(b / 2, k - 1) ==> Bit(a / 2, k - 1));
      }
    }
  }

  lemma {:induction false} AndKeepsIff(a: nat, b: nat)
    ensures And(a, b) == b <==> Within(b, a)
    decreases b
  {
    if b == 0 {
      forall k: nat { NoBits(k); }
    } else {
      hide Within;
      WithinStep(b, a);
      AndKeepsIff(a / 2, b / 2);
    }
  }

  // Programming alone stores the data exactly when no bit would have to rise from 0 to 1,
  lemma ProgramExactIff(f: seq<Byte>, at: nat, data: seq<Byte>)
    requires at + |data| <= |f|
    ensures Program(f, at, data) == Overlay(f, at, data)
      <==> forall i :: 0 <= i < |data| ==> Within(data[i], f[at + i])
  {
    var d := seq(|data|, i requires 0 <= i < |data| => Cell(f[at + i], data[i]));
    forall i | 0 <= i < |data|
      ensures d[i] == data[i] <==> Within(data[i], f[at + i])
    {
      AndKeepsIff(f[at + i], data[i]);
    }
    hide Cell, And, Overlay, Within;
    if Program(f, at, data) == Overlay(f, at, data) {
      forall i | 0 <= i < |data|
        ensures d[i] == data[i]
      {
        assert Program(f, at, data)[at + i] == Overlay(f, at, data)[at + i];
      }
    } else if d == data {
      assert false;
    }
  }

  // and always after an erase.
  lemma EraseThenProgram(f: seq<Byte>, at: nat, data: seq<Byte>)
    requires at + |data| <= |f|
    ensures Program(Overlay(f, at, Blank(|data|)), at, data) == Overlay(f, at, data)
  {
    forall i | 0 <= i < |data|
      ensures Cell(ERASED, data[i]) == data[i]
    {
      ErasedCellTakes(data[i]);
    }
  }

  // A cell holding 0x00 keeps it: without the erase the data is lost.
  lemma UnerasedExample()
    ensures Program([0x00], 0, [0x98]) != Overlay([0x00], 0, [0x98])
  {
    assert Program([0x00], 0, [0x98])[0] == 0x00;
    assert Overlay([0x00], 0, [0x98])[0] == 0x98;
  }

  lemma ProgramAt(f: seq<Byte>, at: nat, data: seq<Byte>, i: nat)
    requires at + |data| <= |f| && i < |f|
    ensures Program(f, at, data)[i] == if at <= i < at + |data| then Cell(f[i], data[i - at]) else f[i]
  {
    hide Cell, Overlay;
    var d := seq(|data|, j requires 0 <= j < |data| => Cell(f[at + j], data[j]));
    assert Program(f, at, data)[i] == if at <= i < at + |data| then d[i - at] else f[i];
  }

  lemma ProgramNone(f: seq<Byte>, at: nat)
    requires at <= |f|
    ensures Program(f, at, []) == f
  {
  }

  // Rewriting a whole page with its own content patched is patching the flash.
  lemma OverlayPage(f: seq<Byte>, page: nat, lo: nat, data: seq<Byte>)
    requires page + PAGE <= |f| && page <= lo && lo + |data| <= page + PAGE
    ensures Overlay(f, page, Overlay(f[page..page + PAGE], lo - page, data)) == Overlay(f, lo, data)
  {
  }

  lemma OverlayExtend(f: seq<Byte>, at: nat, data: seq<Byte>, a: nat, b: nat)
    requires a <= b <= |data| && at + |data| <= |f|
    ensures Overlay(Overlay(f, at, data[..a]), at + a, data[a..b]) == Overlay(f, at, data[..b])
  {
  }

  predicate IsPage(a: int) {
    a >= 0 && a % PAGE == 0
  }

  lemma StartsOnPage(at: nat)
    ensures IsPage(at - at % PAGE)
  {
  }

  // A page that starts below the end of the flash lies inside it.
  lemma PageFits(page: nat, end: nat)
    requires IsPage(page) && page < end <= FLASH_SIZE
    ensures page + PAGE <= FLASH_SIZE && IsPage(page + PAGE)
  {
  }

  // ----- The chip -----

  datatype Command = NoCommand | PageErase | PageWrite

  // The architectural state: 16-bit word PC, 16-bit stack pointer, 64 KiB data space.
  datatype Cpu = Cpu(gpr: seq<Byte>, sreg: Byte, sp: nat, pc: nat, sram: seq<Byte>) {
    predicate Valid() {
      |gpr| == 32 && sp < 0x1_0000 && pc < 0x1_0000 && |sram| == 0x1_0000
    }
  }

  // The instruction set: first word, second word, the flash image it may read as data, state before, state after.
  type Isa = (nat, nat, seq<Byte>, Cpu) -> Cpu

  ghost predicate KeepsCpus(isa: Isa) {
    forall w0: nat, w1: nat, f: seq<Byte>, c: Cpu :: c.Valid() ==> isa(w0, w1, f, c).Valid()
  }

  // The flash word at a 16-bit word address.
  function Fetch(f: seq<Byte>, pc: nat): nat
    requires |f| == FLASH_SIZE
  {
    var at := pc % 0x1_0000 * 2;
    var lo: nat, hi: nat := f[at], f[at + 1];
    lo + 0x100 * hi
  }

  // One instruction of the program in flash f.
  function Execute(isa: Isa, f: seq<Byte>, c: Cpu): Cpu
    requires |f| == FLASH_SIZE
  {
    isa(Fetch(f, c.pc), Fetch(f, c.pc + 1), f, c)
  }

  // The byte address the debugger reads from OCD.PC, which holds PC + 1 in 16 bits; raw 0 reads as 1.
  function ReadPcOf(pc: nat): nat
    requires pc < 0x1_0000
  {
    var raw := (pc + 1) % 0x1_0000;
    ((if raw == 0 then 1 else raw) - 1) * 2
  }

  // The word PC after writing a byte address to OCD.PC.
  function WrittenPc(byteAddr: nat): nat {
    var raw := (byteAddr / 2 + 1) % 0x1_0000;
    (raw + 0xFFFF) % 0x1_0000
  }

  // Both are byte addresses of 64 KiB of words; the word before raw 0 reads as 0.
  lemma PcIs(pc: nat, b: nat)
    requires pc < 0x1_0000
    ensures ReadPcOf(pc) == if pc == 0xFFFF then 0 else 2 * pc
    ensures WrittenPc(b) == b / 2 % 0x1_0000
  {
  }

  // Writing PC and reading it back gives the even byte address again exactly up to 0x1FFFC.
  lemma PcWriteReadIff(b: nat)
    requires b % 2 == 0
    ensures ReadPcOf(WrittenPc(b)) == b <==> b <= 0x1FFFC
  {
  }

  // Reading PC and writing it back keeps it exactly when OCD.PC is not raw 0.
  lemma PcReadWriteIff(pc: nat)
    requires pc < 0x1_0000
    ensures WrittenPc(ReadPcOf(pc)) == pc <==> (pc + 1) % 0x1_0000 != 0
  {
  }

  class Device {
    const flash: array<Byte>
    const isa: Isa
    const debugInSleep: bool
    var command: Command
    var nvmProg: bool
    var cpu: Cpu
    var skipNext: bool          // a fresh PC write makes the next step or run skip one instruction
    var periph: seq<Byte>       // data space 0x0040 to 0x0BFF
    var bpAddr: seq<nat>        // the two comparators, 17-bit byte addresses
    var bpOn: seq<bool>
    var bpGate: bool

    ghost predicate Valid()
      reads this
    {
      flash.Length == FLASH_SIZE && cpu.Valid() && |periph| == PERIPH_LEN && |bpAddr| == |bpOn| == 2 &&
      bpGate == (bpOn[0] || bpOn[1]) && KeepsCpus(isa)
    }

    ghost predicate Armed(slot: nat, addr: nat)
      requires Valid() && slot < 2
      reads this
    {
      bpOn[slot] && bpAddr[slot] == addr
    }

    constructor (debugInSleep: bool, image: array<Byte>, isa: Isa)
      requires image.Length == FLASH_SIZE && KeepsCpus(isa)
      ensures Valid() && flash == image && this.debugInSleep == debugInSleep && this.isa == isa
      ensures bpOn == [false, false]
    {
      flash, this.isa := image, isa;
      this.debugInSleep := debugInSleep;
      command, nvmProg := NoCommand, false;
      cpu := Cpu(seq(32, _ => 0), 0, 0x7FFF, 0, seq(0x1_0000, _ => 0));
      skipNext := false;
      periph := seq(PERIPH_LEN, _ => 0);
      bpAddr, bpOn, bpGate := [0, 0], [false, false], false;
    }

    // A system reset: comparators off, registers and peripherals lost, SRAM kept.
    method Reset()
      requires Valid()
      modifies this
      ensures Valid() && nvmProg == old(nvmProg) && cpu.sram == old(cpu.sram)
      ensures bpOn == [false, false] && !skipNext && command == NoCommand
    {
      var g: seq<Byte> := *;
      cpu := Cpu(if |g| == 32 then g else seq(32, _ => 0), 0, 0x7FFF, 0, cpu.sram);
      periph := seq(PERIPH_LEN, _ => 0);
      bpOn, bpGate, skipNext, command := [false, false], false, false, NoCommand;
    }

    method EnterNvmProg()
      requires Valid()
      modifies this
      ensures Valid() && nvmProg && cpu.sram == old(cpu.sram)
    {
      if nvmProg {
        return;
      }
      Reset();
      nvmProg := true;
    }

    method EnterDebug()
      requires Valid()
      modifies this
      ensures Valid() && !nvmProg && cpu.sram == old(cpu.sram)
      ensures bpOn == [false, false] && !skipNext && command == NoCommand
    {
      Reset();
      nvmProg := false;
    }

    // What one store into flash space does under the pending command.
    static function Stored(f: seq<Byte>, c: Command, i: nat, v: Byte): (r: seq<Byte>)
      requires |f| % PAGE == 0 && i < |f|
      ensures |r| == |f|
    {
      match c
      case NoCommand => f
      case PageErase => Overlay(f, i - i % PAGE, Blank(PAGE))
      case PageWrite => Program(f, i, [v])
    }

    static lemma ProgramNext(f: seq<Byte>, at: nat, data: seq<Byte>, k: nat, now: seq<Byte>)
      requires k < |data| && at + |data| <= |f| && |f| % PAGE == 0
      requires now == Program(f, at, data[..k])
      ensures Stored(now, PageWrite, at + k, data[k]) == Program(f, at, data[..k + 1])
    {
      hide Cell, Program;
      var l, r := Program(now, at + k, [data[k]]), Program(f, at, data[..k + 1]);
      forall i | 0 <= i < |f|
        ensures l[i] == r[i]
      {
        ProgramAt(f, at, data[..k], i);
        ProgramAt(now, at + k, [data[k]], i);
        ProgramAt(f, at, data[..k + 1], i);
      }
      assert l == r;
    }

    method Store(i: nat, v: Byte)
      requires Valid() && i < flash.Length
      modifies flash
      ensures flash[..] == Stored(old(flash[..]), command, i, v)
    {
      hide Overlay, Cell, And;
      match command
      case NoCommand =>
      case PageWrite =>
        flash[i] := Cell(flash[i], v);
      case PageErase =>
        var page := i - i % PAGE;
        for k := 0 to PAGE
          invariant flash[..] == Overlay(old(flash[..]), page, Blank(PAGE)[..k])
        {
          flash[page + k] := ERASED;
        }
        assert Blank(PAGE)[..PAGE] == Blank(PAGE);
    }

    method ErasePage(page: nat)
      requires Valid() && IsPage(page) && page < flash.Length
      modifies this`command, flash
      ensures Valid() && flash[..] == Overlay(old(flash[..]), page, Blank(PAGE))
    {
      command := PageErase;
      Store(page, ERASED);
      command := NoCommand;
    }

    method WritePageBulk(page: nat, data: seq<Byte>)
      requires Valid() && page + PAGE <= flash.Length && |data| == PAGE
      modifies this`command, flash
      ensures Valid() && flash[..] == Program(old(flash[..]), page, data)
    {
      hide Overlay, Program, Cell, And, Device.Stored;
      ghost var was := flash[..];
      ProgramNone(was, page);
      assert data[..0] == [];
      command := PageWrite;
      for k := 0 to PAGE
        modifies flash
        invariant flash[..] == Program(was, page, data[..k])
      {
        ghost var now := flash[..];
        Store(page + k, data[k]);
        ProgramNext(was, page, data, k, now);
      }
      assert data[..PAGE] == data;
    }

    // Erase, then program: the page holds the data whatever it held before.
    method RewritePage(page: nat, data: seq<Byte>)
      requires Valid() && IsPage(page) && page < flash.Length && |data| == PAGE
      modifies this`command, flash
      ensures Valid() && flash[..] == Overlay(old(flash[..]), page, data)
    {
      ErasePage(page);
      WritePageBulk(page, data);
      EraseThenProgram(old(flash[..]), page, data);
    }

    // Program whole pages; refused unless both the address and the length are page multiples.
    method WriteFlash(addr: nat, data: seq<Byte>) returns (ok: bool)
      requires Valid() && FLASH_BASE <= addr && addr - FLASH_BASE + |data| <= flash.Length
      modifies this, flash
      ensures Valid() && cpu.sram == old(cpu.sram)
      ensures ok <==> addr % 512 == 0 && data != [] && |data| % 512 == 0
      ensures flash[..] == if ok then Overlay(old(flash[..]), addr - 0x80_0000, data) else old(flash[..])
      ensures ok ==> nvmProg
      ensures !ok ==> unchanged(this)
    {
      if addr % PAGE != 0 || |data| == 0 || |data| % PAGE != 0 {
        return false;
      }
      hide Overlay;
      EnterNvmProg();
      WritePages(addr - FLASH_BASE, data);
      command := NoCommand;
      return true;
    }

    // Erase and program page after page.
    method WritePages(at: nat, data: seq<Byte>)
      requires Valid() && IsPage(at) && at + |data| <= flash.Length && |data| % PAGE == 0
      modifies this`command, flash
      ensures Valid() && flash[..] == Overlay(old(flash[..]), at, data)
    {
      hide Overlay, Program, Cell, And;
      var pages := |data| / PAGE;
      for pg := 0 to pages
        invariant Valid() && flash[..] == Overlay(old(flash[..]), at, data[..pg * PAGE])
      {
        RewritePage(at + pg * PAGE, data[pg * PAGE..(pg + 1) * PAGE]);
        OverlayExtend(old(flash[..]), at, data, pg * PAGE, (pg + 1) * PAGE);
      }
      assert data[..pages * PAGE] == data;
    }

    // One page of a patch: read it, replace [lo, lo + |bytes|), erase, program.
    method PatchPage(page: nat, lo: nat, bytes: seq<Byte>)
      requires Valid() && IsPage(page) && page + PAGE <= flash.Length
      requires page <= lo && lo + |bytes| <= page + PAGE
      modifies this`command, flash
      ensures Valid() && flash[..] == Overlay(old(flash[..]), lo, bytes)
    {
      hide Overlay;
      var pgbuf := new Byte[PAGE](k requires 0 <= k < PAGE reads this, flash requires Valid() => flash[page + k]);
      assert pgbuf[..] == flash[page..page + PAGE];
      var i := 0;
      while i < |bytes|
        invariant 0 <= i <= |bytes|
        invariant pgbuf[..] == Overlay(old(flash[page..page + PAGE]), lo - page, bytes[..i])
        invariant flash[..] == old(flash[..])
      {
        pgbuf[lo - page + i] := bytes[i];
        i := i + 1;
      }
      assert bytes[..|bytes|] == bytes;
      RewritePage(page, pgbuf[..]);
      OverlayPage(old(flash[..]), page, lo, bytes);
    }

    // Read-modify-write of any span: exactly the span changes.
    method FlashPatch(addr: nat, data: seq<Byte>)
      requires Valid() && FLASH_BASE <= addr && addr - FLASH_BASE + |data| <= flash.Length
      modifies this, flash
      ensures Valid() && cpu.sram == old(cpu.sram)
      ensures flash[..] == Overlay(old(flash[..]), addr - 0x80_0000, data)
      ensures if data == [] then unchanged(this) else nvmProg
    {
      if |data| == 0 {
        return;
      }
      EnterNvmProg();
      var at := addr - FLASH_BASE;
      PatchPages(at, data);
    }

    // The page loop, in flash offsets: the base is a page multiple.
    method PatchPages(at: nat, data: seq<Byte>)
      requires Valid() && at + |data| <= flash.Length
      modifies this`command, flash
      ensures Valid() && flash[..] == Overlay(old(flash[..]), at, data)
    {
      hide Overlay, IsPage;
      ghost var was := flash[..];
      var end := at + |data|;
      var pa := at - at % PAGE;
      StartsOnPage(at);
      while pa < end
        invariant IsPage(pa) && at < pa + PAGE
        invariant flash[..] == Overlay(was, at, data[..Done(at, end, pa)])
      {
        var lo := if at > pa then at else pa;
        var hi := if end < pa + PAGE then end else pa + PAGE;
        PageFits(pa, end);
        PatchPage(pa, lo, data[lo - at..hi - at]);
        OverlayExtend(was, at, data, lo - at, hi - at);
        pa := pa + PAGE;
      }
      assert data[..|data|] == data;
    }

    // How much of [at, end) lies below the page at pa.
    static function Done(at: nat, end: nat, pa: nat): nat
      requires at <= end
    {
      if pa <= at then 0 else if pa < end then pa - at else end - at
    }

    // ----- OCD registers and execution -----

    method ReadPc() returns (b: nat)
      requires Valid()
      ensures b == ReadPcOf(cpu.pc)
    {
      var raw := (cpu.pc + 1) % 0x1_0000;
      if raw == 0 {
        raw := 1;
      }
      b := (raw - 1) * 2;
    }

    method WritePc(b: nat)
      requires Valid()
      modifies this`cpu, this`skipNext
      ensures Valid() && skipNext && cpu == old(cpu).(pc := WrittenPc(b))
    {
      var raw := (b / 2 + 1) % 0x1_0000;
      cpu := cpu.(pc := (raw + 0xFFFF) % 0x1_0000);
      skipNext := true;
    }

    // The comparator takes a 17-bit address with bit 0 clear; arming it opens the common gate.
    method SetHwBp(slot: nat, b: nat)
      requires Valid() && slot < 2
      modifies this`bpAddr, this`bpOn, this`bpGate
      ensures Valid()
      ensures bpAddr == old(bpAddr)[slot := (b - b % 2) % 0x2_0000] && bpOn == old(bpOn)[slot := true]
    {
      bpAddr := bpAddr[slot := (b - b % 2) % FLASH_SIZE];
      bpOn := bpOn[slot := true];
      bpGate := true;
    }

    // Disarming the last comparator closes the gate.
    method ClearHwBp(slot: nat)
      requires Valid() && slot < 2
      modifies this`bpOn, this`bpGate
      ensures Valid() && bpOn == old(bpOn)[slot := false]
    {
      bpOn := bpOn[slot := false];
      if !bpOn[0] && !bpOn[1] {
        bpGate := false;
      }
    }

    method Step()
      requires Valid()
      modifies this`cpu, this`skipNext
      ensures Valid() && !skipNext
      ensures cpu == if old(skipNext) then old(cpu).(pc := (old(cpu).pc + 1) % 0x1_0000)
                     else Execute(isa, flash[..], old(cpu))
    {
      if skipNext {
        cpu := cpu.(pc := (cpu.pc + 1) % 0x1_0000);
        skipNext := false;
      } else {
        cpu := Execute(isa, flash[..], cpu);
      }
    }

    // Execute a given first word; a second word is fetched from flash.  No instruction is skipped.
    method StepInjected(w0: nat)
      requires Valid()
      modifies this`cpu, this`skipNext
      ensures Valid() && !skipNext && cpu == isa(w0, Fetch(flash[..], old(cpu).pc + 1), flash[..], old(cpu))
    {
      cpu := isa(w0, Fetch(flash[..], cpu.pc + 1), flash[..], cpu);
      skipNext := false;
    }

    // Run until a comparator matches the next instruction, within a bounded time.
    method RunUntilHit(budget: nat) returns (halted: bool)
      requires Valid() && !skipNext
      modifies this`cpu, this`skipNext
      ensures Valid() && !skipNext
      ensures var one := Execute(isa, flash[..], old(cpu));
        budget > 0 && (Armed(0, 2 * one.pc) || Armed(1, 2 * one.pc)) ==> halted && cpu == one
    {
      var left := budget;
      halted := false;
      while left > 0
        invariant Valid() && !skipNext && !halted
        invariant left == budget ==> cpu == old(cpu)
        invariant left < budget ==>
          !Armed(0, 2 * Execute(isa, flash[..], old(cpu)).pc) && !Armed(1, 2 * Execute(isa, flash[..], old(cpu)).pc)
      {
        Step();
        if bpGate && ((bpOn[0] && bpAddr[0] == 2 * cpu.pc) || (bpOn[1] && bpAddr[1] == 2 * cpu.pc)) {
          halted := true;
          return;
        }
        left := left - 1;
      }
    }

    // Run the CPU over one instruction with a comparator at the address behind it.
    method Step32(slot: nat, target: nat, budget: nat) returns (ok: bool)
      requires Valid() && slot < 2 && !skipNext
      modifies this`cpu, this`skipNext, this`bpAddr, this`bpOn, this`bpGate
      ensures Valid() && !skipNext
      ensures var one := Execute(isa, flash[..], old(cpu));
        budget > 0 && 2 * one.pc == target % FLASH_SIZE && target % 2 == 0 ==> ok && cpu == one
      ensures bpOn == old(bpOn)[slot := false] && bpAddr[1 - slot] == old(bpAddr[1 - slot])
    {
      SetHwBp(slot, target);
      ok := RunUntilHit(budget);
      ClearHwBp(slot);
    }

    // A store into data space; 0x3D and 0x3E are the stack pointer.
    method WriteData(a: nat, v: Byte)
      requires Valid() && a < 0x1_0000
      modifies this`cpu
      ensures Valid()
      ensures cpu ==
        if a == 0x3D then old(cpu).(sp := old(cpu).sp - old(cpu).sp % 0x100 + v)
        else if a == 0x3E then old(cpu).(sp := old(cpu).sp % 0x100 + 0x100 * v)
        else old(cpu).(sram := old(cpu).sram[a := v])
    {
      if a == 0x3D {
        cpu := cpu.(sp := cpu.sp - cpu.sp % 0x100 + v);
      } else if a == 0x3E {
        cpu := cpu.(sp := cpu.sp % 0x100 + 0x100 * v);
      } else {
        cpu := cpu.(sram := cpu.sram[a := v]);
      }
    }
  }
}
