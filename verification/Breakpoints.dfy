/** The breakpoint core over the chip (src/debug_bp.c): shadows, patched flash, preserved CPU. */
module Breakpoints {
  import opened Options
  import opened Bytes
  import opened Policy
  import opened Updi

  const EMPTY: nat := 0xFFFF_FFFF
  const BREAK := [0x98 as Byte, 0x95]

  datatype SwBp = SwBp(addr: nat, orig: seq<Byte>, inUse: bool)

  const FREE := SwBp(0, [0, 0], false)

  // ----- Patched images -----

  // The program with BREAK over the words at the given even addresses.
  function Patched(p: seq<Byte>, at: set<nat>): (f: seq<Byte>)
    ensures |f| == |p|
    ensures forall i :: 0 <= i < |p| ==> f[i] == if i - i % 2 in at then BREAK[i % 2] else p[i]
  {
    seq(|p|, i requires 0 <= i < |p| => if i - i % 2 in at then BREAK[i % 2] else p[i])
  }

  lemma PlantOne(p: seq<Byte>, at: set<nat>, x: nat)
    requires x % 2 == 0 && x + 2 <= |p|
    ensures Overlay(Patched(p, at), x, BREAK) == Patched(p, at + {x})
  {
  }

  lemma LiftOne(p: seq<Byte>, at: set<nat>, x: nat)
    requires x % 2 == 0 && x + 2 <= |p|
    ensures Overlay(Patched(p, at), x, p[x..x + 2]) == Patched(p, at - {x})
  {
  }

  lemma UnpatchedWord(p: seq<Byte>, at: set<nat>, x: nat)
    requires x % 2 == 0 && x + 2 <= |p| && x !in at
    ensures Patched(p, at)[x..x + 2] == p[x..x + 2]
  {
  }

  // ----- The software shadow -----

  function SwSet(t: seq<SwBp>): set<nat> {
    set i | 0 <= i < |t| && t[i].inUse :: t[i].addr
  }

  ghost predicate Distinct(t: seq<SwBp>) {
    forall i, j :: 0 <= i < j < |t| && t[i].inUse && t[j].inUse ==> t[i].addr != t[j].addr
  }

  // A table without a free slot holds as many addresses as slots, any other fewer.
  lemma {:induction false} TableSize(t: seq<SwBp>)
    requires Distinct(t)
    ensures |SwSet(t)| <= |t|
    ensures |SwSet(t)| == |t| <==> forall i :: 0 <= i < |t| ==> t[i].inUse
  {
    if t != [] {
      var n := |t| - 1;
      var rest := t[..n];
      TableSize(rest);
      assert forall i :: 0 <= i < n ==> rest[i] == t[i];
      if t[n].inUse {
        assert SwSet(t) == SwSet(rest) + {t[n].addr};
        assert t[n].addr !in SwSet(rest);
      } else {
        assert SwSet(t) == SwSet(rest);
      }
    }
  }

  // Every entry in use is an even flash address and saves the program word under it.
  ghost predicate Saves(t: seq<SwBp>, p: seq<Byte>) {
    forall i :: 0 <= i < |t| && t[i].inUse ==>
      t[i].addr % 2 == 0 && t[i].addr + 2 <= |p| && t[i].orig == p[t[i].addr..t[i].addr + 2]
  }

  // Filling a free slot, and freeing a slot, keep the table in order.
  lemma FillSlot(t: seq<SwBp>, p: seq<Byte>, i: nat, addr: nat, orig: seq<Byte>)
    requires Distinct(t) && Saves(t, p) && i < |t| && !t[i].inUse
    requires addr !in SwSet(t) && addr % 2 == 0 && addr + 2 <= |p| && orig == p[addr..addr + 2]
    ensures var u := t[i := SwBp(addr, orig, true)];
      Distinct(u) && Saves(u, p) && SwSet(u) == SwSet(t) + {addr}
  {
    var u := t[i := SwBp(addr, orig, true)];
    forall x | x in SwSet(t) + {addr}
      ensures x in SwSet(u)
    {
      if x in SwSet(t) {
        var j :| 0 <= j < |t| && t[j].inUse && t[j].addr == x;
        assert u[j] == t[j];
      } else {
        assert u[i].addr == x;
      }
    }
  }

  lemma FreeSlot(t: seq<SwBp>, p: seq<Byte>, i: nat)
    requires Distinct(t) && Saves(t, p) && i < |t| && t[i].inUse
    ensures var u := t[i := FREE];
      Distinct(u) && Saves(u, p) && SwSet(u) == SwSet(t) - {t[i].addr}
    ensures t[i].addr in SwSet(t) && t[i].addr % 2 == 0 && t[i].addr + 2 <= |p|
    ensures t[i].orig == p[t[i].addr..t[i].addr + 2]
  {
    var u := t[i := FREE];
    forall x | x in SwSet(t) - {t[i].addr}
      ensures x in SwSet(u)
    {
      var j :| 0 <= j < |t| && t[j].inUse && t[j].addr == x;
      assert u[j] == t[j];
    }
  }

  // What a caller may ask for: an even flash address, or an address flagged as data space.
  predicate Target(addr: nat) {
    addr < 2 * DATA_FLAG && (InDataSpace(addr) || (addr % 2 == 0 && addr < FLASH_SIZE))
  }

  // The registers a debugger reads are as they were.
  ghost predicate SameCpu(a: Cpu, b: Cpu)
    requires a.Valid() && b.Valid()
  {
    b.gpr == a.gpr && b.sreg == a.sreg && b.sp == a.sp && b.sram == a.sram &&
    ReadPcOf(b.pc) == ReadPcOf(a.pc) && (a.pc != 0xFFFF ==> b == a)
  }

  lemma SavedPc(pc: nat)
    requires pc < 0x1_0000
    ensures ReadPcOf(WrittenPc(ReadPcOf(pc))) == ReadPcOf(pc)
    ensures pc != 0xFFFF ==> WrittenPc(ReadPcOf(pc)) == pc
  {
    assert ReadPcOf(pc) == if pc == 0xFFFF then 0 else 2 * pc;
    assert forall n: nat :: n < 0xFFFF ==> WrittenPc(2 * n) == n;
  }

  lemma SameCpuReflexive(c: Cpu)
    requires c.Valid()
    ensures SameCpu(c, c)
  {
  }

  // ----- Where a request lands -----

  // What the chip and the tables show of the breakpoints.
  datatype Shown = Shown(hw: Option<HwSlot>, sw: set<nat>, on: bool, comparator: nat, flash: seq<Byte>, dirty: bool)

  // Two flash bytes at x become a BREAK.
  predicate Broken(f: seq<Byte>, g: seq<Byte>, x: nat) {
    |g| == |f| && x + 2 <= |f| && g[x] == 0x98 && g[x + 1] == 0x95 &&
    forall i :: 0 <= i < |f| && i != x && i != x + 1 ==> g[i] == f[i]
  }

  predicate SameComparator(a: Shown, b: Shown) {
    b.hw == a.hw && b.on == a.on && (a.on ==> b.comparator == a.comparator)
  }

  // A soft request in automatic mode takes the free comparator, unpinned, and leaves flash and the mark alone.
  predicate TakesComparator(a: Shown, b: Shown, addr: nat, st: Status) {
    st == BpOk && b.sw == a.sw && b.flash == a.flash && b.dirty == a.dirty &&
    b.on && b.comparator == addr && b.hw == Some(HwSlot(addr, false))
  }

  // A soft request that does not leaves the comparator alone, and plants a BREAK unless the address is armed
  // (in software mode, unless it is patched) or there is no room.
  predicate PlantsBreak(a: Shown, b: Shown, mode: Mode, addr: nat, st: Status) {
    var armed := addr in a.sw || (mode == AutoMode && a.hw.Some? && a.hw.value.addr == addr);
    SameComparator(a, b) &&
    if !armed && |a.sw| < 64 then st == BpOk && Broken(a.flash, b.flash, addr) && b.dirty
    else st == (if armed then BpOk else ErrSlot) && b.flash == a.flash && b.dirty == a.dirty
  }

  // A hard request that succeeds takes the comparator, and plants a BREAK exactly where it evicts an address
  // that has none.
  predicate HardTakes(a: Shown, b: Shown, addr: nat) {
    b.on && b.comparator == (if addr < 0x80_0000 then addr else addr / 2 * 2 % 0x2_0000) &&
    if a.hw.Some? && a.hw.value.addr != addr && a.hw.value.addr !in a.sw then
      Broken(a.flash, b.flash, a.hw.value.addr) && b.dirty
    else b.flash == a.flash && b.dirty == a.dirty
  }

  // A request that fails leaves flash, the mark and the patched addresses alone, and the comparator too, unless an
  // eviction failed, which frees it. Only a soft request in data space fails for its address.
  predicate Refuses(a: Shown, b: Shown, kind: Kind, mode: Mode, addr: nat, st: Status) {
    var hard := kind == Z1 || mode == HwOnlyMode;
    && (st == ErrDataSpace <==> !hard && addr >= 0x80_0000)
    && (st != BpOk ==>
          && b.flash == a.flash && b.dirty == a.dirty && b.sw == a.sw
          && if hard && a.hw.Some? && !a.hw.value.pinned then !b.on && b.hw.None? else SameComparator(a, b))
  }

  predicate InsertLands(a: Shown, b: Shown, kind: Kind, mode: Mode, addr: nat, st: Status) {
    if kind == Z1 || mode == HwOnlyMode then st == BpOk ==> HardTakes(a, b, addr)
    else if addr >= 0x80_0000 then st == ErrDataSpace
    else if mode == AutoMode && a.hw.None? && addr !in a.sw then TakesComparator(a, b, addr, st)
    else PlantsBreak(a, b, mode, addr, st)
  }

  // A removal puts the program's word back where a soft request finds a BREAK, else frees the comparator if it
  // holds the address, else does nothing.
  predicate RemoveLands(a: Shown, b: Shown, kind: Kind, mode: Mode, addr: nat, program: seq<Byte>) {
    if kind == Z0 && mode != HwOnlyMode && addr in a.sw then
      && SameComparator(a, b) && |b.flash| == |a.flash| == |program| && addr + 2 <= |program| && b.dirty
      && (forall i :: 0 <= i < |a.flash| ==>
            b.flash[i] == if i == addr || i == addr + 1 then program[i] else a.flash[i])
    else b.flash == a.flash && b.dirty == a.dirty && b.sw == a.sw &&
         if a.hw.Some? && a.hw.value.addr == addr then !b.on && b.hw.None? else SameComparator(a, b)
  }

  // What a core in order shows.
  predicate InOrder(s: Shown, program: seq<Byte>) {
    && |program| == FLASH_SIZE && s.flash == Patched(program, s.sw)
    && (forall x :: x in s.sw ==> x % 2 == 0 && x + 2 <= FLASH_SIZE)
    && (s.on <==> s.hw.Some?)
    && (s.hw.Some? ==> Target(s.hw.value.addr) && s.comparator == Comparator(s.hw.value.addr) &&
                       (InDataSpace(s.hw.value.addr) ==> s.hw.value.pinned))
  }

  lemma ComparatorIs(addr: nat)
    requires Target(addr)
    ensures InDataSpace(addr) <==> addr >= 0x80_0000
    ensures Comparator(addr) == if addr < 0x80_0000 then addr else addr / 2 * 2 % 0x2_0000
  {
    var b := addr % 0x80_0000;
    if addr >= 0x80_0000 {
      assert b == addr - 0x80_0000;
      assert addr / 2 * 2 == b - b % 2 + 64 * 0x2_0000;
      WrapsAround(b - b % 2, 64);
    } else {
      assert b == addr;
    }
  }

  lemma WrapsAround(a: nat, k: nat)
    ensures (a + k * 0x2_0000) % 0x2_0000 == a % 0x2_0000
  {
    assert a == a / 0x2_0000 * 0x2_0000 + a % 0x2_0000;
    assert a + k * 0x2_0000 == (a / 0x2_0000 + k) * 0x2_0000 + a % 0x2_0000;
  }

  lemma ComparatorOfFlash(addr: nat)
    requires Target(addr) && !InDataSpace(addr)
    ensures Comparator(addr) == addr && addr % 2 == 0 && addr + 2 <= FLASH_SIZE
  {
  }

  lemma PlantedLands(f: seq<Byte>, p: seq<Byte>, at: set<nat>, x: nat)
    requires x % 2 == 0 && x + 2 <= |p| && f == Patched(p, at)
    ensures Broken(f, Patched(p, at + {x}), x)
  {
    PlantOne(p, at, x);
  }

  lemma InsertedLands(a: Shown, b: Shown, p: seq<Byte>, kind: Kind, mode: Mode, addr: nat, st: Status)
    requires InOrder(a, p) && InOrder(b, p) && Target(addr) && |a.sw| <= 64
    requires (Arbiter(b.hw, b.sw), st) == Policy.Insert(Arbiter(a.hw, a.sw), kind, mode, addr)
    requires b.dirty <==> a.dirty || b.sw != a.sw
    ensures InsertLands(a, b, kind, mode, addr, st)
  {
    ComparatorIs(addr);
    hide Target, Comparator, InDataSpace;
    if kind == Z1 || mode == HwOnlyMode {
      hide InOrder, HardTakes;
      if st == BpOk {
        HardLands(a, b, p, addr);
      }
    } else if InDataSpace(addr) {
      hide InOrder;
    } else if mode == AutoMode && a.hw.None? && addr !in a.sw {
      FreeLands(a, b, p, addr, st);
    } else {
      SoftLands(a, b, p, mode, addr, st);
    }
  }

  lemma InsertRefuses(a: Shown, b: Shown, p: seq<Byte>, kind: Kind, mode: Mode, addr: nat, st: Status)
    requires InOrder(a, p) && InOrder(b, p) && Target(addr)
    requires (Arbiter(b.hw, b.sw), st) == Policy.Insert(Arbiter(a.hw, a.sw), kind, mode, addr)
    requires b.dirty <==> a.dirty || b.sw != a.sw
    ensures Refuses(a, b, kind, mode, addr, st)
  {
    ComparatorIs(addr);
    Unchanged(a, b, p);
    EvictsFlashOnly(a, p);
    hide Target, InDataSpace, InOrder, SameComparator;
  }

  lemma Unchanged(a: Shown, b: Shown, p: seq<Byte>)
    requires InOrder(a, p) && InOrder(b, p)
    ensures b.hw == a.hw ==> SameComparator(a, b)
    ensures b.sw == a.sw ==> b.flash == a.flash
    ensures b.on <==> b.hw.Some?
  {
    hide Patched, Target, Comparator;
  }

  lemma EvictsFlashOnly(a: Shown, p: seq<Byte>)
    requires InOrder(a, p)
    ensures a.hw.Some? && !a.hw.value.pinned ==> !InDataSpace(a.hw.value.addr)
  {
    hide Patched, Target, Comparator;
  }

  lemma FreeLands(a: Shown, b: Shown, p: seq<Byte>, addr: nat, st: Status)
    requires InOrder(a, p) && InOrder(b, p) && Target(addr) && !InDataSpace(addr) && a.hw.None? && addr !in a.sw
    requires (Arbiter(b.hw, b.sw), st) == Policy.Insert(Arbiter(a.hw, a.sw), Z0, AutoMode, addr)
    requires b.dirty <==> a.dirty || b.sw != a.sw
    ensures TakesComparator(a, b, addr, st)
  {
    hide Patched, Comparator, Target, InDataSpace;
    ComparatorOfFlash(addr);
  }

  lemma SoftLands(a: Shown, b: Shown, p: seq<Byte>, mode: Mode, addr: nat, st: Status)
    requires InOrder(a, p) && InOrder(b, p) && Target(addr) && !InDataSpace(addr) && |a.sw| <= 64
    requires mode == SwMode || (mode == AutoMode && (a.hw.Some? || addr in a.sw))
    requires (Arbiter(b.hw, b.sw), st) == Policy.Insert(Arbiter(a.hw, a.sw), Z0, mode, addr)
    requires b.dirty <==> a.dirty || b.sw != a.sw
    ensures PlantsBreak(a, b, mode, addr, st)
  {
    ComparatorOfFlash(addr);
    PlantedLands(a.flash, p, a.sw, addr);
    hide Patched, Broken, Comparator, Target, InDataSpace;
  }

  lemma HardLands(a: Shown, b: Shown, p: seq<Byte>, addr: nat)
    requires InOrder(a, p) && InOrder(b, p) && Target(addr) && |a.sw| <= 64
    requires (Arbiter(b.hw, b.sw), BpOk) == Policy.HwInstall(Arbiter(a.hw, a.sw), addr, true)
    requires b.dirty <==> a.dirty || b.sw != a.sw
    ensures HardTakes(a, b, addr)
  {
    hide Patched, Broken, Comparator, Target;
    ComparatorIs(addr);
    if a.hw.Some? && !InDataSpace(a.hw.value.addr) {
      ComparatorOfFlash(a.hw.value.addr);
      PlantedLands(a.flash, p, a.sw, a.hw.value.addr);
    }
  }

  lemma RemovedLands(a: Shown, b: Shown, p: seq<Byte>, kind: Kind, mode: Mode, addr: nat)
    requires InOrder(a, p) && InOrder(b, p)
    requires Arbiter(b.hw, b.sw) == Policy.Remove(Arbiter(a.hw, a.sw), kind, mode, addr)
    requires b.dirty <==> a.dirty || b.sw != a.sw
    ensures RemoveLands(a, b, kind, mode, addr, p)
  {
    if addr in a.sw {
      LiftedLands(p, a.sw, addr);
    }
    hide Patched, Comparator, Target, InDataSpace;
  }

  lemma LiftedLands(p: seq<Byte>, at: set<nat>, x: nat)
    requires x % 2 == 0 && x + 2 <= |p|
    ensures forall i :: 0 <= i < |p| ==>
                          Patched(p, at - {x})[i] == if i == x || i == x + 1 then p[i] else Patched(p, at)[i]
  {
  }

  class Core {
    const dev: Device
    const swBp: array<SwBp>
    var hwBpAddr: seq<nat>
    var hwBpPinned: seq<bool>
    var pcDirty: bool
    ghost const program: seq<Byte>   // the flash image before any patch

    ghost predicate Shapes()
      reads this, dev
    {
      swBp.Length == MAX_SW && |hwBpAddr| == |hwBpPinned| == 2 && hwBpAddr[1] == EMPTY &&
      |program| == FLASH_SIZE && dev.Valid()
    }

    // Comparator 0 is armed exactly when its shadow slot is taken, at the address in the slot.
    ghost predicate HwInStep()
      requires Shapes()
      reads this, dev
    {
      (dev.bpOn[0] <==> hwBpAddr[0] != EMPTY) &&
      (hwBpAddr[0] != EMPTY ==>
        Target(hwBpAddr[0]) && dev.bpAddr[0] == Comparator(hwBpAddr[0]) &&
        (InDataSpace(hwBpAddr[0]) ==> hwBpPinned[0]))
    }

    ghost predicate SwInStep()
      requires Shapes()
      reads this, dev, swBp, dev.flash
    {
      Distinct(swBp[..]) && Saves(swBp[..], program) && dev.flash[..] == Patched(program, SwSet(swBp[..]))
    }

    ghost predicate Valid()
      reads this, dev, swBp, dev.flash
    {
      Shapes() && HwInStep() && SwInStep()
    }

    // The dirty mark says what the silicon will do to the next instruction.
    ghost predicate MarkAgrees()
      reads this, dev
    {
      pcDirty == dev.skipNext
    }

    function View(): Arbiter
      requires |hwBpAddr| == |hwBpPinned| == 2
      reads this, swBp
    {
      Arbiter(if hwBpAddr[0] == EMPTY then None else Some(HwSlot(hwBpAddr[0], hwBpPinned[0])), SwSet(swBp[..]))
    }

    ghost function Showing(): Shown
      requires |hwBpAddr| == |hwBpPinned| == 2 && dev.Valid()
      reads this, swBp, dev, dev.flash
    {
      Shown(View().hw, View().sw, dev.bpOn[0], dev.bpAddr[0], dev.flash[..], pcDirty)
    }

    constructor (dev: Device)
      requires dev.Valid() && dev.bpOn == [false, false]
      ensures Valid() && this.dev == dev && program == dev.flash[..] && fresh(swBp)
      ensures View() == Arbiter(None, {}) && !pcDirty
    {
      this.dev := dev;
      swBp := new SwBp[MAX_SW](_ => FREE);
      hwBpAddr, hwBpPinned, pcDirty := [EMPTY, EMPTY], [false, false], false;
      program := dev.flash[..];
      new;
      assert forall i :: 0 <= i < MAX_SW ==> !swBp[i].inUse;
      assert dev.flash[..] == Patched(program, {});
      assert SwSet(swBp[..]) == {};
    }

    method SnapshotCpu() returns (gpr: seq<Byte>, sreg: Byte, sp: nat, pc: nat)
      requires dev.Valid()
      ensures gpr == dev.cpu.gpr && sreg == dev.cpu.sreg && sp == dev.cpu.sp && pc == ReadPcOf(dev.cpu.pc)
    {
      gpr := [];
      for i := 0 to 32
        invariant gpr == dev.cpu.gpr[..i]
      {
        gpr := gpr + [dev.cpu.gpr[i]];
      }
      sreg, sp := dev.cpu.sreg, dev.cpu.sp;
      pc := dev.ReadPc();
    }

    method RestoreCpu(gpr: seq<Byte>, sreg: Byte, sp: nat, pc: nat)
      requires dev.Valid() && |gpr| == 32 && sp < 0x1_0000
      modifies dev`cpu, dev`skipNext
      ensures dev.Valid() && dev.skipNext
      ensures dev.cpu == Cpu(gpr, sreg, sp, WrittenPc(pc), old(dev.cpu.sram))
    {
      for i := 0 to 32
        invariant dev.Valid() && dev.cpu == old(dev.cpu).(gpr := dev.cpu.gpr) && dev.cpu.gpr[..i] == gpr[..i]
      {
        dev.cpu := dev.cpu.(gpr := dev.cpu.gpr[i := gpr[i]]);
      }
      dev.cpu := dev.cpu.(sreg := sreg);
      dev.cpu := dev.cpu.(sp := sp);
      dev.WritePc(pc);
    }

    // Replace one flash word.  The patch resets the chip, so everything it wipes is put back, and the
    // fresh PC write is recorded.
    method PatchFlash(byteAddr: nat, bytes: seq<Byte>) returns (orig: seq<Byte>)
      requires Shapes() && HwInStep() && byteAddr + 2 <= FLASH_SIZE && |bytes| == 2
      modifies dev, dev.flash, this`pcDirty
      ensures Shapes() && HwInStep() && pcDirty && dev.skipNext
      ensures dev.flash[..] == Overlay(old(dev.flash[..]), byteAddr, bytes)
      ensures orig == old(dev.flash[..])[byteAddr..byteAddr + 2]
      ensures SameCpu(old(dev.cpu), dev.cpu)
      ensures dev.debugInSleep ==> dev.periph == old(dev.periph)
    {
      hide Overlay, WrittenPc, ReadPcOf;
      ghost var was := dev.cpu;
      var gpr, sreg, sp, pc := SnapshotCpu();
      var periph := dev.periph;
      orig := [dev.flash[byteAddr], dev.flash[byteAddr + 1]];
      assert orig == dev.flash[..][byteAddr..byteAddr + 2];
      dev.FlashPatch(FLASH_BASE + byteAddr, bytes);
      dev.EnterDebug();
      RearmComparators();
      if dev.debugInSleep {
        dev.periph := periph;
      }
      RestoreCpu(gpr, sreg, sp, pc);
      SavedPc(was.pc);
      pcDirty := true;
    }

    // The reset cleared the comparators: arm the user slot again if its shadow is taken.
    method RearmComparators()
      requires Shapes() && !dev.bpOn[0]
      requires hwBpAddr[0] != EMPTY ==>
        Target(hwBpAddr[0]) && (InDataSpace(hwBpAddr[0]) ==> hwBpPinned[0])
      modifies dev`bpAddr, dev`bpOn, dev`bpGate
      ensures Shapes() && HwInStep()
    {
      if hwBpAddr[0] != EMPTY {
        dev.SetHwBp(0, hwBpAddr[0] % DATA_FLAG);
      }
    }

    method FindSw(addr: nat) returns (i: int)
      requires Shapes()
      ensures -1 <= i < MAX_SW && (i < 0 <==> addr !in SwSet(swBp[..]))
      ensures i >= 0 ==> swBp[i].inUse && swBp[i].addr == addr
    {
      for k := 0 to MAX_SW
        invariant forall j :: 0 <= j < k ==> !(swBp[j].inUse && swBp[j].addr == addr)
      {
        if swBp[k].inUse && swBp[k].addr == addr {
          assert swBp[..][k].addr == addr;
          return k;
        }
      }
      return -1;
    }

    method FindFree() returns (i: int)
      requires Shapes() && Distinct(swBp[..])
      ensures -1 <= i < MAX_SW && (i < 0 <==> |SwSet(swBp[..])| >= MAX_SW)
      ensures i >= 0 ==> !swBp[i].inUse
    {
      TableSize(swBp[..]);
      for k := 0 to MAX_SW
        invariant forall j :: 0 <= j < k ==> swBp[j].inUse
      {
        if !swBp[k].inUse {
          assert !swBp[..][k].inUse;
          return k;
        }
      }
      return -1;
    }

    // The CPU and, in debug-in-sleep, the peripherals are as before; a changed flash left a dirty mark, and
    // nothing else did.
    twostate predicate Kept()
      requires old(Shapes()) && Shapes()
      reads this, dev, swBp, dev.flash
    {
      (pcDirty <==> old(pcDirty) || SwSet(swBp[..]) != old(SwSet(swBp[..]))) &&
      SameCpu(old(dev.cpu), dev.cpu) && (dev.debugInSleep ==> dev.periph == old(dev.periph)) &&
      ((pcDirty && dev.skipNext) ||
       (pcDirty == old(pcDirty) && dev.skipNext == old(dev.skipNext) && dev.flash[..] == old(dev.flash[..])))
    }

    method SwInstall(addr: nat) returns (st: Status)
      requires Valid() && Target(addr)
      modifies this`pcDirty, swBp, dev, dev.flash
      ensures Valid() && Kept()
      ensures (View(), st) == Policy.SwInstall(old(View()), addr)
    {
      if InDataSpace(addr) {
        return ErrDataSpace;
      }
      var i := FindSw(addr);
      if i >= 0 {
        return BpOk;
      }
      i := FindFree();
      if i < 0 {
        return ErrSlot;
      }
      PlantAt(i, addr);
      return BpOk;
    }

    // Plant a BREAK and record it in the free slot i.
    method PlantAt(i: nat, addr: nat)
      requires Valid() && Target(addr) && !InDataSpace(addr)
      requires i < MAX_SW && !swBp[i].inUse && addr !in SwSet(swBp[..])
      modifies this`pcDirty, swBp, dev, dev.flash
      ensures Valid() && Kept() && View() == old(View()).(sw := old(View()).sw + {addr})
    {
      hide Overlay, Patched, SwSet, Distinct, Saves, SameCpu;
      ghost var table := swBp[..];
      var orig := PatchFlash(addr % DATA_FLAG, BREAK);
      PlantOne(program, SwSet(table), addr);
      UnpatchedWord(program, SwSet(table), addr);
      FillSlot(table, program, i, addr, orig);
      swBp[i] := SwBp(addr, orig, true);
      assert swBp[..] == table[i := SwBp(addr, orig, true)];
    }

    // Put the saved word back and free the slot i.
    method LiftAt(i: nat)
      requires Valid() && i < MAX_SW && swBp[i].inUse
      modifies this`pcDirty, swBp, dev, dev.flash
      ensures Valid() && Kept() && View() == old(View()).(sw := old(View()).sw - {old(swBp[i].addr)})
    {
      hide Overlay, Patched, SwSet, Distinct, Saves, SameCpu;
      ghost var table := swBp[..];
      var addr, orig := swBp[i].addr, swBp[i].orig;
      FreeSlot(table, program, i);
      LiftOne(program, SwSet(table), addr);
      assert addr % DATA_FLAG == addr && |orig| == 2;
      var _ := PatchFlash(addr % DATA_FLAG, orig);
      swBp[i] := FREE;
      assert swBp[..] == table[i := FREE];
    }

    // Move the evictable comparator entry into flash.
    method Evict() returns (st: Status)
      requires Valid() && hwBpAddr[0] != EMPTY && !hwBpPinned[0]
      modifies this, swBp, dev, dev.flash
      ensures Valid() && Kept() && hwBpAddr[0] == EMPTY
      ensures (View(), st) == Policy.SwInstall(old(View()).(hw := None), old(hwBpAddr[0]))
    {
      SameCpuReflexive(dev.cpu);
      hide Overlay, Patched, SwSet, Distinct, Saves, SameCpu, Policy.SwInstall;
      var evicted := hwBpAddr[0];
      dev.ClearHwBp(0);
      hwBpAddr, hwBpPinned := hwBpAddr[0 := EMPTY], hwBpPinned[0 := false];
      st := SwInstall(evicted);
    }

    method ArmUserSlot(addr: nat, pinned: bool)
      requires Valid() && hwBpAddr[0] == EMPTY && Target(addr) && (InDataSpace(addr) ==> pinned)
      modifies this`hwBpAddr, this`hwBpPinned, dev`bpAddr, dev`bpOn, dev`bpGate
      ensures Valid() && View() == old(View()).(hw := Some(HwSlot(addr, pinned)))
    {
      hide Overlay, Patched, SwSet, Distinct, Saves;
      dev.SetHwBp(0, addr % DATA_FLAG);
      hwBpAddr, hwBpPinned := hwBpAddr[0 := addr], hwBpPinned[0 := pinned];
    }

    // A pinned request takes the slot from an evictable entry.
    method TakeSlot(addr: nat) returns (st: Status)
      requires Valid() && Target(addr)
      requires hwBpAddr[0] != EMPTY && hwBpAddr[0] != addr && !hwBpPinned[0]
      modifies this, swBp, dev, dev.flash
      ensures Valid() && Kept()
      ensures (View(), st) == Policy.HwInstall(old(View()), addr, true)
    {
      hide Overlay, Patched, SwSet, Distinct, Saves, SameCpu, Policy.SwInstall;
      st := Evict();
      if st == BpOk {
        ArmUserSlot(addr, true);
      }
    }

    // There is one user slot, so the slot scans of the source look at slot 0 only.
    method HwInstall(addr: nat, pinned: bool) returns (st: Status)
      requires Valid() && Target(addr) && (InDataSpace(addr) ==> pinned)
      modifies this, swBp, dev, dev.flash
      ensures Valid() && Kept()
      ensures (View(), st) == Policy.HwInstall(old(View()), addr, pinned)
    {
      SameCpuReflexive(dev.cpu);
      hide Overlay, Patched, SwSet, Distinct, Saves, SameCpu, Policy.SwInstall;
      if hwBpAddr[0] == addr {
        return BpOk;
      }
      if hwBpAddr[0] == EMPTY {
        ArmUserSlot(addr, pinned);
        return BpOk;
      }
      if !pinned || hwBpPinned[0] {
        return ErrSlot;
      }
      st := TakeSlot(addr);
    }

    method Insert(kind: Kind, mode: Mode, addr: nat) returns (st: Status)
      requires Valid() && Target(addr)
      modifies this, swBp, dev, dev.flash
      ensures Valid() && Kept()
      ensures (View(), st) == Policy.Insert(old(View()), kind, mode, addr)
      ensures InsertLands(old(Showing()), Showing(), kind, mode, addr, st)
      ensures Refuses(old(Showing()), Showing(), kind, mode, addr, st)
    {
      ghost var before := Showing();
      CoreInOrder(this);
      st := InsertByMode(kind, mode, addr);
      CoreInOrder(this);
      hide Patched, SwSet, Distinct, Saves, SameCpu, InOrder, InsertLands, Refuses, Policy.Insert;
      InsertedLands(before, Showing(), program, kind, mode, addr, st);
      InsertRefuses(before, Showing(), program, kind, mode, addr, st);
    }

    method InsertByMode(kind: Kind, mode: Mode, addr: nat) returns (st: Status)
      requires Valid() && Target(addr)
      modifies this, swBp, dev, dev.flash
      ensures Valid() && Kept()
      ensures (View(), st) == Policy.Insert(old(View()), kind, mode, addr)
    {
      if kind == Z1 || mode == HwOnlyMode {
        st := HwInstall(addr, true);
      } else if mode == SwMode {
        st := SwInstall(addr);
      } else {
        if InDataSpace(addr) {
          return ErrDataSpace;
        }
        var i := FindSw(addr);
        if i >= 0 || hwBpAddr[0] == addr {
          return BpOk;
        }
        if hwBpAddr[0] == EMPTY {
          st := HwInstall(addr, false);
        } else {
          st := SwInstall(addr);
        }
      }
    }

    method Remove(kind: Kind, mode: Mode, addr: nat)
      requires Valid() && Target(addr)
      modifies this, swBp, dev, dev.flash
      ensures Valid() && Kept()
      ensures View() == Policy.Remove(old(View()), kind, mode, addr)
      ensures RemoveLands(old(Showing()), Showing(), kind, mode, addr, program)
    {
      ghost var before := Showing();
      CoreInOrder(this);
      RemoveByMode(kind, mode, addr);
      CoreInOrder(this);
      hide Patched, SwSet, Distinct, Saves, SameCpu, InOrder, RemoveLands, Policy.Remove;
      RemovedLands(before, Showing(), program, kind, mode, addr);
    }

    method RemoveByMode(kind: Kind, mode: Mode, addr: nat)
      requires Valid() && Target(addr)
      modifies this, swBp, dev, dev.flash
      ensures Valid() && Kept()
      ensures View() == Policy.Remove(old(View()), kind, mode, addr)
    {
      SameCpuReflexive(dev.cpu);
      hide Overlay, Patched, SwSet, Distinct, Saves, SameCpu;
      if kind == Z0 && mode != HwOnlyMode {
        var i := FindSw(addr);
        if i >= 0 {
          LiftAt(i);
          return;
        }
      }
      if hwBpAddr[0] == addr {
        dev.ClearHwBp(0);
        hwBpAddr, hwBpPinned := hwBpAddr[0 := EMPTY], hwBpPinned[0 := false];
      }
    }

    // Any run of requests: the shadows follow the policy and the flash stays the program with BREAK at
    // exactly the addresses in use.
    method Perform(ops: seq<Op>)
      requires Valid() && forall op :: op in ops ==> Target(op.addr)
      modifies this, swBp, dev, dev.flash
      ensures Valid() && View() == ApplyAll(old(View()), ops)
      ensures dev.flash[..] == Patched(program, View().sw)
      ensures SameCpu(old(dev.cpu), dev.cpu)
      ensures old(MarkAgrees()) ==> MarkAgrees()
    {
      var st := BpOk;
      for i := 0 to |ops|
        invariant Valid() && View() == ApplyAll(old(View()), ops[..i])
        invariant SameCpu(old(dev.cpu), dev.cpu)
        invariant old(MarkAgrees()) ==> MarkAgrees()
      {
        ApplyAllAppend(old(View()), ops[..i], ops[i]);
        assert ops[..i] + [ops[i]] == ops[..i + 1];
        match ops[i]
        case Plant(k, m, x) =>
          st := Insert(k, m, x);
        case Lift(k, m, x) =>
          Remove(k, m, x);
      }
      assert ops[..|ops|] == ops;
    }
  }

  lemma CoreInOrder(core: Core)
    requires core.Valid()
    ensures InOrder(core.Showing(), core.program) && |core.View().sw| <= MAX_SW
  {
    hide Patched, Distinct, Comparator;
    var t := core.swBp[..];
    forall x | x in SwSet(t)
      ensures x % 2 == 0 && x + 2 <= FLASH_SIZE
    {
      var i :| 0 <= i < |t| && t[i].inUse && t[i].addr == x;
    }
    TableSize(t);
  }

  // The byte address a comparator holds for a debugger address.
  function Comparator(addr: nat): nat {
    var b := addr % DATA_FLAG;
    (b - b % 2) % FLASH_SIZE
  }
}
