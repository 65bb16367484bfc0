/** The breakpoint policy of src/debug_bp.c as a function on what is armed where. */
module Policy {
  import opened Options
  import opened Bytes

  datatype Kind = Z0 | Z1
  datatype Mode = SwMode | HwOnlyMode | AutoMode
  datatype Status = BpOk | ErrSlot | ErrDataSpace

  const MAX_SW: nat := 64

  // One user comparator, and the addresses patched into flash.
  datatype HwSlot = HwSlot(addr: nat, pinned: bool)
  datatype Arbiter = Arbiter(hw: Option<HwSlot>, sw: set<nat>) {
    function HwSet(): set<nat> {
      if hw.Some? then {hw.value.addr} else {}
    }

    function Armed(): set<nat> {
      HwSet() + sw
    }

    predicate InHw(addr: nat) {
      hw.Some? && hw.value.addr == addr
    }

    predicate Pinned(addr: nat) {
      hw == Some(HwSlot(addr, true))
    }

    predicate Fits() {
      |sw| <= MAX_SW && (forall x :: x in sw ==> !InDataSpace(x)) &&
      (hw.Some? && InDataSpace(hw.value.addr) ==> hw.value.pinned)
    }
  }

  function SwInstall(a: Arbiter, addr: nat): (Arbiter, Status) {
    if InDataSpace(addr) then (a, ErrDataSpace)
    else if addr in a.sw then (a, BpOk)
    else if |a.sw| >= MAX_SW then (a, ErrSlot)
    else (a.(sw := a.sw + {addr}), BpOk)
  }

  function HwInstall(a: Arbiter, addr: nat, pinned: bool): (Arbiter, Status) {
    if a.InHw(addr) then (a, BpOk)
    else if a.hw.None? then (a.(hw := Some(HwSlot(addr, pinned))), BpOk)
    else if !pinned || a.hw.value.pinned then (a, ErrSlot)
    else
      var (evicted, st) := SwInstall(a.(hw := None), a.hw.value.addr);
      if st != BpOk then (evicted, st) else (evicted.(hw := Some(HwSlot(addr, true))), BpOk)
  }

  function Insert(a: Arbiter, kind: Kind, mode: Mode, addr: nat): (Arbiter, Status) {
    if kind == Z1 || mode == HwOnlyMode then HwInstall(a, addr, true)
    else if mode == SwMode then SwInstall(a, addr)
    else if InDataSpace(addr) then (a, ErrDataSpace)
    else if addr in a.Armed() then (a, BpOk)
    else if a.hw.None? then HwInstall(a, addr, false)
    else SwInstall(a, addr)
  }

  function Remove(a: Arbiter, kind: Kind, mode: Mode, addr: nat): Arbiter {
    if kind == Z0 && mode != HwOnlyMode && addr in a.sw then a.(sw := a.sw - {addr})
    else if a.InHw(addr) then a.(hw := None)
    else a
  }

  datatype Op = Plant(kind: Kind, mode: Mode, addr: nat) | Lift(kind: Kind, mode: Mode, addr: nat)

  function Apply(a: Arbiter, op: Op): Arbiter {
    match op
    case Plant(k, m, x) => Insert(a, k, m, x).0
    case Lift(k, m, x) => Remove(a, k, m, x)
  }

  function ApplyAll(a: Arbiter, ops: seq<Op>): Arbiter
    decreases |ops|
  {
    if ops == [] then a else ApplyAll(Apply(a, ops[0]), ops[1..])
  }

  lemma {:induction false} ApplyAllAppend(a: Arbiter, ops: seq<Op>, op: Op)
    ensures ApplyAll(a, ops + [op]) == Apply(ApplyAll(a, ops), op)
    decreases |ops|
  {
    if ops != [] {
      assert (ops + [op])[1..] == ops[1..] + [op];
      ApplyAllAppend(Apply(a, ops[0]), ops[1..], op);
    }
  }

  // ----- The arbiter refines a set -----

  // The comparator entry that a pinned request would push out into flash.
  predicate Evicts(a: Arbiter, kind: Kind, mode: Mode, addr: nat) {
    (kind == Z1 || mode == HwOnlyMode) && a.hw.Some? && !a.hw.value.pinned && a.hw.value.addr != addr
  }

  lemma SwInstallArms(a: Arbiter, addr: nat)
    requires a.Fits()
    ensures var (b, st) := SwInstall(a, addr);
      b.Fits() && b.hw == a.hw && b.sw == if st == BpOk then a.sw + {addr} else a.sw
  {
  }

  lemma HwInstallArms(a: Arbiter, addr: nat, pinned: bool)
    requires a.Fits() && (pinned || !InDataSpace(addr))
    ensures var (b, st) := HwInstall(a, addr, pinned);
      b.Fits() &&
      if st == BpOk then b.Armed() == a.Armed() + {addr}
      else if pinned && !a.hw.value.pinned then b.Armed() == a.Armed() - {a.hw.value.addr}
      else b == a
  {
    var (b, st) := HwInstall(a, addr, pinned);
    if a.hw.Some? && !a.InHw(addr) && pinned && !a.hw.value.pinned {
      var e := a.hw.value.addr;
      SwInstallArms(a.(hw := None), e);
      if st != BpOk {
        assert e !in a.sw && b.Armed() == a.sw;
      }
    }
  }

  // A successful insert adds exactly its address, even when it evicts.  A failed one changes nothing,
  // except that eviction into a full table loses the evicted address.
  lemma InsertArms(a: Arbiter, kind: Kind, mode: Mode, addr: nat)
    requires a.Fits()
    ensures var (b, st) := Insert(a, kind, mode, addr);
      b.Armed() == if st == BpOk then a.Armed() + {addr}
                   else if Evicts(a, kind, mode, addr) then a.Armed() - {a.hw.value.addr}
                   else a.Armed()
    ensures Insert(a, kind, mode, addr).0.Fits()
  {
    hide HwInstall, SwInstall, Arbiter.Fits;
    if kind == Z1 || mode == HwOnlyMode {
      HwInstallArms(a, addr, true);
      HwFails(a, addr);
    } else if mode == AutoMode && !InDataSpace(addr) && addr !in a.Armed() && a.hw.None? {
      HwInstallArms(a, addr, false);
      HwFree(a, addr);
    } else {
      SwInstallArms(a, addr);
    }
  }

  lemma HwFails(a: Arbiter, addr: nat)
    ensures HwInstall(a, addr, true).1 != BpOk ==> a.hw.Some? && a.hw.value.addr != addr
  {
  }

  lemma HwFree(a: Arbiter, addr: nat)
    requires a.hw.None?
    ensures HwInstall(a, addr, false).1 == BpOk
  {
  }

  // When an insert succeeds.
  lemma InsertSucceedsIff(a: Arbiter, kind: Kind, mode: Mode, addr: nat)
    requires a.Fits()
    ensures Insert(a, kind, mode, addr).1 == BpOk <==>
      if kind == Z1 || mode == HwOnlyMode then
        a.hw.None? || a.InHw(addr) || (!a.hw.value.pinned && (a.hw.value.addr in a.sw || |a.sw| < 64))
      else
        !InDataSpace(addr) &&
        (addr in a.sw || |a.sw| < 64 || (mode == AutoMode && (a.hw.None? || a.InHw(addr))))
  {
  }

  // Removing disarms its address, unless the mode hides the patched copy or the address is armed twice.
  lemma RemoveDisarmsIff(a: Arbiter, kind: Kind, mode: Mode, addr: nat)
    ensures var b := Remove(a, kind, mode, addr);
      addr !in b.Armed() <==> !(addr in a.sw && (kind == Z1 || mode == HwOnlyMode || a.InHw(addr)))
    ensures Remove(a, kind, mode, addr).Armed() - {addr} == a.Armed() - {addr}
    ensures a.Fits() ==> Remove(a, kind, mode, addr).Fits()
  {
  }

  // A pinned comparator is emptied only by a removal at its own address.
  lemma PinnedStays(a: Arbiter, op: Op, p: nat)
    requires a.Pinned(p) && !(op.Lift? && op.addr == p)
    ensures Apply(a, op).Pinned(p)
  {
  }

  lemma {:induction false} PinnedStaysOverRun(a: Arbiter, ops: seq<Op>, p: nat)
    requires a.Pinned(p) && forall op :: op in ops && op.Lift? ==> op.addr != p
    ensures ApplyAll(a, ops).Pinned(p)
    decreases |ops|
  {
    if ops != [] {
      PinnedStays(a, ops[0], p);
      PinnedStaysOverRun(Apply(a, ops[0]), ops[1..], p);
    }
  }

  // A hardware request that succeeds pins its address, exactly unless an evictable entry already held it.
  lemma HardRequestPinsIff(a: Arbiter, mode: Mode, addr: nat)
    requires a.Fits() && Insert(a, Z1, mode, addr).1 == BpOk
    ensures Insert(a, Z1, mode, addr).0.InHw(addr)
    ensures Insert(a, Z1, mode, addr).0.Pinned(addr) <==> a.hw != Some(HwSlot(addr, false))
  {
  }

  predicate AutoOp(op: Op) {
    op.kind == Z0 && op.mode == AutoMode
  }

  predicate Disjoint(a: Arbiter) {
    a.hw.Some? ==> a.hw.value.addr !in a.sw
  }

  // Automatic soft requests, seen from outside: a set with insertion and removal.
  function SetRun(s: set<nat>, a: Arbiter, ops: seq<Op>): set<nat>
    decreases |ops|
  {
    if ops == [] then s
    else
      var op := ops[0];
      var t := if op.Lift? then s - {op.addr}
               else if Insert(a, op.kind, op.mode, op.addr).1 == BpOk then s + {op.addr}
               else s;
      SetRun(t, Apply(a, op), ops[1..])
  }

  lemma AutoOpRefinesSet(a: Arbiter, op: Op)
    requires a.Fits() && Disjoint(a) && AutoOp(op)
    ensures var b := Apply(a, op);
      b.Fits() && Disjoint(b) &&
      b.Armed() == if op.Lift? then a.Armed() - {op.addr}
                   else if Insert(a, op.kind, op.mode, op.addr).1 == BpOk then a.Armed() + {op.addr}
                   else a.Armed()
  {
    InsertArms(a, op.kind, op.mode, op.addr);
    RemoveDisarmsIff(a, op.kind, op.mode, op.addr);
    AutoKeepsDisjoint(a, op);
    hide Insert, Arbiter.Fits, Disjoint;
  }

  lemma AutoKeepsDisjoint(a: Arbiter, op: Op)
    requires Disjoint(a) && AutoOp(op)
    ensures Disjoint(Apply(a, op))
  {
  }

  lemma {:induction false} AutoRunRefinesSet(a: Arbiter, ops: seq<Op>)
    requires a.Fits() && Disjoint(a) && forall op :: op in ops ==> AutoOp(op)
    ensures Disjoint(ApplyAll(a, ops)) && ApplyAll(a, ops).Armed() == SetRun(a.Armed(), a, ops)
    decreases |ops|
  {
    if ops != [] {
      hide Insert, Remove, Apply, Arbiter.Armed, Arbiter.Fits, Disjoint;
      AutoOpRefinesSet(a, ops[0]);
      AutoRunRefinesSet(Apply(a, ops[0]), ops[1..]);
    }
  }

  lemma RemoveMakesRoom(a: Arbiter, addr: nat)
    requires a.Fits() && addr in a.Armed()
    ensures var b := Remove(a, Z0, AutoMode, addr);
      |b.sw| < 64 || b.hw.None? || b.InHw(addr)
  {
  }

  // Pulling an armed address out, stepping, and putting it back in automatic mode keeps the armed set,
  // whichever resource held it.
  lemma LiftThenPlant(a: Arbiter, addr: nat)
    requires a.Fits() && addr in a.Armed() && !InDataSpace(addr)
    ensures var b := Remove(a, Z0, AutoMode, addr);
      b.Fits() && Insert(b, Z0, AutoMode, addr).1 == BpOk &&
      Insert(b, Z0, AutoMode, addr).0.Armed() == a.Armed()
  {
    hide Insert, Remove, Arbiter.Fits, Arbiter.Armed, InDataSpace;
    var b := Remove(a, Z0, AutoMode, addr);
    RemoveMakesRoom(a, addr);
    RemoveDisarmsIff(a, Z0, AutoMode, addr);
    InsertArms(b, Z0, AutoMode, addr);
    InsertSucceedsIff(b, Z0, AutoMode, addr);
    assert b.Armed() + {addr} == (b.Armed() - {addr}) + {addr};
    assert a.Armed() == (a.Armed() - {addr}) + {addr};
  }
}
