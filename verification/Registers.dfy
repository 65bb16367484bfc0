/** The register block of the GDB server (src/gdb_rsp.c): g, G and P against the OCD registers. */
module Registers {
  import opened Options
  import opened Bytes
  import opened Updi
  import opened Breakpoints

  const BLOCK: nat := 39
  const MAX_VALUE: nat := 8

  function Hex(b: seq<Byte>): (s: string)
    ensures |s| == 2 * |b|
    decreases |b|
  {
    if b == [] then "" else [HexDigit(b[0] / 0x10), HexDigit(b[0] % 0x10)] + Hex(b[1..])
  }

  // The bytes of n pairs of hex digits.
  predicate IsHex(s: string, n: nat)
    requires 2 * n <= |s|
  {
    forall i :: 0 <= i < 2 * n ==> HexValue(s[i]) >= 0
  }

  function Unhex(s: string, n: nat): (b: seq<Byte>)
    requires 2 * n <= |s| && IsHex(s, n)
    ensures |b| == n
    ensures forall i :: 0 <= i < n ==> b[i] == 0x10 * HexValue(s[2 * i]) + HexValue(s[2 * i + 1])
  {
    seq(n, i requires 0 <= i < n => 0x10 * HexValue(s[2 * i]) + HexValue(s[2 * i + 1]))
  }

  lemma {:induction false} HexAt(b: seq<Byte>, i: nat)
    requires i < |b|
    ensures HexValue(Hex(b)[2 * i]) == b[i] / 0x10 && HexValue(Hex(b)[2 * i + 1]) == b[i] % 0x10
    decreases |b|
  {
    if i > 0 {
      HexAt(b[1..], i - 1);
    }
  }

  lemma HexIsHex(b: seq<Byte>)
    ensures IsHex(Hex(b), |b|)
  {
    hide Hex, HexValue;
    forall j | 0 <= j < 2 * |b|
      ensures HexValue(Hex(b)[j]) >= 0
    {
      HexAt(b, j / 2);
      if j % 2 == 0 {
        assert j == 2 * (j / 2);
      } else {
        assert j == 2 * (j / 2) + 1;
      }
    }
  }

  lemma UnhexHex(b: seq<Byte>)
    ensures IsHex(Hex(b), |b|) && Unhex(Hex(b), |b|) == b
  {
    hide Hex, HexValue;
    HexIsHex(b);
    forall i | 0 <= i < |b|
      ensures Unhex(Hex(b), |b|)[i] == b[i]
    {
      HexAt(b, i);
    }
  }

  // ----- Little-endian fields -----

  function Split(v: nat, n: nat): (b: seq<Byte>)
    ensures |b| == n
  {
    if n == 0 then [] else [v % 0x100] + Split(v / 0x100, n - 1)
  }

  lemma TwoBytes(v: nat)
    ensures Split(v, 2) == [v % 0x100, v / 0x100 % 0x100]
  {
  }

  lemma LittleTwo(b: seq<Byte>)
    requires |b| >= 2
    ensures Little(b) == b[0] + 0x100 * b[1] + 0x1_0000 * Little(b[2..])
  {
  }

  lemma LittleSplit2(v: nat)
    requires v < 0x1_0000
    ensures Little(Split(v, 2)) == v
  {
    TwoBytes(v);
    LittleTwo(Split(v, 2));
  }

  lemma LittleSplit4(v: nat)
    requires v < 0x1_0000_0000
    ensures Little(Split(v, 4)) == v
  {
    var b := Split(v, 4);
    var h := v / 0x100 / 0x100;
    assert Split(v / 0x100, 3) == [v / 0x100 % 0x100] + Split(h, 2);
    assert b[2..] == Split(h, 2) && b[0] == v % 0x100 && b[1] == v / 0x100 % 0x100;
    LittleTwo(b);
    LittleSplit2(h);
  }

  lemma {:induction false} SplitLittle(b: seq<Byte>)
    ensures Split(Little(b), |b|) == b
    decreases |b|
  {
    if b != [] {
      SplitLittle(b[1..]);
      assert Little(b) % 0x100 == b[0] && Little(b) / 0x100 == Little(b[1..]);
    }
  }

  // ----- The block -----

  // r0 to r31, SREG, SPL, SPH, and the PC as four little-endian bytes.
  function BlockOf(c: Cpu): (b: seq<Byte>)
    requires c.Valid()
    ensures |b| == BLOCK
  {
    c.gpr + [c.sreg] + Split(c.sp, 2) + Split(ReadPcOf(c.pc), 4)
  }

  function Loaded(c: Cpu, b: seq<Byte>): (r: Cpu)
    requires |b| == BLOCK
    ensures c.Valid() ==> r.Valid()
  {
    LittleSmall(b[33..35]);
    c.(gpr := b[..32], sreg := b[32], sp := Little(b[33..35]), pc := WrittenPc(Little(b[35..])))
  }

  lemma LittleSmall(b: seq<Byte>)
    requires |b| == 2
    ensures Little(b) < 0x1_0000
  {
    assert Little(b[1..]) == b[1] + 0x100 * Little(b[1..][1..]);
  }

  // Field by field: r0 at 0, SREG at 32, the stack pointer at 33 and PC at 35, both lowest byte first.
  lemma BlockIs(c: Cpu)
    requires c.Valid()
    ensures var b := BlockOf(c);
            && |b| == 39 && (forall i :: 0 <= i < 32 ==> b[i] == c.gpr[i]) && b[32] == c.sreg
            && Number(b[33], b[34], 0, 0) == c.sp
            && Number(b[35], b[36], b[37], b[38]) == if c.pc == 0xFFFF then 0 else 2 * c.pc
  {
    hide Little, Split;
    var b := BlockOf(c);
    BlockFields(c);
    PcIs(c.pc, 0);
    LittleIsPositional(b[33], b[34], 0, 0);
    LittleIsPositional(b[35], b[36], b[37], b[38]);
    assert b[33..35] == [b[33], b[34]] && b[35..] == [b[35], b[36], b[37], b[38]];
  }

  function Number(a: Byte, b: Byte, c: Byte, d: Byte): nat { a + 0x100 * b + 0x1_0000 * c + 0x100_0000 * d }

  lemma LoadedIs(c: Cpu, b: seq<Byte>)
    requires |b| == 39
    ensures var r := Loaded(c, b);
            && |r.gpr| == 32 && (forall i :: 0 <= i < 32 ==> r.gpr[i] == b[i]) && r.sreg == b[32]
            && r.sp == Number(b[33], b[34], 0, 0) && r.sram == c.sram
            && r.pc == Number(b[35], b[36], b[37], b[38]) / 2 % 0x1_0000
  {
    hide Little;
    PcIs(0, Little(b[35..]));
    LittleIsPositional(b[33], b[34], 0, 0);
    LittleIsPositional(b[35], b[36], b[37], b[38]);
    assert b[33..35] == [b[33], b[34]] && b[35..] == [b[35], b[36], b[37], b[38]];
  }

  // The bytes of a G packet, if it is one: enough digits, an even number of them, all hexadecimal.
  predicate IsBlock(p: string) { |p| >= 2 * BLOCK && |p| % 2 == 0 && IsHex(p, BLOCK) }

  method ReadRegs(chip: Device) returns (p: string)
    requires chip.Valid()
    ensures p == Hex(BlockOf(chip.cpu))
  {
    hide Split, Hex;
    var pc := chip.ReadPc();
    var b := chip.cpu.gpr + [chip.cpu.sreg] + [chip.cpu.sp % 0x100, chip.cpu.sp / 0x100 % 0x100] + Split(pc, 4);
    assert [chip.cpu.sp % 0x100, chip.cpu.sp / 0x100 % 0x100] == Split(chip.cpu.sp, 2) by {
      TwoBytes(chip.cpu.sp);
    }
    p := Hex(b);
  }

  // The bytes of the first n pairs of digits.
  method DecodeHex(p: string, n: nat) returns (bytes: Option<seq<Byte>>)
    requires 2 * n <= |p|
    ensures bytes == if IsHex(p, n) then Some(Unhex(p, n)) else None
  {
    hide HexValue;
    var b: seq<Byte> := [];
    for i := 0 to n
      invariant |b| == i && IsHex(p, i) && b == Unhex(p, i)
    {
      var hi, lo := HexValue(p[2 * i]), HexValue(p[2 * i + 1]);
      if hi < 0 || lo < 0 {
        return None;
      }
      HexBelow(p[2 * i]);
      HexBelow(p[2 * i + 1]);
      b := b + [0x10 * hi + lo];
    }
    return Some(b);
  }

  method DecodeBlock(p: string) returns (bytes: Option<seq<Byte>>)
    ensures bytes == if IsBlock(p) then Some(Unhex(p, BLOCK)) else None
  {
    hide IsHex, Unhex;
    if |p| < 2 * BLOCK || |p| % 2 == 1 {
      return None;
    }
    bytes := DecodeHex(p, BLOCK);
  }

  // The G packet. Everything is decoded before anything is written. The PC write sets the silicon's skip flag and
  // not the mark, so the two agree afterwards only if the mark was set before.
  method WriteRegs(core: Core, p: string) returns (ok: bool)
    requires core.dev.Valid()
    modifies core.dev`cpu, core.dev`skipNext
    ensures core.dev.Valid() && (ok <==> IsBlock(p))
    ensures ok ==> core.dev.cpu == Loaded(old(core.dev.cpu), Unhex(p, BLOCK)) && core.dev.skipNext
    ensures !ok ==> core.dev.cpu == old(core.dev.cpu) && core.dev.skipNext == old(core.dev.skipNext)
    ensures core.MarkAgrees() <==> if ok then core.pcDirty else old(core.MarkAgrees())
  {
    hide Little, IsBlock, WrittenPc;
    var decoded := DecodeBlock(p);
    if decoded == None {
      return false;
    }
    var bytes := decoded.value;
    LittleSmall(bytes[33..35]);
    core.dev.cpu := core.dev.cpu.(gpr := bytes[..32], sreg := bytes[32], sp := Little(bytes[33..35]));
    core.dev.WritePc(Little(bytes[35..]));
    return true;
  }

  lemma HexBelow(c: char)
    ensures HexValue(c) < 0x10
  {
  }

  // Enough bytes for register n.
  predicate Suffices(n: nat, bytes: nat) {
    (n <= 32 && bytes >= 1) || (n == 33 && bytes >= 2) || (n == 34 && bytes >= 4)
  }

  // One register; too few bytes or an unknown number are an error, extra bytes are ignored.
  method WriteReg(core: Core, n: nat, bytes: seq<Byte>) returns (ok: bool)
    requires core.dev.Valid()
    modifies core.dev`cpu, core.dev`skipNext
    ensures core.dev.Valid()
    ensures ok <==> Suffices(n, |bytes|)
    ensures !ok ==> core.dev.cpu == old(core.dev.cpu)
    ensures ok ==> core.dev.cpu == Changed(old(core.dev.cpu), n, bytes)
    ensures core.dev.skipNext == (old(core.dev.skipNext) || (ok && n == 34))
    ensures core.MarkAgrees() <==> if ok && n == 34 then core.pcDirty else old(core.MarkAgrees())
  {
    hide Little, WrittenPc, Split, ReadPcOf;
    ghost var c := core.dev.cpu;
    if n < 32 && |bytes| >= 1 {
      core.dev.cpu := core.dev.cpu.(gpr := core.dev.cpu.gpr[n := bytes[0]]);
    } else if n == 32 && |bytes| >= 1 {
      core.dev.cpu := core.dev.cpu.(sreg := bytes[0]);
    } else if n == 33 && |bytes| >= 2 {
      LittleSmall(bytes[..2]);
      core.dev.cpu := core.dev.cpu.(sp := Little(bytes[..2]));
    } else if n == 34 && |bytes| >= 4 {
      core.dev.WritePc(Little(bytes[..4]));
    } else {
      return false;
    }
    ReplacedFields(c, n, bytes);
    return true;
  }

  // The registers with one of them loaded from the front of bytes.
  function Changed(c: Cpu, n: nat, bytes: seq<Byte>): (r: Cpu)
    requires c.Valid() && Suffices(n, |bytes|)
  {
    Loaded(c, Replaced(BlockOf(c), n, bytes)).(pc := if n == 34 then WrittenPc(Little(bytes[..4])) else c.pc)
  }

  // Which field that is, and that all others stay.
  lemma ChangedIs(c: Cpu, n: nat, bytes: seq<Byte>)
    requires c.Valid() && Suffices(n, |bytes|)
    ensures var r := Changed(c, n, bytes);
            && (n < 32 ==> r == c.(gpr := c.gpr[n := bytes[0]]))
            && (n == 32 ==> r == c.(sreg := bytes[0]))
            && (n == 33 ==> r == c.(sp := Number(bytes[0], bytes[1], 0, 0)))
            && (n == 34 ==> r == c.(pc := Number(bytes[0], bytes[1], bytes[2], bytes[3]) / 2 % 0x1_0000))
  {
    hide Little, Split, ReadPcOf, WrittenPc, BlockOf, Replaced;
    ReplacedFields(c, n, bytes);
    if n == 33 {
      LittleIsPositional(bytes[0], bytes[1], 0, 0);
      assert bytes[..2] == [bytes[0], bytes[1]];
    } else if n == 34 {
      PcIs(0, Little(bytes[..4]));
      LittleIsPositional(bytes[0], bytes[1], bytes[2], bytes[3]);
      assert bytes[..4] == [bytes[0], bytes[1], bytes[2], bytes[3]];
    }
  }

  // A register number is known up to 34, and takes one byte, two or four.
  lemma SufficesIff(n: nat, bytes: nat)
    ensures Suffices(n, bytes) <==> n <= 34 && bytes >= if n == 34 then 4 else if n == 33 then 2 else 1
  {
  }

  // ----- The P packet -----

  // How many hexadecimal digits s begins with.
  function HexRun(s: string): (n: nat)
    ensures n <= |s| && IsHexAll(s[..n])
    ensures n < |s| ==> HexValue(s[n]) < 0
    decreases |s|
  {
    if s == "" || HexValue(s[0]) < 0 then 0
    else
      var n := HexRun(s[1..]);
      assert s[..n + 1] == [s[0]] + s[1..][..n];
      n + 1
  }

  predicate IsHexAll(s: string) { forall i :: 0 <= i < |s| ==> HexValue(s[i]) >= 0 }

  // The 32-bit number a run of digits stands for.
  function HexNumber(s: string): (v: nat)
    requires IsHexAll(s)
    ensures v < WORD32
    decreases |s|
  {
    if s == "" then 0 else (0x10 * HexNumber(s[..|s| - 1]) + HexValue(s[|s| - 1])) % WORD32
  }

  function AllDigits(s: string): nat
    requires IsHexAll(s)
    decreases |s|
  {
    if s == "" then 0 else 0x10 * AllDigits(s[..|s| - 1]) + HexValue(s[|s| - 1])
  }

  // Only the low 32 bits of a longer number remain.
  lemma {:induction false} NumberWraps(s: string)
    requires IsHexAll(s)
    ensures HexNumber(s) == AllDigits(s) % 0x1_0000_0000
    decreases |s|
  {
    hide HexValue;
    if s != "" {
      NumberWraps(s[..|s| - 1]);
      ModuloLater(AllDigits(s[..|s| - 1]), HexValue(s[|s| - 1]));
    }
  }

  lemma ModuloLater(a: nat, d: nat)
    ensures (0x10 * (a % 0x1_0000_0000) + d) % 0x1_0000_0000 == (0x10 * a + d) % 0x1_0000_0000
  {
    var q := a / 0x1_0000_0000;
    assert 0x10 * a + d == 0x10 * (a % 0x1_0000_0000) + d + 0x10 * q * 0x1_0000_0000;
    Multiples(0x10 * (a % 0x1_0000_0000) + d, 0x10 * q);
  }

  lemma Multiples(x: nat, k: nat)
    ensures (x + k * 0x1_0000_0000) % 0x1_0000_0000 == x % 0x1_0000_0000
  {
    var q, r := x / 0x1_0000_0000, x % 0x1_0000_0000;
    assert x + k * 0x1_0000_0000 == (q + k) * 0x1_0000_0000 + r;
  }

  datatype RegValue = RegValue(n: nat, bytes: seq<Byte>)

  // The text behind P: a register number, '=', and at most eight bytes in hexadecimal.
  function ParsedReg(p: string): Option<RegValue> {
    var d := HexRun(p);
    if d == 0 || d == |p| || p[d] != '=' then None
    else
      var rest := p[d + 1..];
      if |rest| % 2 == 1 || |rest| / 2 > MAX_VALUE || !IsHex(rest, |rest| / 2) then None
      else Some(RegValue(HexNumber(p[..d]), Unhex(rest, |rest| / 2)))
  }

  // Which texts are register writes.
  lemma ParsedRegIff(p: string)
    ensures ParsedReg(p).Some? <==> exists d :: IsRegWrite(p, d)
  {
    hide HexNumber, Unhex;
    ParsedIsWrite(p);
    if d: nat :| IsRegWrite(p, d) {
      assert p[..d] + p[d..] == p;
      assert HexValue('=') == -1;
      RunEnds(p[..d], p[d..]);
      assert IsHex(p[d + 1..], |p[d + 1..]| / 2);
    }
  }

  lemma ParsedIsWrite(p: string)
    ensures ParsedReg(p).Some? ==> IsRegWrite(p, HexRun(p))
  {
    hide HexNumber, HexRun, Unhex;
    if ParsedReg(p).Some? {
      var d, rest := HexRun(p), p[HexRun(p) + 1..];
      assert |rest| == 2 * (|rest| / 2);
    }
  }

  // d digits, '=', and up to eight pairs of digits.
  predicate IsRegWrite(p: string, d: nat) {
    && 0 < d < |p| && p[d] == '=' && IsHexAll(p[..d])
    && IsHexAll(p[d + 1..]) && (|p| - d - 1) % 2 == 0 && |p| - d - 1 <= 16
  }

  // parse_hex_u32 from the front of s.
  method ParseHex(s: string) returns (v: nat, d: nat)
    ensures d == HexRun(s) && v == HexNumber(s[..d])
  {
    hide HexValue;
    v, d := 0, 0;
    while d < |s| && HexValue(s[d]) >= 0
      invariant d <= HexRun(s) && IsHexAll(s[..d]) && v == HexNumber(s[..d])
    {
      RunGoesOn(s, d);
      assert s[..d + 1][..d] == s[..d];
      v := (0x10 * v + HexValue(s[d])) % WORD32;
      d := d + 1;
    }
  }

  lemma RunGoesOn(s: string, d: nat)
    requires d <= HexRun(s) && d < |s| && HexValue(s[d]) >= 0
    ensures d < HexRun(s)
  {
  }

  method WriteRegPacket(core: Core, p: string) returns (ok: bool)
    requires core.dev.Valid()
    modifies core.dev`cpu, core.dev`skipNext
    ensures core.dev.Valid()
    ensures ok <==> ParsedReg(p).Some? && Suffices(ParsedReg(p).value.n, |ParsedReg(p).value.bytes|)
    ensures !ok ==> core.dev.cpu == old(core.dev.cpu)
    ensures ok ==> core.dev.cpu == Changed(old(core.dev.cpu), ParsedReg(p).value.n, ParsedReg(p).value.bytes)
    ensures core.MarkAgrees() <==> if ok && ParsedReg(p).value.n == 34 then core.pcDirty else old(core.MarkAgrees())
  {
    hide Changed, HexValue;
    var n, d := ParseHex(p);
    if d == 0 || d == |p| || p[d] != '=' {
      return false;
    }
    var rest := p[d + 1..];
    if |rest| % 2 == 1 || |rest| / 2 > MAX_VALUE {
      return false;
    }
    var bytes := DecodeHex(rest, |rest| / 2);
    if bytes == None {
      return false;
    }
    ok := WriteReg(core, n, bytes.value);
  }

  // A number in lower-case hexadecimal, without leading zeros.
  function HexShow(n: nat): string {
    if n < 0x10 then [HexDigit(n)] else HexShow(n / 0x10) + [HexDigit(n % 0x10)]
  }

  lemma {:induction false} NumberShown(n: nat)
    requires n < WORD32
    ensures HexShow(n) != "" && IsHexAll(HexShow(n)) && HexNumber(HexShow(n)) == n
  {
    hide HexNumber, IsHexAll, HexDigit, HexValue;
    NoDigitsShown();
    if n >= 0x10 {
      NumberShown(n / 0x10);
      DigitPushed(HexShow(n / 0x10), HexDigit(n % 0x10));
    } else {
      DigitPushed("", HexDigit(n));
      assert "" + [HexDigit(n)] == [HexDigit(n)];
    }
  }

  lemma NoDigitsShown()
    ensures IsHexAll("") && HexNumber("") == 0
  {
  }

  lemma DigitPushed(s: string, c: char)
    requires IsHexAll(s) && HexValue(c) >= 0
    ensures IsHexAll(s + [c]) && HexNumber(s + [c]) == (0x10 * HexNumber(s) + HexValue(c)) % WORD32
  {
    hide HexValue;
    assert (s + [c])[..|s|] == s;
  }

  lemma {:induction false} RunEnds(s: string, rest: string)
    requires IsHexAll(s) && (rest == "" || HexValue(rest[0]) < 0)
    ensures HexRun(s + rest) == |s|
    decreases |s|
  {
    if s == "" {
      assert s + rest == rest;
    } else {
      assert (s + rest)[1..] == s[1..] + rest;
      RunEnds(s[1..], rest);
    }
  }

  // A register write as a client sends it is parsed as meant.
  lemma RegWriteParsed(n: nat, bytes: seq<Byte>)
    requires n < WORD32 && |bytes| <= MAX_VALUE
    ensures ParsedReg(HexShow(n) + "=" + Hex(bytes)) == Some(RegValue(n, bytes))
  {
    hide HexNumber, HexShow, Hex, IsHexAll, Unhex, IsHex;
    NumberShown(n);
    UnhexHex(bytes);
    PartsParsed(HexShow(n), Hex(bytes));
  }

  lemma PartsParsed(s: string, h: string)
    requires s != "" && IsHexAll(s) && |h| % 2 == 0 && |h| / 2 <= MAX_VALUE && IsHex(h, |h| / 2)
    ensures ParsedReg(s + "=" + h) == Some(RegValue(HexNumber(s), Unhex(h, |h| / 2)))
  {
    hide HexNumber, HexRun, IsHexAll, Unhex, IsHex;
    var p := s + "=" + h;
    assert p == s + ("=" + h);
    RunEnds(s, "=" + h);
    assert p[..|s|] == s && p[|s| + 1..] == h;
  }

  // The block with one register's bytes exchanged.
  function Replaced(b: seq<Byte>, n: nat, bytes: seq<Byte>): (r: seq<Byte>)
    requires |b| == BLOCK
    requires Suffices(n, |bytes|)
    ensures |r| == BLOCK
  {
    if n <= 32 then Overlay(b, n, bytes[..1])
    else if n == 33 then Overlay(b, 33, bytes[..2])
    else Overlay(b, 35, bytes[..4])
  }

  lemma ReplacedFields(c: Cpu, n: nat, bytes: seq<Byte>)
    requires c.Valid()
    requires Suffices(n, |bytes|)
    ensures var r := Replaced(BlockOf(c), n, bytes);
            && r[..32] == (if n < 32 then c.gpr[n := bytes[0]] else c.gpr)
            && r[32] == (if n == 32 then bytes[0] else c.sreg)
            && Little(r[33..35]) == (if n == 33 then Little(bytes[..2]) else c.sp)
  {
    hide Little, Split, ReadPcOf;
    var r := Replaced(BlockOf(c), n, bytes);
    LittleSplit2(c.sp);
    assert BlockOf(c)[33..35] == Split(c.sp, 2);
    if n == 33 {
      assert r[33..35] == bytes[..2];
    } else {
      assert r[33..35] == Split(c.sp, 2);
    }
  }

  // ----- Reading and writing back -----

  lemma BlockFields(c: Cpu)
    requires c.Valid()
    ensures var b := BlockOf(c);
            && b[..32] == c.gpr && b[32] == c.sreg
            && Little(b[33..35]) == c.sp && Little(b[35..]) == ReadPcOf(c.pc)
  {
    hide Little, Split;
    var b := BlockOf(c);
    LittleSplit2(c.sp);
    LittleSplit4(ReadPcOf(c.pc));
    assert b[33..35] == Split(c.sp, 2);
    assert b[35..] == Split(ReadPcOf(c.pc), 4);
  }

  // G with what g returned leaves the registers as they were exactly when OCD.PC is not raw 0.
  lemma WriteBackIff(c: Cpu)
    requires c.Valid()
    ensures var p := Hex(BlockOf(c));
            && IsBlock(p)
            && (Loaded(c, Unhex(p, BLOCK)) == c <==> (c.pc + 1) % 0x1_0000 != 0)
  {
    hide Hex, IsHex, Unhex, BlockOf, Little, ReadPcOf, WrittenPc;
    var b := BlockOf(c);
    UnhexHex(b);
    BlockFields(c);
    PcReadWriteIff(c.pc);
  }

  // g after G returns the block that was written exactly when its PC is even and at most 0x1FFFC.
  lemma ReadBackIff(c: Cpu, b: seq<Byte>)
    requires c.Valid() && |b| == BLOCK
    ensures BlockOf(Loaded(c, b)) == b <==> Little(b[35..]) % 2 == 0 && Little(b[35..]) <= 0x1FFFC
  {
    hide Little, Split, ReadPcOf, WrittenPc;
    var pc := Little(b[35..]);
    var r := BlockOf(Loaded(c, b));
    var now := ReadPcOf(WrittenPc(pc));
    SplitLittle(b[33..35]);
    SplitLittle(b[35..]);
    PcRoundTrip(pc);
    assert r[..35] == b[..35];
    assert r[35..] == Split(now, 4);
    assert b == b[..35] + b[35..] && r == r[..35] + r[35..];
    LittleSplit4(now);
  }

  lemma PcRoundTrip(b: nat)
    ensures ReadPcOf(WrittenPc(b)) < 0x2_0000
    ensures ReadPcOf(WrittenPc(b)) == b <==> b % 2 == 0 && b <= 0x1FFFC
  {
  }
}
