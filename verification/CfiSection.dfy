/** Finding the frame description of a pc in .debug_frame (src/elf_parser.c, cfi_parse_cie and elf_cfi_cfa). */
module CfiSection {
  import opened Options
  import opened Bytes
  import opened Cfi

  const CIE_ID: nat := 0xFFFF_FFFF

  // ----- Common information entries -----

  // Code alignment, address size, and where the initial instructions lie in the section.
  datatype CieInfo = CieInfo(align: nat, addrSize: nat, insn: nat, end: nat)

  // Undefined stands for a read outside the section or an address wider than 32 bits.
  datatype Parse = Parsed(cie: CieInfo) | Unusable | Undefined

  // A LEB128 number between p and end, and where it stops.
  function LebAt(base: seq<Byte>, p: nat, end: nat): (r: (nat, nat))
    requires end <= |base|
    ensures p <= r.1
  {
    if p < end then
      var (v, n) := Uleb(base[p..end]);
      (v, p + n)
    else (0, p)
  }

  function NulAt(base: seq<Byte>, p: nat, end: nat): (q: nat)
    requires end <= |base|
    ensures p <= q && (q > p ==> q <= end)
    decreases |base| - p
  {
    if p < end && base[p] != 0 then NulAt(base, p + 1, end) else p
  }

  function Word(base: seq<Byte>, at: nat): nat
    requires at + 4 <= |base|
  {
    Little(base[at..at + 4])
  }

  // The length field of an entry gives its end, if the entry is one.
  function EntryEnd(base: seq<Byte>, off: nat): nat
    requires off + 4 <= |base|
  {
    off + 4 + Word(base, off)
  }

  predicate IsEntry(base: seq<Byte>, off: nat) {
    off + 4 <= |base| && Word(base, off) != 0 && Word(base, off) != CIE_ID && EntryEnd(base, off) <= |base|
  }

  function AfterName(base: seq<Byte>, aug: nat, end: nat): nat
    requires end <= |base|
  {
    var q := NulAt(base, aug, end);
    if q < end then q + 1 else q
  }

  // The numbers behind the name and the address size.
  function Factors(base: seq<Byte>, version: Byte, addrSize: nat, p: nat, end: nat): CieInfo
    requires end <= |base|
  {
    var (align, p1) := LebAt(base, p, end);
    var (_, p2) := LebAt(base, p1, end);
    var p3 := if version == 1 then p2 + 1 else LebAt(base, p2, end).1;
    CieInfo(align % 0x100, addrSize, p3, end)
  }

  function ParsedCie(base: seq<Byte>, off: nat): Parse {
    if !IsEntry(base, off) then Unusable
    else
      var end := EntryEnd(base, off);
      var aug := off + 9;
      if aug >= |base| then Undefined
      else
        var version := base[off + 8];
        var p := AfterName(base, aug, end);
        if version >= 4 && (p >= |base| || base[p] > 4) then Undefined
        else if base[aug] == 0x7A then Unusable
        else if version >= 4 then Parsed(Factors(base, version, base[p], p + 2, end))
        else Parsed(Factors(base, version, 4, p, end))
  }

  method ReadLeb(base: seq<Byte>, at: nat, end: nat) returns (v: nat, p: nat)
    requires end <= |base|
    ensures (v, p) == LebAt(base, at, end)
  {
    if at >= end {
      return 0, at;
    }
    var n;
    v, n := ReadUleb(base[..end], at);
    assert base[..end][at..] == base[at..end];
    p := n;
  }

  method SkipName(base: seq<Byte>, aug: nat, end: nat) returns (p: nat)
    requires end <= |base|
    ensures p == AfterName(base, aug, end)
  {
    p := aug;
    while p < end && base[p] != 0
      invariant aug <= p && NulAt(base, aug, end) == NulAt(base, p, end)
      decreases |base| - p
    {
      p := p + 1;
    }
    if p < end {
      p := p + 1;
    }
  }

  method ParseCie(base: seq<Byte>, off: nat) returns (r: Parse)
    ensures r == ParsedCie(base, off)
  {
    hide Uleb, Little, AfterName, LebAt;
    if !IsEntry(base, off) {
      return Unusable;
    }
    var end := EntryEnd(base, off);
    var aug := off + 9;
    if aug >= |base| {
      return Undefined;
    }
    var version := base[off + 8];
    var p := SkipName(base, aug, end);
    var addrSize: nat := 4;
    if version >= 4 {
      if p >= |base| || base[p] > 4 {
        return Undefined;
      }
      addrSize := base[p];
      p := p + 2;
    }
    if base[aug] == 0x7A {
      return Unusable;
    }
    var align, q := ReadLeb(base, p, end);
    var _, s := ReadLeb(base, q, end);
    var t := s + 1;
    if version != 1 {
      var _, after := ReadLeb(base, s, end);
      t := after;
    }
    return Parsed(CieInfo(align % 0x100, addrSize, t, end));
  }

  // ----- The walk -----

  // The instructions between two offsets, if any.
  function Between(base: seq<Byte>, from: nat, end: nat): seq<Byte>
    requires end <= |base|
  {
    if from <= end then base[from..end] else []
  }

  function RunOf(cie: seq<Byte>, fde: seq<Byte>, initLoc: nat, env: Env): Answer {
    AnswerOf(Then(Exec(cie, State(initLoc, -1, 0, false), env), fde, env))
  }

  // What an FDE with a parsed CIE says: None if it does not cover pc.
  function FdeAnswer(base: seq<Byte>, off: nat, end: nat, c: CieInfo, pc: nat): Option<Answer>
    requires end <= |base| && c.end <= |base|
  {
    var p := off + 8;
    var a := c.addrSize;
    if p + 2 * a > |base| then Some(OutsideRead)
    else
      var initLoc, range := Little(base[p..p + a]), Little(base[p + a..p + 2 * a]);
      if initLoc <= pc < (initLoc + range) % WORD32 then
        Some(RunOf(Between(base, c.insn, c.end), Between(base, p + 2 * a, end), initLoc, Env(c.align, a, pc)))
      else None
  }

  lemma ParsedEnd(base: seq<Byte>, off: nat)
    ensures ParsedCie(base, off).Parsed? ==> ParsedCie(base, off).cie.end <= |base|
  {
  }

  // The entry at off: an answer, or None to go on.
  function EntryAnswer(base: seq<Byte>, off: nat, pc: nat): Option<Answer>
    requires off + 8 <= |base| && IsEntry(base, off)
  {
    var id := Word(base, off + 4);
    if id == CIE_ID then None
    else
      ParsedEnd(base, id);
      match ParsedCie(base, id)
      case Undefined => Some(OutsideRead)
      case Unusable => None
      case Parsed(c) => FdeAnswer(base, off, EntryEnd(base, off), c, pc)
  }

  function Lookup(base: seq<Byte>, off: nat, pc: nat): Answer
    decreases |base| - off
  {
    if off + 8 > |base| || !IsEntry(base, off) then NoRule
    else
      var r := EntryAnswer(base, off, pc);
      if r.Some? then r.value else Lookup(base, EntryEnd(base, off), pc)
  }

  method FindCfa(base: seq<Byte>, pc: nat) returns (a: Answer)
    ensures a == Lookup(base, 0, pc)
  {
    hide ParsedCie, FdeAnswer, Little;
    var off: nat := 0;
    while off + 8 <= |base| && IsEntry(base, off)
      invariant Lookup(base, 0, pc) == Lookup(base, off, pc)
      decreases |base| - off
    {
      var id := Word(base, off + 4);
      if id != CIE_ID {
        var cie := ParseCie(base, id);
        ParsedEnd(base, id);
        match cie
        case Undefined => return OutsideRead;
        case Unusable =>
        case Parsed(c) =>
          var r := AskFde(base, off, EntryEnd(base, off), c, pc);
          if r.Some? {
            return r.value;
          }
      }
      off := EntryEnd(base, off);
    }
    return NoRule;
  }

  method AskFde(base: seq<Byte>, off: nat, end: nat, c: CieInfo, pc: nat) returns (r: Option<Answer>)
    requires off + 8 <= |base| && end <= |base| && c.end <= |base|
    ensures r == FdeAnswer(base, off, end, c, pc)
  {
    hide Exec;
    var p, a := off + 8, c.addrSize;
    if p + 2 * a > |base| {
      return Some(OutsideRead);
    }
    var initLoc := ReadFixed(base, p, a);
    var range := ReadFixed(base, p + a, a);
    assert p + a + a == p + 2 * a;
    if !(initLoc <= pc < (initLoc + range) % WORD32) {
      return None;
    }
    var answer := CfiRun(Between(base, c.insn, c.end), Between(base, p + 2 * a, end), initLoc, Env(c.align, a, pc));
    return Some(answer);
  }

  // ----- Section layout, DWARF 4 section 6.4.1 -----

  // addrSize and segSize are fields of version 4 only; ra is one byte in version 1 and a LEB128 number later.
  datatype CieRecord = CieRecord(version: Byte, name: seq<Byte>, addrSize: Byte, segSize: Byte,
                                 align: Leb, data: Leb, ra: seq<Byte>, insns: seq<Byte>)

  predicate CieOk(c: CieRecord) {
    && 0 !in c.name && (c.name == [] || c.name[0] != 0x7A)
    && c.addrSize <= 4 && (c.version < 4 ==> c.addrSize == 4)
    && if c.version == 1 then |c.ra| == 1 else IsLeb(c.ra)
  }

  function CieHead(c: CieRecord): seq<Byte> {
    [c.version] + c.name + [0] + if c.version >= 4 then [c.addrSize, c.segSize] else []
  }

  function CieBody(c: CieRecord): seq<Byte> { CieHead(c) + c.align + c.data + c.ra + c.insns }

  // The bytes at off are an entry with this id field and body.
  predicate EntryAt(base: seq<Byte>, off: nat, id: nat, body: seq<Byte>) {
    && off + 8 + |body| <= |base| && 4 + |body| < CIE_ID
    && Word(base, off) == 4 + |body| && Word(base, off + 4) == id
    && base[off + 8..off + 8 + |body|] == body
  }

  lemma Slice(base: seq<Byte>, at: nat, n: nat, a: nat, b: nat)
    requires at + n <= |base| && a <= b <= n
    ensures base[at..at + n][a..b] == base[at + a..at + b]
  {
    var l, r := base[at..at + n][a..b], base[at + a..at + b];
    assert |l| == |r| && forall i :: 0 <= i < |l| ==> l[i] == r[i];
  }

  // The parts of a stretch of bytes.
  lemma TwoParts(base: seq<Byte>, at: nat, end: nat, x: seq<Byte>, y: seq<Byte>)
    requires at + |x| + |y| == end <= |base| && base[at..end] == x + y
    ensures base[at..at + |x|] == x && base[at + |x|..end] == y
  {
    Slice(base, at, end - at, 0, |x|);
    Slice(base, at, end - at, |x|, end - at);
  }

  lemma ThreeParts(base: seq<Byte>, at: nat, end: nat, x: seq<Byte>, y: seq<Byte>, z: seq<Byte>)
    requires at + |x| + |y| + |z| == end <= |base| && base[at..end] == x + y + z
    ensures base[at..at + |x|] == x && base[at + |x|..at + |x| + |y|] == y && base[at + |x| + |y|..end] == z
  {
    TwoParts(base, at, end, x + y, z);
    TwoParts(base, at, at + |x| + |y|, x, y);
  }

  lemma {:induction false} NulFound(base: seq<Byte>, p: nat, end: nat, name: seq<Byte>)
    requires p + |name| < end <= |base| && 0 !in name
    requires base[p..p + |name|] == name && base[p + |name|] == 0
    ensures NulAt(base, p, end) == p + |name|
    decreases |name|
  {
    if name != [] {
      assert base[p] == base[p..p + |name|][0] == name[0];
      assert base[p + 1..p + |name|] == name[1..];
      NulFound(base, p + 1, end, name[1..]);
    }
  }

  lemma LebFound(base: seq<Byte>, p: nat, end: nat, x: Leb)
    requires p + |x| <= end <= |base| && base[p..p + |x|] == x
    ensures LebAt(base, p, end) == (Uleb(x).0, p + |x|)
  {
    hide Uleb;
    assert base[p..end] == x + base[p + |x|..end];
    UlebReads(x, base[p + |x|..end]);
  }

  lemma HeadFound(base: seq<Byte>, at: nat, end: nat, c: CieRecord)
    requires CieOk(c) && at + |CieHead(c)| <= end <= |base|
    requires base[at..at + |CieHead(c)|] == CieHead(c)
    ensures base[at] == c.version
    ensures var p := AfterName(base, at + 1, end);
            && p == at + 2 + |c.name|
            && (c.version >= 4 ==> at + |CieHead(c)| == p + 2 && base[p] == c.addrSize)
            && (c.version < 4 ==> at + |CieHead(c)| == p)
    ensures at + 1 < |base| && base[at + 1] == if c.name == [] then 0 else c.name[0]
  {
    hide Uleb, IsLeb;
    var h := CieHead(c);
    forall i | 0 <= i < |h|
      ensures base[at + i] == h[i]
    {
      assert base[at..at + |h|][i] == base[at + i];
    }
    Slice(base, at, |h|, 1, 1 + |c.name|);
    assert h[1..1 + |c.name|] == c.name && h[1 + |c.name|] == 0;
    assert base[at + (1 + |c.name|)] == 0;
    NulFound(base, at + 1, end, c.name);
  }

  lemma FourParts(base: seq<Byte>, at: nat, end: nat, x: seq<Byte>, y: seq<Byte>, z: seq<Byte>, w: seq<Byte>)
    requires at + |x| + |y| + |z| + |w| == end <= |base| && base[at..end] == x + y + z + w
    ensures base[at..at + |x|] == x && base[at + |x|..at + |x| + |y|] == y
    ensures base[at + |x| + |y|..at + |x| + |y| + |z|] == z && base[at + |x| + |y| + |z|..end] == w
  {
    TwoParts(base, at, end, x + y + z, w);
    ThreeParts(base, at, at + |x| + |y| + |z|, x, y, z);
  }

  lemma FactorsFound(base: seq<Byte>, p: nat, end: nat, c: CieRecord, addrSize: nat)
    requires CieOk(c) && p + |c.align| + |c.data| + |c.ra| + |c.insns| == end <= |base|
    requires base[p..end] == c.align + c.data + c.ra + c.insns
    ensures var f := Factors(base, c.version, addrSize, p, end);
            && f.align == Uleb(c.align).0 % 0x100 && f.addrSize == addrSize && f.end == end
            && Between(base, f.insn, f.end) == c.insns
  {
    FourParts(base, p, end, c.align, c.data, c.ra, c.insns);
    FactorsAt(base, p, end, c, addrSize);
  }

  lemma FactorsAt(base: seq<Byte>, p: nat, end: nat, c: CieRecord, addrSize: nat)
    requires CieOk(c)
    requires var (d, r) := (p + |c.align|, p + |c.align| + |c.data|);
             && r + |c.ra| <= end <= |base|
             && base[p..d] == c.align && base[d..r] == c.data && base[r..r + |c.ra|] == c.ra
    ensures Factors(base, c.version, addrSize, p, end)
            == CieInfo(Uleb(c.align).0 % 0x100, addrSize, p + |c.align| + |c.data| + |c.ra|, end)
  {
    hide Uleb, IsLeb, LebAt;
    LebFound(base, p, end, c.align);
    LebFound(base, p + |c.align|, end, c.data);
    if c.version != 1 {
      LebFound(base, p + |c.align| + |c.data|, end, c.ra);
    }
  }

  // A well-formed CIE is parsed as itself wherever it lies.
  lemma CieParses(base: seq<Byte>, off: nat, c: CieRecord)
    requires CieOk(c) && EntryAt(base, off, CIE_ID, CieBody(c))
    ensures var r := ParsedCie(base, off);
            && r.Parsed? && r.cie.align == Uleb(c.align).0 % 0x100 && r.cie.addrSize == c.addrSize
            && r.cie.end <= |base| && Between(base, r.cie.insn, r.cie.end) == c.insns
  {
    hide Uleb, IsLeb, Little, Factors, AfterName, CieHead;
    var at, h := off + 8, |CieHead(c)|;
    var end := EntryEnd(base, off);
    var tail := c.align + c.data + c.ra + c.insns;
    assert CieBody(c) == CieHead(c) + tail;
    TwoParts(base, at, end, CieHead(c), tail);
    HeadFound(base, at, end, c);
    FactorsFound(base, at + h, end, c, c.addrSize);
  }

  // A name without an end takes all there is.
  lemma {:induction false} UnendedName(base: seq<Byte>, aug: nat, end: nat)
    requires end <= |base| && forall i :: aug <= i < end ==> base[i] != 0
    ensures AfterName(base, aug, end) == if aug < end then end else aug
    decreases |base| - aug
  {
    if aug < end {
      UnendedName(base, aug + 1, end);
    }
  }

  // Numbers missing at the end read as 0, so a CIE that ends in its name has no instructions.
  lemma CutShortCie(base: seq<Byte>, off: nat)
    requires IsEntry(base, off) && off + 9 < EntryEnd(base, off) && base[off + 8] < 4 && base[off + 9] != 'z' as int
    requires forall i :: off + 9 <= i < EntryEnd(base, off) ==> base[i] != 0
    ensures ParsedCie(base, off).Parsed?
    ensures var c, end := ParsedCie(base, off).cie, EntryEnd(base, off);
            c.align == 0 && c.addrSize == 4 && c.end == end && Between(base, c.insn, c.end) == []
  {
    hide AfterName, Word;
    UnendedName(base, off + 9, EntryEnd(base, off));
  }

  // A CIE whose name starts with z is refused, whatever follows.
  lemma AugmentedRefused(base: seq<Byte>, off: nat)
    requires off + 10 <= |base| && base[off + 8] < 4 && base[off + 9] == 'z' as int
    ensures ParsedCie(base, off) == Unusable
  {
    hide Factors, AfterName, IsEntry;
  }

  // And its FDEs are passed over.
  lemma UnusablePassed(base: seq<Byte>, off: nat, pc: nat)
    requires off + 8 <= |base| && IsEntry(base, off)
    requires var id := Word(base, off + 4); id == 0xFFFF_FFFF || ParsedCie(base, id) == Unusable
    ensures Lookup(base, off, pc) == Lookup(base, off + 4 + Word(base, off), pc)
  {
    hide ParsedCie, FdeAnswer, Word;
  }

  // A length of 0, or the mark of the 64-bit format, ends the walk, and so does an entry that is cut short.
  lemma WalkEnds(base: seq<Byte>, off: nat, pc: nat)
    requires off + 4 <= |base| ==>
               var n := Little(base[off..off + 4]); n == 0 || n == 0xFFFF_FFFF || off + 4 + n > |base|
    ensures Lookup(base, off, pc) == NoRule && ParsedCie(base, off) == Unusable
  {
    hide EntryAnswer, Little, Factors;
  }

  // An FDE names its CIE by number.
  datatype Entry = CieEntry(c: CieRecord) | FdeEntry(cie: nat, initLoc: seq<Byte>, range: seq<Byte>, insns: seq<Byte>)

  predicate EntryOk(entries: seq<Entry>, i: nat)
    requires i < |entries|
  {
    match entries[i]
    case CieEntry(c) => CieOk(c)
    case FdeEntry(j, initLoc, range, _) =>
      && j < |entries| && entries[j].CieEntry? && |initLoc| == |range| == entries[j].c.addrSize
  }

  function BodyOf(e: Entry): seq<Byte> {
    match e
    case CieEntry(c) => CieBody(c)
    case FdeEntry(_, initLoc, range, insns) => initLoc + range + insns
  }

  // base is the entries one after another, entry i at offs[i].
  predicate Layout(base: seq<Byte>, entries: seq<Entry>, offs: seq<nat>) {
    && |offs| == |entries| + 1 && offs[0] == 0 && offs[|entries|] == |base|
    && (forall i :: 0 <= i < |entries| ==> EntryOk(entries, i))
    && (forall i :: 0 <= i < |entries| ==> offs[i + 1] == offs[i] + 8 + |BodyOf(entries[i])|)
    && (forall i :: 0 <= i < |entries| ==> Placed(base, entries, offs, i))
  }

  predicate Placed(base: seq<Byte>, entries: seq<Entry>, offs: seq<nat>, i: nat)
    requires i < |entries| < |offs| && EntryOk(entries, i)
  {
    var id := if entries[i].CieEntry? then CIE_ID else offs[entries[i].cie];
    (entries[i].FdeEntry? ==> id != CIE_ID) && EntryAt(base, offs[i], id, BodyOf(entries[i]))
  }

  predicate Describes(e: Entry, pc: nat) {
    e.FdeEntry? && Little(e.initLoc) <= pc < (Little(e.initLoc) + Little(e.range)) % WORD32
  }

  function AnswerOfFde(entries: seq<Entry>, i: nat, pc: nat): Answer
    requires i < |entries| && EntryOk(entries, i) && entries[i].FdeEntry?
  {
    var e := entries[i];
    var c := entries[e.cie].c;
    RunOf(c.insns, e.insns, Little(e.initLoc), Env(Uleb(c.align).0 % 0x100, c.addrSize, pc))
  }

  lemma EntryPlaced(base: seq<Byte>, entries: seq<Entry>, offs: seq<nat>, i: nat)
    requires Layout(base, entries, offs) && i < |entries|
    ensures |offs| == |entries| + 1 && EntryOk(entries, i) && Placed(base, entries, offs, i)
    ensures offs[i + 1] == offs[i] + 8 + |BodyOf(entries[i])|
  {
    hide EntryOk, Placed, BodyOf;
  }

  lemma EntryIs(base: seq<Byte>, off: nat, id: nat, body: seq<Byte>)
    requires EntryAt(base, off, id, body)
    ensures off + 8 <= |base| && IsEntry(base, off)
    ensures EntryEnd(base, off) == off + 8 + |body| && Word(base, off + 4) == id
  {
    hide Little;
  }

  lemma FdeAnswers(base: seq<Byte>, entries: seq<Entry>, offs: seq<nat>, i: nat, pc: nat)
    requires Layout(base, entries, offs) && i < |entries|
    ensures offs[i] + 8 <= |base| && IsEntry(base, offs[i]) && EntryEnd(base, offs[i]) == offs[i + 1]
    ensures EntryAnswer(base, offs[i], pc) ==
            if Describes(entries[i], pc) then Some(AnswerOfFde(entries, i, pc)) else None
  {
    EntryPlaced(base, entries, offs, i);
    if entries[i].FdeEntry? {
      EntryPlaced(base, entries, offs, entries[i].cie);
    }
    hide Layout, Placed, CieOk, EntryOk, CieBody, IsEntry, EntryEnd, EntryAt, EntryAnswer, AnswerOfFde, Describes;
    PlacedAnswers(base, entries, offs, i, pc);
  }

  lemma PlacedAnswers(base: seq<Byte>, entries: seq<Entry>, offs: seq<nat>, i: nat, pc: nat)
    requires |offs| == |entries| + 1 && i < |entries|
    requires EntryOk(entries, i) && Placed(base, entries, offs, i)
    requires entries[i].FdeEntry? ==> var j := entries[i].cie; EntryOk(entries, j) && Placed(base, entries, offs, j)
    ensures var end := offs[i] + 8 + |BodyOf(entries[i])|;
            && offs[i] + 8 <= |base| && IsEntry(base, offs[i]) && EntryEnd(base, offs[i]) == end
            && EntryAnswer(base, offs[i], pc) ==
               if Describes(entries[i], pc) then Some(AnswerOfFde(entries, i, pc)) else None
  {
    hide CieOk, CieBody, Word, IsEntry, EntryEnd, EntryAt, EntryAnswer, FdeAnswer, AnswerOfFde, ParsedCie, Between;
    var off, body := offs[i], BodyOf(entries[i]);
    if entries[i].FdeEntry? {
      var j := entries[i].cie;
      EntryIs(base, off, offs[j], body);
      EntryHolds(base, off, offs[j], body);
      CieParses(base, offs[j], entries[j].c);
      EntryAsks(base, off, offs[j], pc);
      FdeAnswersWith(base, off, entries, i, ParsedCie(base, offs[j]).cie, pc);
    } else {
      EntryIs(base, off, CIE_ID, body);
      EntryPasses(base, off, pc);
    }
  }

  lemma EntryAsks(base: seq<Byte>, off: nat, id: nat, pc: nat)
    requires off + 8 <= |base| && IsEntry(base, off) && Word(base, off + 4) == id && id != CIE_ID
    requires ParsedCie(base, id).Parsed? && ParsedCie(base, id).cie.end <= |base|
    ensures EntryAnswer(base, off, pc) == FdeAnswer(base, off, EntryEnd(base, off), ParsedCie(base, id).cie, pc)
  {
    hide ParsedCie, FdeAnswer;
  }

  lemma EntryPasses(base: seq<Byte>, off: nat, pc: nat)
    requires off + 8 <= |base| && IsEntry(base, off) && Word(base, off + 4) == CIE_ID
    ensures EntryAnswer(base, off, pc) == None
  {
  }

  lemma EntryHolds(base: seq<Byte>, off: nat, id: nat, body: seq<Byte>)
    requires EntryAt(base, off, id, body)
    ensures off + 8 + |body| <= |base| && base[off + 8..off + 8 + |body|] == body
  {
    hide Little;
  }

  lemma FdeAnswersWith(base: seq<Byte>, off: nat, entries: seq<Entry>, i: nat, info: CieInfo, pc: nat)
    requires i < |entries| && entries[i].FdeEntry? && EntryOk(entries, i)
    requires off + 8 + |BodyOf(entries[i])| <= |base|
    requires base[off + 8..off + 8 + |BodyOf(entries[i])|] == BodyOf(entries[i])
    requires info.end <= |base|
    requires var c := entries[entries[i].cie].c;
             info.align == Uleb(c.align).0 % 0x100 && info.addrSize == c.addrSize &&
             Between(base, info.insn, info.end) == c.insns
    ensures FdeAnswer(base, off, off + 8 + |BodyOf(entries[i])|, info, pc)
            == if Describes(entries[i], pc) then Some(AnswerOfFde(entries, i, pc)) else None
  {
    hide Uleb, IsLeb, Little, RunOf, CieOk;
    var e, a := entries[i], info.addrSize;
    ThreeParts(base, off + 8, off + 8 + |BodyOf(e)|, e.initLoc, e.range, e.insns);
    assert off + 8 + a + a == off + 8 + 2 * a;
  }

  // The walk finds the first description of pc.
  lemma {:induction false} LookupFrom(base: seq<Byte>, entries: seq<Entry>, offs: seq<nat>, i: nat, k: nat, pc: nat)
    requires Layout(base, entries, offs) && i <= k <= |entries|
    requires forall j :: i <= j < k ==> !Describes(entries[j], pc)
    requires k < |entries| ==> Describes(entries[k], pc)
    ensures Lookup(base, offs[i], pc) == if k == |entries| then NoRule else AnswerOfFde(entries, k, pc)
    decreases k - i
  {
    hide Describes, EntryAnswer, AnswerOfFde, IsEntry, EntryEnd, Placed;
    if i < |entries| {
      FdeAnswers(base, entries, offs, i, pc);
      if i < k {
        LookupFrom(base, entries, offs, i + 1, k, pc);
      }
    }
  }

  // From bytes to the table: the rule reported for pc is the one of the last row at or before pc in the
  // table of the first FDE that covers it.
  lemma SectionRuleIsTable(base: seq<Byte>, entries: seq<Entry>, offs: seq<nat>, k: nat, pc: nat,
                           initial: seq<Instr>, prog: seq<Instr>, row: nat)
    requires Layout(base, entries, offs) && k < |entries| && Describes(entries[k], pc)
    requires forall j :: 0 <= j < k ==> !Describes(entries[j], pc)
    requires EntryOk(entries, k)
    requires var c := entries[entries[k].cie].c;
             var env := Env(Uleb(c.align).0 % 0x100, c.addrSize, pc);
             var initLoc := Little(entries[k].initLoc);
             && AllFit(initial, env) && c.insns == EncAll(initial, env)
             && AllFit(prog, env) && entries[k].insns == EncAll(prog, env)
             && WellFormed(initial + prog, initLoc, Unset, env)
             && Covers(Rows(initial + prog, initLoc, Unset, env), row, pc)
    ensures var c := entries[entries[k].cie].c;
            var env := Env(Uleb(c.align).0 % 0x100, c.addrSize, pc);
            Lookup(base, 0, pc) == AnswerFor(Rows(initial + prog, Little(entries[k].initLoc), Unset, env)[row].cfa)
  {
    hide Layout, Uleb, Little, Fits, WellFormed, Rows, AllFit, EncAll, Exec, Covers;
    var c := entries[entries[k].cie].c;
    var env := Env(Uleb(c.align).0 % 0x100, c.addrSize, pc);
    LookupFrom(base, entries, offs, 0, k, pc);
    FirstOffset(base, entries, offs);
    CfiRunIsTable(initial, prog, Little(entries[k].initLoc), env, row);
  }

  lemma FirstOffset(base: seq<Byte>, entries: seq<Entry>, offs: seq<nat>)
    requires Layout(base, entries, offs)
    ensures offs[0] == 0
  {
  }
}
