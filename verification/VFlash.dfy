/** The vFlash transaction of the GDB server (src/gdb_rsp.c): a growing page buffer, written at once. */
module VFlash {
  import opened Options
  import opened Bytes
  import opened Updi

  const MAX_ERASE: nat := 0x10_0000
  const ESCAPE: Byte := 0x7D

  // ----- Packets -----

  // Hex numbers are 32 bits wide; a body is what follows the second colon.
  datatype Packet =
    | Erase(addr: nat, len: nat)
    | BadErase                              // unparsable vFlashErase
    | Write(to: nat, body: seq<Byte>)
    | BadWrite                              // unparsable vFlashWrite
    | Done
    | Access(own: seq<Patch>)               // g, G, P, m, M, X, c, s
    | Other(own: seq<Patch>)                // a packet that never looks at the transaction

  // What the handler of any other packet programs into flash when it is reached: one patch for M and X,
  // the BREAKs of Z and z, whatever the program running under c and s does, nothing for most.
  datatype Patch = Patch(at: nat, data: seq<Byte>)

  predicate WellTyped(p: Packet) {
    match p
    case Erase(a, n) => a < WORD32 && n < WORD32
    case Write(a, _) => a < WORD32
    case Access(own) => Fitting(own, FLASH_SIZE)
    case Other(own) => Fitting(own, FLASH_SIZE)
    case _ => true
  }

  predicate Fitting(own: seq<Patch>, size: nat) {
    forall k :: 0 <= k < |own| ==> own[k].at + |own[k].data| <= size
  }

  function Patched(f: seq<Byte>, own: seq<Patch>): (r: seq<Byte>)
    requires Fitting(own, |f|)
    ensures |r| == |f|
    decreases |own|
  {
    if own == [] then f
    else
      var last := own[|own| - 1];
      Overlay(Patched(f, own[..|own| - 1]), last.at, last.data)
  }

  function Xor20(b: Byte): Byte { if b / 0x20 % 2 == 1 then b - 0x20 else b + 0x20 }

  // Undo the escaping of a binary body; a body that ends in the middle of an escape has no value.
  function Unescape(body: seq<Byte>): Option<seq<Byte>> {
    if body == [] then Some([])
    else if body[0] != ESCAPE then Prepend(body[0], Unescape(body[1..]))
    else if |body| == 1 then None
    else Prepend(Xor20(body[1]), Unescape(body[2..]))
  }

  function Prepend(b: Byte, r: Option<seq<Byte>>): Option<seq<Byte>> {
    if r.None? then None else Some([b] + r.value)
  }

  // y has the bits of x but for bit 5.
  predicate Bit5Flipped(x: Byte, y: Byte) {
    forall k: nat :: k < 8 ==> (Bit(y, k) <==> if k == 5 then !Bit(x, k) else Bit(x, k))
  }

  lemma FlipsBit5(x: Byte, y: Byte)
    ensures Bit5Flipped(x, y) <==> y == Xor20(x)
  {
    Xor20Flips(x);
    if Bit5Flipped(x, y) {
      hide Xor20;
      var z := Xor20(x);
      assert forall k: nat :: k < 8 ==> (Bit(y, k) <==> Bit(z, k));
      assert Pow2(8) == 0x100 by { assert Pow2(3) == 8 && Pow2(5) == 32 && Pow2(7) == 128; }
      SameBits(y, z, 8);
    }
  }

  lemma Xor20Flips(x: Byte)
    ensures Bit5Flipped(x, Xor20(x))
  {
    forall k: nat | k < 8
      ensures Bit(Flip(x, 5), k) <==> if k == 5 then !Bit(x, k) else Bit(x, k)
    {
      FlipsOne(x, 5, k);
    }
    Xor20IsFlip(x);
  }

  function Flip(x: nat, n: nat): nat {
    if n == 0 then x / 2 * 2 + 1 - x % 2 else x % 2 + 2 * Flip(x / 2, n - 1)
  }

  lemma {:induction false} FlipsOne(x: nat, n: nat, k: nat)
    ensures Bit(Flip(x, n), k) <==> if k == n then !Bit(x, k) else Bit(x, k)
  {
    var y := Flip(x, n);
    if n == 0 {
      assert y / 2 == x / 2 && y % 2 == 1 - x % 2;
    } else {
      assert y / 2 == Flip(x / 2, n - 1) && y % 2 == x % 2;
      if k > 0 {
        FlipsOne(x / 2, n - 1, k - 1);
      }
    }
  }

  lemma Xor20IsFlip(x: Byte)
    ensures Xor20(x) == Flip(x, 5)
  {
    var x1 := x / 2;
    var x2 := x1 / 2;
    var x3 := x2 / 2;
    var x4 := x3 / 2;
    var x5 := x4 / 2;
    assert x5 == x / 0x20;
    var d := if x5 % 2 == 1 then -1 else 1;
    assert Flip(x5, 0) == x5 + d;
    FlipAdds(x4, 0, d);
    FlipAdds(x3, 1, 2 * d);
    FlipAdds(x2, 2, 4 * d);
    FlipAdds(x1, 3, 8 * d);
    FlipAdds(x, 4, 16 * d);
  }

  lemma FlipAdds(x: nat, n: nat, d: int)
    requires Flip(x / 2, n) == x / 2 + d
    ensures Flip(x, n + 1) == x + 2 * d
  {
  }

  lemma {:induction false} SameBits(a: nat, b: nat, n: nat)
    requires a < Pow2(n) && b < Pow2(n) && forall k: nat :: k < n ==> (Bit(a, k) <==> Bit(b, k))
    ensures a == b
  {
    if n > 0 {
      assert Bit(a, 0) <==> Bit(b, 0);
      forall k: nat | k < n - 1
        ensures Bit(a / 2, k) <==> Bit(b / 2, k)
      {
        assert Bit(a, k + 1) <==> Bit(b, k + 1);
      }
      SameBits(a / 2, b / 2, n - 1);
    }
  }

  // What GDB sends for data: every byte as it is or as 0x7D and the byte with bit 5 flipped, but 0x7D
  // itself never as it is.
  predicate Escapes(body: seq<Byte>, data: seq<Byte>)
    decreases |data|
  {
    if data == [] then body == []
    else if body == [] then false
    else if body[0] == 0x7D then
      |body| > 1 && Bit5Flipped(data[0], body[1]) && Escapes(body[2..], data[1..])
    else body[0] == data[0] && Escapes(body[1..], data[1..])
  }

  // A body unescapes to the data it escapes, and to no other.
  lemma {:induction false} UnescapeEscape(body: seq<Byte>, data: seq<Byte>)
    ensures Unescape(body) == Some(data) <==> Escapes(body, data)
    decreases |data|
  {
    hide Bit5Flipped, Xor20;
    if data != [] && body != [] {
      if body[0] == 0x7D {
        if |body| > 1 {
          FlipsBit5(data[0], body[1]);
          FlipsBack(data[0], body[1]);
          UnescapeEscape(body[2..], data[1..]);
          PrependIs(Xor20(body[1]), Unescape(body[2..]), data);
        }
      } else {
        UnescapeEscape(body[1..], data[1..]);
        PrependIs(body[0], Unescape(body[1..]), data);
      }
    }
  }

  lemma FlipsBack(x: Byte, y: Byte)
    ensures y == Xor20(x) <==> x == Xor20(y)
  {
  }

  lemma PrependIs(b: Byte, r: Option<seq<Byte>>, data: seq<Byte>)
    requires data != []
    ensures Prepend(b, r) == Some(data) <==> b == data[0] && r == Some(data[1..])
  {
    assert data == [data[0]] + data[1..];
    if r.Some? {
      assert ([b] + r.value)[1..] == r.value;
    }
  }

  // Whatever bytes the sender escapes besides 0x7D, there is such a body.
  lemma {:induction false} SomeEscape(data: seq<Byte>, special: set<Byte>) returns (body: seq<Byte>)
    requires 0x7D in special
    ensures Escapes(body, data)
  {
    body := [];
    if data != [] {
      var rest := SomeEscape(data[1..], special);
      if data[0] in special {
        FlipsBit5(data[0], Xor20(data[0]));
        body := [0x7D, Xor20(data[0])] + rest;
        assert body[2..] == rest;
      } else {
        body := [data[0]] + rest;
        assert body[1..] == rest;
      }
    }
  }

  // ----- Address ranges -----

  function PageFloor(v: nat): nat { v - v % PAGE }

  function PageCeil(v: nat): nat { if v % PAGE == 0 then v else v + PAGE - v % PAGE }

  lemma PageBounds(v: nat)
    ensures PageFloor(v) % PAGE == 0 && PageFloor(v) <= v < PageFloor(v) + PAGE
    ensures PageCeil(v) % PAGE == 0 && v <= PageCeil(v) < v + PAGE
  {
  }

  // The test of vFlashErase: the flag bit of the first and of the last address, in 32-bit arithmetic.
  predicate EraseOk(addr: nat, len: nat) {
    && len != 0
    && !InDataSpace(addr) && !InDataSpace((addr + len - 1) % WORD32)
    && len <= MAX_ERASE
  }

  // It looks at two addresses only, yet accepts exactly the ranges of at most 1 MB that
  // neither touch data space nor wrap.
  lemma EraseOkIff(addr: nat, len: nat)
    requires addr < WORD32
    ensures EraseOk(addr, len) <==>
      && 0 < len <= 0x10_0000 && addr + len <= 0x1_0000_0000
      && forall a :: addr <= a < addr + len ==> a % 0x100_0000 < 0x80_0000
  {
    var last := (addr + len - 1) % WORD32;
    DataSpaceIsBit23(addr);
    DataSpaceIsBit23(last);
    hide InDataSpace;
    if EraseOk(addr, len) {
      NoFlagBetween(addr, len);
    } else if 0 < len <= 0x10_0000 && addr + len <= 0x1_0000_0000 {
      assert last == addr + len - 1;
    }
  }

  lemma NoFlagBetween(addr: nat, len: nat)
    requires addr < 0x1_0000_0000 && 0 < len <= 0x10_0000 && addr % 0x100_0000 < 0x80_0000
    requires (addr + len - 1) % 0x1_0000_0000 % 0x100_0000 < 0x80_0000
    ensures addr + len <= 0x1_0000_0000
    ensures forall a :: addr <= a < addr + len ==> a % 0x100_0000 < 0x80_0000
  {
    var q, r := addr / 0x100_0000, addr % 0x100_0000;
    assert addr == 0x100_0000 * q + r;
    assert r + len - 1 < 0x90_0000;
    assert addr + len - 1 < 0x1_0000_0000;
    assert (addr + len - 1) % 0x100_0000 == r + len - 1;
    forall a | addr <= a < addr + len
      ensures a % 0x100_0000 < 0x80_0000
    {
      assert a % 0x100_0000 == a - 0x100_0000 * q;
    }
  }

  lemma NoWrap(addr: nat, len: nat)
    requires addr < WORD32 && EraseOk(addr, len)
    ensures len > 0 && addr + len <= WORD32 - DATA_FLAG
  {
  }

  // ----- What a transaction means -----

  datatype Op = Erased(addr: nat, len: nat) | Written(to: nat, data: seq<Byte>)

  datatype Window = Window(lo: nat, hi: nat)

  function Pages(addr: nat, len: nat): Window { Window(PageFloor(addr), PageCeil(addr + len)) }

  function Join(a: Window, b: Window): Window {
    Window(if b.lo < a.lo then b.lo else a.lo, if b.hi > a.hi then b.hi else a.hi)
  }

  // The window spanned by the erased ranges.
  function Hull(h: seq<Op>): Window
    requires h != []
  {
    var op := h[|h| - 1];
    var before := h[..|h| - 1];
    if op.Written? then if before == [] then Window(0, 0) else Hull(before)
    else if before == [] then Pages(op.addr, op.len)
    else Join(Hull(before), Pages(op.addr, op.len))
  }

  predicate Covers(op: Op, x: nat) { op.Written? && op.to <= x < op.to + |op.data| }

  // The byte due at x: 0xFF under all the writes, in order.
  function At(h: seq<Op>, x: nat): Byte {
    if h == [] then ERASED
    else if Covers(h[|h| - 1], x) then h[|h| - 1].data[x - h[|h| - 1].to]
    else At(h[..|h| - 1], x)
  }

  // The write of a transaction is accepted.
  predicate WriteOk(h: seq<Op>, to: nat, body: seq<Byte>) {
    && h != [] && !InDataSpace(to) && Hull(h).lo <= to
    && Unescape(body).Some?
    && (Unescape(body).value == [] || to + |Unescape(body).value| <= Hull(h).hi)
  }

  predicate Inside(a: nat, w: Window) { w.lo <= a < w.hi }

  // A well-formed body is accepted exactly if a transaction is open, the address is in flash, and every byte
  // lands in the window.
  lemma WriteOkIff(h: seq<Op>, to: nat, body: seq<Byte>, data: seq<Byte>)
    requires Proper(h) && Escapes(body, data)
    ensures WriteOk(h, to, body) <==>
      && h != [] && to % 0x100_0000 < 0x80_0000 && Hull(h).lo <= to
      && forall a :: to <= a < to + |data| ==> Inside(a, Hull(h))
  {
    hide Unescape, Escapes, Proper;
    UnescapeEscape(body, data);
    DataSpaceIsBit23(to);
    if data != [] && h != [] {
      assert Inside(to + |data| - 1, Hull(h)) ==> to + |data| <= Hull(h).hi;
    }
  }

  // And a body that escapes nothing is not.
  lemma WriteNotOk(h: seq<Op>, to: nat, body: seq<Byte>)
    requires forall data :: !Escapes(body, data)
    ensures !WriteOk(h, to, body)
  {
    hide Hull, Unescape, Escapes;
    if Unescape(body).Some? {
      UnescapeEscape(body, Unescape(body).value);
    }
  }

  // The operations accepted since the transaction was opened.
  function Next(h: seq<Op>, p: Packet): seq<Op> {
    match p
    case Erase(a, n) => if EraseOk(a, n) then h + [Erased(a, n)] else h
    case Write(to, body) => if WriteOk(h, to, body) then h + [Written(to, Unescape(body).value)] else []
    case BadWrite => []
    case Done => []
    case Access(_) => []
    case BadErase => h
    case Other(_) => h
  }

  // Flash once the window of a transaction is programmed.
  function Committed(h: seq<Op>, f: seq<Byte>): (r: seq<Byte>)
    ensures |r| == |f|
    ensures h == [] ==> r == f
  {
    if h == [] then f
    else seq(|f|, x requires 0 <= x < |f| => if Hull(h).lo <= x < Hull(h).hi then At(h, x) else f[x])
  }

  // A transaction begins with an erase, all erases are acceptable and all writes inside the window of their time.
  predicate Proper(h: seq<Op>) {
    h != [] ==>
      var op := h[|h| - 1];
      var before := h[..|h| - 1];
      && Proper(before)
      && (op.Erased? ==> op.addr < WORD32 && EraseOk(op.addr, op.len))
      && (op.Written? ==> before != [] && Hull(before).lo <= op.to
                          && (op.data == [] || op.to + |op.data| <= Hull(before).hi))
  }

  lemma NextProper(h: seq<Op>, p: Packet)
    requires Proper(h) && WellTyped(p)
    ensures Proper(Next(h, p))
  {
  }

  // The window is made of whole pages, below the top of the address space.
  lemma {:induction false} HullAligned(h: seq<Op>)
    requires Proper(h) && h != []
    ensures Hull(h).lo % 512 == 0 && Hull(h).hi % 512 == 0 && Hull(h).lo < Hull(h).hi < 0x1_0000_0000
    decreases |h|
  {
    hide PageFloor, PageCeil, EraseOk;
    var op := h[|h| - 1];
    if op.Erased? {
      NoWrap(op.addr, op.len);
      PageBounds(op.addr);
      PageBounds(op.addr + op.len);
    }
    if |h| > 1 {
      HullAligned(h[..|h| - 1]);
    }
  }

  // It is the least such window around every erased range.
  lemma {:induction false} HullIsLeast(h: seq<Op>, w: Window)
    requires Proper(h) && h != [] && w.lo % 512 == 0 && w.hi % 512 == 0
    ensures (w.lo <= Hull(h).lo && Hull(h).hi <= w.hi)
      <==> forall k :: 0 <= k < |h| && h[k].Erased? ==> w.lo <= h[k].addr && h[k].addr + h[k].len <= w.hi
    decreases |h|
  {
    hide PageFloor, PageCeil, EraseOk;
    var op, before := h[|h| - 1], h[..|h| - 1];
    if op.Erased? {
      FloorIsGreatest(op.addr, w.lo);
      CeilIsLeast(op.addr + op.len, w.hi);
    }
    if before != [] {
      HullIsLeast(before, w);
      assert forall k :: 0 <= k < |before| ==> before[k] == h[k];
    }
  }

  lemma FloorIsGreatest(v: nat, lo: nat)
    requires lo % PAGE == 0
    ensures lo <= v <==> lo <= PageFloor(v)
  {
  }

  lemma CeilIsLeast(v: nat, hi: nat)
    requires hi % PAGE == 0
    ensures v <= hi <==> PageCeil(v) <= hi
  {
  }

  // The last write over x decides the byte there.
  lemma {:induction false} LastWriteWins(h: seq<Op>, x: nat, k: nat)
    requires k < |h| && Covers(h[k], x)
    requires forall j :: k < j < |h| ==> !Covers(h[j], x)
    ensures At(h, x) == h[k].data[x - h[k].to]
    decreases |h|
  {
    if k < |h| - 1 {
      LastWriteWins(h[..|h| - 1], x, k);
    }
  }

  // A repeated erase does not blank what was written before it in the same transaction.
  lemma ReEraseKeeps(h: seq<Op>, op: Op, x: nat)
    requires op.Erased?
    ensures At(h + [op], x) == At(h, x)
  {
    assert (h + [op])[..|h|] == h;
  }

  // For example: erase a page, write over its first bytes, erase it again; the bytes are still due.
  lemma ReEraseExample(data: seq<Byte>, x: nat)
    requires x < |data| <= PAGE
    ensures var h := [Erased(0, PAGE), Written(0, data), Erased(0, PAGE)];
            Proper(h) && At(h, x) == data[x]
  {
    var h := [Erased(0, PAGE), Written(0, data), Erased(0, PAGE)];
    assert h[..2] == [Erased(0, PAGE), Written(0, data)] && h[..2][..1] == [Erased(0, PAGE)];
    assert EraseOk(0, PAGE);
    assert Hull(h[..2][..1]) == Pages(0, PAGE);
    ProperPair(data);
    LastWriteWins(h, x, 1);
  }

  lemma ProperPair(data: seq<Byte>)
    requires |data| <= PAGE
    ensures Proper([Erased(0, PAGE), Written(0, data)])
  {
    var h := [Erased(0, PAGE), Written(0, data)];
    assert h[..1] == [Erased(0, PAGE)] && h[..1][..0] == [];
    assert EraseOk(0, PAGE);
    assert Proper(h[..1]);
    assert Hull(h[..1]) == Pages(0, PAGE);
  }

  lemma {:induction false} UnwrittenIsErased(h: seq<Op>, x: nat)
    requires forall j :: 0 <= j < |h| ==> !Covers(h[j], x)
    ensures At(h, x) == ERASED
    decreases |h|
  {
    if h != [] {
      UnwrittenIsErased(h[..|h| - 1], x);
    }
  }

  // No byte was written outside the window.
  lemma {:induction false} OutsideErased(h: seq<Op>, x: nat)
    requires Proper(h) && (h == [] || x < Hull(h).lo || Hull(h).hi <= x)
    ensures At(h, x) == ERASED
    decreases |h|
  {
    hide PageFloor, PageCeil, EraseOk;
    if h != [] {
      OutsideErased(h[..|h| - 1], x);
    }
  }

  // ----- The server's transaction state -----

  datatype Reply = Ok | E22 | Handled      // Handled: answered by the packet's own handler

  class Session {
    const chip: Device
    var buf: array?<Byte>
    var base: nat
    ghost var history: seq<Op>

    ghost predicate Valid()
      reads this, chip, buf
    {
      && chip.Valid() && Proper(history)
      && (buf == null <==> history == [])
      && (buf != null ==>
            && buf != chip.flash
            && Holds(buf[..], base, history))
    }

    static ghost predicate Holds(b: seq<Byte>, base: nat, h: seq<Op>)
      requires h != []
    {
      && base == Hull(h).lo && base + |b| == Hull(h).hi
      && forall i :: 0 <= i < |b| ==> b[i] == At(h, base + i)
    }

    constructor (chip: Device)
      requires chip.Valid()
      ensures Valid() && this.chip == chip && history == []
    {
      this.chip, buf, base, history := chip, null, 0, [];
    }

    method Abort()
      requires chip.Valid()
      modifies this
      ensures Valid() && history == []
    {
      buf, base, history := null, 0, [];
    }

    // vFlashErase: open the buffer or grow it, new pages reading as erased.
    method DoErase(addr: nat, len: nat) returns (reply: Reply)
      requires Valid() && addr < WORD32 && len < WORD32
      modifies this
      ensures Valid() && history == Next(old(history), Erase(addr, len))
      ensures reply == if EraseOk(addr, len) then Ok else E22
    {
      if len == 0 || InDataSpace(addr) || InDataSpace((addr + len - 1) % WORD32) || len > MAX_ERASE {
        return E22;
      }
      Extend(addr, len);
      return Ok;
    }

    method Extend(addr: nat, len: nat)
      requires Valid() && addr < WORD32 && EraseOk(addr, len)
      modifies this
      ensures Valid() && history == Next(old(history), Erase(addr, len))
    {
      hide PageFloor, PageCeil, Hull, At, Proper, Holds, InDataSpace;
      ghost var was, wasBase, before := if buf == null then [] else buf[..], base, history;
      NextProper(before, Erase(addr, len));
      MakeRoom(Pages(addr, len), Erased(addr, len));
      history := history + [Erased(addr, len)];
      ErasedHolds(was, wasBase, before, buf[..], base, Erased(addr, len));
    }

    // The buffer spans w as well, what it held kept and the rest erased.
    method MakeRoom(w: Window, ghost op: Op)
      requires Valid() && op.Erased? && w == Pages(op.addr, op.len) && Proper(history + [op])
      modifies this`buf, this`base
      ensures buf != null && buf != chip.flash && Proper(history) && w.lo <= w.hi
      ensures old(buf) == null ==> history == [] && base == w.lo <= w.hi && buf[..] == Blank(w.hi - w.lo)
      ensures old(buf) != null ==>
                && history != [] && Holds(old(buf[..]), old(base), history)
                && base == Join(Hull(history), w).lo
                && base <= old(base) && old(base) + |old(buf[..])| <= Join(Hull(history), w).hi
                && buf[..] == Overlay(Blank(Join(Hull(history), w).hi - base), old(base) - base, old(buf[..]))
    {
      hide PageFloor, PageCeil, Hull, At, Proper, Overlay;
      ErasedPages(history, op);
      if buf == null {
        buf := new Byte[w.hi - w.lo](_ => ERASED);
        base := w.lo;
        assert buf[..] == Blank(w.hi - w.lo);
      } else {
        var oldHi := base + buf.Length;
        var newLo := if w.lo < base then w.lo else base;
        var newHi := if w.hi > oldHi then w.hi else oldHi;
        if newLo != base || newHi != oldHi {
          buf := Grown(buf, base - newLo, newHi - newLo);
          base := newLo;
        } else {
          OverlayWhole(Blank(buf.Length), buf[..]);
        }
      }
    }

    static lemma OverlayWhole(f: seq<Byte>, data: seq<Byte>)
      requires |f| == |data|
      ensures Overlay(f, 0, data) == data
    {
    }

    static method Grown(b: array<Byte>, shift: nat, size: nat) returns (nb: array<Byte>)
      requires shift + b.Length <= size
      ensures fresh(nb) && nb[..] == Overlay(Blank(size), shift, b[..])
    {
      nb := new Byte[size](_ => ERASED);
      for i := 0 to b.Length
        invariant nb[..] == Overlay(Blank(size), shift, b[..i])
      {
        nb[shift + i] := b[i];
      }
      assert b[..b.Length] == b[..];
    }

    static lemma ErasedPages(h: seq<Op>, op: Op)
      requires op.Erased? && Proper(h + [op])
      ensures Pages(op.addr, op.len).lo < Pages(op.addr, op.len).hi
      ensures Proper(h)
      ensures h != [] ==> Hull(h).lo < Hull(h).hi
    {
    }

    static lemma Appended(h: seq<Op>, op: Op, x: nat)
      ensures At(h + [op], x) == if Covers(op, x) then op.data[x - op.to] else At(h, x)
      ensures op.Erased? ==>
                Hull(h + [op]) == if h == [] then Pages(op.addr, op.len) else Join(Hull(h), Pages(op.addr, op.len))
      ensures op.Written? && h != [] ==> Hull(h + [op]) == Hull(h)
    {
    }

    static lemma ErasedHolds(was: seq<Byte>, wasBase: nat, h: seq<Op>, now: seq<Byte>, base: nat, op: Op)
      requires op.Erased? && Proper(h) && Pages(op.addr, op.len).lo <= Pages(op.addr, op.len).hi
      requires h == [] ==>
                 var w := Pages(op.addr, op.len); base == w.lo && now == Blank(w.hi - w.lo)
      requires h != [] ==>
                 var w := Join(Hull(h), Pages(op.addr, op.len));
                 && Holds(was, wasBase, h) && base == w.lo <= wasBase && wasBase + |was| <= w.hi
                 && now == Overlay(Blank(w.hi - base), wasBase - base, was)
      ensures Holds(now, base, h + [op])
    {
      hide PageFloor, PageCeil, Hull, At, Proper;
      Appended(h, op, 0);
      forall i | 0 <= i < |now|
        ensures now[i] == At(h + [op], base + i)
      {
        Appended(h, op, base + i);
        if h == [] {
          UnwrittenIsErased(h, base + i);
        } else if base + i < wasBase || base + i >= wasBase + |was| {
          OutsideErased(h, base + i);
        } else {
          assert now[i] == was[base + i - wasBase];
        }
      }
    }

    // vFlashWrite: store the unescaped body; anything wrong ends the transaction.
    method DoWrite(to: nat, body: seq<Byte>) returns (reply: Reply)
      requires Valid() && to < WORD32
      modifies this, buf
      ensures Valid() && history == Next(old(history), Write(to, body))
      ensures reply == if WriteOk(old(history), to, body) then Ok else E22
    {
      if buf == null {
        return E22;
      }
      hide Hull, At, Proper, Unescape, Overlay;
      if InDataSpace(to) || to < base {
        Abort();
        return E22;
      }
      ghost var before, was := history, buf[..];
      var ok := Fill(to - base, body);
      if !ok {
        Abort();
        return E22;
      }
      ghost var data := Unescape(body).value;
      history := history + [Written(to, data)];
      NextProper(before, Write(to, body));
      WrittenHolds(was, base, before, buf[..], Written(to, data));
      return Ok;
    }

    // The unescaping loop. A refused body may leave part of it in the buffer.
    method Fill(off: nat, body: seq<Byte>) returns (ok: bool)
      requires Valid() && buf != null
      modifies buf
      ensures ok <==>
              && Unescape(body).Some?
              && (Unescape(body).value == [] || off + |Unescape(body).value| <= buf.Length)
      ensures ok && Unescape(body).value == [] ==> buf[..] == old(buf[..])
      ensures ok && Unescape(body).value != [] ==> buf[..] == Overlay(old(buf[..]), off, Unescape(body).value)
    {
      hide Hull, At, Proper, Unescape, Overlay, Holds;
      ghost var done: seq<Byte> := [];
      ghost var was := buf[..];
      var i: nat, out := 0, off;
      FillStart(was, off, body);
      while i < |body|
        invariant i <= |body| && out == off + |done|
        invariant done == [] || out <= buf.Length
        invariant Unescape(body) == After(done, Unescape(body[i..]))
        invariant buf[..] == if done == [] then was else Overlay(was, off, done)
      {
        UnescapeStep(body, i);
        var b := body[i];
        if b == ESCAPE {
          if i + 1 >= |body| {
            return false;
          }
          i := i + 1;
          b := Xor20(body[i]);
        }
        AfterPrepend(done, b, Unescape(body[i + 1..]));
        if out >= buf.Length {
          return false;
        }
        OverlayNext(was, off, done, b);
        buf[out] := b;
        out := out + 1;
        done := done + [b];
        i := i + 1;
      }
      assert body[i..] == [];
      FillEnd(done);
      return true;
    }

    static function After(done: seq<Byte>, r: Option<seq<Byte>>): Option<seq<Byte>> {
      if r.None? then None else Some(done + r.value)
    }

    static lemma FillStart(was: seq<Byte>, off: nat, body: seq<Byte>)
      ensures Unescape(body) == After([], Unescape(body[0..]))
    {
      assert body[0..] == body;
      var r := Unescape(body);
      if r.Some? {
        assert [] + r.value == r.value;
      }
    }

    static lemma FillEnd(done: seq<Byte>)
      ensures After(done, Unescape([])) == Some(done)
    {
      assert done + [] == done;
    }

    static lemma UnescapeStep(body: seq<Byte>, i: nat)
      requires i < |body|
      ensures if body[i] != ESCAPE then Unescape(body[i..]) == Prepend(body[i], Unescape(body[i + 1..]))
              else if i + 1 == |body| then Unescape(body[i..]) == None
              else Unescape(body[i..]) == Prepend(Xor20(body[i + 1]), Unescape(body[i + 2..]))
    {
    }

    static lemma AfterPrepend(done: seq<Byte>, b: Byte, r: Option<seq<Byte>>)
      ensures After(done, Prepend(b, r)) == After(done + [b], r)
      ensures After(done, Prepend(b, r)).Some? ==> |After(done, Prepend(b, r)).value| > |done|
    {
      if r.Some? {
        assert done + ([b] + r.value) == done + [b] + r.value;
      }
    }

    static lemma OverlayNext(was: seq<Byte>, off: nat, done: seq<Byte>, b: Byte)
      requires off + |done| < |was|
      ensures (if done == [] then was else Overlay(was, off, done))[off + |done| := b] == Overlay(was, off, done + [b])
    {
    }

    static lemma WrittenHolds(was: seq<Byte>, base: nat, h: seq<Op>, now: seq<Byte>, op: Op)
      requires h != [] && op.Written? && Holds(was, base, h) && base <= op.to
      requires op.data == [] ==> now == was
      requires op.data != [] ==> op.to - base + |op.data| <= |was| && now == Overlay(was, op.to - base, op.data)
      ensures Holds(now, base, h + [op])
    {
    }

    // vFlashDone: program the window, leave the CPU halted at reset.
    method DoDone() returns (reply: Reply)
      requires Valid() && (history != [] ==> Hull(history).hi <= FLASH_SIZE)
      modifies this, chip, chip.flash
      ensures Valid() && history == [] && reply == Ok
      ensures chip.flash[..] == Committed(old(history), old(chip.flash[..]))
      ensures chip.cpu.sram == old(chip.cpu.sram)
      ensures old(history) != [] ==> !chip.nvmProg && chip.bpOn == [false, false]
    {
      if buf == null {
        return Ok;
      }
      hide Hull, At, Proper, Overlay, Committed, Holds;
      var ok := Commit();
      Abort();
      chip.EnterDebug();
      return Ok;
    }

    method Commit() returns (ok: bool)
      requires Valid() && buf != null && Hull(history).hi <= FLASH_SIZE
      modifies chip, chip.flash
      ensures chip.Valid() && ok
      ensures chip.flash[..] == Committed(history, old(chip.flash[..]))
      ensures chip.cpu.sram == old(chip.cpu.sram)
    {
      hide Hull, At, Proper, Overlay, Committed;
      HullAligned(history);
      BaseIsPage(base);
      WindowCommitted(chip.flash[..], buf[..], base, history);
      ok := chip.WriteFlash(FLASH_BASE + base, buf[..]);
    }

    static lemma BaseIsPage(base: nat)
      ensures (FLASH_BASE + base) % PAGE == base % PAGE
    {
    }

    static lemma WindowCommitted(f: seq<Byte>, b: seq<Byte>, base: nat, h: seq<Op>)
      requires h != [] && Holds(b, base, h) && Hull(h).hi <= |f|
      ensures Overlay(f, base, b) == Committed(h, f)
    {
      hide Hull, At;
    }

    // A handler that patches flash on its own.
    method PatchAll(own: seq<Patch>)
      requires Valid() && Fitting(own, FLASH_SIZE)
      modifies chip, chip.flash
      ensures Valid() && chip.flash[..] == Patched(old(chip.flash[..]), own)
    {
      hide Overlay, Hull, At, Proper, Holds;
      for k := 0 to |own|
        invariant Valid() && chip.flash[..] == Patched(old(chip.flash[..]), own[..k])
      {
        assert own[..k + 1][..k] == own[..k];
        chip.FlashPatch(FLASH_BASE + own[k].at, own[k].data);
      }
      assert own[..|own|] == own;
    }

    // One packet.
    method Handle(p: Packet) returns (reply: Reply)
      requires Valid() && WellTyped(p)
      requires p.Done? && history != [] ==> Hull(history).hi <= FLASH_SIZE
      modifies this, buf, chip, chip.flash
      ensures Valid()
      ensures Server(history, chip.flash[..]) == Serve(Server(old(history), old(chip.flash[..])), p)
      ensures p.Access? && old(history) != [] ==> reply == E22
    {
      hide Hull, At, Proper, Committed, Holds, Unescape, EraseOk, WriteOk, Patched;
      match p
      case Erase(addr, len) => reply := DoErase(addr, len);
      case BadErase => reply := E22;
      case Write(to, body) => reply := DoWrite(to, body);
      case BadWrite =>
        Abort();
        reply := E22;
      case Done => reply := DoDone();
      case Access(own) =>
        if buf != null {
          Abort();
          return E22;
        }
        PatchAll(own);
        reply := Handled;
      case Other(own) =>
        PatchAll(own);
        reply := Handled;
    }
  }

  // ----- Whole sessions -----

  datatype Server = Server(history: seq<Op>, flash: seq<Byte>)

  // One packet, seen from outside.
  function Serve(s: Server, p: Packet): (r: Server)
    requires |s.flash| == FLASH_SIZE && WellTyped(p)
    ensures |r.flash| == FLASH_SIZE
  {
    Server(Next(s.history, p),
           match p
           case Done => Committed(s.history, s.flash)
           case Access(own) => if s.history == [] then Patched(s.flash, own) else s.flash
           case Other(own) => Patched(s.flash, own)
           case _ => s.flash)
  }

  predicate AllTyped(ps: seq<Packet>) { forall k :: 0 <= k < |ps| ==> WellTyped(ps[k]) }

  function Run(s: Server, ps: seq<Packet>): (r: Server)
    requires |s.flash| == FLASH_SIZE && AllTyped(ps)
    ensures |r.flash| == FLASH_SIZE
    decreases |ps|
  {
    if ps == [] then s else Run(Serve(s, ps[0]), ps[1..])
  }

  // The packets of the transaction leave flash alone until vFlashDone, and so does a target access that
  // breaks into one, whatever its own handler would have written.
  lemma TransactionLeavesFlash(s: Server, p: Packet)
    requires |s.flash| == FLASH_SIZE && WellTyped(p)
    requires p.Erase? || p.BadErase? || p.Write? || p.BadWrite? || (p.Access? && s.history != [])
    ensures Serve(s, p).flash == s.flash
  {
  }

  // What the other packets write on their own, the vFlash packets of the run left out.
  function Direct(f: seq<Byte>, ps: seq<Packet>): (r: seq<Byte>)
    requires |f| == FLASH_SIZE && AllTyped(ps)
    ensures |r| == FLASH_SIZE
    decreases |ps|
  {
    if ps == [] then f
    else Direct(if ps[0].Access? || ps[0].Other? then Patched(f, ps[0].own) else f, ps[1..])
  }

  // A rejected write, or a target access inside a transaction, ends it.
  predicate Drops(h: seq<Op>, p: Packet) {
    p.BadWrite? || (p.Write? && !WriteOk(h, p.to, p.body)) || (p.Access? && h != [])
  }

  // No byte of a dropped transaction reaches flash: until the next accepted erase the run writes what
  // the other packets write on their own, and vFlashDone changes nothing.
  lemma {:induction false} DroppedForGood(s: Server, p: Packet, ps: seq<Packet>)
    requires |s.flash| == FLASH_SIZE && WellTyped(p) && AllTyped(ps) && Drops(s.history, p)
    requires forall k :: 0 <= k < |ps| && ps[k].Erase? ==> !EraseOk(ps[k].addr, ps[k].len)
    ensures AllTyped([p] + ps) && Run(s, [p] + ps) == Server([], Direct(s.flash, ps))
  {
    hide EraseOk, WriteOk, Patched, Committed, WellTyped;
    assert ([p] + ps)[1..] == ps;
    TransactionLeavesFlash(s, p);
    IdleRun(s.flash, ps);
  }

  lemma {:induction false} IdleRun(f: seq<Byte>, ps: seq<Packet>)
    requires |f| == FLASH_SIZE && AllTyped(ps)
    requires forall k :: 0 <= k < |ps| && ps[k].Erase? ==> !EraseOk(ps[k].addr, ps[k].len)
    ensures Run(Server([], f), ps) == Server([], Direct(f, ps))
    decreases |ps|
  {
    hide EraseOk, Patched, WellTyped;
    if ps != [] {
      IdleRun(Serve(Server([], f), ps[0]).flash, ps[1..]);
    }
  }

  // The packets that download a history: its erases and its writes with any escaping, and between them
  // packets that do not look at the transaction or were refused without ending it.
  predicate Downloads(ps: seq<Packet>, h: seq<Op>)
    decreases |ps|
  {
    if ps == [] then h == []
    else
      var p, before := ps[|ps| - 1], ps[..|ps| - 1];
      match p
      case Erase(a, n) =>
        if EraseOk(a, n) then h != [] && h[|h| - 1] == Erased(a, n) && Downloads(before, h[..|h| - 1])
        else Downloads(before, h)
      case BadErase => Downloads(before, h)
      case Write(to, body) =>
        && h != [] && Downloads(before, h[..|h| - 1]) && !InDataSpace(to)
        && Unescape(body).Some? && h[|h| - 1] == Written(to, Unescape(body).value)
      case Other(_) => Downloads(before, h)
      case _ => false
  }

  // A download from idle followed by vFlashDone leaves the window holding the writes over 0xFF, and
  // the rest of flash as the other packets left it.
  lemma {:induction false} DownloadCommits(f: seq<Byte>, ps: seq<Packet>, h: seq<Op>)
    requires |f| == FLASH_SIZE && AllTyped(ps) && Proper(h) && Downloads(ps, h)
    ensures AllTyped(ps + [Done]) && Run(Server([], f), ps + [Done]) == Server([], Committed(h, Direct(f, ps)))
  {
    hide Downloads, Proper, WellTyped;
    AllAccepted(f, ps, h);
    DoneTyped(ps);
    RunAppend(Server([], f), ps, Done);
  }

  lemma DoneTyped(ps: seq<Packet>)
    requires AllTyped(ps)
    ensures WellTyped(Done) && AllTyped(ps + [Done])
  {
  }

  lemma ServeAccepted(s: Server, p: Packet)
    requires |s.flash| == FLASH_SIZE && WellTyped(p) && !p.Done? && !p.Access?
    ensures Serve(s, p) == Server(Next(s.history, p), if p.Other? then Patched(s.flash, p.own) else s.flash)
  {
    hide Next, Patched, WellTyped;
  }

  lemma {:induction false} AllAccepted(f: seq<Byte>, ps: seq<Packet>, h: seq<Op>)
    requires |f| == FLASH_SIZE && AllTyped(ps) && Proper(h) && Downloads(ps, h)
    ensures Run(Server([], f), ps) == Server(h, Direct(f, ps))
    decreases |ps|
  {
    if ps != [] {
      hide Proper, Next, Downloads, WellTyped, Patched, Run, Direct, Serve, Committed;
      var n := |ps| - 1;
      var p, before := ps[n], ps[..n];
      var was := DownloadStep(ps, h);
      AllAccepted(f, before, was);
      RunAppend(Server([], f), before, p);
      DirectAppend(f, before, p);
      ServeAccepted(Server(was, Direct(f, before)), p);
      assert before + [p] == ps;
    }
  }

  // The last packet of a download takes the history it had before to the one it has now.
  lemma DownloadStep(ps: seq<Packet>, h: seq<Op>) returns (was: seq<Op>)
    requires ps != [] && Proper(h) && Downloads(ps, h)
    ensures var p := ps[|ps| - 1];
            && Proper(was) && Downloads(ps[..|ps| - 1], was)
            && Next(was, p) == h && !p.Done? && !p.Access?
  {
    var p := ps[|ps| - 1];
    if p.Write? || (p.Erase? && EraseOk(p.addr, p.len)) {
      was := h[..|h| - 1];
      hide Hull, EraseOk, InDataSpace, Unescape;
      assert was + [h[|h| - 1]] == h;
    } else {
      was := h;
    }
  }

  lemma {:induction false} DirectAppend(f: seq<Byte>, ps: seq<Packet>, p: Packet)
    requires |f| == FLASH_SIZE && AllTyped(ps) && WellTyped(p)
    ensures AllTyped(ps + [p])
    ensures Direct(f, ps + [p])
            == if p.Access? || p.Other? then Patched(Direct(f, ps), p.own) else Direct(f, ps)
    decreases |ps|
  {
    hide Patched;
    if ps == [] {
      assert [p][1..] == [];
    } else {
      assert (ps + [p])[1..] == ps[1..] + [p];
      DirectAppend(if ps[0].Access? || ps[0].Other? then Patched(f, ps[0].own) else f, ps[1..], p);
    }
  }

  lemma {:induction false} RunAppend(s: Server, ps: seq<Packet>, p: Packet)
    requires |s.flash| == FLASH_SIZE && AllTyped(ps) && WellTyped(p)
    ensures AllTyped(ps + [p]) && Run(s, ps + [p]) == Serve(Run(s, ps), p)
    decreases |ps|
  {
    hide Next, Committed, Patched, WellTyped;
    if ps == [] {
      assert [p][1..] == [];
    } else {
      assert (ps + [p])[1..] == ps[1..] + [p];
      RunAppend(Serve(s, ps[0]), ps[1..], p);
    }
  }
}
