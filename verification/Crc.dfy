/** CRC-32 page summary (src/updi.c, updi_crc32), against long division of polynomials over GF(2). */
module Crc {
  import opened Bytes

  type Word = n: nat | n < 0x1_0000_0000

  // The generator without its leading term, bit-reversed.
  const POLY: Word := 0xEDB8_8320

  // ----- The register arithmetic of the program -----

  // Bitwise exclusive or.
  function Xor(a: nat, b: nat): nat {
    if a == 0 && b == 0 then 0 else (a % 2 + b % 2) % 2 + 2 * Xor(a / 2, b / 2)
  }

  method Compute(buf: array<Byte>) returns (r: Word)
    ensures IsCrc(buf[..], r)
  {
    hide Run, Register, Xor, CoefsN, MessageBits, Complement;
    var crc: Word := 0xFFFF_FFFF;
    AllOnes();
    var i := 0;
    while i < buf.Length
      invariant 0 <= i <= buf.Length
      invariant Register(crc) == Run(Ones(), MessageBits(buf[..i]))
    {
      ghost var before := crc;
      FeedByte(crc, buf[i]);
      crc := Xor(crc, buf[i]);
      var b := 0;
      while b < 8
        invariant 0 <= b <= 8
        invariant Run(Register(crc), Zeros(8 - b)) == Run(Register(before), BitsOf(buf[i]))
      {
        // The mask of the source is all ones exactly when the low bit is set.
        var mask := if crc % 2 == 1 then POLY else 0;
        Turn(crc, 8 - b);
        crc := Xor(crc / 2, mask);
        b := b + 1;
      }
      RunNothing(Register(crc));
      RunByte(buf[..i], buf[i]);
      assert buf[..i + 1] == buf[..i] + [buf[i]];
      i := i + 1;
    }
    r := 0xFFFF_FFFF - crc;
    assert buf[..i] == buf[..];
    NotCrc(crc);
  }

  // ----- Polynomials over GF(2) -----

  // Coefficients, highest power first: the order in which bits are transmitted.
  type Poly = seq<bool>

  function Zeros(n: nat): (z: Poly)
    ensures |z| == n && forall i :: 0 <= i < n ==> !z[i]
  {
    seq(n, _ => false)
  }

  function Plus(p: Poly, q: Poly): (r: Poly)
    requires |p| == |q|
    ensures |r| == |p| && forall i :: 0 <= i < |r| ==> r[i] == (p[i] != q[i])
  {
    seq(|p|, i requires 0 <= i < |p| => p[i] != q[i])
  }

  function Complement(p: Poly): (r: Poly)
    ensures |r| == |p| && forall i :: 0 <= i < |r| ==> r[i] == !p[i]
  {
    seq(|p|, i requires 0 <= i < |p| => !p[i])
  }

  function Ones(): Poly { Complement(Zeros(32)) }

  // The generator of section 3.2.9 of IEEE 802.3, by its powers.
  predicate HasPower(k: nat) {
    k in {32, 26, 23, 22, 16, 12, 11, 10, 8, 7, 5, 4, 2, 1, 0}
  }

  function Generator(): (g: Poly)
    ensures |g| == 33
  {
    seq(33, i requires 0 <= i < 33 => HasPower(32 - i))
  }

  // The copy of the generator that cancels a leading coefficient above k - 1 others.
  function Lead(b: bool, k: nat): (p: Poly)
    requires k > 0
    ensures |p| == k + 32 && p[0] == b
  {
    if b then Generator() + Zeros(k - 1) else Zeros(k + 32)
  }

  // q(x) * G(x), by the school method: one shifted copy of the generator per set coefficient.
  function TimesGenerator(q: Poly): (r: Poly)
    ensures |r| == |q| + 32
  {
    if q == [] then Zeros(32) else Plus(Lead(q[0], |q|), [false] + TimesGenerator(q[1..]))
  }

  lemma PlusAssociates(p: Poly, q: Poly, r: Poly)
    requires |p| == |q| == |r|
    ensures Plus(p, Plus(q, r)) == Plus(Plus(p, q), r)
  {
  }

  lemma PlusTail(p: Poly, q: Poly)
    requires |p| == |q| > 0
    ensures Plus(p, q) == [p[0] != q[0]] + Plus(p[1..], q[1..])
  {
  }

  // r has degree below 32 and differs from p by the multiple q * G.
  ghost predicate Divides(p: Poly, q: Poly, r: Poly) {
    |p| == |q| + 32 && |r| == 32 && Plus(p, TimesGenerator(q)) == Zeros(|q|) + r
  }

  // ----- Words and messages as polynomials -----

  // The n low bits of a word, bit 0 first.  For the register, bit 0 holds the coefficient of x^31.
  function CoefsN(c: nat, n: nat): (p: Poly)
    ensures |p| == n
  {
    if n == 0 then [] else [c % 2 == 1] + CoefsN(c / 2, n - 1)
  }

  function Register(c: Word): (p: Poly)
    ensures |p| == 32
  {
    CoefsN(c, 32)
  }

  function BitsOf(b: Byte): Poly { CoefsN(b, 8) }

  // Least significant bit of each byte first.
  function MessageBits(s: seq<Byte>): (p: Poly)
    ensures |p| == 8 * |s|
  {
    if s == [] then [] else BitsOf(s[0]) + MessageBits(s[1..])
  }

  lemma {:induction false} MessageBitsAppend(s: seq<Byte>, b: Byte)
    ensures MessageBits(s + [b]) == MessageBits(s) + BitsOf(b)
  {
    if s == [] {
      assert MessageBits([b]) == BitsOf(b) + MessageBits([]);
    } else {
      assert (s + [b])[1..] == s[1..] + [b];
      MessageBitsAppend(s[1..], b);
    }
  }

  // ----- The register as a divider -----

  function Front(m: Poly): (p: Poly)
    requires |m| <= 32
    ensures |p| == 32
  {
    m + Zeros(32 - |m|)
  }

  function ShiftP(r: Poly): (p: Poly)
    requires |r| == 32
    ensures |p| == 32
  {
    Plus(r[1..] + [false], if r[0] then Generator()[1..] else Zeros(32))
  }

  // r is the complemented register after all of s, started from all ones.
  predicate IsCrc(s: seq<Byte>, r: Word) {
    Complement(Register(r)) == Run(Ones(), MessageBits(s))
  }

  // The register after the message bits m have been fed to it one at a time.
  function Run(r: Poly, m: Poly): (p: Poly)
    requires |r| == 32
    ensures |p| == 32
    decreases |m|
  {
    if m == [] then r else Run(ShiftP(Plus(r, Front(m[..1]))), m[1..])
  }

  lemma {:induction false} RunAppend(r: Poly, m: Poly, n: Poly)
    requires |r| == 32
    ensures Run(r, m + n) == Run(Run(r, m), n)
    decreases |m|
  {
    if m == [] {
      assert m + n == n;
    } else {
      assert (m + n)[..1] == m[..1] && (m + n)[1..] == m[1..] + n;
      RunAppend(ShiftP(Plus(r, Front(m[..1]))), m[1..], n);
    }
  }

  // Up to 32 message bits may be added to the register before it shifts.
  lemma {:induction false} AbsorbAhead(r: Poly, m: Poly)
    requires |r| == 32 && |m| <= 32
    ensures Run(r, m) == Run(Plus(r, Front(m)), Zeros(|m|))
    decreases |m|
  {
    if m == [] {
      assert Plus(r, Front(m)) == r;
    } else {
      hide Run, ShiftP, Plus, Front, Zeros;
      var n := m[1..];
      var x := Plus(r, Front(m[..1]));
      var y := Plus(r, Front(m));
      RunStep(r, m);
      AddLater(r, m);
      AbsorbAhead(ShiftP(x), n);
      RunZero(y, |m|);
      ShiftLater(x, y, n);
    }
  }

  lemma RunStep(r: Poly, m: Poly)
    requires |r| == 32 && m != []
    ensures Run(r, m) == Run(ShiftP(Plus(r, Front(m[..1]))), m[1..])
  {
  }

  lemma AddLater(r: Poly, m: Poly)
    requires |r| == 32 && 0 < |m| <= 32
    ensures Plus(r, Front(m)) == Plus(Plus(r, Front(m[..1])), Front([false] + m[1..]))
  {
    var l, x := Plus(r, Front(m)), Plus(Plus(r, Front(m[..1])), Front([false] + m[1..]));
    forall i | 0 <= i < 32
      ensures l[i] == x[i]
    {
    }
  }

  lemma ShiftLater(x: Poly, y: Poly, n: Poly)
    requires |x| == |y| == 32 && |n| < 32
    requires y == Plus(x, Front([false] + n))
    ensures ShiftP(y) == Plus(ShiftP(x), Front(n))
  {
  }

  // What is left to divide when the register r meets the message bits m.
  function Window(r: Poly, m: Poly): (p: Poly)
    requires |r| == 32
    ensures |p| == |m| + 32
  {
    Plus(r + Zeros(|m|), m + Zeros(32))
  }

  // Feeding a message is long division by the generator.
  lemma {:induction false} RunDivides(r: Poly, m: Poly) returns (q: Poly)
    requires |r| == 32
    ensures Divides(Window(r, m), q, Run(r, m))
    decreases |m|
  {
    if m == [] {
      q := [];
    } else {
      var x := Plus(r, Front(m[..1]));
      var q' := RunDivides(ShiftP(x), m[1..]);
      q := [x[0]] + q';
      WindowStep(r, m);
      DividesCons(Window(r, m), x[0], q', Run(r, m));
    }
  }

  lemma WindowStep(r: Poly, m: Poly)
    requires |r| == 32 && m != []
    ensures var x := Plus(r, Front(m[..1]));
      Plus(Window(r, m), Lead(x[0], |m|)) == [false] + Window(ShiftP(x), m[1..])
  {
    var x := Plus(r, Front(m[..1]));
    var l, w := Plus(Window(r, m), Lead(x[0], |m|)), [false] + Window(ShiftP(x), m[1..]);
    assert |l| == |w| == |m| + 32;
    assert l[0] == w[0];
    forall i | 1 <= i < |l|
      ensures l[i] == w[i]
    {
    }
  }

  lemma TimesCons(p: Poly, b: bool, q: Poly)
    requires |p| == |q| + 33
    ensures Plus(p, TimesGenerator([b] + q)) ==
      [p[0] != b] + Plus(Plus(p, Lead(b, |q| + 1))[1..], TimesGenerator(q))
  {
    var t := TimesGenerator(q);
    var p' := Plus(p, Lead(b, |q| + 1));
    assert ([b] + q)[1..] == q;
    PlusAssociates(p, Lead(b, |q| + 1), [false] + t);
    PlusTail(p', [false] + t);
    assert ([false] + t)[1..] == t;
  }

  // Once the leading coefficient is cancelled, the rest divides on its own.
  lemma DividesCons(p: Poly, b: bool, q: Poly, r: Poly)
    requires |p| == |q| + 33 && |r| == 32
    ensures Divides(p, [b] + q, r) <==> p[0] == b && Divides(Plus(p, Lead(b, |q| + 1))[1..], q, r)
  {
    hide Plus, Lead, TimesGenerator;
    TimesCons(p, b, q);
    assert Zeros(|q| + 1) + r == [false] + (Zeros(|q|) + r);
    HeadAndTail(p[0] != b, Plus(Plus(p, Lead(b, |q| + 1))[1..], TimesGenerator(q)), false, Zeros(|q|) + r);
  }

  lemma HeadAndTail(a: bool, p: Poly, b: bool, q: Poly)
    ensures [a] + p == [b] + q <==> a == b && p == q
  {
    assert ([a] + p)[0] == a && ([a] + p)[1..] == p;
    assert ([b] + q)[0] == b && ([b] + q)[1..] == q;
  }

  // The CRC is the complement of the remainder of the message, its first 32 bits complemented,
  // times x^32 (section 3.2.9 of IEEE 802.3).
  lemma CrcIsRemainder(s: seq<Byte>, r: Word) returns (q: Poly)
    requires IsCrc(s, r)
    ensures var m := MessageBits(s) + Zeros(32);
      Divides(Complement(m[..32]) + m[32..], q, Complement(Register(r)))
  {
    hide Divides, Run, Register, MessageBits, Window, Complement;
    q := RunDivides(Ones(), MessageBits(s));
    WindowOfOnes(MessageBits(s));
  }

  lemma WindowOfOnes(bits: Poly)
    ensures var m := bits + Zeros(32); Complement(m[..32]) + m[32..] == Window(Ones(), bits)
  {
    var m := bits + Zeros(32);
    var l, r := Complement(m[..32]) + m[32..], Window(Ones(), bits);
    assert |l| == |r|;
    forall i | 0 <= i < |l|
      ensures l[i] == r[i]
    {
    }
  }

  // Division by the generator has one quotient and one remainder only.
  lemma {:induction false} RemainderUnique(p: Poly, q: Poly, r: Poly, q': Poly, r': Poly)
    requires Divides(p, q, r) && Divides(p, q', r')
    ensures q == q' && r == r'
    decreases |q|
  {
    if q == [] {
      assert Plus(p, Zeros(32)) == p;
      assert Zeros(0) + r == r && Zeros(0) + r' == r';
    } else {
      assert q == [q[0]] + q[1..] && q' == [q'[0]] + q'[1..];
      DividesCons(p, q[0], q[1..], r);
      DividesCons(p, q'[0], q'[1..], r');
      RemainderUnique(Plus(p, Lead(q[0], |q|))[1..], q[1..], r, q'[1..], r');
    }
  }

  // ----- Error detection -----

  lemma ShiftInjective(x: Poly, y: Poly)
    requires |x| == |y| == 32 && ShiftP(x) == ShiftP(y)
    ensures x == y
  {
    assert Generator()[32];
    assert ShiftP(x)[31] == x[0] && ShiftP(y)[31] == y[0];
    forall i | 1 <= i < 32
      ensures x[i] == y[i]
    {
      assert ShiftP(x)[i - 1] == ShiftP(y)[i - 1];
    }
  }

  lemma {:induction false} RunInjective(x: Poly, y: Poly, m: Poly)
    requires |x| == |y| == 32 && Run(x, m) == Run(y, m)
    ensures x == y
    decreases |m|
  {
    if m != [] {
      var f := Front(m[..1]);
      RunInjective(ShiftP(Plus(x, f)), ShiftP(Plus(y, f)), m[1..]);
      ShiftInjective(Plus(x, f), Plus(y, f));
      PlusCancels(x, y, f);
    }
  }

  lemma PlusCancels(x: Poly, y: Poly, f: Poly)
    requires |x| == |y| == |f| && Plus(x, f) == Plus(y, f)
    ensures x == y
  {
  }

  lemma FrontInjective(x: Poly, m: Poly, n: Poly)
    requires |x| == 32 && |m| == |n| <= 32 && Run(x, m) == Run(x, n)
    ensures m == n
  {
    AbsorbAhead(x, m);
    AbsorbAhead(x, n);
    RunInjective(Plus(x, Front(m)), Plus(x, Front(n)), Zeros(|m|));
    forall i | 0 <= i < |m|
      ensures m[i] == n[i]
    {
      assert Plus(x, Front(m))[i] == Plus(x, Front(n))[i];
    }
  }

  // Two messages that differ only inside a window of 32 bits leave different registers.
  lemma BurstSeen(r: Poly, a: Poly, m: Poly, n: Poly, b: Poly)
    requires |r| == 32 && |m| == |n| <= 32 && m != n
    ensures Run(r, a + m + b) != Run(r, a + n + b)
  {
    var x := Run(r, a);
    RunAppend(r, a, m);
    RunAppend(r, a, n);
    RunAppend(r, a + m, b);
    RunAppend(r, a + n, b);
    if Run(r, a + m + b) == Run(r, a + n + b) {
      RunInjective(Run(x, m), Run(x, n), b);
      FrontInjective(x, m, n);
      assert false;
    }
  }

  // Two buffers that differ only inside one window of at most four bytes never share a CRC.
  lemma BurstDetected(a: seq<Byte>, m: seq<Byte>, n: seq<Byte>, b: seq<Byte>, r: Word, r': Word)
    requires |m| == |n| <= 4 && m != n
    requires IsCrc(a + m + b, r) && IsCrc(a + n + b, r')
    ensures r != r'
  {
    MessageBitsConcat(a + m, b);
    MessageBitsConcat(a, m);
    MessageBitsConcat(a + n, b);
    MessageBitsConcat(a, n);
    if MessageBits(m) == MessageBits(n) {
      MessageBitsInjective(m, n);
      assert false;
    }
    BurstSeen(Ones(), MessageBits(a), MessageBits(m), MessageBits(n), MessageBits(b));
  }

  lemma {:induction false} MessageBitsConcat(s: seq<Byte>, t: seq<Byte>)
    ensures MessageBits(s + t) == MessageBits(s) + MessageBits(t)
  {
    if s == [] {
      assert s + t == t;
    } else {
      assert (s + t)[1..] == s[1..] + t;
      MessageBitsConcat(s[1..], t);
    }
  }

  lemma {:induction false} MessageBitsInjective(s: seq<Byte>, t: seq<Byte>)
    requires |s| == |t| && MessageBits(s) == MessageBits(t)
    ensures s == t
  {
    if s != [] {
      assert BitsOf(s[0]) == MessageBits(s)[..8] == MessageBits(t)[..8] == BitsOf(t[0]);
      assert MessageBits(s[1..]) == MessageBits(s)[8..] == MessageBits(t)[8..] == MessageBits(t[1..]);
      CoefsInjective(s[0], t[0], 8);
      MessageBitsInjective(s[1..], t[1..]);
    }
  }

  // ----- Words -----

  lemma {:induction false} CoefsInjective(c: nat, d: nat, n: nat)
    requires c < Pow2(n) && d < Pow2(n) && CoefsN(c, n) == CoefsN(d, n)
    ensures c == d
  {
    if n > 0 {
      assert CoefsN(c, n)[0] == CoefsN(d, n)[0];
      assert CoefsN(c, n)[1..] == CoefsN(d, n)[1..];
      CoefsInjective(c / 2, d / 2, n - 1);
    }
  }

  lemma {:induction false} CoefsAbove(c: nat, n: nat, k: nat)
    requires c < Pow2(n)
    ensures CoefsN(c, n + k) == CoefsN(c, n) + Zeros(k)
  {
    if n > 0 {
      CoefsAbove(c / 2, n - 1, k);
    } else if k > 0 {
      CoefsAbove(0, 0, k - 1);
    }
  }

  lemma {:induction false} CoefsLast(c: nat, n: nat)
    requires c < Pow2(n) && n > 0
    ensures CoefsN(c / 2, n) == CoefsN(c, n)[1..] + [false]
  {
    CoefsAbove(c, n, 1);
    assert Zeros(1) == [false];
    assert CoefsN(c, n + 1)[1..] == CoefsN(c / 2, n);
  }

  lemma {:induction false} CoefsXor(a: nat, b: nat, n: nat)
    ensures CoefsN(Xor(a, b), n) == Plus(CoefsN(a, n), CoefsN(b, n))
  {
    if n > 0 {
      hide Xor;
      CoefsXor(a / 2, b / 2, n - 1);
      XorStep(a, b);
    }
  }

  lemma XorStep(a: nat, b: nat)
    ensures Xor(a, b) / 2 == Xor(a / 2, b / 2) && Xor(a, b) % 2 == (a % 2 + b % 2) % 2
  {
  }

  lemma {:induction false} XorFits(a: nat, b: nat, n: nat)
    requires a < Pow2(n) && b < Pow2(n)
    ensures Xor(a, b) < Pow2(n)
  {
    if n > 0 {
      XorFits(a / 2, b / 2, n - 1);
    }
  }

  lemma {:induction false} NotIsComplement(c: nat, n: nat)
    requires c < Pow2(n)
    ensures CoefsN(Pow2(n) - 1 - c, n) == Complement(CoefsN(c, n))
  {
    if n > 0 {
      NotIsComplement(c / 2, n - 1);
      assert (Pow2(n) - 1 - c) / 2 == Pow2(n - 1) - 1 - c / 2;
    }
  }

  lemma Pow2By8(n: nat)
    ensures Pow2(n + 8) == 0x100 * Pow2(n)
  {
    assert Pow2(n + 4) == 2 * Pow2(n + 3) == 4 * Pow2(n + 2) == 8 * Pow2(n + 1);
    assert Pow2(n + 8) == 2 * Pow2(n + 7) == 4 * Pow2(n + 6) == 8 * Pow2(n + 5);
  }

  lemma WordWidth()
    ensures Pow2(8) == 0x100 && Pow2(32) == 0x1_0000_0000
  {
    Pow2By8(0);
    Pow2By8(8);
    Pow2By8(16);
    Pow2By8(24);
  }

  lemma AllOnes()
    ensures Register(0xFFFF_FFFF) == Ones() == Run(Ones(), MessageBits([]))
  {
    hide CoefsN, Complement, Run;
    OnesRegister(0xFFFF_FFFF);
    NothingFed(Ones());
  }

  lemma OnesRegister(c: Word)
    requires c == 0xFFFF_FFFF
    ensures Register(c) == Ones()
  {
    WordWidth();
    ZeroCoefs();
    NotIsComplement(0, 32);
  }

  lemma ZeroCoefs()
    ensures CoefsN(0, 32) == Zeros(32)
  {
    CoefsAbove(0, 0, 32);
  }

  lemma NothingFed(r: Poly)
    requires |r| == 32
    ensures Run(r, MessageBits([])) == r
  {
  }

  lemma CoefsPair(c: nat, n: nat)
    ensures CoefsN(c, n + 2) == [c % 2 == 1, c / 2 % 2 == 1] + CoefsN(c / 4, n)
  {
  }

  lemma CoefsNibble(c: nat, n: nat)
    ensures CoefsN(c, n + 4) == [c % 2 == 1, c / 2 % 2 == 1, c / 4 % 2 == 1, c / 8 % 2 == 1] + CoefsN(c / 16, n)
  {
    hide CoefsN;
    CoefsPair(c, n + 2);
    CoefsPair(c / 4, n);
    assert c / 4 / 2 == c / 8 && c / 4 / 4 == c / 16;
  }

  lemma XorByte(c: Word, b: Byte)
    ensures Xor(c, b) < 0x1_0000_0000
    ensures Register(Xor(c, b)) == Plus(Register(c), Front(BitsOf(b)))
  {
    WordWidth();
    XorFits(c, b, 32);
    CoefsXor(c, b, 32);
    CoefsAbove(b, 8, 24);
  }

  lemma NibbleMatches(c: nat, g: Poly, k: nat)
    requires k + 4 <= |g| && CoefsN(c / 16, |g| - k - 4) == g[k + 4..]
    requires g[k] == (c % 2 == 1) && g[k + 1] == (c / 2 % 2 == 1)
    requires g[k + 2] == (c / 4 % 2 == 1) && g[k + 3] == (c / 8 % 2 == 1)
    ensures CoefsN(c, |g| - k) == g[k..]
  {
    CoefsNibble(c, |g| - k - 4);
    hide CoefsN;
    assert g[k..] == [g[k], g[k + 1], g[k + 2], g[k + 3]] + g[k + 4..];
  }

  lemma NoCoefs(p: Poly)
    requires p == []
    ensures CoefsN(0, 0) == p
  {
  }

  lemma RegisterIs(c: Word)
    ensures Register(c) == CoefsN(c, 32)
  {
  }

  lemma PolyCoefs()
    ensures Register(POLY) == Generator()[1..]
  {
    var g := Generator();
    PolyHighHalf();
    RegisterIs(POLY);
    hide CoefsN, Register;
    NibbleMatches(0xE_DB88, g, 13);
    NibbleMatches(0xED_B883, g, 9);
    NibbleMatches(0xEDB_8832, g, 5);
    NibbleMatches(0xEDB8_8320, g, 1);
  }

  lemma PolyHighHalf()
    ensures CoefsN(0xEDB8, 16) == Generator()[17..]
  {
    var g := Generator();
    NoCoefs(g[33..]);
    hide CoefsN;
    NibbleMatches(0xE, g, 29);
    NibbleMatches(0xED, g, 25);
    NibbleMatches(0xEDB, g, 21);
    NibbleMatches(0xEDB8, g, 17);
  }

  lemma NotCrc(c: Word)
    ensures Complement(Register(0xFFFF_FFFF - c)) == Register(c)
  {
    WordWidth();
    NotIsComplement(c, 32);
  }

  lemma RunZero(r: Poly, n: nat)
    requires |r| == 32 && n > 0
    ensures Run(r, Zeros(n)) == Run(ShiftP(r), Zeros(n - 1))
  {
    assert Plus(r, Front(Zeros(n)[..1])) == r;
    assert Zeros(n)[1..] == Zeros(n - 1);
  }

  lemma FeedByte(c: Word, b: Byte)
    ensures Xor(c, b) < 0x1_0000_0000
    ensures Run(Register(Xor(c, b)), Zeros(8)) == Run(Register(c), BitsOf(b))
  {
    XorByte(c, b);
    AbsorbAhead(Register(c), BitsOf(b));
  }

  lemma Turn(c: Word, n: nat)
    requires n > 0
    ensures var d := Xor(c / 2, if c % 2 == 1 then POLY else 0);
      d < 0x1_0000_0000 && Run(Register(c), Zeros(n)) == Run(Register(d), Zeros(n - 1))
  {
    RegisterShift(c);
    RunZero(Register(c), n);
  }

  lemma RunNothing(r: Poly)
    requires |r| == 32
    ensures Run(r, Zeros(0)) == r
  {
  }

  lemma RunByte(s: seq<Byte>, b: Byte)
    ensures Run(Ones(), MessageBits(s + [b])) == Run(Run(Ones(), MessageBits(s)), BitsOf(b))
  {
    MessageBitsAppend(s, b);
    RunAppend(Ones(), MessageBits(s), BitsOf(b));
  }

  lemma RegisterShift(c: Word)
    ensures var d := Xor(c / 2, if c % 2 == 1 then POLY else 0);
      d < 0x1_0000_0000 && Register(d) == ShiftP(Register(c))
  {
    WordWidth();
    assert (c % 2 == 1) == Register(c)[0];
    CoefsLast(c, 32);
    PolyCoefs();
    CoefsAbove(0, 0, 32);
    assert CoefsN(0, 32) == Zeros(32);
    hide CoefsN, Xor, Pow2;
    var m := if c % 2 == 1 then POLY else 0;
    XorFits(c / 2, m, 32);
    CoefsXor(c / 2, m, 32);
  }
}
