/** The Base64 pair of the DAP memory requests (src/dap.c), section 4 of RFC 4648. */
module Base64 {
  import opened Bytes

  const UPPER: string := "ABCDEFGHIJKLMNOPQRSTUVWXYZ"
  const LOWER: string := "abcdefghijklmnopqrstuvwxyz"
  const OTHER: string := "0123456789+/"

  const ALPHABET: string := UPPER + LOWER + OTHER

  function Symbol(v: nat): char
    requires v < 64
  {
    ALPHABET[v]
  }

  function ValueOf(c: char): int {
    if 'A' <= c <= 'Z' then c as int - 'A' as int
    else if 'a' <= c <= 'z' then c as int - 'a' as int + 26
    else if '0' <= c <= '9' then c as int - '0' as int + 52
    else if c == '+' then 62
    else if c == '/' then 63
    else -1
  }

  // The two tables agree.
  lemma ValueOfSymbol(v: nat)
    requires v < 64
    ensures ValueOf(Symbol(v)) == v && Symbol(v) != '=' && Symbol(v) != '\0'
  {
    if v < 26 {
      Uppers(v);
    } else if v < 52 {
      Lowers(v - 26);
    } else {
      assert ALPHABET[v] == OTHER[v - 52];
      Others(v - 52);
    }
  }

  // The alphabet of table 1 of RFC 4648.
  lemma SymbolIs(v: nat)
    requires v < 64
    ensures v < 26 ==> Symbol(v) as int == 'A' as int + v
    ensures 26 <= v < 52 ==> Symbol(v) as int == 'a' as int + (v - 26)
    ensures 52 <= v < 62 ==> Symbol(v) as int == '0' as int + (v - 52)
    ensures Symbol(62) == '+' && Symbol(63) == '/'
  {
    hide Symbol;
    ValueOfSymbol(v);
    ValueOfSymbol(62);
    ValueOfSymbol(63);
  }

  lemma Uppers(v: nat)
    requires v < 26
    ensures UPPER[v] == ('A' as int + v) as char
  {
  }

  lemma Others(v: nat)
    requires v < 12
    ensures v < 10 ==> OTHER[v] == ('0' as int + v) as char
    ensures OTHER[10] == '+' && OTHER[11] == '/'
  {
  }

  lemma Lowers(v: nat)
    requires v < 26
    ensures LOWER[v] == ('a' as int + v) as char
  {
  }

  // ----- Encoding -----

  // The symbols of one to three bytes.
  function Quad(g: seq<Byte>): (q: string)
    requires 1 <= |g| <= 3
    ensures |q| == 4
  {
    var b: nat := if |g| > 1 then g[1] else 0;
    var c: nat := if |g| > 2 then g[2] else 0;
    var v: nat := 0x1_0000 * g[0] + 0x100 * b + c;
    [ Symbol(v / 0x4_0000 % 64), Symbol(v / 0x1000 % 64),
      if |g| > 1 then Symbol(v / 0x40 % 64) else '=',
      if |g| > 2 then Symbol(v % 64) else '=' ]
  }

  // Three bytes are one number of 24 bits, written as four digits to the base 64; a group of one or two bytes
  // stands for one with zeros behind it, whose last digits are not written.
  lemma QuadIsNumber(g: seq<Byte>)
    requires 1 <= |g| <= 3
    ensures var b: nat, c: nat := if |g| > 1 then g[1] else 0, if |g| > 2 then g[2] else 0;
            var q := Quad(g);
            && (q[2] == '=' <==> |g| == 1) && (q[3] == '=' <==> |g| < 3)
            && 0x4_0000 * ValueOf(q[0]) + 0x1000 * ValueOf(q[1])
               + 0x40 * (if |g| == 1 then 0 else ValueOf(q[2])) + (if |g| < 3 then 0 else ValueOf(q[3]))
               == 0x1_0000 * g[0] + 0x100 * b + c
  {
    hide Symbol, ValueOf;
    var b: Byte, c: Byte := if |g| > 1 then g[1] else 0, if |g| > 2 then g[2] else 0;
    QuadSplits(g[0], b, c);
    ValueOfSymbol(g[0] / 4);
    ValueOfSymbol(g[0] % 4 * 16 + b / 16);
    ValueOfSymbol(b % 16 * 4 + c / 64);
    ValueOfSymbol(c % 64);
  }

  // The text of the first k groups.
  function Groups(s: seq<Byte>, k: nat): (t: string)
    requires k == 0 || 3 * (k - 1) < |s|
    ensures |t| == 4 * k
  {
    if k == 0 then ""
    else Groups(s, k - 1) + Quad(s[3 * (k - 1)..if 3 * k <= |s| then 3 * k else |s|])
  }

  function GroupCount(n: nat): nat { (n + 2) / 3 }

  function Encoded(s: seq<Byte>): string { Groups(s, GroupCount(|s|)) }

  // As many whole groups as leave room for a terminator.
  function Room(n: nat, cap: nat): nat {
    var fit := if cap == 0 then 0 else (cap - 1) / 4;
    if fit < GroupCount(n) then fit else GroupCount(n)
  }

  method Encode(input: seq<Byte>, cap: nat) returns (out: string)
    ensures out == Groups(input, Room(|input|, cap))
    ensures cap > 4 * GroupCount(|input|) ==> out == Encoded(input)
    ensures (out == "" || |out| + 1 <= cap) && (out != Encoded(input) ==> |out| + 5 > cap)
  {
    hide Quad, Groups, GroupCount, Room;
    out := "";
    var i: nat := 0;
    ghost var k: nat := 0;
    NoGroups(input);
    while i < |input|
      invariant i == 3 * k && (k > 0 ==> 3 * (k - 1) < |input|)
      invariant out == Groups(input, k) && (k == 0 || 4 * k < cap)
    {
      var c := Quad(input[i..if i + 3 <= |input| then i + 3 else |input|]);
      if |out| + 4 >= cap {
        break;
      }
      NextGroup(input, k);
      out := out + c;
      i := i + 3;
      k := k + 1;
    }
    RoomIs(|input|, cap, k);
  }

  lemma NoGroups(s: seq<Byte>)
    ensures Groups(s, 0) == ""
  {
  }

  lemma NextGroup(s: seq<Byte>, k: nat)
    requires 3 * k < |s|
    ensures Groups(s, k + 1) == Groups(s, k) + Quad(s[3 * k..if 3 * k + 3 <= |s| then 3 * k + 3 else |s|])
  {
    hide Quad;
  }

  // Where the loop ends: at the last group, or when the next one does not fit.
  lemma RoomIs(n: nat, cap: nat, k: nat)
    requires (k > 0 ==> 3 * (k - 1) < n && 4 * k < cap) && (n <= 3 * k || 4 * k + 4 >= cap)
    ensures k == Room(n, cap) && (cap > 4 * GroupCount(n) ==> k == GroupCount(n))
    ensures k != GroupCount(n) ==> 4 * k + 4 >= cap
  {
  }

  // ----- Decoding -----

  function Triple(q: seq<nat>): (b: seq<Byte>)
    requires |q| == 4 && forall i :: 0 <= i < 4 ==> q[i] < 64
    ensures |b| == 3
  {
    [q[0] * 4 + q[1] / 16, q[1] % 16 * 16 + q[2] / 4, q[2] % 4 * 64 + q[3]]
  }

  type Sextets = q: seq<nat> | |q| < 4 && forall i :: 0 <= i < |q| ==> q[i] < 64

  // The bytes of an unfinished group.
  function Rest(q: Sextets): (b: seq<Byte>) {
    if |q| < 2 then []
    else [q[0] * 4 + q[1] / 16] + if |q| < 3 then [] else [q[1] % 16 * 16 + q[2] / 4]
  }

  // What a text stands for when q has been read of a group: the text ends at '=' or NUL, other
  // characters outside the alphabet do not count.
  function Decoded(s: string, q: Sextets): seq<Byte>
    decreases |s|
  {
    if s == "" || s[0] == '\0' || s[0] == '=' then Rest(q)
    else
      var v := ValueOf(s[0]);
      if v < 0 then Decoded(s[1..], q)
      else if |q| == 3 then Triple(q + [v]) + Decoded(s[1..], [])
      else Decoded(s[1..], q + [v])
  }

  // The symbols of a text before its first '=' or NUL.
  function Symbols(s: string): string {
    if s == "" || s[0] == '=' || s[0] == '\0' then ""
    else (if IsSymbol(s[0]) then [s[0]] else "") + Symbols(s[1..])
  }

  predicate IsSymbol(c: char) {
    'A' <= c <= 'Z' || 'a' <= c <= 'z' || '0' <= c <= '9' || c == '+' || c == '/'
  }

  // Nothing else matters.
  lemma {:induction false} OthersSkipped(s: string, q: Sextets)
    ensures Decoded(s, q) == Decoded(Symbols(s), q)
    decreases |s|
  {
    hide Triple, Rest;
    if s != "" && s[0] != '=' && s[0] != '\0' {
      var v, rest := ValueOf(s[0]), Symbols(s[1..]);
      if !IsSymbol(s[0]) {
        assert "" + rest == rest;
        OthersSkipped(s[1..], q);
      } else {
        assert ([s[0]] + rest)[1..] == rest;
        OthersSkipped(s[1..], if |q| == 3 then [] else q + [v]);
      }
    }
  }

  function Prefix(s: seq<Byte>, n: nat): seq<Byte> { if n <= |s| then s[..n] else s }

  // Whatever does not fit the output is dropped.
  method Decode(s: string, cap: nat) returns (out: seq<Byte>)
    ensures out == Prefix(Decoded(s, []), cap)
  {
    hide Triple, Decoded, Rest, ValueOf;
    out := [];
    var q: Sextets := [];
    ghost var all: seq<Byte> := [];
    var p: nat := 0;
    assert s[0..] == s && [] + Decoded(s, []) == Decoded(s, []);
    while p < |s| && s[p] != '\0' && s[p] != '='
      invariant p <= |s| && Decoded(s, []) == all + Decoded(s[p..], q) && out == Prefix(all, cap)
    {
      DecodeStep(s, p, q, all);
      var v := ValueOf(s[p]);
      if v >= 0 {
        if |q| == 3 {
          var b := Triple(q + [v]);
          PutPrefix(all, b, cap);
          out := Put(out, b, cap);
          all := all + b;
          q := [];
        } else {
          q := q + [v];
        }
      }
      p := p + 1;
    }
    DecodeEnd(s, p, q);
    PutPrefix(all, Rest(q), cap);
    out := Put(out, Rest(q), cap);
  }

  lemma DecodeStep(s: string, p: nat, q: Sextets, all: seq<Byte>)
    requires p < |s| && s[p] != '\0' && s[p] != '='
    ensures var v := ValueOf(s[p]);
            && v < 64
            && all + Decoded(s[p..], q)
               == if v < 0 then all + Decoded(s[p + 1..], q)
                  else if |q| == 3 then all + Triple(q + [v]) + Decoded(s[p + 1..], [])
                  else all + Decoded(s[p + 1..], q + [v])
  {
  }

  lemma DecodeEnd(s: string, p: nat, q: Sextets)
    requires p <= |s| && (p < |s| ==> s[p] == '\0' || s[p] == '=')
    ensures Decoded(s[p..], q) == Rest(q)
  {
  }

  // Triple are stored while there is room.
  method Put(out: seq<Byte>, b: seq<Byte>, cap: nat) returns (r: seq<Byte>)
    requires |out| <= cap
    ensures r == Prefix(out + b, cap)
  {
    r := out;
    for i := 0 to |b|
      invariant r == Prefix(out + b[..i], cap)
    {
      if |r| < cap {
        r := r + [b[i]];
      }
    }
    assert b[..|b|] == b;
  }

  lemma PutPrefix(all: seq<Byte>, b: seq<Byte>, cap: nat)
    ensures Prefix(Prefix(all, cap) + b, cap) == Prefix(all + b, cap)
  {
  }

  // ----- Decoding undoes encoding -----

  lemma QuadSplits(a: Byte, b: Byte, c: Byte)
    ensures var v: nat := 0x1_0000 * a + 0x100 * b + c;
            && v / 0x4_0000 % 64 == a / 4
            && v / 0x1000 % 64 == a % 4 * 16 + b / 16
            && v / 0x40 % 64 == b % 16 * 4 + c / 64
            && v % 64 == c % 64
  {
    var v: nat := 0x1_0000 * a + 0x100 * b + c;
    var h, l := a / 4, a % 4;
    assert v == 0x4_0000 * h + (0x1_0000 * l + 0x100 * b + c);
    SplitsHigh(h, l, b, c);
    SplitsLow(a, b, c);
  }

  lemma SplitsHigh(h: nat, l: nat, b: Byte, c: Byte)
    requires h < 64 && l < 4
    ensures var v: nat := 0x4_0000 * h + 0x1_0000 * l + 0x100 * b + c;
            v / 0x4_0000 % 64 == h && v / 0x1000 % 64 == l * 16 + b / 16
  {
    var v: nat := 0x4_0000 * h + 0x1_0000 * l + 0x100 * b + c;
    assert v / 0x4_0000 == h;
    assert v / 0x1000 == 64 * h + (l * 16 + b / 16);
  }

  lemma SplitsLow(a: Byte, b: Byte, c: Byte)
    ensures var v: nat := 0x1_0000 * a + 0x100 * b + c;
            v / 0x40 % 64 == b % 16 * 4 + c / 64 && v % 64 == c % 64
  {
    var m, r := c / 64, c % 64;
    Sextet(0x400 * a + 4 * b + m, r);
    Sextet(16 * a + b / 16, b % 16 * 4 + m);
    assert 0x1_0000 * a + 0x100 * b + c == 64 * (0x400 * a + 4 * b + m) + r;
    assert 0x400 * a + 4 * b + m == 64 * (16 * a + b / 16) + (b % 16 * 4 + m);
  }

  lemma Sextet(q: nat, r: nat)
    requires r < 64
    ensures (64 * q + r) / 0x40 == q && (64 * q + r) % 64 == r
  {
  }

  // Four symbols are read as their sextets.
  lemma FourRead(a: nat, b: nat, c: nat, d: nat, rest: string)
    requires a < 64 && b < 64 && c < 64 && d < 64
    ensures Decoded([Symbol(a), Symbol(b), Symbol(c), Symbol(d)] + rest, [])
            == Triple([a, b, c, d]) + Decoded(rest, [])
  {
    hide Triple, ValueOf, Symbol, Decoded;
    PairRead(a, b, [Symbol(c), Symbol(d)] + rest, []);
    assert [Symbol(a), Symbol(b), Symbol(c), Symbol(d)] + rest
        == [Symbol(a), Symbol(b)] + ([Symbol(c), Symbol(d)] + rest);
    assert [] + [a, b] == [a, b];
    assert [Symbol(c), Symbol(d)] + rest == [Symbol(c)] + ([Symbol(d)] + rest);
    SymbolRead(c, [Symbol(d)] + rest, [a, b]);
    assert [a, b] + [c] == [a, b, c];
    SymbolRead(d, rest, [a, b, c]);
    assert [a, b, c] + [d] == [a, b, c, d];
  }

  lemma PairRead(a: nat, b: nat, rest: string, q: Sextets)
    requires a < 64 && b < 64 && |q| < 2
    ensures Decoded([Symbol(a), Symbol(b)] + rest, q) == Decoded(rest, q + [a, b])
  {
    hide Triple, ValueOf, Symbol, Decoded;
    assert [Symbol(a), Symbol(b)] + rest == [Symbol(a)] + ([Symbol(b)] + rest);
    SymbolRead(a, [Symbol(b)] + rest, q);
    SymbolRead(b, rest, q + [a]);
    assert q + [a] + [b] == q + [a, b];
  }

  lemma SymbolRead(v: nat, rest: string, q: Sextets)
    requires v < 64
    ensures Decoded([Symbol(v)] + rest, q)
            == if |q| == 3 then Triple(q + [v]) + Decoded(rest, []) else Decoded(rest, q + [v])
  {
    hide Triple, ValueOf, Symbol;
    ValueOfSymbol(v);
    assert ([Symbol(v)] + rest)[1..] == rest;
  }

  lemma QuadOfThree(g: seq<Byte>)
    requires |g| == 3
    ensures Quad(g) == [Symbol(g[0] / 4), Symbol(g[0] % 4 * 16 + g[1] / 16),
                        Symbol(g[1] % 16 * 4 + g[2] / 64), Symbol(g[2] % 64)]
  {
    hide Symbol;
    QuadSplits(g[0], g[1], g[2]);
  }

  lemma BytesRejoin(x: Byte, y: Byte, z: Byte)
    ensures Triple([x / 4, x % 4 * 16 + y / 16, y % 16 * 4 + z / 64, z % 64]) == [x, y, z]
  {
    Halves(x % 4, y / 16, 16);
    Halves(y % 16, z / 64, 4);
  }

  lemma Halves(a: nat, b: nat, n: nat)
    requires (n == 16 || n == 4) && b < n
    ensures (a * n + b) / n == a && (a * n + b) % n == b
  {
  }

  lemma FullQuad(g: seq<Byte>, rest: string)
    requires |g| == 3
    ensures Decoded(Quad(g) + rest, []) == g + Decoded(rest, [])
  {
    hide Decoded, Symbol, Quad, Triple;
    QuadOfThree(g);
    BytesRejoin(g[0], g[1], g[2]);
    FourRead(g[0] / 4, g[0] % 4 * 16 + g[1] / 16, g[1] % 16 * 4 + g[2] / 64, g[2] % 64, rest);
    assert [g[0], g[1], g[2]] == g;
  }

  // The last group may be one or two bytes and padding, at which reading stops.
  lemma LastQuad(g: seq<Byte>)
    requires 1 <= |g| <= 2
    ensures Decoded(Quad(g), []) == g
  {
    hide Decoded, Symbol, Quad, Rest;
    QuadOfFew(g);
    if |g| == 1 {
      TwoRead(g[0] / 4, g[0] % 4 * 16, "==");
    } else {
      ThreeRead(g[0] / 4, g[0] % 4 * 16 + g[1] / 16, g[1] % 16 * 4, "=");
    }
  }

  lemma QuadOfFew(g: seq<Byte>)
    requires 1 <= |g| <= 2
    ensures |g| == 1 ==>
              Quad(g) == [Symbol(g[0] / 4), Symbol(g[0] % 4 * 16)] + "==" && Rest([g[0] / 4, g[0] % 4 * 16]) == g
    ensures |g| == 2 ==>
              var q := [g[0] / 4, g[0] % 4 * 16 + g[1] / 16, g[1] % 16 * 4];
              Quad(g) == [Symbol(q[0]), Symbol(q[1]), Symbol(q[2])] + "=" && Rest(q) == g
  {
    hide Symbol;
    QuadSplits(g[0], if |g| > 1 then g[1] else 0, 0);
  }

  lemma TwoRead(a: nat, b: nat, pad: string)
    requires a < 64 && b < 64 && pad != "" && pad[0] == '='
    ensures Decoded([Symbol(a), Symbol(b)] + pad, []) == Rest([a, b])
  {
    hide Triple, ValueOf, Symbol, Decoded;
    PairRead(a, b, pad, []);
    assert [] + [a, b] == [a, b];
    PaddingRead(pad, [a, b]);
  }

  lemma ThreeRead(a: nat, b: nat, c: nat, pad: string)
    requires a < 64 && b < 64 && c < 64 && pad != "" && pad[0] == '='
    ensures Decoded([Symbol(a), Symbol(b), Symbol(c)] + pad, []) == Rest([a, b, c])
  {
    hide Triple, ValueOf, Symbol, Decoded;
    assert [Symbol(a), Symbol(b), Symbol(c)] + pad == [Symbol(a), Symbol(b)] + ([Symbol(c)] + pad);
    PairRead(a, b, [Symbol(c)] + pad, []);
    assert [] + [a, b] == [a, b];
    SymbolRead(c, pad, [a, b]);
    assert [a, b] + [c] == [a, b, c];
    PaddingRead(pad, [a, b, c]);
  }

  lemma PaddingRead(s: string, q: Sextets)
    requires s != "" && s[0] == '='
    ensures Decoded(s, q) == Rest(q)
  {
  }

  // The first k groups decode to the bytes they stand for.
  lemma {:induction false} GroupsDecode(s: seq<Byte>, k: nat, rest: string)
    requires 3 * k <= |s|
    ensures Decoded(Groups(s, k) + rest, []) == s[..3 * k] + Decoded(rest, [])
    decreases k
  {
    hide Decoded, Quad;
    if k == 0 {
      assert Groups(s, 0) + rest == rest;
    } else {
      var g := s[3 * (k - 1)..3 * k];
      assert Groups(s, k) + rest == Groups(s, k - 1) + (Quad(g) + rest);
      GroupsDecode(s, k - 1, Quad(g) + rest);
      FullQuad(g, rest);
      assert s[..3 * (k - 1)] + g == s[..3 * k];
    }
  }

  // Decoding what Encode wrote gives the input back, or, when the text buffer was too short for
  // all of it, a prefix of whole groups; and of either what fits the byte buffer.
  lemma DecodeEncode(s: seq<Byte>, cap: nat)
    ensures var k := Room(|s|, cap);
            && Decoded(Groups(s, k), []) == Prefix(s, 3 * k)
            && (cap > 4 * GroupCount(|s|) ==> Decoded(Groups(s, k), []) == s)
            && (cap <= 4 * GroupCount(|s|) && s != [] ==> |Decoded(Groups(s, k), [])| == 3 * k < |s|)
  {
    hide Decoded, Groups;
    var k := Room(|s|, cap);
    if 3 * k <= |s| {
      WholeGroups(s, k);
    } else {
      ShortGroup(s, k);
    }
  }

  lemma WholeGroups(s: seq<Byte>, k: nat)
    requires 3 * k <= |s|
    ensures Decoded(Groups(s, k), []) == s[..3 * k]
  {
    hide Decoded, Groups;
    GroupsDecode(s, k, "");
    assert Groups(s, k) + "" == Groups(s, k);
    NothingRead();
  }

  lemma ShortGroup(s: seq<Byte>, k: nat)
    requires 3 * (k - 1) < |s| < 3 * k
    ensures Decoded(Groups(s, k), []) == s
  {
    hide Decoded, Quad;
    var n := 3 * (k - 1);
    GroupsDecode(s, k - 1, Quad(s[n..]));
    LastQuad(s[n..]);
    assert s[n..|s|] == s[n..];
    assert s[..n] + s[n..] == s;
  }

  lemma NothingRead()
    ensures Decoded("", []) == []
  {
  }
}
