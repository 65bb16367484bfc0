/** Bytes, words and hexadecimal digits. */
module Bytes {
  type Byte = n: nat | n < 0x100

  const WORD32: nat := 0x1_0000_0000

  // Bit 23 of a debugger address: data space instead of flash.
  const DATA_FLAG: nat := 0x80_0000

  predicate InDataSpace(addr: nat) { addr / DATA_FLAG % 2 == 1 }

  // The second half of each 16 MiB.
  lemma DataSpaceIsBit23(addr: nat)
    ensures InDataSpace(addr) <==> 0x80_0000 <= addr % 0x100_0000
  {
  }

  function Pow2(n: nat): nat { if n == 0 then 1 else 2 * Pow2(n - 1) }

  // The number whose bytes these are, lowest first.
  function Little(s: seq<Byte>): nat
    decreases |s|
  {
    if s == [] then 0 else s[0] + 0x100 * Little(s[1..])
  }

  lemma LittleIsPositional(a: Byte, b: Byte, c: Byte, d: Byte)
    ensures Little([a, b]) == a + 0x100 * b
    ensures Little([a, b, c, d]) == a + 0x100 * b + 0x1_0000 * c + 0x100_0000 * d
  {
    LittlePair(a, b);
    LittlePair(c, d);
    assert [a, b, c, d][1..] == [b, c, d] && [b, c, d][1..] == [c, d];
    assert Little([b, c, d]) == b + 0x100 * Little([c, d]);
  }

  lemma LittlePair(a: Byte, b: Byte)
    ensures Little([a, b]) == a + 0x100 * b
  {
    assert [a, b][1..] == [b] && [b][1..] == [];
    assert Little([b]) == b;
  }

  // Lower-case digits are written, both cases are read.
  lemma HexDigitsRead(c: char)
    ensures HexDigit(HexValue('0')) == '0' && HexDigit(9) == '9' && HexDigit(10) == 'a' && HexDigit(15) == 'f'
    ensures HexValue('A') == HexValue('a') == 10 && HexValue('F') == HexValue('f') == 15
    ensures HexValue(c) >= 0 <==> '0' <= c <= '9' || 'a' <= c <= 'f' || 'A' <= c <= 'F'
    ensures 'A' <= c <= 'F' ==> HexValue(c) == HexValue((c as int + 0x20) as char)
  {
  }

  function HexDigit(d: nat): (c: char)
    requires d < 0x10
    ensures HexValue(c) == d
  {
    if d < 10 then ('0' as int + d) as char else ('a' as int + d - 10) as char
  }

  // The value of a hexadecimal digit, -1 for any other character.
  function HexValue(c: char): int {
    if '0' <= c <= '9' then c as int - '0' as int
    else if 'a' <= c <= 'f' then c as int - 'a' as int + 10
    else if 'A' <= c <= 'F' then c as int - 'A' as int + 10
    else -1
  }
}
