/** Decimal numerals: printf("%zu"), Python's {n:0wd}, strtol and int(). */
module Decimal {
  function Digit(d: nat): char
    requires d < 10
  {
    '0' + d as char
  }

  predicate IsDigit(c: char) { '0' <= c <= '9' }

  predicate Digits(s: string) { forall i :: 0 <= i < |s| ==> IsDigit(s[i]) }

  predicate Numeral(s: string) { s != "" && Digits(s) }

  function Show(n: nat): (s: string) {
    if n < 10 then [Digit(n)] else Show(n / 10) + [Digit(n % 10)]
  }

  // The number a string of digits denotes.
  function Value(s: string): nat
    requires Digits(s)
  {
    if s == "" then 0
    else
      var front := s[..|s| - 1];
      assert Digits(front);
      10 * Value(front) + (s[|s| - 1] as int - '0' as int)
  }

  lemma {:induction false} ValueShow(n: nat)
    ensures Show(n) != "" && Digits(Show(n)) && Value(Show(n)) == n
  {
    if n >= 10 {
      ValueShow(n / 10);
      var s := Show(n);
      assert s[..|s| - 1] == Show(n / 10);
    }
  }

  // Most significant digit first, without leading zeros unless asked for.
  lemma DecimalExample()
    ensures Show(0) == "0" && Show(305) == "305" && Padded(7, 3) == "007" && Padded(305, 2) == "305"
  {
    assert Show(30) == "30" && Show(305) == Show(30) + ['5'];
    assert Zeros(2) == "00";
  }

  function Zeros(k: nat): (s: string)
    ensures |s| == k && Digits(s)
  {
    seq(k, _ => '0')
  }

  // n printed with at least width digits.
  function Padded(n: nat, width: nat): string {
    var s := Show(n);
    if |s| >= width then s else Zeros(width - |s|) + s
  }

  lemma {:induction false} ValueZeros(k: nat, s: string)
    requires Digits(s)
    ensures Digits(Zeros(k) + s) && Value(Zeros(k) + s) == Value(s)
    decreases |s|, k
  {
    var t := Zeros(k) + s;
    if s != "" {
      ValueZeros(k, s[..|s| - 1]);
      assert t[..|t| - 1] == Zeros(k) + s[..|s| - 1];
    } else if k > 0 {
      ValueZeros(k - 1, "");
      assert t[..|t| - 1] == Zeros(k - 1) + "";
    }
  }

  // Zero-padded printing loses nothing, whatever the widths.
  lemma PaddedDenotes(n: nat, width: nat)
    ensures Padded(n, width) != "" && Digits(Padded(n, width)) && Value(Padded(n, width)) == n
  {
    ValueShow(n);
    if |Show(n)| < width {
      ValueZeros(width - |Show(n)|, Show(n));
    }
  }

  lemma PaddedLength(n: nat, width: nat)
    ensures |Padded(n, width)| >= width
  {
  }

  lemma PaddedInjective(m: nat, n: nat, w: nat, v: nat)
    requires Padded(m, w) == Padded(n, v)
    ensures m == n
  {
    PaddedDenotes(m, w);
    PaddedDenotes(n, v);
  }

  function Pow10(k: nat): nat { if k == 0 then 1 else 10 * Pow10(k - 1) }

  lemma {:induction false} ShowLength(n: nat, k: nat)
    requires 0 < k && n < Pow10(k)
    ensures |Show(n)| <= k
  {
    if n >= 10 {
      ShowLength(n / 10, k - 1);
    }
  }

  lemma {:induction false} ShowGrows(m: nat, n: nat)
    requires m <= n
    ensures |Show(m)| <= |Show(n)|
    decreases n
  {
    if m >= 10 {
      ShowGrows(m / 10, n / 10);
    }
  }

  // Two widths that print a number alike print every larger number alike.
  lemma PaddedMerges(m: nat, n: nat, w: nat, v: nat)
    requires m <= n && Padded(m, w) == Padded(m, v)
    ensures Padded(n, w) == Padded(n, v)
  {
    hide Show;
    ShowGrows(m, n);
  }
}
