/** Escaping a string for a JSON reply and decoding a string token (src/dap.c, dj_escape and dj_strcpy). */
module JsonStrings {
  import opened Options
  import opened Bytes
  import opened JsonTokens
  import opened JsonGrammar

  // ----- Escaping -----

  function EscapeChar(c: char): (s: string)
    ensures s != ""
  {
    if c == '"' then "\\\""
    else if c == '\\' then "\\\\"
    else if c == '\n' then "\\n"
    else if c == '\r' then "\\r"
    else if c == '\t' then "\\t"
    else if c as int == 8 then "\\b"
    else if c as int == 12 then "\\f"
    else if c < ' ' then ['\\', 'u', '0', '0', HexDigit(c as int / 16), HexDigit(c as int % 16)]
    else [c]
  }

  // The seven short escapes, the control characters, and all others as they are.
  lemma EscapeIs(c: char)
    ensures EscapeChar('"') == "\\\"" && EscapeChar('\\') == "\\\\" && EscapeChar('\n') == "\\n"
    ensures EscapeChar('\r') == "\\r" && EscapeChar('\t') == "\\t"
    ensures EscapeChar(8 as char) == "\\b" && EscapeChar(12 as char) == "\\f"
    ensures EscapeChar(1 as char) == "\\u0001" && EscapeChar(31 as char) == "\\u001f"
    ensures c >= ' ' && c != '"' && c != '\\' ==> EscapeChar(c) == [c]
  {
  }

  function Escape(s: string): string {
    if s == "" then "" else EscapeChar(s[0]) + Escape(s[1..])
  }

  lemma {:induction false} EscapeAppend(s: string, c: char)
    ensures Escape(s + [c]) == Escape(s) + EscapeChar(c)
  {
    if s == "" {
      assert (s + [c])[1..] == "";
    } else {
      assert (s + [c])[1..] == s[1..] + [c];
      EscapeAppend(s[1..], c);
    }
  }

  // The output is the escape of the longest prefix of s that fits with its terminator: a short buffer
  // cuts between characters, never inside an escape sequence.
  method EscapeInto(s: string, buf: array<char>) returns (o: nat, ghost k: nat)
    modifies buf
    ensures buf.Length == 0 ==> o == 0
    ensures buf.Length > 0 ==>
      o < buf.Length && k <= |s| && buf[..o] == Escape(s[..k]) && buf[o] == '\0' &&
      (k < |s| ==> |Escape(s[..k + 1])| + 1 > buf.Length)
  {
    hide Escape, EscapeChar;
    o, k := 0, 0;
    if buf.Length == 0 {
      return;
    }
    EscapeNone(s[..0]);
    var i := 0;
    while i < |s|
      invariant 0 <= i <= |s| && o < buf.Length && buf[..o] == Escape(s[..i])
    {
      var seg := EscapeChar(s[i]);
      EscapeNext(s, i);
      if o + |seg| + 1 > buf.Length {
        break;
      }
      PutSegment(buf, o, seg);
      o := o + |seg|;
      i := i + 1;
    }
    buf[o] := '\0';
    k := i;
  }

  lemma EscapeNone(s: string)
    requires s == ""
    ensures Escape(s) == ""
  {
  }

  lemma EscapeNext(s: string, i: nat)
    requires i < |s|
    ensures Escape(s[..i + 1]) == Escape(s[..i]) + EscapeChar(s[i])
  {
    EscapeAppend(s[..i], s[i]);
    assert s[..i] + [s[i]] == s[..i + 1];
  }

  method PutSegment(buf: array<char>, o: nat, seg: string)
    requires o + |seg| <= buf.Length
    modifies buf
    ensures buf[..o + |seg|] == old(buf[..o]) + seg
  {
    for j := 0 to |seg|
      invariant buf[..o + j] == old(buf[..o]) + seg[..j]
    {
      buf[o + j] := seg[j];
    }
    assert seg[..|seg|] == seg;
  }

  // ----- Decoding -----

  // A character that is no hexadecimal digit counts as 0.
  function Nibble(h: char): nat { if HexValue(h) < 0 then 0 else HexValue(h) }

  function Unicode(s: string): char
    requires |s| == 4
  {
    var v := 4096 * Nibble(s[0]) + 256 * Nibble(s[1]) + 16 * Nibble(s[2]) + Nibble(s[3]);
    if v < 0x80 then v as char else '?'
  }

  function Unescape(x: char): char {
    match x
    case 'n' => '\n'
    case 't' => '\t'
    case 'r' => '\r'
    case 'b' => 8 as char
    case 'f' => 12 as char
    case _ => x
  }

  // The first decoded character and how much raw text it takes.
  function First(raw: string): (r: (char, nat))
    requires raw != ""
    ensures 0 < r.1 <= |raw|
  {
    if raw[0] != '\\' || |raw| == 1 then (raw[0], 1)
    else if raw[1] != 'u' then (Unescape(raw[1]), 2)
    else if |raw| >= 6 then (Unicode(raw[2..6]), 6)
    else ('?', 2)
  }

  function Decode(raw: string): string {
    if raw == "" then "" else [First(raw).0] + Decode(raw[First(raw).1..])
  }

  // A four-digit escape, with digits of either case, is an ASCII character or a question mark.
  lemma UnicodeIs(h: string, rest: string)
    requires |h| == 4 && forall i :: 0 <= i < 4 ==> HexValue(h[i]) >= 0
    ensures var v := 0x1000 * HexValue(h[0]) + 0x100 * HexValue(h[1]) + 0x10 * HexValue(h[2]) + HexValue(h[3]);
            Decode("\\u" + h + rest) == [if v < 0x80 then v as char else '?'] + Decode(rest)
  {
    var raw := "\\u" + h + rest;
    assert raw[2..6] == h && raw[6..] == rest;
  }

  // Two characters stand for one.
  lemma PairIs(x: char, rest: string)
    requires x != 'u'
    ensures Decode("\\" + [x] + rest) == [Meant(x)] + Decode(rest)
  {
    var raw := "\\" + [x] + rest;
    assert raw[2..] == rest;
  }

  // The five letters of section 7 of RFC 8259; anything else stands for itself.
  function Meant(x: char): char {
    var i := if x == 'b' then 8 else if x == 't' then 9 else if x == 'n' then 10 else if x == 'f' then 12
             else if x == 'r' then 13 else x as int;
    i as char
  }

  // Escapes that are cut short, and digits that are none.
  lemma BrokenEscapesExample()
    ensures Decode("\\") == "\\" && Decode("\\u12") == "?12" && Decode("\\u00g1") == [1 as char]
  {
    assert "\\u12"[2..] == "12" && "12"[1..] == "2" && "2"[1..] == "";
    assert "\\u00g1"[2..6] == "00g1" && "\\u00g1"[6..] == "";
    assert First("\\u00g1") == (1 as char, 6);
    assert Decode("2") == "2" && Decode("12") == "12";
    assert "\\"[1..] == "";
  }

  lemma SubSlice(js: string, a: nat, b: nat, c: nat, d: nat)
    requires a <= b <= |js| && c <= d <= b - a
    ensures js[a..b][c..d] == js[a + c..a + d]
  {
    var s, t := js[a..b][c..d], js[a + c..a + d];
    forall i | 0 <= i < d - c
      ensures s[i] == t[i]
    {
    }
    assert s == t;
  }

  method NextChar(js: string, at: nat, end: nat) returns (c: char, i: nat)
    requires at < end <= |js|
    ensures at < i <= end && (c, i - at) == First(js[at..end])
  {
    c, i := js[at], at + 1;
    if c == '\\' && i < end {
      var x := js[i];
      i := i + 1;
      if x != 'u' {
        c := Unescape(x);
      } else if i + 4 <= end {
        SubSlice(js, at, end, 2, 6);
        c := Unicode(js[i..i + 4]);
        i := i + 4;
      } else {
        c := '?';
      }
    }
  }

  // The decoded text, as much of it as fits with its terminator.
  method DecodeInto(js: string, start: nat, end: nat, buf: array<char>) returns (o: nat)
    requires start <= end <= |js|
    modifies buf
    ensures buf.Length == 0 ==> o == 0
    ensures buf.Length > 0 ==>
      var text := Decode(js[start..end]);
      o == (if |text| < buf.Length then |text| else buf.Length - 1) && buf[..o] == text[..o] && buf[o] == '\0'
  {
    hide First;
    o := 0;
    if buf.Length == 0 {
      return;
    }
    ghost var text := Decode(js[start..end]);
    var i := start;
    while i < end && o + 1 < buf.Length
      invariant start <= i <= end && o < buf.Length && o <= |text| && buf[..o] == text[..o]
      invariant Decode(js[i..end]) == text[o..]
    {
      var c, next := NextChar(js, i, end);
      SubSlice(js, i, end, next - i, end - i);
      assert Decode(js[i..end]) == [c] + Decode(js[next..end]);
      buf[o] := c;
      i := next;
      o := o + 1;
    }
    buf[o] := '\0';
  }

  // ----- Escape, scan and decode undo each other -----

  lemma FirstOfEscape(c: char, rest: string)
    ensures First(EscapeChar(c) + rest) == (c, |EscapeChar(c)|)
  {
  }

  lemma {:induction false} DecodeEscape(s: string)
    ensures Decode(Escape(s)) == s
  {
    if s != "" {
      FirstOfEscape(s[0], Escape(s[1..]));
      assert Escape(s)[|EscapeChar(s[0])|..] == Escape(s[1..]);
      DecodeEscape(s[1..]);
    }
  }

  lemma {:induction false} EscapeIsBody(s: string)
    ensures RfcBody(Escape(s))
  {
    if s != "" {
      var e := EscapeChar(s[0]);
      EscapeIsBody(s[1..]);
      assert Escape(s)[|e|..] == Escape(s[1..]);
    }
  }

  lemma QuotedInner(e: string, rest: string)
    ensures var js := Quoted(e) + rest;
      |Quoted(e)| == |e| + 2 && At(js, 0, Quoted(e)) && js[0] == '"' && js[1..1 + |e|] == e
  {
  }

  // Quoting the escape of any string gives a text that tokenizes to one string spanning exactly the
  // escape, and decoding that span gives the string back.
  lemma QuoteScanDecode(s: string, rest: string)
    ensures var js := Quoted(Escape(s)) + rest;
      var n := |Escape(s)|;
      ValueAt(js, 0) == Some(Parsed(Leaf(DjString, 1, 1 + n), n + 2)) && Decode(js[1..1 + n]) == s
  {
    hide Quoted, Escape, Decode, LaxBody, RfcBody, StringAt, At;
    var e := Escape(s);
    EscapeIsBody(s);
    RfcBodyIsLax(e);
    QuotedInner(e, rest);
    QuotedRead(Quoted(e) + rest, 0, e);
    DecodeEscape(s);
  }
}
