/** Message framing on byte streams: Content-Length for DAP (src/dap.c), $payload#checksum for RSP (src/gdb_rsp.c). */
module Framing {
  import opened Options
  import opened Bytes
  import opened Decimal

  // Characters stand for bytes.

  const LINE_CAP: nat := 256
  const LONG_MAX: int := 0x7FFF_FFFF_FFFF_FFFF
  const PACKET_BUF: nat := 2056

  // ----- Streams -----

  // What the peer will still deliver, and what has been written so far. How many bytes one call moves
  // is up to the channel; an empty read means end of file.
  class Stream {
    var input: string
    var output: string

    constructor (input: string)
      ensures this.input == input && output == ""
    {
      this.input, output := input, "";
    }

    method Read(n: nat) returns (chunk: string)
      requires n > 0
      modifies this`input
      ensures |chunk| <= n && chunk + input == old(input)
      ensures chunk == "" <==> old(input) == ""
    {
      if input == "" {
        return "";
      }
      var k :| 1 <= k <= n && k <= |input|;
      chunk, input := input[..k], input[k..];
    }

    method Write(s: string) returns (n: nat)
      modifies this`output
      ensures n <= |s| && (s != "" ==> n > 0) && output == old(output) + s[..n]
    {
      if s == "" {
        return 0;
      }
      n :| 1 <= n <= |s|;
      output := output + s[..n];
    }

    // read_full: n bytes, or end of file.
    method ReadFull(n: nat) returns (s: string)
      modifies this`input
      ensures s == Prefix(old(input), n) && input == old(input)[|s|..]
    {
      s := "";
      while |s| < n
        invariant |s| <= n && s + input == old(input)
        decreases n - |s|
      {
        var chunk := Read(n - |s|);
        if chunk == "" {
          return;
        }
        s := s + chunk;
      }
    }

    // write_full and write_all.
    method WriteFull(s: string)
      modifies this`output
      ensures output == old(output) + s
    {
      var put: nat := 0;
      while put < |s|
        invariant put <= |s| && output == old(output) + s[..put]
      {
        var n := Write(s[put..]);
        assert s[..put] + s[put..][..n] == s[..put + n];
        put := put + n;
      }
      assert s[..|s|] == s;
    }

    // One header line without its CR and LF; None at end of file.
    method ReadHeaderLine() returns (line: Option<string>)
      modifies this`input
      ensures (line, input) == HeaderLine(old(input))
    {
      var buf, any := "", false;
      while true
        invariant HeaderLine(old(input)) == LineFrom(input, buf, any)
        decreases |input|
      {
        var c := Read(1);
        if c == "" {
          return if any then Some(buf) else None;
        }
        assert old(input) != "" && c == [c[0]];
        any := true;
        if c[0] == '\n' {
          return Some(buf);
        }
        buf := Kept(buf, c[0]);
      }
    }

    // dap_read_message with a buffer of cap bytes.
    method ReadMessage(cap: nat) returns (r: Got)
      modifies this`input
      ensures (r, input) == Message(old(input), cap)
    {
      var clen: Option<int> := None;
      while true
        invariant Message(old(input), cap) == MessageFrom(input, clen, cap)
        decreases |input|
      {
        LineShorter(input);
        var line := ReadHeaderLine();
        if line == None {
          return Eof;
        }
        if line.value == "" {
          break;
        }
        if IsContentLength(line.value) {
          clen := Some(StrToL(line.value[15..]));
        }
      }
      if clen == None || clen.value < 0 || clen.value >= cap {
        return Bad;
      }
      var body := ReadFull(clen.value);
      return if |body| < clen.value then Eof else Body(body);
    }

    // rsp_recv_packet with a buffer of cap bytes.
    method RecvPacket(cap: nat, noAck: bool) returns (r: Received)
      modifies this
      ensures (r, input) == Packet(old(input), cap)
      ensures output == old(output) + if noAck || !r.complete then "" else if r.rc >= 0 then "+" else "-"
    {
      while true
        invariant Packet(old(input), cap) == Packet(input, cap) && output == old(output)
        decreases |input|
      {
        var c := Read(1);
        if c == "" {
          return Received(0, "", false);
        }
        if c[0] == '$' {
          break;
        }
      }
      var buf, csum: nat := "", 0;
      while true
        invariant Packet(old(input), cap) == Payload(input, buf, csum, cap) && output == old(output)
        decreases |input|
      {
        var c := Read(1);
        if c == "" {
          return Received(0, "", false);
        }
        if c[0] == '#' {
          break;
        }
        if |buf| + 1 >= cap {
          return Received(-1, "", false);
        }
        assert c == [c[0]];
        buf, csum := buf + [c[0]], (csum + c[0] as int) % 0x100;
      }
      r := ReadTrailer(buf, csum);
      if r.complete && !noAck {
        WriteFull(if r.rc >= 0 then "+" else "-");
      }
    }

    method ReadTrailer(buf: string, csum: nat) returns (r: Received)
      modifies this`input
      ensures (r, input) == Trailer(old(input), buf, csum)
    {
      hide HexValue;
      var hi := Read(1);
      if hi == "" {
        return Received(-1, "", false);
      }
      var lo := Read(1);
      if lo == "" {
        return Received(-1, "", false);
      }
      assert old(input) == [hi[0], lo[0]] + input;
      if HexValue(hi[0]) < 0 || HexValue(lo[0]) < 0 {
        return Received(-1, "", false);
      }
      var ok := 0x10 * HexValue(hi[0]) + HexValue(lo[0]) == csum;
      return Received(if ok then |buf| else -1, buf, true);
    }

    // rsp_send_packet: the payload is a C string.
    method SendPacket(payload: string) returns (ok: bool)
      modifies this`output
      ensures ok <==> |CString(payload)| + 4 <= 2056
      ensures output == old(output) + if ok then Enclosed(CString(payload)) else ""
    {
      var p := CString(payload);
      if |p| + 4 > PACKET_BUF {
        return false;
      }
      var csum := 0;
      for i := 0 to |p|
        invariant csum == Checksum(p[..i])
      {
        assert p[..i + 1][..i] == p[..i];
        csum := (csum + p[i] as int) % 0x100;
      }
      assert p[..|p|] == p;
      WriteFull("$" + p + "#" + [HexDigit(csum / 0x10), HexDigit(csum % 0x10)]);
      return true;
    }

    method WriteMessage(body: string)
      modifies this`output
      ensures output == old(output) + Framed(body)
    {
      WriteFull("Content-Length: " + Show(|body|) + "\r\n\r\n");
      WriteFull(body);
    }
  }

  function Prefix(s: string, n: nat): string { if n <= |s| then s[..n] else s }

  // ----- DAP: Content-Length -----

  // A character lands in the line buffer unless it is a CR or the buffer is full.
  function Kept(buf: string, c: char): string {
    if c != '\r' && |buf| + 1 < LINE_CAP then buf + [c] else buf
  }

  function LineFrom(s: string, buf: string, any: bool): (r: (Option<string>, string))
    ensures |r.1| <= |s|
    decreases |s|
  {
    if s == "" then (if any then Some(buf) else None, "")
    else if s[0] == '\n' then (Some(buf), s[1..])
    else LineFrom(s[1..], Kept(buf, s[0]), true)
  }

  function HeaderLine(s: string): (Option<string>, string) { LineFrom(s, "", false) }

  lemma LineShorter(s: string)
    ensures HeaderLine(s).0.Some? ==> |HeaderLine(s).1| < |s|
  {
  }

  function Lower(c: char): char { if 'A' <= c <= 'Z' then (c as int + 32) as char else c }

  predicate IsContentLength(line: string) {
    var name := "content-length:";
    |line| >= 15 && forall i :: 0 <= i < 15 ==> Lower(line[i]) == name[i]
  }

  predicate IsSpace(c: char) { c == ' ' || '\t' <= c <= '\r' }

  function DigitRun(s: string): (n: nat)
    ensures n <= |s| && Digits(s[..n])
    ensures n < |s| ==> !IsDigit(s[n])
    decreases |s|
  {
    if s == "" || !IsDigit(s[0]) then 0
    else
      var n := DigitRun(s[1..]);
      assert s[1..][..n] == s[1..n + 1];
      n + 1
  }

  function Magnitude(s: string): nat { Value(s[..DigitRun(s)]) }

  // strtol in base 10: white space, a sign, digits; values saturate.
  function StrToL(s: string): int
    decreases |s|
  {
    if s == "" then 0
    else if IsSpace(s[0]) then StrToL(s[1..])
    else if s[0] == '-' then
      var m: int := Magnitude(s[1..]);
      if m > LONG_MAX then -LONG_MAX - 1 else -m
    else
      var m := Magnitude(if s[0] == '+' then s[1..] else s);
      if m > LONG_MAX then LONG_MAX else m
  }

  datatype Got = Body(bytes: string) | Eof | Bad

  function MessageFrom(s: string, clen: Option<int>, cap: nat): (Got, string)
    decreases |s|
  {
    LineShorter(s);
    var (line, rest) := HeaderLine(s);
    if line == None then (Eof, rest)
    else if line.value != "" then
      MessageFrom(rest, if IsContentLength(line.value) then Some(StrToL(line.value[15..])) else clen, cap)
    else if clen == None || clen.value < 0 || clen.value >= cap then (Bad, rest)
    else if |rest| < clen.value then (Eof, "")
    else (Body(rest[..clen.value]), rest[clen.value..])
  }

  function Message(s: string, cap: nat): (Got, string) { MessageFrom(s, None, cap) }

  function Framed(body: string): string { "Content-Length: " + Show(|body|) + "\r\n\r\n" + body }

  function FramedAll(bodies: seq<string>): string {
    if bodies == [] then "" else Framed(bodies[0]) + FramedAll(bodies[1..])
  }

  function Bodies(bodies: seq<string>): seq<Got> {
    if bodies == [] then [] else [Body(bodies[0])] + Bodies(bodies[1..])
  }

  // n messages in a row.
  function Messages(s: string, n: nat, cap: nat): (seq<Got>, string)
    decreases n
  {
    if n == 0 then ([], s)
    else
      var (m, rest) := Message(s, cap);
      var (ms, last) := Messages(rest, n - 1, cap);
      ([m] + ms, last)
  }

  // A line of plain characters that fits the buffer is read as it is.
  lemma {:induction false} LineReads(line: string, rest: string, buf: string, any: bool)
    requires forall i :: 0 <= i < |line| ==> line[i] != '\r' && line[i] != '\n'
    requires |buf| + |line| < LINE_CAP
    ensures LineFrom(line + "\r\n" + rest, buf, any) == (Some(buf + line), rest)
    decreases |line|
  {
    var s := line + "\r\n" + rest;
    if line == "" {
      assert s[1..] == "\n" + rest;
      assert s[1..][1..] == rest;
      assert buf + line == buf;
    } else {
      assert s[1..] == line[1..] + "\r\n" + rest;
      LineReads(line[1..], rest, Kept(buf, line[0]), true);
      assert buf + [line[0]] + line[1..] == buf + line;
    }
  }

  function NoCr(s: string): string {
    if s == "" then "" else (if s[0] == '\r' then "" else [s[0]]) + NoCr(s[1..])
  }

  // Whatever a line holds, its CRs are dropped and the first 255 of its other characters kept.
  lemma {:induction false} LineIs(line: string, rest: string, buf: string, any: bool)
    requires '\n' !in line && |buf| < 256
    ensures LineFrom(line + "\n" + rest, buf, any) == (Some(Prefix(buf + NoCr(line), 255)), rest)
    ensures LineFrom(line, buf, any) == (if any || line != "" then Some(Prefix(buf + NoCr(line), 255)) else None, "")
    decreases |line|
  {
    var s := line + "\n" + rest;
    if line == "" {
      assert s[1..] == rest;
      assert buf + NoCr(line) == buf;
    } else {
      assert s[1..] == line[1..] + "\n" + rest;
      LineIs(line[1..], rest, Kept(buf, line[0]), true);
      PrefixKept(buf, line[0], NoCr(line[1..]));
    }
  }

  lemma PrefixKept(buf: string, c: char, rest: string)
    requires |buf| < 256
    ensures Prefix(Kept(buf, c) + rest, 255) == Prefix(buf + ((if c == '\r' then "" else [c]) + rest), 255)
  {
    if c == '\r' {
      assert "" + rest == rest;
    } else {
      assert buf + ([c] + rest) == (buf + [c]) + rest;
    }
  }

  // ----- Numbers in a header -----

  // A number may follow white space and a sign, ends at the first other character, and is limited to 64 bits.
  lemma NumberRead(d: string, rest: string)
    requires Digits(d) && (rest == "" || !IsDigit(rest[0]))
    ensures var v: int := if Value(d) > 0x7FFF_FFFF_FFFF_FFFF then 0x7FFF_FFFF_FFFF_FFFF else Value(d);
            && (d != "" ==> StrToL(d + rest) == v) && StrToL("+" + (d + rest)) == v
            && StrToL("-" + (d + rest)) == if Value(d) > 0x7FFF_FFFF_FFFF_FFFF then -0x8000_0000_0000_0000 else -v
  {
    hide Value, Magnitude, StrToL;
    MagnitudeIs(d, rest);
    SignRead(d + rest);
    if d != "" {
      assert (d + rest)[0] == d[0] && IsDigit(d[0]);
      PlainRead(d + rest);
    }
  }

  lemma SignRead(t: string)
    ensures StrToL("+" + t) == if Magnitude(t) > LONG_MAX then LONG_MAX else Magnitude(t)
    ensures StrToL("-" + t) == if Magnitude(t) > LONG_MAX then -LONG_MAX - 1 else -(Magnitude(t) as int)
  {
    hide Magnitude;
    assert ("+" + t)[1..] == t && ("-" + t)[1..] == t;
  }

  lemma PlainRead(t: string)
    requires t != "" && IsDigit(t[0])
    ensures StrToL(t) == if Magnitude(t) > LONG_MAX then LONG_MAX else Magnitude(t)
  {
    hide Magnitude;
  }

  lemma MagnitudeIs(d: string, rest: string)
    requires Digits(d) && (rest == "" || !IsDigit(rest[0]))
    ensures Magnitude(d + rest) == Value(d)
  {
    hide Value, DigitRun;
    RunOfDigits(d, rest);
    assert (d + rest)[..|d|] == d;
  }

  lemma {:induction false} RunOfDigits(d: string, rest: string)
    requires Digits(d) && (rest == "" || !IsDigit(rest[0]))
    ensures DigitRun(d + rest) == |d|
    decreases |d|
  {
    if d == "" {
      assert d + rest == rest;
    } else {
      assert (d + rest)[1..] == d[1..] + rest;
      RunOfDigits(d[1..], rest);
    }
  }

  // White space is skipped, and what does not begin a number is 0.
  lemma SpaceSkipped(c: char, rest: string)
    ensures c in " \t\n\r" || c as int == 11 || c as int == 12 ==> StrToL([c] + rest) == StrToL(rest)
    ensures !(c in " \t\n\r+-" || c as int == 11 || c as int == 12 || '0' <= c <= '9') ==> StrToL([c] + rest) == 0
    ensures StrToL("") == 0
  {
    assert ([c] + rest)[1..] == rest;
    assert Value("") == 0;
  }

  lemma DigitRunAll(s: string)
    requires Digits(s)
    ensures DigitRun(s) == |s|
  {
  }

  lemma LongDigits()
    ensures Pow10(19) > LONG_MAX
  {
    assert Pow10(2) == 100;
    assert Pow10(4) == 1_0000;
    assert Pow10(6) == 100_0000;
    assert Pow10(8) == 1_0000_0000;
    assert Pow10(10) == 100_0000_0000;
    assert Pow10(12) == 1_0000_0000_0000;
    assert Pow10(14) == 100_0000_0000_0000;
    assert Pow10(16) == 1_0000_0000_0000_0000;
    assert Pow10(18) == 100_0000_0000_0000_0000;
  }

  // The header line of a message announces its length.
  lemma HeaderAnnounces(n: nat)
    requires n <= LONG_MAX
    ensures var line := "Content-Length: " + Show(n);
            && IsContentLength(line) && StrToL(line[15..]) == n
            && |line| < LINE_CAP && forall i :: 0 <= i < |line| ==> line[i] != '\r' && line[i] != '\n'
  {
    hide Show, Value, Pow10;
    var d := Show(n);
    var line := "Content-Length: " + d;
    ValueShow(n);
    LongDigits();
    ShowLength(n, 19);
    Announced(d);
  }

  lemma Announced(d: string)
    requires d != "" && Digits(d) && Value(d) <= LONG_MAX
    ensures IsContentLength("Content-Length: " + d) && StrToL(("Content-Length: " + d)[15..]) == Value(d)
  {
    hide IsContentLength, StrToL, Value;
    var name, line := "Content-Length: ", "Content-Length: " + d;
    Named(name, d);
    assert name[15..] == " ";
    assert line[15..] == " " + d;
    ReadsNumber(d);
  }

  lemma Named(name: string, d: string)
    requires name == "Content-Length: "
    ensures IsContentLength(name + d)
  {
    assert forall i :: 0 <= i < 15 ==> (name + d)[i] == name[i];
  }

  lemma ReadsNumber(d: string)
    requires d != "" && Digits(d) && Value(d) <= LONG_MAX
    ensures StrToL(" " + d) == Value(d)
  {
    hide Value;
    assert (" " + d)[1..] == d;
    DigitRunAll(d);
    assert d[..|d|] == d;
    assert IsDigit(d[0]);
  }

  // A written message is read back, and not a byte beyond it.
  lemma MessageFramed(body: string, rest: string, cap: nat)
    requires |body| < cap <= LONG_MAX
    ensures Message(Framed(body) + rest, cap) == (Body(body), rest)
  {
    hide LineFrom, IsContentLength, StrToL, Show;
    var n := |body|;
    var line := "Content-Length: " + Show(n);
    var mid := "\r\n" + body + rest;
    HeaderAnnounces(n);
    assert Framed(body) + rest == line + "\r\n" + mid;
    LineReads(line, mid, "", false);
    assert "" + line == line;
    assert mid == "" + "\r\n" + (body + rest);
    LineReads("", body + rest, "", false);
    assert MessageFrom(mid, Some(n), cap) == (Body(body), rest) by {
      assert (body + rest)[..n] == body && (body + rest)[n..] == rest;
    }
  }

  // ----- Header blocks -----

  // A header line as a sender writes it.
  predicate IsHeader(line: string) { line != "" && |line| < 256 && '\r' !in line && '\n' !in line }

  function Block(lines: seq<string>): string {
    if lines == [] then "\r\n" else lines[0] + "\r\n" + Block(lines[1..])
  }

  // The name is read in either case, letter by letter, and must be the whole of it.
  lemma ContentLengthNames(line: string)
    ensures IsContentLength(line) <==>
              |line| >= 15 && forall i :: 0 <= i < 15 ==> line[i] in [SMALL[i], LARGE[i]]
  {
    forall i, c: char | 0 <= i < 15
      ensures Lower(c) == SMALL[i] <==> c in [SMALL[i], LARGE[i]]
    {
      EitherCase(i, c);
    }
  }

  const SMALL: string := "content-length:"
  const LARGE: string := "CONTENT-LENGTH:"

  lemma EitherCase(i: nat, c: char)
    requires i < 15
    ensures Lower(c) == SMALL[i] <==> c in [SMALL[i], LARGE[i]]
  {
    assert i in {0, 1, 2, 3, 4, 5, 6, 7, 8, 9, 10, 11, 12, 13, 14};
  }

  // The length that counts is the last one announced.
  function LengthOf(lines: seq<string>): Option<int> {
    if lines == [] then None
    else
      var last := lines[|lines| - 1];
      if IsContentLength(last) then Some(StrToL(last[15..])) else LengthOf(lines[..|lines| - 1])
  }

  // A block of any headers: without a length, or with one that is negative or leaves no room for the
  // terminator, the message is refused; otherwise that many bytes are the body.
  lemma {:induction false} BlockRead(lines: seq<string>, rest: string, cap: nat)
    requires forall i :: 0 <= i < |lines| ==> IsHeader(lines[i])
    ensures Message(Block(lines) + rest, cap) == Ended(LengthOf(lines), rest, cap)
  {
    BlockFrom([], lines, rest, cap);
    assert [] + lines == lines;
  }

  lemma {:induction false} BlockFrom(done: seq<string>, lines: seq<string>, rest: string, cap: nat)
    requires forall i :: 0 <= i < |lines| ==> IsHeader(lines[i])
    ensures MessageFrom(Block(lines) + rest, LengthOf(done), cap) == Ended(LengthOf(done + lines), rest, cap)
    decreases |lines|
  {
    hide IsContentLength, StrToL, LineFrom;
    if lines == [] {
      assert done + lines == done;
      assert Block(lines) + rest == "" + "\r\n" + rest;
      LineReads("", rest, "", false);
    } else {
      hide MessageFrom;
      var tail := Block(lines[1..]) + rest;
      assert Block(lines) + rest == lines[0] + "\r\n" + tail;
      HeaderRead(lines[0], tail, LengthOf(done), cap);
      assert (done + [lines[0]])[..|done|] == done;
      BlockFrom(done + [lines[0]], lines[1..], rest, cap);
      assert done + [lines[0]] + lines[1..] == done + lines;
    }
  }

  lemma HeaderRead(line: string, tail: string, clen: Option<int>, cap: nat)
    requires IsHeader(line)
    ensures MessageFrom(line + "\r\n" + tail, clen, cap)
            == MessageFrom(tail, if IsContentLength(line) then Some(StrToL(line[15..])) else clen, cap)
  {
    hide IsContentLength, StrToL, LineFrom;
    LineReads(line, tail, "", false);
    assert "" + line == line;
  }

  // A stream that ends inside the header block, or in the middle of one of its lines, holds no message.
  lemma {:induction false} HeadersCut(lines: seq<string>, last: string, clen: Option<int>, cap: nat)
    requires forall i :: 0 <= i < |lines| ==> IsHeader(lines[i])
    requires last == "" || IsHeader(last)
    ensures MessageFrom(Headers(lines) + last, clen, cap) == (Eof, "")
    decreases |lines|
  {
    hide StrToL, LineFrom, Lower;
    if lines == [] {
      assert Headers(lines) + last == last;
      LastLine(last);
      LastLine("");
    } else {
      hide MessageFrom;
      var tail := Headers(lines[1..]) + last;
      assert Headers(lines) + last == lines[0] + "\r\n" + tail;
      HeaderRead(lines[0], tail, clen, cap);
      HeadersCut(lines[1..], last, if IsContentLength(lines[0]) then Some(StrToL(lines[0][15..])) else clen, cap);
    }
  }

  function Headers(lines: seq<string>): string {
    if lines == [] then "" else lines[0] + "\r\n" + Headers(lines[1..])
  }

  lemma LastLine(last: string)
    requires last == "" || IsHeader(last)
    ensures HeaderLine(last) == (if last == "" then None else Some(last), "")
  {
    LineIs(last, "", "", false);
    NoCrs(last);
    assert "" + last == last && last[..|last|] == last;
  }

  lemma {:induction false} NoCrs(s: string)
    requires '\r' !in s
    ensures NoCr(s) == s
  {
    if s != "" {
      NoCrs(s[1..]);
      assert [s[0]] + s[1..] == s;
    }
  }

  // What comes of the bytes behind a header block.
  function Ended(clen: Option<int>, rest: string, cap: nat): (Got, string) {
    match clen
    case None => (Bad, rest)
    case Some(n) =>
      if n < 0 || n >= cap then (Bad, rest)
      else if |rest| < n then (Eof, "")
      else (Body(rest[..n]), rest[n..])
  }

  lemma {:induction false} MessagesFramed(bodies: seq<string>, rest: string, cap: nat)
    requires cap <= LONG_MAX && forall i :: 0 <= i < |bodies| ==> |bodies[i]| < cap
    ensures Messages(FramedAll(bodies) + rest, |bodies|, cap) == (Bodies(bodies), rest)
    decreases |bodies|
  {
    hide Message, Framed;
    if bodies == [] {
      assert FramedAll(bodies) + rest == rest;
    } else {
      var tail := FramedAll(bodies[1..]) + rest;
      assert FramedAll(bodies) + rest == Framed(bodies[0]) + tail;
      MessageFramed(bodies[0], tail, cap);
      MessagesFramed(bodies[1..], rest, cap);
    }
  }

  // ----- RSP: $payload#checksum -----

  // A return code as in the source (0 at end of file, but also for an empty payload), the payload, and
  // whether the packet was complete, which is when it is acknowledged.
  datatype Received = Received(rc: int, payload: string, complete: bool)

  function Checksum(p: string): (n: nat)
    ensures n < 0x100
    decreases |p|
  {
    if p == "" then 0 else (Checksum(p[..|p| - 1]) + p[|p| - 1] as int) % 0x100
  }

  // The bytes before the first NUL.
  function CString(s: string): string
    decreases |s|
  {
    if s == "" || s[0] == '\0' then "" else [s[0]] + CString(s[1..])
  }

  lemma {:induction false} CStringIs(s: string)
    ensures var p := CString(s); p <= s && '\0' !in p && (|p| < |s| ==> s[|p|] == '\0')
    decreases |s|
  {
    if s != "" && s[0] != '\0' {
      CStringIs(s[1..]);
      assert s == [s[0]] + s[1..];
    }
  }

  function Sum(p: string): nat { if p == "" then 0 else p[0] as int + Sum(p[1..]) }

  // The checksum is the sum of the bytes modulo 256.
  lemma {:induction false} ChecksumIsSum(p: string)
    ensures Checksum(p) == Sum(p) % 0x100
    decreases |p|
  {
    if p != "" {
      var n := |p| - 1;
      ChecksumIsSum(p[..n]);
      SumLast(p[..n], p[n]);
      assert p[..n] + [p[n]] == p;
      ModuloTwice(Sum(p[..n]), p[n] as int);
    }
  }

  lemma ModuloTwice(a: nat, b: nat)
    ensures (a % 0x100 + b) % 0x100 == (a + b) % 0x100
  {
    assert a == 0x100 * (a / 0x100) + a % 0x100;
  }

  lemma {:induction false} SumLast(p: string, c: char)
    ensures Sum(p + [c]) == Sum(p) + c as int
    decreases |p|
  {
    if p == "" {
      assert (p + [c])[1..] == "";
    } else {
      assert (p + [c])[1..] == p[1..] + [c];
      SumLast(p[1..], c);
    }
  }

  function Packet(s: string, cap: nat): (Received, string)
    decreases |s|
  {
    if s == "" then (Received(0, "", false), "")
    else if s[0] == '$' then Payload(s[1..], "", 0, cap)
    else Packet(s[1..], cap)
  }

  function Payload(s: string, buf: string, csum: nat, cap: nat): (Received, string)
    decreases |s|
  {
    if s == "" then (Received(0, "", false), "")
    else if s[0] == '#' then Trailer(s[1..], buf, csum)
    else if |buf| + 1 >= cap then (Received(-1, "", false), s[1..])
    else Payload(s[1..], buf + [s[0]], (csum + s[0] as int) % 0x100, cap)
  }

  function Trailer(s: string, buf: string, csum: nat): (Received, string) {
    if |s| < 2 then (Received(-1, "", false), "")
    else if HexValue(s[0]) < 0 || HexValue(s[1]) < 0 then (Received(-1, "", false), s[2..])
    else (Received(if 0x10 * HexValue(s[0]) + HexValue(s[1]) == csum then |buf| else -1, buf, true), s[2..])
  }

  function Sealed(p: string, sum: nat): string
    requires sum < 0x100
  {
    p + "#" + [HexDigit(sum / 0x10), HexDigit(sum % 0x10)]
  }

  function Enclosed(p: string): string { "$" + Sealed(p, Checksum(p)) }

  // What is read of p and a checksum that may be another one's.
  lemma {:induction false} PayloadSealed(done: string, p: string, sum: nat, rest: string, cap: nat)
    requires sum < 0x100 && '#' !in p && |done| + |p| < cap
    ensures Payload(Sealed(p, sum) + rest, done, Checksum(done), cap)
            == (Received(if Checksum(done + p) == sum then |done| + |p| else -1, done + p, true), rest)
    decreases |p|
  {
    var s := Sealed(p, sum) + rest;
    if p == "" {
      assert done + p == done;
      assert s[1..] == [HexDigit(sum / 0x10), HexDigit(sum % 0x10)] + rest;
      assert s[1..][2..] == rest;
    } else {
      var now := done + [p[0]];
      assert now[..|done|] == done;
      assert s[1..] == Sealed(p[1..], sum) + rest;
      PayloadSealed(now, p[1..], sum, rest, cap);
      assert now + p[1..] == done + p;
    }
  }

  lemma {:induction false} SkipNoise(noise: string, s: string, cap: nat)
    requires '$' !in noise
    ensures Packet(noise + s, cap) == Packet(s, cap)
    decreases |noise|
  {
    if noise == "" {
      assert noise + s == s;
    } else {
      assert (noise + s)[1..] == noise[1..] + s;
      SkipNoise(noise[1..], s, cap);
    }
  }

  // Any two characters behind the '#': the packet is complete if both are hexadecimal digits, and taken if they
  // are the checksum.
  lemma {:induction false} TrailerRead(done: string, p: string, hi: char, lo: char, rest: string, cap: nat)
    requires '#' !in p && |done| + |p| < cap
    ensures var (r, after) := Payload(p + "#" + [hi, lo] + rest, done, Checksum(done), cap);
            && after == rest && (r.complete <==> HexValue(hi) >= 0 && HexValue(lo) >= 0)
            && (r.complete ==> r.payload == done + p)
            && r.rc == if r.complete && 0x10 * HexValue(hi) + HexValue(lo) == Checksum(done + p)
                       then |done| + |p| else -1
    decreases |p|
  {
    hide HexValue;
    var s := p + "#" + [hi, lo] + rest;
    if p == "" {
      assert done + p == done;
      assert s[1..] == [hi, lo] + rest;
      assert s[1..][2..] == rest;
    } else {
      var now := done + [p[0]];
      assert now[..|done|] == done;
      assert s[1..] == p[1..] + "#" + [hi, lo] + rest;
      TrailerRead(now, p[1..], hi, lo, rest, cap);
      assert now + p[1..] == done + p;
    }
  }

  // A packet that does not end: the stream is over, or the buffer is full and one more byte is lost.
  lemma {:induction false} PayloadCut(done: string, p: string, csum: nat, rest: string, cap: nat)
    requires '#' !in p && |done| < cap
    ensures |done| + |p| < cap ==> Payload(p, done, csum, cap) == (Received(0, "", false), "")
    ensures |done| + |p| == cap ==> Payload(p + rest, done, csum, cap) == (Received(-1, "", false), rest)
    decreases |p|
  {
    if p != "" {
      assert (p + rest)[1..] == p[1..] + rest;
      if |done| + 1 < cap {
        PayloadCut(done + [p[0]], p[1..], (csum + p[0] as int) % 0x100, rest, cap);
      } else if |p| == 1 {
        assert p + rest == p[..1] + rest && p[1..] + rest == rest;
      }
    }
  }

  lemma PacketCut(noise: string, p: string, rest: string, cap: nat)
    requires '$' !in noise && '#' !in p && cap > 0
    ensures Packet(noise, cap) == (Received(0, "", false), "")
    ensures |p| < cap ==> Packet(noise + "$" + p, cap) == (Received(0, "", false), "")
    ensures |p| == cap ==> Packet(noise + "$" + p + rest, cap) == (Received(-1, "", false), rest)
  {
    hide Payload;
    SkipNoise(noise, "", cap);
    assert noise + "" == noise;
    assert noise + "$" + p == noise + ("$" + p) && ("$" + p)[1..] == p;
    assert noise + "$" + p + rest == noise + ("$" + (p + rest)) && ("$" + (p + rest))[1..] == p + rest;
    SkipNoise(noise, "$" + p, cap);
    SkipNoise(noise, "$" + (p + rest), cap);
    PayloadCut("", p, 0, rest, cap);
  }

  // A packet cut off behind the '#' is refused.
  lemma {:induction false} TrailerCut(done: string, p: string, csum: nat, tail: string, cap: nat)
    requires '#' !in p && |done| + |p| < cap && |tail| < 2
    ensures Payload(p + "#" + tail, done, csum, cap) == (Received(-1, "", false), "")
    decreases |p|
  {
    var s := p + "#" + tail;
    if p == "" {
      assert s[1..] == tail;
    } else {
      assert s[1..] == p[1..] + "#" + tail;
      TrailerCut(done + [p[0]], p[1..], (csum + p[0] as int) % 0x100, tail, cap);
    }
  }

  // What goes over the wire, for example.
  lemma EnclosedExample()
    ensures Enclosed("OK") == "$OK#9a"
  {
    ChecksumIsSum("OK");
    assert Sum("OK") == 'O' as int + Sum("K") by { assert "OK"[1..] == "K"; }
    assert Sum("K") == 'K' as int by { assert "K"[1..] == ""; }
  }

  // Once a payload meets a '#' it is over.
  lemma {:induction false} PayloadStops(s: string, buf: string, csum: nat, cap: nat, k: nat)
    requires k < |s| && s[k] == '#'
    ensures Payload(s, buf, csum, cap).0.rc <= |buf| + k
    decreases |s|
  {
    if s[0] != '#' {
      PayloadStops(s[1..], buf + [s[0]], (csum + s[0] as int) % 0x100, cap, k - 1);
    }
  }

  lemma {:induction false} PayloadFits(s: string, buf: string, csum: nat, cap: nat)
    requires |buf| < cap || buf == ""
    ensures Payload(s, buf, csum, cap).0.rc < cap || Payload(s, buf, csum, cap).0.rc == 0
    decreases |s|
  {
    if s != "" && s[0] != '#' && |buf| + 1 < cap {
      PayloadFits(s[1..], buf + [s[0]], (csum + s[0] as int) % 0x100, cap);
    }
  }

  // A sent packet is received as sent exactly when its payload is free of '#' and fits the buffer.
  lemma PacketEnclosedIff(noise: string, p: string, rest: string, cap: nat)
    requires '$' !in noise && p != ""
    ensures var (r, after) := Packet(noise + Enclosed(p) + rest, cap);
            (r.rc == |p| && r.payload == p && after == rest) <==> '#' !in p && |p| < cap
  {
    hide Checksum, HexValue;
    var s := Sealed(p, Checksum(p)) + rest;
    assert noise + Enclosed(p) + rest == noise + (Enclosed(p) + rest);
    SkipNoise(noise, Enclosed(p) + rest, cap);
    assert (Enclosed(p) + rest)[1..] == s;
    Unsummed();
    if '#' in p {
      var k :| 0 <= k < |p| && p[k] == '#';
      PayloadStops(s, "", 0, cap, k);
    } else if |p| < cap {
      PayloadSealed("", p, Checksum(p), rest, cap);
      assert "" + p == p;
    } else {
      PayloadFits(s, "", 0, cap);
    }
  }

  // An empty payload returns 0 like the end of the stream.
  lemma EmptyPayloadLooksLikeEnd(noise: string, rest: string, cap: nat)
    requires '$' !in noise && cap > 0
    ensures var (r, after) := Packet(noise + Enclosed("") + rest, cap);
            r.rc == 0 && r.complete && after == rest
    ensures Packet(noise, cap).0.rc == 0 && !Packet(noise, cap).0.complete
  {
    hide HexValue;
    assert noise + Enclosed("") + rest == noise + (Enclosed("") + rest);
    SkipNoise(noise, Enclosed("") + rest, cap);
    assert (Enclosed("") + rest)[1..] == Sealed("", 0) + rest;
    PayloadSealed("", "", 0, rest, cap);
    assert "" + "" == "";
    SkipNoise(noise, "", cap);
    assert noise + "" == noise;
  }

  lemma Unsummed()
    ensures Checksum("") == 0
  {
  }

  lemma WrongSumRefused(q: string, sum: nat, rest: string, cap: nat)
    requires sum < 0x100 && '#' !in q && |q| < cap && Checksum(q) != sum
    ensures Packet("$" + Sealed(q, sum) + rest, cap).0.rc == -1
  {
    hide HexValue, Checksum, Sealed;
    Unsummed();
    assert ("$" + Sealed(q, sum) + rest)[1..] == Sealed(q, sum) + rest;
    PayloadSealed("", q, sum, rest, cap);
    assert "" + q == q;
  }

  // A packet with one payload byte changed in transit is refused.
  lemma ChangedByteRefused(p: string, i: nat, c: char, rest: string, cap: nat)
    requires i < |p| < cap && p[i] != c && p[i] as int < 0x100 && c as int < 0x100
    requires '#' !in p[i := c]
    ensures Packet("$" + Sealed(p[i := c], Checksum(p)) + rest, cap).0.rc == -1
  {
    hide Checksum, Packet, Sealed;
    ChecksumChanges(p, i, c);
    WrongSumRefused(p[i := c], Checksum(p), rest, cap);
  }

  lemma {:induction false} ChecksumChanges(p: string, i: nat, c: char)
    requires i < |p|
    ensures (Checksum(p[i := c]) - Checksum(p)) % 0x100 == (c as int - p[i] as int) % 0x100
    decreases |p|
  {
    var n := |p| - 1;
    var q := p[i := c];
    if i == n {
      assert q[..n] == p[..n];
      SumsDiffer(Checksum(q[..n]), Checksum(p[..n]), c as int, p[n] as int);
    } else {
      assert q[..n] == p[..n][i := c];
      ChecksumChanges(p[..n], i, c);
      SumsDiffer(Checksum(q[..n]), Checksum(p[..n]), p[n] as int, p[n] as int);
    }
  }

  lemma SumsDiffer(a: int, b: int, x: int, y: int)
    ensures ((a + x) % 0x100 - (b + y) % 0x100) % 0x100 == (a - b + x - y) % 0x100
  {
  }
}
