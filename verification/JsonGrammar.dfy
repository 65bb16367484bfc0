/** What the JSON tokenizer accepts, against concrete syntax and the grammar of RFC 8259. */
module JsonGrammar {
  import opened Options
  import opened Bytes
  import opened Decimal
  import opened JsonTokens

  // ----- Concrete syntax -----

  // Blanks stand in front of every part; a scalar's raw text excludes the quotes of a string.
  datatype Text =
    | Scalar(ws: string, kind: Kind, raw: string)
    | Blank(ws: string, kind: Kind, inner: string)
    | List(ws: string, kind: Kind, rows: Rows)
  datatype Rows =
    | Last(key: Option<Key>, value: Text, after: string)
    | More(key: Option<Key>, value: Text, after: string, rest: Rows)
  datatype Key = Key(ws: string, raw: string, after: string)

  function Opener(kind: Kind): char { if kind == DjObject then '{' else '[' }

  function Quoted(raw: string): string { "\"" + raw + "\"" }

  function Print(t: Text): string {
    match t
    case Scalar(ws, kind, raw) => ws + if kind == DjString then Quoted(raw) else raw
    case Blank(ws, kind, inner) => ws + ([Opener(kind)] + (inner + [Closer(kind)]))
    case List(ws, kind, rows) => ws + ([Opener(kind)] + PrintRows(rows, kind))
  }

  function PrintKey(k: Option<Key>): string {
    if k.None? then "" else k.value.ws + (Quoted(k.value.raw) + (k.value.after + ":"))
  }

  function PrintRows(r: Rows, kind: Kind): string
    decreases r, 1
  {
    PrintKey(r.key) + (Print(r.value) + (r.after + RowEnd(r, kind)))
  }

  function RowEnd(r: Rows, kind: Kind): (s: string)
    ensures |s| > 0
    decreases r, 0
  {
    if r.Last? then [Closer(kind)] else "," + PrintRows(r.rest, kind)
  }

  // ----- The tree and the node count a text stands for -----

  function TreeOf(t: Text, pos: nat): Tree {
    var p := pos + |t.ws|;
    match t
    case Scalar(ws, kind, raw) =>
      if kind == DjString then Leaf(kind, p + 1, p + 1 + |raw|) else Leaf(kind, p, p + |raw|)
    case Blank(ws, kind, inner) => Node(kind, p, p + 2 + |inner|, Nil)
    case List(ws, kind, rows) => Node(kind, p, p + 1 + |PrintRows(rows, kind)|, ForestOf(rows, kind, p + 1))
  }

  function ForestOf(r: Rows, kind: Kind, pos: nat): Forest {
    var p := pos + |PrintKey(r.key)|;
    var q := p + |Print(r.value)| + |r.after| + 1;
    WithKey(r.key, pos, Cons(TreeOf(r.value, p), if r.Last? then Nil else ForestOf(r.rest, kind, q)))
  }

  function KeyLeaf(k: Key, pos: nat): Tree {
    var s := pos + |k.ws| + 1;
    Leaf(DjString, s, s + |k.raw|)
  }

  function WithKey(k: Option<Key>, pos: nat, f: Forest): Forest {
    if k.None? then f else Cons(KeyLeaf(k.value, pos), f)
  }

  function Nodes(t: Text): nat {
    if t.List? then 1 + NodesR(t.rows) else 1
  }

  function NodesR(r: Rows): nat {
    (if r.key.Some? then 1 else 0) + Nodes(r.value) + if r.Last? then 0 else NodesR(r.rest)
  }

  lemma {:induction false} NodesAreCounted(t: Text, pos: nat)
    ensures Count(TreeOf(t, pos)) == Nodes(t)
    decreases t
  {
    if t.List? {
      RowsAreCounted(t.rows, t.kind, pos + |t.ws| + 1);
    }
  }

  lemma {:induction false} RowsAreCounted(r: Rows, kind: Kind, pos: nat)
    ensures CountF(ForestOf(r, kind, pos)) == NodesR(r)
    decreases r
  {
    var p := pos + |PrintKey(r.key)|;
    var q := p + |Print(r.value)| + |r.after| + 1;
    NodesAreCounted(r.value, p);
    var rest := if r.Last? then Nil else ForestOf(r.rest, kind, q);
    if r.More? {
      RowsAreCounted(r.rest, kind, q);
    }
    assert CountF(rest) == if r.Last? then 0 else NodesR(r.rest);
    assert CountF(Cons(TreeOf(r.value, p), rest)) == Nodes(r.value) + CountF(rest);
  }

  // ----- Which texts the scanner takes -----

  predicate Blanks(s: string) {
    forall i :: 0 <= i < |s| ==> IsWs(s[i])
  }

  predicate LaxBody(s: string) {
    if s == "" then true
    else if s[0] == '\\' then |s| >= 2 && LaxBody(s[2..])
    else s[0] != '"' && LaxBody(s[1..])
  }

  predicate LaxNumber(s: string) {
    s != "" && forall i :: 0 <= i < |s| ==> IsNum(s[i])
  }

  predicate LaxScalar(kind: Kind, raw: string) {
    match kind
    case DjString => LaxBody(raw)
    case DjNumber => LaxNumber(raw)
    case DjTrue => raw == "true"
    case DjFalse => raw == "false"
    case DjNull => raw == "null"
    case _ => false
  }

  predicate Lax(t: Text) {
    Blanks(t.ws) &&
    match t
    case Scalar(ws, kind, raw) => LaxScalar(kind, raw)
    case Blank(ws, kind, inner) => (kind == DjObject || kind == DjArray) && Blanks(inner)
    case List(ws, kind, rows) => (kind == DjObject || kind == DjArray) && LaxRows(rows, kind)
  }

  predicate LaxKey(k: Option<Key>, kind: Kind) {
    (k.Some? <==> kind == DjObject) &&
    (k.Some? ==> Blanks(k.value.ws) && LaxBody(k.value.raw) && Blanks(k.value.after))
  }

  predicate LaxRows(r: Rows, kind: Kind) {
    LaxKey(r.key, kind) && Lax(r.value) && Blanks(r.after) && (r.More? ==> LaxRows(r.rest, kind))
  }

  // The characters that matter: white space of section 2, what a number may be made of here, and brackets.
  lemma CharactersAre(c: char)
    ensures IsWs(c) <==> c as int in {0x09, 0x0A, 0x0D, 0x20}
    ensures IsNum(c) <==> c in "0123456789+-.eE"
    ensures Opener(DjObject) == '{' && Closer(DjObject) == '}' && Opener(DjArray) == '[' && Closer(DjArray) == ']'
  {
    if IsNum(c) {
      assert "0123456789+-.eE"[10] == '+' && "0123456789+-.eE"[11] == '-' && "0123456789+-.eE"[12] == '.';
      assert "0123456789+-.eE"[13] == 'e' && "0123456789+-.eE"[14] == 'E';
      if '0' <= c <= '9' {
        assert "0123456789+-.eE"[c as int - '0' as int] == c;
      }
    }
  }

  // A number ends where no number character follows.
  predicate Ends(js: string, e: nat, t: Text) {
    t.Scalar? && t.kind == DjNumber ==> e >= |js| || !IsNum(js[e])
  }

  // ----- Scanning over known text -----

  lemma AtSplit(js: string, p: nat, s: string, t: string)
    ensures At(js, p, s + t) <==> At(js, p, s) && At(js, p + |s|, t)
  {
    if At(js, p, s + t) {
      var u := js[p..p + |s + t|];
      assert js[p..p + |s|] == u[..|s|] == s;
      assert js[p + |s|..p + |s| + |t|] == u[|s|..] == t;
    }
  }

  lemma AtChar(js: string, p: nat, c: char)
    ensures At(js, p, [c]) <==> p < |js| && js[p] == c
  {
  }

  lemma AtIndex(js: string, p: nat, s: string, i: nat)
    requires At(js, p, s) && i < |s|
    ensures js[p + i] == s[i]
  {
  }

  lemma {:induction false} SkipOver(js: string, p: nat, w: string)
    requires At(js, p, w) && Blanks(w) && (p + |w| >= |js| || !IsWs(js[p + |w|]))
    ensures SkipWs(js, p) == p + |w|
    decreases |w|
  {
    if w != "" {
      AtIndex(js, p, w, 0);
      AtSplit(js, p, w[..1], w[1..]);
      assert w == w[..1] + w[1..];
      SkipOver(js, p + 1, w[1..]);
    }
  }

  lemma {:induction false} NumOver(js: string, p: nat, w: string)
    requires At(js, p, w) && (forall i :: 0 <= i < |w| ==> IsNum(w[i])) && (p + |w| >= |js| || !IsNum(js[p + |w|]))
    ensures NumEnd(js, p) == p + |w|
    decreases |w|
  {
    if w != "" {
      AtIndex(js, p, w, 0);
      AtSplit(js, p, w[..1], w[1..]);
      assert w == w[..1] + w[1..];
      NumOver(js, p + 1, w[1..]);
    }
  }

  lemma {:induction false} StringOver(js: string, p: nat, w: string)
    requires At(js, p, w) && LaxBody(w) && p + |w| < |js| && js[p + |w|] == '"'
    ensures StringEnd(js, p) == Some(p + |w|)
    decreases |w|
  {
    if w != "" {
      AtIndex(js, p, w, 0);
      var n := if w[0] == '\\' then 2 else 1;
      AtSplit(js, p, w[..n], w[n..]);
      assert w == w[..n] + w[n..];
      StringOver(js, p + n, w[n..]);
    }
  }

  // ----- Every lax text is read, as its own tree -----

  lemma QuotedSplit(js: string, p: nat, raw: string)
    requires At(js, p, Quoted(raw))
    ensures p + |raw| + 1 < |js| && js[p] == '"' && At(js, p + 1, raw) && js[p + 1 + |raw|] == '"'
  {
    AtSplit(js, p, "\"" + raw, "\"");
    AtSplit(js, p, "\"", raw);
    AtIndex(js, p, "\"", 0);
    AtIndex(js, p + 1 + |raw|, "\"", 0);
  }

  lemma QuotedRead(js: string, p: nat, raw: string)
    requires At(js, p, Quoted(raw)) && LaxBody(raw)
    ensures p < |js| && js[p] == '"'
    ensures StringAt(js, p) == Some(Parsed(Leaf(DjString, p + 1, p + 1 + |raw|), p + 2 + |raw|))
  {
    hide At, Quoted, LaxBody, StringEnd;
    QuotedSplit(js, p, raw);
    StringOver(js, p + 1, raw);
  }

  lemma ScalarRead(js: string, pos: nat, t: Text)
    requires t.Scalar? && LaxScalar(t.kind, t.raw)
    requires At(js, pos + |t.ws|, if t.kind == DjString then Quoted(t.raw) else t.raw)
    requires Ends(js, pos + |Print(t)|, t)
    ensures var p := pos + |t.ws|;
      p < |js| &&
      (if t.kind == DjString then StringAt(js, p) else PrimAt(js, p)) ==
        Some(Parsed(TreeOf(t, pos), pos + |Print(t)|))
  {
    hide LaxBody, StringAt, PrimAt, Quoted, At;
    var p := pos + |t.ws|;
    if t.kind == DjString {
      QuotedLength(t.raw);
      QuotedRead(js, p, t.raw);
    } else {
      PrimRead(js, p, t.kind, t.raw);
    }
  }

  lemma QuotedLength(raw: string)
    ensures |Quoted(raw)| == |raw| + 2
  {
  }

  lemma PrimRead(js: string, p: nat, kind: Kind, raw: string)
    requires kind != DjString && LaxScalar(kind, raw) && At(js, p, raw)
    requires kind == DjNumber ==> p + |raw| >= |js| || !IsNum(js[p + |raw|])
    ensures p < |js| && PrimAt(js, p) == Some(Parsed(Leaf(kind, p, p + |raw|), p + |raw|))
  {
    AtIndex(js, p, raw, 0);
    if kind == DjNumber {
      NumOver(js, p, raw);
    }
  }

  lemma BlankRead(js: string, pos: nat, t: Text)
    requires At(js, pos, Print(t)) && Lax(t) && t.Blank?
    ensures var p := pos + |t.ws|;
      p < |js| && NestedAt(js, p, t.kind) == Some(Parsed(TreeOf(t, pos), pos + |Print(t)|))
  {
    hide At, SkipWs;
    var p, q := pos + |t.ws|, pos + |t.ws| + 1 + |t.inner|;
    AtSplit(js, pos, t.ws, [Opener(t.kind)] + (t.inner + [Closer(t.kind)]));
    AtSplit(js, p, [Opener(t.kind)], t.inner + [Closer(t.kind)]);
    AtSplit(js, p + 1, t.inner, [Closer(t.kind)]);
    AtIndex(js, q, [Closer(t.kind)], 0);
    AtBound(js, q, [Closer(t.kind)]);
    SkipOver(js, p + 1, t.inner);
  }

  lemma AtBound(js: string, p: nat, s: string)
    requires At(js, p, s)
    ensures p + |s| <= |js|
  {
  }

  lemma {:induction false} ValueComplete(js: string, pos: nat, t: Text)
    requires At(js, pos, Print(t)) && Lax(t) && Ends(js, pos + |Print(t)|, t)
    ensures ValueAt(js, pos) == Some(Parsed(TreeOf(t, pos), pos + |Print(t)|))
    decreases t, 2
  {
    hide At, SkipWs, StringAt, PrimAt, NestedAt, PrintRows, LaxRows, LaxScalar;
    LaxBlanks(t);
    ValueStart(js, pos, t);
    AtBound(js, pos, Print(t));
    var p := pos + |t.ws|;
    match t
    case Scalar(ws, kind, raw) =>
      AtSplit(js, pos, ws, if kind == DjString then Quoted(raw) else raw);
      ScalarRead(js, pos, t);
    case Blank(ws, kind, inner) =>
      BlankRead(js, pos, t);
    case List(ws, kind, rows) =>
      AtSplit(js, pos, ws, [Opener(kind)] + PrintRows(rows, kind));
      AtSplit(js, p, [Opener(kind)], PrintRows(rows, kind));
      NestedComplete(js, p, rows, kind);
  }

  // The text of a value behind its blanks.
  function Core(t: Text): string {
    match t
    case Scalar(ws, kind, raw) => if kind == DjString then Quoted(raw) else raw
    case Blank(ws, kind, inner) => [Opener(kind)] + (inner + [Closer(kind)])
    case List(ws, kind, rows) => [Opener(kind)] + PrintRows(rows, kind)
  }

  lemma CoreStart(t: Text)
    requires Lax(t)
    ensures var s := Core(t);
      s != "" && !IsWs(s[0]) && s[0] != ']' && s[0] != '}' &&
      if t.Scalar? then s[0] != '{' && s[0] != '[' && (s[0] == '"' <==> t.kind == DjString)
      else s[0] == Opener(t.kind)
  {
    hide LaxBody, LaxRows, PrintRows;
  }

  lemma PrintCore(t: Text)
    ensures Print(t) == t.ws + Core(t)
  {
    hide PrintRows, Quoted;
  }

  // The first character of a value tells its form.
  lemma ValueStart(js: string, pos: nat, t: Text)
    requires At(js, pos, Print(t)) && Lax(t) && Blanks(t.ws)
    ensures var p := pos + |t.ws|;
      p < |js| && SkipWs(js, pos) == p && js[p] != ']' && js[p] != '}' &&
      (if t.Scalar? then js[p] != '{' && js[p] != '[' && (js[p] == '"' <==> t.kind == DjString)
       else js[p] == Opener(t.kind))
  {
    hide At, SkipWs, Lax, Core, PrintRows, Quoted, Print, LaxBody, LaxRows, LaxScalar, Blanks, IsWs, Opener;
    CoreStart(t);
    PrintCore(t);
    var p := pos + |t.ws|;
    AtSplit(js, pos, t.ws, Core(t));
    AtBound(js, p, Core(t));
    AtIndex(js, p, Core(t), 0);
    SkipOver(js, pos, t.ws);
  }

  lemma {:induction false} NestedComplete(js: string, p: nat, rows: Rows, kind: Kind)
    requires p < |js| && At(js, p + 1, PrintRows(rows, kind)) && LaxRows(rows, kind)
    requires kind == DjObject || kind == DjArray
    ensures var e := p + 1 + |PrintRows(rows, kind)|;
      NestedAt(js, p, kind) == Some(Parsed(Node(kind, p, e, ForestOf(rows, kind, p + 1)), e))
    decreases rows, 4
  {
    hide At, SkipWs, ListAt, ForestOf, PrintRows, LaxRows;
    RowsStart(js, p + 1, rows, kind);
    ListAfterWs(js, kind, p + 1);
    RowsComplete(js, p + 1, rows, kind);
  }

  // A list with entries does not start with its closing bracket.
  lemma RowsStart(js: string, pos: nat, r: Rows, kind: Kind)
    requires At(js, pos, PrintRows(r, kind)) && LaxRows(r, kind)
    ensures var q := SkipWs(js, pos); q < |js| && js[q] != Closer(kind)
  {
    hide At, SkipWs, PrintRows, PrintKey, Print, Lax, LaxKey, KeyAt;
    RowParts(js, pos, r, kind);
    KeyKind(r.key, kind);
    if r.key.Some? {
      KeyRead(js, pos, r.key.value);
    } else {
      NoKey(r.key);
      LaxBlanks(r.value);
      hide Blanks;
      ValueStart(js, pos, r.value);
    }
  }

  lemma KeyKind(k: Option<Key>, kind: Kind)
    requires LaxKey(k, kind)
    ensures k.Some? <==> kind == DjObject
  {
  }

  lemma LaxBlanks(t: Text)
    ensures Lax(t) ==> Blanks(t.ws)
  {
    hide LaxScalar, LaxRows, Blanks;
  }

  // Where the parts of an entry stand.
  lemma RowParts(js: string, pos: nat, r: Rows, kind: Kind)
    requires At(js, pos, PrintRows(r, kind))
    ensures var p := pos + |PrintKey(r.key)|;
      var v := p + |Print(r.value)|;
      var d := v + |r.after|;
      At(js, pos, PrintKey(r.key)) && At(js, p, Print(r.value)) && At(js, v, r.after) && d < |js| &&
      if r.Last? then js[d] == Closer(kind) else js[d] == ',' && At(js, d + 1, PrintRows(r.rest, kind))
  {
    hide At, PrintKey, Print, RowEnd, Closer;
    AtFour(js, pos, PrintKey(r.key), Print(r.value), r.after, RowEnd(r, kind));
    EndParts(js, pos + |PrintKey(r.key)| + |Print(r.value)| + |r.after|, r, kind);
  }

  lemma EndParts(js: string, d: nat, r: Rows, kind: Kind)
    requires At(js, d, RowEnd(r, kind))
    ensures d < |js|
    ensures if r.Last? then js[d] == Closer(kind) else js[d] == ',' && At(js, d + 1, PrintRows(r.rest, kind))
  {
    hide PrintRows;
    AtIndex(js, d, RowEnd(r, kind), 0);
    if r.More? {
      AtSplit(js, d, ",", PrintRows(r.rest, kind));
    }
  }

  lemma AtFour(js: string, p: nat, a: string, b: string, c: string, d: string)
    ensures At(js, p, a + (b + (c + d))) <==>
      At(js, p, a) && At(js, p + |a|, b) && At(js, p + |a| + |b|, c) && At(js, p + |a| + |b| + |c|, d)
  {
    hide At;
    AtSplit(js, p, a, b + (c + d));
    AtSplit(js, p + |a|, b, c + d);
    AtSplit(js, p + |a| + |b|, c, d);
  }

  lemma KeyParts(js: string, pos: nat, k: Key)
    requires At(js, pos, PrintKey(Some(k)))
    ensures var s := pos + |k.ws|;
      var a := s + 2 + |k.raw|;
      At(js, pos, k.ws) && At(js, s, Quoted(k.raw)) && At(js, a, k.after) && a + |k.after| < |js| &&
      js[a + |k.after|] == ':'
  {
    var s := pos + |k.ws|;
    var a := s + 2 + |k.raw|;
    hide At;
    AtSplit(js, pos, k.ws, Quoted(k.raw) + (k.after + ":"));
    AtSplit(js, s, Quoted(k.raw), k.after + ":");
    AtSplit(js, a, k.after, ":");
    AtBound(js, a + |k.after|, ":");
    AtIndex(js, a + |k.after|, ":", 0);
  }

  lemma KeyRead(js: string, pos: nat, k: Key)
    requires At(js, pos, PrintKey(Some(k))) && LaxKey(Some(k), DjObject)
    ensures var s := pos + |k.ws|;
      s < |js| && SkipWs(js, pos) == s && js[s] == '"' &&
      KeyAt(js, pos) == Some(Parsed(KeyLeaf(k, pos), pos + |PrintKey(Some(k))|))
  {
    hide At, LaxBody, SkipWs, Quoted, StringAt;
    var s := pos + |k.ws|;
    var a := s + 2 + |k.raw|;
    KeyParts(js, pos, k);
    QuotedRead(js, s, k.raw);
    SkipOver(js, pos, k.ws);
    SkipOver(js, a, k.after);
    KeyLength(k);
  }

  lemma KeyLength(k: Key)
    ensures |PrintKey(Some(k))| == |k.ws| + |k.raw| + |k.after| + 3
  {
  }

  // One entry read: the list is its trees in front of what follows.
  lemma ItemRead(js: string, p: nat, v: Parsed<Tree>, d: nat)
    requires p <= |js| && ValueAt(js, p) == Some(v) && d < |js| && SkipWs(js, v.end) == d
    ensures js[d] == ']' ==> ItemsAt(js, p) == Some(Parsed(Cons(v.it, Nil), d + 1))
    ensures js[d] == ',' && ItemsAt(js, d + 1).Some? ==>
      var r := ItemsAt(js, d + 1).value;
      ItemsAt(js, p) == Some(Parsed(Cons(v.it, r.it), r.end))
  {
    hide ValueAt, SkipWs;
  }

  lemma MemberRead(js: string, pos: nat, k: Parsed<Tree>, v: Parsed<Tree>, d: nat)
    requires pos <= |js| && KeyAt(js, pos) == Some(k) && ValueAt(js, k.end) == Some(v)
    requires d < |js| && SkipWs(js, v.end) == d
    ensures js[d] == '}' ==> MembersAt(js, pos) == Some(Parsed(Cons(k.it, Cons(v.it, Nil)), d + 1))
    ensures js[d] == ',' && MembersAt(js, d + 1).Some? ==>
      var r := MembersAt(js, d + 1).value;
      MembersAt(js, pos) == Some(Parsed(Cons(k.it, Cons(v.it, r.it)), r.end))
  {
    hide ValueAt, KeyAt, SkipWs;
  }

  lemma RowsLength(r: Rows, kind: Kind)
    ensures |PrintRows(r, kind)| ==
      |PrintKey(r.key)| + |Print(r.value)| + |r.after| + 1 + if r.Last? then 0 else |PrintRows(r.rest, kind)|
  {
    hide Print, PrintKey;
  }

  lemma {:induction false} RowsComplete(js: string, pos: nat, r: Rows, kind: Kind)
    requires At(js, pos, PrintRows(r, kind)) && LaxRows(r, kind) && (kind == DjObject || kind == DjArray)
    ensures ListAt(js, kind, pos) == Some(Parsed(ForestOf(r, kind, pos), pos + |PrintRows(r, kind)|))
    decreases r, 3
  {
    hide At, Print, PrintKey, PrintRows, SkipWs, ValueAt, KeyAt, TreeOf, ItemsAt, MembersAt, Lax, LaxBody;
    RowParts(js, pos, r, kind);
    RowsLength(r, kind);
    var p := pos + |PrintKey(r.key)|;
    var v := p + |Print(r.value)|;
    var d := v + |r.after|;
    SkipOver(js, v, r.after);
    NumberEnds(js, v, r.after);
    ValueComplete(js, p, r.value);
    if r.More? {
      RowsComplete(js, d + 1, r.rest, kind);
    }
    if r.key.Some? {
      KeyRead(js, pos, r.key.value);
      MemberRead(js, pos, Parsed(KeyLeaf(r.key.value, pos), p), Parsed(TreeOf(r.value, p), v), d);
    } else {
      NoKey(r.key);
      ItemRead(js, p, Parsed(TreeOf(r.value, p), v), d);
    }
  }

  lemma NoKey(k: Option<Key>)
    ensures k.None? ==> PrintKey(k) == ""
  {
  }

  lemma NumberEnds(js: string, v: nat, w: string)
    requires At(js, v, w) && Blanks(w) && v + |w| < |js| && !IsNum(js[v + |w|])
    ensures !IsNum(js[v])
  {
  }

  // ----- Every text that is read is a lax text -----

  lemma {:induction false} SkippedBlanks(js: string, p: nat)
    requires p <= |js|
    ensures var q := SkipWs(js, p); Blanks(js[p..q]) && (q < |js| ==> !IsWs(js[q]))
    decreases |js| - p
  {
    if p < |js| && IsWs(js[p]) {
      SkippedBlanks(js, p + 1);
      var q := SkipWs(js, p);
      assert js[p..q] == [js[p]] + js[p + 1..q];
    }
  }

  lemma {:induction false} ScannedNumber(js: string, p: nat)
    requires p <= |js|
    ensures var q := NumEnd(js, p); (forall i :: p <= i < q ==> IsNum(js[i])) && (q < |js| ==> !IsNum(js[q]))
    decreases |js| - p
  {
    if p < |js| && IsNum(js[p]) {
      ScannedNumber(js, p + 1);
    }
  }

  lemma {:induction false} ScannedBody(js: string, p: nat)
    requires p <= |js| && StringEnd(js, p).Some?
    ensures var q := StringEnd(js, p).value; LaxBody(js[p..q]) && js[q] == '"'
    decreases |js| - p
  {
    var q := StringEnd(js, p).value;
    if js[p] == '\\' {
      ScannedBody(js, p + 2);
      assert js[p..q][2..] == js[p + 2..q];
    } else if js[p] != '"' {
      ScannedBody(js, p + 1);
      assert js[p..q][1..] == js[p + 1..q];
    }
  }

  lemma QuotedBack(js: string, p: nat) returns (raw: string)
    requires p < |js| && js[p] == '"' && StringAt(js, p).Some?
    ensures LaxBody(raw) && At(js, p, Quoted(raw)) && StringAt(js, p).value.end == p + |Quoted(raw)|
  {
    var q := StringEnd(js, p + 1).value;
    ScannedBody(js, p + 1);
    raw := js[p + 1..q];
    assert js[p..q + 1] == Quoted(raw);
  }

  lemma PrimBack(js: string, p: nat, ws: string) returns (t: Text)
    requires p < |js| && PrimAt(js, p).Some?
    ensures t.Scalar? && t.ws == ws && t.kind != DjString && LaxScalar(t.kind, t.raw)
    ensures At(js, p, t.raw) && Ends(js, p + |t.raw|, t)
  {
    var r := PrimAt(js, p).value;
    t := Scalar(ws, r.it.kind, js[p..r.end]);
    if r.it.kind == DjNumber {
      ScannedNumber(js, p);
    }
  }

  lemma StringBack(js: string, p: nat, ws: string) returns (t: Text)
    requires Blanks(ws) && p < |js| && js[p] == '"' && StringAt(js, p).Some?
    ensures t.Scalar? && t.ws == ws && t.kind == DjString && Lax(t)
    ensures At(js, p, Quoted(t.raw)) && Ends(js, p + |Quoted(t.raw)|, t)
  {
    var raw := QuotedBack(js, p);
    t := Scalar(ws, DjString, raw);
  }

  lemma AtJoin(js: string, p: nat, s: string, t: string)
    requires At(js, p, s) && At(js, p + |s|, t)
    ensures At(js, p, s + t)
  {
  }

  // Which reader a value went to.
  lemma ValueReader(js: string, pos: nat)
    requires pos <= |js| && ValueAt(js, pos).Some?
    ensures var p := SkipWs(js, pos);
            p < |js| &&
            if js[p] == '"' then StringAt(js, p).Some?
            else if js[p] == '{' then NestedAt(js, p, DjObject).Some?
            else if js[p] == '[' then NestedAt(js, p, DjArray).Some?
            else PrimAt(js, p).Some?
  {
    hide SkipWs, StringAt, PrimAt, NestedAt;
  }

  lemma ScalarPrint(js: string, pos: nat, t: Text)
    requires t.Scalar? && At(js, pos, t.ws)
    requires At(js, pos + |t.ws|, if t.kind == DjString then Quoted(t.raw) else t.raw)
    ensures At(js, pos, Print(t)) && |Print(t)| == |t.ws| + if t.kind == DjString then |Quoted(t.raw)| else |t.raw|
  {
  }

  lemma ScalarSound(js: string, pos: nat) returns (t: Text)
    requires pos <= |js| && ValueAt(js, pos).Some?
    requires js[SkipWs(js, pos)] != '{' && js[SkipWs(js, pos)] != '['
    ensures Lax(t) && At(js, pos, Print(t)) && Ends(js, pos + |Print(t)|, t)
  {
    hide SkipWs, ValueAt, StringAt, PrimAt, NestedAt, LaxBody, Print, Quoted, At, Blanks;
    var p := SkipWs(js, pos);
    SkippedBlanks(js, pos);
    ValueReader(js, pos);
    AtSlice(js, pos, p);
    if js[p] == '"' {
      t := StringBack(js, p, js[pos..p]);
    } else {
      t := PrimBack(js, p, js[pos..p]);
    }
    ScalarPrint(js, pos, t);
  }

  lemma {:induction false} ValueSound(js: string, pos: nat) returns (t: Text)
    requires pos <= |js| && ValueAt(js, pos).Some?
    ensures Lax(t) && At(js, pos, Print(t)) && Ends(js, pos + |Print(t)|, t)
    decreases |js| - pos, 1
  {
    hide SkipWs, ValueAt, StringAt, PrimAt, NestedAt, Lax, Print, At, NestedText, Blanks;
    ValueReader(js, pos);
    var p := SkipWs(js, pos);
    if js[p] != '{' && js[p] != '[' {
      t := ScalarSound(js, pos);
    } else {
      SkippedBlanks(js, pos);
      AtSlice(js, pos, p);
      t := NestedSound(js, p, if js[p] == '{' then DjObject else DjArray, js[pos..p]);
      NestedPrint(js, pos, t);
    }
  }

  // The text of an array or object behind its blanks.
  function NestedText(t: Text): string
    requires !t.Scalar?
  {
    [Opener(t.kind)] + if t.Blank? then t.inner + [Closer(t.kind)] else PrintRows(t.rows, t.kind)
  }

  lemma NestedPrint(js: string, pos: nat, t: Text)
    requires !t.Scalar? && At(js, pos, t.ws) && At(js, pos + |t.ws|, NestedText(t))
    ensures At(js, pos, Print(t))
  {
  }

  lemma {:induction false} NestedSound(js: string, p: nat, kind: Kind, ws: string) returns (t: Text)
    requires p < |js| && (kind == DjObject || kind == DjArray) && js[p] == Opener(kind) && Blanks(ws)
    requires NestedAt(js, p, kind).Some?
    ensures !t.Scalar? && t.ws == ws && t.kind == kind && Lax(t) && At(js, p, NestedText(t))
    decreases |js| - p, 0
  {
    var q := SkipWs(js, p + 1);
    AtChar(js, p, Opener(kind));
    if q < |js| && js[q] == Closer(kind) {
      var inner := js[p + 1..q];
      SkippedBlanks(js, p + 1);
      t := Blank(ws, kind, inner);
      AtChar(js, q, Closer(kind));
      AtJoin(js, p + 1, inner, [Closer(kind)]);
      AtJoin(js, p, [Opener(kind)], inner + [Closer(kind)]);
    } else {
      ListAfterWs(js, kind, p + 1);
      var rows := RowsSound(js, p + 1, kind);
      t := List(ws, kind, rows);
      AtJoin(js, p, [Opener(kind)], PrintRows(rows, kind));
    }
  }

  lemma KeySteps(js: string, pos: nat)
    requires pos <= |js| && KeyAt(js, pos).Some?
    ensures var s := SkipWs(js, pos);
      s < |js| && js[s] == '"' && StringAt(js, s).Some? &&
      var c := SkipWs(js, StringAt(js, s).value.end);
      c < |js| && js[c] == ':' && KeyAt(js, pos).value.end == c + 1
  {
    hide SkipWs;
  }

  lemma KeySound(js: string, pos: nat) returns (k: Key)
    requires pos <= |js| && KeyAt(js, pos).Some?
    ensures LaxKey(Some(k), DjObject) && At(js, pos, PrintKey(Some(k)))
    ensures KeyAt(js, pos).value.end == pos + |PrintKey(Some(k))|
  {
    hide SkipWs, StringAt, At, LaxBody, KeyAt, Quoted;
    KeySteps(js, pos);
    var s := SkipWs(js, pos);
    var a := StringAt(js, s).value.end;
    var c := SkipWs(js, a);
    SkippedBlanks(js, pos);
    var raw := QuotedBack(js, s);
    SkippedBlanks(js, a);
    k := Key(js[pos..s], raw, js[a..c]);
    AtSlice(js, pos, s);
    AtSlice(js, a, c);
    AtChar(js, c, ':');
    AtFour(js, pos, k.ws, Quoted(raw), k.after, ":");
  }

  // What the list readers looked at to succeed.
  lemma ItemSteps(js: string, pos: nat)
    requires pos <= |js| && ItemsAt(js, pos).Some?
    ensures var v := ValueAt(js, pos);
      v.Some? &&
      var d := SkipWs(js, v.value.end);
      d < |js| && (js[d] == ']' || (js[d] == ',' && ItemsAt(js, d + 1).Some?))
  {
    hide ValueAt, SkipWs;
  }

  lemma MemberSteps(js: string, k: Parsed<Tree>)
    requires k.end <= |js| && MembersBehind(js, k).Some?
    ensures var v := ValueAt(js, k.end);
      v.Some? &&
      var d := SkipWs(js, v.value.end);
      d < |js| && (js[d] == '}' || (js[d] == ',' && MembersAt(js, d + 1).Some?))
  {
    hide KeyAt, ValueAt, SkipWs;
  }

  // The key of an entry, if its list has keys, and where its value starts.
  lemma EntryKey(js: string, pos: nat, kind: Kind) returns (key: Option<Key>, p: nat)
    requires pos <= |js| && (kind == DjObject || kind == DjArray) && ListAt(js, kind, pos).Some?
    ensures LaxKey(key, kind) && At(js, pos, PrintKey(key)) && p == pos + |PrintKey(key)| <= |js|
    ensures var v := ValueAt(js, p);
      v.Some? &&
      var d := SkipWs(js, v.value.end);
      d < |js| && (js[d] == Closer(kind) || (js[d] == ',' && ListAt(js, kind, d + 1).Some?))
  {
    if kind == DjObject {
      ObjectList(js, pos);
      hide KeyAt, ValueAt, SkipWs, At, PrintKey, MembersBehind, MembersAt, LaxKey;
      MemberSteps(js, KeyAt(js, pos).value);
      var k := KeySound(js, pos);
      key, p := Some(k), KeyAt(js, pos).value.end;
    } else {
      key, p := None, pos;
      ItemSteps(js, pos);
      NoKey(key);
      AtNothing(js, pos);
      hide KeyAt, ValueAt, SkipWs, At, PrintKey, ItemsAt;
    }
  }

  lemma ObjectList(js: string, pos: nat)
    requires pos <= |js| && ListAt(js, DjObject, pos).Some?
    ensures KeyAt(js, pos).Some? && MembersBehind(js, KeyAt(js, pos).value).Some?
  {
    hide KeyAt, MembersBehind;
  }

  // A value and the blanks behind it.
  lemma EntryValue(js: string, p: nat) returns (value: Text, after: string)
    requires p <= |js| && ValueAt(js, p).Some?
    ensures Lax(value) && At(js, p, Print(value)) && Blanks(after)
    ensures var v := p + |Print(value)|;
      ValueAt(js, p).value.end == v && At(js, v, after) && SkipWs(js, v) == v + |after|
    decreases |js| - p, 2
  {
    value := ValueSound(js, p);
    ValueComplete(js, p, value);
    hide SkipWs, ValueAt, At, Lax, Print;
    var v := p + |Print(value)|;
    var d := SkipWs(js, v);
    SkippedBlanks(js, v);
    AtSlice(js, v, d);
    after := js[v..d];
  }

  lemma {:induction false} RowsSound(js: string, pos: nat, kind: Kind) returns (r: Rows)
    requires pos <= |js| && (kind == DjObject || kind == DjArray) && ListAt(js, kind, pos).Some?
    ensures LaxRows(r, kind) && At(js, pos, PrintRows(r, kind))
    decreases |js| - pos, 3
  {
    hide SkipWs, ValueAt, KeyAt, Print, PrintKey, PrintRows, ListAt, Lax, LaxKey, At, RowEnd, Blanks;
    var key, p := EntryKey(js, pos, kind);
    var value, after := EntryValue(js, p);
    var d := p + |Print(value)| + |after|;
    if js[d] == ',' {
      var rest := RowsSound(js, d + 1, kind);
      r := More(key, value, after, rest);
    } else {
      r := Last(key, value, after);
    }
    EndBack(js, d, r, kind);
    AtFour(js, pos, PrintKey(key), Print(value), after, RowEnd(r, kind));
    RowsPrint(r, kind);
  }

  lemma AtNothing(js: string, p: nat)
    requires p <= |js|
    ensures At(js, p, "")
  {
  }

  lemma AtSlice(js: string, p: nat, q: nat)
    requires p <= q <= |js|
    ensures At(js, p, js[p..q])
  {
  }

  lemma EndBack(js: string, d: nat, r: Rows, kind: Kind)
    requires d < |js|
    requires if r.Last? then js[d] == Closer(kind) else js[d] == ',' && At(js, d + 1, PrintRows(r.rest, kind))
    ensures At(js, d, RowEnd(r, kind))
  {
  }

  lemma RowsPrint(r: Rows, kind: Kind)
    ensures PrintRows(r, kind) == PrintKey(r.key) + (Print(r.value) + (r.after + RowEnd(r, kind)))
  {
    hide Print, PrintKey;
  }

  // The tokenizer takes a text exactly when it starts with the print of some lax text.
  lemma AcceptsIff(js: string)
    ensures ValueAt(js, 0).Some? <==> exists t :: Lax(t) && At(js, 0, Print(t)) && Ends(js, |Print(t)|, t)
  {
    if ValueAt(js, 0).Some? {
      var t := ValueSound(js, 0);
    }
    if t :| Lax(t) && At(js, 0, Print(t)) && Ends(js, |Print(t)|, t) {
      ValueComplete(js, 0, t);
    }
  }

  // ----- RFC 8259 -----

  // Section 6: an optional minus, an integer without leading zeros, a fraction, an exponent.
  datatype Number = Number(minus: bool, whole: string, frac: string, exp: string)

  predicate RfcNumber(n: Number) {
    Numeral(n.whole) && (n.whole[0] == '0' ==> n.whole == "0") &&
    (n.frac == "" || (n.frac[0] == '.' && Numeral(n.frac[1..]))) &&
    (n.exp == "" ||
      ((n.exp[0] == 'e' || n.exp[0] == 'E') &&
       (Numeral(n.exp[1..]) || (|n.exp| > 1 && (n.exp[1] == '+' || n.exp[1] == '-') && Numeral(n.exp[2..])))))
  }

  function NumberText(n: Number): string {
    (if n.minus then "-" else "") + n.whole + n.frac + n.exp
  }

  // Which numbers these are, for example.
  lemma RfcNumberExamples()
    ensures var n := Number(true, "12", ".5", "e+3"); RfcNumber(n) && NumberText(n) == "-12.5e+3"
    ensures RfcNumber(Number(false, "0", "", "E7")) && !RfcNumber(Number(false, "012", "", ""))
    ensures !RfcNumber(Number(false, "1", ".", "")) && !RfcNumber(Number(false, "1", "", "e+"))
  {
    assert ".5"[1..] == "5" && "e+3"[2..] == "3" && "E7"[1..] == "7" && "."[1..] == "" && "e+"[2..] == "";
    assert "e+3"[1..][0] == '+' && "e+"[1..][0] == '+';
    assert "012"[0] == '0' && |"012"| == 3;
  }

  predicate IsHex(c: char) { HexValue(c) >= 0 }

  // Section 7: unescaped characters, two-character escapes, and \u with four hexadecimal digits.
  predicate RfcBody(s: string) {
    if s == "" then true
    else if s[0] == '\\' then
      |s| >= 2 &&
      if s[1] == 'u' then |s| >= 6 && IsHex(s[2]) && IsHex(s[3]) && IsHex(s[4]) && IsHex(s[5]) && RfcBody(s[6..])
      else s[1] in "\"\\/bfnrt" && RfcBody(s[2..])
    else s[0] != '"' && s[0] >= ' ' && RfcBody(s[1..])
  }

  ghost predicate RfcScalar(kind: Kind, raw: string) {
    match kind
    case DjString => RfcBody(raw)
    case DjNumber => exists n :: RfcNumber(n) && raw == NumberText(n)
    case _ => LaxScalar(kind, raw)
  }

  // Sections 2 to 5: blanks, arrays, objects and the literal names.
  ghost predicate Rfc(t: Text) {
    Blanks(t.ws) &&
    match t
    case Scalar(ws, kind, raw) => RfcScalar(kind, raw)
    case Blank(ws, kind, inner) => (kind == DjObject || kind == DjArray) && Blanks(inner)
    case List(ws, kind, rows) => (kind == DjObject || kind == DjArray) && RfcRows(rows, kind)
  }

  ghost predicate RfcRows(r: Rows, kind: Kind) {
    (r.key.Some? <==> kind == DjObject) &&
    (r.key.Some? ==> Blanks(r.key.value.ws) && RfcBody(r.key.value.raw) && Blanks(r.key.value.after)) &&
    Rfc(r.value) && Blanks(r.after) && (r.More? ==> RfcRows(r.rest, kind))
  }

  // One member whose value is an empty array, for example.
  function ExampleRows(): Rows { Last(Some(Key("", "a", "")), Blank(" ", DjArray, ""), "") }

  lemma RfcTextExample()
    ensures Rfc(List("", DjObject, ExampleRows())) && Print(List("", DjObject, ExampleRows())) == "{\"a\": []}"
  {
    ExamplePrint();
    hide PrintRows, PrintKey, RowEnd;
    assert "" + (['{'] + "\"a\": []}") == "{\"a\": []}";
    assert RfcBody("a") by { assert "a"[1..] == ""; }
    assert Rfc(ExampleRows().value);
  }

  lemma ExamplePrint()
    ensures PrintRows(ExampleRows(), DjObject) == "\"a\": []}"
  {
    hide Rfc, RfcBody, RfcRows;
    assert Print(ExampleRows().value) == " []";
    assert PrintKey(ExampleRows().key) == "\"a\":";
  }

  lemma {:induction false} RfcBodyIsLax(s: string)
    requires RfcBody(s)
    ensures LaxBody(s)
    decreases |s|
  {
    if s == "" {
    } else if s[0] == '\\' && s[1] == 'u' {
      RfcBodyIsLax(s[6..]);
      assert s[2..][1..] == s[3..] && s[3..][1..] == s[4..] && s[4..][1..] == s[5..] && s[5..][1..] == s[6..];
      assert LaxBody(s[5..]) && LaxBody(s[4..]) && LaxBody(s[3..]);
    } else if s[0] == '\\' {
      RfcBodyIsLax(s[2..]);
    } else {
      RfcBodyIsLax(s[1..]);
    }
  }

  lemma RfcNumberIsLax(n: Number)
    requires RfcNumber(n)
    ensures LaxNumber(NumberText(n))
  {
  }

  lemma {:induction false} RfcIsLax(t: Text)
    requires Rfc(t)
    ensures Lax(t)
    decreases t
  {
    match t
    case Scalar(ws, kind, raw) =>
      if kind == DjString {
        RfcBodyIsLax(raw);
      } else if kind == DjNumber {
        var n :| RfcNumber(n) && raw == NumberText(n);
        RfcNumberIsLax(n);
      }
    case Blank(ws, kind, inner) =>
    case List(ws, kind, rows) => RfcRowsAreLax(rows, kind);
  }

  lemma {:induction false} RfcRowsAreLax(r: Rows, kind: Kind)
    requires RfcRows(r, kind)
    ensures LaxRows(r, kind)
    decreases r
  {
    if r.key.Some? {
      RfcBodyIsLax(r.key.value.raw);
    }
    RfcIsLax(r.value);
    if r.More? {
      RfcRowsAreLax(r.rest, kind);
    }
  }

  // Every text of RFC 8259, with blanks around its value, parses to its own tree, one token per node.
  lemma RfcAccepted(t: Text, blanks: string)
    requires Rfc(t) && Blanks(blanks)
    ensures var v := ValueAt(Print(t) + blanks, 0);
      v == Some(Parsed(TreeOf(t, 0), |Print(t)|)) && Count(v.value.it) == Nodes(t)
  {
    var js := Print(t) + blanks;
    assert js[..|Print(t)|] == Print(t);
    RfcIsLax(t);
    ValueComplete(js, 0, t);
    NodesAreCounted(t, 0);
  }

  // The tokenizer takes more than RFC 8259: it only collects the characters of a number.
  lemma LaxNumberExample()
    ensures ValueAt("+-", 0).Some?
  {
  }
}
