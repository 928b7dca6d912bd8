/** IMAP command text (section 4 of RFC 3501), written and split. */
module ImapText {
  import opened Options

  /** An argument: a string, or a parenthesized list of arguments. */
  datatype Tree = Leaf(text: string) | List(items: seq<Tree>)

  // ---------- Writing ----------

  predicate Eol(c: char) { c == '\r' || c == '\n' }

  predicate EightBit(c: char) { '\U{80}' <= c <= '\U{FF}' }

  /** A character that may not stand in an atom. */
  predicate Special(c: char) {
    c in "(){ *%\"\\]" || c <= '\U{1F}'
  }

  predicate Bare(s: string) {
    s != "" && forall i :: 0 <= i < |s| ==> !Special(s[i])
  }

  predicate Quotable(s: string) {
    forall i :: 0 <= i < |s| ==> !Eol(s[i]) && !EightBit(s[i])
  }

  function Escape(s: string): string {
    if s == "" then ""
    else (if s[0] == '\\' || s[0] == '"' then ['\\', s[0]] else [s[0]]) + Escape(s[1..])
  }

  function Digit(d: nat): char
    requires d < 10
  {
    '0' + d as char
  }

  function Decimal(n: nat): string {
    if n < 10 then [Digit(n)] else Decimal(n / 10) + [Digit(n % 10)]
  }

  function EncodeBinary(s: string): string {
    "{" + Decimal(|s|) + "}\r\n" + s
  }

  function EncodeString(s: string): string {
    if s == "" then "\"\""
    else if Quotable(s) then "\"" + Escape(s) + "\""
    else EncodeBinary(s)
  }

  function EncodeToken(s: string): string {
    if s == "" then EncodeString(s)
    else if Bare(s) then s
    else EncodeString(s)
  }

  /** How a string is written: as it is, if it could be an atom; else in quotes, if it has no line ends and no eight-bit
      characters; else as a literal. */
  lemma {:induction false} WrittenAs(s: string)
    ensures EncodeToken(s)
         == if s != "" && forall i :: 0 <= i < |s| ==>
                s[i] > '\U{1F}' && s[i] !in ['(', ')', '{', ' ', '*', '%', '"', '\\', ']']
            then s
            else if forall i :: 0 <= i < |s| ==> s[i] != '\r' && s[i] != '\n' && !('\U{80}' <= s[i] <= '\U{FF}')
            then "\"" + Escape(s) + "\""
            else "{" + Decimal(|s|) + "}\r\n" + s
  {
  }

  /** In quotes, a quote or a backslash gets a backslash ahead of it. */
  lemma {:induction false} EscapedParts(s: string, c: char, t: string)
    ensures Escape(s + [c] + t) == Escape(s) + (if c in ['"', '\\'] then ['\\', c] else [c]) + Escape(t)
    ensures Escape("") == ""
  {
    if s == "" {
      assert (s + [c] + t)[1..] == t;
    } else {
      assert (s + [c] + t)[1..] == s[1..] + [c] + t;
      EscapedParts(s[1..], c, t);
    }
  }

  function PrintTree(t: Tree): string
    decreases t, 2
  {
    match t
    case Leaf(s) => EncodeToken(s)
    case List(_) => "(" + PrintFrom(t, 0) + ")"
  }

  /** The items from number i on, with spaces between them. */
  function PrintFrom(t: Tree, i: nat): string
    requires t.List? && i <= |t.items|
    decreases t, 1, |t.items| - i
  {
    if i == |t.items| then ""
    else PrintTree(t.items[i]) + (if i + 1 < |t.items| then " " else "") + PrintFrom(t, i + 1)
  }

  function Print(ts: seq<Tree>): string {
    PrintFrom(List(ts), 0)
  }

  // ---------- Reading ----------

  /** Where text breaks at its first line feed. */
  function LineEnd(text: string): (n: nat)
    ensures n <= |text| && (n < |text| ==> text[n] == '\n') && forall i :: 0 <= i < n ==> text[i] != '\n'
  {
    if text == "" || text[0] == '\n' then 0 else 1 + LineEnd(text[1..])
  }

  /** The line received first, without its line end. */
  function FirstLine(text: string): (line: string)
    ensures |line| <= LineEnd(text)
  {
    CutReturn(text, LineEnd(text))
  }

  /** The first n characters, but for a carriage return at their end. */
  function CutReturn(text: string, n: nat): (line: string)
    requires n <= |text|
    ensures |line| <= n
  {
    if n > 0 && text[n - 1] == '\r' then text[..n - 1] else text[..n]
  }

  function AfterLine(text: string): string {
    var n := LineEnd(text);
    if n < |text| then text[n + 1..] else ""
  }

  function AtomLen(line: string): (n: nat)
    ensures n <= |line|
  {
    if line == "" || line[0] == ')' || line[0] == ' ' then 0 else 1 + AtomLen(line[1..])
  }

  /** The line behind an atom; a space right behind it goes with it. */
  function BehindAtom(line: string): string {
    var n := AtomLen(line);
    if n < |line| && line[n] == ' ' then line[n + 1..] else line[n..]
  }

  function QuoteLen(line: string): (n: nat)
    ensures n <= |line|
  {
    if line == "" || line[0] == '"' then 0 else 1 + QuoteLen(line[1..])
  }

  function Behind(line: string, n: nat): string
    requires n <= |line|
  {
    if n < |line| then line[n + 1..] else ""
  }

  predicate IsDigits(s: string) {
    s != "" && forall i :: 0 <= i < |s| ==> '0' <= s[i] <= '9'
  }

  /** The line is nothing but a literal's length in braces. */
  predicate IsLiteral(line: string) {
    |line| > 2 && line[0] == '{' && line[|line| - 1] == '}' && IsDigits(line[1..|line| - 1])
  }

  function ParseInt(s: string): nat
    requires forall i :: 0 <= i < |s| ==> '0' <= s[i] <= '9'
  {
    if s == "" then 0 else 10 * ParseInt(s[..|s| - 1]) + (s[|s| - 1] - '0') as nat
  }

  /** Decimal numbers read as what they were written for. */
  lemma {:induction false} DecimalMeaning(n: nat)
    ensures IsDigits(Decimal(n)) && ParseInt(Decimal(n)) == n
  {
    if n < 10 {
      assert Decimal(n)[..0] == "";
    } else {
      DecimalMeaning(n / 10);
      var d := Decimal(n / 10);
      assert (d + [Digit(n % 10)])[..|d|] == d;
    }
  }

  datatype Parsed = Parsed(args: seq<Tree>, line: string, stream: string)

  function Push(t: Tree, rest: Option<Parsed>): Option<Parsed> {
    if rest.None? then None else Some(rest.value.(args := [t] + rest.value.args))
  }

  /** The literal's characters, and the line and stream after it; none if they do not arrive. */
  function Literal(line: string, stream: string): (r: Option<Parsed>)
    ensures r.Some? ==> |r.value.args| == 1 && |r.value.line| + |r.value.stream| < |line| + |stream|
  {
    if !IsLiteral(line) then None
    else
      var n := ParseInt(line[1..|line| - 1]);
      if n > |stream| || LineEnd(stream[n..]) == |stream| - n then None
      else Some(Parsed([Leaf(stream[..n])], FirstLine(stream[n..]), AfterLine(stream[n..])))
  }

  /** The arguments up to a closing parenthesis or the end of the line; stream is what the client sends next. */
  function ParseLine(line: string, stream: string): (r: Option<Parsed>)
    ensures r.Some? ==> |r.value.line| + |r.value.stream| <= |line| + |stream|
    decreases |line| + |stream|
  {
    if line == "" then Some(Parsed([], line, stream))
    else if line[0] == '"' then
      var n := QuoteLen(line[1..]);
      Push(Leaf(line[1..][..n]), ParseLine(Behind(line[1..], n), stream))
    else if line[0] == ')' then Some(Parsed([], line[1..], stream))
    else if line[0] == '(' then
      var sub := ParseLine(line[1..], stream);
      if sub.None? then None else Push(List(sub.value.args), ParseLine(sub.value.line, sub.value.stream))
    else if line[0] == '{' then
      var lit := Literal(line, stream);
      if lit.None? then None else Push(lit.value.args[0], ParseLine(lit.value.line, lit.value.stream))
    else if line[0] == ' ' then ParseLine(line[1..], stream)
    else
      var n := AtomLen(line);
      Push(Leaf(line[..n]), ParseLine(BehindAtom(line), stream))
  }

  function PushAll(ts: seq<Tree>, rest: Option<Parsed>): Option<Parsed> {
    if rest.None? then None else Some(rest.value.(args := ts + rest.value.args))
  }

  lemma {:induction false} PushNone(r: Option<Parsed>)
    ensures PushAll([], r) == r
  {
    if r.Some? { assert [] + r.value.args == r.value.args; }
  }

  lemma {:induction false} PushOne(t: Tree, ts: seq<Tree>, rest: Option<Parsed>)
    ensures Push(t, PushAll(ts, rest)) == PushAll([t] + ts, rest)
  {
    if rest.Some? { assert [t] + (ts + rest.value.args) == [t] + ts + rest.value.args; }
  }

  /** A command line being taken apart; stream is what the client sends after it. */
  class Reader {
    var line: string
    var stream: string

    constructor (line: string, stream: string)
      ensures this.line == line && this.stream == stream
    {
      this.line, this.stream := line, stream;
    }

    method ParseAtom() returns (ret: string)
      modifies this`line
      ensures var n := AtomLen(old(line)); ret == old(line)[..n] && line == BehindAtom(old(line))
    {
      ret := "";
      ghost var text, k := line, 0;
      assert text[..0] == "" && text[0..] == text;
      while |line| > 0
        invariant k <= |text| && ret == text[..k] && line == text[k..]
        invariant AtomLen(text) == k + AtomLen(line) && BehindAtom(text) == BehindAtom(line)
        decreases |line|
      {
        AtomCases(line);
        NextChar(text, k);
        hide AtomLen, BehindAtom;
        match line[0] {
          case ')' => return;
          case ' ' => line := line[1..]; return;
          case _ => ret, line := ret + [line[0]], line[1..]; k := k + 1;
        }
      }
    }

    method ParseQuotedString() returns (ret: string)
      requires line != ""
      modifies this`line
      ensures var n := QuoteLen(old(line)[1..]);
              ret == old(line)[1..][..n] && line == Behind(old(line)[1..], n)
    {
      ret := "";
      line := line[1..];
      ghost var text, k := line, 0;
      assert text[..0] == "" && text[0..] == text;
      while |line| > 0
        invariant k <= |text| && ret == text[..k] && line == text[k..] && QuoteLen(text) == k + QuoteLen(line)
        decreases |line|
      {
        QuoteCases(line);
        NextChar(text, k);
        hide QuoteLen;
        match line[0] {
          case '"' => line := line[1..]; return;
          case _ => ret, line := ret + [line[0]], line[1..]; k := k + 1;
        }
      }
    }

    /** Asks the client for a literal's characters, and then for the rest of the line. */
    method ParseString() returns (ret: Option<string>)
      modifies this
      ensures var r := Literal(old(line), old(stream));
              && (ret.Some? <==> r.Some?)
              && (r.Some? ==> r.value == Parsed([Leaf(ret.value)], line, stream))
    {
      if !IsLiteral(line) { return None; }
      var n := ParseInt(line[1..|line| - 1]);
      if n > |stream| || LineEnd(stream[n..]) == |stream| - n { return None; }
      ret := Some(stream[..n]);
      stream := stream[n..];
      line, stream := FirstLine(stream), AfterLine(stream);
    }

    /** The loop of `parse_line`. */
    method ReadArgs() returns (args: Option<seq<Tree>>)
      modifies this
      ensures var r := ParseLine(old(line), old(stream));
              && (args.Some? <==> r.Some?)
              && (r.Some? ==> r.value == Parsed(args.value, line, stream))
      decreases |line| + |stream|, 1
    {
      hide ParseLine, Push, PushAll;
      var acc: seq<Tree> := [];
      PushNone(ParseLine(line, stream));
      while |line| > 0
        invariant |line| + |stream| <= |old(line)| + |old(stream)|
        invariant ParseLine(old(line), old(stream)) == PushAll(acc, ParseLine(line, stream))
        decreases |line| + |stream|
      {
        var item := ReadItem();
        PushItem(acc, item, line, stream);
        match item {
          case Argument(t) => acc := acc + [t];
          case Nothing =>
          case Closed => return Some(acc);
          case Failed => return None;
        }
      }
      AtLineEnd(stream);
      PushLast(acc, line, stream);
      return Some(acc);
    }

    /** The body of that loop. */
    method ReadItem() returns (item: Item)
      requires line != ""
      modifies this
      ensures ParseLine(old(line), old(stream)) == WithItem(item, line, stream)
      ensures item.Argument? || item.Nothing? ==> |line| + |stream| < |old(line)| + |old(stream)|
      decreases |line| + |stream|, 0
    {
      hide ParseLine, Literal, AtomLen, QuoteLen, BehindAtom, Behind;
      ItemCases(line, stream);
      match line[0] {
        case '"' =>
          var text := ParseQuotedString();
          return Argument(Leaf(text));
        case ')' =>
          line := line[1..];
          return Closed;
        case '(' =>
          line := line[1..];
          ReadShrinks(line, stream);
          var sub := ReadArgs();
          return if sub.None? then Failed else Argument(List(sub.value));
        case '{' =>
          var text := ParseString();
          return if text.None? then Failed else Argument(Leaf(text.value));
        case ' ' =>
          line := line[1..];
          return Nothing;
        case _ =>
          var text := ParseAtom();
          return Argument(Leaf(text));
      }
    }
  }

  /** What one round of the loop finds: an argument, a space, the end of the list, or a literal that does not arrive. */
  datatype Item = Argument(t: Tree) | Nothing | Closed | Failed

  /** What is read in all, if an item was found and the given line and stream are left. */
  function WithItem(item: Item, line: string, stream: string): Option<Parsed> {
    match item
    case Argument(t) => Push(t, ParseLine(line, stream))
    case Nothing => ParseLine(line, stream)
    case Closed => Some(Parsed([], line, stream))
    case Failed => None
  }

  lemma {:induction false} ItemCases(line: string, stream: string)
    requires line != ""
    ensures line[0] == '"' ==>
      var n := QuoteLen(line[1..]);
      ParseLine(line, stream) == Push(Leaf(line[1..][..n]), ParseLine(Behind(line[1..], n), stream))
        && |Behind(line[1..], n)| < |line|
    ensures line[0] == ')' ==> ParseLine(line, stream) == Some(Parsed([], line[1..], stream))
    ensures line[0] == '(' ==>
      var sub := ParseLine(line[1..], stream);
      ParseLine(line, stream)
           == if sub.None? then None else Push(List(sub.value.args), ParseLine(sub.value.line, sub.value.stream))
    ensures line[0] == '{' ==>
      var lit := Literal(line, stream);
      && ParseLine(line, stream)
         == (if lit.None? then None else Push(lit.value.args[0], ParseLine(lit.value.line, lit.value.stream)))
      && (lit.Some? ==> |lit.value.line| + |lit.value.stream| < |line| + |stream|)
    ensures line[0] == ' ' ==> ParseLine(line, stream) == ParseLine(line[1..], stream)
    ensures line[0] !in "\")({ " ==>
      var n := AtomLen(line);
      ParseLine(line, stream) == Push(Leaf(line[..n]), ParseLine(BehindAtom(line), stream))
        && |BehindAtom(line)| < |line|
  {
    hide Literal, Push;
  }

  lemma {:induction false} ReadShrinks(line: string, stream: string)
    ensures var r := ParseLine(line, stream); r.Some? ==> |r.value.line| + |r.value.stream| <= |line| + |stream|
  {
  }

  lemma {:induction false} AtLineEnd(stream: string)
    ensures ParseLine("", stream) == Some(Parsed([], "", stream))
  {
  }

  lemma {:induction false} PushItem(acc: seq<Tree>, item: Item, line: string, stream: string)
    ensures item.Argument? ==>
      PushAll(acc, WithItem(item, line, stream)) == PushAll(acc + [item.t], ParseLine(line, stream))
    ensures item.Nothing? ==> WithItem(item, line, stream) == ParseLine(line, stream)
    ensures item.Closed? ==> PushAll(acc, WithItem(item, line, stream)) == Some(Parsed(acc, line, stream))
    ensures item.Failed? ==> PushAll(acc, WithItem(item, line, stream)) == None
  {
    hide ParseLine;
    if item.Argument? { PushOnto(acc, item.t, ParseLine(line, stream)); }
    if item.Closed? { PushLast(acc, line, stream); }
  }

  lemma {:induction false} NextChar(text: string, k: nat)
    requires k < |text|
    ensures text[k..][0] == text[k] && text[k..][1..] == text[k + 1..] && text[..k] + [text[k]] == text[..k + 1]
  {
  }

  lemma {:induction false} AtomCases(line: string)
    requires line != ""
    ensures line[0] == ')' ==> AtomLen(line) == 0 && BehindAtom(line) == line
    ensures line[0] == ' ' ==> AtomLen(line) == 0 && BehindAtom(line) == line[1..]
    ensures line[0] != ')' && line[0] != ' ' ==>
      AtomLen(line) == 1 + AtomLen(line[1..]) && BehindAtom(line) == BehindAtom(line[1..])
  {
    if line[0] != ')' && line[0] != ' ' {
      var n, rest := AtomLen(line[1..]), line[1..];
      assert line[n + 1..] == rest[n..];
      if n < |rest| { assert line[n + 2..] == rest[n + 1..] && line[n + 1] == rest[n]; }
      hide AtomLen;
    }
  }

  lemma {:induction false} QuoteCases(line: string)
    requires line != ""
    ensures line[0] == '"' ==> QuoteLen(line) == 0
    ensures line[0] != '"' ==> QuoteLen(line) == 1 + QuoteLen(line[1..])
  {
  }

  lemma {:induction false} PushOnto(acc: seq<Tree>, t: Tree, rest: Option<Parsed>)
    ensures PushAll(acc, Push(t, rest)) == PushAll(acc + [t], rest)
  {
    if rest.Some? { assert acc + ([t] + rest.value.args) == acc + [t] + rest.value.args; }
  }

  lemma {:induction false} PushLast(acc: seq<Tree>, line: string, stream: string)
    ensures PushAll(acc, Some(Parsed([], line, stream))) == Some(Parsed(acc, line, stream))
  {
    assert acc + [] == acc;
  }
}
