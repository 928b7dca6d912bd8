/** What the IMAP encoders write comes back from the line parser. */
module ImapRoundTrip {
  import opened Options
  import opened ImapText

  // ---------- Which arguments come back ----------

  predicate Plain(s: string) {
    forall i :: 0 <= i < |s| ==> s[i] != '"' && s[i] != '\\'
  }

  /** Only a quoted string is read back wrongly: the reader does not take the backslashes out again. */
  predicate GoodText(s: string) {
    s == "" || Bare(s) || !Quotable(s) || Plain(s)
  }

  predicate Good(t: Tree) {
    match t
    case Leaf(s) => GoodText(s)
    case List(items) => forall i :: 0 <= i < |items| ==> Good(items[i])
  }

  /** Reading from where the client's text begins. */
  function ReadAt(text: string): Option<Parsed> {
    ParseLine(FirstLine(text), AfterLine(text))
  }

  predicate HasLine(text: string) {
    LineEnd(text) < |text|
  }

  /** An argument ends here. */
  predicate Ends(text: string) {
    HasLine(text) && (text[0] == ' ' || text[0] == ')' || FirstLine(text) == "")
  }

  function SkipSpace(text: string): string {
    if text != "" && text[0] == ' ' then text[1..] else text
  }

  // ---------- Lines ----------

  predicate NoEol(x: string) {
    forall i :: 0 <= i < |x| ==> !Eol(x[i])
  }

  lemma {:induction false} LineEndBehind(x: string, rest: string)
    requires NoEol(x)
    ensures LineEnd(x + rest) == |x| + LineEnd(rest)
  {
    if x == "" {
      assert x + rest == rest;
    } else {
      LineEndBehind(x[1..], rest);
      assert (x + rest)[1..] == x[1..] + rest;
    }
  }

  lemma {:induction false} LineBehind(x: string, rest: string)
    requires NoEol(x) && HasLine(rest)
    ensures HasLine(x + rest) && FirstLine(x + rest) == x + FirstLine(rest) && AfterLine(x + rest) == AfterLine(rest)
  {
    LineEndBehind(x, rest);
    hide LineEnd, CutReturn, NoEol;
    assert (x + rest)[|x| + LineEnd(rest) + 1..] == rest[LineEnd(rest) + 1..];
  }

  lemma {:induction false} LineOf(x: string, rest: string)
    requires NoEol(x)
    ensures FirstLine(x + "\r\n" + rest) == x && AfterLine(x + "\r\n" + rest) == rest && HasLine(x + "\r\n" + rest)
  {
    var tail := "\r\n" + rest;
    assert x + "\r\n" + rest == x + tail;
    assert tail[1..] == "\n" + rest;
    assert LineEnd(tail) == 1;
    LineBehind(x, tail);
  }

  // ---------- Strings ----------

  lemma {:induction false} AtomLenBehind(x: string, rest: string)
    requires forall i :: 0 <= i < |x| ==> x[i] != ')' && x[i] != ' '
    ensures AtomLen(x + rest) == |x| + AtomLen(rest)
  {
    if x == "" {
      assert x + rest == rest;
    } else {
      AtomLenBehind(x[1..], rest);
      assert (x + rest)[1..] == x[1..] + rest;
    }
  }

  lemma {:induction false} QuoteLenBehind(x: string, rest: string)
    requires forall i :: 0 <= i < |x| ==> x[i] != '"'
    ensures QuoteLen(x + rest) == |x| + QuoteLen(rest)
  {
    if x == "" {
      assert x + rest == rest;
    } else {
      QuoteLenBehind(x[1..], rest);
      assert (x + rest)[1..] == x[1..] + rest;
    }
  }

  lemma {:induction false} QuoteLenMeaning(x: string)
    ensures forall i :: 0 <= i < QuoteLen(x) ==> x[i] != '"'
    ensures QuoteLen(x) < |x| ==> x[QuoteLen(x)] == '"'
  {
    if x != "" && x[0] != '"' {
      QuoteLenMeaning(x[1..]);
      forall i | 0 <= i < QuoteLen(x) ensures x[i] != '"' { if i > 0 { assert x[i] == x[1..][i - 1]; } }
    }
  }

  lemma {:induction false} EscapeMeaning(s: string)
    ensures Quotable(s) ==> NoEol(Escape(s))
    ensures Plain(s) ==> Escape(s) == s
    ensures |Escape(s)| >= |s| && (!Plain(s) ==> |Escape(s)| > |s|)
  {
    if s != "" {
      EscapeMeaning(s[1..]);
      assert s == [s[0]] + s[1..];
      if Plain(s) { assert forall i :: 0 <= i < |s[1..]| ==> s[1..][i] == s[i + 1]; }
      if Quotable(s) {
        assert !Eol(s[0]);
        assert forall i :: 0 <= i < |s[1..]| ==> s[1..][i] == s[i + 1];
      }
      if Plain(s[1..]) && s[0] != '"' && s[0] != '\\' {
        forall i | 0 <= i < |s| ensures s[i] != '"' && s[i] != '\\' { if i > 0 { assert s[i] == s[1..][i - 1]; } }
      }
    }
  }

  lemma {:induction false} EscapeNoQuote(s: string)
    requires forall i :: 0 <= i < |s| ==> s[i] != '"'
    ensures forall i :: 0 <= i < |Escape(s)| ==> Escape(s)[i] != '"'
  {
    if s != "" {
      assert forall i :: 0 <= i < |s[1..]| ==> s[1..][i] == s[i + 1];
      EscapeNoQuote(s[1..]);
    }
  }

  /** Up to its first double quote the escaped text is the string itself only if nothing was escaped. */
  lemma {:induction false} QuotedText(s: string, rest: string)
    ensures var inner := Escape(s) + ("\"" + rest);
            inner[..QuoteLen(inner)] == s <==> Plain(s)
    ensures Plain(s) ==> Behind(Escape(s) + ("\"" + rest), QuoteLen(Escape(s) + ("\"" + rest))) == rest
  {
    var e, tail := Escape(s), "\"" + rest;
    EscapeMeaning(s);
    if Plain(s) {
      QuoteLenBehind(s, tail);
    } else {
      QuoteLenMeaning(e + tail);
      if forall i :: 0 <= i < |s| ==> s[i] != '"' {
        EscapeNoQuote(s);
        QuoteLenBehind(e, tail);
      }
    }
  }

  /** What the reader makes of a quoted string. */
  lemma {:induction false} ReadQuoted(s: string, rest: string)
    requires Quotable(s) && HasLine(rest)
    ensures Plain(s) ==> ReadAt("\"" + Escape(s) + "\"" + rest) == Push(Leaf(s), ReadAt(rest))
    ensures !Plain(s) ==> WrongFirst(ReadAt("\"" + Escape(s) + "\"" + rest), Leaf(s))
  {
    hide *;
    var inner := Escape(s) + ("\"" + FirstLine(rest));
    QuotedLine(s, rest);
    QuotedFirst(inner, AfterLine(rest));
    QuotedText(s, FirstLine(rest));
    ReadIs("\"" + Escape(s) + "\"" + rest);
    ReadIs(rest);
    PushedFirst(inner[..QuoteLen(inner)], ParseLine(Behind(inner, QuoteLen(inner)), AfterLine(rest)), s);
  }

  lemma {:induction false} ReadIs(text: string)
    ensures ReadAt(text) == ParseLine(FirstLine(text), AfterLine(text))
  {
  }

  lemma {:induction false} PushedFirst(x: string, more: Option<Parsed>, s: string)
    ensures x != s ==> WrongFirst(Push(Leaf(x), more), Leaf(s))
  {
  }

  lemma {:induction false} QuotedLine(s: string, rest: string)
    requires Quotable(s) && HasLine(rest)
    ensures FirstLine("\"" + Escape(s) + "\"" + rest) == ['"'] + (Escape(s) + ("\"" + FirstLine(rest)))
    ensures AfterLine("\"" + Escape(s) + "\"" + rest) == AfterLine(rest)
  {
    EscapeMeaning(s);
    hide Escape, FirstLine, AfterLine, Quotable;
    LineBehind("\"" + Escape(s) + "\"", rest);
    assert "\"" + Escape(s) + "\"" + FirstLine(rest) == ['"'] + (Escape(s) + ("\"" + FirstLine(rest)));
  }

  lemma {:induction false} QuotedFirst(body: string, stream: string)
    ensures var n := QuoteLen(body);
      ParseLine(['"'] + body, stream) == Push(Leaf(body[..n]), ParseLine(Behind(body, n), stream))
  {
    ItemCases(['"'] + body, stream);
    assert (['"'] + body)[1..] == body;
    hide ParseLine;
  }

  /** There are no arguments, or the first one is not t. */
  predicate WrongFirst(r: Option<Parsed>, t: Tree) {
    r.Some? ==> r.value.args == [] || r.value.args[0] != t
  }

  predicate EndsLine(line: string) {
    line == "" || line[0] == ' ' || line[0] == ')'
  }

  lemma {:induction false} ParseBare(s: string, line: string, stream: string)
    requires Bare(s) && EndsLine(line)
    ensures ParseLine(s + line, stream) == Push(Leaf(s), ParseLine(SkipSpace(line), stream))
  {
    forall i | 0 <= i < |s| ensures s[i] != ')' && s[i] != ' ' { assert !Special(s[i]); }
    AtomLenBehind(s, line);
    assert !Special(s[0]);
    assert s[0] !in "(\"{) ";
    assert (s + line)[..|s|] == s && (s + line)[|s|..] == line;
    if line != "" && line[0] == ' ' { assert (s + line)[|s| + 1..] == line[1..]; }
  }

  lemma {:induction false} EndOfLine(rest: string)
    requires Ends(rest)
    ensures EndsLine(FirstLine(rest)) && AfterLine(SkipSpace(rest)) == AfterLine(rest)
    ensures FirstLine(SkipSpace(rest)) == SkipSpace(FirstLine(rest)) && HasLine(SkipSpace(rest))
  {
    if rest[0] == ' ' || rest[0] == ')' {
      assert LineEnd(rest) == 1 + LineEnd(rest[1..]);
      LineBehind(rest[..1], rest[1..]);
      assert rest[..1] + rest[1..] == rest;
    }
  }

  lemma {:induction false} ReadBare(s: string, rest: string)
    requires Bare(s) && Ends(rest)
    ensures ReadAt(s + rest) == Push(Leaf(s), ReadAt(SkipSpace(rest)))
  {
    assert NoEol(s) by {
      forall i | 0 <= i < |s| ensures !Eol(s[i]) { assert !Special(s[i]); }
    }
    hide Bare, NoEol, FirstLine, AfterLine, ParseLine, SkipSpace;
    LineBehind(s, rest);
    EndOfLine(rest);
    ParseBare(s, FirstLine(rest), AfterLine(rest));
  }

  // ---------- Literals ----------

  lemma {:induction false} ParseLiteral(s: string, rest: string)
    requires HasLine(rest)
    ensures ParseLine("{" + Decimal(|s|) + "}", s + rest) == Push(Leaf(s), ReadAt(rest))
  {
    var d := Decimal(|s|);
    var line := "{" + d + "}";
    DecimalMeaning(|s|);
    assert line[1..|line| - 1] == d && line[0] == '{' && |line| > 2;
    assert (s + rest)[..|s|] == s && (s + rest)[|s|..] == rest;
    hide Decimal, ParseInt, FirstLine, AfterLine;
    assert Literal(line, s + rest) == Some(Parsed([Leaf(s)], FirstLine(rest), AfterLine(rest)));
  }

  lemma {:induction false} ReadLiteral(s: string, rest: string)
    requires HasLine(rest)
    ensures ReadAt(EncodeBinary(s) + rest) == Push(Leaf(s), ReadAt(rest))
  {
    var line := "{" + Decimal(|s|) + "}";
    DecimalMeaning(|s|);
    LineOf(line, s + rest);
    assert EncodeBinary(s) + rest == line + "\r\n" + (s + rest);
    hide Decimal, ParseLine, FirstLine, AfterLine;
    ParseLiteral(s, rest);
  }

  // ---------- Arguments ----------

  lemma {:induction false} ReadSkipSpace(rest: string)
    requires HasLine(rest)
    ensures HasLine(SkipSpace(rest)) && ReadAt(SkipSpace(rest)) == ReadAt(rest)
  {
    if rest[0] == ' ' {
      assert LineEnd(rest) == 1 + LineEnd(rest[1..]);
      LineBehind(" ", rest[1..]);
      assert " " + rest[1..] == rest;
    }
  }

  lemma {:induction false} ReadToken(s: string, rest: string)
    requires Ends(rest)
    ensures GoodText(s) ==> ReadAt(EncodeToken(s) + rest) == Push(Leaf(s), ReadAt(SkipSpace(rest)))
    ensures !GoodText(s) ==> WrongFirst(ReadAt(EncodeToken(s) + rest), Leaf(s))
  {
    ReadSkipSpace(rest);
    assert HasLine(rest);
    if s == "" { EmptyString(); }
    hide *;
    if s == "" {
      ReadQuoted("", rest);
    } else if Bare(s) {
      ReadBare(s, rest);
    } else if Quotable(s) {
      ReadQuoted(s, rest);
    } else {
      ReadLiteral(s, rest);
    }
  }

  lemma {:induction false} EmptyString()
    ensures Quotable("") && Plain("") && GoodText("") && EncodeToken("") == "\"" + Escape("") + "\""
  {
  }

  /** The argument t is read properly, or not at all or wrongly, before some further text. */
  predicate Reads(t: Tree, rest: string) {
    && (Good(t) ==> ReadAt(PrintTree(t) + rest) == Push(t, ReadAt(SkipSpace(rest))))
    && (!Good(t) ==> WrongFirst(ReadAt(PrintTree(t) + rest), t))
  }

  predicate GoodFrom(t: Tree, i: nat)
    requires t.List? && i <= |t.items|
  {
    forall j :: i <= j < |t.items| ==> Good(t.items[j])
  }

  predicate WrongArgs(r: Option<Parsed>, ts: seq<Tree>) {
    r.Some? ==> r.value.args != ts
  }

  /** A list's items end here. */
  predicate Closes(rest: string) {
    HasLine(rest) && (rest[0] == ')' || FirstLine(rest) == "")
  }

  lemma {:induction false} ReadTree(t: Tree, rest: string)
    requires Ends(rest)
    ensures Reads(t, rest)
    decreases t, 2
  {
    match t
    case Leaf(s) => ReadToken(s, rest);
    case List(items) =>
      var close := ")" + rest;
      CloseParen(rest);
      ReadFrom(t, 0, close);
      hide *;
      ReadList(t, rest);
  }

  /** The items were read properly, or not, up to the text rest. */
  predicate ReadsFrom(t: Tree, i: nat, rest: string)
    requires t.List? && i <= |t.items|
  {
    && (GoodFrom(t, i) ==> ReadAt(PrintFrom(t, i) + rest) == PushAll(t.items[i..], ReadAt(rest)))
    && (!GoodFrom(t, i) ==> WrongArgs(ReadAt(PrintFrom(t, i) + rest), t.items[i..]))
  }

  lemma {:induction false} ReadList(t: Tree, rest: string)
    requires t.List? && Ends(rest) && ReadsFrom(t, 0, ")" + rest)
    requires ReadAt(")" + rest) == Some(Parsed([], FirstLine(rest), AfterLine(rest)))
    ensures Reads(t, rest)
  {
    var inner := PrintFrom(t, 0) + (")" + rest);
    ListText(t, rest);
    HasLineBehind(PrintFrom(t, 0), ")" + rest) by { HasLineBehind(")", rest); }
    OpenParen(inner);
    ReadSkipSpace(rest);
    UseReadsFrom(t, 0, ")" + rest);
    PushLast(t.items, FirstLine(rest), AfterLine(rest));
    hide PrintTree, PrintFrom, Good, GoodFrom, FirstLine, AfterLine, ParseLine, SkipSpace, HasLine, Ends, PushAll,
      ReadsFrom;
  }

  lemma {:induction false} ListText(t: Tree, rest: string)
    requires t.List?
    ensures PrintTree(t) + rest == "(" + (PrintFrom(t, 0) + (")" + rest))
    ensures t.items[0..] == t.items && (Good(t) <==> GoodFrom(t, 0))
  {
    hide PrintFrom;
  }

  lemma {:induction false} CloseParen(rest: string)
    requires HasLine(rest)
    ensures Closes(")" + rest) && ReadAt(")" + rest) == Some(Parsed([], FirstLine(rest), AfterLine(rest)))
  {
    LineBehind(")", rest);
  }

  lemma {:induction false} OpenParen(text: string)
    requires HasLine(text)
    ensures var sub := ReadAt(text);
            ReadAt("(" + text)
                 == if sub.None? then None else Push(List(sub.value.args), ParseLine(sub.value.line, sub.value.stream))
  {
    LineBehind("(", text);
  }

  lemma {:induction false} HasLineBehind(x: string, rest: string)
    requires HasLine(rest)
    ensures HasLine(x + rest)
  {
    var n := |x| + LineEnd(rest);
    assert (x + rest)[n] == '\n';
  }

  lemma {:induction false} ReadFrom(t: Tree, i: nat, rest: string)
    requires t.List? && i <= |t.items| && Closes(rest)
    ensures ReadsFrom(t, i, rest)
    decreases t, 1, |t.items| - i
  {
    hide *;
    if i == |t.items| {
      NoItems(t, rest);
    } else {
      ReadFrom(t, i + 1, rest);
      SeparatedEnds(t, i, rest);
      ReadTree(t.items[i], Separated(t, i, rest));
      ReadItem(t, i, rest);
    }
  }

  lemma {:induction false} NoItems(t: Tree, rest: string)
    requires t.List?
    ensures ReadsFrom(t, |t.items|, rest)
  {
    NoItemsText(t, rest);
    PushNone(ReadAt(rest));
    hide *;
  }

  lemma {:induction false} NoItemsText(t: Tree, rest: string)
    requires t.List?
    ensures PrintFrom(t, |t.items|) + rest == rest && t.items[|t.items|..] == [] && GoodFrom(t, |t.items|)
  {
  }

  /** What follows item i. */
  function Separated(t: Tree, i: nat, rest: string): string
    requires t.List? && i < |t.items|
  {
    (if i + 1 < |t.items| then " " else "") + PrintFrom(t, i + 1) + rest
  }

  lemma {:induction false} SeparatedEnds(t: Tree, i: nat, rest: string)
    requires t.List? && i < |t.items| && Closes(rest)
    ensures Ends(Separated(t, i, rest)) && SkipSpace(Separated(t, i, rest)) == PrintFrom(t, i + 1) + rest
  {
    hide PrintTree, Ends, SkipSpace, Closes;
    var items := PrintFrom(t, i + 1);
    if i + 1 < |t.items| {
      MoreEnds(items, rest);
    } else {
      assert items == "" && Separated(t, i, rest) == rest == items + rest;
      LastEnds(rest);
    }
  }

  lemma {:induction false} MoreEnds(items: string, rest: string)
    requires Closes(rest)
    ensures var all := " " + items + rest; Ends(all) && SkipSpace(all) == items + rest
  {
    HasLineBehind(" " + items, rest);
    var all := " " + items + rest;
    assert all[0] == ' ' && all[1..] == items + rest;
  }

  lemma {:induction false} LastEnds(rest: string)
    requires Closes(rest)
    ensures Ends(rest) && SkipSpace(rest) == rest
  {
    assert rest[0] == ' ' ==> FirstLine(rest) != "";
  }

  lemma {:induction false} ReadItem(t: Tree, i: nat, rest: string)
    requires t.List? && i < |t.items| && ReadsFrom(t, i + 1, rest) && Reads(t.items[i], Separated(t, i, rest))
    requires SkipSpace(Separated(t, i, rest)) == PrintFrom(t, i + 1) + rest
    ensures ReadsFrom(t, i, rest)
  {
    ItemText(t, i, rest);
    hide *;
    Combine(t.items[i], t.items[i + 1..], Good(t.items[i]), GoodFrom(t, i + 1),
            ReadAt(PrintFrom(t, i) + rest), ReadAt(PrintFrom(t, i + 1) + rest), ReadAt(rest)) by {
      UseReadsFrom(t, i + 1, rest);
    }
  }

  lemma {:induction false} ItemText(t: Tree, i: nat, rest: string)
    requires t.List? && i < |t.items|
    ensures PrintFrom(t, i) + rest == PrintTree(t.items[i]) + Separated(t, i, rest)
    ensures t.items[i..] == [t.items[i]] + t.items[i + 1..]
    ensures GoodFrom(t, i) <==> Good(t.items[i]) && GoodFrom(t, i + 1)
  {
    hide PrintTree, Good;
    var sep := if i + 1 < |t.items| then " " else "";
    assert PrintFrom(t, i) == PrintTree(t.items[i]) + sep + PrintFrom(t, i + 1);
  }

  lemma {:induction false} UseReadsFrom(t: Tree, i: nat, rest: string)
    requires t.List? && i <= |t.items| && ReadsFrom(t, i, rest)
    ensures GoodFrom(t, i) ==> ReadAt(PrintFrom(t, i) + rest) == PushAll(t.items[i..], ReadAt(rest))
    ensures !GoodFrom(t, i) ==> WrongArgs(ReadAt(PrintFrom(t, i) + rest), t.items[i..])
  {
  }

  lemma {:induction false} Combine(
    t: Tree, ts: seq<Tree>, good: bool, goodRest: bool, all: Option<Parsed>, later: Option<Parsed>,
    rest: Option<Parsed>)
    requires good ==> all == Push(t, later)
    requires !good ==> WrongFirst(all, t)
    requires goodRest ==> later == PushAll(ts, rest)
    requires !goodRest ==> WrongArgs(later, ts)
    ensures good && goodRest ==> all == PushAll([t] + ts, rest)
    ensures !(good && goodRest) ==> WrongArgs(all, [t] + ts)
  {
    if good && goodRest {
      PushOne(t, ts, rest);
    } else if all.Some? {
      assert ([t] + ts)[0] == t && ([t] + ts)[1..] == ts;
      if good { assert ([t] + later.value.args)[1..] == later.value.args; }
    }
  }

  // ---------- A whole command ----------

  /** Arguments written on a line are read back, to the byte behind it, if and only if none of them
      is a quoted string with an escape in it. */
  lemma {:induction false} RoundTrip(ts: seq<Tree>, more: string)
    ensures ReadAt(Print(ts) + "\r\n" + more) == Some(Parsed(ts, "", more)) <==> forall t :: t in ts ==> Good(t)
  {
    var rest, all := "\r\n" + more, List(ts);
    WholeText(ts, more);
    EndsHere(more);
    hide GoodFrom, PrintFrom, ReadAt, Print, Good, Closes, ReadsFrom, PushAll;
    ReadFrom(all, 0, rest);
    UseReadsFrom(all, 0, rest);
    PushLast(ts, "", more);
  }

  lemma {:induction false} WholeText(ts: seq<Tree>, more: string)
    ensures Print(ts) + "\r\n" + more == PrintFrom(List(ts), 0) + ("\r\n" + more)
    ensures List(ts).items[0..] == ts
    ensures GoodFrom(List(ts), 0) <==> forall t :: t in ts ==> Good(t)
  {
    hide PrintFrom;
    var all := List(ts);
    assert all.items == ts;
    if GoodFrom(all, 0) {
      forall t | t in ts ensures Good(t) {
        var i :| 0 <= i < |ts| && ts[i] == t;
        assert Good(all.items[i]);
      }
    }
    if forall t :: t in ts ==> Good(t) {
      forall j | 0 <= j < |ts| ensures Good(all.items[j]) { assert ts[j] in ts; }
    }
  }

  lemma {:induction false} EndsHere(more: string)
    ensures Closes("\r\n" + more) && ReadAt("\r\n" + more) == Some(Parsed([], "", more))
  {
    LineOf("", more);
    assert "" + "\r\n" + more == "\r\n" + more;
  }

  /** The shortest strings that do not come back: a double quote is read as a backslash and an empty string, and a
      backslash as two. */
  lemma {:induction false} EscapeExample()
    ensures ReadAt(Print([Leaf("\"")]) + "\r\n") == Some(Parsed([Leaf("\\"), Leaf("")], "", ""))
    ensures ReadAt(Print([Leaf("\\")]) + "\r\n") == Some(Parsed([Leaf("\\\\")], "", ""))
  {
    hide Print, ReadAt;
    EscapesWritten();
    QuotesRead();
    BackslashesRead();
    LineRead("\"\\\"\"");
    LineRead("\"\\\\\"");
  }

  lemma {:induction false} LineRead(line: string)
    requires NoEol(line)
    ensures ReadAt(line + "\r\n") == ParseLine(line, "")
  {
    LineOf(line, "");
    assert line + "\r\n" + "" == line + "\r\n";
    hide ParseLine, FirstLine, AfterLine;
  }

  lemma {:induction false} EscapesWritten()
    ensures Print([Leaf("\"")]) == "\"\\\"\"" && Print([Leaf("\\")]) == "\"\\\\\""
  {
    var q, b := "\"", "\\";
    assert Special('"') && Special('\\') && q[0] == '"' && b[0] == '\\';
    assert Escape(q) == "\\\"" && Escape(b) == "\\\\" by { assert q[1..] == "" && b[1..] == ""; }
  }

  lemma {:induction false} PushFirst(t: Tree, ts: seq<Tree>)
    ensures Push(t, Some(Parsed(ts, "", ""))) == Some(Parsed([t] + ts, "", ""))
  {
  }

  lemma {:induction false} NothingToRead()
    ensures ParseLine("", "") == Some(Parsed([], "", ""))
  {
  }

  lemma {:induction false} QuotesRead()
    ensures ParseLine("\"\\\"\"", "") == Some(Parsed([Leaf("\\"), Leaf("")], "", ""))
  {
    hide ParseLine;
    NothingToRead();
    var q := "\\\"\"";
    assert q[1..] == "\"\"" && q[2..] == "\"" && q[..1] == "\\";
    assert QuoteLen(q) == 1 && QuoteLen("") == 0;
    hide QuoteLen;
    QuotedFirst(q, "");
    QuotedFirst("", "");
    assert ['"'] + q == "\"\\\"\"" && ['"'] + "" == "\"";
    PushFirst(Leaf(""), []);
    PushFirst(Leaf("\\"), [Leaf("")]);
    assert [Leaf("")] + [] == [Leaf("")] && [Leaf("\\")] + [Leaf("")] == [Leaf("\\"), Leaf("")];
    assert ""[..0] == "" && Behind(q, 1) == "\"" && Behind("", 0) == "";
  }

  lemma {:induction false} BackslashesRead()
    ensures ParseLine("\"\\\\\"", "") == Some(Parsed([Leaf("\\\\")], "", ""))
  {
    hide ParseLine;
    NothingToRead();
    var b := "\\\\\"";
    assert b[1..] == "\\\"" && b[1..][1..] == "\"" && b[..2] == "\\\\" && b[3..] == "";
    assert QuoteLen(b) == 2;
    hide QuoteLen;
    QuotedFirst(b, "");
    assert ['"'] + b == "\"\\\\\"";
    PushFirst(Leaf("\\\\"), []);
    assert [Leaf("\\\\")] + [] == [Leaf("\\\\")] && Behind(b, 2) == "";
  }
}
