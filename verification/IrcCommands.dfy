/**
 * IRC commands as the client sends them, and IRC lines as it takes them apart
 * (section 2.3.1 of RFC 1459).
 */
module IrcCommands {
  import opened Options

  /** How many parameters a command takes; some take any number. */
  datatype Arity = Arity(minparam: nat, maxparam: Option<nat>)

  type Table = map<string, Arity>

  // ---------- Words ----------

  predicate Spaceless(s: string) {
    ' ' !in s
  }

  function Join(words: seq<string>): string {
    if words == [] then "" else if |words| == 1 then words[0] else words[0] + " " + Join(words[1..])
  }

  /** Pieces between spaces; a colon behind a space goes with it. */
  function SplitWords(s: string): (r: seq<string>)
    ensures r != []
    decreases |s|
  {
    if s == "" then [""]
    else if s[0] == ' ' then [""] + SplitWords(if |s| > 1 && s[1] == ':' then s[2..] else s[1..])
    else
      var rest := SplitWords(s[1..]);
      [[s[0]] + rest[0]] + rest[1..]
  }

  function Uncolon(s: string): string {
    if s != "" && s[0] == ':' then s[1..] else s
  }

  function Params(params: Option<string>): seq<string> {
    if params.None? then [] else SplitWords(Uncolon(params.value))
  }

  // ---------- Sending ----------

  /** The words from number pcnt on, with a colon where the last parameter has spaces in it. */
  function Written(words: seq<string>, pcnt: nat, max: Option<nat>): string {
    if words == [] then ""
    else
      " " + (if max == Some(pcnt + 1) && |words| > 1 then ":" else "") + words[0]
      + Written(words[1..], pcnt + 1, max)
  }

  function Sent(table: Table, command: string, params: Option<string>): Option<string> {
    if command !in table || |Params(params)| < table[command].minparam then None
    else Some(command + Written(Params(params), 0, table[command].maxparam))
  }

  /** The text to send, without its line end; none if the command is not known or has too few parameters. */
  method SendCmd(table: Table, command: string, params: Option<string>) returns (r: Option<string>)
    ensures r == Sent(table, command, params)
  {
    var plist := Params(params);
    if command !in table { return None; }
    var cmd := table[command];
    var snd, pcnt: nat := command, 0;
    ghost var all := Written(plist, 0, cmd.maxparam);
    while |plist| > 0
      invariant command + all == snd + Written(plist, pcnt, cmd.maxparam)
      invariant pcnt + |plist| == |Params(params)|
      decreases |plist|
    {
      ghost var before := snd;
      snd := snd + " ";
      pcnt := pcnt + 1;
      if cmd.maxparam == Some(pcnt) && |plist| > 1 { snd := snd + ":"; }
      snd := snd + plist[0];
      WrittenStep(before, plist, pcnt - 1, cmd.maxparam);
      plist := plist[1..];
    }
    assert snd + "" == snd;
    if pcnt < cmd.minparam { return None; }
    return Some(snd);
  }

  lemma {:induction false} WrittenStep(snd: string, words: seq<string>, pcnt: nat, max: Option<nat>)
    requires words != []
    ensures snd + Written(words, pcnt, max)
         == snd + " " + (if max == Some(pcnt + 1) && |words| > 1 then ":" else "") + words[0]
           + Written(words[1..], pcnt + 1, max)
    ensures snd + " " + "" + words[0] == snd + " " + words[0]
  {
    var colon := if max == Some(pcnt + 1) && |words| > 1 then ":" else "";
    var rest := Written(words[1..], pcnt + 1, max);
    FourAhead(snd, colon, words[0], rest);
  }

  lemma {:induction false} FourAhead(snd: string, colon: string, word: string, rest: string)
    ensures snd + (" " + colon + word + rest) == snd + " " + colon + word + rest
    ensures snd + " " + "" + word == snd + " " + word
  {
  }

  // ---------- Receiving ----------

  function IndexOf(s: string, c: char): (i: nat)
    ensures i <= |s| && (i < |s| ==> s[i] == c) && forall k :: 0 <= k < i ==> s[k] != c
  {
    if s == "" || s[0] == c then 0 else 1 + IndexOf(s[1..], c)
  }

  /** The text behind the first character and before the first space; without a space, before the last character. */
  function Marked(line: string): string {
    var i := IndexOf(line, ' ');
    if 1 <= i < |line| then line[1..i]
    else if i < |line| then ""
    else if |line| >= 2 then line[1..|line| - 1]
    else ""
  }

  function Drop(s: string, n: nat): string {
    if n < |s| then s[n..] else ""
  }

  function Message(line: string): seq<string>
    decreases |line|
  {
    if line == "" then []
    else if line[0] == ':' then [line[1..]]
    else
      var i := IndexOf(line, ' ');
      if i == |line| then [line] else [line[..i]] + Message(line[i + 1..])
  }

  /** Tag, prefix, command and parameters of a line; none if it is empty. */
  function Received(line: string): Option<seq<string>> {
    if line == "" then None
    else
      var tag := if line[0] == '@' then Marked(line) else "";
      var rest := if line[0] == '@' then Drop(line, |tag| + 2) else line;
      var prefix := if rest != "" && rest[0] == ':' then Marked(rest) else "";
      var body := if rest != "" && rest[0] == ':' then Drop(rest, |prefix| + 2) else rest;
      Some([tag, prefix] + Message(body))
  }

  method GetCommand(text: string) returns (message: Option<seq<string>>)
    ensures message == Received(text)
  {
    if text == "" { return None; }
    var line, tag, prefix := text, "", "";
    if line[0] == '@' {
      tag := Marked(line);
      line := Drop(line, |tag| + 2);
    }
    if line != "" && line[0] == ':' {
      prefix := Marked(line);
      line := Drop(line, |prefix| + 2);
    }
    var body := ReadBody(line);
    return Some([tag, prefix] + body);
  }

  method ReadBody(text: string) returns (list: seq<string>)
    ensures list == Message(text)
  {
    list := [];
    var line := text;
    while |line| > 0
      invariant Message(text) == list + Message(line)
      decreases |line|
    {
      if line[0] == ':' {
        list, line := list + [line[1..]], "";
      } else {
        var i := IndexOf(line, ' ');
        if i == |line| {
          list, line := list + [line], "";
        } else {
          list, line := list + [line[..i]], line[i + 1..];
        }
      }
    }
  }

  // ---------- What the receiver makes of what was sent ----------

  predicate Coloned(s: string) {
    s != "" && s[0] == ':'
  }

  /** The parameters the sender meant: each word one, but for the last that holds all words that are left. */
  function Meant(words: seq<string>, pcnt: nat, max: Option<nat>): seq<string> {
    if words == [] then []
    else if max == Some(pcnt + 1) && |words| > 1 then [Join(words)]
    else [words[0]] + Meant(words[1..], pcnt + 1, max)
  }

  predicate NoColons(words: seq<string>) {
    forall i :: 0 <= i < |words| ==> !Coloned(words[i])
  }

  /** Empty words get through, except as the last parameter. */
  predicate Arrives(words: seq<string>, pcnt: nat, max: Option<nat>) {
    NoColons(words) && (words != [] && words[|words| - 1] == "" ==> max.Some? && pcnt < max.value < pcnt + |words|)
  }

  function Uncoloned(words: seq<string>): seq<string> {
    seq(|words|, i requires 0 <= i < |words| => Uncolon(words[i]))
  }

  lemma {:induction false} IndexBehind(x: string, rest: string, c: char)
    requires c !in x
    ensures IndexOf(x + rest, c) == |x| + IndexOf(rest, c)
  {
    if x == "" {
      assert x + rest == rest;
    } else {
      assert x == [x[0]] + x[1..] && (x + rest)[1..] == x[1..] + rest;
      IndexBehind(x[1..], rest, c);
    }
  }

  lemma {:induction false} MessageWord(x: string, rest: string)
    requires Spaceless(x) && !Coloned(x)
    ensures Message(x + " " + rest) == [x] + Message(rest)
    ensures Message(x) == if x == "" then [] else [x]
  {
    MessageAlone(x);
    MessageFirst(x, rest);
  }

  lemma {:induction false} MessageAlone(x: string)
    requires Spaceless(x) && !Coloned(x)
    ensures Message(x) == if x == "" then [] else [x]
  {
    IndexBehind(x, "", ' ');
    assert x + "" == x;
    hide IndexOf;
  }

  lemma {:induction false} MessageFirst(x: string, rest: string)
    requires Spaceless(x) && !Coloned(x)
    ensures Message(x + " " + rest) == [x] + Message(rest)
  {
    var tail := " " + rest;
    IndexBehind(x, tail, ' ');
    assert IndexOf(tail, ' ') == 0;
    var line := x + " " + rest;
    assert line == x + tail && line[..|x|] == x && line[|x| + 1..] == rest && line[0] != ':';
    hide IndexOf;
  }

  /** Past the last parameter the words just go on, with spaces between them. */
  lemma {:induction false} WrittenIsJoin(words: seq<string>, pcnt: nat, max: Option<nat>)
    requires words != [] && (max.None? || max.value <= pcnt)
    ensures words[0] + Written(words[1..], pcnt, max) == Join(words)
  {
    if |words| > 1 {
      WrittenIsJoin(words[1..], pcnt + 1, max);
      var rest := words[1..];
      assert Written(rest, pcnt, max) == " " + "" + rest[0] + Written(rest[1..], pcnt + 1, max);
      assert words[0] + (" " + "" + rest[0] + Written(rest[1..], pcnt + 1, max))
          == words[0] + " " + (rest[0] + Written(rest[1..], pcnt + 1, max));
    } else {
      assert words[1..] == [] && words[0] + "" == words[0];
    }
  }

  lemma {:induction false} JoinLength(words: seq<string>)
    ensures |Join(Uncoloned(words))| <= |Join(words)|
    ensures |Join(Uncoloned(words))| == |Join(words)| ==> NoColons(words)
    ensures NoColons(words) ==> Uncoloned(words) == words
  {
    if |words| > 1 {
      JoinLength(words[1..]);
      assert Uncoloned(words)[1..] == Uncoloned(words[1..]);
      if !NoColons(words) && !Coloned(words[0]) {
        var i :| 0 <= i < |words| && Coloned(words[i]);
        assert Coloned(words[1..][i - 1]);
      }
    }
  }

  /** What is written for words from number pcnt on, without the space ahead. */
  function Text(words: seq<string>, pcnt: nat, max: Option<nat>): string
    requires words != []
  {
    (if max == Some(pcnt + 1) && |words| > 1 then ":" else "") + words[0] + Written(words[1..], pcnt + 1, max)
  }

  lemma {:induction false} ReadWords(words: seq<string>, pcnt: nat, max: Option<nat>)
    requires words != [] && (forall i :: 0 <= i < |words| ==> Spaceless(words[i])) && (max.Some? ==> pcnt < max.value)
    ensures Message(Text(Uncoloned(words), pcnt, max)) == Meant(words, pcnt, max) <==> Arrives(words, pcnt, max)
    decreases |words|
  {
    var sent := Uncoloned(words);
    var text := Text(sent, pcnt, max);
    if max == Some(pcnt + 1) && |words| > 1 {
      WrittenIsJoin(sent, pcnt + 1, max);
      assert text == ":" + (sent[0] + Written(sent[1..], pcnt + 1, max));
      assert text[1..] == Join(sent);
      JoinLength(words);
    } else if |words| == 1 {
      ReadLast(words, pcnt, max);
    } else {
      ReadWords(words[1..], pcnt + 1, max);
      ReadMore(words, pcnt, max);
    }
  }

  lemma {:induction false} ReadLast(words: seq<string>, pcnt: nat, max: Option<nat>)
    requires |words| == 1 && Spaceless(words[0]) && (max.Some? ==> pcnt < max.value)
    ensures Message(Text(Uncoloned(words), pcnt, max)) == Meant(words, pcnt, max) <==> Arrives(words, pcnt, max)
  {
    var w := Uncolon(words[0]);
    assert Text(Uncoloned(words), pcnt, max) == "" + w + "" == w;
    assert Meant(words, pcnt, max) == [words[0]];
    assert Coloned(words[0]) ==> |w| < |words[0]|;
    if !Coloned(w) { MessageWord(w, ""); }
  }

  lemma {:induction false} ReadMore(words: seq<string>, pcnt: nat, max: Option<nat>)
    requires |words| > 1 && (forall i :: 0 <= i < |words| ==> Spaceless(words[i]))
    requires max != Some(pcnt + 1) && (max.Some? ==> pcnt < max.value)
    requires Message(Text(Uncoloned(words[1..]), pcnt + 1, max)) == Meant(words[1..], pcnt + 1, max)
       <==> Arrives(words[1..], pcnt + 1, max)
    ensures Message(Text(Uncoloned(words), pcnt, max)) == Meant(words, pcnt, max) <==> Arrives(words, pcnt, max)
  {
    var w, rest := Uncolon(words[0]), words[1..];
    TextParts(words, pcnt, max);
    var text := Text(Uncoloned(words), pcnt, max);
    var more := Text(Uncoloned(rest), pcnt + 1, max);
    ArrivesCons(words, pcnt, max);
    hide Text, Uncoloned, Arrives;
    assert Meant(words, pcnt, max) == [words[0]] + Meant(rest, pcnt + 1, max);
    assert |Meant(rest, pcnt + 1, max)| >= 1;
    hide Meant;
    if Coloned(w) {
      assert text[0] == ':';
    } else {
      assert Spaceless(w);
      MessageWord(w, more);
      hide Message;
      ConsSame(w, Message(more), words[0], Meant(rest, pcnt + 1, max));
    }
  }

  lemma {:induction false} ConsSame(x: string, s: seq<string>, y: string, t: seq<string>)
    ensures [x] + s == [y] + t <==> x == y && s == t
  {
    if [x] + s == [y] + t {
      assert ([x] + s)[0] == x && ([x] + s)[1..] == s && ([y] + t)[1..] == t;
    }
  }

  lemma {:induction false} TextParts(words: seq<string>, pcnt: nat, max: Option<nat>)
    requires |words| > 1 && max != Some(pcnt + 1)
    ensures Text(Uncoloned(words), pcnt, max) == Uncolon(words[0]) + " " + Text(Uncoloned(words[1..]), pcnt + 1, max)
  {
    var sent := Uncoloned(words);
    assert sent[1..] == Uncoloned(words[1..]) && sent[0] == Uncolon(words[0]);
    assert Text(sent, pcnt, max) == "" + sent[0] + Written(sent[1..], pcnt + 1, max);
    assert "" + sent[0] == sent[0];
    hide Text, Uncoloned, Written;
    WrittenText(sent[0], sent[1..], pcnt + 1, max);
  }

  lemma {:induction false} ArrivesCons(words: seq<string>, pcnt: nat, max: Option<nat>)
    requires |words| > 1 && max != Some(pcnt + 1) && (max.Some? ==> pcnt < max.value)
    ensures Arrives(words, pcnt, max) <==> !Coloned(words[0]) && Arrives(words[1..], pcnt + 1, max)
    ensures !Coloned(words[0]) <==> Uncolon(words[0]) == words[0]
  {
    var rest := words[1..];
    assert forall i :: 0 <= i < |rest| ==> rest[i] == words[i + 1];
    assert rest[|rest| - 1] == words[|words| - 1];
    if !Coloned(words[0]) && NoColons(rest) {
      forall i | 0 <= i < |words| ensures !Coloned(words[i]) { if i > 0 { assert words[i] == rest[i - 1]; } }
    }
    if NoColons(words) {
      forall i | 0 <= i < |rest| ensures !Coloned(rest[i]) { assert rest[i] == words[i + 1]; }
    }
    hide Coloned;
  }

  /** A command that should take no parameters sends what it is given as one that takes any number does. */
  lemma {:induction false} PastLast(words: seq<string>, pcnt: nat, max: Option<nat>)
    requires max.Some? && max.value <= pcnt
    ensures Written(words, pcnt, max) == Written(words, pcnt, None)
    ensures Meant(words, pcnt, max) == Meant(words, pcnt, None)
  {
    if words != [] { PastLast(words[1..], pcnt + 1, max); }
  }

  lemma {:induction false} ReadAll(words: seq<string>, max: Option<nat>)
    requires words != [] && (forall i :: 0 <= i < |words| ==> Spaceless(words[i]))
    ensures Message(Text(Uncoloned(words), 0, max)) == Meant(words, 0, max) <==> Arrives(words, 0, max)
  {
    if max == Some(0) {
      ReadWords(words, 0, None);
      PastLast(words, 0, max);
      PastLast(Uncoloned(words)[1..], 1, max);
      hide Written, Meant, Message, Uncoloned;
    } else {
      ReadWords(words, 0, max);
    }
  }

  // ---------- The round trip ----------

  lemma {:induction false} SplitJoin(words: seq<string>)
    requires words != [] && forall i :: 0 <= i < |words| ==> Spaceless(words[i])
    ensures SplitWords(Uncolon(Join(words))) == Uncoloned(words)
  {
    var w := Uncolon(words[0]);
    assert Spaceless(w);
    JoinedWords(words);
    hide Join, Uncoloned, Uncolon, SplitWords;
    if |words| == 1 {
      SplitWord(w, "");
    } else {
      SplitJoin(words[1..]);
      SplitWord(w, Join(words[1..]));
    }
  }

  lemma {:induction false} JoinedWords(words: seq<string>)
    requires words != []
    ensures |words| == 1 ==> Uncolon(Join(words)) == Uncolon(words[0]) && Uncoloned(words) == [Uncolon(words[0])]
    ensures |words| > 1 ==> Uncolon(Join(words)) == Uncolon(words[0]) + " " + Join(words[1..])
    ensures |words| > 1 ==> Uncoloned(words) == [Uncolon(words[0])] + Uncoloned(words[1..])
  {
    hide SplitWords;
  }

  lemma {:induction false} SplitWord(w: string, rest: string)
    requires Spaceless(w)
    ensures SplitWords(w) == [w]
    ensures SplitWords(w + " " + rest) == [w] + SplitWords(Uncolon(rest))
  {
    var s := w + " " + rest;
    if w == "" {
      assert s[0] == ' ' && s[1..] == rest;
      if Coloned(rest) { assert s[1] == ':' && s[2..] == rest[1..]; }
    } else {
      assert w == [w[0]] + w[1..];
      SplitWord(w[1..], rest);
      assert s[0] == w[0] && s[1..] == w[1..] + " " + rest;
      assert ([w[1..]] + SplitWords(Uncolon(rest)))[1..] == SplitWords(Uncolon(rest));
    }
  }

  predicate CommandWord(command: string) {
    command != "" && Spaceless(command) && command[0] != ':' && command[0] != '@'
  }

  /**
   * The receiver gets the parameters that were typed - every word one, the rest as the last - if and only if
   * no word begins with a colon, and the last parameter is not an empty word.
   */
  lemma {:induction false} CommandArrives(table: Table, command: string, words: seq<string>)
    requires command in table && CommandWord(command)
    requires words != [] && (forall i :: 0 <= i < |words| ==> Spaceless(words[i])) && |words| >= table[command].minparam
    ensures Sent(table, command, Some(Join(words))).Some?
    ensures Received(Sent(table, command, Some(Join(words))).value)
         == Some(["", "", command] + Meant(words, 0, table[command].maxparam))
       <==> Arrives(words, 0, table[command].maxparam)
  {
    var max := table[command].maxparam;
    SplitJoin(words);
    ReadAll(words, max);
    var text := Text(Uncoloned(words), 0, max);
    SentText(table, command, words);
    var sent := command + " " + text;
    assert sent[0] == command[0];
    MessageWord(command, text);
    hide Text, Meant, Arrives, Message, Sent, Uncoloned;
    assert Received(sent) == Some(["", ""] + ([command] + Message(text)));
    SameTail(command, Message(text), Meant(words, 0, max));
  }

  /** A command is refused exactly if it is not known or has fewer words than it needs. */
  lemma {:induction false} RefusedIff(table: Table, command: string, words: seq<string>)
    requires forall i :: 0 <= i < |words| ==> Spaceless(words[i])
    ensures words != [] ==>
      (Sent(table, command, Some(Join(words))).None? <==> command !in table || |words| < table[command].minparam)
    ensures Sent(table, command, None).None? <==> command !in table || table[command].minparam > 0
  {
    if words != [] {
      SplitJoin(words);
      assert |Uncoloned(words)| == |words|;
    }
    hide Join, Uncoloned;
  }

  /** So does a command that is typed alone. */
  lemma {:induction false} BareCommandArrives(table: Table, command: string)
    requires command in table && CommandWord(command) && table[command].minparam == 0
    ensures Sent(table, command, None).Some? && Received(Sent(table, command, None).value) == Some(["", "", command])
  {
    assert command + "" == command;
    MessageAlone(command);
    hide Message;
    assert ["", ""] + [command] == ["", "", command];
  }

  lemma {:induction false} SentText(table: Table, command: string, words: seq<string>)
    requires command in table && words != [] && |words| >= table[command].minparam
    requires SplitWords(Uncolon(Join(words))) == Uncoloned(words)
    ensures Sent(table, command, Some(Join(words)))
         == Some(command + " " + Text(Uncoloned(words), 0, table[command].maxparam))
  {
    var max, sent := table[command].maxparam, Uncoloned(words);
    assert Params(Some(Join(words))) == sent && |sent| == |words|;
    assert Sent(table, command, Some(Join(words))) == Some(command + Written(sent, 0, max));
    hide Sent, Params, Join, Uncoloned;
    WrittenText(command, sent, 0, max);
  }

  lemma {:induction false} WrittenText(snd: string, words: seq<string>, pcnt: nat, max: Option<nat>)
    requires words != []
    ensures snd + Written(words, pcnt, max) == snd + " " + Text(words, pcnt, max)
  {
    WrittenStep(snd, words, pcnt, max);
    var colon, rest := if max == Some(pcnt + 1) && |words| > 1 then ":" else "", Written(words[1..], pcnt + 1, max);
    Assoc(snd, colon, words[0], rest);
    assert Text(words, pcnt, max) == colon + words[0] + rest;
    hide Written, Text;
  }

  lemma {:induction false} Assoc(a: string, b: string, c: string, d: string)
    ensures a + " " + b + c + d == a + " " + (b + c + d)
  {
  }

  lemma {:induction false} SameTail(command: string, s: seq<string>, t: seq<string>)
    ensures ["", ""] + ([command] + s) == ["", "", command] + t <==> s == t
  {
    var a := ["", ""] + ([command] + s);
    var b := ["", "", command] + t;
    assert a[3..] == s && b[3..] == t;
  }

  /** A message that is a smiley loses its eyes. */
  lemma {:induction false} SmileyExample(table: Table)
    requires "PRIVMSG" in table && table["PRIVMSG"] == Arity(2, Some(2))
    ensures Params(Some("#c :)")) == ["#c", ")"] && Sent(table, "PRIVMSG", Some("#c :)")).Some?
  {
    var words := ["#c", ":)"];
    assert words[1..] == [":)"];
    assert Join(words) == "#c :)";
    SplitJoin(words);
    assert Uncoloned(words) == ["#c", ")"];
    hide SplitWords, Join, Uncoloned;
  }

  /** With a tag and a prefix put before it, a line is taken apart the same way. */
  lemma {:induction false} RelayedLine(tag: string, prefix: string, line: string)
    requires Spaceless(tag) && Spaceless(prefix) && line != "" && line[0] != ':' && line[0] != '@'
    ensures Received("@" + tag + " " + (":" + prefix + " " + line)) == Some([tag, prefix] + Message(line))
    ensures Received(":" + prefix + " " + line) == Some(["", prefix] + Message(line))
    ensures Received(line) == Some(["", ""] + Message(line))
  {
    hide Message, Spaceless;
    PrefixedLine(prefix, line);
    TaggedLine(tag, prefix, line);
  }

  /** A tag or a prefix that is all of a line, without a space, loses its last character, and nothing comes behind
      it. */
  lemma {:induction false} LoneMark(word: string, c: char)
    requires Spaceless(word) && c != ' '
    ensures Received("@" + word + [c]) == Some([word, ""]) && Received(":" + word + [c]) == Some(["", word])
    ensures Received("@") == Some(["", ""]) && Received(":") == Some(["", ""])
  {
    MarkedAlone('@', word, c);
    MarkedAlone(':', word, c);
    assert Marked("@") == "" && Marked(":") == "" && Drop("@", 2) == "" && Drop(":", 2) == "";
    assert Message("") == [];
    assert ("@" + word + [c])[0] == '@' && (":" + word + [c])[0] == ':';
    hide Marked, Message, Drop;
    assert [word, ""] + [] == [word, ""] && ["", word] + [] == ["", word] && ["", ""] + [] == ["", ""];
  }

  lemma {:induction false} MarkedAlone(mark: char, word: string, c: char)
    requires Spaceless(word) && c != ' ' && mark != ' '
    ensures Marked([mark] + word + [c]) == word && Drop([mark] + word + [c], |word| + 2) == ""
  {
    var line := [mark] + word + [c];
    assert forall k :: 0 <= k < |word| ==> word[k] != ' ';
    assert forall k :: 0 <= k < |line| ==> line[k] != ' ';
    assert line[1..|line| - 1] == word;
  }

  lemma {:induction false} PrefixedLine(prefix: string, line: string)
    requires Spaceless(prefix)
    ensures Received(":" + prefix + " " + line) == Some(["", prefix] + Message(line))
  {
    var prefixed := ":" + prefix + " " + line;
    assert prefixed[0] == ':';
    MarkedWord(':', prefix, line);
    hide Message, Marked, Drop;
  }

  lemma {:induction false} TaggedLine(tag: string, prefix: string, line: string)
    requires Spaceless(tag) && Spaceless(prefix)
    ensures Received("@" + tag + " " + (":" + prefix + " " + line)) == Some([tag, prefix] + Message(line))
  {
    var prefixed := ":" + prefix + " " + line;
    var tagged := "@" + tag + " " + prefixed;
    assert prefixed[0] == ':' && tagged[0] == '@';
    MarkedWord('@', tag, prefixed);
    MarkedWord(':', prefix, line);
    hide Message, Marked, Drop;
  }

  lemma {:induction false} MarkedWord(mark: char, word: string, rest: string)
    requires Spaceless(word) && mark != ' '
    ensures Marked([mark] + word + " " + rest) == word
    ensures Drop([mark] + word + " " + rest, |word| + 2) == rest
  {
    var x := [mark] + word;
    var line := x + " " + rest;
    assert line == x + (" " + rest);
    IndexBehind(x, " " + rest, ' ');
    assert line[1..|x|] == word && line[|x| + 1..] == rest;
  }
}
