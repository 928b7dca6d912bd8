/** Which soft rows come back from a saved text. */
module SoftRows {
  import opened Options
  import opened EditorText
  import opened ColourCodec
  import opened ColourRoundTrip
  import opened LongLines
  import opened PlainLines
  import opened Streams

  // ---------- What is written ----------

  /** Characters and whole codes, with no line end and no tab among them. */
  predicate Part(s: string) {
    Stream(s) && '\n' !in s && '\r' !in s
  }

  lemma {:induction false} StreamConcat(s: string, t: string)
    requires Part(s) && Stream(t)
    ensures Stream(s + t) && (Part(t) ==> Part(s + t))
  {
    forall k | 0 <= k < |s + t| ensures StreamAt(s + t, k) {
      if k < |s| { assert StreamAt(s, k); } else { assert StreamAt(t, k - |s|); }
    }
  }

  lemma {:induction false} PartShows(s: string, t: string)
    requires Part(s)
    ensures LineText(s + t) == LineText(s) + LineText(t)
    decreases |s|
  {
    if s == "" {
      assert s + t == t && LineText("") + LineText(t) == LineText(t);
    } else {
      assert StreamAt(s, 0);
      var k := if s[0] == CTRL_A then 2 else 1;
      StreamBehind(s, k);
      assert s == s[..k] + s[k..];
      assert (s + t)[0] == s[0] && (s + t)[k..] == s[k..] + t;
      PartShows(s[k..], t);
      if k == 1 { assert [s[0]] + LineText(s[1..]) + LineText(t) == [s[0]] + (LineText(s[1..]) + LineText(t)); }
    }
  }

  lemma {:induction false} CodesPart(codes: string)
    requires AllCodes(codes)
    ensures Part(Escape(codes)) && LineText(Escape(codes)) == ""
  {
    if codes != "" {
      CodesPart(codes[1..]);
      var e, f := Escape(codes), Escape(codes[1..]);
      assert e == [CTRL_A, codes[0]] + f && IsCode(codes[0]) && e[2..] == f;
      forall k | 0 <= k < |e| ensures StreamAt(e, k) { if k >= 2 { assert StreamAt(f, k - 2); } }
    }
  }

  lemma {:induction false} CharPart(c: char)
    requires !IsControl(c)
    ensures Part([c]) && LineText([c]) == [c]
  {
    assert [c][1..] == "";
  }

  lemma {:induction false} EncodedPart(t: string, attr: seq<Attr>, last: Attr)
    requires |t| == |attr| && Printable(t)
    ensures var e := EncodeText(t, attr, last); Part(e) && LineText(e) == t
    decreases |t|
  {
    if t != "" {
      hide Codes, Escape, Part, LineText;
      var c, more := Codes(last, attr[0]), EncodeText(t[1..], attr[1..], attr[0]);
      CodesAreCodes(last, attr[0]);
      CodesPart(c);
      CharPart(t[0]);
      EncodedPart(t[1..], attr[1..], attr[0]);
      PartsJoin(Escape(c), [t[0]], more);
      assert t == "" + [t[0]] + t[1..];
    } else {
      assert Part("");
    }
  }

  lemma {:induction false} PartsJoin(a: string, b: string, c: string)
    requires Part(a) && Part(b) && Part(c)
    ensures Part(a + b + c) && LineText(a + b + c) == LineText(a) + LineText(b) + LineText(c)
  {
    hide LineText, Stream;
    StreamConcat(a, b);
    StreamConcat(a + b, c);
    PartShows(a, b);
    PartShows(a + b, c);
  }

  /** Trimming takes blanks off what is shown. */
  lemma {:induction false} TrimShows(s: string) returns (z: string)
    requires Part(s)
    ensures Part(TrimEnd(s)) && LineText(s) == LineText(TrimEnd(s)) + z && forall k :: 0 <= k < |z| ==> z[k] == ' '
    decreases |s|
  {
    z := "";
    if s != "" && (s[|s| - 1] == ' ' || s[|s| - 1] == '\t') {
      var n := |s| - 1;
      assert StreamAt(s, n);
      PartAhead(s, n);
      var y := TrimShows(s[..n]);
      assert s == s[..n] + [' '];
      hide TrimEnd;
      CharPart(' ');
      PartShows(s[..n], [' ']);
      z := y + [' '];
      assert TrimEnd(s) == TrimEnd(s[..n]) by { TrimBlank(s[..n]); }
      assert LineText(TrimEnd(s)) + y + [' '] == LineText(TrimEnd(s)) + z;
    } else {
      assert LineText(s) + "" == LineText(s);
    }
  }

  lemma {:induction false} PartAhead(s: string, n: nat)
    requires Part(s) && n + 1 == |s| && s[n] == ' '
    ensures Part(s[..n])
  {
    forall k | 0 <= k < n ensures StreamAt(s[..n], k) { assert StreamAt(s, k); }
    assert s == s[..n] + [' '];
  }

  /** What is written for the rows up to the first line end, and behind that. */
  function Group(d: seq<Row>, soft: bool, last: Attr): string {
    if d == [] then ""
    else
      EncodeText(d[0].text, d[0].attr, last)
      + if soft || d[0].hardcr then "" else Group(d[1..], soft, LastAttr(d[0].attr, last))
  }

  function AfterGroup(d: seq<Row>, soft: bool, last: Attr): string {
    if d == [] then ""
    else
      var last' := LastAttr(d[0].attr, last);
      if soft || d[0].hardcr then Encode(d[1..], soft, "", last') else AfterGroup(d[1..], soft, last')
  }

  predicate EndsHard(d: seq<Row>) {
    d != [] && d[|d| - 1].hardcr
  }

  lemma {:induction false} GroupWritten(d: seq<Row>, soft: bool, line: string, last: Attr)
    requires EndsHard(d)
    ensures Encode(d, soft, line, last) == TrimEnd(line + Group(d, soft, last)) + "\r\n" + AfterGroup(d, soft, last)
    decreases |d|
  {
    hide EncodeText, TrimEnd, LastAttr;
    var e, last' := EncodeText(d[0].text, d[0].attr, last), LastAttr(d[0].attr, last);
    if soft || d[0].hardcr {
      assert e + "" == e;
    } else {
      GroupWritten(d[1..], soft, line + e, last');
      assert line + e + Group(d[1..], soft, last') == line + (e + Group(d[1..], soft, last'));
    }
  }

  /** The row at which the group ends. */
  function GroupEnd(d: seq<Row>, soft: bool): (m: nat)
    requires EndsHard(d)
    ensures m < |d| && (soft ==> m == 0) && (!soft ==> d[m].hardcr && forall k :: 0 <= k < m ==> !d[k].hardcr)
  {
    if soft || d[0].hardcr then 0
    else
      var n := GroupEnd(d[1..], soft);
      assert forall k :: 0 < k <= n ==> d[k] == d[1..][k - 1];
      1 + n
  }

  lemma {:induction false} GroupShows(d: seq<Row>, soft: bool, last: Attr)
    requires EndsHard(d) && AllPrintable(d)
    ensures Part(Group(d, soft, last)) && LineText(Group(d, soft, last)) == Texts(d[..GroupEnd(d, soft) + 1])
    decreases |d|
  {
    hide *;
    FirstPrintable(d);
    var e, last' := EncodeText(d[0].text, d[0].attr, last), LastAttr(d[0].attr, last);
    EncodedPart(d[0].text, d[0].attr, last);
    if soft || d[0].hardcr {
      GroupEnds(d, soft, last);
    } else {
      GroupGoesOn(d, last);
      GroupShows(d[1..], false, last');
      NothingPart();
      PartsJoin("", e, Group(d[1..], false, last'));
      NothingAhead(e, Group(d[1..], false, last'), d[0].text, LineText(Group(d[1..], false, last')));
    }
  }

  lemma {:induction false} FirstPrintable(d: seq<Row>)
    requires EndsHard(d) && AllPrintable(d)
    ensures d != [] && Printable(d[0].text) && AllPrintable(d[1..])
  {
    PrintableCons(d);
  }

  lemma {:induction false} NothingAhead(a: string, b: string, c: string, d: string)
    ensures "" + a + b == a + b && "" + c + d == c + d
  {
  }

  lemma {:induction false} GroupEnds(d: seq<Row>, soft: bool, last: Attr)
    requires EndsHard(d) && (soft || d[0].hardcr)
    ensures Group(d, soft, last) == EncodeText(d[0].text, d[0].attr, last)
    ensures Texts(d[..GroupEnd(d, soft) + 1]) == d[0].text
  {
    hide EncodeText;
    var e := EncodeText(d[0].text, d[0].attr, last);
    assert e + "" == e;
    TextsNone(d[..1]);
  }

  lemma {:induction false} GroupGoesOn(d: seq<Row>, last: Attr)
    requires EndsHard(d) && !d[0].hardcr
    ensures EndsHard(d[1..]) && GroupEnd(d, false) == 1 + GroupEnd(d[1..], false)
    ensures Group(d, false, last)
         == EncodeText(d[0].text, d[0].attr, last) + Group(d[1..], false, LastAttr(d[0].attr, last))
    ensures var m := GroupEnd(d, false);
      Texts(d[..m + 1]) == d[0].text + Texts(d[1..][..GroupEnd(d[1..], false) + 1])
  {
    hide EncodeText, LastAttr, Texts;
    assert EndsHard(d[1..]);
    var m := GroupEnd(d, false);
    TextsFirst(d[..m + 1]);
    assert d[..m + 1][1..] == d[1..][..m];
  }

  lemma {:induction false} NothingPart()
    ensures Part("") && LineText("") == ""
  {
  }

  lemma {:induction false} LineWritten(g: string, rest: string)
    requires Part(g) && Stream(rest)
    ensures Stream(g + "\r\n" + rest) && LineText(g + "\r\n" + rest) == LineText(g)
  {
    var end := "\r\n" + rest;
    forall k | 0 <= k < |end| ensures StreamAt(end, k) { if k >= 2 { assert StreamAt(rest, k - 2); } }
    assert g + "\r\n" + rest == g + end && LineText(end) == "" by { assert end[1..][0] == '\n'; }
    hide LineText;
    StreamConcat(g, end);
    PartShows(g, end);
    assert LineText(g) + "" == LineText(g);
  }

  lemma {:induction false} EncodedStream(d: seq<Row>, soft: bool, last: Attr)
    requires AllPrintable(d) && (d == [] || EndsHard(d))
    ensures Stream(Encode(d, soft, "", last)) && Stream(AfterGroup(d, soft, last))
    decreases |d|
  {
    if d != [] {
      PrintableCons(d);
      assert d[1..] == [] || EndsHard(d[1..]);
      EncodedStream(d[1..], soft, LastAttr(d[0].attr, last));
      GroupWritten(d, soft, "", last);
      GroupShows(d, soft, last);
      hide EncodeText, TrimEnd, Encode, LastAttr, Group, LineText, Stream;
      var g := Group(d, soft, last);
      assert "" + g == g;
      var z := TrimShows(g);
      LineWritten(TrimEnd(g), AfterGroup(d, soft, last));
    }
  }

  /** The first line of a saved buffer shows the texts of its rows, but for blanks at their end. */
  lemma {:induction false} FirstLineShows(d: seq<Row>, soft: bool, last: Attr) returns (z: string)
    requires EndsHard(d) && AllPrintable(d)
    ensures var s := Encode(d, soft, "", last);
      && Stream(s) && '\n' in s
      && Texts(d[..GroupEnd(d, soft) + 1]) == LineText(s) + z && forall k :: 0 <= k < |z| ==> z[k] == ' '
  {
    hide EncodeText, TrimEnd, Encode, LastAttr, Group, LineText, Stream, AllPrintable;
    GroupWritten(d, soft, "", last);
    GroupShows(d, soft, last);
    EncodedStream(d, soft, last);
    var g, rest := Group(d, soft, last), AfterGroup(d, soft, last);
    assert "" + g == g;
    z := TrimShows(g);
    LineWritten(TrimEnd(g), rest);
    assert (TrimEnd(g) + "\r\n" + rest)[|TrimEnd(g)| + 1] == '\n';
  }

  // ---------- Which buffers come back ----------

  /** The row r comes back without a hard break ahead of the row q: it fills the screen, but no word in it stands beyond
      the last column; a word follows; and the reader, going back over its trailing blanks and its last character, comes
      to the beginning of a colour code behind it. */
  predicate BreaksClean(r: Row, q: Row, last: Attr, cols: nat) {
    && q.text != "" && q.text[0] != ' '
    && |r.text| >= cols && FitsFrom(r.text, 0, cols) && Faithful(r.attr, last)
    && BackBy(r.text) % 2 == 0 && BackBy(r.text) <= 2 * |Codes(LastAttr(r.attr, last), q.attr[0])|
  }

  predicate FirstSurvives(d: seq<Row>, soft: bool, last: Attr, cols: nat)
    requires d != []
  {
    if d[0].hardcr then RowSurvives(d[0], last, cols) else !soft && |d| > 1 && BreaksClean(d[0], d[1], last, cols)
  }

  predicate RowsSurvive(d: seq<Row>, soft: bool, last: Attr, cols: nat) {
    d == [] || (FirstSurvives(d, soft, last, cols) && RowsSurvive(d[1..], soft, LastAttr(d[0].attr, last), cols))
  }

  // ---------- A row without a hard break ----------

  /** If a soft row comes back, a word follows it, and it is the first character of the next row. */
  lemma {:induction false} WordFollows(d: seq<Row>, soft: bool, last: Attr, cols: nat, tab: nat)
    requires tab > 0 && cols > 0 && EndsHard(d) && AllPrintable(d) && !d[0].hardcr
    requires LoadsFrom(Encode(d, soft, "", last), last, cols, tab, Document(d))
    ensures !soft && |d| > 1 && d[1].text != "" && d[1].text[0] != ' '
  {
    hide ReadLine, LoadsFrom, Encode, LineText, Stream, Following, Word, BackBy, HasWord, AllPrintable, Texts;
    var s := Encode(d, soft, "", last);
    var z := FirstLineShows(d, soft, last);
    var l := ReadLine(s, NEW_ROW, last, cols, tab);
    StreamNoTab(s);
    LoadsNext(s, last, cols, tab, Document(d));
    StreamLine(s, NEW_ROW, last, cols, tab);
    DocumentCons(d);
    var v, codes := BrokenLine(s, last, cols, tab);
    WordShows(l.rest);
    var m := GroupEnd(d, soft);
    TextsFirst(d[..m + 1]);
    var t, w := d[0].text, LineText(l.rest);
    assert t + Texts(d[..m + 1][1..]) == t + w + z;
    NextShows(t, Texts(d[..m + 1][1..]), w, z);
    WordIsNotBlank(l.rest[0]);
    if soft {
      NoTexts(d[..1][1..]);
    } else {
      NotEmpty(Following(s, l), l.a, cols, tab, Document(d)[1..], v, w);
      DocumentCons(d[1..]);
      assert d[..m + 1][1..] == d[1..][..m];
      TextsFirst(d[1..][..m]);
      assert d[1..][..m][0] == d[1];
    }
  }

  lemma {:induction false} WordIsNotBlank(c: char)
    requires Word(c)
    ensures c != ' '
  {
  }

  lemma {:induction false} NextShows(t: string, more: string, w: string, z: string)
    requires t + more == t + w + z && w != ""
    ensures more != "" && more[0] == w[0]
  {
    assert (t + more)[|t|..] == more && (t + w + z)[|t|..] == w + z;
  }

  lemma {:induction false} NoTexts(rows: seq<RowValue>)
    requires rows == []
    ensures Texts(rows) == ""
  {
  }

  /** Behind a broken row no empty row is read. */
  lemma {:induction false} NotEmpty(
    f: string, a: Attr, cols: nat, tab: nat, rows: seq<RowValue>, v: string, w: string)
    requires tab > 0 && cols > 0 && f != "" && Stream(f) && LineText(f) == v + w && w != ""
    requires LoadsFrom(f, a, cols, tab, rows)
    ensures rows != [] && rows[0].text != ""
  {
    hide ReadLine, LoadsFrom, LineText, Stream, Following, Word;
    StreamNoTab(f);
    LoadsNext(f, a, cols, tab, rows);
    StreamLine(f, NEW_ROW, a, cols, tab);
    assert "" + LineText(f) == v + w;
  }

  // ---------- A soft row ahead of a word ----------

  /** What is written behind the first character of the rows d. */
  function Tail(d: seq<Row>, last: Attr): string
    requires d != [] && d[0].text != ""
  {
    EncodeText(d[0].text[1..], d[0].attr[1..], d[0].attr[0])
    + if d[0].hardcr then "" else Group(d[1..], false, LastAttr(d[0].attr, last))
  }

  function Rest(d: seq<Row>, last: Attr): string
    requires d != [] && d[0].text != ""
  {
    TrimEnd(Tail(d, last)) + "\r\n" + AfterGroup(d, false, last)
  }

  lemma {:induction false} WordWritten(d: seq<Row>, line: string, last: Attr)
    requires EndsHard(d) && d[0].text != "" && d[0].text[0] != ' ' && d[0].text[0] != '\t'
    ensures Encode(d, false, line, last)
         == line + (Escape(Codes(last, d[0].attr[0])) + ([d[0].text[0]] + Rest(d, last)))
  {
    GroupWritten(d, false, line, last);
    TextFirst(d[0].text, d[0].attr, last);
    hide EncodeText, TrimEnd, Encode, LastAttr, AfterGroup, Codes, Escape;
    var e, c := Escape(Codes(last, d[0].attr[0])), [d[0].text[0]];
    Regroup(line, e, c, EncodeText(d[0].text[1..], d[0].attr[1..], d[0].attr[0]),
            if d[0].hardcr then "" else Group(d[1..], false, LastAttr(d[0].attr, last)));
    TrimKeeps(line + e, d[0].text[0], Tail(d, last));
    RegroupEnd(line, e, c, TrimEnd(Tail(d, last)), AfterGroup(d, false, last));
  }

  lemma {:induction false} Regroup(line: string, e: string, c: string, t: string, g: string)
    ensures line + (e + c + t + g) == line + e + c + (t + g)
  {
  }

  lemma {:induction false} RegroupEnd(line: string, e: string, c: string, t: string, after: string)
    ensures line + e + c + t + "\r\n" + after == line + (e + (c + (t + "\r\n" + after)))
  {
  }

  // What a sequence of codes changes.
  datatype Change = Change(fg: Option<Colour>, high: Option<bool>, bg: Option<Colour>, blink: Option<bool>)

  function Put(m: Change, a: Attr): Attr {
    Attr(if m.fg.Some? then m.fg.value else a.fg, if m.high.Some? then m.high.value else a.high,
         if m.bg.Some? then m.bg.value else a.bg, if m.blink.Some? then m.blink.value else a.blink)
  }

  function Then(m: Change, n: Change): Change {
    Change(if n.fg.Some? then n.fg else m.fg, if n.high.Some? then n.high else m.high,
           if n.bg.Some? then n.bg else m.bg, if n.blink.Some? then n.blink else m.blink)
  }

  const KEEP: Change := Change(None, None, None, None)

  function ChangeOf(code: char): Change {
    var c := Upper(code);
    if c == 'H' then KEEP.(high := Some(true)) else if c == 'I' then KEEP.(blink := Some(true))
    else if c == 'N' then Change(Some(LIGHTGRAY), Some(false), Some(BLACK), Some(false))
    else
      var a := Apply(Attr(BLACK, false, BLACK, false), code);
      var b := Apply(Attr(BLUE, false, BLUE, false), code);
      KEEP.(fg := if a.fg == b.fg then Some(a.fg) else None, bg := if a.bg == b.bg then Some(a.bg) else None)
  }

  lemma {:induction false} CodeChanges(code: char, a: Attr)
    ensures Apply(a, code) == Put(ChangeOf(code), a)
  {
  }

  lemma {:induction false} PutThen(m: Change, n: Change, a: Attr)
    ensures Put(Then(m, n), a) == Put(n, Put(m, a))
  {
  }

  lemma {:induction false} CodesChange(codes: string) returns (m: Change)
    ensures forall a :: ApplyAll(a, codes) == Put(m, a)
    decreases |codes|
  {
    if codes == "" {
      m := KEEP;
    } else {
      var first := ChangeOf(codes[0]);
      var more := CodesChange(codes[1..]);
      m := Then(first, more);
      hide Apply, Put, Then, ChangeOf;
      forall a ensures ApplyAll(a, codes) == Put(m, a) {
        CodeChanges(codes[0], a);
        PutThen(first, more, a);
      }
    }
  }

  /** Applying the last of some codes once more changes nothing. */
  lemma {:induction false} Reapplied(a: Attr, codes: string, x: nat)
    requires x <= |codes|
    ensures ApplyAll(ApplyAll(a, codes), codes[x..]) == ApplyAll(a, codes)
  {
    assert codes == codes[..x] + codes[x..];
    ApplyAllConcat(a, codes[..x], codes[x..]);
    var m := CodesChange(codes[x..]);
    hide ApplyAll;
    assert forall b :: Put(m, Put(m, b)) == Put(m, b);
  }

  lemma {:induction false} EscapeFrom(codes: string, x: nat)
    requires x <= |codes|
    ensures |Escape(codes)| == 2 * |codes| && Escape(codes)[2 * x..] == Escape(codes[x..])
    decreases |codes|
  {
    if codes == "" {
    } else if x == 0 {
      EscapeFrom(codes[1..], 0);
    } else {
      EscapeFrom(codes[1..], x - 1);
      assert codes[1..][x - 1..] == codes[x..];
      assert Escape(codes)[2 * x..] == Escape(codes[1..])[2 * x - 2..];
    }
  }

  lemma {:induction false} EscapeAt(codes: string, k: nat)
    requires k < 2 * |codes|
    ensures |Escape(codes)| == 2 * |codes| && (k % 2 == 0 ==> Escape(codes)[k] == CTRL_A)
    decreases |codes|
  {
    EscapeFrom(codes, 0);
    if k >= 2 {
      EscapeAt(codes[1..], k - 2);
      assert Escape(codes)[k] == Escape(codes[1..])[k - 2];
    }
  }

  /** What is read of a soft row, its text and attributes as they are written, ahead of the word x. */
  lemma {:induction false} SoftRowIsRead(
    t: string, attr: seq<Attr>, last: Attr, codes: string, x: char, more: string, cols: nat, tab: nat)
    requires tab > 0 && cols > 0 && |t| == |attr| && Printable(t) && AllCodes(codes) && Word(x) && Stream(more)
    ensures var z := [x] + more;
      var l := ReadLine(EncodeText(t, attr, last) + (Escape(codes) + z), NEW_ROW, last, cols, tab);
      var seen := Seen(attr, last, last);
      if |t| >= cols && FitsFrom(t, 0, cols) then
        l == Overlong(Row(t, seen, false, false), z, ApplyAll(LastAttr(seen, last), codes))
      else |l.row.text| != |t|
  {
    hide ReadLine, EncodeText, Escape, FitsFrom, Seen, ApplyAll, LastAttr, Stream, LineText;
    var z := [x] + more;
    ReadText(t, attr, last, Escape(codes) + z, NEW_ROW, last, cols, tab);
    var seen := Seen(attr, last, last);
    var r := Joined(NEW_ROW, t, seen);
    JoinedNew(t, seen);
    if FitsFrom(t, 0, cols) {
      var a := LastAttr(seen, last);
      ReadCodes(codes, z, r, a, cols, tab);
      ReadChar(x, more, r, ApplyAll(a, codes), cols, tab);
      if |t| < cols { StreamLine(more, Append(r, x, ApplyAll(a, codes)), ApplyAll(a, codes), cols, tab); }
    }
  }

  lemma {:induction false} JoinedNew(t: string, attr: seq<Attr>)
    requires |t| == |attr|
    ensures Joined(NEW_ROW, t, attr) == Row(t, attr, false, false)
  {
  }

  /** The last character of the row is not the letter of a code. */
  lemma {:induction false} NoCodeAtEnd(t: string, attr: seq<Attr>, last: Attr)
    requires |t| == |attr| && t != "" && Printable(t)
    ensures var e := EncodeText(t, attr, last); e != "" && (|e| >= 2 ==> e[|e| - 2] != CTRL_A)
  {
    hide EncodeText, Codes, Escape;
    var n := |t| - 1;
    var codes := Codes(LastAttr(attr[..n], last), attr[n]);
    var before := EncodeText(t[..n], attr[..n], last);
    assert t == t[..n] + [t[n]] && attr == attr[..n] + [attr[n]];
    EncodeTextSnoc(t[..n], attr[..n], last, t[n], attr[n]);
    CodesAreCodes(LastAttr(attr[..n], last), attr[n]);
    EncodedEnd(t[..n], attr[..n], last);
    if codes != "" {
      EscapeEnd(codes);
      assert IsCode(codes[|codes| - 1]);
    } else {
      EscapeNone(before);
      EscapeFrom(codes, 0);
    }
  }

  /** Going back by b comes to the beginning of a code just if nothing that shows is read again. */
  lemma {:induction false} BackIntoCodes(e: string, codes: string, b: nat, again: string)
    requires e != "" && (|e| >= 2 ==> e[|e| - 2] != CTRL_A)
    requires b <= |e| + |Escape(codes)| && (e + Escape(codes))[|e| + |Escape(codes)| - b..] == Escape(again)
    ensures b % 2 == 0 && b <= 2 * |codes|
  {
    EscapeFrom(codes, 0);
    EscapeFrom(again, 0);
    assert b == 2 * |again|;
    if b > 2 * |codes| { CodeAtEnd(e, codes, b, again); }
  }

  lemma {:induction false} CodeAtEnd(e: string, codes: string, b: nat, again: string)
    requires b <= |e| + |Escape(codes)| && (e + Escape(codes))[|e| + |Escape(codes)| - b..] == Escape(again)
    requires b == 2 * |again| > 2 * |codes|
    ensures |e| >= 2 && e[|e| - 2] == CTRL_A
  {
    hide Escape;
    EscapeFrom(codes, 0);
    var k := b - 2 * |codes| - 2;
    EscapeAt(again, k);
    assert (e + Escape(codes))[|e| + |Escape(codes)| - b..][k] == e[|e| - 2];
  }

  /** The texts of the rows d cannot be read where something else shows ahead of them. */
  lemma {:induction false} NothingMoreShows(
    d: seq<Row>, last: Attr, f: string, v: string, a: Attr, cols: nat, tab: nat)
    requires tab > 0 && cols > 0 && EndsHard(d) && AllPrintable(d) && Stream(f) && '\n' in f && v != ""
    requires LineText(f) == v + LineText(Encode(d, false, "", last)) && HasWord(LineText(Encode(d, false, "", last)))
    ensures !LoadsFrom(f, a, cols, tab, Document(d))
  {
    hide LoadsFrom, Encode, LineText, Stream, Texts, HasWord, BackBy;
    if LoadsFrom(f, a, cols, tab, Document(d)) {
      var z := FirstLineShows(d, false, last);
      var w := LineText(Encode(d, false, "", last));
      var m := GroupEnd(d, false);
      SameTexts(d, m);
      GroupRead(f, a, cols, tab, Document(d), m);
      BackBehind(v, w);
      BackOverBlanks(w, z);
    }
  }

  lemma {:induction false} SameTexts(d: seq<Row>, m: nat)
    requires m < |d|
    ensures Texts(Document(d)[..m + 1]) == Texts(d[..m + 1])
    decreases m
  {
    TextsFirst(d[..m + 1]);
    TextsFirst(Document(d)[..m + 1]);
    DocumentCons(d);
    if m == 0 {
      NoTexts(d[..1][1..]);
      NoTexts(Document(d)[..1][1..]);
    } else {
      assert d[..m + 1][1..] == d[1..][..m] && Document(d)[..m + 1][1..] == Document(d[1..])[..m];
      SameTexts(d[1..], m - 1);
    }
  }

  /** Codes ahead of a text do what they do to the attribute. */
  lemma {:induction false} LoadsBehindCodes(
    codes: string, z: string, a: Attr, cols: nat, tab: nat, rows: seq<RowValue>)
    requires tab > 0 && cols > 0 && AllCodes(codes) && z != "" && Stream(z) && Word(z[0])
    ensures LoadsFrom(Escape(codes) + z, a, cols, tab, rows) <==> LoadsFrom(z, ApplyAll(a, codes), cols, tab, rows)
  {
    hide ReadLine, LoadsFrom, Escape, Stream, Word, BackBy;
    var s := Escape(codes) + z;
    CodesPart(codes);
    StreamConcat(Escape(codes), z);
    StreamNoTab(s);
    StreamNoTab(z);
    ReadCodes(codes, z, NEW_ROW, a, cols, tab);
    LoadsNext(s, a, cols, tab, rows);
    LoadsNext(z, ApplyAll(a, codes), cols, tab, rows);
    FirstPlace(z, ApplyAll(a, codes), cols, tab);
    var l := ReadLine(z, NEW_ROW, ApplyAll(a, codes), cols, tab);
    RestIsBehind(z, NEW_ROW, ApplyAll(a, codes), cols, tab);
    SameFollowing(Escape(codes), z, l);
  }

  lemma {:induction false} SameFollowing(e: string, z: string, l: LineRead)
    requires |l.rest| + (if l.LineRead? then 0 else BackBy(l.row.text)) <= |z|
    ensures Following(e + z, l) == Following(z, l)
  {
    hide BackBy;
  }

  /** The text of a soft row, and what is read of it, when it comes before a word. */
  lemma {:induction false} SoftWritten(d: seq<Row>, last: Attr) returns (codes: string, z: string)
    requires EndsHard(d) && AllPrintable(d) && !d[0].hardcr && |d| > 1 && d[1].text != "" && d[1].text[0] != ' '
    ensures var last' := LastAttr(d[0].attr, last);
      && codes == Codes(last', d[1].attr[0]) && AllCodes(codes) && z != "" && Word(z[0]) && Stream(z)
      && Encode(d, false, "", last) == EncodeText(d[0].text, d[0].attr, last) + (Escape(codes) + z)
      && Encode(d[1..], false, "", last') == Escape(codes) + z
      && LineText(Encode(d[1..], false, "", last')) == LineText(z)
  {
    hide EncodeText, Codes, Escape, Rest, LineText, Stream, LastAttr, AfterGroup, Group;
    var last' := LastAttr(d[0].attr, last);
    var e, more := EncodeText(d[0].text, d[0].attr, last), Rest(d[1..], last');
    PrintableCons(d);
    PrintableCons(d[1..]);
    codes, z := Codes(last', d[1].attr[0]), [d[1].text[0]] + more;
    CodesAreCodes(last', d[1].attr[0]);
    assert EndsHard(d[1..]) && "" + e == e;
    WordWritten(d[1..], e, last');
    WordWritten(d[1..], "", last');
    EncodedStream(d[1..], false, last');
    hide Encode;
    ConcatThree("", "", Escape(codes) + z);
    StreamBehind(Escape(codes) + z, |Escape(codes)|);
    assert (Escape(codes) + z)[|Escape(codes)|..] == z;
    CodesPart(codes);
    PartShows(Escape(codes), z);
    assert "" + LineText(z) == LineText(z);
  }

  /** Going back into the codes. */
  lemma {:induction false} CleanBreak(
    e: string, codes: string, z: string, last: Attr, l: LineRead, cols: nat, tab: nat, rows: seq<RowValue>)
    requires tab > 0 && cols > 0 && AllCodes(codes) && z != "" && Stream(z) && Word(z[0])
    requires l.Overlong? && l.rest == z && l.a == ApplyAll(last, codes)
    requires BackBy(l.row.text) % 2 == 0 && BackBy(l.row.text) <= 2 * |codes|
    ensures LoadsFrom(Following(e + (Escape(codes) + z), l), l.a, cols, tab, rows)
       <==> LoadsFrom(Escape(codes) + z, last, cols, tab, rows)
  {
    hide LoadsFrom, Escape, Stream, Word, BackBy, ApplyAll;
    var x := |codes| - BackBy(l.row.text) / 2;
    EscapeFrom(codes, x);
    Reapplied(last, codes, x);
    assert Following(e + (Escape(codes) + z), l) == Escape(codes[x..]) + z;
    LoadsBehindCodes(codes[x..], z, l.a, cols, tab, rows);
    LoadsBehindCodes(codes, z, last, cols, tab, rows);
  }

  /** Going back to anything else. */
  lemma {:induction false} UncleanBreak(
    d: seq<Row>, last: Attr, codes: string, z: string, l: LineRead, cols: nat, tab: nat)
    requires tab > 0 && cols > 0 && EndsHard(d) && AllPrintable(d) && d[0].text != "" && AllCodes(codes) && d[1..] != []
    requires var e := EncodeText(d[0].text, d[0].attr, last);
      && Encode(d, false, "", last) == e + (Escape(codes) + z)
      && LineText(Encode(d[1..], false, "", LastAttr(d[0].attr, last))) == LineText(z)
    requires l == ReadLine(Encode(d, false, "", last), NEW_ROW, last, cols, tab) && l.Overlong? && l.rest == z
    requires l.row.text == d[0].text && !(BackBy(l.row.text) % 2 == 0 && BackBy(l.row.text) <= 2 * |codes|)
    ensures !LoadsFrom(Following(Encode(d, false, "", last), l), l.a, cols, tab, Document(d[1..]))
  {
    hide ReadLine, EncodeText, LoadsFrom, Encode, LineText, Stream, Following, Word, BackBy, HasWord, Escape, LastAttr;
    PrintableCons(d);
    var s, e := Encode(d, false, "", last), EncodeText(d[0].text, d[0].attr, last);
    assert EndsHard(d[1..]);
    EncodedStream(d, false, last);
    var y := FirstLineShows(d, false, last);
    var v, again := BrokenLine(s, last, cols, tab);
    var b := BackBy(l.row.text);
    if v == "" {
      NoCodeAtEnd(d[0].text, d[0].attr, last);
      assert s == e + Escape(codes) + z;
      PieceAhead(e + Escape(codes), z, b);
      BackIntoCodes(e, codes, b, again);
    }
    NothingMoreShows(d[1..], LastAttr(d[0].attr, last), Following(s, l), v, l.a, cols, tab);
  }

  lemma {:induction false} PieceAhead(w: string, z: string, b: nat)
    requires b <= |w|
    ensures (w + z)[|w + z| - |z| - b..][..b] == w[|w| - b..]
  {
  }

  lemma {:induction false} SoftFirst(d: seq<Row>, last: Attr, cols: nat, tab: nat)
    requires tab > 0 && cols > 0 && EndsHard(d) && AllPrintable(d) && !d[0].hardcr
    requires |d| > 1 && d[1].text != "" && d[1].text[0] != ' '
    ensures var last' := LastAttr(d[0].attr, last);
      LoadsFrom(Encode(d, false, "", last), last, cols, tab, Document(d))
      <==> BreaksClean(d[0], d[1], last, cols)
           && LoadsFrom(Encode(d[1..], false, "", last'), last', cols, tab, Document(d[1..]))
  {
    hide ReadLine, EncodeText, LoadsFrom, Encode, LineText, Stream, Following, BackBy, Escape, LastAttr, FitsFrom;
    hide Faithful;
    PrintableCons(d);
    var t, attr, last' := d[0].text, d[0].attr, LastAttr(d[0].attr, last);
    var s := Encode(d, false, "", last);
    var codes, z := SoftWritten(d, last);
    assert z == [z[0]] + z[1..];
    StreamBehind(z, 1);
    SoftRowIsRead(t, attr, last, codes, z[0], z[1..], cols, tab);
    EncodedStream(d, false, last);
    StreamNoTab(s);
    LoadsNext(s, last, cols, tab, Document(d));
    DocumentCons(d);
    var l := ReadLine(s, NEW_ROW, last, cols, tab);
    if |t| >= cols && FitsFrom(t, 0, cols) {
      SeenIffFaithful(attr, last);
      if Faithful(attr, last) {
        BackIs(t);
        if BackBy(t) % 2 == 0 && BackBy(t) <= 2 * |codes| {
          CleanBreak(EncodeText(t, attr, last), codes, z, last', l, cols, tab, Document(d[1..]));
        } else {
          UncleanBreak(d, last, codes, z, l, cols, tab);
        }
      }
    }
  }

  lemma {:induction false} BackIs(t: string)
    ensures LastWord(t) == -1 ==> BackBy(t) == 1
  {
    hide LastWord;
  }

  lemma {:induction false} HardFirst(d: seq<Row>, soft: bool, last: Attr, cols: nat, tab: nat)
    requires tab > 0 && cols > 0 && EndsHard(d) && AllPrintable(d) && d[0].hardcr
    ensures var last' := LastAttr(d[0].attr, last);
      LoadsFrom(Encode(d, soft, "", last), last, cols, tab, Document(d))
      <==> RowSurvives(d[0], last, cols)
           && LoadsFrom(Encode(d[1..], soft, "", last'), last', cols, tab, Document(d[1..]))
  {
    hide ReadLine, EncodeText, LoadsFrom, Encode, LineText, Stream, BackBy, LastAttr, RowSurvives, TrimEnd;
    var s, rest := Encode(d, soft, "", last), Encode(d[1..], soft, "", LastAttr(d[0].attr, last));
    PrintableCons(d);
    FirstWritten(d, soft, last);
    HardRowRoundTrip(d[0], last, rest, cols, tab);
    EncodedStream(d, soft, last);
    StreamNoTab(s);
    StreamLine(s, NEW_ROW, last, cols, tab);
    LoadsNext(s, last, cols, tab, Document(d));
    DocumentCons(d);
    var l := ReadLine(s, NEW_ROW, last, cols, tab);
    RestIsBehind(s, NEW_ROW, last, cols, tab);
  }

  lemma {:induction false} RowsComeBack(d: seq<Row>, soft: bool, last: Attr, cols: nat, tab: nat)
    requires tab > 0 && cols > 0 && AllPrintable(d) && (d == [] || EndsHard(d))
    ensures LoadsFrom(Encode(d, soft, "", last), last, cols, tab, Document(d)) <==> RowsSurvive(d, soft, last, cols)
    decreases |d|
  {
    if d == [] {
      LoadsNothing(last, cols, tab, Document(d));
      assert Document(d) == [];
    } else {
      PrintableCons(d);
      assert d[1..] == [] || EndsHard(d[1..]);
      RowsComeBack(d[1..], soft, LastAttr(d[0].attr, last), cols, tab);
      hide LoadsFrom, Encode, AllPrintable, RowSurvives, BreaksClean, LastAttr;
      if d[0].hardcr {
        HardFirst(d, soft, last, cols, tab);
      } else if !soft && |d| > 1 && d[1].text != "" && d[1].text[0] != ' ' {
        SoftFirst(d, last, cols, tab);
      } else {
        NotClean(d, soft, last, cols);
        if LoadsFrom(Encode(d, soft, "", last), last, cols, tab, Document(d)) { WordFollows(d, soft, last, cols, tab); }
      }
    }
  }

  lemma {:induction false} NotClean(d: seq<Row>, soft: bool, last: Attr, cols: nat)
    requires d != [] && !d[0].hardcr && (soft || |d| == 1 || d[1].text == "" || d[1].text[0] == ' ')
    ensures !FirstSurvives(d, soft, last, cols)
  {
  }

  /** A buffer of printable texts comes back, lines that are broken included, exactly when each row with a hard break
      survives and each row without one is broken where it ends. */
  lemma {:induction false} BuffersComeBack(d: seq<Row>, soft: bool, cols: nat, tab: nat)
    requires tab > 0 && cols > 0 && d != [] && AllPrintable(d)
    ensures var saved := ForceHard(d);
      Loads(Encode(saved, soft, "", NORMAL), cols, tab, Document(saved)) <==> RowsSurvive(saved, soft, NORMAL, cols)
  {
    var saved := ForceHard(d);
    assert EndsHard(saved) && AllPrintable(saved);
    RowsComeBack(saved, soft, NORMAL, cols, tab);
    hide Encode, RowsSurvive, Lines;
  }

  function SoftRow(): seq<Row> {
    [Row("a ", [NORMAL, NORMAL], false, false), Row("b", [Attr(RED, false, BLACK, false)], true, false)]
  }

  /** A buffer with a soft row that comes back: the row fills the screen and ends in one blank, and the next one is red,
      so the reader goes back over the blank and the character ahead of it - to the code for red. */
  lemma {:induction false} SoftRowExample()
    ensures Loads(Encode(SoftRow(), false, "", NORMAL), 2, 8, Document(SoftRow()))
  {
    hide Loads, Encode, Lines, RowsSurvive, AllPrintable;
    var d := SoftRow();
    SoftRowSurvives();
    assert ForceHard(d) == d;
    BuffersComeBack(d, false, 2, 8);
  }

  lemma {:induction false} SoftRowSurvives()
    ensures AllPrintable(SoftRow()) && RowsSurvive(SoftRow(), false, NORMAL, 2)
  {
    var red := Attr(RED, false, BLACK, false);
    var d := SoftRow();
    assert BackBy("a ") == 2 by { LastWordIs("a ", 0); }
    assert Codes(NORMAL, red) == "R";
    hide BackBy, LastWord, Codes;
    assert Faithful([], NORMAL) && Faithful([], red);
    assert [NORMAL, NORMAL][1..] == [NORMAL] && [NORMAL][1..] == [] && [red][1..] == [];
    assert Faithful([NORMAL], NORMAL) && Faithful([red], NORMAL);
    assert Faithful([NORMAL, NORMAL], NORMAL);
    hide Faithful;
    assert BreaksClean(d[0], d[1], NORMAL, 2) && RowSurvives(d[1], NORMAL, 2);
    hide BreaksClean, RowSurvives;
    assert d[1..] == [d[1]] && d[1..][1..] == [];
    assert RowsSurvive([], false, red, 2);
    assert RowsSurvive(d[1..], false, NORMAL, 2);
  }

  function CtrlARow(): seq<Row> {
    [Row(['a', CTRL_A], [NORMAL, NORMAL], false, false), Row("b", [Attr(RED, false, BLACK, false)], true, false)]
  }

  /** Even a Ctrl-A can come back, at the end of a soft row: it is read with the first half of the code behind it, and
      the reader then goes back to that half. */
  lemma {:induction false} CtrlARowExample()
    ensures Loads(Encode(CtrlARow(), false, "", NORMAL), 2, 8, Document(CtrlARow()))
  {
    var d, s, red := CtrlARow(), Encode(CtrlARow(), false, "", NORMAL), Attr(RED, false, BLACK, false);
    var behind := [CTRL_A, 'R'] + "b\r\n";
    CtrlARowWritten();
    CtrlARead(s);
    RedRead(behind);
    hide *;
    LoadsNext(s, NORMAL, 2, 8, Document(d));
    LoadsNext(behind, NORMAL, 2, 8, Document(d)[1..]);
    LoadsNothing(red, 2, 8, Document(d)[1..][1..]);
    CtrlADocument();
    SameLoads(s, Document(d));
  }

  lemma {:induction false} SameLoads(s: string, rows: seq<RowValue>)
    ensures Loads(s, 2, 8, rows) <==> LoadsFrom(s, NORMAL, 2, 8, rows)
  {
    hide Lines;
  }

  lemma {:induction false} CtrlADocument()
    ensures var d := Document(CtrlARow());
      |d| == 2 && d[0] == CtrlARow()[0] && d[1..][0] == CtrlARow()[1] && d[1..][1..] == []
  {
  }

  lemma {:induction false} CtrlARowWritten()
    ensures Encode(CtrlARow(), false, "", NORMAL) == ['a', CTRL_A] + ([CTRL_A, 'R'] + "b\r\n")
    ensures '\t' !in ['a', CTRL_A] + ([CTRL_A, 'R'] + "b\r\n")
  {
    var red, d := Attr(RED, false, BLACK, false), CtrlARow();
    GrayWritten();
    RedWritten();
    hide EncodeText, TrimEnd;
    assert d[1..] == [d[1]] && d[1..][1..] == [];
    NothingTrimmedThere();
    assert "" + ['a', CTRL_A] == ['a', CTRL_A];
    assert Encode([], false, "", red) == "";
    assert Encode(d[1..], false, ['a', CTRL_A], NORMAL) == ['a', CTRL_A, CTRL_A, 'R', 'b'] + "\r\n" + "";
  }

  lemma {:induction false} GrayWritten()
    ensures EncodeText(['a', CTRL_A], [NORMAL, NORMAL], NORMAL) == ['a', CTRL_A]
    ensures LastAttr([NORMAL, NORMAL], NORMAL) == NORMAL
  {
    assert Escape(Codes(NORMAL, NORMAL)) == "" && EncodeText("", [], NORMAL) == "";
    assert ['a', CTRL_A][1..] == [CTRL_A] && [CTRL_A][1..] == "";
    assert [NORMAL, NORMAL][1..] == [NORMAL] && [NORMAL][1..] == [];
    hide Codes, Escape;
    assert EncodeText([CTRL_A], [NORMAL], NORMAL) == "" + [CTRL_A] + "";
    assert EncodeText(['a', CTRL_A], [NORMAL, NORMAL], NORMAL) == "" + ['a'] + [CTRL_A];
  }

  lemma {:induction false} RedWritten()
    ensures EncodeText("b", [Attr(RED, false, BLACK, false)], NORMAL) == [CTRL_A, 'R', 'b']
  {
    var red := Attr(RED, false, BLACK, false);
    assert Codes(NORMAL, red) == "R";
    hide Codes;
    assert Escape("R") == [CTRL_A, 'R'];
    hide Escape;
    assert "b"[1..] == "" && [red][1..] == [];
  }

  lemma {:induction false} NothingTrimmedThere()
    ensures ['a', CTRL_A] + [CTRL_A, 'R', 'b'] == ['a', CTRL_A, CTRL_A, 'R', 'b']
    ensures TrimEnd(['a', CTRL_A, CTRL_A, 'R', 'b']) == ['a', CTRL_A, CTRL_A, 'R', 'b']
  {
  }

  lemma {:induction false} CtrlARead(s: string)
    requires s == ['a', CTRL_A] + ([CTRL_A, 'R'] + "b\r\n")
    ensures var l := ReadLine(s, NEW_ROW, NORMAL, 2, 8);
      Kept(l) == CtrlARow()[0] && l.a == NORMAL && Following(s, l) == [CTRL_A, 'R'] + "b\r\n"
  {
    var a := Append(NEW_ROW, 'a', NORMAL);
    var row := Append(a, CTRL_A, NORMAL);
    var z := [CTRL_A, CTRL_A] + "Rb\r\n";
    assert s == ['a'] + z && z[2..] == "Rb\r\n" && "Rb\r\n" == ['R'] + "b\r\n";
    ReadChar('a', z, NEW_ROW, NORMAL, 2, 8);
    ReadChar('R', "b\r\n", row, NORMAL, 2, 8);
    hide Apply;
    assert ReadLine(z, a, NORMAL, 2, 8) == ReadLine("Rb\r\n", row, NORMAL, 2, 8);
    hide ReadLine;
    assert row == CtrlARow()[0];
    LastWordIs(row.text, 1);
    hide LastWord;
    assert s[|s| - 5..] == [CTRL_A, 'R'] + "b\r\n";
  }

  lemma {:induction false} RedRead(s: string)
    requires s == [CTRL_A, 'R'] + "b\r\n"
    ensures var l := ReadLine(s, NEW_ROW, NORMAL, 2, 8);
      Kept(l) == CtrlARow()[1] && l.a == Attr(RED, false, BLACK, false) && Following(s, l) == ""
    ensures '\t' !in s
  {
    var red := Attr(RED, false, BLACK, false);
    var b := Append(NEW_ROW, 'b', red);
    assert Apply(NORMAL, 'R') == red;
    assert s[2..] == "b\r\n" && "b\r\n" == ['b'] + ("\r\n" + "");
    ReadChar('b', "\r\n" + "", NEW_ROW, red, 2, 8);
    ReadBreak("", b, red, 2, 8);
    assert ReadLine(s, NEW_ROW, NORMAL, 2, 8) == ReadLine("b\r\n", NEW_ROW, red, 2, 8);
    hide ReadLine, Apply;
  }
}
