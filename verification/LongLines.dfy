/** The loop of `make_lines`, lines that it has to break included. */
module LongLines {
  import opened Options
  import opened EditorText
  import opened ColourCodec
  import opened ColourRoundTrip

  // ---------- Breaking a line ----------

  predicate IsBlank(c: char) {
    c == ' ' || c == '\t'
  }

  /** The place of the last character that is no blank; -1 if there is none. */
  function LastWord(t: string): (o: int)
    ensures -1 <= o < |t| && (o >= 0 ==> !IsBlank(t[o]))
    ensures forall i :: o < i < |t| ==> IsBlank(t[i])
  {
    if t == "" then -1
    else if !IsBlank(t[|t| - 1]) then |t| - 1
    else LastWord(t[..|t| - 1])
  }

  /** How far the reader goes back from the character for which the row has no room. */
  function BackBy(t: string): (n: nat)
    ensures n >= 1
  {
    if LastWord(t) == -1 then 1 else |t| - LastWord(t)
  }

  /** A row, the place in the text where the next one begins, and the attribute then in force. */
  datatype RowAt = RowAt(row: RowValue, next: int, a: Attr)

  /** The row that was read, when there are n characters in the text. */
  function Finish(n: nat, l: LineRead): RowAt
    requires |l.rest| <= n
  {
    var at := n - |l.rest|;
    if l.LineRead? then RowAt(l.row, at, l.a)
    else RowAt(l.row.(kludged := l.row.kludged || LastWord(l.row.text) == -1), at - BackBy(l.row.text), l.a)
  }

  /** Going back over a tab can lead ahead of the text; there are no characters there, but the row gets an attribute
      for each place. */
  function AheadOf(i: int, a: Attr, r: RowValue): RowValue {
    if i < 0 then r.(attr := seq(-i, _ => a) + r.attr) else r
  }

  /** The row that begins at place i. */
  function ReadAt(str: string, i: int, a: Attr, cols: nat, tab: nat): RowAt
    requires tab > 0 && i <= |str|
  {
    Placed(|str|, i, a, ReadLine(str[if i < 0 then 0 else i..], NEW_ROW, a, cols, tab))
  }

  function Placed(n: nat, i: int, a: Attr, l: LineRead): RowAt
    requires |l.rest| <= n
  {
    Finish(n, l).(row := AheadOf(i, a, Finish(n, l).row))
  }

  /** A row is marked as cut exactly if the line is broken behind blanks alone; it goes on one character back then, and
      behind the last character that is no blank otherwise, which is read again. */
  lemma {:induction false} BrokenRow(str: string, i: nat, a: Attr, cols: nat, tab: nat)
    requires tab > 0 && i <= |str|
    ensures var l, r := ReadLine(str[i..], NEW_ROW, a, cols, tab), ReadAt(str, i, a, cols, tab);
      var at := |str| - |l.rest|;
      && (l.LineRead? ==> r.next == at && r.row == l.row)
      && (l.Overlong? ==>
            r.row == l.row.(kludged := r.row.kludged) && r.a == l.a
            && if forall k :: 0 <= k < |l.row.text| ==> l.row.text[k] in " \t" then r.row.kludged && r.next == at - 1
               else
                 r.row.kludged == l.row.kludged && at - |l.row.text| <= r.next < at
                 && var o := |l.row.text| - (at - r.next);
                    l.row.text[o] !in " \t" && forall k :: o < k < |l.row.text| ==> l.row.text[k] in " \t")
  {
    hide ReadLine;
  }

  function Onto(r: RowValue, more: Option<seq<RowValue>>): Option<seq<RowValue>> {
    if more.None? then None else Some([r] + more.value)
  }

  /** The rows from place i on, if there are no more than n; else None. */
  function Lines(str: string, i: int, a: Attr, cols: nat, tab: nat, n: nat): Option<seq<RowValue>>
    requires tab > 0
    decreases n
  {
    if i >= |str| then Some([])
    else if n == 0 then None
    else
      var l := ReadAt(str, i, a, cols, tab);
      Onto(l.row, Lines(str, l.next, l.a, cols, tab, n - 1))
  }

  lemma {:induction false} LinesNext(str: string, i: int, a: Attr, cols: nat, tab: nat, n: nat)
    requires tab > 0 && i < |str| && n > 0
    ensures var l := ReadAt(str, i, a, cols, tab);
      Lines(str, i, a, cols, tab, n) == Onto(l.row, Lines(str, l.next, l.a, cols, tab, n - 1))
  {
    hide ReadAt;
  }

  // ---------- Lines that need not be broken ----------

  lemma {:induction false} Suffix(s: string, k: nat, n: nat)
    requires k + n <= |s|
    ensures s[k..][|s[k..]| - n..] == s[|s| - n..]
  {
  }

  /** Nothing more is read into the row. */
  predicate RowEnds(s: string, r: Row, cols: nat) {
    s == "" || s[0] == '\n' || (s[0] == CTRL_A && |s| == 1) || (!IsControl(s[0]) && s[0] != ' ' && |r.text| >= cols)
  }

  /** One step of the reader. */
  lemma {:induction false} ReadStep(s: string, r: Row, a: Attr, cols: nat, tab: nat) returns (k: nat, r': Row, a': Attr)
    requires tab > 0 && !RowEnds(s, r, cols)
    ensures 0 < k <= |s| && r'.hardcr == r.hardcr
    ensures ReadLine(s, r, a, cols, tab) == ReadLine(s[k..], r', a', cols, tab)
  {
    hide Apply, AppendTab;
    k, r', a' := 1, r, a;
    if s[0] == CTRL_A {
      k := 2;
      if s[1] == CTRL_A { r' := Append(r, CTRL_A, a); } else { a' := Apply(a, s[1]); }
    } else if s[0] == '\t' {
      r' := AppendTab(r, a, tab);
      assert r'.hardcr == r.hardcr by { TabKeeps(r, a, tab); }
    } else if s[0] != '\r' {
      r' := Append(r, s[0], a);
    }
  }

  lemma {:induction false} TabKeeps(r: Row, a: Attr, tab: nat)
    requires tab > 0
    ensures AppendTab(r, a, tab).hardcr == r.hardcr
  {
  }

  lemma {:induction false} EndIsBehind(s: string, r: Row, a: Attr, cols: nat, tab: nat)
    requires tab > 0 && RowEnds(s, r, cols)
    ensures var l := ReadLine(s, r, a, cols, tab);
      l.rest == s[|s| - |l.rest|..] && (l.Overlong? ==> l.row.hardcr == r.hardcr)
  {
    assert s[|s|..] == "" && s[0..] == s;
  }

  lemma {:induction false} RestIsBehind(s: string, r: Row, a: Attr, cols: nat, tab: nat)
    requires tab > 0
    ensures var l := ReadLine(s, r, a, cols, tab);
      l.rest == s[|s| - |l.rest|..] && (l.Overlong? ==> l.row.hardcr == r.hardcr)
    decreases |s|
  {
    hide ReadLine, RowEnds;
    if RowEnds(s, r, cols) {
      EndIsBehind(s, r, a, cols, tab);
    } else {
      var k, r', a' := ReadStep(s, r, a, cols, tab);
      RestIsBehind(s[k..], r', a', cols, tab);
      Suffix(s, k, |ReadLine(s, r, a, cols, tab).rest|);
    }
  }

  /** The next row, where no line is broken. */
  lemma {:induction false} Unbroken(str: string, i: nat, a: Attr, cols: nat, tab: nat)
    requires tab > 0 && i < |str|
    ensures var l, x := ReadLine(str[i..], NEW_ROW, a, cols, tab), ReadAt(str, i, a, cols, tab);
      && (l.LineRead? ==> i < x.next <= |str| && x == RowAt(l.row, x.next, l.a) && l.rest == str[x.next..])
      && (l.Overlong? ==> !x.row.hardcr)
  {
    RestIsBehind(str[i..], NEW_ROW, a, cols, tab);
    var l := ReadLine(str[i..], NEW_ROW, a, cols, tab);
    hide ReadLine;
    assert str[i..][|str| - i - |l.rest|..] == str[|str| - |l.rest|..];
  }

  lemma {:induction false} DecodeNext(s: string, a: Attr, cols: nat, tab: nat)
    requires tab > 0 && s != ""
    ensures var l := ReadLine(s, NEW_ROW, a, cols, tab);
      Decode(s, a, cols, tab) == if l.LineRead? then Onto(l.row, Decode(l.rest, l.a, cols, tab)) else None
  {
    hide ReadLine;
  }

  /** A text is read as it should be if no line has to be broken. */
  lemma {:induction false} DecodedLines(str: string, i: nat, a: Attr, cols: nat, tab: nat, n: nat)
    requires tab > 0 && i <= |str| && n >= |str| - i && Decode(str[i..], a, cols, tab).Some?
    ensures Lines(str, i, a, cols, tab, n) == Decode(str[i..], a, cols, tab)
    decreases n
  {
    hide ReadLine, ReadAt, Decode;
    if i < |str| {
      DecodeNext(str[i..], a, cols, tab);
      Unbroken(str, i, a, cols, tab);
      var x := ReadAt(str, i, a, cols, tab);
      DecodedLines(str, x.next, x.a, cols, tab, n - 1);
    } else {
      assert str[i..] == "";
      DecodedNone(a, cols, tab);
    }
  }

  lemma {:induction false} DecodedNone(a: Attr, cols: nat, tab: nat)
    requires tab > 0
    ensures Decode("", a, cols, tab) == Some([])
  {
  }

  ghost predicate AllHard(d: seq<RowValue>) {
    forall i :: 0 <= i < |d| ==> d[i].hardcr
  }

  /** With room for more rows the same are read. */
  lemma {:induction false} RoomForMore(str: string, i: int, a: Attr, cols: nat, tab: nat, n: nat, m: nat)
    requires tab > 0 && n <= m && Lines(str, i, a, cols, tab, n).Some?
    ensures Lines(str, i, a, cols, tab, m) == Lines(str, i, a, cols, tab, n)
    decreases n
  {
    hide ReadAt;
    if i < |str| {
      var l := ReadAt(str, i, a, cols, tab);
      RoomForMore(str, l.next, l.a, cols, tab, n - 1, m - 1);
    }
  }

  /** If all rows come out hard, no line was broken. */
  lemma {:induction false} HardLines(str: string, i: nat, a: Attr, cols: nat, tab: nat, n: nat)
    requires tab > 0 && i <= |str| && Lines(str, i, a, cols, tab, n).Some?
    requires AllHard(Lines(str, i, a, cols, tab, n).value)
    ensures Lines(str, i, a, cols, tab, n) == Decode(str[i..], a, cols, tab)
    decreases n
  {
    hide ReadLine, ReadAt, Decode;
    if i < |str| {
      DecodeNext(str[i..], a, cols, tab);
      Unbroken(str, i, a, cols, tab);
      var x := ReadAt(str, i, a, cols, tab);
      var rows, more := Lines(str, i, a, cols, tab, n).value, Lines(str, x.next, x.a, cols, tab, n - 1);
      assert rows == [x.row] + more.value;
      assert rows[0].hardcr;
      assert forall k :: 0 <= k < |more.value| ==> more.value[k] == rows[k + 1];
      HardLines(str, x.next, x.a, cols, tab, n - 1);
    } else {
      assert str[i..] == "";
      DecodedNone(a, cols, tab);
    }
  }

  // ---------- The round trip, lines that are broken included ----------

  /** The rows that are read from the whole text. */
  ghost predicate Loads(str: string, cols: nat, tab: nat, rows: seq<RowValue>)
    requires tab > 0
  {
    exists n: nat :: Lines(str, 0, NORMAL, cols, tab, n) == Some(rows)
  }

  lemma {:induction false} OnlyTheseLoad(str: string, cols: nat, tab: nat, n: nat, rows: seq<RowValue>)
    requires tab > 0 && Lines(str, 0, NORMAL, cols, tab, n).Some?
    ensures Loads(str, cols, tab, rows) <==> Lines(str, 0, NORMAL, cols, tab, n) == Some(rows)
  {
    hide Lines;
    if Loads(str, cols, tab, rows) {
      var m: nat :| Lines(str, 0, NORMAL, cols, tab, m) == Some(rows);
      RoomForMore(str, 0, NORMAL, cols, tab, m, m + n);
      RoomForMore(str, 0, NORMAL, cols, tab, n, m + n);
    }
  }

  lemma {:induction false} LoadsHard(str: string, cols: nat, tab: nat, rows: seq<RowValue>)
    requires tab > 0 && AllHard(rows)
    ensures Loads(str, cols, tab, rows) <==> Decode(str, NORMAL, cols, tab) == Some(rows)
  {
    hide Decode, Lines, AllHard;
    assert str[0..] == str;
    if Loads(str, cols, tab, rows) {
      var n: nat :| Lines(str, 0, NORMAL, cols, tab, n) == Some(rows);
      HardLines(str, 0, NORMAL, cols, tab, n);
    }
    if Decode(str, NORMAL, cols, tab) == Some(rows) {
      DecodedLines(str, 0, NORMAL, cols, tab, |str|);
    }
  }

  lemma {:induction false} SurvivorsAreHard(d: seq<Row>, last: Attr, cols: nat)
    requires BufferSurvives(d, last, cols)
    ensures AllHard(d) && AllHard(Document(d))
    decreases |d|
  {
    if d != [] {
      hide RowSurvives;
      SurvivorsAreHard(d[1..], LastAttr(d[0].attr, last), cols);
      assert d[0].hardcr by { assert RowSurvives(d[0], last, cols); FirstIsHard(d[0], last, cols); }
      forall i | 0 <= i < |d| ensures d[i].hardcr { if i > 0 { assert d[i] == d[1..][i - 1]; } }
    }
  }

  lemma {:induction false} FirstIsHard(r: Row, last: Attr, cols: nat)
    requires RowSurvives(r, last, cols)
    ensures r.hardcr
  {
  }

  /** Of any buffer: it comes back, and all its rows are hard, exactly when it survives. */
  lemma {:induction false} SaveAndLoadLines(d: seq<Row>, soft: bool, cols: nat, tab: nat)
    requires tab > 0 && d != []
    ensures var saved := ForceHard(d);
      Loads(Encode(saved, soft, "", NORMAL), cols, tab, Document(saved)) && AllHard(saved)
      <==> AllPrintable(saved) && BufferSurvives(saved, NORMAL, cols)
  {
    var saved := ForceHard(d);
    var s := Encode(saved, soft, "", NORMAL);
    hide Encode, Decode, BufferSurvives, AllPrintable, Loads, ForceHard;
    SaveAndLoad(d, soft, cols, tab);
    if BufferSurvives(saved, NORMAL, cols) { SurvivorsAreHard(saved, NORMAL, cols); }
    if AllHard(saved) { LoadsHard(s, cols, tab, Document(saved)); }
  }

  /** If a buffer with a soft row comes back, a line was broken. */
  lemma {:induction false} SoftRowsNeedABreak(d: seq<Row>, soft: bool, cols: nat, tab: nat)
    requires tab > 0 && d != [] && !AllHard(ForceHard(d))
    requires Loads(Encode(ForceHard(d), soft, "", NORMAL), cols, tab, Document(ForceHard(d)))
    ensures Decode(Encode(ForceHard(d), soft, "", NORMAL), NORMAL, cols, tab) == None
  {
    hide Encode, Decode, BufferSurvives, AllPrintable, ForceHard, Lines, AllHard, Loads;
    var saved := ForceHard(d);
    var s := Encode(saved, soft, "", NORMAL);
    SaveAndLoad(d, soft, cols, tab);
    if BufferSurvives(saved, NORMAL, cols) { SurvivorsAreHard(saved, NORMAL, cols); }
    if Decode(s, NORMAL, cols, tab).Some? { LoadsDecoded(s, cols, tab, Document(saved)); }
  }

  /** Where no line is broken, nothing else is read. */
  lemma {:induction false} LoadsDecoded(str: string, cols: nat, tab: nat, rows: seq<RowValue>)
    requires tab > 0 && Decode(str, NORMAL, cols, tab).Some?
    ensures Loads(str, cols, tab, rows) <==> Decode(str, NORMAL, cols, tab) == Some(rows)
  {
    hide Decode, Lines, Loads;
    assert str[0..] == str;
    DecodedLines(str, 0, NORMAL, cols, tab, |str|);
    OnlyTheseLoad(str, cols, tab, |str|, rows);
  }

  // ---------- Whether the loop ends ----------

  lemma {:induction false} StuckForever(str: string, i: nat, a: Attr, cols: nat, tab: nat, n: nat)
    requires tab > 0 && i < |str| && ReadAt(str, i, a, cols, tab).next == i && ReadAt(str, i, a, cols, tab).a == a
    ensures Lines(str, i, a, cols, tab, n) == None
    decreases n
  {
    hide ReadAt;
    if n > 0 { StuckForever(str, i, a, cols, tab, n - 1); }
  }

  ghost predicate Ends(str: string, i: int, a: Attr, cols: nat, tab: nat)
    requires tab > 0
  {
    exists n: nat :: Lines(str, i, a, cols, tab, n).Some?
  }

  lemma {:induction false} EndsLater(str: string, i: int, a: Attr, cols: nat, tab: nat)
    requires tab > 0 && i < |str|
    ensures var x := ReadAt(str, i, a, cols, tab); Ends(str, i, a, cols, tab) <==> Ends(str, x.next, x.a, cols, tab)
  {
    hide ReadAt, Lines;
    var x := ReadAt(str, i, a, cols, tab);
    if Ends(str, i, a, cols, tab) {
      var n: nat :| Lines(str, i, a, cols, tab, n).Some?;
      if n == 0 { NoRows(str, i, a, cols, tab); } else { LinesNext(str, i, a, cols, tab, n); }
    }
    if Ends(str, x.next, x.a, cols, tab) {
      var n: nat :| Lines(str, x.next, x.a, cols, tab, n).Some?;
      LinesNext(str, i, a, cols, tab, n + 1);
    }
  }

  lemma {:induction false} NoRows(str: string, i: int, a: Attr, cols: nat, tab: nat)
    requires tab > 0 && i < |str|
    ensures Lines(str, i, a, cols, tab, 0) == None
  {
  }
}
