/** The loops that turn the editor's buffer into message text
    and message text into rows. */
module MessageText {
  import opened Options
  import opened EditorText
  import opened ColourCodec
  import opened ColourRoundTrip
  import opened LongLines
  import Editor

  // ---------- make_strings(soft, true) ----------

  lemma {:induction false} EscapeConcat(c: string, d: string)
    ensures Escape(c + d) == Escape(c) + Escape(d)
    decreases |c|
  {
    if c == "" {
      assert c + d == d;
    } else {
      assert (c + d)[1..] == c[1..] + d;
      EscapeConcat(c[1..], d);
    }
  }

  lemma {:induction false} EscapeOne(c: char)
    ensures Escape([c]) == [CTRL_A, c]
  {
    assert [c][1..] == "";
  }

  lemma {:induction false} AppendCode(str: string, before: string, codes: string, p: bool, c: char)
    requires str == before + Escape(codes)
    ensures (if p then str + [CTRL_A, c] else str) == before + Escape(codes + CodeIf(p, c))
  {
    EscapeConcat(codes, CodeIf(p, c));
    EscapeOne(c);
    assert codes + "" == codes;
    hide Escape;
  }

  /** The codes between two characters, written one after the other. */
  method WriteCodes(before: string, last: Attr, a: Attr) returns (str: string)
    ensures str == before + Escape(Codes(last, a))
  {
    hide Escape, ForegroundCode, BackgroundCode;
    str := before;
    assert before + Escape("") == before by { NoCodes(); }
    if a != last {
      var from := last;
      if (!a.blink && last.blink) || (!a.high && last.high) {
        from := NORMAL;
        str := str + [CTRL_A, 'N'];
      }
      ghost var codes := CodeIf(MustReset(last, a), 'N');
      AppendCode(before, before, "", MustReset(last, a), 'N');
      assert "" + codes == codes;
      AppendCode(str, before, codes, a.blink && !from.blink, 'I');
      if a.blink && !from.blink {
        str := str + [CTRL_A, 'I'];
      }
      codes := codes + CodeIf(a.blink && !from.blink, 'I');
      AppendCode(str, before, codes, a.high && !from.high, 'H');
      if a.high && !from.high {
        str := str + [CTRL_A, 'H'];
      }
      codes := codes + CodeIf(a.high && !from.high, 'H');
      AppendCode(str, before, codes, a.fg != from.fg, ForegroundCode(a.fg));
      if a.fg != from.fg {
        str := str + [CTRL_A, ForegroundCode(a.fg)];
      }
      codes := codes + CodeIf(a.fg != from.fg, ForegroundCode(a.fg));
      AppendCode(str, before, codes, a.bg != from.bg, BackgroundCode(a.bg));
      if a.bg != from.bg {
        str := str + [CTRL_A, BackgroundCode(a.bg)];
      }
    }
  }

  lemma {:induction false} NoCodes()
    ensures Escape("") == ""
  {
  }

  predicate AtLineStart(s: string) {
    s == "" || s[|s| - 1] == '\n'
  }

  /** Trimming the whole text trims only what was written since the last line feed. */
  lemma {:induction false} TrimBehind(done: string, line: string)
    requires AtLineStart(done)
    ensures TrimEnd(done + line) == done + TrimEnd(line)
    decreases |line|
  {
    if line == "" {
      assert done + line == done;
    } else {
      var n := |line| - 1;
      assert (done + line)[..|done + line| - 1] == done + line[..n];
      if line[n] == ' ' || line[n] == '\t' { TrimBehind(done, line[..n]); }
    }
  }

  lemma {:induction false} OneMoreChar(before: string, text: string, attr: seq<Attr>, last: Attr, j: nat)
    requires |text| == |attr| && j < |text|
    ensures var codes := Escape(Codes(LastAttr(attr[..j], last), attr[j]));
      before + EncodeText(text[..j], attr[..j], last) + codes + [text[j]]
      == before + EncodeText(text[..j + 1], attr[..j + 1], last)
  {
    hide Codes, Escape, EncodeText, LastAttr;
    var e, c := EncodeText(text[..j], attr[..j], last), Escape(Codes(LastAttr(attr[..j], last), attr[j]));
    assert text[..j + 1] == text[..j] + [text[j]] && attr[..j + 1] == attr[..j] + [attr[j]];
    EncodeTextSnoc(text[..j], attr[..j], last, text[j], attr[j]);
    JoinFour(before, e, c, [text[j]]);
  }

  lemma {:induction false} JoinFour(a: string, b: string, c: string, d: string)
    ensures a + b + c + d == a + (b + (c + d))
  {
  }

  method WriteRow(before: string, text: string, attr: seq<Attr>, last: Attr) returns (str: string, last': Attr)
    requires |text| == |attr|
    ensures str == before + EncodeText(text, attr, last) && last' == LastAttr(attr, last)
  {
    str, last' := before, last;
    var j := 0;
    assert before + EncodeText(text[..0], attr[..0], last) == before;
    hide Codes, Escape, EncodeText;
    while j < |text|
      invariant 0 <= j <= |text|
      invariant str == before + EncodeText(text[..j], attr[..j], last)
      invariant last' == LastAttr(attr[..j], last)
    {
      OneMoreChar(before, text, attr, last, j);
      str := WriteCodes(str, last', attr[j]);
      str := str + [text[j]];
      last' := attr[j];
      j := j + 1;
    }
    assert text[..j] == text && attr[..j] == attr;
  }

  lemma {:induction false} OneMoreRow(
    v: seq<Row>, i: nat, soft: bool, done: string, line: string, last: Attr, str: string)
    requires i < |v| && AtLineStart(done) && str == done + line + EncodeText(v[i].text, v[i].attr, last)
    ensures var l := line + EncodeText(v[i].text, v[i].attr, last);
      var last' := LastAttr(v[i].attr, last);
      && str == done + l
      && done + Encode(v[i..], soft, line, last)
         == if soft || v[i].hardcr then (TrimEnd(str) + "\r\n") + Encode(v[i + 1..], soft, "", last')
           else done + Encode(v[i + 1..], soft, l, last')
  {
    hide EncodeText, TrimEnd, LastAttr;
    var l := line + EncodeText(v[i].text, v[i].attr, last);
    assert str == done + l;
    TrimBehind(done, l);
    assert v[i..][0] == v[i] && v[i..][1..] == v[i + 1..];
    if soft || v[i].hardcr {
      JoinFour(done, TrimEnd(l), "\r\n", Encode(v[i + 1..], soft, "", LastAttr(v[i].attr, last)));
    }
  }

  /** The loop stands before row i: `done` ends in a line feed, `line` was written since. */
  ghost predicate Joining(v: seq<Row>, i: nat, soft: bool, done: string, line: string, last: Attr, str: string) {
    && i <= |v| && str == done + line && AtLineStart(done)
    && done + Encode(v[i..], soft, line, last) == Encode(v, soft, "", NORMAL)
  }

  lemma {:induction false} JoiningStarts(v: seq<Row>, soft: bool)
    ensures Joining(v, 0, soft, "", "", NORMAL, "")
  {
    hide Encode;
    assert v[0..] == v && "" + Encode(v, soft, "", NORMAL) == Encode(v, soft, "", NORMAL);
  }

  lemma {:induction false} JoinedHard(
    v: seq<Row>, i: nat, soft: bool, done: string, line: string, last: Attr, str: string)
    requires i < |v| && Joining(v, i, soft, done, line, last, str) && (soft || v[i].hardcr)
    ensures var str' := TrimEnd(str + EncodeText(v[i].text, v[i].attr, last)) + "\r\n";
      Joining(v, i + 1, soft, str', "", LastAttr(v[i].attr, last), str')
  {
    hide Encode, EncodeText, TrimEnd, LastAttr;
    OneMoreRow(v, i, soft, done, line, last, str + EncodeText(v[i].text, v[i].attr, last));
  }

  lemma {:induction false} JoinedSoft(
    v: seq<Row>, i: nat, soft: bool, done: string, line: string, last: Attr, str: string)
    requires i < |v| && Joining(v, i, soft, done, line, last, str) && !soft && !v[i].hardcr
    ensures var e := EncodeText(v[i].text, v[i].attr, last);
      Joining(v, i + 1, soft, done, line + e, LastAttr(v[i].attr, last), str + e)
  {
    hide Encode, EncodeText, TrimEnd, LastAttr;
    OneMoreRow(v, i, soft, done, line, last, str + EncodeText(v[i].text, v[i].attr, last));
  }

  lemma {:induction false} JoiningEnds(v: seq<Row>, soft: bool, done: string, line: string, last: Attr, str: string)
    requires Joining(v, |v|, soft, done, line, last, str)
    ensures str == Encode(v, soft, "", NORMAL)
  {
    NoMoreRows(v[|v|..], soft, line, last);
  }

  /** The loop of `make_strings` over the lines of the buffer. */
  method JoinRows(b: Editor.Buffer, soft: bool) returns (str: string)
    requires b.Valid()
    ensures str == Encode(b.View(), soft, "", NORMAL)
  {
    hide EncodeText, TrimEnd, Encode, LastAttr, Joining;
    ghost var v := b.View();
    str := "";
    var last := NORMAL;
    ghost var done, line := "", "";
    var i := 0;
    JoiningStarts(v, soft);
    while i < |b.line|
      invariant 0 <= i <= |v|
      invariant Joining(v, i, soft, done, line, last, str)
    {
      var text, attr, hard := b.line[i].text, b.line[i].attr, b.line[i].hardcr;
      assert v[i] == b.line[i].Value();
      if soft || hard {
        JoinedHard(v, i, soft, done, line, last, str);
      } else {
        JoinedSoft(v, i, soft, done, line, last, str);
      }
      line := line + EncodeText(text, attr, last);
      str, last := WriteRow(str, text, attr, last);
      if soft || hard {
        str := TrimEnd(str) + "\r\n";
        done, line := str, "";
      }
      i := i + 1;
    }
    JoiningEnds(v, soft, done, line, last, str);
  }

  /** `make_strings` with embedded colours. It makes the last line of the buffer hard, and changes
      nothing else there. */
  method MakeStrings(b: Editor.Buffer, soft: bool) returns (str: string)
    requires b.Valid() && b.line != []
    modifies b.line[|b.line| - 1]
    ensures b.Valid() && b.line == old(b.line)
    ensures b.View() == ForceHard(old(b.View()))
    ensures str == Encode(b.View(), soft, "", NORMAL)
  {
    hide Encode;
    b.SetHard(|b.line| - 1);
    str := JoinRows(b, soft);
  }

  lemma {:induction false} NoMoreRows(d: seq<Row>, soft: bool, line: string, last: Attr)
    requires d == []
    ensures Encode(d, soft, line, last) == line
  {
  }

  // ---------- make_lines(str, '', true) ----------

  lemma {:induction false} ReadOn(str: string, i: nat, row: Row, a: Attr, cols: nat, tab: nat)
    requires tab > 0 && i < |str| && str[i] != CTRL_A
    ensures var l := ReadLine(str[i..], row, a, cols, tab);
      && (str[i] == '\r' ==> l == ReadLine(str[i + 1..], row, a, cols, tab))
      && (str[i] == '\n' ==> l == LineRead(row.(hardcr := true), str[i + 1..], a))
      && (str[i] == ' ' ==> l == ReadLine(str[i + 1..], Append(row, ' ', a), a, cols, tab))
      && (str[i] == '\t' ==> l == ReadLine(str[i + 1..], AppendTab(row, a, tab), a, cols, tab))
      && (str[i] != ' ' && !IsControl(str[i]) ==>
        l == if |row.text| >= cols then Overlong(row, str[i..], a)
             else ReadLine(str[i + 1..], Append(row, str[i], a), a, cols, tab))
  {
    assert str[i..][1..] == str[i + 1..];
    hide Append, AppendTab, Apply;
  }

  lemma {:induction false} ReadCtrlA(str: string, i: nat, row: Row, a: Attr, cols: nat, tab: nat)
    requires tab > 0 && i < |str| && str[i] == CTRL_A
    ensures var l := ReadLine(str[i..], row, a, cols, tab);
      if i + 1 == |str| then l == LineRead(row, "", a)
      else if str[i + 1] == CTRL_A then l == ReadLine(str[i + 2..], Append(row, CTRL_A, a), a, cols, tab)
      else l == ReadLine(str[i + 2..], row, Apply(a, str[i + 1]), cols, tab)
  {
    if i + 2 <= |str| { assert str[i..][2..] == str[i + 2..]; }
    hide Append, AppendTab, Apply;
  }

  function CharAt(s: string, i: int): string {
    if 0 <= i < |s| then [s[i]] else ""
  }

  function Appended(r: RowValue, t: string, attr: seq<Attr>): RowValue {
    r.(text := r.text + t, attr := r.attr + attr)
  }

  lemma {:induction false} AheadAppended(i: int, a: Attr, r: Row, c: char, x: Attr)
    ensures AheadOf(i, a, Append(r, c, x)) == Appended(AheadOf(i, a, r), [c], [x])
  {
  }

  lemma {:induction false} AheadTab(i: int, a: Attr, r: Row, x: Attr, tab: nat)
    requires tab > 0
    ensures var n := tab - |r.text| % tab;
      n > 0 && AheadOf(i, a, AppendTab(r, x, tab)) == Appended(AheadOf(i, a, r), seq(n, _ => ' '), seq(n, _ => x))
  {
  }

  /** Going back from a character for which the row has no room. */
  method BreakRow(row: RowValue, spos: int) returns (broken: RowValue, back: int)
    ensures broken == row.(kludged := row.kludged || LastWord(row.text) == -1) && back == spos - BackBy(row.text)
  {
    broken, back := row, spos;
    var offset := |row.text| - 1;
    while offset >= 0
      invariant -1 <= offset < |row.text| && back == spos
      invariant forall k :: offset < k < |row.text| ==> IsBlank(row.text[k])
    {
      if row.text[offset] != ' ' && row.text[offset] != '\t' {
        back := back - (|row.text| - 1 - offset);
        back := back - 1;
        break;
      }
      offset := offset - 1;
    }
    if offset == -1 {
      broken := broken.(kludged := true);
      back := back - 1;
    }
  }

  /** The row is being read at place spos; r is what of it was read inside the text. */
  ghost predicate Reading(goal: RowAt, str: string, start: int, a: Attr, spos: int, row: RowValue, r: Row, attr: Attr,
                          cols: nat, tab: nat)
    requires tab > 0 && spos <= |str|
  {
    if spos < 0 then
      && start <= spos && r == NEW_ROW && attr == a && row == Row("", seq(spos - start, _ => a), false, false)
      && goal == Placed(|str|, start, a, ReadLine(str[0..], r, a, cols, tab))
    else row == AheadOf(start, a, r) && goal == Placed(|str|, start, a, ReadLine(str[spos..], r, attr, cols, tab))
  }

  lemma {:induction false} ReadingStarts(str: string, start: int, a: Attr, cols: nat, tab: nat)
    requires tab > 0 && start <= |str|
    ensures Reading(ReadAt(str, start, a, cols, tab), str, start, a, start, NEW_ROW, NEW_ROW, a, cols, tab)
  {
    hide ReadLine;
  }

  lemma {:induction false} ReadingAhead(
    goal: RowAt, str: string, start: int, a: Attr, spos: int, row: RowValue, r: Row, attr: Attr, cols: nat, tab: nat)
    requires tab > 0 && spos < 0 && Reading(goal, str, start, a, spos, row, r, attr, cols, tab)
    ensures row.text == "" && Reading(goal, str, start, a, spos + 1, Appended(row, "", [attr]), r, attr, cols, tab)
  {
    hide ReadLine;
    assert Appended(row, "", [attr]).attr == seq(spos + 1 - start, _ => a);
  }

  /** The row that was read is the one to be read. */
  lemma {:induction false} ReadingEnds(
    goal: RowAt, str: string, start: int, a: Attr, spos: nat, row: RowValue, r: Row, attr: Attr, cols: nat, tab: nat)
    requires tab > 0 && spos <= |str| && Reading(goal, str, start, a, spos, row, r, attr, cols, tab)
    ensures spos == |str| ==> goal == RowAt(row, spos, attr)
    ensures spos < |str| && str[spos] == '\n' ==> goal == RowAt(row.(hardcr := true), spos + 1, attr)
    ensures spos < |str| && str[spos] != ' ' && !IsControl(str[spos]) && |row.text| >= cols ==>
      goal == RowAt(row.(kludged := row.kludged || LastWord(row.text) == -1), spos - BackBy(row.text), attr)
  {
    if spos == |str| {
      ReadNothing(str[spos..], r, attr, cols, tab);
    } else if str[spos] != CTRL_A {
      ReadOn(str, spos, r, attr, cols, tab);
    }
    hide ReadLine, LastWord, BackBy;
  }

  /** What one character of the text does to the row, to the place and to the attribute. */
  lemma {:induction false} ReadingOn(
    goal: RowAt, str: string, start: int, a: Attr, spos: nat, row: RowValue, r: Row, attr: Attr, cols: nat, tab: nat)
    returns (r': Row)
    requires tab > 0 && spos < |str| && Reading(goal, str, start, a, spos, row, r, attr, cols, tab)
    ensures var c := str[spos];
      && (c == '\r' ==> Reading(goal, str, start, a, spos + 1, row, r', attr, cols, tab))
      && (c == ' ' || (!IsControl(c) && |row.text| < cols) ==>
        Reading(goal, str, start, a, spos + 1, Appended(row, [c], [attr]), r', attr, cols, tab))
      && var n := tab - |row.text| % tab;
      && n >= 0
      && var tabbed := Appended(row, seq(n, _ => ' '), seq(n, _ => attr));
      (c == '\t' ==> Reading(goal, str, start, a, spos + 1, tabbed, r', attr, cols, tab))
  {
    var c := str[spos];
    r' := r;
    if c != CTRL_A { ReadOn(str, spos, r, attr, cols, tab); }
    hide ReadLine, Append, AppendTab;
    if c == ' ' || (!IsControl(c) && |row.text| < cols) {
      r' := Append(r, c, attr);
      AheadAppended(start, a, r, c, attr);
    } else if c == '\t' {
      r' := AppendTab(r, attr, tab);
      AheadTab(start, a, r, attr, tab);
    }
    hide AheadOf, Placed;
  }

  /** What a Ctrl-A and the character behind it do. */
  lemma {:induction false} ReadingCtrlA(
    goal: RowAt, str: string, start: int, a: Attr, spos: nat, row: RowValue, r: Row, attr: Attr, cols: nat, tab: nat)
    returns (r': Row)
    requires tab > 0 && spos < |str| && str[spos] == CTRL_A
    requires Reading(goal, str, start, a, spos, row, r, attr, cols, tab)
    ensures if spos + 1 == |str| then Reading(goal, str, start, a, |str|, row, r', attr, cols, tab)
            else if str[spos + 1] == CTRL_A then
              Reading(goal, str, start, a, spos + 2, Appended(row, [CTRL_A], [attr]), r', attr, cols, tab)
            else Reading(goal, str, start, a, spos + 2, row, r', Apply(attr, str[spos + 1]), cols, tab)
  {
    r' := r;
    ReadCtrlA(str, spos, r, attr, cols, tab);
    if spos + 1 == |str| { ReadNothing(str[|str|..], r, attr, cols, tab); }
    hide ReadLine, Append, Apply;
    if spos + 1 < |str| && str[spos + 1] == CTRL_A {
      r' := Append(r, CTRL_A, attr);
      AheadAppended(start, a, r, CTRL_A, attr);
    }
    hide AheadOf, Placed;
  }

  /** The inner loop of `make_lines`: one row, and the place where the next one begins. */
  method MakeLine(str: string, start: int, a: Attr, cols: nat, tab: nat)
    returns (row: RowValue, spos: int, attr: Attr)
    requires tab > 0 && cols > 0 && start < |str|
    ensures RowAt(row, spos, attr) == ReadAt(str, start, a, cols, tab)
  {
    hide ReadAt, Reading, Apply, LastWord, BackBy;
    ghost var goal := ReadAt(str, start, a, cols, tab);
    row, spos, attr := NEW_ROW, start, a;
    ghost var r: Row := NEW_ROW;
    var done := false;
    ReadingStarts(str, start, a, cols, tab);
    while spos < |str| && !done
      invariant spos <= |str|
      invariant if done then goal == RowAt(row, spos, attr)
                else Reading(goal, str, start, a, spos, row, r, attr, cols, tab)
      decreases !done, |str| - spos
    {
      var c := CharAt(str, spos);
      ghost var r0 := r;
      if spos < 0 {
        ReadingAhead(goal, str, start, a, spos, row, r, attr, cols, tab);
      } else {
        ReadingEnds(goal, str, start, a, spos, row, r, attr, cols, tab);
        if str[spos] == CTRL_A {
          r := ReadingCtrlA(goal, str, start, a, spos, row, r, attr, cols, tab);
        } else {
          r := ReadingOn(goal, str, start, a, spos, row, r, attr, cols, tab);
        }
      }
      if c == "\r" {
        spos := spos + 1;
      } else if c == [CTRL_A] {
        if spos + 1 < |str| {
          if str[spos + 1] == CTRL_A {
            row := Appended(row, [CTRL_A], [attr]);
          } else {
            attr := Apply(attr, str[spos + 1]);
          }
          spos := spos + 2;
        } else {
          spos := spos + 1;
        }
      } else if c == "\n" {
        row := row.(hardcr := true);
        spos, done := spos + 1, true;
      } else if c == " " {
        row := Appended(row, " ", [attr]);
        spos := spos + 1;
      } else if c == "\t" {
        var n := tab - |row.text| % tab;
        row := Appended(row, seq(n, _ => ' '), seq(n, _ => attr));
        spos := spos + 1;
      } else if |row.text| > cols - 1 {
        row, spos := BreakRow(row, spos);
        done := true;
      } else {
        row := Appended(row, c, [attr]);
        spos := spos + 1;
      }
    }
    if !done { ReadingEnds(goal, str, start, a, spos, row, r, attr, cols, tab); }
  }

  lemma {:induction false} ReadNothing(s: string, row: Row, a: Attr, cols: nat, tab: nat)
    requires tab > 0 && s == ""
    ensures ReadLine(s, row, a, cols, tab) == LineRead(row, "", a)
  {
  }

  /** `make_lines`, for a text on which its loop ends within some number of rounds. */
  method MakeLines(str: string, cols: nat, tab: nat, ghost rounds: nat) returns (nl: seq<RowValue>)
    requires tab > 0 && cols > 0 && Lines(str, 0, NORMAL, cols, tab, rounds).Some?
    ensures Lines(str, 0, NORMAL, cols, tab, rounds) == Some(nl)
  {
    hide ReadAt, Lines;
    var spos: int, a := 0, NORMAL;
    nl := [];
    ghost var n := rounds;
    BehindNone(Lines(str, spos, a, cols, tab, n));
    while spos < |str|
      invariant Lines(str, 0, NORMAL, cols, tab, rounds) == Behind(nl, Lines(str, spos, a, cols, tab, n))
      invariant Lines(str, spos, a, cols, tab, n).Some?
      decreases n
    {
      if n == 0 { NoRows(str, spos, a, cols, tab); }
      LinesNext(str, spos, a, cols, tab, n);
      var row, next, attr := MakeLine(str, spos, a, cols, tab);
      BehindOne(nl, row, Lines(str, next, attr, cols, tab, n - 1));
      nl, spos, a := nl + [row], next, attr;
      n := n - 1;
    }
    LinesEnd(str, spos, a, cols, tab, n);
    assert nl + [] == nl;
  }

  lemma {:induction false} LinesEnd(str: string, i: int, a: Attr, cols: nat, tab: nat, n: nat)
    requires tab > 0 && i >= |str|
    ensures Lines(str, i, a, cols, tab, n) == Some([])
  {
  }

  ghost function Behind(rows: seq<RowValue>, o: Option<seq<RowValue>>): Option<seq<RowValue>> {
    match o
    case None => None
    case Some(more) => Some(rows + more)
  }

  lemma {:induction false} BehindNone(o: Option<seq<RowValue>>)
    ensures Behind([], o) == o
  {
    if o.Some? { assert [] + o.value == o.value; }
  }

  lemma {:induction false} BehindOne(rows: seq<RowValue>, r: RowValue, o: Option<seq<RowValue>>)
    ensures Behind(rows, Onto(r, o)) == Behind(rows + [r], o)
  {
    if o.Some? { assert rows + ([r] + o.value) == rows + [r] + o.value; }
  }

  // ---------- The round trip of the two loops ----------

  /** Saving the buffer and loading it again, if that ends: the rows come back, all of them hard, exactly when the
      buffer survives. */
  method SaveThenLoad(b: Editor.Buffer, soft: bool, tab: nat, ghost rounds: nat) returns (loaded: seq<RowValue>)
    requires b.Valid() && b.line != [] && tab > 0
    requires Lines(Encode(ForceHard(b.View()), soft, "", NORMAL), 0, NORMAL, b.columns, tab, rounds).Some?
    modifies b.line[|b.line| - 1]
    ensures b.Valid() && b.View() == ForceHard(old(b.View()))
    ensures loaded == Document(b.View()) && AllHard(b.View())
       <==> AllPrintable(b.View()) && BufferSurvives(b.View(), NORMAL, b.columns)
  {
    hide Encode, Lines, BufferSurvives, AllPrintable, Document, AllHard, ForceHard;
    SaveAndLoadLines(b.View(), soft, b.columns, tab);
    var str := MakeStrings(b, soft);
    loaded := MakeLines(str, b.columns, tab, rounds);
    OnlyTheseLoad(str, b.columns, tab, rounds, Document(b.View()));
  }
}
