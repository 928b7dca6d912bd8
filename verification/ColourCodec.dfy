/** The editor's Ctrl-A colour codec:
    what is written for a buffer, and what is read from it again. */
module ColourCodec {
  import opened Options
  import opened EditorText

  const CTRL_A: char := '\U{01}'

  // ---------- Colour codes ----------

  const BLACK: Colour := 0
  const BLUE: Colour := 1
  const GREEN: Colour := 2
  const CYAN: Colour := 3
  const RED: Colour := 4
  const MAGENTA: Colour := 5
  const BROWN: Colour := 6
  const LIGHTGRAY: Colour := 7

  /** The code that `make_strings` writes for a foreground colour; light gray is written as "normal". */
  function ForegroundCode(f: Colour): char {
    if f == BLACK then 'K' else if f == RED then 'R' else if f == GREEN then 'G' else if f == BROWN then 'Y'
    else if f == BLUE then 'B' else if f == MAGENTA then 'M' else if f == CYAN then 'C' else 'N'
  }

  function BackgroundCode(b: Colour): char {
    if b == BLACK then '0' else if b == RED then '1' else if b == GREEN then '2' else if b == BROWN then '3'
    else if b == BLUE then '4' else if b == MAGENTA then '5' else if b == CYAN then '6' else '7'
  }

  function Upper(c: char): char {
    if 'a' <= c <= 'z' then c - 'a' + 'A' else c
  }

  /** What one code does to the current attribute in `make_lines`. */
  function Apply(a: Attr, code: char): Attr {
    var c := Upper(code);
    if c == 'K' then a.(fg := BLACK) else if c == 'R' then a.(fg := RED) else if c == 'G' then a.(fg := GREEN)
    else if c == 'Y' then a.(fg := BROWN) else if c == 'B' then a.(fg := BLUE) else if c == 'M' then a.(fg := MAGENTA)
    else if c == 'C' then a.(fg := CYAN) else if c == 'W' then a.(fg := LIGHTGRAY)
    else if c == '0' then a.(bg := BLACK) else if c == '1' then a.(bg := RED) else if c == '2' then a.(bg := GREEN)
    else if c == '3' then a.(bg := BROWN) else if c == '4' then a.(bg := BLUE) else if c == '5' then a.(bg := MAGENTA)
    else if c == '6' then a.(bg := CYAN) else if c == '7' then a.(bg := LIGHTGRAY)
    else if c == 'H' then a.(high := true) else if c == 'I' then a.(blink := true)
    else if c == 'N' then NORMAL else a
  }

  function ApplyAll(a: Attr, codes: string): Attr
    decreases |codes|
  {
    if codes == "" then a else ApplyAll(Apply(a, codes[0]), codes[1..])
  }

  /** High intensity or blink has to be switched off, which only "normal" can do. */
  predicate MustReset(last: Attr, a: Attr) {
    (!a.blink && last.blink) || (!a.high && last.high)
  }

  function CodeIf(p: bool, c: char): string {
    if p then [c] else ""
  }

  /** The codes that `make_strings` writes between a character of attribute `last` and one of attribute a. */
  function Codes(last: Attr, a: Attr): string {
    if a == last then ""
    else
      var from := if MustReset(last, a) then NORMAL else last;
      CodeIf(MustReset(last, a), 'N') + CodeIf(a.blink && !from.blink, 'I') + CodeIf(a.high && !from.high, 'H')
      + CodeIf(a.fg != from.fg, ForegroundCode(a.fg)) + CodeIf(a.bg != from.bg, BackgroundCode(a.bg))
  }

  /** A change to light gray foreground writes "normal" after the codes for blink and high intensity,
      and so undoes them; it also undoes a background that does not change. */
  predicate Lossy(last: Attr, a: Attr) {
    && !MustReset(last, a) && a.fg == LIGHTGRAY && last.fg != LIGHTGRAY
    && (a.blink || a.high || (a.bg != BLACK && a.bg == last.bg))
  }

  lemma {:induction false} ApplyAllConcat(a: Attr, c: string, d: string)
    ensures ApplyAll(a, c + d) == ApplyAll(ApplyAll(a, c), d)
    decreases |c|
  {
    if c == "" {
      assert c + d == d;
    } else {
      assert (c + d)[1..] == c[1..] + d;
      ApplyAllConcat(Apply(a, c[0]), c[1..], d);
    }
  }

  function ApplyIf(a: Attr, p: bool, c: char): Attr {
    if p then Apply(a, c) else a
  }

  lemma {:induction false} ApplyCodeIf(a: Attr, s: string, p: bool, c: char)
    ensures ApplyAll(a, s + CodeIf(p, c)) == ApplyIf(ApplyAll(a, s), p, c)
  {
    ApplyAllConcat(a, s, CodeIf(p, c));
    hide Apply;
    if p { assert [c][1..] == ""; }
  }

  lemma {:induction false} ApplyNone(a: Attr, s: string)
    ensures ApplyAll(a, "") == a && "" + s == s
  {
  }

  /** The codes of a change, one after the other. */
  lemma {:induction false} CodesOneByOne(last: Attr, a: Attr)
    requires a != last
    ensures var n := MustReset(last, a);
      var from := if n then NORMAL else last;
      var a1 := ApplyIf(last, n, 'N');
      var a2 := ApplyIf(a1, a.blink && !from.blink, 'I');
      var a3 := ApplyIf(a2, a.high && !from.high, 'H');
      var a4 := ApplyIf(a3, a.fg != from.fg, ForegroundCode(a.fg));
      ApplyAll(last, Codes(last, a)) == ApplyIf(a4, a.bg != from.bg, BackgroundCode(a.bg))
  {
    hide ApplyAll, ApplyIf, CodeIf, MustReset, ForegroundCode, BackgroundCode;
    var n := MustReset(last, a);
    var from := if n then NORMAL else last;
    var i, h, f, b := a.blink && !from.blink, a.high && !from.high, a.fg != from.fg, a.bg != from.bg;
    var c1 := CodeIf(n, 'N');
    var c2 := c1 + CodeIf(i, 'I');
    var c3 := c2 + CodeIf(h, 'H');
    var c4 := c3 + CodeIf(f, ForegroundCode(a.fg));
    ApplyNone(last, c1);
    ApplyCodeIf(last, "", n, 'N');
    ApplyCodeIf(last, c1, i, 'I');
    ApplyCodeIf(last, c2, h, 'H');
    ApplyCodeIf(last, c3, f, ForegroundCode(a.fg));
    ApplyCodeIf(last, c4, b, BackgroundCode(a.bg));
  }

  /** The codes turn `last` into a, unless the change is lossy; then they turn it into something else. */
  lemma {:induction false} CodesApply(last: Attr, a: Attr)
    ensures ApplyAll(last, Codes(last, a)) == a <==> !Lossy(last, a)
  {
    hide Apply, ApplyAll, Codes, ForegroundCode, BackgroundCode;
    if a == last {
      SameAttr(last);
    } else {
      CodesOneByOne(last, a);
      var n := MustReset(last, a);
      var from := if n then NORMAL else last;
      PlainEffect(last);
      PlainEffect(from);
      var a2 := from.(blink := a.blink || from.blink);
      PlainEffect(a2);
      var a3 := a2.(high := a.high || from.high);
      ForegroundEffect(a3, a.fg);
      BackgroundEffect(ApplyIf(a3, a.fg != from.fg, ForegroundCode(a.fg)), a.bg);
    }
  }

  lemma {:induction false} SameAttr(a: Attr)
    ensures ApplyAll(a, Codes(a, a)) == a
  {
  }

  lemma {:induction false} PlainEffect(a: Attr)
    ensures Apply(a, 'N') == NORMAL && Apply(a, 'I') == a.(blink := true) && Apply(a, 'H') == a.(high := true)
  {
  }

  lemma {:induction false} ForegroundEffect(a: Attr, f: Colour)
    ensures Apply(a, ForegroundCode(f)) == if f == LIGHTGRAY then NORMAL else a.(fg := f)
  {
  }

  lemma {:induction false} BackgroundEffect(a: Attr, b: Colour)
    ensures Apply(a, BackgroundCode(b)) == a.(bg := b)
  {
  }

  predicate IsControl(c: char) {
    c == CTRL_A || c == '\r' || c == '\n' || c == '\t'
  }

  /** No code is a control character or a blank. */
  predicate IsCode(c: char) {
    !IsControl(c) && c != ' '
  }

  predicate AllCodes(s: string) {
    forall i :: 0 <= i < |s| ==> IsCode(s[i])
  }

  lemma {:induction false} CodesAreCodes(last: Attr, a: Attr)
    ensures AllCodes(Codes(last, a))
  {
    if a != last {
      ColourCodes(a);
      hide CodeIf, MustReset, ForegroundCode, BackgroundCode, IsCode, AllCodes;
      var n := MustReset(last, a);
      var from := if n then NORMAL else last;
      var i, h, f, b := a.blink && !from.blink, a.high && !from.high, a.fg != from.fg, a.bg != from.bg;
      var c1 := CodeIf(n, 'N');
      var c2 := c1 + CodeIf(i, 'I');
      var c3 := c2 + CodeIf(h, 'H');
      MoreCodes("", n, 'N');
      MoreCodes(c1, i, 'I');
      MoreCodes(c2, h, 'H');
      MoreCodes(c3, f, ForegroundCode(a.fg));
      MoreCodes(c3 + CodeIf(f, ForegroundCode(a.fg)), b, BackgroundCode(a.bg));
    } else {
      assert AllCodes("");
    }
  }

  lemma {:induction false} ColourCodes(a: Attr)
    ensures IsCode('N') && IsCode('I') && IsCode('H') && AllCodes("")
    ensures IsCode(ForegroundCode(a.fg)) && IsCode(BackgroundCode(a.bg))
  {
  }

  lemma {:induction false} MoreCodes(s: string, p: bool, c: char)
    requires AllCodes(s) && IsCode(c)
    ensures AllCodes(s + CodeIf(p, c)) && "" + CodeIf(p, c) == CodeIf(p, c)
  {
    hide IsCode;
  }

  // ---------- make_strings ----------

  function Escape(codes: string): string
    decreases |codes|
  {
    if codes == "" then "" else [CTRL_A, codes[0]] + Escape(codes[1..])
  }

  function LastAttr(attr: seq<Attr>, last: Attr): Attr {
    if attr == [] then last else attr[|attr| - 1]
  }

  /** A row with its colour codes, after text that ended in attribute `last`. */
  function EncodeText(t: string, attr: seq<Attr>, last: Attr): string
    requires |t| == |attr|
    decreases |t|
  {
    if t == "" then ""
    else Escape(Codes(last, attr[0])) + [t[0]] + EncodeText(t[1..], attr[1..], attr[0])
  }

  function TrimEnd(s: string): string
    decreases |s|
  {
    if s != "" && (s[|s| - 1] == ' ' || s[|s| - 1] == '\t') then TrimEnd(s[..|s| - 1]) else s
  }

  /** The text of the rows d; `line` is what was written since the last line feed. */
  function Encode(d: seq<Row>, soft: bool, line: string, last: Attr): string
    decreases |d|
  {
    if d == [] then line
    else
      var l := line + EncodeText(d[0].text, d[0].attr, last);
      var last' := LastAttr(d[0].attr, last);
      if soft || d[0].hardcr then TrimEnd(l) + "\r\n" + Encode(d[1..], soft, "", last')
      else Encode(d[1..], soft, l, last')
  }

  /** `make_strings` first makes the last row hard. */
  function ForceHard(d: seq<Row>): (r: seq<Row>)
    requires d != []
  {
    d[|d| - 1 := d[|d| - 1].(hardcr := true)]
  }

  // ---------- make_lines ----------

  /** A row that was read, the text behind it, and the attribute then in force; or a row that is full, the text
      from the character on for which there is no room, and the attribute. */
  datatype LineRead = LineRead(row: Row, rest: string, a: Attr) | Overlong(row: Row, rest: string, a: Attr)

  const NEW_ROW: Row := Row("", [], false, false)

  function Append(r: Row, c: char, a: Attr): (n: Row)
    ensures |n.text| == |r.text| + 1
  {
    r.(text := r.text + [c], attr := r.attr + [a])
  }

  /** Blanks up to the next tab stop. */
  function AppendTab(r: Row, a: Attr, tab: nat): Row
    requires tab > 0
  {
    var n := tab - |r.text| % tab;
    r.(text := r.text + seq(n, _ => ' '), attr := r.attr + seq(n, _ => a))
  }

  function ReadLine(s: string, r: Row, a: Attr, cols: nat, tab: nat): (l: LineRead)
    requires tab > 0
    ensures |l.rest| <= |s| && (l.LineRead? && s != "" ==> |l.rest| < |s|) && (l.Overlong? ==> l.rest != "")
    decreases |s|
  {
    if s == "" then LineRead(r, "", a)
    else if s[0] == '\r' then ReadLine(s[1..], r, a, cols, tab)
    else if s[0] == CTRL_A then
      if |s| == 1 then LineRead(r, "", a)
      else if s[1] == CTRL_A then ReadLine(s[2..], Append(r, CTRL_A, a), a, cols, tab)
      else ReadLine(s[2..], r, Apply(a, s[1]), cols, tab)
    else if s[0] == '\n' then LineRead(r.(hardcr := true), s[1..], a)
    else if s[0] == ' ' then ReadLine(s[1..], Append(r, ' ', a), a, cols, tab)
    else if s[0] == '\t' then ReadLine(s[1..], AppendTab(r, a, tab), a, cols, tab)
    else if |r.text| >= cols then Overlong(r, s, a)
    else ReadLine(s[1..], Append(r, s[0], a), a, cols, tab)
  }

  /** The rows of a text, or None when a line has to be broken. */
  function Decode(s: string, a: Attr, cols: nat, tab: nat): Option<seq<Row>>
    requires tab > 0
    decreases |s|
  {
    if s == "" then Some([])
    else
      match ReadLine(s, NEW_ROW, a, cols, tab)
      case Overlong(_, _, _) => None
      case LineRead(row, rest, a') =>
        match Decode(rest, a', cols, tab)
        case None => None
        case Some(rows) => Some([row] + rows)
  }

  // ---------- Reading what was written ----------

  predicate Printable(t: string) {
    forall i :: 0 <= i < |t| ==> !IsControl(t[i])
  }

  lemma {:induction false} ReadCodes(codes: string, rest: string, r: Row, a: Attr, cols: nat, tab: nat)
    requires tab > 0 && AllCodes(codes)
    ensures ReadLine(Escape(codes) + rest, r, a, cols, tab) == ReadLine(rest, r, ApplyAll(a, codes), cols, tab)
    decreases |codes|
  {
    if codes == "" {
      assert Escape(codes) + rest == rest;
    } else {
      hide Apply;
      var s := Escape(codes) + rest;
      assert s[0] == CTRL_A && s[1] == codes[0] && s[2..] == Escape(codes[1..]) + rest;
      ReadCodes(codes[1..], rest, r, Apply(a, codes[0]), cols, tab);
    }
  }

  /** The attributes that a reader in state a sees, when the writer was in state `last`. */
  function Seen(attr: seq<Attr>, last: Attr, a: Attr): (r: seq<Attr>)
    ensures |r| == |attr|
    decreases |attr|
  {
    if attr == [] then []
    else
      var a' := ApplyAll(a, Codes(last, attr[0]));
      [a'] + Seen(attr[1..], attr[0], a')
  }

  /** No character but a blank stands beyond the last column when t is written from column n on. */
  predicate FitsFrom(t: string, n: nat, cols: nat) {
    forall i :: 0 <= i < |t| && t[i] != ' ' ==> n + i < cols
  }

  function Joined(r: Row, t: string, attr: seq<Attr>): Row
    requires |t| == |attr|
  {
    r.(text := r.text + t, attr := r.attr + attr)
  }

  lemma {:induction false} ReadChar(c: char, more: string, r: Row, a: Attr, cols: nat, tab: nat)
    requires tab > 0 && !IsControl(c)
    ensures ReadLine([c] + more, r, a, cols, tab)
         == if c == ' ' || |r.text| < cols then ReadLine(more, Append(r, c, a), a, cols, tab)
            else Overlong(r, [c] + more, a)
  {
    hide Apply;
    assert ([c] + more)[1..] == more;
  }

  /** l is what reading the rest of a row gives, after t was read in front of it. */
  predicate ReadsOn(
    l: LineRead, t: string, attr: seq<Attr>, last: Attr, rest: string, r: Row, a: Attr, cols: nat, tab: nat)
    requires tab > 0 && |t| == |attr|
  {
    var seen := Seen(attr, last, a);
    if FitsFrom(t, |r.text|, cols) then l == ReadLine(rest, Joined(r, t, seen), LastAttr(seen, a), cols, tab)
    else l.Overlong? && |l.row.text| < |r.text| + |t|
  }

  lemma {:induction false} ReadsOnStep(
    l: LineRead, t: string, attr: seq<Attr>, last: Attr, rest: string, r: Row, a: Attr, cols: nat, tab: nat)
    requires tab > 0 && |t| == |attr| && t != ""
    ensures var a' := ApplyAll(a, Codes(last, attr[0]));
      ReadsOn(l, t, attr, last, rest, r, a, cols, tab)
      <==> if t[0] == ' ' || |r.text| < cols then
             ReadsOn(l, t[1..], attr[1..], attr[0], rest, Append(r, t[0], a'), a', cols, tab)
           else l.Overlong? && |l.row.text| < |r.text| + |t|
  {
    hide FitsFrom, Seen, Joined, ReadLine, ApplyAll, Codes, LastAttr;
    SeenStep(t, attr, last, a, r);
    FitsStep(t, |r.text|, cols);
  }

  lemma {:induction false} FitsStep(t: string, n: nat, cols: nat)
    requires t != ""
    ensures FitsFrom(t, n, cols) <==> (t[0] == ' ' || n < cols) && FitsFrom(t[1..], n + 1, cols)
  {
    if FitsFrom(t[1..], n + 1, cols) {
      forall i | 0 < i < |t| && t[i] != ' ' ensures n + i < cols { assert t[1..][i - 1] == t[i]; }
    }
    if FitsFrom(t, n, cols) {
      forall i | 0 <= i < |t[1..]| && t[1..][i] != ' ' ensures n + 1 + i < cols { assert t[1..][i] == t[i + 1]; }
    }
  }

  lemma {:induction false} EncodeTextStep(t: string, attr: seq<Attr>, last: Attr, rest: string)
    requires |t| == |attr| && t != ""
    ensures EncodeText(t, attr, last) + rest
         == Escape(Codes(last, attr[0])) + ([t[0]] + (EncodeText(t[1..], attr[1..], attr[0]) + rest))
  {
    hide Escape, Codes;
  }

  lemma {:induction false} ReadText(
    t: string, attr: seq<Attr>, last: Attr, rest: string, r: Row, a: Attr, cols: nat, tab: nat)
    requires tab > 0 && |t| == |attr| && Printable(t)
    ensures var l := ReadLine(EncodeText(t, attr, last) + rest, r, a, cols, tab);
      ReadsOn(l, t, attr, last, rest, r, a, cols, tab)
    decreases |t|
  {
    if t == "" {
      hide ReadLine;
      assert EncodeText(t, attr, last) + rest == rest;
      assert Joined(r, t, Seen(attr, last, a)) == r;
    } else {
      hide Apply, Codes, ApplyAll, Escape, ReadLine, ReadsOn, Append, EncodeText;
      var codes := Codes(last, attr[0]);
      var a' := ApplyAll(a, codes);
      var more := EncodeText(t[1..], attr[1..], attr[0]) + rest;
      CodesAreCodes(last, attr[0]);
      EncodeTextStep(t, attr, last, rest);
      ReadCodes(codes, [t[0]] + more, r, a, cols, tab);
      ReadChar(t[0], more, r, a', cols, tab);
      ReadText(t[1..], attr[1..], attr[0], rest, Append(r, t[0], a'), a', cols, tab);
      ReadsOnStep(ReadLine(EncodeText(t, attr, last) + rest, r, a, cols, tab), t, attr, last, rest, r, a, cols, tab);
    }
  }

  lemma {:induction false} SeenStep(t: string, attr: seq<Attr>, last: Attr, a: Attr, r: Row)
    requires |t| == |attr| && t != ""
    ensures var a' := ApplyAll(a, Codes(last, attr[0]));
      var seen := Seen(attr[1..], attr[0], a');
      && Joined(Append(r, t[0], a'), t[1..], seen) == Joined(r, t, Seen(attr, last, a))
      && LastAttr(seen, a') == LastAttr(Seen(attr, last, a), a)
  {
    hide ApplyAll, Codes;
    var a' := ApplyAll(a, Codes(last, attr[0]));
    var seen := Seen(attr[1..], attr[0], a');
    assert t == [t[0]] + t[1..];
    assert r.text + [t[0]] + t[1..] == r.text + t;
    assert r.attr + [a'] + seen == r.attr + ([a'] + seen);
  }

  // ---------- Trimmed blanks ----------

  predicate EndsInBlank(t: string) {
    t != "" && t[|t| - 1] == ' '
  }

  lemma {:induction false} EncodeTextSnoc(t: string, attr: seq<Attr>, last: Attr, c: char, x: Attr)
    requires |t| == |attr|
    ensures EncodeText(t + [c], attr + [x], last)
         == EncodeText(t, attr, last) + (Escape(Codes(LastAttr(attr, last), x)) + [c])
    decreases |t|
  {
    hide Escape, Codes;
    if t == "" {
      assert t + [c] == [c] && attr + [x] == [x] && [c][1..] == "" && [x][1..] == [];
    } else {
      assert (t + [c])[1..] == t[1..] + [c] && (attr + [x])[1..] == attr[1..] + [x];
      EncodeTextSnoc(t[1..], attr[1..], attr[0], c, x);
    }
  }

  lemma {:induction false} EscapeEnd(codes: string)
    requires codes != ""
    ensures |Escape(codes)| >= 2 && Escape(codes)[|Escape(codes)| - 1] == codes[|codes| - 1]
    decreases |codes|
  {
    if |codes| > 1 { EscapeEnd(codes[1..]); }
  }

  /** The text that is written for a row ends in the last character of the row. */
  lemma {:induction false} EncodedEnd(t: string, attr: seq<Attr>, last: Attr)
    requires |t| == |attr|
    ensures t == "" ==> EncodeText(t, attr, last) == ""
    ensures t != "" ==> var e := EncodeText(t, attr, last); e != "" && e[|e| - 1] == t[|t| - 1]
  {
    if t != "" {
      var n := |t| - 1;
      assert t == t[..n] + [t[n]] && attr == attr[..n] + [attr[n]];
      EncodeTextSnoc(t[..n], attr[..n], last, t[n], attr[n]);
    }
  }

  lemma {:induction false} NothingTrimmed(t: string, attr: seq<Attr>, last: Attr)
    requires |t| == |attr| && Printable(t) && !EndsInBlank(t)
    ensures TrimEnd(EncodeText(t, attr, last)) == EncodeText(t, attr, last)
  {
    EncodedEnd(t, attr, last);
  }

  lemma {:induction false} TrimBlank(s: string)
    ensures TrimEnd(s + [' ']) == TrimEnd(s)
  {
    assert (s + [' '])[..|s|] == s;
  }

  /** The last blank of a row is trimmed; what is left ends in the codes before it. */
  lemma {:induction false} LastBlankTrimmed(t: string, attr: seq<Attr>, last: Attr, n: nat)
    requires |t| == |attr| && EndsInBlank(t) && n == |t| - 1
    ensures TrimEnd(EncodeText(t, attr, last))
         == TrimEnd(EncodeText(t[..n], attr[..n], last) + Escape(Codes(LastAttr(attr[..n], last), attr[n])))
  {
    hide Codes, Escape, EncodeText, TrimEnd;
    var e, c := EncodeText(t[..n], attr[..n], last), Escape(Codes(LastAttr(attr[..n], last), attr[n]));
    assert t == t[..n] + [' '] && attr == attr[..n] + [attr[n]];
    EncodeTextSnoc(t[..n], attr[..n], last, ' ', attr[n]);
    TrimBlank(e + c);
    assert e + (c + [' ']) == (e + c) + [' '];
  }

  lemma {:induction false} CodesNotTrimmed(s: string, codes: string)
    requires AllCodes(codes) && codes != ""
    ensures TrimEnd(s + Escape(codes)) == s + Escape(codes)
  {
    EscapeEnd(codes);
    hide Escape;
    var all := s + Escape(codes);
    assert all[|all| - 1] == codes[|codes| - 1];
  }

  lemma {:induction false} EscapeNone(s: string)
    ensures s + Escape("") == s
  {
  }

  lemma {:induction false} CutTwice(t: string, attr: seq<Attr>, n: nat, m: nat)
    requires m <= n <= |t| == |attr|
    ensures t[..n][..m] == t[..m] && attr[..n][..m] == attr[..m]
  {
  }

  /** Trimming a row that ends in a blank leaves a shorter row, and perhaps the codes behind it. */
  lemma {:induction false} BlanksTrimmed(t: string, attr: seq<Attr>, last: Attr) returns (n: nat, codes: string)
    requires |t| == |attr| && Printable(t) && EndsInBlank(t)
    ensures n < |t| && AllCodes(codes)
    ensures TrimEnd(EncodeText(t, attr, last)) == EncodeText(t[..n], attr[..n], last) + Escape(codes)
    decreases |t|
  {
    hide Codes, EncodeText, TrimEnd, Escape, AllCodes, LastAttr;
    n := |t| - 1;
    codes := Codes(LastAttr(attr[..n], last), attr[n]);
    CodesAreCodes(LastAttr(attr[..n], last), attr[n]);
    LastBlankTrimmed(t, attr, last, n);
    if codes != "" {
      CodesNotTrimmed(EncodeText(t[..n], attr[..n], last), codes);
    } else {
      EscapeNone(EncodeText(t[..n], attr[..n], last));
      if EndsInBlank(t[..n]) {
        var m;
        m, codes := BlanksTrimmed(t[..n], attr[..n], last);
        CutTwice(t, attr, n, m);
        n := m;
      } else {
        NothingTrimmed(t[..n], attr[..n], last);
      }
    }
  }

  // ---------- The round trip ----------

  /** The change from each character to the next is not lossy. */
  predicate Faithful(attr: seq<Attr>, last: Attr)
    decreases |attr|
  {
    attr == [] || (!Lossy(last, attr[0]) && Faithful(attr[1..], attr[0]))
  }

  predicate RowSurvives(r: Row, last: Attr, cols: nat) {
    r.hardcr && !EndsInBlank(r.text) && |r.text| <= cols && Faithful(r.attr, last)
  }

  predicate BufferSurvives(d: seq<Row>, last: Attr, cols: nat)
    decreases |d|
  {
    d == [] || (RowSurvives(d[0], last, cols) && BufferSurvives(d[1..], LastAttr(d[0].attr, last), cols))
  }

  ghost predicate AllPrintable(d: seq<Row>) {
    forall i :: 0 <= i < |d| ==> Printable(d[i].text)
  }

  /** Texts, attributes and hard breaks, without the mark of rows that were cut inside a word. */
  function Document(d: seq<Row>): (r: seq<Row>)
    ensures |r| == |d|
  {
    seq(|d|, i requires 0 <= i < |d| => d[i].(kludged := false))
  }

  lemma {:induction false} SeenIffFaithful(attr: seq<Attr>, last: Attr)
    ensures Seen(attr, last, last) == attr <==> Faithful(attr, last)
    decreases |attr|
  {
    if attr != [] {
      CodesApply(last, attr[0]);
      hide Codes, Lossy, ApplyAll;
      SeenIffFaithful(attr[1..], attr[0]);
      if !Lossy(last, attr[0]) {
        assert attr == [attr[0]] + attr[1..];
        assert Seen(attr, last, last)[1..] == Seen(attr[1..], attr[0], attr[0]);
      } else {
        assert Seen(attr, last, last)[0] != attr[0];
      }
    }
  }

  lemma {:induction false} FitsIffShort(t: string, cols: nat)
    requires !EndsInBlank(t)
    ensures FitsFrom(t, 0, cols) <==> |t| <= cols
  {
    if FitsFrom(t, 0, cols) && t != "" { assert t[|t| - 1] != ' '; }
  }

  lemma {:induction false} ReadBreak(rest: string, r: Row, a: Attr, cols: nat, tab: nat)
    requires tab > 0
    ensures ReadLine("\r\n" + rest, r, a, cols, tab) == LineRead(r.(hardcr := true), rest, a)
  {
    var s := "\r\n" + rest;
    assert s[0] == '\r' && s[1..][0] == '\n' && s[1..][1..] == rest;
  }

  /** A hard row comes back as it was, with the text behind it and the right attribute, exactly when it survives. */
  lemma {:induction false} HardRowRoundTrip(r: Row, last: Attr, rest: string, cols: nat, tab: nat)
    requires tab > 0 && Printable(r.text) && r.hardcr
    ensures var l := ReadLine(TrimEnd(EncodeText(r.text, r.attr, last)) + "\r\n" + rest, NEW_ROW, last, cols, tab);
      if RowSurvives(r, last, cols) then l == LineRead(r.(kludged := false), rest, LastAttr(r.attr, last))
      else l.LineRead? ==> l.row != r.(kludged := false)
  {
    var t, attr := r.text, r.attr;
    if EndsInBlank(t) {
      var n, codes := BlanksTrimmed(t, attr, last);
      BlankRowRead(t[..n], attr[..n], last, codes, rest, cols, tab);
    } else {
      NothingTrimmed(t, attr, last);
      ReadText(t, attr, last, "\r\n" + rest, NEW_ROW, last, cols, tab);
      var e := EncodeText(t, attr, last);
      assert e + "\r\n" + rest == e + ("\r\n" + rest);
      hide ReadLine, EncodeText, Seen, Faithful, FitsFrom;
      var seen := Seen(attr, last, last);
      ReadBreak(rest, Joined(NEW_ROW, t, seen), LastAttr(seen, last), cols, tab);
      SeenIffFaithful(attr, last);
      FitsIffShort(t, cols);
      assert "" + t == t && [] + seen == seen;
    }
  }

  lemma {:induction false} BlankRowRead(
    t: string, attr: seq<Attr>, last: Attr, codes: string, rest: string, cols: nat, tab: nat)
    requires tab > 0 && |t| == |attr| && Printable(t) && AllCodes(codes)
    ensures var l := ReadLine(EncodeText(t, attr, last) + Escape(codes) + "\r\n" + rest, NEW_ROW, last, cols, tab);
      l.LineRead? ==> |l.row.text| == |t|
  {
    var e := EncodeText(t, attr, last);
    var more := "\r\n" + rest;
    assert e + Escape(codes) + "\r\n" + rest == e + (Escape(codes) + more);
    ReadText(t, attr, last, Escape(codes) + more, NEW_ROW, last, cols, tab);
    hide ReadLine, EncodeText, Seen, FitsFrom, Escape;
    var seen := Seen(attr, last, last);
    var r := Joined(NEW_ROW, t, seen);
    ReadCodes(codes, more, r, LastAttr(seen, last), cols, tab);
    ReadBreak(rest, r, ApplyAll(LastAttr(seen, last), codes), cols, tab);
  }

  /** The text ends in a line feed that no Ctrl-A can swallow. */
  predicate EndsLine(s: string) {
    s != "" && s[|s| - 1] == '\n' && (|s| >= 2 ==> s[|s| - 2] == '\r')
  }

  lemma {:induction false} EncodeEndsLine(d: seq<Row>, soft: bool, line: string, last: Attr)
    requires d != [] && d[|d| - 1].hardcr
    ensures var s := Encode(d, soft, line, last); |s| >= 2 && EndsLine(s)
    decreases |d|
  {
    hide EncodeText, TrimEnd;
    var l := line + EncodeText(d[0].text, d[0].attr, last);
    var last' := LastAttr(d[0].attr, last);
    if |d| > 1 {
      EncodeEndsLine(d[1..], soft, if soft || d[0].hardcr then "" else l, last');
    }
    if soft || d[0].hardcr {
      LineFeedAtEnd(TrimEnd(l), Encode(d[1..], soft, "", last'));
    }
  }

  lemma {:induction false} LineFeedAtEnd(s: string, rest: string)
    requires rest == "" || (|rest| >= 2 && EndsLine(rest))
    ensures var all := s + "\r\n" + rest; |all| >= 2 && EndsLine(all)
  {
  }

  /** A line of such a text is read as a hard row. */
  lemma {:induction false} ReadsHardRow(s: string, r: Row, a: Attr, cols: nat, tab: nat)
    requires tab > 0 && EndsLine(s)
    ensures var l := ReadLine(s, r, a, cols, tab); l.LineRead? ==> l.row.hardcr
    decreases |s|
  {
    hide Apply, AppendTab, Append;
    if s[0] == CTRL_A {
      if s[1] == CTRL_A { ReadsHardRow(s[2..], Append(r, CTRL_A, a), a, cols, tab); }
      else { ReadsHardRow(s[2..], r, Apply(a, s[1]), cols, tab); }
    } else if s[0] == '\r' {
      ReadsHardRow(s[1..], r, a, cols, tab);
    } else if s[0] == ' ' {
      ReadsHardRow(s[1..], Append(r, ' ', a), a, cols, tab);
    } else if s[0] == '\t' {
      ReadsHardRow(s[1..], AppendTab(r, a, tab), a, cols, tab);
    } else if s[0] != '\n' && |r.text| < cols {
      ReadsHardRow(s[1..], Append(r, s[0], a), a, cols, tab);
    }
  }

  lemma {:induction false} DocumentCons(d: seq<Row>)
    requires d != []
    ensures Document(d) == [d[0].(kludged := false)] + Document(d[1..])
    ensures Document(d)[0] == d[0].(kludged := false) && Document(d)[1..] == Document(d[1..])
  {
  }

  lemma {:induction false} SoftRowFirst(d: seq<Row>, s: string, last: Attr, cols: nat, tab: nat)
    requires tab > 0 && d != [] && !d[0].hardcr && EndsLine(s)
    ensures Decode(s, last, cols, tab) != Some(Document(d)) && !BufferSurvives(d, last, cols)
  {
    hide ReadLine;
    ReadsHardRow(s, NEW_ROW, last, cols, tab);
    assert Document(d)[0] == d[0].(kludged := false);
  }
}
