/** Coloured message text, character by character. */
module CodedLines {
  import opened Options
  import opened EditorText
  import opened ColourCodec
  import opened LongLines

  // Codes by the number of their colour: black, blue, green, cyan, red, magenta, brown, light gray.
  const FOREGROUND := "KBGCRMYW"
  const FOREGROUND_LOWER := "kbgcrmyw"
  const BACKGROUND := "04261537"

  // ---------- Reading ----------

  /** What the code c makes of the attribute a. */
  ghost predicate Recoloured(a: Attr, c: char, x: Attr) {
    && (forall i: Colour :: c == FOREGROUND[i] || c == FOREGROUND_LOWER[i] ==> x == a.(fg := i))
    && (forall i: Colour :: c == BACKGROUND[i] ==> x == a.(bg := i))
    && (c == 'H' || c == 'h' ==> x == a.(high := true))
    && (c == 'I' || c == 'i' ==> x == a.(blink := true))
    && (c == 'N' || c == 'n' ==> x == Attr(7, false, 0, false))
    && (c !in "HhIiNn" && !IsColour(c) ==> x == a)
  }

  ghost predicate IsColour(c: char) {
    exists i: Colour :: c == FOREGROUND[i] || c == FOREGROUND_LOWER[i] || c == BACKGROUND[i]
  }

  lemma {:induction false} ReaderTable(a: Attr, c: char, x: Attr)
    ensures Recoloured(a, c, x) <==> x == Apply(a, c)
  {
    LetterTable(a, c);
    hide Apply;
    if IsColour(c) {
      var i: Colour :| c == FOREGROUND[i] || c == FOREGROUND_LOWER[i] || c == BACKGROUND[i];
    }
  }

  lemma {:induction false} LetterTable(a: Attr, c: char)
    ensures Recoloured(a, c, Apply(a, c))
  {
    hide Apply;
    forall i: Colour | c == FOREGROUND[i] || c == FOREGROUND_LOWER[i] ensures Apply(a, c) == a.(fg := i) {
      ForegroundLetters(a, i);
    }
    forall i: Colour | c == BACKGROUND[i] ensures Apply(a, c) == a.(bg := i) { BackgroundDigits(a, i); }
    OtherLetters(a, c);
  }

  lemma {:induction false} ForegroundLetters(a: Attr, i: Colour)
    ensures Apply(a, FOREGROUND[i]) == Apply(a, FOREGROUND_LOWER[i]) == a.(fg := i)
  {
    assert FOREGROUND == ['K', 'B', 'G', 'C', 'R', 'M', 'Y', 'W'];
    if i < 4 {
      assert i == 0 || i == 1 || i == 2 || i == 3;
    } else {
      assert i == 4 || i == 5 || i == 6 || i == 7;
    }
  }

  lemma {:induction false} BackgroundDigits(a: Attr, i: Colour)
    ensures Apply(a, BACKGROUND[i]) == a.(bg := i)
  {
    assert i == 0 || i == 1 || i == 2 || i == 3 || i == 4 || i == 5 || i == 6 || i == 7;
  }

  lemma {:induction false} OtherLetters(a: Attr, c: char)
    ensures c == 'H' || c == 'h' ==> Apply(a, c) == a.(high := true)
    ensures c == 'I' || c == 'i' ==> Apply(a, c) == a.(blink := true)
    ensures c == 'N' || c == 'n' ==> Apply(a, c) == Attr(7, false, 0, false)
    ensures c !in "HhIiNn" && !IsColour(c) ==> Apply(a, c) == a
  {
    if !IsColour(c) && c !in "HhIiNn" {
      forall i: Colour ensures c != FOREGROUND[i] && c != FOREGROUND_LOWER[i] && c != BACKGROUND[i] {
        Coloured(i);
      }
      Unlisted(a, c);
    }
  }

  lemma {:induction false} Coloured(i: Colour)
    ensures IsColour(FOREGROUND[i]) && IsColour(FOREGROUND_LOWER[i]) && IsColour(BACKGROUND[i])
  {
  }

  lemma {:induction false} Unlisted(a: Attr, c: char)
    requires forall i: Colour :: c != FOREGROUND[i] && c != FOREGROUND_LOWER[i] && c != BACKGROUND[i]
    requires c !in "HhIiNn"
    ensures Apply(a, c) == a
  {
    assert c != FOREGROUND[0] && c != FOREGROUND[1] && c != FOREGROUND[2] && c != FOREGROUND[3];
    assert c != FOREGROUND[4] && c != FOREGROUND[5] && c != FOREGROUND[6] && c != FOREGROUND[7];
    assert FOREGROUND_LOWER == "kbgcrmyw" && BACKGROUND == "04261537";
  }

  function Dyed(t: string, a: Attr): (r: seq<Attr>)
    ensures |r| == |t|
  {
    seq(|t|, _ => a)
  }

  lemma {:induction false} ReadShort(t: string, rest: string, r: Row, a: Attr, cols: nat, tab: nat)
    requires tab > 0 && Printable(t) && |r.text| + |t| <= cols
    ensures ReadLine(t + rest, r, a, cols, tab) == ReadLine(rest, Joined(r, t, Dyed(t, a)), a, cols, tab)
    decreases |t|
  {
    hide ReadLine;
    if t == "" {
      assert t + rest == rest && Joined(r, t, Dyed(t, a)) == r;
    } else {
      assert t + rest == [t[0]] + (t[1..] + rest);
      ReadChar(t[0], t[1..] + rest, r, a, cols, tab);
      ReadShort(t[1..], rest, Append(r, t[0], a), a, cols, tab);
      JoinedStep(t, r, a);
    }
  }

  lemma {:induction false} JoinedStep(t: string, r: Row, a: Attr)
    requires t != ""
    ensures Joined(Append(r, t[0], a), t[1..], Dyed(t[1..], a)) == Joined(r, t, Dyed(t, a))
  {
    assert t == [t[0]] + t[1..] && Dyed(t, a) == [a] + Dyed(t[1..], a);
    assert r.text + [t[0]] + t[1..] == r.text + t;
    assert r.attr + [a] + Dyed(t[1..], a) == r.attr + ([a] + Dyed(t[1..], a));
  }

  lemma {:induction false} ReadCode(c: char, rest: string, r: Row, a: Attr, x: Attr, cols: nat, tab: nat)
    requires tab > 0 && c != CTRL_A && Recoloured(a, c, x)
    ensures ReadLine([CTRL_A, c] + rest, r, a, cols, tab) == ReadLine(rest, r, x, cols, tab)
  {
    ReaderTable(a, c, x);
    hide Apply, Recoloured;
    assert ([CTRL_A, c] + rest)[2..] == rest;
  }

  /** Some text, a code, some more text and a line end, in front of any text: a row, in which the code shows from its
      place on, and the rows of the rest, which goes on with the same attribute. */
  lemma {:induction false} CodedLine(t: string, c: char, u: string, a: Attr, x: Attr, rest: string, cols: nat, tab: nat)
    requires tab > 0 && Printable(t) && Printable(u) && |t| + |u| <= cols && c != CTRL_A && Recoloured(a, c, x)
    ensures Decode(t + ([CTRL_A, c] + (u + ("\r\n" + rest))), a, cols, tab)
         == match Decode(rest, x, cols, tab)
            case None => None
            case Some(rows) => Some([Row(t + u, Dyed(t, a) + Dyed(u, x), true, false)] + rows)
  {
    hide ReadLine, Recoloured, Printable;
    var s := t + ([CTRL_A, c] + (u + ("\r\n" + rest)));
    var r := Joined(NEW_ROW, t, Dyed(t, a));
    ReadShort(t, [CTRL_A, c] + (u + ("\r\n" + rest)), NEW_ROW, a, cols, tab);
    ReadCode(c, u + ("\r\n" + rest), r, a, x, cols, tab);
    ReadShort(u, "\r\n" + rest, r, x, cols, tab);
    ReadBreak(rest, Joined(r, u, Dyed(u, x)), x, cols, tab);
    JoinedTwice(t, a, u, x);
    DecodeNext(s, a, cols, tab);
  }

  lemma {:induction false} JoinedTwice(t: string, a: Attr, u: string, x: Attr)
    ensures Joined(Joined(NEW_ROW, t, Dyed(t, a)), u, Dyed(u, x)).(hardcr := true)
         == Row(t + u, Dyed(t, a) + Dyed(u, x), true, false)
  {
    assert "" + t == t && [] + Dyed(t, a) == Dyed(t, a);
  }

  /** The same for a whole text: the code shows in the one row that is loaded. */
  lemma {:induction false} CodedTextLoads(t: string, c: char, u: string, x: Attr, cols: nat, tab: nat)
    requires tab > 0 && Printable(t) && Printable(u) && |t| + |u| <= cols && c != CTRL_A
    requires Recoloured(Attr(7, false, 0, false), c, x)
    ensures var gray := Attr(7, false, 0, false);
      Loads(t + (['\U{01}', c] + (u + "\r\n")), cols, tab, [Row(t + u, Dyed(t, gray) + Dyed(u, x), true, false)])
  {
    hide Recoloured, Printable, Loads, Decode;
    assert "\r\n" + "" == "\r\n";
    var row: RowValue := Row(t + u, Dyed(t, NORMAL) + Dyed(u, x), true, false);
    assert [row] + [] == [row];
    CodedLine(t, c, u, NORMAL, x, "", cols, tab);
    DecodedNone(x, cols, tab);
    LoadsDecoded(t + ([CTRL_A, c] + (u + "\r\n")), cols, tab,
          [Row(t + u, Dyed(t, NORMAL) + Dyed(u, x), true, false)]);
  }

  // ---------- Tabs ----------

  /** A tab is read as blanks, one at least, up to the next tab stop, in the attribute in force. */
  lemma {:induction false} TabLine(t: string, n: nat, u: string, a: Attr, rest: string, cols: nat, tab: nat)
    requires tab > 0 && Printable(t) && Printable(u)
    requires 0 < n <= tab && (|t| + n) % tab == 0 && |t| + n + |u| <= cols
    ensures var text := t + seq(n, _ => ' ') + u;
      Decode(t + ("\t" + (u + ("\r\n" + rest))), a, cols, tab)
      == match Decode(rest, a, cols, tab)
         case None => None
         case Some(rows) => Some([Row(text, Dyed(text, a), true, false)] + rows)
  {
    hide ReadLine, Printable;
    var s := t + ("\t" + (u + ("\r\n" + rest)));
    var r := Joined(NEW_ROW, t, Dyed(t, a));
    ReadShort(t, "\t" + (u + ("\r\n" + rest)), NEW_ROW, a, cols, tab);
    ReadTab(u + ("\r\n" + rest), r, a, n, cols, tab);
    var r' := Joined(r, seq(n, _ => ' '), seq(n, _ => a));
    ReadShort(u, "\r\n" + rest, r', a, cols, tab);
    ReadBreak(rest, Joined(r', u, Dyed(u, a)), a, cols, tab);
    TabJoined(t, n, u, a);
    DecodeNext(s, a, cols, tab);
  }

  lemma {:induction false} ReadTab(rest: string, r: Row, a: Attr, n: nat, cols: nat, tab: nat)
    requires tab > 0 && 0 < n <= tab && (|r.text| + n) % tab == 0
    ensures ReadLine("\t" + rest, r, a, cols, tab)
         == ReadLine(rest, Joined(r, seq(n, _ => ' '), seq(n, _ => a)), a, cols, tab)
  {
    TabStop(|r.text|, n, tab);
    assert ("\t" + rest)[1..] == rest;
  }

  lemma {:induction false} TabStop(k: nat, n: nat, tab: nat)
    requires tab > 0 && 0 < n <= tab && (k + n) % tab == 0
    ensures n == tab - k % tab
  {
    var m := k % tab;
    assert k + (tab - m) == tab * (k / tab + 1) && k + n == tab * ((k + n) / tab);
    Multiple(tab, k / tab + 1, (k + n) / tab);
  }

  lemma {:induction false} Multiple(tab: nat, p: nat, q: nat)
    requires tab * p < tab * q + tab && tab * q < tab * p + tab
    ensures p == q
  {
    if p > q { AtLeast(tab, q, p - q); }
    if p < q { AtLeast(tab, p, q - p); }
  }

  lemma {:induction false} AtLeast(tab: nat, p: nat, n: nat)
    requires n >= 1
    ensures tab * (p + n) >= tab * p + tab
  {
    assert tab * (p + n) == tab * p + tab + tab * (n - 1);
  }

  lemma {:induction false} TabJoined(t: string, n: nat, u: string, a: Attr)
    ensures var text := t + seq(n, _ => ' ') + u;
      Joined(Joined(Joined(NEW_ROW, t, Dyed(t, a)), seq(n, _ => ' '), seq(n, _ => a)), u, Dyed(u, a)).(hardcr := true)
      == Row(text, Dyed(text, a), true, false)
  {
    var text := t + seq(n, _ => ' ') + u;
    assert "" + t == t && [] + Dyed(t, a) == Dyed(t, a);
    assert Dyed(t, a) + seq(n, _ => a) + Dyed(u, a) == Dyed(text, a);
  }

  // ---------- Writing ----------

  lemma {:induction false} WriterTable(i: Colour)
    ensures ForegroundCode(i) == "KBGCRMYN"[i] && BackgroundCode(i) == "04261537"[i]
  {
    assert i == 0 || i == 1 || i == 2 || i == 3 || i == 4 || i == 5 || i == 6 || i == 7;
  }

  function If(p: bool, c: char): string {
    if p then ['\U{01}', c] else ""
  }

  lemma {:induction false} EscapeIf(codes: string, p: bool, c: char)
    ensures Escape(codes + CodeIf(p, c)) == Escape(codes) + If(p, c)
    decreases |codes|
  {
    if codes == "" {
      if p { assert [c][1..] == ""; }
      assert "" + CodeIf(p, c) == CodeIf(p, c);
    } else {
      assert (codes + CodeIf(p, c))[1..] == codes[1..] + CodeIf(p, c);
      EscapeIf(codes[1..], p, c);
    }
  }

  /** The codes of a change of attribute, as they stand in the text: the first one if something has to be switched off,
      and then what the attribute has that was not in force. */
  lemma {:induction false} WrittenCodes(last: Attr, a: Attr)
    ensures a == last ==> Escape(Codes(last, a)) == ""
    ensures a != last ==>
      var off := (last.blink && !a.blink) || (last.high && !a.high);
      var from := if off then Attr(7, false, 0, false) else last;
      Escape(Codes(last, a))
      == If(off, 'N') + If(a.blink && !from.blink, 'I') + If(a.high && !from.high, 'H')
        + If(a.fg != from.fg, "KBGCRMYN"[a.fg]) + If(a.bg != from.bg, "04261537"[a.bg])
  {
    if a != last {
      WriterTable(a.fg);
      WriterTable(a.bg);
      hide CodeIf, If, ForegroundCode, BackgroundCode, Escape;
      var off := MustReset(last, a);
      var from := if off then NORMAL else last;
      NoCodes(off);
      var c1 := CodeIf(off, 'N');
      EscapeIf(c1, a.blink && !from.blink, 'I');
      var c2 := c1 + CodeIf(a.blink && !from.blink, 'I');
      EscapeIf(c2, a.high && !from.high, 'H');
      var c3 := c2 + CodeIf(a.high && !from.high, 'H');
      EscapeIf(c3, a.fg != from.fg, ForegroundCode(a.fg));
      EscapeIf(c3 + CodeIf(a.fg != from.fg, ForegroundCode(a.fg)), a.bg != from.bg, BackgroundCode(a.bg));
    }
  }

  lemma {:induction false} NoCodes(off: bool)
    ensures Escape(CodeIf(off, 'N')) == If(off, 'N')
  {
    EscapeIf("", off, 'N');
    assert "" + CodeIf(off, 'N') == CodeIf(off, 'N') && Escape("") + If(off, 'N') == If(off, 'N');
  }

  lemma {:induction false} EncodeDyed(t: string, x: Attr, last: Attr)
    requires t != ""
    ensures EncodeText(t, Dyed(t, x), last) == Escape(Codes(last, x)) + t
    decreases |t|
  {
    hide Escape, Codes;
    var attr := Dyed(t, x);
    assert attr[1..] == Dyed(t[1..], x) && t == [t[0]] + t[1..];
    SameAgain(x);
    if |t| > 1 {
      EncodeDyed(t[1..], x, x);
      assert EncodeText(t[1..], attr[1..], x) == t[1..];
    } else {
      assert EncodeText(t[1..], attr[1..], x) == t[1..];
    }
  }

  lemma {:induction false} SameAgain(x: Attr)
    ensures Escape(Codes(x, x)) == ""
  {
  }

  /** What is written for a hard row of one colour: the codes, the text without the blanks at its end, and a line
      end. */
  lemma {:induction false} DyedLine(
    t: string, blanks: string, x: Attr, kludged: bool, d: seq<Row>, soft: bool, last: Attr)
    requires t != "" && t[|t| - 1] != ' ' && t[|t| - 1] != '\t'
    requires forall i :: 0 <= i < |blanks| ==> blanks[i] == ' ' || blanks[i] == '\t'
    ensures Encode([Row(t + blanks, Dyed(t + blanks, x), true, kludged)] + d, soft, "", last)
         == Escape(Codes(last, x)) + t + "\r\n" + Encode(d, soft, "", x)
  {
    hide Escape, Codes, EncodeText, TrimEnd, Encode;
    var row: Row := Row(t + blanks, Dyed(t + blanks, x), true, kludged);
    var codes := Escape(Codes(last, x));
    EncodeDyed(t + blanks, x, last);
    TrimmedTo(codes + t, blanks);
    Regrouped(codes, t, blanks);
    HardFirst(row, d, soft, last);
  }

  lemma {:induction false} Regrouped(codes: string, t: string, blanks: string)
    ensures codes + (t + blanks) == codes + t + blanks
  {
  }

  lemma {:induction false} HardFirst(row: Row, d: seq<Row>, soft: bool, last: Attr)
    requires row.hardcr
    ensures Encode([row] + d, soft, "", last)
         == TrimEnd(EncodeText(row.text, row.attr, last)) + "\r\n" + Encode(d, soft, "", LastAttr(row.attr, last))
  {
    hide EncodeText, TrimEnd, LastAttr;
    assert ([row] + d)[1..] == d;
    assert "" + EncodeText(row.text, row.attr, last) == EncodeText(row.text, row.attr, last);
  }

  lemma {:induction false} TrimmedTo(t: string, blanks: string)
    requires t != "" && t[|t| - 1] != ' ' && t[|t| - 1] != '\t'
    requires forall i :: 0 <= i < |blanks| ==> blanks[i] == ' ' || blanks[i] == '\t'
    ensures TrimEnd(t + blanks) == t
    decreases |blanks|
  {
    if blanks == "" {
      assert t + blanks == t;
    } else {
      var n := |blanks| - 1;
      assert (t + blanks)[..|t + blanks| - 1] == t + blanks[..n];
      TrimmedTo(t, blanks[..n]);
    }
  }
}
