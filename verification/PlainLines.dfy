/** When `make_lines` ends, and what it keeps of plain texts. */
module PlainLines {
  import opened Options
  import opened EditorText
  import opened ColourCodec
  import opened LongLines

  /** No Ctrl-A and no tab. */
  predicate Plain(s: string) {
    CTRL_A !in s && '\t' !in s
  }

  /** A character that can be part of a word. */
  predicate Word(c: char) {
    !IsControl(c) && c != ' '
  }

  /** What is shown: line ends are not. */
  function Shown(s: string): (t: string)
    ensures |t| <= |s|
  {
    if s == "" then "" else (if s[0] == '\r' || s[0] == '\n' then "" else [s[0]]) + Shown(s[1..])
  }

  lemma {:induction false} ShownConcat(s: string, t: string)
    ensures Shown(s + t) == Shown(s) + Shown(t)
    decreases |s|
  {
    hide Shown;
    if s == "" {
      assert s + t == t;
      NothingShown();
      ConcatThree("", "", Shown(t));
    } else {
      assert (s + t)[1..] == s[1..] + t && (s + t)[0] == s[0];
      ShownConcat(s[1..], t);
      ShownFirst(s);
      ShownFirst(s + t);
      ConcatThree(if s[0] == '\r' || s[0] == '\n' then "" else [s[0]], Shown(s[1..]), Shown(t));
    }
  }

  lemma {:induction false} ShownFirst(s: string)
    requires s != ""
    ensures Shown(s) == (if s[0] == '\r' || s[0] == '\n' then "" else [s[0]]) + Shown(s[1..])
  {
  }

  lemma {:induction false} ConcatThree(a: string, b: string, c: string)
    ensures a + (b + c) == a + b + c && "" + c == c
  {
  }

  lemma {:induction false} ShownParts(str: string, a: nat, b: nat, c: nat)
    requires a <= b <= c <= |str|
    ensures Shown(str[a..c]) == Shown(str[a..b]) + Shown(str[b..c])
  {
    assert str[a..c] == str[a..b] + str[b..c];
    ShownConcat(str[a..b], str[b..c]);
  }

  lemma {:induction false} ShownAll(s: string)
    ensures |Shown(s)| == |s| <==> '\r' !in s && '\n' !in s
    ensures '\r' !in s && '\n' !in s ==> Shown(s) == s
  {
    if s != "" {
      ShownAll(s[1..]);
      assert s == [s[0]] + s[1..];
    }
  }

  // ---------- One row ----------

  /** l is the text s up to its place n, behind the row r: up to a line feed, or up to the word for which the row has no
      room. No word in it begins beyond the last column. */
  predicate PlainRead(l: LineRead, s: string, r: Row, a: Attr, cols: nat, n: nat) {
    && n <= |s| && l.a == a && l.row.text == r.text + Shown(s[..n]) && '\n' !in s[..n]
    && (forall k :: 0 <= k < n && Word(s[k]) ==> |r.text| + |Shown(s[..k])| < cols)
    && match l
       case LineRead(_, rest, _) => if n < |s| then s[n] == '\n' && rest == s[n + 1..] else rest == ""
       case Overlong(row, rest, _) => n < |s| && Word(s[n]) && rest == s[n..] && |row.text| >= cols
  }

  lemma {:induction false} PlainEnd(s: string, r: Row, a: Attr, cols: nat, tab: nat)
    requires tab > 0 && Plain(s) && RowEnds(s, r, cols)
    ensures PlainRead(ReadLine(s, r, a, cols, tab), s, r, a, cols, 0)
  {
    assert r.text + Shown(s[..0]) == r.text && s[0..] == s;
  }

  lemma {:induction false} PlainStep(s: string, r: Row, a: Attr, cols: nat, tab: nat) returns (r': Row)
    requires tab > 0 && Plain(s) && !RowEnds(s, r, cols)
    ensures s != "" && s[0] != '\n' && Plain(s[1..]) && (Word(s[0]) ==> |r.text| < cols)
    ensures r'.text == r.text + Shown(s[..1])
    ensures ReadLine(s, r, a, cols, tab) == ReadLine(s[1..], r', a, cols, tab)
  {
    hide Apply, AppendTab;
    assert s[..1][1..] == "";
    r' := if s[0] == '\r' then r else Append(r, s[0], a);
    assert r.text + "" == r.text;
  }

  lemma {:induction false} PlainMore(l: LineRead, s: string, r: Row, r': Row, a: Attr, cols: nat, n: nat)
    requires s != "" && s[0] != '\n' && (Word(s[0]) ==> |r.text| < cols)
    requires r'.text == r.text + Shown(s[..1]) && PlainRead(l, s[1..], r', a, cols, n)
    ensures PlainRead(l, s, r, a, cols, n + 1)
  {
    hide Word, Shown;
    assert s[..n + 1] == [s[0]] + s[1..][..n];
    forall k | 0 <= k <= n ensures r'.text + Shown(s[1..][..k]) == r.text + Shown(s[..k + 1]) {
      ShownParts(s, 0, 1, k + 1);
      assert s[0..k + 1] == s[..k + 1] && s[0..1] == s[..1] && s[1..k + 1] == s[1..][..k];
    }
    forall k | 0 <= k < n + 1 && Word(s[k]) ensures |r.text| + |Shown(s[..k])| < cols {
      if k == 0 { NothingShown(); } else { assert s[1..][k - 1] == s[k]; }
    }
    assert n < |s[1..]| ==> s[1..][n] == s[n + 1];
  }

  lemma {:induction false} NothingShown()
    ensures Shown("") == ""
  {
  }

  lemma {:induction false} PlainLine(s: string, r: Row, a: Attr, cols: nat, tab: nat) returns (n: nat)
    requires tab > 0 && Plain(s)
    ensures PlainRead(ReadLine(s, r, a, cols, tab), s, r, a, cols, n)
    decreases |s|
  {
    hide ReadLine, Plain, PlainRead, RowEnds, Shown, Word;
    if RowEnds(s, r, cols) {
      n := 0;
      PlainEnd(s, r, a, cols, tab);
    } else {
      var r' := PlainStep(s, r, a, cols, tab);
      n := PlainLine(s[1..], r', a, cols, tab);
      PlainMore(ReadLine(s, r, a, cols, tab), s, r, r', a, cols, n);
      n := n + 1;
    }
  }

  /** The row from place i on ends at place e, and the next one is read from `next` on. */
  predicate RowTo(str: string, i: nat, cols: nat, e: nat, next: int, broken: bool) {
    && i <= e <= |str| && '\n' !in str[i..e]
    && (forall k :: i <= k < e && Word(str[k]) ==> |Shown(str[i..k])| < cols)
    && if broken then e < |str| && Word(str[e]) && |Shown(str[i..e])| >= cols && next == e - BackBy(Shown(str[i..e]))
       else if e < |str| then str[e] == '\n' && next == e + 1
       else next == e
  }

  lemma {:induction false} PlainRow(str: string, i: nat, a: Attr, cols: nat, tab: nat) returns (e: nat)
    requires tab > 0 && Plain(str) && i < |str|
    ensures var x, l := ReadAt(str, i, a, cols, tab), ReadLine(str[i..], NEW_ROW, a, cols, tab);
      && RowTo(str, i, cols, e, x.next, l.Overlong?)
      && x.a == a && x.row.text == Shown(str[i..e])
  {
    hide ReadLine, Shown, Word, BackBy, Plain, PlainRead, RowTo;
    PlainBehind(str, i);
    var n := PlainLine(str[i..], NEW_ROW, a, cols, tab);
    e := i + n;
    var l := ReadLine(str[i..], NEW_ROW, a, cols, tab);
    RowPlaces(str, i, l, a, cols, n);
  }

  lemma {:induction false} PlainBehind(str: string, i: nat)
    requires Plain(str) && i <= |str|
    ensures Plain(str[i..])
  {
    assert str == str[..i] + str[i..];
  }

  lemma {:induction false} RowPlaces(str: string, i: nat, l: LineRead, a: Attr, cols: nat, n: nat)
    requires i < |str| && PlainRead(l, str[i..], NEW_ROW, a, cols, n) && |l.rest| <= |str|
    ensures RowTo(str, i, cols, i + n, Finish(|str|, l).next, l.Overlong?)
    ensures l.a == a && l.row.text == Shown(str[i..i + n])
  {
    hide Shown, Word, BackBy, LastWord;
    var s, e := str[i..], i + n;
    assert s[..n] == str[i..e];
    ConcatThree("", "", Shown(s[..n]));
    forall k | i <= k < e && Word(str[k]) ensures |Shown(str[i..k])| < cols {
      assert s[k - i] == str[k] && s[..k - i] == str[i..k];
    }
    if n < |s| {
      assert s[n] == str[e] && |s[n..]| == |str| - e && |s[n + 1..]| == |str| - e - 1;
    }
  }

  // ---------- How far the reader goes back ----------

  /** The place of the last word character of s, or -1. */
  function LastWordAt(s: string): (w: int)
    ensures -1 <= w < |s| && (w >= 0 ==> Word(s[w])) && forall k :: w < k < |s| ==> !Word(s[k])
  {
    if s == "" then -1 else if Word(s[|s| - 1]) then |s| - 1 else LastWordAt(s[..|s| - 1])
  }

  lemma {:induction false} NoWordShown(s: string)
    requires Plain(s) && forall k :: 0 <= k < |s| ==> !Word(s[k])
    ensures forall k :: 0 <= k < |Shown(s)| ==> Shown(s)[k] == ' '
  {
    if s != "" {
      assert forall k :: 0 <= k < |s[1..]| ==> s[1..][k] == s[k + 1];
      NoWordShown(s[1..]);
    }
  }

  lemma {:induction false} LastWordIs(t: string, o: int)
    requires -1 <= o < |t| && (o >= 0 ==> !IsBlank(t[o])) && forall k :: o < k < |t| ==> IsBlank(t[k])
    ensures LastWord(t) == o
  {
    hide LastWord, IsBlank;
    var w := LastWord(t);
    assert w >= 0 ==> t[w] == t[w];
  }

  /** The reader goes back over what is shown from the last word character on. */
  lemma {:induction false} GoesBack(s: string)
    requires Plain(s)
    ensures var w := LastWordAt(s);
      BackBy(Shown(s)) == if w == -1 then 1 else |Shown(s[w..])|
  {
    var w := LastWordAt(s);
    hide LastWordAt, LastWord, Shown;
    if w == -1 {
      NoWordShown(s);
      LastWordIs(Shown(s), -1);
    } else {
      assert s == s[..w] + s[w..] && s[w..] == [s[w]] + s[w + 1..];
      ShownConcat(s[..w], s[w..]);
      ShownFirst(s[w..]);
      var u := s[w + 1..];
      forall k | 0 <= k < |u| ensures !Word(u[k]) { assert u[k] == s[w + 1 + k]; }
      assert Plain(u) by { assert s == s[..w + 1] + u; }
      NoWordShown(u);
      LastWordIs(Shown(s), |Shown(s[..w])|);
    }
  }

  // ---------- Whether the loop ends ----------

  /** A word character at p, and then blanks up to the edge of the screen or beyond, and another word character at e.
      (On a screen of one column a blank will do at p.) */
  predicate Gap(str: string, p: nat, e: nat, cols: nat) {
    && p < e < |str| && e - p >= cols && Word(str[e]) && (Word(str[p]) || (cols == 1 && str[p] == ' '))
    && forall k :: p < k < e ==> str[k] == ' '
  }

  ghost predicate HasGap(str: string, i: nat, cols: nat) {
    exists p, e :: i <= p && Gap(str, p, e, cols)
  }

  lemma {:induction false} ShownGap(str: string, p: nat, e: nat, cols: nat)
    requires Gap(str, p, e, cols)
    ensures |Shown(str[p..e])| == e - p
  {
    ShownAll(str[p..e]);
  }

  /** Where the last word character before a break stands, and where the reader goes back to. */
  lemma {:induction false} BreakBack(str: string, i: nat, cols: nat, e: nat, next: int) returns (w: int)
    requires Plain(str) && RowTo(str, i, cols, e, next, true)
    ensures w == -1 || (i <= w < e && Word(str[w]))
    ensures forall k :: w < k < e && i <= k ==> !Word(str[k])
    ensures next == if w == -1 then e - 1 else e - |Shown(str[w..e])|
  {
    hide Shown, BackBy, LastWordAt;
    var s := str[i..e];
    assert Plain(s) by { assert str == str[..i] + s + str[e..]; }
    GoesBack(s);
    w := LastWordAt(s);
    forall k | i + w < k < e ensures !Word(str[k]) { assert s[k - i] == str[k]; }
    if w >= 0 {
      assert s[w..] == str[i + w..e];
      w := i + w;
    }
  }

  lemma {:induction false} BlankThere(str: string, i: nat, cols: nat, e: nat, next: int, k: nat)
    requires Plain(str) && RowTo(str, i, cols, e, next, true) && i <= k < e && !Word(str[k]) && str[k] != '\r'
    ensures str[k] == ' '
  {
    assert str[i..e][k - i] == str[k];
  }

  /** A row behind which the reader does not get on begins a gap. */
  lemma {:induction false} StuckIsGap(str: string, i: nat, cols: nat, e: nat)
    requires cols > 0 && Plain(str) && RowTo(str, i, cols, e, i, true)
    ensures Gap(str, i, e, cols)
  {
    hide RowTo, Shown, Word, BackBy;
    var w := BreakBack(str, i, cols, e, i);
    BrokenRow(str, i, cols, e, i);
    ShownAll(str[if w == -1 then i else w..e]);
    NoBreaks(str, if w == -1 then i else w, e);
    forall k | i <= k < e && !Word(str[k]) && str[k] != '\r' ensures str[k] == ' ' {
      BlankThere(str, i, cols, e, i, k);
    }
  }

  lemma {:induction false} BrokenRow(str: string, i: nat, cols: nat, e: nat, next: int)
    requires RowTo(str, i, cols, e, next, true)
    ensures i <= e < |str| && Word(str[e]) && |Shown(str[i..e])| >= cols
  {
    hide Shown;
  }

  lemma {:induction false} NoBreaks(str: string, i: nat, e: nat)
    requires i <= e <= |str|
    ensures '\r' !in str[i..e] ==> forall k :: i <= k < e ==> str[k] != '\r'
  {
    forall k | i <= k < e ensures str[k] in str[i..e] { assert str[i..e][k - i] == str[k]; }
  }

  /** No row that holds a gap ends before the gap does. */
  lemma {:induction false} NotInside(str: string, i: nat, cols: nat, e: nat, next: int, broken: bool, p: nat, g: nat)
    requires RowTo(str, i, cols, e, next, broken) && i <= p && Gap(str, p, g, cols)
    ensures g >= e
  {
    hide Shown;
    if g < e {
      ShownGap(str, p, g, cols);
      ShownParts(str, i, p, g);
    }
  }

  lemma {:induction false} NotAcross(str: string, p: nat, e: nat, g: nat, cols: nat)
    requires Gap(str, p, g, cols) && p <= e <= g && e < |str| && (str[e] == '\n' || (Word(str[e]) && p < e))
    ensures e == g && Word(str[e])
  {
  }

  /** Else the last of the gaps that begin in the row begins no earlier than the next row. */
  lemma {:induction false} GapBehind(str: string, i: nat, cols: nat, e: nat, next: nat, broken: bool, p: nat, g: nat)
    requires cols > 0 && Plain(str) && RowTo(str, i, cols, e, next, broken)
    requires i <= p < next && Gap(str, p, g, cols)
    ensures next < e && Gap(str, e - 1, e, cols)
  {
    NotInside(str, i, cols, e, next, broken, p, g);
    if broken {
      var w := BreakBack(str, i, cols, e, next);
      hide Shown;
      NotAcross(str, p, e, g, cols);
      ShownGap(str, p, e, cols);
    } else {
      NotAcross(str, p, e, g, cols);
    }
  }

  /** The loop ends exactly when there is no gap, from place i on, between words that is as wide as the screen. */
  lemma {:induction false} EndsUnlessGap(str: string, i: nat, a: Attr, cols: nat, tab: nat)
    requires tab > 0 && cols > 0 && Plain(str)
    ensures Ends(str, i, a, cols, tab) <==> !HasGap(str, i, cols)
    decreases |str| - i
  {
    if i >= |str| {
      assert Lines(str, i, a, cols, tab, 0).Some?;
    } else {
      var e := PlainRow(str, i, a, cols, tab);
      hide ReadAt, ReadLine, Plain, Ends;
      var x, broken := ReadAt(str, i, a, cols, tab), ReadLine(str[i..], NEW_ROW, a, cols, tab).Overlong?;
      NextBehind(str, i, cols, e, x.next, broken);
      if x.next == i {
        NeverEnds(str, i, a, cols, tab);
        StuckIsGap(str, i, cols, e);
      } else {
        EndsUnlessGap(str, x.next, a, cols, tab);
        EndsLater(str, i, a, cols, tab);
        GapsBehind(str, i, cols, e, x.next, broken);
      }
    }
  }

  lemma {:induction false} NextBehind(str: string, i: nat, cols: nat, e: nat, next: int, broken: bool)
    requires cols > 0 && Plain(str) && i < |str| && RowTo(str, i, cols, e, next, broken)
    ensures i <= next && (next == i ==> broken)
  {
    if broken {
      var w := BreakBack(str, i, cols, e, next);
      assert w == -1 ==> |str[i..e]| >= 1;
    }
  }

  lemma {:induction false} NeverEnds(str: string, i: nat, a: Attr, cols: nat, tab: nat)
    requires tab > 0 && i < |str| && ReadAt(str, i, a, cols, tab).next == i && ReadAt(str, i, a, cols, tab).a == a
    ensures !Ends(str, i, a, cols, tab)
  {
    hide ReadAt;
    forall n: nat ensures Lines(str, i, a, cols, tab, n) == None { StuckForever(str, i, a, cols, tab, n); }
  }

  lemma {:induction false} GapsBehind(str: string, i: nat, cols: nat, e: nat, next: nat, broken: bool)
    requires cols > 0 && Plain(str) && i <= next && RowTo(str, i, cols, e, next, broken)
    ensures HasGap(str, i, cols) <==> HasGap(str, next, cols)
  {
    hide Gap, RowTo, Plain;
    if HasGap(str, i, cols) {
      var p, g :| i <= p && Gap(str, p, g, cols);
      if p < next { GapBehind(str, i, cols, e, next, broken, p, g); }
    }
  }

  // ---------- Texts with colour codes ----------

  /** l is what is read of s behind the row r, and c characters were read; a break is ahead of a word character, and if
      every character is in the row there is no code among them. */
  predicate CodedRead(l: LineRead, s: string, r: Row, a: Attr, cols: nat, c: nat) {
    && c <= |s| && |l.rest| == |s| - c && 0 <= |l.row.text| - |r.text| <= c
    && (l.Overlong? ==> c < |s| && Word(s[c]) && |l.row.text| >= cols)
    && (l.Overlong? && |l.row.text| - |r.text| == c ==>
          l.a == a && l.row.text == r.text + s[..c] && forall k :: 0 <= k < c ==> !IsControl(s[k]))
  }

  lemma {:induction false} CodedEnd(s: string, r: Row, a: Attr, cols: nat, tab: nat) returns (c: nat)
    requires tab > 0 && RowEnds(s, r, cols)
    ensures CodedRead(ReadLine(s, r, a, cols, tab), s, r, a, cols, c)
  {
    c := if s == "" || (!IsControl(s[0]) && s[0] != ' ') then 0 else 1;
    assert r.text + s[..0] == r.text;
  }

  lemma {:induction false} CodedStep(s: string, r: Row, a: Attr, cols: nat, tab: nat)
    returns (k: nat, r': Row, a': Attr)
    requires tab > 0 && '\t' !in s && !RowEnds(s, r, cols)
    ensures 0 < k <= |s| && |r.text| <= |r'.text| <= |r.text| + k
    ensures |r'.text| == |r.text| + k ==> k == 1 && a' == a && r'.text == r.text + [s[0]] && !IsControl(s[0])
    ensures ReadLine(s, r, a, cols, tab) == ReadLine(s[k..], r', a', cols, tab)
  {
    hide Apply, AppendTab;
    k, r', a' := 1, r, a;
    if s[0] == CTRL_A {
      k := 2;
      if s[1] == CTRL_A { r' := Append(r, CTRL_A, a); } else { a' := Apply(a, s[1]); }
    } else if s[0] != '\r' {
      r' := Append(r, s[0], a);
    }
  }

  lemma {:induction false} CodedMore(
    l: LineRead, s: string, r: Row, a: Attr, k: nat, r': Row, a': Attr, cols: nat, c: nat)
    requires 0 < k <= |s| && |r.text| <= |r'.text| <= |r.text| + k
    requires |r'.text| == |r.text| + k ==> k == 1 && a' == a && r'.text == r.text + [s[0]] && !IsControl(s[0])
    requires CodedRead(l, s[k..], r', a', cols, c)
    ensures CodedRead(l, s, r, a, cols, k + c)
  {
    hide Word, IsControl;
    if l.Overlong? {
      assert s[k..][c] == s[k + c];
      if |l.row.text| - |r.text| == k + c {
        assert s[..k + c] == [s[0]] + s[1..][..c];
        assert forall j :: 0 < j < k + c ==> s[1..][j - 1] == s[j];
      }
    }
  }

  lemma {:induction false} CodedLine(s: string, r: Row, a: Attr, cols: nat, tab: nat) returns (c: nat)
    requires tab > 0 && '\t' !in s
    ensures CodedRead(ReadLine(s, r, a, cols, tab), s, r, a, cols, c)
    decreases |s|
  {
    hide ReadLine, RowEnds, CodedRead, Word, IsControl;
    if RowEnds(s, r, cols) {
      c := CodedEnd(s, r, a, cols, tab);
    } else {
      var k, r', a' := CodedStep(s, r, a, cols, tab);
      assert '\t' !in s[k..] by { assert s == s[..k] + s[k..]; }
      c := CodedLine(s[k..], r', a', cols, tab);
      CodedMore(ReadLine(s, r, a, cols, tab), s, r, a, k, r', a', cols, c);
      c := k + c;
    }
  }

  /** The row that begins at p is a gap. */
  ghost predicate GapRow(str: string, p: nat, cols: nat) {
    exists e :: Gap(str, p, e, cols) && (Word(str[p]) || e == p + 1)
  }

  lemma {:induction false} GoesBackAll(t: string)
    requires t != ""
    ensures BackBy(t) <= |t|
    ensures BackBy(t) == |t| ==> (!IsBlank(t[0]) && forall k :: 0 < k < |t| ==> IsBlank(t[k])) || |t| == 1
  {
    hide LastWord;
    assert LastWord(t) == 0 ==> !IsBlank(t[0]);
  }

  lemma {:induction false} Advances(str: string, i: nat, a: Attr, cols: nat, tab: nat)
    requires tab > 0 && cols > 0 && '\t' !in str && i < |str|
    ensures var x := ReadAt(str, i, a, cols, tab); x.next >= i && (x.next == i ==> x.a == a && GapRow(str, i, cols))
  {
    hide *;
    NoTabBehind(str, i);
    var c := CodedLine(str[i..], NEW_ROW, a, cols, tab);
    PlaceBehind(str, i, a, cols, tab, c);
    CodedPlace(str, i, ReadLine(str[i..], NEW_ROW, a, cols, tab), a, cols, c, ReadAt(str, i, a, cols, tab).next);
  }

  lemma {:induction false} NoTabBehind(str: string, i: nat)
    requires '\t' !in str && i <= |str|
    ensures '\t' !in str[i..]
  {
    assert str == str[..i] + str[i..];
  }

  lemma {:induction false} PlaceBehind(str: string, i: nat, a: Attr, cols: nat, tab: nat, c: nat)
    requires tab > 0 && i < |str| && CodedRead(ReadLine(str[i..], NEW_ROW, a, cols, tab), str[i..], NEW_ROW, a, cols, c)
    ensures var x, l := ReadAt(str, i, a, cols, tab), ReadLine(str[i..], NEW_ROW, a, cols, tab);
      x.next == i + c - (if l.Overlong? then BackBy(l.row.text) else 0) && x.a == l.a && (l.LineRead? ==> x.next > i)
  {
    Unbroken(str, i, a, cols, tab);
    hide ReadLine, BackBy, Word, LastWord;
  }

  lemma {:induction false} CodedPlace(str: string, i: nat, l: LineRead, a: Attr, cols: nat, c: nat, next: int)
    requires cols > 0 && '\t' !in str && i < |str| && CodedRead(l, str[i..], NEW_ROW, a, cols, c)
    requires next == i + c - (if l.Overlong? then BackBy(l.row.text) else 0) && (l.LineRead? ==> next > i)
    ensures next >= i && (next == i ==> l.a == a && GapRow(str, i, cols))
  {
    hide BackBy, Word, GapRow, IsControl;
    if l.Overlong? {
      GoesBackAll(l.row.text);
      if next == i {
        assert "" + str[i..][..c] == l.row.text && str[i..][c] == str[i + c];
        GapRead(str, i, i + c, l.row.text, cols);
      }
    }
  }

  lemma {:induction false} GapRead(str: string, i: nat, e: nat, t: string, cols: nat)
    requires cols > 0 && '\t' !in str && i < e < |str| && Word(str[e]) && t == str[i..][..e - i] && e - i >= cols
    requires forall k :: 0 <= k < |t| ==> !IsControl(t[k])
    requires (!IsBlank(t[0]) && forall k :: 0 < k < |t| ==> IsBlank(t[k])) || |t| == 1
    ensures GapRow(str, i, cols)
  {
    assert forall k :: i <= k < e ==> str[k] == t[k - i];
    assert Gap(str, i, e, cols);
  }

  lemma {:induction false} ReadBlanks(s: string, n: nat, r: Row, a: Attr, cols: nat, tab: nat)
    requires tab > 0 && n < |s| && Word(s[n]) && |r.text| + n >= cols && forall k :: 0 <= k < n ==> s[k] == ' '
    ensures var l := ReadLine(s, r, a, cols, tab);
      l.Overlong? && l.row.text == r.text + s[..n] && |l.rest| == |s| - n && l.a == a
    decreases n
  {
    hide Apply, AppendTab;
    if n == 0 {
      assert r.text + s[..0] == r.text;
    } else {
      ReadBlanks(s[1..], n - 1, Append(r, ' ', a), a, cols, tab);
      assert s[..n] == [' '] + s[1..][..n - 1];
    }
  }

  /** From a row that is a gap the reader comes to the same row. */
  lemma {:induction false} StaysAtGap(str: string, i: nat, a: Attr, cols: nat, tab: nat)
    requires tab > 0 && cols > 0 && i < |str| && GapRow(str, i, cols)
    ensures ReadAt(str, i, a, cols, tab).next == i && ReadAt(str, i, a, cols, tab).a == a
  {
    hide Gap, Word, ReadAt;
    var e :| Gap(str, i, e, cols) && (Word(str[i]) || e == i + 1);
    ReadGap(str, i, e, a, cols, tab);
    GapBack(str, i, e, cols);
    PlaceAtGap(str, i, e, a, cols, tab);
  }

  lemma {:induction false} PlaceAtGap(str: string, i: nat, e: nat, a: Attr, cols: nat, tab: nat)
    requires tab > 0 && i < e < |str| && BackBy(str[i..e]) == e - i
    requires var l := ReadLine(str[i..], NEW_ROW, a, cols, tab);
      l.Overlong? && l.row.text == str[i..e] && |l.rest| == |str| - e && l.a == a
    ensures ReadAt(str, i, a, cols, tab).next == i && ReadAt(str, i, a, cols, tab).a == a
  {
    hide ReadLine, BackBy, LastWord;
  }

  lemma {:induction false} GapBack(str: string, i: nat, e: nat, cols: nat)
    requires Gap(str, i, e, cols) && (Word(str[i]) || e == i + 1)
    ensures BackBy(str[i..e]) == e - i
  {
    hide LastWord;
    var t := str[i..e];
    assert forall k :: 0 <= k < |t| ==> t[k] == str[i + k];
    LastWordIs(t, if Word(str[i]) then 0 else -1);
  }

  lemma {:induction false} ReadGap(str: string, i: nat, e: nat, a: Attr, cols: nat, tab: nat)
    requires tab > 0 && cols > 0 && Gap(str, i, e, cols)
    ensures var l := ReadLine(str[i..], NEW_ROW, a, cols, tab);
      l.Overlong? && l.row.text == str[i..e] && |l.rest| == |str| - e && l.a == a
  {
    hide ReadLine;
    var s, n := str[i + 1..], e - i - 1;
    assert str[i..] == [str[i]] + s && s[n] == str[e];
    assert forall k :: 0 <= k < n ==> s[k] == str[i + 1 + k];
    ReadChar(str[i], s, NEW_ROW, a, cols, tab);
    ReadBlanks(s, n, Append(NEW_ROW, str[i], a), a, cols, tab);
    assert "" + [str[i]] + s[..n] == str[i..e];
  }

  ghost predicate ComesToGapRow(str: string, i: int, a: Attr, cols: nat, tab: nat)
    requires tab > 0
    decreases |str| - i
  {
    0 <= i < |str|
    && (GapRow(str, i, cols)
        || var x := ReadAt(str, i, a, cols, tab); x.next > i && ComesToGapRow(str, x.next, x.a, cols, tab))
  }

  /** On a text that may have colour codes, but no tabs, the loop ends exactly when no row that is read is a gap. */
  lemma {:induction false} EndsUnlessGapRow(str: string, i: nat, a: Attr, cols: nat, tab: nat)
    requires tab > 0 && cols > 0 && '\t' !in str
    ensures Ends(str, i, a, cols, tab) <==> !ComesToGapRow(str, i, a, cols, tab)
    decreases |str| - i
  {
    if i >= |str| {
      assert Lines(str, i, a, cols, tab, 0).Some?;
    } else {
      hide ReadAt, GapRow, Ends;
      Advances(str, i, a, cols, tab);
      var x := ReadAt(str, i, a, cols, tab);
      if GapRow(str, i, cols) {
        StaysAtGap(str, i, a, cols, tab);
        NeverEnds(str, i, a, cols, tab);
      } else {
        EndsUnlessGapRow(str, x.next, x.a, cols, tab);
        EndsLater(str, i, a, cols, tab);
      }
    }
  }

  // ---------- Whether a line has to be broken ----------

  /** The word character at k stands beyond the last column, even if its line began as late as p. */
  predicate Wide(str: string, p: nat, k: nat, cols: nat) {
    p <= k < |str| && '\n' !in str[p..k] && Word(str[k]) && |Shown(str[p..k])| >= cols
  }

  ghost predicate HasWide(str: string, i: nat, cols: nat) {
    exists p, k :: i <= p && Wide(str, p, k, cols)
  }

  lemma {:induction false} WideBehind(str: string, i: nat, cols: nat, e: nat, next: int, p: nat, k: nat)
    requires RowTo(str, i, cols, e, next, false) && i <= p && Wide(str, p, k, cols)
    ensures next <= p
  {
    hide Shown;
    if k < e {
      ShownParts(str, i, p, k);
    } else if p <= e < k {
      NoFeedInside(str, p, k, e);
    }
  }

  lemma {:induction false} NoFeedInside(str: string, p: nat, k: nat, e: nat)
    requires p <= e < k <= |str| && '\n' !in str[p..k]
    ensures str[e] != '\n'
  {
    assert str[p..k][e - p] == str[e];
  }

  lemma {:induction false} WidesBehind(str: string, i: nat, cols: nat, e: nat, next: nat)
    requires i <= next && RowTo(str, i, cols, e, next, false)
    ensures HasWide(str, i, cols) <==> HasWide(str, next, cols)
  {
    hide Wide, RowTo;
    if HasWide(str, i, cols) {
      var p, k :| i <= p && Wide(str, p, k, cols);
      WideBehind(str, i, cols, e, next, p, k);
    }
  }

  lemma {:induction false} BrokenIsWide(str: string, i: nat, cols: nat, e: nat, next: int)
    requires RowTo(str, i, cols, e, next, true)
    ensures HasWide(str, i, cols)
  {
    assert Wide(str, i, e, cols);
  }

  /** No line has to be broken exactly when every word character, from place i on, stands fewer than `cols` shown
      characters behind the beginning of its line. */
  lemma {:induction false} UnbrokenUnlessWide(str: string, i: nat, a: Attr, cols: nat, tab: nat)
    requires tab > 0 && Plain(str) && i <= |str|
    ensures Decode(str[i..], a, cols, tab).Some? <==> !HasWide(str, i, cols)
    decreases |str| - i
  {
    if i == |str| {
      assert str[i..] == "";
    } else {
      var e := PlainRow(str, i, a, cols, tab);
      DecodeNext(str[i..], a, cols, tab);
      Unbroken(str, i, a, cols, tab);
      hide ReadAt, ReadLine, Plain, Decode, HasWide, RowTo;
      var x, l := ReadAt(str, i, a, cols, tab), ReadLine(str[i..], NEW_ROW, a, cols, tab);
      if l.Overlong? {
        BrokenIsWide(str, i, cols, e, x.next);
      } else {
        UnbrokenUnlessWide(str, x.next, a, cols, tab);
        WidesBehind(str, i, cols, e, x.next);
      }
    }
  }

  // ---------- What becomes of the text ----------

  /** Every carriage return ends a line. */
  predicate Tidy(str: string) {
    forall k :: 0 <= k < |str| && str[k] == '\r' ==> k + 1 < |str| && str[k + 1] == '\n'
  }

  function Texts(rows: seq<RowValue>): string {
    if rows == [] then "" else rows[0].text + Texts(rows[1..])
  }

  lemma {:induction false} TextsOnto(r: RowValue, more: Option<seq<RowValue>>)
    requires more.Some?
    ensures Onto(r, more).Some? && Texts(Onto(r, more).value) == r.text + Texts(more.value)
  {
    assert ([r] + more.value)[1..] == more.value;
  }

  /** Behind a row that was broken something is read that was read before. */
  lemma {:induction false} ReadTwice(str: string, i: nat, cols: nat, e: nat, next: int)
    requires cols > 0 && Plain(str) && Tidy(str) && RowTo(str, i, cols, e, next, true)
    ensures i <= next < e && |Shown(str[i..])| < |Shown(str[i..e])| + |Shown(str[next..])|
  {
    NextInside(str, i, cols, e, next);
    NoReturns(str, i, e);
    hide RowTo, Shown, Tidy;
    ShownAll(str[next..e]);
    assert str[i..] == str[i..|str|] && str[next..] == str[next..|str|];
    ShownParts(str, i, e, |str|);
    ShownParts(str, next, e, |str|);
    forall k | 0 <= k < |str[next..e]| ensures str[next..e][k] == str[i..e][next - i + k] {
    }
  }

  lemma {:induction false} NextInside(str: string, i: nat, cols: nat, e: nat, next: int)
    requires cols > 0 && Plain(str) && RowTo(str, i, cols, e, next, true)
    ensures i <= next < e < |str| && Word(str[e]) && '\n' !in str[i..e]
  {
    NextBehind(str, i, cols, e, next, true);
    hide Shown, BackBy;
  }

  lemma {:induction false} NoReturns(str: string, i: nat, e: nat)
    requires Tidy(str) && i <= e < |str| && Word(str[e]) && '\n' !in str[i..e]
    ensures '\r' !in str[i..e]
  {
    forall k | i <= k < e ensures str[k] != '\r' {
      if k + 1 < e { NoFeedInside(str, i, e, k + 1); }
    }
  }

  lemma {:induction false} ShownToNext(str: string, i: nat, cols: nat, e: nat, next: nat)
    requires RowTo(str, i, cols, e, next, false)
    ensures next <= |str| && Shown(str[i..]) == Shown(str[i..e]) + Shown(str[next..])
  {
    assert str[i..] == str[i..e] + str[e..];
    ShownConcat(str[i..e], str[e..]);
    if e < |str| {
      assert str[e..][1..] == str[next..];
    }
  }

  /** The rows of a text are its characters, in order and each once, exactly when no word stands beyond the last column
      of its line; else more comes of it. */
  lemma {:induction false} LinesKeepText(str: string, i: nat, a: Attr, cols: nat, tab: nat, n: nat)
    requires tab > 0 && cols > 0 && Plain(str) && Tidy(str) && i <= |str| && Lines(str, i, a, cols, tab, n).Some?
    ensures var t := Texts(Lines(str, i, a, cols, tab, n).value);
      if HasWide(str, i, cols) then |t| > |Shown(str[i..])| else t == Shown(str[i..])
    decreases n
  {
    if i == |str| {
      assert str[i..] == "";
    } else {
      if n == 0 { NoRows(str, i, a, cols, tab); }
      hide *;
      var e := PlainRow(str, i, a, cols, tab);
      LinesNext(str, i, a, cols, tab, n);
      var x, broken := ReadAt(str, i, a, cols, tab), ReadLine(str[i..], NEW_ROW, a, cols, tab).Overlong?;
      RowIsKept(str, i, cols, e, x, broken, Lines(str, x.next, x.a, cols, tab, n - 1)) by {
        NextBehind(str, i, cols, e, x.next, broken);
        NextWithin(str, i, cols, e, x.next, broken);
        OntoSome(x.row, Lines(str, x.next, x.a, cols, tab, n - 1));
        LinesKeepText(str, x.next, x.a, cols, tab, n - 1);
      }
    }
  }

  lemma {:induction false} OntoSome(r: RowValue, more: Option<seq<RowValue>>)
    ensures Onto(r, more).Some? <==> more.Some?
  {
  }

  lemma {:induction false} NextWithin(str: string, i: nat, cols: nat, e: nat, next: int, broken: bool)
    requires cols > 0 && Plain(str) && RowTo(str, i, cols, e, next, broken)
    ensures next <= |str|
  {
    if broken { NextInside(str, i, cols, e, next); }
    hide Shown, BackBy;
  }

  lemma {:induction false} RowIsKept(
    str: string, i: nat, cols: nat, e: nat, x: RowAt, broken: bool, more: Option<seq<RowValue>>)
    requires cols > 0 && Plain(str) && Tidy(str) && RowTo(str, i, cols, e, x.next, broken)
    requires i <= x.next <= |str| && e <= |str| && x.row.text == Shown(str[i..e]) && more.Some?
    requires if HasWide(str, x.next, cols) then |Texts(more.value)| > |Shown(str[x.next..])|
             else Texts(more.value) == Shown(str[x.next..])
    ensures Onto(x.row, more).Some?
    ensures var t := Texts(Onto(x.row, more).value);
      if HasWide(str, i, cols) then |t| > |Shown(str[i..])| else t == Shown(str[i..])
  {
    hide *;
    TextsOnto(x.row, more);
    if broken {
      BrokenIsWide(str, i, cols, e, x.next);
      ReadTwice(str, i, cols, e, x.next);
    } else {
      WidesBehind(str, i, cols, e, x.next);
      ShownToNext(str, i, cols, e, x.next);
    }
  }

  // ---------- Texts on which it goes wrong ----------

  /** A character and blanks up to the edge of the screen: the reader breaks the row and comes to it again, for ever. */
  lemma {:induction false} NeverEndsExample()
    ensures !Ends("x  y", 0, NORMAL, 3, 8)
  {
    EndsUnlessGap("x  y", 0, NORMAL, 3, 8);
    assert Gap("x  y", 0, 3, 3);
  }

  /** The last character of a row that is broken shows again in the next one. */
  lemma {:induction false} TwiceExample()
    ensures var rows := Lines("abcd\n", 0, NORMAL, 3, 8, 2); rows.Some? && Texts(rows.value) == "abccd"
  {
    var str := "abcd\n";
    FirstRow(str);
    SecondRow(str);
    hide ReadAt;
    LinesNext(str, 0, NORMAL, 3, 8, 2);
    LinesNext(str, 2, NORMAL, 3, 8, 1);
    assert Lines(str, 5, NORMAL, 3, 8, 0) == Some([]);
    hide Lines;
    TextsOnto(ReadAt(str, 2, NORMAL, 3, 8).row, Some([]));
    TextsOnto(ReadAt(str, 0, NORMAL, 3, 8).row, Lines(str, 2, NORMAL, 3, 8, 1));
  }

  lemma {:induction false} FirstRow(str: string)
    requires str == "abcd\n"
    ensures var x := ReadAt(str, 0, NORMAL, 3, 8); x.row.text == "abc" && x.next == 2 && x.a == NORMAL
  {
    assert str == ['a'] + "bcd\n" && "bcd\n" == ['b'] + "cd\n" && "cd\n" == ['c'] + "d\n" && str[0..] == str;
    ReadChar('a', "bcd\n", NEW_ROW, NORMAL, 3, 8);
    var a := Append(NEW_ROW, 'a', NORMAL);
    ReadChar('b', "cd\n", a, NORMAL, 3, 8);
    var ab := Append(a, 'b', NORMAL);
    ReadChar('c', "d\n", ab, NORMAL, 3, 8);
    var abc := Append(ab, 'c', NORMAL);
    assert "d\n" == ['d'] + "\n";
    ReadChar('d', "\n", abc, NORMAL, 3, 8);
    hide ReadLine;
    assert abc.text == "abc";
    LastWordIs("abc", 2);
  }

  lemma {:induction false} SecondRow(str: string)
    requires str == "abcd\n"
    ensures var x := ReadAt(str, 2, NORMAL, 3, 8); x.row.text == "cd" && x.next == 5 && x.a == NORMAL
  {
    assert str[2..] == "cd\n" && "cd\n" == ['c'] + "d\n" && "d\n" == ['d'] + "\n";
    ReadChar('c', "d\n", NEW_ROW, NORMAL, 3, 8);
    var c := Append(NEW_ROW, 'c', NORMAL);
    ReadChar('d', "\n", c, NORMAL, 3, 8);
    var cd := Append(c, 'd', NORMAL);
    assert ReadLine("\n", cd, NORMAL, 3, 8) == LineRead(cd.(hardcr := true), "", NORMAL);
    hide ReadLine;
  }
}
