/** How `make_lines` reads saved texts, row by row. */
module Streams {
  import opened Options
  import opened EditorText
  import opened ColourCodec
  import opened ColourRoundTrip
  import opened LongLines
  import opened PlainLines

  // ---------- Texts as they are written ----------

  /** Every Ctrl-A begins a colour code, every carriage return a line end, and there are no tabs. */
  predicate Stream(s: string) {
    forall k :: 0 <= k < |s| ==> StreamAt(s, k)
  }

  predicate StreamAt(s: string, k: nat)
    requires k < |s|
  {
    && (s[k] == CTRL_A ==> k + 1 < |s| && IsCode(s[k + 1]))
    && (s[k] == '\r' ==> k + 1 < |s| && s[k + 1] == '\n')
    && s[k] != '\t'
  }

  lemma {:induction false} StreamBehind(s: string, n: nat)
    requires Stream(s) && n <= |s|
    ensures Stream(s[n..])
  {
    forall k | 0 <= k < |s[n..]| ensures StreamAt(s[n..], k) { assert StreamAt(s, n + k); }
  }

  lemma {:induction false} StreamNoTab(s: string)
    requires Stream(s)
    ensures '\t' !in s
  {
    forall k | 0 <= k < |s| ensures s[k] != '\t' { assert StreamAt(s, k); }
  }

  /** What the line at the beginning of s shows, if it is never broken. */
  function LineText(s: string): string
    decreases |s|
  {
    if s == "" || s[0] == '\n' then ""
    else if s[0] == CTRL_A then (if |s| >= 2 then LineText(s[2..]) else "")
    else if s[0] == '\r' then LineText(s[1..])
    else [s[0]] + LineText(s[1..])
  }

  // ---------- One row ----------

  lemma {:induction false} StreamStep(s: string, r: Row, a: Attr, cols: nat, tab: nat)
    returns (k: nat, r': Row, a': Attr)
    requires tab > 0 && Stream(s) && !RowEnds(s, r, cols)
    ensures 0 < k <= |s| && s[k - 1] != CTRL_A && '\n' !in s[..k] && |r.text| <= |r'.text| && r'.hardcr == r.hardcr
    ensures r'.text + LineText(s[k..]) == r.text + LineText(s)
    ensures '\r' in s[..k] ==> k < |s| && s[k] == '\n'
    ensures ReadLine(s, r, a, cols, tab) == ReadLine(s[k..], r', a', cols, tab)
  {
    hide Apply, AppendTab;
    assert StreamAt(s, 0);
    k, r', a' := 1, r, a;
    if s[0] == CTRL_A {
      k, a' := 2, Apply(a, s[1]);
    } else if s[0] != '\r' {
      r' := Append(r, s[0], a);
      assert r.text + [s[0]] + LineText(s[1..]) == r.text + ([s[0]] + LineText(s[1..]));
    }
  }

  /** l is what is read of the stream s behind the row r. */
  predicate StreamRead(l: LineRead, s: string, r: Row, cols: nat) {
    && |l.rest| <= |s| && |r.text| <= |l.row.text|
    && match l
       case LineRead(row, _, _) => row.text == r.text + LineText(s) && ('\n' in s ==> row.hardcr)
       case Overlong(row, rest, _) =>
         && rest != "" && Word(rest[0]) && |row.text| >= cols && row.hardcr == r.hardcr
         && row.text + LineText(rest) == r.text + LineText(s)
         && var n := |s| - |rest|;
         '\n' !in s[..n] && '\r' !in s[..n] && (n > 0 ==> s[n - 1] != CTRL_A)
  }

  lemma {:induction false} StreamEnd(s: string, r: Row, a: Attr, cols: nat, tab: nat)
    requires tab > 0 && Stream(s) && RowEnds(s, r, cols)
    ensures StreamRead(ReadLine(s, r, a, cols, tab), s, r, cols)
  {
    if s != "" { assert StreamAt(s, 0); }
    assert r.text + "" == r.text;
  }

  lemma {:induction false} StreamMore(l: LineRead, s: string, r: Row, k: nat, r': Row, cols: nat)
    requires 0 < k <= |s| && s[k - 1] != CTRL_A && '\n' !in s[..k] && |r.text| <= |r'.text| && r.hardcr == r'.hardcr
    requires r'.text + LineText(s[k..]) == r.text + LineText(s)
    requires '\r' in s[..k] ==> l.LineRead?
    requires StreamRead(l, s[k..], r', cols)
    ensures StreamRead(l, s, r, cols)
  {
    hide LineText, Word;
    assert s == s[..k] + s[k..];
    if l.Overlong? {
      var n := |s| - |l.rest|;
      assert s[..n] == s[..k] + s[k..][..n - k];
      assert n > k ==> s[k..][n - k - 1] == s[n - 1];
    }
  }

  lemma {:induction false} FeedEndsRow(s: string, r: Row, a: Attr, cols: nat, tab: nat)
    requires tab > 0 && s != "" && s[0] == '\n'
    ensures ReadLine(s, r, a, cols, tab).LineRead?
  {
  }

  lemma {:induction false} StreamLine(s: string, r: Row, a: Attr, cols: nat, tab: nat)
    requires tab > 0 && Stream(s)
    ensures StreamRead(ReadLine(s, r, a, cols, tab), s, r, cols)
    decreases |s|
  {
    hide *;
    if RowEnds(s, r, cols) {
      StreamEnd(s, r, a, cols, tab);
    } else {
      var k, r', a' := StreamStep(s, r, a, cols, tab);
      StreamBehind(s, k);
      StreamLine(s[k..], r', a', cols, tab);
      if k < |s| && s[k] == '\n' { FeedEndsRow(s[k..], r', a', cols, tab); }
      StreamMore(ReadLine(s, r, a, cols, tab), s, r, k, r', cols);
    }
  }

  // ---------- Rows, one after the other ----------

  /** The rows that are read from the beginning of s on. */
  ghost predicate LoadsFrom(s: string, a: Attr, cols: nat, tab: nat, rows: seq<RowValue>)
    requires tab > 0
  {
    exists n: nat :: Lines(s, 0, a, cols, tab, n) == Some(rows)
  }

  /** What follows when l was read of s. */
  function Following(s: string, l: LineRead): string {
    var n := |l.rest| + if l.LineRead? then 0 else BackBy(l.row.text);
    if n <= |s| then s[|s| - n..] else s
  }

  function Kept(l: LineRead): RowValue {
    if l.LineRead? then l.row else l.row.(kludged := l.row.kludged || LastWord(l.row.text) == -1)
  }

  lemma {:induction false} FirstPlace(s: string, a: Attr, cols: nat, tab: nat)
    requires tab > 0 && cols > 0 && s != "" && '\t' !in s
    ensures var x, l := ReadAt(s, 0, a, cols, tab), ReadLine(s, NEW_ROW, a, cols, tab);
      && x.row == Kept(l) && x.a == l.a && 0 <= x.next <= |s| && s[x.next..] == Following(s, l)
      && (l.Overlong? ==> |l.rest| + BackBy(l.row.text) <= |s|)
  {
    assert s[0..] == s;
    Advances(s, 0, a, cols, tab);
    RestIsBehind(s, NEW_ROW, a, cols, tab);
    hide ReadLine, BackBy, LastWord, GapRow;
  }

  lemma {:induction false} ShiftedPlace(s: string, i: nat, a: Attr, cols: nat, tab: nat)
    requires tab > 0 && i < |s|
    ensures var x, y := ReadAt(s, i, a, cols, tab), ReadAt(s[i..], 0, a, cols, tab);
      x.row == y.row && x.a == y.a && x.next == i + y.next
  {
    assert s[i..][0..] == s[i..];
    hide ReadLine, BackBy, LastWord;
  }

  lemma {:induction false} ShiftedLines(s: string, i: nat, a: Attr, cols: nat, tab: nat, n: nat)
    requires tab > 0 && cols > 0 && '\t' !in s && i <= |s|
    ensures Lines(s, i, a, cols, tab, n) == Lines(s[i..], 0, a, cols, tab, n)
    decreases n
  {
    hide ReadAt, GapRow;
    if i < |s| && n > 0 {
      ShiftedPlace(s, i, a, cols, tab);
      NoTabBehind(s, i);
      Advances(s[i..], 0, a, cols, tab);
      var x, y := ReadAt(s, i, a, cols, tab), ReadAt(s[i..], 0, a, cols, tab);
      PlaceWithin(s[i..], a, cols, tab);
      ShiftedLines(s, x.next, x.a, cols, tab, n - 1);
      ShiftedLines(s[i..], y.next, y.a, cols, tab, n - 1);
      assert s[i..][y.next..] == s[x.next..];
    }
  }

  lemma {:induction false} PlaceWithin(s: string, a: Attr, cols: nat, tab: nat)
    requires tab > 0 && s != ""
    ensures ReadAt(s, 0, a, cols, tab).next <= |s|
  {
    hide ReadLine, BackBy, LastWord;
  }

  /** A text gives just these rows exactly when it gives the first of them, and what follows gives the others. */
  lemma {:induction false} LoadsNext(s: string, a: Attr, cols: nat, tab: nat, rows: seq<RowValue>)
    requires tab > 0 && cols > 0 && s != "" && '\t' !in s
    ensures var l := ReadLine(s, NEW_ROW, a, cols, tab);
      LoadsFrom(s, a, cols, tab, rows)
      <==> rows != [] && rows[0] == Kept(l) && LoadsFrom(Following(s, l), l.a, cols, tab, rows[1..])
  {
    hide Lines, ReadLine, ReadAt, Following, Kept;
    FirstPlace(s, a, cols, tab);
    var l, x := ReadLine(s, NEW_ROW, a, cols, tab), ReadAt(s, 0, a, cols, tab);
    if LoadsFrom(s, a, cols, tab, rows) {
      var n: nat :| Lines(s, 0, a, cols, tab, n) == Some(rows);
      if n == 0 { NoRows(s, 0, a, cols, tab); } else {
        LinesNext(s, 0, a, cols, tab, n);
        ShiftedLines(s, x.next, x.a, cols, tab, n - 1);
      }
    }
    if rows != [] && rows[0] == Kept(l) && LoadsFrom(Following(s, l), l.a, cols, tab, rows[1..]) {
      var n: nat :| Lines(Following(s, l), 0, l.a, cols, tab, n) == Some(rows[1..]);
      ShiftedLines(s, x.next, x.a, cols, tab, n);
      LinesNext(s, 0, a, cols, tab, n + 1);
      assert rows == [rows[0]] + rows[1..];
    }
  }

  lemma {:induction false} LoadsNothing(a: Attr, cols: nat, tab: nat, rows: seq<RowValue>)
    requires tab > 0
    ensures LoadsFrom("", a, cols, tab, rows) <==> rows == []
  {
    assert Lines("", 0, a, cols, tab, 0) == Some([]);
  }

  // ---------- Lines that are broken show no less ----------

  /** From a place at which no code is cut the line goes on as it did; what is shown before it is v, and if that is
      nothing there are only codes. */
  lemma {:induction false} Aligned(s: string, n: nat) returns (v: string, codes: string)
    requires Stream(s) && n <= |s| && (n > 0 ==> s[n - 1] != CTRL_A) && '\n' !in s[..n] && '\r' !in s[..n]
    ensures LineText(s) == v + LineText(s[n..])
    ensures v == "" ==> AllCodes(codes) && s[..n] == Escape(codes)
    decreases n
  {
    v, codes := "", "";
    if n == 0 {
      assert s[0..] == s && s[..0] == "";
    } else {
      assert StreamAt(s, 0);
      var k := if s[0] == CTRL_A then 2 else 1;
      StreamBehind(s, k);
      assert s[..n] == s[..k] + s[k..][..n - k] && s[k..][n - k..] == s[n..];
      assert n > k ==> s[k..][n - k - 1] == s[n - 1];
      var w, more := Aligned(s[k..], n - k);
      if k == 2 {
        v := w;
        if v == "" { codes := CodeAhead(s[1], more); }
      } else {
        v := [s[0]] + w;
      }
    }
  }

  lemma {:induction false} CodeAhead(c: char, more: string) returns (codes: string)
    requires IsCode(c) && AllCodes(more)
    ensures AllCodes(codes) && Escape(codes) == [CTRL_A, c] + Escape(more)
  {
    codes := [c] + more;
    assert codes[1..] == more;
  }

  predicate HasWord(t: string) {
    LastWord(t) != -1
  }

  lemma {:induction false} BackBehind(x: string, w: string)
    requires HasWord(w)
    ensures HasWord(x + w) && BackBy(x + w) == BackBy(w)
  {
    hide LastWord;
    LastWordIs(x + w, |x| + LastWord(w));
  }

  lemma {:induction false} BackOverBlanks(w: string, z: string)
    requires HasWord(w) && forall k :: 0 <= k < |z| ==> IsBlank(z[k])
    ensures HasWord(w + z) && BackBy(w + z) == BackBy(w) + |z|
  {
    hide LastWord;
    LastWordIs(w + z, LastWord(w));
  }

  lemma {:induction false} WordShows(s: string)
    requires s != "" && Word(s[0])
    ensures LineText(s) != "" && LineText(s)[0] == s[0] && HasWord(LineText(s))
  {
    hide LastWord;
    var t := LineText(s);
    assert t[0] == s[0] && !IsBlank(t[0]);
  }

  /** What follows a row that was broken shows all that was not read, and perhaps something before it. */
  lemma {:induction false} BrokenLine(s: string, a: Attr, cols: nat, tab: nat) returns (v: string, codes: string)
    requires tab > 0 && cols > 0 && Stream(s) && ReadLine(s, NEW_ROW, a, cols, tab).Overlong?
    ensures var l := ReadLine(s, NEW_ROW, a, cols, tab);
      var b, f := BackBy(l.row.text), Following(s, l);
      && s != "" && f != "" && Stream(f) && l.rest != "" && Word(l.rest[0]) && HasWord(LineText(l.rest))
      && ('\n' in s ==> '\n' in f)
      && LineText(s) == l.row.text + LineText(l.rest) && LineText(f) == v + LineText(l.rest)
      && |l.rest| + b <= |s| && f == s[|s| - |l.rest| - b..]
      && (v == "" ==> AllCodes(codes) && f[..b] == Escape(codes))
  {
    hide *;
    StreamLine(s, NEW_ROW, a, cols, tab);
    StreamNoTab(s);
    var l := ReadLine(s, NEW_ROW, a, cols, tab);
    BrokenParts(s, l, cols);
    FirstPlace(s, a, cols, tab);
    RestIsBehind(s, NEW_ROW, a, cols, tab);
    FollowingIs(s, l);
    v, codes := BackInLine(s, l, |s| - |l.rest| - BackBy(l.row.text));
    WordShows(l.rest);
  }

  lemma {:induction false} BrokenParts(s: string, l: LineRead, cols: nat)
    requires StreamRead(l, s, NEW_ROW, cols) && l.Overlong?
    ensures |l.rest| <= |s| && l.rest != "" && Word(l.rest[0]) && s != ""
    ensures LineText(s) == l.row.text + LineText(l.rest)
    ensures var n := |s| - |l.rest|; '\n' !in s[..n] && '\r' !in s[..n] && (n > 0 ==> s[n - 1] != CTRL_A)
  {
    hide LineText, Word;
    assert "" + LineText(s) == LineText(s);
  }

  lemma {:induction false} FollowingIs(s: string, l: LineRead)
    requires l.Overlong? && |l.rest| + BackBy(l.row.text) <= |s|
    ensures Following(s, l) == s[|s| - |l.rest| - BackBy(l.row.text)..] && BackBy(l.row.text) > 0
  {
    hide LastWord;
  }

  /** From place j of the line, ahead of the break, or at it. */
  lemma {:induction false} BackInLine(s: string, l: LineRead, j: nat) returns (v: string, codes: string)
    requires Stream(s) && |l.rest| <= |s| && l.rest == s[|s| - |l.rest|..] && j <= |s| - |l.rest| && l.rest != ""
    requires var n := |s| - |l.rest|; '\n' !in s[..n] && '\r' !in s[..n] && (n > 0 ==> s[n - 1] != CTRL_A)
    ensures var f, b := s[j..], |s| - |l.rest| - j;
      && f != "" && Stream(f) && ('\n' in s ==> '\n' in f) && LineText(f) == v + LineText(l.rest)
      && (v == "" ==> AllCodes(codes) && f[..b] == Escape(codes))
  {
    hide LineText, Stream, Escape;
    var at := |s| - |l.rest|;
    var b, f := at - j, s[j..];
    StreamBehind(s, j);
    assert f[b..] == l.rest && (b > 0 ==> f[b - 1] == s[at - 1]);
    assert s[..at] == s[..j] + f[..b];
    assert s == s[..at] + l.rest && f == f[..b] + l.rest;
    v, codes := Aligned(f, b);
  }

  /** The rows of a line show no less than the line, and end in as many blanks. */
  lemma {:induction false} GroupRead(s: string, a: Attr, cols: nat, tab: nat, rows: seq<RowValue>, m: nat)
    requires tab > 0 && cols > 0 && Stream(s) && '\n' in s && LoadsFrom(s, a, cols, tab, rows)
    requires m < |rows| && rows[m].hardcr && forall k :: 0 <= k < m ==> !rows[k].hardcr
    ensures var t := Texts(rows[..m + 1]);
      |t| >= |LineText(s)| && (HasWord(LineText(s)) ==> HasWord(t) && BackBy(t) == BackBy(LineText(s)))
    decreases m
  {
    hide ReadLine, LoadsFrom, LineText, Stream, BackBy, HasWord, Texts;
    var l := ReadLine(s, NEW_ROW, a, cols, tab);
    StreamNoTab(s);
    LoadsNext(s, a, cols, tab, rows);
    StreamLine(s, NEW_ROW, a, cols, tab);
    TextsFirst(rows[..m + 1]);
    if m == 0 {
      TextsNone(rows[..1]);
      assert "" + LineText(s) == LineText(s);
    } else {
      var v, codes := BrokenLine(s, a, cols, tab);
      assert rows[..m + 1][1..] == rows[1..][..m];
      GroupRead(Following(s, l), l.a, cols, tab, rows[1..], m - 1);
      BackBehind(v, LineText(l.rest));
      BackBehind(l.row.text, LineText(l.rest));
      BackBehind(l.row.text, Texts(rows[1..][..m]));
    }
  }

  lemma {:induction false} TextsFirst(rows: seq<RowValue>)
    requires rows != []
    ensures Texts(rows) == rows[0].text + Texts(rows[1..])
  {
  }

  lemma {:induction false} TextsNone(rows: seq<RowValue>)
    requires |rows| == 1
    ensures Texts(rows) == rows[0].text
  {
    assert Texts(rows[1..]) == "";
  }
}
