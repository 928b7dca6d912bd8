/** What a row of the editor holds once it was cut or filled. */
module Filling {
  import opened Characters
  import opened EditorText
  import opened Reflow

  /** A word, or the blanks behind it, may end a row ahead of character k. */
  predicate WordEnd(t: string, k: nat) {
    1 <= k <= |t| && (k == |t| || IsSpace(t[k]))
  }

  /** From k to e there are blanks only, and e is as far as they go. */
  ghost predicate BlanksTo(t: string, k: nat, e: nat) {
    k <= e <= |t| && (forall i :: k <= i < e ==> IsSpace(t[i])) && (e < |t| ==> !IsSpace(t[e]))
  }

  /** e is the end of as many whole words as have at most n characters, with the blanks behind them; or 0. */
  ghost predicate WholeWords(t: string, n: int, e: nat) {
    if forall k :: 1 <= k <= n ==> !WordEnd(t, k) then e == 0
    else exists k: nat ::
           WordEnd(t, k) && k <= n && BlanksTo(t, k, e) && forall i :: k < i <= n ==> !WordEnd(t, i)
  }

  /** e is the end of what stands ahead of the first blank, n characters at most, with the blanks behind it. */
  ghost predicate RestOfWord(t: string, n: int, e: nat) {
    exists k: nat ::
      && k <= n && k <= |t| && (forall i :: 0 <= i < k ==> !IsSpace(t[i])) && (k == n || k == |t| || IsSpace(t[k]))
      && if k == 0 then e == 0 else BlanksTo(t, k, e)
  }

  /** A blank at k, and a word somewhere behind it. */
  ghost predicate Gap(t: string, k: nat) {
    1 <= k < |t| && IsSpace(t[k]) && exists i :: k < i < |t| && !IsSpace(t[i])
  }

  /** Where a row of cols - 1 characters at most is cut: behind the last gap, if there is one, and else where it is
      full. */
  ghost predicate CutsAt(t: string, cols: nat, e: nat) {
    if forall k :: 1 <= k < cols ==> !Gap(t, k) then e == if |t| < cols then |t| else cols - 1
    else exists k: nat :: Gap(t, k) && k < cols && BlanksTo(t, k, e) && forall i :: k < i < cols ==> !Gap(t, i)
  }

  lemma {:induction false} BlanksToRunEnd(t: string, k: nat)
    requires k <= |t|
    ensures BlanksTo(t, k, RunEnd(t, k))
  {
    RunEndMeaning(t, k);
  }

  lemma {:induction false} WordBreakMeaning(t: string, n: nat)
    ensures WholeWords(t, n, WordBreak(t, n))
  {
    if n > 0 {
      if n == |t| || (n < |t| && IsSpace(t[n])) {
        BlanksToRunEnd(t, n);
        WordsToEnd(t, n, RunEnd(t, n));
      } else {
        WordBreakMeaning(t, n - 1);
        WordsWithin(t, n, WordBreak(t, n - 1));
        hide WholeWords;
      }
    }
  }

  lemma {:induction false} WordsToEnd(t: string, n: nat, e: nat)
    requires WordEnd(t, n) && BlanksTo(t, n, e)
    ensures WholeWords(t, n, e)
  {
    hide BlanksTo;
  }

  lemma {:induction false} WordsWithin(t: string, n: nat, e: nat)
    requires n > 0 && !WordEnd(t, n) && WholeWords(t, n - 1, e)
    ensures WholeWords(t, n, e)
  {
    hide BlanksTo, WordEnd;
  }

  lemma {:induction false} WordLenMeaning(t: string, n: nat)
    ensures var k := WordLen(t, n);
      (forall i :: 0 <= i < k ==> !IsSpace(t[i])) && (k == n || k == |t| || IsSpace(t[k]))
  {
    if n > 0 && t != "" && !IsSpace(t[0]) { WordLenMeaning(t[1..], n - 1); }
  }

  lemma {:induction false} ChunkBreakMeaning(t: string, n: nat)
    ensures RestOfWord(t, n, ChunkBreak(t, n))
  {
    WordLenMeaning(t, n);
    BlanksToRunEnd(t, WordLen(t, n));
  }

  lemma {:induction false} GapIs(t: string, k: nat)
    ensures Gap(t, k) <==> 1 <= k < |t| && IsSpace(t[k]) && RunEnd(t, k) < |t|
  {
    if k < |t| { RunEndMeaning(t, k); }
  }

  lemma {:induction false} WrapBreakGaps(t: string, n: nat)
    ensures var e := WrapBreak(t, n);
      if forall k :: 1 <= k <= n ==> !Gap(t, k) then e == 0
      else exists k: nat :: Gap(t, k) && k <= n && BlanksTo(t, k, e) && forall i :: k < i <= n ==> !Gap(t, i)
  {
    if n > 0 {
      GapIs(t, n);
      if n < |t| && IsSpace(t[n]) && RunEnd(t, n) < |t| {
        BlanksToRunEnd(t, n);
      } else {
        WrapBreakGaps(t, n - 1);
      }
    }
  }

  lemma {:induction false} CutPointMeaning(t: string, cols: nat)
    requires cols >= 2
    ensures CutsAt(t, cols, CutPoint(t, cols))
  {
    WrapBreakGaps(t, cols - 1);
  }

  // ---------- wrap_line: the row it is called on ----------

  /** A row that fits is left alone if it ends in a blank, is the last one, or ends a paragraph. Any other is cut behind
      its last gap, if it has one ahead of the last column, and else where it is full; `ret` is how much it lost, and it
      is marked if there was no gap. */
  ghost predicate CutFirst(d: seq<Row>, cols: nat, rows: seq<Row>, ret: int)
    requires d != []
  {
    && |rows| >= |d|
    && var t := d[0].text;
       if StripLen(t) < cols && (StripLen(t) < |t| || |d| == 1 || d[0].hardcr) then rows == d && ret == -1
       else
         var e := |rows[0].text|;
         && CutsAt(t, cols, e) && e <= |t| && rows[0].text == t[..e] && rows[0].attr == d[0].attr[..e] && ret == |t| - e
         && (rows[0].kludged <==> d[0].kludged || forall k :: 1 <= k < cols ==> !Gap(t, k))
         && (rows[0].hardcr <==> d[0].hardcr && |d| == 1)
  }

  lemma {:induction false} WrapFirstRow(d: seq<Row>, cols: nat)
    requires cols >= 2 && d != [] && Wrap(d, cols).ok
    ensures CutFirst(d, cols, Wrap(d, cols).rows, WrapReturn(d, cols))
  {
    hide *;
    RowFits(d, cols);
    if Fits(d, cols) {
      NothingCut(d, cols);
    } else {
      WrapBoundsWidth(d, cols);
      FirstOfWrapped(d, cols);
      HeadMeaning(d, cols);
      CutAsFound(d, cols, Wrap(d, cols).rows, WrapReturn(d, cols));
    }
  }

  lemma {:induction false} RowFits(d: seq<Row>, cols: nat)
    requires d != []
    ensures Fits(d, cols)
       <==> StripLen(d[0].text) < cols && (StripLen(d[0].text) < |d[0].text| || |d| == 1 || d[0].hardcr)
  {
  }

  lemma {:induction false} NothingCut(d: seq<Row>, cols: nat)
    requires cols >= 2 && d != [] && Fits(d, cols)
    ensures CutFirst(d, cols, Wrap(d, cols).rows, WrapReturn(d, cols))
  {
  }

  lemma {:induction false} HeadMeaning(d: seq<Row>, cols: nat)
    requires cols >= 2 && d != []
    ensures var t, k, h := d[0].text, CutPoint(d[0].text, cols), CutHead(d, cols);
      && CutsAt(t, cols, k) && h.text == t[..k] && h.attr == d[0].attr[..k]
      && (h.kludged <==> d[0].kludged || forall i :: 1 <= i < cols ==> !Gap(t, i))
      && (h.hardcr <==> d[0].hardcr && |d| == 1)
  {
    CutPointMeaning(d[0].text, cols);
    WrapBreakGaps(d[0].text, cols - 1);
    hide RunEnd, CutPoint, WrapBreak, CutsAt, Gap;
  }

  lemma {:induction false} CutAsFound(d: seq<Row>, cols: nat, rows: seq<Row>, ret: int)
    requires cols >= 2 && d != [] && |rows| >= |d|
    requires !(StripLen(d[0].text) < cols && (StripLen(d[0].text) < |d[0].text| || |d| == 1 || d[0].hardcr))
    requires var t, h, k := d[0].text, rows[0], |d[0].text| - ret;
      && 0 <= k <= |t| && CutsAt(t, cols, k) && h.text == t[..k] && h.attr == d[0].attr[..k]
      && (h.kludged <==> d[0].kludged || forall i :: 1 <= i < cols ==> !Gap(t, i))
      && (h.hardcr <==> d[0].hardcr && |d| == 1)
    ensures CutFirst(d, cols, rows, ret)
  {
    hide CutsAt, Gap;
  }

  lemma {:induction false} FirstOfWrapped(d: seq<Row>, cols: nat)
    requires cols >= 2 && d != [] && Wrap(d, cols).ok && !Fits(d, cols)
    ensures Wrap(d, cols).rows != [] && Wrap(d, cols).rows[0] == CutHead(d, cols)
    ensures WrapReturn(d, cols) == |d[0].text| - CutPoint(d[0].text, cols)
  {
    hide CutHead, CutPoint;
  }

  // ---------- wrap_line: the marks of cut words ----------

  ghost predicate Unmarked(d: seq<Row>) {
    forall i :: 0 <= i < |d| ==> !d[i].kludged
  }

  /** A row that was cut where it was full has no gap. */
  lemma {:induction false} MarkedHasNoGap(t: string, cols: nat, k: nat)
    requires cols >= 2 && forall i :: 1 <= i < cols ==> !Gap(t, i)
    ensures !Gap(t[..CutPoint(t, cols)], k)
  {
    WrapBreakGaps(t, cols - 1);
    var u := t[..CutPoint(t, cols)];
    if Gap(u, k) {
      var i :| k < i < |u| && !IsSpace(u[i]);
      assert t[i] == u[i] && t[k] == u[k];
      assert Gap(t, k);
    }
  }

  lemma {:induction false} TailUnmarked(d: seq<Row>, cols: nat)
    requires d != [] && cols >= 2 && Unmarked(d)
    ensures Unmarked(CutTail(d, cols))
  {
    hide CutPoint;
  }

  lemma {:induction false} HeadMarked(d: seq<Row>, cols: nat, k: nat)
    requires d != [] && cols >= 2 && Unmarked(d) && CutHead(d, cols).kludged
    ensures !Gap(CutHead(d, cols).text, k)
  {
    WrapBreakGaps(d[0].text, cols - 1);
    MarkedHasNoGap(d[0].text, cols, k);
    hide CutPoint, WrapBreak, Gap;
  }

  /** Wrapping marks no row but those that it cut, and of these just such as have no gap to be cut at. */
  lemma {:induction false} NewMarks(d: seq<Row>, cols: nat, i: nat, k: nat)
    requires cols >= 2 && d != [] && Unmarked(d) && Wrap(d, cols).ok
    requires i < |Wrap(d, cols).rows| && Wrap(d, cols).rows[i].kludged
    ensures i < Wrap(d, cols).stop && !Gap(Wrap(d, cols).rows[i].text, k)
    decreases Chars(d)
  {
    hide *;
    if Fits(d, cols) {
      WrapOfFitting(d, cols, i);
    } else {
      WrapRound(d, cols);
      TailUnmarked(d, cols);
      if i == 0 { HeadMarked(d, cols, k); } else { NewMarks(CutTail(d, cols), cols, i - 1, k); }
    }
  }

  lemma {:induction false} WrapOfFitting(d: seq<Row>, cols: nat, i: nat)
    requires cols >= 2 && d != [] && Fits(d, cols) && Unmarked(d) && i < |Wrap(d, cols).rows|
    ensures !Wrap(d, cols).rows[i].kludged
  {
  }

  lemma {:induction false} WrapRound(d: seq<Row>, cols: nat)
    requires cols >= 2 && d != [] && !Fits(d, cols) && Wrap(d, cols).ok
    ensures var r := Wrap(CutTail(d, cols), cols);
      && r.ok && Wrap(d, cols) == WrapResult([CutHead(d, cols)] + r.rows, r.stop + 1, true)
      && Chars(CutTail(d, cols)) < Chars(d)
  {
    hide CutHead, Fits;
  }

  // ---------- unwrap_line: the row it is called on ----------

  /** A row that was cut inside a word first gets the rest of that word; then a row gets as many whole words of the row
      below as there is room for, and nothing else. */
  ghost predicate FilledFrom(d: seq<Row>, cols: nat, t: string)
    requires |d| >= 2
  {
    exists k: nat, e: nat :: FilledBy(d, cols, t, k, e)
  }

  ghost predicate FilledBy(d: seq<Row>, cols: nat, t: string, k: nat, e: nat)
    requires |d| >= 2
  {
    var a, b := d[0].text, d[1].text;
    && k <= |b| && (if d[0].kludged then RestOfWord(b, cols - 1 - |a|, k) else k == 0)
    && (k == |b| > 0 ==> |d| > 2)
    && var c := if k == |b| > 0 then d[2].text else b[k..];
       WholeWords(c, cols - 1 - |a| - k, e) && e <= |c| && t == a + b[..k] + c[..e]
  }

  lemma {:induction false} AfterChunkTexts(d: seq<Row>, cols: nat)
    requires !UnwrapStops(d, cols)
    ensures var d1, k := AfterChunk(d, cols), ChunkTaken(d, cols);
      && d1[0].text == d[0].text + d[1].text[..k]
      && (k == |d[1].text| > 0 ==> d1[1..] == d[2..])
      && (!(k == |d[1].text| > 0) ==> |d1| == |d| && d1[1].text == d[1].text[k..] && d1[2..] == d[2..])
  {
    NothingTaken(d);
    hide ChunkTaken, UnwrapStops;
  }

  lemma {:induction false} NothingTaken(d: seq<Row>)
    requires |d| >= 2
    ensures var b := d[1].text; d[0].text + b[..0] == d[0].text && b[0..] == b && d[1..][1..] == d[2..]
  {
  }

  /** The first row stays as it is when nothing is below it, it ends a paragraph, or it is full; otherwise it is filled.
      `ret` is how much it has grown, or -1. */
  ghost predicate FillsFirst(d: seq<Row>, cols: nat, rows: seq<Row>, ret: int)
    requires d != []
  {
    && rows != []
    && (if |d| < 2 || d[0].hardcr || |d[0].text| >= cols - 1 then rows == d else FilledFrom(d, cols, rows[0].text))
    && var g := |rows[0].text| - |d[0].text|; ret == if g > 0 then g else -1
  }

  lemma {:induction false} UnwrapFirstRow(d: seq<Row>, cols: nat)
    requires d != [] && !Unwrap(d, cols).crashed
    ensures FillsFirst(d, cols, Unwrap(d, cols).rows, UnwrapReturn(d, cols))
  {
    UnwrapReturnsGrowth(d, cols);
    StopsIf(d, cols);
    if UnwrapStops(d, cols) { NoRounds(d, cols); } else { FirstRowFilled(d, cols); }
    hide FilledFrom, Unwrap, UnwrapReturn, UnwrapStops;
  }

  lemma {:induction false} FirstRowFilled(d: seq<Row>, cols: nat)
    requires !UnwrapStops(d, cols) && !Unwrap(d, cols).crashed
    ensures var r := Unwrap(d, cols); r.rows != [] && FilledFrom(d, cols, r.rows[0].text)
  {
    hide *;
    StopsIf(d, cols);
    MoreBelow(d, cols);
    var d1, k := AfterChunk(d, cols), ChunkTaken(d, cols);
    AfterChunkTexts(d, cols);
    ChunkIsRest(d, cols);
    WordsAreWhole(d1, cols);
    FirstOfUnwrapped(d, cols);
    FilledAs(d, cols, d1, Unwrap(d, cols).rows[0].text, k, WordsTaken(d1, cols));
  }

  lemma {:induction false} StopsIf(d: seq<Row>, cols: nat)
    ensures UnwrapStops(d, cols) <==> |d| < 2 || d[0].hardcr || |d[0].text| >= cols - 1
  {
  }

  lemma {:induction false} NoRounds(d: seq<Row>, cols: nat)
    requires UnwrapStops(d, cols)
    ensures Unwrap(d, cols) == UnwrapResult(d, 0, false)
  {
  }

  lemma {:induction false} MoreBelow(d: seq<Row>, cols: nat)
    requires !UnwrapStops(d, cols) && !Unwrap(d, cols).crashed
    ensures |AfterChunk(d, cols)| > 1
  {
    hide AfterWords;
  }

  lemma {:induction false} ChunkIsRest(d: seq<Row>, cols: nat)
    requires !UnwrapStops(d, cols)
    ensures if d[0].kludged then RestOfWord(d[1].text, cols - 1 - |d[0].text|, ChunkTaken(d, cols))
            else ChunkTaken(d, cols) == 0
  {
    ChunkBreakMeaning(d[1].text, cols - 1 - |d[0].text|);
    hide ChunkBreak, RestOfWord;
  }

  lemma {:induction false} WordsAreWhole(d: seq<Row>, cols: nat)
    requires |d| >= 2
    ensures WholeWords(d[1].text, cols - 1 - |d[0].text|, WordsTaken(d, cols))
  {
    if Space(d, cols) >= 1 {
      WordBreakMeaning(d[1].text, Space(d, cols));
      hide WordBreak, WholeWords;
    }
  }

  lemma {:induction false} FilledAs(d: seq<Row>, cols: nat, d1: seq<Row>, t: string, k: nat, e: nat)
    requires |d| >= 2 && |d1| > 1 && k <= |d[1].text| && e <= |d1[1].text|
    requires if d[0].kludged then RestOfWord(d[1].text, cols - 1 - |d[0].text|, k) else k == 0
    requires d1[0].text == d[0].text + d[1].text[..k] && t == d1[0].text + d1[1].text[..e]
    requires if k == |d[1].text| > 0 then d1[1..] == d[2..] else d1[1].text == d[1].text[k..]
    requires WholeWords(d1[1].text, cols - 1 - |d1[0].text|, e)
    ensures FilledFrom(d, cols, t)
  {
    if k == |d[1].text| > 0 { assert d1[1] == d1[1..][0] == d[2]; }
    hide WholeWords, RestOfWord;
    assert FilledBy(d, cols, t, k, e);
  }

  lemma {:induction false} FirstOfUnwrapped(d: seq<Row>, cols: nat)
    requires !UnwrapStops(d, cols) && |AfterChunk(d, cols)| > 1
    ensures var d1, r := AfterChunk(d, cols), Unwrap(d, cols);
      && r.rows != [] && r.rows[0] == AfterWords(d1, cols)[0]
      && r.rows[0].text == d1[0].text + d1[1].text[..WordsTaken(d1, cols)]
  {
    hide AfterChunk, WordsTaken;
  }

  /** What `unwrap_line` returns is how much the row that it is called on has grown, or -1. */
  lemma {:induction false} UnwrapReturnsGrowth(d: seq<Row>, cols: nat)
    requires d != [] && !Unwrap(d, cols).crashed
    ensures var r := Unwrap(d, cols);
      r.rows != [] && var g := |r.rows[0].text| - |d[0].text|; UnwrapReturn(d, cols) == if g > 0 then g else -1
  {
    if !UnwrapStops(d, cols) {
      FirstOfUnwrapped(d, cols);
      hide AfterChunk, ChunkTaken, AfterWords, WordsTaken;
    }
  }

  // ---------- unwrap_line: all the rows that it filled ----------

  /** The next word below, or what there is of it, would fit behind a. */
  ghost predicate RoomFor(a: string, b: string, cols: nat) {
    exists k :: WordEnd(b, k) && |a| + k < cols
  }

  /** No row down to the one the loop stopped on has room for the next word of its paragraph. */
  ghost predicate NoRoomLeft(rows: seq<Row>, stop: nat, cols: nat) {
    forall i :: 0 <= i < stop && i + 1 < |rows| && !rows[i].hardcr ==> !RoomFor(rows[i].text, rows[i + 1].text, cols)
  }

  /** What the loop makes of the text of the first row. */
  function FirstFilled(d: seq<Row>, cols: nat): string
    requires d != []
  {
    if UnwrapStops(d, cols) then d[0].text
    else
      var d1 := AfterChunk(d, cols);
      if |d1| == 1 then d1[0].text else AfterWords(d1, cols)[0].text
  }

  /** This round took all of the row below, or dropped it because it was empty; and the next word would still fit. */
  ghost predicate LeavesRoom(d1: seq<Row>, cols: nat)
    requires |d1| >= 2
  {
    var d2 := AfterWords(d1, cols);
    && |d2| < |d1| && |d2| > 1 && !d2[0].hardcr
    && RoomFor(d2[0].text, if WordsTaken(d1, cols) == 0 then d2[1].text else FirstFilled(d2[1..], cols), cols)
  }

  /** No round uses up the row below and leaves room for the next word of the paragraph. */
  ghost predicate FillsRows(d: seq<Row>, cols: nat)
    decreases |d|
  {
    UnwrapStops(d, cols) ||
    var d1 := AfterChunk(d, cols);
    |d1| == 1 ||
    (!LeavesRoom(d1, cols) && (WordsTaken(d1, cols) == 0 || FillsRows(AfterWords(d1, cols)[1..], cols)))
  }

  /** Behind as many whole words as fit there is no room for one more. */
  lemma {:induction false} NoRoomBehind(b: string, n: int, e: nat, k: nat)
    requires WholeWords(b, n, e) && e <= |b| && WordEnd(b[e..], k)
    ensures e + k > n
  {
    assert WordEnd(b, e + k) by {
      if k < |b[e..]| { assert b[e..][k] == b[e + k]; }
    }
  }

  /** Nor is there when the row below grows. */
  lemma {:induction false} NoRoomForMore(a: string, b: string, more: string, cols: nat)
    requires b != "" && !RoomFor(a, b, cols)
    ensures !RoomFor(a, b + more, cols)
  {
    forall k: nat | WordEnd(b + more, k) ensures |a| + k >= cols {
      if k < |b| { assert WordEnd(b, k); } else { assert WordEnd(b, |b|); }
    }
  }

  lemma {:induction false} FirstFilledGrows(d: seq<Row>, cols: nat)
    requires d != []
    ensures d[0].text <= FirstFilled(d, cols)
  {
    if !UnwrapStops(d, cols) {
      AfterChunkTexts(d, cols);
      var d1, k := AfterChunk(d, cols), ChunkTaken(d, cols);
      if |d1| > 1 { AfterWordsText(d1, cols); }
      hide AfterChunk, ChunkTaken, AfterWords, WordsTaken, UnwrapStops;
      assert d[0].text <= d1[0].text;
    }
  }

  lemma {:induction false} AfterWordsText(d: seq<Row>, cols: nat)
    requires |d| >= 2
    ensures AfterWords(d, cols)[0].text == d[0].text + d[1].text[..WordsTaken(d, cols)]
    ensures d[0].text <= AfterWords(d, cols)[0].text
  {
    hide WordsTaken;
  }

  lemma {:induction false} FirstIsFilled(d: seq<Row>, cols: nat)
    requires d != []
    ensures Unwrap(d, cols).rows != [] && Unwrap(d, cols).rows[0].text == FirstFilled(d, cols)
  {
    if !UnwrapStops(d, cols) && |AfterChunk(d, cols)| > 1 {
      FirstOfUnwrapped(d, cols);
    }
  }

  /** A round that left something of the row below left no room. */
  lemma {:induction false} RowIsFull(d1: seq<Row>, cols: nat)
    requires |d1| >= 2
    ensures var d2 := AfterWords(d1, cols); |d2| == |d1| ==> !RoomFor(d2[0].text, d2[1].text, cols) && d2[1].text != ""
  {
    var w, b := WordsTaken(d1, cols), d1[1].text;
    WordsAreWhole(d1, cols);
    forall k: nat | WordEnd(b[w..], k) ensures |d1[0].text| + w + k >= cols {
      NoRoomBehind(b, cols - 1 - |d1[0].text|, w, k);
    }
    hide WordsTaken, WholeWords;
  }

  lemma {:induction false} NothingUnwrapped(cols: nat)
    ensures Unwrap([], cols).rows == []
  {
  }

  /** The first row of the rest of a run. */
  lemma {:induction false} NoRoomBelow(d2: seq<Row>, cols: nat)
    requires d2 != []
    ensures var r := Unwrap(d2[1..], cols);
      NoRoomLeft([d2[0]] + r.rows, r.stop + 1, cols)
      <==> NoRoomLeft(r.rows, r.stop, cols)
           && (|d2| > 1 && !d2[0].hardcr ==> !RoomFor(d2[0].text, FirstFilled(d2[1..], cols), cols))
  {
    hide *;
    var r := Unwrap(d2[1..], cols);
    NothingUnwrapped(cols);
    if |d2| > 1 { FirstIsFilled(d2[1..], cols); } else { assert d2[1..] == []; }
    NoRoomCons(d2[0], r.rows, r.stop, cols);
  }

  lemma {:induction false} NoRoomCons(a: Row, rows: seq<Row>, stop: nat, cols: nat)
    ensures NoRoomLeft([a] + rows, stop + 1, cols)
       <==> NoRoomLeft(rows, stop, cols)
            && (rows != [] && !a.hardcr ==> !RoomFor(a.text, rows[0].text, cols))
  {
    hide RoomFor;
    var all := [a] + rows;
    if NoRoomLeft(all, stop + 1, cols) {
      forall i | 0 <= i < stop && i + 1 < |rows| && !rows[i].hardcr
        ensures !RoomFor(rows[i].text, rows[i + 1].text, cols)
      {
        assert all[i + 1] == rows[i] && all[i + 1 + 1] == rows[i + 1];
      }
      if rows != [] { assert all[0] == a && all[0 + 1] == rows[0]; }
    }
    if NoRoomLeft(rows, stop, cols) && (rows != [] && !a.hardcr ==> !RoomFor(a.text, rows[0].text, cols)) {
      forall i | 0 <= i < stop + 1 && i + 1 < |all| && !all[i].hardcr
        ensures !RoomFor(all[i].text, all[i + 1].text, cols)
      {
        if i > 0 { assert all[i] == rows[i - 1] && all[i + 1] == rows[i - 1 + 1]; }
      }
    }
  }

  lemma {:induction false} NoRoomHere(d1: seq<Row>, cols: nat)
    requires |d1| >= 2 && WordsTaken(d1, cols) > 0
    ensures var d2 := AfterWords(d1, cols);
      LeavesRoom(d1, cols)
      <==> |d2| > 1 && !d2[0].hardcr && RoomFor(d2[0].text, FirstFilled(d2[1..], cols), cols)
  {
    var d2 := AfterWords(d1, cols);
    RowIsFull(d1, cols);
    if |d2| == |d1| {
      FirstFilledGrows(d2[1..], cols);
      var below, all := d2[1].text, FirstFilled(d2[1..], cols);
      assert d2[1..][0] == d2[1];
      NoRoomForMore(d2[0].text, below, all[|below|..], cols);
      assert all == below + all[|below|..];
    }
    hide RoomFor, FirstFilled, AfterWords, WordsTaken;
  }

  lemma {:induction false} NoRoomAtEnd(d1: seq<Row>, cols: nat)
    requires |d1| >= 2 && WordsTaken(d1, cols) == 0
    ensures NoRoomLeft(AfterWords(d1, cols), 1, cols) <==> !LeavesRoom(d1, cols)
  {
    RowIsFull(d1, cols);
    hide AfterWords, WordsTaken, RoomFor;
  }

  lemma {:induction false} LastRound(d: seq<Row>, cols: nat, d1: seq<Row>)
    requires !UnwrapStops(d, cols) && d1 == AfterChunk(d, cols)
    ensures |d1| == 1 ==> Unwrap(d, cols) == UnwrapResult(d1, 0, true)
    ensures |d1| > 1 && WordsTaken(d1, cols) == 0 ==>
      Unwrap(d, cols) == UnwrapResult(AfterWords(d1, cols), 1, false)
  {
    hide AfterChunk, AfterWords, WordsTaken;
  }

  lemma {:induction false} FillsRowsRound(d: seq<Row>, cols: nat, d1: seq<Row>)
    requires !UnwrapStops(d, cols) && d1 == AfterChunk(d, cols)
    ensures FillsRows(d, cols)
       <==> |d1| == 1
            || (!LeavesRoom(d1, cols) && (WordsTaken(d1, cols) == 0 || FillsRows(AfterWords(d1, cols)[1..], cols)))
  {
    hide AfterChunk, AfterWords, WordsTaken, LeavesRoom;
  }

  /** The rounds after one that took words. */
  lemma {:induction false} NoRoomGoesOn(d: seq<Row>, cols: nat, d1: seq<Row>, d2: seq<Row>)
    requires !UnwrapStops(d, cols) && d1 == AfterChunk(d, cols) && |d1| > 1
    requires d2 == AfterWords(d1, cols) && WordsTaken(d1, cols) > 0
    requires var r := Unwrap(d2[1..], cols); NoRoomLeft(r.rows, r.stop, cols) <==> FillsRows(d2[1..], cols)
    ensures var r := Unwrap(d, cols); NoRoomLeft(r.rows, r.stop, cols) <==> FillsRows(d, cols)
  {
    hide *;
    FillsRowsRound(d, cols, d1);
    NoRoomHere(d1, cols);
    NoRoomBelow(d2, cols);
    UnwrapRound(d, cols, d1, d2);
  }

  lemma {:induction false} NothingFilled(d: seq<Row>, cols: nat)
    requires UnwrapStops(d, cols)
    ensures FillsRows(d, cols)
  {
  }

  /** `unwrap_line` leaves no row with room for the next word of its paragraph exactly when no round uses up the row
      below and leaves such room. */
  lemma {:induction false} NoRoomUnless(d: seq<Row>, cols: nat)
    ensures var r := Unwrap(d, cols); NoRoomLeft(r.rows, r.stop, cols) <==> FillsRows(d, cols)
    decreases |d|
  {
    hide Unwrap, FillsRows, AfterChunk, AfterWords, WordsTaken, LeavesRoom, RoomFor, FirstFilled, UnwrapStops;
    if UnwrapStops(d, cols) {
      NoRounds(d, cols);
      NothingFilled(d, cols);
    } else {
      StopsIf(d, cols);
      var d1 := AfterChunk(d, cols);
      LastRound(d, cols, d1);
      FillsRowsRound(d, cols, d1);
      if |d1| > 1 {
        if WordsTaken(d1, cols) == 0 {
          NoRoomAtEnd(d1, cols);
        } else {
          NoRoomUnless(AfterWords(d1, cols)[1..], cols);
          NoRoomGoesOn(d, cols, d1, AfterWords(d1, cols));
        }
      }
    }
  }

  // ---------- unwrap_line: where the rows end that have room left ----------

  ghost function Text(d: seq<Row>): string {
    if d == [] then "" else d[0].text + Text(d[1..])
  }

  lemma {:induction false} TextCons(r: Row, d: seq<Row>)
    ensures Text([r] + d) == r.text + Text(d)
  {
    assert ([r] + d)[1..] == d;
  }

  /** The first i of the rows hold the text of more than i rows of d. */
  ghost predicate EndsARow(d: seq<Row>, rows: seq<Row>, i: nat)
    requires i <= |rows|
  {
    exists j :: i < j <= |d| && Text(rows[..i]) == Text(d[..j])
  }

  /** From row m on, the rows of d1 end where those of d end. */
  ghost predicate SameEnds(d: seq<Row>, d1: seq<Row>, from: nat) {
    && |d1| <= |d|
    && forall m {:trigger d1[..m]} :: from <= m <= |d1| ==> Text(d1[..m]) == Text(d[..m + (|d| - |d1|)])
  }

  lemma {:induction false} EndsAfterTwo(d: seq<Row>, d1: seq<Row>, d2: seq<Row>, from: nat)
    requires SameEnds(d, d1, 2) && SameEnds(d1, d2, from) && from + (|d1| - |d2|) >= 2
    ensures SameEnds(d, d2, from) && from + (|d| - |d2|) >= 2
  {
    forall m | from <= m <= |d2| ensures Text(d2[..m]) == Text(d[..m + (|d| - |d2|)]) {
      assert Text(d2[..m]) == Text(d1[..m + (|d1| - |d2|)]);
    }
  }

  lemma {:induction false} PullEnds(a: Row, b: Row, k: nat, rest: seq<Row>, q: Row)
    requires k <= |b.text| && q.text == Pull(a, b, k)[0].text
    ensures var p := Pull(a, b, k); SameEnds([a, b] + rest, [q] + p[1..] + rest, |p|)
  {
    var d, p := [a, b] + rest, Pull(a, b, k);
    var d1 := [q] + p[1..] + rest;
    forall m | |p| <= m <= |d1| ensures Text(d1[..m]) == Text(d[..m + (|d| - |d1|)]) {
      var rows := rest[..m - |p|];
      assert d[..m + (|d| - |d1|)] == [a] + ([b] + rows);
      TextCons(a, [b] + rows);
      TextCons(b, rows);
      TextOfPull(a, b, k, rows, q);
      assert d1[..m] == [q] + p[1..] + rows;
    }
  }

  lemma {:induction false} TextOfPull(a: Row, b: Row, k: nat, rows: seq<Row>, q: Row)
    requires k <= |b.text| && q.text == Pull(a, b, k)[0].text
    ensures Text([q] + Pull(a, b, k)[1..] + rows) == a.text + (b.text + Text(rows))
  {
    var p := Pull(a, b, k);
    PullTexts(a, b, k);
    hide Pull, Text;
    SecondPart(q, p, rows);
    TextCons(q, p[1..] + rows);
    if |p| == 1 {
      TwoTexts(a.text, b.text, Text(rows));
    } else {
      TextCons(p[1], rows);
      ThreeTexts(q.text, p[1].text, Text(rows), a.text, b.text);
    }
  }

  lemma {:induction false} PullTexts(a: Row, b: Row, k: nat)
    requires k <= |b.text|
    ensures var p := Pull(a, b, k);
      |p| in {1, 2} && a.text + b.text == if |p| == 1 then p[0].text else p[0].text + p[1].text
  {
    assert b.text[..k] + b.text[k..] == b.text && b.text[..|b.text|] == b.text;
    assert a.text + b.text[..k] + b.text[k..] == a.text + (b.text[..k] + b.text[k..]);
  }

  lemma {:induction false} SecondPart(q: Row, p: seq<Row>, rows: seq<Row>)
    requires |p| in {1, 2}
    ensures [q] + p[1..] + rows == [q] + (p[1..] + rows)
    ensures p[1..] + rows == if |p| == 1 then rows else [p[1]] + rows
  {
  }

  lemma {:induction false} TwoTexts(a: string, b: string, c: string)
    ensures a + b + c == a + (b + c)
  {
  }

  lemma {:induction false} ThreeTexts(q: string, p: string, c: string, a: string, b: string)
    requires q + p == a + b
    ensures q + (p + c) == a + (b + c)
  {
    assert q + p + c == q + (p + c) && a + b + c == a + (b + c);
  }

  lemma {:induction false} WordsEnds(d1: seq<Row>, cols: nat)
    requires |d1| >= 2
    ensures var d2 := AfterWords(d1, cols); SameEnds(d1, d2, if |d2| < |d1| then 1 else 2)
  {
    var w := WordsTaken(d1, cols);
    var a: Row := if w > 0 then d1[0] else d1[0].(kludged := false);
    hide WordsTaken, SameEnds, Text;
    PullEnds(d1[0], d1[1], w, d1[2..], Pull(a, d1[1], w)[0]);
    TwoAndMore(d1);
    PulledSame(d1[0], a, d1[1], w, d1[2..]);
  }

  lemma {:induction false} TwoAndMore(d: seq<Row>)
    requires |d| >= 2
    ensures d == [d[0], d[1]] + d[2..] && [d[0]] + d[1..] == d
  {
  }

  lemma {:induction false} PulledSame(a: Row, q: Row, b: Row, k: nat, rest: seq<Row>)
    requires k <= |b.text| && q == a.(kludged := q.kludged)
    ensures Pull(q, b, k) + rest == [Pull(q, b, k)[0]] + Pull(a, b, k)[1..] + rest
    ensures Pull(q, b, k)[0].text == Pull(a, b, k)[0].text && |Pull(q, b, k)| == |Pull(a, b, k)|
  {
  }

  lemma {:induction false} ChunkEnds(d: seq<Row>, cols: nat)
    requires |d| >= 2
    ensures SameEnds(d, AfterChunk(d, cols), 2)
  {
    var k := ChunkTaken(d, cols);
    TwoAndMore(d);
    if !d[0].kludged {
    } else if k == 0 {
      forall m | 2 <= m <= |d| ensures Text(AfterChunk(d, cols)[..m]) == Text(d[..m]) {
        assert AfterChunk(d, cols)[..m] == [AfterChunk(d, cols)[0]] + d[1..][..m - 1];
        assert d[..m] == [d[0]] + d[1..][..m - 1];
        TextCons(AfterChunk(d, cols)[0], d[1..][..m - 1]);
        TextCons(d[0], d[1..][..m - 1]);
      }
    } else {
      PullEnds(d[0], d[1], k, d[2..], AfterChunk(d, cols)[0]);
      hide Text;
    }
  }

  /** A row has no room for the next word of its paragraph, or it ends where a row ended before. */
  ghost predicate FullOrRowEnd(d: seq<Row>, rows: seq<Row>, i: nat, cols: nat)
    requires i < |rows|
  {
    i + 1 < |rows| && !rows[i].hardcr && RoomFor(rows[i].text, rows[i + 1].text, cols) ==> EndsARow(d, rows, i + 1)
  }

  lemma {:induction false} FullHere(d: seq<Row>, d2: seq<Row>, rows: seq<Row>, from: nat, cols: nat)
    requires SameEnds(d, d2, from) && d2 != [] && rows != [] && rows[0] == d2[0]
    requires from + (|d| - |d2|) >= 2
    requires from > 1 && |rows| > 1 ==> rows[0].hardcr || !RoomFor(rows[0].text, rows[1].text, cols)
    ensures FullOrRowEnd(d, rows, 0, cols)
  {
    if from <= 1 {
      assert rows[..1] == d2[..1];
      assert Text(rows[..1]) == Text(d[..1 + (|d| - |d2|)]);
    }
  }

  lemma {:induction false} FullBelow(d: seq<Row>, d2: seq<Row>, below: seq<Row>, i: nat, cols: nat)
    requires SameEnds(d, d2, 2) && d2 != [] && i < |below| && FullOrRowEnd(d2[1..], below, i, cols)
    ensures FullOrRowEnd(d, [d2[0]] + below, i + 1, cols)
  {
    hide RoomFor;
    var rows := [d2[0]] + below;
    if EndsARow(d2[1..], below, i + 1) {
      var j :| i + 1 < j <= |d2[1..]| && Text(below[..i + 1]) == Text(d2[1..][..j]);
      assert rows[..i + 2] == [d2[0]] + below[..i + 1] && d2[..j + 1] == [d2[0]] + d2[1..][..j];
      TextCons(d2[0], below[..i + 1]);
      TextCons(d2[0], d2[1..][..j]);
      assert Text(rows[..i + 2]) == Text(d[..j + 1 + (|d| - |d2|)]);
    }
  }

  lemma {:induction false} EndsLater(d: seq<Row>, d1: seq<Row>, from: nat)
    requires SameEnds(d, d1, from) && from <= 2
    ensures SameEnds(d, d1, 2)
  {
  }

  /** The last round of a run. */
  lemma {:induction false} FullAtEnd(d: seq<Row>, d1: seq<Row>, cols: nat)
    requires |d1| >= 2 && SameEnds(d, d1, 2)
    ensures FullOrRowEnd(d, AfterWords(d1, cols), 0, cols)
  {
    var d2 := AfterWords(d1, cols);
    RowIsFull(d1, cols);
    WordsEnds(d1, cols);
    var from := if |d2| < |d1| then 1 else 2;
    EndsAfterTwo(d, d1, d2, from);
    FullHere(d, d2, d2, from, cols);
  }

  /** The first row of a run that goes on behind it. */
  lemma {:induction false} FullFirst(d: seq<Row>, d1: seq<Row>, cols: nat)
    requires |d1| >= 2 && SameEnds(d, d1, 2) && WordsTaken(d1, cols) > 0
    ensures var d2 := AfterWords(d1, cols);
      SameEnds(d, d2, 2) && FullOrRowEnd(d, [d2[0]] + Unwrap(d2[1..], cols).rows, 0, cols)
  {
    hide Unwrap, AfterWords, WordsTaken, RoomFor, FirstFilled, SameEnds, FullOrRowEnd;
    var d2 := AfterWords(d1, cols);
    NoRoomHere(d1, cols);
    WordsEnds(d1, cols);
    var from := if |d2| < |d1| then 1 else 2;
    EndsAfterTwo(d, d1, d2, from);
    EndsLater(d, d2, from);
    var rows := Unwrap(d2[1..], cols).rows;
    if |d2| > 1 { FirstIsFilled(d2[1..], cols); }
    LeavesRoomIs(d1, cols);
    FullHere(d, d2, [d2[0]] + rows, from, cols);
  }

  lemma {:induction false} LeavesRoomIs(d1: seq<Row>, cols: nat)
    requires |d1| >= 2
    ensures LeavesRoom(d1, cols) ==> |AfterWords(d1, cols)| < |d1|
    ensures |AfterWords(d1, cols)| == |d1| ==> |AfterWords(d1, cols)| > 1
  {
    hide RoomFor, FirstFilled;
  }

  /** Of the rows that `unwrap_line` fills, each has no room for the next word of its paragraph, or ends where a row
      ended before. */
  lemma {:induction false} FilledRowsFull(d: seq<Row>, cols: nat, i: nat)
    requires i < Unwrap(d, cols).stop
    ensures i < |Unwrap(d, cols).rows| && FullOrRowEnd(d, Unwrap(d, cols).rows, i, cols)
    decreases |d|
  {
    hide Unwrap, AfterChunk, AfterWords, WordsTaken, UnwrapStops, SameEnds, FullOrRowEnd, FillsRows;
    if UnwrapStops(d, cols) {
      NoRounds(d, cols);
    } else {
      StopsIf(d, cols);
      var d1 := AfterChunk(d, cols);
      LastRound(d, cols, d1);
      ChunkEnds(d, cols);
      if |d1| > 1 {
        var d2 := AfterWords(d1, cols);
        if WordsTaken(d1, cols) == 0 {
          FullAtEnd(d, d1, cols);
        } else {
          UnwrapRound(d, cols, d1, d2);
          FullFirst(d, d1, cols);
          if i > 0 {
            FilledRowsFull(d2[1..], cols, i - 1);
            FullBelow(d, d2, Unwrap(d2[1..], cols).rows, i - 1, cols);
          }
        }
      }
    }
  }

  // ---------- unwrap_line: the mark of a cut word ----------

  /** When the first half of a round leaves the mark, the row is full. */
  lemma {:induction false} MarkedIsFull(d: seq<Row>, cols: nat)
    requires !UnwrapStops(d, cols) && AfterChunk(d, cols)[0].kludged
    ensures |AfterChunk(d, cols)[0].text| == cols - 1
  {
    var b, n := d[1].text, cols - 1 - |d[0].text|;
    var k := ChunkTaken(d, cols);
    WordLenMeaning(b, n);
    RunEndMeaning(b, WordLen(b, n));
  }

  lemma {:induction false} WordsMark(d1: seq<Row>, cols: nat)
    requires |d1| >= 2 && (d1[0].kludged ==> |d1[0].text| == cols - 1)
    ensures !AfterWords(d1, cols)[0].kludged
  {
  }

  /** A row that was filled is not marked as cut any more, even when the word that it ends with still is cut: the mark
      is lost, and no later call joins the two parts. */
  lemma {:induction false} MarksAreLost(d: seq<Row>, cols: nat)
    ensures var r := Unwrap(d, cols); r.stop <= |r.rows| && forall i :: 0 <= i < r.stop ==> !r.rows[i].kludged
    decreases |d|
  {
    if !UnwrapStops(d, cols) {
      var d1 := AfterChunk(d, cols);
      if d1[0].kludged { MarkedIsFull(d, cols); }
      hide Unwrap, AfterChunk, AfterWords, WordsTaken, UnwrapStops;
      LastRound(d, cols, d1);
      if |d1| > 1 {
        var d2 := AfterWords(d1, cols);
        WordsMark(d1, cols);
        if WordsTaken(d1, cols) > 0 {
          UnwrapRound(d, cols, d1, d2);
          MarksAreLost(d2[1..], cols);
        }
      }
    }
  }

  // ---------- Examples ----------

  lemma {:induction false} AllFits(t: string, n: nat)
    requires 0 < |t| <= n
    ensures WordBreak(t, n) == |t|
  {
    if n > |t| { AllFits(t, n - 1); }
  }

  /** As much comes up as has room, here all of a paragraph. */
  lemma {:induction false} FillExample()
    ensures var d := [Plain("aa ", false, false), Plain("bb cc dd", true, false)];
      Unwrap(d, 20).rows == [Plain("aa bb cc dd", true, false)] && UnwrapReturn(d, 20) == 8
  {
    var d := [Plain("aa ", false, false), Plain("bb cc dd", true, false)];
    AllFits(d[1].text, 16);
    assert d[1].text[..8] == d[1].text && "aa " + "bb cc dd" == "aa bb cc dd";
    assert d[0].attr + d[1].attr[..8] == Plain("aa bb cc dd", true, false).attr;
    assert AfterWords(d, 20) == [Plain("aa bb cc dd", true, false)];
  }

  /** The row below is used up, and the loop goes on below it: the next word would fit, but stays where it is. */
  lemma {:induction false} RoomLeftExample()
    ensures var d := [Plain("aa ", false, false), Plain("bb ", false, false), Plain("cc", true, false)];
      && Unwrap(d, 20).rows == [Plain("aa bb ", false, false), Plain("cc", true, false)] && UnwrapReturn(d, 20) == 3
      && !NoRoomLeft(Unwrap(d, 20).rows, Unwrap(d, 20).stop, 20)
  {
    var d := [Plain("aa ", false, false), Plain("bb ", false, false), Plain("cc", true, false)];
    AllFits(d[1].text, 16);
    var rows := [Plain("aa bb ", false, false), Plain("cc", true, false)];
    assert d[1].text[..3] == d[1].text && "aa " + "bb " == "aa bb ";
    assert d[0].attr + d[1].attr[..3] == rows[0].attr;
    assert AfterWords(d, 20) == rows;
    assert Unwrap(rows[1..], 20) == UnwrapResult(rows[1..], 0, false);
    assert [rows[0]] + rows[1..] == rows;
    assert WordEnd(rows[1].text, 2) && RoomFor(rows[0].text, rows[1].text, 20);
  }
}
