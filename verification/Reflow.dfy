/** Word wrapping of the editor's buffer, as functions on rows. */
module Reflow {
  import opened Characters
  import opened EditorText

  // ---------- The regular expressions ----------

  /** Length of the first group of `^(.{1,n}\s+)([^\s].*?)$`, or 0 when it does not match. */
  function WrapBreak(t: string, n: nat): (e: nat)
    ensures e < |t| || e == 0
  {
    if n == 0 then 0
    else if n < |t| && IsSpace(t[n]) && RunEnd(t, n) < |t| then RunEnd(t, n)
    else WrapBreak(t, n - 1)
  }

  /** Where a row of text is cut: after a word if that can be, else after `cols - 1` characters. */
  function CutPoint(t: string, cols: nat): (k: nat)
    requires cols >= 2
    ensures k <= |t| && (k == 0 <==> t == "")
  {
    var e := WrapBreak(t, cols - 1);
    if e > 0 then e else if |t| < cols then |t| else cols - 1
  }

  /** Length of the group of `^(.{1,n}(?![^\s])\s*)`, or 0 when it does not match. */
  function WordBreak(t: string, n: nat): (e: nat)
    ensures e <= |t|
  {
    if n == 0 then 0
    else if n == |t| || (n < |t| && IsSpace(t[n])) then RunEnd(t, n)
    else WordBreak(t, n - 1)
  }

  /** The number of leading non-blank characters, at most n. */
  function WordLen(t: string, n: nat): (m: nat)
    ensures m <= n && m <= |t|
  {
    if n == 0 || t == "" || IsSpace(t[0]) then 0 else 1 + WordLen(t[1..], n - 1)
  }

  /** Length of the group of `^([^\s]{1,n}\s*)`, or 0 when it does not match. */
  function ChunkBreak(t: string, n: nat): (e: nat)
    ensures e <= |t|
  {
    var m := WordLen(t, n);
    if m == 0 then 0 else RunEnd(t, m)
  }

  /** A greedy match ends after blanks that are followed by a word, and no later place up to n would do. */
  lemma {:induction false} WrapBreakMeaning(t: string, n: nat)
    ensures var e := WrapBreak(t, n);
      && (e > 0 ==> IsSpace(t[e - 1]) && !IsSpace(t[e]) && StripLen(t[..e]) <= n)
      && (forall k {:trigger RunEnd(t, k)} :: 1 <= k <= n && k < |t| && IsSpace(t[k]) && RunEnd(t, k) < |t| ==>
            RunEnd(t, k) <= e)
  {
    if n > 0 {
      if n < |t| && IsSpace(t[n]) && RunEnd(t, n) < |t| {
        RunEndMeaning(t, n);
        StripLenToRunEnd(t, n);
        forall k | 1 <= k <= n ensures RunEnd(t, k) <= RunEnd(t, n) { RunEndMonotone(t, k, n); }
      } else {
        WrapBreakMeaning(t, n - 1);
      }
    }
  }

  lemma {:induction false} RunEndMonotone(t: string, i: nat, j: nat)
    requires i <= j <= |t|
    ensures RunEnd(t, i) <= RunEnd(t, j)
    decreases |t| - i
  {
    if i < j && IsSpace(t[i]) { RunEndMonotone(t, i + 1, j); }
  }

  lemma {:induction false} CutFits(t: string, cols: nat)
    requires cols >= 2
    ensures StripLen(t[..CutPoint(t, cols)]) <= cols - 1
    ensures StripLen(t) >= cols ==> CutPoint(t, cols) < |t|
  {
    WrapBreakMeaning(t, cols - 1);
  }

  lemma {:induction false} WordBreakFits(t: string, n: nat)
    ensures StripLen(t[..WordBreak(t, n)]) <= n
  {
    if n > 0 {
      if n == |t| || (n < |t| && IsSpace(t[n])) { StripLenToRunEnd(t, n); } else { WordBreakFits(t, n - 1); }
    }
  }

  lemma {:induction false} ChunkBreakFits(t: string, n: nat)
    ensures StripLen(t[..ChunkBreak(t, n)]) <= n
  {
    StripLenToRunEnd(t, WordLen(t, n));
  }

  // ---------- wrap_line ----------
  //
  // Both functions work from row l down and never look above it, so they are modelled on the
  // rows from l on.

  /** The test on which `wrap_line` returns: the first row fits and nothing has to follow it. */
  predicate Fits(d: seq<Row>, cols: nat)
    requires d != []
  {
    var n := StripLen(d[0].text);
    n < cols && (n != |d[0].text| || |d| == 1 || d[0].hardcr)
  }

  function Head(r: Row, cols: nat): Row
    requires cols >= 2
  {
    var k := CutPoint(r.text, cols);
    Row(r.text[..k], r.attr[..k], r.hardcr, r.kludged || WrapBreak(r.text, cols - 1) == 0)
  }

  /** A row that holds what is cut off r. */
  function Rest(r: Row, hardcr: bool, cols: nat): Row
    requires cols >= 2
  {
    var k := CutPoint(r.text, cols);
    Row(r.text[k..], r.attr[k..], hardcr, false)
  }

  function Prefixed(r: Row, below: Row, cols: nat): Row
    requires cols >= 2
  {
    var k := CutPoint(r.text, cols);
    below.(text := r.text[k..] + below.text, attr := r.attr[k..] + below.attr)
  }

  /** One round of the loop, the head: what stays of the first row. */
  function CutHead(d: seq<Row>, cols: nat): Row
    requires d != [] && cols >= 2
  {
    if |d| > 1 && d[0].hardcr then Head(d[0], cols).(hardcr := false) else Head(d[0], cols)
  }

  /** One round of the loop, the rows below: the last row gets a new soft row, a hard row gets a
      new hard row, and any other row hands its rest to the row below. */
  function CutTail(d: seq<Row>, cols: nat): (r: seq<Row>)
    requires d != [] && cols >= 2
    ensures r != []
    ensures Chars(r) == Chars(d) - CutPoint(d[0].text, cols)
  {
    if |d| == 1 then
      CharsCons(Rest(d[0], false, cols), []);
      [Rest(d[0], false, cols)]
    else if d[0].hardcr then
      CharsCons(Rest(d[0], true, cols), d[1..]);
      [Rest(d[0], true, cols)] + d[1..]
    else
      CharsCons(Prefixed(d[0], d[1], cols), d[2..]);
      CharsCons(d[1], d[2..]);
      assert d[1..] == [d[1]] + d[2..];
      [Prefixed(d[0], d[1], cols)] + d[2..]
  }

  ghost function Chars(d: seq<Row>): nat {
    if d == [] then 0 else |d[0].text| + Chars(d[1..])
  }

  lemma {:induction false} CharsCons(r: Row, d: seq<Row>)
    ensures Chars([r] + d) == |r.text| + Chars(d)
  {
    assert ([r] + d)[1..] == d;
  }

  /** The rows that the loop leaves; `stop` is the row it stops on. `ok` is false on the branch
      that reports an error and exits: an empty row that is neither hard nor last. */
  datatype WrapResult = WrapResult(rows: seq<Row>, stop: nat, ok: bool)

  function Wrap(d: seq<Row>, cols: nat): (r: WrapResult)
    requires cols >= 2
    decreases Chars(d)
  {
    if d == [] || Fits(d, cols) then WrapResult(d, 0, true)
    else if d[0].text == "" then WrapResult([d[0].(kludged := true)] + d[1..], 0, false)
    else
      var r := Wrap(CutTail(d, cols), cols);
      WrapResult([CutHead(d, cols)] + r.rows, r.stop + 1, r.ok)
  }

  /** What `wrap_line` returns: how much of the first row went below, or -1. */
  function WrapReturn(d: seq<Row>, cols: nat): int
    requires cols >= 2
  {
    if d == [] || Fits(d, cols) then -1 else |d[0].text| - CutPoint(d[0].text, cols)
  }

  /** The text that the last row holds when the loop comes to it, or "" if it does not come so far. */
  function Poured(d: seq<Row>, carry: string, cols: nat): string
    requires d != [] && cols >= 2
  {
    var t := carry + d[0].text;
    if |d| == 1 then t
    else if d[0].hardcr || t == "" || (StripLen(t) < cols && StripLen(t) != |t|) then ""
    else Poured(d[1..], t[CutPoint(t, cols)..], cols)
  }

  /** The last row of the buffer is hard, and the words poured into it do not fit: `wrap_line`
      then adds a soft row below it and leaves the hard break where it was. */
  predicate SpillsPastHardEnd(d: seq<Row>, cols: nat)
    requires cols >= 2
  {
    d != [] && d[|d| - 1].hardcr && StripLen(Poured(d, "", cols)) >= cols
  }

  lemma {:induction false} FlattenPair(d: seq<Row>)
    requires |d| >= 2
    ensures Flatten(d) == RowTokens(d[0]) + RowTokens(d[1]) + Flatten(d[2..])
  {
    assert d[1..][1..] == d[2..];
  }

  lemma {:induction false} CutTokens(d: seq<Row>, cols: nat)
    requires d != [] && cols >= 2
    requires !(|d| == 1 && d[0].hardcr)
    ensures RowTokens(CutHead(d, cols)) + Flatten(CutTail(d, cols)) == Flatten(d)
  {
    if |d| == 1 {
      FlattenCons(Rest(d[0], false, cols), []);
      CutTokensBelow(d[0], false, cols, []);
    } else if d[0].hardcr {
      FlattenCons(Rest(d[0], true, cols), d[1..]);
      CutTokensBelow(d[0], true, cols, Flatten(d[1..]));
    } else {
      FlattenCons(Prefixed(d[0], d[1], cols), d[2..]);
      FlattenPair(d);
      CutTokensInto(d[0], d[1], cols, Flatten(d[2..]));
    }
  }

  /** The rest of a row on a new row below it. */
  lemma {:induction false} CutTokensBelow(row: Row, hardcr: bool, cols: nat, rest: seq<Token>)
    requires cols >= 2 && hardcr == row.hardcr
    ensures RowTokens(Head(row, cols).(hardcr := false)) + (RowTokens(Rest(row, hardcr, cols)) + rest)
         == RowTokens(row) + rest
  {
    var k := CutPoint(row.text, cols);
    CellsSplit(row.text, row.attr, k);
    var c := Cells(row.text[k..], row.attr[k..]);
    Regroup(Cells(row.text, row.attr), Cells(row.text[..k], row.attr[..k]), c, [], c,
          (if hardcr then [Hard] else []) + rest);
  }

  /** The rest of a row in front of the row below it. */
  lemma {:induction false} CutTokensInto(row: Row, below: Row, cols: nat, rest: seq<Token>)
    requires cols >= 2 && !row.hardcr
    ensures RowTokens(Head(row, cols)) + (RowTokens(Prefixed(row, below, cols)) + rest)
         == RowTokens(row) + RowTokens(below) + rest
  {
    var k := CutPoint(row.text, cols);
    CellsSplit(row.text, row.attr, k);
    CellsConcat(row.text[k..], row.attr[k..], below.text, below.attr);
    Regroup(Cells(row.text, row.attr), Cells(row.text[..k], row.attr[..k]), Cells(row.text[k..], row.attr[k..]),
            Cells(below.text, below.attr), Cells(row.text[k..] + below.text, row.attr[k..] + below.attr),
            (if below.hardcr then [Hard] else []) + rest);
  }

  lemma {:induction false} SpillAfterCut(d: seq<Row>, cols: nat)
    requires d != [] && cols >= 2 && d[0].text != ""
    requires !Fits(d, cols) && !(|d| == 1 && d[0].hardcr)
    ensures SpillsPastHardEnd(CutTail(d, cols), cols) == SpillsPastHardEnd(d, cols)
  {
    var t := d[0].text;
    assert "" + t == t;
    if |d| > 1 && !d[0].hardcr {
      PouredIntoPrefixed(d, cols);
    }
  }

  lemma {:induction false} PouredIntoPrefixed(d: seq<Row>, cols: nat)
    requires |d| > 1 && cols >= 2
    ensures Poured([Prefixed(d[0], d[1], cols)] + d[2..], "", cols)
         == Poured(d[1..], d[0].text[CutPoint(d[0].text, cols)..], cols)
  {
    var p := Prefixed(d[0], d[1], cols);
    assert ([p] + d[2..])[1..] == d[1..][1..];
    assert "" + p.text == p.text;
  }

  /** After a hard last row was cut, the document no longer ends in a hard break. */
  lemma {:induction false} SpillChangesDocument(d: seq<Row>, tail: seq<Row>, cols: nat)
    requires |d| == 1 && cols >= 2 && d[0].hardcr && StripLen(d[0].text) >= cols
    requires Flatten(tail) == Flatten(CutTail(d, cols))
    ensures RowTokens(CutHead(d, cols)) + Flatten(tail) != Flatten(d)
  {
    var rest := Rest(d[0], false, cols);
    FlattenCons(rest, []);
    FlattenCons(d[0], []);
    assert d == [d[0]] + [];
    var s := RowTokens(CutHead(d, cols)) + Flatten(tail);
    assert s[|s| - 1] == RowTokens(rest)[|rest.text| - 1];
  }

  lemma {:induction false} Cancel(p: seq<Token>, s: seq<Token>, t: seq<Token>)
    ensures p + s == p + t <==> s == t
  {
    assert (p + s)[|p|..] == s && (p + t)[|p|..] == t;
  }

  lemma {:induction false} WrapStepDocument(d: seq<Row>, rows: seq<Row>, cols: nat)
    requires d != [] && cols >= 2 && d[0].text != "" && !Fits(d, cols)
    requires Flatten(rows) == Flatten(CutTail(d, cols)) <==> !SpillsPastHardEnd(CutTail(d, cols), cols)
    ensures Flatten([CutHead(d, cols)] + rows) == Flatten(d) <==> !SpillsPastHardEnd(d, cols)
  {
    FlattenCons(CutHead(d, cols), rows);
    if |d| == 1 && d[0].hardcr {
      assert "" + d[0].text == d[0].text;
      SpillChangesDocument(d, rows, cols);
    } else {
      CutTokens(d, cols);
      SpillAfterCut(d, cols);
      Cancel(RowTokens(CutHead(d, cols)), Flatten(rows), Flatten(CutTail(d, cols)));
    }
  }

  /** `wrap_line` keeps every character, every attribute and every hard break in place, exactly
      when it does not spill past a hard last row. */
  lemma {:induction false} WrapKeepsDocument(d: seq<Row>, cols: nat)
    requires cols >= 2
    ensures Flatten(Wrap(d, cols).rows) == Flatten(d) <==> !SpillsPastHardEnd(d, cols)
    decreases Chars(d)
  {
    if d == [] {
    } else if Fits(d, cols) || d[0].text == "" {
      assert "" + d[0].text == d[0].text;
      FlattenCons(d[0].(kludged := true), d[1..]);
    } else {
      WrapKeepsDocument(CutTail(d, cols), cols);
      WrapStepDocument(d, Wrap(CutTail(d, cols), cols).rows, cols);
    }
  }

  /** Every row down to the one the loop stops on fits in `cols - 1` columns. */
  ghost predicate RowsFit(d: seq<Row>, n: nat, cols: nat)
    requires n <= |d|
  {
    forall i :: 0 <= i < n ==> StripLen(d[i].text) <= cols - 1
  }

  lemma {:induction false} RowsFitCons(r: Row, d: seq<Row>, n: nat, cols: nat)
    requires n <= |d| && RowsFit(d, n, cols) && StripLen(r.text) <= cols - 1
    ensures RowsFit([r] + d, n + 1, cols)
  {
  }

  /** Every row down to the one the loop stops on has at most `cols - 1` characters before its
      trailing blanks, and that last row passes the test that ends the loop. */
  lemma {:induction false} WrapBoundsWidth(d: seq<Row>, cols: nat)
    requires cols >= 2 && d != []
    ensures var r := Wrap(d, cols);
      && r.stop < |r.rows| && |d| <= |r.rows|
      && RowsFit(r.rows, r.stop + 1, cols)
      && (r.ok ==> Fits(r.rows[r.stop..], cols))
    decreases Chars(d)
  {
    if !Fits(d, cols) && d[0].text != "" {
      WrapBoundsWidth(CutTail(d, cols), cols);
      CutHeadFits(d, cols);
      StepBoundsWidth(CutHead(d, cols), Wrap(CutTail(d, cols), cols), Wrap(d, cols), cols);
    } else {
      assert Wrap(d, cols).rows[0..] == Wrap(d, cols).rows;
    }
  }

  lemma {:induction false} CutHeadFits(d: seq<Row>, cols: nat)
    requires d != [] && cols >= 2
    ensures StripLen(CutHead(d, cols).text) <= cols - 1
  {
    CutFits(d[0].text, cols);
  }

  lemma {:induction false} StepBoundsWidth(h: Row, t: WrapResult, r: WrapResult, cols: nat)
    requires r.rows == [h] + t.rows && r.stop == t.stop + 1 && t.stop < |t.rows|
    requires StripLen(h.text) <= cols - 1 && RowsFit(t.rows, t.stop + 1, cols)
    ensures RowsFit(r.rows, r.stop + 1, cols) && r.rows[r.stop..] == t.rows[t.stop..]
  {
    RowsFitCons(h, t.rows, t.stop + 1, cols);
  }

  /** The loop comes to a row that is empty, even with what was cut off the row above, and that is
      neither hard nor last. */
  predicate ComesToEmpty(d: seq<Row>, carry: string, cols: nat)
    requires d != [] && cols >= 2
  {
    var t := carry + d[0].text;
    |d| > 1 && !d[0].hardcr
    && (t == "" || (!(StripLen(t) < cols && StripLen(t) != |t|) && ComesToEmpty(d[1..], t[CutPoint(t, cols)..], cols)))
  }

  lemma {:induction false} EmptyBehindPrefixed(d: seq<Row>, cols: nat)
    requires |d| > 1 && cols >= 2
    ensures ComesToEmpty([Prefixed(d[0], d[1], cols)] + d[2..], "", cols)
        <==> ComesToEmpty(d[1..], d[0].text[CutPoint(d[0].text, cols)..], cols)
  {
    var p := Prefixed(d[0], d[1], cols);
    assert ([p] + d[2..])[1..] == d[1..][1..];
    assert "" + p.text == p.text;
  }

  /** `wrap_line` reports an error and exits exactly when it comes to an empty soft row above another row. */
  lemma {:induction false} WrapFailsIff(d: seq<Row>, cols: nat)
    requires cols >= 2 && d != []
    ensures Wrap(d, cols).ok <==> !ComesToEmpty(d, "", cols)
    decreases Chars(d)
  {
    var t := d[0].text;
    assert "" + t == t;
    if !Fits(d, cols) && t != "" {
      WrapFailsIff(CutTail(d, cols), cols);
      if |d| > 1 && !d[0].hardcr { EmptyBehindPrefixed(d, cols); }
    }
  }

  ghost predicate NoEmptySoftRow(d: seq<Row>) {
    forall i :: 0 <= i < |d| - 1 ==> d[i].text != "" || d[i].hardcr
  }

  lemma {:induction false} NothingEmpty(d: seq<Row>, carry: string, cols: nat)
    requires d != [] && cols >= 2 && NoEmptySoftRow(d)
    ensures !ComesToEmpty(d, carry, cols)
  {
    var t := carry + d[0].text;
    if |d| > 1 && !d[0].hardcr {
      assert forall i :: 0 <= i < |d[1..]| ==> d[1..][i] == d[i + 1];
      NothingEmpty(d[1..], t[CutPoint(t, cols)..], cols);
    }
  }

  /** So the error exit is reached only from a buffer that already holds an empty soft row above another row. */
  lemma {:induction false} WrapSucceeds(d: seq<Row>, cols: nat)
    requires cols >= 2 && NoEmptySoftRow(d)
    ensures Wrap(d, cols).ok
  {
    if d != [] {
      WrapFailsIff(d, cols);
      NothingEmpty(d, "", cols);
    }
  }

  // ---------- unwrap_line ----------

  /** Move k characters of b to the end of a; when b is used up, a takes over its hard break. */
  function Pull(a: Row, b: Row, k: nat): (r: seq<Row>)
    requires k <= |b.text|
    ensures |r| == if k == |b.text| then 1 else 2
  {
    var a' := a.(text := a.text + b.text[..k], attr := a.attr + b.attr[..k]);
    if k == |b.text| then [a'.(hardcr := b.hardcr)]
    else [a', b.(text := b.text[k..], attr := b.attr[k..])]
  }

  function Space(d: seq<Row>, cols: nat): int
    requires d != []
  {
    cols - 1 - |d[0].text|
  }

  /** How much of the second row the first half of a round takes: the rest of a word that was cut. */
  function ChunkTaken(d: seq<Row>, cols: nat): (k: nat)
    requires |d| >= 2
    ensures k <= |d[1].text|
  {
    if d[0].kludged && Space(d, cols) >= 1 then ChunkBreak(d[1].text, Space(d, cols)) else 0
  }

  /** The first half of a round. */
  function AfterChunk(d: seq<Row>, cols: nat): (r: seq<Row>)
    requires |d| >= 2
    ensures |r| == if 0 < ChunkTaken(d, cols) == |d[1].text| then |d| - 1 else |d|
    ensures |r[0].text| == |d[0].text| + ChunkTaken(d, cols)
  {
    var k := ChunkTaken(d, cols);
    if !d[0].kludged then d
    else if k == 0 then [d[0].(kludged := false)] + d[1..]
    else
      var p := Pull(d[0], d[1], k);
      var whole := k == |d[1].text| || IsSpace(d[1].text[k - 1]);
      [if whole then p[0].(kludged := false) else p[0]] + p[1..] + d[2..]
  }

  /** How much the second half of a round takes: whole words that fit. */
  function WordsTaken(d: seq<Row>, cols: nat): (w: nat)
    requires |d| >= 2
    ensures w <= |d[1].text|
  {
    if Space(d, cols) < 1 then 0 else WordBreak(d[1].text, Space(d, cols))
  }

  /** The second half of a round. */
  function AfterWords(d: seq<Row>, cols: nat): (r: seq<Row>)
    requires |d| >= 2
    ensures 1 <= |d| - 1 <= |r| <= |d|
  {
    var w := WordsTaken(d, cols);
    Pull(if w > 0 then d[0] else d[0].(kludged := false), d[1], w) + d[2..]
  }

  /** The test on which the loop ends before it changes anything. */
  predicate UnwrapStops(d: seq<Row>, cols: nat) {
    |d| < 2 || d[0].hardcr || Space(d, cols) < 1
  }

  /** `crashed`: a field of the missing row below was read, after the first half of a round had
      used up the last row. */
  datatype UnwrapResult = UnwrapResult(rows: seq<Row>, stop: nat, crashed: bool)

  function Unwrap(d: seq<Row>, cols: nat): (r: UnwrapResult)
    ensures |r.rows| <= |d|
    decreases |d|
  {
    if UnwrapStops(d, cols) then UnwrapResult(d, 0, false)
    else
      var d1 := AfterChunk(d, cols);
      if |d1| == 1 then UnwrapResult(d1, 0, true)
      else
        var d2 := AfterWords(d1, cols);
        if WordsTaken(d1, cols) == 0 then UnwrapResult(d2, 1, false)
        else
          var r := Unwrap(d2[1..], cols);
          UnwrapResult([d2[0]] + r.rows, r.stop + 1, r.crashed)
  }

  /** What `unwrap_line` returns: how much of the second row came up in the first round, or -1. */
  function UnwrapReturn(d: seq<Row>, cols: nat): int {
    if UnwrapStops(d, cols) then -1
    else
      var k := ChunkTaken(d, cols);
      var d1 := AfterChunk(d, cols);
      var w := if |d1| == 1 then 0 else WordsTaken(d1, cols);
      if k + w > 0 then k + w else -1
  }

  /** One round that took words, and the rounds after it. */
  lemma {:induction false} UnwrapRound(d: seq<Row>, cols: nat, d1: seq<Row>, d2: seq<Row>)
    requires !UnwrapStops(d, cols) && d1 == AfterChunk(d, cols) && |d1| > 1
    requires d2 == AfterWords(d1, cols) && WordsTaken(d1, cols) > 0
    ensures var r := Unwrap(d2[1..], cols); Unwrap(d, cols) == UnwrapResult([d2[0]] + r.rows, r.stop + 1, r.crashed)
    ensures UnwrapReturn(d, cols) == ChunkTaken(d, cols) + WordsTaken(d1, cols)
  {
  }

  /** The first half of this round uses up a hard row, and the second half still reaches into the
      row after it: it takes words from there, or drops it because it is empty. */
  predicate CrossesHardBreak(d: seq<Row>, cols: nat) {
    && !UnwrapStops(d, cols)
    && d[0].kludged && 0 < ChunkTaken(d, cols) == |d[1].text| && d[1].hardcr
    && |d| > 2
    && (d[2].text == "" || WordsTaken(AfterChunk(d, cols), cols) > 0)
  }

  /** No round of the loop reaches across a hard break. */
  predicate KeepsToParagraph(d: seq<Row>, cols: nat)
    decreases |d|
  {
    UnwrapStops(d, cols) ||
    (!CrossesHardBreak(d, cols) &&
     var d1 := AfterChunk(d, cols);
     (|d1| == 1 || WordsTaken(d1, cols) == 0 || KeepsToParagraph(AfterWords(d1, cols)[1..], cols)))
  }

  // Weight of a document: each cell counts the hard breaks before it, and so does the end.
  ghost function Weight(s: seq<Token>, h: nat): nat {
    if s == [] then h
    else if s[0].Hard? then Weight(s[1..], h + 1)
    else h + Weight(s[1..], h)
  }

  lemma {:induction false} WeightRises(s: seq<Token>, h: nat)
    ensures Weight(s, h) < Weight(s, h + 1)
  {
    if s != [] { WeightRises(s[1..], if s[0].Hard? then h + 1 else h); }
  }

  lemma {:induction false} WeightBehind(p: seq<Token>, s: seq<Token>, t: seq<Token>, h: nat)
    requires forall g: nat :: Weight(s, g) < Weight(t, g)
    ensures Weight(p + s, h) < Weight(p + t, h)
  {
    if p == [] {
      assert p + s == s && p + t == t;
    } else {
      assert (p + s)[1..] == p[1..] + s && (p + t)[1..] == p[1..] + t;
      WeightBehind(p[1..], s, t, if p[0].Hard? then h + 1 else h);
    }
  }

  lemma {:induction false} WeightOfLaterBreak(c: seq<Token>, s: seq<Token>, h: nat)
    requires c != [] && forall i :: 0 <= i < |c| ==> c[i].Cell?
    ensures Weight(c + ([Hard] + s), h) < Weight([Hard] + (c + s), h)
  {
    assert ([Hard] + (c + s))[1..] == c + s;
    assert (c + s)[1..] == c[1..] + s;
    assert (c + ([Hard] + s))[1..] == c[1..] + ([Hard] + s);
    if |c| == 1 {
      assert c[1..] + ([Hard] + s) == [Hard] + s && ([Hard] + s)[1..] == s && c[1..] + s == s;
    } else {
      WeightOfLaterBreak(c[1..], s, h);
      assert ([Hard] + (c[1..] + s))[1..] == c[1..] + s;
    }
  }

  lemma {:induction false} WeightOfLostBreak(s: seq<Token>)
    ensures forall g: nat :: Weight(s, g) < Weight([Hard] + s, g)
  {
    forall g: nat ensures Weight(s, g) < Weight([Hard] + s, g) {
      assert ([Hard] + s)[1..] == s;
      WeightRises(s, g);
    }
  }

  /** The document after a pull, with the hard break of a apart. */
  lemma {:induction false} PulledTokens(a: Row, b: Row, k: nat, d: seq<Row>)
    requires k < |b.text|
    ensures var r := Pull(a, b, k);
      Flatten(r + d)
           == (Cells(a.text, a.attr) + Cells(b.text[..k], b.attr[..k])) + (Break(a) + (RowTokens(r[1]) + Flatten(d)))
  {
    var r := Pull(a, b, k);
    CellsConcat(a.text, a.attr, b.text[..k], b.attr[..k]);
    FlattenCons(r[1], d);
    FlattenCons(r[0], [r[1]] + d);
    assert r + d == [r[0]] + ([r[1]] + d);
    var c := Cells(r[0].text, r[0].attr);
    assert (c + Break(a)) + (RowTokens(r[1]) + Flatten(d)) == c + (Break(a) + (RowTokens(r[1]) + Flatten(d)));
  }

  ghost function Break(r: Row): seq<Token> {
    if r.hardcr then [Hard] else []
  }

  /** The same, when all of b is pulled. */
  lemma {:induction false} PulledAllTokens(a: Row, b: Row, d: seq<Row>)
    ensures Flatten(Pull(a, b, |b.text|) + d) == Cells(a.text, a.attr) + (RowTokens(b) + Flatten(d))
  {
    var r := Pull(a, b, |b.text|)[0];
    CellsConcat(a.text, a.attr, b.text, b.attr);
    assert b.text[..|b.text|] == b.text && b.attr[..|b.text|] == b.attr;
    FlattenCons(r, d);
    assert Cells(r.text, r.attr) + Break(b) == Cells(a.text, a.attr) + RowTokens(b);
  }

  /** The document before a pull, with the hard break of a and the part of b that moves apart. */
  lemma {:induction false} PairTokens(a: Row, b: Row, k: nat, rest: seq<Token>)
    requires k < |b.text|
    ensures RowTokens(a) + RowTokens(b) + rest
         == Cells(a.text, a.attr)
           + (Break(a) + (Cells(b.text[..k], b.attr[..k]) + (RowTokens(Pull(a, b, k)[1]) + rest)))
  {
    CellsSplit(b.text, b.attr, k);
    var r1 := Pull(a, b, k)[1];
    assert RowTokens(b) == Cells(b.text[..k], b.attr[..k]) + RowTokens(r1);
  }

  lemma {:induction false} PullTokens(a: Row, b: Row, k: nat, d: seq<Row>)
    requires k <= |b.text| && !a.hardcr
    ensures Flatten(Pull(a, b, k) + d) == RowTokens(a) + RowTokens(b) + Flatten(d)
  {
    if k == |b.text| {
      PulledAllTokens(a, b, d);
    } else {
      PulledTokens(a, b, k, d);
      PairTokens(a, b, k, Flatten(d));
    }
  }

  /** Pulling all of b across the hard break of a loses that break. */
  lemma {:induction false} PullAllOverBreak(a: Row, b: Row, d: seq<Row>, h: nat)
    requires a.hardcr
    ensures Weight(Flatten(Pull(a, b, |b.text|) + d), h) < Weight(RowTokens(a) + RowTokens(b) + Flatten(d), h)
  {
    PulledAllTokens(a, b, d);
    var ca := Cells(a.text, a.attr);
    var tail := RowTokens(b) + Flatten(d);
    WeightOfLostBreak(tail);
    WeightBehind(ca, tail, [Hard] + tail, h);
    assert RowTokens(a) + RowTokens(b) + Flatten(d) == ca + ([Hard] + tail);
  }

  lemma {:induction false} WeightOfBreakMovedDown(c: seq<Token>, moved: seq<Token>, tail: seq<Token>, h: nat)
    requires moved != [] && forall i :: 0 <= i < |moved| ==> moved[i].Cell?
    ensures Weight((c + moved) + ([Hard] + tail), h) < Weight(c + ([Hard] + (moved + tail)), h)
  {
    forall g: nat ensures Weight(moved + ([Hard] + tail), g) < Weight([Hard] + (moved + tail), g) {
      WeightOfLaterBreak(moved, tail, g);
    }
    WeightBehind(c, moved + ([Hard] + tail), [Hard] + (moved + tail), h);
    assert (c + moved) + ([Hard] + tail) == c + (moved + ([Hard] + tail));
  }

  /** Pulling a part of b across the hard break of a moves that break down. */
  lemma {:induction false} PullPartOverBreak(a: Row, b: Row, k: nat, d: seq<Row>, h: nat)
    requires 0 < k < |b.text| && a.hardcr
    ensures Weight(Flatten(Pull(a, b, k) + d), h) < Weight(RowTokens(a) + RowTokens(b) + Flatten(d), h)
  {
    WeightOfBreakMovedDown(Cells(a.text, a.attr), Cells(b.text[..k], b.attr[..k]),
          RowTokens(Pull(a, b, k)[1]) + Flatten(d), h);
    PulledTokens(a, b, k, d);
    PairTokens(a, b, k, Flatten(d));
  }

  lemma {:induction false} AfterChunkTokens(d: seq<Row>, cols: nat)
    requires |d| >= 2 && !d[0].hardcr
    ensures Flatten(AfterChunk(d, cols)) == Flatten(d)
  {
    var k := ChunkTaken(d, cols);
    FlattenPair(d);
    if d[0].kludged {
      var rest := d[1..];
      hide ChunkTaken, Flatten, Cells;
      if k == 0 {
        SameTokens(d[0], d[0].(kludged := false), rest);
        assert d == [d[0]] + rest;
      } else {
        PullTokens(d[0], d[1], k, d[2..]);
        ChunkedTokens(Pull(d[0], d[1], k), d[2..]);
        hide Pull;
      }
    }
  }

  /** Whether the first row is marked as cut does not matter for the tokens. */
  lemma {:induction false} SameTokens(r: Row, q: Row, rows: seq<Row>)
    requires q == r.(kludged := q.kludged)
    ensures Flatten([q] + rows) == Flatten([r] + rows)
  {
    FlattenCons(r, rows);
    FlattenCons(q, rows);
  }

  lemma {:induction false} ChunkedTokens(p: seq<Row>, rows: seq<Row>)
    requires p != []
    ensures Flatten([p[0].(kludged := false)] + p[1..] + rows) == Flatten(p + rows)
    ensures [p[0]] + p[1..] + rows == p + rows
  {
    var q: Row := p[0].(kludged := false);
    SameTokens(p[0], q, p[1..] + rows);
    hide Flatten;
    HeadAndMore(p, rows, q);
  }

  lemma {:induction false} HeadAndMore(p: seq<Row>, rows: seq<Row>, q: Row)
    requires p != []
    ensures p + rows == [p[0]] + (p[1..] + rows) && [q] + p[1..] + rows == [q] + (p[1..] + rows)
    ensures [p[0]] + p[1..] + rows == p + rows
  {
  }

  lemma {:induction false} AfterWordsTokens(d: seq<Row>, cols: nat)
    requires |d| >= 2
    requires d[0].hardcr ==> WordsTaken(d, cols) == 0 && d[1].text != ""
    ensures Flatten(AfterWords(d, cols)) == Flatten(d)
  {
    var w := WordsTaken(d, cols);
    var a := if w > 0 then d[0] else d[0].(kludged := false);
    FlattenPair(d);
    if !a.hardcr {
      PullTokens(a, d[1], w, d[2..]);
    } else {
      var p := Pull(a, d[1], 0);
      assert p[0].text == a.text && p[0].attr == a.attr && p == [a, d[1]];
      assert AfterWords(d, cols) == [a] + ([d[1]] + d[2..]);
      FlattenCons(d[1], d[2..]);
      FlattenCons(a, [d[1]] + d[2..]);
    }
  }

  lemma {:induction false} AfterWordsWeight(d: seq<Row>, cols: nat, h: nat)
    requires |d| >= 2 && d[0].hardcr
    requires WordsTaken(d, cols) > 0 || d[1].text == ""
    ensures Weight(Flatten(AfterWords(d, cols)), h) < Weight(Flatten(d), h)
  {
    var w := WordsTaken(d, cols);
    var a := if w > 0 then d[0] else d[0].(kludged := false);
    FlattenPair(d);
    if w == |d[1].text| { PullAllOverBreak(a, d[1], d[2..], h); } else { PullPartOverBreak(a, d[1], w, d[2..], h); }
  }

  /** In the second half of a round the row above is hard only if the first half used up a hard row. */
  lemma {:induction false} CrossingSeen(d: seq<Row>, cols: nat)
    requires !UnwrapStops(d, cols) && |AfterChunk(d, cols)| >= 2
    ensures var d1 := AfterChunk(d, cols);
      CrossesHardBreak(d, cols) <==> d1[0].hardcr && (WordsTaken(d1, cols) > 0 || d1[1].text == "")
  {
    var d1 := AfterChunk(d, cols);
    var k := ChunkTaken(d, cols);
    if d[0].kludged && k > 0 {
      var p := Pull(d[0], d[1], k);
      if k == |d[1].text| {
        assert |p| == 1 && d1[1] == d[2];
      } else {
        assert d1[0].hardcr == d[0].hardcr;
      }
    }
  }

  /** What the rest of the run does to the rows below carries over to the whole. */
  lemma {:induction false} WeightOfRest(r: Row, d: seq<Row>, rows: seq<Row>, kept: bool, h: nat)
    requires kept ==> Flatten(rows) == Flatten(d)
    requires !kept ==> forall g: nat :: Weight(Flatten(rows), g) < Weight(Flatten(d), g)
    ensures if kept then Flatten([r] + rows) == Flatten([r] + d)
            else Weight(Flatten([r] + rows), h) < Weight(Flatten([r] + d), h)
  {
    FlattenCons(r, rows);
    FlattenCons(r, d);
    if !kept { WeightBehind(RowTokens(r), Flatten(rows), Flatten(d), h); }
  }

  lemma {:induction false} UnwrapWeight(d: seq<Row>, cols: nat, h: nat)
    ensures var rows := Unwrap(d, cols).rows;
      if KeepsToParagraph(d, cols) then Flatten(rows) == Flatten(d)
      else Weight(Flatten(rows), h) < Weight(Flatten(d), h)
    decreases |d|
  {
    if !UnwrapStops(d, cols) {
      AfterChunkTokens(d, cols);
      var d1 := AfterChunk(d, cols);
      if |d1| > 1 {
        CrossingSeen(d, cols);
        var d2 := AfterWords(d1, cols);
        if CrossesHardBreak(d, cols) { AfterWordsWeight(d1, cols, h); } else { AfterWordsTokens(d1, cols); }
        if WordsTaken(d1, cols) > 0 {
          var below := d2[1..];
          var rows, kept := Unwrap(below, cols).rows, KeepsToParagraph(below, cols);
          if kept {
            UnwrapWeight(below, cols, h);
          } else {
            forall g: nat ensures Weight(Flatten(rows), g) < Weight(Flatten(below), g) { UnwrapWeight(below, cols, g); }
          }
          WeightOfRest(d2[0], below, rows, kept, h);
          assert d2 == [d2[0]] + below;
        }
      }
    }
  }

  /** `unwrap_line` keeps every character, every attribute and every hard break in place, exactly
      when no round of it reaches across a hard break. */
  lemma {:induction false} UnwrapKeepsDocument(d: seq<Row>, cols: nat)
    ensures Flatten(Unwrap(d, cols).rows) == Flatten(d) <==> KeepsToParagraph(d, cols)
  {
    UnwrapWeight(d, cols, 0);
  }

  /** In some round the rest of a cut word is all that the last row holds. */
  predicate ReachesEnd(d: seq<Row>, cols: nat)
    decreases |d|
  {
    !UnwrapStops(d, cols) &&
    if |d| == 2 && d[0].kludged && 0 < ChunkTaken(d, cols) == |d[1].text| then true
    else
      var d1 := AfterChunk(d, cols);
      WordsTaken(d1, cols) > 0 && ReachesEnd(AfterWords(d1, cols)[1..], cols)
  }

  /** `unwrap_line` reads a line that is gone exactly when such a round comes. */
  lemma {:induction false} UnwrapCrashesIff(d: seq<Row>, cols: nat)
    ensures Unwrap(d, cols).crashed <==> ReachesEnd(d, cols)
    decreases |d|
  {
    if !UnwrapStops(d, cols) {
      var d1 := AfterChunk(d, cols);
      if |d1| > 1 && WordsTaken(d1, cols) > 0 { UnwrapCrashesIff(AfterWords(d1, cols)[1..], cols); }
    }
  }

  /** A buffer without rows cut inside a word is always kept, and the loop never crashes on it. */
  lemma {:induction false} UnwrapWithoutCutWords(d: seq<Row>, cols: nat)
    requires forall i :: 0 <= i < |d| ==> !d[i].kludged
    ensures KeepsToParagraph(d, cols) && !ReachesEnd(d, cols) && !Unwrap(d, cols).crashed
    decreases |d|
  {
    if !UnwrapStops(d, cols) && WordsTaken(d, cols) > 0 {
      UnwrapWithoutCutWords(AfterWords(d, cols)[1..], cols);
    }
  }

  lemma {:induction false} StripLenOfConcat(t: string, u: string)
    ensures StripLen(t + u) <= |t| + StripLen(u)
  {
    StripLenMeaning(u);
    StripLenAtMost(t + u, |t| + StripLen(u));
  }

  lemma {:induction false} FilledRowFits(d: seq<Row>, cols: nat)
    requires !UnwrapStops(d, cols) && |AfterChunk(d, cols)| > 1
    ensures StripLen(AfterWords(AfterChunk(d, cols), cols)[0].text) <= cols - 1
  {
    var d1 := AfterChunk(d, cols);
    var w := WordsTaken(d1, cols);
    if w > 0 {
      WordBreakFits(d1[1].text, Space(d1, cols));
      StripLenOfConcat(d1[0].text, d1[1].text[..w]);
    } else {
      var k := ChunkTaken(d, cols);
      ChunkBreakFits(d[1].text, Space(d, cols));
      StripLenOfConcat(d[0].text, d[1].text[..k]);
      assert d1[0].text == d[0].text + d[1].text[..k];
      assert AfterWords(d1, cols)[0].text == d1[0].text + d1[1].text[..0] == d1[0].text;
    }
  }

  /** Every row that the loop filled has at most `cols - 1` characters before its trailing blanks. */
  lemma {:induction false} UnwrapBoundsWidth(d: seq<Row>, cols: nat)
    ensures var r := Unwrap(d, cols); r.stop <= |r.rows| && RowsFit(r.rows, r.stop, cols)
    decreases |d|
  {
    if !UnwrapStops(d, cols) {
      var d1 := AfterChunk(d, cols);
      if |d1| > 1 {
        FilledRowFits(d, cols);
        var d2 := AfterWords(d1, cols);
        if WordsTaken(d1, cols) > 0 {
          UnwrapBoundsWidth(d2[1..], cols);
          var r := Unwrap(d2[1..], cols);
          RowsFitCons(d2[0], r.rows, r.stop, cols);
        }
      }
    }
  }
}
