/** The IRC client's screen:
    the loop that prints a long line row by row and scrolls the rows it keeps. */
module WrapScreen {
  import opened WordWrap
  import opened WrapColours

  function Scroll(rows: seq<string>, row: string): seq<string> {
    (if rows == [] then [] else rows[1..]) + [row]
  }

  function ScrollAll(rows: seq<string>, kept: seq<string>): seq<string> {
    if kept == [] then rows else Scroll(ScrollAll(rows, kept[..|kept| - 1]), kept[|kept| - 1])
  }

  /** The screen keeps its height, and shows the latest rows. */
  lemma {:induction false} LatestRows(rows: seq<string>, kept: seq<string>)
    requires rows != []
    ensures ScrollAll(rows, kept) == (rows + kept)[|kept|..]
  {
    if kept != [] {
      var n := |kept| - 1;
      LatestRows(rows, kept[..n]);
      assert kept == kept[..n] + [kept[n]];
      assert rows + kept == (rows + kept[..n]) + [kept[n]];
    } else {
      assert rows + kept == rows;
    }
  }

  // ---------- What is still to come, from the middle of a scan ----------

  /** The rows from the one on whose scan has come to j. */
  function RowsAt(line: string, st: nat, last: int, j: nat, i: nat): seq<string>
    requires st <= j && last <= j && (last >= st || last == st - 1)
  {
    var c := Cut(line, st, last, j, i);
    if c == -1 then [Slice(line, st, st + |line|)] else [Slice(line, st, c + 1)] + RowsFrom(line, c + 1, c, 1)
  }

  /** The codes before the rows behind that one; the scan has come by the codes p. */
  function CodesAt(line: string, st: nat, last: int, j: nat, i: nat, p: string): seq<string>
    requires st <= j && last <= j && (last >= st || last == st - 1)
  {
    var c := Cut(line, st, last, j, i);
    if c == -1 then []
    else PrefixesFrom(line, c + 1, StopsFrom(line, c + 1, c, 1),
          p + Codes(Between(line, j, Reached(line, st, last, j, i))))
  }

  lemma {:induction false} AtStart(line: string, st: nat, last: int, i: nat, p: string)
    requires last <= st && (last == st || last == st - 1) && st <= |line| + 1
    ensures RowsFrom(line, st, last, i) == RowsAt(line, st, last, st, i)
    ensures PrefixesFrom(line, st, StopsFrom(line, st, last, i), p) == [p] + CodesAt(line, st, last, st, i, p)
  {
    hide Cut, Reached, Between, Codes, Slice;
    var c := Cut(line, st, last, st, i);
    if c != -1 {
      var rest := StopsFrom(line, c + 1, c, 1);
      var stop := Stop(c + 1, Reached(line, st, last, st, i));
      assert StopsFrom(line, st, last, i) == [stop] + rest && ([stop] + rest)[1..] == rest;
    }
  }

  lemma {:induction false} AtEnd(line: string, st: nat, last: int, j: nat, i: nat, p: string)
    requires st <= j && last <= j && (last >= st || last == st - 1) && j > |line|
    ensures RowsAt(line, st, last, j, i) == [Slice(line, st, st + |line|)] && CodesAt(line, st, last, j, i, p) == []
  {
  }

  lemma {:induction false} AtCode(line: string, st: nat, last: int, j: nat, i: nat, p: string)
    requires st <= j < |line| && last <= j && (last >= st || last == st - 1) && line[j] == CTRL_A
    ensures RowsAt(line, st, last, j, i) == RowsAt(line, st, last, j + 2, i)
    ensures CodesAt(line, st, last, j, i, p) == CodesAt(line, st, last, j + 2, i, p + Between(line, j, j + 2))
  {
    hide Cut, Reached, PrefixesFrom, StopsFrom, RowsFrom, Slice, Between, Codes;
    CutCode(line, st, last, j, i);
    ReachedCode(line, st, last, j, i);
    if Cut(line, st, last, j, i) != -1 {
      CutInside(line, st, last, j + 2, i);
      CodeFirst(line, j, Reached(line, st, last, j, i), p);
    }
  }

  lemma {:induction false} ReachedCode(line: string, st: nat, last: int, j: nat, i: nat)
    requires st <= j < |line| && last <= j && (last >= st || last == st - 1) && line[j] == CTRL_A
    ensures Reached(line, st, last, j, i) == Reached(line, st, last, j + 2, i) >= j + 2
  {
    CutCode(line, st, last, j, i);
    hide Cut;
  }

  lemma {:induction false} CutInside(line: string, st: nat, last: int, j: nat, i: nat)
    requires st <= j && last <= j && (last >= st || last == st - 1)
    ensures Cut(line, st, last, j, i) != -1 ==> j <= |line|
  {
  }

  lemma {:induction false} CodeFirst(line: string, j: nat, e: nat, p: string)
    requires j + 2 <= |line| && line[j] == CTRL_A && j + 2 <= e
    ensures p + Codes(Between(line, j, e)) == p + Between(line, j, j + 2) + Codes(Between(line, j + 2, e))
  {
    hide Between, Codes;
    BetweenParts(line, j, j + 2, e);
    IsCode(line, j);
    CodesOfCode(line[j + 1], Between(line, j + 2, e));
    Joined(p, Between(line, j, j + 2), Codes(Between(line, j + 2, e)));
  }

  lemma {:induction false} IsCode(line: string, j: nat)
    requires j + 2 <= |line|
    ensures Between(line, j, j + 2) == [line[j], line[j + 1]]
  {
  }

  lemma {:induction false} CodesOfCode(c: char, rest: string)
    ensures Codes([CTRL_A, c] + rest) == [CTRL_A, c] + Codes(rest)
  {
    assert ([CTRL_A, c] + rest)[2..] == rest;
  }

  lemma {:induction false} Joined(a: string, b: string, c: string)
    ensures a + (b + c) == a + b + c
  {
  }

  /** The last space, once the character at j was looked at. */
  function Seen(line: string, last: int, j: nat): int {
    if j < |line| && line[j] == ' ' then j else last
  }

  predicate ShowsAt(line: string, j: nat) {
    j <= |line| && (j < |line| ==> line[j] != CTRL_A)
  }

  lemma {:induction false} AtChar(line: string, st: nat, last: int, j: nat, i: nat, p: string)
    requires st <= j && last <= j && (last >= st || last == st - 1) && ShowsAt(line, j) && i < WIDTH
    ensures RowsAt(line, st, last, j, i) == RowsAt(line, st, Seen(line, last, j), j + 1, i + 1)
    ensures CodesAt(line, st, last, j, i, p) == CodesAt(line, st, Seen(line, last, j), j + 1, i + 1, p)
  {
    hide Cut, Reached, PrefixesFrom, StopsFrom, RowsFrom, Slice, Between, Codes;
    CutOn(line, st, last, j, i);
    ReachedChar(line, st, last, j, i);
    CharFirst(line, j, Reached(line, st, last, j, i));
  }

  lemma {:induction false} ReachedChar(line: string, st: nat, last: int, j: nat, i: nat)
    requires st <= j && last <= j && (last >= st || last == st - 1) && ShowsAt(line, j) && i < WIDTH
    ensures Reached(line, st, last, j, i) == Reached(line, st, Seen(line, last, j), j + 1, i + 1) > j
  {
    CutOn(line, st, last, j, i);
    hide Cut;
  }

  lemma {:induction false} CharFirst(line: string, j: nat, e: nat)
    requires ShowsAt(line, j) && j < e
    ensures Codes(Between(line, j, e)) == Codes(Between(line, j + 1, e))
  {
    if j < |line| { assert Between(line, j, e)[1..] == Between(line, j + 1, e); }
  }

  lemma {:induction false} AtBreak(line: string, st: nat, last: int, j: nat, i: nat, c: nat, p: string)
    requires st <= j && last <= j && (last >= st || last == st - 1) && ShowsAt(line, j) && i >= WIDTH
    requires c == if Seen(line, last, j) == st - 1 then j else Seen(line, last, j)
    ensures RowsAt(line, st, last, j, i) == [Slice(line, st, c + 1)] + RowsAt(line, c + 1, c, c + 1, 1)
    ensures CodesAt(line, st, last, j, i, p) == [p] + CodesAt(line, c + 1, c, c + 1, 1, p)
  {
    hide Cut, Reached, PrefixesFrom, StopsFrom, RowsFrom, Slice, Between, Codes;
    CutFull(line, st, last, j, i);
    BreakInside(line, st, last, j, c);
    hide ShowsAt, Seen;
    ReachedHere(line, st, last, j, i);
    NothingBetween(line, j, Reached(line, st, last, j, i));
    RowsBroken(line, st, last, j, i, c, p);
  }

  lemma {:induction false} BreakInside(line: string, st: nat, last: int, j: nat, c: nat)
    requires st <= j && last <= j && (last >= st || last == st - 1) && ShowsAt(line, j)
    requires c == if Seen(line, last, j) == st - 1 then j else Seen(line, last, j)
    ensures st <= c <= |line|
  {
  }

  lemma {:induction false} RowsBroken(line: string, st: nat, last: int, j: nat, i: nat, c: nat, p: string)
    requires st <= j && last <= j && (last >= st || last == st - 1) && c == Cut(line, st, last, j, i) && c <= |line|
    requires Codes(Between(line, j, Reached(line, st, last, j, i))) == ""
    ensures RowsAt(line, st, last, j, i) == [Slice(line, st, c + 1)] + RowsAt(line, c + 1, c, c + 1, 1)
    ensures CodesAt(line, st, last, j, i, p) == [p] + CodesAt(line, c + 1, c, c + 1, 1, p)
  {
    hide Cut, Reached, PrefixesFrom, StopsFrom, RowsFrom, Slice, Between, Codes;
    RowsBehind(line, st, last, j, i, p);
    hide RowsAt, CodesAt;
    AtStart(line, c + 1, c, 1, p);
    NoneAdded(p);
  }

  lemma {:induction false} NoneAdded(p: string)
    ensures p + "" == p
  {
  }

  lemma {:induction false} RowsBehind(line: string, st: nat, last: int, j: nat, i: nat, p: string)
    requires st <= j && last <= j && (last >= st || last == st - 1) && Cut(line, st, last, j, i) != -1
    ensures var c, e := Cut(line, st, last, j, i), Reached(line, st, last, j, i);
      && RowsAt(line, st, last, j, i) == [Slice(line, st, c + 1)] + RowsFrom(line, c + 1, c, 1)
      && CodesAt(line, st, last, j, i, p)
         == PrefixesFrom(line, c + 1, StopsFrom(line, c + 1, c, 1), p + Codes(Between(line, j, e)))
  {
    hide Cut, Reached, PrefixesFrom, StopsFrom, RowsFrom, Slice, Between, Codes;
  }

  lemma {:induction false} ReachedHere(line: string, st: nat, last: int, j: nat, i: nat)
    requires st <= j && last <= j && (last >= st || last == st - 1) && ShowsAt(line, j) && i >= WIDTH
    ensures j <= Reached(line, st, last, j, i) <= j + 1
  {
    hide Cut;
  }

  lemma {:induction false} NothingBetween(line: string, j: nat, e: nat)
    requires ShowsAt(line, j) && j <= e <= j + 1
    ensures Codes(Between(line, j, e)) == ""
  {
    if e == j + 1 { CharFirst(line, j, e); }
  }

  // ---------- What was done so far ----------

  /** Of the given rows; codes are those before each of them and before the next. */
  ghost predicate Printing(codes: seq<string>, rows: seq<string>, printed: seq<string>, kept: seq<string>,
                           before: seq<string>, after: seq<string>)
  {
    && |codes| == |rows| + 1 && printed == WithCodes(codes, rows) && kept == WithCodes(codes[1..], rows)
    && after == ScrollAll(before, kept)
  }

  lemma {:induction false} PrintMore(codes: seq<string>, rows: seq<string>, printed: seq<string>, kept: seq<string>,
                                     before: seq<string>, after: seq<string>, row: string, next: string)
    requires Printing(codes, rows, printed, kept, before, after)
    ensures Printing(codes + [next], rows + [row], printed + [codes[|codes| - 1] + row], kept + [next + row],
                     before, Scroll(after, next + row))
  {
    assert (kept + [next + row])[..|kept|] == kept;
    assert (codes + [next])[1..] == codes[1..] + [next];
    WithCodesMore(codes, rows, [next], row);
    WithCodesMore(codes[1..], rows, [next], row);
  }

  lemma {:induction false} WithCodesMore(codes: seq<string>, rows: seq<string>, more: seq<string>, row: string)
    requires |codes| >= |rows| && |codes + more| > |rows|
    ensures WithCodes(codes + more, rows + [row]) == WithCodes(codes, rows) + [(codes + more)[|rows|] + row]
  {
  }

  lemma {:induction false} PrintedAll(codes: seq<string>, rows: seq<string>, printed: seq<string>, kept: seq<string>,
                                      before: seq<string>, after: seq<string>)
    requires codes != [] && Printing(codes + [codes[|codes| - 1]], rows, printed, kept, before, after)
    ensures |codes| == |rows| && printed == WithCodes(codes, rows) && kept == WithCodes(Later(codes), rows)
    ensures after == ScrollAll(before, kept)
  {
    assert (codes + [codes[|codes| - 1]])[1..] == Later(codes);
  }

  lemma {:induction false} NothingPrinted(before: seq<string>)
    ensures Printing([""], [], [], [], before, before)
  {
  }

  lemma {:induction false} Begin(text: string)
    requires |text| > WIDTH
    ensures Rows(text) == [] + RowsAt(text, 0, 0, 0, 0) && Prefixes(text) == [""] + CodesAt(text, 0, 0, 0, 0, "")
  {
    AtStart(text, 0, 0, 0, "");
  }

  lemma {:induction false} OneRow(text: string)
    requires |text| <= WIDTH
    ensures Rows(text) == [] + [Slice(text, 0, 0 + |text|)] && Prefixes(text) == [""]
  {
    assert Slice(text, 0, 0 + |text|) == text;
    assert [] + [text] == [text];
  }

  lemma {:induction false} Regroup(a: seq<string>, x: string, b: seq<string>)
    ensures a + ([x] + b) == a + [x] + b
  {
  }

  class Screen {
    var line: seq<string>

    /** Prints the text over as many rows as it takes: `printed` is what the console was sent, `kept` what the screen
        scrolled by. Each row is printed behind the codes before it, and kept behind those before the next one. */
    method PrintLine(text: string) returns (printed: seq<string>, kept: seq<string>)
      modifies this
      ensures |Prefixes(text)| == |Rows(text)|
      ensures printed == WithCodes(Prefixes(text), Rows(text)) && kept == WithCodes(Later(Prefixes(text)), Rows(text))
      ensures line == ScrollAll(old(line), kept)
    {
      hide Rows, RowsAt, CodesAt, Prefixes, ScrollAll, Scroll, Printing, ShowsAt, Seen, Slice, Between, WithCodes,
        Later;
      printed, kept := [], [];
      var prev_colour, last_colour := "", "";
      ghost var rows: seq<string>, codes := [], [""];
      var i: nat, lastspace: nat, linestart: nat, j: nat := 0, 0, 0, 0;
      NothingPrinted(line);
      if |text| > WIDTH {
        Begin(text);
        while j <= |text|
          invariant linestart <= j && linestart <= |text| + 1 && lastspace <= j
          invariant linestart - 1 <= lastspace && i <= WIDTH
          invariant codes != [] && prev_colour == codes[|codes| - 1]
          invariant Rows(text) == rows + RowsAt(text, linestart, lastspace, j, i)
          invariant Prefixes(text) == codes + CodesAt(text, linestart, lastspace, j, i, last_colour)
          invariant Printing(codes, rows, printed, kept, old(line), line)
          decreases |text| + 1 - linestart, |text| + 2 - j
        {
          if j < |text| && text[j] == CTRL_A {
            AtCode(text, linestart, lastspace, j, i, last_colour);
            last_colour := last_colour + Between(text, j, j + 2);
            j := j + 1;
          } else {
            ghost var last := lastspace;
            LooksAt(text, lastspace, j);
            if j < |text| && text[j] == ' ' { lastspace := j; }
            if i >= WIDTH {
              if lastspace == linestart - 1 { lastspace := j; }
              AtBreak(text, linestart, last, j, i, lastspace, last_colour);
              var row := Slice(text, linestart, lastspace + 1);
              Regroup(rows, row, RowsAt(text, lastspace + 1, lastspace, lastspace + 1, 1));
              Regroup(codes, last_colour, CodesAt(text, lastspace + 1, lastspace, lastspace + 1, 1, last_colour));
              PrintMore(codes, rows, printed, kept, old(line), line, row, last_colour);
              printed := printed + [prev_colour + row];
              prev_colour := last_colour;
              kept := kept + [prev_colour + row];
              line := Scroll(line, prev_colour + row);
              rows, codes := rows + [row], codes + [prev_colour];
              linestart := lastspace + 1;
              j := lastspace;
              i := 0;
            } else {
              AtChar(text, linestart, last, j, i, last_colour);
            }
            i := i + 1;
          }
          j := j + 1;
        }
        AtEnd(text, linestart, lastspace, j, i, last_colour);
        assert codes + [] == codes;
      } else {
        OneRow(text);
      }
      var row := Slice(text, linestart, linestart + |text|);
      PrintMore(codes, rows, printed, kept, old(line), line, row, prev_colour);
      printed := printed + [prev_colour + row];
      kept := kept + [prev_colour + row];
      line := Scroll(line, prev_colour + row);
      PrintedAll(codes, rows + [row], printed, kept, old(line), line);
    }
  }

  lemma {:induction false} LooksAt(text: string, last: int, j: nat)
    ensures Seen(text, last, j) == if j < |text| && text[j] == ' ' then j else last
    ensures j <= |text| && (j < |text| ==> text[j] != CTRL_A) ==> ShowsAt(text, j)
  {
  }
}
