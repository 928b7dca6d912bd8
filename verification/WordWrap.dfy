/** How the IRC client breaks a long line into screen rows, going back to the last space. */
module WordWrap {

  const WIDTH := 78
  const CTRL_A := '\U{1}'

  // ---------- Visible text ----------

  /** The characters that show: each Ctrl-A takes the next character with it. */
  function Visible(s: string): string
    decreases |s|
  {
    if s == "" then ""
    else if s[0] == CTRL_A then (if |s| >= 2 then Visible(s[2..]) else "")
    else [s[0]] + Visible(s[1..])
  }

  /** s is made of whole colour codes and characters. */
  predicate Whole(s: string)
    decreases |s|
  {
    s == "" || if s[0] == CTRL_A then |s| >= 2 && Whole(s[2..]) else Whole(s[1..])
  }

  lemma {:induction false} VisibleConcat(s: string, t: string)
    requires Whole(s)
    ensures Visible(s + t) == Visible(s) + Visible(t)
    ensures Whole(s + t) == Whole(t)
    decreases |s|
  {
    hide Visible, Whole;
    if s == "" {
      NoneVisible(t);
    } else {
      VisibleStep(s);
      VisibleStep(s + t);
      if s[0] == CTRL_A {
        DropFrom(s, t, 2);
        VisibleConcat(s[2..], t);
      } else {
        DropFrom(s, t, 1);
        VisibleConcat(s[1..], t);
        ConcatThree([s[0]], Visible(s[1..]), Visible(t));
      }
    }
  }

  lemma {:induction false} DropFrom(s: string, t: string, n: nat)
    requires n <= |s|
    ensures (s + t)[n..] == s[n..] + t
    ensures n > 0 ==> (s + t)[0] == s[0]
  {
  }

  lemma {:induction false} VisibleStep(s: string)
    ensures s == "" ==> Whole(s)
    ensures s != "" && s[0] == CTRL_A && |s| >= 2 ==> Visible(s) == Visible(s[2..]) && Whole(s) == Whole(s[2..])
    ensures |s| == 1 && s[0] == CTRL_A ==> !Whole(s)
    ensures s != "" && s[0] != CTRL_A ==> Visible(s) == [s[0]] + Visible(s[1..]) && Whole(s) == Whole(s[1..])
  {
  }

  lemma {:induction false} NoneVisible(t: string)
    ensures Visible("") + Visible(t) == Visible("" + t) && Whole("" + t) == Whole(t)
  {
    assert "" + t == t;
  }

  lemma {:induction false} ConcatThree(a: string, b: string, c: string)
    ensures a + (b + c) == a + b + c
  {
  }

  // ---------- Where a row ends ----------

  /** The index of the last character of the row that starts at st, or -1 if the line ends first. */
  function Cut(line: string, st: nat, last: int, j: nat, i: nat): (c: int)
    requires st <= j && last <= j && (last >= st || last == st - 1)
    ensures c == -1 || st <= c <= |line|
    decreases |line| + 1 - j
  {
    if j > |line| then -1
    else if j < |line| && line[j] == CTRL_A then Cut(line, st, last, j + 2, i)
    else
      var last' := if j < |line| && line[j] == ' ' then j else last;
      if i >= WIDTH then (if last' == st - 1 then j else last')
      else Cut(line, st, last', j + 1, i + 1)
  }

  function Slice(line: string, a: nat, b: nat): string
    requires a <= b
  {
    line[if a < |line| then a else |line|..if b < |line| then b else |line|]
  }

  /** The rows of the line from index st on; i is how many columns count as used at their start. */
  function RowsFrom(line: string, st: nat, last: int, i: nat): seq<string>
    requires last <= st && (last == st || last == st - 1)
    decreases |line| + 1 - st
  {
    var c := Cut(line, st, last, st, i);
    if c == -1 || st > |line| then [Slice(line, st, st + |line|)]
    else [Slice(line, st, c + 1)] + RowsFrom(line, c + 1, c, 1)
  }

  function Rows(line: string): seq<string> {
    if |line| > WIDTH then RowsFrom(line, 0, 0, 0) else [line]
  }

  function Concat(rows: seq<string>): string {
    if rows == [] then "" else rows[0] + Concat(rows[1..])
  }

  /** No character is lost or shown twice. */
  lemma {:induction false} RowsGiveLine(line: string)
    ensures Concat(Rows(line)) == line
  {
    if |line| > WIDTH {
      RowsFromGiveLine(line, 0, 0, 0);
    } else {
      assert [line][1..] == [];
    }
  }

  lemma {:induction false} RowsFromGiveLine(line: string, st: nat, last: int, i: nat)
    requires last <= st && (last == st || last == st - 1)
    ensures Concat(RowsFrom(line, st, last, i)) == Slice(line, st, st + |line|)
    decreases |line| + 1 - st
  {
    var c := Cut(line, st, last, st, i);
    var rows := RowsFrom(line, st, last, i);
    if c == -1 || st > |line| {
      assert rows[1..] == [];
    } else {
      RowsFromGiveLine(line, c + 1, c, 1);
      assert rows[1..] == RowsFrom(line, c + 1, c, 1);
    }
  }

  // ---------- What a row holds ----------

  /** The scan stands at j, after a row's first n visible characters. */
  predicate Scanned(line: string, st: nat, j: nat, n: int) {
    st <= j <= |line| && Whole(line[st..j]) && |Visible(line[st..j])| == n
  }

  lemma {:induction false} ScanCode(line: string, st: nat, j: nat, n: int)
    requires Scanned(line, st, j, n) && j < |line| && line[j] == CTRL_A
    ensures j + 2 <= |line| ==> Scanned(line, st, j + 2, n) && Visible(line[st..j + 2]) == Visible(line[st..j])
    ensures j + 1 == |line| ==> Visible(line[st..]) == Visible(line[st..j])
  {
    if j + 2 <= |line| {
      var code := line[j..j + 2];
      assert line[st..j + 2] == line[st..j] + code;
      assert code[2..] == "";
      VisibleConcat(line[st..j], code);
    } else {
      assert line[st..] == line[st..j] + [CTRL_A];
      VisibleConcat(line[st..j], [CTRL_A]);
    }
  }

  lemma {:induction false} ScanChar(line: string, st: nat, j: nat, n: int)
    requires Scanned(line, st, j, n) && j < |line| && line[j] != CTRL_A
    ensures Scanned(line, st, j + 1, n + 1) && Visible(line[st..j + 1]) == Visible(line[st..j]) + [line[j]]
  {
    assert line[st..j + 1] == line[st..j] + [line[j]];
    assert [line[j]][1..] == "";
    VisibleConcat(line[st..j], [line[j]]);
  }

  /** A row ends behind a space, or is as full as it gets without one. */
  predicate GoodRow(row: string, used: nat) {
    var v := Visible(row);
    && Whole(row) && 0 < |v| <= WIDTH + 1 - used
    && (v[|v| - 1] == ' ' || (' ' !in v && |v| >= WIDTH - used))
  }

  /** The last space seen in the row, or none; the very first row starts as if one were seen. */
  predicate LastSeen(line: string, st: nat, last: int, j: nat, used: nat) {
    if last == st - 1 then st <= j <= |line| && ' ' !in Visible(line[st..j])
    else if st == last == 0 then true
    else st <= last < j && last < |line| && GoodRow(line[st..last + 1], used)
  }

  lemma {:induction false} SeeSpace(line: string, st: nat, j: nat, n: nat, used: nat)
    requires Scanned(line, st, j, n) && j < |line| && line[j] == ' ' && n <= WIDTH - used
    ensures GoodRow(line[st..j + 1], used)
  {
    ScanChar(line, st, j, n);
  }

  lemma {:induction false} ForceBreak(line: string, st: nat, j: nat, used: nat)
    requires used <= 1 && Scanned(line, st, j, WIDTH - used) && ' ' !in Visible(line[st..j])
    requires j < |line| ==> line[j] != CTRL_A
    ensures GoodRow(Slice(line, st, j + 1), used)
  {
    if j < |line| {
      ScanChar(line, st, j, WIDTH - used);
    } else {
      assert Slice(line, st, j + 1) == line[st..j];
    }
  }

  lemma {:induction false} SeenAfter(line: string, st: nat, last: int, j: nat, n: int, used: nat)
    requires Scanned(line, st, j, n) && j < |line| && LastSeen(line, st, last, j, used)
    ensures line[j] == CTRL_A && j + 2 <= |line| ==> LastSeen(line, st, last, j + 2, used)
    ensures line[j] != CTRL_A && line[j] != ' ' ==> LastSeen(line, st, last, j + 1, used)
  {
    if line[j] == CTRL_A {
      ScanCode(line, st, j, n);
    } else {
      ScanChar(line, st, j, n);
    }
    hide GoodRow;
  }

  lemma {:induction false} SeenSpace(line: string, st: nat, j: nat, n: nat, used: nat)
    requires Scanned(line, st, j, n) && j < |line| && line[j] == ' ' && n <= WIDTH - used
    ensures LastSeen(line, st, j, j + 1, used) && GoodRow(Slice(line, st, j + 1), used)
  {
    SeeSpace(line, st, j, n, used);
    hide GoodRow;
  }

  /** The row a break makes is good; only the lone first character of a line may come about otherwise. */
  predicate Breaks(line: string, st: nat, last: int, used: nat, c: int)
    requires c == -1 || st <= c
  {
    if c == -1 then st <= |line| ==> |Visible(line[st..])| <= WIDTH - used
    else GoodRow(Slice(line, st, c + 1), used) || st == last == c == 0
  }

  lemma {:induction false} CutCode(line: string, st: nat, last: int, j: nat, i: nat)
    requires st <= j < |line| && last <= j && (last >= st || last == st - 1) && line[j] == CTRL_A
    ensures Cut(line, st, last, j, i) == Cut(line, st, last, j + 2, i)
  {
  }

  lemma {:induction false} CutOn(line: string, st: nat, last: int, j: nat, i: nat)
    requires st <= j <= |line| && last <= j && (last >= st || last == st - 1)
    requires (j < |line| ==> line[j] != CTRL_A) && i < WIDTH
    ensures Cut(line, st, last, j, i) == Cut(line, st, if j < |line| && line[j] == ' ' then j else last, j + 1, i + 1)
  {
  }

  lemma {:induction false} CutFull(line: string, st: nat, last: int, j: nat, i: nat)
    requires st <= j <= |line| && last <= j && (last >= st || last == st - 1)
    requires (j < |line| ==> line[j] != CTRL_A) && i >= WIDTH
    ensures Cut(line, st, last, j, i) == if (j < |line| && line[j] == ' ') || last == st - 1 then j else last
  {
  }

  lemma {:induction false} CutPast(line: string, st: nat, last: int, j: nat, i: nat)
    requires st <= j && last <= j && (last >= st || last == st - 1) && j > |line|
    ensures Cut(line, st, last, j, i) == -1
  {
  }

  lemma {:induction false} ScannedInside(line: string, st: nat, j: nat, n: int)
    requires Scanned(line, st, j, n)
    ensures st <= j <= |line|
  {
  }

  lemma {:induction false} RowFull(line: string, st: nat, last: int, j: nat, used: nat)
    requires st <= j <= |line| && last <= j && (last >= st || last == st - 1)
    requires used <= 1 && (j < |line| ==> line[j] != CTRL_A)
    requires Scanned(line, st, j, WIDTH - used) && LastSeen(line, st, last, j, used)
    ensures Breaks(line, st, last, used, Cut(line, st, last, j, WIDTH))
  {
    CutFull(line, st, last, j, WIDTH);
    hide Scanned, LastSeen, GoodRow, Cut, Breaks, Visible, Whole, Slice;
    if j < |line| && line[j] == ' ' {
      SeenSpace(line, st, j, WIDTH - used, used);
      GoodBreaks(line, st, last, used, j);
    } else {
      CutHere(line, st, last, j, used);
    }
  }

  /** The scan of a row stands at j, and `last` is the last space in it. */
  predicate Scanning(line: string, st: nat, last: int, j: nat, i: nat, used: nat)
    requires st <= j
  {
    used <= 1 && used <= i <= WIDTH && Scanned(line, st, j, i - used) && LastSeen(line, st, last, j, used)
  }

  lemma {:induction false} ScanOverCode(line: string, st: nat, last: int, j: nat, i: nat, used: nat)
    requires st <= j < |line| && last <= j && (last >= st || last == st - 1)
    requires Scanning(line, st, last, j, i, used) && line[j] == CTRL_A
    ensures j + 2 <= |line| ==> Scanning(line, st, last, j + 2, i, used)
    ensures j + 2 > |line| ==> Breaks(line, st, last, used, Cut(line, st, last, j, i))
    ensures Cut(line, st, last, j, i) == Cut(line, st, last, j + 2, i)
  {
    CutCode(line, st, last, j, i);
    hide Scanned, LastSeen, GoodRow, Cut, Breaks, Visible, Whole, Slice;
    if j + 2 <= |line| {
      ScanCode(line, st, j, i - used);
      SeenAfter(line, st, last, j, i - used, used);
    } else {
      CutEnds(line, st, last, j, j + 2, i, used);
    }
  }

  lemma {:induction false} ScanOverSpace(line: string, st: nat, last: int, j: nat, i: nat, used: nat)
    requires st <= j < |line| && last <= j && (last >= st || last == st - 1) && i < WIDTH
    requires Scanning(line, st, last, j, i, used) && line[j] == ' '
    ensures Scanning(line, st, j, j + 1, i + 1, used) && GoodRow(Slice(line, st, j + 1), used)
    ensures Cut(line, st, last, j, i) == Cut(line, st, j, j + 1, i + 1)
  {
    CutOn(line, st, last, j, i);
    hide Scanned, LastSeen, GoodRow, Cut, Visible, Whole, Slice;
    ScanChar(line, st, j, i - used);
    SeenSpace(line, st, j, i - used, used);
  }

  lemma {:induction false} ScanOverChar(line: string, st: nat, last: int, j: nat, i: nat, used: nat)
    requires st <= j < |line| && last <= j && (last >= st || last == st - 1) && i < WIDTH
    requires Scanning(line, st, last, j, i, used) && line[j] != ' ' && line[j] != CTRL_A
    ensures Scanning(line, st, last, j + 1, i + 1, used)
    ensures Cut(line, st, last, j, i) == Cut(line, st, last, j + 1, i + 1)
  {
    CutOn(line, st, last, j, i);
    hide Scanned, LastSeen, GoodRow, Cut, Visible, Whole, Slice;
    ScanChar(line, st, j, i - used);
    SeenAfter(line, st, last, j, i - used, used);
  }

  lemma {:induction false} ScanEnds(line: string, st: nat, last: int, j: nat, i: nat, used: nat)
    requires st <= j <= |line| && last <= j && (last >= st || last == st - 1)
    requires Scanning(line, st, last, j, i, used) && (j < |line| ==> line[j] != CTRL_A) && (i == WIDTH || j == |line|)
    ensures Breaks(line, st, last, used, Cut(line, st, last, j, i))
  {
    if i < WIDTH { CutOn(line, st, last, j, i); }
    hide Scanned, LastSeen, GoodRow, Cut, Breaks, Visible, Whole, Slice;
    if i == WIDTH {
      RowFull(line, st, last, j, used);
    } else {
      CutEnds(line, st, last, j, j + 1, i + 1, used);
    }
  }

  lemma {:induction false} ScanningInside(line: string, st: nat, last: int, j: nat, i: nat, used: nat)
    requires st <= j && Scanning(line, st, last, j, i, used)
    ensures j <= |line| && i <= WIDTH
  {
  }

  lemma {:induction false} CutRow(line: string, st: nat, last: int, j: nat, i: nat, used: nat)
    requires st <= j && last <= j && (last >= st || last == st - 1) && Scanning(line, st, last, j, i, used)
    ensures Breaks(line, st, last, used, Cut(line, st, last, j, i))
    decreases |line| + 1 - j
  {
    hide Scanning, GoodRow, Cut, Breaks, Slice;
    ScanningInside(line, st, last, j, i, used);
    if j < |line| && line[j] == CTRL_A {
      ScanOverCode(line, st, last, j, i, used);
      if j + 2 <= |line| { CutRow(line, st, last, j + 2, i, used); }
    } else if i == WIDTH || j == |line| {
      ScanEnds(line, st, last, j, i, used);
    } else if line[j] == ' ' {
      ScanOverSpace(line, st, last, j, i, used);
      CutRow(line, st, j, j + 1, i + 1, used);
      ForgetLast(line, st, last, j, used, Cut(line, st, j, j + 1, i + 1));
    } else {
      ScanOverChar(line, st, last, j, i, used);
      CutRow(line, st, last, j + 1, i + 1, used);
    }
  }

  lemma {:induction false} GoodBreaks(line: string, st: nat, last: int, used: nat, c: nat)
    requires st <= c && GoodRow(Slice(line, st, c + 1), used)
    ensures Breaks(line, st, last, used, c)
  {
    hide GoodRow;
  }

  lemma {:induction false} ForgetLast(line: string, st: nat, last: int, j: nat, used: nat, c: int)
    requires c == -1 || st <= c
    requires j < |line| && line[j] == ' ' && st <= j
    requires GoodRow(Slice(line, st, j + 1), used)
    requires Breaks(line, st, j, used, c)
    ensures Breaks(line, st, last, used, c)
  {
    hide GoodRow;
  }

  lemma {:induction false} CutEnds(line: string, st: nat, last: int, j: nat, next: nat, i: nat, used: nat)
    requires st <= j < next && last <= j && (last >= st || last == st - 1) && next > |line|
    requires used <= i <= WIDTH + 1
    requires Scanned(line, st, j, i - used - if j == |line| then 1 else 0) && (j == |line| || i <= WIDTH)
    requires j == |line| || (j + 1 == |line| && line[j] == CTRL_A)
    ensures Breaks(line, st, last, used, Cut(line, st, last, next, i))
  {
    CutPast(line, st, last, next, i);
    RestFits(line, st, j, i - used - if j == |line| then 1 else 0, used);
  }

  lemma {:induction false} RestFits(line: string, st: nat, j: nat, n: int, used: nat)
    requires Scanned(line, st, j, n) && n <= WIDTH - used
    requires j == |line| || (j + 1 == |line| && line[j] == CTRL_A)
    ensures |Visible(line[st..])| <= WIDTH - used
  {
    if j == |line| { assert line[st..] == line[st..j]; } else { ScanCode(line, st, j, n); }
  }

  lemma {:induction false} CutHere(line: string, st: nat, last: int, j: nat, used: nat)
    requires st <= j && last <= j && (last >= st || last == st - 1) && used <= 1
    requires Scanned(line, st, j, WIDTH - used) && LastSeen(line, st, last, j, used)
    requires j < |line| ==> line[j] != CTRL_A
    ensures Breaks(line, st, last, used, if last == st - 1 then j else last)
  {
    if last == st - 1 { ForceBreak(line, st, j, used); }
    hide GoodRow;
  }

  /** All rows but the last end at a space, or are full and without one; the first may also be a lone character. */
  predicate GoodRows(rows: seq<string>, used: nat, lone: bool) {
    if rows == [] then false
    else if |rows| == 1 then |Visible(rows[0])| <= WIDTH
    else (GoodRow(rows[0], used) || (lone && |rows[0]| == 1)) && GoodRows(rows[1..], 1, false)
  }

  lemma {:induction false} RowsFromGood(line: string, st: nat, last: int, i: nat)
    requires st <= |line| + 1 && i <= 1
    requires (if st == 0 then last == 0 && i == 0 && line != "" else last == st - 1 && i == 1)
    ensures GoodRows(RowsFrom(line, st, last, i), i, st == 0)
    decreases |line| + 1 - st
  {
    if st <= |line| {
      assert line[st..st] == "";
      CutRow(line, st, last, st, i, i);
      var c := Cut(line, st, last, st, i);
      if c == -1 {
        LastRow(line, st, last, i);
      } else {
        RowsFromGood(line, c + 1, c, 1);
        FirstRow(line, st, last, i, c);
      }
    } else {
      LastRow(line, st, last, i);
    }
  }

  lemma {:induction false} LastRow(line: string, st: nat, last: int, i: nat)
    requires last <= st && (last == st || last == st - 1)
    requires st <= |line| ==> Cut(line, st, last, st, i) == -1 && |Visible(line[st..])| <= WIDTH
    ensures GoodRows(RowsFrom(line, st, last, i), i, st == 0)
  {
    var rows := RowsFrom(line, st, last, i);
    assert rows == [Slice(line, st, st + |line|)];
    if st <= |line| { assert rows[0] == line[st..]; } else { assert rows[0] == ""; }
  }

  lemma {:induction false} FirstRow(line: string, st: nat, last: int, i: nat, c: nat)
    requires st <= |line| && line != "" && last <= st && (last == st || last == st - 1)
    requires c == Cut(line, st, last, st, i)
    requires GoodRow(Slice(line, st, c + 1), i) || st == last == c == 0
    requires GoodRows(RowsFrom(line, c + 1, c, 1), 1, false)
    ensures GoodRows(RowsFrom(line, st, last, i), i, st == 0)
  {
    hide GoodRow;
    var rest := RowsFrom(line, c + 1, c, 1);
    var rows := RowsFrom(line, st, last, i);
    assert rows == [Slice(line, st, c + 1)] + rest;
    assert rows[1..] == rest;
  }

  /** Every row fits, and words are not broken where a space could be used - but for the first row. */
  lemma {:induction false} RowsFit(line: string)
    ensures GoodRows(Rows(line), 0, true)
    ensures forall k :: 0 <= k < |Rows(line)| ==> |Visible(Rows(line)[k])| <= 79
  {
    if |line| > WIDTH {
      RowsFromGood(line, 0, 0, 0);
    } else {
      VisibleShorter(line);
    }
    RowWidths(Rows(line), 0, true);
  }

  lemma {:induction false} VisibleShorter(s: string)
    ensures |Visible(s)| <= |s|
    decreases |s|
  {
    if s != "" {
      if s[0] != CTRL_A { VisibleShorter(s[1..]); } else if |s| >= 2 { VisibleShorter(s[2..]); }
    }
  }

  lemma {:induction false} RowWidths(rows: seq<string>, used: nat, lone: bool)
    requires GoodRows(rows, used, lone)
    ensures forall k :: 0 <= k < |rows| ==> |Visible(rows[k])| <= WIDTH + 1
  {
    if |rows| > 1 {
      RowWidths(rows[1..], 1, false);
      VisibleShorter(rows[0]);
      forall k | 0 <= k < |rows| ensures |Visible(rows[k])| <= WIDTH + 1 {
        if k > 0 { assert rows[k] == rows[1..][k - 1]; }
      }
    }
  }

  // ---------- The first row, and whether codes stay whole ----------

  /** More visible text than fits a row. */
  predicate Fills(s: string, i: nat) {
    i + |Visible(s)| > WIDTH || (i + |Visible(s)| == WIDTH && Whole(s))
  }

  function Head(s: string, n: nat): string {
    if n < |s| then s[..n] else s
  }

  /** No space to break at: none in the first row's text, but for its first character. */
  predicate Crowded(line: string)
    requires line != ""
  {
    Fills(line, 0)
    && ' ' !in if line[0] == CTRL_A then Head(Visible(line), WIDTH + 1) else Head(Visible(line[1..]), WIDTH)
  }

  /** No space from j on to the end of the row. */
  predicate NoSpace(line: string, j: nat, i: nat)
    requires j <= |line| && i <= WIDTH
  {
    ' ' !in Head(Visible(line[j..]), WIDTH + 1 - i)
  }

  lemma {:induction false} NoSpaceStep(line: string, j: nat, i: nat)
    requires j <= |line| && i <= WIDTH
    ensures j + 1 >= |line| && (j < |line| ==> line[j] == CTRL_A) ==> NoSpace(line, j, i)
    ensures j + 2 <= |line| && line[j] == CTRL_A ==> NoSpace(line, j, i) == NoSpace(line, j + 2, i)
    ensures j < |line| && line[j] != CTRL_A && i < WIDTH ==>
      NoSpace(line, j, i) == (line[j] != ' ' && NoSpace(line, j + 1, i + 1))
    ensures j < |line| && line[j] != CTRL_A && i == WIDTH ==> NoSpace(line, j, i) == (line[j] != ' ')
  {
    FillsStep(line, j, i);
    if j < |line| && line[j] != CTRL_A { HeadCons(line[j], Visible(line[j + 1..]), WIDTH + 1 - i); }
    hide Visible;
  }

  lemma {:induction false} CutScan(line: string, st: nat, last: int, j: nat, i: nat)
    requires st <= last < j <= |line| && i <= WIDTH
    ensures Cut(line, st, last, j, i) != -1 <==> Fills(line[j..], i)
    ensures Cut(line, st, last, j, i) == last <==> Fills(line[j..], i) && NoSpace(line, j, i)
    decreases |line| - j
  {
    hide Cut, Fills, Visible, Whole, Head, NoSpace;
    if j < |line| && line[j] == CTRL_A {
      CutCode(line, st, last, j, i);
      FillsStep(line, j, i);
      NoSpaceStep(line, j, i);
      if j + 2 <= |line| { CutScan(line, st, last, j + 2, i); } else { CutPast(line, st, last, j + 2, i); }
    } else if i == WIDTH {
      CutFull(line, st, last, j, i);
      FillsStep(line, j, i);
      NoSpaceStep(line, j, i);
    } else if j == |line| {
      CutOn(line, st, last, j, i);
      CutPast(line, st, last, j + 1, i + 1);
      FillsStep(line, j, i);
    } else {
      CutOn(line, st, last, j, i);
      FillsStep(line, j, i);
      NoSpaceStep(line, j, i);
      CutScan(line, st, if line[j] == ' ' then j else last, j + 1, i + 1);
      if line[j] == ' ' { CutAtLeast(line, st, j, j + 1, i + 1); }
    }
  }

  lemma {:induction false} FillsStep(line: string, j: nat, i: nat)
    requires j <= |line| && i <= WIDTH
    ensures j == |line| ==> (Fills(line[j..], i) <==> i == WIDTH) && Visible(line[j..]) == ""
    ensures j + 1 == |line| && line[j] == CTRL_A ==> !Fills(line[j..], i)
    ensures j + 2 <= |line| && line[j] == CTRL_A ==>
      Fills(line[j..], i) == Fills(line[j + 2..], i) && Visible(line[j..]) == Visible(line[j + 2..])
    ensures j < |line| && line[j] != CTRL_A ==> Visible(line[j..]) == [line[j]] + Visible(line[j + 1..])
    ensures j < |line| && line[j] != CTRL_A ==> (Fills(line[j..], i) <==> i == WIDTH || Fills(line[j + 1..], i + 1))
  {
    if j < |line| {
      if line[j] == CTRL_A {
        if j + 2 <= |line| { assert line[j..][2..] == line[j + 2..]; }
      } else {
        assert line[j..][1..] == line[j + 1..];
      }
    }
  }

  lemma {:induction false} HeadCons(c: char, s: string, n: nat)
    requires n > 0
    ensures ' ' in Head([c] + s, n) <==> c == ' ' || ' ' in Head(s, n - 1)
  {
    assert Head([c] + s, n) == [c] + Head(s, n - 1);
  }

  lemma {:induction false} CutAtLeast(line: string, st: nat, last: int, j: nat, i: nat)
    requires st <= last < j
    ensures Cut(line, st, last, j, i) == -1 || Cut(line, st, last, j, i) >= last
    decreases |line| + 1 - j
  {
    if j <= |line| {
      if j < |line| && line[j] == CTRL_A {
        CutAtLeast(line, st, last, j + 2, i);
      } else if i < WIDTH {
        CutAtLeast(line, st, if j < |line| && line[j] == ' ' then j else last, j + 1, i + 1);
      }
    }
  }

  // ---------- How much a row holds ----------

  /** A row of text s, of which `used` columns are taken: what is behind it did not fit, and had no space ahead of the
      last column. */
  predicate FullRow(row: string, behind: string, used: nat) {
    && used + |Visible(row + behind)| >= 78
    && var n := 79 - used - |Visible(row)|; n > 0 ==> ' ' !in Head(Visible(behind), n)
  }

  /** Every row but the last is full, in the first of which all columns are free, and in the others all but one; the
      first one may be a lone character. */
  predicate FullRows(rows: seq<string>, first: bool) {
    |rows| <= 1
    || ((FullRow(rows[0], Concat(rows[1..]), if first then 0 else 1) || (first && |rows[0]| == 1))
        && FullRows(rows[1..], false))
  }

  lemma {:induction false} CutIfFull(line: string, st: nat, last: int, j: nat, i: nat)
    requires st <= j <= |line| && last <= j && (last >= st || last == st - 1) && i <= WIDTH
    requires Cut(line, st, last, j, i) != -1
    ensures i + |Visible(line[j..])| >= 78
    decreases |line| - j
  {
    hide Cut, Fills, Visible, Whole;
    FillsStep(line, j, i);
    if j < |line| && line[j] == CTRL_A {
      CutCode(line, st, last, j, i);
      if j + 2 <= |line| { CutIfFull(line, st, last, j + 2, i); } else { CutPast(line, st, last, j + 2, i); }
    } else if i < WIDTH {
      CutOn(line, st, last, j, i);
      if j == |line| {
        CutPast(line, st, last, j + 1, i + 1);
      } else {
        CutIfFull(line, st, if line[j] == ' ' then j else last, j + 1, i + 1);
      }
    }
  }

  predicate NoSpaceBehind(line: string, st: nat, c: nat, used: nat) {
    st <= c &&
    var n := 79 - used - |Visible(Slice(line, st, c + 1))|;
    n > 0 ==> ' ' !in Head(Visible(Slice(line, c + 1, c + 1 + |line|)), n)
  }

  /** The scan stands behind the space at c, and breaks there after all. */
  lemma {:induction false} BreaksBehind(line: string, st: nat, c: nat, i: nat, used: nat)
    requires c < |line| && st <= c && Scanned(line, st, c + 1, i - used) && used <= i <= WIDTH
    requires Cut(line, st, c, c + 1, i) == c
    ensures NoSpaceBehind(line, st, c, used)
  {
    CutScan(line, st, c, c + 1, i);
    assert Slice(line, st, c + 1) == line[st..c + 1] && Slice(line, c + 1, c + 1 + |line|) == line[c + 1..];
    hide Visible, Head, Whole;
  }

  lemma {:induction false} NothingBehind(line: string, st: nat, j: nat, used: nat)
    requires st <= j <= |line| && used <= 1 && Scanned(line, st, j, WIDTH - used) && (j < |line| ==> line[j] != CTRL_A)
    ensures NoSpaceBehind(line, st, j, used)
  {
    if j < |line| {
      ScanChar(line, st, j, WIDTH - used);
      assert Slice(line, st, j + 1) == line[st..j + 1];
    } else {
      assert Slice(line, j + 1, j + 1 + |line|) == "";
    }
  }

  lemma {:induction false} CutNoSpace(line: string, st: nat, last: int, j: nat, i: nat, used: nat)
    requires st <= j && last <= j && (last >= st || last == st - 1) && Scanning(line, st, last, j, i, used)
    ensures var c := Cut(line, st, last, j, i); c != -1 && c != last ==> NoSpaceBehind(line, st, c, used)
    decreases |line| + 1 - j
  {
    hide Scanning, GoodRow, Cut, Slice, NoSpaceBehind;
    ScanningInside(line, st, last, j, i, used);
    if j < |line| && line[j] == CTRL_A {
      ScanOverCode(line, st, last, j, i, used);
      if j + 2 <= |line| { CutNoSpace(line, st, last, j + 2, i, used); } else { CutPast(line, st, last, j + 2, i); }
    } else if i == WIDTH {
      CutFull(line, st, last, j, i);
      ScanningIs(line, st, last, j, i, used);
      NothingBehind(line, st, j, used);
    } else if j == |line| {
      CutOn(line, st, last, j, i);
      CutPast(line, st, last, j + 1, i + 1);
    } else if line[j] == ' ' {
      ScanOverSpace(line, st, last, j, i, used);
      CutNoSpace(line, st, j, j + 1, i + 1, used);
      ScanningIs(line, st, j, j + 1, i + 1, used);
      if Cut(line, st, j, j + 1, i + 1) == j { BreaksBehind(line, st, j, i + 1, used); }
    } else {
      ScanOverChar(line, st, last, j, i, used);
      CutNoSpace(line, st, last, j + 1, i + 1, used);
    }
  }

  lemma {:induction false} ScanningIs(line: string, st: nat, last: int, j: nat, i: nat, used: nat)
    requires st <= j && Scanning(line, st, last, j, i, used)
    ensures used <= 1 && used <= i && Scanned(line, st, j, i - used)
  {
  }

  lemma {:induction false} RowsFromFull(line: string, st: nat, last: int, i: nat)
    requires st <= |line| + 1 && i <= 1
    requires if st == 0 then last == 0 && i == 0 && line != "" else last == st - 1 && i == 1
    ensures FullRows(RowsFrom(line, st, last, i), st == 0)
    decreases |line| + 1 - st
  {
    hide Cut, FullRow, FullRows, RowsFrom, Slice, Concat;
    var c := Cut(line, st, last, st, i);
    OneMoreRow(line, st, last, i);
    if st > |line| || c == -1 {
      FullRowsOne(Slice(line, st, st + |line|), st == 0);
    } else {
      RowsFromFull(line, c + 1, c, 1);
      RowFullHere(line, st, last, i, c);
      RowsFromGiveLine(line, c + 1, c, 1);
      FullRowsCons(Slice(line, st, c + 1), RowsFrom(line, c + 1, c, 1), st == 0);
    }
  }

  lemma {:induction false} OneMoreRow(line: string, st: nat, last: int, i: nat)
    requires last <= st && (last == st || last == st - 1)
    ensures var c := Cut(line, st, last, st, i);
      RowsFrom(line, st, last, i)
      == if c == -1 || st > |line| then [Slice(line, st, st + |line|)]
         else [Slice(line, st, c + 1)] + RowsFrom(line, c + 1, c, 1)
  {
    hide Cut, Slice;
  }

  lemma {:induction false} FullRowsOne(row: string, first: bool)
    ensures FullRows([row], first)
  {
  }

  lemma {:induction false} FullRowsCons(row: string, rest: seq<string>, first: bool)
    requires FullRow(row, Concat(rest), if first then 0 else 1) || (first && |row| == 1)
    requires FullRows(rest, false)
    ensures FullRows([row] + rest, first)
  {
    hide FullRow, Concat;
    assert ([row] + rest)[1..] == rest;
  }

  lemma {:induction false} RowFullHere(line: string, st: nat, last: int, i: nat, c: nat)
    requires st <= |line| && i <= 1
    requires if st == 0 then last == 0 && i == 0 && line != "" else last == st - 1 && i == 1
    requires c == Cut(line, st, last, st, i) && st <= c
    ensures FullRow(Slice(line, st, c + 1), Slice(line, c + 1, c + 1 + |line|), i)
         || (st == 0 && |Slice(line, st, c + 1)| == 1)
  {
    hide Cut, Visible, Head, Scanning, Slice, NoSpaceBehind, FullRow;
    ScanStarts(line, st, last, i);
    CutNoSpace(line, st, last, st, i, i);
    CutIfFull(line, st, last, st, i);
    TwoSlices(line, st, c);
    if c != last { FullBehind(line, st, c, i); }
  }

  lemma {:induction false} ScanStarts(line: string, st: nat, last: int, i: nat)
    requires st <= |line| && i <= 1
    requires if st == 0 then last == 0 && i == 0 && line != "" else last == st - 1 && i == 1
    ensures Scanning(line, st, last, st, i, i)
  {
    assert line[st..st] == "";
  }

  lemma {:induction false} TwoSlices(line: string, st: nat, c: nat)
    requires st <= c && st <= |line|
    ensures Slice(line, st, c + 1) + Slice(line, c + 1, c + 1 + |line|) == line[st..]
    ensures line != "" && st == c == 0 ==> |Slice(line, st, c + 1)| == 1
  {
  }

  lemma {:induction false} FullBehind(line: string, st: nat, c: nat, i: nat)
    requires st <= c && st <= |line| && NoSpaceBehind(line, st, c, i) && i + |Visible(line[st..])| >= 78
    requires Slice(line, st, c + 1) + Slice(line, c + 1, c + 1 + |line|) == line[st..]
    ensures FullRow(Slice(line, st, c + 1), Slice(line, c + 1, c + 1 + |line|), i)
  {
    hide Visible, Head, Slice;
  }

  /** A line of up to 78 characters is one row. Of a longer one no row is broken early: all that is behind the break did
      not fit, nor would have the next word - but for the lone first character. */
  lemma {:induction false} RowsAreFull(line: string)
    ensures |line| <= 78 ==> Rows(line) == [line]
    ensures FullRows(Rows(line), true)
  {
    if |line| > WIDTH { RowsFromFull(line, 0, 0, 0); }
    hide FullRow;
  }

  /** The first character gets a row of its own exactly when there is no space to break at behind it. */
  lemma {:induction false} LoneCharacter(line: string)
    requires |line| > WIDTH
    ensures Cut(line, 0, 0, 0, 0) == 0 <==> Crowded(line)
    ensures Crowded(line) ==> Rows(line) == [line[..1]] + RowsFrom(line, 1, 0, 1)
  {
    assert line[0..] == line;
    if line[0] == CTRL_A {
      CutScan(line, 0, 0, 2, 0);
    } else {
      CutScan(line, 0, 0, 1, 1);
    }
  }

  function AllVisible(rows: seq<string>): string {
    if rows == [] then "" else Visible(rows[0]) + AllVisible(rows[1..])
  }

  lemma {:induction false} AllVisibleCons(row: string, rows: seq<string>)
    ensures AllVisible([row] + rows) == Visible(row) + AllVisible(rows)
  {
    assert ([row] + rows)[1..] == rows;
  }

  lemma {:induction false} RowsFromVisible(line: string, st: nat, last: int, i: nat)
    requires last <= st <= |line| + 1 && i <= 1
    requires (if st == 0 then last == 0 && i == 0 && line != "" else last == st - 1 && i == 1)
    requires st == 0 ==> Cut(line, 0, 0, 0, 0) != 0 || line[0] != CTRL_A
    ensures AllVisible(RowsFrom(line, st, last, i)) == Visible(Slice(line, st, st + |line|))
    decreases |line| + 1 - st
  {
    var c := Cut(line, st, last, st, i);
    var rows := RowsFrom(line, st, last, i);
    if c == -1 || st > |line| {
      assert rows == [Slice(line, st, st + |line|)];
      hide *;
      OneVisible(Slice(line, st, st + |line|));
    } else {
      assert rows == [Slice(line, st, c + 1)] + RowsFrom(line, c + 1, c, 1);
      RowIsWhole(line, st, last, i, c);
      hide *;
      RowsFromVisible(line, c + 1, c, 1);
      RowThenRest(line, st, c);
      AllVisibleCons(Slice(line, st, c + 1), RowsFrom(line, c + 1, c, 1));
    }
  }

  lemma {:induction false} OneVisible(row: string)
    ensures AllVisible([row]) == Visible(row)
  {
    assert AllVisible([row][1..]) == "";
  }

  lemma {:induction false} RowIsWhole(line: string, st: nat, last: int, i: nat, c: nat)
    requires last <= st <= |line| && i <= 1
    requires (if st == 0 then last == 0 && i == 0 && line != "" else last == st - 1 && i == 1)
    requires st == 0 ==> Cut(line, 0, 0, 0, 0) != 0 || line[0] != CTRL_A
    requires c == Cut(line, st, last, st, i) && st <= c
    ensures Whole(Slice(line, st, c + 1))
  {
    assert line[st..st] == "";
    CutRow(line, st, last, st, i, i);
    if st == last == c == 0 {
      var row := Slice(line, st, c + 1);
      assert row == [line[0]] && row[1..] == "";
    }
  }

  lemma {:induction false} RowThenRest(line: string, st: nat, c: nat)
    requires st <= c <= |line| && Whole(Slice(line, st, c + 1))
    ensures Visible(Slice(line, st, st + |line|))
         == Visible(Slice(line, st, c + 1)) + Visible(Slice(line, c + 1, c + 1 + |line|))
  {
    assert Slice(line, st, st + |line|) == Slice(line, st, c + 1) + Slice(line, c + 1, c + 1 + |line|);
    VisibleConcat(Slice(line, st, c + 1), Slice(line, c + 1, c + 1 + |line|));
  }

  lemma {:induction false} ShiftedCodes(s: string)
    requires s != "" && s[0] == CTRL_A && Visible(s) != ""
    ensures |Visible(s)| != |Visible(s[1..])|
    decreases |s|
  {
    var rest := s[2..];
    assert s[1..][1..] == rest;
    if s[1] == CTRL_A {
      assert s[1..][2..] == rest[1..];
      if rest[0] == CTRL_A { ShiftedCodes(rest); }
    }
  }

  /** The rows show the text the line shows, unless the line begins with a colour code and has no space to break at. */
  lemma {:induction false} CodesStayWhole(line: string)
    ensures AllVisible(Rows(line)) == Visible(line) <==> !(|line| > 78 && line[0] == '\U{1}' && Crowded(line))
  {
    if |line| <= WIDTH {
      AllVisibleCons(line, []);
      assert [line] + [] == [line];
    } else {
      assert Slice(line, 0, 0 + |line|) == line;
      if line[0] == CTRL_A { LoneCharacter(line); }
      if line[0] == CTRL_A && Crowded(line) {
        AllVisibleCons(line[..1], RowsFrom(line, 1, 0, 1));
        RowsFromVisible(line, 1, 0, 1);
        assert Slice(line, 1, 1 + |line|) == line[1..];
        assert Visible(line[..1]) == "";
        ShiftedCodes(line);
      } else {
        RowsFromVisible(line, 0, 0, 0);
      }
    }
  }
}
