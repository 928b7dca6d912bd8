/** Lines of text whose rows do not come out as they should:
    one without a space, and one with a colour code behind a break. */
module WrapExamples {
  import opened WordWrap
  import opened WrapColours
  import opened WrapPaint

  // ---------- A line without a space ----------

  function Unbroken(): string {
    [CTRL_A, 'R'] + seq(88, _ => 'x')
  }

  lemma {:induction false} PlainText(s: string)
    requires CTRL_A !in s
    ensures Visible(s) == s && Whole(s)
  {
    if s != "" {
      assert s == [s[0]] + s[1..];
      PlainText(s[1..]);
    }
  }

  /** Ninety characters that begin with a colour code: the first row is the lone Ctrl-A, and the code's letter shows. */
  lemma {:induction false} UnbrokenExample()
    ensures Rows(Unbroken())[0] == [CTRL_A] && |Rows(Unbroken())| > 1
    ensures AllVisible(Rows(Unbroken())) != Visible(Unbroken())
  {
    var line := Unbroken();
    assert |line| == 90 && line[0] == CTRL_A && line[..1] == [CTRL_A];
    UnbrokenCrowded();
    hide Unbroken, Rows, Crowded, Visible;
    LoneCharacter(line);
    CodesStayWhole(line);
    AsManyStops(line, 1, 0, 1);
  }

  lemma {:induction false} UnbrokenCrowded()
    ensures Crowded(Unbroken())
  {
    var line := Unbroken();
    var text := seq(88, _ => 'x');
    assert line[2..] == text;
    PlainText(text);
    assert Visible(line) == text;
    hide Visible;
    assert Head(text, WIDTH + 1) == text[..WIDTH + 1];
  }

  // ---------- A line with a code behind its break ----------

  /** The second row is the word `b`, a code for red, and more text. */
  function TwoRows(): string {
    seq(76, _ => 'a') + [' ', 'b', CTRL_A, 'R', 'c', 'c']
  }

  lemma {:induction false} RunOn(line: string, st: nat, last: int, j: nat, i: nat, n: nat)
    requires st <= j && last <= j && (last >= st || last == st - 1) && j + n <= |line| && i + n <= WIDTH
    requires forall k :: j <= k < j + n ==> line[k] != ' ' && line[k] != CTRL_A
    ensures Cut(line, st, last, j, i) == Cut(line, st, last, j + n, i + n)
    ensures BreakAt(line, st, last, j, i) == BreakAt(line, st, last, j + n, i + n)
    decreases n
  {
    if n > 0 {
      RunOn(line, st, last, j + 1, i + 1, n - 1);
      CutOn(line, st, last, j, i);
      hide Cut;
    }
  }

  lemma {:induction false} SpaceNext(line: string, st: nat, last: int, j: nat, i: nat)
    requires st <= j < |line| && last <= j && (last >= st || last == st - 1) && i < WIDTH && line[j] == ' '
    ensures Cut(line, st, last, j, i) == Cut(line, st, j, j + 1, i + 1)
    ensures BreakAt(line, st, last, j, i) == BreakAt(line, st, j, j + 1, i + 1)
  {
    CutOn(line, st, last, j, i);
    hide Cut;
  }

  lemma {:induction false} CodeNext(line: string, st: nat, last: int, j: nat, i: nat)
    requires st <= j < |line| && last <= j && (last >= st || last == st - 1) && line[j] == CTRL_A
    ensures Cut(line, st, last, j, i) == Cut(line, st, last, j + 2, i)
    ensures BreakAt(line, st, last, j, i) == BreakAt(line, st, last, j + 2, i)
  {
    CutCode(line, st, last, j, i);
    hide Cut;
  }

  lemma {:induction false} TextIs()
    ensures var line := TwoRows();
            |line| == 82 && line[76] == ' ' && line[77] == 'b' && line[78] == CTRL_A && line[80] == 'c'
              && line[81] == 'c'
    ensures forall k :: 0 <= k < 76 ==> TwoRows()[k] == 'a'
  {
  }

  lemma {:induction false} TwoRowsBreak()
    ensures |TwoRows()| == 82 && Stops(TwoRows()) == [Stop(77, 80)]
  {
    var line := TwoRows();
    TextIs();
    hide TwoRows, Cut, BreakAt;
    FirstRowBreaks(line);
    LastRowEnds(line);
  }

  lemma {:induction false} FirstRowBreaks(line: string)
    requires |line| == 82 && line[76] == ' ' && line[77] == 'b' && line[78] == CTRL_A && line[80] == 'c'
    requires forall k :: 0 <= k < 76 ==> line[k] == 'a'
    ensures Cut(line, 0, 0, 0, 0) == 76 && BreakAt(line, 0, 0, 0, 0) == 80
  {
    hide Cut;
    RunOn(line, 0, 0, 0, 0, 76);
    SpaceNext(line, 0, 0, 76, 76);
    RunOn(line, 0, 76, 77, 77, 1);
    CodeNext(line, 0, 76, 78, 78);
    CutFull(line, 0, 76, 80, 78);
  }

  lemma {:induction false} LastRowEnds(line: string)
    requires |line| == 82 && line[77] == 'b' && line[78] == CTRL_A && line[80] == 'c' && line[81] == 'c'
    ensures Cut(line, 77, 76, 77, 1) == -1
  {
    hide Cut;
    RunOn(line, 77, 76, 77, 1, 1);
    CodeNext(line, 77, 76, 78, 2);
    RunOn(line, 77, 76, 80, 2, 2);
    CutOn(line, 77, 76, 82, 4);
    CutPast(line, 77, 76, 83, 5);
  }

  /** The screen keeps the first row with the code that was not yet printed. */
  lemma {:induction false} KeptExample()
    ensures |Prefixes(TwoRows())| == |Rows(TwoRows())|
    ensures WithCodes(Later(Prefixes(TwoRows())), Rows(TwoRows())) != WithCodes(Prefixes(TwoRows()), Rows(TwoRows()))
  {
    TwoRowsBreak();
    KeptAsPrinted(TwoRows());
    assert TwoRows()[78] == CTRL_A;
    assert Upto(TwoRows(), 80)[78] == CTRL_A;
  }

  /** The `b` ahead of the code for red shows in red. */
  lemma {:induction false} ColourExample(fx: char -> Colour, start: Colour, f: nat)
    requires f in fx('R') && (f in start ==> start[f] != fx('R')[f])
    ensures |Prefixes(TwoRows())| == |Rows(TwoRows())| && ShowsIn(TwoRows(), 1, 0)
    ensures ShownColour(fx, TwoRows(), start, 1, 0) != LineColour(fx, TwoRows(), start, 77)
  {
    var line := TwoRows();
    TwoRowsBreak();
    SecondRow();
    NothingPainted(fx, Upto(line, 77)) by { assert forall k :: 0 <= k < 77 ==> line[k] != CTRL_A; }
    ColoursAhead(fx, line, start, 1, 0);
    var ahead := Between(line, 77, 80);
    assert ahead == ['b', CTRL_A, 'R'];
    assert ahead[1..] == [CTRL_A, 'R'] && [CTRL_A, 'R'][2..] == "";
    assert Paint(fx, ahead) == fx('R') + map[];
    assert Between(line, 77, 77) == "";
    hide Paint;
  }

  lemma {:induction false} SecondRow()
    ensures ShowsIn(TwoRows(), 1, 0) && CodesWhole(TwoRows())
  {
    var line := TwoRows();
    assert line[0] == 'a';
    TwoRowsBreak();
    AsManyPrefixes(line);
    assert RowsFrom(line, 0, 0, 0) == [Slice(line, 0, 77)] + RowsFrom(line, 77, 76, 1);
    var row := Rows(line)[1];
    assert row == Slice(line, 77, 77 + 82);
    assert row[0] == 'b' && row[..0] == "";
  }
}
