/** The editor's global array of `Line` objects, and the loops that re-flow it in place. */
module Editor {
  import opened Characters
  import opened EditorText
  import opened Reflow
  import Filling

  class Line {
    var text: string
    var attr: seq<Attr>
    var hardcr: bool
    var kludged: bool

    constructor ()
      ensures text == "" && attr == [] && !hardcr && !kludged
    {
      text, attr, hardcr, kludged := "", [], false, false;
    }

    function Value(): Row
      requires |text| == |attr|
      reads this
    {
      Row(text, attr, hardcr, kludged)
    }
  }

  function Above(v: seq<Row>, l: nat): seq<Row> {
    if l <= |v| then v[..l] else v
  }

  function Below(v: seq<Row>, l: nat): seq<Row> {
    if l <= |v| then v[l..] else []
  }

  /** The buffer v with the rows from l on wrapped. */
  function WrapFrom(v: seq<Row>, l: nat, cols: nat): WrapResult
    requires cols >= 2
  {
    var r := Wrap(Below(v, l), cols);
    WrapResult(Above(v, l) + r.rows, l + r.stop, r.ok)
  }

  /** The buffer v with the rows from l on unwrapped. */
  function UnwrapFrom(v: seq<Row>, l: nat, cols: nat): UnwrapResult {
    var r := Unwrap(Below(v, l), cols);
    UnwrapResult(Above(v, l) + r.rows, l + r.stop, r.crashed)
  }

  function Inserted(v: seq<Row>, l: nat, hardcr: bool): seq<Row>
    requires l < |v|
  {
    v[..l + 1] + [Row("", [], hardcr, false)] + v[l + 1..]
  }

  lemma {:induction false} InsertedParts(v: seq<Row>, l: nat, hardcr: bool, w: seq<Row>)
    requires l < |v| && |w| == |v| + 1 && w[..l + 1] == v[..l + 1] && w[l + 2..] == v[l + 1..]
    requires w[l + 1] == Row("", [], hardcr, false)
    ensures w == Inserted(v, l, hardcr)
  {
    assert w == w[..l + 1] + [w[l + 1]] + w[l + 2..];
  }

  function MovedDown(v: seq<Row>, l: nat, k: nat, kludge: bool): seq<Row>
    requires l + 1 < |v| && k <= |v[l].text|
  {
    var head, below := v[l], v[l + 1];
    v[..l] + [Row(head.text[..k], head.attr[..k], head.hardcr, head.kludged || kludge),
              Row(head.text[k..] + below.text, head.attr[k..] + below.attr, below.hardcr, below.kludged)] + v[l + 2..]
  }

  lemma {:induction false} TwoRowsMoved(v: seq<Row>, l: nat, k: nat, kludge: bool, a: Row, b: Row)
    requires l + 1 < |v| && k <= |v[l].text|
    requires a == Row(v[l].text[..k], v[l].attr[..k], v[l].hardcr, v[l].kludged || kludge)
    requires b == Row(v[l].text[k..] + v[l + 1].text, v[l].attr[k..] + v[l + 1].attr, v[l + 1].hardcr, v[l + 1].kludged)
    ensures v[l := a][l + 1 := b] == MovedDown(v, l, k, kludge)
  {
  }

  // Making room below and moving the rest there amounts to the cut of the specification.

  lemma {:induction false} CutLast(v: seq<Row>, l: nat, cols: nat)
    requires l + 1 == |v| && cols >= 2
    ensures MovedDown(Inserted(v, l, false), l, CutPoint(v[l].text, cols), WrapBreak(v[l].text, cols - 1) == 0)
         == v[..l] + [CutHead(v[l..], cols)] + CutTail(v[l..], cols)
  {
    var w := Inserted(v, l, false);
    assert w[l] == v[l] && w[..l] == v[..l] && w[l + 2..] == [];
    var k := CutPoint(v[l].text, cols);
    assert v[l].text[k..] + "" == v[l].text[k..] && v[l].attr[k..] + [] == v[l].attr[k..];
  }

  lemma {:induction false} CutHard(v: seq<Row>, l: nat, cols: nat)
    requires l + 1 < |v| && cols >= 2 && v[l].hardcr
    ensures MovedDown(Inserted(v, l, true)[l := v[l].(hardcr := false)], l, CutPoint(v[l].text, cols),
          WrapBreak(v[l].text, cols - 1) == 0)
         == v[..l] + [CutHead(v[l..], cols)] + CutTail(v[l..], cols)
  {
    var w := Inserted(v, l, true)[l := v[l].(hardcr := false)];
    assert w[..l] == v[..l] && w[l + 2..] == v[l + 1..] && v[l..][1..] == v[l + 1..];
    var k := CutPoint(v[l].text, cols);
    assert v[l].text[k..] + "" == v[l].text[k..] && v[l].attr[k..] + [] == v[l].attr[k..];
    var head := CutHead(v[l..], cols);
    var rest := Rest(v[l], true, cols);
    assert v[..l] + [head, rest] + v[l + 1..] == v[..l] + [head] + ([rest] + v[l + 1..]);
  }

  lemma {:induction false} CutSoft(v: seq<Row>, l: nat, cols: nat)
    requires l + 1 < |v| && cols >= 2 && !v[l].hardcr
    ensures MovedDown(v, l, CutPoint(v[l].text, cols), WrapBreak(v[l].text, cols - 1) == 0)
         == v[..l] + [CutHead(v[l..], cols)] + CutTail(v[l..], cols)
  {
    var d := v[l..];
    assert d[0] == v[l] && d[1] == v[l + 1] && d[2..] == v[l + 2..];
    var head := CutHead(d, cols);
    var below := Prefixed(d[0], d[1], cols);
    assert v[..l] + [head, below] + v[l + 2..] == v[..l] + [head] + ([below] + v[l + 2..]);
  }

  /** The buffer v with a row below row l that can take what is cut off row l. */
  function WithRoom(v: seq<Row>, l: nat): (r: seq<Row>)
    requires l < |v|
    ensures l + 1 < |r| && r[l].text == v[l].text
  {
    if l + 1 == |v| then Inserted(v, l, false)
    else if v[l].hardcr then Inserted(v, l, true)[l := v[l].(hardcr := false)]
    else v
  }

  /** The buffer v after one round of `wrap_line` at row l. */
  function CutAt(v: seq<Row>, l: nat, cols: nat): seq<Row>
    requires l < |v| && cols >= 2
  {
    v[..l] + [CutHead(v[l..], cols)] + CutTail(v[l..], cols)
  }

  /** The same as the code does it: make room below, then move the rest there. */
  function CutInTwoMoves(v: seq<Row>, l: nat, cols: nat): seq<Row>
    requires l < |v| && cols >= 2
  {
    MovedDown(WithRoom(v, l), l, CutPoint(v[l].text, cols), WrapBreak(v[l].text, cols - 1) == 0)
  }

  lemma {:induction false} TwoMovesCut(v: seq<Row>, l: nat, cols: nat)
    requires l < |v| && cols >= 2
    ensures CutInTwoMoves(v, l, cols) == CutAt(v, l, cols)
  {
    if l + 1 == |v| { CutLast(v, l, cols); } else if v[l].hardcr { CutHard(v, l, cols); } else { CutSoft(v, l, cols); }
  }

  // One round of the loop of `wrap_line` seen from the whole buffer.

  lemma {:induction false} WrapEnds(v: seq<Row>, i: nat, cols: nat)
    requires cols >= 2 && (i >= |v| || Fits(v[i..], cols))
    ensures WrapFrom(v, i, cols) == WrapResult(v, i, true) && WrapReturn(Below(v, i), cols) == -1
  {
  }

  lemma {:induction false} WrapFails(v: seq<Row>, i: nat, cols: nat)
    requires i < |v| && cols >= 2 && !Fits(v[i..], cols) && v[i].text == ""
    ensures WrapFrom(v, i, cols) == WrapResult(v[i := v[i].(kludged := true)], i, false)
  {
  }

  lemma {:induction false} WrapGoesOn(v: seq<Row>, i: nat, cols: nat)
    requires i < |v| && cols >= 2 && !Fits(v[i..], cols) && v[i].text != ""
    ensures var c := CutAt(v, i, cols);
      && WrapFrom(c, i + 1, cols) == WrapFrom(v, i, cols)
      && Chars(Below(c, i + 1)) < Chars(Below(v, i))
      && WrapReturn(Below(v, i), cols) == |v[i].text| - CutPoint(v[i].text, cols)
  {
    var d := v[i..];
    WrapUnfold(d, cols);
    hide Wrap, CutTail, CutHead, Fits, Chars, CutPoint, WrapFrom;
    JoinHead(v[..i], CutHead(d, cols), CutTail(d, cols));
    WrapFromRow(v, i, cols, CutHead(d, cols), CutTail(d, cols), CutAt(v, i, cols));
  }

  lemma {:induction false} WrapFromRow(v: seq<Row>, i: nat, cols: nat, head: Row, tail: seq<Row>, c: seq<Row>)
    requires cols >= 2 && i <= |v| && c == v[..i] + ([head] + tail)
    requires var r := Wrap(tail, cols); Wrap(v[i..], cols) == WrapResult([head] + r.rows, r.stop + 1, r.ok)
    ensures WrapFrom(c, i + 1, cols) == WrapFrom(v, i, cols) && Below(c, i + 1) == tail
  {
    hide Wrap;
    RejoinAt(v[..i], [head] + tail, c);
    assert ([head] + tail)[1..] == tail;
    var r := Wrap(tail, cols);
    JoinHead(v[..i], head, r.rows);
    assert WrapFrom(v, i, cols) == WrapResult(v[..i] + ([head] + r.rows), i + (r.stop + 1), r.ok);
    assert WrapFrom(c, i + 1, cols) == WrapResult(v[..i] + [head] + r.rows, i + 1 + r.stop, r.ok);
  }

  lemma {:induction false} WrapUnfold(d: seq<Row>, cols: nat)
    requires d != [] && cols >= 2 && !Fits(d, cols) && d[0].text != ""
    ensures var r := Wrap(CutTail(d, cols), cols);
      Wrap(d, cols) == WrapResult([CutHead(d, cols)] + r.rows, r.stop + 1, r.ok)
    ensures Chars(CutTail(d, cols)) < Chars(d)
    ensures WrapReturn(d, cols) == |d[0].text| - CutPoint(d[0].text, cols)
  {
    hide CutHead, Fits;
  }

  function Transferred(v: seq<Row>, l: nat, k: nat): seq<Row>
    requires l + 1 < |v| && k <= |v[l + 1].text|
  {
    var a, b := v[l], v[l + 1];
    v[..l]
    + [a.(text := a.text + b.text[..k], attr := a.attr + b.attr[..k]), b.(text := b.text[k..], attr := b.attr[k..])]
    + v[l + 2..]
  }

  function PulledAt(v: seq<Row>, l: nat, k: nat): seq<Row>
    requires l + 1 < |v| && k <= |v[l + 1].text|
  {
    v[..l] + Pull(v[l], v[l + 1], k) + v[l + 2..]
  }

  lemma {:induction false} PulledCases(v: seq<Row>, l: nat, k: nat)
    requires l + 1 < |v| && k <= |v[l + 1].text|
    ensures var t := Transferred(v, l, k);
            PulledAt(v, l, k)
            == if t[l + 1].text == "" then t[..l] + [t[l].(hardcr := t[l + 1].hardcr)] + t[l + 2..] else t
  {
    var t := Transferred(v, l, k);
    assert t[..l] == v[..l] && t[l + 2..] == v[l + 2..];
  }

  /** The buffer after the first half of a round, in terms of what the code does to its lines. */
  function Chunked(v: seq<Row>, l: nat, k: nat): seq<Row>
    requires l + 1 < |v| && k <= |v[l + 1].text|
  {
    if !v[l].kludged then v
    else if k == 0 then v[l := v[l].(kludged := false)]
    else
      var p := PulledAt(v, l, k);
      if k == |v[l + 1].text| || IsSpace(v[l + 1].text[k - 1]) then p[l := p[l].(kludged := false)] else p
  }

  lemma {:induction false} ChunkAt(v: seq<Row>, l: nat, cols: nat)
    requires l + 1 < |v| && Space(v[l..], cols) >= 1
    ensures !v[l].kludged ==> ChunkTaken(v[l..], cols) == 0
    ensures Chunked(v, l, ChunkTaken(v[l..], cols)) == v[..l] + AfterChunk(v[l..], cols)
  {
    ChunkIs(v, l, cols);
    hide ChunkTaken, ChunkBreak, Space, Pull, PulledAt;
    var d := v[l..];
    assert d[0] == v[l] && d[1] == v[l + 1];
    SetAt(v, l);
    PulledHead(v, l, ChunkTaken(d, cols));
  }

  lemma {:induction false} SetAt(v: seq<Row>, l: nat)
    requires l < |v|
    ensures v == v[..l] + v[l..] && forall r: Row :: v[l := r] == v[..l] + ([r] + v[l..][1..])
  {
  }

  lemma {:induction false} ChunkIs(v: seq<Row>, l: nat, cols: nat)
    requires l + 1 < |v| && Space(v[l..], cols) >= 1
    ensures Space(v[l..], cols) == cols - 1 - |v[l].text|
    ensures ChunkTaken(v[l..], cols) == if v[l].kludged then ChunkBreak(v[l + 1].text, cols - 1 - |v[l].text|) else 0
  {
    assert v[l..][0] == v[l] && v[l..][1] == v[l + 1];
  }

  lemma {:induction false} PulledHead(v: seq<Row>, l: nat, k: nat)
    requires l + 1 < |v| && k <= |v[l + 1].text|
    ensures var p := Pull(v[l], v[l + 1], k);
      && PulledAt(v, l, k) == v[..l] + ([p[0]] + p[1..] + v[l..][2..])
      && forall r: Row :: PulledAt(v, l, k)[l := r] == v[..l] + ([r] + p[1..] + v[l..][2..])
  {
    var p := Pull(v[l], v[l + 1], k);
    assert v[l..][2..] == v[l + 2..] && p == [p[0]] + p[1..];
  }

  lemma {:induction false} WordsAt(v: seq<Row>, l: nat, cols: nat)
    requires l + 1 < |v|
    ensures var w := WordsTaken(v[l..], cols);
      v[..l] + AfterWords(v[l..], cols) == PulledAt(if w > 0 then v else v[l := v[l].(kludged := false)], l, w)
  {
    var d := v[l..];
    assert d[0] == v[l] && d[1] == v[l + 1] && d[2..] == v[l + 2..];
  }

  // One round of the loop of `unwrap_line` seen from the whole buffer.

  lemma {:induction false} UnwrapEnds(v: seq<Row>, i: nat, cols: nat)
    requires UnwrapStops(Below(v, i), cols)
    ensures UnwrapFrom(v, i, cols) == UnwrapResult(v, i, false) && UnwrapReturn(Below(v, i), cols) == -1
  {
  }

  /** The buffer v after one round of `unwrap_line` at row l. */
  function RoundAt(v: seq<Row>, l: nat, cols: nat): seq<Row>
    requires l + 1 < |v|
  {
    var d1 := AfterChunk(v[l..], cols);
    v[..l] + if |d1| == 1 then d1 else AfterWords(d1, cols)
  }

  lemma {:induction false} UnwrapCrashes(v: seq<Row>, i: nat, cols: nat)
    requires i + 1 < |v| && !UnwrapStops(v[i..], cols) && |AfterChunk(v[i..], cols)| == 1
    ensures UnwrapFrom(v, i, cols) == UnwrapResult(RoundAt(v, i, cols), i, true)
  {
  }

  lemma {:induction false} UnwrapLastRound(v: seq<Row>, i: nat, cols: nat)
    requires i + 1 < |v| && !UnwrapStops(v[i..], cols) && |AfterChunk(v[i..], cols)| > 1
    requires WordsTaken(AfterChunk(v[i..], cols), cols) == 0
    ensures UnwrapFrom(v, i, cols) == UnwrapResult(RoundAt(v, i, cols), i + 1, false)
    ensures var k := ChunkTaken(v[i..], cols); UnwrapReturn(Below(v, i), cols) == if k > 0 then k else -1
  {
  }

  lemma {:induction false} UnwrapGoesOn(v: seq<Row>, i: nat, cols: nat, c: seq<Row>)
    requires i + 1 < |v| && !UnwrapStops(v[i..], cols) && |AfterChunk(v[i..], cols)| > 1
    requires WordsTaken(AfterChunk(v[i..], cols), cols) > 0
    requires c == RoundAt(v, i, cols)
    ensures UnwrapFrom(v, i, cols) == UnwrapFrom(c, i + 1, cols)
    ensures UnwrapReturn(Below(v, i), cols) == ChunkTaken(v[i..], cols) + WordsTaken(AfterChunk(v[i..], cols), cols)
  {
    var d1 := AfterChunk(v[i..], cols);
    var d2 := AfterWords(d1, cols);
    UnwrapRound(v[i..], cols, d1, d2);
    UnwrapFromRow(v, i, cols, d2, c);
  }

  lemma {:induction false} UnwrapFromRow(v: seq<Row>, i: nat, cols: nat, d2: seq<Row>, c: seq<Row>)
    requires i <= |v| && d2 != [] && c == v[..i] + d2
    requires var r := Unwrap(d2[1..], cols);
      Unwrap(v[i..], cols) == UnwrapResult([d2[0]] + r.rows, r.stop + 1, r.crashed)
    ensures UnwrapFrom(v, i, cols) == UnwrapFrom(c, i + 1, cols)
  {
    hide Unwrap;
    RejoinAt(v[..i], d2, c);
    var r := Unwrap(d2[1..], cols);
    JoinHead(v[..i], d2[0], r.rows);
    assert UnwrapFrom(v, i, cols) == UnwrapResult(v[..i] + ([d2[0]] + r.rows), i + (r.stop + 1), r.crashed);
    assert UnwrapFrom(c, i + 1, cols) == UnwrapResult(v[..i] + [d2[0]] + r.rows, i + 1 + r.stop, r.crashed);
  }

  lemma {:induction false} RejoinAt(a: seq<Row>, d: seq<Row>, c: seq<Row>)
    requires c == a + d && d != []
    ensures Below(c, |a| + 1) == d[1..] && Above(c, |a| + 1) == a + [d[0]]
    ensures c[|a|..] == d && c[..|a|] == a
  {
  }

  lemma {:induction false} StopsAt(v: seq<Row>, l: nat, cols: nat)
    ensures UnwrapStops(Below(v, l), cols)
       <==> l + 1 >= |v| || v[l].hardcr || cols - 1 - |v[l].text| < 1
    ensures l <= |v| ==> Below(v, l) == v[l..]
  {
  }

  /** The first half of a round: if it used up the last row, the round ends with a crash. */
  lemma {:induction false} ChunkWasTaken(v: seq<Row>, l: nat, cols: nat, v1: seq<Row>)
    requires l + 1 < |v| && !UnwrapStops(v[l..], cols) && v1 == Above(v, l) + AfterChunk(v[l..], cols)
    ensures l < |v1| && v1[l..] == AfterChunk(v[l..], cols)
    ensures l + 1 >= |v1| ==> UnwrapFrom(v, l, cols) == UnwrapResult(v1, l, true)
  {
    RejoinAt(v[..l], AfterChunk(v[l..], cols), v1);
    if l + 1 >= |v1| { UnwrapCrashes(v, l, cols); }
    hide UnwrapFrom, UnwrapStops, AfterChunk;
  }

  /** The second half. */
  lemma {:induction false} WordsWereTaken(
    v: seq<Row>, l: nat, cols: nat, v1: seq<Row>, v2: seq<Row>, k: nat, w: nat)
    requires l + 1 < |v| && !UnwrapStops(v[l..], cols) && v1 == Above(v, l) + AfterChunk(v[l..], cols)
    requires l + 1 < |v1| && v1[l..] == AfterChunk(v[l..], cols) && v2 == Above(v1, l) + AfterWords(v1[l..], cols)
    requires k == ChunkTaken(v[l..], cols) && w == WordsTaken(v1[l..], cols)
    ensures if w == 0 then UnwrapFrom(v, l, cols) == UnwrapResult(v2, l + 1, false)
            else UnwrapFrom(v, l, cols) == UnwrapFrom(v2, l + 1, cols)
    ensures UnwrapReturn(Below(v, l), cols) == if k + w > 0 then k + w else -1
    ensures w > 0 ==> l < |v2|
  {
    RejoinAt(v[..l], AfterChunk(v[l..], cols), v1);
    assert v2 == RoundAt(v, l, cols);
    if w == 0 { UnwrapLastRound(v, l, cols); } else { UnwrapGoesOn(v, l, cols, v2); }
    hide UnwrapFrom, UnwrapReturn, UnwrapStops, AfterChunk, Below;
  }

  lemma {:induction false} JoinHead(a: seq<Row>, r: Row, rows: seq<Row>)
    ensures a + [r] + rows == a + ([r] + rows)
  {
  }

  ghost predicate AllIn(a: seq<Line>, b: seq<Line>) {
    forall i :: 0 <= i < |a| ==> a[i] in b
  }

  function Without(a: seq<Line>, i: nat): seq<Line> {
    if i < |a| then a[..i] + a[i + 1..] else a
  }

  lemma {:induction false} AllInTrans(a: seq<Line>, b: seq<Line>, c: seq<Line>)
    requires AllIn(a, b) && AllIn(b, c)
    ensures AllIn(a, c)
  {
  }

  lemma {:induction false} AllInWithout(a: seq<Line>, b: seq<Line>, c: seq<Line>, i: nat)
    requires AllIn(b, c) && (a == b || a == Without(b, i))
    ensures AllIn(a, c)
  {
  }

  class Buffer {
    var line: seq<Line>
    const columns: nat

    /** No object stands in two places, and every character has its attribute. */
    ghost predicate Valid()
      reads this, line
    {
      && columns >= 2
      && (forall i, j :: 0 <= i < j < |line| ==> line[i] != line[j])
      && (forall i :: 0 <= i < |line| ==> |line[i].text| == |line[i].attr|)
    }

    ghost function View(): (v: seq<Row>)
      requires Valid()
      reads this, line
      ensures |v| == |line|
    {
      seq(|line|, i requires 0 <= i < |line| && |line[i].text| == |line[i].attr| reads this, line => line[i].Value())
    }

    constructor (columns: nat)
      requires columns >= 2
      ensures Valid() && View() == [] && this.columns == columns
    {
      this.columns := columns;
      line := [];
    }

    /** The test on which `wrap_line` returns. */
    predicate LineFits(l: nat)
      requires Valid() && l < |line|
      reads this, line
      ensures LineFits(l) == Fits(View()[l..], columns)
    {
      var n := StripLen(line[l].text);
      n < columns && (n != |line[l].text| || l + 1 == |line| || line[l].hardcr)
    }

    method SetKludged(l: nat, kludged: bool)
      requires Valid() && l < |line|
      modifies line[l]
      ensures Valid() && View() == old(View())[l := old(View())[l].(kludged := kludged)]
    {
      line[l].kludged := kludged;
    }

    method SetHard(l: nat)
      requires Valid() && l < |line|
      modifies line[l]
      ensures Valid() && View() == old(View())[l := old(View())[l].(hardcr := true)]
    {
      line[l].hardcr := true;
    }

    /** Put a new empty line below line l. */
    method InsertBelow(l: nat, hardcr: bool)
      requires Valid() && l < |line|
      modifies this
      ensures Valid() && |line| == |old(line)| + 1 && fresh(line[l + 1])
      ensures line == old(line)[..l + 1] + [line[l + 1]] + old(line)[l + 1..]
      ensures View() == Inserted(old(View()), l, hardcr)
    {
      ghost var v := View();
      var n := new Line();
      n.hardcr := hardcr;
      line := line[..l + 1] + [n] + line[l + 1..];
      hide Inserted;
      assert View()[..l + 1] == v[..l + 1] && View()[l + 2..] == v[l + 1..];
      InsertedParts(v, l, hardcr, View());
    }

    /** Every line of the buffer was there before or is new. */
    twostate predicate Extends(was: seq<Line>)
      reads this
    {
      forall i :: 0 <= i < |line| ==> line[i] in was || fresh(line[i])
    }

    /** Cut line l after k characters and put the rest in front of line l + 1. */
    method MoveDown(l: nat, k: nat, kludge: bool)
      requires Valid() && l + 1 < |line| && k <= |line[l].text|
      modifies line[l], line[l + 1]
      ensures Valid()
      ensures View() == MovedDown(old(View()), l, k, kludge)
    {
      ghost var v: seq<Row> := View();
      if kludge {
        line[l].kludged := true;
      }
      line[l + 1].text := line[l].text[k..] + line[l + 1].text;
      line[l + 1].attr := line[l].attr[k..] + line[l + 1].attr;
      line[l].text := line[l].text[..k];
      line[l].attr := line[l].attr[..|line[l].text|];
      hide MovedDown;
      ghost var a: Row, b: Row := line[l].Value(), line[l + 1].Value();
      ghost var w: seq<Row> := v[l := a];
      assert View() == w[l + 1 := b];
      TwoRowsMoved(v, l, k, kludge, a, b);
    }

    /** See that there is a line below line l for what is cut off it; a hard break moves to that line. */
    method MakeRoom(l: nat)
      requires Valid() && l < |line|
      modifies this, line
      ensures Valid() && Extends(old(line))
      ensures View() == WithRoom(old(View()), l)
    {
      if l + 1 == |line| {
        InsertBelow(l, false);
      } else if line[l].hardcr {
        InsertBelow(l, true);
        line[l].hardcr := false;
      }
    }

    /** The body of the loop of `wrap_line`. */
    method CutLine(l: nat)
      requires Valid() && l < |line|
      modifies this, line
      ensures Valid() && Extends(old(line))
      ensures View() == CutInTwoMoves(old(View()), l, columns)
    {
      var k := CutPoint(line[l].text, columns);
      var kludge := WrapBreak(line[l].text, columns - 1) == 0;
      MakeRoom(l);
      MoveDown(l, k, kludge);
    }

    /** A round of `wrap_line`: `moved` is how much went below line l, or -1; `done` says that it is the last round. */
    method WrapRound(l: nat) returns (moved: int, done: bool, ok: bool)
      requires Valid()
      modifies this, line
      ensures Valid() && Extends(old(line))
      ensures var r := WrapFrom(old(View()), l, columns);
        if done then View() == r.rows && ok == r.ok else WrapFrom(View(), l + 1, columns) == r
      ensures !done ==> moved >= 0 && Chars(Below(View(), l + 1)) < Chars(Below(old(View()), l))
      ensures ok ==> moved == WrapReturn(Below(old(View()), l), columns)
      ensures !done ==> ok
    {
      ghost var v := View();
      if l >= |line| || LineFits(l) {
        WrapEnds(v, l, columns);
        return -1, true, true;
      }
      if line[l].text == "" {
        SetKludged(l, true);
        WrapFails(v, l, columns);
        return -1, true, false;
      }
      moved, done, ok := |line[l].text| - CutPoint(line[l].text, columns), false, true;
      CutLine(l);
      TwoMovesCut(v, l, columns);
      WrapGoesOn(v, l, columns);
    }

    /** `wrap_line`: wrap from row l down. `ok` is false on the branch that reports an error and exits. */
    method WrapLine(l: nat) returns (ret: int, ok: bool)
      requires Valid()
      modifies this, line
      ensures Valid() && Extends(old(line))
      ensures var r := WrapFrom(old(View()), l, columns); View() == r.rows && ok == r.ok
      ensures ok ==> ret == WrapReturn(Below(old(View()), l), columns)
      ensures ok && l < |old(line)| ==>
        && Filling.CutFirst(Below(old(View()), l), columns, Below(View(), l), ret)
        && Above(View(), l) == Above(old(View()), l)
    {
      hide WrapFrom, WrapReturn, Wrap, Above, Below, Filling.CutFirst;
      FirstLineCut(View(), l, columns);
      ghost var goal := WrapFrom(View(), l, columns);
      var i: nat, done := l, false;
      ret, done, ok := WrapRound(i);
      while !done
        invariant Valid() && Extends(old(line)) && (!done ==> ok)
        invariant if done then View() == goal.rows && ok == goal.ok else WrapFrom(View(), i + 1, columns) == goal
        invariant ok ==> ret == WrapReturn(Below(old(View()), l), columns)
        decreases !done, Chars(Below(View(), i + 1))
      {
        var moved;
        i := i + 1;
        moved, done, ok := WrapRound(i);
      }
    }

    /** Move k characters of line l + 1 to the end of line l, and drop line l + 1 when nothing is left of it. */
    method MoveUp(l: nat, k: nat)
      requires Valid() && l + 1 < |line| && k <= |line[l + 1].text|
      modifies `line, line[l], line[l + 1]
      ensures Valid() && (line == old(line) || line == Without(old(line), l + 1))
      ensures View() == PulledAt(old(View()), l, k)
    {
      PulledCases(View(), l, k);
      hide PulledAt, Transferred;
      Transfer(l, k);
      assert line[l + 1].text == View()[l + 1].text;
      if line[l + 1].text == "" {
        DropBelow(l);
      }
    }

    method Transfer(l: nat, k: nat)
      requires Valid() && l + 1 < |line| && k <= |line[l + 1].text|
      modifies line[l], line[l + 1]
      ensures Valid()
      ensures View() == Transferred(old(View()), l, k)
    {
      line[l].text := line[l].text + line[l + 1].text[..k];
      line[l].attr := line[l].attr + line[l + 1].attr[..k];
      line[l + 1].text := line[l + 1].text[k..];
      line[l + 1].attr := line[l + 1].attr[k..];
    }

    /** Remove line l + 1, and give its hard break to line l. */
    method DropBelow(l: nat)
      requires Valid() && l + 1 < |line|
      modifies `line, line[l]
      ensures Valid() && line == Without(old(line), l + 1)
      ensures View() == old(View())[..l] + [old(View())[l].(hardcr := old(View())[l + 1].hardcr)] + old(View())[l + 2..]
    {
      line[l].hardcr := line[l + 1].hardcr;
      line := Without(line, l + 1);
    }

    /** The first half of a round of `unwrap_line`: on a line that was cut inside a word, take the rest of the word. */
    method TakeChunk(l: nat) returns (k: nat)
      requires Valid() && l + 1 < |line| && columns - 1 - |line[l].text| >= 1
      modifies `line, line[l], line[l + 1]
      ensures Valid() && (line == old(line) || line == Without(old(line), l + 1))
      ensures k == ChunkTaken(old(View())[l..], columns)
      ensures View() == Above(old(View()), l) + AfterChunk(old(View())[l..], columns)
    {
      ghost var v := View();
      ChunkIs(v, l, columns);
      ChunkAt(v, l, columns);
      hide AfterChunk, ChunkTaken, ChunkBreak, Space, PulledAt;
      k := 0;
      if line[l].kludged {
        var space := columns - 1 - |line[l].text|;
        var below := line[l + 1].text;
        k := ChunkBreak(below, space);
        if k > 0 {
          TakeRest(l, k);
        } else {
          SetKludged(l, false);
        }
      }
    }

    /** Take k characters from the line below; when that was the whole rest of the word, the line is no longer cut. */
    method TakeRest(l: nat, k: nat)
      requires Valid() && l + 1 < |line| && 0 < k <= |line[l + 1].text| && line[l].kludged
      modifies `line, line[l], line[l + 1]
      ensures Valid() && (line == old(line) || line == Without(old(line), l + 1))
      ensures View() == Chunked(old(View()), l, k)
    {
      hide PulledAt;
      var below := line[l + 1].text;
      MoveUp(l, k);
      if k == |below| || IsSpace(below[k - 1]) {
        SetKludged(l, false);
      }
    }

    /** The second half of a round of `unwrap_line`: take whole words that fit, and drop an empty line. */
    method TakeWords(l: nat) returns (w: nat)
      requires Valid() && l + 1 < |line|
      modifies `line, line[l], line[l + 1]
      ensures Valid() && (line == old(line) || line == Without(old(line), l + 1))
      ensures w == WordsTaken(old(View())[l..], columns)
      ensures View() == Above(old(View()), l) + AfterWords(old(View())[l..], columns)
    {
      ghost var v := View();
      var space := columns - 1 - |line[l].text|;
      w := if space < 1 then 0 else WordBreak(line[l + 1].text, space);
      if w == 0 {
        SetKludged(l, false);
      }
      MoveUp(l, w);
      WordsAt(v, l, columns);
    }

    /** A round of `unwrap_line`: `moved` is how much it took, or -1; `done` says that it is the last round. */
    method UnwrapRound(l: nat) returns (moved: int, done: bool, crashed: bool)
      requires Valid()
      modifies this, line
      ensures Valid() && AllIn(line, old(line)) && |line| <= |old(line)|
      ensures var r := UnwrapFrom(old(View()), l, columns);
        if done then View() == r.rows && crashed == r.crashed else UnwrapFrom(View(), l + 1, columns) == r
      ensures !crashed ==> moved == UnwrapReturn(Below(old(View()), l), columns)
      ensures !done ==> l < |line| && !crashed
    {
      ghost var v, line0 := View(), line;
      if l < |line| { assert v[l] == line[l].Value(); }
      StopsAt(v, l, columns);
      hide UnwrapFrom, UnwrapReturn, UnwrapStops, AfterChunk, AfterWords, ChunkTaken, WordsTaken;
      hide Above, Below, AllIn, Without;
      if l + 1 >= |line| || line[l].hardcr || columns - 1 - |line[l].text| < 1 {
        UnwrapEnds(v, l, columns);
        return -1, true, false;
      }
      var k := TakeChunk(l);
      AllInWithout(line, line0, line0, l + 1);
      ghost var line1, v1 := line, View();
      ChunkWasTaken(v, l, columns, v1);
      if l + 1 >= |line| {
        return k, true, true;
      }
      var w := TakeWords(l);
      AllInWithout(line, line1, line0, l + 1);
      WordsWereTaken(v, l, columns, v1, View(), k, w);
      moved, done, crashed := if k + w > 0 then k + w else -1, w == 0, false;
    }

    /** `unwrap_line`: fill row l and the rows below it from the rows that follow. `crashed` is the
        access to a line that is no longer there. */
    method UnwrapLine(l: nat) returns (ret: int, crashed: bool)
      requires Valid()
      modifies this, line
      ensures Valid() && AllIn(line, old(line))
      ensures var r := UnwrapFrom(old(View()), l, columns); View() == r.rows && crashed == r.crashed
      ensures !crashed ==> ret == UnwrapReturn(Below(old(View()), l), columns)
      ensures !crashed && l < |old(line)| ==>
        && Filling.FillsFirst(Below(old(View()), l), columns, Below(View(), l), ret)
        && Above(View(), l) == Above(old(View()), l)
    {
      hide UnwrapFrom, UnwrapReturn, Unwrap, Above, Below, Filling.FillsFirst;
      FirstLineFilled(View(), l, columns);
      ghost var goal := UnwrapFrom(View(), l, columns);
      var i: nat, done := l, false;
      ret, done, crashed := UnwrapRound(i);
      while !done
        invariant Valid() && AllIn(line, old(line)) && (!done ==> i < |line| && !crashed)
        invariant if done then View() == goal.rows && crashed == goal.crashed
          else UnwrapFrom(View(), i + 1, columns) == goal
        invariant !crashed ==> ret == UnwrapReturn(Below(old(View()), l), columns)
        decreases !done, |line| - i
      {
        var moved;
        ghost var line0 := line;
        i := i + 1;
        moved, done, crashed := UnwrapRound(i);
        AllInTrans(line, line0, old(line));
      }
    }
  }

  // ---------- The whole buffer ----------

  lemma {:induction false} FirstLineCut(v: seq<Row>, l: nat, cols: nat)
    requires cols >= 2
    ensures var r := WrapFrom(v, l, cols);
      l < |v| && r.ok ==>
        && Below(v, l) != [] && Above(r.rows, l) == Above(v, l)
        && Filling.CutFirst(Below(v, l), cols, Below(r.rows, l), WrapReturn(Below(v, l), cols))
  {
    if l < |v| && WrapFrom(v, l, cols).ok {
      Filling.WrapFirstRow(v[l..], cols);
      var rows := Wrap(v[l..], cols).rows;
      hide Wrap, Filling.CutFirst;
      assert (v[..l] + rows)[l..] == rows && (v[..l] + rows)[..l] == v[..l];
    }
  }

  lemma {:induction false} FirstLineFilled(v: seq<Row>, l: nat, cols: nat)
    ensures var r := UnwrapFrom(v, l, cols);
      l < |v| && !r.crashed ==>
        && Below(v, l) != [] && Above(r.rows, l) == Above(v, l)
        && Filling.FillsFirst(Below(v, l), cols, Below(r.rows, l), UnwrapReturn(Below(v, l), cols))
  {
    if l < |v| && !UnwrapFrom(v, l, cols).crashed {
      Filling.UnwrapFirstRow(v[l..], cols);
      var rows := Unwrap(v[l..], cols).rows;
      hide Unwrap, Filling.FillsFirst;
      assert (v[..l] + rows)[l..] == rows && (v[..l] + rows)[..l] == v[..l];
    }
  }

  lemma {:induction false} FlattenBelow(v: seq<Row>, l: nat, rows: seq<Row>)
    ensures Flatten(Above(v, l) + rows) == Flatten(v) <==> Flatten(rows) == Flatten(Below(v, l))
  {
    assert Above(v, l) + Below(v, l) == v;
    FlattenConcat(Above(v, l), Below(v, l));
    FlattenConcat(Above(v, l), rows);
    Cancel(Flatten(Above(v, l)), Flatten(rows), Flatten(Below(v, l)));
  }

  /** `wrap_line` keeps the document of the whole buffer exactly when it does not spill past a hard last row. */
  lemma {:induction false} WrapLineKeepsDocument(v: seq<Row>, l: nat, cols: nat)
    requires cols >= 2
    ensures Flatten(WrapFrom(v, l, cols).rows) == Flatten(v) <==> !SpillsPastHardEnd(Below(v, l), cols)
  {
    WrapKeepsDocument(Below(v, l), cols);
    FlattenBelow(v, l, Wrap(Below(v, l), cols).rows);
  }

  /** `unwrap_line` keeps the document of the whole buffer exactly when no round reaches across a hard break. */
  lemma {:induction false} UnwrapLineKeepsDocument(v: seq<Row>, l: nat, cols: nat)
    ensures Flatten(UnwrapFrom(v, l, cols).rows) == Flatten(v) <==> KeepsToParagraph(Below(v, l), cols)
  {
    UnwrapKeepsDocument(Below(v, l), cols);
    FlattenBelow(v, l, Unwrap(Below(v, l), cols).rows);
  }

  /** Called on any line of the buffer, `wrap_line` takes its error exit exactly when it comes to an empty soft row
      above another row. */
  lemma {:induction false} WrapLineFails(v: seq<Row>, l: nat, cols: nat)
    requires cols >= 2 && l < |v|
    ensures WrapFrom(v, l, cols).ok <==> !ComesToEmpty(Below(v, l), "", cols)
  {
    WrapFailsIff(Below(v, l), cols);
  }

  /** Called on any line, `unwrap_line` reads a line that is gone exactly when in some round the rest of a cut word is
      all that the last row holds. */
  lemma {:induction false} UnwrapLineCrashes(v: seq<Row>, l: nat, cols: nat)
    ensures UnwrapFrom(v, l, cols).crashed <==> ReachesEnd(Below(v, l), cols)
  {
    UnwrapCrashesIff(Below(v, l), cols);
  }

  // ---------- Buffers on which the loops go wrong ----------

  /** A hard last row that is too long: the break stays above the words that are pushed down. */
  lemma {:induction false} SpillExample()
    ensures var v := [Plain("aaaa", true, false)]; Flatten(WrapFrom(v, 0, 3).rows) != Flatten(v)
  {
    var v := [Plain("aaaa", true, false)];
    assert "" + v[0].text == "aaaa";
    WrapLineKeepsDocument(v, 0, 3);
  }

  /** An empty soft row above another row: the error exit. */
  lemma {:induction false} EmptySoftRowExample()
    ensures !WrapFrom([Plain("", false, false), Plain("a", true, false)], 0, 10).ok
  {
  }

  /** A row cut inside a word, whose rest is all of a hard row: the next paragraph is pulled up behind it. */
  lemma {:induction false} CrossingExample()
    ensures var v := [Plain("aa", false, true), Plain("b", true, false), Plain("c", true, false)];
      Flatten(UnwrapFrom(v, 0, 10).rows) != Flatten(v)
  {
    var v := [Plain("aa", false, true), Plain("b", true, false), Plain("c", true, false)];
    ShortWord("b", 7);
    ShortWord("c", 6);
    assert AfterChunk(v, 10)[1] == v[2];
    assert CrossesHardBreak(v, 10);
    UnwrapLineKeepsDocument(v, 0, 10);
  }

  lemma {:induction false} ShortWord(t: string, n: nat)
    requires |t| == 1 && !IsSpace(t[0]) && n >= 1
    ensures ChunkBreak(t, n) == 1 && WordBreak(t, n) == 1
  {
    assert WordLen(t[1..], n - 1) == 0;
    if n > 1 { ShortWord(t, n - 1); }
  }

  /** The same at the end of the buffer: the row below is gone when it is looked at again. */
  lemma {:induction false} CrashExample()
    ensures UnwrapFrom([Plain("aa", false, true), Plain("b", true, false)], 0, 10).crashed
  {
    ShortWord("b", 7);
  }
}
