/** The colours in which the characters of a long line show, next to the colours they have in the line. */
module WrapPaint {
  import opened WordWrap
  import opened WrapColours

  /** A colour is a choice for some features of the display - foreground, background, brightness and so on. */
  type Colour = map<nat, nat>

  /** What the codes of a text choose, the later ones over the earlier; what one code chooses is
      the console's matter. */
  function Paint(fx: char -> Colour, s: string): Colour
    decreases |s|
  {
    if s == "" then map[]
    else if s[0] == CTRL_A then
      if |s| >= 2 then fx(s[1]) + Paint(fx, s[2..]) else map[]
    else Paint(fx, s[1..])
  }

  lemma {:induction false} PaintConcat(fx: char -> Colour, s: string, t: string)
    requires Whole(s)
    ensures Paint(fx, s + t) == Paint(fx, s) + Paint(fx, t)
    decreases |s|
  {
    if s == "" {
      assert s + t == t;
    } else {
      assert (s + t)[0] == s[0];
      if s[0] == CTRL_A {
        PaintConcat(fx, s[2..], t);
        assert (s + t)[2..] == s[2..] + t && (s + t)[1] == s[1];
        MergeAssoc(fx(s[1]), Paint(fx, s[2..]), Paint(fx, t));
      } else {
        PaintConcat(fx, s[1..], t);
        assert (s + t)[1..] == s[1..] + t;
      }
    }
  }

  lemma {:induction false} MergeAssoc(a: Colour, b: Colour, c: Colour)
    ensures a + (b + c) == a + b + c
  {
  }

  lemma {:induction false} PaintCodes(fx: char -> Colour, s: string)
    ensures Paint(fx, Codes(s)) == Paint(fx, s)
    decreases |s|
  {
    if s != "" {
      if s[0] != CTRL_A {
        PaintCodes(fx, s[1..]);
      } else if |s| >= 2 {
        PaintCodes(fx, s[2..]);
        assert ([s[0], s[1]] + Codes(s[2..]))[2..] == Codes(s[2..]);
      }
    }
  }

  lemma {:induction false} NothingPainted(fx: char -> Colour, s: string)
    requires CTRL_A !in s
    ensures Paint(fx, s) == map[]
  {
    if s != "" {
      assert s == [s[0]] + s[1..];
      NothingPainted(fx, s[1..]);
    }
  }

  // ---------- Merging choices ----------

  lemma {:induction false} Overridden(a: Colour, b: Colour, c: Colour)
    requires a.Keys <= c.Keys && b.Keys <= c.Keys
    ensures a + b + c == c
  {
  }

  lemma {:induction false} TwiceAhead(a: Colour, x: Colour, z: Colour)
    ensures a + x + (x + z) == a + (x + z)
  {
  }

  /** The later choices z, and then the earlier ones e again, change nothing where z is not new. */
  lemma {:induction false} AheadAndBack(c: Colour, z: Colour, e: Colour)
    requires forall f :: f in e ==> f in c && c[f] == e[f]
    ensures c + z + e == c <==> forall f :: f in z && f !in e ==> f in c && c[f] == z[f]
  {
    if c + z + e == c {
      forall f | f in z && f !in e ensures f in c && c[f] == z[f] { assert f in c + z + e && (c + z + e)[f] == z[f]; }
    }
  }

  // ---------- The colour a row starts in ----------

  /** The row that begins at st comes behind the printed text `before`, with the codes p; the scan has passed to r. */
  ghost predicate Comes(fx: char -> Colour, line: string, st: nat, r: nat, n: int, before: string, p: string) {
    && IsCodes(p) && Whole(before) && Whole(Upto(line, st)) && Passed(line, st, r, n)
    && Paint(fx, p) == Paint(fx, Upto(line, r)) == Paint(fx, before + p)
  }

  lemma {:induction false} UptoBetween(line: string, a: nat, b: nat)
    requires a <= b
    ensures Upto(line, b) == Upto(line, a) + Between(line, a, b)
  {
  }

  lemma {:induction false} PassedWhole(line: string, st: nat, r: nat, n: int)
    requires Passed(line, st, r, n) && Whole(Upto(line, st))
    ensures st <= r && Whole(Between(line, st, r)) && Whole(Upto(line, r))
  {
    if r == st {
      assert Between(line, st, r) == "";
    } else {
      SliceInside(line, st, r);
      UptoBetween(line, st, r);
      VisibleConcat(Upto(line, st), Between(line, st, r));
    }
  }

  /** The codes before the next row paint what the line paints up to where the scan had come. */
  lemma {:induction false} NextCodes(fx: char -> Colour, line: string, st: nat, r: nat, e: nat, p: string)
    requires st <= r <= e && Whole(Upto(line, st)) && Whole(Between(line, st, r))
    requires Whole(Between(line, st, e)) && IsCodes(p)
    requires Paint(fx, p) == Paint(fx, Upto(line, r))
    ensures IsCodes(p + Codes(Between(line, st, e)))
    ensures Paint(fx, p + Codes(Between(line, st, e))) == Paint(fx, Upto(line, e))
  {
    var s := Between(line, st, e);
    CodesAreCodes(s);
    CodesBoth(p, Codes(s));
    PaintConcat(fx, p, Codes(s));
    PaintCodes(fx, s);
    UptoBetween(line, st, r);
    UptoBetween(line, st, e);
    BetweenParts(line, st, r, e);
    PaintConcat(fx, Upto(line, st), Between(line, st, r));
    PaintConcat(fx, Upto(line, st), s);
    PaintConcat(fx, Between(line, st, r), Between(line, r, e));
    TwiceAhead(Paint(fx, Upto(line, st)), Paint(fx, Between(line, st, r)), Paint(fx, Between(line, r, e)));
  }

  /** Nor does it matter what the rows above have painted. */
  lemma {:induction false} NextText(
    fx: char -> Colour, line: string, st: nat, r: nat, c: nat, e: nat, before: string, p: string, q: string)
    requires st <= r <= e && st <= c <= e && Whole(Upto(line, r))
    requires Whole(Upto(line, st)) && Whole(Between(line, st, c))
    requires IsCodes(p) && Whole(before) && Paint(fx, before + p) == Paint(fx, Upto(line, r))
    requires Paint(fx, q) == Paint(fx, Upto(line, e))
    ensures Whole(before + (p + Between(line, st, c)))
    ensures Paint(fx, before + (p + Between(line, st, c)) + q) == Paint(fx, q)
  {
    var row := Between(line, st, c);
    CodesAreWhole(p);
    PaintedUpto(fx, line, st, r, c, e);
    hide *;
    WholeConcat(before, p);
    WholeConcat(before + p, row);
    ThreeTexts(fx, before + p, row, q);
    Overridden(Paint(fx, Upto(line, r)), Paint(fx, row), Paint(fx, Upto(line, e)));
    Assoc(before, p, row);
  }

  lemma {:induction false} Assoc(a: string, b: string, c: string)
    ensures a + (b + c) == a + b + c
  {
  }

  lemma {:induction false} CodesAreWhole(p: string)
    requires IsCodes(p)
    ensures Whole(p)
  {
  }

  lemma {:induction false} ThreeTexts(fx: char -> Colour, a: string, b: string, c: string)
    requires Whole(a) && Whole(a + b)
    ensures Paint(fx, a + b + c) == Paint(fx, a) + Paint(fx, b) + Paint(fx, c)
  {
    hide Paint, Whole;
    PaintConcat(fx, a, b);
    PaintConcat(fx, a + b, c);
  }

  /** Whatever is chosen in an earlier part of the line is chosen up to its end. */
  lemma {:induction false} PaintedUpto(fx: char -> Colour, line: string, st: nat, r: nat, c: nat, e: nat)
    requires st <= r <= e && st <= c <= e && Whole(Upto(line, r))
    requires Whole(Upto(line, st)) && Whole(Between(line, st, c))
    ensures Paint(fx, Upto(line, r)).Keys <= Paint(fx, Upto(line, e)).Keys
    ensures Paint(fx, Between(line, st, c)).Keys <= Paint(fx, Upto(line, e)).Keys
  {
    UptoBetween(line, r, e);
    UptoBetween(line, st, e);
    BetweenParts(line, st, c, e);
    hide Between, Upto, Whole;
    PaintConcat(fx, Upto(line, r), Between(line, r, e));
    PaintConcat(fx, Upto(line, st), Between(line, st, e));
    PaintConcat(fx, Between(line, st, c), Between(line, c, e));
    hide Paint;
  }

  /** All that is printed ahead of row k's own text. */
  function Ahead(codes: seq<string>, rows: seq<string>, k: nat): string
    requires k < |rows| <= |codes|
  {
    Concat(WithCodes(codes, rows)[..k]) + codes[k]
  }

  lemma {:induction false} AheadCons(p: string, codes: seq<string>, row: string, rows: seq<string>, k: nat)
    requires 0 < k <= |rows| <= |codes|
    ensures Ahead([p] + codes, [row] + rows, k) == p + row + Ahead(codes, rows, k - 1)
  {
    var all, rest := WithCodes([p] + codes, [row] + rows), WithCodes(codes, rows);
    assert all == [p + row] + rest;
    assert all[..k] == [p + row] + rest[..k - 1];
    assert ([p + row] + rest[..k - 1])[1..] == rest[..k - 1];
  }

  function PlaceIn(stops: seq<Stop>, r: nat, k: nat): nat
    requires k <= |stops|
  {
    if k == 0 then r else stops[k - 1].reached
  }

  function StartIn(stops: seq<Stop>, st: nat, k: nat): nat
    requires k <= |stops|
  {
    if k == 0 then st else stops[k - 1].next
  }

  /** A row that is broken comes after its codes, and so does the next one. */
  lemma {:induction false} NextComes(
    fx: char -> Colour, line: string, st: nat, last: int, i: nat, r: nat, before: string, p: string)
    requires RowBegins(line, st, last, i) && st <= |line| && Cut(line, st, last, st, i) != -1
    requires Comes(fx, line, st, r, WIDTH - i, before, p)
    ensures var c, e := Cut(line, st, last, st, i), Reached(line, st, last, st, i);
            && RowBegins(line, c + 1, c, 1)
            && Comes(fx, line, c + 1, e, WIDTH - 1, before + (p + Slice(line, st, c + 1)),
                  p + Codes(Between(line, st, e)))
  {
    hide *;
    BeginsInOrder(line, st, last, i);
    ComesPassed(fx, line, st, r, WIDTH - i, before, p);
    NextPlace(line, st, last, i, r);
    ComesBehind(fx, line, st, Cut(line, st, last, st, i), Reached(line, st, last, st, i), r, WIDTH - i, before, p);
  }

  lemma {:induction false} ComesPassed(
    fx: char -> Colour, line: string, st: nat, r: nat, n: int, before: string, p: string)
    requires Comes(fx, line, st, r, n, before, p)
    ensures Passed(line, st, r, n)
  {
    hide Paint, Passed;
  }

  lemma {:induction false} ComesBehind(
    fx: char -> Colour, line: string, st: nat, c: nat, e: nat, r: nat, n: int, before: string, p: string)
    requires Comes(fx, line, st, r, n, before, p) && st <= c < e && r <= e
    requires Whole(Between(line, st, e)) && Whole(Slice(line, st, c + 1)) && Passed(line, c + 1, e, WIDTH - 1)
    ensures Comes(fx, line, c + 1, e, WIDTH - 1, before + (p + Slice(line, st, c + 1)), p + Codes(Between(line, st, e)))
  {
    hide Paint, Codes, Passed, Whole, Visible, IsCodes, Slice, Upto, Between;
    PassedWhole(line, st, r, n);
    SliceBetween(line, st, c + 1);
    NextCodes(fx, line, st, r, e, p);
    UptoBetween(line, st, c + 1);
    WholeConcat(Upto(line, st), Between(line, st, c + 1));
    NextText(fx, line, st, r, c + 1, e, before, p, p + Codes(Between(line, st, e)));
  }

  lemma {:induction false} SliceBetween(line: string, a: nat, b: nat)
    requires a <= b
    ensures Slice(line, a, b) == Between(line, a, b)
  {
  }

  lemma {:induction false} WholeConcat(s: string, t: string)
    requires Whole(s) && Whole(t)
    ensures Whole(s + t)
  {
    VisibleConcat(s, t);
  }

  /** Row k comes in the colour of the line at the place the scan had reached, and stands in the
      line where it should. */
  ghost predicate Right(fx: char -> Colour, line: string, stops: seq<Stop>, rows: seq<string>, codes: seq<string>,
                        st: nat, r: nat, before: string, k: nat)
  {
    && |rows| == |codes| == |stops| + 1 && k < |rows|
    && Whole(before + Ahead(codes, rows, k))
    && Paint(fx, before + Ahead(codes, rows, k)) == Paint(fx, Upto(line, PlaceIn(stops, r, k)))
    && Stands(line, StartIn(stops, st, k), PlaceIn(stops, r, k), rows[k])
  }

  predicate Stands(line: string, st: nat, r: nat, row: string) {
    st <= r && Whole(Upto(line, st)) && Passed(line, st, r, WIDTH) && row == Slice(line, st, st + |row|)
  }

  lemma {:induction false} RightLater(
    fx: char -> Colour, line: string, stop: Stop, stops: seq<Stop>, row: string, rows: seq<string>,
                                      p: string, codes: seq<string>, st: nat, r: nat, before: string, k: nat)
    requires k > 0 && Right(fx, line, stops, rows, codes, stop.next, stop.reached, before + (p + row), k - 1)
    ensures Right(fx, line, [stop] + stops, [row] + rows, [p] + codes, st, r, before, k)
  {
    AheadCons(p, codes, row, rows, k);
    var ahead := Ahead(codes, rows, k - 1);
    hide Ahead, Paint, Whole, Stands;
    assert before + (p + row + ahead) == before + (p + row) + ahead;
    assert PlaceIn([stop] + stops, r, k) == PlaceIn(stops, stop.reached, k - 1);
    assert StartIn([stop] + stops, st, k) == StartIn(stops, stop.next, k - 1);
  }

  lemma {:induction false} Unfold(line: string, st: nat, last: int, i: nat, p: string)
    requires last <= st <= |line| && (last == st || last == st - 1) && Cut(line, st, last, st, i) != -1
    ensures var c, e := Cut(line, st, last, st, i), Reached(line, st, last, st, i);
            var q := p + Codes(Between(line, st, e));
            && RowsFrom(line, st, last, i) == [Slice(line, st, c + 1)] + RowsFrom(line, c + 1, c, 1)
            && StopsFrom(line, st, last, i) == [Stop(c + 1, e)] + StopsFrom(line, c + 1, c, 1)
            && PrefixesFrom(line, st, StopsFrom(line, st, last, i), p)
            == [p] + PrefixesFrom(line, c + 1, StopsFrom(line, c + 1, c, 1), q)
  {
    var c, e := Cut(line, st, last, st, i), Reached(line, st, last, st, i);
    var stops := StopsFrom(line, c + 1, c, 1);
    assert ([Stop(c + 1, e)] + stops)[1..] == stops;
  }

  lemma {:induction false} OneMoreBreaks(line: string, st: nat, last: int, i: nat)
    requires last <= st && (last == st || last == st - 1) && |RowsFrom(line, st, last, i)| > 1
    ensures st <= |line| && Cut(line, st, last, st, i) != -1
  {
  }

  lemma {:induction false} RowComes(
    fx: char -> Colour, line: string, st: nat, last: int, i: nat, r: nat, before: string, p: string, k: nat)
    requires RowBegins(line, st, last, i) && Comes(fx, line, st, r, WIDTH - i, before, p)
    requires k < |RowsFrom(line, st, last, i)|
    ensures var stops := StopsFrom(line, st, last, i);
            Right(fx, line, stops, RowsFrom(line, st, last, i), PrefixesFrom(line, st, stops, p), st, r, before, k)
    decreases k
  {
    hide *;
    if k == 0 {
      FirstComes(fx, line, st, last, i, r, before, p);
    } else {
      BeginsInOrder(line, st, last, i);
      OneMoreBreaks(line, st, last, i);
      Unfold(line, st, last, i, p);
      NextComes(fx, line, st, last, i, r, before, p);
      var c, e := Cut(line, st, last, st, i), Reached(line, st, last, st, i);
      var q, behind := p + Codes(Between(line, st, e)), before + (p + Slice(line, st, c + 1));
      RowComes(fx, line, c + 1, c, 1, e, behind, q, k - 1);
      var stops, rows := StopsFrom(line, c + 1, c, 1), RowsFrom(line, c + 1, c, 1);
      RightLater(fx, line, Stop(c + 1, e), stops, Slice(line, st, c + 1), rows, p, PrefixesFrom(line, c + 1, stops, q),
            st, r, before, k);
    }
  }

  lemma {:induction false} FirstComes(
    fx: char -> Colour, line: string, st: nat, last: int, i: nat, r: nat, before: string, p: string)
    requires RowBegins(line, st, last, i) && Comes(fx, line, st, r, WIDTH - i, before, p)
    ensures var stops := StopsFrom(line, st, last, i);
            Right(fx, line, stops, RowsFrom(line, st, last, i), PrefixesFrom(line, st, stops, p), st, r, before, 0)
  {
    hide RowsFrom, StopsFrom, PrefixesFrom, Paint, Whole, Slice, Upto, Passed, Ahead, IsCodes;
    var stops, rows := StopsFrom(line, st, last, i), RowsFrom(line, st, last, i);
    var codes := PrefixesFrom(line, st, stops, p);
    RowOrder(line, st, last, i);
    hide RowBegins;
    AsManyStops(line, st, last, i);
    CodesAreWhole(p);
    WholeConcat(before, p);
    FirstRowStands(line, st, last, i);
    AheadNone(codes, rows);
    PassedMore(line, st, r, i);
  }

  lemma {:induction false} RowOrder(line: string, st: nat, last: int, i: nat)
    requires RowBegins(line, st, last, i)
    ensures st <= |line| + 1 && last <= st && (last == st || last == st - 1)
  {
  }

  lemma {:induction false} AheadNone(codes: seq<string>, rows: seq<string>)
    requires 0 < |rows| <= |codes|
    ensures Ahead(codes, rows, 0) == codes[0]
  {
    assert WithCodes(codes, rows)[..0] == [];
  }

  lemma {:induction false} PassedMore(line: string, st: nat, r: nat, i: nat)
    requires Passed(line, st, r, WIDTH - i)
    ensures st <= r && Passed(line, st, r, WIDTH)
  {
  }

  lemma {:induction false} FirstRowStands(line: string, st: nat, last: int, i: nat)
    requires last <= st <= |line| + 1 && (last == st || last == st - 1)
    ensures var row := RowsFrom(line, st, last, i)[0]; row == Slice(line, st, st + |row|)
  {
  }

  // ---------- The colours of the characters ----------

  /** No colour code is cut in two: the lines on which the rows show the text of the line. */
  predicate CodesWhole(line: string) {
    !(|line| > WIDTH && line[0] == CTRL_A && Crowded(line))
  }

  /** Where row k begins in the line. */
  function StartOf(line: string, k: nat): nat
    requires k <= |Stops(line)|
  {
    StartIn(Stops(line), 0, k)
  }

  /** Where the scan had come when the row above row k was broken. */
  function PlaceOf(line: string, k: nat): nat
    requires k <= |Stops(line)|
  {
    PlaceIn(Stops(line), 0, k)
  }

  lemma {:induction false} RowsAndStops(line: string)
    ensures |Rows(line)| == |Prefixes(line)| == |Stops(line)| + 1
  {
    AsManyPrefixes(line);
  }

  lemma {:induction false} RowIsRight(fx: char -> Colour, line: string, k: nat)
    requires CodesWhole(line) && k < |Rows(line)|
    ensures Right(fx, line, Stops(line), Rows(line), Prefixes(line), 0, 0, "", k)
  {
    if |line| > WIDTH {
      LoneCharacter(line);
      StartComes(fx, line);
      RowComes(fx, line, 0, 0, 0, 0, "", "", k);
    } else {
      OnlyRow(fx, line);
    }
  }

  lemma {:induction false} StartComes(fx: char -> Colour, line: string)
    ensures Comes(fx, line, 0, 0, WIDTH - 0, "", "")
  {
    assert Upto(line, 0) == "" && "" + "" == "";
  }

  lemma {:induction false} OnlyRow(fx: char -> Colour, line: string)
    requires |line| <= WIDTH
    ensures Right(fx, line, Stops(line), Rows(line), Prefixes(line), 0, 0, "", 0)
  {
    assert WithCodes([""], [line])[..0] == [];
    assert "" + "" == "" && Upto(line, 0) == "" && Slice(line, 0, 0 + |line|) == line;
  }

  /** When row k is printed the console comes to its text in the colour that the line has at the place to which the
      scan had come when the row above was broken - not at the place where the row begins. */
  lemma {:induction false} RowStartsAhead(fx: char -> Colour, line: string, start: Colour, k: nat)
    requires CodesWhole(line) && k < |Rows(line)|
    ensures |Rows(line)| == |Prefixes(line)| == |Stops(line)| + 1
    ensures start + Paint(fx, Ahead(Prefixes(line), Rows(line), k)) == start + Paint(fx, Upto(line, PlaceOf(line, k)))
  {
    RowsAndStops(line);
    RowIsRight(fx, line, k);
    var ahead := Ahead(Prefixes(line), Rows(line), k);
    hide Ahead, Paint, Prefixes, Rows, Whole, Stands;
    assert "" + ahead == ahead;
  }

  /** Character q of row k, which is not part of a code. */
  predicate ShowsIn(line: string, k: nat, q: nat) {
    k < |Rows(line)| && q < |Rows(line)[k]| && Rows(line)[k][q] != CTRL_A && Whole(Rows(line)[k][..q])
  }

  /** The colour it shows in, on a console that starts in the given colour. */
  function ShownColour(fx: char -> Colour, line: string, start: Colour, k: nat, q: nat): Colour
    requires ShowsIn(line, k, q) && |Prefixes(line)| == |Rows(line)|
  {
    start + Paint(fx, Ahead(Prefixes(line), Rows(line), k) + Rows(line)[k][..q])
  }

  /** The colour of the character at p of the line. */
  function LineColour(fx: char -> Colour, line: string, start: Colour, p: nat): Colour {
    start + Paint(fx, Upto(line, p))
  }

  /** The codes that the scan had come by behind the character at p, and that none between the row's begin and p
      overrides, choose what is chosen there already. */
  ghost predicate Harmless(fx: char -> Colour, line: string, start: Colour, st: nat, p: nat, place: nat) {
    var ahead, here := Paint(fx, Between(line, p, place)), LineColour(fx, line, start, p);
    forall f :: f in ahead && f !in Paint(fx, Between(line, st, p)) ==> f in here && here[f] == ahead[f]
  }

  lemma {:induction false} ColourAt(fx: char -> Colour, line: string, start: Colour, st: nat, p: nat, place: nat)
    requires st <= p && st <= place && Whole(Upto(line, st))
    requires Whole(Between(line, st, p)) && Whole(Between(line, st, place))
    ensures start + (Paint(fx, Upto(line, place)) + Paint(fx, Between(line, st, p))) == LineColour(fx, line, start, p)
       <==> Harmless(fx, line, start, st, p, place)
  {
    UptoBetween(line, st, p);
    UptoBetween(line, st, place);
    PaintConcat(fx, Upto(line, st), Between(line, st, p));
    PaintConcat(fx, Upto(line, st), Between(line, st, place));
    if p <= place {
      BetweenParts(line, st, p, place);
      PaintConcat(fx, Between(line, st, p), Between(line, p, place));
    } else {
      BetweenParts(line, st, place, p);
      PaintConcat(fx, Between(line, st, place), Between(line, place, p));
      assert Between(line, p, place) == "";
    }
    var a, e, z := Paint(fx, Upto(line, st)), Paint(fx, Between(line, st, p)), Paint(fx, Between(line, p, place));
    var x, w := Paint(fx, Between(line, st, place)), Paint(fx, Between(line, place, p));
    hide Paint, Between, Upto, Whole;
    if p <= place {
      MergeFour(start, a, e, z);
      AheadAndBack(start + (a + e), z, e);
    } else {
      TwiceAhead(a, x, w);
    }
  }

  lemma {:induction false} MergeFour(start: Colour, a: Colour, e: Colour, z: Colour)
    ensures start + (a + (e + z) + e) == start + (a + e) + z + e
  {
  }

  /** A character shows in its colour in the line exactly when what the scan had come by behind it is harmless. */
  lemma {:induction false} ColoursAhead(fx: char -> Colour, line: string, start: Colour, k: nat, q: nat)
    requires CodesWhole(line) && ShowsIn(line, k, q)
    ensures |Prefixes(line)| == |Rows(line)| == |Stops(line)| + 1
    ensures ShownColour(fx, line, start, k, q) == LineColour(fx, line, start, StartOf(line, k) + q)
       <==> Harmless(fx, line, start, StartOf(line, k), StartOf(line, k) + q, PlaceOf(line, k))
  {
    hide *;
    RowsAndStops(line);
    RowMeaning(fx, line, k, q);
    ColourMet(fx, line, start, Ahead(Prefixes(line), Rows(line), k), StartOf(line, k), q, PlaceOf(line, k));
    ShownIs(fx, line, start, k, q);
  }

  lemma {:induction false} ColourMet(
    fx: char -> Colour, line: string, start: Colour, ahead: string, st: nat, q: nat, place: nat)
    requires Whole(ahead) && Paint(fx, ahead) == Paint(fx, Upto(line, place))
    requires Whole(Upto(line, st)) && Passed(line, st, place, WIDTH) && Whole(Between(line, st, st + q))
    ensures start + Paint(fx, ahead + Between(line, st, st + q)) == LineColour(fx, line, start, st + q)
       <==> Harmless(fx, line, start, st, st + q, place)
  {
    hide *;
    PaintConcat(fx, ahead, Between(line, st, st + q));
    PassedWhole(line, st, place, WIDTH);
    ColourAt(fx, line, start, st, st + q, place);
  }

  lemma {:induction false} ShownIs(fx: char -> Colour, line: string, start: Colour, k: nat, q: nat)
    requires ShowsIn(line, k, q) && |Prefixes(line)| == |Rows(line)|
    ensures ShownColour(fx, line, start, k, q)
         == start + Paint(fx, Ahead(Prefixes(line), Rows(line), k) + Rows(line)[k][..q])
  {
    hide Paint, Ahead;
  }

  lemma {:induction false} RowMeaning(fx: char -> Colour, line: string, k: nat, q: nat)
    requires CodesWhole(line) && ShowsIn(line, k, q) && |Rows(line)| == |Prefixes(line)| == |Stops(line)| + 1
    ensures k < |Rows(line)| && q < |Rows(line)[k]|
    ensures var ahead, st, place := Ahead(Prefixes(line), Rows(line), k), StartOf(line, k), PlaceOf(line, k);
            && Whole(ahead) && Paint(fx, ahead) == Paint(fx, Upto(line, place))
            && Whole(Upto(line, st)) && Passed(line, st, place, WIDTH)
            && Rows(line)[k][..q] == Between(line, st, st + q) && Whole(Between(line, st, st + q))
  {
    hide Ahead, Paint, Prefixes, Rows, Stops, Whole, Upto, Passed, Between, Right, Stands, Slice, CodesWhole, StartIn,
      PlaceIn;
    RowIsRight(fx, line, k);
    RightIs(fx, line, Stops(line), Rows(line), Prefixes(line), 0, 0, k);
    RowPart(line, StartOf(line, k), Rows(line)[k], q);
  }

  lemma {:induction false} RightIs(
    fx: char -> Colour, line: string, stops: seq<Stop>, rows: seq<string>, codes: seq<string>,
                                   st: nat, r: nat, k: nat)
    requires Right(fx, line, stops, rows, codes, st, r, "", k)
    ensures |rows| == |codes| == |stops| + 1 && k < |rows|
    ensures var ahead, place := Ahead(codes, rows, k), PlaceIn(stops, r, k);
            && Whole(ahead) && Paint(fx, ahead) == Paint(fx, Upto(line, place))
            && Whole(Upto(line, StartIn(stops, st, k))) && Passed(line, StartIn(stops, st, k), place, WIDTH)
            && rows[k] == Slice(line, StartIn(stops, st, k), StartIn(stops, st, k) + |rows[k]|)
  {
    var ahead := Ahead(codes, rows, k);
    hide Ahead, Paint, Whole, Upto, Passed, Slice, StartIn, PlaceIn;
    assert "" + ahead == ahead;
  }

  lemma {:induction false} RowPart(line: string, st: nat, row: string, q: nat)
    requires row == Slice(line, st, st + |row|) && q < |row|
    ensures row[..q] == Between(line, st, st + q)
  {
  }

  /** If the scan came by no code behind the break, the next row shows in its colours. */
  lemma {:induction false} NoCodesAhead(fx: char -> Colour, line: string, start: Colour, k: nat, q: nat)
    requires CodesWhole(line) && ShowsIn(line, k, q) && k <= |Stops(line)|
    requires CTRL_A !in Between(line, StartOf(line, k), PlaceOf(line, k))
    ensures |Prefixes(line)| == |Rows(line)|
    ensures ShownColour(fx, line, start, k, q) == LineColour(fx, line, start, StartOf(line, k) + q)
  {
    hide Paint, Between, ShownColour, LineColour, Prefixes, Rows, Stops, StartOf, PlaceOf, ShowsIn, CodesWhole;
    ColoursAhead(fx, line, start, k, q);
    var st, place := StartOf(line, k), PlaceOf(line, k);
    NothingBehind(line, st, st + q, place);
    NothingPainted(fx, Between(line, st + q, place));
  }

  lemma {:induction false} NothingBehind(line: string, a: nat, b: nat, c: nat)
    requires CTRL_A !in Between(line, a, c) && a <= b
    ensures CTRL_A !in Between(line, b, c)
  {
    if b <= c { BetweenParts(line, a, b, c); }
  }
}
