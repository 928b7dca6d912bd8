/** The colour codes put before the rows of a long line, and the colours in which its characters show. */
module WrapColours {
  import opened WordWrap

  // ---------- How far the scan got ----------

  /** Where the scan stands when it breaks the row. */
  function BreakAt(line: string, st: nat, last: int, j: nat, i: nat): (b: nat)
    requires st <= j && last <= j && (last >= st || last == st - 1)
    ensures b >= j
    decreases |line| + 1 - j
  {
    if j > |line| then j
    else if j < |line| && line[j] == CTRL_A then BreakAt(line, st, last, j + 2, i)
    else if i >= WIDTH then j
    else BreakAt(line, st, if j < |line| && line[j] == ' ' then j else last, j + 1, i + 1)
  }

  /** The text that was scanned ends here: at the break, or behind the character the row is broken at. */
  function Reached(line: string, st: nat, last: int, j: nat, i: nat): (r: nat)
    requires st <= j && last <= j && (last >= st || last == st - 1)
    ensures r >= j
  {
    var b := BreakAt(line, st, last, j, i);
    if Cut(line, st, last, j, i) == b then b + 1 else b
  }

  /** A break: where the next row begins, and how far the scan had come. */
  datatype Stop = Stop(next: nat, reached: nat)

  function StopsFrom(line: string, st: nat, last: int, i: nat): seq<Stop>
    requires last <= st && (last == st || last == st - 1)
    decreases |line| + 1 - st
  {
    var c := Cut(line, st, last, st, i);
    if c == -1 || st > |line| then []
    else [Stop(c + 1, Reached(line, st, last, st, i))] + StopsFrom(line, c + 1, c, 1)
  }

  function Stops(line: string): seq<Stop> {
    if |line| > WIDTH then StopsFrom(line, 0, 0, 0) else []
  }

  function Between(line: string, a: nat, b: nat): string {
    if a <= b then Slice(line, a, b) else ""
  }

  function Upto(line: string, n: nat): string {
    Slice(line, 0, n)
  }

  /** The colour codes of a text, without what it shows. */
  function Codes(s: string): string
    decreases |s|
  {
    if s == "" then ""
    else if s[0] == CTRL_A then
      if |s| >= 2 then [s[0], s[1]] + Codes(s[2..]) else s
    else Codes(s[1..])
  }

  /** The codes before each row: all that the scan had come by when the row above was broken, some of them twice. */
  function PrefixesFrom(line: string, st: nat, stops: seq<Stop>, p: string): (r: seq<string>)
    ensures |r| == |stops| + 1 && r[0] == p
    decreases |stops|
  {
    if stops == [] then [p]
    else [p] + PrefixesFrom(line, stops[0].next, stops[1..], p + Codes(Between(line, st, stops[0].reached)))
  }

  function Prefixes(line: string): (r: seq<string>)
    ensures |r| == |Stops(line)| + 1
  {
    PrefixesFrom(line, 0, Stops(line), "")
  }

  /** The codes that are kept with each row are those of the row below; the last row keeps its own. */
  function Later(prefixes: seq<string>): (r: seq<string>)
    requires prefixes != []
    ensures |r| == |prefixes|
  {
    prefixes[1..] + [prefixes[|prefixes| - 1]]
  }

  function WithCodes(codes: seq<string>, rows: seq<string>): seq<string>
    requires |codes| >= |rows|
  {
    seq(|rows|, k requires 0 <= k < |rows| => codes[k] + rows[k])
  }

  lemma {:induction false} AsManyStops(line: string, st: nat, last: int, i: nat)
    requires last <= st && (last == st || last == st - 1)
    ensures |RowsFrom(line, st, last, i)| == |StopsFrom(line, st, last, i)| + 1
    decreases |line| + 1 - st
  {
    var c := Cut(line, st, last, st, i);
    if c != -1 && st <= |line| { AsManyStops(line, c + 1, c, 1); }
  }

  lemma {:induction false} AsManyPrefixes(line: string)
    ensures |Prefixes(line)| == |Rows(line)|
  {
    if |line| > WIDTH { AsManyStops(line, 0, 0, 0); }
  }

  // ---------- Codes ----------

  predicate IsCodes(s: string) {
    Whole(s) && Visible(s) == ""
  }

  lemma {:induction false} CodesAreCodes(s: string)
    requires Whole(s)
    ensures IsCodes(Codes(s))
    decreases |s|
  {
    if s != "" {
      if s[0] == CTRL_A {
        CodesAreCodes(s[2..]);
        assert ([s[0], s[1]] + Codes(s[2..]))[2..] == Codes(s[2..]);
      } else {
        CodesAreCodes(s[1..]);
      }
    }
  }

  lemma {:induction false} NoCodes(s: string)
    ensures Codes(s) == "" <==> CTRL_A !in s
    decreases |s|
  {
    if s != "" {
      assert s == [s[0]] + s[1..];
      if s[0] != CTRL_A { NoCodes(s[1..]); }
    }
  }

  lemma {:induction false} CodesBoth(p: string, q: string)
    requires IsCodes(p) && IsCodes(q)
    ensures IsCodes(p + q)
  {
    VisibleConcat(p, q);
  }

  // ---------- Places ----------

  lemma {:induction false} BreakIsScanned(line: string, st: nat, last: int, j: nat, i: nat, used: nat)
    requires st <= j && last <= j && (last >= st || last == st - 1)
    requires used <= i <= WIDTH && Scanned(line, st, j, i - used)
    requires Cut(line, st, last, j, i) != -1
    ensures var b := BreakAt(line, st, last, j, i);
            Scanned(line, st, b, WIDTH - used) && (b < |line| ==> line[b] != CTRL_A) && Cut(line, st, last, j, i) <= b
    decreases |line| + 1 - j
  {
    ScannedInside(line, st, j, i - used);
    hide Scanned, Visible, Whole;
    if j < |line| && line[j] == CTRL_A {
      ScanCode(line, st, j, i - used);
      if j + 2 <= |line| { BreakIsScanned(line, st, last, j + 2, i, used); }
    } else if i < WIDTH && j < |line| {
      ScanChar(line, st, j, i - used);
      BreakIsScanned(line, st, if line[j] == ' ' then j else last, j + 1, i + 1, used);
    }
  }

  /** A row of a line begins at st, and no colour code is cut in two ahead of it. */
  predicate RowBegins(line: string, st: nat, last: int, i: nat) {
    && st <= |line| + 1 && i <= 1 && last <= st
    && if st == 0 then last == 0 && i == 0 && line != "" && (Cut(line, 0, 0, 0, 0) != 0 || line[0] != CTRL_A)
       else last == st - 1 && i == 1
  }

  /** An earlier scan passed from st to r, over at most n characters that show. */
  predicate Passed(line: string, st: nat, r: nat, n: int) {
    r == st || (st <= r <= |line| && Whole(line[st..r]) && |Visible(line[st..r])| <= n)
  }

  lemma {:induction false} RowShows(line: string, st: nat, last: int, i: nat, c: nat)
    requires RowBegins(line, st, last, i) && st <= |line| && c == Cut(line, st, last, st, i) && st <= c
    ensures Whole(Slice(line, st, c + 1)) && |Visible(Slice(line, st, c + 1))| > 0
  {
    assert line[st..st] == "";
    CutRow(line, st, last, st, i, i);
    if st == last == c == 0 {
      var row := Slice(line, st, c + 1);
      assert row == [line[0]] && row[1..] == "";
    }
  }

  lemma {:induction false} WholeParts(s: string, t: string)
    requires Whole(s) && Whole(s + t)
    ensures Whole(t) && Visible(s + t) == Visible(s) + Visible(t)
  {
    VisibleConcat(s, t);
  }

  /** A scan that counts no less gets no less far. */
  lemma {:induction false} NotBehind(line: string, st: nat, r: nat, b: nat, n: int)
    requires Passed(line, st, r, n) && Scanned(line, st, b, n) && (b < |line| ==> line[b] != CTRL_A)
    ensures r <= b
  {
    hide Visible, Whole;
    if b < r { ShowsMore(line, st, b, r); }
  }

  lemma {:induction false} ShowsMore(line: string, st: nat, b: nat, r: nat)
    requires st <= b < r <= |line| && Whole(line[st..b]) && line[b] != CTRL_A
    ensures |Visible(line[st..r])| > |Visible(line[st..b])|
  {
    assert line[st..r] == line[st..b] + line[b..r];
    VisibleConcat(line[st..b], line[b..r]);
    assert line[b..r][0] == line[b];
  }

  lemma {:induction false} PassedBehind(line: string, st: nat, c: nat, b: nat, n: int)
    requires st <= c < b && Scanned(line, st, b, n) && Whole(line[st..c + 1]) && |Visible(line[st..c + 1])| > 0
    ensures Passed(line, c + 1, b, n - 1)
  {
    assert line[st..b] == line[st..c + 1] + line[c + 1..b];
    WholeParts(line[st..c + 1], line[c + 1..b]);
  }

  lemma {:induction false} SliceInside(line: string, a: nat, b: nat)
    requires a <= b <= |line|
    ensures Slice(line, a, b) == line[a..b] == Between(line, a, b)
  {
  }

  /** What the row's scan passes of the next row. */
  lemma {:induction false} NextPlace(line: string, st: nat, last: int, i: nat, r: nat)
    requires RowBegins(line, st, last, i) && st <= |line| && Cut(line, st, last, st, i) != -1
    requires Passed(line, st, r, WIDTH - i)
    ensures var c, e := Cut(line, st, last, st, i), Reached(line, st, last, st, i);
            && RowBegins(line, c + 1, c, 1) && r <= e && c + 1 <= e && Passed(line, c + 1, e, WIDTH - 1)
            && Whole(Between(line, st, e)) && Whole(Slice(line, st, c + 1))
  {
    hide Scanned, Cut, BreakAt, Visible, Whole, Slice;
    var c, b := Cut(line, st, last, st, i), BreakAt(line, st, last, st, i);
    StartScanned(line, st);
    BreakIsScanned(line, st, last, st, i, i);
    NotBehind(line, st, r, b, WIDTH - i);
    RowShows(line, st, last, i, c);
    ScannedInside(line, st, b, WIDTH - i);
    if c < b {
      SliceInside(line, st, c + 1);
      SliceInside(line, st, b);
      PassedBehind(line, st, c, b, WIDTH - i);
      BreakIsWhole(line, st, b, WIDTH - i);
    }
  }

  lemma {:induction false} StartScanned(line: string, st: nat)
    requires st <= |line|
    ensures Scanned(line, st, st, 0)
  {
    assert line[st..st] == "";
  }

  lemma {:induction false} BreakIsWhole(line: string, st: nat, b: nat, n: int)
    requires Scanned(line, st, b, n)
    ensures Whole(line[st..b])
  {
  }

  // ---------- When the kept rows are the printed ones ----------

  /** No row's scan came by a code before it broke the row. */
  predicate NoCodesScanned(line: string, st: nat, stops: seq<Stop>)
    decreases |stops|
  {
    stops == [] || (CTRL_A !in Between(line, st, stops[0].reached) && NoCodesScanned(line, stops[0].next, stops[1..]))
  }

  lemma {:induction false} SamePrefixes(line: string, st: nat, stops: seq<Stop>, p: string)
    ensures Later(PrefixesFrom(line, st, stops, p)) == PrefixesFrom(line, st, stops, p)
       <==> NoCodesScanned(line, st, stops)
    decreases |stops|
  {
    if stops != [] {
      var q := p + Codes(Between(line, st, stops[0].reached));
      var rest := PrefixesFrom(line, stops[0].next, stops[1..], q);
      NoCodes(Between(line, st, stops[0].reached));
      SamePrefixes(line, stops[0].next, stops[1..], q);
      LaterCons(p, rest);
      assert q == p <==> Codes(Between(line, st, stops[0].reached)) == "";
    }
  }

  lemma {:induction false} LaterCons(p: string, rest: seq<string>)
    requires rest != []
    ensures Later([p] + rest) == [p] + rest <==> p == rest[0] && Later(rest) == rest
  {
    var all := [p] + rest;
    assert Later(all) == [rest[0]] + Later(rest);
    if Later(all) == all {
      assert Later(all)[0] == all[0] && Later(all)[1..] == all[1..];
      assert Later(all)[1..] == Later(rest) && all[1..] == rest;
    }
  }

  /** How far the scan had come when the last row was broken. */
  function LastPlace(stops: seq<Stop>): nat {
    if stops == [] then 0 else stops[|stops| - 1].reached
  }

  lemma {:induction false} CodesBeforeLast(line: string, st: nat, last: int, i: nat, r: nat)
    requires RowBegins(line, st, last, i) && Passed(line, st, r, WIDTH - i)
    ensures var stops := StopsFrom(line, st, last, i);
            (NoCodesScanned(line, st, stops) <==> CTRL_A !in Between(line, st, LastPlace(stops)))
            && (stops != [] ==> r <= LastPlace(stops))
    decreases |line| + 1 - st
  {
    hide *;
    BeginsInOrder(line, st, last, i);
    NextStop(line, st, last, i);
    var c := Cut(line, st, last, st, i);
    if c == -1 || st > |line| {
      ScannedNone(line, st);
      NothingUpto(line, st);
    } else {
      var e := Reached(line, st, last, st, i);
      NextPlace(line, st, last, i, r);
      CodesBeforeLast(line, c + 1, c, 1, e);
      var rest := StopsFrom(line, c + 1, c, 1);
      ScannedNone(line, c + 1);
      InBetween(line, st, c + 1, e, if rest == [] then e else LastPlace(rest));
      LastCons(Stop(c + 1, e), rest);
      ScannedCons(line, st, Stop(c + 1, e), rest);
    }
  }

  lemma {:induction false} BeginsInOrder(line: string, st: nat, last: int, i: nat)
    requires RowBegins(line, st, last, i)
    ensures last <= st && (last == st || last == st - 1)
  {
  }

  lemma {:induction false} NextStop(line: string, st: nat, last: int, i: nat)
    requires last <= st && (last == st || last == st - 1)
    ensures var c := Cut(line, st, last, st, i);
            StopsFrom(line, st, last, i)
            == if c == -1 || st > |line| then []
              else [Stop(c + 1, Reached(line, st, last, st, i))] + StopsFrom(line, c + 1, c, 1)
  {
  }

  lemma {:induction false} NothingUpto(line: string, st: nat)
    ensures CTRL_A !in Between(line, st, LastPlace([]))
  {
  }

  lemma {:induction false} BetweenParts(line: string, a: nat, b: nat, c: nat)
    requires a <= b <= c
    ensures Between(line, a, c) == Between(line, a, b) + Between(line, b, c)
  {
  }

  lemma {:induction false} InEither(c: char, s: string, t: string)
    ensures c in s + t <==> c in s || c in t
  {
  }

  lemma {:induction false} InBetween(line: string, a: nat, b: nat, e: nat, z: nat)
    requires a <= b <= e <= z
    ensures CTRL_A in Between(line, a, z) <==> CTRL_A in Between(line, a, e) || CTRL_A in Between(line, b, z)
    ensures CTRL_A in Between(line, b, e) ==> CTRL_A in Between(line, a, e)
  {
    hide Between;
    BetweenParts(line, a, e, z);
    BetweenParts(line, b, e, z);
    BetweenParts(line, a, b, e);
    InEither(CTRL_A, Between(line, a, e), Between(line, e, z));
    InEither(CTRL_A, Between(line, b, e), Between(line, e, z));
    InEither(CTRL_A, Between(line, a, b), Between(line, b, e));
  }

  lemma {:induction false} LastCons(s: Stop, rest: seq<Stop>)
    ensures LastPlace([s] + rest) == if rest == [] then s.reached else LastPlace(rest)
  {
  }

  lemma {:induction false} ScannedCons(line: string, st: nat, s: Stop, rest: seq<Stop>)
    ensures NoCodesScanned(line, st, [s] + rest)
       <==> CTRL_A !in Between(line, st, s.reached) && NoCodesScanned(line, s.next, rest)
  {
    assert ([s] + rest)[1..] == rest;
  }

  lemma {:induction false} ScannedNone(line: string, st: nat)
    ensures NoCodesScanned(line, st, [])
  {
  }

  lemma {:induction false} SameRows(a: seq<string>, b: seq<string>, rows: seq<string>)
    requires |a| == |b| == |rows|
    ensures WithCodes(a, rows) == WithCodes(b, rows) <==> a == b
  {
    var x, y := WithCodes(a, rows), WithCodes(b, rows);
    if x == y {
      forall k | 0 <= k < |a| ensures a[k] == b[k] {
        assert x[k] == y[k];
        assert (a[k] + rows[k])[..|x[k]| - |rows[k]|] == a[k] && (b[k] + rows[k])[..|x[k]| - |rows[k]|] == b[k];
      }
    }
  }

  /** The screen keeps the rows as they were printed exactly when there is no code up to where the
      scan last broke a row. */
  lemma {:induction false} KeptAsPrinted(line: string)
    ensures |Prefixes(line)| == |Rows(line)|
    ensures WithCodes(Later(Prefixes(line)), Rows(line)) == WithCodes(Prefixes(line), Rows(line))
       <==> CTRL_A !in Upto(line, LastPlace(Stops(line)))
  {
    var stops := Stops(line);
    AsManyPrefixes(line);
    SameRows(Later(Prefixes(line)), Prefixes(line), Rows(line));
    SamePrefixes(line, 0, stops, "");
    if stops != [] {
      if RowBegins(line, 0, 0, 0) { CodesBeforeLast(line, 0, 0, 0, 0); } else { CodeAtStart(line); }
    }
  }

  lemma {:induction false} LastPlaceBehind(line: string, st: nat, last: int, i: nat)
    requires last <= st && (last == st || last == st - 1)
    ensures var stops := StopsFrom(line, st, last, i); stops != [] ==> LastPlace(stops) >= st
    decreases |line| + 1 - st
  {
    var c := Cut(line, st, last, st, i);
    if c != -1 && st <= |line| {
      LastPlaceBehind(line, c + 1, c, 1);
      LastCons(Stop(c + 1, Reached(line, st, last, st, i)), StopsFrom(line, c + 1, c, 1));
    }
  }

  lemma {:induction false} CodeAtStart(line: string)
    requires Stops(line) != [] && line[0] == CTRL_A
    ensures CTRL_A in Upto(line, LastPlace(Stops(line))) && !NoCodesScanned(line, 0, Stops(line))
  {
    var c, e := Cut(line, 0, 0, 0, 0), Reached(line, 0, 0, 0, 0);
    assert e >= 1;
    LastPlaceBehind(line, c + 1, c, 1);
    LastCons(Stop(c + 1, e), StopsFrom(line, c + 1, c, 1));
    hide Cut, Reached, StopsFrom;
    var n := LastPlace(Stops(line));
    assert n >= 1;
    assert Upto(line, n)[0] == CTRL_A && Between(line, 0, e)[0] == CTRL_A;
  }
}
