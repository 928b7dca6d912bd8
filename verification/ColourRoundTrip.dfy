/** Saving a buffer with its colours and loading it:
    what comes back, for any text. */
module ColourRoundTrip {
  import opened Options
  import opened EditorText
  import opened ColourCodec

  // ---------- What the reader can make of a text ----------

  /** No line end and no tab: the reader never puts one into a row. */
  predicate Clean(t: string) {
    '\r' !in t && '\n' !in t && '\t' !in t
  }

  lemma {:induction false} ReadsClean(s: string, r: Row, a: Attr, cols: nat, tab: nat)
    requires tab > 0 && Clean(r.text)
    ensures var l := ReadLine(s, r, a, cols, tab); l.LineRead? ==> Clean(l.row.text) && r.attr <= l.row.attr
    decreases |s|
  {
    hide Apply;
    if s != "" {
      if s[0] == '\r' {
        ReadsClean(s[1..], r, a, cols, tab);
      } else if s[0] == CTRL_A {
        if |s| > 1 {
          if s[1] == CTRL_A { ReadsClean(s[2..], Append(r, CTRL_A, a), a, cols, tab); }
          else { ReadsClean(s[2..], r, Apply(a, s[1]), cols, tab); }
        }
      } else if s[0] == '\t' {
        ReadsClean(s[1..], AppendTab(r, a, tab), a, cols, tab);
      } else if s[0] != '\n' && (s[0] == ' ' || |r.text| < cols) {
        ReadsClean(s[1..], Append(r, s[0], a), a, cols, tab);
      }
    }
  }

  function CtrlAs(t: string): nat {
    if t == "" then 0 else (if t[0] == CTRL_A then 1 else 0) + CtrlAs(t[1..])
  }

  function RowCtrlAs(d: seq<Row>): nat {
    if d == [] then 0 else CtrlAs(d[0].text) + RowCtrlAs(d[1..])
  }

  /** How many Ctrl-A characters the reader puts into rows: it takes two for each. */
  function Pairs(s: string): nat
    decreases |s|
  {
    if s == "" then 0
    else if s[0] == CTRL_A then
      if |s| == 1 then 0 else (if s[1] == CTRL_A then 1 else 0) + Pairs(s[2..])
    else Pairs(s[1..])
  }

  lemma {:induction false} CtrlAsConcat(t: string, u: string)
    ensures CtrlAs(t + u) == CtrlAs(t) + CtrlAs(u)
  {
    if t == "" {
      assert t + u == u;
    } else {
      assert (t + u)[1..] == t[1..] + u;
      CtrlAsConcat(t[1..], u);
    }
  }

  lemma {:induction false} AppendCounts(r: Row, c: char, a: Attr)
    ensures CtrlAs(Append(r, c, a).text) == CtrlAs(r.text) + if c == CTRL_A then 1 else 0
  {
    CtrlAsConcat(r.text, [c]);
    assert [c][1..] == "";
  }

  lemma {:induction false} TabCounts(r: Row, a: Attr, tab: nat)
    requires tab > 0
    ensures CtrlAs(AppendTab(r, a, tab).text) == CtrlAs(r.text)
  {
    var blanks := seq(tab - |r.text| % tab, _ => ' ');
    CtrlAsConcat(r.text, blanks);
    NoCtrlA(blanks);
  }

  lemma {:induction false} NoCtrlA(t: string)
    ensures CtrlAs(t) == 0 <==> CTRL_A !in t
  {
    if t != "" {
      assert t == [t[0]] + t[1..];
      NoCtrlA(t[1..]);
    }
  }

  lemma {:induction false} LineCounts(s: string, r: Row, a: Attr, cols: nat, tab: nat)
    requires tab > 0
    ensures var l := ReadLine(s, r, a, cols, tab);
            l.LineRead? ==> CtrlAs(l.row.text) + Pairs(l.rest) == CtrlAs(r.text) + Pairs(s)
    decreases |s|
  {
    hide Apply, CtrlAs;
    if s != "" {
      if s[0] == '\r' {
        LineCounts(s[1..], r, a, cols, tab);
      } else if s[0] == CTRL_A {
        if |s| > 1 {
          if s[1] == CTRL_A {
            AppendCounts(r, CTRL_A, a);
            LineCounts(s[2..], Append(r, CTRL_A, a), a, cols, tab);
          } else {
            LineCounts(s[2..], r, Apply(a, s[1]), cols, tab);
          }
        }
      } else if s[0] == '\t' {
        TabCounts(r, a, tab);
        LineCounts(s[1..], AppendTab(r, a, tab), a, cols, tab);
      } else if s[0] != '\n' && (s[0] == ' ' || |r.text| < cols) {
        AppendCounts(r, s[0], a);
        LineCounts(s[1..], Append(r, s[0], a), a, cols, tab);
      }
    }
  }

  lemma {:induction false} DecodeCounts(s: string, a: Attr, cols: nat, tab: nat)
    requires tab > 0
    ensures var d := Decode(s, a, cols, tab); d.Some? ==> RowCtrlAs(d.value) == Pairs(s)
    decreases |s|
  {
    if s != "" {
      LineCounts(s, NEW_ROW, a, cols, tab);
      var l := ReadLine(s, NEW_ROW, a, cols, tab);
      hide ReadLine, Pairs, CtrlAs;
      if l.LineRead? {
        DecodeCounts(l.rest, l.a, cols, tab);
        var more := Decode(l.rest, l.a, cols, tab);
        if more.Some? { assert ([l.row] + more.value)[1..] == more.value; }
      }
      assert CtrlAs("") == 0 by { NoCtrlA(""); }
    }
  }

  lemma {:induction false} DocumentCounts(d: seq<Row>)
    ensures RowCtrlAs(Document(d)) == RowCtrlAs(d)
  {
    if d != [] {
      DocumentCons(d);
      DocumentCounts(d[1..]);
    }
  }

  // ---------- What the writer makes of Ctrl-A characters ----------

  /** w says which characters are Ctrl-A characters of the rows; every other Ctrl-A has its code behind it. */
  predicate Marked(s: string, w: seq<bool>) {
    |s| == |w| && forall k :: 0 <= k < |s| ==> MarkedAt(s, w, k)
  }

  predicate MarkedAt(s: string, w: seq<bool>, k: nat)
    requires k < |s| == |w|
  {
    (w[k] ==> s[k] == CTRL_A) && (s[k] == CTRL_A && !w[k] ==> k + 1 < |s| && IsCode(s[k + 1]))
  }

  function Count(w: seq<bool>): nat {
    if w == [] then 0 else (if w[0] then 1 else 0) + Count(w[1..])
  }

  lemma {:induction false} CountConcat(v: seq<bool>, w: seq<bool>)
    ensures Count(v + w) == Count(v) + Count(w)
  {
    if v == [] {
      assert v + w == w;
    } else {
      assert (v + w)[1..] == v[1..] + w;
      CountConcat(v[1..], w);
    }
  }

  lemma {:induction false} MarkedTail(s: string, w: seq<bool>, n: nat)
    requires Marked(s, w) && n <= |s|
    ensures Marked(s[n..], w[n..])
  {
    forall k | 0 <= k < |s[n..]| ensures MarkedAt(s[n..], w[n..], k) { assert MarkedAt(s, w, n + k); }
  }

  /** Each pair begins with a Ctrl-A of the rows. */
  lemma {:induction false} PairsBounded(s: string, w: seq<bool>)
    requires Marked(s, w)
    ensures Pairs(s) <= Count(w)
    decreases |s|
  {
    if s != "" {
      assert MarkedAt(s, w, 0);
      MarkedTail(s, w, 1);
      PairsBounded(s[1..], w[1..]);
      if s[0] == CTRL_A && |s| > 1 {
        MarkedTail(s, w, 2);
        PairsBounded(s[2..], w[2..]);
        assert w[1..][1..] == w[2..];
      }
    }
  }

  /** If the first character is one of them, and no code follows it, then not all of them make pairs. */
  lemma {:induction false} OnePairLess(s: string, w: seq<bool>)
    requires Marked(s, w) && s != "" && w[0] && (|s| > 1 && s[1] == CTRL_A ==> w[1])
    ensures Pairs(s) < Count(w)
  {
    assert MarkedAt(s, w, 0);
    if |s| > 1 {
      MarkedTail(s, w, 2);
      PairsBounded(s[2..], w[2..]);
      assert w[1..][1..] == w[2..];
    }
  }

  lemma {:induction false} MarkedConcat(s: string, w: seq<bool>, t: string, v: seq<bool>)
    requires Marked(s, w) && Marked(t, v)
    ensures Marked(s + t, w + v) && Count(w + v) == Count(w) + Count(v)
  {
    CountConcat(w, v);
    forall k | 0 <= k < |s + t| ensures MarkedAt(s + t, w + v, k) {
      if k < |s| { assert MarkedAt(s, w, k); } else { assert MarkedAt(t, v, k - |s|); }
    }
  }

  function Unmarked(n: nat): seq<bool> {
    seq(n, _ => false)
  }

  lemma {:induction false} UnmarkedCount(n: nat)
    ensures Count(Unmarked(n)) == 0
  {
    if n > 0 {
      assert Unmarked(n)[1..] == Unmarked(n - 1);
      UnmarkedCount(n - 1);
    }
  }

  lemma {:induction false} CodesMarked(codes: string)
    requires AllCodes(codes)
    ensures Marked(Escape(codes), Unmarked(|Escape(codes)|))
  {
    if codes != "" {
      CodesMarked(codes[1..]);
      var code := [CTRL_A, codes[0]];
      assert Marked(code, [false, false]) by {
        assert MarkedAt(code, [false, false], 0) && MarkedAt(code, [false, false], 1);
      }
      hide Marked, MarkedAt;
      MarkedConcat(code, [false, false], Escape(codes[1..]), Unmarked(|Escape(codes[1..])|));
      assert [false, false] + Unmarked(|Escape(codes[1..])|) == Unmarked(|Escape(codes)|);
    }
  }

  /** The marks of a row's text. */
  function TextMarks(t: string, attr: seq<Attr>, last: Attr): seq<bool>
    requires |t| == |attr|
    decreases |t|
  {
    if t == "" then []
    else Unmarked(|Escape(Codes(last, attr[0]))|) + [t[0] == CTRL_A] + TextMarks(t[1..], attr[1..], attr[0])
  }

  lemma {:induction false} TextMarked(t: string, attr: seq<Attr>, last: Attr)
    requires |t| == |attr|
    ensures Marked(EncodeText(t, attr, last), TextMarks(t, attr, last)) && Count(TextMarks(t, attr, last)) == CtrlAs(t)
    decreases |t|
  {
    if t != "" {
      hide Codes, Escape;
      var codes := Codes(last, attr[0]);
      CodesAreCodes(last, attr[0]);
      CodesMarked(codes);
      UnmarkedCount(|Escape(codes)|);
      TextMarked(t[1..], attr[1..], attr[0]);
      hide Marked;
      CharMarked(t[0]);
      MarkedConcat(Escape(codes), Unmarked(|Escape(codes)|), [t[0]], [t[0] == CTRL_A]);
      MarkedConcat(Escape(codes) + [t[0]], Unmarked(|Escape(codes)|) + [t[0] == CTRL_A],
                   EncodeText(t[1..], attr[1..], attr[0]), TextMarks(t[1..], attr[1..], attr[0]));
    }
  }

  lemma {:induction false} CharMarked(c: char)
    ensures Marked([c], [c == CTRL_A]) && Count([c == CTRL_A]) == if c == CTRL_A then 1 else 0
  {
    assert [c == CTRL_A][1..] == [];
  }

  lemma {:induction false} TrimIsPrefix(s: string)
    ensures TrimEnd(s) <= s
    ensures forall k :: |TrimEnd(s)| <= k < |s| ==> s[k] == ' ' || s[k] == '\t'
    decreases |s|
  {
    if s != "" && (s[|s| - 1] == ' ' || s[|s| - 1] == '\t') { TrimIsPrefix(s[..|s| - 1]); }
  }

  lemma {:induction false} CountNone(w: seq<bool>)
    requires forall k :: 0 <= k < |w| ==> !w[k]
    ensures Count(w) == 0
  {
    if w != [] { CountNone(w[1..]); }
  }

  lemma {:induction false} TrimMarked(s: string, w: seq<bool>)
    requires Marked(s, w)
    ensures |TrimEnd(s)| <= |s| && Marked(TrimEnd(s), w[..|TrimEnd(s)|]) && Count(w[..|TrimEnd(s)|]) == Count(w)
  {
    TrimIsPrefix(s);
    var n := |TrimEnd(s)|;
    assert TrimEnd(s) == s[..n];
    forall k | n <= k < |s| ensures !w[k] && !IsCode(s[k]) { assert MarkedAt(s, w, k); }
    forall k | 0 <= k < n ensures MarkedAt(s[..n], w[..n], k) { assert MarkedAt(s, w, k); }
    CountNone(w[n..]);
    CountConcat(w[..n], w[n..]);
    assert w == w[..n] + w[n..];
  }

  lemma {:induction false} LineMarked(l: string, w: seq<bool>, rest: string, v: seq<bool>) returns (all: seq<bool>)
    requires Marked(l, w) && Marked(rest, v)
    ensures Marked(TrimEnd(l) + "\r\n" + rest, all) && Count(all) == Count(w) + Count(v)
    ensures |TrimEnd(l)| <= |w| && all == w[..|TrimEnd(l)|] + [false, false] + v
  {
    TrimMarked(l, w);
    var n := |TrimEnd(l)|;
    assert Marked("\r\n", [false, false]) && Count([false, false]) == 0 by { CountNone([false, false]); }
    hide Marked, TrimEnd;
    MarkedConcat(TrimEnd(l), w[..n], "\r\n", [false, false]);
    MarkedConcat(TrimEnd(l) + "\r\n", w[..n] + [false, false], rest, v);
    all := w[..n] + [false, false] + v;
  }

  lemma {:induction false} EncodeMarked(
    d: seq<Row>, soft: bool, line: string, w: seq<bool>, last: Attr) returns (all: seq<bool>)
    requires Marked(line, w)
    ensures Marked(Encode(d, soft, line, last), all) && Count(all) == Count(w) + RowCtrlAs(d)
    decreases |d|
  {
    all := w;
    if d != [] {
      hide EncodeText, TrimEnd, Marked, TextMarks, CtrlAs;
      var t, attr := d[0].text, d[0].attr;
      var l, last' := line + EncodeText(t, attr, last), LastAttr(attr, last);
      TextMarked(t, attr, last);
      MarkedConcat(line, w, EncodeText(t, attr, last), TextMarks(t, attr, last));
      var v := w + TextMarks(t, attr, last);
      if soft || d[0].hardcr {
        NothingMarked();
        var more := EncodeMarked(d[1..], soft, "", [], last');
        all := LineMarked(l, v, Encode(d[1..], soft, "", last'), more);
      } else {
        all := EncodeMarked(d[1..], soft, l, v, last');
      }
    }
  }

  lemma {:induction false} NothingMarked()
    ensures Marked("", []) && Count([]) == 0
  {
  }

  // ---------- A row with a Ctrl-A ----------

  lemma {:induction false} EncodeTextConcat(t: string, attr: seq<Attr>, u: string, b: seq<Attr>, last: Attr)
    requires |t| == |attr| && |u| == |b|
    ensures EncodeText(t + u, attr + b, last) == EncodeText(t, attr, last) + EncodeText(u, b, LastAttr(attr, last))
    decreases |t|
  {
    hide Escape, Codes;
    if t == "" {
      assert t + u == u && attr + b == b;
    } else {
      assert (t + u)[1..] == t[1..] + u && (attr + b)[1..] == attr[1..] + b;
      EncodeTextConcat(t[1..], attr[1..], u, b, attr[0]);
      assert LastAttr(attr[1..], attr[0]) == LastAttr(attr, last);
    }
  }

  lemma {:induction false} FirstCtrlA(t: string) returns (i: nat)
    requires CTRL_A in t
    ensures i < |t| && t[i] == CTRL_A && CTRL_A !in t[..i]
  {
    i := 0;
    if t[0] != CTRL_A {
      assert t == [t[0]] + t[1..];
      var j := FirstCtrlA(t[1..]);
      i := j + 1;
      assert t[..i] == [t[0]] + t[1..][..i - 1];
    }
  }

  lemma {:induction false} TrimKeeps(p: string, x: char, u: string)
    requires x != ' ' && x != '\t'
    ensures TrimEnd(p + [x] + u) == p + [x] + TrimEnd(u)
    decreases |u|
  {
    var s := p + [x] + u;
    if u == "" {
      assert s[|s| - 1] == x;
    } else {
      var n := |u| - 1;
      assert s[..|s| - 1] == p + [x] + u[..n] && s[|s| - 1] == u[n];
      if u[n] == ' ' || u[n] == '\t' { TrimKeeps(p, x, u[..n]); }
    }
  }

  /** The row's text up to its first Ctrl-A, and what is written behind that. */
  lemma {:induction false} WrittenAround(t: string, attr: seq<Attr>, last: Attr, i: nat)
    requires |t| == |attr| && i < |t| && t[i] == CTRL_A
    ensures var before := EncodeText(t[..i], attr[..i], last) + Escape(Codes(LastAttr(attr[..i], last), attr[i]));
            TrimEnd(EncodeText(t, attr, last))
                 == before + [CTRL_A] + TrimEnd(EncodeText(t[i + 1..], attr[i + 1..], attr[i]))
  {
    hide Escape, Codes, EncodeText, TrimEnd;
    assert t == t[..i] + t[i..] && attr == attr[..i] + attr[i..];
    EncodeTextConcat(t[..i], attr[..i], t[i..], attr[i..], last);
    var e, c := EncodeText(t[..i], attr[..i], last), Escape(Codes(LastAttr(attr[..i], last), attr[i]));
    var u := EncodeText(t[i + 1..], attr[i + 1..], attr[i]);
    TextFirst(t[i..], attr[i..], LastAttr(attr[..i], last));
    assert e + (c + [CTRL_A] + u) == (e + c) + [CTRL_A] + u;
    TrimKeeps(e + c, CTRL_A, u);
  }

  lemma {:induction false} TextFirst(t: string, attr: seq<Attr>, last: Attr)
    requires |t| == |attr| && t != ""
    ensures EncodeText(t, attr, last) == Escape(Codes(last, attr[0])) + [t[0]] + EncodeText(t[1..], attr[1..], attr[0])
  {
  }

  /** No pair comes of text without a Ctrl-A, or of its codes. */
  lemma {:induction false} PairsOfCodes(codes: string, rest: string)
    requires AllCodes(codes)
    ensures Pairs(Escape(codes) + rest) == Pairs(rest)
  {
    if codes == "" {
      assert Escape(codes) + rest == rest;
    } else {
      var s := Escape(codes) + rest;
      assert s[0] == CTRL_A && s[1] == codes[0] && s[2..] == Escape(codes[1..]) + rest;
      PairsOfCodes(codes[1..], rest);
    }
  }

  lemma {:induction false} PairsOfText(t: string, attr: seq<Attr>, last: Attr, rest: string)
    requires |t| == |attr| && CTRL_A !in t
    ensures Pairs(EncodeText(t, attr, last) + rest) == Pairs(rest)
    decreases |t|
  {
    if t == "" {
      assert EncodeText(t, attr, last) + rest == rest;
    } else {
      var codes, more := Codes(last, attr[0]), EncodeText(t[1..], attr[1..], attr[0]) + rest;
      CodesAreCodes(last, attr[0]);
      hide Codes, Escape;
      assert EncodeText(t, attr, last) + rest == Escape(codes) + ([t[0]] + more);
      PairsOfCodes(codes, [t[0]] + more);
      assert t == [t[0]] + t[1..];
      assert ([t[0]] + more)[1..] == more;
      PairsOfText(t[1..], attr[1..], attr[0], rest);
    }
  }

  /** What is written behind the Ctrl-A at i begins with a code, or with a character of the rows, or with a line end. */
  predicate CodeBehind(t: string, attr: seq<Attr>, i: nat)
    requires |t| == |attr| && i < |t|
  {
    i + 1 < |t| && Codes(attr[i], attr[i + 1]) != ""
  }

  /** Without a code behind it, the Ctrl-A swallows something, and there is a Ctrl-A less than there should be. */
  lemma {:induction false} SwallowedPairs(t: string, attr: seq<Attr>, last: Attr, i: nat, rest: string, v: seq<bool>)
    requires |t| == |attr| && i < |t| && t[i] == CTRL_A && CTRL_A !in t[..i] && !CodeBehind(t, attr, i)
    requires Marked(rest, v)
    ensures Pairs(TrimEnd(EncodeText(t, attr, last)) + "\r\n" + rest) < CtrlAs(t) + Count(v)
  {
    var u, b := t[i + 1..], attr[i + 1..];
    TextMarked(u, b, attr[i]);
    var w := LineMarked(EncodeText(u, b, attr[i]), TextMarks(u, b, attr[i]), rest, v);
    BehindStarts(u, b, attr[i], rest, w, v);
    WrittenAround(t, attr, last, i);
    CodesAreCodes(LastAttr(attr[..i], last), attr[i]);
    hide Codes, Escape, EncodeText, TrimEnd, Marked, TextMarks, Pairs;
    var e, c := EncodeText(t[..i], attr[..i], last), Codes(LastAttr(attr[..i], last), attr[i]);
    var z := TrimEnd(EncodeText(u, b, attr[i])) + "\r\n" + rest;
    Regrouped(e, Escape(c), [CTRL_A], TrimEnd(EncodeText(u, b, attr[i])), rest);
    PairsOfText(t[..i], attr[..i], last, Escape(c) + ([CTRL_A] + z));
    PairsOfCodes(c, [CTRL_A] + z);
    hide *;
    OnePairSwallowed(z, w);
    CtrlAsAround(t, i);
  }

  lemma {:induction false} Regrouped(e: string, c: string, x: string, u: string, rest: string)
    ensures e + c + x + u + "\r\n" + rest == e + (c + (x + (u + "\r\n" + rest)))
  {
  }

  lemma {:induction false} OnePairSwallowed(z: string, w: seq<bool>)
    requires Marked(z, w) && z != "" && w != [] && (z[0] == CTRL_A ==> w[0])
    ensures Pairs([CTRL_A] + z) < 1 + Count(w)
  {
    CharMarked(CTRL_A);
    MarkedConcat([CTRL_A], [true], z, w);
    FirstIs([CTRL_A] + z, [true] + w, z, w);
    hide Marked, Pairs, Count;
    OnePairLess([CTRL_A] + z, [true] + w);
  }

  lemma {:induction false} BehindStarts(u: string, b: seq<Attr>, last: Attr, rest: string, w: seq<bool>, v: seq<bool>)
    requires |u| == |b| && (u != "" ==> Codes(last, b[0]) == "")
    requires |TrimEnd(EncodeText(u, b, last))| <= |TextMarks(u, b, last)|
    requires w == TextMarks(u, b, last)[..|TrimEnd(EncodeText(u, b, last))|] + [false, false] + v
    ensures var z := TrimEnd(EncodeText(u, b, last)) + "\r\n" + rest; z != "" && w != [] && (z[0] == CTRL_A ==> w[0])
  {
    var e := EncodeText(u, b, last);
    TrimIsPrefix(e);
    if u != "" {
      assert e[0] == u[0] && TextMarks(u, b, last)[0] == (u[0] == CTRL_A);
    }
  }

  lemma {:induction false} FirstIs(s: string, x: seq<bool>, z: string, w: seq<bool>)
    requires s == [CTRL_A] + z && x == [true] + w && |z| == |w|
    ensures s != "" && x[0] && (|s| > 1 ==> s[1] == z[0] && x[1] == w[0])
  {
  }

  lemma {:induction false} CtrlAsAround(t: string, i: nat)
    requires i < |t| && t[i] == CTRL_A && CTRL_A !in t[..i]
    ensures CtrlAs(t) == 1 + CtrlAs(t[i + 1..])
  {
    assert t == t[..i] + ([CTRL_A] + t[i + 1..]);
    CtrlAsConcat(t[..i], [CTRL_A] + t[i + 1..]);
    NoCtrlA(t[..i]);
    assert ([CTRL_A] + t[i + 1..])[1..] == t[i + 1..];
  }

  /** With a code behind it, the Ctrl-A takes the code's own one, and the code's letter shows. */
  lemma {:induction false} LetterShows(
    t: string, attr: seq<Attr>, last: Attr, i: nat, rest: string, cols: nat, tab: nat)
    requires tab > 0 && |t| == |attr| && i < |t| && t[i] == CTRL_A && Printable(t[..i]) && CodeBehind(t, attr, i)
    ensures var l := ReadLine(TrimEnd(EncodeText(t, attr, last)) + "\r\n" + rest, NEW_ROW, last, cols, tab);
            l.LineRead? ==> l.row.attr != attr
  {
    var z := CodeFirst(t[i + 1..], attr[i + 1..], attr[i], rest);
    var codes := Codes(attr[i], attr[i + 1]);
    var c := Codes(LastAttr(attr[..i], last), attr[i]);
    CodesAreCodes(attr[i], attr[i + 1]);
    CodesAreCodes(LastAttr(attr[..i], last), attr[i]);
    WrittenAround(t, attr, last, i);
    assert attr[i] != attr[i + 1];
    assert IsCode(codes[0]);
    hide Codes, Escape, EncodeText, TrimEnd;
    var e, u := EncodeText(t[..i], attr[..i], last), TrimEnd(EncodeText(t[i + 1..], attr[i + 1..], attr[i]));
    Regrouped(e, Escape(c), [CTRL_A], u, rest);
    var s := [CTRL_A] + ([CTRL_A, codes[0]] + z);
    LetterReadBehind(t[..i], attr[..i], last, c, codes[0], z, cols, tab);
    hide *;
  }

  /** The pair and the letter are read behind the first part of the row. */
  lemma {:induction false} LetterReadBehind(
    t: string, attr: seq<Attr>, last: Attr, c: string, x: char, z: string, cols: nat, tab: nat)
    requires tab > 0 && |t| == |attr| && Printable(t) && AllCodes(c) && IsCode(x)
    ensures var s := EncodeText(t, attr, last) + (Escape(c) + ([CTRL_A] + ([CTRL_A, x] + z)));
            var l := ReadLine(s, NEW_ROW, last, cols, tab);
            l.LineRead? ==> |l.row.attr| > |t| + 1 && l.row.attr[|t|] == l.row.attr[|t| + 1]
  {
    var s := [CTRL_A] + ([CTRL_A, x] + z);
    PairAndLetter(x, z);
    ReadText(t, attr, last, Escape(c) + s, NEW_ROW, last, cols, tab);
    var seen := Seen(attr, last, last);
    var r := Joined(NEW_ROW, t, seen);
    assert |r.attr| == |t|;
    hide Seen, Joined, FitsFrom, LastAttr, ReadLine, Escape, EncodeText;
    ReadCodes(c, s, r, LastAttr(seen, last), cols, tab);
    LetterRead(x, z, r, ApplyAll(LastAttr(seen, last), c), cols, tab);
  }

  lemma {:induction false} PairAndLetter(x: char, z: string)
    ensures [CTRL_A] + ([CTRL_A, x] + z) == [CTRL_A, CTRL_A, x] + z
  {
  }

  lemma {:induction false} LetterRead(c: char, z: string, r: Row, a: Attr, cols: nat, tab: nat)
    requires tab > 0 && IsCode(c)
    ensures var l := ReadLine([CTRL_A, CTRL_A, c] + z, r, a, cols, tab);
            l.LineRead? ==> |l.row.attr| > |r.attr| + 1 && l.row.attr[|r.attr|] == l.row.attr[|r.attr| + 1]
  {
    var s := [CTRL_A, CTRL_A, c] + z;
    var r1 := Append(r, CTRL_A, a);
    assert s[0] == CTRL_A && s[1] == CTRL_A && s[2..] == [c] + z;
    ReadChar(c, z, r1, a, cols, tab);
    if |r1.text| < cols {
      var r2 := Append(r1, c, a);
      Extends(z, r2, a, cols, tab);
      assert r2.attr[|r.attr|] == a == r2.attr[|r.attr| + 1];
    }
  }

  lemma {:induction false} Extends(s: string, r: Row, a: Attr, cols: nat, tab: nat)
    requires tab > 0
    ensures var l := ReadLine(s, r, a, cols, tab); l.LineRead? ==> r.attr <= l.row.attr
    decreases |s|
  {
    hide Apply;
    if s != "" {
      if s[0] == '\r' {
        Extends(s[1..], r, a, cols, tab);
      } else if s[0] == CTRL_A {
        if |s| > 1 {
          if s[1] == CTRL_A { Extends(s[2..], Append(r, CTRL_A, a), a, cols, tab); }
          else { Extends(s[2..], r, Apply(a, s[1]), cols, tab); }
        }
      } else if s[0] == '\t' {
        Extends(s[1..], AppendTab(r, a, tab), a, cols, tab);
      } else if s[0] != '\n' && (s[0] == ' ' || |r.text| < cols) {
        Extends(s[1..], Append(r, s[0], a), a, cols, tab);
      }
    }
  }

  lemma {:induction false} CodeFirst(u: string, b: seq<Attr>, last: Attr, rest: string) returns (z: string)
    requires |u| == |b| && u != "" && Codes(last, b[0]) != ""
    ensures TrimEnd(EncodeText(u, b, last)) + "\r\n" + rest == [CTRL_A, Codes(last, b[0])[0]] + z
  {
    var codes := Codes(last, b[0]);
    CodesAreCodes(last, b[0]);
    assert IsCode(codes[0]);
    TextFirst(u, b, last);
    CodeThenMore(codes, [u[0]], EncodeText(u[1..], b[1..], b[0]));
    var more := Escape(codes[1..]) + [u[0]] + EncodeText(u[1..], b[1..], b[0]);
    hide *;
    TrimKeeps([CTRL_A], codes[0], more);
    z := TrimEnd(more) + "\r\n" + rest;
    CodeAhead(codes[0], TrimEnd(more), rest);
  }

  lemma {:induction false} CodeThenMore(codes: string, x: string, more: string)
    requires codes != ""
    ensures Escape(codes) + x + more == [CTRL_A] + [codes[0]] + (Escape(codes[1..]) + x + more)
  {
    var c := Escape(codes[1..]);
    assert Escape(codes) == [CTRL_A, codes[0]] + c;
    hide Escape;
    assert [CTRL_A, codes[0]] == [CTRL_A] + [codes[0]];
  }

  lemma {:induction false} CodeAhead(x: char, t: string, rest: string)
    ensures [CTRL_A] + [x] + t + "\r\n" + rest == [CTRL_A, x] + (t + "\r\n" + rest)
  {
  }

  // ---------- The round trip ----------

  lemma {:induction false} CleanPrintable(t: string)
    ensures Printable(t) <==> Clean(t) && CTRL_A !in t
  {
  }

  /** Whatever else the buffer holds, it does not come back if its first row is hard and has a Ctrl-A. */
  lemma {:induction false} CtrlARowLost(d: seq<Row>, soft: bool, last: Attr, cols: nat, tab: nat)
    requires tab > 0 && d != [] && d[0].hardcr && Clean(d[0].text) && CTRL_A in d[0].text
    ensures Decode(Encode(d, soft, "", last), last, cols, tab) != Some(Document(d))
  {
    var t, attr := d[0].text, d[0].attr;
    var rest := Encode(d[1..], soft, "", LastAttr(attr, last));
    var s := TrimEnd(EncodeText(t, attr, last)) + "\r\n" + rest;
    FirstWritten(d, soft, last);
    var i := FirstCtrlA(t);
    CleanPrintable(t[..i]);
    DocumentCons(d);
    if CodeBehind(t, attr, i) {
      LetterShows(t, attr, last, i, rest, cols, tab);
      hide ReadLine, Encode, EncodeText, TrimEnd;
    } else {
      NothingMarked();
      var v := EncodeMarked(d[1..], soft, "", [], LastAttr(attr, last));
      SwallowedPairs(t, attr, last, i, rest, v);
      DecodeCounts(s, last, cols, tab);
      DocumentCounts(d);
      hide Decode, Encode, EncodeText, TrimEnd, Pairs, CtrlAs;
    }
  }

  lemma {:induction false} FirstWritten(d: seq<Row>, soft: bool, last: Attr)
    requires d != [] && d[0].hardcr
    ensures Encode(d, soft, "", last)
         == TrimEnd(EncodeText(d[0].text, d[0].attr, last)) + "\r\n"
           + Encode(d[1..], soft, "", LastAttr(d[0].attr, last))
  {
    hide EncodeText, TrimEnd;
    assert "" + EncodeText(d[0].text, d[0].attr, last) == EncodeText(d[0].text, d[0].attr, last);
  }

  lemma {:induction false} RowsRoundTrip(d: seq<Row>, soft: bool, last: Attr, cols: nat, tab: nat)
    requires tab > 0 && (d != [] ==> d[|d| - 1].hardcr)
    ensures Decode(Encode(d, soft, "", last), last, cols, tab) == Some(Document(d))
       <==> AllPrintable(d) && BufferSurvives(d, last, cols)
    decreases |d|
  {
    if d == [] {
      assert Document(d) == [];
    } else if d[0].hardcr {
      RowsRoundTrip(d[1..], soft, LastAttr(d[0].attr, last), cols, tab);
      PrintableCons(d);
      CleanPrintable(d[0].text);
      hide *;
      if Printable(d[0].text) {
        HardRowFirst(d, soft, last, cols, tab);
      } else if Clean(d[0].text) {
        CtrlARowLost(d, soft, last, cols, tab);
      } else {
        UncleanRowLost(d, Encode(d, soft, "", last), last, cols, tab);
      }
    } else {
      EncodeEndsLine(d, soft, "", last);
      SoftRowFirst(d, Encode(d, soft, "", last), last, cols, tab);
    }
  }

  lemma {:induction false} PrintableCons(d: seq<Row>)
    requires d != []
    ensures AllPrintable(d) <==> Printable(d[0].text) && AllPrintable(d[1..])
  {
    if Printable(d[0].text) && AllPrintable(d[1..]) {
      forall i | 0 <= i < |d| ensures Printable(d[i].text) { if i > 0 { assert d[i] == d[1..][i - 1]; } }
    }
    if AllPrintable(d) {
      forall i | 0 <= i < |d[1..]| ensures Printable(d[1..][i].text) { assert d[1..][i] == d[i + 1]; }
    }
    hide Printable;
  }

  lemma {:induction false} UncleanRowLost(d: seq<Row>, s: string, last: Attr, cols: nat, tab: nat)
    requires tab > 0 && d != [] && !Clean(d[0].text)
    ensures Decode(s, last, cols, tab) != Some(Document(d))
  {
    ReadsClean(s, NEW_ROW, last, cols, tab);
    DocumentCons(d);
    hide ReadLine;
  }

  lemma {:induction false} HardRowFirst(d: seq<Row>, soft: bool, last: Attr, cols: nat, tab: nat)
    requires tab > 0 && d != [] && d[0].hardcr && Printable(d[0].text)
    requires var last' := LastAttr(d[0].attr, last);
      Decode(Encode(d[1..], soft, "", last'), last', cols, tab) == Some(Document(d[1..]))
      <==> AllPrintable(d[1..]) && BufferSurvives(d[1..], last', cols)
    ensures Decode(Encode(d, soft, "", last), last, cols, tab) == Some(Document(d))
       <==> AllPrintable(d) && BufferSurvives(d, last, cols)
  {
    var rest := Encode(d[1..], soft, "", LastAttr(d[0].attr, last));
    FirstWritten(d, soft, last);
    PrintableCons(d);
    HardRowRoundTrip(d[0], last, rest, cols, tab);
    DocumentCons(d);
    hide EncodeText, TrimEnd, ReadLine, RowSurvives, LastAttr, Encode, Printable, AllPrintable;
  }

  /** Saving a buffer with embedded colours and reading it back, with no line to be broken, gives the same texts,
      attributes and hard breaks exactly when no text has a control character, every row is hard, no longer than the
      screen is wide and without trailing blanks, and no change of attribute is lossy. */
  lemma {:induction false} SaveAndLoad(d: seq<Row>, soft: bool, cols: nat, tab: nat)
    requires tab > 0 && d != []
    ensures var saved := ForceHard(d);
      Decode(Encode(saved, soft, "", NORMAL), NORMAL, cols, tab) == Some(Document(saved))
      <==> AllPrintable(saved) && BufferSurvives(saved, NORMAL, cols)
  {
    RowsRoundTrip(ForceHard(d), soft, NORMAL, cols, tab);
  }

  /** Plain enough for any neighbour: no light gray character blinks, is bright or has a background. */
  predicate PlainGrays(attr: seq<Attr>) {
    forall i :: 0 <= i < |attr| && attr[i].fg == LIGHTGRAY ==> attr[i] == NORMAL
  }

  lemma {:induction false} PlainGraysAreFaithful(attr: seq<Attr>, last: Attr)
    requires PlainGrays(attr)
    ensures Faithful(attr, last)
    decreases |attr|
  {
    if attr != [] {
      assert !Lossy(last, attr[0]);
      assert forall i :: 0 <= i < |attr[1..]| ==> attr[1..][i] == attr[i + 1];
      PlainGraysAreFaithful(attr[1..], attr[0]);
    }
  }

  /** A buffer of short hard rows with such attributes comes back as it was. */
  lemma {:induction false} PlainBuffersSurvive(d: seq<Row>, last: Attr, cols: nat)
    requires forall i :: 0 <= i < |d| ==>
      d[i].hardcr && !EndsInBlank(d[i].text) && |d[i].text| <= cols && PlainGrays(d[i].attr)
    ensures BufferSurvives(d, last, cols)
    decreases |d|
  {
    if d != [] {
      PlainGraysAreFaithful(d[0].attr, last);
      hide PlainGrays, Faithful, EndsInBlank;
      PlainBuffersSurvive(d[1..], LastAttr(d[0].attr, last), cols);
    }
  }

  /** Bright white behind red loses its brightness. */
  lemma {:induction false} LossyExample()
    ensures var red, white := Attr(RED, false, BLACK, false), Attr(LIGHTGRAY, true, BLACK, false);
            Lossy(red, white) && ApplyAll(red, Codes(red, white)) != white
  {
    CodesApply(Attr(RED, false, BLACK, false), Attr(LIGHTGRAY, true, BLACK, false));
  }
}
