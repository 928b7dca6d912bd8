/** The full-screen editor's line buffer:
    what a line holds, and how its text is cut. */
module EditorText {
  import opened Characters

  type Colour = n: nat | n < 8

  /** A display attribute byte by its fields: foreground (0x07), high intensity (0x08), background
      (0x70) and blink (0x80). Masking a byte with 0xF8 and setting a colour is an update of one field. */
  datatype Attr = Attr(fg: Colour, high: bool, bg: Colour, blink: bool)

  const NORMAL := Attr(7, false, 0, false)

  /** The value of one `Line` object; every character has its attribute. */
  datatype RowValue = Row(text: string, attr: seq<Attr>, hardcr: bool, kludged: bool)
  type Row = r: RowValue | |r.text| == |r.attr| witness Row("", [], false, false)

  function Plain(t: string, hardcr: bool, kludged: bool): Row {
    Row(t, seq(|t|, _ => NORMAL), hardcr, kludged)
  }

  /** The document that a buffer stands for: its cells in order, and the hard breaks between them. */
  datatype Token = Cell(c: char, a: Attr) | Hard

  ghost function Cells(t: string, a: seq<Attr>): (r: seq<Token>)
    requires |t| == |a|
    ensures |r| == |t|
  {
    seq(|t|, i requires 0 <= i < |t| => Cell(t[i], a[i]))
  }

  ghost function RowTokens(r: Row): seq<Token>
  {
    Cells(r.text, r.attr) + if r.hardcr then [Hard] else []
  }

  ghost function Flatten(d: seq<Row>): seq<Token>
  {
    if d == [] then [] else RowTokens(d[0]) + Flatten(d[1..])
  }

  /** The end of the whitespace run that starts at i. */
  function RunEnd(t: string, i: nat): (e: nat)
    requires i <= |t|
    ensures i <= e <= |t|
    decreases |t| - i
  {
    if i < |t| && IsSpace(t[i]) then RunEnd(t, i + 1) else i
  }

  lemma {:induction false} RunEndMeaning(t: string, i: nat)
    requires i <= |t|
    ensures var e := RunEnd(t, i); (forall k :: i <= k < e ==> IsSpace(t[k])) && (e < |t| ==> !IsSpace(t[e]))
    decreases |t| - i
  {
    if i < |t| && IsSpace(t[i]) { RunEndMeaning(t, i + 1); }
  }

  /** The length of t without its trailing whitespace. */
  function StripLen(t: string): (n: nat)
    ensures n <= |t|
  {
    if t == "" then 0
    else if IsSpace(t[|t| - 1]) then StripLen(t[..|t| - 1])
    else |t|
  }

  lemma {:induction false} StripLenMeaning(t: string)
    ensures var n := StripLen(t); (forall k :: n <= k < |t| ==> IsSpace(t[k])) && (n > 0 ==> !IsSpace(t[n - 1]))
  {
    if t != "" && IsSpace(t[|t| - 1]) { StripLenMeaning(t[..|t| - 1]); }
  }

  lemma {:induction false} StripLenAtMost(t: string, n: nat)
    requires n <= |t|
    requires forall k :: n <= k < |t| ==> IsSpace(t[k])
    ensures StripLen(t) <= n
  {
    if n < |t| { StripLenAtMost(t[..|t| - 1], n); }
  }

  /** Cutting t after the whitespace that follows its first n characters leaves at most n before that whitespace. */
  lemma {:induction false} StripLenToRunEnd(t: string, n: nat)
    requires n <= |t|
    ensures StripLen(t[..RunEnd(t, n)]) <= n
  {
    RunEndMeaning(t, n);
    StripLenAtMost(t[..RunEnd(t, n)], n);
  }

  // ---------- Facts about Flatten ----------

  lemma {:induction false} FlattenConcat(a: seq<Row>, b: seq<Row>)
    ensures Flatten(a + b) == Flatten(a) + Flatten(b)
  {
    if a == [] {
      assert a + b == b;
    } else {
      assert (a + b)[0] == a[0] && (a + b)[1..] == a[1..] + b;
      FlattenConcat(a[1..], b);
    }
  }

  lemma {:induction false} FlattenCons(r: Row, d: seq<Row>)
    ensures Flatten([r] + d) == RowTokens(r) + Flatten(d)
  {
    assert ([r] + d)[1..] == d;
  }

  lemma {:induction false} CellsConcat(t: string, a: seq<Attr>, u: string, b: seq<Attr>)
    requires |t| == |a| && |u| == |b|
    ensures Cells(t + u, a + b) == Cells(t, a) + Cells(u, b)
  {
  }

  lemma {:induction false} CellsSplit(t: string, a: seq<Attr>, k: nat)
    requires |t| == |a| && k <= |t|
    ensures Cells(t, a) == Cells(t[..k], a[..k]) + Cells(t[k..], a[k..])
  {
  }

  /** Cells that wander from one row to the next leave the document alone. */
  lemma {:induction false} Regroup(
    a: seq<Token>, b: seq<Token>, c: seq<Token>, d: seq<Token>, e: seq<Token>, r: seq<Token>)
    requires a == b + c && e == c + d
    ensures b + (e + r) == a + (d + r)
  {
  }
}
