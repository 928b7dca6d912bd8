/** How the IRC daemon splits a line of its configuration. */
module ConfSplit {

  // ---------- The splitter ----------

  /** The field that began at s and ends before i; a bracket at its end is not part of it. */
  function FieldText(line: string, s: nat, i: nat): string
    requires s <= i <= |line|
  {
    if i > s && line[i - 1] == ']' then line[s..i - 1] else line[s..i]
  }

  /** ']' closes a field only where the field must end. */
  predicate ClosesAt(line: string, i: nat) {
    i < |line| && line[i] == ']' && (i + 1 == |line| || line[i + 1] == ':')
  }

  /** The fields found from index i on, when the current one began at s. */
  function Scan(line: string, i: nat, s: nat, inb: bool): seq<string>
    requires s <= i <= |line|
    decreases |line| - i
  {
    if i == |line| then (if s < |line| then [FieldText(line, s, i)] else [])
    else if line[i] == ':' then
      if inb then Scan(line, i + 1, s, inb)
      else [FieldText(line, s, i)] + Scan(line, i + 1, i + 1, inb)
    else if !inb && line[i] == '[' && s == i then Scan(line, i + 1, i + 1, true)
    else if ClosesAt(line, i) then Scan(line, i + 1, s, false)
    else Scan(line, i + 1, s, inb)
  }

  function Split(line: string): seq<string> {
    Scan(line, 0, 0, false)
  }

  /** A field never reaches back over the colon or bracket it began behind. */
  predicate BeganBehind(line: string, s: nat) {
    s <= |line| && (s > 0 ==> line[s - 1] != ']')
  }

  method FancySplit(line: string) returns (ret: seq<string>)
    ensures ret == Split(line)
  {
    ret := [];
    var i: nat, s: nat, inb := 0, 0, false;
    while i < |line|
      invariant s <= i <= |line| && BeganBehind(line, s)
      invariant Split(line) == ret + Scan(line, i, s, inb)
    {
      hide Scan;
      if line[i] == ':' {
        if !inb {
          var str := if i > 0 && line[i - 1] == ']' then Slice(line, s, i - 1) else Slice(line, s, i);
          ret := ret + [str];
          s := i + 1;
        }
      } else if !inb && line[i] == '[' && s == i {
        inb := true;
        s := i + 1;
      } else if line[i] == ']' && (i + 1 == |line| || line[i + 1] == ':') {
        inb := false;
      }
      i := i + 1;
    }
    if s < |line| {
      var str := if i > 0 && line[i - 1] == ']' then Slice(line, s, i - 1) else Slice(line, s, i);
      ret := ret + [str];
    }
  }

  function Slice(line: string, s: nat, e: nat): string
    requires e <= |line|
  {
    if s <= e then line[s..e] else ""
  }

  // ---------- Writing fields ----------

  datatype Field = Bare(text: string) | Bracketed(text: string)

  function WriteField(f: Field): string {
    match f
    case Bare(t) => t
    case Bracketed(t) => "[" + t + "]"
  }

  function Write(fs: seq<Field>): string {
    if fs == [] then ""
    else if |fs| == 1 then WriteField(fs[0])
    else WriteField(fs[0]) + ":" + Write(fs[1..])
  }

  function Texts(fs: seq<Field>): seq<string> {
    seq(|fs|, i requires 0 <= i < |fs| => fs[i].text)
  }

  predicate CloseInside(t: string, p: nat) {
    p + 1 < |t| && t[p] == ']' && t[p + 1] == ':'
  }

  /** Brackets may hold anything but what looks like their end; without them colons and brackets at
      either end are lost. */
  predicate GoodField(f: Field) {
    match f
    case Bare(t) => ':' !in t && (t == "" || (t[0] != '[' && t[|t| - 1] != ']'))
    case Bracketed(t) => forall p :: 0 <= p < |t| ==> !CloseInside(t, p)
  }

  predicate GoodFields(fs: seq<Field>) {
    && (forall i :: 0 <= i < |fs| ==> GoodField(fs[i]))
    && (fs != [] ==> fs[|fs| - 1] != Bare(""))
  }

  // ---------- One field ----------

  lemma {:induction false} WalkBare(line: string, i: nat, j: nat, s: nat)
    requires s <= i <= j <= |line|
    requires forall k :: i <= k < j ==> line[k] != ':' && (k == s ==> line[k] != '[')
    ensures Scan(line, i, s, false) == Scan(line, j, s, false)
    decreases j - i
  {
    if i < j {
      WalkBare(line, i + 1, j, s);
      hide Scan;
    }
  }

  lemma {:induction false} WalkBracketed(line: string, i: nat, j: nat, s: nat)
    requires s <= i <= j <= |line|
    requires forall k :: i <= k < j ==> !ClosesAt(line, k)
    ensures Scan(line, i, s, true) == Scan(line, j, s, true)
    decreases j - i
  {
    if i < j {
      WalkBracketed(line, i + 1, j, s);
      hide Scan;
    }
  }

  /** Text w stands at index s, and the field ends there: at the end of the line or at a colon. */
  predicate Stands(line: string, s: nat, w: string) {
    s + |w| <= |line| && line[s..s + |w|] == w && (s + |w| < |line| ==> line[s + |w|] == ':')
  }

  /** The fields from s on are t and then those behind it. */
  predicate Yields(line: string, s: nat, w: string, t: string)
    requires s + |w| <= |line|
  {
    Scan(line, s, s, false) == [t] + if s + |w| < |line| then Scan(line, s + |w| + 1, s + |w| + 1, false) else []
  }

  predicate FirstIsNot(fields: seq<string>, t: string) {
    fields == [] || fields[0] != t
  }

  lemma {:induction false} SplitBare(line: string, s: nat, t: string)
    requires Stands(line, s, t) && GoodField(Bare(t)) && (s + |t| < |line| || t != "")
    ensures Yields(line, s, t, t)
  {
    var e := s + |t|;
    assert forall k :: s <= k < e ==> line[k] == t[k - s];
    WalkBare(line, s, e, s);
    assert FieldText(line, s, e) == t;
  }

  lemma {:induction false} SplitBracketed(line: string, s: nat, t: string)
    requires Stands(line, s, "[" + t + "]") && GoodField(Bracketed(t))
    ensures Yields(line, s, "[" + t + "]", t)
  {
    var e := s + |t| + 2;
    BracketsStand(line, s, t);
    hide Stands;
    forall k | s + 1 <= k < e - 1 ensures !ClosesAt(line, k) {
      assert !CloseInside(t, k - s - 1);
    }
    hide GoodField;
    WalkBracketed(line, s + 1, e - 1, s + 1);
    assert FieldText(line, s + 1, e) == t;
    BracketsScanned(line, s, e);
  }

  lemma {:induction false} BracketsStand(line: string, s: nat, t: string)
    requires Stands(line, s, "[" + t + "]")
    ensures s + |t| + 2 <= |line| && line[s] == '[' && line[s + |t| + 1] == ']' && line[s + 1..s + |t| + 1] == t
    ensures s + |t| + 2 < |line| ==> line[s + |t| + 2] == ':'
    ensures forall k :: s < k <= s + |t| ==> line[k] == t[k - s - 1]
  {
    var w := "[" + t + "]";
    assert forall k :: s <= k < s + |w| ==> line[k] == w[k - s];
  }

  /** The opening bracket, and what comes of the closing one and the colon behind it. */
  lemma {:induction false} BracketsScanned(line: string, s: nat, e: nat)
    requires s + 2 <= e <= |line| && line[s] == '[' && ClosesAt(line, e - 1) && (e < |line| ==> line[e] == ':')
    ensures Scan(line, s, s, false) == Scan(line, s + 1, s + 1, true)
    ensures Scan(line, e - 1, s + 1, true)
         == [FieldText(line, s + 1, e)] + if e < |line| then Scan(line, e + 1, e + 1, false) else []
  {
  }

  // ---------- Fields that do not survive ----------

  /** Inside brackets, or once a field has begun, the next field found is a piece of the line from s on. */
  lemma {:induction false} FirstPiece(line: string, i: nat, s: nat, inb: bool) returns (e: nat)
    requires s <= i <= |line| && (inb || ((i == |line| || line[i] == ':')))
    ensures s <= e <= |line|
    ensures Scan(line, i, s, inb) == [] || Scan(line, i, s, inb)[0] == line[s..e]
    decreases |line| - i
  {
    if i == |line| {
      e := if i > s && line[i - 1] == ']' then i - 1 else i;
    } else {
      if line[i] == ':' && !inb {
        e := if i > s && line[i - 1] == ']' then i - 1 else i;
      } else {
        e := FirstPiece(line, i + 1, s, inb && !ClosesAt(line, i));
      }
    }
  }

  lemma {:induction false} AllSame(a: string, c: char)
    requires forall k :: 0 <= k < |a| - 1 ==> a[k + 1] == a[k]
    requires a != "" && a[0] == c
    ensures a[|a| - 1] == c
  {
    if |a| > 1 {
      assert a[..|a| - 1][0] == c;
      AllSame(a[..|a| - 1], c);
    }
  }

  lemma {:induction false} LostOpening(line: string, s: nat, t: string)
    requires Stands(line, s, t) && t != "" && t[0] == '['
    ensures FirstIsNot(Scan(line, s, s, false), t)
  {
    var w := line[s..s + |t|];
    assert line[s] == w[0];
    var e := FirstPiece(line, s + 1, s + 1, true);
    var fields := Scan(line, s, s, false);
    hide Scan;
    if fields != [] && line[s + 1..e] == t { ShiftedSame(line, s, t, e); }
  }

  /** A text that begins with '[' and stands at two neighbouring places is all '['. */
  lemma {:induction false} ShiftedSame(line: string, s: nat, t: string, e: nat)
    requires t != "" && t[0] == '[' && s + 1 <= e <= |line| && s + |t| <= |line|
    requires line[s..s + |t|] == t == line[s + 1..e]
    ensures s + |t| < |line| && line[s + |t|] == '['
  {
    var b := line[s..e];
    forall k | 0 <= k < |b| - 1 ensures b[k + 1] == b[k] {
      assert b[k + 1] == line[s + 1..e][k] && b[k] == line[s..s + |t|][k];
    }
    assert b[0] == line[s..s + |t|][0];
    AllSame(b, '[');
  }

  lemma {:induction false} FirstAt(t: string, c: char) returns (p: nat)
    requires c in t
    ensures p < |t| && t[p] == c && forall k :: 0 <= k < p ==> t[k] != c
  {
    if t[0] == c {
      p := 0;
    } else {
      assert t == [t[0]] + t[1..];
      var q := FirstAt(t[1..], c);
      p := q + 1;
      forall k | 0 <= k < p ensures t[k] != c { if k > 0 { assert t[k] == t[1..][k - 1]; } }
    }
  }

  lemma {:induction false} LostColon(line: string, s: nat, t: string)
    requires Stands(line, s, t) && ':' in t && t[0] != '['
    ensures FirstIsNot(Scan(line, s, s, false), t)
  {
    var p := FirstAt(t, ':');
    assert forall k :: s <= k < s + |t| ==> line[k] == t[k - s];
    WalkBare(line, s, s + p, s);
    hide Scan;
    assert |FieldText(line, s, s + p)| <= p < |t|;
  }

  lemma {:induction false} LostClosing(line: string, s: nat, t: string)
    requires Stands(line, s, t) && ':' !in t && t != "" && t[0] != '[' && t[|t| - 1] == ']'
    ensures FirstIsNot(Scan(line, s, s, false), t)
  {
    var e := s + |t|;
    assert forall k :: s <= k < e ==> line[k] == t[k - s];
    WalkBare(line, s, e, s);
    assert |FieldText(line, s, e)| < |t|;
  }

  lemma {:induction false} FirstClose(t: string, p: nat) returns (q: nat)
    requires CloseInside(t, p)
    ensures CloseInside(t, q) && forall k :: 0 <= k < q ==> !CloseInside(t, k)
    decreases p
  {
    if k :| 0 <= k < p && CloseInside(t, k) {
      q := FirstClose(t, k);
    } else {
      q := p;
    }
  }

  lemma {:induction false} LostBracketed(line: string, s: nat, t: string, p: nat)
    requires Stands(line, s, "[" + t + "]") && CloseInside(t, p)
    ensures FirstIsNot(Scan(line, s, s, false), t)
  {
    var w := "[" + t + "]";
    var q := FirstClose(t, p);
    assert forall k :: s <= k < s + |w| ==> line[k] == w[k - s];
    assert forall k :: 0 < k <= |t| ==> w[k] == t[k - 1];
    forall k | s + 1 <= k < s + 1 + q ensures !ClosesAt(line, k) {
      assert !CloseInside(t, k - s - 1);
    }
    WalkBracketed(line, s + 1, s + 1 + q, s + 1);
    assert ClosesAt(line, s + 1 + q);
    hide Scan, ClosesAt;
    assert |FieldText(line, s + 1, s + 2 + q)| == q < |t|;
  }

  // ---------- The round trip ----------

  lemma {:induction false} SplitField(line: string, s: nat, f: Field)
    requires Stands(line, s, WriteField(f))
    ensures GoodField(f) && (s + |WriteField(f)| < |line| || f != Bare("")) ==> Yields(line, s, WriteField(f), f.text)
    ensures !GoodField(f) ==> FirstIsNot(Scan(line, s, s, false), f.text)
    ensures s + |WriteField(f)| == |line| && f == Bare("") ==> Scan(line, s, s, false) == []
  {
    match f
    case Bare(t) =>
      if GoodField(f) {
        if s + |t| < |line| || t != "" { SplitBare(line, s, t); }
      } else if t[0] == '[' {
        LostOpening(line, s, t);
      } else if ':' in t {
        LostColon(line, s, t);
      } else {
        LostClosing(line, s, t);
      }
    case Bracketed(t) =>
      if GoodField(f) {
        SplitBracketed(line, s, t);
      } else {
        var p :| 0 <= p < |t| && CloseInside(t, p);
        LostBracketed(line, s, t, p);
      }
  }

  lemma {:induction false} SplitFields(line: string, s: nat, fs: seq<Field>)
    requires s <= |line| && line[s..] == Write(fs)
    ensures Scan(line, s, s, false) == Texts(fs) <==> GoodFields(fs)
    decreases |fs|
  {
    hide *;
    if fs == [] {
      SplitNone(line, s);
    } else {
      SplitHead(line, s, fs);
      var w := WriteField(fs[0]);
      if |fs| > 1 { SplitFields(line, s + |w| + 1, fs[1..]); }
      OneMore(line, s, w, fs);
    }
  }

  lemma {:induction false} SplitNone(line: string, s: nat)
    requires s <= |line| && line[s..] == Write([])
    ensures Scan(line, s, s, false) == Texts([]) && GoodFields([])
  {
    assert |line[s..]| == |line| - s;
  }

  lemma {:induction false} SplitHead(line: string, s: nat, fs: seq<Field>)
    requires fs != [] && s <= |line| && line[s..] == Write(fs)
    ensures s + |WriteField(fs[0])| <= |line| && (s + |WriteField(fs[0])| < |line| <==> |fs| > 1)
    ensures GoodField(fs[0]) && (s + |WriteField(fs[0])| < |line| || fs[0] != Bare("")) ==>
      Yields(line, s, WriteField(fs[0]), fs[0].text)
    ensures !GoodField(fs[0]) ==> FirstIsNot(Scan(line, s, s, false), fs[0].text)
    ensures |fs| == 1 && fs[0] == Bare("") ==> Scan(line, s, s, false) == []
    ensures |fs| > 1 ==> line[s + |WriteField(fs[0])| + 1..] == Write(fs[1..])
  {
    hide *;
    WriteParts(fs);
    FieldStands(line, s, WriteField(fs[0]), Behind(fs));
    SplitField(line, s, fs[0]);
    if |fs| > 1 { RestStands(line, s, WriteField(fs[0]), Write(fs[1..])); }
  }

  lemma {:induction false} WriteParts(fs: seq<Field>)
    requires fs != []
    ensures Write(fs) == WriteField(fs[0]) + Behind(fs) && (Behind(fs) == "" <==> |fs| == 1)
    ensures |fs| > 1 ==> Behind(fs)[0] == ':' && Write(fs) == WriteField(fs[0]) + ":" + Write(fs[1..])
  {
    hide WriteField;
  }

  /** What is written behind the first field. */
  function Behind(fs: seq<Field>): string
    requires fs != []
  {
    if |fs| == 1 then "" else ":" + Write(fs[1..])
  }

  lemma {:induction false} FieldStands(line: string, s: nat, w: string, rest: string)
    requires s <= |line| && line[s..] == w + rest && (rest == "" || rest[0] == ':')
    ensures Stands(line, s, w) && s + |w| + |rest| == |line|
  {
    assert line[s..][..|w|] == w;
    assert rest != "" ==> line[s..][|w|] == rest[0];
  }

  lemma {:induction false} RestStands(line: string, s: nat, w: string, rest: string)
    requires s <= |line| && line[s..] == w + ":" + rest
    ensures s + |w| + 1 <= |line| && line[s + |w| + 1..] == rest
  {
    assert line[s..][|w| + 1..] == rest;
  }

  lemma {:induction false} OneMore(line: string, s: nat, w: string, fs: seq<Field>)
    requires fs != [] && s + |w| <= |line| && (s + |w| < |line| <==> |fs| > 1)
    requires GoodField(fs[0]) && (s + |w| < |line| || fs[0] != Bare("")) ==> Yields(line, s, w, fs[0].text)
    requires !GoodField(fs[0]) ==> FirstIsNot(Scan(line, s, s, false), fs[0].text)
    requires |fs| == 1 && fs[0] == Bare("") ==> Scan(line, s, s, false) == []
    requires |fs| > 1 ==> (Scan(line, s + |w| + 1, s + |w| + 1, false) == Texts(fs[1..]) <==> GoodFields(fs[1..]))
    ensures Scan(line, s, s, false) == Texts(fs) <==> GoodFields(fs)
  {
    hide Scan, GoodField;
    var all := Scan(line, s, s, false);
    var texts := Texts(fs);
    assert texts[0] == fs[0].text;
    assert texts == [fs[0].text] + Texts(fs[1..]);
    GoodCons(fs);
    if |fs| == 1 {
      assert Texts(fs[1..]) == [];
    } else {
      var rest := Scan(line, s + |w| + 1, s + |w| + 1, false);
      assert ([fs[0].text] + rest)[1..] == rest && texts[1..] == Texts(fs[1..]);
    }
  }

  lemma {:induction false} GoodCons(fs: seq<Field>)
    requires fs != []
    ensures GoodFields(fs) <==> GoodField(fs[0]) && (if |fs| == 1 then fs[0] != Bare("") else GoodFields(fs[1..]))
  {
    hide GoodField;
    var rest := fs[1..];
    assert forall i :: 0 <= i < |rest| ==> rest[i] == fs[i + 1];
    if |fs| > 1 { assert rest[|rest| - 1] == fs[|fs| - 1]; }
    if GoodField(fs[0]) && GoodFields(rest) {
      forall i | 0 <= i < |fs| ensures GoodField(fs[i]) { if i > 0 { assert fs[i] == rest[i - 1]; } }
    }
    if GoodFields(fs) {
      forall i | 0 <= i < |rest| ensures GoodField(rest[i]) { assert rest[i] == fs[i + 1]; }
    }
  }

  /** The splitter returns the fields that were written if and only if every one of them survives. */
  lemma {:induction false} RoundTrip(fs: seq<Field>)
    ensures Split(Write(fs)) == Texts(fs) <==> GoodFields(fs)
  {
    var line := Write(fs);
    assert line[0..] == line;
    SplitFields(line, 0, fs);
  }
}
