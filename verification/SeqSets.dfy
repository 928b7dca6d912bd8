/** The IMAP service's message index and sequence sets (section 9 of RFC 3501). */
module SeqSets {
  import opened Characters
  import opened Options
  import opened ImapText

  // ---------- The index ----------

  datatype Message = Message(number: nat, to: nat, read: bool)

  datatype Entry = Entry(to: nat, read: bool, offset: nat)

  datatype Index = Index(offsets: seq<nat>, idx: map<nat, Entry>)

  /** The messages a client sees: those that are there, and in the mail base those to the user. */
  function Listed(msgs: seq<Option<Message>>, mail: bool, user: nat): seq<Message> {
    if msgs == [] then []
    else
      var n := |msgs| - 1;
      Listed(msgs[..n], mail, user)
        + if msgs[n].Some? && (mail ==> msgs[n].value.to == user) then [msgs[n].value] else []
  }

  function Numbers(msgs: seq<Message>): seq<nat> {
    seq(|msgs|, i requires 0 <= i < |msgs| => msgs[i].number)
  }

  predicate Flagged(seen: map<nat, int>, n: nat) {
    n in seen && seen[n] == 1
  }

  /** Entry e is for the last of the listed messages that has number n. */
  ghost predicate Describes(listed: seq<Message>, mail: bool, seen: map<nat, int>, n: nat, e: Entry) {
    && 1 <= e.offset <= |listed| && listed[e.offset - 1].number == n && listed[e.offset - 1].to == e.to
    && e.read == (if mail then listed[e.offset - 1].read else Flagged(seen, n))
    && forall k :: e.offset <= k < |listed| ==> listed[k].number != n
  }

  /** The index lists the numbers in order, and each number's entry says where. */
  ghost predicate Indexes(index: Index, listed: seq<Message>, mail: bool, seen: map<nat, int>) {
    && index.offsets == Numbers(listed)
    && (forall n :: n in index.idx <==> n in Numbers(listed))
    && forall n :: n in index.idx ==> Describes(listed, mail, seen, n, index.idx[n])
  }

  /** Also forgets what was seen of messages that are no longer there; for the mail base it forgets everything. */
  method ReadIndex(msgs: seq<Option<Message>>, mail: bool, user: nat, seen: map<nat, int>)
    returns (index: Index, newseen: map<nat, int>)
    ensures Indexes(index, Listed(msgs, mail, user), mail, seen)
    ensures newseen == Remembered(seen, mail, index.idx.Keys)
    ensures StillSeen(newseen, seen, mail, index.idx.Keys)
  {
    hide *;
    var offsets: seq<nat>, idx: map<nat, Entry> := [], map[];
    newseen := map[];
    var i: nat := 0;
    IndexNone(msgs, mail, user, seen);
    while i < |msgs|
      invariant i <= |msgs|
      invariant Indexes(Index(offsets, idx), Listed(msgs[..i], mail, user), mail, seen)
      invariant newseen == Remembered(seen, mail, idx.Keys)
    {
      ListedNext(msgs, i, mail, user);
      if msgs[i].Some? && (mail ==> msgs[i].value.to == user) {
        var m := msgs[i].value;
        IndexNext(Index(offsets, idx), Listed(msgs[..i], mail, user), mail, seen, m);
        RememberNext(seen, mail, idx.Keys, m.number);
        var read := m.read;
        if !mail {
          read := false;
          if m.number in seen && seen[m.number] == 1 {
            read := true;
            newseen := newseen[m.number := 1];
          }
        }
        assert read == if mail then m.read else Flagged(seen, m.number);
        assert idx[m.number := Entry(m.to, read, |offsets| + 1)].Keys == idx.Keys + {m.number};
        offsets := offsets + [m.number];
        idx := idx[m.number := Entry(m.to, read, |offsets|)];
      }
      i := i + 1;
    }
    assert msgs[..|msgs|] == msgs;
    index := Index(offsets, idx);
    RememberedWhich(seen, mail, idx.Keys);
  }

  /** What is remembered as seen: outside the mail base, what was, of the messages that are there. */
  ghost predicate StillSeen(newseen: map<nat, int>, seen: map<nat, int>, mail: bool, there: set<nat>) {
    forall n ::
      && (n in newseen <==> !mail && n in there && n in seen && seen[n] == 1)
      && (n in newseen ==> newseen[n] == 1)
  }

  /** The seen flags that are kept. */
  function Remembered(seen: map<nat, int>, mail: bool, there: set<nat>): map<nat, int> {
    map n | n in seen && !mail && n in there && seen[n] == 1 :: 1
  }

  lemma {:induction false} RememberedWhich(seen: map<nat, int>, mail: bool, there: set<nat>)
    ensures StillSeen(Remembered(seen, mail, there), seen, mail, there)
  {
  }

  /** Of each number the last message that has it counts: where it is listed, whom it is to, and whether it was read,
      which for the mail base it says itself, and elsewhere the flags of what was seen say. */
  lemma {:induction false} EntryMeans(
    index: Index, msgs: seq<Option<Message>>, mail: bool, user: nat, seen: map<nat, int>, n: nat)
    requires Indexes(index, Listed(msgs, mail, user), mail, seen)
    ensures n in index.idx <==> exists m :: m in Listed(msgs, mail, user) && m.number == n
    ensures n in index.idx ==>
      var k := index.idx[n].offset - 1;
      && 0 <= k < |index.offsets| == |Listed(msgs, mail, user)|
      && var m := Listed(msgs, mail, user)[k];
      && m.number == n && (forall l :: k < l < |index.offsets| ==> index.offsets[l] != n)
      && index.idx[n].to == m.to && (index.idx[n].read <==> if mail then m.read else n in seen && seen[n] == 1)
  {
    var listed := Listed(msgs, mail, user);
    hide Listed;
    if n in index.idx { assert Describes(listed, mail, seen, n, index.idx[n]); }
    if n in Numbers(listed) {
      var k :| 0 <= k < |Numbers(listed)| && Numbers(listed)[k] == n;
      assert listed[k] in listed;
    }
    if m :| m in listed && m.number == n {
      var k :| 0 <= k < |listed| && listed[k] == m;
      assert Numbers(listed)[k] == n;
    }
  }

  /** The messages that are there are listed in their order, and in the mail base just those to the user. */
  lemma {:induction false} ListedWhich(
    msgs: seq<Option<Message>>, m: Message, rest: seq<Option<Message>>, mail: bool, user: nat)
    ensures Listed([], mail, user) == [] && Listed(msgs + [None] + rest, mail, user) == Listed(msgs + rest, mail, user)
    ensures Listed(msgs + [Some(m)] + rest, mail, user)
         == Listed(msgs, mail, user) + (if mail && m.to != user then [] else [m]) + Listed(rest, mail, user)
  {
    ListedConcat(msgs + [None], rest, mail, user);
    ListedConcat(msgs + [Some(m)], rest, mail, user);
    ListedConcat(msgs, rest, mail, user);
    assert (msgs + [None])[..|msgs|] == msgs && (msgs + [Some(m)])[..|msgs|] == msgs;
  }

  lemma {:induction false} ListedConcat(a: seq<Option<Message>>, b: seq<Option<Message>>, mail: bool, user: nat)
    ensures Listed(a + b, mail, user) == Listed(a, mail, user) + Listed(b, mail, user)
    decreases |b|
  {
    if b == [] {
      assert a + b == a;
    } else {
      var n := |b| - 1;
      assert (a + b)[..|a + b| - 1] == a + b[..n];
      ListedConcat(a, b[..n], mail, user);
    }
  }

  lemma {:induction false} RememberNext(seen: map<nat, int>, mail: bool, there: set<nat>, n: nat)
    ensures Flagged(seen, n) <==> n in seen && seen[n] == 1
    ensures Remembered(seen, mail, there + {n})
         == if !mail && n in seen && seen[n] == 1 then Remembered(seen, mail, there)[n := 1]
            else Remembered(seen, mail, there)
  {
  }

  lemma {:induction false} IndexNone(msgs: seq<Option<Message>>, mail: bool, user: nat, seen: map<nat, int>)
    ensures Indexes(Index([], map[]), Listed(msgs[..0], mail, user), mail, seen)
    ensures forall idx: map<nat, Entry> :: idx == map[] ==> Remembered(seen, mail, idx.Keys) == map[]
  {
  }

  lemma {:induction false} ListedNext(msgs: seq<Option<Message>>, i: nat, mail: bool, user: nat)
    requires i < |msgs|
    ensures Listed(msgs[..i + 1], mail, user)
         == if msgs[i].Some? && (mail ==> msgs[i].value.to == user) then Listed(msgs[..i], mail, user) + [msgs[i].value]
            else Listed(msgs[..i], mail, user)
  {
    assert msgs[..i + 1][..i] == msgs[..i];
  }

  lemma {:induction false} IndexNext(index: Index, listed: seq<Message>, mail: bool, seen: map<nat, int>, m: Message)
    requires Indexes(index, listed, mail, seen)
    ensures var e := Entry(m.to, if mail then m.read else Flagged(seen, m.number), |listed| + 1);
            Indexes(Index(index.offsets + [m.number], index.idx[m.number := e]), listed + [m], mail, seen)
    ensures |index.offsets| == |listed|
  {
    assert Numbers(listed + [m]) == Numbers(listed) + [m.number];
  }

  predicate Distinct(s: seq<nat>) {
    forall i, j :: 0 <= i < j < |s| ==> s[i] != s[j]
  }

  /** Numbers and positions are each other's inverse exactly if no number is listed twice. */
  lemma {:induction false} InverseIfDistinct(index: Index, listed: seq<Message>, mail: bool, seen: map<nat, int>)
    requires Indexes(index, listed, mail, seen)
    ensures forall k :: 0 <= k < |index.offsets| ==> index.offsets[k] in index.idx
    ensures (forall k :: 0 <= k < |index.offsets| ==> index.idx[index.offsets[k]].offset == k + 1)
       <==> Distinct(index.offsets)
    ensures forall n :: n in index.idx ==>
      1 <= index.idx[n].offset <= |index.offsets| && index.offsets[index.idx[n].offset - 1] == n
  {
    hide Indexes;
    var o := index.offsets;
    forall n | n in index.idx ensures 1 <= index.idx[n].offset <= |o| && o[index.idx[n].offset - 1] == n {
      EntryPointsBack(index, listed, mail, seen, n);
    }
    forall k | 0 <= k < |o| ensures o[k] in index.idx { HasEntry(index, listed, mail, seen, k); }
    if Distinct(o) {
      forall k | 0 <= k < |o| ensures index.idx[o[k]].offset == k + 1 {
        HasEntry(index, listed, mail, seen, k);
        EntryPointsBack(index, listed, mail, seen, o[k]);
      }
    }
  }

  lemma {:induction false} HasEntry(index: Index, listed: seq<Message>, mail: bool, seen: map<nat, int>, k: nat)
    requires Indexes(index, listed, mail, seen) && k < |index.offsets|
    ensures index.offsets[k] in index.idx
  {
    assert index.offsets[k] in Numbers(listed);
    hide Numbers, Describes;
  }

  lemma {:induction false} EntryPointsBack(index: Index, listed: seq<Message>, mail: bool, seen: map<nat, int>, n: nat)
    requires Indexes(index, listed, mail, seen) && n in index.idx
    ensures 1 <= index.idx[n].offset <= |index.offsets| && index.offsets[index.idx[n].offset - 1] == n
  {
    assert Describes(listed, mail, seen, n, index.idx[n]);
  }

  // ---------- Sequence sets ----------

  /** The pieces between the separators; there is always one more than there are separators. */
  function Split(s: string, c: char): (r: seq<string>)
    ensures r != []
  {
    if s == "" then [""]
    else
      var rest := Split(s[1..], c);
      if s[0] == c then [""] + rest else [[s[0]] + rest[0]] + rest[1..]
  }

  function DigitsLen(s: string): (n: nat)
    ensures n <= |s| && forall i :: 0 <= i < n ==> '0' <= s[i] <= '9'
  {
    if s == "" || !('0' <= s[0] <= '9') then 0 else 1 + DigitsLen(s[1..])
  }

  /** parseInt: spaces, a sign and digits; whatever follows does not matter. */
  function JsInt(s: string): Option<int> {
    if s != "" && IsSpace(s[0]) then JsInt(s[1..])
    else
      var signed := s != "" && s[0] in "+-";
      var t := if signed then s[1..] else s;
      var n := DigitsLen(t);
      if n == 0 then None
      else
        var v: int := ParseInt(t[..n]);
        Some(if signed && s[0] == '-' then -v else v)
  }

  /** What is read of a text as a number: blanks, a sign, digits, and anything else behind them. */
  lemma {:induction false} NumberRead(blanks: string, sign: string, digits: string, rest: string)
    requires (forall i :: 0 <= i < |blanks| ==> IsSpace(blanks[i])) && sign in {"", "+", "-"} && IsDigits(digits)
    requires rest != "" ==> !('0' <= rest[0] <= '9')
    ensures var n: int := ParseInt(digits);
      JsInt(blanks + (sign + (digits + rest))) == Some(if sign == "-" then 0 - n else n)
    decreases |blanks|
  {
    hide JsInt, ParseInt, DigitsLen;
    if blanks != "" {
      BlankSkipped(blanks, sign + (digits + rest));
      NumberRead(blanks[1..], sign, digits, rest);
    } else {
      NoneAhead(sign + (digits + rest));
      DigitsAre(digits, rest);
      NumberHere(sign, digits, rest);
    }
  }

  lemma {:induction false} NoneAhead(s: string)
    ensures "" + s == s
  {
  }

  lemma {:induction false} NumberHere(sign: string, digits: string, rest: string)
    requires sign in {"", "+", "-"} && IsDigits(digits) && DigitsLen(digits + rest) == |digits|
    ensures var n: int := ParseInt(digits);
      JsInt(sign + (digits + rest)) == Some(if sign == "-" then 0 - n else n)
  {
    hide ParseInt;
    var t := digits + rest;
    assert t[..|digits|] == digits && t[0] == digits[0];
    if sign == "" { assert sign + t == t; } else { assert (sign + t)[1..] == t; }
  }

  lemma {:induction false} BlankSkipped(blanks: string, t: string)
    requires blanks != "" && IsSpace(blanks[0])
    ensures JsInt(blanks + t) == JsInt(blanks[1..] + t)
  {
    assert (blanks + t)[1..] == blanks[1..] + t;
  }

  lemma {:induction false} DigitsAre(digits: string, rest: string)
    requires forall i :: 0 <= i < |digits| ==> '0' <= digits[i] <= '9'
    requires rest != "" ==> !('0' <= rest[0] <= '9')
    ensures DigitsLen(digits + rest) == |digits|
    decreases |digits|
  {
    if digits == "" {
      assert digits + rest == rest;
    } else {
      assert (digits + rest)[1..] == digits[1..] + rest;
      DigitsAre(digits[1..], rest);
    }
  }

  /** Without a digit there, nothing is read. */
  lemma {:induction false} NoNumber(blanks: string, sign: string, rest: string)
    requires (forall i :: 0 <= i < |blanks| ==> IsSpace(blanks[i])) && sign in {"", "+", "-"}
    requires rest != "" ==> !('0' <= rest[0] <= '9') && (sign == "" ==> !IsSpace(rest[0]) && rest[0] !in "+-")
    ensures JsInt(blanks + (sign + rest)) == None
    decreases |blanks|
  {
    if blanks != "" {
      BlankSkipped(blanks, sign + rest);
      NoNumber(blanks[1..], sign, rest);
    } else {
      NoneAhead(sign + rest);
      NoNumberHere(sign, rest);
    }
    hide JsInt;
  }

  lemma {:induction false} NoNumberHere(sign: string, rest: string)
    requires sign in {"", "+", "-"}
    requires rest != "" ==> !('0' <= rest[0] <= '9') && (sign == "" ==> !IsSpace(rest[0]) && rest[0] !in "+-")
    ensures JsInt(sign + rest) == None
  {
    hide ParseInt;
    if sign == "" { assert sign + rest == rest; } else { assert (sign + rest)[1..] == rest; }
  }

  function BoundOf(text: string, max: nat): Option<int> {
    if text == "*" then Some(max) else JsInt(text)
  }

  /** The numbers from lo to hi. */
  datatype Span = Span(lo: int, hi: int)

  /** A range may be given backwards; one that is no range stands for nothing. */
  function SpanOf(chunk: string, max: nat): Option<Span> {
    var parts := Split(chunk, ':');
    var a, b := BoundOf(parts[0], max), BoundOf(if |parts| == 1 then parts[0] else parts[1], max);
    if a.None? || b.None? then None
    else if a.value > b.value then Some(Span(b.value, a.value))
    else Some(Span(a.value, b.value))
  }

  /** The message at position i, or with number i. */
  function MessageAt(index: Index, uid: bool, i: int): Option<nat> {
    if uid then (if i >= 0 && i in index.idx then Some(i) else None)
    else if 1 <= i <= |index.offsets| && index.offsets[i - 1] in index.idx then Some(index.offsets[i - 1])
    else None
  }

  predicate InSpan(index: Index, uid: bool, span: Option<Span>, n: nat) {
    span.Some? && exists i :: span.value.lo <= i <= span.value.hi && MessageAt(index, uid, i) == Some(n)
  }

  predicate Selected(index: Index, uid: bool, max: nat, chunks: seq<string>, n: nat) {
    exists c :: 0 <= c < |chunks| && InSpan(index, uid, SpanOf(chunks[c], max), n)
  }

  predicate Increasing(s: seq<nat>) {
    forall i, j :: 0 <= i < j < |s| ==> s[i] < s[j]
  }

  /** Returns the numbers of exactly the messages that the set selects, each once and in order. */
  method ParseSeqSet(index: Index, last_msg: nat, text: string, uid: bool) returns (response: seq<nat>)
    ensures Increasing(response)
    ensures var max := if uid then last_msg else |index.offsets|;
      forall n :: n in response <==> Selected(index, uid, max, Split(text, ','), n)
  {
    response := [];
    var chunks := Split(text, ',');
    var max := if uid then last_msg else |index.offsets|;
    var c: nat := 0;
    while c < |chunks|
      invariant c <= |chunks|
      invariant forall n :: n in response <==> Selected(index, uid, max, chunks[..c], n)
    {
      hide Selected;
      SelectNext(index, uid, max, chunks, c);
      var more := ReadSpan(index, uid, SpanOf(chunks[c], max));
      response := response + more;
      c := c + 1;
    }
    assert chunks[..|chunks|] == chunks;
    SortKeeps(response);
    response := Unique(Sort(response));
  }

  method ReadSpan(index: Index, uid: bool, span: Option<Span>) returns (response: seq<nat>)
    ensures forall n :: n in response <==> InSpan(index, uid, span, n)
  {
    response := [];
    if span.None? { return; }
    var i := span.value.lo;
    while i <= span.value.hi
      invariant span.value.lo <= i && (i <= span.value.hi + 1 || i == span.value.lo)
      invariant forall n :: n in response <==> exists k :: span.value.lo <= k < i && MessageAt(index, uid, k) == Some(n)
      decreases span.value.hi - i
    {
      var msgnum := MessageAt(index, uid, i);
      if msgnum.Some? { response := response + [msgnum.value]; }
      i := i + 1;
    }
  }

  lemma {:induction false} SelectNext(index: Index, uid: bool, max: nat, chunks: seq<string>, c: nat)
    requires c < |chunks|
    ensures forall n :: Selected(index, uid, max, chunks[..c + 1], n)
                   <==> Selected(index, uid, max, chunks[..c], n) || InSpan(index, uid, SpanOf(chunks[c], max), n)
  {
    hide InSpan, SpanOf;
    var more, less := chunks[..c + 1], chunks[..c];
    forall n ensures Selected(index, uid, max, more, n)
       <==> Selected(index, uid, max, less, n) || InSpan(index, uid, SpanOf(chunks[c], max), n) {
      assert forall k :: 0 <= k < c ==> more[k] == less[k];
      assert more[c] == chunks[c];
    }
  }

  // ---------- Sorting, and dropping what is there twice ----------

  predicate Sorted(s: seq<nat>) {
    forall i, j :: 0 <= i < j < |s| ==> s[i] <= s[j]
  }

  function Insert(s: seq<nat>, x: nat): seq<nat> {
    if s == [] || x <= s[0] then [x] + s else [s[0]] + Insert(s[1..], x)
  }

  function Sort(s: seq<nat>): seq<nat> {
    if s == [] then [] else Insert(Sort(s[1..]), s[0])
  }

  lemma {:induction false} InsertKeeps(s: seq<nat>, x: nat)
    requires Sorted(s)
    ensures Sorted(Insert(s, x)) && forall n :: n in Insert(s, x) <==> n == x || n in s
  {
    if s != [] && x > s[0] {
      var rest := Insert(s[1..], x);
      InsertKeeps(s[1..], x);
      assert s == [s[0]] + s[1..];
      forall k | 0 <= k < |rest| ensures s[0] <= rest[k] { assert rest[k] in rest; }
    }
  }

  lemma {:induction false} SortKeeps(s: seq<nat>)
    ensures Sorted(Sort(s)) && forall n :: n in Sort(s) <==> n in s
  {
    if s != [] {
      SortKeeps(s[1..]);
      InsertKeeps(Sort(s[1..]), s[0]);
      assert s == [s[0]] + s[1..];
    }
  }

  method Unique(s: seq<nat>) returns (r: seq<nat>)
    requires Sorted(s)
    ensures Increasing(r) && forall n :: n in r <==> n in s
  {
    r := s;
    var i: nat := 0;
    while i < |r|
      invariant i <= |r| && Sorted(r) && Increasing(r[..i + if i < |r| then 1 else 0])
      invariant forall n :: n in r <==> n in s
      decreases |r| - i
    {
      if i + 1 < |r| && r[i] == r[i + 1] {
        r := r[..i + 1] + r[i + 2..];
      } else {
        i := i + 1;
      }
    }
  }

  // ---------- Sequence sets as RFC 3501 writes them ----------

  datatype Bound = Number(n: nat) | Star

  datatype Range = One(b: Bound) | FromTo(first: Bound, last: Bound)

  function WriteBound(b: Bound): string {
    match b
    case Number(n) => Decimal(n)
    case Star => "*"
  }

  function WriteRange(r: Range): string {
    match r
    case One(b) => WriteBound(b)
    case FromTo(a, b) => WriteBound(a) + ":" + WriteBound(b)
  }

  function Join(pieces: seq<string>, c: char): string
    requires pieces != []
  {
    if |pieces| == 1 then pieces[0] else pieces[0] + [c] + Join(pieces[1..], c)
  }

  function WriteSet(ranges: seq<Range>): string
    requires ranges != []
  {
    Join(Pieces(ranges), ',')
  }

  function Pieces(ranges: seq<Range>): seq<string> {
    seq(|ranges|, i requires 0 <= i < |ranges| => WriteRange(ranges[i]))
  }

  function Value(b: Bound, max: nat): nat {
    if b.Star? then max else b.n
  }

  /** The range, given either way round, covers v. */
  predicate Covers(r: Range, max: nat, v: nat) {
    match r
    case One(b) => v == Value(b, max)
    case FromTo(a, b) => Value(a, max) <= v <= Value(b, max) || Value(b, max) <= v <= Value(a, max)
  }

  lemma {:induction false} SplitPiece(piece: string, rest: string, c: char)
    requires c !in piece
    ensures Split(piece, c) == [piece]
    ensures Split(piece + [c] + rest, c) == [piece] + Split(rest, c)
  {
    var s := piece + [c] + rest;
    if piece == "" {
      assert s[0] == c && s[1..] == rest;
    } else {
      assert piece == [piece[0]] + piece[1..];
      SplitPiece(piece[1..], rest, c);
      assert s[0] == piece[0] && s[1..] == piece[1..] + [c] + rest;
    }
  }

  lemma {:induction false} SplitJoin(pieces: seq<string>, c: char)
    requires pieces != [] && forall i :: 0 <= i < |pieces| ==> c !in pieces[i]
    ensures Split(Join(pieces, c), c) == pieces
  {
    if |pieces| == 1 {
      SplitPiece(pieces[0], "", c);
    } else {
      SplitJoin(pieces[1..], c);
      SplitPiece(pieces[0], Join(pieces[1..], c), c);
      assert pieces == [pieces[0]] + pieces[1..];
    }
  }

  lemma {:induction false} AllDigits(s: string)
    requires forall i :: 0 <= i < |s| ==> '0' <= s[i] <= '9'
    ensures DigitsLen(s) == |s|
  {
    if s != "" { AllDigits(s[1..]); }
  }

  lemma {:induction false} ReadBound(b: Bound, max: nat)
    ensures BoundOf(WriteBound(b), max) == Some(Value(b, max))
    ensures ',' !in WriteBound(b) && ':' !in WriteBound(b)
  {
    if b.Number? { ReadNumber(b.n); }
  }

  lemma {:induction false} ReadNumber(n: nat)
    ensures JsInt(Decimal(n)) == Some(n as int) && Decimal(n) != "*" && ',' !in Decimal(n) && ':' !in Decimal(n)
  {
    var t := Decimal(n);
    DecimalMeaning(n);
    hide Decimal, ParseInt;
    AllDigits(t);
    assert '0' <= t[0] <= '9';
    assert t[..|t|] == t;
  }

  lemma {:induction false} ReadRange(r: Range, max: nat, v: int)
    ensures ',' !in WriteRange(r) && SpanOf(WriteRange(r), max).Some?
    ensures var span := SpanOf(WriteRange(r), max).value;
            span.lo <= v <= span.hi <==> v >= 0 && Covers(r, max, v)
  {
    hide WriteBound, BoundOf;
    match r
    case One(b) =>
      ReadBound(b, max);
      SplitPiece(WriteBound(b), "", ':');
    case FromTo(a, b) =>
      ReadBound(a, max);
      ReadBound(b, max);
      SplitPiece(WriteBound(a), WriteBound(b), ':');
      SplitPiece(WriteBound(b), "", ':');
      assert WriteBound(a) + ":" + WriteBound(b) == WriteBound(a) + [':'] + WriteBound(b);
  }

  /** A message's UID or sequence number. */
  function NumberFor(index: Index, uid: bool, n: nat): nat
    requires n in index.idx
  {
    if uid then n else index.idx[n].offset
  }

  lemma {:induction false} MessageHasNumber(
    index: Index, uid: bool, listed: seq<Message>, mail: bool, seen: map<nat, int>, i: int, n: nat)
    requires Indexes(index, listed, mail, seen) && Distinct(index.offsets)
    ensures MessageAt(index, uid, i) == Some(n) <==> n in index.idx && NumberFor(index, uid, n) == i
  {
    Position(index, listed, mail, seen, i, n);
    hide Indexes, Distinct;
  }

  lemma {:induction false} Position(index: Index, listed: seq<Message>, mail: bool, seen: map<nat, int>, i: int, n: nat)
    requires Indexes(index, listed, mail, seen) && Distinct(index.offsets)
    ensures 1 <= i <= |index.offsets| ==>
      index.offsets[i - 1] in index.idx && index.idx[index.offsets[i - 1]].offset == i
    ensures n in index.idx ==>
      1 <= index.idx[n].offset <= |index.offsets| && index.offsets[index.idx[n].offset - 1] == n
  {
    InverseIfDistinct(index, listed, mail, seen);
    hide Indexes, Distinct;
    if 1 <= i <= |index.offsets| {
      var k := i - 1;
      assert index.offsets[k] in index.idx && index.idx[index.offsets[k]].offset == k + 1;
    }
  }

  /** A set selects just the messages whose UID, or sequence number, one of its ranges covers. */
  lemma {:induction false} SetSelects(
    index: Index, listed: seq<Message>, mail: bool, seen: map<nat, int>, uid: bool, max: nat, ranges: seq<Range>,
    n: nat)
    requires Indexes(index, listed, mail, seen) && Distinct(index.offsets) && ranges != []
    ensures Selected(index, uid, max, Split(WriteSet(ranges), ','), n)
       <==> n in index.idx && exists k :: 0 <= k < |ranges| && Covers(ranges[k], max, NumberFor(index, uid, n))
  {
    var pieces := Pieces(ranges);
    forall k | 0 <= k < |ranges| ensures ',' !in pieces[k] { ReadRange(ranges[k], max, 0); }
    SplitJoin(pieces, ',');
    hide Split, SpanOf, Join, WriteRange, Indexes, MessageAt, Covers;
    forall k | 0 <= k < |ranges|
      ensures InSpan(index, uid, SpanOf(pieces[k], max), n)
         <==> n in index.idx && Covers(ranges[k], max, NumberFor(index, uid, n))
    {
      SpanSelects(index, listed, mail, seen, uid, max, ranges[k], n);
    }
  }

  lemma {:induction false} SpanSelects(
    index: Index, listed: seq<Message>, mail: bool, seen: map<nat, int>, uid: bool, max: nat, r: Range, n: nat)
    requires Indexes(index, listed, mail, seen) && Distinct(index.offsets)
    ensures InSpan(index, uid, SpanOf(WriteRange(r), max), n)
       <==> n in index.idx && Covers(r, max, NumberFor(index, uid, n))
  {
    hide SpanOf, WriteRange, Indexes, MessageAt, Covers;
    ReadRange(r, max, 0);
    var span := SpanOf(WriteRange(r), max);
    if n in index.idx {
      var v := NumberFor(index, uid, n);
      ReadRange(r, max, v);
      MessageHasNumber(index, uid, listed, mail, seen, v, n);
    }
    if InSpan(index, uid, span, n) {
      var i :| span.value.lo <= i <= span.value.hi && MessageAt(index, uid, i) == Some(n);
      MessageHasNumber(index, uid, listed, mail, seen, i, n);
    }
  }
}
