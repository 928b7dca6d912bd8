/**
 * The Hotline service's list of a news category: one record a message,
 * and the oldest dropped until the list fits.
 */
module ArticleList {

  type Byte = b: nat | b < 256

  const LIMIT := 65535

  // ---------- Records ----------

  function Short(n: nat): seq<Byte> {
    [(n / 0x100) % 0x100, n % 0x100]
  }

  function Long(n: nat): seq<Byte> {
    [(n / 0x100_0000) % 0x100, (n / 0x1_0000) % 0x100, (n / 0x100) % 0x100, n % 0x100]
  }

  type Timestamp = t: seq<Byte> | |t| == 8 witness [0, 0, 0, 0, 0, 0, 0, 0]

  datatype Header = Header(visible: bool, number: nat, written: Timestamp, thread: nat, subject: seq<Byte>,
        from: seq<Byte>, body: Body)

  /** The length of a message's text, if there is a text. */
  datatype Body = NoBody | Length(n: nat)

  const TEXT_PLAIN: seq<Byte> := [116, 101, 120, 116, 47, 112, 108, 97, 105, 110]

  /** What goes into the list. */
  predicate Listable(h: Header) {
    && h.visible && h.body.Length? && 1 <= h.body.n <= 65535
    && 1 <= |h.subject| <= 255 && 1 <= |h.from| <= 255
  }

  function Encode(h: Header): (r: seq<Byte>)
    requires Listable(h)
    ensures |r| == 37 + |h.subject| + |h.from|
  {
    Long(h.number) + h.written + Long(h.thread) + Long(0) + Short(1)
    + [|h.subject|] + h.subject + [|h.from|] + h.from + [10] + TEXT_PLAIN + Short(h.body.n)
  }

  /** The length fields are where the trimming looks for them. */
  lemma {:induction false} LengthFields(h: Header)
    requires Listable(h)
    ensures Encode(h)[22] == |h.subject| && Encode(h)[23 + |h.subject|] == |h.from|
  {
    var head := Long(h.number) + h.written + Long(h.thread) + Long(0) + Short(1);
    var tail := [10] + TEXT_PLAIN + Short(h.body.n);
    assert |head| == 22;
    assert Encode(h) == head + ([|h.subject|] + h.subject + ([|h.from|] + h.from + tail));
  }

  /** The number that bytes stand for, the highest one first. */
  function Value(b: seq<Byte>): nat {
    if b == [] then 0 else 0x100 * Value(b[..|b| - 1]) + b[|b| - 1]
  }

  /** A record, field by field: message and thread number in four bytes each, the time it was written, no flags, one
      part, the subject and the sender with their lengths ahead, the kind of text, and its length. */
  lemma {:induction false} RecordFields(h: Header)
    returns (number: seq<Byte>, thread: seq<Byte>, length: seq<Byte>)
    requires Listable(h)
    ensures |number| == |thread| == 4 && |length| == 2
    ensures Value(number) == h.number % 0x1_0000_0000 && Value(thread) == h.thread % 0x1_0000_0000
    ensures Value(length) == h.body.n
    ensures Encode(h) == number + h.written + thread + [0, 0, 0, 0] + [0, 1]
                      + [|h.subject|] + h.subject + [|h.from|] + h.from
                      + [10] + [116, 101, 120, 116, 47, 112, 108, 97, 105, 110] + length
  {
    number, thread, length := Long(h.number), Long(h.thread), Short(h.body.n);
    FourBytes(h.number);
    FourBytes(h.thread);
    TwoBytes(h.body.n);
    assert Long(0) == [0, 0, 0, 0] && Short(1) == [0, 1];
    hide Long, Short, Value;
  }

  lemma {:induction false} OneByteMore(b: seq<Byte>, x: Byte)
    ensures Value(b + [x]) == 0x100 * Value(b) + x
  {
    assert (b + [x])[..|b|] == b;
  }

  lemma {:induction false} TwoBytes(n: nat)
    ensures Value(Short(n)) == n % 0x1_0000
  {
    hide Value;
    ValueOfNone();
    OneByteMore([], (n / 0x100) % 0x100);
    OneByteMore([] + [(n / 0x100) % 0x100], n % 0x100);
    ShortParts(n);
    hide Short;
    TwoDigits(n);
  }

  lemma {:induction false} ValueOfNone()
    ensures Value([]) == 0
  {
  }

  lemma {:induction false} ShortParts(n: nat)
    ensures Short(n) == [] + [(n / 0x100) % 0x100] + [n % 0x100]
  {
  }

  lemma {:induction false} TwoDigits(n: nat)
    ensures 0x100 * ((n / 0x100) % 0x100) + n % 0x100 == n % 0x1_0000
  {
    var m := n / 0x100;
    assert n == 0x100 * m + n % 0x100 && m == 0x100 * (m / 0x100) + m % 0x100;
    ShortRemainder(n, m / 0x100, 0x100 * (m % 0x100) + n % 0x100);
  }

  lemma {:induction false} ShortRemainder(n: nat, q: nat, r: nat)
    requires n == 0x1_0000 * q + r && r < 0x1_0000
    ensures n % 0x1_0000 == r
  {
  }

  lemma {:induction false} FourBytes(n: nat)
    ensures Value(Long(n)) == n % 0x1_0000_0000
  {
    var m, x, y := n / 0x1_0000, (n / 0x100) % 0x100, n % 0x100;
    LongParts(n);
    TwoBytes(m);
    OneByteMore(Short(m), x);
    OneByteMore(Short(m) + [x], y);
    hide Value, Long, Short;
    Digits(n);
  }

  lemma {:induction false} LongParts(n: nat)
    ensures Long(n) == Short(n / 0x1_0000) + [(n / 0x100) % 0x100] + [n % 0x100]
  {
    assert n / 0x1_0000 / 0x100 == n / 0x100_0000;
  }

  lemma {:induction false} Digits(n: nat)
    ensures 0x100 * (0x100 * ((n / 0x1_0000) % 0x1_0000) + (n / 0x100) % 0x100) + n % 0x100 == n % 0x1_0000_0000
  {
    var a, b := n / 0x100, n / 0x1_0000;
    var q := b / 0x1_0000;
    assert b == a / 0x100;
    assert n == 0x100 * a + n % 0x100 && a == 0x100 * b + a % 0x100 && b == 0x1_0000 * q + b % 0x1_0000;
    Remainder(n, q, 0x100 * (0x100 * (b % 0x1_0000) + a % 0x100) + n % 0x100);
  }

  lemma {:induction false} Remainder(n: nat, q: nat, r: nat)
    requires n == 0x1_0000_0000 * q + r && r < 0x1_0000_0000
    ensures n % 0x1_0000_0000 == r
  {
  }

  function EncodeAll(hs: seq<Header>): seq<Byte>
    requires forall i :: 0 <= i < |hs| ==> Listable(hs[i])
  {
    if hs == [] then [] else Encode(hs[0]) + EncodeAll(hs[1..])
  }

  /** The headers that get a record, in order. */
  function Listed(hs: seq<Header>): (r: seq<Header>)
    ensures forall i :: 0 <= i < |r| ==> Listable(r[i])
  {
    if hs == [] then []
    else
      var n := |hs| - 1;
      Listed(hs[..n]) + if Listable(hs[n]) then [hs[n]] else []
  }

  function Visible(hs: seq<Header>): nat {
    if hs == [] then 0
    else
      var n := |hs| - 1;
      Visible(hs[..n]) + if hs[n].visible then 1 else 0
  }

  // ---------- Trimming ----------

  function Fits(hs: seq<Header>, overhead: nat): bool
    requires forall i :: 0 <= i < |hs| ==> Listable(hs[i])
  {
    overhead + |EncodeAll(hs)| <= LIMIT
  }

  /** How many records are dropped. */
  function Dropped(hs: seq<Header>, overhead: nat): (k: nat)
    requires (forall i :: 0 <= i < |hs| ==> Listable(hs[i])) && overhead <= LIMIT
    ensures k <= |hs|
  {
    if Fits(hs, overhead) then 0 else 1 + Dropped(hs[1..], overhead)
  }

  /** The records that are kept are the most of the latest ones that fit. */
  lemma {:induction false} LongestKept(hs: seq<Header>, overhead: nat, j: nat)
    requires (forall i :: 0 <= i < |hs| ==> Listable(hs[i])) && overhead <= LIMIT && j <= |hs|
    ensures overhead + |EncodeAll(hs[j..])| <= 65535 <==> j >= Dropped(hs, overhead)
  {
    assert hs[0..] == hs;
    if Fits(hs, overhead) {
      SuffixIsShorter(hs, j);
    } else if j > 0 {
      assert hs[1..][j - 1..] == hs[j..];
      LongestKept(hs[1..], overhead, j - 1);
    }
  }

  lemma {:induction false} SuffixIsShorter(hs: seq<Header>, j: nat)
    requires (forall i :: 0 <= i < |hs| ==> Listable(hs[i])) && j <= |hs|
    ensures |EncodeAll(hs[j..])| <= |EncodeAll(hs)|
  {
    hide Encode;
    if j == 0 {
      assert hs[0..] == hs;
    } else {
      assert hs[1..][j - 1..] == hs[j..];
      SuffixIsShorter(hs[1..], j - 1);
    }
  }

  /** Drops records from the front until the list fits; it can only if the rest of the response does. */
  method Trim(bytes: seq<Byte>, count: int, overhead: nat, ghost hs: seq<Header>) returns (msgs: seq<Byte>, items: int)
    requires forall i :: 0 <= i < |hs| ==> Listable(hs[i])
    requires bytes == EncodeAll(hs) && overhead <= LIMIT
    ensures msgs == EncodeAll(hs[Dropped(hs, overhead)..]) && items == count - Dropped(hs, overhead)
  {
    hide Listable, EncodeAll;
    msgs, items := bytes, count;
    ghost var k: nat := 0;
    assert hs[0..] == hs;
    while overhead + |msgs| > LIMIT
      invariant k <= |hs| && msgs == EncodeAll(hs[k..]) && items == count - k
      invariant Dropped(hs, overhead) == k + Dropped(hs[k..], overhead)
      decreases |msgs|
    {
      FirstRecord(hs, k);
      assert hs[k..][1..] == hs[k + 1..];
      var sublen: nat := msgs[22];
      var fromlen: nat := msgs[23 + sublen];
      msgs := msgs[37 + sublen + fromlen..];
      items := items - 1;
      k := k + 1;
    }
  }

  lemma {:induction false} FirstRecord(hs: seq<Header>, k: nat)
    requires k <= |hs| && (forall i :: 0 <= i < |hs| ==> Listable(hs[i])) && EncodeAll(hs[k..]) != []
    ensures k < |hs|
    ensures var m := EncodeAll(hs[k..]);
            && |m| >= 37 + |hs[k].subject| + |hs[k].from|
            && m[22] == |hs[k].subject| && m[23 + |hs[k].subject|] == |hs[k].from|
            && m[37 + |hs[k].subject| + |hs[k].from|..] == EncodeAll(hs[k + 1..])
  {
    LengthFields(hs[k]);
    assert hs[k..][1..] == hs[k + 1..];
    assert EncodeAll(hs[k..]) == Encode(hs[k]) + EncodeAll(hs[k + 1..]);
    hide Encode, EncodeAll;
  }

  // ---------- The whole list ----------

  /** Builds the list; every visible message is counted, also one that gets no record. */
  method GetArticleList(hs: seq<Header>, name: string, desc: string) returns (msgs: seq<Byte>, items: int)
    requires 36 + |name| + |desc| <= LIMIT
    ensures var dropped := Dropped(Listed(hs), 36 + |name| + |desc|);
            msgs == EncodeAll(Listed(hs)[dropped..]) && items == Visible(hs) - dropped
  {
    hide Encode, EncodeAll, Listed, Visible, Listable, Dropped;
    msgs, items := [], 0;
    var i: nat := 0;
    ListedNone(hs);
    while i < |hs|
      invariant i <= |hs| && msgs == EncodeAll(Listed(hs[..i])) && items == Visible(hs[..i])
    {
      var h := hs[i];
      ListedNext(hs, i);
      ListableIs(h);
      if h.visible {
        items := items + 1;
        if h.body.Length? && 1 <= h.body.n <= 65535 && 1 <= |h.subject| <= 255 && 1 <= |h.from| <= 255 {
          msgs := msgs + Encode(h);
        }
      }
      i := i + 1;
    }
    assert hs[..|hs|] == hs;
    var overhead := 26 + 4 + 4 + 1 + |name| + 1 + |desc|;
    msgs, items := Trim(msgs, items, overhead, Listed(hs));
  }

  lemma {:induction false} ListedNone(hs: seq<Header>)
    ensures EncodeAll(Listed(hs[..0])) == [] && Visible(hs[..0]) == 0
  {
  }

  lemma {:induction false} ListableIs(h: Header)
    ensures Listable(h) <==>
              h.visible && h.body.Length? && 1 <= h.body.n <= 65535 && 1 <= |h.subject| <= 255 && 1 <= |h.from| <= 255
  {
  }

  lemma {:induction false} ListedNext(hs: seq<Header>, i: nat)
    requires i < |hs|
    ensures Listable(hs[i]) ==> EncodeAll(Listed(hs[..i + 1])) == EncodeAll(Listed(hs[..i])) + Encode(hs[i])
    ensures !Listable(hs[i]) ==> Listed(hs[..i + 1]) == Listed(hs[..i])
    ensures Visible(hs[..i + 1]) == Visible(hs[..i]) + if hs[i].visible then 1 else 0
  {
    assert hs[..i + 1][..i] == hs[..i];
    if Listable(hs[i]) { EncodeMore(Listed(hs[..i]), hs[i]); }
    hide Encode, EncodeAll, Listable;
  }

  lemma {:induction false} EncodeMore(hs: seq<Header>, h: Header)
    requires (forall i :: 0 <= i < |hs| ==> Listable(hs[i])) && Listable(h)
    ensures EncodeAll(hs + [h]) == EncodeAll(hs) + Encode(h)
  {
    hide Encode, Listable;
    if hs == [] {
      assert [h][1..] == [] && hs + [h] == [h];
    } else {
      EncodeMore(hs[1..], h);
      assert (hs + [h])[1..] == hs[1..] + [h];
    }
  }

  /** The count that is sent is the number of records that are sent exactly if no visible message went without one. */
  lemma {:induction false} CountIsRight(hs: seq<Header>, k: nat)
    requires k <= |Listed(hs)|
    ensures Visible(hs) - k == |Listed(hs)[k..]|
       <==> forall i :: 0 <= i < |hs| && hs[i].visible ==>
              && hs[i].body.Length? && 1 <= hs[i].body.n <= 65535
              && 1 <= |hs[i].subject| <= 255 && 1 <= |hs[i].from| <= 255
  {
    VisibleListed(hs);
  }

  lemma {:induction false} VisibleListed(hs: seq<Header>)
    ensures Visible(hs) >= |Listed(hs)|
    ensures Visible(hs) == |Listed(hs)| <==> forall i :: 0 <= i < |hs| && hs[i].visible ==> Listable(hs[i])
  {
    if hs != [] {
      var n := |hs| - 1;
      VisibleListed(hs[..n]);
      hide Listable;
      if forall i :: 0 <= i < |hs| && hs[i].visible ==> Listable(hs[i]) {
        forall i | 0 <= i < n && hs[..n][i].visible ensures Listable(hs[..n][i]) { assert hs[..n][i] == hs[i]; }
      }
      if Visible(hs) == |Listed(hs)| {
        forall i | 0 <= i < |hs| && hs[i].visible ensures Listable(hs[i]) { if i < n { assert hs[..n][i] == hs[i]; } }
      }
    }
  }

  /** One visible message without a subject: one message is announced, and no record is sent. */
  lemma {:induction false} NoSubjectExample()
    ensures var hs := [Header(true, 1, [0, 0, 0, 0, 0, 0, 0, 0], 0, [], [65], Length(1))];
            Visible(hs) == 1 && Listed(hs) == []
  {
  }
}
