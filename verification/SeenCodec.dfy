/** The IMAP service's store of seen messages. */
module SeenCodec {
  import opened Options
  import opened SeenBits

  const REACH := 32

  // ---------- What a packing is, in terms of the set alone ----------

  predicate HasNext(s: set<nat>, x: nat) {
    exists y :: y in s && x < y <= x + REACH
  }

  predicate HasPrevious(s: set<nat>, x: nat) {
    exists y :: y in s && y < x <= y + REACH
  }

  /** The first number of a run of two or more. */
  predicate IsBase(s: set<nat>, b: nat) {
    b in s && !HasPrevious(s, b) && HasNext(s, b)
  }

  /** x is reached from b over members of s that are at most 32 apart. */
  ghost predicate InRun(s: set<nat>, b: nat, x: nat) {
    x in s && b <= x && forall z :: z in s && b <= z < x ==> HasNext(s, z)
  }

  ghost function Run(s: set<nat>, b: nat): set<nat> {
    set x | x in s && InRun(s, b, x)
  }

  predicate Isolated(s: set<nat>, x: nat) {
    x in s && !HasPrevious(s, x) && !HasNext(s, x)
  }

  /** The bit string of the run that starts at b: just its numbers, no zero byte at the end, and short. */
  ghost predicate GoodBlob(s: set<nat>, b: nat, blob: seq<Byte>) {
    && (forall x :: Holds(b, blob, x) <==> InRun(s, b, x))
    && blob != [] && blob[|blob| - 1] != 0
    && |Run(s, b)| >= 2 && |blob| <= 4 * (|Run(s, b)| - 1) + 1
  }

  /** The bit strings are exactly the maximal runs, and what is left over are exactly the numbers that stand alone. */
  ghost predicate Packing(s: set<nat>, blobs: map<nat, seq<Byte>>, left: set<nat>) {
    && (forall b :: b in blobs <==> IsBase(s, b))
    && (forall b :: b in blobs ==> GoodBlob(s, b, blobs[b]))
    && (forall x :: x in left <==> Isolated(s, x))
  }

  /** A number is left over exactly if no other one is within 32 of it. */
  lemma {:induction false} LeftOver(s: set<nat>, blobs: map<nat, seq<Byte>>, left: set<nat>, x: nat)
    requires Packing(s, blobs, left)
    ensures x in left <==> x in s && forall y :: y in s && y != x ==> y > x + 32 || x > y + 32
  {
    hide GoodBlob, IsBase;
  }

  ghost predicate InBlobs(blobs: map<nat, seq<Byte>>, x: nat) {
    exists b :: b in blobs && Holds(b, blobs[b], x)
  }

  /** Going back from x over members at most 32 apart ends at the first number of its run. */
  lemma {:induction false} RunStart(s: set<nat>, x: nat) returns (b: nat)
    requires x in s
    ensures b in s && !HasPrevious(s, b) && InRun(s, b, x)
    decreases x
  {
    if HasPrevious(s, x) {
      var y :| y in s && y < x <= y + REACH;
      b := RunStart(s, y);
      forall z | z in s && b <= z < x ensures HasNext(s, z) {
        if z >= y { assert x in s && z < x <= z + REACH; }
      }
    } else {
      b := x;
    }
  }

  /** Nothing is lost and nothing is kept twice. */
  lemma {:induction false} PackingLossless(s: set<nat>, blobs: map<nat, seq<Byte>>, left: set<nat>)
    requires Packing(s, blobs, left)
    ensures forall x :: x in s <==> x in left || InBlobs(blobs, x)
    ensures forall x :: !(x in left && InBlobs(blobs, x))
  {
    hide Holds, InRun, Run;
    forall x | x in s && x !in left ensures InBlobs(blobs, x) {
      NotLost(s, blobs, left, x);
    }
    forall x | InBlobs(blobs, x) ensures x in s && x !in left {
      NotTwice(s, blobs, left, x);
    }
  }

  lemma {:induction false} NotLost(s: set<nat>, blobs: map<nat, seq<Byte>>, left: set<nat>, x: nat)
    requires Packing(s, blobs, left) && x in s && x !in left
    ensures InBlobs(blobs, x)
  {
    var b := RunStart(s, x);
    hide Holds, Run;
    assert b == x || HasNext(s, b);
    assert IsBase(s, b);
    assert Holds(b, blobs[b], x) <==> InRun(s, b, x);
  }

  lemma {:induction false} NotTwice(s: set<nat>, blobs: map<nat, seq<Byte>>, left: set<nat>, x: nat)
    requires Packing(s, blobs, left) && InBlobs(blobs, x)
    ensures x in s && x !in left
  {
    hide Holds, Run;
    var b :| b in blobs && Holds(b, blobs[b], x);
    assert Holds(b, blobs[b], x) <==> InRun(s, b, x);
    if b < x { HasPreviousInRun(s, b, x); }
  }

  lemma {:induction false} HasPreviousInRun(s: set<nat>, b: nat, x: nat)
    requires b in s && b < x && InRun(s, b, x)
    ensures HasPrevious(s, x)
  {
    var z := LastBefore(s, b, x);
    assert HasNext(s, z);
    var w :| w in s && z < w <= z + REACH;
    assert w >= x;
  }

  lemma {:induction false} LastBefore(s: set<nat>, b: nat, x: nat) returns (z: nat)
    requires b in s && b < x
    ensures z in s && b <= z < x && forall y :: y in s && z < y ==> y >= x
    decreases x - b
  {
    if exists y :: y in s && b < y < x {
      var y :| y in s && b < y < x;
      z := LastBefore(s, y, x);
    } else {
      z := b;
    }
  }

  lemma {:induction false} GoodBlobUnique(s: set<nat>, b: nat, m: seq<Byte>, m': seq<Byte>)
    requires GoodBlob(s, b, m) && GoodBlob(s, b, m')
    ensures m == m'
  {
    hide Holds, InRun, Run;
    forall x ensures Holds(b, m, x) <==> Holds(b, m', x) {
      assert Holds(b, m, x) <==> InRun(s, b, x);
      assert Holds(b, m', x) <==> InRun(s, b, x);
    }
    HoldsDetermines(b, m, m');
  }

  /** A set has only one packing. */
  lemma {:induction false} PackingUnique(
    s: set<nat>, m: map<nat, seq<Byte>>, left: set<nat>, m': map<nat, seq<Byte>>, left': set<nat>)
    requires Packing(s, m, left) && Packing(s, m', left')
    ensures m == m' && left == left'
  {
    hide GoodBlob, IsBase, Isolated;
    forall b | b in m ensures b in m' && m[b] == m'[b] {
      assert IsBase(s, b) && b in m';
      GoodBlobUnique(s, b, m[b], m'[b]);
    }
    forall b | b in m' ensures b in m { assert IsBase(s, b); }
    assert m.Keys == m'.Keys;
    forall x | x in left ensures x in left' { assert Isolated(s, x); }
    forall x | x in left' ensures x in left { assert Isolated(s, x); }
    assert left == left';
  }

  // ---------- binify ----------

  predicate Increasing(k: seq<nat>) {
    forall i, j :: 0 <= i < j < |k| ==> k[i] < k[j]
  }

  function SetOf(k: seq<nat>): set<nat> {
    set i | 0 <= i < |k| :: k[i]
  }

  ghost predicate Below(k: seq<nat>, rest: set<nat>) {
    forall i, x :: 0 <= i < |k| && x in rest ==> k[i] < x
  }

  lemma {:induction false} Append(k: seq<nat>, m: nat, rest: set<nat>)
    requires Increasing(k) && Below(k, rest) && m in rest && forall x :: x in rest ==> m <= x
    ensures Increasing(k + [m]) && Below(k + [m], rest - {m}) && SetOf(k + [m]) == SetOf(k) + {m}
  {
    hide SetOf;
    SetOfAppend(k, m);
  }

  lemma {:induction false} SetOfAppend(k: seq<nat>, m: nat)
    ensures SetOf(k + [m]) == SetOf(k) + {m}
  {
    var l := k + [m];
    forall x | x in SetOf(k) + {m} ensures x in SetOf(l) {
      if x in SetOf(k) {
        var i :| 0 <= i < |k| && k[i] == x;
        assert l[i] == x;
      } else {
        assert l[|k|] == x;
      }
    }
  }

  /** The keys of an object, as numbers and sorted. */
  method SortedKeys(keys: set<nat>) returns (k: seq<nat>)
    ensures Increasing(k) && SetOf(k) == keys
  {
    k := [];
    var rest := keys;
    while rest != {}
      invariant rest <= keys && SetOf(k) == keys - rest && Increasing(k) && Below(k, rest)
      decreases |rest|
    {
      hide SetOf, Increasing, Below;
      var m := Least(rest);
      Append(k, m, rest);
      k := k + [m];
      rest := rest - {m};
    }
  }

  method Least(s: set<nat>) returns (m: nat)
    requires s != {}
    ensures m in s && forall x :: x in s ==> m <= x
  {
    var rest := s;
    m :| m in rest;
    rest := rest - {m};
    while rest != {}
      invariant rest <= s && m in s && forall x :: x in s && x !in rest ==> m <= x
      decreases |rest|
    {
      var x :| x in rest;
      if x < m { m := x; }
      rest := rest - {x};
    }
  }

  predicate Near(k: seq<nat>, i: nat)
    requires i < |k|
  {
    i + 1 < |k| && k[i + 1] <= k[i] + REACH
  }

  lemma {:induction false} NextIsAdjacent(k: seq<nat>, i: nat)
    requires Increasing(k) && i < |k|
    ensures HasNext(SetOf(k), k[i]) <==> Near(k, i)
    ensures HasPrevious(SetOf(k), k[i]) <==> i > 0 && Near(k, i - 1)
  {
    var s := SetOf(k);
    if HasNext(s, k[i]) {
      var y :| y in s && k[i] < y <= k[i] + REACH;
      var j :| 0 <= j < |k| && k[j] == y;
      assert j > i;
    }
    if Near(k, i) { assert k[i + 1] in s; }
    if HasPrevious(s, k[i]) {
      var y :| y in s && y < k[i] <= y + REACH;
      var j :| 0 <= j < |k| && k[j] == y;
      assert j < i;
    }
    if i > 0 && Near(k, i - 1) { assert k[i - 1] in s; }
  }

  /** Numbers st to i of the sorted keys are a run from its start. */
  ghost predicate Chained(k: seq<nat>, st: nat, i: nat) {
    st < i <= |k| && forall j :: st <= j < i - 1 ==> Near(k, j)
  }

  lemma {:induction false} ChainIsRun(k: seq<nat>, st: nat, i: nat, x: nat)
    requires Increasing(k) && Chained(k, st, i) && !Near(k, i - 1)
    ensures InRun(SetOf(k), k[st], x) <==> x in k[st..i]
  {
    if x in k[st..i] {
      var j :| st <= j < i && k[j] == x;
      ChainInRun(k, st, i, j);
    }
    if InRun(SetOf(k), k[st], x) {
      RunInChain(k, st, i, x);
    }
  }

  lemma {:induction false} ChainInRun(k: seq<nat>, st: nat, i: nat, j: nat)
    requires Increasing(k) && Chained(k, st, i) && st <= j < i
    ensures InRun(SetOf(k), k[st], k[j])
  {
    var s := SetOf(k);
    forall z | z in s && k[st] <= z < k[j] ensures HasNext(s, z) {
      var q :| 0 <= q < |k| && k[q] == z;
      hide HasNext;
      NextIsAdjacent(k, q);
    }
  }

  lemma {:induction false} RunInChain(k: seq<nat>, st: nat, i: nat, x: nat)
    requires Increasing(k) && Chained(k, st, i) && !Near(k, i - 1)
    requires InRun(SetOf(k), k[st], x)
    ensures x in k[st..i]
  {
    hide HasNext;
    var s := SetOf(k);
    var j :| 0 <= j < |k| && k[j] == x;
    NextIsAdjacent(k, i - 1);
    assert k[i - 1] in s && !HasNext(s, k[i - 1]);
    assert !(k[st] <= k[i - 1] < x);
    assert x == k[st..i][j - st];
  }

  lemma {:induction false} ChainSpan(k: seq<nat>, st: nat, i: nat)
    requires Increasing(k) && Chained(k, st, i)
    ensures k[i - 1] - k[st] <= REACH * (i - 1 - st)
    decreases i
  {
    if i - 1 > st { ChainSpan(k, st, i - 1); assert Near(k, i - 2); }
  }

  lemma {:induction false} ChainSize(k: seq<nat>, st: nat, i: nat)
    requires Increasing(k) && Chained(k, st, i) && !Near(k, i - 1)
    ensures |Run(SetOf(k), k[st])| == i - st
  {
    var run := Run(SetOf(k), k[st]);
    forall x ensures x in run <==> x in SetOf(k[st..i]) {
      ChainIsRun(k, st, i, x);
      if x in k[st..i] {
        var j :| 0 <= j < |k[st..i]| && k[st..i][j] == x;
        assert x == k[st + j] && x in SetOf(k);
      }
    }
    assert run == SetOf(k[st..i]);
    SetOfSize(k[st..i]);
  }

  lemma {:induction false} SetOfSize(k: seq<nat>)
    requires Increasing(k)
    ensures |SetOf(k)| == |k|
    decreases |k|
  {
    if k != [] {
      var n := |k| - 1;
      SetOfSize(k[..n]);
      assert SetOf(k) == SetOf(k[..n]) + {k[n]};
      assert k[n] !in SetOf(k[..n]);
    } else {
      assert SetOf(k) == {};
    }
  }

  /** The runs that start below index m have been written. */
  ghost predicate Written(k: seq<nat>, m: nat, ret: map<nat, seq<Byte>>) {
    && m <= |k|
    && (forall b :: b in ret <==> b in k[..m] && IsBase(SetOf(k), b))
    && (forall b :: b in ret ==> GoodBlob(SetOf(k), b, ret[b]))
  }

  /** Of the flags below index i only those that stand alone are still there. */
  ghost predicate Thinning(was: map<nat, int>, k: seq<nat>, i: nat, seen: map<nat, int>) {
    && i <= |k| && SetOf(k) == was.Keys && seen.Items <= was.Items
    && forall x :: x in seen <==> x in SetOf(k) && (x in k[..i] ==> Isolated(SetOf(k), x))
  }

  ghost predicate FreshAt(k: seq<nat>, i: nat) {
    i <= |k| && (i > 0 ==> !Near(k, i - 1))
  }

  /** A bit string is open: it holds numbers st to i. */
  ghost predicate Open(k: seq<nat>, st: nat, i: nat, base: nat, bstr: seq<Byte>) {
    && Chained(k, st, i) && FreshAt(k, st) && i < |k| && Near(k, i - 1)
    && base == k[st] <= k[i - 1] && |bstr| == (k[i - 1] - base) / 8 + 1
    && forall x :: Holds(base, bstr, x) <==> x in k[st..i]
  }

  /** The same after the last number of the run. */
  ghost predicate Full(k: seq<nat>, st: nat, i: nat, base: nat, bstr: seq<Byte>) {
    && Chained(k, st, i) && FreshAt(k, st) && st + 2 <= i && !Near(k, i - 1)
    && base == k[st] <= k[i - 1] && |bstr| == (k[i - 1] - base) / 8 + 1
    && forall x :: Holds(base, bstr, x) <==> x in k[st..i]
  }

  lemma {:induction false} Start(k: seq<nat>, seen: map<nat, int>)
    requires SetOf(k) == seen.Keys
    ensures Thinning(seen, k, 0, seen) && FreshAt(k, 0) && Written(k, 0, map[])
  {
  }

  /** Number i stands alone and stays where it is. */
  lemma {:induction false} Skip(k: seq<nat>, i: nat, ret: map<nat, seq<Byte>>)
    requires Increasing(k) && i < |k| && FreshAt(k, i) && !Near(k, i)
    requires Written(k, i, ret)
    ensures FreshAt(k, i + 1) && Written(k, i + 1, ret)
  {
    hide GoodBlob, SetOf, Near, HasNext, HasPrevious;
    NextIsAdjacent(k, i);
    forall x ensures x in k[..i + 1] <==> x in k[..i] || x == k[i] { }
  }

  lemma {:induction false} SkipThin(was: map<nat, int>, k: seq<nat>, i: nat, seen: map<nat, int>)
    requires Increasing(k) && i < |k| && FreshAt(k, i) && !Near(k, i) && Thinning(was, k, i, seen)
    ensures Thinning(was, k, i + 1, seen)
  {
    hide SetOf, Near, HasNext, HasPrevious;
    NextIsAdjacent(k, i);
    forall x ensures x in k[..i + 1] <==> x in k[..i] || x == k[i] { }
  }

  /** Number i, which does not stand alone, goes from the flags into the bit string. */
  lemma {:induction false} Thin(was: map<nat, int>, k: seq<nat>, i: nat, seen: map<nat, int>)
    requires Increasing(k) && i < |k| && Thinning(was, k, i, seen)
    requires Near(k, i) || (i > 0 && Near(k, i - 1))
    ensures Thinning(was, k, i + 1, seen - {k[i]})
  {
    hide SetOf, Near, HasNext, HasPrevious;
    NextIsAdjacent(k, i);
    forall x ensures x in k[..i + 1] <==> x in k[..i] || x == k[i] { }
  }

  lemma {:induction false} OpenOne(k: seq<nat>, i: nat)
    requires Increasing(k) && FreshAt(k, i) && i < |k| && Near(k, i)
    ensures i + 1 < |k| && Open(k, i, i + 1, k[i], [1])
  {
    assert k[i..i + 1] == [k[i]];
    forall x ensures Holds(k[i], [1], x) <==> x in k[i..i + 1] { }
  }

  lemma {:induction false} Extend(k: seq<nat>, st: nat, i: nat, base: nat, bstr: seq<Byte>)
    requires Increasing(k) && Open(k, st, i, base, bstr)
    ensures 0 < i < |k| && Near(k, i - 1) && base <= k[i] && |bstr| - 1 <= (k[i] - base) / 8
    ensures !Near(k, i) ==> Full(k, st, i + 1, base, SetAt(bstr, (k[i] - base) / 8, (k[i] - base) % 8))
    ensures Near(k, i) ==> i + 1 < |k| && Open(k, st, i + 1, base, SetAt(bstr, (k[i] - base) / 8, (k[i] - base) % 8))
  {
    hide Holds, SetAt;
    var n := k[i] - base;
    assert k[i - 1] < k[i];
    forall x ensures Holds(base, SetAt(bstr, n / 8, n % 8), x) <==> x in k[st..i + 1] {
      SetAtHolds(base, bstr, n, x);
    }
  }

  lemma {:induction false} FullIsGood(k: seq<nat>, st: nat, i: nat, base: nat, bstr: seq<Byte>)
    requires Increasing(k) && Full(k, st, i, base, bstr)
    ensures GoodBlob(SetOf(k), base, bstr)
  {
    var s := SetOf(k);
    forall x ensures Holds(base, bstr, x) <==> InRun(s, base, x) {
      ChainIsRun(k, st, i, x);
    }
    ChainSize(k, st, i);
    ChainSpan(k, st, i);
    EndsInBit(base, bstr, k[i - 1]) by { assert k[i - 1] == k[st..i][i - 1 - st]; }
    hide Holds, InRun, Run;
  }

  lemma {:induction false} EndsInBit(base: nat, bstr: seq<Byte>, x: nat)
    requires Holds(base, bstr, x) && |bstr| == (x - base) / 8 + 1
    ensures bstr[|bstr| - 1] != 0
  {
  }

  /** Only the first number of a run is a base. */
  lemma {:induction false} BasesOfRun(k: seq<nat>, st: nat, i: nat, b: nat)
    requires Increasing(k) && Chained(k, st, i) && FreshAt(k, st) && st + 2 <= i
    ensures b in k[..i] && IsBase(SetOf(k), b) <==> (b in k[..st] && IsBase(SetOf(k), b)) || b == k[st]
  {
    NextIsAdjacent(k, st);
    hide HasNext, HasPrevious, SetOf;
    assert forall j :: 0 <= j < st ==> k[j] in k[..st];
    if b in k[..i] && b !in k[..st] && b != k[st] {
      var j :| 0 <= j < i && k[j] == b;
      NextIsAdjacent(k, j);
    }
    if b in k[..st] {
      var j :| 0 <= j < st && k[j] == b;
      assert b == k[..i][j];
    }
    assert k[st] == k[..i][st];
  }

  /** The run that ends before index i is written. */
  lemma {:induction false} Close(k: seq<nat>, st: nat, i: nat, base: nat, bstr: seq<Byte>, ret: map<nat, seq<Byte>>)
    requires Increasing(k) && Full(k, st, i, base, bstr) && Written(k, st, ret)
    ensures FreshAt(k, i) && Written(k, i, ret[base := bstr])
  {
    FullIsGood(k, st, i, base, bstr);
    forall b ensures b in k[..i] && IsBase(SetOf(k), b) <==> (b in k[..st] && IsBase(SetOf(k), b)) || b == base {
      BasesOfRun(k, st, i, b);
    }
    hide *;
    WrittenOneMore(k, st, i, base, bstr, ret);
  }

  lemma {:induction false} WrittenOneMore(
    k: seq<nat>, st: nat, i: nat, base: nat, bstr: seq<Byte>, ret: map<nat, seq<Byte>>)
    requires i <= |k| && Written(k, st, ret) && GoodBlob(SetOf(k), base, bstr)
    requires forall b :: b in k[..i] && IsBase(SetOf(k), b) <==> (b in k[..st] && IsBase(SetOf(k), b)) || b == base
    ensures Written(k, i, ret[base := bstr])
  {
    hide GoodBlob, SetOf, IsBase;
  }

  lemma {:induction false} AllDone(was: map<nat, int>, k: seq<nat>, ret: map<nat, seq<Byte>>, seen: map<nat, int>)
    requires Written(k, |k|, ret) && Thinning(was, k, |k|, seen)
    ensures Packing(was.Keys, ret, seen.Keys) && seen == OnlyIsolated(was)
  {
    hide GoodBlob, HasNext, HasPrevious, SetOf;
    assert k[..|k|] == k;
    InSetOf(k);
    assert forall x :: x in seen <==> x in was && Isolated(was.Keys, x);
    forall x | x in seen ensures seen[x] == was[x] { assert (x, seen[x]) in was.Items; }
  }

  lemma {:induction false} InSetOf(k: seq<nat>)
    ensures forall x :: x in k <==> x in SetOf(k)
  {
  }

  function OnlyIsolated(seen: map<nat, int>): map<nat, int> {
    map x | x in seen && Isolated(seen.Keys, x) :: seen[x]
  }

  function NonZero(seen: map<nat, int>): map<nat, int> {
    map x | x in seen && seen[x] != 0 :: seen[x]
  }

  method Place(n: nat) returns (bo: nat, bit: nat)
    ensures bo == n / 8 && bit == n % 8
  {
    bo := n / 8;
    bit := n - bo * 8;
  }

  /** The bytes up to bo are made, and the bit is set in byte bo, which is the last one. */
  method PutBit(bstr: seq<Byte>, bo: nat, bit: nat) returns (r: seq<Byte>)
    requires bstr != [] && |bstr| - 1 <= bo && bit < 8
    ensures r == SetAt(bstr, bo, bit)
  {
    r := bstr;
    while |r| < bo
      invariant |bstr| <= |r| && |r| - 1 <= bo
      invariant r == bstr + Zeros(|r| - |bstr|)
      decreases bo - |r|
    {
      r := r + [0];
    }
    var byte: Byte := if bo < |r| then r[bo] else 0;
    r := r[..bo] + [byte | Mask(bit)];
  }

  function Zeros(n: nat): seq<Byte> {
    seq(n, _ => 0)
  }

  /** The message flags of one folder. */
  class Folder {
    var seen: map<nat, int>

    constructor (seen: map<nat, int>)
      ensures this.seen == seen
    {
      this.seen := seen;
    }

    /** Moves every run of two or more seen messages out of the object and into bit strings. */
    method Binify() returns (ret: Option<map<nat, seq<Byte>>>)
      modifies this
      ensures seen == OnlyIsolated(NonZero(old(seen)))
      ensures ret.Some? ==> ret.value != map[]
      ensures Packing(NonZero(old(seen)).Keys, if ret.Some? then ret.value else map[], seen.Keys)
    {
      hide *;
      seen := NonZero(seen);
      var k := SortedKeys(seen.Keys);
      var blobs: map<nat, seq<Byte>> := map[];
      var base: nat, bstr: seq<Byte> := 0, [];
      ghost var was, st: nat := seen, 0;
      var i: nat := 0;
      Start(k, seen);
      while i < |k|
        invariant i <= |k| && Increasing(k)
        invariant Thinning(was, k, i, seen)
        invariant bstr == [] ==> FreshAt(k, i) && Written(k, i, blobs)
        invariant bstr != [] ==> i < |k| && Open(k, st, i, base, bstr) && Written(k, st, blobs)
      {
        if bstr == [] {
          if !Near(k, i) {
            Skip(k, i, blobs);
            SkipThin(was, k, i, seen);
          } else {
            OpenOne(k, i);
            Thin(was, k, i, seen);
            st := i;
            base, bstr := k[i], [1];
            seen := seen - {k[i]};
          }
        } else {
          Extend(k, st, i, base, bstr);
          Thin(was, k, i, seen);
          var bo: nat, bit: nat := Place(k[i] - base);
          bstr := PutBit(bstr, bo, bit);
          seen := seen - {k[i]};
          if !Near(k, i) {
            Close(k, st, i + 1, base, bstr, blobs);
            blobs := blobs[base := bstr];
            bstr := [];
          }
        }
        i := i + 1;
      }
      AllDone(was, k, blobs, seen);
      if blobs == map[] { return None; }
      return Some(blobs);
    }

    /** Sets the flag of every number the bit strings hold. */
    method Load(bseen: map<nat, seq<Byte>>)
      modifies this
      ensures seen == old(seen) + Flags(Held(bseen))
    {
      hide *;
      var todo := bseen.Keys;
      ghost var read: set<nat> := {};
      HeldNone(bseen);
      FlagsNone();
      assert seen == old(seen) + Flags(read);
      while todo != {}
        invariant todo <= bseen.Keys && read == HeldIn(bseen, bseen.Keys - todo)
        invariant seen == old(seen) + Flags(read)
        decreases |todo|
      {
        var base :| base in todo;
        LoadString(base, bseen[base]);
        FlagsTwice(old(seen), read, HeldBy(base, bseen[base]));
        HeldOneMore(bseen, todo, base);
        read := read + HeldBy(base, bseen[base]);
        todo := todo - {base};
      }
      HeldAll(bseen);
    }

    method LoadString(base: nat, bstr: seq<Byte>)
      modifies this
      ensures seen == old(seen) + Flags(HeldBy(base, bstr))
    {
      hide *;
      var byte: nat := 0;
      HeldByNone(base, bstr);
      FlagsNone();
      while byte < |bstr|
        invariant byte <= |bstr| && seen == old(seen) + Flags(HeldUpTo(base, bstr, 8 * byte))
      {
        ghost var before := seen;
        if bstr[byte] == 0 {
          ZeroByte(base, bstr, byte);
        } else {
          LoadByte(base, bstr, byte);
          FlagsTwice(old(seen), HeldUpTo(base, bstr, 8 * byte), HeldInByte(base, bstr, byte, 8));
          ByteAdds(base, bstr, byte);
        }
        byte := byte + 1;
      }
      HeldUpToAll(base, bstr);
    }

    method LoadByte(base: nat, bstr: seq<Byte>, byte: nat)
      requires byte < |bstr|
      modifies this
      ensures seen == old(seen) + Flags(HeldInByte(base, bstr, byte, 8))
    {
      hide HeldInByte, Flags, Holds, Mask;
      var bit: nat := 0;
      HeldInByteNone(base, bstr, byte);
      FlagsNone();
      while bit < 8
        invariant bit <= 8 && seen == old(seen) + Flags(HeldInByte(base, bstr, byte, bit))
      {
        HeldInByteNext(base, bstr, byte, bit);
        if bstr[byte] & Mask(bit) != 0 {
          FlagsTwice(old(seen), HeldInByte(base, bstr, byte, bit), {base + (byte * 8 + bit)});
          FlagOne(seen, base + (byte * 8 + bit));
          seen := seen[base + (byte * 8 + bit) := 1];
        }
        bit := bit + 1;
      }
    }
  }

  /** What is stored - the numbers left over and the bit strings - loads as the flags that were set. */
  method StoreAndLoad(seen: map<nat, int>) returns (again: map<nat, int>)
    ensures forall x :: x in again <==> x in seen && seen[x] != 0
    ensures forall x :: x in again ==> again[x] != 0
  {
    assert forall x :: x in NonZero(seen).Keys <==> x in seen && seen[x] != 0;
    hide *;
    var f := new Folder(seen);
    var stored := f.Binify();
    ghost var blobs := if stored.Some? then stored.value else map[];
    StoredKeys(seen, blobs, f.seen);
    var g := new Folder(f.seen);
    if stored.Some? {
      g.Load(stored.value);
    } else {
      LoadNone(g.seen);
    }
    again := g.seen;
  }

  lemma {:induction false} LoadNone(seen: map<nat, int>)
    ensures seen + Flags(Held(map[])) == seen
  {
    assert Held(map[]) == {};
  }

  lemma {:induction false} StoredKeys(seen: map<nat, int>, blobs: map<nat, seq<Byte>>, left: map<nat, int>)
    requires left == OnlyIsolated(NonZero(seen)) && Packing(NonZero(seen).Keys, blobs, left.Keys)
    ensures (left + Flags(Held(blobs))).Keys == NonZero(seen).Keys
    ensures forall x :: x in left + Flags(Held(blobs)) ==> (left + Flags(Held(blobs)))[x] != 0
  {
    var s := NonZero(seen).Keys;
    PackingLossless(s, blobs, left.Keys);
    hide Packing, Isolated, Held, InBlobs;
    LosslessKeys(s, blobs, left.Keys);
    assert Flags(Held(blobs)).Keys == Held(blobs);
  }

  // ---------- The numbers that bit strings hold ----------

  function HeldUpTo(base: nat, bstr: seq<Byte>, n: nat): set<nat> {
    set x | base <= x < base + n && Holds(base, bstr, x)
  }

  function HeldBy(base: nat, bstr: seq<Byte>): set<nat> {
    HeldUpTo(base, bstr, 8 * |bstr|)
  }

  function HeldIn(blobs: map<nat, seq<Byte>>, bases: set<nat>): set<nat>
    requires bases <= blobs.Keys
  {
    set b, x | b in bases && x in HeldBy(b, blobs[b]) :: x
  }

  function Held(blobs: map<nat, seq<Byte>>): set<nat> {
    HeldIn(blobs, blobs.Keys)
  }

  function Flags(s: set<nat>): map<nat, int> {
    map x | x in s :: 1
  }

  lemma {:induction false} HeldNone(blobs: map<nat, seq<Byte>>)
    ensures HeldIn(blobs, {}) == {} && blobs.Keys - blobs.Keys == {}
  {
  }

  lemma {:induction false} FlagsNone()
    ensures Flags({}) == map[]
  {
  }

  lemma {:induction false} HeldByNone(base: nat, bstr: seq<Byte>)
    ensures HeldUpTo(base, bstr, 0) == {}
  {
  }

  lemma {:induction false} FlagsTwice(m: map<nat, int>, s: set<nat>, t: set<nat>)
    ensures m + Flags(s) + Flags(t) == m + Flags(s + t)
  {
  }

  lemma {:induction false} FlagOne(m: map<nat, int>, x: nat)
    ensures m[x := 1] == m + Flags({x})
  {
  }

  lemma {:induction false} HeldOneMore(blobs: map<nat, seq<Byte>>, todo: set<nat>, b: nat)
    requires todo <= blobs.Keys && b in todo
    ensures HeldIn(blobs, blobs.Keys - (todo - {b})) == HeldIn(blobs, blobs.Keys - todo) + HeldBy(b, blobs[b])
  {
  }

  lemma {:induction false} HeldAll(blobs: map<nat, seq<Byte>>)
    ensures HeldIn(blobs, blobs.Keys - {}) == Held(blobs)
  {
    assert blobs.Keys - {} == blobs.Keys;
  }

  function HeldInByte(base: nat, bstr: seq<Byte>, byte: nat, n: nat): set<nat> {
    set x | base + 8 * byte <= x < base + 8 * byte + n && Holds(base, bstr, x)
  }

  lemma {:induction false} HeldInByteNone(base: nat, bstr: seq<Byte>, byte: nat)
    ensures HeldInByte(base, bstr, byte, 0) == {}
  {
  }

  lemma {:induction false} HeldInByteNext(base: nat, bstr: seq<Byte>, byte: nat, bit: nat)
    requires byte < |bstr| && bit < 8
    ensures HeldInByte(base, bstr, byte, bit + 1)
         == if Bit(bstr[byte], bit) then HeldInByte(base, bstr, byte, bit) + {base + (byte * 8 + bit)}
            else HeldInByte(base, bstr, byte, bit)
  {
    var x := base + (8 * byte + bit);
    assert (x - base) / 8 == byte && (x - base) % 8 == bit;
    assert Holds(base, bstr, x) <==> Bit(bstr[byte], bit);
  }

  lemma {:induction false} ByteAdds(base: nat, bstr: seq<Byte>, byte: nat)
    ensures HeldUpTo(base, bstr, 8 * (byte + 1)) == HeldUpTo(base, bstr, 8 * byte) + HeldInByte(base, bstr, byte, 8)
  {
  }

  lemma {:induction false} ZeroByte(base: nat, bstr: seq<Byte>, byte: nat)
    requires byte < |bstr| && bstr[byte] == 0
    ensures HeldUpTo(base, bstr, 8 * (byte + 1)) == HeldUpTo(base, bstr, 8 * byte)
  {
    forall x | base + 8 * byte <= x < base + 8 * (byte + 1) ensures !Holds(base, bstr, x) {
      assert (x - base) / 8 == byte;
    }
  }

  lemma {:induction false} HeldUpToAll(base: nat, bstr: seq<Byte>)
    ensures HeldUpTo(base, bstr, 8 * |bstr|) == HeldBy(base, bstr)
  {
  }

  lemma {:induction false} LosslessKeys(s: set<nat>, blobs: map<nat, seq<Byte>>, left: set<nat>)
    requires forall x :: x in s <==> x in left || InBlobs(blobs, x)
    ensures s == left + Held(blobs)
  {
    forall x ensures x in Held(blobs) <==> InBlobs(blobs, x) {
      if InBlobs(blobs, x) {
        var b :| b in blobs && Holds(b, blobs[b], x);
        HoldsBelow(b, blobs[b], x);
      }
    }
  }

  lemma {:induction false} HoldsBelow(base: nat, bstr: seq<Byte>, x: nat)
    requires Holds(base, bstr, x)
    ensures x in HeldBy(base, bstr)
  {
    assert x - base < 8 * |bstr|;
  }
}
