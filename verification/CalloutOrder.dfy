/** Which addresses an outbound directory's flow files have the mailer call, and in what order. */
module CalloutOrder {
  import opened Options

  type Path = string
  type Addr = string

  // ---------- The order of flow files ----------

  function Lower(c: char): char {
    if 'A' <= c <= 'Z' then c - 'A' + 'a' else c
  }

  /** Immediate, crash, direct, out, flow, hold; anything else comes first. */
  function FlavourRank(c: char): int {
    match Lower(c)
    case 'i' => 0
    case 'c' => 1
    case 'd' => 2
    case 'o' => 3
    case 'f' => 4
    case 'h' => 5
    case _ => -1
  }

  /** The last n characters, or all of a shorter name. */
  function Last(s: string, n: nat): string {
    if |s| > n then s[|s| - n..] else s
  }

  function Flavour(name: Path): int {
    if name == "" then -1 else FlavourRank(Last(name, 3)[0])
  }

  /** Netmail bundles before flow files. */
  function Kind(name: Path): int {
    var t := Last(name, 2);
    if |t| < 2 then -1
    else if Lower(t[0]) == 'u' && Lower(t[1]) == 't' then 0
    else if Lower(t[0]) == 'l' && Lower(t[1]) == 'o' then 1
    else -1
  }

  predicate Less(a: string, b: string) {
    b != "" && (a == "" || a[0] < b[0] || (a[0] == b[0] && Less(a[1..], b[1..])))
  }

  function FlowOrder(a: Path, b: Path): int {
    if Flavour(a) != Flavour(b) then Flavour(a) - Flavour(b)
    else if Kind(a) != Kind(b) then Kind(a) - Kind(b)
    else if Less(a, b) then -1
    else if Less(b, a) then 1
    else 0
  }

  predicate Before(a: Path, b: Path) {
    FlowOrder(a, b) < 0
  }

  lemma {:induction false} LessTotal(a: string, b: string)
    ensures a == b || Less(a, b) || Less(b, a)
    ensures !(Less(a, b) && Less(b, a)) && !Less(a, a)
  {
    if a != "" && b != "" {
      LessTotal(a[1..], b[1..]);
      assert a == [a[0]] + a[1..] && b == [b[0]] + b[1..];
    }
    if a != "" { LessIrreflexive(a); }
  }

  lemma {:induction false} LessIrreflexive(a: string)
    ensures !Less(a, a)
  {
    if a != "" { LessIrreflexive(a[1..]); }
  }

  lemma {:induction false} LessTransitive(a: string, b: string, c: string)
    requires Less(a, b) && Less(b, c)
    ensures Less(a, c)
  {
    if a != "" && a[0] == b[0] && b[0] == c[0] { LessTransitive(a[1..], b[1..], c[1..]); }
  }

  /** The order is strict and total on different names. */
  lemma {:induction false} OrderIsTotal(a: Path, b: Path, c: Path)
    ensures FlowOrder(a, b) == 0 <==> a == b
    ensures Before(a, b) <==> FlowOrder(b, a) > 0
    ensures Before(a, b) && Before(b, c) ==> Before(a, c)
  {
    LessTotal(a, b);
    LessTotal(b, a);
    if Less(a, b) && Less(b, c) { LessTransitive(a, b, c); }
    hide Less, Flavour, Kind;
  }

  /** Of two names that differ in the letter of their flavour: immediate before crash, before direct, before out, before
      flow, before hold. */
  lemma {:induction false} FlavoursInOrder(a: Path, b: Path, i: nat, j: nat)
    requires |a| >= 3 && |b| >= 3 && i < j < 6
    requires a[|a| - 3] in ["icdofh"[i], "ICDOFH"[i]] && b[|b| - 3] in ["icdofh"[j], "ICDOFH"[j]]
    ensures Before(a, b)
  {
    FlavourAt(a, i);
    FlavourAt(b, j);
    hide Flavour, Kind, Less;
  }

  lemma {:induction false} FlavourAt(a: Path, i: nat)
    requires |a| >= 3 && i < 6 && a[|a| - 3] in ["icdofh"[i], "ICDOFH"[i]]
    ensures Flavour(a) == i
  {
    assert Last(a, 3)[0] == a[|a| - 3];
    assert i == 0 || i == 1 || i == 2 || i == 3 || i == 4 || i == 5;
  }

  /** Of one flavour: bundles of netmail before flow files. */
  lemma {:induction false} KindsInOrder(a: Path, b: Path)
    requires |a| >= 3 && |b| >= 3 && a[|a| - 3] == b[|b| - 3]
    requires a[|a| - 2..] in {"ut", "uT", "Ut", "UT"} && b[|b| - 2..] in {"lo", "lO", "Lo", "LO"}
    ensures Before(a, b)
  {
    assert Last(a, 3)[0] == Last(b, 3)[0];
  }

  /** Any other flavour, and in a flavour any other kind, comes ahead of these. */
  lemma {:induction false} OthersFirst(a: Path, b: Path, j: nat)
    requires |a| >= 3 && |b| >= 3
    ensures a[|a| - 3] !in "icdofhICDOFH" && j < 6 && b[|b| - 3] in ["icdofh"[j], "ICDOFH"[j]] ==> Before(a, b)
    ensures a[|a| - 3] == b[|b| - 3] && a[|a| - 2..] !in {"ut", "uT", "Ut", "UT", "lo", "lO", "Lo", "LO"}
            && b[|b| - 2..] in {"ut", "uT", "Ut", "UT", "lo", "lO", "Lo", "LO"}
            ==> Before(a, b)
  {
    assert Last(a, 3)[0] == a[|a| - 3] && Last(b, 3)[0] == b[|b| - 3];
    OtherFlavour(a[|a| - 3]);
    OtherKind(a);
  }

  lemma {:induction false} OtherFlavour(c: char)
    ensures c !in "icdofhICDOFH" ==> FlavourRank(c) == -1
  {
  }

  lemma {:induction false} OtherKind(a: Path)
    requires |a| >= 2
    ensures a[|a| - 2..] !in {"ut", "uT", "Ut", "UT", "lo", "lO", "Lo", "LO"} ==> Kind(a) == -1
  {
    assert a[|a| - 2..] == [a[|a| - 2], a[|a| - 1]];
  }

  /** Two names with the same three letters at the end: by the first character in which they differ, or the shorter one
      first. */
  lemma {:induction false} NamesInOrder(a: Path, b: Path)
    requires |a| >= 3 && |b| >= 3 && a[|a| - 3..] == b[|b| - 3..]
    ensures Before(a, b)
       <==> exists k ::
              0 <= k <= |a| && k < |b| && a[..k] == b[..k] && (k == |a| || a[k] < b[k])
  {
    assert a[|a| - 3..][0] == b[|b| - 3..][0] && a[|a| - 3..][1..] == a[|a| - 2..] && b[|b| - 3..][1..] == b[|b| - 2..];
    assert Flavour(a) == Flavour(b) && Kind(a) == Kind(b);
    LessMeaning(a, b);
    LessTotal(a, b);
    hide Less;
  }

  lemma {:induction false} LessMeaning(a: string, b: string)
    ensures Less(a, b)
       <==> exists k :: 0 <= k <= |a| && k < |b| && a[..k] == b[..k] && (k == |a| || a[k] < b[k])
  {
    if b == "" {
    } else if a == "" {
      assert a[..0] == b[..0];
    } else {
      LessMeaning(a[1..], b[1..]);
      if Less(a, b) && a[0] == b[0] {
        var k :| && 0 <= k <= |a[1..]| && k < |b[1..]| && a[1..][..k] == b[1..][..k]
                 && (k == |a[1..]| || a[1..][k] < b[1..][k]);
        assert a[..k + 1] == [a[0]] + a[1..][..k] && b[..k + 1] == [b[0]] + b[1..][..k];
      } else if a[0] < b[0] {
        assert a[..0] == b[..0];
      }
      if k :| 0 <= k <= |a| && k < |b| && a[..k] == b[..k] && (k == |a| || a[k] < b[k]) {
        if k > 0 {
          assert a[0] == a[..k][0] == b[..k][0] == b[0];
          assert a[1..][..k - 1] == a[..k][1..] && b[1..][..k - 1] == b[..k][1..];
        }
      }
    }
  }

  predicate Sorted(files: seq<Path>) {
    forall i, j :: 0 <= i < j < |files| ==> Before(files[i], files[j]) || files[i] == files[j]
  }

  function Insert(files: seq<Path>, x: Path): seq<Path> {
    if files == [] || FlowOrder(x, files[0]) <= 0 then [x] + files else [files[0]] + Insert(files[1..], x)
  }

  function Sort(files: seq<Path>): seq<Path> {
    if files == [] then [] else Insert(Sort(files[1..]), files[0])
  }

  lemma {:induction false} InsertSorts(files: seq<Path>, x: Path)
    requires Sorted(files)
    ensures Sorted(Insert(files, x)) && forall y :: y in Insert(files, x) <==> y == x || y in files
  {
    if files != [] {
      assert files == [files[0]] + files[1..];
      if FlowOrder(x, files[0]) > 0 {
        var rest := Insert(files[1..], x);
        InsertSorts(files[1..], x);
        OrderIsTotal(files[0], x, x);
        OrderIsTotal(x, files[0], x);
        forall k | 0 <= k < |rest| ensures Before(files[0], rest[k]) || files[0] == rest[k] {
          assert rest[k] in rest;
          if rest[k] != x { assert rest[k] in files[1..]; }
        }
        hide FlowOrder, Before, Insert;
      } else {
        OrderIsTotal(x, files[0], x);
        forall k | 0 <= k < |files| ensures Before(x, files[k]) || x == files[k] {
          if k > 0 { OrderIsTotal(x, files[0], files[k]); }
        }
        hide FlowOrder, Before;
      }
    }
  }

  lemma {:induction false} SortSorts(files: seq<Path>)
    ensures Sorted(Sort(files)) && forall y :: y in Sort(files) <==> y in files
  {
    if files != [] {
      SortSorts(files[1..]);
      InsertSorts(Sort(files[1..]), files[0]);
      assert files == [files[0]] + files[1..];
    }
  }

  lemma {:induction false} InsertKeeps(files: seq<Path>, x: Path)
    ensures multiset(Insert(files, x)) == multiset(files) + multiset{x}
  {
    if files != [] {
      assert files == [files[0]] + files[1..];
      InsertKeeps(files[1..], x);
    }
  }

  lemma {:induction false} SortKeeps(files: seq<Path>)
    ensures multiset(Sort(files)) == multiset(files)
  {
    if files != [] {
      assert files == [files[0]] + files[1..];
      SortKeeps(files[1..]);
      InsertKeeps(Sort(files[1..]), files[0]);
    }
  }

  /** A directory has just one sorted listing, however it is sorted. */
  lemma {:induction false} OneSortedListing(files: seq<Path>, listing: seq<Path>)
    requires Sorted(listing) && multiset(listing) == multiset(files)
    ensures listing == Sort(files)
  {
    SortSorts(files);
    SortKeeps(files);
    SameListing(listing, Sort(files));
  }

  lemma {:induction false} SameListing(a: seq<Path>, b: seq<Path>)
    requires Sorted(a) && Sorted(b) && multiset(a) == multiset(b)
    ensures a == b
  {
    hide FlowOrder, Before;
    assert |b| == |multiset(b)| == |multiset(a)| == |a|;
    if a != [] {
      assert a[0] in multiset(b) && b[0] in multiset(a);
      SameFirst(a, b);
      TailMultiset(a);
      TailMultiset(b);
      SortedTail(a);
      SortedTail(b);
      hide Sorted;
      SameListing(a[1..], b[1..]);
      assert a == [a[0]] + a[1..] && b == [b[0]] + b[1..];
    }
  }

  lemma {:induction false} SameFirst(a: seq<Path>, b: seq<Path>)
    requires Sorted(a) && Sorted(b) && a != [] && b != [] && a[0] in b && b[0] in a
    ensures a[0] == b[0]
  {
    OrderIsTotal(a[0], b[0], a[0]);
    hide FlowOrder;
    assert Before(a[0], b[0]) || a[0] == b[0];
    assert Before(b[0], a[0]) || a[0] == b[0];
  }

  lemma {:induction false} SortedTail(a: seq<Path>)
    requires Sorted(a) && a != []
    ensures Sorted(a[1..])
  {
    hide Before;
  }

  lemma {:induction false} TailMultiset(a: seq<Path>)
    requires a != []
    ensures multiset(a[1..]) == multiset(a) - multiset{a[0]}
  {
    assert a == [a[0]] + a[1..];
  }

  // ---------- Which files are called for ----------

  /** What the host and the other mailers decide; rounds are numbered, since locks and holds come and go. */
  datatype World = World(
    parse: Path -> Option<Addr>, // none if the name is not a flow file's
    ext: Path -> Option<string>,
    expected: Addr -> string, // where the address's flow files belong, up to the dot
    lockable: (nat, Path) -> bool,
    held: (nat, Addr) -> bool,
    stop: nat -> bool)

  predicate CallFlavour(ext: string) {
    if |ext| < 2 || ext[0] != '.' then false
    else if ext[1] in "cdi" then true
    else if ext[1] == 'f' then ext == ".flo"
    else ext[1] == 'o' && ext == ".out"
  }

  /** The file is in its place, and its flavour asks for a call. */
  predicate Startable(w: World, file: Path) {
    var addr, ext := w.parse(file), w.ext(file);
    addr.Some? && ext.Some? && |ext.value| > 0 && file == w.expected(addr.value) + ext.value[1..]
      && CallFlavour(ext.value)
  }

  predicate Ready(w: World, round: nat, ran: set<Addr>, file: Path) {
    && Startable(w, file) && w.parse(file).value !in ran
    && w.lockable(round, file) && !w.held(round, w.parse(file).value)
  }

  /** A file is ready if its name is that of a flow file, in the place and spelling expected for its address, and it is
      an immediate, crash, direct or plain one, if the address was not called before and is not held, and if the flow
      can be locked. */
  lemma {:induction false} ReadyMeans(w: World, round: nat, ran: set<Addr>, file: Path, addr: Addr, ext: string)
    requires w.parse(file) == Some(addr) && w.ext(file) == Some(ext)
    ensures Ready(w, round, ran, file)
       <==> && ext != "" && file == w.expected(addr) + ext[1..]
            && (ext == ".flo" || ext == ".out" || (|ext| >= 2 && ext[..2] in {".c", ".d", ".i"}))
            && addr !in ran && !w.held(round, addr) && w.lockable(round, file)
  {
    CallFlavours(ext);
    hide CallFlavour;
  }

  lemma {:induction false} CallFlavours(ext: string)
    ensures CallFlavour(ext) <==> ext == ".flo" || ext == ".out" || (|ext| >= 2 && ext[..2] in {".c", ".d", ".i"})
  {
    if |ext| >= 2 { assert ext[..2] == [ext[0], ext[1]]; }
  }

  datatype Call = Call(addr: Addr, file: Path)

  function Called(calls: seq<Call>): set<Addr> {
    set k | 0 <= k < |calls| :: calls[k].addr
  }

  /** In round k the first file that was ready was called for. */
  ghost predicate FirstReady(w: World, files: seq<Path>, round: nat, ran: set<Addr>, call: Call) {
    exists i :: 0 <= i < |files| && files[i] == call.file && Ready(w, round, ran, call.file)
      && w.parse(call.file) == Some(call.addr) && NoneReady(w, files[..i], round, ran)
  }

  ghost predicate NoneReady(w: World, files: seq<Path>, round: nat, ran: set<Addr>) {
    forall i :: 0 <= i < |files| ==> !Ready(w, round, ran, files[i])
  }

  ghost predicate GoodRun(w: World, files: seq<Path>, round: nat, ran: set<Addr>, calls: seq<Call>) {
    forall k :: 0 <= k < |calls| ==> FirstReady(w, files, round + k, ran + Called(calls[..k]), calls[k])
  }

  class Mailer {
    var ran: set<Addr>
    var calls: seq<Call>
    var round: nat

    constructor ()
      ensures ran == {} && calls == [] && round == 0
    {
      ran, calls, round := {}, [], 0;
    }

    /** Calls for the files of a directory until there is none to call for, or the mailer is stopped. */
    method RunOneOutboundDir(w: World, files: seq<Path>)
      modifies this
      ensures |old(calls)| <= |calls| && calls[..|old(calls)|] == old(calls)
      ensures var made := calls[|old(calls)|..];
              && GoodRun(w, Sort(files), old(round), old(ran), made)
              && ran == old(ran) + Called(made) && round == old(round) + |made|
      ensures w.stop(round) || NoneReady(w, Sort(files), round, ran)
    {
      hide *;
      var sorted := Sort(files);
      ghost var made: seq<Call> := [];
      NothingCalled(w, sorted, round, ran, calls);
      while !w.stop(round)
        invariant calls == old(calls) + made && ran == old(ran) + Called(made) && round == old(round) + |made|
        invariant GoodRun(w, sorted, old(round), old(ran), made)
        decreases |Left(w, sorted, ran)|
      {
        var i: nat := FindReady(w, sorted, round, ran);
        if i == |sorted| {
          FoundNone(sorted);
          break;
        }
        ReadyParses(w, round, ran, sorted[i]);
        var call := Call(w.parse(sorted[i]).value, sorted[i]);
        OneMoreCall(w, sorted, old(round), old(ran), made, i, call);
        LeftShrinks(w, sorted, ran, call);
        calls := calls + [call];
        made := made + [call];
        ran := ran + {call.addr};
        round := round + 1;
      }
    }
  }

  lemma {:induction false} ReadyParses(w: World, round: nat, ran: set<Addr>, file: Path)
    requires Ready(w, round, ran, file)
    ensures w.parse(file).Some? && w.parse(file).value !in ran
  {
  }

  method FindReady(w: World, files: seq<Path>, round: nat, ran: set<Addr>) returns (i: nat)
    ensures i <= |files| && NoneReady(w, files[..i], round, ran)
    ensures i < |files| ==> Ready(w, round, ran, files[i])
  {
    i := 0;
    while i < |files|
      invariant i <= |files| && NoneReady(w, files[..i], round, ran)
    {
      var addr := w.parse(files[i]);
      var ext := w.ext(files[i]);
      if addr.Some? && addr.value !in ran && ext.Some? && |ext.value| > 0
         && files[i] == w.expected(addr.value) + ext.value[1..] && CallFlavour(ext.value) {
        if w.lockable(round, files[i]) && !w.held(round, addr.value) { break; }
      }
      assert !Ready(w, round, ran, files[i]);
      i := i + 1;
    }
  }

  /** Addresses in the directory that were not called yet. */
  function Left(w: World, files: seq<Path>, ran: set<Addr>): set<Addr> {
    (set i | 0 <= i < |files| && w.parse(files[i]).Some? :: w.parse(files[i]).value) - ran
  }

  lemma {:induction false} NothingCalled(w: World, files: seq<Path>, round: nat, ran: set<Addr>, calls: seq<Call>)
    ensures GoodRun(w, files, round, ran, []) && ran + Called([]) == ran && calls + [] == calls
  {
  }

  lemma {:induction false} FoundNone(files: seq<Path>)
    ensures files[..|files|] == files
  {
  }

  lemma {:induction false} LeftShrinks(w: World, files: seq<Path>, ran: set<Addr>, call: Call)
    requires call.file in files && w.parse(call.file) == Some(call.addr) && call.addr !in ran
    ensures |Left(w, files, ran + {call.addr})| < |Left(w, files, ran)|
  {
    var less, more := Left(w, files, ran + {call.addr}), Left(w, files, ran);
    var i :| 0 <= i < |files| && files[i] == call.file;
    assert call.addr in more && less == more - {call.addr};
  }

  lemma {:induction false} CalledMore(calls: seq<Call>, call: Call)
    ensures Called(calls + [call]) == Called(calls) + {call.addr}
  {
    var more := calls + [call];
    forall a | a in Called(calls) + {call.addr} ensures a in Called(more) {
      if a in Called(calls) {
        var k :| 0 <= k < |calls| && calls[k].addr == a;
        assert more[k].addr == a;
      } else {
        assert more[|calls|].addr == a;
      }
    }
  }

  lemma {:induction false} OneMoreCall(
    w: World, files: seq<Path>, round: nat, ran: set<Addr>, calls: seq<Call>, i: nat, call: Call)
    requires GoodRun(w, files, round, ran, calls) && i < |files| && files[i] == call.file
    requires Ready(w, round + |calls|, ran + Called(calls), files[i]) && w.parse(files[i]) == Some(call.addr)
    requires NoneReady(w, files[..i], round + |calls|, ran + Called(calls))
    ensures GoodRun(w, files, round, ran, calls + [call])
    ensures ran + Called(calls + [call]) == ran + Called(calls) + {call.addr} && call.addr !in ran + Called(calls)
  {
    var more := calls + [call];
    CalledMore(calls, call);
    assert more[..|calls|] == calls;
    forall k | 0 <= k < |more| ensures FirstReady(w, files, round + k, ran + Called(more[..k]), more[k]) {
      if k < |calls| { assert more[..k] == calls[..k] && more[k] == calls[k]; }
      hide FirstReady;
    }
  }

  // ---------- What a run keeps ----------

  predicate NoRepeat(calls: seq<Call>) {
    forall k, l :: 0 <= k < l < |calls| ==> calls[k].addr != calls[l].addr
  }

  /** No address is called twice, or that was called before; and only files that ask for a call are called for. */
  lemma {:induction false} CallsAtMostOnce(w: World, files: seq<Path>, round: nat, ran: set<Addr>, calls: seq<Call>)
    requires GoodRun(w, files, round, ran, calls)
    ensures NoRepeat(calls) && ran !! Called(calls)
    ensures forall k :: 0 <= k < |calls| ==>
      calls[k].file in files && Startable(w, calls[k].file) && w.parse(calls[k].file) == Some(calls[k].addr)
        && w.ext(calls[k].file).value[1] != 'h'
  {
    forall k | 0 <= k < |calls|
      ensures calls[k].addr !in ran + Called(calls[..k]) && calls[k].file in files && Startable(w, calls[k].file)
           && w.parse(calls[k].file) == Some(calls[k].addr) && w.ext(calls[k].file).value[1] != 'h'
    {
      assert FirstReady(w, files, round + k, ran + Called(calls[..k]), calls[k]);
    }
    forall k, l | 0 <= k < l < |calls| ensures calls[k].addr != calls[l].addr {
      assert calls[..l][k].addr in Called(calls[..l]);
    }
  }

  /** Nothing the host decides changes from round to round. */
  ghost predicate Steady(w: World) {
    (forall r, q, f :: w.lockable(r, f) == w.lockable(q, f)) && (forall r, q, a :: w.held(r, a) == w.held(q, a))
  }

  /** Then the calls go down the sorted list. */
  lemma {:induction false} CallsInOrder(w: World, files: seq<Path>, round: nat, ran: set<Addr>, calls: seq<Call>)
    requires GoodRun(w, files, round, ran, calls) && Steady(w) && Sorted(files)
    ensures forall k, l :: 0 <= k < l < |calls| ==> Before(calls[k].file, calls[l].file)
  {
    forall k, l | 0 <= k < l < |calls| ensures Before(calls[k].file, calls[l].file) {
      TwoInOrder(w, files, round, ran, calls, k, l);
    }
    hide *;
  }

  lemma {:induction false} TwoInOrder(
    w: World, files: seq<Path>, round: nat, ran: set<Addr>, calls: seq<Call>, k: nat, l: nat)
    requires GoodRun(w, files, round, ran, calls) && Steady(w) && Sorted(files) && k < l < |calls|
    ensures Before(calls[k].file, calls[l].file)
  {
    CallsAtMostOnce(w, files, round, ran, calls);
    assert FirstReady(w, files, round + k, ran + Called(calls[..k]), calls[k]);
    assert FirstReady(w, files, round + l, ran + Called(calls[..l]), calls[l]);
    hide Ready, GoodRun, Startable, Sorted, Before;
    var i :| 0 <= i < |files| && files[i] == calls[k].file
      && NoneReady(w, files[..i], round + k, ran + Called(calls[..k]));
    var j :| 0 <= j < |files| && files[j] == calls[l].file && Ready(w, round + l, ran + Called(calls[..l]), files[j]);
    CalledGrows(calls, k, l);
    ReadyBefore(w, round + k, round + l, ran + Called(calls[..k]), ran + Called(calls[..l]), files[j]);
    hide FirstReady, Steady, NoneReady, Called;
    InOrder(w, files, round + k, ran + Called(calls[..k]), i, j);
    assert calls[k].file != calls[l].file;
  }

  lemma {:induction false} CalledGrows(calls: seq<Call>, k: nat, l: nat)
    requires k <= l <= |calls|
    ensures Called(calls[..k]) <= Called(calls[..l])
  {
    forall a | a in Called(calls[..k]) ensures a in Called(calls[..l]) {
      var m :| 0 <= m < k && calls[..k][m].addr == a;
      assert calls[..l][m].addr == a;
    }
  }

  /** What is ready in a later round was so in an earlier one. */
  lemma {:induction false} ReadyBefore(w: World, q: nat, r: nat, ran: set<Addr>, more: set<Addr>, f: Path)
    requires Steady(w) && ran <= more && Ready(w, r, more, f)
    ensures Ready(w, q, ran, f)
  {
  }

  lemma {:induction false} InOrder(w: World, files: seq<Path>, round: nat, ran: set<Addr>, i: nat, j: nat)
    requires i < |files| && j < |files| && Sorted(files)
    requires NoneReady(w, files[..i], round, ran) && Ready(w, round, ran, files[j])
    ensures i <= j && (files[i] != files[j] ==> Before(files[i], files[j]))
  {
    hide Before, Ready;
    forall k | 0 <= k < i ensures !Ready(w, round, ran, files[k]) { assert files[..i][k] == files[k]; }
  }

  /** And every address that could be called is. */
  lemma {:induction false} EveryoneCalled(
    w: World, files: seq<Path>, round: nat, ran: set<Addr>, calls: seq<Call>, a: Addr)
    requires GoodRun(w, files, round, ran, calls) && Steady(w)
    requires NoneReady(w, files, round + |calls|, ran + Called(calls))
    ensures a in Called(calls)
       <==> exists i :: 0 <= i < |files| && Ready(w, round, ran, files[i]) && w.parse(files[i]) == Some(a)
  {
    if a in Called(calls) {
      var k :| 0 <= k < |calls| && calls[k].addr == a;
      assert FirstReady(w, files, round + k, ran + Called(calls[..k]), calls[k]);
      var i :| 0 <= i < |files| && files[i] == calls[k].file
        && Ready(w, round + k, ran + Called(calls[..k]), files[i]) && w.parse(files[i]) == Some(a);
    }
    if i :| 0 <= i < |files| && Ready(w, round, ran, files[i]) && w.parse(files[i]) == Some(a) {
      assert !Ready(w, round + |calls|, ran + Called(calls), files[i]);
      assert w.lockable(round, files[i]) == w.lockable(round + |calls|, files[i]);
      assert w.held(round, a) == w.held(round + |calls|, a);
    }
  }

  /** Runs every outbound directory; an address with files in several of them is still called once. */
  method RunOutbound(w: World, dirs: seq<seq<Path>>) returns (calls: seq<Call>)
    ensures NoRepeat(calls)
  {
    var m := new Mailer();
    var i: nat := 0;
    while i < |dirs|
      invariant i <= |dirs| && fresh(m) && m.ran == Called(m.calls) && NoRepeat(m.calls)
    {
      ghost var before, ran, round := m.calls, m.ran, m.round;
      m.RunOneOutboundDir(w, dirs[i]);
      ghost var made := m.calls[|before|..];
      CallsAtMostOnce(w, Sort(dirs[i]), round, ran, made);
      assert m.calls == before + made;
      CalledBoth(before, made);
      i := i + 1;
    }
    return m.calls;
  }

  lemma {:induction false} CalledBoth(a: seq<Call>, b: seq<Call>)
    ensures Called(a + b) == Called(a) + Called(b)
    ensures NoRepeat(a) && NoRepeat(b) && Called(a) !! Called(b) ==> NoRepeat(a + b)
  {
    var c := a + b;
    forall x | x in Called(a) + Called(b) ensures x in Called(c) {
      if x in Called(a) {
        var k :| 0 <= k < |a| && a[k].addr == x;
        assert c[k].addr == x;
      } else {
        var k :| 0 <= k < |b| && b[k].addr == x;
        assert c[|a| + k].addr == x;
      }
    }
    if NoRepeat(a) && NoRepeat(b) && Called(a) !! Called(b) {
      forall k, l | 0 <= k < l < |c| ensures c[k].addr != c[l].addr {
        if k < |a| <= l { assert a[k].addr in Called(a) && b[l - |a|].addr in Called(b); }
      }
    }
  }
}
