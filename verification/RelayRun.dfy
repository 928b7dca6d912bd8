/** Runs of all the servers, in which copies arrive in any order. */
module RelayRun {
  import opened Network
  import opened Relay

  datatype Packet = Packet(from: nat, to: nat)

  /** A channel message from a user to a channel whose members are known to all servers. */
  datatype Message = Message(tree: Tree, users: seq<User>, origin: nat, home: nat)

  ghost predicate WellPosed(m: Message) {
    OnTree(m.tree, m.users) && DistinctIds(m.users) && m.home < |m.tree|
  }

  /** Which users got copies, what is on the links, and (for the proof only) which servers have relayed. */
  datatype Run = Run(delivered: seq<nat>, wire: seq<Packet>, done: set<nat>)

  function Packets(b: nat, links: seq<nat>): (r: seq<Packet>)
    ensures |r| == |links| && forall i :: 0 <= i < |r| ==> r[i] == Packet(b, links[i])
  {
    seq(|links|, i requires 0 <= i < |links| => Packet(b, links[i]))
  }

  /** The channel branch of `do_msg` at one server, for a message that the server accepts. */
  function RelayAt(m: Message, r: Run, b: nat): Run
    requires OnTree(m.tree, m.users) && m.home < |m.tree| && b < |m.tree|
  {
    Run(r.delivered + LocalCopies(b, m.users, m.origin),
        r.wire + Packets(b, LinkCopies(m.tree, b, m.users, m.home, {})),
        r.done + {b})
  }

  function Start(m: Message): Run
    requires OnTree(m.tree, m.users) && m.home < |m.tree|
  {
    RelayAt(m, Run([], [], {}), m.home)
  }

  /** Packet i arrives. A server drops a message that comes on another link than the one on which it
      knows the sender. */
  function Arrive(m: Message, r: Run, i: nat): Run
    requires OnTree(m.tree, m.users) && m.home < |m.tree| && i < |r.wire| && r.wire[i].to < |m.tree|
  {
    var p := r.wire[i];
    var rest := r.(wire := r.wire[..i] + r.wire[i + 1..]);
    if ParentOf(m.tree, p.to, m.home) == Some(p.from) then RelayAt(m, rest, p.to) else rest
  }

  /** The run in which, step by step, the packets of the given places arrive; a place that holds none is passed over. */
  function After(m: Message, arrivals: seq<nat>): Run
    requires OnTree(m.tree, m.users) && m.home < |m.tree|
  {
    if arrivals == [] then Start(m)
    else
      var n := |arrivals| - 1;
      var r := After(m, arrivals[..n]);
      if arrivals[n] < |r.wire| && r.wire[arrivals[n]].to < |m.tree| then Arrive(m, r, arrivals[n]) else r
  }

  // ---------- The invariant ----------

  /** Packet p is on its way toward the members at server s. */
  predicate Covers(t: Tree, p: Packet, s: nat)
    requires s < |t|
  {
    p.from < |t| && Leads(t, p.from, p.to, s)
  }

  function Awaiting(t: Tree, wire: seq<Packet>, s: nat): nat
    requires s < |t|
  {
    if wire == [] then 0 else (if Covers(t, wire[0], s) then 1 else 0) + Awaiting(t, wire[1..], s)
  }

  /** A packet travels away from the sender, from a server that has relayed to one that has not. */
  ghost predicate Outward(m: Message, r: Run, p: Packet)
    requires m.home < |m.tree|
  {
    && Adjacent(m.tree, p.from, p.to) && Leads(m.tree, p.to, p.from, m.home)
    && p.from in r.done && p.to !in r.done
  }

  ghost predicate PacketsOutward(m: Message, r: Run)
    requires m.home < |m.tree|
  {
    && (forall i :: 0 <= i < |r.wire| ==> Outward(m, r, r.wire[i]))
    && (forall i, j :: 0 <= i < j < |r.wire| ==> r.wire[i].to != r.wire[j].to)
  }

  /** Every server that has relayed was reached from the sender through servers that have. */
  ghost predicate DoneClosed(m: Message, r: Run)
    requires m.home < |m.tree|
  {
    m.home in r.done && forall b :: b in r.done ==> b < |m.tree| && (b != m.home ==> Hop(m.tree, b, m.home) in r.done)
  }

  /** Each member but the sender has its copy, or exactly one copy is on its way to it. */
  ghost predicate OneCopyEach(m: Message, r: Run)
    requires OnTree(m.tree, m.users)
  {
    forall u :: u in m.users && u.id != m.origin ==>
      multiset(r.delivered)[u.id] + Awaiting(m.tree, r.wire, u.server) == 1
  }

  ghost predicate NobodyElse(m: Message, r: Run) {
    forall x :: x in r.delivered ==> x != m.origin && exists i :: 0 <= i < |m.users| && m.users[i].id == x
  }

  ghost predicate Inv(m: Message, r: Run)
    requires WellPosed(m)
  {
    PacketsOutward(m, r) && DoneClosed(m, r) && OneCopyEach(m, r) && NobodyElse(m, r)
  }

  // ---------- Counting ----------

  lemma {:induction false} AwaitingConcat(t: Tree, a: seq<Packet>, b: seq<Packet>, s: nat)
    requires s < |t|
    ensures Awaiting(t, a + b, s) == Awaiting(t, a, s) + Awaiting(t, b, s)
    decreases |a|
  {
    hide Covers;
    if a == [] {
      assert a + b == b;
    } else {
      assert (a + b)[1..] == a[1..] + b;
      AwaitingConcat(t, a[1..], b, s);
    }
  }

  lemma {:induction false} AwaitingWithout(t: Tree, wire: seq<Packet>, i: nat, s: nat)
    requires s < |t| && i < |wire|
    ensures Awaiting(t, wire, s) == Awaiting(t, wire[..i] + wire[i + 1..], s) + if Covers(t, wire[i], s) then 1 else 0
  {
    hide Covers;
    assert wire == wire[..i] + ([wire[i]] + wire[i + 1..]);
    AwaitingConcat(t, wire[..i], [wire[i]] + wire[i + 1..], s);
    AwaitingConcat(t, [wire[i]], wire[i + 1..], s);
    AwaitingConcat(t, wire[..i], wire[i + 1..], s);
    assert [wire[i]][1..] == [];
  }

  /** Of the copies that one server sends on, the one over the right link is on its way to s. */
  lemma {:induction false} AwaitingPackets(t: Tree, b: nat, links: seq<nat>, s: nat)
    requires b < |t| && s < |t| && NoDuplicates(links)
    ensures Awaiting(t, Packets(b, links), s) == if b != s && Hop(t, b, s) in links then 1 else 0
    decreases |links|
  {
    hide Hop;
    if links != [] {
      var ps := Packets(b, links);
      assert ps[0] == Packet(b, links[0]) && ps[1..] == Packets(b, links[1..]);
      AwaitingPackets(t, b, links[1..], s);
      if b != s && Hop(t, b, s) == links[0] {
        assert links[0] !in links[1..];
      }
    }
  }

  // ---------- One server relays ----------

  /** What a server that relays for the first time adds for the members at s. */
  lemma {:induction false} RelayAdds(m: Message, b: nat, u: User)
    requires WellPosed(m) && b < |m.tree| && u in m.users && u.id != m.origin
    ensures var links := LinkCopies(m.tree, b, m.users, m.home, {});
      multiset(LocalCopies(b, m.users, m.origin))[u.id] + Awaiting(m.tree, Packets(b, links), u.server)
      == if u.server == b || !Leads(m.tree, b, Hop(m.tree, b, u.server), m.home) then 1 else 0
  {
    hide Hop;
    var links := LinkCopies(m.tree, b, m.users, m.home, {});
    LocalsServed(b, m.users, m.origin, u);
    LinksServed(m.tree, b, m.users, m.home, {});
    AwaitingPackets(m.tree, b, links, u.server);
    if u.server != b {
      var i :| 0 <= i < |m.users| && m.users[i] == u;
      assert Leads(m.tree, b, Hop(m.tree, b, u.server), m.users[i].server);
    }
  }

  lemma {:induction false} LocalsAreMembers(here: nat, users: seq<User>, origin: nat, x: nat)
    requires x in LocalCopies(here, users, origin)
    ensures x != origin && exists i :: 0 <= i < |users| && users[i].id == x
    decreases |users|
  {
    if x == users[0].id && x != origin {
    } else {
      LocalsAreMembers(here, users[1..], origin, x);
      var i :| 0 <= i < |users[1..]| && users[1..][i].id == x;
      assert users[i + 1].id == x;
    }
  }

  lemma {:induction false} NobodyElseKept(m: Message, r: Run, b: nat)
    requires WellPosed(m) && b < |m.tree| && NobodyElse(m, r)
    ensures NobodyElse(m, RelayAt(m, r, b))
  {
    forall x | x in r.delivered + LocalCopies(b, m.users, m.origin)
      ensures x != m.origin && exists i :: 0 <= i < |m.users| && m.users[i].id == x
    {
      if x !in r.delivered { LocalsAreMembers(b, m.users, m.origin, x); }
    }
  }

  /** The packets that server b sends on travel away from the sender, to servers no other packet goes to. */
  lemma {:induction false} PacketsKept(m: Message, r: Run, b: nat)
    requires WellPosed(m) && b < |m.tree| && b !in r.done && PacketsOutward(m, r)
    requires forall i :: 0 <= i < |r.wire| ==> r.wire[i].to != b
    requires forall c :: c in r.done ==> c < |m.tree| && (c != m.home ==> Hop(m.tree, c, m.home) in r.done)
    ensures PacketsOutward(m, RelayAt(m, r, b))
  {
    var links := LinkCopies(m.tree, b, m.users, m.home, {});
    var r' := RelayAt(m, r, b);
    LinksServed(m.tree, b, m.users, m.home, {});
    hide Hop, Leads, Above, Adjacent, Outward, LinkCopies, LocalCopies, HasMember;
    var added := Packets(b, links);
    forall i | 0 <= i < |added|
      ensures Outward(m, r', added[i]) && forall j :: 0 <= j < |r.wire| ==> r.wire[j].to != added[i].to
    {
      NewPacket(m, r, b, links[i]);
    }
    forall i | 0 <= i < |r.wire| ensures Outward(m, r', r.wire[i]) {
      OldPacket(m, r, b, r.wire[i]);
    }
    hide RelayAt;
    AllOutward(m, r', r.wire, added);
  }

  lemma {:induction false} AllOutward(m: Message, r: Run, a: seq<Packet>, b: seq<Packet>)
    requires m.home < |m.tree| && r.wire == a + b
    requires forall i :: 0 <= i < |a| ==> Outward(m, r, a[i])
    requires forall i :: 0 <= i < |b| ==> Outward(m, r, b[i]) && forall j :: 0 <= j < |a| ==> a[j].to != b[i].to
    requires forall i, j :: 0 <= i < j < |a| ==> a[i].to != a[j].to
    requires forall i, j :: 0 <= i < j < |b| ==> b[i].to != b[j].to
    ensures PacketsOutward(m, r)
  {
    hide Outward;
  }

  lemma {:induction false} OldPacket(m: Message, r: Run, b: nat, p: Packet)
    requires WellPosed(m) && b < |m.tree| && Outward(m, r, p) && p.to != b
    ensures Outward(m, RelayAt(m, r, b), p)
  {
    hide Leads, Adjacent, LinkCopies, LocalCopies;
  }

  lemma {:induction false} NewPacket(m: Message, r: Run, b: nat, l: nat)
    requires WellPosed(m) && b < |m.tree| && b !in r.done && PacketsOutward(m, r)
    requires HasMember(m.tree, b, m.users, l) && !Leads(m.tree, b, l, m.home)
    requires forall c :: c in r.done ==> c < |m.tree| && (c != m.home ==> Hop(m.tree, c, m.home) in r.done)
    ensures Outward(m, RelayAt(m, r, b), Packet(b, l))
    ensures forall j :: 0 <= j < |r.wire| ==> r.wire[j].to != l
  {
    var i :| 0 <= i < |m.users| && Leads(m.tree, b, l, m.users[i].server);
    assert Adjacent(m.tree, b, l);
    LinkSplits(m.tree, b, l, m.home);
    hide Hop, LinkCopies, LocalCopies;
    assert Hop(m.tree, l, m.home) == b;
    forall j | 0 <= j < |r.wire| ensures r.wire[j].to != l {
      assert Outward(m, r, r.wire[j]);
    }
  }

  // ---------- Every run ----------

  lemma {:induction false} StartInv(m: Message)
    requires WellPosed(m)
    ensures Inv(m, Start(m))
  {
    var r0 := Run([], [], {});
    PacketsKept(m, r0, m.home);
    NobodyElseKept(m, r0, m.home);
    forall u | u in m.users && u.id != m.origin
      ensures multiset(Start(m).delivered)[u.id] + Awaiting(m.tree, Start(m).wire, u.server) == 1
    {
      RelayAdds(m, m.home, u);
      StartIs(m);
    }
  }

  lemma {:induction false} StartIs(m: Message)
    requires WellPosed(m)
    ensures Start(m).delivered == LocalCopies(m.home, m.users, m.origin)
    ensures Start(m).wire == Packets(m.home, LinkCopies(m.tree, m.home, m.users, m.home, {}))
  {
  }

  /** The count for one member, when packet i arrives. */
  lemma {:induction false} ArriveCount(m: Message, r: Run, i: nat, u: User)
    requires WellPosed(m) && Inv(m, r) && i < |r.wire| && u in m.users && u.id != m.origin
    ensures r.wire[i].to < |m.tree|
    ensures var r' := Arrive(m, r, i); multiset(r'.delivered)[u.id] + Awaiting(m.tree, r'.wire, u.server) == 1
  {
    var p := r.wire[i];
    var a, b, s := p.from, p.to, u.server;
    assert Outward(m, r, p);
    assert Adjacent(m.tree, a, b) && Leads(m.tree, b, a, m.home);
    LinkSplits(m.tree, a, b, s);
    hide Hop, Adjacent;
    var rest := r.wire[..i] + r.wire[i + 1..];
    var links := LinkCopies(m.tree, b, m.users, m.home, {});
    AwaitingWithout(m.tree, r.wire, i, s);
    AwaitingConcat(m.tree, rest, Packets(b, links), s);
    RelayAdds(m, b, u);
    MultisetOfConcat(r.delivered, LocalCopies(b, m.users, m.origin), u.id);
    hide LinkCopies, LocalCopies, Awaiting;
    assert Covers(m.tree, p, s) <==> !Leads(m.tree, b, a, s);
  }

  lemma {:induction false} MultisetOfConcat(a: seq<nat>, b: seq<nat>, x: nat)
    ensures multiset(a + b)[x] == multiset(a)[x] + multiset(b)[x]
  {
  }

  lemma {:induction false} WithoutOutward(m: Message, r: Run, i: nat)
    requires WellPosed(m) && PacketsOutward(m, r) && i < |r.wire|
    ensures var rest := r.(wire := r.wire[..i] + r.wire[i + 1..]);
      && PacketsOutward(m, rest)
      && (forall j :: 0 <= j < |rest.wire| ==> rest.wire[j].to != r.wire[i].to)
  {
    hide Hop, Adjacent;
    var rest := r.(wire := r.wire[..i] + r.wire[i + 1..]);
    forall j | 0 <= j < |rest.wire| ensures Outward(m, rest, rest.wire[j]) && rest.wire[j].to != r.wire[i].to {
      var k := if j < i then j else j + 1;
      assert rest.wire[j] == r.wire[k] && Outward(m, r, r.wire[k]);
    }
    forall j, k | 0 <= j < k < |rest.wire| ensures rest.wire[j].to != rest.wire[k].to {
      assert rest.wire[j] == r.wire[if j < i then j else j + 1] && rest.wire[k] == r.wire[if k < i then k else k + 1];
    }
  }

  /** The arrival of any packet keeps the invariant; no packet is dropped, and one more server has relayed. */
  lemma {:induction false} ArriveInv(m: Message, r: Run, i: nat)
    requires WellPosed(m) && Inv(m, r) && i < |r.wire|
    ensures r.wire[i].to < |m.tree| && Inv(m, Arrive(m, r, i))
    ensures r.wire[i].to !in r.done && Arrive(m, r, i).done == r.done + {r.wire[i].to}
  {
    hide Hop, Leads, Adjacent, LinkCopies, LocalCopies, Awaiting, Outward;
    var p := r.wire[i];
    var rest := r.(wire := r.wire[..i] + r.wire[i + 1..]);
    ArriveIs(m, r, i);
    WithoutOutward(m, r, i);
    PacketsKept(m, rest, p.to);
    NobodyElseKept(m, rest, p.to);
    forall u | u in m.users && u.id != m.origin
      ensures multiset(Arrive(m, r, i).delivered)[u.id] + Awaiting(m.tree, Arrive(m, r, i).wire, u.server) == 1
    {
      ArriveCount(m, r, i, u);
    }
    hide PacketsOutward;
  }

  /** The server accepts the packet: it comes from the server through which it was reached, which has relayed. */
  lemma {:induction false} ArriveIs(m: Message, r: Run, i: nat)
    requires WellPosed(m) && PacketsOutward(m, r) && DoneClosed(m, r) && i < |r.wire|
    ensures var p := r.wire[i];
      && p.to < |m.tree| && p.to !in r.done
      && Arrive(m, r, i) == RelayAt(m, r.(wire := r.wire[..i] + r.wire[i + 1..]), p.to)
      && DoneClosed(m, Arrive(m, r, i)) && Arrive(m, r, i).done == r.done + {p.to}
  {
    assert Outward(m, r, r.wire[i]);
    hide Hop, Adjacent, LinkCopies, LocalCopies;
  }

  /** The invariant holds in every run, whatever the order in which packets arrive. */
  lemma {:induction false} EveryRun(m: Message, arrivals: seq<nat>)
    requires WellPosed(m)
    ensures Inv(m, After(m, arrivals))
    decreases |arrivals|
  {
    if arrivals == [] {
      StartInv(m);
    } else {
      var n := |arrivals| - 1;
      EveryRun(m, arrivals[..n]);
      var r := After(m, arrivals[..n]);
      hide Inv, Arrive;
      if arrivals[n] < |r.wire| { ArriveInv(m, r, arrivals[n]); }
    }
  }

  /** When nothing is left on the links, each member but the sender has got exactly one copy, and
      nobody else has got any. Before that nobody has got more than one. */
  lemma {:induction false} ExactlyOnce(m: Message, arrivals: seq<nat>, x: nat)
    requires WellPosed(m)
    ensures var r := After(m, arrivals);
      var member := x != m.origin && exists i :: 0 <= i < |m.users| && m.users[i].id == x;
      && multiset(r.delivered)[x] <= (if member then 1 else 0)
      && (r.wire == [] ==> multiset(r.delivered)[x] == if member then 1 else 0)
  {
    EveryRun(m, arrivals);
    var r := After(m, arrivals);
    hide After, PacketsOutward, DoneClosed;
    if x != m.origin && exists i :: 0 <= i < |m.users| && m.users[i].id == x {
      var i :| 0 <= i < |m.users| && m.users[i].id == x;
      assert m.users[i] in m.users;
    } else {
      assert x !in r.delivered;
    }
  }

  // ---------- Runs end ----------

  lemma {:induction false} Targets(m: Message, r: Run, n: nat) returns (to: set<nat>)
    requires WellPosed(m) && PacketsOutward(m, r) && n <= |r.wire|
    ensures |to| == n && to !! r.done
    ensures forall x :: x in to <==> exists i :: 0 <= i < n && r.wire[i].to == x
    ensures forall x :: x in to ==> x < |m.tree|
  {
    to := {};
    for k := 0 to n
      invariant |to| == k && to !! r.done
      invariant forall x :: x in to <==> exists i :: 0 <= i < k && r.wire[i].to == x
      invariant forall x :: x in to ==> x < |m.tree|
    {
      assert Outward(m, r, r.wire[k]);
      to := to + {r.wire[k].to};
    }
  }

  lemma {:induction false} BoundedSet(s: set<nat>, n: nat)
    requires forall x :: x in s ==> x < n
    ensures |s| <= n
    decreases n
  {
    if n > 0 {
      BoundedSet(s - {n - 1}, n - 1);
    } else {
      assert s == {};
    }
  }

  /** How many packets arrived. */
  function Arrived(m: Message, arrivals: seq<nat>): nat
    requires OnTree(m.tree, m.users) && m.home < |m.tree|
  {
    if arrivals == [] then 0
    else
      var n := |arrivals| - 1;
      Arrived(m, arrivals[..n]) + if arrivals[n] < |After(m, arrivals[..n]).wire| then 1 else 0
  }

  lemma {:induction false} ArrivedServers(m: Message, arrivals: seq<nat>)
    requires WellPosed(m)
    ensures |After(m, arrivals).done| == Arrived(m, arrivals) + 1
    decreases |arrivals|
  {
    if arrivals == [] {
      assert After(m, arrivals).done == {m.home};
    } else {
      var n := |arrivals| - 1;
      ArrivedServers(m, arrivals[..n]);
      EveryRun(m, arrivals[..n]);
      var r := After(m, arrivals[..n]);
      hide Inv, Arrive;
      if arrivals[n] < |r.wire| { ArriveInv(m, r, arrivals[n]); }
    }
  }

  /** Each arrival takes a server that has not relayed yet, so packets that arrived and packets on
      the links are together fewer than the servers: every run ends, with nothing left on the links. */
  lemma {:induction false} RunsEnd(m: Message, arrivals: seq<nat>)
    requires WellPosed(m)
    ensures Arrived(m, arrivals) + |After(m, arrivals).wire| < |m.tree|
  {
    EveryRun(m, arrivals);
    ArrivedServers(m, arrivals);
    var r := After(m, arrivals);
    var to := Targets(m, r, |r.wire|);
    BoundedSet(r.done + to, |m.tree|);
  }
}
