/** Runs of a message to a channel's operators or voiced members. */
module ListRun {
  import opened Network
  import opened Relay
  import opened RelayRun

  // ---------- One server ----------

  /** The listed local members that get a copy of a message from `origin`. */
  function LocalListed(here: nat, users: seq<User>, origin: nat, listed: set<nat>): seq<nat> {
    if users == [] then []
    else
      var u := users[0];
      (if u.id != origin && u.id in listed && u.server == here then [u.id] else [])
      + LocalListed(here, users[1..], origin, listed)
  }

  /** `bcast_to_list` without bounce: what goes to local members, and on which links copies go out. */
  method BcastToList(t: Tree, here: nat, users: seq<User>, origin: nat, listed: set<nat>)
    returns (copies: seq<nat>, links: seq<nat>)
    requires here < |t| && OnTree(t, users)
    ensures copies == LocalListed(here, users, origin, listed) && links == ListLinks(t, here, users, origin, listed)
  {
    hide Hop, LocalListed, ListLinks;
    copies, links := [], [];
    var i := 0;
    assert users[0..] == users;
    NothingAhead(LocalListed(here, users, origin, listed));
    NothingAhead(ListLinks(t, here, users, origin, listed));
    while i < |users|
      invariant 0 <= i <= |users|
      invariant copies + LocalListed(here, users[i..], origin, listed) == LocalListed(here, users, origin, listed)
      invariant links + ListLinks(t, here, users[i..], origin, listed) == ListLinks(t, here, users, origin, listed)
    {
      ListStep(t, here, users, i, origin, listed, copies, links);
      if users[i].id != origin && users[i].id in listed {
        if users[i].server == here {
          copies := copies + [users[i].id];
        } else {
          links := links + [Hop(t, here, users[i].server)];
        }
      }
      i := i + 1;
    }
    ListEnds(t, here, users[i..], origin, listed);
  }

  lemma {:induction false} NothingAhead(s: seq<nat>)
    ensures [] + s == s
  {
  }

  lemma {:induction false} ListStep(
    t: Tree, here: nat, users: seq<User>, i: nat, origin: nat, listed: set<nat>, copies: seq<nat>, links: seq<nat>)
    requires here < |t| && OnTree(t, users) && i < |users|
    ensures var u := users[i];
      var takes := u.id != origin && u.id in listed;
      && copies + LocalListed(here, users[i..], origin, listed)
         == (if takes && u.server == here then copies + [u.id] else copies)
           + LocalListed(here, users[i + 1..], origin, listed)
      && links + ListLinks(t, here, users[i..], origin, listed)
         == (if takes && u.server != here then links + [Hop(t, here, u.server)] else links)
            + ListLinks(t, here, users[i + 1..], origin, listed)
  {
    hide Hop;
    assert users[i..][1..] == users[i + 1..];
  }

  lemma {:induction false} ListEnds(t: Tree, here: nat, users: seq<User>, origin: nat, listed: set<nat>)
    requires here < |t| && OnTree(t, users) && users == []
    ensures LocalListed(here, users, origin, listed) == [] && ListLinks(t, here, users, origin, listed) == []
  {
  }

  lemma {:induction false} ListedServed(here: nat, users: seq<User>, origin: nat, listed: set<nat>, u: User)
    requires DistinctIds(users) && u in users
    ensures multiset(LocalListed(here, users, origin, listed))[u.id]
         == if u.id != origin && u.id in listed && u.server == here then 1 else 0
    decreases |users|
  {
    var rest := LocalListed(here, users[1..], origin, listed);
    var v := users[0];
    var first := if v.id != origin && v.id in listed && v.server == here then [v.id] else [];
    assert multiset(first + rest) == multiset(first) + multiset(rest);
    if u == v {
      OthersUnlisted(here, users[1..], origin, listed, u.id);
    } else {
      assert u in users[1..];
      ListedServed(here, users[1..], origin, listed, u);
    }
  }

  lemma {:induction false} OthersUnlisted(here: nat, users: seq<User>, origin: nat, listed: set<nat>, id: nat)
    requires forall i :: 0 <= i < |users| ==> users[i].id != id
    ensures multiset(LocalListed(here, users, origin, listed))[id] == 0
    decreases |users|
  {
    if users != [] {
      var rest := LocalListed(here, users[1..], origin, listed);
      var v := users[0];
      var first := if v.id != origin && v.id in listed && v.server == here then [v.id] else [];
      assert multiset(first + rest) == multiset(first) + multiset(rest);
      OthersUnlisted(here, users[1..], origin, listed, id);
    }
  }

  // ---------- Ways through the tree ----------

  /** The number of links between two servers. */
  function Dist(t: Tree, a: nat, s: nat): nat
    requires a < |t| && s < |t|
    decreases a + s
  {
    if a == s then 0 else if a > s then 1 + Dist(t, t[a], s) else 1 + Dist(t, a, t[s])
  }

  lemma {:induction false} HopIsNearer(t: Tree, a: nat, s: nat)
    requires a < |t| && s < |t| && a != s
    ensures Dist(t, a, s) == 1 + Dist(t, Hop(t, a, s), s)
    decreases s
  {
    if Above(t, a, s) {
      AboveIsSmaller(t, a, s);
      if t[s] != a { HopIsNearer(t, a, t[s]); }
    } else {
      NotRoot(t, a, s);
      if a < s {
        HopIsNearer(t, a, t[s]);
      }
    }
  }

  /** A message from a user on server home to the listed members of a channel known to all servers. */
  datatype ListMessage = ListMessage(all: Message, listed: set<nat>)

  /** The copies that one relay at b puts on the link to l. */
  function Copies(m: ListMessage, b: nat, l: nat): nat
    requires OnTree(m.all.tree, m.all.users) && m.all.home < |m.all.tree| && b < |m.all.tree|
  {
    multiset(LinksAt(m, b))[l]
  }

  function LinksAt(m: ListMessage, b: nat): seq<nat>
    requires OnTree(m.all.tree, m.all.users) && m.all.home < |m.all.tree| && b < |m.all.tree|
  {
    ListLinks(m.all.tree, b, m.all.users, m.all.origin, m.listed)
      + LinkCopies(m.all.tree, b, m.all.users, m.all.home, {})
  }

  /** The next server on the way from b to s. */
  function Nearer(t: Tree, b: nat, s: nat): (l: nat)
    requires b < |t| && s < |t| && b != s
    ensures l < |t| && l == Hop(t, b, s) && Dist(t, l, s) < Dist(t, b, s)
  {
    HopIsNearer(t, b, s);
    Hop(t, b, s)
  }

  function Times(a: nat, b: nat): nat {
    a * b
  }

  lemma {:induction false} TimesMore(a: nat, b: nat)
    ensures Times(a + 1, b) == Times(a, b) + b && Times(0, b) == 0
  {
  }

  /** Along the way from b to s the copies multiply. */
  function Multiplied(m: ListMessage, b: nat, s: nat): nat
    requires OnTree(m.all.tree, m.all.users) && m.all.home < |m.all.tree| && b < |m.all.tree| && s < |m.all.tree|
    decreases Dist(m.all.tree, b, s)
  {
    if b == s then 1
    else
      var l := Nearer(m.all.tree, b, s);
      Times(Copies(m, b, l), Multiplied(m, l, s))
  }

  // ---------- A run of all servers ----------

  datatype Traffic = Traffic(delivered: seq<nat>, wire: seq<Packet>)

  /** The list branch of `do_msg` at one server, for a message that the server accepts. */
  function RelayList(m: ListMessage, r: Traffic, b: nat): Traffic
    requires OnTree(m.all.tree, m.all.users) && m.all.home < |m.all.tree| && b < |m.all.tree|
  {
    Traffic(r.delivered + LocalListed(b, m.all.users, m.all.origin, m.listed), r.wire + Packets(b, LinksAt(m, b)))
  }

  function StartList(m: ListMessage): Traffic
    requires OnTree(m.all.tree, m.all.users) && m.all.home < |m.all.tree|
  {
    RelayList(m, Traffic([], []), m.all.home)
  }

  /** The server takes the packet: it comes on the link on which it knows the sender. */
  predicate Accepted(m: ListMessage, p: Packet)
    requires m.all.home < |m.all.tree|
  {
    p.to < |m.all.tree| && ParentOf(m.all.tree, p.to, m.all.home) == Link.Some(p.from)
  }

  function ArriveList(m: ListMessage, r: Traffic, i: nat): Traffic
    requires OnTree(m.all.tree, m.all.users) && m.all.home < |m.all.tree| && i < |r.wire|
  {
    var rest := r.(wire := r.wire[..i] + r.wire[i + 1..]);
    if Accepted(m, r.wire[i]) then RelayList(m, rest, r.wire[i].to) else rest
  }

  /** The run in which, step by step, the packets of the given places arrive; a place that holds none is passed over. */
  function AfterList(m: ListMessage, arrivals: seq<nat>): Traffic
    requires OnTree(m.all.tree, m.all.users) && m.all.home < |m.all.tree|
  {
    if arrivals == [] then StartList(m)
    else
      var n := |arrivals| - 1;
      var r := AfterList(m, arrivals[..n]);
      if arrivals[n] < |r.wire| then ArriveList(m, r, arrivals[n]) else r
  }

  // ---------- Counting what is under way ----------

  /** The copies for a member at s that will come of packet p. */
  function ToCome(m: ListMessage, p: Packet, s: nat): nat
    requires OnTree(m.all.tree, m.all.users) && m.all.home < |m.all.tree| && s < |m.all.tree|
  {
    if Accepted(m, p) && Covers(m.all.tree, p, s) then Multiplied(m, p.to, s) else 0
  }

  function AllToCome(m: ListMessage, wire: seq<Packet>, s: nat): nat
    requires OnTree(m.all.tree, m.all.users) && m.all.home < |m.all.tree| && s < |m.all.tree|
  {
    if wire == [] then 0 else ToCome(m, wire[0], s) + AllToCome(m, wire[1..], s)
  }

  lemma {:induction false} ToComeConcat(m: ListMessage, a: seq<Packet>, b: seq<Packet>, s: nat)
    requires OnTree(m.all.tree, m.all.users) && m.all.home < |m.all.tree| && s < |m.all.tree|
    ensures AllToCome(m, a + b, s) == AllToCome(m, a, s) + AllToCome(m, b, s)
    decreases |a|
  {
    hide ToCome;
    if a == [] {
      assert a + b == b;
    } else {
      assert (a + b)[1..] == a[1..] + b;
      ToComeConcat(m, a[1..], b, s);
    }
  }

  lemma {:induction false} ToComeWithout(m: ListMessage, wire: seq<Packet>, i: nat, s: nat)
    requires OnTree(m.all.tree, m.all.users) && m.all.home < |m.all.tree| && s < |m.all.tree| && i < |wire|
    ensures AllToCome(m, wire, s) == AllToCome(m, wire[..i] + wire[i + 1..], s) + ToCome(m, wire[i], s)
  {
    hide ToCome;
    assert wire == wire[..i] + ([wire[i]] + wire[i + 1..]);
    ToComeConcat(m, wire[..i], [wire[i]] + wire[i + 1..], s);
    ToComeConcat(m, [wire[i]], wire[i + 1..], s);
    ToComeConcat(m, wire[..i], wire[i + 1..], s);
    assert [wire[i]][1..] == [];
  }

  /** Of the packets that one relay sends, those on the link to l count, if l is on the way to s. */
  lemma {:induction false} ToComePackets(m: ListMessage, b: nat, links: seq<nat>, s: nat)
    requires OnTree(m.all.tree, m.all.users) && m.all.home < |m.all.tree| && b < |m.all.tree| && s < |m.all.tree|
    ensures AllToCome(m, Packets(b, links), s)
         == if b == s then 0
            else Times(multiset(links)[Hop(m.all.tree, b, s)], ToCome(m, Packet(b, Hop(m.all.tree, b, s)), s))
    decreases |links|
  {
    if links == [] {
      if b != s { TimesMore(0, ToCome(m, Packet(b, Hop(m.all.tree, b, s)), s)); }
    } else {
      ToComePackets(m, b, links[1..], s);
      hide *;
      FirstPacket(m, b, links, s);
    }
  }

  lemma {:induction false} FirstPacket(m: ListMessage, b: nat, links: seq<nat>, s: nat)
    requires OnTree(m.all.tree, m.all.users) && m.all.home < |m.all.tree| && b < |m.all.tree|
    requires s < |m.all.tree| && links != []
    requires AllToCome(m, Packets(b, links[1..]), s)
          == if b == s then 0
             else Times(multiset(links[1..])[Hop(m.all.tree, b, s)], ToCome(m, Packet(b, Hop(m.all.tree, b, s)), s))
    ensures AllToCome(m, Packets(b, links), s)
         == if b == s then 0
            else Times(multiset(links)[Hop(m.all.tree, b, s)], ToCome(m, Packet(b, Hop(m.all.tree, b, s)), s))
  {
    hide Hop, ToCome, Times, AllToCome, Packets;
    PacketFirst(m, b, links, s);
    NotCovered(m, b, links[0], s);
    if b != s {
      var l := Hop(m.all.tree, b, s);
      CountFirst(links, l);
      TimesMore(multiset(links[1..])[l], ToCome(m, Packet(b, l), s));
    }
  }

  lemma {:induction false} CountFirst(links: seq<nat>, x: nat)
    requires links != []
    ensures multiset(links)[x] == multiset(links[1..])[x] + if links[0] == x then 1 else 0
  {
    assert links == [links[0]] + links[1..];
  }

  lemma {:induction false} PacketFirst(m: ListMessage, b: nat, links: seq<nat>, s: nat)
    requires OnTree(m.all.tree, m.all.users) && m.all.home < |m.all.tree| && b < |m.all.tree|
    requires s < |m.all.tree| && links != []
    ensures AllToCome(m, Packets(b, links), s)
         == ToCome(m, Packet(b, links[0]), s) + AllToCome(m, Packets(b, links[1..]), s)
  {
    hide ToCome;
    var ps := Packets(b, links);
    assert ps[0] == Packet(b, links[0]) && ps[1..] == Packets(b, links[1..]);
  }

  lemma {:induction false} NotCovered(m: ListMessage, b: nat, l: nat, s: nat)
    requires OnTree(m.all.tree, m.all.users) && m.all.home < |m.all.tree| && b < |m.all.tree| && s < |m.all.tree|
    ensures b == s || l != Hop(m.all.tree, b, s) ==> ToCome(m, Packet(b, l), s) == 0
  {
    hide Multiplied, Hop;
  }

  /** The sender's server, or one to which a packet was accepted on a way that leads on to s. */
  predicate OnTheWay(m: ListMessage, b: nat, s: nat)
    requires m.all.home < |m.all.tree| && b < |m.all.tree| && s < |m.all.tree|
  {
    b == s || !Leads(m.all.tree, b, Hop(m.all.tree, b, s), m.all.home)
  }

  /** What one relay brings for a listed member at s. */
  lemma {:induction false} RelayBrings(m: ListMessage, b: nat, u: User)
    requires WellPosed(m.all) && b < |m.all.tree| && u in m.all.users && u.id != m.all.origin && u.id in m.listed
    ensures multiset(LocalListed(b, m.all.users, m.all.origin, m.listed))[u.id]
      + AllToCome(m, Packets(b, LinksAt(m, b)), u.server)
         == if OnTheWay(m, b, u.server) then Multiplied(m, b, u.server) else 0
  {
    var t, s := m.all.tree, u.server;
    hide Hop, LinksAt, LocalListed, ToCome, Times, AllToCome, Packets;
    ListedServed(b, m.all.users, m.all.origin, m.listed, u);
    ToComePackets(m, b, LinksAt(m, b), s);
    if b != s {
      var l := Hop(t, b, s);
      NextToCome(m, b, s);
      TimesNone(multiset(LinksAt(m, b))[l]);
    }
  }

  lemma {:induction false} TimesNone(a: nat)
    ensures Times(a, 0) == 0
  {
  }

  lemma {:induction false} NextToCome(m: ListMessage, b: nat, s: nat)
    requires OnTree(m.all.tree, m.all.users) && m.all.home < |m.all.tree| && b < |m.all.tree|
    requires s < |m.all.tree| && b != s
    ensures var l := Hop(m.all.tree, b, s);
      ToCome(m, Packet(b, l), s) == if OnTheWay(m, b, s) then Multiplied(m, l, s) else 0
  {
    LinkSplits(m.all.tree, b, Hop(m.all.tree, b, s), m.all.home);
    hide Hop, Multiplied;
  }

  // ---------- Every run ----------

  /** For each listed member: what it has and what is to come of the packets under way. */
  ghost predicate Balanced(m: ListMessage, r: Traffic, u: User)
    requires WellPosed(m.all) && u.server < |m.all.tree|
  {
    multiset(r.delivered)[u.id] + AllToCome(m, r.wire, u.server) == Multiplied(m, m.all.home, u.server)
  }

  lemma {:induction false} StartBalanced(m: ListMessage, u: User)
    requires WellPosed(m.all) && u in m.all.users && u.id != m.all.origin && u.id in m.listed
    ensures u.server < |m.all.tree| && Balanced(m, StartList(m), u)
  {
    hide Hop, Multiplied, LocalListed, LinksAt, StartList, AllToCome, Packets;
    var b := m.all.home;
    RelayBrings(m, b, u);
    StartListIs(m);
  }

  lemma {:induction false} StartListIs(m: ListMessage)
    requires OnTree(m.all.tree, m.all.users) && m.all.home < |m.all.tree|
    ensures StartList(m).delivered == LocalListed(m.all.home, m.all.users, m.all.origin, m.listed)
    ensures StartList(m).wire == Packets(m.all.home, LinksAt(m, m.all.home))
  {
    hide LocalListed, LinksAt;
  }

  /** A packet counts for the members beyond the server that accepts it. */
  lemma {:induction false} AcceptedOnTheWay(m: ListMessage, p: Packet, s: nat)
    requires OnTree(m.all.tree, m.all.users) && m.all.home < |m.all.tree| && s < |m.all.tree| && Accepted(m, p)
    ensures Covers(m.all.tree, p, s) <==> OnTheWay(m, p.to, s)
  {
    LinkSplits(m.all.tree, p.from, p.to, s);
    hide Hop;
  }

  lemma {:induction false} ArriveBalanced(m: ListMessage, r: Traffic, i: nat, u: User)
    requires WellPosed(m.all) && u in m.all.users && u.id != m.all.origin && u.id in m.listed
    requires i < |r.wire| && Balanced(m, r, u)
    ensures Balanced(m, ArriveList(m, r, i), u)
  {
    hide Covers, OnTheWay, Multiplied, LocalListed, LinksAt, Packets, AllToCome;
    var s, p := u.server, r.wire[i];
    var rest := r.wire[..i] + r.wire[i + 1..];
    ToComeWithout(m, r.wire, i, s);
    if Accepted(m, p) {
      AcceptedOnTheWay(m, p, s);
      hide Accepted;
      RelayBrings(m, p.to, u);
      var local, more := LocalListed(p.to, m.all.users, m.all.origin, m.listed), Packets(p.to, LinksAt(m, p.to));
      ToComeConcat(m, rest, more, s);
      MultisetOfConcat(r.delivered, local, u.id);
    }
  }

  lemma {:induction false} RunBalanced(m: ListMessage, arrivals: seq<nat>, u: User)
    requires WellPosed(m.all) && u in m.all.users && u.id != m.all.origin && u.id in m.listed
    ensures u.server < |m.all.tree| && Balanced(m, AfterList(m, arrivals), u)
    decreases |arrivals|
  {
    if arrivals == [] {
      StartBalanced(m, u);
    } else {
      var n := |arrivals| - 1;
      RunBalanced(m, arrivals[..n], u);
      var r := AfterList(m, arrivals[..n]);
      hide Balanced, ArriveList;
      if arrivals[n] < |r.wire| { ArriveBalanced(m, r, arrivals[n], u); }
    }
  }

  lemma {:induction false} OnlyListed(here: nat, users: seq<User>, origin: nat, listed: set<nat>, x: nat)
    requires x in LocalListed(here, users, origin, listed)
    ensures x != origin && x in listed
    decreases |users|
  {
    if x in LocalListed(here, users[1..], origin, listed) { OnlyListed(here, users[1..], origin, listed, x); }
  }

  lemma {:induction false} NobodyUnlisted(m: ListMessage, arrivals: seq<nat>, x: nat)
    requires WellPosed(m.all) && x in AfterList(m, arrivals).delivered
    ensures x != m.all.origin && x in m.listed
    decreases |arrivals|
  {
    hide LocalListed, LinksAt, Accepted;
    if arrivals == [] {
      OnlyListed(m.all.home, m.all.users, m.all.origin, m.listed, x);
    } else {
      var n := |arrivals| - 1;
      var r := AfterList(m, arrivals[..n]);
      if x in r.delivered {
        NobodyUnlisted(m, arrivals[..n], x);
      } else {
        OnlyListed(r.wire[arrivals[n]].to, m.all.users, m.all.origin, m.listed, x);
      }
    }
  }

  /** Once no packet is under way, each listed member but the sender has as many copies as the links on its way have
      been given in turn; nobody else has any. */
  lemma {:induction false} ListedCopies(m: ListMessage, arrivals: seq<nat>, u: User)
    requires WellPosed(m.all) && u in m.all.users && AfterList(m, arrivals).wire == []
    ensures u.server < |m.all.tree|
    ensures multiset(AfterList(m, arrivals).delivered)[u.id]
         == if u.id != m.all.origin && u.id in m.listed then Multiplied(m, m.all.home, u.server) else 0
  {
    if u.id != m.all.origin && u.id in m.listed {
      RunBalanced(m, arrivals, u);
    } else if u.id in AfterList(m, arrivals).delivered {
      NobodyUnlisted(m, arrivals, u.id);
    }
  }

  // ---------- Runs end ----------

  /** A bound for what comes of one packet, n links from the farthest server, if a relay sends at most k packets. */
  function Burden(k: nat, n: nat): (w: nat)
    ensures w >= 1
  {
    if n == 0 then 1 else 1 + Times(k, Burden(k, n - 1))
  }

  lemma {:induction false} DistBounded(t: Tree, a: nat, s: nat)
    requires a < |t| && s < |t|
    ensures Dist(t, a, s) <= a + s
    decreases a + s
  {
    if a > s { DistBounded(t, t[a], s); } else if a < s { DistBounded(t, a, t[s]); }
  }

  lemma {:induction false} LinksBounded(m: ListMessage, b: nat)
    requires OnTree(m.all.tree, m.all.users) && m.all.home < |m.all.tree| && b < |m.all.tree|
    ensures |LinksAt(m, b)| <= 2 * |m.all.users|
  {
    ListLinksBounded(m.all.tree, b, m.all.users, m.all.origin, m.listed);
    LinkCopiesBounded(m.all.tree, b, m.all.users, m.all.home, {});
    hide ListLinks, LinkCopies;
  }

  lemma {:induction false} ListLinksBounded(t: Tree, b: nat, users: seq<User>, origin: nat, listed: set<nat>)
    requires b < |t| && OnTree(t, users)
    ensures |ListLinks(t, b, users, origin, listed)| <= |users|
    decreases |users|
  {
    hide Hop;
    if users != [] { ListLinksBounded(t, b, users[1..], origin, listed); }
  }

  lemma {:induction false} LinkCopiesBounded(t: Tree, b: nat, users: seq<User>, from: nat, sent: set<nat>)
    requires b < |t| && from < |t| && OnTree(t, users)
    ensures |LinkCopies(t, b, users, from, sent)| <= |users|
    decreases |users|
  {
    hide Hop;
    if users != [] {
      var link := ParentOf(t, b, users[0].server);
      LinkCopiesBounded(t, b, users[1..], from, sent);
      if link.Some? { LinkCopiesBounded(t, b, users[1..], from, sent + {link.to}); }
    }
  }

  /** How far server b is from the farthest that could be. */
  function Room(m: ListMessage, b: nat): nat
    requires m.all.home < |m.all.tree| && b < |m.all.tree|
  {
    DistBounded(m.all.tree, b, m.all.home);
    2 * |m.all.tree| - Dist(m.all.tree, b, m.all.home)
  }

  function Weight(m: ListMessage, p: Packet): (w: nat)
    requires m.all.home < |m.all.tree|
    ensures w >= 1
  {
    if Accepted(m, p) then Burden(2 * |m.all.users|, Room(m, p.to)) else 1
  }

  function Load(m: ListMessage, wire: seq<Packet>): nat
    requires m.all.home < |m.all.tree|
  {
    if wire == [] then 0 else Weight(m, wire[0]) + Load(m, wire[1..])
  }

  lemma {:induction false} LoadConcat(m: ListMessage, a: seq<Packet>, b: seq<Packet>)
    requires m.all.home < |m.all.tree|
    ensures Load(m, a + b) == Load(m, a) + Load(m, b)
    decreases |a|
  {
    hide Weight;
    if a == [] {
      assert a + b == b;
    } else {
      assert (a + b)[1..] == a[1..] + b;
      LoadConcat(m, a[1..], b);
    }
  }

  lemma {:induction false} LoadWithout(m: ListMessage, wire: seq<Packet>, i: nat)
    requires m.all.home < |m.all.tree| && i < |wire|
    ensures Load(m, wire) == Load(m, wire[..i] + wire[i + 1..]) + Weight(m, wire[i])
  {
    hide Weight;
    assert wire == wire[..i] + ([wire[i]] + wire[i + 1..]);
    LoadConcat(m, wire[..i], [wire[i]] + wire[i + 1..]);
    LoadConcat(m, [wire[i]], wire[i + 1..]);
    LoadConcat(m, wire[..i], wire[i + 1..]);
    assert [wire[i]][1..] == [];
  }

  lemma {:induction false} NewWeight(m: ListMessage, b: nat, l: nat)
    requires m.all.home < |m.all.tree| && b < |m.all.tree| && Room(m, b) > 0
    ensures Weight(m, Packet(b, l)) <= Burden(2 * |m.all.users|, Room(m, b) - 1)
  {
    if Accepted(m, Packet(b, l)) { HopIsNearer(m.all.tree, l, m.all.home); }
    hide Hop, Dist, Burden;
  }

  lemma {:induction false} NewLoad(m: ListMessage, b: nat, links: seq<nat>, w: nat)
    requires m.all.home < |m.all.tree| && b < |m.all.tree|
    requires forall l :: Weight(m, Packet(b, l)) <= w
    ensures Load(m, Packets(b, links)) <= Times(|links|, w)
    decreases |links|
  {
    hide Weight;
    TimesMore(0, w);
    if links != [] {
      var ps := Packets(b, links);
      assert ps[0] == Packet(b, links[0]) && ps[1..] == Packets(b, links[1..]);
      NewLoad(m, b, links[1..], w);
      TimesMore(|links| - 1, w);
    }
  }

  lemma {:induction false} RoomLeft(m: ListMessage, b: nat)
    requires m.all.home < |m.all.tree| && b < |m.all.tree|
    ensures Room(m, b) > 0
  {
    DistBounded(m.all.tree, b, m.all.home);
    hide Dist;
  }

  lemma {:induction false} TimesOrder(a: nat, b: nat, c: nat)
    requires a <= b
    ensures Times(a, c) <= Times(b, c)
  {
    assert (b - a) * c >= 0;
  }

  /** What one relay sends weighs less than the packet that caused it. */
  lemma {:induction false} RelayIsLighter(m: ListMessage, b: nat)
    requires OnTree(m.all.tree, m.all.users) && m.all.home < |m.all.tree| && b < |m.all.tree|
    ensures Load(m, Packets(b, LinksAt(m, b))) < Burden(2 * |m.all.users|, Room(m, b))
  {
    RoomLeft(m, b);
    var k, n := 2 * |m.all.users|, Room(m, b);
    forall l ensures Weight(m, Packet(b, l)) <= Burden(k, n - 1) { NewWeight(m, b, l); }
    NewLoad(m, b, LinksAt(m, b), Burden(k, n - 1));
    LinksBounded(m, b);
    TimesOrder(|LinksAt(m, b)|, k, Burden(k, n - 1));
    hide Weight, Load, LinksAt, Room, Times;
  }

  /** How many packets arrived. */
  function ArrivedList(m: ListMessage, arrivals: seq<nat>): nat
    requires OnTree(m.all.tree, m.all.users) && m.all.home < |m.all.tree|
  {
    if arrivals == [] then 0
    else
      var n := |arrivals| - 1;
      ArrivedList(m, arrivals[..n]) + if arrivals[n] < |AfterList(m, arrivals[..n]).wire| then 1 else 0
  }

  lemma {:induction false} ArriveLightens(m: ListMessage, r: Traffic, i: nat)
    requires OnTree(m.all.tree, m.all.users) && m.all.home < |m.all.tree| && i < |r.wire|
    ensures Load(m, ArriveList(m, r, i).wire) < Load(m, r.wire)
  {
    LoadWithout(m, r.wire, i);
    var p := r.wire[i];
    if Accepted(m, p) {
      RelayIsLighter(m, p.to);
      LoadConcat(m, r.wire[..i] + r.wire[i + 1..], Packets(p.to, LinksAt(m, p.to)));
    }
    hide Load, Accepted, LinksAt, Packets, Burden, Room;
  }

  /** Every arrival makes what is under way lighter, so every run ends. */
  lemma {:induction false} ListRunsEnd(m: ListMessage, arrivals: seq<nat>)
    requires OnTree(m.all.tree, m.all.users) && m.all.home < |m.all.tree|
    ensures ArrivedList(m, arrivals) + Load(m, AfterList(m, arrivals).wire) <= Load(m, StartList(m).wire)
    decreases |arrivals|
  {
    if arrivals != [] {
      var n := |arrivals| - 1;
      ListRunsEnd(m, arrivals[..n]);
      var r := AfterList(m, arrivals[..n]);
      hide Load, ArriveList;
      if arrivals[n] < |r.wire| { ArriveLightens(m, r, arrivals[n]); }
    }
  }

  // ---------- How many that are ----------

  function Pow2(n: nat): nat {
    if n == 0 then 1 else 2 * Pow2(n - 1)
  }

  lemma {:induction false} BehindSome(t: Tree, here: nat, users: seq<User>, origin: nat, listed: set<nat>, u: User)
    requires here < |t| && OnTree(t, users) && u in users && u.id != origin && u.id in listed && here != u.server
    ensures ListedBehind(t, here, users, origin, listed, Hop(t, here, u.server)) >= 1
    decreases |users|
  {
    hide Hop;
    if u != users[0] {
      assert u in users[1..];
      BehindSome(t, here, users[1..], origin, listed, u);
    }
  }

  /** Ahead of a listed member every link carries two copies or more. */
  lemma {:induction false} TwoOrMore(m: ListMessage, b: nat, u: User)
    requires WellPosed(m.all) && b < |m.all.tree| && u in m.all.users && u.id != m.all.origin && u.id in m.listed
    requires b != u.server && OnTheWay(m, b, u.server)
    ensures Copies(m, b, Hop(m.all.tree, b, u.server)) >= 2
  {
    var t, l := m.all.tree, Hop(m.all.tree, b, u.server);
    BehindSome(t, b, m.all.users, m.all.origin, m.listed, u);
    ListMessageCopies(t, b, m.all.users, m.all.origin, m.all.home, m.listed, l);
    hide Hop, ListedBehind, ListLinks, LinkCopies;
    assert HasMember(t, b, m.all.users, l) by {
      var i :| 0 <= i < |m.all.users| && m.all.users[i] == u;
      assert Leads(t, b, l, m.all.users[i].server);
    }
  }

  lemma {:induction false} NextOnTheWay(m: ListMessage, b: nat, s: nat)
    requires OnTree(m.all.tree, m.all.users) && m.all.home < |m.all.tree| && b < |m.all.tree| && s < |m.all.tree|
    requires b != s && OnTheWay(m, b, s)
    ensures OnTheWay(m, Hop(m.all.tree, b, s), s)
  {
    var t, l := m.all.tree, Hop(m.all.tree, b, s);
    LinkSplits(t, b, l, m.all.home);
    LinkSplits(t, b, l, s);
    hide Hop;
  }

  lemma {:induction false} TimesGrows(a: nat, b: nat, c: nat)
    requires a >= 2 && b >= c
    ensures Times(a, b) >= 2 * c
  {
    assert a * b >= 2 * b by { assert (a - 2) * b >= 0; }
  }

  /** A listed member d servers away gets at least two to the power d copies: one only if it is on
      the sender's server. */
  lemma {:induction false} CopiesDouble(m: ListMessage, b: nat, u: User)
    requires WellPosed(m.all) && b < |m.all.tree| && u in m.all.users && u.id != m.all.origin && u.id in m.listed
    requires OnTheWay(m, b, u.server)
    ensures Multiplied(m, b, u.server) >= Pow2(Dist(m.all.tree, b, u.server))
    decreases Dist(m.all.tree, b, u.server)
  {
    hide Hop, Dist, Copies, OnTheWay, Times, Multiplied, Pow2;
    var s := u.server;
    if b == s {
      AtTheEnd(m, s);
    } else {
      var l := Nearer(m.all.tree, b, s);
      TwoOrMore(m, b, u);
      NextOnTheWay(m, b, s);
      CopiesDouble(m, l, u);
      TimesGrows(Copies(m, b, l), Multiplied(m, l, s), Pow2(Dist(m.all.tree, l, s)));
      OneLinkMore(m, b, s);
    }
  }

  lemma {:induction false} AtTheEnd(m: ListMessage, s: nat)
    requires OnTree(m.all.tree, m.all.users) && m.all.home < |m.all.tree| && s < |m.all.tree|
    ensures Multiplied(m, s, s) == 1 && Pow2(Dist(m.all.tree, s, s)) == 1
  {
  }

  lemma {:induction false} OneLinkMore(m: ListMessage, b: nat, s: nat)
    requires OnTree(m.all.tree, m.all.users) && m.all.home < |m.all.tree| && b < |m.all.tree|
    requires s < |m.all.tree| && b != s
    ensures var l := Hop(m.all.tree, b, s);
      && Multiplied(m, b, s) == Times(Copies(m, b, l), Multiplied(m, l, s))
      && Pow2(Dist(m.all.tree, b, s)) == 2 * Pow2(Dist(m.all.tree, l, s))
  {
    hide Hop, Dist, Copies, Times, Multiplied, Pow2;
    HopIsNearer(m.all.tree, b, s);
    Doubled(Dist(m.all.tree, Hop(m.all.tree, b, s), s));
    MultipliedStep(m, b, s);
  }

  lemma {:induction false} MultipliedStep(m: ListMessage, b: nat, s: nat)
    requires OnTree(m.all.tree, m.all.users) && m.all.home < |m.all.tree| && b < |m.all.tree|
    requires s < |m.all.tree| && b != s
    ensures var l := Hop(m.all.tree, b, s);
      Multiplied(m, b, s) == Times(Copies(m, b, l), Multiplied(m, l, s))
  {
    hide Hop, Dist, Copies, Times, OnTree;
  }

  lemma {:induction false} Doubled(n: nat)
    ensures Pow2(n + 1) == 2 * Pow2(n)
  {
  }

  /** An operator on the server next to the sender's gets two copies. */
  lemma {:induction false} OperatorExample(arrivals: seq<nat>)
    requires AfterList(Operator(), arrivals).wire == []
    ensures multiset(AfterList(Operator(), arrivals).delivered)[2] == 2
  {
    hide AfterList, Multiplied, Hop, Copies, WellPosed;
    var m := Operator();
    var u := User(2, 1);
    assert m.all.users[1] == u;
    OperatorCopies();
    ListedCopies(m, arrivals, u);
    OneLinkMore(m, 0, 1);
    AtTheEnd(m, 1);
    assert Times(2, 1) == 2;
  }

  function Operator(): ListMessage {
    ListMessage(Message([0, 0], [User(1, 0), User(2, 1)], 1, 0), {2})
  }

  lemma {:induction false} OperatorCopies()
    ensures WellPosed(Operator().all) && Hop(Operator().all.tree, 0, 1) == 1 && Copies(Operator(), 0, 1) == 2
  {
    var m := Operator();
    var t, users := m.all.tree, m.all.users;
    assert users[1..] == [User(2, 1)] && users[1..][1..] == [];
    assert Above(t, 0, 1) && Hop(t, 0, 1) == 1;
    hide Hop;
    assert ListLinks(t, 0, users, 1, {2}) == [] + ([1] + []);
    assert LinkCopies(t, 0, users, 0, {}) == [1];
    hide ListLinks, LinkCopies;
    assert LinksAt(m, 0) == [1, 1];
  }
}
