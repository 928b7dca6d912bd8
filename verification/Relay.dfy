/** What one server sends on of a channel message. */
module Relay {
  import opened Network

  datatype User = User(id: nat, server: nat)

  predicate OnTree(t: Tree, users: seq<User>) {
    forall i :: 0 <= i < |users| ==> users[i].server < |t|
  }

  predicate DistinctIds(users: seq<User>) {
    forall i, j :: 0 <= i < j < |users| ==> users[i].id != users[j].id
  }

  // ---------- One server ----------

  /** The local members that get a copy of a message from `origin`. */
  function LocalCopies(here: nat, users: seq<User>, origin: nat): seq<nat> {
    if users == [] then []
    else
      (if users[0].id != origin && users[0].server == here then [users[0].id] else [])
      + LocalCopies(here, users[1..], origin)
  }

  /** The link of server `here` toward server s; None for its own users, whose `parent` is 0. */
  datatype Link = None | Some(to: nat)

  function ParentOf(t: Tree, here: nat, s: nat): Link
    requires here < |t| && s < |t|
  {
    if s == here then None else Some(Hop(t, here, s))
  }

  /** The links that get a copy, with those in `sent` already served. */
  function LinkCopies(t: Tree, here: nat, users: seq<User>, from: nat, sent: set<nat>): seq<nat>
    requires here < |t| && from < |t| && OnTree(t, users)
  {
    if users == [] then []
    else
      var link := ParentOf(t, here, users[0].server);
      if link.Some? && link != ParentOf(t, here, from) && link.to !in sent then
        [link.to] + LinkCopies(t, here, users[1..], from, sent + {link.to})
      else LinkCopies(t, here, users[1..], from, sent)
  }

  lemma {:induction false} LocalStep(here: nat, users: seq<User>, i: nat, origin: nat, copies: seq<nat>)
    requires i < |users|
    ensures copies + LocalCopies(here, users[i..], origin)
         == (if users[i].id != origin && users[i].server == here then copies + [users[i].id] else copies)
           + LocalCopies(here, users[i + 1..], origin)
  {
    assert users[i..][1..] == users[i + 1..];
  }

  /** `bcast_to_channel` without bounce. */
  method BcastToChannel(here: nat, users: seq<User>, origin: nat) returns (copies: seq<nat>)
    ensures copies == LocalCopies(here, users, origin)
  {
    copies := [];
    var i := 0;
    assert users[0..] == users;
    while i < |users|
      invariant 0 <= i <= |users|
      invariant copies + LocalCopies(here, users[i..], origin) == LocalCopies(here, users, origin)
    {
      LocalStep(here, users, i, origin, copies);
      if users[i].id != origin && users[i].server == here {
        copies := copies + [users[i].id];
      }
      i := i + 1;
    }
  }

  /** `bcast_to_channel_servers`. */
  method BcastToChannelServers(t: Tree, here: nat, users: seq<User>, from: nat) returns (links: seq<nat>)
    requires here < |t| && from < |t| && OnTree(t, users)
    ensures links == LinkCopies(t, here, users, from, {})
  {
    links := [];
    var sent := {};
    var i := 0;
    assert users[0..] == users;
    while i < |users|
      invariant 0 <= i <= |users|
      invariant links + LinkCopies(t, here, users[i..], from, sent) == LinkCopies(t, here, users, from, {})
    {
      assert users[i..][1..] == users[i + 1..];
      var link := ParentOf(t, here, users[i].server);
      if link.Some? && link != ParentOf(t, here, from) && link.to !in sent {
        links := links + [link.to];
        sent := sent + {link.to};
      }
      i := i + 1;
    }
  }

  ghost predicate NoDuplicates(s: seq<nat>) {
    forall i, j :: 0 <= i < j < |s| ==> s[i] != s[j]
  }

  /** Some member is reached over link l of server `here`. */
  ghost predicate HasMember(t: Tree, here: nat, users: seq<User>, l: nat)
    requires here < |t| && OnTree(t, users)
  {
    exists i :: 0 <= i < |users| && Leads(t, here, l, users[i].server)
  }

  /** A link gets one copy exactly when a member is reached over it and the message did not come from there. */
  lemma {:induction false} LinksServed(t: Tree, here: nat, users: seq<User>, from: nat, sent: set<nat>)
    requires here < |t| && from < |t| && OnTree(t, users)
    ensures var links := LinkCopies(t, here, users, from, sent);
      && NoDuplicates(links)
      && forall l :: l in links <==> l !in sent && HasMember(t, here, users, l) && !Leads(t, here, l, from)
    decreases |users|
  {
    hide Hop;
    if users != [] {
      var link := ParentOf(t, here, users[0].server);
      var takes := link.Some? && link != ParentOf(t, here, from) && link.to !in sent;
      var sent' := if takes then sent + {link.to} else sent;
      LinksServed(t, here, users[1..], from, sent');
      forall l ensures HasMember(t, here, users, l)
         <==> Leads(t, here, l, users[0].server) || HasMember(t, here, users[1..], l) {
      }
      hide HasMember;
      var links, rest := LinkCopies(t, here, users, from, sent), LinkCopies(t, here, users[1..], from, sent');
      if takes { assert links == [link.to] + rest; } else { assert links == rest; }
    }
  }

  /** Each local member but the origin gets one copy, and nobody else does. */
  lemma {:induction false} LocalsServed(here: nat, users: seq<User>, origin: nat, u: User)
    requires DistinctIds(users) && u in users
    ensures multiset(LocalCopies(here, users, origin))[u.id] == if u.id != origin && u.server == here then 1 else 0
    decreases |users|
  {
    var rest := LocalCopies(here, users[1..], origin);
    var first := if users[0].id != origin && users[0].server == here then [users[0].id] else [];
    assert multiset(first + rest) == multiset(first) + multiset(rest);
    if u == users[0] {
      OthersUnserved(here, users[1..], origin, u.id);
    } else {
      assert u in users[1..];
      LocalsServed(here, users[1..], origin, u);
    }
  }

  lemma {:induction false} OthersUnserved(here: nat, users: seq<User>, origin: nat, id: nat)
    requires forall i :: 0 <= i < |users| ==> users[i].id != id || id == origin
    ensures multiset(LocalCopies(here, users, origin))[id] == 0
    decreases |users|
  {
    if users != [] {
      var rest := LocalCopies(here, users[1..], origin);
      var first := if users[0].id != origin && users[0].server == here then [users[0].id] else [];
      assert multiset(first + rest) == multiset(first) + multiset(rest);
      OthersUnserved(here, users[1..], origin, id);
    }
  }

  // ---------- Messages to the operators or voiced members of a channel ----------

  /** The links on which `bcast_to_list` puts copies: one for each listed remote member but the origin. */
  function ListLinks(t: Tree, here: nat, users: seq<User>, origin: nat, listed: set<nat>): seq<nat>
    requires here < |t| && OnTree(t, users)
  {
    if users == [] then []
    else
      var u := users[0];
      (if u.id != origin && u.id in listed && u.server != here then [Hop(t, here, u.server)] else [])
      + ListLinks(t, here, users[1..], origin, listed)
  }

  /** The listed members but the origin that are reached over link l. */
  function ListedBehind(t: Tree, here: nat, users: seq<User>, origin: nat, listed: set<nat>, l: nat): nat
    requires here < |t| && OnTree(t, users)
  {
    if users == [] then 0
    else
      (if users[0].id != origin && users[0].id in listed && Leads(t, here, l, users[0].server) then 1 else 0)
      + ListedBehind(t, here, users[1..], origin, listed, l)
  }

  lemma {:induction false} CountListLinks(t: Tree, here: nat, users: seq<User>, origin: nat, listed: set<nat>, l: nat)
    requires here < |t| && OnTree(t, users)
    ensures multiset(ListLinks(t, here, users, origin, listed))[l] == ListedBehind(t, here, users, origin, listed, l)
    decreases |users|
  {
    hide Hop;
    if users != [] {
      var u := users[0];
      var rest := ListLinks(t, here, users[1..], origin, listed);
      var first := if u.id != origin && u.id in listed && u.server != here then [Hop(t, here, u.server)] else [];
      assert multiset(first + rest) == multiset(first) + multiset(rest);
      CountListLinks(t, here, users[1..], origin, listed, l);
    }
  }

  /** Such a message goes over a link once for every listed member behind it, even the link it came
      from, and once more if any member is behind it and it did not come from there. So the link gets
      one copy, as for a message to all, exactly when no listed member is behind it. */
  lemma {:induction false} ListMessageCopies(
    t: Tree, here: nat, users: seq<User>, origin: nat, from: nat, listed: set<nat>, l: nat)
    requires here < |t| && from < |t| && OnTree(t, users)
    ensures var all := LinkCopies(t, here, users, from, {});
      var copies := multiset(ListLinks(t, here, users, origin, listed) + all)[l];
      var behind := ListedBehind(t, here, users, origin, listed, l);
      && copies == behind + (if HasMember(t, here, users, l) && !Leads(t, here, l, from) then 1 else 0)
      && (copies == multiset(all)[l] <==> behind == 0)
  {
    var list, all := ListLinks(t, here, users, origin, listed), LinkCopies(t, here, users, from, {});
    CountListLinks(t, here, users, origin, listed, l);
    LinksServed(t, here, users, from, {});
    hide HasMember, LinkCopies, ListLinks, ListedBehind, Leads, Hop;
    assert multiset(list + all) == multiset(list) + multiset(all);
    CountDistinct(all, l);
  }

  lemma {:induction false} CountDistinct(s: seq<nat>, x: nat)
    requires NoDuplicates(s)
    ensures multiset(s)[x] == if x in s then 1 else 0
    decreases |s|
  {
    if s != [] {
      CountDistinct(s[1..], x);
      assert multiset([s[0]] + s[1..]) == multiset([s[0]]) + multiset(s[1..]) && s == [s[0]] + s[1..];
      if x == s[0] { assert x !in s[1..]; }
    }
  }
}
