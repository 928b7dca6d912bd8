/** A tree of IRC servers, and its links. */
module Network {

  /** Any finite tree: its servers can be numbered so that every server but 0 has a link to one of
      smaller number. */
  type Tree = up: seq<nat> | |up| > 0 && forall i :: 0 < i < |up| ==> up[i] < i witness [0]

  predicate Adjacent(t: Tree, a: nat, b: nat) {
    a < |t| && b < |t| && ((a > 0 && t[a] == b) || (b > 0 && t[b] == a))
  }

  /** a lies on the way from s to server 0. */
  predicate Above(t: Tree, a: nat, s: nat)
    requires s < |t|
    decreases s
  {
    a == s || (s > 0 && Above(t, a, t[s]))
  }

  /** The neighbour of a below which s lies. */
  function Toward(t: Tree, a: nat, s: nat): (c: nat)
    requires s < |t| && a != s && Above(t, a, s)
    ensures 0 < c <= s && t[c] == a && Above(t, c, s)
    decreases s
  {
    if t[s] == a then s else Toward(t, a, t[s])
  }

  /** The link of server a on which server s is reached: `parent` of a remote user. */
  function Hop(t: Tree, a: nat, s: nat): (b: nat)
    requires a < |t| && s < |t| && a != s
    ensures Adjacent(t, a, b)
  {
    if Above(t, a, s) then Toward(t, a, s)
    else
      NotRoot(t, a, s);
      t[a]
  }

  lemma {:induction false} RootAbove(t: Tree, s: nat)
    requires s < |t|
    ensures Above(t, 0, s)
    decreases s
  {
    if s > 0 { RootAbove(t, t[s]); }
  }

  lemma {:induction false} NotRoot(t: Tree, a: nat, s: nat)
    requires s < |t| && !Above(t, a, s)
    ensures a > 0
  {
    RootAbove(t, s);
  }

  lemma {:induction false} AboveIsSmaller(t: Tree, a: nat, s: nat)
    requires s < |t| && Above(t, a, s)
    ensures a <= s
    decreases s
  {
    if a != s { AboveIsSmaller(t, a, t[s]); }
  }

  lemma {:induction false} AboveParent(t: Tree, a: nat, s: nat)
    requires s < |t| && 0 < a < |t| && Above(t, a, s)
    ensures Above(t, t[a], s)
    decreases s
  {
    if a != s { AboveParent(t, a, t[s]); }
  }

  /** Two servers above s with the same server above them are the same. */
  lemma {:induction false} OneWayDown(t: Tree, b: nat, c: nat, s: nat)
    requires s < |t| && 0 < b < |t| && 0 < c < |t| && t[b] == t[c] && Above(t, b, s) && Above(t, c, s)
    ensures b == c
    decreases s
  {
    AboveIsSmaller(t, b, s);
    AboveIsSmaller(t, c, s);
    if b != s && c != s {
      OneWayDown(t, b, c, t[s]);
    } else if b == s && c != s {
      AboveIsSmaller(t, c, t[s]);
    } else if c == s && b != s {
      AboveIsSmaller(t, b, t[s]);
    }
  }

  predicate Leads(t: Tree, a: nat, b: nat, s: nat)
    requires a < |t| && s < |t|
  {
    a != s && Hop(t, a, s) == b
  }

  /** Each link splits the servers in two: those beyond its one end, and those beyond its other end. */
  lemma {:induction false} LinkSplits(t: Tree, a: nat, b: nat, s: nat)
    requires Adjacent(t, a, b) && s < |t|
    ensures Leads(t, a, b, s) <==> !Leads(t, b, a, s)
  {
    if b > 0 && t[b] == a { LinkSplitsDown(t, a, b, s); } else { LinkSplitsDown(t, b, a, s); }
  }

  lemma {:induction false} LinkSplitsDown(t: Tree, a: nat, b: nat, s: nat)
    requires 0 < b < |t| && t[b] == a && s < |t|
    ensures Leads(t, a, b, s) <==> Above(t, b, s)
    ensures Leads(t, b, a, s) <==> !Above(t, b, s)
  {
    if Above(t, b, s) {
      AboveParent(t, b, s);
      AboveIsSmaller(t, b, s);
      OneWayDown(t, b, Toward(t, a, s), s);
      if b != s { assert Hop(t, b, s) == Toward(t, b, s) > b; }
    } else if a != s {
      if Above(t, a, s) {
        assert Hop(t, a, s) == Toward(t, a, s) != b;
      } else {
        NotRoot(t, a, s);
        assert Hop(t, a, s) == t[a] < b;
      }
    }
  }
}
