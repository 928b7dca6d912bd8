/** User modes of the IRC daemon, and how servers follow them. */
module UserModes {
  import opened Options

  /** The mode letters, in the order they are reported. Every letter has a bit of its own, so a bit
      mask is a set of letters. */
  const ORDER := "oiwbgscrkfydnhFA"

  const BROADCAST := {'o', 'i', 'h', 'A'}

  /** What a client may do: is it an operator, what its operator line allows, and is it on another
      server, reached over a hub. */
  datatype Rights = Rights(oper: bool, umodeC: bool, admin: bool, remote: bool, hub: bool)

  predicate Accepts(r: Rights, f: char, add: bool) {
    if f in "iwskg" then true
    else if f in "brfydn" then r.oper
    else if f == 'o' then !add || (r.remote && r.hub)
    else if f == 'c' then r.oper && r.umodeC
    else f == 'A' && ((r.oper && r.admin) || (r.remote && r.hub))
  }

  predicate Understood(f: char) {
    f in "+-iwskgbrfydnocA"
  }

  // ---------- What a mode string asks for ----------

  /** The sign in force at index i: the last one before it. */
  function SignAt(s: string, i: nat): bool
    requires i <= |s|
  {
    if i == 0 then true
    else if s[i - 1] == '+' then true
    else if s[i - 1] == '-' then false
    else SignAt(s, i - 1)
  }

  predicate Asks(r: Rights, s: string, i: nat, f: char, add: bool) {
    i < |s| && s[i] == f && SignAt(s, i) == add && Accepts(r, f, add)
  }

  /** The last accepted occurrence of f before index k has this sign. */
  predicate LastAsk(r: Rights, s: string, k: nat, f: char, add: bool) {
    exists i :: 0 <= i < k && Asks(r, s, i, f, add) && NoneBetween(r, s, i, k, f)
  }

  predicate NoneBetween(r: Rights, s: string, i: nat, k: nat, f: char) {
    forall j :: i < j < k ==> !Asks(r, s, j, f, true) && !Asks(r, s, j, f, false)
  }

  lemma {:induction false} OneSign(r: Rights, s: string, k: nat, f: char)
    ensures !(LastAsk(r, s, k, f, true) && LastAsk(r, s, k, f, false))
  {
    if LastAsk(r, s, k, f, true) && LastAsk(r, s, k, f, false) {
      var i :| 0 <= i < k && Asks(r, s, i, f, true) && NoneBetween(r, s, i, k, f);
      var j :| 0 <= j < k && Asks(r, s, j, f, false) && NoneBetween(r, s, j, k, f);
      assert false;
    }
  }

  lemma {:induction false} LastAskNext(r: Rights, s: string, k: nat, f: char, add: bool)
    requires k < |s|
    ensures LastAsk(r, s, k + 1, f, add)
       <==> Asks(r, s, k, f, add) || (!Asks(r, s, k, f, !add) && LastAsk(r, s, k, f, add))
  {
    if Asks(r, s, k, f, add) { assert NoneBetween(r, s, k, k + 1, f); }
    if !Asks(r, s, k, f, !add) && LastAsk(r, s, k, f, add) {
      var i :| 0 <= i < k && Asks(r, s, i, f, add) && NoneBetween(r, s, i, k, f);
      assert !Asks(r, s, k, f, add) ==> NoneBetween(r, s, i, k + 1, f);
    }
    if LastAsk(r, s, k + 1, f, add) && !Asks(r, s, k, f, add) {
      var i :| 0 <= i < k + 1 && Asks(r, s, i, f, add) && NoneBetween(r, s, i, k + 1, f);
      assert NoneBetween(r, s, i, k, f);
    }
  }

  /** The letters asked for with a sign. */
  function Asked(r: Rights, s: string, add: bool): set<char> {
    set f | f in ORDER && LastAsk(r, s, |s|, f, add)
  }

  // ---------- Who may change which flag ----------

  /** No sign from i on, and ahead of j. */
  predicate Unsigned(s: string, i: nat, j: nat)
    requires j <= |s|
  {
    forall k :: i <= k < j ==> s[k] != '+' && s[k] != '-'
  }

  /** The sign in force at index i, told by the signs themselves; a string begins with "+" in force. */
  ghost predicate Sign(s: string, i: nat, add: bool)
    requires i <= |s|
  {
    (add && Unsigned(s, 0, i)) || exists j: nat :: j < i && s[j] == (if add then '+' else '-') && Unsigned(s, j + 1, i)
  }

  lemma {:induction false} SignMeaning(s: string, i: nat, add: bool)
    requires i <= |s|
    ensures Sign(s, i, add) <==> SignAt(s, i) == add
  {
    if i > 0 {
      if s[i - 1] == '+' || s[i - 1] == '-' {
        SignHere(s, i, add);
      } else {
        SignMeaning(s, i - 1, add);
        SignKept(s, i, add);
        hide Sign;
      }
    }
  }

  lemma {:induction false} SignHere(s: string, i: nat, add: bool)
    requires 0 < i <= |s| && (s[i - 1] == '+' || s[i - 1] == '-')
    ensures Sign(s, i, add) <==> s[i - 1] == if add then '+' else '-'
  {
    assert Unsigned(s, i - 1 + 1, i);
  }

  lemma {:induction false} SignKept(s: string, i: nat, add: bool)
    requires 0 < i <= |s| && s[i - 1] != '+' && s[i - 1] != '-'
    ensures Sign(s, i, add) <==> Sign(s, i - 1, add)
  {
    forall j: nat | j < i ensures Unsigned(s, j, i) <==> Unsigned(s, j, i - 1) { UnsignedMore(s, j, i); }
    hide Unsigned;
    if Sign(s, i, add) && !(add && Unsigned(s, 0, i)) {
      var j: nat :| j < i && s[j] == (if add then '+' else '-') && Unsigned(s, j + 1, i);
      assert j < i - 1;
    }
    if Sign(s, i - 1, add) && !(add && Unsigned(s, 0, i - 1)) {
      var j: nat :| j < i - 1 && s[j] == (if add then '+' else '-') && Unsigned(s, j + 1, i - 1);
      assert Unsigned(s, j + 1, i);
    }
  }

  lemma {:induction false} UnsignedMore(s: string, j: nat, i: nat)
    requires j < i <= |s| && s[i - 1] != '+' && s[i - 1] != '-'
    ensures Unsigned(s, j, i) <==> Unsigned(s, j, i - 1)
  {
  }

  /** The last time that the string names f, it has this sign. */
  ghost predicate LastNamed(s: string, f: char, add: bool) {
    exists i :: 0 <= i < |s| && s[i] == f && Sign(s, i, add) && forall j :: i < j < |s| ==> s[j] != f
  }

  /** The string somewhere takes f away. */
  ghost predicate TakesAway(s: string, f: char) {
    exists i :: 0 <= i < |s| && s[i] == f && Sign(s, i, false)
  }

  /** Whether f is set afterwards: five flags are anybody's, six an operator's, 'c' an operator's whose operator line
      allows it, and 'A' an administrator's, or anybody's behind a hub. Behind a hub 'o' is anybody's too; elsewhere it
      can only be given up. No other flag ever changes. */
  ghost predicate SetAfterwards(r: Rights, s: string, mode: set<char>, f: char) {
    if || f in {'i', 'w', 's', 'k', 'g'}
       || (f in {'b', 'r', 'f', 'y', 'd', 'n'} && r.oper)
       || (f == 'c' && r.oper && r.umodeC)
       || (f == 'A' && ((r.oper && r.admin) || (r.remote && r.hub)))
       || (f == 'o' && r.remote && r.hub)
    then LastNamed(s, f, true) || (f in mode && !LastNamed(s, f, false))
    else if f == 'o' then f in mode && !TakesAway(s, f)
    else f in mode
  }

  /** A flag that may be set and cleared goes by the last time that it is named. */
  lemma {:induction false} FreeAsk(r: Rights, s: string, f: char, add: bool)
    requires Accepts(r, f, true) && Accepts(r, f, false)
    ensures LastAsk(r, s, |s|, f, add) <==> LastNamed(s, f, add)
  {
    hide Accepts, Sign, SignAt;
    forall i: nat | i < |s| ensures Sign(s, i, add) <==> SignAt(s, i) == add { SignMeaning(s, i, add); }
    if LastAsk(r, s, |s|, f, add) {
      var i :| 0 <= i < |s| && Asks(r, s, i, f, add) && NoneBetween(r, s, i, |s|, f);
      forall j | i < j < |s| ensures s[j] != f {
        assert !Asks(r, s, j, f, true) && !Asks(r, s, j, f, false);
      }
    }
    if LastNamed(s, f, add) {
      var i :| 0 <= i < |s| && s[i] == f && Sign(s, i, add) && forall j :: i < j < |s| ==> s[j] != f;
      assert Asks(r, s, i, f, add) && NoneBetween(r, s, i, |s|, f);
    }
  }

  /** A flag that may only be cleared is cleared if that is asked for anywhere. */
  lemma {:induction false} ClearedAsk(r: Rights, s: string, f: char)
    requires !Accepts(r, f, true) && Accepts(r, f, false)
    ensures !LastAsk(r, s, |s|, f, true) && (LastAsk(r, s, |s|, f, false) <==> TakesAway(s, f))
  {
    hide Accepts, Sign, SignAt;
    forall i: nat | i < |s| ensures Sign(s, i, false) <==> !SignAt(s, i) { SignMeaning(s, i, false); }
    if TakesAway(s, f) {
      var i :| 0 <= i < |s| && s[i] == f && Sign(s, i, false);
      LastOfThem(r, s, f, i, |s|);
    }
  }

  lemma {:induction false} LastOfThem(r: Rights, s: string, f: char, i: nat, k: nat)
    requires !Accepts(r, f, true) && i < k <= |s| && Asks(r, s, i, f, false)
    ensures LastAsk(r, s, k, f, false)
    decreases k
  {
    hide Accepts, SignAt, LastAsk;
    if i < k - 1 { LastOfThem(r, s, f, i, k - 1); }
    LastAskNext(r, s, k - 1, f, false);
  }

  /** Which flags are set after a mode string, by the letters, the signs and the client's standing alone. */
  lemma {:induction false} WhoMayChange(r: Rights, s: string, mode: set<char>, f: char)
    ensures f in ModeAfter(r, s, mode) <==> SetAfterwards(r, s, mode, f)
  {
    AskedIs(r, s, f);
    OneSign(r, s, |s|, f);
    AcceptsWhom(r, f);
    if Accepts(r, f, true) {
      FreeAsk(r, s, f, true);
      FreeAsk(r, s, f, false);
    } else if Accepts(r, f, false) {
      ClearedAsk(r, s, f);
    } else {
      NeverAsked(r, s, f);
    }
    hide LastAsk, Accepts, LastNamed, TakesAway, Asked;
  }

  lemma {:induction false} NeverAsked(r: Rights, s: string, f: char)
    requires !Accepts(r, f, true) && !Accepts(r, f, false)
    ensures !LastAsk(r, s, |s|, f, true) && !LastAsk(r, s, |s|, f, false)
  {
    hide Accepts, SignAt;
  }

  lemma {:induction false} AcceptsWhom(r: Rights, f: char)
    ensures Accepts(r, f, true)
       <==> || f in {'i', 'w', 's', 'k', 'g'}
            || (f in {'b', 'r', 'f', 'y', 'd', 'n'} && r.oper)
            || (f == 'c' && r.oper && r.umodeC)
            || (f == 'A' && ((r.oper && r.admin) || (r.remote && r.hub)))
            || (f == 'o' && r.remote && r.hub)
    ensures Accepts(r, f, false) <==> Accepts(r, f, true) || f == 'o'
  {
  }

  lemma {:induction false} AskedIs(r: Rights, s: string, f: char)
    ensures f in Asked(r, s, true) <==> LastAsk(r, s, |s|, f, true)
    ensures f in Asked(r, s, false) <==> LastAsk(r, s, |s|, f, false)
  {
    if LastAsk(r, s, |s|, f, true) || LastAsk(r, s, |s|, f, false) {
      assert Accepts(r, f, true) || Accepts(r, f, false);
      AcceptedLetters(r, f);
    }
  }

  lemma {:induction false} AcceptedLetters(r: Rights, f: char)
    requires Accepts(r, f, true) || Accepts(r, f, false)
    ensures f in ORDER
  {
  }

  // ---------- Reports ----------

  /** The letters in s, in the given order. */
  function Picked(letters: string, s: set<char>): string {
    if letters == "" then ""
    else Picked(letters[..|letters| - 1], s) + if letters[|letters| - 1] in s then [letters[|letters| - 1]] else ""
  }

  function Signed(sign: string, letters: string): string {
    if letters == "" then "" else sign + letters
  }

  function Report(on: set<char>, off: set<char>): string {
    Signed("+", Picked(ORDER, on)) + Signed("-", Picked(ORDER, off))
  }

  /** A plain reading of a mode string, by someone who lets anything pass. */
  function Replay(s: string, add: bool, mode: set<char>): set<char> {
    if s == "" then mode
    else if s[0] == '+' then Replay(s[1..], true, mode)
    else if s[0] == '-' then Replay(s[1..], false, mode)
    else Replay(s[1..], add, if add then mode + {s[0]} else mode - {s[0]})
  }

  function Letters(s: string): set<char> {
    set c | c in s
  }

  predicate NoSigns(s: string) {
    '+' !in s && '-' !in s
  }

  lemma {:induction false} ReplayLetters(p: string, rest: string, add: bool, mode: set<char>)
    requires NoSigns(p)
    ensures Replay(p + rest, add, mode) == Replay(rest, add, if add then mode + Letters(p) else mode - Letters(p))
  {
    if p == "" {
      assert p + rest == rest && Letters(p) == {};
      assert mode + {} == mode && mode - {} == mode;
    } else {
      assert (p + rest)[1..] == p[1..] + rest;
      assert Letters(p) == {p[0]} + Letters(p[1..]) by { assert p == [p[0]] + p[1..]; }
      var next := if add then mode + {p[0]} else mode - {p[0]};
      assert (p + rest)[0] == p[0] && p[0] in p;
      ReplayLetters(p[1..], rest, add, next);
      assert next + Letters(p[1..]) == mode + Letters(p) || !add;
      assert next - Letters(p[1..]) == mode - Letters(p) || add;
    }
  }

  lemma {:induction false} PickedMeaning(letters: string, s: set<char>)
    ensures Letters(Picked(letters, s)) == Letters(letters) * s
  {
    if letters == "" {
      assert Letters(letters) * s == {} == Letters("");
    } else {
      var n := |letters| - 1;
      PickedMeaning(letters[..n], s);
      assert letters == letters[..n] + [letters[n]];
      LettersConcat(letters[..n], [letters[n]]);
      LettersConcat(Picked(letters[..n], s), if letters[n] in s then [letters[n]] else "");
      assert Letters([letters[n]]) == {letters[n]} && Letters("") == {};
    }
  }

  lemma {:induction false} LettersConcat(a: string, b: string)
    ensures Letters(a + b) == Letters(a) + Letters(b)
  {
  }

  lemma {:induction false} PickedOrder(s: set<char>)
    requires s <= Letters(ORDER)
    ensures Letters(Picked(ORDER, s)) == s && NoSigns(Picked(ORDER, s)) && (Picked(ORDER, s) == "" <==> s == {})
  {
    PickedMeaning(ORDER, s);
    assert Letters(ORDER) * s == s;
    var p := Picked(ORDER, s);
    assert '+' !in ORDER && '-' !in ORDER;
    assert forall c :: c in p <==> c in Letters(p);
    assert forall c :: c in ORDER <==> c in Letters(ORDER);
    if p != "" { assert p[0] in s; }
    if s != {} { var c :| c in s; assert c in p; }
  }

  lemma {:induction false} ReplaySigned(sign: string, p: string, rest: string, add: bool, mode: set<char>)
    requires NoSigns(p) && (sign == "+" || sign == "-")
    ensures p != "" ==>
      Replay(Signed(sign, p) + rest, add, mode)
           == Replay(rest, sign == "+", if sign == "+" then mode + Letters(p) else mode - Letters(p))
    ensures p == "" ==> Signed(sign, p) + rest == rest
  {
    if p != "" {
      assert Signed(sign, p) + rest == sign + (p + rest);
      assert (sign + (p + rest))[1..] == p + rest;
      ReplayLetters(p, rest, sign == "+", mode);
    }
  }

  /** Reading the report on any mode makes just the change it reports. */
  lemma {:induction false} ReportReplays(on: set<char>, off: set<char>, mode: set<char>)
    requires on <= Letters(ORDER) && off <= Letters(ORDER)
    ensures Replay(Report(on, off), true, mode) == mode + on - off
  {
    PickedOrder(on);
    PickedOrder(off);
    var p, q := Picked(ORDER, on), Picked(ORDER, off);
    ReplaySigned("+", p, Signed("-", q), true, mode);
    ReplaySigned("-", q, "", true, mode + on);
    assert Signed("-", q) + "" == Signed("-", q);
    if p == "" { assert mode + on == mode; }
    if q == "" { assert mode + on - off == mode + on; }
  }

  // ---------- The operation ----------

  /** The flags a mode string sets and clears. */
  class Request {
    var add_flags: set<char>
    var del_flags: set<char>

    constructor ()
      ensures add_flags == {} && del_flags == {}
    {
      add_flags, del_flags := {}, {};
    }

    method TweakMode(f: char, add: bool)
      modifies this
      ensures add_flags == if add then old(add_flags) + {f} else old(add_flags) - {f}
      ensures del_flags == if add then old(del_flags) - {f} else old(del_flags) + {f}
    {
      if add {
        add_flags := add_flags + {f};
        del_flags := del_flags - {f};
      } else {
        add_flags := add_flags - {f};
        del_flags := del_flags + {f};
      }
    }
  }

  /** What a mode string switches on and off for a client in some mode. */
  function SwitchedOn(r: Rights, s: string, mode: set<char>): set<char> { Asked(r, s, true) - mode }
  function SwitchedOff(r: Rights, s: string, mode: set<char>): set<char> { Asked(r, s, false) * mode }

  function ModeAfter(r: Rights, s: string, mode: set<char>): set<char> {
    mode + SwitchedOn(r, s, mode) - SwitchedOff(r, s, mode)
  }

  /** What is passed on to other servers; none if nothing changed at all. */
  function PassedOn(r: Rights, s: string, mode: set<char>): Option<string> {
    var on, off := SwitchedOn(r, s, mode), SwitchedOff(r, s, mode);
    if on == {} && off == {} then None else Some(Report(on * BROADCAST, off * BROADCAST))
  }

  class Client {
    var mode: set<char>
    var umodeC: bool // what its operator line allows
    var admin: bool
    const remote: bool // on another server, reached over a hub
    const hub: bool
    const here: bool // connected to this server
    var shown: seq<string> // mode changes this client was told
    var broadcast: seq<string> // mode changes other servers were told
    var complaints: nat

    /** Being an operator is itself a mode. */
    function Allowed(): Rights
      reads this
    {
      Rights('o' in mode, umodeC, admin, remote, hub)
    }

    /** Changes the mode as far as allowed; the result is for other servers, none if nothing changed. */
    method SetUserMode(modestr: string) returns (r: Option<string>)
      modifies this`mode, this`shown, this`broadcast, this`complaints
      ensures mode == ModeAfter(old(Allowed()), modestr, old(mode))
      ensures r == PassedOn(old(Allowed()), modestr, old(mode))
      ensures var on := SwitchedOn(old(Allowed()), modestr, old(mode));
              var off := SwitchedOff(old(Allowed()), modestr, old(mode));
              && shown == old(shown) + (if here && r.Some? then [Report(on, off)] else [])
              && broadcast == old(broadcast) + (if here && r.Some? && r.value != "" then [r.value] else [])
      ensures complaints
           == old(complaints)
             + if !remote && (exists i :: 0 <= i < |modestr| && modestr[i] !in "+-iwskgbrfydnocA") then 1 else 0
      ensures forall f :: f in mode <==> SetAfterwards(old(Allowed()), modestr, old(mode), f)
    {
      ghost var rights := Allowed();
      forall f ensures f in ModeAfter(rights, modestr, mode) <==> SetAfterwards(rights, modestr, mode, f) {
        WhoMayChange(rights, modestr, mode, f);
      }
      hide SetAfterwards;
      if modestr == "" {
        return None;
      }
      var umode := new Request();
      ReadModes(modestr, umode);
      AskedFlags(rights, modestr, umode.add_flags, umode.del_flags);
      r := Change(umode);
    }

    /** Reads the whole string; the request ends up with the last accepted sign of each flag. */
    method ReadModes(modestr: string, umode: Request)
      requires umode.add_flags == {} && umode.del_flags == {}
      modifies this`complaints, umode
      ensures forall f :: f in umode.add_flags <==> LastAsk(Allowed(), modestr, |modestr|, f, true)
      ensures forall f :: f in umode.del_flags <==> LastAsk(Allowed(), modestr, |modestr|, f, false)
      ensures complaints
           == old(complaints) + if !remote && (exists i :: 0 <= i < |modestr| && !Understood(modestr[i])) then 1 else 0
    {
      hide LastAsk, Understood, Accepts;
      ghost var rights := Allowed();
      var add, unknown_mode := true, false;
      var i: nat := 0;
      NoAsks(rights, modestr);
      while i < |modestr|
        invariant i <= |modestr| && add == SignAt(modestr, i) && Allowed() == rights
        invariant forall f :: f in umode.add_flags <==> LastAsk(rights, modestr, i, f, true)
        invariant forall f :: f in umode.del_flags <==> LastAsk(rights, modestr, i, f, false)
        invariant unknown_mode <==> !remote && exists j :: 0 <= j < i && !Understood(modestr[j])
        invariant complaints == old(complaints) + if unknown_mode then 1 else 0
      {
        StepAsk(rights, modestr, i);
        var unknown := ReadMode(modestr[i], add, umode);
        if unknown && !unknown_mode && !remote {
          complaints := complaints + 1;
          unknown_mode := true;
        }
        if modestr[i] == '+' { add := true; } else if modestr[i] == '-' { add := false; }
        i := i + 1;
      }
    }

    /** One character of a mode string, other than a sign, is put into the request if the client may. */
    method ReadMode(f: char, add: bool, umode: Request) returns (unknown: bool)
      modifies umode
      ensures umode.add_flags
           == if !Accepts(Allowed(), f, add) then old(umode.add_flags)
              else if add then old(umode.add_flags) + {f}
              else old(umode.add_flags) - {f}
      ensures umode.del_flags
           == if !Accepts(Allowed(), f, add) then old(umode.del_flags)
              else if add then old(umode.del_flags) - {f}
              else old(umode.del_flags) + {f}
      ensures unknown == !Understood(f)
    {
      unknown := false;
      match f {
        case '+' | '-' =>
        case 'i' | 'w' | 's' | 'k' | 'g' =>
          umode.TweakMode(f, add);
        case 'b' | 'r' | 'f' | 'y' | 'd' | 'n' =>
          if 'o' in mode { umode.TweakMode(f, add); }
        case 'o' =>
          if add && remote && hub {
            umode.TweakMode('o', true);
          } else if !add {
            umode.TweakMode('o', false);
          }
        case 'c' =>
          if 'o' in mode && umodeC { umode.TweakMode('c', add); }
        case 'A' =>
          if ('o' in mode && admin) || (remote && hub) { umode.TweakMode('A', add); }
        case _ =>
          unknown := true;
      }
    }

    /** Applies the request letter by letter, and tells who must know. */
    method Change(umode: Request) returns (r: Option<string>)
      requires umode.add_flags !! umode.del_flags && umode.add_flags + umode.del_flags <= Letters(ORDER)
      modifies this`mode, this`shown, this`broadcast
      ensures var on, off := umode.add_flags - old(mode), umode.del_flags * old(mode);
              && mode == old(mode) + on - off
              && r == (if on == {} && off == {} then None else Some(Report(on * BROADCAST, off * BROADCAST)))
              && shown == old(shown) + (if here && r.Some? then [Report(on, off)] else [])
              && broadcast == old(broadcast) + (if here && r.Some? && r.value != "" then [r.value] else [])
    {
      hide Picked, Letters;
      ghost var on, off := umode.add_flags - mode, umode.del_flags * mode;
      var addmodes, delmodes, bcast_addmodes, bcast_delmodes := "", "", "", "";
      var i: nat := 0;
      NothingPicked(on, off);
      while i < |ORDER|
        invariant i <= |ORDER|
        invariant mode == old(mode) + on * Letters(ORDER[..i]) - off * Letters(ORDER[..i])
        invariant addmodes == Picked(ORDER[..i], on) && bcast_addmodes == Picked(ORDER[..i], on * BROADCAST)
        invariant delmodes == Picked(ORDER[..i], off) && bcast_delmodes == Picked(ORDER[..i], off * BROADCAST)
        invariant shown == old(shown) && broadcast == old(broadcast)
      {
        var mym := ORDER[i];
        PickOne(i, on, off);
        if mym in umode.add_flags && mym !in mode {
          addmodes := addmodes + [mym];
          if mym in BROADCAST { bcast_addmodes := bcast_addmodes + [mym]; }
          mode := mode + {mym};
        } else if mym in umode.del_flags && mym in mode {
          delmodes := delmodes + [mym];
          if mym in BROADCAST { bcast_delmodes := bcast_delmodes + [mym]; }
          mode := mode - {mym};
        }
        i := i + 1;
      }
      AllPicked(on, off);
      if addmodes == "" && delmodes == "" { return None; }
      var final := Signed("+", addmodes) + Signed("-", delmodes);
      var bcast := Signed("+", bcast_addmodes) + Signed("-", bcast_delmodes);
      if here {
        shown := shown + [final];
        if bcast_addmodes != "" || bcast_delmodes != "" { broadcast := broadcast + [bcast]; }
      }
      return Some(bcast);
    }
  }

  lemma {:induction false} NoAsks(r: Rights, s: string)
    ensures forall f :: !LastAsk(r, s, 0, f, true) && !LastAsk(r, s, 0, f, false)
  {
  }

  lemma {:induction false} StepAsk(r: Rights, s: string, i: nat)
    requires i < |s|
    ensures forall f :: LastAsk(r, s, i + 1, f, true) <==>
              if f == s[i] && Accepts(r, f, SignAt(s, i)) then SignAt(s, i) else LastAsk(r, s, i, f, true)
    ensures forall f :: LastAsk(r, s, i + 1, f, false) <==>
              if f == s[i] && Accepts(r, f, SignAt(s, i)) then !SignAt(s, i) else LastAsk(r, s, i, f, false)
    ensures SignAt(s, i + 1) == if s[i] == '+' then true else if s[i] == '-' then false else SignAt(s, i)
  {
    forall f ensures LastAsk(r, s, i + 1, f, true) <==>
              if f == s[i] && Accepts(r, f, SignAt(s, i)) then SignAt(s, i) else LastAsk(r, s, i, f, true) {
      LastAskNext(r, s, i, f, true);
      hide LastAsk, Accepts;
    }
    forall f ensures LastAsk(r, s, i + 1, f, false) <==>
              if f == s[i] && Accepts(r, f, SignAt(s, i)) then !SignAt(s, i) else LastAsk(r, s, i, f, false) {
      LastAskNext(r, s, i, f, false);
      hide LastAsk, Accepts;
    }
  }

  lemma {:induction false} AskedFlags(r: Rights, s: string, adds: set<char>, dels: set<char>)
    requires forall f :: f in adds <==> LastAsk(r, s, |s|, f, true)
    requires forall f :: f in dels <==> LastAsk(r, s, |s|, f, false)
    ensures adds == Asked(r, s, true) && dels == Asked(r, s, false) && adds !! dels && adds + dels <= Letters(ORDER)
  {
    forall f | f in adds + dels ensures f in ORDER && !(f in adds && f in dels) {
      OneSign(r, s, |s|, f);
    }
  }

  lemma {:induction false} NothingPicked(on: set<char>, off: set<char>)
    ensures forall s: set<char> :: Picked(ORDER[..0], s) == "" && s * Letters(ORDER[..0]) == {}
  {
  }

  predicate Distinct(s: string) {
    forall i, j :: 0 <= i < j < |s| ==> s[i] != s[j]
  }

  lemma {:induction false} PickOne(i: nat, on: set<char>, off: set<char>)
    requires i < |ORDER|
    ensures forall s: set<char> ::
      Picked(ORDER[..i + 1], s) == Picked(ORDER[..i], s) + if ORDER[i] in s then [ORDER[i]] else ""
    ensures Letters(ORDER[..i + 1]) == Letters(ORDER[..i]) + {ORDER[i]} && ORDER[i] !in Letters(ORDER[..i])
  {
    PickNext(ORDER, i);
  }

  lemma {:induction false} PickNext(letters: string, i: nat)
    requires Distinct(letters) && i < |letters|
    ensures forall s: set<char> ::
      Picked(letters[..i + 1], s) == Picked(letters[..i], s) + if letters[i] in s then [letters[i]] else ""
    ensures Letters(letters[..i + 1]) == Letters(letters[..i]) + {letters[i]} && letters[i] !in Letters(letters[..i])
  {
    assert letters[..i + 1][..i] == letters[..i];
    assert letters[..i + 1] == letters[..i] + [letters[i]];
    LettersConcat(letters[..i], [letters[i]]);
  }

  lemma {:induction false} AllPicked(on: set<char>, off: set<char>)
    requires on + off <= Letters(ORDER)
    ensures ORDER[..|ORDER|] == ORDER && on * Letters(ORDER) == on && off * Letters(ORDER) == off
    ensures Picked(ORDER, on) == "" <==> on == {}
    ensures Picked(ORDER, off) == "" <==> off == {}
  {
    PickedOrder(on);
    PickedOrder(off);
  }

  // ---------- What a report means to its readers ----------

  /** What is passed on to other servers: nothing if no flag has changed, and else the letters, of the four that servers
      tell each other, that have. */
  lemma {:induction false} PassedOnWhich(r: Rights, s: string, mode: set<char>, f: char)
    ensures PassedOn(r, s, mode) == None <==> ModeAfter(r, s, mode) == mode
    ensures PassedOn(r, s, mode).Some? && f != '+' && f != '-' ==>
      (f in PassedOn(r, s, mode).value
       <==> f in {'o', 'i', 'h', 'A'} && (f in mode) != (f in ModeAfter(r, s, mode)))
  {
    hide *;
    ChangesAreLetters(r, s, mode);
    PassedOnIs(r, s, mode);
    var on, off := SwitchedOn(r, s, mode), SwitchedOff(r, s, mode);
    NothingChanged(mode, on, off);
    WithinLetters(on, off);
    if f != '+' && f != '-' { LettersReported(on * BROADCAST, off * BROADCAST, f); }
    ToldServers(mode, on, off, f);
  }

  lemma {:induction false} PassedOnIs(r: Rights, s: string, mode: set<char>)
    ensures var on, off := SwitchedOn(r, s, mode), SwitchedOff(r, s, mode);
      && ModeAfter(r, s, mode) == mode + on - off
      && PassedOn(r, s, mode) == if on == {} && off == {} then None else Some(Report(on * BROADCAST, off * BROADCAST))
  {
    hide SwitchedOn, SwitchedOff, Report;
  }

  lemma {:induction false} WithinLetters(on: set<char>, off: set<char>)
    requires on <= Letters(ORDER) && off <= Letters(ORDER)
    ensures on * BROADCAST + off * BROADCAST <= Letters(ORDER)
  {
    hide Letters;
  }

  lemma {:induction false} ToldServers(mode: set<char>, on: set<char>, off: set<char>, f: char)
    requires on !! mode && off <= mode
    ensures f in on * BROADCAST + off * BROADCAST
       <==> f in {'o', 'i', 'h', 'A'} && (f in mode) != (f in mode + on - off)
  {
  }

  lemma {:induction false} NothingChanged(mode: set<char>, on: set<char>, off: set<char>)
    requires on !! mode && off <= mode
    ensures mode + on - off == mode <==> on == {} && off == {}
  {
    if mode + on - off == mode {
      forall f ensures f !in on && f !in off { assert f in mode + on - off <==> f in mode; }
    }
  }

  lemma {:induction false} LettersReported(on: set<char>, off: set<char>, f: char)
    requires on + off <= Letters(ORDER) && f != '+' && f != '-'
    ensures f in Report(on, off) <==> f in on + off
  {
    PickedOrder(on);
    PickedOrder(off);
    var p, q := Picked(ORDER, on), Picked(ORDER, off);
    hide Picked;
    assert f in p <==> f in Letters(p);
    assert f in q <==> f in Letters(q);
    assert f in Signed("+", p) <==> f in p;
    assert f in Signed("-", q) <==> f in q;
  }

  /** The order in which a report names the flags. */
  lemma {:induction false} ReportExample()
    ensures Report(Letters("oiwbgscrkfydnhFA"), {}) == "+" + "oiwbgscrkfydnhFA"
  {
    AllOf("oiwbgscrkfydnhFA");
    hide Picked, Letters;
    assert "+" + "oiwbgscrkfydnhFA" + "" == "+" + "oiwbgscrkfydnhFA";
  }

  lemma {:induction false} AllOf(letters: string)
    ensures Picked(letters, Letters(letters)) == letters && Picked(letters, {}) == ""
  {
    AllLetters(letters, Letters(letters));
  }

  lemma {:induction false} AllLetters(letters: string, s: set<char>)
    requires forall c :: c in letters ==> c in s
    ensures Picked(letters, s) == letters && Picked(letters, {}) == ""
  {
    if letters != "" {
      var n := |letters| - 1;
      AllLetters(letters[..n], s);
      assert letters == letters[..n] + [letters[n]];
    }
  }

  lemma {:induction false} ChangesAreLetters(r: Rights, s: string, mode: set<char>)
    ensures var on, off := SwitchedOn(r, s, mode), SwitchedOff(r, s, mode);
            on !! mode && off <= mode && on <= Letters(ORDER) && off <= Letters(ORDER) && 'h' !in on + off
  {
    forall f | f in Asked(r, s, true) + Asked(r, s, false) ensures f != 'h' {
      assert LastAsk(r, s, |s|, f, true) || LastAsk(r, s, |s|, f, false);
      assert Accepts(r, f, true) || Accepts(r, f, false);
    }
  }

  /** Read plainly on the old mode, the report gives the new one; and it names no flag that did not change. */
  lemma {:induction false} ReportIsTheChange(r: Rights, s: string, mode: set<char>)
    ensures var on, off := SwitchedOn(r, s, mode), SwitchedOff(r, s, mode);
            && Replay(Report(on, off), true, mode) == ModeAfter(r, s, mode)
            && on == ModeAfter(r, s, mode) - mode && off == mode - ModeAfter(r, s, mode)
  {
    ChangesAreLetters(r, s, mode);
    ReportReplays(SwitchedOn(r, s, mode), SwitchedOff(r, s, mode), mode);
  }

  lemma {:induction false} AskRun(r: Rights, s: string, a: nat, b: nat, add: bool, f: char)
    requires a <= b <= |s| && NoSigns(s[a..b]) && SignAt(s, a) == add
    ensures SignAt(s, b) == add
    ensures LastAsk(r, s, b, f, add) <==> (f in s[a..b] && Accepts(r, f, add)) || LastAsk(r, s, a, f, add)
    ensures LastAsk(r, s, b, f, !add) <==> LastAsk(r, s, a, f, !add) && !(f in s[a..b] && Accepts(r, f, add))
    decreases b
  {
    if a < b {
      assert s[a..b] == s[a..b - 1] + [s[b - 1]];
      AskRun(r, s, a, b - 1, add, f);
      assert s[b - 1] in s[a..b];
      StepAsk(r, s, b - 1);
      hide LastAsk, Accepts, SignAt;
    }
  }

  predicate SignedText(s: string, p: string, q: string) {
    s == Signed("+", p) + Signed("-", q) && NoSigns(p) && NoSigns(q)
  }

  lemma {:induction false} AskSigned(r: Rights, s: string, k: nat, sign: char, p: string, f: char)
    requires k + 1 + |p| <= |s| && s[k] == sign && (sign == '+' || sign == '-')
    requires s[k + 1..k + 1 + |p|] == p && NoSigns(p)
    ensures LastAsk(r, s, k + 1 + |p|, f, sign == '+')
       <==> (f in p && Accepts(r, f, sign == '+')) || LastAsk(r, s, k, f, sign == '+')
    ensures LastAsk(r, s, k + 1 + |p|, f, sign == '-')
       <==> LastAsk(r, s, k, f, sign == '-') && !(f in p && Accepts(r, f, sign == '+'))
  {
    StepAsk(r, s, k);
    AskRun(r, s, k + 1, k + 1 + |p|, sign == '+', f);
    assert !Accepts(r, sign, true) && !Accepts(r, sign, false);
    hide LastAsk, Accepts;
  }

  lemma {:induction false} AskText(r: Rights, s: string, p: string, q: string, f: char)
    requires SignedText(s, p, q) && !(f in p && f in q)
    ensures LastAsk(r, s, |s|, f, true) <==> f in p && Accepts(r, f, true)
    ensures LastAsk(r, s, |s|, f, false) <==> f in q && Accepts(r, f, false)
  {
    hide LastAsk, Accepts, Signed, SignedText, NoSigns;
    AskFirst(r, s, p, q, f);
    SignedParts(s, p, q);
    if q != "" { AskSigned(r, s, |Signed("+", p)|, '-', q, f); }
  }

  lemma {:induction false} AskFirst(r: Rights, s: string, p: string, q: string, f: char)
    requires SignedText(s, p, q)
    ensures var k := |Signed("+", p)|;
      (LastAsk(r, s, k, f, true) <==> f in p && Accepts(r, f, true)) && !LastAsk(r, s, k, f, false)
    ensures NoSigns(p) && NoSigns(q)
  {
    hide LastAsk, Accepts, Signed, SignedText, NoSigns;
    NoAsks(r, s);
    SignedParts(s, p, q);
    if p != "" { AskSigned(r, s, 0, '+', p, f); }
  }

  lemma {:induction false} SignedParts(s: string, p: string, q: string)
    requires SignedText(s, p, q)
    ensures |s| == |Signed("+", p)| + |Signed("-", q)|
    ensures p != "" ==> |Signed("+", p)| == 1 + |p| && s[0] == '+' && s[1..1 + |p|] == p
    ensures q != "" ==>
      var k := |Signed("+", p)|;
      |s| == k + 1 + |q| && s[k] == '-' && s[k + 1..k + 1 + |q|] == q
    ensures p == "" ==> |Signed("+", p)| == 0
    ensures q == "" ==> |Signed("-", q)| == 0
    ensures NoSigns(p) && NoSigns(q)
  {
    SignedIs("+", p);
    SignedIs("-", q);
    hide Signed, NoSigns;
    FrontPart(p, Signed("-", q));
    BackPart(Signed("+", p), q);
  }

  lemma {:induction false} SignedIs(sign: string, p: string)
    ensures Signed(sign, p) == if p == "" then "" else sign + p
  {
  }

  lemma {:induction false} FrontPart(p: string, b: string)
    ensures var s := "+" + p + b; |s| == 1 + |p| + |b| && s[0] == '+' && s[1..1 + |p|] == p
  {
  }

  lemma {:induction false} BackPart(a: string, q: string)
    ensures var s := a + ("-" + q); |s| == |a| + 1 + |q| && s[|a|] == '-' && s[|a| + 1..|a| + 1 + |q|] == q
  {
  }

  /** Another server's copy of the client, reading a report, makes those changes it lets the client make. */
  lemma {:induction false} ReportAsks(r: Rights, on: set<char>, off: set<char>)
    requires on !! off && on + off <= Letters(ORDER)
    ensures Asked(r, Report(on, off), true) == set f | f in on && Accepts(r, f, true)
    ensures Asked(r, Report(on, off), false) == set f | f in off && Accepts(r, f, false)
  {
    PickedOrder(on);
    PickedOrder(off);
    var s, p, q := Report(on, off), Picked(ORDER, on), Picked(ORDER, off);
    hide LastAsk, Accepts, Picked;
    forall f ensures (f in p <==> f in on) && (f in q <==> f in off) {
      assert f in p <==> f in Letters(p);
      assert f in q <==> f in Letters(q);
    }
    forall f ensures LastAsk(r, s, |s|, f, true) <==> f in on && Accepts(r, f, true) { AskText(r, s, p, q, f); }
    forall f ensures LastAsk(r, s, |s|, f, false) <==> f in off && Accepts(r, f, false) { AskText(r, s, p, q, f); }
    assert forall f :: f in Letters(ORDER) <==> f in ORDER;
  }

  predicate AcceptsAll(r: Rights, on: set<char>, off: set<char>) {
    (forall f :: f in on ==> Accepts(r, f, true)) && (forall f :: f in off ==> Accepts(r, f, false))
  }

  /**
   * A copy that agreed on the modes servers tell each other about agrees again after the report,
   * if and only if it accepts every change in it; and then it passes the same report on.
   */
  lemma {:induction false} CopyFollows(r: Rights, s: string, mode: set<char>, copy: Rights, seen: set<char>)
    requires seen * BROADCAST == mode * BROADCAST
    ensures var on, off := SwitchedOn(r, s, mode) * BROADCAST, SwitchedOff(r, s, mode) * BROADCAST;
            && (AcceptsAll(copy, on, off) <==>
                  ModeAfter(copy, Report(on, off), seen) * BROADCAST == ModeAfter(r, s, mode) * BROADCAST)
            && (AcceptsAll(copy, on, off) ==>
                  PassedOn(copy, Report(on, off), seen)
                       == if on == {} && off == {} then None else Some(Report(on, off)))
  {
    ChangesAreLetters(r, s, mode);
    var on, off := SwitchedOn(r, s, mode) * BROADCAST, SwitchedOff(r, s, mode) * BROADCAST;
    ReportAsks(copy, on, off);
    hide Asked, Report, Letters;
    var text := Report(on, off);
    var on', off' := SwitchedOn(copy, text, seen), SwitchedOff(copy, text, seen);
    forall f | f in on ensures f !in seen {
      assert f in BROADCAST && f !in mode;
      assert f in seen ==> f in seen * BROADCAST;
    }
    forall f | f in off ensures f in seen { assert f in mode * BROADCAST; assert f in seen * BROADCAST; }
    assert on' == set f | f in on && Accepts(copy, f, true);
    assert off' == set f | f in off && Accepts(copy, f, false);
    SameAfter(seen, mode, on, off, on', off', SwitchedOn(r, s, mode), SwitchedOff(r, s, mode));
    if AcceptsAll(copy, on, off) {
      assert on' == on && off' == off;
      assert on * BROADCAST == on && off * BROADCAST == off;
    }
  }

  lemma {:induction false} SameAfter(
    seen: set<char>, mode: set<char>, on: set<char>, off: set<char>, on': set<char>, off': set<char>,
                                      all: set<char>, gone: set<char>)
    requires seen * BROADCAST == mode * BROADCAST && on == all * BROADCAST && off == gone * BROADCAST
    requires all !! mode && gone <= mode && on' <= on && off' <= off
    ensures (seen + on' - off') * BROADCAST == (mode + all - gone) * BROADCAST <==> on' == on && off' == off
  {
    var a, b := (seen + on' - off') * BROADCAST, (mode + all - gone) * BROADCAST;
    assert b == mode * BROADCAST + on - off;
    assert a == mode * BROADCAST + on' - off';
    if a == b {
      forall f | f in on ensures f in on' { assert f in b; }
      forall f | f in off ensures f in off' { assert f !in b; }
    }
  }

  // ---------- Through the network ----------

  /** The copies of a client on the servers along a path, as the report passes from each to the next. */
  function Along(copies: seq<(Rights, set<char>)>, report: string): seq<(Rights, set<char>)> {
    if copies == [] then []
    else
      var (r, seen) := copies[0];
      var on := PassedOn(r, report, seen);
      [(r, ModeAfter(r, report, seen))] + if on.None? || on.value == "" then copies[1..]
        else Along(copies[1..], on.value)
  }

  /** A copy on a server that takes the client's word: the link it is reached by is a hub's. */
  predicate Trusting(copy: (Rights, set<char>), mode: set<char>) {
    copy.0.remote && copy.0.hub && copy.1 * BROADCAST == mode * BROADCAST
  }

  /** If every server trusts the link it heard of the client on, every copy follows the client's mode. */
  lemma {:induction false} ModesReachEveryServer(
    r: Rights, s: string, mode: set<char>, copies: seq<(Rights, set<char>)>)
    requires forall i :: 0 <= i < |copies| ==> Trusting(copies[i], mode)
    ensures var report := PassedOn(r, s, mode);
            var after := if report.None? || report.value == "" then copies else Along(copies, report.value);
            |after| == |copies| && forall i :: 0 <= i < |copies| ==> Trusting(after[i], ModeAfter(r, s, mode))
  {
    var on, off := SwitchedOn(r, s, mode) * BROADCAST, SwitchedOff(r, s, mode) * BROADCAST;
    ChangesAreLetters(r, s, mode);
    ReportText(on, off);
    if on == {} && off == {} {
      SameAfter(mode, mode, on, off, {}, {}, SwitchedOn(r, s, mode), SwitchedOff(r, s, mode));
      assert mode + {} - {} == mode;
    } else {
      AlongFollows(r, s, mode, copies);
    }
  }

  lemma {:induction false} ReportText(on: set<char>, off: set<char>)
    requires on + off <= Letters(ORDER)
    ensures Report(on, off) == "" <==> on == {} && off == {}
  {
    PickedOrder(on);
    PickedOrder(off);
  }

  lemma {:induction false} AlongFollows(r: Rights, s: string, mode: set<char>, copies: seq<(Rights, set<char>)>)
    requires forall i :: 0 <= i < |copies| ==> Trusting(copies[i], mode)
    requires SwitchedOn(r, s, mode) * BROADCAST != {} || SwitchedOff(r, s, mode) * BROADCAST != {}
    ensures var after := Along(copies, Report(SwitchedOn(r, s, mode) * BROADCAST, SwitchedOff(r, s, mode) * BROADCAST));
            |after| == |copies| && forall i :: 0 <= i < |copies| ==> Trusting(after[i], ModeAfter(r, s, mode))
  {
    if copies != [] {
      var on, off := SwitchedOn(r, s, mode) * BROADCAST, SwitchedOff(r, s, mode) * BROADCAST;
      ChangesAreLetters(r, s, mode);
      ReportText(on, off);
      assert Trusting(copies[0], mode);
      CopyFollows(r, s, mode, copies[0].0, copies[0].1);
      TrustingAccepts(copies[0].0, on, off);
      AlongFollows(r, s, mode, copies[1..]);
      hide ModeAfter, PassedOn, SwitchedOn, SwitchedOff, Report;
    }
  }

  lemma {:induction false} TrustingAccepts(r: Rights, on: set<char>, off: set<char>)
    requires r.remote && r.hub && on <= BROADCAST && off <= BROADCAST && 'h' !in on + off
    ensures AcceptsAll(r, on, off)
  {
  }
}
