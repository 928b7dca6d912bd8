/** What the IRC daemon makes of a ban mask that is typed. */
module BanMasks {
  import opened Options

  const MAX_NICKLEN := 30
  const MAX_USER := 10
  const MAX_HOST := 80

  predicate Allowed(c: char) {
    'A' <= c <= 'Z' || 'a' <= c <= 'z' || '0' <= c <= '9' || c in "{}`^_|][\\-.*?~:"
  }

  predicate AllAllowed(s: string) {
    forall i :: 0 <= i < |s| ==> Allowed(s[i])
  }

  // ---------- Taking the text apart ----------

  /** The three parts, and which of them is being read. */
  datatype Parts = Parts(p0: string, p1: string, p2: string, at: nat)

  function Add(p: Parts, c: char): Parts {
    if p.at == 0 then p.(p0 := p.p0 + [c]) else if p.at == 1 then p.(p1 := p.p1 + [c]) else p.(p2 := p.p2 + [c])
  }

  function AddAll(p: Parts, x: string): Parts {
    if p.at == 0 then p.(p0 := p.p0 + x) else if p.at == 1 then p.(p1 := p.p1 + x) else p.(p2 := p.p2 + x)
  }

  function Step(p: Parts, c: char, kline: bool): Parts {
    if Allowed(c) then Add(p, c) else Separated(p, c, kline)
  }

  function Read(s: string, p: Parts, kline: bool): Parts {
    if s == "" then p else Read(s[1..], Step(p, s[0], kline), kline)
  }

  const START := Parts("", "", "", 0)

  // ---------- Putting the mask together ----------

  /** A lone first part with a dot in it is a host. */
  function Moved(p: Parts, kline: bool): Parts {
    if '.' in p.p0 && p.p1 == "" && p.p2 == "" then
      if kline then Parts("", p.p0, p.p2, p.at) else Parts("", p.p1, p.p0, p.at)
    else p
  }

  function OrStar(s: string): string {
    if s == "" then "*" else s
  }

  function Cut(s: string, n: nat): (r: string)
    ensures |r| <= n
  {
    if |s| > n then s[..n] else s
  }

  function Mask(p: Parts, kline: bool): string {
    if kline then Cut(OrStar(p.p0), MAX_USER) + "@" + Cut(OrStar(p.p1), MAX_HOST)
    else Cut(OrStar(p.p0), MAX_NICKLEN) + "!" + Cut(OrStar(p.p1), MAX_USER) + "@" + Cut(OrStar(p.p2), MAX_HOST)
  }

  /** Every run of stars becomes one star. */
  function Squeeze(s: string): string {
    if |s| < 2 then s
    else if s[0] == '*' && s[1] == '*' then Squeeze(s[1..])
    else [s[0]] + Squeeze(s[1..])
  }

  function Created(s: string, kline: bool): Option<string> {
    var p := Read(s, START, kline);
    if p.p0 == "" && p.p1 == "" && p.p2 == "" then None
    else Some(Squeeze(Mask(Moved(p, kline), kline)))
  }

  predicate DoubleStar(s: string, i: nat) {
    i + 1 < |s| && s[i] == '*' && s[i + 1] == '*'
  }

  predicate NoDoubleStar(s: string) {
    forall i :: 0 <= i < |s| ==> !DoubleStar(s, i)
  }

  /** One pass: pairs of stars, from left to right, each become one. */
  function Pass(s: string): (r: string)
    ensures |r| <= |s|
    decreases |s|
  {
    if |s| < 2 then s
    else if s[0] == '*' && s[1] == '*' then "*" + Pass(s[2..])
    else [s[0]] + Pass(s[1..])
  }

  lemma {:induction false} PassShrinks(s: string, i: nat)
    requires DoubleStar(s, i)
    ensures |Pass(s)| < |s|
    decreases |s|
  {
    if !(s[0] == '*' && s[1] == '*') {
      assert DoubleStar(s[1..], i - 1);
      PassShrinks(s[1..], i - 1);
    }
  }

  lemma {:induction false} PassKeepsSqueezed(s: string)
    ensures Squeeze(Pass(s)) == Squeeze(s)
    ensures s != "" ==> Pass(s) != "" && Pass(s)[0] == s[0]
    ensures s != "" ==> Squeeze("*" + Pass(s)) == Squeeze("*" + s)
    decreases |s|
  {
    if |s| >= 2 {
      if s[0] == '*' && s[1] == '*' {
        PassKeepsSqueezed(s[2..]);
        assert s[1..] == "*" + s[2..];
        if s[2..] == "" { assert Pass(s) == "*"; }
      } else {
        PassKeepsSqueezed(s[1..]);
      }
    }
  }

  /** Two stars are as good as one. */
  lemma {:induction false} OneStar(a: string, b: string)
    ensures Squeeze(a + "**" + b) == Squeeze(a + "*" + b)
    decreases |a|
  {
    if a == "" {
      assert ("" + "**" + b)[1..] == "" + "*" + b;
    } else {
      var s, t := a + "**" + b, a + "*" + b;
      assert s[1..] == a[1..] + "**" + b && t[1..] == a[1..] + "*" + b;
      OneStar(a[1..], b);
      assert s[0] == t[0] && s[1] == t[1];
    }
  }

  lemma {:induction false} SqueezeMeaning(s: string)
    ensures NoDoubleStar(Squeeze(s)) && |Squeeze(s)| <= |s|
    ensures s != "" ==> Squeeze(s) != "" && Squeeze(s)[0] == s[0]
    ensures NoDoubleStar(s) ==> Squeeze(s) == s
    ensures AllAllowed(s) ==> AllAllowed(Squeeze(s))
    decreases |s|
  {
    if |s| >= 2 {
      SqueezeMeaning(s[1..]);
      var rest := Squeeze(s[1..]);
      assert forall k :: 0 <= k < |s[1..]| ==> s[1..][k] == s[k + 1];
      if s[0] == '*' && s[1] == '*' {
        assert DoubleStar(s, 0);
      } else {
        assert s == [s[0]] + s[1..];
        forall k | 0 <= k < |[s[0]] + rest| ensures !DoubleStar([s[0]] + rest, k) {
          if k > 0 { assert !DoubleStar(rest, k - 1); }
        }
        if NoDoubleStar(s) {
          forall k | 0 <= k < |s[1..]| ensures !DoubleStar(s[1..], k) { assert !DoubleStar(s, k + 1); }
        }
      }
    }
  }

  predicate Doubled(c: char, t: string) {
    c == '*' && t != "" && t[0] == '*'
  }

  lemma {:induction false} SqueezeStep(c: char, t: string)
    ensures Squeeze([c] + t) == if Doubled(c, t) then Squeeze(t) else [c] + Squeeze(t)
  {
    assert ([c] + t)[1..] == t;
  }

  lemma {:induction false} Regrouped(x: string, a: string, c: string, b: string)
    ensures x + a + c + b == x + (a + c + b)
    ensures x + (a + c) + b == x + (a + c + b)
    ensures x + a + (c + b) == x + (a + c + b)
  {
  }

  /** A separator keeps the stars on either side of it apart. */
  lemma {:induction false} SqueezeParts(a: string, c: char, b: string)
    requires c != '*'
    ensures Squeeze(a + [c] + b) == Squeeze(a) + [c] + Squeeze(b)
    decreases |a|
  {
    hide Squeeze;
    if a == "" {
      SqueezeStep(c, b);
      SqueezeNone();
      NoneAhead([c]);
    } else {
      var x, t := a[0], a[1..];
      assert a == [x] + t;
      SqueezeParts(t, c, b);
      SqueezeStep(x, t);
      SqueezeStep(x, t + [c] + b);
      Regrouped([x], t, [c], b);
      Regrouped([x], Squeeze(t), [c], Squeeze(b));
      FirstKept(x, t, c, b);
    }
  }

  lemma {:induction false} SqueezeNone()
    ensures Squeeze("") == ""
  {
  }

  lemma {:induction false} FirstKept(x: char, t: string, c: char, b: string)
    requires c != '*'
    ensures Doubled(x, t + [c] + b) <==> Doubled(x, t)
  {
  }

  // ---------- The operation ----------

  method CreateBanMask(str: string, kline: bool) returns (r: Option<string>)
    ensures r == Created(str, kline)
  {
    hide *;
    var tmp_banstr := ["", "", ""];
    var part_counter: nat := 0;
    var i: nat := 0;
    ReadStart(str);
    while i < |str|
      invariant i <= |str| && part_counter <= 2 && |tmp_banstr| == 3
      invariant Read(str, START, kline)
           == Read(str[i..], Parts(tmp_banstr[0], tmp_banstr[1], tmp_banstr[2], part_counter), kline)
    {
      var c := str[i];
      ReadNext(str, i, Parts(tmp_banstr[0], tmp_banstr[1], tmp_banstr[2], part_counter), kline);
      StepCases(Parts(tmp_banstr[0], tmp_banstr[1], tmp_banstr[2], part_counter), c, kline);
      if Allowed(c) {
        tmp_banstr := tmp_banstr[part_counter := tmp_banstr[part_counter] + [c]];
      } else if c == '!' && part_counter == 0 && !kline {
        part_counter := 1;
      } else if c == '@' && part_counter == 1 && !kline {
        part_counter := 2;
      } else if c == '@' && part_counter == 0 {
        if kline {
          part_counter := 1;
        } else {
          tmp_banstr := tmp_banstr[1 := tmp_banstr[0]][0 := "*"];
          part_counter := 2;
        }
      }
      i := i + 1;
    }
    r := Finish(str, tmp_banstr[0], tmp_banstr[1], tmp_banstr[2], part_counter, kline);
  }

  method Finish(
    ghost str: string, a: string, b: string, c: string, ghost at: nat, kline: bool) returns (r: Option<string>)
    requires Read(str, START, kline) == Read(str[|str|..], Parts(a, b, c, at), kline)
    ensures r == Created(str, kline)
  {
    hide Squeeze, Pass;
    assert str[|str|..] == "";
    if a == "" && b == "" && c == "" { return None; }
    var p0, p1, p2 := a, b, c;
    if '.' in p0 && p1 == "" && p2 == "" {
      if kline { p1 := p0; } else { p2 := p0; }
      p0 := "";
    }
    if p0 == "" { p0 := "*"; }
    if p1 == "" { p1 := "*"; }
    if p2 == "" && !kline { p2 := "*"; }
    var finalstr := if kline then Cut(p0, MAX_USER) + "@" + Cut(p1, MAX_HOST)
                    else Cut(p0, MAX_NICKLEN) + "!" + Cut(p1, MAX_USER) + "@" + Cut(p2, MAX_HOST);
    assert finalstr == Mask(Moved(Parts(a, b, c, at), kline), kline);
    finalstr := CollapseStars(finalstr);
    return Some(finalstr);
  }

  /** Replaces pairs of stars over and over until there is none. */
  method CollapseStars(s: string) returns (r: string)
    ensures r == Squeeze(s)
  {
    r := s;
    while !NoDoubleStar(r)
      invariant Squeeze(r) == Squeeze(s)
      decreases |r|
    {
      ghost var i :| 0 <= i < |r| && DoubleStar(r, i);
      PassShrinks(r, i);
      PassKeepsSqueezed(r);
      r := Pass(r);
    }
    SqueezeMeaning(r);
  }

  lemma {:induction false} ReadStart(s: string)
    ensures s[0..] == s && START == Parts("", "", "", 0)
  {
  }

  lemma {:induction false} ReadNext(s: string, i: nat, p: Parts, kline: bool)
    requires i < |s|
    ensures Read(s[i..], p, kline) == Read(s[i + 1..], Step(p, s[i], kline), kline)
  {
    assert s[i..][1..] == s[i + 1..];
  }

  /** What a character that does not belong to a part does. */
  function Separated(p: Parts, c: char, kline: bool): Parts {
    if c == '!' && p.at == 0 && !kline then p.(at := 1)
    else if c == '@' && p.at == 1 && !kline then p.(at := 2)
    else if c == '@' && p.at == 0 then
      if kline then p.(at := 1) else Parts("*", p.p0, p.p2, 2)
    else p
  }

  lemma {:induction false} StepCases(p: Parts, c: char, kline: bool)
    requires p.at <= 2
    ensures Allowed(c) ==> Step(p, c, kline) == Add(p, c)
    ensures Separated(p, c, kline)
         == if c == '!' && p.at == 0 && !kline then p.(at := 1)
            else if c == '@' && p.at == 1 && !kline then p.(at := 2)
            else if c == '@' && p.at == 0 && kline then p.(at := 1)
            else if c == '@' && p.at == 0 then Parts("*", p.p0, p.p2, 2)
            else p
    ensures Add(p, c)
         == if p.at == 0 then Parts(p.p0 + [c], p.p1, p.p2, 0)
            else if p.at == 1 then Parts(p.p0, p.p1 + [c], p.p2, 1)
            else Parts(p.p0, p.p1, p.p2 + [c], 2)
    ensures !Allowed(c) ==> Step(p, c, kline) == Separated(p, c, kline)
  {
  }

  // ---------- The normal form ----------

  /** One part of a mask: not empty, of allowed characters, without a double star, and not too long. */
  predicate NormalPart(s: string, max: nat) {
    s != "" && |s| <= max && AllAllowed(s) && NoDoubleStar(s)
  }

  ghost predicate Normal(m: string, kline: bool) {
    if kline then exists a, b :: m == a + "@" + b && NormalPart(a, MAX_USER) && NormalPart(b, MAX_HOST)
    else exists a, b, c ::
      m == a + "!" + b + "@" + c && NormalPart(a, MAX_NICKLEN) && NormalPart(b, MAX_USER) && NormalPart(c, MAX_HOST)
  }

  predicate AllowedParts(p: Parts) {
    p.at <= 2 && AllAllowed(p.p0) && AllAllowed(p.p1) && AllAllowed(p.p2)
  }

  lemma {:induction false} ReadAllowed(s: string, p: Parts, kline: bool)
    requires AllowedParts(p)
    ensures AllowedParts(Read(s, p, kline))
  {
    if s != "" { ReadAllowed(s[1..], Step(p, s[0], kline), kline); }
  }

  lemma {:induction false} PartIsNormal(s: string, max: nat)
    requires AllAllowed(s) && max > 0
    ensures NormalPart(Squeeze(Cut(OrStar(s), max)), max)
  {
    SqueezeMeaning(Cut(OrStar(s), max));
  }

  lemma {:induction false} SqueezeThree(a: string, b: string, c: string)
    ensures Squeeze(a + "!" + b + "@" + c) == Squeeze(a) + "!" + Squeeze(b) + "@" + Squeeze(c)
    ensures Squeeze(a + "@" + b) == Squeeze(a) + "@" + Squeeze(b)
  {
    SqueezeParts(a + "!" + b, '@', c);
    SqueezeParts(a, '!', b);
    SqueezeParts(a, '@', b);
  }

  lemma {:induction false} ResultIsNormal(s: string, kline: bool)
    ensures Created(s, kline).Some? ==> Normal(Created(s, kline).value, kline)
  {
    ReadAllowed(s, START, kline);
    var p := Moved(Read(s, START, kline), kline);
    if kline {
      SqueezeThree("", Cut(OrStar(p.p0), MAX_USER), Cut(OrStar(p.p1), MAX_HOST));
      SqueezeThree(Cut(OrStar(p.p0), MAX_USER), Cut(OrStar(p.p1), MAX_HOST), "");
      PartIsNormal(p.p0, MAX_USER);
      PartIsNormal(p.p1, MAX_HOST);
    } else {
      SqueezeThree(Cut(OrStar(p.p0), MAX_NICKLEN), Cut(OrStar(p.p1), MAX_USER), Cut(OrStar(p.p2), MAX_HOST));
      PartIsNormal(p.p0, MAX_NICKLEN);
      PartIsNormal(p.p1, MAX_USER);
      PartIsNormal(p.p2, MAX_HOST);
    }
    hide Squeeze, NormalPart, Read;
  }

  lemma {:induction false} ReadPart(x: string, rest: string, p: Parts, kline: bool)
    requires AllAllowed(x) && p.at <= 2
    ensures Read(x + rest, p, kline) == Read(rest, AddAll(p, x), kline)
  {
    if x == "" {
      assert x + rest == rest && p.p0 + x == p.p0 && p.p1 + x == p.p1 && p.p2 + x == p.p2;
    } else {
      ReadFirst(x, rest, p, kline);
      ReadPart(x[1..], rest, Add(p, x[0]), kline);
      hide Read, AllAllowed, Allowed;
      AddedNext(p.p0, x);
      AddedNext(p.p1, x);
      AddedNext(p.p2, x);
    }
  }

  lemma {:induction false} AddedNext(t: string, x: string)
    requires x != ""
    ensures t + [x[0]] + x[1..] == t + x
  {
  }

  lemma {:induction false} ReadFirst(x: string, rest: string, p: Parts, kline: bool)
    requires x != "" && Allowed(x[0])
    ensures Read(x + rest, p, kline) == Read(x[1..] + rest, Add(p, x[0]), kline)
  {
    assert (x + rest)[1..] == x[1..] + rest && (x + rest)[0] == x[0];
  }

  lemma {:induction false} ReadThree(a: string, b: string, c: string)
    requires AllAllowed(a) && AllAllowed(b) && AllAllowed(c)
    ensures Read(a + "!" + b + "@" + c, START, false) == Parts(a, b, c, 2)
  {
    assert !Allowed('!') && !Allowed('@');
    hide Read, Allowed, AllAllowed;
    Regrouped(a + ['!'], b, ['@'], c);
    ReadSeparated(a, '!', b + ['@'] + c, START, false);
    ReadSeparated(b, '@', c, Parts(a, "", "", 1), false);
    ReadEnd(c, Parts(a, b, "", 2), false);
    NoneAhead(a);
    NoneAhead(b);
    NoneAhead(c);
  }

  lemma {:induction false} NoneAhead(a: string)
    ensures "" + a == a
  {
  }

  lemma {:induction false} ReadTwo(b: string, c: string)
    requires AllAllowed(b) && AllAllowed(c)
    ensures Read(b + "@" + c, START, false) == Parts("*", b, c, 2)
    ensures Read(b + "@" + c, START, true) == Parts(b, c, "", 1)
  {
    assert !Allowed('@');
    hide Read, Allowed, AllAllowed;
    ReadSeparated(b, '@', c, START, false);
    ReadSeparated(b, '@', c, START, true);
    ReadEnd(c, Parts("*", b, "", 2), false);
    ReadEnd(c, Parts(b, "", "", 1), true);
    NoneAhead(b);
    NoneAhead(c);
  }

  lemma {:induction false} ReadEnd(x: string, p: Parts, kline: bool)
    requires AllAllowed(x) && p.at <= 2
    ensures Read(x, p, kline) == AddAll(p, x)
  {
    ReadPart(x, "", p, kline);
    assert x + "" == x;
  }

  lemma {:induction false} ReadSeparated(x: string, sep: char, rest: string, p: Parts, kline: bool)
    requires AllAllowed(x) && p.at <= 2 && !Allowed(sep)
    ensures Read(x + [sep] + rest, p, kline) == Read(rest, Step(AddAll(p, x), sep, kline), kline)
  {
    assert x + [sep] + rest == x + ([sep] + rest);
    ReadPart(x, [sep] + rest, p, kline);
    assert ([sep] + rest)[1..] == rest;
  }

  lemma {:induction false} NormalIsFixed(m: string, kline: bool)
    requires Normal(m, kline)
    ensures Created(m, kline) == Some(m)
  {
    if kline {
      var a, b :| m == a + "@" + b && NormalPart(a, MAX_USER) && NormalPart(b, MAX_HOST);
      ReadTwo(a, b);
      SqueezeThree(a, b, "");
      SqueezeMeaning(a);
      SqueezeMeaning(b);
    } else {
      var a, b, c :| m == a + "!" + b + "@" + c && NormalPart(a, MAX_NICKLEN) && NormalPart(b, MAX_USER)
        && NormalPart(c, MAX_HOST);
      ReadThree(a, b, c);
      SqueezeThree(a, b, c);
      SqueezeMeaning(a);
      SqueezeMeaning(b);
      SqueezeMeaning(c);
    }
    hide Squeeze, Read;
  }

  /** The masks this makes are exactly the ones it leaves alone, and those are the normal ones. */
  lemma {:induction false} NormalForm(s: string, m: string, kline: bool)
    ensures Created(m, kline) == Some(m) <==> Normal(m, kline)
    ensures Created(s, kline) == Some(m) ==> Created(m, kline) == Some(m)
  {
    ResultIsNormal(m, kline);
    ResultIsNormal(s, kline);
    hide Normal, Created;
    if Normal(m, kline) { NormalIsFixed(m, kline); }
  }

  // ---------- What a mask is made of ----------

  function Trimmed(s: string, max: nat): string {
    Squeeze(Cut(OrStar(s), max))
  }

  /** Each way of writing a ban comes out as its parts, trimmed, with stars for those that were left out. */
  lemma {:induction false} ThreeParts(a: string, b: string, c: string)
    requires AllAllowed(a) && AllAllowed(b) && AllAllowed(c) && (b != "" || c != "" || (a != "" && '.' !in a))
    ensures Created(a + "!" + b + "@" + c, false)
         == Some(Trimmed(a, MAX_NICKLEN) + "!" + Trimmed(b, MAX_USER) + "@" + Trimmed(c, MAX_HOST))
  {
    ReadThree(a, b, c);
    hide Squeeze, Read, AllAllowed, Cut;
    SqueezeThree(Cut(OrStar(a), MAX_NICKLEN), Cut(OrStar(b), MAX_USER), Cut(OrStar(c), MAX_HOST));
  }

  /** The characters that belong to a part, by their codes: letters, digits, and thirteen others. */
  lemma {:induction false} AllowedTable(c: char)
    ensures Allowed(c)
       <==> || 48 <= c as int <= 57 || 65 <= c as int <= 90 || 97 <= c as int <= 122
            || c as int in {42, 45, 46, 58, 63, 91, 92, 93, 94, 95, 96, 123, 124, 125, 126}
  {
  }

  /** A mask in three parts without stars: of each part the first characters are kept. */
  lemma {:induction false} PlainMask(a: string, b: string, c: string)
    requires AllAllowed(a) && AllAllowed(b) && AllAllowed(c) && a != "" && b != "" && c != ""
    requires '*' !in a && '*' !in b && '*' !in c
    ensures Created(a + "!" + b + "@" + c, false)
         == Some(a[..if |a| > 30 then 30 else |a|] + "!" + b[..if |b| > 10 then 10 else |b|] + "@"
                 + c[..if |c| > 80 then 80 else |c|])
  {
    ThreeParts(a, b, c);
    PlainPart(a, 30);
    PlainPart(b, 10);
    PlainPart(c, 80);
    hide Created, Trimmed, AllAllowed;
  }

  lemma {:induction false} PlainPart(s: string, max: nat)
    requires s != "" && '*' !in s && max > 0
    ensures Trimmed(s, max) == s[..if |s| > max then max else |s|]
  {
    var cut := s[..if |s| > max then max else |s|];
    assert Cut(s, max) == cut;
    assert forall i :: 0 <= i < |cut| ==> cut[i] == s[i];
    SqueezeMeaning(cut);
    assert NoDoubleStar(cut);
  }

  lemma {:induction false} UserAndHost(b: string, c: string)
    requires AllAllowed(b) && AllAllowed(c)
    ensures Created(b + "@" + c, false) == Some("*!" + Trimmed(b, MAX_USER) + "@" + Trimmed(c, MAX_HOST))
  {
    ReadTwo(b, c);
    assert Cut("*", MAX_NICKLEN) == "*" && Squeeze("*") == "*";
    hide Squeeze, Read, AllAllowed, Cut;
    SqueezeThree("*", Cut(OrStar(b), MAX_USER), Cut(OrStar(c), MAX_HOST));
    assert "*" + "!" == "*!";
  }

  lemma {:induction false} HostOrNick(a: string)
    requires AllAllowed(a) && a != ""
    ensures '.' in a ==> Created(a, false) == Some("*!*@" + Trimmed(a, MAX_HOST))
    ensures '.' !in a ==> Created(a, false) == Some(Trimmed(a, MAX_NICKLEN) + "!" + "*" + "@" + "*")
  {
    ReadEnd(a, START, false);
    assert "" + a == a;
    assert Cut("*", MAX_NICKLEN) == "*" && Cut("*", MAX_USER) == "*" && Cut("*", MAX_HOST) == "*";
    assert Squeeze("*") == "*";
    hide Squeeze, Read, AllAllowed, Cut;
    if '.' in a {
      SqueezeThree("*", "*", Cut(a, MAX_HOST));
      assert "*" + "!" + "*" + "@" == "*!*@";
    } else {
      SqueezeThree(Cut(a, MAX_NICKLEN), "*", "*");
    }
  }

  lemma {:induction false} KlineParts(b: string, c: string)
    requires AllAllowed(b) && AllAllowed(c) && (b != "" || c != "")
    ensures c != "" || '.' !in b ==>
      Created(b + "@" + c, true) == Some(Trimmed(b, MAX_USER) + "@" + Trimmed(c, MAX_HOST))
    ensures c == "" && '.' in b ==> Created(b + "@" + c, true) == Some("*@" + Trimmed(b, MAX_HOST))
  {
    ReadTwo(b, c);
    assert Cut("*", MAX_USER) == "*" && Squeeze("*") == "*";
    hide Squeeze, Read, AllAllowed, Cut;
    SqueezeThree(Cut(OrStar(b), MAX_USER), Cut(OrStar(c), MAX_HOST), "");
    SqueezeThree("*", Cut(OrStar(b), MAX_HOST), "");
    assert "*" + "@" == "*@";
  }

  /** Nothing comes of a text exactly if it has no allowed character and, unless it is for a
      k-line, no '@' ahead of every '!'. */
  lemma {:induction false} NoMask(s: string, kline: bool)
    ensures Created(s, kline) == None <==>
              (forall i :: 0 <= i < |s| ==> !Allowed(s[i]))
              && (kline || forall i :: 0 <= i < |s| && s[i] == '@' ==> '!' in s[..i])
  {
    NothingRead(s, START, kline);
    hide Squeeze, Read;
  }

  predicate IsEmpty(p: Parts) {
    p.p0 == "" && p.p1 == "" && p.p2 == ""
  }

  lemma {:induction false} NothingRead(s: string, p: Parts, kline: bool)
    ensures IsEmpty(Read(s, p, kline)) <==>
              IsEmpty(p) && NoAllowed(s) && (kline || p.at != 0 || AtsSheltered(s))
  {
    if s != "" {
      NothingRead(s[1..], Step(p, s[0], kline), kline);
      hide Read;
      StepEmpty(p, s[0], kline);
      NoneAllowed(s);
      Sheltered(s);
      hide Allowed, Step;
    }
  }

  predicate NoAllowed(s: string) {
    forall i :: 0 <= i < |s| ==> !Allowed(s[i])
  }

  /** Every '@' has a '!' ahead of it. */
  predicate AtsSheltered(s: string) {
    forall i :: 0 <= i < |s| && s[i] == '@' ==> '!' in s[..i]
  }

  /** What one more character leaves empty. */
  lemma {:induction false} StepEmpty(p: Parts, c: char, kline: bool)
    ensures IsEmpty(Step(p, c, kline)) <==> IsEmpty(p) && !Allowed(c) && (kline || p.at != 0 || c != '@')
    ensures !Allowed(c) && p.at == 0 && !kline ==> (Step(p, c, kline).at == 0 <==> c != '!' && c != '@')
    ensures p.at != 0 ==> Step(p, c, kline).at != 0
  {
  }

  lemma {:induction false} NoneAllowed(s: string)
    requires s != ""
    ensures NoAllowed(s) <==> !Allowed(s[0]) && NoAllowed(s[1..])
  {
    hide Allowed;
    if !Allowed(s[0]) && NoAllowed(s[1..]) {
      forall i | 0 <= i < |s| ensures !Allowed(s[i]) {
        if i > 0 { assert s[i] == s[1..][i - 1]; }
      }
    }
    if NoAllowed(s) {
      forall i | 0 <= i < |s[1..]| ensures !Allowed(s[1..][i]) { assert s[1..][i] == s[i + 1]; }
    }
  }

  lemma {:induction false} Sheltered(s: string)
    requires s != ""
    ensures AtsSheltered(s) <==> s[0] != '@' && (s[0] == '!' || AtsSheltered(s[1..]))
  {
    forall i | 0 < i <= |s| ensures '!' in s[..i] <==> s[0] == '!' || '!' in s[1..][..i - 1] {
      assert s[..i] == [s[0]] + s[1..][..i - 1];
    }
    if s[0] != '@' && (s[0] == '!' || AtsSheltered(s[1..])) {
      forall i | 0 <= i < |s| && s[i] == '@' ensures '!' in s[..i] {
        assert s[i] == s[1..][i - 1];
      }
    }
    if AtsSheltered(s) {
      assert '!' !in s[..0];
      if s[0] != '!' {
        forall i | 0 <= i < |s[1..]| && s[1..][i] == '@' ensures '!' in s[1..][..i] {
          assert s[i + 1] == '@';
        }
      }
    }
  }
}
