/** Output feedback mode (section 6.4 of NIST SP 800-38A) with keys that change. */
module Ofb {

  type Byte = bv8
  type Key = seq<Byte>
  const BLOCK := 8
  type Block = b: seq<Byte> | |b| == BLOCK witness [0, 0, 0, 0, 0, 0, 0, 0]
  const ZEROS: Block := [0, 0, 0, 0, 0, 0, 0, 0]

  /** The block cipher and the message authentication code that makes the next key are host functions. */
  datatype Scheme = Scheme(encrypt: (Key, Block) -> Block, mac: (Key, Key) -> Key, first: Key, session: Key)

  /** At stream position `pos` the peer asked for `rounds` key changes, to take effect at the next block. */
  datatype Request = Request(pos: nat, rounds: nat)

  function KeyAfter(s: Scheme, rounds: nat): Key {
    if rounds == 0 then s.first else s.mac(KeyAfter(s, rounds - 1), s.session)
  }

  /** The rounds asked for at or before position p. */
  function RoundsBy(reqs: seq<Request>, p: nat): nat {
    if reqs == [] then 0
    else RoundsBy(reqs[..|reqs| - 1], p) + if reqs[|reqs| - 1].pos <= p then reqs[|reqs| - 1].rounds else 0
  }

  /** The key of block j: every request made before the block starts is in force. */
  function BlockKey(s: Scheme, reqs: seq<Request>, j: nat): Key {
    KeyAfter(s, RoundsBy(reqs, BLOCK * j))
  }

  /** The feedback register after j blocks; the initialisation vector is zero. */
  function Register(s: Scheme, reqs: seq<Request>, j: nat): Block {
    if j == 0 then ZEROS else s.encrypt(BlockKey(s, reqs, j - 1), Register(s, reqs, j - 1))
  }

  function KeyByte(s: Scheme, reqs: seq<Request>, p: nat): Byte {
    Register(s, reqs, p / BLOCK + 1)[p % BLOCK]
  }

  /** A byte of a stream under a byte of key stream. */
  function Mix(c: Byte, k: Byte): Byte {
    c ^ k
  }

  /** The plaintext: it depends on the ciphertext and on where keys were asked for, and on nothing else. */
  function Ideal(s: Scheme, reqs: seq<Request>, cipher: seq<Byte>): (r: seq<Byte>)
    ensures |r| == |cipher|
  {
    seq(|cipher|, p requires 0 <= p < |cipher| => Mix(cipher[p], KeyByte(s, reqs, p)))
  }

  /** All the rounds asked for. */
  function TotalRounds(reqs: seq<Request>): nat {
    if reqs == [] then 0 else TotalRounds(reqs[..|reqs| - 1]) + reqs[|reqs| - 1].rounds
  }

  ghost predicate MadeBy(reqs: seq<Request>, p: nat) {
    forall i :: 0 <= i < |reqs| ==> reqs[i].pos <= p
  }

  lemma {:induction false} AllRoundsBy(reqs: seq<Request>, p: nat)
    requires MadeBy(reqs, p)
    ensures RoundsBy(reqs, p) == TotalRounds(reqs)
    decreases |reqs|
  {
    if reqs != [] { AllRoundsBy(reqs[..|reqs| - 1], p); }
  }

  lemma {:induction false} RoundsOfOneMore(reqs: seq<Request>, q: Request, p: nat)
    ensures RoundsBy(reqs + [q], p) == RoundsBy(reqs, p) + if q.pos <= p then q.rounds else 0
    ensures TotalRounds(reqs + [q]) == TotalRounds(reqs) + q.rounds
  {
    assert (reqs + [q])[..|reqs|] == reqs;
  }

  /** A request counts for every block that starts at its position or behind it, and for no other. */
  lemma {:induction false} RequestInForce(s: Scheme, reqs: seq<Request>, pos: nat, rounds: nat, j: nat)
    requires MadeBy(reqs, pos)
    ensures BlockKey(s, reqs + [Request(pos, rounds)], j)
         == if pos <= 8 * j then KeyAfter(s, TotalRounds(reqs) + rounds) else BlockKey(s, reqs, j)
  {
    RoundsOfOneMore(reqs, Request(pos, rounds), BLOCK * j);
    if pos <= BLOCK * j { MoreRoundsBy(reqs, pos, BLOCK * j); }
    hide RoundsBy, TotalRounds, KeyAfter;
  }

  lemma {:induction false} MoreRoundsBy(reqs: seq<Request>, pos: nat, p: nat)
    requires MadeBy(reqs, pos) && pos <= p
    ensures RoundsBy(reqs, p) == TotalRounds(reqs)
  {
    assert MadeBy(reqs, p);
    AllRoundsBy(reqs, p);
  }

  /** A request at position q leaves the register of every block alone that started before it. */
  lemma {:induction false} RegisterOfOneMore(s: Scheme, reqs: seq<Request>, q: Request, j: nat)
    requires j > 0 ==> BLOCK * (j - 1) < q.pos
    ensures Register(s, reqs + [q], j) == Register(s, reqs, j)
  {
    if j > 0 {
      RoundsOfOneMore(reqs, q, BLOCK * (j - 1));
      RegisterOfOneMore(s, reqs, q, j - 1);
    }
  }

  /** A request made at the end of the stream does not change what was decrypted before it. */
  lemma {:induction false} IdealOfOneMore(s: Scheme, reqs: seq<Request>, q: Request, cipher: seq<Byte>)
    requires q.pos >= |cipher|
    ensures Ideal(s, reqs + [q], cipher) == Ideal(s, reqs, cipher)
  {
    forall p | 0 <= p < |cipher| ensures KeyByte(s, reqs + [q], p) == KeyByte(s, reqs, p) {
      assert BLOCK * (p / BLOCK) <= p;
      RegisterOfOneMore(s, reqs, q, p / BLOCK + 1);
    }
  }

  lemma {:induction false} IdealPrefix(s: Scheme, reqs: seq<Request>, cipher: seq<Byte>, more: seq<Byte>)
    ensures Ideal(s, reqs, cipher + more)[..|cipher|] == Ideal(s, reqs, cipher)
  {
  }

  // ---------- One decryption context ----------

  /** A context in OFB mode: the register is encrypted when the first byte of a block comes. */
  datatype Context = Context(key: Key, register: Block, used: nat)

  function NewContext(key: Key, iv: Block): Context {
    Context(key, iv, 0)
  }

  function Advance(s: Scheme, c: Context): (r: Context)
    requires c.used < BLOCK
    ensures r.key == c.key && r.used < BLOCK
  {
    Context(c.key, if c.used == 0 then s.encrypt(c.key, c.register) else c.register, (c.used + 1) % BLOCK)
  }

  /** The byte of key stream that comes next. */
  function NextByte(s: Scheme, c: Context): Byte
    requires c.used < BLOCK
  {
    Advance(s, c).register[c.used]
  }

  function Decrypt(s: Scheme, c: Context, val: seq<Byte>): (r: (Context, seq<Byte>))
    requires c.used < BLOCK
    ensures r.0.used < BLOCK && r.0.key == c.key && |r.1| == |val|
    decreases |val|
  {
    if val == [] then (c, [])
    else
      var r := Decrypt(s, Advance(s, c), val[1..]);
      (r.0, [Mix(val[0], NextByte(s, c))] + r.1)
  }

  /** The context stands at position p of the stream. */
  ghost predicate Stands(s: Scheme, reqs: seq<Request>, c: Context, p: nat) {
    && c.used == p % BLOCK
    && c.register == Register(s, reqs, if p % BLOCK == 0 then p / BLOCK else p / BLOCK + 1)
  }

  /** Every block that starts at position p or later, and before position q, has the key of the context. */
  ghost predicate KeyHolds(s: Scheme, reqs: seq<Request>, key: Key, p: nat, q: nat) {
    forall j: nat :: p <= BLOCK * j < q ==> BlockKey(s, reqs, j) == key
  }

  lemma {:induction false} AdvanceStands(s: Scheme, reqs: seq<Request>, c: Context, p: nat)
    requires Stands(s, reqs, c, p) && KeyHolds(s, reqs, c.key, p, p + 1)
    ensures Stands(s, reqs, Advance(s, c), p + 1) && NextByte(s, c) == KeyByte(s, reqs, p)
  {
    hide BlockKey;
    if p % BLOCK == 0 {
      assert BLOCK * (p / BLOCK) == p;
      assert BlockKey(s, reqs, p / BLOCK) == c.key;
    }
    if p % BLOCK == BLOCK - 1 {
      assert (p + 1) % BLOCK == 0 && (p + 1) / BLOCK == p / BLOCK + 1;
    } else {
      assert (p + 1) % BLOCK == p % BLOCK + 1 && (p + 1) / BLOCK == p / BLOCK;
    }
  }

  lemma {:induction false} IdealSnoc(s: Scheme, reqs: seq<Request>, before: seq<Byte>, b: Byte)
    ensures Ideal(s, reqs, before + [b]) == Ideal(s, reqs, before) + [Mix(b, KeyByte(s, reqs, |before|))]
  {
    hide KeyByte, Mix;
    var longer, n := before + [b], |before|;
    var left, right := Ideal(s, reqs, longer), Ideal(s, reqs, before) + [Mix(b, KeyByte(s, reqs, n))];
    assert |left| == n + 1 == |right|;
    assert left[n] == right[n] by { IdealAt(s, reqs, longer, n); }
    forall p | 0 <= p < n ensures left[p] == right[p] {
      IdealAt(s, reqs, longer, p);
      IdealAt(s, reqs, before, p);
    }
  }

  lemma {:induction false} IdealAt(s: Scheme, reqs: seq<Request>, cipher: seq<Byte>, p: nat)
    requires p < |cipher|
    ensures Ideal(s, reqs, cipher)[p] == Mix(cipher[p], KeyByte(s, reqs, p))
  {
    hide KeyByte, Mix;
  }

  function Out(s: Scheme, c: Context, b: Byte): Byte
    requires c.used < BLOCK
  {
    Mix(b, NextByte(s, c))
  }

  lemma {:induction false} DecryptUnfold(s: Scheme, c: Context, val: seq<Byte>)
    requires c.used < BLOCK && val != []
    ensures var r := Decrypt(s, Advance(s, c), val[1..]);
      Decrypt(s, c, val).0 == r.0 && Decrypt(s, c, val).1 == [Out(s, c, val[0])] + r.1
  {
    hide Advance, NextByte, Mix;
  }

  lemma {:induction false} IdealStep(s: Scheme, reqs: seq<Request>, c: Context, before: seq<Byte>, b: Byte)
    requires Stands(s, reqs, c, |before|) && KeyHolds(s, reqs, c.key, |before|, |before| + 1)
    ensures Stands(s, reqs, Advance(s, c), |before| + 1)
    ensures Ideal(s, reqs, before + [b]) == Ideal(s, reqs, before) + [Out(s, c, b)]
  {
    AdvanceStands(s, reqs, c, |before|);
    IdealSnoc(s, reqs, before, b);
    hide Ideal, Stands, Advance, NextByte, KeyByte, Mix;
  }

  /** Decrypting from position p gives the bytes of the ideal plaintext from there on. */
  lemma {:induction false} DecryptIsIdeal(s: Scheme, reqs: seq<Request>, c: Context, before: seq<Byte>, val: seq<Byte>)
    requires Stands(s, reqs, c, |before|) && KeyHolds(s, reqs, c.key, |before|, |before| + |val|)
    ensures var r := Decrypt(s, c, val);
      && Stands(s, reqs, r.0, |before| + |val|)
      && Ideal(s, reqs, before + val) == Ideal(s, reqs, before) + r.1
    decreases |val|
  {
    if val == [] {
      DecryptNothing(s, reqs, c, before);
    } else {
      IdealStep(s, reqs, c, before, val[0]) by { FirstKeyHolds(s, reqs, c.key, |before|, |val|); }
      DecryptUnfold(s, c, val) by { InBlock(s, reqs, c, |before|); }
      hide *;
      var longer := before + [val[0]];
      KeyHoldsLater(s, reqs, c.key, |before|, |before| + |val|);
      DecryptIsIdeal(s, reqs, Advance(s, c), longer, val[1..]);
      var r := Decrypt(s, Advance(s, c), val[1..]);
      Rejoin(before, val, Ideal(s, reqs, before), Out(s, c, val[0]), r.1);
    }
  }

  lemma {:induction false} Rejoin(before: seq<Byte>, val: seq<Byte>, i: seq<Byte>, b: Byte, rest: seq<Byte>)
    requires val != []
    ensures before + [val[0]] + val[1..] == before + val && i + [b] + rest == i + ([b] + rest)
  {
  }

  lemma {:induction false} DecryptNothing(s: Scheme, reqs: seq<Request>, c: Context, before: seq<Byte>)
    requires Stands(s, reqs, c, |before|)
    ensures c.used < BLOCK && Decrypt(s, c, []) == (c, []) && before + [] == before
    ensures Ideal(s, reqs, before) + [] == Ideal(s, reqs, before)
  {
    hide Ideal, Register;
  }

  lemma {:induction false} InBlock(s: Scheme, reqs: seq<Request>, c: Context, p: nat)
    requires Stands(s, reqs, c, p)
    ensures c.used < BLOCK
  {
    hide Register;
  }

  lemma {:induction false} FirstKeyHolds(s: Scheme, reqs: seq<Request>, key: Key, p: nat, n: nat)
    requires n > 0 && KeyHolds(s, reqs, key, p, p + n)
    ensures KeyHolds(s, reqs, key, p, p + 1)
  {
    hide BlockKey;
  }

  lemma {:induction false} KeyHoldsLater(s: Scheme, reqs: seq<Request>, key: Key, p: nat, q: nat)
    requires KeyHolds(s, reqs, key, p, q)
    ensures KeyHolds(s, reqs, key, p + 1, q)
  {
  }
}
