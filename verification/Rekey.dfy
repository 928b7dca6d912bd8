/** A decrypting session whose key changes on request. */
module Rekey {
  import opened Ofb

  /** The bytes that have arrived and were not read yet. */
  class Socket {
    var incoming: seq<Byte>

    constructor (incoming: seq<Byte>)
      ensures this.incoming == incoming
    {
      this.incoming := incoming;
    }

    /** Up to n bytes: fewer when fewer have arrived. */
    method Recv(n: nat) returns (val: seq<Byte>)
      modifies this
      ensures val == Front(old(incoming), n) && incoming == old(incoming)[|val|..]
    {
      val := Front(incoming, n);
      incoming := incoming[|val|..];
    }
  }

  function Front(s: seq<Byte>, n: nat): (r: seq<Byte>)
    ensures r <= s && |r| == if n <= |s| then n else |s|
  {
    if n <= |s| then s[..n] else s
  }

  /** The last bytes of a stream: the whole block before the current one, and what there is of the current one. */
  function Tail(stream: seq<Byte>): (r: seq<Byte>)
    ensures |r| == BLOCK + |stream| % BLOCK
  {
    (ZEROS + stream)[|stream| - |stream| % BLOCK..]
  }

  function Xor(a: seq<Byte>, b: seq<Byte>): Block
    requires |a| >= BLOCK && |b| >= BLOCK
  {
    seq(BLOCK, i requires 0 <= i < BLOCK => a[i] ^ b[i])
  }

  function NextKeys(s: Scheme, key: Key, rounds: nat): Key {
    if rounds == 0 then key else s.mac(NextKeys(s, key, rounds - 1), s.session)
  }

  lemma {:induction false} NextKeysAfter(s: Scheme, done: nat, rounds: nat)
    ensures NextKeys(s, KeyAfter(s, done), rounds) == KeyAfter(s, done + rounds)
  {
    if rounds > 0 { NextKeysAfter(s, done, rounds - 1); }
  }

  lemma {:induction false} XorCancels(c: Byte, k: Byte)
    ensures c ^ (c ^ k) == k
  {
  }

  /** At a block boundary the two tails give back the feedback register. */
  lemma {:induction false} TailsGiveRegister(s: Scheme, reqs: seq<Request>, cipher: seq<Byte>)
    requires |cipher| % BLOCK == 0
    ensures Xor(Tail(cipher), Tail(Ideal(s, reqs, cipher))) == Register(s, reqs, |cipher| / BLOCK)
  {
    var plain := Ideal(s, reqs, cipher);
    var j := |cipher| / BLOCK;
    if j == 0 {
      assert cipher == [] && plain == [];
      assert Tail(cipher) == ZEROS && Tail(plain) == ZEROS;
      forall i | 0 <= i < BLOCK ensures ZEROS[i] ^ ZEROS[i] == ZEROS[i] { XorCancels(ZEROS[i], ZEROS[i]); }
    } else {
      hide Register, Ideal, Tail;
      forall i | 0 <= i < BLOCK ensures Tail(cipher)[i] ^ Tail(plain)[i] == Register(s, reqs, j)[i] {
        TailByte(s, reqs, cipher, i);
      }
    }
  }

  lemma {:induction false} TailByte(s: Scheme, reqs: seq<Request>, cipher: seq<Byte>, i: nat)
    requires |cipher| >= BLOCK && |cipher| % BLOCK == 0 && i < BLOCK
    ensures Tail(cipher)[i] ^ Tail(Ideal(s, reqs, cipher))[i] == Register(s, reqs, |cipher| / BLOCK)[i]
  {
    var p := |cipher| - BLOCK + i;
    LastBlock(cipher, i);
    LastBlock(Ideal(s, reqs, cipher), i);
    IdealAt(s, reqs, cipher, p);
    assert p / BLOCK + 1 == |cipher| / BLOCK && p % BLOCK == i;
    hide Ideal, Tail, Register;
    XorCancels(cipher[p], KeyByte(s, reqs, p));
  }

  lemma {:induction false} LastBlock(stream: seq<Byte>, i: nat)
    requires |stream| >= BLOCK && |stream| % BLOCK == 0 && i < BLOCK
    ensures Tail(stream)[i] == stream[|stream| - BLOCK + i]
  {
  }

  /** The bytes of the blocks that n bytes fill. */
  function WholeBlocks(n: nat): (d: nat)
    ensures d <= n
  {
    n - n % BLOCK
  }

  /** How far into its block a stream of n bytes ends. */
  function Phase(n: nat): (p: nat)
    ensures p < BLOCK
  {
    n % BLOCK
  }

  /** Dropping whole blocks from a grown tail leaves the tail of the grown stream. */
  lemma {:induction false} TailGrows(stream: seq<Byte>, more: seq<Byte>)
    ensures var n := |stream| % BLOCK + |more|;
      n % BLOCK == |stream + more| % BLOCK && (Tail(stream) + more)[WholeBlocks(n)..] == Tail(stream + more)
  {
    var n := |stream| % BLOCK + |more|;
    var j := |stream| / BLOCK;
    assert |stream| + |more| == BLOCK * j + n;
    assert (BLOCK * j + n) % BLOCK == n % BLOCK;
    var from := |stream| - |stream| % BLOCK;
    assert Tail(stream) + more == (ZEROS + (stream + more))[from..];
  }

  lemma {:induction false} MadeByLater(reqs: seq<Request>, p: nat, q: nat)
    requires MadeBy(reqs, p) && p <= q
    ensures MadeBy(reqs, q)
  {
  }

  /** No block starts before a pending change of key; otherwise every block to come has the current key. */
  lemma {:induction false} KeyForNext(s: Scheme, reqs: seq<Request>, p: nat, n: nat, rounds: nat, key: Key)
    requires MadeBy(reqs, p) && rounds <= TotalRounds(reqs) && key == KeyAfter(s, TotalRounds(reqs) - rounds)
    requires rounds > 0 ==> Phase(p) > 0 && n <= BLOCK - Phase(p)
    ensures KeyHolds(s, reqs, key, p, p + n)
  {
    forall j: nat | p <= BLOCK * j < p + n ensures BlockKey(s, reqs, j) == key {
      AllRoundsBy(reqs, BLOCK * j);
    }
  }

  // ---------- The fields of a session, and the stream they stand for ----------

  datatype State = State(encryptedTail: seq<Byte>, decryptedTail: seq<Byte>, decryptedBytes: nat, rekeyRounds: nat,
        dccKey: Key, dcc: Context)

  /** What was decrypted so far, what it was decrypted to, and where the peer asked for new keys. */
  datatype History = History(cipher: seq<Byte>, plain: seq<Byte>, reqs: seq<Request>)

  /** The state follows the stream: tails, position and key fit, and the plaintext is the ideal one. */
  ghost predicate Follows(s: Scheme, st: State, h: History) {
    && st.decryptedBytes == |h.cipher| % BLOCK
    && st.encryptedTail == Tail(h.cipher) && st.decryptedTail == Tail(h.plain)
    && h.plain == Ideal(s, h.reqs, h.cipher)
    && MadeBy(h.reqs, |h.cipher|)
    && Stands(s, h.reqs, st.dcc, |h.cipher|)
    && st.dcc.key == st.dccKey
    && st.rekeyRounds <= TotalRounds(h.reqs) && st.dccKey == KeyAfter(s, TotalRounds(h.reqs) - st.rekeyRounds)
  }

  /** And a change of key is pending only in the middle of a block. */
  ghost predicate Tracks(s: Scheme, st: State, h: History) {
    Follows(s, st, h) && (st.rekeyRounds > 0 ==> st.decryptedBytes > 0)
  }

  lemma {:induction false} StartTracks(s: Scheme)
    ensures Tracks(s, State(ZEROS, ZEROS, 0, 0, s.first, NewContext(s.first, ZEROS)), History([], [], []))
  {
  }

  /** The state after `do_decrypt`. */
  function Decrypted(s: Scheme, st: State, val: seq<Byte>): State
    requires st.dcc.used < BLOCK && |st.encryptedTail| == |st.decryptedTail| == BLOCK + st.decryptedBytes
  {
    var r := Decrypt(s, st.dcc, val);
    var n := st.decryptedBytes + |val|;
    st.(encryptedTail := (st.encryptedTail + val)[WholeBlocks(n)..],
        decryptedTail := (st.decryptedTail + r.1)[WholeBlocks(n)..],
        decryptedBytes := n % BLOCK, dcc := r.0)
  }

  function Extended(h: History, val: seq<Byte>, out: seq<Byte>): History {
    h.(cipher := h.cipher + val, plain := h.plain + out)
  }

  /** Decrypting within the current block while a change is pending, and any amount otherwise, follows the stream. */
  lemma {:induction false} DecryptedFollows(s: Scheme, st: State, h: History, val: seq<Byte>)
    requires Follows(s, st, h)
    requires st.rekeyRounds > 0 ==> st.decryptedBytes > 0 && |val| <= BLOCK - st.decryptedBytes
    ensures st.dcc.used < BLOCK && |st.encryptedTail| == |st.decryptedTail| == BLOCK + st.decryptedBytes
    ensures Follows(s, Decrypted(s, st, val), Extended(h, val, Decrypt(s, st.dcc, val).1))
  {
    FollowsParts(s, st, h);
    hide *;
    InBlock(s, h.reqs, st.dcc, |h.cipher|);
    DecryptedTails(s, st, h, val);
    DecryptedStands(s, st, h, val);
    Whole(s, Decrypted(s, st, val), Extended(h, val, Decrypt(s, st.dcc, val).1), st, h, val);
  }

  /** The tails after decrypting are those of the longer streams. */
  lemma {:induction false} DecryptedTails(s: Scheme, st: State, h: History, val: seq<Byte>)
    requires st.dcc.used < BLOCK && |h.plain| == |h.cipher| && st.decryptedBytes == Phase(|h.cipher|)
    requires st.encryptedTail == Tail(h.cipher) && st.decryptedTail == Tail(h.plain)
    ensures |st.encryptedTail| == |st.decryptedTail| == BLOCK + st.decryptedBytes
    ensures var after, out := Decrypted(s, st, val), Decrypt(s, st.dcc, val).1;
            && after.encryptedTail == Tail(h.cipher + val) && after.decryptedTail == Tail(h.plain + out)
            && after.decryptedBytes == Phase(|h.cipher + val|)
  {
    TailsFollow(st.encryptedTail, st.decryptedBytes, h.cipher, val);
    TailsFollow(st.decryptedTail, st.decryptedBytes, h.plain, Decrypt(s, st.dcc, val).1);
    hide *;
    DecryptedParts(s, st, val);
  }

  /** The context after decrypting stands at the end of the longer stream, and what it gave is ideal. */
  lemma {:induction false} DecryptedStands(s: Scheme, st: State, h: History, val: seq<Byte>)
    requires |st.encryptedTail| == |st.decryptedTail| == BLOCK + st.decryptedBytes
    requires st.decryptedBytes == Phase(|h.cipher|)
    requires Stands(s, h.reqs, st.dcc, |h.cipher|) && st.dcc.used < BLOCK && MadeBy(h.reqs, |h.cipher|)
    requires h.plain == Ideal(s, h.reqs, h.cipher) && st.dcc.key == st.dccKey
    requires st.rekeyRounds <= TotalRounds(h.reqs) && st.dccKey == KeyAfter(s, TotalRounds(h.reqs) - st.rekeyRounds)
    requires st.rekeyRounds > 0 ==> st.decryptedBytes > 0 && |val| <= BLOCK - st.decryptedBytes
    ensures var after, out, n := Decrypted(s, st, val), Decrypt(s, st.dcc, val).1, |h.cipher + val|;
            && h.plain + out == Ideal(s, h.reqs, h.cipher + val) && MadeBy(h.reqs, n) && Stands(s, h.reqs, after.dcc, n)
            && after.dcc.key == after.dccKey == st.dccKey && after.rekeyRounds == st.rekeyRounds
  {
    hide *;
    KeyForNext(s, h.reqs, |h.cipher|, |val|, st.rekeyRounds, st.dccKey);
    DecryptIsIdeal(s, h.reqs, st.dcc, h.cipher, val);
    MadeByLater(h.reqs, |h.cipher|, |h.cipher + val|);
    DecryptedParts(s, st, val);
  }

  lemma {:induction false} FollowsParts(s: Scheme, st: State, h: History)
    requires Follows(s, st, h)
    ensures st.decryptedBytes == Phase(|h.cipher|) && |h.plain| == |h.cipher|
    ensures st.encryptedTail == Tail(h.cipher) && st.decryptedTail == Tail(h.plain)
    ensures h.plain == Ideal(s, h.reqs, h.cipher) && MadeBy(h.reqs, |h.cipher|) && Stands(s, h.reqs, st.dcc, |h.cipher|)
    ensures st.dcc.key == st.dccKey
    ensures st.rekeyRounds <= TotalRounds(h.reqs) && st.dccKey == KeyAfter(s, TotalRounds(h.reqs) - st.rekeyRounds)
  {
    hide Ideal, Tail, KeyAfter, TotalRounds, Stands, MadeBy;
  }

  lemma {:induction false} DecryptedParts(s: Scheme, st: State, val: seq<Byte>)
    requires st.dcc.used < BLOCK && |st.encryptedTail| == |st.decryptedTail| == BLOCK + st.decryptedBytes
    ensures var r, n, after := Decrypt(s, st.dcc, val), st.decryptedBytes + |val|, Decrypted(s, st, val);
            && after.encryptedTail == (st.encryptedTail + val)[WholeBlocks(n)..]
            && after.decryptedTail == (st.decryptedTail + r.1)[WholeBlocks(n)..]
            && after.decryptedBytes == Phase(n) && after.dcc == r.0 && r.0.key == st.dcc.key
            && after.dccKey == st.dccKey && after.rekeyRounds == st.rekeyRounds && |r.1| == |val|
  {
    hide Decrypt, WholeBlocks;
  }

  /** The state `after` follows the longer stream, since each of its fields does. */
  lemma {:induction false} Whole(s: Scheme, after: State, later: History, st: State, h: History, val: seq<Byte>)
    requires later.cipher == h.cipher + val && later.reqs == h.reqs
    requires after.decryptedBytes == Phase(|later.cipher|)
    requires after.encryptedTail == Tail(later.cipher) && after.decryptedTail == Tail(later.plain)
    requires later.plain == Ideal(s, h.reqs, later.cipher) && MadeBy(h.reqs, |later.cipher|)
    requires Stands(s, h.reqs, after.dcc, |later.cipher|) && after.dcc.key == after.dccKey == st.dccKey
    requires after.rekeyRounds == st.rekeyRounds
    requires st.rekeyRounds <= TotalRounds(h.reqs) && st.dccKey == KeyAfter(s, TotalRounds(h.reqs) - st.rekeyRounds)
    ensures Follows(s, after, later)
  {
    hide Ideal, Tail, KeyAfter, TotalRounds, Stands, MadeBy;
  }

  lemma {:induction false} TailsFollow(tail: seq<Byte>, n: nat, stream: seq<Byte>, more: seq<Byte>)
    requires tail == Tail(stream) && n == Phase(|stream|)
    ensures |tail| == BLOCK + n
    ensures var m := n + |more|;
      Phase(m) == Phase(|stream + more|) && (tail + more)[WholeBlocks(m)..] == Tail(stream + more)
  {
    TailGrows(stream, more);
  }

  /** The state after `rekey`. */
  function Rekeyed(s: Scheme, st: State, rounds: nat): State
    requires |st.encryptedTail| >= BLOCK && |st.decryptedTail| >= BLOCK
  {
    var key := NextKeys(s, st.dccKey, rounds);
    st.(dccKey := key, dcc := NewContext(key, Xor(st.encryptedTail, st.decryptedTail)))
  }

  /** At a block boundary `rekey` goes on with the feedback register of the stream. */
  lemma {:induction false} RekeyedFollows(s: Scheme, st: State, h: History, rounds: nat, pending: nat)
    requires Follows(s, st, h) && st.decryptedBytes == 0 && st.rekeyRounds == pending + rounds
    ensures |st.encryptedTail| >= BLOCK && |st.decryptedTail| >= BLOCK
    ensures Follows(s, Rekeyed(s, st, rounds).(rekeyRounds := pending), h)
  {
    TailsGiveRegister(s, h.reqs, h.cipher);
    NextKeysAfter(s, TotalRounds(h.reqs) - st.rekeyRounds, rounds);
    hide Ideal, Tail, Register, NextKeys, KeyAfter, TotalRounds, Xor;
  }

  /** Within a block it does not: the new context starts a block of its own. */
  lemma {:induction false} RekeyedInsideBlock(s: Scheme, st: State, h: History, rounds: nat)
    requires |st.encryptedTail| >= BLOCK && |st.decryptedTail| >= BLOCK && |h.cipher| % BLOCK != 0
    ensures !Follows(s, Rekeyed(s, st, rounds).(rekeyRounds := 0), h)
  {
    hide Xor, NextKeys;
  }

  /** A request at the end of the stream is in force from the next block on. */
  lemma {:induction false} RequestFollows(s: Scheme, st: State, h: History, rounds: nat)
    requires Follows(s, st, h) && st.rekeyRounds == 0
    ensures Follows(s, st.(rekeyRounds := rounds), h.(reqs := h.reqs + [Request(|h.cipher|, rounds)]))
  {
    var q := Request(|h.cipher|, rounds);
    IdealOfOneMore(s, h.reqs, q, h.cipher);
    RoundsOfOneMore(h.reqs, q, 0);
    StandsOfOneMore(s, h.reqs, q, st.dcc);
    MadeByOneMore(h.reqs, q);
    hide Ideal, Tail, Register, KeyAfter, TotalRounds, Stands, MadeBy;
  }

  lemma {:induction false} MadeByOneMore(reqs: seq<Request>, q: Request)
    requires MadeBy(reqs, q.pos)
    ensures MadeBy(reqs + [q], q.pos)
  {
  }

  lemma {:induction false} StandsOfOneMore(s: Scheme, reqs: seq<Request>, q: Request, c: Context)
    requires Stands(s, reqs, c, q.pos)
    ensures Stands(s, reqs + [q], c, q.pos)
  {
    var p := q.pos;
    RegisterOfOneMore(s, reqs, q, if p % BLOCK == 0 then p / BLOCK else p / BLOCK + 1);
    hide Register;
  }
}
