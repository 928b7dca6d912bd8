/** The Hotline client session, which reads and decrypts its stream. */
module HotlineSession {
  import opened Ofb
  import opened Rekey

  class Session {
    const scheme: Scheme
    var encryptedTail: seq<Byte>
    var decryptedTail: seq<Byte>
    var decryptedBytes: nat
    var rekeyRounds: nat
    var dccKey: Key
    var dcc: Context
    ghost var history: History

    ghost function Fields(): State
      reads this
    {
      State(encryptedTail, decryptedTail, decryptedBytes, rekeyRounds, dccKey, dcc)
    }

    /** The plaintext so far is the ideal one, and the fields stand at the end of the stream. */
    ghost predicate Valid()
      reads this
    {
      Tracks(scheme, Fields(), history)
    }

    /** The plaintext so far is the ideal one; but the place in the stream may be lost. */
    ghost predicate Sound()
      reads this
    {
      Usable() && history.plain == Ideal(scheme, history.reqs, history.cipher)
    }

    /** The place in the stream is not lost, or there is nothing left of the stream. */
    ghost predicate Ready(sock: Socket)
      reads this, sock
    {
      Sound() && (Valid() || sock.incoming == [])
    }

    predicate Usable()
      reads this
    {
      dcc.used < BLOCK && |encryptedTail| == |decryptedTail| == BLOCK + decryptedBytes && decryptedBytes < BLOCK
    }

    constructor (scheme: Scheme)
      ensures Valid() && this.scheme == scheme && history == History([], [], [])
    {
      this.scheme := scheme;
      encryptedTail, decryptedTail, decryptedBytes, rekeyRounds := ZEROS, ZEROS, 0, 0;
      dccKey, dcc := scheme.first, NewContext(scheme.first, ZEROS);
      history := History([], [], []);
      new;
      StartTracks(scheme);
    }

    /** The loop of `do_decrypt`: drop whole blocks. */
    method TrimTails()
      requires |encryptedTail| == |decryptedTail| == BLOCK + decryptedBytes
      modifies `decryptedBytes, `encryptedTail, `decryptedTail
      ensures decryptedBytes == old(decryptedBytes) % BLOCK
      ensures encryptedTail == old(encryptedTail)[old(decryptedBytes) - decryptedBytes..]
      ensures decryptedTail == old(decryptedTail)[old(decryptedBytes) - decryptedBytes..]
    {
      ghost var n := decryptedBytes;
      while decryptedBytes >= BLOCK
        invariant decryptedBytes % BLOCK == n % BLOCK && decryptedBytes <= n
        invariant encryptedTail == old(encryptedTail)[n - decryptedBytes..]
        invariant decryptedTail == old(decryptedTail)[n - decryptedBytes..]
      {
        DropMore(old(encryptedTail), n - decryptedBytes, BLOCK);
        DropMore(old(decryptedTail), n - decryptedBytes, BLOCK);
        decryptedBytes := decryptedBytes - BLOCK;
        encryptedTail := encryptedTail[BLOCK..];
        decryptedTail := decryptedTail[BLOCK..];
      }
    }

    /** `do_decrypt`. */
    method DoDecrypt(val: seq<Byte>) returns (out: seq<Byte>)
      requires Usable()
      modifies this
      ensures Fields() == Decrypted(scheme, old(Fields()), val)
      ensures out == Decrypt(scheme, old(dcc), val).1
      ensures history == Extended(old(history), val, out)
    {
      hide Decrypt, Decrypted, Extended;
      ghost var st := Fields();
      if val == [] {
        NothingDecrypted(scheme, st, history);
        return val;
      }
      encryptedTail := encryptedTail + val;
      var r := Decrypt(scheme, dcc, val);
      dcc, out := r.0, r.1;
      decryptedTail := decryptedTail + out;
      decryptedBytes := decryptedBytes + |val|;
      TrimTails();
      history := Extended(history, val, out);
      TrimmedFields(scheme, st, val, decryptedBytes, encryptedTail, decryptedTail);
    }

    /** `derive_old_key`. */
    method DeriveOldKey() returns (oldiv: Block)
      requires |encryptedTail| >= BLOCK && |decryptedTail| >= BLOCK
      ensures oldiv == Xor(encryptedTail, decryptedTail)
    {
      var iv: seq<Byte> := [];
      for i := 0 to BLOCK
        invariant |iv| == i && forall k :: 0 <= k < i ==> iv[k] == encryptedTail[k] ^ decryptedTail[k]
      {
        iv := iv + [encryptedTail[i] ^ decryptedTail[i]];
      }
      oldiv := iv;
    }

    /** `rekey`: a new context under the next key, that starts from what the tails give. */
    method NewKey(rounds: nat)
      requires |encryptedTail| >= BLOCK && |decryptedTail| >= BLOCK
      modifies `dccKey, `dcc
      ensures Fields() == Rekeyed(scheme, old(Fields()), rounds)
    {
      var oldiv := DeriveOldKey();
      for i := 0 to rounds
        invariant dccKey == NextKeys(scheme, old(dccKey), i)
      {
        dccKey := scheme.mac(dccKey, scheme.session);
      }
      dcc := NewContext(dccKey, oldiv);
    }

    /** The first half of `readsock_bytes`, when a pending change of key fires: what completes the
        block is decrypted under the old key. If less than that has arrived, the place in the
        stream is lost. */
    method FinishBlock(sock: Socket) returns (val: seq<Byte>)
      requires Usable() && rekeyRounds > 0
      modifies this, sock
      ensures Took(old(sock.incoming), old(history), BLOCK - old(decryptedBytes), sock.incoming, history, val)
      ensures Usable() && rekeyRounds == 0 && (old(Ready(sock)) ==> Sound())
      ensures Fields() == Fired(scheme, old(Fields()), Front(old(sock.incoming), BLOCK - old(decryptedBytes)))
      ensures old(Valid()) ==> (Valid() <==> |old(sock.incoming)| >= BLOCK - old(decryptedBytes))
    {
      hide Decrypt, Decrypted, Rekeyed, Fired, Tracks, Sound, Ideal, Front, Extended, UsableState;
      ghost var st, h, in0, live, ready := Fields(), history, sock.incoming, Valid(), Ready(sock);
      if ready { IsReady(this, sock); }
      FieldsUsable(this);
      InsideBlock(this);
      var val1 := sock.Recv(BLOCK - decryptedBytes);
      val := DoDecrypt(val1);
      FiredIs(scheme, st, val1);
      NewKey(rekeyRounds);
      rekeyRounds := 0;
      TookFirst(in0, h, BLOCK - st.decryptedBytes, val1, val);
      FieldsUsable(this);
      if live || ready { FinishedBlock(this, st, h, val1, live); }
    }

    /** A read that completes the block in which a change of key is pending. */
    predicate Fires(size: nat)
      reads this
    {
      rekeyRounds > 0 && size >= BLOCK - decryptedBytes
    }

    /** The second half of `readsock_bytes`. */
    method ReadMore(sock: Socket, size: nat) returns (val: seq<Byte>)
      requires Usable()
      modifies this, sock
      ensures Took(old(sock.incoming), old(history), size, sock.incoming, history, val)
      ensures rekeyRounds == old(rekeyRounds) && Usable()
      ensures val == Decrypt(scheme, old(dcc), Front(old(sock.incoming), size)).1
      ensures old(Valid()) && (rekeyRounds > 0 ==> size < BLOCK - old(decryptedBytes)) ==> Valid()
      ensures old(sock.incoming) == [] ==> Fields() == old(Fields()) && history == old(history)
    {
      ghost var st, h := Fields(), history;
      if Tracks(scheme, st, h) && (rekeyRounds > 0 ==> size < BLOCK - decryptedBytes) {
        ReadFollows(scheme, st, h, Front(sock.incoming, size));
      }
      NothingDecrypted(scheme, st, h);
      DecryptedUsable(scheme, st, Front(sock.incoming, size));
      hide Decrypt, Decrypted, Tracks;
      val := sock.Recv(size);
      val := DoDecrypt(val);
    }

    /** `readsock_bytes`. When a pending change of key fires and the rest of the block has not arrived,
        the session loses its place in the stream; in every other case the bytes are decrypted as
        the ideal stream has it. */
    method ReadsockBytes(sock: Socket, size: nat) returns (val: seq<Byte>)
      requires Usable()
      modifies this, sock
      ensures Usable() && Took(old(sock.incoming), old(history), size, sock.incoming, history, val)
      ensures old(Ready(sock)) ==> Ready(sock)
      ensures old(Valid()) ==> (Valid() <==> (old(Fires(size)) ==> |old(sock.incoming)| >= BLOCK - old(decryptedBytes)))
      ensures old(Valid()) && Valid() ==> rekeyRounds == if old(Fires(size)) then 0 else old(rekeyRounds)
      ensures old(Fires(size)) && |old(sock.incoming)| < BLOCK - old(decryptedBytes) ==>
        rekeyRounds == 0 && Fields() == Fired(scheme, old(Fields()), old(sock.incoming))
      ensures !old(Fires(size)) ==> val == Decrypt(scheme, old(dcc), Front(old(sock.incoming), size)).1
    {
      ghost var in0, h0, ready, live := sock.incoming, history, Ready(sock), Valid();
      if Fires(size) {
        var want := BLOCK - decryptedBytes;
        hide Tracks, Took, Sound, Usable, Ideal, Decrypt, Fired;
        if ready { IsReady(this, sock); }
        var val1 := FinishBlock(sock);
        ghost var in1, h1 := sock.incoming, history;
        TookLess(in0, h0, want, in1, h1, val1);
        if ready { IsSound(this); }
        var val2 := ReadMore(sock, size - want);
        val := val1 + val2;
        TookBoth(in0, h0, want, in1, h1, val1, size, sock.incoming, history, val2);
      } else {
        hide Tracks, Took, Sound, Usable, Ideal, Decrypt, Fired;
        if ready { IsReady(this, sock); }
        val := ReadMore(sock, size);
      }
      TookLess(in0, h0, size, sock.incoming, history, val);
      if ready { StillSound(this); }
    }

    /** One more read: `sofar` and val are what was read since in0. */
    method ReadNext(
      sock: Socket, size: nat, ghost in0: seq<Byte>, ghost h0: History, ghost read: nat, ghost sofar: seq<Byte>)
      returns (val: seq<Byte>)
      requires Ready(sock) && Took(in0, h0, read, sock.incoming, history, sofar)
      modifies this, sock
      ensures Ready(sock) && Took(in0, h0, read + size, sock.incoming, history, sofar + val)
      ensures history.reqs == old(history.reqs)
      ensures old(Valid()) && read + size <= |in0| ==>
        Valid() && (rekeyRounds > 0 ==> old(rekeyRounds) > 0 && decryptedBytes == old(decryptedBytes) + size < BLOCK)
    {
      hide *;
      ghost var in1, h1, live := sock.incoming, history, Valid();
      ghost var fires, rounds, bytes := Fires(size), rekeyRounds, decryptedBytes;
      IsReady(this, sock);
      FiresIs(this, size);
      if live { PositionHere(this); }
      if read + size <= |in0| { EnoughLeft(in0, h0, read, in1, h1, sofar, size); }
      val := ReadsockBytes(sock, size);
      TookBoth(in0, h0, read, in1, h1, sofar, read + size, sock.incoming, history, val);
      TookLess(in1, h1, size, sock.incoming, history, val);
      if live && read + size <= |in0| {
        TookSize(in1, h1, size, sock.incoming, history, val);
        if rekeyRounds > 0 { PositionThere(this, |h1.cipher|, size, bytes); }
      }
    }

    /** The first i fields of a header that began n0 bytes into a block were read, without losing the place. */
    ghost predicate InHeader(n0: nat, i: nat)
      requires i <= |FIELDS|
      reads this
    {
      Valid() && (rekeyRounds > 0 ==> decryptedBytes == n0 + FieldStart(i) < BLOCK)
    }

    /** The header of a message, field by field. No change of key is pending behind it, since it is
        longer than a block. */
    method ReadHeader(sock: Socket) returns (hdr: seq<Byte>)
      requires Ready(sock)
      modifies this, sock
      ensures Ready(sock) && history.reqs == old(history.reqs)
      ensures Took(old(sock.incoming), old(history), HEADER, sock.incoming, history, hdr)
      ensures old(Valid()) && HEADER <= |old(sock.incoming)| ==> Valid() && rekeyRounds == 0
    {
      hide *;
      ghost var in0, h0, n0 := sock.incoming, history, decryptedBytes;
      ghost var whole := Valid() && HEADER <= |in0|;
      hdr := [];
      var i := 0;
      TookNothing(in0, h0);
      FieldEnds();
      if whole { HeaderBegins(this, sock); }
      while i < |FIELDS|
        invariant 0 <= i <= |FIELDS| && Ready(sock) && history.reqs == h0.reqs
        invariant Took(in0, h0, FieldStart(i), sock.incoming, history, hdr)
        invariant whole ==> InHeader(n0, i)
      {
        var val := ReadField(sock, i, in0, h0, n0, whole, hdr);
        hdr := hdr + val;
        i := i + 1;
      }
      if whole { HeaderEnds(this, n0); }
    }

    /** Field i of a header of which the fields before it were read. */
    method ReadField(sock: Socket, i: nat, ghost in0: seq<Byte>, ghost h0: History, ghost n0: nat, ghost whole: bool,
                     ghost hdr: seq<Byte>)
      returns (val: seq<Byte>)
      requires Ready(sock) && i < |FIELDS| && Took(in0, h0, FieldStart(i), sock.incoming, history, hdr)
      requires whole ==> HEADER <= |in0| && InHeader(n0, i)
      modifies this, sock
      ensures Ready(sock) && history.reqs == old(history.reqs)
      ensures Took(in0, h0, FieldStart(i + 1), sock.incoming, history, hdr + val)
      ensures whole ==> InHeader(n0, i + 1)
    {
      FieldNext(i);
      hide Tracks, Took, FieldStart, FIELDS, Sound;
      val := ReadNext(sock, FIELDS[i], in0, h0, FieldStart(i), hdr);
    }

    /** The decision of `read_msg`: a new key at once on a block boundary, else from the next one on. A header that was
        cut short ends ahead of the place from which the request counts. */
    method RequestKeys(flags: nat, ghost at: nat)
      requires Sound() && at >= |history.cipher| && (Valid() && at == |history.cipher| ==> rekeyRounds == 0)
      modifies this
      ensures Sound()
      ensures history == old(history).(reqs := WithRequest(old(history.reqs), at, flags))
      ensures old(Valid()) && at == |old(history.cipher)| ==>
        Valid() && rekeyRounds == (if decryptedBytes == 0 then 0 else flags) && decryptedBytes == old(decryptedBytes)
    {
      if flags != 0 {
        ghost var st, h, live := Fields(), history, Valid() && at == |history.cipher|;
        IdealOfOneMore(scheme, history.reqs, Request(at, flags), history.cipher);
        if live { RequestFollows(scheme, st, h, flags); }
        history := history.(reqs := history.reqs + [Request(at, flags)]);
        if decryptedBytes == 0 {
          if live { RekeyedFollows(scheme, st.(rekeyRounds := flags), history, flags, 0); }
          RekeyedUsable(scheme, st, flags);
          hide Follows, Rekeyed, Ideal;
          NewKey(flags);
        } else {
          rekeyRounds := flags;
        }
      }
    }

    /** The parameters of a message, which are read in pieces of any sizes. */
    method ReadBody(
      sock: Socket, body: seq<nat>, ghost in0: seq<Byte>, ghost h0: History, hdr: seq<Byte>) returns (msg: seq<Byte>)
      requires Ready(sock) && Took(in0, h0, HEADER, sock.incoming, history, hdr)
      modifies this, sock
      ensures Ready(sock) && hdr <= msg && history.reqs == old(history.reqs)
      ensures Took(in0, h0, HEADER + Sum(body), sock.incoming, history, msg)
      ensures old(Valid()) && HEADER + Sum(body) <= |in0| ==> Valid()
    {
      hide Tracks, Took, Sum, Sound;
      ghost var live := Valid() && HEADER + Sum(body) <= |in0|;
      msg := hdr;
      var i := 0;
      SumOfNone(body);
      while i < |body|
        invariant 0 <= i <= |body| && Ready(sock) && history.reqs == old(history.reqs)
        invariant Took(in0, h0, HEADER + Sum(body[..i]), sock.incoming, history, msg)
        invariant hdr <= msg && (live ==> Valid())
      {
        SumOfOneMore(body, i);
        var val := ReadNext(sock, body[i], in0, h0, HEADER + Sum(body[..i]), msg);
        PrefixKept(hdr, msg, val);
        msg := msg + val;
        i := i + 1;
      }
      assert body[..i] == body;
    }

    /** The first part of `read_msg`: the header, and the decision about new keys. */
    method ReadRequest(sock: Socket) returns (hdr: seq<Byte>)
      requires Ready(sock)
      modifies this, sock
      ensures Ready(sock) && (hdr == [] ==> old(sock.incoming) == [])
      ensures Took(old(sock.incoming), old(history).(reqs := history.reqs), HEADER, sock.incoming, history, hdr)
      ensures history.reqs == WithRequest(old(history.reqs), |old(history.cipher)| + HEADER, HeaderFlags(hdr))
      ensures old(Valid()) && HEADER <= |old(sock.incoming)| ==> Valid()
    {
      hide *;
      ghost var in0, h0 := sock.incoming, history;
      IsReady(this, sock);
      hdr := ReadHeader(sock);
      TookLess(in0, h0, HEADER, sock.incoming, history, hdr);
      HeaderLength();
      ghost var h := history;
      IsReady(this, sock);
      RequestKeys(HeaderFlags(hdr), |h0.cipher| + HEADER);
      OtherRequests(in0, h0, HEADER, sock.incoming, h, hdr, history.reqs);
      BecomesReady(this, sock);
    }

    /** `read_msg`: the header, the decision about new keys, and the parameters. */
    method ReadMsg(sock: Socket, body: seq<nat>) returns (msg: seq<Byte>)
      requires Ready(sock)
      modifies this, sock
      ensures Ready(sock)
      ensures Took(old(sock.incoming), old(history).(reqs := history.reqs), HEADER + Sum(body),
                   sock.incoming, history, msg)
      ensures history.reqs == Requested(old(history.reqs), |old(history.cipher)|, msg)
      ensures if msg == [] || msg[0] == 0 then history.reqs == old(history.reqs)
              else history.reqs == old(history.reqs) + [Request(|old(history.cipher)| + 22, msg[0] as nat)]
      ensures old(Valid()) && HEADER + Sum(body) <= |old(sock.incoming)| ==> Valid()
    {
      hide *;
      ghost var in0, h0 := sock.incoming, history;
      var hdr := ReadRequest(sock);
      ghost var h1 := h0.(reqs := history.reqs);
      msg := ReadBody(sock, body, in0, h1, hdr);
      MessageRequests(h0.reqs, |h0.cipher|, in0, h1, hdr, msg, HEADER + Sum(body), sock.incoming, history);
      RequestedMeaning(h0.reqs, |h0.cipher|, msg);
    }
  }

  /** The value of a one-byte field. */
  function Flags(b: Byte): nat {
    b as nat
  }

  /** The flags of a header; where nothing was received the script decodes zero. */
  function HeaderFlags(hdr: seq<Byte>): nat {
    if hdr == [] then 0 else Flags(hdr[0])
  }

  lemma {:induction false} DropMore(s: seq<Byte>, m: nat, n: nat)
    requires m + n <= |s|
    ensures s[m..][n..] == s[m + n..]
  {
  }

  lemma {:induction false} TookNothing(in0: seq<Byte>, h0: History)
    ensures Took(in0, h0, 0, in0, h0, [])
  {
  }

  lemma {:induction false} TookSize(in0: seq<Byte>, h0: History, n: nat, in1: seq<Byte>, h1: History, val: seq<Byte>)
    requires Took(in0, h0, n, in1, h1, val) && n <= |in0|
    ensures |val| == n && |h1.cipher| == |h0.cipher| + n && h1.reqs == h0.reqs
  {
  }

  /** As much as there was. */
  lemma {:induction false} TookLess(in0: seq<Byte>, h0: History, n: nat, in1: seq<Byte>, h1: History, val: seq<Byte>)
    requires Took(in0, h0, n, in1, h1, val)
    ensures |in0| <= n ==> in1 == []
    ensures |h1.cipher| == |h0.cipher| + (if n <= |in0| then n else |in0|) && h1.reqs == h0.reqs
    ensures in0 == [] ==> val == [] && h1 == h0
    ensures val == [] && n > 0 ==> in0 == []
  {
    if in0 == [] { assert h0.cipher + [] == h0.cipher && h0.plain + [] == h0.plain; }
  }

  lemma {:induction false} OtherRequests(
    in0: seq<Byte>, h0: History, n: nat, in1: seq<Byte>, h1: History, val: seq<Byte>, reqs: seq<Request>)
    requires Took(in0, h0, n, in1, h1, val)
    ensures Took(in0, h0.(reqs := reqs), n, in1, h1.(reqs := reqs), val)
  {
  }

  lemma {:induction false} MessageRequests(reqs: seq<Request>, start: nat, in0: seq<Byte>, h0: History, hdr: seq<Byte>,
                                           msg: seq<Byte>, n: nat, in1: seq<Byte>, h1: History)
    requires Took(in0, h0, n, in1, h1, msg) && hdr <= msg && (hdr == [] ==> in0 == [])
    ensures WithRequest(reqs, start + HEADER, HeaderFlags(hdr)) == Requested(reqs, start, msg)
  {
    TookLess(in0, h0, n, in1, h1, msg);
    hide Took, Flags;
  }

  lemma {:induction false} IsReady(session: Session, sock: Socket)
    requires session.Ready(sock)
    ensures session.Sound() && session.Usable() && UsableState(session.Fields())
    ensures session.history.plain == Ideal(session.scheme, session.history.reqs, session.history.cipher)
    ensures session.Valid() || sock.incoming == []
    ensures session.Valid() ==> Tracks(session.scheme, session.Fields(), session.history)
  {
    hide Ideal, Tracks;
  }

  lemma {:induction false} FieldsUsable(session: Session)
    ensures session.Usable() <==> UsableState(session.Fields())
  {
  }

  lemma {:induction false} InsideBlock(session: Session)
    requires session.Usable()
    ensures session.decryptedBytes < BLOCK
  {
  }

  lemma {:induction false} HeaderBegins(session: Session, sock: Socket)
    requires session.Ready(sock) && session.Valid()
    ensures session.InHeader(session.decryptedBytes, 0)
  {
    hide Ideal, Tracks;
  }

  lemma {:induction false} HeaderEnds(session: Session, n0: nat)
    requires session.InHeader(n0, |FIELDS|)
    ensures session.Valid() && session.rekeyRounds == 0
  {
    hide Tracks;
  }

  lemma {:induction false} IsSound(session: Session)
    requires session.Sound()
    ensures session.Usable()
    ensures session.history.plain == Ideal(session.scheme, session.history.reqs, session.history.cipher)
  {
    hide Ideal;
  }

  lemma {:induction false} BecomesReady(session: Session, sock: Socket)
    requires session.Sound() && (session.Valid() || sock.incoming == [])
    ensures session.Ready(sock)
  {
  }

  lemma {:induction false} StillSound(session: Session)
    requires session.Usable()
    requires session.Valid()
          || session.history.plain == Ideal(session.scheme, session.history.reqs, session.history.cipher)
    ensures session.Sound()
  {
    hide Ideal;
  }

  lemma {:induction false} EnoughLeft(
    in0: seq<Byte>, h0: History, n: nat, in1: seq<Byte>, h1: History, val: seq<Byte>, more: nat)
    requires Took(in0, h0, n, in1, h1, val) && n + more <= |in0|
    ensures |in1| >= more
  {
  }

  // The fields of a message header: flags, reply, type, id, error, total size, data size, count of parameters.
  const FIELDS: seq<nat> := [1, 1, 2, 4, 4, 4, 4, 2]
  const HEADER: nat := 22

  function FieldStart(i: nat): (p: nat)
    requires i <= |FIELDS|
    ensures i < |FIELDS| ==> p + FIELDS[i] <= HEADER
    ensures i == |FIELDS| ==> p == HEADER
  {
    if i == 0 then 0 else if i == 1 then 1 else if i == 2 then 2 else if i == 3 then 4
    else if i == 4 then 8 else if i == 5 then 12 else if i == 6 then 16 else if i == 7 then 20 else 22
  }

  lemma {:induction false} FieldEnds()
    ensures |FIELDS| > 0 && FieldStart(0) == 0 && FieldStart(|FIELDS|) == HEADER > BLOCK
  {
  }

  lemma {:induction false} FieldNext(i: nat)
    requires i < |FIELDS|
    ensures FieldStart(i) + FIELDS[i] == FieldStart(i + 1) <= HEADER
  {
  }

  function Sum(sizes: seq<nat>): nat {
    if sizes == [] then 0 else Sum(sizes[..|sizes| - 1]) + sizes[|sizes| - 1]
  }

  lemma {:induction false} SumOfNone(sizes: seq<nat>)
    ensures Sum(sizes[..0]) == 0
  {
  }

  lemma {:induction false} PrefixKept(a: seq<Byte>, b: seq<Byte>, c: seq<Byte>)
    requires a <= b
    ensures a <= b + c
  {
  }

  lemma {:induction false} SumOfOneMore(sizes: seq<nat>, i: nat)
    requires i < |sizes|
    ensures Sum(sizes[..i + 1]) == Sum(sizes[..i]) + sizes[i] <= Sum(sizes)
    decreases |sizes|
  {
    assert sizes[..i + 1][..i] == sizes[..i];
    if i + 1 == |sizes| {
      assert sizes[..i + 1] == sizes;
    } else {
      var n := |sizes| - 1;
      SumOfOneMore(sizes[..n], i);
      assert sizes[..n][..i] == sizes[..i] && sizes[..n][..i + 1] == sizes[..i + 1];
    }
  }

  function WithRequest(reqs: seq<Request>, pos: nat, flags: nat): seq<Request> {
    if flags == 0 then reqs else reqs + [Request(pos, flags)]
  }

  /** The requests behind a message: what its first byte says, if there is one. */
  function Requested(reqs: seq<Request>, start: nat, msg: seq<Byte>): seq<Request> {
    if msg == [] then reqs else WithRequest(reqs, start + HEADER, Flags(msg[0]))
  }

  /** A message with flags asks for as many new keys as its first byte says, from behind its header on; one without, or
      one of which nothing arrived, asks for none. */
  lemma {:induction false} RequestedMeaning(reqs: seq<Request>, start: nat, msg: seq<Byte>)
    ensures Requested(reqs, start, msg)
         == if msg == [] || msg[0] == 0 then reqs else reqs + [Request(start + 22, msg[0] as nat)]
  {
    if msg != [] { assert msg[0] as nat == 0 <==> msg[0] == 0; }
  }

  lemma {:induction false} Position(s: Scheme, st: State, h: History)
    requires Tracks(s, st, h)
    ensures st.decryptedBytes == |h.cipher| % BLOCK < BLOCK && (st.rekeyRounds > 0 ==> st.decryptedBytes > 0)
  {
  }

  lemma {:induction false} PositionHere(session: Session)
    requires session.Valid()
    ensures session.decryptedBytes == |session.history.cipher| % BLOCK < BLOCK
  {
    Position(session.scheme, session.Fields(), session.history);
    hide Tracks;
  }

  lemma {:induction false} PositionThere(session: Session, start: nat, size: nat, bytes: nat)
    requires session.Valid() && |session.history.cipher| == start + size
    requires bytes == start % BLOCK && bytes + size < BLOCK
    ensures session.decryptedBytes == bytes + size
  {
    PositionAfter(session.scheme, session.Fields(), session.history, start, size, bytes);
    hide Tracks;
  }

  lemma {:induction false} PositionAfter(s: Scheme, st: State, h: History, start: nat, size: nat, bytes: nat)
    requires Tracks(s, st, h) && |h.cipher| == start + size && bytes == start % BLOCK && bytes + size < BLOCK
    ensures st.decryptedBytes == bytes + size
  {
    Position(s, st, h);
    hide Tracks;
    SameBlock(start, size);
  }

  lemma {:induction false} SameBlock(start: nat, size: nat)
    requires start % BLOCK + size < BLOCK
    ensures (start + size) % BLOCK == start % BLOCK + size
  {
    assert start + size == BLOCK * (start / BLOCK) + (start % BLOCK + size);
  }

  /** From the bytes in0 and the history h0, a read of `size` bytes gave val. */
  ghost predicate Took(in0: seq<Byte>, h0: History, size: nat, in1: seq<Byte>, h1: History, val: seq<Byte>) {
    var front := Front(in0, size);
    |val| == |front| && in1 == in0[|front|..] && h1 == Extended(h0, front, val)
  }

  lemma {:induction false} TookBoth(in0: seq<Byte>, h0: History, m: nat, in1: seq<Byte>, h1: History, val1: seq<Byte>,
                                    n: nat, in2: seq<Byte>, h2: History, val2: seq<Byte>)
    requires m <= n && Took(in0, h0, m, in1, h1, val1) && Took(in1, h1, n - m, in2, h2, val2)
    ensures Took(in0, h0, n, in2, h2, val1 + val2)
  {
    FrontInTwo(in0, m, n);
    hide Front;
    JoinBytes(h0.cipher, Front(in0, m), Front(in1, n - m));
    JoinBytes(h0.plain, val1, val2);
  }

  lemma {:induction false} FrontInTwo(s: seq<Byte>, m: nat, n: nat)
    requires m <= n
    ensures var f, rest := Front(s, m), s[|Front(s, m)|..];
      var g := Front(rest, n - m);
      Front(s, n) == f + g && s[|Front(s, n)|..] == rest[|g|..]
  {
  }

  lemma {:induction false} JoinBytes(a: seq<Byte>, b: seq<Byte>, c: seq<Byte>)
    ensures a + b + c == a + (b + c)
  {
  }

  lemma {:induction false} ReadFollows(s: Scheme, st: State, h: History, val: seq<Byte>)
    requires Tracks(s, st, h) && (st.rekeyRounds > 0 ==> |val| < BLOCK - st.decryptedBytes)
    ensures UsableState(st) && Tracks(s, Decrypted(s, st, val), Extended(h, val, Decrypt(s, st.dcc, val).1))
  {
    TracksUsable(s, st, h);
    DecryptedFollows(s, st, h, val);
    hide Decrypt, Follows;
  }

  /** The fields have the shapes that decryption needs. */
  predicate UsableState(st: State) {
    st.dcc.used < BLOCK && |st.encryptedTail| == |st.decryptedTail| == BLOCK + st.decryptedBytes
      && st.decryptedBytes < BLOCK
  }

  lemma {:induction false} TracksUsable(s: Scheme, st: State, h: History)
    requires Follows(s, st, h)
    ensures UsableState(st)
  {
    hide Ideal, Register, KeyAfter, TotalRounds;
  }

  lemma {:induction false} TrimmedFields(s: Scheme, st: State, val: seq<Byte>, n: nat, e: seq<Byte>, d: seq<Byte>)
    requires UsableState(st) && n == (st.decryptedBytes + |val|) % BLOCK
    requires n <= st.decryptedBytes + |val| <= |(st.encryptedTail + val)|
    requires st.decryptedBytes + |val| <= |(st.decryptedTail + Decrypt(s, st.dcc, val).1)|
    requires e == (st.encryptedTail + val)[st.decryptedBytes + |val| - n..]
    requires d == (st.decryptedTail + Decrypt(s, st.dcc, val).1)[st.decryptedBytes + |val| - n..]
    ensures Decrypted(s, st, val)
         == st.(encryptedTail := e, decryptedTail := d, decryptedBytes := n, dcc := Decrypt(s, st.dcc, val).0)
  {
    hide Decrypt;
  }

  lemma {:induction false} NothingDecrypted(s: Scheme, st: State, h: History)
    requires UsableState(st)
    ensures Decrypted(s, st, []) == st && Decrypt(s, st.dcc, []).1 == [] && Extended(h, [], []) == h
  {
  }

  lemma {:induction false} DecryptedUsable(s: Scheme, st: State, val: seq<Byte>)
    requires UsableState(st)
    ensures UsableState(Decrypted(s, st, val))
  {
    hide Decrypt;
  }

  lemma {:induction false} RekeyedUsable(s: Scheme, st: State, rounds: nat)
    requires UsableState(st)
    ensures UsableState(Rekeyed(s, st, rounds))
  {
    hide NextKeys, Xor;
  }

  /** The state after a read that completes the block, or should have. */
  function Fired(s: Scheme, st: State, val: seq<Byte>): (r: State)
    requires UsableState(st)
    ensures UsableState(r)
  {
    DecryptedUsable(s, st, val);
    var st1 := Decrypted(s, st, val);
    RekeyedUsable(s, st1, st.rekeyRounds);
    Rekeyed(s, st1, st.rekeyRounds).(rekeyRounds := 0)
  }

  lemma {:induction false} FiredIs(s: Scheme, st: State, val: seq<Byte>)
    requires UsableState(st)
    ensures var st1 := Decrypted(s, st, val);
      && |st1.encryptedTail| >= BLOCK && |st1.decryptedTail| >= BLOCK && st1.rekeyRounds == st.rekeyRounds
      && Fired(s, st, val) == Rekeyed(s, st1, st.rekeyRounds).(rekeyRounds := 0)
  {
    DecryptedUsable(s, st, val);
    hide Rekeyed, Decrypt;
  }

  lemma {:induction false} TookFirst(in0: seq<Byte>, h: History, n: nat, front: seq<Byte>, val: seq<Byte>)
    requires front == Front(in0, n) && |val| == |front|
    ensures Took(in0, h, n, in0[|front|..], Extended(h, front, val), val)
  {
  }

  lemma {:induction false} FinishedBlock(session: Session, st: State, h: History, val: seq<Byte>, live: bool)
    requires UsableState(st) && st.rekeyRounds > 0 && |val| <= BLOCK - st.decryptedBytes
    requires if live then Tracks(session.scheme, st, h)
             else val == [] && h.plain == Ideal(session.scheme, h.reqs, h.cipher)
    requires session.Fields() == Fired(session.scheme, st, val)
    requires session.history == Extended(h, val, Decrypt(session.scheme, st.dcc, val).1)
    ensures session.Sound()
    ensures live ==> (session.Valid() <==> |val| == BLOCK - st.decryptedBytes)
  {
    hide Ideal, Tracks, Decrypt, Decrypted, Rekeyed, Extended;
    if live {
      FirePhase(session.scheme, st, h, val);
    } else {
      NothingDecrypted(session.scheme, st, h);
    }
  }

  /** A pending change of key fires on the block boundary exactly when all of the block was there. */
  lemma {:induction false} FirePhase(s: Scheme, st: State, h: History, val: seq<Byte>)
    requires UsableState(st) && Tracks(s, st, h) && st.rekeyRounds > 0 && |val| <= BLOCK - st.decryptedBytes
    ensures var st2 := Fired(s, st, val);
      var h1 := Extended(h, val, Decrypt(s, st.dcc, val).1);
      && (Tracks(s, st2, h1) <==> |val| == BLOCK - st.decryptedBytes)
      && h1.plain == Ideal(s, h1.reqs, h1.cipher)
  {
    TracksUsable(s, st, h);
    DecryptedUsable(s, st, val);
    DecryptedFollows(s, st, h, val);
    DecryptedParts(s, st, val);
    FollowsParts(s, st, h);
    hide Decrypt, Ideal, Register, KeyAfter, TotalRounds, NextKeys, Xor, Decrypted, Follows;
    var st1 := Decrypted(s, st, val);
    var h1 := Extended(h, val, Decrypt(s, st.dcc, val).1);
    FollowsParts(s, st1, h1);
    if |val| == BLOCK - st.decryptedBytes {
      RekeyedFollows(s, st1, h1, st1.rekeyRounds, 0);
    } else {
      RekeyedInsideBlock(s, st1, h1, st1.rekeyRounds);
    }
  }

  // ---------- A whole session ----------

  /** Where the messages end whose parameters take `lens` bytes. */
  function End(lens: seq<nat>): nat {
    if lens == [] then 0 else End(lens[..|lens| - 1]) + HEADER + lens[|lens| - 1]
  }

  /** The requests for new keys that a stream holds: they follow from its bytes and the lengths of its
      messages. The first byte of each message, decrypted under the requests before it, says how many
      new keys come behind its header. */
  function Schedule(s: Scheme, cipher: seq<Byte>, lens: seq<nat>): seq<Request> {
    if lens == [] then []
    else
      var n := |lens| - 1;
      var before := Schedule(s, cipher, lens[..n]);
      var start := End(lens[..n]);
      if start < |cipher| then WithRequest(before, start + HEADER, Flags(Ideal(s, before, cipher)[start])) else before
  }

  lemma {:induction false} ScheduleOfPrefix(s: Scheme, cipher: seq<Byte>, more: seq<Byte>, lens: seq<nat>)
    requires End(lens) <= |cipher|
    ensures End(lens) <= |cipher + more| && Schedule(s, cipher + more, lens) == Schedule(s, cipher, lens)
    decreases |lens|
  {
    if lens != [] {
      var n := |lens| - 1;
      ScheduleOfPrefix(s, cipher, more, lens[..n]);
      var before := Schedule(s, cipher, lens[..n]);
      IdealPrefix(s, before, cipher, more);
      hide Ideal, Flags;
      assert Ideal(s, before, cipher + more)[End(lens[..n])]
           == Ideal(s, before, cipher + more)[..|cipher|][End(lens[..n])];
    }
  }

  /** The request that a message makes does not reach back to its own first byte. */
  lemma {:induction false} FirstByte(s: Scheme, reqs: seq<Request>, cipher: seq<Byte>, start: nat, flags: nat)
    requires start < |cipher|
    ensures Ideal(s, WithRequest(reqs, start + HEADER, flags), cipher)[start] == Ideal(s, reqs, cipher)[start]
  {
    if flags != 0 {
      assert BLOCK * (start / BLOCK) <= start;
      RegisterOfOneMore(s, reqs, Request(start + HEADER, flags), start / BLOCK + 1);
    }
  }

  function Lengths(bodies: seq<seq<nat>>): (r: seq<nat>)
    ensures |r| == |bodies|
  {
    seq(|bodies|, i requires 0 <= i < |bodies| => Sum(bodies[i]))
  }

  /** After i messages: what is decrypted is the stream up to their end, or all of it, and the plaintext is the ideal
      one, under the schedule that the messages hold. */
  ghost predicate InStep(s: Scheme, in0: seq<Byte>, lens: seq<nat>, i: nat, in1: seq<Byte>, h: History)
    requires i <= |lens|
  {
    && h.cipher == Front(in0, End(lens[..i])) && in1 == in0[|h.cipher|..]
    && h.plain == Ideal(s, h.reqs, h.cipher) && h.reqs == Schedule(s, h.cipher, lens[..i])
  }

  lemma {:induction false} FirstStep(s: Scheme, in0: seq<Byte>, lens: seq<nat>)
    ensures InStep(s, in0, lens, 0, in0, History([], [], []))
  {
    assert lens[..0] == [] && in0[0..] == in0 && in0[..0] == [];
  }

  lemma {:induction false} EndOfOneMore(lens: seq<nat>, i: nat)
    requires i < |lens|
    ensures lens[..i + 1] == lens[..i] + [lens[i]] && lens[..i + 1][..i] == lens[..i]
    ensures End(lens[..i + 1]) == End(lens[..i]) + HEADER + lens[i]
  {
    assert lens[..i + 1][..i] == lens[..i];
  }

  /** A message of `len` bytes was read, or what there was of it: h' is the history behind it. */
  ghost predicate ReadMessage(
    s: Scheme, in1: seq<Byte>, h: History, len: nat, in2: seq<Byte>, h': History, msg: seq<Byte>) {
    && Took(in1, h.(reqs := h'.reqs), HEADER + len, in2, h', msg)
    && h'.plain == Ideal(s, h'.reqs, h'.cipher)
    && h'.reqs == Requested(h.reqs, |h.cipher|, msg)
  }

  lemma {:induction false} NextStep(s: Scheme, in0: seq<Byte>, lens: seq<nat>, i: nat, in1: seq<Byte>, h: History,
                                    in2: seq<Byte>, h': History, msg: seq<Byte>)
    requires i < |lens| && InStep(s, in0, lens, i, in1, h) && ReadMessage(s, in1, h, lens[i], in2, h', msg)
    ensures InStep(s, in0, lens, i + 1, in2, h') && h'.plain == h.plain + msg
  {
    hide Ideal, Schedule, End, Requested, Took, Front;
    var e := End(lens[..i]);
    EndOfOneMore(lens, i);
    NextBytes(in0, e, HEADER + lens[i], in1, h, in2, h', msg);
    ScheduleNext(s, h, lens[..i], lens[i], in1, in2, h', msg);
  }

  lemma {:induction false} NextBytes(in0: seq<Byte>, e: nat, n: nat, in1: seq<Byte>, h: History,
                                     in2: seq<Byte>, h': History, msg: seq<Byte>)
    requires h.cipher == Front(in0, e) && in1 == in0[|h.cipher|..]
    requires Took(in1, h.(reqs := h'.reqs), n, in2, h', msg)
    ensures h'.cipher == Front(in0, e + n) && in2 == in0[|h'.cipher|..] && h'.plain == h.plain + msg
    ensures |h.cipher| == e || (|h.cipher| < e && in1 == [])
  {
    FrontInTwo(in0, e, e + n);
  }

  lemma {:induction false} ScheduleNext(s: Scheme, h: History, lens: seq<nat>, len: nat, in1: seq<Byte>,
                                        in2: seq<Byte>, h': History, msg: seq<Byte>)
    requires h.plain == Ideal(s, h.reqs, h.cipher) && h.reqs == Schedule(s, h.cipher, lens)
    requires |h.cipher| == End(lens) || (|h.cipher| < End(lens) && in1 == [])
    requires ReadMessage(s, in1, h, len, in2, h', msg)
    ensures h'.reqs == Schedule(s, h'.cipher, lens + [len])
  {
    hide Ideal, Schedule, Requested, Took, End;
    if |h.cipher| == End(lens) {
      ScheduleWhole(s, h, lens, len, in1, in2, h', msg);
    } else {
      TookLess(in1, h.(reqs := h'.reqs), HEADER + len, in2, h', msg);
      ScheduleSpent(s, h'.cipher, lens, len);
      NotRequested(h.reqs, |h.cipher|, msg);
    }
  }

  lemma {:induction false} NotRequested(reqs: seq<Request>, start: nat, msg: seq<Byte>)
    requires msg == []
    ensures Requested(reqs, start, msg) == reqs
  {
  }

  lemma {:induction false} ScheduleSpent(s: Scheme, cipher: seq<Byte>, lens: seq<nat>, len: nat)
    requires |cipher| <= End(lens)
    ensures Schedule(s, cipher, lens + [len]) == Schedule(s, cipher, lens)
  {
    hide Ideal, End, Schedule;
    assert (lens + [len])[..|lens|] == lens;
    ScheduleStep(s, cipher, lens + [len]);
  }

  lemma {:induction false} ScheduleStep(s: Scheme, cipher: seq<Byte>, lens: seq<nat>)
    requires lens != []
    ensures var n := |lens| - 1;
      var before, start := Schedule(s, cipher, lens[..n]), End(lens[..n]);
      Schedule(s, cipher, lens)
      == if start >= |cipher| then before
         else WithRequest(before, start + HEADER, Flags(Ideal(s, before, cipher)[start]))
  {
    hide Ideal, Flags, WithRequest, End;
  }

  lemma {:induction false} ScheduleMore(s: Scheme, cipher: seq<Byte>, lens: seq<nat>, len: nat)
    requires End(lens) < |cipher|
    ensures var before := Schedule(s, cipher, lens);
      Schedule(s, cipher, lens + [len])
      == WithRequest(before, End(lens) + HEADER, Flags(Ideal(s, before, cipher)[End(lens)]))
  {
    hide Ideal, Flags, WithRequest, End, Schedule;
    assert (lens + [len])[..|lens|] == lens;
    ScheduleStep(s, cipher, lens + [len]);
  }

  lemma {:induction false} ScheduleWhole(s: Scheme, h: History, lens: seq<nat>, len: nat, in1: seq<Byte>,
                                         in2: seq<Byte>, h': History, msg: seq<Byte>)
    requires h.plain == Ideal(s, h.reqs, h.cipher) && h.reqs == Schedule(s, h.cipher, lens)
    requires |h.cipher| == End(lens) && ReadMessage(s, in1, h, len, in2, h', msg)
    ensures h'.reqs == Schedule(s, h'.cipher, lens + [len])
  {
    hide Ideal, Schedule, Requested, WithRequest, Flags, End, Front;
    var start := End(lens);
    ScheduleOfPrefix(s, h.cipher, Front(in1, HEADER + len), lens);
    if msg == [] {
      NotRequested(h.reqs, start, msg);
      NothingMore(in1, h, HEADER + len, in2, h', msg);
      ScheduleSpent(s, h'.cipher, lens, len);
    } else {
      FirstOfMessage(s, h, in1, HEADER + len, in2, h', msg);
      ScheduleMore(s, h'.cipher, lens, len);
    }
  }

  lemma {:induction false} NothingMore(in0: seq<Byte>, h: History, n: nat, in1: seq<Byte>, h': History, msg: seq<Byte>)
    requires Took(in0, h.(reqs := h'.reqs), n, in1, h', msg) && msg == []
    ensures h'.cipher == h.cipher
  {
  }

  /** What the first byte of a message asks for does not change that byte. */
  lemma {:induction false} FirstOfMessage(s: Scheme, h: History, in0: seq<Byte>, n: nat, in1: seq<Byte>, h': History,
                                          msg: seq<Byte>)
    requires |h.plain| == |h.cipher| && Took(in0, h.(reqs := h'.reqs), n, in1, h', msg) && msg != []
    requires h'.plain == Ideal(s, h'.reqs, h'.cipher) && h'.reqs == Requested(h.reqs, |h.cipher|, msg)
    ensures var start := |h.cipher|;
      && start < |h'.cipher| && h'.cipher == h.cipher + Front(in0, n)
      && h'.reqs == WithRequest(h.reqs, start + HEADER, Flags(Ideal(s, h.reqs, h'.cipher)[start]))
  {
    hide Ideal, Flags, Front, WithRequest;
    assert msg[0] == h'.plain[|h.cipher|];
    FirstByte(s, h.reqs, h'.cipher, |h.cipher|, Flags(msg[0]));
  }

  /** One message of a session. */
  method ReadStep(
    s: Scheme, session: Session, sock: Socket, body: seq<nat>, ghost in0: seq<Byte>, ghost lens: seq<nat>,
    ghost i: nat)
    returns (msg: seq<Byte>)
    requires session.Ready(sock) && session.scheme == s && i < |lens| && lens[i] == Sum(body)
    requires InStep(s, in0, lens, i, sock.incoming, session.history)
    modifies session, sock
    ensures session.Ready(sock) && InStep(s, in0, lens, i + 1, sock.incoming, session.history)
    ensures session.history.plain == old(session.history.plain) + msg
  {
    hide *;
    ghost var in1, h := sock.incoming, session.history;
    msg := session.ReadMsg(sock, body);
    IsReady(session, sock);
    MessageRead(s, in1, h, lens[i], sock.incoming, session.history, msg);
    NextStep(s, in0, lens, i, in1, h, sock.incoming, session.history, msg);
  }

  lemma {:induction false} MessageRead(
    s: Scheme, in1: seq<Byte>, h: History, len: nat, in2: seq<Byte>, h': History, msg: seq<Byte>)
    requires Took(in1, h.(reqs := h'.reqs), HEADER + len, in2, h', msg)
    requires h'.plain == Ideal(s, h'.reqs, h'.cipher) && h'.reqs == Requested(h.reqs, |h.cipher|, msg)
    ensures ReadMessage(s, in1, h, len, in2, h', msg)
  {
  }

  lemma {:induction false} LengthsAre(bodies: seq<seq<nat>>)
    ensures |Lengths(bodies)| == |bodies| && forall i :: 0 <= i < |bodies| ==> Lengths(bodies)[i] == Sum(bodies[i])
  {
  }

  /** A session from its start, in which each message is read in pieces of any sizes, and which may end anywhere: the
      plaintext is the ideal decryption of the stream under the schedule that the stream itself holds. Only the
      lengths of the messages matter, not the sizes of the pieces. */
  method ReadSession(s: Scheme, sock: Socket, bodies: seq<seq<nat>>) returns (plain: seq<Byte>)
    modifies sock
    ensures var cipher := Front(old(sock.incoming), End(Lengths(bodies)));
      plain == Ideal(s, Schedule(s, cipher, Lengths(bodies)), cipher)
  {
    var session := new Session(s);
    ghost var in0, lens := sock.incoming, Lengths(bodies);
    plain := [];
    var i := 0;
    FirstStep(s, in0, lens);
    LengthsAre(bodies);
    StartReady(session, sock);
    hide *;
    while i < |bodies|
      invariant 0 <= i <= |bodies| && session.Ready(sock) && session.scheme == s && fresh(session)
      invariant InStep(s, in0, lens, i, sock.incoming, session.history) && plain == session.history.plain
    {
      var msg := ReadStep(s, session, sock, bodies[i], in0, lens, i);
      plain := plain + msg;
      i := i + 1;
    }
    LastStep(s, in0, lens, sock.incoming, session.history);
  }

  lemma {:induction false} StartReady(session: Session, sock: Socket)
    requires session.Valid()
    ensures session.Ready(sock)
  {
    TracksUsable(session.scheme, session.Fields(), session.history);
    hide Ideal;
  }

  lemma {:induction false} LastStep(s: Scheme, in0: seq<Byte>, lens: seq<nat>, in1: seq<Byte>, h: History)
    requires InStep(s, in0, lens, |lens|, in1, h)
    ensures var cipher := Front(in0, End(lens)); h.plain == Ideal(s, Schedule(s, cipher, lens), cipher)
  {
    assert lens[..|lens|] == lens;
  }

  /** A message header that asks for a new key six bytes into a block, and then one byte where two are read: whatever
      the keys are, the new key comes into force a byte early, and the session has lost its place. */
  method ShortReadExample(s: Scheme, stream: seq<Byte>) returns (session: Session)
    requires |stream| == HEADER + 1
    ensures !session.Valid()
  {
    hide *;
    var sock := new Socket(stream);
    session := new Session(s);
    ghost var start := session.history;
    StartReady(session, sock);
    HeaderLength();
    var hdr := session.ReadHeader(sock);
    TookLess(stream, start, HEADER, sock.incoming, session.history, hdr);
    OneByteLeft(stream, start, sock.incoming, session.history, hdr);
    SixBytesIn(session);
    IsReady(session, sock);
    session.RequestKeys(1, |session.history.cipher|);
    StartReady(session, sock);
    FiresIs(session, 2);
    IsReady(session, sock);
    var val := session.ReadsockBytes(sock, 2);
  }

  lemma {:induction false} HeaderLength()
    ensures HEADER == 22 && BLOCK == 8
  {
  }

  lemma {:induction false} SixBytesIn(session: Session)
    requires session.Valid() && |session.history.cipher| == 22
    ensures session.decryptedBytes == 6
  {
    Position(session.scheme, session.Fields(), session.history);
    hide Tracks;
  }

  lemma {:induction false} FiresIs(session: Session, size: nat)
    ensures session.Fires(size) <==> session.rekeyRounds > 0 && size >= BLOCK - session.decryptedBytes
  {
  }

  lemma {:induction false} OneByteLeft(in0: seq<Byte>, h0: History, in1: seq<Byte>, h1: History, val: seq<Byte>)
    requires |in0| == HEADER + 1 && Took(in0, h0, HEADER, in1, h1, val)
    ensures |in1| == 1
  {
  }

  // ---------- The keys that a stream is decrypted with ----------

  /** Byte p of the key stream of output feedback mode, from a register on: the register is encrypted over and over. */
  function KeyStream(encrypt: (Key, Block) -> Block, key: Key, register: Block, p: nat): Byte
    decreases p
  {
    if p < 8 then encrypt(key, register)[p] else KeyStream(encrypt, key, encrypt(key, register), p - 8)
  }

  /** While no request comes into force, the ideal key stream goes on from the register of its first block. */
  lemma {:induction false} OneKey(s: Scheme, reqs: seq<Request>, j: nat, key: Key, p: nat)
    requires forall k: nat :: j <= k <= j + p / 8 ==> BlockKey(s, reqs, k) == key
    ensures KeyByte(s, reqs, 8 * j + p) == KeyStream(s.encrypt, key, Register(s, reqs, j), p)
    decreases p
  {
    hide BlockKey;
    assert BlockKey(s, reqs, j) == key;
    assert Register(s, reqs, j + 1) == s.encrypt(key, Register(s, reqs, j));
    hide Register;
    if p < 8 {
      assert (8 * j + p) / 8 == j && (8 * j + p) % 8 == p;
    } else {
      assert (p - 8) / 8 == p / 8 - 1;
      OneKey(s, reqs, j + 1, key, p - 8);
      assert 8 * (j + 1) + (p - 8) == 8 * j + p;
    }
  }

  /** A request does not reach back to the bytes ahead of it. */
  lemma {:induction false} EarlyByte(s: Scheme, reqs: seq<Request>, q: Request, cipher: seq<Byte>, p: nat)
    requires p < |cipher| && p < q.pos
    ensures Ideal(s, reqs + [q], cipher)[p] == Ideal(s, reqs, cipher)[p]
  {
    assert BLOCK * (p / BLOCK) <= p;
    RegisterOfOneMore(s, reqs, q, p / BLOCK + 1);
  }

  /** A key stream that goes on with another key behind its third block. */
  function FirstKeys(s: Scheme, key: Key, p: nat): Byte {
    if p < 24 then KeyStream(s.encrypt, s.first, ZEROS, p)
    else KeyStream(s.encrypt, key, s.encrypt(s.first, s.encrypt(s.first, s.encrypt(s.first, ZEROS))), p - 24)
  }

  /** No message behind the first asks for new keys ahead of byte q. */
  ghost predicate QuietUntil(plain: seq<Byte>, lens: seq<nat>, q: nat) {
    forall i :: 1 <= i < |lens| && End(lens[..i]) < |plain| && End(lens[..i]) + 22 < q ==> plain[End(lens[..i])] == 0
  }

  lemma {:induction false} Dropped(lens: seq<nat>, n: nat, i: nat)
    requires i <= n <= |lens|
    ensures lens[..n][..i] == lens[..i]
  {
  }

  lemma {:induction false} EndsGrow(lens: seq<nat>, i: nat)
    requires i <= |lens|
    ensures End(lens[..i]) <= End(lens)
    decreases |lens|
  {
    if i < |lens| {
      Dropped(lens, |lens| - 1, i);
      EndsGrow(lens[..|lens| - 1], i);
    } else {
      assert lens[..i] == lens;
    }
  }

  /** The last message asks for nothing that counts ahead of byte q, and does not disturb the messages before it. */
  lemma {:induction false} QuietBefore(s: Scheme, cipher: seq<Byte>, lens: seq<nat>, q: nat)
    requires |lens| > 1 && QuietUntil(Ideal(s, Schedule(s, cipher, lens), cipher), lens, q)
    ensures var n := |lens| - 1;
      var before, start := Schedule(s, cipher, lens[..n]), End(lens[..n]);
      && QuietUntil(Ideal(s, before, cipher), lens[..n], q)
      && (0 < |cipher| ==> Ideal(s, before, cipher)[0] == Ideal(s, Schedule(s, cipher, lens), cipher)[0])
      && (Schedule(s, cipher, lens) == before
          || exists f: nat, at :: at >= q && Schedule(s, cipher, lens) == before + [Request(at, f)])
  {
    hide Ideal, End, Schedule;
    ScheduleStep(s, cipher, lens);
    var n := |lens| - 1;
    var before, after, start := Schedule(s, cipher, lens[..n]), Schedule(s, cipher, lens), End(lens[..n]);
    if after != before {
      var at, f := start + HEADER, Flags(Ideal(s, before, cipher)[start]);
      assert after == before + [Request(at, f)];
      forall p: nat | p <= start ensures Ideal(s, after, cipher)[p] == Ideal(s, before, cipher)[p] {
        EarlyByte(s, before, Request(at, f), cipher, p);
      }
      assert at >= q;
    }
    forall i | 1 <= i < n && End(lens[..n][..i]) < |cipher| && End(lens[..n][..i]) + 22 < q
      ensures Ideal(s, before, cipher)[End(lens[..n][..i])] == 0
    {
      Dropped(lens, n, i);
      EndsGrow(lens[..n], i);
    }
  }

  lemma {:induction false} OnlyRequest(s: Scheme, cipher: seq<Byte>, lens: seq<nat>, x: nat)
    requires |lens| == 1 && cipher != []
    ensures RoundsBy(Schedule(s, cipher, lens), x)
         == if x < 22 then 0 else Flags(Ideal(s, Schedule(s, cipher, lens), cipher)[0])
  {
    hide Ideal, Flags, RoundsBy;
    var f := Flags(Ideal(s, [], cipher)[0]);
    assert lens[..0] == [];
    ScheduleStep(s, cipher, lens);
    FirstByte(s, [], cipher, 0, f);
    hide Schedule;
    OneRound(f, x);
  }

  lemma {:induction false} OneRound(f: nat, x: nat)
    ensures RoundsBy(WithRequest([], 22, f), x) == if x < 22 then 0 else f
  {
    RoundsOfOneMore([], Request(22, f), x);
  }

  /** Ahead of byte q there is no request but the first message's. */
  lemma {:induction false} FirstRequest(s: Scheme, cipher: seq<Byte>, lens: seq<nat>, q: nat, x: nat)
    requires lens != [] && cipher != [] && x < q
    requires QuietUntil(Ideal(s, Schedule(s, cipher, lens), cipher), lens, q)
    ensures RoundsBy(Schedule(s, cipher, lens), x)
         == if x < 22 then 0 else Flags(Ideal(s, Schedule(s, cipher, lens), cipher)[0])
    decreases |lens|
  {
    hide Ideal, Schedule, QuietUntil, RoundsBy, Flags;
    var n := |lens| - 1;
    if n == 0 {
      OnlyRequest(s, cipher, lens, x);
    } else {
      QuietBefore(s, cipher, lens, q);
      FirstRequest(s, cipher, lens[..n], q, x);
      var before := Schedule(s, cipher, lens[..n]);
      if Schedule(s, cipher, lens) != before {
        var f: nat, at :| at >= q && Schedule(s, cipher, lens) == before + [Request(at, f)];
        RoundsOfOneMore(before, Request(at, f), x);
      }
    }
  }

  lemma {:induction false} FirstRegisters(s: Scheme, reqs: seq<Request>)
    requires BlockKey(s, reqs, 0) == BlockKey(s, reqs, 1) == BlockKey(s, reqs, 2) == s.first
    ensures Register(s, reqs, 3) == s.encrypt(s.first, s.encrypt(s.first, s.encrypt(s.first, ZEROS)))
  {
    hide BlockKey;
    assert Register(s, reqs, 1) == s.encrypt(s.first, ZEROS);
    assert Register(s, reqs, 2) == s.encrypt(s.first, s.encrypt(s.first, ZEROS));
  }

  lemma {:induction false} KeyOfBlocks(s: Scheme, cipher: seq<Byte>, lens: seq<nat>, q: nat, f: nat)
    requires lens != [] && cipher != [] && f == Flags(Ideal(s, Schedule(s, cipher, lens), cipher)[0])
    requires QuietUntil(Ideal(s, Schedule(s, cipher, lens), cipher), lens, q)
    ensures var reqs := Schedule(s, cipher, lens);
      forall k: nat {:trigger BlockKey(s, reqs, k)} :: 8 * k < q ==>
        BlockKey(s, reqs, k) == if k < 3 then s.first else KeyAfter(s, f)
  {
    hide Ideal, Schedule, QuietUntil, RoundsBy;
    forall k: nat | 8 * k < q
      ensures RoundsBy(Schedule(s, cipher, lens), BLOCK * k)
           == if k < 3 then 0 else f
    {
      FirstRequest(s, cipher, lens, q, 8 * k);
    }
  }

  lemma {:induction false} IdealMixed(s: Scheme, reqs: seq<Request>, cipher: seq<Byte>, p: nat)
    requires p < |cipher|
    ensures Ideal(s, reqs, cipher)[p] == cipher[p] ^ KeyByte(s, reqs, p)
  {
    IdealAt(s, reqs, cipher, p);
    hide Ideal, KeyByte;
  }

  lemma {:induction false} FirstBlocks(s: Scheme, reqs: seq<Request>, key: Key, q: nat, p: nat)
    requires forall k: nat :: 8 * k < q ==> BlockKey(s, reqs, k) == if k < 3 then s.first else key
    requires p < q
    ensures KeyByte(s, reqs, p) == FirstKeys(s, key, p)
  {
    hide BlockKey, KeyStream, KeyByte;
    if p < 24 {
      assert Register(s, reqs, 0) == ZEROS;
      OneKey(s, reqs, 0, s.first, p);
    } else {
      FirstRegisters(s, reqs);
      assert 3 + (p - 24) / 8 == p / 8;
      OneKey(s, reqs, 3, key, p - 24);
    }
  }

  /** What a session decrypts, when its first message has any value for flags: the first three blocks with the first
      key, and everything from there to the next request with that key's successor by so many steps. The feedback
      register goes on as it is. */
  lemma {:induction false} KeysOfFirstMessage(s: Scheme, cipher: seq<Byte>, lens: seq<nat>, q: nat, f: nat, p: nat)
    requires lens != [] && p < |cipher| && p < q
    requires QuietUntil(Ideal(s, Schedule(s, cipher, lens), cipher), lens, q)
    requires f == Flags(Ideal(s, Schedule(s, cipher, lens), cipher)[0])
    ensures Ideal(s, Schedule(s, cipher, lens), cipher)[p] == cipher[p] ^ FirstKeys(s, KeyAfter(s, f), p)
  {
    hide *;
    var reqs := Schedule(s, cipher, lens);
    KeyOfBlocks(s, cipher, lens, q, f);
    IdealMixed(s, reqs, cipher, p);
    FirstBlocks(s, reqs, KeyAfter(s, f), q, p);
  }

  /** A first message whose flags are 2 has everything behind byte 23 decrypted with the key that the session key makes
      of the first one in two steps, until the next request. */
  lemma {:induction false} TwoStepsExample(s: Scheme, cipher: seq<Byte>, lens: seq<nat>, q: nat, p: nat)
    requires lens != [] && 24 <= p < |cipher| && p < q
    requires QuietUntil(Ideal(s, Schedule(s, cipher, lens), cipher), lens, q)
    requires cipher[0] ^ s.encrypt(s.first, [0, 0, 0, 0, 0, 0, 0, 0])[0] == 2
    ensures Ideal(s, Schedule(s, cipher, lens), cipher)[p] == cipher[p] ^
      KeyStream(s.encrypt, s.mac(s.mac(s.first, s.session), s.session),
                s.encrypt(s.first, s.encrypt(s.first, s.encrypt(s.first, [0, 0, 0, 0, 0, 0, 0, 0]))), p - 24)
  {
    hide Ideal, Schedule, QuietUntil, KeyStream, KeyAfter;
    var plain := Ideal(s, Schedule(s, cipher, lens), cipher);
    KeysOfFirstMessage(s, cipher, lens, q, Flags(plain[0]), 0);
    FirstKeyByte(s, KeyAfter(s, Flags(plain[0])));
    assert plain[0] == 2;
    KeysOfFirstMessage(s, cipher, lens, q, 2, p);
    TwoKeysOn(s);
  }

  lemma {:induction false} FirstKeyByte(s: Scheme, key: Key)
    ensures FirstKeys(s, key, 0) == s.encrypt(s.first, ZEROS)[0]
  {
  }

  lemma {:induction false} TwoKeysOn(s: Scheme)
    ensures KeyAfter(s, 2) == s.mac(s.mac(s.first, s.session), s.session)
  {
    assert KeyAfter(s, 1) == s.mac(KeyAfter(s, 0), s.session);
  }

  // ---------- What a short read does to the bytes behind it ----------

  /** The byte that comes next is decrypted with the first byte of a block of the new key, where the ideal takes the
      next byte of the block at hand: so it is right exactly when these two happen to be the same. */
  lemma {:induction false} LateByte(s: Scheme, st: State, h: History, val: seq<Byte>, c: Byte)
    requires UsableState(st)
    ensures var st1 := Decrypted(s, st, val);
      && |st1.encryptedTail| >= BLOCK && |st1.decryptedTail| >= BLOCK
      && var late := Decrypt(s, Fired(s, st, val).dcc, [c]).1;
      var n := |h.cipher + val|;
      && |late| == 1
      && (late[0] == Ideal(s, h.reqs, h.cipher + val + [c])[n]
          <==> s.encrypt(NextKeys(s, st.dccKey, st.rekeyRounds), Xor(st1.encryptedTail, st1.decryptedTail))[0]
               == KeyByte(s, h.reqs, n))
  {
    DecryptedUsable(s, st, val);
    FiredIs(s, st, val);
    hide Decrypted, Fired, Xor, NextKeys, KeyByte;
    var context := Fired(s, st, val).dcc;
    OneByte(s, context, c);
    MixedAlike(c, NextByte(s, context), KeyByte(s, h.reqs, |h.cipher + val|));
  }

  lemma {:induction false} OneByte(s: Scheme, context: Context, c: Byte)
    requires context.used < BLOCK
    ensures Decrypt(s, context, [c]).1 == [Mix(c, NextByte(s, context))]
  {
    assert [c][1..] == [];
    assert Decrypt(s, Advance(s, context), []).1 == [];
  }

  lemma {:induction false} MixedAlike(c: Byte, x: Byte, y: Byte)
    ensures Mix(c, x) == Mix(c, y) <==> x == y
  {
    assert c ^ Mix(c, x) == x && c ^ Mix(c, y) == y;
  }

  /** A cipher that gives zeros under the first key and ones under any other. */
  function TwoKeys(): Scheme {
    Scheme((k, b) => if k == [0] then ZEROS else ONES, (k, m) => [1], [0], [])
  }

  const ONES: Block := [1, 1, 1, 1, 1, 1, 1, 1]

  /** After such a read the next byte to arrive does not come out as it should. */
  method GarbledExample(stream: seq<Byte>, c: Byte) returns (late: Byte, session: Session)
    requires |stream| == HEADER + 1
    ensures |session.history.cipher| == HEADER + 2
    ensures late != Ideal(TwoKeys(), session.history.reqs, session.history.cipher)[HEADER + 1]
  {
    hide *;
    HeaderLength();
    var sock := new Socket(stream);
    session := new Session(TwoKeys());
    ghost var start := session.history;
    StartReady(session, sock);
    var hdr := session.ReadHeader(sock);
    TookLess(stream, start, HEADER, sock.incoming, session.history, hdr);
    OneByteLeft(stream, start, sock.incoming, session.history, hdr);
    SixBytesIn(session);
    IsReady(session, sock);
    session.RequestKeys(1, |session.history.cipher|);
    StartReady(session, sock);
    FiresIs(session, 2);
    IsReady(session, sock);
    ghost var st, h, one := session.Fields(), session.history, sock.incoming;
    FieldsAre(session);
    OneRequest(h.reqs);
    var val := session.ReadsockBytes(sock, 2);
    ghost var in1, h1 := sock.incoming, session.history;
    FieldsAre(session);
    sock.incoming := [c];
    FiresIs(session, 1);
    var next := session.ReadsockBytes(sock, 1);
    TookAll(one, h, in1, h1, val, [c], sock.incoming, session.history, next);
    LateByte(TwoKeys(), st, h, one, c);
    LateKeyBytes(st, h.reqs);
    WholeFront(c);
    late := next[0];
  }

  lemma {:induction false} FieldsAre(session: Session)
    ensures session.Fields().dcc == session.dcc && session.Fields().rekeyRounds == session.rekeyRounds
  {
  }

  lemma {:induction false} OneRequest(reqs: seq<Request>)
    requires reqs == WithRequest([], 22, 1)
    ensures reqs == [Request(22, 1)]
  {
  }

  /** One byte where two were asked for, and then one more. */
  lemma {:induction false} TookAll(one: seq<Byte>, h: History, in1: seq<Byte>, h1: History, val: seq<Byte>,
                                   next: seq<Byte>, in2: seq<Byte>, h2: History, last: seq<Byte>)
    requires |one| == 1 && Took(one, h, 2, in1, h1, val) && |next| == 1 && Took(next, h1, 1, in2, h2, last)
    ensures h2.cipher == h.cipher + one + next && h2.reqs == h.reqs && |last| == 1
  {
  }

  lemma {:induction false} WholeFront(c: Byte)
    ensures Front([c], 1) == [c]
  {
  }

  lemma {:induction false} LateKeyBytes(st: State, reqs: seq<Request>)
    requires st.rekeyRounds == 1 && reqs == [Request(22, 1)]
    ensures var s := TwoKeys();
      forall iv: Block :: s.encrypt(NextKeys(s, st.dccKey, st.rekeyRounds), iv)[0] != KeyByte(s, reqs, 23)
  {
    var s := TwoKeys();
    assert reqs[..0] == [] && RoundsBy([], 16) == 0;
    assert RoundsBy(reqs, 16) == 0;
    assert BlockKey(s, reqs, 2) == [0];
    assert NextKeys(s, st.dccKey, 1) == [1];
  }
}
