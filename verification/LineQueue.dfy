/** The line queues between an IRC server and a byte-stream socket. */
module LineQueue {

  /** Lines as they go over the wire. */
  function Wire(lines: seq<string>): string {
    if lines == [] then "" else lines[0] + "\r\n" + Wire(lines[1..])
  }

  /** The index of the first line feed, or the length. */
  function FirstFeed(s: string): (p: nat)
    ensures p <= |s| && (p < |s| ==> s[p] == '\n') && forall k :: 0 <= k < p ==> s[k] != '\n'
  {
    if s == "" || s[0] == '\n' then 0 else 1 + FirstFeed(s[1..])
  }

  function DropReturn(s: string): string {
    if s != "" && s[|s| - 1] == '\r' then s[..|s| - 1] else s
  }

  /** The complete lines of s, and what is left behind the last line feed. */
  datatype Cutting = Cutting(lines: seq<string>, residue: string)

  function Cut(s: string): (c: Cutting)
    ensures '\n' !in c.residue && forall i :: 0 <= i < |c.lines| ==> '\n' !in c.lines[i]
    decreases |s|
  {
    var p := FirstFeed(s);
    if p == |s| then Cutting([], s)
    else
      var more := Cut(s[p + 1..]);
      Cutting([DropReturn(s[..p])] + more.lines, more.residue)
  }

  // ---------- Facts about the wire ----------

  lemma {:induction false} WireConcat(a: seq<string>, b: seq<string>)
    ensures Wire(a + b) == Wire(a) + Wire(b)
  {
    if a == [] {
      assert a + b == b;
    } else {
      assert (a + b)[0] == a[0] && (a + b)[1..] == a[1..] + b;
      WireConcat(a[1..], b);
    }
  }

  lemma {:induction false} FirstFeedAt(s: string, p: nat)
    requires p <= |s| && (p < |s| ==> s[p] == '\n') && forall k :: 0 <= k < p ==> s[k] != '\n'
    ensures FirstFeed(s) == p
  {
  }

  lemma {:induction false} CutLine(line: string, rest: string)
    requires '\n' !in line
    ensures Cut(line + "\n" + rest) == Cutting([DropReturn(line)] + Cut(rest).lines, Cut(rest).residue)
  {
    var s := line + "\n" + rest;
    FirstFeedAt(s, |line|);
    assert s[..|line|] == line && s[|line| + 1..] == rest;
  }

  /** What is read does not depend on how the bytes come: cutting a and then what follows is cutting all. */
  lemma {:induction false} CutConcat(a: string, b: string)
    ensures Cut(a + b) == Cutting(Cut(a).lines + Cut(Cut(a).residue + b).lines, Cut(Cut(a).residue + b).residue)
    decreases |a|
  {
    var p := FirstFeed(a);
    if p < |a| {
      var line, rest := a[..p], a[p + 1..];
      SplitAt(a, p, b);
      CutLine(line, rest);
      CutLine(line, rest + b);
      CutConcat(rest, b);
      JoinLines([DropReturn(line)], Cut(rest).lines, Cut(Cut(rest).residue + b).lines);
    } else {
      assert [] + Cut(a + b).lines == Cut(a + b).lines;
    }
  }

  lemma {:induction false} SplitAt(a: string, p: nat, b: string)
    requires p < |a| && a[p] == '\n' && forall k :: 0 <= k < p ==> a[k] != '\n'
    ensures a == a[..p] + "\n" + a[p + 1..] && a + b == a[..p] + "\n" + (a[p + 1..] + b) && '\n' !in a[..p]
  {
  }

  lemma {:induction false} JoinLines(a: seq<string>, b: seq<string>, c: seq<string>)
    ensures a + b + c == a + (b + c)
  {
  }

  /** Lines come back from the wire as they were exactly when none of them contains a line feed. */
  lemma {:induction false} CutWire(lines: seq<string>)
    ensures Cut(Wire(lines)) == Cutting(lines, "") <==> forall i :: 0 <= i < |lines| ==> '\n' !in lines[i]
  {
    if forall i :: 0 <= i < |lines| ==> '\n' !in lines[i] { CutCleanWire(lines); }
  }

  lemma {:induction false} CutCleanWire(lines: seq<string>)
    requires forall i :: 0 <= i < |lines| ==> '\n' !in lines[i]
    ensures Cut(Wire(lines)) == Cutting(lines, "")
  {
    if lines != [] {
      CleanTail(lines);
      CutCleanWire(lines[1..]);
      CutCleanLine(lines[0], Wire(lines[1..]), lines[1..]);
      hide Cut;
    }
  }

  lemma {:induction false} CleanTail(lines: seq<string>)
    requires lines != [] && forall i :: 0 <= i < |lines| ==> '\n' !in lines[i]
    ensures (forall i :: 0 <= i < |lines[1..]| ==> '\n' !in lines[1..][i]) && lines == [lines[0]] + lines[1..]
  {
  }

  lemma {:induction false} CutCleanLine(line: string, rest: string, lines: seq<string>)
    requires '\n' !in line && Cut(rest) == Cutting(lines, "")
    ensures Cut(line + "\r\n" + rest) == Cutting([line] + lines, "")
  {
    hide Cut, DropReturn;
    ReturnBeforeFeed(line, rest);
    CutLine(line + "\r", rest);
  }

  lemma {:induction false} ReturnBeforeFeed(line: string, rest: string)
    ensures line + "\r\n" + rest == (line + "\r") + "\n" + rest && DropReturn(line + "\r") == line
    ensures '\n' !in line ==> '\n' !in line + "\r"
  {
    assert (line + "\r")[..|line|] == line;
  }

  // ---------- The queue object ----------

  /** How a socket's `send` answers: with a count of bytes, or with success or failure only. */
  datatype Sent = Count(n: int) | Flag(ok: bool)

  /** What the server knows about that: `new_socket_send` undefined, false or true. */
  datatype Style = Unknown | Flags | Counts

  /** An answer that a socket can give to a send of n bytes, of which it took `accepted`. */
  predicate Possible(style: Style, sent: Sent, n: nat, accepted: nat) {
    && accepted <= n
    && (style.Flags? ==> sent.Flag?) && (style.Counts? ==> sent.Count?)
    && (sent.Count? ==> accepted == if sent.n > 0 then sent.n else 0)
    && (sent.Flag? && sent.ok ==> accepted == n)
  }

  class Queue {
    var queue: seq<string>
    var recvBytes: string
    var sendBytes: string
    ghost var added: seq<string>    // all lines added for sending
    ghost var taken: string         // all bytes that the socket took

    constructor ()
      ensures queue == [] && recvBytes == "" && sendBytes == "" && added == [] && taken == "" && Conserved()
    {
      queue, recvBytes, sendBytes, added, taken := [], "", "", [], "";
    }

    /** No byte of a line is lost or sent twice. */
    ghost predicate Conserved()
      reads this
    {
      taken + sendBytes + Wire(queue) == Wire(added)
    }

    /** `Queue_Add`. */
    method Add(str: string)
      modifies this
      ensures queue == old(queue) + [str] && added == old(added) + [str]
      ensures recvBytes == old(recvBytes) && sendBytes == old(sendBytes) && taken == old(taken)
      ensures old(Conserved()) ==> Conserved()
    {
      WireConcat(queue, [str]);
      WireConcat(added, [str]);
      ghost var front := taken + sendBytes;
      assert front + (Wire(queue) + Wire([str])) == front + Wire(queue) + Wire([str]);
      hide Wire;
      queue := queue + [str];
      added := added + [str];
    }

    /** `Queue_Del`; on an empty queue nothing is taken. */
    method Del() returns (str: string, some: bool)
      modifies `queue
      ensures some == (old(queue) != [])
      ensures if some then [str] + queue == old(queue) else queue == []
    {
      if queue == [] {
        return "", false;
      }
      str, some := queue[0], true;
      queue := queue[1..];
    }

    ghost function Pending(): string
      reads this
    {
      sendBytes + Wire(queue)
    }

    /** The lines joined by carriage return and line feed. */
    method Flush()
      modifies `queue, `sendBytes
      ensures queue == [] && sendBytes == old(Pending())
    {
      var joined := "";
      var i := 0;
      assert queue[..0] == [];
      while i < |queue|
        invariant 0 <= i <= |queue|
        invariant joined == Wire(queue[..i])
        invariant queue == old(queue) && sendBytes == old(sendBytes)
      {
        assert queue[..i + 1] == queue[..i] + [queue[i]];
        WireConcat(queue[..i], [queue[i]]);
        joined := joined + queue[i] + "\r\n";
        i := i + 1;
      }
      assert queue[..i] == queue;
      sendBytes := sendBytes + joined;
      queue := [];
    }

    /** `Queue_Send`: the socket answers `sent` and takes `accepted` bytes, if there is anything to send.
        The bytes are conserved exactly when it is not the case that a socket which does not count
        fails after it took less than all. */
    method Send(style: Style, sent: Sent, accepted: nat) returns (style': Style)
      requires Conserved() && Possible(style, sent, |Pending()|, accepted)
      modifies this
      ensures recvBytes == old(recvBytes) && added == old(added) && queue == []
      ensures old(Pending()) == "" ==> sendBytes == "" && taken == old(taken) && style' == style
      ensures old(Pending()) != "" ==>
        && taken == old(taken) + old(Pending())[..accepted]
        && sendBytes == (if sent.Count? then old(Pending())[accepted..] else "")
        && style' == (if sent.Count? then Counts else Flags)
      ensures Conserved() <==> !(sent.Flag? && accepted < |old(Pending())|)
    {
      style' := style;
      ghost var all := Pending();
      ghost var taken0 := taken;
      Flush();
      assert Wire(queue) == "";
      if |sendBytes| > 0 {
        if style'.Unknown? {
          style' := if sent.Flag? then Flags else Counts;
        }
        taken := taken + all[..accepted];
        hide Wire;
        if style'.Flags? {
          sendBytes := "";
        }
        if style'.Counts? {
          if sent.n > 0 {
            sendBytes := sendBytes[sent.n..];
          }
        }
      }
    }

    /** `Queue_Recv`: every complete line is queued, without its line end. */
    method Recv(str: string)
      modifies `queue, `recvBytes
      ensures queue == old(queue) + Cut(old(recvBytes) + str).lines
      ensures recvBytes == Cut(old(recvBytes) + str).residue
    {
      recvBytes := recvBytes + str;
      ghost var goal := Cut(recvBytes);
      hide Cut;
      var pos := FirstFeed(recvBytes);
      while pos < |recvBytes|
        invariant pos == FirstFeed(recvBytes)
        invariant queue + Cut(recvBytes).lines == old(queue) + goal.lines && Cut(recvBytes).residue == goal.residue
        decreases |recvBytes|
      {
        var cmd := recvBytes[..pos];
        SplitAt(recvBytes, pos, "");
        CutLine(cmd, recvBytes[pos + 1..]);
        recvBytes := recvBytes[pos + 1..];
        if cmd != "" && cmd[|cmd| - 1] == '\r' {
          cmd := cmd[..|cmd| - 1];
        }
        JoinLines(queue, [cmd], Cut(recvBytes).lines);
        queue := queue + [cmd];
        pos := FirstFeed(recvBytes);
      }
      assert queue + [] == queue;
    }
  }

  /** A socket that only reports success or failure takes four of the six bytes of two lines and then fails: the rest
      is neither taken nor kept. */
  method FailedSendExample() returns (q: Queue)
    ensures fresh(q) && q.added == ["a", "b"] && q.taken == "a\r\nb" && q.Pending() == "" && !q.Conserved()
  {
    q := new Queue();
    q.Add("a");
    q.Add("b");
    TwoLines();
    assert ["a"] + ["b"] == ["a", "b"] && [] + ["a"] == ["a"];
    assert "" + "a\r\nb\r\n" == "a\r\nb\r\n" && "a\r\nb\r\n"[..4] == "a\r\nb";
    hide Wire;
    var style := q.Send(Flags, Flag(false), 4);
    NothingOnWire();
    assert "" + "a\r\nb" == "a\r\nb" && "" + "" == "";
  }

  lemma {:induction false} TwoLines()
    ensures Wire(["a", "b"]) == "a\r\nb\r\n"
  {
    assert ["a", "b"][1..] == ["b"] && ["b"][1..] == [];
    assert Wire(["b"]) == "b\r\n" + "";
    assert "a\r\n" + "b\r\n" == "a\r\nb\r\n" && "b\r\n" + "" == "b\r\n";
  }

  lemma {:induction false} NothingOnWire()
    ensures Wire([]) == ""
  {
  }

  // ---------- From one server to the other ----------

  /** What a receiver that started empty has after the given chunks. */
  function Received(chunks: seq<string>): Cutting {
    if chunks == [] then Cutting([], "")
    else
      var n := |chunks| - 1;
      var before := Received(chunks[..n]);
      var now := Cut(before.residue + chunks[n]);
      Cutting(before.lines + now.lines, now.residue)
  }

  function Flatten(chunks: seq<string>): string {
    if chunks == [] then "" else Flatten(chunks[..|chunks| - 1]) + chunks[|chunks| - 1]
  }

  lemma {:induction false} ReceivedIsCut(chunks: seq<string>)
    ensures Received(chunks) == Cut(Flatten(chunks))
    decreases |chunks|
  {
    if chunks != [] {
      ReceivedIsCut(chunks[..|chunks| - 1]);
      CutConcat(Flatten(chunks[..|chunks| - 1]), chunks[|chunks| - 1]);
      hide Cut;
    }
  }

  /** However the sender's socket takes the bytes and however they reach the receiver: what it has read
      are the first lines that were added, in their order, and all of them once all bytes have come. */
  lemma {:induction false} LinesArriveInOrder(q: Queue, chunks: seq<string>, left: string)
    requires q.Conserved() && q.taken == Flatten(chunks) + left
    requires forall i :: 0 <= i < |q.added| ==> '\n' !in q.added[i]
    ensures Received(chunks).lines <= q.added
    ensures '\n' !in Received(chunks).residue
    ensures left == "" && q.Pending() == "" ==> Received(chunks) == Cutting(q.added, "")
  {
    ReceivedIsCut(chunks);
    CutCleanWire(q.added);
    var behind := left + q.sendBytes + Wire(q.queue);
    Join4(Flatten(chunks), left, q.sendBytes, Wire(q.queue));
    CutConcat(Flatten(chunks), behind);
    hide Cut, Wire, Received, Flatten;
    if left == "" && q.sendBytes + Wire(q.queue) == "" {
      assert behind == "" && Flatten(chunks) + "" == Flatten(chunks);
    }
  }

  lemma {:induction false} Join4(a: string, b: string, c: string, d: string)
    ensures a + b + c + d == a + (b + c + d)
  {
  }
}
