/** The BeagleBone's Ethernet process: takes messages from the pipe and writes each to the
    server until one write takes it whole, dropping the connection after any other outcome;
    and the byte streams between it and the server's receive loops. */
module EthProcesses {
  import opened Words
  import opened Wrappers
  import opened Wire

  /** One TCP connection, seen from both ends. `sent` is every byte the client's writes were
      accepted for and `full` the messages whose write was accepted whole. The server has received
      the first `taken` bytes, of which `buf` do not make up a request yet, and has parsed `got`. */
  datatype Link = Link(sent: seq<byte>, full: seq<Msg>, open: bool,
                       taken: nat, buf: seq<byte>, got: seq<Msg>, reading: bool)

  /** The process: its end of the pipe, the message it is trying to deliver, its socket (a position
      in `links`), and all connections ever made. */
  datatype Eth = Eth(pipe: seq<byte>, held: Option<Msg>, sock: Option<nat>, links: seq<Link>)

  const FRESH := Link([], [], true, 0, [], [], true)

  /** One pass of the retry loop: whether a connection attempt would succeed, and how many bytes the
      write is accepted for (an error accepts none). */
  datatype Try = Try(connects: bool, accepted: nat)

  function Min(a: nat, b: nat): nat { if a < b then a else b }

  /** `read` on the pipe; a short read is thrown away. */
  function ReadPipe(e: Eth): Eth {
    if e.held.Some? || e.pipe == [] then e
    else
      var rd := Min(MSG_LEN, |e.pipe|);
      if rd == MSG_LEN then e.(held := Some(Decode(e.pipe[..rd])), pipe := e.pipe[rd..])
      else e.(pipe := e.pipe[rd..])
  }

  function Connected(e: Eth, t: Try): Eth {
    if e.sock.None? && t.connects then e.(sock := Some(|e.links|), links := e.links + [FRESH]) else e
  }

  /** The write is accepted whole: the message is done with. */
  function Written(e: Eth): Eth
    requires e.held.Some? && e.sock.Some? && e.sock.value < |e.links|
  {
    var l := e.links[e.sock.value];
    var m := e.held.value;
    e.(held := None, links := e.links[e.sock.value := l.(sent := l.sent + Encode(m), full := l.full + [m])])
  }

  /** The write is accepted for `k` bytes only: the connection is dropped, the message kept. */
  function Cut(e: Eth, k: nat): Eth
    requires e.held.Some? && e.sock.Some? && e.sock.value < |e.links| && k < MSG_LEN
  {
    var l := e.links[e.sock.value];
    var bytes := Encode(e.held.value)[..k];
    e.(sock := None, links := e.links[e.sock.value := l.(sent := l.sent + bytes, open := false)])
  }

  /** One pass of the retry loop. */
  function Attempt(e: Eth, t: Try): Eth {
    if e.held.None? then e
    else
      var c := Connected(e, t);
      if c.sock.None? || c.sock.value >= |c.links| then c
      else if t.accepted >= MSG_LEN then Written(c)
      else Cut(c, t.accepted)
  }

  function AttemptAll(e: Eth, ts: seq<Try>): Eth {
    if ts == [] then e else Attempt(AttemptAll(e, ts[..|ts| - 1]), ts[|ts| - 1])
  }

  /** The server receives `n` more bytes on a connection: a step of `recv_request`, followed by
      `parse_request` when the buffer is full. */
  function Receive(l: Link, n: nat): Link {
    if !l.reading || n == 0 || n > MSG_LEN - |l.buf| || l.taken + n > |l.sent| then l
    else
      var buf := l.buf + l.sent[l.taken..l.taken + n];
      if |buf| < MSG_LEN then l.(buf := buf, taken := l.taken + n)
      else l.(buf := [], taken := l.taken + n, got := l.got + Elements(Parse(buf)))
  }

  /** The process with its variables; `links` stands for the network. */
  class EthProcess {
    var pipe: seq<byte>
    var msg: Msg
    var holding: bool
    var sockfd: int
    var links: seq<Link>

    ghost predicate Valid()
      reads this
    {
      -1 <= sockfd < |links|
    }

    ghost function View(): Eth
      reads this
    {
      Eth(pipe, if holding then Some(msg) else None, if sockfd < 0 then None else Some(sockfd), links)
    }

    constructor ()
      ensures Valid() && View() == Eth([], None, None, [])
    {
      pipe, msg, holding, sockfd, links := [], Msg(0, 0, 0, 0, 0), false, -1, [];
    }

    /** The head of the outer loop; `failed` is a `read` that returns an error. */
    method ReadMessage(failed: bool)
      requires Valid() && !holding && pipe != []
      modifies this
      ensures Valid() && View() == if failed then old(View()) else ReadPipe(old(View()))
    {
      if failed {
        return;
      }
      var rd := Min(MSG_LEN, |pipe|);
      var bytes := pipe[..rd];
      pipe := pipe[rd..];
      if rd != MSG_LEN {
        return;
      }
      msg := Decode(bytes);
      holding := true;
    }

    /** The inner loop, for as long as `tries` tells what happens: retries until the message is
        written whole. */
    method Deliver(tries: seq<Try>)
      requires Valid() && holding
      modifies this
      ensures Valid() && View() == AttemptAll(old(View()), tries)
      ensures EthValid(old(View())) ==>
                && (!holding <==> exists k: nat :: SucceedsAt(old(View()), tries, k))
                && Completed(links) == old(Completed(links)) + if holding then [] else [old(msg)]
    {
      hide Encode;
      var i := 0;
      while i < |tries| && holding
        invariant 0 <= i <= |tries| && Valid()
        invariant View() == AttemptAll(old(View()), tries[..i])
      {
        var t := tries[i];
        assert tries[..i + 1][..i] == tries[..i];
        if sockfd < 0 {
          if t.connects {
            links := links + [FRESH];
            sockfd := |links| - 1;
          }
        }
        // Writing on descriptor -1 fails and changes nothing.
        if sockfd >= 0 {
          var l := links[sockfd];
          if t.accepted >= MSG_LEN {
            links := links[sockfd := l.(sent := l.sent + Encode(msg), full := l.full + [msg])];
            holding := false;
          } else {
            links := links[sockfd := l.(sent := l.sent + Encode(msg)[..t.accepted], open := false)];
            sockfd := -1;
          }
        }
        i := i + 1;
      }
      DeliveredStays(old(View()), tries, i);
      assert tries[..|tries|] == tries;
      if EthValid(old(View())) {
        DeliversIff(old(View()), tries);
      }
    }
  }

  /** Without a message to deliver, the retry loop is not entered. */
  lemma {:induction false} DeliveredStays(e: Eth, ts: seq<Try>, i: nat)
    requires i <= |ts|
    requires i < |ts| ==> AttemptAll(e, ts[..i]).held.None?
    ensures AttemptAll(e, ts[..i]) == AttemptAll(e, ts)
  {
    if i == |ts| {
      assert ts[..i] == ts;
    } else {
      var front := ts[..|ts| - 1];
      assert front[..i] == ts[..i];
      DeliveredStays(e, front, i);
    }
  }

  // ---------------------------------------------------------------- invariants

  /** Whole messages only, except that a closed connection may end in a cut one. */
  ghost predicate Framed(l: Link) {
    && MSG_LEN * |l.full| <= |l.sent| < MSG_LEN * |l.full| + MSG_LEN
    && l.sent[..MSG_LEN * |l.full|] == EncodeAll(l.full)
    && (l.open ==> |l.sent| == MSG_LEN * |l.full|)
    && (forall m :: m in l.full ==> IsMark(m))
  }

  /** The server has cut what it received into the consecutive blocks. */
  ghost predicate Reassembled(l: Link) {
    && |l.buf| < MSG_LEN
    && |l.buf| <= l.taken <= |l.sent|
    && var whole := l.taken - |l.buf|;
       whole % MSG_LEN == 0 && l.buf == l.sent[whole..l.taken] && l.got == Blocks(l.sent[..whole])
  }

  lemma BlocksAreFull(l: Link)
    requires Framed(l)
    ensures Blocks(l.sent) == l.full
  {
    var whole := MSG_LEN * |l.full|;
    BlocksOfEncoded(l.full, l.sent[whole..]);
    assert l.sent == l.sent[..whole] + l.sent[whole..];
  }

  /** On each connection the server decodes a prefix of the messages written whole to it, and all of
      them once it has read everything: no frame ever shifts and no cut message is decoded. */
  lemma DecodedIsPrefix(l: Link)
    requires Framed(l) && Reassembled(l)
    ensures l.got <= l.full
    ensures l.taken == |l.sent| ==> l.got == l.full
  {
    hide Encode, Decode;
    var whole := l.taken - |l.buf|;
    BlocksAreFull(l);
    BlocksOfPrefix(l.sent[..whole], l.sent);
    if l.taken == |l.sent| {
      assert l.sent == l.sent[..whole] + l.buf;
      BlocksConcat(l.sent[..whole], l.buf);
    }
  }

  /** A block of whole messages is one of them, so the parser takes it. */
  lemma BlockIsMark(l: Link, whole: nat)
    requires Framed(l) && whole % MSG_LEN == 0 && whole + MSG_LEN <= |l.sent|
    ensures Parse(l.sent[whole..whole + MSG_LEN]).Some?
  {
    hide Encode, EncodeAll, Blocks;
    var block := l.sent[whole..whole + MSG_LEN];
    BlocksAreFull(l);
    NextBlock(l.sent, whole);
    BlocksOfPrefix(l.sent[..whole + MSG_LEN], l.sent);
    assert Blocks(l.sent[..whole + MSG_LEN])[|Blocks(l.sent[..whole])|] == Decode(block);
    assert Decode(block) in l.full;
  }

  lemma NextBlock(b: seq<byte>, whole: nat)
    requires whole % MSG_LEN == 0 && whole + MSG_LEN <= |b|
    ensures Blocks(b[..whole + MSG_LEN]) == Blocks(b[..whole]) + [Decode(b[whole..whole + MSG_LEN])]
  {
    hide Encode, Decode;
    var block := b[whole..whole + MSG_LEN];
    assert b[..whole + MSG_LEN] == b[..whole] + block;
    BlocksConcat(b[..whole], block);
    BlocksStep(block);
    assert block[..MSG_LEN] == block && Blocks(block[MSG_LEN..]) == [];
  }

  lemma NextBlockParses(l: Link, whole: nat)
    requires Framed(l) && whole % MSG_LEN == 0 && whole + MSG_LEN <= |l.sent|
    ensures var block := l.sent[whole..whole + MSG_LEN];
            Blocks(l.sent[..whole + MSG_LEN]) == Blocks(l.sent[..whole]) + Elements(Parse(block))
  {
    hide Framed, Decode, Blocks;
    BlockIsMark(l, whole);
    NextBlock(l.sent, whole);
  }

  lemma ReceiveKeeps(l: Link, n: nat)
    requires Framed(l) && Reassembled(l)
    ensures Framed(Receive(l, n)) && Reassembled(Receive(l, n))
    ensures Receive(l, n).full == l.full && Receive(l, n).open == l.open
  {
    hide Decode, Blocks, Parse, Framed, Reassembled;
    var r := Receive(l, n);
    ReceivingLeavesFraming(l, r);
    if r.taken != l.taken {
      ReceivedBytes(l, r.taken);
      if |l.buf| + n == MSG_LEN {
        BlockReceived(l);
      }
    }
  }

  lemma ReceivedBytes(l: Link, taken: nat)
    requires Reassembled(l) && l.taken <= taken <= |l.sent| && |l.buf| + taken - l.taken <= MSG_LEN
    ensures l.buf + l.sent[l.taken..taken] == l.sent[l.taken - |l.buf|..taken]
    ensures var buf := l.buf + l.sent[l.taken..taken];
            |buf| < MSG_LEN ==> Reassembled(l.(buf := buf, taken := taken))
  {
    hide Blocks;
  }

  lemma BlockReceived(l: Link)
    requires Framed(l) && Reassembled(l) && l.taken - |l.buf| + MSG_LEN <= |l.sent|
    ensures var whole := l.taken - |l.buf|;
            Reassembled(l.(buf := [], taken := whole + MSG_LEN,
                           got := l.got + Elements(Parse(l.sent[whole..whole + MSG_LEN]))))
  {
    hide Blocks, Parse, Framed;
    NextBlockParses(l, l.taken - |l.buf|);
  }

  lemma ReceivingLeavesFraming(l: Link, r: Link)
    requires Framed(l) && r.sent == l.sent && r.full == l.full && r.open == l.open
    ensures Framed(r)
  {
    hide EncodeAll;
  }

  lemma WriteWhole(l: Link, m: Msg)
    requires Framed(l) && Reassembled(l) && l.open && IsMark(m)
    ensures var r := l.(sent := l.sent + Encode(m), full := l.full + [m]); Framed(r) && Reassembled(r)
  {
    hide Encode, Reassembled;
    assert (l.full + [m])[..|l.full|] == l.full;
    WriteKeepsReassembled(l, Encode(m), l.(sent := l.sent + Encode(m), full := l.full + [m]));
  }

  lemma WritePart(l: Link, m: Msg, k: nat)
    requires Framed(l) && Reassembled(l) && l.open && k < MSG_LEN
    ensures var r := l.(sent := l.sent + Encode(m)[..k], open := false); Framed(r) && Reassembled(r)
  {
    hide Encode, EncodeAll, Reassembled;
    var whole := MSG_LEN * |l.full|;
    assert (l.sent + Encode(m)[..k])[..whole] == l.sent[..whole];
    WriteKeepsReassembled(l, Encode(m)[..k], l.(sent := l.sent + Encode(m)[..k], open := false));
  }

  lemma WriteKeepsReassembled(l: Link, bytes: seq<byte>, r: Link)
    requires Reassembled(l)
    requires r.sent == l.sent + bytes && r.taken == l.taken && r.buf == l.buf && r.got == l.got
    ensures Reassembled(r)
  {
    hide Blocks;
    var whole := l.taken - |l.buf|;
    assert r.sent[whole..l.taken] == l.sent[whole..l.taken];
    assert r.sent[..whole] == l.sent[..whole];
  }

  /** All messages written whole, in connection order. */
  function Completed(links: seq<Link>): seq<Msg> {
    if links == [] then [] else Completed(links[..|links| - 1]) + links[|links| - 1].full
  }

  /** All requests decoded by the server, in connection order. */
  function Decoded(links: seq<Link>): seq<Msg> {
    if links == [] then [] else Decoded(links[..|links| - 1]) + links[|links| - 1].got
  }

  /** Once every stream has been read to its end, what was decoded is what was written whole. */
  lemma {:induction false} AllReadAllDecoded(links: seq<Link>)
    requires forall c :: 0 <= c < |links| ==>
               Framed(links[c]) && Reassembled(links[c]) && links[c].taken == |links[c].sent|
    ensures Decoded(links) == Completed(links)
  {
    if links != [] {
      AllReadAllDecoded(links[..|links| - 1]);
      DecodedIsPrefix(links[|links| - 1]);
    }
  }

  lemma {:induction false} CompletedUnchanged(a: seq<Link>, b: seq<Link>)
    requires |a| == |b| && forall c :: 0 <= c < |a| ==> a[c].full == b[c].full
    ensures Completed(a) == Completed(b)
  {
    if a != [] {
      CompletedUnchanged(a[..|a| - 1], b[..|b| - 1]);
    }
  }

  /** Only the newest connection can be open, the pipe holds whole messages, and everything past the
      I2C process is a START or a STOP. */
  ghost predicate EthValid(e: Eth) {
    && (forall c :: 0 <= c < |e.links| ==> Framed(e.links[c]) && Reassembled(e.links[c]))
    && (forall c :: 0 <= c < |e.links| && e.links[c].open ==> e.sock == Some(c))
    && (e.sock.Some? ==> e.sock.value == |e.links| - 1 && e.links[e.sock.value].open)
    && |e.pipe| % MSG_LEN == 0
    && (forall m :: m in Elements(e.held) + Blocks(e.pipe) ==> IsMark(m))
  }

  /** Everything that has entered the pipe, in order, by where it is now. */
  function Carried(e: Eth): seq<Msg> {
    Completed(e.links) + Elements(e.held) + Blocks(e.pipe)
  }

  /** A non-empty pipe never yields a short read. */
  lemma ReadKeeps(e: Eth)
    requires EthValid(e)
    ensures EthValid(ReadPipe(e)) && Carried(ReadPipe(e)) == Carried(e)
    ensures e.held.None? && e.pipe != [] ==> ReadPipe(e).held.Some?
  {
    hide Decode, Framed, Reassembled;
    if e.held.None? && e.pipe != [] {
      var m, rest := Decode(e.pipe[..MSG_LEN]), Blocks(e.pipe[MSG_LEN..]);
      BlocksStep(e.pipe);
      assert Elements(e.held) + Blocks(e.pipe) == [m] + rest;
      assert Carried(e) == Completed(e.links) + [m] + rest;
    }
  }

  /** Fewer bytes than a message would be read and thrown away; `ReadKeeps` shows that this never happens. */
  lemma ShortReadIsLost(e: Eth)
    requires e.held.None? && |e.pipe| < MSG_LEN
    ensures ReadPipe(e) == e.(pipe := [])
  {
    hide Decode;
  }

  lemma FreshLinkIsFramed()
    ensures Framed(FRESH) && Reassembled(FRESH)
  {
    assert EncodeAll([]) == [] && Blocks([]) == [];
  }

  lemma ConnectKeeps(e: Eth, t: Try)
    requires EthValid(e)
    ensures EthValid(Connected(e, t)) && Carried(Connected(e, t)) == Carried(e)
    ensures Connected(e, t).held == e.held
  {
    hide Encode, Decode, Blocks, EncodeAll, Framed, Reassembled;
    if e.sock.None? && t.connects {
      FreshLinkIsFramed();
      assert (e.links + [FRESH])[..|e.links|] == e.links;
    }
  }

  lemma WrittenKeeps(e: Eth)
    requires EthValid(e) && e.held.Some? && e.sock.Some?
    ensures EthValid(Written(e)) && Carried(Written(e)) == Carried(e)
  {
    hide Encode, Decode, Blocks, EncodeAll, Framed, Reassembled;
    var m, s := e.held.value, e.sock.value;
    assert m in Elements(e.held) + Blocks(e.pipe);
    WriteWhole(e.links[s], m);
    assert Written(e).links[..s] == e.links[..s];
    assert Completed(Written(e).links) == Completed(e.links) + [m];
  }

  lemma CutKeeps(e: Eth, k: nat)
    requires EthValid(e) && e.held.Some? && e.sock.Some? && k < MSG_LEN
    ensures EthValid(Cut(e, k)) && Carried(Cut(e, k)) == Carried(e)
  {
    hide Encode, Decode, Blocks, EncodeAll, Framed, Reassembled;
    WritePart(e.links[e.sock.value], e.held.value, k);
    CompletedUnchanged(e.links, Cut(e, k).links);
  }

  /** Whatever a pass of the retry loop meets, nothing is lost, repeated or cut in two. */
  lemma AttemptKeeps(e: Eth, t: Try)
    requires EthValid(e)
    ensures EthValid(Attempt(e, t)) && Carried(Attempt(e, t)) == Carried(e)
  {
    hide Encode, Decode, Blocks, EncodeAll, Framed, Reassembled, Completed, Carried, EthValid;
    ConnectKeeps(e, t);
    var c := Connected(e, t);
    if e.held.Some? && c.sock.Some? {
      if t.accepted >= MSG_LEN {
        WrittenKeeps(c);
      } else {
        CutKeeps(c, t.accepted);
      }
    }
  }

  // ---------------------------------------------------------------- progress

  /** The pass meets a connection, live or newly made, and a write that is accepted whole. */
  predicate Succeeds(e: Eth, t: Try) {
    (e.sock.Some? || t.connects) && t.accepted >= MSG_LEN
  }

  /** Such a pass completes the message; any other leaves the process with the message and without a socket, and
      nothing completed. */
  lemma AttemptCompletesIff(e: Eth, t: Try)
    requires EthValid(e) && e.held.Some?
    ensures var r := Attempt(e, t);
            if Succeeds(e, t) then
              r.held.None? && r.sock.Some? && Completed(r.links) == Completed(e.links) + [e.held.value]
            else r.held == e.held && r.sock.None? && Completed(r.links) == Completed(e.links)
  {
    hide EthValid, Written, Cut, Connected, Completed;
    ConnectKeeps(e, t);
    ConnectCompletesNothing(e, t);
    var c := Connected(e, t);
    assert c.sock.Some? ==> c.sock.value < |c.links| by { SocketIsLast(c); }
    if c.sock.Some? {
      if t.accepted >= MSG_LEN {
        WrittenCompletes(c);
      } else {
        CutCompletesNothing(c, t.accepted);
      }
    }
  }

  lemma SocketIsLast(e: Eth)
    requires EthValid(e)
    ensures e.sock.Some? ==> e.sock.value == |e.links| - 1
  {
    hide Framed, Reassembled, Blocks;
  }

  lemma ConnectCompletesNothing(e: Eth, t: Try)
    ensures var c := Connected(e, t);
            && Completed(c.links) == Completed(e.links) && c.held == e.held
            && (c.sock.Some? <==> e.sock.Some? || t.connects)
  {
    assert (e.links + [FRESH])[..|e.links|] == e.links;
  }

  lemma WrittenCompletes(e: Eth)
    requires EthValid(e) && e.held.Some? && e.sock.Some?
    ensures e.sock.value < |e.links|
    ensures var r := Written(e);
            r.held.None? && r.sock.Some? && Completed(r.links) == Completed(e.links) + [e.held.value]
  {
    hide Encode, EthValid;
    SocketIsLast(e);
    var s := e.sock.value;
    assert Written(e).links[..s] == e.links[..s];
  }

  lemma CutCompletesNothing(e: Eth, k: nat)
    requires e.held.Some? && e.sock.Some? && e.sock.value < |e.links| && k < MSG_LEN
    ensures var r := Cut(e, k); r.held == e.held && r.sock.None? && Completed(r.links) == Completed(e.links)
  {
    hide Encode;
    CompletedUnchanged(e.links, Cut(e, k).links);
  }

  /** What a pass puts on the wire: as many bytes of the message as the write accepts, on the current or a new
      connection, which stays open only if that is all of them. The other connections are left alone. */
  lemma AttemptSends(e: Eth, t: Try)
    requires EthValid(e) && e.held.Some?
    ensures var r := Attempt(e, t);
            if e.sock.None? && !t.connects then r == e
            else
              var c := if e.sock.Some? then |e.links| - 1 else |e.links|;
              && |r.links| == c + 1 && r.links[..c] == e.links[..c]
              && r.links[c].sent == (if e.sock.Some? then e.links[c].sent else [])
                                    + Encode(e.held.value)[..Min(t.accepted, MSG_LEN)]
              && (r.links[c].open <==> t.accepted >= MSG_LEN)
  {
    hide Encode, Framed, Reassembled, Blocks;
  }

  /** The `k`-th of the tries is one that succeeds: its write is accepted whole, on a connection that it makes or, for
      the first, that was there. */
  predicate SucceedsAt(e: Eth, ts: seq<Try>, k: nat) {
    k < |ts| && ts[k].accepted >= MSG_LEN && (ts[k].connects || (k == 0 && e.sock.Some?))
  }

  /** The message is completed if and only if some try succeeds, and the first that does completes it. */
  lemma {:induction false} DeliversIff(e: Eth, ts: seq<Try>)
    requires EthValid(e) && e.held.Some?
    ensures var r := AttemptAll(e, ts);
            && EthValid(r)
            && (r.held.None? <==> exists k: nat :: SucceedsAt(e, ts, k))
            && (r.held.Some? ==> r.held == e.held && (ts != [] ==> r.sock.None?))
            && Completed(r.links) == Completed(e.links) + if r.held.None? then [e.held.value] else []
  {
    hide EthValid, Attempt, Completed, SucceedsAt, Succeeds;
    if ts == [] {
      assert Completed(e.links) + [] == Completed(e.links);
      NoTry(e);
    } else {
      var n := |ts| - 1;
      var before := AttemptAll(e, ts[..n]);
      DeliversIff(e, ts[..n]);
      SucceedsEarlier(e, ts);
      AttemptKeeps(before, ts[n]);
      if before.held.Some? {
        AttemptCompletesIff(before, ts[n]);
        if n == 0 {
          NoAttempt(e, ts);
        }
        SucceedsLast(e, ts, before);
        assert Completed(e.links) + [] == Completed(e.links);
      } else {
        NothingHeld(before, ts[n]);
        var k: nat :| SucceedsAt(e, ts[..n], k);
        assert SucceedsAt(e, ts, k);
      }
    }
  }

  lemma NoTry(e: Eth)
    ensures forall k: nat :: !SucceedsAt(e, [], k)
  {
  }

  lemma SucceedsEarlier(e: Eth, ts: seq<Try>)
    requires ts != []
    ensures forall k: nat :: SucceedsAt(e, ts, k) <==>
              SucceedsAt(e, ts[..|ts| - 1], k) || (k == |ts| - 1 && SucceedsAt(e, ts, |ts| - 1))
  {
  }

  lemma SucceedsLast(e: Eth, ts: seq<Try>, before: Eth)
    requires ts != [] && if |ts| == 1 then before == e else before.sock.None?
    ensures Succeeds(before, ts[|ts| - 1]) <==> SucceedsAt(e, ts, |ts| - 1)
  {
  }

  lemma NoAttempt(e: Eth, ts: seq<Try>)
    requires |ts| == 1
    ensures AttemptAll(e, ts[..0]) == e
  {
  }

  lemma NothingHeld(e: Eth, t: Try)
    requires e.held.None?
    ensures Attempt(e, t) == e
  {
  }

  /** Whatever the server reads, up to a whole request, it takes; so by its number alone, what has been received
      determines what has been decoded: the whole blocks of it. */
  lemma ReceiveAdvances(l: Link, n: nat)
    requires Framed(l) && Reassembled(l) && l.reading
    requires 0 < n <= MSG_LEN - |l.buf| && l.taken + n <= |l.sent|
    ensures var r := Receive(l, n);
            && r.taken == l.taken + n && r.sent == l.sent && r.reading
            && |r.buf| == r.taken % MSG_LEN
            && r.got == Blocks(l.sent[..r.taken - r.taken % MSG_LEN])
  {
    hide Decode, Blocks, Parse, Framed;
    ReceiveKeeps(l, n);
    BufferIsRemainder(Receive(l, n));
  }

  lemma BufferIsRemainder(l: Link)
    requires Reassembled(l)
    ensures |l.buf| == l.taken % MSG_LEN && l.got == Blocks(l.sent[..l.taken - l.taken % MSG_LEN])
  {
    hide Blocks;
  }
}
