/** The whole path from the vehicle's task to the server's parser, as one step-based system:
    every interleaving and every failure schedule is a sequence of actions. */
module Pipelines {
  import opened Words
  import opened Wrappers
  import opened Wire
  import opened Sequences
  import opened Simulator
  import opened I2cProcesses
  import opened EthProcesses

  const QUEUE_SIZE: nat := 16

  /** `ticks` and `emitted` record the iterations of the GPS task and what they announced, `piped`
      what the I2C process wrote. In between: the message the GPS task is blocked on, the queue, the
      message the I2C sender is transmitting, and the one the BeagleBone has read but not judged. */
  datatype State = State(license: uint32, origin: Vehicle, ticks: seq<Tick>, emitted: seq<Msg>,
                         blocked: Option<Msg>, queue: seq<Msg>, sending: Option<Msg>, judging: Option<Msg>,
                         piped: seq<Msg>, eth: Eth)

  datatype Action =
    | Iterate(tick: Tick)               // the GPS task builds its next message
    | Put                               // and gets it into the queue
    | Get                               // the sender task takes the oldest message
    | Transmit(delivered: bool)         // and transmits it once, whatever the outcome
    | Judge(now: int, wrote: bool)      // the I2C process validates and forwards
    | Read                              // the Ethernet process reads the pipe
    | Retry(try: Try)                   // and passes once through its retry loop
    | Recv(c: nat, n: nat)              // the server receives on a connection
    | Abandon(c: nat)                   // or stops reading it for good

  function Init(license: uint32, origin: Vehicle): State {
    State(license, origin, [], [], None, [], None, None, [], Eth([], None, None, []))
  }

  /** One step; an action that is not enabled changes nothing. */
  function Step(s: State, a: Action): State {
    match a
    case Iterate(tick) =>
      if s.blocked.Some? then s
      else
        var m := Announce(After(s.origin, s.ticks), tick, s.license);
        s.(ticks := s.ticks + [tick], emitted := s.emitted + [m], blocked := Some(m))
    case Put =>
      if s.blocked.None? || |s.queue| >= QUEUE_SIZE then s
      else s.(queue := s.queue + [s.blocked.value], blocked := None)
    case Get =>
      if s.sending.Some? || s.queue == [] then s
      else s.(sending := Some(s.queue[0]), queue := s.queue[1..])
    case Transmit(delivered) =>
      if s.sending.None? then s
      else if !delivered then s.(sending := None)
      else if s.judging.Some? then s
      else s.(sending := None, judging := Some(Decode(Encode(s.sending.value))))
    case Judge(now, wrote) =>
      if s.judging.None? then s
      else if Forwards(s.judging.value, now) && wrote then
        var m := s.judging.value;
        s.(judging := None, piped := s.piped + [m], eth := s.eth.(pipe := s.eth.pipe + Encode(m)))
      else s.(judging := None)
    case Read => s.(eth := ReadPipe(s.eth))
    case Retry(try) => s.(eth := Attempt(s.eth, try))
    case Recv(c, n) =>
      if c >= |s.eth.links| then s
      else s.(eth := s.eth.(links := s.eth.links[c := Receive(s.eth.links[c], n)]))
    case Abandon(c) =>
      if c >= |s.eth.links| then s
      else s.(eth := s.eth.(links := s.eth.links[c := s.eth.links[c].(reading := false)]))
  }

  function Exec(s: State, actions: seq<Action>): State {
    if actions == [] then s else Step(Exec(s, actions[..|actions| - 1]), actions[|actions| - 1])
  }

  /** Everything before the pipe, oldest first. */
  function Upstream(s: State): seq<Msg> {
    Elements(s.judging) + Elements(s.sending) + s.queue + Elements(s.blocked)
  }

  ghost predicate Inv(s: State) {
    && s.emitted == Sent(s.origin, s.ticks, s.license)
    && |s.queue| <= QUEUE_SIZE
    && EthValid(s.eth)
    && s.piped == Carried(s.eth)
    && (forall m :: m in s.piped ==> IsMark(m))
    && Subsequence(s.piped + Upstream(s), s.emitted)
  }

  // ---------------------------------------------------------------- each action keeps the invariant

  lemma IterateKeeps(s: State, tick: Tick)
    requires Inv(s)
    ensures Inv(Step(s, Iterate(tick)))
  {
    hide EthValid, Carried, Announce, After, Sent, Subsequence, Encode, Decode;
    if s.blocked.None? {
      var r, m := Step(s, Iterate(tick)), [Announce(After(s.origin, s.ticks), tick, s.license)];
      SentSnoc(s.origin, s.ticks, tick, s.license);
      SubsequenceReflexive(m);
      SubsequenceConcat(s.piped + Upstream(s), s.emitted, m, m);
      assert Upstream(r) == Upstream(s) + m;
      assert r.piped + Upstream(r) == s.piped + Upstream(s) + m;
    }
  }

  lemma QueueKeeps(s: State, a: Action)
    requires Inv(s) && (a.Put? || a.Get?)
    ensures Inv(Step(s, a))
  {
    hide EthValid, Carried, Announce, Subsequence, Sent, Encode, Decode;
    var r := Step(s, a);
    assert Upstream(r) == Upstream(s);
  }

  lemma Dropped(before: seq<Msg>, m: Msg, after: seq<Msg>, emitted: seq<Msg>)
    requires Subsequence(before + [m] + after, emitted)
    ensures Subsequence(before + after, emitted)
  {
    SubsequenceDelete(before, [m], after);
    SubsequenceTransitive(before + after, before + [m] + after, emitted);
  }

  lemma TransmitKeeps(s: State, delivered: bool)
    requires Inv(s)
    ensures Inv(Step(s, Transmit(delivered)))
  {
    hide EthValid, Carried, Announce, Encode, Decode, Subsequence, Sent;
    var r := Step(s, Transmit(delivered));
    if s.sending.Some? && !delivered {
      var m := s.sending.value;
      var before, after := s.piped + Elements(s.judging), s.queue + Elements(s.blocked);
      assert s.piped + Upstream(s) == before + [m] + after;
      Dropped(before, m, after, s.emitted);
      assert r.piped + Upstream(r) == before + after;
    } else if s.sending.Some? && s.judging.None? {
      DecodeEncode(s.sending.value);
      assert Upstream(r) == Upstream(s);
    }
  }

  lemma PipeGrows(e: Eth, m: Msg)
    requires EthValid(e) && IsMark(m)
    ensures EthValid(e.(pipe := e.pipe + Encode(m)))
    ensures Carried(e.(pipe := e.pipe + Encode(m))) == Carried(e) + [m]
  {
    hide Encode, Decode, Framed, Reassembled;
    BlocksSnoc(e.pipe, m);
  }

  lemma JudgeKeeps(s: State, now: int, wrote: bool)
    requires Inv(s)
    ensures Inv(Step(s, Judge(now, wrote)))
  {
    hide Announce, Encode, Decode, Accepts, EthValid, Carried, Subsequence, Sent;
    if s.judging.Some? {
      var m, r := s.judging.value, Step(s, Judge(now, wrote));
      var after := Elements(s.sending) + s.queue + Elements(s.blocked);
      assert s.piped + Upstream(s) == s.piped + [m] + after;
      if Forwards(m, now) && wrote {
        PipeGrows(s.eth, m);
        assert r.piped + Upstream(r) == s.piped + [m] + after;
      } else {
        Dropped(s.piped, m, after, s.emitted);
        assert r.piped + Upstream(r) == s.piped + after;
      }
    }
  }

  lemma LinkKeeps(s: State, c: nat, l: Link)
    requires Inv(s) && c < |s.eth.links|
    requires Framed(l) && Reassembled(l) && l.full == s.eth.links[c].full && l.open == s.eth.links[c].open
    ensures Inv(s.(eth := s.eth.(links := s.eth.links[c := l])))
  {
    hide Framed, Reassembled, Blocks, Announce;
    CompletedUnchanged(s.eth.links, s.eth.links[c := l]);
  }

  lemma ProcessKeeps(s: State, a: Action)
    requires Inv(s) && (a.Read? || a.Retry?)
    ensures Inv(Step(s, a))
  {
    hide EthValid, Carried, ReadPipe, Attempt, Announce;
    if a.Read? {
      ReadKeeps(s.eth);
    } else {
      AttemptKeeps(s.eth, a.try);
    }
  }

  lemma ServerKeeps(s: State, a: Action)
    requires Inv(s) && (a.Recv? || a.Abandon?)
    ensures Inv(Step(s, a))
  {
    hide Framed, Reassembled, Receive, Announce, Carried, Blocks;
    if a.c < |s.eth.links| {
      var l := s.eth.links[a.c];
      if a.Recv? {
        ReceiveKeeps(l, a.n);
        LinkKeeps(s, a.c, Receive(l, a.n));
      } else {
        AbandonKeeps(l);
        LinkKeeps(s, a.c, l.(reading := false));
      }
    }
  }

  lemma AbandonKeeps(l: Link)
    requires Framed(l) && Reassembled(l)
    ensures Framed(l.(reading := false)) && Reassembled(l.(reading := false))
  {
  }

  lemma StepKeeps(s: State, a: Action)
    requires Inv(s)
    ensures Inv(Step(s, a))
  {
    hide Inv, Step;
    match a
    case Iterate(tick) => IterateKeeps(s, tick);
    case Put => QueueKeeps(s, a);
    case Get => QueueKeeps(s, a);
    case Transmit(delivered) => TransmitKeeps(s, delivered);
    case Judge(now, wrote) => JudgeKeeps(s, now, wrote);
    case Read => ProcessKeeps(s, a);
    case Retry(try) => ProcessKeeps(s, a);
    case Recv(c, n) => ServerKeeps(s, a);
    case Abandon(c) => ServerKeeps(s, a);
  }

  lemma StepKeepsVehicle(s: State, a: Action)
    ensures Step(s, a).license == s.license && Step(s, a).origin == s.origin
  {
    hide Receive, Attempt, ReadPipe, Encode, Decode, Forwards, Announce;
  }

  lemma InitKeeps(license: uint32, origin: Vehicle)
    ensures Inv(Init(license, origin))
  {
    hide Announce, Next, Framed;
    var s := Init(license, origin);
    assert s.piped + Upstream(s) == [];
    assert Embeds([], s.emitted, []);
  }

  lemma {:induction false} ExecKeeps(license: uint32, origin: Vehicle, actions: seq<Action>)
    ensures Inv(Exec(Init(license, origin), actions))
    ensures var s := Exec(Init(license, origin), actions); s.license == license && s.origin == origin
  {
    hide Inv, Step;
    var s0 := Init(license, origin);
    if actions == [] {
      InitKeeps(license, origin);
    } else {
      var n := |actions| - 1;
      ExecKeeps(license, origin, actions[..n]);
      StepKeeps(Exec(s0, actions[..n]), actions[n]);
      StepKeepsVehicle(Exec(s0, actions[..n]), actions[n]);
    }
  }

  // ---------------------------------------------------------------- results

  /** In every reachable state, the messages written whole to sockets, then the one the Ethernet
      process holds, then those in the pipe, then those still upstream are, in this order, a
      subsequence of what the vehicle emitted: nothing is invented, altered, repeated or overtaken. Past
      the I2C process nothing is lost either, and the queue never exceeds its 16 entries. */
  lemma Conservation(license: uint32, origin: Vehicle, actions: seq<Action>)
    ensures var s := Exec(Init(license, origin), actions);
            && s.emitted == Sent(origin, s.ticks, license)
            && Subsequence(Completed(s.eth.links) + Elements(s.eth.held) + Blocks(s.eth.pipe) + Upstream(s), s.emitted)
            && s.piped == Completed(s.eth.links) + Elements(s.eth.held) + Blocks(s.eth.pipe)
            && (forall m :: m in s.piped ==> IsMark(m))
            && |s.queue| <= QUEUE_SIZE
  {
    ExecKeeps(license, origin, actions);
  }

  /** The pipe always holds whole messages, so a read never comes up short, and what has been read so
      far and what is still in the pipe are together what was written, in order. */
  lemma PipeStaysAligned(license: uint32, origin: Vehicle, actions: seq<Action>)
    ensures var s := Exec(Init(license, origin), actions);
            && |s.eth.pipe| % MSG_LEN == 0
            && Completed(s.eth.links) + Elements(s.eth.held) <= s.piped
            && s.piped[|Completed(s.eth.links) + Elements(s.eth.held)|..] == Blocks(s.eth.pipe)
            && (s.eth.held.None? && s.eth.pipe != [] ==> ReadPipe(s.eth).held == Some(Blocks(s.eth.pipe)[0]))
  {
    ExecKeeps(license, origin, actions);
    var s := Exec(Init(license, origin), actions);
    if s.eth.pipe != [] {
      BlocksStep(s.eth.pipe);
    }
  }

  /** Under every failure schedule, each connection decodes a prefix of the messages written whole to it;
      the connections together never complete a message of the vehicle twice; and if every stream is read
      to its end, the decoded requests in connection order are the completed messages. */
  lemma NoDuplicateNoShiftedFrame(license: uint32, origin: Vehicle, actions: seq<Action>)
    ensures var s := Exec(Init(license, origin), actions);
            && s.emitted == Sent(origin, s.ticks, license)
            && (forall c :: 0 <= c < |s.eth.links| ==> s.eth.links[c].got <= s.eth.links[c].full)
            && Subsequence(Completed(s.eth.links), s.emitted)
            && ((forall c :: 0 <= c < |s.eth.links| ==> s.eth.links[c].taken == |s.eth.links[c].sent|) ==>
                  Decoded(s.eth.links) == Completed(s.eth.links))
  {
    ExecKeeps(license, origin, actions);
    var s := Exec(Init(license, origin), actions);
    DecodedFits(s.eth);
    CompletedOnce(s);
  }

  lemma DecodedFits(e: Eth)
    requires EthValid(e)
    ensures forall c :: 0 <= c < |e.links| ==> e.links[c].got <= e.links[c].full
    ensures (forall c :: 0 <= c < |e.links| ==> e.links[c].taken == |e.links[c].sent|) ==>
              Decoded(e.links) == Completed(e.links)
  {
    hide Framed, Reassembled, Blocks;
    forall c | 0 <= c < |e.links| ensures e.links[c].got <= e.links[c].full {
      DecodedIsPrefix(e.links[c]);
    }
    if forall c :: 0 <= c < |e.links| ==> e.links[c].taken == |e.links[c].sent| {
      AllReadAllDecoded(e.links);
    }
  }

  lemma CompletedOnce(s: State)
    requires Inv(s)
    ensures Subsequence(Completed(s.eth.links), s.emitted)
  {
    hide EthValid, Blocks, Upstream;
    var done, rest := Completed(s.eth.links), Elements(s.eth.held) + Blocks(s.eth.pipe) + Upstream(s);
    assert s.piped + Upstream(s) == done + rest;
    SubsequenceDelete(done, rest, []);
    assert done + [] == done && done + rest + [] == done + rest;
    SubsequenceTransitive(done, done + rest, s.emitted);
  }

  /** A connection that the server has stopped reading. */
  predicate Abandoned(s: State, c: nat) {
    c < |s.eth.links| && !s.eth.links[c].reading
  }

  lemma AbandonedStep(s: State, c: nat, a: Action)
    requires Abandoned(s, c)
    ensures Abandoned(Step(s, a), c)
    ensures Step(s, a).eth.links[c].taken == s.eth.links[c].taken && Step(s, a).eth.links[c].got == s.eth.links[c].got
  {
    hide Encode, Decode, Forwards, Announce, After, Parse;
  }

  /** What the server has decoded when it stops reading a connection is all it will ever decode from it. */
  lemma {:induction false} AbandonedIsFinal(s: State, c: nat, actions: seq<Action>)
    requires c < |s.eth.links|
    ensures var r := Exec(Step(s, Abandon(c)), actions);
            Abandoned(r, c) && r.eth.links[c].taken == s.eth.links[c].taken && r.eth.links[c].got == s.eth.links[c].got
  {
    var n := |actions| - 1;
    if actions != [] {
      hide Step;
      AbandonedIsFinal(s, c, actions[..n]);
      AbandonedStep(Exec(Step(s, Abandon(c)), actions[..n]), c, actions[n]);
    }
  }

  // ---------------------------------------------------------------- without faults

  /** Nothing is on its way, and the server has read every stream and goes on reading the current one. */
  ghost predicate AtRest(s: State) {
    && s.blocked.None? && s.queue == [] && s.sending.None? && s.judging.None?
    && s.eth.held.None? && s.eth.pipe == []
    && AllRead(s.eth)
  }

  ghost predicate AllRead(e: Eth) {
    && (forall c :: 0 <= c < |e.links| ==> e.links[c].taken == |e.links[c].sent|)
    && (e.sock.Some? ==> e.sock.value < |e.links| && e.links[e.sock.value].reading)
  }

  /** The connection that the next message will take. */
  function Current(e: Eth): nat {
    if e.sock.Some? then e.sock.value else |e.links|
  }

  /** While the sender task does not run, the queue takes sixteen messages; with sixteen in it, the vehicle's task is
      blocked on the next. */
  lemma {:induction false} QueueTakesSixteen(license: uint32, origin: Vehicle, ticks: seq<Tick>)
    returns (actions: seq<Action>)
    requires |ticks| <= 16
    ensures var s := Exec(Init(license, origin), actions);
            && s == Init(license, origin).(ticks := ticks, emitted := s.emitted, queue := s.emitted)
            && |s.emitted| == |ticks|
            && forall tick :: |ticks| == 16 ==> Step(Step(s, Iterate(tick)), Put) == Step(s, Iterate(tick))
  {
    hide Announce, After;
    if ticks == [] {
      actions := [];
    } else {
      var n := |ticks| - 1;
      var before := QueueTakesSixteen(license, origin, ticks[..n]);
      var both := [Iterate(ticks[n])] + [Put];
      actions := before + both;
      var s := Exec(Init(license, origin), before);
      ExecConcat(Init(license, origin), before, both);
      ExecFirst(s, Iterate(ticks[n]), [Put]);
      ExecOne(Step(s, Iterate(ticks[n])), Put);
      assert ticks == ticks[..n] + [ticks[n]];
    }
  }

  /** From the vehicle's task into the pipe, with nothing failing; */
  function CleanUpstream(tick: Tick, now: int): seq<Action> {
    [Iterate(tick), Put, Get, Transmit(true), Judge(now, true)]
  }

  /** and on from the pipe to the server's parser. */
  function CleanDownstream(c: nat): seq<Action> {
    [Read, Retry(Try(true, MSG_LEN)), Recv(c, MSG_LEN)]
  }

  lemma {:induction false} ExecConcat(s: State, a: seq<Action>, b: seq<Action>)
    ensures Exec(s, a + b) == Exec(Exec(s, a), b)
  {
    hide Step;
    if b == [] {
      assert a + b == a;
    } else {
      var n := |b| - 1;
      assert (a + b)[..|a| + n] == a + b[..n];
      ExecConcat(s, a, b[..n]);
    }
  }

  lemma ExecOne(s: State, a: Action)
    ensures Exec(s, [a]) == Step(s, a)
  {
    hide Step;
    assert [a][..0] == [];
  }

  lemma ExecFirst(s: State, a: Action, rest: seq<Action>)
    ensures Exec(s, [a] + rest) == Exec(Step(s, a), rest)
  {
    ExecConcat(s, [a], rest);
    ExecOne(s, a);
  }

  /** The message the vehicle announces next is judged as it was built. */
  lemma CleanUpstreamForwards(s: State, tick: Tick, now: int)
    requires s.blocked.None? && s.queue == [] && s.sending.None? && s.judging.None?
    ensures var r, m := Exec(s, CleanUpstream(tick, now)), Announce(After(s.origin, s.ticks), tick, s.license);
            var piped := if Forwards(m, now) then [m] else [];
            r == s.(ticks := s.ticks + [tick], emitted := s.emitted + [m], piped := s.piped + piped,
                    eth := s.eth.(pipe := s.eth.pipe + EncodeAll(piped)))
  {
    hide Announce, After, Encode, Decode, Forwards, Exec, EncodeAll;
    var m := Announce(After(s.origin, s.ticks), tick, s.license);
    var os := CleanUpstream(tick, now);
    assert os == [os[0]] + ([os[1]] + ([os[2]] + ([os[3]] + [os[4]])));
    var s1 := Step(s, os[0]);
    var s2 := Step(s1, os[1]);
    var s3 := Step(s2, os[2]);
    var s4 := Step(s3, os[3]);
    ExecFirst(s, os[0], [os[1]] + ([os[2]] + ([os[3]] + [os[4]])));
    ExecFirst(s1, os[1], [os[2]] + ([os[3]] + [os[4]]));
    ExecFirst(s2, os[2], [os[3]] + [os[4]]);
    ExecFirst(s3, os[3], [os[4]]);
    ExecOne(s4, os[4]);
    DecodeEncode(m);
    EncodeFew(m);
    assert s.piped + [] == s.piped && s.eth.pipe + [] == s.eth.pipe;
  }

  lemma EncodeFew(m: Msg)
    ensures EncodeAll([]) == [] && EncodeAll([m]) == Encode(m)
  {
    hide Encode;
    assert [m][..0] == [] && EncodeAll([]) + Encode(m) == Encode(m);
  }

  lemma CleanDownstreamSteps(s: State)
    ensures var e := Attempt(ReadPipe(s.eth), Try(true, MSG_LEN));
            Exec(s, CleanDownstream(Current(s.eth))) == Step(s.(eth := e), Recv(Current(s.eth), MSG_LEN))
  {
    hide Exec, Step;
    var os := CleanDownstream(Current(s.eth));
    assert os == [os[0]] + ([os[1]] + [os[2]]);
    var s1 := s.(eth := ReadPipe(s.eth));
    var s2 := s1.(eth := Attempt(s1.eth, Try(true, MSG_LEN)));
    ExecFirst(s, os[0], [os[1]] + [os[2]]);
    ProcessSteps(s);
    ProcessSteps(s1);
    ExecFirst(s1, os[1], [os[2]]);
    ExecOne(s2, os[2]);
  }

  lemma ProcessSteps(s: State)
    ensures Step(s, Read) == s.(eth := ReadPipe(s.eth))
    ensures forall t :: Step(s, Retry(t)) == s.(eth := Attempt(s.eth, t))
  {
    hide ReadPipe, Attempt;
  }

  /** With nothing in the pipe, the rest of the way does nothing. */
  lemma NothingToForward(s: State)
    requires AtRest(s)
    ensures Exec(s, CleanDownstream(Current(s.eth))) == s
  {
    hide Exec, Encode, Decode, Parse;
    CleanDownstreamSteps(s);
  }

  /** One message in the pipe is written whole to the current connection. */
  lemma CleanDownstreamWrites(e: Eth, m: Msg)
    requires EthValid(e) && AllRead(e) && e.held == Some(m) && e.pipe == []
    ensures var r, c := Attempt(e, Try(true, MSG_LEN)), Current(e);
            && r.sock == Some(c) && c < |r.links| && r.held.None? && r.pipe == []
            && r.links[c].reading && r.links[c].taken + MSG_LEN == |r.links[c].sent|
            && (forall d :: 0 <= d < |r.links| && d != c ==> r.links[d].taken == |r.links[d].sent|)
  {
    hide Encode, Framed, Reassembled, Blocks, EncodeAll;
  }

  lemma LastRequestIsRead(l: Link)
    requires Framed(l) && Reassembled(l) && l.open && l.reading && l.taken + MSG_LEN == |l.sent|
    ensures var r := Receive(l, MSG_LEN); r.taken == |r.sent| && r.reading
  {
    hide EncodeAll, Receive, Blocks;
    BufferIsRemainder(l);
    ReceiveAdvances(l, MSG_LEN);
  }

  /** From rest, one announcement without faults brings the system back to rest, with the message decoded if the
      validator forwards it, and nothing else changed. */
  lemma CleanPassDelivers(s: State, tick: Tick, now: int) returns (actions: seq<Action>)
    requires Inv(s) && AtRest(s)
    ensures var r, m := Exec(s, actions), Announce(After(s.origin, s.ticks), tick, s.license);
            && Inv(r) && AtRest(r) && r.license == s.license && r.origin == s.origin
            && r.ticks == s.ticks + [tick] && r.emitted == s.emitted + [m]
            && Completed(r.eth.links) == Completed(s.eth.links) + if Forwards(m, now) then [m] else []
  {
    var m := Announce(After(s.origin, s.ticks), tick, s.license);
    var up := CleanUpstream(tick, now);
    var s1 := Exec(s, up);
    CleanUpstreamForwards(s, tick, now);
    var down := CleanDownstream(Current(s1.eth));
    actions := up + down;
    ExecConcat(s, up, down);
    RunKeeps(s, up);
    if Forwards(m, now) {
      EncodeFew(m);
      OneInPipe(s1, s, m);
    } else {
      EncodeFew(m);
      assert s.eth.pipe + [] == s.eth.pipe;
      NothingToForward(s1);
      assert Completed(s.eth.links) + [] == Completed(s.eth.links);
    }
  }

  lemma {:induction false} RunKeeps(s: State, actions: seq<Action>)
    requires Inv(s)
    ensures Inv(Exec(s, actions))
  {
    hide Inv, Step;
    if actions != [] {
      RunKeeps(s, actions[..|actions| - 1]);
      StepKeeps(Exec(s, actions[..|actions| - 1]), actions[|actions| - 1]);
    }
  }

  lemma OneInPipe(s: State, before: State, m: Msg)
    requires Inv(s) && AtRest(before)
    requires s == before.(ticks := s.ticks, emitted := s.emitted, piped := s.piped,
                          eth := before.eth.(pipe := Encode(m)))
    ensures var r := Exec(s, CleanDownstream(Current(s.eth)));
            && Inv(r) && AtRest(r) && r.license == s.license && r.origin == s.origin
            && r.ticks == s.ticks && r.emitted == s.emitted
            && Completed(r.eth.links) == Completed(s.eth.links) + [m]
  {
    hide Encode, Decode, Framed, Reassembled, Blocks, EncodeAll, Receive, Attempt, ReadPipe, Completed, Exec, Announce;
    var c := Current(s.eth);
    var read := ReadPipe(s.eth);
    var e := Attempt(read, Try(true, MSG_LEN));
    RunKeeps(s, CleanDownstream(c));
    CleanDownstreamSteps(s);
    ReadKeeps(s.eth);
    PipeGivesMessage(s.eth, m);
    CleanDownstreamWrites(read, m);
    AttemptCompletesIff(read, Try(true, MSG_LEN));
    AttemptKeeps(read, Try(true, MSG_LEN));
    LastRequestIsRead(e.links[c]);
    ReceiveKeeps(e.links[c], MSG_LEN);
    CompletedUnchanged(e.links, e.links[c := Receive(e.links[c], MSG_LEN)]);
  }

  lemma PipeGivesMessage(e: Eth, m: Msg)
    requires e.held.None? && e.pipe == Encode(m)
    ensures ReadPipe(e) == e.(held := Some(m), pipe := [])
  {
    hide Encode, Decode;
    DecodeEncode(m);
    assert e.pipe[..MSG_LEN] == e.pipe && e.pipe[MSG_LEN..] == [];
  }

  /** What of `ms` the validator forwards, judging each at its clock reading. */
  function Forwarded(ms: seq<Msg>, nows: seq<int>): seq<Msg>
    requires |ms| == |nows|
  {
    if ms == [] then []
    else
      var n := |ms| - 1;
      Forwarded(ms[..n], nows[..n]) + if Forwards(ms[n], nows[n]) then [ms[n]] else []
  }

  /** Without faults nothing is lost: for every run of the vehicle there is a run of the whole system in which the
      server decodes exactly the announcements that the validator forwards, and nothing is left on the way. */
  lemma {:induction false} FaultFreeDelivers(license: uint32, origin: Vehicle, ticks: seq<Tick>, nows: seq<int>)
    returns (actions: seq<Action>)
    requires |ticks| == |nows|
    ensures var s := Exec(Init(license, origin), actions);
            && Inv(s) && AtRest(s) && s.license == license && s.origin == origin
            && s.ticks == ticks && s.emitted == Sent(origin, ticks, license)
            && Decoded(s.eth.links) == Completed(s.eth.links) == Forwarded(Sent(origin, ticks, license), nows)
  {
    hide Inv, Step, Announce, Next, After, Sent, Forwarded, AtRest, Exec;
    var s0 := Init(license, origin);
    if ticks == [] {
      actions := [];
      InitKeeps(license, origin);
      NothingDone(license, origin);
    } else {
      var n := |ticks| - 1;
      var before := FaultFreeDelivers(license, origin, ticks[..n], nows[..n]);
      var mid := Exec(s0, before);
      var last := CleanPassDelivers(mid, ticks[n], nows[n]);
      actions := before + last;
      ExecConcat(s0, before, last);
      var m := Announce(After(origin, ticks[..n]), ticks[n], license);
      assert ticks == ticks[..n] + [ticks[n]] && nows == nows[..n] + [nows[n]];
      SentSnoc(origin, ticks[..n], ticks[n], license);
      ForwardedSnoc(mid.emitted, nows[..n], m, nows[n]);
      RestIsDecoded(Exec(s0, actions));
    }
  }

  lemma NothingDone(license: uint32, origin: Vehicle)
    ensures var s := Init(license, origin);
            Exec(s, []) == s && AtRest(s) && Sent(origin, [], license) == [] && Forwarded([], []) == []
  {
  }

  lemma ForwardedSnoc(ms: seq<Msg>, nows: seq<int>, m: Msg, now: int)
    requires |ms| == |nows|
    ensures Forwarded(ms + [m], nows + [now]) == Forwarded(ms, nows) + if Forwards(m, now) then [m] else []
  {
    hide Forwards;
    assert (ms + [m])[..|ms|] == ms && (nows + [now])[..|nows|] == nows;
  }

  lemma RestIsDecoded(s: State)
    requires Inv(s) && AtRest(s)
    ensures Decoded(s.eth.links) == Completed(s.eth.links)
  {
    hide Framed, Reassembled, Blocks, Announce;
    AllReadAllDecoded(s.eth.links);
  }
}
