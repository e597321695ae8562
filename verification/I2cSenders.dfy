/** The vehicle's I2C sender task: takes the oldest message of the queue and transmits it
    once, whatever comes of it. */
module I2cSenders {
  import opened Words
  import opened Wrappers
  import opened Wire
  import opened Sequences
  import opened EthProcesses
  import opened Pipelines

  /** The messages whose transmission succeeds. */
  function Delivered(ms: seq<Msg>, oks: seq<bool>): seq<Msg>
    requires |ms| == |oks|
  {
    if ms == [] then []
    else
      var n := |ms| - 1;
      Delivered(ms[..n], oks[..n]) + if oks[n] then [ms[n]] else []
  }

  class I2cSender {
    var queue: seq<Msg>
    var bus: seq<byte>

    constructor ()
      ensures queue == [] && bus == []
    {
      queue, bus := [], [];
    }

    /** The endless loop, for as long as `oks` tells how transmissions end. On an empty queue the task waits. */
    method Send(oks: seq<bool>)
      modifies this
      ensures var k := Min(|oks|, |old(queue)|);
              && queue == old(queue)[k..]
              && bus == old(bus) + EncodeAll(Delivered(old(queue)[..k], oks[..k]))
    {
      hide Encode, EncodeAll, Delivered;
      ghost var was, before := queue, bus;
      var i := 0;
      NothingDelivered();
      while i < |oks| && queue != []
        invariant 0 <= i <= Min(|oks|, |was|)
        invariant queue == was[i..]
        invariant bus == before + EncodeAll(Delivered(was[..i], oks[..i]))
      {
        DeliveredSnoc(was, oks, i);
        var msg := queue[0];
        queue := queue[1..];
        if oks[i] {
          bus := bus + Encode(msg);
        }
        i := i + 1;
      }
    }
  }

  lemma DeliveredSnoc(ms: seq<Msg>, oks: seq<bool>, i: nat)
    requires i < |ms| && i < |oks|
    ensures var front := Delivered(ms[..i], oks[..i]);
            && Delivered(ms[..i + 1], oks[..i + 1]) == front + (if oks[i] then [ms[i]] else [])
            && EncodeAll(Delivered(ms[..i + 1], oks[..i + 1]))
               == EncodeAll(front) + if oks[i] then Encode(ms[i]) else []
  {
    hide Encode;
    assert ms[..i + 1][..i] == ms[..i] && oks[..i + 1][..i] == oks[..i];
    var front := Delivered(ms[..i], oks[..i]);
    if oks[i] {
      assert (front + [ms[i]])[..|front|] == front;
    } else {
      assert front + [] == front;
    }
  }

  lemma NothingDelivered()
    ensures EncodeAll(Delivered([], [])) == []
  {
  }

  lemma {:induction false} DeliveredInOrder(ms: seq<Msg>, oks: seq<bool>)
    requires |ms| == |oks|
    ensures Subsequence(Delivered(ms, oks), ms)
    ensures |Delivered(ms, oks)| == multiset(oks)[true]
  {
    if ms == [] {
      SubsequenceReflexive(ms);
    } else {
      var n := |ms| - 1;
      var last := if oks[n] then [ms[n]] else [];
      DeliveredInOrder(ms[..n], oks[..n]);
      assert ms == ms[..n] + [ms[n]] && oks == oks[..n] + [oks[n]];
      if oks[n] {
        SubsequenceReflexive(last);
        SubsequenceConcat(Delivered(ms[..n], oks[..n]), ms[..n], last, [ms[n]]);
      } else {
        assert Delivered(ms[..n], oks[..n]) + [] == Delivered(ms[..n], oks[..n]);
        SubsequenceExtend(Delivered(ms[..n], oks[..n]), ms[..n], [ms[n]]);
      }
    }
  }

  /** `f` lists the positions of the successes. */
  ghost predicate ListsSuccesses(oks: seq<bool>, f: seq<nat>) {
    && (forall i :: 0 <= i < |f| ==> f[i] < |oks|)
    && (forall k: nat :: k in f <==> k < |oks| && oks[k])
  }

  lemma OneMoreOutcome(oks: seq<bool>, f: seq<nat>)
    requires oks != [] && ListsSuccesses(oks[..|oks| - 1], f)
    ensures ListsSuccesses(oks, if oks[|oks| - 1] then f + [|oks| - 1] else f)
  {
    var n := |oks| - 1;
    forall k: nat ensures k in f <==> k < n && oks[k] {
      assert k in f <==> k < n && oks[..n][k];
    }
  }

  /** The delivered messages are those at the positions of the successes. */
  lemma {:induction false} DeliveredAtSuccesses(ms: seq<Msg>, oks: seq<bool>) returns (f: seq<nat>)
    requires |ms| == |oks|
    ensures Embeds(Delivered(ms, oks), ms, f) && ListsSuccesses(oks, f)
  {
    if ms == [] {
      f := [];
    } else {
      hide Embeds, ListsSuccesses;
      var n := |ms| - 1;
      var front := Delivered(ms[..n], oks[..n]);
      f := DeliveredAtSuccesses(ms[..n], oks[..n]);
      OneMoreOutcome(oks, f);
      EmbedsSnoc(front, ms, f, oks[n]);
      assert front + [] == front;
      f := if oks[n] then f + [n] else f;
    }
  }

  /** Read in units of 17 bytes, the bus yields exactly the delivered messages: in queue order, as many
      as transmissions succeeded, none twice. */
  lemma BusCarriesDelivered(ms: seq<Msg>, oks: seq<bool>)
    requires |ms| == |oks|
    ensures Blocks(EncodeAll(Delivered(ms, oks))) == Delivered(ms, oks)
    ensures |Delivered(ms, oks)| == multiset(oks)[true]
    ensures exists f :: Embeds(Delivered(ms, oks), ms, f) && ListsSuccesses(oks, f)
  {
    DeliveredInOrder(ms, oks);
    var f := DeliveredAtSuccesses(ms, oks);
    BlocksOfEncoded(Delivered(ms, oks), []);
    assert EncodeAll(Delivered(ms, oks)) + [] == EncodeAll(Delivered(ms, oks));
  }

  /** One pass of the task is the two pipeline actions: the oldest message leaves the queue for good, and arrives
      unaltered if and only if its one transmission succeeds. */
  lemma PassIsGetAndTransmit(s: State, ok: bool)
    requires s.queue != [] && s.sending.None? && s.judging.None?
    ensures Step(Step(s, Get), Transmit(ok))
            == s.(queue := s.queue[1..], judging := if ok then Some(s.queue[0]) else None)
  {
    hide Encode, Decode;
    DecodeEncode(s.queue[0]);
  }
}
