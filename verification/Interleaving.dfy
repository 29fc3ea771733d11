/** Calls of one side of the ring with the steps of the other side in between: before every
    load, store and byte copied the other side may take any number of steps. */
module Interleaving {
  import opened Bits
  import opened RingProtocol

  predicate Side(producer: bool, steps: seq<Step>)
  {
    forall k :: 0 <= k < |steps| ==> ProducerStep(steps[k]) == producer
  }

  lemma ConsumerTurn(s: State, t: Step)
    requires Inv(s) && !ProducerStep(t)
    ensures var s' := Next(s, t);
      && Inv(s') && s'.m.producer == s.m.producer
      && s'.h.sent == s.h.sent && s'.h.written == s.h.written && s'.h.committed == s.h.committed
      && s'.h.known == s.h.known
  {
    hide And, Offsets, Intact, Faithful, CircCnt, CircSpace, Advance, WrapSlot;
    StepKeepsInv(s, t);
  }

  /** The consumer can neither add to the stream nor take room away. */
  lemma {:induction false} ConsumerRun(s: State, steps: seq<Step>)
    requires Inv(s) && Side(false, steps)
    ensures var s' := Run(s, steps);
      && Inv(s') && s'.m.producer == s.m.producer
      && s'.h.sent == s.h.sent && s'.h.written == s.h.written && s'.h.committed == s.h.committed
      && s'.h.known == s.h.known
    decreases |steps|
  {
    hide And, Offsets, Intact, Faithful, Positions, Next, Apply, Record;
    if steps != [] {
      assert Sane(s.m) by { InvIsSane(s); }
      ConsumerTurn(s, steps[0]);
      ConsumerRun(Next(s, steps[0]), steps[1..]);
    }
  }

  lemma ProducerTurn(s: State, t: Step)
    requires Inv(s) && ProducerStep(t)
    ensures var s' := Next(s, t);
      && Inv(s') && s'.m.consumer == s.m.consumer
      && s'.h.received == s.h.received && s'.h.claimed == s.h.claimed && s'.h.published == s.h.published
  {
    hide And, Offsets, Intact, Faithful, CircCnt, CircSpace, Advance, WrapSlot;
    StepKeepsInv(s, t);
  }

  /** The producer can neither take from the stream nor unread what was counted. */
  lemma {:induction false} ProducerRun(s: State, steps: seq<Step>)
    requires Inv(s) && Side(true, steps)
    ensures var s' := Run(s, steps);
      && Inv(s') && s'.m.consumer == s.m.consumer
      && s'.h.received == s.h.received && s'.h.claimed == s.h.claimed && s'.h.published == s.h.published
    decreases |steps|
  {
    hide And, Offsets, Intact, Faithful, Positions, Next, Apply, Record;
    if steps != [] {
      assert Sane(s.m) by { InvIsSane(s); }
      ProducerTurn(s, steps[0]);
      ProducerRun(Next(s, steps[0]), steps[1..]);
    }
  }

  // ---------------------------------------------------------------- woven calls

  predicate AllSide(producer: bool, bursts: seq<seq<Step>>)
  {
    forall i :: 0 <= i < |bursts| ==> Side(producer, bursts[i])
  }

  function First(bursts: seq<seq<Step>>): seq<Step> { if bursts == [] then [] else bursts[0] }

  function Rest(bursts: seq<seq<Step>>): seq<seq<Step>> { if bursts == [] then [] else bursts[1..] }

  /** The steps `own` of one side, burst `i` of the other side before step `i`. */
  function Weave(own: seq<Step>, bursts: seq<seq<Step>>): seq<Step>
  {
    if own == [] then [] else First(bursts) + [own[0]] + Weave(own[1..], Rest(bursts))
  }

  lemma BurstSides(producer: bool, bursts: seq<seq<Step>>)
    requires AllSide(producer, bursts)
    ensures Side(producer, First(bursts)) && AllSide(producer, Rest(bursts))
  {
  }

  lemma WeaveRun(s: State, t: Step, own: seq<Step>, bursts: seq<seq<Step>>)
    requires Sane(s.m)
    ensures Run(s, Weave([t] + own, bursts)) == Run(Next(Run(s, First(bursts)), t), Weave(own, Rest(bursts)))
  {
    hide Run, Next, Sane;
    assert ([t] + own)[1..] == own;
    RunAppend(s, First(bursts) + [t], Weave(own, Rest(bursts)));
    RunAppend(s, First(bursts), [t]);
    RunOne(Run(s, First(bursts)), t);
  }

  // ------------------------------------------------------------------ a woven write

  /** The stream of a producer with `rest` still to store. */
  ghost predicate Writing(s: State, msg: seq<byte>, k: nat, sent: seq<byte>, written: nat, committed: nat)
  {
    && Inv(s) && k <= |msg| && s.m.producer.outgoing == msg && s.m.producer.copied == k
    && s.h.sent == sent + msg[..k] && s.h.written == written && s.h.committed == committed
  }

  lemma WritingSurvives(s: State, burst: seq<Step>, msg: seq<byte>, k: nat, sent: seq<byte>, written: nat,
                        committed: nat)
    requires Writing(s, msg, k, sent, written, committed) && Side(false, burst)
    ensures Sane(s.m) && Writing(Run(s, burst), msg, k, sent, written, committed)
  {
    hide Inv, Run, Side;
    InvIsSane(s);
    ConsumerRun(s, burst);
  }

  lemma WritesOne(s: State, msg: seq<byte>, k: nat, sent: seq<byte>, written: nat, committed: nat)
    requires Writing(s, msg, k, sent, written, committed) && k < |msg|
    ensures Sane(s.m) && Writing(Next(s, CopyIn), msg, k + 1, sent, written, committed)
  {
    hide Inv, Advance, CircCnt, CircSpace, WrapSlot;
    InvIsSane(s);
    StepKeepsInv(s, CopyIn);
    assert sent + msg[..k] + [msg[k]] == sent + msg[..k + 1];
  }

  /** All of the message is stored and the private offset moved. */
  ghost predicate Wrote(s: State, msg: seq<byte>, sent: seq<byte>, written: nat, committed: nat)
  {
    && Inv(s) && s.m.producer.outgoing == []
    && s.h.sent == sent + msg && s.h.written == written + |msg| && s.h.committed == committed
  }

  lemma WritesEnd(s: State, msg: seq<byte>, sent: seq<byte>, written: nat, committed: nat)
    requires Writing(s, msg, |msg|, sent, written, committed)
    ensures Sane(s.m) && Wrote(Next(s, EndWrite), msg, sent, written, committed)
  {
    hide Inv, Advance, CircCnt, CircSpace, WrapSlot;
    InvIsSane(s);
    StepKeepsInv(s, EndWrite);
    assert msg[..|msg|] == msg;
  }

  lemma {:induction false} CopyWoven(s: State, msg: seq<byte>, k: nat, sent: seq<byte>, written: nat, committed: nat,
                                     bursts: seq<seq<Step>>)
    requires Writing(s, msg, k, sent, written, committed) && AllSide(false, bursts)
    ensures Sane(s.m)
    ensures Wrote(Run(s, Weave(Repeat(CopyIn, |msg| - k) + [EndWrite], bursts)), msg, sent, written, committed)
    decreases |msg| - k
  {
    hide Run, Next, Writing, Wrote, Weave, AllSide, Side, First, Rest, Sane, Repeat;
    BurstSides(false, bursts);
    WritingSurvives(s, First(bursts), msg, k, sent, written, committed);
    var s1 := Run(s, First(bursts));
    KLess(s, msg, k, sent, written, committed);
    if k < |msg| {
      RepeatNext(CopyIn, |msg| - k);
      var own := Repeat(CopyIn, |msg| - (k + 1)) + [EndWrite];
      assert [CopyIn] + Repeat(CopyIn, |msg| - (k + 1)) + [EndWrite] == [CopyIn] + own;
      WeaveRun(s, CopyIn, own, bursts);
      WritesOne(s1, msg, k, sent, written, committed);
      CopyWoven(Next(s1, CopyIn), msg, k + 1, sent, written, committed, Rest(bursts));
    } else {
      RepeatNone(CopyIn);
      assert [] + [EndWrite] == [EndWrite] + [];
      WeaveRun(s, EndWrite, [], bursts);
      WritesEnd(s1, msg, sent, written, committed);
      WeaveNone(Next(s1, EndWrite), Rest(bursts));
    }
  }

  lemma KLess(s: State, msg: seq<byte>, k: nat, sent: seq<byte>, written: nat, committed: nat)
    requires Writing(s, msg, k, sent, written, committed)
    ensures k <= |msg|
  {
  }

  lemma RepeatNext(t: Step, n: nat)
    requires n > 0
    ensures Repeat(t, n) == [t] + Repeat(t, n - 1)
  {
  }

  lemma RepeatNone(t: Step)
    ensures Repeat(t, 0) == []
  {
  }

  lemma WeaveNone(s: State, bursts: seq<seq<Step>>)
    requires Sane(s.m)
    ensures Run(s, Weave([], bursts)) == s
  {
  }

  /** micscif_rb_write with room for the message appends exactly the message, whatever the
      consumer does meanwhile. */
  lemma WovenWrite(s: State, msg: seq<byte>, bursts: seq<seq<Step>>)
    requires Inv(s) && s.m.producer.outgoing == [] && AllSide(false, bursts)
    requires |msg| <= CircSpace(s.m.producer.write, s.m.readPtr, s.m.size)
    ensures Sane(s.m)
    ensures Wrote(Run(s, Weave(WriteSteps(msg), bursts)), msg, s.h.sent, s.h.written, s.h.committed)
  {
    hide Run, Next, Inv, Writing, Wrote, Weave, AllSide, Side, First, Rest, Sane, Repeat, CircSpace;
    InvIsSane(s);
    var tail := Repeat(CopyIn, |msg|) + [EndWrite];
    assert WriteSteps(msg) == [LoadRead] + ([BeginWrite(msg)] + tail);
    BurstSides(false, bursts);
    var b1 := Rest(bursts);
    BurstSides(false, b1);
    var s1 := Run(s, First(bursts));
    RoomStays(s, First(bursts));
    InvIsSane(s1);
    WeaveRun(s, LoadRead, [BeginWrite(msg)] + tail, bursts);
    RoomLoaded(s1);
    var s2 := Next(s1, LoadRead);
    ConsumerRun(s2, First(b1));
    var s3 := Run(s2, First(b1));
    InvIsSane(s2);
    InvIsSane(s3);
    WeaveRun(s2, BeginWrite(msg), tail, b1);
    WriteStarts(s3, msg);
    CopyWoven(Next(s3, BeginWrite(msg)), msg, 0, s.h.sent, s.h.written, s.h.committed, Rest(b1));
  }

  /** The consumer can only make room. */
  lemma RoomStays(s: State, burst: seq<Step>)
    requires Inv(s) && s.m.producer.outgoing == [] && Side(false, burst)
    ensures Sane(s.m)
    ensures var s' := Run(s, burst);
      && Inv(s') && s'.m.producer == s.m.producer && s'.m.size == s.m.size
      && s'.h.sent == s.h.sent && s'.h.written == s.h.written && s'.h.committed == s.h.committed
      && CircSpace(s.m.producer.write, s.m.readPtr, s.m.size) <= CircSpace(s'.m.producer.write, s'.m.readPtr, s'.m.size)
  {
    hide And, Run, Side, Inv, CircSpace;
    InvIsSane(s);
    ConsumerRun(s, burst);
    PublishedGrows(s, burst);
    RoomIs(s);
    RoomIs(Run(s, burst));
  }

  lemma PublishedStep(s: State, t: Step)
    requires Inv(s)
    ensures Sane(s.m) && s.h.published <= Next(s, t).h.published
  {
    hide And, Offsets, Intact, Faithful, CircCnt, CircSpace, Advance, WrapSlot;
  }

  lemma {:induction false} PublishedGrows(s: State, steps: seq<Step>)
    requires Inv(s)
    ensures Sane(s.m) && s.h.published <= Run(s, steps).h.published
    decreases |steps|
  {
    hide Inv, Next;
    InvIsSane(s);
    if steps != [] {
      PublishedStep(s, steps[0]);
      StepKeepsInv(s, steps[0]);
      PublishedGrows(Next(s, steps[0]), steps[1..]);
    }
  }

  lemma RoomLoaded(s: State)
    requires Inv(s) && s.m.producer.outgoing == []
    ensures Sane(s.m)
    ensures var s' := Next(s, LoadRead);
      && Inv(s') && s'.m.size == s.m.size && s'.m.producer == s.m.producer.(read := s.m.readPtr)
      && s'.h.sent == s.h.sent && s'.h.written == s.h.written && s'.h.committed == s.h.committed
  {
    hide And, Inv, CircCnt, CircSpace, Advance, WrapSlot;
    InvIsSane(s);
    StepKeepsInv(s, LoadRead);
  }

  lemma WriteStarts(s: State, msg: seq<byte>)
    requires Inv(s) && s.m.producer.outgoing == []
    requires |msg| <= CircSpace(s.m.producer.write, s.m.producer.read, s.m.size)
    ensures Sane(s.m) && Writing(Next(s, BeginWrite(msg)), msg, 0, s.h.sent, s.h.written, s.h.committed)
  {
    hide And, Inv, CircCnt, CircSpace, Advance, WrapSlot;
    InvIsSane(s);
    StepKeepsInv(s, BeginWrite(msg));
    assert s.h.sent + msg[..0] == s.h.sent;
  }

  // ------------------------------------------------------------------- a woven read

  /** A consumer that has fetched `k` of `n` bytes. */
  ghost predicate Fetching(s: State, n: nat, k: nat, received: seq<byte>, claimed: nat, published: nat)
  {
    && Inv(s) && k <= n == s.m.consumer.wanted && |s.m.consumer.msg| == k
    && s.h.received == received + s.m.consumer.msg && s.h.claimed == claimed && s.h.published == published
  }

  lemma FetchingSurvives(s: State, burst: seq<Step>, n: nat, k: nat, received: seq<byte>, claimed: nat, published: nat)
    requires Fetching(s, n, k, received, claimed, published) && Side(true, burst)
    ensures Sane(s.m) && Fetching(Run(s, burst), n, k, received, claimed, published)
  {
    hide Inv, Run, Side;
    InvIsSane(s);
    ProducerRun(s, burst);
  }

  lemma FetchesOne(s: State, n: nat, k: nat, received: seq<byte>, claimed: nat, published: nat)
    requires Fetching(s, n, k, received, claimed, published) && k < n
    ensures Sane(s.m) && Fetching(Next(s, CopyOut), n, k + 1, received, claimed, published)
  {
    hide Inv, Advance, CircCnt, CircSpace, WrapSlot;
    InvIsSane(s);
    StepKeepsInv(s, CopyOut);
  }

  lemma {:induction false} FetchWoven(s: State, n: nat, k: nat, received: seq<byte>, claimed: nat, published: nat,
                                      bursts: seq<seq<Step>>)
    requires Fetching(s, n, k, received, claimed, published) && AllSide(true, bursts)
    ensures Sane(s.m) && k <= n
    ensures Fetching(Run(s, Weave(Repeat(CopyOut, n - k), bursts)), n, n, received, claimed, published)
    decreases n - k
  {
    hide Run, Next, Inv, Weave, AllSide, Side, First, Rest, Sane, Repeat;
    InvIsSane(s);
    if k < n {
      BurstSides(true, bursts);
      FetchingSurvives(s, First(bursts), n, k, received, claimed, published);
      var s1 := Run(s, First(bursts));
      RepeatNext(CopyOut, n - k);
      WeaveRun(s, CopyOut, Repeat(CopyOut, n - (k + 1)), bursts);
      FetchesOne(s1, n, k, received, claimed, published);
      FetchWoven(Next(s1, CopyOut), n, k + 1, received, claimed, published, Rest(bursts));
    } else {
      RepeatNone(CopyOut);
      WeaveNone(s, bursts);
    }
  }

  lemma ReadStarts(s: State, n: nat)
    requires Inv(s) && |s.m.consumer.msg| == s.m.consumer.wanted
    requires n <= CircCnt(s.m.consumer.write, s.m.consumer.read, s.m.size)
    ensures Sane(s.m) && Next(s, LoadWrite(n)) == s
    ensures Fetching(Next(s, BeginRead(n)), n, 0, s.h.received, s.h.claimed + n, s.h.published)
  {
    hide And, Inv, CircCnt, CircSpace, Advance, WrapSlot;
    InvIsSane(s);
    StepKeepsInv(s, BeginRead(n));
    assert s.h.received + [] == s.h.received;
  }

  /** micscif_rb_get_next of bytes already counted takes exactly that many, whatever the producer
      does meanwhile. */
  lemma WovenRead(s: State, n: nat, bursts: seq<seq<Step>>)
    requires Inv(s) && |s.m.consumer.msg| == s.m.consumer.wanted && AllSide(true, bursts)
    requires n <= CircCnt(s.m.consumer.write, s.m.consumer.read, s.m.size)
    ensures Sane(s.m)
    ensures Fetching(Run(s, Weave(ReadSteps(n), bursts)), n, n, s.h.received, s.h.claimed + n, s.h.published)
  {
    hide Run, Next, Inv, Fetching, Weave, AllSide, Side, First, Rest, Sane, Repeat, CircCnt;
    InvIsSane(s);
    var tail := Repeat(CopyOut, n);
    assert ReadSteps(n) == [LoadWrite(n)] + ([BeginRead(n)] + tail);
    BurstSides(true, bursts);
    var b1 := Rest(bursts);
    BurstSides(true, b1);
    ProducerRun(s, First(bursts));
    var s1 := Run(s, First(bursts));
    InvIsSane(s1);
    WeaveRun(s, LoadWrite(n), [BeginRead(n)] + tail, bursts);
    ReadStarts(s1, n);
    ProducerRun(s1, First(b1));
    var s2 := Run(s1, First(b1));
    InvIsSane(s2);
    WeaveRun(s1, BeginRead(n), tail, b1);
    ReadStarts(s2, n);
    FetchWoven(Next(s2, BeginRead(n)), n, 0, s.h.received, s.h.claimed + n, s.h.published, Rest(b1));
  }
}
