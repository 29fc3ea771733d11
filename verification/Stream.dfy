/** _scif_send and _scif_recv of micscif/micscif_api.c: byte streams of any length
    over one ring. The peer, the connection state, the notification and the signals
    are given as a schedule with one turn for each pass of the loop; once the schedule
    is used up the connection stays up, the peer does nothing more and a wait is
    interrupted. */
module Stream {
  import opened Bits
  import opened Errors
  import opened RingProtocol
  import opened Interleaving

  datatype EndpointState = Connected | Disconnected | NotConnected

  datatype Turn = Turn(
    peer: seq<Step>,            // what the other side did before this pass
    during: seq<seq<Step>>,     // what it does before each step of the read or write
    state: EndpointState,
    alive: bool,
    notify: int,                // result of micscif_nodeqp_send
    signal: bool)               // does a wait end with a signal?

  function TurnAt(schedule: seq<Turn>, i: nat): Turn
  {
    if i < |schedule| then schedule[i] else Turn([], [], Connected, true, 0, true)
  }

  /** The turns of a sender hold only consumer steps, those of a receiver only producer steps. */
  predicate ScheduleFor(sender: bool, schedule: seq<Turn>)
  {
    forall i :: 0 <= i < |schedule| ==>
      && Side(!sender, schedule[i].peer) && AllSide(!sender, schedule[i].during)
      && schedule[i].notify <= 0
  }

  /** Nothing is being written and everything written is committed. */
  predicate Settled(s: State)
  {
    s.m.producer.outgoing == [] && s.h.committed == s.h.written == |s.h.sent|
  }

  predicate Reading(s: State)
  {
    |s.m.consumer.msg| == s.m.consumer.wanted
  }

  /** The room a producer between two calls would find. */
  function Room(s: State): nat
    requires Sane(s.m)
  {
    CircSpace(s.m.producer.write, s.m.readPtr, s.m.size)
  }

  /** One pass: room query, write of what fits with the consumer taking steps in between, commit. */
  method SendChunk(s: State, rest: seq<byte>, during: seq<seq<Step>>) returns (s': State, n: nat)
    requires Inv(s) && Settled(s) && AllSide(false, during)
    ensures Inv(s') && Settled(s') && Sane(s.m) && Sane(s'.m)
    ensures n == if |rest| < Room(s) then |rest| else Room(s)
    ensures s'.h.sent == s.h.sent + rest[..n]
    ensures n == 0 && rest != [] ==> Room(s') == 0
  {
    hide Inv, CircSpace, Run, Next, Weave;
    RoomLoaded(s);
    s' := Next(s, LoadRead);
    InvIsSane(s');
    LoadKeeps(s);
    var room := CircSpace(s'.m.producer.write, s'.m.producer.read, s'.m.size);
    n := if |rest| < room then |rest| else room;
    if n > 0 {
      WovenWrite(s', rest[..n], during);
      s' := Run(s', Weave(WriteSteps(rest[..n]), during));
      CommitSettles(s');
      s' := Next(s', Commit);
      InvIsSane(s');
    }
  }

  lemma LoadKeeps(s: State)
    requires Inv(s)
    ensures Sane(s.m) && Next(s, LoadRead).m.readPtr == s.m.readPtr
  {
    hide And, Inv, CircCnt, CircSpace, Advance, WrapSlot;
    InvIsSane(s);
  }

  lemma CommitSettles(s: State)
    requires Inv(s) && s.m.producer.outgoing == [] && s.h.written == |s.h.sent|
    ensures Sane(s.m) && Inv(Next(s, Commit)) && Settled(Next(s, Commit)) && Next(s, Commit).h.sent == s.h.sent
  {
    hide And, Inv, CircCnt, CircSpace, Advance, WrapSlot;
    InvIsSane(s);
    StepKeepsInv(s, Commit);
  }

  ghost predicate MayStopSending(t: Turn, lost: nat, s: State, block: bool)
    requires Sane(s.m)
  {
    || t.state != Connected || !t.alive || lost > 0
    || (Room(s) == 0 && (!block || t.signal))
  }

  /** The first pass finds room but its notification fails. */
  ghost predicate FirstSendFails(s: State, msg: seq<byte>, schedule: seq<Turn>)
    requires Sane(s.m)
  {
    var t := TurnAt(schedule, 0);
    msg != [] && t.state == Connected && t.alive && t.notify != 0 && Room(Run(s, t.peer)) > 0
  }

  predicate Up(t: Turn) { t.state == Connected && t.alive }

  function Least(a: nat, b: nat): nat { if a < b then a else b }

  /** The last pass of a send, from the state `at` in which it looked for room: of the stream that
      is to be `total` bytes long it moves what fits if the connection is up, and what it moves is
      lost exactly if its notification fails. */
  ghost predicate SendPass(at: State, s': State, t: Turn, total: nat, lost: nat)
  {
    && Sane(at.m) && |at.h.sent| <= |s'.h.sent| <= total
    && var moved := |s'.h.sent| - |at.h.sent|;
       && moved == (if Up(t) then Least(total - |at.h.sent|, Room(at)) else 0)
       && lost == if Up(t) && t.notify != 0 then moved else 0
  }

  /** One pass of the loop: the peer's steps, the state checks and, if the connection is up, a chunk. */
  method SendTurn(s: State, rest: seq<byte>, t: Turn) returns (s': State, n: nat, ghost at: State)
    requires Inv(s) && Settled(s) && Side(false, t.peer) && AllSide(false, t.during)
    ensures Sane(s.m) && at == Run(s, t.peer) && Inv(s') && Settled(s') && Sane(s'.m) && Sane(at.m)
    ensures n == (if Up(t) then Least(|rest|, Room(at)) else 0) && s'.h.sent == s.h.sent + rest[..n]
    ensures at.h.sent == s.h.sent
    ensures Up(t) && n == 0 && rest != [] ==> Room(s') == 0
    ensures SendPass(at, s', t, |s.h.sent| + |rest|, if Up(t) && t.notify != 0 then n else 0)
  {
    hide Inv, Sane, CircSpace, Run, Next, Room;
    InvIsSane(s);
    ConsumerRun(s, t.peer);
    s', n := Run(s, t.peer), 0;
    at := s';
    InvIsSane(s');
    if Up(t) {
      s', n := SendChunk(s', rest, t.during);
    }
  }

  /** _scif_send. `lost` is the length of a chunk that reached the ring although its
      notification failed, `turns` the number of passes made, `at` the state the last of them found. */
  method Send(s: State, msg: seq<byte>, block: bool, schedule: seq<Turn>)
    returns (s': State, ret: int, lost: nat, turns: nat, ghost at: State)
    requires Inv(s) && Settled(s) && ScheduleFor(true, schedule)
    ensures Inv(s') && Settled(s')
    ensures |s.h.sent| <= |s'.h.sent| <= |s.h.sent| + |msg|
    ensures s'.h.sent == s.h.sent + msg[..|s'.h.sent| - |s.h.sent|]
    ensures ret >= 0 ==> ret + lost == |s'.h.sent| - |s.h.sent|
    ensures ret < 0 ==> lost == |s'.h.sent| - |s.h.sent|
    ensures lost > 0 ==> turns > 0 && TurnAt(schedule, turns - 1).notify < 0
    ensures ret < 0 ==> turns > 0 && var t := TurnAt(schedule, turns - 1);
      && (t.state == Disconnected ==> ret == -ECONNRESET)
      && (t.state == NotConnected ==> ret == -ENOTCONN)
      && (t.state == Connected && !t.alive ==> ret == -ENODEV)
      && (t.state == Connected && t.alive && |s'.h.sent| > |at.h.sent| ==> ret == t.notify)
      && (t.state == Connected && t.alive && |s'.h.sent| == |at.h.sent| ==>
            ret == -ERESTARTSYS && block && t.signal && Sane(s'.m) && Room(s') == 0)
    ensures ret == |msg| || (turns > 0 && MayStopSending(TurnAt(schedule, turns - 1), lost, s', block))
    ensures FirstSendFails(s, msg, schedule) ==>
      var t, room := TurnAt(schedule, 0), Room(Run(s, TurnAt(schedule, 0).peer));
      turns == 1 && ret == t.notify && lost == if |msg| < room then |msg| else room
    ensures turns > 0 ==> SendPass(at, s', TurnAt(schedule, turns - 1), |s.h.sent| + |msg|, lost)
  {
    hide Inv, Sane, CircSpace, CircCnt, Run, Next, Room, SendPass, Side, AllSide;
    InvIsSane(s);
    s', lost, turns, at := s, 0, 0, s;
    var sent := 0;
    while sent != |msg|
      invariant 0 <= sent <= |msg| && lost == 0
      invariant if turns == 0 then s' == s && sent == 0 else !FirstSendFails(s, msg, schedule)
      invariant Sane(s'.m) && Inv(s') && Settled(s') && s'.h.sent == s.h.sent + msg[..sent]
      invariant turns > 0 ==> SendPass(at, s', TurnAt(schedule, turns - 1), |s.h.sent| + |msg|, 0)
      decreases |msg| - sent, if turns < |schedule| then |schedule| - turns else 0
    {
      var turn := TurnAt(schedule, turns);
      TurnSides(true, schedule, turns);
      turns := turns + 1;
      ghost var before := s'.h.sent;
      var n;
      s', n, at := SendTurn(s', msg[sent..], turn);
      PrefixGrows(s.h.sent, before, s'.h.sent, msg, sent, n);
      if turn.state == Disconnected {
        ret := if sent > 0 then sent else -ECONNRESET;
        return;
      }
      if turn.state != Connected {
        ret := if sent > 0 then sent else -ENOTCONN;
        return;
      }
      if !turn.alive {
        ret := if sent > 0 then sent else -ENODEV;
        return;
      }
      if n > 0 {
        if turn.notify != 0 {
          ret, lost := if sent > 0 then sent else turn.notify, n;
          return;
        }
        sent := sent + n;
        continue;
      }
      if !block {
        ret := sent;
        return;
      }
      if turn.signal {
        ret := if sent > 0 then sent else -ERESTARTSYS;
        return;
      }
    }
    ret := |msg|;
  }

  lemma PrefixGrows(base: seq<byte>, before: seq<byte>, after: seq<byte>, msg: seq<byte>, sent: nat, n: nat)
    requires sent + n <= |msg| && before == base + msg[..sent] && after == before + msg[sent..][..n]
    ensures after == base + msg[..sent + n]
  {
    assert msg[..sent] + msg[sent..][..n] == msg[..sent + n];
  }

  lemma TurnSides(sender: bool, schedule: seq<Turn>, i: nat)
    requires ScheduleFor(sender, schedule)
    ensures var t := TurnAt(schedule, i); Side(!sender, t.peer) && AllSide(!sender, t.during) && t.notify <= 0
  {
  }

  /** One pass: count query, read of what is there with the producer taking steps in between, and
      publication while the peer is still connected. */
  method RecvChunk(s: State, remaining: nat, during: seq<seq<Step>>, connected: bool)
    returns (s': State, msg: seq<byte>)
    requires Inv(s) && Reading(s) && AllSide(true, during)
    ensures Inv(s') && Reading(s') && Sane(s.m)
    ensures |msg| == if remaining < Counted(s, remaining) then remaining else Counted(s, remaining)
    ensures s'.h.received == s.h.received + msg
    ensures s'.h.published == if msg != [] && connected then s'.h.claimed else s.h.published
    ensures msg == [] && remaining > 0 ==> CircCnt(s'.m.consumer.write, s'.m.consumer.read, s'.m.size) == 0
  {
    hide Inv, CircCnt, Run, Next, Weave;
    CountLoaded(s, remaining);
    s' := Next(s, LoadWrite(remaining));
    var count := CircCnt(s'.m.consumer.write, s'.m.consumer.read, s'.m.size);
    var n := if remaining < count then remaining else count;
    msg := [];
    if n > 0 {
      WovenRead(s', n, during);
      s' := Run(s', Weave(ReadSteps(n), during));
      msg := s'.m.consumer.msg;
      assert |msg| == n;  // the BUG_ON of _scif_recv
      if connected {
        PublishKeeps(s');
        s' := Next(s', Publish);
      }
    }
  }

  /** The bytes a count finds. */
  ghost function Counted(s: State, n: nat): nat
    requires Sane(s.m)
  {
    var s1 := Next(s, LoadWrite(n));
    CircCnt(s1.m.consumer.write, s1.m.consumer.read, s1.m.size)
  }

  lemma CountLoaded(s: State, n: nat)
    requires Inv(s) && Reading(s)
    ensures Sane(s.m)
    ensures var s' := Next(s, LoadWrite(n));
      Sane(s'.m) && Inv(s') && Reading(s') && s'.h.received == s.h.received && s'.h.published == s.h.published
  {
    hide And, Inv, CircCnt, CircSpace, Advance, WrapSlot;
    InvIsSane(s);
    StepKeepsInv(s, LoadWrite(n));
  }

  lemma PublishKeeps(s: State)
    requires Inv(s) && Reading(s)
    ensures Sane(s.m)
    ensures var s' := Next(s, Publish);
      && Inv(s') && Reading(s') && s'.m.consumer == s.m.consumer
      && s'.h.received == s.h.received && s'.h.published == s.h.claimed == s'.h.claimed
  {
    hide And, Inv, CircCnt, CircSpace, Advance, WrapSlot;
    InvIsSane(s);
    StepKeepsInv(s, Publish);
  }

  ghost predicate MayStopReceiving(t: Turn, lost: nat, s: State, block: bool)
    requires Sane(s.m)
  {
    || t.state == NotConnected || lost > 0
    || (CircCnt(s.m.consumer.write, s.m.consumer.read, s.m.size) == 0
        && (t.state == Disconnected || !block || t.signal))
  }

  lemma ReceivedIsSent(s: State, before: seq<byte>, data: seq<byte>)
    requires Inv(s) && s.h.received == before + data
    ensures |s.h.received| <= s.h.committed <= |s.h.sent|
    ensures data == s.h.sent[|before|..|s.h.received|]
  {
    hide And, Offsets, Intact;
  }

  /** The first pass finds bytes but its notification fails. */
  ghost predicate FirstRecvFails(s: State, len: nat, schedule: seq<Turn>)
    requires Sane(s.m)
  {
    var t := TurnAt(schedule, 0);
    len > 0 && t.state == Connected && t.notify != 0 && Counted(Run(s, t.peer), len) > 0
  }

  /** The last pass of a receive, from the state `at` in which it counted: of the stream that is to
      be `total` bytes long it takes what is there, even from a peer that has disconnected, and what
      it takes is lost exactly if it had to notify and that fails. */
  ghost predicate RecvPass(at: State, s': State, t: Turn, total: nat, lost: nat)
  {
    && Sane(at.m) && |at.h.received| <= |s'.h.received| <= total
    && var left, moved := total - |at.h.received|, |s'.h.received| - |at.h.received|;
       && moved == (if t.state == NotConnected then 0 else Least(left, Counted(at, left)))
       && lost == if t.state == Connected && t.notify != 0 then moved else 0
  }

  /** One pass of the loop: the peer's steps, the state check and a chunk. */
  method RecvTurn(s: State, remaining: nat, t: Turn) returns (s': State, msg: seq<byte>, ghost at: State)
    requires Inv(s) && Reading(s) && Side(true, t.peer) && AllSide(true, t.during)
    ensures Sane(s.m) && at == Run(s, t.peer) && Inv(s') && Reading(s') && Sane(s'.m) && Sane(at.m)
    ensures |msg| == if t.state == NotConnected then 0 else Least(remaining, Counted(at, remaining))
    ensures s'.h.received == s.h.received + msg && at.h.received == s.h.received
    ensures t.state != NotConnected && msg == [] && remaining > 0 ==>
      CircCnt(s'.m.consumer.write, s'.m.consumer.read, s'.m.size) == 0
    ensures RecvPass(at, s', t, |s.h.received| + remaining, if t.state == Connected && t.notify != 0 then |msg| else 0)
  {
    hide Inv, CircCnt, Run, Next, Counted;
    InvIsSane(s);
    ProducerRun(s, t.peer);
    s', msg := Run(s, t.peer), [];
    at := s';
    InvIsSane(s');
    if t.state != NotConnected {
      s', msg := RecvChunk(s', remaining, t.during, t.state == Connected);
      InvIsSane(s');
    }
  }

  /** _scif_recv. `data` is everything taken from the ring, `lost` how much of it the
      result leaves out because its notification failed. */
  method Recv(s: State, len: nat, block: bool, schedule: seq<Turn>)
    returns (s': State, data: seq<byte>, ret: int, lost: nat, turns: nat, ghost at: State)
    requires Inv(s) && Reading(s) && ScheduleFor(false, schedule)
    ensures Inv(s') && Reading(s')
    ensures s'.h.received == s.h.received + data && |data| <= len
    ensures |s'.h.received| <= s'.h.committed <= |s'.h.sent| && data == s'.h.sent[|s.h.received|..|s'.h.received|]
    ensures ret >= 0 ==> ret + lost == |data|
    ensures ret < 0 ==> lost == |data|
    ensures lost > 0 ==> turns > 0 && TurnAt(schedule, turns - 1).notify < 0
    ensures ret < 0 ==> turns > 0 && var t := TurnAt(schedule, turns - 1);
      && (t.state == NotConnected ==> ret == -ENOTCONN)
      && (t.state == Disconnected ==> ret == -ECONNRESET && |s'.h.received| == |at.h.received|)
      && (t.state == Connected && |s'.h.received| > |at.h.received| ==> ret == t.notify)
      && (t.state == Connected && |s'.h.received| == |at.h.received| ==>
            ret == -ERESTARTSYS && block && t.signal && Sane(s'.m)
            && CircCnt(s'.m.consumer.write, s'.m.consumer.read, s'.m.size) == 0)
    ensures ret == len || (turns > 0 && MayStopReceiving(TurnAt(schedule, turns - 1), lost, s', block))
    ensures FirstRecvFails(s, len, schedule) ==>
      var t, count := TurnAt(schedule, 0), Counted(Run(s, TurnAt(schedule, 0).peer), len);
      turns == 1 && ret == t.notify && lost == if len < count then len else count
    ensures turns > 0 ==> RecvPass(at, s', TurnAt(schedule, turns - 1), |s.h.received| + len, lost)
  {
    hide Inv, CircSpace, CircCnt, Run, Next, Counted, RecvPass, Side, AllSide;
    InvIsSane(s);
    s', data, ret, lost, turns, at := s, [], len, 0, 0, s;
    var remaining: nat := len;
    while remaining != 0
      invariant remaining + |data| == len && lost == 0 && ret == len
      invariant if turns == 0 then s' == s && data == [] else !FirstRecvFails(s, len, schedule)
      invariant Sane(s'.m) && Inv(s') && Reading(s') && s'.h.received == s.h.received + data
      invariant turns > 0 ==> RecvPass(at, s', TurnAt(schedule, turns - 1), |s.h.received| + len, 0)
      decreases remaining, if turns < |schedule| then |schedule| - turns else 0
    {
      var turn := TurnAt(schedule, turns);
      TurnSides(false, schedule, turns);
      turns := turns + 1;
      var msg;
      s', msg, at := RecvTurn(s', remaining, turn);
      if turn.state == NotConnected {
        ret := if |data| > 0 then |data| else -ENOTCONN;
        break;
      }
      if msg != [] {
        assert s.h.received + data + msg == s.h.received + (data + msg);
        if turn.state == Connected && turn.notify != 0 {
          ret, lost := if |data| > 0 then |data| else turn.notify, |msg|;
          data := data + msg;
          break;
        }
        remaining := remaining - |msg|;
        data := data + msg;
        continue;
      }
      if turn.state == Disconnected {
        ret := if |data| > 0 then |data| else -ECONNRESET;
        break;
      }
      if !block {
        ret := |data|;
        break;
      }
      if turn.signal {
        ret := if |data| > 0 then |data| else -ERESTARTSYS;
        break;
      }
    }
    ReceivedIsSent(s', s.h.received, data);
  }

  // ---------------------------------------------------------- a failed notification

  /** One pass on a live connection whose notification fails. */
  const UNHEARD := Turn([], [], Connected, true, -ENODEV, true)

  /** A ring of two bytes before anything was sent. */
  function TinyRing(): (s: State)
    ensures Sane(s.m)
  {
    Initial([0, 0])
  }

  lemma TinyRingEmpty()
    ensures Inv(TinyRing()) && Settled(TinyRing()) && Room(Run(TinyRing(), [])) == 1
  {
    assert And(2, 1) == 0;
    InitialInv([0, 0]);
    RoomIs(TinyRing());
  }

  /** A byte that reached the ring, and an error that says nothing was sent. */
  method SendLosesByte() returns (s': State, ret: int)
    ensures FirstSendFails(TinyRing(), [7], [UNHEARD])
    ensures Sane(s'.m) && ret == -ENODEV && s'.h.sent == TinyRing().h.sent + [7] && s'.h.committed == 1
  {
    hide Inv, Room, Run, Next, Initial;
    TinyRingEmpty();
    var lost, turns;
    ghost var at;
    s', ret, lost, turns, at := Send(TinyRing(), [7], true, [UNHEARD]);
    InvIsSane(s');
    TinyHistory();
  }

  lemma TinyHistory()
    ensures TinyRing().h.sent == [] && TinyRing().h.received == []
  {
  }

  /** The ring with one byte committed. */
  function OneByte(): (s: State)
    ensures Sane(s.m)
  {
    Next(Run(TinyRing(), WriteSteps([7])), Commit)
  }

  lemma OneByteReady()
    ensures Inv(OneByte()) && Reading(OneByte()) && OneByte().h.received == []
    ensures Sane(OneByte().m) && Counted(Run(OneByte(), []), 1) == 1
  {
    hide And, Inv, CircSpace, CircCnt, Advance, Overlay, WrapSlot, Slot, Run;
    TinyRingEmpty();
    TinyStart();
    WriteCall(TinyRing(), [7]);
    var s := Run(TinyRing(), WriteSteps([7]));
    InvIsSane(s);
    CommitSettles(s);
    var c := OneByte();
    CountLoaded(c, 1);
    CountIs(Next(c, LoadWrite(1)));
    CountOfOne(c);
    RunNothing(c);
  }

  lemma TinyStart()
    ensures Room(Run(TinyRing(), [])) == Room(TinyRing())
    ensures TinyRing().m.producer.outgoing == [] && TinyRing().m.consumer == Consumer(0, 0, 0, 0, [])
    ensures TinyRing().h == History([], 0, 0, 0, 0, [], 0, 0)
  {
  }

  lemma RunNothing(s: State)
    requires Sane(s.m)
    ensures Run(s, []) == s
  {
  }

  lemma CountOfOne(s: State)
    requires Inv(s) && s.h.committed == 1 && s.h.seen == s.h.claimed == 0
    ensures Sane(s.m) && Next(s, LoadWrite(1)).h.seen - Next(s, LoadWrite(1)).h.claimed == 1
  {
    hide And, Inv, CircSpace, Advance, WrapSlot, CircCnt;
    InvIsSane(s);
    CountIs(s);
  }

  /** A byte taken from the ring, and an error that says nothing was received. */
  method RecvLosesByte() returns (s': State, ret: int)
    ensures FirstRecvFails(OneByte(), 1, [UNHEARD])
    ensures ret == -ENODEV && |s'.h.received| == |OneByte().h.received| + 1
  {
    hide Inv, Run, Next, OneByte, Counted;
    OneByteReady();
    var data, lost, turns;
    ghost var at;
    s', data, ret, lost, turns, at := Recv(OneByte(), 1, true, [UNHEARD]);
  }
}
