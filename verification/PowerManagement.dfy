/** The loops of host/pm_pcstate.c that run under the idle mutex, and the reference counting
    of include/mic_common.h, on the cards of one host. Each is tied to the steps of the
    protocol that it takes. */
module PowerManagement {
  import opened Bits
  import opened Errors
  import opened NodeMask
  import opened NodeGraph
  import opened PowerProtocol

  // ----------------------------------------------------------------- runs of the protocol

  function ApplyAll(s: State, steps: seq<Step>): State
  {
    if steps == [] then s else Apply(ApplyAll(s, steps[..|steps| - 1]), steps[|steps| - 1])
  }

  /** `s'` comes from `s` by steps of the protocol, with a timed out PC6 exit among them only
      if `timeouts`. */
  ghost predicate Follows(s: State, s': State, timeouts: bool)
  {
    exists steps :: ApplyAll(s, steps) == s' && (timeouts || ExitOne(TimedOut) !in steps)
  }

  lemma FollowsNow(s: State, timeouts: bool)
    ensures Follows(s, s, timeouts)
  {
    assert ApplyAll(s, []) == s;
  }

  lemma FollowsStep(s: State, s': State, st: Step, timeouts: bool)
    requires Follows(s, s', timeouts) && (st == ExitOne(TimedOut) ==> timeouts)
    ensures Follows(s, Apply(s', st), timeouts)
  {
    var steps :| ApplyAll(s, steps) == s' && (timeouts || ExitOne(TimedOut) !in steps);
    var more := steps + [st];
    assert more[..|more| - 1] == steps;
    assert ApplyAll(s, more) == Apply(s', st);
  }

  /** Calls in which no PC6 exit times out keep the invariant of the protocol. */
  lemma FollowsKeepsInv(s: State, s': State)
    requires Follows(s, s', false) && PowerProtocol.Inv(s)
    ensures PowerProtocol.Inv(s')
  {
    hide PowerProtocol.Inv;
    var steps :| ApplyAll(s, steps) == s' && ExitOne(TimedOut) !in steps;
    StepsKeepInv(s, steps);
  }

  lemma {:induction false} StepsKeepInv(s: State, steps: seq<Step>)
    requires PowerProtocol.Inv(s) && ExitOne(TimedOut) !in steps
    ensures PowerProtocol.Inv(ApplyAll(s, steps))
  {
    hide PowerProtocol.Inv, Apply;
    if steps != [] {
      StepsKeepInv(s, steps[..|steps| - 1]);
      StepKeepsInv(ApplyAll(s, steps[..|steps| - 1]), steps[|steps| - 1]);
    }
  }

  lemma {:induction false} ApplyJoined(s: State, a: seq<Step>, b: seq<Step>)
    ensures ApplyAll(s, a + b) == ApplyAll(ApplyAll(s, a), b)
    decreases |b|
  {
    if b == [] {
      assert a + b == a;
    } else {
      var b' := b[..|b| - 1];
      assert (a + b)[..|a + b| - 1] == a + b';
      ApplyJoined(s, a, b');
    }
  }

  lemma FollowsOn(s: State, s': State, s'': State, timeouts: bool)
    requires Follows(s, s', timeouts) && Follows(s', s'', timeouts)
    ensures Follows(s, s'', timeouts)
  {
    var a :| ApplyAll(s, a) == s' && (timeouts || ExitOne(TimedOut) !in a);
    var b :| ApplyAll(s', b) == s'' && (timeouts || ExitOne(TimedOut) !in b);
    ApplyJoined(s, a, b);
  }

  /** The cards of a protocol state. */
  predicate Shows(s: State, cards: seq<Card>)
  {
    |s.nodes| == |cards| && forall k :: 0 <= k < |cards| ==> s.nodes[k].card == cards[k]
  }

  /** The cards of a mask; bit 0 is the host. */
  function MaskSet(mask: seq<byte>, n: nat): set<nat>
    requires n < 8 * |mask|
  {
    set k | 0 <= k < n && CardIn(mask, k)
  }

  predicate CardIn(mask: seq<byte>, k: nat)
    requires k + 1 < 8 * |mask|
  {
    InMask(mask, k + 1)
  }

  class PowerManager {
    var cards: seq<Card>

    constructor (n: nat)
      ensures |cards| == n && Shows(Initial(n), cards)
    {
      cards := seq(n, _ => Card(PC0, 0));
    }

    /** pm_node_disconnect: `stop` is the card that refused, or the number of cards. */
    method NodeDisconnect(mask: array<byte>, online: seq<bool>, wakeup: seq<bool>, ghost s: State, ghost who: nat)
      returns (err: int, ghost stop: nat, ghost s': State)
      requires |cards| == |online| == |wakeup| && |cards| < 8 * mask.Length
      requires Shows(s, cards) && s.phase == Disconnecting(who, MaskSet(mask[..], |cards|), 0)
      modifies this, mask
      ensures |cards| == |old(cards)| && stop <= |cards| && (err == if stop == |cards| then 0 else -EAGAIN)
      ensures forall k :: 0 <= k < |cards| ==>
        cards[k] == if k <= stop && k in MaskSet(old(mask[..]), |cards|) && online[k] && old(cards[k]).cnt == 0
                    then old(cards[k]).(cnt := IDLE) else old(cards[k])
      ensures forall k <- MaskSet(old(mask[..]), |cards|) :: k < stop ==>
        online[k] && (old(cards[k]).cnt == 0 || old(cards[k]).cnt == IDLE) && !wakeup[k]
      ensures stop < |cards| ==>
        && stop in MaskSet(old(mask[..]), |cards|)
        && !(online[stop] && (old(cards[stop]).cnt == 0 || old(cards[stop]).cnt == IDLE) && !wakeup[stop])
      ensures forall v :: 0 <= v < 8 * mask.Length ==>
        (InMask(mask[..], v) <==> old(InMask(mask[..], v)) && !(err != 0 && v == stop + 1))
      ensures Follows(s, s', false) && Shows(s', cards)
      ensures s'.phase == if err == 0 then Disconnecting(who, MaskSet(old(mask[..]), |cards|), |cards|)
                          else Closing(who, MaskSet(old(mask[..]), |cards|), Refused)
    {
      hide Follows, MaskSet, InMask, Apply, Shows;
      ghost var was, m := cards, MaskSet(mask[..], |cards|);
      var n := |cards|;
      s' := s;
      FollowsNow(s, false);
      for node := 1 to n + 1
        invariant |cards| == n == |was| && mask[..] == old(mask[..])
        invariant forall k :: 0 <= k < |was| ==> cards[k] == if k < node - 1 && k in m then Freeze(was[k]) else was[k]
        invariant forall k <- m :: k < node - 1 ==>
          k < |was| && online[k] && (was[k].cnt == 0 || was[k].cnt == IDLE) && !wakeup[k]
        invariant Follows(s, s', false) && Shows(s', cards) && s'.phase == Disconnecting(who, m, node - 1)
      {
        var k := node - 1;
        InMaskSet(mask[..], |was|, k);
        var bit := GetNodemaskBit(mask[..], node);
        ShowsLength(s', cards);
        DisconnectRound(s', cards, wakeup[k]);
        if bit == 0 {
          FollowsStep(s, s', Disconnect(wakeup[k]), false);
          s' := Apply(s', Disconnect(wakeup[k]));
          continue;
        }
        if !online[k] {
          FollowsStep(s, s', Refuse, false);
          RefuseStep(s');
          s' := Apply(s', Refuse);
          SetNodemaskBit(mask, node, false);
          return -EAGAIN, k, s';
        }
        FollowsStep(s, s', Disconnect(wakeup[k]), false);
        s' := Apply(s', Disconnect(wakeup[k]));
        var ret := cards[k].cnt;
        cards := cards[k := Freeze(cards[k])];
        if (ret != 0 && ret != IDLE) || wakeup[k] {
          SetNodemaskBit(mask, node, false);
          return -EAGAIN, k, s';
        }
      }
      return 0, |cards|, s';
    }

    /** The marking loop of do_idlestate_entry. */
    method MarkCards(mask: seq<byte>, ghost s: State, ghost who: nat)
      returns (err: int, ghost stop: nat, ghost s': State)
      requires |cards| < 8 * |mask| && Shows(s, cards) && s.phase == Marking(who, MaskSet(mask, |cards|), 0)
      modifies this
      ensures |cards| == |old(cards)| && stop <= |cards| && (err == if stop == |cards| then 0 else -EINVAL)
      ensures forall k :: 0 <= k < |cards| ==>
        cards[k] == if k < stop && k in MaskSet(mask, |cards|) then old(cards[k]).(idle := PC3) else old(cards[k])
      ensures forall k <- MaskSet(mask, |cards|) :: k < stop ==> old(cards[k]).idle.PC3Ready?
      ensures stop < |cards| ==> stop in MaskSet(mask, |cards|) && !old(cards[stop]).idle.PC3Ready?
      ensures Follows(s, s', false) && Shows(s', cards)
      ensures s'.phase == if err == 0 then Marking(who, MaskSet(mask, |cards|), |cards|)
                          else Reverting(who, MaskSet(mask, |cards|), 0)
    {
      hide Follows, MaskSet, InMask, Apply, Shows;
      ghost var was, m := cards, MaskSet(mask, |cards|);
      var n := |cards|;
      s' := s;
      FollowsNow(s, false);
      for node := 1 to n + 1
        invariant |cards| == n == |was|
        invariant forall k :: 0 <= k < n ==> cards[k] == if k < node - 1 && k in m then was[k].(idle := PC3) else was[k]
        invariant forall k <- m :: k < node - 1 ==> k < n && was[k].idle.PC3Ready?
        invariant Follows(s, s', false) && Shows(s', cards) && s'.phase == Marking(who, m, node - 1)
      {
        var k := node - 1;
        InMaskSet(mask, n, k);
        var bit := GetNodemaskBit(mask, node);
        ShowsLength(s', cards);
        MarkRound(s', cards);
        FollowsStep(s, s', Mark, false);
        s' := Apply(s', Mark);
        if bit == 0 {
          continue;
        }
        if cards[k].idle != PC3Ready {
          return -EINVAL, k, s';
        }
        cards := cards[k := cards[k].(idle := PC3)];
      }
      return 0, |cards|, s';
    }

    /** revert_idle_entry_trasaction; the result of the last wake-up is its result. */
    method RevertCards(mask: seq<byte>, up: seq<bool>, ghost s: State, ghost who: nat)
      returns (err: int, ghost s': State)
      requires |cards| == |up| < 8 * |mask| && Shows(s, cards) && s.phase == Reverting(who, MaskSet(mask, |cards|), 0)
      modifies this
      ensures |cards| == |old(cards)|
      ensures forall k :: 0 <= k < |cards| ==>
        cards[k] == if k !in MaskSet(mask, |cards|) || old(cards[k]).idle != PC3 then old(cards[k])
                    else if up[k] then old(cards[k]).(idle := PC0) else Card(Lost, 0)
      ensures err != 0 <==> RevertError(old(cards), MaskSet(mask, |cards|), up, |cards|)
      ensures Follows(s, s', false) && Shows(s', cards) && s'.phase == Reverting(who, MaskSet(mask, |cards|), |cards|)
    {
      hide Follows, MaskSet, InMask, Apply, Shows, RevertError;
      ghost var was, m := cards, MaskSet(mask, |cards|);
      var n := |cards|;
      s', err := s, 0;
      FollowsNow(s, false);
      NoneReverted(was, m, up);
      for node := 1 to n + 1
        invariant |cards| == n == |was|
        invariant forall k :: 0 <= k < n ==>
          cards[k] == if k < node - 1 && k in m then Revert(was[k], up[k]) else was[k]
        invariant err != 0 <==> RevertError(was, m, up, node - 1)
        invariant Follows(s, s', false) && Shows(s', cards) && s'.phase == Reverting(who, m, node - 1)
      {
        var k := node - 1;
        InMaskSet(mask, n, k);
        var bit := GetNodemaskBit(mask, node);
        ShowsLength(s', cards);
        RevertRound(s', cards, up[k]);
        RevertSame(cards[k], up[k], cards, k);
        NextReverted(was, m, up, k);
        FollowsStep(s, s', RevertOne(up[k]), false);
        s' := Apply(s', RevertOne(up[k]));
        if bit == 0 {
          continue;
        }
        if cards[k].idle == PC3 {
          if up[k] {
            cards, err := cards[k := cards[k].(idle := PC0)], 0;
          } else {
            cards, err := cards[k := Card(Lost, 0)], -EFAULT;
          }
        }
      }
    }

    /** do_idlestate_entry once the deactivation set is known, up to the unlock path. */
    method EntryBody(who: nat, mask: array<byte>, env: Env, ghost s: State)
      returns (err: int, ghost result: EntryResult, ghost s': State)
      requires env.Fits(|cards|) && who < |cards| < 8 * mask.Length && Shows(s, cards) && s.phase.Unlocked?
      modifies this, mask
      ensures |cards| == |old(cards)| && (err == 0 <==> result == Entered)
      ensures Transacts(old(cards), cards, MaskSet(old(mask[..]), |cards|), env, result)
      ensures Follows(s, s', false) && Shows(s', cards)
      ensures s'.phase == Closing(who, MaskSet(old(mask[..]), |cards|), result)
    {
      hide Follows, MaskSet, InMask, Apply, Shows, Transacts;
      ghost var was, m := cards, MaskSet(mask[..], |cards|);
      s' := s;
      FollowsNow(s, false);
      s' := Take(s, s', cards, BeginEntry(who, m)) by { MaskSetCards(mask[..], |cards|); ShowsLength(s, cards); }
      err, result := env.scif, Refused;
      if err != 0 {
        s' := Take(s, s', cards, Refuse);
        RefusedBy(was, m, env);
        return;
      }
      ghost var before := s';
      ghost var stop;
      err, stop, s' := NodeDisconnect(mask, env.online, env.wakeup, s', who);
      FollowsOn(s, before, s', false);
      if err != 0 {
        RefusedAt(was, cards, m, env, stop);
        return;
      }
      ghost var mid := cards;
      AllFrozen(was, mid, m, env);
      err := env.vcons;
      if err != 0 {
        s' := Take(s, s', cards, Refuse);
        RefusedLate(was, mid, m, env);
        return;
      }
      s' := Take(s, s', cards, BeginMarking) by { ShowsLength(s', cards); }
      before := s';
      SameMask(old(mask[..]), mask[..], |cards|);
      err, stop, s' := MarkCards(mask[..], s', who);
      FollowsOn(s, before, s', false);
      if err == 0 {
        s' := Take(s, s', cards, EndMarking) by { ShowsLength(s', cards); }
        result := Entered;
        AllMarked(was, mid, cards, m, env);
        return;
      }
      ghost var marked := cards;
      before := s';
      var ignored;
      ignored, s' := RevertCards(mask[..], env.up, s', who);
      FollowsOn(s, before, s', false);
      s' := Take(s, s', cards, EndReverting) by { ShowsLength(s', cards); }
      result := Reverted;
      AllReverted(was, mid, marked, cards, m, env, stop);
    }

    /** do_idlestate_entry with its unlock path, which wakes the initiator after an error. */
    method IdleEntry(who: nat, mask: array<byte>, env: Env, whoUp: bool, ghost s: State)
      returns (err: int, ghost result: EntryResult, ghost left: Card, ghost s': State)
      requires env.Fits(|cards|) && who < |cards| < 8 * mask.Length && Shows(s, cards) && s.phase.Unlocked?
      modifies this, mask
      ensures |cards| == |old(cards)| && (err == 0 <==> result == Entered)
      ensures Transacts(old(cards), cards[who := left], MaskSet(old(mask[..]), |cards|), env, result)
      ensures cards[who] == if err == 0 || !whoUp then left else left.(idle := PC0)
      ensures err != 0 && whoUp ==> cards[who].idle == PC0
      ensures Follows(s, s', false) && Shows(s', cards) && s'.phase == Unlocked
    {
      hide Follows, MaskSet, Apply, Shows, Transacts;
      err, result, s' := EntryBody(who, mask, env, s);
      left := cards[who];
      ghost var done := cards;
      ShowsLength(s', cards);
      ClosingStep(s', cards, whoUp);
      FollowsStep(s, s', EndEntry(whoUp), false);
      s' := Apply(s', EndEntry(whoUp));
      assert cards[who := cards[who]] == cards;
      if err != 0 && cards[who].idle != PC0 {
        if whoUp {
          cards := cards[who := cards[who].(idle := PC0)];
        }
      }
      assert cards[who := left] == done;
    }

    /** pm_pc3_entry: a card that may not go idle is woken instead. `hostAwake` is the register
        state, `enabled` the connection and the pc3 setting, `up` whether the card wakes. */
    method Pc3Entry(k: nat, hostAwake: bool, enabled: bool, mask: array<byte>, env: Env, up: bool, ghost s: State)
      returns (err: int, ghost result: EntryResult, ghost left: Card, ghost s': State)
      requires env.Fits(|cards|) && k < |cards| < 8 * mask.Length && Shows(s, cards) && s.phase.Unlocked?
      modifies this, mask
      ensures |cards| == |old(cards)| && Follows(s, s', false) && Shows(s', cards) && s'.phase == Unlocked
      ensures var c := old(cards[k]); var tries := hostAwake && enabled && c.idle == PC0;
        && (!tries ==> err == 0 && cards == old(cards)[k := if up then c.(idle := PC0) else c])
        && (tries ==>
              && (err == 0 <==> result == Entered)
              && Transacts(old(cards)[k := c.(idle := PC3Ready)], cards[k := left], MaskSet(old(mask[..]), |cards|),
                           env, result)
              && cards[k] == if err == 0 || !up then left else left.(idle := PC0))
    {
      hide Follows, MaskSet, Apply, Shows, Transacts;
      result, left := Refused, cards[k];
      FollowsNow(s, false);
      if !hostAwake || cards[k].idle != PC0 || !enabled {
        WakeupStep(s, cards, k, up);
        FollowsStep(s, s, SendWakeup(k, up), false);
        if up {
          cards := cards[k := cards[k].(idle := PC0)];
        }
        assert cards == old(cards)[k := cards[k]];
        return 0, result, left, Apply(s, SendWakeup(k, up));
      }
      ReadyStep(s, cards, k);
      FollowsStep(s, s, SetReady(k), false);
      ghost var ready := Apply(s, SetReady(k));
      cards := cards[k := cards[k].(idle := PC3Ready)];
      err, result, left, s' := IdleEntry(k, mask, env, up, ready);
      FollowsOn(s, ready, s', false);
    }

    /** do_idlestate_exit. `woken` are the cards of the activation set, `stop` the first of
        them found lost, or the number of cards. */
    method IdleExit(who: nat, ref: bool, present: bool, dep: seq<seq<Dependency>>, len: nat, woke: seq<Woke>,
                    ghost s: State)
      returns (err: int, dep': seq<seq<Dependency>>, ghost woken: set<nat>, ghost stop: nat, ghost s': State)
      requires Square(dep) && |dep| == |cards| + 1 < 8 * len && |woke| == |cards| && who < |cards|
      requires Shows(s, cards) && s.phase.Unlocked?
      modifies this
      ensures |cards| == |old(cards)| && stop <= |cards|
      ensures !present ==> err == -EINVAL && cards == old(cards) && dep' == dep && s' == s
      ensures present ==> ActivationOf(dep, old(cards), who, woken)
      ensures present ==> Woken(old(cards), cards, woken, woke, who, ref, stop, true)
      ensures present ==> forall k <- woken :: k < stop ==>
        && (woke[k] == Up || old(cards[k]).idle == PC0 ==> cards[k].idle == PC0)
        && (woke[k] == TimedOut && old(cards[k]).idle == PC6 ==> cards[k].idle == PC6)
        && (woke[k] != Up && old(cards[k]).idle != PC0 && (woke[k] == Failed || old(cards[k]).idle != PC6) ==>
              cards[k] == Card(Lost, 0))
        && (k != who && cards[k].cnt != old(cards[k]).cnt ==> cards[k] == Card(Lost, 0))
      ensures present ==> who in woken && forall k :: 0 <= k < |cards| && (k !in woken || k >= stop) ==>
        cards[k] == old(cards[k])
      ensures present ==> forall k <- woken :: k < |cards|
      ensures present ==> forall j <- woken, k: nat :: k < |cards| && dep[j + 1][k + 1] == Disconnected ==>
        (k in woken <==> k == who || old(cards[k]).idle == PC3 || old(cards[k]).idle == PC6)
      ensures present ==> forall k <- woken :: k != who ==>
        (old(cards[k]).idle == PC3 || old(cards[k]).idle == PC6) && LeftByCard(dep, woken, k)
      ensures present ==> (err != 0 <==> stop < |cards| || ExitError(old(cards), woken, woke, |cards|))
      ensures present ==> Reconnected(dep, dep', old(cards), woken, woke, stop)
      ensures present ==> Square(dep') && |dep'| == |dep| && forall u, v :: 0 <= u < |dep| && 0 <= v < |dep| ==>
        dep'[u][v] == if u > 0 && u - 1 in woken && u - 1 < stop && old(cards[u - 1]).idle == PC6 && woke[u - 1] == Up
                         && dep[u][v] == Disconnected then Dependent else dep[u][v]
      ensures Follows(s, s', TimedOut in woke) && Shows(s', cards) && s'.phase == Unlocked
      ensures Settles(s, s', who, ref, present && ref && who < stop && cards[who].idle != Lost, err != 0)
    {
      hide Follows, Apply, Shows, ActivationOf, Woken, ExitError, Square, Reconnected, LeftByCard, LeftBySome;
      var n := |cards|;
      err, dep', woken, stop, s' := 0, dep, {}, n, s;
      FollowsNow(s, TimedOut in woke);
      ShowsLength(s, cards);
      var mask := new byte[len](_ => 0);
      ghost var closure, zero := {}, mask[..];
      IdleLength(cards);
      err, closure := GetActiveSet(present, dep, Idles(cards), who + 1, mask);
      if err != 0 {
        return;
      }
      ghost var was := cards;
      woken := MaskSet(mask[..], n);
      ActivationIs(dep, cards, who, closure, zero, mask[..]);
      MaskSetCards(mask[..], n);
      ActivationMeans(dep, cards, who, woken);
      err, dep', stop, s' := ExitLoop(who, ref, mask, dep, woke, s, woken);
      WokenMeans(was, cards, woken, woke, who, ref, stop);
      ReconnectedMeans(dep, dep', was, woken, woke, stop);
    }

    /** The first loop of do_idlestate_exit, and its return to the caller. */
    method ExitLoop(who: nat, ref: bool, mask: array<byte>, dep: seq<seq<Dependency>>, woke: seq<Woke>,
                    ghost s: State, ghost m: set<nat>)
      returns (err: int, dep': seq<seq<Dependency>>, ghost stop: nat, ghost s': State)
      requires |cards| < 8 * mask.Length && |woke| == |cards| && who < |cards| && Shows(s, cards) && s.phase.Unlocked?
      requires m == MaskSet(mask[..], |cards|) && who in m && |dep| == |cards| + 1
      modifies this, mask
      ensures |cards| == |old(cards)| && stop <= |cards| && Woken(old(cards), cards, m, woke, who, ref, stop, true)
      ensures err != 0 <==> stop < |cards| || ExitError(old(cards), m, woke, |cards|)
      ensures Reconnected(dep, dep', old(cards), m, woke, stop)
      ensures Follows(s, s', TimedOut in woke) && Shows(s', cards) && s'.phase == Unlocked
      ensures Settles(s, s', who, ref, ref && who < stop && cards[who].idle != Lost, err != 0)
    {
      hide MaskSet, InMask, Apply, Wake, WakeError, ExitError, Woken, Reconnected, Settles, Exits, Follows, Shows;
      ghost var was, bits, late := cards, mask[..], TimedOut in woke;
      var n := |cards|;
      dep', err := dep, 0;
      MaskSetCards(bits, n);
      s' := ExitBegins(s, cards, m, who, ref, late);
      WokenStarts(was, m, woke, who, ref);
      NoneReconnected(dep, was, m, woke);
      for node := 1 to n + 1
        invariant |cards| == n == |was| && Woken(was, cards, m, woke, who, ref, node - 1, false)
        invariant forall v :: node <= v < 8 * mask.Length ==> (InMask(mask[..], v) <==> InMask(bits, v))
        invariant err != 0 <==> ExitError(was, m, woke, node - 1)
        invariant Reconnected(dep, dep', was, m, woke, node - 1)
        invariant Exits(s, s', cards, m, who, ref, node - 1, err != 0, late)
      {
        var k := node - 1;
        InMaskSet(bits, n, k);
        var bit := GetNodemaskBit(mask[..], node);
        WokenNow(was, cards, m, woke, who, ref, k);
        NextReconnected(dep, dep', was, m, woke, k);
        s' := ExitStep(s, s', cards, m, who, ref, k, err != 0, late, woke[k]);
        if bit == 0 {
          continue;
        }
        if cards[k].idle == Lost {
          return -ENODEV, dep', k, s';
        }
        var c: Card, failed: bool;
        c, failed, err := WakeCard(cards[k], woke[k], ref && k == who, err);
        if failed {
          SetNodemaskBit(mask, node, false);
        }
        if cards[k].idle == PC6 && woke[k].Up? {
          dep' := Reconnect(dep', node);
        }
        cards := cards[k := c];
      }
      stop := n;
      WokenEnds(was, cards, m, woke, who, ref);
      s' := ExitEnds(s, s', cards, m, who, ref, err != 0, late);
    }

    /** micpm_get_reference: the caller holds a reference exactly when it returns 0. A wake-up that
        granted the reference and then failed leaves a count that nobody holds. */
    method GetReference(k: nat, force: bool, present: bool, dep: seq<seq<Dependency>>, len: nat, woke: seq<Woke>,
                        ghost s: State)
      returns (err: int, dep': seq<seq<Dependency>>, ghost woken: set<nat>, ghost stop: nat, ghost s': State)
      requires Square(dep) && |dep| == |cards| + 1 < 8 * len && |woke| == |cards| && k < |cards|
      requires Shows(s, cards) && s.phase.Unlocked?
      modifies this
      ensures |cards| == |old(cards)| && Follows(s, s', TimedOut in woke) && Shows(s', cards) && s'.phase == Unlocked
      ensures var c := old(cards[k]); var wakes := c.idle != Lost && c.cnt == IDLE && (force || c.idle == PC0);
        && (c.idle == Lost ==> err == -ENODEV && cards == old(cards))
        && (c.idle != Lost && c.cnt != IDLE ==> err == 0 && cards == old(cards)[k := c.(cnt := c.cnt + 1)])
        && (c.idle != Lost && c.cnt == IDLE && !wakes ==> err == -EAGAIN && cards == old(cards))
        && (wakes && !present ==> err == -ENODEV && cards == old(cards))
        && (wakes && present ==>
              && ActivationOf(dep, old(cards), k, woken)
              && Woken(old(cards), cards, woken, woke, k, true, stop, true)
              && Reconnected(dep, dep', old(cards), woken, woke, stop)
              && err == if stop < |cards| || ExitError(old(cards), woken, woke, |cards|) then -ENODEV else 0)
        && (!(wakes && present) ==> dep' == dep)
        && Settles(s, s', k, true, wakes && present && k < stop && cards[k].idle != Lost, err != 0)
    {
      hide Follows, Apply, Shows, ActivationOf, Woken, ExitError, Square, Reconnected, LeftByCard, LeftBySome;
      s', dep', woken, stop := s, dep, {}, 0;
      FollowsNow(s, TimedOut in woke);
      ShowsLength(s, cards);
      if cards[k].idle == Lost {
        err := -ENODEV;
        return;
      }
      if cards[k].cnt != IDLE {
        GetStep(s, cards, k);
        FollowsStep(s, s, Get(k), TimedOut in woke);
        cards := cards[k := cards[k].(cnt := cards[k].cnt + 1)];
        err, s' := 0, Apply(s, Get(k));
        return;
      }
      if !force && cards[k].idle != PC0 {
        err := -EAGAIN;
        return;
      }
      err, dep', woken, stop, s' := IdleExit(k, true, present, dep, len, woke, s);
      if err != 0 {
        err := -ENODEV;
      }
    }

    /** pc6_entry_start; `entry` is the result of pm_pc3_to_pc6_entry. */
    method Pc6Entry(k: nat, entry: int, ghost s: State) returns (err: int, ghost s': State)
      requires k < |cards| && Shows(s, cards) && s.phase.Unlocked?
      modifies this
      ensures Follows(s, s', false) && Shows(s', cards) && s'.phase == Unlocked && |cards| == |old(cards)|
      ensures err == 0 <==> old(cards[k]).idle == PC3 && entry == 0
      ensures cards == if err == 0 then old(cards)[k := old(cards[k]).(idle := PC6)] else old(cards)
    {
      hide Follows, Apply, Shows;
      s' := s;
      FollowsNow(s, false);
      if cards[k].idle == PC0 {
        return -EFAULT, s';
      }
      if cards[k].idle != PC3 {
        return -EINVAL, s';
      }
      if entry != 0 {
        return entry, s';
      }
      Pc6Step(s, cards, k);
      FollowsStep(s, s, EnterPC6(k), false);
      cards := cards[k := cards[k].(idle := PC6)];
      return 0, Apply(s, EnterPC6(k));
    }

    /** micpm_put_reference. */
    method PutReference(k: nat, ghost s: State) returns (err: int, ghost s': State)
      requires k < |cards| && Shows(s, cards) && PowerProtocol.Inv(s) && |s.nodes| == |cards| && s.nodes[k].holders > 0
      modifies this
      ensures Follows(s, s', false) && Shows(s', cards) && |s'.nodes| == |s.nodes| == |cards|
      ensures s'.nodes[k].holders == s.nodes[k].holders - 1
      ensures var c := old(cards[k]);
        if c.idle == Lost then err == -ENODEV && cards == old(cards)
        else err == 0 && cards == old(cards)[k := c.(cnt := c.cnt - 1)]
      ensures !s.nodes[k].everLost ==> err == 0 && cards[k].cnt >= 0
    {
      hide Follows, Apply, Shows, PhaseOk, NodesOk;
      FollowsNow(s, false);
      NodeIs(s, k);
      PutStep(s, cards, k);
      if cards[k].idle == Lost {
        FollowsStep(s, s, PutLost(k), false);
        return -ENODEV, Apply(s, PutLost(k));
      }
      FollowsStep(s, s, Put(k), false);
      cards := cards[k := cards[k].(cnt := cards[k].cnt - 1)];
      return 0, Apply(s, Put(k));
    }
  }

  lemma InMaskSet(mask: seq<byte>, n: nat, k: nat)
    requires n < 8 * |mask| && k < n
    ensures k in MaskSet(mask, n) <==> InMask(mask, k + 1)
  {
    hide InMask;
  }

  lemma DisconnectRound(s: State, cards: seq<Card>, wakeup: bool)
    requires s.phase.Disconnecting? && s.phase.i < |s.nodes| == |cards| && Shows(s, cards)
    ensures var i := s.phase.i; var c := cards[i]; var s' := Apply(s, Disconnect(wakeup));
      if i !in s.phase.mask then Shows(s', cards) && s'.phase == Advance(s.phase)
      else
        && Shows(s', cards[i := Freeze(c)])
        && s'.phase == if (c.cnt != 0 && c.cnt != IDLE) || wakeup then Closing(s.phase.who, s.phase.mask, Refused)
                       else Advance(s.phase)
  {
  }

  lemma RefuseStep(s: State)
    requires s.phase.Disconnecting?
    ensures Apply(s, Refuse).phase == Closing(s.phase.who, s.phase.mask, Refused)
    ensures forall cards :: Shows(s, cards) ==> Shows(Apply(s, Refuse), cards)
  {
  }

  lemma ShowsLength(s: State, cards: seq<Card>)
    requires Shows(s, cards)
    ensures |s.nodes| == |cards|
  {
  }

  lemma MarkRound(s: State, cards: seq<Card>)
    requires s.phase.Marking? && s.phase.i < |s.nodes| == |cards| && Shows(s, cards)
    ensures var i := s.phase.i; var c := cards[i]; var s' := Apply(s, Mark);
      if i !in s.phase.mask then Shows(s', cards) && s'.phase == Advance(s.phase)
      else if c.idle != PC3Ready then Shows(s', cards) && s'.phase == Reverting(s.phase.who, s.phase.mask, 0)
      else Shows(s', cards[i := c.(idle := PC3)]) && s'.phase == Advance(s.phase)
  {
  }

  /** The last wake-up among the first `k` cards failed. */
  predicate RevertError(cards: seq<Card>, m: set<nat>, up: seq<bool>, k: nat)
    requires k <= |cards| == |up|
  {
    exists j <- m ::
      j < k && cards[j].idle == PC3 && !up[j] && forall i <- m :: j < i < k ==> cards[i].idle != PC3
  }

  lemma NoneReverted(cards: seq<Card>, m: set<nat>, up: seq<bool>)
    requires |cards| == |up|
    ensures !RevertError(cards, m, up, 0)
  {
  }

  lemma NextReverted(cards: seq<Card>, m: set<nat>, up: seq<bool>, k: nat)
    requires k < |cards| == |up|
    ensures RevertError(cards, m, up, k + 1)
      == if k in m && cards[k].idle.PC3? then !up[k] else RevertError(cards, m, up, k)
  {
  }

  lemma RevertSame(c: Card, up: bool, cards: seq<Card>, k: nat)
    requires k < |cards| && cards[k] == c
    ensures c.idle != PC3 ==> cards[k := Revert(c, up)] == cards
  {
  }

  lemma RevertRound(s: State, cards: seq<Card>, up: bool)
    requires s.phase.Reverting? && s.phase.i < |s.nodes| == |cards| && Shows(s, cards)
    ensures var i := s.phase.i; var s' := Apply(s, RevertOne(up));
      && s'.phase == Advance(s.phase)
      && Shows(s', if i !in s.phase.mask then cards else cards[i := Revert(cards[i], up)])
  {
  }

  // ------------------------------------------------------------------ the entry transaction

  /** What do_idlestate_entry meets: cards online, wake-ups in progress, the results of the
      disconnects it calls, and which cards can be woken. */
  datatype Env = Env(online: seq<bool>, wakeup: seq<bool>, scif: int, vcons: int, up: seq<bool>)
  {
    predicate Fits(n: nat) { |online| == |wakeup| == |up| == n }
  }

  /** Every card of `m` before card `k` lets go. */
  predicate PassableTo(cards: seq<Card>, m: set<nat>, env: Env, k: nat)
    requires env.Fits(|cards|)
  {
    forall j <- m :: j < k && j < |cards| ==>
      env.online[j] && (cards[j].cnt == 0 || cards[j].cnt == IDLE) && !env.wakeup[j]
  }

  /** Every card of `m` before card `k` is ready. */
  predicate ReadyTo(cards: seq<Card>, m: set<nat>, k: nat)
  {
    forall j <- m :: j < k && j < |cards| ==> cards[j].idle == PC3Ready
  }

  /** The outcome of the transaction on the cards: it succeeds exactly when every card of the mask
      lets go and is ready, and then exactly those cards are in PC3 with an IDLE count; it reverts
      exactly when some card that let go was not ready, and then a card that was in PC3 is at PC0 if
      it woke up and lost if not; when it is refused only counts of 0 became IDLE, up to the card
      that did not let go; cards outside the mask are not touched. */
  predicate Transacts(was: seq<Card>, now: seq<Card>, m: set<nat>, env: Env, result: EntryResult)
    requires env.Fits(|was|) && |now| == |was|
  {
    var passes := env.scif == 0 && env.vcons == 0 && PassableTo(was, m, env, |was|);
    && (result == Entered <==> passes && ReadyTo(was, m, |was|))
    && (result == Reverted <==> passes && !ReadyTo(was, m, |was|))
    && (forall k :: 0 <= k < |was| && k !in m ==> now[k] == was[k])
    && (forall k <- m :: k < |was| ==>
          && (result == Entered ==> now[k] == Card(PC3, IDLE))
          && (result == Reverted ==>
                now[k] == if was[k].idle != PC3 && !ReadyTo(was, m, k + 1) then Card(was[k].idle, IDLE)
                          else if env.up[k] then Card(PC0, IDLE) else Card(Lost, 0))
          && (result == Refused ==>
                now[k] == if env.scif == 0 && PassableTo(was, m, env, k) && env.online[k] && was[k].cnt == 0
                          then Card(was[k].idle, IDLE) else was[k]))
  }

  /** The steps between the loops leave the cards alone. */
  predicate Quick(s: State, st: Step)
  {
    match st
    case BeginEntry(k, mask) => s.phase.Unlocked? && k < |s.nodes| && Cards(mask, |s.nodes|)
    case Refuse => s.phase.Disconnecting?
    case BeginMarking => s.phase.Disconnecting? && s.phase.i == |s.nodes|
    case EndMarking => s.phase.Marking? && s.phase.i == |s.nodes|
    case EndReverting => s.phase.Reverting? && s.phase.i == |s.nodes|
    case _ => false
  }

  function Next(s: State, st: Step): Phase
    requires Quick(s, st)
  {
    match st
    case BeginEntry(k, mask) => Disconnecting(k, mask, 0)
    case Refuse => Closing(s.phase.who, s.phase.mask, Refused)
    case BeginMarking => Marking(s.phase.who, s.phase.mask, 0)
    case EndMarking => Closing(s.phase.who, s.phase.mask, Entered)
    case EndReverting => Closing(s.phase.who, s.phase.mask, Reverted)
  }

  lemma Take(s0: State, s: State, cards: seq<Card>, st: Step) returns (s': State)
    requires Follows(s0, s, false) && Shows(s, cards) && Quick(s, st)
    ensures Follows(s0, s', false) && Shows(s', cards) && s'.phase == Next(s, st)
  {
    hide Follows;
    FollowsStep(s0, s, st, false);
    s' := Apply(s, st);
  }

  lemma MaskSetCards(mask: seq<byte>, n: nat)
    requires n < 8 * |mask|
    ensures Cards(MaskSet(mask, n), n)
  {
    hide CardIn;
  }

  lemma SameMask(a: seq<byte>, b: seq<byte>, n: nat)
    requires |a| == |b| && n < 8 * |a| && forall v :: 0 <= v < 8 * |a| ==> (InMask(a, v) <==> InMask(b, v))
    ensures MaskSet(a, n) == MaskSet(b, n)
  {
    hide InMask;
  }

  lemma RefusedBy(was: seq<Card>, m: set<nat>, env: Env)
    requires env.Fits(|was|) && env.scif != 0
    ensures Transacts(was, was, m, env, Refused)
  {
    hide PassableTo, ReadyTo;
  }

  lemma RefusedAt(was: seq<Card>, now: seq<Card>, m: set<nat>, env: Env, stop: nat)
    requires env.Fits(|was|) && |now| == |was| && stop < |was| && stop in m && env.scif == 0
    requires PassableTo(was, m, env, stop) && !PassableTo(was, m, env, stop + 1)
    requires forall k :: 0 <= k < |now| ==>
      now[k] == if k <= stop && k in m && env.online[k] && was[k].cnt == 0 then was[k].(cnt := IDLE) else was[k]
    ensures Transacts(was, now, m, env, Refused)
  {
    hide ReadyTo;
  }

  /** The masked cards after pm_node_disconnect let all of them go. */
  predicate Frozen(was: seq<Card>, mid: seq<Card>, m: set<nat>)
  {
    |mid| == |was| && forall k :: 0 <= k < |was| ==> mid[k] == if k in m then was[k].(cnt := IDLE) else was[k]
  }

  lemma AllFrozen(was: seq<Card>, mid: seq<Card>, m: set<nat>, env: Env)
    requires env.Fits(|was|) && |mid| == |was| && PassableTo(was, m, env, |was|)
    requires forall k :: 0 <= k < |mid| ==>
      mid[k] == if k <= |was| && k in m && env.online[k] && was[k].cnt == 0 then was[k].(cnt := IDLE) else was[k]
    ensures Frozen(was, mid, m)
  {
  }

  lemma RefusedLate(was: seq<Card>, now: seq<Card>, m: set<nat>, env: Env)
    requires env.Fits(|was|) && Frozen(was, now, m) && PassableTo(was, m, env, |was|) && env.scif == 0 && env.vcons != 0
    ensures Transacts(was, now, m, env, Refused)
  {
    hide ReadyTo;
  }

  lemma AllMarked(was: seq<Card>, mid: seq<Card>, now: seq<Card>, m: set<nat>, env: Env)
    requires env.Fits(|was|) && Frozen(was, mid, m) && PassableTo(was, m, env, |was|)
    requires env.scif == 0 && env.vcons == 0
    requires |now| == |mid| && forall k <- m :: k < |mid| ==> mid[k].idle.PC3Ready?
    requires forall k :: 0 <= k < |now| ==> now[k] == if k < |mid| && k in m then mid[k].(idle := PC3) else mid[k]
    ensures Transacts(was, now, m, env, Entered)
  {
    hide PassableTo;
  }

  lemma AllReverted(was: seq<Card>, mid: seq<Card>, marked: seq<Card>, now: seq<Card>, m: set<nat>, env: Env, stop: nat)
    requires env.Fits(|was|) && Frozen(was, mid, m) && PassableTo(was, m, env, |was|)
    requires env.scif == 0 && env.vcons == 0
    requires |marked| == |mid| == |now| && stop < |mid| && stop in m && !mid[stop].idle.PC3Ready?
    requires forall k <- m :: k < stop ==> k < |mid| && mid[k].idle.PC3Ready?
    requires forall k :: 0 <= k < |mid| ==> marked[k] == if k < stop && k in m then mid[k].(idle := PC3) else mid[k]
    requires forall k :: 0 <= k < |mid| ==>
      now[k] == if k !in m || marked[k].idle != PC3 then marked[k]
                else if env.up[k] then marked[k].(idle := PC0) else Card(Lost, 0)
    ensures Transacts(was, now, m, env, Reverted)
  {
    hide PassableTo;
  }

  lemma ClosingStep(s: State, cards: seq<Card>, up: bool)
    requires s.phase.Closing? && s.phase.who < |s.nodes| == |cards| && Shows(s, cards)
    ensures var who := s.phase.who; var s' := Apply(s, EndEntry(up));
      && s'.phase == Unlocked
      && Shows(s', if s.phase.result != Entered && up then cards[who := cards[who].(idle := PC0)] else cards)
  {
  }

  // ------------------------------------------------------------------------ leaving idle

  function Idles(cards: seq<Card>): (r: seq<IdleState>)
  {
    seq(|cards|, k requires 0 <= k < |cards| => cards[k].idle)
  }

  lemma IdleLength(cards: seq<Card>)
    ensures |Idles(cards)| == |cards|
  {
  }

  /** The cards of the activation set of card `who`. */
  ghost predicate ActivationOf(dep: seq<seq<Dependency>>, cards: seq<Card>, who: nat, woken: set<nat>)
    requires Square(dep) && |dep| == |cards| + 1
  {
    exists closure :: Least(ActiveGraph(dep, Idles(cards)), who + 1, closure) && Reduces(closure, woken, |cards|)
  }

  /** Node ids to card numbers. */
  predicate Reduces(closure: set<nat>, woken: set<nat>, n: nat)
  {
    forall k :: 0 <= k < n ==> (k in woken <==> k + 1 in closure)
  }

  lemma EmptyMask(mask: seq<byte>, v: nat)
    requires v < 8 * |mask| && forall i :: 0 <= i < |mask| ==> mask[i] == 0
    ensures !InMask(mask, v)
  {
    ZeroBit(v % 8);
  }

  lemma ActivationIs(dep: seq<seq<Dependency>>, cards: seq<Card>, who: nat, closure: set<nat>, zero: seq<byte>,
                     mask: seq<byte>)
    requires Square(dep) && |dep| == |cards| + 1 && |cards| < 8 * |mask| && who < |cards|
    requires Least(ActiveGraph(dep, Idles(cards)), who + 1, closure) && Gains(zero, mask, closure)
    requires forall i :: 0 <= i < |zero| ==> zero[i] == 0
    ensures ActivationOf(dep, cards, who, MaskSet(mask, |cards|)) && who in MaskSet(mask, |cards|)
  {
    hide InMask, Square, ActiveGraph, MaskSet, Closed;
    var n := |cards|;
    var woken := MaskSet(mask, n);
    forall k | 0 <= k < n ensures k in woken <==> k + 1 in closure {
      InMaskSet(mask, n, k);
      EmptyMask(zero, k + 1);
    }
    assert Reduces(closure, woken, n);
  }

  lemma IdleIs(cards: seq<Card>, k: nat)
    requires k < |cards|
    ensures |Idles(cards)| == |cards| && Idles(cards)[k] == cards[k].idle
  {
  }

  /** Some card of `m` is disconnected from card `k`. */
  ghost predicate LeftByCard(dep: seq<seq<Dependency>>, m: set<nat>, k: nat)
    requires Square(dep)
  {
    exists j <- m :: j + 1 < |dep| && k + 1 < |dep| && dep[j + 1][k + 1] == Disconnected
  }

  lemma CardLeft(dep: seq<seq<Dependency>>, closure: set<nat>, m: set<nat>, k: nat)
    requires Square(dep) && |dep| > 0 && LeftBySome(dep, closure, k + 1) && Reduces(closure, m, |dep| - 1)
    requires 0 !in closure
    ensures LeftByCard(dep, m, k)
  {
    var u :| u in closure && u < |dep| && k + 1 < |dep| && dep[u][k + 1] == Disconnected;
    assert u - 1 in m;
  }

  /** The activation set on the matrix: the card asked for and the sleeping cards that some member
      is disconnected from. */
  lemma ActivationMeans(dep: seq<seq<Dependency>>, cards: seq<Card>, who: nat, woken: set<nat>)
    requires Square(dep) && |dep| == |cards| + 1 && who < |cards| && Cards(woken, |cards|)
    requires ActivationOf(dep, cards, who, woken)
    ensures who in woken && forall j <- woken, k: nat :: k < |cards| && dep[j + 1][k + 1] == Disconnected ==>
      (k in woken <==> k == who || cards[k].idle == PC3 || cards[k].idle == PC6)
    ensures forall k <- woken :: k != who ==>
      (cards[k].idle == PC3 || cards[k].idle == PC6) && LeftByCard(dep, woken, k)
  {
    hide Least, ActiveGraph, Idles, LeftBySome, LeftByCard;
    IdleLength(cards);
    var closure :| Least(ActiveGraph(dep, Idles(cards)), who + 1, closure) && Reduces(closure, woken, |cards|);
    ActiveMeans(dep, Idles(cards), who + 1, closure);
    forall j <- woken, k: nat | k < |cards| && dep[j + 1][k + 1] == Disconnected
      ensures k in woken <==> k == who || cards[k].idle == PC3 || cards[k].idle == PC6
    {
      IdleIs(cards, k);
      assert j + 1 in closure;
    }
    forall k <- woken | k != who
      ensures (cards[k].idle == PC3 || cards[k].idle == PC6) && LeftByCard(dep, woken, k)
    {
      IdleIs(cards, k);
      assert k + 1 in closure;
      CardLeft(dep, closure, woken, k);
    }
  }

  /** The wake-up of a card that is not at PC0 fails. */
  predicate FailsToWake(c: Card, w: Woke) { c.idle == Lost || WakeFails(c.idle, w) }

  /** The last wake-up among the first `k` cards failed. */
  predicate ExitError(cards: seq<Card>, m: set<nat>, woke: seq<Woke>, k: nat)
    requires k <= |cards| == |woke|
  {
    exists j <- m :: j < k && FailsToWake(cards[j], woke[j]) && forall i <- m :: j < i < k ==> cards[i].idle == PC0
  }

  /** How an exit leaves a card it came to. */
  predicate Rouses(c: Card, c': Card, w: Woke, ref: bool)
  {
    && (w == Up || c.idle == PC0 ==> c'.idle == PC0)
    && (w == TimedOut && c.idle == PC6 ==> c'.idle == PC6)
    && (w == TimedOut && c.idle != PC6 && c.idle != PC0 ==> c' == Card(Lost, 0))
    && (w == Failed && c.idle != PC0 ==> c' == Card(Lost, 0))
    && (c'.idle != Lost ==> c'.cnt == if !ref then c.cnt else if c.cnt == IDLE then 1 else c.cnt + 1)
  }

  /** Every card of `m` before `stop` was woken, the card asked for with its reference, and
      no other card was touched. Once `ended`, a `stop` among the cards is a lost one. */
  predicate Woken(was: seq<Card>, now: seq<Card>, m: set<nat>, woke: seq<Woke>, who: nat, ref: bool, stop: nat,
                  ended: bool)
  {
    && |now| == |was| == |woke| && stop <= |was|
    && (forall k :: 0 <= k < |was| && (k >= stop || k !in m) ==> now[k] == was[k])
    && (forall k <- m :: k < stop ==> was[k].idle != Lost && Rouses(was[k], now[k], woke[k], ref && k == who))
    && (ended && stop < |was| ==> stop in m && was[stop].idle.Lost?)
  }

  // A result of 0, on the inputs.

  /** The last of the first `k` cards that is woken, or -1. */
  function LastWoken(cards: seq<Card>, m: set<nat>, k: nat): (j: int)
    requires k <= |cards|
    ensures -1 <= j < k && (j >= 0 ==> j in m && !cards[j].idle.PC0?)
    ensures forall i :: j < i < k && i in m ==> cards[i].idle.PC0?
  {
    if k == 0 then -1 else if k - 1 in m && !cards[k - 1].idle.PC0? then k - 1 else LastWoken(cards, m, k - 1)
  }

  /** Only the last wake-up decides the error. */
  lemma LastDecides(cards: seq<Card>, m: set<nat>, woke: seq<Woke>, k: nat)
    requires k <= |cards| == |woke|
    ensures var j := LastWoken(cards, m, k); ExitError(cards, m, woke, k) <==> j >= 0 && FailsToWake(cards[j], woke[j])
  {
    hide LastWoken;
    var j := LastWoken(cards, m, k);
    assert j >= 0 ==> j in m;
  }

  /** An exit for card `who` reports success although the card was lost exactly when no card of the
      activation set was lost before, the card fails to wake, and the last card woken comes after
      it and does wake. */
  predicate HidesLoss(was: seq<Card>, m: set<nat>, woke: seq<Woke>, who: nat)
    requires who < |was| == |woke|
  {
    var j := LastWoken(was, m, |was|);
    && (forall k <- m :: k < |was| ==> !was[k].idle.Lost?) && FailsToWake(was[who], woke[who])
    && j > who && !FailsToWake(was[j], woke[j])
  }

  lemma ZeroForLostCard(was: seq<Card>, now: seq<Card>, m: set<nat>, woke: seq<Woke>, who: nat, stop: nat)
    requires Woken(was, now, m, woke, who, true, stop, true) && who in m && who < |was|
    ensures !(stop < |was| || ExitError(was, m, woke, |was|)) && now[who].idle.Lost? <==> HidesLoss(was, m, woke, who)
  {
    hide ExitError, LastWoken;
    LastDecides(was, m, woke, |was|);
  }

  /** Otherwise a result of 0 means that the card is at PC0 with a count above 0, unless its PC6 exit
      timed out. */
  lemma ZeroMeansAwake(was: seq<Card>, now: seq<Card>, m: set<nat>, woke: seq<Woke>, who: nat, stop: nat)
    requires Woken(was, now, m, woke, who, true, stop, true) && who in m && who < |was|
    requires !(stop < |was| || ExitError(was, m, woke, |was|)) && (was[who].cnt == IDLE || was[who].cnt >= 0)
    ensures now[who].idle.PC0? && now[who].cnt > 0 <==>
      !HidesLoss(was, m, woke, who) && !(was[who].idle.PC6? && woke[who].TimedOut?)
  {
    hide ExitError, HidesLoss;
    ZeroForLostCard(was, now, m, woke, who, stop);
  }

  lemma WokenStarts(was: seq<Card>, m: set<nat>, woke: seq<Woke>, who: nat, ref: bool)
    requires |was| == |woke|
    ensures Woken(was, was, m, woke, who, ref, 0, false) && !ExitError(was, m, woke, 0)
  {
    hide Wake;
  }

  lemma WokenNow(was: seq<Card>, now: seq<Card>, m: set<nat>, woke: seq<Woke>, who: nat, ref: bool, k: nat)
    requires Woken(was, now, m, woke, who, ref, k, false) && k < |was|
    ensures |now| == |was| == |woke| && now[k] == was[k]
    ensures k !in m ==>
      Woken(was, now, m, woke, who, ref, k + 1, false) && ExitError(was, m, woke, k + 1) == ExitError(was, m, woke, k)
    ensures k in m && was[k].idle.Lost? ==> Woken(was, now, m, woke, who, ref, k, true)
    ensures k in m && !was[k].idle.Lost? ==>
      Woken(was, now[k := Wake(was[k], woke[k], ref && k == who)], m, woke, who, ref, k + 1, false)
    ensures k in m ==> ExitError(was, m, woke, k + 1) == WakeError(was[k], woke[k], ExitError(was, m, woke, k))
  {
    hide Wake, WakeError, ExitError, Rouses;
    ErrorStep(was, m, woke, k);
    if !was[k].idle.Lost? { WakeRouses(was[k], woke[k], ref && k == who); }
  }

  lemma WokenMeans(was: seq<Card>, now: seq<Card>, m: set<nat>, woke: seq<Woke>, who: nat, ref: bool, stop: nat)
    requires Woken(was, now, m, woke, who, ref, stop, true)
    ensures |now| == |was| == |woke| && stop <= |was|
    ensures forall k <- m :: k < stop ==>
      && (woke[k] == Up || was[k].idle == PC0 ==> now[k].idle == PC0)
      && (woke[k] == TimedOut && was[k].idle == PC6 ==> now[k].idle == PC6)
      && (woke[k] != Up && was[k].idle != PC0 && (woke[k] == Failed || was[k].idle != PC6) ==> now[k] == Card(Lost, 0))
      && (k != who && now[k].cnt != was[k].cnt ==> now[k] == Card(Lost, 0))
    ensures forall k :: 0 <= k < |was| && (k !in m || k >= stop) ==> now[k] == was[k]
  {
  }

  lemma WakeRouses(c: Card, w: Woke, ref: bool)
    requires c.idle != Lost
    ensures Rouses(c, Wake(c, w, ref), w, ref)
  {
  }

  lemma ErrorStep(cards: seq<Card>, m: set<nat>, woke: seq<Woke>, k: nat)
    requires k < |cards| == |woke|
    ensures ExitError(cards, m, woke, k + 1)
      == if k in m then WakeError(cards[k], woke[k], ExitError(cards, m, woke, k)) else ExitError(cards, m, woke, k)
  {
  }

  lemma WokenEnds(was: seq<Card>, now: seq<Card>, m: set<nat>, woke: seq<Woke>, who: nat, ref: bool)
    requires Woken(was, now, m, woke, who, ref, |was|, false)
    ensures Woken(was, now, m, woke, who, ref, |was|, true)
  {
    hide Wake;
  }

  /** The switch in do_idlestate_exit. */
  method WakeCard(c: Card, w: Woke, ref: bool, err: int) returns (c': Card, failed: bool, err': int)
    requires c.idle != Lost
    ensures c' == Wake(c, w, ref) && (err' != 0 <==> WakeError(c, w, err != 0)) && (failed <==> c'.idle == Lost)
    ensures w == Up || c.idle == PC0 ==> c'.idle == PC0
    ensures w == TimedOut && c.idle == PC6 ==> c'.idle == PC6
    ensures c.idle != PC0 && (w == Failed || (w == TimedOut && c.idle != PC6)) ==> c' == Card(Lost, 0)
    ensures !failed ==> c'.cnt == if !ref then c.cnt else if c.cnt == IDLE then 1 else c.cnt + 1
    ensures err' == if c.idle == PC0 then err else if failed then -EFAULT else 0
  {
    c', failed, err' := c, false, err;
    match c.idle {
      case PC0 =>
      case PC6 =>
        err' := if w.Failed? then -EFAULT else 0;
        if w.Up? { c' := c'.(idle := PC0); }
      case _ =>
        err' := if w.Up? then 0 else -EFAULT;
        if w.Up? { c' := c'.(idle := PC0); }
    }
    if c.idle != PC0 && err' != 0 {
      c', failed := Card(Lost, 0), true;
    } else if ref {
      c' := c'.(cnt := if c'.cnt == IDLE then 1 else c'.cnt + 1);
    }
  }

  /** No reference changed hands. */
  predicate SameCounts(s: State, s': State)
  {
    && |s'.nodes| == |s.nodes|
    && forall k :: 0 <= k < |s.nodes| ==>
         s'.nodes[k].holders == s.nodes[k].holders && s'.nodes[k].leaked == s.nodes[k].leaked
  }

  /** How an exit for card `who` ends: its caller holds the reference asked for exactly when there
      is no error, and one granted in spite of an error is leaked. */
  predicate Settles(s: State, s': State, who: nat, ref: bool, granted: bool, err: bool)
  {
    && who < |s.nodes| == |s'.nodes|
    && s'.nodes[who].holders == s.nodes[who].holders + (if ref && !err then 1 else 0)
    && s'.nodes[who].leaked == s.nodes[who].leaked + if granted && err then 1 else 0
  }

  lemma SettlesAfter(s: State, s': State, s'': State, who: nat, ref: bool, granted: bool, err: bool)
    requires SameCounts(s, s')
    ensures SameCounts(s', s'') ==> SameCounts(s, s'')
    ensures Settles(s', s'', who, ref, granted, err) ==> Settles(s, s'', who, ref, granted, err)
  {
  }

  /** Where an exit stands before card `k`, seen from the state `s` it started from. */
  ghost predicate Exits(s: State, s': State, cards: seq<Card>, m: set<nat>, who: nat, ref: bool, k: nat, err: bool,
                        late: bool)
  {
    && Follows(s, s', late) && Shows(s', cards) && SameCounts(s, s') && who < |cards| && who in m
    && s'.phase == Exiting(who, m, k, ref, ref && who < k && cards[who].idle != Lost, err)
  }

  lemma ExitBegins(s: State, cards: seq<Card>, m: set<nat>, who: nat, ref: bool, late: bool) returns (s': State)
    requires s.phase.Unlocked? && Shows(s, cards) && who in m && Cards(m, |cards|)
    ensures Exits(s, s', cards, m, who, ref, 0, false, late)
  {
    hide Follows;
    FollowsNow(s, late);
    FollowsStep(s, s, BeginExit(who, ref, m), late);
    s' := Apply(s, BeginExit(who, ref, m));
  }

  /** One round of the loop: the card is passed over, found lost, or woken. */
  lemma ExitStep(s: State, s': State, cards: seq<Card>, m: set<nat>, who: nat, ref: bool, k: nat, err: bool,
                  late: bool, w: Woke)
    returns (s'': State)
    requires Exits(s, s', cards, m, who, ref, k, err, late) && k < |cards| && (w == TimedOut ==> late)
    ensures k !in m ==> Exits(s, s'', cards, m, who, ref, k + 1, err, late)
    ensures k in m && cards[k].idle != Lost ==>
      var c := Wake(cards[k], w, ref && k == who);
      Exits(s, s'', cards[k := c], m, who, ref, k + 1, WakeError(cards[k], w, err), late)
    ensures k in m && cards[k].idle == Lost ==>
      && Follows(s, s'', late) && Shows(s'', cards) && s''.phase == Unlocked && who < |cards|
      && Settles(s, s'', who, ref, ref && who < k && cards[who].idle != Lost, true)
  {
    hide Follows, Wake, WakeError, Apply, Shows, Settles, SameCounts;
    ShowsLength(s', cards);
    WakeRound(s', cards, w);
    FollowsStep(s, s', ExitOne(w), late);
    s'' := Apply(s', ExitOne(w));
    SettlesAfter(s, s', s'', who, ref, s'.phase.granted, true);
  }

  lemma ExitEnds(s: State, s': State, cards: seq<Card>, m: set<nat>, who: nat, ref: bool, err: bool, late: bool)
    returns (s'': State)
    requires Exits(s, s', cards, m, who, ref, |cards|, err, late)
    ensures Follows(s, s'', late) && Shows(s'', cards) && s''.phase == Unlocked && who < |cards|
    ensures Settles(s, s'', who, ref, ref && cards[who].idle != Lost, err)
  {
    hide Follows, Apply, Shows, Settles, SameCounts;
    ShowsLength(s', cards);
    LastRound(s', cards);
    FollowsStep(s, s', EndExit, late);
    s'' := Apply(s', EndExit);
    SettlesAfter(s, s', s'', who, ref, s'.phase.granted, err);
  }

  lemma WakeRound(s: State, cards: seq<Card>, w: Woke)
    requires s.phase.Exiting? && s.phase.i < |s.nodes| == |cards| && Shows(s, cards)
    requires s.phase.who < |cards| && (s.phase.granted ==> s.phase.ref)
    ensures var p := s.phase; var i := p.i; var c := cards[i]; var s' := Apply(s, ExitOne(w));
      if i !in p.mask then Shows(s', cards) && s'.phase == Advance(p) && SameCounts(s, s')
      else if c.idle == Lost then
        Shows(s', cards) && s'.phase == Unlocked && Settles(s, s', p.who, p.ref, p.granted, true)
      else
        var c' := Wake(c, w, p.ref && i == p.who);
        && Shows(s', cards[i := c']) && SameCounts(s, s')
        && s'.phase == Exiting(p.who, p.mask, i + 1, p.ref, p.granted || (p.ref && i == p.who && c'.idle != Lost),
                               WakeError(c, w, p.err))
  {
    hide Wake, WakeError;
  }

  lemma LastRound(s: State, cards: seq<Card>)
    requires s.phase.Exiting? && s.phase.i == |s.nodes| == |cards| && Shows(s, cards) && s.phase.who < |cards|
    requires s.phase.granted ==> s.phase.ref
    ensures var p := s.phase; var s' := Apply(s, EndExit);
      Shows(s', cards) && s'.phase == Unlocked && Settles(s, s', p.who, p.ref, p.granted, p.err)
  {
  }

  // ------------------------------------------------- dependencies of a card that left PC6

  function ReconnectedRow(row: seq<Dependency>): (r: seq<Dependency>)
    ensures |r| == |row|
  {
    seq(|row|, v requires 0 <= v < |row| => if row[v].Disconnected? then Dependent else row[v])
  }

  /** The loop at the end of pm_pc6_exit: the card's disconnected dependencies are active again. */
  method Reconnect(dep: seq<seq<Dependency>>, node: nat) returns (dep': seq<seq<Dependency>>)
    requires node < |dep|
    ensures dep' == dep[node := ReconnectedRow(dep[node])]
    ensures |dep'[node]| == |dep[node]| && forall v :: 0 <= v < |dep'[node]| ==>
      dep'[node][v] == if dep[node][v] == Disconnected then Dependent else dep[node][v]
  {
    var row := dep[node];
    for i := 0 to |row|
      invariant |row| == |dep[node]|
      invariant forall v :: 0 <= v < |row| ==> row[v] == if v < i then ReconnectedRow(dep[node])[v] else dep[node][v]
    {
      if row[i] == Disconnected {
        row := row[i := Dependent];
      }
    }
    assert row == ReconnectedRow(dep[node]);
    dep' := dep[node := row];
  }

  predicate LeavesPC6(was: seq<Card>, m: set<nat>, woke: seq<Woke>, stop: nat, k: nat)
  {
    k < stop && k in m && k < |was| && k < |woke| && was[k].idle.PC6? && woke[k].Up?
  }

  /** The rows of the cards before `stop` that left PC6 were reconnected, the others not touched. */
  predicate Reconnected(dep: seq<seq<Dependency>>, dep': seq<seq<Dependency>>, was: seq<Card>, m: set<nat>,
                        woke: seq<Woke>, stop: nat)
  {
    && |dep'| == |dep|
    && forall u :: 0 <= u < |dep| ==>
         dep'[u] == if u > 0 && LeavesPC6(was, m, woke, stop, u - 1) then ReconnectedRow(dep[u]) else dep[u]
  }

  lemma ReconnectedMeans(dep: seq<seq<Dependency>>, dep': seq<seq<Dependency>>, was: seq<Card>, m: set<nat>,
                         woke: seq<Woke>, stop: nat)
    requires Reconnected(dep, dep', was, m, woke, stop) && Square(dep) && stop <= |was| == |woke| && |dep| == |was| + 1
    ensures Square(dep') && |dep'| == |dep| && forall u, v :: 0 <= u < |dep| && 0 <= v < |dep| ==>
      dep'[u][v] == if u > 0 && u - 1 in m && u - 1 < stop && was[u - 1].idle == PC6 && woke[u - 1] == Up
                       && dep[u][v] == Disconnected then Dependent else dep[u][v]
  {
  }

  lemma NoneReconnected(dep: seq<seq<Dependency>>, was: seq<Card>, m: set<nat>, woke: seq<Woke>)
    ensures Reconnected(dep, dep, was, m, woke, 0)
  {
  }

  lemma NextReconnected(dep: seq<seq<Dependency>>, dep': seq<seq<Dependency>>, was: seq<Card>, m: set<nat>,
                        woke: seq<Woke>, k: nat)
    requires Reconnected(dep, dep', was, m, woke, k) && k < |was| == |woke| && |dep| == |was| + 1
    ensures |dep'| == |dep|
    ensures var next := if LeavesPC6(was, m, woke, k + 1, k) then dep'[k + 1 := ReconnectedRow(dep'[k + 1])] else dep';
      Reconnected(dep, next, was, m, woke, k + 1)
  {
    hide ReconnectedRow;
  }

  lemma GetStep(s: State, cards: seq<Card>, k: nat)
    requires Shows(s, cards) && k < |cards| && cards[k].cnt != IDLE
    ensures var s' := Apply(s, Get(k));
      && Shows(s', cards[k := cards[k].(cnt := cards[k].cnt + 1)]) && s'.phase == s.phase
      && Settles(s, s', k, true, false, false)
  {
  }

  lemma PutStep(s: State, cards: seq<Card>, k: nat)
    requires Shows(s, cards) && k < |cards| == |s.nodes| && s.nodes[k].holders > 0
    ensures var s' := Apply(s, Put(k));
      && Shows(s', cards[k := cards[k].(cnt := cards[k].cnt - 1)])
      && |s'.nodes| == |s.nodes| && s'.nodes[k].holders == s.nodes[k].holders - 1
    ensures s.nodes[k].everLost ==> var s' := Apply(s, PutLost(k));
      Shows(s', cards) && |s'.nodes| == |s.nodes| && s'.nodes[k].holders == s.nodes[k].holders - 1
    ensures s.nodes[k].card == cards[k]
  {
  }

  lemma Pc6Step(s: State, cards: seq<Card>, k: nat)
    requires Shows(s, cards) && k < |cards| && cards[k].idle == PC3 && s.phase.Unlocked?
    ensures var s' := Apply(s, EnterPC6(k)); Shows(s', cards[k := cards[k].(idle := PC6)]) && s'.phase == Unlocked
  {
  }

  lemma ReadyStep(s: State, cards: seq<Card>, k: nat)
    requires Shows(s, cards) && k < |cards| && cards[k].idle == PC0
    ensures var s' := Apply(s, SetReady(k)); Shows(s', cards[k := cards[k].(idle := PC3Ready)]) && s'.phase == s.phase
  {
  }

  lemma WakeupStep(s: State, cards: seq<Card>, k: nat, up: bool)
    requires Shows(s, cards) && k < |cards| && s.phase.Unlocked?
    ensures var s' := Apply(s, SendWakeup(k, up));
      Shows(s', if up then cards[k := cards[k].(idle := PC0)] else cards) && s'.phase == Unlocked
  {
  }
}
