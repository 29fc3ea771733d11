/** The power-management protocol of host/pm_pcstate.c and include/mic_common.h as atomic
    steps: reference counting by any thread, interleaved with idle entry, idle exit and PC6
    entry, which run under one mutex. Cards are numbered from 0 (node id minus one). */
module PowerProtocol {
  import opened NodeGraph

  /** PM_NODE_IDLE, 1 << 31 in a signed 32-bit counter. */
  const IDLE: int := -0x8000_0000

  /** idle_state and pm_ref_cnt of a card. */
  datatype Card = Card(idle: IdleState, cnt: int)
  {
    predicate Asleep() { idle.PC3? || idle.PC6? }
  }

  // ------------------------------------------------------------- atomic pieces of the code

  /** atomic_cmpxchg(&pm_ref_cnt, 0, PM_NODE_IDLE). */
  function Freeze(c: Card): Card { if c.cnt == 0 then c.(cnt := IDLE) else c }

  /** The reference taken by do_idlestate_exit for its caller. */
  function Grant(c: Card): Card { c.(cnt := if c.cnt == IDLE then 1 else c.cnt + 1) }

  const LOST := Card(Lost, 0)

  /** How waking a card ends. A timed out PC6 exit reports success (err is still 0) but
      leaves the card in PC6; a timed out PC3 exit is a failure. */
  datatype Woke = Up | TimedOut | Failed

  /** One round of the loop of do_idlestate_exit; `ref` for the card that asked with get_ref. */
  function Wake(c: Card, w: Woke, ref: bool): Card
  {
    match c.idle
    case Lost => c
    case PC0 => if ref then Grant(c) else c
    case PC6 =>
      if w.Failed? then LOST
      else
        var c' := if w.Up? then c.(idle := PC0) else c;
        if ref then Grant(c') else c'
    case _ =>
      if !w.Up? then LOST
      else if ref then Grant(c.(idle := PC0)) else c.(idle := PC0)
  }

  /** `err` after that round: rewritten by every wake-up, so that a later success hides an
      earlier failure. */
  function WakeError(c: Card, w: Woke, err: bool): bool
  {
    match c.idle
    case Lost => true
    case PC0 => err
    case PC6 => w.Failed?
    case _ => !w.Up?
  }

  /** One round of revert_idle_entry_trasaction. */
  function Revert(c: Card, up: bool): Card
  {
    if !c.idle.PC3? then c else if up then c.(idle := PC0) else LOST
  }

  // ------------------------------------------------------------------------------- states

  /** A card with the references callers hold to it, those granted to a caller that was then
      told of an error, and whether it was ever lost. */
  datatype Node = Node(card: Card, holders: nat, leaked: nat, everLost: bool)

  function With(n: Node, c: Card): Node { Node(c, n.holders, n.leaked, n.everLost || c.idle.Lost?) }

  datatype EntryResult = Entered | Reverted | Refused

  /** Who holds the mutex and how far it got; `i` is the loop index. */
  datatype Phase =
    | Unlocked
    | Disconnecting(who: nat, mask: set<nat>, i: nat)
    | Marking(who: nat, mask: set<nat>, i: nat)
    | Reverting(who: nat, mask: set<nat>, i: nat)
    | Closing(who: nat, mask: set<nat>, result: EntryResult)
    | Exiting(who: nat, mask: set<nat>, i: nat, ref: bool, granted: bool, err: bool)

  datatype State = State(nodes: seq<Node>, phase: Phase)

  datatype Step =
    | Get(k: nat)                                   // micpm_get_reference, not idle
    | Put(k: nat)                                   // micpm_put_reference
    | PutLost(k: nat)                               // the same, refused because the card is lost
    | SetReady(k: nat)                              // pm_pc3_entry before the transaction
    | BeginEntry(k: nat, mask: set<nat>)            // do_idlestate_entry up to pm_node_disconnect
    | Refuse                                        // a disconnect step before the marking loop fails
    | Disconnect(wakeup: bool)                      // one round of pm_node_disconnect
    | BeginMarking
    | Mark                                          // one round of the marking loop
    | EndMarking
    | RevertOne(up: bool)
    | EndReverting
    | EndEntry(up: bool)                            // the unlock path of do_idlestate_entry
    | SendWakeup(k: nat, up: bool)                  // pm_pc3_entry, send_wakeup
    | EnterPC6(k: nat)                              // pc6_entry_start, on success
    | BeginExit(k: nat, ref: bool, mask: set<nat>)  // do_idlestate_exit, mask from the activation set
    | ExitOne(w: Woke)
    | EndExit

  function Set(s: State, k: nat, n: Node, p: Phase): State
    requires k < |s.nodes|
  {
    State(s.nodes[k := n], p)
  }

  /** Steps callers take without the mutex. The test for a lost card is made before the
      counter is touched and may be stale, so it does not guard `Get` or `Put`. */
  function Client(n: Node, st: Step): Node
  {
    match st
    case Get(_) =>
      if n.card.cnt != IDLE then n.(card := n.card.(cnt := n.card.cnt + 1), holders := n.holders + 1) else n
    case Put(_) =>
      if n.holders > 0 then n.(card := n.card.(cnt := n.card.cnt - 1), holders := n.holders - 1) else n
    case PutLost(_) => if n.holders > 0 && n.everLost then n.(holders := n.holders - 1) else n
    case SetReady(_) => if n.card.idle.PC0? then With(n, n.card.(idle := PC3Ready)) else n
    case _ => n
  }

  predicate ByClient(st: Step) { st.Get? || st.Put? || st.PutLost? || st.SetReady? }

  /** Steps that take or leave the mutex or move from one loop to the next. */
  function Control(s: State, st: Step): State
  {
    var n := |s.nodes|;
    match s.phase
    case Unlocked =>
      (match st
       case BeginEntry(k, mask) =>
         if k < n && Cards(mask, n) then s.(phase := Disconnecting(k, mask, 0)) else s
       case BeginExit(k, ref, mask) =>
         if k in mask && Cards(mask, n) then s.(phase := Exiting(k, mask, 0, ref, false, false)) else s
       case SendWakeup(k, up) =>
         if k < n && up then Set(s, k, With(s.nodes[k], s.nodes[k].card.(idle := PC0)), Unlocked) else s
       case EnterPC6(k) =>
         if k < n && s.nodes[k].card.idle.PC3?
         then Set(s, k, With(s.nodes[k], s.nodes[k].card.(idle := PC6)), Unlocked) else s
       case _ => s)
    case Disconnecting(who, mask, i) =>
      if st.Refuse? then s.(phase := Closing(who, mask, Refused))
      else if st.BeginMarking? && i == n then s.(phase := Marking(who, mask, 0)) else s
    case Marking(who, mask, i) =>
      if st.EndMarking? && i == n then s.(phase := Closing(who, mask, Entered)) else s
    case Reverting(who, mask, i) =>
      if st.EndReverting? && i == n then s.(phase := Closing(who, mask, Reverted)) else s
    case Closing(who, mask, result) =>
      if !st.EndEntry? then s
      else if result != Entered && who < n && st.up
      then Set(s, who, With(s.nodes[who], s.nodes[who].card.(idle := PC0)), Unlocked)
      else s.(phase := Unlocked)
    case Exiting(who, mask, i, ref, granted, err) =>
      if st.EndExit? && i == n then Returned(s, err) else s
  }

  /** do_idlestate_exit returns: its caller holds the reference it asked for, or, on an error,
      does not know of one already granted. */
  function Returned(s: State, err: bool): State
    requires s.phase.Exiting?
  {
    var who := s.phase.who;
    if who >= |s.nodes| then s.(phase := Unlocked)
    else if s.phase.ref && !err then Set(s, who, s.nodes[who].(holders := s.nodes[who].holders + 1), Unlocked)
    else if s.phase.granted then Set(s, who, s.nodes[who].(leaked := s.nodes[who].leaked + 1), Unlocked)
    else s.(phase := Unlocked)
  }

  predicate Cards(mask: set<nat>, n: nat) { forall k <- mask :: k < n }

  /** The loop moves on to the next card. */
  function Advance(p: Phase): Phase
  {
    match p
    case Disconnecting(who, mask, i) => Disconnecting(who, mask, i + 1)
    case Marking(who, mask, i) => Marking(who, mask, i + 1)
    case Reverting(who, mask, i) => Reverting(who, mask, i + 1)
    case Exiting(who, mask, i, ref, granted, err) => Exiting(who, mask, i + 1, ref, granted, err)
    case _ => p
  }

  /** One round of the loop that the mutex holder is in, at card `i`. */
  function Round(s: State, st: Step): State
    requires !s.phase.Unlocked? && !s.phase.Closing? && s.phase.i < |s.nodes|
  {
    var i := s.phase.i;
    var node, next := s.nodes[i], Advance(s.phase);
    match s.phase
    case Disconnecting(who, mask, _) =>
      if !st.Disconnect? then s
      else if i !in mask then s.(phase := next)
      else
        var frozen := With(node, Freeze(node.card));
        var refused := (node.card.cnt != 0 && node.card.cnt != IDLE) || st.wakeup;
        Set(s, i, frozen, if refused then Closing(who, mask, Refused) else next)
    case Marking(who, mask, _) =>
      if !st.Mark? then s
      else if i !in mask then s.(phase := next)
      else if node.card.idle.PC3Ready? then Set(s, i, With(node, node.card.(idle := PC3)), next)
      else s.(phase := Reverting(who, mask, 0))
    case Reverting(who, mask, _) =>
      if !st.RevertOne? then s
      else if i !in mask then s.(phase := next)
      else Set(s, i, With(node, Revert(node.card, st.up)), next)
    case Exiting(who, mask, _, ref, granted, err) =>
      if !st.ExitOne? then s
      else if i !in mask then s.(phase := next)
      else if node.card.idle.Lost? then Returned(s, true)
      else
        var card := Wake(node.card, st.w, ref && i == who);
        Set(s, i, With(node, card),
            Exiting(who, mask, i + 1, ref, granted || (ref && i == who && !card.idle.Lost?),
                    WakeError(node.card, st.w, err)))
  }

  /** A step that the current state does not allow changes nothing. */
  function Apply(s: State, st: Step): State
  {
    if ByClient(st) then
      (if st.k < |s.nodes| then Set(s, st.k, Client(s.nodes[st.k], st), s.phase) else s)
    else if st.Disconnect? || st.Mark? || st.RevertOne? || st.ExitOne? then
      (if !s.phase.Unlocked? && !s.phase.Closing? && s.phase.i < |s.nodes| then Round(s, st) else s)
    else Control(s, st)
  }

  // ---------------------------------------------------------------------------- invariant

  /** A reference granted to a caller that do_idlestate_exit has not returned to yet. */
  function InFlight(p: Phase, k: nat): nat { if p.Exiting? && p.granted && p.who == k then 1 else 0 }

  /** The count is the references held, in flight and leaked; IDLE means none, and a sleeping
      card is IDLE. */
  predicate NodeOk(n: Node, inFlight: nat)
  {
    n.everLost ||
    (&& (n.card.cnt == IDLE ==> n.holders == n.leaked == inFlight == 0)
     && (n.card.cnt != IDLE ==> n.card.cnt == n.holders + inFlight + n.leaked)
     && (n.card.Asleep() ==> n.card.cnt == IDLE) && !n.card.idle.Lost?)
  }

  predicate Quiet(n: Node) { n.everLost || n.card.cnt == IDLE }

  predicate NodesOk(s: State) { forall k :: 0 <= k < |s.nodes| ==> NodeOk(s.nodes[k], InFlight(s.phase, k)) }

  predicate AllQuiet(s: State, mask: set<nat>, i: nat)
  {
    forall k <- mask :: k < i && k < |s.nodes| ==> Quiet(s.nodes[k])
  }

  predicate AllAsleep(s: State, mask: set<nat>, i: nat)
  {
    forall k <- mask :: k < i && k < |s.nodes| ==> s.nodes[k].card.idle.PC3?
  }

  predicate NoneAsleep(s: State, mask: set<nat>, i: nat)
  {
    forall k <- mask :: k < i && k < |s.nodes| ==> !s.nodes[k].card.idle.PC3?
  }

  predicate PhaseOk(s: State)
  {
    var n := |s.nodes|;
    match s.phase
    case Unlocked => true
    case Disconnecting(_, mask, i) => i <= n && AllQuiet(s, mask, i)
    case Marking(_, mask, i) => i <= n && AllQuiet(s, mask, n) && AllAsleep(s, mask, i)
    case Reverting(_, mask, i) => i <= n && NoneAsleep(s, mask, i)
    case Closing(_, mask, result) =>
      && (result == Entered ==> AllQuiet(s, mask, n) && AllAsleep(s, mask, n))
      && (result == Reverted ==> NoneAsleep(s, mask, n))
    case Exiting(who, mask, i, ref, granted, err) =>
      && i <= n && who in mask && who < n && (granted ==> ref && who < i)
      && (ref && who < i && !s.nodes[who].everLost ==> granted)
  }

  predicate Inv(s: State) { NodesOk(s) && PhaseOk(s) }

  /** The step that loses the invariant: the PC6 exit of the card for which a reference was
      asked times out, and the reference is granted all the same. */
  predicate TimedOutGrant(s: State, st: Step)
  {
    && st == ExitOne(TimedOut) && s.phase.Exiting? && s.phase.i == s.phase.who < |s.nodes| && s.phase.ref
    && s.phase.who in s.phase.mask
    && s.nodes[s.phase.who].card.idle.PC6? && !s.nodes[s.phase.who].everLost
  }

  // ------------------------------------------------------------------- every step keeps it

  /** A change to one card that no loop under the mutex notices. */
  predicate Harmless(n: Node, n': Node, inFlight: nat)
  {
    && n'.everLost == n.everLost && (NodeOk(n, inFlight) ==> NodeOk(n', inFlight))
    && (NodeOk(n, inFlight) && Quiet(n) ==> Quiet(n')) && (n'.card.idle.PC3? <==> n.card.idle.PC3?)
  }

  lemma ClientHarmless(n: Node, st: Step, inFlight: nat)
    requires ByClient(st)
    ensures Harmless(n, Client(n, st), inFlight)
  {
  }

  lemma HarmlessKeeps(s: State, k: nat, n': Node)
    requires Inv(s) && k < |s.nodes| && Harmless(s.nodes[k], n', InFlight(s.phase, k))
    ensures Inv(Set(s, k, n', s.phase))
  {
    hide NodeOk, Quiet;
    assert NodeOk(s.nodes[k], InFlight(s.phase, k));
  }

  lemma NodesKept(s: State, k: nat, n': Node, p: Phase)
    requires NodesOk(s) && k < |s.nodes| && NodeOk(n', InFlight(p, k))
    requires forall j: nat :: j != k ==> InFlight(p, j) == InFlight(s.phase, j)
    ensures NodesOk(Set(s, k, n', p))
  {
    hide NodeOk, InFlight;
  }

  lemma PhaseKept(s: State, p: Phase)
    requires NodesOk(s) && forall j: nat :: InFlight(p, j) == InFlight(s.phase, j)
    ensures NodesOk(s.(phase := p))
  {
    hide NodeOk, InFlight;
  }

  lemma DisconnectKeeps(s: State, st: Step)
    requires Inv(s) && s.phase.Disconnecting? && s.phase.i < |s.nodes|
    ensures Inv(Round(s, st))
  {
    hide NodesOk;
    var i := s.phase.i;
    var n := s.nodes[i];
    var n' := With(n, Freeze(n.card));
    NodeIs(s, i);
    PhaseKept(s, Advance(s.phase));
    NodesKept(s, i, n', Advance(s.phase));
    NodesKept(s, i, n', Closing(s.phase.who, s.phase.mask, Refused));
  }

  lemma NodeIs(s: State, k: nat)
    requires NodesOk(s) && k < |s.nodes|
    ensures NodeOk(s.nodes[k], InFlight(s.phase, k))
  {
  }

  lemma MarkKeeps(s: State, st: Step)
    requires Inv(s) && s.phase.Marking? && s.phase.i < |s.nodes|
    ensures Inv(Round(s, st))
  {
    hide NodesOk;
    var i := s.phase.i;
    var n := s.nodes[i];
    NodeIs(s, i);
    PhaseKept(s, Advance(s.phase));
    PhaseKept(s, Reverting(s.phase.who, s.phase.mask, 0));
    if i in s.phase.mask && n.card.idle.PC3Ready? {
      assert Quiet(n);
      NodesKept(s, i, With(n, n.card.(idle := PC3)), Advance(s.phase));
    }
  }

  lemma RevertKeeps(s: State, st: Step)
    requires Inv(s) && s.phase.Reverting? && s.phase.i < |s.nodes|
    ensures Inv(Round(s, st))
  {
    hide NodesOk;
    var i := s.phase.i;
    var n := s.nodes[i];
    NodeIs(s, i);
    PhaseKept(s, Advance(s.phase));
    if st.RevertOne? { NodesKept(s, i, With(n, Revert(n.card, st.up)), Advance(s.phase)); }
  }

  /** What a wake-up does to a card whose references were in order. */
  lemma WakeKeeps(n: Node, w: Woke, ref: bool)
    requires NodeOk(n, 0) && !n.card.idle.Lost?
    ensures var n' := With(n, Wake(n.card, w, ref));
      NodeOk(n', if ref && !n'.card.idle.Lost? then 1 else 0)
      <==> !(ref && w.TimedOut? && n.card.idle.PC6? && !n.everLost)
  {
  }

  lemma ExitKeeps(s: State, st: Step)
    requires Inv(s) && s.phase.Exiting? && s.phase.i < |s.nodes|
    ensures Inv(Round(s, st)) <==> !TimedOutGrant(s, st)
  {
    hide NodeOk, Wake;
    var p := s.phase;
    var i := p.i;
    var n := s.nodes[i];
    assert NodeOk(n, InFlight(p, i));
    if st.ExitOne? && i in p.mask && !n.card.idle.Lost? {
      var ref := p.ref && i == p.who;
      WakeKeeps(n, st.w, ref);
      var n' := With(n, Wake(n.card, st.w, ref));
      var s' := Round(s, st);
      assert s'.nodes[i] == n';
      ExitRound(s, st, n');
    } else {
      ExitSkips(s, st);
    }
  }

  lemma ExitRound(s: State, st: Step, n': Node)
    requires Inv(s) && s.phase.Exiting? && s.phase.i < |s.nodes| && st.ExitOne?
    requires s.phase.i in s.phase.mask && !s.nodes[s.phase.i].card.idle.Lost?
    requires var i := s.phase.i; n' == With(s.nodes[i], Wake(s.nodes[i].card, st.w, s.phase.ref && i == s.phase.who))
    ensures Inv(Round(s, st)) <==>
      NodeOk(n', if s.phase.ref && s.phase.i == s.phase.who && !n'.card.idle.Lost? then 1 else 0)
  {
    hide NodeOk, Wake, WakeError;
    var s' := Round(s, st);
    var p, p', i := s.phase, s'.phase, s.phase.i;
    assert p'.granted == (p.granted || (p.ref && i == p.who && !n'.card.idle.Lost?));
    assert s'.nodes[i] == n';
    forall k | 0 <= k < |s.nodes| && k != i
      ensures NodeOk(s'.nodes[k], InFlight(p', k)) { assert NodeOk(s.nodes[k], InFlight(p, k)); }
  }

  lemma ExitSkips(s: State, st: Step)
    requires Inv(s) && s.phase.Exiting? && s.phase.i < |s.nodes|
    requires !st.ExitOne? || s.phase.i !in s.phase.mask || s.nodes[s.phase.i].card.idle.Lost?
    ensures Inv(Round(s, st)) && !TimedOutGrant(s, st)
  {
    hide NodesOk, Returned;
    ReturnedKeeps(s, true);
    PhaseKept(s, Advance(s.phase));
  }

  /** Leaving the mutex with no reference in flight. */
  lemma UnlockKeeps(s: State)
    requires NodesOk(s) && (s.phase.Exiting? ==> !s.phase.granted)
    ensures NodesOk(s.(phase := Unlocked))
  {
    hide NodeOk;
    forall k | 0 <= k < |s.nodes| ensures NodeOk(s.nodes[k], 0) { NodeIs(s, k); }
  }

  /** Waking a card by pm_pc3_exit, or letting a card in PC3 go down to PC6. */
  lemma MoveKeeps(s: State, k: nat, idle: IdleState)
    requires NodesOk(s) && k < |s.nodes| && !s.phase.Exiting?
    requires idle.PC0? || (idle.PC6? && s.nodes[k].card.idle.PC3?)
    ensures Inv(Set(s, k, With(s.nodes[k], s.nodes[k].card.(idle := idle)), Unlocked))
  {
    hide NodesOk;
    NodeIs(s, k);
    NodesKept(s, k, With(s.nodes[k], s.nodes[k].card.(idle := idle)), Unlocked);
  }

  /** The reference in flight goes to the caller, or is leaked. A successful exit of a card
      never lost has one in flight. */
  lemma ReturnedKeeps(s: State, err: bool)
    requires Inv(s) && s.phase.Exiting? && (err || s.phase.i == |s.nodes|)
    ensures Inv(Returned(s, err))
  {
    hide NodesOk;
    var k := s.phase.who;
    NodeIs(s, k);
    var n := s.nodes[k];
    if s.phase.ref && !err {
      NodesKept(s, k, n.(holders := n.holders + 1), Unlocked);
    } else if s.phase.granted {
      NodesKept(s, k, n.(leaked := n.leaked + 1), Unlocked);
    } else {
      UnlockKeeps(s);
    }
  }

  lemma ControlKeeps(s: State, st: Step)
    requires Inv(s)
    ensures Inv(Control(s, st))
  {
    hide NodesOk, InFlight, Returned;
    match s.phase
    case Unlocked => UnlockedKeeps(s, st);
    case Disconnecting(who, mask, i) =>
      NotInFlight(s, Closing(who, mask, Refused));
      NotInFlight(s, Marking(who, mask, 0));
    case Marking(who, mask, i) => NotInFlight(s, Closing(who, mask, Entered));
    case Reverting(who, mask, i) => NotInFlight(s, Closing(who, mask, Reverted));
    case Closing(who, mask, result) => UnlockKeeps(s); if who < |s.nodes| { MoveKeeps(s, who, PC0); }
    case Exiting(who, mask, i, ref, granted, err) => if i == |s.nodes| { ReturnedKeeps(s, err); }
  }

  lemma NotInFlight(s: State, p: Phase)
    requires NodesOk(s) && !s.phase.Exiting? && (p.Exiting? ==> !p.granted)
    ensures NodesOk(s.(phase := p))
  {
    hide NodesOk;
    PhaseKept(s, p);
  }

  lemma UnlockedKeeps(s: State, st: Step)
    requires Inv(s) && s.phase.Unlocked?
    ensures Inv(Control(s, st))
  {
    hide NodesOk, InFlight;
    match st
    case BeginEntry(k, mask) => NotInFlight(s, Disconnecting(k, mask, 0));
    case BeginExit(k, ref, mask) => NotInFlight(s, Exiting(k, mask, 0, ref, false, false));
    case SendWakeup(k, _) => if k < |s.nodes| { MoveKeeps(s, k, PC0); }
    case EnterPC6(k) => if k < |s.nodes| && s.nodes[k].card.idle.PC3? { MoveKeeps(s, k, PC6); }
    case _ =>
  }

  /** Every step of every thread keeps the invariant, but for the timed out grant. */
  lemma StepKeepsInv(s: State, st: Step)
    requires Inv(s)
    ensures Inv(Apply(s, st)) <==> !TimedOutGrant(s, st)
  {
    hide Inv, Client, Control, Round;
    if ByClient(st) {
      if st.k < |s.nodes| {
        ClientHarmless(s.nodes[st.k], st, InFlight(s.phase, st.k));
        HarmlessKeeps(s, st.k, Client(s.nodes[st.k], st));
      }
    } else if st.Disconnect? || st.Mark? || st.RevertOne? || st.ExitOne? {
      if !s.phase.Unlocked? && !s.phase.Closing? && s.phase.i < |s.nodes| { RoundKeeps(s, st); }
    } else {
      ControlKeeps(s, st);
    }
  }

  lemma RoundKeeps(s: State, st: Step)
    requires Inv(s) && !s.phase.Unlocked? && !s.phase.Closing? && s.phase.i < |s.nodes|
    ensures Inv(Round(s, st)) <==> !TimedOutGrant(s, st)
  {
    hide Inv, Round;
    match s.phase
    case Disconnecting(_, _, _) => DisconnectKeeps(s, st);
    case Marking(_, _, _) => MarkKeeps(s, st);
    case Reverting(_, _, _) => RevertKeeps(s, st);
    case Exiting(_, _, _, _, _, _) => ExitKeeps(s, st);
  }

  // --------------------------------------------------------------------------- whole runs

  /** Every card awake, with no reference, after start-up. */
  function Initial(n: nat): State { State(seq(n, _ => Node(Card(PC0, 0), 0, 0, false)), Unlocked) }

  function Exec(n: nat, steps: seq<Step>): State
  {
    if steps == [] then Initial(n) else Apply(Exec(n, steps[..|steps| - 1]), steps[|steps| - 1])
  }

  /** No PC6 exit that reported success left the card asked for in PC6. */
  predicate ExitsComplete(n: nat, steps: seq<Step>)
  {
    steps == [] ||
    (ExitsComplete(n, steps[..|steps| - 1]) && !TimedOutGrant(Exec(n, steps[..|steps| - 1]), steps[|steps| - 1]))
  }

  lemma {:induction false} RunKeepsInv(n: nat, steps: seq<Step>)
    requires ExitsComplete(n, steps)
    ensures Inv(Exec(n, steps))
  {
    hide Inv, Apply;
    if steps == [] {
      InitialOk(n);
    } else {
      RunKeepsInv(n, steps[..|steps| - 1]);
      StepKeepsInv(Exec(n, steps[..|steps| - 1]), steps[|steps| - 1]);
    }
  }

  lemma InitialOk(n: nat)
    ensures Inv(Initial(n))
  {
  }

  /** Over every interleaving: for a card never lost, a count that is not IDLE is the number of
      holders, of the reference in flight and of the leaked ones, an IDLE count means none of
      them, and a sleeping card has neither. */
  lemma NoHolderAsleep(n: nat, steps: seq<Step>, k: nat)
    requires ExitsComplete(n, steps) && k < |Exec(n, steps).nodes| && !Exec(n, steps).nodes[k].everLost
    ensures var x := Exec(n, steps).nodes[k];
      && (x.card.cnt == IDLE ==> x.holders == 0)
      && (x.card.cnt != IDLE ==> x.card.cnt == x.holders + InFlight(Exec(n, steps).phase, k) + x.leaked)
      && (x.card.Asleep() ==> x.card.cnt == IDLE && x.holders == 0)
  {
    hide Exec, ExitsComplete, NodesOk, PhaseOk;
    RunKeepsInv(n, steps);
    NodeIs(Exec(n, steps), k);
  }

  /** The step ends an exit that granted its reference with an error: a later card failed to
      wake, or a card of the mask was found lost. */
  predicate Leaks(s: State, st: Step)
  {
    && s.phase.Exiting? && s.phase.granted
    && (|| (st.EndExit? && s.phase.i == |s.nodes| && s.phase.err)
        || (st.ExitOne? && s.phase.i < |s.nodes| && s.phase.i in s.phase.mask && s.nodes[s.phase.i].card.idle.Lost?))
  }

  /** Only such a step leaks, and only the reference it granted. */
  lemma LeaksExactly(s: State, st: Step, k: nat)
    requires Inv(s) && k < |s.nodes|
    ensures |Apply(s, st).nodes| == |s.nodes|
    ensures Apply(s, st).nodes[k].leaked
      == s.nodes[k].leaked + if Leaks(s, st) && s.phase.who == k then 1 else 0
  {
    hide NodesOk;
  }

  /** The steps of a run that leaked a reference to card `k`. */
  function LeakCount(n: nat, steps: seq<Step>, k: nat): nat
  {
    if steps == [] then 0
    else
      var s := Exec(n, steps[..|steps| - 1]);
      LeakCount(n, steps[..|steps| - 1], k) + if Leaks(s, steps[|steps| - 1]) && s.phase.who == k then 1 else 0
  }

  /** Over every interleaving, the leaked references of a card are those steps. */
  lemma {:induction false} LeakedInRun(n: nat, steps: seq<Step>, k: nat)
    requires ExitsComplete(n, steps) && k < n
    ensures |Exec(n, steps).nodes| == n && Exec(n, steps).nodes[k].leaked == LeakCount(n, steps, k)
  {
    hide Inv, Apply, Leaks;
    if steps != [] {
      RunKeepsInv(n, steps[..|steps| - 1]);
      LeakedInRun(n, steps[..|steps| - 1], k);
      LeaksExactly(Exec(n, steps[..|steps| - 1]), steps[|steps| - 1], k);
    }
  }

  /** The wake-up of a card that is not at PC0 fails: for PC6 only by an error, for PC3 also by a
      time-out. */
  predicate WakeFails(idle: IdleState, w: Woke)
  {
    (idle.PC6? && w.Failed?) || ((idle.PC3? || idle.PC3Ready?) && !w.Up?)
  }

  /** The step loses card `k`: it is in PC3 and cannot be brought back when an entry reverts, or its
      wake-up in an exit fails. */
  predicate Loses(s: State, st: Step, k: nat)
    requires k < |s.nodes|
  {
    var idle := s.nodes[k].card.idle;
    && (s.phase.Reverting? || s.phase.Exiting?) && s.phase.i == k && k in s.phase.mask
    && (|| (s.phase.Reverting? && st == RevertOne(false) && idle.PC3?)
        || (s.phase.Exiting? && st.ExitOne? && WakeFails(idle, st.w)))
  }

  /** A card becomes lost by exactly such a step, and then its count is 0. */
  lemma LostExactly(s: State, st: Step, k: nat)
    requires k < |s.nodes| && !s.nodes[k].card.idle.Lost?
    ensures |Apply(s, st).nodes| == |s.nodes|
    ensures Apply(s, st).nodes[k].card.idle.Lost? <==> Loses(s, st, k)
    ensures Loses(s, st, k) ==> Apply(s, st).nodes[k].card == Card(Lost, 0)
  {
  }

  /** Once lost, a card counts as such. */
  lemma EverLostStep(s: State, st: Step, k: nat)
    requires k < |s.nodes| && (s.nodes[k].card.idle.Lost? ==> s.nodes[k].everLost)
    ensures |Apply(s, st).nodes| == |s.nodes|
    ensures Apply(s, st).nodes[k].everLost <==> s.nodes[k].everLost || Apply(s, st).nodes[k].card.idle.Lost?
  {
  }

  /** Some step of the run lost card `k`. */
  predicate LostBySome(n: nat, steps: seq<Step>, k: nat)
  {
    steps != [] &&
    (|| LostBySome(n, steps[..|steps| - 1], k)
     || (k < |Exec(n, steps[..|steps| - 1]).nodes| && Loses(Exec(n, steps[..|steps| - 1]), steps[|steps| - 1], k)))
  }

  /** Over every run the cards once lost are those that some step lost. */
  lemma {:induction false} LostInRun(n: nat, steps: seq<Step>, k: nat)
    requires k < n
    ensures |Exec(n, steps).nodes| == n
    ensures Exec(n, steps).nodes[k].card.idle.Lost? ==> Exec(n, steps).nodes[k].everLost
    ensures Exec(n, steps).nodes[k].everLost <==> LostBySome(n, steps, k)
  {
    hide Apply, Loses;
    if steps != [] {
      var front, st := steps[..|steps| - 1], steps[|steps| - 1];
      LostInRun(n, front, k);
      var s := Exec(n, front);
      EverLostStep(s, st, k);
      if !s.nodes[k].card.idle.Lost? { LostExactly(s, st, k); }
    }
  }

  /** The transaction: when it reports success every card of the mask is in PC3, with an IDLE
      count unless it was once lost; when it reverts no card of the mask is left in PC3. */
  lemma EntryIsTransaction(n: nat, steps: seq<Step>, k: nat)
    requires ExitsComplete(n, steps) && Exec(n, steps).phase.Closing? && k in Exec(n, steps).phase.mask
    requires k < |Exec(n, steps).nodes|
    ensures var s := Exec(n, steps); var x := s.nodes[k];
      && (s.phase.result == Entered ==> x.card.idle == PC3 && (x.everLost || (x.card.cnt == IDLE && x.holders == 0)))
      && (s.phase.result == Reverted ==> x.card.idle != PC3)
  {
    hide Exec, ExitsComplete, NodesOk;
    RunKeepsInv(n, steps);
    NodeIs(Exec(n, steps), k);
  }
}
