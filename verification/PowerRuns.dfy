/** Runs of the power protocol that show what its exceptions lead to: a holder of a sleeping
    card after a timed out PC6 exit (host/pm_pcstate.c:496-499), and a reference that nobody
    holds after an exit that failed later on, and a reference to a lost card. */
module PowerRuns {
  import opened NodeGraph
  import opened PowerProtocol

  /** The run `steps` with one more step. */
  lemma Then(n: nat, steps: seq<Step>, st: Step) returns (more: seq<Step>)
    ensures Exec(n, more) == Apply(Exec(n, steps), st)
  {
    more := steps + [st];
    assert more[..|more| - 1] == steps;
  }

  function One(idle: IdleState, cnt: int, holders: nat, p: Phase): State
  {
    State([Node(Card(idle, cnt), holders, 0, false)], p)
  }

  lemma StartOne()
    ensures Exec(1, []) == One(PC0, 0, 0, Unlocked)
  {
    assert Initial(1).nodes == [Node(Card(PC0, 0), 0, 0, false)];
  }

  lemma GoingDown()
    ensures Apply(One(PC0, 0, 0, Unlocked), SetReady(0)) == One(PC3Ready, 0, 0, Unlocked)
    ensures Apply(One(PC3Ready, 0, 0, Unlocked), BeginEntry(0, {0})) == One(PC3Ready, 0, 0, Disconnecting(0, {0}, 0))
    ensures Apply(One(PC3Ready, 0, 0, Disconnecting(0, {0}, 0)), Disconnect(false))
      == One(PC3Ready, IDLE, 0, Disconnecting(0, {0}, 1))
    ensures Apply(One(PC3Ready, IDLE, 0, Disconnecting(0, {0}, 1)), BeginMarking)
      == One(PC3Ready, IDLE, 0, Marking(0, {0}, 0))
  {
  }

  lemma FallsAsleep()
    ensures Apply(One(PC3Ready, IDLE, 0, Marking(0, {0}, 0)), Mark) == One(PC3, IDLE, 0, Marking(0, {0}, 1))
    ensures Apply(One(PC3, IDLE, 0, Marking(0, {0}, 1)), EndMarking) == One(PC3, IDLE, 0, Closing(0, {0}, Entered))
    ensures Apply(One(PC3, IDLE, 0, Closing(0, {0}, Entered)), EndEntry(true)) == One(PC3, IDLE, 0, Unlocked)
    ensures Apply(One(PC3, IDLE, 0, Unlocked), EnterPC6(0)) == One(PC6, IDLE, 0, Unlocked)
  {
  }

  lemma NotWoken()
    ensures Apply(One(PC6, IDLE, 0, Unlocked), BeginExit(0, true, {0}))
      == One(PC6, IDLE, 0, Exiting(0, {0}, 0, true, false, false))
    ensures Apply(One(PC6, IDLE, 0, Exiting(0, {0}, 0, true, false, false)), ExitOne(TimedOut))
      == One(PC6, 1, 0, Exiting(0, {0}, 1, true, true, false))
    ensures Apply(One(PC6, 1, 0, Exiting(0, {0}, 1, true, true, false)), EndExit) == One(PC6, 1, 1, Unlocked)
  {
  }

  /** A run that ends with a caller holding a reference to a card in PC6. */
  lemma HolderOfSleepingCard()
    ensures exists steps :: Exec(1, steps) == One(PC6, 1, 1, Unlocked)
  {
    hide Exec, Apply;
    StartOne();
    GoingDown();
    FallsAsleep();
    NotWoken();
    var r := Then(1, [], SetReady(0));
    r := Then(1, r, BeginEntry(0, {0}));
    r := Then(1, r, Disconnect(false));
    r := Then(1, r, BeginMarking);
    r := Then(1, r, Mark);
    r := Then(1, r, EndMarking);
    r := Then(1, r, EndEntry(true));
    r := Then(1, r, EnterPC6(0));
    r := Then(1, r, BeginExit(0, true, {0}));
    r := Then(1, r, ExitOne(TimedOut));
    r := Then(1, r, EndExit);
  }

  // --------------------------------------------------------------- a leaked reference

  /** Two cards, the second never referenced. */
  function Two(a: Node, b: Card, p: Phase): State { State([a, Node(b, 0, 0, b.idle.Lost?)], p) }

  function Idle(idle: IdleState, cnt: int): Node { Node(Card(idle, cnt), 0, 0, false) }

  lemma StartTwo()
    ensures Exec(2, []) == Two(Idle(PC0, 0), Card(PC0, 0), Unlocked)
  {
    assert Initial(2).nodes == [Idle(PC0, 0), Idle(PC0, 0)];
  }

  lemma BothReady()
    ensures Apply(Two(Idle(PC0, 0), Card(PC0, 0), Unlocked), SetReady(0))
      == Two(Idle(PC3Ready, 0), Card(PC0, 0), Unlocked)
    ensures Apply(Two(Idle(PC3Ready, 0), Card(PC0, 0), Unlocked), SetReady(1))
      == Two(Idle(PC3Ready, 0), Card(PC3Ready, 0), Unlocked)
    ensures Apply(Two(Idle(PC3Ready, 0), Card(PC3Ready, 0), Unlocked), BeginEntry(0, {0, 1}))
      == Two(Idle(PC3Ready, 0), Card(PC3Ready, 0), Disconnecting(0, {0, 1}, 0))
  {
  }

  lemma BothFrozen()
    ensures Apply(Two(Idle(PC3Ready, 0), Card(PC3Ready, 0), Disconnecting(0, {0, 1}, 0)), Disconnect(false))
      == Two(Idle(PC3Ready, IDLE), Card(PC3Ready, 0), Disconnecting(0, {0, 1}, 1))
    ensures Apply(Two(Idle(PC3Ready, IDLE), Card(PC3Ready, 0), Disconnecting(0, {0, 1}, 1)), Disconnect(false))
      == Two(Idle(PC3Ready, IDLE), Card(PC3Ready, IDLE), Disconnecting(0, {0, 1}, 2))
    ensures Apply(Two(Idle(PC3Ready, IDLE), Card(PC3Ready, IDLE), Disconnecting(0, {0, 1}, 2)), BeginMarking)
      == Two(Idle(PC3Ready, IDLE), Card(PC3Ready, IDLE), Marking(0, {0, 1}, 0))
  {
  }

  lemma BothAsleep()
    ensures Apply(Two(Idle(PC3Ready, IDLE), Card(PC3Ready, IDLE), Marking(0, {0, 1}, 0)), Mark)
      == Two(Idle(PC3, IDLE), Card(PC3Ready, IDLE), Marking(0, {0, 1}, 1))
    ensures Apply(Two(Idle(PC3, IDLE), Card(PC3Ready, IDLE), Marking(0, {0, 1}, 1)), Mark)
      == Two(Idle(PC3, IDLE), Card(PC3, IDLE), Marking(0, {0, 1}, 2))
    ensures Apply(Two(Idle(PC3, IDLE), Card(PC3, IDLE), Marking(0, {0, 1}, 2)), EndMarking)
      == Two(Idle(PC3, IDLE), Card(PC3, IDLE), Closing(0, {0, 1}, Entered))
    ensures Apply(Two(Idle(PC3, IDLE), Card(PC3, IDLE), Closing(0, {0, 1}, Entered)), EndEntry(true))
      == Two(Idle(PC3, IDLE), Card(PC3, IDLE), Unlocked)
  {
  }

  /** Card 0 wakes and its reference is granted; card 1 does not wake and the exit fails. */
  lemma SecondFails()
    ensures Apply(Two(Idle(PC3, IDLE), Card(PC3, IDLE), Unlocked), BeginExit(0, true, {0, 1}))
      == Two(Idle(PC3, IDLE), Card(PC3, IDLE), Exiting(0, {0, 1}, 0, true, false, false))
    ensures Apply(Two(Idle(PC3, IDLE), Card(PC3, IDLE), Exiting(0, {0, 1}, 0, true, false, false)), ExitOne(Up))
      == Two(Idle(PC0, 1), Card(PC3, IDLE), Exiting(0, {0, 1}, 1, true, true, false))
    ensures Apply(Two(Idle(PC0, 1), Card(PC3, IDLE), Exiting(0, {0, 1}, 1, true, true, false)), ExitOne(Failed))
      == Two(Idle(PC0, 1), LOST, Exiting(0, {0, 1}, 2, true, true, true))
    ensures Apply(Two(Idle(PC0, 1), LOST, Exiting(0, {0, 1}, 2, true, true, true)), EndExit)
      == Two(Node(Card(PC0, 1), 0, 1, false), LOST, Unlocked)
  {
  }

  /** A run that puts both cards to sleep. */
  lemma AllAsleep() returns (r: seq<Step>)
    ensures Exec(2, r) == Two(Idle(PC3, IDLE), Card(PC3, IDLE), Unlocked)
  {
    hide Exec, Apply;
    StartTwo();
    BothReady();
    BothFrozen();
    BothAsleep();
    r := Then(2, [], SetReady(0));
    r := Then(2, r, SetReady(1));
    r := Then(2, r, BeginEntry(0, {0, 1}));
    r := Then(2, r, Disconnect(false));
    r := Then(2, r, Disconnect(false));
    r := Then(2, r, BeginMarking);
    r := Then(2, r, Mark);
    r := Then(2, r, Mark);
    r := Then(2, r, EndMarking);
    r := Then(2, r, EndEntry(true));
  }

  /** A run that ends with a count of 1 that nobody holds: the card can never be idle again. */
  lemma LeakedReference()
    ensures exists steps :: Exec(2, steps) == Two(Node(Card(PC0, 1), 0, 1, false), LOST, Unlocked)
  {
    hide Exec, Apply;
    var r := AllAsleep();
    SecondFails();
    r := Then(2, r, BeginExit(0, true, {0, 1}));
    r := Then(2, r, ExitOne(Up));
    r := Then(2, r, ExitOne(Failed));
    r := Then(2, r, EndExit);
  }

  // ------------------------------------------------------------- a reference to a lost card

  /** Card 0, asked for, does not wake; card 1 does and the exit reports success. */
  lemma FirstLost()
    ensures Apply(Two(Idle(PC3, IDLE), Card(PC3, IDLE), Exiting(0, {0, 1}, 0, true, false, false)), ExitOne(Failed))
      == Two(Node(LOST, 0, 0, true), Card(PC3, IDLE), Exiting(0, {0, 1}, 1, true, false, true))
    ensures Apply(Two(Node(LOST, 0, 0, true), Card(PC3, IDLE), Exiting(0, {0, 1}, 1, true, false, true)), ExitOne(Up))
      == Two(Node(LOST, 0, 0, true), Card(PC0, IDLE), Exiting(0, {0, 1}, 2, true, false, false))
    ensures Apply(Two(Node(LOST, 0, 0, true), Card(PC0, IDLE), Exiting(0, {0, 1}, 2, true, false, false)), EndExit)
      == Two(Node(LOST, 1, 0, true), Card(PC0, IDLE), Unlocked)
  {
  }

  /** A run that ends with a caller told it holds a card that was lost, with a count of 0. */
  lemma HolderOfLostCard()
    ensures exists steps :: Exec(2, steps) == Two(Node(LOST, 1, 0, true), Card(PC0, IDLE), Unlocked)
  {
    hide Exec, Apply;
    var r := AllAsleep();
    SecondFails();
    FirstLost();
    r := Then(2, r, BeginExit(0, true, {0, 1}));
    r := Then(2, r, ExitOne(Failed));
    r := Then(2, r, ExitOne(Up));
    r := Then(2, r, EndExit);
  }
}
