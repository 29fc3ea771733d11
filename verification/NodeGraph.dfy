/** The searches over the dependency matrix of the SCIF nodes (micscif/micscif_nm.c) with an
    explicit stack, against least closed sets. */
module NodeGraph {
  import opened Bits
  import opened Errors
  import opened NodeMask

  datatype Dependency = NotDependent | Dependent | DisconnectReady | Disconnected

  datatype IdleState = PC0 | PC3Ready | PC3 | PC6 | Lost

  // ----------------------------------------------------------------- least closed sets

  /** `g[u]` is the set of nodes that node `u` brings in. */
  type Graph = seq<set<nat>>

  predicate Within(g: Graph) { forall u, v :: 0 <= u < |g| && v in g[u] ==> v < |g| }

  predicate Closed(g: Graph, t: set<nat>) { forall u <- t :: u < |g| ==> g[u] <= t }

  ghost predicate Least(g: Graph, start: nat, s: set<nat>)
  {
    start in s && Closed(g, s) && forall t :: start in t && Closed(g, t) ==> s <= t
  }

  lemma LeastIsUnique(g: Graph, start: nat, s: set<nat>, t: set<nat>)
    requires Least(g, start, s) && Least(g, start, t)
    ensures s == t
  {
    assert s <= t && t <= s;
  }

  /** Members of the least closed set other than the start have a predecessor in it. */
  lemma LeastHasReasons(g: Graph, start: nat, s: set<nat>, v: nat)
    requires Least(g, start, s) && v in s && v != start
    ensures exists u :: u in s && u < |g| && v in g[u]
  {
    var t := s - {v};
    assert v in s && v !in t;
    assert Closed(g, t) ==> s <= t;
    var u :| u in t && u < |g| && !(g[u] <= t);
    assert g[u] <= s;
    assert v in g[u];
  }

  // -------------------------------------------------------------------- search invariant

  function OnStack(stack: seq<nat>): set<nat> { set i | 0 <= i < |stack| :: stack[i] }

  function Reached(stack: seq<nat>, done: set<nat>): set<nat> { done + OnStack(stack) }

  predicate Separate(g: Graph, stack: seq<nat>, done: set<nat>)
  {
    && (forall v <- Reached(stack, done) :: v < |g|)
    && (forall i :: 0 <= i < |stack| ==> stack[i] !in done)
    && (forall i, j :: 0 <= i < j < |stack| ==> stack[i] != stack[j])
  }

  /** Everything reached must be in the closure. */
  ghost predicate Needed(g: Graph, start: nat, reached: set<nat>)
  {
    start in reached && forall t :: start in t && Closed(g, t) ==> reached <= t
  }

  /** Successors of popped nodes are reached, except those of `u` from `i` on. */
  predicate Explored(g: Graph, reached: set<nat>, done: set<nat>, u: nat, i: nat)
  {
    forall w <- done :: w < |g| ==> forall v <- g[w] :: v in reached || (w == u && i <= v)
  }

  /** What `visited` says: reached, or of no interest to anyone. */
  predicate Marks(g: Graph, vis: seq<bool>, reached: set<nat>)
  {
    && |vis| == |g| && (forall v <- reached :: v < |g| ==> vis[v])
    && forall v :: 0 <= v < |g| && vis[v] ==> v in reached || forall u :: 0 <= u < |g| ==> v !in g[u]
  }

  ghost predicate Inv(g: Graph, start: nat, vis: seq<bool>, stack: seq<nat>, done: set<nat>, u: nat, i: nat)
  {
    var r := Reached(stack, done);
    Within(g) && Separate(g, stack, done) && Needed(g, start, r) && Explored(g, r, done, u, i) && Marks(g, vis, r)
  }

  lemma StartSearch(g: Graph, start: nat, vis: seq<bool>)
    requires Within(g) && start < |g| == |vis| && vis[start]
    requires forall v :: 0 <= v < |g| && vis[v] && v != start ==> forall u :: 0 <= u < |g| ==> v !in g[u]
    ensures Inv(g, start, vis, [start], {}, 0, |g|)
  {
    var one := [start];
    assert one[0] in OnStack(one);
    assert Reached([start], {}) == {start};
  }

  /** Popping a node moves it to the popped ones, its successors still to be looked at. */
  lemma PopKeeps(g: Graph, start: nat, vis: seq<bool>, stack: seq<nat>, done: set<nat>, u0: nat)
    requires Inv(g, start, vis, stack, done, u0, |g|) && stack != []
    ensures var u := stack[0];
      u < |g| && u !in done && Inv(g, start, vis, stack[1..], done + {u}, u, 0)
      && Reached(stack[1..], done + {u}) == Reached(stack, done)
  {
    var u := stack[0];
    SameReached(stack, done);
    hide Needed, Reached, OnStack;
    assert u in Reached(stack, done);
  }

  lemma SameReached(stack: seq<nat>, done: set<nat>)
    requires stack != []
    ensures Reached(stack[1..], done + {stack[0]}) == Reached(stack, done) && stack[0] in Reached(stack, done)
  {
    var r := Reached(stack[1..], done + {stack[0]});
    forall i | 0 <= i < |stack| ensures stack[i] in r {
      if i > 0 { assert stack[i] == stack[1..][i - 1]; }
    }
  }

  lemma PushedReached(stack: seq<nat>, done: set<nat>, v: nat)
    ensures Reached([v] + stack, done) == Reached(stack, done) + {v}
  {
    var s := [v] + stack;
    assert forall i :: 0 <= i < |stack| ==> s[i + 1] == stack[i];
    assert s[0] == v;
  }

  /** Pushing an unvisited successor of the node being expanded. */
  lemma PushKeeps(g: Graph, start: nat, vis: seq<bool>, stack: seq<nat>, done: set<nat>, u: nat, i: nat)
    requires Inv(g, start, vis, stack, done, u, i) && u in done && u < |g| && i in g[u] && i < |g| && !vis[i]
    ensures Inv(g, start, vis[i := true], [i] + stack, done, u, i + 1)
  {
    PushedReached(stack, done, i);
    PushSeparate(g, start, vis, stack, done, u, i);
    hide Reached, OnStack, Separate;
    var r := Reached(stack, done);
    forall t | start in t && Closed(g, t) ensures r + {i} <= t { assert r <= t; }
  }

  lemma PushSeparate(g: Graph, start: nat, vis: seq<bool>, stack: seq<nat>, done: set<nat>, u: nat, i: nat)
    requires Inv(g, start, vis, stack, done, u, i) && i < |g| && !vis[i]
    ensures Separate(g, [i] + stack, done)
    ensures u in done ==> u in Reached(stack, done)
  {
    PushedReached(stack, done, i);
    assert i !in Reached(stack, done);
    assert forall k :: 0 <= k < |stack| ==> stack[k] in Reached(stack, done);
  }

  /** Node `i` is no successor to push: visited already, or not one. */
  lemma SkipKeeps(g: Graph, start: nat, vis: seq<bool>, stack: seq<nat>, done: set<nat>, u: nat, i: nat)
    requires Inv(g, start, vis, stack, done, u, i) && i < |g| && u < |g| && (vis[i] || i !in g[u])
    ensures Inv(g, start, vis, stack, done, u, i + 1)
  {
    hide Reached, Separate, Needed, Within;
  }

  /** Marking a node that nobody brings in. */
  lemma MarkKeeps(g: Graph, start: nat, vis: seq<bool>, stack: seq<nat>, done: set<nat>, u: nat, i: nat)
    requires Inv(g, start, vis, stack, done, u, i) && i < |g| && forall w :: 0 <= w < |g| ==> i !in g[w]
    ensures Inv(g, start, vis[i := true], stack, done, u, i)
  {
    hide Reached, Separate, Needed, Within, Explored;
  }

  /** An empty stack: what was popped is the least closed set. */
  lemma Finished(g: Graph, start: nat, vis: seq<bool>, done: set<nat>, u: nat)
    requires Inv(g, start, vis, [], done, u, |g|)
    ensures Least(g, start, done)
  {
    assert Reached([], done) == done;
  }

  lemma {:induction false} SizeBound(s: set<nat>, n: nat)
    requires forall v <- s :: v < n
    ensures |s| <= n
  {
    if n > 0 {
      SizeBound(s - {n - 1}, n - 1);
    } else {
      assert s == {};
    }
  }

  // -------------------------------------------------------------------- activation set

  predicate Square(dep: seq<seq<Dependency>>) { forall u :: 0 <= u < |dep| ==> |dep[u]| == |dep| }

  predicate Asleep(idle: seq<IdleState>, v: nat)
    requires v <= |idle|
  {
    v != 0 && (idle[v - 1].PC3? || idle[v - 1].PC6?)
  }

  /** Node `u` brings in the sleeping cards it depends on and is disconnected from. */
  ghost function ActiveGraph(dep: seq<seq<Dependency>>, idle: seq<IdleState>): (g: Graph)
    requires Square(dep) && |dep| <= |idle| + 1
    ensures |g| == |dep| && Within(g)
  {
    seq(|dep|, u requires 0 <= u < |dep| => set v | 0 <= v < |dep| && dep[u][v].Disconnected? && Asleep(idle, v))
  }

  /** micscif_get_activeset. */
  method GetActiveSet(present: bool, dep: seq<seq<Dependency>>, idle: seq<IdleState>, start: nat, mask: array<byte>)
    returns (status: int, ghost closure: set<nat>)
    requires Square(dep) && |dep| <= |idle| + 1 && start < |dep| <= 8 * mask.Length
    modifies mask
    ensures !present ==> status == -EINVAL && mask[..] == old(mask[..])
    ensures present ==> status == 0 && Least(ActiveGraph(dep, idle), start, closure)
    ensures present ==> Gains(old(mask[..]), mask[..], closure)
    ensures present ==> start in closure && forall u <- closure :: u < |dep|
    ensures present ==> forall u <- closure, v: nat :: 0 < v < |dep| && dep[u][v] == Disconnected ==>
      (v in closure <==> v == start || idle[v - 1] == PC3 || idle[v - 1] == PC6)
    ensures present ==> forall v <- closure :: v != start ==>
      v > 0 && (idle[v - 1] == PC3 || idle[v - 1] == PC6) && LeftBySome(dep, closure, v)
  {
    hide Inv, ActiveGraph, Square, Within, Gains, LeftBySome;
    closure := {};
    if !present {
      return -EINVAL, {};
    }
    ghost var g, was := ActiveGraph(dep, idle), mask[..];
    var stack := [start];
    var visited := seq(|dep|, _ => false)[start := true];
    StartSearch(g, start, visited);
    NothingGained(was);
    ghost var u: nat := 0;
    while stack != []
      invariant Inv(g, start, visited, stack, closure, u, |g|) && |visited| == |g| == |dep|
      invariant Gains(was, mask[..], closure)
      decreases |g| - |closure|
    {
      PopKeeps(g, start, visited, stack, closure, u);
      var node := stack[0];
      stack, u := stack[1..], node;
      ghost var before := mask[..];
      SetNodemaskBit(mask, node, true);
      MoreGained(was, before, mask[..], closure, node);
      closure := closure + {node};
      visited, stack := ExpandActive(dep, idle, start, node, visited, stack, closure);
      DoneBound(g, start, visited, stack, closure, u, |g|);
    }
    Finished(g, start, visited, closure, u);
    ActiveMeans(dep, idle, start, closure);
    status := 0;
  }

  /** Some node of `s` is disconnected from node `v`. */
  ghost predicate LeftBySome(dep: seq<seq<Dependency>>, s: set<nat>, v: nat)
    requires Square(dep)
  {
    exists u <- s :: u < |dep| && v < |dep| && dep[u][v] == Disconnected
  }

  /** The least closed set, on the matrix: the start and the sleeping cards that some member is
      disconnected from. */
  lemma ActiveMeans(dep: seq<seq<Dependency>>, idle: seq<IdleState>, start: nat, s: set<nat>)
    requires Square(dep) && |dep| <= |idle| + 1 && start < |dep| && Least(ActiveGraph(dep, idle), start, s)
    ensures start in s && forall u <- s :: u < |dep|
    ensures forall u <- s, v: nat :: 0 < v < |dep| && dep[u][v] == Disconnected ==>
      (v in s <==> v == start || idle[v - 1] == PC3 || idle[v - 1] == PC6)
    ensures forall v <- s :: v != start ==>
      v > 0 && (idle[v - 1] == PC3 || idle[v - 1] == PC6) && LeftBySome(dep, s, v)
  {
    hide ActiveGraph, Least, LeftBySome;
    forall v <- s | v != start
      ensures 0 < v < |dep| && (idle[v - 1] == PC3 || idle[v - 1] == PC6) && LeftBySome(dep, s, v)
    {
      ActiveReason(dep, idle, start, s, v);
    }
    LeastIs(ActiveGraph(dep, idle), start, s);
    forall u <- s, v: nat | 0 < v < |dep| && dep[u][v] == Disconnected && (idle[v - 1] == PC3 || idle[v - 1] == PC6)
      ensures v in s
    {
      InActiveGraph(dep, idle, u, v);
    }
  }

  lemma ActiveReason(dep: seq<seq<Dependency>>, idle: seq<IdleState>, start: nat, s: set<nat>, v: nat)
    requires Square(dep) && |dep| <= |idle| + 1 && Least(ActiveGraph(dep, idle), start, s) && v in s && v != start
    ensures 0 < v < |dep| && (idle[v - 1] == PC3 || idle[v - 1] == PC6) && LeftBySome(dep, s, v)
  {
    hide ActiveGraph, Least;
    LeastHasReasons(ActiveGraph(dep, idle), start, s, v);
    var u :| u in s && u < |dep| && v in ActiveGraph(dep, idle)[u];
    InActiveGraph(dep, idle, u, v);
  }

  lemma LeastIs(g: Graph, start: nat, s: set<nat>)
    requires Least(g, start, s)
    ensures start in s && forall u <- s, v: nat :: u < |g| && v in g[u] ==> v in s
  {
  }

  lemma InActiveGraph(dep: seq<seq<Dependency>>, idle: seq<IdleState>, u: nat, v: nat)
    requires Square(dep) && |dep| <= |idle| + 1 && u < |dep| && v < |dep|
    ensures v in ActiveGraph(dep, idle)[u] <==> dep[u][v].Disconnected? && Asleep(idle, v)
  {
  }

  /** The inner loop of micscif_get_activeset. */
  method ExpandActive(dep: seq<seq<Dependency>>, idle: seq<IdleState>, ghost start: nat, node: nat,
                      vis: seq<bool>, st: seq<nat>, ghost done: set<nat>)
    returns (visited: seq<bool>, stack: seq<nat>)
    requires Square(dep) && |dep| <= |idle| + 1 && node < |dep| && node in done && |vis| == |dep|
    requires Inv(ActiveGraph(dep, idle), start, vis, st, done, node, 0)
    ensures |visited| == |dep| && Inv(ActiveGraph(dep, idle), start, visited, stack, done, node, |dep|)
  {
    hide Inv, ActiveGraph, Within, Asleep, Square;
    ghost var g := ActiveGraph(dep, idle);
    visited, stack := vis, st;
    for i := 0 to |dep|
      invariant |visited| == |dep| && Inv(g, start, visited, stack, done, node, i)
    {
      assert |dep[node]| == |dep| by { RowLength(dep, node); }
      InActiveGraph(dep, idle, node, i);
      if !visited[i] && dep[node][i] == Disconnected {
        NeverActive(dep, idle, i);
        if i != 0 && (idle[i - 1] == PC3 || idle[i - 1] == PC6) {
          AsleepIs(idle, i);
          PushKeeps(g, start, visited, stack, done, node, i);
          visited, stack := visited[i := true], [i] + stack;
        } else {
          AsleepIs(idle, i);
          MarkKeeps(g, start, visited, stack, done, node, i);
          visited := visited[i := true];
          SkipKeeps(g, start, visited, stack, done, node, i);
        }
      } else {
        SkipKeeps(g, start, visited, stack, done, node, i);
      }
    }
  }

  lemma RowLength(dep: seq<seq<Dependency>>, u: nat)
    requires Square(dep) && u < |dep|
    ensures |dep[u]| == |dep|
  {
  }

  lemma AsleepIs(idle: seq<IdleState>, i: nat)
    requires i <= |idle|
    ensures Asleep(idle, i) <==> i != 0 && (idle[i - 1] == PC3 || idle[i - 1] == PC6)
  {
  }

  lemma NeverActive(dep: seq<seq<Dependency>>, idle: seq<IdleState>, v: nat)
    requires Square(dep) && |dep| <= |idle| + 1 && v < |dep|
    ensures !Asleep(idle, v) ==> forall u :: 0 <= u < |dep| ==> v !in ActiveGraph(dep, idle)[u]
  {
    hide Asleep;
    if !Asleep(idle, v) {
      forall u | 0 <= u < |dep| ensures v !in ActiveGraph(dep, idle)[u] { InActiveGraph(dep, idle, u, v); }
    }
  }

  lemma NothingGained(mask: seq<byte>)
    ensures Gains(mask, mask, {})
  {
    hide InMask;
  }

  lemma MoreGained(was: seq<byte>, before: seq<byte>, after: seq<byte>, s: set<nat>, v: nat)
    requires Gains(was, before, s) && |after| == |before|
    requires forall u :: 0 <= u < 8 * |after| ==> (InMask(after, u) <==> if u == v then true else InMask(before, u))
    ensures Gains(was, after, s + {v})
  {
    hide InMask;
  }

  lemma DoneBound(g: Graph, start: nat, vis: seq<bool>, stack: seq<nat>, done: set<nat>, u: nat, i: nat)
    requires Inv(g, start, vis, stack, done, u, i)
    ensures |done| <= |g|
  {
    forall v <- done ensures v < |g| { assert v in Reached(stack, done); }
    SizeBound(done, |g|);
  }

  // ----------------------------------------------------------- minimal deactivation set

  /** Node `u` brings in the nodes ready to be disconnected that depend on it, but for those
      marked as visited beforehand. */
  ghost function ReadyGraph(dep: seq<seq<Dependency>>, vis: seq<bool>): (g: Graph)
    requires Square(dep) && |vis| == |dep|
    ensures |g| == |dep| && Within(g)
  {
    seq(|dep|, u requires 0 <= u < |dep| => set v | 0 <= v < |dep| && dep[v][u].DisconnectReady? && !vis[v])
  }

  lemma InReadyGraph(dep: seq<seq<Dependency>>, vis: seq<bool>, u: nat, v: nat)
    requires Square(dep) && |vis| == |dep| && u < |dep| && v < |dep|
    ensures v in ReadyGraph(dep, vis)[u] <==> dep[v][u].DisconnectReady? && !vis[v]
  {
  }

  /** Node `i` actively depends on `u` and stops the search if it is looked at unvisited. */
  predicate Blocks(dep: seq<seq<Dependency>>, vis: seq<bool>, i: nat, u: nat)
    requires Square(dep) && |vis| == |dep|
  {
    i < |dep| && u < |dep| && dep[i][u].Dependent? && !vis[i]
  }

  /** What a search from `source` may answer: it stops only for a node that blocks, and runs
      to the end only when every node that blocks was taken along. */
  ghost predicate Outcome(dep: seq<seq<Dependency>>, vis: seq<bool>, source: nat, aborted: bool, closure: set<nat>,
                          done: set<nat>)
    requires Square(dep) && |vis| == |dep|
  {
    && (aborted ==> done <= closure && exists i: nat, u :: u in done && i != source && Blocks(dep, vis, i, u))
    && (!aborted ==> done == closure && forall i: nat, u :: u in closure && Blocks(dep, vis, i, u) ==> i in closure)
  }

  /** `visited` holds the nodes marked beforehand and those of `s`. */
  predicate Visits(vis0: seq<bool>, vis: seq<bool>, s: set<nat>)
  {
    |vis| == |vis0| && forall v :: 0 <= v < |vis| ==> (vis[v] <==> vis0[v] || v in s)
  }

  /** micscif_get_minimal_deactiveset. `done` are the nodes popped, `pending` those left on
      the stack when the search stops. */
  method GetMinimalDeactiveSet(present: bool, dep: seq<seq<Dependency>>, source: nat, mask: array<byte>,
                               visited: array<bool>)
    returns (status: int, aborted: bool, ghost closure: set<nat>, ghost done: set<nat>, ghost pending: set<nat>)
    requires Square(dep) && source < |dep| == visited.Length && |dep| <= 8 * mask.Length
    modifies mask, visited
    ensures !present ==> status == -EINVAL && !aborted && mask[..] == old(mask[..]) && visited[..] == old(visited[..])
    ensures present ==> Least(ReadyGraph(dep, old(visited[..])), source, closure)
    ensures present ==> Outcome(dep, old(visited[..]), source, aborted, closure, done)
    ensures present ==> Gains(old(mask[..]), mask[..], done) && Visits(old(visited[..]), visited[..], done)
    ensures present ==> source in closure && forall u <- closure :: u < |dep|
    ensures present ==> forall u <- closure, v: nat :: v < |dep| && dep[v][u] == DisconnectReady ==>
      (v in closure <==> v == source || !old(visited[v]))
    ensures present ==> forall v <- closure :: v != source ==> ReadyToLeave(dep, closure, v)
    ensures present ==> done <= closure && (!aborted ==> done == closure)
    ensures present && aborted ==>
      exists i: nat, u <- done :: i < |dep| && i != source && dep[i][u] == Dependent && !old(visited[i])
    ensures present && !aborted ==> forall i: nat, u <- done ::
      i < |dep| && dep[i][u] == Dependent && !old(visited[i]) ==> i in done
    ensures present && aborted ==>
      exists last: nat, at: nat :: StoppedAt(dep, old(visited[..]), closure, done, pending, last, at)
    ensures present ==> status == if aborted && pending == {} then -EOPNOTSUPP else 0
    ensures present && SourceBlocked(dep, old(visited[..]), source) ==>
      aborted && done == {source} && (status == 0 <==> ReadyFirst(dep, old(visited[..]), source))
    ensures present && aborted && NoneReady(dep, old(visited[..]), source) ==> status == -EOPNOTSUPP
  {
    hide Searching, ReadyGraph, Square, Gains, Visits, Outcome, Least, StoppedAt, OnStack, Expanded;
    hide SourceBlocked, ReadyFirst, NoneReady, ReadyToLeave;
    status, aborted, closure, done, pending := 0, false, {}, {}, {};
    if !present {
      status := -EINVAL;
      return;
    }
    ghost var vis0, was := visited[..], mask[..];
    closure := ClosureExists(ReadyGraph(dep, vis0), source);
    ReadyMeans(dep, vis0, source, closure);
    var stack := [source];
    visited[source] := true;
    SearchStarts(dep, vis0, source, visited[..]);
    NothingGained(was);
    ghost var u: nat, at: nat := 0, |dep|;
    while stack != []
      invariant Searching(dep, vis0, source, visited[..], stack, done, u, |dep|)
      invariant (done == {} && stack == [source]) || source in done
      invariant done == {} ==> visited[..] == vis0[source := true]
      invariant done != {} ==> !SourceBlocked(dep, vis0, source)
      invariant done != {} && NoneReady(dep, vis0, source) ==> stack == []
      invariant Gains(was, mask[..], done)
      decreases |dep| - |done|
    {
      SearchPops(dep, vis0, source, visited[..], stack, done, u);
      var node := stack[0];
      ghost var first, before := done == {}, mask[..];
      stack, u := stack[1..], node;
      SetNodemaskBit(mask, node, true);
      MoreGained(was, before, mask[..], done, node);
      done := done + {node};
      ghost var marks := visited[..];
      assert first ==> node == source && stack == [] && done == {source};
      stack, aborted, at := ExpandReady(dep, vis0, source, node, visited, stack, done);
      if first { FirstExpansion(dep, vis0, source, marks, stack, aborted, at); }
      SearchBound(dep, vis0, source, visited[..], stack, done, u, at);
      if aborted {
        break;
      }
    }
    if aborted {
      SearchAborts(dep, vis0, source, visited[..], stack, done, u, at, closure);
      pending := OnStack(stack);
      StackEmpty(stack);
      status := PopAll(dep, vis0, source, visited, stack, done, u, at);
    } else {
      SearchEnds(dep, vis0, source, visited[..], done, u, closure);
    }
    OutcomeMeans(dep, vis0, source, aborted, closure, done);
  }

  /** Node `v` is ready to be disconnected from some node of `s`. */
  ghost predicate ReadyToLeave(dep: seq<seq<Dependency>>, s: set<nat>, v: nat)
    requires Square(dep)
  {
    exists u <- s :: u < |dep| && v < |dep| && dep[v][u] == DisconnectReady
  }

  /** The least closed set, on the matrix: the source and the unvisited nodes ready to leave a member. */
  lemma ReadyMeans(dep: seq<seq<Dependency>>, vis0: seq<bool>, source: nat, s: set<nat>)
    requires Square(dep) && |vis0| == |dep| && source < |dep| && Least(ReadyGraph(dep, vis0), source, s)
    ensures source in s && forall u <- s :: u < |dep|
    ensures forall u <- s, v: nat :: v < |dep| && dep[v][u] == DisconnectReady ==>
      (v in s <==> v == source || !vis0[v])
    ensures forall v <- s :: v != source ==> ReadyToLeave(dep, s, v)
  {
    hide ReadyGraph, Least, ReadyToLeave;
    forall v <- s | v != source ensures v < |dep| && !vis0[v] && ReadyToLeave(dep, s, v) {
      ReadyReason(dep, vis0, source, s, v);
    }
    LeastIs(ReadyGraph(dep, vis0), source, s);
    forall u <- s, v: nat | v < |dep| && dep[v][u] == DisconnectReady && !vis0[v] ensures v in s {
      InReadyGraph(dep, vis0, u, v);
    }
  }

  lemma ReadyReason(dep: seq<seq<Dependency>>, vis0: seq<bool>, source: nat, s: set<nat>, v: nat)
    requires Square(dep) && |vis0| == |dep| && Least(ReadyGraph(dep, vis0), source, s) && v in s && v != source
    ensures v < |dep| && !vis0[v] && ReadyToLeave(dep, s, v)
  {
    hide ReadyGraph, Least;
    LeastHasReasons(ReadyGraph(dep, vis0), source, s, v);
    var u :| u in s && u < |dep| && v in ReadyGraph(dep, vis0)[u];
    InReadyGraph(dep, vis0, u, v);
  }

  lemma OutcomeMeans(dep: seq<seq<Dependency>>, vis0: seq<bool>, source: nat, aborted: bool, closure: set<nat>,
                     done: set<nat>)
    requires Square(dep) && |vis0| == |dep| && (forall u <- closure :: u < |dep|)
    requires Outcome(dep, vis0, source, aborted, closure, done)
    ensures done <= closure && (!aborted ==> done == closure)
    ensures aborted ==>
      exists i: nat, u <- done :: i < |dep| && i != source && dep[i][u] == Dependent && !vis0[i]
    ensures !aborted ==> forall i: nat, u <- done :: i < |dep| && dep[i][u] == Dependent && !vis0[i] ==> i in done
  {
    if !aborted {
      forall i: nat, u <- done | i < |dep| && dep[i][u] == Dependent && !vis0[i] ensures i in done {
        assert Blocks(dep, vis0, i, u);
      }
    }
  }

  /** The search stopped at node `at` while it expanded `last`: what the popped nodes bring
      in was popped or is pending, but for the nodes of `last` not looked at yet. */
  ghost predicate StoppedAt(dep: seq<seq<Dependency>>, vis0: seq<bool>, closure: set<nat>, done: set<nat>,
                            pending: set<nat>, last: nat, at: nat)
    requires Square(dep) && |vis0| == |dep|
  {
    && last in done && Blocks(dep, vis0, at, last) && done + pending <= closure
    && Explored(ReadyGraph(dep, vis0), done + pending, done, last, at)
  }

  lemma StackEmpty(stack: seq<nat>)
    ensures OnStack(stack) == {} <==> stack == []
  {
    if stack != [] { assert stack[0] in OnStack(stack); }
  }

  /** Blocking nodes of popped nodes are reached, except those of `u` from `i` on. */
  ghost predicate Checked(dep: seq<seq<Dependency>>, vis0: seq<bool>, reached: set<nat>, done: set<nat>, u: nat, i: nat)
    requires Square(dep) && |vis0| == |dep|
  {
    forall w <- done, k: nat :: Blocks(dep, vis0, k, w) ==> k in reached || (w == u && i <= k)
  }

  /** Only the source may have been marked beforehand. */
  predicate Newly(vis0: seq<bool>, source: nat, reached: set<nat>)
  {
    forall v <- reached :: v < |vis0| && (v == source || !vis0[v])
  }

  ghost predicate Searching(dep: seq<seq<Dependency>>, vis0: seq<bool>, source: nat, vis: seq<bool>,
                            stack: seq<nat>, done: set<nat>, u: nat, i: nat)
  {
    var r := Reached(stack, done);
    && Square(dep) && |vis0| == |vis| == |dep| && Inv(ReadyGraph(dep, vis0), source, vis, stack, done, u, i)
    && Visits(vis0, vis, r) && Checked(dep, vis0, r, done, u, i) && Newly(vis0, source, r)
  }

  lemma SearchStarts(dep: seq<seq<Dependency>>, vis0: seq<bool>, source: nat, vis: seq<bool>)
    requires Square(dep) && |vis0| == |dep| && source < |dep| && vis == vis0[source := true]
    ensures Searching(dep, vis0, source, vis, [source], {}, 0, |dep|)
  {
    hide ReadyGraph, Inv, Square, Within, Blocks;
    var g := ReadyGraph(dep, vis0);
    forall u, v | 0 <= u < |g| && 0 <= v < |g| && vis0[v] ensures v !in g[u] { InReadyGraph(dep, vis0, u, v); }
    StartSearch(g, source, vis);
    OneReached(source);
  }

  lemma OneReached(v: nat)
    ensures Reached([v], {}) == {v}
  {
    var one := [v];
    assert one[0] in OnStack(one);
  }

  lemma SearchPops(dep: seq<seq<Dependency>>, vis0: seq<bool>, source: nat, vis: seq<bool>, stack: seq<nat>,
                   done: set<nat>, u0: nat)
    requires Searching(dep, vis0, source, vis, stack, done, u0, |dep|) && stack != []
    ensures var u := stack[0];
      u < |dep| && u !in done && Searching(dep, vis0, source, vis, stack[1..], done + {u}, u, 0)
  {
    hide ReadyGraph, Inv, Square, Within, Visits, Newly, Reached, Blocks;
    PopKeeps(ReadyGraph(dep, vis0), source, vis, stack, done, u0);
    PopChecked(dep, vis0, Reached(stack, done), done, u0, stack[0]);
  }

  lemma PopChecked(dep: seq<seq<Dependency>>, vis0: seq<bool>, reached: set<nat>, done: set<nat>, u0: nat, u: nat)
    requires Square(dep) && |vis0| == |dep| && Checked(dep, vis0, reached, done, u0, |dep|)
    ensures Checked(dep, vis0, reached, done + {u}, u, 0)
  {
    forall w <- done + {u}, k: nat | Blocks(dep, vis0, k, w) ensures k in reached || w == u {
      assert k < |dep|;
    }
  }

  lemma SearchBound(dep: seq<seq<Dependency>>, vis0: seq<bool>, source: nat, vis: seq<bool>, stack: seq<nat>,
                    done: set<nat>, u: nat, i: nat)
    requires Searching(dep, vis0, source, vis, stack, done, u, i)
    ensures |done| <= |dep|
  {
    hide Inv, ReadyGraph, Square, Visits, Newly, Checked;
    DoneBound(ReadyGraph(dep, vis0), source, vis, stack, done, u, i);
  }

  /** Pushing a node that is ready and depends on the popped one. */
  lemma SearchPushes(dep: seq<seq<Dependency>>, vis0: seq<bool>, source: nat, vis: seq<bool>, stack: seq<nat>,
                     done: set<nat>, u: nat, i: nat)
    requires Searching(dep, vis0, source, vis, stack, done, u, i) && u in done && u < |dep| && i < |dep| && !vis[i]
    requires dep[i][u].DisconnectReady?
    ensures Searching(dep, vis0, source, vis[i := true], [i] + stack, done, u, i + 1)
  {
    hide ReadyGraph, Inv, Within, Reached, Square, Blocks, Newly, Visits, Checked;
    UnvisitedIs(vis0, vis, Reached(stack, done), i);
    InReadyGraph(dep, vis0, u, i);
    PushKeeps(ReadyGraph(dep, vis0), source, vis, stack, done, u, i);
    PushedReached(stack, done, i);
    CheckedPast(dep, vis0, Reached(stack, done), done, u, i, {i});
    PushedVisits(vis0, vis, Reached(stack, done), i);
    PushedNewly(vis0, source, Reached(stack, done), i);
  }

  lemma UnvisitedIs(vis0: seq<bool>, vis: seq<bool>, r: set<nat>, i: nat)
    requires Visits(vis0, vis, r) && i < |vis|
    ensures vis[i] <==> vis0[i] || i in r
  {
  }

  lemma PushedVisits(vis0: seq<bool>, vis: seq<bool>, r: set<nat>, i: nat)
    requires Visits(vis0, vis, r) && i < |vis|
    ensures Visits(vis0, vis[i := true], r + {i})
  {
  }

  lemma PushedNewly(vis0: seq<bool>, source: nat, r: set<nat>, i: nat)
    requires Newly(vis0, source, r) && i < |vis0| && !vis0[i]
    ensures Newly(vis0, source, r + {i})
  {
  }

  /** Node `i` does not block unvisited, so the check moves on. */
  lemma CheckedPast(dep: seq<seq<Dependency>>, vis0: seq<bool>, r: set<nat>, done: set<nat>, u: nat, i: nat,
                    more: set<nat>)
    requires Square(dep) && |vis0| == |dep| && Checked(dep, vis0, r, done, u, i)
    requires Blocks(dep, vis0, i, u) ==> i in r + more
    ensures Checked(dep, vis0, r + more, done, u, i + 1)
  {
    hide Blocks;
  }

  lemma SearchSkips(dep: seq<seq<Dependency>>, vis0: seq<bool>, source: nat, vis: seq<bool>, stack: seq<nat>,
                    done: set<nat>, u: nat, i: nat)
    requires Searching(dep, vis0, source, vis, stack, done, u, i) && u < |dep| && i < |dep|
    requires vis[i] || !(dep[i][u].DisconnectReady? || dep[i][u].Dependent?)
    ensures Searching(dep, vis0, source, vis, stack, done, u, i + 1)
  {
    hide ReadyGraph, Inv, Within, Reached, Square, Newly, Visits, Checked;
    var r := Reached(stack, done);
    UnvisitedIs(vis0, vis, r, i);
    InReadyGraph(dep, vis0, u, i);
    SkipKeeps(ReadyGraph(dep, vis0), source, vis, stack, done, u, i);
    CheckedPast(dep, vis0, r, done, u, i, {});
    assert r + {} == r;
  }

  /** What one expansion of `node` from the marks `vis` pushed on `st`: the ready dependants before
      `at`, where it stopped at the first active one or came to the end. */
  ghost predicate Expanded(dep: seq<seq<Dependency>>, vis: seq<bool>, node: nat, st: seq<nat>, stack: seq<nat>,
                           aborted: bool, at: nat)
    requires Square(dep) && |vis| == |dep| && node < |dep|
  {
    && at <= |dep| && |st| <= |stack| && (forall i :: 0 <= i < at && dep[i][node].Dependent? ==> vis[i])
    && (if aborted then at < |dep| && dep[at][node].Dependent? && !vis[at] else at == |dep|)
    && (|stack| == |st| <==> forall i :: 0 <= i < at && dep[i][node].DisconnectReady? ==> vis[i])
  }

  /** The inner loop of micscif_get_minimal_deactiveset. */
  method ExpandReady(dep: seq<seq<Dependency>>, ghost vis0: seq<bool>, ghost source: nat, node: nat,
                     visited: array<bool>, st: seq<nat>, ghost done: set<nat>)
    returns (stack: seq<nat>, aborted: bool, ghost at: nat)
    requires Square(dep) && |dep| == visited.Length && node < |dep| && node in done
    requires Searching(dep, vis0, source, visited[..], st, done, node, 0)
    modifies visited
    ensures Searching(dep, vis0, source, visited[..], stack, done, node, at)
    ensures Expanded(dep, old(visited[..]), node, st, stack, aborted, at)
    ensures !aborted ==> at == |dep|
    ensures aborted ==> at < |dep| && !visited[at] && dep[at][node].Dependent?
  {
    hide Searching;
    stack, aborted, at := st, false, 0;
    for i := 0 to |dep|
      invariant Searching(dep, vis0, source, visited[..], stack, done, node, i)
      invariant |st| <= |stack| && forall j :: i <= j < |dep| ==> visited[j] == old(visited[j])
      invariant forall j :: 0 <= j < i && dep[j][node].Dependent? ==> old(visited[j])
      invariant |stack| == |st| <==> forall j :: 0 <= j < i && dep[j][node].DisconnectReady? ==> old(visited[j])
    {
      RowLength(dep, i);
      if !visited[i] {
        if dep[i][node] == Dependent {
          return stack, true, i;
        } else if dep[i][node] == DisconnectReady {
          SearchPushes(dep, vis0, source, visited[..], stack, done, node, i);
          ghost var was := visited[..];
          visited[i] := true;
          assert visited[..] == was[i := true];
          stack := [i] + stack;
        } else {
          SearchSkips(dep, vis0, source, visited[..], stack, done, node, i);
        }
      } else {
        SearchSkips(dep, vis0, source, visited[..], stack, done, node, i);
      }
    }
    at := |dep|;
  }

  // The return code, on the inputs.

  /** A node other than the source actively depends on the source. */
  ghost predicate SourceBlocked(dep: seq<seq<Dependency>>, vis0: seq<bool>, source: nat)
    requires Square(dep) && |vis0| == |dep|
  {
    exists i: nat :: i != source && Blocks(dep, vis0, i, source)
  }

  /** Node `v` is ready and would be pushed when the source is expanded. */
  predicate Pushes(dep: seq<seq<Dependency>>, vis0: seq<bool>, source: nat, v: nat)
    requires Square(dep) && |vis0| == |dep|
  {
    v < |dep| && source < |dep| && v != source && dep[v][source].DisconnectReady? && !vis0[v]
  }

  /** Such a node comes before every node that blocks the source. */
  ghost predicate ReadyFirst(dep: seq<seq<Dependency>>, vis0: seq<bool>, source: nat)
    requires Square(dep) && |vis0| == |dep|
  {
    exists v: nat ::
      && Pushes(dep, vis0, source, v)
      && forall i: nat :: i != source && Blocks(dep, vis0, i, source) ==> v < i
  }

  ghost predicate NoneReady(dep: seq<seq<Dependency>>, vis0: seq<bool>, source: nat)
    requires Square(dep) && |vis0| == |dep|
  {
    forall v: nat :: !Pushes(dep, vis0, source, v)
  }

  lemma FirstExpansion(dep: seq<seq<Dependency>>, vis0: seq<bool>, source: nat, vis: seq<bool>, stack: seq<nat>,
                       aborted: bool, at: nat)
    requires Square(dep) && |vis0| == |dep| && source < |dep| && vis == vis0[source := true]
    requires Expanded(dep, vis, source, [], stack, aborted, at)
    ensures aborted <==> SourceBlocked(dep, vis0, source)
    ensures aborted ==> (stack != [] <==> ReadyFirst(dep, vis0, source))
    ensures NoneReady(dep, vis0, source) ==> stack == []
  {
    if aborted { assert Blocks(dep, vis0, at, source); }
    if stack != [] {
      var v :| 0 <= v < at && dep[v][source].DisconnectReady? && !vis[v];
      assert Pushes(dep, vis0, source, v);
    }
  }

  lemma SearchAborts(dep: seq<seq<Dependency>>, vis0: seq<bool>, source: nat, vis: seq<bool>, stack: seq<nat>,
                     done: set<nat>, u: nat, at: nat, closure: set<nat>)
    requires Searching(dep, vis0, source, vis, stack, done, u, at)
    requires u in done && u < |dep| && at < |dep| && !vis[at] && dep[at][u].Dependent?
    requires Least(ReadyGraph(dep, vis0), source, closure)
    ensures Outcome(dep, vis0, source, true, closure, done)
    ensures StoppedAt(dep, vis0, closure, done, OnStack(stack), u, at)
  {
    hide ReadyGraph, Within, Square, Newly, Checked, Visits, OnStack;
    UnvisitedIs(vis0, vis, Reached(stack, done), at);
    assert Blocks(dep, vis0, at, u);
    assert Needed(ReadyGraph(dep, vis0), source, Reached(stack, done));
    assert Reached(stack, done) <= closure;
  }

  lemma SearchEnds(dep: seq<seq<Dependency>>, vis0: seq<bool>, source: nat, vis: seq<bool>, done: set<nat>, u: nat,
                   closure: set<nat>)
    requires Searching(dep, vis0, source, vis, [], done, u, |dep|)
    requires Least(ReadyGraph(dep, vis0), source, closure)
    ensures done == closure && Outcome(dep, vis0, source, false, closure, done) && Visits(vis0, vis, done)
  {
    hide ReadyGraph, Within, Square, Newly, Visits, Inv, Least;
    Finished(ReadyGraph(dep, vis0), source, vis, done, u);
    LeastIsUnique(ReadyGraph(dep, vis0), source, done, closure);
    assert Reached([], done) == done;
    forall i: nat, w | w in done && Blocks(dep, vis0, i, w) ensures i in done { assert i < |dep|; }
  }

  /** exit_pop: nodes still on the stack are unmarked, and the status is overwritten. */
  method PopAll(ghost dep: seq<seq<Dependency>>, ghost vis0: seq<bool>, ghost source: nat, visited: array<bool>,
                st: seq<nat>, ghost done: set<nat>, ghost u: nat, ghost at: nat)
    returns (status: int)
    requires Searching(dep, vis0, source, visited[..], st, done, u, at) && source in done
    modifies visited
    ensures Visits(vis0, visited[..], done)
    ensures status == if st == [] then -EOPNOTSUPP else 0
  {
    hide Searching, Visits, Reached, Unmarks;
    var stack := st;
    status := -EOPNOTSUPP;
    UnmarkStarts(dep, vis0, source, visited[..], st, done, u, at);
    while stack != []
      invariant Unmarks(vis0, visited[..], stack, done)
      invariant status == if stack == st then -EOPNOTSUPP else 0
      invariant |stack| <= |st|
    {
      UnmarkKeeps(vis0, visited[..], stack, done);
      var node := stack[0];
      stack, status := stack[1..], 0;
      ghost var was := visited[..];
      visited[node] := false;
      assert visited[..] == was[node := false];
    }
    UnmarkEnds(vis0, visited[..], done);
  }

  /** Marked: beforehand, popped or still on the stack, which holds none of the former. */
  predicate Unmarks(vis0: seq<bool>, vis: seq<bool>, stack: seq<nat>, done: set<nat>)
  {
    && Visits(vis0, vis, Reached(stack, done))
    && (forall i :: 0 <= i < |stack| ==> stack[i] < |vis0| && stack[i] !in done && !vis0[stack[i]])
    && (forall i, j :: 0 <= i < j < |stack| ==> stack[i] != stack[j])
  }

  lemma UnmarkStarts(dep: seq<seq<Dependency>>, vis0: seq<bool>, source: nat, vis: seq<bool>, stack: seq<nat>,
                     done: set<nat>, u: nat, at: nat)
    requires Searching(dep, vis0, source, vis, stack, done, u, at) && source in done
    ensures Unmarks(vis0, vis, stack, done)
  {
    hide ReadyGraph, Within, Square, Checked, Visits, Needed, Explored, Marks;
    forall i | 0 <= i < |stack| ensures stack[i] < |vis0| && stack[i] !in done && !vis0[stack[i]] {
      assert stack[i] in Reached(stack, done);
    }
  }

  lemma UnmarkKeeps(vis0: seq<bool>, vis: seq<bool>, stack: seq<nat>, done: set<nat>)
    requires Unmarks(vis0, vis, stack, done) && stack != []
    ensures stack[0] < |vis| && Unmarks(vis0, vis[stack[0] := false], stack[1..], done)
  {
    var v, r, r' := stack[0], Reached(stack, done), Reached(stack[1..], done);
    assert v !in OnStack(stack[1..]);
    SameReached(stack, done);
    assert Reached(stack[1..], done + {v}) == r' + {v};
  }

  lemma UnmarkEnds(vis0: seq<bool>, vis: seq<bool>, done: set<nat>)
    requires Unmarks(vis0, vis, [], done)
    ensures Visits(vis0, vis, done)
  {
    assert Reached([], done) == done;
  }

  ghost predicate InEvery(g: Graph, start: nat, v: nat)
  {
    forall t :: start in t && Closed(g, t) ==> v in t
  }

  /** There is a least closed set. */
  lemma ClosureExists(g: Graph, start: nat) returns (s: set<nat>)
    requires Within(g) && start < |g|
    ensures Least(g, start, s)
  {
    s := set v | 0 <= v < |g| && InEvery(g, start, v);
    forall u <- s | u < |g| ensures g[u] <= s {
      forall v <- g[u] ensures v in s {
        forall t | start in t && Closed(g, t) ensures v in t { assert u in t; }
      }
    }
  }

  // --------------------------------------------------------- marking the ready dependencies

  predicate ReadyCard(idle: seq<IdleState>, v: nat)
  {
    0 < v <= |idle| && idle[v - 1].PC3Ready?
  }

  datatype Pass = Setup(idle: seq<IdleState>) | Teardown

  /** An entry after setup_pm_dependency, which makes the dependencies of ready cards on
      cards ready, or after teardown_pm_dependency, which makes ready ones active. */
  function Entry(pass: Pass, u: nat, v: nat, d: Dependency): Dependency
  {
    match pass
    case Setup(idle) => if ReadyCard(idle, u) && v != 0 && d.Dependent? then DisconnectReady else d
    case Teardown => if u != 0 && v != 0 && d.DisconnectReady? then Dependent else d
  }

  /** Entries before `r`, `c` in row order went through the pass, the others did not. */
  predicate Partly(pass: Pass, was: seq<seq<Dependency>>, now: seq<seq<Dependency>>, r: nat, c: nat)
  {
    && Square(was) && |now| == |was| && Square(now)
    && forall u, v :: 0 <= u < |was| && 0 <= v < |was| ==>
         now[u][v] == if u < r || (u == r && v < c) then Entry(pass, u, v, was[u][v]) else was[u][v]
  }

  predicate Passed(pass: Pass, was: seq<seq<Dependency>>, now: seq<seq<Dependency>>)
  {
    Partly(pass, was, now, |was|, 0)
  }

  /** Neither pass touches the host. */
  lemma PassStarts(pass: Pass, was: seq<seq<Dependency>>)
    requires Square(was)
    ensures Partly(pass, was, was, 1, 1)
  {
  }

  lemma PassEntry(pass: Pass, was: seq<seq<Dependency>>, now: seq<seq<Dependency>>, r: nat, c: nat)
    requires Partly(pass, was, now, r, c) && r < |was| && c < |was|
    ensures |now[r]| == |was[r]| == |was| && now[r][c] == was[r][c]
    ensures Partly(pass, was, now[r := now[r][c := Entry(pass, r, c, was[r][c])]], r, c + 1)
    ensures Entry(pass, r, c, was[r][c]) == was[r][c] ==> Partly(pass, was, now, r, c + 1)
  {
    hide Entry;
  }

  lemma PassRow(pass: Pass, was: seq<seq<Dependency>>, now: seq<seq<Dependency>>, r: nat)
    requires Partly(pass, was, now, r, |was|)
    ensures Partly(pass, was, now, r + 1, 1)
  {
  }

  lemma PassUnready(idle: seq<IdleState>, was: seq<seq<Dependency>>, now: seq<seq<Dependency>>, r: nat)
    requires Partly(Setup(idle), was, now, r, 1) && !ReadyCard(idle, r)
    ensures Partly(Setup(idle), was, now, r + 1, 1)
  {
    hide ReadyCard;
  }

  lemma PassedSquare(pass: Pass, was: seq<seq<Dependency>>, now: seq<seq<Dependency>>)
    requires Passed(pass, was, now)
    ensures Square(was) && Square(now) && |now| == |was|
  {
  }

  lemma PassEnds(pass: Pass, was: seq<seq<Dependency>>, now: seq<seq<Dependency>>)
    requires Partly(pass, was, now, |was|, 1)
    ensures Passed(pass, was, now)
  {
    hide Entry;
  }

  class DependencyMatrix {
    var present: bool
    var dep: seq<seq<Dependency>>

    constructor (present: bool, dep: seq<seq<Dependency>>)
      ensures this.present == present && this.dep == dep
    {
      this.present, this.dep := present, dep;
    }

    /** micscif_set_nodedep. */
    method SetNodedep(u: nat, v: nat, d: Dependency)
      requires u < |dep| && v < |dep[u]|
      modifies this`dep
      ensures dep == if present then old(dep)[u := old(dep)[u][v := d]] else old(dep)
    {
      if present { dep := dep[u := dep[u][v := d]]; }
    }

    /** micscif_get_nodedep. */
    method GetNodedep(u: nat, v: nat) returns (d: Dependency)
      requires u < |dep| && v < |dep[u]|
      ensures d == if present then dep[u][v] else NotDependent
    {
      d := NotDependent;
      if present { d := dep[u][v]; }
    }

    /** setup_pm_dependency. */
    method SetupDependency(idle: seq<IdleState>)
      requires Square(dep) && |dep| == |idle| + 1
      modifies this`dep
      ensures if present then Passed(Setup(idle), old(dep), dep) else dep == old(dep)
      ensures present ==> forall u, v :: 0 <= u < |dep| && 0 <= v < |dep| ==>
        dep[u][v] == if u > 0 && v > 0 && idle[u - 1] == PC3Ready && old(dep)[u][v] == Dependent then DisconnectReady
                     else old(dep)[u][v]
    {
      hide Square, Partly, Entry;
      ghost var was, pass := dep, Setup(idle);
      PassStarts(pass, was);
      for i := 0 to |idle|
        invariant if present then Partly(pass, was, dep, i + 1, 1) else dep == was
      {
        if idle[i] == PC3Ready {
          for j := 0 to |idle|
            invariant if present then Partly(pass, was, dep, i + 1, j + 1) else dep == was
          {
            Lengths(pass, was, dep, present, i + 1);
            if present { PassEntry(pass, was, dep, i + 1, j + 1); ReadyEntry(idle, i + 1, j + 1, dep[i + 1][j + 1]); }
            var d := GetNodedep(i + 1, j + 1);
            if d == Dependent {
              SetNodedep(i + 1, j + 1, DisconnectReady);
            }
          }
          if present { PassRow(pass, was, dep, i + 1); }
        } else if present {
          PassUnready(idle, was, dep, i + 1);
        }
      }
      if present { PassEnds(pass, was, dep); SetupMeans(idle, was, dep); }
    }

    /** teardown_pm_dependency. */
    method TeardownDependency(numdevs: nat)
      requires Square(dep) && |dep| == numdevs + 1
      modifies this`dep
      ensures if present then Passed(Teardown, old(dep), dep) else dep == old(dep)
      ensures present ==> forall u, v :: 0 <= u < |dep| && 0 <= v < |dep| ==>
        dep[u][v] == if u > 0 && v > 0 && old(dep)[u][v] == DisconnectReady then Dependent else old(dep)[u][v]
    {
      hide Square, Partly, Entry;
      ghost var was := dep;
      PassStarts(Teardown, was);
      for i := 0 to numdevs
        invariant if present then Partly(Teardown, was, dep, i + 1, 1) else dep == was
      {
        for j := 0 to numdevs
          invariant if present then Partly(Teardown, was, dep, i + 1, j + 1) else dep == was
        {
          Lengths(Teardown, was, dep, present, i + 1);
          if present { PassEntry(Teardown, was, dep, i + 1, j + 1); TeardownEntry(i + 1, j + 1, dep[i + 1][j + 1]); }
          var d := GetNodedep(i + 1, j + 1);
          if d == DisconnectReady {
            SetNodedep(i + 1, j + 1, Dependent);
          }
        }
        if present { PassRow(Teardown, was, dep, i + 1); }
      }
      if present { PassEnds(Teardown, was, dep); TeardownMeans(was, dep); }
    }
  }

  lemma SetupMeans(idle: seq<IdleState>, was: seq<seq<Dependency>>, now: seq<seq<Dependency>>)
    requires Passed(Setup(idle), was, now) && |was| == |idle| + 1
    ensures |now| == |was| && Square(now) && forall u, v :: 0 <= u < |now| && 0 <= v < |now| ==>
      now[u][v] == if u > 0 && v > 0 && idle[u - 1] == PC3Ready && was[u][v] == Dependent then DisconnectReady
                   else was[u][v]
  {
  }

  lemma TeardownMeans(was: seq<seq<Dependency>>, now: seq<seq<Dependency>>)
    requires Passed(Teardown, was, now)
    ensures |now| == |was| && Square(now) && forall u, v :: 0 <= u < |now| && 0 <= v < |now| ==>
      now[u][v] == if u > 0 && v > 0 && was[u][v] == DisconnectReady then Dependent else was[u][v]
  {
  }

  lemma ReadyEntry(idle: seq<IdleState>, u: nat, v: nat, d: Dependency)
    requires ReadyCard(idle, u) && v != 0
    ensures Entry(Setup(idle), u, v, d) == if d == Dependent then DisconnectReady else d
  {
  }

  lemma TeardownEntry(u: nat, v: nat, d: Dependency)
    requires u != 0 && v != 0
    ensures Entry(Teardown, u, v, d) == if d == DisconnectReady then Dependent else d
  {
  }

  lemma Lengths(pass: Pass, was: seq<seq<Dependency>>, now: seq<seq<Dependency>>, present: bool, r: nat)
    requires if present then exists q, c :: Partly(pass, was, now, q, c) else Square(was) && now == was
    requires r < |was|
    ensures |now| == |was| && |now[r]| == |was|
  {
  }

  // ------------------------------------------------------------- setup, search, teardown

  /** No card is ready to be disconnected from a card. */
  predicate ReadyFree(dep: seq<seq<Dependency>>)
    requires Square(dep)
  {
    forall u, v :: 1 <= u < |dep| && 1 <= v < |dep| ==> !dep[u][v].DisconnectReady?
  }

  /** Teardown after setup restores the matrix exactly when it held no ready entry between
      cards beforehand. */
  lemma TeardownRestores(idle: seq<IdleState>, dep: seq<seq<Dependency>>, mid: seq<seq<Dependency>>,
                         end: seq<seq<Dependency>>)
    requires Passed(Setup(idle), dep, mid) && Passed(Teardown, mid, end)
    ensures end == dep <==> ReadyFree(dep)
  {
    forall u, v | 0 <= u < |dep| && 0 <= v < |dep|
      ensures end[u][v] == dep[u][v] <==> !(u != 0 && v != 0 && dep[u][v].DisconnectReady?)
    {
      assert mid[u][v] == Entry(Setup(idle), u, v, dep[u][v]) && end[u][v] == Entry(Teardown, u, v, mid[u][v]);
    }
    if ReadyFree(dep) {
      forall u | 0 <= u < |dep| ensures end[u] == dep[u] { }
    }
  }

  /** After setup, `u` brings in the ready cards that depended on the card `u`. */
  lemma ReadyAfterSetup(idle: seq<IdleState>, dep: seq<seq<Dependency>>, mid: seq<seq<Dependency>>, vis: seq<bool>,
                        u: nat, v: nat)
    requires Passed(Setup(idle), dep, mid) && u < |dep| && v < |dep| == |vis| && !vis[v]
    requires forall i, j :: 0 <= i < |dep| && 0 <= j < |dep| ==> !dep[i][j].DisconnectReady?
    ensures v in ReadyGraph(mid, vis)[u] <==> ReadyCard(idle, v) && u != 0 && dep[v][u].Dependent?
  {
    hide ReadyCard, ReadyGraph;
    InReadyGraph(mid, vis, u, v);
  }

  lemma ClosureAfterSetup(idle: seq<IdleState>, dep: seq<seq<Dependency>>, mid: seq<seq<Dependency>>, vis: seq<bool>,
                          source: nat, closure: set<nat>, v: nat)
    requires Passed(Setup(idle), dep, mid) && 0 < source < |dep| == |vis| && forall i :: 0 <= i < |vis| ==> !vis[i]
    requires forall i, j :: 0 <= i < |dep| && 0 <= j < |dep| ==> !dep[i][j].DisconnectReady?
    requires Least(ReadyGraph(mid, vis), source, closure) && v in closure
    ensures 0 < v < |dep| && (v != source ==> ReadyCard(idle, v))
  {
    hide Passed, ReadyGraph, Least, Square;
    PassedSquare(Setup(idle), dep, mid);
    if v != source {
      LeastHasReasons(ReadyGraph(mid, vis), source, closure, v);
      var u :| u in closure && u < |dep| && v in ReadyGraph(mid, vis)[u];
      ReadyAfterSetup(idle, dep, mid, vis, u, v);
    }
  }

  /** The search stops exactly when some node that is not a ready card, other than the
      source, actively depends on a node that would have to go along. */
  lemma AbortsExactly(idle: seq<IdleState>, dep: seq<seq<Dependency>>, mid: seq<seq<Dependency>>, vis: seq<bool>,
                      source: nat, aborted: bool, closure: set<nat>, done: set<nat>)
    requires Passed(Setup(idle), dep, mid) && 0 < source < |dep| == |vis| && forall i :: 0 <= i < |vis| ==> !vis[i]
    requires forall i, j :: 0 <= i < |dep| && 0 <= j < |dep| ==> !dep[i][j].DisconnectReady?
    requires Least(ReadyGraph(mid, vis), source, closure) && Outcome(mid, vis, source, aborted, closure, done)
    ensures aborted <==> exists i: nat, u: nat :: Stops(idle, dep, source, closure, i, u)
  {
    hide ReadyGraph, Least, ReadyCard, Passed, Stops, Outcome, Blocks;
    PassedSquare(Setup(idle), dep, mid);
    forall i: nat, u: nat | u in closure && i < |dep| && i != source
      ensures Stops(idle, dep, source, closure, i, u) <==> Blocks(mid, vis, i, u)
      ensures i in closure ==> !Stops(idle, dep, source, closure, i, u)
    {
      ClosureAfterSetup(idle, dep, mid, vis, source, closure, u);
      StopsIsBlocks(idle, dep, mid, vis, source, closure, i, u);
      if i in closure { ClosureAfterSetup(idle, dep, mid, vis, source, closure, i); }
    }
    OutcomeDecides(idle, dep, mid, vis, source, aborted, closure, done);
  }

  predicate Stops(idle: seq<IdleState>, dep: seq<seq<Dependency>>, source: nat, closure: set<nat>, i: nat, u: nat)
    requires Square(dep)
  {
    u in closure && u < |dep| && i < |dep| && i != source && !ReadyCard(idle, i) && dep[i][u].Dependent?
  }

  lemma StopsIsBlocks(idle: seq<IdleState>, dep: seq<seq<Dependency>>, mid: seq<seq<Dependency>>, vis: seq<bool>,
                      source: nat, closure: set<nat>, i: nat, u: nat)
    requires Passed(Setup(idle), dep, mid) && |vis| == |dep| && i < |dep| && 0 < u < |dep| && u in closure
    requires i != source && !vis[i]
    ensures Stops(idle, dep, source, closure, i, u) <==> Blocks(mid, vis, i, u)
    ensures ReadyCard(idle, i) ==> !Stops(idle, dep, source, closure, i, u)
  {
  }

  lemma OutcomeDecides(idle: seq<IdleState>, dep: seq<seq<Dependency>>, mid: seq<seq<Dependency>>, vis: seq<bool>,
                       source: nat, aborted: bool, closure: set<nat>, done: set<nat>)
    requires Square(dep) && Square(mid) && |vis| == |mid| == |dep| && Outcome(mid, vis, source, aborted, closure, done)
    requires forall i: nat, u: nat :: u in closure && i < |dep| && i != source ==>
      && (Stops(idle, dep, source, closure, i, u) <==> Blocks(mid, vis, i, u))
      && (i in closure ==> !Stops(idle, dep, source, closure, i, u))
    ensures aborted <==> exists i: nat, u: nat :: Stops(idle, dep, source, closure, i, u)
  {
    hide ReadyCard;
    if aborted {
      var i: nat, u :| u in done && i != source && Blocks(mid, vis, i, u);
      assert Stops(idle, dep, source, closure, i, u);
    }
  }

  // -------------------------------------------------------------------- witnesses

  function Row(n: nat): (r: seq<Dependency>)
    ensures |r| == n
  {
    seq(n, _ => NotDependent)
  }

  /** Node 2 is ready to leave node 1, node 3 is not. */
  function BusyMatrix(): (dep: seq<seq<Dependency>>)
    ensures Square(dep) && |dep| == 4 && dep[2][1] == DisconnectReady && dep[3][1] == Dependent
  {
    [Row(4), Row(4), Row(4)[1 := DisconnectReady], Row(4)[1 := Dependent]]
  }

  /** A search of that matrix from node 1 stops and reports success. */
  method AbortReturnsZero() returns (status: int, aborted: bool, ghost closure: set<nat>, ghost done: set<nat>)
    ensures var vis := [false, false, false, false];
      && SourceBlocked(BusyMatrix(), vis, 1) && ReadyFirst(BusyMatrix(), vis, 1)
      && Least(ReadyGraph(BusyMatrix(), vis), 1, closure) && Outcome(BusyMatrix(), vis, 1, aborted, closure, done)
    ensures aborted && status == 0
  {
    hide Least, Outcome, StoppedAt, Gains, Visits, ReadyGraph;
    var mask, visited := new byte[1](_ => 0), new bool[4](_ => false);
    ghost var vis := visited[..];
    assert vis == [false, false, false, false];
    assert Blocks(BusyMatrix(), vis, 3, 1);
    assert Pushes(BusyMatrix(), vis, 1, 2);
    BusyBlocks(vis);
    ghost var pending;
    status, aborted, closure, done, pending := GetMinimalDeactiveSet(true, BusyMatrix(), 1, mask, visited);
  }

  lemma BusyBlocks(vis: seq<bool>)
    requires |vis| == 4
    ensures forall i: nat :: Blocks(BusyMatrix(), vis, i, 1) ==> i == 3
  {
  }

  /** A dependency between cards that was ready before setup is active after teardown. */
  lemma TeardownChanges()
    ensures exists idle: seq<IdleState>, dep: seq<seq<Dependency>>, mid: seq<seq<Dependency>>,
      end: seq<seq<Dependency>> ::
      Passed(Setup(idle), dep, mid) && Passed(Teardown, mid, end) && end != dep
  {
    var dep := [Row(3), Row(3)[2 := DisconnectReady], Row(3)];
    var end := [Row(3), Row(3)[2 := Dependent], Row(3)];
    assert Passed(Setup([PC0, PC0]), dep, dep);
    assert Passed(Teardown, dep, end);
    assert end[1][2] != dep[1][2];
  }
}
