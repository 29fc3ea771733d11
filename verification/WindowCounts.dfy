/** Every run of registrations, mappings, unmappings and unregistrations of remote windows
    (micscif/micscif_rma.c, micscif/micscif_rma_list.c, micscif/micscif_nodeqp.c): the count of a
    window on the list is its own reference and its mapped pages, and never zero. */
module WindowCounts {
  import opened Bits
  import opened Errors
  import opened WindowList

  /** A mapped range and the protection it was mapped with. */
  datatype Mapping = Mapping(range: Range, prot: nat)

  /** The remote windows on the list, the first pages of those not unregistered yet, and the
      ranges mapped. */
  datatype Registry = Registry(ws: seq<Window>, held: set<nat>, live: seq<Mapping>)

  datatype Call =
    | Register(w: Window, p: nat)   // micscif_create_remote_window, micscif_insert_window
    | Map(m: Mapping)               // scif_mmap
    | Split(j: nat, mid: nat)       // the kernel cuts a mapping in two
    | Unmap(j: nat)                 // scif_munmap
    | Unregister(i: nat)            // scif_recv_unregister

  function Ranges(live: seq<Mapping>): (r: seq<Range>)
    ensures |r| == |live|
  {
    seq(|live|, i requires 0 <= i < |live| => live[i].range)
  }

  function Remove(live: seq<Mapping>, j: nat): seq<Mapping>
    requires j < |live|
  {
    live[..j] + live[j + 1..]
  }

  /** The mapping is a non-empty range of pages in windows that grant its protection. */
  ghost predicate Served(ws: seq<Window>, m: Mapping)
  {
    m.range.lo < m.range.hi && AllCovered(ws, m.range.lo * 4096, m.range.hi * 4096, m.prot)
  }

  ghost predicate Step(s: Registry, c: Call, s': Registry)
  {
    match c
    case Register(w, p) =>
      && w.pages > 0 && w.refCount == w.pages && (forall x <- s.ws :: Disjoint(x, w))
      && Place(Offsets(s.ws), w.Offset(), p) && s' == Registry(InsertAt(s.ws, p, w), s.held + {w.first}, s.live)
    case Map(m) =>
      && Served(s.ws, m) && s' == Registry(Mapped(s.ws, m.range.lo, m.range.hi), s.held, s.live + [m])
    case Split(j, mid) =>
      && j < |s.live| && s.live[j].range.lo < mid < s.live[j].range.hi
      && s' == s.(live := Remove(s.live, j) + [Mapping(Range(s.live[j].range.lo, mid), s.live[j].prot)]
                          + [Mapping(Range(mid, s.live[j].range.hi), s.live[j].prot)])
    case Unmap(j) =>
      && j < |s.live|
      && s' == Registry(Unmapped(s.ws, s.live[j].range.lo, s.live[j].range.hi), s.held, Remove(s.live, j))
    case Unregister(i) =>
      && i < |s.ws| && s.ws[i].first in s.held
      && s' == Registry(Unregistered(s.ws, i), s.held - {s.ws[i].first}, s.live)
  }

  /** The reference a window is made with. */
  function Own(held: set<nat>, w: Window): nat { if w.first in held then w.pages else 0 }

  ghost predicate Balanced(w: Window, held: set<nat>, live: seq<Mapping>)
  {
    w.refCount == Own(held, w) + StillMapped(w, Ranges(live)) && w.refCount > 0
  }

  ghost predicate Inv(s: Registry)
  {
    && Ordered(s.ws) && (forall w <- s.ws :: Balanced(w, s.held, s.live))
    && forall m <- s.live :: Served(s.ws, m)
  }

  // ------------------------------------------------------------------- counts and ranges

  lemma {:induction false} SameStillMapped(w: Window, w': Window, rs: seq<Range>)
    requires w'.first == w.first && w'.pages == w.pages
    ensures StillMapped(w', rs) == StillMapped(w, rs)
  {
    if rs != [] { SameStillMapped(w, w', rs[1..]); }
  }

  lemma {:induction false} MappedMore(w: Window, rs: seq<Range>, r: Range)
    ensures StillMapped(w, rs + [r]) == StillMapped(w, rs) + Overlap(w, r.lo, r.hi)
  {
    hide Overlap;
    if rs == [] {
      assert [] + [r] == [r] && [r][1..] == [];
      assert StillMapped(w, [r]) == Overlap(w, r.lo, r.hi) + StillMapped(w, []);
    } else {
      assert (rs + [r])[1..] == rs[1..] + [r];
      MappedMore(w, rs[1..], r);
    }
  }

  lemma RangesMore(live: seq<Mapping>, m: Mapping)
    ensures Ranges(live + [m]) == Ranges(live) + [m.range]
  {
  }

  /** Taking a mapping out takes out its pages. */
  lemma MappedLess(w: Window, live: seq<Mapping>, j: nat)
    requires j < |live|
    ensures StillMapped(w, Ranges(live))
      == Overlap(w, live[j].range.lo, live[j].range.hi) + StillMapped(w, Ranges(Remove(live, j)))
  {
    hide Overlap, StillMapped;
    TakeOut(w, Ranges(live), j);
    assert Ranges(Remove(live, j)) == Ranges(live)[..j] + Ranges(live)[j + 1..];
  }

  /** A mapping keeps every window it has a page in. */
  lemma LiveCounts(w: Window, live: seq<Mapping>, m: Mapping)
    requires m in live && Overlap(w, m.range.lo, m.range.hi) > 0
    ensures StillMapped(w, Ranges(live)) > 0
  {
    hide Overlap, StillMapped;
    var j :| 0 <= j < |live| && live[j] == m;
    assert Ranges(live)[j] == m.range;
    PieceMapped(w, Ranges(live), m.range);
  }

  // ----------------------------------------------------------------------- what is kept

  /** The window is on the list, whatever its count. */
  ghost predicate StillOn(ws: seq<Window>, w: Window)
  {
    exists x :: x in ws && x == w.(refCount := x.refCount)
  }

  /** Mappings stay served while each window they have a page in stays on the list. */
  lemma StaysServed(ws: seq<Window>, ws': seq<Window>, m: Mapping)
    requires Served(ws, m)
    requires forall w <- ws :: Overlap(w, m.range.lo, m.range.hi) > 0 ==> StillOn(ws', w)
    ensures Served(ws', m)
  {
    hide Allows, Overlap;
    forall b | m.range.lo * 4096 <= b < m.range.hi * 4096 ensures Covered(ws', b, m.prot) {
      assert Covered(ws, b, m.prot);
      var i :| 0 <= i < |ws| && Holds(ws[i], b) && Allows(ws[i], m.prot);
      PageInside(ws[i], m.range, b);
      assert ws[i] in ws && StillOn(ws', ws[i]);
      var x :| x in ws' && x == ws[i].(refCount := x.refCount);
      var j :| 0 <= j < |ws'| && ws'[j] == x;
      SameProtection(ws[i], x, m.prot);
    }
  }

  // -------------------------------------------------------------------------- mapping

  lemma MapKeeps(s: Registry, m: Mapping, s': Registry)
    requires Inv(s) && Step(s, Map(m), s')
    ensures Inv(s')
  {
    hide Served, Overlap, Ordered, Balanced;
    MappedOrdered(s.ws, m.range.lo, m.range.hi);
    forall x <- s'.ws ensures Balanced(x, s'.held, s'.live) {
      var i :| 0 <= i < |s'.ws| && s'.ws[i] == x;
      assert s.ws[i] in s.ws;
      MapBalanced(s.ws[i], s.held, s.live, m);
    }
    forall n <- s'.live ensures Served(s'.ws, n) {
      forall w <- s.ws ensures StillOn(s'.ws, w) { MappedHas(s.ws, m.range.lo, m.range.hi, w); }
      StaysServed(s.ws, s'.ws, n);
    }
  }

  lemma MappedOrdered(ws: seq<Window>, lo: nat, hi: nat)
    requires Ordered(ws)
    ensures Ordered(Mapped(ws, lo, hi))
  {
    hide Overlap;
  }

  lemma MappedHas(ws: seq<Window>, lo: nat, hi: nat, w: Window)
    requires w in ws
    ensures StillOn(Mapped(ws, lo, hi), w)
  {
    hide Overlap;
    var i :| 0 <= i < |ws| && ws[i] == w;
    assert Mapped(ws, lo, hi)[i] in Mapped(ws, lo, hi);
  }

  lemma MapBalanced(w: Window, held: set<nat>, live: seq<Mapping>, m: Mapping)
    requires Balanced(w, held, live)
    ensures Balanced(MappedWindow(w, m.range.lo, m.range.hi), held, live + [m])
  {
    hide Overlap, StillMapped;
    var x := MappedWindow(w, m.range.lo, m.range.hi);
    RangesMore(live, m);
    MappedMore(w, Ranges(live), m.range);
    SameStillMapped(w, x, Ranges(live + [m]));
  }

  lemma OverlapSplit(w: Window, lo: nat, mid: nat, hi: nat)
    requires lo <= mid <= hi
    ensures Overlap(w, lo, hi) == Overlap(w, lo, mid) + Overlap(w, mid, hi)
  {
  }

  lemma SplitKeeps(s: Registry, j: nat, mid: nat, s': Registry)
    requires Inv(s) && Step(s, Split(j, mid), s')
    ensures Inv(s')
  {
    hide Overlap, Ordered, StillMapped, AllCovered;
    var m := s.live[j];
    var a, b := Mapping(Range(m.range.lo, mid), m.prot), Mapping(Range(mid, m.range.hi), m.prot);
    var rest := Remove(s.live, j);
    forall w <- s.ws ensures Balanced(w, s.held, s'.live) {
      assert Balanced(w, s.held, s.live);
      MappedLess(w, s.live, j);
      RangesMore(rest, a);
      RangesMore(rest + [a], b);
      MappedMore(w, Ranges(rest), a.range);
      MappedMore(w, Ranges(rest + [a]), b.range);
      OverlapSplit(w, m.range.lo, mid, m.range.hi);
    }
    assert m in s.live && Served(s.ws, m);
    PartsServed(s.ws, m, mid);
    forall n <- s'.live ensures Served(s.ws, n) {
      if n != a && n != b { assert n in rest; assert n in s.live; }
    }
  }

  lemma PartsServed(ws: seq<Window>, m: Mapping, mid: nat)
    requires Served(ws, m) && m.range.lo < mid < m.range.hi
    ensures Served(ws, Mapping(Range(m.range.lo, mid), m.prot)) && Served(ws, Mapping(Range(mid, m.range.hi), m.prot))
  {
    hide Covered;
  }

  // ------------------------------------------------------------------------ unmapping

  /** Unmapping takes the window off the list. */
  predicate Drops(w: Window, lo: nat, hi: nat) { Overlap(w, lo, hi) > 0 && w.refCount == Overlap(w, lo, hi) }

  function Lessened(w: Window, lo: nat, hi: nat): Window { w.(refCount := w.refCount - Overlap(w, lo, hi)) }

  lemma {:induction false} UnmappedFrom(ws: seq<Window>, lo: nat, hi: nat, x: Window) returns (w: Window)
    requires x in Unmapped(ws, lo, hi)
    ensures w in ws && !Drops(w, lo, hi) && x == Lessened(w, lo, hi)
  {
    hide Overlap;
    var n := |ws| - 1;
    if x in Unmapped(ws[..n], lo, hi) {
      w := UnmappedFrom(ws[..n], lo, hi, x);
    } else {
      w := ws[n];
    }
  }

  lemma {:induction false} UnmappedHas(ws: seq<Window>, lo: nat, hi: nat, w: Window)
    requires w in ws && !Drops(w, lo, hi)
    ensures Lessened(w, lo, hi) in Unmapped(ws, lo, hi)
  {
    hide Overlap;
    var n := |ws| - 1;
    if w in ws[..n] { UnmappedHas(ws[..n], lo, hi, w); }
  }

  lemma {:induction false} UnmappedOrdered(ws: seq<Window>, lo: nat, hi: nat)
    requires Ordered(ws)
    ensures Ordered(Unmapped(ws, lo, hi))
  {
    hide Overlap;
    if ws != [] {
      var n := |ws| - 1;
      UnmappedOrdered(ws[..n], lo, hi);
      var front := Unmapped(ws[..n], lo, hi);
      forall i | 0 <= i < |front| ensures front[i].Last() <= ws[n].first {
        var w := UnmappedFrom(ws[..n], lo, hi, front[i]);
      }
    }
  }

  lemma UnmapBalanced(w: Window, held: set<nat>, live: seq<Mapping>, j: nat)
    requires Balanced(w, held, live) && j < |live|
    ensures var r := live[j].range;
      && Overlap(w, r.lo, r.hi) <= w.refCount
      && (!Drops(w, r.lo, r.hi) ==> Balanced(Lessened(w, r.lo, r.hi), held, Remove(live, j)))
      && (Drops(w, r.lo, r.hi) ==> StillMapped(w, Ranges(Remove(live, j))) == 0)
  {
    hide Overlap, StillMapped;
    var r := live[j].range;
    MappedLess(w, live, j);
    SameStillMapped(w, Lessened(w, r.lo, r.hi), Ranges(Remove(live, j)));
  }

  lemma UnmapKeeps(s: Registry, j: nat, s': Registry)
    requires Inv(s) && Step(s, Unmap(j), s')
    ensures Inv(s')
  {
    hide Served, Overlap, Ordered, Balanced, StillMapped, Drops, Lessened;
    var r := s.live[j].range;
    UnmappedOrdered(s.ws, r.lo, r.hi);
    forall x <- s'.ws ensures Balanced(x, s'.held, s'.live) {
      var w := UnmappedFrom(s.ws, r.lo, r.hi, x);
      UnmapBalanced(w, s.held, s.live, j);
    }
    forall m <- s'.live ensures Served(s'.ws, m) {
      assert m in s.live;
      forall w <- s.ws | Overlap(w, m.range.lo, m.range.hi) > 0 ensures StillOn(s'.ws, w) {
        UnmapBalanced(w, s.held, s.live, j);
        LiveCounts(w, s'.live, m);
        UnmappedHas(s.ws, r.lo, r.hi, w);
        LessenedOn(s'.ws, w, r.lo, r.hi);
      }
      StaysServed(s.ws, s'.ws, m);
    }
  }

  lemma LessenedOn(ws: seq<Window>, w: Window, lo: nat, hi: nat)
    requires Lessened(w, lo, hi) in ws
    ensures StillOn(ws, w)
  {
    hide Overlap;
  }

  // -------------------------------------------------------- registering and unregistering

  /** A window apart from all others has no page in a range that they serve. */
  lemma NotMapped(ws: seq<Window>, w: Window, m: Mapping)
    requires Served(ws, m) && forall x <- ws :: Disjoint(x, w)
    ensures Overlap(w, m.range.lo, m.range.hi) == 0
  {
    hide Allows;
    if Overlap(w, m.range.lo, m.range.hi) > 0 {
      var p := if w.first < m.range.lo then m.range.lo else w.first;
      assert Covered(ws, p * 4096, m.prot);
      var i :| 0 <= i < |ws| && Holds(ws[i], p * 4096);
      assert ws[i] in ws;
    }
  }

  lemma {:induction false} NoneMapped(ws: seq<Window>, w: Window, live: seq<Mapping>)
    requires (forall m <- live :: Served(ws, m)) && forall x <- ws :: Disjoint(x, w)
    ensures StillMapped(w, Ranges(live)) == 0
  {
    hide Served, Overlap, Disjoint;
    if live != [] {
      assert live[0] in live && Ranges(live)[1..] == Ranges(live[1..]);
      NotMapped(ws, w, live[0]);
      NoneMapped(ws, w, live[1..]);
    }
  }

  lemma RegisterKeeps(s: Registry, w: Window, p: nat, s': Registry)
    requires Inv(s) && Step(s, Register(w, p), s')
    ensures Inv(s')
  {
    hide Served, Overlap, Ordered, StillMapped, Offsets;
    forall i | 0 <= i < |s.ws| ensures Disjoint(s.ws[i], w) { assert s.ws[i] in s.ws; }
    InsertKeepsOrder(s.ws, p, w);
    NoneMapped(s.ws, w, s.live);
    forall x <- s'.ws ensures Balanced(x, s'.held, s.live) {
      if x != w { OwnStays(s, w, x); }
    }
    forall m <- s.live ensures Served(s'.ws, m) {
      forall x <- s.ws ensures StillOn(s'.ws, x) { assert x in s'.ws; }
      StaysServed(s.ws, s'.ws, m);
    }
  }

  lemma OwnStays(s: Registry, w: Window, x: Window)
    requires x in s.ws && w.pages > 0 && Disjoint(x, w) && Ordered(s.ws)
    ensures Own(s.held + {w.first}, x) == Own(s.held, x)
  {
  }

  lemma UnregisterKeeps(s: Registry, i: nat, s': Registry)
    requires Inv(s) && Step(s, Unregister(i), s')
    ensures Inv(s')
  {
    hide Served, Overlap, StillMapped;
    var w := s.ws[i];
    assert w in s.ws;
    UnregisteredOrdered(s.ws, i);
    forall x <- s'.ws ensures Balanced(x, s'.held, s.live) { UnregisterBalanced(s, i, x); }
    forall m <- s.live ensures Served(s'.ws, m) {
      forall x <- s.ws | Overlap(x, m.range.lo, m.range.hi) > 0 ensures StillOn(s'.ws, x) {
        LiveCounts(x, s.live, m);
        UnregisteredHas(s.ws, i, x);
      }
      StaysServed(s.ws, s'.ws, m);
    }
  }

  lemma UnregisteredOrdered(ws: seq<Window>, i: nat)
    requires Ordered(ws) && i < |ws|
    ensures Ordered(Unregistered(ws, i))
  {
  }

  /** A window other than the one taken off, or one with more references, stays. */
  lemma UnregisteredHas(ws: seq<Window>, i: nat, x: Window)
    requires i < |ws| && x in ws && (x == ws[i] ==> LeftOver(x) != 0)
    ensures StillOn(Unregistered(ws, i), x)
  {
    var k :| 0 <= k < |ws| && ws[k] == x;
    var ws' := Unregistered(ws, i);
    if LeftOver(ws[i]) == 0 {
      assert ws'[if k < i then k else k - 1] == x;
    } else {
      assert ws'[k] in ws';
    }
  }

  lemma UnregisterBalanced(s: Registry, i: nat, x: Window)
    requires Inv(s) && i < |s.ws| && s.ws[i].first in s.held && x in Unregistered(s.ws, i)
    ensures Balanced(x, s.held - {s.ws[i].first}, s.live)
  {
    hide Served, Overlap, StillMapped, Ordered, Unregistered, Balanced;
    var w := s.ws[i];
    assert w in s.ws;
    var n := UnregisteredFrom(s.ws, i, x);
    if n == i {
      LessOwn(w, x, s.held, s.live);
    } else {
      assert s.ws[n] in s.ws;
      FirstsDiffer(s.ws, n, i);
      OtherOwn(x, w.first, s.held, s.live);
    }
  }

  /** Which window a window of the list was. */
  lemma UnregisteredFrom(ws: seq<Window>, i: nat, x: Window) returns (n: nat)
    requires i < |ws| && x in Unregistered(ws, i)
    ensures n < |ws|
    ensures if n == i then LeftOver(ws[i]) != 0 && x == ws[i].(refCount := LeftOver(ws[i])) else x == ws[n]
  {
    var ws' := Unregistered(ws, i);
    n :| 0 <= n < |ws'| && ws'[n] == x;
    if LeftOver(ws[i]) == 0 && n >= i { n := n + 1; }
  }

  lemma LessOwn(w: Window, x: Window, held: set<nat>, live: seq<Mapping>)
    requires Balanced(w, held, live) && w.first in held
    requires LeftOver(w) != 0 && x == w.(refCount := LeftOver(w))
    ensures Balanced(x, held - {w.first}, live)
  {
    hide StillMapped;
    SameStillMapped(w, x, Ranges(live));
  }

  lemma OtherOwn(x: Window, first: nat, held: set<nat>, live: seq<Mapping>)
    requires Balanced(x, held, live) && x.first != first
    ensures Balanced(x, held - {first}, live)
  {
    hide StillMapped;
  }

  lemma FirstsDiffer(ws: seq<Window>, a: nat, b: nat)
    requires Ordered(ws) && a < |ws| && b < |ws| && a != b
    ensures ws[a].first != ws[b].first
  {
  }

  // --------------------------------------------------------------------------- whole runs

  lemma StepKeepsInv(s: Registry, c: Call, s': Registry)
    requires Inv(s) && Step(s, c, s')
    ensures Inv(s')
  {
    hide Inv, Step;
    match c
    case Register(w, p) => RegisterKeeps(s, w, p, s');
    case Map(m) => MapKeeps(s, m, s');
    case Split(j, mid) => SplitKeeps(s, j, mid, s');
    case Unmap(j) => UnmapKeeps(s, j, s');
    case Unregister(i) => UnregisterKeeps(s, i, s');
  }

  /** The states `ss` come from the calls `cs`, beginning with an empty list. */
  ghost predicate Run(cs: seq<Call>, ss: seq<Registry>)
  {
    && |ss| == |cs| + 1 && ss[0] == Registry([], {}, [])
    && forall i :: 0 <= i < |cs| ==> Step(ss[i], cs[i], ss[i + 1])
  }

  lemma {:induction false} RunKeepsInv(cs: seq<Call>, ss: seq<Registry>, n: nat)
    requires Run(cs, ss) && n < |ss|
    ensures Inv(ss[n])
  {
    hide Step;
    if n > 0 {
      RunKeepsInv(cs, ss, n - 1);
      StepKeepsInv(ss[n - 1], cs[n - 1], ss[n]);
    }
  }

  /** Over every run: each window on the list has a positive count, its own reference until it is
      unregistered and one for each mapped page, and every mapping can still be found. */
  lemma CountsStayPositive(cs: seq<Call>, ss: seq<Registry>, n: nat)
    requires Run(cs, ss) && n < |ss|
    ensures forall w <- ss[n].ws ::
      w.refCount == Own(ss[n].held, w) + StillMapped(w, Ranges(ss[n].live)) && w.refCount > 0
    ensures forall m <- ss[n].live :: Served(ss[n].ws, m)
  {
    hide Run, StillMapped, Served;
    RunKeepsInv(cs, ss, n);
  }

  /** So a mapping and the unmapping of its pieces give back the very list, in every state. */
  lemma RoundTripRestores(cs: seq<Call>, ss: seq<Registry>, n: nat, whole: Range)
    requires Run(cs, ss) && n < |ss|
    ensures Current(ss[n].ws, whole, []) == ss[n].ws
  {
    hide Run, StillMapped, Served, Current, Overlap;
    CountsStayPositive(cs, ss, n);
    RestoredExactly(ss[n].ws, whole);
  }
}
