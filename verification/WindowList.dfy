/** The sorted registration list of micscif/micscif_rma_list.c: insertion and range queries.
    A window starts on a page, so its registered offset is kept as a page number. */
module WindowList {
  import opened Bits
  import opened Errors

  datatype Window = Window(first: nat, pages: nat, prot: nat, refCount: int, va: nat) {
    function Offset(): nat { first * 4096 }
    function End(): nat { (first + pages) * 4096 }
    /** One past the last page. */
    function Last(): nat { first + pages }
  }

  /** Non-empty windows in increasing order, none overlapping the next. */
  predicate Ordered(ws: seq<Window>)
  {
    && (forall i :: 0 <= i < |ws| ==> ws[i].pages > 0)
    && forall i, j :: 0 <= i < j < |ws| ==> ws[i].Last() <= ws[j].first
  }

  predicate Disjoint(a: Window, b: Window)
  {
    a.Last() <= b.first || b.Last() <= a.first
  }

  // --------------------------------------------------------------- insertion

  function InsertAt(ws: seq<Window>, p: nat, w: Window): seq<Window>
    requires p <= |ws|
  {
    ws[..p] + [w] + ws[p..]
  }

  /** Where a key goes: behind every key up to the first that is greater. */
  predicate Place(keys: seq<nat>, key: nat, p: nat)
  {
    p <= |keys| && (forall i :: 0 <= i < p ==> keys[i] <= key) && (p < |keys| ==> keys[p] > key)
  }

  function Offsets(ws: seq<Window>): seq<nat> { seq(|ws|, i requires 0 <= i < |ws| => ws[i].Offset()) }
  function Addresses(ws: seq<Window>): seq<nat> { seq(|ws|, i requires 0 <= i < |ws| => ws[i].va) }

  predicate SortedAddresses(ws: seq<Window>)
  {
    forall i, j :: 0 <= i < j < |ws| ==> ws[i].va <= ws[j].va
  }

  lemma InsertSorted(ws: seq<Window>, p: nat, w: Window)
    requires SortedAddresses(ws) && Place(Addresses(ws), w.va, p)
    ensures SortedAddresses(InsertAt(ws, p, w))
  {
    assert forall j :: 0 <= j < p ==> ws[j].va == Addresses(ws)[j];
  }

  /** Inserting a window that overlaps no other keeps the list ordered. */
  lemma InsertKeepsOrder(ws: seq<Window>, p: nat, w: Window)
    requires Ordered(ws) && w.pages > 0 && Place(Offsets(ws), w.Offset(), p)
    requires forall i :: 0 <= i < |ws| ==> Disjoint(ws[i], w)
    ensures Ordered(InsertAt(ws, p, w))
  {
    forall i | 0 <= i < |ws| ensures if i < p then ws[i].Last() <= w.first else w.Last() <= ws[i].first {
      assert Disjoint(ws[i], w);
      assert i < p ==> Offsets(ws)[i] <= w.Offset();
      assert p < |ws| ==> Offsets(ws)[p] > w.Offset();
      assert p < i ==> ws[p].Last() <= ws[i].first;
    }
  }

  lemma StillDisjoint(ws: seq<Window>, regs: seq<Window>, n: nat)
    requires n < |regs| && multiset(ws) == multiset(regs[..n])
    requires forall i, j :: 0 <= i < j < |regs| ==> Disjoint(regs[i], regs[j])
    ensures forall i :: 0 <= i < |ws| ==> Disjoint(ws[i], regs[n])
  {
    hide Disjoint;
    forall i | 0 <= i < |ws| ensures Disjoint(ws[i], regs[n]) {
      assert ws[i] in multiset(ws);
      assert ws[i] in regs[..n];
    }
  }

  lemma InsertMultiset(ws: seq<Window>, p: nat, w: Window)
    requires p <= |ws|
    ensures multiset(InsertAt(ws, p, w)) == multiset(ws) + multiset{w}
  {
    assert ws == ws[..p] + ws[p..];
  }

  // ------------------------------------------------------------------ queries

  datatype RangeType = WindowPartial | WindowSingle | WindowFull

  datatype QueryResult = Found(index: nat) | NotFound(code: int)

  /** The window grants every access asked for. */
  ghost predicate Allows(w: Window, prot: nat)
  {
    HasAll(w.prot, prot)
  }

  /** The test `(window->prot & req->prot) != req->prot`. */
  lemma ProtectionTest(w: Window, prot: nat)
    ensures And(w.prot, prot) == prot <==> Allows(w, prot)
  {
    hide And, Bit;
    AndKeepsAll(w.prot, prot);
  }

  predicate Holds(w: Window, b: int)
  {
    w.Offset() <= b < w.End()
  }

  /** Byte `b` lies in a window that grants the protection. */
  ghost predicate Covered(ws: seq<Window>, b: int, prot: nat)
  {
    exists i :: 0 <= i < |ws| && Holds(ws[i], b) && Allows(ws[i], prot)
  }

  ghost predicate AllCovered(ws: seq<Window>, lo: int, hi: int, prot: nat)
  {
    forall b :: lo <= b < hi ==> Covered(ws, b, prot)
  }

  /** The first byte not served lies in a window that denies the protection. */
  ghost predicate Denied(ws: seq<Window>, lo: int, hi: int, prot: nat)
  {
    exists i, b :: DeniedAt(ws, lo, hi, prot, i, b)
  }

  ghost predicate DeniedAt(ws: seq<Window>, lo: int, hi: int, prot: nat, i: int, b: int)
  {
    0 <= i < |ws| && lo <= b < hi && Holds(ws[i], b) && !Allows(ws[i], prot) && AllCovered(ws, lo, b, prot)
  }

  /** Windows `k .. m` follow each other without gap and grant the protection. */
  ghost predicate Linked(ws: seq<Window>, k: nat, m: nat, prot: nat)
  {
    && k <= m < |ws|
    && (forall j :: k <= j <= m ==> Allows(ws[j], prot))
    && forall j :: k < j <= m ==> ws[j].first == ws[j - 1].Last()
  }

  /** The bytes `lo .. hi` run from window `k` to window `m`. */
  ghost predicate Spans(ws: seq<Window>, k: nat, m: nat, lo: nat, hi: nat, prot: nat)
  {
    Linked(ws, k, m, prot) && Holds(ws[k], lo) && ws[m].Offset() < hi <= ws[m].End()
  }

  lemma OneHolder(ws: seq<Window>, i: nat, j: nat, b: int)
    requires Ordered(ws) && i < |ws| && j < |ws| && Holds(ws[i], b) && Holds(ws[j], b)
    ensures i == j
  {
  }

  /** No window at all holds byte `b`. */
  predicate InGap(ws: seq<Window>, b: int)
  {
    forall i :: 0 <= i < |ws| ==> !Holds(ws[i], b)
  }

  /** What a query that stopped at byte `b` of `lo .. hi` has established. */
  lemma StoppedAtGap(ws: seq<Window>, lo: int, hi: int, b: int, prot: nat)
    requires Ordered(ws) && lo <= b < hi && AllCovered(ws, lo, b, prot) && InGap(ws, b)
    ensures !AllCovered(ws, lo, hi, prot) && !Denied(ws, lo, hi, prot)
  {
    hide Allows, Ordered;
    assert !Covered(ws, b, prot);
    forall i, x | DeniedAt(ws, lo, hi, prot, i, x) ensures false {
      if x < b { AllowedNotDenied(ws, i, x, prot); }
    }
  }

  lemma AllowedNotDenied(ws: seq<Window>, i: nat, b: int, prot: nat)
    requires Ordered(ws) && i < |ws| && Holds(ws[i], b) && Covered(ws, b, prot)
    ensures Allows(ws[i], prot)
  {
    hide Allows, Ordered, Holds;
    var j :| 0 <= j < |ws| && Holds(ws[j], b) && Allows(ws[j], prot);
    OneHolder(ws, i, j, b);
  }

  lemma StoppedByProtection(ws: seq<Window>, lo: int, hi: int, i: nat, b: int, prot: nat)
    requires Ordered(ws) && DeniedAt(ws, lo, hi, prot, i, b)
    ensures !AllCovered(ws, lo, hi, prot) && Denied(ws, lo, hi, prot)
  {
    hide Allows, Ordered, Holds;
    if Covered(ws, b, prot) { AllowedNotDenied(ws, i, b, prot); }
  }

  lemma AllServed(ws: seq<Window>, lo: int, hi: int, prot: nat)
    requires Ordered(ws) && AllCovered(ws, lo, hi, prot)
    ensures !Denied(ws, lo, hi, prot)
  {
    hide Allows, Ordered, Holds;
    forall i, b | DeniedAt(ws, lo, hi, prot, i, b) ensures false {
      assert Covered(ws, b, prot);
      AllowedNotDenied(ws, i, b, prot);
    }
  }

  lemma CoverMore(ws: seq<Window>, lo: int, mid: int, hi: int, i: nat, prot: nat)
    requires AllCovered(ws, lo, mid, prot) && i < |ws| && Allows(ws[i], prot)
    requires ws[i].Offset() <= mid && hi <= ws[i].End()
    ensures AllCovered(ws, lo, hi, prot)
  {
    hide Allows;
    forall b | lo <= b < hi ensures Covered(ws, b, prot) {
      if b >= mid { assert Holds(ws[i], b); }
    }
  }

  /** Only the window a range ends in can end where the range does. */
  lemma EndsAtWindow(ws: seq<Window>, m: nat, hi: int)
    requires Ordered(ws) && m < |ws| && ws[m].Offset() < hi <= ws[m].End()
    ensures (exists i :: 0 <= i < |ws| && ws[i].End() == hi) <==> hi == ws[m].End()
  {
    if i :| 0 <= i < |ws| && ws[i].End() == hi {
      assert i < m ==> ws[i].Last() <= ws[m].first;
      assert m < i ==> ws[m].Last() <= ws[i].first;
    }
  }

  ghost predicate OneWindowHoldsAll(ws: seq<Window>, lo: int, hi: int, prot: nat)
  {
    exists i :: 0 <= i < |ws| && ws[i].Offset() <= lo && hi <= ws[i].End() && Allows(ws[i], prot)
  }

  ghost predicate HolderDenies(ws: seq<Window>, b: int, prot: nat)
  {
    exists i :: 0 <= i < |ws| && Holds(ws[i], b) && !Allows(ws[i], prot)
  }

  /** The windows before `i` end at or before byte `b`. */
  predicate Passed(ws: seq<Window>, i: nat, b: int)
  {
    i <= |ws| && forall j :: 0 <= j < i ==> ws[j].End() <= b
  }

  lemma GapHere(ws: seq<Window>, i: nat, b: int)
    requires Ordered(ws) && Passed(ws, i, b) && (i < |ws| ==> b < ws[i].Offset())
    ensures InGap(ws, b)
  {
    forall j | 0 <= j < |ws| ensures !Holds(ws[j], b) {
      assert i < j ==> ws[i].Last() <= ws[j].first;
    }
  }

  /** Byte `b` lies in window `j`, which does not grant access `i` asked for. */
  predicate Refuses(ws: seq<Window>, j: int, b: int, prot: nat, i: nat)
    requires 0 <= j < |ws|
  {
    Holds(ws[j], b) && Bit(prot, i) && !Bit(ws[j].prot, i)
  }

  lemma DenialIsRefusal(ws: seq<Window>, lo: nat, hi: nat, prot: nat)
    requires Denied(ws, lo, hi, prot) || (lo < hi && HolderDenies(ws, lo, prot))
    ensures exists j, b, i: nat :: 0 <= j < |ws| && lo <= b < hi && Refuses(ws, j, b, prot, i)
  {
    hide Holds, Bit, AllCovered;
    if Denied(ws, lo, hi, prot) {
      var j, b :| DeniedAt(ws, lo, hi, prot, j, b);
      var i: nat :| Bit(prot, i) && !Bit(ws[j].prot, i);
      assert Refuses(ws, j, b, prot, i);
    } else {
      var j :| 0 <= j < |ws| && Holds(ws[j], lo) && !Allows(ws[j], prot);
      var i: nat :| Bit(prot, i) && !Bit(ws[j].prot, i);
      assert Refuses(ws, j, lo, prot, i);
    }
  }

  /** micscif_query_window. `last` is the window the range ends in. */
  method Query(ws: seq<Window>, offset: nat, nrBytes: nat, prot: nat, kind: RangeType)
    returns (r: QueryResult, last: nat)
    requires Ordered(ws) && nrBytes > 0
    ensures r.Found? ==> Spans(ws, r.index, last, offset, offset + nrBytes, prot)
    ensures kind == WindowPartial ==> (r.Found? <==> AllCovered(ws, offset, offset + nrBytes, prot))
    ensures kind == WindowFull ==> (r.Found? <==> AllCovered(ws, offset, offset + nrBytes, prot)
                                                  && exists i :: 0 <= i < |ws| && ws[i].End() == offset + nrBytes)
    ensures kind == WindowSingle ==> (r.Found? <==> OneWindowHoldsAll(ws, offset, offset + nrBytes, prot))
    ensures r.NotFound? ==> r.code == -ENXIO || r.code == -EPERM
    ensures kind != WindowSingle && r.NotFound? ==>
      (r.code == -EPERM <==> Denied(ws, offset, offset + nrBytes, prot))
    ensures kind == WindowSingle && r.NotFound? ==>
      (r.code == -EPERM <==> HolderDenies(ws, offset, prot))
    ensures r.Found? ==> forall j, i: nat :: r.index <= j <= last && Bit(prot, i) ==> Bit(ws[j].prot, i)
    ensures r == NotFound(-EPERM) ==>
      exists j, b, i: nat :: 0 <= j < |ws| && offset <= b < offset + nrBytes && Refuses(ws, j, b, prot, i)
  {
    if kind == WindowSingle {
      r, last := QuerySingle(ws, offset, nrBytes, prot);
    } else {
      r, last := QueryRange(ws, offset, nrBytes, prot, kind == WindowFull);
    }
    if r == NotFound(-EPERM) { DenialIsRefusal(ws, offset, offset + nrBytes, prot); }
  }

  /** The scan for a range that may run over several windows. */
  method QueryRange(ws: seq<Window>, offset: nat, nrBytes: nat, prot: nat, full: bool)
    returns (r: QueryResult, last: nat)
    requires Ordered(ws) && nrBytes > 0
    ensures r.Found? ==> Spans(ws, r.index, last, offset, offset + nrBytes, prot)
    ensures !full ==> (r.Found? <==> AllCovered(ws, offset, offset + nrBytes, prot))
    ensures full ==> (r.Found? <==> AllCovered(ws, offset, offset + nrBytes, prot)
                                    && exists i :: 0 <= i < |ws| && ws[i].End() == offset + nrBytes)
    ensures r.NotFound? ==> r.code == if Denied(ws, offset, offset + nrBytes, prot) then -EPERM else -ENXIO
  {
    hide Ordered, Allows, AllCovered, Denied, InGap, And;
    var off: nat, left: nat, first: nat, end := offset, nrBytes, 0, offset + nrBytes;
    NothingCovered(ws, offset, prot);
    for i := 0 to |ws|
      invariant offset <= off && off + left == end && left > 0 && Passed(ws, i, off)
      invariant AllCovered(ws, offset, off, prot)
      invariant left < nrBytes ==>
        i > 0 && Linked(ws, first, i - 1, prot) && off == ws[i - 1].End() && Holds(ws[first], offset)
    {
      WindowsAdvance(ws, i);
      if off < ws[i].Offset() {
        GapHere(ws, i, off);
        StoppedAtGap(ws, offset, end, off, prot);
        return NotFound(-ENXIO), 0;
      }
      if off < ws[i].End() {
        ProtectionTest(ws[i], prot);
        if And(ws[i].prot, prot) != prot {
          StoppedByProtection(ws, offset, end, i, off, prot);
          return NotFound(-EPERM), 0;
        }
        if left == nrBytes {
          first := i;
        }
        var chunk := if ws[i].End() - off < left then ws[i].End() - off else left;
        CoverMore(ws, offset, off, off + chunk, i, prot);
        left, off := left - chunk, off + chunk;
        if left == 0 {
          AllServed(ws, offset, end, prot);
          EndsAtWindow(ws, i, end);
          if !full || off == ws[i].End() {
            return Found(first), i;
          }
          return NotFound(-ENXIO), 0;
        }
      }
    }
    GapHere(ws, |ws|, off);
    StoppedAtGap(ws, offset, end, off, prot);
    return NotFound(-ENXIO), 0;
  }

  lemma WindowsAdvance(ws: seq<Window>, i: nat)
    requires Ordered(ws) && i < |ws|
    ensures ws[i].Offset() < ws[i].End() && (i > 0 ==> ws[i - 1].Last() <= ws[i].first)
  {
  }

  lemma NothingCovered(ws: seq<Window>, lo: int, prot: nat)
    ensures AllCovered(ws, lo, lo, prot)
  {
  }

  /** The scan for WINDOW_SINGLE: only the window of the first byte counts. */
  method QuerySingle(ws: seq<Window>, offset: nat, nrBytes: nat, prot: nat)
    returns (r: QueryResult, last: nat)
    requires Ordered(ws) && nrBytes > 0
    ensures r.Found? ==> Spans(ws, r.index, last, offset, offset + nrBytes, prot)
    ensures r.Found? <==> OneWindowHoldsAll(ws, offset, offset + nrBytes, prot)
    ensures r.NotFound? ==> r.code == if HolderDenies(ws, offset, prot) then -EPERM else -ENXIO
  {
    hide Ordered, Allows, And;
    for i := 0 to |ws|
      invariant Passed(ws, i, offset)
    {
      if offset < ws[i].Offset() {
        GapHere(ws, i, offset);
        return NotFound(-ENXIO), 0;
      }
      if offset < ws[i].End() {
        ProtectionTest(ws[i], prot);
        if And(ws[i].prot, prot) != prot {
          forall j | 0 <= j < |ws| && Holds(ws[j], offset) ensures j == i { OneHolder(ws, i, j, offset); }
          return NotFound(-EPERM), 0;
        }
        if nrBytes <= ws[i].End() - offset {
          return Found(i), i;
        }
        forall j | 0 <= j < |ws| && Holds(ws[j], offset) ensures j == i { OneHolder(ws, i, j, offset); }
        return NotFound(-ENXIO), 0;
      }
    }
    GapHere(ws, |ws|, offset);
    return NotFound(-ENXIO), 0;
  }

  // ------------------------------------------------------------ mapping counts

  /** Pages of `w` among the registered pages `lo .. hi`. */
  function Overlap(w: Window, lo: nat, hi: nat): nat
  {
    var a, b := if w.first < lo then lo else w.first, if w.Last() < hi then w.Last() else hi;
    if a < b then b - a else 0
  }

  function MappedWindow(w: Window, lo: nat, hi: nat): Window
  {
    w.(refCount := w.refCount + Overlap(w, lo, hi))
  }

  /** What mapping does: every window counts its pages in the range. */
  function Mapped(ws: seq<Window>, lo: nat, hi: nat): (r: seq<Window>)
    ensures |r| == |ws|
  {
    seq(|ws|, i requires 0 <= i < |ws| => MappedWindow(ws[i], lo, hi))
  }

  function UnmappedWindow(w: Window, lo: nat, hi: nat): seq<Window>
  {
    if Overlap(w, lo, hi) > 0 && w.refCount == Overlap(w, lo, hi) then []
    else [w.(refCount := w.refCount - Overlap(w, lo, hi))]
  }

  /** What unmapping does: counts go down, and a window of the range whose count reaches zero
      is destroyed. */
  function Unmapped(ws: seq<Window>, lo: nat, hi: nat): seq<Window>
  {
    if ws == [] then [] else Unmapped(ws[..|ws| - 1], lo, hi) + UnmappedWindow(ws[|ws| - 1], lo, hi)
  }

  lemma UnmappedSnoc(ws: seq<Window>, w: Window, lo: nat, hi: nat)
    ensures Unmapped(ws + [w], lo, hi) == Unmapped(ws, lo, hi) + UnmappedWindow(w, lo, hi)
  {
    assert (ws + [w])[..|ws|] == ws;
  }

  lemma {:induction false} UnmappedConcat(a: seq<Window>, b: seq<Window>, lo: nat, hi: nat)
    ensures Unmapped(a + b, lo, hi) == Unmapped(a, lo, hi) + Unmapped(b, lo, hi)
    decreases |b|
  {
    hide UnmappedWindow, Unmapped;
    if b == [] {
      assert a + b == a;
      NothingUnmapped(lo, hi);
    } else {
      var n := |b| - 1;
      UnmappedConcat(a, b[..n], lo, hi);
      assert a + b == (a + b[..n]) + [b[n]];
      UnmappedSnoc(a + b[..n], b[n], lo, hi);
      assert b == b[..n] + [b[n]];
      UnmappedSnoc(b[..n], b[n], lo, hi);
    }
  }

  lemma NothingUnmapped(lo: nat, hi: nat)
    ensures Unmapped([], lo, hi) == []
  {
  }

  lemma {:induction false} UnmappedOutside(ws: seq<Window>, lo: nat, hi: nat)
    requires forall i :: 0 <= i < |ws| ==> Overlap(ws[i], lo, hi) == 0
    ensures Unmapped(ws, lo, hi) == ws
  {
    hide Overlap;
    if ws != [] { UnmappedOutside(ws[..|ws| - 1], lo, hi); }
  }

  /** Windows before `k` and after `m` have no page in a range that runs from `k` to `m`. */
  lemma OutsideSpan(ws: seq<Window>, k: nat, m: nat, page: nat, pages: nat, prot: nat, j: nat)
    requires Ordered(ws) && Spans(ws, k, m, page * 4096, (page + pages) * 4096, prot)
    requires j < |ws| && !(k <= j <= m)
    ensures Overlap(ws[j], page, page + pages) == 0
  {
    hide Allows;
    assert j < k ==> ws[j].Last() <= ws[k].first;
    assert m < j ==> ws[m].Last() <= ws[j].first;
  }

  /** The list in the middle of the counting traversal: the windows before `item` are counted. */
  predicate CountedTo(ws: seq<Window>, ws': seq<Window>, item: nat, page: nat, end: nat)
  {
    && |ws'| == |ws| && item <= |ws|
    && forall j :: 0 <= j < |ws| ==> ws'[j] == if j < item then MappedWindow(ws[j], page, end) else ws[j]
  }

  lemma CountStarts(ws: seq<Window>, k: nat, m: nat, page: nat, pages: nat, prot: nat)
    requires Ordered(ws) && Spans(ws, k, m, page * 4096, (page + pages) * 4096, prot)
    ensures CountedTo(ws, ws, k, page, page + pages)
  {
    hide Overlap, Ordered;
    forall j | 0 <= j < k ensures MappedWindow(ws[j], page, page + pages) == ws[j] {
      OutsideSpan(ws, k, m, page, pages, prot, j);
    }
  }

  lemma CountEnds(ws: seq<Window>, ws': seq<Window>, k: nat, m: nat, page: nat, pages: nat, prot: nat)
    requires Ordered(ws) && Spans(ws, k, m, page * 4096, (page + pages) * 4096, prot)
    requires CountedTo(ws, ws', m + 1, page, page + pages)
    ensures ws' == Mapped(ws, page, page + pages)
  {
    hide Overlap, Ordered;
    forall j | m < j < |ws| ensures MappedWindow(ws[j], page, page + pages) == ws[j] {
      OutsideSpan(ws, k, m, page, pages, prot, j);
    }
  }

  /** The list in the middle of the unmapping traversal: `k` windows of `ws` have been dealt with. */
  ghost predicate UnmappedTo(ws: seq<Window>, ws': seq<Window>, k: nat, item: nat, page: nat, end: nat)
  {
    && k <= |ws| && ws' == Unmapped(ws[..k], page, end) + ws[k..]
    && item == |Unmapped(ws[..k], page, end)|
  }

  lemma UnmapStarts(ws: seq<Window>, k: nat, m: nat, page: nat, pages: nat, prot: nat)
    requires Ordered(ws) && Spans(ws, k, m, page * 4096, (page + pages) * 4096, prot)
    ensures k < |ws| && UnmappedTo(ws, ws, k, k, page, page + pages)
  {
    hide Overlap, Ordered, Unmapped;
    forall j | 0 <= j < k ensures Overlap(ws[..k][j], page, page + pages) == 0 {
      OutsideSpan(ws, k, m, page, pages, prot, j);
    }
    UnmappedOutside(ws[..k], page, page + pages);
    assert ws == ws[..k] + ws[k..];
  }

  lemma UnmapEnds(ws: seq<Window>, ws': seq<Window>, k: nat, m: nat, item: nat, page: nat, pages: nat, prot: nat)
    requires Ordered(ws) && Spans(ws, k, m, page * 4096, (page + pages) * 4096, prot)
    requires UnmappedTo(ws, ws', m + 1, item, page, page + pages)
    ensures ws' == Unmapped(ws, page, page + pages)
  {
    hide Overlap, Ordered, Unmapped;
    var rest := ws[m + 1..];
    forall j | 0 <= j < |rest| ensures Overlap(rest[j], page, page + pages) == 0 {
      OutsideSpan(ws, k, m, page, pages, prot, m + 1 + j);
    }
    UnmappedOutside(rest, page, page + pages);
    UnmappedConcat(ws[..m + 1], rest, page, page + pages);
    assert ws == ws[..m + 1] + rest;
  }

  lemma UnmapOneMore(ws: seq<Window>, ws': seq<Window>, k: nat, item: nat, page: nat, end: nat)
    requires k < |ws| && UnmappedTo(ws, ws', k, item, page, end)
    ensures item < |ws'| && ws'[item] == ws[k]
    ensures var kept := UnmappedWindow(ws[k], page, end);
            UnmappedTo(ws, ws'[..item] + kept + ws'[item + 1..], k + 1, item + |kept|, page, end)
  {
    hide UnmappedWindow, Unmapped;
    assert ws[..k + 1] == ws[..k] + [ws[k]];
    UnmappedSnoc(ws[..k], ws[k], page, end);
    var done := Unmapped(ws[..k], page, end);
    assert ws' == done + ws[k..] && ws'[..item] == done && ws'[item + 1..] == ws[k + 1..];
  }

  /** The count of window `w` once it gave up the reference it was made with. */
  function LeftOver(w: Window): int { if w.refCount == 0 then 0 else w.refCount - w.pages }

  /** What scif_recv_unregister does to window `i`: it leaves the list if no reference is left. */
  function Unregistered(ws: seq<Window>, i: nat): seq<Window>
    requires i < |ws|
  {
    if LeftOver(ws[i]) == 0 then ws[..i] + ws[i + 1..] else ws[i := ws[i].(refCount := LeftOver(ws[i]))]
  }

  /** Successor and predecessor in the circular list of `n` windows and its head. */
  function Next(p: nat, n: nat): nat { if p == n then 0 else p + 1 }
  function Prev(p: nat, n: nat): nat { if p == 0 then n else p - 1 }

  /** Where a traversal of the span stands: at window `item`, with pages `loop ..` to go. */
  ghost predicate Walking(ws: seq<Window>, k: nat, m: nat, page: nat, end: nat, item: nat, loop: nat, prot: nat)
  {
    && Spans(ws, k, m, page * 4096, end * 4096, prot) && k <= item <= m
    && loop == (if item == k then page else ws[item].first) && ws[item].first <= loop < ws[item].Last()
    && page <= loop < end
  }

  lemma WalkStarts(ws: seq<Window>, k: nat, m: nat, page: nat, end: nat, prot: nat)
    requires Spans(ws, k, m, page * 4096, end * 4096, prot) && page < end
    ensures k < |ws| && Walking(ws, k, m, page, end, k, page, prot)
  {
    hide Allows;
  }

  lemma WalkFacts(ws: seq<Window>, k: nat, m: nat, page: nat, end: nat, item: nat, loop: nat, prot: nat)
    requires Walking(ws, k, m, page, end, item, loop, prot)
    ensures k <= item <= m < |ws| && page <= loop < end && ws[item].first <= loop < ws[item].Last()
  {
    hide Allows;
  }

  /** A window that does not finish the range is followed by another window of the span: the
      traversal cannot come to the list head. */
  lemma WalkContinues(ws: seq<Window>, k: nat, m: nat, page: nat, end: nat, item: nat, loop: nat, prot: nat)
    requires Ordered(ws) && Walking(ws, k, m, page, end, item, loop, prot)
    ensures var n := if ws[item].Last() - loop < end - loop then ws[item].Last() - loop else end - loop;
      && n == Overlap(ws[item], page, end) && n > 0
      && (n < end - loop ==> item < m && Walking(ws, k, m, page, end, item + 1, loop + n, prot))
      && (n == end - loop ==> item == m)
  {
    hide Allows;
    assert item < m ==> ws[item].Last() <= ws[item + 1].first && ws[item + 1].pages > 0;
    assert item + 1 < m ==> ws[item + 1].Last() <= ws[m].first;
    assert item < m ==> ws[item].Last() <= ws[m].first;
  }

  // ----------------------------------------------------------------- the list

  /** A registration list. The windows are the links of the circular list in order; position
      `|windows|` stands for the list head. */
  class RegistrationList {
    var windows: seq<Window>

    constructor ()
      ensures windows == []
    {
      windows := [];
    }

    /** micscif_insert_window. */
    method InsertWindow(w: Window) returns (p: nat)
      modifies this
      ensures Place(Offsets(old(windows)), w.Offset(), p) && windows == InsertAt(old(windows), p, w)
    {
      var prev, i := -1, 0;
      while i < |windows|
        invariant 0 <= i <= |windows| && prev == i - 1 && windows == old(windows)
        invariant forall j :: 0 <= j < i ==> Offsets(windows)[j] <= w.Offset()
      {
        if windows[i].Offset() > w.Offset() {
          break;
        }
        prev := i;
        i := i + 1;
      }
      p := prev + 1;
      windows := InsertAt(windows, p, w);
    }

    /** micscif_insert_tcw: the shortcut at the tail gives the same list as the full scan. */
    method InsertTcw(w: Window) returns (p: nat)
      requires SortedAddresses(windows)
      modifies this
      ensures Place(Addresses(old(windows)), w.va, p) && windows == InsertAt(old(windows), p, w)
      ensures SortedAddresses(windows)
    {
      if windows != [] && windows[|windows| - 1].va < w.va {
        p := |windows|;
        windows := windows + [w];
        return;
      }
      var prev, i := -1, 0;
      while i < |windows|
        invariant 0 <= i <= |windows| && prev == i - 1 && windows == old(windows)
        invariant forall j :: 0 <= j < i ==> Addresses(windows)[j] <= w.va
      {
        if windows[i].va > w.va {
          break;
        }
        prev := i;
        i := i + 1;
      }
      p := prev + 1;
      InsertSorted(windows, p, w);
      windows := InsertAt(windows, p, w);
    }

    /** micscif_rma_list_mmap. `remapFails` are the pages remap_pfn_range refuses; `vma` lists the
        registered page behind each page of the mapping. */
    method Mmap(start: nat, page: nat, nrPages: nat, remapFails: set<nat>, ghost last: nat, ghost prot: nat)
      returns (ok: bool, vma: seq<nat>)
      requires Ordered(windows) && nrPages > 0
      requires Spans(windows, start, last, page * 4096, (page + nrPages) * 4096, prot)
      modifies this
      ensures ok <==> forall j :: page <= j < page + nrPages ==> j !in remapFails
      ensures ok ==> windows == Mapped(old(windows), page, page + nrPages)
      ensures ok ==> vma == seq(nrPages, j requires 0 <= j => page + j)
      ensures !ok ==> windows == old(windows)
    {
      ok, vma := Remap(start, page, nrPages, remapFails, last, prot);
      if ok {
        CountUp(start, page, nrPages, last, prot);
      }
    }

    /** The first traversal: one remap_pfn_range for each page. */
    method Remap(start: nat, page: nat, nrPages: nat, remapFails: set<nat>, ghost last: nat, ghost prot: nat)
      returns (ok: bool, vma: seq<nat>)
      requires Ordered(windows) && nrPages > 0
      requires Spans(windows, start, last, page * 4096, (page + nrPages) * 4096, prot)
      ensures ok <==> forall j :: page <= j < page + nrPages ==> j !in remapFails
      ensures ok ==> vma == seq(nrPages, j requires 0 <= j => page + j)
    {
      hide Ordered, Spans;
      var head, end := Prev(start, |windows|), page + nrPages;
      WalkStarts(windows, start, last, page, end, prot);
      var item: nat, loop: nat := Next(head, |windows|), page;
      vma := [];
      while item != head
        invariant page <= loop <= end && start <= item < |windows|
        invariant Walking(windows, start, last, page, end, item, loop, prot)
        invariant vma == seq(loop - page, j requires 0 <= j => page + j)
        invariant forall j :: page <= j < loop ==> j !in remapFails
        decreases |windows| - item
      {
        hide Walking;
        WalkFacts(windows, start, last, page, end, item, loop, prot);
        var w := windows[item];
        WalkContinues(windows, start, last, page, end, item, loop, prot);
        var n := if w.Last() - loop < end - loop then w.Last() - loop else end - loop;
        var startPage := loop - w.first;
        for i := 0 to n
          invariant vma == seq(loop + i - page, j requires 0 <= j => page + j)
          invariant forall j :: page <= j < loop + i ==> j !in remapFails
        {
          if loop + i in remapFails {
            return false, vma;
          }
          vma := vma + [w.first + (startPage + i)];
        }
        loop := loop + n;
        if loop == end {
          break;
        }
        item := Next(item, |windows|);
        WalkFacts(windows, start, last, page, end, item, loop, prot);
      }
      assert loop == end;  // the BUG_ON of micscif_rma_list_mmap
      ok := true;
    }

    /** The second traversal: every window of the range counts its pages. */
    method CountUp(start: nat, page: nat, nrPages: nat, ghost last: nat, ghost prot: nat)
      requires Ordered(windows) && nrPages > 0
      requires Spans(windows, start, last, page * 4096, (page + nrPages) * 4096, prot)
      modifies this
      ensures windows == Mapped(old(windows), page, page + nrPages)
    {
      hide Ordered, Spans, Walking, Overlap;
      ghost var ws := windows;
      var head, end := Prev(start, |windows|), page + nrPages;
      WalkStarts(ws, start, last, page, end, prot);
      CountStarts(ws, start, last, page, nrPages, prot);
      var item: nat, loop: nat := Next(head, |windows|), page;
      while item != head
        invariant page <= loop <= end && start <= item < |windows|
        invariant Walking(ws, start, last, page, end, item, loop, prot) && CountedTo(ws, windows, item, page, end)
        decreases |windows| - item
      {
        WalkFacts(ws, start, last, page, end, item, loop, prot);
        WalkContinues(ws, start, last, page, end, item, loop, prot);
        var w := windows[item];
        var n := if w.Last() - loop < end - loop then w.Last() - loop else end - loop;
        windows := windows[item := w.(refCount := w.refCount + n)];
        loop := loop + n;
        if loop == end {
          break;
        }
        item := Next(item, |windows|);
        WalkFacts(ws, start, last, page, end, item, loop, prot);
      }
      assert loop == end;  // the BUG_ON of micscif_rma_list_mmap
      CountEnds(ws, windows, start, last, page, nrPages, prot);
    }

    /** micscif_rma_list_munmap. */
    method Munmap(start: nat, page: nat, nrPages: nat, ghost last: nat, ghost prot: nat)
      requires Ordered(windows) && nrPages > 0
      requires Spans(windows, start, last, page * 4096, (page + nrPages) * 4096, prot)
      modifies this
      ensures windows == Unmapped(old(windows), page, page + nrPages)
    {
      hide Ordered, Spans, Walking, Overlap, UnmappedTo;
      ghost var ws, k := windows, start;
      var end := page + nrPages;
      WalkStarts(ws, start, last, page, end, prot);
      UnmapStarts(ws, start, last, page, nrPages, prot);
      UnmapOneMore(ws, windows, k, start, page, end);
      // The link before `start` stays where it is; the list head moves down with each deletion.
      var item: nat, loop: nat := Next(Prev(start, |windows|), |windows|), page;
      while item != Prev(start, |windows|)
        invariant page <= loop <= end && start <= item < |windows| && start <= k < |ws|
        invariant Walking(ws, start, last, page, end, k, loop, prot) && UnmappedTo(ws, windows, k, item, page, end)
        decreases |ws| - k
      {
        WalkFacts(ws, start, last, page, end, k, loop, prot);
        WalkContinues(ws, start, last, page, end, k, loop, prot);
        UnmapOneMore(ws, windows, k, item, page, end);
        var w := windows[item];
        var n := if w.Last() - loop < end - loop then w.Last() - loop else end - loop;
        var w' := w.(refCount := w.refCount - n);
        if w'.refCount == 0 {
          windows := windows[..item] + [] + windows[item + 1..];
        } else {
          windows := windows[..item] + [w'] + windows[item + 1..];
          item := item + 1;
        }
        k, loop := k + 1, loop + n;
        if loop == end {
          break;
        }
        WalkFacts(ws, start, last, page, end, k, loop, prot);
        UnmapOneMore(ws, windows, k, item, page, end);
      }
      assert loop == end;  // the BUG_ON of micscif_rma_list_munmap
      UnmapEnds(ws, windows, start, last, item, page, nrPages, prot);
    }

    /** scif_recv_unregister for the window the peer names: the full query finds it, and it is
        acknowledged exactly when it leaves the list. */
    method RecvUnregister(i: nat) returns (ack: bool)
      requires Ordered(windows) && i < |windows|
      modifies this
      ensures windows == Unregistered(old(windows), i) && (ack <==> LeftOver(old(windows)[i]) == 0)
    {
      hide Ordered, AllCovered, Denied;
      var w := windows[i];
      NamedWindow(windows, i);
      var r, last := Query(windows, w.Offset(), w.pages * 4096, 0, WindowFull);
      OneHolder(windows, i, r.index, w.Offset());
      var k := r.index;
      if windows[k].refCount != 0 {
        windows := windows[k := windows[k].(refCount := windows[k].refCount - windows[k].pages)];
      }
      ack := windows[k].refCount == 0;
      if ack {
        windows := windows[..k] + windows[k + 1..];
      }
    }
  }

  lemma NamedWindow(ws: seq<Window>, i: nat)
    requires Ordered(ws) && i < |ws|
    ensures ws[i].pages > 0 && Holds(ws[i], ws[i].Offset()) && ws[i].Offset() + ws[i].pages * 4096 == ws[i].End()
    ensures AllCovered(ws, ws[i].Offset(), ws[i].End(), 0)
  {
    forall i: nat ensures !Bit(0, i) { ZeroBit(i); }
    assert Allows(ws[i], 0);
  }

  /** micscif_insert_window called once for each window. */
  method BuildList(regs: seq<Window>) returns (l: RegistrationList)
    requires forall i :: 0 <= i < |regs| ==> regs[i].pages > 0
    requires forall i, j :: 0 <= i < j < |regs| ==> Disjoint(regs[i], regs[j])
    ensures fresh(l) && Ordered(l.windows) && multiset(l.windows) == multiset(regs)
  {
    l := new RegistrationList();
    for n := 0 to |regs|
      invariant fresh(l) && Ordered(l.windows) && multiset(l.windows) == multiset(regs[..n])
    {
      hide Ordered, Place, InsertAt, Offsets;
      ghost var ws := l.windows;
      StillDisjoint(ws, regs, n);
      var p := l.InsertWindow(regs[n]);
      InsertKeepsOrder(ws, p, regs[n]);
      InsertMultiset(ws, p, regs[n]);
      assert regs[..n + 1] == regs[..n] + [regs[n]];
    }
    assert regs[..|regs|] == regs;
  }

  // --------------------------------------------------------------- round trip

  /** Registered pages `lo .. hi`. */
  datatype Range = Range(lo: nat, hi: nat)

  /** Pages of `w` still mapped through one of the ranges. */
  function StillMapped(w: Window, rest: seq<Range>): nat
  {
    if rest == [] then 0 else Overlap(w, rest[0].lo, rest[0].hi) + StillMapped(w, rest[1..])
  }

  function CurrentWindow(w: Window, whole: Range, rest: seq<Range>): seq<Window>
  {
    if Overlap(w, whole.lo, whole.hi) > 0 && w.refCount + StillMapped(w, rest) == 0 then []
    else [w.(refCount := w.refCount + StillMapped(w, rest))]
  }

  /** The list `ws` after mapping `whole` and unmapping all of it but `rest`. With nothing left
      mapped, every window keeps its count, and those of the range that had none are gone. */
  function Current(ws: seq<Window>, whole: Range, rest: seq<Range>): seq<Window>
  {
    if ws == [] then [] else Current(ws[..|ws| - 1], whole, rest) + CurrentWindow(ws[|ws| - 1], whole, rest)
  }

  predicate Within(r: Range, whole: Range)
  {
    whole.lo <= r.lo < r.hi <= whole.hi
  }

  lemma SubrangeOverlap(w: Window, r: Range, whole: Range)
    requires Within(r, whole)
    ensures Overlap(w, r.lo, r.hi) > 0 ==> Overlap(w, whole.lo, whole.hi) > 0
  {
  }

  lemma UnmappedSingle(w: Window, count: int, lo: nat, hi: nat)
    ensures var x := w.(refCount := count); var o := Overlap(w, lo, hi);
      Unmapped([x], lo, hi) == if o > 0 && count == o then [] else [w.(refCount := count - o)]
  {
    var x := w.(refCount := count);
    assert [] + [x] == [x];
    UnmappedSnoc([], x, lo, hi);
    assert Overlap(x, lo, hi) == Overlap(w, lo, hi);
  }

  lemma UnmapOne(w: Window, whole: Range, r: Range, rest: seq<Range>)
    requires w.refCount >= 0 && Within(r, whole)
    ensures Unmapped(CurrentWindow(w, whole, [r] + rest), r.lo, r.hi) == CurrentWindow(w, whole, rest)
  {
    hide Overlap, Unmapped, Within;
    assert ([r] + rest)[1..] == rest;
    assert StillMapped(w, [r] + rest) == Overlap(w, r.lo, r.hi) + StillMapped(w, rest);
    hide StillMapped;
    SubrangeOverlap(w, r, whole);
    UnmappedSingle(w, w.refCount + StillMapped(w, [r] + rest), r.lo, r.hi);
    UnmappedOutside([], r.lo, r.hi);
  }

  /** Unmapping one of the remaining ranges. */
  lemma {:induction false} UnmapStep(ws: seq<Window>, whole: Range, r: Range, rest: seq<Range>)
    requires (forall w :: w in ws ==> w.refCount >= 0) && Within(r, whole)
    ensures Unmapped(Current(ws, whole, [r] + rest), r.lo, r.hi) == Current(ws, whole, rest)
  {
    hide CurrentWindow, Unmapped;
    if ws == [] {
      UnmappedOutside([], r.lo, r.hi);
    } else {
      var n := |ws| - 1;
      assert ws[n] in ws;
      UnmapStep(ws[..n], whole, r, rest);
      UnmapOne(ws[n], whole, r, rest);
      UnmappedConcat(Current(ws[..n], whole, [r] + rest), CurrentWindow(ws[n], whole, [r] + rest), r.lo, r.hi);
    }
  }

  /** The pieces a range is cut into. */
  function Pieces(cuts: seq<nat>): (r: seq<Range>)
    requires cuts != []
    ensures |r| == |cuts| - 1
  {
    seq(|cuts| - 1, i requires 0 <= i < |cuts| - 1 => Range(cuts[i], cuts[i + 1]))
  }

  predicate Increasing(cuts: seq<nat>)
  {
    forall i :: 0 <= i < |cuts| - 1 ==> cuts[i] < cuts[i + 1]
  }

  lemma {:induction false} FirstAtMost(cuts: seq<nat>, i: nat)
    requires Increasing(cuts) && i < |cuts|
    ensures cuts[0] <= cuts[i]
  {
    if i > 0 { FirstAtMost(cuts, i - 1); }
  }

  lemma {:induction false} AtMostLast(cuts: seq<nat>, i: nat)
    requires Increasing(cuts) && i < |cuts|
    ensures cuts[i] <= cuts[|cuts| - 1]
    decreases |cuts| - i
  {
    if i < |cuts| - 1 { AtMostLast(cuts, i + 1); }
  }

  /** The pieces together hold exactly the pages of the whole range. */
  lemma {:induction false} PiecesAddUp(w: Window, cuts: seq<nat>)
    requires cuts != [] && Increasing(cuts)
    ensures StillMapped(w, Pieces(cuts)) == Overlap(w, cuts[0], cuts[|cuts| - 1])
  {
    if |cuts| > 1 {
      assert Pieces(cuts)[1..] == Pieces(cuts[1..]);
      PiecesAddUp(w, cuts[1..]);
      AtMostLast(cuts, 1);
    }
  }

  lemma {:induction false} TakeOut(w: Window, rs: seq<Range>, j: nat)
    requires j < |rs|
    ensures StillMapped(w, rs) == Overlap(w, rs[j].lo, rs[j].hi) + StillMapped(w, rs[..j] + rs[j + 1..])
  {
    hide Overlap;
    if j == 0 {
      assert rs[..0] + rs[1..] == rs[1..];
    } else {
      TakeOut(w, rs[1..], j - 1);
      var less := rs[..j] + rs[j + 1..];
      assert less[1..] == rs[1..][..j - 1] + rs[1..][j..];
    }
  }

  lemma RemoveOne(rs: seq<Range>, j: nat)
    requires j < |rs|
    ensures multiset(rs) == multiset(rs[..j] + rs[j + 1..]) + multiset{rs[j]}
  {
    assert rs == rs[..j] + [rs[j]] + rs[j + 1..];
  }

  /** The order of the pieces does not matter. */
  lemma {:induction false} SameSum(w: Window, a: seq<Range>, b: seq<Range>)
    requires multiset(a) == multiset(b)
    ensures StillMapped(w, a) == StillMapped(w, b)
    decreases |a|
  {
    hide Overlap;
    if a == [] {
      assert |multiset(b)| == 0;
      assert b == [];
    } else {
      assert a[0] in multiset(b);
      var j :| 0 <= j < |b| && b[j] == a[0];
      assert multiset(a[1..]) == multiset(a) - multiset{a[0]} by { assert a == [a[0]] + a[1..]; }
      RemoveOne(b, j);
      assert multiset(b[..j] + b[j + 1..]) == multiset(b) - multiset{b[j]};
      SameSum(w, a[1..], b[..j] + b[j + 1..]);
      TakeOut(w, b, j);
    }
  }

  /** Mapping the whole range is the list with all pieces still mapped. */
  lemma {:induction false} MapStart(ws: seq<Window>, cuts: seq<nat>, order: seq<Range>)
    requires cuts != [] && Increasing(cuts) && multiset(order) == multiset(Pieces(cuts))
    requires forall w :: w in ws ==> w.refCount >= 0
    ensures Current(ws, Range(cuts[0], cuts[|cuts| - 1]), order) == Mapped(ws, cuts[0], cuts[|cuts| - 1])
  {
    hide Overlap, StillMapped, Pieces, Increasing;
    if ws != [] {
      var n := |ws| - 1;
      MapStart(ws[..n], cuts, order);
      SameSum(ws[n], order, Pieces(cuts));
      PiecesAddUp(ws[n], cuts);
      assert ws[n] in ws;
    }
  }

  // ---------------------------------------- the remaining pieces stay mapped

  /** A window with a page still mapped is still in the list. */
  lemma {:induction false} StillThere(ws: seq<Window>, whole: Range, rest: seq<Range>, i: nat)
    requires i < |ws| && ws[i].refCount >= 0 && StillMapped(ws[i], rest) > 0
    ensures ws[i].(refCount := ws[i].refCount + StillMapped(ws[i], rest)) in Current(ws, whole, rest)
  {
    hide Overlap, StillMapped;
    if i < |ws| - 1 { StillThere(ws[..|ws| - 1], whole, rest, i); }
  }

  /** Every window of the current list is one of the original windows, with its own count. */
  lemma {:induction false} FromOriginal(ws: seq<Window>, whole: Range, rest: seq<Range>, x: Window)
    requires x in Current(ws, whole, rest)
    ensures exists i :: 0 <= i < |ws| && x == ws[i].(refCount := x.refCount)
  {
    hide Overlap, StillMapped;
    var n := |ws| - 1;
    if x in Current(ws[..n], whole, rest) {
      FromOriginal(ws[..n], whole, rest, x);
      var i :| 0 <= i < n && x == ws[..n][i].(refCount := x.refCount);
      assert x == ws[i].(refCount := x.refCount);
    } else {
      assert x == ws[n].(refCount := x.refCount);
    }
  }

  lemma {:induction false} CurrentOrdered(ws: seq<Window>, whole: Range, rest: seq<Range>)
    requires Ordered(ws)
    ensures Ordered(Current(ws, whole, rest))
  {
    hide Overlap, StillMapped;
    if ws != [] {
      var n := |ws| - 1;
      CurrentOrdered(ws[..n], whole, rest);
      var front := Current(ws[..n], whole, rest);
      forall j | 0 <= j < |front| ensures front[j].Last() <= ws[n].first {
        FromOriginal(ws[..n], whole, rest, front[j]);
      }
    }
  }

  lemma {:induction false} PieceMapped(w: Window, rest: seq<Range>, r: Range)
    requires r in rest && Overlap(w, r.lo, r.hi) > 0
    ensures StillMapped(w, rest) > 0
  {
    hide Overlap;
    if rest[0] != r { PieceMapped(w, rest[1..], r); }
  }

  /** A piece that is still mapped can still be found, whatever was unmapped before. */
  lemma PieceCovered(ws: seq<Window>, whole: Range, rest: seq<Range>, r: Range, prot: nat)
    requires Ordered(ws) && (forall w :: w in ws ==> w.refCount >= 0) && r in rest && Within(r, whole)
    requires AllCovered(ws, whole.lo * 4096, whole.hi * 4096, prot)
    ensures AllCovered(Current(ws, whole, rest), r.lo * 4096, r.hi * 4096, prot)
  {
    hide Allows, Ordered, Current, StillMapped;
    var cur := Current(ws, whole, rest);
    forall b | r.lo * 4096 <= b < r.hi * 4096 ensures Covered(cur, b, prot) {
      assert Covered(ws, b, prot);
      var i :| 0 <= i < |ws| && Holds(ws[i], b) && Allows(ws[i], prot);
      PageInside(ws[i], r, b);
      PieceMapped(ws[i], rest, r);
      assert ws[i] in ws;
      StillThere(ws, whole, rest, i);
      var x := ws[i].(refCount := ws[i].refCount + StillMapped(ws[i], rest));
      var j :| 0 <= j < |cur| && cur[j] == x;
      SameProtection(ws[i], x, prot);
      assert Holds(cur[j], b) && Allows(cur[j], prot);
    }
  }

  lemma SameProtection(w: Window, x: Window, prot: nat)
    requires x.prot == w.prot
    ensures Allows(x, prot) == Allows(w, prot)
  {
  }

  lemma PageInside(w: Window, r: Range, b: int)
    requires Holds(w, b) && r.lo * 4096 <= b < r.hi * 4096
    ensures Overlap(w, r.lo, r.hi) > 0
  {
    var p := b / 4096;
    assert p * 4096 <= b < (p + 1) * 4096;
    assert w.first <= p < w.Last() && r.lo <= p < r.hi;
  }

  /** The pieces of a cut-up range, in some order. */
  predicate PiecesOf(order: seq<Range>, cuts: seq<nat>)
  {
    cuts != [] && Increasing(cuts) && multiset(order) == multiset(Pieces(cuts))
  }

  lemma PieceWithin(order: seq<Range>, cuts: seq<nat>, r: Range)
    requires PiecesOf(order, cuts) && r in order
    ensures Within(r, Range(cuts[0], cuts[|cuts| - 1]))
  {
    assert r in multiset(order);
    assert r in Pieces(cuts);
    var i :| 0 <= i < |cuts| - 1 && Pieces(cuts)[i] == r;
    FirstAtMost(cuts, i);
    AtMostLast(cuts, i + 1);
  }

  predicate CountsPositive(ws: seq<Window>, whole: Range)
  {
    forall w :: w in ws && Overlap(w, whole.lo, whole.hi) > 0 ==> w.refCount != 0
  }

  /** With nothing left mapped the list is what it was exactly when every window of the range
      had been counted before. */
  lemma {:induction false} RestoredExactly(ws: seq<Window>, whole: Range)
    ensures |Current(ws, whole, [])| <= |ws|
    ensures Current(ws, whole, []) == ws <==> CountsPositive(ws, whole)
  {
    hide Overlap;
    if ws != [] {
      var n := |ws| - 1;
      RestoredExactly(ws[..n], whole);
      assert ws == ws[..n] + [ws[n]];
      assert StillMapped(ws[n], []) == 0;
      LastDecides(ws, whole);
    }
  }

  lemma LastDecides(ws: seq<Window>, whole: Range)
    requires ws != []
    ensures var n := |ws| - 1;
      CountsPositive(ws, whole) <==> CountsPositive(ws[..n], whole) && CountsPositive([ws[n]], whole)
    ensures var n := |ws| - 1;
      CountsPositive([ws[n]], whole) <==> (Overlap(ws[n], whole.lo, whole.hi) > 0 ==> ws[n].refCount != 0)
  {
    hide Overlap;
    assert ws == ws[..|ws| - 1] + [ws[|ws| - 1]];
  }

  /** A mapping and the unmapping of its pieces in any order, each after its own query: no
      query fails, no traversal leaves the range, and at the end every window has the count it
      began with, except that windows of the range that had none are destroyed. */
  method MapThenUnmap(l: RegistrationList, cuts: seq<nat>, order: seq<Range>, prot: nat) returns (ok: bool)
    requires Ordered(l.windows) && (forall w :: w in l.windows ==> w.refCount >= 0)
    requires PiecesOf(order, cuts) && |cuts| > 1
    modifies l
    ensures ok <==> AllCovered(old(l.windows), cuts[0] * 4096, cuts[|cuts| - 1] * 4096, prot)
    ensures ok ==> l.windows == Current(old(l.windows), Range(cuts[0], cuts[|cuts| - 1]), [])
    ensures (forall w <- old(l.windows) :: w.refCount > 0) ==> l.windows == old(l.windows)
    ensures !ok ==> l.windows == old(l.windows)
  {
    hide Ordered, AllCovered, Spans, Current, Mapped, Unmapped, PiecesOf, Within;
    ghost var ws := l.windows;
    var lo, hi := cuts[0], cuts[|cuts| - 1];
    ghost var whole := Range(lo, hi);
    CutsGrow(order, cuts);
    var r, last := Query(l.windows, lo * 4096, hi * 4096 - lo * 4096, prot, WindowPartial);
    if r.NotFound? {
      return false;
    }
    var mapped, vma := l.Mmap(r.index, lo, hi - lo, {}, last, prot);
    StartsMapped(ws, cuts, order);
    for n := 0 to |order|
      invariant l.windows == Current(ws, whole, order[n..])
    {
      hide StillMapped, CurrentWindow;
      var piece := order[n];
      assert order[n..] == [piece] + order[n + 1..] && piece in order[n..] && piece in order;
      PieceWithin(order, cuts, piece);
      WithinFacts(piece, whole);
      CurrentOrdered(ws, whole, order[n..]);
      PieceCovered(ws, whole, order[n..], piece, prot);
      r, last := Query(l.windows, piece.lo * 4096, piece.hi * 4096 - piece.lo * 4096, prot, WindowPartial);
      l.Munmap(r.index, piece.lo, piece.hi - piece.lo, last, prot);
      UnmapStep(ws, whole, piece, order[n + 1..]);
    }
    assert order[|order|..] == [];
    RestoredExactly(ws, whole);
    ok := true;
  }

  lemma CutsGrow(order: seq<Range>, cuts: seq<nat>)
    requires PiecesOf(order, cuts) && |cuts| > 1
    ensures cuts[0] < cuts[|cuts| - 1]
  {
    AtMostLast(cuts, 1);
  }

  lemma StartsMapped(ws: seq<Window>, cuts: seq<nat>, order: seq<Range>)
    requires PiecesOf(order, cuts) && forall w :: w in ws ==> w.refCount >= 0
    ensures Current(ws, Range(cuts[0], cuts[|cuts| - 1]), order[0..]) == Mapped(ws, cuts[0], cuts[|cuts| - 1])
  {
    assert order[0..] == order;
    MapStart(ws, cuts, order);
  }

  lemma WithinFacts(r: Range, whole: Range)
    requires Within(r, whole)
    ensures r.lo < r.hi
  {
  }
}
