/** The entry points of micscif/micscif_rma_dma.c on top of the copy loop: the aligned
    DMA copy, the processor copy, and the copy through a staging buffer. */
module RmaEngine {
  import opened Bits
  import opened Copying
  import opened RmaWindows
  import opened RmaCopy

  // ----------------------------------------------- processor copies in a page

  /** The `n` bytes from `done` on stay in one page of a registered side. */
  predicate InOnePage(s: Side, done: nat, n: nat)
  {
    s.Registered? ==> InPage(s.off + done) + n <= 4096
  }

  lemma PageFits(off: nat, n: nat, limit: nat)
    requires InPage(off) + limit <= 4096 && 0 < n <= limit
    requires n < limit ==> (off + n) % 4096 == 0
    ensures n == limit
  {
  }

  /** Processor copies, none of which leaves its page on a registered side. */
  ghost predicate PagePieces(src: Side, dst: Side, ops: seq<Op>)
  {
    forall op :: op in ops ==>
      && op.Copy? && op.p.via == Cpu
      && (src.Registered? ==> InPage(op.p.src) + op.p.len <= 4096)
      && (dst.Registered? ==> InPage(op.p.dst) + op.p.len <= 4096)
  }

  /** One memcpy of `n` bytes of one page; with `byteLast`, ordered_memcpy, which stores the
      last byte on its own after the others. */
  method PageCopy(src: Side, dst: Side, len: nat, done: nat, n: nat, byteLast: bool,
                  scur: Cursor, dcur: Cursor, reset: bool, ops: seq<Op>)
    returns (added: seq<Op>, scur': Cursor, dcur': Cursor)
    requires Issued(src, dst, len, ops, done) && CursorAt(src, scur, done) && CursorAt(dst, dcur, done)
    requires 0 < n && done + n <= len && InOnePage(src, done, n) && InOnePage(dst, done, n)
    ensures Issued(src, dst, len, ops + added, done + n)
    ensures CursorAt(src, scur', done + n) && CursorAt(dst, dcur', done + n)
    ensures |added| == (if byteLast then 2 else 1) && PagePieces(src, dst, added)
    ensures added[|added| - 1].Copy? && added[|added| - 1].p.len == if byteLast then 1 else n
  {
    hide Issued, CursorAt, Covers, At;
    IssuedCovers(src, dst, len, ops, done);
    scur' := Hop(src, len, scur, done, reset);
    dcur' := Hop(dst, len, dcur, done, reset);
    var sAddr, n1, sc, dAddr, n2, dc;
    scur', sAddr, n1, sc := Locate(src, len, scur', done, n);
    dcur', dAddr, n2, dc := Locate(dst, len, dcur', done, n);
    if src.Registered? { PageFits(src.off + done, n1, n); }
    if dst.Registered? { PageFits(dst.off + done, n2, n); }
    AtAligned(src, len, done, n, scur'.k, sc, sAddr);
    AtAligned(dst, len, done, n, dcur'.k, dc, dAddr);
    CursorMoves(src, scur', done, n, sc, sAddr, n);
    CursorMoves(dst, dcur', done, n, dc, dAddr, n);
    var p := Piece(Cpu, sAddr, dAddr, n);
    if byteLast {
      IssueByteLast(src, dst, len, done, ops, p, scur'.k, sc, dcur'.k, dc);
      added := [Copy(p.(len := n - 1)), Copy(Piece(Cpu, sAddr + (n - 1), dAddr + (n - 1), 1))];
      InPageShift(sAddr, n);
      InPageShift(dAddr, n);
    } else {
      Issue(src, dst, len, ops, done, p, scur'.k, sc, dcur'.k, dc);
      added := [Copy(p)];
    }
  }

  lemma InPageShift(a: nat, n: nat)
    requires n > 0
    ensures InPage(a) + n <= 4096 ==> InPage(a + (n - 1)) + 1 <= 4096
  {
  }

  lemma IssueByteLast(src: Side, dst: Side, len: nat, done: nat, ops: seq<Op>, p: Piece,
                      sk: nat, sc: nat, dk: nat, dc: nat)
    requires Issued(src, dst, len, ops, done) && 0 < p.len && done + p.len <= len
    requires At(src, done, p.len, sk, sc, p.src) && At(dst, done, p.len, dk, dc, p.dst)
    ensures var n := p.len - 1;
      Issued(src, dst, len, ops + [Copy(p.(len := n)), Copy(Piece(p.via, p.src + n, p.dst + n, 1))], done + p.len)
  {
    hide Issued, At;
    var n := p.len - 1;
    var a, b := p.(len := n), Piece(p.via, p.src + n, p.dst + n, 1);
    AtShorter(src, done, p.len, sk, sc, p.src, 0, n);
    AtShorter(dst, done, p.len, dk, dc, p.dst, 0, n);
    Issue(src, dst, len, ops, done, a, sk, sc, dk, dc);
    AtShorter(src, done, p.len, sk, sc, p.src, n, 1);
    AtShorter(dst, done, p.len, dk, dc, p.dst, n, 1);
    Issue(src, dst, len, ops + [Copy(a)], done + n, b, sk, sc, dk, dc);
    assert ops + [Copy(a)] + [Copy(b)] == ops + [Copy(a), Copy(b)];
  }

  // ------------------------------------------------------- processor-only copy

  /** micscif_rma_list_cpu_copy. */
  method CpuCopy(src: Side, dst: Side, len: nat) returns (ops: seq<Op>)
    requires src.Registered? && dst.Registered? && Covers(src, len) && Covers(dst, len)
    ensures Issued(src, dst, len, ops, len) && PagePieces(src, dst, ops)
  {
    hide Issued, CursorAt, Covers, PagePieces;
    NothingIssued(src, dst, len);
    FirstCursorAt(src, len);
    FirstCursorAt(dst, len);
    ops := [];
    NoPagePieces(src, dst);
    var scur, dcur := FirstCursor(src), FirstCursor(dst);
    var done: nat, remaining: nat := 0, len;
    while remaining > 0
      invariant done + remaining == len && Issued(src, dst, len, ops, done) && PagePieces(src, dst, ops)
      invariant CursorAt(src, scur, done) && CursorAt(dst, dcur, done)
    {
      var s, d := InPage(src.off + done), InPage(dst.off + done);
      var n := 4096 - (if s > d then s else d);
      if remaining < n {
        n := remaining;
      }
      var added;
      added, scur, dcur := PageCopy(src, dst, len, done, n, false, scur, dcur, false, ops);
      MorePagePieces(src, dst, ops, added);
      ops, done, remaining := ops + added, done + n, remaining - n;
    }
  }

  lemma NoPagePieces(src: Side, dst: Side)
    ensures PagePieces(src, dst, [])
  {
  }

  lemma MorePagePieces(src: Side, dst: Side, a: seq<Op>, b: seq<Op>)
    requires PagePieces(src, dst, a) && PagePieces(src, dst, b)
    ensures PagePieces(src, dst, a + b)
  {
  }

  // ------------------------------------------------- head, body, tail with DMA

  /** Position of a side within its cache line. */
  function Phase(s: Side): nat
  {
    (if s.Registered? then s.off else s.addr) % 64
  }

  /** Bytes before the first cache line boundary, and after the last. */
  function HeadLen(phase: nat, len: nat): nat
    requires phase < 64
  {
    if phase == 0 then 0 else if 64 - phase < len then 64 - phase else len
  }

  function TailLen(phase: nat, len: nat): nat
    requires phase < 64
  {
    (len - HeadLen(phase, len)) % 64
  }

  /** The head reaches the first cache line boundary or the end, no further, and is empty when there
      is nothing to align; the tail is what whole cache lines leave over. */
  lemma HeadAndTail(phase: nat, len: nat)
    requires phase < 64
    ensures var head, tail := HeadLen(phase, len), TailLen(phase, len);
      && head <= len && phase + head <= 64 && (phase == 0 ==> head == 0) && (head < len ==> (phase + head) % 64 == 0)
      && tail < 64 && head + tail <= len && (len - head - tail) % 64 == 0
  {
  }

  lemma LineInPage(off: nat, n: nat)
    requires off % 64 + n <= 64
    ensures InPage(off) + n <= 4096
  {
  }

  lemma HeadFits(s: Side, len: nat)
    ensures InOnePage(s, 0, HeadLen(Phase(s), len))
    ensures HeadLen(Phase(s), len) < len ==> LineAligned(s, HeadLen(Phase(s), len))
  {
    if s.Registered? && HeadLen(Phase(s), len) > 0 { LineInPage(s.off, HeadLen(Phase(s), len)); }
  }

  lemma TailFits(s: Side, done: nat, tail: nat)
    requires LineAligned(s, done) && tail < 64
    ensures InOnePage(s, done, tail)
  {
    if s.Registered? { LineInPage(s.off + done, tail); }
  }

  ghost predicate AllCpu(ops: seq<Op>)
  {
    forall i :: 0 <= i < |ops| ==> ops[i].Copy? && ops[i].p.via == Cpu
  }

  /** The unaligned bytes before the body. */
  method Head(src: Side, dst: Side, len: nat, byteLast: bool)
    returns (ops: seq<Op>, done: nat, scur: Cursor, dcur: Cursor)
    requires Covers(src, len) && Covers(dst, len) && len > 0 && Phase(src) == Phase(dst)
    ensures done == HeadLen(Phase(src), len) && Issued(src, dst, len, ops, done) && AllCpu(ops)
    ensures CursorAt(src, scur, done) && CursorAt(dst, dcur, done)
    ensures done < len ==> LineAligned(src, done) && LineAligned(dst, done)
    ensures done == len ==> ops != [] && ops[|ops| - 1].p.len == if byteLast then 1 else len
  {
    hide Issued, CursorAt, Covers, LineAligned;
    NothingIssued(src, dst, len);
    FirstCursorAt(src, len);
    FirstCursorAt(dst, len);
    HeadFits(src, len);
    HeadFits(dst, len);
    ops, done := [], HeadLen(Phase(src), len);
    scur, dcur := FirstCursor(src), FirstCursor(dst);
    if done > 0 {
      ops, scur, dcur := PageCopy(src, dst, len, 0, done, byteLast && done == len, scur, dcur, true, []);
      assert [] + ops == ops;
    }
  }

  /** The bytes after the body, after a drain in ordered mode. */
  method Tail(src: Side, dst: Side, len: nat, ordered: bool, byteLast: bool, done: nat,
              scur: Cursor, dcur: Cursor, ops: seq<Op>)
    returns (ops': seq<Op>)
    requires Issued(src, dst, len, ops, done) && DmaAligned(ops) && done < len < done + 64
    requires CursorAt(src, scur, done) && CursorAt(dst, dcur, done)
    requires LineAligned(src, done) && LineAligned(dst, done)
    ensures Issued(src, dst, len, ops', len) && DmaAligned(ops')
    ensures ordered ==> LastIsLast(ops')
    ensures ops' != [] && ops'[|ops'| - 1].Copy? && ops'[|ops'| - 1].p.len == if byteLast then 1 else len - done
  {
    hide Issued, CursorAt, Covers, LineAligned, LastIsLast;
    TailFits(src, done, len - done);
    TailFits(dst, done, len - done);
    ops' := ops;
    if ordered {
      IssueFence(src, dst, len, ops, done, Drain);
      ops' := ops + [Drain];
    }
    var added, scur', dcur' := PageCopy(src, dst, len, done, len - done, byteLast, scur, dcur, true, ops');
    if ordered { TailOrder(ops, added); }
    ops' := ops' + added;
  }

  lemma TailOrder(ops: seq<Op>, added: seq<Op>)
    requires added != [] && AllCpu(added)
    ensures LastIsLast(ops + [Drain] + added)
  {
    var all := ops + [Drain] + added;
    forall i | 0 <= i < |all| - 1 && all[i].Copy? ensures Before(all, i, |all| - 1) {
      if i < |ops| { assert all[|ops|] == Drain; }
    }
  }

  /** After the body alone, the last piece is last when it was split, or when no other DMA
      request precedes it. */
  lemma BodyOrder(before: seq<Op>, ops: seq<Op>, count: nat, last: nat, split: bool)
    requires AllCpu(before) && BodyOps(before, ops, count, last, split)
    ensures LastIsLast(ops) <==> split || count <= 1
  {
    if split {
      assert ops[|ops| - 2] == Status;
    } else if count <= 1 {
      forall i | 0 <= i < |ops| - 1 ensures ops[i].p.via == Cpu { assert ops[i] == before[i]; }
    } else {
      assert !Before(ops, |before|, |ops| - 1);
    }
  }

  lemma CpuIsDmaAligned(ops: seq<Op>)
    requires AllCpu(ops)
    ensures DmaAligned(ops)
  {
  }

  /** Ordered mode keeps the last bytes last: there is a tail, or at most one cache line follows
      the head, or no chunk of either side starts at the last cache line. */
  ghost predicate OrderKept(src: Side, dst: Side, len: nat)
  {
    var phase := Phase(src);
    TailLen(phase, len) > 0 || len - HeadLen(phase, len) <= 64 || !EitherBoundary(src, dst, len - 64)
  }

  /** Length of the piece issued last in ordered mode. */
  function LastLen(phase: nat, len: nat, byteLast: bool): nat
    requires phase < 64
  {
    var tail := TailLen(phase, len);
    if tail == 0 && HeadLen(phase, len) < len then 64 else if byteLast then 1 else if tail > 0 then tail else len
  }

  /** Head, body and tail. `split` and `byteLast` are the two ways the last bytes are ordered. */
  method HeadBodyTail(src: Side, dst: Side, len: nat, ordered: bool, split: bool, byteLast: bool)
    returns (ops: seq<Op>, last: nat, count: nat)
    requires Covers(src, len) && Covers(dst, len) && len > 0 && Phase(src) == Phase(dst)
    ensures Issued(src, dst, len, ops, len) && DmaAligned(ops)
    ensures ordered && split ==> (LastIsLast(ops) <==> OrderKept(src, dst, len))
    ensures split ==>
      ops != [] && ops[|ops| - 1].Copy? && ops[|ops| - 1].p.len == LastLen(Phase(src), len, byteLast)
    ensures TailLen(Phase(src), len) == 0 ==>
      exists head :: AllCpu(head) && BodyOps(head, ops, count, last, split && last != 64 && count > 0)
  {
    hide Issued, CursorAt, Covers, LineAligned, LastIsLast, DmaAligned, EitherBoundary, LastStart;
    var head, done, scur, dcur := Head(src, dst, len, byteLast);
    var tail := TailLen(Phase(src), len);
    var body := len - done - tail;
    CpuIsDmaAligned(head);
    ops, scur, dcur, last, count := Body(src, dst, len, split, tail, body, done, scur, dcur, head);
    BodyOrder(head, ops, count, last, split && tail == 0 && last != 64 && count > 0);
    OneLineLeft(src, dst, done, body, last, count);
    if tail > 0 {
      StillAligned(src, done, body);
      StillAligned(dst, done, body);
      ops := Tail(src, dst, len, ordered, byteLast, done + body, scur, dcur, ops);
    }
  }

  /** micscif_rma_list_dma_copy_aligned: equal cache line offsets on both sides. */
  method DmaCopyAligned(src: Side, dst: Side, len: nat, ordered: bool)
    returns (ops: seq<Op>, last: nat, count: nat)
    requires src.Registered? && dst.Registered? && Covers(src, len) && Covers(dst, len) && len > 0
    requires src.off % 64 == dst.off % 64
    ensures Issued(src, dst, len, ops, len) && DmaAligned(ops)
    ensures ordered ==> (LastIsLast(ops) <==> OrderKept(src, dst, len))
    ensures ordered ==>
      ops != [] && ops[|ops| - 1].Copy? && ops[|ops| - 1].p.len == LastLen(src.off % 64, len, false)
    ensures TailLen(src.off % 64, len) == 0 ==>
      exists head :: AllCpu(head) && BodyOps(head, ops, count, last, ordered && last != 64 && count > 0)
  {
    hide Issued, LastIsLast, OrderKept, Covers, DmaAligned, BodyOps, AllCpu;
    ops, last, count := HeadBodyTail(src, dst, len, ordered, ordered, false);
  }

  /** A source of two chunks, a page and two pages, and a destination of one chunk. */
  const SCATTERED := Registered([Window(0, [Chunk(0, 1), Chunk(8192, 2)])], 0)
  const CONTIGUOUS := Registered([Window(0, [Chunk(40960, 2)])], 0)

  lemma OrderLostHere()
    ensures Covers(SCATTERED, 4160) && Covers(CONTIGUOUS, 4160) && !OrderKept(SCATTERED, CONTIGUOUS, 4160)
  {
    var a, b := SCATTERED.ws[0].chunks, CONTIGUOUS.ws[0].chunks;
    assert Start(a, 0) == 0 && Start(a, 1) == 4096 && Start(a, 2) == 12288;
    assert Start(b, 0) == 0 && Start(b, 1) == 8192;
    assert StartsChunk(SCATTERED, 0, 1, 4096);
  }

  /** An ordered copy of 4160 bytes between them is not ordered: its last cache line goes out
      behind the first page with no status descriptor in between. */
  method OrderLost() returns (ops: seq<Op>)
    ensures Issued(SCATTERED, CONTIGUOUS, 4160, ops, 4160) && !LastIsLast(ops)
  {
    hide Issued, LastIsLast, OrderKept, Covers;
    OrderLostHere();
    var last, count;
    ops, last, count := DmaCopyAligned(SCATTERED, CONTIGUOUS, 4160, true);
  }

  // ------------------------------------------------- through a staging buffer

  /** micscif_rma_local_cpu_copy between local windows and the staging buffer; exactly one of
      the sides is registered. */
  method LocalCpuCopy(src: Side, dst: Side, len: nat) returns (ops: seq<Op>)
    requires src.Registered? != dst.Registered? && Covers(src, len) && Covers(dst, len) && len > 0
    ensures Issued(src, dst, len, ops, len) && PagePieces(src, dst, ops)
  {
    hide Issued, CursorAt, Covers, PagePieces;
    NothingIssued(src, dst, len);
    FirstCursorAt(src, len);
    FirstCursorAt(dst, len);
    var offset := if src.Registered? then src.off else dst.off;
    var n := 4096 - InPage(offset);
    if len < n {
      n := len;
    }
    var added, scur, dcur := PageCopy(src, dst, len, 0, n, false, FirstCursor(src), FirstCursor(dst), false, []);
    assert [] + added == added;
    ops := added;
    var done: nat, remaining: nat := n, len - n;
    while remaining > 0
      invariant done + remaining == len && Issued(src, dst, len, ops, done) && PagePieces(src, dst, ops)
      invariant CursorAt(src, scur, done) && CursorAt(dst, dcur, done)
      invariant remaining > 0 ==> InPage(offset + done) == 0
    {
      n := if 4096 < remaining then 4096 else remaining;
      added, scur, dcur := PageCopy(src, dst, len, done, n, false, scur, dcur, false, ops);
      MorePagePieces(src, dst, ops, added);
      ops, done, remaining := ops + added, done + n, remaining - n;
    }
  }

  /** micscif_rma_list_dma_copy_unaligned: between the staging buffer and remote windows, closed
      by the status descriptor that triggers the completion callback. */
  method DmaCopyUnaligned(src: Side, dst: Side, len: nat, ordered: bool)
    returns (ops: seq<Op>, last: nat, count: nat)
    requires src.Registered? != dst.Registered? && Covers(src, len) && Covers(dst, len) && len > 0
    requires Phase(src) == Phase(dst)
    ensures Issued(src, dst, len, ops, len) && DmaAligned(ops) && ops != [] && ops[|ops| - 1] == Status
    ensures ordered && dst.Registered? ==>
      && (LastIsLast(ops[..|ops| - 1]) <==> OrderKept(src, dst, len))
      && |ops| >= 2 && ops[|ops| - 2].Copy? && ops[|ops| - 2].p.len == LastLen(Phase(src), len, true)
  {
    hide Issued, LastIsLast, OrderKept;
    var orderedOut := ordered && dst.Registered?;
    ops, last, count := HeadBodyTail(src, dst, len, ordered, orderedOut, orderedOut);
    IssueFence(src, dst, len, ops, len, Status);
    assert (ops + [Status])[..|ops|] == ops;
    ops := ops + [Status];
  }

  /** The operations of a whole copy: issued at once, or in two stages of which the second
      starts when the first is complete. */
  datatype Plan = Direct(ops: seq<Op>) | Staged(first: seq<Op>, second: seq<Op>)

  const MAX_UNALIGNED_BUF_SIZE: nat := 1024 * 1024

  /** The source range rounded out to whole cache lines. */
  function RoundedOut(src: Side): Side
    requires src.Registered?
  {
    src.(off := src.off - src.off % 64)
  }

  function RoundedLen(src: Side, len: nat): nat
    requires src.Registered?
  {
    (len + src.off % 64 + 63) / 64 * 64
  }

  /** Rounding out to cache lines stays inside the windows, whose ends are page aligned. */
  lemma RoundedOutCovers(src: Side, len: nat)
    requires src.Registered? && Covers(src, len)
    ensures Covers(RoundedOut(src), RoundedLen(src, len))
    ensures Phase(RoundedOut(src)) == 0 && src.off % 64 + len <= RoundedLen(src, len)
  {
    hide Start, Total;
    var ws := src.ws;
    var w := ws[|ws| - 1];
    assert ValidWindow(ws[0]) && ValidWindow(w);
    EndOfWindow(w);
    RoundUp(src.off, len, w.End());
    RoundDown(src.off, ws[0].offset);
  }

  lemma EndOfWindow(w: Window)
    requires ValidWindow(w)
    ensures w.End() % 4096 == 0
  {
    StartAligned(w.chunks, |w.chunks|);
    hide Start;
  }

  lemma RoundUp(off: nat, len: nat, end: nat)
    requires off + len <= end && end % 4096 == 0
    ensures off - off % 64 + (len + off % 64 + 63) / 64 * 64 <= end
    ensures off % 64 + len <= (len + off % 64 + 63) / 64 * 64
  {
    Lines(off / 64, off % 64, len, (len + off % 64 + 63) / 64, 64 * (end / 4096));
  }

  lemma Lines(a: nat, r: nat, len: nat, t: nat, e: nat)
    requires r < 64 && 64 * a + r + len <= 64 * e && 64 * t <= len + r + 63 < 64 * t + 64
    ensures 64 * a + 64 * t <= 64 * e && r + len <= 64 * t
  {
  }

  lemma RoundDown(off: nat, base: nat)
    requires base <= off && base % 4096 == 0
    ensures base <= off - off % 64 && (off - off % 64) % 64 == 0
  {
    LinesDown(64 * (base / 4096), off / 64, off % 64);
    assert off - off % 64 == 64 * (off / 64);
  }

  lemma LinesDown(b: nat, a: nat, r: nat)
    requires 64 * b <= 64 * a + r && r < 64
    ensures 64 * b <= 64 * a
  {
  }

  /** micscif_rma_list_dma_copy_wrapper on the host, with the completion callback that finishes a
      staged copy from a remote source. `temp` is the cache-aligned staging buffer. */
  method DmaCopy(src: Side, dst: Side, len: nat, ordered: bool, srcLocal: bool, temp: nat)
    returns (plan: Plan)
    requires src.Registered? && dst.Registered? && Covers(src, len) && Covers(dst, len) && len > 0
    requires temp % 64 == 0
    requires src.off % 64 != dst.off % 64 ==> len <= MAX_UNALIGNED_BUF_SIZE
    ensures plan.Direct? <==> src.off % 64 == dst.off % 64
    ensures plan.Direct? ==> Issued(src, dst, len, plan.ops, len) && DmaAligned(plan.ops)
    ensures plan.Direct? && ordered ==> (LastIsLast(plan.ops) <==> OrderKept(src, dst, len))
    ensures plan.Staged? && srcLocal ==>
      var stage := Staging(temp + dst.off % 64);
      && Issued(src, stage, len, plan.first, len) && PagePieces(src, stage, plan.first)
      && Issued(stage, dst, len, plan.second, len) && DmaAligned(plan.second) && plan.second != []
      && (ordered ==> (LastIsLast(plan.second[..|plan.second| - 1]) <==> OrderKept(stage, dst, len)))
    ensures plan.Staged? && !srcLocal ==>
      && Issued(RoundedOut(src), Staging(temp), RoundedLen(src, len), plan.first, RoundedLen(src, len))
      && DmaAligned(plan.first)
      && Issued(Staging(temp + src.off % 64), dst, len, plan.second, len)
      && PagePieces(Staging(temp + src.off % 64), dst, plan.second) && LastIsLast(plan.second)
  {
    hide Issued, Covers, PagePieces, LastIsLast, DmaAligned, OrderKept;
    if src.off % 64 == dst.off % 64 {
      var ops, last, count := DmaCopyAligned(src, dst, len, ordered);
      return Direct(ops);
    }
    StagingCovers(temp + dst.off % 64, len);
    if srcLocal {
      var stage := Staging(temp + dst.off % 64);
      var first := LocalCpuCopy(src, stage, len);
      var second, last, count := DmaCopyUnaligned(stage, dst, len, ordered);
      plan := Staged(first, second);
    } else {
      RoundedOutCovers(src, len);
      StagingCovers(temp, RoundedLen(src, len));
      StagingCovers(temp + src.off % 64, len);
      var first, last, count := DmaCopyUnaligned(RoundedOut(src), Staging(temp), RoundedLen(src, len), ordered);
      var second := LocalCpuCopy(Staging(temp + src.off % 64), dst, len);
      CpuInOrder(Staging(temp + src.off % 64), dst, second);
      plan := Staged(first, second);
    }
  }

  /** Processor copies complete one after the other. */
  lemma CpuInOrder(src: Side, dst: Side, ops: seq<Op>)
    requires PagePieces(src, dst, ops)
    ensures LastIsLast(ops)
  {
    forall i | 0 <= i < |ops| ensures ops[i].Copy? && ops[i].p.via == Cpu { assert ops[i] in ops; }
  }

  lemma StagingCovers(temp: nat, len: nat)
    ensures Covers(Staging(temp), len)
  {
  }

  // --------------------------------------------------- ranges that share no memory

  /** No byte of the destination range is a byte of the source range, and none occurs twice. */
  ghost predicate Separate(src: Side, dst: Side, len: nat)
    requires Covers(src, len) && Covers(dst, len)
  {
    && (forall i, j :: 0 <= i < len && 0 <= j < len ==> SideAddr(dst, len, i) != SideAddr(src, len, j))
    && (forall i, j :: 0 <= i < len && 0 <= j < len && i != j ==> SideAddr(dst, len, i) != SideAddr(dst, len, j))
  }

  /** Operations that amount to the straight copy between separate ranges write each
      destination byte once and read none of them. */
  lemma IssuedUnambiguous(src: Side, dst: Side, len: nat, ops: seq<Op>)
    requires Issued(src, dst, len, ops, len) && Separate(src, dst, len)
    ensures Unambiguous(OpMoves(ops))
  {
    hide Covers, EachInOneWindow, OpMoves, SideAddr;
    var moves := Straight(src, dst, len, len);
    forall a, b | a in moves && b in moves ensures a.dst != b.src && (a.dst == b.dst ==> a.src == b.src) {
      var i :| 0 <= i < len && moves[i] == a;
      var j :| 0 <= j < len && moves[j] == b;
    }
  }

  // Windows that share no memory at all make every pair of ranges separate.

  /** Chunk `c` of window `k` holds address `a`. */
  predicate ChunkHas(ws: seq<Window>, k: int, c: int, a: nat)
  {
    0 <= k < |ws| && WithinChunk(ws[k].chunks, c, a, 1)
  }

  /** The memory behind a side: that of its windows, or `len` bytes of the staging buffer. */
  ghost predicate Occupies(s: Side, len: nat, a: nat)
  {
    match s
    case Registered(ws, _) => exists k, c :: ChunkHas(ws, k, c, a)
    case Staging(addr) => addr <= a < addr + len
  }

  /** No address lies in two chunks of a side. */
  ghost predicate Simple(s: Side)
  {
    s.Registered? ==>
      forall k, c, k', c', a :: ChunkHas(s.ws, k, c, a) && ChunkHas(s.ws, k', c', a) ==> k == k' && c == c'
  }

  /** The chunk behind byte `i` of a registered side. */
  lemma Behind(s: Side, len: nat, i: nat) returns (k: nat, c: nat)
    requires s.Registered? && Covers(s, len) && i < len
    ensures k < |s.ws| && InChunk(s.ws[k], c, s.off + i, 1) && ChunkHas(s.ws, k, c, SideAddr(s, len, i))
    ensures SideAddr(s, len, i) == ChunkAddr(s.ws[k], c, s.off + i)
  {
    hide AddrOf, Start, ValidWindow;
    var off := s.off + i;
    k := WindowHolding(s.ws, |s.ws|, off);
    c := ChunkHolding(s.ws[k].chunks, |s.ws[k].chunks|, off - s.ws[k].offset);
    AddrOfIs(s.ws, k, c, off);
  }

  lemma SideOccupies(s: Side, len: nat, i: nat)
    requires Covers(s, len) && i < len
    ensures Occupies(s, len, SideAddr(s, len, i))
  {
    hide Covers;
    if s.Registered? { var k, c := Behind(s, len, i); }
  }

  /** Every byte of a simple side has its own address. */
  lemma SideAddressesDiffer(s: Side, len: nat, i: nat, j: nat)
    requires Covers(s, len) && Simple(s) && i < len && j < len && SideAddr(s, len, i) == SideAddr(s, len, j)
    ensures i == j
  {
    if s.Registered? {
      hide AddrOf, Covers, Start;
      var k, c := Behind(s, len, i);
      var k', c' := Behind(s, len, j);
      assert k == k' && c == c';
    }
  }

  lemma WindowsApart(src: Side, dst: Side, len: nat)
    requires Covers(src, len) && Covers(dst, len) && Simple(dst)
    requires forall a :: Occupies(dst, len, a) ==> !Occupies(src, len, a)
    ensures Separate(src, dst, len)
  {
    hide Covers, SideAddr, Occupies, Simple;
    forall i, j | 0 <= i < len && 0 <= j < len ensures SideAddr(dst, len, i) != SideAddr(src, len, j) {
      SideOccupies(dst, len, i);
      SideOccupies(src, len, j);
    }
    forall i, j | 0 <= i < len && 0 <= j < len && i != j ensures SideAddr(dst, len, i) != SideAddr(dst, len, j) {
      if SideAddr(dst, len, i) == SideAddr(dst, len, j) { SideAddressesDiffer(dst, len, i, j); }
    }
  }

  /** So are disjoint ranges of one window without repeated memory, as a loopback copy has. */
  lemma OneWindowSeparate(ws: seq<Window>, from: nat, to: nat, len: nat)
    requires Covers(Registered(ws, from), len) && Covers(Registered(ws, to), len) && Simple(Registered(ws, from))
    requires Apart(from, len, to, len)
    ensures Separate(Registered(ws, from), Registered(ws, to), len)
  {
    hide Covers, AddrOf, Simple;
    var src, dst := Registered(ws, from), Registered(ws, to);
    SimpleAnywhere(ws, from, to);
    forall i, j | 0 <= i < len && 0 <= j < len ensures SideAddr(dst, len, i) != SideAddr(src, len, j) {
      OneWindowDiffer(ws, to, from, len, i, j);
    }
    forall i, j | 0 <= i < len && 0 <= j < len && i != j ensures SideAddr(dst, len, i) != SideAddr(dst, len, j) {
      OneWindowDiffer(ws, to, to, len, i, j);
    }
  }

  lemma SimpleAnywhere(ws: seq<Window>, a: nat, b: nat)
    requires Simple(Registered(ws, a))
    ensures Simple(Registered(ws, b))
  {
  }

  lemma OneWindowDiffer(ws: seq<Window>, a: nat, b: nat, len: nat, i: nat, j: nat)
    requires Covers(Registered(ws, a), len) && Covers(Registered(ws, b), len) && Simple(Registered(ws, b))
    requires i < len && j < len && a + i != b + j
    ensures SideAddr(Registered(ws, a), len, i) != SideAddr(Registered(ws, b), len, j)
  {
    hide Covers, AddrOf, Start;
    var x, y := Registered(ws, a), Registered(ws, b);
    var k, c := Behind(x, len, i);
    var k', c' := Behind(y, len, j);
    assert SideAddr(x, len, i) == SideAddr(y, len, j) ==> k == k' && c == c';
  }

  // ------------------------------------------------------------ main results

  /** The bytes of issued operations may arrive in any order: byte `i` of the destination ends
      up holding byte `i` of the source. */
  lemma IssuedDelivers(mem: seq<byte>, src: Side, dst: Side, len: nat, ops: seq<Op>, arrival: seq<Move>, i: nat)
    requires Issued(src, dst, len, ops, len) && i < len
    requires InMemory(mem, OpMoves(ops)) && Separate(src, dst, len) && multiset(OpMoves(ops)) == multiset(arrival)
    ensures InMemory(mem, arrival) && SideAddr(src, len, i) < |mem| && SideAddr(dst, len, i) < |mem|
    ensures Exec(mem, arrival)[SideAddr(dst, len, i)] == mem[SideAddr(src, len, i)]
  {
    hide Covers, EachInOneWindow, OpMoves, Unambiguous, InMemory, Exec, SideAddr, Separate;
    IssuedUnambiguous(src, dst, len, ops);
    var m := StraightMove(src, dst, len, i);
    assert Straight(src, dst, len, len)[i] == m;
    DeliveredInAnyOrder(mem, OpMoves(ops), arrival, m);
  }

  /** And nothing else changes. */
  lemma IssuedKeeps(mem: seq<byte>, src: Side, dst: Side, len: nat, ops: seq<Op>, arrival: seq<Move>, a: nat)
    requires Issued(src, dst, len, ops, len) && Separate(src, dst, len) && a < |mem|
    requires InMemory(mem, OpMoves(ops)) && multiset(OpMoves(ops)) == multiset(arrival)
    requires forall i :: 0 <= i < len ==> SideAddr(dst, len, i) != a
    ensures InMemory(mem, arrival) && Exec(mem, arrival)[a] == mem[a]
  {
    hide Covers, EachInOneWindow, OpMoves, Unambiguous, InMemory, Exec, SideAddr, Separate;
    IssuedUnambiguous(src, dst, len, ops);
    forall m | m in OpMoves(ops) ensures m.dst != a {
      var i :| 0 <= i < len && Straight(src, dst, len, len)[i] == m;
    }
    KeptInAnyOrder(mem, OpMoves(ops), arrival, a);
  }

  /** A staged copy from a local source delivers exactly the source bytes. */
  lemma StagedFromLocal(mem: seq<byte>, src: Side, dst: Side, len: nat, stage: Side, first: seq<Op>, second: seq<Op>,
                        a1: seq<Move>, a2: seq<Move>, i: nat)
    requires Issued(src, stage, len, first, len) && Issued(stage, dst, len, second, len) && i < len
    requires InMemory(mem, OpMoves(first)) && Separate(src, stage, len) && multiset(OpMoves(first)) == multiset(a1)
    requires InMemory(mem, OpMoves(second)) && Separate(stage, dst, len) && multiset(OpMoves(second)) == multiset(a2)
    ensures InMemory(mem, a1) && InMemory(Exec(mem, a1), a2)
    ensures SideAddr(src, len, i) < |mem| && SideAddr(dst, len, i) < |mem|
    ensures Exec(Exec(mem, a1), a2)[SideAddr(dst, len, i)] == mem[SideAddr(src, len, i)]
  {
    hide Issued, OpMoves, Separate, Exec, SideAddr;
    IssuedCovers(src, stage, len, first, len);
    IssuedCovers(stage, dst, len, second, len);
    IssuedDelivers(mem, src, stage, len, first, a1, i);
    IssuedDelivers(Exec(mem, a1), stage, dst, len, second, a2, i);
  }

  /** Rounding out shifts the source by the padding. */
  lemma RoundedOutAddr(src: Side, len: nat, i: nat)
    requires src.Registered? && Covers(src, len) && i < len
    ensures Covers(RoundedOut(src), RoundedLen(src, len)) && src.off % 64 + i < RoundedLen(src, len)
    ensures SideAddr(RoundedOut(src), RoundedLen(src, len), src.off % 64 + i) == SideAddr(src, len, i)
  {
    hide Covers, AddrOf;
    RoundedOutCovers(src, len);
  }

  /** After the first stage of a copy from a remote source the staging buffer holds the source
      bytes from `header_padding` on; after the second stage the destination does. */
  lemma StagedFromRemote(mem: seq<byte>, src: Side, dst: Side, len: nat, temp: nat, first: seq<Op>, second: seq<Op>,
                         a1: seq<Move>, a2: seq<Move>, i: nat)
    requires src.Registered? && Covers(src, len) && i < len
    requires Issued(RoundedOut(src), Staging(temp), RoundedLen(src, len), first, RoundedLen(src, len))
    requires Issued(Staging(temp + src.off % 64), dst, len, second, len)
    requires Separate(RoundedOut(src), Staging(temp), RoundedLen(src, len))
    requires Separate(Staging(temp + src.off % 64), dst, len)
    requires InMemory(mem, OpMoves(first)) && multiset(OpMoves(first)) == multiset(a1)
    requires InMemory(mem, OpMoves(second)) && multiset(OpMoves(second)) == multiset(a2)
    ensures Covers(dst, len)
    ensures InMemory(mem, a1) && InMemory(Exec(mem, a1), a2) && temp + src.off % 64 + i < |mem|
    ensures SideAddr(src, len, i) < |mem| && SideAddr(dst, len, i) < |mem|
    ensures Exec(mem, a1)[temp + src.off % 64 + i] == mem[SideAddr(src, len, i)]
    ensures Exec(Exec(mem, a1), a2)[SideAddr(dst, len, i)] == mem[SideAddr(src, len, i)]
  {
    hide Issued, OpMoves, Separate, Exec, Covers, AddrOf;
    var pad := src.off % 64;
    IssuedCovers(Staging(temp + pad), dst, len, second, len);
    RoundedOutAddr(src, len, i);
    StagingCovers(temp, RoundedLen(src, len));
    IssuedDelivers(mem, RoundedOut(src), Staging(temp), RoundedLen(src, len), first, a1, pad + i);
    IssuedDelivers(Exec(mem, a1), Staging(temp + pad), dst, len, second, a2, i);
  }

  /** Two ways of issuing the same copy leave the same memory, whatever the orders of arrival:
      in particular the processor copy and the aligned DMA copy. */
  lemma SameCopySameMemory(mem: seq<byte>, src: Side, dst: Side, len: nat, a: seq<Op>, b: seq<Op>,
                           arrivalA: seq<Move>, arrivalB: seq<Move>)
    requires Issued(src, dst, len, a, len) && Issued(src, dst, len, b, len)
    requires InMemory(mem, OpMoves(a)) && Separate(src, dst, len)
    requires multiset(OpMoves(a)) == multiset(arrivalA) && multiset(OpMoves(b)) == multiset(arrivalB)
    ensures InMemory(mem, arrivalA) && InMemory(mem, arrivalB) && Exec(mem, arrivalA) == Exec(mem, arrivalB)
  {
    hide Covers, Straight, EachInOneWindow, OpMoves, Unambiguous, InMemory, Exec, Separate;
    IssuedUnambiguous(src, dst, len, a);
    AnyOrder(mem, OpMoves(a), arrivalA);
    AnyOrder(mem, OpMoves(b), arrivalB);
  }
}
