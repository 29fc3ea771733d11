/** The RMA copy engine of micscif/micscif_rma_dma.c. A copy is issued as a list of
    operations; what it must amount to is one straight copy between two sides. */
module RmaCopy {
  import opened Bits
  import opened Copying
  import opened RmaWindows

  /** One end of a copy: a registered offset in a chain of windows, or the staging buffer. */
  datatype Side = Registered(ws: seq<Window>, off: nat) | Staging(addr: nat)

  /** A side that has `len` bytes, the first of them in its first window. */
  ghost predicate Covers(s: Side, len: nat)
  {
    s.Registered? ==>
      && Chain(s.ws) && s.ws[0].offset <= s.off < s.ws[0].End() && s.off + len <= s.ws[|s.ws| - 1].End()
  }

  ghost function SideAddr(s: Side, len: nat, i: nat): nat
    requires Covers(s, len) && i < len
  {
    match s
    case Registered(ws, off) => AddrOf(ws, off + i)
    case Staging(addr) => addr + i
  }

  ghost function StraightMove(src: Side, dst: Side, len: nat, i: nat): Move
    requires Covers(src, len) && Covers(dst, len) && i < len
  {
    Move(SideAddr(src, len, i), SideAddr(dst, len, i))
  }

  /** The first `n` bytes of the straight copy of `len` bytes. */
  ghost function Straight(src: Side, dst: Side, len: nat, n: nat): (r: seq<Move>)
    requires Covers(src, len) && Covers(dst, len) && n <= len
    ensures |r| == n
  {
    seq(n, i requires 0 <= i < n => StraightMove(src, dst, len, i))
  }

  lemma StraightSnoc(src: Side, dst: Side, len: nat, n: nat)
    requires Covers(src, len) && Covers(dst, len) && n < len
    ensures Straight(src, dst, len, n + 1) == Straight(src, dst, len, n) + [StraightMove(src, dst, len, n)]
  {
    hide Covers, StraightMove;
  }

  /** Bytes `done .. done + n` of the side are contiguous from `addr` on, in chunk `c` of window `k`. */
  ghost predicate At(s: Side, done: nat, n: nat, k: nat, c: nat, addr: nat)
  {
    match s
    case Registered(ws, off) =>
      && k < |ws| && InChunk(ws[k], c, off + done, n)
      && addr == ChunkAddr(ws[k], c, off + done)
    case Staging(a) => addr == a + done
  }

  lemma AtAddr(s: Side, len: nat, done: nat, n: nat, k: nat, c: nat, addr: nat, i: nat)
    requires Covers(s, len) && done + n <= len && At(s, done, n, k, c, addr) && i < n
    ensures SideAddr(s, len, done + i) == addr + i
  {
    hide Start, Total, Chain, AddrOf;
    if s.Registered? { AddrOfIs(s.ws, k, c, s.off + done + i); }
  }

  lemma AtShorter(s: Side, done: nat, n: nat, k: nat, c: nat, addr: nat, m: nat, n': nat)
    requires At(s, done, n, k, c, addr) && m + n' <= n
    ensures At(s, done + m, n', k, c, addr + m)
  {
    hide Start;
  }

  /** A piece contiguous on both sides continues the straight copy. */
  lemma {:induction false} Continue(src: Side, dst: Side, len: nat, done: nat, p: Piece,
                                    sk: nat, sc: nat, dk: nat, dc: nat)
    requires Covers(src, len) && Covers(dst, len) && done + p.len <= len
    requires At(src, done, p.len, sk, sc, p.src) && At(dst, done, p.len, dk, dc, p.dst)
    ensures Straight(src, dst, len, done + p.len) == Straight(src, dst, len, done) + Moves(p)
    decreases p.len
  {
    hide Covers, Straight, At, Moves;
    if p.len > 0 {
      var q := p.(len := p.len - 1);
      AtShorter(src, done, p.len, sk, sc, p.src, 0, q.len);
      AtShorter(dst, done, p.len, dk, dc, p.dst, 0, q.len);
      Continue(src, dst, len, done, q, sk, sc, dk, dc);
      StraightSnoc(src, dst, len, done + q.len);
      LastMove(p);
      AtAddr(src, len, done, p.len, sk, sc, p.src, q.len);
      AtAddr(dst, len, done, p.len, dk, dc, p.dst, q.len);
      assert Straight(src, dst, len, done) + Moves(q) + [StraightMove(src, dst, len, done + q.len)]
          == Straight(src, dst, len, done) + (Moves(q) + [StraightMove(src, dst, len, done + q.len)]);
    } else {
      EmptyPiece(p);
    }
  }

  lemma EmptyPiece(p: Piece)
    requires p.len == 0
    ensures Moves(p) == []
  {
  }

  // ---------------------------------------------------------------- cursors

  /** Where a loop stands in a chain: current window and the lookup hint. */
  datatype Cursor = Cursor(k: nat, index: nat, start: nat)

  ghost predicate CursorAt(s: Side, cur: Cursor, done: nat)
  {
    s.Registered? ==>
      && cur.k < |s.ws| && s.ws[cur.k].offset <= s.off + done <= s.ws[cur.k].End()
      && Hint(s.ws[cur.k], cur.index, cur.start, s.off + done)
  }

  function FirstCursor(s: Side): Cursor
    requires s.Registered? ==> s.ws != []
  {
    Cursor(0, 0, if s.Registered? then s.ws[0].offset else 0)
  }

  lemma FirstCursorAt(s: Side, len: nat)
    requires Covers(s, len)
    ensures (s.Registered? ==> s.ws != []) && CursorAt(s, FirstCursor(s), 0)
  {
    hide Total;
  }

  lemma CursorMoves(s: Side, cur: Cursor, done: nat, n: nat, c: nat, addr: nat, m: nat)
    requires CursorAt(s, cur, done) && At(s, done, n, cur.k, c, addr) && m <= n
    ensures CursorAt(s, cur, done + m)
  {
    if s.Registered? { ChunkEnds(s.ws[cur.k].chunks, c); }
    hide Start, Total;
  }

  /** Step to the next window at the end of the current one. `reset` drops the hint, as the
      lookups outside the loop do. */
  method Hop(s: Side, len: nat, cur: Cursor, done: nat, reset: bool) returns (cur': Cursor)
    requires Covers(s, len) && CursorAt(s, cur, done) && done < len
    ensures CursorAt(s, cur', done)
    ensures s.Registered? ==> s.off + done < s.ws[cur'.k].End()
  {
    hide Start, Total, ValidWindow;
    cur' := cur;
    if s.Registered? {
      if s.off + done == s.ws[cur.k].End() {
        OffsetsIncrease(s.ws, cur.k, |s.ws| - 1);
        cur' := Cursor(cur.k + 1, 0, s.ws[cur.k + 1].offset);
        HintReset(s.ws[cur.k + 1], s.off + done);
        WindowNotEmpty(s.ws[cur.k + 1]);
      } else if reset {
        cur' := Cursor(cur.k, 0, s.ws[cur.k].offset);
        HintReset(s.ws[cur.k], s.off + done);
      }
    }
  }

  lemma HintReset(w: Window, off: nat)
    requires w.offset <= off
    ensures Hint(w, 0, w.offset, off)
  {
  }

  lemma WindowNotEmpty(w: Window)
    requires ValidWindow(w)
    ensures w.offset < w.End()
  {
    assert w.chunks[0] in w.chunks;
    ChunkEnds(w.chunks, 0);
  }

  /** Look the current byte up: its address and how many of the next `limit` bytes follow it
      contiguously. */
  method Locate(s: Side, len: nat, cur: Cursor, done: nat, limit: nat)
    returns (cur': Cursor, addr: nat, n: nat, c: nat)
    requires Covers(s, len) && CursorAt(s, cur, done) && 0 < limit && done + limit <= len
    requires s.Registered? ==> s.off + done < s.ws[cur.k].End()
    ensures CursorAt(s, cur', done) && cur'.k == cur.k
    ensures 0 < n <= limit && At(s, done, n, cur'.k, c, addr)
    ensures n < limit ==> s.Registered? && (s.off + done + n) % 4096 == 0
    ensures n < limit ==> s.off + done + n == ChunkEnd(s.ws[cur'.k], c)
  {
    hide Start, Total, ValidWindow;
    match s
    case Registered(ws, off) =>
      var contig, index, start;
      addr, contig, index, start, c := GetDmaAddr(ws[cur.k], off + done, cur.index, cur.start);
      cur' := Cursor(cur.k, index, start);
      n := if contig < limit then contig else limit;
    case Staging(a) =>
      cur', addr, n, c := cur, a + done, limit, 0;
  }

  // ------------------------------------------------------- chunk boundaries

  predicate StartsChunk(s: Side, k: int, c: int, p: nat)
  {
    && s.Registered? && 0 <= k < |s.ws| && 0 <= c < |s.ws[k].chunks|
    && s.off + p == s.ws[k].offset + Start(s.ws[k].chunks, c)
  }

  /** Byte `p` of the side is the first of a chunk. */
  ghost predicate Boundary(s: Side, p: nat)
  {
    exists k, c :: StartsChunk(s, k, c, p)
  }

  ghost predicate EitherBoundary(src: Side, dst: Side, p: nat) { Boundary(src, p) || Boundary(dst, p) }

  /** No chunk of either side starts strictly between bytes `a` and `b`. */
  ghost predicate Unbroken(src: Side, dst: Side, a: nat, b: nat)
  {
    forall p: nat :: a < p < b ==> !EitherBoundary(src, dst, p)
  }

  /** The end of a chunk is a boundary, unless the side ends there. */
  lemma EndIsBoundary(s: Side, len: nat, k: nat, c: nat, p: nat)
    requires s.Registered? && Covers(s, len) && p < len && k < |s.ws| && c < |s.ws[k].chunks|
    requires s.off + p == ChunkEnd(s.ws[k], c)
    ensures Boundary(s, p)
  {
    ChunkEnds(s.ws[k].chunks, c);
    if c + 1 < |s.ws[k].chunks| {
      assert StartsChunk(s, k, c + 1, p);
    } else {
      FirstChunk(s.ws, k + 1);
      assert StartsChunk(s, k + 1, 0, p);
    }
  }

  lemma FirstChunk(ws: seq<Window>, k: nat)
    requires Chain(ws) && 0 < k <= |ws|
    ensures k < |ws| ==> ws[k - 1].End() == ws[k].offset && ws[k].chunks != [] && Start(ws[k].chunks, 0) == 0
  {
    if k < |ws| { assert ValidWindow(ws[k]); }
  }

  /** A chunk boundary never lies strictly inside a contiguous piece. */
  lemma NoBoundaryInside(s: Side, len: nat, done: nat, n: nat, k: nat, c: nat, addr: nat, p: nat)
    requires Covers(s, len) && At(s, done, n, k, c, addr) && done < p < done + n
    ensures !Boundary(s, p)
  {
    hide Start, Total, ValidWindow;
    if s.Registered? {
      forall k', c' | StartsChunk(s, k', c', p) ensures false {
        ChunkEnds(s.ws[k].chunks, c);
        ChunkEnds(s.ws[k'].chunks, c');
        if k' < k {
          OffsetsIncrease(s.ws, k', k);
        } else if k < k' {
          OffsetsIncrease(s.ws, k, k');
        } else if c' <= c {
          StartMonotone(s.ws[k].chunks, c', c);
        } else {
          StartMonotone(s.ws[k].chunks, c + 1, c');
        }
      }
    }
  }

  // ------------------------------------------------------------- operations

  /** What the engine issues: a copy by the processor or the DMA engine, a status descriptor,
      or a drain of the channel. */
  datatype Op = Copy(p: Piece) | Status | Drain

  function OpMoves(ops: seq<Op>): seq<Move>
  {
    if ops == [] then []
    else
      var front := OpMoves(ops[..|ops| - 1]);
      match ops[|ops| - 1]
      case Copy(p) => front + Moves(p)
      case Status | Drain => front
  }

  lemma OpMovesSnoc(ops: seq<Op>, op: Op)
    ensures OpMoves(ops + [op]) == if op.Copy? then OpMoves(ops) + Moves(op.p) else OpMoves(ops)
  {
    assert (ops + [op])[..|ops|] == ops;
  }

  predicate WithinWindow(ws: seq<Window>, k: int, c: int, addr: nat, n: nat)
  {
    0 <= k < |ws| && WithinChunk(ws[k].chunks, c, addr, n)
  }

  ghost predicate InOneWindow(s: Side, addr: nat, n: nat)
  {
    s.Registered? ==> exists k, c :: WithinWindow(s.ws, k, c, addr, n)
  }

  /** Every copy issued stays inside one window on either side. */
  ghost predicate EachInOneWindow(src: Side, dst: Side, ops: seq<Op>)
  {
    forall op :: op in ops && op.Copy? ==> InOneWindow(src, op.p.src, op.p.len) && InOneWindow(dst, op.p.dst, op.p.len)
  }

  lemma AtInOneWindow(s: Side, done: nat, n: nat, k: nat, c: nat, addr: nat)
    requires At(s, done, n, k, c, addr)
    ensures InOneWindow(s, addr, n)
  {
    hide Start;
    assert s.Registered? ==> WithinWindow(s.ws, k, c, addr, n);
  }

  /** The operations so far amount to the first `done` bytes of the straight copy. */
  ghost predicate Issued(src: Side, dst: Side, len: nat, ops: seq<Op>, done: nat)
  {
    && Covers(src, len) && Covers(dst, len) && done <= len
    && OpMoves(ops) == Straight(src, dst, len, done) && EachInOneWindow(src, dst, ops)
  }

  lemma NothingIssued(src: Side, dst: Side, len: nat)
    requires Covers(src, len) && Covers(dst, len)
    ensures Issued(src, dst, len, [], 0)
  {
  }

  lemma Issue(src: Side, dst: Side, len: nat, ops: seq<Op>, done: nat, p: Piece,
              sk: nat, sc: nat, dk: nat, dc: nat)
    requires Issued(src, dst, len, ops, done) && done + p.len <= len
    requires At(src, done, p.len, sk, sc, p.src) && At(dst, done, p.len, dk, dc, p.dst)
    ensures Issued(src, dst, len, ops + [Copy(p)], done + p.len)
  {
    hide Covers, Straight, At, Moves, InOneWindow, OpMoves;
    Continue(src, dst, len, done, p, sk, sc, dk, dc);
    OpMovesSnoc(ops, Copy(p));
    AtInOneWindow(src, done, p.len, sk, sc, p.src);
    AtInOneWindow(dst, done, p.len, dk, dc, p.dst);
  }

  lemma IssueFence(src: Side, dst: Side, len: nat, ops: seq<Op>, done: nat, op: Op)
    requires Issued(src, dst, len, ops, done) && !op.Copy?
    ensures Issued(src, dst, len, ops + [op], done)
  {
    hide Covers, Straight, InOneWindow, OpMoves;
    OpMovesSnoc(ops, op);
  }

  // --------------------------------------------------------------- ordering

  /** Operation `i` is complete before operation `j` starts: the processor copies at once, a
      status descriptor orders the DMA transfers around it, and a drain waits for them all. */
  ghost predicate Before(ops: seq<Op>, i: int, j: int)
    requires 0 <= i < j < |ops| && ops[i].Copy? && ops[j].Copy?
  {
    || ops[i].p.via == Cpu
    || exists f :: i < f < j && (ops[f] == Drain || (ops[f] == Status && ops[j].p.via.Dma?))
  }

  /** The last piece is written after everything else. */
  ghost predicate LastIsLast(ops: seq<Op>)
  {
    ops != [] ==>
      && ops[|ops| - 1].Copy?
      && forall i :: 0 <= i < |ops| - 1 && ops[i].Copy? ==> Before(ops, i, |ops| - 1)
  }

  /** What the body loop appended: `count` contiguous pieces by DMA, the last of them `last`
      bytes long and cut in two around a status descriptor when `split`. */
  ghost predicate BodyOps(before: seq<Op>, ops: seq<Op>, count: nat, last: nat, split: bool)
  {
    && |ops| == |before| + count + (if split then 2 else 0) && ops[..|before|] == before
    && (split ==> count > 0 && ops[|ops| - 2] == Status && ops[|ops| - 1].Copy? && ops[|ops| - 1].p.len == 64)
    && (forall i :: |before| <= i < |ops| && !(split && i == |ops| - 2) ==> ops[i].Copy? && ops[i].p.via == Dma(0))
    && last == if count == 0 then 0 else if split then ops[|ops| - 3].p.len + 64 else ops[|ops| - 1].p.len
  }

  predicate LineAligned(s: Side, done: nat)
  {
    match s
    case Registered(_, off) => (off + done) % 64 == 0
    case Staging(addr) => (addr + done) % 64 == 0
  }

  /** Every DMA request starts and ends on a cache line on both sides. */
  predicate DmaAligned(ops: seq<Op>)
  {
    forall op :: op in ops && op.Copy? && op.p.via.Dma? ==>
      op.p.src % 64 == 0 && op.p.dst % 64 == 0 && op.p.len % 64 == 0
  }

  lemma AtAligned(s: Side, len: nat, done: nat, n: nat, k: nat, c: nat, addr: nat)
    requires Covers(s, len) && At(s, done, n, k, c, addr)
    ensures s.Registered? ==> addr % 4096 == (s.off + done) % 4096
    ensures LineAligned(s, done) ==> addr % 64 == 0
  {
    hide Start, Total;
    if s.Registered? {
      var w := s.ws[k];
      assert ValidWindow(w) && w.chunks[c] in w.chunks;
      EndAligned(w, c);
      SameInPage(w.chunks[c].addr, w.offset + Start(w.chunks, c), s.off + done);
    }
  }

  lemma SameInPage(addr: nat, base: nat, off: nat)
    requires addr % 4096 == 0 && base % 4096 == 0 && base <= off
    ensures (addr + (off - base)) % 4096 == off % 4096
    ensures off % 64 == 0 ==> (addr + (off - base)) % 64 == 0
  {
    var q := addr / 4096 - base / 4096;
    assert addr + (off - base) == 4096 * q + off;
    PageMultiple(q, off);
  }

  lemma PageMultiple(q: int, off: nat)
    ensures (4096 * q + off) % 4096 == off % 4096
    ensures off % 64 == 0 ==> (4096 * q + off) % 64 == 0
  {
    ModuloIs(4096 * q + off, 4096, q + off / 4096, off % 4096);
    if off % 64 == 0 { ModuloIs(4096 * q + off, 64, 64 * q + off / 64, 0); }
  }

  lemma LinesStay(off: nat, n: nat, limit: nat)
    requires off % 64 == 0 && limit % 64 == 0 && (n == limit || (off + n) % 4096 == 0)
    ensures n % 64 == 0
  {
    if n != limit {
      var q, a := (off + n) / 4096, off / 64;
      assert off + n == 4096 * q && off == 64 * a;
      ModuloIs(n, 64, 64 * q - a, 0);
    }
  }

  lemma BodyOpsSnoc(before: seq<Op>, ops: seq<Op>, count: nat, last: nat, p: Piece)
    requires BodyOps(before, ops, count, last, false) && p.via == Dma(0)
    ensures BodyOps(before, ops + [Copy(p)], count + 1, p.len, false)
  {
  }

  lemma BodyOpsSplit(before: seq<Op>, ops: seq<Op>, count: nat, last: nat, p: Piece, q: Piece)
    requires BodyOps(before, ops, count, last, false) && p.via == q.via == Dma(0) && q.len == 64
    ensures BodyOps(before, ops + [Copy(p)] + [Status] + [Copy(q)], count + 1, p.len + 64, true)
  {
  }

  /** One contiguous piece of the body: one request, or two around a status descriptor. */
  method IssueBody(src: Side, dst: Side, len: nat, done: nat, ops: seq<Op>, n: nat, split: bool,
                   sAddr: nat, dAddr: nat, ghost sk: nat, ghost sc: nat, ghost dk: nat, ghost dc: nat,
                   ghost before: seq<Op>, ghost count: nat, ghost last: nat)
    returns (ops': seq<Op>)
    requires Issued(src, dst, len, ops, done) && done + n <= len && (split ==> n > 64)
    requires At(src, done, n, sk, sc, sAddr) && At(dst, done, n, dk, dc, dAddr)
    requires BodyOps(before, ops, count, last, false) && DmaAligned(ops)
    requires LineAligned(src, done) && LineAligned(dst, done) && n % 64 == 0
    ensures Issued(src, dst, len, ops', done + n) && BodyOps(before, ops', count + 1, n, split)
    ensures DmaAligned(ops')
  {
    hide Issued, At, BodyOps, LineAligned, DmaAligned;
    AddressesAligned(src, dst, len, ops, done, n, sk, sc, sAddr, dk, dc, dAddr);
    if split {
      var p := Piece(Dma(0), sAddr, dAddr, n - 64);
      var q := Piece(Dma(0), sAddr + (n - 64), dAddr + (n - 64), 64);
      AtShorter(src, done, n, sk, sc, sAddr, 0, n - 64);
      AtShorter(dst, done, n, dk, dc, dAddr, 0, n - 64);
      Issue(src, dst, len, ops, done, p, sk, sc, dk, dc);
      IssueFence(src, dst, len, ops + [Copy(p)], done + p.len, Status);
      AtShorter(src, done, n, sk, sc, sAddr, n - 64, 64);
      AtShorter(dst, done, n, dk, dc, dAddr, n - 64, 64);
      Issue(src, dst, len, ops + [Copy(p)] + [Status], done + p.len, q, sk, sc, dk, dc);
      BodyOpsSplit(before, ops, count, last, p, q);
      LinesMinusOne(sAddr, dAddr, n);
      AlignedMore(ops, Copy(p));
      AlignedMore(ops + [Copy(p)], Status);
      AlignedMore(ops + [Copy(p)] + [Status], Copy(q));
      ops' := ops + [Copy(p)] + [Status] + [Copy(q)];
    } else {
      var p := Piece(Dma(0), sAddr, dAddr, n);
      Issue(src, dst, len, ops, done, p, sk, sc, dk, dc);
      BodyOpsSnoc(before, ops, count, last, p);
      AlignedMore(ops, Copy(p));
      ops' := ops + [Copy(p)];
    }
  }

  lemma AlignedMore(ops: seq<Op>, op: Op)
    requires DmaAligned(ops)
    requires op.Copy? ==> op.p.src % 64 == 0 && op.p.dst % 64 == 0 && op.p.len % 64 == 0
    ensures DmaAligned(ops + [op])
  {
  }

  lemma LinesMinusOne(a: nat, b: nat, n: nat)
    requires a % 64 == 0 && b % 64 == 0 && n % 64 == 0 && n >= 64
    ensures (n - 64) % 64 == 0 && (a + (n - 64)) % 64 == 0 && (b + (n - 64)) % 64 == 0
  {
    var t := n / 64 - 1;
    assert n - 64 == 64 * t;
    ModuloIs(n - 64, 64, t, 0);
    ModuloIs(a + (n - 64), 64, a / 64 + t, 0);
    ModuloIs(b + (n - 64), 64, b / 64 + t, 0);
  }

  lemma AddressesAligned(src: Side, dst: Side, len: nat, ops: seq<Op>, done: nat, n: nat,
                         sk: nat, sc: nat, sAddr: nat, dk: nat, dc: nat, dAddr: nat)
    requires Issued(src, dst, len, ops, done) && LineAligned(src, done) && LineAligned(dst, done)
    requires At(src, done, n, sk, sc, sAddr) && At(dst, done, n, dk, dc, dAddr)
    ensures sAddr % 64 == 0 && dAddr % 64 == 0
  {
    hide At, Covers, LineAligned, EachInOneWindow;
    AtAligned(src, len, done, n, sk, sc, sAddr);
    AtAligned(dst, len, done, n, dk, dc, dAddr);
  }

  /** One pass of the loop up to the request: window hops, both lookups, the piece length. */
  method FindPiece(src: Side, dst: Side, len: nat, done: nat, remaining: nat, scur: Cursor, dcur: Cursor)
    returns (scur': Cursor, dcur': Cursor, sAddr: nat, dAddr: nat, n: nat, sc: nat, dc: nat)
    requires Covers(src, len) && Covers(dst, len) && CursorAt(src, scur, done) && CursorAt(dst, dcur, done)
    requires 0 < remaining && done + remaining <= len && remaining % 64 == 0
    requires LineAligned(src, done) && LineAligned(dst, done)
    ensures 0 < n <= remaining && n % 64 == 0
    ensures At(src, done, n, scur'.k, sc, sAddr) && At(dst, done, n, dcur'.k, dc, dAddr)
    ensures CursorAt(src, scur', done + n) && CursorAt(dst, dcur', done + n)
    ensures Unbroken(src, dst, done, done + n) && (n < remaining ==> EitherBoundary(src, dst, done + n))
  {
    hide Covers, CursorAt, At, Boundary, ChunkEnd;
    scur' := Hop(src, len, scur, done, false);
    dcur' := Hop(dst, len, dcur, done, false);
    var n1, n2;
    scur', sAddr, n1, sc := Locate(src, len, scur', done, remaining);
    dcur', dAddr, n2, dc := Locate(dst, len, dcur', done, remaining);
    n := if n1 < n2 then n1 else n2;
    if src.Registered? && n == n1 { LinesStay(src.off + done, n, remaining); }
    if dst.Registered? && n == n2 { LinesStay(dst.off + done, n, remaining); }
    AtShorter(src, done, n1, scur'.k, sc, sAddr, 0, n);
    AtShorter(dst, done, n2, dcur'.k, dc, dAddr, 0, n);
    CursorMoves(src, scur', done, n, sc, sAddr, n);
    CursorMoves(dst, dcur', done, n, dc, dAddr, n);
    PieceUnbroken(src, dst, len, done, n, scur'.k, sc, sAddr, dcur'.k, dc, dAddr);
    if n < remaining {
      if n == n1 { LocatedEnd(src, len, done, n1, scur'.k, sc, sAddr); }
      if n == n2 { LocatedEnd(dst, len, done, n2, dcur'.k, dc, dAddr); }
    }
  }

  lemma LocatedEnd(s: Side, len: nat, done: nat, n: nat, k: nat, c: nat, addr: nat)
    requires Covers(s, len) && s.Registered? && At(s, done, n, k, c, addr) && done + n < len
    requires s.off + done + n == ChunkEnd(s.ws[k], c)
    ensures Boundary(s, done + n)
  {
    hide Covers, Boundary, ChunkEnd, Start;
    EndIsBoundary(s, len, k, c, done + n);
  }

  lemma PieceUnbroken(src: Side, dst: Side, len: nat, done: nat, n: nat, sk: nat, sc: nat, sAddr: nat,
                      dk: nat, dc: nat, dAddr: nat)
    requires Covers(src, len) && Covers(dst, len)
    requires At(src, done, n, sk, sc, sAddr) && At(dst, done, n, dk, dc, dAddr)
    ensures Unbroken(src, dst, done, done + n)
  {
    hide Covers, At, Boundary;
    forall p: nat | done < p < done + n ensures !EitherBoundary(src, dst, p) {
      NoBoundaryInside(src, len, done, n, sk, sc, sAddr, p);
      NoBoundaryInside(dst, len, done, n, dk, dc, dAddr, p);
    }
  }

  /** The DMA loop shared by the aligned and the staged copy: `body` bytes in contiguous
      pieces, window after window. */
  method Body(src: Side, dst: Side, len: nat, ordered: bool, tail: nat, body: nat, done0: nat,
              scur0: Cursor, dcur0: Cursor, before: seq<Op>)
    returns (ops: seq<Op>, scur: Cursor, dcur: Cursor, last: nat, count: nat)
    requires Issued(src, dst, len, before, done0) && done0 + body + tail == len && body % 64 == 0
    requires DmaAligned(before)
    requires CursorAt(src, scur0, done0) && CursorAt(dst, dcur0, done0)
    requires body > 0 ==> LineAligned(src, done0) && LineAligned(dst, done0)
    ensures Issued(src, dst, len, ops, done0 + body) && DmaAligned(ops)
    ensures CursorAt(src, scur, done0 + body) && CursorAt(dst, dcur, done0 + body)
    ensures (body == 0 <==> count == 0) && (count == 0 <==> last == 0) && last % 64 == 0
    ensures BodyOps(before, ops, count, last, ordered && tail == 0 && last != 64 && count > 0)
    ensures LastStart(src, dst, done0, body, last, count)
  {
    hide Covers, Straight, At, InOneWindow, OpMoves, EachInOneWindow, CursorAt, BodyOps, DmaAligned, Issued;
    hide EitherBoundary, ChunkEnd, LastStart, Unbroken;
    NoneIssued(src, dst, done0);
    ops, scur, dcur, last, count := before, scur0, dcur0, 0, 0;
    NoBodyOps(before);
    var done: nat, remaining: nat := done0, body;
    while remaining > 0
      invariant done + remaining == done0 + body && remaining % 64 == 0
      invariant Issued(src, dst, len, ops, done) && DmaAligned(ops)
      invariant CursorAt(src, scur, done) && CursorAt(dst, dcur, done)
      invariant remaining > 0 ==> LineAligned(src, done) && LineAligned(dst, done)
      invariant (remaining < body ==> count > 0 && last > 0) && (remaining == body ==> count == 0 && last == 0)
      invariant last % 64 == 0 && LastStart(src, dst, done0, done - done0, last, count)
      invariant remaining > 0 && count > 0 ==> EitherBoundary(src, dst, done)
      invariant BodyOps(before, ops, count, last, remaining == 0 && ordered && tail == 0 && last != 64 && count > 0)
      decreases remaining
    {
      IssuedCovers(src, dst, len, ops, done);
      var sAddr, dAddr, n, sc, dc;
      scur, dcur, sAddr, dAddr, n, sc, dc := FindPiece(src, dst, len, done, remaining, scur, dcur);
      var split := ordered && tail == 0 && n == remaining && n != 64;
      ops := IssueBody(src, dst, len, done, ops, n, split, sAddr, dAddr, scur.k, sc, dcur.k, dc, before, count, last);
      StillAligned(src, done, n);
      StillAligned(dst, done, n);
      NextIssued(src, dst, done0, done - done0, n, count);
      done, remaining, last, count := done + n, remaining - n, n, count + 1;
    }
  }

  /** Where the last of `count` pieces of the body starts: behind a chunk boundary, unless it is
      the only piece, and with no boundary inside it. */
  ghost predicate LastStart(src: Side, dst: Side, done0: nat, body: nat, last: nat, count: nat)
  {
    && last <= body && (count == 1 ==> last == body) && Unbroken(src, dst, done0 + body - last, done0 + body)
    && (count > 1 ==> last < body && EitherBoundary(src, dst, done0 + body - last))
  }

  lemma NoneIssued(src: Side, dst: Side, done0: nat)
    ensures LastStart(src, dst, done0, 0, 0, 0)
  {
    hide EitherBoundary;
  }

  lemma NextIssued(src: Side, dst: Side, done0: nat, body: nat, n: nat, count: nat)
    requires Unbroken(src, dst, done0 + body, done0 + body + n) && (count == 0 <==> body == 0)
    requires count > 0 ==> EitherBoundary(src, dst, done0 + body)
    ensures LastStart(src, dst, done0, body + n, n, count + 1)
  {
    hide EitherBoundary;
  }

  /** The last piece is one cache line behind another piece exactly when a chunk of either side
      starts at the last cache line of a longer body. */
  lemma OneLineLeft(src: Side, dst: Side, done0: nat, body: nat, last: nat, count: nat)
    requires LastStart(src, dst, done0, body, last, count) && last % 64 == 0 && (count == 0 <==> last == 0)
    requires body == 0 <==> count == 0
    ensures last == 64 && count > 1 <==> body > 64 && EitherBoundary(src, dst, done0 + body - 64)
  {
    hide EitherBoundary;
  }

  lemma StillAligned(s: Side, done: nat, n: nat)
    requires LineAligned(s, done) && n % 64 == 0
    ensures LineAligned(s, done + n)
  {
  }

  lemma IssuedCovers(src: Side, dst: Side, len: nat, ops: seq<Op>, done: nat)
    requires Issued(src, dst, len, ops, done)
    ensures Covers(src, len) && Covers(dst, len)
  {
  }

  lemma NoBodyOps(before: seq<Op>)
    ensures BodyOps(before, before, 0, 0, false)
  {
  }
}
