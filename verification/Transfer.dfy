/** Scatter-gather transfers between a host range, held as a list of contiguous
    chunks, and card memory: host/micmem.c, and the descriptor split of
    dma/mic_dma_lib.c. */
module Transfer {
  import opened Bits
  import opened Errors
  import opened Copying

  datatype Direction = HostToDevice | DeviceToHost

  datatype Channels = Single | Dual | Auto | Unknown

  /** do_chunk_dma_dir. */
  function Request(dir: Direction, channel: nat, host: nat, card: nat, len: nat): Piece
  {
    if dir == HostToDevice then Piece(Dma(channel), host, card, len) else Piece(Dma(channel), card, host, len)
  }

  function HostSide(dir: Direction, p: Piece): nat
  {
    if dir == HostToDevice then p.src else p.dst
  }

  /** Byte `i` of the one straight copy a transfer stands for. */
  function StraightMove(dir: Direction, chunks: seq<Chunk>, offset: nat, card: nat, i: nat): Move
    requires offset + i < Total(chunks)
  {
    if dir == HostToDevice then Move(AddrAt(chunks, offset + i), card + i)
    else Move(card + i, AddrAt(chunks, offset + i))
  }

  /** Its first `n` bytes. */
  function Straight(dir: Direction, chunks: seq<Chunk>, offset: nat, card: nat, n: nat): (r: seq<Move>)
    requires offset + n <= Total(chunks)
    ensures |r| == n
  {
    seq(n, i requires 0 <= i < n => StraightMove(dir, chunks, offset, card, i))
  }

  ghost predicate EachInOneChunk(dir: Direction, chunks: seq<Chunk>, reqs: seq<Piece>)
  {
    forall r :: r in reqs ==> InOneChunk(chunks, HostSide(dir, r), r.len)
  }

  /** A request inside chunk `i` continues the straight copy. */
  lemma Continue(dir: Direction, chunks: seq<Chunk>, offset: nat, card: nat, done: nat, i: nat,
                 channel: nat, len: nat)
    requires i < |chunks| && Start(chunks, i) <= offset + done
    requires offset + done + len <= Start(chunks, i) + chunks[i].Bytes()
    ensures offset + done + len <= Total(chunks)
    ensures var r := Request(dir, channel, chunks[i].addr + (offset + done - Start(chunks, i)), card + done, len);
      && Straight(dir, chunks, offset, card, done + len) == Straight(dir, chunks, offset, card, done) + Moves(r)
      && WithinChunk(chunks, i, HostSide(dir, r), r.len)
  {
    hide Straight, Moves, StraightMove, AddrAt, Start, Total;
    ChunkEnds(chunks, i);
    ContinueMoves(dir, chunks, offset, card, done, i, channel, len);
  }

  lemma {:induction false} ContinueMoves(dir: Direction, chunks: seq<Chunk>, offset: nat, card: nat, done: nat,
                                         i: nat, channel: nat, len: nat)
    requires i < |chunks| && Start(chunks, i) <= offset + done && offset + done + len <= Total(chunks)
    requires offset + done + len <= Start(chunks, i) + chunks[i].Bytes()
    ensures var r := Request(dir, channel, chunks[i].addr + (offset + done - Start(chunks, i)), card + done, len);
            Straight(dir, chunks, offset, card, done + len) == Straight(dir, chunks, offset, card, done) + Moves(r)
  {
    if len > 0 {
      hide Straight, Moves, Start;
      var r := Request(dir, channel, chunks[i].addr + (offset + done - Start(chunks, i)), card + done, len);
      ContinueMoves(dir, chunks, offset, card, done, i, channel, len - 1);
      StraightSnoc(dir, chunks, offset, card, done + len - 1);
      LastMove(r);
      AddrInChunk(chunks, i, offset + done + len - 1);
      hide AddrAt;
    }
  }

  lemma StraightSnoc(dir: Direction, chunks: seq<Chunk>, offset: nat, card: nat, n: nat)
    requires offset + n < Total(chunks)
    ensures Straight(dir, chunks, offset, card, n + 1)
         == Straight(dir, chunks, offset, card, n) + [StraightMove(dir, chunks, offset, card, n)]
  {
    hide StraightMove;
  }

  lemma InChunk(chunks: seq<Chunk>, i: nat, addr: nat, len: nat)
    requires WithinChunk(chunks, i, addr, len)
    ensures InOneChunk(chunks, addr, len)
  {
  }

  /** find_1st_chunk. */
  method FindFirstChunk(chunks: seq<Chunk>, offset: nat) returns (index: nat, chunkOffset: nat, chunkSize: nat)
    ensures offset < Total(chunks) ==>
      && index < |chunks| && offset == Start(chunks, index) + chunkOffset
      && chunkOffset < chunkSize == chunks[index].Bytes()
    ensures offset >= Total(chunks) ==> index == 0 && chunkOffset == offset - Total(chunks)
    ensures offset >= Total(chunks) && chunks != [] ==> chunkSize == chunks[|chunks| - 1].Bytes()
  {
    index, chunkOffset, chunkSize := 0, offset, 0;
    for i := 0 to |chunks|
      invariant index == 0 && offset == Start(chunks, i) + chunkOffset
      invariant i > 0 ==> chunkSize == chunks[i - 1].Bytes()
    {
      chunkSize := chunks[i].Bytes();
      if chunkSize > chunkOffset {
        index := i;
        StartMonotone(chunks, i + 1, |chunks|);
        return;
      }
      chunkOffset := chunkOffset - chunkSize;
    }
  }

  /** do_xfer_single with xfer_single_finish: the requests put on the one channel. */
  method XferSingle(dir: Direction, chunks: seq<Chunk>, offset: nat, card: nat, size: nat)
    returns (reqs: seq<Piece>)
    requires chunks != [] && offset + size <= Total(chunks)
    ensures AllMoves(reqs) == Straight(dir, chunks, offset, card, size)
    ensures EachInOneChunk(dir, chunks, reqs)
    ensures forall r :: r in reqs ==> r.via == Dma(1)
  {
    hide AddrAt, InOneChunk, Straight, Moves, AllMoves, WithinChunk;
    var index: nat, chunkOffset: nat, chunkSize: nat := FindFirstChunk(chunks, offset);
    reqs := [];
    var done: nat, remaining: nat := 0, size;
    NothingDone(dir, chunks, offset, card);
    if chunkOffset + remaining > chunkSize {
      var i := index;
      while i < |chunks| - 1
        invariant index <= i < |chunks| && done + remaining == size
        invariant offset + done == Start(chunks, i) + chunkOffset && chunkOffset <= chunks[i].Bytes()
        invariant AllMoves(reqs) == Straight(dir, chunks, offset, card, done)
        invariant EachInOneChunk(dir, chunks, reqs)
        invariant forall r :: r in reqs ==> r.via == Dma(1)
      {
        var chunkRemaining := chunks[i].Bytes() - chunkOffset;
        if chunkRemaining >= remaining {
          break;
        }
        var r := Request(dir, 1, chunks[i].addr + chunkOffset, card + done, chunkRemaining);
        Continue(dir, chunks, offset, card, done, i, 1, chunkRemaining);
        InChunk(chunks, i, HostSide(dir, r), r.len);
        MovesSnoc(reqs, r);
        reqs := reqs + [r];
        done, remaining, chunkOffset := done + chunkRemaining, remaining - chunkRemaining, 0;
        i := i + 1;
      }
      index := i;
    }
    var last := XferSingleFinish(dir, chunks, offset, card, size, done, index, chunkOffset);
    MovesSnoc(reqs, last);
    reqs := reqs + [last];
  }

  lemma NothingDone(dir: Direction, chunks: seq<Chunk>, offset: nat, card: nat)
    requires offset <= Total(chunks)
    ensures Straight(dir, chunks, offset, card, 0) == AllMoves([])
  {
  }

  /** xfer_single_finish: everything left, from inside one chunk. */
  method XferSingleFinish(dir: Direction, chunks: seq<Chunk>, offset: nat, card: nat, size: nat,
                          done: nat, index: nat, chunkOffset: nat)
    returns (r: Piece)
    requires done <= size && index < |chunks| && offset + size <= Total(chunks)
    requires offset < Total(chunks) || (chunkOffset == done == size == 0)
    requires offset < Total(chunks) ==>
      && offset + done == Start(chunks, index) + chunkOffset
      && chunkOffset + (size - done) <= chunks[index].Bytes()
    ensures r.via == Dma(1) && InOneChunk(chunks, HostSide(dir, r), r.len)
    ensures Straight(dir, chunks, offset, card, size) == Straight(dir, chunks, offset, card, done) + Moves(r)
  {
    r := Request(dir, 1, chunks[index].addr + chunkOffset, card + done, size - done);
    if offset < Total(chunks) {
      hide AddrAt, InOneChunk, Straight, Moves;
      Continue(dir, chunks, offset, card, done, index, 1, size - done);
      InChunk(chunks, index, HostSide(dir, r), r.len);
    } else {
      assert WithinChunk(chunks, index, HostSide(dir, r), r.len);
    }
  }

  /** More than one request: the last two go out on the first and the second channel. */
  predicate EndsOnBoth(reqs: seq<Piece>)
  {
    |reqs| >= 2 ==> reqs[|reqs| - 2].via == Dma(1) && reqs[|reqs| - 1].via == Dma(2)
  }

  /** The other requests take the channels in turn, by the number of the chunk they start in. */
  predicate InTurn(reqs: seq<Piece>, first: nat, n: nat)
  {
    n <= |reqs| && forall q :: 0 <= q < n ==> reqs[q].via == Dma(if (first + q) % 2 == 1 then 1 else 2)
  }

  ghost predicate Alternates(chunks: seq<Chunk>, offset: nat, reqs: seq<Piece>)
  {
    |reqs| > 2 ==>
      exists first: nat ::
        first < |chunks| && Start(chunks, first) <= offset < Start(chunks, first + 1) && InTurn(reqs, first, |reqs| - 2)
  }

  /** do_xfer_dual: chunks go out in turn on two channels, the last two after the loop. */
  method XferDual(dir: Direction, chunks: seq<Chunk>, offset: nat, card: nat, size: nat)
    returns (reqs: seq<Piece>)
    requires chunks != [] && offset + size <= Total(chunks)
    ensures AllMoves(reqs) == Straight(dir, chunks, offset, card, size)
    ensures EachInOneChunk(dir, chunks, reqs)
    ensures forall r :: r in reqs ==> r.via == Dma(1) || r.via == Dma(2)
    ensures EndsOnBoth(reqs) && Alternates(chunks, offset, reqs)
  {
    hide AddrAt, InOneChunk, Straight, Moves, AllMoves, WithinChunk, InTurn, Alternates;
    var index: nat, chunkOffset: nat, chunkSize: nat := FindFirstChunk(chunks, offset);
    reqs := [];
    var done: nat, remaining: nat := 0, size;
    NothingDone(dir, chunks, offset, card);
    if chunkOffset + remaining <= chunkSize {
      var r := XferSingleFinish(dir, chunks, offset, card, size, done, index, chunkOffset);
      MovesSnoc(reqs, r);
      reqs := reqs + [r];
      OneAlternates(chunks, offset, reqs);
      return;
    }
    var chunkRemaining := chunkSize - chunkOffset;
    NoneInTurn(index);
    FitsBefore(chunks, index, offset + size);
    var i := index;
    while i < |chunks| - 2
      invariant index <= i < |chunks| - 1 && done + remaining == size
      invariant |reqs| == i - index && InTurn(reqs, index, |reqs|)
      invariant offset + done == Start(chunks, i) + chunkOffset && chunkOffset <= chunks[i].Bytes()
      invariant chunkRemaining == chunks[i].Bytes() - chunkOffset < remaining
      invariant AllMoves(reqs) == Straight(dir, chunks, offset, card, done)
      invariant EachInOneChunk(dir, chunks, reqs)
      invariant forall r :: r in reqs ==> r.via == Dma(1) || r.via == Dma(2)
    {
      var next := chunks[i + 1].Bytes();
      if chunkRemaining + next >= remaining {
        break;
      }
      var channel := if i % 2 == 1 then 1 else 2;
      var r := Request(dir, channel, chunks[i].addr + chunkOffset, card + done, chunkRemaining);
      Continue(dir, chunks, offset, card, done, i, channel, chunkRemaining);
      InChunk(chunks, i, HostSide(dir, r), r.len);
      MovesSnoc(reqs, r);
      NextInTurn(reqs, index, r);
      reqs := reqs + [r];
      done, remaining := done + chunkRemaining, remaining - chunkRemaining;
      chunkOffset, chunkRemaining := 0, next;
      i := i + 1;
    }
    assert i == |chunks| - 2 ==> Total(chunks) == Start(chunks, i + 1) + chunks[i + 1].Bytes();
    ghost var inside := reqs;
    reqs := XferDualFinish(dir, chunks, offset, card, size, done, i, chunkOffset, reqs);
    AllInTurn(chunks, offset, inside, reqs, index);
  }

  lemma NoneInTurn(first: nat)
    ensures InTurn([], first, 0)
  {
  }

  lemma NextInTurn(reqs: seq<Piece>, first: nat, r: Piece)
    requires InTurn(reqs, first, |reqs|) && r.via == Dma(if (first + |reqs|) % 2 == 1 then 1 else 2)
    ensures InTurn(reqs + [r], first, |reqs| + 1)
  {
  }

  lemma OneAlternates(chunks: seq<Chunk>, offset: nat, reqs: seq<Piece>)
    requires |reqs| <= 2
    ensures Alternates(chunks, offset, reqs)
  {
  }

  lemma AllInTurn(chunks: seq<Chunk>, offset: nat, inside: seq<Piece>, reqs: seq<Piece>, first: nat)
    requires first < |chunks| && Start(chunks, first) <= offset < Start(chunks, first) + chunks[first].Bytes()
    requires |reqs| == |inside| + 2 && reqs[..|inside|] == inside && InTurn(inside, first, |inside|)
    ensures Alternates(chunks, offset, reqs)
  {
    forall q | 0 <= q < |inside| ensures reqs[q] == inside[q] { assert reqs[q] == reqs[..|inside|][q]; }
    assert InTurn(reqs, first, |reqs| - 2);
    assert Start(chunks, first + 1) == Start(chunks, first) + chunks[first].Bytes();
  }

  /** A range that starts in chunk `i` and does not end in it needs a later chunk. */
  lemma FitsBefore(chunks: seq<Chunk>, i: nat, end: nat)
    requires i < |chunks| && Start(chunks, i) + chunks[i].Bytes() < end <= Total(chunks)
    ensures i < |chunks| - 1
  {
    assert Total(chunks) == Start(chunks, |chunks| - 1) + chunks[|chunks| - 1].Bytes();
  }

  /** xfer_dual_finish: the rest of chunk `i` and what is left from chunk `i + 1`. */
  method XferDualFinish(dir: Direction, chunks: seq<Chunk>, offset: nat, card: nat, size: nat,
                        done: nat, i: nat, chunkOffset: nat, before: seq<Piece>)
    returns (reqs: seq<Piece>)
    requires i < |chunks| - 1 && done <= size && offset + size <= Total(chunks)
    requires offset + done == Start(chunks, i) + chunkOffset && chunkOffset <= chunks[i].Bytes()
    requires chunks[i].Bytes() - chunkOffset <= size - done <= chunks[i].Bytes() - chunkOffset + chunks[i + 1].Bytes()
    requires AllMoves(before) == Straight(dir, chunks, offset, card, done) && EachInOneChunk(dir, chunks, before)
    ensures AllMoves(reqs) == Straight(dir, chunks, offset, card, size) && EachInOneChunk(dir, chunks, reqs)
    ensures |reqs| == |before| + 2 && reqs[..|before|] == before
    ensures reqs[|before|].via == Dma(1) && reqs[|before| + 1].via == Dma(2)
  {
    hide AddrAt, InOneChunk, Straight, Moves, AllMoves, WithinChunk, Start, Total;
    ChunkEnds(chunks, i);
    var chunkRemaining := chunks[i].Bytes() - chunkOffset;
    var first := Request(dir, 1, chunks[i].addr + chunkOffset, card + done, chunkRemaining);
    Continue(dir, chunks, offset, card, done, i, 1, chunkRemaining);
    InChunk(chunks, i, HostSide(dir, first), first.len);
    MovesSnoc(before, first);
    var rest := size - done - chunkRemaining;
    var second := Request(dir, 2, chunks[i + 1].addr, card + done + chunkRemaining, rest);
    Continue(dir, chunks, offset, card, done + chunkRemaining, i + 1, 2, rest);
    InChunk(chunks, i + 1, HostSide(dir, second), second.len);
    MovesSnoc(before + [first], second);
    reqs := before + [first] + [second];
  }

  /** do_xfer. */
  method DoXfer(dir: Direction, chunks: seq<Chunk>, rangeSize: nat, offset: nat, card: nat, size: nat,
                flags: Channels)
    returns (r: Result<seq<Piece>>)
    requires chunks != [] && (offset + size <= rangeSize ==> offset + size <= Total(chunks))
    ensures r.Ok? <==> offset + size <= rangeSize && flags != Unknown
    ensures r.Ok? ==> AllMoves(r.value) == Straight(dir, chunks, offset, card, size)
                      && EachInOneChunk(dir, chunks, r.value)
    ensures r.Ok? && flags == Dual ==>
      && (forall p :: p in r.value ==> p.via == Dma(1) || p.via == Dma(2))
      && EndsOnBoth(r.value) && Alternates(chunks, offset, r.value)
    ensures r.Ok? && flags != Dual ==> forall p :: p in r.value ==> p.via == Dma(1)
    ensures r.Err? ==> r.code == -EINVAL
  {
    if offset + size > rangeSize || flags == Unknown {
      return Err(-EINVAL);
    }
    var reqs;
    if flags == Dual {
      reqs := XferDual(dir, chunks, offset, card, size);
    } else {
      reqs := XferSingle(dir, chunks, offset, card, size);
    }
    r := Ok(reqs);
  }

  /** The card range meets none of the host chunks. */
  predicate CardApart(chunks: seq<Chunk>, card: nat, size: nat)
  {
    forall i :: 0 <= i < |chunks| ==> Apart(chunks[i].addr, chunks[i].Bytes(), card, size)
  }

  lemma StraightUnambiguous(dir: Direction, chunks: seq<Chunk>, offset: nat, card: nat, size: nat)
    requires offset + size <= Total(chunks) && DisjointChunks(chunks) && CardApart(chunks, card, size)
    ensures Unambiguous(Straight(dir, chunks, offset, card, size))
  {
    var moves := Straight(dir, chunks, offset, card, size);
    forall a, b | a in moves && b in moves ensures a.dst != b.src && (a.dst == b.dst ==> a.src == b.src) {
      var i :| 0 <= i < size && moves[i] == a;
      var j :| 0 <= j < size && moves[j] == b;
      OutsideCard(chunks, card, size, offset + i);
      OutsideCard(chunks, card, size, offset + j);
      if i != j { AddressesDiffer(chunks, offset + i, offset + j); }
      hide AddrAt, Start;
    }
  }

  lemma OutsideCard(chunks: seq<Chunk>, card: nat, size: nat, o: nat)
    requires o < Total(chunks) && CardApart(chunks, card, size)
    ensures AddrAt(chunks, o) < card || card + size <= AddrAt(chunks, o)
  {
    var i := ChunkHolding(chunks, |chunks|, o);
    AddrInChunk(chunks, i, o);
    hide AddrAt, Start;
    assert Apart(chunks[i].addr, chunks[i].Bytes(), card, size);
  }

  /** Whatever the order in which the requested bytes arrive, on one channel or two, byte `k`
      of the range ends up where one straight copy puts it. */
  lemma TransferDelivers(mem: seq<byte>, dir: Direction, chunks: seq<Chunk>, offset: nat, card: nat,
                         size: nat, arrival: seq<Move>, k: nat)
    requires offset + size <= Total(chunks) && DisjointChunks(chunks) && CardApart(chunks, card, size)
    requires InMemory(mem, Straight(dir, chunks, offset, card, size)) && k < size
    requires multiset(arrival) == multiset(Straight(dir, chunks, offset, card, size))
    ensures InMemory(mem, arrival) && card + k < |mem| && AddrAt(chunks, offset + k) < |mem|
    ensures dir == HostToDevice ==> Exec(mem, arrival)[card + k] == mem[AddrAt(chunks, offset + k)]
    ensures dir == DeviceToHost ==> Exec(mem, arrival)[AddrAt(chunks, offset + k)] == mem[card + k]
  {
    hide AddrAt, Start, Total, Unambiguous, Exec, Straight, DisjointChunks, CardApart, InMemory;
    StraightUnambiguous(dir, chunks, offset, card, size);
    StraightHas(dir, chunks, offset, card, size, k);
    var m := StraightMove(dir, chunks, offset, card, k);
    DeliveredInAnyOrder(mem, Straight(dir, chunks, offset, card, size), arrival, m);
  }

  /** And nothing else changes: `a` is outside the card range, or behind no byte of the host range. */
  lemma TransferKeeps(mem: seq<byte>, dir: Direction, chunks: seq<Chunk>, offset: nat, card: nat,
                      size: nat, arrival: seq<Move>, a: nat)
    requires offset + size <= Total(chunks) && DisjointChunks(chunks) && CardApart(chunks, card, size) && a < |mem|
    requires InMemory(mem, Straight(dir, chunks, offset, card, size))
    requires multiset(arrival) == multiset(Straight(dir, chunks, offset, card, size))
    requires forall k :: 0 <= k < size ==> StraightMove(dir, chunks, offset, card, k).dst != a
    ensures InMemory(mem, arrival) && Exec(mem, arrival)[a] == mem[a]
  {
    hide AddrAt, Start, Total, Unambiguous, Exec, DisjointChunks, CardApart, InMemory, StraightMove;
    StraightUnambiguous(dir, chunks, offset, card, size);
    var moves := Straight(dir, chunks, offset, card, size);
    forall m | m in moves ensures m.dst != a {
      var k :| 0 <= k < size && moves[k] == m;
      assert m == StraightMove(dir, chunks, offset, card, k);
    }
    KeptInAnyOrder(mem, moves, arrival, a);
  }

  lemma StraightHas(dir: Direction, chunks: seq<Chunk>, offset: nat, card: nat, size: nat, k: nat)
    requires offset + size <= Total(chunks) && k < size
    ensures StraightMove(dir, chunks, offset, card, k) in Straight(dir, chunks, offset, card, size)
  {
    hide StraightMove;
    assert Straight(dir, chunks, offset, card, size)[k] == StraightMove(dir, chunks, offset, card, k);
  }

  // ------------------------------------------------------------ descriptors

  /** MAX_DMA_XFER_SIZE on the host. */
  const MAX_DMA_XFER_SIZE: nat := 512 * 1024

  /** How many descriptors of the maximum size it takes. */
  function LeastCount(len: nat): nat { (len + MAX_DMA_XFER_SIZE - 1) / MAX_DMA_XFER_SIZE }

  predicate Bounded(descs: seq<Piece>, via: Via)
  {
    forall d <- descs :: 0 < d.len <= MAX_DMA_XFER_SIZE && d.via == via
  }

  /** The descriptors move exactly the bytes of the request, in order, with no more pieces than
      it takes. */
  predicate Splits(descs: seq<Piece>, request: Piece)
  {
    AllMoves(descs) == Moves(request) && Bounded(descs, request.via) && |descs| == LeastCount(request.len)
  }

  /** program_memcpy_descriptors: one request becomes descriptors of bounded size. */
  method ProgramDescriptors(request: Piece) returns (descs: seq<Piece>)
    requires request.len > 0
    ensures Splits(descs, request)
  {
    descs := [];
    var src, dst, len := request.src, request.dst, request.len;
    while true
      invariant 0 < len <= request.len && src == request.src + (request.len - len)
      invariant dst == request.dst + (request.len - len)
      invariant request.len - len == |descs| * MAX_DMA_XFER_SIZE
      invariant AllMoves(descs) == Moves(request)[..request.len - len]
      invariant Bounded(descs, request.via)
      decreases len
    {
      var current := if len > MAX_DMA_XFER_SIZE then MAX_DMA_XFER_SIZE else len;
      var d := Piece(request.via, src, dst, current);
      MovesSnoc(descs, d);
      var at := request.len - len;
      assert Moves(request)[..at] + Moves(d) == Moves(request)[..at + current];
      descs := descs + [d];
      src, dst, len := src + current, dst + current, len - current;
      if len == 0 {
        break;
      }
    }
  }

  // ----------------------------------------------------------- mapped ranges

  /** What chunk `t` of a mapping that begins in chunk `k0` becomes: the first is moved up to
      the first page, the others are kept. */
  function MappedChunk(pinned: seq<Chunk>, k0: nat, first: nat, t: nat): Chunk
    requires k0 + t < |pinned| && Start(pinned, k0) <= PageBytes(first)
  {
    if t == 0 then Chunk(pinned[k0].addr + (PageBytes(first) - Start(pinned, k0)), pinned[k0].pages)
    else pinned[k0 + t]
  }

  function MappedChunks(pinned: seq<Chunk>, k0: nat, first: nat, n: nat): (r: seq<Chunk>)
    requires k0 + n <= |pinned| && k0 < |pinned| && Start(pinned, k0) <= PageBytes(first)
    ensures |r| == n
  {
    seq(n, t requires 0 <= t < n => MappedChunk(pinned, k0, first, t))
  }

  lemma MappedSnoc(pinned: seq<Chunk>, k0: nat, first: nat, n: nat)
    requires k0 + n < |pinned| && Start(pinned, k0) <= PageBytes(first)
    ensures MappedChunks(pinned, k0, first, n) + [MappedChunk(pinned, k0, first, n)]
         == MappedChunks(pinned, k0, first, n + 1)
  {
  }

  lemma TotalSnoc(chunks: seq<Chunk>, c: Chunk)
    ensures Total(chunks + [c]) == Total(chunks) + c.Bytes()
  {
    StartAgrees(chunks, chunks + [c], |chunks|);
  }

  lemma {:induction false} StartAgrees(a: seq<Chunk>, b: seq<Chunk>, n: nat)
    requires n <= |a| && n <= |b| && forall t :: 0 <= t < n ==> a[t].pages == b[t].pages
    ensures Start(a, n) == Start(b, n)
  {
    if n > 0 { StartAgrees(a, b, n - 1); }
  }

  /** Chunk `k0` holds page `first`. */
  predicate HoldsPage(pinned: seq<Chunk>, k0: nat, first: nat)
  {
    k0 < |pinned| && Start(pinned, k0) <= PageBytes(first) < Start(pinned, k0) + pinned[k0].Bytes()
  }

  /** Pages `first .. last` became `m` chunks from pinned chunk `k0` on and one more, whose lengths
      add up to the bytes from the start of chunk `k0`. */
  predicate MapsTo(pinned: seq<Chunk>, first: nat, last: nat, k0: nat, m: nat, mapped: seq<Chunk>)
  {
    && HoldsPage(pinned, k0, first) && k0 + m < |pinned| && |mapped| == m + 1 && first <= last
    && mapped[..m] == MappedChunks(pinned, k0, first, m)
    && mapped[m].addr == MappedChunk(pinned, k0, first, m).addr
    && mapped[m].pages <= pinned[k0 + m].pages
    && Total(mapped) == PageBytes(last) - Start(pinned, k0) && PageBytes(last) <= Total(pinned)
  }

  /** init_coalesce_range_pages. `k0` is the pinned chunk holding the first page and `m` the
      number of chunks mapped before the last. */
  method MapRange(pinned: seq<Chunk>, offset: nat, len: nat) returns (r: Result<seq<Chunk>>, k0: nat, m: nat)
    requires forall c :: c in pinned ==> c.pages > 0
    ensures var first, last := PageOf(offset), PageOf(offset) + PageOf(len);
      && (r.Ok? <==> PageBytes(last) <= Total(pinned)) && (r.Err? ==> r.code == -EINVAL)
      && (r.Ok? && PageBytes(first) == Total(pinned) ==> r.value == [])
      && (r.Ok? && PageBytes(first) < Total(pinned) ==>
            && MapsTo(pinned, first, last, k0, m, r.value)
            && (Total(r.value) == PageBytes(PageOf(len)) <==> Start(pinned, k0) == PageBytes(first)))
  {
    hide MappedChunks, Start, Total, MappedChunk;
    EmptyStart(pinned);
    var first, last := PageOf(offset), PageOf(offset) + PageOf(len);
    k0, m := 0, 0;
    if PageBytes(last) > Total(pinned) {
      return Err(-EINVAL), 0, 0;
    }
    var mapped: seq<Chunk> := [];
    var i: nat, j: nat := 0, 0;
    while j < |pinned|
      invariant j <= |pinned| && PageBytes(i) == Start(pinned, j)
      invariant mapped == [] ==> i <= first
      invariant mapped != [] ==> first < i < last && j == k0 + |mapped| && HoldsPage(pinned, k0, first)
      invariant mapped != [] ==> mapped == MappedChunks(pinned, k0, first, |mapped|)
      invariant mapped != [] ==> Total(mapped) == Start(pinned, j) - Start(pinned, k0)
    {
      var nr := pinned[j].pages;
      ChunkEnds(pinned, j);
      if first >= i + nr {
        i, j := i + nr, j + 1;
        continue;
      }
      var addr := pinned[j].addr;
      if first > i {
        addr := addr + PageBytes(first - i);
      }
      if last < i + nr {
        nr := last - i;
      }
      if mapped == [] {
        k0 := j;
        FirstChunkMapped(pinned, k0, first);
      }
      m := |mapped|;
      TotalSnoc(mapped, Chunk(addr, nr));
      MappedSnoc(pinned, k0, first, m);
      MappedChunkIs(pinned, k0, first, m);
      mapped := mapped + [Chunk(addr, nr)];
      if last == i + nr {
        return Ok(mapped), k0, m;
      }
      i, j := i + nr, j + 1;
    }
    r := Ok(mapped);
  }

  lemma EmptyStart(pinned: seq<Chunk>)
    ensures Start(pinned, 0) == 0 && Start(pinned, |pinned|) == Total(pinned)
  {
  }

  lemma MappedChunkIs(pinned: seq<Chunk>, k0: nat, first: nat, t: nat)
    requires k0 + t < |pinned| && Start(pinned, k0) <= PageBytes(first)
    ensures var c := MappedChunk(pinned, k0, first, t);
      && c.pages == pinned[k0 + t].pages
      && c.addr == pinned[k0 + t].addr + if t == 0 then PageBytes(first) - Start(pinned, k0) else 0
  {
  }

  lemma FirstChunkMapped(pinned: seq<Chunk>, k0: nat, first: nat)
    requires HoldsPage(pinned, k0, first)
    ensures MappedChunks(pinned, k0, first, 0) == [] && Total([]) == 0
  {
  }

  lemma {:induction false} MappedStart(pinned: seq<Chunk>, k0: nat, mapped: seq<Chunk>, t: nat)
    requires t <= |mapped| && k0 + |mapped| <= |pinned|
    requires forall u :: 0 <= u < t ==> mapped[u].pages == pinned[k0 + u].pages
    ensures Start(mapped, t) == Start(pinned, k0 + t) - Start(pinned, k0)
  {
    if t > 0 { MappedStart(pinned, k0, mapped, t - 1); }
  }

  /** A mapping that starts on a chunk boundary addresses exactly the pinned bytes. */
  lemma MappedFaithfully(pinned: seq<Chunk>, k0: nat, first: nat, m: nat, mapped: seq<Chunk>, x: nat)
    requires k0 + m < |pinned| && |mapped| == m + 1 && x < Total(mapped)
    requires Start(pinned, k0) == PageBytes(first)
    requires mapped[..m] == MappedChunks(pinned, k0, first, m)
    requires mapped[m].addr == pinned[k0 + m].addr && mapped[m].pages <= pinned[k0 + m].pages
    ensures Start(pinned, k0) + x < Total(pinned)
    ensures AddrAt(mapped, x) == AddrAt(pinned, Start(pinned, k0) + x)
  {
    var t := ChunkHolding(mapped, |mapped|, x);
    forall u | 0 <= u < m ensures mapped[u] == pinned[k0 + u] {
      assert mapped[u] == mapped[..m][u];
    }
    MappedStart(pinned, k0, mapped, t);
    AddrInChunk(mapped, t, x);
    AddrInChunk(pinned, k0 + t, Start(pinned, k0) + x);
  }

  /** How far into chunk `k0` the range starts. */
  function Inside(pinned: seq<Chunk>, k0: nat, first: nat): nat
    requires k0 < |pinned| && Start(pinned, k0) <= PageBytes(first)
  {
    PageBytes(first) - Start(pinned, k0)
  }

  lemma MappedHead(pinned: seq<Chunk>, first: nat, last: nat, k0: nat, m: nat, mapped: seq<Chunk>)
    requires MapsTo(pinned, first, last, k0, m, mapped)
    ensures mapped[0].addr == pinned[k0].addr + Inside(pinned, k0, first)
    ensures mapped[0].pages <= pinned[k0].pages && mapped[0].Bytes() <= Total(mapped)
    ensures m > 0 ==> mapped[0].pages == pinned[k0].pages
    ensures m == 0 ==> mapped[0].Bytes() == Total(mapped)
    ensures forall t :: 1 <= t <= m ==>
      mapped[t].addr == pinned[k0 + t].addr && mapped[t].pages <= pinned[k0 + t].pages
  {
    forall t | 0 <= t < m ensures mapped[t] == MappedChunk(pinned, k0, first, t) { assert mapped[t] == mapped[..m][t]; }
    ChunkEnds(mapped, 0);
    assert Start(mapped, 0) == 0;
  }

  /** Every mapped chunk stays inside its pinned chunk exactly when the range starts on a chunk
      boundary, or its start and its length from the start of the chunk fit in the first chunk. */
  lemma MappedInside(pinned: seq<Chunk>, first: nat, last: nat, k0: nat, m: nat, mapped: seq<Chunk>)
    requires MapsTo(pinned, first, last, k0, m, mapped)
    ensures (forall t :: 0 <= t <= m ==> WithinChunk(pinned, k0 + t, mapped[t].addr, mapped[t].Bytes()))
      <==> var d := Inside(pinned, k0, first);
           d == 0 || d + (PageBytes(last) - Start(pinned, k0)) <= pinned[k0].Bytes()
  {
    hide MapsTo, Start, Total;
    MapsFacts(pinned, first, last, k0, m, mapped);
    MappedHead(pinned, first, last, k0, m, mapped);
    assert WithinChunk(pinned, k0 + 0, mapped[0].addr, mapped[0].Bytes()) <==>
        Inside(pinned, k0, first) + mapped[0].Bytes() <= pinned[k0].Bytes();
  }

  lemma MapsFacts(pinned: seq<Chunk>, first: nat, last: nat, k0: nat, m: nat, mapped: seq<Chunk>)
    requires MapsTo(pinned, first, last, k0, m, mapped)
    ensures k0 + m < |pinned| && |mapped| == m + 1 && HoldsPage(pinned, k0, first)
    ensures Total(mapped) == PageBytes(last) - Start(pinned, k0) && first <= last && PageBytes(last) <= Total(pinned)
  {
  }

  /** The bytes asked for lie one behind the other in memory from inside chunk `k0` on, and are no
      more than that chunk has. */
  ghost predicate OneStretch(pinned: seq<Chunk>, first: nat, last: nat, k0: nat)
    requires HoldsPage(pinned, k0, first) && PageBytes(last) <= Total(pinned)
  {
    && PageBytes(last) - PageBytes(first) <= pinned[k0].Bytes()
    && forall o: nat :: PageBytes(first) <= o < PageBytes(last) ==>
         AddrAt(pinned, o) == pinned[k0].addr + (o - Start(pinned, k0))
  }

  /** Every byte asked for has the address of the pinned byte exactly when the range starts on a
      chunk boundary or is one such stretch. */
  lemma MappedRightExactly(pinned: seq<Chunk>, first: nat, last: nat, k0: nat, m: nat, mapped: seq<Chunk>)
    requires MapsTo(pinned, first, last, k0, m, mapped) && DisjointChunks(pinned)
    requires forall c :: c in pinned ==> c.pages > 0
    ensures (forall x: nat :: x < PageBytes(last) - PageBytes(first) ==> RightByte(pinned, mapped, first, x))
      <==> Inside(pinned, k0, first) == 0 || OneStretch(pinned, first, last, k0)
  {
    hide MapsTo, Start, Total, AddrAt, MappedChunks, MappedChunk, DisjointChunks;
    MapsFacts(pinned, first, last, k0, m, mapped);
    var d, len := Inside(pinned, k0, first), PageBytes(last) - PageBytes(first);
    if d == 0 {
      forall x: nat | x < len ensures RightByte(pinned, mapped, first, x) {
        BoundaryByte(pinned, first, last, k0, m, mapped, x);
      }
    } else if len <= pinned[k0].Bytes() {
      forall x: nat | x < len
        ensures RightByte(pinned, mapped, first, x) <==>
          AddrAt(pinned, PageBytes(first) + x) == pinned[k0].addr + (PageBytes(first) + x - Start(pinned, k0))
      {
        FirstChunkByte(pinned, first, last, k0, m, mapped, x);
      }
      StretchBytes(pinned, mapped, first, last, k0);
    } else {
      WrongByte(pinned, first, last, k0, m, mapped);
    }
  }

  lemma StretchBytes(pinned: seq<Chunk>, mapped: seq<Chunk>, first: nat, last: nat, k0: nat)
    requires HoldsPage(pinned, k0, first) && PageBytes(last) <= Total(pinned)
    requires PageBytes(last) - PageBytes(first) <= pinned[k0].Bytes()
    requires forall x: nat :: x < PageBytes(last) - PageBytes(first) ==>
      (RightByte(pinned, mapped, first, x) <==>
         AddrAt(pinned, PageBytes(first) + x) == pinned[k0].addr + (PageBytes(first) + x - Start(pinned, k0)))
    ensures (forall x: nat :: x < PageBytes(last) - PageBytes(first) ==> RightByte(pinned, mapped, first, x))
      <==> OneStretch(pinned, first, last, k0)
  {
    hide Start, Total, AddrAt, RightByte;
    if forall x: nat :: x < PageBytes(last) - PageBytes(first) ==> RightByte(pinned, mapped, first, x) {
      forall o: nat | PageBytes(first) <= o < PageBytes(last)
        ensures AddrAt(pinned, o) == pinned[k0].addr + (o - Start(pinned, k0))
      {
        assert RightByte(pinned, mapped, first, o - PageBytes(first));
      }
    }
    if OneStretch(pinned, first, last, k0) {
      forall x: nat | x < PageBytes(last) - PageBytes(first) ensures RightByte(pinned, mapped, first, x) {
        var o := PageBytes(first) + x;
        assert AddrAt(pinned, o) == pinned[k0].addr + (o - Start(pinned, k0));
      }
    }
  }

  /** Byte `x` of the mapping is byte `x` of the pinned range from page `first` on. */
  predicate RightByte(pinned: seq<Chunk>, mapped: seq<Chunk>, first: nat, x: nat)
  {
    && x < Total(mapped) && PageBytes(first) + x < Total(pinned)
    && AddrAt(mapped, x) == AddrAt(pinned, PageBytes(first) + x)
  }

  lemma BoundaryByte(pinned: seq<Chunk>, first: nat, last: nat, k0: nat, m: nat, mapped: seq<Chunk>, x: nat)
    requires MapsTo(pinned, first, last, k0, m, mapped) && Inside(pinned, k0, first) == 0
    requires x < PageBytes(last) - PageBytes(first)
    ensures RightByte(pinned, mapped, first, x)
  {
    hide Start, Total, AddrAt, MappedChunks;
    MappedFaithfully(pinned, k0, first, m, mapped, x);
  }

  /** A byte no further than the length of chunk `k0` is mapped straight behind its start. */
  lemma FirstChunkByte(pinned: seq<Chunk>, first: nat, last: nat, k0: nat, m: nat, mapped: seq<Chunk>, x: nat)
    requires MapsTo(pinned, first, last, k0, m, mapped)
    requires x < PageBytes(last) - PageBytes(first) <= pinned[k0].Bytes()
    ensures PageBytes(first) + x < Total(pinned)
    ensures RightByte(pinned, mapped, first, x) <==>
      AddrAt(pinned, PageBytes(first) + x) == pinned[k0].addr + (PageBytes(first) + x - Start(pinned, k0))
  {
    hide MapsTo, Start, Total, AddrAt, MappedChunks, MappedChunk;
    MapsFacts(pinned, first, last, k0, m, mapped);
    MappedHead(pinned, first, last, k0, m, mapped);
    EmptyStart(mapped);
    AddrInChunk(mapped, 0, x);
  }

  /** A range longer than the chunk it starts inside: the byte that many bytes in comes from the
      start of the next chunk, too early. */
  lemma WrongByte(pinned: seq<Chunk>, first: nat, last: nat, k0: nat, m: nat, mapped: seq<Chunk>)
    requires MapsTo(pinned, first, last, k0, m, mapped) && DisjointChunks(pinned)
    requires forall c :: c in pinned ==> c.pages > 0
    requires Inside(pinned, k0, first) > 0 && PageBytes(last) - PageBytes(first) > pinned[k0].Bytes()
    ensures !RightByte(pinned, mapped, first, pinned[k0].Bytes())
  {
    hide MapsTo, Start, Total, AddrAt, MappedChunks, MappedChunk, DisjointChunks;
    MapsFacts(pinned, first, last, k0, m, mapped);
    MappedHead(pinned, first, last, k0, m, mapped);
    EmptyStart(mapped);
    ChunkEnds(pinned, k0);
    ChunkEnds(mapped, 0);
    SecondChunk(pinned, first, last, k0, m, mapped);
    var x, next := pinned[k0].Bytes(), Start(pinned, k0) + pinned[k0].Bytes();
    assert pinned[k0 + 1] in pinned;
    AddrInChunk(mapped, 1, x);
    AddrInChunk(pinned, k0 + 1, next);
    AddressesDiffer(pinned, next, PageBytes(first) + x);
  }

  /** There is a second chunk, and it is not empty. */
  lemma SecondChunk(pinned: seq<Chunk>, first: nat, last: nat, k0: nat, m: nat, mapped: seq<Chunk>)
    requires MapsTo(pinned, first, last, k0, m, mapped) && forall c :: c in pinned ==> c.pages > 0
    requires Inside(pinned, k0, first) > 0 && PageBytes(last) - PageBytes(first) > pinned[k0].Bytes()
    ensures m > 0 && mapped[1].Bytes() > 0
  {
    MappedHead(pinned, first, last, k0, m, mapped);
    if m == 1 {
      assert Total(mapped) == Start(mapped, 1) + mapped[1].Bytes();
      assert Start(mapped, 1) == Start(mapped, 0) + mapped[0].Bytes();
    } else if m > 1 {
      assert mapped[1] == mapped[..m][1] == pinned[k0 + 1] && pinned[k0 + 1] in pinned;
    }
  }

  /** Page 1 of a chunk of two pages: two pages are mapped. */
  method MapSecondPage() returns (mapped: seq<Chunk>)
    ensures MapsTo([Chunk(0, 2)], 1, 2, 0, 0, mapped) && Total(mapped) == PageBytes(2)
  {
    hide MapsTo, MappedChunks, MappedChunk;
    var pinned := [Chunk(0, 2)];
    assert Start(pinned, 0) == 0 && Total(pinned) == 8192;
    var r, k0, m := MapRange(pinned, 4096, 4096);
    MapsFacts(pinned, 1, 2, k0, m, r.value);
    mapped := r.value;
  }
}
