/** What a copy made of many pieces does to memory, and the address lists that
    describe a logically contiguous range. Shared by the transfer and RMA engines. */
module Copying {
  import opened Bits

  /** Pages are 4096 bytes. The literal is repeated so that products with it stay linear. */
  function PageBytes(pages: nat): nat { pages * 4096 }
  function PageOf(offset: nat): nat { offset / 4096 }
  function InPage(offset: nat): nat { offset % 4096 }

  /** How a piece travels: by the processor, or as a request on a DMA channel. */
  datatype Via = Cpu | Dma(channel: nat)

  datatype Piece = Piece(via: Via, src: nat, dst: nat, len: nat)

  /** One byte copied from one address to another. */
  datatype Move = Move(src: nat, dst: nat)

  function Moves(p: Piece): (r: seq<Move>)
    ensures |r| == p.len
  {
    seq(p.len, i requires 0 <= i => Move(p.src + i, p.dst + i))
  }

  function AllMoves(ps: seq<Piece>): seq<Move>
  {
    if ps == [] then [] else AllMoves(ps[..|ps| - 1]) + Moves(ps[|ps| - 1])
  }

  lemma MovesSnoc(ps: seq<Piece>, p: Piece)
    ensures AllMoves(ps + [p]) == AllMoves(ps) + Moves(p)
  {
    assert (ps + [p])[..|ps|] == ps;
  }

  lemma LastMove(p: Piece)
    requires p.len > 0
    ensures Moves(p) == Moves(p.(len := p.len - 1)) + [Move(p.src + p.len - 1, p.dst + p.len - 1)]
  {
  }

  // ---------------------------------------------------------------- effects

  predicate InMemory(mem: seq<byte>, moves: seq<Move>)
  {
    forall i :: 0 <= i < |moves| ==> moves[i].src < |mem| && moves[i].dst < |mem|
  }

  /** The moves carried out one after the other. */
  function Exec(mem: seq<byte>, moves: seq<Move>): (r: seq<byte>)
    requires InMemory(mem, moves)
    ensures |r| == |mem|
  {
    if moves == [] then mem
    else
      var m, last := Exec(mem, moves[..|moves| - 1]), moves[|moves| - 1];
      m[last.dst := m[last.src]]
  }

  /** No byte written is read, and no address is written with two different bytes. */
  ghost predicate Unambiguous(moves: seq<Move>)
  {
    forall a, b :: a in moves && b in moves ==> a.dst != b.src && (a.dst == b.dst ==> a.src == b.src)
  }

  lemma {:induction false} ExecKeeps(mem: seq<byte>, moves: seq<Move>, a: nat)
    requires InMemory(mem, moves) && a < |mem|
    requires forall m :: m in moves ==> m.dst != a
    ensures Exec(mem, moves)[a] == mem[a]
  {
    if moves != [] {
      assert moves[|moves| - 1] in moves;
      ExecKeeps(mem, moves[..|moves| - 1], a);
    }
  }

  /** Every destination byte of an unambiguous copy ends up holding its source byte. */
  lemma {:induction false} ExecDelivers(mem: seq<byte>, moves: seq<Move>, m: Move)
    requires InMemory(mem, moves) && Unambiguous(moves) && m in moves
    ensures m.src < |mem| && m.dst < |mem| && Exec(mem, moves)[m.dst] == mem[m.src]
  {
    var front, last := moves[..|moves| - 1], moves[|moves| - 1];
    assert last in moves && forall x :: x in front ==> x in moves;
    if last.dst == m.dst {
      ExecKeeps(mem, front, last.src);
    } else {
      assert m in front;
      ExecDelivers(mem, front, m);
    }
  }

  /** The order in which the bytes of an unambiguous copy travel does not matter. */
  lemma AnyOrder(mem: seq<byte>, moves: seq<Move>, moves': seq<Move>)
    requires InMemory(mem, moves) && Unambiguous(moves) && multiset(moves) == multiset(moves')
    ensures InMemory(mem, moves') && Exec(mem, moves') == Exec(mem, moves)
  {
    SameElements(moves, moves');
    forall i | 0 <= i < |moves'| ensures moves'[i].src < |mem| && moves'[i].dst < |mem| {
      assert moves'[i] in moves;
    }
    forall a | 0 <= a < |mem| ensures Exec(mem, moves')[a] == Exec(mem, moves)[a] {
      if m :| m in moves && m.dst == a {
        ExecDelivers(mem, moves, m);
        ExecDelivers(mem, moves', m);
      } else {
        ExecKeeps(mem, moves, a);
        ExecKeeps(mem, moves', a);
      }
    }
  }

  lemma DeliveredInAnyOrder(mem: seq<byte>, moves: seq<Move>, arrival: seq<Move>, m: Move)
    requires InMemory(mem, moves) && Unambiguous(moves) && multiset(moves) == multiset(arrival) && m in moves
    ensures InMemory(mem, arrival) && m.src < |mem| && m.dst < |mem|
    ensures Exec(mem, arrival)[m.dst] == mem[m.src]
  {
    hide Exec;
    AnyOrder(mem, moves, arrival);
    ExecDelivers(mem, moves, m);
  }

  lemma KeptInAnyOrder(mem: seq<byte>, moves: seq<Move>, arrival: seq<Move>, a: nat)
    requires InMemory(mem, moves) && Unambiguous(moves) && multiset(moves) == multiset(arrival)
    requires a < |mem| && forall m :: m in moves ==> m.dst != a
    ensures InMemory(mem, arrival) && Exec(mem, arrival)[a] == mem[a]
  {
    hide Exec;
    AnyOrder(mem, moves, arrival);
    ExecKeeps(mem, moves, a);
  }

  lemma SameElements(a: seq<Move>, b: seq<Move>)
    requires multiset(a) == multiset(b)
    ensures forall m :: m in a <==> m in b
  {
    forall m ensures m in a <==> m in b {
      assert m in a <==> m in multiset(a);
      assert m in b <==> m in multiset(b);
    }
  }

  // ----------------------------------------------------------- chunk lists

  /** `pages` contiguous pages from bus address `addr` on. */
  datatype Chunk = Chunk(addr: nat, pages: nat) {
    function Bytes(): nat { PageBytes(pages) }
  }

  /** Logical offset of the first byte of chunk `i`. */
  function Start(chunks: seq<Chunk>, i: nat): nat
    requires i <= |chunks|
  {
    if i == 0 then 0 else Start(chunks, i - 1) + chunks[i - 1].Bytes()
  }

  function Total(chunks: seq<Chunk>): nat
  {
    Start(chunks, |chunks|)
  }

  /** Address of logical byte `o`, looking from chunk `i` on. */
  function AddrFrom(chunks: seq<Chunk>, i: nat, o: nat): nat
    requires i <= |chunks| && Start(chunks, i) <= o < Total(chunks)
    decreases |chunks| - i
  {
    if o < Start(chunks, i) + chunks[i].Bytes() then chunks[i].addr + (o - Start(chunks, i))
    else AddrFrom(chunks, i + 1, o)
  }

  function AddrAt(chunks: seq<Chunk>, o: nat): nat
    requires o < Total(chunks)
  {
    AddrFrom(chunks, 0, o)
  }

  lemma {:induction false} StartMonotone(chunks: seq<Chunk>, i: nat, j: nat)
    requires i <= j <= |chunks|
    ensures Start(chunks, i) <= Start(chunks, j)
  {
    if i < j { StartMonotone(chunks, i, j - 1); }
  }

  lemma ChunkEnds(chunks: seq<Chunk>, i: nat)
    requires i < |chunks|
    ensures Start(chunks, i + 1) == Start(chunks, i) + chunks[i].Bytes() <= Total(chunks)
  {
    StartMonotone(chunks, i + 1, |chunks|);
  }

  lemma {:induction false} AddrFromChunk(chunks: seq<Chunk>, j: nat, i: nat, o: nat)
    requires j <= i < |chunks| && Start(chunks, i) <= o < Start(chunks, i) + chunks[i].Bytes()
    ensures Start(chunks, j) <= o < Total(chunks)
    ensures AddrFrom(chunks, j, o) == chunks[i].addr + (o - Start(chunks, i))
    decreases i - j
  {
    StartMonotone(chunks, j, i);
    StartMonotone(chunks, i + 1, |chunks|);
    if j < i {
      StartMonotone(chunks, j + 1, i);
      AddrFromChunk(chunks, j + 1, i, o);
    }
  }

  /** Within a chunk, logical offsets and addresses advance together. */
  lemma AddrInChunk(chunks: seq<Chunk>, i: nat, o: nat)
    requires i < |chunks| && Start(chunks, i) <= o < Start(chunks, i) + chunks[i].Bytes()
    ensures o < Total(chunks) && AddrAt(chunks, o) == chunks[i].addr + (o - Start(chunks, i))
  {
    AddrFromChunk(chunks, 0, i, o);
  }

  predicate WithinChunk(chunks: seq<Chunk>, i: int, addr: nat, len: nat)
  {
    0 <= i < |chunks| && chunks[i].addr <= addr && addr + len <= chunks[i].addr + chunks[i].Bytes()
  }

  ghost predicate InOneChunk(chunks: seq<Chunk>, addr: nat, len: nat)
  {
    exists i :: WithinChunk(chunks, i, addr, len)
  }

  /** The chunk that holds logical byte `o`. */
  lemma {:induction false} ChunkHolding(chunks: seq<Chunk>, n: nat, o: nat) returns (i: nat)
    requires n <= |chunks| && o < Start(chunks, n)
    ensures i < n && Start(chunks, i) <= o < Start(chunks, i) + chunks[i].Bytes()
    decreases n
  {
    if o < Start(chunks, n - 1) {
      i := ChunkHolding(chunks, n - 1, o);
    } else {
      i := n - 1;
    }
  }

  predicate Apart(a: nat, n: nat, b: nat, m: nat)
  {
    a + n <= b || b + m <= a
  }

  predicate DisjointChunks(chunks: seq<Chunk>)
  {
    forall i, j :: 0 <= i < j < |chunks| ==>
      Apart(chunks[i].addr, chunks[i].Bytes(), chunks[j].addr, chunks[j].Bytes())
  }

  /** Chunks that do not overlap give every logical byte its own address. */
  lemma AddressesDiffer(chunks: seq<Chunk>, o: nat, o': nat)
    requires DisjointChunks(chunks) && o < Total(chunks) && o' < Total(chunks) && o != o'
    ensures AddrAt(chunks, o) != AddrAt(chunks, o')
  {
    var i := ChunkHolding(chunks, |chunks|, o);
    var j := ChunkHolding(chunks, |chunks|, o');
    AddrInChunk(chunks, i, o);
    AddrInChunk(chunks, j, o');
    hide AddrAt, Start;
    assert i < j ==> Apart(chunks[i].addr, chunks[i].Bytes(), chunks[j].addr, chunks[j].Bytes());
    assert j < i ==> Apart(chunks[j].addr, chunks[j].Bytes(), chunks[i].addr, chunks[i].Bytes());
  }
}
