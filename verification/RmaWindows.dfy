/** Chains of registered windows and the address lookups of include/mic/micscif_rma.h
    that the copy engine walks them with. */
module RmaWindows {
  import opened Bits
  import opened Copying

  /** A registered range: registered offset and the bus addresses behind it. */
  datatype Window = Window(offset: nat, chunks: seq<Chunk>) {
    function End(): nat { offset + Total(chunks) }
    /** nr_pages */
    function Pages(): nat { PageOf(Total(chunks)) }
  }

  ghost predicate ValidWindow(w: Window)
  {
    && w.chunks != [] && w.offset % 4096 == 0
    && forall c :: c in w.chunks ==> c.pages > 0 && c.addr % 4096 == 0
  }

  /** Consecutive windows without gap, as a successful window query finds them. */
  ghost predicate Chain(ws: seq<Window>)
  {
    && ws != [] && (forall k :: 0 <= k < |ws| ==> ValidWindow(ws[k]))
    && forall k :: 0 <= k < |ws| - 1 ==> ws[k].End() == ws[k + 1].offset
  }

  /** Bytes `off .. off + n` lie in chunk `c` of window `w`. */
  predicate InChunk(w: Window, c: nat, off: nat, n: nat)
  {
    && c < |w.chunks| && w.offset + Start(w.chunks, c) <= off
    && off + n <= w.offset + Start(w.chunks, c) + w.chunks[c].Bytes()
  }

  function ChunkAddr(w: Window, c: nat, off: nat): nat
    requires c < |w.chunks| && w.offset + Start(w.chunks, c) <= off
  {
    w.chunks[c].addr + (off - w.offset - Start(w.chunks, c))
  }

  // ------------------------------------------------- address of an offset

  function AddrInChain(ws: seq<Window>, k: nat, off: nat): nat
    requires k < |ws| && ws[k].offset <= off
    requires forall j :: k <= j < |ws| - 1 ==> ws[j].End() == ws[j + 1].offset
    requires off < ws[|ws| - 1].End()
    decreases |ws| - k
  {
    if off < ws[k].End() then AddrAt(ws[k].chunks, off - ws[k].offset)
    else AddrInChain(ws, k + 1, off)
  }

  /** The address registered at `off`. */
  ghost function AddrOf(ws: seq<Window>, off: nat): nat
    requires Chain(ws) && ws[0].offset <= off < ws[|ws| - 1].End()
  {
    AddrInChain(ws, 0, off)
  }

  lemma {:induction false} OffsetsIncrease(ws: seq<Window>, j: nat, k: nat)
    requires Chain(ws) && j <= k < |ws|
    ensures ws[j].offset <= ws[k].offset && ws[j].End() <= ws[k].End()
    ensures j < k ==> ws[j].End() <= ws[k].offset
  {
    hide Total, ValidWindow;
    if j < k { OffsetsIncrease(ws, j, k - 1); }
  }

  lemma {:induction false} AddrInChainIs(ws: seq<Window>, j: nat, k: nat, off: nat)
    requires Chain(ws) && j <= k < |ws| && ws[k].offset <= off < ws[k].End()
    ensures ws[j].offset <= off < ws[|ws| - 1].End()
    ensures AddrInChain(ws, j, off) == AddrAt(ws[k].chunks, off - ws[k].offset)
    decreases k - j
  {
    hide Total, ValidWindow, AddrAt;
    OffsetsIncrease(ws, j, k);
    OffsetsIncrease(ws, k, |ws| - 1);
    if j < k {
      OffsetsIncrease(ws, j + 1, k);
      AddrInChainIs(ws, j + 1, k, off);
    }
  }

  /** Inside a chunk, registered offsets and addresses advance together. */
  lemma AddrOfIs(ws: seq<Window>, k: nat, c: nat, off: nat)
    requires Chain(ws) && k < |ws| && InChunk(ws[k], c, off, 1)
    ensures ws[0].offset <= off < ws[|ws| - 1].End() && AddrOf(ws, off) == ChunkAddr(ws[k], c, off)
  {
    AddrInChunk(ws[k].chunks, c, off - ws[k].offset);
    ChunkEnds(ws[k].chunks, c);
    hide AddrAt, Start, Total, AddrInChain;
    AddrInChainIs(ws, 0, k, off);
  }

  /** The window that holds a registered offset. */
  lemma {:induction false} WindowHolding(ws: seq<Window>, n: nat, off: nat) returns (k: nat)
    requires Chain(ws) && 0 < n <= |ws| && ws[0].offset <= off < ws[n - 1].End()
    ensures k < n && ws[k].offset <= off < ws[k].End()
    decreases n
  {
    hide ValidWindow, Total;
    if n > 1 && off < ws[n - 1].offset {
      k := WindowHolding(ws, n - 1, off);
    } else {
      k := n - 1;
    }
  }

  // ------------------------------------------------------------ page facts

  lemma {:induction false} StartAligned(chunks: seq<Chunk>, i: nat)
    requires i <= |chunks|
    ensures Start(chunks, i) % 4096 == 0
  {
    if i > 0 { StartAligned(chunks, i - 1); }
  }

  lemma {:induction false} OnePageChunks(chunks: seq<Chunk>, i: nat)
    requires i <= |chunks| && forall c :: c in chunks ==> c.pages > 0
    ensures Start(chunks, i) >= i * 4096
    ensures Start(chunks, i) == i * 4096 ==>
      forall j :: 0 <= j < i ==> chunks[j].pages == 1 && Start(chunks, j) == j * 4096
  {
    if i > 0 {
      assert chunks[i - 1] in chunks;
      OnePageChunks(chunks, i - 1);
    }
  }

  // ---------------------------------------------------- micscif_get_dma_addr

  /** Registered offset at which chunk `c` ends. */
  function ChunkEnd(w: Window, c: nat): nat
    requires c < |w.chunks|
  {
    w.offset + Start(w.chunks, c) + w.chunks[c].Bytes()
  }

  /** The caller's hint: chunk `index` begins at registered offset `start`, not after `off`. */
  predicate Hint(w: Window, index: nat, start: nat, off: nat)
  {
    index <= |w.chunks| && start == w.offset + Start(w.chunks, index) <= off
  }

  /** micscif_get_dma_addr: address, contiguous bytes, chunk found and the new hint. */
  method GetDmaAddr(w: Window, off: nat, index: nat, start: nat)
    returns (addr: nat, contig: nat, index': nat, start': nat, c: nat)
    requires ValidWindow(w) && w.offset <= off < w.End() && Hint(w, index, start, off)
    ensures contig > 0 && InChunk(w, c, off, contig) && addr == ChunkAddr(w, c, off)
    ensures off + contig == ChunkEnd(w, c) && (off + contig) % 4096 == 0
    ensures Hint(w, index', start', off)
  {
    if w.Pages() == |w.chunks| {
      addr, contig, c := PageAddr(w, off);
      index', start' := index, start;
      return;
    }
    var i: nat, s: nat := index, start;
    hide ValidWindow;
    while i < |w.chunks|
      invariant i <= |w.chunks| && Hint(w, i, s, off)
    {
      hide Start, Total;
      var end := s + w.chunks[i].Bytes();
      ChunkEnds(w.chunks, i);
      if s <= off < end {
        EndAligned(w, i);
        return w.chunks[i].addr + (off - s), end - off, i, s, i;
      }
      s := end;
      i := i + 1;
    }
    assert false;  // the BUG_ON of micscif_get_dma_addr
  }

  lemma EndAligned(w: Window, c: nat)
    requires ValidWindow(w) && c < |w.chunks|
    ensures (w.offset + Start(w.chunks, c) + w.chunks[c].Bytes()) % 4096 == 0
    ensures (w.offset + Start(w.chunks, c)) % 4096 == 0
  {
    hide Start;
    StartAligned(w.chunks, c);
  }

  /** The lookup when every chunk is one page: the page number is the index. */
  method PageAddr(w: Window, off: nat) returns (addr: nat, contig: nat, c: nat)
    requires ValidWindow(w) && w.offset <= off < w.End() && w.Pages() == |w.chunks|
    ensures contig > 0 && InChunk(w, c, off, contig) && addr == ChunkAddr(w, c, off)
    ensures off + contig == ChunkEnd(w, c) && (off + contig) % 4096 == 0
  {
    var page := PageOf(off - w.offset);
    var pageOff := InPage(off);
    PageIndex(w, off);
    c := page;
    contig := 4096 - pageOff;
    addr := Or(w.chunks[page].addr, pageOff);
    OrIsSum(w.chunks[page].addr, pageOff);
  }

  lemma PageIndex(w: Window, off: nat)
    requires ValidWindow(w) && w.offset <= off < w.End() && w.Pages() == |w.chunks|
    ensures var page := PageOf(off - w.offset);
      && page < |w.chunks| && w.chunks[page] in w.chunks && w.chunks[page].pages == 1
      && Start(w.chunks, page) == page * 4096 && off - w.offset - page * 4096 == InPage(off)
  {
    hide Start;
    StartAligned(w.chunks, |w.chunks|);
    OnePageChunks(w.chunks, |w.chunks|);
    PageShift(w.offset, off);
  }

  lemma PageShift(base: nat, off: nat)
    requires base % 4096 == 0 && base <= off
    ensures off - base - PageBytes(PageOf(off - base)) == InPage(off)
  {
  }

  lemma OrIsSum(a: nat, b: nat)
    requires a % 4096 == 0 && b < 4096
    ensures Or(a, b) == a + b
  {
    assert Pow2(12) == 4096 by { WordSizes(); Pow2Add(8, 4); assert Pow2(4) == 16; }
    OrDisjoint(a, b, 12);
  }
}
