/** From a window query (micscif/micscif_rma_list.c) to the chain of windows that the copy engine
    walks (micscif/micscif_rma_dma.c). */
module RmaQuery {
  import opened Bits
  import opened Copying
  import opened RmaWindows
  import opened RmaCopy
  import WindowList

  /** The same registration: its place in the list, and the bus addresses behind it. */
  ghost predicate Backed(w: WindowList.Window, v: Window)
  {
    ValidWindow(v) && v.offset == w.Offset() && Total(v.chunks) == PageBytes(w.pages)
  }

  ghost predicate AllBacked(ws: seq<WindowList.Window>, vs: seq<Window>)
  {
    |vs| == |ws| && forall i :: 0 <= i < |ws| ==> Backed(ws[i], vs[i])
  }

  /** The windows of a successful query are a chain without gap that covers the range, the first
      byte in its first window. */
  lemma QueryCovers(ws: seq<WindowList.Window>, vs: seq<Window>, k: nat, m: nat, lo: nat, hi: nat, prot: nat)
    requires AllBacked(ws, vs) && WindowList.Spans(ws, k, m, lo, hi, prot) && lo <= hi
    ensures k <= m < |vs| && Covers(Registered(vs[k..m + 1], lo), hi - lo)
  {
    hide ValidWindow, Total, WindowList.Allows;
    var chain := vs[k..m + 1];
    forall i | 0 <= i < |chain| ensures ValidWindow(chain[i]) && chain[i].End() == ws[k + i].End() {
      assert chain[i] == vs[k + i] && Backed(ws[k + i], vs[k + i]);
    }
    forall i | 0 <= i < |chain| - 1 ensures chain[i].End() == chain[i + 1].offset {
      assert chain[i + 1] == vs[k + i + 1] && Backed(ws[k + i + 1], vs[k + i + 1]);
    }
    assert chain[0] == vs[k] && Backed(ws[k], vs[k]);
  }

  /** A registered page of the range has a page of memory behind it, which is what a mapping of the
      range hands to remap_pfn_range. */
  lemma PageBehind(ws: seq<WindowList.Window>, vs: seq<Window>, k: nat, m: nat, lo: nat, hi: nat, prot: nat, page: nat)
    requires AllBacked(ws, vs) && WindowList.Spans(ws, k, m, lo, hi, prot) && lo <= PageBytes(page) < hi
    ensures k <= m < |vs| && Covers(Registered(vs[k..m + 1], lo), hi - lo)
    ensures SideAddr(Registered(vs[k..m + 1], lo), hi - lo, PageBytes(page) - lo) % 4096 == 0
  {
    hide WindowList.Spans, AllBacked, AddrOf, Covers;
    QueryCovers(ws, vs, k, m, lo, hi, prot);
    var s := Registered(vs[k..m + 1], lo);
    PageAligned(s, hi - lo, PageBytes(page) - lo);
  }

  lemma PageAligned(s: Side, len: nat, i: nat)
    requires s.Registered? && Covers(s, len) && i < len && (s.off + i) % 4096 == 0
    ensures SideAddr(s, len, i) % 4096 == 0
  {
    hide AddrOf, Covers, At;
    var k, c, addr := Located(s, len, i);
    AtAligned(s, len, i, 1, k, c, addr);
    AtAddr(s, len, i, 1, k, c, addr, 0);
  }

  lemma Located(s: Side, len: nat, i: nat) returns (k: nat, c: nat, addr: nat)
    requires s.Registered? && Covers(s, len) && i < len
    ensures At(s, i, 1, k, c, addr)
  {
    hide Start;
    k := WindowHolding(s.ws, |s.ws|, s.off + i);
    c := ChunkHolding(s.ws[k].chunks, |s.ws[k].chunks|, s.off + i - s.ws[k].offset);
    addr := ChunkAddr(s.ws[k], c, s.off + i);
  }
}
