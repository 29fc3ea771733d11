/** Reading the crash-dump file of host/vmcore.c: the rewritten ELF headers followed by
    segments of card memory, served page by page from a segment list. */
module CrashFile {
  import opened Bits
  import opened Errors
  import Copying

  /** No byte of the range lies in a page that cannot be copied. */
  predicate Readable(bad: set<nat>, pos: nat, count: nat)
  {
    forall b: nat :: pos <= b < pos + count ==> Copying.PageOf(b) !in bad
  }

  lemma PageReadable(bad: set<nat>, pos: nat, n: nat)
    requires 0 < n && pos % 4096 + n <= 4096
    ensures Readable(bad, pos, n) <==> Copying.PageOf(pos) !in bad
  {
    forall b: nat | pos <= b < pos + n ensures Copying.PageOf(b) == Copying.PageOf(pos) { SamePage(pos, b); }
  }

  lemma SamePage(pos: nat, b: nat)
    requires pos <= b && pos % 4096 + (b - pos) < 4096
    ensures Copying.PageOf(b) == Copying.PageOf(pos)
  {
  }

  lemma ReadableSplit(bad: set<nat>, pos: nat, n: nat, m: nat)
    ensures Readable(bad, pos, n + m) <==> Readable(bad, pos, n) && Readable(bad, pos + n, m)
  {
    hide Copying.PageOf;
    if Readable(bad, pos, n) && Readable(bad, pos + n, m) {
      forall b: nat | pos <= b < pos + (n + m) ensures Copying.PageOf(b) !in bad {
        if b < pos + n { assert Copying.PageOf(b) !in bad; } else { assert Copying.PageOf(b) !in bad; }
      }
    }
  }

  /** read_from_oldmem: one copy for each page of card memory. */
  method ReadFromOldmem(mem: seq<byte>, bad: set<nat>, pos: nat, count: nat) returns (r: Result<seq<byte>>)
    requires pos + count <= |mem|
    ensures r.Ok? <==> Readable(bad, pos, count)
    ensures r.Ok? ==> r.value == mem[pos..pos + count]
    ensures r.Err? ==> r.code == -EFAULT
  {
    hide Readable, Copying.PageOf;
    NothingToRead(bad, pos);
    if count == 0 {
      return Ok([]);
    }
    var offset, pfn := pos % 4096, Copying.PageOf(pos);
    var buf: seq<byte>, left: nat, at: nat := [], count, pos;
    while true
      invariant 0 < left && at + left == pos + count && pos <= at
      invariant offset == at % 4096 && pfn == Copying.PageOf(at)
      invariant buf == mem[pos..at] && Readable(bad, pos, at - pos)
      decreases left
    {
      var n := if left > 4096 - offset then 4096 - offset else left;
      PageReadable(bad, at, n);
      ReadableSplit(bad, pos, at - pos, left);
      ReadableSplit(bad, at, n, left - n);
      if pfn in bad {
        return Err(-EFAULT);
      }
      buf := buf + mem[at..at + n];
      assert mem[pos..at] + mem[at..at + n] == mem[pos..at + n];
      ReadableSplit(bad, pos, at - pos, n);
      NextPage(at, n, left);
      at, left, pfn, offset := at + n, left - n, pfn + 1, 0;
      if left == 0 {
        break;
      }
    }
    r := Ok(buf);
  }

  lemma NothingToRead(bad: set<nat>, pos: nat)
    ensures Readable(bad, pos, 0)
  {
  }

  lemma NextPage(at: nat, n: nat, left: nat)
    ensures at % 4096 + n == 4096 ==> (at + n) % 4096 == 0 && Copying.PageOf(at + n) == Copying.PageOf(at) + 1
  {
  }

  // --------------------------------------------------------------- segments

  /** struct vmcore: `size` bytes of card memory from `paddr`, at `offset` in the file. */
  datatype Segment = Segment(paddr: nat, size: nat, offset: nat)

  /** Bytes of the first `k` segments. */
  function Before(segs: seq<Segment>, k: nat): nat
    requires k <= |segs|
  {
    if k == 0 then 0 else Before(segs, k - 1) + segs[k - 1].size
  }

  /** The segments lie end to end in the file from `start` on. */
  predicate Tiled(segs: seq<Segment>, start: nat)
  {
    forall k :: 0 <= k < |segs| ==> segs[k].offset == start + Before(segs, k)
  }

  predicate InMemory(segs: seq<Segment>, mem: seq<byte>)
  {
    forall k :: 0 <= k < |segs| ==> segs[k].paddr + segs[k].size <= |mem|
  }

  /** The first `k` segments one after the other. */
  function Joined(mem: seq<byte>, segs: seq<Segment>, k: nat): (r: seq<byte>)
    requires InMemory(segs, mem) && k <= |segs|
    ensures |r| == Before(segs, k)
  {
    if k == 0 then []
    else Joined(mem, segs, k - 1) + mem[segs[k - 1].paddr..segs[k - 1].paddr + segs[k - 1].size]
  }

  /** The one flat file the segment list stands for. */
  function FlatFile(hdr: seq<byte>, mem: seq<byte>, segs: seq<Segment>): (r: seq<byte>)
    requires InMemory(segs, mem)
    ensures |r| == |hdr| + Before(segs, |segs|)
  {
    hdr + Joined(mem, segs, |segs|)
  }

  lemma {:induction false} BeforeGrows(segs: seq<Segment>, j: nat, k: nat)
    requires j <= k <= |segs|
    ensures Before(segs, j) <= Before(segs, k)
  {
    if j < k { BeforeGrows(segs, j, k - 1); }
  }

  lemma {:induction false} JoinedPrefix(mem: seq<byte>, segs: seq<Segment>, j: nat, k: nat)
    requires InMemory(segs, mem) && j <= k <= |segs|
    ensures Before(segs, j) <= Before(segs, k) && Joined(mem, segs, j) == Joined(mem, segs, k)[..Before(segs, j)]
  {
    hide Joined, Before;
    BeforeGrows(segs, j, k);
    if j < k {
      JoinedPrefix(mem, segs, j, k - 1);
      JoinedNext(mem, segs, k);
      PrefixOfPrefix(Joined(mem, segs, k), Before(segs, j), Before(segs, k - 1));
    }
  }

  lemma JoinedNext(mem: seq<byte>, segs: seq<Segment>, k: nat)
    requires InMemory(segs, mem) && 0 < k <= |segs|
    ensures Before(segs, k - 1) <= Before(segs, k)
    ensures Joined(mem, segs, k - 1) == Joined(mem, segs, k)[..Before(segs, k - 1)]
  {
  }

  lemma PrefixOfPrefix(x: seq<byte>, a: nat, b: nat)
    requires a <= b <= |x|
    ensures x[..b][..a] == x[..a]
  {
  }

  /** A stretch inside segment `k` of the file is the same stretch of card memory. */
  lemma FileIsMemory(hdr: seq<byte>, mem: seq<byte>, segs: seq<Segment>, k: nat, a: nat, n: nat)
    requires InMemory(segs, mem) && k < |segs| && a + n <= segs[k].size
    ensures var at := |hdr| + Before(segs, k) + a; var p := segs[k].paddr + a;
      && at + n <= |hdr| + Before(segs, |segs|)
      && FlatFile(hdr, mem, segs)[at..at + n] == mem[p..p + n]
  {
    hide Before, Joined;
    JoinedPrefix(mem, segs, k + 1, |segs|);
    JoinedStretch(mem, segs, k, a, n);
    var all, m, at := Joined(mem, segs, |segs|), Before(segs, k + 1), Before(segs, k) + a;
    SliceRight(hdr, all, at, n);
    SliceSlice(all, 0, m, at, n);
    assert all[0..m] == all[..m];
  }

  lemma JoinedStretch(mem: seq<byte>, segs: seq<Segment>, k: nat, a: nat, n: nat)
    requires InMemory(segs, mem) && k < |segs| && a + n <= segs[k].size
    ensures var at := Before(segs, k) + a; var p := segs[k].paddr + a;
      at + n <= Before(segs, k + 1) && Joined(mem, segs, k + 1)[at..at + n] == mem[p..p + n]
  {
    hide Joined, Before;
    JoinedLast(mem, segs, k);
    var p, q := segs[k].paddr, segs[k].paddr + segs[k].size;
    SliceRight(Joined(mem, segs, k), mem[p..q], a, n);
    SliceSlice(mem, p, q, a, n);
  }

  lemma JoinedLast(mem: seq<byte>, segs: seq<Segment>, k: nat)
    requires InMemory(segs, mem) && k < |segs|
    ensures Before(segs, k + 1) == Before(segs, k) + segs[k].size
    ensures Joined(mem, segs, k + 1) == Joined(mem, segs, k) + mem[segs[k].paddr..segs[k].paddr + segs[k].size]
  {
  }

  lemma SliceRight(x: seq<byte>, y: seq<byte>, a: nat, n: nat)
    requires a + n <= |y|
    ensures (x + y)[|x| + a..|x| + a + n] == y[a..a + n]
  {
  }

  lemma SliceSlice(x: seq<byte>, p: nat, q: nat, a: nat, n: nat)
    requires p <= q <= |x| && a + n <= q - p
    ensures x[p..q][a..a + n] == x[p + a..p + a + n]
  {
    var y, z := x[p..q][a..a + n], x[p + a..p + a + n];
    forall i | 0 <= i < n ensures y[i] == z[i] { assert x[p..q][a + i] == x[p + (a + i)]; }
  }

  /** Card address of byte `o` of the joined segments, looking from segment `k` on. */
  function PhysFrom(segs: seq<Segment>, k: nat, o: nat): nat
    requires k <= |segs| && Before(segs, k) <= o < Before(segs, |segs|)
    decreases |segs| - k
  {
    if o < Before(segs, k) + segs[k].size then segs[k].paddr + (o - Before(segs, k))
    else PhysFrom(segs, k + 1, o)
  }

  lemma {:induction false} PhysIs(segs: seq<Segment>, j: nat, k: nat, o: nat)
    requires j <= k < |segs| && Before(segs, k) <= o < Before(segs, k) + segs[k].size
    ensures Before(segs, j) <= o < Before(segs, |segs|)
    ensures PhysFrom(segs, j, o) == segs[k].paddr + (o - Before(segs, k))
    decreases k - j
  {
    BeforeGrows(segs, j, k);
    BeforeGrows(segs, k + 1, |segs|);
    if j < k {
      BeforeGrows(segs, j + 1, k);
      PhysIs(segs, j + 1, k, o);
    }
  }

  /** No byte `lo .. hi` of the joined segments lies in a page that cannot be copied. */
  ghost predicate FileReadable(segs: seq<Segment>, bad: set<nat>, lo: nat, hi: nat)
    requires hi <= Before(segs, |segs|)
  {
    forall o: nat :: lo <= o < hi ==> Copying.PageOf(PhysFrom(segs, 0, o)) !in bad
  }

  /** Inside segment `k`, file and card memory are readable together. */
  lemma SegmentReadable(segs: seq<Segment>, bad: set<nat>, k: nat, a: nat, n: nat)
    requires k < |segs| && a + n <= segs[k].size
    ensures Before(segs, k) + a + n <= Before(segs, |segs|)
    ensures Readable(bad, segs[k].paddr + a, n) <==>
      FileReadable(segs, bad, Before(segs, k) + a, Before(segs, k) + a + n)
  {
    hide Copying.PageOf, PhysFrom;
    BeforeGrows(segs, k + 1, |segs|);
    var lo, p := Before(segs, k) + a, segs[k].paddr + a;
    forall o: nat | lo <= o < lo + n ensures PhysFrom(segs, 0, o) == p + (o - lo) { PhysIs(segs, 0, k, o); }
    if Readable(bad, p, n) {
      forall o: nat | lo <= o < lo + n ensures Copying.PageOf(PhysFrom(segs, 0, o)) !in bad {
        assert Copying.PageOf(p + (o - lo)) !in bad;
      }
    }
    if FileReadable(segs, bad, lo, lo + n) {
      forall b: nat | p <= b < p + n ensures Copying.PageOf(b) !in bad {
        assert Copying.PageOf(PhysFrom(segs, 0, lo + (b - p))) !in bad;
      }
    }
  }

  lemma FileReadableSplit(segs: seq<Segment>, bad: set<nat>, lo: nat, mid: nat, hi: nat)
    requires lo <= mid <= hi <= Before(segs, |segs|)
    ensures FileReadable(segs, bad, lo, hi) <==> FileReadable(segs, bad, lo, mid) && FileReadable(segs, bad, mid, hi)
  {
    hide Copying.PageOf, PhysFrom, Before;
  }

  // ------------------------------------------------------------------ reading

  /** map_offset_to_paddr: the element whose inclusive range holds the offset. */
  method MapOffset(segs: seq<Segment>, off: nat, start: nat) returns (found: bool, k: nat)
    requires Tiled(segs, start) && start > 0
    ensures found <==> start <= off < start + Before(segs, |segs|)
    ensures found ==> k < |segs| && segs[k].offset <= off < segs[k].offset + segs[k].size
  {
    hide Before, Tiled;
    NoneBefore(segs);
    for i := 0 to |segs|
      invariant off < start || start + Before(segs, i) <= off
    {
      NextSegment(segs, start, i);
      var first, last := segs[i].offset, segs[i].offset + segs[i].size - 1;
      BeforeGrows(segs, i + 1, |segs|);
      if off >= first && off <= last {
        return true, i;
      }
    }
    return false, 0;
  }

  lemma NoneBefore(segs: seq<Segment>)
    ensures Before(segs, 0) == 0
  {
  }

  /** The bytes a read at `pos` for `n` bytes must return. */
  function Slice(file: seq<byte>, pos: nat, n: nat): seq<byte>
  {
    if pos >= |file| then [] else if n < |file| - pos then file[pos..pos + n] else file[pos..]
  }

  /** Consecutive reads make one read. */
  lemma ReadsCompose(file: seq<byte>, pos: nat, n: nat, m: nat)
    ensures Slice(file, pos, n) + Slice(file, pos + |Slice(file, pos, n)|, m) == Slice(file, pos, n + m)
  {
  }

  lemma Adjacent(file: seq<byte>, a: nat, b: nat, c: nat)
    requires a <= b <= c <= |file|
    ensures file[a..b] + file[b..c] == file[a..c]
  {
  }

  lemma SliceIs(file: seq<byte>, pos: nat, n: nat, end: nat)
    requires end == if pos + n < |file| then pos + n else |file|
    ensures Slice(file, pos, n) == if pos < end then file[pos..end] else []
  {
  }

  /** The computed size may be larger than what the list holds. */
  predicate ValidFile(hdr: seq<byte>, mem: seq<byte>, segs: seq<Segment>, size: nat)
  {
    && hdr != [] && InMemory(segs, mem) && Tiled(segs, |hdr|) && size >= FileEnd(hdr, segs)
  }

  /** The end of the last element. */
  function FileEnd(hdr: seq<byte>, segs: seq<Segment>): nat { |hdr| + Before(segs, |segs|) }

  /** Where a read of `n` bytes at `pos` ends. */
  function ReadEnd(size: nat, pos: nat, n: nat): nat { if pos + n < size then pos + n else size }

  /** The read asks for card memory and starts asking for it behind the last element. */
  predicate Misses(hdr: seq<byte>, segs: seq<Segment>, size: nat, pos: nat, n: nat)
  {
    && n > 0 && pos < size && ReadEnd(size, pos, n) > |hdr|
    && (if pos < |hdr| then |hdr| else pos) >= FileEnd(hdr, segs)
  }

  /** Every byte of card memory that a read of `pos .. end` needs can be copied. */
  ghost predicate CanRead(hdr: seq<byte>, segs: seq<Segment>, bad: set<nat>, pos: nat, end: nat)
  {
    |hdr| < end <= FileEnd(hdr, segs) && pos < end ==>
      FileReadable(segs, bad, if pos < |hdr| then 0 else pos - |hdr|, end - |hdr|)
  }

  /** read_vmcore: the slice of the flat file, cut at its end; -EINVAL exactly for a read that
      misses the list, -EFAULT exactly for one that needs a page that cannot be copied. */
  method ReadVmcore(hdr: seq<byte>, mem: seq<byte>, bad: set<nat>, segs: seq<Segment>, size: nat,
                    fpos: nat, buflen: nat)
    returns (r: Result<seq<byte>>, fpos': nat)
    requires ValidFile(hdr, mem, segs, size)
    ensures r.Ok? ==> r.value == Slice(FlatFile(hdr, mem, segs), fpos, buflen) && fpos' == fpos + |r.value|
    ensures r == Err(-EINVAL) <==> Misses(hdr, segs, size, fpos, buflen)
    ensures r == Err(-EFAULT) <==>
      !Misses(hdr, segs, size, fpos, buflen)
      && !CanRead(hdr, segs, bad, fpos, ReadEnd(FileEnd(hdr, segs), fpos, buflen))
    ensures r.Err? ==> r.code == -EINVAL || r.code == -EFAULT
  {
    hide FlatFile, Joined, Before, FileReadable, Tiled, InMemory, Slice, CanRead;
    var file := FlatFile(hdr, mem, segs);
    if buflen == 0 || fpos >= size {
      NothingRead(hdr, mem, segs, bad, fpos, buflen);
      return Ok([]), fpos;
    }
    ghost var end := ReadEnd(FileEnd(hdr, segs), fpos, buflen);
    SliceIs(file, fpos, buflen, end);
    var left := if buflen > size - fpos then size - fpos else buflen;
    var acc: seq<byte>;
    acc, fpos' := ReadHeaders(hdr, mem, segs, fpos, left);
    CanReadIs(hdr, segs, bad, fpos, fpos', end);
    left := left - (fpos' - fpos);
    if left == 0 {
      return Ok(acc), fpos';
    }
    ghost var mid := fpos';
    r, fpos' := ReadMemory(hdr, mem, bad, segs, fpos', left);
    if r.Ok? {
      Adjacent(file, fpos, mid, end);
      r := Ok(acc + r.value);
    }
  }

  /** Two reads in a row: together they are the one read of both lengths, which fails exactly
      when one of them does, once the size is the end of the last element. */
  method ReadTwice(hdr: seq<byte>, mem: seq<byte>, bad: set<nat>, segs: seq<Segment>, size: nat,
                   fpos: nat, n: nat, m: nat)
    returns (a: Result<seq<byte>>, b: Result<seq<byte>>, one: Result<seq<byte>>)
    requires ValidFile(hdr, mem, segs, size)
    ensures a.Ok? && b.Ok? && one.Ok? ==> a.value + b.value == one.value
    ensures size == FileEnd(hdr, segs) ==> (one.Ok? <==> a.Ok? && b.Ok?)
  {
    hide FlatFile, Joined, Before, FileReadable, Tiled, InMemory, Slice, CanRead, Misses;
    var file, pos := FlatFile(hdr, mem, segs), fpos;
    one, pos := ReadVmcore(hdr, mem, bad, segs, size, fpos, n + m);
    a, pos := ReadVmcore(hdr, mem, bad, segs, size, fpos, n);
    if size == FileEnd(hdr, segs) { ReadsSplit(hdr, mem, segs, bad, fpos, n, m); }
    ReadsCompose(file, fpos, n, m);
    b := a;
    if a.Ok? {
      b, pos := ReadVmcore(hdr, mem, bad, segs, size, pos, m);
    }
  }

  lemma ReadsSplit(hdr: seq<byte>, mem: seq<byte>, segs: seq<Segment>, bad: set<nat>, pos: nat, n: nat, m: nat)
    requires InMemory(segs, mem)
    ensures var end := FileEnd(hdr, segs); var mid := pos + |Slice(FlatFile(hdr, mem, segs), pos, n)|;
      && !Misses(hdr, segs, end, pos, n) && !Misses(hdr, segs, end, mid, m) && !Misses(hdr, segs, end, pos, n + m)
      && (CanRead(hdr, segs, bad, pos, ReadEnd(end, pos, n + m)) <==>
            CanRead(hdr, segs, bad, pos, ReadEnd(end, pos, n)) && CanRead(hdr, segs, bad, mid, ReadEnd(end, mid, m)))
  {
    hide Before, FileReadable, Joined, FlatFile;
    var end := FileEnd(hdr, segs);
    var lo, all := ReadEnd(end, pos, n), ReadEnd(end, pos, n + m);
    if pos < end && lo > |hdr| {
      FileReadableSplit(segs, bad, if pos < |hdr| then 0 else pos - |hdr|, lo - |hdr|, all - |hdr|);
    }
    if lo <= all && all <= end && all > |hdr| { NothingToFile(segs, bad, all - |hdr|); }
  }

  /** The part of read_vmcore that copies from card memory. */
  method ReadMemory(hdr: seq<byte>, mem: seq<byte>, bad: set<nat>, segs: seq<Segment>, fpos: nat, buflen: nat)
    returns (r: Result<seq<byte>>, fpos': nat)
    requires hdr != [] && InMemory(segs, mem) && Tiled(segs, |hdr|) && buflen > 0 && |hdr| <= fpos
    ensures r == Err(-EINVAL) <==> fpos >= FileEnd(hdr, segs)
    ensures fpos < FileEnd(hdr, segs) ==>
      var end := ReadEnd(FileEnd(hdr, segs), fpos, buflen);
      && (r.Ok? ==> fpos' == end && r.value == FlatFile(hdr, mem, segs)[fpos..end])
      && (r.Ok? <==> FileReadable(segs, bad, fpos - |hdr|, end - |hdr|)) && (r.Err? ==> r.code == -EFAULT)
  {
    hide FlatFile, Joined, Before, FileReadable, Tiled, InMemory;
    var found, k := MapOffset(segs, fpos, |hdr|);
    if !found {
      return Err(-EINVAL), fpos;
    }
    r, fpos' := ReadSegments(hdr, mem, bad, segs, fpos, buflen, k);
  }

  lemma CanReadIs(hdr: seq<byte>, segs: seq<Segment>, bad: set<nat>, pos: nat, mid: nat, end: nat)
    requires end <= FileEnd(hdr, segs) && |hdr| <= FileEnd(hdr, segs)
    requires pos < |hdr| ==> pos <= mid <= |hdr|
    requires pos >= |hdr| ==> mid == pos
    ensures end <= |hdr| || end <= pos ==> CanRead(hdr, segs, bad, pos, end)
    ensures |hdr| <= mid < end ==>
      (CanRead(hdr, segs, bad, pos, end) <==> FileReadable(segs, bad, mid - |hdr|, end - |hdr|))
  {
    hide FileReadable, Before;
  }

  lemma NothingRead(hdr: seq<byte>, mem: seq<byte>, segs: seq<Segment>, bad: set<nat>, pos: nat, n: nat)
    requires InMemory(segs, mem) && (n == 0 || pos >= FileEnd(hdr, segs))
    ensures Slice(FlatFile(hdr, mem, segs), pos, n) == []
    ensures CanRead(hdr, segs, bad, pos, ReadEnd(FileEnd(hdr, segs), pos, n))
  {
    hide FileReadable, Before, Joined;
  }

  /** The part of read_vmcore that copies from the headers. */
  method ReadHeaders(hdr: seq<byte>, mem: seq<byte>, segs: seq<Segment>, fpos: nat, buflen: nat)
    returns (acc: seq<byte>, fpos': nat)
    requires InMemory(segs, mem)
    ensures fpos' == if fpos < |hdr| then ReadEnd(|hdr|, fpos, buflen) else fpos
    ensures fpos < |hdr| ==> fpos <= fpos' <= |hdr| && acc == FlatFile(hdr, mem, segs)[fpos..fpos']
    ensures fpos >= |hdr| ==> acc == []
  {
    hide FlatFile, Joined, Before, InMemory;
    if fpos < |hdr| {
      var n := if buflen < |hdr| - fpos then buflen else |hdr| - fpos;
      HeaderIsFile(hdr, mem, segs, fpos, n);
      return hdr[fpos..fpos + n], fpos + n;
    }
    return [], fpos;
  }

  lemma HeaderIsFile(hdr: seq<byte>, mem: seq<byte>, segs: seq<Segment>, pos: nat, n: nat)
    requires InMemory(segs, mem) && pos + n <= |hdr|
    ensures hdr[pos..pos + n] == FlatFile(hdr, mem, segs)[pos..pos + n]
  {
  }

  /** The loop of read_vmcore: pieces of at most a page, never across a segment end; empty
      segments are stepped over, and the read ends short behind the last segment. */
  method ReadSegments(hdr: seq<byte>, mem: seq<byte>, bad: set<nat>, segs: seq<Segment>, fpos: nat, buflen: nat,
                      first: nat)
    returns (r: Result<seq<byte>>, fpos': nat)
    requires InMemory(segs, mem) && Tiled(segs, |hdr|) && first < |segs| && buflen > 0 && |hdr| <= fpos
    requires segs[first].offset <= fpos < segs[first].offset + segs[first].size && fpos < FileEnd(hdr, segs)
    ensures var end := ReadEnd(FileEnd(hdr, segs), fpos, buflen);
      && (r.Ok? ==> fpos' == end && r.value == FlatFile(hdr, mem, segs)[fpos..end])
      && (r.Ok? <==> FileReadable(segs, bad, fpos - |hdr|, end - |hdr|)) && (r.Err? ==> r.code == -EFAULT)
  {
    hide FlatFile, Joined, Before, FileReadable, Copying.PageOf, Readable, Tiled, PieceSize;
    NextSegment(segs, |hdr|, first);
    ghost var file, end := FlatFile(hdr, mem, segs), ReadEnd(FileEnd(hdr, segs), fpos, buflen);
    var k, left: nat, acc: seq<byte> := first, buflen, [];
    fpos' := fpos;
    var start := segs[k].paddr + (fpos - segs[k].offset);
    NothingToFile(segs, bad, fpos - |hdr|);
    var tsz := PieceSize(segs[k], start, left);
    while left > 0
      invariant k < |segs| && fpos <= fpos' <= end && fpos' + left == fpos + buflen
      invariant segs[k].paddr <= start <= segs[k].paddr + segs[k].size
      invariant fpos' == segs[k].offset + (start - segs[k].paddr)
      invariant left > 0 ==> tsz == PieceSize(segs[k], start, left)
      invariant acc == file[fpos..fpos'] && FileReadable(segs, bad, fpos - |hdr|, fpos' - |hdr|)
      decreases |segs| - k, left
    {
      SegmentEnds(segs, |hdr|, k);
      var piece := ReadPiece(hdr, mem, bad, segs, k, start, tsz, fpos, fpos', end);
      if piece.Err? {
        return piece, fpos';
      }
      Adjacent(file, fpos, fpos', fpos' + tsz);
      acc := acc + piece.value;
      left, fpos', start := left - tsz, fpos' + tsz, start + tsz;
      if start >= segs[k].paddr + segs[k].size {
        NextSegment(segs, |hdr|, k);
        if k == |segs| - 1 {
          return Ok(acc), fpos';
        }
        k := k + 1;
        start := segs[k].paddr;
      }
      tsz := PieceSize(segs[k], start, left);
    }
    r := Ok(acc);
  }

  lemma SegmentEnds(segs: seq<Segment>, start: nat, k: nat)
    requires Tiled(segs, start) && k < |segs|
    ensures segs[k].offset + segs[k].size <= start + Before(segs, |segs|)
  {
    hide Before, Tiled;
    NextSegment(segs, start, k);
    BeforeGrows(segs, k + 1, |segs|);
  }

  /** One call of read_from_oldmem inside segment `k`. */
  method ReadPiece(hdr: seq<byte>, mem: seq<byte>, bad: set<nat>, segs: seq<Segment>, k: nat, start: nat, tsz: nat,
                   ghost from: nat, ghost fpos: nat, ghost end: nat)
    returns (r: Result<seq<byte>>)
    requires InMemory(segs, mem) && Tiled(segs, |hdr|) && k < |segs|
    requires segs[k].paddr <= start && start + tsz <= segs[k].paddr + segs[k].size
    requires fpos == segs[k].offset + (start - segs[k].paddr)
    requires |hdr| <= from <= fpos && fpos + tsz <= end <= |hdr| + Before(segs, |segs|)
    requires FileReadable(segs, bad, from - |hdr|, fpos - |hdr|)
    ensures r.Ok? ==> r.value == FlatFile(hdr, mem, segs)[fpos..fpos + tsz]
    ensures r.Ok? ==> FileReadable(segs, bad, from - |hdr|, fpos + tsz - |hdr|)
    ensures r.Err? ==> r.code == -EFAULT && !FileReadable(segs, bad, from - |hdr|, end - |hdr|)
  {
    hide FlatFile, Joined, Before, FileReadable, Copying.PageOf, Readable, Tiled;
    NextSegment(segs, |hdr|, k);
    ghost var a := start - segs[k].paddr;
    FileIsMemory(hdr, mem, segs, k, a, tsz);
    SegmentReadable(segs, bad, k, a, tsz);
    FileReadableSplit(segs, bad, from - |hdr|, fpos - |hdr|, fpos - |hdr| + tsz);
    FileReadableSplit(segs, bad, from - |hdr|, fpos - |hdr| + tsz, end - |hdr|);
    r := ReadFromOldmem(mem, bad, start, tsz);
  }

  lemma NothingToFile(segs: seq<Segment>, bad: set<nat>, at: nat)
    requires at <= Before(segs, |segs|)
    ensures FileReadable(segs, bad, at, at)
  {
  }

  /** To the end of the page, of the segment or of the request, whichever is nearest. */
  function PieceSize(seg: Segment, start: nat, left: nat): (n: nat)
    requires seg.paddr <= start <= seg.paddr + seg.size
    ensures n <= left && start + n <= seg.paddr + seg.size && start % 4096 + n <= 4096
    ensures left > 0 && start < seg.paddr + seg.size ==> n > 0
  {
    var n := 4096 - start % 4096;
    var m := if n > left then left else n;
    var rest := seg.size - (start - seg.paddr);
    if m > rest then rest else m
  }

  lemma NextSegment(segs: seq<Segment>, start: nat, k: nat)
    requires Tiled(segs, start) && k < |segs|
    ensures segs[k].offset == start + Before(segs, k) && Before(segs, k + 1) == Before(segs, k) + segs[k].size
    ensures k + 1 < |segs| ==> segs[k + 1].offset == segs[k].offset + segs[k].size
    ensures k == |segs| - 1 ==> start + Before(segs, |segs|) == segs[k].offset + segs[k].size
  {
  }
}
