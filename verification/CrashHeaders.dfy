/** Rewriting the ELF headers of a crash dump (host/vmcore.c): the PT_NOTE headers become
    one, every loadable segment becomes an element of the segment list, and both are given
    the offset at which the dump file will serve them. */
module CrashHeaders {
  import opened Bits
  import opened Errors
  import opened CrashFile

  const PT_LOAD: nat := 1
  const PT_NOTE: nat := 4

  /** Elf64_Phdr; in the card's headers `offset` is a card physical address. */
  datatype Phdr = Phdr(ptype: nat, flags: nat, offset: nat, vaddr: nat, paddr: nat, filesz: nat, memsz: nat, align: nat)
  {
    predicate Note() { ptype == PT_NOTE }
    predicate Load() { ptype == PT_LOAD }
  }

  /** Elf header and `n` program headers. */
  function HeaderBytes(n: nat): nat { 64 + 56 * n }

  // -------------------------------------------------------------------- notes

  function Word(s: seq<byte>, j: nat): nat
    requires j + 4 <= |s|
  {
    s[j] as nat + 0x100 * s[j + 1] as nat + 0x1_0000 * s[j + 2] as nat + 0x100_0000 * s[j + 3] as nat
  }

  /** `(x + 3) & ~3` on a 32-bit word. */
  function Align4(x: nat): nat { (x + 3) % 0x1_0000_0000 / 4 * 4 }

  /** Elf64_Nhdr, then the name and the descriptor, each padded to four bytes. */
  function NoteSize(s: seq<byte>, j: nat): (n: nat)
    requires j + 8 <= |s|
    ensures n > 0
  {
    12 + Align4(Word(s, j)) + Align4(Word(s, j + 4))
  }

  /** The walk over the notes reads only bytes of the section. */
  predicate Walkable(s: seq<byte>, j: nat)
    decreases |s| - j
  {
    j < |s| ==> j + 4 <= |s| && (Word(s, j) != 0 ==> j + 8 <= |s| && Walkable(s, j + NoteSize(s, j)))
  }

  /** Length of the notes from `j` up to the end or to the first one without a name. */
  function NoteSpan(s: seq<byte>, j: nat): nat
    requires Walkable(s, j)
    decreases |s| - j
  {
    if j >= |s| || Word(s, j) == 0 then 0 else NoteSize(s, j) + NoteSpan(s, j + NoteSize(s, j))
  }

  method WalkNotes(s: seq<byte>) returns (size: nat)
    requires Walkable(s, 0)
    ensures size == NoteSpan(s, 0)
  {
    var j: nat := 0;
    size := 0;
    while j < |s|
      invariant Walkable(s, j) && size + NoteSpan(s, j) == NoteSpan(s, 0)
      decreases |s| - j
    {
      if Word(s, j) == 0 {
        break;
      }
      var sz := NoteSize(s, j);
      size := size + sz;
      j := j + sz;
    }
  }

  datatype NoteRecord = NoteRecord(name: seq<byte>, desc: seq<byte>, kind: nat)

  function Bytes4(n: nat): (r: seq<byte>)
    ensures |r| == 4
  {
    [(n % 256) as byte, (n / 256 % 256) as byte, (n / 256 / 256 % 256) as byte, (n / 256 / 256 / 256 % 256) as byte]
  }

  function Padded(s: seq<byte>): (r: seq<byte>)
    ensures |r| % 4 == 0 && |s| <= |r| < |s| + 4
  {
    s + seq((4 - |s| % 4) % 4, _ => 0 as byte)
  }

  /** A note as the ELF format lays it out. */
  function EncodeNote(n: NoteRecord): seq<byte>
  {
    Bytes4(|n.name|) + Bytes4(|n.desc|) + Bytes4(n.kind) + Padded(n.name) + Padded(n.desc)
  }

  predicate ValidNote(n: NoteRecord) { 0 < |n.name| < 0xffff_fffd && |n.desc| < 0xffff_fffd }

  function EncodeNotes(ns: seq<NoteRecord>): seq<byte>
  {
    if ns == [] then [] else EncodeNote(ns[0]) + EncodeNotes(ns[1..])
  }

  lemma WordOfBytes4(n: nat)
    requires n < 0x1_0000_0000
    ensures Word(Bytes4(n), 0) == n
  {
  }

  lemma AlignIs(n: nat, m: nat)
    requires n < 0xffff_fffd && m % 4 == 0 && n <= m < n + 4
    ensures Align4(n) == m
  {
  }

  /** The size read back from a laid out note is its length, wherever it stands. */
  lemma NoteSizeIs(s: seq<byte>, j: nat, n: NoteRecord)
    requires ValidNote(n) && j + |EncodeNote(n)| <= |s| && s[j..j + |EncodeNote(n)|] == EncodeNote(n)
    ensures j + 8 <= |s| && Word(s, j) != 0 && NoteSize(s, j) == |EncodeNote(n)|
  {
    hide Padded, Bytes4, Align4;
    var e := EncodeNote(n);
    WordOfBytes4(|n.name|);
    WordOfBytes4(|n.desc|);
    AlignIs(|n.name|, |Padded(n.name)|);
    AlignIs(|n.desc|, |Padded(n.desc)|);
    forall i | 0 <= i < 4
      ensures s[j + i] == Bytes4(|n.name|)[i] && s[j + 4 + i] == Bytes4(|n.desc|)[i]
    {
      assert s[j + i] == e[i] && s[j + 4 + i] == e[4 + i];
    }
    WordAt(s, j, Bytes4(|n.name|));
    WordAt(s, j + 4, Bytes4(|n.desc|));
  }

  lemma WordAt(s: seq<byte>, j: nat, b: seq<byte>)
    requires |b| == 4 && j + 4 <= |s| && forall i :: 0 <= i < 4 ==> s[j + i] == b[i]
    ensures Word(s, j) == Word(b, 0)
  {
    assert s[j + 0] == b[0] && s[j + 1] == b[1] && s[j + 2] == b[2] && s[j + 3] == b[3];
  }

  /** The walk over any laid out notes, ending with the section or before four zero bytes,
      spans exactly those notes. */
  lemma {:induction false} SpanOfNotes(s: seq<byte>, j: nat, ns: seq<NoteRecord>)
    requires forall n <- ns :: ValidNote(n)
    requires j + |EncodeNotes(ns)| <= |s| && s[j..j + |EncodeNotes(ns)|] == EncodeNotes(ns)
    requires var e := j + |EncodeNotes(ns)|; e == |s| || (e + 4 <= |s| && Word(s, e) == 0)
    ensures Walkable(s, j) && NoteSpan(s, j) == |EncodeNotes(ns)|
    decreases |ns|
  {
    hide EncodeNote, NoteSize, Word;
    if ns != [] {
      var e, all := EncodeNote(ns[0]), EncodeNotes(ns);
      SplitAt(s, j, all, e, EncodeNotes(ns[1..]));
      NoteSizeIs(s, j, ns[0]);
      SpanOfNotes(s, j + |e|, ns[1..]);
    }
  }

  lemma SplitAt(s: seq<byte>, j: nat, all: seq<byte>, x: seq<byte>, y: seq<byte>)
    requires j + |all| <= |s| && s[j..j + |all|] == all == x + y
    ensures s[j..j + |x|] == x && s[j + |x|..j + |x| + |y|] == y
  {
    forall i | 0 <= i < |x| ensures s[j + i] == x[i] { assert s[j..j + |all|][i] == all[i]; }
    forall i | 0 <= i < |y| ensures s[j + |x| + i] == y[i] { assert s[j..j + |all|][|x| + i] == all[|x| + i]; }
  }

  // ----------------------------------------------------- what the rewriting must produce

  function Notes(ph: seq<Phdr>, k: nat): (n: nat)
    requires k <= |ph|
    ensures n <= k
  {
    if k == 0 then 0 else Notes(ph, k - 1) + if ph[k - 1].Note() then 1 else 0
  }

  function Loads(ph: seq<Phdr>, k: nat): (n: nat)
    requires k <= |ph|
    ensures n <= k
  {
    if k == 0 then 0 else Loads(ph, k - 1) + if ph[k - 1].Load() then 1 else 0
  }

  /** Bytes of memory behind the first `k` loadable headers. */
  function LoadBytes(ph: seq<Phdr>, k: nat): nat
    requires k <= |ph|
  {
    if k == 0 then 0 else LoadBytes(ph, k - 1) + if ph[k - 1].Load() then ph[k - 1].memsz else 0
  }

  predicate SectionOk(mem: seq<byte>, h: Phdr)
  {
    h.offset + h.memsz <= |mem| && Walkable(mem[h.offset..h.offset + h.memsz], 0)
  }

  predicate SectionsOk(mem: seq<byte>, ph: seq<Phdr>)
  {
    forall i :: 0 <= i < |ph| && ph[i].Note() ==> SectionOk(mem, ph[i])
  }

  function NoteSegment(mem: seq<byte>, h: Phdr): Segment
    requires SectionOk(mem, h)
  {
    Segment(h.offset, NoteSpan(mem[h.offset..h.offset + h.memsz], 0), 0)
  }

  function NoteSegs(mem: seq<byte>, ph: seq<Phdr>, k: nat): (r: seq<Segment>)
    requires SectionsOk(mem, ph) && k <= |ph|
    ensures |r| == Notes(ph, k)
  {
    if k == 0 then []
    else NoteSegs(mem, ph, k - 1) + if ph[k - 1].Note() then [NoteSegment(mem, ph[k - 1])] else []
  }

  function LoadSegs(ph: seq<Phdr>, k: nat): (r: seq<Segment>)
    requires k <= |ph|
    ensures |r| == Loads(ph, k)
  {
    if k == 0 then []
    else LoadSegs(ph, k - 1) + if ph[k - 1].Load() then [Segment(ph[k - 1].offset, ph[k - 1].memsz, 0)] else []
  }

  /** The loadable headers laid end to end from `base`. */
  function Relocated(ph: seq<Phdr>, base: nat, k: nat): (r: seq<Phdr>)
    requires k <= |ph|
    ensures |r| == k
  {
    if k == 0 then []
    else Relocated(ph, base, k - 1)
         + [if ph[k - 1].Load() then ph[k - 1].(offset := base + LoadBytes(ph, k - 1)) else ph[k - 1]]
  }

  /** The first `k` list elements laid end to end from `start`. */
  function Placed(segs: seq<Segment>, start: nat, k: nat): (r: seq<Segment>)
    requires k <= |segs|
    ensures |r| == k
  {
    if k == 0 then [] else Placed(segs, start, k - 1) + [segs[k - 1].(offset := start + Before(segs, k - 1))]
  }

  function MergedNote(size: nat, count: nat): Phdr
  {
    Phdr(PT_NOTE, 0, HeaderBytes(count), 0, 0, size, size, 0)
  }

  function MemSizes(ph: seq<Phdr>, k: nat): nat
    requires k <= |ph|
  {
    if k == 0 then 0 else MemSizes(ph, k - 1) + ph[k - 1].memsz
  }

  ghost predicate NotesReadable(ph: seq<Phdr>, bad: set<nat>, k: nat)
    requires k <= |ph|
  {
    forall i :: 0 <= i < k && ph[i].Note() ==> Readable(bad, ph[i].offset, ph[i].memsz)
  }

  // ----------------------------------------------------------------- the rewriting

  class CoreHeaders {
    /** The buffer of program headers, e_phnum, the bytes of the headers, and the segment list. */
    var phdrs: seq<Phdr>
    var phnum: nat
    var elfsz: nat
    var list: seq<Segment>

    ghost predicate Valid()
      reads this
    {
      phnum <= |phdrs| && elfsz == HeaderBytes(phnum)
    }

    constructor (ph: seq<Phdr>)
      ensures Valid() && phdrs == ph && phnum == |ph| && list == []
    {
      phdrs, phnum, elfsz, list := ph, |ph|, HeaderBytes(|ph|), [];
    }

    /** merge_note_headers_elf64. */
    method MergeNotes(mem: seq<byte>, bad: set<nat>) returns (rc: int)
      requires Valid() && phnum == |phdrs| && list == [] && SectionsOk(mem, phdrs)
      requires Notes(phdrs, phnum) >= 1
      modifies this
      ensures Valid() && (rc == 0 || rc == -EFAULT)
      ensures rc == 0 <==> NotesReadable(old(phdrs), bad, old(phnum))
      ensures rc == 0 ==> var ph := old(phdrs); var n := Notes(ph, |ph|);
        && list == NoteSegs(mem, ph, |ph|) && phnum == |ph| - n + 1
        && phdrs[..phnum] == [Phdr(PT_NOTE, 0, 64 + 56 * phnum, 0, 0, Before(list, n), Before(list, n), 0)] + ph[n..]
      ensures rc == 0 ==> forall i :: 0 <= i < |old(phdrs)| && old(phdrs)[i].Note() ==>
        var h := old(phdrs)[i]; var k := Notes(old(phdrs), i);
        k < |list| && list[k] == Segment(h.offset, NoteSpan(mem[h.offset..h.offset + h.memsz], 0), 0)
    {
      hide SectionsOk, SectionOk, Notes, NoteSegs, Before, Readable, NotesReadable, Walkable, NoteSpan;
      var ph := phdrs;
      NoNotes(mem, ph, bad);
      var nr, size: nat := 0, 0;
      for i := 0 to phnum
        invariant phdrs == ph && phnum == |ph| && elfsz == HeaderBytes(phnum)
        invariant nr == Notes(ph, i) && list == NoteSegs(mem, ph, i)
        invariant size == Before(list, nr) && NotesReadable(ph, bad, i)
      {
        NextNote(mem, ph, bad, i);
        var h := ph[i];
        if h.ptype != PT_NOTE { continue; }
        nr := nr + 1;
        var section := ReadFromOldmem(mem, bad, h.offset, h.memsz);
        if section.Err? {
          return -EFAULT;
        }
        var span := WalkNotes(section.value);
        OneMore(list, Segment(h.offset, span, 0));
        list := list + [Segment(h.offset, span, 0)];
        size := size + span;
      }
      var count := phnum - nr + 1;
      phdrs := [MergedNote(size, count)] + phdrs[1..];
      var i := 56 * (nr - 1);
      elfsz := elfsz - i;
      phdrs := phdrs[..1] + phdrs[nr..phnum] + phdrs[count..];
      phnum := count;
      rc := 0;
      NotesListed(mem, ph);
    }

    /** process_ptload_program_headers_elf64. */
    method ProcessLoads()
      requires Valid() && phnum > 0
      modifies this`phdrs, this`list
      ensures Valid()
      ensures list == old(list) + LoadSegs(old(phdrs[..phnum]), phnum)
      ensures phdrs[..phnum] == Relocated(old(phdrs[..phnum]), HeaderBytes(phnum) + old(phdrs[0].memsz), phnum)
    {
      hide LoadSegs, Relocated, LoadBytes, HeaderBytes;
      ghost var all, ph := phdrs, phdrs[..phnum];
      ghost var was, base := list, HeaderBytes(phnum) + phdrs[0].memsz;
      var off := HeaderBytes(phnum) + phdrs[0].memsz;
      NoLoads(ph, base);
      for i := 0 to phnum
        invariant |phdrs| == |all| && phdrs == Relocated(ph, base, i) + all[i..]
        invariant list == was + LoadSegs(ph, i) && off == base + LoadBytes(ph, i)
      {
        NextLoad(ph, base, i);
        FillHole(Relocated(ph, base, i), all, i, Relocated(ph, base, i + 1)[i]);
        if phdrs[i].ptype == PT_LOAD {
          list := list + [Segment(phdrs[i].offset, phdrs[i].memsz, 0)];
          phdrs := phdrs[i := phdrs[i].(offset := off)];
          off := off + phdrs[i].memsz;
        }
      }
    }

    /** set_vmcore_list_offsets_elf64. */
    method SetOffsets()
      requires Valid()
      modifies this`list
      ensures list == Placed(old(list), HeaderBytes(phnum), |old(list)|)
    {
      hide Placed, Before, HeaderBytes, PartlyPlaced;
      ghost var segs, start := list, HeaderBytes(phnum);
      var off := HeaderBytes(phnum);
      NonePlaced(segs, start);
      for i := 0 to |list|
        invariant |list| == |segs| && PartlyPlaced(list, segs, start, i)
        invariant off == start + Before(segs, i)
      {
        NextPlaced(list, segs, start, i);
        var seg := list[i];
        list := list[i := seg.(offset := off)];
        off := off + seg.size;
      }
      AllPlaced(list, segs, start);
    }

    /** parse_crash_elf64_headers after the header checks, and the size computed for it. */
    method Parse(mem: seq<byte>, bad: set<nat>) returns (rc: int, size: nat)
      requires Valid() && phnum == |phdrs| && list == [] && SectionsOk(mem, phdrs)
      requires Notes(phdrs, phnum) >= 1
      modifies this
      ensures Valid() && (rc == 0 || rc == -EFAULT)
      ensures rc == 0 <==> NotesReadable(old(phdrs), bad, |old(phdrs)|)
      ensures rc == 0 ==> DumpOf(Dump(phdrs[..phnum], elfsz, list, size), mem, old(phdrs))
    {
      hide NoteSegs, Notes, Before, Relocated, Placed, LoadSegs, MemSizes;
      hide SectionsOk, NotesReadable, Tiled;
      ghost var ph := phdrs;
      size := 0;
      rc := MergeNotes(mem, bad);
      if rc != 0 {
        return;
      }
      assert phdrs[..phnum] == Table(mem, ph);
      assert phdrs[0] == Table(mem, ph)[0];
      ProcessLoads();
      assert phdrs[..phnum] == FinalTable(mem, ph);
      SetOffsets();
      size := GetSize();
      OffsetsAgree(mem, ph);
      SizeIsEnd(mem, ph);
    }

    /** get_vmcore_size_elf64. */
    method GetSize() returns (size: nat)
      requires Valid()
      ensures size == HeaderBytes(phnum) + MemSizes(phdrs[..phnum], phnum)
    {
      size := 64 + phnum * 56;
      for i := 0 to phnum
        invariant size == HeaderBytes(phnum) + MemSizes(phdrs[..phnum], i)
      {
        size := size + phdrs[i].memsz;
      }
    }
  }

  lemma NoNotes(mem: seq<byte>, ph: seq<Phdr>, bad: set<nat>)
    requires SectionsOk(mem, ph)
    ensures Notes(ph, 0) == 0 && NoteSegs(mem, ph, 0) == [] && NotesReadable(ph, bad, 0) && Before([], 0) == 0
  {
  }

  lemma NextNote(mem: seq<byte>, ph: seq<Phdr>, bad: set<nat>, i: nat)
    requires SectionsOk(mem, ph) && i < |ph|
    ensures Notes(ph, i + 1) == Notes(ph, i) + if ph[i].Note() then 1 else 0
    ensures ph[i].Note() ==>
      SectionOk(mem, ph[i]) && NoteSegs(mem, ph, i + 1) == NoteSegs(mem, ph, i) + [NoteSegment(mem, ph[i])]
    ensures !ph[i].Note() ==> NoteSegs(mem, ph, i + 1) == NoteSegs(mem, ph, i)
    ensures NotesReadable(ph, bad, i + 1)
      <==> NotesReadable(ph, bad, i) && (ph[i].Note() ==> Readable(bad, ph[i].offset, ph[i].memsz))
    ensures NotesReadable(ph, bad, |ph|) ==> NotesReadable(ph, bad, i + 1)
  {
  }

  /** The PT_NOTE header `i` is list element number `Notes(ph, i)`, with its own card memory. */
  lemma NotesListed(mem: seq<byte>, ph: seq<Phdr>)
    requires SectionsOk(mem, ph)
    ensures forall i :: 0 <= i < |ph| && ph[i].Note() ==>
      var k := Notes(ph, i); var segs := NoteSegs(mem, ph, |ph|);
      SectionOk(mem, ph[i]) && k < |segs| && segs[k] == Segment(ph[i].offset, SpanOf(mem, ph[i]), 0)
  {
    hide Notes, NoteSegs, SectionsOk, Walkable, NoteSpan;
    forall i | 0 <= i < |ph| && ph[i].Note()
      ensures var k := Notes(ph, i); var segs := NoteSegs(mem, ph, |ph|);
        SectionOk(mem, ph[i]) && k < |segs| && segs[k] == Segment(ph[i].offset, SpanOf(mem, ph[i]), 0)
    {
      NoteSegsPrefix(mem, ph, i + 1, |ph|);
      NextNote(mem, ph, {}, i);
      assert NoteSegs(mem, ph, |ph|)[Notes(ph, i)] == NoteSegs(mem, ph, i + 1)[Notes(ph, i)];
    }
  }

  lemma OneMore(segs: seq<Segment>, s: Segment)
    ensures Before(segs + [s], |segs| + 1) == Before(segs, |segs|) + s.size
  {
    SameSizes(segs, segs + [s], |segs|);
  }

  lemma {:induction false} SameSizes(a: seq<Segment>, b: seq<Segment>, k: nat)
    requires k <= |a| && k <= |b| && forall i :: 0 <= i < k ==> a[i].size == b[i].size
    ensures Before(a, k) == Before(b, k)
  {
    if k > 0 { SameSizes(a, b, k - 1); }
  }

  lemma NoLoads(ph: seq<Phdr>, base: nat)
    ensures LoadSegs(ph, 0) == [] && Relocated(ph, base, 0) == [] && LoadBytes(ph, 0) == 0
  {
  }

  lemma NextLoad(ph: seq<Phdr>, base: nat, i: nat)
    requires i < |ph|
    ensures LoadBytes(ph, i + 1) == LoadBytes(ph, i) + if ph[i].Load() then ph[i].memsz else 0
    ensures LoadSegs(ph, i + 1) == LoadSegs(ph, i)
      + if ph[i].Load() then [Segment(ph[i].offset, ph[i].memsz, 0)] else []
    ensures Relocated(ph, base, i + 1) == Relocated(ph, base, i)
      + [if ph[i].Load() then ph[i].(offset := base + LoadBytes(ph, i)) else ph[i]]
  {
  }

  /** The first `i` elements have their offsets. */
  predicate PartlyPlaced(list: seq<Segment>, segs: seq<Segment>, start: nat, i: nat)
  {
    i <= |segs| && list == Placed(segs, start, i) + segs[i..]
  }

  lemma NonePlaced(segs: seq<Segment>, start: nat)
    ensures PartlyPlaced(segs, segs, start, 0) && Before(segs, 0) == 0
  {
  }

  lemma NextPlaced(list: seq<Segment>, segs: seq<Segment>, start: nat, i: nat)
    requires PartlyPlaced(list, segs, start, i) && i < |segs| == |list|
    ensures list[i] == segs[i] && Before(segs, i + 1) == Before(segs, i) + segs[i].size
    ensures PartlyPlaced(list[i := list[i].(offset := start + Before(segs, i))], segs, start, i + 1)
  {
    hide Before;
    assert Before(segs, i + 1) == Before(segs, i) + segs[i].size by { BeforeNext(segs, i); }
    FillHole(Placed(segs, start, i), segs, i, segs[i].(offset := start + Before(segs, i)));
  }

  lemma BeforeNext(segs: seq<Segment>, i: nat)
    requires i < |segs|
    ensures Before(segs, i + 1) == Before(segs, i) + segs[i].size
  {
  }

  lemma AllPlaced(list: seq<Segment>, segs: seq<Segment>, start: nat)
    requires PartlyPlaced(list, segs, start, |segs|)
    ensures list == Placed(segs, start, |segs|)
  {
    hide Placed;
  }

  lemma FillHole<T>(x: seq<T>, y: seq<T>, i: nat, v: T)
    requires |x| == i < |y|
    ensures (x + y[i..])[i] == y[i]
    ensures (x + y[i..])[i := v] == (x + [v]) + y[i + 1..]
    ensures v == y[i] ==> x + y[i..] == (x + [v]) + y[i + 1..]
  {
    assert y[i..] == [y[i]] + y[i + 1..];
  }

  // -------------------------------------------------------------- headers and list agree

  lemma {:induction false} PlacedIs(segs: seq<Segment>, start: nat, k: nat, n: nat)
    requires k < n <= |segs|
    ensures Placed(segs, start, n)[k] == segs[k].(offset := start + Before(segs, k))
  {
    if k < n - 1 { PlacedIs(segs, start, k, n - 1); }
  }

  /** Offsets given to the list elements make them tile the file. */
  lemma PlacedTiles(segs: seq<Segment>, start: nat)
    ensures Tiled(Placed(segs, start, |segs|), start)
    ensures forall k :: 0 <= k <= |segs| ==> Before(Placed(segs, start, |segs|), k) == Before(segs, k)
  {
    hide Before, Placed;
    var p := Placed(segs, start, |segs|);
    forall k | 0 <= k < |segs| ensures p[k] == segs[k].(offset := start + Before(segs, k)) {
      PlacedIs(segs, start, k, |segs|);
    }
    forall k | 0 <= k <= |segs| ensures Before(p, k) == Before(segs, k) { SameSizes(p, segs, k); }
  }

  lemma {:induction false} RelocatedIs(ph: seq<Phdr>, base: nat, j: nat, n: nat)
    requires j < n <= |ph|
    ensures Relocated(ph, base, n)[j] == if ph[j].Load() then ph[j].(offset := base + LoadBytes(ph, j)) else ph[j]
  {
    if j < n - 1 { RelocatedIs(ph, base, j, n - 1); }
  }

  lemma {:induction false} LoadSegsPrefix(ph: seq<Phdr>, j: nat, n: nat)
    requires j <= n <= |ph|
    ensures Loads(ph, j) <= Loads(ph, n) && LoadSegs(ph, j) == LoadSegs(ph, n)[..Loads(ph, j)]
  {
    if j < n { LoadSegsPrefix(ph, j, n - 1); }
  }

  lemma {:induction false} BytesOfLoads(ph: seq<Phdr>, k: nat)
    requires k <= |ph|
    ensures Before(LoadSegs(ph, k), Loads(ph, k)) == LoadBytes(ph, k)
  {
    if k > 0 {
      BytesOfLoads(ph, k - 1);
      assert LoadSegs(ph, k - 1) + [] == LoadSegs(ph, k - 1);
      if ph[k - 1].Load() { OneMore(LoadSegs(ph, k - 1), Segment(ph[k - 1].offset, ph[k - 1].memsz, 0)); }
    }
  }

  /** Loadable header `j` is element number `Loads(ph, j)`, after `LoadBytes(ph, j)` bytes. */
  lemma LoadElement(ph: seq<Phdr>, j: nat)
    requires j < |ph| && ph[j].Load()
    ensures var k := Loads(ph, j); var segs := LoadSegs(ph, |ph|);
      k < |segs| && segs[k] == Segment(ph[j].offset, ph[j].memsz, 0) && Before(segs, k) == LoadBytes(ph, j)
  {
    var k, segs := Loads(ph, j), LoadSegs(ph, |ph|);
    LoadSegsPrefix(ph, j, |ph|);
    LoadSegsPrefix(ph, j + 1, |ph|);
    assert LoadSegs(ph, j + 1)[k] == Segment(ph[j].offset, ph[j].memsz, 0);
    hide LoadSegs;
    BytesOfLoads(ph, j);
    SameSizes(LoadSegs(ph, j), segs, k);
  }

  lemma {:induction false} BeforeJoin(a: seq<Segment>, b: seq<Segment>, k: nat)
    requires k <= |b|
    ensures Before(a + b, |a| + k) == Before(a, |a|) + Before(b, k)
  {
    if k == 0 { SameSizes(a, a + b, |a|); } else { BeforeJoin(a, b, k - 1); }
  }

  /** The header table after the notes are merged. */
  function Table(mem: seq<byte>, ph: seq<Phdr>): (t: seq<Phdr>)
    requires SectionsOk(mem, ph)
    ensures |t| == |ph| - Notes(ph, |ph|) + 1
  {
    var n := Notes(ph, |ph|);
    [MergedNote(Before(NoteSegs(mem, ph, |ph|), n), |ph| - n + 1)] + ph[n..]
  }

  function Elements(mem: seq<byte>, ph: seq<Phdr>): seq<Segment>
    requires SectionsOk(mem, ph)
  {
    var t := Table(mem, ph);
    NoteSegs(mem, ph, |ph|) + LoadSegs(t, |t|)
  }

  /** Header table and segment list of the dump file. */
  function FinalTable(mem: seq<byte>, ph: seq<Phdr>): (t: seq<Phdr>)
    requires SectionsOk(mem, ph)
    ensures |t| == |ph| - Notes(ph, |ph|) + 1
  {
    var t := Table(mem, ph);
    Relocated(t, HeaderBytes(|t|) + t[0].memsz, |t|)
  }

  function FinalList(mem: seq<byte>, ph: seq<Phdr>): seq<Segment>
    requires SectionsOk(mem, ph)
  {
    Placed(Elements(mem, ph), HeaderBytes(|Table(mem, ph)|), |Elements(mem, ph)|)
  }

  /** What the list holds for header `j` of the merged table. */
  ghost predicate Agrees(t: seq<Phdr>, final: seq<Phdr>, list: seq<Segment>, notes: nat, j: nat)
    requires j < |t| == |final|
  {
    var k := notes + Loads(t, j);
    if t[j].Load() then
      && final[j] == t[j].(offset := final[j].offset)
      && k < |list| && list[k] == Segment(t[j].offset, t[j].memsz, final[j].offset)
    else final[j] == t[j]
  }

  /** The elements tile the file from the end of the headers; the merged note header covers
      exactly the elements of the notes, and each loadable header that was kept has the
      offset and the size of its own element. */
  lemma OffsetsAgree(mem: seq<byte>, ph: seq<Phdr>)
    requires SectionsOk(mem, ph)
    ensures var t := Table(mem, ph); var final := FinalTable(mem, ph); var list := FinalList(mem, ph);
      var notes := Notes(ph, |ph|);
      && Tiled(list, HeaderBytes(|t|)) && notes <= |list|
      && final[0] == MergedNote(Before(list, notes), |t|) && final[0].offset == HeaderBytes(|t|)
      && forall j :: 0 <= j < |t| ==> Agrees(t, final, list, notes, j)
  {
    hide Tiled, NoteSegs, Notes, Before, Relocated, Placed, LoadSegs, LoadBytes, HeaderBytes, Agrees, Loads;
    var t, final, list, notes := Table(mem, ph), FinalTable(mem, ph), FinalList(mem, ph), Notes(ph, |ph|);
    var all, start := Elements(mem, ph), HeaderBytes(|t|);
    PlacedTiles(all, start);
    BeforeJoin(NoteSegs(mem, ph, |ph|), LoadSegs(t, |t|), 0);
    NonePlaced(LoadSegs(t, |t|), 0);
    RelocatedIs(t, start + t[0].memsz, 0, |t|);
    forall j | 0 <= j < |t| ensures Agrees(t, final, list, notes, j) {
      HeaderAgrees(NoteSegs(mem, ph, |ph|), t, start, j);
    }
  }

  lemma HeaderAgrees(ns: seq<Segment>, t: seq<Phdr>, start: nat, j: nat)
    requires j < |t|
    ensures var all := ns + LoadSegs(t, |t|);
      Agrees(t, Relocated(t, start + Before(ns, |ns|), |t|), Placed(all, start, |all|), |ns|, j)
  {
    hide Before, Relocated, Placed, LoadSegs, LoadBytes, Loads;
    RelocatedIs(t, start + Before(ns, |ns|), j, |t|);
    if t[j].Load() {
      var k, all := Loads(t, j), ns + LoadSegs(t, |t|);
      LoadElement(t, j);
      BeforeJoin(ns, LoadSegs(t, |t|), k);
      PlacedIs(all, start, |ns| + k, |all|);
    }
  }

  /** Reading the dump file where a header points gives what the card's headers described: the
      merged note header gives the notes of all PT_NOTE headers one after the other, a loadable
      header the memory behind it. Nothing but its offset changed in a header that was kept. */
  lemma HeadersServeMemory(hdr: seq<byte>, mem: seq<byte>, ph: seq<Phdr>, j: nat)
    requires SectionsOk(mem, ph) && InMemory(FinalList(mem, ph), mem)
    requires j < |FinalTable(mem, ph)| && |hdr| == HeaderBytes(|FinalTable(mem, ph)|)
    ensures NotesFit(mem, ph)
    ensures var h := FinalTable(mem, ph)[j]; var file := FlatFile(hdr, mem, FinalList(mem, ph));
      if j == 0 then
        var notes := NoteBytes(mem, ph, |ph|);
        && h == Phdr(PT_NOTE, 0, |hdr|, 0, 0, |notes|, |notes|, 0)
        && h.offset + h.memsz <= |file| && file[h.offset..h.offset + h.memsz] == notes
      else
        var was := ph[Notes(ph, |ph|) + j - 1];
        if was.Load() then
          && h == was.(offset := h.offset) && was.offset + h.memsz <= |mem| && h.offset + h.memsz <= |file|
          && file[h.offset..h.offset + h.memsz] == mem[was.offset..was.offset + h.memsz]
        else h == was
  {
    hide FinalTable, FinalList, Notes, Before, Joined, FlatFile, HeaderBytes, Loads, NoteBytes, NotesFit;
    hide SectionsOk, NoteSegs;
    var t, list, notes := Table(mem, ph), FinalList(mem, ph), Notes(ph, |ph|);
    OffsetsAgree(mem, ph);
    NotesJoined(mem, ph);
    assert Agrees(t, FinalTable(mem, ph), list, notes, j);
    if t[j].Load() {
      FileIsMemory(hdr, mem, list, notes + Loads(t, j), 0, t[j].memsz);
    }
    if j == 0 { FirstElements(hdr, mem, list, notes); }
  }

  // The notes, on the card's headers.

  /** Length of the notes of a PT_NOTE header. */
  function SpanOf(mem: seq<byte>, h: Phdr): nat
    requires SectionOk(mem, h)
  {
    NoteSpan(mem[h.offset..h.offset + h.memsz], 0)
  }

  predicate NotesFit(mem: seq<byte>, ph: seq<Phdr>)
    requires SectionsOk(mem, ph)
  {
    forall i :: 0 <= i < |ph| && ph[i].Note() ==> ph[i].offset + SpanOf(mem, ph[i]) <= |mem|
  }

  /** The card memory of the notes of the first `k` headers, in the order of the headers. */
  function NoteBytes(mem: seq<byte>, ph: seq<Phdr>, k: nat): seq<byte>
    requires SectionsOk(mem, ph) && NotesFit(mem, ph) && k <= |ph|
  {
    if k == 0 then []
    else
      var h := ph[k - 1];
      NoteBytes(mem, ph, k - 1) + if h.Note() then mem[h.offset..h.offset + SpanOf(mem, h)] else []
  }

  lemma {:induction false} NoteSegsPrefix(mem: seq<byte>, ph: seq<Phdr>, j: nat, n: nat)
    requires SectionsOk(mem, ph) && j <= n <= |ph|
    ensures Notes(ph, j) <= Notes(ph, n) && NoteSegs(mem, ph, j) == NoteSegs(mem, ph, n)[..Notes(ph, j)]
  {
    hide SectionsOk;
    if j < n {
      NoteSegsPrefix(mem, ph, j, n - 1);
      NextNote(mem, ph, {}, n - 1);
    }
  }

  lemma NoteElement(mem: seq<byte>, ph: seq<Phdr>, i: nat)
    requires SectionsOk(mem, ph) && i < |ph| && ph[i].Note()
    ensures var k := Notes(ph, i); var list := FinalList(mem, ph);
      k < |list| && list[k].paddr == ph[i].offset && list[k].size == SpanOf(mem, ph[i])
  {
    hide Notes, NoteSegs, Placed, SectionsOk, Before, LoadSegs, Walkable, NoteSpan;
    var k, all := Notes(ph, i), Elements(mem, ph);
    NotesListed(mem, ph);
    PlacedIs(all, HeaderBytes(|Table(mem, ph)|), k, |all|);
  }

  /** The list elements of the notes hold the notes of the headers. */
  lemma NotesJoined(mem: seq<byte>, ph: seq<Phdr>)
    requires SectionsOk(mem, ph) && InMemory(FinalList(mem, ph), mem)
    ensures NotesFit(mem, ph) && Notes(ph, |ph|) <= |FinalList(mem, ph)|
    ensures Joined(mem, FinalList(mem, ph), Notes(ph, |ph|)) == NoteBytes(mem, ph, |ph|)
  {
    hide FinalList, Notes, Joined, NoteBytes, SpanOf;
    forall i | 0 <= i < |ph| && ph[i].Note() ensures ph[i].offset + SpanOf(mem, ph[i]) <= |mem| {
      NoteElement(mem, ph, i);
    }
    JoinedNotes(mem, ph, |ph|);
  }

  lemma {:induction false} JoinedNotes(mem: seq<byte>, ph: seq<Phdr>, k: nat)
    requires SectionsOk(mem, ph) && InMemory(FinalList(mem, ph), mem) && NotesFit(mem, ph) && k <= |ph|
    ensures Notes(ph, k) <= |FinalList(mem, ph)|
    ensures Joined(mem, FinalList(mem, ph), Notes(ph, k)) == NoteBytes(mem, ph, k)
  {
    hide SectionsOk, InMemory, NotesFit, FinalList, SpanOf;
    if k > 0 {
      JoinedNotes(mem, ph, k - 1);
      if ph[k - 1].Note() { NoteElement(mem, ph, k - 1); }
    }
  }

  /** The section of a PT_NOTE header holds the records `ns` and ends with them or goes on with four
      zero bytes. */
  predicate HoldsNotes(mem: seq<byte>, h: Phdr, ns: seq<NoteRecord>)
  {
    var e := |EncodeNotes(ns)|;
    && e <= h.memsz && h.offset + h.memsz <= |mem| && mem[h.offset..h.offset + e] == EncodeNotes(ns)
    && (forall n <- ns :: ValidNote(n))
    && (e == h.memsz || (e + 4 <= h.memsz && Word(mem, h.offset + e) == 0))
  }

  predicate AllHold(mem: seq<byte>, ph: seq<Phdr>, ns: seq<seq<NoteRecord>>)
  {
    |ns| == |ph| && forall i :: 0 <= i < |ph| && ph[i].Note() ==> HoldsNotes(mem, ph[i], ns[i])
  }

  /** The records of the first `k` headers. */
  function Records(ph: seq<Phdr>, ns: seq<seq<NoteRecord>>, k: nat): seq<NoteRecord>
    requires k <= |ph| == |ns|
  {
    if k == 0 then [] else Records(ph, ns, k - 1) + if ph[k - 1].Note() then ns[k - 1] else []
  }

  lemma HeldSpan(mem: seq<byte>, h: Phdr, ns: seq<NoteRecord>)
    requires HoldsNotes(mem, h, ns)
    ensures SectionOk(mem, h) && SpanOf(mem, h) == |EncodeNotes(ns)| && h.offset + SpanOf(mem, h) <= |mem|
    ensures mem[h.offset..h.offset + SpanOf(mem, h)] == EncodeNotes(ns)
  {
    hide EncodeNotes, ValidNote, Walkable, NoteSpan;
    var s, e := mem[h.offset..h.offset + h.memsz], |EncodeNotes(ns)|;
    assert s[0..e] == mem[h.offset..h.offset + e];
    SpanOfNotes(s, 0, ns);
  }

  lemma {:induction false} EncodeJoined(a: seq<NoteRecord>, b: seq<NoteRecord>)
    ensures EncodeNotes(a + b) == EncodeNotes(a) + EncodeNotes(b)
  {
    hide EncodeNote;
    if a == [] {
      assert a + b == b;
    } else {
      assert (a + b)[1..] == a[1..] + b;
      EncodeJoined(a[1..], b);
    }
  }

  /** Where the sections hold laid out notes, the merged section is the layout of all of them. */
  lemma {:induction false} MergedRecords(mem: seq<byte>, ph: seq<Phdr>, ns: seq<seq<NoteRecord>>, k: nat)
    requires AllHold(mem, ph, ns) && k <= |ph|
    ensures SectionsOk(mem, ph) && NotesFit(mem, ph)
    ensures NoteBytes(mem, ph, k) == EncodeNotes(Records(ph, ns, k))
  {
    hide HoldsNotes, EncodeNotes, SpanOf, SectionOk;
    forall i | 0 <= i < |ph| && ph[i].Note()
      ensures SectionOk(mem, ph[i]) && ph[i].offset + SpanOf(mem, ph[i]) <= |mem|
    {
      HeldSpan(mem, ph[i], ns[i]);
    }
    if k == 0 {
      NoRecords();
    } else {
      MergedRecords(mem, ph, ns, k - 1);
      var more := Records(ph, ns, k - 1);
      if ph[k - 1].Note() {
        HeldSpan(mem, ph[k - 1], ns[k - 1]);
        EncodeJoined(more, ns[k - 1]);
      } else {
        assert more + [] == more;
      }
    }
  }

  lemma NoRecords()
    ensures EncodeNotes([]) == []
  {
  }

  /** The dump file at its first header: the records of all PT_NOTE headers, laid out in order. */
  lemma NotesServed(hdr: seq<byte>, mem: seq<byte>, ph: seq<Phdr>, ns: seq<seq<NoteRecord>>)
    requires AllHold(mem, ph, ns) && SectionsOk(mem, ph) && InMemory(FinalList(mem, ph), mem)
    requires |hdr| == HeaderBytes(|FinalTable(mem, ph)|)
    ensures var h := FinalTable(mem, ph)[0]; var file := FlatFile(hdr, mem, FinalList(mem, ph));
      && h.offset + h.memsz <= |file|
      && file[h.offset..h.offset + h.memsz] == EncodeNotes(Records(ph, ns, |ph|))
  {
    hide AllHold, SectionsOk, InMemory, FinalList, FinalTable, EncodeNotes, Records, NoteBytes, NotesFit, FlatFile;
    hide HeaderBytes, Notes;
    MergedRecords(mem, ph, ns, |ph|);
    HeadersServeMemory(hdr, mem, ph, 0);
  }

  lemma FirstElements(hdr: seq<byte>, mem: seq<byte>, list: seq<Segment>, k: nat)
    requires InMemory(list, mem) && k <= |list|
    ensures |hdr| + Before(list, k) <= |FlatFile(hdr, mem, list)|
    ensures FlatFile(hdr, mem, list)[|hdr|..|hdr| + Before(list, k)] == Joined(mem, list, k)
  {
    hide Before, Joined;
    JoinedPrefix(mem, list, k, |list|);
  }

  // ------------------------------------------------------------------------- file size

  /** Bytes claimed by headers after the first that are not loadable. */
  function Unlisted(t: seq<Phdr>, k: nat): nat
    requires k <= |t|
  {
    if k <= 1 then 0 else Unlisted(t, k - 1) + if t[k - 1].Load() then 0 else t[k - 1].memsz
  }

  lemma {:induction false} SizesSplit(t: seq<Phdr>, base: nat, k: nat)
    requires 0 < k <= |t| && !t[0].Load()
    ensures MemSizes(Relocated(t, base, |t|), k) == t[0].memsz + LoadBytes(t, k) + Unlisted(t, k)
  {
    hide Relocated;
    RelocatedIs(t, base, k - 1, |t|);
    assert k == 1 ==> LoadBytes(t, 0) == 0 && MemSizes(Relocated(t, base, |t|), 0) == 0;
    if k > 1 { SizesSplit(t, base, k - 1); }
  }

  lemma {:induction false} UnlistedZero(t: seq<Phdr>, k: nat)
    requires k <= |t|
    ensures Unlisted(t, k) == 0 <==> forall j :: 1 <= j < k && !t[j].Load() ==> t[j].memsz == 0
  {
    if k > 1 {
      UnlistedZero(t, k - 1);
    }
  }

  /** Every header from `n` on is loadable or empty. */
  predicate OnlyLoads(ph: seq<Phdr>, n: nat)
  {
    forall j :: n <= j < |ph| && !ph[j].Load() ==> ph[j].memsz == 0
  }

  /** get_vmcore_size_elf64 computes the end of the last element exactly when every header
      kept beside the merged note is loadable or empty. */
  lemma SizeIsEnd(mem: seq<byte>, ph: seq<Phdr>)
    requires SectionsOk(mem, ph)
    ensures var t := Table(mem, ph); var list := FinalList(mem, ph);
      HeaderBytes(|t|) + MemSizes(FinalTable(mem, ph), |t|) == HeaderBytes(|t|) + Before(list, |list|)
      <==> OnlyLoads(ph, Notes(ph, |ph|))
    ensures MemSizes(FinalTable(mem, ph), |Table(mem, ph)|) >= Before(FinalList(mem, ph), |FinalList(mem, ph)|)
  {
    hide NoteSegs, Notes, Before, Relocated, Placed, LoadSegs, LoadBytes, HeaderBytes, Loads, MemSizes, Unlisted;
    var t, ns, n := Table(mem, ph), NoteSegs(mem, ph, |ph|), Notes(ph, |ph|);
    var loads := LoadSegs(t, |t|);
    PlacedTiles(ns + loads, HeaderBytes(|t|));
    BeforeJoin(ns, loads, |loads|);
    BytesOfLoads(t, |t|);
    SizesSplit(t, HeaderBytes(|t|) + t[0].memsz, |t|);
    UnlistedZero(t, |t|);
    Shifted(t, ph, n);
  }

  lemma Shifted(t: seq<Phdr>, ph: seq<Phdr>, n: nat)
    requires n <= |ph| && |t| == |ph| - n + 1 && t[1..] == ph[n..]
    ensures (forall j :: 1 <= j < |t| && !t[j].Load() ==> t[j].memsz == 0)
      <==> (forall j :: n <= j < |ph| && !ph[j].Load() ==> ph[j].memsz == 0)
  {
    assert forall j :: 1 <= j < |t| ==> t[j] == t[1..][j - 1] == ph[j - 1 + n];
    assert forall j :: n <= j < |ph| ==> ph[j] == ph[n..][j - n] == t[j - n + 1];
  }

  // ------------------------------------------------------- which headers are given up

  lemma {:induction false} NotesBetween(ph: seq<Phdr>, j: nat, k: nat)
    requires j <= k <= |ph|
    ensures Notes(ph, j) <= Notes(ph, k) <= Notes(ph, j) + (k - j)
    ensures Notes(ph, k) == Notes(ph, j) <==> forall i :: j <= i < k ==> !ph[i].Note()
    ensures Notes(ph, k) == Notes(ph, j) + (k - j) <==> forall i :: j <= i < k ==> ph[i].Note()
  {
    if j < k {
      NotesBetween(ph, j, k - 1);
    }
  }

  lemma {:induction false} LoadsBetween(ph: seq<Phdr>, j: nat, k: nat)
    requires j <= k <= |ph|
    ensures Loads(ph, j) <= Loads(ph, k)
    ensures Loads(ph, k) == Loads(ph, j) <==> forall i :: j <= i < k ==> !ph[i].Load()
  {
    if j < k {
      LoadsBetween(ph, j, k - 1);
    }
  }

  /** The merge drops the first headers, as many as there are notes. No note survives beside
      the merged one exactly when all notes came first. */
  lemma NotesFirst(mem: seq<byte>, ph: seq<Phdr>)
    requires SectionsOk(mem, ph)
    ensures var t := Table(mem, ph);
      (forall j :: 1 <= j < |t| ==> !t[j].Note()) <==> (forall i :: 0 <= i < Notes(ph, |ph|) ==> ph[i].Note())
  {
    hide NoteSegs, Before;
    var n, t := Notes(ph, |ph|), Table(mem, ph);
    NotesBetween(ph, 0, n);
    NotesBetween(ph, n, |ph|);
    assert forall j :: 1 <= j < |t| ==> t[j] == ph[j - 1 + n];
    assert forall i :: n <= i < |ph| ==> ph[i] == t[i - n + 1];
  }

  /** Every loadable header is kept exactly when none stood among the headers dropped. */
  lemma LoadsKept(mem: seq<byte>, ph: seq<Phdr>)
    requires SectionsOk(mem, ph)
    ensures var n := Notes(ph, |ph|); var t := Table(mem, ph);
      Loads(t, |t|) == Loads(ph, |ph|) <==> forall i :: 0 <= i < n ==> !ph[i].Load()
  {
    hide Before, NoteSegs, Notes;
    var n, t := Notes(ph, |ph|), Table(mem, ph);
    LoadsBetween(ph, 0, n);
    LoadsOfRest(t, ph, n, |ph| - n);
  }

  lemma {:induction false} LoadsOfRest(t: seq<Phdr>, ph: seq<Phdr>, n: nat, k: nat)
    requires n + k <= |ph| && |t| == |ph| - n + 1 && t[1..] == ph[n..] && !t[0].Load()
    ensures Loads(t, k + 1) == Loads(ph, n + k) - Loads(ph, n)
  {
    if k > 0 {
      LoadsOfRest(t, ph, n, k - 1);
      assert t[k] == t[1..][k - 1] == ph[n..][k - 1];
    } else {
      assert Loads(t, 1) == Loads(t, 0);
    }
  }

  // ---------------------------------------------------------------- the whole rewriting

  /** What remains of a crash dump once its headers are parsed. */
  datatype Dump = Dump(table: seq<Phdr>, hdrlen: nat, list: seq<Segment>, size: nat)
  {
    /** The end of the last element. */
    function End(): nat { hdrlen + Before(list, |list|) }
  }

  /** The rewritten headers and their list, tiling the file from the end of the headers, and a
      size that is the end of the last element exactly when only loadable headers were kept. */
  ghost predicate DumpOf(d: Dump, mem: seq<byte>, ph: seq<Phdr>)
    requires SectionsOk(mem, ph)
  {
    && d.table == FinalTable(mem, ph) && d.list == FinalList(mem, ph)
    && d.hdrlen == HeaderBytes(|d.table|) && Tiled(d.list, d.hdrlen)
    && d.size >= d.End() && (d.size == d.End() <==> OnlyLoads(ph, Notes(ph, |ph|)))
  }

  /** A parsed dump can be read, and no read of it misses the list exactly when only loadable
      headers were kept: every other read then fails only for a page that cannot be copied. */
  lemma DumpReads(hdr: seq<byte>, mem: seq<byte>, ph: seq<Phdr>, d: Dump)
    requires SectionsOk(mem, ph) && DumpOf(d, mem, ph) && |hdr| == d.hdrlen && InMemory(d.list, mem)
    ensures ValidFile(hdr, mem, d.list, d.size)
    ensures (forall pos, n :: !Misses(hdr, d.list, d.size, pos, n)) <==> OnlyLoads(ph, Notes(ph, |ph|))
  {
    hide Before, FinalTable, FinalList, Notes, Tiled, InMemory, OnlyLoads;
    NoneMissExactly(hdr, d.list, d.size);
  }

  lemma NoneMissExactly(hdr: seq<byte>, segs: seq<Segment>, size: nat)
    requires size >= FileEnd(hdr, segs)
    ensures (forall pos, n :: !Misses(hdr, segs, size, pos, n)) <==> size == FileEnd(hdr, segs)
  {
    hide Before;
    if size > FileEnd(hdr, segs) { assert Misses(hdr, segs, size, FileEnd(hdr, segs), 1); }
  }

  // -------------------------------------------------------------------------- witnesses

  function Header(ptype: nat, memsz: nat): Phdr { Phdr(ptype, 0, 0, 0, 0, 0, memsz, 0) }

  /** A header of a third type with memory behind it makes the size too large. */
  lemma SizeTooLarge()
    ensures var ph := [Header(PT_NOTE, 0), Header(6, 1)];
      && SectionsOk([], ph)
      && MemSizes(FinalTable([], ph), |Table([], ph)|) != Before(FinalList([], ph), |FinalList([], ph)|)
  {
    hide Relocated, Placed, LoadSegs, NoteSegs, Before;
    var ph := [Header(PT_NOTE, 0), Header(6, 1)];
    assert Walkable([], 0);
    assert Notes(ph, 0) == 0 && Notes(ph, 1) == 1 && Notes(ph, 2) == 1;
    assert !ph[1].Load() && !OnlyLoads(ph, 1);
    SizeIsEnd([], ph);
  }

  function LoadThenNote(): seq<Phdr> { [Header(PT_LOAD, 1), Header(PT_NOTE, 0)] }

  lemma LoadThenNoteCounts()
    ensures SectionsOk([], LoadThenNote()) && Notes(LoadThenNote(), 2) == 1 && Loads(LoadThenNote(), 2) == 1
  {
    var ph := LoadThenNote();
    assert Walkable([], 0);
    assert Notes(ph, 1) == 0 && Loads(ph, 1) == 1;
  }

  /** With a loadable header before the note, the loadable one is dropped and the note kept. */
  lemma LoadDropped()
    ensures var ph := LoadThenNote();
      && SectionsOk([], ph) && |Table([], ph)| == 2 && Table([], ph)[1].Note()
      && Loads(Table([], ph), 2) == 0 && Loads(ph, 2) == 1
  {
    hide Before, NoteSegs, SectionsOk, Notes, Loads;
    LoadThenNoteCounts();
    NoLoadsIn(Table([], LoadThenNote()));
  }

  lemma NoLoadsIn(t: seq<Phdr>)
    requires |t| == 2 && !t[0].Load() && !t[1].Load()
    ensures Loads(t, 2) == 0
  {
    assert Loads(t, 1) == 0;
  }
}
