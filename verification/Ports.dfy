/** The SCIF port allocator (micscif/micscif_ports.c): a bitmap of free ports searched from
    a hint, against a set of free ports. */
module Ports {
  import opened Bits

  const RESERVED: nat := 1088   // SCIF_PORT_RSVD, a multiple of 64

  // ------------------------------------------------------------- one word of the bitmap

  /** ffsll: the position of the lowest set bit counted from one, or zero. */
  function FindFirst(w: nat): nat
  {
    if w == 0 then 0 else if w % 2 == 1 then 1 else 1 + FindFirst(w / 2)
  }

  lemma {:induction false} FindFirstIs(w: nat, n: nat)
    requires 0 < w < Pow2(n)
    ensures 1 <= FindFirst(w) <= n && Bit(w, FindFirst(w) - 1)
    ensures forall i: nat :: i < FindFirst(w) - 1 ==> !Bit(w, i)
  {
    if w % 2 == 0 {
      FindFirstIs(w / 2, n - 1);
      forall i: nat | i < FindFirst(w) - 1 ensures !Bit(w, i) {
        if i > 0 { assert !Bit(w / 2, i - 1); }
      }
    }
  }

  predicate Word(w: nat) { w < Pow2(64) }

  /** `word &= ~(1 << b)`. */
  function Clear(w: nat, b: nat): nat
    requires b < 64
  {
    Pow2Increases(b, 64);
    And(w, Not(64, Pow2(b)))
  }

  /** `word |= 1 << b`. */
  function Set(w: nat, b: nat): nat { Or(w, Pow2(b)) }

  lemma ClearBits(w: nat, b: nat, i: nat)
    requires Word(w) && b < 64 && i < 64
    ensures Word(Clear(w, b)) && (Bit(Clear(w, b), i) <==> Bit(w, i) && i != b)
  {
    hide And, Not, Bit, Pow2;
    Pow2Increases(b, 64);
    AndBound(w, Not(64, Pow2(b)));
    AndBit(w, Not(64, Pow2(b)), i);
    NotBit(64, Pow2(b), i);
    Pow2Bit(b, i);
  }

  lemma SetBits(w: nat, b: nat, i: nat)
    requires Word(w) && b < 64
    ensures Word(Set(w, b)) && (Bit(Set(w, b), i) <==> Bit(w, i) || i == b)
  {
    hide Or, Bit, Pow2;
    Pow2Increases(b, 64);
    OrBound(64, w, Pow2(b));
    OrBit(w, Pow2(b), i);
    Pow2Bit(b, i);
  }

  /** `word & (1 << b)` tests bit `b`. */
  lemma TestBit(w: nat, b: nat)
    requires Word(w) && b < 64
    ensures And(w, Pow2(b)) != 0 <==> Bit(w, b)
  {
    hide And, Bit, Pow2;
    var m := And(w, Pow2(b));
    AndBit(w, Pow2(b), b);
    Pow2Bit(b, b);
    ZeroBit(b);
    if !Bit(w, b) {
      AndBound(w, Pow2(b));
      forall i: nat | i < 64 ensures !Bit(m, i) {
        AndBit(w, Pow2(b), i);
        Pow2Bit(b, i);
      }
      AllClearIsZero(m, 64);
    }
  }

  // ------------------------------------------------------------------ the whole bitmap

  predicate Bitmap(ws: seq<nat>) { |ws| == 1024 && forall k :: 0 <= k < 1024 ==> Word(ws[k]) }

  predicate IsFree(ws: seq<nat>, p: nat)
    requires |ws| == 1024 && p < 0x10000
  {
    Bit(ws[p / 64], p % 64)
  }

  function FreeSet(ws: seq<nat>): set<nat>
    requires |ws| == 1024
  {
    set p | 0 <= p < 0x10000 && IsFree(ws, p)
  }

  lemma PortIs(k: nat, b: nat)
    requires b < 64
    ensures (64 * k + b) / 64 == k && (64 * k + b) % 64 == b
  {
  }

  lemma ClearPort(ws: seq<nat>, p: nat)
    requires Bitmap(ws) && p < 0x10000
    ensures var ws' := ws[p / 64 := Clear(ws[p / 64], p % 64)];
      Bitmap(ws') && FreeSet(ws') == FreeSet(ws) - {p}
  {
    hide Clear, Bit, Word;
    var k, b := p / 64, p % 64;
    var ws' := ws[k := Clear(ws[k], b)];
    ClearBits(ws[k], b, 0);
    forall q: nat | q < 0x10000 ensures IsFree(ws', q) <==> IsFree(ws, q) && q != p {
      ClearBits(ws[k], b, q % 64);
    }
  }

  lemma SetPort(ws: seq<nat>, p: nat)
    requires Bitmap(ws) && p < 0x10000
    ensures var ws' := ws[p / 64 := Set(ws[p / 64], p % 64)];
      Bitmap(ws') && FreeSet(ws') == FreeSet(ws) + {p}
  {
    hide Set, Bit, Word;
    var k, b := p / 64, p % 64;
    var ws' := ws[k := Set(ws[k], b)];
    SetBits(ws[k], b, 0);
    forall q: nat | q < 0x10000 ensures IsFree(ws', q) <==> IsFree(ws, q) || q == p {
      SetBits(ws[k], b, q % 64);
    }
  }

  /** No port of word `k` is free. */
  predicate EmptyWord(free: set<nat>, k: nat) { forall p <- free :: p / 64 != k }

  lemma EmptyIsZero(ws: seq<nat>, k: nat)
    requires Bitmap(ws) && k < 1024
    ensures ws[k] == 0 <==> EmptyWord(FreeSet(ws), k)
  {
    hide Bit;
    assert Word(ws[k]);
    if ws[k] == 0 {
      forall p: nat | p < 0x10000 && p / 64 == k ensures !IsFree(ws, p) { ZeroBit(p % 64); }
    }
    if EmptyWord(FreeSet(ws), k) {
      forall i: nat | i < 64 ensures !Bit(ws[k], i) {
        PortIs(k, i);
        assert 64 * k + i !in FreeSet(ws);
      }
      AllClearIsZero(ws[k], 64);
    }
  }

  /** The lowest set bit of a word is the least free port in it. */
  lemma LeastInWord(ws: seq<nat>, k: nat)
    requires Bitmap(ws) && k < 1024 && ws[k] != 0
    ensures 1 <= FindFirst(ws[k]) <= 64
    ensures var p := 64 * k + FindFirst(ws[k]) - 1;
      p in FreeSet(ws) && p / 64 == k && p % 64 == FindFirst(ws[k]) - 1
      && forall q <- FreeSet(ws) :: q / 64 == k ==> p <= q
  {
    hide Bit, FindFirst;
    assert Word(ws[k]);
    FindFirstIs(ws[k], 64);
    var b := FindFirst(ws[k]) - 1;
    PortIs(k, b);
    forall q <- FreeSet(ws) | q / 64 == k ensures 64 * k + b <= q {
      assert Bit(ws[k], q % 64);
    }
  }

  // ---------------------------------------------------- the allocator as a set and a hint

  /** The free ports, and the word from which get_scif_port searches. */
  datatype Pool = Pool(free: set<nat>, hint: nat)

  /** After init_scif_array: every port but port 0. */
  function Initial(): Pool { Pool(AllPorts(), 17) }

  predicate IsPort(p: nat) { 1 <= p < 0x10000 }

  function AllPorts(): set<nat> { set p: nat | p < 0x10000 && IsPort(p) }

  predicate Least(free: set<nat>, k: nat, p: nat)
  {
    p in free && p / 64 == k && forall q <- free :: q / 64 == k ==> p <= q
  }

  /** The hint moved on from `k` past every empty word. */
  predicate Advanced(free: set<nat>, k: nat, hint: nat)
  {
    && k <= hint <= 1024 && (forall j :: k <= j < hint ==> EmptyWord(free, j))
    && (hint < 1024 ==> !EmptyWord(free, hint))
  }

  predicate Reserves(s: Pool, port: nat, got: nat, s': Pool)
  {
    if port != 0 && port in s.free then got == port && s' == s.(free := s.free - {port})
    else got == 0 && s' == s
  }

  predicate Gets(s: Pool, got: nat, s': Pool)
  {
    if s.hint == 1024 || EmptyWord(s.free, s.hint) then got == 0 && s' == s
    else Least(s.free, s.hint, got) && s'.free == s.free - {got} && Advanced(s'.free, s.hint, s'.hint)
  }

  predicate Puts(s: Pool, port: nat, s': Pool)
  {
    if port == 0 then s' == s
    else s' == Pool(s.free + {port}, if port >= 1088 && port / 64 < s.hint then port / 64 else s.hint)
  }

  // ----------------------------------------------------------------------- the bitmap code

  class PortArray {
    const portBits: array<nat>
    var firstFree: nat
    var initArray: bool

    ghost predicate Valid()
      reads this, portBits
    {
      && portBits.Length == 1024 && Bitmap(portBits[..]) && firstFree <= 1024
    }

    /** The pool as callers see it: the array is filled by the first call that needs it. */
    ghost function View(): Pool
      requires Valid()
      reads this, portBits
    {
      if initArray then Initial() else Pool(FreeSet(portBits[..]), firstFree)
    }

    /** The statically allocated state. */
    constructor ()
      ensures Valid() && View() == Initial() && fresh(portBits)
    {
      portBits := new nat[1024](_ => 0);
      firstFree, initArray := 0, true;
      new;
      ZeroIsWord();
      assert Bitmap(portBits[..]);
    }

    /** init_scif_array. */
    method Init()
      requires Valid()
      modifies this, portBits
      ensures Valid() && !initArray && View() == old(View())
    {
      hide FreeSet, Word, Bitmap;
      if initArray {
        for i := 0 to 1024
          invariant forall k :: 0 <= k < i ==> portBits[k] == 0xffff_ffff_ffff_ffff
        {
          portBits[i] := 0xffff_ffff_ffff_ffff;
        }
        firstFree := 1088 / 64;
        portBits[0] := portBits[0] - 1;  // ^= 1 on a word whose low bit is set
        initArray := false;
        AllFree(portBits[..]);
      }
    }

    /** rsrv_scif_port. */
    method Reserve(port: nat) returns (got: nat)
      requires Valid() && port < 0x10000
      modifies this, portBits
      ensures Valid() && Reserves(old(View()), port, got, View())
    {
      hide FreeSet, Word, And, Clear;
      if port == 0 {
        return 0;
      }
      Init();
      ghost var ws := portBits[..];
      var k, b := port / 64, port % 64;
      TestPort(ws, port);
      if And(portBits[k], Pow2(b)) != 0 {
        ClearPort(ws, port);
        portBits[k] := Clear(portBits[k], b);
        assert portBits[..] == ws[k := Clear(ws[k], b)];
        return b + 64 * k;
      }
      return 0;
    }

    /** get_scif_port. */
    method Get() returns (got: nat)
      requires Valid()
      modifies this, portBits
      ensures Valid() && Gets(old(View()), got, View())
    {
      hide FreeSet, Word, Clear, EmptyWord, FindFirst, Bitmap;
      Init();
      if firstFree == 1024 {
        return 0;
      }
      ghost var ws, k := portBits[..], firstFree;
      EmptyIsZero(ws, k);
      var bit := FindFirst(portBits[firstFree]);
      FindFirstZero(portBits[firstFree]);
      if bit == 0 {
        return 0;
      }
      LeastInWord(ws, k);
      portBits[firstFree] := Clear(portBits[firstFree], bit - 1);
      got := bit - 1 + 64 * firstFree;
      ClearPort(ws, got);
      assert portBits[..] == ws[k := Clear(ws[k], bit - 1)];
      Advance();
    }

    /** The loop of get_scif_port that moves the hint. */
    method Advance()
      requires Valid() && !initArray
      modifies this`firstFree
      ensures Valid() && Advanced(FreeSet(portBits[..]), old(firstFree), firstFree)
    {
      hide FreeSet, Bitmap, EmptyWord;
      while firstFree < 1024 && portBits[firstFree] == 0
        invariant old(firstFree) <= firstFree <= 1024
        invariant forall j :: old(firstFree) <= j < firstFree ==> EmptyWord(FreeSet(portBits[..]), j)
      {
        EmptyIsZero(portBits[..], firstFree);
        firstFree := firstFree + 1;
      }
      if firstFree < 1024 { EmptyIsZero(portBits[..], firstFree); }
    }

    /** put_scif_port. */
    method Put(port: nat)
      requires Valid() && port < 0x10000
      modifies this, portBits
      ensures Valid() && Puts(old(View()), port, View())
    {
      hide FreeSet, Word, Set;
      if port == 0 {
        return;
      }
      ghost var ws := portBits[..];
      var k, b := port / 64, port % 64;
      SetPort(ws, port);
      portBits[k] := Set(portBits[k], b);
      assert portBits[..] == ws[k := Set(ws[k], b)];
      if port >= RESERVED && k < firstFree {
        firstFree := k;
      }
    }
  }

  lemma ZeroIsWord()
    ensures Word(0)
  {
  }

  lemma FindFirstZero(w: nat)
    ensures FindFirst(w) == 0 <==> w == 0
  {
  }

  lemma TestPort(ws: seq<nat>, p: nat)
    requires Bitmap(ws) && p < 0x10000
    ensures And(ws[p / 64], Pow2(p % 64)) != 0 <==> p in FreeSet(ws)
  {
    hide And, Bit, Pow2;
    assert Word(ws[p / 64]);
    TestBit(ws[p / 64], p % 64);
  }

  lemma {:induction false} OnesBit(n: nat, i: nat)
    requires i < n
    ensures Bit(Pow2(n) - 1, i)
    decreases i
  {
    if i > 0 {
      assert (Pow2(n) - 1) / 2 == Pow2(n - 1) - 1;
      OnesBit(n - 1, i - 1);
    }
  }

  lemma AllFree(ws: seq<nat>)
    requires |ws| == 1024 && ws[0] == 0xffff_ffff_ffff_fffe
    requires forall k :: 1 <= k < 1024 ==> ws[k] == 0xffff_ffff_ffff_ffff
    ensures Bitmap(ws) && FreeSet(ws) == Initial().free
  {
    hide Bit, Pow2;
    WordSizes();
    forall p: nat | p < 0x10000 ensures IsFree(ws, p) <==> p != 0 {
      OnesBit(64, p % 64);
      LowBitOff(p % 64);
    }
  }

  lemma LowBitOff(i: nat)
    requires i < 64
    ensures Bit(0xffff_ffff_ffff_fffe, i) <==> i != 0
  {
    if i > 0 {
      hide Pow2;
      assert 0xffff_ffff_ffff_fffe / 2 == 0x8000_0000_0000_0000 - 1;
      WordSizes();
      Pow2Double(63);
      OnesBit(63, i - 1);
    }
  }

  lemma Pow2Double(k: nat)
    ensures Pow2(k + 1) == 2 * Pow2(k)
  {
  }

  // ------------------------------------------------------------------- sequences of calls

  /** A call and what it returned. */
  datatype Event = Reserved(port: nat, got: nat) | Got(got: nat) | Freed(port: nat)

  predicate Step(s: Pool, e: Event, s': Pool)
  {
    match e
    case Reserved(port, got) => port < 0x10000 && Reserves(s, port, got, s')
    case Got(got) => Gets(s, got, s')
    case Freed(port) => port < 0x10000 && Puts(s, port, s')
  }

  function HeldAfter(held: set<nat>, e: Event): set<nat>
  {
    match e
    case Reserved(_, got) => if got == 0 then held else held + {got}
    case Got(got) => if got == 0 then held else held + {got}
    case Freed(port) => held - {port}
  }

  /** The ports callers hold after `es`, by what they were given and what they released. */
  function Held(es: seq<Event>): set<nat>
  {
    if es == [] then {} else HeldAfter(Held(es[..|es| - 1]), es[|es| - 1])
  }

  /** The pool states `ss` come from the calls `es`, and only held ports are released. */
  ghost predicate Run(es: seq<Event>, ss: seq<Pool>)
  {
    if es == [] then ss == [Initial()]
    else
      var n := |es| - 1;
      && |ss| == n + 2 && Run(es[..n], ss[..n + 1]) && Step(ss[n], es[n], ss[n + 1])
      && (es[n].Freed? && es[n].port != 0 ==> es[n].port in Held(es[..n]))
  }

  /** Free and held ports split all ports but 0, and no port is free between the reserved
      words and the hint. */
  predicate Inv(s: Pool, held: set<nat>)
  {
    && s.free !! held && s.free + held == AllPorts() && 17 <= s.hint <= 1024
    && forall p <- s.free :: 1088 <= p ==> s.hint <= p / 64
  }

  lemma InvIsPort(s: Pool, held: set<nat>, p: nat)
    requires Inv(s, held) && (p in s.free || p in held)
    ensures 1 <= p < 0x10000
  {
    assert p in AllPorts();
  }

  lemma WordOf(p: nat)
    ensures p >= 1088 <==> p / 64 >= 17
    ensures p < 0x10000 ==> p / 64 < 1024
  {
  }

  lemma HintAdvances(s: Pool, got: nat, s': Pool, held: set<nat>)
    requires Inv(s, held) && Gets(s, got, s') && got != 0
    ensures forall p <- s'.free :: 1088 <= p ==> s'.hint <= p / 64
  {
    forall p <- s'.free | 1088 <= p ensures s'.hint <= p / 64 {
      assert s.hint <= p / 64;
      assert !EmptyWord(s'.free, p / 64);
    }
  }

  /** One call: a port handed out was not held, is not port 0, and if it came from
      get_scif_port it is the least free port from 1088 up. */
  lemma StepSafe(s: Pool, e: Event, s': Pool, held: set<nat>)
    requires Inv(s, held) && Step(s, e, s') && (e.Freed? && e.port != 0 ==> e.port in held)
    ensures Inv(s', HeldAfter(held, e))
    ensures !e.Freed? && e.got != 0 ==> e.got !in held && IsPort(e.got)
    ensures e.Got? && e.got != 0 ==> e.got in s.free && e.got >= 1088 && forall p <- s.free :: p >= 1088 ==> e.got <= p
    ensures e.Reserved? ==> (e.got == e.port != 0 <==> IsPort(e.port) && e.port !in held)
  {
    hide AllPorts;
    match e
    case Reserved(port, got) =>
      assert port != 0 && port < 0x10000 ==>
        IsPort(port) && (port in s.free <==> port !in held) by { PortSplit(s, held, port); }
    case Got(got) =>
      if got != 0 {
        HintAdvances(s, got, s', held);
        LeastOfAll(s, got, s', held);
      }
    case Freed(port) =>
      if port != 0 {
        PortSplit(s, held, port);
        forall p <- s'.free | 1088 <= p ensures s'.hint <= p / 64 { WordOf(p); }
        WordOf(port);
      }
  }

  lemma PortSplit(s: Pool, held: set<nat>, p: nat)
    requires Inv(s, held)
    ensures p in s.free <==> IsPort(p) && p !in held
  {
    assert p in AllPorts() <==> IsPort(p);
    assert p in s.free + held <==> p in AllPorts();
  }

  lemma LeastOfAll(s: Pool, got: nat, s': Pool, held: set<nat>)
    requires Inv(s, held) && Gets(s, got, s') && got != 0
    ensures got in s.free && got >= 1088 && IsPort(got) && forall p <- s.free :: p >= 1088 ==> got <= p
  {
    InvIsPort(s, held, got);
    WordOf(got);
    forall p <- s.free | p >= 1088 ensures got <= p { assert s.hint <= p / 64; }
  }

  /** Over every sequence of calls in which only held ports are released. */
  lemma {:induction false} RunSafe(es: seq<Event>, ss: seq<Pool>)
    requires Run(es, ss)
    ensures |ss| == |es| + 1 && Inv(ss[|es|], Held(es))
    ensures forall i :: 0 <= i < |es| ==> Safe(es, ss, i)
  {
    if es == [] {
      EmptyRun();
    } else {
      var n := |es| - 1;
      RunSafe(es[..n], ss[..n + 1]);
      StepSafe(ss[n], es[n], ss[n + 1], Held(es[..n]));
      forall i | 0 <= i < n ensures Safe(es, ss, i) {
        assert Safe(es[..n], ss[..n + 1], i);
        assert es[..n][..i] == es[..i];
      }
    }
  }

  /** What call number `i` must satisfy. */
  ghost predicate Safe(es: seq<Event>, ss: seq<Pool>, i: nat)
    requires i < |es| && |ss| == |es| + 1
  {
    var held, e := Held(es[..i]), es[i];
    && Inv(ss[i], held)
    && (!e.Freed? && e.got != 0 ==> e.got !in held && IsPort(e.got))
    && (e.Got? && e.got != 0 ==>
          && e.got >= 1088 && (forall p: nat :: 1088 <= p < e.got ==> p in held))
    && (e.Reserved? ==> (e.got == e.port != 0 <==> IsPort(e.port) && e.port !in held))
  }

  lemma EmptyRun()
    ensures Inv(Initial(), {})
  {
  }

  // ---------------------------------------------------------------- when the pool looks empty

  /** The hint is at a word with a free port. */
  predicate Tight(s: Pool) { s.hint < 1024 ==> !EmptyWord(s.free, s.hint) }

  /** The call reserved the last free port of the hinted word, which leaves the hint there. */
  predicate EmptiesHint(s: Pool, e: Event)
  {
    e.Reserved? && e.port != 0 && e.port in s.free && e.port / 64 == s.hint && EmptyWord(s.free - {e.port}, s.hint)
  }

  /** From a tight hint, only that call loses tightness. */
  lemma TightStep(s: Pool, e: Event, s': Pool, held: set<nat>)
    requires Inv(s, held) && Step(s, e, s') && Tight(s)
    ensures Tight(s') <==> !EmptiesHint(s, e)
  {
    hide AllPorts, Inv;
    match e
    case Reserved(port, got) =>
      if port != 0 && port in s.free {
        InvIsPort(s, held, port);
        WordOf(port);
        if s.hint < 1024 && port / 64 != s.hint {
          var q :| q in s.free && q / 64 == s.hint;
          assert q in s'.free;
        }
      }
    case Got(_) =>
    case Freed(port) =>
      if s.hint < 1024 && port != 0 {
        var q :| q in s.free && q / 64 == s.hint;
        assert q in s'.free && port in s'.free;
      }
      if s.hint == 1024 && port != 0 { assert port in s'.free; }
  }

  /** From a hint at an empty word, exactly the release of a port at or before that word and not
      below 1088 makes the hint good again. */
  lemma UntightStep(s: Pool, e: Event, s': Pool, held: set<nat>)
    requires Inv(s, held) && Step(s, e, s') && !Tight(s)
    ensures Tight(s') <==> e.Freed? && e.port >= 1088 && e.port / 64 <= s.hint
  {
    hide AllPorts, Inv;
    InvHint(s, held);
    if e.Freed? && e.port != 0 {
      WordOf(e.port);
      assert e.port in s'.free;
    }
  }

  /** get_scif_port fails with a port at or above 1088 free exactly when the hinted word was
      emptied under the hint. */
  lemma GetFails(s: Pool, got: nat, s': Pool, held: set<nat>)
    requires Inv(s, held) && Gets(s, got, s')
    ensures (exists p :: p in s.free && p >= 1088) ==> (got == 0 <==> !Tight(s))
    ensures Tight(s) ==> (got == 0 <==> forall p <- s.free :: p < 1088)
  {
    hide AllPorts, Inv;
    forall p <- s.free | p >= 1088 ensures p / 64 < 1024 && s.hint <= p / 64 {
      InvIsPort(s, held, p);
      WordOf(p);
      AboveHint(s, held, p);
    }
    if got != 0 { LeastOfAll(s, got, s', held); }
    InvHint(s, held);
    assert Tight(s) && s.hint < 1024 ==> exists q :: q in s.free && q >= 1088 by {
      if Tight(s) && s.hint < 1024 {
        var q :| q in s.free && q / 64 == s.hint;
        WordOf(q);
      }
    }
  }

  lemma AboveHint(s: Pool, held: set<nat>, p: nat)
    requires Inv(s, held) && p in s.free && p >= 1088
    ensures s.hint <= p / 64
  {
  }

  lemma InvHint(s: Pool, held: set<nat>)
    requires Inv(s, held)
    ensures 17 <= s.hint <= 1024
  {
  }

  /** If callers reserve by number only below 1088, a failing get means that every port from
      1088 up is held. */
  lemma {:induction false} LowReservationsAreHarmless(es: seq<Event>, ss: seq<Pool>)
    requires Run(es, ss) && forall e <- es :: e.Reserved? ==> e.port < 1088
    ensures |ss| == |es| + 1 && Tight(ss[|es|])
    ensures forall i :: 0 <= i < |es| && es[i] == Got(0) ==> AllHeld(es, i)
  {
    if es == [] {
      assert 1088 in Initial().free;
    } else {
      var n := |es| - 1;
      forall e <- es[..n] ensures e.Reserved? ==> e.port < 1088 { assert e in es; }
      LowReservationsAreHarmless(es[..n], ss[..n + 1]);
      RunSafe(es[..n], ss[..n + 1]);
      LowStep(ss[n], es[n], ss[n + 1], Held(es[..n]));
      forall i | 0 <= i < n && es[i] == Got(0) ensures AllHeld(es, i) {
        assert AllHeld(es[..n], i);
        assert es[..n][..i] == es[..i];
      }
    }
  }

  ghost predicate AllHeld(es: seq<Event>, i: nat)
    requires i < |es|
  {
    forall p: nat :: 1088 <= p < 0x10000 ==> p in Held(es[..i])
  }

  lemma LowStep(s: Pool, e: Event, s': Pool, held: set<nat>)
    requires Inv(s, held) && Step(s, e, s') && Tight(s) && (e.Reserved? ==> e.port < 1088)
    ensures Tight(s')
    ensures e == Got(0) ==> forall p: nat :: 1088 <= p < 0x10000 ==> p in held
  {
    hide AllPorts, Inv;
    TightStep(s, e, s', held);
    if e.Reserved? { WordOf(e.port); InvHint(s, held); }
    if e == Got(0) {
      GetFails(s, 0, s', held);
      forall p: nat | 1088 <= p < 0x10000 ensures p in held { PortSplit(s, held, p); }
    }
  }

  // The witness: reserve every port of word 17 by number, then ask for any port.

  function Taken(n: nat): set<nat> { set p <- AllPorts() | 1088 <= p < 1088 + n }

  function TakeWord(n: nat): seq<Event> { if n == 0 then [] else TakeWord(n - 1) + [Reserved(1087 + n, 1087 + n)] }

  function TakeStates(n: nat): seq<Pool>
  {
    if n == 0 then [Initial()] else TakeStates(n - 1) + [Pool(AllPorts() - Taken(n), 17)]
  }

  lemma TakeStep(n: nat)
    requires n < 64
    ensures Step(Pool(AllPorts() - Taken(n), 17), Reserved(1088 + n, 1088 + n), Pool(AllPorts() - Taken(n + 1), 17))
  {
    assert 1088 + n in AllPorts() && Taken(n + 1) == Taken(n) + {1088 + n};
  }

  lemma NoneTaken()
    ensures Taken(0) == {}
  {
  }

  lemma {:induction false} TakeRun(n: nat)
    requires n <= 64
    ensures |TakeWord(n)| == n && |TakeStates(n)| == n + 1
    ensures Run(TakeWord(n), TakeStates(n)) && TakeStates(n)[n] == Pool(AllPorts() - Taken(n), 17)
  {
    hide Taken, AllPorts, Step;
    if n == 0 {
      NoneTaken();
    } else {
      TakeRun(n - 1);
      TakeStep(n - 1);
      var es, ss := TakeWord(n), TakeStates(n);
      assert es[..n - 1] == TakeWord(n - 1) && ss[..n] == TakeStates(n - 1);
    }
  }

  /** A reachable pool from which get_scif_port fails though port 1152 is free. */
  lemma GetCanFailEarly()
    ensures exists es: seq<Event>, ss: seq<Pool> ::
      Run(es, ss) && |ss| == |es| + 1 && |es| > 0 && es[|es| - 1] == Got(0) && 1152 in ss[|es|].free
  {
    TakeRun(64);
    var es, ss := TakeWord(64) + [Got(0)], TakeStates(64) + [TakeStates(64)[64]];
    assert es[..64] == TakeWord(64) && ss[..65] == TakeStates(64);
    hide TakeWord, TakeStates;
    assert EmptyWord(ss[64].free, 17);
    assert Run(es, ss);
  }
}
