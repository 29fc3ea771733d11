/** micscif/micscif_rb.c as a protocol: one producer and one consumer share the
    buffer and two offsets, each keeps its own, possibly stale, copy of both
    offsets, and every load, store and byte copy is a separate step. */
module RingProtocol {
  import opened Bits

  // ---------------------------------------------------------------- offsets

  /** CIRC_CNT and CIRC_SPACE of linux/circ_buf.h on 32-bit unsigned offsets. */
  function CircCnt(head: int, tail: int, size: nat): (r: nat)
    requires 0 < size < U32_LIMIT
    ensures r < size
  {
    AndBound(U32(head - tail), size - 1);
    And(U32(head - tail), size - 1)
  }

  function CircSpace(head: int, tail: int, size: nat): (r: nat)
    requires 0 < size < U32_LIMIT
    ensures r < size
  {
    CircCnt(tail, head + 1, size)
  }

  function Advance(offset: nat, n: nat, size: nat): (r: nat)
    requires 0 < size < U32_LIMIT
    ensures r < size
  {
    AndBound(U32(offset + n), size - 1);
    And(U32(offset + n), size - 1)
  }

  /** Where byte `k` of a copy that starts at `offset` lies when the copy is cut
      in two at the end of the buffer. */
  function WrapSlot(offset: nat, k: nat, size: nat): (r: nat)
    requires offset < size && k <= size
    ensures r < size
  {
    if offset + k < size then offset + k else offset + k - size
  }

  /** What micscif_rb_init insists on. */
  predicate ValidSize(size: nat)
  {
    0 < size < U32_LIMIT && And(size, size - 1) == 0
  }

  /** The slot of byte number `i` of the unbounded stream. */
  function Slot(i: nat, size: nat): (r: nat)
    requires size > 0
    ensures r < size
  {
    if i < size then i else Slot(i - size, size)
  }

  lemma {:induction false} SlotIsModulo(i: nat, size: nat)
    requires size > 0
    ensures Slot(i, size) == i % size
  {
    if i < size {
      ModuloIs(i, size, 0, i);
    } else {
      SlotIsModulo(i - size, size);
      var q := (i - size) / size;
      assert i == size * (q + 1) + (i - size) % size by { assert size * (q + 1) == size * q + size; }
      ModuloIs(i, size, q + 1, (i - size) % size);
    }
  }

  lemma {:induction false} SlotAdd(i: nat, k: nat, size: nat)
    requires k <= size && size > 0
    ensures Slot(i + k, size) == WrapSlot(Slot(i, size), k, size)
  {
    if i >= size { SlotAdd(i - size, k, size); }
  }

  lemma {:induction false} SlotAdvance(i: nat, n: nat, size: nat)
    requires ValidSize(size)
    ensures Advance(Slot(i, size), n, size) == Slot(i + n, size)
  {
    PowerOfTwoTest(size);
    if i < size {
      WrappedMask(i + n, size);
      SlotIsModulo(i + n, size);
    } else {
      SlotAdvance(i - size, n, size);
    }
  }

  lemma SlotsDiffer(i: nat, j: nat, size: nat)
    requires size > 0 && i < j < i + size
    ensures Slot(i, size) != Slot(j, size)
  {
    SlotAdd(i, j - i, size);
  }

  lemma CntOfSlots(w: nat, r: nat, size: nat)
    requires ValidSize(size) && r <= w < r + size
    ensures CircCnt(Slot(w, size), Slot(r, size), size) == w - r
  {
    SlotAdd(r, w - r, size);
    var d := Slot(w, size) - Slot(r, size);
    PowerOfTwoTest(size);
    WrappedMask(d, size);
    if d == w - r { ModuloIs(d, size, 0, w - r); } else { ModuloIs(d, size, -1, w - r); }
  }

  lemma SpaceOfSlots(w: nat, r: nat, size: nat)
    requires ValidSize(size) && r <= w < r + size
    ensures CircSpace(Slot(w, size), Slot(r, size), size) == size - 1 - (w - r)
  {
    SlotAdd(r, w - r, size);
    var d := Slot(r, size) - (Slot(w, size) + 1);
    PowerOfTwoTest(size);
    WrappedMask(d, size);
    if d < 0 { ModuloIs(d, size, -1, size - 1 - (w - r)); } else { ModuloIs(d, size, 0, size - 1 - (w - r)); }
  }

  // ---------------------------------------------------------------- machine

  /** The producer's micscif_rb and the message a write in progress is storing. */
  datatype Producer = Producer(read: nat, write: nat, outgoing: seq<byte>, copied: nat)

  /** The consumer's micscif_rb, where the read in progress started, how many bytes
      it wants and the bytes it has fetched. */
  datatype Consumer = Consumer(read: nat, write: nat, header: nat, wanted: nat, msg: seq<byte>)

  datatype Machine = Machine(size: nat, buf: seq<byte>, readPtr: nat, writePtr: nat,
                             producer: Producer, consumer: Consumer)

  datatype Step =
    | LoadRead                     // micscif_rb_space refreshes the cached read offset
    | BeginWrite(msg: seq<byte>)   // micscif_rb_write found room
    | CopyIn                       // one byte of memcpy_torb
    | EndWrite                     // the private write offset moves
    | AbortWrite                   // copy_from_user faulted
    | Commit                       // micscif_rb_commit
    | LoadWrite(n: nat)            // micscif_rb_count refreshes when it counts too little
    | BeginRead(n: nat)            // micscif_rb_get_next found enough bytes
    | CopyOut                      // one byte of memcpy_fromrb
    | Publish                      // micscif_rb_update_read_ptr

  predicate ProducerStep(t: Step)
  {
    t.LoadRead? || t.BeginWrite? || t.CopyIn? || t.EndWrite? || t.AbortWrite? || t.Commit?
  }

  predicate Sane(m: Machine)
  {
    && 0 < m.size < U32_LIMIT && |m.buf| == m.size
    && m.readPtr < m.size && m.writePtr < m.size
    && m.producer.read < m.size && m.producer.write < m.size
    && m.producer.copied <= |m.producer.outgoing| < m.size
    && m.consumer.read < m.size && m.consumer.write < m.size && m.consumer.header < m.size
    && |m.consumer.msg| <= m.consumer.wanted < m.size
  }

  /** Is the step possible? Otherwise it changes nothing. */
  predicate Enabled(m: Machine, t: Step)
    requires Sane(m)
  {
    var p, c := m.producer, m.consumer;
    match t
    case LoadRead | AbortWrite => true
    case BeginWrite(msg) => p.outgoing == [] && |msg| <= CircSpace(p.write, p.read, m.size)
    case CopyIn => p.copied < |p.outgoing|
    case EndWrite => p.copied == |p.outgoing|
    case Commit => p.outgoing == []
    case LoadWrite(n) => CircCnt(c.write, c.read, m.size) < n
    case BeginRead(n) => |c.msg| == c.wanted && n <= CircCnt(c.write, c.read, m.size)
    case CopyOut => |c.msg| < c.wanted
    case Publish => |c.msg| == c.wanted
  }

  function Apply(m: Machine, t: Step): (m': Machine)
    requires Sane(m)
    ensures Sane(m') && m'.size == m.size
  {
    var p, c := m.producer, m.consumer;
    if !Enabled(m, t) then m else
    match t
    case LoadRead => m.(producer := p.(read := m.readPtr))
    case BeginWrite(msg) => m.(producer := p.(outgoing := msg, copied := 0))
    case CopyIn =>
      m.(buf := m.buf[WrapSlot(p.write, p.copied, m.size) := p.outgoing[p.copied]],
         producer := p.(copied := p.copied + 1))
    case EndWrite =>
      m.(producer := p.(write := Advance(p.write, |p.outgoing|, m.size), outgoing := [], copied := 0))
    case AbortWrite => m.(producer := p.(outgoing := [], copied := 0))
    case Commit => m.(writePtr := p.write)
    case LoadWrite(n) => m.(consumer := c.(write := m.writePtr))
    case BeginRead(n) =>
      m.(consumer := c.(read := Advance(c.read, n, m.size), header := c.read, wanted := n, msg := []))
    case CopyOut =>
      m.(consumer := c.(msg := c.msg + [m.buf[WrapSlot(c.header, |c.msg|, m.size)]]))
    case Publish => m.(readPtr := c.read)
  }

  // ---------------------------------------------------------------- history

  /** The unbounded stream the ring stands for: every byte stored, every byte
      fetched, and the stream position of each of the six offsets. */
  datatype History = History(sent: seq<byte>, written: nat, committed: nat, seen: nat,
                             claimed: nat, received: seq<byte>, published: nat, known: nat)

  datatype State = State(m: Machine, h: History)

  function Record(s: State, t: Step): History
    requires Sane(s.m)
  {
    var h, p, c := s.h, s.m.producer, s.m.consumer;
    if !Enabled(s.m, t) then h else
    match t
    case LoadRead => h.(known := h.published)
    case BeginWrite(msg) => h
    case CopyIn => h.(sent := h.sent + [p.outgoing[p.copied]])
    case EndWrite => h.(written := h.written + |p.outgoing|)
    case AbortWrite => h.(sent := if h.written <= |h.sent| then h.sent[..h.written] else h.sent)
    case Commit => h.(committed := h.written)
    case LoadWrite(n) => h.(seen := h.committed)
    case BeginRead(n) => h.(claimed := h.claimed + n)
    case CopyOut => h.(received := h.received + [s.m.buf[WrapSlot(c.header, |c.msg|, s.m.size)]])
    case Publish => h.(published := h.claimed)
  }

  function Next(s: State, t: Step): (s': State)
    requires Sane(s.m)
    ensures Sane(s'.m) && s'.m.size == s.m.size
  {
    State(Apply(s.m, t), Record(s, t))
  }

  function Run(s: State, steps: seq<Step>): (s': State)
    requires Sane(s.m)
    ensures Sane(s'.m) && s'.m.size == s.m.size
    decreases |steps|
  {
    if steps == [] then s else Run(Next(s, steps[0]), steps[1..])
  }

  /** micscif_rb_init on a zeroed queue pair. */
  function Initial(buf: seq<byte>): (s: State)
    requires 0 < |buf| < U32_LIMIT
    ensures Sane(s.m)
  {
    State(Machine(|buf|, buf, 0, 0, Producer(0, 0, [], 0), Consumer(0, 0, 0, 0, [])),
          History([], 0, 0, 0, 0, [], 0, 0))
  }

  // -------------------------------------------------------------- invariant

  ghost predicate Positions(s: State)
  {
    var m, h := s.m, s.h;
    && ValidSize(m.size) && Sane(m)
    && h.known <= h.published <= |h.received|
    && |h.received| + (m.consumer.wanted - |m.consumer.msg|) == h.claimed
    && h.claimed <= h.seen <= h.committed <= h.written
    && h.written + m.producer.copied == |h.sent|
    && h.written + |m.producer.outgoing| < h.known + m.size
  }

  ghost predicate Offsets(s: State)
    requires Positions(s)
  {
    var m, h := s.m, s.h;
    && m.readPtr == Slot(h.published, m.size) && m.producer.read == Slot(h.known, m.size)
    && m.writePtr == Slot(h.committed, m.size) && m.consumer.write == Slot(h.seen, m.size)
    && m.producer.write == Slot(h.written, m.size) && m.consumer.read == Slot(h.claimed, m.size)
    && m.consumer.wanted <= h.claimed
    && m.consumer.header == Slot(h.claimed - m.consumer.wanted, m.size)
  }

  /** Every byte not yet published as read is still in its slot. */
  ghost predicate Intact(s: State)
    requires Positions(s)
  {
    forall i :: s.h.published <= i < |s.h.sent| ==> s.m.buf[Slot(i, s.m.size)] == s.h.sent[i]
  }

  /** The bytes fetched are the bytes sent, and the read in progress returns the latest. */
  ghost predicate Faithful(s: State)
    requires Positions(s)
  {
    var msg, received := s.m.consumer.msg, s.h.received;
    && (forall i :: 0 <= i < |received| ==> received[i] == s.h.sent[i])
    && |msg| <= |received|
    && (forall k :: 0 <= k < |msg| ==> msg[k] == received[|received| - |msg| + k])
  }

  ghost predicate Inv(s: State)
  {
    Positions(s) && Offsets(s) && Intact(s) && Faithful(s)
  }

  lemma InitialInv(buf: seq<byte>)
    requires ValidSize(|buf|)
    ensures Inv(Initial(buf))
  {
  }

  lemma InvIsSane(s: State)
    requires Inv(s)
    ensures Sane(s.m)
  {
  }

  /** The room of a producer between two calls, and the bytes a consumer knows of. */
  lemma RoomIs(s: State)
    requires Inv(s) && s.m.producer.outgoing == []
    ensures CircSpace(s.m.producer.write, s.m.readPtr, s.m.size) == s.m.size - 1 - (s.h.written - s.h.published)
  {
    hide And, CircSpace;
    SpaceOfSlots(s.h.written, s.h.published, s.m.size);
  }

  lemma CountIs(s: State)
    requires Inv(s)
    ensures CircCnt(s.m.consumer.write, s.m.consumer.read, s.m.size) == s.h.seen - s.h.claimed
  {
    hide And, CircCnt;
    CntOfSlots(s.h.seen, s.h.claimed, s.m.size);
  }

  lemma BeginWriteStep(s: State, msg: seq<byte>)
    requires Inv(s) && Enabled(s.m, BeginWrite(msg))
    ensures Inv(Next(s, BeginWrite(msg)))
  {
    hide And, Slot, Advance, CircCnt, CircSpace;
    SpaceOfSlots(s.h.written, s.h.known, s.m.size);
  }

  lemma EndWriteStep(s: State)
    requires Inv(s) && Enabled(s.m, EndWrite)
    ensures Inv(Next(s, EndWrite))
  {
    hide And, Slot, Advance, CircCnt, CircSpace;
    SlotAdvance(s.h.written, |s.m.producer.outgoing|, s.m.size);
  }

  lemma BeginReadStep(s: State, n: nat)
    requires Inv(s) && Enabled(s.m, BeginRead(n))
    ensures Inv(Next(s, BeginRead(n)))
  {
    hide And, Slot, Advance, CircCnt, CircSpace;
    CntOfSlots(s.h.seen, s.h.claimed, s.m.size);
    SlotAdvance(s.h.claimed, n, s.m.size);
  }

  lemma PointerSteps(s: State, t: Step)
    requires Inv(s) && (t.LoadRead? || t.Commit? || t.LoadWrite? || t.Publish?)
    ensures Inv(Next(s, t))
  {
    hide And, Slot, Advance, CircCnt, CircSpace;
  }

  lemma AbortWriteStep(s: State)
    requires Inv(s)
    ensures Inv(Next(s, AbortWrite))
  {
    hide And, Slot, Advance, CircCnt, CircSpace, WrapSlot;
  }

  /** Storing a byte never touches a slot the consumer has yet to publish. */
  lemma StoreIsSafe(s: State, i: nat)
    requires Inv(s) && Enabled(s.m, CopyIn) && s.h.published <= i < |s.h.sent|
    ensures Slot(i, s.m.size) != WrapSlot(s.m.producer.write, s.m.producer.copied, s.m.size)
  {
    SlotAdd(s.h.written, s.m.producer.copied, s.m.size);
    SlotsDiffer(i, |s.h.sent|, s.m.size);
  }

  lemma CopyInStep(s: State)
    requires Inv(s) && Enabled(s.m, CopyIn)
    ensures Inv(Next(s, CopyIn))
  {
    hide And, Slot, Advance, CircCnt, CircSpace;
    var s' := Next(s, CopyIn);
    SlotAdd(s.h.written, s.m.producer.copied, s.m.size);
    forall i | s'.h.published <= i < |s'.h.sent|
      ensures s'.m.buf[Slot(i, s'.m.size)] == s'.h.sent[i]
    {
      if i < |s.h.sent| { StoreIsSafe(s, i); }
    }
  }

  lemma CopyOutStep(s: State)
    requires Inv(s) && Enabled(s.m, CopyOut)
    ensures Inv(Next(s, CopyOut))
  {
    hide And, Slot, Advance, CircCnt, CircSpace;
    var s', n := Next(s, CopyOut), |s.h.received|;
    SlotAdd(s.h.claimed - s.m.consumer.wanted, |s.m.consumer.msg|, s.m.size);
    assert s'.h.received[n] == s.m.buf[Slot(n, s.m.size)] == s.h.sent[n];
    assert Positions(s') && Offsets(s') && Intact(s');
  }

  lemma StepKeepsInv(s: State, t: Step)
    requires Inv(s)
    ensures Inv(Next(s, t))
  {
    if Enabled(s.m, t) {
      match t
      case CopyIn => CopyInStep(s);
      case CopyOut => CopyOutStep(s);
      case BeginWrite(msg) => BeginWriteStep(s, msg);
      case EndWrite => EndWriteStep(s);
      case AbortWrite => AbortWriteStep(s);
      case BeginRead(n) => BeginReadStep(s, n);
      case _ => PointerSteps(s, t);
    }
  }

  lemma {:induction false} RunKeepsInv(s: State, steps: seq<Step>)
    requires Inv(s)
    ensures Inv(Run(s, steps))
    decreases |steps|
  {
    if steps != [] {
      StepKeepsInv(s, steps[0]);
      RunKeepsInv(Next(s, steps[0]), steps[1..]);
    }
  }

  // ----------------------------------------------------------- main results

  /** Under every interleaving of the two sides, what was fetched is a prefix of
      what was committed, byte for byte, and what is committed was all stored. */
  lemma RingIsFifo(buf: seq<byte>, steps: seq<Step>)
    requires ValidSize(|buf|)
    ensures var h := Run(Initial(buf), steps).h;
            h.committed <= |h.sent| && h.received <= h.sent[..h.committed]
  {
    InitialInv(buf);
    RunKeepsInv(Initial(buf), steps);
    var h := Run(Initial(buf), steps).h;
    assert h.received == h.sent[..h.committed][..|h.received|];
  }

  /** Under every interleaving, a store in flight hits only slots whose previous
      byte the consumer has published as read. */
  lemma NoEarlyOverwrite(buf: seq<byte>, steps: seq<Step>, i: nat)
    requires ValidSize(|buf|)
    requires var s := Run(Initial(buf), steps); Enabled(s.m, CopyIn) && s.h.published <= i < |s.h.sent|
    ensures var s := Run(Initial(buf), steps);
            && Next(s, CopyIn).m.buf[Slot(i, |buf|)] == s.h.sent[i]
            && Slot(i, |buf|) != WrapSlot(s.m.producer.write, s.m.producer.copied, |buf|)
  {
    InitialInv(buf);
    RunKeepsInv(Initial(buf), steps);
    StoreIsSafe(Run(Initial(buf), steps), i);
  }

  // ------------------------------------------------------- whole calls as runs

  /** The buffer after `msg` was copied in at `offset`, wrapping at the end. */
  function Overlay(buf: seq<byte>, offset: nat, msg: seq<byte>): (r: seq<byte>)
    requires offset < |buf| && |msg| <= |buf|
    ensures |r| == |buf|
    ensures forall k :: 0 <= k < |msg| ==> r[WrapSlot(offset, k, |buf|)] == msg[k]
    ensures forall i :: 0 <= i < |buf| && (forall k :: 0 <= k < |msg| ==> WrapSlot(offset, k, |buf|) != i)
              ==> r[i] == buf[i]
  {
    seq(|buf|, i requires 0 <= i < |buf| =>
      var k := if i >= offset then i - offset else i + |buf| - offset;
      if k < |msg| then msg[k] else buf[i])
  }

  /** The `n` bytes from `offset` on, wrapping at the end. */
  function Extract(buf: seq<byte>, offset: nat, n: nat): (r: seq<byte>)
    requires offset < |buf| && n <= |buf|
  {
    seq(n, k requires 0 <= k < n => buf[WrapSlot(offset, k, |buf|)])
  }

  function Repeat(t: Step, n: nat): seq<Step>
  {
    seq(n, _ => t)
  }

  /** The steps of one micscif_rb_write and of one micscif_rb_get_next. */
  function WriteSteps(msg: seq<byte>): seq<Step>
  {
    [LoadRead, BeginWrite(msg)] + Repeat(CopyIn, |msg|) + [EndWrite]
  }

  function ReadSteps(n: nat): seq<Step>
  {
    [LoadWrite(n), BeginRead(n)] + Repeat(CopyOut, n)
  }

  lemma {:induction false} RunAppend(s: State, a: seq<Step>, b: seq<Step>)
    requires Sane(s.m)
    ensures Run(s, a + b) == Run(Run(s, a), b)
    decreases |a|
  {
    if a == [] {
      assert a + b == b;
    } else {
      assert (a + b)[1..] == a[1..] + b;
      RunAppend(Next(s, a[0]), a[1..], b);
    }
  }

  lemma OverlayOneMore(buf: seq<byte>, offset: nat, msg: seq<byte>, k: nat)
    requires offset < |buf| && k < |msg| <= |buf|
    ensures Overlay(buf, offset, msg[..k])[WrapSlot(offset, k, |buf|) := msg[k]]
         == Overlay(buf, offset, msg[..k + 1])
  {
  }

  /** What is left of a write in progress. */
  function Stored(s: State, buf: seq<byte>, sent: seq<byte>, k: nat): State
    requires Sane(s.m) && k <= |s.m.producer.outgoing| && |buf| == s.m.size
  {
    var msg := s.m.producer.outgoing[..k];
    State(s.m.(buf := Overlay(buf, s.m.producer.write, msg), producer := s.m.producer.(copied := k)),
          s.h.(sent := sent + msg))
  }

  lemma {:induction false} CopyInRun(s: State, buf: seq<byte>, sent: seq<byte>, k: nat)
    requires Sane(s.m) && k <= |s.m.producer.outgoing| && |buf| == s.m.size
    requires s == Stored(s, buf, sent, k)
    ensures Run(s, Repeat(CopyIn, |s.m.producer.outgoing| - k))
         == Stored(s, buf, sent, |s.m.producer.outgoing|)
    decreases |s.m.producer.outgoing| - k
  {
    var msg := s.m.producer.outgoing;
    if k < |msg| {
      hide Overlay, And, Slot;
      var rest := Repeat(CopyIn, |msg| - k);
      assert rest[1..] == Repeat(CopyIn, |msg| - (k + 1));
      var s' := Next(s, CopyIn);
      OverlayOneMore(buf, s.m.producer.write, msg, k);
      assert sent + msg[..k] + [msg[k]] == sent + msg[..k + 1];
      assert s' == Stored(s, buf, sent, k + 1);
      CopyInRun(s', buf, sent, k + 1);
    }
  }

  /** micscif_rb_write with room for the message, run to its end: the stream grows by it. */
  lemma WriteCall(s: State, msg: seq<byte>)
    requires Inv(s) && s.m.producer.outgoing == []
    requires |msg| <= CircSpace(s.m.producer.write, s.m.readPtr, s.m.size)
    ensures var s' := Run(s, WriteSteps(msg));
      && Inv(s')
      && s'.m == s.m.(buf := Overlay(s.m.buf, s.m.producer.write, msg),
                      producer := Producer(s.m.readPtr, Advance(s.m.producer.write, |msg|, s.m.size), [], 0))
      && s'.h == s.h.(sent := s.h.sent + msg, written := s.h.written + |msg|, known := s.h.published)
  {
    var s1 := Next(s, LoadRead);
    var s2 := Next(s1, BeginWrite(msg));
    WriteBegins(s, msg);
    CopyInRun(s2, s.m.buf, s.h.sent, 0);
    var s3 := Run(s2, Repeat(CopyIn, |msg|));
    WriteStepsRun(s, msg);
    RunKeepsInv(s, WriteSteps(msg));
    WriteEnds(s2, s3);
  }

  lemma WriteBegins(s: State, msg: seq<byte>)
    requires Inv(s) && s.m.producer.outgoing == []
    requires |msg| <= CircSpace(s.m.producer.write, s.m.readPtr, s.m.size)
    ensures var s2 := Next(Next(s, LoadRead), BeginWrite(msg));
      && s2 == State(s.m.(producer := Producer(s.m.readPtr, s.m.producer.write, msg, 0)), s.h.(known := s.h.published))
      && s2 == Stored(s2, s.m.buf, s.h.sent, 0)
  {
    hide And, Slot;
    var s2 := Next(Next(s, LoadRead), BeginWrite(msg));
    assert Overlay(s.m.buf, s.m.producer.write, []) == s.m.buf;
    assert s.h.sent + [] == s.h.sent;
  }

  lemma WriteEnds(s2: State, s3: State)
    requires Sane(s2.m) && s3 == Stored(s2, s2.m.buf, s2.h.sent, |s2.m.producer.outgoing|)
    ensures var msg := s2.m.producer.outgoing; var s' := Next(s3, EndWrite);
      && s'.m == s2.m.(buf := Overlay(s2.m.buf, s2.m.producer.write, msg),
                       producer := s2.m.producer.(write := Advance(s2.m.producer.write, |msg|, s2.m.size),
                                                  outgoing := [], copied := 0))
      && s'.h == s2.h.(sent := s2.h.sent + msg, written := s2.h.written + |msg|)
  {
    hide And, Slot, Overlay;
    var msg := s2.m.producer.outgoing;
    assert msg[..|msg|] == msg;
  }

  lemma WriteStepsRun(s: State, msg: seq<byte>)
    requires Sane(s.m)
    ensures Run(s, WriteSteps(msg))
         == Next(Run(Next(Next(s, LoadRead), BeginWrite(msg)), Repeat(CopyIn, |msg|)), EndWrite)
  {
    hide Next, Sane;
    var a, b := [LoadRead, BeginWrite(msg)], Repeat(CopyIn, |msg|);
    RunAppend(s, a + b, [EndWrite]);
    RunAppend(s, a, b);
    RunTwo(s, a[0], a[1]);
    RunOne(Run(s, a + b), EndWrite);
  }

  lemma RunOne(s: State, t: Step)
    requires Sane(s.m)
    ensures Run(s, [t]) == Next(s, t)
  {
    hide Next;
    assert [t][1..] == [];
    assert Run(Next(s, t), []) == Next(s, t);
  }

  lemma RunTwo(s: State, t: Step, u: Step)
    requires Sane(s.m)
    ensures Run(s, [t, u]) == Next(Next(s, t), u)
  {
    hide Next;
    assert [t, u][1..] == [u];
    RunOne(Next(s, t), u);
  }

  /** What a read in progress has fetched after `k` bytes. */
  function Fetched(s: State, received: seq<byte>, k: nat): State
    requires Sane(s.m) && k <= s.m.consumer.wanted
  {
    var msg := Extract(s.m.buf, s.m.consumer.header, k);
    State(s.m.(consumer := s.m.consumer.(msg := msg)), s.h.(received := received + msg))
  }

  lemma {:induction false} CopyOutRun(s: State, received: seq<byte>, k: nat)
    requires Sane(s.m) && k <= s.m.consumer.wanted
    requires s == Fetched(s, received, k)
    ensures Run(s, Repeat(CopyOut, s.m.consumer.wanted - k)) == Fetched(s, received, s.m.consumer.wanted)
    decreases s.m.consumer.wanted - k
  {
    hide And, Slot, CircCnt, CircSpace, Advance;
    var n, c := s.m.consumer.wanted, s.m.consumer;
    if k < n {
      var rest := Repeat(CopyOut, n - k);
      assert rest[1..] == Repeat(CopyOut, n - (k + 1));
      var s', b := Next(s, CopyOut), s.m.buf[WrapSlot(c.header, k, s.m.size)];
      assert Extract(s.m.buf, c.header, k + 1) == c.msg + [b];
      assert received + c.msg + [b] == received + (c.msg + [b]);
      assert s' == Fetched(s, received, k + 1);
      CopyOutRun(s', received, k + 1);
    }
  }

  /** micscif_rb_get_next of `n` bytes already counted, run to its end: it takes exactly
      the next `n` bytes of the stream. */
  lemma ReadCall(s: State, n: nat)
    requires Inv(s) && |s.m.consumer.msg| == s.m.consumer.wanted
    requires n <= CircCnt(s.m.consumer.write, s.m.consumer.read, s.m.size)
    ensures var s', msg := Run(s, ReadSteps(n)), Extract(s.m.buf, s.m.consumer.read, n);
      && Inv(s')
      && s'.m == s.m.(consumer := Consumer(Advance(s.m.consumer.read, n, s.m.size), s.m.consumer.write,
                                           s.m.consumer.read, n, msg))
      && s'.h == s.h.(claimed := s.h.claimed + n, received := s.h.received + msg)
      && s.h.claimed + n <= s.h.written <= |s.h.sent|
      && msg == s.h.sent[s.h.claimed..s.h.claimed + n]
  {
    hide And, Slot, Advance, Intact, Faithful, Offsets, Run, Next, WrapSlot, CircCnt;
    var s2 := Next(Next(s, LoadWrite(n)), BeginRead(n));
    ReadBegins(s, n);
    CopyOutRun(s2, s.h.received, 0);
    ReadStepsRun(s, n);
    RunKeepsInv(s, ReadSteps(n));
    ReadReturnsStream(Run(s, ReadSteps(n)));
  }

  lemma ReadBegins(s: State, n: nat)
    requires Inv(s) && |s.m.consumer.msg| == s.m.consumer.wanted
    requires n <= CircCnt(s.m.consumer.write, s.m.consumer.read, s.m.size)
    ensures var s2 := Next(Next(s, LoadWrite(n)), BeginRead(n)); var c := s.m.consumer;
      && s2 == State(s.m.(consumer := Consumer(Advance(c.read, n, s.m.size), c.write, c.read, n, [])),
                     s.h.(claimed := s.h.claimed + n))
      && s2 == Fetched(s2, s.h.received, 0)
      && s.h.claimed + n <= s.h.written
  {
    CntOfSlots(s.h.seen, s.h.claimed, s.m.size);
    hide And, Slot, CircCnt;
    assert s.h.received + [] == s.h.received;
  }

  lemma ReadStepsRun(s: State, n: nat)
    requires Sane(s.m)
    ensures Run(s, ReadSteps(n)) == Run(Next(Next(s, LoadWrite(n)), BeginRead(n)), Repeat(CopyOut, n))
  {
    hide Next, Sane;
    var a, b := [LoadWrite(n), BeginRead(n)], Repeat(CopyOut, n);
    RunAppend(s, a, b);
    RunTwo(s, a[0], a[1]);
  }

  lemma ReadReturnsStream(s: State)
    requires Inv(s) && |s.m.consumer.msg| == s.m.consumer.wanted
    ensures s.m.consumer.wanted <= s.h.claimed <= |s.h.sent|
    ensures s.m.consumer.msg == s.h.sent[s.h.claimed - s.m.consumer.wanted..s.h.claimed]
  {
    hide And, Slot;
  }
}
