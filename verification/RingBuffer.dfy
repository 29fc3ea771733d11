/** The ring buffer objects of micscif/micscif_rb.c. The two sides of a queue pair
    each own a `RingBuffer` over one `SharedRing`. Each call is given the state of the
    protocol that the shared memory and the private offsets show, and shows the state
    after the steps of that call. */
module RingBuffer {
  import opened Bits
  import opened RingProtocol

  /** The memory both sides map: the bytes and the two published offsets. */
  class SharedRing {
    const base: array<byte>
    var readPtr: nat
    var writePtr: nat

    constructor (size: nat, init: byte)
      ensures base.Length == size && readPtr == writePtr == 0
      ensures fresh(base) && forall i :: 0 <= i < size ==> base[i] == init
    {
      base := new byte[size](_ => init);
      readPtr, writePtr := 0, 0;
    }
  }

  class RingBuffer {
    const shm: SharedRing
    const size: nat
    var currentRead: nat
    var currentWrite: nat

    ghost predicate Valid()
      reads this, shm
    {
      && ValidSize(size) && size == shm.base.Length
      && currentRead < size && currentWrite < size && shm.readPtr < size && shm.writePtr < size
    }

    /** micscif_rb_init. */
    constructor (shm: SharedRing, size: nat)
      requires ValidSize(size) && size == shm.base.Length && shm.readPtr < size && shm.writePtr < size
      ensures Valid() && this.shm == shm && this.size == size
      ensures currentRead == shm.readPtr && currentWrite == shm.writePtr
      ensures var s := Initial(shm.base[..]); shm.readPtr == shm.writePtr == 0 ==> Producing(s) && Consuming(s)
    {
      this.shm, this.size := shm, size;
      currentRead, currentWrite := shm.readPtr, shm.writePtr;
      new;
      InitialInv(shm.base[..]);
    }

    /** Shared memory of a protocol state. */
    ghost predicate ShowsShared(m: Machine)
      reads this, shm, shm.base
    {
      && m.size == size && m.buf == shm.base[..] && m.readPtr == shm.readPtr && m.writePtr == shm.writePtr
    }

    /** This is the producer's ring buffer between two calls. */
    ghost predicate Producing(s: State)
      reads this, shm, shm.base
    {
      && ShowsShared(s.m) && Inv(s)
      && s.m.producer == Producer(currentRead, currentWrite, [], 0)
    }

    /** This is the consumer's ring buffer between two calls. */
    ghost predicate Consuming(s: State)
      reads this, shm, shm.base
    {
      && ShowsShared(s.m) && Inv(s)
      && s.m.consumer.read == currentRead && s.m.consumer.write == currentWrite
      && |s.m.consumer.msg| == s.m.consumer.wanted
    }

    /** micscif_rb_space. */
    method Space(ghost s: State) returns (room: nat)
      requires Valid() && Producing(s)
      modifies this`currentRead
      ensures Valid() && currentRead == shm.readPtr && Producing(Next(s, LoadRead))
      ensures room == CircSpace(currentWrite, shm.readPtr, size) == size - 1 - (s.h.written - s.h.published)
    {
      hide And, Inv, CircSpace, Next;
      RoomIs(s);
      PointerEffect(s);
      StepKeepsInv(s, LoadRead);
      currentRead := shm.readPtr;
      room := CircSpace(currentWrite, currentRead, size);
    }

    /** micscif_rb_write: the message is appended to the stream, or there is no room for it. */
    method Write(msg: seq<byte>, ghost s: State) returns (ok: bool)
      requires Valid() && Producing(s)
      modifies this, shm.base
      ensures Valid() && currentRead == shm.readPtr
      ensures ok <==> |msg| <= CircSpace(old(currentWrite), shm.readPtr, size)
      ensures ok ==> currentWrite == Advance(old(currentWrite), |msg|, size)
      ensures ok ==> shm.base[..] == Overlay(old(shm.base[..]), old(currentWrite), msg)
      ensures !ok ==> currentWrite == old(currentWrite) && shm.base[..] == old(shm.base[..])
      ensures ok ==> Producing(Run(s, WriteSteps(msg))) && Run(s, WriteSteps(msg)).h.sent == s.h.sent + msg
      ensures !ok ==> Producing(Next(s, LoadRead)) && |msg| > size - 1 - (s.h.written - s.h.published)
    {
      hide And, Inv, CircSpace, CircCnt, Advance, Overlay, Run, Next;
      InvIsSane(s);
      var room := Space(s);
      if room < |msg| {
        return false;
      }
      WriteCall(s, msg);
      CopyToRing(currentWrite, msg);
      currentWrite := Advance(currentWrite, |msg|, size);
      ok := true;
    }

    /** memcpy_torb: one copy, or two when the message reaches the end of the buffer. */
    method CopyToRing(offset: nat, msg: seq<byte>)
      requires Valid() && offset < size && |msg| <= size
      modifies shm.base
      ensures shm.base[..] == Overlay(old(shm.base[..]), offset, msg)
    {
      hide And;
      var base := shm.base;
      if offset + |msg| >= size {
        var size1 := size - offset;
        var size2 := |msg| - size1;
        forall k | 0 <= k < size1 { base[offset + k] := msg[k]; }
        forall k | 0 <= k < size2 { base[k] := msg[size1 + k]; }
      } else {
        forall k | 0 <= k < |msg| { base[offset + k] := msg[k]; }
      }
    }

    /** micscif_rb_commit. */
    method Commit(ghost s: State)
      requires Valid() && Producing(s)
      modifies shm`writePtr
      ensures Valid() && shm.writePtr == currentWrite
      ensures Producing(Next(s, RingProtocol.Commit)) && Next(s, RingProtocol.Commit).h.committed == s.h.written
    {
      hide And, Inv, Next;
      PointerEffect(s);
      StepKeepsInv(s, RingProtocol.Commit);
      shm.writePtr := currentWrite;
    }

    /** micscif_rb_count: the shared write offset is read only when too little is known. */
    method Count(n: nat, ghost s: State) returns (count: nat)
      requires Valid() && Consuming(s)
      modifies this`currentWrite
      ensures Valid() && count == CircCnt(currentWrite, currentRead, size)
      ensures currentWrite == if CircCnt(old(currentWrite), currentRead, size) < n then shm.writePtr
                              else old(currentWrite)
      ensures Consuming(Next(s, LoadWrite(n)))
      ensures count == Next(s, LoadWrite(n)).h.seen - s.h.claimed
    {
      hide And, Inv, CircCnt, Next;
      CountEffect(s, n);
      StepKeepsInv(s, LoadWrite(n));
      CountIs(Next(s, LoadWrite(n)));
      if CircCnt(currentWrite, currentRead, size) < n {
        currentWrite := shm.writePtr;
      }
      count := CircCnt(currentWrite, currentRead, size);
    }

    /** micscif_rb_get_next: the next `n` bytes of the stream, or none. */
    method GetNext(n: nat, ghost s: State) returns (msg: seq<byte>)
      requires Valid() && Consuming(s)
      modifies this
      ensures Valid()
      ensures currentWrite == if CircCnt(old(currentWrite), old(currentRead), size) < n then shm.writePtr
                              else old(currentWrite)
      ensures n <= CircCnt(currentWrite, old(currentRead), size) ==>
                msg == Extract(shm.base[..], old(currentRead), n)
                && currentRead == Advance(old(currentRead), n, size)
      ensures n > CircCnt(currentWrite, old(currentRead), size) ==> msg == [] && currentRead == old(currentRead)
      ensures n <= CircCnt(currentWrite, old(currentRead), size) ==>
                Consuming(Run(s, ReadSteps(n))) && s.h.claimed + n <= |s.h.sent|
                && msg == s.h.sent[s.h.claimed..s.h.claimed + n]
      ensures n > CircCnt(currentWrite, old(currentRead), size) ==> Consuming(Next(s, LoadWrite(n)))
    {
      hide And, Inv, CircCnt, Advance, Extract, Run, Next;
      InvIsSane(s);
      var count := Count(n, s);
      if count < n {
        return [];
      }
      ReadAfterCount(s, n);
      var header := currentRead;
      currentRead := Advance(currentRead, n, size);
      msg := CopyFromRing(header, n);
    }

    /** memcpy_fromrb: one copy, or two when the message reaches the end of the buffer. */
    method CopyFromRing(header: nat, n: nat) returns (msg: seq<byte>)
      requires Valid() && header < size && n <= size
      ensures msg == Extract(shm.base[..], header, n)
    {
      if header + n >= size {
        var size1 := size - header;
        var size2 := n - size1;
        msg := shm.base[header..header + size1] + shm.base[..size2];
      } else {
        msg := shm.base[header..header + n];
      }
    }

    /** micscif_rb_update_read_ptr. */
    method UpdateReadPtr(ghost s: State)
      requires Valid() && Consuming(s)
      modifies shm`readPtr
      ensures Valid() && shm.readPtr == currentRead
      ensures Consuming(Next(s, Publish)) && Next(s, Publish).h.published == s.h.claimed
    {
      hide And, Inv, Next;
      PointerEffect(s);
      StepKeepsInv(s, Publish);
      shm.readPtr := currentRead;
    }
  }

  /** What loading and publishing an offset change. */
  lemma PointerEffect(s: State)
    requires Inv(s)
    ensures Sane(s.m)
    ensures Next(s, LoadRead).m == s.m.(producer := s.m.producer.(read := s.m.readPtr))
    ensures s.m.producer.outgoing == [] ==> Next(s, Commit).m == s.m.(writePtr := s.m.producer.write)
    ensures s.m.producer.outgoing == [] ==> Next(s, Commit).h == s.h.(committed := s.h.written)
    ensures |s.m.consumer.msg| == s.m.consumer.wanted ==> Next(s, Publish).m == s.m.(readPtr := s.m.consumer.read)
    ensures |s.m.consumer.msg| == s.m.consumer.wanted ==> Next(s, Publish).h == s.h.(published := s.h.claimed)
  {
    hide And, Inv, CircCnt, CircSpace, Advance, WrapSlot;
    InvIsSane(s);
  }

  lemma CountEffect(s: State, n: nat)
    requires Inv(s)
    ensures Sane(s.m)
    ensures var c := Next(s, LoadWrite(n)); var few := CircCnt(s.m.consumer.write, s.m.consumer.read, s.m.size) < n;
      && c.m == s.m.(consumer := s.m.consumer.(write := if few then s.m.writePtr else s.m.consumer.write))
      && c.h == s.h.(seen := if few then s.h.committed else s.h.seen)
  {
    hide And, Inv, CircCnt, CircSpace, Advance, WrapSlot;
    InvIsSane(s);
  }

  /** A read after the count that refreshed the write offset is the read of the protocol. */
  lemma ReadAfterCount(s: State, n: nat)
    requires Inv(s) && |s.m.consumer.msg| == s.m.consumer.wanted
    requires var c := Next(s, LoadWrite(n)); n <= CircCnt(c.m.consumer.write, c.m.consumer.read, c.m.size)
    ensures var c, s' := Next(s, LoadWrite(n)), Run(s, ReadSteps(n));
      && Inv(s') && s.h.claimed + n <= |s.h.sent|
      && s'.m == c.m.(consumer := Consumer(Advance(c.m.consumer.read, n, c.m.size), c.m.consumer.write,
                                           c.m.consumer.read, n, Extract(c.m.buf, c.m.consumer.read, n)))
      && Extract(c.m.buf, c.m.consumer.read, n) == s.h.sent[s.h.claimed..s.h.claimed + n]
  {
    hide And, Inv, Advance, Extract, Run, Next, CircCnt;
    CountEffect(s, n);
    var c := Next(s, LoadWrite(n));
    StepKeepsInv(s, LoadWrite(n));
    CountEffect(c, n);
    ReadCall(c, n);
    ReadStepsRun(s, n);
    ReadStepsRun(c, n);
  }
}
