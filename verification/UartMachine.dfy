/**
 The driver of kernel/uart.c on its own data: two rings of UART_IOBUFSIZE bytes with read
 and write positions, and the IMSC register. Every method computes the UartSpec step named
 after it, for any interleaving of thread micro-steps and interrupts.
 */
module UartMachine {
  import opened UartSpec
  import opened Words

  // Positions advance by one and wrap.
  lemma Advance(i: nat)
    requires i < UART_IOBUFSIZE
    ensures (i + 1) % UART_IOBUFSIZE == if i == UART_IOBUFSIZE - 1 then 0 else i + 1
  {
  }

  // struct UARTIORingBuffer and its four operations.
  class RingBuffer {
    const buf: array<Byte>
    var rpos: nat
    var wpos: nat

    ghost predicate Valid()
      reads this
    {
      buf.Length == UART_IOBUFSIZE && rpos < UART_IOBUFSIZE && wpos < UART_IOBUFSIZE
    }

    ghost function Contents(): (s: seq<Byte>)
      requires Valid()
      reads this, buf
      ensures |s| <= CAPACITY
    {
      if rpos <= wpos then buf[rpos..wpos] else buf[rpos..] + buf[..wpos]
    }

    constructor ()
      ensures Valid() && fresh(buf) && Contents() == []
    {
      buf := new Byte[UART_IOBUFSIZE](_ => 0);
      rpos, wpos := 0, 0;
    }

    predicate Empty()
      requires Valid()
      reads this, buf
      ensures Empty() <==> Contents() == []
    {
      wpos == rpos
    }

    predicate Full()
      requires Valid()
      reads this, buf
      ensures Full() <==> |Contents()| == CAPACITY
    {
      Advance(wpos);
      (wpos + 1) % UART_IOBUFSIZE == rpos
    }

    // ringbuf_push, first half: fill the slot at the write position.
    method Store(elem: Byte)
      requires Valid()
      modifies buf
      ensures buf[wpos] == elem && Contents() == old(Contents())
    {
      buf[wpos] := elem;
    }

    // ringbuf_push, second half.
    method AdvanceWrite()
      requires Valid() && !Full()
      modifies this
      ensures Valid() && Contents() == old(Contents()) + [old(buf[wpos])]
      ensures rpos == old(rpos)
    {
      Advance(wpos);
      wpos := (wpos + 1) % UART_IOBUFSIZE;
    }

    // ringbuf_pop, first half.
    function Load(): (elem: Byte)
      requires Valid()
      reads this, buf
      ensures Contents() != [] ==> elem == Contents()[0]
    {
      buf[rpos]
    }

    // ringbuf_pop, second half. The slot at the write position is not touched.
    method AdvanceRead()
      requires Valid() && !Empty()
      modifies this
      ensures Valid() && Contents() == old(Contents())[1..]
      ensures wpos == old(wpos)
    {
      Advance(rpos);
      rpos := (rpos + 1) % UART_IOBUFSIZE;
    }

    // ringbuf_push and ringbuf_pop uninterrupted, as in the handler.
    method Push(elem: Byte)
      requires Valid() && !Full()
      modifies this, buf
      ensures Valid() && Contents() == old(Contents()) + [elem]
    {
      Store(elem);
      AdvanceWrite();
    }

    method Pop() returns (elem: Byte)
      requires Valid() && !Empty()
      modifies this
      ensures Valid() && elem == old(Contents())[0] && Contents() == old(Contents())[1..]
      ensures wpos == old(wpos)
    {
      elem := Load();
      AdvanceRead();
    }
  }

  // ---- the two bits of the mask register ----

  predicate RxSet(imsc: bv32) {
    imsc & 0x10 != 0
  }

  predicate TxSet(imsc: bv32) {
    imsc & 0x20 != 0
  }

  function MaskOf(imsc: bv32): Mask {
    Mask(RxSet(imsc), TxSet(imsc))
  }

  lemma SetRx(m: bv32)
    ensures RxSet(m | 0x10) && TxSet(m | 0x10) == TxSet(m)
  {
  }

  lemma SetTx(m: bv32)
    ensures TxSet(m | 0x20) && RxSet(m | 0x20) == RxSet(m)
  {
  }

  lemma ClearRx(m: bv32)
    ensures !RxSet(m & !0x10) && TxSet(m & !0x10) == TxSet(m)
  {
  }

  lemma ClearTx(m: bv32)
    ensures !TxSet(m & !0x20) && RxSet(m & !0x20) == RxSet(m)
  {
  }

  lemma AppendNext(a: seq<Byte>, s: seq<Byte>, j: nat)
    requires j < |s|
    ensures a + s[..j] + [s[j]] == a + s[..j + 1]
    ensures s[j..][0] == s[j] && s[j..][1..] == s[j + 1..]
  {
  }

  // Where the thread is, with a loaded mask register as the register value it is.
  datatype Position =
    | At(thread: Thread)
    | ReadStoring(got: seq<Byte>, loaded: bv32)
    | WriteStoring(data: seq<Byte>, n: nat, loaded: bv32)

  function ThreadOf(p: Position): Thread {
    match p
    case At(t) => t
    case ReadStoring(got, loaded) => ReadMaskStore(got, MaskOf(loaded))
    case WriteStoring(data, n, loaded) => WriteMaskStore(data, n, MaskOf(loaded))
  }

  class Pl011 {
    const inbuf: RingBuffer
    const outbuf: RingBuffer
    var imsc: bv32
    var position: Position
    ghost var taken: seq<Byte>
    ghost var returned: seq<Byte>
    ghost var accepted: seq<Byte>
    ghost var sent: seq<Byte>
    ghost const Repr: set<object>

    ghost function Abs(): Uart
      requires inbuf.Valid() && outbuf.Valid()
      reads this, inbuf, outbuf, inbuf.buf, outbuf.buf
    {
      Uart(inbuf.Contents(), outbuf.Contents(), MaskOf(imsc), ThreadOf(position),
           taken, returned, accepted, sent)
    }

    ghost predicate Valid()
      reads this, Repr
    {
      Repr == {this, inbuf, outbuf, inbuf.buf, outbuf.buf} &&
      inbuf != outbuf && inbuf.buf != outbuf.buf &&
      inbuf.Valid() && outbuf.Valid() &&
      (position.At? ==> !position.thread.ReadMaskStore? && !position.thread.WriteMaskStore?) &&
      // A stored byte is still in its slot when the write position is advanced over it.
      (position.At? && position.thread.WriteAdvance? && position.thread.n < |position.thread.data| ==>
         outbuf.buf[outbuf.wpos] == position.thread.data[position.thread.n]) &&
      Inv(Abs())
    }

    static lemma InitialMask()
      ensures MaskOf(0x10) == Mask(true, false) && Inv(INITIAL)
    {
      assert RxSet(0x10) && !TxSet(0x10);
    }

    // The state behind pl011_uart_init.
    constructor ()
      ensures Valid() && fresh(Repr) && Abs() == INITIAL
    {
      hide Inv, MaskOf;
      var ib := new RingBuffer();
      var ob := new RingBuffer();
      inbuf, outbuf := ib, ob;
      imsc := 0x10;
      position := At(Idle);
      taken, returned, accepted, sent := [], [], [], [];
      Repr := {this, ib, ob, ib.buf, ob.buf};
      new;
      InitialMask();
    }

    method BeginRead(count: nat)
      requires Valid()
      modifies this
      ensures Valid() && Abs() == Step(old(Abs()), Event.BeginRead(count))
    {
      StepInv(Abs(), Event.BeginRead(count));
      if position == At(Idle) {
        position := At(ReadTest(count, []));
      }
    }

    method BeginWrite(data: seq<Byte>)
      requires Valid()
      modifies this
      ensures Valid() && Abs() == Step(old(Abs()), Event.BeginWrite(data))
    {
      StepInv(Abs(), Event.BeginWrite(data));
      if position == At(Idle) {
        position := At(WriteTest(data, 0));
      }
    }

    // One micro-step of a read.
    method ReadStep()
      requires Valid() && position.At?
      requires position.thread.ReadTest? || position.thread.ReadLoad? || position.thread.ReadAdvance?
      modifies this, inbuf
      ensures Valid() && Abs() == ThreadStep(old(Abs()))
    {
      hide MaskOf, Conserved, TransmitArmed, ReceiveArmed;
      StepInv(Abs(), Event.Micro);
      match position.thread
      case ReadTest(count, got) =>
        position := At(if |got| < count && !inbuf.Empty() then ReadLoad(count, got) else ReadMaskLoad(got));
      case ReadLoad(count, got) =>
        position := At(ReadAdvance(count, got, inbuf.Load()));
      case ReadAdvance(count, got, elem) =>
        inbuf.AdvanceRead();
        position := At(ReadTest(count, got + [elem]));
    }

    // ringbuf_push's store of a byte.
    method StoreStep(data: seq<Byte>, n: nat)
      requires Valid() && position == At(WriteStore(data, n))
      modifies this`position, outbuf.buf
      ensures Valid() && Abs() == ThreadStep(old(Abs()))
    {
      hide MaskOf, Conserved, TransmitArmed, ReceiveArmed;
      StepInv(Abs(), Event.Micro);
      outbuf.Store(data[n]);
      position := At(WriteAdvance(data, n));
    }

    // Its advance of the write position, behind which the byte is in the ring.
    method AdvanceStep(data: seq<Byte>, n: nat)
      requires Valid() && position == At(WriteAdvance(data, n))
      modifies this`position, outbuf
      ensures Valid() && Abs() == ThreadStep(old(Abs()))
    {
      hide MaskOf, Conserved, TransmitArmed, ReceiveArmed;
      StepInv(Abs(), Event.Micro);
      outbuf.AdvanceWrite();
      position := At(WriteTest(data, n + 1));
    }

    // One micro-step of a write.
    method WriteStep()
      requires Valid() && position.At?
      requires position.thread.WriteTest? || position.thread.WriteStore? || position.thread.WriteAdvance?
      modifies this, outbuf, outbuf.buf
      ensures Valid() && Abs() == ThreadStep(old(Abs()))
    {
      hide MaskOf, Conserved, TransmitArmed, ReceiveArmed;
      match position.thread
      case WriteTest(data, n) =>
        StepInv(Abs(), Event.Micro);
        position := At(if n < |data| && !outbuf.Full() then WriteStore(data, n) else WriteMaskLoad(data, n));
      case WriteStore(data, n) => StoreStep(data, n);
      case WriteAdvance(data, n) => AdvanceStep(data, n);
    }

    method Micro()
      requires Valid()
      modifies Repr
      ensures Valid() && Abs() == Step(old(Abs()), Event.Micro)
    {
      if !position.At? {
        MaskStep();
        return;
      }
      var t := position.thread;
      if t.ReadTest? || t.ReadLoad? || t.ReadAdvance? {
        ReadStep();
      } else if t.WriteTest? || t.WriteStore? || t.WriteAdvance? {
        WriteStep();
      } else if t.ReadMaskLoad? || t.WriteMaskLoad? {
        MaskStep();
      }
    }

    // One micro-step of the mask update: load the register, or store the stale value with
    // one bit added.
    method MaskStep()
      requires Valid()
      requires position.At? ==> position.thread.ReadMaskLoad? || position.thread.WriteMaskLoad?
      modifies this
      ensures Valid() && Abs() == ThreadStep(old(Abs()))
    {
      hide Inv, RxSet, TxSet, RingBuffer.Contents;
      StepInv(Abs(), Event.Micro);
      match position
      case At(ReadMaskLoad(got)) => position := ReadStoring(got, imsc);
      case At(WriteMaskLoad(data, n)) => position := WriteStoring(data, n, imsc);
      case ReadStoring(got, loaded) =>
        SetRx(loaded);
        imsc := loaded | 0x10;
        returned := returned + got;
        position := At(Idle);
      case WriteStoring(data, n, loaded) =>
        SetTx(loaded);
        imsc := loaded | 0x20;
        accepted := accepted + data[..Min(n, |data|)];
        position := At(Idle);
    }

    // The handler's receive loop. The receive FIFO reads as empty once the arriving bytes
    // are used up.
    method ReceiveLoop(fifo: seq<Byte>)
      requires inbuf.Valid() && inbuf.buf.Length == UART_IOBUFSIZE
      modifies this`taken, inbuf, inbuf.buf
      ensures inbuf.Valid()
      ensures var k := Min(|fifo|, CAPACITY - |old(inbuf.Contents())|);
              inbuf.Contents() == old(inbuf.Contents()) + fifo[..k] && taken == old(taken) + fifo[..k]
    {
      ghost var start, log := inbuf.Contents(), taken;
      var j := 0;
      while !inbuf.Full() && j < |fifo|
        invariant 0 <= j <= |fifo| && inbuf.Valid()
        invariant inbuf.Contents() == start + fifo[..j]
        invariant taken == log + fifo[..j]
      {
        var data := fifo[j];
        inbuf.Push(data);
        taken := taken + [data];
        AppendNext(start, fifo, j);
        AppendNext(log, fifo, j);
        j := j + 1;
      }
    }

    // The handler's transmit loop. The transmit FIFO reads as full after room bytes.
    method TransmitLoop(room: nat)
      requires outbuf.Valid()
      modifies this`sent, outbuf
      ensures outbuf.Valid() && outbuf.wpos == old(outbuf.wpos)
      ensures var k := Min(room, |old(outbuf.Contents())|);
              outbuf.Contents() == old(outbuf.Contents())[k..] && sent == old(sent) + old(outbuf.Contents())[..k]
    {
      ghost var start, log := outbuf.Contents(), sent;
      var j := 0;
      while !outbuf.Empty() && j < room
        invariant 0 <= j <= |start| && j <= room && outbuf.Valid()
        invariant outbuf.Contents() == start[j..]
        invariant sent == log + start[..j]
        invariant outbuf.wpos == old(outbuf.wpos)
      {
        var data := outbuf.Pop();
        sent := sent + [data];
        AppendNext(log, start, j);
        j := j + 1;
      }
    }

    method DisableRx()
      modifies this`imsc
      ensures MaskOf(imsc) == old(MaskOf(imsc)).(rx := false)
    {
      ClearRx(imsc);
      imsc := imsc & !0x10;
    }

    method DisableTx()
      modifies this`imsc
      ensures MaskOf(imsc) == old(MaskOf(imsc)).(tx := false)
    {
      ClearTx(imsc);
      imsc := imsc & !0x20;
    }

    method Receive(fifo: seq<Byte>)
      requires Valid()
      modifies this, inbuf, inbuf.buf
      ensures Valid() && Abs() == UartSpec.Receive(old(Abs()), fifo)
    {
      hide Inv, ThreadOf, MaskOf;
      ReceiveInv(Abs(), fifo);
      ReceiveLoop(fifo);
      if inbuf.Full() {
        DisableRx();
      }
    }

    method Transmit(room: nat)
      requires Valid()
      modifies this, outbuf
      ensures Valid() && Abs() == UartSpec.Transmit(old(Abs()), room)
    {
      hide Inv, ThreadOf, MaskOf;
      TransmitInv(Abs(), room);
      TransmitLoop(room);
      if outbuf.Empty() {
        DisableTx();
      }
    }

    // pl011_uart_intr; the status is the raw interrupts under the mask at its start.
    method Interrupt(rx: bool, tx: bool, fifo: seq<Byte>, room: nat)
      requires Valid()
      modifies Repr
      ensures Valid() && Abs() == Step(old(Abs()), Event.Interrupt(rx, tx, fifo, room))
    {
      hide Inv, UartSpec.Receive, UartSpec.Transmit;
      var status := imsc;
      ReceiveInv(Abs(), fifo);
      if rx && RxSet(status) {
        Receive(fifo);
      }
      if tx && TxSet(status) {
        Transmit(room);
      }
    }

    // Any interleaving of calls, micro-steps and interrupts.
    method Run(es: seq<Event>)
      requires Valid()
      modifies Repr
      ensures Valid() && Abs() == UartSpec.Run(old(Abs()), es)
    {
      for i := 0 to |es|
        invariant Valid() && Abs() == UartSpec.Run(old(Abs()), es[..i])
      {
        assert es[..i + 1][..i] == es[..i];
        match es[i]
        case BeginRead(count) => BeginRead(count);
        case BeginWrite(data) => BeginWrite(data);
        case Micro => Micro();
        case Interrupt(rx, tx, fifo, room) => Interrupt(rx, tx, fifo, room);
      }
      assert es[..|es|] == es;
    }
  }
}
