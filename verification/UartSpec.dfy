/**
 The PL011 driver of kernel/uart.c as a state machine. One thread performs reads and
 writes in micro-steps (test, element access, index advance, mask load, mask store); the
 interrupt handler may run to completion between any two of them. The hardware decides
 which interrupts are raised, which bytes arrive and how much room the transmit FIFO has.
 */
module UartSpec {
  import opened Words

  const UART_IOBUFSIZE: nat := 512
  const CAPACITY: nat := UART_IOBUFSIZE - 1

  // The two bits of IMSC the driver uses: RXIM and TXIM.
  datatype Mask = Mask(rx: bool, tx: bool)

  // Where the thread is inside pl011_uart_read or pl011_uart_write, with its locals.
  datatype Thread =
    | Idle
    | ReadTest(count: nat, got: seq<Byte>)
    | ReadLoad(count: nat, got: seq<Byte>)
    | ReadAdvance(count: nat, got: seq<Byte>, elem: Byte)
    | ReadMaskLoad(got: seq<Byte>)
    | ReadMaskStore(got: seq<Byte>, loaded: Mask)
    | WriteTest(data: seq<Byte>, n: nat)
    | WriteStore(data: seq<Byte>, n: nat)
    | WriteAdvance(data: seq<Byte>, n: nat)
    | WriteMaskLoad(data: seq<Byte>, n: nat)
    | WriteMaskStore(data: seq<Byte>, n: nat, loaded: Mask)

  /** The two rings as queues, the mask register, the thread, and four logs:
      the bytes taken from the data register, the bytes that finished reads returned,
      the bytes that finished writes accepted, the bytes put in the data register. */
  datatype Uart = Uart(
    inq: seq<Byte>,
    outq: seq<Byte>,
    imsc: Mask,
    thread: Thread,
    taken: seq<Byte>,
    returned: seq<Byte>,
    accepted: seq<Byte>,
    sent: seq<Byte>)

  // What pl011_uart_init leaves: empty rings and the receive interrupt enabled.
  const INITIAL := Uart([], [], Mask(true, false), Idle, [], [], [], [])

  datatype Event =
    | BeginRead(count: nat)
    | BeginWrite(data: seq<Byte>)
    | Micro
    | Interrupt(rx: bool, tx: bool, fifo: seq<Byte>, room: nat)

  function Min(a: nat, b: nat): nat {
    if a <= b then a else b
  }

  // The receive half of pl011_uart_intr: drain the FIFO until it or the room runs out.
  function Receive(u: Uart, fifo: seq<Byte>): Uart {
    var k := Min(|fifo|, if |u.inq| <= CAPACITY then CAPACITY - |u.inq| else 0);
    var inq := u.inq + fifo[..k];
    u.(inq := inq, taken := u.taken + fifo[..k],
       imsc := if |inq| == CAPACITY then u.imsc.(rx := false) else u.imsc)
  }

  // The transmit half: fill the FIFO until it is full or outbuf is empty.
  function Transmit(u: Uart, room: nat): Uart {
    var k := Min(room, |u.outq|);
    u.(outq := u.outq[k..], sent := u.sent + u.outq[..k],
       imsc := if k == |u.outq| then u.imsc.(tx := false) else u.imsc)
  }

  // A masked interrupt is one the hardware raises while its bit is set in the mask.
  function Handle(u: Uart, e: Event): Uart
    requires e.Interrupt?
  {
    var r := if e.rx && u.imsc.rx then Receive(u, e.fifo) else u;
    if e.tx && u.imsc.tx then Transmit(r, e.room) else r
  }

  function ThreadStep(u: Uart): Uart {
    match u.thread
    case Idle => u
    case ReadTest(count, got) =>
      u.(thread := if |got| < count && u.inq != [] then ReadLoad(count, got) else ReadMaskLoad(got))
    case ReadLoad(count, got) =>
      u.(thread := if u.inq == [] then u.thread else ReadAdvance(count, got, u.inq[0]))
    case ReadAdvance(count, got, elem) =>
      u.(thread := ReadTest(count, got + [elem]), inq := if u.inq == [] then [] else u.inq[1..])
    case ReadMaskLoad(got) => u.(thread := ReadMaskStore(got, u.imsc))
    case ReadMaskStore(got, loaded) =>
      u.(thread := Idle, imsc := loaded.(rx := true), returned := u.returned + got)
    case WriteTest(data, n) =>
      u.(thread := if n < |data| && |u.outq| != CAPACITY then WriteStore(data, n) else WriteMaskLoad(data, n))
    case WriteStore(data, n) => u.(thread := WriteAdvance(data, n))
    case WriteAdvance(data, n) =>
      if n >= |data| then u else
        u.(thread := WriteTest(data, n + 1), outq := u.outq + [data[n]])
    case WriteMaskLoad(data, n) => u.(thread := WriteMaskStore(data, n, u.imsc))
    case WriteMaskStore(data, n, loaded) =>
      u.(thread := Idle, imsc := loaded.(tx := true),
         accepted := u.accepted + data[..Min(n, |data|)])
  }

  function Step(u: Uart, e: Event): Uart {
    match e
    case BeginRead(count) => if u.thread.Idle? then u.(thread := ReadTest(count, [])) else u
    case BeginWrite(data) => if u.thread.Idle? then u.(thread := WriteTest(data, 0)) else u
    case Micro => ThreadStep(u)
    case Interrupt(_, _, _, _) => Handle(u, e)
  }

  function Run(u: Uart, es: seq<Event>): Uart {
    if es == [] then u else Step(Run(u, es[..|es| - 1]), es[|es| - 1])
  }

  // ---- what every run keeps ----

  // The mask may have lost bits since it was loaded, but gained none.
  predicate NoneSetSince(imsc: Mask, loaded: Mask) {
    (imsc.rx ==> loaded.rx) && (imsc.tx ==> loaded.tx)
  }

  // What the thread knows about the rings and the mask, whatever the handler did since.
  predicate ThreadOk(u: Uart) {
    match u.thread
    case Idle => true
    case ReadTest(count, got) => |got| <= count
    case ReadLoad(count, got) => |got| < count && u.inq != []
    case ReadAdvance(count, got, elem) => |got| < count && u.inq != [] && u.inq[0] == elem
    case ReadMaskLoad(got) => true
    case ReadMaskStore(got, loaded) => NoneSetSince(u.imsc, loaded)
    case WriteTest(data, n) => n <= |data|
    case WriteStore(data, n) => n < |data| && |u.outq| < CAPACITY
    case WriteAdvance(data, n) => n < |data| && |u.outq| < CAPACITY
    case WriteMaskLoad(data, n) => n <= |data|
    case WriteMaskStore(data, n, loaded) => n <= |data| && NoneSetSince(u.imsc, loaded)
  }

  // The bytes an unfinished read has collected, and an unfinished write has pushed.
  function Collected(t: Thread): seq<Byte> {
    if t.ReadTest? || t.ReadLoad? || t.ReadAdvance? || t.ReadMaskLoad? || t.ReadMaskStore? then t.got else []
  }

  function Pushed(t: Thread): seq<Byte> {
    if t.WriteTest? || t.WriteStore? || t.WriteAdvance? || t.WriteMaskLoad? || t.WriteMaskStore?
    then t.data[..Min(t.n, |t.data|)] else []
  }

  // In order, nothing lost, duplicated or overwritten, in both directions.
  predicate Conserved(u: Uart) {
    |u.inq| <= CAPACITY && |u.outq| <= CAPACITY &&
    u.taken == u.returned + Collected(u.thread) + u.inq &&
    u.accepted + Pushed(u.thread) == u.sent + u.outq
  }

  // Bytes wait for transmission only with the interrupt enabled or a writer about to enable it.
  predicate TransmitArmed(u: Uart) {
    u.outq != [] ==> u.imsc.tx || Pushed(u.thread) != []
  }

  // Reception is off only with no room, or with a reader that made room about to enable it.
  predicate ReceiveArmed(u: Uart) {
    !u.imsc.rx ==> |u.inq| == CAPACITY || Collected(u.thread) != []
  }

  predicate Inv(u: Uart) {
    ThreadOk(u) && Conserved(u) && TransmitArmed(u) && ReceiveArmed(u)
  }

  // ---- preservation ----

  lemma ReceiveInv(u: Uart, fifo: seq<Byte>)
    requires Inv(u)
    ensures Inv(Receive(u, fifo))
    ensures Receive(u, fifo).outq == u.outq
    ensures Receive(u, fifo).imsc.tx == u.imsc.tx
  {
  }

  lemma TransmitInv(u: Uart, room: nat)
    requires Inv(u)
    ensures Inv(Transmit(u, room))
  {
  }

  lemma Regroup(a: seq<Byte>, b: seq<Byte>, e: Byte, q: seq<Byte>)
    requires q != [] && q[0] == e
    ensures a + b + q == a + (b + [e]) + q[1..]
  {
  }

  lemma Append(a: seq<Byte>, b: seq<Byte>, c: seq<Byte>, d: seq<Byte>, e: Byte)
    requires a + b == c + d
    ensures a + (b + [e]) == c + (d + [e])
  {
    assert a + (b + [e]) == a + b + [e];
    assert c + (d + [e]) == c + d + [e];
  }

  lemma ThreadStepInv(u: Uart)
    requires Inv(u)
    ensures Inv(ThreadStep(u))
  {
    match u.thread
    case ReadAdvance(count, got, elem) =>
      Regroup(u.returned, got, elem, u.inq);
    case WriteAdvance(data, n) =>
      assert data[..n + 1] == data[..n] + [data[n]];
      Append(u.accepted, data[..n], u.sent, u.outq, data[n]);
    case _ =>
  }

  lemma StepInv(u: Uart, e: Event)
    requires Inv(u)
    ensures Inv(Step(u, e))
  {
    match e
    case BeginRead(_) =>
    case BeginWrite(_) =>
    case Micro => ThreadStepInv(u);
    case Interrupt(rx, tx, fifo, room) =>
      ReceiveInv(u, fifo);
      TransmitInv(u, room);
      TransmitInv(Receive(u, fifo), room);
  }

  // Whatever the thread calls and however the handler interrupts it.
  lemma {:induction false} RunInv(u: Uart, es: seq<Event>)
    requires Inv(u)
    ensures Inv(Run(u, es))
  {
    if es == [] {
    } else {
      RunInv(u, es[..|es| - 1]);
      StepInv(Run(u, es[..|es| - 1]), es[|es| - 1]);
    }
  }

  // From power-up: what has been taken from the hardware is what readers got, followed by
  // what waits in inbuf; what writers handed over is what the hardware got, followed by
  // what waits in outbuf.
  lemma NothingLost(es: seq<Event>)
    ensures var u := Run(INITIAL, es);
            u.taken == u.returned + Collected(u.thread) + u.inq &&
            u.accepted + Pushed(u.thread) == u.sent + u.outq
  {
    RunInv(INITIAL, es);
  }

  // Between calls: bytes in outbuf have their interrupt enabled, and reception is off only
  // with inbuf full.
  lemma NoLostWakeup(es: seq<Event>)
    ensures var u := Run(INITIAL, es);
            u.thread.Idle? ==> (u.outq != [] ==> u.imsc.tx) && (!u.imsc.rx ==> |u.inq| == CAPACITY)
  {
    RunInv(INITIAL, es);
  }

  // The non-atomic update loses no enable: the stored mask has every bit the register has
  // at that moment. It can undo a disable of the handler's, and of the handler's only.
  lemma StaleStoreOnlyAdds(es: seq<Event>)
    ensures var u := Run(INITIAL, es);
            var v := ThreadStep(u);
            u.thread.ReadMaskStore? || u.thread.WriteMaskStore? ==>
              (u.imsc.rx ==> v.imsc.rx) && (u.imsc.tx ==> v.imsc.tx)
  {
    RunInv(INITIAL, es);
  }

  // Such an undone disable, from any idle state: the handler empties outbuf between a
  // reader's mask load and its mask store, and the reader switches the transmit interrupt
  // back on. The next transmit interrupt has nothing to send and switches it off again.
  lemma UndoneDisable(u: Uart, room: nat, again: nat)
    requires Inv(u) && u.thread.Idle? && u.imsc.tx && room >= |u.outq|
    ensures var loaded := ThreadStep(ThreadStep(Step(u, BeginRead(0))));
            var drained := Handle(loaded, Interrupt(false, true, [], room));
            var v := ThreadStep(drained);
            !drained.imsc.tx && v.thread.Idle? && v.outq == [] && v.imsc.tx &&
            Handle(v, Interrupt(false, true, [], again)) == v.(imsc := v.imsc.(tx := false))
  {
  }

  // The same race with the roles exchanged: the handler fills inbuf between a writer's mask load
  // and its mask store, and the writer switches the receive interrupt back on.
  lemma UndoneDisableByWriter(u: Uart, fifo: seq<Byte>)
    requires Inv(u) && u.thread.Idle? && u.imsc.rx && |u.inq| + |fifo| >= CAPACITY
    ensures var loaded := ThreadStep(ThreadStep(Step(u, BeginWrite([]))));
            var filled := Handle(loaded, Interrupt(true, false, fifo, 0));
            var v := ThreadStep(filled);
            !filled.imsc.rx && v.thread.Idle? && |v.inq| == CAPACITY && v.imsc.rx &&
            Handle(v, Interrupt(true, false, fifo, 0)) == v.(imsc := v.imsc.(rx := false))
  {
  }

  // The handler serves exactly the interrupts that are raised and not masked, and touches nothing
  // for the others. It moves every byte it can; behind it the bit of an interrupt it has served is
  // set exactly when it could go on, so the level-triggered line neither storms nor falls silent.
  lemma HandlerLeavesWorkEnabled(u: Uart, rx: bool, tx: bool, fifo: seq<Byte>, room: nat)
    requires Inv(u)
    ensures var v := Handle(u, Interrupt(rx, tx, fifo, room));
            (if rx && u.imsc.rx then
               (v.imsc.rx <==> |v.inq| < CAPACITY) && u.inq <= v.inq <= u.inq + fifo &&
               v.taken == u.taken + v.inq[|u.inq|..] && (|v.inq| == CAPACITY || v.inq == u.inq + fifo)
             else v.inq == u.inq && v.taken == u.taken && v.imsc.rx == u.imsc.rx) &&
            (if tx && u.imsc.tx then
               (v.imsc.tx <==> v.outq != []) && |v.outq| <= |u.outq| && v.outq == u.outq[|u.outq| - |v.outq|..] &&
               v.sent == u.sent + u.outq[..|u.outq| - |v.outq|] && (v.outq == [] || |v.outq| == |u.outq| - room)
             else v.outq == u.outq && v.sent == u.sent && v.imsc.tx == u.imsc.tx) &&
            v.thread == u.thread && v.returned == u.returned && v.accepted == u.accepted
  {
  }

  // Nothing has been written or is about to be, and no store can enable the transmit interrupt.
  predicate Silent(u: Uart) {
    !u.imsc.tx && u.sent == [] &&
    !(u.thread.WriteTest? || u.thread.WriteStore? || u.thread.WriteAdvance? || u.thread.WriteMaskLoad? ||
      u.thread.WriteMaskStore?) &&
    (u.thread.ReadMaskStore? ==> !u.thread.loaded.tx)
  }

  // Until something is written the transmit interrupt stays off and nothing is sent.
  lemma {:induction false} SilentUntilWrite(es: seq<Event>)
    requires forall i :: 0 <= i < |es| ==> !es[i].BeginWrite?
    ensures Silent(Run(INITIAL, es))
  {
    if es == [] {
    } else {
      SilentUntilWrite(es[..|es| - 1]);
    }
  }

  // Transmit interrupts alone drain outbuf: with room for one byte each, |outq| of them
  // send everything that was accepted.
  function Drain(u: Uart, rooms: seq<nat>): Uart
    decreases rooms
  {
    if rooms == [] then u else Drain(Handle(u, Interrupt(false, true, [], rooms[0])), rooms[1..])
  }

  lemma {:induction false} DrainsCompletely(u: Uart, rooms: seq<nat>)
    requires Inv(u) && u.thread.Idle? && |rooms| >= |u.outq|
    requires forall i :: 0 <= i < |rooms| ==> rooms[i] > 0
    ensures Drain(u, rooms).sent == u.accepted && Drain(u, rooms).outq == []
    decreases |rooms|
  {
    assert u.accepted + [] == u.accepted == u.sent + u.outq;
    if rooms == [] {
      assert u.sent + [] == u.sent;
    } else {
      var v := Handle(u, Interrupt(false, true, [], rooms[0]));
      StepInv(u, Interrupt(false, true, [], rooms[0]));
      DrainsCompletely(v, rooms[1..]);
    }
  }
}
