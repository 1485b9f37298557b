/**
 What a call of pl011_uart_read or pl011_uart_write returns, however the handler interrupts it,
 and that it comes to its end.
 */
module UartCalls {
  import opened UartSpec
  import opened Words

  // Nothing but micro-steps of the call and runs of the handler.
  predicate DuringCall(es: seq<Event>) {
    forall i :: 0 <= i < |es| ==> es[i].Micro? || es[i].Interrupt?
  }

  predicate Uninterrupted(es: seq<Event>) {
    forall i :: 0 <= i < |es| ==> es[i].Micro?
  }

  function Micros(es: seq<Event>): nat {
    if es == [] then 0 else Micros(es[..|es| - 1]) + if es[|es| - 1].Micro? then 1 else 0
  }

  // ---- calls end ----

  // The micro-steps a call takes at most: three for each byte it may still move, then the last
  // test and the two halves of the mask update.
  function StepsLeft(t: Thread): int {
    match t
    case Idle => 0
    case ReadTest(count, got) => 3 * (count - |got|) + 3
    case ReadLoad(count, got) => 3 * (count - |got|) + 2
    case ReadAdvance(count, got, _) => 3 * (count - |got|) + 1
    case ReadMaskLoad(_) => 2
    case ReadMaskStore(_, _) => 1
    case WriteTest(data, n) => 3 * (|data| - n) + 3
    case WriteStore(data, n) => 3 * (|data| - n) + 2
    case WriteAdvance(data, n) => 3 * (|data| - n) + 1
    case WriteMaskLoad(_, _) => 2
    case WriteMaskStore(_, _, _) => 1
  }

  lemma MicroProgress(u: Uart)
    requires Inv(u)
    ensures StepsLeft(u.thread) >= 0 && (StepsLeft(u.thread) == 0 ==> u.thread.Idle?)
    ensures if u.thread.Idle? then ThreadStep(u) == u else StepsLeft(ThreadStep(u).thread) < StepsLeft(u.thread)
  {
  }

  lemma HandlerKeepsThread(u: Uart, e: Event)
    ensures e.Interrupt? ==> Step(u, e).thread == u.thread
  {
  }

  lemma {:induction false} CallProgress(u: Uart, es: seq<Event>)
    requires Inv(u) && DuringCall(es)
    ensures var v := Run(u, es); Inv(v) && (v.thread.Idle? || StepsLeft(v.thread) + Micros(es) <= StepsLeft(u.thread))
  {
    hide ThreadStep, StepsLeft, Inv;
    if es == [] {
    } else {
      var before := es[..|es| - 1];
      CallProgress(u, before);
      StepInv(Run(u, before), es[|es| - 1]);
      MicroProgress(Run(u, before));
      HandlerKeepsThread(Run(u, before), es[|es| - 1]);
    }
  }

  // After that many micro-steps, with any interrupts between them, a call has returned.
  lemma CallEnds(u: Uart, es: seq<Event>)
    requires Inv(u) && DuringCall(es) && Micros(es) >= StepsLeft(u.thread)
    ensures Run(u, es).thread.Idle?
  {
    CallProgress(u, es);
    MicroProgress(Run(u, es));
  }

  // ---- reads ----

  predicate Moved(u: Uart, got: seq<Byte>, v: Uart, quiet: bool) {
    |got| + |v.inq| >= |u.inq| && (quiet ==> |got| + |v.inq| == |u.inq|)
  }

  // A number of bytes that a read may return: all that were there, up to the count asked for.
  predicate Enough(u: Uart, count: nat, n: int, quiet: bool) {
    Min(count, |u.inq|) <= n <= count && (quiet ==> n == Min(count, |u.inq|))
  }

  // u is the state at the call of read, v a state on the way or behind it; quiet says that no
  // interrupt has come in between.
  predicate Reading(u: Uart, count: nat, v: Uart, quiet: bool) {
    (v.imsc.tx ==> u.imsc.tx) && (quiet ==> v.imsc == if v.thread.Idle? then u.imsc.(rx := true) else u.imsc) &&
    match v.thread
    case ReadTest(c, got) => c == count && v.returned == u.returned && Moved(u, got, v, quiet)
    case ReadLoad(c, got) => c == count && v.returned == u.returned && Moved(u, got, v, quiet)
    case ReadAdvance(c, got, _) => c == count && v.returned == u.returned && Moved(u, got, v, quiet)
    case ReadMaskLoad(got) => v.returned == u.returned && Enough(u, count, |got|, quiet)
    case ReadMaskStore(got, loaded) =>
      v.returned == u.returned && Enough(u, count, |got|, quiet) &&
      (loaded.tx ==> u.imsc.tx) && (quiet ==> loaded == u.imsc)
    case Idle => u.returned <= v.returned && Enough(u, count, |v.returned| - |u.returned|, quiet)
    case _ => false
  }

  lemma ReadMicro(u: Uart, count: nat, v: Uart, quiet: bool)
    requires Inv(v) && Reading(u, count, v, quiet)
    ensures Reading(u, count, ThreadStep(v), quiet)
  {
  }

  lemma ReadInterrupted(u: Uart, count: nat, v: Uart, e: Event, quiet: bool)
    requires Inv(v) && Reading(u, count, v, quiet) && e.Interrupt?
    ensures Reading(u, count, Step(v, e), false)
  {
  }

  lemma ReadBegins(u: Uart, count: nat)
    requires Inv(u) && u.thread.Idle?
    ensures Reading(u, count, Step(u, BeginRead(count)), true)
  {
  }

  lemma {:induction false} ReadProgress(u: Uart, count: nat, es: seq<Event>)
    requires Inv(u) && u.thread.Idle? && DuringCall(es)
    ensures var v := Run(Step(u, BeginRead(count)), es); Inv(v) && Reading(u, count, v, Uninterrupted(es))
  {
    hide ThreadStep, Reading, Inv;
    var start := Step(u, BeginRead(count));
    StepInv(u, BeginRead(count));
    if es == [] {
      ReadBegins(u, count);
    } else {
      var before, e := es[..|es| - 1], es[|es| - 1];
      ReadProgress(u, count, before);
      StepInv(Run(start, before), e);
      if e.Micro? {
        ReadMicro(u, count, Run(start, before), Uninterrupted(before));
        assert Uninterrupted(es) == Uninterrupted(before);
      } else {
        ReadInterrupted(u, count, Run(start, before), e, Uninterrupted(before));
        assert !Uninterrupted(es);
      }
    }
  }

  lemma {:induction false} TakenGrows(u: Uart, es: seq<Event>)
    requires DuringCall(es)
    ensures u.taken <= Run(u, es).taken && (Uninterrupted(es) ==> Run(u, es).taken == u.taken)
  {
    if es == [] {
    } else {
      TakenGrows(u, es[..|es| - 1]);
    }
  }

  lemma OldestFirst(u: Uart, v: Uart)
    requires Inv(u) && Inv(v) && u.thread.Idle? && v.thread.Idle? && u.taken <= v.taken && u.returned <= v.returned
    ensures v.returned[|u.returned|..] + v.inq == u.inq + v.taken[|u.taken|..]
  {
    assert u.returned + [] + u.inq == u.returned + u.inq && v.returned + [] + v.inq == v.returned + v.inq;
    assert v.taken[|u.returned|..] == u.inq + v.taken[|u.taken|..];
    assert v.taken[|u.returned|..] == v.returned[|u.returned|..] + v.inq;
  }

  // A read returns at least all the bytes that were waiting, up to its count, and never more than
  // its count; without interrupts exactly so many. They are the oldest ones of those that were
  // waiting or have arrived since. It enables the receive interrupt and never the other one. It
  // has returned after 3 * count + 3 of its own steps.
  lemma ReadReturns(u: Uart, count: nat, es: seq<Event>)
    requires Inv(u) && u.thread.Idle? && DuringCall(es)
    ensures var v := Run(Step(u, BeginRead(count)), es);
            (Micros(es) >= 3 * count + 3 ==> v.thread.Idle?) &&
            (v.thread.Idle? ==>
               u.returned <= v.returned &&
               var n := |v.returned| - |u.returned|;
               Min(count, |u.inq|) <= n <= count && (Uninterrupted(es) ==> n == Min(count, |u.inq|)) &&
               (v.imsc.tx ==> u.imsc.tx) && (Uninterrupted(es) ==> v.imsc == u.imsc.(rx := true)) &&
               u.taken <= v.taken && (Uninterrupted(es) ==> v.taken == u.taken) &&
               v.returned[|u.returned|..] + v.inq == u.inq + v.taken[|u.taken|..])
  {
    hide ThreadStep;
    ReadProgress(u, count, es);
    StepInv(u, BeginRead(count));
    if Micros(es) >= 3 * count + 3 {
      CallEnds(Step(u, BeginRead(count)), es);
    }
    var v := Run(Step(u, BeginRead(count)), es);
    TakenGrows(Step(u, BeginRead(count)), es);
    if v.thread.Idle? {
      OldestFirst(u, v);
    }
  }

  // ---- writes ----

  predicate Queued(u: Uart, n: nat, v: Uart, quiet: bool) {
    |v.outq| <= |u.outq| + n && (quiet ==> |v.outq| == |u.outq| + n)
  }

  // A number of bytes that a write may accept: as many as there was room for, up to all.
  predicate Fitting(u: Uart, data: seq<Byte>, n: int, quiet: bool) {
    |u.outq| <= CAPACITY && Min(|data|, CAPACITY - |u.outq|) <= n <= |data| &&
    (quiet ==> n == Min(|data|, CAPACITY - |u.outq|))
  }

  predicate Writing(u: Uart, data: seq<Byte>, v: Uart, quiet: bool) {
    (v.imsc.rx ==> u.imsc.rx) && (quiet ==> v.imsc == if v.thread.Idle? then u.imsc.(tx := true) else u.imsc) &&
    match v.thread
    case WriteTest(d, n) => d == data && v.accepted == u.accepted && Queued(u, n, v, quiet)
    case WriteStore(d, n) => d == data && v.accepted == u.accepted && Queued(u, n, v, quiet)
    case WriteAdvance(d, n) => d == data && v.accepted == u.accepted && Queued(u, n, v, quiet)
    case WriteMaskLoad(d, n) => d == data && v.accepted == u.accepted && Fitting(u, data, n, quiet)
    case WriteMaskStore(d, n, loaded) =>
      d == data && v.accepted == u.accepted && Fitting(u, data, n, quiet) &&
      (loaded.rx ==> u.imsc.rx) && (quiet ==> loaded == u.imsc)
    case Idle =>
      var n := |v.accepted| - |u.accepted|;
      Fitting(u, data, n, quiet) && v.accepted == u.accepted + data[..n]
    case _ => false
  }

  lemma WriteMicro(u: Uart, data: seq<Byte>, v: Uart, quiet: bool)
    requires Inv(u) && Inv(v) && Writing(u, data, v, quiet)
    ensures Writing(u, data, ThreadStep(v), quiet)
  {
  }

  lemma WriteInterrupted(u: Uart, data: seq<Byte>, v: Uart, e: Event, quiet: bool)
    requires Inv(v) && Writing(u, data, v, quiet) && e.Interrupt?
    ensures Writing(u, data, Step(v, e), false)
  {
  }

  lemma WriteBegins(u: Uart, data: seq<Byte>)
    requires Inv(u) && u.thread.Idle?
    ensures Writing(u, data, Step(u, BeginWrite(data)), true)
  {
  }

  lemma {:induction false} WriteProgress(u: Uart, data: seq<Byte>, es: seq<Event>)
    requires Inv(u) && u.thread.Idle? && DuringCall(es)
    ensures var v := Run(Step(u, BeginWrite(data)), es); Inv(v) && Writing(u, data, v, Uninterrupted(es))
  {
    hide ThreadStep, Writing, Inv;
    var start := Step(u, BeginWrite(data));
    StepInv(u, BeginWrite(data));
    if es == [] {
      WriteBegins(u, data);
    } else {
      var before, e := es[..|es| - 1], es[|es| - 1];
      WriteProgress(u, data, before);
      StepInv(Run(start, before), e);
      if e.Micro? {
        WriteMicro(u, data, Run(start, before), Uninterrupted(before));
        assert Uninterrupted(es) == Uninterrupted(before);
      } else {
        WriteInterrupted(u, data, Run(start, before), e, Uninterrupted(before));
        assert !Uninterrupted(es);
      }
    }
  }

  // A write accepts a prefix of its data: at least what there was room for, without interrupts
  // exactly that. It enables the transmit interrupt and never the other one. It has returned after
  // 3 * |data| + 3 of its own steps.
  lemma WriteReturns(u: Uart, data: seq<Byte>, es: seq<Event>)
    requires Inv(u) && u.thread.Idle? && DuringCall(es)
    ensures var v := Run(Step(u, BeginWrite(data)), es);
            (Micros(es) >= 3 * |data| + 3 ==> v.thread.Idle?) &&
            (v.thread.Idle? ==>
               var n := |v.accepted| - |u.accepted|;
               Min(|data|, CAPACITY - |u.outq|) <= n <= |data| && v.accepted == u.accepted + data[..n] &&
               (Uninterrupted(es) ==> n == Min(|data|, CAPACITY - |u.outq|)) &&
               (v.imsc.rx ==> u.imsc.rx) && (Uninterrupted(es) ==> v.imsc == u.imsc.(tx := true)) &&
               v.accepted == v.sent + v.outq)
  {
    hide ThreadStep;
    WriteProgress(u, data, es);
    StepInv(u, BeginWrite(data));
    if Micros(es) >= 3 * |data| + 3 {
      CallEnds(Step(u, BeginWrite(data)), es);
    }
    var v := Run(Step(u, BeginWrite(data)), es);
    if v.thread.Idle? {
      assert v.accepted + [] == v.accepted;
    }
  }
}
