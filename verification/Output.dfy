/**
 The character sinks behind the formatter: sprintputch of lib/printfmt.c, which truncates
 into the caller's buffer, and putch of lib/printf.c, which collects 255 characters and
 flushes them through partial uart_write calls.
 */
module Output {
  // uart_write(): accepts any part of what it is offered. plan is an arbitrary finite
  // pattern of partial results; once it is used up everything is accepted.
  class Device {
    var out: string
    var plan: seq<nat>

    constructor (plan: seq<nat>)
      ensures out == "" && this.plan == plan
    {
      out := "";
      this.plan := plan;
    }

    method Write(data: string) returns (n: nat)
      modifies this
      ensures n <= |data| && out == old(out) + data[..n]
      ensures |plan| < |old(plan)| || (plan == old(plan) == [] && n == |data|)
    {
      if plan == [] {
        n := |data|;
      } else {
        n := if plan[0] <= |data| then plan[0] else |data|;
        plan := plan[1..];
      }
      out := out + data[..n];
    }
  }

  const PRINTBUF_SIZE: nat := 256

  // The function pointer handed to vprintfmt.
  datatype Callback = SprintPutch | PrintfPutch

  /** struct sprintbuf (idx is buf minus its start, limit is ebuf minus its start) and
      struct printbuf in one object; callback says which function works on it. */
  class Sink {
    const callback: Callback
    const buf: array<char>
    const limit: nat
    const dev: Device
    var idx: nat
    var cnt: nat
    ghost var log: string
    ghost const start: string
    ghost const original: string
    ghost const Repr: set<object>

    // The first limit characters of the log are stored, nothing else has changed.
    ghost predicate SprintValid()
      reads this, buf
    {
      limit < buf.Length && |original| == buf.Length &&
      idx == (if |log| <= limit then |log| else limit) &&
      buf[..] == log[..idx] + original[idx..]
    }

    // Flushed and buffered characters together are the log.
    ghost predicate PrintfValid()
      reads this, buf, dev
    {
      buf.Length == PRINTBUF_SIZE && idx < PRINTBUF_SIZE - 1 && idx <= |log| &&
      dev.out == start + log[..|log| - idx] && buf[..idx] == log[|log| - idx..]
    }

    ghost predicate Valid()
      reads this, Repr
    {
      Repr == {this, buf, dev} && cnt == |log| &&
      match callback
      case SprintPutch => SprintValid()
      case PrintfPutch => PrintfValid()
    }

    // What a truncating sink holds.
    lemma SprintState()
      requires Valid() && callback == SprintPutch
      ensures limit < buf.Length == |original| && cnt == |log|
      ensures idx == (if |log| <= limit then |log| else limit) && buf[..] == log[..idx] + original[idx..]
    {
    }

    // struct sprintbuf b = {buf, buf + n - 1, 0}
    constructor Sprint(buf: array<char>, n: nat, dev: Device)
      requires 1 <= n <= buf.Length
      ensures Valid() && fresh(Repr - {buf, dev}) && log == ""
      ensures callback == SprintPutch && this.buf == buf && limit == n - 1 && this.dev == dev
      ensures original == buf[..]
    {
      callback := SprintPutch;
      this.buf := buf;
      limit := n - 1;
      this.dev := dev;
      idx, cnt, log := 0, 0, "";
      start, original := dev.out, buf[..];
      Repr := {this, buf, dev};
    }

    // struct printbuf b with idx and cnt zero
    constructor Printf(dev: Device)
      ensures Valid() && fresh(Repr - {dev}) && log == ""
      ensures callback == PrintfPutch && this.dev == dev && start == dev.out
    {
      callback := PrintfPutch;
      var b := new char[PRINTBUF_SIZE](_ => '\0');
      buf := b;
      limit := 0;
      this.dev := dev;
      idx, cnt, log := 0, 0, "";
      start, original := dev.out, "";
      Repr := {this, b, dev};
    }

    // sprintputch
    method SprintPut(ch: char)
      requires Valid() && callback == SprintPutch
      modifies this, buf
      ensures Valid() && log == old(log) + [ch]
    {
      cnt := cnt + 1;
      log := log + [ch];
      if idx < limit {
        buf[idx] := ch;
        idx := idx + 1;
      }
    }

    // The loop over partial uart_write calls.
    method Flush()
      requires idx <= buf.Length
      modifies dev
      ensures dev.out == old(dev.out) + buf[..idx]
    {
      var nwritten := 0;
      while nwritten < idx
        invariant nwritten <= idx
        invariant dev.out == old(dev.out) + buf[..nwritten]
        decreases |dev.plan|, idx - nwritten
      {
        var n := dev.Write(buf[nwritten..idx]);
        assert buf[nwritten..idx][..n] == buf[nwritten..nwritten + n];
        nwritten := nwritten + n;
      }
    }

    // putch
    method PrintfPut(ch: char)
      requires Valid() && callback == PrintfPutch
      modifies Repr
      ensures Valid() && log == old(log) + [ch]
    {
      buf[idx] := ch;
      idx := idx + 1;
      log := log + [ch];
      if idx == PRINTBUF_SIZE - 1 {
        Flush();
        idx := 0;
      }
      cnt := cnt + 1;
    }

    method Putch(ch: char)
      requires Valid()
      modifies Repr
      ensures Valid() && log == old(log) + [ch]
    {
      match callback
      case SprintPutch => SprintPut(ch);
      case PrintfPutch => PrintfPut(ch);
    }
  }
}
