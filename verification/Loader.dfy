/**
 loadimg and bootstrap_func of user/shell.c on a flat memory: an image arrives over the
 serial line, is checked, and is copied to its address by code that has moved out of the way.
 */
module Loader {
  import opened Crc
  import opened Slices

  // ---- the uploader's numbers ----

  // getuint32_be's shifts and sums.
  function FromBytes(b: seq<Octet>): bv32
    requires |b| == 4
  {
    ((((((b[0] as bv32) << 8) + (b[1] as bv32)) << 8) + (b[2] as bv32)) << 8) + (b[3] as bv32)
  }

  // to_bytes(4, byteorder='big')
  function ToBytes(n: bv32): (b: seq<Octet>)
    ensures |b| == 4
  {
    [(n >> 24) as Octet, ((n >> 16) & 0xFF) as Octet, ((n >> 8) & 0xFF) as Octet, (n & 0xFF) as Octet]
  }

  lemma BigEndianRoundTrip(n: bv32)
    ensures FromBytes(ToBytes(n)) == n
  {
  }

  // The byte sent first is the highest.
  lemma BigEndianBytes(b: seq<Octet>)
    requires |b| == 4
    ensures (FromBytes(b) >> 24) & 0xFF == b[0] as bv32 && (FromBytes(b) >> 16) & 0xFF == b[1] as bv32
    ensures (FromBytes(b) >> 8) & 0xFF == b[2] as bv32 && FromBytes(b) & 0xFF == b[3] as bv32
  {
  }

  // ---- addresses ----

  // ROUNDUP
  function RoundUp(a: nat, n: nat): nat
    requires n > 0
  {
    a + n - 1 - (a + n - 1) % n
  }

  // Where loadimg puts things: the image's address and size, the temporary image, the
  // relocated bootstrap code and the top of its stack.
  datatype Layout = Layout(image: nat, size: nat, tmp: nat, boot: nat, bootSize: nat, stackTop: nat)

  function LayoutOf(image: nat, size: nat, kernelEnd: nat, bootSize: nat): Layout {
    var tmp := if kernelEnd >= image + size then kernelEnd else image + size;
    var boot := RoundUp(tmp + size, 8);
    Layout(image, size, tmp, boot, bootSize, RoundUp(boot + bootSize + 4096, 16))
  }

  // The bytes the word copy writes run into the relocated code.
  predicate Overrun(l: Layout) {
    l.size > 0 && l.image + RoundUp(l.size, 8) > l.boot
  }

  lemma RoundUp8(a: nat)
    ensures a <= RoundUp(a, 8) <= a + 7 && RoundUp(a, 8) % 8 == 0
  {
  }

  lemma RoundUp16(a: nat)
    ensures a <= RoundUp(a, 16) <= a + 15 && RoundUp(a, 16) % 16 == 0
  {
  }

  // With 32-bit parameters no address wraps, and the parts lie one behind the other without more
  // room than alignment asks for: the temporary image behind kernel and image, the code, and at
  // least 4096 bytes for the stack.
  lemma LayoutFits(image: nat, size: nat, kernelEnd: nat, bootSize: nat)
    requires image < 0x1_0000_0000 && size < 0x1_0000_0000
    requires kernelEnd < 0x1_0000_0000 && bootSize < 0x1_0000_0000
    ensures var l := LayoutOf(image, size, kernelEnd, bootSize);
            l.image == image && l.size == size && l.bootSize == bootSize &&
            image + size <= l.tmp && kernelEnd <= l.tmp && l.tmp in {image + size, kernelEnd} &&
            l.tmp + size <= l.boot < l.tmp + size + 8 && l.boot % 8 == 0 &&
            l.boot + bootSize + 4096 <= l.stackTop < l.boot + bootSize + 4096 + 16 && l.stackTop % 16 == 0 &&
            l.stackTop < 0x5_0000_0000
  {
    hide RoundUp;
    var l := LayoutOf(image, size, kernelEnd, bootSize);
    RoundUp8(l.tmp + size);
    RoundUp16(l.boot + bootSize + 4096);
  }

  // A multiple of 8 above another is at least 8 above it.
  lemma MultiplesOf8(a: nat, b: nat)
    requires a % 8 == 0 && b % 8 == 0
    ensures a > b ==> a >= b + 8
    ensures a < b ==> a + 8 <= b
  {
  }

  // The word copy overruns into the code exactly when an unaligned image so small that its
  // temporary copy ends in the aligned word it starts in is loaded behind the kernel. Images
  // at 8-aligned addresses are safe whatever their size.
  lemma OverrunExactly(image: nat, size: nat, kernelEnd: nat, bootSize: nat)
    ensures var l := LayoutOf(image, size, kernelEnd, bootSize);
            Overrun(l) <==> size > 0 && image % 8 != 0 && l.tmp + size <= image - image % 8 + 8
  {
    hide RoundUp;
    var l := LayoutOf(image, size, kernelEnd, bootSize);
    RoundUp8(size);
    RoundUp8(l.tmp + size);
    MultiplesOf8(l.boot, image - image % 8);
    MultiplesOf8(l.boot, image - image % 8 + 8);
    MultiplesOf8(RoundUp(size, 8), 8);
  }

  lemma WholeWords(size: nat)
    ensures RoundUp(size, 8) / 8 * 8 == RoundUp(size, 8)
  {
    RoundUp8(size);
  }

  // Such an image: one byte for the odd address just behind the kernel.
  lemma OverrunHappens(kernelEnd: nat, bootSize: nat)
    requires kernelEnd % 8 == 0
    ensures Overrun(LayoutOf(kernelEnd + 1, 1, kernelEnd, bootSize))
  {
  }

  // ---- the word copy ----

  // *(uint64_t *)d = *(uint64_t *)s
  method CopyWord(mem: array<Octet>, d: nat, s: nat)
    requires d + 8 <= mem.Length && s + 8 <= mem.Length
    modifies mem
    ensures mem[..] == old(mem[..d]) + old(mem[s..s + 8]) + old(mem[d + 8..])
  {
    var w := mem[s..s + 8];
    for i := 0 to 8
      invariant forall j :: d <= j < d + i ==> mem[j] == w[j - d]
      invariant forall j :: 0 <= j < d || d + i <= j < mem.Length ==> mem[j] == old(mem[j])
    {
      mem[d + i] := w[i];
    }
  }

  // The first k bytes have been copied up from tmp.
  ghost predicate Copied(now: seq<Octet>, was: seq<Octet>, image: nat, tmp: nat, k: nat) {
    image <= tmp && tmp + k <= |was| && now == was[..image] + was[tmp..tmp + k] + was[image + k..]
  }

  lemma CopiedMore(now: seq<Octet>, was: seq<Octet>, image: nat, tmp: nat, k: nat)
    requires Copied(now, was, image, tmp, k) && tmp + k + 8 <= |was|
    ensures |now| == |was| && image <= tmp
    ensures Copied(now[..image + k] + now[tmp + k..tmp + k + 8] + now[image + k + 8..], was, image, tmp, k + 8)
  {
  }

  method CopyNextWord(mem: array<Octet>, image: nat, tmp: nat, k: nat, ghost was: seq<Octet>)
    requires Copied(mem[..], was, image, tmp, k) && tmp + k + 8 <= |was|
    modifies mem
    ensures Copied(mem[..], was, image, tmp, k + 8)
  {
    hide Copied;
    CopiedMore(mem[..], was, image, tmp, k);
    CopyWord(mem, image + k, tmp + k);
  }

  lemma CopiedNone(was: seq<Octet>, image: nat, tmp: nat)
    requires image <= tmp <= |was|
    ensures Copied(was, was, image, tmp, 0)
  {
  }

  method CopyNWords(mem: array<Octet>, image: nat, n: nat, tmp: nat)
    requires image <= tmp && tmp + n * 8 <= mem.Length
    modifies mem
    ensures Copied(mem[..], old(mem[..]), image, tmp, n * 8)
  {
    hide Copied;
    ghost var was := mem[..];
    CopiedNone(was, image, tmp);
    var i := 0;
    while i < n
      invariant 0 <= i <= n
      invariant Copied(mem[..], was, image, tmp, i * 8)
    {
      CopyNextWord(mem, image, tmp, i * 8, was);
      i := i + 1;
    }
  }

  lemma CopiedAll(now: seq<Octet>, was: seq<Octet>, image: nat, tmp: nat, k: nat)
    requires Copied(now, was, image, tmp, k)
    ensures |now| == |was| && now[image..image + k] == was[tmp..tmp + k]
    ensures now[..image] == was[..image] && now[image + k..] == was[image + k..]
  {
  }

  // bootstrap_func's loop. The source lies above the destination, so the ascending copy
  // writes no byte of a word it has still to read, even where the two overlap.
  method CopyWords(mem: array<Octet>, image: nat, size: nat, tmp: nat)
    requires image <= tmp && tmp + RoundUp(size, 8) <= mem.Length
    modifies mem
    ensures mem[image..image + RoundUp(size, 8)] == old(mem[tmp..tmp + RoundUp(size, 8)])
    ensures mem[..image] == old(mem[..image])
    ensures mem[image + RoundUp(size, 8)..] == old(mem[image + RoundUp(size, 8)..])
  {
    hide RoundUp, Copied;
    ghost var was := mem[..];
    WholeWords(size);
    CopyNWords(mem, image, RoundUp(size, 8) / 8, tmp);
    CopiedAll(mem[..], was, image, tmp, RoundUp(size, 8));
  }

  // ---- the serial line ----

  // The first k bytes of the input are at the given address, the rest of memory is as before.
  ghost predicate Delivered(now: seq<Octet>, was: seq<Octet>, at: nat, input: seq<Octet>, k: nat) {
    at + k <= |was| && k <= |input| && now == was[..at] + input[..k] + was[at + k..]
  }

  lemma DeliveredNone(was: seq<Octet>, at: nat, input: seq<Octet>)
    requires at <= |was|
    ensures Delivered(was, was, at, input, 0)
  {
  }

  lemma DeliveredMore(now: seq<Octet>, was: seq<Octet>, at: nat, input: seq<Octet>, k: nat, n: nat)
    requires Delivered(now, was, at, input, k) && at + k + n <= |was| && k + n <= |input|
    ensures |now| == |was| && input[k..][n..] == input[k + n..]
    ensures Delivered(now[..at + k] + input[k..][..n] + now[at + k + n..], was, at, input, k + n)
  {
  }

  lemma DeliveredAll(now: seq<Octet>, was: seq<Octet>, at: nat, input: seq<Octet>, k: nat)
    requires Delivered(now, was, at, input, k)
    ensures at + k <= |was| && k <= |input| && now == was[..at] + input[..k] + was[at + k..]
  {
  }

  // pl011_uart_read on a line that delivers input; plan is an arbitrary finite pattern of
  // partial results, after which every read gets what it asks for.
  class Serial {
    var input: seq<Octet>
    var plan: seq<nat>

    constructor (input: seq<Octet>, plan: seq<nat>)
      ensures this.input == input && this.plan == plan
    {
      this.input := input;
      this.plan := plan;
    }

    method Read(mem: array<Octet>, at: nat, count: nat) returns (n: nat)
      requires at + count <= mem.Length && count <= |input|
      modifies this, mem
      ensures n <= count && input == old(input)[n..]
      ensures mem[..] == old(mem[..at]) + old(input)[..n] + old(mem[at + n..])
      ensures |plan| < |old(plan)| || (plan == old(plan) == [] && n == count)
    {
      n := count;
      if plan != [] {
        n := if plan[0] <= count then plan[0] else count;
        plan := plan[1..];
      }
      for i := 0 to n
        modifies mem
        invariant forall j :: at <= j < at + i ==> mem[j] == input[j - at]
        invariant forall j :: 0 <= j < at || at + i <= j < mem.Length ==> mem[j] == old(mem[j])
      {
        mem[at + i] := input[i];
      }
      input := input[n..];
    }

    // The loops that read until count bytes have arrived.
    method ReadAll(mem: array<Octet>, at: nat, count: nat)
      requires at + count <= mem.Length && count <= |input|
      modifies this, mem
      ensures input == old(input)[count..]
      ensures mem[..] == old(mem[..at]) + old(input)[..count] + old(mem[at + count..])
    {
      hide Delivered;
      ghost var start, was := input, mem[..];
      var nread := 0;
      DeliveredNone(was, at, start);
      while nread < count
        invariant 0 <= nread <= count && input == start[nread..]
        invariant Delivered(mem[..], was, at, start, nread)
        decreases |plan|, count - nread
      {
        ghost var now := mem[..];
        var n := Read(mem, at + nread, count - nread);
        DeliveredMore(now, was, at, start, nread, n);
        nread := nread + n;
      }
      DeliveredAll(mem[..], was, at, start, count);
    }

    method GetUint32BE() returns (w: bv32)
      requires |input| >= 4
      modifies this
      ensures w == FromBytes(old(input)[..4]) && input == old(input)[4..]
    {
      var buf := new Octet[4](_ => 0);
      ReadAll(buf, 0, 4);
      assert buf[..] == old(input)[..4];
      w := 0;
      w := (w << 8) + (buf[0] as bv32);
      w := (w << 8) + (buf[1] as bv32);
      w := (w << 8) + (buf[2] as bv32);
      w := (w << 8) + (buf[3] as bv32);
    }
  }

  // ---- loadimg ----

  // The memory behind the relocation of the bootstrap code and before the jump into it.
  ghost predicate Staged(now: seq<Octet>, was: seq<Octet>, l: Layout, bootStart: nat, image: seq<Octet>) {
    |now| == |was| && |image| == l.size && l.tmp + l.size <= l.boot && l.boot + l.bootSize <= |now| &&
    bootStart + l.bootSize <= |was| &&
    now[l.tmp..l.tmp + l.size] == image &&
    now[l.boot..l.boot + l.bootSize] == was[bootStart..bootStart + l.bootSize] &&
    now[l.boot + l.bootSize..] == was[l.boot + l.bootSize..]
  }

  // The loop that moves the bootstrap code.
  method MoveBootstrap(mem: array<Octet>, boot: nat, bootStart: nat, bootSize: nat)
    requires bootStart + bootSize <= boot && boot + bootSize <= mem.Length
    modifies mem
    ensures mem[..] == old(mem[..boot]) + old(mem[bootStart..bootStart + bootSize]) + old(mem[boot + bootSize..])
  {
    ghost var was := mem[..];
    var i := 0;
    while i < bootSize
      invariant 0 <= i <= bootSize
      invariant forall j :: boot <= j < boot + i ==> mem[j] == was[bootStart + (j - boot)]
      invariant forall j :: 0 <= j < boot || boot + i <= j < mem.Length ==> mem[j] == was[j]
    {
      mem[boot + i] := mem[bootStart + i];
      i := i + 1;
    }
  }

  // What the uploader sends: size, address and checksum, four bytes each, then the image.
  function SizeOf(input: seq<Octet>): nat
    requires |input| >= 12
  {
    FromBytes(input[..4]) as nat
  }

  function AddressOf(input: seq<Octet>): nat
    requires |input| >= 12
  {
    FromBytes(input[4..8]) as nat
  }

  predicate Complete(input: seq<Octet>) {
    |input| >= 12 && |input| >= 12 + SizeOf(input)
  }

  function ImageOf(input: seq<Octet>): (image: seq<Octet>)
    requires Complete(input)
    ensures |image| == SizeOf(input)
  {
    input[12..12 + SizeOf(input)]
  }

  predicate Matches(sum: bv32, image: seq<Octet>) {
    sum as bv64 == Crc32Of(0, image)
  }

  // The checksum sent is the CRC-32 of the image sent.
  predicate ChecksumGood(input: seq<Octet>)
    requires Complete(input)
  {
    Matches(FromBytes(input[8..12]), ImageOf(input))
  }

  function LayoutFor(input: seq<Octet>, kernelEnd: nat, bootSize: nat): Layout
    requires |input| >= 12
  {
    LayoutOf(AddressOf(input), SizeOf(input), kernelEnd, bootSize)
  }

  lemma HeaderSlices(input: seq<Octet>)
    requires |input| >= 12
    ensures input[4..][..4] == input[4..8] && input[4..][4..][..4] == input[8..12]
    ensures input[4..][4..][4..] == input[12..]
  {
  }

  method ReadHeader(serial: Serial, kernelEnd: nat, bootSize: nat) returns (l: Layout, sum: bv32)
    requires |serial.input| >= 12
    modifies serial
    ensures var input := old(serial.input);
            l == LayoutFor(input, kernelEnd, bootSize) && sum == FromBytes(input[8..12]) && serial.input == input[12..]
  {
    hide FromBytes, LayoutOf;
    HeaderSlices(serial.input);
    var sizeWord := serial.GetUint32BE();
    var addrWord := serial.GetUint32BE();
    sum := serial.GetUint32BE();
    l := LayoutOf(addrWord as nat, sizeWord as nat, kernelEnd, bootSize);
  }

  lemma DataSlice(input: seq<Octet>, size: nat)
    requires |input| >= 12 + size
    ensures input[12..][..size] == input[12..12 + size]
  {
  }

  lemma IsStaged(now: seq<Octet>, received: seq<Octet>, was: seq<Octet>, l: Layout, bootStart: nat, data: seq<Octet>)
    requires |data| == l.size && bootStart + l.bootSize <= l.tmp && l.tmp + l.size <= l.boot
    requires l.boot + l.bootSize <= |was|
    requires received == was[..l.tmp] + data + was[l.tmp + l.size..]
    requires |received| == |was|
    requires now == received[..l.boot] + received[bootStart..bootStart + l.bootSize] + received[l.boot + l.bootSize..]
    ensures Staged(now, was, l, bootStart, data)
    ensures now[..l.tmp] == was[..l.tmp]
  {
    assert received[l.tmp..l.tmp + l.size] == data;
    assert received[0..l.tmp] == was[0..l.tmp] && now[0..l.boot] == received[0..l.boot];
    Agree(received, was, 0, l.tmp, bootStart, bootStart + l.bootSize);
    Agree(now, received, 0, l.boot, l.tmp, l.tmp + l.size);
    Agree(now, received, 0, l.boot, 0, l.tmp);
    assert now[0..l.tmp] == was[0..l.tmp];
  }

  lemma Middle(a: seq<Octet>, b: seq<Octet>, c: seq<Octet>)
    ensures (a + b + c)[|a|..|a| + |b|] == b && (a + b + c)[..|a|] == a
  {
  }

  // crc32(0, ...) == input_checksum
  method CheckSum(mem: array<Octet>, at: nat, size: nat, sum: bv32) returns (ok: bool)
    requires at + size <= mem.Length
    ensures ok <==> Matches(sum, mem[at..at + size])
  {
    hide Crc32Of;
    var checksum := Crc32(0, mem, at, size);
    ok := sum as bv64 == checksum;
  }

  method ReceiveImage(mem: array<Octet>, serial: Serial, l: Layout, sum: bv32, bootStart: nat, ghost data: seq<Octet>)
    returns (ok: bool)
    requires l.size <= |serial.input| && data == serial.input[..l.size]
    requires l.tmp + l.size <= l.boot && l.boot + l.bootSize <= mem.Length
    requires bootStart + l.bootSize <= l.tmp
    modifies mem, serial
    ensures ok <==> Matches(sum, data)
    ensures mem[..l.tmp] == old(mem[..l.tmp])
    ensures ok ==> Staged(mem[..], old(mem[..]), l, bootStart, data)
  {
    hide Crc32Of, Staged, Matches;
    ghost var was := mem[..];
    serial.ReadAll(mem, l.tmp, l.size);
    ghost var received := mem[..];
    Middle(was[..l.tmp], data, was[l.tmp + l.size..]);
    ok := CheckSum(mem, l.tmp, l.size, sum);
    if ok {
      MoveBootstrap(mem, l.boot, bootStart, l.bootSize);
      IsStaged(mem[..], received, was, l, bootStart, data);
    }
  }

  lemma LayoutOrder(image: nat, size: nat, kernelEnd: nat, bootSize: nat)
    ensures var l := LayoutOf(image, size, kernelEnd, bootSize);
            l.image == image && l.size == size && l.bootSize == bootSize && kernelEnd <= l.tmp &&
            image + size <= l.tmp && l.tmp + size <= l.boot && l.boot + bootSize <= l.stackTop
  {
  }

  // loadimg up to the jump. It goes on to the jump exactly when the checksum is good.
  method LoadImage(mem: array<Octet>, serial: Serial, kernelEnd: nat, bootStart: nat, bootSize: nat)
    returns (ok: bool, l: Layout)
    requires Complete(serial.input) && bootStart + bootSize <= kernelEnd
    requires LayoutFor(serial.input, kernelEnd, bootSize).stackTop <= mem.Length
    modifies mem, serial
    ensures l == LayoutFor(old(serial.input), kernelEnd, bootSize) && l.tmp <= mem.Length
    ensures ok <==> ChecksumGood(old(serial.input))
    ensures mem[..l.tmp] == old(mem[..l.tmp])
    ensures ok ==> Staged(mem[..], old(mem[..]), l, bootStart, ImageOf(old(serial.input)))
  {
    hide Matches, FromBytes, LayoutOf, RoundUp, Staged;
    ghost var input := serial.input;
    LayoutOrder(AddressOf(input), SizeOf(input), kernelEnd, bootSize);
    DataSlice(input, SizeOf(input));
    var sum;
    l, sum := ReadHeader(serial, kernelEnd, bootSize);
    ok := ReceiveImage(mem, serial, l, sum, bootStart, ImageOf(input));
  }

  // The memory when the image is started.
  ghost predicate Loaded(now: seq<Octet>, was: seq<Octet>, l: Layout, bootStart: nat, image: seq<Octet>) {
    |now| == |was| && |image| == l.size && l.image + l.size <= |now| &&
    l.boot + l.bootSize <= |now| && bootStart + l.bootSize <= |was| &&
    now[l.image..l.image + l.size] == image &&
    (!Overrun(l) ==>
       now[l.boot..l.boot + l.bootSize] == was[bootStart..bootStart + l.bootSize] &&
       now[l.boot + l.bootSize..] == was[l.boot + l.bootSize..])
  }

  lemma CopiedImage(now: seq<Octet>, staged: seq<Octet>, image: nat, tmp: nat, n: nat, size: nat)
    requires |now| == |staged| && image <= tmp && tmp + n <= |now| && size <= n
    requires now[image..image + n] == staged[tmp..tmp + n]
    ensures now[image..image + size] == staged[tmp..tmp + size]
  {
    Subslice(now, image, image + n, image, image + size);
    Subslice(staged, tmp, tmp + n, tmp, tmp + size);
  }

  lemma RestBehindCopy(now: seq<Octet>, staged: seq<Octet>, e: nat, a: nat)
    requires |now| == |staged| && e <= a <= |now| && now[e..] == staged[e..]
    ensures now[a..] == staged[a..]
  {
  }

  lemma BehindCopy(now: seq<Octet>, staged: seq<Octet>, e: nat, a: nat, b: nat)
    requires |now| == |staged| && e <= a <= b <= |now| && now[e..] == staged[e..]
    ensures now[a..b] == staged[a..b]
  {
  }

  lemma RoundUpZero()
    ensures RoundUp(0, 8) == 0
  {
  }

  lemma AfterCopy(now: seq<Octet>, staged: seq<Octet>, was: seq<Octet>, l: Layout, bootStart: nat, data: seq<Octet>)
    requires |now| == |staged| && l.image <= l.tmp && l.tmp + RoundUp(l.size, 8) <= |now|
    requires Staged(staged, was, l, bootStart, data)
    requires now[l.image..l.image + RoundUp(l.size, 8)] == staged[l.tmp..l.tmp + RoundUp(l.size, 8)]
    requires now[l.image + RoundUp(l.size, 8)..] == staged[l.image + RoundUp(l.size, 8)..]
    ensures Loaded(now, was, l, bootStart, data)
  {
    RoundUp8(l.size);
    hide RoundUp;
    var n := RoundUp(l.size, 8);
    CopiedImage(now, staged, l.image, l.tmp, n, l.size);
    if !Overrun(l) {
      RoundUpZero();
      BehindCopy(now, staged, l.image + n, l.boot, l.boot + l.bootSize);
      RestBehindCopy(now, staged, l.image + n, l.boot + l.bootSize);
    }
  }

  // bootstrap_func on a staged memory.
  method RunBootstrap(mem: array<Octet>, l: Layout, ghost was: seq<Octet>, ghost bootStart: nat, ghost data: seq<Octet>)
    requires l.image <= l.tmp && l.tmp + RoundUp(l.size, 8) <= mem.Length
    requires Staged(mem[..], was, l, bootStart, data)
    modifies mem
    ensures Loaded(mem[..], was, l, bootStart, data)
  {
    hide RoundUp, Staged, Overrun, Loaded;
    ghost var staged := mem[..];
    CopyWords(mem, l.image, l.size, l.tmp);
    AfterCopy(mem[..], staged, was, l, bootStart, data);
  }

  // The rounded-up copy stays below the stack's top.
  lemma LayoutRoom(image: nat, size: nat, kernelEnd: nat, bootSize: nat)
    ensures var l := LayoutOf(image, size, kernelEnd, bootSize);
            l.tmp + RoundUp(size, 8) <= l.stackTop && size <= RoundUp(size, 8)
  {
  }

  // The whole of loadimg. On a good checksum the bytes that arrived are at the image's
  // address; unless the layout overruns, the relocated code is as it was in the kernel and
  // the memory behind it, where its stack is, has not been written.
  method LoadAndCopy(mem: array<Octet>, serial: Serial, kernelEnd: nat, bootStart: nat, bootSize: nat)
    returns (ok: bool, l: Layout)
    requires Complete(serial.input) && bootStart + bootSize <= kernelEnd
    requires LayoutFor(serial.input, kernelEnd, bootSize).stackTop <= mem.Length
    modifies mem, serial
    ensures l == LayoutFor(old(serial.input), kernelEnd, bootSize)
    ensures ok <==> ChecksumGood(old(serial.input))
    ensures if ok then Loaded(mem[..], old(mem[..]), l, bootStart, ImageOf(old(serial.input)))
            else l.tmp <= mem.Length && mem[..l.tmp] == old(mem[..l.tmp])
  {
    hide ChecksumGood, LayoutOf, RoundUp, Staged, Overrun, Loaded, ImageOf;
    ghost var was, input := mem[..], serial.input;
    LayoutOrder(AddressOf(input), SizeOf(input), kernelEnd, bootSize);
    LayoutRoom(AddressOf(input), SizeOf(input), kernelEnd, bootSize);
    ok, l := LoadImage(mem, serial, kernelEnd, bootStart, bootSize);
    if ok {
      RunBootstrap(mem, l, was, bootStart, ImageOf(input));
    }
  }

  // ---- from the uploader to the loader ----

  // What the uploader sends: a length, an address and a checksum, then the bytes of an image.
  function Message(size: bv32, addr: bv32, sum: bv32, image: seq<Octet>): (message: seq<Octet>) {
    ToBytes(size) + ToBytes(addr) + ToBytes(sum) + image
  }

  lemma FourParts(a: seq<Octet>, b: seq<Octet>, c: seq<Octet>, image: seq<Octet>, rest: seq<Octet>)
    requires |a| == |b| == |c| == 4
    ensures var m := a + b + c + image + rest;
            m[..4] == a && m[4..8] == b && m[8..12] == c && m[12..12 + |image|] == image
  {
  }

  lemma MessageParts(size: bv32, addr: bv32, sum: bv32, image: seq<Octet>, rest: seq<Octet>)
    ensures var m := Message(size, addr, sum, image) + rest;
            |m| == 12 + |image| + |rest| && m[..4] == ToBytes(size) && m[4..8] == ToBytes(addr) &&
            m[8..12] == ToBytes(sum) && m[12..12 + |image|] == image
  {
    hide ToBytes;
    FourParts(ToBytes(size), ToBytes(addr), ToBytes(sum), image, rest);
  }

  lemma ChecksumIs(image: seq<Octet>)
    ensures Checksum(image) as bv64 == Crc32Of(0, image)
  {
    hide Crc32Of;
  }

  lemma WidenedEqual(a: bv32, b: bv32)
    requires a as bv64 == b as bv64
    ensures a == b
  {
  }

  lemma SameWord(a: bv32, b: bv32, c: bv64)
    requires b as bv64 == c
    ensures a as bv64 == c <==> a == b
  {
    if a as bv64 == c {
      WidenedEqual(a, b);
    }
  }

  lemma MatchesChecksum(sum: bv32, image: seq<Octet>)
    ensures Matches(sum, image) <==> sum == Checksum(image)
  {
    hide Crc32Of, Checksum;
    ChecksumIs(image);
    SameWord(sum, Checksum(image), Crc32Of(0, image));
  }

  // The loader takes a message apart as the uploader has put it together, whatever follows it.
  lemma MessageRead(size: bv32, addr: bv32, sum: bv32, image: seq<Octet>, rest: seq<Octet>)
    requires |image| == size as nat
    ensures var m := Message(size, addr, sum, image) + rest;
            Complete(m) && SizeOf(m) == |image| && AddressOf(m) == addr as nat && ImageOf(m) == image &&
            (ChecksumGood(m) <==> sum == Checksum(image))
  {
    hide FromBytes, ToBytes, Checksum, Message, Crc32Of;
    MessageParts(size, addr, sum, image, rest);
    BigEndianRoundTrip(size);
    BigEndianRoundTrip(addr);
    BigEndianRoundTrip(sum);
    MatchesChecksum(sum, image);
  }

  lemma LoadedImage(now: seq<Octet>, was: seq<Octet>, l: Layout, bootStart: nat, image: seq<Octet>)
    requires Loaded(now, was, l, bootStart, image)
    ensures l.image + |image| <= |now| && now[l.image..l.image + |image|] == image
  {
  }

  lemma KeptBelow(now: seq<Octet>, was: seq<Octet>, tmp: nat, at: nat, n: nat)
    requires |now| == |was| && at + n <= tmp <= |now| && now[..tmp] == was[..tmp]
    ensures now[at..at + n] == was[at..at + n]
  {
    Agree(now, was, 0, tmp, at, at + n);
  }

  // Loading from a line whose input is made up of these parts.
  method LoadParts(mem: array<Octet>, serial: Serial, at: nat, ghost image: seq<Octet>,
                   kernelEnd: nat, bootStart: nat, bootSize: nat) returns (ok: bool)
    requires Complete(serial.input) && bootStart + bootSize <= kernelEnd
    requires SizeOf(serial.input) == |image| && AddressOf(serial.input) == at && ImageOf(serial.input) == image
    requires LayoutOf(at, |image|, kernelEnd, bootSize).stackTop <= mem.Length
    modifies mem, serial
    ensures at + |image| <= mem.Length && (ok <==> ChecksumGood(old(serial.input)))
    ensures mem[at..at + |image|] == if ok then image else old(mem[at..at + |image|])
  {
    hide LayoutOf, ChecksumGood, Overrun, Loaded, SizeOf, AddressOf, ImageOf, Complete;
    ghost var was := mem[..];
    LayoutOrder(at, |image|, kernelEnd, bootSize);
    var l;
    ok, l := LoadAndCopy(mem, serial, kernelEnd, bootStart, bootSize);
    if ok {
      LoadedImage(mem[..], was, l, bootStart, image);
    } else {
      KeptBelow(mem[..], was, l.tmp, at, |image|);
    }
  }

  // The uploader on one end of the line and loadimg on the other: whatever partial reads there
  // are and whatever follows the image, it ends up at the address it was sent for exactly when the
  // checksum sent with it is its CRC-32.
  method UploadAndLoad(mem: array<Octet>, size: bv32, addr: bv32, sum: bv32, image: seq<Octet>, rest: seq<Octet>,
                       plan: seq<nat>, kernelEnd: nat, bootStart: nat, bootSize: nat) returns (ok: bool)
    requires |image| == size as nat && bootStart + bootSize <= kernelEnd
    requires LayoutOf(addr as nat, |image|, kernelEnd, bootSize).stackTop <= mem.Length
    modifies mem
    ensures addr as nat + |image| <= mem.Length && (ok <==> sum == Checksum(image))
    ensures mem[addr as nat..addr as nat + |image|] ==
            if ok then image else old(mem[addr as nat..addr as nat + |image|])
  {
    hide LayoutOf, ChecksumGood, Message, Checksum, SizeOf, AddressOf, ImageOf, Complete;
    MessageRead(size, addr, sum, image, rest);
    var serial := new Serial(Message(size, addr, sum, image) + rest, plan);
    ok := LoadParts(mem, serial, addr as nat, image, kernelEnd, bootStart, bootSize);
  }
}
