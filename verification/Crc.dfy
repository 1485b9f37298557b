/**
 The crc32 of user/shell.c: eight, four, two and one bytes at a time with the processor's
 CRC instructions, against the byte-at-a-time CRC-32 of section 8 of RFC 1952.
 */
module Crc {
  type Octet = bv8

  const MASK32: bv64 := 0xFFFF_FFFF

  function Xor(a: bv64, b: bv64): bv64 {
    a ^ b
  }

  function Wide(b: Octet): bv64 {
    b as bv64
  }

  function Up8(h: bv64): bv64 {
    h << 8
  }

  function Down8(h: bv64): bv64 {
    h >> 8
  }

  function Low8(h: bv64): bv64 {
    h & 0xFF
  }

  // One step of division by the polynomial 0xEDB88320, least significant bit first.
  function Bit(r: bv64): bv64 {
    if r & 1 == 1 then (r >> 1) ^ 0xEDB88320 else r >> 1
  }

  function Bits(r: bv64, n: nat): bv64
    decreases n
  {
    if n == 0 then r else Bits(Bit(r), n - 1)
  }

  // A little-endian load.
  function Load(p: seq<Octet>): bv64
    decreases |p|
  {
    if p == [] then 0 else Xor(Wide(p[0]), Up8(Load(p[1..])))
  }

  // crc32b, crc32h, crc32w and crc32x on |p| bytes of data.
  function Instruction(crc: bv64, p: seq<Octet>): bv64 {
    Bits(Xor(crc, Load(p)), 8 * |p|)
  }

  // ---- RFC 1952, section 8 ----

  function Table(n: bv64): bv64 {
    Bits(n, 8)
  }

  function UpdateByte(c: bv64, b: Octet): bv64 {
    Xor(Table(Low8(Xor(c, Wide(b)))), Down8(c))
  }

  function UpdateAll(c: bv64, p: seq<Octet>): bv64 {
    if p == [] then c else UpdateByte(UpdateAll(c, p[..|p| - 1]), p[|p| - 1])
  }

  // update_crc(crc, p)
  function Crc32Of(crc: bv64, p: seq<Octet>): bv64 {
    Xor(UpdateAll(Xor(crc, MASK32), p), MASK32)
  }

  // ---- the steps are linear ----

  lemma OddOdd(a: bv64, b: bv64)
    requires a & 1 == 1 && b & 1 == 1
    ensures Bit(a ^ b) == Bit(a) ^ Bit(b)
  {
  }

  lemma OddEven(a: bv64, b: bv64)
    requires a & 1 == 1 && b & 1 != 1
    ensures Bit(a ^ b) == Bit(a) ^ Bit(b)
  {
  }

  lemma EvenOdd(a: bv64, b: bv64)
    requires a & 1 != 1 && b & 1 == 1
    ensures Bit(a ^ b) == Bit(a) ^ Bit(b)
  {
  }

  lemma EvenEven(a: bv64, b: bv64)
    requires a & 1 != 1 && b & 1 != 1
    ensures Bit(a ^ b) == Bit(a) ^ Bit(b)
  {
  }

  lemma BitLinear(a: bv64, b: bv64)
    ensures Bit(Xor(a, b)) == Xor(Bit(a), Bit(b))
  {
    hide Bit;
    if a & 1 == 1 {
      if b & 1 == 1 {
        OddOdd(a, b);
      } else {
        OddEven(a, b);
      }
    } else if b & 1 == 1 {
      EvenOdd(a, b);
    } else {
      EvenEven(a, b);
    }
  }

  lemma {:induction false} BitsLinear(a: bv64, b: bv64, n: nat)
    ensures Bits(Xor(a, b), n) == Xor(Bits(a, n), Bits(b, n))
    decreases n
  {
    hide Bit, Xor;
    if n == 0 {
    } else {
      BitLinear(a, b);
      BitsLinear(Bit(a), Bit(b), n - 1);
    }
  }

  lemma {:induction false} BitsAdd(r: bv64, m: nat, n: nat)
    ensures Bits(r, m + n) == Bits(Bits(r, m), n)
    decreases m
  {
    hide Bit;
    if m == 0 {
    } else {
      BitsAdd(Bit(r), m - 1, n);
    }
  }

  // ---- a word whose low bits are zero is shifted down ----

  predicate Small(h: bv64) {
    h <= 0xFF_FFFF_FFFF_FFFF
  }

  lemma BitsOfShifted(h: bv64)
    requires Small(h)
    ensures Bits(Up8(h), 8) == h
  {
  }

  // ---- wide steps are byte steps ----

  // Eight steps consume the low byte and leave the rest for the steps after them.
  lemma EightSteps(x: bv64, rest: bv64)
    requires Small(rest)
    ensures Bits(Xor(x, Up8(rest)), 8) == Xor(Bits(x, 8), rest)
  {
    hide Bits, Xor, Up8, Small;
    BitsLinear(x, Up8(rest), 8);
    BitsOfShifted(rest);
  }

  lemma SplitLow(c: bv64, b: Octet)
    ensures Small(Down8(c))
    ensures Xor(Low8(Xor(c, Wide(b))), Up8(Down8(c))) == Xor(c, Wide(b))
  {
  }

  // RFC 1952's table step is eight bit steps.
  lemma UpdateIsBits(c: bv64, b: Octet)
    ensures UpdateByte(c, b) == Bits(Xor(c, Wide(b)), 8)
  {
    hide Bits, Xor, Up8, Small, Low8, Wide, Down8;
    SplitLow(c, b);
    EightSteps(Low8(Xor(c, Wide(b))), Down8(c));
  }

  // A load of n bytes fills at most n bytes.
  predicate Fits(h: bv64, n: nat) {
    match n
    case 0 => h == 0
    case 1 => h <= 0xFF
    case 2 => h <= 0xFFFF
    case 3 => h <= 0xFF_FFFF
    case 4 => h <= 0xFFFF_FFFF
    case 5 => h <= 0xFF_FFFF_FFFF
    case 6 => h <= 0xFFFF_FFFF_FFFF
    case _ => h <= 0xFF_FFFF_FFFF_FFFF
  }

  lemma FitsOneMore(h: bv64, b: Octet, n: nat)
    requires n < 7 && Fits(h, n)
    ensures Fits(Xor(Wide(b), Up8(h)), n + 1)
  {
  }

  lemma {:induction false} LoadFits(p: seq<Octet>)
    requires |p| <= 7
    ensures Fits(Load(p), |p|)
    decreases |p|
  {
    hide Xor, Wide, Up8;
    if p == [] {
    } else {
      LoadFits(p[1..]);
      FitsOneMore(Load(p[1..]), p[0], |p| - 1);
    }
  }

  lemma FitsSmall(h: bv64, n: nat)
    requires n <= 7 && Fits(h, n)
    ensures Small(h)
  {
  }

  lemma XorAssociates(a: bv64, b: bv64, c: bv64)
    ensures Xor(a, Xor(b, c)) == Xor(Xor(a, b), c)
  {
    assert a ^ (b ^ c) == (a ^ b) ^ c;
  }

  lemma {:induction false} UpdateFront(c: bv64, p: seq<Octet>)
    requires p != []
    ensures UpdateAll(c, p) == UpdateAll(UpdateByte(c, p[0]), p[1..])
    decreases |p|
  {
    hide UpdateByte;
    if |p| > 1 {
      UpdateFront(c, p[..|p| - 1]);
      assert p[1..][..|p| - 2] == p[..|p| - 1][1..];
    } else {
      assert p[..0] == p[1..] == [];
    }
  }

  lemma InstructionNone(c: bv64)
    ensures Instruction(c, []) == c
  {
  }

  // A CRC instruction on up to eight bytes does what RFC 1952 does byte by byte.
  lemma {:induction false} InstructionIsBytes(c: bv64, p: seq<Octet>)
    requires |p| <= 8
    ensures Instruction(c, p) == UpdateAll(c, p)
    decreases |p|
  {
    hide Bits, Xor, Up8, Wide, UpdateByte, Small, Fits;
    if p == [] {
      InstructionNone(c);
    } else {
      var rest := p[1..];
      var x := Xor(c, Wide(p[0]));
      LoadFits(rest);
      FitsSmall(Load(rest), |rest|);
      XorAssociates(c, Wide(p[0]), Up8(Load(rest)));
      BitsAdd(Xor(x, Up8(Load(rest))), 8, 8 * |rest|);
      EightSteps(x, Load(rest));
      UpdateIsBits(c, p[0]);
      InstructionIsBytes(UpdateByte(c, p[0]), rest);
      UpdateFront(c, p);
    }
  }

  lemma {:induction false} UpdateAppend(c: bv64, p: seq<Octet>, q: seq<Octet>)
    ensures UpdateAll(c, p + q) == UpdateAll(UpdateAll(c, p), q)
    decreases |q|
  {
    hide UpdateByte;
    if q == [] {
      assert p + q == p;
    } else {
      UpdateAppend(c, p, q[..|q| - 1]);
      assert (p + q)[..|p + q| - 1] == p + q[..|q| - 1];
    }
  }

  ghost function Consumed(start: bv64, mem: array<Octet>, from: nat, to: nat): bv64
    requires from <= to <= mem.Length
    reads mem
  {
    UpdateAll(start, mem[from..to])
  }

  lemma UpdateNone(c: bv64, p: seq<Octet>)
    requires p == []
    ensures UpdateAll(c, p) == c
  {
  }

  // One CRC instruction on the n bytes at p.
  method Chunk(ghost start: bv64, crc0: bv64, mem: array<Octet>, ghost from: nat, p: nat, n: nat) returns (crc: bv64)
    requires from <= p && p + n <= mem.Length && n <= 8
    requires crc0 == Consumed(start, mem, from, p)
    ensures crc == Consumed(start, mem, from, p + n)
  {
    hide UpdateAll, Instruction;
    crc := Instruction(crc0, mem[p..p + n]);
    InstructionIsBytes(crc0, mem[p..p + n]);
    UpdateAppend(start, mem[from..p], mem[p..p + n]);
    assert mem[from..p] + mem[p..p + n] == mem[from..p + n];
  }

  // crc32(): the 8/4/2/1 split of any length takes each byte once, in order.
  method Crc32(crc0: bv64, mem: array<Octet>, p0: nat, len0: nat) returns (crc: bv64)
    requires p0 + len0 <= mem.Length
    ensures crc == Crc32Of(crc0, mem[p0..p0 + len0])
  {
    hide UpdateAll, Xor, Instruction;
    ghost var start := Xor(crc0, MASK32);
    crc := Xor(crc0, MASK32);
    var p, len := p0, len0;
    UpdateNone(start, mem[p0..p0]);
    while len >= 8
      invariant p + len == p0 + len0 && p0 <= p
      invariant crc == Consumed(start, mem, p0, p)
    {
      crc := Chunk(start, crc, mem, p0, p, 8);
      p, len := p + 8, len - 8;
    }
    if len >= 4 {
      crc := Chunk(start, crc, mem, p0, p, 4);
      p, len := p + 4, len - 4;
    }
    if len >= 2 {
      crc := Chunk(start, crc, mem, p0, p, 2);
      p, len := p + 2, len - 2;
    }
    if len >= 1 {
      crc := Chunk(start, crc, mem, p0, p, 1);
      p, len := p + 1, len - 1;
    }
    crc := Xor(crc, MASK32);
  }

  // ---- known values ----

  // The polynomial as it shows in the table of section 8, whose other entries are sums of these.
  lemma TableEntries()
    ensures Table(1) == 0x77073096 && Table(2) == 0xEE0E612C
    ensures Table(4) == 0x076DC419 && Table(8) == 0x0EDB8832
    ensures Table(16) == 0x1DB71064 && Table(32) == 0x3B6E20C8
    ensures Table(64) == 0x76DC4190 && Table(128) == 0xEDB88320
  {
  }

  lemma TableSum(a: bv64, b: bv64)
    ensures Table(Xor(a, b)) == Xor(Table(a), Table(b))
  {
    BitsLinear(a, b, 8);
  }

  lemma MoreEntries()
    ensures Table(0x01) == 0x77073096 && Table(0x19) == 0x646BA8C0
    ensures Table(0x58) == 0x65B0D9C6 && Table(0x69) == 0x346ED9FC
    ensures Table(0x7A) == 0xB0D09822 && Table(0xA9) == 0xAF0A1B4C
    ensures Table(0xCE) == 0x7CDCEFB7 && Table(0xD5) == 0xF6B9265B
  {
  }

  lemma UpdateLast(c: bv64, p: seq<Octet>, i: nat)
    requires i < |p|
    ensures UpdateAll(c, p[..i + 1]) == UpdateByte(UpdateAll(c, p[..i]), p[i])
  {
    hide UpdateByte;
    assert p[..i + 1][..i] == p[..i];
  }

  // One byte of the check value: the table entry x is looked up.
  lemma CheckStep(p: seq<Octet>, i: nat, c: bv64, x: bv64, d: bv64)
    requires i < |p| && UpdateAll(0xFFFF_FFFF, p[..i]) == c
    requires Low8(Xor(c, Wide(p[i]))) == x && Xor(Table(x), Down8(c)) == d
    ensures UpdateAll(0xFFFF_FFFF, p[..i + 1]) == d
  {
    hide Table, UpdateAll, Xor, Low8, Down8, Wide;
    UpdateLast(0xFFFF_FFFF, p, i);
  }

  // The check value of CRC-32: the checksum of the digits 1 to 9 in ASCII.
  lemma CheckValue()
    ensures Crc32Of(0, [0x31, 0x32, 0x33, 0x34, 0x35, 0x36, 0x37, 0x38, 0x39]) == 0xCBF4_3926
  {
    hide UpdateAll, Table;
    var p: seq<Octet> := [0x31, 0x32, 0x33, 0x34, 0x35, 0x36, 0x37, 0x38, 0x39];
    MoreEntries();
    UpdateNone(0xFFFF_FFFF, p[..0]);
    CheckStep(p, 0, 0xFFFFFFFF, 0xCE, 0x7C231048);
    CheckStep(p, 1, 0x7C231048, 0x7A, 0xB0ACBB32);
    CheckStep(p, 2, 0xB0ACBB32, 0x01, 0x77B79C2D);
    CheckStep(p, 3, 0x77B79C2D, 0x19, 0x641C1F5C);
    CheckStep(p, 4, 0x641C1F5C, 0x69, 0x340AC5E3);
    CheckStep(p, 5, 0x340AC5E3, 0xD5, 0xF68D2C9E);
    CheckStep(p, 6, 0xF68D2C9E, 0xA9, 0xAFFC9660);
    CheckStep(p, 7, 0xAFFC9660, 0x58, 0x651F2550);
    CheckStep(p, 8, 0x651F2550, 0x69, 0x340BC6D9);
    assert p[..9] == p;
  }

  // ---- 32 bits ----

  predicate In32(c: bv64) {
    c <= MASK32
  }

  lemma BitIn32(r: bv64)
    requires In32(r)
    ensures In32(Bit(r))
  {
  }

  lemma {:induction false} BitsIn32(r: bv64, n: nat)
    requires In32(r)
    ensures In32(Bits(r, n))
    decreases n
  {
    hide Bit, In32;
    if n == 0 {
    } else {
      BitIn32(r);
      BitsIn32(Bit(r), n - 1);
    }
  }

  lemma ByteIn32(c: bv64)
    ensures In32(Low8(c)) && (In32(c) ==> In32(Down8(c)))
  {
  }

  lemma XorIn32(a: bv64, b: bv64)
    requires In32(a) && In32(b)
    ensures In32(Xor(a, b))
  {
  }

  lemma UpdateIn32(c: bv64, b: Octet)
    requires In32(c)
    ensures In32(UpdateByte(c, b))
  {
    hide In32, Xor, Low8, Down8, Wide;
    var i := Low8(Xor(c, Wide(b)));
    ByteIn32(Xor(c, Wide(b)));
    ByteIn32(c);
    BitsIn32(i, 8);
    XorIn32(Table(i), Down8(c));
  }

  // A checksum has 32 bits.
  lemma {:induction false} UpdateAllIn32(c: bv64, p: seq<Octet>)
    requires In32(c)
    ensures In32(UpdateAll(c, p))
    decreases |p|
  {
    hide In32, UpdateByte;
    if p == [] {
    } else {
      UpdateAllIn32(c, p[..|p| - 1]);
      UpdateIn32(UpdateAll(c, p[..|p| - 1]), p[|p| - 1]);
    }
  }

  function Checksum(p: seq<Octet>): (sum: bv32)
    ensures sum as bv64 == Crc32Of(0, p)
  {
    assert In32(Crc32Of(0, p)) by {
      hide UpdateAll;
      UpdateAllIn32(Xor(0, MASK32), p);
      XorIn32(UpdateAll(Xor(0, MASK32), p), MASK32);
    }
    Crc32Of(0, p) as bv32
  }
}
