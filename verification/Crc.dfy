/** The CRC-32 of section 8 of RFC 1952: the table-driven loop of `gpt/gpt.c` against the
    definition that shifts one bit at a time. */
module Crc {
  import opened Bytes
  import opened CrcTable

  // ---------------------------------------------------------------- 32-bit words

  function Xor(a: bv32, b: bv32): bv32 { a ^ b }

  function Up8(w: bv32): bv32 { w << 8 }

  lemma XorAssoc(a: bv32, b: bv32, c: bv32)
    ensures Xor(Xor(a, b), c) == Xor(a, Xor(b, c))
  {
  }

  lemma XorCancel(a: bv32, p: bv32, q: bv32)
    ensures Xor(a, p) == Xor(a, q) ==> p == q
    ensures Xor(p, a) == Xor(q, a) ==> p == q
  {
  }

  function Flag(e: bool): bv32 { if e then 1 else 0 }

  /** The word whose low bits are the given ones, lowest first. */
  function Word(bits: seq<bool>): bv32 { if bits == [] then 0 else Flag(bits[0]) ^ (Word(bits[1..]) << 1) }

  function BitsOf(b: byte): seq<bool> {
    [b % 2 == 1, b / 2 % 2 == 1, b / 4 % 2 == 1, b / 8 % 2 == 1,
     b / 16 % 2 == 1, b / 32 % 2 == 1, b / 64 % 2 == 1, b / 128 % 2 == 1]
  }

  /** A byte as a 32-bit word. */
  function Wide(b: byte): bv32 { Word(BitsOf(b)) }

  lemma {:induction false} WordBound(bits: seq<bool>) returns (k: bv32)
    requires |bits| <= 32
    ensures k <= 32 && k as nat == |bits| && Word(bits) >> k == 0
  {
    k := 0;
    if bits != [] {
      k := WordBound(bits[1..]);
      Count(k, |bits| - 1);
      PushBit(Flag(bits[0]), Word(bits[1..]), k);
      k := k + 1;
    }
  }

  /** Counting in 32 bits. */
  lemma Count(k: bv32, n: nat)
    requires k as nat == n <= 31
    ensures k <= 31 && (k + 1) as nat == n + 1
  {
  }

  lemma PushBit(e: bv32, w: bv32, k: bv32)
    requires e <= 1 && k <= 31 && w >> k == 0
    ensures (e ^ (w << 1)) >> (k + 1) == 0
  {
  }

  lemma WideBound(b: byte)
    ensures Wide(b) <= 0xff
  {
    hide Word, BitsOf;
    assert |BitsOf(b)| == 8 by { EightBits(b); }
    var k := WordBound(BitsOf(b));
    Eight(k);
    LowByte(Wide(b));
  }

  lemma EightBits(b: byte)
    ensures |BitsOf(b)| == 8
  {
  }

  lemma Eight(k: bv32)
    requires k as nat == 8
    ensures k == 8
  {
  }

  lemma LowByte(w: bv32)
    requires w >> 8 == 0
    ensures w <= 0xff
  {
  }

  // ---------------------------------------------------------------- reference

  /** The register after one more byte, bit by bit. */
  function Feed(c: bv32, b: byte): bv32 { Bits8(Xor(c, Wide(b))) }

  function Bitwise(seed: bv32, s: seq<byte>): bv32
    decreases |s|
  {
    if s == [] then seed else Bitwise(Feed(seed, s[0]), s[1..])
  }

  function Crc32(s: seq<byte>): bv32 { Xor(Bitwise(0xffffffff, s), 0xffffffff) }

  // ---------------------------------------------------------------- single steps

  /** A value mixed in after a step is mixed in one bit higher before it. */
  lemma BringOne(x: bv32, w: bv32)
    requires w <= 0x7fffffff
    ensures Xor(Step(x), w) == Step(Xor(x, w << 1))
  {
    hide Step;
    BringRaw(x, w);
  }

  lemma BringRaw(x: bv32, w: bv32)
    requires w <= 0x7fffffff
    ensures Step(x) ^ w == Step(x ^ (w << 1))
  {
  }

  lemma StepInjective(a: bv32, b: bv32)
    requires Step(a) == Step(b)
    ensures a == b
  {
  }

  /** Mixing a value in after eight steps is mixing it in eight bits higher before them. */
  lemma Bring(x: bv32, w: bv32)
    requires w <= 0xffffff
    ensures Xor(Bits8(x), w) == Bits8(Xor(x, Up8(w)))
  {
    hide Step, Xor, Bits8, Up8;
    EightSteps(x);
    EightSteps(Xor(x, Up8(w)));
    ShiftsUp(w);
    var w1 := w << 1;
    var w2 := w1 << 1;
    var w3 := w2 << 1;
    var w4 := w3 << 1;
    var w5 := w4 << 1;
    var w6 := w5 << 1;
    var w7 := w6 << 1;
    var x1 := Step(x);
    var x2 := Step(x1);
    var x3 := Step(x2);
    var x4 := Step(x3);
    var x5 := Step(x4);
    var x6 := Step(x5);
    var x7 := Step(x6);
    BringOne(x, w7); BringOne(x1, w6); BringOne(x2, w5); BringOne(x3, w4);
    BringOne(x4, w3); BringOne(x5, w2); BringOne(x6, w1); BringOne(x7, w);
  }

  lemma ShiftsUp(w: bv32)
    requires w <= 0xffffff
    ensures w << 1 <= 0x7fffffff && w << 1 << 1 <= 0x7fffffff && w << 1 << 1 << 1 <= 0x7fffffff
    ensures w << 1 << 1 << 1 << 1 <= 0x7fffffff && w << 1 << 1 << 1 << 1 << 1 <= 0x7fffffff
    ensures w << 1 << 1 << 1 << 1 << 1 << 1 <= 0x7fffffff && w << 1 << 1 << 1 << 1 << 1 << 1 << 1 <= 0x7fffffff
    ensures w << 1 << 1 << 1 << 1 << 1 << 1 << 1 << 1 == Up8(w)
  {
  }

  lemma Bits8Injective(a: bv32, b: bv32)
    requires Bits8(a) == Bits8(b)
    ensures a == b
  {
    hide Step, Bits8;
    EightSteps(a);
    EightSteps(b);
    StepsInjective(a, b, 8);
    Unrolled(a);
    Unrolled(b);
  }

  function Steps(c: bv32, n: nat): bv32
    decreases n
  {
    if n == 0 then c else Steps(Step(c), n - 1)
  }

  lemma {:induction false} StepsInjective(a: bv32, b: bv32, n: nat)
    ensures Steps(a, n) == Steps(b, n) ==> a == b
    decreases n
  {
    hide Step;
    if n > 0 {
      StepsInjective(Step(a), Step(b), n - 1);
      if Step(a) == Step(b) { StepInjective(a, b); }
    }
  }

  lemma Unrolled(c: bv32)
    ensures Steps(c, 8) == Step(Step(Step(Step(Step(Step(Step(Step(c))))))))
  {
    hide Step;
    var c1 := Step(c);
    var c2 := Step(c1);
    var c3 := Step(c2);
    var c4 := Step(c3);
    assert Steps(c, 8) == Steps(c1, 7) == Steps(c2, 6) == Steps(c3, 5) == Steps(c4, 4);
  }

  // ---------------------------------------------------------------- the loop

  /** The register after one more byte, by table. */
  function Lookup(c: bv32, b: byte): bv32 { Xor(Table(Index(c, b)), c >> 8) }

  function Index(c: bv32, b: byte): (x: bv32)
    ensures x <= 0xff
  {
    (c ^ Wide(b)) & 0xff
  }

  lemma IndexHalves(c: bv32, b: byte)
    ensures Xor(Index(c, b), Up8(c >> 8)) == Xor(c, Wide(b))
    ensures c >> 8 <= 0xffffff
  {
    hide Wide;
    WideBound(b);
  }

  /** One table lookup does eight single-bit steps. */
  lemma LookupIsFeed(c: bv32, b: byte)
    ensures Lookup(c, b) == Feed(c, b)
  {
    hide Bits8, Table, Xor, Up8, Wide, Index;
    IndexHalves(c, b);
    TableEntry(Index(c, b));
    Bring(Index(c, b), c >> 8);
  }

  method EfiCrc32(buf: seq<byte>, seed: bv32) returns (crc: bv32)
    ensures crc == Bitwise(seed, buf)
  {
    hide Lookup, Feed;
    crc := seed;
    for i := 0 to |buf|
      invariant Bitwise(crc, buf[i..]) == Bitwise(seed, buf)
    {
      LookupIsFeed(crc, buf[i]);
      assert buf[i..][1..] == buf[i + 1..];
      crc := Lookup(crc, buf[i]);
    }
  }

  /** The number whose low `n` binary digits are those of a word. */
  function Num(c: bv32, n: nat): nat
    decreases n
  {
    if n == 0 then 0 else (if c & 1 == 1 then 1 else 0) + 2 * Num(c >> 1, n - 1)
  }

  lemma {:induction false} NumBound(c: bv32, n: nat, limit: nat)
    requires limit == Pow2(n)
    ensures Num(c, n) < limit
    decreases n
  {
    if n > 0 { NumBound(c >> 1, n - 1, Pow2(n - 1)); }
  }

  function Pow2(n: nat): nat { if n == 0 then 1 else 2 * Pow2(n - 1) }

  lemma Pow32()
    ensures Pow2(32) == 0x1_0000_0000
  {
    assert Pow2(4) == 16;
    assert Pow2(8) == 16 * Pow2(4);
    assert Pow2(12) == 16 * Pow2(8);
    assert Pow2(16) == 16 * Pow2(12);
    assert Pow2(20) == 16 * Pow2(16);
    assert Pow2(24) == 16 * Pow2(20);
    assert Pow2(28) == 16 * Pow2(24);
    assert Pow2(32) == 16 * Pow2(28);
  }

  /** The checksum as the number stored on disk. */
  function Crc32Value(s: seq<byte>): (v: nat)
    ensures v < 0x1_0000_0000
  {
    Pow32();
    NumBound(Crc32(s), 32, 0x1_0000_0000);
    Num(Crc32(s), 32)
  }

  method ComputeCrc32(buf: seq<byte>) returns (crc: nat)
    ensures crc == Crc32Value(buf)
  {
    hide Xor, Bitwise;
    var c := EfiCrc32(buf, 0xffffffff);
    crc := Num(Xor(c, 0xffffffff), 32);
  }

  // ---------------------------------------------------------------- what the checksum detects

  lemma {:induction false} Concatenation(seed: bv32, a: seq<byte>, b: seq<byte>)
    ensures Bitwise(seed, a + b) == Bitwise(Bitwise(seed, a), b)
    decreases |a|
  {
    hide Feed;
    if a == [] {
      assert a + b == b;
    } else {
      Concatenation(Feed(seed, a[0]), a[1..], b);
      assert (a + b)[1..] == a[1..] + b;
    }
  }

  lemma FeedInjective(c: bv32, d: bv32, b: byte)
    requires Feed(c, b) == Feed(d, b)
    ensures c == d
  {
    hide Bits8, Xor, Wide;
    Bits8Injective(Xor(c, Wide(b)), Xor(d, Wide(b)));
    XorCancel(Wide(b), c, d);
  }

  /** From different registers the same bytes never lead to the same register. */
  lemma {:induction false} TailInjective(c: bv32, d: bv32, s: seq<byte>)
    requires c != d
    ensures Bitwise(c, s) != Bitwise(d, s)
    decreases |s|
  {
    hide Feed;
    if s != [] {
      if Feed(c, s[0]) == Feed(d, s[0]) { FeedInjective(c, d, s[0]); }
      TailInjective(Feed(c, s[0]), Feed(d, s[0]), s[1..]);
    }
  }

  // ---------------------------------------------------------------- bit by bit

  /** The register after one more bit. */
  function FeedBit(c: bv32, e: bool): bv32 { Step(Xor(c, Flag(e))) }

  function FeedBits(c: bv32, bits: seq<bool>): bv32
    decreases |bits|
  {
    if bits == [] then c else FeedBits(FeedBit(c, bits[0]), bits[1..])
  }

  function Bits(s: seq<byte>): (bits: seq<bool>)
    ensures |bits| == 8 * |s|
  {
    if s == [] then [] else BitsOf(s[0]) + Bits(s[1..])
  }

  lemma Below(w: bv32, k: bv32)
    requires k <= 31 && w >> k == 0
    ensures w <= 0x7fffffff
  {
  }

  lemma XorFlag(c: bv32, f: bv32, w: bv32)
    ensures Xor(c, f ^ (w << 1)) == Xor(Xor(c, f), w << 1)
    ensures Xor(c, 0) == c
  {
  }

  /** Mixing a word in and then stepping is feeding its bits one at a time. */
  lemma {:induction false} WordIsBits(c: bv32, bits: seq<bool>)
    requires |bits| <= 32
    ensures Steps(Xor(c, Word(bits)), |bits|) == FeedBits(c, bits)
    decreases |bits|
  {
    hide Step, Xor, Flag;
    if bits == [] {
      XorFlag(c, 0, 0);
    } else {
      var w := Word(bits[1..]);
      var k := WordBound(bits[1..]);
      Count(k, |bits| - 1);
      Below(w, k);
      XorFlag(c, Flag(bits[0]), w);
      BringOne(Xor(c, Flag(bits[0])), w);
      WordIsBits(FeedBit(c, bits[0]), bits[1..]);
    }
  }

  lemma FeedIsBits(c: bv32, b: byte)
    ensures Feed(c, b) == FeedBits(c, BitsOf(b))
  {
    hide Step, Xor, Word, BitsOf, Bits8, FeedBits;
    EightBits(b);
    WordIsBits(c, BitsOf(b));
    EightSteps(Xor(c, Wide(b)));
    Unrolled(Xor(c, Wide(b)));
  }

  lemma {:induction false} BitsAppend(c: bv32, a: seq<bool>, b: seq<bool>)
    ensures FeedBits(c, a + b) == FeedBits(FeedBits(c, a), b)
    decreases |a|
  {
    hide FeedBit;
    if a == [] {
      assert a + b == b;
    } else {
      assert (a + b)[1..] == a[1..] + b;
      BitsAppend(FeedBit(c, a[0]), a[1..], b);
    }
  }

  /** The checksum shifts the message through the register one bit at a time, lowest bit first. */
  lemma {:induction false} BitSerial(c: bv32, s: seq<byte>)
    ensures Bitwise(c, s) == FeedBits(c, Bits(s))
    decreases |s|
  {
    hide Feed, FeedBits, BitsOf;
    if s == [] {
      NoBits(c);
    } else {
      FeedIsBits(c, s[0]);
      BitsAppend(c, BitsOf(s[0]), Bits(s[1..]));
      BitSerial(Feed(c, s[0]), s[1..]);
    }
  }

  lemma NoBits(c: bv32)
    ensures FeedBits(c, []) == c
  {
  }

  // ---------------------------------------------------------------- bursts

  lemma StepXor(a: bv32, b: bv32)
    ensures Xor(Step(a), Step(b)) == Step(Xor(a, b))
  {
    hide Step, Xor;
    if a & 1 == 1 && b & 1 == 1 { BothOdd(a, b); }
    else if a & 1 == 1 { Even(b); OneOdd(a, b); }
    else if b & 1 == 1 { Even(a); OneOdd(b, a); Commute(Step(a), Step(b)); Commute(a, b); }
    else { Even(a); Even(b); BothEven(a, b); }
  }

  lemma Even(a: bv32) requires a & 1 != 1 ensures a & 1 == 0 {}
  lemma Commute(a: bv32, b: bv32) ensures Xor(a, b) == Xor(b, a) {}
  lemma BothOdd(a: bv32, b: bv32) requires a & 1 == 1 && b & 1 == 1 ensures Xor(Step(a), Step(b)) == Step(Xor(a, b)) {}
  lemma OneOdd(a: bv32, b: bv32) requires a & 1 == 1 && b & 1 == 0 ensures Xor(Step(a), Step(b)) == Step(Xor(a, b)) {}
  lemma BothEven(a: bv32, b: bv32) requires a & 1 == 0 && b & 1 == 0 ensures Xor(Step(a), Step(b)) == Step(Xor(a, b)) {}

  /** `x` fits in its low `k` bits. */
  predicate Low(x: bv32, k: bv32) requires k <= 32 { x >> k == 0 }

  /** The top bit of the polynomial is set, so a small result comes from an even value twice as large. */
  lemma SmallStep(x: bv32, k: bv32)
    requires k <= 31 && Low(Step(x), k)
    ensures x & 1 == 0 && Low(x, k + 1)
  {
    Halved(x, k);
    EvenStep(x, k);
    hide Step;
  }

  lemma EvenStep(x: bv32, k: bv32)
    requires k <= 31 && Step(x) >> k == 0
    ensures x & 1 == 0 && (x >> 1) >> k == 0
  {
  }

  lemma Halved(x: bv32, k: bv32)
    requires k <= 31
    ensures (x >> 1) >> k == x >> (k + 1)
  {
  }

  lemma FlagsApart(c: bv32, d: bv32, e: bool, f: bool, k: bv32)
    requires k <= 31
    requires var x := Xor(Xor(c, Flag(e)), Xor(d, Flag(f))); x & 1 == 0 && Low(x, k + 1)
    ensures Low(Xor(c, d), k + 1) && (c == d ==> e == f)
  {
    hide Xor, Low;
    XorSwap(c, Flag(e), d, Flag(f));
    SmallXors(Xor(c, d));
    if e != f { LowFlip(Xor(c, d), k); }
    if c == d { OddOne(c); }
  }

  lemma XorSwap(a: bv32, b: bv32, c: bv32, d: bv32)
    ensures Xor(Xor(a, b), Xor(c, d)) == Xor(Xor(a, c), Xor(b, d))
  {
    hide Xor;
    XorAssoc(a, b, Xor(c, d));
    XorAssoc(b, c, d);
    Commute(b, c);
    XorAssoc(c, b, d);
    XorAssoc(a, c, Xor(b, d));
  }

  lemma SmallXors(x: bv32)
    ensures Xor(0, 0) == 0 && Xor(1, 1) == 0 && Xor(0, 1) == 1 && Xor(1, 0) == 1 && Xor(x, 0) == x
  {
  }

  lemma LowFlip(x: bv32, k: bv32)
    requires k <= 31 && Low(Xor(x, 1), k + 1)
    ensures Low(x, k + 1)
  {
    FlipRaw(x, k + 1);
  }

  lemma FlipRaw(x: bv32, k: bv32)
    requires 1 <= k <= 32
    ensures (x ^ 1) >> k == x >> k
  {
  }

  lemma OddOne(c: bv32)
    ensures Xor(Xor(c, c), 1) & 1 == 1
  {
  }

  /** Registers that meet after `k` bits differ in their low `k` bits only. */
  lemma {:induction false} CloseBits(c: bv32, d: bv32, a: seq<bool>, b: seq<bool>) returns (k: bv32)
    requires |a| == |b| <= 32 && FeedBits(c, a) == FeedBits(d, b)
    ensures k as nat == |a| && k <= 32 && Low(Xor(c, d), k)
    ensures a != [] && c == d ==> a[0] == b[0]
    decreases |a|
  {
    hide Step, Xor, Flag, Low;
    k := 0;
    if a == [] {
      SameZero(c);
    } else {
      k := CloseBits(FeedBit(c, a[0]), FeedBit(d, b[0]), a[1..], b[1..]);
      Count(k, |a| - 1);
      var u, v := Xor(c, Flag(a[0])), Xor(d, Flag(b[0]));
      StepXor(u, v);
      SmallStep(Xor(u, v), k);
      FlagsApart(c, d, a[0], b[0], k);
      k := k + 1;
    }
  }

  lemma SameZero(c: bv32)
    ensures Low(Xor(c, c), 0)
  {
  }

  /** Up to 32 bits go through the register like one word: no two strings collide. */
  lemma {:induction false} BitsInjective(c: bv32, a: seq<bool>, b: seq<bool>)
    requires |a| == |b| <= 32 && FeedBits(c, a) == FeedBits(c, b)
    ensures a == b
    decreases |a|
  {
    hide FeedBit;
    if a != [] {
      var k := CloseBits(c, c, a, b);
      BitsInjective(FeedBit(c, a[0]), a[1..], b[1..]);
      assert a == [a[0]] + a[1..] && b == [b[0]] + b[1..];
    }
  }

  lemma {:induction false} BitTail(c: bv32, d: bv32, bits: seq<bool>)
    requires c != d
    ensures FeedBits(c, bits) != FeedBits(d, bits)
    decreases |bits|
  {
    hide Step, Xor, Flag;
    if bits != [] {
      var u, v := Xor(c, Flag(bits[0])), Xor(d, Flag(bits[0]));
      if Step(u) == Step(v) { StepInjective(u, v); XorCancel(Flag(bits[0]), c, d); }
      BitTail(FeedBit(c, bits[0]), FeedBit(d, bits[0]), bits[1..]);
    }
  }

  lemma {:induction false} BitsDiffer(s: seq<byte>, t: seq<byte>)
    requires |s| == |t| && Bits(s) == Bits(t)
    ensures s == t
  {
    hide BitsOf;
    if s != [] {
      var x, y := Bits(s), Bits(t);
      EightBits(s[0]);
      EightBits(t[0]);
      assert x[..8] == BitsOf(s[0]) && y[..8] == BitsOf(t[0]) && x[8..] == Bits(s[1..]) && y[8..] == Bits(t[1..]);
      ByteBits(s[0], t[0]);
      BitsDiffer(s[1..], t[1..]);
      assert s == [s[0]] + s[1..] && t == [t[0]] + t[1..];
    }
  }

  lemma ByteBits(a: byte, b: byte)
    requires BitsOf(a) == BitsOf(b)
    ensures a == b
  {
    SameBits(a, b);
    hide BitsOf;
    Chain(a);
    Chain(b);
    Parity(a / 128, b / 128); Parity(a / 64, b / 64); Parity(a / 32, b / 32); Parity(a / 16, b / 16);
    Parity(a / 8, b / 8); Parity(a / 4, b / 4); Parity(a / 2, b / 2); Parity(a, b);
  }

  lemma SameBits(a: byte, b: byte)
    requires BitsOf(a) == BitsOf(b)
    ensures (a % 2 == 1) == (b % 2 == 1) && (a / 2 % 2 == 1) == (b / 2 % 2 == 1)
    ensures (a / 4 % 2 == 1) == (b / 4 % 2 == 1) && (a / 8 % 2 == 1) == (b / 8 % 2 == 1)
    ensures (a / 16 % 2 == 1) == (b / 16 % 2 == 1) && (a / 32 % 2 == 1) == (b / 32 % 2 == 1)
    ensures (a / 64 % 2 == 1) == (b / 64 % 2 == 1) && (a / 128 % 2 == 1) == (b / 128 % 2 == 1)
  {
    var x, y := BitsOf(a), BitsOf(b);
    assert x[7] == y[7] && x[6] == y[6] && x[5] == y[5] && x[4] == y[4];
    assert x[3] == y[3] && x[2] == y[2] && x[1] == y[1] && x[0] == y[0];
  }

  lemma Chain(a: byte)
    ensures a / 2 / 2 == a / 4 && a / 4 / 2 == a / 8 && a / 8 / 2 == a / 16 && a / 16 / 2 == a / 32
    ensures a / 32 / 2 == a / 64 && a / 64 / 2 == a / 128 && a / 128 / 2 == 0
  {
  }

  lemma Parity(a: byte, b: byte)
    requires (a % 2 == 1) == (b % 2 == 1)
    ensures a / 2 == b / 2 ==> a == b
  {
  }

  /** Any error confined to 32 consecutive bits, wherever they start, is detected. */
  lemma BurstDetected(s: seq<byte>, t: seq<byte>, p: nat)
    requires |s| == |t| && s != t
    requires forall i :: 0 <= i < 8 * |s| && !(p <= i < p + 32) ==> Bits(s)[i] == Bits(t)[i]
    ensures Crc32(s) != Crc32(t)
  {
    hide Bitwise, FeedBits, Bits, Xor;
    var x, y, n := Bits(s), Bits(t), 8 * |s|;
    if x == y { BitsDiffer(s, t); }
    var a := if p <= n then p else n;
    var b := if p + 32 <= n then p + 32 else n;
    var c := FeedBits(0xffffffff, x[..a]);
    assert x[..a] == y[..a] && x[b..] == y[b..];
    assert x == x[..a] + x[a..b] + x[b..] && y == x[..a] + y[a..b] + x[b..];
    if FeedBits(c, x[a..b]) == FeedBits(c, y[a..b]) { BitsInjective(c, x[a..b], y[a..b]); }
    Differs(x[..a], x[a..b], y[a..b], x[b..]);
    BitSerial(0xffffffff, s);
    BitSerial(0xffffffff, t);
    XorCancel(0xffffffff, Bitwise(0xffffffff, s), Bitwise(0xffffffff, t));
  }

  lemma Differs(pre: seq<bool>, a: seq<bool>, b: seq<bool>, post: seq<bool>)
    requires FeedBits(FeedBits(0xffffffff, pre), a) != FeedBits(FeedBits(0xffffffff, pre), b)
    ensures FeedBits(0xffffffff, pre + a + post) != FeedBits(0xffffffff, pre + b + post)
  {
    hide FeedBits;
    var c := FeedBits(0xffffffff, pre);
    BitTail(FeedBits(c, a), FeedBits(c, b), post);
    BitsAppend(0xffffffff, pre + a, post);
    BitsAppend(0xffffffff, pre + b, post);
    BitsAppend(0xffffffff, pre, a);
    BitsAppend(0xffffffff, pre, b);
  }

  lemma {:induction false} BitAt(s: seq<byte>, i: nat)
    requires i < 8 * |s|
    ensures Bits(s)[i] == BitsOf(s[i / 8])[i % 8]
    decreases |s|
  {
    hide BitsOf;
    EightBits(s[0]);
    EightBits(s[i / 8]);
    if i >= 8 {
      BitAt(s[1..], i - 8);
      assert s[1..][(i - 8) / 8] == s[i / 8];
    }
  }

  /** Changing one byte of a message, anywhere, changes its checksum. */
  lemma OneByteDetected(s: seq<byte>, t: seq<byte>, i: nat)
    requires |s| == |t| && i < |s| && s[i] != t[i] && forall j :: 0 <= j < |s| && j != i ==> s[j] == t[j]
    ensures Crc32(s) != Crc32(t)
  {
    hide Crc32, Bits, BitsOf;
    forall k | 0 <= k < 8 * |s| && !(8 * i <= k < 8 * i + 32) ensures Bits(s)[k] == Bits(t)[k] {
      BitAt(s, k);
      BitAt(t, k);
      assert k / 8 != i;
    }
    BurstDetected(s, t, 8 * i);
  }
}
