/** The published values of CRC-32 that the checksum of `gpt/gpt.c` must meet. */
module CrcCheck {
  import opened Bytes
  import opened CrcTable
  import opened Crc

  // ---------------------------------------------------------------- the check value

  /** Feeding a byte, given the register mixed with it and what eight steps make of that. */
  lemma FeedIs(c: bv32, b: byte, w: bv32, next: bv32)
    requires Wide(b) == w && Bits8(c ^ w) == next
    ensures Feed(c, b) == next
  {
    hide Wide, Bits8;
  }

  lemma Digit1() ensures Wide(49) == 49 { hide Wide, Push; Pushes(); Low6(49); }
  lemma Digit2() ensures Wide(50) == 50 { hide Wide, Push; Pushes(); Low6(50); }
  lemma Digit3() ensures Wide(51) == 51 { hide Wide, Push; Pushes(); Low6(51); }
  lemma Digit4() ensures Wide(52) == 52 { hide Wide, Push; Pushes(); Low6(52); }
  lemma Digit5() ensures Wide(53) == 53 { hide Wide, Push; Pushes(); Low6(53); }
  lemma Digit6() ensures Wide(54) == 54 { hide Wide, Push; Pushes(); Low6(54); }
  lemma Digit7() ensures Wide(55) == 55 { hide Wide, Push; Pushes(); Low6(55); }
  lemma Digit8() ensures Wide(56) == 56 { hide Wide, Push; Pushes(); Low6(56); }
  lemma Digit9() ensures Wide(57) == 57 { hide Wide, Push; Pushes(); Low6(57); }

  /** The register after each digit. */
  lemma FirstDigits()
    ensures Feed(0xffffffff, 49) == 0x7c231048 && Feed(0x7c231048, 50) == 0xb0acbb32
            && Feed(0xb0acbb32, 51) == 0x77b79c2d
    ensures Feed(0x77b79c2d, 52) == 0x641c1f5c && Feed(0x641c1f5c, 53) == 0x340ac5e3
  {
    hide Wide, Feed;
    Digit1(); FeedIs(0xffffffff, 49, 49, 0x7c231048);
    Digit2(); FeedIs(0x7c231048, 50, 50, 0xb0acbb32);
    Digit3(); FeedIs(0xb0acbb32, 51, 51, 0x77b79c2d);
    Digit4(); FeedIs(0x77b79c2d, 52, 52, 0x641c1f5c);
    Digit5(); FeedIs(0x641c1f5c, 53, 53, 0x340ac5e3);
  }

  lemma LastDigits()
    ensures Feed(0x340ac5e3, 54) == 0xf68d2c9e && Feed(0xf68d2c9e, 55) == 0xaffc9660
    ensures Feed(0xaffc9660, 56) == 0x651f2550 && Feed(0x651f2550, 57) == 0x340bc6d9
  {
    hide Wide, Feed;
    Digit6(); FeedIs(0x340ac5e3, 54, 54, 0xf68d2c9e);
    Digit7(); FeedIs(0xf68d2c9e, 55, 55, 0xaffc9660);
    Digit8(); FeedIs(0xaffc9660, 56, 56, 0x651f2550);
    Digit9(); FeedIs(0x651f2550, 57, 57, 0x340bc6d9);
  }

  /** The checksum of "123456789" is 0xcbf43926. */
  lemma CheckValue()
    ensures Crc32Value([49, 50, 51, 52, 53, 54, 55, 56, 57]) == 0xcbf4_3926
  {
    hide Feed, Num;
    FirstDigits();
    LastDigits();
    var s := [49, 50, 51, 52, 53, 54, 55, 56, 57];
    Unroll(0xffffffff, s);
    Unroll(0x7c231048, s[1..]);
    Unroll(0xb0acbb32, s[2..]);
    Unroll(0x77b79c2d, s[3..]);
    Unroll(0x641c1f5c, s[4..]);
    Unroll(0x340ac5e3, s[5..]);
    Unroll(0xf68d2c9e, s[6..]);
    Unroll(0xaffc9660, s[7..]);
    Unroll(0x651f2550, s[8..]);
    assert s[9..] == [];
    assert Crc32(s) == 0xcbf43926;
    CheckNumber();
  }

  lemma Unroll(c: bv32, s: seq<byte>)
    requires s != []
    ensures Bitwise(c, s) == Bitwise(Feed(c, s[0]), s[1..])
    ensures Bitwise(c, []) == c
  {
    hide Feed;
  }

  lemma CheckNumber()
    ensures Num(0xcbf43926, 32) == 0xcbf4_3926
  {
    Nibble(0xc, 0, 0, 0xc);
    Nibble(0xcb, 4, 0xc, 0xb);
    Nibble(0xcbf, 8, 0xcb, 0xf);
    Nibble(0xcbf4, 12, 0xcbf, 0x4);
    Nibble(0xcbf43, 16, 0xcbf4, 0x3);
    Nibble(0xcbf439, 20, 0xcbf43, 0x9);
    Nibble(0xcbf4392, 24, 0xcbf439, 0x2);
    Nibble(0xcbf43926, 28, 0xcbf4392, 0x6);
  }

  /** One hexadecimal digit. */
  lemma Nibble(c: bv32, n: nat, high: nat, low: nat)
    requires Num(Half(Half(Half(Half(c)))), n) == high && Num(c, 4) == low
    ensures Num(c, n + 4) == 16 * high + low
  {
    hide Num, Half;
    var c1 := Half(c);
    var c2 := Half(c1);
    var c3 := Half(c2);
    NumStep(c, n + 3); NumStep(c1, n + 2); NumStep(c2, n + 1); NumStep(c3, n);
    NumStep(c, 3); NumStep(c1, 2); NumStep(c2, 1); NumStep(c3, 0);
    NoDigits(Half(c3));
  }

  function Half(c: bv32): bv32 { c >> 1 }

  lemma NumStep(c: bv32, n: nat)
    ensures Num(c, n + 1) == Num(c, 1) + 2 * Num(Half(c), n)
  {
    assert Num(c >> 1, 0) == 0;
  }

  lemma NoDigits(c: bv32)
    ensures Num(c, 0) == 0
  {
  }

  /** A byte below 64, bit by bit. */
  lemma Low6(b: byte)
    requires b < 64
    ensures Wide(b) == Push(Flag(b % 2 == 1), Push(Flag(b / 2 % 2 == 1), Push(Flag(b / 4 % 2 == 1),
                       Push(Flag(b / 8 % 2 == 1), Push(Flag(b / 16 % 2 == 1), Push(Flag(b / 32 % 2 == 1), 0))))))
  {
    hide Word, Flag, Push;
    LowBits(BitsOf(b));
  }

  function Push(a: bv32, w: bv32): bv32 { a ^ (w << 1) }

  lemma LowBits(s: seq<bool>)
    requires |s| == 8 && !s[6] && !s[7]
    ensures Word(s) == Push(Flag(s[0]), Push(Flag(s[1]), Push(Flag(s[2]), Push(Flag(s[3]), Push(Flag(s[4]),
                       Push(Flag(s[5]), 0))))))
  {
    hide Word, Flag, Push;
    NoBits(s[8..]);
    WordTail(s, 7); WordTail(s, 6); WordTail(s, 5); WordTail(s, 4); WordTail(s, 3); WordTail(s, 2); WordTail(s, 1);
    WordTail(s, 0);
    assert s[0..] == s;
    ClearFlag();
  }

  lemma Pushes()
    ensures Push(1, 0) == 1 && Push(1, 1) == 3 && Push(0, 3) == 6 && Push(1, 3) == 7
    ensures Push(0, 6) == 12 && Push(1, 6) == 13 && Push(0, 7) == 14
    ensures Push(0, 12) == 24 && Push(1, 12) == 25 && Push(0, 13) == 26 && Push(1, 13) == 27 && Push(0, 14) == 28
    ensures Push(1, 24) == 49 && Push(0, 25) == 50 && Push(1, 25) == 51 && Push(0, 26) == 52 && Push(1, 26) == 53
    ensures Push(0, 27) == 54 && Push(1, 27) == 55 && Push(0, 28) == 56 && Push(1, 28) == 57
  {
  }

  lemma ClearFlag()
    ensures Push(Flag(false), 0) == 0
  {
  }

  lemma NoBits(s: seq<bool>)
    requires s == []
    ensures Word(s) == 0
  {
  }

  lemma WordTail(s: seq<bool>, i: nat)
    requires i < |s|
    ensures Word(s[i..]) == Push(Flag(s[i]), Word(s[i + 1..]))
  {
    hide Flag;
    assert s[i..][1..] == s[i + 1..];
  }

  // ---------------------------------------------------------------- the residue

  /** The low `n` binary digits of a number and of a word, lowest first. */
  function NatBits(v: nat, n: nat): (bits: seq<bool>)
    ensures |bits| == n
  {
    if n == 0 then [] else [v % 2 == 1] + NatBits(v / 2, n - 1)
  }

  function WordBits(c: bv32, n: nat): (bits: seq<bool>)
    ensures |bits| == n
    decreases n
  {
    if n == 0 then [] else [c & 1 == 1] + WordBits(c >> 1, n - 1)
  }

  lemma {:induction false} NumBits(c: bv32, n: nat)
    ensures NatBits(Num(c, n), n) == WordBits(c, n)
    decreases n
  {
    if n > 0 {
      NumBits(c >> 1, n - 1);
      var e := if c & 1 == 1 then 1 else 0;
      assert Num(c, n) == e + 2 * Num(c >> 1, n - 1);
      Halve(e, Num(c >> 1, n - 1));
    }
  }

  lemma Halve(e: nat, v: nat)
    requires e <= 1
    ensures (e + 2 * v) % 2 == e && (e + 2 * v) / 2 == v
  {
  }

  /** A word is made of its bits: what is left after `n` of them is above. */
  lemma {:induction false} WordOfBits(c: bv32, n: nat) returns (k: bv32)
    requires n <= 32
    ensures k as nat == n && k <= 32 && (Low(c, k) ==> Word(WordBits(c, n)) == c)
    decreases n
  {
    k := 0;
    if n == 0 {
      ShiftZero(c);
    } else {
      k := WordOfBits(c >> 1, n - 1);
      Count(k, n - 1);
      Halved(c, k);
      Rejoin(c);
      assert WordBits(c, n)[1..] == WordBits(c >> 1, n - 1);
      k := k + 1;
    }
  }

  lemma ShiftZero(c: bv32)
    ensures Low(c, 0) ==> c == 0
  {
  }

  lemma Rejoin(c: bv32)
    ensures Flag(c & 1 == 1) ^ ((c >> 1) << 1) == c
  {
  }

  lemma AllLow(c: bv32, k: bv32)
    requires k as nat == 32 && k <= 32
    ensures Low(c, k)
  {
    assert k == 32;
  }

  /** The bits of stored little-endian bytes are the binary digits of the number. */
  lemma {:induction false} StoredBits(v: nat, n: nat)
    ensures Bits(LE(v, n)) == NatBits(v, 8 * n)
  {
    if n > 0 {
      StoredBits(v / 256, n - 1);
      ByteDigits((v % 256) as byte);
      EightDigits(v, 8 * n - 8);
      assert LE(v, n)[1..] == LE(v / 256, n - 1);
    }
  }

  lemma EightDigits(v: nat, n: nat)
    ensures NatBits(v, n + 8) == NatBits(v % 256, 8) + NatBits(v / 256, n)
  {
    hide NatBits;
    var w, q := v % 256, v / 256;
    TwoNibbles(v);
    FourDigits(v, n + 4);
    FourDigits(v / 16, n);
    FourDigits(w, 4);
    FourDigits(w / 16, 0);
    assert NatBits(w / 16 / 16, 0) == [];
  }

  lemma TwoNibbles(v: nat)
    ensures v % 256 % 16 == v % 16 && v % 256 / 16 == v / 16 % 16 && v / 16 / 16 == v / 256
    ensures v / 16 % 16 % 16 == v / 16 % 16
  {
    var q, w := v / 256, v % 256;
    assert v == 256 * q + w;
    assert v / 16 == 16 * q + w / 16;
  }

  lemma FourDigits(v: nat, n: nat)
    ensures NatBits(v, n + 4) == NatBits(v % 16, 4) + NatBits(v / 16, n)
  {
    hide NatBits;
    var q, w := v / 16, v % 16;
    Halvings(q, w);
    Digits4(v, n);
    Digits4(w, 0);
    assert NatBits(w / 2 / 2 / 2 / 2, 0) == [];
  }

  lemma Halvings(q: nat, w: nat)
    requires w < 16
    ensures var v := 16 * q + w;
            && v % 2 == w % 2 && v / 2 % 2 == w / 2 % 2 && v / 2 / 2 % 2 == w / 2 / 2 % 2
            && v / 2 / 2 / 2 % 2 == w / 2 / 2 / 2 % 2 && v / 2 / 2 / 2 / 2 == q
  {
    var v, w1 := 16 * q + w, w / 2;
    var w2 := w1 / 2;
    var w3 := w2 / 2;
    Halve(w % 2, 8 * q + w1);
    Halve(w1 % 2, 4 * q + w2);
    Halve(w2 % 2, 2 * q + w3);
    Halve(w3, q);
  }

  lemma Digits4(v: nat, n: nat)
    ensures NatBits(v, n + 4)
         == [v % 2 == 1, v / 2 % 2 == 1, v / 2 / 2 % 2 == 1, v / 2 / 2 / 2 % 2 == 1] + NatBits(v / 2 / 2 / 2 / 2, n)
    ensures forall x: nat :: NatBits(x, 0) == []
  {
    var v1 := v / 2;
    var v2 := v1 / 2;
    var v3 := v2 / 2;
    hide NatBits;
    NoNatBits();
    NatBit(v, n + 3); NatBit(v1, n + 2); NatBit(v2, n + 1); NatBit(v3, n);
    Join4(v % 2 == 1, v1 % 2 == 1, v2 % 2 == 1, v3 % 2 == 1, NatBits(v3 / 2, n));
  }

  lemma Join4(a: bool, b: bool, c: bool, d: bool, t: seq<bool>)
    ensures [a] + ([b] + ([c] + ([d] + t))) == [a, b, c, d] + t
  {
  }

  lemma NatBit(v: nat, n: nat)
    ensures NatBits(v, n + 1) == [v % 2 == 1] + NatBits(v / 2, n)
  {
  }

  lemma NoNatBits()
    ensures forall x: nat :: NatBits(x, 0) == []
  {
  }

  lemma ByteDigits(b: byte)
    ensures BitsOf(b) == NatBits(b as nat, 8)
  {
    var v := b as nat;
    Digits4(v, 4);
    Digits4(v / 2 / 2 / 2 / 2, 0);
    Chain(b);
    assert v / 2 / 2 == v / 4 && v / 4 / 2 == v / 8 && v / 8 / 2 == v / 16 && v / 16 / 2 == v / 32;
    assert v / 32 / 2 == v / 64 && v / 64 / 2 == v / 128;
  }

  /** A word stored little-endian goes through the register as that word. */
  lemma WordStored(r: bv32, c: bv32)
    ensures Bitwise(r, LE(Num(c, 32), 4)) == Steps(Xor(r, c), 32)
  {
    hide Bitwise, Word, WordBits, NatBits, Steps, FeedBits, Xor, Low, Bits, Num;
    var v := Num(c, 32);
    BitSerial(r, LE(v, 4));
    StoredBits(v, 4);
    NumBits(c, 32);
    WordIsBits(r, WordBits(c, 32));
    var k := WordOfBits(c, 32);
    AllLow(c, k);
  }

  lemma Residue32()
    ensures Steps(0xffffffff, 32) == 0xdebb20e3
  {
    hide Step, Bits8;
    StepsAdd(0xffffffff, 24);
    StepsAdd(0x2dfd1072, 16);
    StepsAdd(0xbe26ed00, 8);
    StepsAdd(0x00be26ed, 0);
    Eights();
    assert Steps(0xdebb20e3, 0) == 0xdebb20e3;
  }

  lemma Eights()
    ensures Bits8(0xffffffff) == 0x2dfd1072 && Bits8(0x2dfd1072) == 0xbe26ed00
    ensures Bits8(0xbe26ed00) == 0x00be26ed && Bits8(0x00be26ed) == 0xdebb20e3
  {
  }

  lemma StepsAdd(c: bv32, n: nat)
    ensures Steps(c, n + 8) == Steps(Bits8(c), n)
  {
    hide Step, Bits8;
    EightSteps(c);
    var c1 := Step(c);
    var c2 := Step(c1);
    var c3 := Step(c2);
    var c4 := Step(c3);
    var c5 := Step(c4);
    var c6 := Step(c5);
    var c7 := Step(c6);
    assert Steps(c, n + 8) == Steps(c1, n + 7) == Steps(c2, n + 6) == Steps(c3, n + 5) == Steps(c4, n + 4);
    assert Steps(c4, n + 4) == Steps(c5, n + 3) == Steps(c6, n + 2) == Steps(c7, n + 1);
  }

  /** A message followed by its own checksum has the checksum 0x2144df1c. */
  lemma Residue(s: seq<byte>)
    ensures Crc32Value(s + LE(Crc32Value(s), 4)) == 0x2144_df1c
  {
    hide Bitwise, Xor, Steps, Num;
    var r, c := Bitwise(0xffffffff, s), Crc32(s);
    Concatenation(0xffffffff, s, LE(Crc32Value(s), 4));
    WordStored(r, c);
    Complement(r);
    Residue32();
    ResidueNumber();
  }

  lemma Complement(r: bv32)
    ensures Xor(r, Xor(r, 0xffffffff)) == 0xffffffff && Xor(0xdebb20e3, 0xffffffff) == 0x2144df1c
  {
  }

  lemma ResidueNumber()
    ensures Num(0x2144df1c, 32) == 0x2144_df1c
  {
    Nibble(0x2, 0, 0, 0x2);
    Nibble(0x21, 4, 0x2, 0x1);
    Nibble(0x214, 8, 0x21, 0x4);
    Nibble(0x2144, 12, 0x214, 0x4);
    Nibble(0x2144d, 16, 0x2144, 0xd);
    Nibble(0x2144df, 20, 0x2144d, 0xf);
    Nibble(0x2144df1, 24, 0x2144df, 0x1);
    Nibble(0x2144df1c, 28, 0x2144df1, 0xc);
  }
}
