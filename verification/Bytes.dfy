/** Byte buffers and the little-endian codec of `gpt/endian.h`. */
module Bytes {

  newtype byte = x: int | 0 <= x < 256

  /** The bytes are the characters of an ASCII text. */
  predicate Spells(s: seq<byte>, text: string) {
    |s| == |text| && forall i :: 0 <= i < |s| ==> s[i] as int == text[i] as int
  }

  // ---------------------------------------------------------------- little-endian numbers

  function Pow256(n: nat): (r: nat)
    ensures r > 0
  {
    if n == 0 then 1 else 256 * Pow256(n - 1)
  }

  /** The low `n` bytes of `v`, least significant first. */
  function LE(v: nat, n: nat): (s: seq<byte>)
    ensures |s| == n
  {
    if n == 0 then [] else [(v % 256) as byte] + LE(v / 256, n - 1)
  }

  function FromLE(s: seq<byte>): nat {
    if s == [] then 0 else s[0] as nat + 256 * FromLE(s[1..])
  }

  lemma {:induction false} DecodeEncode(v: nat, n: nat)
    requires v < Pow256(n)
    ensures FromLE(LE(v, n)) == v
  {
    if n > 0 {
      DecodeEncode(v / 256, n - 1);
      assert LE(v, n)[1..] == LE(v / 256, n - 1);
    }
  }

  lemma {:induction false} EncodeDecode(s: seq<byte>)
    ensures FromLE(s) < Pow256(|s|) && LE(FromLE(s), |s|) == s
  {
    if s != [] {
      EncodeDecode(s[1..]);
      assert (s[0] as nat + 256 * FromLE(s[1..])) / 256 == FromLE(s[1..]);
      assert s == [s[0]] + s[1..];
    }
  }

  lemma Widths()
    ensures Pow256(1) == 0x100 && Pow256(2) == 0x1_0000 && Pow256(3) == 0x100_0000 && Pow256(4) == 0x1_0000_0000
    ensures Pow256(8) == 0x1_0000_0000_0000_0000
  {
  }

  // ---------------------------------------------------------------- host byte order

  function Reversed(s: seq<byte>): (r: seq<byte>)
    ensures |r| == |s|
  {
    seq(|s|, i requires 0 <= i < |s| => s[|s| - 1 - i])
  }

  /** How a host keeps an `n`-byte integer in memory. */
  function Native(little: bool, v: nat, n: nat): (s: seq<byte>)
    ensures |s| == n
  {
    if little then LE(v, n) else Reversed(LE(v, n))
  }

  function FromNative(little: bool, s: seq<byte>): nat {
    FromLE(if little then s else Reversed(s))
  }

  /** `__swap_16`, `__swap_32`, `__swap_64`: reverse the bytes in memory. */
  function Swap(little: bool, v: nat, n: nat): nat { FromNative(little, Reversed(Native(little, v, n))) }

  method SwapBytes(src: array<byte>) returns (dst: array<byte>)
    ensures fresh(dst) && dst[..] == Reversed(src[..])
  {
    var n := src.Length;
    dst := new byte[n](_ => 0);
    for i := 0 to n
      invariant forall j :: 0 <= j < i ==> dst[j] == src[n - 1 - j]
    {
      dst[i] := src[n - 1 - i];
    }
  }

  /** What `_generic_store_le` leaves in memory. */
  function StoreLE(little: bool, v: nat, n: nat): seq<byte> {
    Native(little, if little then v else Swap(little, v, n), n)
  }

  /** What `_generic_load_le` reads. */
  function LoadLE(little: bool, s: seq<byte>): nat {
    if little then FromNative(little, s) else Swap(little, FromNative(little, s), |s|)
  }

  lemma ReversedTwice(s: seq<byte>)
    ensures Reversed(Reversed(s)) == s
  {
  }

  /** On either kind of host the bytes stored and the value loaded are the little-endian ones. */
  lemma HostIndependent(little: bool, v: nat, s: seq<byte>, n: nat)
    requires v < Pow256(n)
    ensures StoreLE(little, v, n) == LE(v, n)
    ensures LoadLE(little, s) == FromLE(s)
    ensures LoadLE(little, StoreLE(!little, v, n)) == v
  {
    Stored(little, v, n);
    Stored(!little, v, n);
    Loaded(little, s);
    Loaded(little, LE(v, n));
    DecodeEncode(v, n);
  }

  lemma Stored(little: bool, v: nat, n: nat)
    requires v < Pow256(n)
    ensures StoreLE(little, v, n) == LE(v, n)
  {
    if !little {
      ReversedTwice(LE(v, n));
      var w := Swap(little, v, n);
      assert w == FromLE(Reversed(LE(v, n)));
      EncodeDecode(Reversed(LE(v, n)));
      ReversedTwice(LE(v, n));
    }
  }

  lemma Loaded(little: bool, s: seq<byte>)
    ensures LoadLE(little, s) == FromLE(s)
  {
    if !little {
      EncodeDecode(Reversed(s));
      ReversedTwice(s);
      assert Native(little, FromNative(little, s), |s|) == s;
      ReversedTwice(Reversed(s));
    }
  }

  // ---------------------------------------------------------------- buffers

  /** `s` with `d` written over it at `off`. */
  function Splice(s: seq<byte>, off: nat, d: seq<byte>): (r: seq<byte>)
    requires off + |d| <= |s|
    ensures |r| == |s|
    ensures forall i :: 0 <= i < |s| ==> r[i] == if off <= i < off + |d| then d[i - off] else s[i]
  {
    s[..off] + d + s[off + |d|..]
  }

  function Zeros(n: nat): (s: seq<byte>)
    ensures |s| == n && forall i :: 0 <= i < n ==> s[i] == 0
  {
    seq(n, _ => 0)
  }

  function Load(s: seq<byte>, off: nat, n: nat): nat
    requires off + n <= |s|
  {
    FromLE(s[off..off + n])
  }

  lemma SpliceSame(s: seq<byte>, off: nat, d: seq<byte>)
    requires off + |d| <= |s|
    ensures Splice(s, off, d)[off..off + |d|] == d
  {
  }

  lemma SpliceApart(s: seq<byte>, off: nat, d: seq<byte>, a: nat, b: nat)
    requires off + |d| <= |s| && a <= b <= |s| && (b <= off || off + |d| <= a)
    ensures Splice(s, off, d)[a..b] == s[a..b]
  {
  }

  lemma SubSlice(s: seq<byte>, lo: nat, hi: nat, a: nat, b: nat)
    requires lo <= a <= b <= hi <= |s|
    ensures s[a..b] == s[lo..hi][a - lo..b - lo]
  {
    var t := s[lo..hi];
    assert forall i :: 0 <= i < b - a ==> s[a..b][i] == t[a - lo..b - lo][i];
  }

  lemma Within(s: seq<byte>, t: seq<byte>, lo: nat, hi: nat, a: nat, b: nat)
    requires |s| == |t| && lo <= a <= b <= hi <= |s| && t[lo..hi] == s[lo..hi]
    ensures t[a..b] == s[a..b]
  {
    SubSlice(s, lo, hi, a, b);
    SubSlice(t, lo, hi, a, b);
  }

  lemma LoadInside(s: seq<byte>, lo: nat, hi: nat, k: nat, n: nat)
    requires lo + k + n <= hi <= |s|
    ensures Load(s, lo + k, n) == Load(s[lo..hi], k, n)
  {
    SubSlice(s, lo, hi, lo + k, lo + k + n);
  }

  lemma Prefix(s: seq<byte>, t: seq<byte>, a: nat)
    requires a <= |s| == |t| && t[..a] == s[..a]
    ensures t[0..a] == s[0..a]
  {
  }

  lemma Suffix(s: seq<byte>, t: seq<byte>, a: nat)
    requires a <= |s| == |t| && t[a..] == s[a..]
    ensures t[a..|s|] == s[a..|s|]
  {
  }

  lemma ToPrefix(s: seq<byte>, t: seq<byte>, a: nat)
    requires a <= |s| == |t| && t[0..a] == s[0..a]
    ensures t[..a] == s[..a]
  {
  }

  lemma ToSuffix(s: seq<byte>, t: seq<byte>, a: nat)
    requires a <= |s| == |t| && t[a..|s|] == s[a..|s|]
    ensures t[a..] == s[a..]
  {
  }

  method Write(buf: array<byte>, off: nat, d: seq<byte>)
    requires off + |d| <= buf.Length
    modifies buf
    ensures buf[..] == Splice(old(buf[..]), off, d)
  {
    for i := 0 to |d|
      invariant forall j :: 0 <= j < i ==> buf[off + j] == d[j]
      invariant forall j :: 0 <= j < buf.Length && !(off <= j < off + i) ==> buf[j] == old(buf[j])
    {
      buf[off + i] := d[i];
    }
  }

  // ---------------------------------------------------------------- packed structures

  /** A member of a packed structure: its offset and its bytes. */
  datatype Field = Field(off: nat, data: seq<byte>)

  ghost predicate Packed(fs: seq<Field>, size: nat) {
    && (forall i :: 0 <= i < |fs| ==> fs[i].off + |fs[i].data| <= size)
    && (forall i, j :: 0 <= i < j < |fs| ==> fs[i].off + |fs[i].data| <= fs[j].off)
  }

  /** Fields in address order that do not run into their neighbour do not overlap at all. */
  lemma {:induction false} Adjacent(fs: seq<Field>, size: nat)
    requires forall i :: 0 <= i < |fs| - 1 ==> fs[i].off + |fs[i].data| <= fs[i + 1].off
    requires fs != [] ==> fs[|fs| - 1].off + |fs[|fs| - 1].data| <= size
    ensures Packed(fs, size)
  {
    forall i, j | 0 <= i < j < |fs| ensures fs[i].off + |fs[i].data| <= fs[j].off { InOrder(fs, i, j); }
    forall i | 0 <= i < |fs| ensures fs[i].off + |fs[i].data| <= size {
      if i < |fs| - 1 { InOrder(fs, i, |fs| - 1); }
    }
  }

  lemma {:induction false} InOrder(fs: seq<Field>, i: nat, j: nat)
    requires forall i :: 0 <= i < |fs| - 1 ==> fs[i].off + |fs[i].data| <= fs[i + 1].off
    requires i < j < |fs|
    ensures fs[i].off + |fs[i].data| <= fs[j].off
    decreases j
  {
    if i < j - 1 { InOrder(fs, i, j - 1); }
  }

  /** `s` after storing each member of the structure at `base`, in order. */
  ghost function PutFields(s: seq<byte>, base: nat, fs: seq<Field>, size: nat): (r: seq<byte>)
    requires Packed(fs, size) && base + size <= |s|
    ensures |r| == |s|
    decreases |fs|
  {
    if fs == [] then s
    else
      var n := |fs| - 1;
      Splice(PutFields(s, base, fs[..n], size), base + fs[n].off, fs[n].data)
  }

  lemma PackedPrefix(fs: seq<Field>, size: nat)
    requires Packed(fs, size) && fs != []
    ensures Packed(fs[..|fs| - 1], size) && fs[|fs| - 1].off + |fs[|fs| - 1].data| <= size
  {
  }

  lemma FieldBefore(fs: seq<Field>, size: nat, i: nat, j: nat)
    requires Packed(fs, size) && i < j < |fs|
    ensures fs[i].off + |fs[i].data| <= fs[j].off
  {
  }

  lemma {:induction false} LastField(s: seq<byte>, base: nat, fs: seq<Field>, size: nat)
    requires Packed(fs, size) && fs != [] && base + size <= |s|
    ensures var n := |fs| - 1;
            && Packed(fs[..n], size) && fs[n].off + |fs[n].data| <= size
            && PutFields(s, base, fs, size) == Splice(PutFields(s, base, fs[..n], size), base + fs[n].off, fs[n].data)
  {
    hide Splice, Packed;
    PackedPrefix(fs, size);
  }

  lemma {:induction false} FieldKept(s: seq<byte>, base: nat, fs: seq<Field>, size: nat, i: nat)
    requires Packed(fs, size) && base + size <= |s| && i < |fs|
    ensures fs[i].off + |fs[i].data| <= size
    ensures var a := base + fs[i].off;
            PutFields(s, base, fs, size)[a..a + |fs[i].data|] == fs[i].data
    decreases |fs|
  {
    hide Splice, PutFields, Packed;
    LastField(s, base, fs, size);
    var n := |fs| - 1;
    var before, a := PutFields(s, base, fs[..n], size), base + fs[i].off;
    if i == n {
      SpliceSame(before, a, fs[n].data);
    } else {
      FieldKept(s, base, fs[..n], size, i);
      FieldBefore(fs, size, i, n);
      SpliceApart(before, base + fs[n].off, fs[n].data, a, a + |fs[i].data|);
    }
  }

  lemma OutsideKept(s: seq<byte>, base: nat, fs: seq<Field>, size: nat, a: nat, b: nat)
    requires Packed(fs, size) && base + size <= |s| && a <= b <= |s| && (b <= base || base + size <= a)
    ensures PutFields(s, base, fs, size)[a..b] == s[a..b]
  {
    GapKept(s, base, fs, size, a, b);
  }

  lemma OutsideBytes(s: seq<byte>, base: nat, fs: seq<Field>, size: nat)
    requires Packed(fs, size) && base + size <= |s|
    ensures forall i :: 0 <= i < |s| && !(base <= i < base + size) ==> PutFields(s, base, fs, size)[i] == s[i]
  {
    hide Packed, PutFields;
    OutsideKept(s, base, fs, size, 0, base);
    OutsideKept(s, base, fs, size, base + size, |s|);
    var r := PutFields(s, base, fs, size);
    forall i | 0 <= i < |s| && !(base <= i < base + size) ensures r[i] == s[i] {
      if i < base { assert r[i] == r[0..base][i]; } else { assert r[i] == r[base + size..|s|][i - base - size]; }
    }
  }

  /** Bytes that belong to no member stay as they were. */
  lemma {:induction false} GapKept(s: seq<byte>, base: nat, fs: seq<Field>, size: nat, a: nat, b: nat)
    requires Packed(fs, size) && base + size <= |s| && a <= b <= |s|
    requires forall i :: 0 <= i < |fs| ==> b <= base + fs[i].off || base + fs[i].off + |fs[i].data| <= a
    ensures PutFields(s, base, fs, size)[a..b] == s[a..b]
    decreases |fs|
  {
    hide Splice;
    if fs != [] {
      var n := |fs| - 1;
      GapKept(s, base, fs[..n], size, a, b);
      SpliceApart(PutFields(s, base, fs[..n], size), base + fs[n].off, fs[n].data, a, b);
    }
  }

  /** A byte that a member covers does not show what was there before. */
  lemma {:induction false} SameAt(s: seq<byte>, t: seq<byte>, fs: seq<Field>, size: nat, i: nat, j: nat)
    requires Packed(fs, size) && size <= |s| == |t| && i < |s|
    requires s[i] == t[i] || (j < |fs| && fs[j].off <= i < fs[j].off + |fs[j].data|)
    ensures PutFields(s, 0, fs, size)[i] == PutFields(t, 0, fs, size)[i]
    decreases |fs|
  {
    hide Packed, Splice;
    if fs != [] {
      var n := |fs| - 1;
      LastField(s, 0, fs, size);
      LastField(t, 0, fs, size);
      hide PutFields;
      if !(fs[n].off <= i < fs[n].off + |fs[n].data|) { SameAt(s, t, fs[..n], size, i, j); }
    }
  }

  /** Storing a structure inside a buffer is storing it on its own bytes. */
  lemma {:induction false} PutFieldsLocal(s: seq<byte>, base: nat, fs: seq<Field>, size: nat)
    requires Packed(fs, size) && base + size <= |s|
    ensures PutFields(s, base, fs, size)[base..base + size] == PutFields(s[base..base + size], 0, fs, size)
    decreases |fs|
  {
    hide Splice, Packed;
    if fs != [] {
      var n := |fs| - 1;
      LastField(s, base, fs, size);
      LastField(s[base..base + size], 0, fs, size);
      hide PutFields;
      PutFieldsLocal(s, base, fs[..n], size);
      SpliceLocal(PutFields(s, base, fs[..n], size), base, size, fs[n].off, fs[n].data);
    }
  }

  lemma SpliceLocal(s: seq<byte>, base: nat, size: nat, off: nat, d: seq<byte>)
    requires base + size <= |s| && off + |d| <= size
    ensures Splice(s, base + off, d)[base..base + size] == Splice(s[base..base + size], off, d)
  {
  }

  method StoreFields(buf: array<byte>, base: nat, fs: seq<Field>, ghost size: nat)
    requires Packed(fs, size) && base + size <= buf.Length
    modifies buf
    ensures buf[..] == PutFields(old(buf[..]), base, fs, size)
  {
    hide Splice;
    for i := 0 to |fs|
      invariant buf[..] == PutFields(old(buf[..]), base, fs[..i], size)
    {
      Write(buf, base + fs[i].off, fs[i].data);
      assert fs[..i + 1][..i] == fs[..i];
    }
    assert fs[..|fs|] == fs;
  }
}
