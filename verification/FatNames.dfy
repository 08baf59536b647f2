/** Names in directory entries: the loops of `FAT32Copyin` that fill the name field. */
module FatNames {
  import opened Bytes
  import opened FatImage

  const DOT: byte := 0x2e

  /** Where the suffix starts, dot included. */
  function Dot(name: seq<byte>): (d: nat)
    ensures d <= |name| && DOT !in name[..d] && (d < |name| ==> name[d] == DOT)
  {
    if name == [] || name[0] == DOT then 0 else 1 + Dot(name[1..])
  }

  /** C strings whose parts stay inside the entry and whose entry counts as used. */
  ghost predicate NameOk(name: seq<byte>) {
    && 0 < Dot(name) <= 32 && |name| - Dot(name) <= 24 && forall i :: 0 <= i < |name| ==> name[i] != 0
  }

  /** The eleven bytes that are left of it: what comes before the dot, cut off and over-written by the
      suffix from the ninth byte on, zeros between. */
  function ShortName(name: seq<byte>): (s: seq<byte>)
    ensures |s| == NAME
  {
    seq(NAME, k requires 0 <= k < NAME => Laid(name, |name| - Dot(name), k))
  }

  method CopyName(buf: array<byte>, slot: nat, name: seq<byte>)
    requires NameOk(name) && slot + DIRENT <= buf.Length && forall k :: slot <= k < slot + DIRENT ==> buf[k] == 0
    modifies buf
    ensures buf[slot..slot + NAME] == ShortName(name)
    ensures forall k :: 0 <= k < buf.Length && !(slot <= k < slot + DIRENT) ==> buf[k] == old(buf[k])
  {
    var i := 0;
    while i < |name| && name[i] != DOT
      invariant i <= Dot(name)
      invariant forall k :: slot <= k < slot + DIRENT ==> buf[k] == if k < slot + i then name[k - slot] else 0
      invariant forall k :: 0 <= k < buf.Length && !(slot <= k < slot + DIRENT) ==> buf[k] == old(buf[k])
    {
      NotYet(name, i);
      buf[slot + i] := name[i];
      i := i + 1;
    }
    ghost var d := i;
    if i < |name| {
      var pt := 8;
      while i < |name|
        invariant d == Dot(name) <= i <= |name| && pt == 8 + i - d
        invariant forall k :: slot <= k < slot + DIRENT ==> buf[k] == Laid(name, pt - 8, k - slot)
        invariant forall k :: 0 <= k < buf.Length && !(slot <= k < slot + DIRENT) ==> buf[k] == old(buf[k])
      {
        buf[slot + pt] := name[i];
        i, pt := i + 1, pt + 1;
      }
    }
    forall k | 0 <= k < NAME ensures buf[slot..slot + NAME][k] == ShortName(name)[k] {
      assert buf[slot..slot + NAME][k] == buf[slot + k];
    }
  }

  lemma ShortFirst(name: seq<byte>)
    requires NameOk(name)
    ensures |ShortName(name)| == NAME && ShortName(name)[0] != 0
  {
  }

  /** Byte `k` of the entry once `n` characters of the suffix are copied. */
  function Laid(name: seq<byte>, n: nat, k: nat): byte
    requires n <= |name| - Dot(name)
  {
    var d := Dot(name);
    if 8 <= k < 8 + n then name[d + k - 8] else if k < d then name[k] else 0
  }

  lemma NotYet(name: seq<byte>, i: nat)
    requires i <= Dot(name) && i < |name| && name[i] != DOT
    ensures i < Dot(name)
  {
  }

  /** The first `n` bytes, padded with zeros. */
  function Pad(s: seq<byte>, n: nat): (p: seq<byte>)
    ensures |p| == n && forall i :: 0 <= i < n ==> p[i] == if i < |s| then s[i] else 0
  {
    if |s| <= n then s + Zeros(n - |s|) else s[..n]
  }

  function Cut(s: seq<byte>, n: nat): seq<byte> { if |s| <= n then s else s[..n] }

  /** A name of at most eight characters is kept; of a suffix the dot and two characters are. */
  lemma KeptParts(name: seq<byte>)
    requires Dot(name) <= 8
    ensures ShortName(name) == Pad(name[..Dot(name)], 8) + Pad(name[Dot(name)..], 3)
  {
    hide Pad;
    var d := Dot(name);
    var p := Pad(name[..d], 8) + Pad(name[d..], 3);
    forall k | 0 <= k < NAME ensures ShortName(name)[k] == p[k] {
      if k >= 8 { assert p[k] == Pad(name[d..], 3)[k - 8]; } else { assert p[k] == Pad(name[..d], 8)[k]; }
    }
  }

  /** With and without a suffix. */
  lemma StemAndSuffix(stem: seq<byte>, ext: seq<byte>)
    requires |stem| <= 8 && 0x2e !in stem
    ensures ShortName(stem) == Pad(stem, 8) + Zeros(3)
    ensures ShortName(stem + [0x2e] + ext) == Pad(stem, 8) + [0x2e] + Pad(ext, 2)
  {
    var name := stem + [0x2e] + ext;
    DotIs(stem, |stem|);
    DotIs(name, |stem|);
    hide ShortName, Pad;
    KeptParts(stem);
    KeptParts(name);
    assert stem[..|stem|] == stem && Pad(stem[|stem|..], 3) == Zeros(3);
    assert name[..|stem|] == stem && name[|stem|..] == [0x2e] + ext;
    assert Pad([0x2e] + ext, 3) == [0x2e] + Pad(ext, 2);
  }

  lemma {:induction false} DotIs(name: seq<byte>, d: nat)
    requires d <= |name| && (forall i :: 0 <= i < d ==> name[i] != 0x2e) && (d < |name| ==> name[d] == 0x2e)
    ensures Dot(name) == d
    decreases d
  {
    if d > 0 { DotIs(name[1..], d - 1); }
  }

  lemma LongerDiffers(s: seq<byte>, t: seq<byte>, n: nat)
    requires 0 !in t && |s| < n && |s| < |t|
    ensures Pad(s, n) != Pad(t, n)
  {
    assert Pad(s, n)[|s|] == 0 && Pad(t, n)[|s|] == t[|s|];
  }

  lemma PadInjective(s: seq<byte>, t: seq<byte>, n: nat)
    requires 0 !in s && 0 !in t
    ensures Pad(s, n) == Pad(t, n) <==> Cut(s, n) == Cut(t, n)
  {
    if |s| < n && |s| < |t| { LongerDiffers(s, t, n); }
    if |t| < n && |t| < |s| { LongerDiffers(t, s, n); }
    if Pad(s, n) == Pad(t, n) {
      forall k | 0 <= k < |Cut(s, n)| ensures Cut(s, n)[k] == Cut(t, n)[k] {
        assert Pad(s, n)[k] == s[k] && Pad(t, n)[k] == t[k];
      }
    }
  }

  /** So two such names get the same field exactly if they agree in front of the dot and in the first three
      bytes from the dot on. */
  lemma SameField(a: seq<byte>, b: seq<byte>)
    requires NameOk(a) && NameOk(b) && Dot(a) <= 8 && Dot(b) <= 8
    ensures ShortName(a) == ShortName(b)
            <==> a[..Dot(a)] == b[..Dot(b)] && Cut(a[Dot(a)..], 3) == Cut(b[Dot(b)..], 3)
  {
    KeptParts(a);
    KeptParts(b);
    var a1, a2, b1, b2 := a[..Dot(a)], a[Dot(a)..], b[..Dot(b)], b[Dot(b)..];
    assert Cut(a1, 8) == a1 && Cut(b1, 8) == b1;
    PadInjective(a1, b1, 8);
    PadInjective(a2, b2, 3);
    hide Pad, ShortName, Cut;
    var s, t := Pad(a1, 8) + Pad(a2, 3), Pad(b1, 8) + Pad(b2, 3);
    assert s[..8] == Pad(a1, 8) && s[8..] == Pad(a2, 3) && t[..8] == Pad(b1, 8) && t[8..] == Pad(b2, 3);
  }
}
