/** Reading files back: by following allocation chains, and as the boot loader does, sector by
    sector from the start sector that the copy returned (`bootloader/vmlinux.c`). */
module FatRead {
  import opened Bytes
  import opened FatLayout
  import opened FatImage
  import opened FatSteps
  import opened FatCopy
  import opened FatNames
  import opened FatFiles
  import opened FatBoot
  import FatFormat
  import FatSpec

  // ---------------------------------------------------------------- a reader that follows the tables

  /** Clusters of the chain that starts at `c`, following at most `fuel` links. */
  ghost function Walk(img: seq<byte>, l: Layout, c: nat, fuel: nat): (cs: seq<nat>)
    requires Sized(img, l)
    ensures forall i :: 0 <= i < |cs| ==> 2 <= cs[i] < MaxCluster(l)
    decreases fuel
  {
    if fuel == 0 || c < 2 || c >= MaxCluster(l) then []
    else
      var next := Entry(img, l, c);
      [c] + if next == EOC then [] else Walk(img, l, next, fuel - 1)
  }

  /** Bytes of the given clusters, in order. */
  ghost function Gather(img: seq<byte>, l: Layout, cs: seq<nat>): (s: seq<byte>)
    requires Formatted(l) && |img| == Size(l) && forall i :: 0 <= i < |cs| ==> 2 <= cs[i] < MaxCluster(l)
    decreases |cs|
  {
    if cs == [] then []
    else
      var n := |cs| - 1;
      ClusterInside(l, cs[n]);
      Gather(img, l, cs[..n]) + img[ClusterAt(l, cs[n])..ClusterAt(l, cs[n]) + Bpc(l)]
  }

  function Range(a: nat, b: nat): (s: seq<nat>)
    requires a <= b
    ensures |s| == b - a && forall i :: 0 <= i < |s| ==> s[i] == a + i
  {
    seq(b - a, i requires i >= 0 => a + i)
  }

  lemma {:induction false} WalkRun(img: seq<byte>, l: Layout, s: nat, n: nat, c: nat, fuel: nat)
    requires Sized(img, l) && 2 <= s <= c < s + n <= MaxCluster(l) && Run(img, l, s, n) && fuel >= s + n - c
    ensures Walk(img, l, c, fuel) == Range(c, s + n)
    decreases s + n - c
  {
    hide Entry, MaxCluster, Bpc, FatBytes, Fat0, Fat1, Data;
    assert Entry(img, l, c) == if c == s + n - 1 then EOC else c + 1;
    MaxBelowMark(img, l);
    if c < s + n - 1 {
      WalkRun(img, l, s, n, c + 1, fuel - 1);
      assert Range(c, s + n) == [c] + Range(c + 1, s + n);
    } else {
      assert Range(c, s + n) == [c];
    }
  }

  lemma MaxBelowMark(img: seq<byte>, l: Layout)
    requires Sized(img, l)
    ensures MaxCluster(l) < EOC
  {
  }

  lemma {:induction false} GatherRange(img: seq<byte>, l: Layout, s: nat, e: nat)
    requires Formatted(l) && |img| == Size(l) && 2 <= s <= e <= MaxCluster(l)
    ensures ClusterAt(l, s) <= ClusterAt(l, e) <= |img|
    ensures Gather(img, l, Range(s, e)) == img[ClusterAt(l, s)..ClusterAt(l, e)]
    decreases e
  {
    hide MaxCluster, Bpc, Size, Data, Formatted, ClusterAt;
    ClusterSteps(l, s, e);
    ClusterEnd(l, e);
    if s < e {
      GatherRange(img, l, s, e - 1);
      ClusterSteps(l, s, e - 1);
      ClusterSteps(l, e - 1, e);
      assert Range(s, e)[..e - s - 1] == Range(s, e - 1);
      assert img[ClusterAt(l, s)..ClusterAt(l, e)]
          == img[ClusterAt(l, s)..ClusterAt(l, e - 1)] + img[ClusterAt(l, e - 1)..ClusterAt(l, e)];
    }
  }

  /** For every file ever copied in: its directory entry leads to a contiguous chain whose bytes,
      cut to the recorded size, are exactly the file. */
  lemma ReadBack(img: seq<byte>, v: Volume, i: nat)
    requires Files(img, v) && i < |v.files|
    ensures Data(v.l) + DIRENT * (i + 1) <= |img|
    ensures var f := v.files[i];
            var cs := Walk(img, v.l, DirStart(img, v.l, i), MaxCluster(v.l));
            && cs == Range(f.start, f.start + Clusters(v.l, f))
            && DirSize(img, v.l, i) <= |Gather(img, v.l, cs)|
            && Gather(img, v.l, cs)[..DirSize(img, v.l, i)] == f.data
  {
    hide MaxCluster, Bpc, Size, Formatted, FatBytes, Fat0, Fat1, Data, ClusterAt, Boot, Info, Dir, Tables, Contents,
         DirStart, DirSize, Clusters, Entry, Run, Walk, Gather, NextFree;
    var f := v.files[i];
    var n := Clusters(v.l, f);
    DirRead(img, v, i);
    FileBounds(v, i);
    FileThere(img, v, i);
    WalkRun(img, v.l, f.start, n, f.start, MaxCluster(v.l));
    GatherRange(img, v.l, f.start, f.start + n);
    var a := ClusterAt(v.l, f.start);
    assert img[a..ClusterAt(v.l, f.start + n)][..|f.data|] == img[a..a + |f.data|];
  }

  // ---------------------------------------------------------------- the boot loader

  const SECTSIZE: nat := 512

  /** Offsets and sector numbers are 32-bit. */
  function Offset(foff: nat, i: nat): nat { (foff + i) % U32 }

  function SectorStart(fstart: nat, off: nat): nat { (fstart + off / SECTSIZE) % U32 * SECTSIZE }

  function InSector(off: nat): (r: nat)
    ensures r < SECTSIZE
  {
    off % SECTSIZE
  }

  /** Where byte `i` is read. */
  function Place(fstart: nat, foff: nat, i: nat): nat {
    SectorStart(fstart, Offset(foff, i)) + InSector(Offset(foff, i))
  }

  function BytesRead(disk: seq<byte>, fstart: nat, foff: nat, n: nat): (s: seq<byte>)
    requires forall i: nat :: i < n ==> Place(fstart, foff, i) < |disk|
    ensures |s| == n && forall i: nat :: i < n ==> s[i] == disk[Place(fstart, foff, i)]
  {
    seq(n, i requires 0 <= i < n => disk[Place(fstart, foff, i)])
  }

  /** `__k_readfile`: reads sector by sector. */
  method KReadFile(disk: seq<byte>, dst: array<byte>, at: nat, fstart: nat, foff: nat, fsize: nat)
    requires fstart < U32 && foff < U32 && fsize < U32
    requires |disk| % SECTSIZE == 0 && forall i: nat :: i < fsize ==> Place(fstart, foff, i) < |disk|
    requires at + fsize <= dst.Length
    modifies dst
    ensures dst[..] == Splice(old(dst[..]), at, BytesRead(disk, fstart, foff, fsize))
  {
    hide Splice, Place, Offset, SectorStart, InSector, BytesRead;
    var left: nat, off: nat, to: nat := fsize, foff, at;
    ghost var d0 := dst[..];
    NothingYet(d0, at);
    OffsetZero(foff);
    assert BytesRead(disk, fstart, foff, 0) == [];
    while left != 0
      invariant left <= fsize && off == Offset(foff, fsize - left) && to == at + (fsize - left)
      invariant dst[..] == Splice(d0, at, BytesRead(disk, fstart, foff, fsize - left))
      decreases left
    {
      ghost var done := fsize - left;
      var nb := SECTSIZE - InSector(off);
      if nb > left { nb := left; }
      SectorThere(|disk|, fstart, foff, done);
      var data := ReadSector(disk, fstart, off);
      Chunk(disk, fstart, foff, done, nb);
      Write(dst, to, data[InSector(off)..InSector(off) + nb]);
      SpliceTwice(d0, at, BytesRead(disk, fstart, foff, done), BytesRead(disk, fstart, foff, done + nb)[done..]);
      OffsetStep(foff, done, nb);
      left, off, to := left - nb, (off + nb) % U32, to + nb;
    }
  }

  method ReadSector(disk: seq<byte>, fstart: nat, off: nat) returns (data: seq<byte>)
    requires SectorStart(fstart, off) + SECTSIZE <= |disk|
    ensures data == disk[SectorStart(fstart, off)..SectorStart(fstart, off) + SECTSIZE]
  {
    var sector := (fstart + off / SECTSIZE) % U32;
    data := disk[sector * SECTSIZE..sector * SECTSIZE + SECTSIZE];
  }

  lemma OffsetZero(foff: nat)
    requires foff < U32
    ensures Offset(foff, 0) == foff
  {
  }

  lemma OffsetStep(foff: nat, i: nat, n: nat)
    ensures (Offset(foff, i) + n) % U32 == Offset(foff, i + n)
  {
  }

  lemma SectorThere(size: nat, fstart: nat, foff: nat, i: nat)
    requires size % SECTSIZE == 0 && Place(fstart, foff, i) < size
    ensures SectorStart(fstart, Offset(foff, i)) + SECTSIZE <= size
  {
    hide Offset;
    var n := size / SECTSIZE;
    assert size == n * SECTSIZE;
  }

  /** Bytes of one sector are read from consecutive places. */
  lemma Chunk(disk: seq<byte>, fstart: nat, foff: nat, done: nat, nb: nat)
    requires |disk| % SECTSIZE == 0 && forall i: nat :: i < done + nb ==> Place(fstart, foff, i) < |disk|
    requires 0 < nb <= SECTSIZE - InSector(Offset(foff, done))
    ensures var off := Offset(foff, done);
            var at, start := SectorStart(fstart, off), InSector(off);
            && at + SECTSIZE <= |disk|
            && disk[at..at + SECTSIZE][start..start + nb] == BytesRead(disk, fstart, foff, done + nb)[done..]
            && BytesRead(disk, fstart, foff, done) + BytesRead(disk, fstart, foff, done + nb)[done..]
               == BytesRead(disk, fstart, foff, done + nb)
  {
    SectorThere(|disk|, fstart, foff, done);
    hide Offset, SectorStart, InSector, BytesRead;
    forall i: nat | done <= i < done + nb ensures Place(fstart, foff, i) == Place(fstart, foff, done) + (i - done) {
      Neighbours(foff, done, i - done);
    }
  }

  /** Sectors tile the 32-bit offsets, so an offset wraps only at the start of a sector. */
  lemma Neighbours(foff: nat, i: nat, j: nat)
    requires InSector(Offset(foff, i)) + j < SECTSIZE
    ensures Offset(foff, i + j) == Offset(foff, i) + j && InSector(Offset(foff, i + j)) == InSector(Offset(foff, i)) + j
    ensures Offset(foff, i + j) / SECTSIZE == Offset(foff, i) / SECTSIZE
    ensures forall fstart: nat :: SectorStart(fstart, Offset(foff, i + j)) == SectorStart(fstart, Offset(foff, i))
  {
  }

  lemma SpliceTwice(s: seq<byte>, at: nat, d: seq<byte>, e: seq<byte>)
    requires at + |d| + |e| <= |s|
    ensures Splice(Splice(s, at, d), at + |d|, e) == Splice(s, at, d + e)
  {
  }

  /** The bytes read are consecutive bytes of the disk exactly if neither the offset nor the sector
      number wraps. */
  lemma Consecutive(fstart: nat, foff: nat, fsize: nat)
    requires fstart < 0x1_0000_0000 && foff < 0x1_0000_0000
    ensures (forall i: nat :: i < fsize ==> Place(fstart, foff, i) == fstart * 512 + foff + i)
            <==> fsize == 0 || (foff + fsize <= 0x1_0000_0000 && fstart + (foff + fsize - 1) / 512 < 0x1_0000_0000)
  {
    if fsize > 0 && foff + fsize <= U32 && fstart + (foff + fsize - 1) / SECTSIZE < U32 {
      forall i: nat | i < fsize ensures Place(fstart, foff, i) == fstart * SECTSIZE + foff + i {
        Quotients(foff + i, foff + fsize - 1);
        PlaceAt(fstart, foff, i);
      }
    } else if fsize > 0 && foff + fsize > U32 {
      assert Place(fstart, foff, U32 - foff) == fstart * SECTSIZE;
    } else if fsize > 0 {
      assert Place(fstart, foff, fsize - 1) < U32 * SECTSIZE;
    }
  }

  /** For one: the byte behind the last 32-bit offset is read from the start of the file. */
  lemma OffsetWraps()
    ensures Place(0, 0xffff_ffff, 1) == 0
  {
  }

  lemma Quotients(a: nat, b: nat)
    requires a <= b
    ensures a / SECTSIZE <= b / SECTSIZE
  {
  }

  lemma PlaceAt(fstart: nat, foff: nat, i: nat)
    requires foff + i < U32 && fstart + (foff + i) / SECTSIZE < U32
    ensures Place(fstart, foff, i) == fstart * SECTSIZE + foff + i
  {
    assert Offset(foff, i) == foff + i;
  }

  lemma NothingYet(s: seq<byte>, at: nat)
    requires at <= |s|
    ensures Splice(s, at, []) == s
  {
  }

  /** The sector at which file `i` starts. */
  ghost function StartSector(v: Volume, i: nat): nat
    requires i < |v.files|
  {
    if v.files[i].start < 2 then 0 else SectorOf(v.l, v.files[i].start)
  }

  /** On a disk whose partition at sector `part` holds the volume, the loader reads any part of any
      copied file from the sector its copy returned. */
  method LoadCopied(disk: seq<byte>, dst: array<byte>, at: nat, part: nat, img: seq<byte>, ret: nat, foff: nat,
                    fsize: nat, ghost v: Volume, ghost i: nat)
    requires Files(img, v) && v.l.bps == 512 && i < |v.files| && ret == StartSector(v, i)
    requires |disk| % 512 == 0 && |disk| < 0x1_0000_0000 * 512 && part * 512 + |img| <= |disk|
    requires disk[part * 512..part * 512 + |img|] == img
    requires foff + fsize <= |v.files[i].data| && at + fsize <= dst.Length
    modifies dst
    ensures dst[..] == Splice(old(dst[..]), at, v.files[i].data[foff..foff + fsize])
  {
    hide Files, Place, BytesRead, SectorOf, Splice, ClusterAt;
    Located(img, v, i);
    ghost var data := v.files[i].data;
    LoadSlice(disk, part + ret, img, part * SECTSIZE, ClusterAt(v.l, v.files[i].start), data, foff, fsize);
    KReadFile(disk, dst, at, part + ret, foff, fsize);
  }

  /** Where a file's bytes are. */
  lemma Located(img: seq<byte>, v: Volume, i: nat)
    requires Files(img, v) && i < |v.files|
    ensures var f := v.files[i];
            && f.start >= 2 && |f.data| < U32 && SectorOf(v.l, f.start) * v.l.bps == ClusterAt(v.l, f.start)
            && ClusterAt(v.l, f.start) + |f.data| <= |img|
            && img[ClusterAt(v.l, f.start)..ClusterAt(v.l, f.start) + |f.data|] == f.data
  {
    hide MaxCluster, Bpc, Size, Formatted, FatBytes, Fat0, Fat1, Data, ClusterAt, Clusters, NextFree, SectorOf;
    FileBounds(v, i);
    FileThere(img, v, i);
    SectorBytes(v.l, v.files[i].start);
  }

  /** What the loader reads is a slice of the disk, and that is a slice of the file. */
  lemma LoadSlice(disk: seq<byte>, fstart: nat, img: seq<byte>, p: nat, a: nat, data: seq<byte>, foff: nat, fsize: nat)
    requires |disk| < U32 * SECTSIZE && p + |img| <= |disk| && disk[p..p + |img|] == img
    requires a + |data| <= |img| && img[a..a + |data|] == data && foff + fsize <= |data| < U32
    requires fstart * SECTSIZE == p + a
    ensures fstart < U32 && forall j: nat :: j < fsize ==> Place(fstart, foff, j) < |disk|
    ensures BytesRead(disk, fstart, foff, fsize) == data[foff..foff + fsize]
  {
    hide Place, BytesRead;
    FileOnDisk(disk, img, p, a, data, foff, fsize);
    ReadsSlice(disk, fstart, foff, fsize);
  }

  lemma ReadsSlice(disk: seq<byte>, fstart: nat, foff: nat, fsize: nat)
    requires |disk| < U32 * SECTSIZE && fstart * SECTSIZE + foff + fsize <= |disk| && foff + fsize < U32
    ensures fstart < U32 && forall i: nat :: i < fsize ==> Place(fstart, foff, i) < |disk|
    ensures BytesRead(disk, fstart, foff, fsize) == disk[fstart * SECTSIZE + foff..fstart * SECTSIZE + foff + fsize]
  {
    Consecutive(fstart, foff, fsize);
    hide Place;
  }

  lemma FileOnDisk(disk: seq<byte>, img: seq<byte>, p: nat, a: nat, data: seq<byte>, foff: nat, fsize: nat)
    requires p + |img| <= |disk| && disk[p..p + |img|] == img && a + |data| <= |img| && img[a..a + |data|] == data
    requires foff + fsize <= |data|
    ensures disk[p + a + foff..p + a + foff + fsize] == data[foff..foff + fsize]
  {
    SubSlice(disk, p, p + |img|, p + a + foff, p + a + foff + fsize);
    SubSlice(img, a, a + |data|, a + foff, a + foff + fsize);
  }

  // ---------------------------------------------------------------- whole sessions

  datatype Request = Request(content: seq<byte>, io: Io, name: seq<byte>, attr: byte)

  ghost predicate RequestOk(r: Request) {
    && r.io.got <= StoredSize(r.content)
    && NameOk(r.name)
  }

  /** The request whose copy an assertion aborts. */
  ghost predicate Stops(v: Volume, r: Request) { Aborts(v, StoredSize(r.content), r.io) }

  ghost function After(v: Volume, r: Request): Volume {
    if Succeeds(v, StoredSize(r.content), r.io) then Add(v, NewFile(v, r.name, r.attr, r.content)) else v
  }

  /** The volume after a sequence of requests, successful and failed ones in any order. */
  ghost function VolumeAfter(v: Volume, rs: seq<Request>): (w: Volume)
    ensures w.l == v.l && w.media == v.media && v.files <= w.files
    decreases |rs|
  {
    if rs == [] then v else After(VolumeAfter(v, rs[..|rs| - 1]), rs[|rs| - 1])
  }

  /** What a copy returns: the start sector of the new file, 0 if there is none. */
  ghost predicate Gave(v: Volume, r: Request, sector: nat) {
    var w := After(v, r);
    if w == v then sector == 0
    else |w.files| == |v.files| + 1 && sector > 0 && sector == StartSector(w, |v.files|)
  }

  /** One request: the volume moves on and a successful copy returns the start sector of its file, or
      the copy aborts and leaves all files readable. */
  method Serve(buf: array<byte>, r: Request, ghost v: Volume) returns (ok: bool, sector: nat)
    requires Inv(buf[..], v) && RequestOk(r)
    modifies buf
    ensures ok <==> !Stops(v, r)
    ensures ok ==> Inv(buf[..], After(v, r))
    ensures ok ==> Gave(v, r, sector)
    ensures !ok ==> Files(buf[..], v)
  {
    hide Inv, Succeeds, Aborts, Files, Stranded, SectorOf;
    ghost var img := buf[..];
    IsCore(img, v);
    SectorPositive(v);
    var ret := CopyIn(buf, r.content, r.io, r.name, r.attr, v);
    ok, sector := ret.Returned?, if ret.Returned? then ret.sector else 0;
    if !ok { StrandedFiles(img, buf[..], v, NewFile(v, r.name, r.attr, r.content)); }
  }

  /** Any sequence of copies, up to the first that aborts: exactly those of the requests before it
      that succeed are on the volume, and the abort leaves them readable. */
  method Session(buf: array<byte>, rs: seq<Request>, ghost v: Volume) returns (done: nat, sectors: seq<nat>)
    requires Inv(buf[..], v) && forall k :: 0 <= k < |rs| ==> RequestOk(rs[k])
    modifies buf
    ensures done <= |rs| && forall k :: 0 <= k < done ==> !Stops(VolumeAfter(v, rs[..k]), rs[k])
    ensures done < |rs| ==> Stops(VolumeAfter(v, rs[..done]), rs[done])
    ensures done == |rs| ==> Inv(buf[..], VolumeAfter(v, rs))
    ensures Files(buf[..], VolumeAfter(v, rs[..done]))
    ensures StartsOf(VolumeAfter(v, rs[..done]), |v.files|, sectors)
  {
    hide Inv, Files, Stops, After, RequestOk, StartSector, Gave, StartsOf, VolumeAfter;
    NoStarts(v);
    NoRequests(v, rs);
    sectors := [];
    for k := 0 to |rs|
      invariant Inv(buf[..], VolumeAfter(v, rs[..k]))
      invariant forall j :: 0 <= j < k ==> !Stops(VolumeAfter(v, rs[..j]), rs[j])
      invariant StartsOf(VolumeAfter(v, rs[..k]), |v.files|, sectors)
    {
      ghost var w := VolumeAfter(v, rs[..k]);
      var ok, sector := Serve(buf, rs[k], w);
      if !ok { return k, sectors; }
      OneMore(v, rs, k);
      StartsGrow(w, rs[k], |v.files|, sectors, sector);
      if sector != 0 { sectors := sectors + [sector]; }
    }
    assert rs[..|rs|] == rs;
    IsCore(buf[..], VolumeAfter(v, rs));
    return |rs|, sectors;
  }

  /** `sectors` are the start sectors of the files from the `n`-th on. */
  ghost predicate StartsOf(v: Volume, n: nat, sectors: seq<nat>) {
    |v.files| == n + |sectors| && forall i :: 0 <= i < |sectors| ==> sectors[i] == StartSector(v, n + i)
  }

  lemma NoRequests(v: Volume, rs: seq<Request>)
    ensures VolumeAfter(v, rs[..0]) == v
  {
  }

  lemma OneMore(v: Volume, rs: seq<Request>, k: nat)
    requires k < |rs|
    ensures VolumeAfter(v, rs[..k + 1]) == After(VolumeAfter(v, rs[..k]), rs[k])
  {
    hide After;
    assert rs[..k + 1][..k] == rs[..k];
  }

  lemma NoStarts(v: Volume)
    ensures StartsOf(v, |v.files|, [])
  {
  }

  lemma StartsGrow(v: Volume, r: Request, n: nat, sectors: seq<nat>, sector: nat)
    requires StartsOf(v, n, sectors) && Gave(v, r, sector)
    ensures StartsOf(After(v, r), n, if sector != 0 then sectors + [sector] else sectors)
  {
    hide Succeeds, NewFile, SectorOf;
  }

  /** If the file is that long, the bytes asked for were copied. */
  ghost predicate Loaded(before: seq<byte>, after: seq<byte>, at: nat, v: Volume, i: nat, foff: nat, fsize: nat) {
    i < |v.files| && foff + fsize <= |v.files[i].data| && at + fsize <= |before| ==>
      after == Splice(before, at, v.files[i].data[foff..foff + fsize])
  }

  /** The sector a copy returned still leads the loader to that copy's file after any later copies, up
      to and beyond an abort. `before` and `behind` are what surrounds the partition on the disk. */
  method CopyThenLoad(buf: array<byte>, rs: seq<Request>, ghost v: Volume, l: Layout, n: nat, before: seq<byte>,
                      behind: seq<byte>, dst: array<byte>, at: nat, i: nat, foff: nat, fsize: nat)
    returns (done: nat, sectors: seq<nat>)
    requires Inv(buf[..], v) && v.l == l && |v.files| == n && l.bps == 512
             && (forall k :: 0 <= k < |rs| ==> RequestOk(rs[k])) && buf != dst
    requires |before| % 512 == 0 && (|before| + buf.Length + |behind|) % 512 == 0
    requires |before| + buf.Length + |behind| < 0x1_0000_0000 * 512 && at + fsize <= dst.Length
    modifies buf, dst
    ensures done <= |rs|
    ensures var w := VolumeAfter(v, rs[..done]);
            && |w.files| == n + |sectors|
            && (i < |sectors| ==> Loaded(old(dst[..]), dst[..], at, w, n + i, foff, fsize))
  {
    hide Inv, Files, VolumeAfter, RequestOk, Splice, StartSector, DirSize, Data;
    done, sectors := Session(buf, rs, v);
    ghost var w := VolumeAfter(v, rs[..done]);
    if i < |sectors| {
      DirRead(buf[..], w, n + i);
      if foff + fsize <= DirSize(buf[..], l, n + i) {
        var disk := before + buf[..] + behind;
        var part := |before| / SECTSIZE;
        assert part * SECTSIZE == |before|;
        assert disk[|before|..|before| + buf.Length] == buf[..];
        LoadCopied(disk, dst, at, part, buf[..], sectors[i], foff, fsize, w, n + i);
      }
    }
  }

  lemma IsCore(img: seq<byte>, v: Volume)
    requires Inv(img, v)
    ensures Core(img, v) && Files(img, v)
  {
    hide Boot, Info, Tables, Contents, Shape, Bpc, MaxCluster, Data, Fat0, Fat1, FatBytes;
  }

  /** An abort damages no earlier file. */
  lemma StrandedFiles(img: seq<byte>, im: seq<byte>, v: Volume, f: File)
    requires Core(img, v) && Stranded(img, im, v, f)
    ensures Files(im, v)
  {
    hide Bpc, Size, MaxCluster, Shape, ClusterAt, Data, Fat0, Fat1, FatBytes, NextFree, Tables, Contents, Info,
         DirBytes, BpbBytes;
    if im != img {
      var d, slot := Data(v.l), Data(v.l) + DIRENT * |v.files|;
      assert im[0..slot] == img[0..slot] && im[slot + DIRENT..|img|] == img[slot + DIRENT..|img|];
      Within(img, im, 0, slot, 0, 2 * v.l.bps);
      Within(img, im, 0, slot, Fat0(v.l), d);
      Within(img, im, 0, slot, 0, INFO);
      TablesSame(img, im, v, d);
      ContentsAbove(img, im, v, slot + DIRENT);
      forall i | 0 <= i < |v.files| ensures DirAt(im, v, i) {
        assert DirAt(img, v, i);
        Within(img, im, 0, slot, d + DIRENT * i, d + DIRENT * i + DIRENT);
      }
    }
  }

  lemma ContentsAbove(img: seq<byte>, im: seq<byte>, v: Volume, lo: nat)
    requires Shape(v) && Sized(img, v.l) && |im| == |img| == Size(v.l) && Contents(img, v)
    requires lo <= Data(v.l) + Bpc(v.l) && im[lo..|img|] == img[lo..|img|]
    ensures Sized(im, v.l) && Contents(im, v)
  {
    hide Bpc, Size, MaxCluster, Shape, ClusterAt, Data, Fat0, Fat1, FatBytes, NextFree, Clusters, Padded;
    forall i | 0 <= i < |v.files| ensures FileAt(im, v, i) {
      FileBounds(v, i);
      assert FileAt(img, v, i);
      var a := ClusterAt(v.l, v.files[i].start);
      Within(img, im, lo, |img|, a, a + |Padded(v.l, v.files[i])|);
    }
  }

  /** From any disk contents: format, then copy in any files until one aborts. Afterwards entry `i` of
      the root directory is the file of the `i`-th successful request for every reader that follows the
      FAT specification, and it starts at the sector that request was answered with. */
  method FormatThenCopy(buf: array<byte>, c: Config, rs: seq<Request>)
    returns (r: FatFormat.FormatResult, done: nat, sectors: seq<nat>)
    requires c.nSector * c.bytesPerSector < U32 && buf.Length == c.nSector * c.bytesPerSector
    requires forall k :: 0 <= k < |rs| ==> RequestOk(rs[k])
    modifies buf
    ensures r == FatFormat.Done <==> Accepted(c) && c.nSector / c.clusterSize > 2
    ensures r == FatFormat.Done ==>
              && done <= |rs|
              && (forall k :: 0 <= k < done ==> !Stops(VolumeAfter(FatFormat.Blank(c), rs[..k]), rs[k]))
              && (done < |rs| ==> Stops(VolumeAfter(FatFormat.Blank(c), rs[..done]), rs[done]))
    ensures r == FatFormat.Done ==>
              var w := VolumeAfter(FatFormat.Blank(c), rs[..done]);
              && (done == |rs| ==> Inv(buf[..], w))
              && |sectors| == |w.files|
              && forall i :: 0 <= i < |w.files| ==> Found(buf[..], i, w.files[i], sectors[i])
  {
    hide Inv, Found, VolumeAfter, Stops, Files, SectorOf, Accepted, FatSpec.FreshVolume, FatFormat.OnlyWritten;
    done, sectors := 0, [];
    r := FatFormat.CreateFat32(buf, c);
    if r == FatFormat.Done {
      done, sectors := Session(buf, rs, FatFormat.Blank(c));
      assert rs[..|rs|] == rs;
      ghost var w := VolumeAfter(FatFormat.Blank(c), rs[..done]);
      forall i | 0 <= i < |w.files| ensures Found(buf[..], i, w.files[i], sectors[i]) {
        IsFound(buf[..], w, i);
      }
    }
  }

  // ---------------------------------------------------------------- volumes that take no file

  /** On a fresh volume every copy aborts exactly if the data region has no room for three clusters. */
  lemma TooSmallToCopy(c: Config)
    requires Accepted(c) && c.nSector / c.clusterSize > 2 && c.nSector * c.bytesPerSector < U32
    ensures (forall size: nat, io: Io :: io.statOk ==> Aborts(FatFormat.Blank(c), size, io))
            <==> c.nSector < RESERVED + 2 * LayoutOf(c).fatSec + 3 * c.clusterSize
  {
    hide MaxCluster;
    FatFormat.IsFormatted(c);
    ThreeClusters(LayoutOf(c));
    var v, io := FatFormat.Blank(c), Io(true, false, 0);
    assert Aborts(v, 1, io) <==> MaxCluster(v.l) < 3;
  }

  /** For one: sixteen sectors of 512 bytes in clusters of four, which `createFAT32` accepts. */
  lemma SixteenSectors(size: nat, io: Io)
    ensures var c := Config(16, 512, 4, true);
            && Accepted(c) && c.nSector / c.clusterSize > 2
            && (io.statOk ==> Aborts(FatFormat.Blank(c), size, io))
  {
    var c := Config(16, 512, 4, true);
    assert LayoutOf(c) == Layout(512, 4, 16, 1);
    TooSmallToCopy(c);
  }

  /** A full volume with a free directory entry can be reached: on sixteen sectors in clusters of one,
      a file of three clusters fills it. The next copy of an empty file aborts. */
  lemma FullVolume(content: seq<byte>, name: seq<byte>, attr: byte)
    requires |content| == 1536 && |name| == 1 && name[0] != 0 && name[0] != 0x2e
    ensures var c := Config(16, 512, 1, true);
            var big, empty := Request(content, Io(true, true, 1536), name, attr),
                Request([], Io(true, true, 0), name, attr);
            && Accepted(c) && c.nSector / c.clusterSize > 2 && RequestOk(big) && RequestOk(empty)
            && var v := FatFormat.Blank(c);
               var w := VolumeAfter(v, [big]);
               !Stops(v, big) && |w.files| == 1 && NextFree(w.l, w.files) == MaxCluster(w.l) == 6 && Stops(w, empty)
  {
    var c := Config(16, 512, 1, true);
    var l := Layout(512, 1, 16, 1);
    var v, big := FatFormat.Blank(c), Request(content, Io(true, true, 1536), name, attr);
    assert LayoutOf(c) == l && MaxCluster(l) == 6 && Bpc(l) == 512;
    assert NextFree(l, []) == 3 && Succeeds(v, 1536, big.io);
    var f := NewFile(v, name, attr, content);
    assert f.data == content && Ceil(l, 1536) == 3;
    AddCounts(v, f);
    assert [big][..0] == [] && VolumeAfter(v, [big]) == Add(v, f);
  }
}
