/** Sockets and the buffered writer of `apt/libhttpd/httpd.h`. */
module HttpSocket {
  import opened Bytes

  function Flat(chunks: seq<seq<byte>>): seq<byte> {
    if chunks == [] then [] else chunks[0] + Flat(chunks[1..])
  }

  function Min(a: nat, b: nat): nat { if a <= b then a else b }

  /** What is left of `chunks` after a read of at most `len` bytes. */
  function Rest(chunks: seq<seq<byte>>, len: nat): seq<seq<byte>>
    requires chunks != []
  {
    if |chunks[0]| <= len then chunks[1..] else [chunks[0][len..]] + chunks[1..]
  }

  lemma {:induction false} RestFlat(chunks: seq<seq<byte>>, len: nat)
    requires chunks != []
    ensures var n := Min(|chunks[0]|, len);
            n <= |Flat(chunks)| && Flat(chunks)[..n] == chunks[0][..n] && Flat(Rest(chunks, len)) == Flat(chunks)[n..]
  {
    var first, tail := chunks[0], Flat(chunks[1..]);
    assert Flat(chunks) == first + tail;
    if |first| > len {
      assert Rest(chunks, len)[1..] == chunks[1..];
      assert Flat(Rest(chunks, len)) == first[len..] + tail;
    }
  }

  /** The reading side of a descriptor. `chunks` is how the peer's bytes will be split among reads;
      when they run out a read reports end of file, or the error `errno` if that is not 0. */
  class Source {
    var chunks: seq<seq<byte>>
    const errno: int

    constructor (chunks: seq<seq<byte>>, errno: int)
      requires forall i :: 0 <= i < |chunks| ==> chunks[i] != []
      ensures Valid() && this.chunks == chunks
    {
      this.chunks, this.errno := chunks, errno;
    }

    ghost predicate Valid() reads this { forall i :: 0 <= i < |chunks| ==> chunks[i] != [] }

    ghost function Stream(): seq<byte> reads this { Flat(chunks) }

    /** Delivers at most `len` of the bytes that come next, and at least one if there are any. */
    method Read(buffer: array<byte>, len: nat) returns (n: int)
      requires Valid() && len <= buffer.Length
      modifies this`chunks, buffer
      ensures Valid()
      ensures n <= 0 <==> len == 0 || old(Stream()) == []
      ensures n < 0 ==> errno != 0
      ensures n <= 0 ==> chunks == old(chunks) && buffer[..] == old(buffer[..])
      ensures n > 0 ==> n <= len && n <= |old(Stream())|
                        && buffer[..n] == old(Stream())[..n] && Stream() == old(Stream())[n..]
      ensures n > 0 ==> old(chunks) != [] && n == Min(|old(chunks)[0]|, len) && chunks == Rest(old(chunks), len)
    {
      if len == 0 { return 0; }
      if chunks == [] { return if errno != 0 then -1 else 0; }
      RestFlat(chunks, len);
      var first := chunks[0];
      n := if |first| <= len then |first| else len;
      forall i | 0 <= i < n { buffer[i] := first[i]; }
      assert buffer[..n] == first[..n];
      chunks := if n == |first| then chunks[1..] else [first[n..]] + chunks[1..];
    }
  }

  // ---------------------------------------------------------------- writing

  /** How many of `n` bytes get out if each `::write` takes at most the next limit and fails at 0. */
  function Sent(limits: seq<nat>, n: nat): (k: nat)
    ensures k <= n
    decreases |limits|
  {
    if n == 0 then 0
    else if limits == [] then n
    else if limits[0] == 0 then 0
    else Min(limits[0], n) + Sent(limits[1..], n - Min(limits[0], n))
  }

  function LimitsAfter(limits: seq<nat>, n: nat): seq<nat>
    decreases |limits|
  {
    if n == 0 || limits == [] then limits
    else if limits[0] == 0 then limits[1..]
    else LimitsAfter(limits[1..], n - Min(limits[0], n))
  }

  function Total(limits: seq<nat>, k: nat): nat
    requires k <= |limits|
  {
    if k == 0 then 0 else limits[0] + Total(limits[1..], k - 1)
  }

  /** Everything gets out exactly if each failing write comes after writes that took all of it. */
  lemma {:induction false} SentAll(limits: seq<nat>, n: nat)
    ensures Sent(limits, n) == n <==> forall k :: 0 <= k < |limits| && limits[k] == 0 ==> n <= Total(limits, k)
    decreases |limits|
  {
    if n > 0 && limits != [] {
      var rest, m := limits[1..], n - Min(limits[0], n);
      SentAll(rest, m);
      if limits[0] == 0 {
        assert Total(limits, 0) == 0;
      } else {
        forall k | 0 <= k < |rest| ensures rest[k] == limits[k + 1]
            && Total(limits, k + 1) == limits[0] + Total(rest, k) {}
        if forall k :: 0 <= k < |limits| && limits[k] == 0 ==> n <= Total(limits, k) {
          forall k | 0 <= k < |rest| && rest[k] == 0 ensures m <= Total(rest, k) { assert limits[k + 1] == 0; }
        }
        if forall k :: 0 <= k < |rest| && rest[k] == 0 ==> m <= Total(rest, k) {
          forall k | 0 <= k < |limits| && limits[k] == 0 ensures n <= Total(limits, k) { assert rest[k - 1] == 0; }
        }
      }
    }
  }

  /** A series of socket writes, of the given lengths, each complete. */
  predicate AllSent(limits: seq<nat>, sends: seq<nat>)
    decreases |sends|
  {
    sends == [] || (Sent(limits, sends[0]) == sends[0] && AllSent(LimitsAfter(limits, sends[0]), sends[1..]))
  }

  function AfterSends(limits: seq<nat>, sends: seq<nat>): seq<nat>
    decreases |sends|
  {
    if sends == [] then limits else AfterSends(LimitsAfter(limits, sends[0]), sends[1..])
  }

  lemma {:induction false} SendsAppend(limits: seq<nat>, a: seq<nat>, b: seq<nat>)
    ensures AllSent(limits, a + b) <==> AllSent(limits, a) && AllSent(AfterSends(limits, a), b)
    ensures AfterSends(limits, a + b) == AfterSends(AfterSends(limits, a), b)
    decreases |a|
  {
    if a == [] {
      assert a + b == b;
    } else {
      assert (a + b)[1..] == a[1..] + b;
      SendsAppend(LimitsAfter(limits, a[0]), a[1..], b);
    }
  }

  /** The writing side. */
  class Sink {
    var wire: seq<byte>
    var limits: seq<nat>

    method WriteSome(data: seq<byte>) returns (n: nat)
      modifies this
      ensures n == if old(limits) == [] then |data| else Min(old(limits)[0], |data|)
      ensures wire == old(wire) + data[..n] && limits == if old(limits) == [] then [] else old(limits)[1..]
    {
      n := |data|;
      if limits != [] {
        n := Min(limits[0], |data|);
        limits := limits[1..];
      }
      wire := wire + data[..n];
    }

    /** `Socket::xwrite`: goes on until everything is out or a write makes no progress. */
    method Write(data: seq<byte>) returns (written: nat)
      modifies this
      ensures written == Sent(old(limits), |data|) && limits == LimitsAfter(old(limits), |data|)
      ensures wire == old(wire) + data[..written]
    {
      written := 0;
      while written < |data|
        invariant written <= |data| && wire == old(wire) + data[..written]
        invariant written + Sent(limits, |data| - written) == Sent(old(limits), |data|)
        invariant LimitsAfter(limits, |data| - written) == LimitsAfter(old(limits), |data|)
      {
        var len := WriteSome(data[written..]);
        if len == 0 { return; }
        assert data[..written + len] == data[..written] + data[written..][..len];
        written := written + len;
      }
    }
  }

  // ---------------------------------------------------------------- the buffered writer

  datatype Op = Write(data: seq<byte>) | Flush | Forward(file: seq<seq<byte>>)

  /** What an operation is meant to send through a buffer of `size` bytes. */
  function MeantBy(op: Op, size: nat): seq<byte> {
    match op
    case Write(data) => data
    case Flush => []
    case Forward(file) => if size == 0 then [] else Flat(file)
  }

  function Meant(ops: seq<Op>, size: nat): seq<byte> {
    if ops == [] then [] else Meant(ops[..|ops| - 1], size) + MeantBy(ops[|ops| - 1], size)
  }

  function FlushSends(offset: nat): seq<nat> { if offset == 0 then [] else [offset] }

  function WriteSends(offset: nat, size: nat, n: nat): seq<nat> {
    (if offset + n > size then FlushSends(offset) else []) + (if n > size then [n] else [])
  }

  /** Lengths of the reads that copy a file through the buffer. */
  function Pieces(chunks: seq<seq<byte>>, size: nat): seq<nat>
    requires forall i :: 0 <= i < |chunks| ==> chunks[i] != []
    decreases |Flat(chunks)|
  {
    if chunks == [] || size == 0 then []
    else
      RestFlat(chunks, size);
      [Min(|chunks[0]|, size)] + Pieces(Rest(chunks, size), size)
  }

  lemma NoPieces(chunks: seq<seq<byte>>, size: nat)
    requires (forall i :: 0 <= i < |chunks| ==> chunks[i] != []) && (size == 0 || Flat(chunks) == [])
    ensures Pieces(chunks, size) == []
  {
  }

  predicate Proper(op: Op) { op.Forward? ==> forall i :: 0 <= i < |op.file| ==> op.file[i] != [] }

  /** The socket writes of an operation. They do not depend on what became of earlier ones: the stream
      ignores the results. */
  function SendsBy(op: Op, offset: nat, size: nat): seq<nat>
    requires Proper(op)
  {
    match op
    case Write(data) => WriteSends(offset, size, |data|)
    case Flush => FlushSends(offset)
    case Forward(file) => FlushSends(offset) + Pieces(file, size)
  }

  function OffsetAfter(op: Op, offset: nat, size: nat): nat {
    if op.Write? && |op.data| <= size then (if offset + |op.data| > size then |op.data| else offset + |op.data|)
    else if op.Write? && offset + |op.data| <= size then offset else 0
  }

  function Offset(ops: seq<Op>, offset: nat, size: nat): nat {
    if ops == [] then offset else OffsetAfter(ops[|ops| - 1], Offset(ops[..|ops| - 1], offset, size), size)
  }

  function Sends(ops: seq<Op>, offset: nat, size: nat): seq<nat>
    requires forall k :: 0 <= k < |ops| ==> Proper(ops[k])
  {
    if ops == [] then []
    else
      var n := |ops| - 1;
      Sends(ops[..n], offset, size) + SendsBy(ops[n], Offset(ops[..n], offset, size), size)
  }

  /** `SocketStream`. */
  class Stream {
    const sink: Sink
    const buffer: array<byte>
    var offset: nat

    constructor (sink: Sink, buffer: array<byte>)
      ensures Valid() && offset == 0 && this.sink == sink && this.buffer == buffer
    {
      this.sink, this.buffer, offset := sink, buffer, 0;
    }

    ghost predicate Valid() reads this { offset <= buffer.Length }

    /** Bytes sent followed by bytes buffered. */
    ghost function Output(): seq<byte>
      requires Valid()
      reads this, sink, buffer
    {
      sink.wire + buffer[..offset]
    }

    method Flush()
      requires Valid()
      modifies this`offset, sink
      ensures Valid() && offset == 0
      ensures Grew(old(Output()), [], Output(), old(sink.limits), FlushSends(old(offset)), sink.limits)
    {
      ghost var limits := sink.limits;
      if offset != 0 {
        OneSend(limits, offset);
        var _ := sink.Write(buffer[..offset]);
        offset := 0;
      }
    }

    method Write(src: seq<byte>)
      requires Valid()
      modifies this`offset, sink, buffer
      ensures Valid() && offset == OffsetAfter(Op.Write(src), old(offset), buffer.Length)
      ensures Grew(old(Output()), src, Output(), old(sink.limits), WriteSends(old(offset), buffer.Length, |src|),
              sink.limits)
      ensures old(offset) + |src| <= buffer.Length ==> sink.wire == old(sink.wire) && sink.limits == old(sink.limits)
      ensures |src| <= buffer.Length < old(offset) + |src| ==> buffer[..offset] == src
      ensures |src| > buffer.Length ==> offset == 0
    {
      hide Grew;
      ghost var out, limits, first := Output(), sink.limits, FlushSends(offset);
      NoSends(out, limits);
      if offset + |src| > buffer.Length { Flush(); } else { first := []; }
      ghost var mid, left := Output(), sink.limits;
      if |src| > buffer.Length {
        Pass(src);
        GrewTwice(out, [], mid, src, Output(), limits, first, left, [|src|], sink.limits);
      } else {
        Keep(src);
        Added(mid, src, left);
        GrewTwice(out, [], mid, src, Output(), limits, first, left, [], sink.limits);
      }
    }

    /** Past the empty buffer. */
    method Pass(src: seq<byte>)
      requires Valid() && offset == 0
      modifies sink
      ensures Valid() && Grew(old(Output()), src, Output(), old(sink.limits), [|src|], sink.limits)
    {
      hide Grew;
      ghost var before, limits := Output(), sink.limits;
      var n := sink.Write(src);
      assert Output() == before + src[..n];
      SentPart(before, src, n, Output(), limits, sink.limits);
    }

    method Keep(src: seq<byte>)
      requires Valid() && offset + |src| <= buffer.Length
      modifies this`offset, buffer
      ensures Valid() && offset == old(offset) + |src| && buffer[..offset] == old(buffer[..offset]) + src
      ensures Output() == old(Output()) + src
    {
      ghost var kept := buffer[..offset];
      forall i | 0 <= i < |src| { buffer[offset + i] := src[i]; }
      assert buffer[..offset + |src|] == kept + src;
      offset := offset + |src|;
    }

    /** Copies a whole file through the buffer. With a buffer of size 0 the first read returns 0 and
        nothing is copied. */
    method Forward(file: Source)
      requires Valid() && file.Valid()
      modifies this`offset, sink, buffer, file`chunks
      ensures Valid() && offset == 0 && file.Valid()
      ensures Grew(old(Output()), if buffer.Length == 0 then [] else old(file.Stream()), Output(), old(sink.limits),
                   FlushSends(old(offset)) + Pieces(old(file.chunks), buffer.Length), sink.limits)
    {
      hide Grew, Flat, Pieces;
      ghost var out, limits := Output(), sink.limits;
      ghost var sends: seq<nat> := FlushSends(offset);
      ghost var all, whole, done: nat := file.Stream(), sends + Pieces(file.chunks, buffer.Length), 0;
      Flush();
      assert all[..0] == [];
      while true
        invariant Valid() && offset == 0 && file.Valid()
        invariant done <= |all| && file.Stream() == all[done..] && (buffer.Length == 0 ==> done == 0)
        invariant sends + Pieces(file.chunks, buffer.Length) == whole
        invariant Grew(out, all[..done], Output(), limits, sends, sink.limits)
        decreases |file.Stream()|
      {
        ghost var before, left := Output(), sink.limits;
        var len := CopyPiece(file);
        if len <= 0 { break; }
        ghost var piece := all[done..][..len];
        GrewTwice(out, all[..done], before, piece, Output(), limits, sends, left, [len], sink.limits);
        assert all[..done + len] == all[..done] + piece;
        assert sends + ([len] + Pieces(file.chunks, buffer.Length))
            == sends + [len] + Pieces(file.chunks, buffer.Length);
        sends, done := sends + [len], done + len;
      }
      NoPieces(file.chunks, buffer.Length);
      assert sends + [] == sends;
      assert buffer.Length > 0 ==> all[..done] == all;
    }

    /** One read into the empty buffer and one flush. */
    method CopyPiece(file: Source) returns (len: int)
      requires Valid() && offset == 0 && file.Valid()
      modifies this`offset, sink, buffer, file`chunks
      ensures Valid() && offset == 0 && file.Valid()
      ensures len <= 0 <==> buffer.Length == 0 || old(file.Stream()) == []
      ensures len <= 0 ==>
                Output() == old(Output()) && sink.limits == old(sink.limits) && file.chunks == old(file.chunks)
      ensures len > 0 ==>
                && len <= |old(file.Stream())| && file.Stream() == old(file.Stream())[len..]
                && Pieces(old(file.chunks), buffer.Length) == [len] + Pieces(file.chunks, buffer.Length)
                && Grew(old(Output()), old(file.Stream())[..len], Output(), old(sink.limits), [len], sink.limits)
    {
      hide Grew, Flat;
      ghost var before, left, piece := Output(), sink.limits, file.Stream();
      len := file.Read(buffer, buffer.Length);
      if len <= 0 { return; }
      offset := len;
      Added(before, piece[..len], left);
      assert Output() == before + piece[..len];
      ghost var full := Output();
      Flush();
      GrewTwice(before, piece[..len], full, [], Output(), left, [], left, [len], sink.limits);
    }

    method Do(op: Op)
      requires Valid() && Proper(op)
      modifies this`offset, sink, buffer
      ensures Valid() && offset == OffsetAfter(op, old(offset), buffer.Length)
      ensures Grew(old(Output()), MeantBy(op, buffer.Length), Output(), old(sink.limits),
                   SendsBy(op, old(offset), buffer.Length), sink.limits)
    {
      hide Grew;
      match op {
        case Write(data) => Write(data);
        case Flush => Flush();
        case Forward(chunks) =>
          var file := new Source(chunks, 0);
          Forward(file);
      }
    }

    /** Any sequence of operations and the final flush of the destructor: the peer gets everything that
        was written, in order, exactly if every socket write on the way was complete. */
    method Perform(ops: seq<Op>)
      requires Valid() && forall k :: 0 <= k < |ops| ==> Proper(ops[k])
      modifies this`offset, sink, buffer
      ensures Valid() && offset == 0
      ensures var size, from := buffer.Length, old(offset);
              sink.wire == old(Output()) + Meant(ops, size)
              <==> AllSent(old(sink.limits), Sends(ops, from, size) + FlushSends(Offset(ops, from, size)))
      ensures (forall k :: 0 <= k < |old(sink.limits)| ==> old(sink.limits)[k] > 0) ==>
                sink.wire == old(Output()) + Meant(ops, buffer.Length)
    {
      hide Grew;
      ghost var out, limits, from, size := Output(), sink.limits, offset, buffer.Length;
      NoSends(out, limits);
      for k := 0 to |ops|
        invariant Valid() && offset == Offset(ops[..k], from, size)
        invariant Grew(out, Meant(ops[..k], size), Output(), limits, Sends(ops[..k], from, size), sink.limits)
      {
        ghost var mid, left := Output(), sink.limits;
        Do(ops[k]);
        assert ops[..k + 1][..k] == ops[..k];
        GrewTwice(out, Meant(ops[..k], size), mid, MeantBy(ops[k], size), Output(), limits,
                  Sends(ops[..k], from, size), left, SendsBy(ops[k], Offset(ops[..k], from, size), size), sink.limits);
      }
      assert ops[..|ops|] == ops;
      ghost var mid, left, last := Output(), sink.limits, FlushSends(offset);
      Flush();
      GrewTwice(out, Meant(ops, size), mid, [], Output(), limits, Sends(ops, from, size), left, last, sink.limits);
      GrewExactly(out, Meant(ops, size), sink.wire, limits, Sends(ops, from, size) + last, sink.limits);
      if forall k :: 0 <= k < |limits| ==> limits[k] > 0 { Healthy(limits, Sends(ops, from, size) + last); }
    }
  }

  // ---------------------------------------------------------------- what writes add

  /** From `before`, exactly `src` was added if all socket writes were complete; otherwise bytes are
      lost. */
  ghost predicate Grew(before: seq<byte>, src: seq<byte>, after: seq<byte>, limits: seq<nat>, sends: seq<nat>,
                       left: seq<nat>) {
    && left == AfterSends(limits, sends)
    && (AllSent(limits, sends) ==> after == before + src)
    && (!AllSent(limits, sends) ==> |after| < |before| + |src|)
  }

  lemma GrewExactly(before: seq<byte>, src: seq<byte>, after: seq<byte>, limits: seq<nat>, sends: seq<nat>,
                    left: seq<nat>)
    requires Grew(before, src, after + [], limits, sends, left)
    ensures after == before + src <==> AllSent(limits, sends)
  {
    assert after + [] == after;
  }

  lemma GrewTwice(b0: seq<byte>, s1: seq<byte>, b1: seq<byte>, s2: seq<byte>, b2: seq<byte>,
                  l0: seq<nat>, sends1: seq<nat>, l1: seq<nat>, sends2: seq<nat>, l2: seq<nat>)
    requires Grew(b0, s1, b1, l0, sends1, l1) && Grew(b1, s2, b2, l1, sends2, l2)
    ensures Grew(b0, s1 + s2, b2, l0, sends1 + sends2, l2)
    ensures s1 == [] ==> s1 + s2 == s2
    ensures s2 == [] ==> s1 + s2 == s1
    ensures sends1 == [] ==> sends1 + sends2 == sends2
    ensures sends2 == [] ==> sends1 + sends2 == sends1
  {
    SendsAppend(l0, sends1, sends2);
    assert b0 + s1 + s2 == b0 + (s1 + s2);
  }

  lemma NoSends(before: seq<byte>, limits: seq<nat>)
    ensures Grew(before, [], before, limits, [], limits)
  {
  }

  lemma Added(before: seq<byte>, src: seq<byte>, limits: seq<nat>)
    ensures Grew(before, src, before + src, limits, [], limits)
  {
  }

  lemma SentPart(before: seq<byte>, src: seq<byte>, n: nat, after: seq<byte>, limits: seq<nat>, left: seq<nat>)
    requires n == Sent(limits, |src|) && left == LimitsAfter(limits, |src|) && after == before + src[..n]
    ensures Grew(before, src, after, limits, [|src|], left)
  {
    OneSend(limits, |src|);
  }

  lemma OneSend(limits: seq<nat>, n: nat)
    ensures AllSent(limits, [n]) <==> Sent(limits, n) == n
    ensures AfterSends(limits, [n]) == LimitsAfter(limits, n)
  {
  }

  /** For one: a byte written through a buffer of one byte to a socket whose only write fails. */
  lemma LostByte(b: byte)
    ensures var ops := [Op.Write([b])];
            Sends(ops, 0, 1) + FlushSends(Offset(ops, 0, 1)) == [1] && !AllSent([0], [1])
  {
    var ops := [Op.Write([b])];
    assert ops[..0] == [];
    assert Offset(ops, 0, 1) == OffsetAfter(ops[0], Offset([], 0, 1), 1) == 1;
    assert Sends(ops, 0, 1) == Sends([], 0, 1) + SendsBy(ops[0], 0, 1) == [];
  }

  /** A socket whose writes never fail loses nothing. */
  lemma {:induction false} Healthy(limits: seq<nat>, sends: seq<nat>)
    requires forall k :: 0 <= k < |limits| ==> limits[k] > 0
    ensures AllSent(limits, sends)
    decreases |sends|
  {
    if sends != [] {
      SentAll(limits, sends[0]);
      StillHealthy(limits, sends[0]);
      Healthy(LimitsAfter(limits, sends[0]), sends[1..]);
    }
  }

  lemma {:induction false} StillHealthy(limits: seq<nat>, n: nat)
    requires forall k :: 0 <= k < |limits| ==> limits[k] > 0
    ensures forall k :: 0 <= k < |LimitsAfter(limits, n)| ==> LimitsAfter(limits, n)[k] > 0
    decreases |limits|
  {
    if n > 0 && limits != [] { StillHealthy(limits[1..], n - Min(limits[0], n)); }
  }
}
