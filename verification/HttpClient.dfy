/** The response side of `HttpClient::request` (`apt/libhttpd/httpd.cpp`). */
module HttpClient {
  import opened Bytes
  import opened HttpSocket
  import opened HttpHead

  const CONTENT_LENGTH: Text := [67, 111, 110, 116, 101, 110, 116, 45, 76, 101, 110, 103, 116, 104]
  const CONNECTION: Text := [67, 111, 110, 110, 101, 99, 116, 105, 111, 110]
  const SIZE_LIMIT: nat := 0x1_0000_0000_0000_0000

  // ---------------------------------------------------------------- numbers

  predicate IsDigit(b: byte) { 48 <= b <= 57 }

  function Digits(s: Text, acc: nat): nat {
    if s == [] || !IsDigit(s[0]) then acc else Digits(s[1..], 10 * acc + (s[0] - 48) as nat)
  }

  /** `atoi` and `atol`: spaces, a sign, digits. */
  function Number(s: Text): int {
    var t := s[Past(s, 0, true)..];
    if t == [] then 0
    else if t[0] == 45 then -(Digits(t[1..], 0) as int)
    else if t[0] == 43 then Digits(t[1..], 0)
    else Digits(t, 0)
  }

  // ---------------------------------------------------------------- the answer, as a function of the bytes

  datatype Outcome = Outcome(ok: bool, received: seq<byte>)

  function InitialTable(): Table { map[CONTENT_LENGTH := [], CONNECTION := []] }

  /** The length as an unsigned 64-bit number; 0 when the field is missing or empty. */
  function LengthOf(table: Table): nat
    requires CONTENT_LENGTH in table
  {
    if table[CONTENT_LENGTH] == [] then 0 else Number(table[CONTENT_LENGTH]) % SIZE_LIMIT
  }

  ghost predicate HeadKeyed(s: seq<byte>) { FieldsKeyed(Line(s).rest) }

  predicate Accepted(s: seq<byte>) { Verb(s) != [] && Path(s) != [] && Number(Path(s)) == 200 }

  /** The body that a response announces, cut to what arrives. */
  ghost function Reply(s: seq<byte>): Outcome
    requires HeadKeyed(s)
  {
    FieldsKeys(Line(s).rest, InitialTable());
    if !Accepted(s) then Outcome(false, [])
    else
      var (table, body) := Fields(Line(s).rest, InitialTable());
      var n := LengthOf(table);
      Outcome(n <= |body|, body[..Min(n, |body|)])
  }

  // ---------------------------------------------------------------- heads that are cut off

  /** The line that ends the fields: an empty one, or one that cannot be read. */
  ghost function Ending(s: seq<byte>): (r: Scan)
    requires FieldsKeyed(s)
    ensures r.text == []
    decreases |s|
  {
    if Line(s).text == [] then Line(s) else Ending(Line(s).rest)
  }

  /** The head ends in an empty line. */
  ghost predicate HeadComplete(s: seq<byte>)
    requires HeadKeyed(s)
  {
    Ending(Line(s).rest).ok
  }

  ghost predicate BehindHighByte(s: seq<byte>, rest: seq<byte>) {
    exists k :: 0 <= k < |s| && s[k] >= 128 && rest == s[k + 1..]
  }

  /** A line that cannot be read ends the stream or stops at a byte of 0x80 or more. */
  lemma {:induction false} StopsAt(s: seq<byte>)
    ensures exists k :: 0 <= k <= |s| && Line(s).rest == s[k..]
    ensures !Line(s).ok ==> Line(s).rest == [] || BehindHighByte(s, Line(s).rest)
  {
    if s == [] {
      assert s[0..] == s;
    } else if s[0] < 128 && s[0] != LF {
      StopsAt(s[1..]);
      var k :| 0 <= k <= |s[1..]| && Line(s[1..]).rest == s[1..][k..];
      assert s[1..][k..] == s[k + 1..];
      Behind(s, 1, Line(s).rest);
    } else {
      assert Line(s).rest == s[1..];
    }
  }

  lemma Behind(s: seq<byte>, a: nat, rest: seq<byte>)
    requires a <= |s|
    ensures BehindHighByte(s[a..], rest) ==> BehindHighByte(s, rest)
  {
    if BehindHighByte(s[a..], rest) {
      var k :| 0 <= k < |s[a..]| && s[a..][k] >= 128 && rest == s[a..][k + 1..];
      assert s[a..][k + 1..] == s[a + k + 1..] && s[a + k] >= 128;
    }
  }

  lemma {:induction false} EndsAt(s: seq<byte>)
    requires FieldsKeyed(s) && !Ending(s).ok
    ensures Ending(s).rest == [] || BehindHighByte(s, Ending(s).rest)
    decreases |s|
  {
    StopsAt(s);
    if Line(s).text != [] {
      var k :| 0 <= k <= |s| && Line(s).rest == s[k..];
      EndsAt(s[k..]);
      Behind(s, k, Ending(s).rest);
    }
  }

  lemma HeadEndsAt(s: seq<byte>)
    requires HeadKeyed(s) && !HeadComplete(s)
    ensures var rest := Ending(Line(s).rest).rest; rest == [] || BehindHighByte(s, rest)
  {
    hide Line;
    StopsAt(s);
    var k :| 0 <= k <= |s| && Line(s).rest == s[k..];
    EndsAt(s[k..]);
    Behind(s, k, Ending(s[k..]).rest);
  }

  /** The client does not look at the reader's error. So an incomplete head is reported as success
      exactly if the status is 200 and what follows is as long as the fields read so far announce.
      What follows is nothing or what comes behind a byte of 0x80 or more; in a head without such
      bytes nothing may be announced. */
  lemma IncompleteHead(s: seq<byte>)
    requires HeadKeyed(s) && !HeadComplete(s)
    ensures var (table, rest) := Fields(Line(s).rest, InitialTable());
            && CONTENT_LENGTH in table
            && (rest == [] || BehindHighByte(s, rest))
            && (Reply(s).ok <==> Accepted(s) && LengthOf(table) <= |rest|)
            && ((forall i :: 0 <= i < |s| ==> s[i] < 128) ==>
                  rest == [] && Reply(s).received == [] && (Reply(s).ok <==> Accepted(s) && LengthOf(table) == 0))
  {
    hide Number, Verb, Path, Line, Fields, Ending, FieldsKeyed, Digits, BehindHighByte;
    FieldsKeys(Line(s).rest, InitialTable());
    EndingRest(Line(s).rest, InitialTable());
    HeadEndsAt(s);
    if forall i :: 0 <= i < |s| ==> s[i] < 128 {
      LineSuffix(s);
      PlainEnding(Line(s).rest);
    }
  }

  lemma {:induction false} EndingRest(s: seq<byte>, table: Table)
    requires FieldsKeyed(s)
    ensures Fields(s, table).1 == Ending(s).rest
    decreases |s|
  {
    var line := Line(s).text;
    if line != [] { EndingRest(Line(s).rest, Assign(table, Key(line), Value(line))); }
  }

  lemma {:induction false} LineSuffix(s: seq<byte>)
    requires forall i :: 0 <= i < |s| ==> s[i] < 128
    ensures !Line(s).ok ==> Line(s).rest == []
    ensures forall i :: 0 <= i < |Line(s).rest| ==> Line(s).rest[i] < 128
  {
    if s != [] { LineSuffix(s[1..]); }
  }

  lemma {:induction false} PlainEnding(s: seq<byte>)
    requires FieldsKeyed(s) && !Ending(s).ok && forall i :: 0 <= i < |s| ==> s[i] < 128
    ensures Ending(s).rest == []
    decreases |s|
  {
    LineSuffix(s);
    if Line(s).text != [] { PlainEnding(Line(s).rest); }
  }

  lemma {:induction false} FieldsKeys(s: seq<byte>, table: Table)
    requires FieldsKeyed(s)
    ensures Fields(s, table).0.Keys == table.Keys
    decreases |s|
  {
    var line := Line(s).text;
    if line != [] { FieldsKeys(Line(s).rest, Assign(table, Key(line), Value(line))); }
  }

  // ---------------------------------------------------------------- the client

  /** A body handler. `received` is everything it was given; it may refuse to go on after any piece. */
  class Handler {
    var received: seq<byte>
    const accepts: (seq<byte>, seq<byte>) -> bool

    constructor (accepts: (seq<byte>, seq<byte>) -> bool)
      ensures received == [] && this.accepts == accepts
    {
      received, this.accepts := [], accepts;
    }

    ghost predicate Always() { forall before, piece :: accepts(before, piece) }

    method Consume(piece: seq<byte>) returns (more: bool)
      modifies this
      ensures received == old(received) + piece && more == accepts(old(received), piece)
    {
      more := accepts(received, piece);
      received := received + piece;
    }
  }

  class Client {
    const reader: HeadReader
    const handler: Handler

    constructor (reader: HeadReader, handler: Handler)
      ensures this.reader == reader && this.handler == handler
    {
      this.reader, this.handler := reader, handler;
    }

    /** First what is buffered behind the head, then the socket, never past the announced length. */
    method Body(n: nat) returns (success: bool)
      requires reader.Valid() && 0 < n && handler.received == []
      modifies handler, reader, reader.source, reader.buffer
      ensures handler.received <= old(reader.Remaining())[..Min(n, |old(reader.Remaining())|)]
      ensures success ==> n <= |old(reader.Remaining())| && handler.received == old(reader.Remaining())[..n]
      ensures handler.Always() ==>
                && handler.received == old(reader.Remaining())[..Min(n, |old(reader.Remaining())|)]
                && (success <==> n <= |old(reader.Remaining())|)
    {
      hide Flat;
      ghost var body := reader.Remaining();
      var nr := Min(reader.end - reader.offset, n);
      var piece := reader.buffer[reader.offset..reader.offset + nr];
      assert piece == body[..nr];
      var more := handler.Consume(piece);
      assert nr < n ==> reader.source.Stream() == body[nr..];
      if more {
        while nr < n
          invariant nr <= n && nr <= |body| && reader.Valid() && handler.received == body[..nr]
          invariant nr < n ==> reader.source.Stream() == body[nr..]
          decreases n - nr
        {
          var res;
          res, more := Piece(Min(reader.buffer.Length, n - nr), body, nr);
          if res <= 0 || !more { break; }
          nr := nr + res;
        }
      }
      success := nr == n;
    }

    /** Reads one piece of the body and passes it on. */
    method Piece(len: nat, ghost body: seq<byte>, ghost nr: nat) returns (res: int, more: bool)
      requires reader.Valid() && 0 < len <= reader.buffer.Length && nr <= |body|
      requires handler.received == body[..nr] && reader.source.Stream() == body[nr..]
      modifies handler, reader.source, reader.buffer
      ensures reader.Valid() && (res <= 0 <==> nr == |body|) && res <= len && nr + res <= |body|
      ensures handler.received == if res <= 0 then body[..nr] else body[..nr + res]
      ensures res > 0 ==> reader.source.Stream() == body[nr + res..]
      ensures handler.Always() ==> more
    {
      hide Flat;
      more := true;
      res := reader.source.Read(reader.buffer, len);
      if res > 0 {
        assert body[..nr + res] == body[..nr] + body[nr..][..res];
        more := handler.Consume(reader.buffer[..res]);
      }
    }

    /** For every split of the response among reads and every buffer size, the result is `Reply` of
        the bytes that arrive. A handler that stops early has seen a prefix of it. */
    method Response() returns (success: bool)
      requires reader.source.Valid() && 0 < reader.buffer.Length && handler.received == []
      requires HeadKeyed(reader.source.Stream())
      modifies handler, reader, reader.source, reader.buffer
      ensures handler.received <= Reply(old(reader.source.Stream())).received
      ensures success ==> Outcome(true, handler.received) == Reply(old(reader.source.Stream()))
      ensures handler.Always() ==> Outcome(success, handler.received) == Reply(old(reader.source.Stream()))
    {
      ghost var stream := reader.source.Stream();
      reader.Reset();
      var parser := new HeadParser(reader, InitialTable());
      parser.Parse();
      if parser.verb == [] || parser.path == [] { return false; }
      success := Number(parser.path) == 200;
      var n := LengthOf(parser.table);
      if success && n != 0 {
        success := Body(n);
      }
    }
  }
}
