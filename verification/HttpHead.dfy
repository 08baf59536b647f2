/** The buffered head reader and the head parser of `apt/libhttpd/httpd.h`. */
module HttpHead {
  import opened Bytes
  import opened HttpSocket

  type Text = seq<byte>
  type Table = map<Text, Text>

  const LF: byte := 10
  const CR: byte := 13
  const SP: byte := 32
  const COLON: byte := 58
  const EINVAL: int := 22

  // ---------------------------------------------------------------- lines of a byte stream

  datatype Scan = Scan(ok: bool, text: Text, rest: seq<byte>)

  /** The line at the front of a stream, without carriage returns. It fails at the end of the stream
      and at a byte of 0x80 or more, which reads as a negative character. */
  function Line(s: seq<byte>): (r: Scan)
    ensures |r.rest| <= |s|
    ensures if r.ok then |r.rest| < |s| else r.text == []
  {
    if s == [] then Scan(false, [], [])
    else if s[0] >= 128 then Scan(false, [], s[1..])
    else if s[0] == LF then Scan(true, [], s[1..])
    else
      var r := Line(s[1..]);
      if r.ok && s[0] != CR then r.(text := [s[0]] + r.text) else r
  }

  function Prepend(text: Text, r: Scan): Scan { if r.ok then r.(text := text + r.text) else r }

  /** Reading the line at the front of `s0` has come to `s`, with `text` so far. */
  ghost predicate Reading(s0: seq<byte>, text: Text, s: seq<byte>) { Line(s0) == Prepend(text, Line(s)) }

  /** One character of a line. */
  lemma {:induction false} ReadingStep(s0: seq<byte>, text: Text, s: seq<byte>)
    requires Reading(s0, text, s)
    ensures s == [] ==> Line(s0) == Scan(false, [], [])
    ensures s != [] && s[0] >= 128 ==> Line(s0) == Scan(false, [], s[1..])
    ensures s != [] && s[0] == LF ==> Line(s0) == Scan(true, text, s[1..])
    ensures s != [] && s[0] < 128 && s[0] != LF ==>
              Reading(s0, if s[0] == CR then text else text + [s[0]], s[1..])
  {
    if s != [] && s[0] < 128 && s[0] != LF && s[0] != CR && Line(s[1..]).ok {
      assert text + ([s[0]] + Line(s[1..]).text) == text + [s[0]] + Line(s[1..]).text;
    }
  }

  lemma ReadingStart(s: seq<byte>)
    ensures Reading(s, [], s)
  {
  }

  function Signed(b: byte): int { if b < 128 then b as int else b as int - 256 }

  /** `HttpHeadReader`. */
  class HeadReader {
    const source: Source
    const buffer: array<byte>
    var offset: nat
    var end: nat
    var error: int

    constructor (source: Source, buffer: array<byte>)
      requires source.Valid() && 0 < buffer.Length
      ensures Valid() && this.source == source && this.buffer == buffer && offset == 0 && end == 0 && error == 0
      ensures Remaining() == source.Stream()
    {
      this.source, this.buffer, offset, end, error := source, buffer, 0, 0, 0;
    }

    method Reset()
      requires source.Valid() && 0 < buffer.Length
      modifies this
      ensures Valid() && error == 0 && Remaining() == source.Stream()
    {
      offset, end, error := 0, 0, 0;
    }

    ghost predicate Valid() reads this, source {
      source.Valid() && offset <= end <= buffer.Length && 0 < buffer.Length
    }

    /** What is still to be read: the unread part of the buffer, then the socket. */
    ghost function Remaining(): seq<byte>
      requires Valid()
      reads this, source, buffer
    {
      Buffered() + source.Stream()
    }

    ghost function Buffered(): seq<byte>
      requires Valid()
      reads this, source, buffer
    {
      buffer[offset..end]
    }

    method Fill()
      requires Valid() && offset >= end
      modifies this, source, buffer
      ensures Valid() && Remaining() == old(Remaining())
      ensures offset < end <==> old(Remaining()) != []
      ensures offset < end ==> error == old(error)
    {
      ghost var was := source.Stream();
      offset, end := 0, 0;
      var len := source.Read(buffer, buffer.Length);
      if len < 0 {
        error := source.errno;
        return;
      }
      end := len;
      assert buffer[offset..end] == was[..end];
    }

    /** A refill would report an error that an earlier call left behind. */
    ghost predicate Stale() reads this { error != 0 && offset >= end }

    /** It fails exactly at the end, at a byte of 0x80 or more, and at a refill with an old error, even
        if bytes arrive. */
    method Getch() returns (ch: int)
      requires Valid()
      modifies this, source, buffer
      ensures Valid()
      ensures ch < 0 <==> old(Remaining()) == [] || old(Remaining())[0] >= 128 || old(Stale())
      ensures old(Remaining()) == [] || old(Stale()) ==> ch == -1 && Remaining() == old(Remaining())
      ensures old(Remaining()) != [] && !old(Stale()) ==>
                ch == Signed(old(Remaining())[0]) && Remaining() == old(Remaining())[1..] && error == old(error)
      ensures old(offset) < old(end) ==> Buffered() == old(Buffered())[1..] && source.Stream() == old(source.Stream())
    {
      ghost var was := Remaining();
      if offset >= end {
        Fill();
        if error != 0 { return -1; }
        if offset >= end { return -1; }
      }
      assert was == [buffer[offset]] + (buffer[offset + 1..end] + source.Stream());
      ch := Signed(buffer[offset]);
      offset := offset + 1;
    }

    /** Without a pending error the next line depends on the bytes still to be read, not on how they
        are split between the buffer and future reads. With one it depends on the buffer alone. */
    method NextLine() returns (line: Text)
      requires Valid()
      modifies this, source, buffer
      ensures Valid()
      ensures line != [] ==>
                && Line(old(Remaining())).ok && line == Line(old(Remaining())).text
                && Remaining() == Line(old(Remaining())).rest
      ensures old(error) == 0 ==>
                && line == Line(old(Remaining())).text && Remaining() == Line(old(Remaining())).rest
                && error == if Line(old(Remaining())).ok then 0 else EINVAL
      ensures old(error) != 0 ==>
                && line == Line(old(Buffered())).text
                   && Remaining() == Line(old(Buffered())).rest + old(source.Stream())
                && error == if Line(old(Buffered())).ok then old(error) else EINVAL
    {
      hide Line, Reading, Flat, Prepend;
      line := [];
      ghost var all, here, later := Remaining(), Buffered(), source.Stream();
      ReadingStart(all);
      ReadingStart(here);
      while true
        invariant Valid() && error == old(error) && Scanning(all, here, later, line)
        decreases |Remaining()|
      {
        var status;
        status, line := Advance(line, all, here, later);
        if status == Failed {
          error := EINVAL;
          return [];
        }
        if status == Ended { break; }
      }
    }

    /** Where `NextLine` is, having read `line`. */
    ghost predicate Scanning(all: seq<byte>, here: seq<byte>, later: seq<byte>, line: Text)
      requires Valid()
      reads this, source, buffer
    {
      && Reading(all, line, Remaining())
      && (error != 0 ==> Reading(here, line, Buffered()) && source.Stream() == later)
    }

    /** One turn of the loop of `NextLine`. */
    method Advance(line: Text, ghost all: seq<byte>, ghost here: seq<byte>, ghost later: seq<byte>)
      returns (status: Status, line': Text)
      requires Valid() && Scanning(all, here, later, line)
      modifies this, source, buffer
      ensures Valid() && (status != Failed ==> error == old(error))
      ensures status == More ==> Scanning(all, here, later, line') && |Remaining()| < |old(Remaining())|
      ensures status == Ended ==> Line(all) == Scan(true, line', Remaining())
      ensures status == Failed && old(error) == 0 ==> Line(all) == Scan(false, [], Remaining())
      ensures status == Ended && old(error) != 0 ==>
                Line(here).ok && Line(here).text == line' && Remaining() == Line(here).rest + later
      ensures status == Failed && old(error) != 0 ==>
                !Line(here).ok && Line(here).text == [] && Remaining() == Line(here).rest + later
    {
      hide Line, Reading, Flat, Prepend;
      ReadingStep(all, line, Remaining());
      if error != 0 { ReadingStep(here, line, Buffered()); }
      var ch := Getch();
      if ch < 0 { return Failed, []; }
      if ch == LF as int { return Ended, line; }
      return More, if ch != CR as int then line + [ch as byte] else line;
    }
  }

  datatype Status = More | Ended | Failed

  lemma ShortLines(x: byte)
    requires x < 128 && x != LF && x != CR
    ensures Line([x, LF]) == Scan(true, [x], []) && Line([]) == Scan(false, [], [])
  {
    assert [x, LF][1..] == [LF];
    assert Line([LF]) == Scan(true, [], []);
  }

  /** With an error pending the split does matter: the same bytes give a line if they are buffered,
      and none if they still have to be read. */
  method SplitMatters(x: byte) returns (buffered: Text, pending: Text)
    requires x < 128 && x != LF && x != CR
    ensures buffered == [x] && pending == []
  {
    buffered := StaleLine([x, LF], []);
    pending := StaleLine([], [[x, LF]]);
    ShortLines(x);
  }

  method StaleLine(buffered: seq<byte>, pending: seq<seq<byte>>) returns (line: Text)
    requires forall i :: 0 <= i < |pending| ==> pending[i] != []
    ensures line == Line(buffered).text
  {
    hide Line;
    var source := new Source(pending, 0);
    var buffer := new byte[|buffered| + 1](i requires i >= 0 => if i < |buffered| then buffered[i] else 0);
    assert buffer[0..|buffered|] == buffered;
    var reader := new HeadReader(source, buffer);
    reader.end, reader.error := |buffered|, EINVAL;
    assert reader.Buffered() == buffered;
    line := reader.NextLine();
  }

  // ---------------------------------------------------------------- the parser

  predicate IsSpace(b: byte) { b == SP || 9 <= b <= 13 }

  /** The first position at or after `pos` that holds a space, or that holds none. */
  function Past(line: Text, pos: nat, spaces: bool): (r: nat)
    requires pos <= |line|
    ensures pos <= r <= |line|
    ensures forall k :: pos <= k < r ==> IsSpace(line[k]) == spaces
    ensures r < |line| ==> IsSpace(line[r]) != spaces
    decreases |line| - pos
  {
    if pos < |line| && IsSpace(line[pos]) == spaces then Past(line, pos + 1, spaces) else pos
  }

  function Token(line: Text, pos: nat): Text
    requires pos <= |line|
  {
    var from := Past(line, pos, true);
    line[from..Past(line, from, false)]
  }

  /** The first two tokens of the first line. */
  function Verb(s: seq<byte>): Text { Token(Line(s).text, 0) }

  function Path(s: seq<byte>): Text {
    var line := Line(s).text;
    Token(line, Past(line, Past(line, 0, true), false))
  }

  method AppendNextToken(dest: Text, line: Text, pos: nat) returns (dest': Text, pos': nat)
    requires pos <= |line|
    ensures dest' == dest + Token(line, pos)
    ensures pos' == Past(line, Past(line, pos, true), false)
  {
    pos' := pos;
    while pos' < |line| && IsSpace(line[pos'])
      invariant pos <= pos' <= |line| && Past(line, pos, true) == Past(line, pos', true)
    {
      pos' := pos' + 1;
    }
    ghost var from := pos';
    dest' := dest;
    while pos' < |line| && !IsSpace(line[pos'])
      invariant from <= pos' <= |line| && Past(line, from, false) == Past(line, pos', false)
      invariant dest' == dest + line[from..pos']
    {
      dest' := dest' + [line[pos']];
      pos' := pos' + 1;
    }
  }

  const KEYMAX: nat := 63

  /** Where the key ends: at a colon, or after 63 bytes. */
  function KeyEnd(line: Text, i: nat): (r: nat)
    requires i <= KEYMAX
    ensures i <= r <= KEYMAX
    ensures forall k :: i <= k < r && k < |line| ==> line[k] != COLON
    ensures r < KEYMAX && r < |line| ==> line[r] == COLON
    decreases KEYMAX - i
  {
    if i < KEYMAX && (i < |line| ==> line[i] != COLON) then KeyEnd(line, i + 1) else i
  }

  function SkipBlank(line: Text, i: nat): (r: nat)
    requires i <= |line|
    ensures i <= r <= |line|
    decreases |line| - i
  {
    if i < |line| && line[i] == SP then SkipBlank(line, i + 1) else i
  }

  /** The parser reads past the end of a shorter line that has no colon. */
  predicate Keyed(line: Text) { KeyEnd(line, 0) < |line| }

  /** A key is compared as a C string. */
  function CString(s: Text): Text { if s == [] || s[0] == 0 then [] else [s[0]] + CString(s[1..]) }

  function Key(line: Text): Text requires Keyed(line) { CString(line[..KeyEnd(line, 0)]) }

  function Value(line: Text): Text requires Keyed(line) { line[SkipBlank(line, KeyEnd(line, 0) + 1)..] }

  function Assign(table: Table, key: Text, value: Text): Table {
    if key in table then table[key := value] else table
  }

  /** Every field line up to the one that ends the head has a key. */
  ghost predicate FieldsKeyed(s: seq<byte>)
    decreases |s|
  {
    Line(s).text == [] || (Keyed(Line(s).text) && FieldsKeyed(Line(s).rest))
  }

  /** The table after the field lines, and what follows them. */
  function Fields(s: seq<byte>, table: Table): (Table, seq<byte>)
    requires FieldsKeyed(s)
    decreases |s|
  {
    var line := Line(s).text;
    if line == [] then (table, Line(s).rest) else Fields(Line(s).rest, Assign(table, Key(line), Value(line)))
  }

  method ScanKey(line: Text) returns (i: nat, buf: Text)
    requires Keyed(line)
    ensures i == KeyEnd(line, 0) && buf == line[..i]
  {
    i, buf := 0, [];
    while i < KEYMAX && line[i] != COLON
      invariant i <= KEYMAX && KeyEnd(line, 0) == KeyEnd(line, i)
      invariant i < |line| && buf == line[..i]
    {
      buf := buf + [line[i]];
      i := i + 1;
    }
  }

  method ParseField(line: Text, table: Table) returns (table': Table)
    requires Keyed(line)
    ensures table' == Assign(table, Key(line), Value(line)) && table'.Keys == table.Keys
  {
    hide CString, KeyEnd;
    var i, buf := ScanKey(line);
    i := i + 1;
    ghost var start := i;
    while i < |line| && line[i] == SP
      invariant start <= i <= |line| && SkipBlank(line, start) == SkipBlank(line, i)
    {
      i := i + 1;
    }
    var key := CString(buf);
    table' := if key in table then table[key := line[i..]] else table;
  }

  /** `HttpHeadParser`. In a response `verb` holds the version and `path` the status code. */
  class HeadParser {
    const reader: HeadReader
    var table: Table
    var verb: Text
    var path: Text

    constructor (reader: HeadReader, table: Table)
      ensures this.reader == reader && this.table == table && verb == [] && path == []
    {
      this.reader, this.table, verb, path := reader, table, [], [];
    }

    method RequestLine()
      requires reader.Valid() && reader.error == 0 && verb == [] && path == []
      modifies this`verb, this`path, reader, reader.source, reader.buffer
      ensures reader.Valid()
      ensures reader.error == (if Line(old(reader.Remaining())).ok then 0 else EINVAL)
      ensures reader.Remaining() == Line(old(reader.Remaining())).rest
      ensures verb == Verb(old(reader.Remaining())) && path == Path(old(reader.Remaining()))
    {
      hide Line, Token, Past;
      var line := reader.NextLine();
      var i;
      verb, i := AppendNextToken(verb, line, 0);
      path, i := AppendNextToken(path, line, i);
    }

    /** The first line decides verb and path. If it can be read, the table and the position are
        functions of the bytes alone; if not, the loop still runs, but verb and path are empty and
        the head is invalid. */
    method Parse()
      requires reader.Valid() && reader.error == 0 && verb == [] && path == []
      requires FieldsKeyed(Line(reader.Remaining()).rest)
      modifies this, reader, reader.source, reader.buffer
      ensures reader.Valid()
      ensures verb == Verb(old(reader.Remaining())) && path == Path(old(reader.Remaining()))
      ensures table.Keys == old(table.Keys)
      ensures Line(old(reader.Remaining())).ok ==>
                (table, reader.Remaining()) == Fields(Line(old(reader.Remaining())).rest, old(table))
    {
      hide Line, Verb, Path, Key, Value, Keyed, Assign;
      RequestLine();
      ghost var start, clean := reader.Remaining(), reader.error == 0;
      while true
        invariant reader.Valid() && FieldsKeyed(reader.Remaining()) && table.Keys == old(table.Keys)
        invariant verb == Verb(old(reader.Remaining())) && path == Path(old(reader.Remaining()))
        invariant clean ==> reader.error == 0 && Fields(start, old(table)) == Fields(reader.Remaining(), table)
        decreases |reader.Remaining()|
      {
        var line := reader.NextLine();
        if line == [] { break; }
        table := ParseField(line, table);
      }
    }
  }
}
