/** What a client makes of a response written as section 2 of RFC 9112 lays it out. */
module HttpResponse {
  import opened Bytes
  import opened HttpSocket
  import opened HttpHead
  import opened HttpClient

  const CRLF: Text := [13, 10]

  /** A field line: key, colon, any number of blanks, value. */
  datatype HeaderField = HeaderField(key: Text, blanks: nat, value: Text)

  /** Bytes that may stand inside a line. */
  predicate Plain(s: Text) { forall i :: 0 <= i < |s| ==> 0 < s[i] < 128 && s[i] != 13 && s[i] != 10 }

  predicate Word(s: Text) { s != [] && Plain(s) && forall i :: 0 <= i < |s| ==> !IsSpace(s[i]) }

  predicate WellFormed(f: HeaderField) {
    && Plain(f.key) && |f.key| < 63 && (forall i :: 0 <= i < |f.key| ==> f.key[i] != 58)
    && Plain(f.value) && (f.value != [] ==> f.value[0] != 32)
  }

  function Blanks(n: nat): (s: Text)
    ensures |s| == n && forall i :: 0 <= i < n ==> s[i] == 32
  {
    seq(n, _ => 32)
  }

  function FieldText(f: HeaderField): Text { f.key + [58] + Blanks(f.blanks) + f.value }

  function RenderFields(fields: seq<HeaderField>): seq<byte> {
    if fields == [] then [] else FieldText(fields[0]) + CRLF + RenderFields(fields[1..])
  }

  function Decimal(n: nat): Text {
    if n < 10 then [(48 + n) as byte] else Decimal(n / 10) + [(48 + n % 10) as byte]
  }

  function Render(version: Text, code: nat, reason: Text, fields: seq<HeaderField>): seq<byte> {
    version + [32] + Decimal(code) + [32] + reason + CRLF + RenderFields(fields) + CRLF
  }

  // ---------------------------------------------------------------- numbers

  lemma {:induction false} DigitsAppend(a: Text, b: Text, acc: nat)
    requires forall i :: 0 <= i < |a| ==> IsDigit(a[i])
    ensures Digits(a + b, acc) == Digits(b, Digits(a, acc))
  {
    if a == [] {
      assert a + b == b;
    } else {
      assert (a + b)[1..] == a[1..] + b;
      DigitsAppend(a[1..], b, 10 * acc + (a[0] - 48) as nat);
    }
  }

  lemma {:induction false} DecimalDigits(n: nat)
    ensures Decimal(n) != [] && (forall i :: 0 <= i < |Decimal(n)| ==> IsDigit(Decimal(n)[i]))
    ensures Digits(Decimal(n), 0) == n
  {
    if n >= 10 {
      DecimalDigits(n / 10);
      DigitsAppend(Decimal(n / 10), [(48 + n % 10) as byte], 0);
    }
  }

  lemma NumberDecimal(n: nat)
    ensures Decimal(n) != [] && Word(Decimal(n)) && Number(Decimal(n)) == n
  {
    DecimalDigits(n);
    var s := Decimal(n);
    assert IsDigit(s[0]);
    assert Past(s, 0, true) == 0;
    assert s[0..] == s;
  }

  /** `atoi` and `atol` read blanks, a sign and digits up to the first other character. */
  lemma NumberForms(blanks: Text, sign: Text, n: nat, tail: Text)
    requires (forall i :: 0 <= i < |blanks| ==> blanks[i] in {9, 10, 11, 12, 13, 32}) && sign in {[], [43], [45]}
    requires tail != [] ==> !(48 <= tail[0] <= 57)
    ensures Number(blanks + sign + Decimal(n) + tail) == if sign == [45] then 0 - n as int else n as int
  {
    hide Decimal, Digits, Number, Past;
    var s, rest := blanks + sign + Decimal(n) + tail, sign + Decimal(n) + tail;
    DecimalDigits(n);
    assert IsDigit(Decimal(n)[0]);
    assert rest[0] == if sign == [] then Decimal(n)[0] else sign[0];
    assert s[|blanks|] == rest[0] && !IsSpace(rest[0]);
    PastIs(s, 0, |blanks|, true);
    assert s[|blanks|..] == rest;
    assert rest[|sign|..] == Decimal(n) + tail;
    DigitsAppend(Decimal(n), tail, 0);
    StopsThere(tail, n);
    NumberOf(s, |blanks|, rest);
    if sign == [] { assert rest == Decimal(n) + tail; }
  }

  lemma StopsThere(tail: Text, n: nat)
    requires tail != [] ==> !(48 <= tail[0] <= 57)
    ensures Digits(tail, n) == n
  {
  }

  lemma NumberOf(s: Text, k: nat, rest: Text)
    requires k <= |s| && Past(s, 0, true) == k && s[k..] == rest && rest != []
    ensures Number(s) == if rest[0] == 45 then 0 - Digits(rest[1..], 0) as int
                         else if rest[0] == 43 then Digits(rest[1..], 0) else Digits(rest, 0)
  {
  }

  // ---------------------------------------------------------------- lines

  function WithoutReturns(s: Text): Text {
    if s == [] then [] else (if s[0] == 13 then [] else [s[0]]) + WithoutReturns(s[1..])
  }

  /** A line ends at a line feed, with or without carriage returns anywhere in it. */
  lemma {:induction false} AnyLine(raw: Text, rest: seq<byte>)
    requires forall i :: 0 <= i < |raw| ==> raw[i] < 128 && raw[i] != 10
    ensures Line(raw + [10] + rest) == Scan(true, WithoutReturns(raw), rest)
  {
    var s := raw + [10] + rest;
    if raw == [] {
      assert s[1..] == rest;
    } else {
      assert s[1..] == raw[1..] + [10] + rest;
      AnyLine(raw[1..], rest);
    }
  }

  lemma {:induction false} LineOf(text: Text, rest: seq<byte>)
    requires Plain(text)
    ensures Line(text + CRLF + rest) == Scan(true, text, rest)
  {
    var s := text + CRLF + rest;
    if text == [] {
      assert s[1..] == [10] + rest;
      assert s[1..][1..] == rest;
    } else {
      assert s[1..] == text[1..] + CRLF + rest;
      LineOf(text[1..], rest);
      assert text == [text[0]] + text[1..];
    }
  }

  lemma {:induction false} CStringPlain(s: Text)
    requires Plain(s)
    ensures CString(s) == s
  {
    if s != [] { CStringPlain(s[1..]); }
  }

  lemma FieldParsed(f: HeaderField)
    requires WellFormed(f)
    ensures Keyed(FieldText(f)) && Key(FieldText(f)) == f.key && Value(FieldText(f)) == f.value
  {
    var line := FieldText(f);
    var k := KeyEnd(line, 0);
    assert line[|f.key|] == 58;
    assert forall i :: 0 <= i < |f.key| ==> line[i] == f.key[i];
    assert k == |f.key|;
    assert line[..k] == f.key;
    CStringPlain(f.key);
    assert forall i :: k + 1 <= i < k + 1 + f.blanks ==> line[i] == 32;
    assert line[k + 1 + f.blanks..] == f.value;
    BlanksSkipped(line, k + 1, k + 1 + f.blanks);
  }

  lemma {:induction false} BlanksSkipped(line: Text, i: nat, j: nat)
    requires i <= j <= |line| && (forall k :: i <= k < j ==> line[k] == 32) && (j < |line| ==> line[j] != 32)
    ensures SkipBlank(line, i) == j
    decreases j - i
  {
    if i < j { BlanksSkipped(line, i + 1, j); }
  }

  /** A key ends at a zero byte. */
  lemma {:induction false} ZeroEndsKey(a: Text, b: Text)
    requires forall i :: 0 <= i < |a| ==> a[i] != 0
    ensures CString(a + [0] + b) == a && CString(a) == a
  {
    if a != [] {
      assert (a + [0] + b)[1..] == a[1..] + [0] + b;
      ZeroEndsKey(a[1..], b);
      assert a == [a[0]] + a[1..];
    }
  }

  /** Without a colon in its first 63 bytes a line is read as a key of those 63 bytes, and the value
      starts behind the byte that follows them. */
  lemma LongKey(line: Text, blanks: nat)
    requires |line| >= 64 + blanks && forall i :: 0 <= i < 63 ==> line[i] != 58 && line[i] != 0
    requires (forall i :: 64 <= i < 64 + blanks ==> line[i] == 32) && (64 + blanks < |line| ==> line[64 + blanks] != 32)
    ensures Keyed(line) && Key(line) == line[..63] && Value(line) == line[64 + blanks..]
  {
    var k := KeyEnd(line, 0);
    assert k == 63;
    ZeroEndsKey(line[..63], []);
    BlanksSkipped(line, 64, 64 + blanks);
  }

  /** The fields the client looks for. */
  lemma FieldNames()
    ensures Spells(CONTENT_LENGTH, "Content-Length") && Spells(CONNECTION, "Connection")
    ensures InitialTable().Keys == {CONTENT_LENGTH, CONNECTION}
  {
  }

  function AssignAll(table: Table, fields: seq<HeaderField>): Table {
    if fields == [] then table else AssignAll(Assign(table, fields[0].key, fields[0].value), fields[1..])
  }

  /** Fields are read back in order, and the body starts right after the empty line. */
  lemma {:induction false} FieldsParsed(fields: seq<HeaderField>, table: Table, body: seq<byte>)
    requires forall i :: 0 <= i < |fields| ==> WellFormed(fields[i])
    ensures var s := RenderFields(fields) + CRLF + body;
            FieldsKeyed(s) && Fields(s, table) == (AssignAll(table, fields), body) && Ending(s).ok
  {
    var s := RenderFields(fields) + CRLF + body;
    if fields == [] {
      assert s == [] + CRLF + body;
      LineOf([], body);
    } else {
      var f := fields[0];
      var rest := RenderFields(fields[1..]) + CRLF + body;
      assert s == FieldText(f) + CRLF + rest;
      LineOf(FieldText(f), rest);
      FieldParsed(f);
      FieldsParsed(fields[1..], Assign(table, f.key, f.value), body);
    }
  }

  /** The last field of a name decides. */
  lemma {:induction false} LastWins(table: Table, before: seq<HeaderField>, f: HeaderField, after: seq<HeaderField>)
    requires f.key in table && forall i :: 0 <= i < |after| ==> after[i].key != f.key
    ensures var t := AssignAll(table, before + [f] + after); f.key in t && t[f.key] == f.value
  {
    var all := before + [f] + after;
    if before == [] {
      assert all == [f] + after;
      assert all[1..] == after;
      Untouched(Assign(table, f.key, f.value), after, f.key);
    } else {
      assert all[1..] == before[1..] + [f] + after;
      LastWins(Assign(table, before[0].key, before[0].value), before[1..], f, after);
    }
  }

  lemma {:induction false} Untouched(table: Table, fields: seq<HeaderField>, key: Text)
    requires key in table && forall i :: 0 <= i < |fields| ==> fields[i].key != key
    ensures var t := AssignAll(table, fields); key in t && t[key] == table[key]
  {
    if fields != [] { Untouched(Assign(table, fields[0].key, fields[0].value), fields[1..], key); }
  }

  // ---------------------------------------------------------------- whole responses

  predicate AllSpace(s: Text) { forall i :: 0 <= i < |s| ==> s[i] in {9, 10, 11, 12, 13, 32} }

  predicate NoSpace(s: Text) { s != [] && forall i :: 0 <= i < |s| ==> s[i] !in {9, 10, 11, 12, 13, 32} }

  /** The first two words of a line, whatever white space surrounds them. */
  lemma TwoWords(lead: Text, first: Text, gap: Text, second: Text, tail: Text)
    requires AllSpace(lead) && NoSpace(first) && AllSpace(gap) && gap != [] && NoSpace(second)
    requires tail != [] ==> tail[0] in {9, 10, 11, 12, 13, 32}
    ensures var line := lead + first + gap + second + tail;
            && Token(line, 0) == first
            && Token(line, Past(line, Past(line, 0, true), false)) == second
  {
    var line := lead + first + gap + second + tail;
    var a, b := |lead|, |lead| + |first|;
    var c, d := b + |gap|, b + |gap| + |second|;
    assert line[..a] == lead && line[a..b] == first && line[b..c] == gap && line[c..d] == second;
    PieceIs(line, 0, a, true);
    PieceIs(line, a, b, false);
    PieceIs(line, b, c, true);
    PieceIs(line, c, d, false);
  }

  lemma PieceIs(line: Text, i: nat, j: nat, spaces: bool)
    requires i <= j <= |line| && (if spaces then AllSpace(line[i..j]) else NoSpace(line[i..j]))
    requires j < |line| ==> IsSpace(line[j]) != spaces
    ensures Past(line, i, spaces) == j
  {
    forall k | i <= k < j ensures IsSpace(line[k]) == spaces { assert line[k] == line[i..j][k - i]; }
    PastIs(line, i, j, spaces);
  }

  lemma {:induction false} PastIs(line: Text, i: nat, j: nat, spaces: bool)
    requires i <= j <= |line| && (forall k :: i <= k < j ==> IsSpace(line[k]) == spaces)
    requires j < |line| ==> IsSpace(line[j]) != spaces
    ensures Past(line, i, spaces) == j
    decreases j - i
  {
    if i < j { PastIs(line, i + 1, j, spaces); }
  }

  lemma TokenAt(line: Text, pos: nat, word: Text)
    requires Word(word) && pos + |word| < |line| && line[pos..pos + |word|] == word && line[pos + |word|] == 32
    ensures Past(line, pos, true) == pos && Past(line, pos, false) == pos + |word| && Token(line, pos) == word
  {
  }

  lemma StatusLine(version: Text, code: nat, reason: Text, rest: seq<byte>)
    requires Word(version) && Plain(reason)
    ensures var s := version + [32] + Decimal(code) + [32] + reason + CRLF + rest;
            Line(s).ok && Line(s).rest == rest && version != [] && Verb(s) == version && Path(s) == Decimal(code)
  {
    hide Line, Decimal, Number;
    var line := version + [32] + Decimal(code) + [32] + reason;
    NumberDecimal(code);
    assert line[|version|] == 32 && IsSpace(32) && !IsSpace(Decimal(code)[0]);
    assert line[|version| + 1..][..|Decimal(code)|] == Decimal(code);
    LineOf(line, rest);
    TokenAt(line, 0, version);
    TokenAt(line, |version| + 1, Decimal(code));
    assert Past(line, |version|, true) == |version| + 1;
  }

  lemma LengthField(blanks: nat, n: nat)
    ensures WellFormed(HeaderField(CONTENT_LENGTH, blanks, Decimal(n)))
    ensures Decimal(n) != [] && Number(Decimal(n)) == n
  {
    NumberDecimal(n);
  }

  lemma RenderThen(version: Text, code: nat, reason: Text, fields: seq<HeaderField>, body: seq<byte>)
    ensures Render(version, code, reason, fields) + body
         == version + [32] + Decimal(code) + [32] + reason + CRLF + (RenderFields(fields) + CRLF + body)
  {
  }

  // ---------------------------------------------------------------- responses cut off in the head

  predicate NoLineEnd(s: seq<byte>) { forall i :: 0 <= i < |s| ==> s[i] < 128 && s[i] != 10 }

  lemma {:induction false} NoLine(s: seq<byte>)
    requires NoLineEnd(s)
    ensures Line(s) == Scan(false, [], [])
  {
    if s != [] { NoLine(s[1..]); }
  }

  /** Cut off inside the status line: the client fails. */
  lemma CutStatusLine(s: seq<byte>)
    requires NoLineEnd(s)
    ensures HeadKeyed(s) && Reply(s) == Outcome(false, [])
  {
    NoLine(s);
    assert FieldsKeyed([]);
  }

  lemma {:induction false} FieldsCut(fields: seq<HeaderField>, table: Table, partial: seq<byte>)
    requires (forall i :: 0 <= i < |fields| ==> WellFormed(fields[i])) && NoLineEnd(partial)
    ensures var s := RenderFields(fields) + partial;
            FieldsKeyed(s) && Fields(s, table) == (AssignAll(table, fields), []) && !Ending(s).ok
  {
    var s := RenderFields(fields) + partial;
    if fields == [] {
      assert s == partial;
      NoLine(partial);
    } else {
      var f, rest := fields[0], RenderFields(fields[1..]) + partial;
      assert s == FieldText(f) + CRLF + rest;
      LineOf(FieldText(f), rest);
      FieldParsed(f);
      FieldsCut(fields[1..], Assign(table, f.key, f.value), partial);
    }
  }

  /** Cut off behind the status line, between or inside fields: nothing is delivered, and the client
      reports success exactly if the status is 200 and the fields that did arrive announce no body. */
  lemma TruncatedHead(version: Text, code: nat, reason: Text, fields: seq<HeaderField>, partial: seq<byte>)
    requires Word(version) && Plain(reason) && NoLineEnd(partial)
    requires forall i :: 0 <= i < |fields| ==> WellFormed(fields[i])
    ensures var s := version + [32] + Decimal(code) + [32] + reason + CRLF + (RenderFields(fields) + partial);
            var table := AssignAll(InitialTable(), fields);
            && HeadKeyed(s) && !HeadComplete(s) && CONTENT_LENGTH in table
            && Reply(s) == Outcome(code == 200 && LengthOf(table) == 0, [])
  {
    hide Line, Past, Decimal, Digits, Number, Plain, Word, WellFormed, Fields, FieldsKeyed, AssignAll, RenderFields,
         Verb, Path, Ending;
    var rest := RenderFields(fields) + partial;
    NumberDecimal(code);
    StatusLine(version, code, reason, rest);
    FieldsCut(fields, InitialTable(), partial);
    FieldsKeys(rest, InitialTable());
  }

  /** For one: a status line of 200 and nothing else counts as a complete response. */
  lemma OnlyStatusLine(version: Text, reason: Text)
    requires Word(version) && Plain(reason)
    ensures var s := version + [32] + Decimal(200) + [32] + reason + CRLF;
            HeadKeyed(s) && !HeadComplete(s) && Reply(s) == Outcome(true, [])
  {
    hide Plain, Word, Line, Past, Decimal, Digits, Number, Fields, FieldsKeyed, Verb, Path, Ending, HeadKeyed,
         HeadComplete, Reply;
    TruncatedHead(version, 200, reason, [], []);
    var head := version + [32] + Decimal(200) + [32] + reason + CRLF;
    assert head + (RenderFields([]) + []) == head;
  }

  // ---------------------------------------------------------------- responses with a high byte in the head

  lemma {:induction false} StoppedLine(partial: seq<byte>, x: byte, rest: seq<byte>)
    requires NoLineEnd(partial) && x >= 128
    ensures Line(partial + [x] + rest) == Scan(false, [], rest)
  {
    var s := partial + [x] + rest;
    if partial == [] {
      assert s[1..] == rest;
    } else {
      assert s[1..] == partial[1..] + [x] + rest;
      StoppedLine(partial[1..], x, rest);
    }
  }

  lemma {:induction false} FieldsStopped(fields: seq<HeaderField>, table: Table, partial: seq<byte>, x: byte,
                                         rest: seq<byte>)
    requires (forall i :: 0 <= i < |fields| ==> WellFormed(fields[i])) && NoLineEnd(partial) && x >= 128
    ensures var s := RenderFields(fields) + (partial + [x] + rest);
            FieldsKeyed(s) && Fields(s, table) == (AssignAll(table, fields), rest) && !Ending(s).ok
  {
    var tail := partial + [x] + rest;
    var s := RenderFields(fields) + tail;
    if fields == [] {
      assert s == tail;
      StoppedLine(partial, x, rest);
    } else {
      var f, more := fields[0], RenderFields(fields[1..]) + tail;
      assert s == FieldText(f) + CRLF + more;
      LineOf(FieldText(f), more);
      FieldParsed(f);
      FieldsStopped(fields[1..], Assign(table, f.key, f.value), partial, x, rest);
    }
  }

  /** A byte of 0x80 or more in a field ends the head. Whatever comes behind it, the rest of the head
      first, is taken for the body, and the client reports success exactly if the status is 200 and
      that is as long as the fields before it announce. */
  lemma HighByteEndsHead(version: Text, code: nat, reason: Text, fields: seq<HeaderField>,
                         partial: seq<byte>, x: byte, rest: seq<byte>)
    requires Word(version) && Plain(reason) && NoLineEnd(partial) && x >= 128
    requires forall i :: 0 <= i < |fields| ==> WellFormed(fields[i])
    ensures var tail := RenderFields(fields) + (partial + [x] + rest);
            var s := version + [32] + Decimal(code) + [32] + reason + CRLF + tail;
            var table := AssignAll(InitialTable(), fields);
            && HeadKeyed(s) && !HeadComplete(s) && CONTENT_LENGTH in table
            && var n := LengthOf(table);
               Reply(s) == if code == 200 then Outcome(n <= |rest|, rest[..Min(n, |rest|)]) else Outcome(false, [])
  {
    hide Line, Past, Decimal, Digits, Number, Plain, Word, WellFormed, Fields, FieldsKeyed, AssignAll, RenderFields;
    hide Verb, Path, Ending;
    var tail := RenderFields(fields) + (partial + [x] + rest);
    NumberDecimal(code);
    StatusLine(version, code, reason, tail);
    FieldsStopped(fields, InitialTable(), partial, x, rest);
    FieldsKeys(tail, InitialTable());
  }

  /** For one: a length of 4, then a field with the single byte 0x80. The two line ends that close the
      head are delivered as the body. */
  lemma HeadAsBody(version: Text, reason: Text)
    requires Word(version) && Plain(reason)
    ensures var fields := [HeaderField(CONTENT_LENGTH, 1, Decimal(4))];
            var tail := RenderFields(fields) + ([] + [0x80] + (CRLF + CRLF));
            var s := version + [32] + Decimal(200) + [32] + reason + CRLF + tail;
            HeadKeyed(s) && Reply(s) == Outcome(true, CRLF + CRLF)
  {
    hide Line, Past, Decimal, Digits, Number, Plain, Word, WellFormed, Fields, FieldsKeyed, RenderFields, Verb, Path,
         Ending;
    var f := HeaderField(CONTENT_LENGTH, 1, Decimal(4));
    LengthField(1, 4);
    HighByteEndsHead(version, 200, reason, [f], [], 0x80, CRLF + CRLF);
    LastWins(InitialTable(), [], f, []);
    assert [] + [f] + [] == [f];
    assert (CRLF + CRLF)[..4] == CRLF + CRLF;
  }

  // ---------------------------------------------------------------- complete responses

  /** Whatever follows the head, the client gets exactly the announced number of bytes if the status
      is 200 and that many arrive; if fewer arrive it gets them all and fails. */
  lemma ResponseDelivered(version: Text, code: nat, reason: Text, before: seq<HeaderField>, blanks: nat, n: nat,
                          after: seq<HeaderField>, body: seq<byte>)
    requires Word(version) && Plain(reason) && n < SIZE_LIMIT / 2
    requires forall i :: 0 <= i < |before| ==> WellFormed(before[i])
    requires forall i :: 0 <= i < |after| ==> WellFormed(after[i]) && after[i].key != CONTENT_LENGTH
    ensures var fields := before + [HeaderField(CONTENT_LENGTH, blanks, Decimal(n))] + after;
            var s := Render(version, code, reason, fields) + body;
            && HeadKeyed(s) && HeadComplete(s)
            && Reply(s) == if code == 200 then Outcome(n <= |body|, body[..Min(n, |body|)]) else Outcome(false, [])
  {
    hide Line, Past, Decimal, Digits, Number, Plain, Word, WellFormed, Fields, FieldsKeyed, AssignAll, RenderFields,
         Verb, Path, Ending;
    var f := HeaderField(CONTENT_LENGTH, blanks, Decimal(n));
    var fields := before + [f] + after;
    var rest := RenderFields(fields) + CRLF + body;
    var s := Render(version, code, reason, fields) + body;
    RenderThen(version, code, reason, fields, body);
    NumberDecimal(code);
    LengthField(blanks, n);
    StatusLine(version, code, reason, rest);
    FieldsParsed(fields, InitialTable(), body);
    LastWins(InitialTable(), before, f, after);
  }
}
