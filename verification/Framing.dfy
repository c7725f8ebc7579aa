/** Message framing of internal/lsp/client.go: the header and body that `send` writes
    and the reader half of `readLoop`. */
module Framing {
  import opened Text
  import opened Decimals
  import opened Rearrangement

  const CRLF := "\r\n"
  const LENGTH := "Content-Length: "
  const LENGTH_KEY := "content-length:"
  const MAX_INT := 0x7FFF_FFFF_FFFF_FFFF

  // ---- decimal numbers ----

  /** How many digits s starts with. */
  function LeadingDigits(s: string): (n: nat)
    ensures n <= |s|
  {
    if s == "" || !IsDigit(s[0]) then 0 else 1 + LeadingDigits(s[1..])
  }

  /** fmt.Sscanf with %d: a sign, then digits; None where it reports an error and
      leaves its variable alone. */
  function ScanInt(s: string): Option<int> {
    var signed := s != "" && (s[0] == '-' || s[0] == '+');
    var rest := if signed then s[1..] else s;
    var n := LeadingDigits(rest);
    if n == 0 then None
    else
      var v: int := Value(rest[..n]);
      if signed && s[0] == '-' then (if v <= MAX_INT + 1 then Some(-v) else None)
      else if v <= MAX_INT then Some(v) else None
  }

  lemma {:induction false} AllDigitsLead(s: string)
    requires forall k :: 0 <= k < |s| ==> IsDigit(s[k])
    ensures LeadingDigits(s) == |s|
  {
    if s != "" { AllDigitsLead(s[1..]); }
  }

  /** Parsing what was printed gives the number back. */
  lemma ScanDecimal(n: nat)
    requires n <= MAX_INT
    ensures ScanInt(Decimal(n)) == Some(n)
  {
    var s := Decimal(n);
    DecimalIsDigits(n);
    assert IsDigit(s[0]);
    AllDigitsLead(s);
    ValueOfDecimal(n);
    assert s[..|s|] == s;
  }

  // ---- header lines ----

  predicate IsLineEnd(c: char) {
    c == '\r' || c == '\n'
  }

  /** strings.TrimRight(s, "\r\n") */
  function TrimRight(s: string): string {
    if s != "" && IsLineEnd(s[|s| - 1]) then TrimRight(s[..|s| - 1]) else s
  }

  /** The line is a length header, its name in any case. */
  predicate IsLengthHeader(line: string) {
    |line| >= |LENGTH_KEY| && forall k :: 0 <= k < |LENGTH_KEY| ==> ToLower(line[k]) == LENGTH_KEY[k]
  }

  /** The length known after a header line. */
  function LengthAfter(line: string, length: int): int {
    if IsLengthHeader(line) then
      match ScanInt(TrimSpace(line[|LENGTH_KEY|..]))
      case Some(v) => v
      case None => length
    else length
  }

  /** A read header: the announced length and the bytes that follow. */
  datatype Header = Header(length: int, rest: string)

  /** The header loop; None at the end of the stream. */
  function ReadHeader(data: string, length: int): (r: Option<Header>)
    ensures r.Some? ==> |r.value.rest| < |data|
    decreases |data|
  {
    var n := FirstIndex(data, '\n');
    if n >= |data| then None
    else
      var line := TrimRight(data[..n + 1]);
      if line == "" then Some(Header(length, data[n + 1..]))
      else ReadHeader(data[n + 1..], LengthAfter(line, length))
  }

  /** How the read loop ends: at the end of the stream, or allocating a body of
      negative length, which in Go stops the program. */
  datatype End = Eof | Panic

  datatype Bodies = Bodies(all: seq<string>, end: End)

  /** Everything the reader gets out of a stream. */
  function ReadBodies(data: string): Bodies
    decreases |data|
  {
    match ReadHeader(data, 0)
    case None => Bodies([], Eof)
    case Some(Header(length, rest)) =>
      if length == 0 then ReadBodies(rest)
      else if length < 0 then Bodies([], Panic)
      else if length > |rest| then Bodies([], Eof)
      else
        var more := ReadBodies(rest[length..]);
        Bodies([rest[..length]] + more.all, more.end)
  }

  /** readLoop's reader. */
  method ReadLoop(data: string) returns (bodies: seq<string>, end: End)
    ensures Bodies(bodies, end) == ReadBodies(data)
  {
    bodies := [];
    var stream := data;
    ghost var goal := ReadBodies(data);
    while true
      invariant Bodies(bodies + ReadBodies(stream).all, ReadBodies(stream).end) == goal
      decreases |stream|
    {
      ghost var header := ReadHeader(stream, 0);
      var length: int := 0;
      ghost var before := stream;
      while true
        invariant |stream| <= |before|
        invariant ReadHeader(stream, length) == header
        decreases |stream|
      {
        var n := FirstIndex(stream, '\n');
        if n >= |stream| {
          assert bodies + [] == bodies;
          return bodies, Eof;
        }
        var line := TrimRight(stream[..n + 1]);
        stream := stream[n + 1..];
        if line == "" {
          break;
        }
        if IsLengthHeader(line) {
          var scanned := ScanInt(TrimSpace(line[|LENGTH_KEY|..]));
          if scanned.Some? {
            length := scanned.value;
          }
        }
      }
      if length == 0 {
        continue;
      }
      if length < 0 {
        assert bodies + [] == bodies;
        return bodies, Panic;
      }
      if length > |stream| {
        assert bodies + [] == bodies;
        return bodies, Eof;
      }
      Associative(bodies, [stream[..length]], ReadBodies(stream[length..]).all);
      bodies := bodies + [stream[..length]];
      stream := stream[length..];
    }
  }

  // ---- the writer ----

  function HeaderOf(body: string): string {
    LENGTH + Decimal(|body|) + CRLF + CRLF
  }

  function Frame(body: string): string {
    HeaderOf(body) + body
  }

  /** What the senders have written, in the order in which they held the lock. */
  function Frames(bodies: seq<string>): string {
    if bodies == [] then "" else Frame(bodies[0]) + Frames(bodies[1..])
  }

  /** Bodies a Go program can hold; the marshalled messages are never empty. */
  predicate Sendable(body: string) {
    0 < |body| <= MAX_INT
  }

  lemma LengthLine(n: nat, rest: string)
    requires n <= MAX_INT
    ensures var data := LENGTH + Decimal(n) + CRLF + rest;
            && FirstIndex(data, '\n') == |LENGTH| + |Decimal(n)| + 1
            && TrimRight(data[..|LENGTH| + |Decimal(n)| + 2]) == LENGTH + Decimal(n)
            && data[|LENGTH| + |Decimal(n)| + 2..] == rest
  {
    var line := LENGTH + Decimal(n);
    var data := line + CRLF + rest;
    DecimalIsDigits(n);
    assert '\n' !in line + "\r" by {
      assert forall k :: 0 <= k < |line| ==> line[k] != '\n';
    }
    FirstIndexOfMark(line + "\r", '\n', rest);
    assert data == (line + "\r") + ['\n'] + rest;
    assert data[..|line| + 2] == line + CRLF;
    TrimsLineEnd(line);
  }

  lemma TrimsLineEnd(line: string)
    requires line != "" && !IsLineEnd(line[|line| - 1])
    ensures TrimRight(line + CRLF) == line
  {
    assert (line + CRLF)[..|line| + 1] == line + "\r";
    assert (line + "\r")[..|line|] == line;
    assert TrimRight(line + CRLF) == TrimRight(line + "\r") == TrimRight(line) == line;
  }

  lemma LengthLineParses(n: nat, length: int)
    requires n <= MAX_INT
    ensures LengthAfter(LENGTH + Decimal(n), length) == n
    ensures LENGTH + Decimal(n) != ""
  {
    hide LengthAfter, ScanInt, WhiteSpace;
    DecimalIsDigits(n);
    ScanDecimal(n);
    DigitsAreField(Decimal(n));
    OneBlank();
    LengthFieldParses("Content-Length:", " ", Decimal(n), length);
    assert "Content-Length:" + " " + Decimal(n) == LENGTH + Decimal(n);
  }

  lemma OneBlank()
    ensures NamesLength("Content-Length:") && WhiteSpace(" ")
  {
  }

  /** Reading a written header announces the body's length and stops at the body. */
  lemma HeaderIsRead(body: string, rest: string)
    requires |body| <= MAX_INT
    ensures ReadHeader(HeaderOf(body) + rest, 0) == Some(Header(|body|, rest))
  {
    var n := |body|;
    var data := HeaderOf(body) + rest;
    assert data == LENGTH + Decimal(n) + CRLF + (CRLF + rest);
    LengthLine(n, CRLF + rest);
    LengthLineParses(n, 0);
    assert ReadHeader(data, 0) == ReadHeader(CRLF + rest, n);
    EmptyLineEnds(rest, n);
  }

  lemma EmptyLineEnds(rest: string, length: int)
    ensures ReadHeader(CRLF + rest, length) == Some(Header(length, rest))
  {
    var data := CRLF + rest;
    FirstIndexOfMark("\r", '\n', rest);
    assert data == "\r" + ['\n'] + rest;
    assert data[..2] == CRLF;
    assert CRLF[..1] == "\r" && "\r"[..0] == "";
    assert TrimRight(CRLF) == TrimRight("\r") == TrimRight("") == "";
    assert data[2..] == rest;
  }

  lemma {:induction false} FrameIsRead(body: string, rest: string)
    requires Sendable(body)
    ensures ReadBodies(Frame(body) + rest)
         == Bodies([body] + ReadBodies(rest).all, ReadBodies(rest).end)
  {
    hide ReadHeader, HeaderOf;
    Associative(HeaderOf(body), body, rest);
    HeaderIsRead(body, body + rest);
    assert (body + rest)[..|body|] == body && (body + rest)[|body|..] == rest;
  }

  /** A frame cut short anywhere yields no body. */
  lemma {:induction false} PartialFrameYieldsNothing(body: string, n: nat)
    requires Sendable(body) && n < |Frame(body)|
    ensures ReadBodies(Frame(body)[..n]) == Bodies([], Eof)
  {
    var head := HeaderOf(body);
    var cut := Frame(body)[..n];
    if n >= |head| {
      var part := body[..n - |head|];
      assert cut == head + part;
      HeaderIsRead(body, part);
    } else {
      assert cut == head[..n];
      PartialHeader(|body|, n);
    }
  }

  lemma PartialHeader(len: nat, n: nat)
    requires len <= MAX_INT && n < |LENGTH + Decimal(len) + CRLF + CRLF|
    ensures ReadHeader((LENGTH + Decimal(len) + CRLF + CRLF)[..n], 0) == None
  {
    var line := LENGTH + Decimal(len);
    var cut := (line + CRLF + CRLF)[..n];
    DecimalIsDigits(len);
    if n <= |line| + 1 {
      assert cut == (line + "\r")[..n];
      assert forall k :: 0 <= k < n ==> cut[k] != '\n';
      NoMark(cut);
    } else {
      var rest := if n == |line| + 2 then "" else "\r";
      assert cut == line + CRLF + rest;
      LengthLine(len, rest);
      LengthLineParses(len, 0);
      NoMark(rest);
      assert ReadHeader(rest, len) == None;
    }
  }

  lemma {:induction false} NoMark(s: string)
    requires forall k :: 0 <= k < |s| ==> s[k] != '\n'
    ensures FirstIndex(s, '\n') == |s|
  {
    if s != "" { NoMark(s[1..]); }
  }

  // ---- what stands on the wire ----

  /** A message of the Base Protocol: a length field in plain digits, each header line ended
      by CR LF, an empty line, then as many bytes. */
  ghost predicate IsMessage(bytes: string, body: string) {
    exists digits ::
      && bytes == "Content-Length: " + digits + "\r\n" + "\r\n" + body
      && digits != "" && (forall k :: 0 <= k < |digits| ==> '0' <= digits[k] <= '9') && Value(digits) == |body|
  }

  /** One message after the other. */
  ghost predicate IsStream(bytes: string, bodies: seq<string>) {
    if bodies == [] then bytes == ""
    else exists n :: 0 <= n <= |bytes| && IsMessage(bytes[..n], bodies[0]) && IsStream(bytes[n..], bodies[1..])
  }

  lemma FrameIsMessage(body: string)
    ensures IsMessage(Frame(body), body)
  {
    DecimalIsDigits(|body|);
    ValueOfDecimal(|body|);
    assert Frame(body) == "Content-Length: " + Decimal(|body|) + "\r\n" + "\r\n" + body;
  }

  lemma {:induction false} FramesAreStream(bodies: seq<string>)
    ensures IsStream(Frames(bodies), bodies)
  {
    if bodies != [] {
      FramesAreStream(bodies[1..]);
      FrameIsMessage(bodies[0]);
      var bytes, n := Frames(bodies), |Frame(bodies[0])|;
      assert bytes[..n] == Frame(bodies[0]) && bytes[n..] == Frames(bodies[1..]);
    }
  }

  // ---- headers as other servers write them ----

  /** Header lines, each ended by CR LF. */
  function HeaderLines(lines: seq<string>): string {
    if lines == [] then "" else lines[0] + "\r\n" + HeaderLines(lines[1..])
  }

  /** A line of a header. */
  predicate IsField(line: string) {
    line != "" && '\r' !in line && '\n' !in line
  }

  /** A field other than the length. */
  predicate IsOtherField(line: string) {
    IsField(line) && !IsLengthHeader(line)
  }

  /** The name of the length field, in any case, with its colon. */
  predicate NamesLength(name: string) {
    && |name| == 15
    && forall k :: 0 <= k < 15 ==> (if 'A' <= name[k] <= 'Z' then (name[k] as int + 32) as char else name[k])
                                   == "content-length:"[k]
  }

  predicate Digits(s: string) {
    s != "" && forall k :: 0 <= k < |s| ==> '0' <= s[k] <= '9'
  }

  lemma LineIsRead(line: string, more: string, length: int)
    requires IsField(line)
    ensures ReadHeader(line + "\r\n" + more, length) == ReadHeader(more, LengthAfter(line, length))
  {
    hide LengthAfter;
    var data := line + "\r\n" + more;
    FirstIndexOfMark(line + "\r", '\n', more);
    assert data == (line + "\r") + ['\n'] + more;
    assert data[..|line| + 2] == line + CRLF && data[|line| + 2..] == more;
    assert line[|line| - 1] in line;
    TrimsLineEnd(line);
  }

  lemma {:induction false} OthersAreSkipped(lines: seq<string>, more: string, length: int)
    requires forall k :: 0 <= k < |lines| ==> IsOtherField(lines[k])
    ensures ReadHeader(HeaderLines(lines) + more, length) == ReadHeader(more, length)
  {
    hide ReadHeader, IsLengthHeader;
    if lines == [] {
      assert "" + more == more;
    } else {
      var rest := HeaderLines(lines[1..]) + more;
      assert HeaderLines(lines) + more == lines[0] + "\r\n" + rest;
      LineIsRead(lines[0], rest, length);
      OthersAreSkipped(lines[1..], more, length);
    }
  }

  /** The value behind the length field, with a sign in front. */
  lemma LengthFieldParses(name: string, blank: string, value: string, length: int)
    requires NamesLength(name) && WhiteSpace(blank) && value != "" && !WhiteSpace([value[0]])
    requires !WhiteSpace([value[|value| - 1]]) && ScanInt(value).Some?
    ensures LengthAfter(name + blank + value, length) == ScanInt(value).value
  {
    var line := name + blank + value;
    forall k | 0 <= k < 15 ensures ToLower(line[k]) == LENGTH_KEY[k] {
      assert line[k] == name[k];
    }
    assert line[15..] == blank + value + "";
    TrimSpaceIs(blank, value, "");
  }

  lemma DigitsScan(digits: string)
    requires Digits(digits)
    ensures var v: int := Value(digits);
            v <= MAX_INT ==> ScanInt(digits) == Some(v) && ScanInt("-" + digits) == Some(-v)
  {
    hide Value, LeadingDigits;
    AllDigitsLead(digits);
    assert digits[..|digits|] == digits && ("-" + digits)[1..] == digits;
  }

  /** The bytes of a message with one length field among other fields. */
  function Written(before: seq<string>, field: string, after: seq<string>, rest: string): string {
    HeaderLines(before) + (field + "\r\n" + (HeaderLines(after) + ("\r\n" + rest)))
  }

  /** A header with one length field, in any case, after any blanks or none and among any
      other fields: the reader finds the value and stops behind the empty line. */
  lemma {:induction false} AnyHeaderIsRead(before: seq<string>, name: string, blank: string, value: string,
                                           after: seq<string>, rest: string)
    requires forall k :: 0 <= k < |before| ==> IsOtherField(before[k])
    requires forall k :: 0 <= k < |after| ==> IsOtherField(after[k])
    requires NamesLength(name) && (forall k :: 0 <= k < |blank| ==> blank[k] in [' ', '\t'])
    requires IsField(value) && !WhiteSpace([value[0]]) && !WhiteSpace([value[|value| - 1]]) && ScanInt(value).Some?
    ensures ReadHeader(Written(before, name + blank + value, after, rest), 0)
         == Some(Header(ScanInt(value).value, rest))
  {
    hide ReadHeader, LengthAfter, ScanInt, IsLengthHeader;
    var n := ScanInt(value).value;
    var ending := HeaderLines(after) + ("\r\n" + rest);
    OthersAreSkipped(before, name + blank + value + "\r\n" + ending, 0);
    LengthIsField(name, blank, value);
    LineIsRead(name + blank + value, ending, 0);
    LengthFieldParses(name, blank, value, 0);
    OthersAreSkipped(after, "\r\n" + rest, n);
    EmptyLineEnds(rest, n);
  }

  lemma LengthIsField(name: string, blank: string, value: string)
    requires NamesLength(name) && (forall k :: 0 <= k < |blank| ==> blank[k] in [' ', '\t']) && IsField(value)
    ensures IsField(name + blank + value) && WhiteSpace(blank)
  {
    forall c | c in name ensures c != '\r' && c != '\n' {
      var k :| 0 <= k < 15 && name[k] == c;
      assert "content-length:"[k] != '\r' && "content-length:"[k] != '\n';
    }
  }

  /** The reader takes every message of the Base Protocol whole, whatever other fields its
      header has and however its length field is written; a length of zero is passed over,
      a negative one stops the program. */
  lemma {:induction false} AnyMessageIsRead(before: seq<string>, name: string, blank: string, digits: string,
                                            after: seq<string>, body: string, rest: string)
    requires forall k :: 0 <= k < |before| ==> IsOtherField(before[k])
    requires forall k :: 0 <= k < |after| ==> IsOtherField(after[k])
    requires NamesLength(name) && (forall k :: 0 <= k < |blank| ==> blank[k] in [' ', '\t'])
    requires Digits(digits) && Value(digits) <= MAX_INT
    ensures var whole := Written(before, name + blank + digits, after, body + rest);
            Value(digits) == |body| > 0 ==>
              ReadBodies(whole) == Bodies([body] + ReadBodies(rest).all, ReadBodies(rest).end)
    ensures Value(digits) == 0 ==> ReadBodies(Written(before, name + blank + digits, after, rest)) == ReadBodies(rest)
    ensures var negative := Written(before, name + blank + ("-" + digits), after, rest);
            Value(digits) > 0 ==> ReadBodies(negative) == Bodies([], Panic)
  {
    hide ReadHeader, HeaderLines, IsLengthHeader, NamesLength, Value;
    DigitsScan(digits);
    DigitsAreField(digits);
    hide ScanInt, Digits, IsField, WhiteSpace;
    AnyHeaderIsRead(before, name, blank, digits, after, body + rest);
    AnyHeaderIsRead(before, name, blank, digits, after, rest);
    AnyHeaderIsRead(before, name, blank, "-" + digits, after, rest);
    assert (body + rest)[..|body|] == body && (body + rest)[|body|..] == rest;
  }

  lemma DigitsAreField(digits: string)
    requires Digits(digits)
    ensures IsField(digits) && !WhiteSpace([digits[0]]) && !WhiteSpace([digits[|digits| - 1]])
    ensures var signed := "-" + digits;
            IsField(signed) && !WhiteSpace([signed[0]]) && !WhiteSpace([signed[|signed| - 1]])
  {
    assert [digits[0]][0] == digits[0] && [digits[|digits| - 1]][0] == digits[|digits| - 1];
    assert ['-'][0] == '-';
  }

  lemma {:induction false} FramesConcat(a: seq<string>, b: seq<string>)
    ensures Frames(a + b) == Frames(a) + Frames(b)
  {
    if a == [] {
      assert a + b == b;
    } else {
      assert (a + b)[1..] == a[1..] + b;
      FramesConcat(a[1..], b);
      assert Frame(a[0]) + (Frames(a[1..]) + Frames(b)) == (Frame(a[0]) + Frames(a[1..])) + Frames(b);
    }
  }

  /** The round trip: whatever the bodies contain, the reader recovers exactly the
      bodies written, in the order in which the senders held the lock; a frame that is
      still incomplete at the end adds nothing. */
  lemma {:induction false} ReaderRecoversBodies(bodies: seq<string>, last: string, n: nat)
    requires forall k :: 0 <= k < |bodies| ==> Sendable(bodies[k])
    requires Sendable(last) && n < |Frame(last)|
    ensures ReadBodies(Frames(bodies) + Frame(last)[..n]) == Bodies(bodies, Eof)
    decreases |bodies|
  {
    var tail := Frame(last)[..n];
    if bodies == [] {
      assert "" + tail == tail;
      PartialFrameYieldsNothing(last, n);
    } else {
      ReaderRecoversBodies(bodies[1..], last, n);
      var rest := Frames(bodies[1..]) + tail;
      FrameIsRead(bodies[0], rest);
      Associative(Frame(bodies[0]), Frames(bodies[1..]), tail);
      assert bodies == [bodies[0]] + bodies[1..];
    }
  }
}
