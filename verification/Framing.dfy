// The two copy loops of execution-service/Runner/LanguageServerSessions.cs: messages from a web
// socket become Content-Length frames on a byte stream, and frames become messages again. The frames
// are those of the Language Server Protocol 3.17, "Base Protocol", "Header Part".
module Framing {
  import opened Wrappers
  import opened Text

  type Byte = b: int | 0 <= b < 0x100

  const CR: Byte := 13
  const LF: Byte := 10
  const COLON_BYTE: Byte := 58
  const ZERO: Byte := 48

  const MAXIMUM_MESSAGE_BYTES: nat := 4 * 1024 * 1024
  const MAXIMUM_HEADER: nat := 1024
  const MAXIMUM_INT32: nat := 0x7FFF_FFFF

  // "Content-Length"
  const CONTENT_LENGTH: seq<Byte> := [67, 111, 110, 116, 101, 110, 116, 45, 76, 101, 110, 103, 116, 104]

  const CRLF: seq<Byte> := [CR, LF]

  // ----- The header line -----

  function DecimalBytes(n: nat): (digits: seq<Byte>)
    ensures |digits| > 0 && forall d | d in digits :: ZERO <= d < ZERO + 10
  {
    var digits := Decimal(n);
    assert forall i | 0 <= i < |digits| :: digits[i] in digits;
    digits
  }

  function LengthLine(n: nat): seq<Byte> { CONTENT_LENGTH + [COLON_BYTE, 32] + DecimalBytes(n) }

  // A header: its lines, each ended, and an empty one.
  function Header(lines: seq<seq<Byte>>): seq<Byte> { Lines(lines) + CRLF }

  function Lines(lines: seq<seq<Byte>>): seq<Byte> {
    if lines == [] then [] else lines[0] + CRLF + Lines(lines[1..])
  }

  function Frame(body: seq<Byte>): seq<Byte> { Header([LengthLine(|body|)]) + body }

  // ----- ParseContentLength -----

  // header.Split("\r\n", RemoveEmptyEntries), with the line being read.
  function SplitLines(line: seq<Byte>, s: seq<Byte>): (lines: seq<seq<Byte>>)
    decreases |s|
  {
    if s == [] then NonEmpty(line)
    else if CRLF <= s then NonEmpty(line) + SplitLines([], s[2..])
    else SplitLines(line + [s[0]], s[1..])
  }

  function NonEmpty(line: seq<Byte>): seq<seq<Byte>> { if line == [] then [] else [line] }

  function IndexOfByte(s: seq<Byte>, b: Byte): (i: int)
    ensures i == -1 ==> b !in s
    ensures i != -1 ==> 0 <= i < |s| && s[i] == b && b !in s[..i]
  {
    if s == [] then -1
    else if s[0] == b then 0
    else
      var i := IndexOfByte(s[1..], b);
      if i == -1 then -1 else assert s[..i + 1] == [s[0]] + s[1..][..i]; i + 1
  }

  // The upper-case form in the first 256 characters, as far as it meets an ASCII letter.
  function Fold(b: Byte): Byte { if 97 <= b <= 122 then b - 32 else b }

  predicate EqualsIgnoreCase(a: seq<Byte>, b: seq<Byte>) {
    |a| == |b| && forall i | 0 <= i < |a| :: Fold(a[i]) == Fold(b[i])
  }

  // char.IsWhiteSpace on the first 256 characters.
  predicate IsSpace(b: Byte) { 9 <= b <= 13 || b == 32 || b == 0x85 || b == 0xA0 }

  function Trim(s: seq<Byte>): seq<Byte> {
    if s == [] then []
    else if IsSpace(s[0]) then Trim(s[1..])
    else if IsSpace(s[|s| - 1]) then Trim(s[..|s| - 1])
    else s
  }

  predicate IsDigit(b: Byte) { ZERO <= b < ZERO + 10 }

  // int.TryParse with NumberStyles.None: digits only, which may be followed by NUL characters.
  function TryParseInt(s: seq<Byte>): Option<nat> {
    if s == [] || !IsDigit(s[0]) then None
    else
      var n := Number(0, s);
      if n.Some? && n.value <= MAXIMUM_INT32 then n else None
  }

  function Number(sofar: nat, s: seq<Byte>): Option<nat>
    decreases |s|
  {
    if s == [] then Some(sofar)
    else if IsDigit(s[0]) then Number(10 * sofar + (s[0] - ZERO), s[1..])
    else if forall i | 0 <= i < |s| :: s[i] == 0 then Some(sofar)
    else None
  }

  // What one line of a header says about the length.
  function LengthOf(line: seq<Byte>): Option<nat> {
    var separator := IndexOfByte(line, COLON_BYTE);
    if separator > 0 && EqualsIgnoreCase(line[..separator], CONTENT_LENGTH) then
      TryParseInt(Trim(line[separator + 1..]))
    else None
  }

  datatype FrameError = InvalidMessage | InvalidFrame | NoContentLength | EndOfStream

  method ParseContentLength(header: seq<Byte>) returns (r: Result<nat, FrameError>)
    ensures r == FirstLength(SplitLines([], header))
  {
    var lines := SplitLines([], header);
    for i := 0 to |lines|
      invariant FirstLength(lines) == FirstLength(lines[i..])
    {
      assert lines[i..][1..] == lines[i + 1..];
      var length := LengthOf(lines[i]);
      if length.Some? {
        return Ok(length.value);
      }
    }
    return Err(NoContentLength);
  }

  function FirstLength(lines: seq<seq<Byte>>): Result<nat, FrameError> {
    if lines == [] then Err(NoContentLength)
    else
      match LengthOf(lines[0])
      case Some(n) => Ok(n)
      case None => FirstLength(lines[1..])
  }

  // ----- From the web socket to the process -----

  datatype MessageType = TextMessage | BinaryMessage | CloseMessage

  datatype Received = Received(messageType: MessageType, payload: seq<Byte>, endOfMessage: bool)

  // What a socket's events amount to: the finished messages, and what is left unfinished.
  datatype Relayed = Relayed(messages: seq<seq<Byte>>, failed: bool)

  function Frames(bodies: seq<seq<Byte>>): seq<Byte> {
    if bodies == [] then [] else Frame(bodies[0]) + Frames(bodies[1..])
  }

  function Relay(events: seq<Received>, message: seq<Byte>): Relayed {
    if events == [] || events[0].messageType.CloseMessage? then Relayed([], false)
    else if !events[0].messageType.TextMessage? || |message| + |events[0].payload| > MAXIMUM_MESSAGE_BYTES then
      Relayed([], true)
    else if !events[0].endOfMessage then Relay(events[1..], message + events[0].payload)
    else
      var rest := Relay(events[1..], []);
      rest.(messages := [message + events[0].payload] + rest.messages)
  }

  lemma {:induction false} FramesAppend(a: seq<seq<Byte>>, b: seq<seq<Byte>>)
    ensures Frames(a + b) == Frames(a) + Frames(b)
  {
    if a == [] {
      assert a + b == b;
    } else {
      assert (a + b)[1..] == a[1..] + b;
      FramesAppend(a[1..], b);
    }
  }

  lemma OneMoreFrame(bodies: seq<seq<Byte>>, body: seq<Byte>)
    ensures Frames(bodies + [body]) == Frames(bodies) + Frame(body)
  {
    hide Frame;
    FramesAppend(bodies, [body]);
    assert Frames([body]) == Frame(body) + Frames([]);
  }

  lemma NoFrames()
    ensures Frames([]) == []
  {
  }

  // The loop ends with the events, which stands for the cancellation of the session.
  method CopyWebSocketToProcess(events: seq<Received>) returns (r: Result<(), FrameError>, input: seq<Byte>)
    ensures input == Frames(Relay(events, []).messages)
    ensures r == if Relay(events, []).failed then Err(InvalidMessage) else Ok(())
  {
    hide Frames;
    input := [];
    NoFrames();
    var message: seq<Byte> := [];
    ghost var copied: seq<seq<Byte>> := [];
    for i := 0 to |events|
      invariant input == Frames(copied)
      invariant Relay(events, []) ==
                  Relay(events[i..], message).(messages := copied + Relay(events[i..], message).messages)
    {
      var result := events[i];
      assert events[i..][1..] == events[i + 1..];
      if result.messageType.CloseMessage? {
        assert copied + [] == copied;
        return Ok(()), input;
      }
      if !result.messageType.TextMessage? || |message| + |result.payload| > MAXIMUM_MESSAGE_BYTES {
        assert copied + [] == copied;
        return Err(InvalidMessage), input;
      }
      message := message + result.payload;
      if result.endOfMessage {
        input := input + FrameOf(message);
        OneMoreFrame(copied, message);
        copied := copied + [message];
        message := [];
      }
    }
    assert copied + [] == copied;
    return Ok(()), input;
  }

  // The two writes of one message.
  function FrameOf(body: seq<Byte>): (frame: seq<Byte>)
    ensures frame == Frame(body)
  {
    var header := CONTENT_LENGTH + [COLON_BYTE, 32] + DecimalBytes(|body|) + [CR, LF, CR, LF];
    assert Lines([LengthLine(|body|)]) == LengthLine(|body|) + CRLF;
    assert header == Header([LengthLine(|body|)]);
    header + body
  }

  // ----- From the process to the web socket -----

  predicate EndsHeader(s: seq<Byte>) { |s| >= 4 && s[|s| - 4..] == [CR, LF, CR, LF] }

  // The length of the header at the start of a stream of which n bytes have been read.
  datatype Scan = HeaderOf(length: nat) | StreamEnded | HeaderTooLong

  function ScanHeader(s: seq<Byte>, n: nat): (scan: Scan)
    requires n <= |s|
    ensures scan.HeaderOf? ==> n < scan.length <= |s|
    decreases |s| - n
  {
    if n == |s| then StreamEnded
    else if n + 1 > MAXIMUM_HEADER then HeaderTooLong
    else if EndsHeader(s[..n + 1]) then HeaderOf(n + 1)
    else ScanHeader(s, n + 1)
  }

  datatype Unframed = Unframed(bodies: seq<seq<Byte>>, r: Result<(), FrameError>)

  // The bodies a stream carries, and how reading it ends.
  function Unframe(s: seq<Byte>): Unframed
    decreases |s|
  {
    match ScanHeader(s, 0)
    case StreamEnded => Unframed([], Ok(()))
    case HeaderTooLong => Unframed([], Err(InvalidFrame))
    case HeaderOf(n) =>
      match FirstLength(SplitLines([], s[..n]))
      case Err(e) => Unframed([], Err(e))
      case Ok(length) =>
        if length > MAXIMUM_MESSAGE_BYTES then Unframed([], Err(InvalidFrame))
        else if n + length > |s| then Unframed([], Err(EndOfStream))
        else
          var rest := Unframe(s[n + length..]);
          rest.(bodies := [s[n..n + length]] + rest.bodies)
  }

  // The inner loop: bytes are read until they end a header.
  method ReadHeader(output: seq<Byte>, start: nat) returns (scan: Scan)
    requires start <= |output|
    ensures scan == ScanHeader(output[start..], 0)
  {
    ghost var stream := output[start..];
    var position := start;
    var header: seq<Byte> := [];
    while true
      invariant start <= position <= |output| && header == stream[..position - start]
      invariant ScanHeader(stream, 0) == ScanHeader(stream, position - start)
      decreases |output| - position
    {
      if position == |output| {
        return StreamEnded;
      }
      header := header + [output[position]];
      position := position + 1;
      assert header == stream[..position - start];
      if |header| > MAXIMUM_HEADER {
        return HeaderTooLong;
      }
      if EndsHeader(header) {
        return HeaderOf(|header|);
      }
    }
  }

  lemma OneFrame(s: seq<Byte>, n: nat, length: nat)
    requires ScanHeader(s, 0) == HeaderOf(n) && FirstLength(SplitLines([], s[..n])) == Ok(length)
    requires length <= MAXIMUM_MESSAGE_BYTES && n + length <= |s|
    ensures var rest := Unframe(s[n + length..]);
            Unframe(s) == rest.(bodies := [s[n..n + length]] + rest.bodies)
  {
    hide ScanHeader, FirstLength, SplitLines;
  }

  lemma NoFrame(s: seq<Byte>)
    ensures ScanHeader(s, 0).StreamEnded? ==> Unframe(s) == Unframed([], Ok(()))
    ensures ScanHeader(s, 0).HeaderTooLong? ==> Unframe(s) == Unframed([], Err(InvalidFrame))
    ensures ScanHeader(s, 0).HeaderOf? ==>
              match FirstLength(SplitLines([], s[..ScanHeader(s, 0).length]))
              case Err(e) => Unframe(s) == Unframed([], Err(e))
              case Ok(length) =>
                && (length > MAXIMUM_MESSAGE_BYTES ==> Unframe(s) == Unframed([], Err(InvalidFrame)))
                && (length <= MAXIMUM_MESSAGE_BYTES && ScanHeader(s, 0).length + length > |s| ==>
                      Unframe(s) == Unframed([], Err(EndOfStream)))
  {
    hide ScanHeader, FirstLength, SplitLines;
  }

  method CopyProcessToWebSocket(output: seq<Byte>) returns (r: Result<(), FrameError>, sent: seq<seq<Byte>>)
    ensures Unframed(sent, r) == Unframe(output)
  {
    hide FirstLength, SplitLines, ScanHeader, Unframe;
    sent := [];
    var position := 0;
    while true
      invariant position <= |output|
      invariant Unframe(output) == Unframe(output[position..]).(bodies := sent + Unframe(output[position..]).bodies)
      decreases |output| - position
    {
      ghost var stream := output[position..];
      var scan := ReadHeader(output, position);
      NoFrame(stream);
      if scan.StreamEnded? {
        return Ok(()), sent;
      }
      if scan.HeaderTooLong? {
        return Err(InvalidFrame), sent;
      }
      var header := output[position..position + scan.length];
      assert header == stream[..scan.length];
      position := position + scan.length;
      var length := ParseContentLength(header);
      if length.Err? {
        return Err(length.error), sent;
      }
      if length.value > MAXIMUM_MESSAGE_BYTES {
        return Err(InvalidFrame), sent;
      }
      if position + length.value > |output| {
        return Err(EndOfStream), sent;
      }
      var body := output[position..position + length.value];
      assert body == stream[scan.length..scan.length + length.value];
      OneFrame(stream, scan.length, length.value);
      sent := sent + [body];
      position := position + length.value;
      assert output[position..] == stream[scan.length + length.value..];
    }
  }

  // ----- A header is read back to its end -----

  // A line of a header: not empty, and without line breaks.
  predicate IsLine(line: seq<Byte>) { line != [] && CR !in line && LF !in line }

  predicate AreLines(lines: seq<seq<Byte>>) { forall i | 0 <= i < |lines| :: IsLine(lines[i]) }

  lemma EndsHeaderAt(s: seq<Byte>, n: nat)
    requires n <= |s|
    ensures EndsHeader(s[..n]) <==> n >= 4 && s[n - 4] == CR && s[n - 3] == LF && s[n - 2] == CR && s[n - 1] == LF
  {
    if n >= 4 {
      assert s[..n][n - 4..] == [s[n - 4], s[n - 3], s[n - 2], s[n - 1]];
    }
  }

  // Neither a line nor the first byte after it ends a header, nor do two more bytes of another line.
  lemma NoEndNear(line: seq<Byte>, rest: seq<Byte>, n: nat)
    requires IsLine(line) && rest != [] && rest[0] != LF && n <= |line| + 2 + |rest|
    requires n <= |line| + 3 || (rest[0] != CR && n <= |line| + 5)
    ensures !EndsHeader((line + CRLF + rest)[..n])
  {
    var h := line + CRLF + rest;
    EndsHeaderAt(h, n);
    assert forall i | 0 <= i < |line| :: h[i] == line[i] && h[i] in line;
    assert h[|line| + 2] == rest[0];
  }

  // No proper prefix of a header ends it.
  lemma {:induction false} HeaderEndsOnce(lines: seq<seq<Byte>>, n: nat)
    requires AreLines(lines) && lines != [] && n < |Header(lines)|
    ensures !EndsHeader(Header(lines)[..n])
  {
    hide EndsHeader;
    var line, rest := lines[0], Header(lines[1..]);
    var h, b := line + CRLF + rest, |line| + 2;
    assert h == Header(lines);
    if lines[1..] == [] {
      assert rest == CRLF;
      NoEndNear(line, rest, n);
    } else {
      assert IsLine(lines[1]) && rest[0] == lines[1][0] && rest[0] in lines[1];
      if n <= |line| + 5 {
        NoEndNear(line, rest, n);
      } else {
        HeaderEndsOnce(lines[1..], n - b);
        EndsHeaderAt(rest, n - b);
        EndsHeaderAt(h, n);
      }
    }
  }

  lemma {:induction false} HeaderEnds(lines: seq<seq<Byte>>)
    requires lines != []
    ensures EndsHeader(Header(lines))
    decreases |lines|
  {
    hide EndsHeader;
    var line, rest := lines[0], Header(lines[1..]);
    var h := line + CRLF + rest;
    assert h == Header(lines);
    assert h[..|h|] == h && rest[..|rest|] == rest;
    EndsHeaderAt(h, |h|);
    if lines[1..] == [] {
      assert rest == CRLF;
    } else {
      HeaderEnds(lines[1..]);
      EndsHeaderAt(rest, |rest|);
    }
  }

  lemma {:induction false} ScanFrom(lines: seq<seq<Byte>>, more: seq<Byte>, n: nat)
    requires AreLines(lines) && lines != [] && |Header(lines)| <= MAXIMUM_HEADER && n < |Header(lines)|
    ensures ScanHeader(Header(lines) + more, n) == HeaderOf(|Header(lines)|)
    decreases |Header(lines)| - n
  {
    hide Header;
    var h := Header(lines);
    var s := h + more;
    assert s[..n + 1] == h[..n + 1];
    if n + 1 < |h| {
      HeaderEndsOnce(lines, n + 1);
      ScanFrom(lines, more, n + 1);
    } else {
      HeaderEnds(lines);
      assert h[..n + 1] == h;
    }
  }

  // Splitting gives the lines back.
  lemma {:induction false} SplitLine(line: seq<Byte>, rest: seq<Byte>, more: seq<Byte>)
    requires IsLine(line + rest)
    ensures SplitLines(line, rest + CRLF + more) == [line + rest] + SplitLines([], more)
    decreases |rest|
  {
    var s := rest + CRLF + more;
    if rest == [] {
      assert s == CRLF + more;
      assert s[2..] == more && line + rest == line;
    } else {
      assert rest[0] in line + rest;
      assert !(CRLF <= s) by {
        assert s[0] == rest[0] && CRLF[0] == CR;
      }
      assert s[1..] == rest[1..] + CRLF + more;
      assert line + [rest[0]] + rest[1..] == line + rest;
      SplitLine(line + [rest[0]], rest[1..], more);
    }
  }

  lemma {:induction false} SplitHeader(lines: seq<seq<Byte>>)
    requires AreLines(lines)
    ensures SplitLines([], Header(lines)) == lines
  {
    if lines == [] {
      assert Header(lines) == CRLF;
      assert SplitLines([], CRLF) == NonEmpty([]) + SplitLines([], CRLF[2..]);
    } else {
      assert Header(lines) == lines[0] + CRLF + Header(lines[1..]);
      assert [] + lines[0] == lines[0];
      SplitLine([], lines[0], Header(lines[1..]));
      SplitHeader(lines[1..]);
    }
  }

  // ----- The length is read back -----

  lemma {:induction false} NumberOfDecimal(n: nat, more: seq<Byte>)
    ensures Number(0, DecimalBytes(n) + more) == Number(n, more)
    decreases n
  {
    if n < 10 {
      assert (DecimalBytes(n) + more)[1..] == more;
    } else {
      var last := [ZERO + n % 10];
      assert DecimalBytes(n) + more == DecimalBytes(n / 10) + (last + more);
      NumberOfDecimal(n / 10, last + more);
      assert (last + more)[1..] == more;
    }
  }

  lemma {:induction false} FirstIndex(a: seq<Byte>, b: Byte, rest: seq<Byte>)
    requires b !in a
    ensures IndexOfByte(a + [b] + rest, b) == |a|
  {
    if a != [] {
      assert (a + [b] + rest)[1..] == a[1..] + [b] + rest;
      FirstIndex(a[1..], b, rest);
    }
  }

  lemma SeparatorOfLine(n: nat)
    ensures IndexOfByte(LengthLine(n), COLON_BYTE) == 14
    ensures LengthLine(n)[..14] == CONTENT_LENGTH && LengthLine(n)[15..] == [32] + DecimalBytes(n)
  {
    hide DecimalBytes, IndexOfByte;
    assert LengthLine(n) == CONTENT_LENGTH + [COLON_BYTE] + ([32] + DecimalBytes(n));
    FirstIndex(CONTENT_LENGTH, COLON_BYTE, [32] + DecimalBytes(n));
  }

  lemma TrimSpace(digits: seq<Byte>)
    requires digits != [] && forall d | d in digits :: IsDigit(d)
    ensures Trim([32] + digits) == digits
  {
    assert ([32] + digits)[1..] == digits;
    assert digits[0] in digits && digits[|digits| - 1] in digits;
    assert Trim(digits) == digits;
  }

  lemma LengthLineIsLine(n: nat)
    ensures IsLine(LengthLine(n))
  {
    hide DecimalBytes;
    assert forall b | b in LengthLine(n) :: b in CONTENT_LENGTH || b == COLON_BYTE || b == 32 || b in DecimalBytes(n);
  }

  lemma LengthOfLine(n: nat)
    requires n <= MAXIMUM_INT32
    ensures LengthOf(LengthLine(n)) == Some(n) && IsLine(LengthLine(n))
  {
    hide LengthLine, DecimalBytes, Trim, IsLine, IndexOfByte;
    SeparatorOfLine(n);
    LengthLineIsLine(n);
    var digits := DecimalBytes(n);
    TrimSpace(digits);
    NumberOfDecimal(n, []);
    assert digits + [] == digits;
    assert digits[0] in digits;
  }

  // Header fields that say nothing about the length may stand before it, any lines after it.
  lemma {:induction false} FirstLengthAmong(before: seq<seq<Byte>>, n: nat, after: seq<seq<Byte>>)
    requires n <= MAXIMUM_INT32 && forall i | 0 <= i < |before| :: LengthOf(before[i]).None?
    ensures FirstLength(before + [LengthLine(n)] + after) == Ok(n)
  {
    hide LengthOf, LengthLine;
    var lines := before + [LengthLine(n)] + after;
    LengthOfLine(n);
    if before != [] {
      assert lines[1..] == before[1..] + [LengthLine(n)] + after;
      FirstLengthAmong(before[1..], n, after);
    }
  }

  // ----- Round trips -----

  // A frame whose header has further fields is read as its body, whatever follows.
  lemma FrameIsRead(before: seq<seq<Byte>>, after: seq<seq<Byte>>, body: seq<Byte>, more: seq<Byte>)
    requires AreLines(before) && AreLines(after) && |body| <= MAXIMUM_MESSAGE_BYTES
    requires forall i | 0 <= i < |before| :: LengthOf(before[i]).None?
    requires |Header(before + [LengthLine(|body|)] + after)| <= MAXIMUM_HEADER
    ensures var rest := Unframe(more);
            Unframe(Header(before + [LengthLine(|body|)] + after) + body + more) ==
              rest.(bodies := [body] + rest.bodies)
  {
    hide LengthOf, LengthLine, Header, FirstLength, SplitLines, ScanHeader, IsLine;
    var lines := before + [LengthLine(|body|)] + after;
    var h := Header(lines);
    var s := h + body + more;
    LengthOfLine(|body|);
    assert s == h + (body + more);
    HeaderNotEmpty(lines);
    ScanFrom(lines, body + more, 0);
    SplitHeader(lines);
    FirstLengthAmong(before, |body|, after);
    assert s[..|h|] == h;
    assert s[|h|..|h| + |body|] == body && s[|h| + |body|..] == more;
  }

  lemma HeaderNotEmpty(lines: seq<seq<Byte>>)
    ensures |Header(lines)| >= 2
  {
  }

  lemma {:induction false} DecimalLength(n: nat, width: nat)
    requires n < Power(width) && width > 0
    ensures |Decimal(n)| <= width
    decreases width
  {
    if n >= 10 {
      var less := Power(width - 1);
      assert Power(width) == 10 * less;
      assert n / 10 < less;
      DecimalLength(n / 10, width - 1);
    }
  }

  function Power(width: nat): nat { if width == 0 then 1 else 10 * Power(width - 1) }

  lemma OneLineHeader(n: nat)
    requires n <= MAXIMUM_MESSAGE_BYTES
    ensures |Header([LengthLine(n)])| <= MAXIMUM_HEADER
  {
    assert Power(7) == 10_000_000;
    DecimalLength(n, 7);
    assert Lines([LengthLine(n)]) == LengthLine(n) + CRLF;
  }

  // Reading back what was written gives exactly the bodies that were written.
  lemma {:induction false} FramesAreRead(bodies: seq<seq<Byte>>)
    requires forall i | 0 <= i < |bodies| :: |bodies[i]| <= MAXIMUM_MESSAGE_BYTES
    ensures Unframe(Frames(bodies)) == Unframed(bodies, Ok(()))
  {
    hide Header, LengthLine;
    if bodies != [] {
      var body, more := bodies[0], Frames(bodies[1..]);
      FramesAreRead(bodies[1..]);
      OneLineHeader(|body|);
      assert [] + [LengthLine(|body|)] + [] == [LengthLine(|body|)];
      FrameIsRead([], [], body, more);
      assert Frames(bodies) == Header([LengthLine(|body|)]) + body + more;
    }
  }

  lemma {:induction false} RelayedFit(events: seq<Received>, message: seq<Byte>)
    ensures forall i | 0 <= i < |Relay(events, message).messages| ::
              |Relay(events, message).messages[i]| <= MAXIMUM_MESSAGE_BYTES
    decreases |events|
  {
    if events != [] {
      RelayedFit(events[1..], message + events[0].payload);
      RelayedFit(events[1..], []);
    }
  }

  // Whatever a socket delivers, the process at the other end of the stream can read exactly the
  // messages that were finished, and nothing else.
  lemma RelayRoundTrip(events: seq<Received>)
    ensures Unframe(Frames(Relay(events, []).messages)) == Unframed(Relay(events, []).messages, Ok(()))
  {
    hide Relay, Frames, Unframe;
    RelayedFit(events, []);
    FramesAreRead(Relay(events, []).messages);
  }

  // ----- Fragments -----

  // A message in one or more fragments, of which only the last is marked as its end.
  ghost predicate Fragments(events: seq<Received>, body: seq<Byte>) {
    && events != []
    && (forall i | 0 <= i < |events| ::
          events[i].messageType.TextMessage? && (events[i].endOfMessage <==> i == |events| - 1))
    && Payload(events) == body
  }

  function Payload(events: seq<Received>): seq<Byte> {
    if events == [] then [] else events[0].payload + Payload(events[1..])
  }

  function Concat(fragmented: seq<seq<Received>>): seq<Received> {
    if fragmented == [] then [] else fragmented[0] + Concat(fragmented[1..])
  }

  lemma {:induction false} OneMessage(events: seq<Received>, message: seq<Byte>, body: seq<Byte>, more: seq<Received>)
    requires Fragments(events, body) && |message + body| <= MAXIMUM_MESSAGE_BYTES
    ensures var rest := Relay(more, []);
            Relay(events + more, message) == rest.(messages := [message + body] + rest.messages)
    decreases |events|
  {
    var first := events[0];
    assert (events + more)[0] == first && (events + more)[1..] == events[1..] + more;
    if |events| == 1 {
      assert Payload(events[1..]) == [];
      assert body == first.payload;
    } else {
      assert !first.endOfMessage;
      assert message + body == message + first.payload + Payload(events[1..]);
      OneMessage(events[1..], message + first.payload, Payload(events[1..]), more);
    }
  }

  // However each message is cut into fragments (section 5.4 of RFC 6455), the reader gets back the
  // messages themselves.
  lemma {:induction false} FragmentationIsInvisible(fragmented: seq<seq<Received>>, bodies: seq<seq<Byte>>)
    requires |fragmented| == |bodies|
    requires forall i | 0 <= i < |bodies| :: Fragments(fragmented[i], bodies[i]) && |bodies[i]| <= MAXIMUM_MESSAGE_BYTES
    ensures Relay(Concat(fragmented), []) == Relayed(bodies, false)
    ensures Unframe(Frames(Relay(Concat(fragmented), []).messages)) == Unframed(bodies, Ok(()))
  {
    hide Fragments, Frames, Unframe;
    if bodies != [] {
      FragmentationIsInvisible(fragmented[1..], bodies[1..]);
      assert [] + bodies[0] == bodies[0];
      OneMessage(fragmented[0], [], bodies[0], Concat(fragmented[1..]));
      assert bodies == [bodies[0]] + bodies[1..];
    }
    FramesAreRead(bodies);
  }
}
