// What the two copy loops do at their ends, and how a header line is read, without reference to the
// functions that specify them.
module FramingLaws {
  import opened Wrappers
  import opened Text
  import opened Framing

  // ----- What ends a relay -----

  lemma {:induction false} RelayPrefix(fragmented: seq<seq<Received>>, bodies: seq<seq<Byte>>, more: seq<Received>)
    requires |fragmented| == |bodies|
    requires forall i | 0 <= i < |bodies| :: Fragments(fragmented[i], bodies[i]) && |bodies[i]| <= 4_194_304
    ensures var rest := Relay(more, []);
            Relay(Concat(fragmented) + more, []) == rest.(messages := bodies + rest.messages)
  {
    hide Fragments;
    if bodies == [] {
      assert Concat(fragmented) + more == more;
    } else {
      RelayPrefix(fragmented[1..], bodies[1..], more);
      assert [] + bodies[0] == bodies[0] && bodies == [bodies[0]] + bodies[1..];
      OneMessage(fragmented[0], [], bodies[0], Concat(fragmented[1..]) + more);
      assert Concat(fragmented) + more == fragmented[0] + (Concat(fragmented[1..]) + more);
    }
  }

  // The first fragments of a message that has not ended.
  ghost predicate Unfinished(events: seq<Received>) {
    && (forall i | 0 <= i < |events| :: events[i].messageType.TextMessage? && !events[i].endOfMessage)
    && |Payload(events)| <= 4_194_304
  }

  lemma {:induction false} RelayUnfinished(part: seq<Received>, message: seq<Byte>, more: seq<Received>)
    requires forall i | 0 <= i < |part| :: part[i].messageType.TextMessage? && !part[i].endOfMessage
    requires |message| + |Payload(part)| <= 4_194_304
    ensures Relay(part + more, message) == Relay(more, message + Payload(part))
    decreases |part|
  {
    if part == [] {
      assert part + more == more && message + [] == message;
    } else {
      assert (part + more)[0] == part[0] && (part + more)[1..] == part[1..] + more;
      RelayUnfinished(part[1..], message + part[0].payload, more);
      assert message + part[0].payload + Payload(part[1..]) == message + Payload(part);
    }
  }

  // Finished messages and the first fragments of another one: if the events end there, or with a close,
  // whatever follows, exactly the finished messages are relayed; so they are before a binary event or one
  // that makes the message too long, which both fail.
  lemma RelayEnds(fragmented: seq<seq<Received>>, bodies: seq<seq<Byte>>, part: seq<Received>, event: Received,
                  more: seq<Received>)
    requires |fragmented| == |bodies| && Unfinished(part)
    requires forall i | 0 <= i < |bodies| :: Fragments(fragmented[i], bodies[i]) && |bodies[i]| <= 4_194_304
    ensures Relay(Concat(fragmented) + part, []) == Relayed(bodies, false)
    ensures event.messageType.CloseMessage? ==>
              Relay(Concat(fragmented) + (part + ([event] + more)), []) == Relayed(bodies, false)
    ensures event.messageType.BinaryMessage? ==>
              Relay(Concat(fragmented) + (part + ([event] + more)), []) == Relayed(bodies, true)
    ensures event.messageType.TextMessage? && |Payload(part)| + |event.payload| > 4_194_304 ==>
              Relay(Concat(fragmented) + (part + ([event] + more)), []) == Relayed(bodies, true)
  {
    hide Fragments;
    RelayPrefix(fragmented, bodies, part);
    RelayPrefix(fragmented, bodies, part + ([event] + more));
    RelayUnfinished(part, [], []);
    RelayUnfinished(part, [], [event] + more);
    assert part + [] == part && [] + Payload(part) == Payload(part) && bodies + [] == bodies;
    assert ([event] + more)[0] == event;
  }

  // ----- What ends the reading -----

  // Frames that have been read do not bear on what follows them.
  lemma {:induction false} FramesThen(bodies: seq<seq<Byte>>, tail: seq<Byte>)
    requires forall i | 0 <= i < |bodies| :: |bodies[i]| <= 4_194_304
    ensures var rest := Unframe(tail);
            Unframe(Frames(bodies) + tail) == rest.(bodies := bodies + rest.bodies)
  {
    hide Header, LengthLine, Unframe;
    if bodies == [] {
      assert Frames(bodies) + tail == tail;
    } else {
      var body, more := bodies[0], Frames(bodies[1..]) + tail;
      FramesThen(bodies[1..], tail);
      OneLineHeader(|body|);
      assert [] + [LengthLine(|body|)] + [] == [LengthLine(|body|)];
      FrameIsRead([], [], body, more);
      assert Frames(bodies) + tail == Header([LengthLine(|body|)]) + body + more;
      assert bodies == [body] + bodies[1..];
    }
  }

  // A stream that ends inside a header ends the reading in silence.
  lemma CutInHeader(lines: seq<seq<Byte>>, n: nat)
    requires AreLines(lines) && lines != [] && n < |Header(lines)| <= 1024
    ensures Unframe(Header(lines)[..n]) == Unframed([], Ok(()))
  {
    hide Header;
    NoHeaderScan(lines, n, 0);
  }

  lemma {:induction false} NoHeaderScan(lines: seq<seq<Byte>>, n: nat, k: nat)
    requires AreLines(lines) && lines != [] && k <= n < |Header(lines)| <= 1024
    ensures ScanHeader(Header(lines)[..n], k) == StreamEnded
    decreases n - k
  {
    hide Header;
    if k < n {
      assert Header(lines)[..n][..k + 1] == Header(lines)[..k + 1];
      HeaderEndsOnce(lines, k + 1);
      NoHeaderScan(lines, n, k + 1);
    }
  }

  // 1024 bytes without a line feed and one more are no header.
  lemma HeaderTooLongFails(s: seq<Byte>)
    requires |s| > 1024 && forall i | 0 <= i < 1024 :: s[i] != 10
    ensures Unframe(s) == Unframed([], Err(InvalidFrame))
  {
    LongScan(s, 0);
  }

  lemma {:induction false} LongScan(s: seq<Byte>, k: nat)
    requires |s| > 1024 && k <= 1024 && forall i | 0 <= i < 1024 :: s[i] != 10
    ensures ScanHeader(s, k) == HeaderTooLong
    decreases 1024 - k
  {
    if k < 1024 {
      EndsHeaderAt(s, k + 1);
      LongScan(s, k + 1);
    }
  }

  // A whole header decides by its first readable length: none is an error, one above the limit is an
  // error, and a body that is cut short is an error.
  lemma HeaderFails(lines: seq<seq<Byte>>, more: seq<Byte>)
    requires AreLines(lines) && lines != [] && |Header(lines)| <= 1024
    ensures (forall i | 0 <= i < |lines| :: LengthOf(lines[i]).None?) ==>
              Unframe(Header(lines) + more) == Unframed([], Err(NoContentLength))
    ensures (exists i :: IsFirstLength(lines, i) && LengthOf(lines[i]).value > 4_194_304) ==>
              Unframe(Header(lines) + more) == Unframed([], Err(InvalidFrame))
    ensures (exists i :: IsFirstLength(lines, i) && |more| < LengthOf(lines[i]).value <= 4_194_304) ==>
              Unframe(Header(lines) + more) == Unframed([], Err(EndOfStream))
  {
    hide Header, LengthOf, SplitLines, ScanHeader, IsLine, FirstLength;
    var h := Header(lines);
    HeaderNotEmpty(lines);
    ScanFrom(lines, more, 0);
    SplitHeader(lines);
    FirstLengthIs(lines);
    assert (h + more)[..|h|] == h;
  }

  ghost predicate IsFirstLength(lines: seq<seq<Byte>>, i: int) {
    0 <= i < |lines| && LengthOf(lines[i]).Some? && forall k | 0 <= k < i :: LengthOf(lines[k]).None?
  }

  lemma {:induction false} FirstLengthIs(lines: seq<seq<Byte>>)
    ensures (forall i | 0 <= i < |lines| :: LengthOf(lines[i]).None?) ==> FirstLength(lines) == Err(NoContentLength)
    ensures forall i | IsFirstLength(lines, i) :: FirstLength(lines) == Ok(LengthOf(lines[i]).value)
  {
    hide LengthOf;
    if lines != [] {
      FirstLengthIs(lines[1..]);
      forall i | IsFirstLength(lines, i)
        ensures FirstLength(lines) == Ok(LengthOf(lines[i]).value)
      {
        if i > 0 {
          assert IsFirstLength(lines[1..], i - 1);
        }
      }
    }
  }

  // ----- What a header line says -----

  // The name of the field, letter by letter in either case.
  ghost predicate SpellsContentLength(name: seq<Byte>) {
    |name| == 14
    && forall i | 0 <= i < 14 ::
         var c := "Content-Length"[i] as int;
         name[i] == c || (65 <= c <= 90 && name[i] == c + 32) || (97 <= c <= 122 && name[i] == c - 32)
  }

  lemma NamesContentLength(name: seq<Byte>)
    ensures EqualsIgnoreCase(name, CONTENT_LENGTH) <==> SpellsContentLength(name)
  {
    var s := "Content-Length";
    assert forall i | 0 <= i < 14 :: CONTENT_LENGTH[i] == s[i] as int;
    if |name| == 14 {
      forall i | 0 <= i < 14
        ensures Fold(name[i]) == Fold(CONTENT_LENGTH[i]) <==>
                  var c := s[i] as int;
                  name[i] == c || (65 <= c <= 90 && name[i] == c + 32) || (97 <= c <= 122 && name[i] == c - 32)
      {
        FoldMeans(name[i], CONTENT_LENGTH[i]);
      }
    }
  }

  lemma FoldMeans(a: Byte, c: Byte)
    requires 65 <= c <= 90 || 97 <= c <= 122 || c == 45
    ensures Fold(a) == Fold(c) <==> a == c || (65 <= c <= 90 && a == c + 32) || (97 <= c <= 122 && a == c - 32)
  {
  }

  // A line carries a length exactly if what stands before its first colon spells the name, in any case,
  // and what stands behind it, trimmed, reads as a number.
  lemma LengthOfMeans(name: seq<Byte>, value: seq<Byte>)
    requires 58 !in name
    ensures LengthOf(name + [58] + value) == if SpellsContentLength(name) then TryParseInt(Trim(value)) else None
    ensures LengthOf(name) == None
  {
    FirstIndex(name, 58, value);
    NamesContentLength(name);
    var line := name + [58] + value;
    assert line[..|name|] == name && line[|name| + 1..] == value;
  }

  ghost predicate IsWhite(b: Byte) { b in {9, 10, 11, 12, 13, 32, 133, 160} }

  // White space is taken from both ends and from nowhere else.
  lemma {:induction false} TrimMeans(a: seq<Byte>, core: seq<Byte>, b: seq<Byte>)
    requires (forall x | x in a :: IsWhite(x)) && (forall x | x in b :: IsWhite(x))
    requires core != [] ==> !IsWhite(core[0]) && !IsWhite(core[|core| - 1])
    ensures Trim(a + core + b) == core
    decreases |a| + |b|
  {
    var s := a + core + b;
    if a != [] {
      assert s[0] == a[0] && a[0] in a && s[1..] == a[1..] + core + b;
      TrimMeans(a[1..], core, b);
    } else if b != [] {
      var n := |b| - 1;
      assert s[|s| - 1] == b[n] && b[n] in b && s[..|s| - 1] == a + core + b[..n];
      TrimMeans(a, core, b[..n]);
      if core == [] {
        assert s[0] == b[0] && b[0] in b && s[1..] == [] + core + b[1..];
        TrimMeans([], core, b[1..]);
      }
    } else {
      assert s == core;
    }
  }

  ghost predicate AreDigits(digits: seq<Byte>) { forall i | 0 <= i < |digits| :: 48 <= digits[i] <= 57 }

  lemma {:induction false} ValueIsNat(digits: seq<Byte>)
    requires AreDigits(digits)
    ensures DigitsValue(digits) >= 0
  {
    if digits != [] {
      ValueIsNat(digits[..|digits| - 1]);
    }
  }

  ghost function ValueOf(digits: seq<Byte>): (value: nat)
    requires AreDigits(digits)
    ensures value == DigitsValue(digits)
  {
    ValueIsNat(digits);
    DigitsValue(digits)
  }

  lemma OneDigit(front: seq<Byte>, digit: Byte, rest: seq<Byte>)
    requires AreDigits(front) && 48 <= digit <= 57
    ensures AreDigits(front + [digit])
    ensures Number(ValueOf(front), [digit] + rest) == Number(ValueOf(front + [digit]), rest)
  {
    assert (front + [digit])[..|front|] == front;
    assert ([digit] + rest)[1..] == rest;
  }

  lemma {:induction false} DigitsAreRead(front: seq<Byte>, digits: seq<Byte>, rest: seq<Byte>)
    requires AreDigits(front) && AreDigits(digits)
    ensures Number(ValueOf(front), digits + rest) == Number(ValueOf(front + digits), rest)
    decreases |digits|
  {
    hide Number, ValueOf;
    if digits == [] {
      assert digits + rest == rest && front + digits == front;
    } else {
      OneDigit(front, digits[0], digits[1..] + rest);
      DigitsAreRead(front + [digits[0]], digits[1..], rest);
      assert digits + rest == [digits[0]] + (digits[1..] + rest);
      assert front + [digits[0]] + digits[1..] == front + digits;
    }
  }

  // Decimal digits, which NUL characters may follow, read as their value if that fits 32 bits; nothing
  // else reads as a number.
  lemma TryParseMeans(digits: seq<Byte>, rest: seq<Byte>)
    requires AreDigits(digits) && (rest != [] ==> !(48 <= rest[0] <= 57))
    ensures DigitsValue(digits) >= 0
    ensures TryParseInt(digits + rest) ==
              if digits != [] && (forall x | x in rest :: x == 0) && DigitsValue(digits) <= 2_147_483_647
              then Some(DigitsValue(digits)) else None
  {
    ValueIsNat(digits);
    if digits != [] {
      assert ([] + digits == digits) && (digits + rest)[0] == digits[0];
      DigitsAreRead([], digits, rest);
      assert forall i | 0 <= i < |rest| :: rest[i] in rest;
    } else {
      assert digits + rest == rest;
    }
  }

  // The frame of a body, spelled out.
  lemma FrameMeans(body: seq<Byte>)
    ensures |Frame(body)| > 16 && forall i | 0 <= i < 16 :: Frame(body)[i] == "Content-Length: "[i] as int
    ensures Frame(body)[16..] == DecimalBytes(|body|) + [13, 10, 13, 10] + body
    ensures DigitsValue(DecimalBytes(|body|)) == |body|
  {
    var digits := DecimalBytes(|body|);
    assert Lines([LengthLine(|body|)]) == LengthLine(|body|) + CRLF;
    var head := CONTENT_LENGTH + [COLON_BYTE, 32];
    assert Frame(body) == head + (digits + [13, 10, 13, 10] + body);
    assert forall i | 0 <= i < 16 :: head[i] == "Content-Length: "[i] as int;
    DecimalMeans(|body|);
  }
}
