// Framing: newline framing over Base64, from decode_message and handle_read in
// core/src/TCP/TCPConnection.cpp.
//
// The reference receiver (`Receive`) consumes one byte at a time.  `DecodeMessage` cuts a whole
// buffer at its delimiters, and is proved to agree with it.
module Framing {
  import opened Base64
  import Base64Codec

  const NEWLINE: Byte := 0x0A

  // What a line contributes: empty lines are skipped, and so are lines that fail to decode.
  function DecodeLine(line: Bytes): seq<Bytes> {
    if line == [] || |line| % 4 != 0 then [] else [Decode(line)]
  }

  // ---------------------------------------------------------------------------------------
  // The reference receiver
  // ---------------------------------------------------------------------------------------

  // The messages raised, and the part of a line that is still incomplete.
  datatype Received = Received(messages: seq<Bytes>, part: Bytes)

  function Receive(part: Bytes, s: Bytes): Received
    decreases |s|
  {
    if s == [] then Received([], part)
    else if s[0] == NEWLINE then
      var rest := Receive([], s[1..]);
      Received(DecodeLine(part) + rest.messages, rest.part)
    else Receive(part + [s[0]], s[1..])
  }

  lemma {:induction false} ReceiveAppend(part: Bytes, a: Bytes, b: Bytes)
    ensures var first := Receive(part, a);
            var second := Receive(first.part, b);
            Receive(part, a + b) == Received(first.messages + second.messages, second.part)
    decreases |a|
  {
    hide DecodeLine;
    if a == [] {
      assert a + b == b;
    } else {
      assert (a + b)[1..] == a[1..] + b;
      if a[0] == NEWLINE {
        ReceiveAppend([], a[1..], b);
      } else {
        ReceiveAppend(part + [a[0]], a[1..], b);
      }
    }
  }

  lemma {:induction false} ReceiveWithoutNewline(part: Bytes, s: Bytes)
    requires NEWLINE !in s
    ensures Receive(part, s) == Received([], part + s)
    decreases |s|
  {
    hide DecodeLine;
    if s == [] {
      assert part + s == part;
    } else {
      ReceiveWithoutNewline(part + [s[0]], s[1..]);
      assert part + [s[0]] + s[1..] == part + s;
    }
  }

  lemma {:induction false} ReceivePart(part: Bytes, s: Bytes)
    requires NEWLINE !in part
    ensures Receive([], part) == Received([], part)
    ensures Receive([], part + s) == Receive(part, s)
    decreases |part|
  {
    hide DecodeLine;
    ReceiveWithoutNewline([], part);
    ReceiveAppend([], part, s);
    assert [] + part == part;
  }

  // The incomplete part never holds a delimiter, and no empty message is ever raised.
  lemma {:induction false} ReceivedShape(part: Bytes, s: Bytes)
    requires NEWLINE !in part
    ensures NEWLINE !in Receive(part, s).part
    ensures forall m | m in Receive(part, s).messages :: m != []
    decreases |s|
  {
    hide Decode;
    if s != [] {
      if s[0] == NEWLINE {
        ReceivedShape([], s[1..]);
      } else {
        ReceivedShape(part + [s[0]], s[1..]);
      }
    }
  }

  // ---------------------------------------------------------------------------------------
  // Lines
  // ---------------------------------------------------------------------------------------

  // The lines of a text; there is always one more line than there are delimiters.
  function Lines(s: Bytes): (r: seq<Bytes>)
    ensures |r| >= 1
  {
    if s == [] then [[]]
    else
      var rest := Lines(s[1..]);
      if s[0] == NEWLINE then [[]] + rest else [[s[0]] + rest[0]] + rest[1..]
  }

  function Join(lines: seq<Bytes>): Bytes
    requires |lines| >= 1
  {
    if |lines| == 1 then lines[0] else lines[0] + [NEWLINE] + Join(lines[1..])
  }

  // Lines hold no delimiter ...
  lemma {:induction false} LinesApart(s: Bytes)
    ensures forall i | 0 <= i < |Lines(s)| :: NEWLINE !in Lines(s)[i]
  {
    if s != [] {
      LinesApart(s[1..]);
      var rest := Lines(s[1..]);
      forall i | 0 <= i < |Lines(s)|
        ensures NEWLINE !in Lines(s)[i]
      {
        if s[0] == NEWLINE {
          assert i == 0 || Lines(s)[i] == rest[i - 1];
        } else {
          assert i == 0 || Lines(s)[i] == rest[i];
          assert NEWLINE !in rest[0];
        }
      }
    }
  }

  lemma JoinCons(line: Bytes, rest: seq<Bytes>)
    requires |rest| >= 1
    ensures Join([line] + rest) == line + [NEWLINE] + Join(rest)
  {
    assert ([line] + rest)[1..] == rest;
  }

  lemma JoinGrow(c: Byte, lines: seq<Bytes>)
    requires |lines| >= 1
    ensures Join([[c] + lines[0]] + lines[1..]) == [c] + Join(lines)
  {
    if |lines| > 1 {
      var rest := Join(lines[1..]);
      JoinCons([c] + lines[0], lines[1..]);
      Associative([c], lines[0], [NEWLINE]);
      Associative([c], lines[0] + [NEWLINE], rest);
    } else {
      assert [[c] + lines[0]] + lines[1..] == [[c] + lines[0]];
    }
  }

  lemma JoinSingle(line: Bytes)
    ensures Join([line]) == line
  {
  }

  // ... and joined by delimiters they give the text back.
  lemma {:induction false} LinesJoin(s: Bytes)
    ensures Join(Lines(s)) == s
  {
    hide Join;
    if s == [] {
      JoinSingle([]);
    } else {
      LinesJoin(s[1..]);
      var rest := Lines(s[1..]);
      if s[0] == NEWLINE {
        JoinCons([], rest);
        assert [] + [NEWLINE] + s[1..] == s;
      } else {
        JoinGrow(s[0], rest);
        assert [s[0]] + s[1..] == s;
      }
    }
  }

  function DecodeLines(lines: seq<Bytes>): seq<Bytes> {
    if lines == [] then [] else DecodeLine(lines[0]) + DecodeLines(lines[1..])
  }

  lemma {:induction false} DecodeLinesAppend(a: seq<Bytes>, b: seq<Bytes>)
    ensures DecodeLines(a + b) == DecodeLines(a) + DecodeLines(b)
  {
    hide DecodeLine;
    if a == [] {
      assert a + b == b;
    } else {
      assert (a + b)[1..] == a[1..] + b;
      DecodeLinesAppend(a[1..], b);
    }
  }

  // A text after `part`: the messages of all its lines but the last, and the last line.
  function ReceivedLines(part: Bytes, lines: seq<Bytes>): Received
    requires |lines| >= 1
    decreases |lines|
  {
    if |lines| == 1 then Received([], part + lines[0])
    else
      var rest := ReceivedLines([], lines[1..]);
      Received(DecodeLine(part + lines[0]) + rest.messages, rest.part)
  }

  // Line by line: each complete line is decoded on its own, and the last line is the incomplete
  // part.
  lemma {:induction false} ReceiveLines(part: Bytes, s: Bytes)
    ensures Receive(part, s) == ReceivedLines(part, Lines(s))
    decreases |s|
  {
    hide DecodeLine;
    if s == [] {
      assert part + [] == part;
    } else {
      var rest := Lines(s[1..]);
      if s[0] == NEWLINE {
        ReceiveLines([], s[1..]);
        assert Lines(s)[1..] == rest && part + [] == part;
      } else {
        ReceiveLines(part + [s[0]], s[1..]);
        assert Lines(s)[1..] == rest[1..];
        assert part + [s[0]] + rest[0] == part + ([s[0]] + rest[0]);
      }
    }
  }

  lemma {:induction false} ReceivedAndLast(lines: seq<Bytes>)
    requires |lines| >= 1
    ensures var r := ReceivedLines([], lines);
            r.part == lines[|lines| - 1] && DecodeLines(lines) == r.messages + DecodeLine(r.part)
  {
    hide DecodeLine;
    assert [] + lines[0] == lines[0];
    if |lines| == 1 {
      assert lines[1..] == [];
    } else {
      ReceivedAndLast(lines[1..]);
    }
  }

  lemma PartsJoin(part: Bytes, s: Bytes, later: Bytes, rest: Bytes)
    requires s != [] && [] + s[1..] == later + rest
    ensures part + s == part + [s[0]] + later + rest
  {
    assert s == [s[0]] + ([] + s[1..]);
  }

  // The complete part and the incomplete part make up the input; the complete part is empty or
  // ends in a delimiter, and the incomplete part holds none.
  lemma {:induction false} SplitConservation(part: Bytes, s: Bytes) returns (complete: Bytes)
    requires NEWLINE !in part
    ensures part + s == complete + Receive(part, s).part
    ensures complete == [] || complete[|complete| - 1] == NEWLINE
    ensures NEWLINE !in Receive(part, s).part
    decreases |s|
  {
    hide DecodeLine;
    if s == [] {
      complete := [];
    } else if s[0] == NEWLINE {
      var later := SplitConservation([], s[1..]);
      complete := part + [NEWLINE] + later;
      PartsJoin(part, s, later, Receive([], s[1..]).part);
    } else {
      complete := SplitConservation(part + [s[0]], s[1..]);
      assert part + [s[0]] + s[1..] == part + s;
    }
  }

  lemma OneLine(line: Bytes)
    ensures Receive(line, [NEWLINE]) == Received(DecodeLine(line), [])
  {
    hide DecodeLine;
    assert Receive([], [NEWLINE][1..]) == Received([], []);
  }

  lemma BadLine(line: Bytes)
    requires line == [] || |line| % 4 != 0
    ensures DecodeLine(line) == []
  {
  }

  // A line that does not decode is skipped and changes nothing around it.
  lemma LineIsolation(before: Bytes, bad: Bytes, after: Bytes)
    requires Receive([], before).part == []
    requires NEWLINE !in bad && (bad == [] || |bad| % 4 != 0)
    ensures Receive([], before + bad + [NEWLINE] + after) == Receive([], before + after)
  {
    hide DecodeLine, Receive;
    ReceiveAppend([], before + bad + [NEWLINE], after);
    ReceiveAppend([], before + bad, [NEWLINE]);
    ReceiveAppend([], before, bad);
    ReceiveAppend([], before, after);
    ReceiveWithoutNewline([], bad);
    assert [] + bad == bad;
    OneLine(bad);
    assert DecodeLine(bad) == [] by {
      BadLine(bad);
    }
  }

  // ---------------------------------------------------------------------------------------
  // decode_message
  // ---------------------------------------------------------------------------------------

  // Lines for which decoding has a defined result; the others hold bytes from 128 on.
  predicate AllDecodable(lines: seq<Bytes>) {
    forall i | 0 <= i < |lines| :: Base64Codec.DecodeOutcome(lines[i]) != Undefined
  }

  // The same for the complete lines of a text.
  predicate Decodable(s: Bytes) {
    AllDecodable(Lines(s)[..|Lines(s)| - 1])
  }

  lemma {:induction false} LinesAscii(s: Bytes)
    requires Ascii(s)
    ensures forall i | 0 <= i < |Lines(s)| :: Ascii(Lines(s)[i])
  {
    if s != [] {
      LinesAscii(s[1..]);
      var rest := Lines(s[1..]);
      forall i | 0 <= i < |Lines(s)|
        ensures Ascii(Lines(s)[i])
      {
        if s[0] == NEWLINE {
          assert i == 0 || Lines(s)[i] == rest[i - 1];
        } else {
          assert i == 0 || Lines(s)[i] == rest[i];
          assert Ascii(rest[0]);
        }
      }
    }
  }

  lemma AsciiDecodable(s: Bytes)
    requires Ascii(s)
    ensures Decodable(s)
  {
    hide Decode, Ascii, Lines;
    LinesAscii(s);
  }

  // std::string::find_last_of; -1 stands for npos, whose successor is 0 in size_t.
  method FindLastOf(s: Bytes, c: Byte) returns (pos: int)
    ensures -1 <= pos < |s|
    ensures pos >= 0 ==> s[pos] == c
    ensures forall k | pos < k < |s| :: s[k] != c
  {
    pos := |s| - 1;
    while pos >= 0 && s[pos] != c
      invariant -1 <= pos < |s|
      invariant forall k | pos < k < |s| :: s[k] != c
    {
      pos := pos - 1;
    }
  }

  // The complete part is empty or ends in a delimiter, and the rest holds none.
  predicate LastCut(message: Bytes, full: Bytes, rest: Bytes) {
    && message == full + rest
    && (full == [] || full[|full| - 1] == NEWLINE)
    && NEWLINE !in rest
  }

  lemma CutAfter(s: Bytes, n: nat)
    requires n <= |s|
    requires n == 0 || s[n - 1] == NEWLINE
    requires forall k | n <= k < |s| :: s[k] != NEWLINE
    ensures LastCut(s, s[..n], s[n..])
  {
    assert s == s[..n] + s[n..];
  }

  // Lines 81 to 83: the text up to the last delimiter, and the text after it.
  method CutAtLast(message: Bytes) returns (full: Bytes, unreceived: Bytes)
    ensures LastCut(message, full, unreceived)
  {
    hide LastCut;
    var lastPos := FindLastOf(message, NEWLINE);
    CutAfter(message, lastPos + 1);
    unreceived := message[lastPos + 1..];
    full := message[..lastPos + 1];
  }

  lemma {:induction false} LinesFirst(line: Bytes, rest: Bytes)
    requires NEWLINE !in line
    ensures Lines(line + [NEWLINE] + rest) == [line] + Lines(rest)
  {
    var s := line + [NEWLINE] + rest;
    if line == [] {
      assert s[1..] == rest;
    } else {
      LinesFirst(line[1..], rest);
      assert s[1..] == line[1..] + [NEWLINE] + rest;
      assert [line[0]] + line[1..] == line;
    }
  }

  lemma {:induction false} LinesSingle(line: Bytes)
    requires NEWLINE !in line
    ensures Lines(line) == [line]
  {
    if line != [] {
      LinesSingle(line[1..]);
      assert [line[0]] + line[1..] == line;
    }
  }

  // boost::split at every delimiter, keeping empty tokens.
  method Split(s: Bytes) returns (lines: seq<Bytes>)
    ensures lines == Lines(s)
  {
    hide Lines;
    lines := [];
    var start, i := 0, 0;
    while i < |s|
      invariant 0 <= start <= i <= |s|
      invariant NEWLINE !in s[start..i]
      invariant lines + Lines(s[start..]) == Lines(s)
    {
      if s[i] == NEWLINE {
        LinesFirst(s[start..i], s[i + 1..]);
        assert s[start..] == s[start..i] + [NEWLINE] + s[i + 1..];
        lines := lines + [s[start..i]];
        start := i + 1;
      }
      i := i + 1;
    }
    assert s[start..i] == s[start..];
    LinesSingle(s[start..]);
    lines := lines + [s[start..]];
  }

  lemma EmptyDecodable()
    ensures Base64Codec.DecodeOutcome([]) == Returned([])
  {
  }

  // One more line is decoded on its own.
  lemma DecodeLinesNext(lines: seq<Bytes>, i: nat)
    requires i < |lines|
    ensures DecodeLines(lines[..i + 1]) == DecodeLines(lines[..i]) + DecodeLine(lines[i])
    ensures AllDecodable(lines[..i + 1])
       <==> AllDecodable(lines[..i]) && Base64Codec.DecodeOutcome(lines[i]) != Undefined
  {
    hide DecodeLine, Base64Codec.DecodeOutcome;
    assert lines[..i + 1] == lines[..i] + [lines[i]];
    DecodeLinesAppend(lines[..i], [lines[i]]);
    assert DecodeLines([]) == [] && [lines[i]][1..] == [];
  }

  lemma NoLines()
    ensures AllDecodable([]) && DecodeLines([]) == []
  {
  }

  lemma AllDecodablePrefix(lines: seq<Bytes>, i: nat)
    requires i <= |lines|
    ensures AllDecodable(lines) ==> AllDecodable(lines[..i])
  {
    hide Base64Codec.DecodeOutcome;
  }

  // Lines 95 to 115: tokens that are empty or do not decode are skipped.
  method DecodeTokens(lines: seq<Bytes>) returns (r: Outcome<seq<Bytes>>)
    ensures r == if AllDecodable(lines) then Returned(DecodeLines(lines)) else Undefined
  {
    hide Decode, Ascii, DecodeLines, AllDecodable;
    var messages := [];
    var i := 0;
    NoLines();
    while i < |lines|
      invariant 0 <= i <= |lines|
      invariant AllDecodable(lines[..i]) && messages == DecodeLines(lines[..i])
    {
      DecodeLinesNext(lines, i);
      EmptyDecodable();
      if lines[i] != [] {
        var decoded := Base64Codec.DecodeString(lines[i]);
        if decoded.Undefined? {
          AllDecodablePrefix(lines, i + 1);
          return Undefined;
        }
        if decoded.Returned? {
          messages := messages + [decoded.value];
        }
      }
      i := i + 1;
    }
    assert lines[..i] == lines;
    return Returned(messages);
  }

  lemma SuffixLast(a: Bytes, b: Bytes)
    ensures b != [] ==> (a + b)[|a + b| - 1] in b
  {
  }

  // A text that is empty or ends in a delimiter leaves no incomplete part.
  lemma CompleteText(s: Bytes)
    requires s == [] || s[|s| - 1] == NEWLINE
    ensures Receive([], s) == Received(DecodeLines(Lines(s)), [])
    ensures Lines(s)[|Lines(s)| - 1] == []
  {
    hide DecodeLine, Lines, Receive, ReceivedLines;
    ReceiveLines([], s);
    ReceivedAndLast(Lines(s));
    var complete := SplitConservation([], s);
    assert [] + s == s;
    SuffixLast(complete, Receive([], s).part);
    BadLine([]);
  }

  lemma LinesStep(s: Bytes)
    requires s != []
    ensures s[0] == NEWLINE ==> Lines(s) == [[]] + Lines(s[1..])
    ensures s[0] != NEWLINE ==> Lines(s) == [[s[0]] + Lines(s[1..])[0]] + Lines(s[1..])[1..]
  {
  }

  // More text without a delimiter leaves the complete lines as they are.
  lemma {:induction false} LinesBefore(a: Bytes, b: Bytes)
    requires NEWLINE !in b
    ensures |Lines(a + b)| == |Lines(a)|
    ensures forall i | 0 <= i < |Lines(a)| - 1 :: Lines(a + b)[i] == Lines(a)[i]
  {
    if a == [] {
      LinesSingle(b);
      assert a + b == b;
    } else {
      hide Lines;
      var s, rest := a + b, a[1..];
      assert s[1..] == rest + b && s[0] == a[0];
      LinesBefore(rest, b);
      LinesStep(a);
      LinesStep(s);
    }
  }

  // The text before the cut decides the messages, and the text after it is carried.
  lemma ReceiveCut(message: Bytes, full: Bytes, rest: Bytes)
    requires LastCut(message, full, rest)
    ensures Receive([], message) == Received(DecodeLines(Lines(full)), rest)
  {
    hide DecodeLine, Lines, Receive, DecodeLines;
    CompleteText(full);
    ReceiveAppend([], full, rest);
    ReceiveWithoutNewline([], rest);
    assert DecodeLines(Lines(full)) + [] == DecodeLines(Lines(full));
    assert [] + rest == rest;
  }

  lemma LastLineEmpty(l: seq<Bytes>)
    requires |l| >= 1 && l[|l| - 1] == []
    ensures AllDecodable(l) <==> AllDecodable(l[..|l| - 1])
  {
    hide Base64Codec.DecodeOutcome;
    EmptyDecodable();
    AllDecodablePrefix(l, |l| - 1);
    assert forall i | 0 <= i < |l| - 1 :: l[..|l| - 1][i] == l[i];
  }

  lemma DecodableCut(message: Bytes, full: Bytes, rest: Bytes)
    requires LastCut(message, full, rest)
    ensures Decodable(message) <==> AllDecodable(Lines(full))
  {
    hide Lines, Receive, DecodeLines, Base64Codec.DecodeOutcome, AllDecodable;
    CompleteText(full);
    LinesBefore(full, rest);
    var l := Lines(full);
    var n := |l| - 1;
    assert Lines(message)[..n] == l[..n];
    LastLineEmpty(l);
  }

  lemma NothingCut(message: Bytes)
    requires message != [] && message[|message| - 1] == NEWLINE
    ensures LastCut(message, message, [])
  {
    assert message + [] == message;
  }

  lemma EmptyText()
    ensures Receive([], []) == Received([], []) && Decodable([])
  {
  }

  // decode_message: `before` is the value the caller gave `message_unreceived_part`, which is
  // overwritten only when the message does not end in a delimiter.
  method DecodeMessage(message: Bytes, before: Bytes) returns (messages: Outcome<seq<Bytes>>, unreceived: Bytes)
    ensures messages == if Decodable(message) then Returned(Receive([], message).messages) else Undefined
    ensures unreceived == if message == [] || message[|message| - 1] == NEWLINE then before
                          else Receive([], message).part
  {
    hide Receive, Lines, Decodable, AllDecodable, DecodeLines, LastCut;
    messages, unreceived := Returned([]), before;
    if message == [] {
      EmptyText();
    } else {
      var full := message;
      if full[|full| - 1] != NEWLINE {
        full, unreceived := CutAtLast(message);
        ReceiveCut(message, full, unreceived);
        DecodableCut(message, full, unreceived);
      } else {
        NothingCut(message);
        ReceiveCut(message, full, []);
        DecodableCut(message, full, []);
      }
      var lines := Split(full);
      messages := DecodeTokens(lines);
    }
  }

  // ---------------------------------------------------------------------------------------
  // Chunks
  // ---------------------------------------------------------------------------------------

  // What handle_read does with one chunk: the carried part goes in front of it.
  function ReadStep(part: Bytes, chunk: Bytes): Received {
    Receive([], part + chunk)
  }

  function ReadChunks(part: Bytes, chunks: seq<Bytes>): Received
    decreases |chunks|
  {
    if chunks == [] then Received([], part)
    else
      var first := ReadStep(part, chunks[0]);
      var rest := ReadChunks(first.part, chunks[1..]);
      Received(first.messages + rest.messages, rest.part)
  }

  function Concat(chunks: seq<Bytes>): Bytes {
    if chunks == [] then [] else chunks[0] + Concat(chunks[1..])
  }

  // However a stream is cut, the messages and the carried part are those of the whole stream.
  lemma {:induction false} ChunkingInvariance(part: Bytes, chunks: seq<Bytes>)
    requires NEWLINE !in part
    ensures ReadChunks(part, chunks) == Receive([], part + Concat(chunks))
    decreases |chunks|
  {
    hide DecodeLine;
    if chunks == [] {
      ReceivePart(part, []);
      assert part + Concat(chunks) == part;
    } else {
      var first := ReadStep(part, chunks[0]);
      var later := Concat(chunks[1..]);
      ReceivedShape([], part + chunks[0]);
      ChunkingInvariance(first.part, chunks[1..]);
      ReceivePart(first.part, later);
      ReceiveAppend([], part + chunks[0], later);
      assert part + Concat(chunks) == part + chunks[0] + later;
    }
  }

  // ---------------------------------------------------------------------------------------
  // Frames
  // ---------------------------------------------------------------------------------------

  // What `send` puts into the queue for one message.
  function Frame(m: Bytes): Bytes {
    Encode(m) + [NEWLINE]
  }

  function Frames(ms: seq<Bytes>): Bytes {
    if ms == [] then [] else Frame(ms[0]) + Frames(ms[1..])
  }

  function NonEmpty(ms: seq<Bytes>): seq<Bytes> {
    if ms == [] then [] else (if ms[0] == [] then [] else [ms[0]]) + NonEmpty(ms[1..])
  }

  lemma {:induction false} FramesSnoc(ms: seq<Bytes>, m: Bytes)
    ensures Frames(ms + [m]) == Frames(ms) + Frame(m)
  {
    hide Frame;
    if ms == [] {
      assert ms + [m] == [m];
    } else {
      assert (ms + [m])[1..] == ms[1..] + [m];
      FramesSnoc(ms[1..], m);
    }
  }

  // No encoded message holds a delimiter, whatever its bytes, and all its bytes are ASCII.
  lemma EncodedText(m: Bytes)
    ensures NEWLINE !in Encode(m) && Ascii(Encode(m)) && |Encode(m)| % 4 == 0
  {
    hide Encode;
    EncodePrintable(m);
  }

  lemma EncodedEmpty(m: Bytes)
    ensures Encode(m) == [] <==> m == []
    ensures NonEmpty([m]) == if m == [] then [] else [m]
  {
  }

  lemma OneFrame(m: Bytes)
    ensures Receive([], Frame(m)) == Received(NonEmpty([m]), [])
  {
    hide Encode, Decode, Receive;
    EncodedText(m);
    ReceiveAppend([], Encode(m), [NEWLINE]);
    ReceiveWithoutNewline([], Encode(m));
    assert [] + Encode(m) == Encode(m);
    OneLine(Encode(m));
    RoundTrip(m);
    EncodedEmpty(m);
  }

  // Any list of messages comes back from its frames, without the empty ones.
  lemma {:induction false} FramingInverse(ms: seq<Bytes>)
    ensures Receive([], Frames(ms)) == Received(NonEmpty(ms), [])
  {
    hide Frame;
    if ms != [] {
      OneFrame(ms[0]);
      FramingInverse(ms[1..]);
      ReceiveAppend([], Frame(ms[0]), Frames(ms[1..]));
    }
  }

  // From any prefix of the frames, a prefix of the messages.
  lemma FramesPrefix(ms: seq<Bytes>, s: Bytes)
    requires s <= Frames(ms)
    ensures Receive([], s).messages <= NonEmpty(ms)
  {
    hide Frames, NonEmpty;
    FramingInverse(ms);
    var rest := Frames(ms)[|s|..];
    assert Frames(ms) == s + rest;
    ReceiveAppend([], s, rest);
  }

  lemma {:induction false} FramesAscii(ms: seq<Bytes>)
    ensures Ascii(Frames(ms))
  {
    hide Encode;
    if ms != [] {
      EncodedText(ms[0]);
      FramesAscii(ms[1..]);
    }
  }
}
