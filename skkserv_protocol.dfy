/** The SKKServ framer plugged into the transport: LF-delimited responses in,
    request bytes out. */
module Protocol {
  import opened Wrappers
  import opened Requests

  /** The parse closure is not called while fewer bytes than this are buffered. */
  const MinimumIncompleteLength: nat := 4
  /** The parse closure is shown at most this many bytes of the buffer. */
  const MaximumLength: nat := 1024 * 1024

  function Min(a: nat, b: nat): (m: nat)
    ensures m <= a && m <= b && (m == a || m == b)
  {
    if a <= b then a else b
  }

  /** Position of the first line feed of `s`, if there is one. */
  function FirstLF(s: seq<byte>): (r: Option<nat>)
    ensures r.Some? ==> r.value < |s| && s[r.value] == LF && LF !in s[..r.value]
    ensures r.None? <==> LF !in s
  {
    if s == [] then None
    else if s[0] == LF then Some(0)
    else match FirstLF(s[1..])
      case None => None
      case Some(i) =>
        assert s[..i + 1] == [s[0]] + s[1..][..i];
        Some(i + 1)
  }

  /** The first line feed is unique: any LF with no LF before it is the one FirstLF finds. */
  lemma FirstLFAt(s: seq<byte>, i: nat)
    requires i < |s| && s[i] == LF && LF !in s[..i]
    ensures FirstLF(s) == Some(i)
  {
  }

  /** The bytes handed to the parse closure: none below the minimum length,
      otherwise the buffer cut at MaximumLength. */
  function ParseWindow(buffer: seq<byte>): (w: Option<seq<byte>>)
  {
    if |buffer| < MinimumIncompleteLength then None
    else Some(buffer[..Min(|buffer|, MaximumLength)])
  }

  /** What one parse leaves in `received`: the bytes strictly before the first LF
      the closure sees, or nothing. */
  function Received(buffer: seq<byte>): (r: Option<seq<byte>>)
    ensures r.Some? ==> |r.value| < |buffer|
  {
    match ParseWindow(buffer)
    case None => None
    case Some(window) =>
      match FirstLF(window)
      case None => None
      case Some(i) => Some(window[..i])
  }

  /** A found response is the buffer's prefix up to its first LF, which was within the
      bytes shown to the closure. */
  lemma ReceivedFound(buffer: seq<byte>)
    requires Received(buffer).Some?
    ensures Received(buffer).value + [LF] <= buffer
    ensures LF !in Received(buffer).value
    ensures |Received(buffer).value| < MaximumLength
  {
    var window := buffer[..Min(|buffer|, MaximumLength)];
    var i := FirstLF(window).value;
    assert window[..i] + [LF] == buffer[..i + 1];
  }

  /** A parse finds nothing exactly when fewer than the minimum bytes are buffered or
      the bytes shown hold no LF. */
  lemma ReceivedNone(buffer: seq<byte>)
    ensures Received(buffer).None? <==>
      |buffer| < MinimumIncompleteLength || LF !in buffer[..Min(|buffer|, MaximumLength)]
  {
  }

  /** Responses delivered from a buffer and the bytes left in it. */
  datatype Split = Split(responses: seq<seq<byte>>, rest: seq<byte>)

  /** handleInput's loop as a function: deliver responses while a parse finds a LF;
      what is left is a buffer on which a parse finds nothing. */
  function Frame(buffer: seq<byte>): (s: Split)
    ensures Received(s.rest).None?
    ensures |s.rest| <= |buffer|
    decreases |buffer|
  {
    match Received(buffer)
    case None => Split([], buffer)
    case Some(response) =>
      var tail := Frame(buffer[|response| + 1..]);
      Split([response] + tail.responses, tail.rest)
  }

  /** One round of handleInput's loop: a found response, then the framing of what follows
      it, `|response| + 1` bytes further on. */
  lemma FrameStep(buffer: seq<byte>, response: seq<byte>)
    requires Received(buffer) == Some(response)
    ensures Frame(buffer) ==
      Split([response] + Frame(buffer[|response| + 1..]).responses,
            Frame(buffer[|response| + 1..]).rest)
  {
  }

  /** Every delivered response is free of line feeds and shorter than the parse limit. */
  lemma {:induction false} FrameResponses(buffer: seq<byte>)
    ensures forall k :: 0 <= k < |Frame(buffer).responses| ==>
      LF !in Frame(buffer).responses[k] && |Frame(buffer).responses[k]| < MaximumLength
    decreases |buffer|
  {
    var received := Received(buffer);
    if received.Some? {
      var k := |received.value| + 1;
      ReceivedFound(buffer);
      FrameResponses(buffer[k..]);
      FrameStep(buffer, received.value);
    }
  }

  /** Responses put back on the wire, each followed by its line feed. */
  function Joined(responses: seq<seq<byte>>): (bytes: seq<byte>)
  {
    if responses == [] then [] else responses[0] + [LF] + Joined(responses[1..])
  }

  lemma JoinedCons(response: seq<byte>, responses: seq<seq<byte>>)
    ensures Joined([response] + responses) == response + [LF] + Joined(responses)
  {
    assert ([response] + responses)[1..] == responses;
  }

  lemma AppendAssoc<T>(xs: seq<T>, ys: seq<T>, zs: seq<T>)
    ensures xs + (ys + zs) == (xs + ys) + zs
  {
  }

  /** No byte is lost or duplicated: the responses, each with its LF, then the rest,
      are the buffer. */
  lemma {:induction false} FrameConserves(buffer: seq<byte>)
    ensures Joined(Frame(buffer).responses) + Frame(buffer).rest == buffer
    decreases |buffer|
  {
    var received := Received(buffer);
    if received.Some? {
      var response := received.value;
      var k := |response| + 1;
      var tail := Frame(buffer[k..]);
      calc {
        Joined(Frame(buffer).responses) + Frame(buffer).rest;
        { FrameStep(buffer, response); }
        Joined([response] + tail.responses) + tail.rest;
        { JoinedCons(response, tail.responses); }
        (response + [LF] + Joined(tail.responses)) + tail.rest;
        { AppendAssoc(response + [LF], Joined(tail.responses), tail.rest); }
        (response + [LF]) + (Joined(tail.responses) + tail.rest);
        { FrameConserves(buffer[k..]); }
        (response + [LF]) + buffer[k..];
        { ReceivedFound(buffer); assert buffer[..k] == response + [LF]; }
        buffer[..k] + buffer[k..];
        buffer;
      }
    }
  }

  /** Once a parse finds a LF, bytes arriving later do not change what it finds. */
  lemma ReceivedExtends(a: seq<byte>, b: seq<byte>)
    requires Received(a).Some?
    ensures Received(a + b) == Received(a)
  {
    var w := a[..Min(|a|, MaximumLength)];
    var w' := (a + b)[..Min(|a + b|, MaximumLength)];
    var i := FirstLF(w).value;
    assert w'[..i] == w[..i];
    assert w'[i] == LF;
    FirstLFAt(w', i);
  }

  /** Fragmentation independence: framing `a`, then framing what is left of it
      followed by `b`, delivers what framing `a + b` at once delivers, in order. */
  lemma {:induction false} FrameAppend(a: seq<byte>, b: seq<byte>)
    ensures Frame(a + b) ==
      Split(Frame(a).responses + Frame(Frame(a).rest + b).responses,
            Frame(Frame(a).rest + b).rest)
    decreases |a|, 1
  {
    var received := Received(a);
    if received.None? {
      assert Frame(a) == Split([], a);
      assert [] + Frame(a + b).responses == Frame(a + b).responses;
    } else {
      FrameAppendFound(a, b, received.value);
    }
  }

  /** The case of FrameAppend where a parse of `a` finds a response. */
  lemma {:induction false} FrameAppendFound(a: seq<byte>, b: seq<byte>, response: seq<byte>)
    requires Received(a) == Some(response)
    ensures Frame(a + b) ==
      Split(Frame(a).responses + Frame(Frame(a).rest + b).responses,
            Frame(Frame(a).rest + b).rest)
    decreases |a|, 0
  {
    var k := |response| + 1;
    var tail := Frame(a[k..]);
    var later := Frame(tail.rest + b);
    FrameStepAppend(a, b, response);
    FrameAppend(a[k..], b);
    FrameStep(a, response);
    assert Frame(Frame(a).rest + b) == later;
    AppendAssoc([response], tail.responses, later.responses);
  }

  /** One round of handleInput's loop on `a + b` when a parse of `a` alone finds a response. */
  lemma FrameStepAppend(a: seq<byte>, b: seq<byte>, response: seq<byte>)
    requires Received(a) == Some(response)
    ensures Frame(a + b) ==
      Split([response] + Frame(a[|response| + 1..] + b).responses,
            Frame(a[|response| + 1..] + b).rest)
  {
    ReceivedExtends(a, b);
    assert (a + b)[|response| + 1..] == a[|response| + 1..] + b;
    FrameStep(a + b, response);
  }

  /** All bytes of a sequence of arrivals, in arrival order. */
  function Flatten(chunks: seq<seq<byte>>): (bytes: seq<byte>)
  {
    if chunks == [] then [] else chunks[0] + Flatten(chunks[1..])
  }

  lemma {:induction false} FlattenSnoc(chunks: seq<seq<byte>>, chunk: seq<byte>)
    ensures Flatten(chunks + [chunk]) == Flatten(chunks) + chunk
  {
    if chunks == [] {
      assert chunks + [chunk] == [chunk];
    } else {
      assert (chunks + [chunk])[0] == chunks[0];
      assert (chunks + [chunk])[1..] == chunks[1..] + [chunk];
      FlattenSnoc(chunks[1..], chunk);
    }
  }

  /** Number of line feeds in `s`. */
  function CountLF(s: seq<byte>): (n: nat)
  {
    if s == [] then 0 else (if s[0] == LF then 1 else 0) + CountLF(s[1..])
  }

  lemma {:induction false} CountLFAppend(a: seq<byte>, b: seq<byte>)
    ensures CountLF(a + b) == CountLF(a) + CountLF(b)
  {
    if a != [] {
      assert (a + b)[0] == a[0];
      assert (a + b)[1..] == a[1..] + b;
      CountLFAppend(a[1..], b);
    } else {
      assert a + b == b;
    }
  }

  lemma {:induction false} CountLFAbsent(s: seq<byte>)
    requires LF !in s
    ensures CountLF(s) == 0
  {
    if s != [] {
      assert s[0] in s;
      assert forall j :: 0 <= j < |s[1..]| ==> s[1..][j] == s[j + 1];
      CountLFAbsent(s[1..]);
    }
  }

  /** One response per line feed consumed, in order: the line feeds of the buffer are
      those ending the responses plus those still in the remainder. */
  lemma {:induction false} FrameCountsLF(buffer: seq<byte>)
    ensures CountLF(buffer) == |Frame(buffer).responses| + CountLF(Frame(buffer).rest)
    decreases |buffer|
  {
    var received := Received(buffer);
    if received.Some? {
      var response := received.value;
      var k := |response| + 1;
      FrameStep(buffer, response);
      ReceivedFound(buffer);
      FrameCountsLF(buffer[k..]);
      assert buffer == response + [LF] + buffer[k..];
      CountLFAppend(response + [LF], buffer[k..]);
      CountLFAppend(response, [LF]);
      CountLFAbsent(response);
    }
  }

  /** A buffer without a line feed delivers nothing and keeps every byte. */
  lemma FrameWithoutLF(buffer: seq<byte>)
    requires LF !in buffer
    ensures Frame(buffer) == Split([], buffer)
  {
    ReceivedNone(buffer);
    var window := buffer[..Min(|buffer|, MaximumLength)];
    assert forall j :: 0 <= j < |window| ==> window[j] == buffer[j];
  }

  /** Bytes after an LF do not move the first LF. */
  lemma FirstLFPrefix(x: seq<byte>, y: seq<byte>)
    requires LF in x
    ensures FirstLF(x + y) == FirstLF(x)
  {
    var i := FirstLF(x).value;
    assert (x + y)[..i] == x[..i];
    FirstLFAt(x + y, i);
  }

  /** LF-free bytes in front move the first LF by their length. */
  lemma {:induction false} FirstLFSkip(x: seq<byte>, y: seq<byte>)
    requires LF !in x && LF in y
    ensures FirstLF(x + y) == Some(|x| + FirstLF(y).value)
  {
    if x == [] {
      assert x + y == y;
    } else {
      var xy := x + y;
      assert x[0] in x;
      assert xy[0] == x[0] != LF;
      assert xy[1..] == x[1..] + y;
      assert LF !in x[1..] by {
        assert forall b :: b in x[1..] ==> b in x;
      }
      FirstLFSkip(x[1..], y);
      assert FirstLF(xy) == Some(FirstLF(xy[1..]).value + 1);
    }
  }

  /** How a LF-framing reader of the request stream (the server) sees a lookup with an
      LF-free key: one line, `'1' key ' '`, ended by the request's final LF. */
  lemma RequestLine(key: seq<byte>)
    requires LF !in key
    ensures FirstLF(Data(Request(key))) == Some(|key| + 2)
  {
    var line := [0x31 as byte] + key + [Space];
    assert Data(Request(key)) == line + [LF];
    assert LF !in line;
    FirstLFSkip(line, [LF]);
  }

  /** A line feed inside the key, which Data does not reject, ends the line the server
      reads at that LF, inside the key. */
  lemma RequestLineBroken(key: seq<byte>)
    requires LF in key
    ensures FirstLF(Data(Request(key))) == Some(1 + FirstLF(key).value)
  {
    var head := [0x31 as byte] + key;
    assert Data(Request(key)) == head + [Space, LF];
    FirstLFSkip([0x31], key);
    FirstLFPrefix(head, [Space, LF]);
  }

  /** A framer message: a request to write, or a response delivered to the connection. */
  datatype Message = Message(request: Option<SKKServRequest>, response: Option<seq<byte>>)

  /** The message a delivered response travels in. */
  function ResponseMessage(response: seq<byte>): (m: Message)
  {
    Message(None, Some(response))
  }

  /** The messages delivered for framed responses, one each, in order. */
  function ResponseMessages(responses: seq<seq<byte>>): (ms: seq<Message>)
  {
    if responses == [] then [] else [ResponseMessage(responses[0])] + ResponseMessages(responses[1..])
  }

  lemma {:induction false} ResponseMessagesAppend(a: seq<seq<byte>>, b: seq<seq<byte>>)
    ensures ResponseMessages(a + b) == ResponseMessages(a) + ResponseMessages(b)
  {
    if a != [] {
      assert (a + b)[0] == a[0];
      assert (a + b)[1..] == a[1..] + b;
      ResponseMessagesAppend(a[1..], b);
    } else {
      assert a + b == b;
    }
  }

  /** The framer instance of one connection. */
  class SKKServProtocol {
    /** Bytes received from the transport and not yet consumed. */
    var input: seq<byte>
    /** Messages delivered to the connection, oldest first. */
    var delivered: seq<Message>
    /** Bytes written to the transport. */
    var output: seq<byte>

    constructor ()
      ensures input == [] && delivered == [] && output == []
    {
      input, delivered, output := [], [], [];
    }

    /** The transport appends bytes that arrived. */
    method Receive(bytes: seq<byte>)
      modifies this
      ensures input == old(input) + bytes
      ensures delivered == old(delivered) && output == old(output)
    {
      input := input + bytes;
    }

    /** parseInput with handleInput's closure: look for the first LF among the bytes shown
        and copy what precedes it. Consumes nothing. */
    method ParseInput() returns (received: Option<seq<byte>>)
      ensures received == Received(input)
    {
      if |input| < MinimumIncompleteLength {
        return None;
      }
      var window := input[..Min(|input|, MaximumLength)];
      var index := FirstIndexOfLF(window);
      if index.None? {
        received := None;
      } else {
        received := Some(window[..index.value]);
      }
    }

    /** deliverInputNoCopy: consume `length` bytes and hand the message to the connection. */
    method DeliverInputNoCopy(length: nat, message: Message)
      requires length <= |input|
      modifies this
      ensures input == old(input)[length..]
      ensures delivered == old(delivered) + [message] && output == old(output)
    {
      input := input[length..];
      delivered := delivered + [message];
    }

    /** handleInput: deliver every response a parse finds, consuming each with its LF,
        and stop, asking for more bytes, when a parse finds none. */
    method HandleInput() returns (result: int)
      modifies this
      ensures result == 0
      ensures input == Frame(old(input)).rest
      ensures delivered == old(delivered) + ResponseMessages(Frame(old(input)).responses)
      ensures output == old(output)
    {
      while true
        invariant Frame(input).rest == Frame(old(input)).rest
        invariant delivered + ResponseMessages(Frame(input).responses)
               == old(delivered) + ResponseMessages(Frame(old(input)).responses)
        invariant output == old(output)
        decreases |input|
      {
        var received := ParseInput();
        if received.None? {
          assert Frame(input) == Split([], input);
          assert delivered + [] == delivered;
          return 0;
        }
        var response := received.value;
        FrameStep(input, response);
        ResponseMessagesAppend([response], Frame(input[|response| + 1..]).responses);
        AppendAssoc(delivered, [ResponseMessage(response)], ResponseMessages(Frame(input[|response| + 1..]).responses));
        DeliverInputNoCopy(|response| + 1, ResponseMessage(response));
      }
    }

    /** handleOutput: write the wire form of the message's request. */
    method HandleOutput(message: Message)
      requires message.request.Some?
      modifies this
      ensures output == old(output) + Data(message.request.value)
      ensures input == old(input) && delivered == old(delivered)
    {
      output := output + Data(message.request.value);
    }
  }

  /** Index of the first line feed of `s`, by a left-to-right scan. */
  method FirstIndexOfLF(s: seq<byte>) returns (index: Option<nat>)
    ensures index == FirstLF(s)
  {
    var i := 0;
    while i < |s|
      invariant 0 <= i <= |s|
      invariant LF !in s[..i]
    {
      if s[i] == LF {
        FirstLFAt(s, i);
        return Some(i);
      }
      assert s[..i + 1] == s[..i] + [s[i]];
      i := i + 1;
    }
    assert s[..i] == s;
    return None;
  }

  /** Framing the input up to chunk `i` inclusive, from the framing up to chunk `i - 1`. */
  lemma FrameNextChunk(initial: seq<byte>, chunks: seq<seq<byte>>, i: nat)
    requires i < |chunks|
    ensures Frame(initial + Flatten(chunks[..i + 1])) ==
      Split(Frame(initial + Flatten(chunks[..i])).responses
              + Frame(Frame(initial + Flatten(chunks[..i])).rest + chunks[i]).responses,
            Frame(Frame(initial + Flatten(chunks[..i])).rest + chunks[i]).rest)
  {
    assert chunks[..i + 1] == chunks[..i] + [chunks[i]];
    FlattenSnoc(chunks[..i], chunks[i]);
    AppendAssoc(initial, Flatten(chunks[..i]), chunks[i]);
    FrameAppend(initial + Flatten(chunks[..i]), chunks[i]);
  }

  /** Bytes arriving in chunks, the framer running after each arrival, deliver what the
      whole input at once delivers and keep the same remainder. */
  method ReceiveChunks(framer: SKKServProtocol, chunks: seq<seq<byte>>)
    requires Received(framer.input).None?
    modifies framer
    ensures framer.input == Frame(old(framer.input) + Flatten(chunks)).rest
    ensures framer.delivered ==
      old(framer.delivered) + ResponseMessages(Frame(old(framer.input) + Flatten(chunks)).responses)
    ensures framer.output == old(framer.output)
  {
    ghost var initial := framer.input;
    assert Frame(initial) == Split([], initial);
    assert initial + Flatten(chunks[..0]) == initial;
    for i := 0 to |chunks|
      invariant framer.input == Frame(initial + Flatten(chunks[..i])).rest
      invariant framer.delivered ==
        old(framer.delivered) + ResponseMessages(Frame(initial + Flatten(chunks[..i])).responses)
      invariant framer.output == old(framer.output)
    {
      ghost var before := Frame(initial + Flatten(chunks[..i]));
      ghost var after := Frame(before.rest + chunks[i]);
      framer.Receive(chunks[i]);
      var _ := framer.HandleInput();
      FrameNextChunk(initial, chunks, i);
      ResponseMessagesAppend(before.responses, after.responses);
      AppendAssoc(old(framer.delivered), ResponseMessages(before.responses), ResponseMessages(after.responses));
    }
    assert chunks[..|chunks|] == chunks;
  }

  /** "abc" LF is delivered as the one response "abc", nothing left over. */
  lemma FrameExampleOneLine()
    ensures Frame([0x61, 0x62, 0x63, LF]) == Split([[0x61, 0x62, 0x63]], [])
  {
    var b: seq<byte> := [0x61, 0x62, 0x63, LF];
    assert b[..Min(|b|, MaximumLength)] == b;
    assert ParseWindow(b) == Some(b);
    FirstLFAt(b, 3);
    assert b[..3] == [0x61, 0x62, 0x63];
    assert Received(b) == Some([0x61, 0x62, 0x63]);
    assert b[4..] == [];
  }

  /** "ab" then "c" LF: nothing is delivered for the first fragment, then "abc". */
  lemma FrameExampleFragments()
    ensures Frame([0x61, 0x62]) == Split([], [0x61, 0x62])
    ensures Frame([0x61, 0x62] + [0x63, LF]) == Split([[0x61, 0x62, 0x63]], [])
  {
    assert [0x61, 0x62] + [0x63, LF] == [0x61, 0x62, 0x63, LF];
    FrameExampleOneLine();
  }

  /** "a" LF "b" LF "c": "a" is delivered; the 3 bytes left are below the minimum the
      parse needs, so "b" waits for more input. */
  lemma FrameExampleBelowMinimum()
    ensures Frame([0x61, LF, 0x62, LF, 0x63]) == Split([[0x61]], [0x62, LF, 0x63])
  {
    var b: seq<byte> := [0x61, LF, 0x62, LF, 0x63];
    assert b[..Min(|b|, MaximumLength)] == b;
    assert ParseWindow(b) == Some(b);
    FirstLFAt(b, 1);
    assert b[..1] == [0x61];
    assert Received(b) == Some([0x61]);
    assert b[2..] == [0x62, LF, 0x63];
  }

  /** A lone LF is a single byte, below the minimum the parse needs: it is held. */
  lemma FrameExampleLoneLF()
    ensures Frame([LF]) == Split([], [LF])
  {
  }

  /** LF "abc": the empty line is delivered as an empty response, and "abc" is held. */
  lemma FrameExampleEmptyResponse()
    ensures Frame([LF, 0x61, 0x62, 0x63]) == Split([[]], [0x61, 0x62, 0x63])
  {
    var b: seq<byte> := [LF, 0x61, 0x62, 0x63];
    assert b[..Min(|b|, MaximumLength)] == b;
    assert ParseWindow(b) == Some(b);
    assert Received(b) == Some([]);
    assert b[1..] == [0x61, 0x62, 0x63];
  }
}
