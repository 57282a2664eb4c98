/** The command-line client: one connection attempt, then one lookup per input line. */
module Client {
  import opened Wrappers
  import opened Requests
  import opened Protocol

  /** An error reported by the transport; its cause is not modelled. */
  datatype NWError = NWError(code: int)

  /** A connection to the server endpoint given on the command line. */
  datatype Connection = Connection(host: string, port: nat)

  /** The state notifications a connection attempt receives. */
  datatype NWConnectionState =
    | Setup
    | Waiting(error: NWError)
    | Preparing
    | Ready
    | Failed(error: NWError)
    | Cancelled

  /** How `connect` comes back: returning a connection or nil, or throwing. */
  datatype ConnectResult = Returned(connection: Option<Connection>) | Threw(error: NWError)

  /** The notifications that resume the waiting attempt. */
  predicate IsTerminal(state: NWConnectionState)
  {
    state.Ready? || state.Failed? || state.Cancelled?
  }

  /** The state update handler: the result one notification resumes the attempt with,
      if it resumes it at all. */
  function OnStateUpdate(conn: Connection, state: NWConnectionState): (r: Option<ConnectResult>)
    ensures r.Some? <==> IsTerminal(state)
    ensures r == Some(Returned(Some(conn))) <==> state.Ready?
  {
    match state
    case Ready => Some(Returned(Some(conn)))
    case Waiting(_) => None
    case Failed(error) => Some(Threw(error))
    case Setup => None
    case Preparing => None
    case Cancelled => Some(Returned(None))
  }

  /** `i` is the position of the first terminal notification. */
  predicate FirstTerminalAt(states: seq<NWConnectionState>, i: int)
  {
    0 <= i < |states| && IsTerminal(states[i]) &&
    forall j :: 0 <= j < i ==> !IsTerminal(states[j])
  }

  /** The outcome of a connection attempt that has seen `states`, oldest first:
      decided by the first terminal notification, undecided while there is none. */
  function Connect(conn: Connection, states: seq<NWConnectionState>): (r: Option<ConnectResult>)
    ensures r.None? <==> forall i :: 0 <= i < |states| ==> !IsTerminal(states[i])
    ensures r.Some? ==>
      exists i :: FirstTerminalAt(states, i) && r == OnStateUpdate(conn, states[i])
  {
    if states == [] then None
    else match OnStateUpdate(conn, states[0])
      case Some(result) =>
        assert FirstTerminalAt(states, 0);
        Some(result)
      case None =>
        var r := Connect(conn, states[1..]);
        assert forall i :: 0 < i < |states| ==> states[i] == states[1..][i - 1];
        if r.Some? then
          var i :| FirstTerminalAt(states[1..], i) && r == OnStateUpdate(conn, states[1..][i]);
          assert FirstTerminalAt(states, i + 1);
          r
        else
          r
  }

  /** At most one position is the first terminal notification. */
  lemma FirstTerminalUnique(states: seq<NWConnectionState>, i: int, j: int)
    requires FirstTerminalAt(states, i) && FirstTerminalAt(states, j)
    ensures i == j
  {
  }

  /** The first terminal notification decides the attempt. */
  lemma ConnectFirstTerminal(conn: Connection, states: seq<NWConnectionState>, i: int)
    requires FirstTerminalAt(states, i)
    ensures Connect(conn, states) == OnStateUpdate(conn, states[i])
  {
    var r := Connect(conn, states);
    assert states[i] in states;
    var j :| FirstTerminalAt(states, j) && r == OnStateUpdate(conn, states[j]);
    FirstTerminalUnique(states, i, j);
  }

  /** The attempt returns the connection exactly when its first terminal notification
      is `.ready`; `.failed` throws its error and `.cancelled` returns nil. */
  lemma ConnectOutcomes(conn: Connection, states: seq<NWConnectionState>, i: int)
    requires FirstTerminalAt(states, i)
    ensures states[i].Ready? <==> Connect(conn, states) == Some(Returned(Some(conn)))
    ensures states[i].Failed? ==> Connect(conn, states) == Some(Threw(states[i].error))
    ensures states[i].Cancelled? <==> Connect(conn, states) == Some(Returned(None))
  {
    ConnectFirstTerminal(conn, states, i);
  }

  /** Notifications after the deciding one do not change the outcome; before it,
      setup, preparing and waiting notifications are ignored. */
  lemma ConnectLater(conn: Connection, states: seq<NWConnectionState>, later: seq<NWConnectionState>)
    ensures Connect(conn, states).Some? ==> Connect(conn, states + later) == Connect(conn, states)
    ensures Connect(conn, states).None? ==> Connect(conn, states + later) == Connect(conn, later)
  {
    var all := states + later;
    if Connect(conn, states).Some? {
      var i :| FirstTerminalAt(states, i) && Connect(conn, states) == OnStateUpdate(conn, states[i]);
      assert FirstTerminalAt(all, i);
      ConnectFirstTerminal(conn, all, i);
    } else if Connect(conn, later).Some? {
      var i :| FirstTerminalAt(later, i) && Connect(conn, later) == OnStateUpdate(conn, later[i]);
      assert all[|states| + i] == later[i];
      assert FirstTerminalAt(all, |states| + i);
      ConnectFirstTerminal(conn, all, |states| + i);
    } else {
      assert forall k :: 0 <= k < |all| ==> !IsTerminal(all[k]);
    }
  }

  /** What the completion of receiveMessage hands back: an error, and the framer message
      found in the context's protocol metadata, if any. */
  datatype ReceiveCompletion = ReceiveCompletion(error: Option<NWError>, metadata: Option<Message>)

  /** The receive step: throw the transport error, else yield the response of the
      framer message, else nil. */
  function ReceiveResult(c: ReceiveCompletion): (r: Result<Option<seq<byte>>, NWError>)
    ensures r.Err? <==> c.error.Some?
    ensures r.Ok? && r.value.Some? <==> c.error.None? && c.metadata.Some? && c.metadata.value.response.Some?
    ensures r.Err? ==> r.error == c.error.value
    ensures r.Ok? && r.value.Some? ==> r.value.value == c.metadata.value.response.value
  {
    if c.error.Some? then Err(c.error.value)
    else if c.metadata.Some? && c.metadata.value.response.Some? then Ok(Some(c.metadata.value.response.value))
    else Ok(None)
  }

  lemma {:induction false} ResponseMessagesAt(responses: seq<seq<byte>>, k: nat)
    requires k < |responses|
    ensures |ResponseMessages(responses)| == |responses|
    ensures ResponseMessages(responses)[k] == ResponseMessage(responses[k])
  {
    if k > 0 {
      ResponseMessagesAt(responses[1..], k - 1);
    } else if |responses| > 1 {
      ResponseMessagesAt(responses[1..], 0);
    }
  }

  /** A message the framer delivered reaches the client as exactly its response bytes. */
  lemma ReceiveDelivered(buffer: seq<byte>, k: nat)
    requires k < |Frame(buffer).responses|
    ensures k < |ResponseMessages(Frame(buffer).responses)|
    ensures ReceiveResult(ReceiveCompletion(None, Some(ResponseMessages(Frame(buffer).responses)[k])))
         == Ok(Some(Frame(buffer).responses[k]))
  {
    ResponseMessagesAt(Frame(buffer).responses, k);
  }

  /** The transport's answers for one input line: the send completion's error, if any,
      and the receive completion. */
  datatype Exchange = Exchange(sendError: Option<NWError>, receive: ReceiveCompletion)

  /** The error with which an exchange ends the session, if it does. */
  function Failure(x: Exchange): (f: Option<NWError>)
    ensures x.sendError.Some? ==> f == x.sendError
    ensures x.sendError.None? ==> f == x.receive.error
  {
    if x.sendError.Some? then x.sendError
    else match ReceiveResult(x.receive)
      case Err(e) => Some(e)
      case Ok(_) => None
  }

  /** One completed iteration of the session loop: the request sent (the framer writes
      its wire form), then what the one receive yielded. */
  datatype Turn = Turn(request: SKKServRequest, received: Option<seq<byte>>)

  /** How `run` ends: input exhausted, an error thrown, or a fatal error. */
  datatype RunOutcome = Finished | Thrown(error: NWError) | Fatal(reason: string)

  /** The completed iterations, oldest first, and how the loop ended. */
  datatype Trace = Trace(turns: seq<Turn>, outcome: RunOutcome)

  /** The session loop over input lines, the i-th line meeting the i-th exchange. Every
      line is sent as a lookup of its bytes as read, trailing newline included. */
  function Session(lines: seq<seq<byte>>, exchanges: seq<Exchange>): (t: Trace)
    requires |exchanges| == |lines|
    ensures |t.turns| <= |lines|
    ensures forall i :: 0 <= i < |t.turns| ==>
      t.turns[i].request == Request(lines[i]) &&
      exchanges[i].sendError.None? &&
      ReceiveResult(exchanges[i].receive) == Ok(t.turns[i].received)
    ensures t.outcome.Finished? <==> |t.turns| == |lines|
    ensures !t.outcome.Fatal?
    ensures t.outcome.Thrown? ==> Failure(exchanges[|t.turns|]) == Some(t.outcome.error)
  {
    if lines == [] then Trace([], Finished)
    else
      match Failure(exchanges[0])
      case Some(e) => Trace([], Thrown(e))
      case None =>
        var tail := Session(lines[1..], exchanges[1..]);
        var turn := Turn(Request(lines[0]), ReceiveResult(exchanges[0].receive).value);
        Trace([turn] + tail.turns, tail.outcome)
  }

  /** What `run` does once `connect` has come back. */
  function RunResult(connected: ConnectResult, lines: seq<seq<byte>>, exchanges: seq<Exchange>): (t: Trace)
    requires |exchanges| == |lines|
  {
    match connected
    case Threw(e) => Trace([], Thrown(e))
    case Returned(None) => Trace([], Fatal("Cancelled"))
    case Returned(Some(_)) => Session(lines, exchanges)
  }

  /** `run`: after connecting, read lines until end of input, sending one lookup and
      awaiting one response per line. */
  method Run(connected: ConnectResult, lines: seq<seq<byte>>, exchanges: seq<Exchange>)
    returns (t: Trace)
    requires |exchanges| == |lines|
    ensures t == RunResult(connected, lines, exchanges)
  {
    match connected {
      case Threw(e) => return Trace([], Thrown(e));
      case Returned(None) => return Trace([], Fatal("Cancelled"));
      case Returned(Some(_)) =>
    }
    var turns: seq<Turn> := [];
    var i := 0;
    while true
      invariant 0 <= i <= |lines|
      invariant Session(lines, exchanges) ==
        Trace(turns + Session(lines[i..], exchanges[i..]).turns, Session(lines[i..], exchanges[i..]).outcome)
      decreases |lines| - i
    {
      if i == |lines| {
        assert turns + [] == turns;
        return Trace(turns, Finished);
      }
      assert lines[i..][1..] == lines[i + 1..] && exchanges[i..][1..] == exchanges[i + 1..];
      var line := lines[i];
      var exchange := exchanges[i];
      if exchange.sendError.Some? {
        return Trace(turns, Thrown(exchange.sendError.value));
      }
      var received := ReceiveResult(exchange.receive);
      if received.Err? {
        return Trace(turns, Thrown(received.error));
      }
      AppendAssoc(turns, [Turn(Request(line), received.value)], Session(lines[i + 1..], exchanges[i + 1..]).turns);
      turns := turns + [Turn(Request(line), received.value)];
      i := i + 1;
    }
  }

  /** An input line as read (ending in its newline, no other LF inside) makes a request
      that a LF-framing server reads as two lines: `'1'` and the text, then `' '`. */
  lemma LineRequestTwoLines(line: seq<byte>)
    requires |line| > 0 && line[|line| - 1] == LF && LF !in line[..|line| - 1]
    ensures FirstLF(Data(Request(line))) == Some(|line|)
    ensures Data(Request(line))[..|line|] == [0x31] + line[..|line| - 1]
    ensures Data(Request(line))[|line| + 1..] == [Space, LF]
  {
    var d := Data(Request(line));
    assert line[..|line| - 1] + [LF] == line;
    assert d[..|line|] == [0x31] + line[..|line| - 1];
    FirstLFAt(d, |line|);
    assert d == [0x31] + line + [Space, LF];
  }
}
