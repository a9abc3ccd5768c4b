/** The reconnecting chat client: three activities (send, receive, and the
    connection supervisor) that share the flags is_connect_ and exit_flag,
    and the supervisor's retry count. Each activity is one loop; here each
    loop iteration is one step whose I/O outcome is an input, and the
    activities interleave step by step. */
module Session {
  import opened Frame

  /** kMaxRetries: reconnection attempts the supervisor makes in a row. */
  const MaxRetries: int := 5
  /** The input line that ends the session. */
  const ExitCommand: string := "exit"
  /** The start of every received line as the client prints and logs it. */
  const LinePrefix: string := "          user "

  /** What the non-blocking send() of one input line returned. */
  datatype SendOutcome = Sent(count: nat) | SendWouldBlock | SendFailed

  /** What one non-blocking recv() of at most kBufferSize - 1 bytes returned. */
  datatype RecvOutcome = Got(data: seq<Byte>) | PeerClosed | RecvWouldBlock | RecvFailed

  predicate RecvFits(o: RecvOutcome)
  {
    o.Got? ==> 1 <= |o.data| <= BufferSize - 1
  }

  /** The shared state: is_connect_, exit_flag, retry_count, and whether each
      activity's loop has ended. */
  datatype Flags = Flags(connected: bool, exiting: bool, retries: int,
                         sendDone: bool, recvDone: bool, checkDone: bool)

  /** The retry count stays within 0..kMaxRetries, and an activity ends only
      once exit has been requested. */
  predicate Inv(f: Flags)
  {
    && 0 <= f.retries <= MaxRetries
    && (f.sendDone || f.recvDone || f.checkDone ==> f.exiting)
  }

  /** The state right after the constructor connected. */
  const Start: Flags := Flags(true, false, 0, false, false, false)

  // ---------------------------------------------------------------------------
  // One iteration of each activity
  // ---------------------------------------------------------------------------

  /** sendThread: "exit" requests exit and stops; a would-block moves on to
      the next line; any other failure marks the connection lost. */
  function SendNext(f: Flags, line: string, o: SendOutcome): Flags
  {
    if line == ExitCommand then f.(exiting := true, connected := false, sendDone := true)
    else if o.SendFailed? then f.(connected := false)
    else f
  }

  /** The line sendThread hands to the logger: the line, once send() sent some of it. */
  function SendLog(line: string, o: SendOutcome): seq<string>
  {
    if line != ExitCommand && o.Sent? && o.count > 0 then [line] else []
  }

  /** recvThread: stops once exit is requested; a closed peer or a failed
      receive marks the connection lost; data and would-block change no flag. */
  function RecvNext(f: Flags, o: RecvOutcome): Flags
  {
    if f.exiting then f.(recvDone := true)
    else if o.PeerClosed? || o.RecvFailed? then f.(connected := false)
    else f
  }

  /** The line recvThread shows and hands to the logger for a positive
      recv(): the data lands in the buffer `buf`, and the id and the text are
      read back out of it, whatever the count. */
  function RecvLog(f: Flags, buf: seq<Byte>, o: RecvOutcome): seq<string>
    requires |buf| == BufferSize && RecvFits(o)
  {
    if !f.exiting && o.Got? then [DisplayLine(LinePrefix, ShownAsWritten(Received(buf, o.data)))]
    else []
  }

  /** Whether a supervisor iteration from `f` tries to reconnect. */
  predicate Attempts(f: Flags)
  {
    !f.exiting && !f.connected && f.retries < MaxRetries
  }

  /** connectionCheckThread, one iteration taken as one step: stops once
      exit is requested; when the connection is lost it gives up after
      kMaxRetries attempts, otherwise it reconnects (`ok`) and resets the
      count or counts one more failure. */
  function CheckNext(f: Flags, ok: bool): Flags
  {
    if f.exiting then f.(checkDone := true) else CheckRest(f, ok)
  }

  /** The part of a supervisor iteration after its exit_flag test: the
      is_connect_ test, the ceiling and the reconnection attempt. */
  function CheckRest(f: Flags, ok: bool): Flags
  {
    if f.connected then f
    else if f.retries >= MaxRetries then f.(exiting := true, checkDone := true)
    else if ok then f.(connected := true, retries := 0)
    else f.(retries := f.retries + 1)
  }

  // ---------------------------------------------------------------------------
  // Interleavings
  // ---------------------------------------------------------------------------

  /** One iteration of one activity, with its I/O outcome. */
  datatype Step = SendStep(line: string, sent: SendOutcome) | RecvStep(got: RecvOutcome) | CheckStep(ok: bool)

  /** A step of an activity whose loop has ended does nothing. */
  function Next(f: Flags, s: Step): Flags
  {
    match s
    case SendStep(line, o) => if f.sendDone then f else SendNext(f, line, o)
    case RecvStep(o) => if f.recvDone then f else RecvNext(f, o)
    case CheckStep(ok) => if f.checkDone then f else CheckNext(f, ok)
  }

  /** The state after the steps, in order. */
  function Run(f: Flags, steps: seq<Step>): Flags
    decreases |steps|
  {
    if steps == [] then f else Run(Next(f, steps[0]), steps[1..])
  }

  /** The number of reconnection attempts the supervisor makes along the steps. */
  function AttemptCount(f: Flags, steps: seq<Step>): nat
    decreases |steps|
  {
    if steps == [] then 0
    else
      (if steps[0].CheckStep? && !f.checkDone && Attempts(f) then 1 else 0)
      + AttemptCount(Next(f, steps[0]), steps[1..])
  }

  /** `k` supervisor iterations whose reconnection fails. */
  function Failures(k: nat): (steps: seq<Step>)
    ensures |steps| == k
  {
    if k == 0 then [] else [CheckStep(false)] + Failures(k - 1)
  }

  // ---------------------------------------------------------------------------
  // Properties
  // ---------------------------------------------------------------------------

  /** Every iteration of every activity keeps the invariant. */
  lemma NextKeepsInv(f: Flags, s: Step)
    requires Inv(f)
    ensures Inv(Next(f, s))
  {
  }

  /** Under any interleaving of the three activities the retry count stays
      within 0..kMaxRetries, and no activity ends before exit is requested. */
  lemma {:induction false} RunKeepsInv(f: Flags, steps: seq<Step>)
    requires Inv(f)
    ensures Inv(Run(f, steps))
    decreases |steps|
  {
    if steps != [] {
      NextKeepsInv(f, steps[0]);
      RunKeepsInv(Next(f, steps[0]), steps[1..]);
    }
  }

  /** A supervisor iteration on a lost connection below the ceiling makes an
      attempt: success connects and resets the count, failure adds exactly
      one and leaves the connection lost. */
  lemma CheckStepOutcome(f: Flags)
    requires Attempts(f)
    ensures CheckNext(f, true) == f.(connected := true, retries := 0)
    ensures CheckNext(f, false) == f.(retries := f.retries + 1)
    ensures !CheckNext(f, false).connected
  {
  }

  /** On a lost connection with the count at the ceiling the supervisor
      requests exit and stops, without another attempt. */
  lemma CeilingStops(f: Flags, ok: bool)
    requires !f.exiting && !f.connected && f.retries >= MaxRetries
    ensures !Attempts(f)
    ensures CheckNext(f, ok) == f.(exiting := true, checkDone := true)
  {
  }

  /** Failed attempts below the ceiling only count up. */
  lemma {:induction false} FailuresCount(f: Flags, k: nat)
    requires !f.exiting && !f.connected && !f.checkDone && 0 <= f.retries && f.retries + k <= MaxRetries
    ensures Run(f, Failures(k)) == f.(retries := f.retries + k)
    ensures AttemptCount(f, Failures(k)) == k
    decreases k
  {
    if k > 0 {
      var g := f.(retries := f.retries + 1);
      assert Next(f, CheckStep(false)) == g;
      FailuresCount(g, k - 1);
      assert Failures(k)[1..] == Failures(k - 1);
    }
  }

  /** `k` < kMaxRetries failed attempts followed by a successful one leave
      the client connected with the count back at 0, nothing else changed. */
  lemma {:induction false} FailuresThenSuccess(f: Flags, k: nat)
    requires !f.exiting && !f.connected && !f.checkDone && f.retries == 0 && k < MaxRetries
    ensures Run(f, Failures(k) + [CheckStep(true)]) == f.(connected := true)
    ensures AttemptCount(f, Failures(k) + [CheckStep(true)]) == k + 1
  {
    FailuresCount(f, k);
    RunAppend(f, Failures(k), [CheckStep(true)]);
    var g := Run(f, Failures(k));
    assert Run(g, [CheckStep(true)]) == Next(g, CheckStep(true)) by {
      assert [CheckStep(true)][1..] == [];
    }
  }

  /** kMaxRetries failed attempts in a row make the supervisor give up: the
      next supervisor iteration, whatever it would have found, requests exit
      and stops without a further attempt, and the client never connected.
      The send loop does not test exit_flag, so it goes on until "exit" is
      read (SendOutcomes). */
  lemma FiveFailuresTerminate(f: Flags, ok: bool)
    requires !f.exiting && !f.connected && !f.checkDone && f.retries == 0
    ensures var g := Run(f, Failures(MaxRetries) + [CheckStep(ok)]);
            g.exiting && g.checkDone && !g.connected && g.retries == MaxRetries
    ensures AttemptCount(f, Failures(MaxRetries) + [CheckStep(ok)]) == MaxRetries
  {
    FailuresCount(f, MaxRetries);
    RunAppend(f, Failures(MaxRetries), [CheckStep(ok)]);
    var g := Run(f, Failures(MaxRetries));
    assert [CheckStep(ok)][1..] == [];
  }

  lemma {:induction false} RunAppend(f: Flags, a: seq<Step>, b: seq<Step>)
    ensures Run(f, a + b) == Run(Run(f, a), b)
    ensures AttemptCount(f, a + b) == AttemptCount(f, a) + AttemptCount(Run(f, a), b)
    decreases |a|
  {
    if a == [] {
      assert a + b == b;
    } else {
      assert (a + b)[0] == a[0];
      assert (a + b)[1..] == a[1..] + b;
      RunAppend(Next(f, a[0]), a[1..], b);
    }
  }

  /** Whatever the other activities do, while no reconnection succeeds each
      attempt adds one to the count; so at most kMaxRetries consecutive
      attempts fail before the supervisor gives up. */
  lemma {:induction false} FailedAttemptsBounded(f: Flags, steps: seq<Step>)
    requires Inv(f)
    requires forall s :: s in steps && s.CheckStep? ==> !s.ok
    ensures Run(f, steps).retries == f.retries + AttemptCount(f, steps)
    ensures AttemptCount(f, steps) <= MaxRetries - f.retries
    decreases |steps|
  {
    if steps != [] {
      NextKeepsInv(f, steps[0]);
      assert forall s :: s in steps[1..] ==> s in steps;
      FailedAttemptsBounded(Next(f, steps[0]), steps[1..]);
      RunKeepsInv(f, steps);
    }
  }

  /** Once exit is requested it stays requested, the supervisor makes no
      further attempt, and neither the count nor the connection comes back. */
  lemma {:induction false} ExitIsFinal(f: Flags, steps: seq<Step>)
    requires f.exiting
    ensures Run(f, steps).exiting
    ensures AttemptCount(f, steps) == 0
    ensures Run(f, steps).retries == f.retries
    ensures Run(f, steps).connected ==> f.connected
    decreases |steps|
  {
    if steps != [] {
      ExitIsFinal(Next(f, steps[0]), steps[1..]);
    }
  }

  /** As written, the supervisor tests exit_flag and is_connect_ at two
      different moments. When the send loop reads "exit" in between, the
      supervisor finds the connection lost and reconnects after exit was
      requested: a successful attempt sets the connection back up and resets
      the count, a failed one counts another failure. Taking a supervisor
      iteration as one step, as Next does, rules this out (ExitIsFinal). */
  lemma ExitBetweenChecksReconnects(f: Flags, o: SendOutcome)
    requires !f.exiting && f.connected && f.retries < MaxRetries
    ensures var g := SendNext(f, ExitCommand, o);
            && g.exiting && !g.connected
            && CheckRest(g, true).exiting && CheckRest(g, true).connected && CheckRest(g, true).retries == 0
            && CheckRest(g, false).retries == f.retries + 1
  {
  }

  /** Once exit is requested the next iterations of the receive loop and of
      the supervisor end them. */
  lemma ExitStopsLoops(f: Flags, buf: seq<Byte>, o: RecvOutcome, ok: bool)
    requires f.exiting && |buf| == BufferSize && RecvFits(o)
    ensures RecvNext(f, o) == f.(recvDone := true) && RecvLog(f, buf, o) == []
    ensures CheckNext(f, ok) == f.(checkDone := true)
  {
  }

  /** The input "exit" requests exit, drops the connection flag and ends the
      send loop, whatever send() would have returned, and logs nothing. */
  lemma ExitLine(f: Flags, o: SendOutcome)
    ensures SendNext(f, ExitCommand, o) == f.(exiting := true, connected := false, sendDone := true)
    ensures SendLog(ExitCommand, o) == []
  {
  }

  /** Outcomes of sending an ordinary line: a positive count logs exactly the
      line and changes no flag; would-block logs nothing and changes no
      flag (the line is not resent); any other failure only drops the
      connection flag and the loop goes on. */
  lemma SendOutcomes(f: Flags, line: string, o: SendOutcome)
    requires line != ExitCommand
    ensures o.Sent? && o.count > 0 ==> SendNext(f, line, o) == f && SendLog(line, o) == [line]
    ensures o.SendWouldBlock? ==> SendNext(f, line, o) == f && SendLog(line, o) == []
    ensures o.SendFailed? ==> SendNext(f, line, o) == f.(connected := false) && SendLog(line, o) == []
    ensures !SendNext(f, line, o).sendDone || f.sendDone
  {
  }

  /** A frame the server built for a connection whose descriptor fits an
      int, carrying no NUL byte and arriving in one recv(), is shown and
      logged as "          user <id>: <payload>" whatever the buffer held
      before, and the line gives back both. */
  lemma RecvShowsServerFrame(f: Flags, buf: seq<Byte>, origin: int, payload: seq<Byte>)
    requires !f.exiting && |buf| == BufferSize
    requires 0 <= origin < TwoTo31 && 0 !in payload && |payload| < BufferSize - IdSize
    ensures RecvLog(f, buf, Got(Encode(origin, payload)))
         == [LinePrefix + Decimal(origin) + ": " + ToText(payload)]
    ensures RecvNext(f, Got(Encode(origin, payload))) == f
    ensures ParseDisplayLine(LinePrefix, RecvLog(f, buf, Got(Encode(origin, payload)))[0])
         == Some((origin, ToText(payload)))
  {
    ShownAsWrittenOnFrames(buf, Encode(origin, payload));
    ShownEncode(origin, payload);
    DisplayLineRoundTrip(LinePrefix, Header(origin, payload));
  }

  /** Receiving: zero bytes or a failure drops the connection flag, a
      would-block changes nothing, and every positive receive logs one line.
      With at least four bytes the line shows the decoded frame. */
  lemma RecvOutcomes(f: Flags, buf: seq<Byte>, o: RecvOutcome)
    requires !f.exiting && |buf| == BufferSize && RecvFits(o)
    ensures o.PeerClosed? || o.RecvFailed? ==> RecvNext(f, o) == f.(connected := false) && RecvLog(f, buf, o) == []
    ensures o.RecvWouldBlock? ==> RecvNext(f, o) == f && RecvLog(f, buf, o) == []
    ensures o.Got? ==> RecvNext(f, o) == f && |RecvLog(f, buf, o)| == 1
    ensures o.Got? && |o.data| >= IdSize ==> RecvLog(f, buf, o) == [DisplayLine(LinePrefix, Shown(o.data).value)]
  {
    if o.Got? && |o.data| >= IdSize {
      ShownAsWrittenOnFrames(buf, o.data);
    }
  }

  /** As written, a receive of fewer than four bytes still logs a line: its
      id is read from the received bytes, the NUL and whatever follows them
      in the buffer, and its text is what earlier receives left at
      buffer + 4. */
  lemma ShortRecvLogsStale(f: Flags, buf: seq<Byte>, data: seq<Byte>)
    requires !f.exiting && |buf| == BufferSize && 1 <= |data| < IdSize
    ensures RecvLog(f, buf, Got(data))
         == [DisplayLine(LinePrefix, Header(ToInt32(FromBigEndian(data + [0] + buf[|data| + 1..IdSize])), UntilNul(buf[IdSize..])))]
  {
    ShortReadKeepsText(buf, data);
    assert Received(buf, data)[..IdSize] == data + [0] + buf[|data| + 1..IdSize];
  }

  // ---------------------------------------------------------------------------
  // The client object
  // ---------------------------------------------------------------------------

  /** Client: the shared flags, the supervisor's retry count, the receive
      loop's buffer, and the lines handed to logger_.saveMessage in order. */
  class Client {
    var connected: bool
    var exiting: bool
    var retries: int
    var sendDone: bool
    var recvDone: bool
    var checkDone: bool
    const rxBuf: array<Byte>
    var log: seq<string>

    function State(): Flags
      reads this
    {
      Flags(connected, exiting, retries, sendDone, recvDone, checkDone)
    }

    ghost predicate Valid()
      reads this
    {
      Inv(State()) && rxBuf.Length == BufferSize
    }

    /** The constructor connects (a failure there ends the program). */
    constructor ()
      ensures Valid() && fresh(rxBuf) && rxBuf[..] == Zeros()
      ensures State() == Start && log == []
    {
      connected, exiting, retries := true, false, 0;
      sendDone, recvDone, checkDone := false, false, false;
      var buffer := NewBuffer();
      rxBuf := buffer;
      log := [];
    }

    /** One iteration of sendThread: the line read from stdin and what
        send() returned for it. */
    method SendIteration(line: string, o: SendOutcome)
      requires Valid() && !sendDone
      modifies this
      ensures Valid()
      ensures State() == SendNext(old(State()), line, o)
      ensures log == old(log) + SendLog(line, o)
    {
      if line == ExitCommand {
        exiting := true;
        connected := false;
        sendDone := true;
        return;
      }
      match o
      case Sent(count) =>
        if count > 0 {
          log := log + [line];
        }
      case SendWouldBlock =>
      case SendFailed =>
        connected := false;
    }

    /** One iteration of recvThread: recv() writes into the buffer, the NUL
        goes after the data, and the id and the text are read back out of
        the buffer, however few bytes arrived. */
    method RecvIteration(o: RecvOutcome)
      requires Valid() && !recvDone && RecvFits(o)
      modifies this, rxBuf
      ensures Valid()
      ensures State() == RecvNext(old(State()), o)
      ensures log == old(log) + RecvLog(old(State()), old(rxBuf[..]), o)
      ensures rxBuf[..] == if old(exiting) || !o.Got? then old(rxBuf[..]) else Received(old(rxBuf[..]), o.data)
    {
      if exiting {
        recvDone := true;
        return;
      }
      match o
      case Got(data) =>
        var shown := ReceiveInto(rxBuf, data);
        log := log + [DisplayLine(LinePrefix, shown)];
      case PeerClosed =>
        connected := false;
      case RecvWouldBlock =>
      case RecvFailed =>
        connected := false;
    }

    /** One iteration of connectionCheckThread; `reconnectOk` is whether
        createClientSocket succeeded. */
    method CheckIteration(reconnectOk: bool)
      requires Valid() && !checkDone
      modifies this
      ensures Valid()
      ensures State() == CheckNext(old(State()), reconnectOk)
      ensures log == old(log)
    {
      if exiting {
        checkDone := true;
        return;
      }
      if !connected {
        if retries >= MaxRetries {
          exiting := true;
          checkDone := true;
          return;
        }
        if reconnectOk {
          connected := true;
          retries := 0;
        } else {
          retries := retries + 1;
        }
      }
    }
  }
}
