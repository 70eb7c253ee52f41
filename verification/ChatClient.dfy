/** The chat client: what is typed goes out through a queue with one write in flight,
    and what arrives is cut into frames and printed. Its runs against the room give
    the protocol's promise from one keyboard to another screen. */
module ChatClient {
  import opened Bytes
  import opened Options
  import opened Text
  import opened ChatMessage
  import opened WriteQueue
  import opened FrameStream
  import ChatRoom

  /** A handler that the main thread has posted to the io_context's thread. */
  datatype Posted = DoWrite(frame: bytes) | DoClose

  /** A client with its queue, its outstanding read, what it has received and cut
      into frames, what it has printed, the posted handlers that have not run yet,
      whether its socket is open, whether the connect is outstanding and whether the
      main loop still reads lines. */
  datatype Client = Client(out: Writer, reading: Reading, received: bytes, taken: seq<bytes>, printed: bytes,
                           posted: seq<Posted>, open: bool, connecting: bool, typing: bool)

  const NEW_CLIENT: Client := Client(IDLE, Stopped, [], [], [], [], true, true, true)

  /** Turns of the main loop, its end, and handlers run to their ends; posted ones
      run in the order they were posted. */
  datatype Event =
    | Connected(error: bool)
    | Typed(line: bytes)
    | Ended
    | PostedRuns
    | ReadDone(error: bool, data: bytes)
    | WriteDone(error: bool)

  /** The main loop's turn. A line longer than a body makes `getline` fail, which
      ends the loop as the end of input does; the text stops at a NUL. */
  function Type(c: Client, line: bytes): Client {
    if |line| > MAX_BODY_LENGTH then End(c) else c.(posted := c.posted + [DoWrite(FrameOf(UpToNul(line)))])
  }

  /** The end of the main loop: `close`. */
  function End(c: Client): Client {
    c.(posted := c.posted + [DoClose], typing := false)
  }

  function RunPosted(c: Client): Client
    requires c.posted != []
  {
    var d := c.(posted := c.posted[1..]);
    match c.posted[0]
    case DoWrite(frame) => d.(out := Push(c.out, frame))
    case DoClose => d.(open := false)
  }

  function ReadHeader(c: Client, error: bool, data: bytes): Client {
    if error then c.(reading := Stopped, open := false)
    else if DecodedLength(data).Some? then c.(reading := AwaitBody(data), received := c.received + data)
    else c.(reading := Stopped, received := c.received + data, open := false)
  }

  function ReadBody(c: Client, error: bool, data: bytes): Client
    requires c.reading.AwaitBody?
  {
    if error then c.(reading := Stopped, open := false)
    else c.(reading := AwaitHeader, received := c.received + data, taken := c.taken + [c.reading.header + data],
            printed := c.printed + data + [LF])
  }

  predicate Enabled(c: Client, ev: Event) {
    match ev
    case Connected(_) => c.connecting
    case Typed(_) => c.typing
    case Ended => c.typing
    case PostedRuns => c.posted != []
    case ReadDone(error, data) =>
      (match c.reading
       case AwaitHeader => error || |data| == HEADER_LENGTH
       case AwaitBody(header) => error || DecodedLength(header) == Some(|data|)
       case Stopped => false)
    case WriteDone(_) => c.out.inFlight.Some? && c.out.queue != []
  }

  function Step(c: Client, ev: Event): Client
    requires Enabled(c, ev)
  {
    match ev
    case Connected(error) => c.(connecting := false, reading := if error then Stopped else AwaitHeader)
    case Typed(line) => Type(c, line)
    case Ended => End(c)
    case PostedRuns => RunPosted(c)
    case ReadDone(error, data) => if c.reading.AwaitHeader? then ReadHeader(c, error, data) else ReadBody(c, error, data)
    case WriteDone(error) => c.(out := Complete(c.out, error), open := c.open && !error)
  }

  function After(evs: seq<Event>): Option<Client> {
    if evs == [] then Some(NEW_CLIENT)
    else match After(Front(evs))
      case None => None
      case Some(c) => if Enabled(c, Last(evs)) then Some(Step(c, Last(evs))) else None
  }

  /** What the frames of a conversation look like on the screen. */
  function Shown(fs: seq<bytes>): bytes {
    if fs == [] then []
    else Shown(Front(fs)) + (if |Last(fs)| < HEADER_LENGTH then [] else Last(fs)[HEADER_LENGTH..]) + [LF]
  }

  /** The frames that are still to be pushed. */
  function PostedFrames(ps: seq<Posted>): seq<bytes> {
    if ps == [] then [] else PostedFrames(Front(ps)) + (if Last(ps).DoWrite? then [Last(ps).frame] else [])
  }

  predicate Inv(c: Client) {
    && Sound(c.out) && (forall k :: 0 <= k < |c.posted| && c.posted[k].DoWrite? ==> ValidFrame(c.posted[k].frame))
    && ValidFrames(c.out.pushed)
    && ValidFrames(c.taken) && ReadSide(c.reading, c.received, c.taken) && c.printed == Shown(c.taken)
    && (c.connecting ==> c.reading.Stopped? && c.received == [] && c.taken == [])
  }

  lemma {:induction false} TypeKeeps(c: Client, line: bytes)
    requires Inv(c)
    ensures Inv(Type(c, line))
  {
    hide Sound, ReadSide, ValidFrame, UpToNul, FrameOf;
    if |line| <= MAX_BODY_LENGTH {
      TextShortens(line);
      FrameOfIsValid(UpToNul(line));
    }
  }

  lemma {:induction false} RunPostedKeeps(c: Client)
    requires Inv(c) && c.posted != []
    ensures Inv(RunPosted(c))
  {
    hide Sound, ReadSide, ValidFrame, Push;
    if c.posted[0].DoWrite? {
      PushSound(c.out, c.posted[0].frame);
      PushAppends(c.out, c.posted[0].frame);
    }
  }

  lemma {:induction false} PushAppends(w: Writer, f: bytes)
    ensures Push(w, f).pushed == w.pushed + [f]
  {
  }

  lemma {:induction false} ReadBodyKeeps(c: Client, data: bytes)
    requires Inv(c) && c.reading.AwaitBody? && DecodedLength(c.reading.header) == Some(|data|)
    ensures Inv(ReadBody(c, false, data))
  {
    hide Sound, DecodedLength, ValidFrame;
    var f := c.reading.header + data;
    ReadSideGrows(c.reading.header, c.received, c.taken, data);
    hide ReadSide;
    assert Front(c.taken + [f]) == c.taken && Last(c.taken + [f]) == f && f[HEADER_LENGTH..] == data;
  }

  lemma {:induction false} ReadHeaderKeeps(c: Client, error: bool, data: bytes)
    requires Inv(c) && c.reading.AwaitHeader? && (error || |data| == HEADER_LENGTH)
    ensures Inv(ReadHeader(c, error, data))
  {
    hide Sound, DecodedLength, ValidFrames;
    assert Concat(c.taken) + [] == Concat(c.taken);
  }

  lemma {:induction false} StepKeeps(c: Client, ev: Event)
    requires Inv(c) && Enabled(c, ev)
    ensures Inv(Step(c, ev))
  {
    hide Type, RunPosted, ReadHeader, ReadBody, DecodedLength, Sound, ValidFrames;
    match ev
    case Connected(error) =>
    case Typed(line) => TypeKeeps(c, line);
    case Ended =>
    case PostedRuns => RunPostedKeeps(c);
    case ReadDone(error, data) =>
      if c.reading.AwaitHeader? {
        ReadHeaderKeeps(c, error, data);
      } else if error {
        BodyErrorKeeps(c, data);
      } else {
        ReadBodyKeeps(c, data);
      }
    case WriteDone(error) =>
      CompleteSound(c.out, error);
  }

  lemma {:induction false} BodyErrorKeeps(c: Client, data: bytes)
    requires Inv(c) && c.reading.AwaitBody?
    ensures Inv(ReadBody(c, true, data))
  {
    hide Sound, ValidFrames, DecodedLength;
  }

  lemma {:induction false} AlwaysInv(evs: seq<Event>)
    requires After(evs).Some?
    ensures Inv(After(evs).value)
    decreases |evs|
  {
    if evs != [] {
      AlwaysInv(Front(evs));
      hide Inv, Step, Enabled;
      StepKeeps(After(Front(evs)).value, Last(evs));
    }
  }

  // ------------------------------------------------------------ the theorems

  /** The client too has a single write outstanding, of the front of its queue, and
      none once a write has failed. */
  lemma {:induction false} SingleWriter(evs: seq<Event>)
    requires After(evs).Some?
    ensures var out := After(evs).value.out;
            && (out.inFlight.Some? <==> out.queue != [] && !out.failed)
            && (out.inFlight.Some? ==> out.inFlight.value == out.queue[0])
            && out.written + out.queue == out.pushed
  {
    AlwaysInv(evs);
    hide After, ReadSide, ValidFrames;
  }

  /** The frame that a turn of the main loop makes, if any. */
  function Made(ev: Event): seq<bytes> {
    if ev.Typed? && |ev.line| <= MAX_BODY_LENGTH then [FrameOf(UpToNul(ev.line))] else []
  }

  /** The frames made of the lines typed. */
  function FramesOf(evs: seq<Event>): seq<bytes> {
    if evs == [] then [] else FramesOf(Front(evs)) + Made(Last(evs))
  }

  lemma {:induction false} PostedFramesSplit(ps: seq<Posted>)
    requires ps != []
    ensures PostedFrames(ps) == (if ps[0].DoWrite? then [ps[0].frame] else []) + PostedFrames(ps[1..])
    decreases |ps|
  {
    if |ps| == 1 {
      assert Front(ps) == [] && ps[1..] == [];
    } else {
      PostedFramesSplit(Front(ps));
      assert Front(ps)[1..] == Front(ps[1..]);
    }
  }

  /** What has been written, what is queued and what is posted are the lines typed, as
      frames, in order. */
  lemma {:induction false} QueuedIsTyped(evs: seq<Event>, c: Client)
    requires After(evs) == Some(c)
    ensures c.out.written + c.out.queue + PostedFrames(c.posted) == FramesOf(evs)
  {
    PushedIsTyped(evs, c);
    SingleWriter(evs);
  }

  /** A step moves frames along and adds at most the one just made. */
  lemma {:induction false} StepMoves(c: Client, ev: Event)
    requires Enabled(c, ev)
    ensures var d := Step(c, ev);
            d.out.pushed + PostedFrames(d.posted) == c.out.pushed + PostedFrames(c.posted) + Made(ev)
  {
    hide DecodedLength, FrameOf, UpToNul;
    var d := Step(c, ev);
    var ps := PostedFrames(c.posted);
    match ev
    case Typed(_) =>
      assert Front(d.posted) == c.posted;
      assert c.out.pushed + ps + Made(ev) == c.out.pushed + (ps + Made(ev));
    case Ended =>
      assert Front(d.posted) == c.posted;
      assert ps + [] == ps && c.out.pushed + ps + [] == c.out.pushed + ps;
    case PostedRuns =>
      hide PostedFrames, Push;
      RunPostedMoves(c);
    case _ =>
      assert c.out.pushed + ps + [] == c.out.pushed + ps;
  }

  lemma {:induction false} RunPostedMoves(c: Client)
    requires c.posted != []
    ensures var d := RunPosted(c);
            d.out.pushed + PostedFrames(d.posted) == c.out.pushed + PostedFrames(c.posted) + []
  {
    PostedFramesSplit(c.posted);
    hide PostedFrames;
    if c.posted[0].DoWrite? {
      PushAppends(c.out, c.posted[0].frame);
      Assoc(c.out.pushed, [c.posted[0].frame], PostedFrames(c.posted[1..]));
    } else {
      assert [] + PostedFrames(c.posted[1..]) == PostedFrames(c.posted[1..]);
    }
  }

  lemma {:induction false} PushedIsTyped(evs: seq<Event>, c: Client)
    requires After(evs) == Some(c)
    ensures c.out.pushed + PostedFrames(c.posted) == FramesOf(evs)
    decreases |evs|
  {
    if evs != [] {
      var b := After(Front(evs)).value;
      PushedIsTyped(Front(evs), b);
      hide Step, Enabled, Made, PostedFrames;
      StepMoves(b, Last(evs));
    }
  }

  /** Once a write has failed nothing is written any more, whatever is typed. */
  lemma {:induction false} FailedStays(evs: seq<Event>, more: seq<Event>)
    requires After(evs).Some? && After(evs).value.out.failed && After(evs + more).Some?
    ensures var before, after := After(evs).value.out, After(evs + more).value.out;
            after.failed && after.inFlight.None? && after.written == before.written
    decreases |more|
  {
    SingleWriter(evs + more);
    if more == [] {
      assert evs + more == evs;
    } else {
      assert Front(evs + more) == evs + Front(more) && Last(evs + more) == Last(more);
      FailedStays(evs, Front(more));
      hide DecodedLength, FrameOf, UpToNul;
    }
  }

  /** What makes the client close its socket: the close posted at the end of the input,
      a failure of a read or write, or a header that is refused. */
  predicate Closing(c: Client, ev: Event) {
    match ev
    case Connected(_) => false
    case Typed(_) => false
    case Ended => false
    case PostedRuns => c.posted != [] && c.posted[0].DoClose?
    case ReadDone(error, data) => error || (c.reading.AwaitHeader? && DecodedLength(data).None?)
    case WriteDone(error) => error
  }

  predicate Undisturbed(evs: seq<Event>, k: nat) {
    k < |evs| && After(evs[..k]).Some? && !Closing(After(evs[..k]).value, evs[k])
  }

  /** The socket is open exactly as long as nothing of that kind has happened. */
  lemma {:induction false} OpenIffUndisturbed(evs: seq<Event>)
    requires After(evs).Some?
    ensures After(evs).value.open <==> forall k :: 0 <= k < |evs| ==> Undisturbed(evs, k)
    decreases |evs|
  {
    hide DecodedLength;
    if evs != [] {
      var n := |evs| - 1;
      OpenIffUndisturbed(Front(evs));
      assert Front(evs) == evs[..n];
      forall k | 0 <= k < n ensures Undisturbed(evs, k) <==> Undisturbed(Front(evs), k) {
        assert Front(evs)[..k] == evs[..k];
      }
      assert Undisturbed(evs, n) <==> !Closing(After(Front(evs)).value, Last(evs));
    }
  }

  /** What stops the read loop: a connect or a read that fails, or four bytes whose
      number is no length of a body. */
  predicate Stops(c: Client, ev: Event) {
    || (ev.Connected? && ev.error)
    || (ev.ReadDone? && (ev.error || (c.reading.AwaitHeader? && !(0 <= Atoi(UpToNul(ev.data)) <= 512))))
  }

  predicate StopsAt(evs: seq<Event>, k: nat) {
    k < |evs| && After(evs[..k]).Some? && Stops(After(evs[..k]).value, evs[k])
  }

  lemma {:induction false} StepReads(c: Client, ev: Event)
    requires Inv(c) && Enabled(c, ev)
    ensures var d := Step(c, ev);
            && d.connecting == (c.connecting && !ev.Connected?)
            && (d.reading.Stopped? <==> d.connecting || (c.reading.Stopped? && !c.connecting) || Stops(c, ev))
  {
    if ev.ReadDone? && !ev.error && c.reading.AwaitHeader? {
      DecodedExactly(ev.data);
    }
    hide DecodedLength, Sound, ReadSide, ValidFrames, Push, Complete, Atoi, UpToNul, FrameOf;
  }

  /** In every reachable state the client reads exactly if the connect has completed
      and neither it nor a read has failed, nor a header was refused. */
  lemma {:induction false} ReadsIff(evs: seq<Event>, c: Client)
    requires After(evs) == Some(c)
    ensures c.connecting <==> forall k :: 0 <= k < |evs| ==> !evs[k].Connected?
    ensures c.reading.Stopped? <==> c.connecting || exists k :: 0 <= k < |evs| && StopsAt(evs, k)
    decreases |evs|
  {
    hide Step, Enabled, Stops, Inv;
    if evs != [] {
      var n := |evs| - 1;
      var b := After(Front(evs)).value;
      AlwaysInv(Front(evs));
      ReadsIff(Front(evs), b);
      StepReads(b, Last(evs));
      assert Front(evs) == evs[..n];
      assert StopsAt(evs, n) <==> Stops(b, Last(evs));
      forall k | 0 <= k < n ensures StopsAt(evs, k) <==> StopsAt(Front(evs), k) {
        assert Front(evs)[..k] == evs[..k];
      }
      if b.connecting {
        NoStopBeforeConnect(Front(evs), b);
      }
    }
  }

  /** While the connect is outstanding there has been no read. */
  lemma {:induction false} NoStopBeforeConnect(evs: seq<Event>, c: Client)
    requires After(evs) == Some(c) && c.connecting
    ensures forall k :: 0 <= k < |evs| ==> !StopsAt(evs, k)
    decreases |evs|
  {
    hide Inv, Step, Enabled, Stops;
    if evs != [] {
      var n := |evs| - 1;
      var b := After(Front(evs)).value;
      AlwaysInv(Front(evs));
      AlwaysInv(evs);
      StepReads(b, Last(evs));
      NoStopBeforeConnect(Front(evs), b);
      NotWhileConnecting(b, Last(evs));
      assert Front(evs) == evs[..n];
      forall k | 0 <= k < |evs| ensures !StopsAt(evs, k) {
        if k < n {
          assert Front(evs)[..k] == evs[..k] && !StopsAt(Front(evs), k);
        }
      }
    }
  }

  lemma {:induction false} NotWhileConnecting(c: Client, ev: Event)
    requires Inv(c) && Enabled(c, ev) && Step(c, ev).connecting
    ensures !Stops(c, ev)
  {
    hide DecodedLength, Sound, ReadSide, ValidFrames, Push, Complete, Atoi, UpToNul, FrameOf;
  }

  predicate NoReadFailed(evs: seq<Event>) {
    forall k :: 0 <= k < |evs| ==> !(evs[k].ReadDone? && evs[k].error)
  }

  /** Without a failed read, a loop that does not run has never run, no connect having
      succeeded, or has refused a header. */
  predicate Idle(c: Client, connected: bool) {
    && (connected ==> !c.connecting)
    && (c.reading.Stopped? ==> (!connected && c.received == [] && c.taken == []) || RefusedRest(c.received, c.taken))
  }

  lemma {:induction false} StepIdle(c: Client, ev: Event, connected: bool)
    requires Inv(c) && Enabled(c, ev) && Idle(c, connected) && !(ev.ReadDone? && ev.error)
    ensures Idle(Step(c, ev), connected || ev == Connected(false))
  {
    hide DecodedLength, Sound, ValidFrames, Push, Complete, FrameOf, UpToNul, Concat;
    if ev.ReadDone? && c.reading.AwaitHeader? {
      assert Concat(c.taken) + [] == Concat(c.taken);
      assert (c.received + ev.data)[|c.received|..] == ev.data;
    }
  }

  lemma {:induction false} AlwaysIdle(evs: seq<Event>, c: Client)
    requires After(evs) == Some(c) && NoReadFailed(evs)
    ensures Idle(c, Connected(false) in evs)
    decreases |evs|
  {
    if evs != [] {
      hide Inv, Step, Enabled, Idle;
      AlwaysInv(Front(evs));
      AlwaysIdle(Front(evs), After(Front(evs)).value);
      StepIdle(After(Front(evs)).value, Last(evs), Connected(false) in Front(evs));
      assert evs == Front(evs) + [Last(evs)];
    } else {
      hide Inv, Step, Enabled;
    }
  }

  /** A client whose connect has succeeded and whose reads have not failed goes on
      reading as long as what it is sent is the beginning of a stream of well-formed
      frames; and once all of that has arrived, all of it is taken. */
  lemma {:induction false} GoodStreamIsTaken(evs: seq<Event>, c: Client, sent: seq<bytes>)
    requires After(evs) == Some(c) && NoReadFailed(evs)
    requires ValidFrames(sent) && c.received <= Concat(sent)
    ensures Connected(false) in evs ==> !c.reading.Stopped?
    ensures c.received == Concat(sent) ==> AllTaken(c.reading, c.taken, sent)
  {
    AlwaysIdle(evs, c);
    TakenFrames(evs);
    NothingRefused(c.received, c.taken, sent);
    hide After, ReadSide, ValidFrames, Concat;
    if c.received == Concat(sent) {
      if c.reading.Stopped? {
        if sent != [] {
          SomeFrame(sent);
        }
        assert Concat([]) == [];
      } else {
        ArrivedIsTaken(c.reading, c.received, c.taken, sent);
      }
    }
  }

  function Arrives(ev: Event): bytes {
    if ev.ReadDone? && !ev.error then ev.data else []
  }

  /** All that has been read, and how often a write succeeded. */
  function Arrived(evs: seq<Event>): bytes {
    if evs == [] then [] else Arrived(Front(evs)) + Arrives(Last(evs))
  }

  function Writes(evs: seq<Event>): nat {
    if evs == [] then 0 else Writes(Front(evs)) + (if Last(evs) == WriteDone(false) then 1 else 0)
  }

  lemma {:induction false} StepConserves(c: Client, ev: Event)
    requires Enabled(c, ev)
    ensures var d := Step(c, ev);
            && d.received == c.received + Arrives(ev)
            && |d.out.written| == |c.out.written| + (if ev == WriteDone(false) then 1 else 0)
            && (d.out.failed <==> c.out.failed || ev == WriteDone(true))
  {
    hide DecodedLength, FrameOf, UpToNul;
    assert c.received + [] == c.received;
  }

  /** The client has received exactly what was read, has written one frame for each
      write that succeeded, and has failed exactly if a write has. */
  lemma {:induction false} Conserved(evs: seq<Event>, c: Client)
    requires After(evs) == Some(c)
    ensures c.received == Arrived(evs) && |c.out.written| == Writes(evs) && (c.out.failed <==> WriteDone(true) in evs)
    decreases |evs|
  {
    if evs != [] {
      var b := After(Front(evs)).value;
      Conserved(Front(evs), b);
      hide Step, Enabled, Arrives;
      StepConserves(b, Last(evs));
      assert evs == Front(evs) + [Last(evs)];
    }
  }

  /** The main loop has ended exactly if the input has, or a line was longer than 512
      bytes; and as soon as it has, the close is the last handler posted, and all have
      run only once the socket is closed. */
  lemma {:induction false} ClosesAtEnd(evs: seq<Event>, c: Client)
    requires After(evs) == Some(c)
    ensures c.typing <==> forall k :: 0 <= k < |evs| ==> !evs[k].Ended? && !(evs[k].Typed? && |evs[k].line| > 512)
    ensures c.typing ==> DoClose !in c.posted
    ensures !c.typing ==> if c.posted == [] then !c.open else Last(c.posted) == DoClose && DoClose !in Front(c.posted)
    decreases |evs|
  {
    if evs != [] {
      ClosesAtEnd(Front(evs), After(Front(evs)).value);
      assert forall k :: 0 <= k < |evs| - 1 ==> evs[k] == Front(evs)[k];
      assert evs[|evs| - 1] == Last(evs);
      StepCloses(After(Front(evs)).value, Last(evs));
      hide After, Step, Enabled;
    }
  }

  predicate Closed(c: Client) {
    if c.typing then DoClose !in c.posted
    else if c.posted == [] then !c.open
    else Last(c.posted) == DoClose && DoClose !in Front(c.posted)
  }

  lemma {:induction false} StepCloses(c: Client, ev: Event)
    requires Enabled(c, ev) && Closed(c)
    ensures Closed(Step(c, ev))
    ensures Step(c, ev).typing <==> c.typing && !ev.Ended? && !(ev.Typed? && |ev.line| > 512)
  {
    hide DecodedLength, FrameOf, UpToNul, Push, Complete;
  }

  /** The screen shows the bodies of the frames in the bytes received, one a line,
      in order; all of them, whenever the client waits for a header. */
  lemma {:induction false} PrintsWhatArrives(evs: seq<Event>)
    requires After(evs).Some?
    ensures var c := After(evs).value;
            c.taken <= ParseFrames(c.received) && c.printed == Shown(c.taken)
            && (c.reading.AwaitHeader? ==> c.printed == Shown(ParseFrames(c.received)))
  {
    AlwaysInv(evs);
    var c := After(evs).value;
    hide After, Sound, ParseFrames, ValidFrames;
    ReadSideParses(c.reading, c.received, c.taken);
  }

  lemma {:induction false} TakenFrames(evs: seq<Event>)
    requires After(evs).Some?
    ensures var c := After(evs).value;
            ReadSide(c.reading, c.received, c.taken) && ValidFrames(c.taken) && c.printed == Shown(c.taken)
  {
    AlwaysInv(evs);
    hide After, ReadSide, ValidFrames, Shown;
  }

  /** A reader behind a writer that was handed a piece of the log has taken the
      beginning of that piece; all of it, once everything is written and received. */
  lemma {:induction false} TakenIsSlice(out: Writer, down: bytes, b: seq<Event>, c: Client, log: seq<bytes>, from: nat, to: nat)
    requires Sound(out) && OnWire(out, down) && After(b) == Some(c) && c.received <= down
    requires ValidFrames(log) && from <= to <= |log| && out.pushed == log[from..to]
    ensures from + |c.taken| <= to && c.taken == log[from..from + |c.taken|]
    ensures out.queue == [] && c.received == down && NoReadFailed(b) ==> AllTaken(c.reading, c.taken, log[from..to])
  {
    hide *;
    SliceValid(log, from, to);
    TakenFrames(b);
    WireIsPrefix(out, down);
    PrefixOfPrefix(c.received, down, Concat(out.pushed));
    ParsePrefix(out.pushed, c.received);
    ReadSideParses(c.reading, c.received, c.taken);
    PrefixOfPrefix(c.taken, ParseFrames(c.received), out.pushed);
    PrefixOfSlice(c.taken, log, from, to);
    if out.queue == [] && c.received == down && NoReadFailed(b) {
      GoodStreamIsTaken(b, c, out.pushed);
    }
  }

  lemma {:induction false} SliceValid(fs: seq<bytes>, from: nat, to: nat)
    requires ValidFrames(fs) && from <= to <= |fs|
    ensures ValidFrames(fs[from..to])
  {
    hide ValidFrame;
  }

  lemma {:induction false} PrefixOfSlice<T>(a: seq<T>, s: seq<T>, from: nat, to: nat)
    requires from <= to <= |s| && a <= s[from..to]
    ensures from + |a| <= to && a == s[from..from + |a|]
  {
    assert a == s[from..to][..|a|];
  }

  /** From keyboard to screen. Client a talks to session i and client b to session j:
      the network hands over beginnings of what each side has put on the wire. Then
      what session i has posted is the beginning of what was typed at a, frame by
      frame in order; and b has printed, in order and without a gap, the bodies of
      the room's log from at most 100 before its session joined, and none from after
      it left. Either is all of it once nothing waits to be written, everything
      written has been received and no read of the receiver has failed, but for an
      empty body still being read. */
  lemma {:induction false} EndToEnd(run: seq<ChatRoom.Event>, w: ChatRoom.World, a: seq<Event>, sender: Client,
                                    b: seq<Event>, reader: Client, i: nat, j: nat, up: bytes, down: bytes)
    requires ChatRoom.After(run) == Some(w) && After(a) == Some(sender) && After(b) == Some(reader)
    requires i < |w.sessions| && j < |w.sessions|
    requires OnWire(sender.out, up) && w.sessions[i].received <= up
    requires OnWire(w.sessions[j].out, down) && reader.received <= down
    ensures ChatRoom.By(w.log, i) <= FramesOf(a)
    ensures sender.posted == [] && sender.out.queue == [] && w.sessions[i].received == up && ChatRoom.NoReadFailed(run, i)
            ==> AllTaken(w.sessions[i].reading, ChatRoom.By(w.log, i), FramesOf(a))
    ensures var from, to := ChatRoom.Since(w.sessions[j].joined), ChatRoom.Until(w.sessions[j], |w.log|);
            && from + |reader.taken| <= to <= |w.log|
            && reader.printed == Shown(ChatRoom.Frames(w.log)[from..from + |reader.taken|])
            && (w.sessions[j].out.queue == [] && reader.received == down && NoReadFailed(b)
                ==> AllTaken(reader.reading, reader.taken, ChatRoom.Frames(w.log)[from..to]))
  {
    PostedNothing();
    hide *;
    PushedIsTyped(a, sender);
    TypedIsPosted(run, w, a, sender, i, up);
    PrefixOfPrefix(ChatRoom.By(w.log, i), sender.out.pushed, FramesOf(a));
    assert sender.out.pushed + [] == sender.out.pushed;
    PrintedIsLog(run, w, b, reader, j, down);
  }

  lemma {:induction false} PostedNothing()
    ensures PostedFrames([]) == []
  {
  }

  lemma {:induction false} TypedIsPosted(run: seq<ChatRoom.Event>, w: ChatRoom.World, a: seq<Event>, sender: Client, i: nat, up: bytes)
    requires ChatRoom.After(run) == Some(w) && After(a) == Some(sender) && i < |w.sessions|
    requires OnWire(sender.out, up) && w.sessions[i].received <= up
    ensures ChatRoom.By(w.log, i) <= sender.out.pushed
    ensures sender.out.queue == [] && w.sessions[i].received == up && ChatRoom.NoReadFailed(run, i)
            ==> AllTaken(w.sessions[i].reading, ChatRoom.By(w.log, i), sender.out.pushed)
  {
    AlwaysInv(a);
    assert Sound(sender.out) && ValidFrames(sender.out.pushed);
    hide *;
    WireIsPrefix(sender.out, up);
    PrefixOfPrefix(w.sessions[i].received, up, Concat(sender.out.pushed));
    ChatRoom.StreamIsPosted(run, w, i, sender.out.pushed);
  }

  lemma {:induction false} PrintedIsLog(run: seq<ChatRoom.Event>, w: ChatRoom.World, b: seq<Event>, reader: Client, j: nat, down: bytes)
    requires ChatRoom.After(run) == Some(w) && After(b) == Some(reader) && j < |w.sessions|
    requires OnWire(w.sessions[j].out, down) && reader.received <= down
    ensures var from, to := ChatRoom.Since(w.sessions[j].joined), ChatRoom.Until(w.sessions[j], |w.log|);
            && from + |reader.taken| <= to <= |w.log|
            && reader.printed == Shown(ChatRoom.Frames(w.log)[from..from + |reader.taken|])
            && (w.sessions[j].out.queue == [] && reader.received == down && NoReadFailed(b)
                ==> AllTaken(reader.reading, reader.taken, ChatRoom.Frames(w.log)[from..to]))
  {
    hide *;
    TakenFrames(b);
    ChatRoom.HandedSlice(run, j);
    var s, log := w.sessions[j], ChatRoom.Frames(w.log);
    TakenIsSlice(s.out, down, b, reader, log, ChatRoom.Since(s.joined), ChatRoom.Until(s, |log|));
  }

  lemma {:induction false} ShownJoins(a: seq<bytes>, b: seq<bytes>)
    ensures Shown(a + b) == Shown(a) + Shown(b)
    decreases |b|
  {
    if b == [] {
      assert a + b == a;
    } else {
      var f := Last(b);
      var body := if |f| < HEADER_LENGTH then [] else f[HEADER_LENGTH..];
      ShownJoins(a, Front(b));
      assert Front(a + b) == a + Front(b) && Last(a + b) == f;
      Assoc(Shown(a), Shown(Front(b)), body);
      Assoc(Shown(a), Shown(Front(b)) + body, [LF]);
    }
  }

  lemma {:induction false} ShownInThree(log: seq<bytes>, from: nat, lo: nat, hi: nat, to: nat)
    requires from <= lo <= hi <= to <= |log|
    ensures Shown(log[from..to]) == Shown(log[from..lo]) + Shown(log[lo..hi]) + Shown(log[hi..to])
  {
    assert log[from..to] == log[from..lo] + log[lo..hi] + log[hi..to];
    ShownJoins(log[from..lo], log[lo..hi]);
    ShownJoins(log[from..lo] + log[lo..hi], log[hi..to]);
  }

  /** Two screens agree: where what the two clients have taken of the room's log
      overlaps, from lo to hi, both show the very same text, between what only one of
      them was there for before and what only one has got to behind. */
  lemma {:induction false} ScreensAgree(run: seq<ChatRoom.Event>, w: ChatRoom.World, a: seq<Event>, one: Client,
                                        b: seq<Event>, two: Client, i: nat, j: nat, downOne: bytes, downTwo: bytes)
    requires ChatRoom.After(run) == Some(w) && After(a) == Some(one) && After(b) == Some(two)
    requires i < |w.sessions| && j < |w.sessions|
    requires OnWire(w.sessions[i].out, downOne) && one.received <= downOne
    requires OnWire(w.sessions[j].out, downTwo) && two.received <= downTwo
    ensures var log := ChatRoom.Frames(w.log);
            var fromOne, fromTwo := ChatRoom.Since(w.sessions[i].joined), ChatRoom.Since(w.sessions[j].joined);
            var toOne, toTwo := fromOne + |one.taken|, fromTwo + |two.taken|;
            var lo, hi := if fromOne < fromTwo then fromTwo else fromOne, if toOne < toTwo then toOne else toTwo;
            toOne <= |log| && toTwo <= |log| &&
            (lo <= hi ==>
               && one.printed == Shown(log[fromOne..lo]) + Shown(log[lo..hi]) + Shown(log[hi..toOne])
               && two.printed == Shown(log[fromTwo..lo]) + Shown(log[lo..hi]) + Shown(log[hi..toTwo]))
  {
    hide *;
    PrintedIsLog(run, w, a, one, i, downOne);
    PrintedIsLog(run, w, b, two, j, downTwo);
    var log := ChatRoom.Frames(w.log);
    var fromOne, fromTwo := ChatRoom.Since(w.sessions[i].joined), ChatRoom.Since(w.sessions[j].joined);
    var toOne, toTwo := fromOne + |one.taken|, fromTwo + |two.taken|;
    var lo, hi := if fromOne < fromTwo then fromTwo else fromOne, if toOne < toTwo then toOne else toTwo;
    if lo <= hi {
      ShownInThree(log, fromOne, lo, hi, toOne);
      ShownInThree(log, fromTwo, lo, hi, toTwo);
    }
  }

  /** Nothing is stuck: a client that reads can be sent something or fail, posted
      handlers can run, and messages queued can be written unless a write has failed. */
  lemma {:induction false} NothingStuck(evs: seq<Event>, c: Client, error: bool, data: bytes)
    requires After(evs) == Some(c)
    ensures After(evs + [Connected(error)]).Some? <==> c.connecting
    ensures After(evs + [Typed(data)]).Some? <==> c.typing
    ensures After(evs + [Ended]).Some? <==> c.typing
    ensures After(evs + [PostedRuns]).Some? <==> c.posted != []
    ensures After(evs + [ReadDone(true, data)]).Some? <==> !c.reading.Stopped?
    ensures !c.reading.Stopped? ==> exists d: bytes :: After(evs + [ReadDone(false, d)]).Some?
    ensures After(evs + [WriteDone(error)]).Some? <==> c.out.queue != [] && WriteDone(true) !in evs
  {
    Conserved(evs, c);
    SingleWriter(evs);
    CanRead(evs, c);
    hide After, DecodedLength, Sound;
    Extends(evs, c, Connected(error));
    Extends(evs, c, Typed(data));
    Extends(evs, c, Ended);
    Extends(evs, c, PostedRuns);
    Extends(evs, c, ReadDone(true, data));
    Extends(evs, c, WriteDone(error));
  }

  lemma {:induction false} CanRead(evs: seq<Event>, c: Client)
    requires After(evs) == Some(c)
    ensures !c.reading.Stopped? ==> exists d: bytes :: After(evs + [ReadDone(false, d)]).Some?
  {
    TakenFrames(evs);
    var d: bytes := seq(if c.reading.AwaitBody? then DecodedLength(c.reading.header).value else 4, _ => 0);
    Extends(evs, c, ReadDone(false, d));
    hide After, DecodedLength, ValidFrames, Shown;
  }

  lemma {:induction false} Extends(evs: seq<Event>, c: Client, ev: Event)
    requires After(evs) == Some(c)
    ensures After(evs + [ev]).Some? <==> Enabled(c, ev)
  {
    assert Front(evs + [ev]) == evs && Last(evs + [ev]) == ev;
    hide Enabled, Step;
  }

  // ------------------------------------------------------ reading the screen

  /** A text cut at every line feed; what is behind the last one is no line. */
  function LinesOf(s: bytes): seq<bytes> {
    if s == [] then []
    else if Last(s) != 10 then LinesOf(Front(s))
    else LinesOf(Front(s)) + [Tail(Front(s))]
  }

  /** What is behind the last line feed. */
  function Tail(s: bytes): bytes {
    if s == [] || Last(s) == 10 then [] else Tail(Front(s)) + [Last(s)]
  }

  lemma {:induction false} ByteAdded(s: bytes, b: byte)
    ensures b == 10 ==> LinesOf(s + [b]) == LinesOf(s) + [Tail(s)] && Tail(s + [b]) == []
    ensures b != 10 ==> LinesOf(s + [b]) == LinesOf(s) && Tail(s + [b]) == Tail(s) + [b]
  {
    assert Front(s + [b]) == s && Last(s + [b]) == b;
  }

  lemma {:induction false} TextAdded(s: bytes, t: bytes)
    requires 10 !in t
    ensures LinesOf(s + t) == LinesOf(s) && Tail(s + t) == Tail(s) + t
    decreases |t|
  {
    hide LinesOf, Tail;
    if t == [] {
      assert s + t == s && Tail(s) + t == Tail(s);
    } else {
      TextAdded(s, Front(t));
      ByteAdded(s + Front(t), Last(t));
      assert t == Front(t) + [Last(t)];
      Assoc(s, Front(t), [Last(t)]);
      Assoc(Tail(s), Front(t), [Last(t)]);
    }
  }

  /** Each message is a line of its own on the screen: if no body holds a line feed,
      as no line typed does, the lines are the bodies of the messages, in order. */
  lemma {:induction false} ScreenIsLines(fs: seq<bytes>)
    requires forall i :: 0 <= i < |fs| ==> |fs[i]| >= 4 && 10 !in fs[i][4..]
    ensures var lines := LinesOf(Shown(fs));
            && |lines| == |fs| && (forall i :: 0 <= i < |fs| ==> lines[i] == fs[i][4..])
            && Tail(Shown(fs)) == []
    decreases |fs|
  {
    assert LinesOf([]) == [] && Tail([]) == [];
    if fs != [] {
      var f, s := Last(fs), Shown(Front(fs));
      assert forall i :: 0 <= i < |fs| - 1 ==> Front(fs)[i] == fs[i];
      ScreenIsLines(Front(fs));
      TextAdded(s, f[4..]);
      ByteAdded(s + f[4..], LF);
      hide LinesOf, Tail;
      assert [] + f[4..] == f[4..];
    }
  }

  // -------------------------------------------------------------- the object

  class ChatClient {
    const readMsg: Message
    var writeMsgs: seq<bytes>
    var reading: Reading
    /** The socket, the connect and the main loop. */
    var open: bool
    var connecting: bool
    var typing: bool
    /** The handlers posted and not yet run. */
    var posted: seq<Posted>
    /** The standard output. */
    var printed: bytes
    ghost var inFlight: Option<bytes>
    ghost var failed: bool
    ghost var written: seq<bytes>
    ghost var pushed: seq<bytes>
    ghost var received: bytes
    ghost var taken: seq<bytes>

    ghost function Value(): Client
      reads this
    {
      Client(Writer(writeMsgs, inFlight, failed, written, pushed), reading, received, taken, printed, posted, open, connecting, typing)
    }

    ghost predicate Valid()
      reads this, readMsg, readMsg.data
    {
      && readMsg.Valid()
      && (reading.AwaitBody? ==>
            && readMsg.data[..HEADER_LENGTH] == reading.header
            && DecodedLength(reading.header) == Some(readMsg.bodyLength))
    }

    constructor ()
      ensures Valid() && Value() == NEW_CLIENT && fresh(readMsg) && fresh(readMsg.data)
    {
      readMsg := new Message();
      writeMsgs, inFlight, failed, written, pushed := [], None, false, [], [];
      reading, received, taken, printed, posted := Stopped, [], [], [], [];
      open, connecting, typing := true, true, true;
    }

    method DoClose()
      modifies this`open
      ensures !open
    {
      open := false;
    }

    method HandleConnect(error: bool)
      requires Valid() && connecting && reading.Stopped?
      modifies this`connecting, this`reading
      ensures Valid() && Value() == Step(old(Value()), Connected(error))
    {
      connecting := false;
      if !error {
        reading := AwaitHeader;
      }
    }

    /** One turn of the loop in `main`, with the line `getline` would read. */
    method Turn(line: bytes)
      requires Valid() && typing
      modifies this`posted, this`typing
      ensures Valid() && Value() == Step(old(Value()), Typed(line))
    {
      if |line| > MAX_BODY_LENGTH {
        Finish();
        return;
      }
      TextShortens(line);
      var msg := new Message();
      msg.Compose(UpToNul(line));
      Write(msg.Wire());
    }

    /** After the loop. */
    method Finish()
      requires Valid() && typing
      modifies this`posted, this`typing
      ensures Valid() && Value() == Step(old(Value()), Ended)
    {
      typing := false;
      Close();
    }

    /** `write` posts a handler with a copy of the message. */
    method Write(msg: bytes)
      modifies this`posted
      ensures posted == old(posted) + [Posted.DoWrite(msg)]
    {
      posted := posted + [Posted.DoWrite(msg)];
    }

    method Close()
      modifies this`posted
      ensures posted == old(posted) + [Posted.DoClose]
    {
      posted := posted + [Posted.DoClose];
    }

    /** The io_context runs the handler posted first. */
    method HandlePosted()
      requires Valid() && posted != []
      modifies this`posted, this`writeMsgs, this`inFlight, this`pushed, this`open
      ensures Valid() && Value() == Step(old(Value()), PostedRuns)
    {
      var handler := posted[0];
      posted := posted[1..];
      match handler
      case DoWrite(frame) => DoWrite(frame);
      case DoClose => DoClose();
    }

    method DoWrite(msg: bytes)
      modifies this`writeMsgs, this`inFlight, this`pushed
      ensures Value() == old(Value()).(out := Push(old(Value()).out, msg))
    {
      var writeInProgress := writeMsgs != [];
      writeMsgs := writeMsgs + [msg];
      pushed := pushed + [msg];
      if !writeInProgress {
        inFlight := Some(writeMsgs[0]);
      }
    }

    method HandleWrite(error: bool)
      requires Valid() && inFlight.Some? && writeMsgs != []
      modifies this`writeMsgs, this`inFlight, this`written, this`failed, this`open
      ensures Valid() && Value() == Step(old(Value()), WriteDone(error))
    {
      ghost var buffer := inFlight.value;
      inFlight := None;
      if !error {
        written := written + [buffer];
        writeMsgs := writeMsgs[1..];
        if writeMsgs != [] {
          inFlight := Some(writeMsgs[0]);
        }
      } else {
        failed := true;
        DoClose();
      }
    }

    /** The read of a header has completed with an error or with `data`. */
    method HandleReadHeader(error: bool, data: bytes)
      requires Valid() && reading.AwaitHeader? && (error || |data| == HEADER_LENGTH)
      modifies this`reading, this`received, this`open, readMsg`bodyLength, readMsg.data
      ensures Valid() && Value() == Step(old(Value()), ReadDone(error, data))
    {
      hide DecodedLength;
      var ok := false;
      if !error {
        readMsg.Fill(0, data);
        received := received + data;
        assert readMsg.data[..HEADER_LENGTH] == data;
        ok := readMsg.DecodeHeader();
      }
      if !error && ok {
        reading := AwaitBody(data);
      } else {
        reading := Stopped;
        DoClose();
      }
    }

    /** The read of a body has completed with an error or with `data`. */
    method HandleReadBody(error: bool, data: bytes)
      requires Valid() && reading.AwaitBody? && (error || DecodedLength(reading.header) == Some(|data|))
      modifies this`reading, this`received, this`open, this`printed, this`taken, readMsg.data
      ensures Valid() && Value() == Step(old(Value()), ReadDone(error, data))
    {
      hide DecodedLength;
      if !error {
        readMsg.Fill(HEADER_LENGTH, data);
        received := received + data;
        taken := taken + [reading.header + data];
        assert readMsg.data[..][HEADER_LENGTH..HEADER_LENGTH + readMsg.bodyLength] == data;
        printed := printed + readMsg.data[HEADER_LENGTH..HEADER_LENGTH + readMsg.bodyLength];
        printed := printed + [LF];
        reading := AwaitHeader;
      } else {
        reading := Stopped;
        DoClose();
      }
    }

    /** A turn of the main loop, or the handler of a completion or of a post. */
    method Dispatch(ev: Event)
      requires Valid() && Enabled(Value(), ev) && Inv(Value())
      modifies this, readMsg, readMsg.data
      ensures Valid() && Value() == Step(old(Value()), ev)
    {
      hide DecodedLength, Sound, ReadSide, ValidFrames;
      match ev
      case Connected(error) => HandleConnect(error);
      case Typed(line) => Turn(line);
      case Ended => Finish();
      case PostedRuns => HandlePosted();
      case ReadDone(error, data) =>
        if reading.AwaitHeader? {
          HandleReadHeader(error, data);
        } else {
          HandleReadBody(error, data);
        }
      case WriteDone(error) => HandleWrite(error);
    }

    /** Any possible run takes the object through the states of the transition system. */
    method Run(evs: seq<Event>)
      requires Valid() && Value() == NEW_CLIENT && After(evs).Some?
      modifies this, readMsg, readMsg.data
      ensures Valid() && Some(Value()) == After(evs)
    {
      hide Enabled, Step, Inv;
      var i := 0;
      while i < |evs|
        invariant 0 <= i <= |evs| && Valid() && Some(Value()) == After(evs[..i])
      {
        PrefixPossible(evs, i + 1);
        AlwaysInv(evs[..i]);
        assert Front(evs[..i + 1]) == evs[..i] && Last(evs[..i + 1]) == evs[i];
        Dispatch(evs[i]);
        i := i + 1;
      }
      assert evs[..i] == evs;
    }
  }

  lemma {:induction false} PrefixPossible(evs: seq<Event>, k: nat)
    requires After(evs).Some? && k <= |evs|
    ensures After(evs[..k]).Some?
    decreases |evs|
  {
    if k == |evs| {
      assert evs[..k] == evs;
    } else {
      PrefixPossible(Front(evs), k);
      assert Front(evs)[..k] == evs[..k];
    }
  }
}
