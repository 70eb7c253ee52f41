/** The life of the server of boost_http_server_1 and its connections, from the
    first accept to the last completion after a stop, as a transition system whose
    steps are the completion handlers. */
module Lifecycle {
  import opened Bytes
  import opened Options
  import opened RequestMachine
  import R = Reply
  import G = RequestGrammar

  const BUFFER_SIZE: nat := 8192

  /** An outstanding read or write of a connection. It is live if the socket was
      open when it began; otherwise it can only fail. */
  datatype Op = ReadOp(live: bool) | WriteOp(live: bool)

  /** How an operation completes: with data, cancelled by a close, or with any
      other error. */
  datatype IoResult = Success(data: bytes) | Aborted | Failed

  /** A started connection: socket, outstanding operations, parser and request,
      and, as history, the request it began with, all bytes received and every
      reply whose writing was begun. */
  datatype Conn = Conn(open: bool, ops: seq<Op>, state: State, req: Request, start: Request, received: bytes, sent: seq<R.Reply>)

  /** The set `connections_`, and every connection ever started. */
  datatype Pool = Pool(managed: set<nat>, conns: seq<Conn>)

  /** A new request object, with whatever its uninitialised members hold. */
  type Blank = req: Request | Fresh(req) witness Request([], [], 0, 0, [])

  /** Whether the acceptor is open, the outstanding accepts and signal waits, the
      connections, and the request object of `new_connection_`. */
  datatype World = World(accepting: bool, accepts: nat, signals: nat, pool: Pool, next: Blank)

  function Initial(first: Blank): World {
    World(true, 1, 1, Pool({}, []), first)
  }

  /** An accept that completes has the next connection object made, with `blank`. */
  datatype Event =
    | AcceptDone(ok: bool, blank: Blank)
    | SignalDone
    | OpDone(i: nat, k: nat, result: IoResult)

  // ------------------------------------------------------------ the handlers

  function StartRead(c: Conn): Conn {
    c.(ops := c.ops + [ReadOp(c.open)])
  }

  function StartWrite(c: Conn, rep: R.Reply): Conn {
    c.(ops := c.ops + [WriteOp(c.open)], sent := c.sent + [rep])
  }

  function Update(p: Pool, i: nat, c: Conn): Pool
    requires i < |p.conns|
  {
    p.(conns := p.conns[i := c])
  }

  /** `connection_manager::start` of a connection just accepted. */
  function ManagerStart(p: Pool, start: Blank): Pool {
    Pool(p.managed + {|p.conns|}, p.conns + [StartRead(Conn(true, [], MethodStart, start, start, [], []))])
  }

  /** `connection_manager::stop` */
  function ManagerStop(p: Pool, i: nat): Pool
    requires i < |p.conns|
  {
    Pool(p.managed - {i}, p.conns[i := p.conns[i].(open := false)])
  }

  /** `connection_manager::stop_all` */
  function ManagerStopAll(p: Pool): Pool {
    Pool({}, seq(|p.conns|, i requires 0 <= i < |p.conns| =>
                      if i in p.managed then p.conns[i].(open := false) else p.conns[i]))
  }

  function HandleAccept(w: World, ok: bool, blank: Blank): World
    requires w.accepts > 0
  {
    if !w.accepting then w.(accepts := w.accepts - 1)
    else w.(pool := if ok then ManagerStart(w.pool, w.next) else w.pool, next := blank)
  }

  function HandleStop(w: World): World
    requires w.signals > 0
  {
    w.(accepting := false, signals := w.signals - 1, pool := ManagerStopAll(w.pool))
  }

  /** Parsing what was read decides what the connection does next. */
  function Digest(handle: Request -> R.Reply, c: Conn, data: bytes): Conn
    requires Safe(c.state, c.req)
  {
    var p := Run(c.state, c.req, data);
    var d := c.(state := p.state, req := p.req, received := c.received + data);
    match p.verdict
    case True => StartWrite(d, handle(p.req))
    case False => StartWrite(d, R.Stock(R.BadRequest))
    case Indeterminate => StartRead(d)
  }

  function HandleRead(handle: Request -> R.Reply, p: Pool, i: nat, result: IoResult): Pool
    requires i < |p.conns| && (result.Success? ==> Safe(p.conns[i].state, p.conns[i].req))
  {
    match result
    case Success(data) => Update(p, i, Digest(handle, p.conns[i], data))
    case Aborted => p
    case Failed => ManagerStop(p, i)
  }

  function HandleWrite(p: Pool, i: nat, result: IoResult): Pool
    requires i < |p.conns|
  {
    if result.Aborted? then p else ManagerStop(p, i)
  }

  /** A completed operation is no longer outstanding when its handler runs. */
  function Finish(c: Conn, k: nat): Conn
    requires k < |c.ops|
  {
    c.(ops := c.ops[..k] + c.ops[k + 1..])
  }

  /** Which completions are possible. */
  predicate Possible(w: World, ev: Event) {
    match ev
    case AcceptDone(_, _) => w.accepts > 0
    case SignalDone => w.signals > 0
    case OpDone(i, k, result) =>
      && i < |w.pool.conns| && k < |w.pool.conns[i].ops|
      && var op := w.pool.conns[i].ops[k];
      && (op.ReadOp? && result.Success? ==> 0 < |result.data| <= BUFFER_SIZE)
      && (result.Success? ==> op.live)
      && (result.Aborted? ==> op.live && !w.pool.conns[i].open)
  }

  /** The parser evaluates `headers.back()` only of a header that is there. */
  predicate Usable(w: World, ev: Event)
    requires Possible(w, ev)
  {
    ev.OpDone? && w.pool.conns[ev.i].ops[ev.k].ReadOp? && ev.result.Success? ==>
      Safe(w.pool.conns[ev.i].state, w.pool.conns[ev.i].req)
  }

  predicate Enabled(w: World, ev: Event) {
    Possible(w, ev) && Usable(w, ev)
  }

  function Step(handle: Request -> R.Reply, w: World, ev: Event): World
    requires Enabled(w, ev)
  {
    match ev
    case AcceptDone(ok, blank) => HandleAccept(w, ok, blank)
    case SignalDone => HandleStop(w)
    case OpDone(i, k, result) =>
      var p := Update(w.pool, i, Finish(w.pool.conns[i], k));
      w.(pool := if w.pool.conns[i].ops[k].ReadOp? then HandleRead(handle, p, i, result) else HandleWrite(p, i, result))
  }

  function After(handle: Request -> R.Reply, first: Blank, evs: seq<Event>): Option<World> {
    if evs == [] then Some(Initial(first))
    else match After(handle, first, Front(evs))
      case None => None
      case Some(w) => if Enabled(w, Last(evs)) then Some(Step(handle, w, Last(evs))) else None
  }

  // -------------------------------------------------------------- invariant

  /** The reply a verdict calls for, if any. */
  function Answer(handle: Request -> R.Reply, p: Parsed): seq<R.Reply> {
    match p.verdict
    case True => [handle(p.req)]
    case False => [R.Stock(R.BadRequest)]
    case Indeterminate => []
  }

  /** The connection is where one parse of everything it received would be, and has
      sent the reply that verdict calls for. */
  predicate Parsing(handle: Request -> R.Reply, c: Conn) {
    var p := Run(MethodStart, c.start, c.received);
    Fresh(c.start) && c.state == p.state && c.req == p.req && c.sent == Answer(handle, p)
  }

  predicate Sane(handle: Request -> R.Reply, c: Conn) {
    && |c.ops| <= 1
    && (c.open ==> |c.ops| == 1 && c.ops[0].live)
    && (|c.ops| == 1 ==> (c.ops[0].ReadOp? <==> c.sent == []))
    && Parsing(handle, c)
  }

  predicate Inv(handle: Request -> R.Reply, w: World) {
    && (w.accepting ==> w.accepts == 1 && w.signals == 1)
    && (!w.accepting ==> w.accepts <= 1 && w.signals == 0 && w.pool.managed == {})
    && (forall i :: i in w.pool.managed ==> i < |w.pool.conns|)
    && (forall i :: 0 <= i < |w.pool.conns| ==> Sane(handle, w.pool.conns[i]) && (i in w.pool.managed <==> w.pool.conns[i].open))
  }

  lemma {:induction false} AcceptKeeps(handle: Request -> R.Reply, w: World, ok: bool, blank: Blank)
    requires Inv(handle, w) && w.accepts > 0
    ensures Inv(handle, HandleAccept(w, ok, blank))
  {
  }

  lemma {:induction false} StopKeeps(handle: Request -> R.Reply, w: World)
    requires Inv(handle, w) && w.signals > 0
    ensures Inv(handle, HandleStop(w))
  {
    hide Run, Answer, Parsing;
    var v := HandleStop(w);
    forall i | 0 <= i < |v.pool.conns| ensures Sane(handle, v.pool.conns[i]) && !v.pool.conns[i].open {
      assert Sane(handle, w.pool.conns[i]);
      ClosedParsing(handle, w.pool.conns[i]);
    }
  }

  lemma {:induction false} ClosedParsing(handle: Request -> R.Reply, c: Conn)
    requires Parsing(handle, c)
    ensures Parsing(handle, c.(open := false))
  {
  }

  /** Reading in pieces is reading at once. */
  lemma {:induction false} DigestParsing(handle: Request -> R.Reply, c: Conn, data: bytes)
    requires Parsing(handle, c) && c.sent == []
    ensures Safe(c.state, c.req) && Parsing(handle, Digest(handle, c, data))
    ensures Digest(handle, c, data).sent == [] <==> Run(c.state, c.req, data).verdict.Indeterminate?
  {
    hide RequestMachine.Step, RequestMachine.Run;
    RunConcat(MethodStart, c.start, c.received, data);
  }

  lemma {:induction false} OneReplaced(handle: Request -> R.Reply, w: World, i: nat, c: Conn)
    requires Inv(handle, w) && i < |w.pool.conns| && Sane(handle, c)
    ensures c.open == w.pool.conns[i].open ==> Inv(handle, w.(pool := Update(w.pool, i, c)))
    ensures !c.open ==> Inv(handle, w.(pool := ManagerStop(Update(w.pool, i, c), i)))
  {
    hide Parsing;
  }

  lemma {:induction false} OpKeeps(handle: Request -> R.Reply, w: World, ev: Event)
    requires Inv(handle, w) && ev.OpDone? && Enabled(w, ev)
    ensures Inv(handle, Step(handle, w, ev))
  {
    hide Run, Answer, Parsing, Inv;
    var i, k := ev.i, ev.k;
    var c, d := w.pool.conns[i], Finish(w.pool.conns[i], k);
    SaneOne(handle, w, i);
    FinishParsing(handle, c, k);
    assert d.ops == [];
    var p := Update(w.pool, i, d);
    if c.ops[k].ReadOp? && ev.result.Success? {
      DigestParsing(handle, d, ev.result.data);
      var e := Digest(handle, d, ev.result.data);
      OneReplaced(handle, w, i, e);
      assert p.conns[i := e] == w.pool.conns[i := e];
    } else if ev.result.Aborted? {
      OneReplaced(handle, w, i, d);
    } else {
      var e := d.(open := false);
      ClosedParsing(handle, d);
      OneReplaced(handle, w, i, e);
      assert p.conns[i := e] == w.pool.conns[i := e][i := e];
      assert ManagerStop(Update(w.pool, i, e), i) == ManagerStop(p, i);
    }
  }

  lemma {:induction false} SaneOne(handle: Request -> R.Reply, w: World, i: nat)
    requires Inv(handle, w) && i < |w.pool.conns|
    ensures Sane(handle, w.pool.conns[i]) && (i in w.pool.managed <==> w.pool.conns[i].open)
  {
  }

  lemma {:induction false} FinishParsing(handle: Request -> R.Reply, c: Conn, k: nat)
    requires Parsing(handle, c) && k < |c.ops|
    ensures Parsing(handle, Finish(c, k))
  {
  }

  lemma {:induction false} StepKeeps(handle: Request -> R.Reply, w: World, ev: Event)
    requires Inv(handle, w) && Enabled(w, ev)
    ensures Inv(handle, Step(handle, w, ev))
  {
    hide Inv, HandleAccept, HandleStop, HandleRead, HandleWrite;
    match ev
    case AcceptDone(ok, blank) => AcceptKeeps(handle, w, ok, blank);
    case SignalDone => StopKeeps(handle, w);
    case OpDone(i, k, result) => OpKeeps(handle, w, ev);
  }

  lemma {:induction false} AlwaysInv(handle: Request -> R.Reply, first: Blank, evs: seq<Event>)
    requires After(handle, first, evs).Some?
    ensures Inv(handle, After(handle, first, evs).value)
    decreases |evs|
  {
    if evs != [] {
      AlwaysInv(handle, first, Front(evs));
      hide Inv, Step, Enabled;
      StepKeeps(handle, After(handle, first, Front(evs)).value, Last(evs));
    }
  }

  // ------------------------------------------------------------ the theorems

  /** A connection that still reads is in a state its parser can go on from. */
  lemma {:induction false} ReaderIsSafe(handle: Request -> R.Reply, w: World, i: nat, k: nat)
    requires Inv(handle, w) && i < |w.pool.conns| && k < |w.pool.conns[i].ops| && w.pool.conns[i].ops[k].ReadOp?
    ensures Safe(w.pool.conns[i].state, w.pool.conns[i].req)
  {
    SaneOne(handle, w, i);
    hide Run, Inv;
  }

  /** Whatever can complete can be handled: every possible event extends a run, so
      that asking for usable parsers leaves no run out. */
  lemma {:induction false} NothingUnsafe(handle: Request -> R.Reply, first: Blank, evs: seq<Event>, w: World, ev: Event)
    requires After(handle, first, evs) == Some(w) && Possible(w, ev)
    ensures Usable(w, ev) && After(handle, first, evs + [ev]) == Some(Step(handle, w, ev))
  {
    AlwaysInv(handle, first, evs);
    if ev.OpDone? && w.pool.conns[ev.i].ops[ev.k].ReadOp? {
      ReaderIsSafe(handle, w, ev.i, ev.k);
    }
    assert Front(evs + [ev]) == evs;
    hide Inv, Step, Possible, Safe;
  }

  /** Until the stop exactly one accept is outstanding; and always, a connection is
      in `connections_` exactly while its socket is open, and then it has exactly
      one outstanding operation: a read before the verdict, a write after it. */
  lemma {:induction false} AliveMeansBusy(handle: Request -> R.Reply, first: Blank, evs: seq<Event>, w: World, i: nat)
    requires After(handle, first, evs) == Some(w)
    ensures w.accepting ==> w.accepts == 1 && w.signals == 1
    ensures !w.accepting ==> w.pool.managed == {}
    ensures i < |w.pool.conns| ==>
              var c := w.pool.conns[i];
              && (i in w.pool.managed <==> c.open)
              && (c.open ==> |c.ops| == 1 && c.ops[0] == if c.sent == [] then ReadOp(true) else WriteOp(true))
              && |c.ops| <= 1 && |c.sent| <= 1
    ensures i in w.pool.managed ==> i < |w.pool.conns|
  {
    AlwaysInv(handle, first, evs);
    hide After;
    if i < |w.pool.conns| { SaneOne(handle, w, i); }
  }

  /** Chunk invariance: however its bytes were split into reads, a connection is
      where one parse of all of them would be, and has begun one reply exactly when
      that parse has a verdict: the handler's for the request, or 400. */
  lemma {:induction false} ReadsAreOneParse(handle: Request -> R.Reply, first: Blank, evs: seq<Event>, w: World, i: nat)
    requires After(handle, first, evs) == Some(w) && i < |w.pool.conns|
    ensures var c := w.pool.conns[i];
            var p := Run(MethodStart, c.start, c.received);
            && Fresh(c.start) && c.state == p.state && c.req == p.req
            && (p.verdict.True? ==> c.sent == [handle(p.req)])
            && (p.verdict.False? ==> c.sent == [R.Stock(R.BadRequest)])
            && (p.verdict.Indeterminate? ==> c.sent == [])
  {
    AlwaysInv(handle, first, evs);
    SaneOne(handle, w, i);
    hide After, Run, Inv;
  }

  /** The reply the handler makes for a request is begun only if the connection has
      received a well-formed message meaning that request. */
  lemma {:induction false} AnsweredIsMessage(handle: Request -> R.Reply, first: Blank, evs: seq<Event>, w: World, i: nat) returns (m: G.Message)
    requires After(handle, first, evs) == Some(w) && i < |w.pool.conns|
    requires Run(MethodStart, w.pool.conns[i].start, w.pool.conns[i].received).verdict.True?
    ensures G.WfMessage(m) && G.Print(m) <= w.pool.conns[i].received && w.pool.conns[i].sent == [handle(G.Meaning(m))]
  {
    ReadsAreOneParse(handle, first, evs, w, i);
    hide *;
    m := G.AcceptedIsMessage(w.pool.conns[i].start, w.pool.conns[i].received);
  }

  /** And it is, as soon as one has been received, whatever follows it. */
  lemma {:induction false} MessageIsAnswered(handle: Request -> R.Reply, first: Blank, evs: seq<Event>, w: World, i: nat, m: G.Message)
    requires After(handle, first, evs) == Some(w) && i < |w.pool.conns|
    requires G.WfMessage(m) && G.Print(m) <= w.pool.conns[i].received
    ensures w.pool.conns[i].sent == [handle(G.Meaning(m))]
  {
    ReadsAreOneParse(handle, first, evs, w, i);
    var received := w.pool.conns[i].received;
    hide *;
    assert received == G.Print(m) + received[|G.Print(m)|..];
    G.MessageIsAccepted(w.pool.conns[i].start, m, received[|G.Print(m)|..]);
  }

  // ----------------------------------------------- when a connection is open

  /** What closes connection i: the stop, a completed write, or an operation that fails
      other than by being cancelled. */
  predicate Closes(w: World, ev: Event, i: nat) {
    || ev.SignalDone?
    || (ev.OpDone? && ev.i == i && Possible(w, ev) && (ev.result.Failed? || (ev.result.Success? && w.pool.conns[i].ops[ev.k].WriteOp?)))
  }

  predicate ClosesAt(handle: Request -> R.Reply, first: Blank, evs: seq<Event>, k: nat, i: nat) {
    k < |evs| && After(handle, first, evs[..k]).Some? && Closes(After(handle, first, evs[..k]).value, evs[k], i)
  }

  /** What a completed read of connection i has brought. */
  function Brings(w: World, ev: Event, i: nat): bytes {
    if ev.OpDone? && ev.i == i && Possible(w, ev) && w.pool.conns[i].ops[ev.k].ReadOp? && ev.result.Success? then ev.result.data else []
  }

  function Brought(handle: Request -> R.Reply, first: Blank, evs: seq<Event>, i: nat): bytes
    requires After(handle, first, evs).Some?
  {
    if evs == [] then []
    else Brought(handle, first, Front(evs), i) + Brings(After(handle, first, Front(evs)).value, Last(evs), i)
  }

  function Starts(w: World, ev: Event): nat {
    if ev.AcceptDone? && ev.ok && w.accepting then 1 else 0
  }

  /** The accepts that succeeded before the stop. */
  function Started(handle: Request -> R.Reply, first: Blank, evs: seq<Event>): nat
    requires After(handle, first, evs).Some?
  {
    if evs == [] then 0
    else Started(handle, first, Front(evs)) + Starts(After(handle, first, Front(evs)).value, Last(evs))
  }

  lemma {:induction false} DigestHistory(handle: Request -> R.Reply, c: Conn, data: bytes)
    requires Safe(c.state, c.req)
    ensures var d := Digest(handle, c, data);
            d.open == c.open && d.received == c.received + data
  {
    hide Run;
  }

  lemma {:induction false} StepHistory(handle: Request -> R.Reply, w: World, ev: Event, i: nat)
    requires Inv(handle, w) && Enabled(w, ev)
    ensures var v := Step(handle, w, ev);
            && |v.pool.conns| == |w.pool.conns| + Starts(w, ev) && v.accepting == (w.accepting && !ev.SignalDone?)
            && (i < |w.pool.conns| ==>
                  && v.pool.conns[i].received == w.pool.conns[i].received + Brings(w, ev, i)
                  && (v.pool.conns[i].open <==> w.pool.conns[i].open && !Closes(w, ev, i)))
            && (|w.pool.conns| <= i < |v.pool.conns| ==> v.pool.conns[i].open && v.pool.conns[i].received == [] && w.accepting && !Closes(w, ev, i))
            && (|w.pool.conns| <= i ==> Brings(w, ev, i) == [] && (Closes(w, ev, i) <==> ev.SignalDone?))
  {
    if ev.OpDone? {
      OpHistory(handle, w, ev, i);
    } else if i < |w.pool.conns| {
      SaneOne(handle, w, i);
      assert w.pool.conns[i].received + [] == w.pool.conns[i].received;
    }
    hide Inv, Sane, HandleRead, HandleWrite, Finish, Safe;
  }

  lemma {:induction false} OpHistory(handle: Request -> R.Reply, w: World, ev: Event, i: nat)
    requires Enabled(w, ev) && ev.OpDone?
    ensures var v := Step(handle, w, ev);
            && |v.pool.conns| == |w.pool.conns| && v.accepting == w.accepting
            && (i < |w.pool.conns| ==>
                  && v.pool.conns[i].received == w.pool.conns[i].received + Brings(w, ev, i)
                  && (v.pool.conns[i].open <==> w.pool.conns[i].open && !Closes(w, ev, i)))
            && (|w.pool.conns| <= i ==> Brings(w, ev, i) == [] && !Closes(w, ev, i))
  {
    if i < |w.pool.conns| {
      assert w.pool.conns[i].received + [] == w.pool.conns[i].received;
    }
    if w.pool.conns[ev.i].ops[ev.k].ReadOp? && ev.result.Success? {
      DigestHistory(handle, Finish(w.pool.conns[ev.i], ev.k), ev.result.data);
    }
    hide Run, Digest, Safe;
  }

  /** Every accept before the stop that succeeded has started a connection, and that has
      received what its reads have brought. */
  lemma {:induction false} StartedAndReceived(handle: Request -> R.Reply, first: Blank, evs: seq<Event>, w: World, i: nat)
    requires After(handle, first, evs) == Some(w)
    ensures |w.pool.conns| == Started(handle, first, evs)
    ensures if i < |w.pool.conns| then w.pool.conns[i].received == Brought(handle, first, evs, i) else Brought(handle, first, evs, i) == []
    decreases |evs|
  {
    if evs != [] {
      var v := After(handle, first, Front(evs)).value;
      StartedAndReceived(handle, first, Front(evs), v, i);
      AlwaysInv(handle, first, Front(evs));
      hide Inv, Step, Enabled, Closes, Brings, Starts;
      StepHistory(handle, v, Last(evs), i);
    }
  }

  predicate Undisturbed(handle: Request -> R.Reply, first: Blank, evs: seq<Event>, i: nat) {
    forall k :: 0 <= k < |evs| ==> !ClosesAt(handle, first, evs, k, i)
  }

  lemma {:induction false} UndisturbedStep(handle: Request -> R.Reply, first: Blank, evs: seq<Event>, i: nat)
    requires evs != [] && After(handle, first, evs).Some?
    ensures Undisturbed(handle, first, evs, i) <==>
            Undisturbed(handle, first, Front(evs), i) && !Closes(After(handle, first, Front(evs)).value, Last(evs), i)
  {
    var n := |evs| - 1;
    var v := After(handle, first, Front(evs)).value;
    hide After, Closes;
    assert Front(evs) == evs[..n];
    assert forall k :: 0 <= k < n ==> Front(evs)[..k] == evs[..k];
    assert forall k :: 0 <= k < n ==> (ClosesAt(handle, first, evs, k, i) <==> ClosesAt(handle, first, Front(evs), k, i));
    assert ClosesAt(handle, first, evs, n, i) <==> Closes(v, Last(evs), i);
  }

  /** A connection is open until one of those things happens, and no longer: so as long
      as none does, it reads, or writes its reply. */
  lemma {:induction false} OpenUntilClosed(handle: Request -> R.Reply, first: Blank, evs: seq<Event>, w: World, i: nat)
    requires After(handle, first, evs) == Some(w)
    ensures (if i < |w.pool.conns| then w.pool.conns[i].open else w.accepting) <==>
            forall k :: 0 <= k < |evs| ==> !ClosesAt(handle, first, evs, k, i)
    decreases |evs|
  {
    assert Undisturbed(handle, first, evs, i) <==> forall k :: 0 <= k < |evs| ==> !ClosesAt(handle, first, evs, k, i);
    if evs != [] {
      var v := After(handle, first, Front(evs)).value;
      OpenUntilClosed(handle, first, Front(evs), v, i);
      AlwaysInv(handle, first, Front(evs));
      UndisturbedStep(handle, first, evs, i);
      hide Inv, Step, Enabled, Closes, Brings, Starts, ClosesAt;
      StepHistory(handle, v, Last(evs), i);
    }
  }

  // ------------------------------------------------------------------ drain

  /** How many completions an outstanding operation can still lead to once the
      socket is closed. */
  function Weight(ops: seq<Op>): nat {
    if ops == [] then 0 else Weight(Front(ops)) + (if Last(ops).live then 2 else 1)
  }

  function ConnWeights(cs: seq<Conn>): nat {
    if cs == [] then 0 else ConnWeights(Front(cs)) + Weight(Last(cs).ops)
  }

  function Outstanding(w: World): nat {
    w.accepts + w.signals + ConnWeights(w.pool.conns)
  }

  lemma {:induction false} WeightsUpdate(cs: seq<Conn>, i: nat, c: Conn)
    requires i < |cs|
    ensures ConnWeights(cs[i := c]) == ConnWeights(cs) - Weight(cs[i].ops) + Weight(c.ops)
    decreases |cs|
  {
    if i == |cs| - 1 {
      assert Front(cs[i := c]) == Front(cs);
    } else {
      WeightsUpdate(Front(cs), i, c);
      assert Front(cs[i := c]) == Front(cs)[i := c];
    }
  }

  lemma {:induction false} NoWeight(cs: seq<Conn>)
    ensures ConnWeights(cs) == 0 <==> forall i :: 0 <= i < |cs| ==> cs[i].ops == []
    decreases |cs|
  {
    if cs != [] {
      NoWeight(Front(cs));
    }
  }

  /** After the stop a completion only uses outstanding operations up. */
  lemma {:induction false} StepDrains(handle: Request -> R.Reply, w: World, ev: Event)
    requires Inv(handle, w) && Enabled(w, ev) && !w.accepting
    ensures var v := Step(handle, w, ev);
            !v.accepting && v.pool.managed == {} && |v.pool.conns| == |w.pool.conns| && Outstanding(v) < Outstanding(w)
  {
    hide Run, Parsing, Answer;
    if ev.OpDone? {
      SaneOne(handle, w, ev.i);
      OpDrains(handle, w, ev);
    }
  }

  lemma {:induction false} OpDrains(handle: Request -> R.Reply, w: World, ev: Event)
    requires ev.OpDone? && Enabled(w, ev) && !w.accepting && w.pool.managed == {}
    requires !w.pool.conns[ev.i].open && |w.pool.conns[ev.i].ops| == 1
    ensures var v := Step(handle, w, ev);
            !v.accepting && v.pool.managed == {} && |v.pool.conns| == |w.pool.conns| && Outstanding(v) < Outstanding(w)
  {
    hide Run, Weight;
    var v := Step(handle, w, ev);
    var c := w.pool.conns[ev.i];
    assert v.pool.conns == w.pool.conns[ev.i := v.pool.conns[ev.i]];
    WeightsUpdate(w.pool.conns, ev.i, v.pool.conns[ev.i]);
    SmallWeights(c.ops);
    SmallWeights(v.pool.conns[ev.i].ops);
  }

  lemma {:induction false} SmallWeights(ops: seq<Op>)
    requires |ops| <= 1
    ensures Weight(ops) == if ops == [] then 0 else if ops[0].live then 2 else 1
  {
    if ops != [] { assert Front(ops) == []; }
  }

  /** After a stop no connection is started and the set stays empty, and every
      further run is no longer than what was outstanding allows. */
  lemma {:induction false} Drains(handle: Request -> R.Reply, first: Blank, evs: seq<Event>, w: World, more: seq<Event>, v: World)
    requires After(handle, first, evs) == Some(w) && !w.accepting && After(handle, first, evs + more) == Some(v)
    ensures !v.accepting && v.pool.managed == {} && |v.pool.conns| == |w.pool.conns|
    ensures Outstanding(v) + |more| <= Outstanding(w)
    decreases |more|
  {
    if more == [] {
      assert evs + more == evs;
      AlwaysInv(handle, first, evs);
    } else {
      assert Front(evs + more) == evs + Front(more) && Last(evs + more) == Last(more);
      var u := After(handle, first, evs + Front(more)).value;
      Drains(handle, first, evs, w, Front(more), u);
      AlwaysInv(handle, first, evs + Front(more));
      hide Inv, Step, Enabled, Outstanding;
      StepDrains(handle, u, Last(more));
    }
  }

  /** No completion is possible: `io_context::run` returns. */
  ghost predicate Quiet(w: World) {
    forall ev :: !Possible(w, ev)
  }

  lemma {:induction false} QuietIsIdle(w: World)
    ensures Quiet(w) <==> w.accepts == 0 && w.signals == 0 && forall i :: 0 <= i < |w.pool.conns| ==> w.pool.conns[i].ops == []
  {
    if Quiet(w) {
      assert !Possible(w, AcceptDone(true, w.next)) && !Possible(w, SignalDone);
      forall i | 0 <= i < |w.pool.conns| ensures w.pool.conns[i].ops == [] {
        assert !Possible(w, OpDone(i, 0, Failed));
      }
    }
  }

  /** The server's `run` returns exactly when no operation is outstanding any more,
      which is never before a stop. With Drains: after a stop, it always does. */
  lemma {:induction false} EndsEmpty(handle: Request -> R.Reply, first: Blank, evs: seq<Event>, w: World)
    requires After(handle, first, evs) == Some(w)
    ensures Quiet(w) <==> Outstanding(w) == 0
    ensures Quiet(w) ==> !w.accepting && forall i :: 0 <= i < |w.pool.conns| ==> w.pool.conns[i].ops == [] && !w.pool.conns[i].open
  {
    AlwaysInv(handle, first, evs);
    QuietIsIdle(w);
    NoWeight(w.pool.conns);
    hide After, ConnWeights, Weight, Quiet, Parsing;
  }
}
