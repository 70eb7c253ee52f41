/** The server coroutine of boost_http_server_3. Each outstanding operation holds
    its own copy of the coroutine, parser included; sockets, buffers, requests and
    replies are reached through shared pointers, here indices into the heap. */
module ForkingServer {
  import opened Bytes
  import opened Options
  import opened RequestMachine
  import opened RequestCoroutine
  import R = Reply
  import G = RequestGrammar
  import C = CoroutineLanguage

  const BUFFER_SIZE: nat := 8192

  /** The yields of the coroutine. */
  datatype At = Initial | Accepting | Reading | Writing

  /** A copy of the coroutine: where it resumes, its shared pointers, and by value
      the last verdict and the state of its parser. */
  datatype Task = Task(at: At, socket: Option<nat>, buffer: Option<nat>, request: Option<nat>, reply: Option<nat>,
                       valid: Tribool, point: Point, length: nat)

  datatype Completion = Completion(error: bool, length: nat)

  /** An operation with its handler, outstanding or completed but not yet handled. */
  datatype Op = Op(task: Task, done: Option<Completion>)

  /** The history of a socket: the request object its child began with, the bytes
      that arrived, those parsed, and the replies whose writing was begun. */
  datatype Socket = Socket(start: FullRequest, arrived: bytes, parsed: bytes, sent: seq<R.Reply>)

  datatype World = World(ops: seq<Op>, sockets: seq<Socket>, buffers: seq<bytes>, requests: seq<FullRequest>,
                         replies: seq<R.Reply>, acceptFailed: bool)

  /** The library, the user's request handler, and the uninitialised `content_length_`. */
  datatype Env = Env(cast: Cast, handler: FullRequest -> R.Reply, junk: nat)

  /** An operation completes, with an error or with data; a completed one is handled.
      A new request object holds `blank`, whose version numbers are uninitialised. */
  datatype Event =
    | Arrives(k: nat, error: bool, data: bytes)
    | Runs(k: nat, blank: FullRequest)

  // ----------------------------------------------------------- the coroutine

  function Begin(w: World, t: Task): World {
    w.(ops := w.ops + [Op(t, None)])
  }

  /** The accept loop from its head to the yield. */
  function WaitAccept(w: World, t: Task): World {
    Begin(w.(sockets := w.sockets + [Socket(CLEARED, [], [], [])]), t.(socket := Some(|w.sockets|), at := Accepting))
  }

  /** The child from the fork to its first yield. */
  function FirstRead(w: World, t: Task, blank: FullRequest): World
    requires t.socket.Some? && t.socket.value < |w.sockets|
  {
    var s := t.socket.value;
    var v := w.(buffers := w.buffers + [seq(BUFFER_SIZE, _ => 0)], requests := w.requests + [blank],
                sockets := w.sockets[s := w.sockets[s].(start := blank)]);
    Begin(v, t.(buffer := Some(|w.buffers|), request := Some(|w.requests|), at := Reading))
  }

  /** From the yield of a read to the next: parse, then read on or reply. After a
      verdict the parser is not used again, and its state not recorded. */
  function ParseRead(e: Env, w: World, t: Task, length: nat): World
    requires Usable(w, t) && t.at.Reading? && length <= BUFFER_SIZE
  {
    var s, q := t.socket.value, t.request.value;
    var data := w.buffers[t.buffer.value][..length];
    var r := Run3(e.cast, t.point, t.length, w.requests[q], data);
    var c := w.sockets[s].(parsed := w.sockets[s].parsed + data);
    var u := t.(valid := r.verdict);
    var v := w.(requests := w.requests[q := r.req]);
    if r.verdict.Indeterminate? then Begin(v.(sockets := w.sockets[s := c]), u.(point := r.point, length := r.length))
    else
      var rep := if r.verdict.True? then e.handler(r.req) else R.Stock(R.BadRequest);
      Begin(v.(sockets := w.sockets[s := c.(sent := c.sent + [rep])], replies := w.replies + [rep]),
            u.(reply := Some(|w.replies|), at := Writing, point := Start, length := 0))
  }

  /** What a copy dereferences when it resumes is there. */
  predicate Usable(w: World, t: Task) {
    && (t.at.Accepting? || t.at.Reading? ==> t.socket.Some? && t.socket.value < |w.sockets|)
    && (t.at.Reading? ==>
          && t.buffer.Some? && t.buffer.value < |w.buffers| && |w.buffers[t.buffer.value]| == BUFFER_SIZE
          && t.request.Some? && t.request.value < |w.requests| && SafePoint(t.point, w.requests[t.request.value])
          && LengthOk(t.point, t.length))
    && (t.at.Writing? ==> t.socket.Some? && t.socket.value < |w.sockets| && t.reply.Some? && t.reply.value < |w.replies|)
  }

  /** `operator()` of a copy without an error. The fork runs the child to its first
      yield before the parent goes on; after the write the socket is shut down. */
  function Resume(e: Env, w: World, t: Task, length: nat, blank: FullRequest): World
    requires Usable(w, t) && length <= BUFFER_SIZE
  {
    match t.at
    case Initial => WaitAccept(w, t)
    case Accepting => WaitAccept(FirstRead(w, t, blank), t)
    case Reading => ParseRead(e, w, t, length)
    case Writing => w
  }

  function INITIAL(e: Env): World {
    WaitAccept(World([], [], [], [], [], false), Task(Initial, None, None, None, None, False, Start, e.junk))
  }

  /** What the environment can do. */
  predicate Possible(w: World, ev: Event) {
    match ev
    case Arrives(k, error, data) =>
      && k < |w.ops| && w.ops[k].done.None? && |data| <= BUFFER_SIZE
      && (w.ops[k].task.at.Reading? && !error <==> data != [])
    case Runs(k, blank) => k < |w.ops| && w.ops[k].done.Some? && w.ops[k].done.value.length <= BUFFER_SIZE
  }

  /** A read that succeeds has put its data at the front of the buffer. */
  function Arrive(w: World, k: nat, error: bool, data: bytes): World
    requires k < |w.ops| && Usable(w, w.ops[k].task) && |data| <= BUFFER_SIZE
  {
    var t := w.ops[k].task;
    var v := w.(ops := w.ops[k := Op(t, Some(Completion(error, |data|)))]);
    if t.at.Reading? then
      var s, b := t.socket.value, t.buffer.value;
      v.(buffers := w.buffers[b := data + w.buffers[b][|data|..]],
         sockets := w.sockets[s := w.sockets[s].(arrived := w.sockets[s].arrived + data)])
    else v
  }

  function Remove(ops: seq<Op>, k: nat): seq<Op>
    requires k < |ops|
  {
    ops[..k] + ops[k + 1..]
  }

  function Step(e: Env, w: World, ev: Event): World
    requires Possible(w, ev) && Usable(w, w.ops[ev.k].task)
  {
    match ev
    case Arrives(k, error, data) => Arrive(w, k, error, data)
    case Runs(k, blank) =>
      var op := w.ops[k];
      var v := w.(ops := Remove(w.ops, k));
      if op.done.value.error then v.(acceptFailed := w.acceptFailed || op.task.at.Accepting?)
      else Resume(e, v, op.task, op.done.value.length, blank)
  }

  function After(e: Env, evs: seq<Event>): Option<World> {
    if evs == [] then Some(INITIAL(e))
    else match After(e, Front(evs))
      case None => None
      case Some(w) =>
        if Possible(w, Last(evs)) && Usable(w, w.ops[Last(evs).k].task) then Some(Step(e, w, Last(evs))) else None
  }

  // -------------------------------------------------------------- invariant

  /** How many copies wait for an accept, or have one to handle. */
  function Waiting(ops: seq<Op>): nat {
    if ops == [] then 0 else Waiting(Front(ops)) + (if Last(ops).task.at.Accepting? then 1 else 0)
  }

  function Answer(e: Env, r: Parsed3): seq<R.Reply> {
    match r.verdict
    case True => [e.handler(r.req)]
    case False => [R.Stock(R.BadRequest)]
    case Indeterminate => []
  }

  /** One parse of everything a socket's child has parsed. */
  function Whole(e: Env, s: Socket): Parsed3 {
    Run3(e.cast, Start, e.junk, s.start, s.parsed)
  }

  predicate SocketOk(e: Env, s: Socket) {
    s.sent == Answer(e, Whole(e, s)) && s.parsed <= s.arrived
  }

  /** What has arrived and is still in the buffer. */
  function InBuffer(w: World, op: Op): bytes
    requires Usable(w, op.task) && op.task.at.Reading?
  {
    if op.done.Some? && op.done.value.length <= BUFFER_SIZE then w.buffers[op.task.buffer.value][..op.done.value.length] else []
  }

  predicate OpOk(e: Env, w: World, op: Op) {
    var t := op.task;
    && Usable(w, t) && !t.at.Initial?
    && (t.buffer.Some? ==> t.buffer.value < |w.buffers|) && (t.request.Some? ==> t.request.value < |w.requests|)
    && (op.done.Some? ==> op.done.value.length <= BUFFER_SIZE)
    && (t.at.Accepting? ==>
          && t.point.Start? && t.length == e.junk && t.buffer.None? && t.request.None? && t.reply.None?
          && w.sockets[t.socket.value] == Socket(CLEARED, [], [], []))
    && (t.at.Reading? ==>
          var s := w.sockets[t.socket.value];
          && Whole(e, s) == Parsed3(Indeterminate, |s.parsed|, t.point, t.length, w.requests[t.request.value])
          && s.arrived == s.parsed + InBuffer(w, op))
    && (t.at.Writing? ==>
          w.sockets[t.socket.value].sent == [w.replies[t.reply.value]])
  }

  /** Two copies share no socket, request or buffer. */
  predicate Apart(t: Task, u: Task) {
    && t.socket != u.socket
    && (t.request.Some? ==> t.request != u.request)
    && (t.buffer.Some? ==> t.buffer != u.buffer)
  }

  predicate Good(e: Env, w: World) {
    && (forall i :: 0 <= i < |w.sockets| ==> SocketOk(e, w.sockets[i]))
    && (forall i :: 0 <= i < |w.ops| ==> OpOk(e, w, w.ops[i]))
    && (forall i, j :: 0 <= i < |w.ops| && 0 <= j < |w.ops| && i != j ==> Apart(w.ops[i].task, w.ops[j].task))
  }

  predicate Inv(e: Env, w: World) {
    Waiting(w.ops) == (if w.acceptFailed then 0 else 1) && Good(e, w)
  }

  /** The copy shares nothing with those in the outstanding operations. */
  predicate Alone(w: World, t: Task) {
    forall i :: 0 <= i < |w.ops| ==> Apart(w.ops[i].task, t) && Apart(t, w.ops[i].task)
  }

  // ------------------------------------------------------------ preservation

  /** The heap has changed only where `t` points, and has grown. */
  predicate Frame(w: World, v: World, t: Task) {
    && |w.sockets| <= |v.sockets| && |w.buffers| <= |v.buffers| && |w.requests| <= |v.requests| && w.replies <= v.replies
    && (forall i: nat :: i < |w.sockets| && Some(i) != t.socket ==> v.sockets[i] == w.sockets[i])
    && (forall i: nat :: i < |w.buffers| && Some(i) != t.buffer ==> v.buffers[i] == w.buffers[i])
    && (forall i: nat :: i < |w.requests| && Some(i) != t.request ==> v.requests[i] == w.requests[i])
  }

  lemma {:induction false} OpOkFrame(e: Env, w: World, v: World, t: Task, op: Op)
    requires OpOk(e, w, op) && Frame(w, v, t) && Apart(op.task, t)
    ensures OpOk(e, v, op)
  {
    hide Whole;
  }

  lemma {:induction false} HeapGood(e: Env, w: World, v: World, t: Task)
    requires Good(e, w) && Frame(w, v, t) && v.ops == w.ops && Alone(w, t)
    requires forall i: nat :: i < |v.sockets| && (i >= |w.sockets| || Some(i) == t.socket) ==> SocketOk(e, v.sockets[i])
    ensures Good(e, v) && Alone(v, t)
  {
    hide OpOk, SocketOk, Apart;
    forall i | 0 <= i < |v.ops| ensures OpOk(e, v, v.ops[i]) {
      OpOkFrame(e, w, v, t, w.ops[i]);
    }
  }

  lemma {:induction false} BeginGood(e: Env, w: World, t: Task)
    requires Good(e, w) && Alone(w, t) && OpOk(e, w, Op(t, None))
    ensures Good(e, Begin(w, t)) && Waiting(Begin(w, t).ops) == Waiting(w.ops) + (if t.at.Accepting? then 1 else 0)
  {
    var v := Begin(w, t);
    assert Front(v.ops) == w.ops;
    hide OpOk, SocketOk, Apart;
    forall i | 0 <= i < |v.ops| ensures OpOk(e, v, v.ops[i]) {
      OpOkHeap(e, w, v, v.ops[i]);
    }
  }

  lemma {:induction false} OpOkHeap(e: Env, w: World, v: World, op: Op)
    requires OpOk(e, w, op) && v == w.(ops := v.ops, acceptFailed := v.acceptFailed)
    ensures OpOk(e, v, op)
  {
    hide Whole;
  }

  lemma {:induction false} WaitingConcat(a: seq<Op>, b: seq<Op>)
    ensures Waiting(a + b) == Waiting(a) + Waiting(b)
    decreases |b|
  {
    if b == [] {
      assert a + b == a;
    } else {
      assert Front(a + b) == a + Front(b);
      WaitingConcat(a, Front(b));
    }
  }

  lemma {:induction false} WaitingRemove(ops: seq<Op>, k: nat)
    requires k < |ops|
    ensures Waiting(Remove(ops, k)) + (if ops[k].task.at.Accepting? then 1 else 0) == Waiting(ops)
  {
    assert ops == ops[..k] + [ops[k]] + ops[k + 1..];
    WaitingConcat(ops[..k], [ops[k]]);
    WaitingConcat(ops[..k] + [ops[k]], ops[k + 1..]);
    WaitingConcat(ops[..k], ops[k + 1..]);
    assert Front([ops[k]]) == [];
  }

  lemma {:induction false} RemoveGood(e: Env, w: World, k: nat, failed: bool)
    requires Good(e, w) && k < |w.ops|
    ensures var v := w.(ops := Remove(w.ops, k), acceptFailed := failed);
            Good(e, v) && OpOk(e, v, w.ops[k]) && Alone(v, w.ops[k].task)
  {
    var v := w.(ops := Remove(w.ops, k), acceptFailed := failed);
    hide OpOk, SocketOk, Apart;
    forall i | 0 <= i < |v.ops| ensures OpOk(e, v, v.ops[i]) {
      OpOkHeap(e, w, v, v.ops[i]);
    }
    OpOkHeap(e, w, v, w.ops[k]);
  }

  /** The parent goes round: a new socket, and the copy waits for it. */
  lemma {:induction false} WaitAcceptGood(e: Env, w: World, t: Task)
    requires Good(e, w)
    requires t.point.Start? && t.length == e.junk && t.buffer.None? && t.request.None? && t.reply.None?
    ensures Good(e, WaitAccept(w, t)) && Waiting(WaitAccept(w, t).ops) == Waiting(w.ops) + 1
  {
    var u := t.(socket := Some(|w.sockets|), at := Accepting);
    var v := w.(sockets := w.sockets + [Socket(CLEARED, [], [], [])]);
    forall i | 0 <= i < |w.ops| ensures Apart(w.ops[i].task, u) && Apart(u, w.ops[i].task) {
      assert OpOk(e, w, w.ops[i]);
    }
    HeapGood(e, w, v, u);
    BeginGood(e, v, u);
  }

  /** The child's buffer and request are new, so nobody else's. */
  lemma {:induction false} NewIsAlone(e: Env, w: World, t: Task, u: Task)
    requires Good(e, w) && Alone(w, t)
    requires u.socket == t.socket && u.buffer == Some(|w.buffers|) && u.request == Some(|w.requests|)
    ensures Alone(w, u)
  {
    hide Whole, SocketOk;
    forall i | 0 <= i < |w.ops| ensures Apart(w.ops[i].task, u) && Apart(u, w.ops[i].task) {
      assert OpOk(e, w, w.ops[i]);
    }
  }

  lemma {:induction false} FirstReadParts(e: Env, w: World, t: Task, blank: FullRequest) returns (v: World, u: Task)
    requires OpOk(e, w, Op(t, None)) && t.at.Accepting?
    ensures t.socket.value < |w.sockets| && FirstRead(w, t, blank) == Begin(v, u)
    ensures v.ops == w.ops && Frame(w, v, u) && |v.sockets| == |w.sockets| && SocketOk(e, v.sockets[t.socket.value])
    ensures u.socket == t.socket && u.buffer == Some(|w.buffers|) && u.request == Some(|w.requests|) && u.at.Reading?
    ensures OpOk(e, v, Op(u, None))
  {
    var s := t.socket.value;
    v := w.(buffers := w.buffers + [seq(BUFFER_SIZE, _ => 0)], requests := w.requests + [blank],
            sockets := w.sockets[s := w.sockets[s].(start := blank)]);
    u := t.(buffer := Some(|w.buffers|), request := Some(|w.requests|), at := Reading);
  }

  lemma {:induction false} FirstReadGood(e: Env, w: World, t: Task, blank: FullRequest)
    requires Good(e, w) && OpOk(e, w, Op(t, None)) && t.at.Accepting? && Alone(w, t)
    ensures t.socket.Some? && t.socket.value < |w.sockets|
    ensures Good(e, FirstRead(w, t, blank)) && Waiting(FirstRead(w, t, blank).ops) == Waiting(w.ops)
  {
    var v, u := FirstReadParts(e, w, t, blank);
    NewIsAlone(e, w, t, u);
    hide FirstRead, OpOk, SocketOk, Frame;
    HeapGood(e, w, v, u);
    BeginGood(e, v, u);
  }

  /** Parsing what a read brought is parsing everything the child has read. */
  lemma {:induction false} WholeGrows(e: Env, s: Socket, t: Task, req: FullRequest, data: bytes)
    requires Whole(e, s) == Parsed3(Indeterminate, |s.parsed|, t.point, t.length, req)
    ensures SafePoint(t.point, req)
    ensures Whole(e, s.(parsed := s.parsed + data)) == Shift3(|s.parsed|, Run3(e.cast, t.point, t.length, req, data))
  {
    hide RequestCoroutine.Resume, Run3;
    Run3Concat(e.cast, Start, e.junk, s.start, s.parsed, data);
  }

  lemma {:induction false} WholeIgnores(e: Env, s: Socket, c: Socket)
    requires c.start == s.start && c.parsed == s.parsed
    ensures Whole(e, c) == Whole(e, s)
  {
  }

  /** What a read has brought is parsed: the socket's record and the copy, before it
      is decided whether to read on or to reply. */
  lemma {:induction false} DataParsed(e: Env, w: World, t: Task, n: nat) returns (c: Socket, r: Parsed3)
    requires OpOk(e, w, Op(t, Some(Completion(false, n)))) && t.at.Reading? && SocketOk(e, w.sockets[t.socket.value])
    ensures Usable(w, t) && n <= BUFFER_SIZE
    ensures var s, data := w.sockets[t.socket.value], w.buffers[t.buffer.value][..n];
            && r == Run3(e.cast, t.point, t.length, w.requests[t.request.value], data)
            && c == s.(parsed := s.parsed + data) && c.sent == [] && c.arrived == c.parsed
            && Whole(e, c) == Shift3(|s.parsed|, r)
  {
    hide RequestCoroutine.Resume, Run3, Whole;
    var s, data := w.sockets[t.socket.value], w.buffers[t.buffer.value][..n];
    r := Run3(e.cast, t.point, t.length, w.requests[t.request.value], data);
    c := s.(parsed := s.parsed + data);
    WholeGrows(e, s, t, w.requests[t.request.value], data);
  }

  /** While the verdict is open, the copy that reads on is in order. */
  lemma {:induction false} ReadsOn(e: Env, w: World, t: Task, n: nat) returns (v: World, u: Task)
    requires OpOk(e, w, Op(t, Some(Completion(false, n)))) && t.at.Reading? && SocketOk(e, w.sockets[t.socket.value])
    requires Run3(e.cast, t.point, t.length, w.requests[t.request.value], w.buffers[t.buffer.value][..n]).verdict.Indeterminate?
    ensures ParseRead(e, w, t, n) == Begin(v, u) && Parted(e, w, t, v, u)
  {
    var c, r := DataParsed(e, w, t, n);
    hide RequestCoroutine.Resume, Run3, Whole;
    Run3Length(e.cast, t.point, t.length, w.requests[t.request.value], w.buffers[t.buffer.value][..n]);
    u := t.(point := r.point, length := r.length, valid := r.verdict);
    v := w.(requests := w.requests[t.request.value := r.req], sockets := w.sockets[t.socket.value := c]);
    assert c.parsed + [] == c.parsed;
  }

  lemma {:induction false} SocketAnswered(e: Env, s: Socket, c: Socket, r: Parsed3, rep: R.Reply)
    requires c.sent == [] && c.arrived == c.parsed && Whole(e, c) == Shift3(|s.parsed|, r) && !r.verdict.Indeterminate?
    requires rep == if r.verdict.True? then e.handler(r.req) else R.Stock(R.BadRequest)
    ensures SocketOk(e, c.(sent := [rep]))
  {
    hide R.Stock, Run3;
    WholeIgnores(e, c, c.(sent := [rep]));
    hide Whole;
  }

  lemma {:induction false} WritingOk(e: Env, v: World, u: Task)
    requires u.at.Writing? && u.socket.Some? && u.socket.value < |v.sockets| && u.reply.Some? && u.reply.value < |v.replies|
    requires u.buffer.Some? ==> u.buffer.value < |v.buffers|
    requires u.request.Some? ==> u.request.value < |v.requests|
    requires v.sockets[u.socket.value].sent == [v.replies[u.reply.value]]
    ensures OpOk(e, v, Op(u, None))
  {
  }

  /** With a verdict, the copy that writes holds the reply the verdict calls for. */
  lemma {:induction false} Replies(e: Env, w: World, t: Task, n: nat) returns (v: World, u: Task)
    requires OpOk(e, w, Op(t, Some(Completion(false, n)))) && t.at.Reading? && SocketOk(e, w.sockets[t.socket.value])
    requires !Run3(e.cast, t.point, t.length, w.requests[t.request.value], w.buffers[t.buffer.value][..n]).verdict.Indeterminate?
    ensures ParseRead(e, w, t, n) == Begin(v, u) && Parted(e, w, t, v, u)
  {
    hide Run3, Whole, R.Stock, SocketOk, InBuffer, Answer;
    var c, r := DataParsed(e, w, t, n);
    var rep := if r.verdict.True? then e.handler(r.req) else R.Stock(R.BadRequest);
    SocketAnswered(e, w.sockets[t.socket.value], c, r, rep);
    assert c.sent + [rep] == [rep];
    u := t.(point := Start, length := 0, valid := r.verdict, reply := Some(|w.replies|), at := Writing);
    v := w.(requests := w.requests[t.request.value := r.req], sockets := w.sockets[t.socket.value := c.(sent := [rep])],
            replies := w.replies + [rep]);
    WritingOk(e, v, u);
    hide OpOk;
  }

  /** The heap has changed only where t points, and the copy u is in order in it. */
  predicate Parted(e: Env, w: World, t: Task, v: World, u: Task)
    requires t.socket.Some?
  {
    && v.ops == w.ops && Frame(w, v, t) && |v.sockets| == |w.sockets| && t.socket.value < |v.sockets|
    && SocketOk(e, v.sockets[t.socket.value])
    && u.socket == t.socket && u.buffer == t.buffer && u.request == t.request && !u.at.Accepting?
    && OpOk(e, v, Op(u, None))
  }

  lemma {:induction false} ParseReadParts(e: Env, w: World, t: Task, n: nat) returns (v: World, u: Task)
    requires OpOk(e, w, Op(t, Some(Completion(false, n)))) && t.at.Reading? && SocketOk(e, w.sockets[t.socket.value])
    ensures Usable(w, t) && n <= BUFFER_SIZE && ParseRead(e, w, t, n) == Begin(v, u) && Parted(e, w, t, v, u)
  {
    hide Run3, Whole, ParseRead, Parted, SocketOk, InBuffer, Answer;
    if Run3(e.cast, t.point, t.length, w.requests[t.request.value], w.buffers[t.buffer.value][..n]).verdict.Indeterminate? {
      v, u := ReadsOn(e, w, t, n);
    } else {
      v, u := Replies(e, w, t, n);
    }
  }

  lemma {:induction false} ParseReadGood(e: Env, w: World, t: Task, n: nat)
    requires Good(e, w) && OpOk(e, w, Op(t, Some(Completion(false, n)))) && t.at.Reading? && Alone(w, t)
    ensures Usable(w, t) && n <= BUFFER_SIZE
    ensures Good(e, ParseRead(e, w, t, n)) && Waiting(ParseRead(e, w, t, n).ops) == Waiting(w.ops)
  {
    assert SocketOk(e, w.sockets[t.socket.value]);
    var v, u := ParseReadParts(e, w, t, n);
    hide OpOk, SocketOk, ParseRead;
    HeapGood(e, w, v, t);
    BeginGood(e, v, u);
  }

  lemma {:induction false} ArriveGood(e: Env, w: World, ev: Event)
    requires Good(e, w) && ev.Arrives? && Possible(w, ev)
    ensures Usable(w, w.ops[ev.k].task)
    ensures Good(e, Arrive(w, ev.k, ev.error, ev.data)) && Waiting(Arrive(w, ev.k, ev.error, ev.data).ops) == Waiting(w.ops)
  {
    ArrivedOk(e, w, ev);
    var k, v := ev.k, Arrive(w, ev.k, ev.error, ev.data);
    assert v.ops == w.ops[k := v.ops[k]] && v.ops[k].task == w.ops[k].task;
    hide Arrive, Possible, Usable;
    WaitingUpdate(w.ops, k, v.ops[k]);
    OneOpChanged(e, w, v, k);
  }

  /** An operation has changed, but not whose it is, and the heap where it points. */
  lemma {:induction false} OneOpChanged(e: Env, w: World, v: World, k: nat)
    requires Good(e, w) && k < |w.ops| && k < |v.ops| && v.ops == w.ops[k := v.ops[k]] && v.ops[k].task == w.ops[k].task
    requires Frame(w, v, w.ops[k].task) && OpOk(e, v, v.ops[k])
    requires forall i :: 0 <= i < |v.sockets| ==> SocketOk(e, v.sockets[i])
    ensures Good(e, v)
  {
    hide OpOk, SocketOk, Frame, Apart;
    assert forall i :: 0 <= i < |v.ops| ==> v.ops[i].task == w.ops[i].task;
    forall i | 0 <= i < |v.ops| ensures OpOk(e, v, v.ops[i]) {
      if i != k {
        assert v.ops[i] == w.ops[i];
        OpOkFrame(e, w, v, w.ops[k].task, w.ops[i]);
      }
    }
  }

  lemma {:induction false} ArrivedOk(e: Env, w: World, ev: Event)
    requires Good(e, w) && ev.Arrives? && Possible(w, ev)
    ensures Usable(w, w.ops[ev.k].task)
    ensures var v := Arrive(w, ev.k, ev.error, ev.data);
            && OpOk(e, v, v.ops[ev.k]) && Frame(w, v, w.ops[ev.k].task) && |v.sockets| == |w.sockets|
            && forall i :: 0 <= i < |v.sockets| ==> SocketOk(e, v.sockets[i])
  {
    hide Whole;
    var t := w.ops[ev.k].task;
    assert OpOk(e, w, w.ops[ev.k]);
    var v := Arrive(w, ev.k, ev.error, ev.data);
    if t.at.Reading? {
      var s := t.socket.value;
      assert SocketOk(e, w.sockets[s]);
      WholeIgnores(e, w.sockets[s], v.sockets[s]);
      assert v.buffers[t.buffer.value][..|ev.data|] == ev.data;
    }
  }

  lemma {:induction false} WaitingUpdate(ops: seq<Op>, k: nat, op: Op)
    requires k < |ops| && op.task.at == ops[k].task.at
    ensures Waiting(ops[k := op]) == Waiting(ops)
    decreases |ops|
  {
    if k == |ops| - 1 {
      assert Front(ops[k := op]) == Front(ops);
    } else {
      assert Front(ops[k := op]) == Front(ops)[k := op];
      WaitingUpdate(Front(ops), k, op);
    }
  }

  lemma {:induction false} RunsKeeps(e: Env, w: World, ev: Event)
    requires Inv(e, w) && ev.Runs? && Possible(w, ev)
    ensures Usable(w, w.ops[ev.k].task) && Inv(e, Step(e, w, ev))
  {
    var op := w.ops[ev.k];
    var v := w.(ops := Remove(w.ops, ev.k));
    assert OpOk(e, w, op);
    WaitingRemove(w.ops, ev.k);
    RemoveGood(e, w, ev.k, w.acceptFailed);
    if op.done.value.error {
      RemoveGood(e, w, ev.k, w.acceptFailed || op.task.at.Accepting?);
      hide Good;
    } else if op.task.at.Accepting? {
      assert OpOk(e, v, Op(op.task, None));
      var t := op.task;
      FirstReadGood(e, v, t, ev.blank);
      hide Good;
      WaitAcceptGood(e, FirstRead(v, t, ev.blank), t);
    } else if op.task.at.Reading? {
      hide Good;
      ParseReadGood(e, v, op.task, op.done.value.length);
    }
  }

  lemma {:induction false} StepKeeps(e: Env, w: World, ev: Event)
    requires Inv(e, w) && Possible(w, ev)
    ensures Usable(w, w.ops[ev.k].task) && Inv(e, Step(e, w, ev))
  {
    match ev
    case Arrives(k, error, data) => ArriveGood(e, w, ev);
    case Runs(k, blank) => RunsKeeps(e, w, ev);
  }

  lemma {:induction false} InitialInv(e: Env)
    ensures Inv(e, INITIAL(e))
  {
    var w := World([], [], [], [], [], false);
    assert Good(e, w) && Waiting(w.ops) == 0;
    WaitAcceptGood(e, w, Task(Initial, None, None, None, None, False, Start, e.junk));
    hide Good;
  }

  lemma {:induction false} AlwaysInv(e: Env, evs: seq<Event>)
    requires After(e, evs).Some?
    ensures Inv(e, After(e, evs).value)
    decreases |evs|
  {
    if evs == [] {
      InitialInv(e);
    } else {
      AlwaysInv(e, Front(evs));
      hide Inv, Step, Usable, Possible;
      StepKeeps(e, After(e, Front(evs)).value, Last(evs));
    }
  }

  // ------------------------------------------------------------ the theorems

  /** Exactly one copy waits for an accept, until an accept fails; then none ever. */
  lemma {:induction false} OneWaits(e: Env, evs: seq<Event>, w: World)
    requires After(e, evs) == Some(w)
    ensures Waiting(w.ops) == if AcceptErred(e, evs) then 0 else 1
  {
    AlwaysInv(e, evs);
    AlwaysServed(e, evs, w);
    hide After, Waiting, Good, AcceptErred, Served, Over, Accepted;
  }

  /** No two copies share a socket, a buffer or a request, and the one that waits
      for an accept has a fresh parser and a socket nothing has happened on. */
  lemma {:induction false} CopiesApart(e: Env, evs: seq<Event>, w: World, i: nat, j: nat)
    requires After(e, evs) == Some(w) && i < |w.ops| && j < |w.ops|
    ensures i != j ==> Apart(w.ops[i].task, w.ops[j].task)
    ensures var t := w.ops[i].task;
            t.at.Accepting? ==> t.point.Start? && t.length == e.junk && t.socket.Some? && t.socket.value < |w.sockets|
                                && w.sockets[t.socket.value] == Socket(CLEARED, [], [], [])
  {
    AlwaysInv(e, evs);
    hide After, Waiting, SocketOk, Whole, Apart;
    assert OpOk(e, w, w.ops[i]);
  }

  /** A copy that resumes finds everything it dereferences, so leaving this out of a
      run would exclude nothing. */
  lemma {:induction false} NothingDangles(e: Env, evs: seq<Event>, w: World, ev: Event)
    requires After(e, evs) == Some(w) && Possible(w, ev)
    ensures Usable(w, w.ops[ev.k].task) && After(e, evs + [ev]).Some?
  {
    AlwaysInv(e, evs);
    assert OpOk(e, w, w.ops[ev.k]);
    assert Front(evs + [ev]) == evs;
    hide Inv, OpOk, Step;
  }

  /** Although the parser is copied with every operation, the replies on a socket are
      those that one parse of everything its child has parsed calls for: none before
      a verdict, then one. That is everything that arrived, but for what a completed
      read has left in the buffer. */
  lemma {:induction false} OneParsePerSocket(e: Env, evs: seq<Event>, w: World, s: nat)
    requires After(e, evs) == Some(w) && s < |w.sockets|
    ensures var r := Whole(e, w.sockets[s]);
            && (r.verdict.True? ==> w.sockets[s].sent == [e.handler(r.req)])
            && (r.verdict.False? ==> w.sockets[s].sent == [R.Stock(R.BadRequest)])
            && (r.verdict.Indeterminate? ==> w.sockets[s].sent == [])
    ensures w.sockets[s].parsed <= w.sockets[s].arrived
    ensures forall i :: 0 <= i < |w.ops| && w.ops[i].task.at.Reading? && w.ops[i].task.socket == Some(s) ==>
              && w.sockets[s].sent == []
              && (w.ops[i].done.None? ==> w.sockets[s].parsed == w.sockets[s].arrived)
  {
    AlwaysInv(e, evs);
    hide After, Waiting, Whole, Apart;
    assert SocketOk(e, w.sockets[s]);
    forall i | 0 <= i < |w.ops| && w.ops[i].task.at.Reading? && w.ops[i].task.socket == Some(s)
      ensures w.sockets[s].sent == []
      ensures w.ops[i].done.None? ==> w.sockets[s].parsed == w.sockets[s].arrived
    {
      assert OpOk(e, w, w.ops[i]);
    }
  }

  /** The handler's reply is begun only for a well-formed message with its body. */
  lemma {:induction false} AnsweredIsFramed(e: Env, evs: seq<Event>, w: World, s: nat) returns (m: G.Message, body: bytes)
    requires After(e, evs) == Some(w) && s < |w.sockets| && Whole(e, w.sockets[s]).verdict.True?
    ensures C.Acceptable(m) && ScanLength(e.cast, G.Headers(m.lines)) == Some(|body|)
    ensures G.Print(m) + body <= w.sockets[s].parsed
    ensures w.sockets[s].sent == [e.handler(FullRequest(G.Meaning(m), body))]
  {
    OneParsePerSocket(e, evs, w, s);
    assert Whole(e, w.sockets[s]) == Run3(e.cast, Start, e.junk, w.sockets[s].start, w.sockets[s].parsed);
    hide *;
    m, body := C.AcceptedIsFramed(e.cast, e.junk, w.sockets[s].start, w.sockets[s].parsed);
  }

  /** And it is, as soon as such a message and body have been parsed. */
  lemma {:induction false} FramedIsAnswered(e: Env, evs: seq<Event>, w: World, s: nat, m: G.Message, body: bytes)
    requires After(e, evs) == Some(w) && s < |w.sockets|
    requires C.Acceptable(m) && ScanLength(e.cast, G.Headers(m.lines)) == Some(|body|)
    requires G.Print(m) + body <= w.sockets[s].parsed
    ensures w.sockets[s].sent == [e.handler(FullRequest(G.Meaning(m), body))]
  {
    OneParsePerSocket(e, evs, w, s);
    var c := w.sockets[s];
    assert Whole(e, c) == Run3(e.cast, Start, e.junk, c.start, c.parsed);
    hide Whole, After, Run3, C.Acceptable, ScanLength, G.Print, G.Meaning, G.Headers;
    var rest := c.parsed[|G.Print(m) + body|..];
    assert c.parsed == G.Print(m) + body + rest;
    C.FramedIsAccepted(e.cast, e.junk, c.start, m, body, rest);
  }

  // ------------------------------------------------- every client has its child

  /** The socket whose conversation a handler ends: an operation of its child has
      failed, or its reply has been written. */
  function EndedBy(w: World, ev: Event): set<nat> {
    if ev.Runs? && Possible(w, ev) && w.ops[ev.k].task.socket.Some? && !w.ops[ev.k].task.at.Accepting?
       && (w.ops[ev.k].done.value.error || w.ops[ev.k].task.at.Writing?)
    then {w.ops[ev.k].task.socket.value}
    else {}
  }

  function Over(e: Env, evs: seq<Event>): set<nat>
    requires After(e, evs).Some?
  {
    if evs == [] then {} else Over(e, Front(evs)) + EndedBy(After(e, Front(evs)).value, Last(evs))
  }

  /** The handler of an accept that has succeeded. */
  predicate Accepts(w: World, ev: Event) {
    ev.Runs? && Possible(w, ev) && w.ops[ev.k].task.at.Accepting? && !w.ops[ev.k].done.value.error
  }

  function Accepted(e: Env, evs: seq<Event>): nat
    requires After(e, evs).Some?
  {
    if evs == [] then 0
    else Accepted(e, Front(evs)) + (if Accepts(After(e, Front(evs)).value, Last(evs)) then 1 else 0)
  }

  /** Whether the handler of an accept that failed has run. */
  predicate AcceptErred(e: Env, evs: seq<Event>)
    requires After(e, evs).Some?
  {
    evs != [] && (AcceptErred(e, Front(evs)) || Errs(After(e, Front(evs)).value, Last(evs)))
  }

  predicate Errs(w: World, ev: Event) {
    ev.Runs? && Possible(w, ev) && w.ops[ev.k].task.at.Accepting? && w.ops[ev.k].done.value.error
  }

  /** What the reads on socket s have brought. */
  function Brought(e: Env, evs: seq<Event>, s: nat): bytes
    requires After(e, evs).Some?
  {
    if evs == [] then [] else Brought(e, Front(evs), s) + Brings(After(e, Front(evs)).value, Last(evs), s)
  }

  function Brings(w: World, ev: Event, s: nat): bytes {
    if ev.Arrives? && Possible(w, ev) && w.ops[ev.k].task.at.Reading? && w.ops[ev.k].task.socket == Some(s) then ev.data else []
  }

  lemma {:induction false} ParseReadArrived(e: Env, w: World, t: Task, length: nat, s: nat)
    requires Usable(w, t) && t.at.Reading? && length <= BUFFER_SIZE && s < |w.sockets|
    ensures |ParseRead(e, w, t, length).sockets| == |w.sockets| && ParseRead(e, w, t, length).sockets[s].arrived == w.sockets[s].arrived
  {
    hide Run3, R.Stock, SafePoint, LengthOk;
  }

  lemma {:induction false} StepArrived(e: Env, w: World, ev: Event, s: nat)
    requires Good(e, w) && Possible(w, ev) && Usable(w, w.ops[ev.k].task)
    ensures var v := Step(e, w, ev);
            && |w.sockets| <= |v.sockets|
            && (s < |w.sockets| ==> v.sockets[s].arrived == w.sockets[s].arrived + Brings(w, ev, s))
            && (|w.sockets| <= s < |v.sockets| ==> v.sockets[s].arrived == [])
            && (|w.sockets| <= s ==> Brings(w, ev, s) == [])
  {
    if s < |w.sockets| { assert w.sockets[s].arrived + [] == w.sockets[s].arrived; }
    assert OpOk(e, w, w.ops[ev.k]);
    hide Good, OpOk, Run3, SafePoint, LengthOk;
    if ev.Runs? && !w.ops[ev.k].done.value.error && w.ops[ev.k].task.at.Reading? && s < |w.sockets| {
      ParseReadArrived(e, w.(ops := Remove(w.ops, ev.k)), w.ops[ev.k].task, w.ops[ev.k].done.value.length, s);
      hide ParseRead;
    }
  }

  /** A socket's record of what arrived is what its reads have brought. */
  lemma {:induction false} ArrivedIsBrought(e: Env, evs: seq<Event>, w: World, s: nat)
    requires After(e, evs) == Some(w)
    ensures s < |w.sockets| ==> w.sockets[s].arrived == Brought(e, evs, s)
    ensures s >= |w.sockets| ==> Brought(e, evs, s) == []
    decreases |evs|
  {
    if evs != [] {
      var v := After(e, Front(evs)).value;
      ArrivedIsBrought(e, Front(evs), v, s);
      AlwaysInv(e, Front(evs));
      hide Step, Usable, Possible, Good, Brings;
      StepArrived(e, v, Last(evs), s);
    }
  }

  predicate Child(op: Op, s: nat) {
    op.task.socket == Some(s) && !op.task.at.Accepting?
  }

  predicate Busy(ops: seq<Op>, s: nat) {
    exists i :: 0 <= i < |ops| && Child(ops[i], s)
  }

  /** A copy waits on the socket made last, or is a child with the buffer and the
      request made for its socket. */
  predicate OnOwn(t: Task, last: nat) {
    if t.at.Accepting? then t.socket == Some(last)
    else t.socket.Some? && t.socket.value < last && t.buffer == t.socket && t.request == t.socket
  }

  predicate Served(w: World, over: set<nat>) {
    && |w.buffers| == |w.requests| == |w.sockets| - 1
    && (forall i :: 0 <= i < |w.ops| ==> OnOwn(w.ops[i].task, |w.sockets| - 1))
    && (forall s: nat :: s < |w.sockets| - 1 ==> (Busy(w.ops, s) <==> s !in over))
    && (forall s :: s in over ==> s < |w.sockets| - 1)
  }

  lemma {:induction false} BusyUpdate(ops: seq<Op>, k: nat, op: Op, s: nat)
    requires k < |ops| && op.task == ops[k].task
    ensures Busy(ops[k := op], s) <==> Busy(ops, s)
  {
    var after := ops[k := op];
    if Busy(after, s) {
      var i :| 0 <= i < |after| && Child(after[i], s);
      assert Child(ops[i], s);
    }
    if Busy(ops, s) {
      var i :| 0 <= i < |ops| && Child(ops[i], s);
      assert Child(after[i], s);
    }
  }

  lemma {:induction false} BusyAppend(ops: seq<Op>, op: Op, s: nat)
    ensures Busy(ops + [op], s) <==> Busy(ops, s) || Child(op, s)
  {
    var after := ops + [op];
    assert after[|ops|] == op;
    if Busy(ops, s) {
      var i :| 0 <= i < |ops| && Child(ops[i], s);
      assert Child(after[i], s);
    }
  }

  lemma {:induction false} BusyRemove(ops: seq<Op>, k: nat, s: nat)
    requires k < |ops|
    ensures Busy(Remove(ops, k), s) <==> exists i :: 0 <= i < |ops| && i != k && Child(ops[i], s)
  {
    var after := Remove(ops, k);
    if Busy(after, s) {
      var i :| 0 <= i < |after| && Child(after[i], s);
      assert Child(ops[if i < k then i else i + 1], s);
    }
    if exists i :: 0 <= i < |ops| && i != k && Child(ops[i], s) {
      var i :| 0 <= i < |ops| && i != k && Child(ops[i], s);
      assert Child(after[if i < k then i else i - 1], s);
    }
  }

  /** Taking an operation away leaves its socket without a child, and no other. */
  lemma {:induction false} Removed(e: Env, w: World, k: nat, over: set<nat>, s: nat)
    requires Good(e, w) && Served(w, over) && k < |w.ops|
    ensures Busy(Remove(w.ops, k), s) <==> Busy(w.ops, s) && !Child(w.ops[k], s)
  {
    BusyRemove(w.ops, k, s);
    assert forall i :: 0 <= i < |w.ops| && i != k ==> Apart(w.ops[i].task, w.ops[k].task);
    hide Good, Served, OpOk;
  }

  lemma {:induction false} ParseReadShape(e: Env, w: World, t: Task, length: nat) returns (u: Task)
    requires Usable(w, t) && t.at.Reading? && length <= BUFFER_SIZE
    ensures var v := ParseRead(e, w, t, length);
            && v.ops == w.ops + [Op(u, None)] && |v.sockets| == |w.sockets| && |v.buffers| == |w.buffers| && |v.requests| == |w.requests|
    ensures !u.at.Accepting? && u.socket == t.socket && u.buffer == t.buffer && u.request == t.request
  {
    hide Run3, R.Stock, SafePoint, LengthOk;
    u := Last(ParseRead(e, w, t, length).ops).task;
  }

  lemma {:induction false} HandledServes(e: Env, w: World, ev: Event, over: set<nat>)
    requires Good(e, w) && Served(w, over) && ev.Runs? && Possible(w, ev) && Usable(w, w.ops[ev.k].task)
    requires !w.ops[ev.k].done.value.error && w.ops[ev.k].task.at.Reading?
    ensures Served(Step(e, w, ev), over)
  {
    var op, v := w.ops[ev.k], w.(ops := Remove(w.ops, ev.k));
    var u := ParseReadShape(e, v, op.task, op.done.value.length);
    forall s: nat ensures Busy(Step(e, w, ev).ops, s) <==> Busy(w.ops, s) {
      Removed(e, w, ev.k, over, s);
      BusyAppend(v.ops, Op(u, None), s);
    }
    hide Good, Usable, ParseRead, Busy;
  }

  lemma {:induction false} AcceptServes(e: Env, w: World, ev: Event, over: set<nat>)
    requires Good(e, w) && Served(w, over) && Accepts(w, ev) && Usable(w, w.ops[ev.k].task)
    ensures Served(Step(e, w, ev), over)
  {
    var t, d := w.ops[ev.k].task, Step(e, w, ev);
    var child, parent := AcceptShape(e, w, ev);
    forall i | 0 <= i < |w.ops| && i != ev.k ensures !w.ops[i].task.at.Accepting? {
      assert Apart(w.ops[i].task, t) && OnOwn(w.ops[i].task, |w.sockets| - 1);
      hide Good;
    }
    forall s: nat ensures Busy(d.ops, s) <==> Busy(w.ops, s) || s == |w.sockets| - 1 {
      AcceptBusy(e, w, ev, over, s);
    }
    hide Good, Busy, Usable, Step, Possible, Apart;
  }

  lemma {:induction false} AcceptBusy(e: Env, w: World, ev: Event, over: set<nat>, s: nat)
    requires Good(e, w) && Served(w, over) && Accepts(w, ev) && Usable(w, w.ops[ev.k].task)
    ensures Busy(Step(e, w, ev).ops, s) <==> Busy(w.ops, s) || s == |w.sockets| - 1
  {
    var child, parent := AcceptShape(e, w, ev);
    var ops := Remove(w.ops, ev.k);
    assert w.ops[ev.k].task.socket == Some(|w.sockets| - 1);
    Removed(e, w, ev.k, over, s);
    BusyAppend(ops, Op(child, None), s);
    BusyAppend(ops + [Op(child, None)], Op(parent, None), s);
    hide Good, Served, Usable, Step, Busy, Remove;
  }

  lemma {:induction false} AcceptShape(e: Env, w: World, ev: Event) returns (child: Task, parent: Task)
    requires Accepts(w, ev) && Usable(w, w.ops[ev.k].task)
    ensures var d, t := Step(e, w, ev), w.ops[ev.k].task;
            && d.ops == Remove(w.ops, ev.k) + [Op(child, None)] + [Op(parent, None)]
            && |d.sockets| == |w.sockets| + 1 && |d.buffers| == |w.buffers| + 1 && |d.requests| == |w.requests| + 1
            && child == t.(buffer := Some(|w.buffers|), request := Some(|w.requests|), at := Reading)
            && parent == t.(socket := Some(|w.sockets|), at := Accepting)
  {
    var t := w.ops[ev.k].task;
    child := t.(buffer := Some(|w.buffers|), request := Some(|w.requests|), at := Reading);
    parent := t.(socket := Some(|w.sockets|), at := Accepting);
  }

  lemma {:induction false} EndServes(e: Env, w: World, ev: Event, over: set<nat>)
    requires Good(e, w) && Served(w, over) && ev.Runs? && Possible(w, ev) && Usable(w, w.ops[ev.k].task)
    requires w.ops[ev.k].done.value.error || w.ops[ev.k].task.at.Writing?
    ensures Served(Step(e, w, ev), over + EndedBy(w, ev))
  {
    var d := Step(e, w, ev);
    forall s: nat ensures Busy(d.ops, s) <==> Busy(w.ops, s) && !Child(w.ops[ev.k], s) {
      Removed(e, w, ev.k, over, s);
    }
    hide Good, Usable, Busy;
  }

  lemma {:induction false} ArriveServes(e: Env, w: World, ev: Event, over: set<nat>)
    requires Served(w, over) && ev.Arrives? && Possible(w, ev) && Usable(w, w.ops[ev.k].task)
    ensures Served(Step(e, w, ev), over)
  {
    var d := Step(e, w, ev);
    forall s: nat ensures Busy(d.ops, s) <==> Busy(w.ops, s) {
      BusyUpdate(w.ops, ev.k, d.ops[ev.k], s);
    }
    hide Usable, Busy;
  }

  lemma {:induction false} StepServes(e: Env, w: World, ev: Event, over: set<nat>)
    requires Good(e, w) && Served(w, over) && Possible(w, ev) && Usable(w, w.ops[ev.k].task)
    ensures Served(Step(e, w, ev), over + EndedBy(w, ev))
    ensures |Step(e, w, ev).sockets| == |w.sockets| + (if Accepts(w, ev) then 1 else 0)
    ensures Step(e, w, ev).acceptFailed <==> w.acceptFailed || Errs(w, ev)
  {
    assert over + {} == over;
    if ev.Arrives? {
      ArriveServes(e, w, ev, over);
    } else if w.ops[ev.k].done.value.error || w.ops[ev.k].task.at.Writing? {
      EndServes(e, w, ev, over);
    } else if w.ops[ev.k].task.at.Accepting? {
      AcceptServes(e, w, ev, over);
    } else {
      assert OpOk(e, w, w.ops[ev.k]);
      HandledServes(e, w, ev, over);
    }
    hide Good, Served, Run3;
  }

  lemma {:induction false} AlwaysServed(e: Env, evs: seq<Event>, w: World)
    requires After(e, evs) == Some(w)
    ensures Served(w, Over(e, evs)) && |w.sockets| == Accepted(e, evs) + 1
    ensures w.acceptFailed <==> AcceptErred(e, evs)
    decreases |evs|
  {
    if evs != [] {
      var v := After(e, Front(evs)).value;
      AlwaysServed(e, Front(evs), v);
      AlwaysInv(e, Front(evs));
      hide Step, Usable, Possible, Good, Served, EndedBy, Accepts, Errs;
      StepServes(e, v, Last(evs), Over(e, Front(evs)));
    }
  }

  /** Every client accepted has its child, until an operation of the child fails or its
      reply is written, and no longer: a single copy, with the buffer and the request
      made for that socket, which reads until a reply is begun and then writes. */
  lemma {:induction false} AcceptedIsServed(e: Env, evs: seq<Event>, w: World)
    requires After(e, evs) == Some(w)
    ensures |w.buffers| == |w.requests| == |w.sockets| - 1 == Accepted(e, evs)
    ensures forall s: nat :: s < |w.sockets| - 1 && s !in Over(e, evs) ==> ServedBy(w, s)
    ensures forall i :: 0 <= i < |w.ops| && !w.ops[i].task.at.Accepting? ==>
              w.ops[i].task.socket.Some? && w.ops[i].task.socket.value < |w.sockets| - 1 && w.ops[i].task.socket.value !in Over(e, evs)
  {
    AlwaysInv(e, evs);
    AlwaysServed(e, evs, w);
    hide After, Waiting, Whole, Over, Accepted;
    forall s: nat | s < |w.sockets| - 1 && s !in Over(e, evs) ensures ServedBy(w, s) {
      assert Busy(w.ops, s);
      var i :| 0 <= i < |w.ops| && Child(w.ops[i], s);
      OneServes(e, w, i, s, Over(e, evs));
    }
    forall i | 0 <= i < |w.ops| && !w.ops[i].task.at.Accepting?
      ensures w.ops[i].task.socket.Some? && w.ops[i].task.socket.value < |w.sockets| - 1 && w.ops[i].task.socket.value !in Over(e, evs)
    {
      assert OnOwn(w.ops[i].task, |w.sockets| - 1);
      assert Child(w.ops[i], w.ops[i].task.socket.value);
    }
  }

  /** Exactly one operation is on socket s. */
  predicate ServedBy(w: World, s: nat)
    requires s < |w.sockets|
  {
    exists i :: 0 <= i < |w.ops| && Serving(w.ops[i].task, s, w.sockets[s])
      && forall j :: 0 <= j < |w.ops| && j != i ==> w.ops[j].task.socket != Some(s)
  }

  predicate Serving(t: Task, s: nat, c: Socket) {
    && t.socket == Some(s) && t.buffer == Some(s) && t.request == Some(s)
    && t.at == (if c.sent == [] then Reading else Writing)
  }

  lemma {:induction false} OneServes(e: Env, w: World, i: nat, s: nat, over: set<nat>)
    requires Good(e, w) && Served(w, over) && i < |w.ops| && Child(w.ops[i], s) && s < |w.sockets|
    ensures ServedBy(w, s)
  {
    hide Whole;
    assert OpOk(e, w, w.ops[i]) && OnOwn(w.ops[i].task, |w.sockets| - 1) && SocketOk(e, w.sockets[s]);
    assert forall j :: 0 <= j < |w.ops| && j != i ==> Apart(w.ops[j].task, w.ops[i].task);
    hide Good, Served, SocketOk, Apart;
    assert Serving(w.ops[i].task, s, w.sockets[s]);
  }
}
