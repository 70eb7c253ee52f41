/** The coroutine of boost_http_server_3 as an object that runs from one yield to
    the next, copies itself and its parser into the operations it starts, shares
    requests and buffers, and forks. It is proved to take the steps of module
    ForkingServer, and so to make its runs. */
module ServerCoroutine {
  import opened Bytes
  import opened Options
  import opened RequestMachine
  import opened RequestCoroutine
  import opened ForkingServer
  import R = Reply

  /** The io_context with its operations, each with the members of the coroutine that
      it holds a copy of, and the objects that shared pointers lead to. */
  class Io {
    const env: Env
    var ops: seq<Op>
    var sockets: seq<Socket>
    var buffers: seq<array<byte>>
    var requests: seq<FullRequestObject>
    var replies: seq<R.Reply>
    ghost var acceptFailed: bool

    ghost predicate Valid()
      reads this`buffers, this`requests
    {
      && (forall i, j :: 0 <= i < j < |requests| ==> requests[i] != requests[j])
      && (forall i, j :: 0 <= i < j < |buffers| ==> buffers[i] != buffers[j])
      && (forall i :: 0 <= i < |buffers| ==> buffers[i].Length == BUFFER_SIZE)
    }

    ghost function Buffers(): (bs: seq<bytes>)
      reads this, buffers
      ensures |bs| == |buffers| && forall i :: 0 <= i < |bs| ==> bs[i] == buffers[i][..]
    {
      seq(|buffers|, i requires 0 <= i < |buffers| reads this, buffers => buffers[i][..])
    }

    ghost function Requests(): (rs: seq<FullRequest>)
      reads this, requests
      ensures |rs| == |requests| && forall i :: 0 <= i < |rs| ==> rs[i] == requests[i].Value()
    {
      seq(|requests|, i requires 0 <= i < |requests| reads this, requests => requests[i].Value())
    }

    ghost function Value(): World
      reads this, buffers, requests
    {
      World(ops, sockets, Buffers(), Requests(), replies, acceptFailed)
    }

    /** Buffers and requests have only been added, and those added are new. */
    twostate predicate Grown()
      reads this`buffers, this`requests
    {
      && old(buffers) <= buffers && (forall i :: |old(buffers)| <= i < |buffers| ==> fresh(buffers[i]))
      && old(requests) <= requests && (forall i :: |old(requests)| <= i < |requests| ==> fresh(requests[i]))
    }

    constructor (env: Env)
      ensures this.env == env && Valid() && Value() == World([], [], [], [], [], false)
      ensures buffers == [] && requests == []
    {
      this.env := env;
      ops, sockets, buffers, requests, replies, acceptFailed := [], [], [], [], [], false;
    }

    /** Starts an operation whose handler is a copy of the coroutine. */
    method Start(handler: Server)
      modifies this`ops
      ensures Value() == Begin(old(Value()), handler.Value())
    {
      ops := ops + [Op(handler.Copied(), None)];
    }

    method NewSocket() returns (s: nat)
      modifies this`sockets
      ensures s == |old(sockets)| && sockets == old(sockets) + [Socket(CLEARED, [], [], [])]
    {
      s := |sockets|;
      sockets := sockets + [Socket(CLEARED, [], [], [])];
    }

    /** The child's buffer and request. */
    method NewObjects(blank: FullRequest) returns (b: nat, q: nat)
      requires Valid()
      modifies this`buffers, this`requests
      ensures Valid() && b == |old(buffers)| && q == |old(requests)| && Grown()
      ensures Value() == old(Value()).(buffers := old(Buffers()) + [seq(BUFFER_SIZE, _ => 0)],
                                      requests := old(Requests()) + [blank])
    {
      b, q := |buffers|, |requests|;
      var buffer := new byte[BUFFER_SIZE](_ => 0);
      var request := new FullRequestObject(blank);
      buffers, requests := buffers + [buffer], requests + [request];
      assert buffer[..] == seq(BUFFER_SIZE, _ => 0);
      assert Buffers() == old(Buffers()) + [seq(BUFFER_SIZE, _ => 0)];
      assert Requests() == old(Requests()) + [blank];
    }

    method SetSocket(s: nat, c: Socket)
      requires s < |sockets|
      modifies this`sockets
      ensures Value() == old(Value()).(sockets := old(sockets)[s := c])
    {
      sockets := sockets[s := c];
    }

    /** An operation completes; a read that succeeds fills the front of its buffer. */
    method Complete(k: nat, error: bool, data: bytes)
      requires Valid() && Possible(Value(), Arrives(k, error, data)) && Usable(Value(), ops[k].task)
      modifies this`ops, this`sockets, buffers
      ensures Valid() && Value() == ForkingServer.Step(env, old(Value()), Arrives(k, error, data))
    {
      var t := ops[k].task;
      ops := ops[k := Op(t, Some(Completion(error, |data|)))];
      if t.at.Reading? {
        FillBuffer(t.buffer.value, data);
        var s := t.socket.value;
        sockets := sockets[s := sockets[s].(arrived := sockets[s].arrived + data)];
      }
    }

    method FillBuffer(b: nat, data: bytes)
      requires Valid() && b < |buffers| && |data| <= BUFFER_SIZE
      modifies buffers[b]
      ensures Buffers() == old(Buffers())[b := data + old(buffers[b][..])[|data|..]]
    {
      var buffer := buffers[b];
      forall i | 0 <= i < |data| { buffer[i] := data[i]; }
      assert buffer[..] == data + old(buffer[..])[|data|..];
      forall j | 0 <= j < |buffers| && j != b ensures Buffers()[j] == old(Buffers())[j] {
        assert buffers[j] != buffer;
      }
    }

    /** The handler of a completed operation runs. */
    method RunHandler(k: nat, blank: FullRequest)
      requires Valid() && Possible(Value(), Runs(k, blank)) && Usable(Value(), ops[k].task)
      modifies this, requests
      ensures Valid() && Value() == ForkingServer.Step(env, old(Value()), Runs(k, blank))
      ensures Grown()
    {
      StepRuns(env, Value(), k, blank);
      var op := Take(k);
      hide Run3, ForkingServer.Resume, Usable, Remove, Recorded, ForkingServer.Step, Valid, Grown;
      RecordedResumes(env, Value(), op.task, op.done.value.length, blank);
      var handler := new Server(env.cast, op.task);
      assert Value() == old(Value()).(ops := Remove(old(ops), k));
      handler.Call(this, op.done.value.error, op.done.value.length, blank);
    }

    method Take(k: nat) returns (op: Op)
      requires k < |ops|
      modifies this`ops
      ensures op == old(ops)[k] && Value() == old(Value()).(ops := Remove(old(ops), k))
    {
      op := ops[k];
      ops := Remove(ops, k);
    }
  }

  lemma {:induction false} StepRuns(e: Env, w: World, k: nat, blank: FullRequest)
    requires Possible(w, Runs(k, blank)) && Usable(w, w.ops[k].task)
    ensures var op, v := w.ops[k], w.(ops := Remove(w.ops, k));
            && Usable(v, op.task)
            && ForkingServer.Step(e, w, Runs(k, blank)) ==
               if op.done.value.error then v.(acceptFailed := w.acceptFailed || op.task.at.Accepting?)
               else ForkingServer.Resume(e, v, op.task, op.done.value.length, blank)
  {
    hide ForkingServer.Resume;
  }

  /** Once it writes, a coroutine does not use its parser again. */
  function Recorded(t: Task): Task {
    if t.at.Writing? then t.(point := Point.Start, length := 0) else t
  }

  lemma {:induction false} RecordedResumes(e: Env, w: World, t: Task, length: nat, blank: FullRequest)
    requires Usable(w, t) && length <= BUFFER_SIZE
    ensures Usable(w, Recorded(t))
    ensures ForkingServer.Resume(e, w, Recorded(t), length, blank) == ForkingServer.Resume(e, w, t, length, blank)
  {
  }

  class Server {
    const parser: CoroutineParser
    var at: At
    var socket: Option<nat>
    var buffer: Option<nat>
    var request: Option<nat>
    var reply: Option<nat>
    var valid: Tribool

    ghost function Value(): Task
      reads this, parser
    {
      Recorded(Task(at, socket, buffer, request, reply, valid, parser.point, parser.contentLength))
    }

    /** A coroutine with the given members: a new one, or a copy of another. Its parser
        is its own. */
    constructor (cast: Cast, t: Task)
      ensures Value() == Recorded(t) && at == t.at
      ensures parser.cast == cast && fresh(parser)
    {
      parser := new CoroutineParser(cast, t.point, t.length);
      at, socket, buffer, request, reply, valid := t.at, t.socket, t.buffer, t.request, t.reply, t.valid;
    }

    function Copied(): (t: Task)
      reads this, parser
      ensures t == Value()
    {
      Recorded(Task(at, socket, buffer, request, reply, valid, parser.point, parser.contentLength))
    }

    /** `operator()` with the error and length of a completed operation. */
    method Call(io: Io, error: bool, length: nat, blank: FullRequest)
      requires io.Valid() && parser.cast == io.env.cast && Usable(io.Value(), Value()) && length <= BUFFER_SIZE
      modifies this, parser, io, io.requests
      ensures io.Valid()
      ensures io.Value() ==
              if error then old(io.Value()).(acceptFailed := old(io.acceptFailed) || old(at).Accepting?)
              else ForkingServer.Resume(io.env, old(io.Value()), old(Value()), length, blank)
      ensures io.Grown()
    {
      hide Run3;
      if !error {
        match at
        case Initial =>
          AcceptNext(io);
        case Accepting =>
          var child := new Server(parser.cast, Copied());
          child.FirstReadOn(io, blank);
          AcceptNext(io);
        case Reading =>
          ParseThenGoOn(io, length);
        case Writing =>
      } else {
        io.acceptFailed := io.acceptFailed || at.Accepting?;
      }
    }

    /** The body of the accept loop up to the yield. */
    method AcceptNext(io: Io)
      requires !at.Writing?
      modifies this`socket, this`at, io`sockets, io`ops
      ensures io.Value() == WaitAccept(old(io.Value()), old(Value()))
    {
      var s := io.NewSocket();
      socket := Some(s);
      at := Accepting;
      io.Start(this);
    }

    /** The child, out of the accept loop: new buffer and request, and the first read. */
    method FirstReadOn(io: Io, blank: FullRequest)
      requires io.Valid() && at.Accepting? && socket.Some? && socket.value < |io.sockets|
      modifies this`buffer, this`request, this`at, io`buffers, io`requests, io`sockets, io`ops
      ensures io.Valid() && io.Value() == FirstRead(old(io.Value()), old(Value()), blank)
      ensures io.Grown()
    {
      hide Io.Valid, Io.Grown;
      var b, q := io.NewObjects(blank);
      buffer, request := Some(b), Some(q);
      io.SetSocket(socket.value, io.sockets[socket.value].(start := blank));
      at := Reading;
      io.Start(this);
    }

    /** After a read: parse; while the verdict is open, read on; else reply. */
    method ParseThenGoOn(io: Io, length: nat)
      requires io.Valid() && parser.cast == io.env.cast
      requires Usable(io.Value(), Value()) && at.Reading? && length <= BUFFER_SIZE
      modifies this, parser, io.requests, io`sockets, io`replies, io`ops
      ensures io.Valid() && io.Value() == ParseRead(io.env, old(io.Value()), old(Value()), length)
    {
      hide Run3, R.Stock;
      ghost var r := ParseBuffer(io, length);
      if valid.Indeterminate? {
        io.Start(this);
        return;
      }
      var rep;
      if valid.True? {
        rep := io.env.handler(io.requests[request.value].Value());
      } else {
        rep := R.StockReply(R.BadRequest);
      }
      BeginReply(io, rep);
    }

    /** The reply object is made and its write begun. */
    method BeginReply(io: Io, rep: R.Reply)
      requires !at.Writing? && socket.Some? && socket.value < |io.sockets|
      modifies this`reply, this`at, io`replies, io`sockets, io`ops
      ensures var w, s := old(io.Value()), old(socket).value;
              io.Value() == Begin(w.(sockets := w.sockets[s := w.sockets[s].(sent := w.sockets[s].sent + [rep])], replies := w.replies + [rep]),
                                  old(Value()).(reply := Some(|w.replies|), at := Writing, point := Point.Start, length := 0))
    {
      reply := Some(|io.replies|);
      var s := socket.value;
      io.replies := io.replies + [rep];
      io.sockets := io.sockets[s := io.sockets[s].(sent := io.sockets[s].sent + [rep])];
      at := Writing;
      io.Start(this);
    }

    /** `request_parser_.parse` of what is in the buffer, into the shared request. */
    method ParseBuffer(io: Io, length: nat) returns (ghost r: Parsed3)
      requires io.Valid() && parser.cast == io.env.cast
      requires Usable(io.Value(), Value()) && at.Reading? && length <= BUFFER_SIZE
      modifies this`valid, parser, io.requests[request.value], io`sockets
      ensures var w, t := old(io.Value()), old(Value());
              var s, q := t.socket.value, t.request.value;
              var data := w.buffers[t.buffer.value][..length];
              && r == Run3(io.env.cast, t.point, t.length, w.requests[q], data) && valid == r.verdict
              && (r.verdict.Indeterminate? ==> parser.point == r.point && parser.contentLength == r.length)
              && io.Value() == w.(requests := w.requests[q := r.req],
                                  sockets := w.sockets[s := w.sockets[s].(parsed := w.sockets[s].parsed + data)])
    {
      hide Run3;
      var s, q := socket.value, request.value;
      var array_ := io.buffers[buffer.value];
      r := Run3(io.env.cast, parser.point, parser.contentLength, io.requests[q].Value(), array_[..][..length]);
      assert array_[0..length] == array_[..][..length];
      var result, next := parser.Parse(io.requests[q], array_, 0, length);
      valid := result;
      assert io.Requests() == old(io.Requests())[q := r.req];
      io.sockets := io.sockets[s := io.sockets[s].(parsed := io.sockets[s].parsed + array_[..][..length])];
    }
  }

  /** The main program: the first call of the coroutine, then any possible run of
      completions takes the objects through the states of the transition system. */
  method Serve(env: Env, evs: seq<Event>) returns (io: Io)
    requires ForkingServer.After(env, evs).Some?
    ensures io.Valid() && Some(io.Value()) == ForkingServer.After(env, evs)
  {
    hide ForkingServer.Step, Usable, INITIAL;
    io := Launch(env);
    var i := 0;
    while i < |evs|
      invariant 0 <= i <= |evs| && io.Valid() && io.env == env && fresh(io)
      invariant Some(io.Value()) == ForkingServer.After(env, evs[..i])
      invariant forall i :: 0 <= i < |io.buffers| ==> fresh(io.buffers[i])
      invariant forall i :: 0 <= i < |io.requests| ==> fresh(io.requests[i])
    {
      PrefixPossible(env, evs, i + 1);
      assert Front(evs[..i + 1]) == evs[..i] && Last(evs[..i + 1]) == evs[i];
      Dispatch(io, evs[i]);
      i := i + 1;
    }
    assert evs[..i] == evs;
  }

  method Dispatch(io: Io, ev: Event)
    requires io.Valid() && Possible(io.Value(), ev) && Usable(io.Value(), io.ops[ev.k].task)
    modifies io, set b | b in io.buffers, set q | q in io.requests
    ensures io.Valid() && io.Value() == ForkingServer.Step(io.env, old(io.Value()), ev)
    ensures io.Grown()
  {
    match ev
    case Arrives(k, error, data) => io.Complete(k, error, data);
    case Runs(k, blank) => io.RunHandler(k, blank);
  }

  method Launch(env: Env) returns (io: Io)
    ensures fresh(io) && io.env == env && io.Valid() && io.Value() == INITIAL(env)
    ensures io.buffers == [] && io.requests == []
  {
    io := new Io(env);
    var server := new Server(env.cast, Task(Initial, None, None, None, None, False, Point.Start, env.junk));
    server.Call(io, false, 0, CLEARED);
    assert |io.Value().buffers| == 0 && |io.Value().requests| == 0;
  }

  lemma {:induction false} PrefixPossible(env: Env, evs: seq<Event>, k: nat)
    requires ForkingServer.After(env, evs).Some? && k <= |evs|
    ensures ForkingServer.After(env, evs[..k]).Some?
    decreases |evs|
  {
    if k == |evs| {
      assert evs[..k] == evs;
    } else {
      PrefixPossible(env, Front(evs), k);
      assert Front(evs)[..k] == evs[..k];
    }
  }
}
