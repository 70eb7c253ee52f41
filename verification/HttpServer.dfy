/** The objects of boost_http_server_1: connections, the manager of the live ones
    and the server with its acceptor, updated in place by completion handlers. Each
    handler is proved to be one step of the transition system of module Lifecycle. */
module HttpServer {
  import opened Bytes
  import opened Options
  import opened RequestMachine
  import opened Lifecycle
  import R = Reply

  class Connection {
    const manager: ConnectionManager
    const handler: Request -> R.Reply
    const buffer: array<byte>
    const request: RequestObject
    const parser: RequestParser
    var open: bool
    var reply: R.Reply
    /** The outstanding operations, to whose completions the handlers are bound. */
    var ops: seq<Op>
    /** The connection's history. */
    ghost var start: Blank
    ghost var received: bytes
    ghost var sent: seq<R.Reply>

    ghost predicate Valid() {
      buffer.Length == BUFFER_SIZE
    }

    ghost function Value(): Conn
      reads this, request, parser
    {
      Conn(open, ops, parser.state, request.Value(), start, received, sent)
    }

    /** A connection whose socket is not open yet. */
    ghost predicate Unused()
      reads this, request, parser
    {
      Value() == Conn(false, [], MethodStart, start, start, [], [])
    }

    constructor (manager: ConnectionManager, handler: Request -> R.Reply, blank: Blank)
      ensures Valid() && Unused() && start == blank && this.manager == manager && this.handler == handler
      ensures fresh(buffer) && fresh(request) && fresh(parser)
    {
      this.manager, this.handler := manager, handler;
      buffer := new byte[BUFFER_SIZE];
      request := new RequestObject((blank.major, blank.minor));
      parser := new RequestParser();
      open, reply := false, R.Reply(R.Ok, [], []);
      ops, received, sent, start := [], [], [], blank;
    }

    method AsyncReadSome()
      modifies this`ops
      ensures Value() == StartRead(old(Value()))
    {
      ops := ops + [ReadOp(open)];
    }

    /** `async_write` of the buffers of a reply. */
    method AsyncWrite(buffers: seq<bytes>, ghost rep: R.Reply)
      requires R.Gather(buffers) == R.PrintReply(rep)
      modifies this`ops, this`sent
      ensures Value() == StartWrite(old(Value()), rep)
    {
      ops := ops + [WriteOp(open)];
      sent := sent + [rep];
    }

    method Start()
      modifies this`ops
      ensures Value() == StartRead(old(Value()))
    {
      AsyncReadSome();
    }

    method Stop()
      modifies this`open
      ensures Value() == old(Value()).(open := false)
    {
      open := false;
    }

    /** The part of `handle_read` for a read that succeeded and left `data` in the
        buffer: parse it, then answer or read on. */
    method Parse(data: bytes)
      requires Valid() && |data| <= BUFFER_SIZE && Safe(parser.state, request.Value())
      modifies this`reply, this`ops, this`sent, this`received, request, parser, buffer
      ensures Value() == Digest(handler, old(Value()), data)
    {
      hide Run, R.PrintReply, R.Gather, R.Stock;
      forall i | 0 <= i < |data| { buffer[i] := data[i]; }
      assert buffer[0..|data|] == data;
      received := received + data;
      var result, next := parser.Parse(request, buffer, 0, |data|);
      if result.True? {
        reply := handler(request.Value());
        var buffers := R.ToBuffers(reply);
        AsyncWrite(buffers, reply);
      } else if result.False? {
        reply := R.StockReply(R.BadRequest);
        var buffers := R.ToBuffers(reply);
        AsyncWrite(buffers, reply);
      } else {
        AsyncReadSome();
      }
    }

    ghost predicate Here(id: nat)
      reads this, manager
    {
      id < |manager.started| && manager.started[id] == this
    }

    /** The read begun as operation k has completed. */
    method HandleRead(ghost id: nat, k: nat, result: IoResult)
      requires manager.Valid() && Here(id) && k < |ops|
      requires result.Success? ==> |result.data| <= BUFFER_SIZE && Safe(parser.state, request.Value())
      modifies this, request, parser, buffer, manager`connections
      ensures manager.Valid() && manager.started == old(manager.started)
      ensures var p := old(manager.Value());
              manager.Value() == Lifecycle.HandleRead(handler, Update(p, id, Finish(p.conns[id], k)), id, result)
    {
      hide Digest;
      ops := ops[..k] + ops[k + 1..];
      manager.OneChanged(id);
      label Finished:
      match result
      case Success(data) =>
        Parse(data);
        manager.OneChanged@Finished(id);
      case Aborted =>
      case Failed =>
        manager.Stop(this, id);
    }

    /** The write begun as operation k has completed. */
    method HandleWrite(ghost id: nat, k: nat, result: IoResult)
      requires manager.Valid() && Here(id) && k < |ops|
      modifies this`ops, this`open, manager`connections
      ensures manager.Valid() && manager.started == old(manager.started)
      ensures var p := old(manager.Value());
              manager.Value() == Lifecycle.HandleWrite(Update(p, id, Finish(p.conns[id], k)), id, result)
    {
      ops := ops[..k] + ops[k + 1..];
      manager.OneChanged(id);
      if !result.Aborted? {
        manager.Stop(this, id);
      }
    }
  }

  class ConnectionManager {
    var connections: set<Connection>
    /** Every connection ever started. */
    ghost var started: seq<Connection>

    ghost predicate Valid()
      reads this
    {
      && (forall i, j :: 0 <= i < j < |started| ==>
            started[i] != started[j] && started[i].request != started[j].request && started[i].parser != started[j].parser)
      && (forall c :: c in connections ==> c in started)
      && (forall i :: 0 <= i < |started| ==> started[i].manager == this && started[i].Valid())
    }

    ghost function Value(): Pool
      reads this, started, set c | c in started :: c.request, set c | c in started :: c.parser
    {
      Pool(set i: nat | i < |started| && started[i] in connections,
           seq(|started|, i requires 0 <= i < |started|
                          reads this, started, set c | c in started :: c.request, set c | c in started :: c.parser => started[i].Value()))
    }

    /** When only one connection was touched, it is replaced in the pool. */
    twostate lemma OneChanged(id: nat)
      requires old(Valid()) && id < |started| && unchanged(this)
      requires forall j :: 0 <= j < |started| && j != id ==>
        unchanged(started[j]) && unchanged(started[j].request) && unchanged(started[j].parser)
      ensures Valid() && Value() == Update(old(Value()), id, started[id].Value())
    {
      assert Value().conns == old(Value()).conns[id := started[id].Value()];
    }

    constructor ()
      ensures Valid() && started == [] && Value() == Pool({}, [])
    {
      connections, started := {}, [];
    }

    method Start(c: Connection)
      requires Valid() && c.Valid() && c.manager == this && c !in started
      requires forall d :: d in started ==> d.request != c.request && d.parser != c.parser
      requires c.Value() == Conn(true, [], MethodStart, c.start, c.start, [], [])
      modifies this, c`ops
      ensures Valid() && started == old(started) + [c]
      ensures Value() == ManagerStart(old(Value()), c.start)
    {
      connections := connections + {c};
      started := started + [c];
      c.Start();
      assert Value().conns == ManagerStart(old(Value()), c.start).conns;
      assert Value().managed == ManagerStart(old(Value()), c.start).managed;
    }

    method Stop(c: Connection, ghost id: nat)
      requires Valid() && id < |started| && started[id] == c
      modifies this`connections, c`open
      ensures Valid() && Value() == ManagerStop(old(Value()), id)
    {
      connections := connections - {c};
      c.Stop();
      assert Value().conns == ManagerStop(old(Value()), id).conns;
      assert Value().managed == ManagerStop(old(Value()), id).managed;
    }

    method StopAll()
      requires Valid()
      modifies this`connections, connections`open
      ensures Valid() && Value() == ManagerStopAll(old(Value()))
    {
      var todo := connections;
      while todo != {}
        invariant todo <= connections
        invariant forall c :: c in started ==>
          c.Value() == if c in connections && c !in todo then old(c.Value()).(open := false) else old(c.Value())
        decreases todo
        modifies connections`open
      {
        var c :| c in todo;
        c.Stop();
        todo := todo - {c};
      }
      connections := {};
      assert Value().conns == ManagerStopAll(old(Value())).conns;
    }
  }

  class Server {
    const manager: ConnectionManager
    const handler: Request -> R.Reply
    var acceptorOpen: bool
    var newConnection: Connection
    /** The outstanding accepts and signal waits. */
    ghost var accepts: nat
    ghost var signals: nat

    ghost predicate Valid()
      reads this, manager, newConnection, newConnection.request, newConnection.parser
    {
      && manager.Valid() && newConnection.Valid() && newConnection.manager == manager && newConnection.handler == handler
      && newConnection !in manager.started && (acceptorOpen ==> newConnection.Unused())
      && (forall c :: c in manager.started ==>
            c.handler == handler && c.request != newConnection.request && c.parser != newConnection.parser)
    }

    ghost function Value(): World
      reads this, newConnection, manager, manager.started
      reads set c | c in manager.started :: c.request, set c | c in manager.started :: c.parser
    {
      World(acceptorOpen, accepts, signals, manager.Value(), newConnection.start)
    }

    constructor (handler: Request -> R.Reply, blank: Blank)
      ensures Valid() && Value() == Initial(blank) && this.handler == handler && manager.started == []
      ensures fresh(manager) && fresh(newConnection) && fresh(newConnection.request)
      ensures fresh(newConnection.parser) && fresh(newConnection.buffer)
    {
      this.handler := handler;
      var m := new ConnectionManager();
      manager := m;
      acceptorOpen := true;
      accepts, signals := 0, 1;
      newConnection := new Connection(m, handler, blank);
      new;
      StartAccept(blank);
    }

    method StartAccept(blank: Blank)
      requires manager.Valid() && forall c :: c in manager.started ==> c.handler == handler
      modifies this`newConnection, this`accepts
      ensures Valid() && accepts == old(accepts) + 1 && newConnection.start == blank && newConnection.Unused()
      ensures fresh(newConnection) && fresh(newConnection.request) && fresh(newConnection.parser) && fresh(newConnection.buffer)
    {
      newConnection := new Connection(manager, handler, blank);
      accepts := accepts + 1;
    }

    /** An accept has completed; if it succeeded, the new connection's socket is open.
        The connection started, if any, is what operations are bound to from now on. */
    method HandleAccept(ok: bool, blank: Blank) returns (started: seq<Connection>)
      requires Valid() && accepts > 0
      modifies this`newConnection, this`accepts, manager, newConnection`open, newConnection`ops
      ensures Valid() && Value() == Lifecycle.HandleAccept(old(Value()), ok, blank)
      ensures manager.started == old(manager.started) + started && started == if ok && acceptorOpen then [old(newConnection)] else []
      ensures acceptorOpen ==>
                fresh(newConnection) && fresh(newConnection.request) && fresh(newConnection.parser) && fresh(newConnection.buffer)
      ensures !acceptorOpen ==> newConnection == old(newConnection)
    {
      accepts := accepts - 1;
      started := [];
      if ok {
        newConnection.open := true;
      }
      assert manager.Value() == old(manager.Value());
      if !acceptorOpen {
        return;
      }
      if ok {
        manager.Start(newConnection);
        started := [newConnection];
        assert manager.Value() == ManagerStart(old(manager.Value()), old(newConnection.start));
      }
      StartAccept(blank);
    }

    method HandleStop()
      requires Valid() && signals > 0
      modifies this`signals, this`acceptorOpen, manager`connections, manager.connections`open
      ensures Valid() && Value() == Lifecycle.HandleStop(old(Value()))
      ensures manager.started == old(manager.started)
    {
      signals := signals - 1;
      acceptorOpen := false;
      manager.StopAll();
    }

    /** One completion runs the handler bound to it; `live` are the connections that
        operations are bound to. */
    method Dispatch(ev: Event, live: seq<Connection>) returns (live': seq<Connection>)
      requires Valid() && live == manager.started && Enabled(Value(), ev)
      modifies this, manager, newConnection, manager.started, set c | c in manager.started :: c.request
      modifies set c | c in manager.started :: c.parser, set c | c in manager.started :: c.buffer
      ensures Valid() && Value() == Lifecycle.Step(handler, old(Value()), ev) && live' == manager.started
      ensures live' == live || live' == live + [old(newConnection)]
      ensures newConnection == old(newConnection) || (fresh(newConnection) && fresh(newConnection.request)
                                                      && fresh(newConnection.parser) && fresh(newConnection.buffer))
    {
      hide Run, Lifecycle.Digest;
      live' := live;
      match ev
      case AcceptDone(ok, blank) =>
        var started := HandleAccept(ok, blank);
        live' := live + started;
      case SignalDone => HandleStop();
      case OpDone(i, k, result) =>
        assert manager.Value().conns[i] == live[i].Value();
        if live[i].ops[k].ReadOp? {
          live[i].HandleRead(i, k, result);
        } else {
          live[i].HandleWrite(i, k, result);
        }
    }
  }

  /** The main program, `server` and `run`: any possible run of completions takes the
      objects through the states of the transition system. */
  method Serve(handler: Request -> R.Reply, blank: Blank, evs: seq<Event>) returns (server: Server)
    requires Lifecycle.After(handler, blank, evs).Some?
    ensures server.Valid() && Some(server.Value()) == Lifecycle.After(handler, blank, evs)
  {
    server := new Server(handler, blank);
    var live: seq<Connection> := [];
    var i := 0;
    while i < |evs|
      invariant 0 <= i <= |evs| && server.Valid() && live == server.manager.started
      invariant Some(server.Value()) == Lifecycle.After(handler, blank, evs[..i]) && server.handler == handler
      invariant fresh(server) && fresh(server.manager)
      invariant forall c :: c == server.newConnection || c in live ==>
        fresh(c) && fresh(c.request) && fresh(c.parser) && fresh(c.buffer)
    {
      PrefixPossible(handler, blank, evs, i + 1);
      assert Front(evs[..i + 1]) == evs[..i] && Last(evs[..i + 1]) == evs[i];
      live := server.Dispatch(evs[i], live);
      i := i + 1;
    }
    assert evs[..i] == evs;
  }

  lemma {:induction false} PrefixPossible(handler: Request -> R.Reply, blank: Blank, evs: seq<Event>, k: nat)
    requires Lifecycle.After(handler, blank, evs).Some? && k <= |evs|
    ensures Lifecycle.After(handler, blank, evs[..k]).Some?
    decreases |evs|
  {
    if k == |evs| {
      assert evs[..k] == evs;
    } else {
      PrefixPossible(handler, blank, Front(evs), k);
      assert Front(evs)[..k] == evs[..k];
    }
  }
}
