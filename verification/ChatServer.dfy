/** The chat server's objects: a room and its sessions, updated in place by the
    completion handlers. Each handler is proved to be one step of the transition
    system of module ChatRoom. */
module ChatServer {
  import opened Bytes
  import opened Options
  import opened ChatMessage
  import opened WriteQueue
  import opened FrameStream
  import opened ChatRoom

  lemma {:induction false} ReadBodyInSteps(w: World, id: nat, data: bytes)
    requires id < |w.sessions| && w.sessions[id].reading.AwaitBody?
    ensures var s := w.sessions[id];
            var v := ChatRoom.Deliver(Update(w, id, s.(received := s.received + data)), id, s.reading.header + data);
            ReadBody(w, id, false, data) == Update(v, id, v.sessions[id].(reading := AwaitHeader))
  {
    hide Push, Trim;
    var s := w.sessions[id];
    var v := ChatRoom.Deliver(Update(w, id, s.(received := s.received + data)), id, s.reading.header + data);
    assert ReadBody(w, id, false, data).sessions == Update(v, id, v.sessions[id].(reading := AwaitHeader)).sessions;
  }

  class ChatSession {
    const room: Room
    const readMsg: Message
    var writeMsgs: seq<bytes>
    /** The outstanding read, whose completion runs the handler bound to it. */
    var reading: Reading
    /** The outstanding write, and the session's history. */
    ghost var inFlight: Option<bytes>
    ghost var failed: bool
    ghost var written: seq<bytes>
    ghost var pushed: seq<bytes>
    ghost var received: bytes
    ghost var joined: nat
    ghost var left: Option<nat>

    ghost function Value(): Session
      reads this
    {
      Session(Writer(writeMsgs, inFlight, failed, written, pushed), reading, received, joined, left)
    }

    ghost predicate Valid()
      reads this`reading, readMsg, readMsg.data
    {
      && readMsg.Valid()
      && (reading.AwaitBody? ==>
            && readMsg.data[..HEADER_LENGTH] == reading.header
            && DecodedLength(reading.header) == Some(readMsg.bodyLength))
    }

    constructor (room: Room)
      ensures this.room == room && Valid() && fresh(readMsg) && fresh(readMsg.data)
      ensures Value() == Session(IDLE, Stopped, [], 0, None)
    {
      this.room := room;
      readMsg := new Message();
      writeMsgs, inFlight, failed, written, pushed := [], None, false, [], [];
      reading, received, joined, left := Stopped, [], 0, None;
    }

    /** `async_write` of a buffer: the operation is outstanding from now on. */
    ghost method AsyncWrite(buffer: bytes)
      modifies this`inFlight
      ensures inFlight == Some(buffer)
    {
      inFlight := Some(buffer);
    }

    method Deliver(msg: bytes)
      modifies this`writeMsgs, this`inFlight, this`pushed
      ensures Value() == PushTo(old(Value()), msg)
    {
      var writeInProgress := writeMsgs != [];
      writeMsgs := writeMsgs + [msg];
      pushed := pushed + [msg];
      if !writeInProgress {
        AsyncWrite(writeMsgs[0]);
      }
    }

    /** `async_read` of a header or a body. */
    method AsyncRead(what: Reading)
      modifies this`reading
      ensures reading == what
    {
      reading := what;
    }

    ghost predicate Here(id: nat)
      reads this, room
    {
      id < |room.sessions| && room.sessions[id] == this
    }

    /** `start`, for a session just accepted. */
    method Start()
      requires room.Valid() && Valid() && this !in room.sessions
      requires forall s :: s in room.sessions ==> s.readMsg != readMsg && s.readMsg.data != readMsg.data
      requires Value() == Session(IDLE, Stopped, [], 0, None)
      modifies room, this
      ensures room.Valid() && room.State() == ChatRoom.Start(old(room.State()))
      ensures room.sessions == old(room.sessions) + [this]
    {
      room.Join(this);
      AsyncRead(AwaitHeader);
      assert room.State().sessions == ChatRoom.Start(old(room.State())).sessions;
    }

    /** A read of a header puts four bytes into the message, and they are decoded. */
    method TakeHeader(data: bytes) returns (ok: bool)
      requires Valid() && |data| == HEADER_LENGTH && reading.AwaitHeader?
      modifies this`received, readMsg`bodyLength, readMsg.data
      ensures Valid() && Value() == old(Value()).(received := old(received) + data)
      ensures readMsg.data[..HEADER_LENGTH] == data
      ensures ok == DecodedLength(data).Some? && (ok ==> DecodedLength(data) == Some(readMsg.bodyLength))
    {
      readMsg.Fill(0, data);
      received := received + data;
      assert readMsg.data[..HEADER_LENGTH] == data;
      ok := readMsg.DecodeHeader();
    }

    /** A read of a body completes the frame in the message. */
    method TakeBody(data: bytes)
      requires Valid() && reading.AwaitBody? && DecodedLength(reading.header) == Some(|data|)
      modifies this`received, readMsg.data
      ensures Valid() && Value() == old(Value()).(received := old(received) + data)
      ensures readMsg.Wire() == reading.header + data
    {
      assert readMsg.data[..][..HEADER_LENGTH] == reading.header;
      readMsg.Fill(HEADER_LENGTH, data);
      received := received + data;
      assert readMsg.data[..HEADER_LENGTH] == readMsg.data[..][..HEADER_LENGTH] == reading.header;
      assert readMsg.Wire() == readMsg.data[..][..HEADER_LENGTH + readMsg.bodyLength];
    }

    /** The read of a header has completed with an error or with `data`. */
    method HandleReadHeader(ghost id: nat, error: bool, data: bytes)
      requires room.Valid() && Here(id) && reading.AwaitHeader? && (error || |data| == HEADER_LENGTH)
      modifies room`participants, this`reading, this`received, this`left, readMsg`bodyLength, readMsg.data
      ensures room.Valid() && room.State() == ReadHeader(old(room.State()), id, error, data)
      ensures room.sessions == old(room.sessions)
    {
      hide DecodedLength;
      var ok := false;
      if !error {
        ok := TakeHeader(data);
      }
      if !error && ok {
        AsyncRead(AwaitBody(data));
        room.OneChanged(id);
      } else {
        AsyncRead(Stopped);
        room.OneChanged(id);
        room.Leave(this, id);
      }
    }

    /** The read of a body has completed with an error or with `data`. */
    method HandleReadBody(ghost id: nat, error: bool, data: bytes)
      requires room.Valid() && Here(id) && reading.AwaitBody? && (error || DecodedLength(reading.header) == Some(|data|))
      modifies room`participants, room`recentMsgs, room`log, readMsg.data
      modifies room.participants`writeMsgs, room.participants`inFlight, room.participants`pushed
      modifies this`reading, this`received, this`left
      ensures room.Valid() && room.State() == ReadBody(old(room.State()), id, error, data)
      ensures room.sessions == old(room.sessions)
    {
      hide DecodedLength, Trim, Push, PushTo;
      if !error {
        TakeBody(data);
        room.OneChanged(id);
        room.Deliver(readMsg.Wire(), id);
        label Delivered:
        AsyncRead(AwaitHeader);
        room.OneChanged@Delivered(id);
        ReadBodyInSteps(old(room.State()), id, data);
      } else {
        AsyncRead(Stopped);
        room.OneChanged(id);
        room.Leave(this, id);
      }
    }

    method HandleWrite(ghost id: nat, error: bool)
      requires room.Valid() && Here(id) && inFlight.Some? && writeMsgs != []
      modifies room, this
      ensures room.Valid() && room.State() == Written(old(room.State()), id, error)
      ensures room.sessions == old(room.sessions)
    {
      ghost var buffer := inFlight.value;
      inFlight := None;
      if !error {
        written := written + [buffer];
        writeMsgs := writeMsgs[1..];
        if writeMsgs != [] {
          AsyncWrite(writeMsgs[0]);
        }
        room.OneChanged(id);
      } else {
        failed := true;
        room.OneChanged(id);
        room.Leave(this, id);
      }
    }
  }

  class Room {
    var participants: set<ChatSession>
    var recentMsgs: seq<bytes>
    /** Every session ever started, and everything ever delivered. */
    ghost var sessions: seq<ChatSession>
    ghost var log: seq<Post>

    ghost predicate Distinct()
      reads this`sessions
    {
      forall i, j :: 0 <= i < j < |sessions| ==>
        sessions[i] != sessions[j] && sessions[i].readMsg != sessions[j].readMsg && sessions[i].readMsg.data != sessions[j].readMsg.data
    }

    ghost predicate Valid()
      reads this`participants, this`sessions, sessions`reading, set s | s in sessions :: s.readMsg, set s | s in sessions :: s.readMsg.data
    {
      && Distinct()
      && (forall s :: s in participants ==> s in sessions)
      && (forall i :: 0 <= i < |sessions| ==> sessions[i].room == this && sessions[i].Valid())
    }

    ghost function Members(): set<nat>
      reads this
    {
      set i: nat | i < |sessions| && sessions[i] in participants
    }

    ghost function State(): World
      reads this, sessions
    {
      World(recentMsgs, Members(), seq(|sessions|, i requires 0 <= i < |sessions| reads this, sessions => sessions[i].Value()), log)
    }

    /** When a handler has touched one session only, the room's state is the old one
        with that session replaced. */
    twostate lemma OneChanged(id: nat)
      requires old(Valid()) && id < |sessions| && sessions[id].Valid()
      requires unchanged(this)
      requires forall j :: 0 <= j < |sessions| && j != id ==>
        unchanged(sessions[j]) && unchanged(sessions[j].readMsg) && unchanged(sessions[j].readMsg.data)
      ensures Valid() && State() == Update(old(State()), id, sessions[id].Value())
    {
      hide DecodedLength;
      assert State().sessions == old(State()).sessions[id := sessions[id].Value()];
    }

    constructor ()
      ensures Valid() && State() == EMPTY
    {
      participants, recentMsgs, sessions, log := {}, [], [], [];
    }

    /** `chat_room::join` */
    method Join(p: ChatSession)
      requires Valid() && p.Valid() && p.room == this && p !in sessions
      requires forall s :: s in sessions ==> s.readMsg != p.readMsg && s.readMsg.data != p.readMsg.data
      requires p.Value() == Session(IDLE, Stopped, [], 0, None)
      modifies this`participants, this`sessions, p`joined, p`writeMsgs, p`inFlight, p`pushed
      ensures Valid() && sessions == old(sessions) + [p]
      ensures p.Value() == Session(Replay(IDLE, recentMsgs), Stopped, [], |log|, None)
      ensures State() == World(recentMsgs, old(Members()) + {|old(sessions)|}, old(State().sessions) + [p.Value()], log)
    {
      hide DecodedLength, Replay, Push;
      participants := participants + {p};
      sessions := sessions + [p];
      p.joined := |log|;
      ReplayTo(p);
    }

    /** The `std::for_each` over the recent messages. */
    method ReplayTo(p: ChatSession)
      requires p.Value().out == IDLE
      modifies p`writeMsgs, p`inFlight, p`pushed
      ensures p.Value() == old(p.Value()).(out := Replay(IDLE, recentMsgs))
    {
      var i := 0;
      assert recentMsgs[..0] == [];
      hide Push;
      while i < |recentMsgs|
        invariant 0 <= i <= |recentMsgs|
        invariant p.Value() == old(p.Value()).(out := Replay(IDLE, recentMsgs[..i]))
      {
        assert Front(recentMsgs[..i + 1]) == recentMsgs[..i] && Last(recentMsgs[..i + 1]) == recentMsgs[i];
        p.Deliver(recentMsgs[i]);
        i := i + 1;
      }
      assert recentMsgs[..i] == recentMsgs;
    }

    /** `chat_room::leave` */
    method Leave(p: ChatSession, ghost id: nat)
      requires Valid() && id < |sessions| && sessions[id] == p
      modifies this`participants, p`left
      ensures Valid() && State() == ChatRoom.Leave(old(State()), id)
    {
      if p in participants {
        p.left := Some(|log|);
      }
      participants := participants - {p};
      assert State().sessions == ChatRoom.Leave(old(State()), id).sessions;
      assert State().members == ChatRoom.Leave(old(State()), id).members;
    }

    /** `chat_room::deliver` */
    method Deliver(msg: bytes, ghost sender: nat)
      requires Valid()
      modifies this`recentMsgs, this`log, participants`writeMsgs, participants`inFlight, participants`pushed
      ensures Valid() && State() == ChatRoom.Deliver(old(State()), sender, msg)
    {
      hide DecodedLength, Push, PushTo, Trim;
      Remember(msg);
      log := log + [Post(sender, msg)];
      Broadcast(msg);
      assert State().sessions == ChatRoom.Deliver(old(State()), sender, msg).sessions;
    }

    /** The push to the recent messages and the loop that trims them. */
    method Remember(msg: bytes)
      modifies this`recentMsgs
      ensures recentMsgs == Trim(old(recentMsgs) + [msg])
    {
      recentMsgs := recentMsgs + [msg];
      while |recentMsgs| > MAX_RECENT
        invariant Trim(recentMsgs) == Trim(old(recentMsgs) + [msg])
      {
        recentMsgs := recentMsgs[1..];
      }
    }

    /** The `std::for_each` over the participants. */
    method Broadcast(msg: bytes)
      requires forall p :: p in participants ==> p in sessions
      modifies participants`writeMsgs, participants`inFlight, participants`pushed
      ensures forall p :: p in sessions ==> p.Value() == if p in participants then PushTo(old(p.Value()), msg) else old(p.Value())
    {
      hide DecodedLength, PushTo;
      var todo := participants;
      while todo != {}
        invariant todo <= participants
        invariant forall p :: p in sessions ==>
          p.Value() == if p in participants && p !in todo then PushTo(old(p.Value()), msg) else old(p.Value())
        decreases todo
      {
        var p :| p in todo;
        p.Deliver(msg);
        todo := todo - {p};
      }
    }
  }

  /** The acceptor's side. A failed accept drops its session. */
  class Server {
    const room: Room

    constructor ()
      ensures room.Valid() && fresh(room) && room.State() == EMPTY
    {
      room := new Room();
    }

    method HandleAccept(error: bool) returns (started: seq<ChatSession>)
      requires room.Valid()
      modifies room
      ensures room.Valid() && room.State() == if error then old(room.State()) else Step(old(room.State()), Accepted)
      ensures room.sessions == old(room.sessions) + started
      ensures fresh(started) && fresh(set s | s in started :: s.readMsg) && fresh(set s | s in started :: s.readMsg.data)
    {
      var session := new ChatSession(room);
      started := [];
      if !error {
        session.Start();
        started := [session];
      }
    }

    /** One completion: the handler bound to it runs. `live` are the sessions that
        operations are bound to. */
    method Dispatch(ev: ChatRoom.Event, live: seq<ChatSession>) returns (live': seq<ChatSession>)
      requires room.Valid() && live == room.sessions && Enabled(room.State(), ev)
      modifies room, room.sessions, set s | s in room.sessions :: s.readMsg, set s | s in room.sessions :: s.readMsg.data
      ensures room.Valid() && room.State() == Step(old(room.State()), ev) && live' == room.sessions
      ensures old(room.sessions) <= room.sessions
      ensures forall s :: s in room.sessions && s !in old(room.sessions) ==> fresh(s) && fresh(s.readMsg) && fresh(s.readMsg.data)
    {
      live' := live;
      match ev
      case Accepted =>
        var started := HandleAccept(false);
        live' := live + started;
      case ReadDone(id, error, data) =>
        assert room.State().sessions[id] == live[id].Value();
        if live[id].reading.AwaitHeader? {
          live[id].HandleReadHeader(id, error, data);
        } else {
          live[id].HandleReadBody(id, error, data);
        }
      case WriteDone(id, error) =>
        assert room.State().sessions[id] == live[id].Value();
        live[id].HandleWrite(id, error);
    }

    /** `io_context::run`: any possible run of completions takes the objects through
        the states of the transition system. */
    method Run(evs: seq<ChatRoom.Event>)
      requires room.Valid() && room.State() == EMPTY && ChatRoom.After(evs).Some?
      modifies room
      ensures room.Valid() && room.State() == ChatRoom.After(evs).value
    {
      var live: seq<ChatSession> := [];
      assert |room.State().sessions| == 0;
      var i := 0;
      while i < |evs|
        invariant 0 <= i <= |evs| && room.Valid() && live == room.sessions
        invariant ChatRoom.After(evs[..i]) == Some(room.State())
        invariant forall s :: s in live ==> fresh(s) && fresh(s.readMsg) && fresh(s.readMsg.data)
      {
        PrefixPossible(evs, i + 1);
        assert Front(evs[..i + 1]) == evs[..i] && Last(evs[..i + 1]) == evs[i];
        live := Dispatch(evs[i], live);
        i := i + 1;
      }
      assert evs[..i] == evs;
    }
  }

  lemma {:induction false} PrefixPossible(evs: seq<ChatRoom.Event>, k: nat)
    requires ChatRoom.After(evs).Some? && k <= |evs|
    ensures ChatRoom.After(evs[..k]).Some?
    decreases |evs|
  {
    if k == |evs| {
      assert evs[..k] == evs;
    } else {
      PrefixPossible(Front(evs), k);
      assert Front(evs)[..k] == evs[..k];
    }
  }
}
