/** The chat room and its sessions as a transition system: each event is one
    handler of the program run to its end, since all of them run on one thread. */
module ChatRoom {
  import opened Bytes
  import opened Options
  import opened Text
  import opened ChatMessage
  import opened WriteQueue
  import opened FrameStream

  const MAX_RECENT: nat := 100

  /** A session, with the bytes it has received and the length of the room's log
      when it joined and when it first left. */
  datatype Session = Session(out: Writer, reading: Reading, received: bytes, joined: nat, left: Option<nat>)

  datatype Post = Post(sender: nat, frame: bytes)

  /** The room: the recent messages, the participants, every session ever started,
      and the log of everything passed to `chat_room::deliver`. */
  datatype World = World(recent: seq<bytes>, members: set<nat>, sessions: seq<Session>, log: seq<Post>)

  const EMPTY: World := World([], {}, [], [])

  datatype Event =
    | Accepted
    | ReadDone(id: nat, error: bool, data: bytes)
    | WriteDone(id: nat, error: bool)

  // ------------------------------------------------------------ the handlers

  /** The trimming loop of `deliver`. */
  function Trim(recent: seq<bytes>): seq<bytes> {
    if |recent| > MAX_RECENT then Trim(recent[1..]) else recent
  }

  function PushTo(s: Session, f: bytes): Session {
    s.(out := Push(s.out, f))
  }

  function Replay(out: Writer, fs: seq<bytes>): Writer {
    if fs == [] then out else Push(Replay(out, Front(fs)), Last(fs))
  }

  /** `session->start()`: join, which replays the history, then read a header. */
  function Start(w: World): World {
    w.(members := w.members + {|w.sessions|},
       sessions := w.sessions + [Session(Replay(IDLE, w.recent), AwaitHeader, [], |w.log|, None)])
  }

  function Deliver(w: World, sender: nat, f: bytes): World {
    w.(recent := Trim(w.recent + [f]),
       sessions := seq(|w.sessions|, i requires 0 <= i < |w.sessions| =>
                         if i in w.members then PushTo(w.sessions[i], f) else w.sessions[i]),
       log := w.log + [Post(sender, f)])
  }

  function Update(w: World, id: nat, s: Session): World
    requires id < |w.sessions|
  {
    w.(sessions := w.sessions[id := s])
  }

  function Leave(w: World, id: nat): World
    requires id < |w.sessions|
  {
    var s := w.sessions[id];
    Update(w, id, if id in w.members then s.(left := Some(|w.log|)) else s).(members := w.members - {id})
  }

  function ReadHeader(w: World, id: nat, error: bool, data: bytes): World
    requires id < |w.sessions|
  {
    var s := w.sessions[id];
    if error then Leave(Update(w, id, s.(reading := Stopped)), id)
    else
      var got := s.received + data;
      if DecodedLength(data).Some? then Update(w, id, s.(reading := AwaitBody(data), received := got))
      else Leave(Update(w, id, s.(reading := Stopped, received := got)), id)
  }

  function ReadBody(w: World, id: nat, error: bool, data: bytes): World
    requires id < |w.sessions| && w.sessions[id].reading.AwaitBody?
  {
    var s := w.sessions[id];
    if error then Leave(Update(w, id, s.(reading := Stopped)), id)
    else
      var v := Update(w, id, s.(reading := AwaitHeader, received := s.received + data));
      Deliver(v, id, s.reading.header + data)
  }

  function Written(w: World, id: nat, error: bool): World
    requires id < |w.sessions| && w.sessions[id].out.inFlight.Some? && w.sessions[id].out.queue != []
  {
    var s := w.sessions[id];
    var v := Update(w, id, s.(out := Complete(s.out, error)));
    if error then Leave(v, id) else v
  }

  /** An operation can complete only while it is outstanding, and a read completes
      with exactly the bytes it asked for, or with an error. */
  predicate Enabled(w: World, ev: Event) {
    match ev
    case Accepted => true
    case ReadDone(id, error, data) =>
      id < |w.sessions| &&
      (match w.sessions[id].reading
       case AwaitHeader => error || |data| == HEADER_LENGTH
       case AwaitBody(header) => error || DecodedLength(header) == Some(|data|)
       case Stopped => false)
    case WriteDone(id, _) => id < |w.sessions| && w.sessions[id].out.inFlight.Some? && w.sessions[id].out.queue != []
  }

  function Step(w: World, ev: Event): World
    requires Enabled(w, ev)
  {
    match ev
    case Accepted => Start(w)
    case ReadDone(id, error, data) =>
      if w.sessions[id].reading.AwaitHeader? then ReadHeader(w, id, error, data) else ReadBody(w, id, error, data)
    case WriteDone(id, error) => Written(w, id, error)
  }

  /** The state after a run of events, if each was possible when it happened. */
  function After(evs: seq<Event>): Option<World> {
    if evs == [] then Some(EMPTY)
    else match After(Front(evs))
      case None => None
      case Some(w) => if Enabled(w, Last(evs)) then Some(Step(w, Last(evs))) else None
  }

  // -------------------------------------------------------------- invariant

  function Frames(log: seq<Post>): (fs: seq<bytes>)
    ensures |fs| == |log| && forall i :: 0 <= i < |log| ==> fs[i] == log[i].frame
  {
    seq(|log|, i requires 0 <= i < |log| => log[i].frame)
  }

  /** What a session posted, in order. */
  function By(log: seq<Post>, id: nat): seq<bytes> {
    if log == [] then []
    else By(Front(log), id) + (if Last(log).sender == id then [Last(log).frame] else [])
  }

  function Since(n: nat): nat {
    if n <= MAX_RECENT then 0 else n - MAX_RECENT
  }

  /** The end of a session's share of the log: where it left, or now. */
  function Until(s: Session, n: nat): nat {
    if s.left.Some? then s.left.value else n
  }

  /** A session has been handed exactly the log from 100 before it joined until it left. */
  predicate InOrder(s: Session, log: seq<bytes>) {
    && s.joined <= Until(s, |log|) <= |log|
    && s.out.pushed == log[Since(s.joined)..Until(s, |log|)]
  }

  predicate Inv(w: World) {
    && (forall i :: i in w.members ==> i < |w.sessions|)
    && w.recent == Frames(w.log)[Since(|w.log|)..]
    && ValidFrames(Frames(w.log))
    && (forall k :: 0 <= k < |w.log| ==> w.log[k].sender < |w.sessions|)
    && (forall i :: 0 <= i < |w.sessions| ==> Member(w, i))
  }

  predicate Member(w: World, i: nat)
    requires i < |w.sessions|
  {
    var s := w.sessions[i];
    && (i in w.members <==> s.left.None?)
    && (s.left.Some? <==> s.out.failed || s.reading.Stopped?)
    && Sound(s.out) && InOrder(s, Frames(w.log)) && ReadSide(s.reading, s.received, By(w.log, i))
  }

  lemma {:induction false} TrimIsLast(recent: seq<bytes>)
    ensures Trim(recent) == recent[Since(|recent|)..]
    decreases |recent|
  {
    if |recent| > MAX_RECENT {
      TrimIsLast(recent[1..]);
      assert recent[1..][Since(|recent| - 1)..] == recent[Since(|recent|)..];
    }
  }

  lemma {:induction false} ReplayPushes(fs: seq<bytes>)
    ensures Sound(Replay(IDLE, fs)) && Replay(IDLE, fs).pushed == fs && !Replay(IDLE, fs).failed
    decreases |fs|
  {
    if fs != [] {
      ReplayPushes(Front(fs));
      PushSound(Replay(IDLE, Front(fs)), Last(fs));
      assert Front(fs) + [Last(fs)] == fs;
    }
  }

  lemma {:induction false} ByNobody(log: seq<Post>, id: nat)
    requires forall k :: 0 <= k < |log| ==> log[k].sender < id
    ensures By(log, id) == []
    decreases |log|
  {
    if log != [] { ByNobody(Front(log), id); }
  }

  /** A session that has just joined has been handed the recent messages. */
  lemma {:induction false} NewcomerInOrder(log: seq<bytes>, recent: seq<bytes>, s: Session)
    requires recent == log[Since(|log|)..]
    requires s == Session(Replay(IDLE, recent), AwaitHeader, [], |log|, None)
    ensures Sound(s.out) && !s.out.failed && InOrder(s, log) && ReadSide(s.reading, s.received, [])
  {
    ReplayPushes(recent);
    assert Concat([]) + [] == [];
    hide Sound, Replay, DecodedLength;
  }

  lemma {:induction false} StartKeeps(w: World)
    requires Inv(w)
    ensures Inv(Start(w))
  {
    hide Sound, Replay, Frames, By, ValidFrames, InOrder, ReadSide;
    var v, id := Start(w), |w.sessions|;
    NewcomerInOrder(Frames(w.log), w.recent, v.sessions[id]);
    ByNobody(w.log, id);
    forall i | 0 <= i < |v.sessions| ensures Member(v, i) {
      if i < id {
        assert Member(w, i) && v.sessions[i] == w.sessions[i];
      }
    }
  }

  lemma {:induction false} MembersKept(w: World, id: nat, s: Session)
    requires Inv(w) && id < |w.sessions|
    requires Member(Update(w, id, s), id)
    ensures Inv(Update(w, id, s))
  {
    var v := Update(w, id, s);
    forall i | 0 <= i < |v.sessions| ensures Member(v, i) {
      if i != id {
        assert Member(w, i) && v.sessions[i] == w.sessions[i];
      }
    }
  }

  /** Leaving fixes the end of a session's share of the log. */
  lemma {:induction false} LeaveKeeps(w: World, id: nat, s: Session)
    requires Inv(w) && id < |w.sessions|
    requires s.left == w.sessions[id].left && s.joined == w.sessions[id].joined && s.out.pushed == w.sessions[id].out.pushed
    requires Sound(s.out) && ReadSide(s.reading, s.received, By(w.log, id)) && (s.out.failed || s.reading.Stopped?)
    ensures Inv(Leave(Update(w, id, s), id))
  {
    hide Sound, ReadSide, Frames, By, ValidFrames;
    var v := Leave(Update(w, id, s), id);
    assert Member(w, id);
    var s' := if id in w.members then s.(left := Some(|w.log|)) else s;
    assert v.sessions == w.sessions[id := s'] && v.log == w.log && v.members == w.members - {id};
    forall i | 0 <= i < |v.sessions| ensures Member(v, i) {
      assert Member(w, i);
    }
  }

  lemma {:induction false} FramesPush(log: seq<Post>, p: Post)
    ensures Frames(log + [p]) == Frames(log) + [p.frame]
    ensures forall id: nat :: By(log + [p], id) == By(log, id) + (if p.sender == id then [p.frame] else [])
  {
    assert Front(log + [p]) == log && Last(log + [p]) == p;
  }

  lemma {:induction false} RecentPush(fs: seq<bytes>, f: bytes)
    ensures Trim(fs[Since(|fs|)..] + [f]) == (fs + [f])[Since(|fs| + 1)..]
  {
    var r := fs[Since(|fs|)..] + [f];
    TrimIsLast(r);
    assert r[Since(|r|)..] == (fs + [f])[Since(|fs| + 1)..];
  }

  lemma {:induction false} InOrderPushed(s: Session, log: seq<bytes>, f: bytes)
    requires InOrder(s, log) && s.left.None?
    ensures InOrder(PushTo(s, f), log + [f])
  {
    assert (log + [f])[Since(s.joined)..|log| + 1] == log[Since(s.joined)..|log|] + [f];
  }

  lemma {:induction false} InOrderElsewhere(s: Session, log: seq<bytes>, f: bytes)
    requires InOrder(s, log) && s.left.Some?
    ensures InOrder(s, log + [f])
  {
    assert (log + [f])[Since(s.joined)..s.left.value] == log[Since(s.joined)..s.left.value];
  }

  /** Delivery hands the frame to every participant and appends it to the log. */
  lemma {:induction false} DeliverKeeps(w: World, id: nat, data: bytes)
    requires Inv(w) && id < |w.sessions| && w.sessions[id].reading.AwaitBody?
    requires DecodedLength(w.sessions[id].reading.header) == Some(|data|)
    ensures Inv(ReadBody(w, id, false, data))
  {
    hide Sound, Frames, By, ReadSide, ValidFrame, DecodedLength, Trim, InOrder, Push;
    var v := ReadBody(w, id, false, data);
    var f := w.sessions[id].reading.header + data;
    FramesPush(w.log, Post(id, f));
    RecentPush(Frames(w.log), f);
    assert Member(w, id);
    ReadSideGrows(w.sessions[id].reading.header, w.sessions[id].received, By(w.log, id), data);
    forall i | 0 <= i < |v.sessions| ensures Member(v, i) {
      assert Member(w, i);
      DeliverToOne(w, id, data, i);
    }
  }

  lemma {:induction false} DeliverToOne(w: World, id: nat, data: bytes, i: nat)
    requires id < |w.sessions| && i < |w.sessions| && Member(w, i) && w.sessions[id].reading.AwaitBody?
    requires DecodedLength(w.sessions[id].reading.header) == Some(|data|)
    ensures Member(ReadBody(w, id, false, data), i)
  {
    hide Frames, By, ReadSide, ValidFrame, DecodedLength, Trim, InOrder;
    var v := ReadBody(w, id, false, data);
    var f := w.sessions[id].reading.header + data;
    FramesPush(w.log, Post(id, f));
    var s := w.sessions[i];
    if i in w.members {
      PushSound(s.out, f);
      InOrderPushed(s, Frames(w.log), f);
    } else {
      InOrderElsewhere(s, Frames(w.log), f);
    }
    if i == id {
      ReadSideGrows(s.reading.header, s.received, By(w.log, id), data);
    }
    DeliveredSession(w, id, data, i);
    assert By(w.log, i) + [] == By(w.log, i);
    hide Sound, Push, ReadBody;
    InOrderIgnoresReading(if i in w.members then PushTo(s, f) else s, v.sessions[i], Frames(v.log));
  }

  lemma {:induction false} DeliveredSession(w: World, id: nat, data: bytes, i: nat)
    requires id < |w.sessions| && i < |w.sessions| && w.sessions[id].reading.AwaitBody?
    ensures var v, f := ReadBody(w, id, false, data), w.sessions[id].reading.header + data;
            && v.log == w.log + [Post(id, f)] && v.members == w.members && |v.sessions| == |w.sessions|
            && var s := if i == id then w.sessions[i].(reading := AwaitHeader, received := w.sessions[i].received + data) else w.sessions[i];
               v.sessions[i] == if i in w.members then PushTo(s, f) else s
  {
    hide Push;
  }

  lemma {:induction false} InOrderIgnoresReading(s: Session, t: Session, log: seq<bytes>)
    requires s.out == t.out && s.joined == t.joined && s.left == t.left && InOrder(s, log)
    ensures InOrder(t, log)
  {
  }

  lemma {:induction false} ReadHeaderKeeps(w: World, id: nat, error: bool, data: bytes)
    requires Inv(w) && id < |w.sessions| && w.sessions[id].reading.AwaitHeader? && (error || |data| == HEADER_LENGTH)
    ensures Inv(ReadHeader(w, id, error, data))
  {
    hide Sound, Frames, By, DecodedLength, ValidFrames, InOrder;
    var s := w.sessions[id];
    assert Member(w, id);
    assert s.received + [] == s.received;
    if error {
      LeaveKeeps(w, id, s.(reading := Stopped));
    } else if DecodedLength(data).Some? {
      var s' := s.(reading := AwaitBody(data), received := s.received + data);
      assert Concat(By(w.log, id)) + [] == Concat(By(w.log, id));
      InOrderIgnoresReading(s, s', Frames(w.log));
      assert Member(Update(w, id, s'), id);
      MembersKept(w, id, s');
    } else {
      var s' := s.(reading := Stopped, received := s.received + data);
      assert Concat(By(w.log, id)) + [] == Concat(By(w.log, id));
      LeaveKeeps(w, id, s');
    }
  }

  lemma {:induction false} ReadBodyErrorKeeps(w: World, id: nat, data: bytes)
    requires Inv(w) && id < |w.sessions| && w.sessions[id].reading.AwaitBody?
    ensures Inv(ReadBody(w, id, true, data))
  {
    hide Sound, Frames, By, DecodedLength, ValidFrames, InOrder;
    assert Member(w, id);
    LeaveKeeps(w, id, w.sessions[id].(reading := Stopped));
  }

  lemma {:induction false} WrittenKeeps(w: World, id: nat, error: bool)
    requires Inv(w) && id < |w.sessions| && w.sessions[id].out.inFlight.Some? && w.sessions[id].out.queue != []
    ensures Inv(Written(w, id, error))
  {
    hide Frames, By, DecodedLength, ValidFrames, ReadSide;
    var s := w.sessions[id];
    assert Member(w, id);
    CompleteSound(s.out, error);
    var s' := s.(out := Complete(s.out, error));
    hide Sound;
    if error {
      LeaveKeeps(w, id, s');
    } else {
      assert Member(Update(w, id, s'), id);
      MembersKept(w, id, s');
    }
  }

  lemma {:induction false} StepKeeps(w: World, ev: Event)
    requires Inv(w) && Enabled(w, ev)
    ensures Inv(Step(w, ev))
  {
    hide Inv, ReadHeader, ReadBody, Written, Start, DecodedLength;
    match ev
    case Accepted => StartKeeps(w);
    case ReadDone(id, error, data) =>
      if w.sessions[id].reading.AwaitHeader? {
        ReadHeaderKeeps(w, id, error, data);
      } else if error {
        ReadBodyErrorKeeps(w, id, data);
      } else {
        DeliverKeeps(w, id, data);
      }
    case WriteDone(id, error) => WrittenKeeps(w, id, error);
  }

  /** The invariant holds in every reachable state. */
  lemma {:induction false} AlwaysInv(evs: seq<Event>)
    requires After(evs).Some?
    ensures Inv(After(evs).value)
    decreases |evs|
  {
    if evs != [] {
      AlwaysInv(Front(evs));
      hide Inv, Step, Enabled;
      StepKeeps(After(Front(evs)).value, Last(evs));
    }
  }

  // ------------------------------------------------------------ the theorems

  /** Totally ordered broadcast: in every reachable state the recent messages are
      the last 100 delivered, and what a session has been sent and still has to be
      sent is the log from 100 before it joined until it left, whole and in order. */
  lemma {:induction false} TotalOrder(evs: seq<Event>, i: nat)
    requires After(evs).Some? && i < |After(evs).value.sessions|
    ensures var w := After(evs).value;
            var s, log := w.sessions[i], Frames(w.log);
            && w.recent == log[if |log| <= 100 then 0 else |log| - 100..]
            && s.joined <= Until(s, |log|) <= |log|
            && s.out.written + s.out.queue == log[if s.joined <= 100 then 0 else s.joined - 100..Until(s, |log|)]
            && (i in w.members <==> s.left.None?)
  {
    AlwaysInv(evs);
    assert Member(After(evs).value, i);
    hide After, Frames, By, ReadSide;
  }

  /** What a session has been handed is a piece of the log, all of it valid frames. */
  lemma {:induction false} HandedSlice(evs: seq<Event>, i: nat)
    requires After(evs).Some? && i < |After(evs).value.sessions|
    ensures var w := After(evs).value;
            var s, log := w.sessions[i], Frames(w.log);
            && Sound(s.out) && ValidFrames(log)
            && Since(s.joined) <= Until(s, |log|) <= |log|
            && s.out.pushed == log[Since(s.joined)..Until(s, |log|)]
  {
    AlwaysInv(evs);
    assert Member(After(evs).value, i);
    hide After, Frames, By, ReadSide, Sound, ValidFrames;
  }

  /** A single write at a time, of the front of the queue, and none after a failure. */
  lemma {:induction false} SingleWriter(evs: seq<Event>, i: nat)
    requires After(evs).Some? && i < |After(evs).value.sessions|
    ensures var out := After(evs).value.sessions[i].out;
            && (out.inFlight.Some? <==> out.queue != [] && !out.failed)
            && (out.inFlight.Some? ==> out.inFlight.value == out.queue[0])
            && (out.failed ==> i !in After(evs).value.members)
  {
    AlwaysInv(evs);
    assert Member(After(evs).value, i);
    hide After, Frames, By, ReadSide, InOrder;
  }

  lemma {:induction false} FailedStepStays(w: World, ev: Event, i: nat)
    requires Inv(w) && Enabled(w, ev) && i < |w.sessions| && w.sessions[i].out.failed
    ensures var v := Step(w, ev);
            i < |v.sessions| && v.sessions[i].out.failed && v.sessions[i].out.written == w.sessions[i].out.written
  {
    assert Member(w, i);
    hide Inv, Replay, DecodedLength, Trim, InOrder, ReadSide, Frames, By;
  }

  /** Exactly who is a participant: in every reachable state, the sessions that no
      write has failed for and whose read loop has not stopped. */
  lemma {:induction false} ParticipantIff(evs: seq<Event>, w: World, i: nat)
    requires After(evs) == Some(w) && i < |w.sessions|
    ensures i in w.members <==> !w.sessions[i].out.failed && !w.sessions[i].reading.Stopped?
  {
    AlwaysInv(evs);
    assert Member(w, i);
    hide After, Frames, By, ReadSide, InOrder, Sound;
  }

  /** What posting a frame is: the completion of the read of its body. */
  predicate Posting(w: World, ev: Event) {
    Enabled(w, ev) && ev.ReadDone? && !ev.error && w.sessions[ev.id].reading.AwaitBody?
  }

  /** A frame is delivered exactly when a body has been read; and the session that
      posts it is no participant exactly if a write to it has failed before. */
  lemma {:induction false} PosterIsOutIff(evs: seq<Event>, w: World, ev: Event)
    requires After(evs) == Some(w) && Enabled(w, ev)
    ensures Posting(w, ev) <==> |Step(w, ev).log| > |w.log|
    ensures Posting(w, ev) ==> Last(Step(w, ev).log) == Post(ev.id, w.sessions[ev.id].reading.header + ev.data)
    ensures Posting(w, ev) ==> (ev.id !in Step(w, ev).members <==> w.sessions[ev.id].out.failed)
  {
    hide After, Replay, Trim, Push, Complete, DecodedLength;
    if ev.ReadDone? || ev.WriteDone? {
      ParticipantIff(evs, w, ev.id);
    }
  }

  lemma {:induction false} OneMore(evs: seq<Event>, ev: Event)
    requires After(evs).Some? && Enabled(After(evs).value, ev)
    ensures After(evs + [ev]) == Some(Step(After(evs).value, ev))
  {
    assert Front(evs + [ev]) == evs && Last(evs + [ev]) == ev;
  }

  const ZERO_HEADER: bytes := [SP, SP, SP, 48]

  lemma {:induction false} ZeroHeader()
    ensures DecodedLength(ZERO_HEADER) == Some(0)
  {
    DecodeInvertsEncode(0);
    assert HeaderText(0) == ZERO_HEADER;
  }

  /** A session reads an empty message and posts it, member or not. */
  lemma {:induction false} PostsEmpty(evs: seq<Event>, w: World, id: nat) returns (v: World)
    requires After(evs) == Some(w) && id < |w.sessions| && w.sessions[id].reading.AwaitHeader?
    ensures After(evs + [ReadDone(id, false, ZERO_HEADER)] + [ReadDone(id, false, [])]) == Some(v)
    ensures |v.sessions| == |w.sessions| && v.sessions[id].reading.AwaitHeader? && v.members == w.members
    ensures v.log != [] && Last(v.log).sender == id
    ensures v.sessions[id].out == if id in w.members then Push(w.sessions[id].out, ZERO_HEADER) else w.sessions[id].out
  {
    hide After, Push, Trim;
    ZeroHeader();
    hide DecodedLength;
    OneMore(evs, ReadDone(id, false, ZERO_HEADER));
    var u := Step(w, ReadDone(id, false, ZERO_HEADER));
    OneMore(evs + [ReadDone(id, false, ZERO_HEADER)], ReadDone(id, false, []));
    v := Step(u, ReadDone(id, false, []));
    assert ZERO_HEADER + [] == ZERO_HEADER;
  }

  /** The echo of a post cannot be written to its sender, which leaves the room. */
  lemma {:induction false} EchoFails(evs: seq<Event>, w: World, id: nat) returns (v: World)
    requires After(evs) == Some(w) && id < |w.sessions| && w.sessions[id].out == Push(IDLE, ZERO_HEADER)
    ensures After(evs + [WriteDone(id, true)]) == Some(v)
    ensures |v.sessions| == |w.sessions| && v.sessions[id].reading == w.sessions[id].reading && v.members == w.members - {id}
  {
    hide After;
    OneMore(evs, WriteDone(id, true));
    v := Step(w, WriteDone(id, true));
  }

  /** So a session that is no participant can post: there is a run whose last message
      is by session 0, while only session 1 is in the room. */
  lemma {:induction false} OutsiderPosts() returns (evs: seq<Event>, w: World)
    ensures After(evs) == Some(w) && |w.sessions| == 2
    ensures w.log != [] && Last(w.log).sender == 0 && w.members == {1}
  {
    assert After([]) == Some(EMPTY);
    hide After;
    OneMore([], Accepted);
    OneMore([] + [Accepted], Accepted);
    evs := [] + [Accepted] + [Accepted];
    w := Start(Start(EMPTY));
    assert w.members == {0, 1};
    w := PostsEmpty(evs, w, 0);
    evs := evs + [ReadDone(0, false, ZERO_HEADER)] + [ReadDone(0, false, [])];
    w := EchoFails(evs, w, 0);
    evs := evs + [WriteDone(0, true)];
    w := PostsEmpty(evs, w, 0);
    evs := evs + [ReadDone(0, false, ZERO_HEADER)] + [ReadDone(0, false, [])];
  }

  /** Once a write to a session has failed nothing is written to it any more. */
  lemma {:induction false} FailedStays(evs: seq<Event>, more: seq<Event>, i: nat)
    requires After(evs).Some? && i < |After(evs).value.sessions| && After(evs).value.sessions[i].out.failed
    requires After(evs + more).Some?
    ensures var before, after := After(evs).value.sessions, After(evs + more).value.sessions;
            && i < |after| && after[i].out.failed && after[i].out.inFlight.None?
            && after[i].out.written == before[i].out.written
    decreases |more|
  {
    if more == [] {
      assert evs + more == evs;
    } else {
      assert Front(evs + more) == evs + Front(more) && Last(evs + more) == Last(more);
      AlwaysInv(evs + Front(more));
      FailedStays(evs, Front(more), i);
      hide Inv, Step, Enabled;
      FailedStepStays(After(evs + Front(more)).value, Last(more), i);
    }
    SingleWriter(evs + more, i);
  }

  /** Two sessions never disagree: where their shares of the log overlap they have
      been handed the same messages at the same places. */
  lemma {:induction false} SessionsAgree(evs: seq<Event>, w: World, i: nat, j: nat, k: nat)
    requires After(evs) == Some(w) && i < |w.sessions| && j < |w.sessions|
    requires Since(w.sessions[i].joined) <= k < Until(w.sessions[i], |w.log|)
    requires Since(w.sessions[j].joined) <= k < Until(w.sessions[j], |w.log|)
    ensures var s, t := w.sessions[i], w.sessions[j];
            && |s.out.pushed| == Until(s, |w.log|) - Since(s.joined) && |t.out.pushed| == Until(t, |w.log|) - Since(t.joined)
            && s.out.pushed[k - Since(s.joined)] == t.out.pushed[k - Since(t.joined)]
  {
    hide *;
    HandedSlice(evs, i);
    HandedSlice(evs, j);
  }

  /** Relay fidelity: every frame in the log, hence every frame queued to anyone,
      decodes to the length of its own body, which fits a message. */
  lemma {:induction false} RelayedFramesValid(evs: seq<Event>, k: nat)
    requires After(evs).Some? && k < |After(evs).value.log|
    ensures var f := After(evs).value.log[k].frame;
            HEADER_LENGTH <= |f| <= HEADER_LENGTH + MAX_BODY_LENGTH && DecodedLength(f[..HEADER_LENGTH]) == Some(|f| - HEADER_LENGTH)
  {
    AlwaysInv(evs);
    var w := After(evs).value;
    assert ValidFrame(Frames(w.log)[k]);
  }

  /** What a session has posted is what the frames of its byte stream are, in the
      order it received them: cutting the stream gives exactly the frames posted,
      and at most an empty frame whose zero-byte body is still being read. */
  lemma {:induction false} PostedIsReceived(evs: seq<Event>, i: nat)
    requires After(evs).Some? && i < |After(evs).value.sessions|
    ensures var w := After(evs).value;
            var s, posted := w.sessions[i], By(w.log, i);
            && posted <= ParseFrames(s.received)
            && (s.reading.AwaitHeader? ==> posted == ParseFrames(s.received))
  {
    AlwaysInv(evs);
    var w := After(evs).value;
    var s, posted := w.sessions[i], By(w.log, i);
    assert Member(w, i);
    ByValid(w.log, i);
    ReadSideParses(s.reading, s.received, posted);
  }

  lemma {:induction false} ByValid(log: seq<Post>, id: nat)
    requires ValidFrames(Frames(log))
    ensures ValidFrames(By(log, id))
    decreases |log|
  {
    hide ValidFrame;
    if log != [] {
      assert forall k :: 0 <= k < |log| - 1 ==> Frames(Front(log))[k] == Frames(log)[k];
      ByValid(Front(log), id);
      assert Frames(log)[|log| - 1] == Last(log).frame;
    }
  }

  // -------------------------------------------------- when a read loop stops

  /** What stops the read loop of session i: a read of its that fails, or four bytes
      whose number is no length of a body. */
  predicate Stops(w: World, ev: Event, i: nat) {
    && ev.ReadDone? && ev.id == i && i < |w.sessions|
    && (ev.error || (w.sessions[i].reading.AwaitHeader? && !(0 <= Atoi(UpToNul(ev.data)) <= 512)))
  }

  predicate StopsAt(evs: seq<Event>, k: nat, i: nat) {
    k < |evs| && After(evs[..k]).Some? && Stops(After(evs[..k]).value, evs[k], i)
  }

  predicate StoppedNow(w: World, i: nat) {
    i < |w.sessions| && w.sessions[i].reading.Stopped?
  }

  lemma {:induction false} StepStops(w: World, ev: Event, i: nat)
    requires Enabled(w, ev)
    ensures StoppedNow(Step(w, ev), i) <==> StoppedNow(w, i) || Stops(w, ev, i)
  {
    if ev.ReadDone? && !ev.error && w.sessions[ev.id].reading.AwaitHeader? {
      DecodedExactly(ev.data);
    }
    hide DecodedLength, Replay, Trim, Push, Complete, Atoi, UpToNul;
  }

  /** In every reachable state a session has stopped reading exactly if one of its reads
      has failed or it was sent a header whose number is not from 0 to 512. */
  lemma {:induction false} StoppedIff(evs: seq<Event>, w: World, i: nat)
    requires After(evs) == Some(w)
    ensures StoppedNow(w, i) <==> exists k :: 0 <= k < |evs| && StopsAt(evs, k, i)
    decreases |evs|
  {
    hide Step, Enabled, Stops;
    if evs != [] {
      var n := |evs| - 1;
      var v := After(Front(evs)).value;
      StoppedIff(Front(evs), v, i);
      StepStops(v, Last(evs), i);
      assert Front(evs) == evs[..n];
      assert StopsAt(evs, n, i) <==> Stops(v, Last(evs), i);
      forall k | 0 <= k < n ensures StopsAt(evs, k, i) <==> StopsAt(Front(evs), k, i) {
        assert Front(evs)[..k] == evs[..k];
      }
    }
  }

  predicate NoReadFailed(evs: seq<Event>, i: nat) {
    forall k :: 0 <= k < |evs| ==> !(evs[k].ReadDone? && evs[k].id == i && evs[k].error)
  }

  lemma {:induction false} StepRefuses(w: World, ev: Event, i: nat)
    requires Inv(w) && Enabled(w, ev) && !(ev.ReadDone? && ev.id == i && ev.error)
    requires StoppedNow(w, i) ==> RefusedRest(w.sessions[i].received, By(w.log, i))
    requires StoppedNow(Step(w, ev), i)
    ensures RefusedRest(Step(w, ev).sessions[i].received, By(Step(w, ev).log, i))
  {
    if ev.ReadDone? && ev.id == i && w.sessions[i].reading.AwaitHeader? {
      assert Member(w, i);
      hide By, DecodedLength, Frames, InOrder, Sound;
      var s := w.sessions[i];
      assert s.received == Concat(By(w.log, i));
      assert (s.received + ev.data)[|s.received|..] == ev.data;
    } else {
      OthersKeep(w, ev, i);
    }
  }

  /** What others do leaves a stopped session's stream, and its posts, alone. */
  lemma {:induction false} OthersKeep(w: World, ev: Event, i: nat)
    requires Enabled(w, ev) && StoppedNow(Step(w, ev), i)
    requires !(ev.ReadDone? && ev.id == i && w.sessions[i].reading.AwaitHeader?) && !(ev.ReadDone? && ev.id == i && ev.error)
    ensures StoppedNow(w, i) && Step(w, ev).sessions[i].received == w.sessions[i].received
    ensures By(Step(w, ev).log, i) == By(w.log, i)
  {
    hide DecodedLength, Replay, Trim, Push, Complete, By;
    if ev.ReadDone? && w.sessions[ev.id].reading.AwaitBody? && !ev.error {
      FramesPush(w.log, Post(ev.id, w.sessions[ev.id].reading.header + ev.data));
      assert By(w.log, i) + [] == By(w.log, i);
    }
  }

  lemma {:induction false} StoppedRest(evs: seq<Event>, w: World, i: nat)
    requires After(evs) == Some(w) && NoReadFailed(evs, i) && StoppedNow(w, i)
    ensures RefusedRest(w.sessions[i].received, By(w.log, i))
    decreases |evs|
  {
    hide Inv, Step, Enabled, By, RefusedRest;
    var v := After(Front(evs)).value;
    AlwaysInv(Front(evs));
    if StoppedNow(v, i) {
      StoppedRest(Front(evs), v, i);
    }
    StepRefuses(v, Last(evs), i);
  }

  /** A session whose reads have not failed goes on reading as long as what it has been
      sent is the beginning of a stream of well-formed frames. */
  lemma {:induction false} GoodStreamGoesOn(evs: seq<Event>, w: World, i: nat, sent: seq<bytes>)
    requires After(evs) == Some(w) && i < |w.sessions| && NoReadFailed(evs, i)
    requires ValidFrames(sent) && w.sessions[i].received <= Concat(sent)
    ensures !w.sessions[i].reading.Stopped?
  {
    if w.sessions[i].reading.Stopped? {
      var received, taken := w.sessions[i].received, By(w.log, i);
      StoppedRest(evs, w, i);
      AlwaysInv(evs);
      ByValid(w.log, i);
      NothingRefused(received, taken, sent);
    }
  }

  /** End to end: if what session i has received is the beginning of a stream of
      well-formed frames, then what it posted to the room is the beginning of that
      sequence of frames; and if no read has failed and all of it has arrived, all of
      it is posted, but for an empty body still being read. */
  lemma {:induction false} StreamIsPosted(evs: seq<Event>, w: World, i: nat, sent: seq<bytes>)
    requires After(evs) == Some(w) && i < |w.sessions|
    requires ValidFrames(sent) && w.sessions[i].received <= Concat(sent)
    ensures By(w.log, i) <= sent
    ensures w.sessions[i].received == Concat(sent) && NoReadFailed(evs, i) ==> AllTaken(w.sessions[i].reading, By(w.log, i), sent)
  {
    PostedIsReceived(evs, i);
    ReadSideOf(evs, w, i);
    hide *;
    ParsePrefix(sent, w.sessions[i].received);
    if w.sessions[i].received == Concat(sent) && NoReadFailed(evs, i) {
      GoodStreamGoesOn(evs, w, i, sent);
      ArrivedIsTaken(w.sessions[i].reading, w.sessions[i].received, By(w.log, i), sent);
    }
  }

  lemma {:induction false} ReadSideOf(evs: seq<Event>, w: World, i: nat)
    requires After(evs) == Some(w) && i < |w.sessions|
    ensures ReadSide(w.sessions[i].reading, w.sessions[i].received, By(w.log, i)) && ValidFrames(By(w.log, i))
  {
    AlwaysInv(evs);
    assert Member(w, i);
    ByValid(w.log, i);
    hide After, Frames, By, ReadSide, InOrder, Sound, ValidFrames;
  }

  // ---------------------------------------------------------- nothing is lost

  /** What has been read from session i, and how often a write to it succeeded. */
  function Arrived(evs: seq<Event>, i: nat): bytes {
    if evs == [] then [] else Arrived(Front(evs), i) + Arrives(Last(evs), i)
  }

  function Arrives(ev: Event, i: nat): bytes {
    if ev.ReadDone? && ev.id == i && !ev.error then ev.data else []
  }

  function Writes(evs: seq<Event>, i: nat): nat {
    if evs == [] then 0 else Writes(Front(evs), i) + (if Last(evs) == WriteDone(i, false) then 1 else 0)
  }

  function Accepts(evs: seq<Event>): nat {
    if evs == [] then 0 else Accepts(Front(evs)) + (if Last(evs).Accepted? then 1 else 0)
  }

  lemma {:induction false} ReplayWritesNothing(fs: seq<bytes>)
    ensures Replay(IDLE, fs).written == []
    decreases |fs|
  {
    if fs != [] { ReplayWritesNothing(Front(fs)); }
  }

  lemma {:induction false} InFrontOrLast<T>(s: seq<T>, x: T)
    requires s != []
    ensures x in s <==> x in Front(s) || x == Last(s)
  {
    assert s == Front(s) + [Last(s)];
  }

  lemma {:induction false} StepConserves(w: World, ev: Event, i: nat)
    requires Enabled(w, ev)
    ensures var v := Step(w, ev);
            && |v.sessions| == |w.sessions| + (if ev.Accepted? then 1 else 0)
            && (i < |w.sessions| ==>
                  && v.sessions[i].received == w.sessions[i].received + Arrives(ev, i)
                  && |v.sessions[i].out.written| == |w.sessions[i].out.written| + (if ev == WriteDone(i, false) then 1 else 0)
                  && (v.sessions[i].out.failed <==> w.sessions[i].out.failed || ev == WriteDone(i, true)))
            && (|w.sessions| <= i < |v.sessions| ==> v.sessions[i].received == [] && v.sessions[i].out.written == [] && !v.sessions[i].out.failed)
            && (|w.sessions| <= i ==> Arrives(ev, i) == [] && !(ev.WriteDone? && ev.id == i))
  {
    if i < |w.sessions| {
      SessionConserves(w, ev, i);
    }
    ReplayWritesNothing(w.recent);
    ReplayPushes(w.recent);
    hide DecodedLength, Replay, Trim, Sound, Push, Complete;
  }

  lemma {:induction false} SessionConserves(w: World, ev: Event, i: nat)
    requires Enabled(w, ev) && i < |w.sessions|
    ensures var v := Step(w, ev);
            && i < |v.sessions| && v.sessions[i].received == w.sessions[i].received + Arrives(ev, i)
            && |v.sessions[i].out.written| == |w.sessions[i].out.written| + (if ev == WriteDone(i, false) then 1 else 0)
            && (v.sessions[i].out.failed <==> w.sessions[i].out.failed || ev == WriteDone(i, true))
  {
    hide DecodedLength, Replay, Trim;
    assert w.sessions[i].received + [] == w.sessions[i].received;
  }

  /** Every client accepted has its session; a session has received exactly what was
      read from it, has written one frame for each write that succeeded, and has
      failed exactly if a write has. */
  lemma {:induction false} Conserved(evs: seq<Event>, w: World, i: nat)
    requires After(evs) == Some(w)
    ensures |w.sessions| == Accepts(evs)
    ensures i < |w.sessions| ==> w.sessions[i].received == Arrived(evs, i) && |w.sessions[i].out.written| == Writes(evs, i)
    ensures i < |w.sessions| ==> (w.sessions[i].out.failed <==> WriteDone(i, true) in evs)
    ensures i >= |w.sessions| ==> Arrived(evs, i) == [] && Writes(evs, i) == 0 && WriteDone(i, true) !in evs
    decreases |evs|
  {
    if evs != [] {
      var v := After(Front(evs)).value;
      Conserved(Front(evs), v, i);
      hide Step, Enabled, Arrives;
      StepConserves(v, Last(evs), i);
      InFrontOrLast(evs, WriteDone(i, true));
    }
  }

  /** Nothing is stuck: a client can always be accepted, a session that has not stopped
      reading can be sent something or fail, and one with messages queued can complete
      a write unless one has failed; and nothing else can complete. */
  lemma {:induction false} NothingStuck(evs: seq<Event>, w: World, i: nat, error: bool, data: bytes)
    requires After(evs) == Some(w)
    ensures After(evs + [Accepted]).Some?
    ensures After(evs + [ReadDone(i, true, data)]).Some? <==> i < |w.sessions| && !w.sessions[i].reading.Stopped?
    ensures i < |w.sessions| && !w.sessions[i].reading.Stopped? ==> exists d: bytes :: After(evs + [ReadDone(i, false, d)]).Some?
    ensures After(evs + [WriteDone(i, error)]).Some? <==> i < |w.sessions| && w.sessions[i].out.queue != [] && WriteDone(i, true) !in evs
  {
    Conserved(evs, w, i);
    if i < |w.sessions| {
      SingleWriter(evs, i);
      ReadSideOf(evs, w, i);
      var r := w.sessions[i].reading;
      var d: bytes := seq(if r.AwaitBody? then DecodedLength(r.header).value else 4, _ => 0);
      Extends(evs, w, ReadDone(i, false, d));
    }
    Extends(evs, w, Accepted);
    Extends(evs, w, ReadDone(i, true, data));
    Extends(evs, w, WriteDone(i, error));
    hide After, DecodedLength;
  }

  lemma {:induction false} Extends(evs: seq<Event>, w: World, ev: Event)
    requires After(evs) == Some(w)
    ensures After(evs + [ev]).Some? <==> Enabled(w, ev)
  {
    assert Front(evs + [ev]) == evs && Last(evs + [ev]) == ev;
    hide Enabled, Step;
  }
}
