/** The write queue that the chat client and each chat session keep: messages wait
    in order, and the front one is being written. */
module WriteQueue {
  import opened Bytes
  import opened Options

  /** `written` records the completed writes and `pushed` everything ever queued. */
  datatype Writer = Writer(queue: seq<bytes>, inFlight: Option<bytes>, failed: bool, written: seq<bytes>, pushed: seq<bytes>)

  const IDLE: Writer := Writer([], None, false, [], [])

  /** `deliver` / `do_write` */
  function Push(w: Writer, f: bytes): Writer {
    w.(queue := w.queue + [f],
       inFlight := if w.queue == [] then Some(f) else w.inFlight,
       pushed := w.pushed + [f])
  }

  /** `handle_write`, called when the outstanding write completes. */
  function Complete(w: Writer, error: bool): Writer
    requires w.inFlight.Some? && w.queue != []
  {
    if error then w.(inFlight := None, failed := true)
    else
      var queue := w.queue[1..];
      w.(queue := queue, inFlight := if queue == [] then None else Some(queue[0]), written := w.written + [w.inFlight.value])
  }

  /** At most one write is outstanding; one is exactly when the queue is not empty
      and no write has failed; it is the front of the queue, unchanged; and what
      has been written and what waits are all that was queued, in order. */
  predicate Sound(w: Writer) {
    && (w.inFlight.Some? <==> w.queue != [] && !w.failed)
    && (w.inFlight.Some? ==> w.inFlight.value == w.queue[0])
    && (w.failed ==> w.queue != [])
    && w.written + w.queue == w.pushed
  }

  lemma {:induction false} PushSound(w: Writer, f: bytes)
    requires Sound(w)
    ensures Sound(Push(w, f))
  {
    assert w.written + (w.queue + [f]) == w.written + w.queue + [f];
  }

  lemma {:induction false} CompleteSound(w: Writer, error: bool)
    requires Sound(w) && w.inFlight.Some?
    ensures Sound(Complete(w, error))
  {
    assert w.queue == [w.queue[0]] + w.queue[1..];
    assert w.written + [w.queue[0]] + w.queue[1..] == w.written + w.queue;
  }

  datatype Event = Queued(f: bytes) | Completed(error: bool)

  function AfterAll(w: Writer, es: seq<Event>): Writer {
    if es == [] then w
    else
      var v := AfterAll(w, Front(es));
      match Last(es)
      case Queued(f) => Push(v, f)
      case Completed(error) => if v.inFlight.Some? && v.queue != [] then Complete(v, error) else v
  }

  /** The single-writer property over every run of messages and completions. */
  lemma {:induction false} AlwaysSound(es: seq<Event>)
    ensures Sound(AfterAll(IDLE, es))
    decreases |es|
  {
    if es != [] {
      AlwaysSound(Front(es));
      var v := AfterAll(IDLE, Front(es));
      match Last(es)
      case Queued(f) => PushSound(v, f);
      case Completed(error) => if v.inFlight.Some? { CompleteSound(v, error); }
    }
  }

  /** After a failed write nothing is ever written again: no write is started and
      the record of written messages stands, whatever is queued. */
  lemma {:induction false} FailureIsFinal(w: Writer, es: seq<Event>)
    requires Sound(w) && w.failed
    ensures var v := AfterAll(w, es);
            v.failed && v.inFlight.None? && v.written == w.written && v.queue != [] && v.queue[0] == w.queue[0]
    decreases |es|
  {
    if es != [] {
      FailureIsFinal(w, Front(es));
    }
  }

  // -------------------------------------------------------- bytes on the wire

  function Concat(fs: seq<bytes>): bytes {
    if fs == [] then [] else Concat(Front(fs)) + Last(fs)
  }

  lemma {:induction false} ConcatAppends(a: seq<bytes>, b: seq<bytes>)
    ensures Concat(a + b) == Concat(a) + Concat(b)
    decreases |b|
  {
    if b == [] {
      assert a + b == a;
    } else {
      ConcatAppends(a, Front(b));
      assert Front(a + b) == a + Front(b) && Last(a + b) == Last(b);
      Assoc(Concat(a), Concat(Front(b)), Last(b));
    }
  }

  /** What a writer may have put on the wire: the written messages whole, and some
      beginning of the one in flight, or of the one whose write failed. */
  predicate OnWire(w: Writer, sent: bytes) {
    Concat(w.written) <= sent && sent <= Concat(w.written) + (if w.queue == [] then [] else w.queue[0])
  }

  /** So the wire carries a beginning of the messages queued, in order. */
  lemma {:induction false} WireIsPrefix(w: Writer, sent: bytes)
    requires Sound(w) && OnWire(w, sent)
    ensures sent <= Concat(w.pushed)
    ensures w.queue == [] ==> sent == Concat(w.pushed)
  {
    if w.queue == [] {
      assert w.written + [] == w.written;
    } else {
      ConcatAppends(w.written, w.queue);
      ConcatAppends(w.queue[..1], w.queue[1..]);
      assert w.queue == w.queue[..1] + w.queue[1..];
      assert Front(w.queue[..1]) == [] && Concat(w.queue[..1]) == [] + w.queue[0] == w.queue[0];
      Assoc(Concat(w.written), w.queue[0], Concat(w.queue[1..]));
    }
  }
}
