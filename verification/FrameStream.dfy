/** The byte stream of a chat connection cut into frames: what the read loop of
    header then body makes of it, and that it undoes the writer. */
module FrameStream {
  import opened Bytes
  import opened Options
  import opened ChatMessage
  import opened WriteQueue

  predicate ValidFrames(fs: seq<bytes>) {
    forall i :: 0 <= i < |fs| ==> ValidFrame(fs[i])
  }

  /** The complete frames at the front of a stream, up to a header that is refused. */
  function ParseFrames(s: bytes): seq<bytes>
    decreases |s|
  {
    if |s| < HEADER_LENGTH then []
    else match DecodedLength(s[..HEADER_LENGTH])
      case None => []
      case Some(n) =>
        if |s| < HEADER_LENGTH + n then []
        else [s[..HEADER_LENGTH + n]] + ParseFrames(s[HEADER_LENGTH + n..])
  }

  lemma {:induction false} ParseFrame(f: bytes, t: bytes)
    requires ValidFrame(f)
    ensures ParseFrames(f + t) == [f] + ParseFrames(t)
  {
    hide ChatMessage.DecodedLength;
    assert (f + t)[..HEADER_LENGTH] == f[..HEADER_LENGTH];
    assert (f + t)[..|f|] == f && (f + t)[|f|..] == t;
  }

  /** Cutting undoes joining, whatever comes behind. */
  lemma {:induction false} ParseConcat(fs: seq<bytes>, t: bytes)
    requires ValidFrames(fs)
    ensures ParseFrames(Concat(fs) + t) == fs + ParseFrames(t)
    decreases |fs|
  {
    hide ValidFrame;
    if fs == [] {
      assert Concat(fs) + t == t;
    } else {
      ParseConcat(Front(fs), Last(fs) + t);
      ParseFrame(Last(fs), t);
      hide ParseFrames;
      Assoc(Concat(Front(fs)), Last(fs), t);
      Assoc(Front(fs), [Last(fs)], ParseFrames(t));
      assert Front(fs) + [Last(fs)] == fs;
    }
  }

  lemma {:induction false} ShortOfFrame(f: bytes, s: bytes)
    requires ValidFrame(f) && s <= f && |s| < |f|
    ensures ParseFrames(s) == []
  {
    hide ChatMessage.DecodedLength;
    if |s| >= HEADER_LENGTH {
      assert s[..HEADER_LENGTH] == f[..HEADER_LENGTH];
    }
  }

  /** From any beginning of a joined stream, a beginning of the sequence of frames
      is recovered; from all of it, the whole sequence. */
  lemma {:induction false} ParsePrefix(fs: seq<bytes>, s: bytes)
    requires ValidFrames(fs) && s <= Concat(fs)
    ensures ParseFrames(s) <= fs
    ensures s == Concat(fs) ==> ParseFrames(s) == fs
    decreases |fs|
  {
    hide ValidFrame;
    if fs != [] {
      var f, rest := fs[0], fs[1..];
      assert fs == [f] + rest && Front([f]) == [] && Concat([f]) == [] + f == f;
      ConcatAppends([f], rest);
      if |s| < |f| {
        assert s <= f;
        ShortOfFrame(f, s);
      } else {
        var s' := s[|f|..];
        assert s == f + s';
        assert Concat(rest) == Concat(fs)[|f|..];
        ParseFrame(f, s');
        ParsePrefix(rest, s');
      }
    }
  }

  // ---------------------------------------------------------- the read loop

  /** The outstanding read of a connection: four header bytes, the body that a
      header announced, or none. */
  datatype Reading = AwaitHeader | AwaitBody(header: bytes) | Stopped

  /** The bytes of a frame that has not been read completely. */
  function Partial(r: Reading): bytes {
    if r.AwaitBody? then r.header else []
  }

  /** The loop has taken exactly the frames `taken` off the stream and is inside
      the next one; a loop that has stopped may have dropped one header. */
  predicate ReadSide(reading: Reading, received: bytes, taken: seq<bytes>) {
    && (reading.AwaitBody? ==> |reading.header| == HEADER_LENGTH && DecodedLength(reading.header).Some?)
    && (!reading.Stopped? ==> received == Concat(taken) + Partial(reading))
    && (reading.Stopped? ==> Concat(taken) <= received && |received| <= |Concat(taken)| + HEADER_LENGTH)
  }

  /** A body completes a frame. */
  lemma {:induction false} ReadSideGrows(header: bytes, received: bytes, taken: seq<bytes>, data: bytes)
    requires ReadSide(AwaitBody(header), received, taken) && DecodedLength(header) == Some(|data|)
    ensures ValidFrame(header + data)
    ensures ReadSide(AwaitHeader, received + data, taken + [header + data])
  {
    hide DecodedLength;
    var f := header + data;
    assert f[..HEADER_LENGTH] == header;
    assert Front(taken + [f]) == taken && Last(taken + [f]) == f;
    assert Concat(taken) + header + data == Concat(taken) + f;
    assert Concat(taken + [f]) + [] == Concat(taken) + f;
  }

  /** The frames taken are those the stream is cut into; all of them, between frames. */
  lemma {:induction false} ReadSideParses(reading: Reading, received: bytes, taken: seq<bytes>)
    requires ReadSide(reading, received, taken) && ValidFrames(taken)
    ensures taken <= ParseFrames(received)
    ensures reading.AwaitHeader? ==> taken == ParseFrames(received)
  {
    assert ParseFrames([]) == [];
    hide ParseFrames, DecodedLength;
    var rest := received[|Concat(taken)|..];
    assert received == Concat(taken) + rest;
    ParseConcat(taken, rest);
    if reading.AwaitHeader? {
      assert rest == [];
      assert taken + [] == taken;
    }
  }

  /** All frames have been taken; but for an empty body whose read, of no bytes, is
      still outstanding behind its header. */
  predicate AllTaken(reading: Reading, taken: seq<bytes>, sent: seq<bytes>) {
    taken == sent || (reading.AwaitBody? && DecodedLength(reading.header) == Some(0) && taken + [reading.header] == sent)
  }

  lemma {:induction false} HeaderAlone(h: bytes)
    requires |h| == HEADER_LENGTH && DecodedLength(h).Some?
    ensures ParseFrames(h) == if DecodedLength(h) == Some(0) then [h] else []
  {
    assert h[..HEADER_LENGTH] == h;
    if DecodedLength(h) == Some(0) {
      assert ParseFrames([]) == [];
      assert h[HEADER_LENGTH..] == [] && [h] + [] == [h];
    }
    hide DecodedLength;
  }

  /** A loop that goes on has taken a stream of frames once it has arrived. */
  lemma {:induction false} ArrivedIsTaken(reading: Reading, received: bytes, taken: seq<bytes>, sent: seq<bytes>)
    requires ReadSide(reading, received, taken) && ValidFrames(taken) && ValidFrames(sent)
    requires !reading.Stopped? && received == Concat(sent)
    ensures AllTaken(reading, taken, sent)
  {
    ParsePrefix(sent, received);
    if reading.AwaitHeader? {
      ReadSideParses(reading, received, taken);
    } else {
      hide ValidFrame, ParseFrames, DecodedLength;
      assert taken + [] == taken && |received| == |Concat(taken)| + HEADER_LENGTH;
      ParseConcat(taken, reading.header);
      HeaderAlone(reading.header);
    }
  }

  lemma {:induction false} NoFrames(h: bytes)
    requires |h| == HEADER_LENGTH && DecodedLength(h).None?
    ensures ParseFrames(h) == []
  {
    assert h[..HEADER_LENGTH] == h;
  }

  /** A header that is refused is in no stream of frames. */
  lemma {:induction false} RefusedIsNoFrame(taken: seq<bytes>, h: bytes, sent: seq<bytes>)
    requires ValidFrames(taken) && ValidFrames(sent) && |h| == HEADER_LENGTH && DecodedLength(h).None?
    ensures !(Concat(taken) + h <= Concat(sent))
  {
    if Concat(taken) + h <= Concat(sent) {
      ParseConcat(taken, h);
      NoFrames(h);
      ParsePrefix(sent, Concat(taken) + h);
      hide ParseFrames, DecodedLength;
      assert taken + [] == taken;
      var rest := sent[|taken|..];
      assert sent == taken + rest;
      ConcatAppends(taken, rest);
      assert h <= Concat(rest) by {
        assert Concat(sent)[|Concat(taken)|..] == Concat(rest);
        assert (Concat(taken) + h)[|Concat(taken)|..] == h;
      }
      FirstHeader(rest, h);
    }
  }

  /** Of a stream without a failed read, what is left over when the loop stops is the
      header that it refused. */
  predicate RefusedRest(received: bytes, taken: seq<bytes>) {
    && Concat(taken) <= received && |received| == |Concat(taken)| + HEADER_LENGTH
    && DecodedLength(received[|Concat(taken)|..]).None?
  }

  lemma {:induction false} NothingRefused(received: bytes, taken: seq<bytes>, sent: seq<bytes>)
    requires ValidFrames(taken) && ValidFrames(sent) && received <= Concat(sent)
    ensures !RefusedRest(received, taken)
  {
    if RefusedRest(received, taken) {
      var h := received[|Concat(taken)|..];
      hide Concat, DecodedLength, ValidFrame, ParseFrames;
      assert received == Concat(taken) + h;
      RefusedIsNoFrame(taken, h, sent);
    }
  }

  lemma {:induction false} SomeFrame(sent: seq<bytes>)
    requires ValidFrames(sent) && sent != []
    ensures Concat(sent) != []
  {
    assert ValidFrame(sent[|sent| - 1]);
  }

  lemma {:induction false} FirstHeader(fs: seq<bytes>, h: bytes)
    requires ValidFrames(fs) && |h| == HEADER_LENGTH && h <= Concat(fs)
    ensures DecodedLength(h).Some?
  {
    assert fs != [];
    assert fs == [fs[0]] + fs[1..] && Front([fs[0]]) == [] && Concat([fs[0]]) == [] + fs[0] == fs[0];
    ConcatAppends([fs[0]], fs[1..]);
    assert ValidFrame(fs[0]);
    hide DecodedLength;
    assert fs[0][..HEADER_LENGTH] == h;
  }
}
