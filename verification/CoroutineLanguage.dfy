/** The language of the coroutine parser: the same messages, with a non-empty URI
    and ASCII header values, followed by as many bytes as Content-Length says. */
module CoroutineLanguage {
  import opened Bytes
  import opened Options
  import opened RequestMachine
  import opened RequestCoroutine
  import opened RequestGrammar
  import L = Lockstep

  const NO_REQUEST: Request := Request([], [], 0, 0, [])

  /** The messages the coroutine accepts the head of. */
  predicate Acceptable(m: Message) {
    WfMessage(m) && m.uri != [] && L.AsciiValues(Headers(m.lines))
  }

  lemma {:induction false} NothingMarked()
    ensures !L.Marked(MethodStart, NO_REQUEST)
  {
  }

  /** After an acceptable message the outcome is the length rule's, whatever follows. */
  lemma {:induction false} MessageThenRest(cast: Cast, len: nat, full: FullRequest, m: Message, rest: bytes)
    requires Acceptable(m)
    ensures L.Has(Run3(cast, Start, len, full, Print(m) + rest), L.BodyOutcome(cast, Meaning(m), |Print(m)|, rest))
  {
    hide Step, Print, WfMessage, ScanLength, Headers, L.AsciiValues, L.BodyOutcome, L.Has, Run, Run3;
    var input := Print(m) + rest;
    MessageIsAccepted(NO_REQUEST, m, rest);
    NothingMarked();
    L.DivergenceIsVisible(MethodStart, NO_REQUEST, input);
    L.Lockstep(cast, NO_REQUEST, len, full, input);
    assert input[|Print(m)|..] == rest;
  }

  /** Completeness: a message and its body are accepted exactly on the body's last
      byte, and the request left holds both. */
  lemma {:induction false} FramedIsAccepted(cast: Cast, len: nat, full: FullRequest, m: Message, body: bytes, rest: bytes)
    requires Acceptable(m) && ScanLength(cast, Headers(m.lines)) == Some(|body|)
    ensures L.Has(Run3(cast, Start, len, full, Print(m) + body + rest),
                  (True, |Print(m) + body|, FullRequest(Meaning(m), body)))
  {
    hide Print, Acceptable, ScanLength, Headers, Run3;
    assert Print(m) + body + rest == Print(m) + (body + rest);
    MessageThenRest(cast, len, full, m, body + rest);
    assert (body + rest)[..|body|] == body;
  }

  /** Soundness: whatever the coroutine accepts is such a message and such a body. */
  lemma {:induction false} AcceptedIsFramed(cast: Cast, len: nat, full: FullRequest, input: bytes) returns (m: Message, body: bytes)
    requires Run3(cast, Start, len, full, input).verdict.True?
    ensures Acceptable(m) && ScanLength(cast, Headers(m.lines)) == Some(|body|)
    ensures var r := Run3(cast, Start, len, full, input);
            input[..r.used] == Print(m) + body && r.req == FullRequest(Meaning(m), body)
  {
    hide Step, Print, Run, Run3, WfMessage, ScanLength, Headers, L.AsciiValues;
    L.Lockstep(cast, NO_REQUEST, len, full, input);
    var p := Run(MethodStart, NO_REQUEST, input);
    assert p.verdict.True?;
    m := AcceptedIsMessage(NO_REQUEST, input);
    NothingMarked();
    L.DivergenceIsVisible(MethodStart, NO_REQUEST, input);
    AcceptedInState(NO_REQUEST, input);
    body := input[p.used..][..ScanLength(cast, p.req.headers).value];
    assert input[..p.used] + body == input[..p.used + |body|];
  }

  lemma {:induction false} AcceptedInState(was: Request, input: bytes)
    requires Fresh(was) && Run(MethodStart, was, input).verdict.True?
    ensures Run(MethodStart, was, input).state == ExpectingNewline3
  {
    AcceptedInStateFrom(MethodStart, was, input);
  }

  lemma {:induction false} AcceptedInStateFrom(st: State, req: Request, input: bytes)
    requires Safe(st, req) && Run(st, req, input).verdict.True?
    ensures Run(st, req, input).state == ExpectingNewline3
    decreases |input|
  {
    hide Step;
    var o := Step(st, req, input[0]);
    if o.verdict.Indeterminate? {
      AcceptedInStateFrom(o.state, o.req, input[1..]);
    }
  }

  /** When the two parsers accept different things: exactly an empty URI, a value
      that is not ASCII, or a Content-Length that is malformed or not yet met. */
  lemma {:induction false} AcceptsWhatMachineAccepts(cast: Cast, len: nat, full: FullRequest, input: bytes)
    ensures var p, r := Run(MethodStart, NO_REQUEST, input), Run3(cast, Start, len, full, input);
            r.verdict.True? <==>
              && p.verdict.True? && p.req.uri != [] && L.AsciiValues(p.req.headers)
              && ScanLength(cast, p.req.headers).Some?
              && p.used + ScanLength(cast, p.req.headers).value <= |input|
  {
    hide Step, Run, Run3, ScanLength, L.AsciiValues;
    L.Lockstep(cast, NO_REQUEST, len, full, input);
    NothingMarked();
    if Run(MethodStart, NO_REQUEST, input).verdict.True? {
      L.DivergenceIsVisible(MethodStart, NO_REQUEST, input);
      AcceptedInState(NO_REQUEST, input);
    }
  }

  // ------------------------------------------------------- the case of letters

  /** The same byte, or the same letter in the other case. */
  predicate SameLetter(a: byte, b: byte) {
    a == b || (65 <= a <= 90 && b == a + 32) || (97 <= a <= 122 && b == a - 32)
  }

  /** The same header line, but for the case of letters in its name. */
  predicate Recased(l: HeaderLine, k: HeaderLine) {
    && k == l.(name := k.name) && |k.name| == |l.name|
    && forall i :: 0 <= i < |l.name| ==> SameLetter(l.name[i], k.name[i])
  }

  predicate RecasedLines(ls: seq<HeaderLine>, ks: seq<HeaderLine>) {
    |ls| == |ks| && forall i :: 0 <= i < |ls| ==> Recased(ls[i], ks[i])
  }

  lemma {:induction false} RecasedLine(l: HeaderLine, k: HeaderLine)
    requires Recased(l, k)
    ensures WfLine(l) ==> WfLine(k)
    ensures |PrintLine(k)| == |PrintLine(l)|
    ensures LineHeader(k).value == LineHeader(l).value
    ensures IsLength(LineHeader(k)) <==> IsLength(LineHeader(l))
  {
    RecasedOpen(l, k);
    IsLengthIff(LineHeader(k));
    IsLengthIff(LineHeader(l));
    hide OpenLine, IsLength, WfFold, FoldText;
  }

  lemma {:induction false} RecasedOpen(l: HeaderLine, k: HeaderLine)
    requires Recased(l, k)
    ensures |OpenLine(k)| == |OpenLine(l)|
    decreases |l.folds|
  {
    hide SameLetter;
    if l.folds != [] {
      RecasedOpen(l.(folds := Front(l.folds)), k.(folds := Front(k.folds)));
    }
  }

  lemma {:induction false} RecasedScan(cast: Cast, ls: seq<HeaderLine>, ks: seq<HeaderLine>)
    requires RecasedLines(ls, ks)
    ensures ScanLength(cast, Headers(ks)) == ScanLength(cast, Headers(ls)) && |PrintLines(ks)| == |PrintLines(ls)|
    decreases |ls|
  {
    hide Recased, IsLength, LineHeader, PrintLine;
    if ls != [] {
      RecasedScan(cast, Front(ls), Front(ks));
      RecasedLine(Last(ls), Last(ks));
      assert Front(Headers(ls)) == Headers(Front(ls)) && Front(Headers(ks)) == Headers(Front(ks));
    }
  }

  lemma {:induction false} RecasedAcceptable(m: Message, ks: seq<HeaderLine>)
    requires Acceptable(m) && RecasedLines(m.lines, ks)
    ensures Acceptable(m.(lines := ks))
  {
    hide Recased, WfLine, LineHeader, AsciiOnly;
    forall i | 0 <= i < |ks| ensures WfLine(ks[i]) && LineHeader(ks[i]).value == LineHeader(m.lines[i]).value {
      RecasedLine(m.lines[i], ks[i]);
    }
  }

  /** Letters of header names may be in either case: whatever follows, the message is
      decided the same way at the same byte and its body is the same. */
  lemma {:induction false} CaseIsIgnored(cast: Cast, len: nat, full: FullRequest, m: Message, ks: seq<HeaderLine>, rest: bytes)
    requires Acceptable(m) && RecasedLines(m.lines, ks)
    ensures var n := m.(lines := ks);
            var r, q := Run3(cast, Start, len, full, Print(m) + rest), Run3(cast, Start, len, full, Print(n) + rest);
            && q.verdict == r.verdict && q.used == r.used && q.req.content == r.req.content
            && r.req.head == Meaning(m) && q.req.head == Meaning(n)
  {
    var n := m.(lines := ks);
    RecasedAcceptable(m, ks);
    RecasedScan(cast, m.lines, ks);
    assert |Print(n)| == |Print(m)| by { hide PrintLines; }
    hide Acceptable, Print, RecasedLines, ScanLength, Headers, Run3;
    MessageThenRest(cast, len, full, m, rest);
    MessageThenRest(cast, len, full, n, rest);
  }

  // ------------------------------------------------------ the earliest refusal

  /** The byte that leads on towards an acceptable message. */
  function OnwardToo(st: State, req: Request): byte {
    if st.Uri? && req.uri == [] then '/' as int else Onward(st)
  }

  lemma {:induction false} OnwardIsCloser(st: State, req: Request)
    requires Safe(st, req)
    ensures var b := OnwardToo(st, req);
            var o := Step(st, req, b);
            && !L.Diverges(st, req, b) && !o.verdict.False?
            && (o.verdict.Indeterminate? ==>
                  Distance(o.state) < Distance(st) || (o.state == st && st.Uri? && req.uri == [] && o.req.uri != []))
  {
  }

  /** From wherever the machine has got to, some continuation completes a message
      without a byte at which the coroutine would leave it. */
  lemma {:induction false} CompletableTogether(st: State, req: Request) returns (t: bytes)
    requires Safe(st, req)
    ensures Run(st, req, t).verdict.True? && L.FirstDivergence(st, req, t).None?
    decreases Distance(st), if req.uri == [] then 1 else 0
  {
    hide Step, L.Diverges, Distance, OnwardToo;
    OnwardIsCloser(st, req);
    var b := OnwardToo(st, req);
    var o := Step(st, req, b);
    t := [b];
    assert [b][1..] == [];
    if o.verdict.Indeterminate? {
      var t' := CompletableTogether(o.state, o.req);
      t := [b] + t';
      assert t[1..] == t';
    }
  }

  /** What the machine accepts and the coroutine has not left is acceptable. */
  lemma {:induction false} TogetherIsAcceptable(input: bytes) returns (m: Message)
    requires Run(MethodStart, NO_REQUEST, input).verdict.True? && L.FirstDivergence(MethodStart, NO_REQUEST, input).None?
    ensures Acceptable(m) && Print(m) == input[..Run(MethodStart, NO_REQUEST, input).used]
  {
    hide Step, Print, Run, WfMessage, Headers, L.AsciiValues, L.FirstDivergence;
    m := AcceptedIsMessage(NO_REQUEST, input);
    NothingMarked();
    L.DivergenceIsVisible(MethodStart, NO_REQUEST, input);
    AcceptedInState(NO_REQUEST, input);
  }

  /** While the coroutine has not decided, and a refusal is still to come, machine and
      coroutine are together before the blank line. */
  lemma {:induction false} StillTogether(cast: Cast, len: nat, full: FullRequest, head: bytes, tail: bytes)
    requires Run3(cast, Start, len, full, head).verdict.Indeterminate?
    requires Run3(cast, Start, len, full, head + tail).verdict.False?
    ensures L.FirstDivergence(MethodStart, NO_REQUEST, head).None?
    ensures Run(MethodStart, NO_REQUEST, head).verdict.Indeterminate?
  {
    hide Step, Resume, Run, Run3, ScanLength, L.FirstDivergence;
    L.Lockstep(cast, NO_REQUEST, len, full, head);
    L.Lockstep(cast, NO_REQUEST, len, full, head + tail);
    RunConcat(MethodStart, NO_REQUEST, head, tail);
    L.DivergenceConcat(MethodStart, NO_REQUEST, head, tail);
  }

  /** Nothing acceptable begins with what the coroutine has refused; unless that is a
      whole message, whose Content-Length is malformed. */
  lemma {:induction false} RefusedBeginsNone(cast: Cast, len: nat, full: FullRequest, input: bytes, m: Message)
    requires Run3(cast, Start, len, full, input).verdict.False?
    requires Acceptable(m) && input[..Run3(cast, Start, len, full, input).used] <= Print(m)
    ensures input[..Run3(cast, Start, len, full, input).used] == Print(m) && ScanLength(cast, Headers(m.lines)).None?
  {
    hide Step, Resume, Run, Run3, Print, Acceptable, ScanLength, Headers;
    var k := Run3(cast, Start, len, full, input).used;
    var head, rest := input[..k], Print(m)[k..];
    assert head + input[k..] == input && head + rest == Print(m) + [];
    Run3Concat(cast, Start, len, full, head, input[k..]);
    Run3Concat(cast, Start, len, full, head, rest);
    RefusedInHead(cast, len, full, head, input[k..]);
    MessageThenRest(cast, len, full, m, []);
  }

  lemma {:induction false} RefusedInHead(cast: Cast, len: nat, full: FullRequest, head: bytes, tail: bytes)
    requires Run3(cast, Start, len, full, head + tail).verdict.False?
    requires Run3(cast, Start, len, full, head + tail).used == |head|
    ensures Run3(cast, Start, len, full, head) == Run3(cast, Start, len, full, head + tail)
  {
    hide Resume, Run3;
    Run3Concat(cast, Start, len, full, head, tail);
  }

  /** The coroutine too refuses at the earliest byte: what was read before it begins an
      acceptable message; with it none begins, or it was the last byte of one whose
      Content-Length is malformed. */
  lemma {:induction false} RefusedEarliestToo(cast: Cast, len: nat, full: FullRequest, input: bytes) returns (m: Message)
    requires Run3(cast, Start, len, full, input).verdict.False?
    ensures var k := Run3(cast, Start, len, full, input).used;
            && Acceptable(m) && input[..k - 1] <= Print(m)
            && forall m': Message :: Acceptable(m') && input[..k] <= Print(m') ==>
                 input[..k] == Print(m') && ScanLength(cast, Headers(m'.lines)).None?
  {
    hide Step, Resume, Run, Run3, Print, Acceptable, ScanLength, Headers, L.FirstDivergence;
    var k := Run3(cast, Start, len, full, input).used;
    var head, tail := input[..k - 1], input[k - 1..];
    assert head + tail == input;
    Run3Concat(cast, Start, len, full, head, tail);
    StillTogether(cast, len, full, head, tail);
    var h := Run(MethodStart, NO_REQUEST, head);
    var t := CompletableTogether(h.state, h.req);
    RunConcat(MethodStart, NO_REQUEST, head, t);
    L.DivergenceConcat(MethodStart, NO_REQUEST, head, t);
    m := TogetherIsAcceptable(head + t);
    assert head <= Print(m) by {
      var used := Run(MethodStart, NO_REQUEST, head + t).used;
      assert used >= |head| && (head + t)[..|head|] == head;
    }
    forall m': Message | Acceptable(m') && input[..k] <= Print(m')
      ensures input[..k] == Print(m') && ScanLength(cast, Headers(m'.lines)).None?
    {
      RefusedBeginsNone(cast, len, full, input, m');
    }
  }
}
