/** The two request parsers compared byte by byte: up to the blank line they do
    the same thing, except on exactly two kinds of byte, and from there on the
    coroutine goes by its Content-Length rule. */
module Lockstep {
  import opened Bytes
  import opened Options
  import opened RequestMachine
  import opened RequestCoroutine

  /** The machine state that corresponds to a point of the coroutine. */
  function StateOf(p: Point): State {
    match p
    case Start => MethodStart
    case InMethod => Method
    case AfterMethod | InUri => Uri
    case AfterUri => VersionH
    case AfterH => VersionT1
    case AfterHT => VersionT2
    case AfterHTT => VersionP
    case AfterHTTP => VersionSlash
    case AfterSlash => MajorStart
    case InMajor => Major
    case AfterDot => MinorStart
    case InMinor => Minor
    case AfterMinor => ExpectingNewline1
    case AfterRequestLine | AfterHeader => HeaderLineStart
    case InBlanks => HeaderLws
    case InName => HeaderName
    case AfterColon => SpaceBeforeValue
    case AfterColonSpace | InValue => HeaderValue
    case AfterValue => ExpectingNewline2
    case AfterLastReturn | InContent => ExpectingNewline3
  }

  predicate VersionUnset(st: State) {
    || st.MethodStart? || st.Method? || st.Uri?
    || st.VersionH? || st.VersionT1? || st.VersionT2? || st.VersionP? || st.VersionSlash?
  }

  /** The request with the version numbers the coroutine starts from, where the
      machine has not set them yet. */
  function Settled(st: State, req: Request): Request {
    if VersionUnset(st) then req.(major := 0, minor := 0) else req
  }

  /** Both parsers stand at the same place with the same request. */
  predicate Related(st: State, req: Request, p: Point, len: nat, full: FullRequest) {
    && st == StateOf(p) && !p.InContent? && Safe(st, req)
    && (p.Start? ==> Fresh(req))
    && (!p.Start? ==> len == 0 && full == FullRequest(Settled(st, req), []))
    && (p.InMethod? ==> req.meth != [] && req.uri == [])
    && (p.AfterMethod? ==> req.uri == [])
    && (p.InUri? ==> req.uri != [])
  }

  /** A space for an empty URI, or a byte above 127 in a header value: the machine
      goes on and the coroutine refuses. */
  predicate Diverges(st: State, req: Request, b: byte) {
    (st.Uri? && req.uri == [] && b == SP) || ((st.HeaderValue? || st.HeaderLws?) && b >= 128)
  }

  /** What the coroutine answers to the LF of the blank line. */
  function BlankLine(cast: Cast, req: FullRequest): Resumed {
    match ScanLength(cast, req.head.headers)
    case None => Resumed(False, AfterLastReturn, 0, req)
    case Some(n) => ContentLoop(n, req)
  }

  predicate InStep(cast: Cast, st: State, req: Request, p: Point, len: nat, full: FullRequest, b: byte)
    requires Safe(st, req) && SafePoint(p, full)
  {
    var o, r := Step(st, req, b), Resume(cast, p, len, full, b);
    if Diverges(st, req, b) then
      o.verdict.Indeterminate? && r.verdict.False?
    else if o.verdict.True? then
      r == BlankLine(cast, full)
    else
      && o.verdict == r.verdict
      && (o.verdict.Indeterminate? ==> Related(o.state, o.req, r.point, r.length, r.req))
      && (o.verdict.False? ==> r.req == FullRequest(Settled(st, req), []))
  }

  lemma {:induction false} ByteClasses(b: byte)
    ensures TokenByte(b) ==> !BlankByte(b) && b != COLON && b != CR
    ensures CtlByte(b) ==> b < 128 && b != SP
    ensures b == CR || b == HT || b == LF ==> CtlByte(b)
    ensures IsChar(Signed(b)) <==> b < 128
    ensures DigitByte(b) ==> b != '.' as int && b != CR
  {
  }

  lemma {:induction false} InStepInMethod(cast: Cast, st: State, req: Request, p: Point, len: nat, full: FullRequest, b: byte)
    requires Related(st, req, p, len, full)
    requires st.MethodStart? || st.Method?
    ensures SafePoint(p, full) && InStep(cast, st, req, p, len, full, b)
  {
    ByteClasses(b);
    hide TokenByte, CtlByte, DigitByte, IsChar, ScanLength;
  }

  lemma {:induction false} InStepInUri(cast: Cast, st: State, req: Request, p: Point, len: nat, full: FullRequest, b: byte)
    requires Related(st, req, p, len, full)
    requires st.Uri?
    ensures SafePoint(p, full) && InStep(cast, st, req, p, len, full, b)
  {
    ByteClasses(b);
    hide TokenByte, CtlByte, DigitByte, IsChar, ScanLength;
  }

  lemma {:induction false} InStepInProtocol(cast: Cast, st: State, req: Request, p: Point, len: nat, full: FullRequest, b: byte)
    requires Related(st, req, p, len, full)
    requires st.VersionH? || st.VersionT1? || st.VersionT2? || st.VersionP? || st.VersionSlash?
    ensures SafePoint(p, full) && InStep(cast, st, req, p, len, full, b)
  {
    ByteClasses(b);
    hide TokenByte, CtlByte, DigitByte, IsChar, ScanLength;
  }

  lemma {:induction false} InStepInMajor(cast: Cast, st: State, req: Request, p: Point, len: nat, full: FullRequest, b: byte)
    requires Related(st, req, p, len, full)
    requires st.MajorStart? || st.Major?
    ensures SafePoint(p, full) && InStep(cast, st, req, p, len, full, b)
  {
    ByteClasses(b);
    hide TokenByte, CtlByte, DigitByte, IsChar, ScanLength;
  }

  lemma {:induction false} InStepInMinor(cast: Cast, st: State, req: Request, p: Point, len: nat, full: FullRequest, b: byte)
    requires Related(st, req, p, len, full)
    requires st.MinorStart? || st.Minor? || st.ExpectingNewline1?
    ensures SafePoint(p, full) && InStep(cast, st, req, p, len, full, b)
  {
    ByteClasses(b);
    hide TokenByte, CtlByte, DigitByte, IsChar, ScanLength;
  }

  lemma {:induction false} InStepAtLineStart(cast: Cast, st: State, req: Request, p: Point, len: nat, full: FullRequest, b: byte)
    requires Related(st, req, p, len, full)
    requires st.HeaderLineStart?
    ensures SafePoint(p, full) && InStep(cast, st, req, p, len, full, b)
  {
    ByteClasses(b);
    hide TokenByte, CtlByte, DigitByte, IsChar, ScanLength;
  }

  lemma {:induction false} InStepInBlanks(cast: Cast, st: State, req: Request, p: Point, len: nat, full: FullRequest, b: byte)
    requires Related(st, req, p, len, full)
    requires st.HeaderLws?
    ensures SafePoint(p, full) && InStep(cast, st, req, p, len, full, b)
  {
    ByteClasses(b);
    hide TokenByte, CtlByte, DigitByte, IsChar, ScanLength;
  }

  lemma {:induction false} InStepInHeader(cast: Cast, st: State, req: Request, p: Point, len: nat, full: FullRequest, b: byte)
    requires Related(st, req, p, len, full)
    requires st.HeaderName? || st.SpaceBeforeValue? || st.HeaderValue?
    ensures SafePoint(p, full) && InStep(cast, st, req, p, len, full, b)
  {
    ByteClasses(b);
    hide TokenByte, CtlByte, DigitByte, IsChar, ScanLength;
  }

  lemma {:induction false} InStepAtLineEnd(cast: Cast, st: State, req: Request, p: Point, len: nat, full: FullRequest, b: byte)
    requires Related(st, req, p, len, full)
    requires st.ExpectingNewline2? || st.ExpectingNewline3?
    ensures SafePoint(p, full) && InStep(cast, st, req, p, len, full, b)
  {
    ByteClasses(b);
    hide TokenByte, CtlByte, DigitByte, IsChar, ScanLength;
  }

  /** One byte: same verdict and same request, or a divergence, or the blank line. */
  lemma {:induction false} OneByte(cast: Cast, st: State, req: Request, p: Point, len: nat, full: FullRequest, b: byte)
    requires Related(st, req, p, len, full)
    ensures Safe(st, req) && SafePoint(p, full) && InStep(cast, st, req, p, len, full, b)
  {
    match st
    case MethodStart | Method => InStepInMethod(cast, st, req, p, len, full, b);
    case Uri => InStepInUri(cast, st, req, p, len, full, b);
    case MajorStart | Major => InStepInMajor(cast, st, req, p, len, full, b);
    case MinorStart | Minor | ExpectingNewline1 => InStepInMinor(cast, st, req, p, len, full, b);
    case HeaderLineStart => InStepAtLineStart(cast, st, req, p, len, full, b);
    case HeaderLws => InStepInBlanks(cast, st, req, p, len, full, b);
    case HeaderName | SpaceBeforeValue | HeaderValue => InStepInHeader(cast, st, req, p, len, full, b);
    case ExpectingNewline2 | ExpectingNewline3 => InStepAtLineEnd(cast, st, req, p, len, full, b);
    case _ => InStepInProtocol(cast, st, req, p, len, full, b);
  }

  // ---------------------------------------------------------- whole inputs

  /** The first byte at which the parsers part company, while the machine still reads. */
  function FirstDivergence(st: State, req: Request, input: bytes): (d: Option<nat>)
    requires Safe(st, req)
    ensures d.Some? ==> d.value < |input|
    decreases |input|
  {
    if input == [] then None
    else if Diverges(st, req, input[0]) then Some(0)
    else
      var o := Step(st, req, input[0]);
      if !o.verdict.Indeterminate? then None
      else match FirstDivergence(o.state, o.req, input[1..])
        case None => None
        case Some(i) => Some(i + 1)
  }

  /** The coroutine's outcome on what follows the blank line, by its length rule. */
  function BodyOutcome(cast: Cast, head: Request, k: nat, rest: bytes): (r: (Tribool, nat, FullRequest)) {
    match ScanLength(cast, head.headers)
    case None => (False, k, FullRequest(head, []))
    case Some(n) =>
      if n <= |rest| then (True, k + n, FullRequest(head, rest[..n]))
      else (Indeterminate, k + |rest|, FullRequest(head, rest))
  }

  predicate Has(r: Parsed3, outcome: (Tribool, nat, FullRequest)) {
    r.verdict == outcome.0 && r.used == outcome.1 && r.req == outcome.2
  }

  /** The content loop takes exactly the missing bytes. */
  lemma {:induction false} ContentRun(cast: Cast, len: nat, req: FullRequest, rest: bytes)
    requires |req.content| < len
    ensures var r, missing := Run3(cast, InContent, len, req, rest), len - |req.content|;
            if missing <= |rest| then Has(r, (True, missing, req.(content := req.content + rest[..missing])))
            else Has(r, (Indeterminate, |rest|, req.(content := req.content + rest)))
    decreases |rest|
  {
    if rest == [] {
      assert req.content + [] == req.content;
    } else {
      var req' := req.(content := req.content + [rest[0]]);
      if |req'.content| < len {
        ContentRun(cast, len, req', rest[1..]);
        assert req'.content + rest[1..] == req.content + rest;
        if len - |req.content| <= |rest| {
          var missing := len - |req.content|;
          assert req'.content + rest[1..][..missing - 1] == req.content + rest[..missing];
        }
      } else {
        assert rest[..1] == [rest[0]];
      }
    }
  }

  lemma {:induction false} AfterBlankLine(cast: Cast, req: Request, input: bytes)
    requires input != [] && input[0] == LF
    ensures var full := FullRequest(req, []);
            Has(Run3(cast, AfterLastReturn, 0, full, input), BodyOutcome(cast, req, 1, input[1..]))
  {
    hide ScanLength;
    var full := FullRequest(req, []);
    match ScanLength(cast, req.headers)
    case None =>
    case Some(n) =>
      var rest := input[1..];
      if n == 0 {
        assert rest[..0] == [];
      } else {
        ContentRun(cast, n, full, rest);
        assert [] + rest == rest;
        if n <= |rest| { assert [] + rest[..n] == rest[..n]; }
      }
  }

  /** What the two parsers make of an input: m by the machine, r by the coroutine,
      with the first diverging byte, if any, at d. */
  predicate Match(cast: Cast, d: Option<nat>, m: Parsed, r: Parsed3, input: bytes)
    requires m.used <= |input|
  {
    match d
    case Some(i) => r.verdict.False? && r.used == i + 1 && i < m.used
    case None =>
      if m.verdict.True? then Has(r, BodyOutcome(cast, m.req, m.used, input[m.used..]))
      else
        && r.verdict == m.verdict && r.used == m.used
        && (m.verdict.Indeterminate? ==> Related(m.state, m.req, r.point, r.length, r.req))
        && (m.verdict.False? ==> r.req == FullRequest(Settled(m.state, m.req), []))
  }

  /** From any related pair of states. */
  predicate Lockstepped(cast: Cast, st: State, req: Request, p: Point, len: nat, full: FullRequest, input: bytes)
    requires Safe(st, req) && SafePoint(p, full)
  {
    Match(cast, FirstDivergence(st, req, input), Run(st, req, input), Run3(cast, p, len, full, input), input)
  }

  lemma {:induction false} AtBlankLine(cast: Cast, st: State, req: Request, p: Point, len: nat, full: FullRequest, input: bytes)
    requires Related(st, req, p, len, full) && input != [] && Step(st, req, input[0]).verdict.True?
    ensures SafePoint(p, full) && Lockstepped(cast, st, req, p, len, full, input)
  {
    AfterBlankLine(cast, req, input);
    hide ScanLength, BodyOutcome, Resume, Run3;
  }

  lemma {:induction false} BodyShifts(cast: Cast, head: Request, k: nat, rest: bytes, r: Parsed3)
    requires Has(r, BodyOutcome(cast, head, k, rest))
    ensures Has(Shift3(1, r), BodyOutcome(cast, head, k + 1, rest))
  {
    hide ScanLength;
  }

  /** One unfolding of the three recursions, when neither parser stops at the first byte. */
  lemma {:induction false} FirstByteRead(cast: Cast, st: State, req: Request, p: Point, len: nat, full: FullRequest, input: bytes)
    requires Safe(st, req) && SafePoint(p, full) && input != [] && !Diverges(st, req, input[0])
    requires Step(st, req, input[0]).verdict.Indeterminate? && Resume(cast, p, len, full, input[0]).verdict.Indeterminate?
    ensures var o, r := Step(st, req, input[0]), Resume(cast, p, len, full, input[0]);
            && Run(st, req, input) == Shift(1, Run(o.state, o.req, input[1..]))
            && Run3(cast, p, len, full, input) == Shift3(1, Run3(cast, r.point, r.length, r.req, input[1..]))
            && FirstDivergence(st, req, input) == match FirstDivergence(o.state, o.req, input[1..])
                                                  case None => None
                                                  case Some(i) => Some(i + 1)
  {
    hide Step, Resume, Diverges;
  }

  lemma {:induction false} MatchShifts(cast: Cast, d: Option<nat>, m: Parsed, r: Parsed3, input: bytes)
    requires input != [] && m.used < |input| && Match(cast, d, m, r, input[1..])
    ensures Match(cast, if d.None? then None else Some(d.value + 1), Shift(1, m), Shift3(1, r), input)
  {
    hide Related, BodyOutcome, Has, Settled;
    if d.None? && m.verdict.True? {
      assert input[1..][m.used..] == input[m.used + 1..];
      BodyShifts(cast, m.req, m.used, input[m.used + 1..], r);
    }
  }

  lemma {:induction false} LockstepExtends(cast: Cast, st: State, req: Request, p: Point, len: nat, full: FullRequest, input: bytes)
    requires Safe(st, req) && SafePoint(p, full) && input != [] && !Diverges(st, req, input[0])
    requires var o, r := Step(st, req, input[0]), Resume(cast, p, len, full, input[0]);
             && o.verdict.Indeterminate? && r.verdict.Indeterminate?
             && Lockstepped(cast, o.state, o.req, r.point, r.length, r.req, input[1..])
    ensures Lockstepped(cast, st, req, p, len, full, input)
  {
    hide Step, Resume, Diverges, Run, Run3, FirstDivergence, Match;
    FirstByteRead(cast, st, req, p, len, full, input);
    var o, r := Step(st, req, input[0]), Resume(cast, p, len, full, input[0]);
    MatchShifts(cast, FirstDivergence(o.state, o.req, input[1..]), Run(o.state, o.req, input[1..]),
                Run3(cast, r.point, r.length, r.req, input[1..]), input);
  }

  lemma {:induction false} NothingRead(cast: Cast, st: State, req: Request, p: Point, len: nat, full: FullRequest)
    requires Related(st, req, p, len, full)
    ensures Safe(st, req) && SafePoint(p, full) && Lockstepped(cast, st, req, p, len, full, [])
  {
    hide Step, Resume, Diverges, BodyOutcome, Has;
  }

  lemma {:induction false} DivergesAtOnce(cast: Cast, st: State, req: Request, p: Point, len: nat, full: FullRequest, input: bytes)
    requires Related(st, req, p, len, full) && input != [] && Diverges(st, req, input[0])
    ensures Safe(st, req) && SafePoint(p, full) && Lockstepped(cast, st, req, p, len, full, input)
  {
    OneByte(cast, st, req, p, len, full, input[0]);
    hide Step, Resume, Diverges, BodyOutcome, Has, Settled, BlankLine, Related;
  }

  lemma {:induction false} BothRefuse(cast: Cast, st: State, req: Request, p: Point, len: nat, full: FullRequest, input: bytes)
    requires Related(st, req, p, len, full) && input != []
    requires !Diverges(st, req, input[0]) && Step(st, req, input[0]).verdict.False?
    ensures Safe(st, req) && SafePoint(p, full) && Lockstepped(cast, st, req, p, len, full, input)
  {
    OneByte(cast, st, req, p, len, full, input[0]);
    hide Step, Resume, Diverges, BodyOutcome, Has, Settled, BlankLine, Related;
  }

  lemma {:induction false} LockstepFrom(cast: Cast, st: State, req: Request, p: Point, len: nat, full: FullRequest, input: bytes)
    requires Related(st, req, p, len, full)
    ensures Safe(st, req) && SafePoint(p, full) && Lockstepped(cast, st, req, p, len, full, input)
    decreases |input|
  {
    hide Step, Resume, Related, Diverges, BodyOutcome, Lockstepped;
    OneByte(cast, st, req, p, len, full, 0);
    if input == [] {
      NothingRead(cast, st, req, p, len, full);
    } else if Diverges(st, req, input[0]) {
      DivergesAtOnce(cast, st, req, p, len, full, input);
    } else if Step(st, req, input[0]).verdict.False? {
      BothRefuse(cast, st, req, p, len, full, input);
    } else {
      OneByte(cast, st, req, p, len, full, input[0]);
      if Step(st, req, input[0]).verdict.True? {
        AtBlankLine(cast, st, req, p, len, full, input);
      } else {
        var o, r := Step(st, req, input[0]), Resume(cast, p, len, full, input[0]);
        LockstepFrom(cast, o.state, o.req, r.point, r.length, r.req, input[1..]);
        LockstepExtends(cast, st, req, p, len, full, input);
      }
    }
  }

  /** The refinement from the start: whatever request object each parser is given. */
  lemma {:induction false} Lockstep(cast: Cast, req: Request, len: nat, full: FullRequest, input: bytes)
    requires Fresh(req)
    ensures Lockstepped(cast, MethodStart, req, Start, len, full, input)
  {
    LockstepFrom(cast, MethodStart, req, Start, len, full, input);
  }

  // ------------------------------------------- a divergence leaves a trace

  predicate AsciiValues(headers: seq<Header>) {
    forall i :: 0 <= i < |headers| ==> AsciiOnly(headers[i].value)
  }

  /** What a divergence leaves in the request: an empty URI, or a value that is not ASCII. */
  predicate Marked(st: State, req: Request) {
    (!st.MethodStart? && !st.Method? && !st.Uri? && req.uri == []) || !AsciiValues(req.headers)
  }

  lemma {:induction false} ValuePushed(req: Request, b: byte)
    requires req.headers != []
    ensures AsciiValues(PushValue(req, b).headers) <==> AsciiValues(req.headers) && b < 128
  {
    var hs, n := PushValue(req, b).headers, |req.headers| - 1;
    assert hs[n].value == req.headers[n].value + [b];
    assert forall i :: 0 <= i < n ==> hs[i] == req.headers[i];
    assert hs[n].value[|req.headers[n].value|] == b;
    if AsciiValues(hs) {
      forall i | 0 <= i < |req.headers| ensures AsciiOnly(req.headers[i].value) {
        assert AsciiOnly(hs[i].value);
        if i == n {
          assert forall k :: 0 <= k < |req.headers[n].value| ==> req.headers[n].value[k] == hs[n].value[k];
        }
      }
    }
  }

  lemma {:induction false} NamePushed(req: Request, b: byte)
    requires req.headers != []
    ensures AsciiValues(PushName(req, b).headers) <==> AsciiValues(req.headers)
  {
    var hs, n := PushName(req, b).headers, |req.headers| - 1;
    assert hs[n].value == req.headers[n].value;
    assert forall i :: 0 <= i < n ==> hs[i] == req.headers[i];
    assert forall i :: 0 <= i <= n ==> hs[i].value == req.headers[i].value;
    hide AsciiOnly;
  }

  lemma {:induction false} HeaderAdded(req: Request, b: byte)
    ensures AsciiValues(req.headers + [Header([b], [])]) <==> AsciiValues(req.headers)
  {
    var hs := req.headers + [Header([b], [])];
    assert forall i :: 0 <= i < |req.headers| ==> hs[i] == req.headers[i];
    assert hs[|req.headers|].value == [];
  }

  lemma {:induction false} StepMarks(st: State, req: Request, b: byte)
    requires Safe(st, req) && Step(st, req, b).verdict.Indeterminate?
    ensures var o := Step(st, req, b);
            Marked(o.state, o.req) <==> Marked(st, req) || Diverges(st, req, b)
  {
    ByteClasses(b);
    if req.headers != [] {
      ValuePushed(req, b);
      NamePushed(req, b);
    }
    HeaderAdded(req, b);
    hide TokenByte, CtlByte, DigitByte, AsciiValues, PushValue, PushName;
  }

  /** So the final request tells whether the parsers ever diverged. */
  lemma {:induction false} DivergenceIsVisible(st: State, req: Request, input: bytes)
    requires Safe(st, req) && !Marked(st, req)
    ensures var m := Run(st, req, input);
            FirstDivergence(st, req, input).None? <==> !Marked(m.state, m.req)
    decreases |input|
  {
    hide Step, Marked, Diverges;
    if input != [] {
      var o := Step(st, req, input[0]);
      if o.verdict.Indeterminate? {
        StepMarks(st, req, input[0]);
        if Diverges(st, req, input[0]) {
          MarksStay(o.state, o.req, input[1..]);
        } else {
          DivergenceIsVisible(o.state, o.req, input[1..]);
        }
      } else {
        LastStepDoesNotDiverge(st, req, input[0]);
      }
    }
  }

  lemma {:induction false} LastStepDoesNotDiverge(st: State, req: Request, b: byte)
    requires Safe(st, req) && !Step(st, req, b).verdict.Indeterminate?
    ensures !Diverges(st, req, b)
  {
  }

  lemma {:induction false} MarksStay(st: State, req: Request, input: bytes)
    requires Safe(st, req) && Marked(st, req)
    ensures var m := Run(st, req, input); Marked(m.state, m.req)
    decreases |input|
  {
    hide Step, Marked, Diverges;
    if input != [] {
      var o := Step(st, req, input[0]);
      if o.verdict.Indeterminate? {
        StepMarks(st, req, input[0]);
        MarksStay(o.state, o.req, input[1..]);
      }
    }
  }

  /** A later byte diverges only if no earlier one has and the machine still reads. */
  lemma {:induction false} DivergenceConcat(st: State, req: Request, a: bytes, b: bytes)
    requires Safe(st, req) && FirstDivergence(st, req, a).None?
    ensures var m := Run(st, req, a);
            FirstDivergence(st, req, a + b).None? <==> !m.verdict.Indeterminate? || FirstDivergence(m.state, m.req, b).None?
    decreases |a|
  {
    hide Step, Diverges;
    if a == [] {
      assert a + b == b;
    } else {
      assert (a + b)[0] == a[0] && (a + b)[1..] == a[1..] + b;
      var o := Step(st, req, a[0]);
      if o.verdict.Indeterminate? {
        DivergenceConcat(o.state, o.req, a[1..], b);
      }
    }
  }
}
