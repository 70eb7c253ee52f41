/** The language the request parser accepts, as a grammar with derivation trees,
    and the proof that the machine recognises exactly that language.

    A message is a request line, any number of header lines, and CRLF. A header
    line may be folded: continuation lines start with blanks, which are dropped,
    and their text is appended to the value with nothing in between. */
module RequestGrammar {
  import opened Bytes
  import opened Options
  import opened RequestMachine

  datatype Fold = Fold(lead: bytes, text: bytes)

  datatype HeaderLine = HeaderLine(name: bytes, first: bytes, folds: seq<Fold>)

  datatype Message = Message(meth: bytes, uri: bytes, major: bytes, minor: bytes, lines: seq<HeaderLine>)

  // ---------------------------------------------------------------- grammar

  predicate WfFold(f: Fold) {
    && f.lead != [] && (forall i :: 0 <= i < |f.lead| ==> BlankByte(f.lead[i]))
    && NoCtl(f.text) && (f.text != [] ==> f.text[0] != SP)
  }

  predicate WfLine(l: HeaderLine) {
    && Token(l.name) && NoCtl(l.first)
    && forall i :: 0 <= i < |l.folds| ==> WfFold(l.folds[i])
  }

  predicate WfLines(ls: seq<HeaderLine>) {
    forall i :: 0 <= i < |ls| ==> WfLine(ls[i])
  }

  predicate UriBytes(s: bytes) {
    NoCtl(s) && SP !in s
  }

  predicate WfMessage(m: Message) {
    && Token(m.meth) && UriBytes(m.uri)
    && m.major != [] && Digits(m.major)
    && m.minor != [] && Digits(m.minor)
    && WfLines(m.lines)
  }

  /** A header line up to, but not including, its last CRLF. */
  function OpenLine(l: HeaderLine): bytes
    decreases |l.folds|
  {
    if l.folds == [] then l.name + [COLON, SP] + l.first
    else OpenLine(l.(folds := Front(l.folds))) + CRLF + Last(l.folds).lead + Last(l.folds).text
  }

  function PrintLine(l: HeaderLine): bytes {
    OpenLine(l) + CRLF
  }

  function PrintLines(ls: seq<HeaderLine>): bytes {
    if ls == [] then [] else PrintLines(Front(ls)) + PrintLine(Last(ls))
  }

  function HTTP(): bytes {
    ['H' as int, 'T' as int, 'T' as int, 'P' as int, '/' as int]
  }

  function RequestLine(m: Message): bytes {
    m.meth + [SP] + m.uri + [SP] + HTTP() + m.major + ['.' as int] + m.minor + CRLF
  }

  function Print(m: Message): bytes {
    RequestLine(m) + PrintLines(m.lines) + CRLF
  }

  // --------------------------------------------------------------- meaning

  function FoldText(fs: seq<Fold>): bytes {
    if fs == [] then [] else FoldText(Front(fs)) + Last(fs).text
  }

  function LineHeader(l: HeaderLine): Header {
    Header(l.name, l.first + FoldText(l.folds))
  }

  function Headers(ls: seq<HeaderLine>): (hs: seq<Header>)
    ensures |hs| == |ls|
    ensures forall i :: 0 <= i < |ls| ==> hs[i] == LineHeader(ls[i])
  {
    seq(|ls|, i requires 0 <= i < |ls| => LineHeader(ls[i]))
  }

  /** The request a message denotes. */
  function Meaning(m: Message): Request {
    Request(m.meth, m.uri, Decimal(m.major), Decimal(m.minor), Headers(m.lines))
  }

  // --------------------------------------------- derivations in the making

  predicate InMethodOrUri(st: State) {
    st.MethodStart? || st.Method? || st.Uri?
  }

  predicate InProtocol(st: State) {
    st.VersionH? || st.VersionT1? || st.VersionT2? || st.VersionP? || st.VersionSlash?
  }

  predicate InVersion(st: State) {
    st.MajorStart? || st.Major? || st.MinorStart? || st.Minor? || st.ExpectingNewline1?
  }

  predicate InHead(st: State) {
    InMethodOrUri(st) || InProtocol(st) || InVersion(st)
  }

  /** In the middle of a header line. */
  predicate InLine(st: State) {
    st.HeaderLws? || st.HeaderName? || st.SpaceBeforeValue? || st.HeaderValue? || st.ExpectingNewline2?
  }

  /** The major number has at least one digit. */
  predicate MajorRead(st: State) {
    !InMethodOrUri(st) && !InProtocol(st) && !st.MajorStart?
  }

  predicate MinorRead(st: State) {
    MajorRead(st) && !st.Major? && !st.MinorStart?
  }

  /** The header lines being read: the finished ones, then the current one,
      which may be in the middle of its name, its value or a continuation. */
  datatype Part =
    | NoHeader
    | InHeader(cur: HeaderLine)
    | InFold(cur: HeaderLine, fold: Fold)

  datatype Place = Place(state: State, meth: bytes, uri: bytes, major: bytes, minor: bytes,
                         done: seq<HeaderLine>, part: Part)

  function Folded(l: HeaderLine, f: Fold): HeaderLine {
    l.(folds := l.folds + [f])
  }

  function PartLines(part: Part): seq<HeaderLine> {
    match part
    case NoHeader => []
    case InHeader(l) => [l]
    case InFold(l, f) => [Folded(l, f)]
  }

  /** Which parts there are at each state. */
  predicate Shape(p: Place) {
    && (p.state.MethodStart? ==> p.meth == [])
    && (p.state.MethodStart? || p.state.Method? ==> p.uri == [])
    && (!MajorRead(p.state) ==> p.major == [])
    && (!MinorRead(p.state) ==> p.minor == [])
    && (InHead(p.state) ==> p.part.NoHeader?)
    && match p.part
       case NoHeader => p.done == [] && !InLine(p.state)
       case InHeader(l) => !p.state.HeaderLws? && (InLine(p.state) ==> l.folds == [])
                           && (p.state.HeaderName? || p.state.SpaceBeforeValue? ==> l.first == [])
       case InFold(l, f) => (p.state.HeaderLws? || p.state.HeaderValue? || p.state.ExpectingNewline2?)
                            && (p.state.HeaderLws? ==> f.text == []) && (p.state.HeaderValue? ==> f.text != [])
  }

  /** What the parts are made of. */
  predicate Content(p: Place) {
    && (!p.state.MethodStart? ==> Token(p.meth))
    && UriBytes(p.uri)
    && (MajorRead(p.state) ==> p.major != []) && Digits(p.major)
    && (MinorRead(p.state) ==> p.minor != []) && Digits(p.minor)
    && WfLines(p.done)
    && match p.part
       case NoHeader => true
       case InHeader(l) => WfLine(l)
       case InFold(l, f) => WfLine(l) && WfFold(f)
  }

  function PartHeaders(done: seq<HeaderLine>, part: Part): seq<Header> {
    match part
    case NoHeader => Headers(done)
    case InHeader(l) => Headers(done) + [LineHeader(l)]
    case InFold(l, f) => Headers(done) + [Header(l.name, LineHeader(l).value + f.text)]
  }

  /** The request built so far; `was` supplies the uninitialised version numbers. */
  function Fields(p: Place, was: Request): Request {
    if InMethodOrUri(p.state) || InProtocol(p.state) then Request(p.meth, p.uri, was.major, was.minor, [])
    else Request(p.meth, p.uri, Decimal(p.major), Decimal(p.minor), PartHeaders(p.done, p.part))
  }

  function RenderHead(p: Place): bytes {
    match p.state
    case MethodStart | Method => p.meth
    case Uri => p.meth + [SP] + p.uri
    case VersionH => p.meth + [SP] + p.uri + [SP]
    case VersionT1 => p.meth + [SP] + p.uri + [SP] + HTTP()[..1]
    case VersionT2 => p.meth + [SP] + p.uri + [SP] + HTTP()[..2]
    case VersionP => p.meth + [SP] + p.uri + [SP] + HTTP()[..3]
    case VersionSlash => p.meth + [SP] + p.uri + [SP] + HTTP()[..4]
    case MajorStart | Major => p.meth + [SP] + p.uri + [SP] + HTTP() + p.major
    case MinorStart | Minor => p.meth + [SP] + p.uri + [SP] + HTTP() + p.major + ['.' as int] + p.minor
    case ExpectingNewline1 => p.meth + [SP] + p.uri + [SP] + HTTP() + p.major + ['.' as int] + p.minor + [CR]
    case _ => p.meth + [SP] + p.uri + [SP] + HTTP() + p.major + ['.' as int] + p.minor + CRLF
  }

  /** The current header as far as it has been read. */
  function RenderPart(st: State, part: Part): bytes {
    match part
    case NoHeader => if st.ExpectingNewline3? then [CR] else []
    case InHeader(l) =>
      (match st
       case HeaderName => l.name
       case SpaceBeforeValue => l.name + [COLON]
       case HeaderValue => l.name + [COLON, SP] + l.first
       case ExpectingNewline2 => l.name + [COLON, SP] + l.first + [CR]
       case ExpectingNewline3 => PrintLine(l) + [CR]
       case _ => PrintLine(l))
    case InFold(l, f) =>
      if st.ExpectingNewline2? then PrintLine(l) + f.lead + f.text + [CR] else PrintLine(l) + f.lead + f.text
  }

  /** Everything read so far. */
  function Render(p: Place): bytes {
    if InHead(p.state) then RenderHead(p)
    else RenderHead(p) + PrintLines(p.done) + RenderPart(p.state, p.part)
  }

  // ------------------------------------------------------------- one byte

  function AdvancePart(st: State, part: Part, b: byte): Part {
    match part
    case NoHeader => part
    case InHeader(l) =>
      (match st
       case HeaderLineStart => if BlankByte(b) then InFold(l, Fold([b], [])) else part
       case HeaderName => if b == COLON then part else InHeader(l.(name := l.name + [b]))
       case HeaderValue => if b == CR then part else InHeader(l.(first := l.first + [b]))
       case _ => part)
    case InFold(l, f) =>
      if st.ExpectingNewline2? then InHeader(Folded(l, f))
      else if b == CR then part
      else if st.HeaderLws? && BlankByte(b) then InFold(l, f.(lead := f.lead + [b]))
      else InFold(l, f.(text := f.text + [b]))
  }

  predicate StartsHeader(st: State, part: Part, b: byte) {
    st.HeaderLineStart? && b != CR && (part.NoHeader? || !BlankByte(b))
  }

  /** How an accepted byte extends the place; `next` is the state it leads to. */
  function Advance(p: Place, b: byte, next: State): Place {
    match p.state
    case MethodStart => p.(state := next, meth := p.meth + [b])
    case Method => if b == SP then p.(state := next) else p.(meth := p.meth + [b])
    case Uri => if b == SP then p.(state := next) else p.(uri := p.uri + [b])
    case MajorStart | Major => if b == '.' as int then p.(state := next) else p.(state := next, major := p.major + [b])
    case MinorStart | Minor => if b == CR then p.(state := next) else p.(state := next, minor := p.minor + [b])
    case _ =>
      if StartsHeader(p.state, p.part, b) then
        p.(state := next, done := p.done + PartLines(p.part), part := InHeader(HeaderLine([b], [], [])))
      else p.(state := next, part := AdvancePart(p.state, p.part, b))
  }

  /** Where an accepted byte leads. */
  function Target(st: State, first: bool, b: byte): Option<State> {
    match st
    case MethodStart => if TokenByte(b) then Some(Method) else None
    case Method => if b == SP then Some(Uri) else if TokenByte(b) then Some(Method) else None
    case Uri => if b == SP then Some(VersionH) else if CtlByte(b) then None else Some(Uri)
    case VersionH => if b == 'H' as int then Some(VersionT1) else None
    case VersionT1 => if b == 'T' as int then Some(VersionT2) else None
    case VersionT2 => if b == 'T' as int then Some(VersionP) else None
    case VersionP => if b == 'P' as int then Some(VersionSlash) else None
    case VersionSlash => if b == '/' as int then Some(MajorStart) else None
    case MajorStart => if DigitByte(b) then Some(Major) else None
    case Major => if b == '.' as int then Some(MinorStart) else if DigitByte(b) then Some(Major) else None
    case MinorStart => if DigitByte(b) then Some(Minor) else None
    case Minor => if b == CR then Some(ExpectingNewline1) else if DigitByte(b) then Some(Minor) else None
    case ExpectingNewline1 => if b == LF then Some(HeaderLineStart) else None
    case HeaderLineStart =>
      if b == CR then Some(ExpectingNewline3)
      else if !first && BlankByte(b) then Some(HeaderLws)
      else if TokenByte(b) then Some(HeaderName) else None
    case HeaderLws =>
      if b == CR then Some(ExpectingNewline2)
      else if BlankByte(b) then Some(HeaderLws)
      else if CtlByte(b) then None else Some(HeaderValue)
    case HeaderName =>
      if b == COLON then Some(SpaceBeforeValue) else if TokenByte(b) then Some(HeaderName) else None
    case SpaceBeforeValue => if b == SP then Some(HeaderValue) else None
    case HeaderValue =>
      if b == CR then Some(ExpectingNewline2) else if CtlByte(b) then None else Some(HeaderValue)
    case ExpectingNewline2 => if b == LF then Some(HeaderLineStart) else None
    case ExpectingNewline3 => None
  }

  lemma {:induction false} StepTarget(st: State, req: Request, b: byte)
    requires Safe(st, req)
    ensures var o, t := Step(st, req, b), Target(st, req.headers == [], b);
            (o.verdict.Indeterminate? <==> t.Some?) && (t.Some? ==> o.state == t.value)
  {
    hide TokenByte, CtlByte, DigitByte;
  }

  predicate Grows(p: Place, b: byte) {
    var t := Target(p.state, p.part.NoHeader?, b);
    t.Some? ==> Render(Advance(p, b, t.value)) == Render(p) + [b]
  }

  lemma {:induction false} HeadGrows(p: Place, b: byte)
    requires p.state.MethodStart? || p.state.Method? || p.state.Uri?
    requires p.state.MethodStart? ==> p.meth == []
    requires p.state.Uri? || p.uri == []
    ensures Grows(p, b)
  {
    hide TokenByte, CtlByte, DigitByte;
    Assoc(p.meth + [SP], p.uri, [b]);
  }

  lemma {:induction false} ProtocolGrows(p: Place, b: byte)
    requires InProtocol(p.state)
    requires p.major == []
    ensures Grows(p, b)
  {
    hide TokenByte, CtlByte, DigitByte;
    var x := p.meth + [SP] + p.uri + [SP];
    assert HTTP()[..1] == ['H' as int] && HTTP()[..1] + ['T' as int] == HTTP()[..2] && HTTP()[..2] + ['T' as int] == HTTP()[..3];
    assert HTTP()[..3] + ['P' as int] == HTTP()[..4] && HTTP()[..4] + ['/' as int] == HTTP();
    Assoc(x, HTTP()[..1], [b]);
    Assoc(x, HTTP()[..2], [b]);
    Assoc(x, HTTP()[..3], [b]);
    Assoc(x, HTTP()[..4], [b]);
    assert x + HTTP() + [] == x + HTTP();
  }

  lemma {:induction false} MajorGrows(p: Place, b: byte)
    requires (p.state.MajorStart? || p.state.Major?) && p.minor == []
    ensures Grows(p, b)
  {
    hide TokenByte, CtlByte, DigitByte;
    ByteClasses(b);
    var x := p.meth + [SP] + p.uri + [SP] + HTTP();
    Assoc(x, p.major, [b]);
    assert x + p.major + ['.' as int] + [] == x + p.major + ['.' as int];
  }

  lemma {:induction false} MinorGrows(p: Place, b: byte)
    requires (p.state.MinorStart? || p.state.Minor? || p.state.ExpectingNewline1?) && p.done == [] && p.part.NoHeader?
    ensures Grows(p, b)
  {
    hide TokenByte, CtlByte, DigitByte;
    ByteClasses(b);
    var x := p.meth + [SP] + p.uri + [SP] + HTTP() + p.major + ['.' as int];
    Assoc(x, p.minor, [b]);
    Assoc(x + p.minor, [CR], [LF]);
    assert x + p.minor + CRLF + [] + [] == x + p.minor + CRLF;
  }

  lemma {:induction false} FirstLineGrows(p: Place, b: byte)
    requires p.state.HeaderLineStart? && Shape(p) && p.part.NoHeader?
    ensures Grows(p, b)
  {
    hide TokenByte, CtlByte, DigitByte;
    assert p.done + [] == p.done;
    assert RenderHead(p) + [] + [] == RenderHead(p);
  }

  lemma {:induction false} HeadRendered(p: Place, q: Place)
    requires !InHead(p.state) && !InHead(q.state)
    requires p.meth == q.meth && p.uri == q.uri && p.major == q.major && p.minor == q.minor
    ensures RenderHead(p) == RenderHead(q)
  {
  }

  lemma {:induction false} LineStartGrows(p: Place, b: byte)
    requires p.state.HeaderLineStart? && Shape(p) && p.part.InHeader?
    ensures Grows(p, b)
  {
    hide TokenByte, CtlByte, DigitByte;
    hide RenderHead, PrintLine;
    var x, l := RenderHead(p) + PrintLines(p.done), p.part.cur;
    Assoc(x, PrintLine(l), [b]);
    if StartsHeader(p.state, p.part, b) {
      assert Front(p.done + [l]) == p.done && Last(p.done + [l]) == l;
      assert PrintLines(p.done + [l]) == PrintLines(p.done) + PrintLine(l);
      Assoc(RenderHead(p), PrintLines(p.done), PrintLine(l));
      HeadRendered(p, p.(state := HeaderName, done := p.done + [l], part := InHeader(HeaderLine([b], [], []))));
    } else {
      var t := Target(p.state, false, b);
      if t.Some? { HeadRendered(p, Advance(p, b, t.value)); }
      assert PrintLine(l) + [b] + [] == PrintLine(l) + [b];
    }
  }

  lemma {:induction false} HeaderGrows(p: Place, b: byte)
    requires InLine(p.state) && Shape(p) && p.part.InHeader?
    ensures Grows(p, b)
  {
    hide TokenByte, CtlByte, DigitByte;
    var x, l := RenderHead(p) + PrintLines(p.done), p.part.cur;
    Assoc(x, RenderPart(p.state, p.part), [b]);
    assert l.name + [COLON] + [SP] == l.name + [COLON, SP] + [];
    Assoc(l.name + [COLON, SP], l.first, [b]);
    Assoc(l.name + [COLON, SP] + l.first, [CR], [LF]);
  }

  lemma {:induction false} FoldGrows(p: Place, b: byte)
    requires (p.state.HeaderLws? || p.state.HeaderValue?) && Shape(p) && p.part.InFold?
    ensures Grows(p, b)
  {
    hide TokenByte, CtlByte, DigitByte;
    var x, line, f := RenderHead(p) + PrintLines(p.done), PrintLine(p.part.cur), p.part.fold;
    Assoc(x, line + f.lead + f.text, [b]);
    Assoc(line + f.lead, f.text, [b]);
    if p.state.HeaderLws? && BlankByte(b) {
      assert line + (f.lead + [b]) + [] == line + f.lead + [] + [b];
    }
  }

  lemma {:induction false} FoldCloses(p: Place, b: byte)
    requires p.state.ExpectingNewline2? && p.part.InFold?
    ensures Grows(p, b)
  {
    hide TokenByte, CtlByte, DigitByte;
    var x, line, f := RenderHead(p) + PrintLines(p.done), PrintLine(p.part.cur), p.part.fold;
    Assoc(x, line + f.lead + f.text + [CR], [b]);
    Assoc(line + f.lead + f.text, [CR], [LF]);
    PrintFolded(p.part.cur, f);
  }

  lemma {:induction false} PrintFolded(l: HeaderLine, f: Fold)
    ensures PrintLine(Folded(l, f)) == PrintLine(l) + f.lead + f.text + CRLF
  {
    var l' := Folded(l, f);
    assert Front(l'.folds) == l.folds && l'.(folds := l.folds) == l;
  }

  lemma {:induction false} TextGrows(p: Place, b: byte)
    requires Shape(p)
    ensures Grows(p, b)
  {
    if InMethodOrUri(p.state) {
      HeadGrows(p, b);
    } else if InProtocol(p.state) {
      ProtocolGrows(p, b);
    } else if p.state.MajorStart? || p.state.Major? {
      MajorGrows(p, b);
    } else if InHead(p.state) {
      MinorGrows(p, b);
    } else {
      match p.part
      case NoHeader => if p.state.HeaderLineStart? { FirstLineGrows(p, b); }
      case InHeader(_) =>
        if p.state.HeaderLineStart? {
          LineStartGrows(p, b);
        } else if InLine(p.state) {
          HeaderGrows(p, b);
        }
      case InFold(_, _) =>
        if p.state.ExpectingNewline2? {
          FoldCloses(p, b);
        } else {
          FoldGrows(p, b);
        }
    }
  }

  // ----------------------------------------------------- shape and content

  lemma {:induction false} HeadShapeKept(p: Place, b: byte)
    requires Shape(p) && InHead(p.state)
    ensures var t := Target(p.state, p.part.NoHeader?, b);
            t.Some? ==> Advance(p, b, t.value).state == t.value && Shape(Advance(p, b, t.value))
  {
    hide TokenByte, CtlByte, DigitByte;
  }

  lemma {:induction false} LineShapeKept(p: Place, b: byte)
    requires Shape(p) && !InHead(p.state)
    ensures var t := Target(p.state, p.part.NoHeader?, b);
            t.Some? ==> Advance(p, b, t.value).state == t.value && Shape(Advance(p, b, t.value))
  {
    hide TokenByte, CtlByte, DigitByte;
  }

  lemma {:induction false} MethodContentKept(p: Place, b: byte)
    requires Shape(p) && Content(p) && InMethodOrUri(p.state)
    ensures var t := Target(p.state, p.part.NoHeader?, b); t.Some? ==> Content(Advance(p, b, t.value))
  {
    hide TokenByte, CtlByte, DigitByte, WfLines, Digits;
  }

  lemma {:induction false} ProtocolContentKept(p: Place, b: byte)
    requires Shape(p) && Content(p) && InProtocol(p.state)
    ensures var t := Target(p.state, p.part.NoHeader?, b); t.Some? ==> Content(Advance(p, b, t.value))
  {
    hide TokenByte, CtlByte, DigitByte, WfLines, Token, UriBytes, Digits;
  }

  lemma {:induction false} VersionContentKept(p: Place, b: byte)
    requires Shape(p) && Content(p) && InVersion(p.state)
    ensures var t := Target(p.state, p.part.NoHeader?, b); t.Some? ==> Content(Advance(p, b, t.value))
  {
    ByteClasses(b);
    hide TokenByte, CtlByte, DigitByte, WfLines, Token, UriBytes;
  }

  lemma {:induction false} LineContentKept(p: Place, b: byte)
    requires Shape(p) && Content(p) && !InHead(p.state) && !p.part.InFold?
    ensures var t := Target(p.state, p.part.NoHeader?, b); t.Some? ==> Content(Advance(p, b, t.value))
  {
    hide TokenByte, CtlByte, DigitByte;
  }

  lemma {:induction false} FoldContentKept(p: Place, b: byte)
    requires Shape(p) && Content(p) && !InHead(p.state) && p.part.InFold?
    ensures var t := Target(p.state, p.part.NoHeader?, b); t.Some? ==> Content(Advance(p, b, t.value))
  {
    hide TokenByte, CtlByte, DigitByte;
  }

  lemma {:induction false} HeadersOfParts(done: seq<HeaderLine>, part: Part)
    ensures Headers(done + PartLines(part)) == PartHeaders(done, part)
  {
    match part
    case NoHeader => assert done + [] == done;
    case InHeader(l) => assert Headers(done + [l]) == Headers(done) + [LineHeader(l)];
    case InFold(l, f) =>
      var l' := Folded(l, f);
      assert Front(l'.folds) == l.folds;
      Assoc(l.first, FoldText(l.folds), f.text);
      assert Headers(done + [l']) == Headers(done) + [LineHeader(l')];
  }

  lemma BackSet(hs: seq<Header>, h: Header, h': Header)
    ensures Back(hs + [h]) == h && SetBack(hs + [h], h') == hs + [h']
  {
  }

  predicate RequestFollows(p: Place, was: Request, b: byte) {
    && Safe(p.state, Fields(p, was))
    && var o := Step(p.state, Fields(p, was), b);
       o.verdict.Indeterminate? ==> Fields(Advance(p, b, o.state), was) == o.req
  }

  lemma {:induction false} HeadFollows(p: Place, was: Request, b: byte)
    requires Shape(p) && (InMethodOrUri(p.state) || InProtocol(p.state))
    ensures RequestFollows(p, was, b)
  {
    hide TokenByte, CtlByte, DigitByte;
    assert Headers([]) == [];
  }

  lemma {:induction false} DecimalPushed(s: bytes, b: byte)
    ensures Decimal(s + [b]) == Decimal(s) * 10 + b - 48
  {
    assert Front(s + [b]) == s && Last(s + [b]) == b;
  }

  lemma {:induction false} MajorFollows(p: Place, was: Request, b: byte)
    requires Shape(p) && (p.state.MajorStart? || p.state.Major?)
    ensures RequestFollows(p, was, b)
  {
    ByteClasses(b);
    DecimalPushed(p.major, b);
    hide TokenByte, CtlByte, DigitByte, Headers, Decimal;
  }

  lemma {:induction false} MinorFollows(p: Place, was: Request, b: byte)
    requires Shape(p) && (p.state.MinorStart? || p.state.Minor? || p.state.ExpectingNewline1?)
    ensures RequestFollows(p, was, b)
  {
    ByteClasses(b);
    DecimalPushed(p.minor, b);
    hide TokenByte, CtlByte, DigitByte, Headers, Decimal;
  }

  lemma {:induction false} HeaderFollows(p: Place, was: Request, b: byte)
    requires Shape(p) && InLine(p.state) && p.part.InHeader?
    ensures RequestFollows(p, was, b)
  {
    hide TokenByte, CtlByte, DigitByte;
    var l, hs := p.part.cur, Headers(p.done);
    BackSet(hs, LineHeader(l), LineHeader(l.(name := l.name + [b])));
    BackSet(hs, LineHeader(l), LineHeader(l.(first := l.first + [b])));
    assert l.first + [] == l.first && l.first + [b] + [] == l.first + [b];
  }

  lemma {:induction false} LineStartFollows(p: Place, was: Request, b: byte)
    requires Shape(p) && (p.state.HeaderLineStart? || p.state.ExpectingNewline3?)
    ensures RequestFollows(p, was, b)
  {
    hide TokenByte, CtlByte, DigitByte, Decimal;
    HeadersOfParts(p.done, p.part);
    assert LineHeader(HeaderLine([b], [], [])) == Header([b], []);
    if p.part.InHeader? {
      assert LineHeader(p.part.cur).value + [] == LineHeader(p.part.cur).value;
    }
  }

  lemma {:induction false} FoldFollows(p: Place, was: Request, b: byte)
    requires Shape(p) && !InHead(p.state) && p.part.InFold?
    ensures RequestFollows(p, was, b)
  {
    hide TokenByte, CtlByte, DigitByte;
    var l, f, hs := p.part.cur, p.part.fold, Headers(p.done);
    var h := Header(l.name, LineHeader(l).value + f.text);
    BackSet(hs, h, h.(value := h.value + [b]));
    Assoc(LineHeader(l).value, f.text, [b]);
    HeadersOfParts(p.done, p.part);
    HeadersOfParts(p.done, InHeader(Folded(l, f)));
  }

  predicate WfPlace(p: Place) {
    Shape(p) && Content(p)
  }

  lemma {:induction false} WfKept(p: Place, b: byte)
    requires WfPlace(p)
    ensures var t := Target(p.state, p.part.NoHeader?, b);
            t.Some? ==> Advance(p, b, t.value).state == t.value && WfPlace(Advance(p, b, t.value))
  {
    hide Shape, Content, Target, Advance;
    if InHead(p.state) {
      HeadShapeKept(p, b);
      if InMethodOrUri(p.state) { MethodContentKept(p, b); }
      else if InProtocol(p.state) { ProtocolContentKept(p, b); }
      else { VersionContentKept(p, b); }
    } else {
      LineShapeKept(p, b);
      if p.part.InFold? {
        FoldContentKept(p, b);
      } else {
        LineContentKept(p, b);
      }
    }
  }

  lemma {:induction false} FieldsFollow(p: Place, was: Request, b: byte)
    requires Shape(p)
    ensures RequestFollows(p, was, b)
  {
    if p.state.MajorStart? || p.state.Major? {
      MajorFollows(p, was, b);
    } else if InVersion(p.state) {
      MinorFollows(p, was, b);
    } else if InHead(p.state) {
      HeadFollows(p, was, b);
    } else if p.part.InFold? {
      FoldFollows(p, was, b);
    } else if InLine(p.state) {
      HeaderFollows(p, was, b);
    } else {
      LineStartFollows(p, was, b);
    }
  }

  /** One byte: the machine accepts it exactly when the place has a target for
      it, and then the place stays well formed, its text grows by that byte, and
      the request stays the one the place denotes. */
  lemma {:induction false} StepDerives(p: Place, was: Request, b: byte)
    requires WfPlace(p)
    ensures RequestFollows(p, was, b) && Grows(p, b)
    ensures var o, t := Step(p.state, Fields(p, was), b), Target(p.state, p.part.NoHeader?, b);
            && (o.verdict.Indeterminate? <==> t.Some?)
            && (t.Some? ==> o.state == t.value == Advance(p, b, t.value).state && WfPlace(Advance(p, b, t.value)))
  {
    FieldsFollow(p, was, b);
    TextGrows(p, b);
    WfKept(p, b);
    StepTarget(p.state, Fields(p, was), b);
    assert p.state.HeaderLineStart? ==> (p.part.NoHeader? <==> Fields(p, was).headers == []);
  }

  // ---------------------------------------------------------- whole inputs

  const START: Place := Place(MethodStart, [], [], [], [], [], NoHeader)

  function Next(p: Place, b: byte): Option<Place> {
    var t := Target(p.state, p.part.NoHeader?, b);
    if t.None? then None else Some(Advance(p, b, t.value))
  }

  /** The place that reading the input leads to, if no byte is refused. */
  function Track(p: Place, input: bytes): Option<Place> {
    if input == [] then Some(p)
    else
      var q := Track(p, Front(input));
      if q.None? then None else Next(q.value, Last(input))
  }

  lemma {:induction false} RunOneByte(p: Place, was: Request, b: byte)
    requires WfPlace(p)
    ensures Safe(p.state, Fields(p, was))
    ensures var r, q := Run(p.state, Fields(p, was), [b]), Next(p, b);
            && (r.verdict.Indeterminate? <==> q.Some?)
            && (q.Some? ==> r.state == q.value.state && r.req == Fields(q.value, was) && WfPlace(q.value)
                            && Render(q.value) == Render(p) + [b])
  {
    hide Render, Fields, Shape, Content, Advance, Target, Step;
    StepDerives(p, was, b);
    var o := Step(p.state, Fields(p, was), b);
    assert [b][1..] == [];
    assert Run(p.state, Fields(p, was), [b]) == Parsed(o.verdict, 1, o.state, o.req);
  }

  /** The machine and the derivation move together over any input. */
  lemma {:induction false} RunTracks(was: Request, input: bytes)
    requires Fresh(was)
    ensures var p, q := Run(MethodStart, was, input), Track(START, input);
            && (p.verdict.Indeterminate? <==> q.Some?)
            && (q.Some? ==>
                  && p.state == q.value.state && p.req == Fields(q.value, was)
                  && WfPlace(q.value) && Render(q.value) == input)
    decreases |input|
  {
    if input != [] {
      var head, b := Front(input), Last(input);
      assert head + [b] == input;
      RunTracks(was, head);
      RunConcat(MethodStart, was, head, [b]);
      var q := Track(START, head);
      if q.Some? {
        RunOneByte(q.value, was, b);
      }
    }
  }

  // ------------------------------------------------------------ soundness

  function MessageOf(p: Place): Message {
    Message(p.meth, p.uri, p.major, p.minor, p.done + PartLines(p.part))
  }

  lemma {:induction false} LinesOfParts(p: Place)
    requires Shape(p) && p.state.ExpectingNewline3?
    ensures PrintLines(p.done + PartLines(p.part)) + [CR] == PrintLines(p.done) + RenderPart(p.state, p.part)
  {
    match p.part
    case NoHeader => assert p.done + [] == p.done;
    case InHeader(l) =>
      assert Front(p.done + [l]) == p.done && Last(p.done + [l]) == l;
      Assoc(PrintLines(p.done), PrintLine(l), [CR]);
  }

  lemma {:induction false} FinishedText(p: Place)
    requires Shape(p) && p.state.ExpectingNewline3?
    ensures Print(MessageOf(p)) == Render(p) + [LF]
  {
    hide PrintLines, RenderPart, RenderHead, RequestLine, Shape;
    var m := MessageOf(p);
    var head, lines, part := RenderHead(p), PrintLines(p.done), RenderPart(p.state, p.part);
    HeadIsRequestLine(p);
    LinesOfParts(p);
    assert Print(m) == head + PrintLines(m.lines) + CRLF;
    assert Render(p) == head + lines + part;
    LastBytes(head, PrintLines(m.lines), lines, part);
  }

  lemma {:induction false} HeadIsRequestLine(p: Place)
    requires p.state.ExpectingNewline3?
    ensures RequestLine(MessageOf(p)) == RenderHead(p)
  {
  }

  lemma {:induction false} LastBytes(head: bytes, all: bytes, lines: bytes, part: bytes)
    requires all + [CR] == lines + part
    ensures head + all + CRLF == head + lines + part + [LF]
  {
    assert CRLF == [CR] + [LF];
    Assoc(head + all, [CR], [LF]);
    Assoc(head, all, [CR]);
    Assoc(head, lines, part);
  }

  lemma {:induction false} FinishedWf(p: Place)
    requires WfPlace(p) && p.state.ExpectingNewline3?
    ensures WfMessage(MessageOf(p))
  {
  }

  /** When only the last LF is missing, the place denotes a whole message. */
  lemma {:induction false} Finished(p: Place, was: Request)
    requires WfPlace(p) && p.state.ExpectingNewline3?
    ensures WfMessage(MessageOf(p)) && Print(MessageOf(p)) == Render(p) + [LF]
    ensures Fields(p, was) == Meaning(MessageOf(p))
  {
    hide Render, Print, WfMessage, Content, PrintLines, Decimal;
    FinishedWf(p);
    FinishedText(p);
    HeadersOfParts(p.done, p.part);
  }

  /** Soundness: whatever the parser accepts is a message, and the request it
      leaves is the one that message denotes. */
  lemma {:induction false} AcceptedIsMessage(was: Request, input: bytes) returns (m: Message)
    requires Fresh(was) && Run(MethodStart, was, input).verdict.True?
    ensures var p := Run(MethodStart, was, input);
            WfMessage(m) && Print(m) == input[..p.used] && p.req == Meaning(m)
  {
    hide Step, Fields, Render, Shape, Content;
    var p := Run(MethodStart, was, input);
    var head, tail := input[..p.used - 1], input[p.used - 1..];
    assert head + tail == input && head + [tail[0]] == input[..p.used];
    RunConcat(MethodStart, was, head, tail);
    RunTracks(was, head);
    var q := Track(START, head).value;
    Finished(q, was);
    m := MessageOf(q);
  }

  // --------------------------------------------------------- completeness

  datatype Arrival = Arrival(from: Place, via: byte)

  function Drop(p: Place, st: State, b: byte): Arrival {
    Arrival(p.(state := st), b)
  }

  function UndoHeader(p: Place, l: HeaderLine): Arrival {
    match p.state
    case HeaderLineStart =>
      if l.folds == [] then Drop(p, ExpectingNewline2, LF)
      else Arrival(p.(state := ExpectingNewline2, part := InFold(l.(folds := Front(l.folds)), Last(l.folds))), LF)
    case HeaderName =>
      if |l.name| > 1 then Arrival(p.(part := InHeader(l.(name := Front(l.name)))), Last(l.name))
      else if l.name == [] then Drop(p, HeaderLineStart, LF)
      else if p.done == [] then Arrival(p.(state := HeaderLineStart, part := NoHeader), l.name[0])
      else Arrival(p.(state := HeaderLineStart, done := Front(p.done), part := InHeader(Last(p.done))), l.name[0])
    case SpaceBeforeValue => Drop(p, HeaderName, COLON)
    case HeaderValue =>
      if l.first == [] then Drop(p, SpaceBeforeValue, SP)
      else Arrival(p.(part := InHeader(l.(first := Front(l.first)))), Last(l.first))
    case ExpectingNewline2 => Drop(p, HeaderValue, CR)
    case _ => Drop(p, HeaderLineStart, CR)
  }

  function UndoFold(p: Place, l: HeaderLine, f: Fold): Arrival {
    if p.state.ExpectingNewline2? then Drop(p, if f.text == [] then HeaderLws else HeaderValue, CR)
    else if f.text != [] then
      var st := if |f.text| == 1 then HeaderLws else HeaderValue;
      Arrival(p.(state := st, part := InFold(l, f.(text := Front(f.text)))), Last(f.text))
    else if |f.lead| > 1 then Arrival(p.(part := InFold(l, f.(lead := Front(f.lead)))), Last(f.lead))
    else Arrival(p.(state := HeaderLineStart, part := InHeader(l)), if f.lead == [] then SP else f.lead[0])
  }

  function UndoHead(p: Place): Arrival {
    match p.state
    case Method =>
      if p.meth == [] then Drop(p, MethodStart, SP)
      else Arrival(p.(state := if |p.meth| == 1 then MethodStart else Method, meth := Front(p.meth)), Last(p.meth))
    case Uri => if p.uri == [] then Drop(p, Method, SP) else Arrival(p.(uri := Front(p.uri)), Last(p.uri))
    case VersionH => Drop(p, Uri, SP)
    case VersionT1 => Drop(p, VersionH, 'H' as int)
    case VersionT2 => Drop(p, VersionT1, 'T' as int)
    case VersionP => Drop(p, VersionT2, 'T' as int)
    case VersionSlash => Drop(p, VersionP, 'P' as int)
    case MajorStart => Drop(p, VersionSlash, '/' as int)
    case Major =>
      if p.major == [] then Drop(p, MajorStart, SP)
      else Arrival(p.(state := if |p.major| == 1 then MajorStart else Major, major := Front(p.major)), Last(p.major))
    case MinorStart => Drop(p, Major, '.' as int)
    case Minor =>
      if p.minor == [] then Drop(p, MinorStart, SP)
      else Arrival(p.(state := if |p.minor| == 1 then MinorStart else Minor, minor := Front(p.minor)), Last(p.minor))
    case _ => Drop(p, Minor, CR)
  }

  /** The only way to have arrived at a place. */
  function Undo(p: Place): Arrival {
    if InHead(p.state) then UndoHead(p)
    else match p.part
      case NoHeader =>
        if p.state.ExpectingNewline3? then Drop(p, HeaderLineStart, CR) else Drop(p, ExpectingNewline1, LF)
      case InHeader(l) => UndoHeader(p, l)
      case InFold(l, f) => UndoFold(p, l, f)
  }

  predicate Undone(p: Place) {
    Shape(Undo(p).from) && Content(Undo(p).from) && Next(Undo(p).from, Undo(p).via) == Some(p)
  }

  lemma {:induction false} ByteClasses(b: byte)
    ensures TokenByte(b) ==> !BlankByte(b) && b != COLON && b != CR
    ensures !CtlByte(b) ==> b != CR && b != HT
    ensures DigitByte(b) ==> b != '.' as int && b != CR
    ensures BlankByte(b) ==> b != CR
  {
  }

  lemma {:induction false} Pushed<T>(s: seq<T>)
    requires s != []
    ensures Front(s) + [Last(s)] == s && (|s| == 1 ==> Front(s) == [])
  {
  }

  lemma {:induction false} FrontOfToken(s: bytes)
    requires Token(s)
    ensures (|s| == 1 ==> Front(s) == []) && (|s| > 1 ==> Token(Front(s)))
    ensures TokenByte(Last(s)) && Front(s) + [Last(s)] == s
  {
  }

  lemma {:induction false} FrontOfUri(s: bytes)
    requires s != [] && UriBytes(s)
    ensures UriBytes(Front(s)) && !CtlByte(Last(s)) && Last(s) != SP && Front(s) + [Last(s)] == s
  {
  }

  lemma {:induction false} MethodUndone(p: Place)
    requires WfPlace(p) && p.state.Method?
    ensures Undone(p)
  {
    ByteClasses(Undo(p).via);
    FrontOfToken(p.meth);
    hide TokenByte, CtlByte, DigitByte, Digits, Token, UriBytes, WfLines;
  }

  lemma {:induction false} UriUndone(p: Place)
    requires WfPlace(p) && p.state.Uri?
    ensures Undone(p)
  {
    ByteClasses(Undo(p).via);
    if p.uri != [] { FrontOfUri(p.uri); }
    hide TokenByte, CtlByte, DigitByte, Digits, Token, UriBytes, WfLines;
  }

  lemma {:induction false} ProtocolUndone(p: Place)
    requires WfPlace(p) && InProtocol(p.state)
    ensures Undone(p)
  {
    ByteClasses(Undo(p).via);
    hide TokenByte, CtlByte, DigitByte;
  }

  lemma {:induction false} FrontOfDigits(s: bytes)
    requires s != [] && Digits(s)
    ensures Digits(Front(s)) && DigitByte(Last(s)) && Front(s) + [Last(s)] == s && (|s| == 1 ==> Front(s) == [])
  {
  }

  lemma {:induction false} MajorArrives(p: Place, b: byte)
    requires (p.state.MajorStart? || p.state.Major?) && DigitByte(b)
    ensures Next(p, b) == Some(p.(state := Major, major := p.major + [b]))
  {
    ByteClasses(b);
    hide DigitByte, TokenByte, CtlByte;
  }

  lemma {:induction false} MajorUndone(p: Place)
    requires WfPlace(p) && p.state.Major?
    ensures Undone(p)
  {
    FrontOfDigits(p.major);
    MajorArrives(Undo(p).from, Undo(p).via);
    hide Next, TokenByte, CtlByte, DigitByte, Digits, Token, UriBytes, WfLines;
  }

  lemma {:induction false} MinorUndone(p: Place)
    requires WfPlace(p) && p.state.Minor?
    ensures Undone(p)
  {
    ByteClasses(Undo(p).via);
    FrontOfDigits(p.minor);
    hide TokenByte, CtlByte, DigitByte, Digits, Token, UriBytes, WfLines, UndoHeader, UndoFold, AdvancePart, StartsHeader, WfLine, WfFold, BlankByte;
  }

  lemma {:induction false} VersionPointUndone(p: Place)
    requires WfPlace(p) && (p.state.MajorStart? || p.state.MinorStart?)
    ensures Undone(p)
  {
    hide TokenByte, CtlByte, DigitByte, Digits, Token, UriBytes, WfLines;
  }

  lemma {:induction false} RequestLineEndUndone(p: Place)
    requires WfPlace(p) && p.state.ExpectingNewline1?
    ensures Undone(p)
  {
    ByteClasses(Undo(p).via);
    hide TokenByte, CtlByte, DigitByte;
  }

  lemma {:induction false} NameUndone(p: Place)
    requires WfPlace(p) && p.state.HeaderName? && |p.part.cur.name| > 1
    ensures Undone(p)
  {
    ByteClasses(Undo(p).via);
    hide TokenByte, CtlByte, DigitByte;
    Pushed(p.part.cur.name);
  }

  lemma {:induction false} FirstNameUndone(p: Place)
    requires WfPlace(p) && p.state.HeaderName? && |p.part.cur.name| == 1 && p.done == []
    ensures Undone(p)
  {
    ByteClasses(Undo(p).via);
    hide TokenByte, CtlByte, DigitByte;
    var l := p.part.cur;
    assert l == HeaderLine([l.name[0]], [], []);
    assert p.done + [] == p.done;
  }

  lemma {:induction false} NextNameUndone(p: Place)
    requires WfPlace(p) && p.state.HeaderName? && |p.part.cur.name| == 1 && p.done != []
    ensures Undone(p)
  {
    ByteClasses(Undo(p).via);
    hide TokenByte, CtlByte, DigitByte;
    var l := p.part.cur;
    assert l == HeaderLine([l.name[0]], [], []);
    Pushed(p.done);
    var q := p.(state := HeaderLineStart, done := Front(p.done), part := InHeader(Last(p.done)));
    assert Content(q) by {
      assert WfLine(Last(p.done));
      hide Token, UriBytes, Digits, WfLine;
    }
  }

  lemma {:induction false} ValueUndone(p: Place)
    requires WfPlace(p) && p.state.HeaderValue? && p.part.InHeader?
    ensures Undone(p)
  {
    ByteClasses(Undo(p).via);
    hide TokenByte, CtlByte, DigitByte;
    if p.part.cur.first != [] { Pushed(p.part.cur.first); }
  }

  lemma {:induction false} NameEndUndone(p: Place)
    requires WfPlace(p) && (p.state.SpaceBeforeValue? || p.state.ExpectingNewline2?) && p.part.InHeader?
    ensures Undone(p)
  {
    hide TokenByte, CtlByte, DigitByte;
  }

  lemma {:induction false} LineStartUndone(p: Place)
    requires WfPlace(p) && (p.state.HeaderLineStart? || p.state.ExpectingNewline3?)
    requires p.part.InHeader? && p.state.HeaderLineStart? ==> p.part.cur.folds == []
    ensures Undone(p)
  {
    ByteClasses(Undo(p).via);
    hide TokenByte, CtlByte, DigitByte;
  }

  lemma {:induction false} FoldedLineUndone(p: Place)
    requires WfPlace(p) && p.state.HeaderLineStart? && p.part.InHeader? && p.part.cur.folds != []
    ensures Undone(p)
  {
    hide TokenByte, CtlByte, DigitByte;
    Pushed(p.part.cur.folds);
  }

  lemma {:induction false} BlanksUndone(p: Place)
    requires WfPlace(p) && p.state.HeaderLws? && |p.part.fold.lead| > 1
    ensures Undone(p)
  {
    ByteClasses(Undo(p).via);
    hide TokenByte, CtlByte, DigitByte;
    Pushed(p.part.fold.lead);
  }

  lemma {:induction false} FirstBlankUndone(p: Place)
    requires WfPlace(p) && p.state.HeaderLws? && |p.part.fold.lead| == 1
    ensures Undone(p)
  {
    var f := p.part.fold;
    ByteClasses(f.lead[0]);
    hide TokenByte, CtlByte, DigitByte;
    assert f == Fold([f.lead[0]], []);
  }

  lemma {:induction false} TextUndone(p: Place)
    requires WfPlace(p) && p.state.HeaderValue? && p.part.InFold?
    ensures Undone(p)
  {
    ByteClasses(Undo(p).via);
    hide TokenByte, CtlByte, DigitByte;
    Pushed(p.part.fold.text);
  }

  lemma {:induction false} FoldEndUndone(p: Place)
    requires WfPlace(p) && p.state.ExpectingNewline2? && p.part.InFold?
    ensures Undone(p)
  {
    ByteClasses(Undo(p).via);
    hide TokenByte, CtlByte, DigitByte;
  }

  lemma {:induction false} PlaceUndone(p: Place)
    requires WfPlace(p) && !p.state.MethodStart?
    ensures Undone(p)
  {
    if p.state.Method? {
      MethodUndone(p);
    } else if p.state.Uri? {
      UriUndone(p);
    } else if InProtocol(p.state) {
      ProtocolUndone(p);
    } else if p.state.MajorStart? || p.state.MinorStart? {
      VersionPointUndone(p);
    } else if p.state.Major? {
      MajorUndone(p);
    } else if p.state.Minor? {
      MinorUndone(p);
    } else if InHead(p.state) {
      RequestLineEndUndone(p);
    } else if p.state.HeaderLineStart? || p.state.ExpectingNewline3? {
      if p.state.HeaderLineStart? && p.part.InHeader? && p.part.cur.folds != [] {
        FoldedLineUndone(p);
      } else {
        LineStartUndone(p);
      }
    } else if p.state.HeaderLws? {
      if |p.part.fold.lead| > 1 { BlanksUndone(p); } else { FirstBlankUndone(p); }
    } else if p.part.InFold? {
      if p.state.HeaderValue? { TextUndone(p); } else { FoldEndUndone(p); }
    } else if p.state.HeaderValue? {
      ValueUndone(p);
    } else if !p.state.HeaderName? {
      NameEndUndone(p);
    } else if |p.part.cur.name| > 1 {
      NameUndone(p);
    } else if p.done == [] {
      FirstNameUndone(p);
    } else {
      NextNameUndone(p);
    }
  }

  lemma {:induction false} OnlyStart(p: Place)
    requires WfPlace(p) && p.state.MethodStart?
    ensures p == START && Render(p) == []
  {
  }

  lemma {:induction false} TextOfNext(p: Place)
    requires WfPlace(p) && !p.state.MethodStart?
    ensures var a := Undo(p);
            WfPlace(a.from) && Next(a.from, a.via) == Some(p) && Render(p) == Render(a.from) + [a.via]
  {
    PlaceUndone(p);
    TextGrows(Undo(p).from, Undo(p).via);
    hide Render, Advance, Target, Undo, Shape, Content;
  }

  /** Every well-formed place is reached by reading its own text. */
  lemma {:induction false} TextLeadsHere(p: Place)
    requires WfPlace(p)
    ensures Track(START, Render(p)) == Some(p)
    decreases |Render(p)|
  {
    if p.state.MethodStart? {
      OnlyStart(p);
    } else {
      hide Render, Undo, Shape, Content, Next;
      TextOfNext(p);
      var a := Undo(p);
      TextLeadsHere(a.from);
      Pushed(Render(p));
      assert Front(Render(a.from) + [a.via]) == Render(a.from);
    }
  }

  function WholePlace(m: Message): Place {
    if m.lines == [] then Place(ExpectingNewline3, m.meth, m.uri, m.major, m.minor, [], NoHeader)
    else Place(ExpectingNewline3, m.meth, m.uri, m.major, m.minor, Front(m.lines), InHeader(Last(m.lines)))
  }

  lemma {:induction false} WholePlaceWf(m: Message)
    requires WfMessage(m)
    ensures WfPlace(WholePlace(m)) && MessageOf(WholePlace(m)) == m
  {
    if m.lines != [] { Pushed(m.lines); }
  }

  lemma {:induction false} RunLastByte(req: Request, rest: bytes)
    ensures Run(ExpectingNewline3, req, [LF] + rest) == Parsed(True, 1, ExpectingNewline3, req)
  {
  }

  /** Completeness: every message is accepted, exactly on its last byte, whatever
      follows it, and the request left is the one it denotes. */
  lemma {:induction false} MessageIsAccepted(was: Request, m: Message, rest: bytes)
    requires Fresh(was) && WfMessage(m)
    ensures Run(MethodStart, was, Print(m) + rest) == Parsed(True, |Print(m)|, ExpectingNewline3, Meaning(m))
  {
    hide Step, Run, Fields, Render, Shape, Content, Print, WfMessage, Meaning, Fresh;
    var p := WholePlace(m);
    WholePlaceWf(m);
    var text := Render(p);
    TextLeadsHere(p);
    Finished(p, was);
    RunTracks(was, text);
    assert Print(m) + rest == text + ([LF] + rest);
    RunConcat(MethodStart, was, text, [LF] + rest);
    RunLastByte(Meaning(m), rest);
  }

  /** No message has two derivations, and none is a proper prefix of another. */
  lemma {:induction false} DerivationsUnique(m1: Message, m2: Message, rest1: bytes, rest2: bytes)
    requires WfMessage(m1) && WfMessage(m2) && Print(m1) + rest1 == Print(m2) + rest2
    ensures m1 == m2 && rest1 == rest2
  {
    var was := Request([], [], 0, 0, []);
    MessageIsAccepted(was, m1, rest1);
    MessageIsAccepted(was, m2, rest2);
    var p1, p2 := WholePlace(m1), WholePlace(m2);
    WholePlaceWf(m1);
    WholePlaceWf(m2);
    Finished(p1, was);
    Finished(p2, was);
    TextLeadsHere(p1);
    TextLeadsHere(p2);
    hide Run, Render, Print, Track, Shape, Content, WfMessage;
    assert Print(m1) == (Print(m1) + rest1)[..|Print(m1)|] == Print(m2);
    assert Render(p1) == Front(Print(m1)) == Render(p2);
    assert rest1 == (Print(m1) + rest1)[|Print(m1)|..];
  }

  // ---------------------------------------------------- earliest rejection

  /** Every place can be completed: the byte to read next, and how far it is to the end. */
  function Onward(st: State): byte {
    match st
    case MethodStart => 'G' as int
    case Method | Uri | SpaceBeforeValue => SP
    case VersionH => 'H' as int
    case VersionT1 | VersionT2 => 'T' as int
    case VersionP => 'P' as int
    case VersionSlash => '/' as int
    case MajorStart | MinorStart => '1' as int
    case Major => '.' as int
    case HeaderName => COLON
    case ExpectingNewline1 | ExpectingNewline2 | ExpectingNewline3 => LF
    case _ => CR
  }

  function Distance(st: State): nat {
    match st
    case ExpectingNewline3 => 0
    case HeaderLineStart => 1
    case ExpectingNewline2 => 2
    case HeaderLws | HeaderValue => 3
    case SpaceBeforeValue => 4
    case HeaderName => 5
    case ExpectingNewline1 => 2
    case Minor => 3
    case MinorStart => 4
    case Major => 5
    case MajorStart => 6
    case VersionSlash => 7
    case VersionP => 8
    case VersionT2 => 9
    case VersionT1 => 10
    case VersionH => 11
    case Uri => 12
    case Method => 13
    case MethodStart => 14
  }

  /** From wherever the parser has got to, some continuation completes a message. */
  lemma {:induction false} Completable(st: State, req: Request) returns (t: bytes)
    requires Safe(st, req)
    ensures Run(st, req, t).verdict.True?
    decreases Distance(st)
  {
    var b := Onward(st);
    var o := Step(st, req, b);
    t := [b];
    assert [b][1..] == [];
    if o.verdict.Indeterminate? {
      var t' := Completable(o.state, o.req);
      t := [b] + t';
      assert t[1..] == t';
    }
  }

  /** A refusal comes at the earliest possible byte: what was read before it is
      the beginning of some message, with it, of none. */
  lemma {:induction false} RefusedEarliest(was: Request, input: bytes) returns (m: Message)
    requires Fresh(was) && Run(MethodStart, was, input).verdict.False?
    ensures var k := Run(MethodStart, was, input).used;
            && WfMessage(m) && input[..k - 1] <= Print(m)
            && forall m': Message :: WfMessage(m') ==> !(input[..k] <= Print(m'))
  {
    hide Step, Run, Print, WfMessage, Meaning;
    var p := Run(MethodStart, was, input);
    var k := p.used;
    var head, tail := input[..k - 1], input[k - 1..];
    assert head + tail == input;
    RunConcat(MethodStart, was, head, tail);
    var h := Run(MethodStart, was, head);
    var t := Completable(h.state, h.req);
    RunConcat(MethodStart, was, head, t);
    m := AcceptedIsMessage(was, head + t);
    assert head <= Print(m) by {
      var used := Run(MethodStart, was, head + t).used;
      assert used >= |head| && (head + t)[..|head|] == head;
    }
    forall m': Message | WfMessage(m') && input[..k] <= Print(m')
      ensures false
    {
      RunStopsAtVerdict(MethodStart, was, input, Print(m')[k..]);
      assert input[..k] + Print(m')[k..] == Print(m') + [];
      MessageIsAccepted(was, m', []);
      assert false;
    }
  }

  // --------------------------------------------------- the space after a colon

  function AfterName(m: Message, name: bytes): Place {
    Place(SpaceBeforeValue, m.meth, m.uri, m.major, m.minor, m.lines, InHeader(HeaderLine(name, [], [])))
  }

  lemma {:induction false} AfterNameText(m: Message, name: bytes)
    requires WfMessage(m) && Token(name)
    ensures WfPlace(AfterName(m, name))
    ensures Render(AfterName(m, name)) == RequestLine(m) + PrintLines(m.lines) + (name + [COLON])
  {
    assert RequestLine(m) == RenderHead(AfterName(m, name));
  }

  /** A header's name and colon must be followed by a space; any other byte is refused. */
  lemma {:induction false} SpaceIsRequired(was: Request, m: Message, name: bytes, b: byte, rest: bytes)
    requires Fresh(was) && WfMessage(m) && Token(name) && b != SP
    ensures var before := RequestLine(m) + PrintLines(m.lines) + (name + [COLON]);
            var p := Run(MethodStart, was, before + ([b] + rest));
            p.verdict.False? && p.used == |before| + 1
  {
    hide Run, Render, RequestLine, PrintLines, Shape, Content, WfMessage, Fields;
    var before := RequestLine(m) + PrintLines(m.lines) + (name + [COLON]);
    AfterNameText(m, name);
    TextLeadsHere(AfterName(m, name));
    RunTracks(was, before);
    RunConcat(MethodStart, was, before, [b] + rest);
    var h := Run(MethodStart, was, before);
    OtherByteRefused(h.req, b, rest);
  }

  lemma {:induction false} OtherByteRefused(req: Request, b: byte, rest: bytes)
    requires b != SP && req.headers != []
    ensures var p := Run(SpaceBeforeValue, req, [b] + rest);
            p.verdict.False? && p.used == 1
  {
    assert ([b] + rest)[0] == b;
  }

  lemma {:induction false} OneLineMore(m: Message, l: HeaderLine)
    requires WfMessage(m) && WfLine(l)
    ensures var m' := m.(lines := m.lines + [l]);
            && WfMessage(m') && Headers(m'.lines) == Headers(m.lines) + [LineHeader(l)]
            && Print(m') == RequestLine(m) + PrintLines(m.lines) + PrintLine(l) + CRLF
  {
    hide WfLine, Token, UriBytes, Digits, RequestLine, PrintLine;
    var m' := m.(lines := m.lines + [l]);
    assert Front(m'.lines) == m.lines && Last(m'.lines) == l;
    SameRequestLine(m, m');
    Assoc(RequestLine(m), PrintLines(m.lines), PrintLine(l));
  }

  lemma {:induction false} SpacedLine(name: bytes, value: bytes)
    requires Token(name) && NoCtl(value)
    ensures var l := HeaderLine(name, [SP] + value, []);
            && WfLine(l) && LineHeader(l) == Header(name, [SP] + value)
            && PrintLine(l) == name + [COLON, SP, SP] + value + CRLF
  {
    assert name + [COLON, SP] + ([SP] + value) == name + [COLON, SP, SP] + value;
    assert [SP] + value + FoldText([]) == [SP] + value;
  }

  /** Further spaces are the beginning of the value. */
  lemma {:induction false} MoreSpacesAreValue(was: Request, m: Message, name: bytes, value: bytes)
    requires Fresh(was) && WfMessage(m) && Token(name) && NoCtl(value)
    ensures var text := RequestLine(m) + PrintLines(m.lines) + (name + [COLON, SP, SP] + value + CRLF) + CRLF;
            var p := Run(MethodStart, was, text);
            p.verdict.True? && p.used == |text| && p.req.headers == Headers(m.lines) + [Header(name, [SP] + value)]
  {
    hide Run, WfMessage, WfLine, NoCtl, Token, Print, PrintLine, LineHeader, RequestLine, PrintLines;
    var l := HeaderLine(name, [SP] + value, []);
    SpacedLine(name, value);
    OneLineMore(m, l);
    var m' := m.(lines := m.lines + [l]);
    MessageIsAccepted(was, m', []);
    assert Print(m') + [] == Print(m');
  }

  lemma {:induction false} SameRequestLine(m: Message, m': Message)
    requires m.meth == m'.meth && m.uri == m'.uri && m.major == m'.major && m.minor == m'.minor
    ensures RequestLine(m) == RequestLine(m')
  {
  }

  // --------------------------------------------------- every reachable state

  predicate CleanHeader(h: Header) {
    Token(h.name) && NoCtl(h.value)
  }

  /** What holds of the parser and its request between any two bytes. */
  predicate Clean(st: State, req: Request) {
    && Safe(st, req)
    && (!st.MethodStart? ==> Token(req.meth)) && UriBytes(req.uri)
    && forall i :: 0 <= i < |req.headers| ==> CleanHeader(req.headers[i])
  }

  lemma {:induction false} CleanKept(st: State, req: Request, b: byte)
    requires Clean(st, req) && (st.MethodStart? ==> req.meth == [])
    ensures var o := Step(st, req, b);
            Clean(o.state, o.req) && (o.state.MethodStart? ==> o.req.meth == [])
  {
    hide TokenByte, CtlByte, DigitByte;
    var o := Step(st, req, b);
    if o.req.headers != req.headers {
      ByteClasses(b);
      assert CleanHeader(Back(o.req.headers)) by {
        if |o.req.headers| == |req.headers| { assert CleanHeader(Back(req.headers)); }
      }
    }
  }

  /** In every reachable state `headers` is not empty where `headers.back()` is used;
      the method and every header name are non-empty tokens from their first byte
      on, the URI has no space or control byte, and no value has a control byte. */
  lemma {:induction false} ReachedIsClean(was: Request, input: bytes)
    requires Fresh(was)
    ensures var p := Run(MethodStart, was, input);
            Clean(p.state, p.req)
  {
    CleanRun(MethodStart, was, input);
  }

  lemma {:induction false} CleanRun(st: State, req: Request, input: bytes)
    requires Clean(st, req) && (st.MethodStart? ==> req.meth == [])
    ensures var p := Run(st, req, input);
            Clean(p.state, p.req)
    decreases |input|
  {
    if input != [] {
      hide Step, Clean;
      CleanKept(st, req, input[0]);
      var o := Step(st, req, input[0]);
      if o.verdict.Indeterminate? { CleanRun(o.state, o.req, input[1..]); }
    }
  }
}
