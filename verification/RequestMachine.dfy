/** The byte-at-a-time request parser of boost_http_server_1: twenty states, one
    request built up in place, and the loop that feeds it a buffer. */
module RequestMachine {
  import opened Bytes

  datatype Tribool = True | False | Indeterminate

  datatype Header = Header(name: bytes, value: bytes)

  datatype Request = Request(meth: bytes, uri: bytes, major: int, minor: int, headers: seq<Header>)

  datatype State =
    | MethodStart
    | Method
    | Uri
    | VersionH
    | VersionT1
    | VersionT2
    | VersionP
    | VersionSlash
    | MajorStart
    | Major
    | MinorStart
    | Minor
    | ExpectingNewline1
    | HeaderLineStart
    | HeaderLws
    | HeaderName
    | SpaceBeforeValue
    | HeaderValue
    | ExpectingNewline2
    | ExpectingNewline3

  /** What one byte does: a verdict, and the parser state and request it leaves. */
  datatype Outcome = Outcome(verdict: Tribool, state: State, req: Request)

  /** What a buffer does: the verdict, the bytes consumed, and the state left. */
  datatype Parsed = Parsed(verdict: Tribool, used: nat, state: State, req: Request)

  /** A default-constructed request. Its version numbers are uninitialised, so
      they may be anything. */
  predicate Fresh(req: Request) {
    req.meth == [] && req.uri == [] && req.headers == []
  }

  /** `headers.back()` is only evaluated when there is a header. */
  predicate Safe(st: State, req: Request) {
    (st.HeaderLws? || st.HeaderName? || st.SpaceBeforeValue? || st.HeaderValue?) ==> req.headers != []
  }

  function Back(headers: seq<Header>): Header
    requires headers != []
  {
    headers[|headers| - 1]
  }

  function SetBack(headers: seq<Header>, h: Header): (r: seq<Header>)
    requires headers != []
    ensures |r| == |headers|
  {
    headers[|headers| - 1 := h]
  }

  function PushName(req: Request, b: byte): Request
    requires req.headers != []
  {
    var h := Back(req.headers);
    req.(headers := SetBack(req.headers, h.(name := h.name + [b])))
  }

  function PushValue(req: Request, b: byte): Request
    requires req.headers != []
  {
    var h := Back(req.headers);
    req.(headers := SetBack(req.headers, h.(value := h.value + [b])))
  }

  function Reject(st: State, req: Request): Outcome {
    Outcome(False, st, req)
  }

  function Go(st: State, req: Request): Outcome {
    Outcome(Indeterminate, st, req)
  }

  function Expect(b: byte, c: char, here: State, next: State, req: Request): Outcome {
    if b == c as int then Go(next, req) else Reject(here, req)
  }

  /** The transition function of the machine. */
  function Step(st: State, req: Request, b: byte): (o: Outcome)
    requires Safe(st, req)
    ensures o.verdict.Indeterminate? ==> Safe(o.state, o.req)
    ensures o.verdict.True? <==> st == ExpectingNewline3 && b == LF
    ensures !o.verdict.Indeterminate? ==> o.state == st && o.req == req
  {
    match st
    case MethodStart =>
      if TokenByte(b) then Go(Method, req.(meth := req.meth + [b])) else Reject(st, req)
    case Method =>
      if b == SP then Go(Uri, req)
      else if TokenByte(b) then Go(Method, req.(meth := req.meth + [b])) else Reject(st, req)
    case Uri =>
      if b == SP then Go(VersionH, req)
      else if CtlByte(b) then Reject(st, req) else Go(Uri, req.(uri := req.uri + [b]))
    case VersionH => Expect(b, 'H', st, VersionT1, req)
    case VersionT1 => Expect(b, 'T', st, VersionT2, req)
    case VersionT2 => Expect(b, 'T', st, VersionP, req)
    case VersionP => Expect(b, 'P', st, VersionSlash, req)
    case VersionSlash =>
      if b == '/' as int then Go(MajorStart, req.(major := 0, minor := 0)) else Reject(st, req)
    case MajorStart =>
      if DigitByte(b) then Go(Major, req.(major := req.major * 10 + b - 48)) else Reject(st, req)
    case Major =>
      if b == '.' as int then Go(MinorStart, req)
      else if DigitByte(b) then Go(Major, req.(major := req.major * 10 + b - 48)) else Reject(st, req)
    case MinorStart =>
      if DigitByte(b) then Go(Minor, req.(minor := req.minor * 10 + b - 48)) else Reject(st, req)
    case Minor =>
      if b == CR then Go(ExpectingNewline1, req)
      else if DigitByte(b) then Go(Minor, req.(minor := req.minor * 10 + b - 48)) else Reject(st, req)
    case ExpectingNewline1 => Expect(b, '\n', st, HeaderLineStart, req)
    case HeaderLineStart =>
      if b == CR then Go(ExpectingNewline3, req)
      else if req.headers != [] && BlankByte(b) then Go(HeaderLws, req)
      else if TokenByte(b) then Go(HeaderName, req.(headers := req.headers + [Header([b], [])]))
      else Reject(st, req)
    case HeaderLws =>
      if b == CR then Go(ExpectingNewline2, req)
      else if BlankByte(b) then Go(HeaderLws, req)
      else if CtlByte(b) then Reject(st, req) else Go(HeaderValue, PushValue(req, b))
    case HeaderName =>
      if b == COLON then Go(SpaceBeforeValue, req)
      else if TokenByte(b) then Go(HeaderName, PushName(req, b)) else Reject(st, req)
    case SpaceBeforeValue => Expect(b, ' ', st, HeaderValue, req)
    case HeaderValue =>
      if b == CR then Go(ExpectingNewline2, req)
      else if CtlByte(b) then Reject(st, req) else Go(HeaderValue, PushValue(req, b))
    case ExpectingNewline2 => Expect(b, '\n', st, HeaderLineStart, req)
    case ExpectingNewline3 =>
      if b == LF then Outcome(True, st, req) else Reject(st, req)
  }

  function Shift(k: nat, p: Parsed): Parsed {
    p.(used := k + p.used)
  }

  /** Feeding a whole input: stop at the first definite verdict. */
  function Run(st: State, req: Request, input: bytes): (p: Parsed)
    requires Safe(st, req)
    ensures p.used <= |input|
    ensures p.verdict.Indeterminate? ==> p.used == |input| && Safe(p.state, p.req)
    ensures !p.verdict.Indeterminate? ==> 0 < p.used
    decreases |input|
  {
    if input == [] then Parsed(Indeterminate, 0, st, req)
    else
      var o := Step(st, req, input[0]);
      if o.verdict.Indeterminate? then Shift(1, Run(o.state, o.req, input[1..]))
      else Parsed(o.verdict, 1, o.state, o.req)
  }

  /** Splitting the input between two calls changes nothing: a definite verdict
      stands whatever follows, an indeterminate one is resumed where it stopped. */
  lemma {:induction false} RunConcat(st: State, req: Request, a: bytes, b: bytes)
    requires Safe(st, req)
    ensures var p := Run(st, req, a);
            Run(st, req, a + b) ==
            if p.verdict.Indeterminate? then Shift(|a|, Run(p.state, p.req, b)) else p
    decreases |a|
  {
    if a == [] {
      assert a + b == b;
    } else {
      var o := Step(st, req, a[0]);
      assert (a + b)[0] == a[0] && (a + b)[1..] == a[1..] + b;
      if o.verdict.Indeterminate? {
        RunConcat(o.state, o.req, a[1..], b);
      }
    }
  }

  /** Only the bytes up to the verdict matter. */
  lemma {:induction false} RunStopsAtVerdict(st: State, req: Request, input: bytes, rest: bytes)
    requires Safe(st, req) && !Run(st, req, input).verdict.Indeterminate?
    ensures var p := Run(st, req, input);
            Run(st, req, input[..p.used] + rest) == p
  {
    var p := Run(st, req, input);
    var head, tail := input[..p.used], input[p.used..];
    assert head + tail == input;
    RunConcat(st, req, head, tail);
    RunConcat(st, req, head, rest);
  }

  /** The request object the parser fills in. */
  class RequestObject {
    var meth: bytes
    var uri: bytes
    var major: int
    var minor: int
    var headers: seq<Header>

    /** A new request; the version numbers are what their memory happens to hold. */
    constructor (memory: (int, int))
      ensures Fresh(Value()) && Value() == Request([], [], memory.0, memory.1, [])
    {
      meth, uri, headers := [], [], [];
      major, minor := memory.0, memory.1;
    }

    function Value(): Request
      reads this
    {
      Request(meth, uri, major, minor, headers)
    }
  }

  class RequestParser {
    var state: State

    constructor ()
      ensures state == MethodStart
    {
      state := MethodStart;
    }

    method Reset()
      modifies this
      ensures state == MethodStart
    {
      state := MethodStart;
    }

    method Consume(req: RequestObject, input: byte) returns (result: Tribool)
      requires Safe(state, req.Value())
      modifies this, req
      ensures Outcome(result, state, req.Value()) == Step(old(state), old(req.Value()), input)
    {
      var c := Signed(input);
      match state
      case MethodStart =>
        if !IsChar(c) || IsCtl(c) || IsTspecial(c) { return False; }
        state := Method;
        req.meth := req.meth + [input];
        return Indeterminate;
      case Method =>
        if input == SP {
          state := Uri;
        } else if !IsChar(c) || IsCtl(c) || IsTspecial(c) {
          return False;
        } else {
          req.meth := req.meth + [input];
        }
        return Indeterminate;
      case Uri =>
        if input == SP {
          state := VersionH;
        } else if IsCtl(c) {
          return False;
        } else {
          req.uri := req.uri + [input];
        }
        return Indeterminate;
      case VersionH =>
        if input != 'H' as int { return False; }
        state := VersionT1;
        return Indeterminate;
      case VersionT1 =>
        if input != 'T' as int { return False; }
        state := VersionT2;
        return Indeterminate;
      case VersionT2 =>
        if input != 'T' as int { return False; }
        state := VersionP;
        return Indeterminate;
      case VersionP =>
        if input != 'P' as int { return False; }
        state := VersionSlash;
        return Indeterminate;
      case VersionSlash =>
        if input != '/' as int { return False; }
        req.major, req.minor := 0, 0;
        state := MajorStart;
        return Indeterminate;
      case MajorStart =>
        if !IsDigit(c) { return False; }
        req.major := req.major * 10 + input - 48;
        state := Major;
        return Indeterminate;
      case Major =>
        if input == '.' as int {
          state := MinorStart;
        } else if IsDigit(c) {
          req.major := req.major * 10 + input - 48;
        } else {
          return False;
        }
        return Indeterminate;
      case MinorStart =>
        if !IsDigit(c) { return False; }
        req.minor := req.minor * 10 + input - 48;
        state := Minor;
        return Indeterminate;
      case Minor =>
        if input == CR {
          state := ExpectingNewline1;
        } else if IsDigit(c) {
          req.minor := req.minor * 10 + input - 48;
        } else {
          return False;
        }
        return Indeterminate;
      case ExpectingNewline1 =>
        if input != LF { return False; }
        state := HeaderLineStart;
        return Indeterminate;
      case HeaderLineStart =>
        if input == CR {
          state := ExpectingNewline3;
        } else if req.headers != [] && (input == SP || input == HT) {
          state := HeaderLws;
        } else if !IsChar(c) || IsCtl(c) || IsTspecial(c) {
          return False;
        } else {
          req.headers := req.headers + [Header([], [])];
          PushBackName(req, input);
          assert [] + [input] == [input];
          assert req.headers == old(req.headers) + [Header([input], [])];
          state := HeaderName;
        }
        return Indeterminate;
      case HeaderLws =>
        if input == CR {
          state := ExpectingNewline2;
        } else if input == SP || input == HT {
        } else if IsCtl(c) {
          return False;
        } else {
          state := HeaderValue;
          PushBackValue(req, input);
        }
        return Indeterminate;
      case HeaderName =>
        if input == COLON {
          state := SpaceBeforeValue;
        } else if !IsChar(c) || IsCtl(c) || IsTspecial(c) {
          return False;
        } else {
          PushBackName(req, input);
        }
        return Indeterminate;
      case SpaceBeforeValue =>
        if input != SP { return False; }
        state := HeaderValue;
        return Indeterminate;
      case HeaderValue =>
        if input == CR {
          state := ExpectingNewline2;
        } else if IsCtl(c) {
          return False;
        } else {
          PushBackValue(req, input);
        }
        return Indeterminate;
      case ExpectingNewline2 =>
        if input != LF { return False; }
        state := HeaderLineStart;
        return Indeterminate;
      case ExpectingNewline3 =>
        return if input == LF then True else False;
    }

    /** `req.headers.back().name.push_back(input)` */
    static method PushBackName(req: RequestObject, input: byte)
      requires req.headers != []
      modifies req`headers
      ensures req.Value() == PushName(old(req.Value()), input)
    {
      var last := |req.headers| - 1;
      var h := req.headers[last];
      req.headers := req.headers[last := h.(name := h.name + [input])];
    }

    /** `req.headers.back().value.push_back(input)` */
    static method PushBackValue(req: RequestObject, input: byte)
      requires req.headers != []
      modifies req`headers
      ensures req.Value() == PushValue(old(req.Value()), input)
    {
      var last := |req.headers| - 1;
      var h := req.headers[last];
      req.headers := req.headers[last := h.(value := h.value + [input])];
    }

    /** The parse loop over the part [begin, end) of a buffer. */
    method Parse(req: RequestObject, buffer: array<byte>, begin: nat, end: nat)
      returns (result: Tribool, next: nat)
      requires begin <= end <= buffer.Length && Safe(state, req.Value())
      modifies this, req
      ensures begin <= next <= end
      ensures Parsed(result, next - begin, state, req.Value())
           == Run(old(state), old(req.Value()), buffer[begin..end])
      ensures result.Indeterminate? ==> Safe(state, req.Value())
    {
      hide Step;
      next := begin;
      while next != end
        invariant begin <= next <= end && Safe(state, req.Value())
        invariant Run(old(state), old(req.Value()), buffer[begin..end])
               == Shift(next - begin, Run(state, req.Value(), buffer[next..end]))
        decreases end - next
      {
        ghost var todo := buffer[next..end];
        assert todo[0] == buffer[next] && todo[1..] == buffer[next + 1..end];
        result := Consume(req, buffer[next]);
        next := next + 1;
        if !result.Indeterminate? { return; }
      }
      result := Indeterminate;
    }
  }
}
