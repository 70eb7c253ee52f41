/** The coroutine request parser of boost_http_server_3. Each `yield` is a point
    the parser resumes from; the byte it is resumed with runs it to the next one.
    `lexical_cast<std::size_t>` is a library call: it is the parameter `cast`. */
module RequestCoroutine {
  import opened Bytes
  import opened Options
  import opened RequestMachine

  type Cast = bytes -> Option<nat>

  datatype FullRequest = FullRequest(head: Request, content: bytes)

  /** The yields of the coroutine, in the order of the program text. */
  datatype Point =
    | Start
    | InMethod
    | AfterMethod
    | InUri
    | AfterUri
    | AfterH
    | AfterHT
    | AfterHTT
    | AfterHTTP
    | AfterSlash
    | InMajor
    | AfterDot
    | InMinor
    | AfterMinor
    | AfterRequestLine
    | InBlanks
    | InName
    | AfterColon
    | AfterColonSpace
    | InValue
    | AfterValue
    | AfterHeader
    | AfterLastReturn
    | InContent

  /** Where a byte takes the coroutine; the point and length matter only while
      the verdict is indeterminate. */
  datatype Resumed = Resumed(verdict: Tribool, point: Point, length: nat, req: FullRequest)

  datatype Parsed3 = Parsed3(verdict: Tribool, used: nat, point: Point, length: nat, req: FullRequest)

  const CLEARED: FullRequest := FullRequest(Request([], [], 0, 0, []), [])

  function CONTENT_LENGTH(): bytes {
    Ascii("Content-Length")
  }

  function ToLower(b: byte): byte {
    if 65 <= b <= 90 then b + 32 else b
  }

  predicate HeadersEqual(a: bytes, b: bytes) {
    |a| == |b| && forall i :: 0 <= i < |a| ==> ToLower(a[i]) == ToLower(b[i])
  }

  predicate IsLength(h: Header) {
    HeadersEqual(h.name, CONTENT_LENGTH())
  }

  /** The name of that header, letter by letter in either case. */
  lemma {:induction false} IsLengthIff(h: Header)
    ensures IsLength(h) <==>
            |h.name| == 14 && forall i :: 0 <= i < 14 ==>
              h.name[i] == "content-length"[i] as int || h.name[i] == "CONTENT-LENGTH"[i] as int
  {
    if |h.name| == 14 {
      forall i | 0 <= i < 14
        ensures ToLower(h.name[i]) == ToLower(CONTENT_LENGTH()[i]) <==>
                h.name[i] == "content-length"[i] as int || h.name[i] == "CONTENT-LENGTH"[i] as int
      {
      }
    }
  }

  /** The Content-Length rule: 0 if there is no such header, the last one's value
      if all of them are numbers, a failure if one is not. */
  function ScanLength(cast: Cast, headers: seq<Header>): Option<nat> {
    if headers == [] then Some(0)
    else if ScanLength(cast, Front(headers)).None? then None
    else if IsLength(Last(headers)) then cast(Last(headers).value)
    else ScanLength(cast, Front(headers))
  }

  /** What the rule says, without the scan. */
  lemma {:induction false} ScanLengthMeaning(cast: Cast, headers: seq<Header>)
    ensures ScanLength(cast, headers).None? <==> exists i :: 0 <= i < |headers| && IsLength(headers[i]) && cast(headers[i].value).None?
    ensures ScanLength(cast, headers).Some? ==>
              forall i :: 0 <= i < |headers| && IsLength(headers[i]) && (forall j :: i < j < |headers| ==> !IsLength(headers[j])) ==>
                            ScanLength(cast, headers) == cast(headers[i].value)
    ensures (forall i :: 0 <= i < |headers| ==> !IsLength(headers[i])) ==> ScanLength(cast, headers) == Some(0)
  {
    hide HeadersEqual, IsLength;
    if headers != [] {
      ScanLengthMeaning(cast, Front(headers));
      assert forall i :: 0 <= i < |headers| - 1 ==> Front(headers)[i] == headers[i];
      assert headers[|headers| - 1] == Last(headers);
    }
  }

  /** Once the scan has failed it stays failed. */
  lemma {:induction false} ScanFailsLater(cast: Cast, headers: seq<Header>, k: nat)
    requires k <= |headers| && ScanLength(cast, headers[..k]).None?
    ensures ScanLength(cast, headers).None?
    decreases |headers|
  {
    hide IsLength;
    if k < |headers| {
      assert Front(headers)[..k] == headers[..k];
      ScanFailsLater(cast, Front(headers), k);
    } else {
      assert headers[..k] == headers;
    }
  }

  // ------------------------------------------------------------- the steps

  /** `headers.back()` is only evaluated when there is a header. */
  predicate SafePoint(p: Point, req: FullRequest) {
    p.InBlanks? || p.InName? || p.AfterColon? || p.AfterColonSpace? || p.InValue? ==> req.head.headers != []
  }

  function Yield(p: Point, len: nat, req: FullRequest): Resumed {
    Resumed(Indeterminate, p, len, req)
  }

  function YieldIf(ok: bool, here: Point, next: Point, len: nat, req: FullRequest): Resumed {
    if ok then Yield(next, len, req) else Resumed(False, here, len, req)
  }

  predicate ValueByte(c: byte) {
    IsChar(Signed(c)) && !CtlByte(c) && c != CR
  }

  function MethodLoop(here: Point, len: nat, req: FullRequest, c: byte): Resumed {
    if TokenByte(c) then Yield(InMethod, len, req.(head := req.head.(meth := req.head.meth + [c])))
    else YieldIf(req.head.meth != [] && c == SP, here, AfterMethod, len, req)
  }

  function UriLoop(here: Point, len: nat, req: FullRequest, c: byte): Resumed {
    if !CtlByte(c) && c != SP then Yield(InUri, len, req.(head := req.head.(uri := req.head.uri + [c])))
    else YieldIf(req.head.uri != [] && c == SP, here, AfterUri, len, req)
  }

  function PushMajor(req: FullRequest, c: byte): FullRequest {
    req.(head := req.head.(major := req.head.major * 10 + c - 48))
  }

  function PushMinor(req: FullRequest, c: byte): FullRequest {
    req.(head := req.head.(minor := req.head.minor * 10 + c - 48))
  }

  /** The value loop: one more byte of the value, or the CR that ends it. */
  function ValueLoop(here: Point, len: nat, req: FullRequest, c: byte): Resumed
    requires req.head.headers != []
  {
    if ValueByte(c) then Yield(InValue, len, req.(head := PushValue(req.head, c)))
    else YieldIf(c == CR, here, AfterValue, len, req)
  }

  /** The top of the header loop, or the CR of the blank line. */
  function HeadersLoop(here: Point, len: nat, req: FullRequest, c: byte): Resumed {
    if BlankByte(c) then YieldIf(req.head.headers != [], here, InBlanks, len, req)
    else if TokenByte(c) then
      Yield(InName, len, req.(head := req.head.(headers := req.head.headers + [Header([c], [])])))
    else YieldIf(c == CR, here, AfterLastReturn, len, req)
  }

  function ContentLoop(len: nat, req: FullRequest): Resumed {
    if |req.content| < len then Yield(InContent, len, req) else Resumed(True, InContent, len, req)
  }

  /** Resuming the coroutine with one byte. */
  function Resume(cast: Cast, p: Point, len: nat, req: FullRequest, c: byte): (r: Resumed)
    requires SafePoint(p, req)
    ensures r.verdict.Indeterminate? ==> SafePoint(r.point, r.req)
  {
    match p
    case Start => MethodLoop(p, 0, CLEARED, c)
    case InMethod => MethodLoop(p, len, req, c)
    case AfterMethod | InUri => UriLoop(p, len, req, c)
    case AfterUri => YieldIf(c == 'H' as int, p, AfterH, len, req)
    case AfterH => YieldIf(c == 'T' as int, p, AfterHT, len, req)
    case AfterHT => YieldIf(c == 'T' as int, p, AfterHTT, len, req)
    case AfterHTT => YieldIf(c == 'P' as int, p, AfterHTTP, len, req)
    case AfterHTTP => YieldIf(c == '/' as int, p, AfterSlash, len, req)
    case AfterSlash => if DigitByte(c) then Yield(InMajor, len, PushMajor(req, c)) else Resumed(False, p, len, req)
    case InMajor =>
      if DigitByte(c) then Yield(InMajor, len, PushMajor(req, c)) else YieldIf(c == '.' as int, p, AfterDot, len, req)
    case AfterDot => if DigitByte(c) then Yield(InMinor, len, PushMinor(req, c)) else Resumed(False, p, len, req)
    case InMinor =>
      if DigitByte(c) then Yield(InMinor, len, PushMinor(req, c)) else YieldIf(c == CR, p, AfterMinor, len, req)
    case AfterMinor => YieldIf(c == LF, p, AfterRequestLine, len, req)
    case AfterRequestLine | AfterHeader => HeadersLoop(p, len, req, c)
    case InBlanks => if BlankByte(c) then Yield(InBlanks, len, req) else ValueLoop(p, len, req, c)
    case InName =>
      if TokenByte(c) then Yield(InName, len, req.(head := PushName(req.head, c)))
      else YieldIf(c == COLON, p, AfterColon, len, req)
    case AfterColon => YieldIf(c == SP, p, AfterColonSpace, len, req)
    case AfterColonSpace | InValue => ValueLoop(p, len, req, c)
    case AfterValue => YieldIf(c == LF, p, AfterHeader, len, req)
    case AfterLastReturn =>
      if c != LF || ScanLength(cast, req.head.headers).None? then Resumed(False, p, len, req)
      else ContentLoop(ScanLength(cast, req.head.headers).value, req)
    case InContent => ContentLoop(len, req.(content := req.content + [c]))
  }

  function Shift3(k: nat, p: Parsed3): Parsed3 {
    p.(used := k + p.used)
  }

  /** Feeding a whole input: stop at the first definite verdict. */
  function Run3(cast: Cast, p: Point, len: nat, req: FullRequest, input: bytes): (r: Parsed3)
    requires SafePoint(p, req)
    ensures r.used <= |input|
    ensures r.verdict.Indeterminate? ==> r.used == |input| && SafePoint(r.point, r.req)
    ensures !r.verdict.Indeterminate? ==> 0 < r.used
    decreases |input|
  {
    if input == [] then Parsed3(Indeterminate, 0, p, len, req)
    else
      var o := Resume(cast, p, len, req, input[0]);
      if o.verdict.Indeterminate? then Shift3(1, Run3(cast, o.point, o.length, o.req, input[1..]))
      else Parsed3(o.verdict, 1, o.point, o.length, o.req)
  }

  /** Splitting the input between two calls changes nothing. */
  lemma {:induction false} Run3Concat(cast: Cast, p: Point, len: nat, req: FullRequest, a: bytes, b: bytes)
    requires SafePoint(p, req)
    ensures var r := Run3(cast, p, len, req, a);
            Run3(cast, p, len, req, a + b) ==
            if r.verdict.Indeterminate? then Shift3(|a|, Run3(cast, r.point, r.length, r.req, b)) else r
    decreases |a|
  {
    hide Resume;
    if a == [] {
      assert a + b == b;
    } else {
      var o := Resume(cast, p, len, req, a[0]);
      assert (a + b)[0] == a[0] && (a + b)[1..] == a[1..] + b;
      if o.verdict.Indeterminate? {
        Run3Concat(cast, o.point, o.length, o.req, a[1..], b);
      }
    }
  }

  /** Until the content, the length is 0; before the first byte it may be anything. */
  predicate LengthOk(p: Point, len: nat) {
    !p.Start? && !p.InContent? ==> len == 0
  }

  lemma {:induction false} LengthKept(cast: Cast, p: Point, len: nat, req: FullRequest, c: byte)
    requires SafePoint(p, req) && LengthOk(p, len)
    ensures var r := Resume(cast, p, len, req, c);
            r.verdict.Indeterminate? ==> LengthOk(r.point, r.length)
  {
    hide TokenByte, CtlByte, DigitByte, IsChar, ScanLength;
  }

  lemma {:induction false} Run3Length(cast: Cast, p: Point, len: nat, req: FullRequest, input: bytes)
    requires SafePoint(p, req) && LengthOk(p, len)
    ensures var r := Run3(cast, p, len, req, input);
            r.verdict.Indeterminate? ==> LengthOk(r.point, r.length)
    decreases |input|
  {
    hide Resume, LengthOk;
    if input != [] {
      LengthKept(cast, p, len, req, input[0]);
      var o := Resume(cast, p, len, req, input[0]);
      if o.verdict.Indeterminate? { Run3Length(cast, o.point, o.length, o.req, input[1..]); }
    }
  }

  // ------------------------------------------------------------- the parser

  class FullRequestObject {
    var meth: bytes
    var uri: bytes
    var major: int
    var minor: int
    var headers: seq<Header>
    var content: bytes

    /** A request object; the first byte clears whatever it holds. */
    constructor (initial: FullRequest)
      ensures Value() == initial
    {
      meth, uri, major, minor := initial.head.meth, initial.head.uri, initial.head.major, initial.head.minor;
      headers, content := initial.head.headers, initial.content;
    }

    function Value(): FullRequest
      reads this
    {
      FullRequest(Request(meth, uri, major, minor, headers), content)
    }

    method Clear()
      modifies this
      ensures Value() == CLEARED
    {
      meth, uri, major, minor, headers, content := [], [], 0, 0, [], [];
    }

    method PushBackName(c: byte)
      requires headers != []
      modifies this`headers
      ensures Value().head == PushName(old(Value().head), c)
    {
      var last := |headers| - 1;
      headers := headers[last := headers[last].(name := headers[last].name + [c])];
    }

    method PushBackValue(c: byte)
      requires headers != []
      modifies this`headers
      ensures Value().head == PushValue(old(Value().head), c)
    {
      var last := |headers| - 1;
      headers := headers[last := headers[last].(value := headers[last].value + [c])];
    }
  }

  class CoroutineParser {
    const cast: Cast
    var point: Point
    var contentLength: nat

    /** A parser at a point: at Start a new one, whose length is what its memory
        happens to hold; or a copy of another. */
    constructor (cast: Cast, point: Point, contentLength: nat)
      ensures this.cast == cast && this.point == point && this.contentLength == contentLength
    {
      this.cast, this.point, this.contentLength := cast, point, contentLength;
    }

    method HeadersEqualLoop(a: bytes, b: bytes) returns (r: bool)
      ensures r == HeadersEqual(a, b)
    {
      if |a| != |b| { return false; }
      for i := 0 to |a|
        invariant forall j :: 0 <= j < i ==> ToLower(a[j]) == ToLower(b[j])
      {
        if ToLower(a[i]) != ToLower(b[i]) { return false; }
      }
      return true;
    }

    /** The Content-Length scan; false stands for `bad_lexical_cast`. */
    method ScanHeaders(headers: seq<Header>) returns (ok: bool)
      modifies this`contentLength
      ensures ok == ScanLength(cast, headers).Some?
      ensures ok && old(contentLength) == 0 ==> contentLength == ScanLength(cast, headers).value
    {
      hide HeadersEqual;
      var i := 0;
      while i < |headers|
        invariant 0 <= i <= |headers| && ScanLength(cast, headers[..i]).Some?
        invariant old(contentLength) == 0 ==> contentLength == ScanLength(cast, headers[..i]).value
      {
        assert Front(headers[..i + 1]) == headers[..i] && Last(headers[..i + 1]) == headers[i];
        var same := HeadersEqualLoop(headers[i].name, CONTENT_LENGTH());
        if same {
          var n := cast(headers[i].value);
          if n.None? {
            ScanFailsLater(cast, headers, i + 1);
            return false;
          }
          contentLength := n.value;
        }
        i := i + 1;
      }
      assert headers[..i] == headers;
      return true;
    }

    /** The body of the coroutine between two yields. */
    method Consume(req: FullRequestObject, c: byte) returns (result: Tribool)
      requires SafePoint(point, req.Value())
      requires !point.Start? && !point.InContent? ==> contentLength == 0
      modifies this, req
      ensures var r := Resume(cast, old(point), old(contentLength), old(req.Value()), c);
              && result == r.verdict && req.Value() == r.req
              && (result.Indeterminate? ==> point == r.point && contentLength == r.length)
              && (result.Indeterminate? && !point.InContent? ==> contentLength == 0)
    {
      hide ScanLength;
      if point.Start? {
        req.Clear();
        contentLength := 0;
      }
      if point.Start? || point.InMethod? {
        if TokenByte(c) {
          req.meth := req.meth + [c];
          point := InMethod;
          return Indeterminate;
        }
        if req.meth == [] { return False; }
        if c != SP { return False; }
        point := AfterMethod;
        return Indeterminate;
      }
      if point.AfterMethod? || point.InUri? {
        if !CtlByte(c) && c != SP {
          req.uri := req.uri + [c];
          point := InUri;
          return Indeterminate;
        }
        if req.uri == [] { return False; }
        if c != SP { return False; }
        point := AfterUri;
        return Indeterminate;
      }
      if point.AfterUri? || point.AfterH? || point.AfterHT? || point.AfterHTT? || point.AfterHTTP? {
        result := ConsumeProtocol(c);
        return;
      }
      if point.AfterSlash? || point.InMajor? {
        if point.AfterSlash? && !DigitByte(c) { return False; }
        if DigitByte(c) {
          req.major := req.major * 10 + c - 48;
          point := InMajor;
          return Indeterminate;
        }
        if c != '.' as int { return False; }
        point := AfterDot;
        return Indeterminate;
      }
      if point.AfterDot? || point.InMinor? {
        if point.AfterDot? && !DigitByte(c) { return False; }
        if DigitByte(c) {
          req.minor := req.minor * 10 + c - 48;
          point := InMinor;
          return Indeterminate;
        }
        if c != CR { return False; }
        point := AfterMinor;
        return Indeterminate;
      }
      if point.AfterMinor? {
        if c != LF { return False; }
        point := AfterRequestLine;
        return Indeterminate;
      }
      if point.AfterLastReturn? {
        if c != LF { return False; }
        var ok := ScanHeaders(req.headers);
        if !ok { return False; }
        if |req.content| < contentLength {
          point := InContent;
          return Indeterminate;
        }
        return True;
      }
      if point.InContent? {
        req.content := req.content + [c];
        return if |req.content| < contentLength then Indeterminate else True;
      }
      result := ConsumeHeader(req, c);
    }

    method ConsumeProtocol(c: byte) returns (result: Tribool)
      requires point.AfterUri? || point.AfterH? || point.AfterHT? || point.AfterHTT? || point.AfterHTTP?
      modifies this`point
      ensures forall len, req :: var r := Resume(cast, old(point), len, req, c);
                r == Resumed(result, point, len, req)
      ensures !point.InContent?
    {
      if point.AfterUri? {
        if c != 'H' as int { return False; }
        point := AfterH;
      } else if point.AfterH? {
        if c != 'T' as int { return False; }
        point := AfterHT;
      } else if point.AfterHT? {
        if c != 'T' as int { return False; }
        point := AfterHTT;
      } else if point.AfterHTT? {
        if c != 'P' as int { return False; }
        point := AfterHTTP;
      } else {
        if c != '/' as int { return False; }
        point := AfterSlash;
      }
      return Indeterminate;
    }

    predicate AtHeader()
      reads this
    {
      || point.AfterRequestLine? || point.AfterHeader? || point.InBlanks? || point.InName? || point.AfterColon?
      || point.AfterColonSpace? || point.InValue? || point.AfterValue?
    }

    method ConsumeHeader(req: FullRequestObject, c: byte) returns (result: Tribool)
      requires SafePoint(point, req.Value()) && AtHeader()
      modifies this`point, req
      ensures var r := Resume(cast, old(point), contentLength, old(req.Value()), c);
              && result == r.verdict && req.Value() == r.req
              && (result.Indeterminate? ==> point == r.point && contentLength == r.length)
      ensures !point.InContent?
    {
      if point.AfterRequestLine? || point.AfterHeader? {
        result := ConsumeLineStart(req, c);
      } else if point.InBlanks? && (c == SP || c == HT) {
        result := Indeterminate;
      } else if point.InName? || point.AfterColon? {
        result := ConsumeName(req, c);
      } else if point.InBlanks? || point.AfterColonSpace? || point.InValue? {
        result := ConsumeValue(req, c);
      } else {
        if c != LF { return False; }
        point := AfterHeader;
        result := Indeterminate;
      }
    }

    /** The top of the header loop: a continuation, a new header, or its end. */
    method ConsumeLineStart(req: FullRequestObject, c: byte) returns (result: Tribool)
      requires point.AfterRequestLine? || point.AfterHeader?
      modifies this`point, req
      ensures var r := Resume(cast, old(point), contentLength, old(req.Value()), c);
              && result == r.verdict && req.Value() == r.req
              && (result.Indeterminate? ==> point == r.point && contentLength == r.length)
      ensures !point.InContent?
    {
      hide TokenByte, CtlByte, DigitByte, IsChar;
      if c == SP || c == HT {
        if req.headers == [] { return False; }
        point := InBlanks;
        return Indeterminate;
      }
      if TokenByte(c) {
        req.headers := req.headers + [Header([], [])];
        req.PushBackName(c);
        assert [] + [c] == [c];
        assert req.headers == old(req.headers) + [Header([c], [])];
        point := InName;
        return Indeterminate;
      }
      if c != CR { return False; }
      point := AfterLastReturn;
      return Indeterminate;
    }

    /** The name loop, the colon and the space. */
    method ConsumeName(req: FullRequestObject, c: byte) returns (result: Tribool)
      requires SafePoint(point, req.Value()) && (point.InName? || point.AfterColon?)
      modifies this`point, req
      ensures var r := Resume(cast, old(point), contentLength, old(req.Value()), c);
              && result == r.verdict && req.Value() == r.req
              && (result.Indeterminate? ==> point == r.point && contentLength == r.length)
      ensures !point.InContent?
    {
      hide TokenByte, CtlByte, DigitByte, IsChar;
      if point.InName? {
        if TokenByte(c) {
          req.PushBackName(c);
          return Indeterminate;
        }
        if c != COLON { return False; }
        point := AfterColon;
        return Indeterminate;
      }
      if c != SP { return False; }
      point := AfterColonSpace;
      return Indeterminate;
    }

    /** The value loop. */
    method ConsumeValue(req: FullRequestObject, c: byte) returns (result: Tribool)
      requires SafePoint(point, req.Value()) && (point.InBlanks? || point.AfterColonSpace? || point.InValue?)
      requires point.InBlanks? ==> c != SP && c != HT
      modifies this`point, req
      ensures var r := Resume(cast, old(point), contentLength, old(req.Value()), c);
              && result == r.verdict && req.Value() == r.req
              && (result.Indeterminate? ==> point == r.point && contentLength == r.length)
      ensures !point.InContent?
    {
      hide TokenByte, CtlByte, DigitByte, IsChar;
      if ValueByte(c) {
        req.PushBackValue(c);
        point := InValue;
        return Indeterminate;
      }
      if c != CR { return False; }
      point := AfterValue;
      return Indeterminate;
    }

    /** The parse loop over the part [begin, end) of a buffer. */
    method Parse(req: FullRequestObject, buffer: array<byte>, begin: nat, end: nat)
      returns (result: Tribool, next: nat)
      requires begin <= end <= buffer.Length && SafePoint(point, req.Value())
      requires !point.Start? && !point.InContent? ==> contentLength == 0
      modifies this, req
      ensures begin <= next <= end
      ensures var r := Run3(cast, old(point), old(contentLength), old(req.Value()), buffer[begin..end]);
              && result == r.verdict && next - begin == r.used && req.Value() == r.req
              && (result.Indeterminate? ==>
                    && point == r.point && contentLength == r.length && SafePoint(point, req.Value())
                    && (!point.Start? && !point.InContent? ==> contentLength == 0))
    {
      hide Resume;
      next := begin;
      while next != end
        invariant begin <= next <= end && SafePoint(point, req.Value())
        invariant !point.Start? && !point.InContent? ==> contentLength == 0
        invariant Run3(cast, old(point), old(contentLength), old(req.Value()), buffer[begin..end])
               == Shift3(next - begin, Run3(cast, point, contentLength, req.Value(), buffer[next..end]))
        decreases end - next
      {
        ghost var todo := buffer[next..end];
        assert todo[0] == buffer[next] && todo[1..] == buffer[next + 1..end];
        result := Consume(req, buffer[next]);
        next := next + 1;
        if !result.Indeterminate? { return; }
      }
      result := Indeterminate;
    }
  }
}
