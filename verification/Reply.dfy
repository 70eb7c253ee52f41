/** The replies of boost_http_server_3: how they are turned into buffers, and the
    proof that the header and content phases of the request parser read them back. */
module Reply {
  import opened Bytes
  import opened Options
  import opened Text
  import opened RequestMachine
  import opened RequestCoroutine
  import opened RequestGrammar
  import C = CoroutineLanguage
  import L = Lockstep

  datatype Status =
    | Ok
    | Created
    | Accepted
    | NoContent
    | MultipleChoices
    | MovedPermanently
    | MovedTemporarily
    | NotModified
    | BadRequest
    | Unauthorized
    | Forbidden
    | NotFound
    | InternalServerError
    | NotImplemented
    | BadGateway
    | ServiceUnavailable

  datatype Reply = Reply(status: Status, headers: seq<Header>, content: bytes)

  /** Code and reason phrase. */
  function Reason(status: Status): string {
    match status
    case Ok => "200 OK"
    case Created => "201 Created"
    case Accepted => "202 Accepted"
    case NoContent => "204 No Content"
    case MultipleChoices => "300 Multiple Choices"
    case MovedPermanently => "301 Moved Permanently"
    case MovedTemporarily => "302 Moved Temporarily"
    case NotModified => "304 Not Modified"
    case BadRequest => "400 Bad Request"
    case Unauthorized => "401 Unauthorized"
    case Forbidden => "403 Forbidden"
    case NotFound => "404 Not Found"
    case InternalServerError => "500 Internal Server Error"
    case NotImplemented => "501 Not Implemented"
    case BadGateway => "502 Bad Gateway"
    case ServiceUnavailable => "503 Service Unavailable"
  }

  function StatusLine(status: Status): bytes {
    Ascii("HTTP/1.0 ") + Ascii(Reason(status)) + CRLF
  }

  /** The title of the page that goes with a status: the reason without its code. */
  function Title(status: Status): string {
    if |Reason(status)| < 4 then "" else Reason(status)[4..]
  }

  function StockContent(status: Status): bytes {
    if status == Ok then []
    else
      Ascii("<html><head><title>") + Ascii(Title(status)) + Ascii("</title></head><body><h1>")
      + (if status == NoContent then Ascii("204 Content") else Ascii(Reason(status))) + Ascii("</h1></body></html>")
  }

  /** The pages that the servers send with an error. */
  lemma {:induction false} ErrorPages()
    ensures StockContent(BadRequest) ==
            Ascii("<html><head><title>" + "Bad Request" + "</title></head><body><h1>" + "400 Bad Request" + "</h1></body></html>")
    ensures StockContent(NotFound) ==
            Ascii("<html><head><title>" + "Not Found" + "</title></head><body><h1>" + "404 Not Found" + "</h1></body></html>")
  {
    PageText("Bad Request", "400 Bad Request");
    assert Title(BadRequest) == "Bad Request";
    PageText("Not Found", "404 Not Found");
    assert Title(NotFound) == "Not Found";
    hide Ascii, Title;
  }

  lemma {:induction false} PageText(title: string, heading: string)
    ensures Ascii("<html><head><title>") + Ascii(title) + Ascii("</title></head><body><h1>") + Ascii(heading) + Ascii("</h1></body></html>")
         == Ascii("<html><head><title>" + title + "</title></head><body><h1>" + heading + "</h1></body></html>")
  {
    var a, b, c := "<html><head><title>", "</title></head><body><h1>", "</h1></body></html>";
    AsciiJoins(a, title);
    AsciiJoins(a + title, b);
    AsciiJoins(a + title + b, heading);
    AsciiJoins(a + title + b + heading, c);
    hide Ascii;
  }

  lemma {:induction false} AsciiJoins(a: string, b: string)
    ensures Ascii(a + b) == Ascii(a) + Ascii(b)
  {
    assert forall i :: 0 <= i < |a + b| ==> (a + b)[i] == if i < |a| then a[i] else b[i - |a|];
  }

  /** A reply with a page: the length of its content in decimal, and its type. */
  function Page(status: Status, content: bytes, kind: bytes): Reply {
    Reply(status, [Header(Ascii("Content-Length"), DecimalText(|content|)), Header(Ascii("Content-Type"), kind)], content)
  }

  function Stock(status: Status): Reply {
    Page(status, StockContent(status), Ascii("text/html"))
  }

  /** The library contract used: reading back the decimal text of a size. */
  ghost predicate ReadsDecimals(cast: Cast) {
    forall n: nat :: n < SIZE_LIMIT ==> cast(DecimalText(n)) == Some(n)
  }

  // --------------------------------------------------------------- printing

  function HeaderBytes(h: Header): bytes {
    h.name + [COLON, SP] + h.value + CRLF
  }

  function HeadersBytes(hs: seq<Header>): bytes {
    if hs == [] then [] else HeadersBytes(Front(hs)) + HeaderBytes(Last(hs))
  }

  /** Everything after the status line. */
  function AfterStatus(rep: Reply): bytes {
    HeadersBytes(rep.headers) + CRLF + rep.content
  }

  function PrintReply(rep: Reply): bytes {
    StatusLine(rep.status) + AfterStatus(rep)
  }

  /** What a gathering write sends for a list of buffers. */
  function Gather(buffers: seq<bytes>): bytes {
    if buffers == [] then [] else Gather(Front(buffers)) + Last(buffers)
  }

  lemma {:induction false} GatherPush(buffers: seq<bytes>, b: bytes)
    ensures Gather(buffers + [b]) == Gather(buffers) + b
  {
    assert Front(buffers + [b]) == buffers;
  }

  lemma {:induction false} HeadersPush(hs: seq<Header>, i: nat)
    requires i < |hs|
    ensures HeadersBytes(hs[..i + 1]) == HeadersBytes(hs[..i]) + HeaderBytes(hs[i])
  {
    assert Front(hs[..i + 1]) == hs[..i] && Last(hs[..i + 1]) == hs[i];
  }

  lemma {:induction false} GatherHeader(buffers: seq<bytes>, h: Header)
    ensures Gather(buffers + [h.name] + [[COLON, SP]] + [h.value] + [CRLF]) == Gather(buffers) + HeaderBytes(h)
  {
    GatherPush(buffers, h.name);
    GatherPush(buffers + [h.name], [COLON, SP]);
    GatherPush(buffers + [h.name] + [[COLON, SP]], h.value);
    GatherPush(buffers + [h.name] + [[COLON, SP]] + [h.value], CRLF);
    hide Gather;
    var g := Gather(buffers);
    assert g + h.name + [COLON, SP] + h.value + CRLF == g + (h.name + [COLON, SP] + h.value + CRLF);
  }

  /** `reply::to_buffers` */
  method ToBuffers(rep: Reply) returns (buffers: seq<bytes>)
    ensures Gather(buffers) == PrintReply(rep)
    ensures |buffers| == 3 + 4 * |rep.headers|
  {
    GatherPush([], StatusLine(rep.status));
    assert Gather([]) == [] && rep.headers[..0] == [];
    assert HeadersBytes([]) == [];
    hide Gather, StatusLine, HeaderBytes, HeadersBytes;
    buffers := [];
    buffers := buffers + [StatusLine(rep.status)];
    var i := 0;
    while i < |rep.headers|
      invariant 0 <= i <= |rep.headers| && |buffers| == 1 + 4 * i
      invariant Gather(buffers) == StatusLine(rep.status) + HeadersBytes(rep.headers[..i])
    {
      var h := rep.headers[i];
      GatherHeader(buffers, h);
      HeadersPush(rep.headers, i);
      Assoc(StatusLine(rep.status), HeadersBytes(rep.headers[..i]), HeaderBytes(h));
      buffers := buffers + [h.name];
      buffers := buffers + [[COLON, SP]];
      buffers := buffers + [h.value];
      buffers := buffers + [CRLF];
      i := i + 1;
    }
    GatherPush(buffers, CRLF);
    GatherPush(buffers + [CRLF], rep.content);
    assert rep.headers[..i] == rep.headers;
    Assoc(StatusLine(rep.status), HeadersBytes(rep.headers), CRLF);
    Assoc(StatusLine(rep.status), HeadersBytes(rep.headers) + CRLF, rep.content);
    buffers := buffers + [CRLF];
    buffers := buffers + [rep.content];
  }

  /** `reply::stock_reply` */
  method StockReply(status: Status) returns (rep: Reply)
    ensures rep == Stock(status)
  {
    rep := Reply(status, [], []);
    rep := rep.(content := StockContent(status));
    var headers := seq(2, i => Header([], []));
    headers := headers[0 := headers[0].(name := Ascii("Content-Length"))];
    headers := headers[0 := headers[0].(value := DecimalText(|rep.content|))];
    headers := headers[1 := headers[1].(name := Ascii("Content-Type"))];
    headers := headers[1 := headers[1].(value := Ascii("text/html"))];
    rep := rep.(headers := headers);
  }

  // ------------------------------------------------------- reading it back

  /** Header names are tokens and values are ASCII without control bytes. */
  predicate Printable(headers: seq<Header>) {
    forall i :: 0 <= i < |headers| ==> Token(headers[i].name) && NoCtl(headers[i].value) && AsciiOnly(headers[i].value)
  }

  /** The reply's own headers say how long its content is. */
  predicate Framed(cast: Cast, rep: Reply) {
    ScanLength(cast, rep.headers) == Some(|rep.content|)
  }

  function LinesOf(headers: seq<Header>): (ls: seq<HeaderLine>)
    ensures |ls| == |headers|
    ensures forall i :: 0 <= i < |headers| ==> ls[i] == HeaderLine(headers[i].name, headers[i].value, [])
  {
    seq(|headers|, i requires 0 <= i < |headers| => HeaderLine(headers[i].name, headers[i].value, []))
  }

  /** The header block of a reply is a sequence of unfolded header lines. */
  lemma {:induction false} BlockIsLines(headers: seq<Header>)
    ensures PrintLines(LinesOf(headers)) == HeadersBytes(headers)
    decreases |headers|
  {
    if headers != [] {
      BlockIsLines(Front(headers));
      assert Front(LinesOf(headers)) == LinesOf(Front(headers));
      assert Last(LinesOf(headers)) == HeaderLine(Last(headers).name, Last(headers).value, []);
    }
  }

  lemma {:induction false} LinesMeanHeaders(headers: seq<Header>)
    ensures Headers(LinesOf(headers)) == headers
  {
    forall i | 0 <= i < |headers| ensures Headers(LinesOf(headers))[i] == headers[i] {
      assert headers[i].value + [] == headers[i].value;
    }
  }

  lemma {:induction false} LinesWf(headers: seq<Header>)
    requires Printable(headers)
    ensures WfLines(LinesOf(headers)) && L.AsciiValues(headers)
  {
    hide Token, NoCtl, AsciiOnly;
  }

  /** The printer inverted: after any request line, everything a printable reply
      prints after its status line takes the coroutine parser to the outcome of
      its length rule, with the reply's own headers. */
  lemma {:induction false} ReplyReadBack(cast: Cast, len: nat, full: FullRequest, m: Message, rep: Reply)
    requires WfMessage(m) && m.lines == [] && m.uri != [] && Printable(rep.headers)
    ensures L.Has(Run3(cast, Start, len, full, RequestLine(m) + AfterStatus(rep)),
                  L.BodyOutcome(cast, Meaning(m).(headers := rep.headers),
                                |RequestLine(m) + AfterStatus(rep)| - |rep.content|, rep.content))
  {
    var m' := m.(lines := LinesOf(rep.headers));
    BlockIsLines(rep.headers);
    LinesMeanHeaders(rep.headers);
    LinesWf(rep.headers);
    assert C.Acceptable(m');
    C.MessageThenRest(cast, len, full, m', rep.content);
    hide Run3, PrintLines, L.BodyOutcome, L.Has, WfMessage, L.AsciiValues;
    assert RequestLine(m') == RequestLine(m);
    assert Print(m') + rep.content == RequestLine(m) + AfterStatus(rep);
  }

  /** Hence it is read back whole, exactly on its last byte, if and only if its
      headers say how long its content is. */
  lemma {:induction false} ReadBackIffFramed(cast: Cast, len: nat, full: FullRequest, m: Message, rep: Reply)
    requires WfMessage(m) && m.lines == [] && m.uri != [] && Printable(rep.headers)
    ensures var input := RequestLine(m) + AfterStatus(rep);
            var r := Run3(cast, Start, len, full, input);
            && (r.verdict.True? && r.used == |input| <==> Framed(cast, rep))
            && (Framed(cast, rep) ==> r.req == FullRequest(Meaning(m).(headers := rep.headers), rep.content))
  {
    ReplyReadBack(cast, len, full, m, rep);
    hide Run3, RequestLine, AfterStatus, ScanLength;
    assert rep.content[..|rep.content|] == rep.content;
  }

  lemma {:induction false} FoldsAreText(fs: seq<Fold>)
    requires forall i :: 0 <= i < |fs| ==> WfFold(fs[i])
    ensures NoCtl(FoldText(fs))
    decreases |fs|
  {
    if fs != [] { FoldsAreText(Front(fs)); }
  }

  /** The headers that a message means could have been printed. */
  lemma {:induction false} MeantIsPrintable(lines: seq<HeaderLine>)
    requires WfLines(lines) && L.AsciiValues(Headers(lines))
    ensures Printable(Headers(lines))
  {
    hide Token, AsciiOnly, WfFold;
    var hs := Headers(lines);
    forall i | 0 <= i < |hs| ensures Token(hs[i].name) && NoCtl(hs[i].value) && AsciiOnly(hs[i].value) {
      assert WfLine(lines[i]) && hs[i] == LineHeader(lines[i]);
      FoldsAreText(lines[i].folds);
    }
  }

  /** Any reply at all is read back, exactly on its last byte and with its own headers
      and content, if and only if it is printable and framed. */
  lemma {:induction false} ReadBackIff(cast: Cast, len: nat, full: FullRequest, m: Message, rep: Reply)
    requires WfMessage(m) && m.lines == [] && m.uri != []
    ensures var input := RequestLine(m) + AfterStatus(rep);
            var r := Run3(cast, Start, len, full, input);
            r.verdict.True? && r.used == |input| && r.req == FullRequest(Meaning(m).(headers := rep.headers), rep.content)
            <==> Printable(rep.headers) && Framed(cast, rep)
  {
    if Printable(rep.headers) {
      ReadBackIffFramed(cast, len, full, m, rep);
    } else {
      var input := RequestLine(m) + AfterStatus(rep);
      var r := Run3(cast, Start, len, full, input);
      hide Run3, Printable, RequestLine, AfterStatus, ScanLength;
      if r.verdict.True? && r.req == FullRequest(Meaning(m).(headers := rep.headers), rep.content) {
        var m', body := C.AcceptedIsFramed(cast, len, full, input);
        MeantIsPrintable(m'.lines);
      }
    }
  }

  /** The last Content-Length counts: it decides if every one is a number. */
  lemma {:induction false} LastLengthFrames(cast: Cast, rep: Reply, k: nat)
    requires k < |rep.headers| && IsLength(rep.headers[k])
    requires forall j :: k < j < |rep.headers| ==> !IsLength(rep.headers[j])
    requires forall i :: 0 <= i < |rep.headers| && IsLength(rep.headers[i]) ==> cast(rep.headers[i].value).Some?
    ensures Framed(cast, rep) <==> cast(rep.headers[k].value) == Some(|rep.content|)
  {
    hide IsLength, ScanLength;
    ScanLengthMeaning(cast, rep.headers);
  }

  lemma {:induction false} DigitsAreTextual(s: bytes)
    requires Digits(s)
    ensures NoCtl(s) && AsciiOnly(s)
  {
  }

  /** A reply with a page is printable and says how long its content is. */
  lemma {:induction false} PagesAreFramed(cast: Cast, status: Status, content: bytes, kind: bytes)
    requires ReadsDecimals(cast) && |content| < SIZE_LIMIT && NoCtl(kind) && AsciiOnly(kind)
    ensures Printable(Page(status, content, kind).headers) && Framed(cast, Page(status, content, kind))
  {
    hide DecimalText;
    var h0 := Header(Ascii("Content-Length"), DecimalText(|content|));
    var h1 := Header(Ascii("Content-Type"), kind);
    DigitsAreTextual(DecimalText(|content|));
    assert Front([h0, h1]) == [h0] && Front([h0]) == [];
    assert |h1.name| == 12 && |CONTENT_LENGTH()| == 14;
    assert HeadersEqual(h0.name, CONTENT_LENGTH());
    assert ScanLength(cast, [h0]) == cast(h0.value);
    StockNames();
  }

  lemma {:induction false} StockIsShort(status: Status)
    ensures |StockContent(status)| < 1000
  {
    ReasonIsShort(status);
    hide Reason, Ascii;
  }

  lemma {:induction false} ReasonIsShort(status: Status)
    ensures |Reason(status)| < 100
  {
  }

  lemma {:induction false} StockRepliesAreFramed(cast: Cast, status: Status)
    requires ReadsDecimals(cast)
    ensures Printable(Stock(status).headers) && Framed(cast, Stock(status))
  {
    StockNames();
    StockIsShort(status);
    hide Printable, Framed, StockContent;
    PagesAreFramed(cast, status, StockContent(status), Ascii("text/html"));
  }

  lemma {:induction false} StockNames()
    ensures Token(Ascii("Content-Length")) && Token(Ascii("Content-Type"))
    ensures NoCtl(Ascii("text/html")) && AsciiOnly(Ascii("text/html"))
  {
  }
}
