/** The HTTP client of boost_http_server_1: the request it writes, and how it
    reads the response. */
module HttpClient {
  import opened Bytes
  import opened Options
  import opened Text
  import opened RequestMachine
  import opened RequestGrammar
  import opened UrlDecode
  import R = Reply

  // ------------------------------------------------------------ the request

  function RequestHeaders(server: bytes): seq<Header> {
    [Header(Ascii("Host"), server), Header(Ascii("Accept"), Ascii("*/*")), Header(Ascii("Connection"), Ascii("close"))]
  }

  function RequestMessage(server: bytes, path: bytes): Message {
    Message(Ascii("GET"), path, Ascii("1"), Ascii("0"), R.LinesOf(RequestHeaders(server)))
  }

  lemma {:induction false} Literals()
    ensures Ascii("GET ") == Ascii("GET") + [SP]
    ensures Ascii(" HTTP/1.0\r\n") == [SP] + HTTP() + Ascii("1") + ['.' as int] + Ascii("0") + CRLF
    ensures Ascii("Host: ") == Ascii("Host") + [COLON, SP] && Ascii("\r\n") == CRLF
    ensures Ascii("Accept: */*\r\n") == Ascii("Accept") + [COLON, SP] + Ascii("*/*") + CRLF
    ensures Ascii("Connection: close\r\n\r\n") == Ascii("Connection") + [COLON, SP] + Ascii("close") + CRLF + CRLF
  {
  }

  lemma {:induction false} LiteralClasses()
    ensures Token(Ascii("GET")) && Token(Ascii("Host")) && Token(Ascii("Accept")) && Token(Ascii("Connection"))
    ensures NoCtl(Ascii("*/*")) && NoCtl(Ascii("close"))
    ensures Digits(Ascii("1")) && Digits(Ascii("0"))
  {
  }

  lemma {:induction false} ThreeHeaders(h0: Header, h1: Header, h2: Header)
    ensures R.HeadersBytes([h0, h1, h2]) == R.HeaderBytes(h0) + R.HeaderBytes(h1) + R.HeaderBytes(h2)
  {
    hide R.HeaderBytes;
    assert Front([h0, h1, h2]) == [h0, h1] && Front([h0, h1]) == [h0] && Front([h0]) == [];
    assert [] + R.HeaderBytes(h0) == R.HeaderBytes(h0);
    assert R.HeadersBytes([h0]) == R.HeaderBytes(h0);
    assert R.HeadersBytes([h0, h1]) == R.HeaderBytes(h0) + R.HeaderBytes(h1);
  }

  lemma {:induction false} TextJoins(get: bytes, path: bytes, version: bytes, host: bytes, server: bytes, accept: bytes, close: bytes)
    ensures get + [SP] + path + ([SP] + version + CRLF) + (host + [COLON, SP]) + server + CRLF + accept + (close + CRLF)
         == get + [SP] + path + [SP] + version + CRLF + (host + [COLON, SP] + server + CRLF + accept + close) + CRLF
  {
    var a := get + [SP] + path;
    var b := host + [COLON, SP] + server + CRLF;
    assert a + ([SP] + version + CRLF) == a + [SP] + version + CRLF;
    assert a + [SP] + version + CRLF + (host + [COLON, SP]) + server + CRLF == a + [SP] + version + CRLF + b;
    var h := a + [SP] + version + CRLF;
    assert h + b + accept + (close + CRLF) == h + (b + accept + close) + CRLF;
  }

  /** What the constructor puts into `request_` is a message's text in the parser's
      grammar. */
  method WriteRequest(server: bytes, path: bytes) returns (request: bytes)
    ensures request == Print(RequestMessage(server, path))
  {
    request := [];
    request := request + Ascii("GET ") + path + Ascii(" HTTP/1.0\r\n");
    request := request + Ascii("Host: ") + server + Ascii("\r\n");
    request := request + Ascii("Accept: */*\r\n");
    request := request + Ascii("Connection: close\r\n\r\n");
    assert [] + Ascii("GET ") == Ascii("GET ");
    TextIsPrinted(server, path);
  }

  lemma {:induction false} TextIsPrinted(server: bytes, path: bytes)
    ensures Ascii("GET ") + path + Ascii(" HTTP/1.0\r\n") + Ascii("Host: ") + server + Ascii("\r\n")
            + Ascii("Accept: */*\r\n") + Ascii("Connection: close\r\n\r\n") == Print(RequestMessage(server, path))
  {
    Literals();
    var hs := RequestHeaders(server);
    R.BlockIsLines(hs);
    ThreeHeaders(hs[0], hs[1], hs[2]);
    RequestLineText(server, path);
    hide PrintLines, R.HeadersBytes, Ascii, HTTP, RequestLine;
    TextJoins(Ascii("GET"), path, HTTP() + Ascii("1") + ['.' as int] + Ascii("0"), Ascii("Host"), server,
              R.HeaderBytes(hs[1]), R.HeaderBytes(hs[2]));
  }

  /** The message is well formed exactly for a host without control bytes and a path
      that has no space either. */
  lemma {:induction false} WellFormedIff(server: bytes, path: bytes)
    ensures WfMessage(RequestMessage(server, path)) <==> NoCtl(server) && UriBytes(path)
  {
    LiteralClasses();
    var hs := RequestHeaders(server);
    var m := RequestMessage(server, path);
    assert m.lines[0] == HeaderLine(hs[0].name, server, []);
    hide Ascii, Token, NoCtl, Digits, UriBytes;
    assert WfLine(m.lines[0]) <==> NoCtl(server);
    assert WfLine(m.lines[1]) && WfLine(m.lines[2]);
  }

  lemma {:induction false} RequestLineText(server: bytes, path: bytes)
    ensures RequestLine(RequestMessage(server, path))
         == Ascii("GET") + [SP] + path + [SP] + (HTTP() + Ascii("1") + ['.' as int] + Ascii("0")) + CRLF
    ensures [SP] + HTTP() + Ascii("1") + ['.' as int] + Ascii("0") == [SP] + (HTTP() + Ascii("1") + ['.' as int] + Ascii("0"))
  {
    hide Ascii, HTTP;
    var x := Ascii("GET") + [SP] + path + [SP];
    assert x + HTTP() + Ascii("1") + ['.' as int] + Ascii("0") == x + (HTTP() + Ascii("1") + ['.' as int] + Ascii("0"));
  }

  /** From a byte string to the server and back: whatever percent-encoding of it
      the client is given, the machine accepts the client's request exactly on
      its last byte, and decoding the URI it parsed gives the byte string. */
  lemma {:induction false} PathEndToEnd(hex: Hex, was: Request, server: bytes, ws: seq<Writing>, p: bytes)
    requires Fresh(was) && NoCtl(server) && ReadsHexPairs(hex)
    requires Encodes(ws, p) && UriBytes(Encode(ws, p))
    ensures var text := Print(RequestMessage(server, Encode(ws, p)));
            var r := Run(MethodStart, was, text);
            && r.verdict.True? && r.used == |text|
            && r.req == Request(Ascii("GET"), Encode(ws, p), 1, 0, RequestHeaders(server))
            && Decode(hex, r.req.uri) == Some(p)
  {
    hide Step, Run, Decode, WfMessage, Print, UriBytes;
    var m := RequestMessage(server, Encode(ws, p));
    WellFormedIff(server, Encode(ws, p));
    MessageIsAccepted(was, m, []);
    assert Print(m) + [] == Print(m);
    R.LinesMeanHeaders(RequestHeaders(server));
    OneAndZero();
    DecodeInvertsEncode(hex, ws, p);
  }

  lemma {:induction false} OneAndZero()
    ensures Decimal(Ascii("1")) == 1 && Decimal(Ascii("0")) == 0
  {
    assert Front(Ascii("1")) == [] && Front(Ascii("0")) == [];
  }

  /** The encoding is free of spaces and control bytes exactly when no byte is
      written raw that is one. */
  lemma {:induction false} EncodingIsUri(ws: seq<Writing>, p: bytes)
    requires Encodes(ws, p)
    ensures UriBytes(Encode(ws, p)) <==> forall i :: 0 <= i < |p| && ws[i].Raw? ==> !CtlByte(p[i]) && p[i] != SP
    decreases |p|
  {
    if p != [] {
      EncodingIsUri(ws[1..], p[1..]);
      UriConcat(Written(ws[0], p[0]), Encode(ws[1..], p[1..]));
      WrittenIsUri(ws[0], p[0]);
      hide UriBytes, CtlByte, Encode;
      assert forall i :: 1 <= i < |p| ==> ws[i] == ws[1..][i - 1] && p[i] == p[1..][i - 1];
      assert Encode(ws, p) == Written(ws[0], p[0]) + Encode(ws[1..], p[1..]) by { EncodeStep(ws, p); }
    }
  }

  lemma {:induction false} EncodeStep(ws: seq<Writing>, p: bytes)
    requires |ws| == |p| && p != []
    ensures Encode(ws, p) == Written(ws[0], p[0]) + Encode(ws[1..], p[1..])
  {
  }

  lemma {:induction false} UriConcat(a: bytes, b: bytes)
    ensures UriBytes(a + b) <==> UriBytes(a) && UriBytes(b)
  {
    hide CtlByte;
    assert forall i :: 0 <= i < |a| ==> (a + b)[i] == a[i];
    assert forall i :: 0 <= i < |b| ==> (a + b)[|a| + i] == b[i];
  }

  lemma {:induction false} WrittenIsUri(w: Writing, b: byte)
    requires Writes(w, b)
    ensures UriBytes(Written(w, b)) <==> w.Raw? ==> !CtlByte(b) && b != SP
  {
    assert w.Raw? ==> Written(w, b)[0] == b;
  }

  // ----------------------------------------------------------- the response

  /** The length of the leading part of s without white space. */
  function WordLength(s: bytes): (n: nat)
    ensures n <= |s|
  {
    if s == [] || IsSpace(s[0]) then 0 else 1 + WordLength(s[1..])
  }

  const UINT_LIMIT := 0x1_0000_0000

  /** Extracting an `unsigned int`: white space, an optional sign, digits; a
      number that does not fit fails, a negated one wraps. */
  function ReadUnsigned(s: bytes): Option<(nat, bytes)> {
    var t := SkipSpaces(s);
    var minus := t != [] && t[0] == '-' as int;
    var u := if t != [] && (minus || t[0] == '+' as int) then t[1..] else t;
    var n := DigitsLength(u);
    var v := Decimal(u[..n]);
    if n == 0 || v < 0 || v >= UINT_LIMIT then None
    else Some((if minus then (UINT_LIMIT - v) % UINT_LIMIT else v, u[n..]))
  }

  /** The index of the first LF, or the length if there is none. */
  function LineLength(s: bytes): (n: nat)
    ensures n <= |s|
    ensures n < |s| ==> s[n] == LF
    ensures LF !in s[..n]
  {
    if s == [] || s[0] == LF then 0
    else
      var n := LineLength(s[1..]);
      assert s[..n + 1] == [s[0]] + s[1..][..n];
      n + 1
  }

  /** `std::getline`: the line, and what is left after its LF. */
  function GetLine(s: bytes): (bytes, bytes) {
    var n := LineLength(s);
    (s[..n], if n < |s| then s[n + 1..] else [])
  }

  datatype StatusLineRead = Invalid | NotOk(code: nat) | Proceed(rest: bytes)

  /** `handle_read_status_line` on the buffered response. */
  function ReadStatusLine(response: bytes): StatusLineRead {
    var s := SkipSpaces(response);
    var n := WordLength(s);
    if n == 0 || ReadUnsigned(s[n..]).None? || ReadUnsigned(s[n..]).value.1 == []
       || s[..if n < 5 then n else 5] != HTTP() then Invalid
    else
      var (code, rest) := ReadUnsigned(s[n..]).value;
      if code != 200 then NotOk(code) else Proceed(GetLine(rest).1)
  }

  /** The getline loop of `handle_read_headers`: the lines printed, and the bytes
      left over for the content. */
  function ReadHeaderLines(s: bytes): (seq<bytes>, bytes)
    decreases |s|
  {
    if s == [] then ([], [])
    else
      var (line, rest) := GetLine(s);
      if line == [CR] then ([], rest)
      else ([line] + ReadHeaderLines(rest).0, ReadHeaderLines(rest).1)
  }

  function LinesShown(lines: seq<bytes>): bytes {
    if lines == [] then [] else LinesShown(Front(lines)) + Last(lines) + [LF]
  }

  /** What `handle_read_headers` puts out: the lines, an empty line, and the content
      that has already arrived. */
  function HeadersShown(buffered: bytes): bytes {
    LinesShown(ReadHeaderLines(buffered).0) + [LF] + ReadHeaderLines(buffered).1
  }

  /** The output of a run of the handlers: `status` has arrived when the status line
      is handled, `headers` behind it when the headers are, then `later` by pieces. */
  function Displayed(status: bytes, headers: bytes, later: seq<bytes>): bytes {
    match ReadStatusLine(status)
    case Invalid => Ascii("Invalid response\n")
    case NotOk(code) => Ascii("Response returned with status code ") + DecimalText(code) + [LF]
    case Proceed(rest) => HeadersShown(rest + headers) + R.Gather(later)
  }

  /** The reader's side of the client: the response buffer and the standard output. */
  class ResponseReader {
    var response: bytes
    var output: bytes

    constructor ()
      ensures response == [] && output == []
    {
      response, output := [], [];
    }

    method HandleReadStatusLine() returns (goOn: bool)
      modifies this
      ensures var r := ReadStatusLine(old(response));
              && goOn == r.Proceed?
              && (r.Proceed? ==> response == r.rest && output == old(output))
              && (r.Invalid? ==> output == old(output) + Ascii("Invalid response\n"))
              && (r.NotOk? ==> output == old(output) + (Ascii("Response returned with status code ") + DecimalText(r.code) + [LF]))
    {
      hide DecimalText, Ascii, SkipSpaces, WordLength, ReadUnsigned;
      // `>> http_version`
      var stream := SkipSpaces(response);
      var n := WordLength(stream);
      var version := stream[..n];
      stream := stream[n..];
      var good := n > 0;
      // `>> status_code`
      var code := 0;
      if good {
        var number := ReadUnsigned(stream);
        match number
        case None => good := false;
        case Some((value, rest)) => code, stream := value, rest;
      }
      // The rest of the line; nothing at all to read is a failure.
      if good {
        if stream == [] {
          good := false;
        } else {
          var (_, rest) := GetLine(stream);
          stream := rest;
        }
      }
      if !good || version[..if n < 5 then n else 5] != HTTP() {
        output := output + Ascii("Invalid response\n");
        return false;
      }
      if code != 200 {
        output := output + (Ascii("Response returned with status code ") + DecimalText(code) + [LF]);
        return false;
      }
      response := stream;
      return true;
    }

    /** `std::cout << &response_` empties the buffer into the output. */
    method ShowContent()
      modifies this
      ensures response == [] && output == old(output + response)
    {
      output := output + response;
      response := [];
    }

    method HandleReadHeaders()
      modifies this
      ensures response == [] && output == old(output) + HeadersShown(old(response))
    {
      ghost var (lines, rest) := ReadHeaderLines(response);
      ghost var shown: seq<bytes> := [];
      var more := true;
      assert output + [] == output && [] + lines == lines;
      while more && response != []
        invariant output == old(output) + LinesShown(shown)
        invariant more ==> shown + ReadHeaderLines(response).0 == lines && ReadHeaderLines(response).1 == rest
        invariant !more ==> shown == lines && response == rest
        decreases more, |response|
      {
        var n := LineLength(response);
        var line := response[..n];
        response := if n < |response| then response[n + 1..] else [];
        if line == [CR] {
          assert shown + [] == shown;
          more := false;
        } else {
          output := output + line + [LF];
          assert Front(shown + [line]) == shown;
          Assoc(old(output), LinesShown(shown), line);
          Assoc(old(output), LinesShown(shown) + line, [LF]);
          Assoc(shown, [line], ReadHeaderLines(response).0);
          shown := shown + [line];
        }
      }
      if more { assert shown + [] == shown; }
      output := output + [LF];
      Assoc(old(output), LinesShown(lines), [LF]);
      Assoc(old(output), LinesShown(lines) + [LF], rest);
      if response != [] {
        ShowContent();
      } else {
        assert LinesShown(lines) + [LF] + rest == LinesShown(lines) + [LF];
      }
    }

    method HandleReadContent(data: bytes)
      modifies this
      ensures response == [] && output == old(output + response) + data
    {
      response := response + data;
      Assoc(output, old(response), data);
      ShowContent();
    }

    /** A run of the handlers over what has arrived when each is called. */
    method Receive(status: bytes, headers: bytes, later: seq<bytes>)
      requires response == [] && output == []
      modifies this
      ensures output == Displayed(status, headers, later)
    {
      hide HeadersShown, ReadStatusLine, DecimalText, Ascii;
      response := response + status;
      assert [] + status == status;
      var goOn := HandleReadStatusLine();
      if !goOn { return; }
      response := response + headers;
      HandleReadHeaders();
      ghost var shown := output;
      var i := 0;
      assert later[..0] == [] && shown + [] == shown;
      while i < |later|
        invariant 0 <= i <= |later| && response == [] && output == shown + R.Gather(later[..i])
      {
        HandleReadContent(later[i]);
        assert Front(later[..i + 1]) == later[..i];
        Assoc(shown, R.Gather(later[..i]), later[i]);
        i := i + 1;
      }
      assert later[..i] == later;
    }
  }

  // ------------------------------------------------- reading a reply back

  predicate NoLf(headers: seq<Header>) {
    forall i :: 0 <= i < |headers| ==> LF !in headers[i].name && LF !in headers[i].value
  }

  /** The line printed for a header: its name, its value and the CR. */
  function HeaderText(h: Header): bytes {
    h.name + [COLON, SP] + h.value + [CR]
  }

  function HeaderTexts(headers: seq<Header>): seq<bytes> {
    seq(|headers|, i requires 0 <= i < |headers| => HeaderText(headers[i]))
  }

  lemma {:induction false} LineLengthOf(line: bytes, rest: bytes)
    requires LF !in line
    ensures LineLength(line + [LF] + rest) == |line|
    decreases |line|
  {
    if line == [] {
      assert ([] + [LF] + rest)[0] == LF;
    } else {
      LineLengthOf(line[1..], rest);
      assert (line + [LF] + rest)[1..] == line[1..] + [LF] + rest;
    }
  }

  lemma {:induction false} LineOf(line: bytes, rest: bytes)
    requires LF !in line
    ensures GetLine(line + [LF] + rest) == (line, rest)
  {
    LineLengthOf(line, rest);
    var s := line + [LF] + rest;
    assert s[..|line|] == line && s[|line| + 1..] == rest;
  }

  lemma {:induction false} WordOf(word: bytes, rest: bytes)
    requires forall i :: 0 <= i < |word| ==> !IsSpace(word[i])
    requires rest != [] && IsSpace(rest[0])
    ensures WordLength(word + rest) == |word|
    decreases |word|
  {
    if word == [] {
      assert word + rest == rest;
    } else {
      WordOf(word[1..], rest);
      assert (word + rest)[1..] == word[1..] + rest;
    }
  }

  lemma {:induction false} WordTaken(s: bytes)
    ensures var n := WordLength(s);
            (forall i :: 0 <= i < n ==> !IsSpace(s[i])) && (n < |s| ==> IsSpace(s[n]))
    decreases |s|
  {
    if s != [] && !IsSpace(s[0]) {
      WordTaken(s[1..]);
      assert forall i :: 0 < i < WordLength(s) ==> s[i] == s[1..][i - 1];
    }
  }

  /** The number, of 32 bits, that a shape spells, and whether it can be extracted. */
  predicate Fits(p: Numeral) {
    p.digits != [] && 0 <= Decimal(p.digits) < 0x1_0000_0000
  }

  function Value32(p: Numeral): int {
    if p.sign == ['-' as int] && Decimal(p.digits) != 0 then 0x1_0000_0000 - Decimal(p.digits) else Decimal(p.digits)
  }

  lemma {:induction false} UnsignedRead(p: Numeral)
    requires IsNumeral(p)
    ensures ReadUnsigned(TextOf(p)) == if Fits(p) then Some((Value32(p), p.rest)) else None
  {
    var u := ScanOf(p);
    assert p.sign == [] || p.sign == ['+' as int] || p.sign == ['-' as int];
    hide SkipSpaces, DigitsLength, TextOf, Decimal, IsNumeral, Digits;
    assert p.sign == [] ==> p.sign + u == u;
    assert p.sign != [] ==> (p.sign + u)[1..] == u;
    Wraps(Decimal(p.digits));
  }

  lemma {:induction false} Wraps(v: int)
    ensures 0 <= v < UINT_LIMIT ==> (UINT_LIMIT - v) % UINT_LIMIT == if v == 0 then 0 else UINT_LIMIT - v
  {
  }

  /** A response that begins like HTTP: white space, a word that begins with `HTTP/`,
      white space, a number of 32 bits with or without a sign, and at least one byte
      behind it. */
  datatype Beginning = Beginning(lead: bytes, word: bytes, number: Numeral)

  function Spell(b: Beginning): bytes {
    b.lead + b.word + TextOf(b.number)
  }

  predicate LooksRight(b: Beginning) {
    && Spaces(b.lead) && (forall i :: 0 <= i < |b.word| ==> !IsSpace(b.word[i])) && Ascii("HTTP/") <= b.word
    && IsNumeral(b.number) && b.number.lead != [] && Fits(b.number) && b.number.rest != []
  }

  lemma {:induction false} SlashText()
    ensures Ascii("HTTP/") == HTTP() && |HTTP()| == 5
  {
  }

  lemma {:induction false} LeadFirst(p: Numeral)
    requires IsNumeral(p) && TextOf(p) != [] && IsSpace(TextOf(p)[0])
    ensures p.lead != []
  {
  }

  /** A response of that form is taken for its number: 200 and the reading goes on
      behind the line, anything else and it ends there. */
  lemma {:induction false} BeginningRead(b: Beginning)
    requires LooksRight(b)
    ensures ReadStatusLine(Spell(b)) ==
            if Value32(b.number) == 200 then Proceed(GetLine(b.number.rest).1) else NotOk(Value32(b.number))
  {
    var text := TextOf(b.number);
    assert text != [] && IsSpace(text[0]) by { assert text[0] == b.number.lead[0]; }
    var s := b.word + text;
    SlashText();
    assert s[0] == b.word[0] && !IsSpace(s[0]);
    WordOf(b.word, text);
    UnsignedRead(b.number);
    hide TextOf, IsNumeral, Fits, Value32, ReadUnsigned, Ascii, HTTP;
    assert Spell(b) == b.lead + s;
    SpacesSkipped(b.lead, s);
    assert s[|b.word|..] == text && s[..5] == b.word[..5];
    hide SkipSpaces, WordLength, GetLine, Spell, IsSpace, Spaces;
  }

  lemma {:induction false} PartsOf(response: bytes) returns (lead: bytes, word: bytes, text: bytes)
    requires !ReadStatusLine(response).Invalid?
    ensures response == lead + word + text && Spaces(lead) && (text != [] ==> IsSpace(text[0]))
    ensures (forall i :: 0 <= i < |word| ==> !IsSpace(word[i])) && Ascii("HTTP/") <= word
    ensures ReadUnsigned(text).Some? && ReadUnsigned(text).value.1 != []
  {
    lead := LeadOf(response);
    var s := SkipSpaces(response);
    WordTaken(s);
    SlashText();
    word, text := s[..WordLength(s)], s[WordLength(s)..];
    hide SkipSpaces, WordLength, ReadUnsigned, Ascii, HTTP, IsSpace, Spaces;
    assert s == word + text;
    assert lead + word + text == lead + (word + text);
  }

  lemma {:induction false} FindBeginning(response: bytes) returns (b: Beginning)
    requires !ReadStatusLine(response).Invalid?
    ensures LooksRight(b) && Spell(b) == response
  {
    var lead, word, text := PartsOf(response);
    var number := EveryText(text);
    UnsignedRead(number);
    b := Beginning(lead, word, number);
    assert Fits(number) && number.rest != [] by { hide Fits, TextOf, IsNumeral; }
    assert text != [] by {
      if text == [] { EmptyNumeral(number); }
    }
    LeadFirst(number);
    hide IsNumeral, TextOf, IsSpace, ReadUnsigned, Value32, Decimal, Ascii, ReadStatusLine;
  }

  lemma {:induction false} EmptyNumeral(p: Numeral)
    requires TextOf(p) == []
    ensures p.digits == []
  {
  }

  /** And no other: every other response is reported as invalid. */
  lemma {:induction false} InvalidIff(response: bytes)
    ensures ReadStatusLine(response).Invalid? <==> !exists b :: LooksRight(b) && Spell(b) == response
  {
    hide *;
    if !ReadStatusLine(response).Invalid? {
      var b := FindBeginning(response);
    }
    forall b | LooksRight(b) && Spell(b) == response ensures !ReadStatusLine(response).Invalid? {
      BeginningRead(b);
    }
  }

  /** The numbers of the statuses. */
  function Number(status: R.Status): nat {
    match status
    case Ok => 200
    case Created => 201
    case Accepted => 202
    case NoContent => 204
    case MultipleChoices => 300
    case MovedPermanently => 301
    case MovedTemporarily => 302
    case NotModified => 304
    case BadRequest => 400
    case Unauthorized => 401
    case Forbidden => 403
    case NotFound => 404
    case InternalServerError => 500
    case NotImplemented => 501
    case BadGateway => 502
    case ServiceUnavailable => 503
  }

  lemma {:induction false} ReasonBegins(status: R.Status)
    ensures var t, n := R.Reason(status), Number(status);
            && |t| >= 4 && t[0] as int == 48 + n / 100 && t[1] as int == 48 + n / 10 % 10 && t[2] as int == 48 + n % 10
            && t[3] == ' '
  {
  }

  lemma {:induction false} ThreeDigits(t: bytes, n: nat)
    requires n < 1000 && |t| >= 3
    requires t[0] == 48 + n / 100 && t[1] == 48 + n / 10 % 10 && t[2] == 48 + n % 10
    ensures Digits(t[..3]) && Decimal(t[..3]) == n
  {
    var a, b, c := t[0], t[1], t[2];
    assert t[..3] == [a, b, c];
    assert Front([a, b, c]) == [a, b] && Front([a, b]) == [a] && Front([a]) == [];
    assert Decimal([a]) == a - 48;
    assert Decimal([a, b]) == (a - 48) * 10 + b - 48;
  }

  /** The status line of any reply, whatever has arrived behind it, is taken for the
      status it is: only ok is a success, and any other is reported by its number. */
  lemma {:induction false} StatusLinesRead(status: R.Status, more: bytes)
    ensures ReadStatusLine(R.StatusLine(status) + more) == if status.Ok? then Proceed(more) else NotOk(Number(status))
  {
    var b := BeginningOf(status, more);
    assert Number(status) == 200 <==> status.Ok?;
    BeginningRead(b);
    if status.Ok? {
      OkLineEnds(more);
    }
    hide ReadStatusLine, LooksRight, R.StatusLine, Spell, Value32;
  }

  lemma {:induction false} OkLineEnds(more: bytes)
    ensures GetLine((Ascii(R.Reason(R.Ok)) + CRLF)[3..] + more).1 == more
  {
    assert (Ascii(R.Reason(R.Ok)) + CRLF)[3..] == [SP, 79, 75, CR] + [LF];
    LineOf([SP, 79, 75, CR], more);
  }

  lemma {:induction false} BeginningOf(status: R.Status, more: bytes) returns (b: Beginning)
    ensures LooksRight(b) && Spell(b) == R.StatusLine(status) + more
    ensures Value32(b.number) == Number(status) && b.number.rest == (Ascii(R.Reason(status)) + CRLF)[3..] + more
  {
    CodeOf(status);
    hide *;
    var t := Ascii(R.Reason(status));
    b := Beginning([], Ascii("HTTP/1.0"), Numeral([SP], [], t[..3], (t + CRLF)[3..] + more));
    BeginningRight(b, t, more);
  }

  lemma {:induction false} CodeOf(status: R.Status)
    ensures var t := Ascii(R.Reason(status));
            && |t| >= 4 && t[3] == SP && Digits(t[..3]) && 0 <= Decimal(t[..3]) == Number(status) < 1000
            && R.StatusLine(status) == Ascii("HTTP/1.0 ") + t + CRLF
  {
    ReasonBegins(status);
    assert Number(status) < 1000;
    hide R.Reason, Number, Decimal, Digits;
    ThreeDigits(Ascii(R.Reason(status)), Number(status));
  }

  lemma {:induction false} BeginningRight(b: Beginning, t: bytes, more: bytes)
    requires |t| >= 4 && t[3] == SP && Digits(t[..3]) && 0 <= Decimal(t[..3]) < 1000
    requires b == Beginning([], Ascii("HTTP/1.0"), Numeral([SP], [], t[..3], (t + CRLF)[3..] + more))
    ensures LooksRight(b) && Spell(b) == Ascii("HTTP/1.0 ") + t + CRLF + more && Value32(b.number) == Decimal(t[..3])
  {
    var word := Ascii("HTTP/1.0");
    assert Ascii("HTTP/") <= word && Ascii("HTTP/1.0 ") == word + [SP];
    assert forall i :: 0 <= i < 8 ==> !IsSpace(word[i]);
    hide Ascii, Decimal, Digits;
    assert Spell(b) == word + [SP] + (t[..3] + ((t + CRLF)[3..] + more));
    assert t[..3] + (t + CRLF)[3..] == t + CRLF;
    assert b.number.rest[0] == SP;
  }

  function Block(headers: seq<Header>): bytes {
    R.HeadersBytes(headers) + CRLF
  }

  /** The block from its first header on. */
  lemma {:induction false} BlockSplits(headers: seq<Header>)
    requires headers != []
    ensures Block(headers) == R.HeaderBytes(headers[0]) + Block(headers[1..])
    decreases |headers|
  {
    hide R.HeaderBytes;
    if |headers| == 1 {
      assert Front(headers) == [] && headers[1..] == [];
      assert R.HeadersBytes(headers) == [] + R.HeaderBytes(headers[0]);
      assert R.HeadersBytes([]) + CRLF == CRLF;
    } else {
      BlockSplits(Front(headers));
      assert Front(headers)[1..] == Front(headers[1..]) && Last(headers[1..]) == Last(headers);
      var x, y, z := R.HeaderBytes(headers[0]), R.HeadersBytes(Front(headers[1..])), R.HeaderBytes(Last(headers));
      assert R.HeadersBytes(Front(headers)) == x + y by { DropEnd(R.HeadersBytes(Front(headers)), x, y, CRLF); }
      Assoc(x, y, z);
      Assoc(x, y + z, CRLF);
    }
  }

  lemma {:induction false} DropEnd(a: bytes, x: bytes, y: bytes, end: bytes)
    requires a + end == x + (y + end)
    ensures a == x + y
  {
    assert a == (a + end)[..|a|] && x + y == (x + (y + end))[..|x| + |y|];
  }

  lemma {:induction false} HeaderLineRead(h: Header, rest: bytes)
    requires LF !in h.name && LF !in h.value
    ensures ReadHeaderLines(R.HeaderBytes(h) + rest) == ([HeaderText(h)] + ReadHeaderLines(rest).0, ReadHeaderLines(rest).1)
  {
    var s := R.HeaderBytes(h) + rest;
    assert s == HeaderText(h) + [LF] + rest;
    assert LF !in HeaderText(h) && HeaderText(h) != [CR];
    LineOf(HeaderText(h), rest);
    hide GetLine, R.HeaderBytes, HeaderText;
  }

  /** The getline loop inverts the printer: one line a header, in order, and what
      is left over is exactly what came after the blank line. */
  lemma {:induction false} BlockRead(headers: seq<Header>, more: bytes)
    requires NoLf(headers)
    ensures ReadHeaderLines(Block(headers) + more) == (HeaderTexts(headers), more)
    decreases |headers|
  {
    hide R.HeaderBytes, GetLine, HeaderText, LineLength;
    if headers == [] {
      BlankLineRead(more);
    } else {
      var h, rest := headers[0], Block(headers[1..]) + more;
      BlockSplits(headers);
      BlockRead(headers[1..], more);
      HeaderLineRead(h, rest);
      hide Block, ReadHeaderLines;
      Assoc(R.HeaderBytes(h), Block(headers[1..]), more);
      assert HeaderTexts(headers) == [HeaderText(h)] + HeaderTexts(headers[1..]);
    }
  }

  lemma {:induction false} BlankLineRead(more: bytes)
    ensures ReadHeaderLines(Block([]) + more) == ([], more)
  {
    assert Block([]) + more == [CR] + [LF] + more;
    LineOf([CR], more);
  }

  // ------------------------------------- when the header handler is called

  predicate BlankAt(s: bytes, i: nat) {
    i + 4 <= |s| && s[i] == CR && s[i + 1] == LF && s[i + 2] == CR && s[i + 3] == LF
  }

  /** `async_read_until(socket, buffer, "\r\n\r\n")` has something to report. */
  predicate HasBlankLine(s: bytes) {
    exists i :: 0 <= i < |s| && BlankAt(s, i)
  }

  lemma {:induction false} LineFeedsEndLines(h: Header, i: nat)
    requires LF !in h.name && LF !in h.value && i < |R.HeaderBytes(h)| && R.HeaderBytes(h)[i] == LF
    ensures i == |R.HeaderBytes(h)| - 1
  {
  }

  lemma {:induction false} BlockStarts(headers: seq<Header>, more: bytes)
    requires NoLf(headers) && headers != []
    ensures |Block(headers)| > 2 && !((Block(headers) + more)[0] == CR && (Block(headers) + more)[1] == LF)
  {
    BlockSplits(headers);
    var x := R.HeaderBytes(headers[0]);
    assert Block(headers)[0] == x[0] && Block(headers)[1] == x[1];
    if x[1] == LF { LineFeedsEndLines(headers[0], 1); }
  }

  /** In a header line and what follows it, a blank line starts after the line, or
      with its last two bytes. */
  lemma {:induction false} BlankNearLine(h: Header, t: bytes, i: nat)
    requires LF !in h.name && LF !in h.value && BlankAt(R.HeaderBytes(h) + t, i)
    ensures var n := |R.HeaderBytes(h)|;
            i >= n || (i == n - 2 && |t| >= 2 && t[0] == CR && t[1] == LF)
  {
    var x := R.HeaderBytes(h);
    if i + 1 < |x| {
      assert x[i + 1] == (x + t)[i + 1];
      LineFeedsEndLines(h, i + 1);
      assert (x + t)[i + 2] == t[0] && (x + t)[i + 3] == t[1];
    }
  }

  /** A blank line cannot show up before the end of the header block. */
  lemma {:induction false} NoEarlyBlank(headers: seq<Header>, more: bytes, i: nat)
    requires NoLf(headers) && BlankAt(Block(headers) + more, i)
    ensures i + 4 >= |Block(headers)|
    decreases |headers|
  {
    if headers != [] {
      var x, rest := R.HeaderBytes(headers[0]), Block(headers[1..]) + more;
      BlockSplits(headers);
      Assoc(x, Block(headers[1..]), more);
      BlankNearLine(headers[0], rest, i);
      if i >= |x| {
        var j := i - |x|;
        assert (x + rest)[i] == rest[j] && (x + rest)[i + 1] == rest[j + 1];
        assert (x + rest)[i + 2] == rest[j + 2] && (x + rest)[i + 3] == rest[j + 3];
        NoEarlyBlank(headers[1..], more, j);
      } else if headers[1..] != [] {
        BlockStarts(headers[1..], more);
      }
    }
  }

  lemma {:induction false} BlockEnds(headers: seq<Header>)
    requires headers != []
    ensures |Block(headers)| >= 4 && BlankAt(Block(headers), |Block(headers)| - 4)
  {
    var h := Last(headers);
    var x := R.HeadersBytes(Front(headers)) + (h.name + [COLON, SP] + h.value);
    assert Block(headers) == x + [CR, LF, CR, LF];
    var n := |x|;
    assert Block(headers)[n] == [CR, LF, CR, LF][0];
  }

  /** The handler is never called before the whole header block has arrived. */
  lemma {:induction false} NotCalledEarly(headers: seq<Header>, content: bytes, arrived: nat)
    requires NoLf(headers) && arrived <= |Block(headers) + content|
    requires HasBlankLine((Block(headers) + content)[..arrived])
    ensures arrived >= |Block(headers)|
  {
    var s := (Block(headers) + content)[..arrived];
    var i: nat :| i < |s| && BlankAt(s, i);
    var all := Block(headers) + content;
    assert forall k :: 0 <= k < |s| ==> s[k] == all[k];
    assert BlankAt(all, i);
    NoEarlyBlank(headers, content, i);
  }

  /** With at least one header, it is called exactly when the block has arrived. */
  lemma {:induction false} CalledWhenBlockArrived(headers: seq<Header>, content: bytes, arrived: nat)
    requires NoLf(headers) && headers != [] && arrived <= |Block(headers) + content|
    ensures HasBlankLine((Block(headers) + content)[..arrived]) <==> arrived >= |Block(headers)|
  {
    if HasBlankLine((Block(headers) + content)[..arrived]) {
      NotCalledEarly(headers, content, arrived);
    }
    if arrived >= |Block(headers)| {
      var s := (Block(headers) + content)[..arrived];
      var n := |Block(headers)|;
      var block := Block(headers);
      BlockEnds(headers);
      assert s[n - 4] == block[n - 4] && s[n - 3] == block[n - 3] && s[n - 2] == block[n - 2] && s[n - 1] == block[n - 1];
      assert BlankAt(s, n - 4);
    }
  }

  predicate StartsBlank(s: bytes) {
    |s| >= 2 && s[0] == CR && s[1] == LF
  }

  lemma {:induction false} BlankBehindLine(content: bytes, i: nat)
    ensures BlankAt(CRLF + content, i + 2) <==> BlankAt(content, i)
    ensures BlankAt(CRLF + content, 0) <==> StartsBlank(content)
    ensures !BlankAt(CRLF + content, 1)
  {
    var s := CRLF + content;
    assert s[0] == CR && s[1] == LF && forall k :: 0 <= k < |content| ==> s[k + 2] == content[k];
    if i + 4 <= |content| {
      assert s[i + 2] == content[i] && s[i + 3] == content[i + 1] && s[i + 4] == content[i + 2] && s[i + 5] == content[i + 3];
    }
    if |content| >= 2 {
      assert s[2] == content[0] && s[3] == content[1];
    }
  }

  /** Without headers, only the content can bring the second line end that the
      client waits for: at its very start, or by a blank line of its own. */
  lemma {:induction false} CalledWithoutHeadersIff(content: bytes)
    ensures HasBlankLine(Block([]) + content) <==> HasBlankLine(content) || StartsBlank(content)
  {
    assert Block([]) == CRLF;
    var s := CRLF + content;
    BlankBehindLine(content, 0);
    hide BlankAt, StartsBlank, Block;
    if HasBlankLine(s) {
      var i: nat :| i < |s| && BlankAt(s, i);
      if i >= 2 { BlankBehindLine(content, i - 2); }
    }
    if HasBlankLine(content) {
      var i: nat :| i < |content| && BlankAt(content, i);
      BlankBehindLine(content, i);
    }
  }

  /** Exactly which replies the header handler is ever called for. */
  lemma {:induction false} CalledIff(headers: seq<Header>, content: bytes)
    requires NoLf(headers)
    ensures HasBlankLine(Block(headers) + content) <==> headers != [] || HasBlankLine(content) || StartsBlank(content)
  {
    if headers == [] {
      CalledWithoutHeadersIff(content);
    } else {
      var all := Block(headers) + content;
      assert all[..|all|] == all;
      CalledWhenBlockArrived(headers, content, |all|);
    }
  }

  /** The client reads a printed reply back: for a reply with status ok and no LF in
      header names or values, whatever has arrived when each handler is called, the
      status line is accepted, one line a header is read, and the bytes left over
      are what has arrived of the content. */
  lemma {:induction false} ReplyReadByClient(rep: R.Reply, first: nat, second: nat)
    requires rep.status == R.Ok && NoLf(rep.headers)
    requires |R.StatusLine(R.Ok)| <= first <= second <= |R.PrintReply(rep)|
    ensures var all, n := R.PrintReply(rep), |R.StatusLine(R.Ok)|;
            && ReadStatusLine(all[..first]) == Proceed(all[n..first])
            && (HasBlankLine(all[n..second]) ==>
                  && ReadHeaderLines(all[n..second]).0 == HeaderTexts(rep.headers)
                  && ReadHeaderLines(all[n..second]).1 + all[second..] == rep.content)
  {
    hide ReadStatusLine, ReadHeaderLines, HasBlankLine, R.StatusLine, NoLf, Block;
    var all, line := R.PrintReply(rep), R.StatusLine(R.Ok);
    var n, block := |line|, Block(rep.headers);
    assert R.AfterStatus(rep) == block + rep.content by { BlockThenContent(rep); }
    assert all[..first] == line + all[n..first];
    StatusLinesRead(R.Ok, all[n..first]);
    assert all[n..second] == (block + rep.content)[..second - n];
    if HasBlankLine(all[n..second]) {
      NotCalledEarly(rep.headers, rep.content, second - n);
      var more := rep.content[..second - n - |block|];
      assert all[n..second] == block + more;
      BlockRead(rep.headers, more);
      assert more + all[second..] == rep.content;
    }
  }

  lemma {:induction false} BlockThenContent(rep: R.Reply)
    ensures R.AfterStatus(rep) == Block(rep.headers) + rep.content
  {
  }

  /** The header lines are shown as they were sent. */
  lemma {:induction false} ShownTexts(headers: seq<Header>)
    ensures LinesShown(HeaderTexts(headers)) == R.HeadersBytes(headers)
    decreases |headers|
  {
    if headers != [] {
      ShownTexts(Front(headers));
      assert Front(HeaderTexts(headers)) == HeaderTexts(Front(headers));
      var h := Last(headers);
      assert HeaderText(h) + [LF] == R.HeaderBytes(h);
      hide R.HeaderBytes, HeaderText;
      Assoc(R.HeadersBytes(Front(headers)), HeaderText(h), [LF]);
    }
  }

  /** What the client shows of an ok reply, by the time `status`, `headers` and the
      pieces `later` of it have arrived and `rest` has not: one line a header, an
      empty line, and what has arrived of the content. */
  lemma {:induction false} ReplyShown(rep: R.Reply, status: bytes, headers: bytes, later: seq<bytes>, rest: bytes)
    requires rep.status == R.Ok && NoLf(rep.headers)
    requires status + headers + R.Gather(later) + rest == R.PrintReply(rep)
    requires |R.StatusLine(R.Ok)| <= |status| && HasBlankLine((status + headers)[|R.StatusLine(R.Ok)|..])
    ensures Displayed(status, headers, later) + rest == R.HeadersBytes(rep.headers) + [LF] + rep.content
  {
    ShownTexts(rep.headers);
    hide ReadStatusLine, ReadHeaderLines, HasBlankLine, R.StatusLine, NoLf, R.PrintReply, LinesShown, R.Gather;
    var all, n := R.PrintReply(rep), |R.StatusLine(R.Ok)|;
    var first, second := |status|, |status + headers|;
    assert all[..first] == status && all[n..second] == (status + headers)[n..] == all[n..first] + headers;
    assert all[second..] == R.Gather(later) + rest;
    ReplyReadByClient(rep, first, second);
    var (lines, left) := ReadHeaderLines(all[n..second]);
    var shown := LinesShown(lines) + [LF];
    assert Displayed(status, headers, later) == shown + left + R.Gather(later);
    assert shown + left + R.Gather(later) + rest == shown + (left + (R.Gather(later) + rest));
  }

  /** Exactly which ok replies are ever read: those with a header, and those whose
      content brings the missing line end. Those are shown whole. */
  lemma {:induction false} ReadIff(rep: R.Reply)
    requires rep.status == R.Ok && NoLf(rep.headers)
    ensures HasBlankLine(R.AfterStatus(rep)) <==> rep.headers != [] || HasBlankLine(rep.content) || StartsBlank(rep.content)
    ensures HasBlankLine(R.AfterStatus(rep)) ==>
              Displayed(R.StatusLine(R.Ok), R.AfterStatus(rep), []) == R.HeadersBytes(rep.headers) + [LF] + rep.content
  {
    BlockThenContent(rep);
    CalledIff(rep.headers, rep.content);
    hide HasBlankLine, StartsBlank, Block, R.StatusLine, Displayed, NoLf, R.AfterStatus;
    var status, more := R.StatusLine(R.Ok), R.AfterStatus(rep);
    if HasBlankLine(more) {
      assert (status + more)[|status|..] == more;
      assert status + more + R.Gather([]) + [] == R.PrintReply(rep);
      ReplyShown(rep, status, more, [], []);
      assert Displayed(status, more, []) + [] == Displayed(status, more, []);
    }
  }

  /** A reply it is not called for: neither header nor content. */
  lemma {:induction false} EmptyReplyUnread()
    ensures var rep := R.Reply(R.Ok, [], []);
            NoLf(rep.headers) && R.AfterStatus(rep) == CRLF && !HasBlankLine(R.AfterStatus(rep))
  {
    var rep := R.Reply(R.Ok, [], []);
    assert R.AfterStatus(rep) == CRLF;
  }
}
