/** The handler that turns a request into a file's contents or a stock reply. The
    file system is a parameter: what opening a path yields. The last theorem is the
    programs' purpose: a client fetches a file, however the bytes are cut up. */
module FileHandler {
  import opened Bytes
  import opened Options
  import opened Text
  import opened RequestMachine
  import R = Reply
  import U = UrlDecode
  import H = HttpClient
  import G = RequestGrammar
  import Life = Lifecycle
  import F = ForkingServer
  import P = RequestCoroutine
  import C = CoroutineLanguage
  import L = Lockstep

  const DOT: byte := 46
  const SLASH: byte := 47
  const CHUNK: nat := 512

  /** Document root, library hexadecimal input, and the contents of the files. */
  datatype Site = Site(root: bytes, hex: U.Hex, files: bytes -> Option<bytes>)

  predicate HasDots(s: bytes) {
    exists k :: 0 <= k < |s| - 1 && s[k] == DOT && s[k + 1] == DOT
  }

  predicate Servable(path: bytes) {
    path != [] && path[0] == SLASH && !HasDots(path)
  }

  function WithIndex(path: bytes): bytes {
    if path != [] && Last(path) == SLASH then path + Ascii("index.html") else path
  }

  /** `find_last_of` a character; -1 stands for `npos`. */
  function FindLast(s: bytes, c: byte): (i: int)
    ensures -1 <= i < |s| && (i >= 0 ==> s[i] == c)
    ensures forall k :: i < k < |s| ==> s[k] != c
  {
    if s == [] then -1
    else if Last(s) == c then |s| - 1
    else FindLast(Front(s), c)
  }

  /** For a path with a slash in it, so that the position of the last is not `npos`. */
  function Extension(path: bytes): bytes {
    var slash, dot := FindLast(path, SLASH), FindLast(path, DOT);
    if dot >= 0 && dot > slash then path[dot + 1..] else []
  }

  function MimeType(extension: bytes): bytes {
    if extension == Ascii("gif") then Ascii("image/gif")
    else if extension == Ascii("htm") then Ascii("text/html")
    else if extension == Ascii("html") then Ascii("text/html")
    else if extension == Ascii("jpg") then Ascii("image/jpeg")
    else if extension == Ascii("png") then Ascii("image/png")
    else Ascii("text/plain")
  }

  /** The name passed to `open`, which ends at the first NUL. */
  function Opened(site: Site, path: bytes): bytes {
    UpToNul(site.root + path)
  }

  function Respond(site: Site, req: Request): R.Reply {
    match U.Decode(site.hex, req.uri)
    case None => R.Stock(R.BadRequest)
    case Some(decoded) =>
      if !Servable(decoded) then R.Stock(R.BadRequest)
      else
        var path := WithIndex(decoded);
        match site.files(Opened(site, path))
        case None => R.Stock(R.NotFound)
        case Some(content) => R.Page(R.Ok, content, MimeType(Extension(path)))
  }

  class FileHandler {
    const site: Site

    constructor (site: Site)
      ensures this.site == site
    {
      this.site := site;
    }

    /** `operator()`, with a new reply. */
    method Handle(req: Request) returns (rep: R.Reply)
      ensures rep == Respond(site, req)
    {
      hide U.Decode, FindLast, MimeType, R.StockContent, DecimalText, HasDots;
      var ok, requestPath := U.UrlDecode(site.hex, req.uri);
      if !ok {
        rep := R.StockReply(R.BadRequest);
        return;
      }
      if requestPath == [] || requestPath[0] != SLASH || HasDots(requestPath) {
        rep := R.StockReply(R.BadRequest);
        return;
      }
      if requestPath[|requestPath| - 1] == SLASH {
        requestPath := requestPath + Ascii("index.html");
      }
      var lastSlash := FindLast(requestPath, SLASH);
      var lastDot := FindLast(requestPath, DOT);
      var extension := [];
      if lastDot != -1 && lastDot > lastSlash {
        extension := requestPath[lastDot + 1..];
      }
      var file := site.files(UpToNul(site.root + requestPath));
      if file.None? {
        rep := R.StockReply(R.NotFound);
        return;
      }
      var content := ReadAll(file.value);
      rep := R.Reply(R.Ok, [], content);
      var headers := seq(2, i => Header([], []));
      headers := headers[0 := headers[0].(name := Ascii("Content-Length"))];
      headers := headers[0 := headers[0].(value := DecimalText(|rep.content|))];
      headers := headers[1 := headers[1].(name := Ascii("Content-Type"))];
      headers := headers[1 := headers[1].(value := MimeType(extension))];
      rep := rep.(headers := headers);
    }

    /** The loop that reads a file in chunks; the last one may be short. */
    static method ReadAll(file: bytes) returns (content: bytes)
      ensures content == file
    {
      content := [];
      var pos := 0;
      while pos < |file|
        invariant 0 <= pos <= |file| && content == file[..pos]
      {
        var count := if pos + CHUNK <= |file| then CHUNK else |file| - pos;
        content := content + file[pos..pos + count];
        pos := pos + count;
      }
    }
  }

  // ------------------------------------------------------------------ paths

  lemma {:induction false} IndexAddsNoDots(path: bytes)
    requires !HasDots(path)
    ensures !HasDots(WithIndex(path))
  {
    var index := Ascii("index.html");
    var q := WithIndex(path);
    IndexHasOneDot();
    forall k | 0 <= k < |q| - 1 ensures !(q[k] == DOT && q[k + 1] == DOT) {
      if k >= |path| {
        assert q[k] == index[k - |path|] && q[k + 1] == index[k - |path| + 1];
      } else if k + 1 < |path| {
        assert !(path[k] == DOT && path[k + 1] == DOT);
      }
    }
  }

  lemma {:induction false} IndexHasOneDot()
    ensures forall k :: 0 <= k < |Ascii("index.html")| - 1 ==> !(Ascii("index.html")[k] == DOT && Ascii("index.html")[k + 1] == DOT)
  {
  }

  /** No segment of a path, from one slash to the next or to the end, is "..". */
  predicate StaysInside(path: bytes) {
    forall i, j :: 0 <= i < j <= |path| && path[i] == SLASH && (j == |path| || path[j] == SLASH) ==> path[i + 1..j] != [DOT, DOT]
  }

  lemma {:induction false} NoDotsInside(path: bytes)
    requires !HasDots(path)
    ensures StaysInside(path)
  {
    forall i, j | 0 <= i < j <= |path| && path[i] == SLASH && (j == |path| || path[j] == SLASH)
      ensures path[i + 1..j] != [DOT, DOT]
    {
      if j == i + 3 {
        assert !(path[i + 1] == DOT && path[i + 2] == DOT);
        assert path[i + 1] == path[i + 1..j][0] && path[i + 2] == path[i + 1..j][1];
      }
    }
  }

  /** The name opened is the root and, behind it, what a NUL leaves of the path. */
  lemma {:induction false} OpenedBelowRoot(site: Site, path: bytes)
    requires 0 !in site.root
    ensures Opened(site, path) == site.root + UpToNul(path) && UpToNul(path) <= path
  {
    UpToNulSkips(site.root, path);
    UpToNulIs(path);
  }

  /** A reply is a file's only if the URI decodes to a path below the root, with the
      index added to a directory, that names it; and neither the path nor what a NUL
      leaves of it climbs out. The content is that file's. */
  lemma {:induction false} OkIsFileInside(site: Site, req: Request, n: nat) returns (path: bytes)
    requires Respond(site, req).status == R.Ok
    ensures path != [] && path[0] == SLASH && Last(path) != SLASH && !HasDots(path)
    ensures U.Decode(site.hex, req.uri).Some? && path == WithIndex(U.Decode(site.hex, req.uri).value)
    ensures n <= |path| ==> StaysInside(path[..n])
    ensures 0 !in site.root ==> Opened(site, path) == site.root + UpToNul(path) && UpToNul(path) <= path
    ensures site.files(Opened(site, path)) == Some(Respond(site, req).content)
  {
    hide U.Decode, FindLast, MimeType, R.StockContent, HasDots, Opened, DecimalText;
    var decoded := U.Decode(site.hex, req.uri).value;
    path := WithIndex(decoded);
    IndexAddsNoDots(decoded);
    assert Last(Ascii("index.html")) == 'l' as int;
    if 0 !in site.root { OpenedBelowRoot(site, path); }
    if n <= |path| {
      PrefixHasNoDots(path, n);
      NoDotsInside(path[..n]);
    }
  }

  /** Which of the three replies it is, in terms of the request and the files only. */
  lemma {:induction false} RespondIff(site: Site, req: Request)
    ensures var rep, decoded := Respond(site, req), U.Decode(site.hex, req.uri);
            if decoded.None? || decoded.value == [] || decoded.value[0] != '/' as int
               || exists k :: 0 <= k < |decoded.value| - 1 && decoded.value[k] == '.' as int && decoded.value[k + 1] == '.' as int
            then rep == R.Stock(R.BadRequest)
            else
              var asked := decoded.value;
              var path := if asked[|asked| - 1] == '/' as int then asked + Ascii("index.html") else asked;
              match site.files(UpToNul(site.root + path))
              case None => rep == R.Stock(R.NotFound)
              case Some(content) =>
                && rep.status == R.Ok && rep.content == content && |rep.headers| == 2
                && rep.headers[0] == Header(Ascii("Content-Length"), DecimalText(|content|))
                && rep.headers[1] == Header(Ascii("Content-Type"), TypeByEnding(path))
    ensures Respond(site, req).status in {R.Ok, R.BadRequest, R.NotFound}
  {
    var decoded := U.Decode(site.hex, req.uri);
    hide U.Decode, UpToNul, DecimalText, R.StockContent, TypeByEnding, MimeType, FindLast;
    if decoded.Some? && Servable(decoded.value) {
      TypeIsByEnding(WithIndex(decoded.value));
    }
    hide Extension, Ascii;
  }

  /** The path ends in a dot and this text. */
  predicate EndsIn(path: bytes, ext: string) {
    |ext| < |path| && path[|path| - |ext| - 1] == '.' as int && path[|path| - |ext|..] == Ascii(ext)
  }

  /** The types, by what a path ends in. */
  function TypeByEnding(path: bytes): bytes {
    if EndsIn(path, "gif") then Ascii("image/gif")
    else if EndsIn(path, "htm") || EndsIn(path, "html") then Ascii("text/html")
    else if EndsIn(path, "jpg") then Ascii("image/jpeg")
    else if EndsIn(path, "png") then Ascii("image/png")
    else Ascii("text/plain")
  }

  lemma {:induction false} ExtensionIff(path: bytes, ext: string)
    requires ext != [] && forall i :: 0 <= i < |ext| ==> 'a' <= ext[i] <= 'z'
    ensures Extension(path) == Ascii(ext) <==> EndsIn(path, ext)
  {
    var e, n := Ascii(ext), |path| - |ext|;
    if EndsIn(path, ext) {
      forall k | n <= k < |path| ensures path[k] != DOT && path[k] != SLASH {
        assert path[k] == path[n..][k - n] == e[k - n];
      }
    }
  }

  lemma {:induction false} TypeIsByEnding(path: bytes)
    ensures MimeType(Extension(path)) == TypeByEnding(path)
  {
    hide EndsIn, Extension;
    ExtensionIff(path, "gif");
    ExtensionIff(path, "htm");
    ExtensionIff(path, "html");
    ExtensionIff(path, "jpg");
    ExtensionIff(path, "png");
    hide Ascii;
  }

  lemma {:induction false} PrefixHasNoDots(path: bytes, n: nat)
    requires !HasDots(path) && n <= |path|
    ensures !HasDots(path[..n])
  {
    forall k | 0 <= k < n - 1 ensures !(path[..n][k] == DOT && path[..n][k + 1] == DOT) {
      assert !(path[k] == DOT && path[k + 1] == DOT);
    }
  }

  /** The extension is what follows the last dot, if that dot is in the last segment
      of the path; otherwise, and only then or if the path ends in it, it is empty. */
  lemma {:induction false} ExtensionIsLastPart(path: bytes)
    requires path != [] && path[0] == SLASH
    ensures var ext := Extension(path);
            && DOT !in ext && SLASH !in ext
            && (ext != [] ==> |ext| < |path| && path[|path| - |ext| - 1] == DOT && path[|path| - |ext|..] == ext)
            && (ext == [] <==> Last(path) == DOT || DOT !in path[FindLast(path, SLASH)..])
  {
    var slash, dot := FindLast(path, SLASH), FindLast(path, DOT);
    if dot > slash {
      assert path[slash..][dot - slash] == DOT;
    }
  }

  /** Every reply of the handler, whose content has a size after all, is one that the
      parser reads back whole. */
  lemma {:induction false} RepliesFramed(site: Site, req: Request, cast: bytes -> Option<nat>)
    requires R.ReadsDecimals(cast) && |Respond(site, req).content| < SIZE_LIMIT
    ensures R.Printable(Respond(site, req).headers) && R.Framed(cast, Respond(site, req))
  {
    R.StockRepliesAreFramed(cast, R.BadRequest);
    R.StockRepliesAreFramed(cast, R.NotFound);
    var rep := Respond(site, req);
    if rep != R.Stock(R.BadRequest) && rep != R.Stock(R.NotFound) {
      hide U.Decode, FindLast, R.Stock, MimeType, R.Printable, R.Framed, HasDots;
      var kind := MimeType(Extension(WithIndex(U.Decode(site.hex, req.uri).value)));
      TypesPrintable(Extension(WithIndex(U.Decode(site.hex, req.uri).value)));
      R.PagesAreFramed(cast, R.Ok, rep.content, kind);
    }
  }

  lemma {:induction false} TypesPrintable(extension: bytes)
    ensures NoCtl(MimeType(extension)) && AsciiOnly(MimeType(extension))
  {
  }

  // ------------------------------------------------------- a file is fetched

  /** A path is any byte string; the client is given any percent-encoding of it that
      has no space or control byte. Then the server's connection, once the printed
      request has arrived over however many reads, sends the file; and a client that
      gets this reply, `status`, `headers` and the pieces `later` of it so far and
      `rest` not yet, shows its two header lines, an empty line, and the file's bytes
      but for those still missing. */
  lemma {:induction false} FileFetched(site: Site, first: Life.Blank, run: seq<Life.Event>, w: Life.World, i: nat, server: bytes,
                                       ws: seq<U.Writing>, path: bytes, file: bytes,
                                       status: bytes, headers: bytes, later: seq<bytes>, rest: bytes)
    requires U.ReadsHexPairs(site.hex) && NoCtl(server) && U.Encodes(ws, path) && G.UriBytes(U.Encode(ws, path))
    requires Servable(path) && site.files(Opened(site, WithIndex(path))) == Some(file)
    requires Life.After(req => Respond(site, req), first, run) == Some(w) && i < |w.pool.conns|
    requires G.Print(H.RequestMessage(server, U.Encode(ws, path))) <= w.pool.conns[i].received
    ensures var rep := R.Page(R.Ok, file, MimeType(Extension(WithIndex(path))));
            var n := |R.StatusLine(R.Ok)|;
            w.pool.conns[i].sent == [rep] &&
            (status + headers + R.Gather(later) + rest == R.PrintReply(rep) && n <= |status| && H.HasBlankLine((status + headers)[n..])
             ==> H.Displayed(status, headers, later) + rest == R.HeadersBytes(rep.headers) + [LF] + file)
  {
    FileSent(site, first, run, w, i, server, ws, path, file);
    hide *;
    PageShown(path, file, status, headers, later, rest);
  }

  /** What the client makes of a page that it gets. */
  lemma {:induction false} PageShown(path: bytes, file: bytes, status: bytes, headers: bytes, later: seq<bytes>, rest: bytes)
    ensures var rep := R.Page(R.Ok, file, MimeType(Extension(WithIndex(path))));
            var n := |R.StatusLine(R.Ok)|;
            status + headers + R.Gather(later) + rest == R.PrintReply(rep) && n <= |status| && H.HasBlankLine((status + headers)[n..])
            ==> H.Displayed(status, headers, later) + rest == R.HeadersBytes(rep.headers) + [LF] + file
  {
    var rep := R.Page(R.Ok, file, MimeType(Extension(WithIndex(path))));
    PageLines(file, Extension(WithIndex(path)));
    hide *;
    var n := |R.StatusLine(R.Ok)|;
    if status + headers + R.Gather(later) + rest == R.PrintReply(rep) && n <= |status| && H.HasBlankLine((status + headers)[n..]) {
      H.ReplyShown(rep, status, headers, later, rest);
    }
  }

  /** The file handler as the request handler of boost_http_server_3. */
  function Forking(site: Site, cast: P.Cast, junk: nat): F.Env {
    F.Env(cast, (q: P.FullRequest) => Respond(site, q.head), junk)
  }

  lemma {:induction false} EncodingNotEmpty(ws: seq<U.Writing>, path: bytes)
    requires U.Encodes(ws, path) && path != []
    ensures U.Encode(ws, path) != []
  {
  }

  /** The client's headers are ASCII for an ASCII host, and have no Content-Length. */
  lemma {:induction false} ClientHeaders(server: bytes, cast: P.Cast)
    requires AsciiOnly(server)
    ensures L.AsciiValues(H.RequestHeaders(server)) && P.ScanLength(cast, H.RequestHeaders(server)) == Some(0)
  {
    var hs := H.RequestHeaders(server);
    ClientNames();
    assert forall i :: 0 <= i < |hs| ==> !P.IsLength(hs[i]);
    P.ScanLengthMeaning(cast, hs);
    assert AsciiOnly(hs[0].value) && AsciiOnly(hs[1].value) && AsciiOnly(hs[2].value);
  }

  lemma {:induction false} ClientNames()
    ensures |Ascii("Host")| == 4 && |Ascii("Accept")| == 6 && |Ascii("Connection")| == 10 && |P.CONTENT_LENGTH()| == 14
    ensures AsciiOnly(Ascii("*/*")) && AsciiOnly(Ascii("close"))
  {
  }

  /** The same of server 3, for an ASCII host: once a child has parsed the printed
      request, over however many reads and whatever other copies of the coroutine are
      about, it has begun to write the file's page, which the client shows. */
  lemma {:induction false} FileFetchedForking(site: Site, cast: P.Cast, junk: nat, run: seq<F.Event>, w: F.World, i: nat,
                                              server: bytes, ws: seq<U.Writing>, path: bytes, file: bytes,
                                              status: bytes, headers: bytes, later: seq<bytes>, rest: bytes)
    requires U.ReadsHexPairs(site.hex) && NoCtl(server) && AsciiOnly(server)
    requires U.Encodes(ws, path) && G.UriBytes(U.Encode(ws, path))
    requires Servable(path) && site.files(Opened(site, WithIndex(path))) == Some(file)
    requires F.After(Forking(site, cast, junk), run) == Some(w) && i < |w.sockets|
    requires G.Print(H.RequestMessage(server, U.Encode(ws, path))) <= w.sockets[i].parsed
    ensures var rep := R.Page(R.Ok, file, MimeType(Extension(WithIndex(path))));
            var n := |R.StatusLine(R.Ok)|;
            w.sockets[i].sent == [rep] &&
            (status + headers + R.Gather(later) + rest == R.PrintReply(rep) && n <= |status| && H.HasBlankLine((status + headers)[n..])
             ==> H.Displayed(status, headers, later) + rest == R.HeadersBytes(rep.headers) + [LF] + file)
  {
    FileSentForking(site, cast, junk, run, w, i, server, ws, path, file);
    hide *;
    PageShown(path, file, status, headers, later, rest);
  }

  lemma {:induction false} FileSentForking(site: Site, cast: P.Cast, junk: nat, run: seq<F.Event>, w: F.World, i: nat,
                                           server: bytes, ws: seq<U.Writing>, path: bytes, file: bytes)
    requires U.ReadsHexPairs(site.hex) && NoCtl(server) && AsciiOnly(server)
    requires U.Encodes(ws, path) && G.UriBytes(U.Encode(ws, path))
    requires Servable(path) && site.files(Opened(site, WithIndex(path))) == Some(file)
    requires F.After(Forking(site, cast, junk), run) == Some(w) && i < |w.sockets|
    requires G.Print(H.RequestMessage(server, U.Encode(ws, path))) <= w.sockets[i].parsed
    ensures w.sockets[i].sent == [R.Page(R.Ok, file, MimeType(Extension(WithIndex(path))))]
  {
    var m := H.RequestMessage(server, U.Encode(ws, path));
    EncodingNotEmpty(ws, path);
    hide Respond, U.Decode, Servable, U.Encode, H.RequestHeaders, G.WfMessage, G.Print, L.AsciiValues, P.ScanLength, F.After;
    H.WellFormedIff(server, U.Encode(ws, path));
    R.LinesMeanHeaders(H.RequestHeaders(server));
    ClientHeaders(server, cast);
    assert G.Print(m) + [] == G.Print(m);
    F.FramedIsAnswered(Forking(site, cast, junk), run, w, i, m, []);
    U.DecodeInvertsEncode(site.hex, ws, path);
    RespondsWithFile(site, G.Meaning(m), path, file);
  }

  lemma {:induction false} PageLines(file: bytes, extension: bytes)
    ensures var rep := R.Page(R.Ok, file, MimeType(extension));
            rep.status == R.Ok && rep.headers != [] && H.NoLf(rep.headers) && rep.content == file
  {
    TypesPrintable(extension);
    R.StockNames();
    hide MimeType, DecimalText;
    R.DigitsAreTextual(DecimalText(|file|));
  }

  lemma {:induction false} FileSent(site: Site, first: Life.Blank, run: seq<Life.Event>, w: Life.World, i: nat, server: bytes,
                                    ws: seq<U.Writing>, path: bytes, file: bytes)
    requires U.ReadsHexPairs(site.hex) && NoCtl(server) && U.Encodes(ws, path) && G.UriBytes(U.Encode(ws, path))
    requires Servable(path) && site.files(Opened(site, WithIndex(path))) == Some(file)
    requires Life.After(req => Respond(site, req), first, run) == Some(w) && i < |w.pool.conns|
    requires G.Print(H.RequestMessage(server, U.Encode(ws, path))) <= w.pool.conns[i].received
    ensures w.pool.conns[i].sent == [R.Page(R.Ok, file, MimeType(Extension(WithIndex(path))))]
  {
    var m := H.RequestMessage(server, U.Encode(ws, path));
    hide Respond, U.Decode, Servable;
    H.WellFormedIff(server, U.Encode(ws, path));
    Life.MessageIsAnswered(req => Respond(site, req), first, run, w, i, m);
    U.DecodeInvertsEncode(site.hex, ws, path);
    RespondsWithFile(site, G.Meaning(m), path, file);
  }

  lemma {:induction false} RespondsWithFile(site: Site, req: Request, path: bytes, file: bytes)
    requires U.Decode(site.hex, req.uri) == Some(path) && Servable(path)
    requires site.files(Opened(site, WithIndex(path))) == Some(file)
    ensures Respond(site, req) == R.Page(R.Ok, file, MimeType(Extension(WithIndex(path))))
  {
  }
}
