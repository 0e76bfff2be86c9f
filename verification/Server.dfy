/** accept_request as a whole: from the bytes of a connection to the response, the bytes the CGI
    script receives and the place where the stream is left. */
module Server {
  import opened Bytes
  import opened ClientSocket
  import opened LineReader
  import opened HeaderDiscard
  import opened RequestLine
  import opened Cgi

  /** What stat() reports; a file system maps a path to it. */
  datatype Stat = Stat(isDirectory: bool, isExecutable: bool)
  type FileSystem = seq<byte> -> Option<Stat>

  datatype Response =
    | Unimplemented
    | NotFound
    | File(path: seq<byte>)
    | BadRequest
    | Script(path: seq<byte>, verb: seq<byte>, query: Option<seq<byte>>, contentLength: int)

  /** Response to a request for the file `path`, with -1 for the content length of a script. */
  function Resolve(path: seq<byte>, verb: seq<byte>, query: Option<seq<byte>>, isCgi: bool, fs: FileSystem): Response {
    match fs(path)
    case None => NotFound
    case Some(st) =>
      var full := if st.isDirectory then path + DIR_INDEX else path;
      if isCgi || st.isExecutable then Script(full, verb, query, -1) else File(full)
  }

  /** Response to the request line `t`. */
  function Route(t: seq<byte>, fs: FileSystem): Response {
    var r := Parse(t);
    if SameIgnoringCase(r.verb, GET) then
      Resolve(FilePath(PathPart(r.url)), r.verb, Some(QueryPart(r.url)), QUESTION in r.url, fs)
    else if SameIgnoringCase(r.verb, POST) then
      Resolve(FilePath(r.url), r.verb, None, true, fs)
    else Unimplemented
  }

  datatype Outcome = Outcome(response: Response, pos: nat, body: seq<byte>)

  /** What happens to the rest of the stream, from `e` on, once the response is chosen. `memory` and `c`
      are what the uninitialised locals buf and c of execute_cgi hold. */
  function Finish(s: seq<byte>, e: nat, r: Response, memory: seq<byte>, c: byte): Outcome
    requires e <= |s| && |memory| == BUF_SIZE
  {
    if r.Script? && SameIgnoringCase(r.verb, POST) then
      var scan := Scan(s, e, Primed(memory), -1);
      if scan.length == -1 then Outcome(BadRequest, scan.pos, [])
      else
        Outcome(r.(contentLength := scan.length),
                RelayEnd(s, scan.pos, scan.length),
                Relayed(s, scan.pos, scan.length, c))
    else Outcome(r, if r.Unimplemented? then e else StopPoint(s, e), [])
  }

  /** The outcome of serving the connection `s` from position `p`. */
  function Handle(s: seq<byte>, p: nat, memory: seq<byte>, c: byte, fs: FileSystem): Outcome
    requires p <= |s| && |memory| == BUF_SIZE
  {
    Finish(s, EndAt(s, p, ROOM), Route(TextAt(s, p, ROOM), fs), memory, c)
  }

  /** execute_cgi(client, path, method, query_string), up to the end of the relay: None is a bad
      request. */
  method ExecuteCgi(sock: ClientSocket, cgi: ByteSink, buf: array<byte>, verb: seq<byte>, c0: byte)
    returns (contentLength: Option<int>)
    requires sock.Valid() && buf.Length == BUF_SIZE
    requires SameIgnoringCase(verb, GET) || SameIgnoringCase(verb, POST)
    modifies sock, cgi, buf
    ensures sock.Valid()
    ensures SameIgnoringCase(verb, GET) ==>
              && sock.pos == StopPoint(sock.data, old(sock.pos))
              && contentLength == Some(-1) && cgi.written == old(cgi.written)
    ensures SameIgnoringCase(verb, POST) ==>
              var scan := Scan(sock.data, old(sock.pos), Primed(old(buf[..])), -1);
              if scan.length == -1 then
                contentLength == None && sock.pos == scan.pos && cgi.written == old(cgi.written)
              else
                && contentLength == Some(scan.length)
                && sock.pos == RelayEnd(sock.data, scan.pos, scan.length)
                && cgi.written == old(cgi.written) + Relayed(sock.data, scan.pos, scan.length, c0)
  {
    ghost var memory := buf[..];
    var length := -1;
    if SameIgnoringCase(verb, GET) {
      SkipHeaders(sock, buf);
    } else {
      buf[0], buf[1] := LETTER_A, NUL;
      assert buf[..] == Primed(memory);
      length := ScanHeaders(sock, buf);
      if length == -1 {
        return None;
      }
      RelayBody(sock, cgi, length, c0);
    }
    contentLength := Some(length);
  }

  /** accept_request from stat() on: `buf` still holds the request line. `cgiBuf` is the local buffer of
      execute_cgi and serve_file. */
  method Respond(sock: ClientSocket, cgi: ByteSink, buf: array<byte>, numchars: nat, cgiBuf: array<byte>, c0: byte,
                 path: array<byte>, verb: seq<byte>, query: Option<seq<byte>>, cgiWanted: bool, fs: FileSystem)
    returns (response: Response)
    requires sock.Valid() && cgi.written == [] && cgiBuf.Length == BUF_SIZE == buf.Length && cgiBuf != buf
    requires numchars <= ROOM && buf[numchars] == NUL && KeepsReading(buf[..numchars]) && OneLine(buf[..numchars])
    requires path != buf && path != cgiBuf && path.Length == PATH_SIZE && |CString(path[..])| <= 270
    requires SameIgnoringCase(verb, GET) || (SameIgnoringCase(verb, POST) && cgiWanted)
    modifies sock, cgi, buf, cgiBuf, path
    ensures sock.Valid()
    ensures Outcome(response, sock.pos, cgi.written)
         == Finish(sock.data, old(sock.pos), Resolve(old(CString(path[..])), verb, query, cgiWanted, fs),
                   old(cgiBuf[..]), c0)
  {
    hide CString, StopPoint, Scan, Relayed;
    var isCgi := cgiWanted;
    var stat := fs(CString(path[..]));
    if stat == None {
      DiscardHeaders(sock, buf, numchars);
      return NotFound;
    }
    if stat.value.isDirectory {
      PathPieces();
      StrCat(path, DIR_INDEX);
    }
    if stat.value.isExecutable {
      isCgi := true;
    }
    if isCgi {
      var length := ExecuteCgi(sock, cgi, cgiBuf, verb, c0);
      return if length == None then BadRequest else Script(CString(path[..]), verb, query, length.value);
    } else {
      SkipHeaders(sock, cgiBuf);
      return File(CString(path[..]));
    }
  }

  /** The query split of a GET request and the file path; isCgi is set for POST and for a query. */
  method SplitAndBuild(url: array<byte>, path: array<byte>, get: bool) returns (query: Option<seq<byte>>, isCgi: bool)
    requires path.Length == PATH_SIZE && url != path && |CString(url[..])| <= WORD_MAX < url.Length
    modifies url, path
    ensures |CString(path[..])| <= 270
    ensures var u := old(CString(url[..]));
            if get then
              && CString(path[..]) == FilePath(PathPart(u))
              && query == Some(QueryPart(u)) && isCgi == (QUESTION in u)
            else CString(path[..]) == FilePath(u) && query == None && isCgi
  {
    query, isCgi := None, !get;
    if get {
      var q, found := SplitQuery(url);
      query, isCgi := Some(CString(url[q..])), found;
    }
    BuildPath(url, path);
  }

  /** From the URL loops of accept_request to the built path. */
  method TakeUrl(buf: array<byte>, numchars: nat, start: nat, get: bool)
    returns (path: array<byte>, query: Option<seq<byte>>, isCgi: bool)
    requires buf.Length == BUF_SIZE && numchars <= ROOM && buf[numchars] == NUL && start <= WORD_MAX
    requires WordEnd(buf[..numchars], 0, WORD_MAX) == if start <= numchars then start else numchars
    ensures fresh(path) && path.Length == PATH_SIZE && |CString(path[..])| <= 270
    ensures var u := Parse(buf[..numchars]).url;
            if get then
              && CString(path[..]) == FilePath(PathPart(u))
              && query == Some(QueryPart(u)) && isCgi == (QUESTION in u)
            else CString(path[..]) == FilePath(u) && query == None && isCgi
  {
    var url := new byte[255];
    path := new byte[PATH_SIZE];
    CopyUrl(buf, numchars, start, url);
    query, isCgi := SplitAndBuild(url, path, get);
  }

  /** void* accept_request(void *arg), up to the hand-over to serve_file's file copy or to the script. */
  method AcceptRequest(sock: ClientSocket, cgi: ByteSink, cgiBuf: array<byte>, c0: byte, fs: FileSystem)
    returns (response: Response)
    requires sock.Valid() && cgiBuf.Length == BUF_SIZE && cgi.written == []
    modifies sock, cgi, cgiBuf
    ensures sock.Valid()
    ensures Outcome(response, sock.pos, cgi.written) == Handle(sock.data, old(sock.pos), old(cgiBuf[..]), c0, fs)
  {
    hide CString, Scan, Relayed, StopPoint, TextAt, EndAt, Parse, WordEnd, FilePath, Resolve;
    var buf, verb := new byte[BUF_SIZE], new byte[255];
    var numchars := ReadLine(sock, buf);
    var j := CopyMethod(buf, numchars, verb);
    var name := CString(verb[..]);
    if !SameIgnoringCase(name, GET) && !SameIgnoringCase(name, POST) {
      return Unimplemented;
    }
    var path, query, isCgi := TakeUrl(buf, numchars, j, SameIgnoringCase(name, GET));
    VerbMeansText(buf[..numchars]);
    response := Respond(sock, cgi, buf, numchars, cgiBuf, c0, path, name, query, isCgi, fs);
  }

  /** A line with a method in it is not the line that ends the headers. */
  lemma VerbMeansText(t: seq<byte>)
    requires Parse(t).verb != []
    ensures KeepsReading(t)
  {
  }

  // ---------------------------------------------------------------- uninitialised locals

  predicate IsPostScript(r: Response) {
    r.Script? && SameIgnoringCase(r.verb, POST)
  }

  /** The outcome of a POST request to a script once `n` is scanned and the stream stands at `end`. */
  function Served(s: seq<byte>, r: Response, end: nat, n: int, c: byte): Outcome
    requires end <= |s| && r.Script?
  {
    if n == -1 then Outcome(BadRequest, end, [])
    else Outcome(r.(contentLength := n), RelayEnd(s, end, n), Relayed(s, end, n, c))
  }

  /** Of the old buffer only the C string at column 16 counts. */
  lemma FinishServes(s: seq<byte>, e: nat, r: Response, memory: seq<byte>, c: byte)
    requires e <= |s| && |memory| == BUF_SIZE && IsPostScript(r)
    ensures var h := ReadHeaders(s, e);
            Finish(s, e, r, memory, c) == Served(s, r, h.end, LengthOf(h.texts, CString(memory[16..]), -1), c)
  {
    hide ReadHeaders, LengthIn, LengthOf, CString, Relayed, RelayEnd;
    HeadersFit(s, e);
    LengthInIsLengthOf(ReadHeaders(s, e).texts, Primed(memory), -1);
    assert Primed(memory)[16..] == memory[16..];
  }

  /** The headers from `e` on leave open what the script receives: they end right after a bare
      "Content-Length:" that follows short lines only, or declare a body of which not one byte comes. */
  predicate Underdetermined(s: seq<byte>, e: nat)
    requires e <= |s|
  {
    var h := ReadHeaders(s, e);
    ReadsStale(h.texts) || (LengthOf(h.texts, [], -1) > 0 && h.end == |s|)
  }

  lemma StaleBufferSeen(s: seq<byte>, e: nat, r: Response, c: byte)
    requires e <= |s| && IsPostScript(r) && ReadsStale(ReadHeaders(s, e).texts)
    ensures exists a: seq<byte>, b: seq<byte> ::
              |a| == |b| == BUF_SIZE && Finish(s, e, r, a, c) != Finish(s, e, r, b, c)
  {
    hide Finish, ReadHeaders, LengthOf, ReadsStale, CString, Atoi, Relayed, RelayEnd;
    var texts := ReadHeaders(s, e).texts;
    var zeros: seq<byte> := seq(BUF_SIZE, _ => NUL);
    var one := zeros[16 := 49];
    HeadersFit(s, e);
    FinishServes(s, e, r, zeros, c);
    FinishServes(s, e, r, one, c);
    StaleMatters(texts, CString(zeros[16..]), -1);
    StaleMatters(texts, CString(one[16..]), -1);
    ZeroAndOne(zeros, one);
    assert Finish(s, e, r, zeros, c) != Finish(s, e, r, one, c);
  }

  lemma StaleBufferUnseen(s: seq<byte>, e: nat, r: Response, a: seq<byte>, c: byte)
    requires e <= |s| && |a| == BUF_SIZE && IsPostScript(r) && !ReadsStale(ReadHeaders(s, e).texts)
    ensures var h := ReadHeaders(s, e);
            Finish(s, e, r, a, c) == Served(s, r, h.end, LengthOf(h.texts, [], -1), c)
  {
    hide Finish, ReadHeaders, LengthOf, ReadsStale, CString, Served;
    HeadersFit(s, e);
    FinishServes(s, e, r, a, c);
    StaleIgnored(ReadHeaders(s, e).texts, CString(a[16..]), [], -1);
  }

  lemma FinishIgnoresStaleIff(s: seq<byte>, e: nat, r: Response)
    requires e <= |s| && IsPostScript(r)
    ensures (forall a: seq<byte>, b: seq<byte>, c: byte, d: byte :: |a| == |b| == BUF_SIZE ==>
               Finish(s, e, r, a, c) == Finish(s, e, r, b, d)) <==> !Underdetermined(s, e)
  {
    hide Finish, ReadHeaders, LengthOf, ReadsStale, Relayed, RelayEnd;
    var h := ReadHeaders(s, e);
    var n := LengthOf(h.texts, [], -1);
    if ReadsStale(h.texts) {
      StaleBufferSeen(s, e, r, 0);
    } else {
      RelayIgnoresStaleIff(s, h.end, n);
      if Underdetermined(s, e) {
        var zeros: seq<byte> := seq(BUF_SIZE, _ => NUL);
        var c: byte, d: byte :| Relayed(s, h.end, n, c) != Relayed(s, h.end, n, d);
        StaleBufferUnseen(s, e, r, zeros, c);
        StaleBufferUnseen(s, e, r, zeros, d);
      } else {
        forall a: seq<byte>, b: seq<byte>, c: byte, d: byte | |a| == |b| == BUF_SIZE
          ensures Finish(s, e, r, a, c) == Finish(s, e, r, b, d)
        {
          StaleBufferUnseen(s, e, r, a, c);
          StaleBufferUnseen(s, e, r, b, d);
          assert n > 0 ==> h.end < |s|;
        }
      }
    }
  }

  /** What the two uninitialised locals of execute_cgi, the buffer and the byte of the relay, hold matters
      to a request exactly when it is a POST to a script with such headers. */
  lemma HandleIgnoresStaleIff(s: seq<byte>, p: nat, fs: FileSystem)
    requires p <= |s|
    ensures var e, r := EndAt(s, p, ROOM), Route(TextAt(s, p, ROOM), fs);
            (forall a: seq<byte>, b: seq<byte>, c: byte, d: byte :: |a| == |b| == BUF_SIZE ==>
               Handle(s, p, a, c, fs) == Handle(s, p, b, d, fs)) <==> !(IsPostScript(r) && Underdetermined(s, e))
  {
    hide Underdetermined, Scan, StopPoint, Route, TextAt, EndAt, Relayed, RelayEnd;
    var e, r := EndAt(s, p, ROOM), Route(TextAt(s, p, ROOM), fs);
    if IsPostScript(r) {
      FinishIgnoresStaleIff(s, e, r);
      HandleIsFinish(s, p, fs);
    }
  }

  lemma HandleIsFinish(s: seq<byte>, p: nat, fs: FileSystem)
    requires p <= |s|
    ensures forall a: seq<byte>, c: byte :: |a| == BUF_SIZE ==>
              Handle(s, p, a, c, fs) == Finish(s, EndAt(s, p, ROOM), Route(TextAt(s, p, ROOM), fs), a, c)
  {
  }

  // ---------------------------------------------------------------- whole requests

  /** A request on the stream `s`: a request line at `p`, its headers and the blank line. `url` is any
      non-empty URL of at most 254 bytes without spaces or NULs; everything may follow. The rest of a
      request line that does not fit the buffer counts as the first header line, as the code takes it. */
  predicate IsRequest(s: seq<byte>, p: nat, verb: seq<byte>, url: seq<byte>, version: seq<byte>,
                      lines: seq<seq<byte>>, starts: seq<nat>)
  {
    var line := verb + [SPACE] + url + [SPACE] + version;
    && CrLfLineAt(s, p, line)
    && 0 < |url| <= WORD_MAX
    && (forall c :: c in verb || c in url ==> !IsSpace(c) && c != NUL)
    && HeaderBlock(s, lines, starts) && starts[0] == p + if |line| < ROOM then |line| + 2 else ROOM
  }

  lemma RequestLineRead(s: seq<byte>, p: nat, verb: seq<byte>, url: seq<byte>, version: seq<byte>,
                        lines: seq<seq<byte>>, starts: seq<nat>)
    requires IsRequest(s, p, verb, url, version, lines, starts) && |verb| <= WORD_MAX
    ensures p <= |s| && EndAt(s, p, ROOM) == starts[0]
    ensures Parse(TextAt(s, p, ROOM)) == Request(verb, url)
  {
    hide TextAt, EndAt, Parse;
    var line := verb + [SPACE] + url + [SPACE] + version;
    if |line| < ROOM {
      ReadCrLfLine(s, p, line, ROOM);
    } else {
      FullText(s, p, line);
    }
    ReceivedRoundTrip(s, p, verb, url, version);
  }

  lemma PostHandled(s: seq<byte>, p: nat, verb: seq<byte>, url: seq<byte>, version: seq<byte>,
                    lines: seq<seq<byte>>, starts: seq<nat>, j: nat, n: int,
                    memory: seq<byte>, c: byte, fs: FileSystem)
    requires IsRequest(s, p, verb, url, version, lines, starts) && SameIgnoringCase(verb, POST)
    requires j < |lines| && |lines[j]| < ROOM && IsLengthLine(lines[j]) && LineLength(lines[j]) == n != -1
    requires forall k :: j < k < |lines| ==> !Declares(lines[k])
    requires |memory| == BUF_SIZE && fs(FilePath(url)) != None
    ensures |starts| == |lines| + 1
    ensures var body := starts[|lines|] + 2;
            var full := FilePath(url) + if fs(FilePath(url)).value.isDirectory then DIR_INDEX else [];
            && body <= |s|
            && Handle(s, p, memory, c, fs)
            == Outcome(Script(full, verb, None, n), RelayEnd(s, body, n), Relayed(s, body, n, c))
  {
    hide TextAt, EndAt, Scan, Route, IsLengthLine, LineLength, FilePath, Relayed, RelayEnd, Declares, SameIgnoringCase;
    hide HeaderBlock, CrLfLineAt, IsSpace;
    BlockLength(s, lines, starts);
    NotBoth(verb);
    RequestLineRead(s, p, verb, url, version, lines, starts);
    PostRoute(TextAt(s, p, ROOM), verb, url, fs);
    BlockScan(s, lines, starts, j, n, Primed(memory));
  }

  lemma BlockLength(s: seq<byte>, lines: seq<seq<byte>>, starts: seq<nat>)
    requires HeaderBlock(s, lines, starts)
    ensures |starts| == |lines| + 1 && starts[0] <= |s| && starts[|lines|] + 2 <= |s|
  {
    if lines != [] {
      assert IsHeader(lines[0]);
    }
  }

  /** A POST request for an existing file is always one for a script. */
  lemma PostRoute(t: seq<byte>, verb: seq<byte>, url: seq<byte>, fs: FileSystem)
    requires Parse(t) == Request(verb, url) && SameIgnoringCase(verb, POST) && fs(FilePath(url)) != None
    ensures var full := FilePath(url) + if fs(FilePath(url)).value.isDirectory then DIR_INDEX else [];
            Route(t, fs) == Script(full, verb, None, -1)
  {
    hide Parse, FilePath;
    NotBoth(verb);
    assert FilePath(url) + [] == FilePath(url);
  }

  lemma BlockScan(s: seq<byte>, lines: seq<seq<byte>>, starts: seq<nat>, j: nat, n: int, memory: seq<byte>)
    requires HeaderBlock(s, lines, starts) && |memory| == BUF_SIZE
    requires j < |lines| && |lines[j]| < ROOM && IsLengthLine(lines[j]) && LineLength(lines[j]) == n
    requires forall k :: j < k < |lines| ==> !Declares(lines[k])
    ensures starts[0] <= |s| && Scan(s, starts[0], memory, -1) == ScanResult(starts[|lines|] + 2, n)
  {
    hide Scan, LastLength, IsLengthLine, LineLength, Declares;
    ScanOfBlock(s, lines, [], starts, memory, -1);
    LastLengthIs(lines, 0, j, -1);
    BlankDeclaresNothing(LastLength(lines, 0, -1));
  }

  /** End-to-end framing of a POST request whose last Content-Length line, the j-th header, declares `n`.
      If at least `n` bytes follow the blank line, the CGI script receives exactly these `n` bytes,
      unaltered, and the stream is left right after them. If fewer follow, it receives them and then
      copies of the last one, or of the uninitialised byte `c` if none followed. If `n` is negative, which
      only -1 is refused for, it receives nothing. */
  lemma PostEndToEnd(s: seq<byte>, p: nat, verb: seq<byte>, url: seq<byte>, version: seq<byte>,
                     lines: seq<seq<byte>>, starts: seq<nat>, j: nat, n: int,
                     memory: seq<byte>, c: byte, fs: FileSystem)
    requires IsRequest(s, p, verb, url, version, lines, starts) && SameIgnoringCase(verb, POST)
    requires j < |lines| && |lines[j]| < ROOM && IsLengthLine(lines[j]) && LineLength(lines[j]) == n != -1
    requires forall k :: j < k < |lines| ==> !Declares(lines[k])
    requires |memory| == BUF_SIZE && fs(FilePath(url)) != None
    ensures var body := starts[|lines|] + 2;
            var outcome := Handle(s, p, memory, c, fs);
            && outcome.response.Script? && outcome.response.contentLength == n
            && outcome.response.verb == verb && outcome.response.query == None
            && outcome.response.path == FilePath(url) + (if fs(FilePath(url)).value.isDirectory then DIR_INDEX else [])
            && body <= |s| && |outcome.body| == (if n < 0 then 0 else n)
            && (outcome.body <= s[body..] <==> body + n <= |s|)
            && (if n < 0 then outcome.pos == body
                else if body + n <= |s| then outcome.body == s[body..body + n] && outcome.pos == body + n
                else
                  && outcome.body == s[body..] + seq(n - (|s| - body), _ => if body < |s| then s[|s| - 1] else c)
                  && outcome.pos == |s|)
  {
    hide Handle, IsRequest, IsLengthLine, LineLength, FilePath, Relayed, RelayEnd, Declares;
    PostHandled(s, p, verb, url, version, lines, starts, j, n, memory, c, fs);
    var body := starts[|lines|] + 2;
    if n < 0 {
      NothingRelayed(s, body, n, c);
    } else {
      RelayFaithfulIff(s, body, n, c);
      if body + n <= |s| {
        RelayFaithful(s, body, n, c);
      } else {
        ShortBodyRelayed(s, body, n, c);
      }
    }
  }

  lemma BlankDeclaresNothing(length: int)
    ensures LengthAfter([], length) == length
  {
  }

  /** A POST request is refused exactly when its headers leave the scanned length at -1, which they do if
      no piece of a line declares one; then its headers are read and its body is left in the stream. */
  lemma PostWithoutLength(s: seq<byte>, p: nat, verb: seq<byte>, url: seq<byte>, version: seq<byte>,
                          lines: seq<seq<byte>>, starts: seq<nat>, memory: seq<byte>, c: byte, fs: FileSystem)
    requires IsRequest(s, p, verb, url, version, lines, starts) && SameIgnoringCase(verb, POST)
    requires |memory| == BUF_SIZE && fs(FilePath(url)) != None
    ensures var outcome := Handle(s, p, memory, c, fs);
            && (outcome.response == BadRequest <==> LastLength(lines, 0, -1) == -1)
            && (outcome.response == BadRequest <==> outcome == Outcome(BadRequest, starts[|lines|] + 2, []))
            && ((forall k :: 0 <= k < |lines| ==> !Declares(lines[k])) ==> outcome.response == BadRequest)
  {
    hide TextAt, EndAt, Parse, Scan, LastLength, IsLengthLine, LineLength, FilePath, Declares, Relayed, RelayEnd;
    RequestLineRead(s, p, verb, url, version, lines, starts);
    ScanOfBlock(s, lines, [], starts, Primed(memory), -1);
    BlankDeclaresNothing(LastLength(lines, 0, -1));
    if forall k :: 0 <= k < |lines| ==> !Declares(lines[k]) {
      NoLengthLine(lines, 0, -1);
    }
    NotBoth(verb);
  }

  /** A POST request for a missing file is read up to its blank line. */
  lemma PostToMissingFile(s: seq<byte>, p: nat, verb: seq<byte>, url: seq<byte>, version: seq<byte>,
                          lines: seq<seq<byte>>, starts: seq<nat>, memory: seq<byte>, c: byte, fs: FileSystem)
    requires IsRequest(s, p, verb, url, version, lines, starts) && SameIgnoringCase(verb, POST)
    requires |memory| == BUF_SIZE && fs(FilePath(url)) == None
    ensures Handle(s, p, memory, c, fs) == Outcome(NotFound, starts[|lines|] + 2, [])
  {
    hide TextAt, EndAt, Parse, StopPoint, FilePath;
    RequestLineRead(s, p, verb, url, version, lines, starts);
    DiscardStopsAfterBlankLine(s, lines, starts);
    NotBoth(verb);
  }

  /** Any other method is refused with nothing read but the request line, or its first 1023 bytes. */
  lemma OtherMethod(s: seq<byte>, p: nat, verb: seq<byte>, url: seq<byte>, version: seq<byte>,
                    memory: seq<byte>, c: byte, fs: FileSystem)
    requires CrLfLineAt(s, p, verb + [SPACE] + url + [SPACE] + version)
    requires |verb| <= WORD_MAX && 0 < |url| <= WORD_MAX && |memory| == BUF_SIZE
    requires forall b :: b in verb || b in url ==> !IsSpace(b) && b != NUL
    requires !SameIgnoringCase(verb, GET) && !SameIgnoringCase(verb, POST)
    ensures var line := verb + [SPACE] + url + [SPACE] + version;
            var taken := if |line| < ROOM then |line| + 2 else ROOM;
            Handle(s, p, memory, c, fs) == Outcome(Unimplemented, p + taken, [])
  {
    hide TextAt, EndAt, Parse, SameIgnoringCase;
    var line := verb + [SPACE] + url + [SPACE] + version;
    if |line| < ROOM {
      ReadCrLfLine(s, p, line, ROOM);
    } else {
      FullText(s, p, line);
    }
    ReceivedRoundTrip(s, p, verb, url, version);
  }

  /** A GET request, whatever its outcome, is read exactly up to its blank line; path and query are the
      two sides of the first '?' of the URL. */
  lemma GetEndToEnd(s: seq<byte>, p: nat, verb: seq<byte>, url: seq<byte>, version: seq<byte>,
                    lines: seq<seq<byte>>, starts: seq<nat>, memory: seq<byte>, c: byte, fs: FileSystem)
    requires IsRequest(s, p, verb, url, version, lines, starts) && SameIgnoringCase(verb, GET)
    requires |memory| == BUF_SIZE
    ensures var outcome := Handle(s, p, memory, c, fs);
            && outcome.pos == starts[|lines|] + 2 && outcome.body == []
            && match fs(FilePath(PathPart(url)))
               case None => outcome.response == NotFound
               case Some(st) =>
                 && (outcome.response.Script? || outcome.response.File?)
                 && (outcome.response.Script? <==> QUESTION in url || st.isExecutable)
                 && (outcome.response.Script? ==>
                       && outcome.response.query == Some(QueryPart(url))
                       && outcome.response.verb == verb && outcome.response.contentLength == -1)
                 && outcome.response.path == FilePath(PathPart(url)) + if st.isDirectory then DIR_INDEX else []
  {
    hide TextAt, EndAt, Parse, StopPoint, FilePath, PathPart, QueryPart;
    RequestLineRead(s, p, verb, url, version, lines, starts);
    DiscardStopsAfterBlankLine(s, lines, starts);
    NotBoth(verb);
  }

  lemma NotBoth(verb: seq<byte>)
    ensures !(SameIgnoringCase(verb, GET) && SameIgnoringCase(verb, POST))
    ensures SameIgnoringCase(verb, GET) || SameIgnoringCase(verb, POST) ==> |verb| <= WORD_MAX
  {
  }

  /** The request line and the headers as a client prints them, up to the blank line. */
  function PrintedPost(verb: seq<byte>, url: seq<byte>, version: seq<byte>, lines: seq<seq<byte>>): seq<byte> {
    verb + [SPACE] + url + [SPACE] + version + [CR, LF] + Print(lines) + [CR, LF]
  }

  lemma PrintedIsRequest(verb: seq<byte>, url: seq<byte>, version: seq<byte>, lines: seq<seq<byte>>, tail: seq<byte>)
    requires |verb + [SPACE] + url + [SPACE] + version| < ROOM && CR !in version && LF !in version
    requires 0 < |url| <= WORD_MAX && forall b :: b in verb || b in url ==> !IsSpace(b) && b != NUL
    requires PlainHeaders(lines)
    ensures var start := |verb| + 1 + |url| + 1 + |version| + 2;
            var s := PrintedPost(verb, url, version, lines) + tail;
            && IsRequest(s, 0, verb, url, version, lines, Starts(lines, start))
            && Starts(lines, start)[|lines|] + 2 == |PrintedPost(verb, url, version, lines)|
  {
    hide CrLfLineAt, HeadersUntil, Starts, Print;
    var line := verb + [SPACE] + url + [SPACE] + version;
    var first := line + [CR, LF];
    var s := PrintedPost(verb, url, version, lines) + tail;
    PlainRequestLine(verb, url, version);
    assert s == [] + line + [CR, LF] + (Print(lines) + [CR, LF] + tail);
    LineInPlace([], line, Print(lines) + [CR, LF] + tail);
    assert s == first + Print(lines) + [CR, LF] + tail;
    PrintedBlock(first, lines, tail);
  }

  lemma {:induction false} DecimalShort(n: nat, bound: nat, digits: nat)
    requires n < bound && 0 < digits && bound <= PowerOfTen(digits)
    ensures |Decimal(n)| <= digits
    decreases digits
  {
    if n >= 10 {
      DecimalShort(n / 10, PowerOfTen(digits - 1), digits - 1);
    }
  }

  function PowerOfTen(k: nat): nat {
    if k == 0 then 1 else 10 * PowerOfTen(k - 1)
  }

  lemma LengthHeaderFits(name: seq<byte>, n: nat)
    requires SameIgnoringCase(name, CONTENT_LENGTH) && n < 0x8000_0000
    ensures |name + [SPACE] + Decimal(n)| < ROOM
  {
    assert PowerOfTen(5) == 100000;
    assert PowerOfTen(10) == 10000000000;
    DecimalShort(n, PowerOfTen(10), 10);
    assert |name| == 15;
  }

  /** A POST request that declares the length of its body in any place among its headers delivers exactly
      this body; `rest` stays in the stream. */
  lemma PrintedPostDelivers(verb: seq<byte>, url: seq<byte>, version: seq<byte>,
                            before: seq<seq<byte>>, name: seq<byte>, after: seq<seq<byte>>,
                            body: seq<byte>, rest: seq<byte>, memory: seq<byte>, c: byte, fs: FileSystem)
    requires SameIgnoringCase(verb, POST) && SameIgnoringCase(name, CONTENT_LENGTH)
    requires 0 < |url| <= WORD_MAX && forall b :: b in verb || b in url ==> !IsSpace(b) && b != NUL
    requires |verb + [SPACE] + url + [SPACE] + version| < ROOM && CR !in version && LF !in version
    requires |body| < 0x8000_0000 && |memory| == BUF_SIZE && fs(FilePath(url)) != None
    requires PlainHeaders(before + [name + [SPACE] + Decimal(|body|)] + after)
    requires forall i :: 0 <= i < |after| ==> !Declares(after[i])
    ensures var lines := before + [name + [SPACE] + Decimal(|body|)] + after;
            var s := PrintedPost(verb, url, version, lines) + (body + rest);
            var outcome := Handle(s, 0, memory, c, fs);
            && outcome.response.Script? && outcome.response.contentLength == |body|
            && outcome.body == body
            && outcome.pos == |s| - |rest|
  {
    hide Handle, IsRequest, IsLengthLine, LineLength, SameIgnoringCase, Decimal, FilePath, Starts, PrintedPost;
    hide Declares;
    var header := name + [SPACE] + Decimal(|body|);
    var lines := before + [header] + after;
    var s := PrintedPost(verb, url, version, lines) + (body + rest);
    var starts := Starts(lines, |verb| + 1 + |url| + 1 + |version| + 2);
    PrintedIsRequest(verb, url, version, lines, body + rest);
    assert name + [SPACE] + [] + [] + Decimal(|body|) + [] == header;
    LengthLineValue(name, SPACE, [], [], |body|, []);
    LengthHeaderFits(name, |body|);
    var j := |before|;
    assert lines[j] == header;
    assert forall k :: j < k < |lines| ==> lines[k] == after[k - j - 1];
    PostEndToEnd(s, 0, verb, url, version, lines, starts, j, |body|, memory, c, fs);
    var start := starts[|lines|] + 2;
    assert s[start..] == body + rest;
    assert s[start..start + |body|] == body;
  }

  /** A request for an existing script that declares one byte and breaks off before it: the script receives
      the uninitialised byte. */
  lemma StaleByteReachesScript(memory: seq<byte>, c: byte, fs: FileSystem)
    requires |memory| == BUF_SIZE && fs(FilePath([SLASH])) != None
    ensures var s := PrintedPost(POST, [SLASH], [], [CONTENT_LENGTH + [SPACE] + Decimal(1)]);
            Handle(s, 0, memory, c, fs).body == [c]
  {
    hide Handle, IsRequest, LineLength, Decimal, FilePath, Starts, PrintedPost, IsLengthLine;
    var header: seq<byte> := CONTENT_LENGTH + [SPACE] + Decimal(1);
    var lines := [header];
    var s := PrintedPost(POST, [SLASH], [], lines);
    LengthLineValue(CONTENT_LENGTH, SPACE, [], [], 1, []);
    LengthHeaderFits(CONTENT_LENGTH, 1);
    assert CONTENT_LENGTH + [SPACE] + [] + [] + Decimal(1) + [] == header;
    PlainLengthHeader(1);
    assert PlainHeaders(lines);
    PrintedIsRequest(POST, [SLASH], [], lines, []);
    assert s + [] == s;
    PostEndToEnd(s, 0, POST, [SLASH], [], lines, Starts(lines, 9), 0, 1, memory, c, fs);
    assert s[|s|..] == [];
  }

  lemma PlainLengthHeader(n: nat)
    requires n < 0x8000_0000
    ensures PlainHeader(CONTENT_LENGTH + [SPACE] + Decimal(n))
  {
    hide Decimal;
    var header: seq<byte> := CONTENT_LENGTH + [SPACE] + Decimal(n);
    LengthHeaderFits(CONTENT_LENGTH, n);
    PlainName();
    forall i | 0 <= i < |header|
      ensures header[i] != CR && header[i] != LF
    {
      assert i < 15 ==> header[i] == CONTENT_LENGTH[i] && header[i] in CONTENT_LENGTH;
      assert i > 15 ==> header[i] == Decimal(n)[i - 16] && IsDigit(header[i]);
    }
  }

  lemma PlainRequestLine(verb: seq<byte>, url: seq<byte>, version: seq<byte>)
    requires forall b :: b in verb || b in url ==> !IsSpace(b)
    requires CR !in version && LF !in version
    ensures var line := verb + [SPACE] + url + [SPACE] + version;
            CR !in line && LF !in line
  {
    var line := verb + [SPACE] + url + [SPACE] + version;
    forall b | b in line
      ensures b != CR && b != LF
    {
      assert b in verb || b in url || b in version || b == SPACE;
    }
  }

  lemma UrlFits(t: seq<byte>)
    ensures |Parse(t).url| <= WORD_MAX
  {
  }

  /** The path, with both index suffixes, takes at most 281 bytes. */
  lemma PathFits(t: seq<byte>, fs: FileSystem)
    ensures var r := Route(t, fs);
            r.File? || r.Script? ==> |r.path| <= 281
  {
    hide Parse, FilePath, QueryPart;
    UrlFits(t);
    var u := Parse(t).url;
    assert |FilePath(u)| <= 270 && |FilePath(PathPart(u))| <= 270;
  }
}
