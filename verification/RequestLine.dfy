/** The request-line parser of accept_request: method, URL, query split and file path. */
module RequestLine {
  import opened Bytes
  import opened ClientSocket
  import opened LineReader
  import opened HeaderDiscard

  /** sizeof(method) - 1 and sizeof(url) - 1. */
  const WORD_MAX: nat := 254
  const PATH_SIZE := 512

  function Ascii(s: string): (b: seq<byte>)
    ensures |b| == |s|
  {
    seq(|s|, i requires 0 <= i < |s| => s[i] as int % 256)
  }

  const GET: seq<byte> := [71, 69, 84]
  const POST: seq<byte> := [80, 79, 83, 84]
  const HTDOCS: seq<byte> := Ascii("htdocs")
  const INDEX: seq<byte> := Ascii("index.html")
  const DIR_INDEX: seq<byte> := Ascii("/index.html")

  /** The bytes of these words. */
  lemma WordBytes()
    ensures GET == [71, 69, 84] && POST == [80, 79, 83, 84]
    ensures HTDOCS == [104, 116, 100, 111, 99, 115]
    ensures INDEX == [105, 110, 100, 101, 120, 46, 104, 116, 109, 108]
    ensures DIR_INDEX == [47] + INDEX
  {
  }

  // ---------------------------------------------------------------- words of a line

  /** End of the run of at most `max` non-space bytes at `j`. */
  function WordEnd(t: seq<byte>, j: nat, max: nat): (e: nat)
    requires j <= |t|
    ensures j <= e <= |t| && e <= j + max
    ensures forall i :: j <= i < e ==> !IsSpace(t[i])
    ensures e == |t| || e == j + max || IsSpace(t[e])
    decreases max
  {
    if j == |t| || max == 0 || IsSpace(t[j]) then j else WordEnd(t, j + 1, max - 1)
  }

  lemma {:induction false} WordEndUnique(t: seq<byte>, j: nat, max: nat, e: nat)
    requires j <= e <= |t| && e <= j + max
    requires forall i :: j <= i < e ==> !IsSpace(t[i])
    requires e == |t| || e == j + max || IsSpace(t[e])
    ensures WordEnd(t, j, max) == e
    decreases max
  {
    if j < e {
      WordEndUnique(t, j + 1, max - 1, e);
    }
  }

  /** End of the run of spaces at `j`. */
  function SpaceEnd(t: seq<byte>, j: nat): (e: nat)
    requires j <= |t|
    ensures j <= e <= |t|
    ensures forall i :: j <= i < e ==> IsSpace(t[i])
    ensures e == |t| || !IsSpace(t[e])
    decreases |t| - j
  {
    if j == |t| || !IsSpace(t[j]) then j else SpaceEnd(t, j + 1)
  }

  lemma {:induction false} SpaceEndUnique(t: seq<byte>, j: nat, e: nat)
    requires j <= e <= |t|
    requires forall i :: j <= i < e ==> IsSpace(t[i])
    requires e == |t| || !IsSpace(t[e])
    ensures SpaceEnd(t, j) == e
    decreases e - j
  {
    if j < e {
      SpaceEndUnique(t, j + 1, e);
    }
  }

  datatype Request = Request(verb: seq<byte>, url: seq<byte>)

  /** What the parser makes of the line `t`, as C strings: a function of the received bytes alone. */
  function Parse(t: seq<byte>): Request {
    var a := WordEnd(t, 0, WORD_MAX);
    var b := SpaceEnd(t, a);
    var c := WordEnd(t, b, WORD_MAX);
    Request(CString(t[..a]), CString(t[b..c]))
  }

  /** A word of `t` at `j`, ended by white space: the parser takes as much of it as fits. */
  lemma WordInPlace(t: seq<byte>, j: nat, word: seq<byte>)
    requires j + |word| < |t| && t[j..j + |word|] == word && IsSpace(t[j + |word|])
    requires forall c :: c in word ==> !IsSpace(c) && c != NUL
    ensures var e := if |word| <= WORD_MAX then j + |word| else j + WORD_MAX;
            WordEnd(t, j, WORD_MAX) == e && CString(t[j..e]) == word[..e - j]
  {
    hide CString, IsSpace;
    var e := if |word| <= WORD_MAX then j + |word| else j + WORD_MAX;
    forall i | j <= i < j + |word|
      ensures !IsSpace(t[i]) && t[i] == word[i - j] && word[i - j] != NUL
    {
      assert t[i] == t[j..j + |word|][i - j] && word[i - j] in word;
    }
    WordEndUnique(t, j, WORD_MAX, e);
    PlainCString(word, e - j);
    assert t[j..e] == word[..e - j];
  }

  lemma SpaceIsSpace()
    ensures IsSpace(SPACE)
  {
  }

  lemma PlainCString(word: seq<byte>, n: nat)
    requires n <= |word| && forall i :: 0 <= i < n ==> word[i] != NUL
    ensures CString(word[..n]) == word[..n]
  {
    assert word[..n][..n] == word[..n];
    CStringUnique(word[..n], n);
  }

  /** Round trip: printing a method and a URL, each without white space or NULs, with any white space between
      them and after them, and parsing gives them back, whatever follows; of a URL, the first 254 bytes. */
  lemma ParsePrinted(verb: seq<byte>, gap: seq<byte>, url: seq<byte>, separator: byte, rest: seq<byte>)
    requires |verb| <= WORD_MAX && url != []
    requires forall c :: c in verb || c in url ==> !IsSpace(c) && c != NUL
    requires gap != [] && IsSpace(separator) && forall i :: 0 <= i < |gap| ==> IsSpace(gap[i])
    ensures var r := Parse(verb + gap + url + [separator] + rest);
            r.verb == verb && r.url == if |url| <= 254 then url else url[..254]
  {
    hide CString, WordEnd, SpaceEnd, IsSpace;
    var t := verb + gap + url + [separator] + rest;
    var a, b := |verb|, |verb| + |gap|;
    assert t[..a] == verb && t[b..b + |url|] == url;
    assert forall i :: a <= i < b ==> t[i] == gap[i - a];
    WordInPlace(t, 0, verb);
    assert !IsSpace(t[b]) by {
      assert t[b] == url[0] && url[0] in url;
    }
    SpaceEndUnique(t, a, b);
    WordInPlace(t, b, url);
  }

  /** Without a second word there is a method and an empty URL. */
  lemma ParseVerbOnly(verb: seq<byte>, gap: seq<byte>)
    requires |verb| <= WORD_MAX && forall c :: c in verb ==> !IsSpace(c) && c != NUL
    requires forall i :: 0 <= i < |gap| ==> IsSpace(gap[i])
    ensures Parse(verb + gap) == Request(verb, [])
  {
    hide WordEnd, SpaceEnd, IsSpace;
    var t, a := verb + gap, |verb|;
    assert t[..a] == verb && verb[..a] == verb;
    forall i | 0 <= i < a
      ensures !IsSpace(t[i]) && verb[i] != NUL
    {
      assert t[i] == verb[i] && verb[i] in verb;
    }
    assert forall i :: a <= i < |t| ==> t[i] == gap[i - a];
    WordEndUnique(t, 0, WORD_MAX, a);
    SpaceEndUnique(t, a, |t|);
    PlainCString(verb, a);
    WordEndUnique(t, |t|, WORD_MAX, |t|);
    assert t[|t|..|t|] == [];
  }

  /** The same through get_line: whatever the version text and the length of the line, and wherever in
      the stream it stands. */
  lemma ReceivedRoundTrip(s: seq<byte>, p: nat, verb: seq<byte>, url: seq<byte>, version: seq<byte>)
    requires CrLfLineAt(s, p, verb + [SPACE] + url + [SPACE] + version)
    requires |verb| <= WORD_MAX && 0 < |url| <= WORD_MAX
    requires forall c :: c in verb || c in url ==> !IsSpace(c) && c != NUL
    ensures Parse(TextAt(s, p, ROOM)) == Request(verb, url)
  {
    hide Parse, TextAt, PlainEnd;
    var printed := verb + [SPACE] + url + [SPACE];
    var line, text := printed + version, TextAt(s, p, ROOM);
    PlainLine(s, p, line);
    if |line| < ROOM {
      ReadCrLfLine(s, p, line, ROOM);
    } else {
      PlainEndUnique(s, p, ROOM, p + ROOM);
      TextPieces(s, p, ROOM);
      assert text == line[..ROOM];
    }
    assert text[..|printed|] == printed;
    SpaceIsSpace();
    assert verb + [SPACE] + url + [SPACE] + text[|printed|..] == text;
    ParsePrinted(verb, [SPACE], url, SPACE, text[|printed|..]);
    assert |url| <= 254;
  }

  /** The loop that fills the method (here `verb`): it ignores numchars, so on a line without a space it runs on into
      stale bytes of `buf`. */
  method CopyMethod(buf: array<byte>, numchars: nat, verb: array<byte>) returns (i: nat)
    requires buf.Length == BUF_SIZE && numchars <= ROOM && buf[numchars] == NUL
    requires verb.Length == WORD_MAX + 1 && verb != buf
    modifies verb
    ensures i <= WORD_MAX
    ensures CString(verb[..]) == Parse(buf[..numchars]).verb
    ensures WordEnd(buf[..numchars], 0, WORD_MAX) == if i <= numchars then i else numchars
  {
    i := 0;
    while !IsSpace(buf[i]) && i < verb.Length - 1
      invariant i <= WORD_MAX
      invariant forall k :: 0 <= k < i ==> verb[k] == buf[k] && !IsSpace(buf[k])
    {
      verb[i] := buf[i];
      i := i + 1;
    }
    verb[i] := NUL;
    VerbCopied(buf[..numchars], buf[..], i, verb[..]);
  }

  /** The first `i` bytes of the whole buffer, copied to the start of `memory`, hold the method. */
  lemma VerbCopied(t: seq<byte>, buf: seq<byte>, i: nat, memory: seq<byte>)
    requires |t| <= |buf| && t == buf[..|t|] && |buf| == BUF_SIZE && (|t| < BUF_SIZE ==> buf[|t|] == NUL)
    requires i <= WORD_MAX < |memory| && memory[i] == NUL
    requires forall k :: 0 <= k < i ==> memory[k] == buf[k] && !IsSpace(buf[k])
    requires i == WORD_MAX || IsSpace(buf[i])
    ensures var e := if i <= |t| then i else |t|;
            WordEnd(t, 0, WORD_MAX) == e && CString(memory) == Parse(t).verb
  {
    var e := if i <= |t| then i else |t|;
    assert forall k :: 0 <= k < |t| ==> t[k] == buf[k];
    WordEndUnique(t, 0, WORD_MAX, e);
    assert memory[..e] == t[..e];
    CStringPrefix(t[..e], memory);
  }

  /** The loops that skip spaces and fill `url`, from where the method ended. */
  method CopyUrl(buf: array<byte>, numchars: nat, start: nat, url: array<byte>)
    requires buf.Length == BUF_SIZE && numchars <= ROOM && buf[numchars] == NUL
    requires start <= WORD_MAX && url.Length == WORD_MAX + 1 && url != buf
    requires WordEnd(buf[..numchars], 0, WORD_MAX) == if start <= numchars then start else numchars
    modifies url
    ensures CString(url[..]) == Parse(buf[..numchars]).url
    ensures |CString(url[..])| <= WORD_MAX
  {
    hide CString, Parse, WordEnd;
    ghost var t := buf[..numchars];
    ghost var a := WordEnd(t, 0, WORD_MAX);
    var i, j := 0, start;
    while IsSpace(buf[j]) && j < numchars
      invariant start <= j <= if start <= numchars then numchars else start
      invariant forall k :: start <= k < j ==> IsSpace(buf[k])
      decreases numchars - j
    {
      j := j + 1;
    }
    ghost var b, word := j, [];
    while !IsSpace(buf[j]) && i < url.Length - 1 && j < numchars
      invariant i <= WORD_MAX && j == b + i
      invariant i == 0 || j <= numchars
      invariant |word| == i && forall k :: 0 <= k < i ==> url[k] == word[k]
      invariant j <= BUF_SIZE && word == buf[b..j]
      invariant forall k :: b <= k < j ==> !IsSpace(buf[k])
      decreases numchars - j
    {
      url[i] := buf[j];
      i, j := i + 1, j + 1;
      word := word + [buf[j - 1]];
    }
    url[i] := NUL;
    assert url[..][..i] == word;
    assert start <= numchars ==> t[b..j] == word;
    if start <= numchars {
      UrlCopied(t, a, b, j, url[..]);
    } else {
      UrlCopied(t, a, a, a, url[..]);
    }
  }

  /** The bytes of `t` between `b` and `e`, copied to the start of `memory`, are the URL. */
  lemma UrlCopied(t: seq<byte>, a: nat, b: nat, e: nat, memory: seq<byte>)
    requires a == WordEnd(t, 0, WORD_MAX) && a <= b <= e <= |t| && e - b <= WORD_MAX < |memory|
    requires forall k :: a <= k < b ==> IsSpace(t[k])
    requires forall k :: b <= k < e ==> !IsSpace(t[k])
    requires b == |t| || !IsSpace(t[b])
    requires e == |t| || e == b + WORD_MAX || IsSpace(t[e])
    requires memory[..e - b] == t[b..e] && memory[e - b] == NUL
    ensures CString(memory) == Parse(t).url && |CString(memory)| <= WORD_MAX
  {
    SpaceEndUnique(t, a, b);
    WordEndUnique(t, b, WORD_MAX, e);
    CStringPrefix(t[b..e], memory);
  }

  // ---------------------------------------------------------------- query split

  /** Index of the first '?' of a URL, or its length. */
  function QueryMark(url: seq<byte>): (q: nat)
    ensures q <= |url| && forall i :: 0 <= i < q ==> url[i] != QUESTION
    ensures q < |url| ==> url[q] == QUESTION
  {
    if url == [] || url[0] == QUESTION then 0 else 1 + QueryMark(url[1..])
  }

  function PathPart(url: seq<byte>): seq<byte> {
    url[..QueryMark(url)]
  }

  function QueryPart(url: seq<byte>): seq<byte> {
    var q := QueryMark(url);
    if q < |url| then url[q + 1..] else []
  }

  /** Rejoining restores the URL, and any other split at a first '?' is this one. */
  lemma SplitRejoins(url: seq<byte>, path: seq<byte>, query: seq<byte>)
    requires QUESTION !in path
    ensures QUESTION !in PathPart(url)
    ensures QUESTION !in url ==> PathPart(url) == url && QueryPart(url) == []
    ensures url == path + [QUESTION] + query <==>
              QUESTION in url && path == PathPart(url) && query == QueryPart(url)
  {
    var q := QueryMark(url);
    if url == path + [QUESTION] + query {
      assert forall i :: 0 <= i < |path| ==> url[i] == path[i];
      assert url[|path|] == QUESTION;
      assert url[..|path|] == path;
    }
    if q < |url| {
      assert url == url[..q] + [QUESTION] + url[q + 1..];
    }
  }

  /** The scan for the first '?' of the URL. */
  method FindMark(url: array<byte>) returns (q: nat)
    requires |CString(url[..])| < url.Length
    ensures q == QueryMark(CString(url[..]))
    ensures q < url.Length && (url[q] == QUESTION <==> q < |CString(url[..])|)
  {
    hide CString, QueryMark;
    ghost var memory := url[..];
    q := 0;
    while url[q] != QUESTION && url[q] != NUL
      invariant q <= |CString(memory)|
      invariant forall i :: 0 <= i < q ==> memory[i] != QUESTION
      decreases |CString(memory)| - q
    {
      q := q + 1;
    }
    QueryMarkUnique(CString(memory), q);
  }

  /** GET only: cuts the URL at its first '?' in place and returns where query_string points. */
  method SplitQuery(url: array<byte>) returns (query: nat, found: bool)
    requires |CString(url[..])| < url.Length
    modifies url
    ensures query <= url.Length
    ensures CString(url[..]) == PathPart(old(CString(url[..])))
    ensures CString(url[query..]) == QueryPart(old(CString(url[..])))
    ensures found <==> QUESTION in old(CString(url[..]))
  {
    hide CString, QueryMark;
    ghost var memory := url[..];
    query := FindMark(url);
    found := url[query] == QUESTION;
    MarkInUrl(CString(memory));
    QueryInTail(memory, query);
    if found {
      url[query] := NUL;
      assert url[..] == memory[..query] + [NUL] + memory[query + 1..];
      PathInFront(memory, query);
      assert url[query + 1..] == memory[query + 1..];
      query := query + 1;
    }
  }

  lemma MarkInUrl(url: seq<byte>)
    ensures QUESTION in url <==> QueryMark(url) < |url|
  {
  }

  /** The rest of a C string is the C string there. */
  lemma QueryInTail(memory: seq<byte>, q: nat)
    requires |CString(memory)| < |memory| && q <= |CString(memory)|
    ensures CString(memory[q..]) == CString(memory)[q..]
    ensures q < |CString(memory)| ==> CString(memory[q + 1..]) == CString(memory)[q + 1..]
  {
    TailOfCString(memory, q);
    if q < |CString(memory)| {
      TailOfCString(memory, q + 1);
    }
  }

  lemma TailOfCString(memory: seq<byte>, q: nat)
    requires |CString(memory)| < |memory| && q <= |CString(memory)|
    ensures CString(memory[q..]) == CString(memory)[q..]
  {
    hide CString;
    var u, tail := CString(memory), memory[q..];
    assert tail[..|u| - q] == u[q..];
    CStringUnique(tail, |u| - q);
  }

  lemma PathInFront(memory: seq<byte>, q: nat)
    requires q < |CString(memory)| && q == QueryMark(CString(memory))
    ensures CString(memory[..q] + [NUL] + memory[q + 1..]) == PathPart(CString(memory))
  {
    assert memory[..q] == CString(memory)[..q];
    CStringStopsAtTerminator(memory[..q], memory[q + 1..]);
    PlainCString(memory, q);
  }

  lemma {:induction false} QueryMarkUnique(url: seq<byte>, q: nat)
    requires q <= |url| && forall i :: 0 <= i < q ==> url[i] != QUESTION
    requires q < |url| ==> url[q] == QUESTION
    ensures QueryMark(url) == q
  {
    if q > 0 {
      QueryMarkUnique(url[1..], q - 1);
    }
  }

  // ---------------------------------------------------------------- file path

  /** The path built from a URL, before and after the directory index is added. */
  function FilePath(url: seq<byte>): (path: seq<byte>)
    ensures 0 < |path| <= 16 + |url|
  {
    var p := HTDOCS + url;
    if p[|p| - 1] == SLASH then p + INDEX else p
  }

  /** The path is "htdocs" and the URL, and "index.html" after a URL that ends in a slash. */
  lemma FilePathIs(url: seq<byte>)
    ensures FilePath(url) == [104, 116, 100, 111, 99, 115] + url
                             + if url != [] && url[|url| - 1] == 47
                               then [105, 110, 100, 101, 120, 46, 104, 116, 109, 108] else []
  {
    WordBytes();
    var p := HTDOCS + url;
    assert p[|p| - 1] == if url == [] then HTDOCS[5] else url[|url| - 1];
  }

  /** strcat(dest, src) for a C string in an array. */
  method StrCat(dest: array<byte>, src: seq<byte>)
    requires |CString(dest[..])| + |src| < dest.Length
    requires NUL !in src
    modifies dest
    ensures CString(dest[..]) == old(CString(dest[..])) + src
  {
    ghost var text := CString(dest[..]);
    var n := |CString(dest[..])|;
    var i := 0;
    while i < |src|
      invariant i <= |src| && |text| == n + i
      invariant forall k :: 0 <= k < |text| ==> dest[k] == text[k] && text[k] != NUL
      invariant text == old(CString(dest[..])) + src[..i]
    {
      dest[n + i] := src[i];
      text := text + [src[i]];
      i := i + 1;
    }
    dest[n + |src|] := NUL;
    assert dest[..][..n + |src|] == text;
    CStringUnique(dest[..], n + |src|);
  }

  lemma PathPieces()
    ensures NUL !in HTDOCS && NUL !in INDEX && NUL !in DIR_INDEX
  {
  }

  /** Prints the document root and the URL into `path` and adds the index file after a final slash. */
  method BuildPath(url: array<byte>, path: array<byte>)
    requires path.Length == PATH_SIZE && url != path
    requires |CString(url[..])| <= WORD_MAX
    modifies path
    ensures CString(path[..]) == FilePath(CString(url[..]))
  {
    PathPieces();
    path[0] := NUL;
    CStringUnique(path[..], 0);
    StrCat(path, HTDOCS);
    StrCat(path, CString(url[..]));
    var p := CString(path[..]);
    assert p == HTDOCS + CString(url[..]);
    if p[|p| - 1] == SLASH {
      StrCat(path, INDEX);
    }
  }
}
