/** The "read & discard headers" loop that accept_request, execute_cgi and serve_file share. */
module HeaderDiscard {
  import opened Bytes
  import opened ClientSocket
  import opened LineReader

  /** sizeof(buf) in all three callers, and the bytes it has room for beside the terminator. */
  const BUF_SIZE := 1024
  const ROOM: nat := 1023

  /** numchars > 0 and strcmp("\n", buf) != 0, for what one call handed over. */
  predicate KeepsReading(text: seq<byte>) {
    text != [] && text != [LF]
  }

  /** strcmp("\n", buf) sees the C string in `buf`, get_line's result may hold NULs before its end. */
  lemma LoopGuard(text: seq<byte>, memory: seq<byte>)
    requires |text| < |memory| && memory[..|text|] == text && memory[|text|] == NUL
    requires OneLine(text)
    ensures |text| > 0 && CString(memory) != [LF] <==> KeepsReading(text)
  {
    CStringPrefix(text, memory);
    var c := CString(text);
    if c == [LF] {
      assert text[0] == c[0];
    }
    if text == [LF] {
      CStringUnique(text, 1);
    }
  }

  /** The buffer after get_line stored `text` in it. */
  function Overwritten(memory: seq<byte>, text: seq<byte>): (m: seq<byte>)
    requires |text| < |memory|
    ensures |m| == |memory|
  {
    text + [NUL] + memory[|text| + 1..]
  }

  lemma StoredLine(before: seq<byte>, text: seq<byte>, after: seq<byte>)
    requires |text| < |before| == |after|
    requires after[..|text|] == text && after[|text|] == NUL
    requires forall j :: |text| < j < |after| ==> after[j] == before[j]
    ensures after == Overwritten(before, text)
  {
    assert after[|text| + 1..] == before[|text| + 1..];
    assert after == after[..|text|] + [after[|text|]] + after[|text| + 1..];
  }

  /** get_line(client, buf, sizeof(buf)): the line, the whole buffer after it, and what the loop test then
      makes of the buffer. */
  method ReadLine(sock: ClientSocket, buf: array<byte>) returns (numchars: nat)
    requires sock.Valid() && buf.Length == BUF_SIZE
    modifies sock, buf
    ensures sock.Valid() && numchars <= ROOM && buf[numchars] == NUL && OneLine(buf[..numchars])
    ensures buf[..numchars] == TextAt(sock.data, old(sock.pos), ROOM)
    ensures sock.pos == EndAt(sock.data, old(sock.pos), ROOM)
    ensures buf[..] == Overwritten(old(buf[..]), TextAt(sock.data, old(sock.pos), ROOM))
    ensures numchars > 0 && CString(buf[..]) != [LF] <==> KeepsReading(buf[..numchars])
  {
    numchars := GetLine(sock, buf, BUF_SIZE);
    ghost var text := buf[..numchars];
    LineReadIsUnique(sock.data, old(sock.pos), ROOM, text, sock.pos);
    LoopGuard(text, buf[..]);
    StoredLine(old(buf[..]), text, buf[..]);
  }

  /** The next line is neither missing nor empty. */
  predicate AtText(s: seq<byte>, p: nat) {
    p < |s| && !IsEol(s[p])
  }

  /** That is what the loop test sees of the line it reads. */
  lemma KeepsReadingIsAtText(s: seq<byte>, p: nat)
    requires p <= |s|
    ensures KeepsReading(TextAt(s, p, ROOM)) <==> AtText(s, p)
  {
    TextPieces(s, p, ROOM);
    if AtText(s, p) {
      assert TextAt(s, p, ROOM)[0] == s[p];
    } else {
      assert PlainEnd(s, p, ROOM) == p;
      assert s[p..p] == [];
    }
  }

  /** The lines that repeated reads from `p` hand over before one that is empty or a lone LF, and where
      that last read leaves the stream. */
  datatype Reading = Reading(texts: seq<seq<byte>>, end: nat)

  function ReadHeaders(s: seq<byte>, p: nat): (r: Reading)
    requires p <= |s|
    ensures p <= r.end <= |s|
    decreases |s| - p
  {
    var e := EndAt(s, p, ROOM);
    if !AtText(s, p) then Reading([], e)
    else
      var r := ReadHeaders(s, e);
      Reading([TextAt(s, p, ROOM)] + r.texts, r.end)
  }

  function DiscardEnd(s: seq<byte>, p: nat): (q: nat)
    requires p <= |s|
    ensures p <= q <= |s|
  {
    ReadHeaders(s, p).end
  }

  lemma ReadHeadersStep(s: seq<byte>, p: nat)
    requires p <= |s|
    ensures var text, e := TextAt(s, p, ROOM), EndAt(s, p, ROOM);
            if KeepsReading(text) then
              p < e && ReadHeaders(s, p) == Reading([text] + ReadHeaders(s, e).texts, ReadHeaders(s, e).end)
            else ReadHeaders(s, p) == Reading([], e)
  {
    KeepsReadingIsAtText(s, p);
  }

  /** Right after the whole line at `p`, however long. */
  function LineEnd(s: seq<byte>, p: nat): (q: nat)
    requires p <= |s|
    ensures p <= q <= |s|
    ensures p < PlainEnd(s, p, |s|) ==> p < q
  {
    var m := PlainEnd(s, p, |s|);
    if m < |s| then m + UnitLen(s, m) else m
  }

  /** Reference stopping point, over whole lines however long: right after the first line that ends
      in a line terminator and whose length without it is a multiple of 1023, else at the end. */
  function StopPoint(s: seq<byte>, p: nat): (q: nat)
    requires p <= |s|
    ensures p <= q <= |s|
    decreases |s| - p
  {
    var m := PlainEnd(s, p, |s|);
    if m == |s| || (m - p) % ROOM == 0 then LineEnd(s, p) else StopPoint(s, LineEnd(s, p))
  }

  lemma {:induction false} PlainEndUnique(s: seq<byte>, p: nat, k: nat, m: nat)
    requires p <= m <= |s| && m <= p + k
    requires forall i :: p <= i < m ==> !IsEol(s[i])
    requires m == |s| || m == p + k || IsEol(s[m])
    ensures PlainEnd(s, p, k) == m
    decreases k
  {
    if p < m {
      PlainEndUnique(s, p + 1, k - 1, m);
    }
  }

  /** A read that meets no line terminator fills the buffer and the loop goes on from there, in the
      middle of the same line. */
  lemma FullBufferKeepsReading(s: seq<byte>, p: nat)
    requires p <= |s| && PlainEnd(s, p, |s|) - p >= ROOM
    ensures p + ROOM <= |s| && DiscardEnd(s, p) == DiscardEnd(s, p + ROOM)
  {
    PlainEndUnique(s, p, ROOM, p + ROOM);
  }

  lemma StopPointFromMidLine(s: seq<byte>, p: nat)
    requires p <= |s| && PlainEnd(s, p, |s|) - p >= ROOM
    ensures p + ROOM <= |s| && StopPoint(s, p) == StopPoint(s, p + ROOM)
  {
    hide PlainEnd;
    PlainEndUnique(s, p + ROOM, |s|, PlainEnd(s, p, |s|));
  }

  /** The rest of a line that fits is read in one go. */
  lemma ShortRead(s: seq<byte>, p: nat)
    requires p <= |s| && PlainEnd(s, p, |s|) - p < ROOM
    ensures DiscardEnd(s, p) == if p < PlainEnd(s, p, |s|) then DiscardEnd(s, LineEnd(s, p)) else LineEnd(s, p)
  {
    PlainEndUnique(s, p, ROOM, PlainEnd(s, p, |s|));
  }

  lemma StopPointOfShortLine(s: seq<byte>, p: nat)
    requires p <= |s| && PlainEnd(s, p, |s|) - p < ROOM
    ensures StopPoint(s, p) == if p < PlainEnd(s, p, |s|) then StopPoint(s, LineEnd(s, p)) else LineEnd(s, p)
  {
    var m := PlainEnd(s, p, |s|);
    assert (m - p) % ROOM == 0 <==> m == p;
  }

  /** The loop stops exactly at the reference point. */
  lemma {:induction false} DiscardStopsAt(s: seq<byte>, p: nat)
    requires p <= |s|
    ensures DiscardEnd(s, p) == StopPoint(s, p)
    decreases |s| - p
  {
    hide ReadHeaders, StopPoint, PlainEnd;
    if PlainEnd(s, p, |s|) - p >= ROOM {
      FullBufferKeepsReading(s, p);
      StopPointFromMidLine(s, p);
      DiscardStopsAt(s, p + ROOM);
    } else {
      ShortRead(s, p);
      StopPointOfShortLine(s, p);
      if p < PlainEnd(s, p, |s|) {
        DiscardStopsAt(s, LineEnd(s, p));
      }
    }
  }

  /** Right after the first empty line, or the end of the stream: where "read & discard headers" is meant
      to stop. */
  function FirstBlank(s: seq<byte>, p: nat): (q: nat)
    requires p <= |s|
    ensures p <= q <= |s|
    decreases |s| - p
  {
    var m := PlainEnd(s, p, |s|);
    if m == |s| || m == p then LineEnd(s, p) else FirstBlank(s, LineEnd(s, p))
  }

  /** A line before the first empty one that fills the buffer a whole number of times, with something
      after it. */
  predicate FalseBlank(s: seq<byte>, p: nat)
    requires p <= |s|
    decreases |s| - p
  {
    var m := PlainEnd(s, p, |s|);
    && p < m < |s|
    && (if (m - p) % ROOM == 0 then LineEnd(s, p) < |s| else FalseBlank(s, LineEnd(s, p)))
  }

  lemma LineEndOfText(s: seq<byte>, p: nat)
    requires p <= |s| && p < PlainEnd(s, p, |s|)
    ensures p < LineEnd(s, p) <= FirstBlank(s, p)
    ensures LineEnd(s, p) < |s| ==> LineEnd(s, p) < FirstBlank(s, p)
  {
    if LineEnd(s, p) < |s| {
      var e := LineEnd(s, p);
      assert FirstBlank(s, e) > e;
    }
  }

  /** The loop stops at the first empty line exactly when there is no such line before it. */
  lemma {:induction false} StopsAtFirstBlankIff(s: seq<byte>, p: nat)
    requires p <= |s|
    ensures StopPoint(s, p) == FirstBlank(s, p) <==> !FalseBlank(s, p)
    decreases |s| - p
  {
    hide PlainEnd;
    var m := PlainEnd(s, p, |s|);
    if p < m < |s| {
      LineEndOfText(s, p);
      if (m - p) % ROOM != 0 {
        StopsAtFirstBlankIff(s, LineEnd(s, p));
      }
    }
  }

  /** The failing family is real: after 1023 letters and a newline the loop stops, although the blank line
      comes only after the next line. */
  lemma LongLineIsFalseBlank()
    ensures var s := seq(ROOM, _ => 65) + [LF, 65, LF, LF, 65];
            FalseBlank(s, 0) && StopPoint(s, 0) == 1024 && FirstBlank(s, 0) == 1027
  {
    hide PlainEnd;
    var s: seq<byte> := seq(ROOM, _ => 65) + [LF, 65, LF, LF, 65];
    PlainEndUnique(s, 0, |s|, ROOM);
    PlainEndUnique(s, 1024, |s|, 1025);
    PlainEndUnique(s, 1026, |s|, 1026);
    assert FirstBlank(s, 1026) == 1027;
    assert FirstBlank(s, 1024) == 1027;
  }

  /** `line` stands at `p`, free of line terminators and followed by CRLF. */
  predicate CrLfLineAt(s: seq<byte>, p: nat, line: seq<byte>) {
    && p + |line| + 2 <= |s|
    && (forall j :: 0 <= j < |line| ==> s[p + j] == line[j] && !IsEol(line[j]))
    && s[p + |line|] == CR && s[p + |line| + 1] == LF
  }

  /** A line the loop does not take for the end of the headers: its length is no multiple of 1023. */
  predicate IsHeader(line: seq<byte>) {
    |line| % ROOM != 0
  }

  /** The header lines `lines`, of any other length, stand one after the other at `starts`, and the line
      `last`, which the loop does take for the end, follows at the last of these positions. */
  predicate HeadersUntil(s: seq<byte>, lines: seq<seq<byte>>, last: seq<byte>, starts: seq<nat>) {
    && |starts| == |lines| + 1
    && CrLfLineAt(s, starts[|lines|], last) && !IsHeader(last)
    && forall i {:trigger lines[i]} :: 0 <= i < |lines| ==>
         && IsHeader(lines[i])
         && CrLfLineAt(s, starts[i], lines[i])
         && starts[i + 1] == starts[i] + |lines[i]| + 2
  }

  /** The same with an empty line at the end, as it should be. */
  predicate HeaderBlock(s: seq<byte>, lines: seq<seq<byte>>, starts: seq<nat>) {
    HeadersUntil(s, lines, [], starts)
  }

  lemma PlainLine(s: seq<byte>, p: nat, line: seq<byte>)
    requires CrLfLineAt(s, p, line)
    ensures s[p..p + |line|] == line
    ensures forall i :: p <= i < p + |line| ==> !IsEol(s[i])
  {
    forall i | p <= i < p + |line|
      ensures !IsEol(s[i])
    {
      assert s[p + (i - p)] == line[i - p];
    }
  }

  /** A CRLF line that fits is handed over whole, with its terminator turned into LF. */
  lemma ReadCrLfLine(s: seq<byte>, p: nat, line: seq<byte>, k: nat)
    requires CrLfLineAt(s, p, line) && |line| < k
    ensures TextAt(s, p, k) == line + [LF] && EndAt(s, p, k) == p + |line| + 2
  {
    PlainLine(s, p, line);
    PlainEndUnique(s, p, k, p + |line|);
    TextPieces(s, p, k);
  }

  /** The three line terminators, byte by byte: LF, CRLF, and a CR that no LF follows. A line that fits and
      ends in one of them is handed over with a single LF, and the read takes the terminator and no more. */
  lemma ReadTerminatedLine(s: seq<byte>, p: nat, line: seq<byte>, ending: seq<byte>, k: nat)
    requires p + |line| + |ending| <= |s| && |line| < k
    requires s[p..p + |line|] == line && forall i :: 0 <= i < |line| ==> line[i] != 13 && line[i] != 10
    requires s[p + |line|..p + |line| + |ending|] == ending
    requires ending == [10] || ending == [13, 10] || ending == [13]
    requires ending == [13] && p + |line| + 1 < |s| ==> s[p + |line| + 1] != 10
    ensures TextAt(s, p, k) == line + [10] && EndAt(s, p, k) == p + |line| + |ending|
  {
    hide TextAt, PlainEnd;
    var m := p + |line|;
    assert s[m] == ending[0];
    assert |ending| == 2 ==> s[m + 1] == ending[1];
    assert forall i :: p <= i < m ==> s[i] == line[i - p];
    PlainEndUnique(s, p, k, m);
    TextPieces(s, p, k);
  }

  predicate PlainHeader(line: seq<byte>) {
    IsHeader(line) && CR !in line && LF !in line
  }

  predicate PlainHeaders(lines: seq<seq<byte>>) {
    forall i :: 0 <= i < |lines| ==> PlainHeader(lines[i])
  }

  /** Lines as a peer sends them, and where each starts when the first is at `p`. */
  function Print(lines: seq<seq<byte>>): seq<byte> {
    if lines == [] then [] else lines[0] + [CR, LF] + Print(lines[1..])
  }

  function Starts(lines: seq<seq<byte>>, p: nat): (starts: seq<nat>)
    ensures |starts| == |lines| + 1 && starts[0] == p
    ensures starts[|lines|] == p + |Print(lines)|
  {
    if lines == [] then [p] else [p] + Starts(lines[1..], p + |lines[0]| + 2)
  }

  lemma LineInPlace(before: seq<byte>, line: seq<byte>, after: seq<byte>)
    requires CR !in line && LF !in line
    ensures CrLfLineAt(before + line + [CR, LF] + after, |before|, line)
  {
    var s := before + line + [CR, LF] + after;
    assert forall j :: 0 <= j < |line| ==> s[|before| + j] == line[j] && line[j] in line;
  }

  lemma LongerBlock(s: seq<byte>, lines: seq<seq<byte>>, p: nat)
    requires lines != [] && PlainHeader(lines[0]) && CrLfLineAt(s, p, lines[0])
    requires HeaderBlock(s, lines[1..], Starts(lines[1..], p + |lines[0]| + 2))
    ensures HeaderBlock(s, lines, Starts(lines, p))
  {
    hide CrLfLineAt, IsHeader;
    var later, starts := Starts(lines[1..], p + |lines[0]| + 2), Starts(lines, p);
    assert starts == [p] + later;
    forall i | 0 <= i < |lines|
      ensures IsHeader(lines[i]) && CrLfLineAt(s, starts[i], lines[i]) && starts[i + 1] == starts[i] + |lines[i]| + 2
    {
      if i > 0 {
        assert lines[i] == lines[1..][i - 1];
      }
    }
  }

  lemma BlankBlock(before: seq<byte>, after: seq<byte>)
    ensures HeaderBlock(before + Print([]) + [CR, LF] + after, [], Starts([], |before|))
  {
    assert before + Print([]) + [CR, LF] + after == before + [] + [CR, LF] + after;
    LineInPlace(before, [], after);
  }

  lemma PrintedFirst(before: seq<byte>, lines: seq<seq<byte>>, after: seq<byte>)
    requires lines != []
    ensures var s, rest := before + Print(lines) + [CR, LF] + after, Print(lines[1..]);
            && s == before + lines[0] + [CR, LF] + (rest + [CR, LF] + after)
            && s == (before + lines[0] + [CR, LF]) + rest + [CR, LF] + after
  {
    assert Print(lines) == lines[0] + [CR, LF] + Print(lines[1..]);
  }

  /** Any printed headers, wherever in a stream, are a header block. */
  lemma {:induction false} PrintedBlock(before: seq<byte>, lines: seq<seq<byte>>, after: seq<byte>)
    requires PlainHeaders(lines)
    ensures HeaderBlock(before + Print(lines) + [CR, LF] + after, lines, Starts(lines, |before|))
    decreases lines
  {
    hide CrLfLineAt, IsHeader, HeaderBlock, Starts, Print;
    if lines == [] {
      BlankBlock(before, after);
    } else {
      assert PlainHeader(lines[0]);
      PrintedFirst(before, lines, after);
      LineInPlace(before, lines[0], Print(lines[1..]) + [CR, LF] + after);
      PrintedBlock(before + lines[0] + [CR, LF], lines[1..], after);
      LongerBlock(before + Print(lines) + [CR, LF] + after, lines, |before|);
    }
  }

  /** What get_line makes of a line: pieces of 1023 bytes, and the rest with an LF if there is a rest. */
  function Pieces(line: seq<byte>): seq<seq<byte>> {
    if line == [] then []
    else if |line| < ROOM then [line + [LF]]
    else [line[..ROOM]] + Pieces(line[ROOM..])
  }

  /** What it makes of the header lines from the i-th on and the one that ends them. */
  function Received(lines: seq<seq<byte>>, last: seq<byte>, i: nat): seq<seq<byte>>
    requires i <= |lines|
    decreases |lines| - i
  {
    if i == |lines| then Pieces(last) else Pieces(lines[i]) + Received(lines, last, i + 1)
  }

  lemma RestOfLine(s: seq<byte>, p: nat, line: seq<byte>)
    requires CrLfLineAt(s, p, line) && |line| >= ROOM
    ensures CrLfLineAt(s, p + ROOM, line[ROOM..])
  {
    var rest := line[ROOM..];
    forall k | 0 <= k < |rest|
      ensures s[p + ROOM + k] == rest[k] && !IsEol(rest[k])
    {
      assert rest[k] == line[ROOM + k] && s[p + (ROOM + k)] == line[ROOM + k];
    }
  }

  lemma FullText(s: seq<byte>, p: nat, line: seq<byte>)
    requires CrLfLineAt(s, p, line) && |line| >= ROOM
    ensures TextAt(s, p, ROOM) == line[..ROOM] && EndAt(s, p, ROOM) == p + ROOM
  {
    hide TextAt, PlainEnd;
    PlainLine(s, p, line);
    PlainEndUnique(s, p, ROOM, p + ROOM);
    TextPieces(s, p, ROOM);
    assert s[p..p + |line|][..ROOM] == s[p..p + ROOM];
  }

  /** The first 1023 bytes of a long line are read, and the rest of the line is next. */
  lemma ReadFullPiece(s: seq<byte>, p: nat, line: seq<byte>)
    requires CrLfLineAt(s, p, line) && |line| >= ROOM
    ensures CrLfLineAt(s, p + ROOM, line[ROOM..])
    ensures var rest := ReadHeaders(s, p + ROOM);
            ReadHeaders(s, p) == Reading([line[..ROOM]] + rest.texts, rest.end)
  {
    hide TextAt, EndAt, ReadHeaders;
    RestOfLine(s, p, line);
    FullText(s, p, line);
    assert |line[..ROOM]| == ROOM;
    ReadHeadersStep(s, p);
  }

  lemma ReadShortLine(s: seq<byte>, p: nat, line: seq<byte>)
    requires CrLfLineAt(s, p, line) && |line| < ROOM
    ensures var rest := ReadHeaders(s, p + |line| + 2);
            ReadHeaders(s, p) == if line == [] then Reading([], p + 2)
                                 else Reading([line + [LF]] + rest.texts, rest.end)
  {
    ReadCrLfLine(s, p, line, ROOM);
    PlainLine(s, p, line);
  }

  /** The reads hand over the pieces of a line and stop after it if its length is a multiple of 1023. */
  lemma {:induction false} ReadHeaderLine(s: seq<byte>, p: nat, line: seq<byte>)
    requires CrLfLineAt(s, p, line)
    ensures p + |line| + 2 <= |s|
    ensures var rest := ReadHeaders(s, p + |line| + 2);
            ReadHeaders(s, p) == if IsHeader(line) then Reading(Pieces(line) + rest.texts, rest.end)
                                 else Reading(Pieces(line), p + |line| + 2)
    decreases |line|
  {
    hide ReadHeaders, CrLfLineAt;
    if |line| < ROOM {
      ReadShortLine(s, p, line);
      LineInStream(s, p, line);
    } else {
      ReadFullPiece(s, p, line);
      ReadHeaderLine(s, p + ROOM, line[ROOM..]);
      LineInStream(s, p, line);
      assert IsHeader(line) <==> IsHeader(line[ROOM..]);
    }
  }

  lemma LineInStream(s: seq<byte>, p: nat, line: seq<byte>)
    requires CrLfLineAt(s, p, line)
    ensures p + |line| + 2 <= |s|
  {
  }

  /** On header lines of any length the reads hand over the pieces of each and stop right after the first
      line they take for blank, whatever follows. */
  lemma {:induction false} ReadHeaderBlock(s: seq<byte>, lines: seq<seq<byte>>, last: seq<byte>,
                                           starts: seq<nat>, i: nat)
    requires HeadersUntil(s, lines, last, starts) && i <= |lines|
    ensures starts[i] <= |s|
    ensures ReadHeaders(s, starts[i]) == Reading(Received(lines, last, i), starts[|lines|] + |last| + 2)
    decreases |lines| - i
  {
    hide ReadHeaders, IsHeader, Pieces;
    if i == |lines| {
      ReadHeaderLine(s, starts[i], last);
    } else {
      ReadHeaderLine(s, starts[i], lines[i]);
      ReadHeaderBlock(s, lines, last, starts, i + 1);
    }
  }

  /** So the discard loop stops there too. */
  lemma DiscardStopsAfterBlankLine(s: seq<byte>, lines: seq<seq<byte>>, starts: seq<nat>)
    requires HeaderBlock(s, lines, starts)
    ensures starts[0] <= |s| && StopPoint(s, starts[0]) == starts[|lines|] + 2
  {
    ReadHeaderBlock(s, lines, [], starts, 0);
    DiscardStopsAt(s, starts[0]);
  }

  /** The loop that reads lines until one is empty, entered with `n` bytes and a terminator already in
      `buf`. */
  method DiscardHeaders(sock: ClientSocket, buf: array<byte>, n: nat)
    requires sock.Valid() && buf.Length == BUF_SIZE
    requires n <= ROOM && buf[n] == NUL && OneLine(buf[..n])
    modifies sock, buf
    ensures sock.Valid()
    ensures sock.pos == if KeepsReading(old(buf[..n])) then StopPoint(sock.data, old(sock.pos)) else old(sock.pos)
  {
    hide ReadHeaders, TextAt, EndAt, StopPoint, CString;
    var numchars := n;
    ghost var text, start := buf[..n], sock.pos;
    LoopGuard(text, buf[..]);
    DiscardStopsAt(sock.data, sock.pos);
    while numchars > 0 && CString(buf[..]) != [LF]
      invariant sock.Valid() && numchars <= ROOM && |text| == numchars
      invariant numchars > 0 && CString(buf[..]) != [LF] <==> KeepsReading(text)
      invariant if KeepsReading(text) then DiscardEnd(sock.data, sock.pos) == DiscardEnd(sock.data, start)
                else sock.pos == if KeepsReading(old(buf[..n])) then DiscardEnd(sock.data, start) else start
      invariant KeepsReading(text) ==> KeepsReading(old(buf[..n]))
      decreases KeepsReading(text), |sock.data| - sock.pos
    {
      ReadHeadersStep(sock.data, sock.pos);
      numchars := ReadLine(sock, buf);
      text := buf[..numchars];
    }
  }

  const LETTER_A: byte := 65

  /** The buffer with the one-letter string in it that makes the header loop start. */
  function Primed(memory: seq<byte>): (m: seq<byte>)
    requires |memory| >= 2
    ensures |m| == |memory|
  {
    memory[0 := LETTER_A][1 := NUL]
  }

  /** The loop as serve_file and the GET branch of execute_cgi enter it. */
  method SkipHeaders(sock: ClientSocket, buf: array<byte>)
    requires sock.Valid() && buf.Length == BUF_SIZE
    modifies sock, buf
    ensures sock.Valid()
    ensures sock.pos == StopPoint(sock.data, old(sock.pos))
  {
    buf[0], buf[1] := LETTER_A, NUL;
    assert buf[..1] == [LETTER_A];
    DiscardHeaders(sock, buf, 1);
  }
}
