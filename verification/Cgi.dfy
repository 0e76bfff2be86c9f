/** execute_cgi up to the end of the body relay: the Content-Length scan of a POST request and the
    copying of its body to the CGI script. */
module Cgi {
  import opened Bytes
  import opened ClientSocket
  import opened LineReader
  import opened HeaderDiscard
  import opened RequestLine

  // ---------------------------------------------------------------- atoi

  predicate IsDigit(c: byte) {
    48 <= c <= 57
  }

  /** Value of the leading digits of `s`, after digits worth `acc`. */
  function DigitsValue(s: seq<byte>, acc: nat): nat {
    if s == [] || !IsDigit(s[0]) then acc else DigitsValue(s[1..], 10 * acc + (s[0] - 48))
  }

  /** strtol saturates at 64 bits and atoi keeps the low 32 of them. */
  function ToInt(v: int): (r: int)
    ensures -0x8000_0000 <= v < 0x8000_0000 ==> r == v
    ensures -0x8000_0000 <= r < 0x8000_0000
    ensures -0x8000_0000_0000_0000 <= v < 0x8000_0000_0000_0000 ==> (v - r) % 0x1_0000_0000 == 0
    ensures v >= 0x8000_0000_0000_0000 ==> r == -1
    ensures v < -0x8000_0000_0000_0000 ==> r == 0
  {
    var long := if v >= 0x8000_0000_0000_0000 then 0x7fff_ffff_ffff_ffff
                else if v < -0x8000_0000_0000_0000 then -0x8000_0000_0000_0000 else v;
    var low := long % 0x1_0000_0000;
    if low >= 0x8000_0000 then low - 0x1_0000_0000 else low
  }

  function Atoi(s: seq<byte>): int {
    var t := s[SpaceEnd(s, 0)..];
    if t != [] && t[0] == 45 then ToInt(0 - DigitsValue(t[1..], 0))
    else if t != [] && t[0] == 43 then ToInt(DigitsValue(t[1..], 0))
    else ToInt(DigitsValue(t, 0))
  }

  function Decimal(n: nat): (s: seq<byte>)
    ensures s != [] && forall i :: 0 <= i < |s| ==> IsDigit(s[i])
  {
    if n < 10 then [48 + n] else Decimal(n / 10) + [48 + n % 10]
  }

  lemma {:induction false} DecimalValue(n: nat, tail: seq<byte>)
    ensures DigitsValue(Decimal(n) + tail, 0) == DigitsValue(tail, n)
  {
    var s := Decimal(n) + tail;
    if n < 10 {
      assert s[1..] == tail;
    } else {
      var last := [48 + n % 10] + tail;
      assert s == Decimal(n / 10) + last;
      DecimalValue(n / 10, last);
      assert last[1..] == tail;
    }
  }

  /** No sign, a plus or a minus. */
  predicate IsSign(sign: seq<byte>) {
    sign == [] || sign == [43] || sign == [45]
  }

  predicate Blank(blanks: seq<byte>) {
    forall i :: 0 <= i < |blanks| ==> IsSpace(blanks[i])
  }

  /** atoi skips white space, takes a sign and reads back every printed number, up to the first non-digit. */
  lemma AtoiReadsDecimal(blanks: seq<byte>, sign: seq<byte>, n: nat, tail: seq<byte>)
    requires Blank(blanks) && IsSign(sign)
    requires tail != [] ==> !IsDigit(tail[0])
    ensures Atoi(blanks + sign + Decimal(n) + tail) == ToInt(if sign == [45] then 0 - n else n)
  {
    hide Decimal, DigitsValue, SpaceEnd;
    var digits := Decimal(n) + tail;
    var t := sign + digits;
    var s := blanks + sign + Decimal(n) + tail;
    assert s == blanks + t;
    assert digits[0] == Decimal(n)[0] && IsDigit(digits[0]);
    assert t[0] == if sign == [] then digits[0] else sign[0];
    SpaceEndUnique(s, 0, |blanks|);
    assert s[|blanks|..] == t;
    assert sign == [] ==> t == digits;
    assert sign != [] ==> t[1..] == digits;
    DecimalValue(n, tail);
    NoMoreDigits(tail, n);
  }

  lemma NoMoreDigits(tail: seq<byte>, n: nat)
    requires tail != [] ==> !IsDigit(tail[0])
    ensures DigitsValue(tail, n) == n
  {
  }

  /** Without a digit the result is 0. */
  lemma AtoiFindsNothing(blanks: seq<byte>, sign: seq<byte>, tail: seq<byte>)
    requires Blank(blanks) && IsSign(sign)
    requires tail != [] ==> !IsDigit(tail[0]) && !IsSpace(tail[0]) && tail[0] != 43 && tail[0] != 45
    ensures Atoi(blanks + sign + tail) == 0
  {
    hide DigitsValue, SpaceEnd;
    var t, s := sign + tail, blanks + sign + tail;
    assert s == blanks + t;
    SpaceEndUnique(s, 0, |blanks|);
    assert s[|blanks|..] == t;
    assert sign == [] ==> t == tail;
    assert sign != [] ==> t[1..] == tail;
    NoMoreDigits(tail, 0);
  }

  /** The digits are those of base ten. */
  lemma DecimalIs(a: nat, b: nat, c: nat)
    requires 0 < a < 10 && b < 10 && c < 10
    ensures Decimal(c) == [48 + c] && Decimal(10 * a + b) == [48 + a, 48 + b]
    ensures Decimal(100 * a + 10 * b + c) == [48 + a, 48 + b, 48 + c]
  {
    var n := 10 * a + b;
    assert n / 10 == a && n % 10 == b;
    var m := 100 * a + 10 * b + c;
    assert m == 10 * n + c;
    assert m / 10 == n && m % 10 == c;
    assert Decimal(m) == Decimal(n) + [48 + c];
  }

  // ---------------------------------------------------------------- Content-Length scan

  /** "Content-Length:" is 15 bytes; the value is read from column 16. */
  const CONTENT_LENGTH: seq<byte> := Ascii("Content-Length:")

  lemma NameBytes()
    ensures CONTENT_LENGTH == [67, 111, 110, 116, 101, 110, 116, 45, 76, 101, 110, 103, 116, 104, 58]
  {
  }

  predicate Fit(texts: seq<seq<byte>>) {
    forall i :: 0 <= i < |texts| ==> |texts[i]| <= ROOM
  }

  /** One round of the header loop as run on the whole buffer, stale bytes included. */
  function Written(memory: seq<byte>, text: seq<byte>): (m: seq<byte>)
    requires |text| <= ROOM && |memory| == BUF_SIZE
    ensures |m| == BUF_SIZE
  {
    Overwritten(memory, text)[15 := NUL]
  }

  function Found(m: seq<byte>, length: int): int
    requires |m| == BUF_SIZE
  {
    if SameIgnoringCase(CString(m), CONTENT_LENGTH) then Atoi(CString(m[16..])) else length
  }

  /** content_length after the loop has seen `texts`. */
  function LengthIn(texts: seq<seq<byte>>, memory: seq<byte>, length: int): int
    requires Fit(texts) && |memory| == BUF_SIZE
    decreases |texts|
  {
    if |texts| == 0 then length
    else
      var m := Written(memory, texts[0]);
      LengthIn(texts[1..], m, Found(m, length))
  }

  /** What the buffer holds at the two places the loop looks at: the name ... */
  lemma NameView(memory: seq<byte>, text: seq<byte>)
    requires |text| <= ROOM && |memory| == BUF_SIZE
    ensures CString(Written(memory, text)) == CString(if |text| < 15 then text else text[..15])
  {
    var m := Written(memory, text);
    if |text| < 15 {
      assert m[..|text|] == text && m[|text|] == NUL;
      CStringPrefix(text, m);
    } else {
      assert m[..15] == text[..15];
      CStringPrefix(text[..15], m);
    }
  }

  /** ... and the value. */
  lemma ValueView(memory: seq<byte>, text: seq<byte>)
    requires |text| <= ROOM && |memory| == BUF_SIZE
    ensures CString(Written(memory, text)[16..]) == CString(if |text| < 16 then memory[16..] else text[16..])
  {
    var m := Written(memory, text);
    if |text| < 16 {
      assert m[16..] == memory[16..];
    } else {
      var tail, n := m[16..], |text| - 16;
      assert tail[..n] == text[16..] && tail[n] == NUL;
      CStringPrefix(text[16..], tail);
    }
  }

  predicate IsLengthHeader(text: seq<byte>) {
    |text| >= 15 && SameIgnoringCase(CString(text[..15]), CONTENT_LENGTH)
  }

  /** One round of the loop in terms of the line it read and the C string that stood at column 16. */
  function NextLength(text: seq<byte>, stale: seq<byte>, length: int): int {
    if !IsLengthHeader(text) then length
    else if |text| >= 16 then Atoi(CString(text[16..]))
    else Atoi(stale)
  }

  lemma NextLengthIsFound(memory: seq<byte>, text: seq<byte>, length: int)
    requires |text| <= ROOM && |memory| == BUF_SIZE
    ensures Found(Written(memory, text), length) == NextLength(text, CString(memory[16..]), length)
  {
    NameView(memory, text);
    ValueView(memory, text);
    if |text| < 15 {
      assert |CONTENT_LENGTH| == 15;
    }
  }

  /** The same loop in terms of the lines alone: `stale` is the C string at column 16. */
  function LengthOf(texts: seq<seq<byte>>, stale: seq<byte>, length: int): int
    decreases |texts|
  {
    if |texts| == 0 then length
    else
      LengthOf(texts[1..], if |texts[0]| >= 16 then CString(texts[0][16..]) else stale,
               NextLength(texts[0], stale, length))
  }

  lemma {:induction false} LengthInIsLengthOf(texts: seq<seq<byte>>, memory: seq<byte>, length: int)
    requires Fit(texts) && |memory| == BUF_SIZE
    ensures LengthIn(texts, memory, length) == LengthOf(texts, CString(memory[16..]), length)
    decreases |texts|
  {
    if |texts| > 0 {
      ValueView(memory, texts[0]);
      NextLengthIsFound(memory, texts[0], length);
      var m := Written(memory, texts[0]);
      LengthInIsLengthOf(texts[1..], m, Found(m, length));
    }
  }

  /** The last line is a bare 15-byte "Content-Length:" and every line before it was too short to reach
      column 16 of the buffer. */
  predicate ReadsStale(texts: seq<seq<byte>>)
    decreases |texts|
  {
    |texts| > 0 && |texts[0]| < 16 && ((|texts| == 1 && IsLengthHeader(texts[0])) || ReadsStale(texts[1..]))
  }

  /** A bare header, cut off by the end of the stream, can only come last. */
  predicate BareHeaderLast(texts: seq<seq<byte>>) {
    forall i :: 0 <= i < |texts| - 1 ==> !(|texts[i]| == 15 && IsLengthHeader(texts[i]))
  }

  lemma {:induction false} StaleMatters(texts: seq<seq<byte>>, stale: seq<byte>, length: int)
    requires ReadsStale(texts) && BareHeaderLast(texts)
    ensures LengthOf(texts, stale, length) == Atoi(stale)
    decreases |texts|
  {
    if |texts| > 1 {
      assert forall i :: 0 <= i < |texts| - 2 ==> texts[1..][i] == texts[i + 1];
      StaleMatters(texts[1..], stale, NextLength(texts[0], stale, length));
    }
  }

  lemma {:induction false} StaleIgnored(texts: seq<seq<byte>>, a: seq<byte>, b: seq<byte>, length: int)
    requires !ReadsStale(texts) && BareHeaderLast(texts)
    ensures LengthOf(texts, a, length) == LengthOf(texts, b, length)
    decreases |texts|
  {
    if |texts| > 0 && |texts[0]| < 16 {
      assert |texts| > 1 ==> !(|texts[0]| == 15 && IsLengthHeader(texts[0]));
      assert forall i :: 0 <= i < |texts| - 2 ==> texts[1..][i] == texts[i + 1];
      StaleIgnored(texts[1..], a, b, NextLength(texts[0], a, length));
    }
  }

  /** The length found depends on the received lines alone exactly when they do not end that way. */
  lemma LengthIgnoresStaleIff(texts: seq<seq<byte>>, length: int)
    requires Fit(texts) && BareHeaderLast(texts)
    ensures !ReadsStale(texts) <==>
              forall a: seq<byte>, b: seq<byte> :: |a| == |b| == BUF_SIZE ==>
                LengthIn(texts, a, length) == LengthIn(texts, b, length)
  {
    if ReadsStale(texts) {
      var zeros: seq<byte> := seq(BUF_SIZE, _ => NUL);
      var one := zeros[16 := 49];
      StaleLength(texts, zeros, length);
      StaleLength(texts, one, length);
      ZeroAndOne(zeros, one);
    } else {
      forall a: seq<byte>, b: seq<byte> | |a| == |b| == BUF_SIZE
        ensures LengthIn(texts, a, length) == LengthIn(texts, b, length)
      {
        LengthInIsLengthOf(texts, a, length);
        LengthInIsLengthOf(texts, b, length);
        StaleIgnored(texts, CString(a[16..]), CString(b[16..]), length);
      }
    }
  }

  lemma ZeroAndOne(zeros: seq<byte>, one: seq<byte>)
    requires |zeros| == BUF_SIZE && zeros[16] == NUL
    requires one == zeros[16 := 49] && zeros[17] == NUL
    ensures Atoi(CString(zeros[16..])) == 0 && Atoi(CString(one[16..])) == 1
  {
    CStringUnique(zeros[16..], 0);
    CStringUnique(one[16..], 1);
    AtoiReadsDecimal([], [], 1, []);
    assert one[16..][..1] == [] + [] + Decimal(1) + [];
    assert Atoi([]) == 0;
  }

  // ---------------------------------------------------------------- scan of a stream

  datatype ScanResult = ScanResult(pos: nat, length: int)

  /** The header loop on the stream `s` from `p`: `memory` is the whole buffer, stale bytes included. */
  function Scan(s: seq<byte>, p: nat, memory: seq<byte>, length: int): (r: ScanResult)
    requires p <= |s| && |memory| == BUF_SIZE
    ensures p <= r.pos <= |s|
  {
    HeadersFit(s, p);
    ScanResult(ReadHeaders(s, p).end, LengthIn(ReadHeaders(s, p).texts, memory, length))
  }

  /** Every line read fits the buffer, and a bare "Content-Length:" is the end of the stream. */
  lemma {:induction false} HeadersFit(s: seq<byte>, p: nat)
    requires p <= |s|
    ensures Fit(ReadHeaders(s, p).texts) && BareHeaderLast(ReadHeaders(s, p).texts)
    decreases |s| - p
  {
    ReadHeadersStep(s, p);
    LineShape(s, p, ROOM);
    var text, e := TextAt(s, p, ROOM), EndAt(s, p, ROOM);
    if KeepsReading(text) {
      HeadersFit(s, e);
      if |text| == 15 && IsLengthHeader(text) {
        BareHeaderEndsStream(s, p);
      }
    }
  }

  lemma BareHeaderEndsStream(s: seq<byte>, p: nat)
    requires p <= |s| && |TextAt(s, p, ROOM)| == 15 && IsLengthHeader(TextAt(s, p, ROOM))
    ensures EndAt(s, p, ROOM) == |s| && ReadHeaders(s, |s|).texts == []
  {
    var text := TextAt(s, p, ROOM);
    LineShape(s, p, ROOM);
    assert text[..15] == text;
    if text[14] == LF {
      NotAName(text);
    }
    LineShape(s, |s|, ROOM);
    ReadHeadersStep(s, |s|);
  }

  lemma NotAName(text: seq<byte>)
    requires |text| == 15 && text[14] == LF
    ensures !SameIgnoringCase(CString(text), CONTENT_LENGTH)
  {
    var c := CString(text);
    if |c| == 15 {
      assert ToLower(c[14]) == 10 && ToLower(CONTENT_LENGTH[14]) == 58;
    }
  }

  lemma ScanStep(s: seq<byte>, p: nat, memory: seq<byte>, length: int)
    requires p <= |s| && |memory| == BUF_SIZE
    ensures var text, e := TextAt(s, p, ROOM), EndAt(s, p, ROOM);
            if KeepsReading(text) then
              && p < e && |text| <= ROOM
              && Scan(s, p, memory, length) == Scan(s, e, Written(memory, text), Found(Written(memory, text), length))
            else Scan(s, p, memory, length) == ScanResult(e, length)
  {
    ReadHeadersStep(s, p);
    LineShape(s, p, ROOM);
    HeadersFit(s, p);
    var text, e := TextAt(s, p, ROOM), EndAt(s, p, ROOM);
    if KeepsReading(text) {
      HeadersFit(s, e);
      assert ReadHeaders(s, p).texts[1..] == ReadHeaders(s, e).texts;
    }
  }

  /** The scanned length depends on what the peer sent alone exactly when the stream does not end right
      after a bare header that follows short lines only. */
  lemma ScanIgnoresStaleIff(s: seq<byte>, p: nat, length: int)
    requires p <= |s|
    ensures !ReadsStale(ReadHeaders(s, p).texts) <==>
              forall a: seq<byte>, b: seq<byte> :: |a| == |b| == BUF_SIZE ==>
                Scan(s, p, a, length) == Scan(s, p, b, length)
  {
    HeadersFit(s, p);
    LengthIgnoresStaleIff(ReadHeaders(s, p).texts, length);
    var texts := ReadHeaders(s, p).texts;
    if !ReadsStale(texts) {
      forall a: seq<byte>, b: seq<byte> | |a| == |b| == BUF_SIZE
        ensures Scan(s, p, a, length) == Scan(s, p, b, length)
      {
        assert LengthIn(texts, a, length) == LengthIn(texts, b, length);
      }
    } else {
      var a: seq<byte>, b: seq<byte> :|
        |a| == |b| == BUF_SIZE && LengthIn(texts, a, length) != LengthIn(texts, b, length);
      assert Scan(s, p, a, length) != Scan(s, p, b, length);
    }
  }

  /** The failing family is real: this stream declares 0 or 1, depending on what the buffer held. */
  lemma BareHeaderReadsStale()
    ensures var zeros: seq<byte> := seq(BUF_SIZE, _ => NUL);
            && ReadsStale(ReadHeaders(CONTENT_LENGTH, 0).texts)
            && Scan(CONTENT_LENGTH, 0, zeros, -1).length == 0
            && Scan(CONTENT_LENGTH, 0, zeros[16 := 49], -1).length == 1
  {
    hide ReadHeaders, CString, Atoi, LengthOf, LengthIn;
    var s := CONTENT_LENGTH;
    WholeStreamRead(s);
    assert NUL !in s && s[..15] == s;
    CStringUnique(s, 15);
    var zeros: seq<byte> := seq(BUF_SIZE, _ => NUL);
    HeadersFit(s, 0);
    StaleLength([s], zeros, -1);
    StaleLength([s], zeros[16 := 49], -1);
    ZeroAndOne(zeros, zeros[16 := 49]);
  }

  lemma StaleLength(texts: seq<seq<byte>>, memory: seq<byte>, length: int)
    requires Fit(texts) && |memory| == BUF_SIZE && ReadsStale(texts) && BareHeaderLast(texts)
    ensures LengthIn(texts, memory, length) == Atoi(CString(memory[16..]))
  {
    LengthInIsLengthOf(texts, memory, length);
    StaleMatters(texts, CString(memory[16..]), length);
  }

  /** A short stream without line terminators is one line. */
  lemma WholeStreamRead(s: seq<byte>)
    requires 0 < |s| < ROOM && forall i :: 0 <= i < |s| ==> !IsEol(s[i])
    ensures ReadHeaders(s, 0).texts == [s]
  {
    PlainEndUnique(s, 0, ROOM, |s|);
    TextPieces(s, 0, ROOM);
    var text := TextAt(s, 0, ROOM);
    assert text == s && EndAt(s, 0, ROOM) == |s|;
    assert text[0] == s[0];
    ReadHeadersStep(s, 0);
    LineShape(s, |s|, ROOM);
    ReadHeadersStep(s, |s|);
  }

  // ---------------------------------------------------------------- well-formed headers

  /** A line whose first 15 bytes are "Content-Length:" in any letter case, and, if it is shorter than the
      buffer, the number atoi finds from its 17th byte on. */
  predicate IsLengthLine(line: seq<byte>) {
    |line| >= 15 && SameIgnoringCase(line[..15], CONTENT_LENGTH)
  }

  function LineLength(line: seq<byte>): int {
    if |line| < 16 then 0 else Atoi(CString(line[16..] + [LF]))
  }

  /** content_length after all pieces of a line, however long. */
  function LengthAfter(line: seq<byte>, length: int): int {
    if |line| < ROOM then if IsLengthLine(line) then LineLength(line) else length
    else LengthAfter(line[ROOM..], if IsLengthLine(line) then Atoi(CString(line[16..ROOM])) else length)
  }

  /** One of the pieces of the line looks like a Content-Length line. */
  predicate Declares(line: seq<byte>) {
    IsLengthLine(line) || (|line| >= ROOM && Declares(line[ROOM..]))
  }

  lemma {:induction false} DeclaredOrKept(line: seq<byte>, a: int, b: int)
    ensures if Declares(line) then LengthAfter(line, a) == LengthAfter(line, b) else LengthAfter(line, a) == a
  {
    if |line| >= ROOM {
      var value := if IsLengthLine(line) then Atoi(CString(line[16..ROOM])) else a;
      DeclaredOrKept(line[ROOM..], value, if IsLengthLine(line) then value else b);
    }
  }

  /** A line leaves the scanned length as it is exactly when none of its pieces does. */
  lemma LineIgnoredIff(line: seq<byte>)
    ensures (forall length: int :: LengthAfter(line, length) == length) <==> !Declares(line)
  {
    if Declares(line) {
      var value := LengthAfter(line, 0);
      DeclaredOrKept(line, 0, value + 1);
    } else {
      forall length: int
        ensures LengthAfter(line, length) == length
      {
        DeclaredOrKept(line, length, length);
      }
    }
  }

  /** content_length after the lines from the i-th on. */
  function LastLength(lines: seq<seq<byte>>, i: nat, length: int): int
    requires i <= |lines|
    decreases |lines| - i
  {
    if i == |lines| then length else LastLength(lines, i + 1, LengthAfter(lines[i], length))
  }

  lemma LengthNameHasNoNul(name: seq<byte>)
    requires SameIgnoringCase(name, CONTENT_LENGTH)
    ensures CString(name) == name
  {
    assert |name| == 15;
    assert forall i :: 0 <= i < 15 ==> ToLower(name[i]) == ToLower(CONTENT_LENGTH[i]) && CONTENT_LENGTH[i] != NUL;
    CStringUnique(name, 15);
    assert name[..15] == name;
  }

  lemma HeaderIsLine(text: seq<byte>)
    ensures IsLengthHeader(text) <==> IsLengthLine(text)
  {
    if IsLengthLine(text) {
      LengthNameHasNoNul(text[..15]);
    } else if IsLengthHeader(text) {
      ShorterThanName(text[..15]);
    }
  }

  lemma NextLengthOfLine(line: seq<byte>, stale: seq<byte>, length: int)
    requires LF !in line && |line| < ROOM
    ensures NextLength(line + [LF], stale, length) == LengthAfter(line, length)
  {
    var text := line + [LF];
    HeaderIsLine(text);
    if |line| >= 15 {
      assert text[..15] == line[..15];
      assert |line| >= 16 ==> text[16..] == line[16..] + [LF];
      assert CString([]) == [] && Atoi([]) == 0;
    } else if |line| == 14 {
      assert text[..15] == text;
      NotAName(text);
    }
  }

  lemma NextLengthOfPiece(line: seq<byte>, stale: seq<byte>, length: int)
    requires |line| >= ROOM
    ensures NextLength(line[..ROOM], stale, length)
         == if IsLengthLine(line) then Atoi(CString(line[16..ROOM])) else length
  {
    var text := line[..ROOM];
    HeaderIsLine(text);
    assert text[..15] == line[..15] && text[16..] == line[16..ROOM];
  }

  /** A 15-byte piece whose C string is the header name is the header name. */
  lemma ShorterThanName(piece: seq<byte>)
    requires |piece| == 15 && SameIgnoringCase(CString(piece), CONTENT_LENGTH)
    ensures SameIgnoringCase(piece, CONTENT_LENGTH)
  {
    assert |CString(piece)| == 15;
  }

  /** What the scan makes of the pieces of one line, with anything to follow. */
  lemma {:induction false} LengthOfPieces(line: seq<byte>, rest: seq<seq<byte>>, stale: seq<byte>, length: int)
    returns (stale': seq<byte>)
    requires LF !in line
    ensures LengthOf(Pieces(line) + rest, stale, length) == LengthOf(rest, stale', LengthAfter(line, length))
    decreases |line|
  {
    hide CString, NextLength;
    var texts := Pieces(line) + rest;
    stale' := stale;
    if line == [] {
      assert texts == rest;
    } else if |line| < ROOM {
      var text := line + [LF];
      assert texts[0] == text && texts[1..] == rest;
      NextLengthOfLine(line, stale, length);
      stale' := if |text| >= 16 then CString(text[16..]) else stale;
    } else {
      var text := line[..ROOM];
      assert texts[0] == text && texts[1..] == Pieces(line[ROOM..]) + rest;
      NextLengthOfPiece(line, stale, length);
      stale' := LengthOfPieces(line[ROOM..], rest, CString(text[16..]), NextLength(text, stale, length));
    }
  }

  /** On complete lines of any length the loop finds what their pieces declare, whatever stood at
      column 16. */
  lemma {:induction false} LengthOfLines(lines: seq<seq<byte>>, last: seq<byte>, i: nat, stale: seq<byte>, length: int)
    requires i <= |lines| && LF !in last && forall k :: 0 <= k < |lines| ==> LF !in lines[k]
    ensures LengthOf(Received(lines, last, i), stale, length) == LengthAfter(last, LastLength(lines, i, length))
    decreases |lines| - i
  {
    hide Pieces, LengthAfter;
    if i == |lines| {
      assert Pieces(last) + [] == Pieces(last);
      var stale' := LengthOfPieces(last, [], stale, length);
    } else {
      var stale' := LengthOfPieces(lines[i], Received(lines, last, i + 1), stale, length);
      LengthOfLines(lines, last, i + 1, stale', LengthAfter(lines[i], length));
    }
  }

  /** On headers of any length the scan finds what the pieces of the lines declare, whatever the buffer
      held, and leaves the stream right after the line that ends them: the blank one, or one whose length
      is a multiple of 1023. */
  lemma ScanOfBlock(s: seq<byte>, lines: seq<seq<byte>>, last: seq<byte>, starts: seq<nat>,
                    memory: seq<byte>, length: int)
    requires HeadersUntil(s, lines, last, starts) && |memory| == BUF_SIZE
    ensures starts[0] <= |s|
    ensures Scan(s, starts[0], memory, length)
         == ScanResult(starts[|lines|] + |last| + 2, LengthAfter(last, LastLength(lines, 0, length)))
  {
    hide LengthIn, LengthOf, ReadHeaders, LengthAfter;
    ReadHeaderBlock(s, lines, last, starts, 0);
    HeadersFit(s, starts[0]);
    LengthInIsLengthOf(Received(lines, last, 0), memory, length);
    assert forall k :: 0 <= k < |lines| ==> CrLfLineAt(s, starts[k], lines[k]);
    LengthOfLines(lines, last, 0, CString(memory[16..]), length);
  }

  /** A line `name`, any byte, white space, a sign, a decimal number and anything that does not continue the
      number. */
  lemma LengthLineValue(name: seq<byte>, separator: byte, blanks: seq<byte>, sign: seq<byte>, n: nat, tail: seq<byte>)
    requires SameIgnoringCase(name, CONTENT_LENGTH)
    requires Blank(blanks) && IsSign(sign) && (tail != [] ==> !IsDigit(tail[0]))
    ensures var line := name + [separator] + blanks + sign + Decimal(n) + tail;
            IsLengthLine(line) && LineLength(line) == ToInt(if sign == [45] then 0 - n else n)
  {
    hide Atoi, Decimal, CString, ToInt;
    var line := name + [separator] + blanks + sign + Decimal(n) + tail;
    assert |name| == 15;
    assert line[..15] == name;
    var value, rest := blanks + sign + Decimal(n), tail + [LF];
    assert line[16..] + [LF] == value + rest;
    var k := |CString(rest)|;
    assert (value + rest)[..|value| + k] == value + rest[..k];
    NoNulInNumber(blanks, sign, n);
    CStringUnique(value + rest, |value| + k);
    AtoiReadsDecimal(blanks, sign, n, rest[..k]);
  }

  lemma NoNulInNumber(blanks: seq<byte>, sign: seq<byte>, n: nat)
    requires Blank(blanks) && IsSign(sign)
    ensures NUL !in blanks + sign + Decimal(n)
  {
    assert NUL !in blanks && NUL !in sign && NUL !in Decimal(n);
  }

  /** A Content-Length line that fits the buffer decides if no piece of a later line looks like one,
      whatever stands before it. */
  lemma {:induction false} LastLengthIs(lines: seq<seq<byte>>, i: nat, j: nat, length: int)
    requires i <= j < |lines| && IsLengthLine(lines[j]) && |lines[j]| < ROOM
    requires forall k :: j < k < |lines| ==> !Declares(lines[k])
    ensures LastLength(lines, i, length) == LineLength(lines[j])
    decreases j - i
  {
    if i == j {
      NoLengthLine(lines, j + 1, LineLength(lines[j]));
    } else {
      LastLengthIs(lines, i + 1, j, LengthAfter(lines[i], length));
    }
  }

  lemma {:induction false} NoLengthLine(lines: seq<seq<byte>>, i: nat, length: int)
    requires i <= |lines|
    requires forall k :: i <= k < |lines| ==> !Declares(lines[k])
    ensures LastLength(lines, i, length) == length
    decreases |lines| - i
  {
    if i < |lines| {
      DeclaredOrKept(lines[i], length, length);
      NoLengthLine(lines, i + 1, length);
    }
  }

  /** A piece in mid-line is enough: these headers declare 5, and none of them is a Content-Length line. */
  lemma LongLineDeclares(memory: seq<byte>)
    requires |memory| == BUF_SIZE
    ensures var line := seq(ROOM, _ => 65) + CONTENT_LENGTH + [SPACE, 53];
            !IsLengthLine(line) && Scan(line + [CR, LF, CR, LF], 0, memory, -1).length == 5
  {
    hide Scan, HeadersUntil, CrLfLineAt, Atoi, CString, LineLength;
    var name: seq<byte> := CONTENT_LENGTH;
    var piece := name + [SPACE] + [] + [] + Decimal(5) + [];
    var line := seq(ROOM, _ => 65) + name + [SPACE, 53];
    var s := line + [CR, LF, CR, LF];
    LengthLineValue(name, SPACE, [], [], 5, []);
    assert line[..15][0] == 65 && name[0] == 67;
    assert line[ROOM..] == piece;
    assert LengthAfter(line, -1) == LengthAfter(piece, -1) == LineLength(piece);
    PlainName();
    assert forall b :: b in line ==> b in name || b == 65 || b == SPACE || b == 53;
    assert Print([line]) == line + [CR, LF];
    assert s == [] + Print([line]) + [CR, LF] + [];
    PrintedBlock([], [line], []);
    ScanOfBlock(s, [line], [], Starts([line], 0), memory, -1);
    OneHeader(line, -1);
  }

  lemma OneHeader(line: seq<byte>, length: int)
    ensures LengthAfter([], LastLength([line], 0, length)) == LengthAfter(line, length)
  {
    assert LastLength([line], 1, LengthAfter(line, length)) == LengthAfter(line, length);
  }

  lemma PlainName()
    ensures CR !in CONTENT_LENGTH && LF !in CONTENT_LENGTH
  {
  }

  // ---------------------------------------------------------------- the scan as run

  /** The scan of a POST request's headers, buffer and all. */
  method ScanHeaders(sock: ClientSocket, buf: array<byte>) returns (contentLength: int)
    requires sock.Valid() && buf.Length == BUF_SIZE
    modifies sock, buf
    ensures sock.Valid()
    ensures ScanResult(sock.pos, contentLength) == Scan(sock.data, old(sock.pos), old(buf[..]), -1)
  {
    hide Scan, TextAt, EndAt, CString;
    contentLength := -1;
    ghost var p, memory := sock.pos, buf[..];
    ghost var goal := Scan(sock.data, sock.pos, buf[..], -1);
    var numchars := ReadLine(sock, buf);
    ghost var text := buf[..numchars];
    while numchars > 0 && CString(buf[..]) != [LF]
      invariant sock.Valid() && |memory| == BUF_SIZE && p <= |sock.data|
      invariant numchars == |text| <= ROOM && text == TextAt(sock.data, p, ROOM)
      invariant sock.pos == EndAt(sock.data, p, ROOM)
      invariant buf[..] == Overwritten(memory, text)
      invariant numchars > 0 && CString(buf[..]) != [LF] <==> KeepsReading(text)
      invariant Scan(sock.data, p, memory, contentLength) == goal
      decreases |sock.data| - p
    {
      ScanStep(sock.data, p, memory, contentLength);
      buf[15] := NUL;
      if SameIgnoringCase(CString(buf[..]), CONTENT_LENGTH) {
        contentLength := Atoi(CString(buf[16..]));
      }
      p, memory := sock.pos, buf[..];
      numchars := ReadLine(sock, buf);
      text := buf[..numchars];
    }
    ScanStep(sock.data, p, memory, contentLength);
  }

  // ---------------------------------------------------------------- body relay

  function RelayEnd(s: seq<byte>, p: nat, n: int): (q: nat)
    requires p <= |s|
    ensures p <= q <= |s|
  {
    if n <= 0 then p else if p + n <= |s| then p + n else |s|
  }

  /** What the relay loop writes: the next `n` bytes of the stream and, when the stream is shorter, the
      last byte received over and over (`c` when there was none). */
  function Relayed(s: seq<byte>, p: nat, n: int, c: byte): seq<byte>
    requires p <= |s|
  {
    var q := RelayEnd(s, p, n);
    s[p..q] + seq(if n <= q - p then 0 else n - (q - p), _ => if p < q then s[q - 1] else c)
  }

  lemma RelayNone(s: seq<byte>, p: nat, c: byte)
    requires p <= |s|
    ensures forall n :: n <= 0 ==> Relayed(s, p, n, c) == []
  {
  }

  lemma RelayStep(s: seq<byte>, p: nat, n: nat, c: byte)
    requires p <= |s|
    ensures var next := if p + n < |s| then s[p + n] else if p < |s| then s[|s| - 1] else c;
            Relayed(s, p, n + 1, c) == Relayed(s, p, n, c) + [next]
  {
    if p + n < |s| {
      assert Relayed(s, p, n, c) == s[p..p + n];
      assert Relayed(s, p, n + 1, c) == s[p..p + n + 1];
    } else {
      var last := if p < |s| then s[|s| - 1] else c;
      var k := n - (|s| - p);
      assert Relayed(s, p, n, c) == s[p..] + seq(k, _ => last);
      assert Relayed(s, p, n + 1, c) == s[p..] + seq(k + 1, _ => last);
      assert seq(k + 1, _ => last) == seq(k, _ => last) + [last];
    }
  }

  /** The loop that moves the body to the script one byte at a time. It ignores what recv returns, and `c0`
      is what its uninitialised byte holds. */
  method RelayBody(sock: ClientSocket, cgi: ByteSink, n: int, c0: byte)
    requires sock.Valid()
    modifies sock, cgi
    ensures sock.Valid()
    ensures cgi.written == old(cgi.written) + Relayed(sock.data, old(sock.pos), n, c0)
    ensures sock.pos == RelayEnd(sock.data, old(sock.pos), n)
  {
    hide Relayed;
    RelayNone(sock.data, sock.pos, c0);
    var i, c := 0, c0;
    var got;
    ghost var p, relayed := sock.pos, [];
    while i < n
      invariant sock.Valid()
      invariant i == 0 || i <= n
      invariant 0 <= i && sock.pos == RelayEnd(sock.data, p, i)
      invariant c == if sock.pos > p then sock.data[sock.pos - 1] else c0
      invariant relayed == Relayed(sock.data, p, i, c0) && cgi.written == old(cgi.written) + relayed
    {
      RelayStep(sock.data, p, i, c0);
      got, c := sock.Recv(c);
      cgi.Write([c]);
      i, relayed := i + 1, relayed + [c];
    }
  }

  /** The relay hands over the body unchanged exactly when the peer sent all of it. */
  lemma RelayFaithfulIff(s: seq<byte>, p: nat, n: nat, c: byte)
    requires p <= |s|
    ensures |Relayed(s, p, n, c)| == n
    ensures Relayed(s, p, n, c) <= s[p..] <==> n <= |s| - p
  {
  }

  lemma NothingRelayed(s: seq<byte>, p: nat, n: int, c: byte)
    requires p <= |s| && n < 0
    ensures Relayed(s, p, n, c) == [] && RelayEnd(s, p, n) == p
  {
  }

  /** What it hands over instead: all that came, then copies of the last byte of it, or of the
      uninitialised `c` if nothing came. */
  lemma ShortBodyRelayed(s: seq<byte>, p: nat, n: nat, c: byte)
    requires p <= |s| && |s| - p < n
    ensures Relayed(s, p, n, c) == s[p..] + seq(n - (|s| - p), _ => if p < |s| then s[|s| - 1] else c)
    ensures RelayEnd(s, p, n) == |s|
  {
    assert s[p..|s|] == s[p..];
  }

  /** A body of one byte instead of three is tripled. */
  lemma ShortBodyRepeats(b: byte, c: byte)
    ensures Relayed([b], 0, 3, c) == [b, b, b] && Relayed([], 0, 2, c) == [c, c]
  {
    ShortBodyRelayed([b], 0, 3, c);
    ShortBodyRelayed([], 0, 2, c);
  }

  /** The relayed bytes are independent of the uninitialised byte exactly when one is received or none is
      asked for. */
  lemma RelayIgnoresStaleIff(s: seq<byte>, p: nat, n: int)
    requires p <= |s|
    ensures (forall c: byte, d: byte :: Relayed(s, p, n, c) == Relayed(s, p, n, d)) <==> n <= 0 || p < |s|
  {
    if n > 0 && p == |s| {
      ShortBodyRelayed(s, p, n, 0);
      ShortBodyRelayed(s, p, n, 1);
      assert Relayed(s, p, n, 0)[0] == 0 && Relayed(s, p, n, 1)[0] == 1;
    } else {
      forall c: byte, d: byte
        ensures Relayed(s, p, n, c) == Relayed(s, p, n, d)
      {
        assert n > 0 ==> p < RelayEnd(s, p, n);
      }
    }
  }

  lemma RelayFaithful(s: seq<byte>, p: nat, n: nat, c: byte)
    requires p + n <= |s|
    ensures Relayed(s, p, n, c) == s[p..p + n] && RelayEnd(s, p, n) == p + n
  {
  }
}
