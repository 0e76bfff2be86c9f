/** get_line: reads one line of a socket stream into a bounded buffer, turning CR, LF and CRLF
    into LF. The functions below speak of the stream `s` and of positions in it. */
module LineReader {
  import opened Bytes
  import opened ClientSocket

  // ---------------------------------------------------------------- line endings

  /** What byte `i` of a stretch that starts at `lo` turns into, looking back only: a CR becomes a
      line feed, and the LF of a CRLF pair disappears. */
  function Mark(s: seq<byte>, lo: nat, i: nat): seq<byte>
    requires lo <= i < |s|
  {
    if s[i] == CR then [LF]
    else if s[i] == LF && i > lo && s[i - 1] == CR then []
    else [s[i]]
  }

  /** The stretch s[lo..hi] with each CRLF and each lone CR replaced by LF. */
  function Normalised(s: seq<byte>, lo: nat, hi: nat): seq<byte>
    requires lo <= hi <= |s|
    decreases hi - lo
  {
    if lo == hi then [] else Normalised(s, lo, hi - 1) + Mark(s, lo, hi - 1)
  }

  /** Position `n` of a stretch that starts at `lo` lies between the CR and the LF of a CRLF pair. */
  predicate SplitsPair(s: seq<byte>, lo: nat, n: nat) {
    lo < n < |s| && s[n - 1] == CR && s[n] == LF
  }

  /** Normalising can be cut at any position that does not split a CRLF pair. */
  lemma {:induction false} NormalisedCut(s: seq<byte>, lo: nat, mid: nat, hi: nat)
    requires lo <= mid <= hi <= |s| && !SplitsPair(s, lo, mid)
    ensures Normalised(s, lo, hi) == Normalised(s, lo, mid) + Normalised(s, mid, hi)
    decreases hi - mid
  {
    if mid < hi {
      NormalisedCut(s, lo, mid, hi - 1);
    }
  }

  lemma {:induction false} NormalisedNonEmpty(s: seq<byte>, lo: nat, hi: nat)
    requires lo < hi <= |s|
    ensures Normalised(s, lo, hi) != []
    decreases hi - lo
  {
    if lo < hi - 1 {
      NormalisedNonEmpty(s, lo, hi - 1);
    }
  }

  predicate IsEol(c: byte) {
    c == CR || c == LF
  }

  lemma {:induction false} NormalisedPlain(s: seq<byte>, lo: nat, hi: nat)
    requires lo <= hi <= |s|
    requires forall i :: lo <= i < hi ==> !IsEol(s[i])
    ensures Normalised(s, lo, hi) == s[lo..hi]
    decreases hi - lo
  {
    if lo < hi {
      NormalisedPlain(s, lo, hi - 1);
      assert !IsEol(s[hi - 1]);
      assert s[lo..hi] == s[lo..hi - 1] + [s[hi - 1]];
    }
  }

  // ---------------------------------------------------------------- one line

  /** No line feed before the last byte. */
  predicate OneLine(text: seq<byte>) {
    forall i :: 0 <= i < |text| - 1 ==> text[i] != LF
  }

  predicate EndsLine(text: seq<byte>) {
    text != [] && text[|text| - 1] == LF
  }

  /** What one call at position `p` with room for `k` bytes must do: hand over `text` and move to `q`.
      It stops only at a line end, a full buffer or the end of the stream. */
  predicate IsLineRead(s: seq<byte>, p: nat, k: nat, text: seq<byte>, q: nat) {
    && p <= q <= |s|
    && text == Normalised(s, p, q)
    && !SplitsPair(s, p, q)
    && |text| <= k
    && OneLine(text)
    && (EndsLine(text) || |text| == k || q == |s|)
  }

  /** End of the run of ordinary bytes at `p`, at most `k` of them. */
  function PlainEnd(s: seq<byte>, p: nat, k: nat): (m: nat)
    requires p <= |s|
    ensures p <= m <= |s| && m <= p + k
    ensures forall i :: p <= i < m ==> !IsEol(s[i])
    ensures m == |s| || m == p + k || IsEol(s[m])
    decreases k
  {
    if p == |s| || k == 0 || IsEol(s[p]) then p else PlainEnd(s, p + 1, k - 1)
  }

  function UnitLen(s: seq<byte>, p: nat): nat
    requires p < |s|
  {
    if s[p] == CR && p + 1 < |s| && s[p + 1] == LF then 2 else 1
  }

  function EndAt(s: seq<byte>, p: nat, k: nat): (q: nat)
    requires p <= |s|
    ensures p <= q <= |s|
    ensures p < |s| && k > 0 ==> p < q
  {
    var m := PlainEnd(s, p, k);
    if m < |s| && m < p + k then m + UnitLen(s, m) else m
  }

  /** What one call hands over. */
  function TextAt(s: seq<byte>, p: nat, k: nat): seq<byte>
    requires p <= |s|
  {
    Normalised(s, p, EndAt(s, p, k))
  }

  /** It is the run of ordinary bytes, with an LF if a line terminator stands next and still fits. */
  lemma TextPieces(s: seq<byte>, p: nat, k: nat)
    requires p <= |s|
    ensures var m := PlainEnd(s, p, k);
            TextAt(s, p, k) == s[p..m] + if m < |s| && m < p + k then [LF] else []
  {
    var m, q := PlainEnd(s, p, k), EndAt(s, p, k);
    NormalisedPlain(s, p, m);
    NormalisedCut(s, p, m, q);
    if m < q {
      UnitIsLineFeed(s, m);
    }
  }

  lemma UnitIsLineFeed(s: seq<byte>, m: nat)
    requires m < |s| && IsEol(s[m])
    ensures Normalised(s, m, m + UnitLen(s, m)) == [LF]
  {
    assert Normalised(s, m, m) == [];
    assert Normalised(s, m, m + 1) == [LF];
  }

  /** Shape of a result: no CR, an LF only in last place, empty exactly when nothing is left to read
      or there is no room; a result that does not end a line is a literal piece of the stream. */
  lemma LineShape(s: seq<byte>, p: nat, k: nat)
    requires p <= |s|
    ensures var text, q := TextAt(s, p, k), EndAt(s, p, k);
            && |text| <= k
            && CR !in text
            && OneLine(text)
            && (text == [] <==> p == |s| || k == 0)
            && (text != [] <==> p < q)
            && (if EndsLine(text) then IsEol(s[q - 1])
                else text == s[p..q] && (|text| == k || q == |s|))
  {
    TextPieces(s, p, k);
    var m := PlainEnd(s, p, k);
    assert forall i :: 0 <= i < m - p ==> s[p..m][i] == s[p + i];
  }

  lemma LineReadHolds(s: seq<byte>, p: nat, k: nat)
    requires p <= |s|
    ensures IsLineRead(s, p, k, TextAt(s, p, k), EndAt(s, p, k))
  {
    LineShape(s, p, k);
  }

  /** A read cannot stop earlier than EndAt ... */
  lemma NoEarlierEnd(s: seq<byte>, p: nat, k: nat, text: seq<byte>, q: nat)
    requires IsLineRead(s, p, k, text, q)
    ensures EndAt(s, p, k) <= q
  {
    if q <= PlainEnd(s, p, k) {
      NormalisedPlain(s, p, q);
      assert text == [] || text[|text| - 1] == s[q - 1];
    }
  }

  lemma NormalisedGrows(s: seq<byte>, lo: nat, mid: nat, hi: nat)
    requires lo <= mid < hi <= |s| && !SplitsPair(s, lo, mid)
    ensures var shorter, longer := Normalised(s, lo, mid), Normalised(s, lo, hi);
            |shorter| < |longer| && forall i :: 0 <= i < |shorter| ==> longer[i] == shorter[i]
  {
    NormalisedCut(s, lo, mid, hi);
    NormalisedNonEmpty(s, mid, hi);
  }

  /** ... nor later. */
  lemma NoLaterEnd(s: seq<byte>, p: nat, k: nat, text: seq<byte>, q: nat)
    requires IsLineRead(s, p, k, text, q)
    ensures q <= EndAt(s, p, k)
  {
    LineReadHolds(s, p, k);
    LineShape(s, p, k);
    if EndAt(s, p, k) < q {
      NormalisedGrows(s, p, EndAt(s, p, k), q);
    }
  }

  /** The requirement on one call has exactly one solution, and TextAt/EndAt compute it. */
  lemma LineReadIsUnique(s: seq<byte>, p: nat, k: nat, text: seq<byte>, q: nat)
    requires p <= |s|
    ensures IsLineRead(s, p, k, text, q) <==> text == TextAt(s, p, k) && q == EndAt(s, p, k)
  {
    LineReadHolds(s, p, k);
    if IsLineRead(s, p, k, text, q) {
      NoEarlierEnd(s, p, k, text, q);
      NoLaterEnd(s, p, k, text, q);
    }
  }

  /** One more unit of the stream, an ordinary byte or a whole line terminator, adds one byte. */
  lemma UnitAppended(s: seq<byte>, lo: nat, p: nat)
    requires lo <= p < |s| && !SplitsPair(s, lo, p)
    ensures var e := p + UnitLen(s, p);
            && e <= |s| && !SplitsPair(s, lo, e)
            && Normalised(s, lo, e) == Normalised(s, lo, p) + [if IsEol(s[p]) then LF else s[p]]
  {
    var e := p + UnitLen(s, p);
    NormalisedCut(s, lo, p, e);
    if IsEol(s[p]) {
      UnitIsLineFeed(s, p);
    } else {
      NormalisedPlain(s, p, e);
    }
  }

  /** int get_line(int sock, char *buf, int size) */
  method GetLine(sock: ClientSocket, buf: array<byte>, size: int) returns (i: nat)
    requires sock.Valid()
    requires 1 <= size <= buf.Length
    modifies sock, buf
    ensures sock.Valid()
    ensures i < size && buf[i] == NUL
    ensures forall j :: i < j < buf.Length ==> buf[j] == old(buf[j])
    ensures IsLineRead(sock.data, old(sock.pos), size - 1, buf[..i], sock.pos)
  {
    hide Normalised;
    i := 0;
    var c := NUL;
    var n;
    ghost var s, lo := sock.data, sock.pos;
    ghost var text: seq<byte> := [];
    NothingNormalised(s, lo);
    while i < size - 1 && c != LF
      invariant lo <= sock.pos <= |s|
      invariant i <= size - 1
      invariant forall j :: i <= j < buf.Length ==> buf[j] == old(buf[j])
      invariant |text| == i && forall j :: 0 <= j < i ==> buf[j] == text[j]
      invariant text == Normalised(s, lo, sock.pos) && !SplitsPair(s, lo, sock.pos)
      invariant OneLine(text)
      invariant if c == LF then EndsLine(text) || sock.pos == |s| else !EndsLine(text)
      decreases |s| - sock.pos, c != LF
    {
      ghost var p := sock.pos;
      n, c := sock.Recv(c);
      if n > 0 {
        UnitAppended(s, lo, p);
        if c == CR {
          n, c := sock.Peek(c);
          if n > 0 && c == LF {
            n, c := sock.Recv(c);
          } else {
            c := LF;
          }
        }
        buf[i] := c;
        i, text := i + 1, text + [c];
      } else {
        c := LF;
      }
    }
    buf[i] := NUL;
    assert buf[..i] == text;
  }

  lemma NothingNormalised(s: seq<byte>, p: nat)
    requires p <= |s|
    ensures Normalised(s, p, p) == []
  {
  }

  // ---------------------------------------------------------------- every call

  /** Everything handed over by successive calls with the given room, and where they end. */
  function Handed(s: seq<byte>, p: nat, room: seq<nat>): seq<byte>
    requires p <= |s|
    decreases room
  {
    if room == [] then []
    else TextAt(s, p, room[0]) + Handed(s, EndAt(s, p, room[0]), room[1..])
  }

  function RunEnd(s: seq<byte>, p: nat, room: seq<nat>): (q: nat)
    requires p <= |s|
    ensures p <= q <= |s|
    decreases room
  {
    if room == [] then p else RunEnd(s, EndAt(s, p, room[0]), room[1..])
  }

  lemma CallConserves(s: seq<byte>, p: nat, k: nat, q: nat)
    requires p <= |s| && EndAt(s, p, k) <= q <= |s|
    ensures !SplitsPair(s, p, EndAt(s, p, k))
    ensures Normalised(s, p, q) == TextAt(s, p, k) + Normalised(s, EndAt(s, p, k), q)
  {
    hide TextAt, EndAt, Normalised;
    LineReadHolds(s, p, k);
    NormalisedCut(s, p, EndAt(s, p, k), q);
  }

  lemma {:induction false} RunHandsOver(s: seq<byte>, p: nat, room: seq<nat>)
    requires p <= |s|
    ensures var q := RunEnd(s, p, room);
            !SplitsPair(s, p, q) && Handed(s, p, room) == Normalised(s, p, q)
    decreases room
  {
    hide TextAt, EndAt, Normalised;
    if room == [] {
      NothingNormalised(s, p);
    } else {
      RunHandsOver(s, EndAt(s, p, room[0]), room[1..]);
      CallConserves(s, p, room[0], RunEnd(s, p, room));
    }
  }

  /** Any run of calls, whatever the buffer sizes, loses nothing, invents nothing and never stops
      inside a CRLF pair. */
  lemma RunConserves(s: seq<byte>, p: nat, room: seq<nat>)
    requires p <= |s|
    ensures var q := RunEnd(s, p, room);
            && !SplitsPair(s, p, q)
            && Handed(s, p, room) == Normalised(s, p, q)
            && Handed(s, p, room) + Normalised(s, q, |s|) == Normalised(s, p, |s|)
  {
    hide RunEnd, Handed, Normalised;
    RunHandsOver(s, p, room);
    NormalisedCut(s, p, RunEnd(s, p, room), |s|);
  }

  /** Reading with buffer sizes size(0), size(1), ... until a call returns 0. */
  function ReadToEnd(s: seq<byte>, p: nat, size: nat -> nat, call: nat): seq<byte>
    requires p <= |s|
    requires forall j: nat :: size(j) >= 2
    decreases |s| - p
  {
    var k: nat := size(call) - 1;
    var text := TextAt(s, p, k);
    if text == [] then [] else text + ReadToEnd(s, EndAt(s, p, k), size, call + 1)
  }

  lemma ReadToEndUnfolds(s: seq<byte>, p: nat, size: nat -> nat, call: nat)
    requires p <= |s|
    requires forall j: nat :: size(j) >= 2
    ensures var k: nat := size(call) - 1;
            var text := TextAt(s, p, k);
            && (text == [] ==> ReadToEnd(s, p, size, call) == [])
            && (text != [] ==> ReadToEnd(s, p, size, call) == text + ReadToEnd(s, EndAt(s, p, k), size, call + 1))
  {
    hide TextAt, Normalised, EndAt;
  }

  /** One call of such a run: it ends the run at the end of the stream, and hands over the next stretch of
      the normalised stream before that. */
  lemma ReadToEndStep(s: seq<byte>, p: nat, size: nat -> nat, call: nat)
    requires p <= |s|
    requires forall j: nat :: size(j) >= 2
    ensures var e := EndAt(s, p, size(call) - 1);
            if p == |s| then ReadToEnd(s, p, size, call) == [] == Normalised(s, p, |s|)
            else
              && p < e
              && ReadToEnd(s, p, size, call) == Normalised(s, p, e) + ReadToEnd(s, e, size, call + 1)
              && Normalised(s, p, |s|) == Normalised(s, p, e) + Normalised(s, e, |s|)
  {
    hide ReadToEnd, TextAt, Normalised, EndAt;
    var k: nat := size(call) - 1;
    ReadToEndUnfolds(s, p, size, call);
    LineReadHolds(s, p, k);
    LineShape(s, p, k);
    NothingNormalised(s, p);
    if p < |s| {
      NormalisedCut(s, p, EndAt(s, p, k), |s|);
    }
  }

  /** With any sizes of at least 2, reading to the end yields the normalised stream: the result does
      not depend on the sizes. */
  lemma {:induction false} ReadToEndNormalises(s: seq<byte>, p: nat, size: nat -> nat, call: nat)
    requires p <= |s|
    requires forall j: nat :: size(j) >= 2
    ensures ReadToEnd(s, p, size, call) == Normalised(s, p, |s|)
    decreases |s| - p
  {
    hide ReadToEnd, Normalised, TextAt, EndAt;
    ReadToEndStep(s, p, size, call);
    if p < |s| {
      ReadToEndNormalises(s, EndAt(s, p, size(call) - 1), size, call + 1);
    }
  }
}
