/** The fgets/feof file-copy loops, `cat` of both servers. */
module Cat {
  import opened Bytes
  import opened ClientSocket
  import Chunks
  import IOBuffer

  /** sizeof(buf), and sizeof of a pointer in the second fgets of Http::cat: pieces are one byte less. */
  const BUF_SIZE: nat := 1024
  const POINTER_SIZE: nat := 8

  // ---------------------------------------------------------------- fgets

  /** End of the piece fgets reads at `p` with room for `k` bytes: after a newline, or when the room or
      the file is used up. */
  function PieceEnd(s: seq<byte>, p: nat, k: nat): (q: nat)
    requires p <= |s|
    ensures p <= q <= |s| && q <= p + k
    ensures forall i :: p <= i < q - 1 ==> s[i] != LF
    ensures q == p + k || q == |s| || (p < q && s[q - 1] == LF)
    ensures p < |s| && 0 < k ==> p < q
    decreases k
  {
    if p == |s| || k == 0 then p else if s[p] == LF then p + 1 else PieceEnd(s, p + 1, k - 1)
  }

  lemma {:induction false} PieceEndUnique(s: seq<byte>, p: nat, k: nat, q: nat)
    requires p <= q <= |s| && q <= p + k
    requires forall i :: p <= i < q - 1 ==> s[i] != LF
    requires q == p + k || q == |s| || (p < q && s[q - 1] == LF)
    requires p < |s| && 0 < k ==> p < q
    ensures PieceEnd(s, p, k) == q
    decreases k
  {
    if p < q && s[p] != LF {
      PieceEndUnique(s, p + 1, k - 1, q);
    }
  }

  /** fgets tries to read beyond the end of the file: no newline came and there was room left. */
  predicate HitsEnd(s: seq<byte>, p: nat, k: nat)
    requires p <= |s|
  {
    var q := PieceEnd(s, p, k);
    q == |s| && q < p + k && (q == p || s[q - 1] != LF)
  }

  /** What fgets does to the buffer when it reads s[p..q]: a C string, or nothing at all. */
  predicate Filled(before: seq<byte>, s: seq<byte>, p: nat, q: nat, after: seq<byte>) {
    if p == q then after == before
    else p < q <= |s| && q - p < |after| == |before| && after[..q - p] == s[p..q] && after[q - p] == NUL
  }

  /** The piece read at `p` as the C string the callers see. */
  function PieceText(s: seq<byte>, p: nat, k: nat): (text: seq<byte>)
    requires p <= |s|
    ensures |text| <= PieceEnd(s, p, k) - p
  {
    CString(s[p..PieceEnd(s, p, k)])
  }

  /** A FILE opened for reading. */
  class InputFile {
    const data: seq<byte>
    var pos: nat
    var eof: bool

    constructor (data: seq<byte>)
      ensures this.data == data && pos == 0 && !eof
    {
      this.data := data;
      pos, eof := 0, false;
    }

    predicate Valid()
      reads this
    {
      pos <= |data|
    }

    /** fgets(buf, size, file): leaves `buf` alone if nothing could be read. */
    method Gets(buf: array<byte>, size: nat)
      requires Valid() && 2 <= size <= buf.Length
      modifies this, buf
      ensures Valid() && pos == PieceEnd(data, old(pos), size - 1)
      ensures eof == (old(eof) || HitsEnd(data, old(pos), size - 1))
      ensures Filled(old(buf[..]), data, old(pos), pos, buf[..])
      ensures eof || pos > old(pos)
      ensures pos > old(pos) ==> CString(buf[..]) == PieceText(data, old(pos), size - 1)
    {
      hide CString, PieceEnd;
      var i, newline := 0, false;
      ghost var read := [];
      while i < size - 1 && !newline && pos < |data|
        invariant Valid() && i <= size - 1 && pos == old(pos) + i && eof == old(eof)
        invariant |read| == i && forall j :: 0 <= j < i ==> buf[j] == read[j]
        invariant read == data[old(pos)..pos]
        invariant i == 0 ==> buf[..] == old(buf[..])
        invariant newline <==> i > 0 && data[pos - 1] == LF
        invariant forall j :: old(pos) <= j < pos - 1 ==> data[j] != LF
        decreases size - 1 - i
      {
        buf[i] := data[pos];
        newline := data[pos] == LF;
        read := read + [data[pos]];
        i, pos := i + 1, pos + 1;
      }
      PieceEndUnique(data, old(pos), size - 1, pos);
      if i < size - 1 && !newline {
        eof := true;
      }
      if i > 0 {
        buf[i] := NUL;
        assert buf[..i] == read;
        CStringPrefix(read, buf[..]);
      }
    }
  }

  // ---------------------------------------------------------------- what the loops emit

  /** Where the last piece that is emitted ends; the first piece has room for `k0`, later ones for `k`. */
  function CopyEnd(s: seq<byte>, p: nat, k0: nat, k: nat): (q: nat)
    requires p <= |s| && 0 < k0 && 0 < k
    ensures p <= q <= |s|
    decreases |s| - p
  {
    if HitsEnd(s, p, k0) then p else CopyEnd(s, PieceEnd(s, p, k0), k, k)
  }

  /** The bytes emitted: strlen() of each piece stops at a NUL. */
  function Copied(s: seq<byte>, p: nat, k0: nat, k: nat): seq<byte>
    requires p <= |s| && 0 < k0 && 0 < k
    decreases |s| - p
  {
    if HitsEnd(s, p, k0) then []
    else
      PieceText(s, p, k0) + Copied(s, PieceEnd(s, p, k0), k, k)
  }

  lemma CopiedStep(s: seq<byte>, p: nat, k0: nat, k: nat, done: seq<byte>)
    requires p <= |s| && 0 < k0 && 0 < k
    ensures HitsEnd(s, p, k0) ==> done + Copied(s, p, k0, k) == done
    ensures !HitsEnd(s, p, k0) ==>
              done + Copied(s, p, k0, k) == (done + PieceText(s, p, k0)) + Copied(s, PieceEnd(s, p, k0), k, k)
  {
    hide PieceText, PieceEnd;
  }

  /** void cat(int client, FILE *resource) */
  method SendFile(file: InputFile, client: ByteSink)
    requires file.Valid() && file.pos == 0 && !file.eof
    modifies file, client
    ensures client.written == old(client.written) + Copied(file.data, 0, BUF_SIZE - 1, BUF_SIZE - 1)
  {
    hide CString, PieceEnd, Copied, HitsEnd, Filled, PieceText;
    var buf := new byte[BUF_SIZE];
    ghost var p, done := 0, [];
    file.Gets(buf, BUF_SIZE);
    while !file.eof
      invariant file.Valid() && p <= |file.data|
      invariant file.pos == PieceEnd(file.data, p, BUF_SIZE - 1)
      invariant file.eof == HitsEnd(file.data, p, BUF_SIZE - 1)
      invariant !file.eof ==> p < file.pos <= |file.data| && CString(buf[..]) == PieceText(file.data, p, BUF_SIZE - 1)
      invariant client.written == old(client.written) + done
      invariant Copied(file.data, 0, BUF_SIZE - 1, BUF_SIZE - 1) == done + Copied(file.data, p, BUF_SIZE - 1, BUF_SIZE - 1)
      decreases |file.data| - p
    {
      CopiedStep(file.data, p, BUF_SIZE - 1, BUF_SIZE - 1, done);
      var piece := CString(buf[..]);
      client.Write(piece);
      done := done + piece;
      p := file.pos;
      file.Gets(buf, BUF_SIZE);
    }
    CopiedStep(file.data, p, BUF_SIZE - 1, BUF_SIZE - 1, done);
  }

  /** void Http::cat(FILE* resource, IOBufferAbstractClass* buf): its second fgets is given the size of the
      pointer `buf` instead of the size of the array. */
  method AppendFile(file: InputFile, buffer: IOBuffer.IOBuffer)
    requires file.Valid() && file.pos == 0 && !file.eof
    requires buffer.Valid() && buffer.size + |file.data| < IOBuffer.LIMIT
    modifies file, buffer
    ensures buffer.Valid()
    ensures buffer.Content() == old(buffer.Content()) + Copied(file.data, 0, BUF_SIZE - 1, POINTER_SIZE - 1)
  {
    hide CString, PieceEnd, Flat, Copied, HitsEnd, Filled, PieceText, Chunks.Apply;
    var abuf := new byte[BUF_SIZE];
    ghost var p, k, done := 0, BUF_SIZE - 1, [];
    file.Gets(abuf, BUF_SIZE);
    while !file.eof
      invariant file.Valid() && p <= |file.data| && 0 < k
      invariant file.pos == PieceEnd(file.data, p, k)
      invariant file.eof == HitsEnd(file.data, p, k)
      invariant !file.eof ==> p < file.pos <= |file.data| && CString(abuf[..]) == PieceText(file.data, p, k)
      invariant buffer.Valid() && |done| <= p
      invariant buffer.Content() == old(buffer.Content()) + done
      invariant Copied(file.data, 0, BUF_SIZE - 1, POINTER_SIZE - 1) == done + Copied(file.data, p, k, POINTER_SIZE - 1)
      decreases |file.data| - p
    {
      CopiedStep(file.data, p, k, POINTER_SIZE - 1, done);
      var piece := CString(abuf[..]);
      assert |piece| <= file.pos - p;
      var ok := buffer.AppendRaw(piece);
      done := done + piece;
      p, k := file.pos, POINTER_SIZE - 1;
      file.Gets(abuf, POINTER_SIZE);
    }
    CopiedStep(file.data, p, k, POINTER_SIZE - 1, done);
  }

  // ---------------------------------------------------------------- what is lost

  /** Start of the last line fragment: right after the last newline. */
  function LastLine(s: seq<byte>): (l: nat)
    ensures l <= |s| && (l == 0 || s[l - 1] == LF)
    ensures forall i :: l <= i < |s| ==> s[i] != LF
  {
    if s == [] then 0 else if s[|s| - 1] == LF then |s| else LastLine(s[..|s| - 1])
  }

  function Max(a: nat, b: nat): nat {
    if a < b then b else a
  }

  /** What is left of `t` bytes after as many full pieces of `k` as there are. */
  function Rest(t: nat, k: nat): nat
    requires 0 < k
  {
    t % k
  }

  lemma RestStep(t: nat, k: nat)
    requires 0 < k
    ensures t < k ==> Rest(t, k) == t
    ensures k <= t ==> Rest(t, k) == Rest(t - k, k)
    ensures Rest(t, k) <= t
  {
    if k <= t {
      ModStep(t, k);
    } else {
      ModUnique(t, k, 0, t);
    }
  }

  lemma ModStep(t: nat, k: nat)
    requires 0 < k <= t
    ensures (t - k) % k == t % k && t % k <= t
  {
    var q := (t - k) / k;
    assert t - k == k * q + (t - k) % k;
    assert t == k * (q + 1) + (t - k) % k;
    ModUnique(t, k, q + 1, (t - k) % k);
  }

  lemma ModUnique(t: nat, k: nat, q: nat, r: nat)
    requires t == k * q + r && r < k
    ensures t % k == r
  {
    var d := q - t / k;
    assert k * d == t % k - r by {
      assert t == k * (t / k) + t % k;
      assert k * d == k * q - k * (t / k);
    }
    MultipleIsFar(k, d);
  }

  lemma MultipleIsFar(k: nat, d: int)
    ensures d >= 1 ==> k * d >= k
    ensures d <= -1 ==> k * d <= 0 - k
  {
  }

  /** From `p` on, with pieces of `k`, the loop stops short of the end of the file by exactly the length of
      the last line fragment modulo `k`. */
  lemma {:induction false} CopyEndIs(s: seq<byte>, p: nat, k: nat)
    requires p <= |s| && 0 < k
    ensures Rest(|s| - Max(LastLine(s), p), k) <= |s|
    ensures CopyEnd(s, p, k, k) == |s| - Rest(|s| - Max(LastLine(s), p), k)
    decreases |s| - p
  {
    hide LastLine, PieceEnd, Rest;
    var l, q := LastLine(s), PieceEnd(s, p, k);
    RestStep(|s| - Max(l, p), k);
    if HitsEnd(s, p, k) {
      assert l <= p;
    } else {
      CopyEndIs(s, q, k);
      if l <= p {
        assert q == p + k;
      } else {
        assert q <= l;
      }
    }
  }

  /** How many bytes of a file the loop loses at its end. */
  function Lost(s: seq<byte>, k0: nat, k: nat): nat
    requires 0 < k0 && 0 < k
  {
    if LastLine(s) == 0 && |s| < k0 then |s| else Rest(|s| - Max(LastLine(s), PieceEnd(s, 0, k0)), k)
  }

  lemma CopyEndFromStart(s: seq<byte>, k0: nat, k: nat)
    requires 0 < k0 && 0 < k
    ensures Lost(s, k0, k) <= |s| && CopyEnd(s, 0, k0, k) == |s| - Lost(s, k0, k)
  {
    hide LastLine, PieceEnd, Rest;
    var l, q := LastLine(s), PieceEnd(s, 0, k0);
    if HitsEnd(s, 0, k0) {
      assert l == 0;
    } else {
      CopyEndIs(s, q, k);
    }
  }

  // ---------------------------------------------------------------- what arrives

  lemma CStringLength(x: seq<byte>)
    ensures |CString(x)| <= |x|
    ensures NUL !in x <==> |CString(x)| == |x|
    ensures NUL !in x ==> CString(x) == x
  {
    var c := CString(x);
    if |c| == |x| {
      assert c == x;
    }
    if NUL !in x {
      assert x[..|x|] == x;
      CStringUnique(x, |x|);
    }
  }

  /** The emitted bytes are the pieces of the file up to CopyEnd, each cut at its first NUL: all of them
      exactly when there is none. */
  lemma {:induction false} CopiedIsPrefix(s: seq<byte>, p: nat, k0: nat, k: nat)
    requires p <= |s| && 0 < k0 && 0 < k
    ensures var e := CopyEnd(s, p, k0, k);
            && |Copied(s, p, k0, k)| <= e - p
            && (NUL !in s[p..e] <==> |Copied(s, p, k0, k)| == e - p)
            && (NUL !in s[p..e] ==> Copied(s, p, k0, k) == s[p..e])
    decreases |s| - p
  {
    hide CString, PieceEnd;
    if HitsEnd(s, p, k0) {
      assert s[p..p] == [];
    } else {
      var q := PieceEnd(s, p, k0);
      var e := CopyEnd(s, q, k, k);
      PieceProgress(s, p, k0);
      CopiedIsPrefix(s, q, k, k);
      CStringLength(s[p..q]);
      Joined(s, p, q, e);
    }
  }

  lemma PieceProgress(s: seq<byte>, p: nat, k: nat)
    requires p <= |s| && 0 < k && !HitsEnd(s, p, k)
    ensures p < PieceEnd(s, p, k)
  {
  }

  lemma Joined(s: seq<byte>, p: nat, q: nat, e: nat)
    requires p <= q <= e <= |s|
    ensures s[p..e] == s[p..q] + s[q..e]
    ensures NUL in s[p..e] <==> NUL in s[p..q] || NUL in s[q..e]
  {
    assert s[p..e] == s[p..q] + s[q..e];
  }

  /** For every file without NULs the loop emits a prefix that misses `Lost` bytes, all of them in a last
      fragment that no newline ends. */
  lemma CatEmitsPrefix(s: seq<byte>, k0: nat, k: nat)
    requires 0 < k0 && 0 < k && NUL !in s
    ensures Lost(s, k0, k) <= |s| - LastLine(s)
    ensures Copied(s, 0, k0, k) == s[..|s| - Lost(s, k0, k)]
  {
    hide LastLine, PieceEnd, Copied, CopyEnd;
    CopyEndFromStart(s, k0, k);
    CopiedIsPrefix(s, 0, k0, k);
    LostFromLastLine(s, k0, k);
    var e := CopyEnd(s, 0, k0, k);
    assert NUL !in s[0..e];
    assert s[0..e] == s[..e];
  }

  lemma LostFromLastLine(s: seq<byte>, k0: nat, k: nat)
    requires 0 < k0 && 0 < k
    ensures Lost(s, k0, k) <= |s| - LastLine(s)
  {
    RestStep(|s| - Max(LastLine(s), PieceEnd(s, 0, k0)), k);
  }

  /** The whole file arrives exactly when it holds no NUL and nothing is lost at its end. */
  lemma CatEmitsWholeFileIff(s: seq<byte>, k0: nat, k: nat)
    requires 0 < k0 && 0 < k
    ensures Copied(s, 0, k0, k) == s <==> NUL !in s && Lost(s, k0, k) == 0
  {
    hide LastLine, PieceEnd, Copied, CopyEnd, Lost;
    CopyEndFromStart(s, k0, k);
    CopiedIsPrefix(s, 0, k0, k);
    var e := CopyEnd(s, 0, k0, k);
    if e == |s| {
      assert s[0..e] == s;
    }
  }

  /** A file that is empty or ends in a newline loses nothing, whatever the sizes. */
  lemma NewlineLosesNothing(s: seq<byte>, k0: nat, k: nat)
    requires 0 < k0 && 0 < k
    requires s == [] || s[|s| - 1] == LF
    ensures Lost(s, k0, k) == 0
  {
  }

  /** What Lost means for the two loops: `tail` bytes follow the last newline of a file that has one. */
  lemma LostInBothLoops(s: seq<byte>)
    requires LF in s
    ensures var tail := |s| - LastLine(s);
            && Lost(s, BUF_SIZE - 1, BUF_SIZE - 1) == tail % 1023
            && Lost(s, BUF_SIZE - 1, POINTER_SIZE - 1) == tail % 7
  {
    hide LastLine, PieceEnd;
    LastLineFollowsNewline(s);
    assert PieceEnd(s, 0, BUF_SIZE - 1) <= LastLine(s);
  }

  /** A line that fits the room of one fgets is emitted up to its first NUL, the j-th byte, and the copy goes on
      with the next line. */
  lemma NulCutsLine(s: seq<byte>, p: nat, k0: nat, k: nat, q: nat, j: nat)
    requires p < q <= |s| && q <= p + k0 && 0 < k
    requires s[q - 1] == 10 && forall i :: p <= i < q - 1 ==> s[i] != 10
    requires p <= j <= q && (forall i :: p <= i < j ==> s[i] != 0) && (j < q ==> s[j] == 0)
    ensures Copied(s, p, k0, k) == s[p..j] + Copied(s, q, k, k)
  {
    hide CString, PieceEnd;
    PieceEndUnique(s, p, k0, q);
    assert s[p..q][..j - p] == s[p..j];
    CStringUnique(s[p..q], j - p);
  }

  /** The loss is real: of a newline and ten letters one server sends the newline, the other that and seven
      letters. */
  lemma CatLosesTail()
    ensures var s := [LF] + seq(10, _ => 65);
            && Copied(s, 0, BUF_SIZE - 1, BUF_SIZE - 1) == [LF]
            && Copied(s, 0, BUF_SIZE - 1, POINTER_SIZE - 1) == s[..8]
  {
    hide Copied, Lost, PieceEnd, LastLine;
    var s: seq<byte> := [LF] + seq(10, _ => 65);
    assert s[0] == LF && NUL !in s;
    LastLineIs(s, 1);
    LostInBothLoops(s);
    CatEmitsPrefix(s, BUF_SIZE - 1, BUF_SIZE - 1);
    CatEmitsPrefix(s, BUF_SIZE - 1, POINTER_SIZE - 1);
    assert s[..1] == [LF];
  }

  lemma {:induction false} LastLineIs(s: seq<byte>, l: nat)
    requires 0 < l <= |s| && s[l - 1] == LF && forall i :: l <= i < |s| ==> s[i] != LF
    ensures LastLine(s) == l
  {
    if l < |s| {
      LastLineIs(s[..|s| - 1], l);
    }
  }

  lemma LastLineFollowsNewline(s: seq<byte>)
    requires LF in s
    ensures 0 < LastLine(s)
  {
    var i :| 0 <= i < |s| && s[i] == LF;
    assert i < LastLine(s);
  }
}
