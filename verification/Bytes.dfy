/** Bytes, C strings and the few C library string functions the server relies on. */
module Bytes {

  datatype Option<+T> = None | Some(value: T)

  type byte = b: int | 0 <= b < 256

  const NUL: byte := 0
  const LF: byte := 10
  const CR: byte := 13
  const SPACE: byte := 32
  const QUESTION: byte := 63
  const SLASH: byte := 47

  /** isspace in the C locale: tab, LF, VT, FF, CR and space. */
  predicate IsSpace(c: byte) {
    9 <= c <= 13 || c == SPACE
  }

  /** The C string that starts at the first byte of a memory area: everything before the first NUL. */
  function CString(memory: seq<byte>): (s: seq<byte>)
    ensures |s| <= |memory| && s == memory[..|s|]
    ensures forall i :: 0 <= i < |s| ==> s[i] == memory[i] && s[i] != NUL
    ensures |s| < |memory| ==> memory[|s|] == NUL
  {
    if memory == [] || memory[0] == NUL then [] else [memory[0]] + CString(memory[1..])
  }

  /** The CString contract has only one solution. */
  lemma CStringUnique(memory: seq<byte>, n: nat)
    requires n <= |memory| && NUL !in memory[..n]
    requires n < |memory| ==> memory[n] == NUL
    ensures CString(memory) == memory[..n]
  {
    hide CString;
    assert forall i :: 0 <= i < n ==> memory[..n][i] == memory[i] && memory[i] != NUL;
    assert |CString(memory)| == n;
  }

  /** What lies beyond a terminator is invisible to C string functions. */
  lemma CStringStopsAtTerminator(text: seq<byte>, stale: seq<byte>)
    ensures CString(text + [NUL] + stale) == CString(text)
  {
    var n := |CString(text)|;
    var memory := text + [NUL] + stale;
    assert memory[..n] == text[..n];
    CStringUnique(memory, n);
  }

  /** The C string at the start of a memory area that begins with `text` and a terminator. */
  lemma CStringPrefix(text: seq<byte>, memory: seq<byte>)
    requires |text| < |memory| && memory[..|text|] == text && memory[|text|] == NUL
    ensures CString(memory) == CString(text)
  {
    assert memory == text + [NUL] + memory[|text| + 1..];
    CStringStopsAtTerminator(text, memory[|text| + 1..]);
  }

  function ToLower(c: byte): byte {
    if 65 <= c <= 90 then c + 32 else c
  }

  /** strcasecmp(a, b) == 0, for two C strings. */
  predicate SameIgnoringCase(a: seq<byte>, b: seq<byte>) {
    |a| == |b| && forall i :: 0 <= i < |a| ==> ToLower(a[i]) == ToLower(b[i])
  }

  /** Two strings are the same but for case exactly when they are equal byte by byte, or a byte of one is
      an ASCII capital and that of the other its small letter. */
  lemma SameIgnoringCaseIff(a: seq<byte>, b: seq<byte>)
    ensures SameIgnoringCase(a, b) <==>
              && |a| == |b|
              && forall i :: 0 <= i < |a| ==>
                   || a[i] == b[i]
                   || (65 <= a[i] <= 90 && b[i] == a[i] + 32)
                   || (65 <= b[i] <= 90 && a[i] == b[i] + 32)
  {
    if SameIgnoringCase(a, b) {
      forall i | 0 <= i < |a|
        ensures || a[i] == b[i]
                || (65 <= a[i] <= 90 && b[i] == a[i] + 32)
                || (65 <= b[i] <= 90 && a[i] == b[i] + 32)
      {
        assert ToLower(a[i]) == ToLower(b[i]);
      }
    }
  }

  /** The byte values behind the names, and the six bytes isspace accepts. */
  lemma ByteValues(c: byte)
    ensures (NUL, LF, CR, SPACE, QUESTION, SLASH) == (0, 10, 13, 32, 63, 47)
    ensures IsSpace(c) <==> c in {9, 10, 11, 12, 13, 32}
  {
  }

  /** Concatenation of a list of byte strings. */
  function Flat(parts: seq<seq<byte>>): seq<byte> {
    if parts == [] then [] else parts[0] + Flat(parts[1..])
  }

  lemma {:induction false} FlatAppend(a: seq<seq<byte>>, b: seq<seq<byte>>)
    ensures Flat(a + b) == Flat(a) + Flat(b)
  {
    if a == [] {
      assert a + b == b;
    } else {
      assert (a + b)[0] == a[0] && (a + b)[1..] == a[1..] + b;
      FlatAppend(a[1..], b);
      assert a[0] + (Flat(a[1..]) + Flat(b)) == (a[0] + Flat(a[1..])) + Flat(b);
    }
  }

  lemma FlatOne(a: seq<byte>)
    ensures Flat([a]) == a
  {
    assert Flat([a]) == a + Flat([]);
  }

  lemma FlatSnoc(parts: seq<seq<byte>>, last: seq<byte>)
    ensures Flat(parts + [last]) == Flat(parts) + last
  {
    FlatAppend(parts, [last]);
    FlatOne(last);
  }

  function Sum(ns: seq<nat>): nat {
    if ns == [] then 0 else ns[0] + Sum(ns[1..])
  }
}
