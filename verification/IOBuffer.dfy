/** The IOBuffer class: a list of byte vectors changed in place, with a cached size. */
module IOBuffer {
  import opened Bytes
  import opened Chunks

  /** Sizes are unsigned and compared with int lengths: the code is meant for less than 2^31 bytes. */
  const LIMIT: nat := 0x8000_0000

  /** What pullDown returns: null, a pointer to the first byte of the front chunk (here the bytes it gives
      access to), or the exception of at(0) on an empty chunk. */
  datatype Pulled = Null | Pointer(bytes: seq<byte>) | OutOfRange

  class IOBuffer {
    var chunks: seq<seq<byte>>
    var size: nat

    constructor ()
      ensures Valid() && chunks == []
    {
      chunks, size := [], 0;
    }

    constructor FromBytes(data: seq<byte>)
      requires |data| < LIMIT
      ensures Valid() && chunks == [data]
    {
      chunks, size := [data], |data|;
      FlatOne(data);
    }

    predicate Valid()
      reads this
    {
      size == |Flat(chunks)| && size < LIMIT
    }

    function Value(): Buffer
      reads this
    {
      Buffer(chunks, size)
    }

    /** The bytes still to be read, in order. */
    function Content(): seq<byte>
      reads this
    {
      Flat(chunks)
    }

    /** bool append(IOBufferAbstractClass* chunk): copies another buffer's chunks; null is accepted. */
    method Append(other: IOBuffer?) returns (ok: bool)
      requires Valid() && other != this
      requires other != null ==> other.Valid() && size + other.size < LIMIT
      modifies this
      ensures Valid() && ok
      ensures other == null ==> Value() == old(Value())
      ensures other != null ==> Value() == Apply(old(Value()), AppendBuffer(other.Value()))
      ensures other != null ==> Content() == old(Content()) + other.Content()
      ensures chunks == old(chunks) + if other == null then [] else other.chunks
    {
      ok := true;
      if other == null {
        return;
      }
      var i := 0;
      while i < |other.chunks|
        invariant i <= |other.chunks| && size == old(size)
        invariant chunks == old(chunks) + other.chunks[..i]
      {
        chunks := chunks + [other.chunks[i]];
        i := i + 1;
      }
      size := size + other.size;
      assert other.chunks[..i] == other.chunks;
      FlatAppend(old(chunks), other.chunks);
    }

    /** bool append(const T* pT, unsigned num): `data` is the sizeof(T) * num bytes at pT. */
    method AppendRaw(data: seq<byte>) returns (ok: bool)
      requires Valid() && size + |data| < LIMIT
      modifies this
      ensures Valid() && ok
      ensures Value() == Apply(old(Value()), AppendBytes(data))
      ensures Content() == old(Content()) + data && chunks == old(chunks) + [data]
    {
      FlatSnoc(chunks, data);
      size := size + |data|;
      chunks := chunks + [data];
      ok := true;
    }

    /** char* pullDown(unsigned num): merges chunks into the front one until it holds `num` bytes. `copied`
        counts the bytes its inserts copy, `rounds` how often its loop goes round. */
    method PullDown(num: nat) returns (p: Pulled, ghost copied: nat, ghost rounds: nat)
      requires Valid()
      modifies this
      ensures Valid() && size == old(size) && Content() == old(Content())
      ensures Value() == Apply(old(Value()), Op.PullDown(num))
      ensures p == Null <==> num > size || size == 0
      ensures p == OutOfRange <==> num == 0 && 0 < size && chunks != [] && chunks[0] == []
      ensures p == Null ==> chunks == old(chunks)
      ensures p != Null ==>
                exists k: nat :: && IsShortestPrefix(old(chunks), num, k)
                                 && chunks == [Flat(old(chunks)[..k])] + old(chunks)[k..]
      ensures p.Pointer? ==> chunks != [] && p.bytes == chunks[0] && num <= |p.bytes| && p.bytes <= Content()
      ensures copied == MergedBytes(old(Value()), Op.PullDown(num))
      ensures rounds == MergeRounds(old(Value()), Op.PullDown(num))
    {
      copied, rounds := 0, 0;
      if num > size || size == 0 {
        p := Null;
        return;
      }
      ghost var cs, k := chunks, 1;
      var len := |chunks[0]|;
      assert cs[..0] == [] && cs[..1] == [cs[0]];
      FlatOne(cs[0]);
      assert cs[..|cs|] == cs;
      while len < num
        invariant 1 <= k <= |cs| && size == old(size)
        invariant chunks == Merge(cs, k)
        invariant len == |chunks[0]|
        invariant k == 1 || |Flat(cs[..k - 1])| < num
        invariant rounds == k - 1 && copied == |Flat(cs[1..k])|
        decreases |cs| - k
      {
        assert k < |cs| && chunks[1] == cs[k];
        MergeOneMore(cs, k);
        len := len + |chunks[1]|;
        copied, rounds := copied + |chunks[1]|, rounds + 1;
        chunks := [chunks[0] + chunks[1]] + chunks[2..];
        k := k + 1;
      }
      ShortestPrefixUnique(cs, num, k, PullSpan(old(Value()), num));
      MergeKeepsContent(cs, k);
      FlatHead(chunks);
      p := if |chunks[0]| == 0 then OutOfRange else Pointer(chunks[0]);
    }

    /** bool consume(unsigned num): takes bytes off the front chunk only. */
    method Consume(num: nat) returns (ok: bool)
      requires Valid() && chunks != []
      modifies this
      ensures Valid()
      ensures Value() == Apply(old(Value()), Op.Consume(num))
      ensures ok <==> Consumable(old(Value()), num)
      ensures ok ==> num <= |old(Content())| && Content() == old(Content())[num..] && size == old(size) - num
      ensures !ok ==> Value() == old(Value())
      ensures ok == (old(chunks[0]) != [] && num <= |old(chunks[0])|)
      ensures chunks == if !ok then old(chunks)
                        else if num == |old(chunks[0])| then old(chunks)[1..]
                        else [old(chunks[0])[num..]] + old(chunks)[1..]
    {
      var siz := |chunks[0]|;
      if num > siz || siz == 0 {
        return false;
      }
      ConsumeTakes(Value(), num);
      if siz == num {
        chunks := chunks[1..];
        size := size - num;
        return true;
      }
      chunks := [chunks[0][num..]] + chunks[1..];
      size := size - num;
      ok := true;
    }

    method Size() returns (n: nat)
      requires Valid()
      ensures n == |Content()|
    {
      n := size;
    }
  }

  lemma MergeOneMore(cs: seq<seq<byte>>, k: nat)
    requires 1 <= k < |cs|
    ensures var merged := Merge(cs, k);
            && Merge(cs, k + 1) == [merged[0] + merged[1]] + merged[2..]
            && |Flat(cs[1..k + 1])| == |Flat(cs[1..k])| + |merged[1]|
  {
    assert cs[..k + 1] == cs[..k] + [cs[k]];
    FlatSnoc(cs[..k], cs[k]);
    assert cs[1..k + 1] == cs[1..k] + [cs[k]];
    FlatSnoc(cs[1..k], cs[k]);
  }
}
