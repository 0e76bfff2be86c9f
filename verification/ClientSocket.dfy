/** The two ends of a connection as the server sees them: a byte stream to receive from
    and a sink (the CGI input pipe, or the sending side) that keeps what was written. */
module ClientSocket {
  import opened Bytes

  /** The receiving side. A receive yields nothing only at the end of the stream. */
  class ClientSocket {
    const data: seq<byte>
    var pos: nat

    constructor (data: seq<byte>)
      ensures this.data == data && pos == 0
    {
      this.data := data;
      pos := 0;
    }

    predicate Valid()
      reads this
    {
      pos <= |data|
    }

    /** What the peer has sent and the server has not received yet. */
    function Rest(): seq<byte>
      requires Valid()
      reads this
    {
      data[pos..]
    }

    /** recv(sock, &c, 1, 0): `c` keeps its old value at the end of the stream. */
    method Recv(c: byte) returns (n: int, c': byte)
      requires Valid()
      modifies this
      ensures Valid()
      ensures old(pos) < |data| ==> n == 1 && c' == data[old(pos)] && pos == old(pos) + 1
      ensures old(pos) == |data| ==> n == 0 && c' == c && pos == old(pos)
    {
      if pos < |data| {
        n, c' := 1, data[pos];
        pos := pos + 1;
      } else {
        n, c' := 0, c;
      }
    }

    /** recv(sock, &c, 1, MSG_PEEK): looks at the next byte without taking it. */
    method Peek(c: byte) returns (n: int, c': byte)
      requires Valid()
      ensures pos < |data| ==> n == 1 && c' == data[pos]
      ensures pos == |data| ==> n == 0 && c' == c
    {
      if pos < |data| {
        n, c' := 1, data[pos];
      } else {
        n, c' := 0, c;
      }
    }
  }

  /** A descriptor the server writes to. */
  class ByteSink {
    var written: seq<byte>

    constructor ()
      ensures written == []
    {
      written := [];
    }

    method Write(bytes: seq<byte>)
      modifies this
      ensures written == old(written) + bytes
    {
      written := written + bytes;
    }
  }
}
