/** TcpSocket::write, TcpSocket::read and Http::read over IOBuffers, with the kernel's answers left open. */
module TcpSocket {
  import opened Bytes
  import opened Chunks
  import opened IOBuffer

  /** _maxSendSize and _maxRecvSize */
  const MAX_SEND: nat := 1024
  const MAX_RECV: nat := 1024

  /** The write side of the connection as the peer sees it, and the bytes offered by the last send. */
  class Wire {
    var sent: seq<byte>
    var shutdowns: nat
    var offered: seq<byte>

    constructor ()
      ensures sent == [] && shutdowns == 0
    {
      sent, shutdowns, offered := [], 0, [];
    }

    /** ::send(fd, bytes, size, 0): takes a first part of the bytes, or nothing, or fails with -1. */
    method Send(bytes: seq<byte>) returns (r: int)
      requires 1 <= |bytes| <= MAX_SEND
      modifies this
      ensures -1 <= r <= |bytes|
      ensures sent == old(sent) + if r > 0 then bytes[..r] else []
      ensures shutdowns == old(shutdowns) && offered == bytes
    {
      offered := bytes;
      r :| -1 <= r <= |bytes|;
      if r > 0 {
        sent := sent + bytes[..r];
      }
    }

    /** shutdown(fd, SHUT_WR) */
    method Shutdown()
      modifies this
      ensures sent == old(sent) && offered == old(offered) && shutdowns == old(shutdowns) + 1
    {
      shutdowns := shutdowns + 1;
    }
  }

  /** The send callback: what it appends to the buffer it is given, and the buffer it returns. */
  datatype SendCall = SendCall(appended: seq<seq<byte>>, returned: IOBuffer?)

  // ---------------------------------------------------------------- runs of write

  /** What a caller of write can know: bytes not sent yet, bytes sent, and shutdowns of the write side. */
  datatype Link = Link(queue: seq<byte>, sent: seq<byte>, shutdowns: nat)

  /** One call of write: what it appended in all, and how many bytes the kernel took. */
  datatype Call = Call(appended: seq<byte>, accepted: nat)

  predicate Possible(l: Link, call: Call) {
    call.appended != [] && call.accepted <= |l.queue + call.appended| && call.accepted <= MAX_SEND
  }

  function WriteStep(l: Link, call: Call): Link
    requires Possible(l, call)
  {
    var all := l.queue + call.appended;
    var left := all[call.accepted..];
    Link(left, l.sent + all[..call.accepted], l.shutdowns + if left == [] then 1 else 0)
  }

  predicate PossibleRun(l: Link, calls: seq<Call>)
    decreases |calls|
  {
    calls == [] || (Possible(l, calls[0]) && PossibleRun(WriteStep(l, calls[0]), calls[1..]))
  }

  function WriteRun(l: Link, calls: seq<Call>): Link
    requires PossibleRun(l, calls)
    decreases |calls|
  {
    if calls == [] then l else WriteRun(WriteStep(l, calls[0]), calls[1..])
  }

  function AllAppended(calls: seq<Call>): seq<byte> {
    if calls == [] then [] else calls[0].appended + AllAppended(calls[1..])
  }

  function AllAccepted(calls: seq<Call>): nat {
    if calls == [] then 0 else calls[0].accepted + AllAccepted(calls[1..])
  }

  /** How often the number of bytes pending drops to zero, from the lengths alone. */
  function Drains(pending: nat, calls: seq<Call>): nat
    decreases |calls|
  {
    if calls == [] then 0
    else
      var now := pending + |calls[0].appended|;
      var left := if calls[0].accepted <= now then now - calls[0].accepted else 0;
      (if left == 0 then 1 else 0) + Drains(left, calls[1..])
  }

  /** Over every run of writes, whatever the kernel answers: bytes sent followed by bytes pending are all
      bytes ever appended, in order; the bytes sent are as many as the kernel took; and the write side is
      shut down once for each time the buffer is drained. */
  lemma {:induction false} RunDelivers(l: Link, calls: seq<Call>)
    requires PossibleRun(l, calls)
    ensures var l' := WriteRun(l, calls);
            && l'.sent + l'.queue == l.sent + l.queue + AllAppended(calls)
            && |l'.sent| == |l.sent| + AllAccepted(calls)
            && l'.shutdowns == l.shutdowns + Drains(|l.queue|, calls)
    decreases |calls|
  {
    if calls != [] {
      var call, rest := calls[0], calls[1..];
      var l1 := WriteStep(l, call);
      StepDelivers(l, call);
      RunDelivers(l1, rest);
      calc {
        WriteRun(l, calls).sent + WriteRun(l, calls).queue;
        (l1.sent + l1.queue) + AllAppended(rest);
        (l.sent + l.queue + call.appended) + AllAppended(rest);
        l.sent + l.queue + (call.appended + AllAppended(rest));
      }
    }
  }

  lemma StepDelivers(l: Link, call: Call)
    requires Possible(l, call)
    ensures var l1 := WriteStep(l, call);
            && l1.sent + l1.queue == l.sent + l.queue + call.appended
            && |l1.sent| == |l.sent| + call.accepted
            && |l1.queue| == |l.queue| + |call.appended| - call.accepted
            && (l1.queue == [] <==> |l1.queue| == 0)
  {
    var all := l.queue + call.appended;
    assert all == all[..call.accepted] + all[call.accepted..];
  }

  /** So what the peer has received is determined by the accepted counts: always a prefix of what was
      appended, and all of it exactly when nothing is pending. */
  lemma PeerSeesPrefix(calls: seq<Call>)
    requires PossibleRun(Link([], [], 0), calls)
    ensures var l := WriteRun(Link([], [], 0), calls);
            && AllAccepted(calls) <= |AllAppended(calls)|
            && l.sent == AllAppended(calls)[..AllAccepted(calls)]
            && (l.sent == AllAppended(calls) <==> l.queue == [])
  {
    var l := WriteRun(Link([], [], 0), calls);
    RunDelivers(Link([], [], 0), calls);
    assert l.sent + l.queue == AllAppended(calls);
    assert (l.sent + l.queue)[..|l.sent|] == l.sent;
  }

  // ---------------------------------------------------------------- Http::read

  class Http {
    var inBuffer: seq<byte>

    constructor ()
      ensures inBuffer == []
    {
      inBuffer := [];
    }

    /** int Http::read(IOBufferAbstractClass* buf): drains the buffer into _in_buffer. */
    method Read(buf: IOBuffer) returns (n: nat)
      requires buf.Valid() && buf.chunks != []
      modifies this, buf
      ensures buf.Valid() && buf.Content() == []
      ensures inBuffer == old(buf.Content()) && n == |inBuffer|
      ensures old(buf.size) > 0 ==>
                exists k :: 1 <= k <= |old(buf.chunks)| && buf.chunks == old(buf.chunks)[k..]
    {
      var size := buf.Size();
      var sta, _, _ := buf.PullDown(size);
      var tmp := if sta.Pointer? then sta.bytes[..size] else [];
      ghost var merged := buf.chunks;
      if sta.Pointer? {
        WholeFront(buf.chunks, size);
      }
      var consumed := buf.Consume(size);
      inBuffer := tmp;
      n := |inBuffer|;
    }
  }

  lemma WholeFront(cs: seq<seq<byte>>, size: nat)
    requires cs != [] && size == |Flat(cs)| && size <= |cs[0]|
    ensures cs[0] == Flat(cs) && |cs[0]| == size
  {
    FlatHead(cs);
  }

  // ---------------------------------------------------------------- TcpSocket

  class TcpSocket {
    const sendBuffer: IOBuffer
    const recvBuffer: IOBuffer
    const wire: Wire
    const http: Http
    var isConnected: bool
    var sendCall: Option<SendCall>

    constructor (wire: Wire)
      ensures Valid() && isConnected && this.wire == wire && fresh(sendBuffer) && fresh(recvBuffer) && fresh(http)
      ensures sendBuffer.Content() == [] && recvBuffer.Content() == [] && sendCall == None
    {
      sendBuffer := new IOBuffer();
      recvBuffer := new IOBuffer();
      http := new Http();
      this.wire := wire;
      isConnected, sendCall := true, None;
    }

    predicate Valid()
      reads this, sendBuffer, recvBuffer
    {
      sendBuffer != recvBuffer && sendBuffer.Valid() && recvBuffer.Valid()
    }

    function State(): Link
      reads this, sendBuffer, wire
    {
      Link(sendBuffer.Content(), wire.sent, wire.shutdowns)
    }

    /** The bytes a buffer adds when it is appended. */
    function BytesOf(b: IOBuffer?): seq<byte>
      reads b
    {
      if b == null then [] else b.Content()
    }

    /** Everything one call of write appends: the argument, what the callback appends and returns, and
        the response of Http::write. */
    function Outgoing(chunk: IOBuffer?, response: seq<seq<byte>>): seq<byte>
      reads this, chunk, if sendCall.Some? then {sendCall.value.returned} else {}
    {
      BytesOf(chunk)
      + (if sendCall.Some? then Flat(sendCall.value.appended) + BytesOf(sendCall.value.returned) else [])
      + Flat(response)
    }

    lemma OutgoingInOrder(before: seq<byte>, chunk: IOBuffer?, response: seq<seq<byte>>)
      ensures before + Outgoing(chunk, response)
           == before
              + (if chunk == null then [] else chunk.Content())
              + (if sendCall.None? then [] else Flat(sendCall.value.appended))
              + (if sendCall.None? || sendCall.value.returned == null then [] else sendCall.value.returned.Content())
              + Flat(response)
    {
      hide Flat;
      if sendCall.Some? {
        var call := sendCall.value;
        Regrouped(before, BytesOf(chunk), Flat(call.appended), BytesOf(call.returned), Flat(response));
      } else {
        Regrouped(before, BytesOf(chunk), [], [], Flat(response));
      }
    }

    predicate Appendable(b: IOBuffer?)
      reads b
    {
      b != null ==> b.Valid()
    }

    /** Appends blocks one after the other, as a callback or Http::write does. */
    static method AppendAll(buf: IOBuffer, parts: seq<seq<byte>>)
      requires buf.Valid() && buf.size + |Flat(parts)| < LIMIT
      modifies buf
      ensures buf.Valid() && buf.Content() == old(buf.Content()) + Flat(parts)
      ensures buf.chunks == old(buf.chunks) + parts
    {
      hide Flat;
      var i := 0;
      ghost var before := buf.Content();
      AllParts(parts);
      while i < |parts|
        invariant i <= |parts| && buf.Valid()
        invariant buf.Content() == before + Flat(parts[..i])
        invariant buf.chunks == old(buf.chunks) + parts[..i]
      {
        NextPart(parts, i);
        var ok := buf.AppendRaw(parts[i]);
        i := i + 1;
      }
    }

    /** The appending part of write. */
    method Gather(chunk: IOBuffer?, response: seq<seq<byte>>)
      requires Valid()
      requires Appendable(chunk) && chunk != sendBuffer
      requires sendCall.Some? ==> Appendable(sendCall.value.returned) && sendCall.value.returned != sendBuffer
      requires sendBuffer.size + |Outgoing(chunk, response)| < LIMIT
      modifies this`sendCall, sendBuffer
      ensures Valid() && sendCall == None
      ensures var call := old(sendCall);
              sendBuffer.Content() == old(sendBuffer.Content())
                + (if chunk == null then [] else old(chunk.Content()))
                + (if call.None? then [] else Flat(call.value.appended))
                + (if call.None? || call.value.returned == null then [] else old(call.value.returned.Content()))
                + Flat(response)
    {
      hide Flat;
      var ok;
      if chunk != null {
        ok := sendBuffer.Append(chunk);
      }
      if sendCall.Some? {
        AppendAll(sendBuffer, sendCall.value.appended);
        ok := sendBuffer.Append(sendCall.value.returned);
      }
      sendCall := None;
      AppendAll(sendBuffer, response);
    }

    /** ssize_t TcpSocket::read(IOBufferAbstractClass*): recv returns `r`, and the bytes `block` if that is
        positive; `extra` is what the receive callback appends. The code needs a chunk by then. */
    method Read(r: int, block: seq<byte>, extra: seq<seq<byte>>) returns (siz: int)
      requires Valid() && -1 <= r <= MAX_RECV && |block| == (if r > 0 then r else 0)
      requires recvBuffer.size + |block| + |Flat(extra)| < LIMIT
      requires isConnected ==> r > 0 || extra != [] || recvBuffer.chunks != []
      modifies recvBuffer, http, wire
      ensures Valid()
      ensures !isConnected ==>
                && siz == -1 && recvBuffer.Value() == old(recvBuffer.Value())
                && http.inBuffer == old(http.inBuffer) && wire.shutdowns == old(wire.shutdowns)
      ensures isConnected ==>
                && siz == r && recvBuffer.Content() == []
                && http.inBuffer == old(recvBuffer.Content()) + block + Flat(extra)
                && wire.shutdowns == old(wire.shutdowns) + if http.inBuffer == [] then 1 else 0
      ensures wire.sent == old(wire.sent)
    {
      hide Flat;
      if !isConnected {
        return -1;
      }
      if r > 0 {
        var received := new IOBuffer.FromBytes(block);
        FlatOne(block);
        var ok := recvBuffer.Append(received);
      }
      AppendAll(recvBuffer, extra);
      if recvBuffer.size == 0 {
        wire.Shutdown();
      }
      var n := http.Read(recvBuffer);
      siz := r;
    }

    /** ssize_t TcpSocket::write(IOBufferAbstractClass* chunk). Http::write is any non-empty response. */
    method Write(chunk: IOBuffer?, response: seq<seq<byte>>) returns (ret: int)
      requires Valid() && Flat(response) != []
      requires Appendable(chunk) && chunk != sendBuffer
      requires sendCall.Some? ==> Appendable(sendCall.value.returned) && sendCall.value.returned != sendBuffer
      requires sendBuffer.size + |Outgoing(chunk, response)| < LIMIT
      modifies this`sendCall, sendBuffer, wire
      ensures Valid()
      ensures !isConnected ==> ret == -1 && State() == old(State()) && sendCall == old(sendCall)
      ensures isConnected ==>
                && sendCall == None && ret >= 0
                && Possible(old(State()), Call(old(Outgoing(chunk, response)), ret))
                && State() == WriteStep(old(State()), Call(old(Outgoing(chunk, response)), ret))
      ensures isConnected ==>
                var call := old(sendCall);
                var all := old(sendBuffer.Content())
                  + (if chunk == null then [] else old(chunk.Content()))
                  + (if call.None? then [] else Flat(call.value.appended))
                  + (if call.None? || call.value.returned == null then [] else old(call.value.returned.Content()))
                  + Flat(response);
                && wire.offered == (if |all| < 1024 then all else all[..1024])
                && ret <= |wire.offered|
                && wire.sent == old(wire.sent) + all[..ret] && sendBuffer.Content() == all[ret..]
                && wire.shutdowns == old(wire.shutdowns) + if ret == |all| then 1 else 0
    {
      hide Flat;
      if !isConnected {
        return -1;
      }
      OutgoingInOrder(sendBuffer.Content(), chunk, response);
      Gather(chunk, response);
      ret := SendSome();
    }

    /** The rest of write: one send from the front of the buffer. */
    method SendSome() returns (ret: nat)
      requires Valid() && sendBuffer.Content() != []
      modifies sendBuffer, wire
      ensures Valid()
      ensures ret <= |old(sendBuffer.Content())| && ret <= MAX_SEND
      ensures sendBuffer.Content() == old(sendBuffer.Content())[ret..]
      ensures wire.sent == old(wire.sent) + old(sendBuffer.Content())[..ret]
      ensures wire.shutdowns == old(wire.shutdowns) + if sendBuffer.Content() == [] then 1 else 0
      ensures var all := old(sendBuffer.Content());
              wire.offered == (if |all| < MAX_SEND then all else all[..MAX_SEND]) && ret <= |wire.offered|
    {
      hide Flat, Apply, IsShortestPrefix;
      ghost var all := sendBuffer.Content();
      var size := sendBuffer.Size();
      var sz := if MAX_SEND < size then MAX_SEND else size;
      var wb, _, _ := sendBuffer.PullDown(sz);
      assert wb.bytes[..sz] == all[..sz];
      var siz := wire.Send(wb.bytes[..sz]);
      ret := 0;
      if siz > 0 {
        assert wb.bytes[..sz][..siz] == all[..siz];
        var consumed := sendBuffer.Consume(siz);
        if consumed {
          if sendBuffer.size == 0 {
            wire.Shutdown();
          }
          return siz;
        } else {
          // the branch that logs a failed consume
          assert false;
        }
      }
      if sendBuffer.size == 0 {
        // the second shutdown: nothing was taken, so something is left
        assert false;
      }
    }
  }

  lemma Regrouped(a: seq<byte>, b: seq<byte>, c: seq<byte>, d: seq<byte>, e: seq<byte>)
    ensures a + (b + (c + d) + e) == a + b + c + d + e
  {
    assert a + (b + (c + d) + e) == (a + b) + (c + d) + e;
    assert (a + b) + (c + d) == a + b + c + d;
  }

  lemma AllParts(parts: seq<seq<byte>>)
    ensures Flat(parts[..0]) == [] && parts[..|parts|] == parts
  {
  }

  lemma NextPart(parts: seq<seq<byte>>, i: nat)
    requires i < |parts|
    ensures Flat(parts[..i + 1]) == Flat(parts[..i]) + parts[i]
    ensures |Flat(parts[..i + 1])| <= |Flat(parts)|
  {
    assert parts[..i + 1] == parts[..i] + [parts[i]];
    FlatSnoc(parts[..i], parts[i]);
    FlatGrows(parts, i + 1, |parts|);
  }
}
