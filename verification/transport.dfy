/**
 * The network as the client sees it through a stream socket: the peer at an
 * address, what it accepts and what each `recv` returns. The operating
 * system's socket calls are not part of this model; a `Peer` scripts what
 * they would do.
 */
module Transport {
  import opened Wrappers
  import opened Exceptions

  /** What one `recv` call yields: some bytes, or a failure such as a connection reset. */
  datatype Chunk = Bytes(data: string) | Reset

  /**
   * The program at an address: whether it accepts a connection, whether it
   * accepts the request, the replies its `recv` calls return in order (an
   * empty `Bytes`, or the end of the script, is an orderly close), and whether
   * the bytes it sends are valid UTF-8.
   */
  datatype Peer = Peer(listening: bool, takesRequest: bool, replies: seq<Chunk>, decodable: bool)

  /** Who answers at each host name and port. */
  type Network = (string, nat) -> Peer

  /** No peer at all: the stand-in before a socket has connected. */
  const Nobody := Peer(false, false, [], true)

  /** What the next `recv` returns when `pending` is what the peer has yet to send. */
  function NextChunk(pending: seq<Chunk>): (r: Result<string, Exception>)
    ensures r.Failure? <==> pending != [] && pending[0] == Reset
    ensures r.Failure? ==> r.error == RecvError
    ensures pending == [] ==> r == Success("")
  {
    if pending == [] then Success("")
    else match pending[0]
      case Reset => Failure(RecvError)
      case Bytes(d) => Success(d)
  }

  /** `prefix` put in front of a successful result; a failure stays as it is. */
  function Glue(prefix: string, r: Result<string, Exception>): (g: Result<string, Exception>)
    ensures g.Success? <==> r.Success?
    ensures g.Failure? ==> g == r
    ensures g.Success? ==> g.value == prefix + r.value
  {
    match r
    case Success(s) => Success(prefix + s)
    case Failure(e) => Failure(e)
  }

  /**
   * Everything reading until the peer closes collects: the chunks up to the
   * first empty one (or the end of the script), or RecvError at the first reset.
   */
  function Drain(pending: seq<Chunk>): (r: Result<string, Exception>)
    ensures r.Failure? ==> r.error == RecvError
    decreases |pending|
  {
    if pending == [] then Success("")
    else match pending[0]
      case Reset => Failure(RecvError)
      case Bytes(d) => if d == [] then Success("") else Glue(d, Drain(pending[1..]))
  }

  /** How many of the scripted replies reading until the close takes: the close and a reset count too. */
  function Reads(pending: seq<Chunk>): (n: nat)
    ensures n <= |pending|
    ensures pending != [] ==> n > 0
    decreases |pending|
  {
    if pending == [] then 0
    else match pending[0]
      case Reset => 1
      case Bytes(d) => if d == [] then 1 else 1 + Reads(pending[1..])
  }

  /** The bytes of a run of chunks, in order. */
  function Payload(chunks: seq<Chunk>): string
    decreases |chunks|
  {
    if chunks == [] then ""
    else (if chunks[0].Bytes? then chunks[0].data else "") + Payload(chunks[1..])
  }

  /** A run of chunks that each carry some bytes. */
  ghost predicate Data(chunks: seq<Chunk>) {
    forall k :: 0 <= k < |chunks| ==> chunks[k].Bytes? && chunks[k].data != []
  }

  /** The received bytes after the decode check `bytearray.decode` makes. */
  function Decoded(r: Result<string, Exception>, decodable: bool): (d: Result<string, Exception>)
    ensures d.Success? <==> r.Success? && decodable
    ensures d.Success? ==> d.value == r.value
    ensures r.Failure? ==> d == r
    ensures r.Success? && !decodable ==> d == Failure(DecodeError)
  {
    if r.Failure? then r else if decodable then r else Failure(DecodeError)
  }

  /** Gluing twice is gluing the two prefixes together. */
  lemma GlueGlue(a: string, b: string, r: Result<string, Exception>)
    ensures Glue(a, Glue(b, r)) == Glue(a + b, r)
  {
    if r.Success? {
      assert a + (b + r.value) == a + b + r.value;
    }
  }

  /** One step of reading: a chunk with bytes is put in front of what the rest yields. */
  lemma DrainStep(pending: seq<Chunk>)
    requires pending != [] && pending[0].Bytes? && pending[0].data != []
    ensures Drain(pending) == Glue(pending[0].data, Drain(pending[1..]))
  {
  }

  /** A read that comes back empty is the close: nothing more is collected. */
  lemma DrainClose(pending: seq<Chunk>)
    requires NextChunk(pending) == Success("")
    ensures Drain(pending) == Success("")
    ensures Reads(pending) == if pending == [] then 0 else 1
  {
  }

  /**
   * Reading a run of data chunks, then the close (an empty chunk or the end
   * of the script), collects exactly their bytes; what follows the close is
   * never read.
   */
  lemma {:induction false} DrainData(chunks: seq<Chunk>, rest: seq<Chunk>)
    requires Data(chunks)
    requires rest == [] || rest[0] == Bytes("")
    ensures Drain(chunks + rest) == Success(Payload(chunks))
    decreases |chunks|
  {
    if chunks == [] {
      assert chunks + rest == rest;
    } else {
      var c := chunks[0];
      assert (chunks + rest)[1..] == chunks[1..] + rest;
      assert Data(chunks[1..]) by {
        forall k | 0 <= k < |chunks[1..]|
          ensures chunks[1..][k].Bytes? && chunks[1..][k].data != []
        {
          assert chunks[1..][k] == chunks[k + 1];
        }
      }
      DrainData(chunks[1..], rest);
      assert c.Bytes? && c.data != [];
      DrainStep(chunks + rest);
    }
  }

  /** Reading stops at the first empty chunk: the replies after it are never read. */
  lemma {:induction false} ReadsUntilClose(chunks: seq<Chunk>, after: seq<Chunk>)
    requires Data(chunks)
    ensures Reads(chunks + [Bytes("")] + after) == |chunks| + 1
    decreases |chunks|
  {
    if chunks == [] {
      assert chunks + [Bytes("")] + after == [Bytes("")] + after;
    } else {
      assert (chunks + [Bytes("")] + after)[1..] == chunks[1..] + [Bytes("")] + after;
      assert Data(chunks[1..]) by {
        forall k | 0 <= k < |chunks[1..]|
          ensures chunks[1..][k].Bytes? && chunks[1..][k].data != []
        {
          assert chunks[1..][k] == chunks[k + 1];
        }
      }
      ReadsUntilClose(chunks[1..], after);
      assert chunks[0].Bytes? && chunks[0].data != [];
    }
  }

  /** A reset after a run of data chunks makes the whole read fail, whatever was read before. */
  lemma {:induction false} DrainReset(chunks: seq<Chunk>, rest: seq<Chunk>)
    requires Data(chunks)
    ensures Drain(chunks + [Reset] + rest) == Failure(RecvError)
    decreases |chunks|
  {
    if chunks == [] {
      assert chunks + [Reset] + rest == [Reset] + rest;
    } else {
      assert (chunks + [Reset] + rest)[1..] == chunks[1..] + [Reset] + rest;
      assert Data(chunks[1..]) by {
        forall k | 0 <= k < |chunks[1..]|
          ensures chunks[1..][k].Bytes? && chunks[1..][k].data != []
        {
          assert chunks[1..][k] == chunks[k + 1];
        }
      }
      DrainReset(chunks[1..], rest);
      assert chunks[0].Bytes? && chunks[0].data != [];
      DrainStep(chunks + [Reset] + rest);
    }
  }

  /** Where a socket is in its life. */
  datatype State = Fresh | Connected | Closed

  /**
   * A stream socket: its state, the peer it reached, the bytes it sent, how
   * many of the peer's replies it has read, and how often it was closed.
   */
  class Socket {
    var state: State
    var peer: Peer
    var sent: string
    var consumed: nat
    var closes: nat

    ghost predicate Valid()
      reads this
    {
      consumed <= |peer.replies|
    }

    /** The replies the peer has yet to deliver. */
    function Pending(): seq<Chunk>
      reads this
    {
      if consumed <= |peer.replies| then peer.replies[consumed..] else []
    }

    /** `socket.socket(AF_INET, SOCK_STREAM)`: a new, unconnected socket. */
    constructor()
      ensures Valid()
      ensures state == Fresh && peer == Nobody && sent == "" && consumed == 0 && closes == 0
    {
      state := Fresh;
      peer := Nobody;
      sent := "";
      consumed := 0;
      closes := 0;
    }

    /**
     * `connect((host, port))`: TypeError without a host name, ConnectError when
     * nobody listens there; otherwise the socket is connected to that peer.
     */
    method Connect(host: Option<string>, port: nat, net: Network) returns (err: Option<Exception>)
      requires Valid()
      modifies this
      ensures Valid()
      ensures host.None? ==> err == Some(TypeError)
      ensures host.Some? && !net(host.value, port).listening ==> err == Some(ConnectError)
      ensures err.None? <==> host.Some? && net(host.value, port).listening
      ensures err.Some? ==> state == old(state) && peer == old(peer) && consumed == old(consumed)
      ensures err.None? ==> state == Connected && peer == net(host.value, port) && consumed == 0
      ensures sent == old(sent) && closes == old(closes)
    {
      if host.None? {
        return Some(TypeError);
      }
      var p := net(host.value, port);
      if !p.listening {
        return Some(ConnectError);
      }
      state := Connected;
      peer := p;
      consumed := 0;
      err := None;
    }

    /** `sendall(data)`: SendError unless connected to a peer that takes the request. */
    method SendAll(data: string) returns (err: Option<Exception>)
      requires Valid()
      modifies this
      ensures Valid()
      ensures err.None? <==> old(state) == Connected && peer.takesRequest
      ensures err.Some? ==> err.value == SendError && sent == old(sent)
      ensures err.None? ==> sent == old(sent) + data
      ensures state == old(state) && peer == old(peer) && consumed == old(consumed) && closes == old(closes)
    {
      if state != Connected || !peer.takesRequest {
        return Some(SendError);
      }
      sent := sent + data;
      err := None;
    }

    /**
     * `recv(bufsize)`: the next reply. RecvError when not connected or at a
     * reset; empty once the peer has closed.
     */
    method Recv() returns (r: Result<string, Exception>)
      requires Valid()
      modifies this
      ensures Valid()
      ensures old(state) != Connected ==> r == Failure(RecvError) && consumed == old(consumed)
      ensures old(state) == Connected ==> r == NextChunk(old(Pending()))
      ensures old(state) == Connected ==>
        Pending() == if old(Pending()) == [] then [] else old(Pending())[1..]
      ensures state == old(state) && peer == old(peer) && sent == old(sent) && closes == old(closes)
    {
      if state != Connected {
        return Failure(RecvError);
      }
      if consumed == |peer.replies| {
        return Success("");
      }
      r := NextChunk(peer.replies[consumed..]);
      assert peer.replies[consumed..][1..] == peer.replies[consumed + 1..];
      consumed := consumed + 1;
    }

    /** `close()`: closing again is harmless. */
    method Close()
      requires Valid()
      modifies this
      ensures Valid()
      ensures state == Closed && closes == old(closes) + 1
      ensures peer == old(peer) && sent == old(sent) && consumed == old(consumed)
    {
      state := Closed;
      closes := closes + 1;
    }
  }
}
