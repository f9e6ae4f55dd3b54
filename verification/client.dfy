/**
 * The client object (httpclient.py lines 36-119): `connect`, `sendall`,
 * `close` and `recvall` over its socket, `GET` with its try/except/finally,
 * the `POST` stub and the `command` dispatcher.
 */
module Client {
  import opened Wrappers
  import opened Exceptions
  import opened Strings
  import opened Response
  import opened Request
  import opened Target
  import opened Transport

  /** What a call hands back: a response, or an exception that escaped it. */
  datatype Outcome = Returned(response: HTTPResponse) | Raised(error: Exception)

  /** The code and body `GET` starts from and keeps when its try block fails early. */
  const Sentinel := HTTPResponse(500, "")

  /** What `recvall` yields on a fresh connection to `peer`. */
  function Received(peer: Peer): (r: Result<string, Exception>)
    ensures r.Failure? ==> r.error == RecvError || r.error == DecodeError
    ensures r.Success? <==> Drain(peer.replies).Success? && peer.decodable
  {
    Decoded(Drain(peer.replies), peer.decodable)
  }

  /** Lines 99-100, from code 500 and body "": `code` is set before `get_body` can raise. */
  function Answer(resp: string): (r: HTTPResponse)
    ensures GetCode(resp).Failure? ==> r == Sentinel
    ensures GetCode(resp).Success? ==> r.code == GetCode(resp).value
    ensures GetCode(resp).Success? && GetBody(resp).Success? ==> r.body == GetBody(resp).value
    ensures GetBody(resp).Failure? ==> r.body == ""
  {
    match GetCode(resp)
    case Failure(_) => Sentinel
    case Success(code) =>
      match GetBody(resp)
      case Failure(_) => HTTPResponse(code, "")
      case Success(body) => HTTPResponse(code, body)
  }

  /** The try block of `GET` (lines 89-106) once connected to `peer`; every failure in it is swallowed. */
  function Exchange(peer: Peer): (r: HTTPResponse)
    ensures !peer.takesRequest ==> r == Sentinel
    ensures peer.takesRequest && Received(peer).Failure? ==> r == Sentinel
    ensures peer.takesRequest && Received(peer).Success? ==> r == Answer(Received(peer).value)
  {
    if !peer.takesRequest then Sentinel
    else
      match Received(peer)
      case Failure(_) => Sentinel
      case Success(resp) => Answer(resp)
  }

  /** What `GET` does for the parsed URL `u` on the network `net`. */
  function GetResult(u: UrlParts, net: Network): (out: Outcome)
    ensures out.Raised? <==>
      Resolve(u).host.None? || !net(Resolve(u).host.value, Resolve(u).port).listening
    ensures out.Raised? ==> out.error == TypeError || out.error == ConnectError
  {
    var t := Resolve(u);
    if t.host.None? then Raised(TypeError)
    else
      var peer := net(t.host.value, t.port);
      if !peer.listening then Raised(ConnectError) else Returned(Exchange(peer))
  }

  /** `POST`: a stub that answers 500 with an empty body whatever it is given. */
  function Post(u: UrlParts): (r: HTTPResponse)
    ensures r.code == 500 && r.body == ""
  {
    Sentinel
  }

  /**
   * Against a server that sends a well-formed response in any number of
   * chunks and then closes, the exchange answers the server's status and the
   * content up to its first blank line.
   */
  lemma ExchangeRendered(m: Message, peer: Peer, chunks: seq<Chunk>, rest: seq<Chunk>)
    requires WellFormed(m)
    requires peer.takesRequest && peer.decodable
    requires peer.replies == chunks + rest && Data(chunks) && (rest == [] || rest[0] == Bytes(""))
    requires Payload(chunks) == Render(m)
    ensures Exchange(peer) == HTTPResponse(m.status, Split(m.content, Separator)[0])
  {
    DrainData(chunks, rest);
    ParseRendered(m);
  }

  /** The same, seen from `GET`: the URL's host and port reach such a server. */
  lemma GetRendered(u: UrlParts, net: Network, m: Message, chunks: seq<Chunk>, rest: seq<Chunk>)
    requires Resolve(u).host.Some?
    requires net(Resolve(u).host.value, Resolve(u).port).listening
    requires WellFormed(m)
    requires net(Resolve(u).host.value, Resolve(u).port).takesRequest
    requires net(Resolve(u).host.value, Resolve(u).port).decodable
    requires net(Resolve(u).host.value, Resolve(u).port).replies == chunks + rest
    requires Data(chunks) && (rest == [] || rest[0] == Bytes(""))
    requires Payload(chunks) == Render(m)
    ensures GetResult(u, net) == Returned(HTTPResponse(m.status, Split(m.content, Separator)[0]))
  {
    ExchangeRendered(m, net(Resolve(u).host.value, Resolve(u).port), chunks, rest);
  }

  /** A reset while reading makes `GET` answer 500 with an empty body, whatever came before it. */
  lemma ExchangeReset(peer: Peer, chunks: seq<Chunk>, rest: seq<Chunk>)
    requires peer.takesRequest && peer.replies == chunks + [Reset] + rest && Data(chunks)
    ensures Exchange(peer) == Sentinel
  {
    DrainReset(chunks, rest);
  }

  /** Bytes that are not UTF-8 make `GET` answer 500 with an empty body. */
  lemma ExchangeUndecodable(peer: Peer)
    requires !peer.decodable
    ensures Exchange(peer) == Sentinel
  {
  }

  /** A response with a readable code but no blank line keeps the code and an empty body. */
  lemma AnswerNoSeparator(resp: string)
    requires GetCode(resp).Success? && !Contains(resp, Separator)
    ensures Answer(resp) == HTTPResponse(GetCode(resp).value, "")
  {
    GetBodySpec(resp);
  }

  /** Only a missing host or a refused connection escape `GET`; every other failure is answered. */
  lemma GetEscapes(u: UrlParts, net: Network)
    ensures GetResult(u, net).Raised? ==> Resolve(u).host.None? || !net(Resolve(u).host.value, Resolve(u).port).listening
    ensures GetResult(u, net).Returned? ==>
      GetResult(u, net).response == Sentinel || GetCode(Received(net(Resolve(u).host.value, Resolve(u).port)).value).Success?
  {
  }

  lemma PrefixOfConcat(a: string, b: string)
    ensures a <= a + b
  {
    assert (a + b)[..|a|] == a;
  }

  class HTTPClient {
    var socket: Socket?

    constructor()
      ensures socket == null
    {
      socket := null;
    }

    /** `connect`: a new socket, then its `connect`; an error propagates with the socket left fresh. */
    method Connect(host: Option<string>, port: nat, net: Network) returns (err: Option<Exception>)
      modifies this
      ensures socket != null && fresh(socket) && socket.Valid()
      ensures host.None? ==> err == Some(TypeError)
      ensures host.Some? && !net(host.value, port).listening ==> err == Some(ConnectError)
      ensures err.None? <==> host.Some? && net(host.value, port).listening
      ensures err.None? ==> socket.state == Connected && socket.peer == net(host.value, port)
      ensures err.Some? ==> socket.state == Fresh
      ensures socket.consumed == 0 && socket.sent == "" && socket.closes == 0
    {
      var s := new Socket();
      socket := s;
      err := s.Connect(host, port, net);
    }

    /** `sendall`: AttributeError before `connect`; otherwise the socket's `sendall`. */
    method SendAll(data: string) returns (err: Option<Exception>)
      requires socket != null ==> socket.Valid()
      modifies socket
      ensures socket == old(socket)
      ensures socket == null ==> err == Some(AttributeError)
      ensures socket != null ==> socket.Valid()
      ensures socket != null ==>
        (err.None? <==> old(socket.state) == Connected && socket.peer.takesRequest)
      ensures socket != null && err.Some? ==> err.value == SendError && socket.sent == old(socket.sent)
      ensures socket != null && err.None? ==> socket.sent == old(socket.sent) + data
      ensures socket != null ==>
        socket.state == old(socket.state) && socket.peer == old(socket.peer)
        && socket.consumed == old(socket.consumed) && socket.closes == old(socket.closes)
    {
      if socket == null {
        return Some(AttributeError);
      }
      err := socket.SendAll(data);
    }

    /** `close`: AttributeError before `connect`; otherwise the socket's `close`. */
    method Close() returns (err: Option<Exception>)
      requires socket != null ==> socket.Valid()
      modifies socket
      ensures socket == old(socket)
      ensures err.Some? <==> socket == null
      ensures err.Some? ==> err.value == AttributeError
      ensures socket != null ==>
        socket.Valid() && socket.state == Closed && socket.closes == old(socket.closes) + 1
        && socket.peer == old(socket.peer) && socket.sent == old(socket.sent)
        && socket.consumed == old(socket.consumed)
    {
      if socket == null {
        return Some(AttributeError);
      }
      socket.Close();
      err := None;
    }

    /**
     * `recvall`: `recv` until a read comes back empty, extending the buffer,
     * then decode. A failing `recv` propagates.
     */
    method RecvAll(sock: Socket) returns (r: Result<string, Exception>)
      requires sock.Valid()
      modifies sock
      ensures sock.Valid()
      ensures sock.state == old(sock.state) && sock.peer == old(sock.peer)
      ensures sock.sent == old(sock.sent) && sock.closes == old(sock.closes)
      ensures old(sock.state) != Connected ==> r == Failure(RecvError)
      ensures old(sock.state) == Connected ==>
        r == Decoded(Drain(old(sock.Pending())), sock.peer.decodable)
      ensures old(sock.state) == Connected ==>
        sock.consumed == old(sock.consumed) + Reads(old(sock.Pending()))
    {
      ghost var start := sock.Pending();
      ghost var consumed0 := sock.consumed;
      var buffer := "";
      var done := false;
      if Drain(start).Success? {
        assert buffer + Drain(start).value == Drain(start).value;
      }
      while !done
        invariant sock.Valid()
        invariant sock.state == old(sock.state) && sock.peer == old(sock.peer)
        invariant sock.sent == old(sock.sent) && sock.closes == old(sock.closes)
        invariant sock.state == Connected && !done ==>
          Drain(start) == Glue(buffer, Drain(sock.Pending()))
          && consumed0 + Reads(start) == sock.consumed + Reads(sock.Pending())
        invariant sock.state == Connected && done ==>
          Drain(start) == Success(buffer) && sock.consumed == consumed0 + Reads(start)
        invariant sock.state != Connected ==> !done
        invariant sock.state == Connected && Drain(start).Success? ==> buffer <= Drain(start).value
        decreases |sock.Pending()|, !done
      {
        ghost var before := sock.Pending();
        var part := sock.Recv();
        if part.Failure? {
          return Failure(part.error);
        }
        if part.value != [] {
          DrainStep(before);
          GlueGlue(buffer, part.value, Drain(sock.Pending()));
          buffer := buffer + part.value;
          if Drain(start).Success? {
            PrefixOfConcat(buffer, Drain(sock.Pending()).value);
          }
        } else {
          DrainClose(before);
          assert buffer + "" == buffer;
          done := true;
        }
      }
      if !sock.peer.decodable {
        return Failure(DecodeError);
      }
      r := Success(buffer);
    }

    /** `GET` (lines 71-108). */
    method Get(u: UrlParts, net: Network) returns (out: Outcome)
      modifies this
      ensures out == GetResult(u, net)
      ensures socket != null && fresh(socket) && socket.Valid()
      ensures out.Raised? ==> socket.state == Fresh && socket.closes == 0 && socket.sent == ""
      ensures out.Returned? ==> socket.state == Closed && socket.closes == 1
      ensures out.Returned? ==>
        Resolve(u).host.Some? && socket.peer == net(Resolve(u).host.value, Resolve(u).port)
        && socket.sent
          == (if socket.peer.takesRequest then BuildGet(Resolve(u).host.value, Resolve(u).path) else "")
    {
      var t := Resolve(u);
      var err := Connect(t.host, t.port, net);
      if err.Some? {
        return Raised(err.value);
      }
      var sock := socket;
      var request := BuildGet(t.host.value, t.path);
      var code := 500;
      var body := "";
      var sendErr := SendAll(request);
      if sendErr.None? {
        assert sock.Pending() == sock.peer.replies;
        var response := RecvAll(sock);
        if response.Success? {
          var c := GetCode(response.value);
          if c.Success? {
            code := c.value;
            var b := GetBody(response.value);
            if b.Success? {
              body := b.value;
            }
          }
        }
      }
      var _ := Close();
      out := Returned(HTTPResponse(code, body));
    }

    /** `command`: `POST` for the exact text "POST", `GET` for anything else. */
    method Command(u: UrlParts, net: Network, command: string := "GET") returns (out: Outcome)
      modifies this
      ensures command == "POST" ==> out == Returned(Post(u)) && socket == old(socket)
      ensures command != "POST" ==> out == GetResult(u, net)
      ensures command != "POST" ==> socket != null && fresh(socket) && socket.Valid()
      ensures command != "POST" && out.Raised? ==>
        socket.state == Fresh && socket.closes == 0 && socket.sent == ""
      ensures command != "POST" && out.Returned? ==>
        socket.state == Closed && socket.closes == 1
        && Resolve(u).host.Some? && socket.peer == net(Resolve(u).host.value, Resolve(u).port)
        && socket.sent
          == (if socket.peer.takesRequest then BuildGet(Resolve(u).host.value, Resolve(u).path) else "")
    {
      if command == "POST" {
        out := Returned(Post(u));
      } else {
        out := Get(u, net);
      }
    }
  }
}
