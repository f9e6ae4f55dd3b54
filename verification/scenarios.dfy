/** Concrete exchanges, worked through the general lemmas. */
module Scenarios {
  import opened Wrappers
  import opened Strings
  import opened Decimal
  import opened Response
  import opened Transport
  import opened Client

  /** A well-formed response sent in two chunks, then the close. */
  lemma TwoChunkExchange(m: Message, a: string, b: string)
    requires WellFormed(m) && a != [] && b != [] && a + b == Render(m)
    ensures Exchange(Peer(true, true, [Bytes(a), Bytes(b)], true))
      == HTTPResponse(m.status, Split(m.content, Separator)[0])
  {
    var chunks := [Bytes(a), Bytes(b)];
    assert chunks[1..] == [Bytes(b)];
    assert chunks[1..][1..] == [];
    assert Payload(chunks[1..]) == b + "";
    assert Payload(chunks) == a + (b + "");
    assert a + (b + "") == a + b;
    assert chunks + [] == chunks;
    ExchangeRendered(m, Peer(true, true, chunks, true), chunks, []);
  }

  /** `404` written out as `ShowNat` writes it. */
  lemma Show404()
    ensures ShowNat(404) == "404"
  {
    assert ShowNat(4) == "4";
    assert ShowNat(40) == "40";
  }

  /** The not-found message used below. */
  function NotFound(): Message {
    Message("HTTP/1.1", 404, "Not Found", ["Content-Length: 0"], "")
  }

  lemma NotFoundWellFormed()
    ensures WellFormed(NotFound())
  {
    HeadFree("Content-Length: 0", CRLF);
  }

  lemma NotFoundStatusLine()
    ensures StatusLineOf(NotFound()) == "HTTP/1.1 404 Not Found"
  {
    Show404();
  }

  lemma NotFoundRendered()
    ensures Render(NotFound()) == "HTTP/1.1 404 Not Found\r\n" + "Content-Length: 0\r\n\r\n"
  {
    var sl := StatusLineOf(NotFound());
    NotFoundStatusLine();
    JoinCons(sl, ["Content-Length: 0"], CRLF);
    assert [sl] + NotFound().fields == [sl] + ["Content-Length: 0"];
    assert Join(["Content-Length: 0"], CRLF) == "Content-Length: 0";
    assert HeaderBlock(NotFound()) == sl + CRLF + "Content-Length: 0";
    assert sl + CRLF == "HTTP/1.1 404 Not Found\r\n";
    assert "Content-Length: 0" + Separator + "" == "Content-Length: 0\r\n\r\n";
    assert Render(NotFound()) == (sl + CRLF) + ("Content-Length: 0" + Separator + "");
  }

  /** A 404 that arrives in two chunks: code 404, empty body. */
  lemma NotFoundInTwoChunks()
    ensures Exchange(Peer(true, true,
      [Bytes("HTTP/1.1 404 Not Found\r\n"), Bytes("Content-Length: 0\r\n\r\n")], true))
      == HTTPResponse(404, "")
  {
    NotFoundRendered();
    NotFoundWellFormed();
    TwoChunkExchange(NotFound(), "HTTP/1.1 404 Not Found\r\n", "Content-Length: 0\r\n\r\n");
    HeadFree("", Separator);
    SplitNone("", Separator);
  }

  /** Text after a second blank line is not part of the body: `A\r\n\r\nB` gives `A`. */
  lemma SecondSeparatorDropped()
    ensures Split("A\r\n\r\nB", Separator)[0] == "A"
  {
    HeadFree("A", CRLF);
    SepFirstAfterLine("A", "B");
    SplitConcat("A", Separator, "B");
    assert "A" + Separator + "B" == "A\r\n\r\nB";
  }

  /** A status line `v SP digits SP reason` with no CR anywhere: the code is kept and the body is empty. */
  lemma StatusLineOnly(data: string, v: string, digits: string, reason: string)
    requires ' ' !in v && 0 < |digits| <= MaxStrDigits && AllDigits(digits) && '\r' !in data
    requires data == v + " " + digits + " " + reason
    ensures Answer(data) == HTTPResponse(DigitsValue(digits), "")
  {
    HeadFree(data, CRLF);
    StatusLineIs(data, data);
    GetCodeOfDigits(data, v, digits, reason);
    HeadFree(data, Separator);
    AnswerNoSeparator(data);
  }

  lemma Digits204()
    ensures AllDigits("204") && DigitsValue("204") == 204
  {
    assert "204"[..2] == "20" && "20"[..1] == "2" && "2"[..0] == [];
  }

  /** `HTTP/1.1 204 No Content` and nothing more: code 204, empty body. */
  lemma NoContentExample()
    ensures Answer("HTTP/1.1 204 No Content") == HTTPResponse(204, "")
  {
    Digits204();
    StatusLineOnly("HTTP/1.1 204 No Content", "HTTP/1.1", "204", "No Content");
  }

  /** The status line `v SP token` followed by a blank line, where the token is not a number. */
  lemma BadToken(data: string, v: string, token: string)
    requires ' ' !in v && ' ' !in token && '\r' !in v + " " + token
    requires data == v + " " + token + Separator
    requires ParseInt(token).Failure?
    ensures Answer(data) == Sentinel
  {
    var line := v + " " + token;
    HeadFree(line, CRLF);
    CRLFFirstAfter(line, CRLF);
    assert data == line + CRLF + CRLF;
    StatusLineIs(data, line);
    assert line == v + " " + token + "";
    GetCodeOfStatusLine(data, v, token, "");
  }

  /** A status token that is not a number: `get_code` raises and `GET` answers 500 with an empty body. */
  lemma BadCodeExample()
    ensures Answer("HTTP/1.1 OK\r\n\r\n") == Sentinel
  {
    ParseRejectExamples();
    BadToken("HTTP/1.1 OK\r\n\r\n", "HTTP/1.1", "OK");
  }
}
