/**
 * The request `GET` writes (httpclient.py lines 82-85): a request line, a
 * Host field, an Accept field, a Connection field and the empty line that
 * ends the header section (section 3 of RFC 9112).
 */
module Request {
  import opened Wrappers
  import opened Strings
  import opened Response

  /** `GET SP path SP HTTP/1.1`. */
  function RequestLine(path: string): string {
    "GET " + path + " HTTP/1.1"
  }

  /** The field lines, in the order they are written. */
  function FieldLines(host: string): seq<string> {
    ["Host: " + host, "Accept: */*", "Connection: close"]
  }

  /** The text `GET` sends for `path` on `host`. */
  function BuildGet(host: string, path: string): (r: string)
    ensures |r| >= |Separator| && r[|r| - |Separator|..] == Separator
    ensures r[..4] == "GET "
  {
    "GET " + path + " HTTP/1.1\r\n"
    + "Host: " + host + "\r\n"
    + "Accept: */*\r\n"
    + "Connection: close\r\n\r\n"
  }

  /** The request is its lines, each ended by CRLF, and one more CRLF. */
  lemma BuildGetJoined(host: string, path: string)
    ensures BuildGet(host, path)
      == Join([RequestLine(path)] + FieldLines(host), CRLF) + Separator
  {
    var l0 := RequestLine(path);
    var l1 := "Host: " + host;
    JoinCons("Accept: */*", ["Connection: close"], CRLF);
    JoinCons(l1, ["Accept: */*", "Connection: close"], CRLF);
    JoinCons(l0, FieldLines(host), CRLF);
    assert [l1] + ["Accept: */*", "Connection: close"] == FieldLines(host);
  }

  /** Text whose characters include no CR has no CRLF. */
  lemma NoCR(s: string)
    requires '\r' !in s
    ensures !Contains(s, CRLF)
  {
    HeadFree(s, CRLF);
  }

  /** The request line is a line when the path holds no CRLF. */
  lemma RequestLineIsLine(path: string)
    requires !Contains(path, CRLF)
    ensures IsLine(RequestLine(path))
  {
    NoCR("GET ");
    NoCR(" HTTP/1.1");
    NoCRLFConcat("GET ", path);
    NoCRLFConcat("GET " + path, " HTTP/1.1");
  }

  /** The Host line is a line when the host holds no CRLF. */
  lemma HostLineIsLine(host: string)
    requires !Contains(host, CRLF)
    ensures IsLine("Host: " + host)
  {
    NoCR("Host: ");
    NoCRLFConcat("Host: ", host);
  }

  /** Every line of the request is a line, under the same condition on host and path. */
  lemma RequestLinesAreLines(host: string, path: string)
    requires !Contains(host, CRLF) && !Contains(path, CRLF)
    ensures forall k :: 0 <= k < 4 ==> IsLine(([RequestLine(path)] + FieldLines(host))[k])
  {
    RequestLineIsLine(path);
    HostLineIsLine(host);
    NoCR("Accept: */*");
    NoCR("Connection: close");
  }

  /** The constant end of the request, split on CRLF. */
  lemma TailLines()
    ensures Split("Accept: */*" + CRLF + ("Connection: close" + CRLF + ("" + CRLF + "")), CRLF)
      == ["Accept: */*", "Connection: close", "", ""]
  {
    NoCR("Accept: */*");
    NoCR("Connection: close");
    NoCR("");
    SplitLine("Accept: */*", "Connection: close" + CRLF + ("" + CRLF + ""));
    SplitLine("Connection: close", "" + CRLF + "");
    SplitLine("", "");
    SplitNone("", CRLF);
  }

  /** The request after its request line, split on CRLF. */
  lemma HostAndTailLines(host: string)
    requires !Contains(host, CRLF)
    ensures Split("Host: " + host + CRLF
        + ("Accept: */*" + CRLF + ("Connection: close" + CRLF + ("" + CRLF + ""))), CRLF)
      == ["Host: " + host, "Accept: */*", "Connection: close", "", ""]
  {
    HostLineIsLine(host);
    TailLines();
    SplitLine("Host: " + host, "Accept: */*" + CRLF + ("Connection: close" + CRLF + ("" + CRLF + "")));
  }

  /**
   * Split on CRLF, the request gives back its four lines and two empty
   * pieces: the blank line ends the header section and nothing follows it.
   */
  lemma BuildGetLines(host: string, path: string)
    requires !Contains(host, CRLF) && !Contains(path, CRLF)
    ensures Split(BuildGet(host, path), CRLF)
      == [RequestLine(path), "Host: " + host, "Accept: */*", "Connection: close", "", ""]
  {
    var l0 := RequestLine(path);
    var t1 := "Host: " + host + CRLF
      + ("Accept: */*" + CRLF + ("Connection: close" + CRLF + ("" + CRLF + "")));
    RequestLineIsLine(path);
    assert BuildGet(host, path) == l0 + CRLF + t1;
    HostAndTailLines(host);
    SplitLine(l0, t1);
  }

  /** The request line read as `str.split(" ")` gives method, path and version, when the path has no space. */
  lemma RequestLineFields(path: string)
    requires ' ' !in path
    ensures Split(RequestLine(path), " ") == ["GET", path, "HTTP/1.1"]
  {
    assert RequestLine(path) == "GET" + [' '] + (path + [' '] + "HTTP/1.1");
    SplitCharConcat("GET", ' ', path + [' '] + "HTTP/1.1");
    SplitCharConcat(path, ' ', "HTTP/1.1");
    SplitCharNone("HTTP/1.1", ' ');
  }

  /**
   * Read back with the client's own framing, the request's header section is
   * its four lines and its body is empty.
   */
  lemma BuildGetFraming(host: string, path: string)
    requires !Contains(host, CRLF) && !Contains(path, CRLF)
    ensures GetHeaders(BuildGet(host, path)) == Join([RequestLine(path)] + FieldLines(host), CRLF)
    ensures GetBody(BuildGet(host, path)) == Success("")
  {
    var lines := [RequestLine(path)] + FieldLines(host);
    var h := Join(lines, CRLF);
    BuildGetJoined(host, path);
    RequestLinesAreLines(host, path);
    SepFirstAfterLines(lines, "");
    assert h + Separator + "" == BuildGet(host, path);
    HeadersBodySplit(h, "");
    SplitNone("", Separator);
  }
}
