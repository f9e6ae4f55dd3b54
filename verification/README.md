# A verified model of a minimal HTTP/1.1 client

`httpclient.py` is a small HTTP client built on raw sockets. `HTTPClient.GET`
writes a fixed `GET` request to the host and port taken from a URL. It reads
until the server closes the connection, then takes the status code and the
body apart with `str.split`. A failure inside its try block before the code
is read gives the answer `500` with an empty body; a `get_body` failure after
it keeps the code with an empty body. `POST` is a stub that always answers 500.
`command` chooses between the two.

The model is in Dafny, one module per concern:

- `Strings` models Python's `str.split` for a non-empty separator: cut at the leftmost occurrence, and so on, with no overlap. It also defines its inverse `Join` and the occurrence predicates the proofs use.
- `Decimal` models `int()` on ASCII text: strip whitespace, take an optional sign, then at most 4300 digits. Its partner is `str()` (`ShowNat`, `ShowInt`).
- `Response` holds `get_code`, `get_headers` and `get_body`. The reference they are checked against is `Render`, a server's rendering of a response message (section 4 of RFC 9112).
- `Request` is the request text `GET` writes, lines 82-85.
- `Target` is the defaulting of the parsed URL's path and port, lines 75-77.
- `Transport` models the network as the client sees it:
  - a `Peer` scripts what each `recv` returns;
  - `Drain` is the pure meaning of reading until the peer closes;
  - a `Socket` class holds a state, a peer, the bytes sent, the number of replies read and the number of closes.
- `Client` holds the `HTTPClient` class:
  - `connect`, `sendall` and `close` over its `socket` field;
  - `recvall`, an imperative loop proved against `Drain`;
  - `GET` as a method proved equal to the pure `GetResult`;
  - `POST` and `command`.
- `Scenarios` works through concrete responses: a 404 in two chunks, a second blank line, a status line alone, and a status token that is not a number.

`get_body` takes element `[1]` of the split on the blank line. That is the
text between the first and the second blank line, not everything after the
first one, as the comment on line 50 says. The model follows the code. The
author's own comment on line 51 (`should this be [-1]?`) shows the choice was
open, so the model does not treat it as a bug.

## Model

| member | source | states |
|---|---|---|
| Strings.Split | httpclient.py:45 | `str.split` with a non-empty separator always yields at least one piece, so `[0]` never raises |
| Strings.FindSpec | httpclient.py:45 | the search used by `str.split` finds the leftmost occurrence of the separator, and fails exactly when there is none |
| Strings.SplitJoin | httpclient.py:45 | splitting on a separator and joining with it gives the text back: the split loses nothing |
| Strings.SplitPiecesFree | httpclient.py:48 | no piece of a split contains the separator |
| Strings.SplitOnePiece | httpclient.py:51 | a split has exactly one piece precisely when the separator does not occur, so index `[1]` fails exactly then |
| Strings.SplitHead | httpclient.py:48 | piece `[0]` is the text before the leftmost separator, or all of it when there is none |
| Strings.SplitSecond | httpclient.py:51 | piece `[1]` is the text after the leftmost separator up to the next one, or to the end |
| Strings.SplitAtFirst | httpclient.py:45 | cutting at the leftmost separator is one step of the split |
| Decimal.ParseInt | httpclient.py:45 | `int()` fails only with ValueError |
| Decimal.ParseShowInt | httpclient.py:45 | `int(str(n)) == n` for every integer that `str()` writes (at most 4300 digits), negative ones included |
| Decimal.ParseDigits | httpclient.py:45 | a run of 1 to 4300 ASCII digits reads as its decimal value |
| Decimal.ParseTooLong | httpclient.py:45 | text whose stripped form is longer than a sign and 4300 digits raises ValueError |
| Decimal.ParseDigitsTooLong | httpclient.py:45 | more than 4300 digits, unsigned or with a `-` or `+` sign, raise ValueError (the default `int_max_str_digits` limit) |
| Decimal.ParseStatusExample | httpclient.py:45 | `int("200") == 200`, the usual status token |
| Decimal.ParseSignExample | httpclient.py:45 | a sign is read: `int("-1") == -1` |
| Decimal.LeadingZero | httpclient.py:45 | a leading zero keeps the text a run of digits and keeps its value |
| Decimal.ParseSpaceExample | httpclient.py:45 | whitespace around the number is ignored: `int(" 7\t") == 7` |
| Decimal.ParseRejectExamples | httpclient.py:45 | `int("OK")`, `int("")`, `int("+")` and `int("\x1c7")` raise ValueError; FS..US are not whitespace to `int()` |
| Response.StatusLine | httpclient.py:45 | `data.split("\r\n")[0]` is a prefix of the response |
| Response.StatusLineSpec | httpclient.py:45 | the status line is the text before the first CRLF, or all of it |
| Response.GetCode | httpclient.py:44-45 | `get_code` raises IndexError exactly when the status line has no space; every other failure is ValueError |
| Response.GetCodeOfStatusLine | httpclient.py:44-45 | for a status line `v SP t rest`, where `v` and `t` hold no space and `rest` is empty or starts with a space, `get_code` is `int(t)`, the token between the first and second space |
| Response.GetCodeNoSpace | httpclient.py:44-45 | a status line without a space makes `get_code` raise IndexError |
| Response.GetHeaders | httpclient.py:47-48 | `get_headers` never raises and is a prefix of the response |
| Response.GetHeadersSpec | httpclient.py:47-48 | `get_headers` is the text before the first blank line, or the whole input when there is none |
| Response.GetBody | httpclient.py:50-51 | `get_body` fails only with IndexError |
| Response.GetBodySpec | httpclient.py:50-51 | `get_body` fails exactly when no blank line occurs; otherwise it is the text after the first blank line up to the second one, or to the end |
| Response.HeadersBodySplit | httpclient.py:47-51 | with the first blank line right after `h`, the headers are `h` and the body is the first piece of what follows, so text after a second blank line is dropped |
| Response.HeadersBodyRoundTrip | httpclient.py:47-51 | round trip: when the first blank line in `h + "\r\n\r\n" + b` is right after `h` and `b` holds none, the headers are `h` and the body is `b` |
| Response.SepFirstAfterLines | httpclient.py:47-51 | in non-empty CRLF-free lines joined by CRLF and followed by a blank line, the first blank line is the one after the last line |
| Response.RenderedCode | httpclient.py:44-45 | `get_code` of a rendered response with a status below 1000 is its status |
| Response.ParseRendered | httpclient.py:44-51 | parsing what a server rendered gives its status, its header block, and its content up to the content's own first blank line |
| Request.BuildGet | httpclient.py:82-85 | the request starts with `GET ` and ends with the blank line `\r\n\r\n` |
| Request.BuildGetJoined | httpclient.py:82-85 | the request is its four lines joined by CRLF, followed by a blank line |
| Request.BuildGetLines | httpclient.py:82-85 | with no CRLF in host or path, the request split on CRLF is the request line, `Host: host`, `Accept: */*`, `Connection: close` and two empty pieces |
| Request.RequestLineFields | httpclient.py:82 | with no space in the path, the request line's fields are `GET`, the path and `HTTP/1.1` |
| Request.BuildGetFraming | httpclient.py:82-85 | read back with the same framing, the request's header section is its four lines and its body is empty |
| Target.DefaultPath | httpclient.py:76 | the path is never empty, and a non-empty parsed path is kept |
| Target.DefaultPort | httpclient.py:77 | the port is never 0, and a given non-zero port is kept |
| Target.Resolve | httpclient.py:75-77 | the host name passes through unchanged; the path is non-empty and the port non-zero |
| Target.ResolvedRoot | httpclient.py:76 | the path is `/` exactly when the parsed path is empty or `/` |
| Target.ResolvedDefaultPort | httpclient.py:77 | the port is 80 exactly when it is absent, 0 or 80 |
| Target.ResolveIdempotent | httpclient.py:75-77 | resolving a resolved target changes nothing |
| Transport.NextChunk | httpclient.py:64 | one `recv` fails exactly at a reset, with RecvError, and is empty once the peer has closed |
| Transport.Drain | httpclient.py:60-68 | reading until the close fails only with RecvError |
| Transport.DrainData | httpclient.py:60-68 | data chunks followed by the close collect exactly their bytes in order; what follows the close is never read |
| Transport.ReadsUntilClose | httpclient.py:63-68 | reading takes exactly the data chunks and the first empty one: no reply after it is read |
| Transport.DrainReset | httpclient.py:64 | a reset after any data makes the whole read fail |
| Transport.Decoded | httpclient.py:69 | decoding succeeds exactly when the read succeeded and the bytes are valid, and then changes nothing |
| Transport.Socket.constructor | httpclient.py:40 | a new socket is unconnected, has sent nothing, read nothing and was never closed |
| Transport.Socket.Connect | httpclient.py:41 | connecting fails with TypeError without a host name and with ConnectError where nobody listens; otherwise the socket is connected to that peer |
| Transport.Socket.SendAll | httpclient.py:54 | the data is appended to what was sent, or SendError leaves it unchanged |
| Transport.Socket.Recv | httpclient.py:64 | `recv` returns the next reply and moves past it |
| Transport.Socket.Close | httpclient.py:57 | closing marks the socket closed and counts the call |
| Client.HTTPClient.constructor | httpclient.py:36 | a new client has no socket yet (`self.socket` is unset until `connect`) |
| Client.HTTPClient.Connect | httpclient.py:39-42 | `connect` stores a fresh socket in the field and connects it; an error leaves the socket unconnected and propagates |
| Client.HTTPClient.SendAll | httpclient.py:53-54 | `sendall` raises AttributeError before `connect`; otherwise it is the socket's `sendall` |
| Client.HTTPClient.Close | httpclient.py:56-57 | `close` raises AttributeError before `connect`; otherwise it is the socket's `close` |
| Client.HTTPClient.RecvAll | httpclient.py:60-69 | the loop returns `Drain` of the pending replies, decoded. It reads exactly the replies `Drain` uses. A failing `recv` propagates. The buffer only grows and stays a prefix of the result (loop invariant) |
| Client.Received | httpclient.py:60-69 | what `recvall` yields on a fresh connection: it succeeds exactly when reading to the close succeeds and the bytes decode, and fails only with RecvError or DecodeError |
| Client.Answer | httpclient.py:89-100 | a `get_code` failure gives `(500, "")`; otherwise the code is kept and the body is `get_body`'s, or `""` when it fails |
| Client.Exchange | httpclient.py:89-106 | a send failure or a receive failure gives `(500, "")`; otherwise the answer is `Answer` of what was received |
| Client.GetResult | httpclient.py:71-108 | for the hostname, path and port `urlparse` returned, `GET` raises only when there is no host name or nobody listens, and then only TypeError or ConnectError |
| Client.HTTPClient.Get | httpclient.py:71-108 | `GET` returns `GetResult`. The socket is closed exactly once whenever `GET` returns, and never when connect raised. What was sent is the request, when the peer took it |
| Client.ExchangeRendered | httpclient.py:89-108 | a server's well-formed response, in any number of chunks, gives its status and its content up to the first blank line |
| Client.GetRendered | httpclient.py:71-108 | the same for `GET` on a URL whose host and port reach such a server |
| Client.ExchangeReset | httpclient.py:92-102 | a reset while reading gives `(500, "")` |
| Client.ExchangeUndecodable | httpclient.py:95-102 | a response that is not valid UTF-8 gives `(500, "")` |
| Client.AnswerNoSeparator | httpclient.py:99-102 | a readable code with no blank line gives `(code, "")`, because `code` is assigned before `get_body` raises |
| Client.GetEscapes | httpclient.py:79-108 | for the hostname, path and port `urlparse` returned, the only exceptions that escape `GET` come from `connect`; any answer other than `(500, "")` carries a code `get_code` read |
| Client.Post | httpclient.py:110-113 | `POST` answers 500 with an empty body whatever it is given |
| Client.HTTPClient.Command | httpclient.py:115-119 | `command` calls `POST` exactly when the command is `"POST"` (case-sensitive) and `GET` otherwise, with `"GET"` as the default. In the `GET` branch it keeps all of `GET`'s promises about the socket: closed exactly once when `GET` returns, never when connect raised, and the request sent |
| Scenarios.NotFoundInTwoChunks | httpclient.py:60-108 | a 404 response that arrives in two chunks gives `(404, "")` |
| Scenarios.SecondSeparatorDropped | httpclient.py:51 | content `A\r\n\r\nB` gives the body `A` |
| Scenarios.NoContentExample | httpclient.py:99-102 | `HTTP/1.1 204 No Content` alone gives `(204, "")` |
| Scenarios.BadCodeExample | httpclient.py:99-102 | `HTTP/1.1 OK\r\n\r\n` gives `(500, "")` |

## Left out

- Operating-system sockets are replaced by a scripted `Peer`, so timeouts, a peer that never closes, and concurrency are not modelled. `recv`'s 1024-byte bound is not modelled either: a chunk stands for whatever one `recv` returned, and the collected text does not depend on how it was cut.
- `sendall` is all-or-nothing: a send that fails part-way is modelled as sending nothing.
- `urllib.parse.urlparse` is a library parser and is not re-implemented. `UrlParts` takes its `hostname`, `path` and `port` as given, including its check that a port is in range. The query string and fragment are not sent, because line 82 writes only the path, and the model does the same.
- Client.GetResult: the ValueErrors that `urlparse` (line 73, a malformed bracketed host) and `parsed_url.port` (line 77, a port that is not a number or is out of range) raise before `connect` and outside the try also escape `GET`; they are not modelled, since `UrlParts` starts from urlparse's successful outputs. An exception from `print(request)` on line 87 (for instance UnicodeEncodeError for a non-ASCII path on an ASCII-only console) also escapes `GET`: it comes after `connect` and before the try, so `close` never runs and the connected socket stays open. That path is not modelled either; the model's `GET` promises a close on every return, which the source keeps only when that print succeeds.
- The `Host` field carries the host name without a non-default port (line 83), although section 7.2 of RFC 9110 asks for it. The model writes what the code writes.
- UTF-8 `encode` and `decode` (lines 54 and 69) are library codecs. Text is `seq<char>` and is sent as is. A decode failure is a flag on the peer, checked after the loop, where the code decodes.
- Decimal.ParseInt: it accepts ASCII whitespace (TAB, LF, VT, FF, CR, SPACE), an optional `+` or `-` and 1 to 4300 ASCII digits. It rejects underscores between digits and non-ASCII digits and spaces, which Python accepts. The 4300-digit limit is Python's default since 3.11 and its security releases. It can be changed at run time (`sys.set_int_max_str_digits`, `PYTHONINTMAXSTRDIGITS`), and older Pythons have no limit; the model fixes it at the default.
- `print`, `help` and the command-line entry point (lines 28-29, 87, 96, 102, 121-130) are console input and output.
- The `args` parameters of `GET`, `POST` and `command` are never read, so the model does not take them. `POST` sends nothing: the code does not implement form encoding or a request body.
- The bare `except:` on line 101 also catches interrupts such as KeyboardInterrupt. Only the failures the model produces inside the try are represented: SendError, RecvError, DecodeError, IndexError and ValueError.
- `socket.close()` raising is not modelled; closing always succeeds.
- The default arguments of `HTTPResponse.__init__` (`code=200, body=""`, line 32) are not modelled: no call in the file relies on them, since `GET` and `POST` always pass both.
