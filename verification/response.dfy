/**
 * The response half of the client: `get_code`, `get_headers` and `get_body`
 * (httpclient.py), each a `str.split` followed by an index, plus a server's
 * rendering of a response message (section 4 of RFC 9112) as the reference
 * they are checked against.
 */
module Response {
  import opened Wrappers
  import opened Exceptions
  import opened Strings
  import opened Decimal

  /** The empty line that ends the header section: section 2.1 of RFC 9112. */
  const Separator: string := "\r\n\r\n"

  /** What the client hands back: a status code and a body. */
  datatype HTTPResponse = HTTPResponse(code: int, body: string)

  /** A line of a message: non-empty and free of CRLF. */
  ghost predicate IsLine(l: string) {
    l != [] && !Contains(l, CRLF)
  }

  /** `data.split("\r\n")[0]`: the status line. */
  function StatusLine(data: string): (line: string)
    ensures line <= data
  {
    SplitHead(data, CRLF);
    Split(data, CRLF)[0]
  }

  /** The status line is the text before the first CRLF, or all of it when there is none. */
  lemma StatusLineSpec(data: string)
    ensures IsFirstPiece(StatusLine(data), data, CRLF)
  {
    SplitHead(data, CRLF);
  }

  /**
   * `get_code`: the second space-separated field of the status line, read by
   * `int()`. IndexError when the status line has no space, ValueError when the
   * field is not an integer.
   */
  function GetCode(data: string): (r: Result<int, Exception>)
    ensures r == Failure(IndexError) <==> ' ' !in StatusLine(data)
    ensures r.Failure? ==> r.error == IndexError || r.error == ValueError
  {
    var line := StatusLine(data);
    var fields := Split(line, " ");
    SplitOnePiece(line, " ");
    CharContains(line, ' ');
    if |fields| < 2 then Failure(IndexError) else ParseInt(fields[1])
  }

  /** `get_headers`: `data.split("\r\n\r\n")[0]`. */
  function GetHeaders(data: string): (h: string)
    ensures h <= data
  {
    SplitHead(data, Separator);
    Split(data, Separator)[0]
  }

  /** The headers are the text before the first blank line, or all of it when there is none. */
  lemma GetHeadersSpec(data: string)
    ensures IsFirstPiece(GetHeaders(data), data, Separator)
  {
    SplitHead(data, Separator);
  }

  /**
   * `get_body`: element [1] of the split on the blank line, or IndexError
   * when the split has only one element.
   */
  function GetBody(data: string): (r: Result<string, Exception>)
    ensures r.Failure? ==> r.error == IndexError
  {
    var pieces := Split(data, Separator);
    if |pieces| < 2 then Failure(IndexError) else Success(pieces[1])
  }

  /**
   * The body is the text between the first and the second blank line (or to
   * the end when there is no second one); IndexError exactly when there is no
   * blank line at all.
   */
  lemma GetBodySpec(data: string)
    ensures GetBody(data).Failure? <==> !Contains(data, Separator)
    ensures GetBody(data).Success? ==> |GetHeaders(data)| + |Separator| <= |data|
    ensures GetBody(data).Success? ==>
      IsFirstPiece(GetBody(data).value, data[|GetHeaders(data)| + |Separator|..], Separator)
  {
    SplitOnePiece(data, Separator);
    if Contains(data, Separator) {
      SplitSecond(data, Separator);
    }
  }

  /** The status line is the first piece, whichever way that piece was found. */
  lemma StatusLineIs(data: string, line: string)
    requires IsFirstPiece(line, data, CRLF)
    ensures StatusLine(data) == line
  {
    StatusLineSpec(data);
    FirstPieceUnique(StatusLine(data), line, data, CRLF);
  }

  /**
   * The status line `v SP t rest`, where neither `v` nor `t` holds a space and
   * `rest` is empty or starts with one, gives `int(t)`.
   */
  lemma GetCodeOfStatusLine(data: string, v: string, t: string, rest: string)
    requires ' ' !in v && ' ' !in t && (rest == "" || rest[0] == ' ')
    requires StatusLine(data) == v + " " + t + rest
    ensures GetCode(data) == ParseInt(t)
  {
    var line := v + " " + t + rest;
    assert line == v + [' '] + (t + rest);
    SplitCharConcat(v, ' ', t + rest);
    if rest == "" {
      assert t + rest == t;
      SplitCharNone(t, ' ');
    } else {
      assert t + rest == t + [' '] + rest[1..];
      SplitCharConcat(t, ' ', rest[1..]);
    }
  }

  /** A status line without a space makes `get_code` raise IndexError. */
  lemma GetCodeNoSpace(data: string, line: string)
    requires ' ' !in line && IsFirstPiece(line, data, CRLF)
    ensures GetCode(data) == Failure(IndexError)
  {
    StatusLineSpec(data);
    FirstPieceUnique(StatusLine(data), line, data, CRLF);
  }

  /**
   * With the first blank line right after `h`, the headers are `h` and the
   * body is the first piece of what follows: text after a second blank line
   * is dropped.
   */
  lemma HeadersBodySplit(h: string, rest: string)
    requires FirstAt(h + Separator + rest, Separator, |h|)
    ensures GetHeaders(h + Separator + rest) == h
    ensures GetBody(h + Separator + rest) == Success(Split(rest, Separator)[0])
  {
    SplitConcat(h, Separator, rest);
  }

  /** Round trip: a header block and a body without a blank line come back apart. */
  lemma HeadersBodyRoundTrip(h: string, b: string)
    requires FirstAt(h + Separator + b, Separator, |h|) && !Contains(b, Separator)
    ensures GetHeaders(h + Separator + b) == h
    ensures GetBody(h + Separator + b) == Success(b)
  {
    HeadersBodySplit(h, b);
    SplitNone(b, Separator);
  }

  /** A blank line starts with a CRLF, and another follows two characters on. */
  lemma SeparatorCRLF(s: string, j: nat)
    ensures OccursAt(s, Separator, j) ==> OccursAt(s, CRLF, j) && OccursAt(s, CRLF, j + 2)
  {
    if j + 4 <= |s| {
      assert s[j..j + 2] == s[j..j + 4][..2];
      assert s[j + 2..j + 4] == s[j..j + 4][2..];
    }
  }

  /** Joining lines with CRLF puts the first line in front of a CR, or of nothing. */
  lemma JoinLinesHead(lines: seq<string>, tail: string)
    requires |lines| >= 1 && |tail| > 0 && tail[0] == '\r'
    ensures Join(lines, CRLF) + tail == lines[0] + (Join(lines, CRLF) + tail)[|lines[0]|..]
    ensures (Join(lines, CRLF) + tail)[|lines[0]|] == '\r'
  {
    if |lines| > 1 {
      assert Join(lines, CRLF) == lines[0] + CRLF + Join(lines[1..], CRLF);
    }
  }

  /** A blank line cannot start inside a line that is followed by a CR. */
  lemma SepNotInLine(l: string, t: string, j: nat)
    requires !Contains(l, CRLF) && |t| > 0 && t[0] == '\r' && j < |l|
    ensures !OccursAt(l + t, Separator, j)
  {
    LineThenCR(l, t);
    assert !OccursAt(l + t, CRLF, j);
    SeparatorCRLF(l + t, j);
  }

  /** Nor can it start at the CRLF that ends a line, when no CRLF comes next. */
  lemma SepNotAtEnd(l: string, t: string, j: nat)
    requires !OccursAt(t, CRLF, 0) && |l| <= j < |l| + 2
    ensures !OccursAt(l + CRLF + t, Separator, j)
  {
    var s := l + CRLF + t;
    if j == |l| {
      assert s == (l + CRLF) + t;
      OccursShift(l + CRLF, t, CRLF, 0);
      assert !OccursAt(s, CRLF, j + 2);
    } else {
      assert s[j] == '\n';
      assert j + 2 <= |s| ==> s[j..j + 2][0] == '\n';
      assert !OccursAt(s, CRLF, j);
    }
    SeparatorCRLF(s, j);
  }

  /** After a single line, the first blank line is the one that ends it. */
  lemma SepFirstAfterLine(l: string, b: string)
    requires !Contains(l, CRLF)
    ensures FirstAt(l + Separator + b, Separator, |l|)
  {
    var s := l + Separator + b;
    assert s[|l|..|l| + 4] == Separator;
    assert s == l + (Separator + b);
    forall j: nat | j < |l|
      ensures !OccursAt(s, Separator, j)
    {
      SepNotInLine(l, Separator + b, j);
    }
  }

  /** Putting a line and a CRLF in front moves the first blank line along, when a line followed. */
  lemma SepFirstStep(l: string, t: string, n: nat)
    requires !Contains(l, CRLF) && !OccursAt(t, CRLF, 0) && FirstAt(t, Separator, n)
    ensures FirstAt(l + CRLF + t, Separator, |l| + 2 + n)
  {
    var s := l + CRLF + t;
    assert s == (l + CRLF) + t;
    OccursShift(l + CRLF, t, Separator, n);
    forall j: nat | j < |l| + 2 + n
      ensures !OccursAt(s, Separator, j)
    {
      if j < |l| {
        assert s == l + (CRLF + t);
        SepNotInLine(l, CRLF + t, j);
      } else if j < |l| + 2 {
        SepNotAtEnd(l, t, j);
      } else {
        OccursShift(l + CRLF, t, Separator, j - |l| - 2);
      }
    }
  }

  /** Lines joined by CRLF and followed by a blank line do not start with a CRLF. */
  lemma JoinedNoLeadingCRLF(lines: seq<string>, b: string)
    requires |lines| >= 1 && IsLine(lines[0])
    ensures !OccursAt(Join(lines, CRLF) + Separator + b, CRLF, 0)
  {
    var s := Join(lines, CRLF) + Separator + b;
    var l := lines[0];
    JoinLinesHead(lines, Separator + b);
    assert s == Join(lines, CRLF) + (Separator + b);
    var t := s[|l|..];
    assert s == l + t;
    LineThenCR(l, t);
  }

  /**
   * In lines joined by CRLF and followed by a blank line, the first blank line
   * is the one right after the last line: a non-empty line never yields two
   * CRLFs in a row.
   */
  lemma {:induction false} SepFirstAfterLines(lines: seq<string>, b: string)
    requires |lines| >= 1 && forall k :: 0 <= k < |lines| ==> IsLine(lines[k])
    ensures FirstAt(Join(lines, CRLF) + Separator + b, Separator, |Join(lines, CRLF)|)
    decreases |lines|
  {
    var l := lines[0];
    assert IsLine(l);
    if |lines| == 1 {
      assert Join(lines, CRLF) == l;
      SepFirstAfterLine(l, b);
    } else {
      var rest := lines[1..];
      assert forall k :: 0 <= k < |rest| ==> IsLine(rest[k]) by {
        forall k | 0 <= k < |rest| ensures IsLine(rest[k]) {
          assert rest[k] == lines[k + 1];
        }
      }
      SepFirstAfterLines(rest, b);
      assert IsLine(rest[0]);
      JoinedNoLeadingCRLF(rest, b);
      var h' := Join(rest, CRLF);
      SepFirstStep(l, h' + Separator + b, |h'|);
      assert Join(lines, CRLF) == l + CRLF + h';
      assert Join(lines, CRLF) + Separator + b == l + CRLF + (h' + Separator + b);
    }
  }

  /** A response as a server writes it (section 4 of RFC 9112). */
  datatype Message = Message(version: string, status: nat, reason: string, fields: seq<string>, content: string)

  /** `HTTP-version SP status-code SP reason-phrase`. */
  function StatusLineOf(m: Message): string {
    m.version + " " + ShowNat(m.status) + " " + m.reason
  }

  /** The status line and the field lines, joined by CRLF. */
  function HeaderBlock(m: Message): string {
    Join([StatusLineOf(m)] + m.fields, CRLF)
  }

  /** The whole message on the wire: header block, blank line, content. */
  function Render(m: Message): string {
    HeaderBlock(m) + Separator + m.content
  }

  /**
   * A version without spaces and CRs, a three-digit status (section 4 of
   * RFC 9112), a reason without CRs, and well-formed field lines.
   */
  ghost predicate WellFormed(m: Message) {
    && ' ' !in m.version && '\r' !in m.version
    && 100 <= m.status <= 999
    && '\r' !in m.reason
    && forall k :: 0 <= k < |m.fields| ==> IsLine(m.fields[k])
  }

  /** A rendered status line has no CR at all, and so no CRLF. */
  lemma StatusLineIsLine(m: Message)
    requires '\r' !in m.version && '\r' !in m.reason
    ensures IsLine(StatusLineOf(m))
  {
    var digits := ShowNat(m.status);
    ShowNatValue(m.status);
    DigitsExclude(digits, '\r');
    var line := m.version + " " + digits + " " + m.reason;
    assert '\r' !in line;
    HeadFree(line, CRLF);
  }

  /** The status line of a rendered message ends at its first CRLF. */
  lemma RenderedStatusLine(m: Message)
    requires '\r' !in m.version && '\r' !in m.reason
    ensures IsFirstPiece(StatusLineOf(m), Render(m), CRLF)
  {
    var sl := StatusLineOf(m);
    var data := Render(m);
    StatusLineIsLine(m);
    var rest: string;
    if |m.fields| == 0 {
      assert [sl] + m.fields == [sl];
      rest := CRLF + m.content;
    } else {
      JoinCons(sl, m.fields, CRLF);
      rest := Join(m.fields, CRLF) + Separator + m.content;
    }
    assert data == sl + CRLF + rest;
    CRLFFirstAfter(sl, rest);
  }

  lemma SpaceJoinAssoc(v: string, t: string, r: string)
    ensures v + " " + t + " " + r == v + " " + t + (" " + r)
  {
  }

  /** A status line `v SP digits SP reason` gives the value of the digits. */
  lemma GetCodeOfDigits(data: string, v: string, digits: string, reason: string)
    requires ' ' !in v && 0 < |digits| <= MaxStrDigits && AllDigits(digits)
    requires StatusLine(data) == v + " " + digits + " " + reason
    ensures GetCode(data) == Success(DigitsValue(digits))
  {
    DigitsExclude(digits, ' ');
    SpaceJoinAssoc(v, digits, reason);
    GetCodeOfStatusLine(data, v, digits, " " + reason);
    ParseDigits(digits);
  }

  /** `get_code` of a rendered message is its status. */
  lemma RenderedCode(m: Message)
    requires ' ' !in m.version && '\r' !in m.version && '\r' !in m.reason && m.status < 1000
    ensures GetCode(Render(m)) == Success(m.status)
  {
    ShowNatValue(m.status);
    ShowNatShort(m.status);
    RenderedStatusLine(m);
    StatusLineIs(Render(m), StatusLineOf(m));
    GetCodeOfDigits(Render(m), m.version, ShowNat(m.status), m.reason);
  }

  /** The header block of a rendered message holds no blank line. */
  lemma RenderedBlankLine(m: Message)
    requires WellFormed(m)
    ensures FirstAt(Render(m), Separator, |HeaderBlock(m)|)
  {
    var lines := [StatusLineOf(m)] + m.fields;
    StatusLineIsLine(m);
    assert forall k :: 0 <= k < |lines| ==> IsLine(lines[k]) by {
      forall k | 0 <= k < |lines| ensures IsLine(lines[k]) {
        if k > 0 {
          assert lines[k] == m.fields[k - 1];
        }
      }
    }
    SepFirstAfterLines(lines, m.content);
  }

  /**
   * Parsing what a server rendered: the code is the status, the headers are
   * the header block, and the body is the content up to its own first blank
   * line (all of it when it has none).
   */
  lemma ParseRendered(m: Message)
    requires WellFormed(m)
    ensures GetCode(Render(m)) == Success(m.status)
    ensures GetHeaders(Render(m)) == HeaderBlock(m)
    ensures GetBody(Render(m)) == Success(Split(m.content, Separator)[0])
  {
    RenderedCode(m);
    RenderedBlankLine(m);
    HeadersBodySplit(HeaderBlock(m), m.content);
  }
}
