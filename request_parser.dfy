/** `RequestParser`: a second reader of raw requests that fills a `Request`
    through its setters. Unlike `Request::parse` it starts the request line
    from empty fields and also ends the header section at a lone `"\r"`
    line, so CRLF-framed requests (section 3 of RFC 7230) are read. */
module HttpRequestParser {
  import opened Wrappers
  import opened InputStream
  import opened StringUtils
  import opened HttpRequest
  import SortedMap

  /** The request `RequestParser::parse` leaves behind in `r`: the request
      line read into fields that are empty when their word is missing, the
      header lines added to the headers already present, and everything
      after the ending line as the body. */
  function ParsedBy(r: RequestValue, data: string): (p: RequestValue)
    requires SortedMap.Sorted(r.headers)
    ensures SortedMap.Sorted(p.headers)
  {
    var (line, rest) := FirstLine(data);
    var (m, u, v) := RequestLineFields(line, [], [], []);
    var (hs, b) := HeaderBlock(rest, true);
    RequestValue(m, u, v, AddHeaders(r.headers, hs), b)
  }

  /** `RequestParser::parseRequestLine`: the three fields are the first
      three words of the line, each empty when missing. */
  method ParseRequestLine(line: string, request: Request)
    modifies request`httpMethod, request`uri, request`version
    ensures (request.httpMethod, request.uri, request.version) == RequestLineFields(line, [], [], [])
  {
    var fields := RequestLineFields(line, [], [], []);
    request.SetMethod(fields.0);
    request.SetUri(fields.1);
    request.SetVersion(fields.2);
  }

  /** `RequestParser::parseHeaderLine`. */
  method ParseHeaderLine(line: string, request: Request)
    requires request.Valid()
    modifies request`headers
    ensures request.Valid()
    ensures request.headers ==
      match HeaderOf(line) case None => old(request.headers) case Some(f) => SortedMap.Put(old(request.headers), f.0, f.1)
  {
    var colon := IndexOf(line, ':');
    if colon.Some? {
      var key := line[..colon.value];
      var value := line[colon.value + 1..];
      EraseTrimIsTrim(key);
      EraseTrimIsTrim(value);
      key := EraseTrim(key);
      value := EraseTrim(value);
      request.SetHeader(key, value);
    }
  }

  /** The header loop of `RequestParser::parse`: header lines are read up
      to an empty line, a `"\r"` line or the end of input; what is left is
      returned. */
  method ReadHeaders(input: string, request: Request) returns (rest: string)
    requires request.Valid()
    modifies request`headers
    ensures request.Valid()
    ensures request.headers == AddHeaders(old(request.headers), HeaderBlock(input, true).0)
    ensures rest == HeaderBlock(input, true).1
  {
    rest := input;
    while rest != []
      invariant request.Valid()
      invariant AddHeaders(request.headers, HeaderBlock(rest, true).0) == AddHeaders(old(request.headers), HeaderBlock(input, true).0)
      invariant HeaderBlock(rest, true).1 == HeaderBlock(input, true).1
      decreases |rest|
    {
      var (line, after) := GetLine(rest, '\n');
      if line == [] || line == "\r" {
        rest := after;
        break;
      }
      AddHeadersStep(request.headers, line, HeaderBlock(after, true).0);
      ParseHeaderLine(line, request);
      rest := after;
    }
  }

  /** `RequestParser::parse`. */
  method Parse(data: string, request: Request)
    requires request.Valid()
    modifies request`httpMethod, request`uri, request`version, request`headers, request`body
    ensures request.Valid() && request.Value() == ParsedBy(old(request.Value()), data)
  {
    var lines := FirstLine(data);
    ParseRequestLine(lines.0, request);
    var rest := ReadHeaders(lines.1, request);
    request.SetBody(rest);
  }

  /** Each request-line field is the word at its position, or empty when
      the line has fewer words. */
  lemma MissingWordsEmpty(line: string)
    ensures var ws := Words(line);
      RequestLineFields(line, [], [], []) ==
        (if |ws| >= 1 then ws[0] else [],
         if |ws| >= 2 then ws[1] else [],
         if |ws| >= 3 then ws[2] else [])
  {
    RequestLineWords(line, [], [], []);
  }

  /** A CRLF-framed request (every line ended by `"\r\n"`, the header
      section by an empty line) is read back into its request line words,
      its header lines (each keeping its final `"\r"`, which the header
      trimming removes) and its body. */
  lemma ParsedByFramed(r: RequestValue, line: string, hs: seq<string>, body: string)
    requires SortedMap.Sorted(r.headers) && '\n' !in line
    requires forall i :: 0 <= i < |hs| ==> !EndsHeaders(hs[i], true) && '\n' !in hs[i]
    ensures ParsedBy(r, line + "\n" + Framed(hs, "\r\n" + body)) ==
      RequestValue(RequestLineFields(line, [], [], []).0, RequestLineFields(line, [], [], []).1,
                   RequestLineFields(line, [], [], []).2, AddHeaders(r.headers, hs), body)
  {
    var data := line + "\n" + Framed(hs, "\r\n" + body);
    assert data == line + ['\n'] + Framed(hs, "\r\n" + body);
    GetLineSplit(line, Framed(hs, "\r\n" + body), '\n');
    assert "\r" + "\n" + body == "\r\n" + body;
    HeaderBlockFramed(hs, "\r", body, true);
  }
}
