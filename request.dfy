/** `Request`: an HTTP request parsed from raw bytes into its request line
    (method, target, version; section 3.1.1 of RFC 7230), its header fields
    (section 3.2 of RFC 7230) and its body. */
module HttpRequest {
  import opened Wrappers
  import opened Text
  import opened InputStream
  import opened StringUtils
  import SortedMap

  /** The first `getline` over the request: the request line and what
      follows its newline. */
  function FirstLine(data: string): (r: (string, string))
    ensures '\n' !in r.0
    ensures '\n' in data ==> data == r.0 + "\n" + r.1
    ensures '\n' !in data ==> r == (data, [])
  {
    if data == [] then ([], []) else GetLine(data, '\n')
  }

  /** `iss >> method >> uri >> version`: each field takes the next word of
      the line; once an extraction fails, the remaining fields keep the
      values they had. */
  function RequestLineFields(line: string, httpMethod: string, uri: string, version: string): (r: (string, string, string))
    ensures r.0 == httpMethod || (r.0 != [] && forall j :: 0 <= j < |r.0| ==> !IsSpace(r.0[j]))
    ensures r.1 == uri || (r.1 != [] && forall j :: 0 <= j < |r.1| ==> !IsSpace(r.1[j]))
    ensures r.2 == version || (r.2 != [] && forall j :: 0 <= j < |r.2| ==> !IsSpace(r.2[j]))
  {
    var (s1, w1) := ReadWord(Open(line));
    var (s2, w2) := ReadWord(s1);
    var (_, w3) := ReadWord(s2);
    (w1.GetOr(httpMethod), w2.GetOr(uri), w3.GetOr(version))
  }

  /** The request line yields its first three whitespace-separated words;
      a field without a word keeps its earlier value. */
  lemma RequestLineWords(line: string, httpMethod: string, uri: string, version: string)
    ensures var ws := Words(line);
      RequestLineFields(line, httpMethod, uri, version) ==
        (if |ws| >= 1 then ws[0] else httpMethod,
         if |ws| >= 2 then ws[1] else uri,
         if |ws| >= 3 then ws[2] else version)
  {
    var (s1, w1) := ReadWord(Open(line));
    ReadWordStep(line);
    if !s1.failed {
      assert s1 == Open(s1.rest);
      ReadWordStep(s1.rest);
      var (s2, w2) := ReadWord(s1);
      if !s2.failed {
        assert s2 == Open(s2.rest);
        ReadWordStep(s2.rest);
      }
    }
  }

  /** The header field a line defines: split at its first colon, with
      name and value trimmed of `" \t\r\n"`; a line without a colon
      defines none. */
  function HeaderOf(line: string): (r: Option<(string, string)>)
    ensures r.None? <==> ':' !in line
  {
    match IndexOf(line, ':')
    case None => None
    case Some(i) => Some((Trim(line[..i]), Trim(line[i + 1..])))
  }

  /** Only the first colon separates: the value may itself hold colons. */
  lemma HeaderOfSplit(name: string, value: string)
    requires ':' !in name
    ensures HeaderOf(name + ":" + value) == Some((Trim(name), Trim(value)))
  {
    var line := name + ":" + value;
    assert line[|name|] == ':';
    forall j | 0 <= j < |name|
      ensures line[j] != ':'
    {
      assert line[j] == name[j];
    }
    assert line[..|name|] == name && line[|name| + 1..] == value;
  }

  /** The two `erase` calls that strip leading and then trailing
      whitespace from a header name or value. */
  function EraseTrim(s: string): string {
    var front := match FindFirstNotOf(s, WS) case None => [] case Some(i) => s[i..];
    match FindLastNotOf(front, WS)
    case None => []
    case Some(j) => front[..j + 1]
  }

  /** Erasing both ends in place is `StringUtils::trim`. */
  lemma EraseTrimIsTrim(s: string)
    ensures EraseTrim(s) == Trim(s)
  {
    match FindFirstNotOf(s, WS)
    case None =>
      assert FindLastNotOf([], WS).None?;
      TrimUnique(s, [], 0);
    case Some(i) =>
      var front := s[i..];
      assert front[0] == s[i];
      var j := FindLastNotOf(front, WS).value;
      var r := front[..j + 1];
      assert r == s[i..i + j + 1];
      forall k | i + j + 1 <= k < |s|
        ensures s[k] in WS
      {
        assert s[k] == front[k - i];
      }
      assert Padded(s, r, i);
      TrimUnique(s, r, i);
  }

  /** A line that ends the header section: an empty line, or also a lone
      `"\r"` when the reader recognises CRLF framing. */
  predicate EndsHeaders(line: string, crlf: bool)
    ensures EndsHeaders(line, crlf) ==> |line| <= 1 && (line == [] || crlf)
    ensures line == [] ==> EndsHeaders(line, crlf)
  {
    line == [] || (crlf && line == "\r")
  }

  /** The header lines a `getline` loop reads from `rest`, and the bytes
      left after it: the loop ends at end of input or after a line that
      ends the header section. */
  function HeaderBlock(rest: string, crlf: bool): (r: (seq<string>, string))
    decreases |rest|
    ensures |r.1| <= |rest|
  {
    if rest == [] then ([], [])
    else
      var (line, after) := GetLine(rest, '\n');
      if EndsHeaders(line, crlf) then ([], after)
      else
        var (hs, b) := HeaderBlock(after, crlf);
        ([line] + hs, b)
  }

  /** Lines each followed by a newline, then `rest`. */
  function Framed(ls: seq<string>, rest: string): string {
    if ls == [] then rest else ls[0] + "\n" + Framed(ls[1..], rest)
  }

  /** One header line followed by a newline is read as that line. */
  lemma HeaderBlockLine(line: string, after: string, crlf: bool)
    requires !EndsHeaders(line, crlf) && '\n' !in line
    ensures HeaderBlock(line + "\n" + after, crlf) == ([line] + HeaderBlock(after, crlf).0, HeaderBlock(after, crlf).1)
  {
    assert line + "\n" + after == line + ['\n'] + after;
    GetLineSplit(line, after, '\n');
  }

  /** The ending line stops the header section; what follows is the body. */
  lemma HeaderBlockEnd(blank: string, body: string, crlf: bool)
    requires EndsHeaders(blank, crlf)
    ensures HeaderBlock(blank + "\n" + body, crlf) == ([], body)
  {
    assert blank + "\n" + body == blank + ['\n'] + body;
    GetLineSplit(blank, body, '\n');
  }

  /** A framed header section and its ending line give back exactly those
      header lines, and everything after the ending line is the body,
      byte for byte. */
  lemma {:induction false} HeaderBlockFramed(hs: seq<string>, blank: string, body: string, crlf: bool)
    requires forall i :: 0 <= i < |hs| ==> !EndsHeaders(hs[i], crlf) && '\n' !in hs[i]
    requires EndsHeaders(blank, crlf)
    ensures HeaderBlock(Framed(hs, blank + "\n" + body), crlf) == (hs, body)
  {
    if hs == [] {
      HeaderBlockEnd(blank, body, crlf);
    } else {
      var rest := Framed(hs[1..], blank + "\n" + body);
      assert Framed(hs, blank + "\n" + body) == hs[0] + "\n" + rest;
      HeaderBlockLine(hs[0], rest, crlf);
      assert forall i :: 0 <= i < |hs[1..]| ==> hs[1..][i] == hs[i + 1];
      HeaderBlockFramed(hs[1..], blank, body, crlf);
      assert [hs[0]] + hs[1..] == hs;
    }
  }

  /** A `"\r"` line from CRLF framing does not end the header section of
      `Request::parse`, but does end that of `RequestParser::parse`. */
  lemma CarriageReturnLine(rest: string)
    ensures HeaderBlock("\r\n" + rest, false).0[..1] == ["\r"]
    ensures HeaderBlock("\r\n" + rest, true) == ([], rest)
  {
    assert "\r\n" + rest == "\r" + ['\n'] + rest;
    GetLineSplit("\r", rest, '\n');
  }

  /** The fields the header lines define, in order. */
  function Fields(ls: seq<string>): (fs: seq<(string, string)>)
    ensures |fs| <= |ls|
  {
    if ls == [] then []
    else (match HeaderOf(ls[0]) case None => [] case Some(f) => [f]) + Fields(ls[1..])
  }

  /** Every field comes from a line with a colon, and a line with a colon
      gives a field: lines without one are ignored. */
  lemma FieldsOfLines(ls: seq<string>)
    ensures forall f :: f in Fields(ls) <==> exists i :: 0 <= i < |ls| && HeaderOf(ls[i]) == Some(f)
  {
    forall f
      ensures f in Fields(ls) <==> exists i :: 0 <= i < |ls| && HeaderOf(ls[i]) == Some(f)
    {
      if f in Fields(ls) {
        var i := FieldsSound(ls, f);
      }
      if exists i :: 0 <= i < |ls| && HeaderOf(ls[i]) == Some(f) {
        var i :| 0 <= i < |ls| && HeaderOf(ls[i]) == Some(f);
        FieldsComplete(ls, i);
      }
    }
  }

  /** A field comes from a line with a colon; `i` is that line. */
  lemma {:induction false} FieldsSound(ls: seq<string>, f: (string, string)) returns (i: nat)
    requires f in Fields(ls)
    ensures i < |ls| && HeaderOf(ls[i]) == Some(f)
  {
    var head := match HeaderOf(ls[0]) case None => [] case Some(g) => [g];
    assert Fields(ls) == head + Fields(ls[1..]);
    if f in head {
      i := 0;
    } else {
      var j := FieldsSound(ls[1..], f);
      i := j + 1;
      assert ls[1..][j] == ls[i];
    }
  }

  /** A line with a colon gives its field. */
  lemma {:induction false} FieldsComplete(ls: seq<string>, i: nat)
    requires i < |ls| && HeaderOf(ls[i]).Some?
    ensures HeaderOf(ls[i]).value in Fields(ls)
  {
    var head := match HeaderOf(ls[0]) case None => [] case Some(g) => [g];
    assert Fields(ls) == head + Fields(ls[1..]);
    if i > 0 {
      assert ls[1..][i - 1] == ls[i];
      FieldsComplete(ls[1..], i - 1);
    }
  }

  /** The header map after a run of header lines: a repeated name keeps
      its last value. */
  function AddHeaders(h: SortedMap.Map<string>, ls: seq<string>): (r: SortedMap.Map<string>)
    requires SortedMap.Sorted(h)
    ensures SortedMap.Sorted(r)
  {
    SortedMap.PutAll(h, Fields(ls))
  }

  /** A header name ends with the value of the last line defining it. */
  lemma LastHeaderWins(h: SortedMap.Map<string>, ls: seq<string>, i: int)
    requires SortedMap.Sorted(h)
    requires 0 <= i < |Fields(ls)|
    requires forall j :: i < j < |Fields(ls)| ==> Fields(ls)[j].0 != Fields(ls)[i].0
    ensures SortedMap.Get(AddHeaders(h, ls), Fields(ls)[i].0) == Some(Fields(ls)[i].1)
  {
    SortedMap.PutAllLastWins(h, Fields(ls), i);
  }

  /** Names no header line defines keep their earlier value. */
  lemma UndefinedHeaderKept(h: SortedMap.Map<string>, ls: seq<string>, name: string)
    requires SortedMap.Sorted(h)
    requires forall j :: 0 <= j < |Fields(ls)| ==> Fields(ls)[j].0 != name
    ensures SortedMap.Get(AddHeaders(h, ls), name) == SortedMap.Get(h, name)
  {
    SortedMap.PutAllUnassigned(h, Fields(ls), name);
  }

  /** One header line more is one assignment more. */
  lemma AddHeadersStep(h: SortedMap.Map<string>, line: string, ls: seq<string>)
    requires SortedMap.Sorted(h)
    ensures AddHeaders(h, [line] + ls) ==
      match HeaderOf(line)
      case None => AddHeaders(h, ls)
      case Some(f) => AddHeaders(SortedMap.Put(h, f.0, f.1), ls)
  {
    assert ([line] + ls)[1..] == ls;
    var fs := Fields(ls);
    match HeaderOf(line)
    case None =>
      assert Fields([line] + ls) == [] + fs == fs;
    case Some(f) =>
      assert Fields([line] + ls) == [f] + fs;
      assert ([f] + fs)[1..] == fs;
  }

  /** The fields of a request, as a value. */
  datatype RequestValue = RequestValue(httpMethod: string, uri: string, version: string,
                                       headers: SortedMap.Map<string>, body: string)

  /** The request `Request::parse` leaves: the request line read into the
      three line fields, the header lines added to the headers already
      present, and the bytes after the header section as the body. */
  function Parsed(r: RequestValue, data: string): (p: RequestValue)
    requires SortedMap.Sorted(r.headers)
    ensures SortedMap.Sorted(p.headers)
  {
    var (line, rest) := FirstLine(data);
    var (m, u, v) := RequestLineFields(line, r.httpMethod, r.uri, r.version);
    var (hs, b) := HeaderBlock(rest, false);
    RequestValue(m, u, v, AddHeaders(r.headers, hs), b)
  }

  /** A request written as a request line, header lines each ended by a
      newline, an empty line and a body is read back into exactly those
      parts. */
  lemma ParsedFramed(r: RequestValue, line: string, hs: seq<string>, body: string)
    requires SortedMap.Sorted(r.headers) && '\n' !in line
    requires forall i :: 0 <= i < |hs| ==> !EndsHeaders(hs[i], false) && '\n' !in hs[i]
    ensures var (m, u, v) := RequestLineFields(line, r.httpMethod, r.uri, r.version);
      Parsed(r, line + "\n" + Framed(hs, "\n" + body)) == RequestValue(m, u, v, AddHeaders(r.headers, hs), body)
  {
    var data := line + "\n" + Framed(hs, "\n" + body);
    assert data == line + ['\n'] + Framed(hs, "\n" + body);
    GetLineSplit(line, Framed(hs, "\n" + body), '\n');
    assert [] + "\n" + body == "\n" + body;
    HeaderBlockFramed(hs, [], body, false);
  }

  class Request {
    var httpMethod: string
    var uri: string
    var version: string
    var headers: SortedMap.Map<string>
    var body: string

    ghost predicate Valid()
      reads this
    {
      SortedMap.Sorted(headers)
    }

    function Value(): RequestValue
      reads this
    {
      RequestValue(httpMethod, uri, version, headers, body)
    }

    /** A new request: every field empty. */
    constructor ()
      ensures Valid()
      ensures httpMethod == [] && uri == [] && version == [] && headers == [] && body == []
    {
      httpMethod, uri, version, headers, body := [], [], [], [], [];
    }

    /** `Request::parseRequestLine`. */
    method ParseRequestLine(line: string)
      modifies this`httpMethod, this`uri, this`version
      ensures (httpMethod, uri, version) == RequestLineFields(line, old(httpMethod), old(uri), old(version))
    {
      var fields := RequestLineFields(line, httpMethod, uri, version);
      httpMethod, uri, version := fields.0, fields.1, fields.2;
    }

    /** `Request::parseHeaderLine`. */
    method ParseHeaderLine(line: string)
      requires Valid()
      modifies this`headers
      ensures Valid()
      ensures headers == match HeaderOf(line) case None => old(headers) case Some(f) => SortedMap.Put(old(headers), f.0, f.1)
    {
      var colon := IndexOf(line, ':');
      if colon.Some? {
        var key := line[..colon.value];
        var value := line[colon.value + 1..];
        EraseTrimIsTrim(key);
        EraseTrimIsTrim(value);
        key := EraseTrim(key);
        value := EraseTrim(value);
        headers := SortedMap.Put(headers, key, value);
      }
    }

    /** The header loop of `Request::parse`: header lines are read up to
        an empty line or the end of input; what is left is returned. */
    method ReadHeaders(input: string) returns (rest: string)
      requires Valid()
      modifies this`headers
      ensures Valid()
      ensures headers == AddHeaders(old(headers), HeaderBlock(input, false).0)
      ensures rest == HeaderBlock(input, false).1
    {
      rest := input;
      while rest != []
        invariant Valid()
        invariant AddHeaders(headers, HeaderBlock(rest, false).0) == AddHeaders(old(headers), HeaderBlock(input, false).0)
        invariant HeaderBlock(rest, false).1 == HeaderBlock(input, false).1
        decreases |rest|
      {
        var (line, after) := GetLine(rest, '\n');
        if line == [] {
          rest := after;
          break;
        }
        AddHeadersStep(headers, line, HeaderBlock(after, false).0);
        ParseHeaderLine(line);
        rest := after;
      }
    }

    /** `Request::parse`: the request line, then header lines up to an
        empty line or the end of input, then the rest as the body. Headers
        are added to those already present. */
    method Parse(data: string)
      requires Valid()
      modifies this`httpMethod, this`uri, this`version, this`headers, this`body
      ensures Valid() && Value() == Parsed(old(Value()), data)
    {
      var lines := FirstLine(data);
      ParseRequestLine(lines.0);
      var rest := ReadHeaders(lines.1);
      body := rest;
    }

    method SetMethod(m: string)
      modifies this`httpMethod
      ensures httpMethod == m
    {
      httpMethod := m;
    }

    method SetUri(u: string)
      modifies this`uri
      ensures uri == u
    {
      uri := u;
    }

    method SetVersion(v: string)
      modifies this`version
      ensures version == v
    {
      version := v;
    }

    /** `Request::setHeader`: overwrites an existing name. */
    method SetHeader(key: string, value: string)
      requires Valid()
      modifies this`headers
      ensures Valid() && headers == SortedMap.Put(old(headers), key, value)
      ensures SortedMap.Get(headers, key) == Some(value)
      ensures forall k :: k != key ==> SortedMap.Get(headers, k) == SortedMap.Get(old(headers), k)
    {
      SortedMap.PutGet(headers, key, value);
      headers := SortedMap.Put(headers, key, value);
    }

    method SetBody(b: string)
      modifies this`body
      ensures body == b
    {
      body := b;
    }
  }
}
