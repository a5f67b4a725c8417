/** `Response`: a status code, a header map and a body, serialised by
    `generate` as a status line, one line per header field and the body
    (section 3 of RFC 7230). The reason phrase is always `OK`. */
module HttpResponse {
  import opened Wrappers
  import opened Text
  import SortedMap

  /** The status line `generate` writes. */
  function StatusLine(status: int): (r: string)
    ensures "HTTP/1.1 " <= r && |r| >= 14 && r[|r| - 5..] == " OK\r\n"
  {
    "HTTP/1.1 " + IntToString(status) + " OK\r\n"
  }

  /** The line `generate` writes for one header field. */
  function HeaderLine(name: string, value: string): (r: string)
    ensures name <= r && |r| == |name| + |value| + 4 && r[|r| - 2..] == "\r\n"
  {
    name + ": " + value + "\r\n"
  }

  /** The header lines of the entries of `h`, in map order, then `rest`. */
  function HeaderSection(h: SortedMap.Map<string>, rest: string): (r: string)
    ensures |r| >= |rest| + 4 * |h|
    ensures h == [] ==> r == rest
  {
    if h == [] then rest else HeaderLine(h[0].0, h[0].1) + HeaderSection(h[1..], rest)
  }

  /** The text `generate` returns. */
  function Generated(status: int, headers: SortedMap.Map<string>, body: string): (r: string)
    ensures StatusLine(status) <= r
    ensures |r| >= |StatusLine(status)| + 4 * |headers| + 2 + |body|
  {
    StatusLine(status) + HeaderSection(headers, "\r\n" + body)
  }

  /** The fields of a response, as a value. */
  datatype ResponseValue = ResponseValue(status: int, headers: SortedMap.Map<string>, body: string)

  class Response {
    var status: int
    var headers: SortedMap.Map<string>
    var body: string

    ghost predicate Valid()
      reads this
    {
      SortedMap.Sorted(headers)
    }

    function Value(): ResponseValue
      reads this
    {
      ResponseValue(status, headers, body)
    }

    /** A new response: status 200, no header, an empty body. */
    constructor ()
      ensures Valid() && Value() == ResponseValue(200, [], [])
    {
      status, headers, body := 200, [], [];
    }

    method SetStatus(s: int)
      modifies this`status
      ensures status == s
    {
      status := s;
    }

    /** `Response::setHeader`: overwrites an existing name. */
    method SetHeader(key: string, value: string)
      requires Valid()
      modifies this`headers
      ensures Valid() && headers == SortedMap.Put(old(headers), key, value)
      ensures SortedMap.Get(headers, key) == Some(value)
      ensures forall k :: k != key ==> SortedMap.Get(headers, k) == SortedMap.Get(old(headers), k)
    {
      SortedMap.PutGet(headers, key, value);
      headers := SortedMap.Put(headers, key, value);
    }

    method SetBody(b: string)
      modifies this`body
      ensures body == b
    {
      body := b;
    }

    /** `Response::generate`: reads the response and changes nothing. */
    method Generate() returns (out: string)
      ensures out == Generated(status, headers, body)
    {
      var tail: string := "\r\n" + body;
      out := StatusLine(status);
      var i := 0;
      while i < |headers|
        invariant 0 <= i <= |headers|
        invariant out + HeaderSection(headers[i..], tail) == Generated(status, headers, body)
      {
        assert headers[i..][0] == headers[i] && headers[i..][1..] == headers[i + 1..];
        AppendAssoc(out, HeaderLine(headers[i].0, headers[i].1), HeaderSection(headers[i + 1..], tail));
        out := out + HeaderLine(headers[i].0, headers[i].1);
        i := i + 1;
      }
      AppendAssoc(out, "\r\n", body);
      out := out + "\r\n" + body;
    }
  }

  lemma AppendAssoc(a: string, b: string, c: string)
    ensures a + (b + c) == a + b + c
  {
  }

  /** The header section holds the header lines and nothing else: `rest`
      follows them directly. */
  lemma {:induction false} HeaderSectionSplit(h: SortedMap.Map<string>, rest: string)
    ensures HeaderSection(h, rest) == HeaderSection(h, []) + rest
  {
    if h != [] {
      HeaderSectionSplit(h[1..], rest);
      AppendAssoc(HeaderLine(h[0].0, h[0].1), HeaderSection(h[1..], []), rest);
    }
  }

  /** The serialised response is the status line, the header lines, one
      empty line and the body verbatim; no header field is added. */
  lemma GeneratedLayout(status: int, headers: SortedMap.Map<string>, body: string)
    ensures Generated(status, headers, body) == StatusLine(status) + HeaderSection(headers, []) + "\r\n" + body
  {
    HeaderSectionSplit(headers, "\r\n" + body);
  }

  /** The header lines of two runs of entries follow each other. */
  lemma {:induction false} HeaderSectionAppend(a: SortedMap.Map<string>, b: SortedMap.Map<string>, rest: string)
    ensures HeaderSection(a + b, rest) == HeaderSection(a, []) + HeaderSection(b, rest)
  {
    if a == [] {
      assert a + b == b;
    } else {
      assert (a + b)[0] == a[0] && (a + b)[1..] == a[1..] + b;
      HeaderSectionAppend(a[1..], b, rest);
      AppendAssoc(HeaderLine(a[0].0, a[0].1), HeaderSection(a[1..], []), HeaderSection(b, rest));
    }
  }

  /** Header `i` is written at its place in map order: after the lines of
      the entries before it and before those of the entries after it. */
  lemma HeaderSectionAt(h: SortedMap.Map<string>, i: int, rest: string)
    requires 0 <= i < |h|
    ensures HeaderSection(h, rest) ==
      HeaderSection(h[..i], []) + HeaderLine(h[i].0, h[i].1) + HeaderSection(h[i + 1..], rest)
  {
    assert h == h[..i] + h[i..];
    HeaderSectionAppend(h[..i], h[i..], rest);
    assert h[i..][0] == h[i] && h[i..][1..] == h[i + 1..];
    AppendAssoc(HeaderSection(h[..i], []), HeaderLine(h[i].0, h[i].1), HeaderSection(h[i + 1..], rest));
  }
}
