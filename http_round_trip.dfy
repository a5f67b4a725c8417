/** A response written by `Response::generate` and read back by the
    `RequestParser` reader: the status line comes back as the first line,
    every header field as one header line, and the body verbatim. */
module HttpRoundTrip {
  import opened Wrappers
  import opened Text
  import opened InputStream
  import opened StringUtils
  import opened HttpRequest
  import opened HttpRequestParser
  import opened HttpResponse
  import SortedMap

  /** The header lines the reader sees for the entries of `h`: each line
      as written, without its final newline. */
  function EntryLines(h: SortedMap.Map<string>): (ls: seq<string>)
    ensures |ls| == |h|
    ensures forall i :: 0 <= i < |h| ==> ls[i] == h[i].0 + ": " + h[i].1 + "\r"
  {
    seq(|h|, i requires 0 <= i < |h| => h[i].0 + ": " + h[i].1 + "\r")
  }

  /** The status line without its final newline. */
  function StatusText(status: int): string {
    "HTTP/1.1 " + IntToString(status) + " OK\r"
  }

  lemma IntTextHasNoNewline(i: int)
    ensures '\n' !in IntToString(i)
  {
    var r := IntToString(i);
    if i >= 0 {
      assert forall j :: 0 <= j < |r| ==> IsDigit(r[j]);
    } else {
      var n := NatToString(-i);
      assert r == "-" + n;
      assert forall j :: 0 <= j < |n| ==> IsDigit(n[j]);
    }
  }

  lemma HeaderLineFramed(name: string, value: string, rest: string)
    ensures HeaderLine(name, value) + rest == (name + ": " + value + "\r") + "\n" + rest
  {
  }

  /** The header section is the entry lines framed by newlines. */
  lemma {:induction false} HeaderSectionFramed(h: SortedMap.Map<string>, rest: string)
    ensures HeaderSection(h, rest) == Framed(EntryLines(h), rest)
  {
    if h != [] {
      HeaderSectionFramed(h[1..], rest);
      assert EntryLines(h)[1..] == EntryLines(h[1..]);
      HeaderLineFramed(h[0].0, h[0].1, HeaderSection(h[1..], rest));
    }
  }

  /** Reading a generated response with `RequestParser::parse` gives its
      status line as the request line, its header lines, and its body. */
  lemma GeneratedReadBack(status: int, h: SortedMap.Map<string>, body: string)
    requires forall i :: 0 <= i < |h| ==> '\n' !in h[i].0 && '\n' !in h[i].1
    ensures var (m, u, v) := RequestLineFields(StatusText(status), [], [], []);
      ParsedBy(RequestValue([], [], [], [], []), Generated(status, h, body)) ==
        RequestValue(m, u, v, AddHeaders([], EntryLines(h)), body)
  {
    IntTextHasNoNewline(status);
    var ls := EntryLines(h);
    forall i | 0 <= i < |ls|
      ensures !EndsHeaders(ls[i], true) && '\n' !in ls[i]
    {
      assert |ls[i]| >= 3;
    }
    HeaderSectionFramed(h, "\r\n" + body);
    assert Generated(status, h, body) == StatusText(status) + "\n" + Framed(ls, "\r\n" + body);
    ParsedByFramed(RequestValue([], [], [], [], []), StatusText(status), ls, body);
  }

  /** A header value without surrounding whitespace survives the trimming
      of the reader. */
  lemma TrimPadded(v: string)
    requires Trim(v) == v
    ensures Trim(" " + v + "\r") == v
  {
    var s := " " + v + "\r";
    assert s[1..1 + |v|] == v;
    assert Padded(s, v, 1);
    TrimUnique(s, v, 1);
  }

  /** A field the reader gives back unchanged: no colon in the name, no
      whitespace around the name or the value. */
  predicate Plain(name: string, value: string) {
    ':' !in name && Trim(name) == name && Trim(value) == value
  }

  /** The reader gives back the field of each entry line. */
  lemma EntryLineField(name: string, value: string)
    requires Plain(name, value)
    ensures HeaderOf(name + ": " + value + "\r") == Some((name, value))
  {
    assert name + ": " + value + "\r" == name + ":" + (" " + value + "\r");
    HeaderOfSplit(name, " " + value + "\r");
    TrimPadded(value);
  }

  predicate PlainEntries(h: SortedMap.Map<string>) {
    forall i :: 0 <= i < |h| ==> Plain(h[i].0, h[i].1)
  }

  lemma PlainEntriesTail(h: SortedMap.Map<string>)
    requires PlainEntries(h) && h != []
    ensures Plain(h[0].0, h[0].1) && PlainEntries(h[1..])
  {
    forall i | 0 <= i < |h[1..]|
      ensures Plain(h[1..][i].0, h[1..][i].1)
    {
      assert h[1..][i] == h[i + 1];
    }
  }

  lemma FieldsStep(ls: seq<string>, f: (string, string))
    requires ls != [] && HeaderOf(ls[0]) == Some(f)
    ensures Fields(ls) == [f] + Fields(ls[1..])
  {
  }

  lemma {:induction false} FieldsOfEntries(h: SortedMap.Map<string>)
    requires PlainEntries(h)
    ensures Fields(EntryLines(h)) == h
  {
    if h != [] {
      var ls := EntryLines(h);
      assert ls[1..] == EntryLines(h[1..]);
      PlainEntriesTail(h);
      FieldsOfEntries(h[1..]);
      EntryLineField(h[0].0, h[0].1);
      FieldsStep(ls, h[0]);
      assert [h[0]] + h[1..] == h;
    }
  }

  /** Header fields whose names hold no colon and whose names and values
      carry no surrounding whitespace are read back with their values. */
  lemma HeadersReadBack(h: SortedMap.Map<string>, i: int)
    requires SortedMap.Sorted(h) && PlainEntries(h) && 0 <= i < |h|
    ensures SortedMap.Get(AddHeaders([], EntryLines(h)), h[i].0) == Some(h[i].1)
  {
    FieldsOfEntries(h);
    forall j | i < j < |h|
      ensures h[j].0 != h[i].0
    {
      if h[j].0 == h[i].0 {
        SortedMap.LessIrreflexive(h[i].0);
      }
    }
    LastHeaderWins([], EntryLines(h), i);
  }
}
