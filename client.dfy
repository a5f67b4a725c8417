/** `Client`: one connection's buffers. The bytes received so far, the
    rule that decides when a whole request has arrived, and the bytes of
    the response still waiting to be written. `recv` and `write` are not
    modelled: what they return comes in as parameters. */
module ClientConnection {
  import opened Wrappers
  import opened Text
  import opened InputStream
  import opened Framing

  /** The modulus of `size_t` arithmetic. */
  const SIZE_MOD: int := SIZE_MAX + 1

  /** `x` taken as a `size_t`: reduced modulo 2^64. */
  function SizeT(x: nat): (r: nat)
    ensures r <= x && r < SIZE_MOD
    ensures x < SIZE_MOD ==> r == x
    decreases x
  {
    if x < SIZE_MOD then x else SizeT(x - SIZE_MOD)
  }

  const LengthName: string := "Content-Length:"

  /** The length `readData` reads from a header section: the number after
      the first `Content-Length:` (matched case-sensitively), as `>>` into
      a `size_t` reads it; 0 when the field is absent or holds nothing. */
  function DeclaredLength(headers: string): (n: nat)
    ensures n <= SIZE_MAX
    ensures !Contains(headers, LengthName) ==> n == 0
  {
    match Find(headers, LengthName)
    case None => 0
    case Some(pos) => ReadSize(Open(headers[pos + 15..])).1.GetOr(0)
  }

  /** The test that ends `readData`'s loop: the header section is over
      and the data holds `headers_end + 4 + content_length` bytes, that
      sum taken as a `size_t`. */
  predicate ReceivedAll(data: string) {
    match Find(data, Blank)
    case None => false
    case Some(h) => |data| >= SizeT(h + 4 + DeclaredLength(data[..h]))
  }

  /** The first line of the data, as `isRequestComplete` cuts it. */
  function MethodLine(data: string): (r: string)
    ensures r <= data
  {
    data[..Find(data, "\r\n").GetOr(|data|)]
  }

  /** The rule of `isRequestComplete`, given the length `getContentLength`
      reads from the header section: no blank line yet means incomplete;
      a first line starting with `GET` or `HEAD` is complete; otherwise
      the body must hold the declared length, and a length of 0 is
      complete. */
  predicate RequestComplete(data: string, contentLength: nat)
    ensures RequestComplete(data, contentLength) ==> Find(data, Blank).Some?
    ensures Find(data, Blank).Some? && contentLength == 0 ==> RequestComplete(data, contentLength)
  {
    match Find(data, Blank)
    case None => false
    case Some(h) =>
      OccursAt(MethodLine(data), "GET", 0) || OccursAt(MethodLine(data), "HEAD", 0) ||
      contentLength == 0 || |data| - (h + 4) >= contentLength
  }

  /** Bytes appended after a complete header section change neither
      where it ends nor the first line. */
  lemma AppendKeepsHead(data: string, more: string)
    requires Find(data, Blank).Some?
    ensures Find(data + more, Blank) == Find(data, Blank)
    ensures MethodLine(data + more) == MethodLine(data)
    ensures var h := Find(data, Blank).value; (data + more)[..h] == data[..h]
  {
    var h := Find(data, Blank).value;
    FindInPrefix(data, more, Blank);
    assert OccursAt(data, "\r\n", h) by {
      assert data[h..h + 2] == data[h..h + 4][..2];
    }
    FindInPrefix(data, more, "\r\n");
    var m := Find(data, "\r\n").value;
    assert (data + more)[..m] == data[..m];
    assert (data + more)[..h] == data[..h];
  }

  /** More bytes never make a complete request incomplete. */
  lemma RequestCompleteMonotone(data: string, more: string, contentLength: nat)
    requires RequestComplete(data, contentLength)
    ensures RequestComplete(data + more, contentLength)
  {
    AppendKeepsHead(data, more);
  }

  /** Without a blank line a request is incomplete, whatever length its
      headers declare. */
  lemma IncompleteWithoutBlank(data: string, contentLength: nat)
    requires !Contains(data, Blank)
    ensures !RequestComplete(data, contentLength)
  {
  }

  /** A first line without CR, then the blank line: the header section
      ends right after that line, which is the line the method is read
      from. */
  lemma OneLineHead(line: string, rest: string)
    requires NoCr(line)
    ensures Find(line + Blank + rest, Blank) == Some(|line|)
    ensures MethodLine(line + Blank + rest) == line
  {
    var data := line + Blank + rest;
    forall j | 0 <= j < |line|
      ensures !OccursAt(data, Blank, j) && !OccursAt(data, CRLF, j)
    {
      assert data[j] == line[j];
      NotAtNonCr(data, Blank, j);
      NotAtNonCr(data, CRLF, j);
    }
    assert data[|line|..|line| + 4] == Blank;
    FindIs(data, Blank, |line|);
    assert data[|line|..|line| + 2] == CRLF;
    FindIs(data, CRLF, |line|);
    assert data[..|line|] == line;
  }

  /** A pattern that starts with CR does not occur where there is none. */
  lemma NotAtNonCr(s: string, pat: string, j: int)
    requires 0 <= j < |s| && s[j] != '\r' && pat != [] && pat[0] == '\r'
    ensures !OccursAt(s, pat, j)
  {
    if j + |pat| <= |s| {
      assert s[j..j + |pat|][0] == s[j];
    }
  }

  /** A `GET` or `HEAD` request is complete as soon as its header section
      ends, whatever length it declares and whatever follows. */
  lemma BodilessMethodComplete(line: string, rest: string, contentLength: nat)
    requires NoCr(line) && (OccursAt(line, "GET", 0) || OccursAt(line, "HEAD", 0))
    ensures RequestComplete(line + Blank + rest, contentLength)
  {
    OneLineHead(line, rest);
  }

  /** Any other request that declares a length is complete exactly when
      the bytes after the blank line number at least that length. */
  lemma DeclaredBodyDecides(line: string, body: string, contentLength: nat)
    requires NoCr(line) && !OccursAt(line, "GET", 0) && !OccursAt(line, "HEAD", 0)
    requires contentLength > 0
    ensures RequestComplete(line + Blank + body, contentLength) <==> |body| >= contentLength
  {
    OneLineHead(line, body);
  }

  /** More bytes never undo `readData`'s stop test either. */
  lemma ReceivedAllMonotone(data: string, more: string)
    requires ReceivedAll(data)
    ensures ReceivedAll(data + more)
  {
    AppendKeepsHead(data, more);
  }

  /** When `getContentLength` reads the same length as `readData` and the
      sum does not wrap, data on which `readData` stops is a complete
      request. */
  lemma ReceivedAllIsComplete(data: string)
    requires ReceivedAll(data)
    requires var h := Find(data, Blank).value; h + 4 + DeclaredLength(data[..h]) < SIZE_MOD
    ensures var h := Find(data, Blank).value; RequestComplete(data, DeclaredLength(data[..h]))
  {
    var h := Find(data, Blank).value;
    var n := DeclaredLength(data[..h]);
    assert |data| - (h + 4) >= n;
  }

  lemma NoLengthInFirstLine(line: string, t: string)
    requires forall j :: 0 <= j < |line| ==> line[j] != 'C'
    ensures forall j :: 0 <= j < |line| + 2 ==> !OccursAt(line + CRLF + t, LengthName, j)
  {
    var s := line + CRLF + t;
    forall j | 0 <= j < |line| + 2
      ensures !OccursAt(s, LengthName, j)
    {
      assert LengthName[0] == 'C';
      if j < |line| {
        assert s[j] == line[j];
      } else {
        assert s[j] == CRLF[j - |line|];
      }
    }
  }

  /** The length field that follows a first line without `C`. */
  lemma DeclaredAfterFirstLine(line: string, v: string)
    requires forall j :: 0 <= j < |line| ==> line[j] != 'C'
    ensures DeclaredLength(line + CRLF + (LengthName + v)) == ReadSize(Open(v)).1.GetOr(0)
  {
    var headers := line + CRLF + (LengthName + v);
    var p := |line| + 2;
    assert OccursAt(headers, LengthName, p) by {
      assert headers[p..p + 15] == LengthName;
    }
    NoLengthInFirstLine(line, LengthName + v);
    FindIs(headers, LengthName, p);
    assert headers[p + 15..] == v;
  }

  lemma LengthNamePlain()
    ensures NoCr(LengthName)
  {
  }

  lemma ReadMinusOne()
    ensures ReadSize(Open(" -1")) == (Stream([], false), Some(SIZE_MAX))
  {
    assert SkipSpace(" -1") == "-1" by {
      assert " -1"[1..] == "-1";
    }
    assert DigitPrefix("1") == "1";
    assert SignedDigits("-1") == (true, "1", []);
    assert DigitsValue("1") == 1 by {
      assert "1"[..0] == [];
    }
  }

  lemma NegativeFieldLines(line: string)
    requires line != [] && NoCr(line)
    ensures var ls := [line, LengthName + " -1"];
      PlainLines(ls) && JoinCrlf(ls) == line + CRLF + (LengthName + " -1")
  {
    var ls := [line, LengthName + " -1"];
    assert ls[1..] == [LengthName + " -1"];
    LengthNamePlain();
    assert NoCr(" -1");
    NoCrAppend(LengthName, " -1");
  }

  /** With `Content-Length: -1` the length reads as the largest `size_t`,
      the sum wraps, and `readData` stops as soon as the header section
      is in, whatever follows it. */
  lemma NegativeLengthStopsAtHeaders(line: string, tail: string)
    requires line != [] && NoCr(line) && forall j :: 0 <= j < |line| ==> line[j] != 'C'
    ensures var headers := line + CRLF + (LengthName + " -1");
      DeclaredLength(headers) == SIZE_MAX && ReceivedAll(headers + Blank + tail)
  {
    var field := LengthName + " -1";
    var headers := line + CRLF + field;
    DeclaredAfterFirstLine(line, " -1");
    ReadMinusOne();
    var ls := [line, field];
    NegativeFieldLines(line);
    JoinCrlfSplits(ls, []);
    var data := headers + Blank;
    assert data == headers + Blank + [];
    assert data[..|headers|] == headers;
    assert ReceivedAll(data);
    ReceivedAllMonotone(data, tail);
  }

  /** The bytes of a run of `recv` results, in order. */
  function Concat(chunks: seq<string>): (r: string)
    ensures |chunks| == 0 ==> r == []
  {
    if chunks == [] then [] else chunks[0] + Concat(chunks[1..])
  }

  /** How many of `chunks` `readData` appends before it stops: it stops
      after the first chunk that makes `ReceivedAll` hold. */
  function Consumed(data: string, chunks: seq<string>): (k: nat)
    decreases |chunks|
    ensures k <= |chunks| && (chunks != [] ==> k >= 1)
  {
    if chunks == [] then 0
    else if ReceivedAll(data + chunks[0]) then 1
    else 1 + Consumed(data + chunks[0], chunks[1..])
  }

  /** Whether `readData` left its loop through the stop test (true) or
      because `recv` returned no more bytes (false). */
  predicate Stopped(data: string, chunks: seq<string>)
    decreases |chunks|
  {
    chunks != [] && (ReceivedAll(data + chunks[0]) || Stopped(data + chunks[0], chunks[1..]))
  }

  lemma ConcatStep(data: string, chunks: seq<string>, k: nat)
    requires 1 <= k <= |chunks|
    ensures data + Concat(chunks[..k]) == (data + chunks[0]) + Concat(chunks[1..][..k - 1])
    ensures k == 1 ==> data + Concat(chunks[..k]) == data + chunks[0]
  {
    assert chunks[..k][1..] == chunks[1..][..k - 1];
    if k == 1 {
      assert Concat(chunks[1..][..0]) == [];
      assert (data + chunks[0]) + [] == data + chunks[0];
    }
  }

  /** `readData` stops at the first prefix of the chunks after which
      `ReceivedAll` holds: no shorter prefix passes the test. */
  lemma {:induction false} ConsumedIsFirst(data: string, chunks: seq<string>)
    ensures var k := Consumed(data, chunks);
      forall k' :: 1 <= k' < k ==> !ReceivedAll(data + Concat(chunks[..k']))
    decreases |chunks|
  {
    if chunks != [] {
      var d := data + chunks[0];
      var k := Consumed(data, chunks);
      ConcatStep(data, chunks, 1);
      if !ReceivedAll(d) {
        ConsumedIsFirst(d, chunks[1..]);
        forall k' | 1 <= k' < k
          ensures !ReceivedAll(data + Concat(chunks[..k']))
        {
          ConcatStep(data, chunks, k');
          if k' > 1 {
            assert !ReceivedAll(d + Concat(chunks[1..][..k' - 1]));
          }
        }
      }
    }
  }

  /** When the first chunk passes the test, the loop stops after it. */
  lemma StopsAtFirst(data: string, chunks: seq<string>)
    requires chunks != [] && ReceivedAll(data + chunks[0])
    ensures Consumed(data, chunks) == 1 && Stopped(data, chunks)
    ensures ReceivedAll(data + Concat(chunks[..1]))
  {
    ConcatStep(data, chunks, 1);
  }

  /** When the first chunk does not pass the test, the loop goes on with
      the rest. */
  lemma ConsumedUnfold(data: string, chunks: seq<string>)
    requires chunks != [] && !ReceivedAll(data + chunks[0])
    ensures Consumed(data, chunks) == 1 + Consumed(data + chunks[0], chunks[1..])
    ensures Stopped(data, chunks) == Stopped(data + chunks[0], chunks[1..])
  {
  }

  /** The loop ends through the stop test exactly when the chunks it
      read pass it, and reads every chunk otherwise. */
  lemma ConsumedStops(data: string, chunks: seq<string>)
    ensures var k := Consumed(data, chunks);
      (Stopped(data, chunks) <==> k >= 1 && ReceivedAll(data + Concat(chunks[..k]))) &&
      (!Stopped(data, chunks) ==> k == |chunks|)
  {
    StoppedIffPasses(data, chunks);
    ReadsAllUnlessStopped(data, chunks);
  }

  lemma {:induction false} StoppedIffPasses(data: string, chunks: seq<string>)
    ensures var k := Consumed(data, chunks);
      Stopped(data, chunks) <==> k >= 1 && ReceivedAll(data + Concat(chunks[..k]))
    decreases |chunks|
  {
    if chunks != [] {
      var d := data + chunks[0];
      if ReceivedAll(d) {
        StopsAtFirst(data, chunks);
      } else {
        var rest := chunks[1..];
        var k := Consumed(d, rest);
        StoppedIffPasses(d, rest);
        ConsumedUnfold(data, chunks);
        ConcatStep(data, chunks, 1 + k);
        if k == 0 {
          assert rest == [] && !Stopped(d, rest);
        }
      }
    }
  }

  lemma {:induction false} ReadsAllUnlessStopped(data: string, chunks: seq<string>)
    ensures !Stopped(data, chunks) ==> Consumed(data, chunks) == |chunks|
    decreases |chunks|
  {
    if chunks != [] && !ReceivedAll(data + chunks[0]) {
      ReadsAllUnlessStopped(data + chunks[0], chunks[1..]);
      ConsumedUnfold(data, chunks);
    }
  }

  /** How `recv` answered once the chunks were used up. */
  datatype RecvEnd = Closed | WouldBlock | RecvFailed

  const StatusOk: string := "HTTP/1.1 200 OK"
  const PlainType: string := "Content-Type: text/plain"

  /** The header lines of the response `prepare_response` queues for a
      content of `n` bytes. */
  function PreparedLines(n: nat): seq<string> {
    [StatusOk, LengthName + (" " + NatToString(n)), PlainType]
  }

  /** The response `prepare_response` queues for `content`. */
  function Prepared(content: string): string {
    StatusOk + CRLF + (LengthName + (" " + NatToString(|content|)) + CRLF) + (PlainType + CRLF) + CRLF + content
  }

  lemma Regroup(a: string, b: string, c: string, d: string, e: string)
    ensures a + d + (b + d) + (c + d) + d + e == (a + d + (b + d + c)) + (d + d) + e
  {
  }

  /** A prepared response is its three header lines, a blank line and the
      content. */
  lemma PreparedSplits(content: string)
    ensures SplitAtBlank(Prepared(content)) == Some((JoinCrlf(PreparedLines(|content|)), content))
  {
    var ls := PreparedLines(|content|);
    NatTextPlain(|content|);
    assert PlainLines(ls) by {
      LengthNamePlain();
      assert NoCr(" ");
      NoCrAppend(" ", NatToString(|content|));
      NoCrAppend(LengthName, " " + NatToString(|content|));
    }
    assert ls[1..][1..] == [PlainType];
    assert JoinCrlf(ls[1..]) == ls[1] + CRLF + PlainType;
    assert JoinCrlf(ls) == StatusOk + CRLF + (ls[1] + CRLF + PlainType);
    assert Blank == CRLF + CRLF;
    Regroup(StatusOk, ls[1], PlainType, CRLF, content);
    JoinCrlfSplits(ls, content);
  }

  lemma StatusOkWithoutC()
    ensures forall j :: 0 <= j < |StatusOk| ==> StatusOk[j] != 'C'
  {
  }

  /** Read by `readData`'s own rule, a prepared response declares the
      content's length and is complete once all of it has arrived. */
  lemma PreparedReadBack(content: string)
    requires |content| <= SIZE_MAX
    ensures DeclaredLength(JoinCrlf(PreparedLines(|content|))) == |content|
    ensures ReceivedAll(Prepared(content))
  {
    PreparedSplits(content);
    var n := NatToString(|content|);
    var ls := PreparedLines(|content|);
    var rest := CRLF + PlainType;
    assert ls[1..][1..] == [PlainType];
    assert JoinCrlf(ls) == StatusOk + CRLF + (LengthName + (" " + (n + rest)));
    StatusOkWithoutC();
    DeclaredAfterFirstLine(StatusOk, " " + (n + rest));
    ReadSizeThenText(|content|, rest);
  }

  class Client {
    /** The response bytes not yet written. */
    var pendingData: string
    var keepAlive: bool
    const fd: int
    /** Every byte received on the connection so far. */
    var requestData: string
    /** The last response queued, and the part of it already written. */
    ghost var outgoing: string
    ghost var sent: string

    /** What has been written, then what is pending, is the whole queued
        response: no byte is lost or written twice. */
    ghost predicate Valid()
      reads this
    {
      sent + pendingData == outgoing
    }

    constructor (clientFd: int)
      ensures Valid()
      ensures pendingData == [] && !keepAlive && fd == clientFd && requestData == []
    {
      pendingData, keepAlive, fd, requestData := [], false, clientFd, [];
      outgoing, sent := [], [];
    }

    /** `appendRequestData`: exactly the given bytes, at the end. */
    method AppendRequestData(data: string)
      modifies this`requestData
      ensures requestData == old(requestData) + data
    {
      requestData := requestData + data;
    }

    function ShouldKeepAlive(): (r: bool)
      reads this
      ensures r == keepAlive
    {
      keepAlive
    }

    method SetKeepAlive(value: bool)
      modifies this`keepAlive
      ensures ShouldKeepAlive() == value
    {
      keepAlive := value;
    }

    /** `isRequestComplete`, with the length `getContentLength` reads from
        the header section as a parameter. */
    predicate IsRequestComplete(contentLength: nat)
      reads this
      ensures IsRequestComplete(contentLength) ==> Find(requestData, Blank).Some?
    {
      RequestComplete(requestData, contentLength)
    }

    /** `readData`: appends the chunks `recv` returns until the stop test
        holds or `recv` returns no more; a `recv` error that ends the loop
        is the exception the source throws. */
    method ReadData(chunks: seq<string>, end: RecvEnd) returns (r: Result<string, string>)
      modifies this`requestData
      ensures requestData == old(requestData) + Concat(chunks[..Consumed(old(requestData), chunks)])
      ensures r.Failure? <==> !Stopped(old(requestData), chunks) && end == RecvFailed
      ensures r.Success? ==> r.value == requestData
    {
      var i := 0;
      var stopped := false;
      while i < |chunks|
        invariant 0 <= i <= |chunks|
        invariant requestData == old(requestData) + Concat(chunks[..i])
        invariant !stopped ==> Consumed(old(requestData), chunks) == i + Consumed(requestData, chunks[i..])
        invariant !stopped ==> Stopped(old(requestData), chunks) == Stopped(requestData, chunks[i..])
        invariant stopped ==> Consumed(old(requestData), chunks) == i && Stopped(old(requestData), chunks)
        decreases |chunks| - i, !stopped
      {
        ReadStep(old(requestData), chunks, i, requestData);
        requestData := requestData + chunks[i];
        i := i + 1;
        if ReceivedAll(requestData) {
          stopped := true;
          break;
        }
      }
      if !stopped && end == RecvFailed {
        return Failure("Read error");
      }
      return Success(requestData);
    }

    /** `send_pending_data`, with `written` what `write` returns (-1 for
        an error). */
    method SendPendingData(written: int) returns (done: bool)
      requires Valid()
      requires pendingData != [] ==> -1 <= written <= |pendingData|
      modifies this`pendingData, this`sent
      ensures Valid() && outgoing == old(outgoing)
      ensures old(pendingData) == [] ==> done && pendingData == []
      ensures old(pendingData) != [] && written == -1 ==> !done && pendingData == old(pendingData)
      ensures old(pendingData) != [] && written >= 0 ==>
        pendingData == old(pendingData)[written..] && sent == old(sent) + old(pendingData)[..written] &&
        (done <==> written == |old(pendingData)|)
    {
      if pendingData == [] {
        return true;
      }
      if written == -1 {
        return false;
      }
      if written > 0 {
        sent := sent + pendingData[..written];
        pendingData := pendingData[written..];
      }
      return pendingData == [];
    }

    /** `prepare_response`: queues a 200 response carrying `content`. */
    method PrepareResponse(content: string)
      modifies this`pendingData, this`outgoing, this`sent
      ensures Valid()
      ensures pendingData == Prepared(content) && outgoing == pendingData && sent == []
    {
      var response := StatusOk + CRLF;
      response := response + (LengthName + (" " + NatToString(|content|)) + CRLF);
      response := response + (PlainType + CRLF);
      response := response + CRLF;
      response := response + content;
      pendingData := response;
      outgoing, sent := response, [];
    }
  }

  /** One turn of `readData`'s loop, on the recursion of `Consumed` and
      `Stopped`. */
  lemma ReadStep(d0: string, chunks: seq<string>, i: int, d: string)
    requires 0 <= i < |chunks| && d == d0 + Concat(chunks[..i])
    requires Consumed(d0, chunks) == i + Consumed(d, chunks[i..])
    requires Stopped(d0, chunks) == Stopped(d, chunks[i..])
    ensures d + chunks[i] == d0 + Concat(chunks[..i + 1])
    ensures ReceivedAll(d + chunks[i]) ==> Consumed(d0, chunks) == i + 1 && Stopped(d0, chunks)
    ensures !ReceivedAll(d + chunks[i]) ==>
      (Consumed(d0, chunks) == i + 1 + Consumed(d + chunks[i], chunks[i + 1..]) &&
       Stopped(d0, chunks) == Stopped(d + chunks[i], chunks[i + 1..]))
  {
    assert chunks[..i + 1] == chunks[..i] + [chunks[i]];
    ConcatSnoc(chunks[..i], chunks[i]);
    var rest := chunks[i..];
    assert rest[0] == chunks[i] && rest[1..] == chunks[i + 1..];
    Unfold(d, rest);
  }

  /** One unfolding of `Consumed` and `Stopped`. */
  lemma Unfold(d: string, chunks: seq<string>)
    requires chunks != []
    ensures Consumed(d, chunks) ==
      if ReceivedAll(d + chunks[0]) then 1 else 1 + Consumed(d + chunks[0], chunks[1..])
    ensures Stopped(d, chunks) == (ReceivedAll(d + chunks[0]) || Stopped(d + chunks[0], chunks[1..]))
  {
  }

  lemma {:induction false} ConcatSnoc(chunks: seq<string>, c: string)
    ensures Concat(chunks + [c]) == Concat(chunks) + c
  {
    if chunks != [] {
      assert (chunks + [c])[1..] == chunks[1..] + [c];
      ConcatSnoc(chunks[1..], c);
    } else {
      assert chunks + [c] == [c];
    }
  }
}
