/** `ResponseGenerator`: the two canned responses the server can build,
    each through a fresh `Response`. */
module ResponseGenerator {
  import opened Text
  import opened HttpResponse
  import HttpRequest
  import SortedMap

  const CONTENT_TYPE: string := "Content-Type"
  const TEXT_HTML: string := "text/html"
  const HELLO_PAGE: string := "<h1>Hello, World!</h1>"

  /** The body of an error response; the message is not escaped. */
  function ErrorPage(status: int, message: string): string {
    "<h1>Error " + IntToString(status) + ": " + message + "</h1>"
  }

  /** `generateResponse`: the request is ignored. */
  method GenerateResponse(request: HttpRequest.Request) returns (out: string)
    ensures out == Generated(200, [(CONTENT_TYPE, TEXT_HTML)], HELLO_PAGE)
  {
    var response := new Response();
    response.SetStatus(200);
    response.SetHeader(CONTENT_TYPE, TEXT_HTML);
    response.SetBody(HELLO_PAGE);
    out := response.Generate();
  }

  /** `generateErrorResponse`. */
  method GenerateErrorResponse(status: int, message: string) returns (out: string)
    ensures out == Generated(status, [(CONTENT_TYPE, TEXT_HTML)], ErrorPage(status, message))
  {
    var response := new Response();
    response.SetStatus(status);
    response.SetHeader(CONTENT_TYPE, TEXT_HTML);
    response.SetBody(ErrorPage(status, message));
    out := response.Generate();
  }

  /** The text of a response with the single Content-Type field. */
  lemma HtmlResponseText(status: int, page: string)
    ensures Generated(status, [(CONTENT_TYPE, TEXT_HTML)], page) ==
      StatusLine(status) + "Content-Type: text/html\r\n" + "\r\n" + page
  {
    var h: SortedMap.Map<string> := [(CONTENT_TYPE, TEXT_HTML)];
    assert h[1..] == [] && h[0] == (CONTENT_TYPE, TEXT_HTML);
    assert HeaderSection(h, "\r\n" + page) == HeaderLine(CONTENT_TYPE, TEXT_HTML) + ("\r\n" + page);
    assert HeaderLine(CONTENT_TYPE, TEXT_HTML) == "Content-Type: text/html\r\n";
    AppendAssoc(StatusLine(status), "Content-Type: text/html\r\n", "\r\n" + page);
    AppendAssoc(StatusLine(status) + "Content-Type: text/html\r\n", "\r\n", page);
  }

  /** An error response: a status line with the fixed reason phrase `OK`,
      the one Content-Type field, an empty line and the page. */
  lemma NotFoundText(message: string)
    ensures Generated(404, [(CONTENT_TYPE, TEXT_HTML)], ErrorPage(404, message)) ==
      "HTTP/1.1 404 OK\r\n" + "Content-Type: text/html\r\n" + "\r\n" + "<h1>Error 404: " + message + "</h1>"
  {
    assert NatToString(4) == "4";
    assert NatToString(40) == "40";
    assert IntToString(404) == "404";
    assert StatusLine(404) == "HTTP/1.1 404 OK\r\n";
    assert ErrorPage(404, message) == "<h1>Error 404: " + message + "</h1>";
    HtmlResponseText(404, ErrorPage(404, message));
    var head := "HTTP/1.1 404 OK\r\n" + "Content-Type: text/html\r\n" + "\r\n";
    AppendAssoc(head, "<h1>Error 404: " + message, "</h1>");
    AppendAssoc(head, "<h1>Error 404: ", message);
  }

  /** The whole text of the default response. */
  lemma HelloResponseText()
    ensures Generated(200, [(CONTENT_TYPE, TEXT_HTML)], HELLO_PAGE) ==
      "HTTP/1.1 200 OK\r\n" + "Content-Type: text/html\r\n" + "\r\n" + "<h1>Hello, World!</h1>"
  {
    assert NatToString(2) == "2";
    assert NatToString(20) == "20";
    assert IntToString(200) == "200";
    assert StatusLine(200) == "HTTP/1.1 200 OK\r\n";
    HtmlResponseText(200, HELLO_PAGE);
  }
}
