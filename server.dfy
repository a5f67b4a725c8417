/** `Server`: the list of descriptors handed to `poll`, the clients by
    descriptor, and the static-file answer `handleClient` sends. Sockets,
    `poll`, `accept`, `recv`, `send` and the file system are not
    modelled: their results come in as parameters. */
module WebServer {
  import opened Wrappers
  import opened Text
  import opened InputStream
  import opened Framing
  import Settings = ServerSettings
  import IntMap
  import ClientConnection

  /** The `poll` event bits the server uses. */
  const POLLIN: int := 1
  const POLLOUT: int := 4

  /** One `struct pollfd`: a descriptor and the events asked for. */
  datatype PollFd = PollFd(fd: int, events: int)

  /** The index of the first entry for `fd`. */
  function FirstIndex(ps: seq<PollFd>, fd: int): (r: Option<nat>)
    ensures r.Some? ==> r.value < |ps| && ps[r.value].fd == fd
    ensures r.Some? ==> forall j :: 0 <= j < r.value ==> ps[j].fd != fd
    ensures r.None? <==> forall j :: 0 <= j < |ps| ==> ps[j].fd != fd
  {
    if ps == [] then None
    else if ps[0].fd == fd then Some(0)
    else match FirstIndex(ps[1..], fd)
      case None => None
      case Some(i) => Some(i + 1)
  }

  /** The list after `removeClient`: the first entry for `fd` erased. */
  function RemoveFirst(ps: seq<PollFd>, fd: int): (r: seq<PollFd>)
    ensures |r| == if FirstIndex(ps, fd).Some? then |ps| - 1 else |ps|
    ensures forall j :: 0 <= j < |r| ==> r[j] in ps
  {
    match FirstIndex(ps, fd)
    case None => ps
    case Some(i) => ps[..i] + ps[i + 1..]
  }

  /** Erasing takes out exactly the first entry for `fd`, keeping the
      others in order. */
  lemma {:induction false} RemoveFirstFound(ps: seq<PollFd>, fd: int, i: nat)
    requires FirstIndex(ps, fd) == Some(i)
    ensures RemoveFirst(ps, fd) == ps[..i] + ps[i + 1..]
    ensures |RemoveFirst(ps, fd)| == |ps| - 1
    ensures multiset(RemoveFirst(ps, fd)) + multiset{ps[i]} == multiset(ps)
  {
    var a, b := ps[..i], ps[i + 1..];
    assert RemoveFirst(ps, fd) == a + b;
    assert ps == a + [ps[i]] + b;
    assert multiset(ps) == multiset(a) + multiset{ps[i]} + multiset(b);
  }

  /** Entries for other descriptors are neither lost nor duplicated. */
  lemma RemoveFirstOthers(ps: seq<PollFd>, fd: int, p: PollFd)
    requires p.fd != fd
    ensures multiset(RemoveFirst(ps, fd))[p] == multiset(ps)[p]
  {
    match FirstIndex(ps, fd)
    case None =>
    case Some(i) =>
      RemoveFirstFound(ps, fd, i);
      assert ps[i] != p;
  }

  /** `handleClient` turns the request path into a file path: without one
      leading `/`, under the root completed with a `/`, and with the index
      added when the path ends in `/`. */
  function BaseDir(root: string): (r: string)
    ensures r != [] && r[|r| - 1] == '/' && root <= r
  {
    if root == [] || root[|root| - 1] != '/' then root + "/" else root
  }

  /** The resolved path starts with the root directory; `..` segments of
      the request path are kept as they are. */
  function ResolvePath(root: string, index: string, path: string): (r: string)
    ensures BaseDir(root) <= r
  {
    var normalized := if path != [] && path[0] == '/' then path[1..] else path;
    var full := BaseDir(root) + normalized;
    if path != [] && path[|path| - 1] == '/' then full + index else full
  }

  /** The leading `/` of a request path does not change the file. */
  lemma LeadingSlashIgnored(root: string, index: string, p: string)
    requires p != [] && p[0] != '/'
    ensures ResolvePath(root, index, "/" + p) == ResolvePath(root, index, p)
  {
    assert ("/" + p)[1..] == p;
    assert ("/" + p)[|"/" + p| - 1] == p[|p| - 1];
  }

  /** A root given with or without its final `/` names the same files. */
  lemma RootSlashIgnored(root: string, index: string, path: string)
    requires root != [] && root[|root| - 1] != '/'
    ensures ResolvePath(root + "/", index, path) == ResolvePath(root, index, path)
  {
  }

  /** A directory path serves the same file as the path of its index. */
  lemma DirectoryServesIndex(root: string, index: string, dir: string)
    requires dir != [] && dir[0] == '/' && dir[|dir| - 1] == '/'
    requires index != [] && index[|index| - 1] != '/'
    ensures ResolvePath(root, index, dir) == ResolvePath(root, index, dir + index)
  {
    var p := dir + index;
    assert p[0] == '/';
    assert p[|p| - 1] == index[|index| - 1];
    assert p[1..] == dir[1..] + index;
  }

  const StatusFound: string := "HTTP/1.1 200 OK"
  const StatusNotFound: string := "HTTP/1.1 404 Not Found"
  const HtmlType: string := "Content-Type: text/html"
  const CloseField: string := "Connection: close"

  /** The header lines `handleClient` writes for a body of `n` bytes. */
  function ReplyLines(status: string, n: nat): seq<string> {
    [status, ClientConnection.LengthName + (" " + NatToString(n)), HtmlType, CloseField]
  }

  /** The text `handleClient` sends: status line, length, type and
      `Connection: close`, then the body. */
  function ReplyText(status: string, content: string): string {
    status + CRLF + (ClientConnection.LengthName + (" " + NatToString(|content|)) + CRLF) +
    (HtmlType + CRLF) + (CloseField + CRLF) + CRLF + content
  }

  lemma Regroup(a: string, b: string, c: string, d: string, x: string, e: string)
    ensures a + x + (b + x) + (c + x) + (d + x) + x + e == (a + x + (b + x + (c + x + d))) + (x + x) + e
  {
  }

  /** A reply is its four header lines, a blank line and the body. */
  lemma ReplySplits(status: string, content: string)
    requires status != [] && NoCr(status)
    ensures SplitAtBlank(ReplyText(status, content)) == Some((JoinCrlf(ReplyLines(status, |content|)), content))
  {
    var ls := ReplyLines(status, |content|);
    NatTextPlain(|content|);
    assert PlainLines(ls) by {
      ClientConnection.LengthNamePlain();
      assert NoCr(" ");
      NoCrAppend(" ", NatToString(|content|));
      NoCrAppend(ClientConnection.LengthName, " " + NatToString(|content|));
      assert NoCr(HtmlType) && NoCr(CloseField);
    }
    assert ls[1..][1..][1..] == [CloseField];
    assert JoinCrlf(ls[1..][1..]) == HtmlType + CRLF + CloseField;
    assert JoinCrlf(ls[1..]) == ls[1] + CRLF + (HtmlType + CRLF + CloseField);
    assert JoinCrlf(ls) == status + CRLF + (ls[1] + CRLF + (HtmlType + CRLF + CloseField));
    assert Blank == CRLF + CRLF;
    Regroup(status, ls[1], HtmlType, CloseField, CRLF, content);
    JoinCrlfSplits(ls, content);
  }

  /** The header lines after the status line, as the joined section
      holds them. */
  const ReplyTail: string := CRLF + (HtmlType + CRLF + CloseField)

  lemma JoinFour(a: string, b: string, c: string, d: string)
    ensures JoinCrlf([a, b, c, d]) == a + CRLF + (b + CRLF + (c + CRLF + d))
  {
    var ls := [a, b, c, d];
    assert ls[1..][1..][1..] == [d];
    assert ls[1..][1..] == [c, d];
    assert ls[1..] == [b, c, d];
    assert JoinCrlf([c, d]) == c + CRLF + d;
    assert JoinCrlf([b, c, d]) == b + CRLF + (c + CRLF + d);
  }

  lemma ReplyJoined(status: string, n: nat)
    ensures JoinCrlf(ReplyLines(status, n)) ==
      status + CRLF + (ClientConnection.LengthName + (" " + (NatToString(n) + ReplyTail)))
  {
    var b := ClientConnection.LengthName + (" " + NatToString(n));
    JoinFour(status, b, HtmlType, CloseField);
  }

  /** The length field of a reply gives the body's size. */
  lemma ReplyDeclaresLength(status: string, n: nat)
    requires forall j :: 0 <= j < |status| ==> status[j] != 'C'
    requires n <= SIZE_MAX
    ensures ClientConnection.DeclaredLength(JoinCrlf(ReplyLines(status, n))) == n
  {
    ReplyJoined(status, n);
    ClientConnection.DeclaredAfterFirstLine(status, " " + (NatToString(n) + ReplyTail));
    ReadSizeThenText(n, ReplyTail);
  }

  /** A client reading a reply by the `readData` rule takes in the whole
      body: the reply passes `ReceivedAll`. */
  lemma ReplyReceivedAll(status: string, content: string)
    requires NoCr(status) && status != [] && forall j :: 0 <= j < |status| ==> status[j] != 'C'
    requires |content| <= SIZE_MAX
    ensures ClientConnection.ReceivedAll(ReplyText(status, content))
  {
    ReplySplits(status, content);
    ReplyDeclaresLength(status, |content|);
    var h := JoinCrlf(ReplyLines(status, |content|));
    var data := ReplyText(status, content);
    assert data[..|h|] == h;
  }

  /** The request path `handleClient` reads: the second word of what
      `recv` returned, or "" when there is none. */
  function RequestPath(received: string): (r: string)
    ensures forall i :: 0 <= i < |r| ==> !IsSpace(r[i])
  {
    var (st, m) := ReadWord(Open(received));
    ReadWord(st).1.GetOr([])
  }

  /** `istreambuf_iterator` over a file: its bytes, or nothing when it
      cannot be opened. */
  function ReadFile(files: map<string, string>, path: string): (r: string)
    ensures r != [] ==> path in files
  {
    if path in files then files[path] else []
  }

  /** The 404 page's path: the configured page for 404 under the root,
      or `404.html` there. */
  function ErrorPagePath(config: Settings.Server): (r: string)
    ensures BaseDir(config.root) <= r
  {
    BaseDir(config.root) + IntMap.Get(config.errorPages, 404).GetOr("404.html")
  }

  /** What `handleClient` sends for the bytes `recv` returned; None when
      the connection gave no bytes. */
  function Reply(config: Settings.Server, files: map<string, string>, received: string): (r: Option<string>)
    ensures r.None? <==> received == []
  {
    if received == [] then None
    else
      var full := ResolvePath(config.root, config.index, RequestPath(received));
      if full in files then Some(ReplyText(StatusFound, files[full]))
      else Some(ReplyText(StatusNotFound, ReadFile(files, ErrorPagePath(config))))
  }

  lemma StatusLinesPlain()
    ensures NoCr(StatusFound) && NoCr(StatusNotFound)
    ensures forall j :: 0 <= j < |StatusFound| ==> StatusFound[j] != 'C'
    ensures forall j :: 0 <= j < |StatusNotFound| ==> StatusNotFound[j] != 'C'
  {
  }

  /** A found file is sent whole after a 200 header section; a missing
      one gets the 404 page (empty when that page is missing too). */
  lemma ReplyBody(config: Settings.Server, files: map<string, string>, received: string)
    requires received != []
    ensures var full := ResolvePath(config.root, config.index, RequestPath(received));
      var split := SplitAtBlank(Reply(config, files, received).value);
      split.Some? &&
      (full in files ==> split.value == (JoinCrlf(ReplyLines(StatusFound, |files[full]|)), files[full])) &&
      (full !in files ==> split.value.1 == ReadFile(files, ErrorPagePath(config)) &&
                          StatusNotFound <= split.value.0)
  {
    var full := ResolvePath(config.root, config.index, RequestPath(received));
    StatusLinesPlain();
    if full in files {
      ReplySplits(StatusFound, files[full]);
    } else {
      var page := ReadFile(files, ErrorPagePath(config));
      ReplySplits(StatusNotFound, page);
    }
  }

  class Server {
    const config: Settings.Server
    const serverFd: int
    var pollFds: seq<PollFd>
    var clients: map<int, ClientConnection.Client>

    /** `setupSocket` is left out: `serverFd` is the descriptor it opens. */
    constructor (config: Settings.Server, serverFd: int)
      ensures this.config == config && this.serverFd == serverFd
      ensures pollFds == [] && clients == map[]
    {
      this.config := config;
      this.serverFd := serverFd;
      pollFds := [];
      clients := map[];
    }

    /** `start`: the listening socket is polled for input. */
    method Start()
      modifies this`pollFds
      ensures pollFds == old(pollFds) + [PollFd(serverFd, POLLIN)]
    {
      pollFds := pollFds + [PollFd(serverFd, POLLIN)];
    }

    /** `acceptNewConnection`, with `clientFd` what `accept` returns. */
    method AcceptNewConnection(clientFd: int)
      modifies this`pollFds, this`clients
      ensures clientFd == -1 ==> pollFds == old(pollFds) && clients == old(clients)
      ensures clientFd != -1 ==>
        pollFds == old(pollFds) + [PollFd(clientFd, POLLIN)] &&
        clientFd in clients && fresh(clients[clientFd]) && clients[clientFd].fd == clientFd &&
        clients[clientFd].requestData == [] && clients[clientFd].pendingData == [] &&
        forall k :: k in old(clients) && k != clientFd ==> k in clients && clients[k] == old(clients)[k]
      ensures clientFd != -1 ==> clients.Keys == old(clients).Keys + {clientFd}
    {
      if clientFd == -1 {
        return;
      }
      pollFds := pollFds + [PollFd(clientFd, POLLIN)];
      var c := new ClientConnection.Client(clientFd);
      clients := clients[clientFd := c];
    }

    /** `removeClient`: the first poll entry for `clientFd` and its client
        record go. */
    method RemoveClient(clientFd: int)
      modifies this`pollFds, this`clients
      ensures pollFds == RemoveFirst(old(pollFds), clientFd)
      ensures clients == old(clients) - {clientFd}
    {
      var i := 0;
      while i < |pollFds|
        invariant 0 <= i <= |pollFds| && pollFds == old(pollFds)
        invariant forall j :: 0 <= j < i ==> pollFds[j].fd != clientFd
      {
        if pollFds[i].fd == clientFd {
          assert FirstIndex(pollFds, clientFd) == Some(i);
          pollFds := pollFds[..i] + pollFds[i + 1..];
          break;
        }
        i := i + 1;
      }
      clients := clients - {clientFd};
    }

    function GetPollFds(): (r: seq<PollFd>)
      reads this
      ensures r == pollFds
    {
      pollFds
    }

    /** `setPollEvents`: only an index inside the list is changed. */
    method SetPollEvents(index: nat, events: int)
      modifies this`pollFds
      ensures index < |old(pollFds)| ==> pollFds == old(pollFds)[index := PollFd(old(pollFds)[index].fd, events)]
      ensures index >= |old(pollFds)| ==> pollFds == old(pollFds)
    {
      if index < |pollFds| {
        pollFds := pollFds[index := pollFds[index].(events := events)];
      }
    }

    /** The reply `handleClient` builds: `received` is what `recv`
        returned (at most its 1024-byte buffer, empty for an error or a
        closed peer), `files` the readable files and their bytes. */
    method BuildReply(received: string, files: map<string, string>) returns (reply: Option<string>)
      ensures reply == Reply(config, files, received)
    {
      if received == [] {
        return None;
      }
      var (st, _) := ReadWord(Open(received));
      var path := ReadWord(st).1.GetOr([]);
      assert path == RequestPath(received);
      var normalized := path;
      if normalized != [] && normalized[0] == '/' {
        normalized := normalized[1..];
      }
      var root := config.root;
      if root == [] || root[|root| - 1] != '/' {
        root := root + "/";
      }
      var fullPath := root + normalized;
      if path != [] && path[|path| - 1] == '/' {
        fullPath := fullPath + config.index;
      }
      assert root == BaseDir(config.root);
      assert fullPath == ResolvePath(config.root, config.index, RequestPath(received));
      if fullPath in files {
        reply := Some(ReplyText(StatusFound, files[fullPath]));
      } else {
        var errorPage;
        var page := IntMap.Get(config.errorPages, 404);
        if page.Some? {
          errorPage := root + page.value;
        } else {
          errorPage := root + "404.html";
        }
        assert errorPage == ErrorPagePath(config);
        reply := Some(ReplyText(StatusNotFound, ReadFile(files, errorPage)));
      }
    }

    /** `handleClient`: the reply is what `send` is given; the connection
        is then removed. */
    method HandleClient(clientFd: int, received: string, files: map<string, string>)
      returns (reply: Option<string>)
      modifies this`pollFds, this`clients
      ensures reply == Reply(config, files, received)
      ensures pollFds == RemoveFirst(old(pollFds), clientFd)
      ensures clients == old(clients) - {clientFd}
    {
      reply := BuildReply(received, files);
      RemoveClient(clientFd);
    }
  }
}
