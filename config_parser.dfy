/** `ConfigParser`: the main configuration reader. Every line loses its
    comment and surrounding whitespace; a top-level line mentioning
    `server` opens a server block, a line inside it mentioning `location`
    opens a location block, and a line `}` closes the innermost block. A
    block still open when the file ends is kept. */
module ConfigParsing {
  import opened Wrappers
  import opened Text
  import opened InputStream
  import opened StringUtils
  import opened LocationSettings
  import opened ServerSettings
  import IntMap

  /** The text before the first `#`, or the whole line. */
  function BeforeHash(line: string): (r: string)
    ensures '#' !in r && r <= line
  {
    match IndexOf(line, '#')
    case None => line
    case Some(k) => line[..k]
  }

  /** A character that is not in `s` is not in its trimmed text either. */
  lemma TrimKeepsOut(s: string, c: char)
    requires c !in s
    ensures c !in Trim(s)
  {
    var r := Trim(s);
    var i :| Padded(s, r, i);
    forall k | 0 <= k < |r|
      ensures r[k] != c
    {
      assert r[k] == s[i + k];
    }
  }

  /** A line as the three readers see it: comment removed, then trimmed
      of `" \t\r\n"`. */
  function Clean(line: string): (r: string)
    ensures '#' !in r && Trim(r) == r
  {
    var b := BeforeHash(line);
    TrimIdempotent(b);
    TrimKeepsOut(b, '#');
    Trim(b)
  }

  /** A comment after a line's text does not change what the reader sees. */
  lemma CleanDropsComment(text: string, comment: string)
    requires '#' !in text
    ensures Clean(text + "#" + comment) == Trim(text)
  {
    BeforeHashComment(text, comment);
  }

  lemma BeforeHashComment(text: string, comment: string)
    requires '#' !in text
    ensures BeforeHash(text + "#" + comment) == text
  {
    var line := text + "#" + comment;
    assert line[|text|] == '#';
    assert line[..|text|] == text;
  }

  /** The server-block `listen`, `client_max_body_size` and `error_page`
      directives read a number into an uninitialised local; when nothing
      but whitespace follows the key, extraction stores nothing and that
      local is read uninitialised, which the model excludes for the lines
      that reach this reader (`ServerBlockDefined`). */
  predicate DirectiveDefined(line: string) {
    var (key, st) := KeyOf(line);
    (key == "listen" || key == "client_max_body_size" || key == "error_page") ==> SkipSpace(st.rest) != []
  }

  /** The lines of a file as the readers see them. */
  function Cleaned(lines: seq<string>): (ls: seq<string>)
    ensures CleanedFrom(lines, ls)
  {
    seq(|lines|, k requires 0 <= k < |lines| => Clean(lines[k]))
  }

  /** `ls` holds the lines of `lines` as the readers see them. */
  predicate CleanedFrom(lines: seq<string>, ls: seq<string>) {
    |ls| == |lines| && forall k {:trigger Clean(lines[k])} :: 0 <= k < |lines| ==> ls[k] == Clean(lines[k])
  }


  /** `parseDirective(line, server)`: `listen` sets the port,
      `server_name` the name (empty when missing), `client_max_body_size`
      the size limit, `error_page <code> <path>` that code's page; any
      other key has no effect. */
  function ServerDirective(s: Server, line: string): (r: Server)
    requires IntMap.Sorted(s.errorPages) && DirectiveDefined(line)
    ensures IntMap.Sorted(r.errorPages)
  {
    var (key, st) := KeyOf(line);
    if key == "listen" then s.(port := ReadInt(st).1.value)
    else if key == "server_name" then s.(serverName := WordOrEmpty(st))
    else if key == "client_max_body_size" then s.(clientMaxBodySize := ReadSize(st).1.value)
    else if key == "error_page" then
      var (after, code) := ReadInt(st);
      s.(errorPages := IntMap.Put(s.errorPages, code.value, WordOrEmpty(after)))
    else s
  }

  /** `parseDirective(line, location)`: `root`, `index`, `cgi_extension`
      and `cgi_path` set one word each (empty when missing),
      `allow_methods` appends every following word; any other key has no
      effect. */
  function LocationDirective(loc: Location, line: string): (r: Location)
    ensures r.path == loc.path && loc.allowedMethods <= r.allowedMethods
  {
    var (key, st) := KeyOf(line);
    if key == "root" then loc.(root := WordOrEmpty(st))
    else if key == "index" then loc.(index := WordOrEmpty(st))
    else if key == "allow_methods" then loc.(allowedMethods := loc.allowedMethods + Words(st.rest))
    else if key == "cgi_extension" then loc.(cgiExtension := WordOrEmpty(st))
    else if key == "cgi_path" then loc.(cgiPath := WordOrEmpty(st))
    else loc
  }

  /** What a line other than `}` does inside a location block: an empty
      line nothing, any other line is a directive. */
  function LocationLine(loc: Location, l: string): (r: Location)
    ensures r.path == loc.path && loc.allowedMethods <= r.allowedMethods
    ensures l == [] ==> r == loc
  {
    if l == [] then loc else LocationDirective(loc, l)
  }

  /** What `parseLocationBlock` reads from line `i` on: the location and
      the index of the first line not consumed. */
  function LocationBlock(loc: Location, ls: seq<string>, i: nat): (r: (Location, nat))
    requires i <= |ls|
    decreases |ls| - i
    ensures i <= r.1 <= |ls|
  {
    if i == |ls| then (loc, i)
    else if ls[i] == "}" then (loc, i + 1)
    else LocationBlock(LocationLine(loc, ls[i]), ls, i + 1)
  }

  /** Every line that `parseServerBlock`, reading from line `i`, hands to
      `parseDirective(line, server)` carries the values it reads. The
      walk skips empty lines and the location blocks it opens, whose
      lines go to `parseDirective(line, location)`, which reads no
      number; it stops at `}`. */
  predicate ServerBlockDefined(ls: seq<string>, i: nat)
    requires i <= |ls|
    decreases |ls| - i
  {
    if i == |ls| || ls[i] == "}" then true
    else if ls[i] == [] then ServerBlockDefined(ls, i + 1)
    else if Contains(ls[i], "location") then ServerBlockDefined(ls, LocationBlock(DefaultLocation, ls, i + 1).1)
    else DirectiveDefined(ls[i]) && ServerBlockDefined(ls, i + 1)
  }

  /** What line `i` of a server block does when it is not `}`: an empty
      line nothing, a line mentioning `location` reads a location block
      and appends it, any other line is a directive. The server after it
      and the index of the next line to read. */
  function ServerLine(s: Server, ls: seq<string>, i: nat): (r: (Server, nat))
    requires i < |ls| && ls[i] != "}" && IntMap.Sorted(s.errorPages) && ServerBlockDefined(ls, i)
    ensures i < r.1 <= |ls| && IntMap.Sorted(r.0.errorPages) && ServerBlockDefined(ls, r.1)
  {
    var l := ls[i];
    if l == [] then (s, i + 1)
    else if Contains(l, "location") then
      var (loc, next) := LocationBlock(DefaultLocation, ls, i + 1);
      (s.(locations := s.locations + [loc]), next)
    else (ServerDirective(s, l), i + 1)
  }

  /** What `parseServerBlock` reads from line `i` on, starting from `s`:
      the server and the index of the first line not consumed. A `}` line
      never mentions `location`, so testing it first keeps the order of
      the source's tests. */
  function ServerBlock(s: Server, ls: seq<string>, i: nat): (r: (Server, nat))
    requires i <= |ls| && IntMap.Sorted(s.errorPages) && ServerBlockDefined(ls, i)
    decreases |ls| - i
    ensures i <= r.1 <= |ls| && IntMap.Sorted(r.0.errorPages)
  {
    if i == |ls| then (s, i)
    else if ls[i] == "}" then (s, i + 1)
    else
      var (s', next) := ServerLine(s, ls, i);
      ServerBlock(s', ls, next)
  }

  /** Every server block that `parse`, reading from line `i`, opens is
      defined in the sense of `ServerBlockDefined`; top-level lines are
      only searched for `server` and never read as directives. */
  predicate ParseDefined(ls: seq<string>, i: nat)
    requires i <= |ls|
    decreases |ls| - i
  {
    if i == |ls| then true
    else if Contains(ls[i], "server") then
      ServerBlockDefined(ls, i + 1) && ParseDefined(ls, ServerBlock(DefaultServer, ls, i + 1).1)
    else ParseDefined(ls, i + 1)
  }

  /** What `parse` appends to `servers` reading the lines from `i` on. */
  function ParseLines(servers: seq<Server>, ls: seq<string>, i: nat): (r: seq<Server>)
    requires i <= |ls| && ParseDefined(ls, i)
    decreases |ls| - i
    ensures servers <= r
  {
    if i == |ls| then servers
    else if Contains(ls[i], "server") then
      var (s, next) := ServerBlock(DefaultServer, ls, i + 1);
      ParseLines(servers + [s], ls, next)
    else ParseLines(servers, ls, i + 1)
  }

  lemma ParseLinesServer(servers: seq<Server>, ls: seq<string>, i: nat)
    requires i < |ls| && ParseDefined(ls, i) && Contains(ls[i], "server")
    ensures var (s, next) := ServerBlock(DefaultServer, ls, i + 1);
      ParseLines(servers, ls, i) == ParseLines(servers + [s], ls, next)
  {
  }

  /** A number directive with nothing after its key reads its value
      uninitialised when it reaches `parseDirective(line, server)`. */
  lemma BareDirectiveUndefined(key: string)
    requires key == "listen" || key == "client_max_body_size" || key == "error_page"
    ensures KeyOf(key) == (key, Stream([], false)) && !DirectiveDefined(key)
  {
    KeyAlone(key);
  }

  lemma KeyAlone(key: string)
    requires IsWord(key)
    ensures KeyOf(key) == (key, Stream([], false))
  {
    assert SkipSpace(key) == key;
    WordPrefixOfWord(key, []);
    assert key + [] == key;
  }

  /** Top-level lines that do not mention `server` are never read as
      directives: the walk accepts them whatever they hold. */
  lemma {:induction false} TopLevelDirectivesUnread(ls: seq<string>, i: nat)
    requires i <= |ls|
    requires forall k :: i <= k < |ls| ==> !Contains(ls[k], "server")
    decreases |ls| - i
    ensures ParseDefined(ls, i)
  {
    if i < |ls| {
      TopLevelDirectivesUnread(ls, i + 1);
    }
  }

  /** Inside a location block a bare `listen` goes to
      `parseDirective(line, location)`, which ignores it: the walk goes on
      after the block's `}` as if the line were not there. */
  lemma BareListenInLocation(ls: seq<string>, i: nat)
    requires i + 2 < |ls| && ls[i] != "}" && Contains(ls[i], "location")
    requires ls[i + 1] == "listen" && ls[i + 2] == "}"
    ensures !DirectiveDefined(ls[i + 1])
    ensures ServerBlockDefined(ls, i) == ServerBlockDefined(ls, i + 3)
  {
    BareDirectiveUndefined("listen");
    assert LocationBlock(DefaultLocation, ls, i + 1).1 == i + 3;
  }

  /** `listen <port>` sets the port to the number written. */
  lemma ListenDirective(s: Server, p: int)
    requires IntMap.Sorted(s.errorPages) && INT_MIN <= p <= INT_MAX
    ensures var l := "listen " + IntToString(p);
      DirectiveDefined(l) && ServerDirective(s, l) == s.(port := p)
  {
    assert "listen " + IntToString(p) == "listen" + " " + IntToString(p);
    ReadWordSpaced("listen", IntToString(p));
    ReadIntSpaced(p);
  }

  /** `server_name <name>` sets the name. */
  lemma ServerNameDirective(s: Server, w: string)
    requires IntMap.Sorted(s.errorPages) && IsWord(w)
    ensures var l := "server_name " + w;
      DirectiveDefined(l) && ServerDirective(s, l) == s.(serverName := w)
  {
    assert "server_name " + w == "server_name" + " " + w;
    ReadWordSpaced("server_name", w);
    ReadLastWord(w);
  }

  /** `error_page <code> <path>` maps that code to that path, replacing
      an earlier path for the same code and keeping the other codes. */
  lemma ErrorPageDirective(s: Server, code: int, w: string)
    requires IntMap.Sorted(s.errorPages) && INT_MIN <= code <= INT_MAX && IsWord(w)
    ensures var l := "error_page " + IntToString(code) + " " + w;
      DirectiveDefined(l) && ServerDirective(s, l) == s.(errorPages := IntMap.Put(s.errorPages, code, w))
  {
    ErrorPageFields(code, w);
  }

  /** How an `error_page` line is read: its key, then the code, then the
      path. */
  lemma ErrorPageFields(code: int, w: string)
    requires INT_MIN <= code <= INT_MAX && IsWord(w)
    ensures var t := IntToString(code) + " " + w;
      KeyOf("error_page " + IntToString(code) + " " + w) == ("error_page", Stream(" " + t, false)) &&
      ReadInt(Stream(" " + t, false)) == (Stream(" " + w, false), Some(code)) &&
      WordOrEmpty(Stream(" " + w, false)) == w
  {
    var n := IntToString(code);
    var t := n + " " + w;
    SpacedTail("error_page ", n, w);
    ErrorPageKey(t);
    SpacedHead(n, w);
    ReadIntThenWord(code, w);
    ReadLastWord(w);
  }

  lemma ErrorPageKey(t: string)
    ensures KeyOf("error_page " + t) == ("error_page", Stream(" " + t, false))
  {
    assert "error_page " + t == "error_page" + " " + t;
    ReadWordSpaced("error_page", t);
  }

  lemma SpacedTail(k: string, n: string, w: string)
    ensures k + n + " " + w == k + (n + " " + w)
  {
  }

  lemma SpacedHead(n: string, w: string)
    ensures " " + (n + " " + w) == " " + n + " " + w
  {
  }

  /** `allow_methods` appends every following word, in order. */
  lemma AllowMethodsDirective(loc: Location, t: string)
    ensures LocationDirective(loc, "allow_methods " + t) == loc.(allowedMethods := loc.allowedMethods + Words(t))
  {
    assert "allow_methods " + t == "allow_methods" + " " + t;
    ReadWordSpaced("allow_methods", t);
    WordsSpaced(t);
  }

  /** Inside a server block the `location` test is a substring test: an
      `error_page` line whose path mentions `location` opens a location
      block instead of setting a page. */
  lemma LocationWordInPath(s: Server, ls: seq<string>, i: nat)
    requires i < |ls| && IntMap.Sorted(s.errorPages) && ServerBlockDefined(ls, i)
    requires ls[i] == "error_page 404 /location.html"
    ensures ServerLine(s, ls, i) ==
      var (loc, next) := LocationBlock(DefaultLocation, ls, i + 1);
      (s.(locations := s.locations + [loc]), next)
  {
    ErrorPathMentionsLocation();
    ServerLineOpensLocation(s, ls, i);
  }

  lemma ErrorPathMentionsLocation()
    ensures Contains("error_page 404 /location.html", "location")
  {
    var l := "error_page 404 /location.html";
    assert l[16..24] == "location";
    assert OccursAt(l, "location", 16);
  }

  lemma ServerLineOpensLocation(s: Server, ls: seq<string>, i: nat)
    requires i < |ls| && IntMap.Sorted(s.errorPages) && ServerBlockDefined(ls, i)
    requires ls[i] != "}" && Contains(ls[i], "location")
    ensures ServerLine(s, ls, i) ==
      var (loc, next) := LocationBlock(DefaultLocation, ls, i + 1);
      (s.(locations := s.locations + [loc]), next)
  {
  }

  /** No location the main reader builds records a path: every one keeps
      the empty path of a new location. */
  predicate NoPaths(s: Server) {
    forall k :: 0 <= k < |s.locations| ==> s.locations[k].path == []
  }

  lemma {:induction false} LocationBlockKeepsPath(loc: Location, ls: seq<string>, i: nat)
    requires i <= |ls|
    decreases |ls| - i
    ensures LocationBlock(loc, ls, i).0.path == loc.path
  {
    if i < |ls| && ls[i] != "}" {
      LocationBlockKeepsPath(LocationLine(loc, ls[i]), ls, i + 1);
    }
  }

  /** A directive never touches the locations. */
  lemma DirectiveKeepsLocations(s: Server, l: string)
    requires IntMap.Sorted(s.errorPages) && DirectiveDefined(l)
    ensures ServerDirective(s, l).locations == s.locations
  {
  }

  /** A server line appends at most the location block it opens. */
  lemma ServerLineLocations(s: Server, ls: seq<string>, i: nat)
    requires i < |ls| && ls[i] != "}" && IntMap.Sorted(s.errorPages) && ServerBlockDefined(ls, i)
    ensures var r := ServerLine(s, ls, i).0;
      r.locations == s.locations || r.locations == s.locations + [LocationBlock(DefaultLocation, ls, i + 1).0]
  {
    if ls[i] != [] && !Contains(ls[i], "location") {
      DirectiveKeepsLocations(s, ls[i]);
    }
  }

  /** A server block keeps the locations it started with, in order, and
      appends only locations without a path. */
  lemma {:induction false} ServerBlockLocations(s: Server, ls: seq<string>, i: nat)
    requires i <= |ls| && IntMap.Sorted(s.errorPages) && ServerBlockDefined(ls, i)
    decreases |ls| - i
    ensures var r := ServerBlock(s, ls, i).0;
      s.locations <= r.locations && (NoPaths(s) ==> NoPaths(r))
  {
    if i < |ls| && ls[i] != "}" {
      var (s', next) := ServerLine(s, ls, i);
      ServerLineLocations(s, ls, i);
      LocationBlockKeepsPath(DefaultLocation, ls, i + 1);
      ServerBlockLocations(s', ls, next);
    }
  }

  /** The servers read before line `i` stay first, in order, and every
      server read from line `i` on has only locations without a path. */
  lemma {:induction false} ParseLinesKeeps(servers: seq<Server>, ls: seq<string>, i: nat)
    requires i <= |ls| && ParseDefined(ls, i)
    decreases |ls| - i
    ensures var r := ParseLines(servers, ls, i);
      servers <= r && forall k :: |servers| <= k < |r| ==> NoPaths(r[k])
  {
    if i < |ls| {
      if Contains(ls[i], "server") {
        var (s, next) := ServerBlock(DefaultServer, ls, i + 1);
        ServerBlockLocations(DefaultServer, ls, i + 1);
        ParseLinesKeeps(servers + [s], ls, next);
      } else {
        ParseLinesKeeps(servers, ls, i + 1);
      }
    }
  }

  /** Top-level lines that do not mention `server` add nothing. */
  lemma {:induction false} TopLevelIgnored(servers: seq<Server>, ls: seq<string>, i: nat)
    requires i <= |ls| && ParseDefined(ls, i)
    requires forall k :: i <= k < |ls| ==> !Contains(ls[k], "server")
    decreases |ls| - i
    ensures ParseLines(servers, ls, i) == servers
  {
    if i < |ls| {
      TopLevelIgnored(servers, ls, i + 1);
    }
  }

  /** A server block still open when the file ends is kept. */
  lemma UnclosedServerKept(servers: seq<Server>, ls: seq<string>, i: nat)
    requires i < |ls| && ParseDefined(ls, i) && Contains(ls[i], "server")
    requires ServerBlock(DefaultServer, ls, i + 1).1 == |ls|
    ensures ParseLines(servers, ls, i) == servers + [ServerBlock(DefaultServer, ls, i + 1).0]
  {
    ParseLinesServer(servers, ls, i);
  }

  /** Where a block reader stands after line `j`: a closed block is
      finished, an open one goes on reading. */
  function ResumeServer(s: Server, ls: seq<string>, j: nat, closed: bool): (Server, nat)
    requires j <= |ls| && IntMap.Sorted(s.errorPages) && (closed || ServerBlockDefined(ls, j))
  {
    if closed then (s, j) else ServerBlock(s, ls, j)
  }

  function ResumeLocation(loc: Location, ls: seq<string>, j: nat, closed: bool): (Location, nat)
    requires j <= |ls|
  {
    if closed then (loc, j) else LocationBlock(loc, ls, j)
  }

  class ConfigParser {
    var servers: seq<Server>

    constructor ()
      ensures servers == []
    {
      servers := [];
    }

    function GetServers(): (r: seq<Server>)
      reads this
      ensures r == servers
    {
      servers
    }

    /** `parse`: `file` is None when the file cannot be opened, where the
        source throws before reading. */
    method Parse(file: Option<seq<string>>) returns (ok: bool)
      requires file.Some? ==> ParseDefined(Cleaned(file.value), 0)
      modifies this`servers
      ensures ok == file.Some?
      ensures servers == if file.Some? then ParseLines(old(servers), Cleaned(file.value), 0) else old(servers)
    {
      if file.None? {
        return false;
      }
      var lines := file.value;
      ghost var ls := Cleaned(lines);
      var i := 0;
      while i < |lines|
        invariant 0 <= i <= |lines| && ParseDefined(ls, i)
        invariant ParseLines(servers, ls, i) == ParseLines(old(servers), ls, 0)
        decreases |lines| - i
      {
        i := ParseLine(lines, i, ls);
      }
      return true;
    }

    /** One pass of the loop of `parse` over line `i`: a line mentioning
        `server` reads a server block, any other line is skipped; `next`
        is the index of the next line to read. */
    method ParseLine(lines: seq<string>, i: nat, ghost ls: seq<string>) returns (next: nat)
      requires i < |lines| && CleanedFrom(lines, ls) && ParseDefined(ls, i)
      modifies this`servers
      ensures i < next <= |lines| && ParseDefined(ls, next)
      ensures ParseLines(servers, ls, next) == ParseLines(old(servers), ls, i)
    {
      var line := Clean(lines[i]);
      assert line == ls[i];
      if line != [] && Contains(line, "server") {
        next := ParseServerBlock(lines, i + 1, ls);
        ParseLinesServer(old(servers), ls, i);
      } else {
        next := i + 1;
      }
    }

    /** `parseServerBlock`: reads from line `i` up to a `}` line or the end
        of the file and appends the server in both cases; returns the index
        of the first line not consumed. */
    method ParseServerBlock(lines: seq<string>, i: nat, ghost ls: seq<string>) returns (next: nat)
      requires i <= |lines| && CleanedFrom(lines, ls) && ServerBlockDefined(ls, i)
      modifies this`servers
      ensures var (s, n) := ServerBlock(DefaultServer, ls, i);
        servers == old(servers) + [s] && next == n
    {
      var s;
      s, next := ReadServerBlock(lines, i, ls);
      servers := servers + [s];
    }

    /** The loop of `parseServerBlock`, filling a fresh `ServerConfig`. */
    method ReadServerBlock(lines: seq<string>, i: nat, ghost ls: seq<string>) returns (s: Server, next: nat)
      requires i <= |lines| && CleanedFrom(lines, ls) && ServerBlockDefined(ls, i)
      ensures (s, next) == ServerBlock(DefaultServer, ls, i)
    {
      var server := new ServerConfig();
      var j := i;
      var closed := false;
      while j < |lines| && !closed
        invariant i <= j <= |lines|
        invariant server.Valid() && (closed || ServerBlockDefined(ls, j))
        invariant ResumeServer(server.Value(), ls, j, closed) == ServerBlock(DefaultServer, ls, i)
        decreases |lines| - j
      {
        closed, j := ReadServerLine(lines, j, server, ls);
      }
      s, next := server.Value(), j;
    }

    /** One pass of the loop of `parseServerBlock` over line `j`: whether
        the line closes the block and, when it does not, what it does to
        `server`; `next` is the index of the next line to read. */
    method ReadServerLine(lines: seq<string>, j: nat, server: ServerConfig, ghost ls: seq<string>)
      returns (closed: bool, next: nat)
      requires j < |lines| && CleanedFrom(lines, ls) && ServerBlockDefined(ls, j) && server.Valid()
      modifies server`port, server`serverName, server`clientMaxBodySize, server`errorPages, server`locations
      ensures server.Valid()
      ensures closed <==> ls[j] == "}"
      ensures j < next <= |lines| && (closed || ServerBlockDefined(ls, next))
      ensures ResumeServer(server.Value(), ls, next, closed) == ServerBlock(old(server.Value()), ls, j)
    {
      var line := Clean(lines[j]);
      assert line == ls[j];
      if line == [] {
        closed, next := false, j + 1;
      } else if Contains(line, "location") {
        assert line != "}";
        closed := false;
        next := ParseLocationBlock(lines, j + 1, server, ls);
      } else if line == "}" {
        closed, next := true, j + 1;
      } else {
        ParseServerDirective(line, server);
        closed, next := false, j + 1;
      }
    }

    /** `parseLocationBlock`: reads from line `i` up to a `}` line or the
        end of the file and appends the location to `server` in both
        cases; the path on the `location` line is not recorded. */
    method ParseLocationBlock(lines: seq<string>, i: nat, server: ServerConfig, ghost ls: seq<string>)
      returns (next: nat)
      requires i <= |lines| && CleanedFrom(lines, ls)
      modifies server`locations
      ensures var (loc, n) := LocationBlock(DefaultLocation, ls, i);
        server.Value() == old(server.Value()).(locations := old(server.locations) + [loc]) && next == n
    {
      var loc;
      loc, next := ReadLocationBlock(lines, i, ls);
      server.AddLocation(loc);
    }

    /** The loop of `parseLocationBlock`, filling a fresh
        `LocationConfig`. */
    method ReadLocationBlock(lines: seq<string>, i: nat, ghost ls: seq<string>) returns (loc: Location, next: nat)
      requires i <= |lines| && CleanedFrom(lines, ls)
      ensures (loc, next) == LocationBlock(DefaultLocation, ls, i)
    {
      var location := new LocationConfig();
      var j := i;
      var closed := false;
      while j < |lines| && !closed
        invariant i <= j <= |lines|
        invariant ResumeLocation(location.Value(), ls, j, closed) == LocationBlock(DefaultLocation, ls, i)
        decreases |lines| - j
      {
        closed := ReadLocationLine(lines, j, location, ls);
        j := j + 1;
      }
      loc, next := location.Value(), j;
    }

    /** One pass of the loop of `parseLocationBlock` over line `j`: whether
        the line closes the block and, when it does not, what it does to
        `location`. */
    method ReadLocationLine(lines: seq<string>, j: nat, location: LocationConfig, ghost ls: seq<string>)
      returns (closed: bool)
      requires j < |lines| && CleanedFrom(lines, ls)
      modifies location`root, location`index, location`allowedMethods, location`cgiExtension, location`cgiPath
      ensures closed <==> ls[j] == "}"
      ensures ResumeLocation(location.Value(), ls, j + 1, closed) == LocationBlock(old(location.Value()), ls, j)
    {
      var line := Clean(lines[j]);
      assert line == ls[j];
      if line == [] {
        closed := false;
      } else if line == "}" {
        closed := true;
      } else {
        ParseLocationDirective(line, location);
        closed := false;
      }
    }

    /** `parseDirective(line, server)`. */
    method ParseServerDirective(line: string, server: ServerConfig)
      requires server.Valid() && DirectiveDefined(line)
      modifies server`port, server`serverName, server`clientMaxBodySize, server`errorPages
      ensures server.Valid() && server.Value() == ServerDirective(old(server.Value()), line)
    {
      var (key, st) := KeyOf(line);
      if key == "listen" {
        var (_, port) := ReadInt(st);
        server.SetPort(port.value);
      } else if key == "server_name" {
        server.SetServerName(WordOrEmpty(st));
      } else if key == "client_max_body_size" {
        var (_, size) := ReadSize(st);
        server.SetClientMaxBodySize(size.value);
      } else if key == "error_page" {
        var (after, code) := ReadInt(st);
        server.AddErrorPage(code.value, WordOrEmpty(after));
      }
    }

    /** `parseDirective(line, location)`. */
    method ParseLocationDirective(line: string, location: LocationConfig)
      modifies location`root, location`index, location`allowedMethods, location`cgiExtension, location`cgiPath
      ensures location.Value() == LocationDirective(old(location.Value()), line)
    {
      var (key, st) := KeyOf(line);
      if key == "root" {
        location.SetRoot(WordOrEmpty(st));
      } else if key == "index" {
        location.SetIndex(WordOrEmpty(st));
      } else if key == "allow_methods" {
        ReadAllowedMethods(location, st);
      } else if key == "cgi_extension" {
        location.SetCgiExtension(WordOrEmpty(st));
      } else if key == "cgi_path" {
        location.SetCgiPath(WordOrEmpty(st));
      }
    }
  }
}
