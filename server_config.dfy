/** `ServerConfig`: the settings of one virtual server, and its own
    line-oriented reader `loadConfig`, which knows the keys `listen`,
    `root`, `index` and `location` and strips no comments. A configuration
    file is given as the sequence of its lines, as `std::getline` yields
    them. */
module ServerSettings {
  import opened Wrappers
  import opened InputStream
  import opened Text
  import opened LocationSettings
  import IntMap

  /** A server's settings, as a value. `errorPages` maps a status code to
      the path of its page. */
  datatype Server = Server(port: int, serverName: string, clientMaxBodySize: nat,
                           errorPages: IntMap.Map<string>, locations: seq<Location>,
                           root: string, index: string)

  /** The default constructor's settings: port 8080, a 1 MiB body limit,
      an empty root and index `index.html`. */
  const DefaultServer: Server := Server(8080, [], 1048576, [], [], [], "index.html")

  /** The settings the file constructor starts from before reading: port
      8080, empty root and index, and a body limit it leaves uninitialised
      (given here as `size`). */
  function FileDefaults(size: nat): Server {
    Server(8080, [], size, [], [], [], [])
  }

  /** The effect of one line of a location block other than its `}`:
      `root`, `cgi_extension` and `cgi_path` set one word each (empty when
      missing), `allow_methods` appends every following word, and any
      other first word is ignored. */
  function LocationStep(loc: Location, line: string): (r: Location)
    ensures r.path == loc.path && r.index == loc.index
    ensures loc.allowedMethods <= r.allowedMethods
  {
    var (key, st) := KeyOf(line);
    if key == "root" then loc.(root := WordOrEmpty(st))
    else if key == "cgi_extension" then loc.(cgiExtension := WordOrEmpty(st))
    else if key == "cgi_path" then loc.(cgiPath := WordOrEmpty(st))
    else if key == "allow_methods" then loc.(allowedMethods := loc.allowedMethods + Words(st.rest))
    else loc
  }

  /** What `parseLocationBlock` makes of the lines from `i` on, starting
      from `loc`: the location, and the index of the first line it did not
      consume. */
  function LocationLines(loc: Location, lines: seq<string>, i: nat): (r: (Location, nat))
    requires i <= |lines|
    decreases |lines| - i
    ensures i <= r.1 <= |lines|
  {
    if i == |lines| then (loc, i)
    else if KeyOf(lines[i]).0 == "}" then (loc, i + 1)
    else LocationLines(LocationStep(loc, lines[i]), lines, i + 1)
  }

  /** The effect on `s` of one line `loadConfig` reads, other than a
      `location` line. A failed extraction of `port`, `root` or `index`
      leaves the field as it was; other first words are ignored. */
  function LoadStep(s: Server, line: string): (r: Server)
    ensures r.serverName == s.serverName && r.clientMaxBodySize == s.clientMaxBodySize
    ensures r.errorPages == s.errorPages && r.locations == s.locations
  {
    var (key, st) := KeyOf(line);
    if key == "listen" then s.(port := ReadInt(st).1.GetOr(s.port))
    else if key == "root" then s.(root := ReadWord(st).1.GetOr(s.root))
    else if key == "index" then s.(index := ReadWord(st).1.GetOr(s.index))
    else s
  }

  /** What `loadConfig` makes of `s` reading the lines from `i` on: a
      `location <path>` line hands the following lines to
      `parseLocationBlock` and appends the location it reads. */
  function LoadLines(s: Server, lines: seq<string>, i: nat): (r: Server)
    requires i <= |lines|
    decreases |lines| - i
    ensures r.serverName == s.serverName && r.clientMaxBodySize == s.clientMaxBodySize
    ensures r.errorPages == s.errorPages && s.locations <= r.locations
  {
    if i == |lines| then s
    else
      var (key, st) := KeyOf(lines[i]);
      if key == "location" then
        var (loc, next) := LocationLines(DefaultLocation.(path := WordOrEmpty(st)), lines, i + 1);
        LoadLines(s.(locations := s.locations + [loc]), lines, next)
      else LoadLines(LoadStep(s, lines[i]), lines, i + 1)
  }

  lemma LocationLinesOther(loc: Location, lines: seq<string>, i: nat)
    requires i < |lines| && KeyOf(lines[i]).0 != "}"
    ensures LocationLines(loc, lines, i) == LocationLines(LocationStep(loc, lines[i]), lines, i + 1)
  {
  }

  lemma LoadLinesLocation(s: Server, lines: seq<string>, i: nat)
    requires i < |lines| && KeyOf(lines[i]).0 == "location"
    ensures var r := LocationLines(DefaultLocation.(path := WordOrEmpty(KeyOf(lines[i]).1)), lines, i + 1);
      LoadLines(s, lines, i) == LoadLines(s.(locations := s.locations + [r.0]), lines, r.1)
  {
  }

  lemma LoadLinesOther(s: Server, lines: seq<string>, i: nat)
    requires i < |lines| && KeyOf(lines[i]).0 != "location"
    ensures LoadLines(s, lines, i) == LoadLines(LoadStep(s, lines[i]), lines, i + 1)
  {
  }

  class ServerConfig {
    var port: int
    var serverName: string
    var clientMaxBodySize: nat
    var errorPages: IntMap.Map<string>
    var locations: seq<Location>
    var root: string
    var index: string

    ghost predicate Valid()
      reads this
    {
      IntMap.Sorted(errorPages)
    }

    function Value(): Server
      reads this
    {
      Server(port, serverName, clientMaxBodySize, errorPages, locations, root, index)
    }

    constructor ()
      ensures Valid() && Value() == DefaultServer
    {
      port, serverName, clientMaxBodySize, errorPages := 8080, [], 1048576, [];
      locations, root, index := [], [], "index.html";
    }

    /** `ServerConfig(configFilePath)` on a file that opens: the body
        limit is not initialised, so nothing is promised about it. */
    constructor FromFile(lines: seq<string>)
      ensures Valid() && Value() == LoadLines(FileDefaults(clientMaxBodySize), lines, 0)
    {
      port, serverName, errorPages := 8080, [], [];
      locations, root, index := [], [], [];
      new;
      var ok := LoadConfig(Some(lines));
    }

    method SetPort(p: int)
      modifies this`port
      ensures Value() == old(Value()).(port := p)
    {
      port := p;
    }

    method SetServerName(name: string)
      modifies this`serverName
      ensures Value() == old(Value()).(serverName := name)
    {
      serverName := name;
    }

    method SetClientMaxBodySize(size: nat)
      modifies this`clientMaxBodySize
      ensures Value() == old(Value()).(clientMaxBodySize := size)
    {
      clientMaxBodySize := size;
    }

    /** `error_pages[code] = path`: an existing code gets the new path. */
    method AddErrorPage(code: int, path: string)
      requires Valid()
      modifies this`errorPages
      ensures Valid() && Value() == old(Value()).(errorPages := IntMap.Put(old(errorPages), code, path))
      ensures IntMap.Get(errorPages, code) == Some(path)
      ensures forall c :: c != code ==> IntMap.Get(errorPages, c) == IntMap.Get(old(errorPages), c)
    {
      errorPages := IntMap.Put(errorPages, code, path);
    }

    /** Appends, keeping the earlier locations in order. */
    method AddLocation(location: Location)
      modifies this`locations
      ensures Value() == old(Value()).(locations := old(locations) + [location])
    {
      locations := locations + [location];
    }

    method SetRoot(r: string)
      modifies this`root
      ensures Value() == old(Value()).(root := r)
    {
      root := r;
    }

    method SetIndex(i: string)
      modifies this`index
      ensures Value() == old(Value()).(index := i)
    {
      index := i;
    }

    function GetPort(): (r: int) reads this ensures r == Value().port { port }
    function GetServerName(): (r: string) reads this ensures r == Value().serverName { serverName }
    function GetClientMaxBodySize(): (r: nat) reads this ensures r == Value().clientMaxBodySize { clientMaxBodySize }
    function GetErrorPages(): (r: IntMap.Map<string>) reads this ensures r == Value().errorPages { errorPages }
    function GetLocations(): (r: seq<Location>) reads this ensures r == Value().locations { locations }
    function GetRoot(): (r: string) reads this ensures r == Value().root { root }
    function GetIndex(): (r: string) reads this ensures r == Value().index { index }

    /** `loadConfig`: `file` is None when the file cannot be opened, where
        the source throws before changing anything. */
    method LoadConfig(file: Option<seq<string>>) returns (ok: bool)
      modifies this`port, this`root, this`index, this`locations
      ensures ok == file.Some?
      ensures Value() == if file.Some? then LoadLines(old(Value()), file.value, 0) else old(Value())
    {
      if file.None? {
        return false;
      }
      var lines := file.value;
      var i := 0;
      while i < |lines|
        invariant 0 <= i <= |lines|
        invariant LoadLines(Value(), lines, i) == LoadLines(old(Value()), lines, 0)
        decreases |lines| - i
      {
        var (key, st) := KeyOf(lines[i]);
        ghost var before := Value();
        if key == "location" {
          var next := ParseLocationBlock(lines, i + 1, WordOrEmpty(st));
          LoadLinesLocation(before, lines, i);
          i := next;
        } else {
          ReadSetting(lines[i]);
          LoadLinesOther(before, lines, i);
          i := i + 1;
        }
      }
      return true;
    }

    /** One pass of the loop of `loadConfig` on a line that is not a
        `location` line. */
    method ReadSetting(line: string)
      modifies this`port, this`root, this`index
      ensures Value() == LoadStep(old(Value()), line)
    {
      var (key, st) := KeyOf(line);
      if key == "listen" {
        var (_, p) := ReadInt(st);
        if p.Some? {
          port := p.value;
        }
      } else if key == "root" {
        var (_, w) := ReadWord(st);
        if w.Some? {
          root := w.value;
        }
      } else if key == "index" {
        var (_, w) := ReadWord(st);
        if w.Some? {
          index := w.value;
        }
      }
    }

    /** `parseLocationBlock`: reads the location's lines from index `i` up
        to a line whose first word is `}` or to the end of the file, and
        appends the location in both cases; returns the index of the first
        line not consumed. */
    method ParseLocationBlock(lines: seq<string>, i: nat, path: string) returns (next: nat)
      requires i <= |lines|
      modifies this`locations
      ensures var (loc, n) := LocationLines(DefaultLocation.(path := path), lines, i);
        Value() == old(Value()).(locations := old(locations) + [loc]) && next == n
    {
      var loc;
      loc, next := ReadLocationBlock(lines, i, path);
      locations := locations + [loc];
    }
  }

  /** Where the location reader stands after line `j`: a closed block is
      finished, an open one goes on reading. */
  function ResumeBlock(loc: Location, lines: seq<string>, j: nat, closed: bool): (Location, nat)
    requires j <= |lines|
  {
    if closed then (loc, j) else LocationLines(loc, lines, j)
  }

  /** The loop of `parseLocationBlock`, filling a fresh `LocationConfig`
      that starts with the path of the `location` line. */
  method ReadLocationBlock(lines: seq<string>, i: nat, path: string) returns (loc: Location, next: nat)
    requires i <= |lines|
    ensures (loc, next) == LocationLines(DefaultLocation.(path := path), lines, i)
  {
    var location := new LocationConfig();
    location.SetPath(path);
    var j := i;
    var closed := false;
    while j < |lines| && !closed
      invariant i <= j <= |lines|
      invariant ResumeBlock(location.Value(), lines, j, closed) == LocationLines(DefaultLocation.(path := path), lines, i)
      decreases |lines| - j
    {
      ghost var before := location.Value();
      if KeyOf(lines[j]).0 == "}" {
        closed := true;
      } else {
        ReadLocationSetting(location, lines[j]);
        LocationLinesOther(before, lines, j);
      }
      j := j + 1;
    }
    loc, next := location.Value(), j;
  }

  method ReadLocationSetting(location: LocationConfig, line: string)
    modifies location`root, location`cgiExtension, location`cgiPath, location`allowedMethods
    ensures location.Value() == LocationStep(old(location.Value()), line)
  {
    var (key, st) := KeyOf(line);
    if key == "root" {
      location.SetRoot(WordOrEmpty(st));
    } else if key == "cgi_extension" {
      location.SetCgiExtension(WordOrEmpty(st));
    } else if key == "cgi_path" {
      location.SetCgiPath(WordOrEmpty(st));
    } else if key == "allow_methods" {
      ReadAllowedMethods(location, st);
    }
  }

  /** A location read by `parseLocationBlock` keeps the path it was
      started with and its index (no key of the block sets either), and
      keeps the methods it had, in front of those the block adds. */
  lemma {:induction false} LocationLinesKeep(loc: Location, lines: seq<string>, i: nat)
    requires i <= |lines|
    decreases |lines| - i
    ensures var r := LocationLines(loc, lines, i).0;
      r.path == loc.path && r.index == loc.index && loc.allowedMethods <= r.allowedMethods
  {
    if i < |lines| && KeyOf(lines[i]).0 != "}" {
      LocationLinesKeep(LocationStep(loc, lines[i]), lines, i + 1);
    }
  }

  /** The index just after the first line from `i` on whose first word is
      `}`, or the end of the file when there is none. */
  function BlockEnd(lines: seq<string>, i: nat): (n: nat)
    requires i <= |lines|
    decreases |lines| - i
    ensures i <= n <= |lines|
    ensures forall j :: i <= j < n - 1 ==> KeyOf(lines[j]).0 != "}"
    ensures n == |lines| || (i < n && KeyOf(lines[n - 1]).0 == "}")
  {
    if i == |lines| then i
    else if KeyOf(lines[i]).0 == "}" then i + 1
    else BlockEnd(lines, i + 1)
  }

  /** A location block ends just after the first line whose first word is
      `}`; without such a line it runs to the end of the file. */
  lemma {:induction false} LocationLinesEnd(loc: Location, lines: seq<string>, i: nat)
    requires i <= |lines|
    decreases |lines| - i
    ensures LocationLines(loc, lines, i).1 == BlockEnd(lines, i)
  {
    if i < |lines| && KeyOf(lines[i]).0 != "}" {
      LocationLinesEnd(LocationStep(loc, lines[i]), lines, i + 1);
    }
  }

  /** `loadConfig` never touches the server name, the body limit or the
      error pages, and only appends to the locations. */
  lemma {:induction false} LoadLinesKeep(s: Server, lines: seq<string>, i: nat)
    requires i <= |lines|
    decreases |lines| - i
    ensures var r := LoadLines(s, lines, i);
      r.serverName == s.serverName && r.clientMaxBodySize == s.clientMaxBodySize &&
      r.errorPages == s.errorPages && s.locations <= r.locations
  {
    if i < |lines| {
      var (key, st) := KeyOf(lines[i]);
      if key == "location" {
        var (loc, next) := LocationLines(DefaultLocation.(path := WordOrEmpty(st)), lines, i + 1);
        LoadLinesKeep(s.(locations := s.locations + [loc]), lines, next);
      } else {
        LoadLinesKeep(LoadStep(s, lines[i]), lines, i + 1);
      }
    }
  }

  /** Lines whose first word is none of `listen`, `root`, `index` and
      `location` change nothing. */
  lemma {:induction false} LoadLinesIgnores(s: Server, lines: seq<string>, i: nat)
    requires i <= |lines|
    requires forall j :: i <= j < |lines| ==> KeyOf(lines[j]).0 !in {"listen", "root", "index", "location"}
    decreases |lines| - i
    ensures LoadLines(s, lines, i) == s
  {
    if i < |lines| {
      LoadLinesIgnores(s, lines, i + 1);
    }
  }

  /** `root <word>` sets the root to that word. */
  lemma LoadRoot(s: Server, w: string)
    requires IsWord(w)
    ensures LoadLines(s, ["root " + w], 0) == s.(root := w)
  {
    assert "root " + w == "root" + " " + w;
    ReadWordSpaced("root", w);
    ReadLastWord(w);
  }

  /** `loadConfig` strips no comment: a `#` and what follows it stay in
      the root. */
  lemma LoadRootKeepsComment(s: Server)
    ensures LoadLines(s, ["root /www#old"], 0).root == "/www#old"
  {
    assert "root /www#old" == "root " + "/www#old";
    LoadRoot(s, "/www#old");
  }

  /** A `listen` line sets the port to the number written. */
  lemma LoadListen(s: Server, lines: seq<string>, i: nat, p: int)
    requires i < |lines| && lines[i] == "listen " + IntToString(p) && INT_MIN <= p <= INT_MAX
    ensures LoadLines(s, lines, i) == LoadLines(s.(port := p), lines, i + 1)
  {
    assert lines[i] == "listen" + " " + IntToString(p);
    ReadWordSpaced("listen", IntToString(p));
    ReadIntSpaced(p);
  }

  /** A later `listen` line overwrites the port an earlier one set. */
  lemma LoadListenTwice(s: Server, a: int, b: int)
    requires INT_MIN <= a <= INT_MAX && INT_MIN <= b <= INT_MAX
    ensures LoadLines(s, ["listen " + IntToString(a), "listen " + IntToString(b)], 0) == s.(port := b)
  {
    var lines := ["listen " + IntToString(a), "listen " + IntToString(b)];
    LoadListen(s, lines, 0, a);
    LoadListen(s.(port := a), lines, 1, b);
    assert LoadLines(s.(port := b), lines, 2) == s.(port := b);
  }

  /** `location <path>` records the path, and the location is appended
      even when the file ends before its `}`. */
  lemma LoadLocationAtEnd(s: Server, p: string)
    requires IsWord(p)
    ensures LoadLines(s, ["location " + p], 0) == s.(locations := s.locations + [DefaultLocation.(path := p)])
  {
    assert "location " + p == "location" + " " + p;
    ReadWordSpaced("location", p);
    ReadLastWord(p);
  }

  /** `allow_methods` appends every following word, in order. */
  lemma LocationAllowMethods(loc: Location, rest: string)
    ensures LocationLines(loc, ["allow_methods " + rest], 0).0 ==
      loc.(allowedMethods := loc.allowedMethods + Words(rest))
  {
    var line := "allow_methods " + rest;
    assert line == "allow_methods" + " " + rest;
    ReadWordSpaced("allow_methods", rest);
    WordsSpaced(rest);
    LocationLinesOther(loc, [line], 0);
  }
}
