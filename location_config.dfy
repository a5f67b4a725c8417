/** `LocationConfig`: the settings of one `location` block, a value the
    configuration readers fill through its setters and then copy into a
    server's list of locations. */
module LocationSettings {
  import opened Wrappers
  import opened InputStream

  /** A location block's settings, as a value (what a copy of the object
      holds). */
  datatype Location = Location(path: string, root: string, cgiExtension: string, cgiPath: string,
                               allowedMethods: seq<string>, index: string)

  /** A new location: index `index.html`, every other text empty, no
      allowed method. */
  const DefaultLocation: Location := Location([], [], [], [], [], "index.html")

  class LocationConfig {
    var path: string
    var root: string
    var cgiExtension: string
    var cgiPath: string
    var allowedMethods: seq<string>
    var index: string

    function Value(): Location
      reads this
    {
      Location(path, root, cgiExtension, cgiPath, allowedMethods, index)
    }

    constructor ()
      ensures Value() == DefaultLocation
    {
      path, root, cgiExtension, cgiPath, allowedMethods, index := [], [], [], [], [], "index.html";
    }

    method SetPath(p: string)
      modifies this`path
      ensures Value() == old(Value()).(path := p)
    {
      path := p;
    }

    method SetRoot(r: string)
      modifies this`root
      ensures Value() == old(Value()).(root := r)
    {
      root := r;
    }

    method SetCgiExtension(e: string)
      modifies this`cgiExtension
      ensures Value() == old(Value()).(cgiExtension := e)
    {
      cgiExtension := e;
    }

    method SetCgiPath(p: string)
      modifies this`cgiPath
      ensures Value() == old(Value()).(cgiPath := p)
    {
      cgiPath := p;
    }

    /** Appends, keeping duplicates and the order of insertion. */
    method AddAllowedMethod(m: string)
      modifies this`allowedMethods
      ensures Value() == old(Value()).(allowedMethods := old(allowedMethods) + [m])
    {
      allowedMethods := allowedMethods + [m];
    }

    method SetIndex(i: string)
      modifies this`index
      ensures Value() == old(Value()).(index := i)
    {
      index := i;
    }

    function GetPath(): (r: string) reads this ensures r == Value().path { path }
    function GetRoot(): (r: string) reads this ensures r == Value().root { root }
    function GetCgiExtension(): (r: string) reads this ensures r == Value().cgiExtension { cgiExtension }
    function GetCgiPath(): (r: string) reads this ensures r == Value().cgiPath { cgiPath }
    function GetAllowedMethods(): (r: seq<string>) reads this ensures r == Value().allowedMethods { allowedMethods }
    function GetIndex(): (r: string) reads this ensures r == Value().index { index }
  }

  /** The loop `while (iss >> method) location.addAllowedMethod(method);`
      of both configuration readers: every remaining word is appended, in
      order. */
  method ReadAllowedMethods(location: LocationConfig, st: Stream)
    requires !st.failed
    modifies location`allowedMethods
    ensures location.Value() == old(location.Value()).(allowedMethods := old(location.allowedMethods) + Words(st.rest))
  {
    var s := st;
    while true
      invariant !s.failed
      invariant location.Value() == old(location.Value()).(allowedMethods := location.allowedMethods)
      invariant location.allowedMethods + Words(s.rest) == old(location.allowedMethods) + Words(st.rest)
      decreases |Words(s.rest)|
    {
      ReadWordStep(s.rest);
      var (next, m) := ReadWord(s);
      if m.None? {
        break;
      }
      location.AddAllowedMethod(m.value);
      s := next;
    }
  }
}
