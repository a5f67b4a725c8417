/** `CGIExecutor`: the parts of running a CGI script (RFC 3875) that do
    not touch processes. It finds the script under the location's root,
    builds the script's meta-variables and argument vector, checks how
    the script ended, and repairs the header section of its output. The
    pipes, `fork`, `execve`, `select` and `waitpid` are not modelled:
    their results come in as parameters. */
module CgiExecution {
  import opened Wrappers
  import opened Text
  import SortedMap
  import FileHandler
  import opened LocationSettings
  import opened Framing

  /** What the executor reads from the request: `getMethod`, `getPath`,
      `getQueryString`, and the `Content-Type` and `Content-Length`
      header values. */
  datatype CgiRequest = CgiRequest(httpMethod: string, path: string, queryString: string,
                                   contentType: string, contentLength: string)

  /** The characters `extractDirectory` splits at. */
  const Separators: set<char> := {'/', '\\'}

  /** `extractDirectory`: the text before the last `/` or `\`, or ""
      when the path holds neither. */
  function ExtractDirectory(path: string): (r: string)
    ensures r <= path
    ensures (forall j :: 0 <= j < |path| ==> path[j] !in Separators) ==> r == []
    ensures (exists j :: 0 <= j < |path| && path[j] in Separators) ==>
      |r| < |path| && path[|r|] in Separators &&
      forall j :: |r| < j < |path| ==> path[j] !in Separators
  {
    match FindLastOf(path, Separators)
    case None => []
    case Some(k) => path[..k]
  }

  /** The directory part of `dir/name` is `dir` when `name` holds no
      separator. */
  lemma DirectoryOfJoined(dir: string, name: string)
    requires forall j :: 0 <= j < |name| ==> name[j] !in Separators
    ensures ExtractDirectory(dir + "/" + name) == dir
  {
    var p := dir + "/" + name;
    assert p[|dir|] == '/';
    assert forall j :: |dir| < j < |p| ==> p[j] == name[j - |dir| - 1];
    assert p[..|dir|] == dir;
  }

  /** The root as `getScriptPath` completes it: with a final `/`. */
  function BasePath(root: string): (r: string)
    requires root != []
    ensures r != [] && r[|r| - 1] == '/'
    ensures r == root || r == root + "/"
  {
    if root[|root| - 1] != '/' then root + "/" else root
  }

  /** The request path as `getScriptPath` reads it: without one leading
      `/`. */
  function RelativePath(path: string): (r: string)
    requires path != []
    ensures path == r || path == "/" + r
  {
    if path[0] == '/' then path[1..] else path
  }

  /** The file `getScriptPath` names. */
  function ScriptFile(root: string, path: string): (p: string)
    requires root != [] && path != []
    ensures FileHandler.Clean(p) && |p| <= |root| + |path| + 1
  {
    FileHandler.Sanitized(BasePath(root) + RelativePath(path))
  }

  /** The script path lies inside the sanitised root directory: that
      directory, which ends in `/`, is a prefix of it. The path is clean,
      but `..` segments in the request survive. */
  lemma ScriptUnderRoot(root: string, path: string)
    requires root != [] && path != []
    ensures var d := FileHandler.Sanitized(BasePath(root));
      d != [] && d[|d| - 1] == '/' && d <= ScriptFile(root, path) && FileHandler.Clean(ScriptFile(root, path))
  {
    FileHandler.SanitizedExtends(BasePath(root), RelativePath(path));
    FileHandler.SanitizedKeepsFinalSlash(BasePath(root));
  }

  /** The thirteen assignments `setupEnvironment` makes to `env_map`, in
      the order of the source. */
  function EnvAssignments(req: CgiRequest, scriptPath: string, root: string): seq<(string, string)> {
    [("REQUEST_METHOD", req.httpMethod), ("SCRIPT_NAME", req.path), ("SCRIPT_FILENAME", scriptPath),
     ("PATH_TRANSLATED", scriptPath), ("PATH_INFO", ""), ("QUERY_STRING", req.queryString),
     ("CONTENT_TYPE", req.contentType), ("CONTENT_LENGTH", req.contentLength),
     ("SERVER_PROTOCOL", "HTTP/1.1"), ("SERVER_NAME", "localhost"), ("SERVER_PORT", "8080"),
     ("REMOTE_ADDR", "127.0.0.1"), ("DOCUMENT_ROOT", root)]
  }

  /** `env_map`, a `std::map`: its entries in ascending name order. */
  function EnvMap(req: CgiRequest, scriptPath: string, root: string): (m: SortedMap.Map<string>)
    ensures SortedMap.Sorted(m)
  {
    SortedMap.PutAll([], EnvAssignments(req, scriptPath, root))
  }

  /** No name is assigned twice. */
  lemma EnvNamesFresh(req: CgiRequest, scriptPath: string, root: string)
    ensures SortedMap.FreshNames([], EnvAssignments(req, scriptPath, root))
  {
  }

  /** Each assignment's value is the one the environment holds for its
      name: no name is assigned twice. */
  lemma EnvValue(req: CgiRequest, scriptPath: string, root: string, i: int)
    requires 0 <= i < 13
    ensures var es := EnvAssignments(req, scriptPath, root);
      SortedMap.Get(EnvMap(req, scriptPath, root), es[i].0) == Some(es[i].1)
  {
    EnvNamesFresh(req, scriptPath, root);
    SortedMap.PutAllLastWins([], EnvAssignments(req, scriptPath, root), i);
  }

  /** The environment has one entry per assignment: thirteen, since no
      name is assigned twice. */
  lemma EnvMapSize(req: CgiRequest, scriptPath: string, root: string)
    ensures |EnvMap(req, scriptPath, root)| == 13
  {
    EnvNamesFresh(req, scriptPath, root);
    SortedMap.PutAllFresh([], EnvAssignments(req, scriptPath, root));
  }

  /** The meta-variables of section 4.1 of RFC 3875 that the server fixes,
      and the script path under both of its names. */
  lemma EnvFixedValues(req: CgiRequest, scriptPath: string, root: string)
    ensures var m := EnvMap(req, scriptPath, root);
      SortedMap.Get(m, "SERVER_PROTOCOL") == Some("HTTP/1.1") &&
      SortedMap.Get(m, "PATH_INFO") == Some("") &&
      SortedMap.Get(m, "SCRIPT_FILENAME") == Some(scriptPath) &&
      SortedMap.Get(m, "PATH_TRANSLATED") == Some(scriptPath)
  {
    var es := EnvAssignments(req, scriptPath, root);
    assert es[8] == ("SERVER_PROTOCOL", "HTTP/1.1");
    assert es[4] == ("PATH_INFO", "");
    assert es[2] == ("SCRIPT_FILENAME", scriptPath);
    assert es[3] == ("PATH_TRANSLATED", scriptPath);
    EnvValue(req, scriptPath, root, 8);
    EnvValue(req, scriptPath, root, 4);
    EnvValue(req, scriptPath, root, 2);
    EnvValue(req, scriptPath, root, 3);
  }

  /** The meta-variables taken from the request and the location. */
  lemma EnvRequestValues(req: CgiRequest, scriptPath: string, root: string)
    ensures var m := EnvMap(req, scriptPath, root);
      SortedMap.Get(m, "REQUEST_METHOD") == Some(req.httpMethod) &&
      SortedMap.Get(m, "SCRIPT_NAME") == Some(req.path) &&
      SortedMap.Get(m, "QUERY_STRING") == Some(req.queryString) &&
      SortedMap.Get(m, "CONTENT_TYPE") == Some(req.contentType) &&
      SortedMap.Get(m, "CONTENT_LENGTH") == Some(req.contentLength) &&
      SortedMap.Get(m, "DOCUMENT_ROOT") == Some(root)
  {
    EnvRequestLine(req, scriptPath, root);
    EnvRequestContent(req, scriptPath, root);
  }

  lemma EnvRequestLine(req: CgiRequest, scriptPath: string, root: string)
    ensures var m := EnvMap(req, scriptPath, root);
      SortedMap.Get(m, "REQUEST_METHOD") == Some(req.httpMethod) &&
      SortedMap.Get(m, "SCRIPT_NAME") == Some(req.path) &&
      SortedMap.Get(m, "QUERY_STRING") == Some(req.queryString)
  {
    var es := EnvAssignments(req, scriptPath, root);
    assert es[0] == ("REQUEST_METHOD", req.httpMethod);
    assert es[1] == ("SCRIPT_NAME", req.path);
    assert es[5] == ("QUERY_STRING", req.queryString);
    EnvValue(req, scriptPath, root, 0);
    EnvValue(req, scriptPath, root, 1);
    EnvValue(req, scriptPath, root, 5);
  }

  lemma EnvRequestContent(req: CgiRequest, scriptPath: string, root: string)
    ensures var m := EnvMap(req, scriptPath, root);
      SortedMap.Get(m, "CONTENT_TYPE") == Some(req.contentType) &&
      SortedMap.Get(m, "CONTENT_LENGTH") == Some(req.contentLength) &&
      SortedMap.Get(m, "DOCUMENT_ROOT") == Some(root)
  {
    var es := EnvAssignments(req, scriptPath, root);
    assert es[6] == ("CONTENT_TYPE", req.contentType);
    assert es[7] == ("CONTENT_LENGTH", req.contentLength);
    assert es[12] == ("DOCUMENT_ROOT", root);
    EnvValue(req, scriptPath, root, 6);
    EnvValue(req, scriptPath, root, 7);
    EnvValue(req, scriptPath, root, 12);
  }

  /** The `NAME=value` string of one entry. */
  function EnvEntry(e: (string, string)): string {
    e.0 + "=" + e.1
  }

  /** The `_env` array for `m`: one string per entry, in map order, then
      NULL (None). */
  function EnvArray(m: SortedMap.Map<string>): (a: seq<Option<string>>)
    ensures |a| == |m| + 1 && a[|m|] == None
    ensures forall k :: 0 <= k < |m| ==> a[k] == Some(EnvEntry(m[k]))
  {
    seq(|m|, k requires 0 <= k < |m| => Some(EnvEntry(m[k]))) + [None]
  }

  /** How the script ended, as `waitpid` reports it. */
  datatype WaitStatus = Exited(code: int) | Signaled(signal: int)

  /** The checks after `waitpid`: a non-zero exit status and a
      termination by a signal are errors. */
  function StatusError(status: WaitStatus): (r: Option<string>)
    ensures r.None? <==> status == Exited(0)
  {
    match status
    case Exited(code) => if code != 0 then Some("CGI script exited with status " + IntToString(code)) else None
    case Signaled(sig) => Some("CGI script terminated by signal " + IntToString(sig))
  }

  /** The header `execute` adds when the script wrote none. */
  const TypeField: string := "Content-Type: text/html"

  /** The end of `execute`: output without a blank line is all body, and
      gets a `text/html` header section; otherwise the header section
      gets a `Content-Type: text/html` line in front unless it already
      holds the exact text `Content-Type:`. */
  function FixOutput(output: string): (r: string)
    ensures r == output || r == TypeField + "\r\n" + output || r == TypeField + "\r\n\r\n" + output
  {
    match SplitAtBlank(output)
    case None =>
      TwoLineEnds(output);
      TypeField + "\r\n" + "\r\n" + output
    case Some((headers, body)) =>
      var p := if Contains(headers, "Content-Type:") then [] else TypeField + "\r\n";
      Prepended(p, headers, body);
      p + headers + Blank + body
  }

  lemma TwoLineEnds(output: string)
    ensures TypeField + "\r\n" + "\r\n" + output == TypeField + "\r\n\r\n" + output
  {
    assert "\r\n" + "\r\n" == "\r\n\r\n";
  }

  lemma Prepended(p: string, headers: string, body: string)
    ensures p + headers + Blank + body == p + (headers + Blank + body)
    ensures p == [] ==> p + headers + Blank + body == headers + Blank + body
  {
  }

  /** A header section whose first line is empty. */
  predicate OpensWithLineEnd(h: string) {
    |h| >= 2 && h[0] == '\r' && h[1] == '\n'
  }

  /** The same with the type line put straight in front of a header
      section that is empty or opens with an empty line, so that the
      CRLF already there ends the type line. */
  function FixOutputCorrected(output: string): (r: string)
    ensures r == output || r == TypeField + output ||
      r == TypeField + "\r\n" + output || r == TypeField + "\r\n\r\n" + output
  {
    match SplitAtBlank(output)
    case None => TypeField + "\r\n" + "\r\n" + output
    case Some((headers, body)) =>
      if Contains(headers, "Content-Type:") then headers + Blank + body
      else if headers == [] || OpensWithLineEnd(headers) then
        Prepended(TypeField, headers, body);
        TypeField + headers + Blank + body
      else TypeField + "\r\n" + headers + Blank + body
  }

  /** Output whose header section lacks `Content-Type:` and is empty or
      opens with an empty line: the output starts with CRLF, so the type
      line and the CRLF the source puts behind it form a blank line. */
  predicate LeadingEmptyLine(output: string) {
    SplitAtBlank(output).Some? &&
    var h := SplitAtBlank(output).value.0;
    (h == [] || OpensWithLineEnd(h)) && !Contains(h, "Content-Type:")
  }

  /** The correction changes exactly the outputs with a leading empty
      line. */
  lemma CorrectionOnlyForLeadingEmptyLine(output: string)
    ensures FixOutputCorrected(output) == FixOutput(output) <==> !LeadingEmptyLine(output)
  {
    if LeadingEmptyLine(output) {
      assert |FixOutput(output)| == |FixOutputCorrected(output)| + 2;
    }
  }

  lemma TypeFieldHasNoReturn()
    ensures NoCr(TypeField)
  {
  }

  /** Behind the lone type field, the blank line is the first one. */
  lemma TypeFieldThenBody(b: string)
    ensures SplitAtBlank(TypeField + Blank + b) == Some((TypeField, b))
  {
    var s := TypeField + Blank + b;
    TypeFieldHasNoReturn();
    forall j | 0 <= j < |TypeField|
      ensures !OccursAt(s, Blank, j)
    {
      assert s[j] == TypeField[j];
    }
    SplitAt(s, TypeField, b);
  }

  /** Output without a blank line becomes the body, behind a header
      section holding only the type field. */
  lemma FixOutputWithoutHeaders(output: string)
    requires SplitAtBlank(output).None?
    ensures SplitAtBlank(FixOutput(output)) == Some((TypeField, output))
    ensures SplitAtBlank(FixOutputCorrected(output)) == Some((TypeField, output))
  {
    assert TypeField + "\r\n" + "\r\n" + output == TypeField + Blank + output;
    TypeFieldThenBody(output);
  }

  /** Output whose header section already holds `Content-Type:` is
      passed on unchanged. */
  lemma FixOutputTyped(output: string)
    requires SplitAtBlank(output).Some? && Contains(SplitAtBlank(output).value.0, "Content-Type:")
    ensures FixOutput(output) == output && FixOutputCorrected(output) == output
  {
  }

  /** With a non-empty header section that lacks `Content-Type:` and
      does not start with an empty line, the fixed output holds the type
      line and the script's header section, and then the body byte for
      byte. */
  lemma FixOutputKeepsBody(output: string)
    requires SplitAtBlank(output).Some?
    requires var h := SplitAtBlank(output).value.0;
      h != [] && !(|h| >= 2 && h[0] == '\r' && h[1] == '\n') && !Contains(h, "Content-Type:")
    ensures var (h, b) := SplitAtBlank(output).value;
      SplitAtBlank(FixOutput(output)) == Some((TypeField + "\r\n" + h, b))
  {
    var (h, b) := SplitAtBlank(output).value;
    TypeFieldHasNoReturn();
    LineThenSplit(TypeField, h, b);
  }

  /** As written, a script output with an empty header section gets an
      extra empty line at the start of its body. */
  lemma EmptyHeadersShiftBody(b: string)
    ensures SplitAtBlank(Blank + b) == Some(([], b))
    ensures SplitAtBlank(FixOutput(Blank + b)) == Some((TypeField, "\r\n" + b))
  {
    SplitAt(Blank + b, [], b);
    assert TypeField + "\r\n" + [] + Blank + b == TypeField + Blank + ("\r\n" + b);
    TypeFieldThenBody("\r\n" + b);
  }

  /** As written, output with a leading empty line loses its header
      section: the blank line now ends right behind the type line, and
      the body read back is the output without its first CRLF, which is
      not the script's body. */
  lemma LeadingEmptyLineShiftsBody(output: string)
    requires LeadingEmptyLine(output)
    ensures |output| >= 2
    ensures SplitAtBlank(FixOutput(output)) == Some((TypeField, output[2..]))
    ensures output[2..] != SplitAtBlank(output).value.1
  {
    var (h, b) := SplitAtBlank(output).value;
    OpensWithLineEndOutput(output);
    var rest := output[2..];
    TypedOutput(output);
    JoinedBlank(rest);
    TypeFieldThenBody(rest);
  }

  lemma JoinedBlank(rest: string)
    ensures TypeField + "\r\n" + ("\r\n" + rest) == TypeField + Blank + rest
  {
    assert "\r\n" + "\r\n" == Blank;
  }

  /** A leading empty line puts a CRLF at the start of the output. */
  lemma OpensWithLineEndOutput(output: string)
    requires LeadingEmptyLine(output)
    ensures |output| >= 2 && output == "\r\n" + output[2..]
    ensures |output[2..]| > |SplitAtBlank(output).value.1|
  {
    var (h, b) := SplitAtBlank(output).value;
    if h == [] {
      assert output[..2] == Blank[..2];
    } else {
      assert output[..2] == h[..2];
    }
    assert output == output[..2] + output[2..];
  }

  /** Without `Content-Type:`, the source puts the type line and a CRLF
      in front of the whole output. */
  lemma TypedOutput(output: string)
    requires SplitAtBlank(output).Some? && !Contains(SplitAtBlank(output).value.0, "Content-Type:")
    ensures FixOutput(output) == TypeField + "\r\n" + output
  {
  }

  /** With the correction, every output keeps its body byte for byte
      behind a header section that holds `Content-Type:` and ends with
      the script's own header section. */
  lemma FixOutputCorrectedKeepsBody(output: string)
    requires SplitAtBlank(output).Some?
    ensures var (h, b) := SplitAtBlank(output).value;
      var fixed := SplitAtBlank(FixOutputCorrected(output));
      fixed.Some? && fixed.value.1 == b && Contains(fixed.value.0, "Content-Type:") &&
      (fixed.value.0 == h || fixed.value.0 == TypeField + h || fixed.value.0 == TypeField + "\r\n" + h)
  {
    var (h, b) := SplitAtBlank(output).value;
    TypeFieldHasNoReturn();
    if Contains(h, "Content-Type:") {
    } else if h == [] || OpensWithLineEnd(h) {
      PlainThenSplit(TypeField, output);
      assert TypeField + output == TypeField + h + Blank + b;
      var h' := TypeField + h;
      assert OccursAt(h', "Content-Type:", 0) by {
        assert h'[0..13] == "Content-Type:";
      }
    } else {
      LineThenSplit(TypeField, h, b);
      var h' := TypeField + "\r\n" + h;
      assert OccursAt(h', "Content-Type:", 0) by {
        assert h'[0..13] == "Content-Type:";
      }
    }
  }

  /** The executor for one request and the location that serves it. */
  class CgiExecutor {
    const request: CgiRequest
    const location: Location
    /** `_env`: None until `setupEnvironment` has run (the NULL pointer). */
    var env: Option<array<Option<string>>>

    constructor (request: CgiRequest, location: Location)
      ensures this.request == request && this.location == location && env.None?
    {
      this.request := request;
      this.location := location;
      env := None;
    }

    /** `getScriptPath`: `existing` holds the files `fileExists` accepts;
        a missing script is the exception the source throws. */
    method GetScriptPath(existing: set<string>) returns (r: Result<string, string>)
      requires location.root != [] && request.path != []
      ensures var p := ScriptFile(location.root, request.path);
        (r.Success? <==> p in existing) && (r.Success? ==> r.value == p)
    {
      var basePath := location.root;
      if basePath[|basePath| - 1] != '/' {
        basePath := basePath + "/";
      }
      var relativePath := request.path;
      if relativePath[0] == '/' {
        relativePath := relativePath[1..];
      }
      var scriptPath := FileHandler.SanitizePath(basePath + relativePath);
      if scriptPath !in existing {
        return Failure("CGI script not found: " + scriptPath);
      }
      return Success(scriptPath);
    }

    /** `setupEnvironment`: fills `env_map`, then copies it into a new
        array of `NAME=value` strings closed by NULL. */
    method SetupEnvironment(existing: set<string>) returns (ok: bool)
      requires location.root != [] && request.path != []
      modifies this`env
      ensures var p := ScriptFile(location.root, request.path);
        (ok <==> p in existing) &&
        (ok ==> env.Some? && fresh(env.value) && env.value[..] == EnvArray(EnvMap(request, p, location.root)))
      ensures !ok ==> env == old(env)
    {
      var sp := GetScriptPath(existing);
      if sp.Failure? {
        return false;
      }
      var envMap := SortedMap.PutAll([], EnvAssignments(request, sp.value, location.root));
      var a := new Option<string>[|envMap| + 1];
      var i := 0;
      while i < |envMap|
        invariant 0 <= i <= |envMap|
        invariant forall k :: 0 <= k < i ==> a[k] == Some(EnvEntry(envMap[k]))
      {
        a[i] := Some(envMap[i].0 + "=" + envMap[i].1);
        i := i + 1;
      }
      a[i] := None;
      env := Some(a);
      return true;
    }

    /** `createExecArgs`: the interpreter, the script, NULL. */
    method CreateExecArgs(existing: set<string>) returns (args: Option<array<Option<string>>>)
      requires location.root != [] && request.path != []
      ensures var p := ScriptFile(location.root, request.path);
        (args.Some? <==> p in existing) &&
        (args.Some? ==> fresh(args.value) && args.value[..] == [Some(location.cgiPath), Some(p), None])
    {
      var a := new Option<string>[3];
      var sp := GetScriptPath(existing);
      if sp.Failure? {
        return None;
      }
      a[0] := Some(location.cgiPath);
      a[1] := Some(sp.value);
      a[2] := None;
      return Some(a);
    }

    /** `execute`, with the process left out: `executable` is what
        `isExecutable` says, `chmodOk` whether `chmod` succeeds, and
        `status` and `output` are how the script ended and what it
        wrote. The output is repaired by the corrected fix-up, which
        differs from the one the source applies only when the script's
        output has a leading empty line. The environment is the one
        `setupEnvironment` builds. */
    method Execute(existing: set<string>, executable: bool, chmodOk: bool, status: WaitStatus, output: string)
      returns (r: Result<string, string>)
      requires location.root != [] && request.path != []
      modifies this`env
      ensures var p := ScriptFile(location.root, request.path);
        r.Success? <==> p in existing && (executable || chmodOk) && status == Exited(0)
      ensures r.Success? ==> r.value == FixOutputCorrected(output)
      ensures r.Success? && !LeadingEmptyLine(output) ==> r.value == FixOutput(output)
      ensures var p := ScriptFile(location.root, request.path);
        p in existing ==> env.Some? && fresh(env.value) && env.value[..] == EnvArray(EnvMap(request, p, location.root))
      ensures var p := ScriptFile(location.root, request.path);
        p !in existing ==> env == old(env)
    {
      var ok := SetupEnvironment(existing);
      if !ok {
        return Failure("CGI script not found");
      }
      var sp := GetScriptPath(existing);
      var scriptPath := sp.value;
      if !executable && !chmodOk {
        return Failure("CGI script not executable and couldn't set permissions: " + scriptPath);
      }
      var args := CreateExecArgs(existing);
      var error := StatusError(status);
      if error.Some? {
        return Failure(error.value);
      }
      CorrectionOnlyForLeadingEmptyLine(output);
      return Success(FixOutputCorrected(output));
    }
  }
}
