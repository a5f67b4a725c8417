/** The TypeScript information page: request facts with `||` defaults, the
    whitelist filter over the environment, the uptime split and the theme
    palette. The page interpolates every value raw, so no escaping
    property is claimed for it. */
module InfoTsScript {
  import opened Wrappers
  import Assoc
  import Ts = TsTestScript

  /** The request facts the page shows. */
  datatype RequestInfo = RequestInfo(
    requestMethod: string, protocol: string, serverName: string,
    serverPort: string, remoteAddr: string, queryString: string)

  /** `getRequestInfo`: each variable, or its default when it is absent or
      empty. */
  function GetRequestInfo(env: Assoc.Table): (r: RequestInfo)
    ensures r.requestMethod != [] && r.protocol != [] && r.serverName != [] &&
            r.serverPort != [] && r.remoteAddr != []
  {
    RequestInfo(
      Ts.OrElse(env, "REQUEST_METHOD", "GET"), Ts.OrElse(env, "SERVER_PROTOCOL", "HTTP/1.1"),
      Ts.OrElse(env, "SERVER_NAME", "localhost"), Ts.OrElse(env, "SERVER_PORT", "8080"),
      Ts.OrElse(env, "REMOTE_ADDR", "127.0.0.1"), Ts.OrElse(env, "QUERY_STRING", ""))
  }

  /** Absent or empty: what `||` treats as missing. */
  predicate Missing(env: Assoc.Table, name: string) {
    Assoc.Lookup(env, name).None? || Assoc.Lookup(env, name) == Some([])
  }

  /** With every variable missing, every fact is its default. */
  lemma AllDefaults(env: Assoc.Table)
    requires Missing(env, "REQUEST_METHOD") && Missing(env, "SERVER_PROTOCOL")
    requires Missing(env, "SERVER_NAME") && Missing(env, "SERVER_PORT")
    requires Missing(env, "REMOTE_ADDR") && Missing(env, "QUERY_STRING")
    ensures GetRequestInfo(env) == RequestInfo("GET", "HTTP/1.1", "localhost", "8080", "127.0.0.1", "")
  {
  }

  /** A variable that is set and non-empty is shown as it is. */
  lemma SetValuesShown(env: Assoc.Table, m: string, p: string, n: string, port: string, a: string, q: string)
    requires Assoc.Lookup(env, "REQUEST_METHOD") == Some(m) && m != []
    requires Assoc.Lookup(env, "SERVER_PROTOCOL") == Some(p) && p != []
    requires Assoc.Lookup(env, "SERVER_NAME") == Some(n) && n != []
    requires Assoc.Lookup(env, "SERVER_PORT") == Some(port) && port != []
    requires Assoc.Lookup(env, "REMOTE_ADDR") == Some(a) && a != []
    requires Assoc.Lookup(env, "QUERY_STRING") == Some(q) && q != []
    ensures GetRequestInfo(env) == RequestInfo(m, p, n, port, a, q)
  {
  }

  const Vuota: string := "(vuota)"

  /** The query-string cell: `queryString || '(vuota)'`. */
  function QueryCell(queryString: string): (r: string)
    ensures r != []
    ensures queryString != [] ==> r == queryString
  {
    if queryString != [] then queryString else Vuota
  }

  /** A missing query string is shown as `(vuota)`, a present one as it
      is. */
  lemma QueryCellShown(env: Assoc.Table)
    ensures Missing(env, "QUERY_STRING") ==> QueryCell(GetRequestInfo(env).queryString) == Vuota
    ensures !Missing(env, "QUERY_STRING") ==>
      Some(QueryCell(GetRequestInfo(env).queryString)) == Assoc.Lookup(env, "QUERY_STRING")
  {
  }

  const HttpPrefix: string := "HTTP_"
  const Whitelist: seq<string> := ["REMOTE_ADDR", "REQUEST_METHOD", "QUERY_STRING"]

  /** A name the filter looks at: an `HTTP_` header variable or one of
      three request variables. */
  predicate Qualifies(name: string) {
    HttpPrefix <= name || name in Whitelist
  }

  /** An entry the filter keeps: a qualifying name with a non-empty value. */
  predicate Kept(e: (string, string)) {
    Qualifies(e.0) && e.1 != []
  }

  /** The entries the filter keeps, in environment order. */
  function Filter(env: Assoc.Table): (r: Assoc.Table)
    ensures |r| <= |env|
    decreases |env|
  {
    if env == [] then []
    else
      var last := env[|env| - 1];
      Filter(env[..|env| - 1]) + (if Kept(last) then [last] else [])
  }

  /** Everything the filter keeps is an entry of the environment that
      qualifies and has a non-empty value. */
  lemma {:induction false} FilterSound(env: Assoc.Table)
    decreases |env|
    ensures forall j :: 0 <= j < |Filter(env)| ==> Kept(Filter(env)[j]) && Filter(env)[j] in env
  {
    if env != [] {
      var init := env[..|env| - 1];
      FilterSound(init);
      assert forall e :: e in init ==> e in env;
    }
  }

  /** Every qualifying entry with a non-empty value is kept. */
  lemma {:induction false} FilterComplete(env: Assoc.Table, i: int)
    requires 0 <= i < |env| && Kept(env[i])
    decreases |env|
    ensures env[i] in Filter(env)
  {
    var init := env[..|env| - 1];
    if i < |env| - 1 {
      assert init[i] == env[i];
      FilterComplete(init, i);
    }
  }

  /** The filter's result is part of the environment: in an environment
      without repeated names, every kept name has its environment value. */
  lemma FilterSubMap(env: Assoc.Table, name: string)
    requires Assoc.UniqueNames(env)
    ensures Assoc.Lookup(Filter(env), name).Some? ==>
      Assoc.Lookup(Filter(env), name) == Assoc.Lookup(env, name) && Qualifies(name)
    ensures Assoc.Lookup(Filter(env), name).None? && Assoc.Lookup(env, name).Some? ==>
      !Qualifies(name) || Assoc.Lookup(env, name) == Some([])
  {
    var f := Filter(env);
    FilterSound(env);
    match Assoc.Lookup(f, name)
    case Some(v) =>
      var j :| 0 <= j < |f| && f[j] == (name, v);
      var i :| 0 <= i < |env| && env[i] == f[j];
      Assoc.LookupUnique(env, i);
    case None =>
      match Assoc.Lookup(env, name)
      case Some(v) =>
        var i :| 0 <= i < |env| && env[i] == (name, v);
        Assoc.LookupUnique(env, i);
        if Kept(env[i]) {
          FilterComplete(env, i);
        }
      case None =>
  }

  /** `getEnvironmentVariables`: the `for ... of` over the environment,
      writing each kept entry into `filtered`. */
  method GetEnvironmentVariables(env: Assoc.Table) returns (filtered: Assoc.Table)
    requires Assoc.UniqueNames(env)
    ensures filtered == Filter(env)
  {
    filtered := [];
    var i := 0;
    while i < |env|
      invariant 0 <= i <= |env|
      invariant filtered == Filter(env[..i])
    {
      var (key, value) := env[i];
      assert env[..i + 1][..i] == env[..i];
      if Qualifies(key) && value != [] {
        FilterSound(env[..i]);
        forall j | 0 <= j < |filtered|
          ensures filtered[j].0 != key
        {
          var k :| 0 <= k < i && env[k] == filtered[j];
        }
        filtered := Assoc.Assign(filtered, key, value);
      }
      i := i + 1;
    }
    assert env[..i] == env;
  }

  /** The uptime split: whole hours, then minutes and seconds below 60. */
  function Uptime(u: nat): (hms: (nat, nat, nat))
    ensures hms.1 < 60 && hms.2 < 60
    ensures 3600 * hms.0 + 60 * hms.1 + hms.2 == u
  {
    (u / 3600, (u % 3600) / 60, u % 60)
  }

  /** The split is the only one with minutes and seconds below 60. */
  lemma UptimeUnique(u: nat, h: nat, m: nat, s: nat)
    requires m < 60 && s < 60 && 3600 * h + 60 * m + s == u
    ensures Uptime(u) == (h, m, s)
  {
    var (h', m', s') := Uptime(u);
    assert 60 * m + s < 3600 && 60 * m' + s' < 3600;
    assert h == h';
    assert 60 * m + s == 60 * m' + s';
  }

  const Colors: seq<string> := ["#3178c6", "#61dafb", "#764abc", "#ff584f", "#41b883"]

  /** `colors[Math.floor(Math.random() * colors.length)]` for a random
      number in [0, 1). */
  function ThemeColor(random: real): (c: string)
    requires 0.0 <= random < 1.0
    ensures c in Colors
  {
    var n := |Colors| as real;
    assert random * n < n;
    Colors[(random * n).Floor]
  }
}
