/** The PHP information page: the three fact tables with `??` defaults, the
    whitelist filter over `$_SERVER`, PHP's `htmlspecialchars` applied to
    every rendered label and value, and the theme palette. */
module InfoPhpScript {
  import opened Wrappers
  import opened Text
  import Assoc
  import Cpp = CppTestScript
  import InfoTs = InfoTsScript

  /** `$_SERVER[name] ?? fallback`: the fallback only when the key is
      absent; a present empty value is kept. */
  function OrDefault(server: Assoc.Table, name: string, fallback: string): (r: string)
    ensures Assoc.Lookup(server, name).Some? ==> r == Assoc.Lookup(server, name).value
    ensures Assoc.Lookup(server, name).None? ==> r == fallback
  {
    Assoc.Lookup(server, name).GetOr(fallback)
  }

  /** The labels of the request card, in order. */
  const Metodo: string := "Metodo"
  const RequestLabels: seq<string> :=
    [Metodo, "Protocollo", "Nome Server", "Porta Server", "IP Client", "Query String"]
  const RequestNames: seq<string> :=
    ["REQUEST_METHOD", "SERVER_PROTOCOL", "SERVER_NAME", "SERVER_PORT", "REMOTE_ADDR", "QUERY_STRING"]
  const RequestDefaults: seq<string> := ["GET", "HTTP/1.1", "localhost", "8080", "127.0.0.1", ""]

  /** `getRequestInfo`: one labelled entry per request variable. */
  function GetRequestInfo(server: Assoc.Table): (r: Assoc.Table)
    ensures |r| == |RequestLabels|
    ensures forall i :: 0 <= i < |r| ==> r[i] == (RequestLabels[i], OrDefault(server, RequestNames[i], RequestDefaults[i]))
  {
    seq(|RequestLabels|, i requires 0 <= i < |RequestLabels| =>
      (RequestLabels[i], OrDefault(server, RequestNames[i], RequestDefaults[i])))
  }

  /** Each request fact is its variable when the variable is set, even to
      the empty string, and its default only when it is absent. */
  lemma RequestFact(server: Assoc.Table, i: int)
    requires 0 <= i < |RequestLabels|
    ensures Assoc.Lookup(server, RequestNames[i]).Some? ==>
      GetRequestInfo(server)[i].1 == Assoc.Lookup(server, RequestNames[i]).value
    ensures Assoc.Lookup(server, RequestNames[i]).None? ==>
      GetRequestInfo(server)[i].1 == RequestDefaults[i]
  {
  }

  /** A request method set to the empty string stays empty, where the
      TypeScript page would show `GET`. */
  lemma EmptyMethodKept(server: Assoc.Table)
    requires Assoc.Lookup(server, "REQUEST_METHOD") == Some([])
    ensures GetRequestInfo(server)[0] == (Metodo, [])
    ensures InfoTs.GetRequestInfo(server).requestMethod == "GET"
  {
  }

  /** What the host reports, as opaque values: PHP version, operating
      system, date, user and working directory. */
  datatype Host = Host(phpVersion: string, system: string, date: string, user: string, directory: string)

  const ServerLabel: string := "Server"
  const DefaultServer: string := "Webserv"

  /** `getSystemInfo`. */
  function GetSystemInfo(host: Host, server: Assoc.Table): (r: Assoc.Table)
    ensures |r| == 6 && r[2].0 == ServerLabel
  {
    [("PHP Version", host.phpVersion), ("Sistema Operativo", host.system),
     (ServerLabel, OrDefault(server, "SERVER_SOFTWARE", DefaultServer)),
     ("Data e Ora", host.date), ("Utente", host.user), ("Directory", host.directory)]
  }

  /** The `Server` fact is `SERVER_SOFTWARE`, or `Webserv` when that is
      absent. */
  lemma ServerFact(host: Host, server: Assoc.Table)
    ensures Assoc.Lookup(server, "SERVER_SOFTWARE").None? ==> GetSystemInfo(host, server)[2].1 == DefaultServer
    ensures Assoc.Lookup(server, "SERVER_SOFTWARE").Some? ==>
      GetSystemInfo(host, server)[2].1 == Assoc.Lookup(server, "SERVER_SOFTWARE").value
  {
  }

  /** The variables `getServerVariables` keeps, in `$_SERVER` order: every
      qualifying name, whatever its value. */
  function Selected(server: Assoc.Table): (r: Assoc.Table)
    ensures |r| <= |server|
    decreases |server|
  {
    if server == [] then []
    else
      var last := server[|server| - 1];
      Selected(server[..|server| - 1]) + (if InfoTs.Qualifies(last.0) then [last] else [])
  }

  /** Everything kept is an entry of `$_SERVER` with a qualifying name. */
  lemma {:induction false} SelectedSound(server: Assoc.Table)
    decreases |server|
    ensures forall j :: 0 <= j < |Selected(server)| ==>
      InfoTs.Qualifies(Selected(server)[j].0) && Selected(server)[j] in server
  {
    if server != [] {
      var init := server[..|server| - 1];
      SelectedSound(init);
      assert forall e :: e in init ==> e in server;
    }
  }

  /** Every entry with a qualifying name is kept, empty values included. */
  lemma {:induction false} SelectedComplete(server: Assoc.Table, i: int)
    requires 0 <= i < |server| && InfoTs.Qualifies(server[i].0)
    decreases |server|
    ensures server[i] in Selected(server)
  {
    var init := server[..|server| - 1];
    if i < |server| - 1 {
      assert init[i] == server[i];
      SelectedComplete(init, i);
    }
  }

  /** The entries without an empty value. */
  function NonEmpty(t: Assoc.Table): (r: Assoc.Table)
    decreases |t|
  {
    if t == [] then []
    else
      var last := t[|t| - 1];
      NonEmpty(t[..|t| - 1]) + (if last.1 != [] then [last] else [])
  }

  lemma {:induction false} NonEmptyAppend(t: Assoc.Table, u: Assoc.Table)
    decreases |u|
    ensures NonEmpty(t + u) == NonEmpty(t) + NonEmpty(u)
  {
    if u == [] {
      assert t + u == t;
    } else {
      var w := u[..|u| - 1];
      assert (t + u)[..|t + u| - 1] == t + w;
      assert (t + u)[|t + u| - 1] == u[|u| - 1];
      NonEmptyAppend(t, w);
    }
  }

  /** The TypeScript page keeps exactly the entries kept here whose values
      are non-empty. */
  lemma {:induction false} TsDropsEmptyValues(server: Assoc.Table)
    decreases |server|
    ensures InfoTs.Filter(server) == NonEmpty(Selected(server))
  {
    if server != [] {
      var init := server[..|server| - 1];
      var last := server[|server| - 1];
      TsDropsEmptyValues(init);
      var tail := if InfoTs.Qualifies(last.0) then [last] else [];
      NonEmptyAppend(Selected(init), tail);
      if InfoTs.Qualifies(last.0) {
        assert tail[..0] == [];
        assert NonEmpty(tail) == NonEmpty([]) + (if last.1 != [] then [last] else []);
      }
    }
  }

  /** `getServerVariables`: the `foreach` over `$_SERVER`, writing each
      qualifying entry into `$filtered`. */
  method GetServerVariables(server: Assoc.Table) returns (filtered: Assoc.Table)
    requires Assoc.UniqueNames(server)
    ensures filtered == Selected(server)
  {
    filtered := [];
    var i := 0;
    while i < |server|
      invariant 0 <= i <= |server|
      invariant filtered == Selected(server[..i])
    {
      var (key, value) := server[i];
      assert server[..i + 1][..i] == server[..i];
      if InfoTs.Qualifies(key) {
        SelectedSound(server[..i]);
        forall j | 0 <= j < |filtered|
          ensures filtered[j].0 != key
        {
          var k :| 0 <= k < i && server[k] == filtered[j];
        }
        filtered := Assoc.Assign(filtered, key, value);
      }
      i := i + 1;
    }
    assert server[..i] == server;
  }

  /** The reference PHP writes for a single quote under its default
      `ENT_QUOTES` flag. */
  const Apos: string := "&#039;"

  /** What `htmlspecialchars` writes for one character. */
  function EntityOf(c: char): (r: string)
    ensures !Cpp.Special(c) ==> r == [c]
    ensures c != '\'' ==> r == Cpp.EntityOf(c)
  {
    if c == '\'' then Apos else Cpp.EntityOf(c)
  }

  /** PHP's `htmlspecialchars` with its default flags. */
  function Escaped(s: string): (r: string)
    ensures |r| >= |s|
  {
    if s == [] then [] else EntityOf(s[0]) + Escaped(s[1..])
  }

  /** Without single quotes, PHP's escaper and the C++ script's agree. */
  lemma {:induction false} AgreesWithCpp(s: string)
    requires '\'' !in s
    ensures Escaped(s) == Cpp.Escaped(s)
  {
    if s != [] {
      assert s[1..] == s[|[s[0]]|..];
      assert '\'' !in s[1..];
      AgreesWithCpp(s[1..]);
    }
  }

  /** One of PHP's five references starts at `j`. */
  predicate EntityAt(r: string, j: int) {
    OccursAt(r, Cpp.Amp, j) || OccursAt(r, Cpp.Quot, j) || OccursAt(r, Apos, j) ||
    OccursAt(r, Cpp.Lt, j) || OccursAt(r, Cpp.Gt, j)
  }

  /** No markup character, and every `&` starts one of PHP's references. */
  predicate Safe(r: string) {
    forall j :: 0 <= j < |r| ==> !Cpp.Markup(r[j]) && (r[j] == '&' ==> EntityAt(r, j))
  }

  lemma EntitySafe(c: char, t: string, j: int)
    requires 0 <= j < |EntityOf(c)|
    ensures !Cpp.Markup((EntityOf(c) + t)[j])
    ensures (EntityOf(c) + t)[j] == '&' ==> j == 0 && EntityAt(EntityOf(c) + t, 0)
  {
    var e := EntityOf(c);
    assert (e + t)[j] == e[j];
    if Cpp.Special(c) {
      Cpp.OccursPrefix(e, t);
    }
  }

  lemma EntityShifted(p: string, t: string, k: int)
    requires EntityAt(t, k)
    ensures EntityAt(p + t, |p| + k)
  {
    if OccursAt(t, Cpp.Amp, k) { Cpp.OccursShifted(p, t, Cpp.Amp, k); }
    else if OccursAt(t, Cpp.Quot, k) { Cpp.OccursShifted(p, t, Cpp.Quot, k); }
    else if OccursAt(t, Apos, k) { Cpp.OccursShifted(p, t, Apos, k); }
    else if OccursAt(t, Cpp.Lt, k) { Cpp.OccursShifted(p, t, Cpp.Lt, k); }
    else { Cpp.OccursShifted(p, t, Cpp.Gt, k); }
  }

  lemma SafeAfterEntity(c: char, t: string)
    requires Safe(t)
    ensures Safe(EntityOf(c) + t)
  {
    var e := EntityOf(c);
    forall j | 0 <= j < |e + t|
      ensures !Cpp.Markup((e + t)[j]) && ((e + t)[j] == '&' ==> EntityAt(e + t, j))
    {
      if j < |e| {
        EntitySafe(c, t, j);
      } else {
        assert (e + t)[j] == t[j - |e|];
        if t[j - |e|] == '&' {
          EntityShifted(e, t, j - |e|);
        }
      }
    }
  }

  /** PHP's escaper output is safe, whatever the input. */
  lemma {:induction false} EscapedSafe(s: string)
    ensures Safe(Escaped(s))
  {
    if s != [] {
      EscapedSafe(s[1..]);
      SafeAfterEntity(s[0], Escaped(s[1..]));
    }
  }

  /** One rendered row: the escaped label, the escaped value, and whether
      the value sits in a badge. */
  datatype Row = Row(caption: string, value: string, badge: bool)

  /** The rows of a card: label and value of every fact through
      `htmlspecialchars`, the badge only on the `Metodo` fact. */
  function Rows(facts: Assoc.Table): (rows: seq<Row>)
    ensures |rows| == |facts|
    ensures forall i :: 0 <= i < |rows| ==>
      rows[i].caption == Escaped(facts[i].0) && rows[i].value == Escaped(facts[i].1)
    ensures forall i :: 0 <= i < |rows| ==> (rows[i].badge <==> facts[i].0 == Metodo)
  {
    seq(|facts|, i requires 0 <= i < |facts| =>
      Row(Escaped(facts[i].0), Escaped(facts[i].1), facts[i].0 == Metodo))
  }

  /** Every label and value written into a card is safe to place in the
      page. */
  lemma RowsSafe(facts: Assoc.Table)
    ensures forall i :: 0 <= i < |facts| ==> Safe(Rows(facts)[i].caption) && Safe(Rows(facts)[i].value)
  {
    forall i | 0 <= i < |facts|
      ensures Safe(Rows(facts)[i].caption) && Safe(Rows(facts)[i].value)
    {
      EscapedSafe(facts[i].0);
      EscapedSafe(facts[i].1);
    }
  }

  lemma OnlyFirstLabelIsMetodo()
    ensures RequestLabels[0] == Metodo
    ensures forall i :: 1 <= i < |RequestLabels| ==> RequestLabels[i] != Metodo
  {
    forall i | 1 <= i < |RequestLabels|
      ensures RequestLabels[i] != Metodo
    {
      assert |RequestLabels[i]| > |Metodo|;
    }
  }

  /** In the request card only the first row, the method, has a badge. */
  lemma RequestBadge(server: Assoc.Table)
    ensures var rows := Rows(GetRequestInfo(server));
      rows[0].badge && forall i :: 1 <= i < |rows| ==> !rows[i].badge
  {
    var facts := GetRequestInfo(server);
    OnlyFirstLabelIsMetodo();
    assert forall i :: 0 <= i < |facts| ==> facts[i].0 == RequestLabels[i];
  }

  const Colors: seq<string> := ["#2196F3", "#9C27B0", "#4CAF50", "#FF5722", "#3F51B5"]

  /** `$colors[array_rand($colors)]`: `array_rand` yields one of the array's
      keys. */
  function ThemeColor(key: nat): (c: string)
    requires key < |Colors|
    ensures c in Colors
  {
    Colors[key]
  }
}
