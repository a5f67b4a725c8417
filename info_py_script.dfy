/** The Python information page: request facts read with `os.environ.get`,
    the system facts or the error that collecting them raised, the
    title-cased labels, the form card, the sorted environment card and the
    theme palette. The page interpolates every value raw, so no escaping
    property is claimed for it. */
module InfoPyScript {
  import opened Wrappers
  import Assoc
  import SortedMap
  import Ts = TsTestScript
  import InfoPhp = InfoPhpScript

  const RequestKeys: seq<string> :=
    ["method", "query_string", "content_type", "content_length", "remote_addr",
     "server_name", "server_port", "script_name", "path_info", "user_agent"]
  const RequestNames: seq<string> :=
    ["REQUEST_METHOD", "QUERY_STRING", "CONTENT_TYPE", "CONTENT_LENGTH", "REMOTE_ADDR",
     "SERVER_NAME", "SERVER_PORT", "SCRIPT_NAME", "PATH_INFO", "HTTP_USER_AGENT"]
  const Unknown: string := "Unknown"
  const RequestDefaults: seq<string> :=
    [Unknown, "", "", "0", Unknown, Unknown, Unknown, Unknown, "", Unknown]

  /** `get_request_info`: `os.environ.get(name, default)` for each fact, so
      a default applies only to an absent variable. */
  function GetRequestInfo(env: Assoc.Table): (r: Assoc.Table)
    ensures |r| == |RequestKeys|
    ensures forall i :: 0 <= i < |r| ==> r[i].0 == RequestKeys[i]
  {
    seq(|RequestKeys|, i requires 0 <= i < |RequestKeys| =>
      (RequestKeys[i], InfoPhp.OrDefault(env, RequestNames[i], RequestDefaults[i])))
  }

  /** Each fact is its variable when set, even to the empty string, and its
      default only when the variable is absent. */
  lemma RequestFact(env: Assoc.Table, i: int)
    requires 0 <= i < |RequestKeys|
    ensures Assoc.Lookup(env, RequestNames[i]).Some? ==>
      GetRequestInfo(env)[i].1 == Assoc.Lookup(env, RequestNames[i]).value
    ensures Assoc.Lookup(env, RequestNames[i]).None? ==> GetRequestInfo(env)[i].1 == RequestDefaults[i]
  {
  }

  /** With nothing set, the method is `Unknown`, the query string empty and
      the content length `0`. */
  lemma EmptyEnvironment()
    ensures GetRequestInfo([])[0].1 == Unknown
    ensures GetRequestInfo([])[1].1 == []
    ensures GetRequestInfo([])[3].1 == "0"
  {
  }

  /** What the platform calls return. */
  datatype Platform = Platform(
    platform: string, system: string, release: string, version: string, machine: string,
    processor: string, pythonVersion: string, hostname: string, currentTime: string)

  /** Collecting the system facts either succeeds or raises with a
      message. */
  datatype Probe = Probed(facts: Platform) | Raised(message: string)

  const ErrorKey: string := "error"

  /** `get_system_info`: ten facts, or a single `error` entry when a call
      raised. */
  function GetSystemInfo(probe: Probe): (r: Assoc.Table)
    ensures probe.Raised? ==> r == [(ErrorKey, probe.message)]
    ensures probe.Probed? ==>
      (|r| == 10 && r[9] == ("uptime", "N/A") && forall i :: 0 <= i < |r| ==> r[i].0 != ErrorKey)
  {
    match probe
    case Raised(message) => [(ErrorKey, message)]
    case Probed(p) =>
      [("platform", p.platform), ("system", p.system), ("release", p.release),
       ("version", p.version), ("machine", p.machine), ("processor", p.processor),
       ("python_version", p.pythonVersion), ("hostname", p.hostname),
       ("current_time", p.currentTime), ("uptime", "N/A")]
  }

  /** An ASCII letter; other characters are neither upper nor lower case
      here. */
  predicate Cased(c: char) {
    'a' <= c <= 'z' || 'A' <= c <= 'Z'
  }

  function Upper(c: char): (r: char)
    ensures Cased(c) <==> Cased(r)
  {
    if 'a' <= c <= 'z' then (c as int - 32) as char else c
  }

  function Lower(c: char): (r: char)
    ensures Cased(c) <==> Cased(r)
  {
    if 'A' <= c <= 'Z' then (c as int + 32) as char else c
  }

  /** `str.title` from a position, `afterCased` telling whether the
      character before it was a letter: the first letter of every run of
      letters upper-cased, the others lower-cased. */
  function TitleFrom(s: string, afterCased: bool): (r: string)
    ensures |r| == |s|
    decreases |s|
  {
    if s == [] then []
    else
      var c := s[0];
      [if !Cased(c) then c else if afterCased then Lower(c) else Upper(c)] + TitleFrom(s[1..], Cased(c))
  }

  function Title(s: string): (r: string)
    ensures |r| == |s|
  {
    TitleFrom(s, false)
  }

  /** Position by position: a letter is upper-cased when it starts a run of
      letters and lower-cased otherwise; every other character is kept. */
  lemma {:induction false} TitleFromAt(s: string, afterCased: bool, i: int)
    requires 0 <= i < |s|
    decreases i
    ensures TitleFrom(s, afterCased)[i] ==
      if !Cased(s[i]) then s[i]
      else if (if i == 0 then afterCased else Cased(s[i - 1])) then Lower(s[i])
      else Upper(s[i])
  {
    if i > 0 {
      TitleFromAt(s[1..], Cased(s[0]), i - 1);
      if i > 1 {
        assert s[1..][i - 2] == s[i - 1];
      }
    }
  }

  /** Replacing `_` by a space keeps the length. */
  lemma {:induction false} SpacedLength(key: string)
    ensures |Ts.ReplaceAll(key, '_', " ")| == |key|
  {
    if key != [] {
      SpacedLength(key[1..]);
    }
  }

  /** `key.replace('_', ' ').title()`. */
  function Label(key: string): (r: string)
    ensures |r| == |key|
  {
    SpacedLength(key);
    Title(Ts.ReplaceAll(key, '_', " "))
  }

  lemma {:induction false} ReplaceUnderscoreAt(key: string, i: int)
    requires 0 <= i < |key|
    decreases i
    ensures |Ts.ReplaceAll(key, '_', " ")| == |key|
    ensures Ts.ReplaceAll(key, '_', " ")[i] == if key[i] == '_' then ' ' else key[i]
  {
    SpacedLength(key);
    if i > 0 {
      ReplaceUnderscoreAt(key[1..], i - 1);
    }
  }

  /** A label has no underscore where the key had one: it has a space, a
      letter that starts a word is capitalised and every other letter is
      lower-case. */
  lemma LabelAt(key: string, i: int)
    requires 0 <= i < |key|
    ensures key[i] == '_' ==> Label(key)[i] == ' '
    ensures Cased(key[i]) && (i == 0 || !Cased(key[i - 1])) ==> Label(key)[i] == Upper(key[i])
    ensures Cased(key[i]) && i > 0 && Cased(key[i - 1]) ==> Label(key)[i] == Lower(key[i])
  {
    var spaced := Ts.ReplaceAll(key, '_', " ");
    ReplaceUnderscoreAt(key, i);
    if i > 0 {
      ReplaceUnderscoreAt(key, i - 1);
    }
    TitleFromAt(spaced, false, i);
  }

  /** Lower-case ASCII words. */
  predicate Word(w: string) {
    w != [] && forall j :: 0 <= j < |w| ==> 'a' <= w[j] <= 'z'
  }

  /** `first_second` becomes `First Second`. */
  lemma LabelOfTwoWords(a: string, b: string)
    requires Word(a) && Word(b)
    ensures Label(a + "_" + b) == [Upper(a[0])] + a[1..] + " " + [Upper(b[0])] + b[1..]
  {
    var key := a + "_" + b;
    var want := [Upper(a[0])] + a[1..] + " " + [Upper(b[0])] + b[1..];
    assert |want| == |key|;
    forall i | 0 <= i < |key|
      ensures Label(key)[i] == want[i]
    {
      LabelAt(key, i);
      if i < |a| {
        assert key[i] == a[i];
        if i > 0 { assert key[i - 1] == a[i - 1]; }
      } else if i == |a| {
        assert key[i] == '_';
      } else {
        assert key[i] == b[i - |a| - 1];
        assert key[i - 1] == if i == |a| + 1 then '_' else b[i - |a| - 2];
      }
    }
  }

  /** One rendered fact: its label and its raw value. */
  function FactItems(facts: Assoc.Table): (items: seq<(string, string)>)
    ensures |items| == |facts|
  {
    seq(|facts|, i requires 0 <= i < |facts| => (Label(facts[i].0), facts[i].1))
  }

  /** The loop of `main` that appends one item per fact to the page. */
  method RenderFacts(facts: Assoc.Table) returns (items: seq<(string, string)>)
    ensures items == FactItems(facts)
  {
    items := [];
    for i := 0 to |facts|
      invariant items == FactItems(facts[..i])
    {
      assert facts[..i + 1][..i] == facts[..i];
      items := items + [(Label(facts[i].0), facts[i].1)];
    }
    assert facts[..|facts|] == facts;
  }

  /** Every rendered fact shows the fact's own value under a label as long
      as its key. */
  lemma FactItemsFaithful(facts: Assoc.Table)
    ensures forall i :: 0 <= i < |facts| ==>
      FactItems(facts)[i].1 == facts[i].1 && |FactItems(facts)[i].0| == |facts[i].0|
  {
  }

  /** The form card: present exactly when the form has a field, listing
      the fields raw. */
  function FormCard(form: Assoc.Table): (card: Option<Assoc.Table>)
    ensures card.Some? <==> |form| > 0
    ensures card.Some? ==> card.value == form
  {
    if |form| > 0 then Some(form) else None
  }

  /** The environment card: its heading count and its entries sorted by
      name. */
  datatype EnvCard = EnvCard(count: nat, entries: SortedMap.Map<string>)

  function GetEnvCard(env: Assoc.Table): (card: EnvCard)
    ensures card.count == |env| && SortedMap.Sorted(card.entries)
  {
    EnvCard(|env|, SortedMap.PutAll([], env))
  }

  /** For an environment, where names do not repeat, the card lists every
      variable once, in ascending name order, with its value, and the
      heading counts them. */
  lemma EnvCardComplete(env: Assoc.Table)
    requires Assoc.UniqueNames(env)
    ensures var card := GetEnvCard(env);
      card.count == |card.entries| && SortedMap.Sorted(card.entries) &&
      SortedMap.Keys(card.entries) == SortedMap.Names(env) &&
      forall i :: 0 <= i < |env| ==> SortedMap.Get(card.entries, env[i].0) == Some(env[i].1)
  {
    Ts.EnvListingComplete(env);
  }

  const Colors: seq<string> :=
    ["#FF6B6B", "#4ECDC4", "#45B7D1", "#96CEB4", "#FFEAA7", "#DDA0DD", "#98D8C8", "#F7DC6F"]

  /** `random.choice(colors)`, the choice given as an index. */
  function ThemeColor(choice: nat): (c: string)
    requires choice < |Colors|
    ensures c in Colors
  {
    Colors[choice]
  }
}
