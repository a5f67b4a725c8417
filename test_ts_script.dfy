/** The TypeScript CGI test script: its replace-chain HTML escaper, its
    query-string parser over `decodeURIComponent`, the request facts with
    `||` defaults and the sorted, escaped environment listing. */
module TsTestScript {
  import opened Wrappers
  import opened Text
  import Cpp = CppTestScript
  import InputStream
  import SortedMap
  import Assoc

  /** `s.replace(/c/g, rep)`: every `c` replaced by `rep`. */
  function ReplaceAll(s: string, c: char, rep: string): (r: string)
    ensures c !in s ==> r == s
  {
    if s == [] then []
    else (if s[0] == c then rep else [s[0]]) + ReplaceAll(s[1..], c, rep)
  }

  lemma {:induction false} ReplaceAllAppend(a: string, b: string, c: char, rep: string)
    ensures ReplaceAll(a + b, c, rep) == ReplaceAll(a, c, rep) + ReplaceAll(b, c, rep)
  {
    if a == [] {
      assert a + b == b;
    } else {
      assert (a + b)[0] == a[0] && (a + b)[1..] == a[1..] + b;
      ReplaceAllAppend(a[1..], b, c, rep);
    }
  }

  /** `htmlspecialchars`: the five global replacements, `&` first. */
  function HtmlSpecialChars(text: string): (r: string)
    ensures '&' !in text && '"' !in text && '\'' !in text && '<' !in text && '>' !in text ==> r == text
  {
    Later(ReplaceAll(text, '&', Cpp.Amp))
  }

  lemma ChainAppend(a: string, b: string)
    ensures HtmlSpecialChars(a + b) == HtmlSpecialChars(a) + HtmlSpecialChars(b)
  {
    var a1, b1 := ReplaceAll(a, '&', Cpp.Amp), ReplaceAll(b, '&', Cpp.Amp);
    ReplaceAllAppend(a, b, '&', Cpp.Amp);
    var a2, b2 := ReplaceAll(a1, '"', Cpp.Quot), ReplaceAll(b1, '"', Cpp.Quot);
    ReplaceAllAppend(a1, b1, '"', Cpp.Quot);
    var a3, b3 := ReplaceAll(a2, '\'', Cpp.Apos), ReplaceAll(b2, '\'', Cpp.Apos);
    ReplaceAllAppend(a2, b2, '\'', Cpp.Apos);
    var a4, b4 := ReplaceAll(a3, '<', Cpp.Lt), ReplaceAll(b3, '<', Cpp.Lt);
    ReplaceAllAppend(a3, b3, '<', Cpp.Lt);
    ReplaceAllAppend(a4, b4, '>', Cpp.Gt);
  }

  lemma ReplaceOne(x: char, c: char, rep: string)
    ensures ReplaceAll([x], c, rep) == if x == c then rep else [x]
  {
    assert [x][1..] == [];
  }

  /** Replacing a character the text does not hold changes nothing. */
  lemma ReplaceAbsent(s: string, c: char, rep: string)
    requires c !in s
    ensures ReplaceAll(s, c, rep) == s
  {
  }

  /** The replacements after the first one, as applied to what it left. */
  function Later(s: string): string {
    ReplaceAll(ReplaceAll(ReplaceAll(ReplaceAll(s, '"', Cpp.Quot), '\'', Cpp.Apos), '<', Cpp.Lt), '>', Cpp.Gt)
  }

  /** None of the later characters occurs in `&amp;`, so the later steps
      leave it alone. */
  lemma LaterAmp()
    ensures Later(Cpp.Amp) == Cpp.Amp
  {
    var e := Cpp.Amp;
    assert '"' !in e && '\'' !in e && '<' !in e && '>' !in e;
    ReplaceAbsent(e, '"', Cpp.Quot);
    ReplaceAbsent(e, '\'', Cpp.Apos);
    ReplaceAbsent(e, '<', Cpp.Lt);
    ReplaceAbsent(e, '>', Cpp.Gt);
  }

  lemma LaterQuot()
    ensures Later(['"']) == Cpp.Quot
  {
    var e := Cpp.Quot;
    ReplaceOne('"', '"', e);
    assert '\'' !in e && '<' !in e && '>' !in e;
    ReplaceAbsent(e, '\'', Cpp.Apos);
    ReplaceAbsent(e, '<', Cpp.Lt);
    ReplaceAbsent(e, '>', Cpp.Gt);
  }

  lemma LaterApos()
    ensures Later(['\'']) == Cpp.Apos
  {
    var e := Cpp.Apos;
    ReplaceOne('\'', '"', Cpp.Quot);
    ReplaceOne('\'', '\'', e);
    assert '<' !in e && '>' !in e;
    ReplaceAbsent(e, '<', Cpp.Lt);
    ReplaceAbsent(e, '>', Cpp.Gt);
  }

  lemma LaterLt()
    ensures Later(['<']) == Cpp.Lt
  {
    var e := Cpp.Lt;
    ReplaceOne('<', '"', Cpp.Quot);
    ReplaceOne('<', '\'', Cpp.Apos);
    ReplaceOne('<', '<', e);
    assert '>' !in e;
    ReplaceAbsent(e, '>', Cpp.Gt);
  }

  lemma LaterGt()
    ensures Later(['>']) == Cpp.Gt
  {
    ReplaceOne('>', '"', Cpp.Quot);
    ReplaceOne('>', '\'', Cpp.Apos);
    ReplaceOne('>', '<', Cpp.Lt);
    ReplaceOne('>', '>', Cpp.Gt);
  }

  lemma LaterPlain(x: char)
    requires !Cpp.Special(x)
    ensures Later([x]) == [x]
  {
    ReplaceOne(x, '"', Cpp.Quot);
    ReplaceOne(x, '\'', Cpp.Apos);
    ReplaceOne(x, '<', Cpp.Lt);
    ReplaceOne(x, '>', Cpp.Gt);
  }

  /** On one character the chain writes that character's entity: later
      replacements find nothing to replace in earlier entities. */
  lemma ChainChar(x: char)
    ensures HtmlSpecialChars([x]) == Cpp.EntityOf(x)
  {
    ReplaceOne(x, '&', Cpp.Amp);
    assert HtmlSpecialChars([x]) == Later(ReplaceAll([x], '&', Cpp.Amp));
    if x == '&' {
      LaterAmp();
    } else if x == '"' {
      LaterQuot();
    } else if x == '\'' {
      LaterApos();
    } else if x == '<' {
      LaterLt();
    } else if x == '>' {
      LaterGt();
    } else {
      LaterPlain(x);
    }
  }

  /** The replace chain and the C++ script's one-pass escaper agree on
      every string. */
  lemma {:induction false} AgreesWithCpp(s: string)
    ensures HtmlSpecialChars(s) == Cpp.Escaped(s)
  {
    if s != [] {
      assert s == [s[0]] + s[1..];
      ChainAppend([s[0]], s[1..]);
      ChainChar(s[0]);
      AgreesWithCpp(s[1..]);
    }
  }

  /** Hence its output is safe too. */
  lemma HtmlSpecialCharsSafe(s: string)
    ensures Cpp.Safe(HtmlSpecialChars(s))
  {
    AgreesWithCpp(s);
    Cpp.EscapedSafe(s);
  }

  /** `s.split(c)`: every piece between the separators, empty ones
      included, so there is always at least one. */
  function Split(s: string, c: char): (r: seq<string>)
    ensures |r| >= 1
    ensures c !in s ==> r == [s]
    decreases |s|
  {
    match InputStream.IndexOf(s, c)
    case None => [s]
    case Some(i) => [s[..i]] + Split(s[i + 1..], c)
  }

  lemma SplitCons(a: string, c: char, b: string)
    requires c !in a
    ensures Split(a + [c] + b, c) == [a] + Split(b, c)
  {
    var s := a + [c] + b;
    assert s[|a|] == c;
    var i := InputStream.IndexOf(s, c).value;
    assert forall j :: 0 <= j < |a| ==> s[j] == a[j];
    assert s[..i] == a && s[i + 1..] == b;
  }

  /** The UTF-8 octet that `%XY` at `i` encodes. */
  function Octet(s: string, i: nat): (r: Option<nat>)
    ensures r.Some? ==> r.value < 256 && i + 2 < |s|
  {
    if i + 2 < |s| && s[i] == '%' && Cpp.IsHexDigit(s[i + 1]) && Cpp.IsHexDigit(s[i + 2])
    then Some(16 * Cpp.HexDigitValue(s[i + 1]) + Cpp.HexDigitValue(s[i + 2]))
    else None
  }

  /** The number of octets a UTF-8 sequence starting with `b` has; 0 when
      `b` cannot start one. */
  function SequenceLength(b: nat): nat {
    if b < 0x80 then 1
    else if 0xC0 <= b < 0xE0 then 2
    else if 0xE0 <= b < 0xF0 then 3
    else if 0xF0 <= b < 0xF8 then 4
    else 0
  }

  predicate Continuation(b: nat) {
    0x80 <= b < 0xC0
  }

  /** The code point of a whole UTF-8 sequence, None for an overlong
      form, a surrogate or a value beyond U+10FFFF (section 3 of
      RFC 3629). */
  function CodePoint(bs: seq<nat>): (r: Option<char>)
    requires 1 <= |bs| <= 4 && SequenceLength(bs[0]) == |bs|
    requires forall j :: 1 <= j < |bs| ==> Continuation(bs[j])
  {
    if |bs| == 1 then Some(bs[0] as char)
    else
      assert Continuation(bs[1]);
      if |bs| == 2 then
        var v: int := (bs[0] - 0xC0) * 64 + (bs[1] - 0x80);
        if v < 0x80 then None else Some(v as char)
      else
        assert Continuation(bs[2]);
        if |bs| == 3 then
          var v: int := (bs[0] - 0xE0) * 4096 + (bs[1] - 0x80) * 64 + (bs[2] - 0x80);
          if v < 0x800 || 0xD800 <= v < 0xE000 then None else Some(v as char)
        else
          assert Continuation(bs[3]);
          var v: int := (bs[0] - 0xF0) * 262144 + (bs[1] - 0x80) * 4096 + (bs[2] - 0x80) * 64 + (bs[3] - 0x80);
          if v < 0x10000 || v > 0x10FFFF then None else Some(v as char)
  }

  /** The octets of `n` consecutive escapes from `i`, None unless every one
      is a well-formed `%XY`. */
  function Octets(s: string, i: nat, n: nat): (r: Option<seq<nat>>)
    ensures r.Some? ==> |r.value| == n && (n > 0 ==> i + 3 * n <= |s|)
    ensures r.Some? ==> forall j :: 0 <= j < n ==> r.value[j] < 256
    decreases n
  {
    if n == 0 then Some([])
    else match Octet(s, i)
      case None => None
      case Some(b) =>
        match Octets(s, i + 3, n - 1)
        case None => None
        case Some(bs) => Some([b] + bs)
  }

  /** `decodeURIComponent`: percent-decoding as in section 2.1 of
      RFC 3986, with escaped octets read as UTF-8; None where it throws a
      `URIError`. Every other character is kept. */
  function UriDecode(s: string): (r: Option<string>)
    decreases |s|
    ensures r.Some? ==> |r.value| <= |s|
  {
    if s == [] then Some([])
    else if s[0] != '%' then
      match UriDecode(s[1..])
      case None => None
      case Some(t) => Some([s[0]] + t)
    else
      match Octet(s, 0)
      case None => None
      case Some(b) =>
        var n := SequenceLength(b);
        if n == 0 then None
        else match Octets(s, 0, n)
          case None => None
          case Some(bs) =>
            if exists j :: 1 <= j < n && !Continuation(bs[j]) then None
            else match CodePoint(bs)
              case None => None
              case Some(c) =>
                match UriDecode(s[3 * n..])
                case None => None
                case Some(t) => Some([c] + t)
  }

  /** Text without `%` decodes to itself. */
  lemma {:induction false} UriDecodePlain(s: string)
    requires '%' !in s
    ensures UriDecode(s) == Some(s)
  {
    if s != [] {
      assert s == [s[0]] + s[1..];
      UriDecodePlain(s[1..]);
    }
  }

  /** A `%` without two hex digits after it makes decoding throw. */
  lemma UriDecodeMalformed(s: string)
    requires s != [] && s[0] == '%'
    requires |s| < 3 || !Cpp.IsHexDigit(s[1]) || !Cpp.IsHexDigit(s[2])
    ensures UriDecode(s) == None
  {
  }

  /** An escaped ASCII octet decodes to its character. */
  lemma UriDecodeAsciiOctet(e: string, b: nat)
    requires Octet(e, 0) == Some(b) && b < 0x80
    ensures UriDecode(e) == match UriDecode(e[3..])
      case None => None
      case Some(t) => Some([b as char] + t)
  {
    assert e[0] == '%';
    assert SequenceLength(b) == 1;
    assert Octets(e, 3, 0) == Some([]);
    assert [b] + [] == [b];
    assert Octets(e, 0, 1) == Some([b]);
    assert CodePoint([b]) == Some(b as char);
  }

  /** Percent-encoded ASCII text decodes back to itself. */
  lemma {:induction false} UriDecodeEncodedAscii(s: string)
    requires forall j :: 0 <= j < |s| ==> s[j] as int < 0x80
    ensures UriDecode(Cpp.PercentEncoded(s)) == Some(s)
  {
    if s != [] {
      var b := s[0] as int;
      var e := Cpp.PercentEncoded(s);
      Cpp.HexDigitRead(b / 16);
      Cpp.HexDigitRead(b % 16);
      assert e[0] == '%' && e[1] == Cpp.HexDigits[b / 16] && e[2] == Cpp.HexDigits[b % 16];
      assert Octet(e, 0) == Some(b);
      UriDecodeAsciiOctet(e, b);
      assert e[3..] == Cpp.PercentEncoded(s[1..]);
      UriDecodeEncodedAscii(s[1..]);
      assert [s[0]] + s[1..] == s;
    }
  }

  /** What one `key=value` pair of the `forEach` does. */
  datatype PairOutcome = Skipped | Thrown | Assigned(key: string, value: string)

  /** The one key whose assignment on a plain object literal goes to the
      inherited `Object.prototype.__proto__` setter instead of creating a
      property; that setter ignores a string. */
  const ProtoKey: string := "__proto__"

  /** `const [key, value] = pair.split('=')`; an empty key is skipped, and
      otherwise key and value (`''` when there is none) are decoded. The
      assignment `params[k] = v` then adds nothing when `k` is
      `__proto__`. */
  function Pair(pair: string): (r: PairOutcome)
    ensures r.Assigned? ==> r.key != ProtoKey
    ensures pair == [] || pair[0] == '=' ==> r == Skipped
  {
    var parts := Split(pair, '=');
    var key := parts[0];
    var value := if |parts| > 1 then parts[1] else [];
    if key == [] then Skipped
    else match (UriDecode(key), UriDecode(value))
      case (Some(k), Some(v)) => if k == ProtoKey then Skipped else Assigned(k, v)
      case _ => Thrown
  }

  /** The pairs' assignments into `params`, in order; None once one
      throws. */
  function Fold(pairs: seq<string>, params: Assoc.Table): Option<Assoc.Table>
    decreases |pairs|
  {
    if pairs == [] then Some(params)
    else match Pair(pairs[0])
      case Skipped => Fold(pairs[1..], params)
      case Thrown => None
      case Assigned(k, v) => Fold(pairs[1..], Assoc.Assign(params, k, v))
  }

  /** The result of `parseQueryString(qs)`, None when it throws. */
  function Params(qs: string): (r: Option<Assoc.Table>)
    ensures qs == [] ==> r == Some([])
  {
    if qs == [] then Some([]) else Fold(Split(qs, '&'), [])
  }

  /** `parseQueryString`: the `forEach` over the `&`-separated pairs,
      filling `params`. */
  method ParseQueryString(qs: string) returns (r: Option<Assoc.Table>)
    ensures r == Params(qs)
  {
    if qs == [] {
      return Some([]);
    }
    var pairs := Split(qs, '&');
    var params: Assoc.Table := [];
    var i := 0;
    while i < |pairs|
      invariant 0 <= i <= |pairs|
      invariant Fold(pairs[i..], params) == Params(qs)
    {
      assert pairs[i..][1..] == pairs[i + 1..];
      var outcome := Pair(pairs[i]);
      if outcome.Thrown? {
        return None;
      }
      if outcome.Assigned? {
        params := Assoc.Assign(params, outcome.key, outcome.value);
      }
      i := i + 1;
    }
    assert pairs[i..] == [];
    r := Some(params);
  }

  /** The assignments the pairs make when none of them throws. */
  function Assignments(pairs: seq<string>): seq<(string, string)> {
    if pairs == [] then []
    else match Pair(pairs[0])
      case Assigned(k, v) => [(k, v)] + Assignments(pairs[1..])
      case _ => Assignments(pairs[1..])
  }

  /** When no pair throws, a key holds the value of its last pair; keys of
      no pair are absent. */
  lemma {:induction false} FoldLastWins(pairs: seq<string>, params: Assoc.Table, k: string)
    requires Fold(pairs, params).Some?
    decreases |pairs|
    ensures Assoc.Lookup(Fold(pairs, params).value, k) ==
      Assoc.Lookup(Assoc.AssignAll(params, Assignments(pairs)), k)
  {
    if pairs != [] {
      match Pair(pairs[0])
      case Skipped => FoldLastWins(pairs[1..], params, k);
      case Assigned(key, v) =>
        FoldLastWins(pairs[1..], Assoc.Assign(params, key, v), k);
        assert Assignments(pairs) == [(key, v)] + Assignments(pairs[1..]);
        assert ([(key, v)] + Assignments(pairs[1..]))[1..] == Assignments(pairs[1..]);
    }
  }

  /** The parsed value of a key is the one its last pair assigns. */
  lemma ParamsLastWins(qs: string, k: string)
    requires qs != [] && Params(qs).Some?
    ensures Assoc.Lookup(Params(qs).value, k) == SortedMap.LastValue(Assignments(Split(qs, '&')), k)
  {
    FoldLastWins(Split(qs, '&'), [], k);
    Assoc.AssignAllGet([], Assignments(Split(qs, '&')), k);
  }

  /** A pair whose first two pieces decode to themselves. */
  lemma PairOf(pair: string, k: string, v: string)
    requires |Split(pair, '=')| > 1 && Split(pair, '=')[0] == k && Split(pair, '=')[1] == v
    requires k != [] && UriDecode(k) == Some(k) && UriDecode(v) == Some(v)
    ensures Pair(pair) == if k == ProtoKey then Skipped else Assigned(k, v)
  {
  }

  lemma SplitTwice(k: string, v: string, w: string)
    requires '=' !in k && '=' !in v
    ensures var parts := Split(k + ['='] + v + ['='] + w, '=');
      |parts| > 1 && parts[0] == k && parts[1] == v
  {
    var rest := v + ['='] + w;
    var pair := k + ['='] + v + ['='] + w;
    assert pair == k + ['='] + rest;
    SplitCons(k, '=', rest);
    SplitCons(v, '=', w);
    var tail := Split(rest, '=');
    assert tail[0] == v;
    assert Split(pair, '=') == [k] + tail;
  }

  /** `a=b=c` keeps only `b`: the value stops at the second `=`. */
  lemma PairStopsAtSecondEquals(k: string, v: string, w: string)
    requires k != [] && '=' !in k && '=' !in v
    requires '%' !in k && '%' !in v
    ensures Pair(k + ['='] + v + ['='] + w) == if k == ProtoKey then Skipped else Assigned(k, v)
  {
    SplitTwice(k, v, w);
    UriDecodePlain(k);
    UriDecodePlain(v);
    PairOf(k + ['='] + v + ['='] + w, k, v);
  }

  /** A pair without `=` assigns the empty string. */
  lemma PairWithoutValue(k: string)
    requires k != [] && '=' !in k && '%' !in k
    ensures Pair(k) == if k == ProtoKey then Skipped else Assigned(k, [])
  {
    UriDecodePlain(k);
  }

  /** A pair with an empty key (`=x`, or the empty piece after a final
      `&`) is skipped. */
  lemma PairEmptyKey(w: string)
    ensures Pair(['='] + w) == Skipped
  {
    SplitCons([], '=', w);
    assert ['='] + w == [] + ['='] + w;
  }

  /** No pair assigns `__proto__`. */
  lemma {:induction false} AssignmentsAvoidProto(pairs: seq<string>)
    decreases |pairs|
    ensures forall i :: 0 <= i < |Assignments(pairs)| ==> Assignments(pairs)[i].0 != ProtoKey
  {
    if pairs != [] {
      AssignmentsAvoidProto(pairs[1..]);
    }
  }

  /** `__proto__=v` decodes both sides and then assigns nothing. */
  lemma ProtoPairSkipped(v: string)
    requires '=' !in v && '%' !in v
    ensures Pair(ProtoKey + ['='] + v) == Skipped
  {
    SplitCons(ProtoKey, '=', v);
    UriDecodePlain(ProtoKey);
    UriDecodePlain(v);
  }

  /** A query string never gives `params` a `__proto__` entry, whatever
      its pairs hold: `__proto__=1` leaves `params` without it. */
  lemma ParamsWithoutProto(qs: string)
    requires Params(qs).Some?
    ensures Assoc.Lookup(Params(qs).value, ProtoKey).None?
  {
    if qs != [] {
      ParamsLastWins(qs, ProtoKey);
      AssignmentsAvoidProto(Split(qs, '&'));
    }
  }

  /** The "Request Parameters" card: one row per property of
      `queryParams`, in the object's order, name and value escaped; None
      when the object has no property and the card says "No query
      parameters". */
  function ParamCells(params: Assoc.Table): (cells: Option<seq<(string, string)>>)
    ensures cells.None? <==> params == []
    ensures cells.Some? ==> |cells.value| == |params|
  {
    if params == [] then None
    else Some(seq(|params|, i requires 0 <= i < |params| =>
      (HtmlSpecialChars(params[i].0), HtmlSpecialChars(params[i].1))))
  }

  /** Every cell of the parameter table is safe to write into the page
      and reads back as the parameter's name or value. */
  lemma ParamCellsSafe(params: Assoc.Table)
    ensures forall i :: 0 <= i < |params| ==>
      var cell := ParamCells(params).value[i];
      Cpp.Safe(cell.0) && Cpp.Safe(cell.1) &&
      Cpp.Unescaped(cell.0) == params[i].0 && Cpp.Unescaped(cell.1) == params[i].1
  {
    forall i | 0 <= i < |params|
      ensures var cell := ParamCells(params).value[i];
        Cpp.Safe(cell.0) && Cpp.Safe(cell.1) &&
        Cpp.Unescaped(cell.0) == params[i].0 && Cpp.Unescaped(cell.1) == params[i].1
    {
      var (k, v) := params[i];
      AgreesWithCpp(k);
      AgreesWithCpp(v);
      Cpp.EscapedSafe(k);
      Cpp.EscapedSafe(v);
      Cpp.EscapedRoundTrip(k);
      Cpp.EscapedRoundTrip(v);
    }
  }

  /** The request facts the page shows. */
  datatype RequestInfo = RequestInfo(requestMethod: string, protocol: string, serverName: string, serverPort: string)

  /** `process.env[name] || fallback`: the fallback when the variable is
      absent or empty. */
  function OrElse(env: Assoc.Table, name: string, fallback: string): (r: string)
    ensures Assoc.Lookup(env, name).Some? && Assoc.Lookup(env, name).value != [] ==> r == Assoc.Lookup(env, name).value
    ensures Assoc.Lookup(env, name).None? || Assoc.Lookup(env, name).value == [] ==> r == fallback
  {
    match Assoc.Lookup(env, name)
    case Some(v) => if v != [] then v else fallback
    case None => fallback
  }

  /** `getRequestInfo`. */
  function GetRequestInfo(env: Assoc.Table): (r: RequestInfo)
    ensures r.requestMethod != [] && r.protocol != [] && r.serverName != [] && r.serverPort != []
  {
    RequestInfo(OrElse(env, "REQUEST_METHOD", "GET"), OrElse(env, "SERVER_PROTOCOL", "HTTP/1.1"),
                OrElse(env, "SERVER_NAME", "localhost"), OrElse(env, "SERVER_PORT", "8080"))
  }

  datatype SystemInfo = SystemInfo(time: string, userAgent: string, platform: string)

  /** `getSystemInfo`: `time` is what `toLocaleTimeString` gives for the
      current clock. */
  function GetSystemInfo(env: Assoc.Table, time: string): (r: SystemInfo)
    ensures r.time == time && r.platform == "Web" && r.userAgent != []
  {
    SystemInfo(time, OrElse(env, "HTTP_USER_AGENT", "Unknown"), "Web")
  }

  /** The `User-Agent` the environment carries in `HTTP_USER_AGENT` is
      shown when it is set and not empty; otherwise `Unknown`. */
  lemma UserAgentShown(env: Assoc.Table, time: string)
    ensures var ua := Assoc.Lookup(env, "HTTP_USER_AGENT");
      GetSystemInfo(env, time).userAgent == if ua.Some? && ua.value != [] then ua.value else "Unknown"
  {
  }

  /** An empty variable is treated like a missing one. */
  lemma EmptyMeansDefault(env: Assoc.Table)
    requires Assoc.Lookup(env, "REQUEST_METHOD") == Some([])
    ensures GetRequestInfo(env).requestMethod == "GET"
  {
  }

  /** One line of the environment listing. */
  function EnvLine(name: string, value: string): string {
    HtmlSpecialChars(name) + ": " + HtmlSpecialChars(value)
  }

  /** The environment listing: every variable, sorted by name, name and
      value escaped. */
  function EnvListing(env: Assoc.Table): (lines: seq<string>)
    ensures var sorted := SortedMap.PutAll([], env);
      |lines| == |sorted| &&
      forall i :: 0 <= i < |lines| ==> lines[i] == EnvLine(sorted[i].0, sorted[i].1)
  {
    var sorted := SortedMap.PutAll([], env);
    seq(|sorted|, i requires 0 <= i < |sorted| => EnvLine(sorted[i].0, sorted[i].1))
  }

  /** The listing has one line per variable, in ascending name order,
      each with the variable's own value. */
  lemma EnvListingComplete(env: Assoc.Table)
    requires Assoc.UniqueNames(env)
    ensures var sorted := SortedMap.PutAll([], env);
      |EnvListing(env)| == |env| && SortedMap.Sorted(sorted) &&
      SortedMap.Keys(sorted) == SortedMap.Names(env) &&
      forall i :: 0 <= i < |env| ==> SortedMap.Get(sorted, env[i].0) == Some(env[i].1)
  {
    assert SortedMap.FreshNames([], env);
    SortedMap.PutAllFresh([], env);
    forall i | 0 <= i < |env|
      ensures SortedMap.Get(SortedMap.PutAll([], env), env[i].0) == Some(env[i].1)
    {
      SortedMap.PutAllLastWins([], env, i);
    }
  }

  /** A listing line is the C++ escaper's output for the unescaped line,
      so it is safe to place in the page and reads back as name and value. */
  lemma EnvLineEscaped(name: string, value: string)
    ensures EnvLine(name, value) == Cpp.Escaped(name + ": " + value)
    ensures Cpp.Safe(EnvLine(name, value))
    ensures Cpp.Unescaped(EnvLine(name, value)) == name + ": " + value
  {
    EnvLineIsEscaped(name, value);
    var line := name + ": " + value;
    Cpp.EscapedSafe(line);
    Cpp.EscapedRoundTrip(line);
  }

  lemma EnvLineIsEscaped(name: string, value: string)
    ensures EnvLine(name, value) == Cpp.Escaped(name + ": " + value)
  {
    AgreesWithCpp(name);
    AgreesWithCpp(value);
    var sep := ": ";
    SeparatorPlain();
    Cpp.EscapedAppend(name, sep);
    Cpp.EscapedAppend(name + sep, value);
  }

  /** The separator of a listing line has nothing to escape. */
  lemma SeparatorPlain()
    ensures Cpp.Escaped(": ") == ": "
  {
    Cpp.EscapedPlain(": ");
  }
}
