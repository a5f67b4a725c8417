/** The C++ CGI test script: its HTML escaper, its query-string parser and
    the merge of the form fields of a POST body into the query fields. */
module CppTestScript {
  import opened Wrappers
  import opened Text
  import InputStream
  import SortedMap
  import Assoc

  /** The named character references the escaper writes (section 13.5 of
      the WHATWG HTML Standard). */
  const Amp: string := "&amp;"
  const Quot: string := "&quot;"
  const Apos: string := "&apos;"
  const Lt: string := "&lt;"
  const Gt: string := "&gt;"

  /** The characters that would end an attribute or start markup. */
  predicate Markup(c: char) {
    c == '<' || c == '>' || c == '"' || c == '\''
  }

  predicate Special(c: char) {
    c == '&' || Markup(c)
  }

  /** What the escaper appends for one input character. */
  function EntityOf(c: char): (r: string)
    ensures !Special(c) ==> r == [c]
  {
    if c == '&' then Amp
    else if c == '"' then Quot
    else if c == '\'' then Apos
    else if c == '<' then Lt
    else if c == '>' then Gt
    else [c]
  }

  /** The escaped text: each character replaced by its entity. */
  function Escaped(s: string): (r: string)
    ensures |r| >= |s|
  {
    if s == [] then [] else EntityOf(s[0]) + Escaped(s[1..])
  }

  lemma {:induction false} EscapedAppend(a: string, b: string)
    ensures Escaped(a + b) == Escaped(a) + Escaped(b)
  {
    if a != [] {
      assert (a + b)[0] == a[0] && (a + b)[1..] == a[1..] + b;
      assert Escaped(a + b) == EntityOf(a[0]) + Escaped(a[1..] + b);
      EscapedAppend(a[1..], b);
    } else {
      assert a + b == b;
    }
  }

  /** `htmlspecialchars`: one left-to-right pass appending to `buffer`. */
  method HtmlSpecialChars(data: string) returns (buffer: string)
    ensures buffer == Escaped(data)
  {
    buffer := [];
    var pos := 0;
    while pos != |data|
      invariant 0 <= pos <= |data|
      invariant buffer == Escaped(data[..pos])
    {
      var c := data[pos];
      if c == '&' {
        buffer := buffer + Amp;
      } else if c == '"' {
        buffer := buffer + Quot;
      } else if c == '\'' {
        buffer := buffer + Apos;
      } else if c == '<' {
        buffer := buffer + Lt;
      } else if c == '>' {
        buffer := buffer + Gt;
      } else {
        buffer := buffer + [c];
      }
      EscapedAppend(data[..pos], [c]);
      assert data[..pos + 1] == data[..pos] + [c];
      pos := pos + 1;
    }
    assert data[..pos] == data;
  }

  /** One of the five references starts at `j`. */
  predicate EntityAt(r: string, j: int) {
    OccursAt(r, Amp, j) || OccursAt(r, Quot, j) || OccursAt(r, Apos, j) ||
    OccursAt(r, Lt, j) || OccursAt(r, Gt, j)
  }

  /** Text that is safe to place in an element or a quoted attribute: no
      markup character, and every `&` starts a reference. */
  predicate Safe(r: string) {
    forall j :: 0 <= j < |r| ==> !Markup(r[j]) && (r[j] == '&' ==> EntityAt(r, j))
  }

  lemma OccursShifted(p: string, t: string, pat: string, j: int)
    requires OccursAt(t, pat, j)
    ensures OccursAt(p + t, pat, |p| + j)
  {
    assert (p + t)[|p| + j..|p| + j + |pat|] == t[j..j + |pat|];
  }

  lemma OccursPrefix(e: string, t: string)
    ensures OccursAt(e + t, e, 0)
  {
    assert (e + t)[..|e|] == e;
  }

  /** The entity of a single character is safe where it stands. */
  lemma EntitySafe(c: char, t: string, j: int)
    requires 0 <= j < |EntityOf(c)|
    ensures !Markup((EntityOf(c) + t)[j])
    ensures (EntityOf(c) + t)[j] == '&' ==> j == 0 && EntityAt(EntityOf(c) + t, 0)
  {
    var e := EntityOf(c);
    assert (e + t)[j] == e[j];
    if Special(c) {
      OccursPrefix(e, t);
    }
  }

  /** A reference stays a reference when text is put in front. */
  lemma EntityShifted(p: string, t: string, k: int)
    requires EntityAt(t, k)
    ensures EntityAt(p + t, |p| + k)
  {
    if OccursAt(t, Amp, k) { OccursShifted(p, t, Amp, k); }
    else if OccursAt(t, Quot, k) { OccursShifted(p, t, Quot, k); }
    else if OccursAt(t, Apos, k) { OccursShifted(p, t, Apos, k); }
    else if OccursAt(t, Lt, k) { OccursShifted(p, t, Lt, k); }
    else { OccursShifted(p, t, Gt, k); }
  }

  /** Safe text stays safe behind the entity of a character. */
  lemma SafeAfterEntity(c: char, t: string)
    requires Safe(t)
    ensures Safe(EntityOf(c) + t)
  {
    var e := EntityOf(c);
    forall j | 0 <= j < |e + t|
      ensures !Markup((e + t)[j]) && ((e + t)[j] == '&' ==> EntityAt(e + t, j))
    {
      if j < |e| {
        EntitySafe(c, t, j);
      } else {
        assert (e + t)[j] == t[j - |e|];
        if t[j - |e|] == '&' {
          EntityShifted(e, t, j - |e|);
        }
      }
    }
  }

  /** The escaper's output is safe, whatever the input. */
  lemma {:induction false} EscapedSafe(s: string)
    ensures Safe(Escaped(s))
  {
    if s != [] {
      EscapedSafe(s[1..]);
      SafeAfterEntity(s[0], Escaped(s[1..]));
    }
  }

  /** Text without any of the five characters comes back unchanged. */
  lemma {:induction false} EscapedPlain(s: string)
    requires forall j :: 0 <= j < |s| ==> !Special(s[j])
    ensures Escaped(s) == s
  {
    if s != [] {
      assert forall j :: 0 <= j < |s[1..]| ==> s[1..][j] == s[j + 1];
      EscapedPlain(s[1..]);
    }
  }

  /** The number of times `c` occurs in `s`. */
  function Count(s: string, c: char): nat {
    if s == [] then 0 else (if s[0] == c then 1 else 0) + Count(s[1..], c)
  }

  /** Each `&` grows by 4 characters, each quote by 5, each angle bracket
      by 3. */
  lemma {:induction false} EscapedLength(s: string)
    ensures |Escaped(s)| == |s| + 4 * Count(s, '&') + 5 * (Count(s, '"') + Count(s, '\'')) +
                            3 * (Count(s, '<') + Count(s, '>'))
  {
    if s != [] {
      EscapedLength(s[1..]);
    }
  }

  /** Reading the references back: the inverse of the escaper. */
  function Unescaped(r: string): string
    decreases |r|
  {
    if r == [] then []
    else if OccursAt(r, Amp, 0) then "&" + Unescaped(r[|Amp|..])
    else if OccursAt(r, Quot, 0) then "\"" + Unescaped(r[|Quot|..])
    else if OccursAt(r, Apos, 0) then "'" + Unescaped(r[|Apos|..])
    else if OccursAt(r, Lt, 0) then "<" + Unescaped(r[|Lt|..])
    else if OccursAt(r, Gt, 0) then ">" + Unescaped(r[|Gt|..])
    else [r[0]] + Unescaped(r[1..])
  }

  /** Each reference at the front is read back as its character. */
  lemma UnescapedAmp(t: string)
    ensures Unescaped(Amp + t) == "&" + Unescaped(t)
  {
    var r := Amp + t;
    OccursPrefix(Amp, t);
    assert r[|Amp|..] == t;
  }

  lemma UnescapedQuot(t: string)
    ensures Unescaped(Quot + t) == "\"" + Unescaped(t)
  {
    var r := Quot + t;
    OccursPrefix(Quot, t);
    assert r[|Quot|..] == t;
    assert r[1] == Quot[1] && r[2] == Quot[2];
    assert !OccursAt(r, Amp, 0);
  }

  lemma UnescapedApos(t: string)
    ensures Unescaped(Apos + t) == "'" + Unescaped(t)
  {
    var r := Apos + t;
    OccursPrefix(Apos, t);
    assert r[|Apos|..] == t;
    assert r[1] == Apos[1] && r[2] == Apos[2];
    assert !OccursAt(r, Amp, 0);
    assert !OccursAt(r, Quot, 0);
  }

  lemma UnescapedLt(t: string)
    ensures Unescaped(Lt + t) == "<" + Unescaped(t)
  {
    var r := Lt + t;
    OccursPrefix(Lt, t);
    assert r[|Lt|..] == t;
    assert r[1] == Lt[1] && r[2] == Lt[2];
    assert !OccursAt(r, Amp, 0);
    assert !OccursAt(r, Quot, 0);
    assert !OccursAt(r, Apos, 0);
  }

  lemma UnescapedGt(t: string)
    ensures Unescaped(Gt + t) == ">" + Unescaped(t)
  {
    var r := Gt + t;
    OccursPrefix(Gt, t);
    assert r[|Gt|..] == t;
    assert r[1] == Gt[1] && r[2] == Gt[2];
    assert !OccursAt(r, Amp, 0);
    assert !OccursAt(r, Quot, 0);
    assert !OccursAt(r, Apos, 0);
    assert !OccursAt(r, Lt, 0);
  }

  lemma UnescapedEntity(c: char, t: string)
    requires Special(c)
    ensures Unescaped(EntityOf(c) + t) == [c] + Unescaped(t)
  {
    if c == '&' { UnescapedAmp(t); }
    else if c == '"' { UnescapedQuot(t); }
    else if c == '\'' { UnescapedApos(t); }
    else if c == '<' { UnescapedLt(t); }
    else { UnescapedGt(t); }
  }

  /** Any other character is read back as itself. */
  lemma UnescapedPlain(c: char, t: string)
    requires c != '&'
    ensures Unescaped([c] + t) == [c] + Unescaped(t)
  {
    var r := [c] + t;
    assert r[0] == c && r[1..] == t;
    assert Amp[0] == '&' && Quot[0] == '&' && Apos[0] == '&' && Lt[0] == '&' && Gt[0] == '&';
  }

  lemma UnescapedStep(c: char, t: string)
    ensures Unescaped(EntityOf(c) + t) == [c] + Unescaped(t)
  {
    if !Special(c) {
      UnescapedPlain(c, t);
    } else {
      UnescapedEntity(c, t);
    }
  }

  /** Escaping loses nothing: the text can be read back. */
  lemma {:induction false} EscapedRoundTrip(s: string)
    ensures Unescaped(Escaped(s)) == s
  {
    if s != [] {
      UnescapedStep(s[0], Escaped(s[1..]));
      EscapedRoundTrip(s[1..]);
    }
  }

  predicate IsHexDigit(c: char) {
    '0' <= c <= '9' || 'a' <= c <= 'f' || 'A' <= c <= 'F'
  }

  function HexDigitValue(c: char): (r: nat)
    requires IsHexDigit(c)
    ensures r < 16
  {
    if '0' <= c <= '9' then c as nat - '0' as nat
    else if 'a' <= c <= 'f' then c as nat - 'a' as nat + 10
    else c as nat - 'A' as nat + 10
  }

  /** `hex_stream >> hex_val` on the two characters after a `%`, with the
      C++11 rules of `std::hex` extraction into an `int`: leading white
      space is skipped, a sign may come first, as many hex digits as there
      are are read, and an extraction that fails on a character stores 0.
      When both characters are white space the extraction stops before
      reading a number and stores nothing, so the source goes on with an
      uninitialised `hex_val`; the model gives 0 there too. */
  function HexRead(a: char, b: char): (r: int)
    ensures -15 <= r <= 255
    ensures IsHexDigit(a) && IsHexDigit(b) ==> r == 16 * HexDigitValue(a) + HexDigitValue(b)
  {
    if IsHexDigit(a) then
      if IsHexDigit(b) then 16 * HexDigitValue(a) + HexDigitValue(b) else HexDigitValue(a)
    else if InputStream.IsSpace(a) || a == '+' then
      if IsHexDigit(b) then HexDigitValue(b) else 0
    else if a == '-' then
      if IsHexDigit(b) then -(HexDigitValue(b) as int) else 0
    else 0
  }

  /** `static_cast<char>(hex_val)`: the low byte, as a character code. */
  function ByteChar(v: int): (c: char)
    ensures c as int == v % 256
  {
    (v % 256) as char
  }

  /** The value of a `key=value` segment as `parseQueryString` decodes it:
      `+` is a space, and a `%` with at least two characters after it is
      replaced by the byte those two encode. */
  function Decoded(v: string): (r: string)
    ensures |r| <= |v|
    decreases |v|
  {
    if v == [] then []
    else if v[0] == '%' && 2 < |v| then [ByteChar(HexRead(v[1], v[2]))] + Decoded(v[3..])
    else if v[0] == '+' then " " + Decoded(v[1..])
    else [v[0]] + Decoded(v[1..])
  }

  lemma DecodedAt(v: string, i: int)
    requires 0 <= i < |v|
    ensures Decoded(v[i..]) ==
      if v[i] == '%' && i + 2 < |v| then [ByteChar(HexRead(v[i + 1], v[i + 2]))] + Decoded(v[i + 3..])
      else if v[i] == '+' then " " + Decoded(v[i + 1..])
      else [v[i]] + Decoded(v[i + 1..])
  {
    var r := v[i..];
    assert r[0] == v[i] && r[1..] == v[i + 1..];
    if v[i] == '%' && i + 2 < |v| {
      assert r[1] == v[i + 1] && r[2] == v[i + 2] && r[3..] == v[i + 3..];
    }
  }

  /** The decoding loop over `value`, with its `i += 2` skip. */
  method DecodeValue(value: string) returns (decoded: string)
    ensures decoded == Decoded(value)
  {
    decoded := [];
    var i := 0;
    while i < |value|
      invariant 0 <= i <= |value|
      invariant decoded + Decoded(value[i..]) == Decoded(value)
    {
      DecodedAt(value, i);
      if value[i] == '%' && i + 2 < |value| {
        var c := ByteChar(HexRead(value[i + 1], value[i + 2]));
        Regroup(decoded, [c], Decoded(value[i + 3..]));
        decoded := decoded + [c];
        i := i + 2;
      } else if value[i] == '+' {
        Regroup(decoded, " ", Decoded(value[i + 1..]));
        decoded := decoded + " ";
      } else {
        Regroup(decoded, [value[i]], Decoded(value[i + 1..]));
        decoded := decoded + [value[i]];
      }
      i := i + 1;
    }
  }

  lemma Regroup(a: string, b: string, c: string)
    ensures (a + b) + c == a + (b + c)
  {
  }

  /** A value with neither `%` nor `+` is kept as it is. */
  lemma {:induction false} DecodedPlain(v: string)
    requires forall j :: 0 <= j < |v| ==> v[j] != '%' && v[j] != '+'
    ensures Decoded(v) == v
    decreases |v|
  {
    if v != [] {
      assert forall j :: 0 <= j < |v[1..]| ==> v[1..][j] == v[j + 1];
      DecodedPlain(v[1..]);
    }
  }

  const HexDigits: string := "0123456789ABCDEF"

  /** Percent-encoding of byte characters, every byte as `%XY`. */
  function PercentEncoded(s: string): string
    requires forall j :: 0 <= j < |s| ==> s[j] as int < 256
  {
    if s == [] then []
    else
      var b := s[0] as int;
      ['%', HexDigits[b / 16], HexDigits[b % 16]] + PercentEncoded(s[1..])
  }

  lemma HexDigitRead(d: nat)
    requires d < 16
    ensures IsHexDigit(HexDigits[d]) && HexDigitValue(HexDigits[d]) == d
  {
  }

  lemma HexPairRead(b: nat)
    requires b < 256
    ensures ByteChar(HexRead(HexDigits[b / 16], HexDigits[b % 16])) as int == b
  {
    HexDigitRead(b / 16);
    HexDigitRead(b % 16);
  }

  /** Decoding undoes percent-encoding. */
  lemma {:induction false} DecodedEncoded(s: string)
    requires forall j :: 0 <= j < |s| ==> s[j] as int < 256
    ensures Decoded(PercentEncoded(s)) == s
  {
    if s != [] {
      var b := s[0] as int;
      var e := PercentEncoded(s);
      assert e[0] == '%' && e[1] == HexDigits[b / 16] && e[2] == HexDigits[b % 16];
      assert e[3..] == PercentEncoded(s[1..]);
      HexPairRead(b);
      DecodedEncoded(s[1..]);
    }
  }

  /** The entry one `&`-separated segment adds: the text before its first
      `=` as the key, undecoded, and the decoded rest as the value; none
      when the segment holds no `=`. */
  function Segment(seg: string): (r: Option<(string, string)>)
    ensures r.None? <==> '=' !in seg
    ensures r.Some? ==> var p := |r.value.0|;
      p < |seg| && seg[p] == '=' && r.value.0 == seg[..p] && '=' !in r.value.0 &&
      r.value.1 == Decoded(seg[p + 1..])
  {
    match InputStream.IndexOf(seg, '=')
    case None => None
    case Some(p) =>
      assert forall j :: 0 <= j < p ==> seg[..p][j] == seg[j];
      Some((seg[..p], Decoded(seg[p + 1..])))
  }

  /** The assignments the segments make, in order. */
  function Entries(segs: seq<string>): (r: seq<(string, string)>)
    ensures |r| <= |segs|
  {
    if segs == [] then []
    else
      match Segment(segs[0])
      case None => Entries(segs[1..])
      case Some(e) => [e] + Entries(segs[1..])
  }

  /** The parameters of a query string: each segment `std::getline`
      reads, assigned in order into a `std::map`. */
  function Params(query: string): (r: SortedMap.Map<string>)
    ensures SortedMap.Sorted(r)
  {
    SortedMap.PutAll([], Entries(InputStream.Lines(query, '&')))
  }

  /** `parseQueryString`: the `getline` loop over the segments. */
  method ParseQueryString(query: string) returns (data: SortedMap.Map<string>)
    ensures data == Params(query)
  {
    data := [];
    var rest := query;
    while rest != []
      invariant SortedMap.Sorted(data)
      invariant SortedMap.PutAll(data, Entries(InputStream.Lines(rest, '&'))) == Params(query)
      decreases |rest|
    {
      var (key, after) := InputStream.GetLine(rest, '&');
      assert InputStream.Lines(rest, '&') == [key] + InputStream.Lines(after, '&');
      assert ([key] + InputStream.Lines(after, '&'))[1..] == InputStream.Lines(after, '&');
      var pos := InputStream.IndexOf(key, '=');
      if pos.Some? {
        var value := DecodeValue(key[pos.value + 1..]);
        var name := key[..pos.value];
        data := SortedMap.Put(data, name, value);
      }
      rest := after;
    }
  }

  /** A key's value is the one its last segment gives; keys no segment
      names are absent. */
  lemma ParamsLastWins(query: string, k: string)
    ensures SortedMap.Get(Params(query), k) == SortedMap.LastValue(Entries(InputStream.Lines(query, '&')), k)
  {
    SortedMap.PutAllGet([], Entries(InputStream.Lines(query, '&')), k);
  }

  /** A segment without `=` adds nothing. */
  lemma SegmentWithoutEquals(seg: string, rest: string)
    requires '&' !in seg && '=' !in seg
    ensures Params(seg + "&" + rest) == Params(rest)
  {
    InputStream.LinesCons(seg, rest, '&');
  }

  /** A `key=value` segment with no `=` in the key splits at that `=`. */
  lemma SegmentOf(k: string, v: string)
    requires '=' !in k
    ensures Segment(k + "=" + v) == Some((k, Decoded(v)))
  {
    var seg := k + "=" + v;
    assert seg[|k|] == '=';
    var p := InputStream.IndexOf(seg, '=').value;
    assert p == |k|;
    assert seg[..p] == k && seg[p + 1..] == v;
  }

  /** A single `key=value` segment gives exactly that parameter, its
      value decoded. */
  lemma SingleSegment(k: string, v: string)
    requires '&' !in k && '&' !in v && '=' !in k
    ensures Params(k + "=" + v) == [(k, Decoded(v))]
  {
    var seg := k + "=" + v;
    SegmentOf(k, v);
    OneLine(k, v);
    var e := (k, Decoded(v));
    assert Entries([seg]) == [e] + Entries([seg][1..]);
    assert [seg][1..] == [];
    assert [e][1..] == [];
    SingleEntry(e);
  }

  /** A segment without `&` is the only one. */
  lemma OneLine(k: string, v: string)
    requires '&' !in k && '&' !in v
    ensures InputStream.Lines(k + "=" + v, '&') == [k + "=" + v]
  {
    var seg := k + "=" + v;
    assert forall j :: 0 <= j < |seg| ==> seg[j] != '&' by {
      forall j | 0 <= j < |seg|
        ensures seg[j] != '&'
      {
        if j < |k| {
          assert seg[j] == k[j];
        } else if j > |k| {
          assert seg[j] == v[j - |k| - 1];
        }
      }
    }
    assert InputStream.Lines([], '&') == [];
  }

  lemma SingleEntry(e: (string, string))
    ensures SortedMap.PutAll([], [e]) == [e]
  {
    assert [e][1..] == [];
    assert SortedMap.Put([], e.0, e.1) == [e];
  }

  /** `queryParams.insert(first, last)`: each entry of the second map is
      added only when its key is not already present. */
  function Merge(query: SortedMap.Map<string>, post: SortedMap.Map<string>): (r: SortedMap.Map<string>)
    requires SortedMap.Sorted(query)
    ensures SortedMap.Sorted(r)
    decreases |post|
  {
    if post == [] then query
    else Merge(SortedMap.Insert(query, post[0].0, post[0].1), post[1..])
  }

  /** A key of the query string keeps its query-string value; the body
      only contributes keys the query string lacks. */
  lemma {:induction false} MergeQueryWins(query: SortedMap.Map<string>, post: SortedMap.Map<string>, k: string)
    requires SortedMap.Sorted(query)
    decreases |post|
    ensures SortedMap.Get(Merge(query, post), k) ==
      if k in SortedMap.Keys(query) then SortedMap.Get(query, k) else SortedMap.Get(post, k)
  {
    if post != [] {
      var q := SortedMap.Insert(query, post[0].0, post[0].1);
      MergeQueryWins(q, post[1..], k);
    }
  }

  /** `getenv(name) ? getenv(name) : ""`. */
  function Getenv(environ: Assoc.Table, name: string): (r: string)
    ensures Assoc.Lookup(environ, name).None? ==> r == []
  {
    Assoc.Lookup(environ, name).GetOr([])
  }

  const FormType: string := "application/x-www-form-urlencoded"

  /** The parameters `main` lists: those of a non-empty query string, and
      for a POST with a urlencoded content type, those of the body
      (`readPostData`'s result) merged in. */
  function RequestParams(environ: Assoc.Table, postData: string): (r: SortedMap.Map<string>)
    ensures SortedMap.Sorted(r)
  {
    var query := Getenv(environ, "QUERY_STRING");
    var params := if query != [] then Params(query) else [];
    if Getenv(environ, "REQUEST_METHOD") == "POST" && Contains(Getenv(environ, "CONTENT_TYPE"), FormType)
    then Merge(params, Params(postData))
    else params
  }

  /** Only a urlencoded POST reads parameters from the body, and there the
      query string's value of a key wins. */
  lemma RequestParamsSources(environ: Assoc.Table, postData: string, k: string)
    ensures var query := Params(Getenv(environ, "QUERY_STRING"));
      var form := Getenv(environ, "REQUEST_METHOD") == "POST" && Contains(Getenv(environ, "CONTENT_TYPE"), FormType);
      SortedMap.Get(RequestParams(environ, postData), k) ==
        if k in SortedMap.Keys(query) || !form then SortedMap.Get(query, k)
        else SortedMap.Get(Params(postData), k)
  {
    var q := Getenv(environ, "QUERY_STRING");
    if q == [] {
      assert InputStream.Lines(q, '&') == [];
    }
    MergeQueryWins(Params(q), Params(postData), k);
  }

  /** The cells of the parameter table: key and value both escaped. */
  function ParamCells(params: SortedMap.Map<string>): (cells: seq<(string, string)>)
    ensures |cells| == |params|
    ensures forall i :: 0 <= i < |cells| ==> cells[i] == (Escaped(params[i].0), Escaped(params[i].1))
  {
    seq(|params|, i requires 0 <= i < |params| => (Escaped(params[i].0), Escaped(params[i].1)))
  }

  /** Every parameter cell is safe to write into the page. */
  lemma ParamCellsSafe(params: SortedMap.Map<string>)
    ensures forall i :: 0 <= i < |params| ==> Safe(ParamCells(params)[i].0) && Safe(ParamCells(params)[i].1)
  {
    forall i | 0 <= i < |params|
      ensures Safe(ParamCells(params)[i].0) && Safe(ParamCells(params)[i].1)
    {
      EscapedSafe(params[i].0);
      EscapedSafe(params[i].1);
    }
  }
}
