/** The server's string helpers (`StringUtils`): whitespace trimming,
    splitting on a delimiter, ASCII case conversion, and extraction of the
    multipart boundary parameter of a Content-Type value. */
module StringUtils {
  import opened Wrappers
  import opened Text
  import opened InputStream

  /** The characters `trim` removes: `" \t\r\n"`. */
  const WS: set<char> := {' ', '\t', '\r', '\n'}

  /** `r` sits at offset `i` of `s` with only whitespace around it. */
  predicate Padded(s: string, r: string, i: int) {
    0 <= i && i + |r| <= |s| && s[i..i + |r|] == r &&
    (forall j :: 0 <= j < i ==> s[j] in WS) &&
    (forall j :: i + |r| <= j < |s| ==> s[j] in WS)
  }

  /** `StringUtils::trim`: the text between the first and the last
      character that is not whitespace, or "" when there is none. */
  function Trim(s: string): (r: string)
    ensures r == [] <==> forall j :: 0 <= j < |s| ==> s[j] in WS
    ensures r != [] ==> r[0] !in WS && r[|r| - 1] !in WS
    ensures exists i :: Padded(s, r, i)
  {
    match FindFirstNotOf(s, WS)
    case None =>
      assert Padded(s, [], 0);
      []
    case Some(first) =>
      var last := FindLastNotOf(s, WS).value;
      assert Padded(s, s[first..last + 1], first);
      s[first..last + 1]
  }

  /** The trimmed text is the only core of `s`: any non-padded text that
      `s` surrounds with whitespace is `Trim(s)`. */
  lemma TrimUnique(s: string, r: string, i: int)
    requires Padded(s, r, i)
    requires r == [] || (r[0] !in WS && r[|r| - 1] !in WS)
    ensures Trim(s) == r
  {
    if r != [] {
      assert s[i] == r[0];
      assert s[i + |r| - 1] == r[|r| - 1];
      var first := FindFirstNotOf(s, WS);
      var last := FindLastNotOf(s, WS);
      assert first == Some(i);
      assert last == Some(i + |r| - 1);
    }
  }

  /** Trimming twice is trimming once. */
  lemma TrimIdempotent(s: string)
    ensures Trim(Trim(s)) == Trim(s)
  {
    var r := Trim(s);
    assert Padded(r, r, 0);
    TrimUnique(r, r, 0);
  }

  /** The tokens of `StringUtils::split`, gathered as its `getline` loop
      does. */
  method Split(s: string, delim: char) returns (tokens: seq<string>)
    ensures tokens == Lines(s, delim)
  {
    tokens := [];
    var rest := s;
    while rest != []
      invariant tokens + Lines(rest, delim) == Lines(s, delim)
      decreases |rest|
    {
      var (token, after) := GetLine(rest, delim);
      tokens := tokens + [token];
      rest := after;
    }
  }

  /** The tokens of a split joined back with the delimiter. */
  function Join(ts: seq<string>, delim: char): (r: string)
    ensures ts == [] ==> r == []
  {
    if ts == [] then []
    else if |ts| == 1 then ts[0]
    else ts[0] + [delim] + Join(ts[1..], delim)
  }

  /** No token contains the delimiter. */
  lemma {:induction false} LinesHaveNoDelimiter(s: string, delim: char)
    decreases |s|
    ensures forall t :: t in Lines(s, delim) ==> delim !in t
  {
    if s != [] {
      var (line, rest) := GetLine(s, delim);
      LinesHaveNoDelimiter(rest, delim);
    }
  }

  lemma JoinCons(t: string, ts: seq<string>, delim: char)
    requires ts != []
    ensures Join([t] + ts, delim) == t + [delim] + Join(ts, delim)
  {
    assert ([t] + ts)[1..] == ts;
  }

  /** The text `Join(Lines(s))` leaves out: a final delimiter. */
  function FinalDelimiter(s: string, delim: char): string {
    if s != [] && s[|s| - 1] == delim then [delim] else []
  }

  lemma JoinLinesOne(s: string, delim: char)
    requires s != [] && delim !in s
    ensures Join(Lines(s, delim), delim) + FinalDelimiter(s, delim) == s
  {
    assert Lines(s, delim) == [s];
    assert s[|s| - 1] in s;
  }

  lemma JoinLinesLast(s: string, delim: char)
    requires s != [] && delim in s && GetLine(s, delim).1 == []
    ensures Join(Lines(s, delim), delim) + FinalDelimiter(s, delim) == s
  {
    var line := GetLine(s, delim).0;
    assert Lines(s, delim) == [line];
    assert s == line + [delim];
  }

  lemma AppendRegroup(line: string, d: string, j: string, f: string, rest: string)
    requires j + f == rest
    ensures (line + d + j) + f == line + d + rest
  {
  }

  lemma FinalDelimiterAppend(line: string, rest: string, delim: char)
    requires rest != []
    ensures FinalDelimiter(line + [delim] + rest, delim) == FinalDelimiter(rest, delim)
  {
    var s := line + [delim] + rest;
    assert s[|s| - 1] == rest[|rest| - 1];
  }

  lemma JoinLinesStep(line: string, rest: string, delim: char)
    requires delim !in line && rest != []
    requires Join(Lines(rest, delim), delim) + FinalDelimiter(rest, delim) == rest
    ensures var s := line + [delim] + rest;
      Join(Lines(s, delim), delim) + FinalDelimiter(s, delim) == s
  {
    var ls := Lines(rest, delim);
    LinesCons(line, rest, delim);
    JoinCons(line, ls, delim);
    FinalDelimiterAppend(line, rest, delim);
    AppendRegroup(line, [delim], Join(ls, delim), FinalDelimiter(rest, delim), rest);
  }

  /** Joining the tokens gives the string back, except for a final
      delimiter, which produces no trailing empty token. */
  lemma {:induction false} JoinLines(s: string, delim: char)
    decreases |s|
    ensures Join(Lines(s, delim), delim) + FinalDelimiter(s, delim) == s
  {
    if s != [] {
      var rest := GetLine(s, delim).1;
      if delim !in s {
        JoinLinesOne(s, delim);
      } else if rest == [] {
        JoinLinesLast(s, delim);
      } else {
        JoinLines(rest, delim);
        JoinLinesStep(GetLine(s, delim).0, rest, delim);
      }
    }
  }

  /** Round trip of split and join for a string with no final delimiter. */
  lemma SplitJoin(s: string, delim: char)
    requires s != [] && s[|s| - 1] != delim
    ensures Join(Lines(s, delim), delim) == s
  {
    JoinLines(s, delim);
  }

  predicate IsUpper(c: char) {
    'A' <= c <= 'Z'
  }

  predicate IsLower(c: char) {
    'a' <= c <= 'z'
  }

  /** `::tolower` on one character in the C locale. */
  function LowerChar(c: char): char {
    if IsUpper(c) then (c as int + 32) as char else c
  }

  /** `::toupper` on one character in the C locale. */
  function UpperChar(c: char): char {
    if IsLower(c) then (c as int - 32) as char else c
  }

  /** `StringUtils::toLower`: every ASCII capital replaced by its small
      letter, every other character kept. */
  function ToLower(s: string): (r: string)
    ensures |r| == |s|
    ensures forall i :: 0 <= i < |r| ==> !IsUpper(r[i])
    ensures forall i :: 0 <= i < |r| ==> r[i] == s[i] || (IsUpper(s[i]) && r[i] as int == s[i] as int + 32)
  {
    seq(|s|, i requires 0 <= i < |s| => LowerChar(s[i]))
  }

  /** `StringUtils::toUpper`: every ASCII small letter replaced by its
      capital, every other character kept. */
  function ToUpper(s: string): (r: string)
    ensures |r| == |s|
    ensures forall i :: 0 <= i < |r| ==> !IsLower(r[i])
    ensures forall i :: 0 <= i < |r| ==> r[i] == s[i] || (IsLower(s[i]) && r[i] as int == s[i] as int - 32)
  {
    seq(|s|, i requires 0 <= i < |s| => UpperChar(s[i]))
  }

  /** Converting twice is converting once, and the two conversions agree
      up to case. */
  lemma CaseConversions(s: string)
    ensures ToLower(ToLower(s)) == ToLower(s)
    ensures ToUpper(ToUpper(s)) == ToUpper(s)
    ensures ToLower(ToUpper(s)) == ToLower(s)
    ensures ToUpper(ToLower(s)) == ToUpper(s)
  {
  }

  const BOUNDARY_KEY: string := "boundary="

  /** `extractBoundary`: everything after the first `boundary=`, or "". */
  function ExtractBoundary(contentType: string): (r: string)
    ensures Find(contentType, BOUNDARY_KEY).None? ==> r == []
    ensures Find(contentType, BOUNDARY_KEY).Some? ==>
      var p := Find(contentType, BOUNDARY_KEY).value;
      contentType == contentType[..p] + BOUNDARY_KEY + r
  {
    match Find(contentType, BOUNDARY_KEY)
    case None => []
    case Some(p) =>
      assert contentType == contentType[..p] + contentType[p..p + 9] + contentType[p + 9..];
      contentType[p + 9..]
  }

  /** The boundary of a parameter list in which no `b` precedes the
      parameter is the whole rest of the value, later parameters and
      quotes included. */
  lemma ExtractBoundaryAfter(prefix: string, rest: string)
    requires 'b' !in prefix
    ensures ExtractBoundary(prefix + BOUNDARY_KEY + rest) == rest
  {
    var s := prefix + BOUNDARY_KEY + rest;
    assert OccursAt(s, BOUNDARY_KEY, |prefix|) by {
      assert s[|prefix|..|prefix| + 9] == BOUNDARY_KEY;
    }
    forall j | 0 <= j < |prefix|
      ensures !OccursAt(s, BOUNDARY_KEY, j)
    {
      assert s[j] == prefix[j];
    }
  }
}
