/** The parts of `std::istringstream` the server relies on: `std::getline`
    with a delimiter, and formatted extraction (`>>`) of words, `int` and
    `size_t` values, following libstdc++ (C++11 rules: a failed numeric
    conversion stores 0, an out-of-range one stores the nearest limit, and a
    failed sentry leaves the target untouched). */
module InputStream {
  import opened Wrappers
  import opened Text

  const INT_MIN: int := -0x8000_0000
  const INT_MAX: int := 0x7FFF_FFFF
  const SIZE_MAX: int := 0xFFFF_FFFF_FFFF_FFFF

  /** `isspace` in the C locale. */
  predicate IsSpace(c: char) {
    c == ' ' || c == '\t' || c == '\n' || c == '\U{000B}' || c == '\U{000C}' || c == '\r'
  }

  /** First index of `c` in `s`. */
  function IndexOf(s: string, c: char): (r: Option<nat>)
    ensures r.Some? ==> r.value < |s| && s[r.value] == c
    ensures r.Some? ==> forall j :: 0 <= j < r.value ==> s[j] != c
    ensures r.None? <==> c !in s
  {
    if s == [] then None
    else if s[0] == c then Some(0)
    else match IndexOf(s[1..], c)
      case None => None
      case Some(i) => Some(i + 1)
  }

  /** `std::getline(in, line, delim)` when input remains: the text up to the
      first `delim` (not included), and the input after that `delim`. */
  function GetLine(s: string, delim: char): (r: (string, string))
    requires s != []
    ensures delim !in r.0
    ensures |r.1| < |s|
    ensures delim in s ==> s == r.0 + [delim] + r.1
    ensures delim !in s ==> r.0 == s && r.1 == []
  {
    match IndexOf(s, delim)
    case None => (s, [])
    case Some(i) =>
      assert s == s[..i] + [delim] + s[i + 1..];
      (s[..i], s[i + 1..])
  }

  /** `getline` stops at the first delimiter: a line without the delimiter
      followed by the delimiter is read back whole. */
  lemma GetLineSplit(line: string, rest: string, delim: char)
    requires delim !in line
    ensures GetLine(line + [delim] + rest, delim) == (line, rest)
  {
    var s := line + [delim] + rest;
    assert s[|line|] == delim;
    forall j | 0 <= j < |line|
      ensures s[j] != delim
    {
      assert s[j] == line[j];
    }
    assert s[..|line|] == line && s[|line| + 1..] == rest;
  }

  /** The lines a `while (std::getline(in, line, delim))` loop sees: a final
      delimiter does not produce a trailing empty line. */
  function Lines(s: string, delim: char): (ls: seq<string>)
    decreases |s|
    ensures s == [] <==> ls == []
  {
    if s == [] then [] else var (line, rest) := GetLine(s, delim); [line] + Lines(rest, delim)
  }

  /** A line and its delimiter in front of `rest` add that line in front
      of the lines of `rest`. */
  lemma LinesCons(line: string, rest: string, delim: char)
    requires delim !in line
    ensures Lines(line + [delim] + rest, delim) == [line] + Lines(rest, delim)
  {
    GetLineSplit(line, rest, delim);
  }

  /** The remaining input with its leading whitespace skipped (a sentry). */
  function SkipSpace(s: string): (r: string)
    ensures |r| <= |s|
    ensures r == [] || !IsSpace(r[0])
    ensures forall i :: 0 <= i < |s| - |r| ==> IsSpace(s[i])
  {
    if s != [] && IsSpace(s[0]) then SkipSpace(s[1..]) else s
  }

  /** The longest prefix of `s` without whitespace. */
  function WordPrefix(s: string): (w: string)
    ensures w <= s
    ensures forall i :: 0 <= i < |w| ==> !IsSpace(w[i])
    ensures |w| == |s| || IsSpace(s[|w|])
    ensures s != [] && !IsSpace(s[0]) ==> |w| >= 1
  {
    if s == [] || IsSpace(s[0]) then [] else [s[0]] + WordPrefix(s[1..])
  }

  /** The longest prefix of `s` made of decimal digits. */
  function DigitPrefix(s: string): (d: string)
    ensures d <= s
    ensures forall i :: 0 <= i < |d| ==> IsDigit(d[i])
    ensures |d| == |s| || !IsDigit(s[|d|])
  {
    if s == [] || !IsDigit(s[0]) then [] else [s[0]] + DigitPrefix(s[1..])
  }

  /** An input string stream: what is left to read, and its fail bit. */
  datatype Stream = Stream(rest: string, failed: bool)

  function Open(s: string): Stream {
    Stream(s, false)
  }

  /** `in >> word`. None means the sentry failed (the stream had already
      failed, or only whitespace was left) and the target keeps its value. */
  function ReadWord(st: Stream): (r: (Stream, Option<string>))
    ensures r.1.Some? ==> |r.1.value| >= 1 && forall i :: 0 <= i < |r.1.value| ==> !IsSpace(r.1.value[i])
    ensures r.1.Some? <==> !r.0.failed
    ensures r.0.failed ==> r.1.None?
  {
    var t := SkipSpace(st.rest);
    if st.failed || t == [] then (Stream(t, true), None)
    else
      var w := WordPrefix(t);
      (Stream(t[|w|..], false), Some(w))
  }

  /** The sign and the digit run that numeric extraction accumulates. */
  function SignedDigits(t: string): (r: (bool, string, string))
    ensures forall i :: 0 <= i < |r.1| ==> IsDigit(r.1[i])
  {
    var signLen := if t != [] && (t[0] == '-' || t[0] == '+') then 1 else 0;
    var ds := DigitPrefix(t[signLen..]);
    (signLen == 1 && t[0] == '-', ds, t[signLen + |ds|..])
  }

  /** `in >> n` for an `int n`. None means the sentry failed and `n` keeps
      its value; a field without digits stores 0 and fails the stream. */
  function ReadInt(st: Stream): (r: (Stream, Option<int>))
    ensures r.1.Some? ==> INT_MIN <= r.1.value <= INT_MAX
    ensures r.0.failed ==> st.failed || r.1.None? || r.1 == Some(0) || r.1 == Some(INT_MIN) || r.1 == Some(INT_MAX)
  {
    var t := SkipSpace(st.rest);
    if st.failed || t == [] then (Stream(t, true), None)
    else
      var (neg, ds, rest) := SignedDigits(t);
      if ds == [] then (Stream(rest, true), Some(0))
      else
        var m: int := DigitsValue(ds);
        if neg && -m < INT_MIN then (Stream(rest, true), Some(INT_MIN))
        else if !neg && m > INT_MAX then (Stream(rest, true), Some(INT_MAX))
        else (Stream(rest, false), Some(if neg then -m else m))
  }

  /** `in >> n` for a `size_t n`: as for `int`, except that a leading `-`
      negates modulo 2^64 (the `strtoull` rule libstdc++ follows). */
  function ReadSize(st: Stream): (r: (Stream, Option<nat>))
    ensures r.1.Some? ==> r.1.value <= SIZE_MAX
  {
    var t := SkipSpace(st.rest);
    if st.failed || t == [] then (Stream(t, true), None)
    else
      var (neg, ds, rest) := SignedDigits(t);
      if ds == [] then (Stream(rest, true), Some(0))
      else
        var (overflow, v) := StoreSize(neg, DigitsValue(ds));
        (Stream(rest, overflow), Some(v))
  }

  /** The `size_t` a signed digit run stores, and whether it overflowed. */
  function StoreSize(neg: bool, m: nat): (r: (bool, nat))
    ensures r.1 <= SIZE_MAX
  {
    if m > SIZE_MAX then (true, SIZE_MAX)
    else if neg && m > 0 then (false, SIZE_MAX + 1 - m)
    else (false, m)
  }

  /** Every whitespace-separated word of `s`, in order: what a loop
      `while (in >> word)` reads. */
  function Words(s: string): (ws: seq<string>)
    decreases |s|
  {
    var t := SkipSpace(s);
    if t == [] then [] else var w := WordPrefix(t); [w] + Words(t[|w|..])
  }

  /** Reading one word from a healthy stream yields the first of its words
      and leaves the others. */
  lemma ReadWordStep(s: string)
    ensures var (st, w) := ReadWord(Open(s));
      (Words(s) == [] ==> w.None?) &&
      (Words(s) != [] ==> w == Some(Words(s)[0]) && !st.failed && Words(st.rest) == Words(s)[1..])
  {
  }

  /** `std::string w; in >> w;`: the word read, or "" when the sentry
      fails. */
  function WordOrEmpty(st: Stream): string {
    ReadWord(st).1.GetOr([])
  }

  /** `in >> key` into an empty string: the first word of `line` (or "")
      and the stream after it. */
  function KeyOf(line: string): (r: (string, Stream))
    ensures r.0 != [] <==> !r.1.failed
  {
    var (st, k) := ReadWord(Open(line));
    (k.GetOr([]), st)
  }

  /** A non-empty run of characters that are not whitespace. */
  predicate IsWord(w: string) {
    w != [] && forall i :: 0 <= i < |w| ==> !IsSpace(w[i])
  }

  lemma {:induction false} WordPrefixOfWord(w: string, t: string)
    requires forall i :: 0 <= i < |w| ==> !IsSpace(w[i])
    requires t == [] || IsSpace(t[0])
    ensures WordPrefix(w + t) == w
  {
    if w != [] {
      assert (w + t)[1..] == w[1..] + t;
      WordPrefixOfWord(w[1..], t);
    } else {
      assert w + t == t;
    }
  }

  /** A word followed by a space is read whole, and the space stays in the
      stream. */
  lemma ReadWordSpaced(w: string, t: string)
    requires IsWord(w)
    ensures ReadWord(Open(w + " " + t)) == (Stream(" " + t, false), Some(w))
  {
    var s := w + " " + t;
    assert s == w + (" " + t);
    WordPrefixOfWord(w, " " + t);
    assert SkipSpace(s) == s;
    assert s[|w|..] == " " + t;
  }

  /** The last word of a line, after a space, is read whole. */
  lemma ReadLastWord(w: string)
    requires IsWord(w)
    ensures ReadWord(Stream(" " + w, false)) == (Stream([], false), Some(w))
  {
    assert (" " + w)[1..] == w;
    assert SkipSpace(w) == w;
    WordPrefixOfWord(w, []);
    assert w + [] == w;
  }

  /** A word, then a space and more text, read from after a space. */
  lemma ReadMiddleWord(w: string, t: string)
    requires IsWord(w)
    ensures ReadWord(Stream(" " + w + " " + t, false)) == (Stream(" " + t, false), Some(w))
  {
    var s := " " + w + " " + t;
    assert s[1..] == w + " " + t;
    ReadWordSpaced(w, t);
  }

  /** One space in front of a text that starts with no whitespace is all
      the sentry skips. */
  lemma SkipOneSpace(y: string)
    requires y != [] && !IsSpace(y[0])
    ensures SkipSpace(" " + y) == y
  {
    assert (" " + y)[1..] == y;
  }

  /** `in >> n` on a healthy stream whose next non-blank text is a signed
      digit run in range: the value is stored and the stream stays good. */
  lemma ReadIntRun(st: Stream, neg: bool, ds: string, rest: string)
    requires !st.failed && SkipSpace(st.rest) != []
    requires SignedDigits(SkipSpace(st.rest)) == (neg, ds, rest) && ds != []
    requires var m := DigitsValue(ds) as int; INT_MIN <= (if neg then -m else m) <= INT_MAX
    ensures var m := DigitsValue(ds) as int; ReadInt(st) == (Stream(rest, false), Some(if neg then -m else m))
  {
  }

  /** The decimal text of an `int` after a space is read back whole. */
  lemma ReadIntSpaced(i: int)
    requires INT_MIN <= i <= INT_MAX
    ensures ReadInt(Stream(" " + IntToString(i), false)) == (Stream([], false), Some(i))
  {
    ReadIntThenText(i, []);
    assert IntToString(i) + [] == IntToString(i);
  }

  /** The same, with more text after a space. */
  lemma ReadIntThenWord(i: int, t: string)
    requires INT_MIN <= i <= INT_MAX
    ensures ReadInt(Stream(" " + IntToString(i) + " " + t, false)) == (Stream(" " + t, false), Some(i))
  {
    ReadIntThenText(i, " " + t);
    assert " " + IntToString(i) + " " + t == " " + (IntToString(i) + (" " + t));
  }

  lemma ReadIntThenText(i: int, t: string)
    requires INT_MIN <= i <= INT_MAX
    requires t == [] || !IsDigit(t[0])
    ensures ReadInt(Stream(" " + (IntToString(i) + t), false)) == (Stream(t, false), Some(i))
  {
    var s := IntToString(i);
    var n: nat := if i < 0 then -i else i;
    SignedDigitsOfIntText(i);
    NatToStringValue(n);
    assert s[0] == '-' || IsDigit(s[0]);
    assert (s + t)[0] == s[0];
    SkipOneSpace(s + t);
    SignedDigitsSpaced(s, t);
    ReadIntRun(Stream(" " + (s + t), false), i < 0, NatToString(n), t);
  }

  /** The decimal text of a `size_t` after a space, followed by text
      that does not start with a digit, is read back as that value. */
  lemma ReadSizeThenText(n: nat, t: string)
    requires n <= SIZE_MAX
    requires t == [] || !IsDigit(t[0])
    ensures ReadSize(Stream(" " + (NatToString(n) + t), false)) == (Stream(t, false), Some(n))
  {
    var d := NatToString(n);
    SignedDigitsOfIntText(n);
    NatToStringValue(n);
    assert IsDigit(d[0]) && (d + t)[0] == d[0];
    SkipOneSpace(d + t);
    SignedDigitsSpaced(d, t);
  }

  lemma SignedDigitsSpaced(s: string, t: string)
    requires s != [] && SignedDigits(s).2 == [] && (t == [] || !IsDigit(t[0]))
    ensures SignedDigits(s + t) == (SignedDigits(s).0, SignedDigits(s).1, t)
  {
    var signLen := if s[0] == '-' || s[0] == '+' then 1 else 0;
    var ds := DigitPrefix(s[signLen..]);
    assert |s| == signLen + |ds|;
    assert s[signLen..] == ds;
    assert (s + t)[0] == s[0];
    assert (s + t)[signLen..] == ds + t;
    DigitPrefixOfRun(ds, t);
    assert (s + t)[signLen + |ds|..] == t;
  }

  lemma {:induction false} DigitPrefixOfRun(ds: string, t: string)
    requires forall i :: 0 <= i < |ds| ==> IsDigit(ds[i])
    requires t == [] || !IsDigit(t[0])
    ensures DigitPrefix(ds + t) == ds
  {
    if ds != [] {
      assert (ds + t)[1..] == ds[1..] + t;
      DigitPrefixOfRun(ds[1..], t);
    } else {
      assert ds + t == t;
    }
  }

  /** Leading whitespace does not change the words of a text. */
  lemma WordsSpaced(t: string)
    ensures Words(" " + t) == Words(t)
  {
    assert (" " + t)[1..] == t;
  }

  /** The decimal text of an `int` is read back as that `int`. */
  lemma IntToStringReadBack(i: int)
    requires INT_MIN <= i <= INT_MAX
    ensures ReadInt(Open(IntToString(i))) == (Stream([], false), Some(i))
  {
    var n: nat := if i < 0 then -i else i;
    var s := IntToString(i);
    SignedDigitsOfIntText(i);
    assert s[0] == '-' || IsDigit(s[0]);
    NatToStringValue(n);
    ReadWholeInt(s, i < 0, NatToString(n));
  }

  /** A signed digit run with nothing around it, in range, is read whole. */
  lemma ReadWholeInt(s: string, neg: bool, ds: string)
    requires s != [] && !IsSpace(s[0])
    requires ds != [] && SignedDigits(s) == (neg, ds, [])
    requires var v := if neg then -(DigitsValue(ds) as int) else DigitsValue(ds); INT_MIN <= v <= INT_MAX
    ensures ReadInt(Open(s)) == (Stream([], false), Some(if neg then -(DigitsValue(ds) as int) else DigitsValue(ds)))
  {
    assert SkipSpace(s) == s;
  }

  lemma SignedDigitsOfIntText(i: int)
    ensures var n: nat := if i < 0 then -i else i;
      SignedDigits(IntToString(i)) == (i < 0, NatToString(n), [])
  {
    var n: nat := if i < 0 then -i else i;
    var ds := NatToString(n);
    DigitRunIsWhole(ds);
    var s := IntToString(i);
    if i < 0 {
      assert s[1..] == ds;
    } else {
      assert s == ds;
      assert IsDigit(s[0]);
      assert s[0..] == ds;
      assert SignedDigits(s).1 == ds;
      assert s[|ds|..] == [];
    }
  }

  lemma {:induction false} DigitRunIsWhole(ds: string)
    requires forall i :: 0 <= i < |ds| ==> IsDigit(ds[i])
    ensures DigitPrefix(ds) == ds
  {
    if ds != [] {
      DigitRunIsWhole(ds[1..]);
    }
  }
}
