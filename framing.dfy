/** The framing the server, the client buffers and the CGI executor share:
    a header section of CRLF-separated lines, a blank line, then the body
    (section 3 of RFC 7230). */
module Framing {
  import opened Wrappers
  import opened Text

  /** The end of one header line. */
  const CRLF: string := "\r\n"

  /** The CRLF CRLF that ends a header section. */
  const Blank: string := "\r\n\r\n"

  /** A text split at its first blank line into the header section and
      the body; None when there is no blank line. */
  function SplitAtBlank(s: string): (r: Option<(string, string)>)
    ensures r.Some? ==> s == r.value.0 + Blank + r.value.1
    ensures r.Some? ==> forall j :: 0 <= j < |r.value.0| ==> !OccursAt(s, Blank, j)
    ensures r.None? ==> forall j :: !OccursAt(s, Blank, j)
  {
    match Find(s, Blank)
    case None => None
    case Some(k) =>
      assert s[k..k + 4] == Blank;
      assert s == s[..k] + Blank + s[k + 4..];
      Some((s[..k], s[k + 4..]))
  }

  /** A text made of a header section, a blank line and a body, with no
      blank line inside the header section, splits there. */
  lemma SplitAt(s: string, h: string, b: string)
    requires s == h + Blank + b
    requires forall j :: 0 <= j < |h| ==> !OccursAt(s, Blank, j)
    ensures SplitAtBlank(s) == Some((h, b))
  {
    assert OccursAt(s, Blank, |h|) by {
      assert s[|h|..|h| + 4] == Blank;
    }
    var k := Find(s, Blank).value;
    assert k == |h|;
    assert s[..|h|] == h;
    assert s[|h| + 4..] == b;
  }

  /** A text without CR. */
  predicate NoCr(s: string) {
    forall j :: 0 <= j < |s| ==> s[j] != '\r'
  }

  lemma NoCrAppend(a: string, b: string)
    requires NoCr(a) && NoCr(b)
    ensures NoCr(a + b)
  {
    forall j | 0 <= j < |a + b|
      ensures (a + b)[j] != '\r'
    {
      if j < |a| {
        assert (a + b)[j] == a[j];
      } else {
        assert (a + b)[j] == b[j - |a|];
      }
    }
  }

  /** No blank line starts inside a line without CR or at its CRLF, unless
      the text after the CRLF starts with another CRLF. */
  lemma NoBlankInLine(l: string, t: string)
    requires NoCr(l)
    requires !(|t| >= 2 && t[0] == '\r' && t[1] == '\n')
    ensures forall j :: 0 <= j < |l| + 2 ==> !OccursAt(l + "\r\n" + t, Blank, j)
  {
    var s := l + "\r\n" + t;
    var n := |l| + 2;
    forall j | 0 <= j < n
      ensures !OccursAt(s, Blank, j)
    {
      if j == n - 2 {
        if |t| >= 2 {
          assert s[n] == t[0] && s[n + 1] == t[1];
        }
      } else if j == n - 1 {
        assert s[j] == '\n';
      } else {
        assert s[j] == l[j];
      }
    }
  }

  /** A blank line that does not start in `t` does not start at the
      matching place in `p + t`. */
  lemma NoBlankShifted(p: string, t: string, j: int)
    requires 0 <= j && !OccursAt(t, Blank, j)
    ensures !OccursAt(p + t, Blank, |p| + j)
  {
  }

  /** Text without CR put in front of a text leaves its first blank line
      where it was: the prefix joins the header section. */
  lemma PlainThenSplit(l: string, s: string)
    requires NoCr(l) && SplitAtBlank(s).Some?
    ensures var (h, b) := SplitAtBlank(s).value;
      SplitAtBlank(l + s) == Some((l + h, b))
  {
    var (h, b) := SplitAtBlank(s).value;
    var t := l + s;
    forall j | 0 <= j < |l| + |h|
      ensures !OccursAt(t, Blank, j)
    {
      if j < |l| {
        assert t[j] == l[j];
        NoBlankAtPlain(t, j);
      } else {
        NoBlankShifted(l, s, j - |l|);
      }
    }
    assert t == (l + h) + Blank + b;
    SplitAt(t, l + h, b);
  }

  /** No blank line starts at a character other than CR. */
  lemma NoBlankAtPlain(t: string, j: int)
    requires 0 <= j < |t| && t[j] != '\r'
    ensures !OccursAt(t, Blank, j)
  {
    if j + 4 <= |t| {
      assert t[j..j + 4][0] == t[j];
    }
  }

  /** Header lines joined by CRLF, as a header section holds them. */
  function JoinCrlf(ls: seq<string>): (r: string)
    requires ls != []
    ensures ls[0] <= r
  {
    if |ls| == 1 then ls[0] else ls[0] + "\r\n" + JoinCrlf(ls[1..])
  }

  /** Lines that are non-empty and hold no CR. */
  predicate PlainLines(ls: seq<string>) {
    forall i :: 0 <= i < |ls| ==> ls[i] != [] && NoCr(ls[i])
  }

  /** A line without CR put in front of a header section that does not
      start with an empty line leaves the first blank line where it was. */
  lemma LineThenSplit(l: string, h: string, b: string)
    requires NoCr(l)
    requires h != [] && !(|h| >= 2 && h[0] == '\r' && h[1] == '\n')
    requires forall j :: 0 <= j < |h| ==> !OccursAt(h + Blank + b, Blank, j)
    ensures SplitAtBlank(l + "\r\n" + h + Blank + b) == Some((l + "\r\n" + h, b))
  {
    var t := h + Blank + b;
    var p := l + "\r\n";
    var s := p + t;
    if |h| == 1 {
      assert t[1] == '\r';
    } else {
      assert t[0] == h[0] && t[1] == h[1];
    }
    NoBlankInLine(l, t);
    forall j | |p| <= j < |p| + |h|
      ensures !OccursAt(s, Blank, j)
    {
      NoBlankShifted(p, t, j - |p|);
    }
    assert s == (p + h) + Blank + b;
    SplitAt(s, p + h, b);
  }

  lemma PlainLinesTail(ls: seq<string>)
    requires ls != [] && PlainLines(ls)
    ensures PlainLines(ls[1..])
  {
    var rest := ls[1..];
    forall i | 0 <= i < |rest|
      ensures rest[i] != [] && NoCr(rest[i])
    {
      assert rest[i] == ls[i + 1];
    }
  }

  /** Plain header lines, a blank line and any body split back into the
      joined lines and that body. */
  lemma {:induction false} JoinCrlfSplits(ls: seq<string>, body: string)
    requires ls != [] && PlainLines(ls)
    ensures SplitAtBlank(JoinCrlf(ls) + Blank + body) == Some((JoinCrlf(ls), body))
  {
    var l := ls[0];
    if |ls| == 1 {
      var s := l + Blank + body;
      forall j | 0 <= j < |l|
        ensures !OccursAt(s, Blank, j)
      {
        assert s[j] == l[j];
      }
      SplitAt(s, l, body);
    } else {
      PlainLinesTail(ls);
      JoinCrlfSplits(ls[1..], body);
      var h := JoinCrlf(ls[1..]);
      assert ls[1..][0] <= h;
      assert h[0] == ls[1][0];
      LineThenSplit(l, h, body);
    }
  }

  /** Decimal text holds no CR. */
  lemma NatTextPlain(n: nat)
    ensures NoCr(NatToString(n))
  {
    var r := NatToString(n);
    forall j | 0 <= j < |r|
      ensures r[j] != '\r'
    {
      assert IsDigit(r[j]);
    }
  }
}
