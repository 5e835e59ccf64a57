/**
  The .NET string and number primitives the request handler relies on:
  String.Trim, String.Split with one separator character, the ordinal
  search for "\r\n", Int32.TryParse and the decimal rendering of an integer.
  Strings are sequences of characters, as in the program.
 */
module Text {
  import opened Wrappers

  const Int32Min: int := -0x8000_0000
  const Int32Max: int := 0x7FFF_FFFF

  /** The characters for which char.IsWhiteSpace holds: U+0009..U+000D, U+0085 and the Unicode space, line and paragraph separators. */
  const WhiteSpaceChars: set<char> := {
    '\t', '\n', '\U{000B}', '\U{000C}', '\r', ' ', '\U{0085}', '\U{00A0}', '\U{1680}',
    '\U{2000}', '\U{2001}', '\U{2002}', '\U{2003}', '\U{2004}', '\U{2005}', '\U{2006}',
    '\U{2007}', '\U{2008}', '\U{2009}', '\U{200A}', '\U{2028}', '\U{2029}', '\U{202F}',
    '\U{205F}', '\U{3000}'
  }

  predicate IsWhiteSpace(c: char) {
    c in WhiteSpaceChars
  }

  predicate NoWhiteSpace(s: string) {
    forall i :: 0 <= i < |s| ==> !IsWhiteSpace(s[i])
  }

  /** The leading white space of `s` removed. */
  function TrimStart(s: string): (r: string)
    ensures |r| <= |s| && r == s[|s| - |r|..]
    ensures forall i :: 0 <= i < |s| - |r| ==> IsWhiteSpace(s[i])
    ensures r == [] || !IsWhiteSpace(r[0])
  {
    if |s| > 0 && IsWhiteSpace(s[0]) then
      var r := TrimStart(s[1..]);
      assert s[1..][|s| - 1 - |r|..] == s[|s| - |r|..];
      assert forall i :: 1 <= i < |s| ==> s[i] == s[1..][i - 1];
      r
    else s
  }

  /** The trailing white space of `s` removed. */
  function TrimEnd(s: string): (r: string)
    ensures |r| <= |s| && r == s[..|r|]
    ensures forall i :: |r| <= i < |s| ==> IsWhiteSpace(s[i])
    ensures r == [] || !IsWhiteSpace(r[|r| - 1])
  {
    if |s| > 0 && IsWhiteSpace(s[|s| - 1]) then
      var r := TrimEnd(s[..|s| - 1]);
      assert forall i :: 0 <= i < |s| - 1 ==> s[i] == s[..|s| - 1][i];
      r
    else s
  }

  /**
    String.Trim: the leading white space dropped (TrimStart), then the
    trailing white space (TrimEnd); what is left neither starts nor ends with
    white space.
   */
  function Trim(s: string): (r: string)
    ensures |r| <= |s|
    ensures exists i :: StripsEnds(s, r, i)
    ensures r == [] || (!IsWhiteSpace(r[0]) && !IsWhiteSpace(r[|r| - 1]))
    ensures NoWhiteSpace(s) ==> r == s
  {
    TrimKeepsFirst(s);
    TrimStrips(s);
    TrimEnd(TrimStart(s))
  }

  /** `r` is the piece of `s` at offset i, and everything around it is white space. */
  predicate StripsEnds(s: string, r: string, i: int) {
    && 0 <= i && i + |r| <= |s| && r == s[i..i + |r|]
    && (forall j :: 0 <= j < i ==> IsWhiteSpace(s[j]))
    && (forall j :: i + |r| <= j < |s| ==> IsWhiteSpace(s[j]))
  }

  /** Trimming removes the leading white space, then the trailing white space, and nothing else. */
  lemma TrimStrips(s: string)
    ensures StripsEnds(s, TrimEnd(TrimStart(s)), |s| - |TrimStart(s)|)
  {
    StripsBothEnds(s, TrimStart(s), TrimEnd(TrimStart(s)));
  }

  /** White space cut from the front of `s`, giving `t`, then from the back of `t`, giving `r`. */
  lemma StripsBothEnds(s: string, t: string, r: string)
    requires |t| <= |s| && t == s[|s| - |t|..]
    requires forall i :: 0 <= i < |s| - |t| ==> IsWhiteSpace(s[i])
    requires |r| <= |t| && r == t[..|r|]
    requires forall i :: |r| <= i < |t| ==> IsWhiteSpace(t[i])
    ensures StripsEnds(s, r, |s| - |t|)
  {
    var i := |s| - |t|;
    assert r == s[i..i + |r|];
    forall j | i + |r| <= j < |s|
      ensures IsWhiteSpace(s[j])
    {
      assert s[j] == t[j - i];
    }
  }

  /** A tab in front of text that Trim leaves alone is all that Trim removes. */
  lemma TrimLeadingTab(s: string)
    requires |s| > 0 && Trim(s) == s
    ensures Trim("\t" + s) == s
  {
    var t := "\t" + s;
    assert t[1..] == s;
    assert TrimStart(s) == s;
    assert TrimStart(t) == s;
  }

  lemma TrimKeepsFirst(s: string)
    ensures var r := TrimEnd(TrimStart(s)); r == [] || r[0] == TrimStart(s)[0]
  {
  }

  /** Trimming text that starts and ends with a non-white character followed by "\r\n" drops exactly the "\r\n". */
  lemma TrimLine(s: string)
    requires |s| > 0 && !IsWhiteSpace(s[0]) && !IsWhiteSpace(s[|s| - 1])
    ensures Trim(s + "\r\n") == s
  {
    var t := s + "\r\n";
    assert TrimStart(t) == t;
    assert t[..|t| - 1][..|t| - 2] == s;
  }

  /** The tokens joined back together with `sep` between them. */
  function Join(ts: seq<string>, sep: char): string
  {
    if |ts| == 0 then []
    else if |ts| == 1 then ts[0]
    else ts[0] + [sep] + Join(ts[1..], sep)
  }

  /**
    String.Split(sep): the pieces of `s` between occurrences of `sep`, empty
    pieces included. The three postconditions determine the result.
   */
  function Split(s: string, sep: char): (r: seq<string>)
    ensures |r| >= 1
    ensures forall i :: 0 <= i < |r| ==> sep !in r[i]
    ensures Join(r, sep) == s
  {
    if s == [] then [[]]
    else
      var rest := Split(s[1..], sep);
      if s[0] == sep then
        assert Join([[]] + rest, sep) == [sep] + Join(rest, sep);
        [[]] + rest
      else
        var r := [[s[0]] + rest[0]] + rest[1..];
        assert r[1..] == rest[1..];
        assert Join(r, sep) == [s[0]] + Join(rest, sep);
        r
  }

  lemma {:induction false} SplitSingle(t: string, sep: char)
    requires sep !in t
    ensures Split(t, sep) == [t]
  {
    if t != [] {
      SplitSingle(t[1..], sep);
    }
  }

  lemma {:induction false} SplitCons(t: string, u: string, sep: char)
    requires sep !in t
    ensures Split(t + [sep] + u, sep) == [t] + Split(u, sep)
  {
    if t == [] {
      assert (t + [sep] + u)[1..] == u;
    } else {
      assert (t + [sep] + u)[1..] == t[1..] + [sep] + u;
      SplitCons(t[1..], u, sep);
      assert [t[0]] + t[1..] == t;
    }
  }

  /** Splitting undoes joining tokens that do not contain the separator. */
  lemma {:induction false} SplitJoin(ts: seq<string>, sep: char)
    requires |ts| >= 1
    requires forall i :: 0 <= i < |ts| ==> sep !in ts[i]
    ensures Split(Join(ts, sep), sep) == ts
  {
    if |ts| == 1 {
      SplitSingle(ts[0], sep);
    } else {
      SplitCons(ts[0], Join(ts[1..], sep), sep);
      SplitJoin(ts[1..], sep);
    }
  }

  /** The joined text ends with the last token's last character. */
  lemma {:induction false} JoinLast(ts: seq<string>, sep: char)
    requires |ts| >= 1 && |ts[|ts| - 1]| > 0
    ensures |Join(ts, sep)| > 0
    ensures Join(ts, sep)[|Join(ts, sep)| - 1] == ts[|ts| - 1][|ts[|ts| - 1]| - 1]
  {
    if |ts| > 1 {
      JoinLast(ts[1..], sep);
    }
  }

  /** The joined text starts with the first token's first character and ends with the last token's last character. */
  lemma JoinEnds(ts: seq<string>, sep: char)
    requires |ts| >= 1 && |ts[0]| > 0 && |ts[|ts| - 1]| > 0
    ensures |Join(ts, sep)| > 0
    ensures Join(ts, sep)[0] == ts[0][0]
    ensures Join(ts, sep)[|Join(ts, sep)| - 1] == ts[|ts| - 1][|ts[|ts| - 1]| - 1]
  {
    JoinLast(ts, sep);
  }

  predicate HasCrLfAt(s: string, i: int) {
    0 <= i && i + 1 < |s| && s[i] == '\r' && s[i + 1] == '\n'
  }

  /** s.IndexOf("\r\n") as an ordinal search: the first position of "\r\n", or -1. */
  function IndexOfCrLf(s: string): (r: int)
    ensures r == -1 || HasCrLfAt(s, r)
    ensures r == -1 <==> forall i :: !HasCrLfAt(s, i)
    ensures forall i :: 0 <= i < r ==> !HasCrLfAt(s, i)
  {
    if |s| < 2 then -1
    else if s[0] == '\r' && s[1] == '\n' then 0
    else
      var k := IndexOfCrLf(s[1..]);
      assert forall i :: HasCrLfAt(s, i) && i > 0 ==> HasCrLfAt(s[1..], i - 1);
      if k < 0 then -1 else k + 1
  }

  /** A "\r\n" already in a prefix is still found once more text is appended. */
  lemma CrLfStaysFound(s: string, t: string)
    requires IndexOfCrLf(s) > -1
    ensures IndexOfCrLf(s + t) > -1
  {
    var i := IndexOfCrLf(s);
    assert HasCrLfAt(s + t, i);
  }

  predicate IsDigit(c: char) {
    '0' <= c <= '9'
  }

  predicate AllDigits(s: string) {
    forall i :: 0 <= i < |s| ==> IsDigit(s[i])
  }

  function DigitValue(c: char): nat
    requires IsDigit(c)
  {
    c as int - '0' as int
  }

  function DigitChar(d: nat): (c: char)
    requires d < 10
    ensures IsDigit(c) && DigitValue(c) == d
  {
    ('0' as int + d) as char
  }

  /** The value of a string of decimal digits, most significant first. */
  function DigitsValue(s: string): nat
    requires AllDigits(s)
  {
    if s == [] then 0 else DigitsValue(s[..|s| - 1]) * 10 + DigitValue(s[|s| - 1])
  }

  /** The white space Int32.TryParse skips around the digits: U+0009..U+000D and U+0020. */
  predicate IsNumberWhite(c: char) {
    c == ' ' || '\t' <= c <= '\r'
  }

  predicate AllNul(s: string) {
    forall i :: 0 <= i < |s| ==> s[i] == '\0'
  }

  /** What Int32.TryParse lets follow the digits: white space, then NUL characters. */
  predicate IsNumberTrailer(t: string)
    decreases |t|
  {
    if t != [] && IsNumberWhite(t[0]) then IsNumberTrailer(t[1..]) else AllNul(t)
  }

  /** The number of decimal digits at the start of `s`. */
  function DigitRun(s: string): (n: nat)
    ensures n <= |s| && AllDigits(s[..n])
    ensures n < |s| ==> !IsDigit(s[n])
  {
    if s != [] && IsDigit(s[0]) then
      var m := DigitRun(s[1..]);
      assert s[..m + 1] == [s[0]] + s[1..][..m];
      m + 1
    else 0
  }

  lemma {:induction false} DigitRunAll(s: string)
    requires AllDigits(s)
    ensures DigitRun(s) == |s|
  {
    if s != [] {
      DigitRunAll(s[1..]);
    }
  }

  /**
    Int32.TryParse under NumberStyles.Integer on text that is already trimmed:
    an optional '+' or '-', one or more decimal digits, a value that fits in
    32 bits, and after the digits only white space followed by NUL characters;
    anything else fails.
   */
  function TryParseInt32(s: string): (r: Option<int>)
    ensures r.Some? ==> Int32Min <= r.value <= Int32Max
    ensures r.Some? ==> |s| > 0 && (IsDigit(s[0]) || s[0] == '+' || s[0] == '-')
  {
    var signed := |s| > 0 && (s[0] == '+' || s[0] == '-');
    var rest := if signed then s[1..] else s;
    var n := DigitRun(rest);
    if n == 0 || !IsNumberTrailer(rest[n..]) then None
    else
      var magnitude := DigitsValue(rest[..n]);
      var v: int := if signed && s[0] == '-' then -(magnitude as int) else magnitude;
      if Int32Min <= v <= Int32Max then Some(v) else None
  }

  /** Int32.ToString for a non-negative value: its shortest decimal digits. */
  function NatToString(n: nat): (r: string)
    ensures |r| >= 1
  {
    if n < 10 then [DigitChar(n)] else NatToString(n / 10) + [DigitChar(n % 10)]
  }

  /** The rendering is all digits, has no leading zero, and denotes the value. */
  lemma {:induction false} NatToStringDigits(n: nat)
    ensures var r := NatToString(n); AllDigits(r) && DigitsValue(r) == n && (r[0] == '0' ==> n == 0)
  {
    if n >= 10 {
      NatToStringDigits(n / 10);
      var r := NatToString(n);
      assert r[..|r| - 1] == NatToString(n / 10);
    }
  }

  lemma NatToStringTimesTen(n: nat)
    requires n > 0
    ensures NatToString(n * 10) == NatToString(n) + "0"
  {
    assert (n * 10) / 10 == n && (n * 10) % 10 == 0;
  }

  /** Parsing the rendering of any value that fits in 32 bits gives the value back. */
  lemma ParseNatToString(n: nat)
    requires n <= Int32Max
    ensures TryParseInt32(NatToString(n)) == Some(n)
  {
    var d := NatToString(n);
    NatToStringDigits(n);
    DigitRunAll(d);
    assert d[..|d|] == d && d[|d|..] == [];
    assert IsDigit(d[0]);
  }

  /** NUL characters after the digits are accepted and ignored. */
  lemma ParseTrailingNul(n: nat, t: string)
    requires n <= Int32Max && AllNul(t)
    ensures TryParseInt32(NatToString(n) + t) == Some(n)
  {
    var d := NatToString(n);
    var s := d + t;
    NatToStringDigits(n);
    DigitRunPrefix(d, t);
    assert s[..|d|] == d && s[|d|..] == t;
    assert s[0] == d[0];
  }

  /** A rendered value followed by one NUL is a token without white space that parses as the value. */
  lemma ParseNulToken(n: nat)
    requires n <= Int32Max
    ensures NoWhiteSpace(NatToString(n) + "\0")
    ensures TryParseInt32(NatToString(n) + "\0") == Some(n)
  {
    NatToStringNoWhiteSpace(n);
    ParseTrailingNul(n, "\0");
  }

  /** A run of digits followed by a non-digit is counted exactly. */
  lemma {:induction false} DigitRunPrefix(d: string, t: string)
    requires AllDigits(d) && (t == [] || !IsDigit(t[0]))
    ensures DigitRun(d + t) == |d|
  {
    if d != [] {
      assert (d + t)[1..] == d[1..] + t;
      DigitRunPrefix(d[1..], t);
    }
  }

  /** A value beyond the 32-bit range is refused even though it is well-formed. */
  lemma ParseNatToStringOverflow(n: nat)
    requires n > Int32Max
    ensures TryParseInt32(NatToString(n)) == None
  {
    var d := NatToString(n);
    NatToStringDigits(n);
    DigitRunAll(d);
    assert d[..|d|] == d && d[|d|..] == [];
    assert IsDigit(d[0]);
  }

  /** Parsing a minus sign before the rendering of a value gives its negation. */
  lemma ParseNegated(n: nat)
    requires n <= -Int32Min
    ensures TryParseInt32("-" + NatToString(n)) == Some(-(n as int))
  {
    var d := NatToString(n);
    NatToStringDigits(n);
    DigitRunAll(d);
    assert ("-" + d)[1..] == d;
    assert d[..|d|] == d && d[|d|..] == [];
  }

  lemma NatToStringNoWhiteSpace(n: nat)
    ensures NoWhiteSpace(NatToString(n)) && ' ' !in NatToString(n)
  {
    NatToStringDigits(n);
    var r := NatToString(n);
    forall i | 0 <= i < |r|
      ensures !IsWhiteSpace(r[i]) && r[i] != ' '
    {
      DigitNotWhiteSpace(r[i]);
    }
  }

  lemma DigitNotWhiteSpace(c: char)
    requires IsDigit(c)
    ensures !IsWhiteSpace(c)
  {
  }
}
