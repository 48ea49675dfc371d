/** Whitespace trimming as `String.prototype.trim` performs it: strip the
    longest leading and the longest trailing run of white space. */
module TrimText {

  /** The code points ECMAScript counts as WhiteSpace or LineTerminator
      (section 12.2 and 12.3 of ECMA-262): tab, line feed, vertical tab,
      form feed, carriage return, the Unicode space separators, the line and
      paragraph separators, and the byte order mark. */
  predicate IsWhitespace(c: char)
  {
    c == '\t' || c == '\n' || c == '\U{000B}' || c == '\U{000C}' || c == '\r' ||
    c == ' ' || c == '\U{00A0}' || c == '\U{1680}' ||
    ('\U{2000}' <= c <= '\U{200A}') ||
    c == '\U{2028}' || c == '\U{2029}' || c == '\U{202F}' || c == '\U{205F}' ||
    c == '\U{3000}' || c == '\U{FEFF}'
  }

  predicate AllWhitespace(s: string)
  {
    forall i :: 0 <= i < |s| ==> IsWhitespace(s[i])
  }

  /** `s` with its leading white space removed: a suffix of `s`, everything
      cut off is white space, and it does not itself start with white space. */
  function TrimStart(s: string): (r: string)
    ensures |r| <= |s| && r == s[|s| - |r|..]
    ensures AllWhitespace(s[..|s| - |r|])
    ensures r != [] ==> !IsWhitespace(r[0])
  {
    if s != [] && IsWhitespace(s[0]) then
      var r := TrimStart(s[1..]);
      assert s[..|s| - |r|] == [s[0]] + s[1..][..|s| - 1 - |r|];
      r
    else
      s
  }

  /** `s` with its trailing white space removed: a prefix of `s`, everything
      cut off is white space, and it does not itself end with white space. */
  function TrimEnd(s: string): (r: string)
    ensures |r| <= |s| && r == s[..|r|]
    ensures AllWhitespace(s[|r|..])
    ensures r != [] ==> !IsWhitespace(r[|r| - 1])
  {
    if s != [] && IsWhitespace(s[|s| - 1]) then
      var r := TrimEnd(s[..|s| - 1]);
      assert s[|r|..] == s[..|s| - 1][|r|..] + [s[|s| - 1]];
      r
    else
      s
  }

  /** `s.trim()`: a slice of `s` with only white space cut off on either
      side; empty exactly when `s` is all white space, and otherwise neither
      starts nor ends with white space. */
  function Trim(s: string): (r: string)
    ensures |r| <= |s|
    ensures exists k, l :: 0 <= k <= l <= |s| && r == s[k..l] && AllWhitespace(s[..k]) && AllWhitespace(s[l..])
    ensures r == [] <==> AllWhitespace(s)
    ensures r != [] ==> !IsWhitespace(r[0]) && !IsWhitespace(r[|r| - 1])
  {
    var t := TrimStart(s);
    var r := TrimEnd(t);
    assert r == [] ==> s == s[..|s| - |t|] + t[|r|..];
    assert r != [] ==> r[0] == t[0];
    var k := |s| - |t|;
    assert r == s[k..k + |r|] && AllWhitespace(s[..k]) && s[k + |r|..] == t[|r|..];
    r
  }

  /** Leading white space in front of a part that does not start with white
      space is exactly what TrimStart removes. */
  lemma {:induction false} TrimStartDropsPrefix(a: string, rest: string)
    requires AllWhitespace(a)
    requires rest == [] || !IsWhitespace(rest[0])
    ensures TrimStart(a + rest) == rest
  {
    if a == [] {
      assert a + rest == rest;
    } else {
      assert (a + rest)[1..] == a[1..] + rest;
      TrimStartDropsPrefix(a[1..], rest);
    }
  }

  /** Trailing white space behind a part that does not end with white space
      is exactly what TrimEnd removes. */
  lemma {:induction false} TrimEndDropsSuffix(rest: string, b: string)
    requires AllWhitespace(b)
    requires rest == [] || !IsWhitespace(rest[|rest| - 1])
    ensures TrimEnd(rest + b) == rest
  {
    if b == [] {
      assert rest + b == rest;
    } else {
      var n := |b| - 1;
      assert (rest + b)[..|rest + b| - 1] == rest + b[..n];
      TrimEndDropsSuffix(rest, b[..n]);
    }
  }

  /** Trim is determined by its meaning: whenever `s` splits into white space,
      a middle part with no white space at either end, and white space, the
      trimmed string is that middle part. */
  lemma TrimUnique(a: string, m: string, b: string)
    requires AllWhitespace(a) && AllWhitespace(b)
    requires m == [] || (!IsWhitespace(m[0]) && !IsWhitespace(m[|m| - 1]))
    ensures Trim(a + m + b) == m
  {
    if m == [] {
      assert AllWhitespace(a + m + b) by {
        forall i | 0 <= i < |a + m + b| ensures IsWhitespace((a + m + b)[i]) {
          if i >= |a| { assert (a + m + b)[i] == b[i - |a|]; }
        }
      }
    } else {
      assert a + m + b == a + (m + b);
      TrimStartDropsPrefix(a, m + b);
      TrimEndDropsSuffix(m, b);
    }
  }

  /** Trimming twice is trimming once. */
  lemma TrimIdempotent(s: string)
    ensures Trim(Trim(s)) == Trim(s)
  {
    var r, e: string := Trim(s), [];
    assert e + r + e == r;
    TrimUnique(e, r, e);
  }

  /** The trimmed text is non-empty exactly when `s` holds a character that is
      not white space. */
  lemma TrimNonEmptyIff(s: string)
    ensures Trim(s) != [] <==> exists i :: 0 <= i < |s| && !IsWhitespace(s[i])
  {
  }
}
