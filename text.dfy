/** String.prototype.trim: removes leading and trailing white space. */
module Text {
  import opened Lists

  /** The characters JavaScript's trim removes: WhiteSpace and LineTerminator. */
  predicate IsSpace(c: char) {
    c == '\t' || c == '\n' || c == '\U{0B}' || c == '\U{0C}' || c == '\r' || c == ' '
    || c == '\U{A0}' || c == '\U{1680}' || ('\U{2000}' <= c <= '\U{200A}')
    || c == '\U{2028}' || c == '\U{2029}' || c == '\U{202F}' || c == '\U{205F}'
    || c == '\U{3000}' || c == '\U{FEFF}'
  }

  /** The line terminators of ECMA-262: LF, CR, LINE SEPARATOR and PARAGRAPH SEPARATOR. */
  const LineTerminators: set<char> := {'\n', '\r', '\U{2028}', '\U{2029}'}

  /** The space separators (general category Zs) of Unicode 6.3 and later. */
  const SpaceSeparators: set<char> := {
    ' ', '\U{A0}', '\U{1680}', '\U{2000}', '\U{2001}', '\U{2002}', '\U{2003}', '\U{2004}',
    '\U{2005}', '\U{2006}', '\U{2007}', '\U{2008}', '\U{2009}', '\U{200A}', '\U{202F}',
    '\U{205F}', '\U{3000}'}

  /** The other white space ECMA-262 names: TAB, VT, FF and ZERO WIDTH NO-BREAK SPACE. */
  const OtherWhiteSpace: set<char> := {'\t', '\U{0B}', '\U{0C}', '\U{FEFF}'}

  /** A character is white space for trim exactly when it is a line terminator, a space separator or one of the other four. */
  lemma SpaceKinds(c: char)
    ensures IsSpace(c) <==> c in LineTerminators || c in SpaceSeparators || c in OtherWhiteSpace
  {
    if '\U{2000}' <= c <= '\U{200A}' {
      var n := c as int;
      assert n == 0x2000 || n == 0x2001 || n == 0x2002 || n == 0x2003 || n == 0x2004 || n == 0x2005
        || n == 0x2006 || n == 0x2007 || n == 0x2008 || n == 0x2009 || n == 0x200A;
    }
  }

  ghost predicate AllSpace(s: string) {
    forall i :: 0 <= i < |s| ==> IsSpace(s[i])
  }

  /** A string that neither starts nor ends with white space. */
  ghost predicate IsTrimmed(s: string) {
    s == [] || (!IsSpace(s[0]) && !IsSpace(s[|s| - 1]))
  }

  /** Number of white-space characters at the start of s. */
  function LeadingSpaces(s: string): (n: nat)
    ensures n <= |s| && forall i :: 0 <= i < n ==> IsSpace(s[i])
    ensures n < |s| ==> !IsSpace(s[n])
  {
    if s == [] || !IsSpace(s[0]) then 0 else 1 + LeadingSpaces(s[1..])
  }

  /** Number of white-space characters at the end of s. */
  function TrailingSpaces(s: string): (n: nat)
    ensures n <= |s| && forall i :: |s| - n <= i < |s| ==> IsSpace(s[i])
    ensures n < |s| ==> !IsSpace(s[|s| - n - 1])
  {
    if s == [] || !IsSpace(s[|s| - 1]) then 0 else 1 + TrailingSpaces(s[..|s| - 1])
  }

  /** s.trim(): s with its white-space prefix and suffix removed; what is left is a slice of s. */
  function Trim(s: string): (r: string)
    ensures IsTrimmed(r)
    ensures var i := LeadingSpaces(s);
      i <= |s| - |r| && r == s[i..i + |r|] && AllSpace(s[..i]) && AllSpace(s[i + |r|..])
  {
    var a := LeadingSpaces(s);
    var t := s[a..];
    var b := TrailingSpaces(t);
    var r := t[..|t| - b];
    SliceOfSuffix(s, a, |t| - b);
    assert AllSpace(s[..a]);
    assert AllSpace(s[a + |r|..]) by {
      forall j | a + |r| <= j < |s| ensures IsSpace(s[j]) {
        assert s[j] == t[j - a];
      }
    }
    r
  }

  /** Every character of s.trim() is a character of s. */
  lemma TrimSubset(s: string, c: char)
    requires c in Trim(s)
    ensures c in s
  {
    var r := Trim(s);
    var i := LeadingSpaces(s);
    var k :| 0 <= k < |r| && r[k] == c;
    assert s[i + k] == c;
  }

  /** A string with no white space at either end is its own trim. */
  lemma TrimOfTrimmed(s: string)
    requires IsTrimmed(s)
    ensures Trim(s) == s
  {
    assert LeadingSpaces(s) == 0;
    var r := Trim(s);
    assert r == s[..|r|];
  }

  lemma {:induction false} LeadingOf(a: string, u: string)
    requires AllSpace(a) && (u == [] || !IsSpace(u[0]))
    ensures LeadingSpaces(a + u) == |a|
  {
    if a != [] {
      assert (a + u)[0] == a[0] && (a + u)[1..] == a[1..] + u;
      LeadingOf(a[1..], u);
    }
  }

  lemma {:induction false} TrailingOf(u: string, b: string)
    requires AllSpace(b) && (u == [] || !IsSpace(u[|u| - 1]))
    ensures TrailingSpaces(u + b) == |b|
  {
    if b != [] {
      var s := u + b;
      assert s[|s| - 1] == b[|b| - 1] && s[..|s| - 1] == u + b[..|b| - 1];
      TrailingOf(u, b[..|b| - 1]);
    }
  }

  /** The trim is unique: white space, then a trimmed string r, then white space, trims to r. */
  lemma TrimUnique(a: string, r: string, b: string)
    requires AllSpace(a) && AllSpace(b) && IsTrimmed(r)
    ensures Trim(a + r + b) == r
  {
    if r == [] {
      assert AllSpace(a + b);
      LeadingOf(a + b, []);
      assert a + r + b == (a + b) + [];
    } else {
      LeadingOf(a, r + b);
      assert a + r + b == a + (r + b);
      assert (a + r + b)[|a|..] == r + b;
      TrailingOf(r, b);
    }
  }

  /** Trimming twice is trimming once. */
  lemma TrimIdempotent(s: string)
    ensures Trim(Trim(s)) == Trim(s)
  {
    TrimOfTrimmed(Trim(s));
  }
}
