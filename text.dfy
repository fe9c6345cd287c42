/**
 * Strings as the browser's string primitives see them: the ECMAScript
 * white-space set shared by `String.prototype.trim` and the regular
 * expression class `\s`, and trimming itself.
 */
module Text {

  /** ECMAScript WhiteSpace and LineTerminator code points (tab, line feed,
      vertical tab, form feed, carriage return, the space separators of the
      Unicode category Zs, the line and paragraph separators and the byte
      order mark). Both `trim()` and the regular-expression class `\s` use
      exactly this set. */
  const WhitespaceChars: set<char> := {
    '\t', '\n', '\U{000B}', '\U{000C}', '\r', ' ', '\U{00A0}', '\U{1680}',
    '\U{2000}', '\U{2001}', '\U{2002}', '\U{2003}', '\U{2004}', '\U{2005}',
    '\U{2006}', '\U{2007}', '\U{2008}', '\U{2009}', '\U{200A}',
    '\U{2028}', '\U{2029}', '\U{202F}', '\U{205F}', '\U{3000}', '\U{FEFF}'}

  predicate IsWhitespace(c: char)
  {
    c in WhitespaceChars
  }

  /** Every character of `s` is white space (the empty string included). */
  predicate IsBlank(s: string)
  {
    forall k :: 0 <= k < |s| ==> IsWhitespace(s[k])
  }

  /** The number of white-space characters at the start of `s`. */
  function LeadingWhitespace(s: string): (n: nat)
    ensures n <= |s|
  {
    if s == [] || !IsWhitespace(s[0]) then 0
    else 1 + LeadingWhitespace(s[1..])
  }

  /** The number of white-space characters at the end of `s`. */
  function TrailingWhitespace(s: string): (n: nat)
    ensures n <= |s|
  {
    if s == [] || !IsWhitespace(s[|s| - 1]) then 0
    else 1 + TrailingWhitespace(s[..|s| - 1])
  }

  /** The leading run is all white space and ends at a character that is not. */
  lemma {:induction false} LeadingWhitespaceSpec(s: string)
    ensures forall k :: 0 <= k < LeadingWhitespace(s) ==> IsWhitespace(s[k])
    ensures LeadingWhitespace(s) < |s| ==> !IsWhitespace(s[LeadingWhitespace(s)])
  {
    if s != [] && IsWhitespace(s[0]) {
      LeadingWhitespaceSpec(s[1..]);
    }
  }

  /** The trailing run is all white space and starts after a character that is not. */
  lemma {:induction false} TrailingWhitespaceSpec(s: string)
    ensures forall k :: |s| - TrailingWhitespace(s) <= k < |s| ==> IsWhitespace(s[k])
    ensures TrailingWhitespace(s) < |s| ==> !IsWhitespace(s[|s| - 1 - TrailingWhitespace(s)])
  {
    if s != [] && IsWhitespace(s[|s| - 1]) {
      TrailingWhitespaceSpec(s[..|s| - 1]);
    }
  }

  /** `String.prototype.trim`: `s` without its leading and trailing white space. */
  function Trim(s: string): (r: string)
    ensures |r| <= |s|
  {
    var a := LeadingWhitespace(s);
    if a == |s| then []
    else
      var b := TrailingWhitespace(s);
      assert a + b < |s| by {
        LeadingWhitespaceSpec(s);
        TrailingWhitespaceSpec(s);
      }
      s[a..|s| - b]
  }

  /** The trim is empty exactly when `s` is blank, and otherwise it starts and
      ends with a character that is not white space. */
  lemma TrimSpec(s: string)
    ensures Trim(s) == [] <==> IsBlank(s)
    ensures Trim(s) != [] ==> !IsWhitespace(Trim(s)[0]) && !IsWhitespace(Trim(s)[|Trim(s)| - 1])
  {
    LeadingWhitespaceSpec(s);
    TrailingWhitespaceSpec(s);
    var a := LeadingWhitespace(s);
    if a < |s| {
      var b := TrailingWhitespace(s);
      assert Trim(s)[0] == s[a];
      assert Trim(s)[|Trim(s)| - 1] == s[|s| - 1 - b];
    }
  }

  /** What trimming removes: the trim is the slice of `s` that starts after
      the leading white space, and all that lies outside it is white space. */
  lemma TrimIsSlice(s: string)
    ensures LeadingWhitespace(s) + |Trim(s)| <= |s|
    ensures Trim(s) == s[LeadingWhitespace(s)..LeadingWhitespace(s) + |Trim(s)|]
    ensures IsBlank(s[..LeadingWhitespace(s)])
    ensures IsBlank(s[LeadingWhitespace(s) + |Trim(s)|..])
  {
    LeadingWhitespaceSpec(s);
    TrailingWhitespaceSpec(s);
    var a := LeadingWhitespace(s);
    if a < |s| {
      var b := TrailingWhitespace(s);
      assert |Trim(s)| == |s| - b - a;
    }
  }

  /** Trimming twice is trimming once. */
  lemma TrimIdempotent(s: string)
    ensures Trim(Trim(s)) == Trim(s)
  {
    var r := Trim(s);
    TrimSpec(s);
    if r != [] {
      assert LeadingWhitespace(r) == 0;
      assert TrailingWhitespace(r) == 0;
    }
  }

  /** A string that has no white space at all is its own trim. */
  lemma TrimOfSolid(s: string)
    requires forall k :: 0 <= k < |s| ==> !IsWhitespace(s[k])
    ensures Trim(s) == s
  {
    if s != [] {
      assert LeadingWhitespace(s) == 0;
      assert TrailingWhitespace(s) == 0;
    }
  }

  /** White space put in front of a string that has none leaves that string
      as the trim. */
  lemma TrimOfPaddedSolid(p: string, e: string)
    requires IsBlank(p)
    requires e != [] && forall k :: 0 <= k < |e| ==> !IsWhitespace(e[k])
    ensures Trim(p + e) == e
  {
    var t := p + e;
    LeadingOfPadded(p, e);
    assert LeadingWhitespace(e) == 0;
    assert t[|t| - 1] == e[|e| - 1];
    assert TrailingWhitespace(t) == 0;
    assert t[|p|..] == e;
  }

  lemma {:induction false} LeadingOfPadded(p: string, s: string)
    requires IsBlank(p)
    ensures LeadingWhitespace(p + s) == |p| + LeadingWhitespace(s)
  {
    if p != [] {
      assert (p + s)[1..] == p[1..] + s;
      LeadingOfPadded(p[1..], s);
    } else {
      assert p + s == s;
    }
  }
}
