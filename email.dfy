/**
 * The contact form's e-mail check: the regular expression
 * /^[^\s@]+@[^\s@]+\.[^\s@]+$/ applied with `RegExp.prototype.test`.
 */
module EmailFormat {
  import opened Text

  /** A character of the class `[^\s@]`: neither white space nor '@'. */
  predicate IsPlain(c: char)
  {
    !IsWhitespace(c) && c != '@'
  }

  predicate AllPlain(s: string)
  {
    forall k :: 0 <= k < |s| ==> IsPlain(s[k])
  }

  /** The pattern read literally: a non-empty run of `[^\s@]`, then '@', then a
      non-empty run, then a '.', then a non-empty run, and nothing else (`^` and
      `$` without the multiline flag anchor at the ends of the whole input). */
  ghost predicate MatchesEmailPattern(s: string)
  {
    exists at: int, dot: int ::
      0 < at && at + 1 < dot && dot + 1 < |s| &&
      s[at] == '@' && s[dot] == '.' &&
      AllPlain(s[..at]) && AllPlain(s[at + 1..dot]) && AllPlain(s[dot + 1..])
  }

  /** The length of the longest prefix of `s` made of `[^\s@]` characters. */
  function PlainPrefix(s: string): (n: nat)
    ensures n <= |s|
  {
    if s == [] || !IsPlain(s[0]) then 0
    else 1 + PlainPrefix(s[1..])
  }

  /** The prefix is plain and is followed by a character that is not. */
  lemma {:induction false} PlainPrefixSpec(s: string)
    ensures AllPlain(s[..PlainPrefix(s)])
    ensures PlainPrefix(s) < |s| ==> !IsPlain(s[PlainPrefix(s)])
  {
    if s != [] && IsPlain(s[0]) {
      PlainPrefixSpec(s[1..]);
      assert s[..PlainPrefix(s)] == [s[0]] + s[1..][..PlainPrefix(s[1..])];
    }
  }

  /** The domain part after the '@': plain characters with an inner '.', one
      that is neither the first nor the last character. */
  predicate IsDomain(d: string)
  {
    AllPlain(d) && |d| >= 3 && '.' in d[1..|d| - 1]
  }

  /** `validateEmail`: the local part is the longest plain prefix, which must be
      non-empty and end at an '@' that is followed by a domain. */
  function ValidateEmail(email: string): bool
  {
    var at := PlainPrefix(email);
    0 < at < |email| && email[at] == '@' && IsDomain(email[at + 1..])
  }

  /** An accepted address has no white space and exactly one '@'. */
  lemma AcceptedEmailShape(email: string)
    requires ValidateEmail(email)
    ensures forall k :: 0 <= k < |email| ==> !IsWhitespace(email[k])
    ensures '@' in email
    ensures forall i, j :: 0 <= i < j < |email| && email[i] == '@' ==> email[j] != '@'
  {
    var at := PlainPrefix(email);
    PlainPrefixSpec(email);
    assert forall k :: 0 <= k < at ==> email[k] == email[..at][k];
    assert forall k :: at < k < |email| ==> email[k] == email[at + 1..][k - at - 1];
  }

  /** The split at the longest plain prefix is the only split the pattern can use. */
  lemma PlainPrefixUnique(s: string, i: nat)
    requires i < |s| && AllPlain(s[..i]) && !IsPlain(s[i])
    ensures PlainPrefix(s) == i
  {
    PlainPrefixSpec(s);
  }

  /** `validateEmail` accepts exactly the strings the regular expression matches. */
  lemma ValidateEmailMatchesPattern(s: string)
    ensures ValidateEmail(s) <==> MatchesEmailPattern(s)
  {
    if ValidateEmail(s) { AcceptedMatches(s); }
    if MatchesEmailPattern(s) {
      var at: int, dot: int :|
        0 < at && at + 1 < dot && dot + 1 < |s| &&
        s[at] == '@' && s[dot] == '.' &&
        AllPlain(s[..at]) && AllPlain(s[at + 1..dot]) && AllPlain(s[dot + 1..]);
      MatchAccepted(s, at, dot);
    }
  }

  lemma AcceptedMatches(s: string)
    requires ValidateEmail(s)
    ensures MatchesEmailPattern(s)
  {
    var at := PlainPrefix(s);
    PlainPrefixSpec(s);
    var d := s[at + 1..];
    var i :| 0 <= i < |d[1..|d| - 1]| && d[1..|d| - 1][i] == '.';
    var dot := at + 2 + i;
    assert s[dot] == '.';
    assert s[at + 1..dot] == d[..i + 1];
    assert s[dot + 1..] == d[i + 2..];
    assert AllPlain(d[..i + 1]);
    assert AllPlain(d[i + 2..]);
  }

  lemma MatchAccepted(s: string, at: int, dot: int)
    requires 0 < at && at + 1 < dot && dot + 1 < |s|
    requires s[at] == '@' && s[dot] == '.'
    requires AllPlain(s[..at]) && AllPlain(s[at + 1..dot]) && AllPlain(s[dot + 1..])
    ensures ValidateEmail(s)
  {
    PlainPrefixUnique(s, at);
    var d := s[at + 1..];
    assert IsPlain('.');
    assert AllPlain(d) by {
      forall k | 0 <= k < |d| ensures IsPlain(d[k]) {
        if k < dot - at - 1 { assert d[k] == s[at + 1..dot][k]; }
        else if k > dot - at - 1 { assert d[k] == s[dot + 1..][k - (dot - at)]; }
      }
    }
    assert d[1..|d| - 1][dot - at - 2] == '.';
  }

  /** The regular expression's boundary cases: a '.' is required after the '@',
      and leading white space is rejected rather than ignored. */
  lemma AcceptedExample()
    ensures ValidateEmail("a@b.c") && MatchesEmailPattern("a@b.c")
  {
    var e := "a@b.c";
    assert e[..1] == "a" && e[2..3] == "b" && e[4..] == "c";
    MatchAccepted(e, 1, 3);
  }

  lemma RejectedExamples()
    ensures !ValidateEmail("a@b")
    ensures !ValidateEmail("a@.c")
    ensures !ValidateEmail("a@b.")
    ensures !ValidateEmail("a@@b.c")
    ensures !ValidateEmail(" a@b.c")
  {
    var twice := "a@@b.c";
    assert twice[2..][0] == '@';
  }
}
